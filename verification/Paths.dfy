/**
 What a rewritten path is made of (src/mod/http/proxy.c:190-283): literals, numbered and
 named groups of the expression that matched, and other variables.
 */
module Paths {
  import opened Options
  import opened Decimal
  import opened Template

  /** `last` is the variable's last character, the closing brace if it has one. */
  datatype Part =
    | Text(text: string)
    | Group(digits: string, last: char)
    | Named(name: string, last: char)
    | Other(token: string)

  function Written(p: Part): string {
    match p
    case Text(text) => text
    case Group(digits, last) => "${path_" + digits + [last]
    case Named(name, last) => "${path_" + name + [last]
    case Other(token) => token
  }

  predicate WellWritten(p: Part) {
    match p
    case Text(text) => IsLiteral(text)
    case Group(digits, _) => AllDigits(digits) && IsVariable(Written(p))
    case Named(name, _) => !AllDigits(name) && IsVariable(Written(p))
    case Other(token) => IsVariable(token) && !("${path_" <= token)
  }

  /** A group by number: empty beyond those of the expression, and undefined beyond an int. */
  function GroupText(caps: Captures, n: nat): Option<string> {
    if n > 2147483647 then None
    else if n > caps.count then Some("")
    else if n < |caps.groups| then Some(caps.groups[n])
    else if n == |caps.groups| then Some("")
    else None
  }

  /** What a part contributes. The buffer for a name has 128 characters, its terminator included. */
  function Meaning(caps: Captures, p: Part): Option<string>
    requires WellWritten(p)
  {
    match p
    case Text(text) => Some(text)
    case Group(digits, _) => if |digits| >= 128 then None else GroupText(caps, Value(digits))
    case Named(name, _) =>
      if |name| >= 128 then None
      else if name in caps.named then Some(caps.named[name])
      else Some("")
    case Other(token) => if token <= "${path_" then None else Some("")
  }

  /** A variable token's value is what the part it was written from means. */
  lemma {:induction false} VariableMeaning(caps: Captures, p: Part)
    requires WellWritten(p) && !p.Text?
    ensures VariableValue(caps)(Written(p)) == Meaning(caps, p)
  {
    hide Value;
    var t := Written(p);
    match p
    case Group(digits, last) =>
      assert t[..7] == "${path_" && t[7..|t| - 1] == digits && |t| == 8 + |digits|;
    case Named(name, last) =>
      assert t[..7] == "${path_" && t[7..|t| - 1] == name && |t| == 8 + |name|;
    case Other(token) =>
  }

  /** The decimal numeral of a number stands for the group of that number. */
  lemma {:induction false} GroupByNumber(caps: Captures, n: nat, last: char)
    requires IsVariable("${path_" + Numeral(n) + [last])
    ensures VariableValue(caps)("${path_" + Numeral(n) + [last]) == GroupText(caps, n)
  {
    var p := Group(Numeral(n), last);
    ValueOfNumeral(n);
    VariableMeaning(caps, p);
    if n <= 2147483647 {
      ShortNumeral(n, 10);
    }
  }

  lemma {:induction false} ShortNumeral(n: nat, k: nat)
    requires 0 < k && n < Power(10, k)
    ensures |Numeral(n)| <= k
  {
    if n >= 10 {
      assert k > 1;
      assert n / 10 < Power(10, k - 1);
      ShortNumeral(n / 10, k - 1);
    }
  }

  function Tokens(ps: seq<Part>): seq<string> {
    if ps == [] then [] else [Written(ps[0])] + Tokens(ps[1..])
  }

  /** The parts' meanings joined, if each has one. */
  function PathOf(caps: Captures, ps: seq<Part>): Option<string>
    requires forall p <- ps :: WellWritten(p)
  {
    if ps == [] then Some("")
    else
      var first, rest := Meaning(caps, ps[0]), PathOf(caps, ps[1..]);
      if first == None || rest == None then None else Some(first.value + rest.value)
  }

  lemma {:induction false} ExpandParts(caps: Captures, ps: seq<Part>)
    requires forall p <- ps :: WellWritten(p)
    ensures Expand(Tokens(ps), VariableValue(caps)) == PathOf(caps, ps)
  {
    hide VariableValue, Meaning;
    if ps != [] {
      ExpandParts(caps, ps[1..]);
      assert Tokens(ps)[1..] == Tokens(ps[1..]);
      PartBegins(caps, ps[0]);
      if !ps[0].Text? {
        VariableMeaning(caps, ps[0]);
      }
    }
  }

  lemma PartBegins(caps: Captures, p: Part)
    requires WellWritten(p)
    ensures Written(p) != [] && (Written(p)[0] == '$' <==> !p.Text?)
    ensures p.Text? ==> Meaning(caps, p) == Some(Written(p))
  {
  }

  /**
   A template written from these parts splits into them, and expanding it gives the parts'
   meanings in order.
   */
  lemma {:induction false} PathOfTemplate(caps: Captures, ps: seq<Part>)
    requires (forall p <- ps :: WellWritten(p)) && Canonical(Tokens(ps))
    ensures SplitOf(Concat(Tokens(ps))) == Split(true, Tokens(ps))
    ensures Expand(SplitOf(Concat(Tokens(ps))).tokens, VariableValue(caps)) == PathOf(caps, ps)
  {
    hide VariableValue, Canonical, SplitOf, Expand, PathOf;
    SplitOfConcat(Tokens(ps));
    ExpandParts(caps, ps);
  }

  lemma {:induction false} TokensAt(ps: seq<Part>, i: nat)
    requires i <= |ps|
    ensures |Tokens(ps)| == |ps| && Tokens(ps)[..i] == Tokens(ps[..i])
    ensures i < |ps| ==> Tokens(ps)[i] == Written(ps[i])
  {
    if ps != [] {
      TokensAt(ps[1..], if i == 0 then 0 else i - 1);
      if i > 0 {
        assert ps[..i][1..] == ps[1..][..i - 1] && ps[..i][0] == ps[0];
        assert Tokens(ps)[..i] == [Written(ps[0])] + Tokens(ps[1..])[..i - 1];
      }
    }
  }

  /** A literal after something that was already written. */
  ghost predicate LateText(caps: Captures, ps: seq<Part>, i: nat)
    requires forall p <- ps :: WellWritten(p)
  {
    i < |ps| && ps[i].Text? && PathOf(caps, ps[..i]) != Some("")
  }

  lemma {:induction false} LateIsLate(caps: Captures, ps: seq<Part>, i: nat)
    requires forall p <- ps :: WellWritten(p)
    ensures LateLiteral(Tokens(ps), VariableValue(caps), i) <==> LateText(caps, ps, i)
  {
    hide VariableValue, Expand, PathOf, Meaning;
    TokensAt(ps, if i <= |ps| then i else 0);
    if i < |ps| {
      PartBegins(caps, ps[i]);
      ExpandParts(caps, ps[..i]);
    }
  }

  /** Parsing a template and building a path from it. */
  method Rewrite(ps: seq<Part>, caps: Captures) returns (path: Option<string>, spilt: bool)
    requires (forall p <- ps :: WellWritten(p)) && Canonical(Tokens(ps))
    ensures path == PathOf(caps, ps)
    ensures path.Some? ==> (spilt <==> exists i :: LateText(caps, ps, i))
  {
    hide VariableValue, Canonical, SplitOf, Expand, PathOf, Holds;
    PathOfTemplate(caps, ps);
    var ok, tokens := VarParse(Concat(Tokens(ps)));
    forall t | t in Tokens(ps)
      ensures t != []
    {
      TokenNotEmpty(caps, ps, t);
    }
    path, spilt := SetNextPath(tokens, caps, Tokens(ps), |Concat(Tokens(ps))|);
    forall i: nat
      ensures LateLiteral(Tokens(ps), VariableValue(caps), i) <==> LateText(caps, ps, i)
    {
      LateIsLate(caps, ps, i);
    }
  }

  lemma {:induction false} TokenNotEmpty(caps: Captures, ps: seq<Part>, t: string)
    requires (forall p <- ps :: WellWritten(p)) && t in Tokens(ps)
    ensures t != []
  {
    hide WellWritten, Written;
    if ps != [] && t == Tokens(ps)[0] {
      PartBegins(caps, ps[0]);
    } else if ps != [] {
      assert t in Tokens(ps[1..]);
      TokenNotEmpty(caps, ps[1..], t);
    }
  }
}
