/** Template strings: `fs_var_parse` (src/core/fs_var.c) and their expansion (src/mod/http/proxy.c). */
module Template {
  import opened Options
  import opened Decimal

  datatype Split = Split(ok: bool, tokens: seq<string>)

  predicate IsBrace(c: char) {
    c == '{' || c == '}'
  }

  /** Length of the literal s begins with. */
  function LiteralLength(s: string): (n: nat)
    ensures n <= |s|
    ensures forall i :: 0 <= i < n ==> s[i] != '$' && !IsBrace(s[i])
    ensures n < |s| ==> s[n] == '$' || IsBrace(s[n])
  {
    if s == [] || s[0] == '$' || IsBrace(s[0]) then 0 else 1 + LiteralLength(s[1..])
  }

  /** Length of what s adds to a variable that is open before it: up to `}` or the next `$`. */
  function VariableLength(s: string): (n: nat)
    ensures n <= |s|
    ensures forall i :: 0 <= i < n ==> s[i] != '$' && (s[i] == '}' ==> i == n - 1)
    ensures n < |s| && (n == 0 || s[n - 1] != '}') ==> s[n] == '$'
  {
    if s == [] || s[0] == '$' then 0
    else if s[0] == '}' then 1
    else 1 + VariableLength(s[1..])
  }

  /** The split of a template; on a failure, the tokens up to the brace that is at fault. */
  function SplitOf(s: string): Split
    decreases |s|
  {
    if s == [] then Split(true, [])
    else if IsBrace(s[0]) then Split(false, [])
    else
      var n := if s[0] == '$' then 1 + VariableLength(s[1..]) else 1 + LiteralLength(s[1..]);
      var rest := SplitOf(s[n..]);
      Split(rest.ok, [s[..n]] + rest.tokens)
  }

  function Concat(tokens: seq<string>): string {
    if tokens == [] then [] else tokens[0] + Concat(tokens[1..])
  }

  predicate IsLiteral(t: string) {
    t != [] && forall i :: 0 <= i < |t| ==> t[i] !in {'$', '{', '}'}
  }

  predicate IsVariable(t: string) {
    t != [] && t[0] == '$' && forall i :: 0 < i < |t| ==> t[i] != '$' && (t[i] == '}' ==> i == |t| - 1)
  }

  predicate Closed(t: string) {
    t == [] || t[|t| - 1] == '}'
  }

  /** Literals and variables; a literal comes first or after a variable that was closed. */
  predicate Canonical(tokens: seq<string>) {
    (forall i :: 0 <= i < |tokens| ==> IsLiteral(tokens[i]) || IsVariable(tokens[i])) &&
    (forall i :: 0 < i < |tokens| && IsLiteral(tokens[i]) ==> Closed(tokens[i - 1]))
  }

  /** The length of the first token of a template. */
  ghost predicate FirstToken(s: string, n: nat) {
    0 < n <= |s| && !IsBrace(s[0]) &&
    n == if s[0] == '$' then 1 + VariableLength(s[1..]) else 1 + LiteralLength(s[1..])
  }

  lemma SplitFirst(s: string, n: nat)
    requires FirstToken(s, n)
    ensures var rest := SplitOf(s[n..]);
      SplitOf(s) == Split(rest.ok, [s[..n]] + rest.tokens)
  {
  }

  lemma FirstTokenKind(s: string, n: nat)
    requires FirstToken(s, n)
    ensures if s[0] == '$' then IsVariable(s[..n]) else IsLiteral(s[..n])
    ensures n < |s| && !Closed(s[..n]) ==> s[n] == '$' || IsBrace(s[n])
  {
    assert forall i :: 0 < i < n ==> s[i] == s[1..][i - 1];
    if n < |s| {
      assert s[n] == s[1..][n - 1];
    }
  }

  lemma CanonicalMore(t: string, tokens: seq<string>)
    requires Canonical(tokens) && (IsLiteral(t) || IsVariable(t))
    requires tokens != [] && IsLiteral(tokens[0]) ==> Closed(t)
    ensures Canonical([t] + tokens)
  {
    hide IsLiteral, IsVariable;
    assert forall i :: 0 < i <= |tokens| ==> ([t] + tokens)[i] == tokens[i - 1];
  }

  /** The tokens of a split are canonical and partition the text that was read. */
  lemma {:induction false} SplitPartitions(s: string)
    ensures var r := SplitOf(s);
      Canonical(r.tokens) && Concat(r.tokens) <= s && (r.ok ==> Concat(r.tokens) == s) &&
      (r.tokens != [] && IsLiteral(r.tokens[0]) ==> s != [] && s[0] != '$' && !IsBrace(s[0]))
    decreases |s|
  {
    hide LiteralLength, VariableLength, Canonical;
    if s == [] || IsBrace(s[0]) {
      NoTokens();
    } else {
      var n := if s[0] == '$' then 1 + VariableLength(s[1..]) else 1 + LiteralLength(s[1..]);
      assert FirstToken(s, n);
      SplitFirst(s, n);
      FirstTokenKind(s, n);
      SplitPartitions(s[n..]);
      var t, rest := s[..n], SplitOf(s[n..]);
      CanonicalMore(t, rest.tokens);
      assert ([t] + rest.tokens)[1..] == rest.tokens && s == t + s[n..];
    }
  }

  lemma NoTokens()
    ensures Canonical([]) && Concat([]) == []
  {
  }

  lemma {:induction false} LiteralLengthIs(t: string, rest: string)
    requires forall i :: 0 <= i < |t| ==> t[i] != '$' && !IsBrace(t[i])
    requires rest != [] ==> rest[0] == '$' || IsBrace(rest[0])
    ensures LiteralLength(t + rest) == |t|
  {
    if t == [] {
      assert t + rest == rest;
    } else {
      assert (t + rest)[1..] == t[1..] + rest;
      LiteralLengthIs(t[1..], rest);
    }
  }

  lemma {:induction false} VariableLengthIs(t: string, rest: string)
    requires forall i :: 0 <= i < |t| ==> t[i] != '$' && (t[i] == '}' ==> i == |t| - 1)
    requires rest != [] && (t == [] || t[|t| - 1] != '}') ==> rest[0] == '$'
    ensures VariableLength(t + rest) == |t|
  {
    if t == [] {
      assert t + rest == rest;
    } else {
      assert (t + rest)[1..] == t[1..] + rest;
      if t[0] != '}' {
        VariableLengthIs(t[1..], rest);
      }
    }
  }

  lemma FirstTokenIs(t: string, rest: string)
    requires IsLiteral(t) || IsVariable(t)
    requires IsLiteral(t) && rest != [] ==> rest[0] == '$' || IsBrace(rest[0])
    requires IsVariable(t) && rest != [] && !Closed(t) ==> rest[0] == '$'
    ensures FirstToken(t + rest, |t|)
  {
    assert (t + rest)[1..] == t[1..] + rest;
    if IsVariable(t) {
      VariableLengthIs(t[1..], rest);
    } else {
      LiteralLengthIs(t[1..], rest);
    }
  }

  lemma CanonicalFirst(tokens: seq<string>)
    requires Canonical(tokens) && tokens != []
    ensures Canonical(tokens[1..]) && (IsLiteral(tokens[0]) || IsVariable(tokens[0]))
    ensures var rest := Concat(tokens[1..]);
      rest != [] ==> rest[0] == '$' || (IsVariable(tokens[0]) && Closed(tokens[0]) && !IsLiteral(tokens[0]))
  {
    assert forall i :: 0 <= i < |tokens| - 1 ==> tokens[1..][i] == tokens[i + 1];
    if |tokens| > 1 {
      assert Concat(tokens[1..])[0] == tokens[1][0];
    }
  }

  /** A canonical list of tokens is the split of its own text. */
  lemma {:induction false} SplitOfConcat(tokens: seq<string>)
    requires Canonical(tokens)
    ensures SplitOf(Concat(tokens)) == Split(true, tokens)
  {
    hide Canonical, IsLiteral, IsVariable, FirstToken, Closed, SplitOf;
    SplitBase([]);
    if tokens != [] {
      var t, rest := tokens[0], Concat(tokens[1..]);
      CanonicalFirst(tokens);
      SplitOfConcat(tokens[1..]);
      FirstTokenIs(t, rest);
      SplitFirst(t + rest, |t|);
      assert (t + rest)[..|t|] == t && (t + rest)[|t|..] == rest;
    }
  }

  // ---- When a template is rejected

  /** A `$` before position i has not met its `}` yet. */
  ghost predicate OpenAt(s: string, i: nat)
    requires i <= |s|
  {
    exists j :: 0 <= j < i && s[j] == '$' && Unclosed(s, j, i)
  }

  ghost predicate Unclosed(s: string, j: nat, i: nat)
    requires j <= i <= |s|
  {
    forall k :: j <= k < i ==> s[k] != '}'
  }

  /** A brace with no variable open. */
  ghost predicate StrayAt(s: string, i: nat) {
    i < |s| && s[i] in {'{', '}'} && !OpenAt(s, i)
  }

  /** In the text after a token that closes or precedes a `$`, what is open does not depend on that token. */
  lemma OpenAfter(s: string, n: nat, i: nat)
    requires n <= |s| && i <= |s| - n
    requires (n < |s| && s[n] == '$') || (forall j :: 0 <= j < n && s[j] == '$' ==> !Unclosed(s, j, n))
    requires n < |s| && s[n] == '$' ==> 0 < i
    ensures OpenAt(s, n + i) == OpenAt(s[n..], i)
  {
    if OpenAt(s[n..], i) {
      var j :| 0 <= j < i && s[n..][j] == '$' && Unclosed(s[n..], j, i);
      assert forall k :: n + j <= k < n + i ==> s[k] == s[n..][k - n];
      assert Unclosed(s, n + j, n + i);
    }
    if OpenAt(s, n + i) {
      var j :| 0 <= j < n + i && s[j] == '$' && Unclosed(s, j, n + i);
      var j' := if j < n then n else j;
      if j < n {
        assert Unclosed(s, j, n);
      }
      assert s[n..][j' - n] == '$';
      assert Unclosed(s[n..], j' - n, i);
    }
  }

  /**
   A template is rejected exactly when it has a stray brace, and then the tokens are the
   text before the first one.
   */
  lemma {:induction false} SplitFails(s: string)
    ensures var r := SplitOf(s);
      r.ok == (forall i :: 0 <= i < |s| ==> !StrayAt(s, i)) &&
      (!r.ok ==> var i := |Concat(r.tokens)|;
                 i < |s| && StrayAt(s, i) && forall k :: 0 <= k < i ==> !StrayAt(s, k))
    decreases |s|
  {
    hide StrayAt, LiteralLength, VariableLength;
    if s == [] {
    } else if IsBrace(s[0]) {
      FirstStray(s);
    } else {
      var n := if s[0] == '$' then 1 + VariableLength(s[1..]) else 1 + LiteralLength(s[1..]);
      SplitFails(s[n..]);
      TokenHasNoStray(s, n);
      forall i | 0 <= i < |s| - n
        ensures StrayAt(s, n + i) == StrayAt(s[n..], i)
      {
        StrayAfter(s, n, i);
      }
      var rest := SplitOf(s[n..]);
      assert SplitOf(s).tokens[1..] == rest.tokens;
      assert |Concat(SplitOf(s).tokens)| == n + |Concat(rest.tokens)|;
      assert forall k :: n <= k < |s| ==> StrayAt(s, k) == StrayAt(s[n..], k - n);
    }
  }

  lemma FirstStray(s: string)
    requires s != [] && IsBrace(s[0])
    ensures StrayAt(s, 0)
  {
  }

  lemma TokenHasNoStray(s: string, n: nat)
    requires s != [] && FirstToken(s, n)
    ensures forall k :: 0 <= k < n ==> !StrayAt(s, k)
  {
    forall k | 0 <= k < n
      ensures !StrayAt(s, k)
    {
      assert forall m :: 0 < m < n ==> s[m] == s[1..][m - 1];
      if s[0] == '$' && 0 < k {
        assert Unclosed(s, 0, k);
      }
    }
  }

  lemma StrayAfter(s: string, n: nat, i: nat)
    requires s != [] && FirstToken(s, n) && i < |s| - n
    ensures StrayAt(s, n + i) == StrayAt(s[n..], i)
  {
    assert forall m :: 0 < m < n ==> s[m] == s[1..][m - 1];
    assert s[n] == s[1..][n - 1];
    if s[n] == '$' && i == 0 {
    } else {
      if s[n] != '$' {
        forall j | 0 <= j < n && s[j] == '$'
          ensures !Unclosed(s, j, n)
        {
          assert j == 0;
          assert s[n - 1] == '}';
        }
      }
      OpenAfter(s, n, i);
    }
  }

  // ---- The parser

  /** A token's buffer, made one longer than the whole template, and the end of its text. */
  class Token {
    const buf: array<char>
    var last: nat

    ghost predicate Valid()
      reads this, buf
    {
      last < buf.Length
    }

    ghost function Text(): string
      requires Valid()
      reads this, buf
    {
      buf[..last]
    }

    /** `fs_var_new_token` */
    constructor (length: nat)
      requires 0 < length
      ensures Valid() && Text() == [] && fresh(buf) && buf.Length == length
    {
      buf := new char[length];
      last := 0;
    }

    /** A character and the terminator after it. */
    method Append(c: char)
      requires Valid() && last + 1 < buf.Length
      modifies this, buf
      ensures Valid() && Text() == old(Text()) + [c] && last == old(last) + 1
    {
      buf[last] := c;
      last := last + 1;
      buf[last] := '\0';
    }
  }

  /** What is left to split when `open` has been read of the current token. */
  function Resume(variable: bool, open: string, s: string): Split {
    if open == [] then SplitOf(s)
    else
      var n := if variable then VariableLength(s) else LiteralLength(s);
      var rest := SplitOf(s[n..]);
      Split(rest.ok, [open + s[..n]] + rest.tokens)
  }

  lemma ResumeLiteral(open: string, s: string)
    requires s != [] && s[0] != '$' && !IsBrace(s[0])
    ensures Resume(false, open, s) == Resume(false, open + [s[0]], s[1..])
  {
    hide SplitOf;
    if open == [] {
      assert FirstToken(s, 1 + LiteralLength(s[1..]));
      SplitFirst(s, 1 + LiteralLength(s[1..]));
    }
    var n := LiteralLength(s[1..]);
    assert s[..1 + n] == [s[0]] + s[1..][..n];
    assert open + s[..1 + n] == open + [s[0]] + s[1..][..n];
    assert s[1 + n..] == s[1..][n..];
    assert open == [] ==> open + [s[0]] == [s[0]];
  }

  lemma ResumeDollar(variable: bool, open: string, s: string)
    requires s != [] && s[0] == '$'
    ensures var rest := Resume(true, "$", s[1..]);
      Resume(variable, open, s) == Split(rest.ok, (if open == [] then [] else [open]) + rest.tokens)
  {
    hide SplitOf;
    var n := VariableLength(s[1..]);
    assert FirstToken(s, 1 + n);
    SplitFirst(s, 1 + n);
    assert s[..1 + n] == "$" + s[1..][..n];
    assert s[1 + n..] == s[1..][n..];
    assert open + s[..0] == open && s[0..] == s;
  }

  lemma ResumeVariable(open: string, s: string)
    requires open != [] && s != [] && s[0] != '$'
    ensures if s[0] == '}' then
              var rest := SplitOf(s[1..]);
              Resume(true, open, s) == Split(rest.ok, [open + [s[0]]] + rest.tokens)
            else Resume(true, open, s) == Resume(true, open + [s[0]], s[1..])
  {
    hide SplitOf;
    var n := VariableLength(s[1..]);
    if s[0] == '}' {
      assert s[..1] == [s[0]];
    } else {
      assert open + s[..1 + n] == open + [s[0]] + s[1..][..n];
      assert s[1 + n..] == s[1..][n..];
    }
  }

  lemma ResumeStray(open: string, s: string)
    requires s != [] && IsBrace(s[0])
    ensures Resume(false, open, s) == Split(false, if open == [] then [] else [open])
  {
    assert open + s[..0] == open && s[0..] == s;
  }

  lemma ResumeEnd(variable: bool, open: string)
    ensures Resume(variable, open, []) == Split(true, if open == [] then [] else [open])
  {
    assert open + [] == open;
  }

  /** The tokens are separate objects, each within its buffer, and hold these texts. */
  ghost predicate Holds(tokens: seq<Token>, texts: seq<string>, size: nat)
    reads tokens, set t <- tokens :: t.buf
  {
    |tokens| == |texts| &&
    (forall i :: 0 <= i < |tokens| ==>
       tokens[i].Valid() && tokens[i].buf.Length == size + 1 && tokens[i].Text() == texts[i]) &&
    (forall i, j :: 0 <= i < j < |tokens| ==> tokens[i] != tokens[j] && tokens[i].buf != tokens[j].buf)
  }

  method NewToken(tokens: seq<Token>, ghost texts: seq<string>, size: nat) returns (tokens': seq<Token>)
    requires Holds(tokens, texts, size)
    ensures Holds(tokens', texts + [[]], size)
    ensures |tokens'| == |tokens| + 1 && tokens' == tokens + [tokens'[|tokens|]]
    ensures fresh(tokens'[|tokens|]) && fresh(tokens'[|tokens|].buf)
  {
    var token := new Token(size + 1);
    tokens' := tokens + [token];
  }

  /** One character more for the last token; the others are left alone. */
  method AppendLast(tokens: seq<Token>, ghost texts: seq<string>, size: nat, c: char)
    requires Holds(tokens, texts, size) && tokens != [] && |texts[|texts| - 1]| < size
    modifies tokens[|tokens| - 1], tokens[|tokens| - 1].buf
    ensures Holds(tokens, texts[|texts| - 1 := texts[|texts| - 1] + [c]], size)
  {
    tokens[|tokens| - 1].Append(c);
  }

  /** What the parse has still to give, after the tokens so far. */
  ghost predicate Continues(goal: Split, texts: seq<string>, current: bool, variable: bool, s: string) {
    (current ==> texts != [] && texts[|texts| - 1] != []) && (variable ==> current) &&
    var open := if current then texts[|texts| - 1] else [];
    var rest := Resume(variable, open, s);
    goal.ok == rest.ok && goal.tokens == (if current then texts[..|texts| - 1] else texts) + rest.tokens
  }

  lemma ContinueDollar(goal: Split, texts: seq<string>, current: bool, variable: bool, s: string)
    requires Continues(goal, texts, current, variable, s) && s != [] && s[0] == '$'
    ensures Continues(goal, texts + ["$"], true, true, s[1..])
  {
    hide SplitOf, Resume;
    ResumeDollar(variable, if current then texts[|texts| - 1] else [], s);
  }

  lemma ContinueClose(goal: Split, texts: seq<string>, s: string)
    requires Continues(goal, texts, true, true, s) && s != [] && s[0] == '}'
    ensures Continues(goal, texts[|texts| - 1 := texts[|texts| - 1] + [s[0]]], false, false, s[1..])
  {
    hide SplitOf;
    ResumeVariable(texts[|texts| - 1], s);
  }

  lemma ContinueMore(goal: Split, texts: seq<string>, variable: bool, s: string)
    requires Continues(goal, texts, true, variable, s) && s != [] && s[0] != '$'
    requires if variable then s[0] != '}' else !IsBrace(s[0])
    ensures Continues(goal, texts[|texts| - 1 := texts[|texts| - 1] + [s[0]]], true, variable, s[1..])
  {
    hide SplitOf, Resume;
    if variable {
      ResumeVariable(texts[|texts| - 1], s);
    } else {
      ResumeLiteral(texts[|texts| - 1], s);
    }
  }

  lemma ContinueNew(goal: Split, texts: seq<string>, s: string)
    requires Continues(goal, texts, false, false, s) && s != [] && s[0] != '$' && !IsBrace(s[0])
    ensures Continues(goal, texts + [[s[0]]], true, false, s[1..])
  {
    hide SplitOf, Resume;
    ResumeLiteral([], s);
    assert [] + [s[0]] == [s[0]];
  }

  lemma ContinueStray(goal: Split, texts: seq<string>, current: bool, s: string)
    requires Continues(goal, texts, current, false, s) && s != [] && IsBrace(s[0])
    ensures goal == Split(false, texts)
  {
    hide SplitOf, Resume;
    ResumeStray(if current then texts[|texts| - 1] else [], s);
  }

  lemma ContinueEnd(goal: Split, texts: seq<string>, current: bool, variable: bool)
    requires Continues(goal, texts, current, variable, [])
    ensures goal == Split(true, texts)
  {
    hide SplitOf, Resume;
    ResumeEnd(variable, if current then texts[|texts| - 1] else []);
  }

  lemma ContinueStart(s: string)
    ensures Continues(SplitOf(s), [], false, false, s)
  {
  }

  lemma HoldsNone(size: nat)
    ensures Holds([], [], size)
  {
  }

  /** `fs_var_parse` */
  method VarParse(str: string) returns (ok: bool, tokens: seq<Token>)
    ensures ok == SplitOf(str).ok && Holds(tokens, SplitOf(str).tokens, |str|)
  {
    hide Continues, SplitOf, Holds;
    var variable := false;
    tokens := [];
    var current := false;   // a token is open: the source's `token` is not null
    var i := 0;
    ghost var goal := SplitOf(str);
    ghost var texts: seq<string> := [];
    ContinueStart(str);
    HoldsNone(|str|);
    assert str[0..] == str;
    while i < |str|
      invariant i <= |str|
      invariant Holds(tokens, texts, |str|) && |tokens| == |texts|
      invariant forall k :: 0 <= k < |tokens| ==> fresh(tokens[k]) && fresh(tokens[k].buf)
      invariant current ==> texts != [] && |texts[|texts| - 1]| <= i
      invariant Continues(goal, texts, current, variable, str[i..])
      invariant variable ==> current
    {
      var chr := str[i];
      ghost var s, before := str[i..], texts;
      assert s[0] == chr && s[1..] == str[i + 1..];
      i := i + 1;
      if chr == '$' {
        ContinueDollar(goal, texts, current, variable, s);
        variable, current := true, true;
        tokens := NewToken(tokens, texts, |str|);
        texts := texts + [[]];
      } else if chr == '{' {
        if !variable {
          ContinueStray(goal, texts, current, s);
          return false, tokens;
        }
        ContinueMore(goal, texts, variable, s);
      } else if chr == '}' {
        if !variable {
          ContinueStray(goal, texts, current, s);
          return false, tokens;
        }
        ContinueClose(goal, texts, s);
        variable := false;
        AppendLast(tokens, texts, |str|, chr);
        texts := texts[|texts| - 1 := texts[|texts| - 1] + [chr]];
        current := false;
        continue;
      } else if current {
        ContinueMore(goal, texts, variable, s);
      } else {
        ContinueNew(goal, texts, s);
      }
      if !current {
        tokens := NewToken(tokens, texts, |str|);
        texts := texts + [[]];
        current := true;
      }
      AppendLast(tokens, texts, |str|, chr);
      texts := texts[|texts| - 1 := texts[|texts| - 1] + [chr]];
      assert |texts| > |before| ==> [] + [chr] == [chr] && texts == before + [[chr]];
    }
    assert str[i..] == [];
    ContinueEnd(goal, texts, current, variable);
    return true, tokens;
  }

  // ---- Expansion

  /** The text of a list of tokens, with each variable replaced by its value if all have one. */
  function Expand(tokens: seq<string>, value: string -> Option<string>): Option<string> {
    if tokens == [] then Some([])
    else
      var t := tokens[0];
      var first := if t != [] && t[0] == '$' then value(t) else Some(t);
      var rest := Expand(tokens[1..], value);
      if first == None || rest == None then None else Some(first.value + rest.value)
  }

  /** Splitting and expanding distribute over a text that ends with nothing open. */
  lemma {:induction false} SplitAppend(s: string, t: string)
    requires SplitOf(s).ok && Closed(s)
    ensures var a, b := SplitOf(s), SplitOf(t);
      SplitOf(s + t) == Split(b.ok, a.tokens + b.tokens)
    decreases |s|
  {
    hide SplitOf, Closed;
    SplitBase(s);
    if s == [] {
      assert s + t == t && [] + SplitOf(t).tokens == SplitOf(t).tokens;
    } else {
      var n := if s[0] == '$' then 1 + VariableLength(s[1..]) else 1 + LiteralLength(s[1..]);
      assert FirstToken(s, n);
      FirstTokenAppend(s, t, n);
      SplitFirst(s, n);
      SplitFirst(s + t, n);
      ClosedTail(s, n);
      assert (s + t)[..n] == s[..n] && (s + t)[n..] == s[n..] + t;
      SplitAppend(s[n..], t);
      assert [s[..n]] + (SplitOf(s[n..]).tokens + SplitOf(t).tokens) == SplitOf(s).tokens + SplitOf(t).tokens;
    }
  }

  lemma ClosedTail(s: string, n: nat)
    requires Closed(s) && n <= |s|
    ensures Closed(s[n..])
  {
  }

  lemma SplitBase(s: string)
    ensures SplitOf([]) == Split(true, [])
    ensures s != [] && SplitOf(s).ok ==> !IsBrace(s[0])
  {
  }

  lemma FirstTokenAppend(s: string, t: string, n: nat)
    requires FirstToken(s, n) && Closed(s)
    ensures FirstToken(s + t, n)
  {
    FirstTokenKind(s, n);
    var rest := s[n..] + t;
    assert s + t == s[..n] + rest;
    if n < |s| {
      assert rest[0] == s[n];
      if s[0] == '$' && !Closed(s[..n]) {
        assert s[n] == s[1..][n - 1];
      }
    }
    FirstTokenIs(s[..n], rest);
  }

  lemma {:induction false} ExpandAppend(a: seq<string>, b: seq<string>, value: string -> Option<string>)
    ensures var x, y := Expand(a, value), Expand(b, value);
      Expand(a + b, value) == if x == None || y == None then None else Some(x.value + y.value)
    decreases |a|
  {
    if a == [] {
      assert a + b == b;
      var y := Expand(b, value);
      assert y.Some? ==> [] + y.value == y.value;
    } else {
      assert (a + b)[1..] == a[1..] + b;
      ExpandAppend(a[1..], b, value);
      var t, x, y := a[0], Expand(a[1..], value), Expand(b, value);
      var first := if t != [] && t[0] == '$' then value(t) else Some(t);
      if first.Some? && x.Some? && y.Some? {
        assert first.value + x.value + y.value == first.value + (x.value + y.value);
      }
    }
  }

  /** A template whose first part ends with nothing open expands part by part. */
  lemma ExpandComposes(s: string, t: string, value: string -> Option<string>)
    requires SplitOf(s).ok && Closed(s)
    ensures var x, y := Expand(SplitOf(s).tokens, value), Expand(SplitOf(t).tokens, value);
      SplitOf(s + t).ok == SplitOf(t).ok &&
      Expand(SplitOf(s + t).tokens, value) == if x == None || y == None then None else Some(x.value + y.value)
  {
    SplitAppend(s, t);
    ExpandAppend(SplitOf(s).tokens, SplitOf(t).tokens, value);
  }

  lemma {:induction false} ExpandIdentity(tokens: seq<string>)
    ensures Expand(tokens, t => Some(t)) == Some(Concat(tokens))
  {
    if tokens != [] {
      ExpandIdentity(tokens[1..]);
    }
  }

  /** Variables that stand for their own text give the template back. */
  lemma {:induction false} ExpandToSelf(s: string)
    requires SplitOf(s).ok
    ensures Expand(SplitOf(s).tokens, t => Some(t)) == Some(s)
  {
    SplitPartitions(s);
    ExpandIdentity(SplitOf(s).tokens);
  }

  /**
   What matching the request's path left: the groups up to the last one that took part, none
   without a match; the number of groups in the expression; and the named groups.
   */
  datatype Captures = Captures(groups: seq<string>, count: nat, named: map<string, string>)

  const PATH_PREFIX := "${path_"

  const MAX_INT := 0x7FFF_FFFF

  /**
   A group by number or by name; one the expression does not have is empty. The list of
   groups ends with a null pointer, which is empty too; the source reads past it for a group
   of the expression that comes later, and its number has to fit an int
   (src/mod/http/proxy.c:246-250).
   */
  function Captured(caps: Captures, name: string): Option<string> {
    if AllDigits(name) then
      var n := Value(name);
      if n > MAX_INT then None
      else if n > caps.count || n == |caps.groups| then Some([])
      else if n < |caps.groups| then Some(caps.groups[n])
      else None
    else if name in caps.named then Some(caps.named[name])
    else Some([])
  }

  /**
   The value of a variable token (src/mod/http/proxy.c:225-283). The prefix is compared over
   the shorter length, so a token that is cut short within it is taken for a path variable,
   with less than nothing left for the name; neither that nor a name too long for its buffer
   is defined. Any other variable is empty.
   */
  function VariableValue(caps: Captures): string -> Option<string> {
    (t: string) =>
      if t <= PATH_PREFIX then None
      else if PATH_PREFIX <= t then
        if |t| > |PATH_PREFIX| + 128 then None
        else Captured(caps, t[|PATH_PREFIX|..|t| - 1])
      else Some([])
  }

  /** The i-th token is a literal, and something was written before it. */
  ghost predicate LateLiteral(texts: seq<string>, value: string -> Option<string>, i: nat) {
    i < |texts| && texts[i] != [] && texts[i][0] != '$' && Expand(texts[..i], value) != Some([])
  }

  lemma ExpandNext(texts: seq<string>, value: string -> Option<string>, i: nat, buf: string)
    requires i < |texts| && Expand(texts[..i], value) == Some(buf)
    ensures var t := texts[i];
      var next := if t != [] && t[0] == '$' then value(t) else Some(t);
      Expand(texts[..i + 1], value) == if next == None then None else Some(buf + next.value)
  {
    var t := texts[i];
    var next := if t != [] && t[0] == '$' then value(t) else Some(t);
    var none: seq<string> := [];
    assert [t][1..] == none && Expand(none, value) == Some([]);
    assert next.Some? ==> next.value + [] == next.value;
    assert Expand([t], value) == next;
    ExpandAppend(texts[..i], [t], value);
    assert texts[..i] + [t] == texts[..i + 1];
  }

  /**
   `fs_mod_http_proxy_set_next_path`, on the tokens of a parsed template. `capacity` is the
   size of the path's memory, none at first: a literal is followed by a terminator, for
   which only the first piece of the path gets room. `spilt` tells whether one was written
   past the memory.
   */
  method SetNextPath(tokens: seq<Token>, caps: Captures, ghost texts: seq<string>, ghost size: nat)
    returns (path: Option<string>, spilt: bool)
    requires Holds(tokens, texts, size) && forall t <- texts :: t != []
    ensures path == Expand(texts, VariableValue(caps))
    ensures path.Some? ==> (spilt <==> exists i :: LateLiteral(texts, VariableValue(caps), i))
  {
    hide VariableValue, Expand;
    var buf: string := [];
    var capacity := 0;
    var i := 0;
    spilt := false;
    ghost var value := VariableValue(caps);
    ExpandNone(texts, value);
    while i < |tokens|
      invariant i <= |tokens|
      invariant Expand(texts[..i], value) == Some(buf)
      invariant capacity == 0 <==> buf == []
      invariant spilt <==> exists j :: 0 <= j < i && LateLiteral(texts, value, j)
    {
      ExpandNext(texts, value, i, buf);
      assert texts[i] in texts && tokens[i].Text() == texts[i];
      assert LateLiteral(texts, value, i) <==> texts[i][0] != '$' && buf != [];
      var token := tokens[i].buf[..tokens[i].last];
      if token[0] != '$' {
        capacity := if capacity == 0 then |token| + 1 else |buf| + |token|;
        buf := buf + token;
        spilt := spilt || |buf| >= capacity;
      } else {
        var v := VariableValue(caps)(token);
        if v == None {
          ExpandStops(texts, value, i + 1);
          return None, spilt;
        }
        if v.value != [] {
          capacity := if capacity == 0 then |v.value| + 1 else |buf| + |v.value|;
        }
        buf := buf + v.value;
      }
      i := i + 1;
    }
    assert texts[..i] == texts;
    return Some(buf), spilt;
  }

  lemma ExpandNone(texts: seq<string>, value: string -> Option<string>)
    ensures Expand(texts[..0], value) == Some([])
  {
  }

  lemma ExpandStops(texts: seq<string>, value: string -> Option<string>, i: nat)
    requires i <= |texts| && Expand(texts[..i], value) == None
    ensures Expand(texts, value) == None
  {
    ExpandAppend(texts[..i], texts[i..], value);
    assert texts[..i] + texts[i..] == texts;
  }

  /** A literal after a variable that stands for something: the template "${path_1}/x". */
  lemma SpiltPath(caps: Captures)
    requires 1 < |caps.groups| && 1 <= caps.count && caps.groups[1] != []
    ensures var texts := ["${path_1}", "/x"];
      SplitOf("${path_1}/x") == Split(true, texts) && LateLiteral(texts, VariableValue(caps), 1)
  {
    hide VariableValue, SplitOf, Expand;
    var texts := ["${path_1}", "/x"];
    TwoTokens();
    SecondGroup(caps);
    var value := VariableValue(caps);
    ExpandNone(texts, value);
    ExpandNext(texts, value, 0, []);
    assert [] + caps.groups[1] == caps.groups[1];
  }

  lemma TwoTokens()
    ensures SplitOf("${path_1}/x") == Split(true, ["${path_1}", "/x"])
  {
    hide SplitOf;
    var t, texts := "${path_1}", ["${path_1}", "/x"];
    assert IsVariable(t) && IsLiteral("/x") && t[|t| - 1] == '}';
    assert texts[1..] == ["/x"] && ["/x"][1..] == [] && Concat(["/x"]) == "/x" && Concat(texts) == "${path_1}/x";
    SplitOfConcat(texts);
  }

  lemma SecondGroup(caps: Captures)
    requires 1 < |caps.groups| && 1 <= caps.count
    ensures VariableValue(caps)("${path_1}") == Some(caps.groups[1])
  {
    var t := "${path_1}";
    assert t[..|PATH_PREFIX|] == PATH_PREFIX && t[|PATH_PREFIX|..|t| - 1] == "1";
    assert Value("1") == 1 && AllDigits("1");
  }
}
