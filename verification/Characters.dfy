/**
 The characters of the language, written out: what separates tokens, what ends a directive,
 and what each backslash stands for (src/core/fs_conf.c:163-321). A raw token is read here
 as a sequence of single characters and backslash pairs.
 */
module Characters {
  import opened Lexer
  import opened Scanner
  import opened Printer

  datatype Unit = Single(c: char) | Pair(c: char)

  function Raw(us: seq<Unit>): string {
    if us == [] then [] else (if us[0].Pair? then ['\\', us[0].c] else [us[0].c]) + Raw(us[1..])
  }

  /** What a backslash and this character stand for; an unknown pair stands for itself. */
  function PairText(c: char): string {
    match c
    case '\"' => "\""
    case '\'' => "\'"
    case '\\' => "\\"
    case 't' => "\t"
    case 'r' => "\r"
    case 'n' => "\n"
    case _ => ['\\', c]
  }

  function Text(us: seq<Unit>): string {
    if us == [] then [] else (if us[0].Pair? then PairText(us[0].c) else [us[0].c]) + Text(us[1..])
  }

  /** No single character is a backslash. */
  predicate Paired(us: seq<Unit>) {
    forall i :: 0 <= i < |us| && us[i].Single? ==> us[i].c != '\\'
  }

  lemma {:induction false} UnescapePair(c: char, rest: string)
    ensures Unescape(['\\', c] + rest) == PairText(c) + Unescape(rest)
  {
    var s := ['\\', c] + rest;
    assert s[0] == '\\' && s[1] == c && s[1..] == [c] + rest && s[2..] == rest;
    assert ([c] + rest)[1..] == rest;
  }

  /** The decoding loop takes a token's raw slice pair by pair, whatever delimiter follows. */
  lemma {:induction false} DecodedPair(c: char, rest: string, next: char)
    ensures Decoded(['\\', c] + rest, next) == PairText(c) + Decoded(rest, next)
  {
    var s := ['\\', c] + rest;
    assert s[0] == '\\' && s[1] == c && s[1..] == [c] + rest && s[2..] == rest;
    assert ([c] + rest)[1..] == rest;
  }

  lemma {:induction false} DecodedText(us: seq<Unit>, next: char)
    requires Paired(us)
    ensures Decoded(Raw(us), next) == Unescape(Raw(us)) == Text(us)
  {
    hide PairText;
    if us != [] {
      DecodedText(us[1..], next);
      var rest := Raw(us[1..]);
      if us[0].Pair? {
        DecodedPair(us[0].c, rest, next);
        UnescapePair(us[0].c, rest);
      } else {
        assert ([us[0].c] + rest)[1..] == rest;
      }
    }
  }

  // ---- Tokens between quotes

  predicate Quotable(us: seq<Unit>, quote: char) {
    forall i :: 0 <= i < |us| && us[i].Single? ==> us[i].c != quote && us[i].c != '\\'
  }

  lemma {:induction false} QuoteEndRaw(us: seq<Unit>, quote: char, rest: string)
    requires quote != '\\' && Quotable(us, quote)
    ensures QuoteEnd(Raw(us) + [quote] + rest, quote) == |Raw(us)|
  {
    var s := Raw(us) + [quote] + rest;
    if us == [] {
      assert s[0] == quote;
    } else {
      QuoteEndRaw(us[1..], quote, rest);
      var more := Raw(us[1..]) + [quote] + rest;
      if us[0].Pair? {
        assert s[0] == '\\' && s[2..] == more;
      } else {
        assert s[0] == us[0].c && s[1..] == more;
      }
    }
  }

  /** What may be glued to a closing quote: anything up to white space, `;` or `{`. */
  predicate Glueable(g: seq<Unit>) {
    forall i :: 0 <= i < |g| && g[i].Single? ==> g[i].c !in {' ', '\t', '\r', '\n', ';', '{', '\\'}
  }

  predicate EndsInDollar(g: seq<Unit>) {
    g != [] && g[|g| - 1] == Single('$')
  }

  lemma GlueUnit(u: Unit, more: string, dollar: bool)
    requires Glueable([u])
    ensures var s := (if u.Pair? then ['\\', u.c] else [u.c]) + more;
      var g := Glue(more, u == Single('$'));
      Glue(s, dollar) == Glued((if u.Pair? then 2 else 1) + g.len, g.dollar)
  {
    assert [u][0] == u;
    var s := (if u.Pair? then ['\\', u.c] else [u.c]) + more;
    if u.Pair? {
      assert s[0] == '\\' && s[2..] == more;
    } else {
      assert s[0] == u.c && s[1..] == more;
    }
  }

  lemma GlueEnds(rest: string, dollar: bool)
    requires rest != [] && rest[0] in {' ', '\t', '\r', '\n', ';', '{'}
    ensures Glue(rest, dollar) == Glued(0, dollar)
  {
  }

  lemma {:induction false} GlueDropped(g: seq<Unit>, rest: string, dollar: bool)
    requires Glueable(g) && rest != [] && rest[0] in {' ', '\t', '\r', '\n', ';', '{'}
    ensures Glue(Raw(g) + rest, dollar) == Glued(|Raw(g)|, if g == [] then dollar else EndsInDollar(g))
  {
    hide Glue;
    if g == [] {
      assert Raw(g) + rest == rest;
      GlueEnds(rest, dollar);
    } else {
      var first, more := if g[0].Pair? then ['\\', g[0].c] else [g[0].c], Raw(g[1..]);
      GlueDropped(g[1..], rest, g[0] == Single('$'));
      GlueUnit(g[0], more + rest, dollar);
      assert Raw(g) + rest == first + (more + rest);
    }
  }

  /**
   A token between quotes of either kind is what its raw text stands for. What is glued to
   the closing quote is dropped, except that a `$` at its end is remembered.
   */
  lemma {:induction false} QuotedToken(us: seq<Unit>, quote: char, g: seq<Unit>, rest: string, dollar: bool,
                                       before: seq<Word>)
    returns (w: Word)
    requires quote == '\"' || quote == '\''
    requires Quotable(us, quote) && Glueable(g)
    requires rest != [] && rest[0] in {' ', '\t', '\r', '\n', ';', '{'}
    ensures w.text == Text(us)
    ensures Scan([quote] + Raw(us) + [quote] + Raw(g) + rest, dollar, before) ==
            Scan(rest, EndsInDollar(g), before + [w])
  {
    hide Unescape, QuoteEnd, Raw, Text, Glue;
    var raw, glued := Raw(us), Raw(g);
    var s := [quote] + raw + [quote] + glued + rest;
    assert s[1..] == raw + [quote] + (glued + rest);
    QuoteEndRaw(us, quote, glued + rest);
    DecodedText(us, quote);
    GlueDropped(g, rest, false);
    assert s[1..1 + |raw|] == raw && s[|raw| + 2..] == glued + rest;
    var l := Lex(s, dollar);
    assert s[l.len..] == rest;
    w := l.lexeme.word;
  }

  // ---- Tokens without quotes

  /** No white space, `;` or `{`, but for a `{` after a `$`; no `$` is left open at the end. */
  predicate Unquoted(us: seq<Unit>, dollar: bool) {
    if us == [] then !dollar
    else if us[0].Pair? then Unquoted(us[1..], false)
    else if us[0].c == '$' then Unquoted(us[1..], true)
    else if us[0].c == '{' then dollar && Unquoted(us[1..], true)
    else us[0].c !in {' ', '\t', '\r', '\n', ';', '\\'} && Unquoted(us[1..], false)
  }

  lemma {:induction false} UnquotedPaired(us: seq<Unit>, dollar: bool)
    requires Unquoted(us, dollar)
    ensures Paired(us)
  {
    if us != [] {
      UnquotedPaired(us[1..], us[0].Single? && (us[0].c == '$' || us[0].c == '{'));
      assert forall i :: 0 < i < |us| ==> us[i] == us[1..][i - 1];
    }
  }

  lemma {:induction false} BareEndRaw(us: seq<Unit>, dollar: bool, rest: string)
    requires Unquoted(us, dollar) && rest != [] && rest[0] in {' ', '\t', '\r', '\n', ';', '{'}
    ensures BareEnd(Raw(us) + rest, dollar) == |Raw(us)|
  {
    var s := Raw(us) + rest;
    if us == [] {
      assert s == rest;
    } else {
      BareEndRaw(us[1..], us[0].Single? && (us[0].c == '$' || us[0].c == '{'), rest);
      var more := Raw(us[1..]) + rest;
      if us[0].Pair? {
        assert s[0] == '\\' && s[2..] == more;
      } else {
        assert s[0] == us[0].c && s[1..] == more;
      }
    }
  }

  /** A character that a token without quotes may begin with. */
  predicate BeginsToken(u: Unit) {
    u.Single? && u.c !in {' ', '\t', '\r', '\n', ';', '{', '}', '#', '\"', '\'', '\\'}
  }

  /** A token without quotes is what its raw text stands for. A `$` remembered from before is still open. */
  lemma {:induction false} BareToken(us: seq<Unit>, rest: string, dollar: bool, before: seq<Word>)
    returns (w: Word)
    requires us != [] && BeginsToken(us[0]) && Unquoted(us[1..], dollar || us[0].c == '$')
    requires rest != [] && rest[0] in {' ', '\t', '\r', '\n', ';', '{'}
    ensures w.text == Text(us)
    ensures Scan(Raw(us) + rest, dollar, before) == Scan(rest, false, before + [w])
  {
    hide Unescape, BareEnd, Text;
    var s, raw := Raw(us) + rest, Raw(us);
    assert raw == [us[0].c] + Raw(us[1..]) && s[0] == us[0].c && s[1..] == Raw(us[1..]) + rest;
    BareEndRaw(us[1..], dollar || us[0].c == '$', rest);
    UnquotedPaired(us[1..], dollar || us[0].c == '$');
    assert us == [us[0]] + us[1..];
    FirstSingle(us[0].c, us[1..]);
    DecodedText(us, rest[0]);
    assert s[0..|raw|] == raw && s[|raw|..] == rest;
    var l := Lex(s, dollar);
    w := l.lexeme.word;
  }

  /** A backslash in front of a token is dropped, and the character after it is the token's first. */
  lemma {:induction false} LeadingBackslash(c: char, us: seq<Unit>, rest: string, before: seq<Word>)
    returns (w: Word)
    requires c != '\\' && Unquoted(us, false)
    requires rest != [] && rest[0] in {' ', '\t', '\r', '\n', ';', '{'}
    ensures w.text == [c] + Text(us)
    ensures Scan(['\\', c] + Raw(us) + rest, false, before) == Scan(rest, false, before + [w])
  {
    hide Unescape, BareEnd, Text, Raw;
    var s, raw := ['\\', c] + Raw(us) + rest, Raw(us);
    assert s[0] == '\\' && s[2..] == raw + rest;
    BareEndRaw(us, false, rest);
    var all := [Single(c)] + us;
    UnquotedPaired(us, false);
    FirstSingle(c, us);
    DecodedText(all, rest[0]);
    assert s[1..2 + |raw|] == [c] + raw && s[2 + |raw|..] == rest;
    var l := Lex(s, false);
    w := l.lexeme.word;
  }

  lemma FirstSingle(c: char, us: seq<Unit>)
    ensures var all := [Single(c)] + us;
      Raw(all) == [c] + Raw(us) && Text(all) == [c] + Text(us) && (Paired(us) && c != '\\' ==> Paired(all))
  {
    assert ([Single(c)] + us)[1..] == us;
  }

  // ---- Directives

  /** White space, and nothing else, between two tokens; `;` or `{` after the last one. */
  lemma {:induction false} Separated(a: Written, gap: string, b: Written, end: char, rest: string)
    requires Printable(a) && Printable(b) && gap != []
    requires forall i :: 0 <= i < |gap| ==> gap[i] in {' ', '\t', '\r', '\n'}
    requires end in {';', '{'}
    ensures Events(PrintWord(a) + gap + PrintWord(b) + [end] + rest) ==
            [Event(if end == ';' then Simple else Open, [a.word, b.word])] + Events(rest)
  {
    hide Events, PrintWord;
    var words := [a.(gap := gap), b.(gap := [])];
    WhiteIsLayout(gap);
    SameWord(a, gap);
    SameWord(b, []);
    assert words[1..] == [words[1]] && [words[1]][1..] == [];
    assert Spoken([words[1]]) == [b.word] && Spoken(words) == [a.word] + [b.word] == [a.word, b.word];
    assert WellSpaced([words[1]]);
    var p, q := PrintWord(a), PrintWord(b);
    assert PrintWords([words[1]]) == q + [] + [] == q;
    assert PrintWords(words) == p + gap + q;
    EventsHead([], words, end, rest);
    assert [] + PrintWords(words) + [end] + rest == p + gap + q + [end] + rest;
  }

  lemma SameWord(w: Written, gap: string)
    ensures PrintWord(w.(gap := gap)) == PrintWord(w) && Printable(w.(gap := gap)) == Printable(w)
  {
  }

  lemma {:induction false} WhiteIsLayout(gap: string)
    requires forall i :: 0 <= i < |gap| ==> gap[i] in {' ', '\t', '\r', '\n'}
    ensures IsLayout(gap)
  {
    if gap != [] {
      WhiteIsLayout(gap[1..]);
    }
  }

  /** Any other character, but for the backslash and the `$`, is part of the token it is in. */
  lemma {:induction false} OneToken(w: string, rest: string)
    requires w != [] && w[0] !in {'}', '#', '\"', '\''}
    requires forall i :: 0 <= i < |w| ==> w[i] !in {' ', '\t', '\r', '\n', ';', '{', '\\', '$'}
    ensures Events(w + ";" + rest) == [Event(Simple, [w])] + Events(rest)
  {
    hide Events, IsPlain;
    PlainWord(w);
    var words := [Written(w, Naked, [])];
    assert words[1..] == [] && WellSpaced(words) && Spoken(words) == [w];
    assert PrintWords(words) == w + [] + [] == w;
    EventsHead([], words, ';', rest);
    assert [] + PrintWords(words) + [';'] + rest == w + ";" + rest;
  }

  lemma {:induction false} PlainWord(w: string)
    requires forall i :: 0 <= i < |w| ==> w[i] !in {' ', '\t', '\r', '\n', ';', '{', '\\', '$'}
    ensures IsPlain(w, false)
  {
    if w != [] {
      PlainWord(w[1..]);
    }
  }

  /** A text without `;`, `{` and `}` has no directive: what the end cuts off is dropped. */
  lemma {:induction false} NothingEnds(s: string, dollar: bool, words: seq<Word>)
    requires forall i :: 0 <= i < |s| ==> s[i] !in {';', '{', '}'}
    ensures Scan(s, dollar, words).taken == Done
    decreases |s|
  {
    hide Quoted, Bare;
    if s != [] {
      var l := Lex(s, dollar);
      match l.lexeme
      case Gap => NothingEnds(s[l.len..], l.dollar, words);
      case Token(w) => NothingEnds(s[l.len..], l.dollar, words + [w]);
      case Mark(t) => NotMark(s, dollar);
      case Cut =>
    }
  }

  lemma NotMark(s: string, dollar: bool)
    requires s != [] && s[0] !in {';', '{', '}'}
    ensures !Lex(s, dollar).lexeme.Mark?
  {
  }

  /** A `$` glued to a closing quote still opens a brace in the next token. */
  lemma {:induction false} StaleDollar(before: seq<Word>) returns (a: Word, b: Word)
    ensures a.text == "a" && b.text == "x{y"
    ensures Scan("\"a\"$ x{y;", false, before) == Scan(";", false, before + [a] + [b])
  {
    hide Scan;
    var one, two, s := [Single('a')], [Single('x'), Single('{'), Single('y')], " x{y;";
    assert two[1..] == [Single('{'), Single('y')] && two[1..][1..] == [Single('y')] && two[1..][1..][1..] == [];
    assert Raw(one) == Text(one) == "a" && Raw(two[1..][1..]) == Text(two[1..][1..]) == "y";
    assert Raw(two[1..]) == Text(two[1..]) == "{y" && Raw(two) == Text(two) == "x{y";
    assert Raw([Single('$')]) == "$";
    a := QuotedToken(one, '\"', [Single('$')], s, false, before);
    assert ['\"'] + "a" + ['\"'] + "$" + s == "\"a\"$ x{y;";
    ScanSpace("x{y;", true, before + [a]);
    assert [' '] + "x{y;" == s && "x{y" + ";" == "x{y;";
    b := BareToken(two, ";", true, before + [a]);
  }

  lemma ScanSpace(rest: string, dollar: bool, words: seq<Word>)
    ensures Scan([' '] + rest, dollar, words) == Scan(rest, dollar, words)
  {
    assert ([' '] + rest)[1..] == rest;
  }

  /** Line feeds, and nothing else, are counted as lines. */
  lemma {:induction false} LinesAreLineFeeds(s: string)
    ensures LineFeeds(s) == multiset(s)['\n']
  {
    if s != [] {
      LinesAreLineFeeds(s[..|s| - 1]);
      assert s == s[..|s| - 1] + [s[|s| - 1]];
    }
  }
}
