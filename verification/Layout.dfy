/**
 Layout does not matter: white space and comments put in anywhere between tokens change no
 directive of the text.
 */
module Layout {
  import opened Lexer
  import opened Printer

  /** The directives of a text, given the tokens already taken for the first one. */
  function Run(s: string, dollar: bool, texts: seq<string>): seq<Event>
    decreases |s|
  {
    if s == [] then []
    else
      var l := Lex(s, dollar);
      match l.lexeme
      case Gap => Run(s[l.len..], l.dollar, texts)
      case Token(w) => Run(s[l.len..], l.dollar, texts + [w.text])
      case Mark(t) => [Event(t, texts)] + Run(s[1..], false, [])
      case Cut => []
  }

  /** Scanning on from here, with k characters to go, the scanner is between tokens at s[k]. */
  predicate Between(s: string, dollar: bool, k: nat)
    decreases |s|
  {
    k == 0 ||
    (k <= |s| &&
     var l := Lex(s, dollar);
     match l.lexeme
     case Gap => (if s[0] == '#' then l.len < k else l.len <= k) && Between(s[l.len..], l.dollar, k - l.len)
     case Token(_) => l.len < k && Between(s[l.len..], l.dollar, k - l.len)
     case Mark(_) => Between(s[1..], false, k - 1)
     case Cut => false)
  }

  lemma {:induction false} RunScan(s: string, dollar: bool, words: seq<Word>)
    ensures var r := Scan(s, dollar, words);
      Run(s, dollar, Texts(words)) ==
      if r.taken == Done then [] else [Event(r.taken, Texts(r.words))] + Events(r.rest)
    decreases |s|
  {
    hide Lex;
    if s != [] {
      var l := Lex(s, dollar);
      match l.lexeme
      case Gap => RunScan(s[l.len..], l.dollar, words);
      case Token(w) =>
        RunScan(s[l.len..], l.dollar, words + [w]);
        assert Texts(words + [w]) == Texts(words) + [w.text];
      case Mark(t) =>
        RunScan(s[1..], false, []);
        MarkLength(s, dollar);
        assert Texts([]) == [];
      case Cut =>
    }
  }

  lemma RunEvents(s: string)
    ensures Run(s, false, []) == Events(s)
  {
    RunScan(s, false, []);
    assert Texts([]) == [];
  }

  // What is found before the end of p does not depend on what follows p.

  lemma {:induction false} QuoteEndLocal(p: string, x: string, y: string, quote: char)
    requires QuoteEnd(p + x, quote) < |p|
    ensures QuoteEnd(p + y, quote) == QuoteEnd(p + x, quote)
    decreases |p|
  {
    assert (p + x)[1..] == p[1..] + x && (p + y)[1..] == p[1..] + y;
    if p[0] == '\\' {
      assert |p| >= 2;
      assert (p + x)[2..] == p[2..] + x && (p + y)[2..] == p[2..] + y;
      QuoteEndLocal(p[2..], x, y, quote);
    } else if p[0] != quote {
      QuoteEndLocal(p[1..], x, y, quote);
    }
  }

  lemma {:induction false} BareEndLocal(p: string, x: string, y: string, dollar: bool)
    requires BareEnd(p + x, dollar) < |p|
    ensures BareEnd(p + y, dollar) == BareEnd(p + x, dollar)
    decreases |p|
  {
    assert (p + x)[1..] == p[1..] + x && (p + y)[1..] == p[1..] + y;
    if p[0] == '\\' {
      assert |p| >= 2;
      assert (p + x)[2..] == p[2..] + x && (p + y)[2..] == p[2..] + y;
      BareEndLocal(p[2..], x, y, false);
    } else if p[0] == '{' && dollar {
      BareEndLocal(p[1..], x, y, true);
    } else if p[0] == '$' || !EndsBare(p[0]) {
      BareEndLocal(p[1..], x, y, p[0] == '$');
    }
  }

  lemma {:induction false} GlueLocal(p: string, x: string, y: string, dollar: bool)
    requires Glue(p + x, dollar).len < |p|
    ensures Glue(p + y, dollar) == Glue(p + x, dollar)
    decreases |p|
  {
    var px, py := p + x, p + y;
    assert px[0] == p[0] == py[0];
    assert px[1..] == p[1..] + x && py[1..] == p[1..] + y;
    if EndsBare(p[0]) {
    } else if p[0] == '\\' {
      assert |p| >= 2;
      assert (p + x)[2..] == p[2..] + x && (p + y)[2..] == p[2..] + y;
      GlueLocal(p[2..], x, y, false);
    } else {
      GlueLocal(p[1..], x, y, p[0] == '$');
    }
  }

  lemma {:induction false} RemarkEndLocal(p: string, x: string, y: string)
    requires RemarkEnd(p + x) < |p|
    ensures RemarkEnd(p + y) == RemarkEnd(p + x)
    decreases |p|
  {
    if p[0] != '\n' {
      assert (p + x)[1..] == p[1..] + x && (p + y)[1..] == p[1..] + y;
      RemarkEndLocal(p[1..], x, y);
    }
  }

  /** The same lexeme up to the place of its token in the text. */
  ghost predicate SameLexeme(a: Lexed, b: Lexed) {
    a.len == b.len && a.dollar == b.dollar &&
    match (a.lexeme, b.lexeme)
    case (Token(v), Token(w)) => v.text == w.text
    case (Mark(t), Mark(u)) => t == u
    case (Gap, Gap) => true
    case (Cut, Cut) => true
    case _ => false
  }

  lemma QuotedLocal(p: string, x: string, y: string)
    requires p != [] && Quoted(p + x).len < |p|
    ensures SameLexeme(Quoted(p + x), Quoted(p + y))
  {
    hide Unescape, QuoteEnd, Glue;
    assert (p + x)[1..] == p[1..] + x && (p + y)[1..] == p[1..] + y;
    QuoteEndLocal(p[1..], x, y, p[0]);
    var k := 1 + QuoteEnd(p[1..] + x, p[0]);
    assert (p + x)[k + 1..] == p[k + 1..] + x && (p + y)[k + 1..] == p[k + 1..] + y;
    GlueLocal(p[k + 1..], x, y, false);
    assert (p + x)[1..k] == p[1..k] == (p + y)[1..k];
  }

  lemma BareLocal(p: string, x: string, y: string, dollar: bool)
    requires p != [] && Bare(p + x, dollar).len < |p|
    ensures SameLexeme(Bare(p + x, dollar), Bare(p + y, dollar))
  {
    hide Unescape, BareEnd;
    assert (p + x)[1..] == p[1..] + x && (p + y)[1..] == p[1..] + y;
    if p[0] == '\\' {
      assert |p| >= 2;
      assert (p + x)[2..] == p[2..] + x && (p + y)[2..] == p[2..] + y;
      BareEndLocal(p[2..], x, y, dollar);
    } else {
      BareEndLocal(p[1..], x, y, dollar || p[0] == '$');
    }
    var k := BareClose(p + x, dollar);
    var first := if p[0] == '\\' then 1 else 0;
    assert first <= k < |p|;
    assert (p + x)[first..k] == p[first..k];
    assert (p + y)[first..k] == p[first..k];
  }

  lemma LexLocal(p: string, x: string, y: string, dollar: bool)
    requires p != [] && Lex(p + x, dollar).len <= |p|
    requires !Lex(p + x, dollar).lexeme.Cut?
    requires Lex(p + x, dollar).lexeme.Token? ==> Lex(p + x, dollar).len < |p|
    requires Lex(p + x, dollar).lexeme.Gap? && p[0] == '#' ==> Lex(p + x, dollar).len < |p|
    ensures SameLexeme(Lex(p + x, dollar), Lex(p + y, dollar))
  {
    hide Quoted, Bare, RemarkEnd;
    if p[0] == '#' {
      assert (p + x)[1..] == p[1..] + x && (p + y)[1..] == p[1..] + y;
      RemarkEndLocal(p[1..], x, y);
    } else if p[0] == '\"' || p[0] == '\'' {
      QuotedIsToken(p + x);
      QuotedLocal(p, x, y);
    } else if !IsSpace(p[0]) && p[0] != ';' && p[0] != '{' && p[0] != '}' {
      BareIsToken(p + x, dollar);
      BareLocal(p, x, y, dollar);
    }
  }

  lemma QuotedIsToken(s: string)
    requires s != []
    ensures Quoted(s).lexeme.Token? || Quoted(s).lexeme.Cut?
  {
  }

  lemma BareIsToken(s: string, dollar: bool)
    requires s != []
    ensures Bare(s, dollar).lexeme.Token? || Bare(s, dollar).lexeme.Cut?
  {
  }

  lemma RunLayout(gap: string, rest: string, dollar: bool, texts: seq<string>)
    requires IsLayout(gap)
    ensures Run(gap + rest, dollar, texts) == Run(rest, dollar, texts)
  {
    hide Run, Scan, IsLayout;
    var words := seq(|texts|, i requires 0 <= i < |texts| => Word(texts[i], 0, 0));
    assert Texts(words) == texts;
    RunScan(gap + rest, dollar, words);
    RunScan(rest, dollar, words);
    ScanLayout(gap, rest, dollar, words);
  }

  lemma {:induction false} Inserted(a: string, b: string, gap: string, dollar: bool, texts: seq<string>)
    requires IsLayout(gap) && Between(a + b, dollar, |a|)
    ensures Run(a + (gap + b), dollar, texts) == Run(a + b, dollar, texts)
    decreases |a|
  {
    hide Lex, IsLayout;
    if a == [] {
      assert a + b == b && a + (gap + b) == gap + b;
      RunLayout(gap, b, dollar, texts);
    } else {
      var l := Lex(a + b, dollar);
      if l.lexeme.Mark? {
        MarkLength(a + b, dollar);
      }
      LexLocal(a, b, gap + b, dollar);
      assert (a + b)[l.len..] == a[l.len..] + b;
      assert (a + (gap + b))[l.len..] == a[l.len..] + (gap + b);
      match l.lexeme
      case Gap => Inserted(a[l.len..], b, gap, l.dollar, texts);
      case Token(w) => Inserted(a[l.len..], b, gap, l.dollar, texts + [w.text]);
      case Mark(t) =>
        Inserted(a[1..], b, gap, false, []);
    }
  }

  lemma MarkLength(s: string, dollar: bool)
    requires s != [] && Lex(s, dollar).lexeme.Mark?
    ensures Lex(s, dollar).len == 1 && Lex(s, dollar).lexeme.taken != Done
  {
    QuotedIsToken(s);
    BareIsToken(s, dollar);
  }

  /** Layout put in between tokens changes no directive. */
  lemma LayoutIgnored(a: string, b: string, gap: string)
    requires IsLayout(gap) && Between(a + b, false, |a|)
    ensures Events(a + gap + b) == Events(a + b)
  {
    hide Run, Events, Between, IsLayout;
    Inserted(a, b, gap, false, []);
    RunEvents(a + b);
    RunEvents(a + (gap + b));
    assert a + gap + b == a + (gap + b);
  }
}
