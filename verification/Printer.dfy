/**
 Directive trees, their printed texts, and the round trip through the scanner. A tree
 carries the layout it is printed with, so the round trip also says that layout is ignored.
 */
module Printer {
  import opened Lexer

  /**
   How a token is printed: between quotes of either kind, with control characters as they
   are or as escapes, or without quotes.
   */
  datatype Style = Quotes(quote: char, controls: bool) | Naked

  /** A token as printed, with the layout that follows it. */
  datatype Written = Written(word: string, style: Style, gap: string)

  datatype Directive =
    | Line(lead: string, words: seq<Written>)
    | Block(lead: string, words: seq<Written>, body: seq<Directive>, tail: string)

  /** The characters that separate tokens, and those that end a directive's head. */
  const WHITE: set<char> := {' ', '\t', '\r', '\n'}
  const ENDS: set<char> := {';', '{'}

  /** White space and comments; each comment ends with a line feed. */
  predicate IsLayout(s: string) {
    s == [] || (s[0] in WHITE && IsLayout(s[1..])) ||
    (s[0] == '#' && RemarkEnd(s) < |s| && IsLayout(s[RemarkEnd(s)..]))
  }

  /** Without backslashes and delimiters; braces only open a variable, and none is left open. */
  predicate IsPlain(w: string, dollar: bool) {
    if w == [] then !dollar
    else if w[0] == '$' then IsPlain(w[1..], true)
    else if w[0] == '{' then dollar && IsPlain(w[1..], true)
    else w[0] != '\\' && w[0] !in WHITE && w[0] !in ENDS && IsPlain(w[1..], false)
  }

  /** Any token can be printed between quotes; only a plain one without. */
  predicate Printable(w: Written) {
    match w.style
    case Quotes(quote, _) => quote == '\"' || quote == '\''
    case Naked =>
      w.word != [] && w.word[0] != '}' && w.word[0] != '#' && w.word[0] != '\"' && w.word[0] != '\'' &&
      IsPlain(w.word, false)
  }

  /** Layout after a token must begin with white space, and be there before another token. */
  predicate WellSpaced(words: seq<Written>) {
    words == [] ||
    (Printable(words[0]) && IsLayout(words[0].gap) &&
     (if words[0].gap == [] then |words| == 1 else words[0].gap[0] in WHITE) &&
     WellSpaced(words[1..]))
  }

  predicate WellLaid(d: Directive) {
    IsLayout(d.lead) && WellSpaced(d.words) && (d.Block? ==> IsLayout(d.tail) && AllWellLaid(d.body))
  }

  predicate AllWellLaid(ds: seq<Directive>) {
    ds == [] || (WellLaid(ds[0]) && AllWellLaid(ds[1..]))
  }

  function EscapeOne(c: char, quote: char, controls: bool): string {
    if c == '\\' || c == quote then ['\\', c]
    else if controls && c == '\t' then "\\t"
    else if controls && c == '\r' then "\\r"
    else if controls && c == '\n' then "\\n"
    else [c]
  }

  function Escape(w: string, quote: char, controls: bool): string {
    if w == [] then [] else EscapeOne(w[0], quote, controls) + Escape(w[1..], quote, controls)
  }

  function PrintWord(w: Written): string {
    match w.style
    case Quotes(quote, controls) => [quote] + Escape(w.word, quote, controls) + [quote]
    case Naked => w.word
  }

  function PrintWords(words: seq<Written>): string {
    if words == [] then [] else PrintWord(words[0]) + words[0].gap + PrintWords(words[1..])
  }

  function Print(d: Directive): string {
    match d
    case Line(lead, words) => lead + PrintWords(words) + ";"
    case Block(lead, words, body, tail) => lead + PrintWords(words) + "{" + PrintAll(body) + tail + "}"
  }

  function PrintAll(ds: seq<Directive>): string {
    if ds == [] then [] else Print(ds[0]) + PrintAll(ds[1..])
  }

  function Spoken(words: seq<Written>): seq<string> {
    if words == [] then [] else [words[0].word] + Spoken(words[1..])
  }

  /** The directives of a tree in textual order; a block's end is an event of its own. */
  function Preorder(d: Directive): seq<Event> {
    match d
    case Line(_, words) => [Event(Simple, Spoken(words))]
    case Block(_, words, body, _) => [Event(Open, Spoken(words))] + PreorderAll(body) + [Event(Close, [])]
  }

  function PreorderAll(ds: seq<Directive>): seq<Event> {
    if ds == [] then [] else Preorder(ds[0]) + PreorderAll(ds[1..])
  }

  /** One printed character, in front of anything. */
  lemma EscapedChar(c: char, quote: char, controls: bool, rest: string)
    requires quote == '\"' || quote == '\''
    ensures var e := EscapeOne(c, quote, controls);
      Unescape(e + rest) == [c] + Unescape(rest) && QuoteEnd(e + rest, quote) == |e| + QuoteEnd(rest, quote)
  {
    var e := EscapeOne(c, quote, controls);
    var s := e + rest;
    if |e| == 2 {
      assert s[0] == e[0] && s[1] == e[1] && s[2..] == rest;
    } else {
      assert s[0] == c && s[1..] == rest;
    }
  }

  lemma {:induction false} UnescapeEscape(w: string, quote: char, controls: bool)
    requires quote == '\"' || quote == '\''
    ensures Unescape(Escape(w, quote, controls)) == w
  {
    hide EscapeOne;
    if w != [] {
      UnescapeEscape(w[1..], quote, controls);
      EscapedChar(w[0], quote, controls, Escape(w[1..], quote, controls));
    }
  }

  lemma {:induction false} QuoteEndEscape(w: string, quote: char, controls: bool, rest: string)
    requires quote == '\"' || quote == '\''
    ensures QuoteEnd(Escape(w, quote, controls) + [quote] + rest, quote) == |Escape(w, quote, controls)|
  {
    hide EscapeOne;
    var s := Escape(w, quote, controls) + [quote] + rest;
    if w != [] {
      QuoteEndEscape(w[1..], quote, controls, rest);
      var e, t := EscapeOne(w[0], quote, controls), Escape(w[1..], quote, controls) + [quote] + rest;
      assert s == e + t;
      EscapedChar(w[0], quote, controls, t);
    }
  }

  lemma {:induction false} BareEndPlain(w: string, dollar: bool, rest: string)
    requires IsPlain(w, dollar) && rest != [] && EndsBare(rest[0])
    ensures BareEnd(w + rest, dollar) == |w|
  {
    if w == [] {
      assert w + rest == rest && BareEnd(rest, dollar) == 0;
    } else {
      assert (w + rest)[1..] == w[1..] + rest;
      BareEndPlain(w[1..], w[0] == '$' || w[0] == '{', rest);
    }
  }

  lemma {:induction false} UnescapePlain(w: string, dollar: bool)
    requires IsPlain(w, dollar)
    ensures Unescape(w) == w
  {
    if w != [] {
      UnescapePlain(w[1..], w[0] == '$' || w[0] == '{');
    }
  }

  lemma LexQuotes(w: Written, rest: string)
    requires Printable(w) && w.style.Quotes?
    requires rest != [] && EndsBare(rest[0])
    ensures var s := PrintWord(w) + rest;
      Lex(s, false) == Lexed(Token(Word(w.word, |s|, |rest| + 1)), |PrintWord(w)|, false)
  {
    hide Unescape, QuoteEnd, Escape;
    var s, quote := PrintWord(w) + rest, w.style.quote;
    var e := Escape(w.word, quote, w.style.controls);
    assert s[1..] == e + [quote] + rest;
    QuoteEndEscape(w.word, quote, w.style.controls, rest);
    UnescapeEscape(w.word, quote, w.style.controls);
    assert s[1..1 + |e|] == e;
    assert s[|e| + 2..] == rest;
  }

  lemma LexNaked(w: Written, rest: string)
    requires Printable(w) && w.style.Naked?
    requires rest != [] && EndsBare(rest[0])
    ensures var s := PrintWord(w) + rest;
      Lex(s, false) == Lexed(Token(Word(w.word, |s|, |rest|)), |PrintWord(w)|, false)
  {
    hide Unescape, BareEnd;
    var s := w.word + rest;
    assert s[1..] == w.word[1..] + rest && s[0] == w.word[0];
    BareEndPlain(w.word[1..], w.word[0] == '$', rest);
    UnescapePlain(w.word, false);
    assert s[0..|w.word|] == w.word;
  }

  /** A printed token scans as itself, whatever its characters. */
  lemma LexPrintedWord(w: Written, rest: string)
    requires Printable(w) && rest != [] && EndsBare(rest[0])
    ensures var l := Lex(PrintWord(w) + rest, false);
      l.lexeme.Token? && l.lexeme.word.text == w.word && l.len == |PrintWord(w)| && !l.dollar
  {
    hide Lex, PrintWord;
    if w.style.Naked? {
      LexNaked(w, rest);
    } else {
      LexQuotes(w, rest);
    }
  }

  lemma {:induction false} ScanLayout(gap: string, rest: string, dollar: bool, words: seq<Word>)
    requires IsLayout(gap)
    ensures Scan(gap + rest, dollar, words) == Scan(rest, dollar, words)
    decreases |gap|
  {
    var s := gap + rest;
    if gap == [] {
      assert s == rest;
    } else if gap[0] in WHITE {
      assert s[1..] == gap[1..] + rest;
      ScanLayout(gap[1..], rest, dollar, words);
    } else {
      var n := RemarkEnd(gap);
      RemarkEndAppend(gap, rest);
      assert s[n..] == gap[n..] + rest;
      assert Lex(s, dollar) == Lexed(Gap, n, dollar);
      ScanLayout(gap[n..], rest, dollar, words);
    }
  }

  lemma {:induction false} RemarkEndAppend(s: string, t: string)
    requires RemarkEnd(s) < |s|
    ensures RemarkEnd(s + t) == RemarkEnd(s)
  {
    if s[0] != '\n' {
      assert (s + t)[1..] == s[1..] + t;
      RemarkEndAppend(s[1..], t);
    }
  }

  lemma ScanWord(w: Written, rest: string, before: seq<Word>) returns (word: Word)
    requires Printable(w) && IsLayout(w.gap)
    requires w.gap + rest != [] && EndsBare((w.gap + rest)[0])
    ensures word.text == w.word
    ensures Scan(PrintWord(w) + w.gap + rest, false, before) == Scan(rest, false, before + [word])
  {
    hide PrintWord, Lex, Printable;
    var s := PrintWord(w) + w.gap + rest;
    assert s == PrintWord(w) + (w.gap + rest);
    LexPrintedWord(w, w.gap + rest);
    var l := Lex(s, false);
    assert s[l.len..] == w.gap + rest;
    word := l.lexeme.word;
    ScanLayout(w.gap, rest, false, before + [word]);
  }

  lemma {:induction false} ScanWords(words: seq<Written>, rest: string, before: seq<Word>) returns (ws: seq<Word>)
    requires WellSpaced(words)
    requires rest != [] && EndsBare(rest[0])
    ensures Scan(PrintWords(words) + rest, false, before) == Scan(rest, false, before + ws)
    ensures Texts(ws) == Spoken(words)
    decreases |words|
  {
    hide Scan, PrintWord, IsLayout, Printable;
    if words == [] {
      ws := [];
      assert PrintWords(words) + rest == rest && before + ws == before;
    } else {
      var w := words[0];
      var more := PrintWords(words[1..]) + rest;
      assert PrintWords(words) + rest == PrintWord(w) + w.gap + more;
      var word := ScanWord(w, more, before);
      var others := ScanWords(words[1..], rest, before + [word]);
      ws := [word] + others;
      assert before + [word] + others == before + ws;
    }
  }

  /** One directive's head: everything up to and including the character that ends it. */
  lemma EventsHead(lead: string, words: seq<Written>, end: char, rest: string)
    requires IsLayout(lead) && WellSpaced(words)
    requires end == ';' || end == '{'
    ensures Events(lead + PrintWords(words) + [end] + rest) ==
            [Event(if end == ';' then Simple else Open, Spoken(words))] + Events(rest)
  {
    hide PrintWords, WellSpaced, IsLayout;
    var s := [end] + rest;
    assert lead + PrintWords(words) + [end] + rest == lead + (PrintWords(words) + s);
    ScanLayout(lead, PrintWords(words) + s, false, []);
    var ws := ScanWords(words, s, []);
    assert [] + ws == ws;
    assert s[1..] == rest;
  }

  lemma EventsTail(tail: string, rest: string)
    requires IsLayout(tail)
    ensures Events(tail + "}" + rest) == [Event(Close, [])] + Events(rest)
  {
    assert tail + "}" + rest == tail + ("}" + rest);
    ScanLayout(tail, "}" + rest, false, []);
    assert ("}" + rest)[1..] == rest;
    assert Texts([]) == [];
  }

  lemma {:induction false} PrintedDirective(d: Directive, rest: string)
    requires WellLaid(d)
    ensures Events(Print(d) + rest) == Preorder(d) + Events(rest)
    decreases d, 0
  {
    hide Events, PrintWords, Spoken, PrintAll, PreorderAll, AllWellLaid, WellSpaced, IsLayout;
    match d
    case Line(lead, words) =>
      EventsHead(lead, words, ';', rest);
    case Block(lead, words, body, tail) =>
      var after := tail + "}" + rest;
      assert Print(d) + rest == lead + PrintWords(words) + "{" + (PrintAll(body) + after);
      EventsHead(lead, words, '{', PrintAll(body) + after);
      PrintedDirectives(body, after);
      EventsTail(tail, rest);
      assert Preorder(d) + Events(rest)
          == [Event(Open, Spoken(words))] + (PreorderAll(body) + ([Event(Close, [])] + Events(rest)));
  }

  /** Round trip: scanning a printed list of trees yields its directives in textual order. */
  lemma {:induction false} PrintedDirectives(ds: seq<Directive>, rest: string)
    requires AllWellLaid(ds)
    ensures Events(PrintAll(ds) + rest) == PreorderAll(ds) + Events(rest)
    decreases ds, 1
  {
    hide Events, Print, Preorder, WellLaid;
    if ds == [] {
      assert PrintAll(ds) + rest == rest;
    } else {
      PrintedDirective(ds[0], PrintAll(ds[1..]) + rest);
      PrintedDirectives(ds[1..], rest);
      assert PrintAll(ds) + rest == Print(ds[0]) + (PrintAll(ds[1..]) + rest);
    }
  }

  /** The whole file: the trees, layout at the end, and the end of the file. */
  lemma {:induction false} RoundTrip(ds: seq<Directive>, end: string)
    requires AllWellLaid(ds) && IsLayout(end)
    ensures Events(PrintAll(ds) + end) == PreorderAll(ds)
  {
    PrintedDirectives(ds, end);
    ScanLayout(end, [], false, []);
    assert end + [] == end;
  }
}
