/**
 The configuration language as a lexer written over suffixes of the text. The scanner of
 Scanner.dfy is the eight-flag loop of the source; it is proved to compute `Scan`.
 */
module Lexer {

  /** What one call of the scanner reports (src/core/fs_conf.h:18-23). */
  datatype Taken = Simple | Open | Close | Done

  /**
   A token. `open` and `close` are the lengths of the text's suffixes that start at the
   token's opening character and at its closing delimiter, so they locate the token
   without naming the text before it.
   */
  datatype Word = Word(text: string, open: nat, close: nat)

  datatype Lexeme =
    | Gap                  // one white space character, or a comment up to its line feed
    | Token(word: Word)
    | Mark(taken: Taken)   // `;`, `{` or `}`
    | Cut                  // a token the text ends in

  datatype Lexed = Lexed(lexeme: Lexeme, len: nat, dollar: bool)

  datatype Scanned = Scanned(taken: Taken, words: seq<Word>, rest: string)

  predicate IsSpace(c: char) {
    c == ' ' || c == '\t' || c == '\r' || c == '\n'
  }

  predicate EndsBare(c: char) {
    IsSpace(c) || c == ';' || c == '{'
  }

  /** Characters that a backslash quotes as themselves. */
  predicate IsLiteralEscape(c: char) {
    c == '\"' || c == '\'' || c == '\\'
  }

  predicate IsControlEscape(c: char) {
    c == 't' || c == 'r' || c == 'n'
  }

  function Control(c: char): char
    requires IsControlEscape(c)
  {
    if c == 't' then '\t' else if c == 'r' then '\r' else '\n'
  }

  /** The text a raw slice stands for. Unknown escapes stay as backslash and character. */
  function Unescape(raw: string): string {
    if raw == [] then []
    else if raw[0] == '\\' && |raw| > 1 && IsLiteralEscape(raw[1]) then [raw[1]] + Unescape(raw[2..])
    else if raw[0] == '\\' && |raw| > 1 && IsControlEscape(raw[1]) then [Control(raw[1])] + Unescape(raw[2..])
    else [raw[0]] + Unescape(raw[1..])
  }

  /** Index of the closing quote, or |s| when there is none. */
  function QuoteEnd(s: string, quote: char): (n: nat)
    ensures n <= |s|
    ensures n < |s| ==> s[n] == quote
  {
    if s == [] then 0
    else if s[0] == '\\' then (if |s| == 1 then 1 else 2 + QuoteEnd(s[2..], quote))
    else if s[0] == quote then 0
    else 1 + QuoteEnd(s[1..], quote)
  }

  /**
   Index of the delimiter that ends an unquoted token, or |s| when there is none. While
   `dollar` holds, a `{` belongs to a variable and does not end the token.
   */
  function BareEnd(s: string, dollar: bool): (n: nat)
    ensures n <= |s|
    ensures n < |s| ==> EndsBare(s[n])
  {
    if s == [] then 0
    else if s[0] == '{' && dollar then 1 + BareEnd(s[1..], true)
    else if s[0] == '\\' then (if |s| == 1 then 1 else 2 + BareEnd(s[2..], false))
    else if s[0] == '$' then 1 + BareEnd(s[1..], true)
    else if EndsBare(s[0]) then 0
    else 1 + BareEnd(s[1..], false)
  }

  datatype Glued = Glued(len: nat, dollar: bool)

  /** The characters glued to a closing quote: they are dropped, but a final `$` is remembered. */
  function Glue(s: string, dollar: bool): (g: Glued)
    ensures g.len <= |s|
    ensures g.len < |s| ==> EndsBare(s[g.len])
  {
    if s == [] || EndsBare(s[0]) then Glued(0, dollar)
    else if s[0] == '\\' then
      if |s| == 1 then Glued(1, false)
      else var g := Glue(s[2..], false); Glued(2 + g.len, g.dollar)
    else var g := Glue(s[1..], s[0] == '$'); Glued(1 + g.len, g.dollar)
  }

  /** Index of the line feed that ends a comment, or |s|. */
  function RemarkEnd(s: string): (n: nat)
    ensures n <= |s|
    ensures n < |s| ==> s[n] == '\n'
    ensures forall i :: 0 <= i < n ==> s[i] != '\n'
  {
    if s == [] || s[0] == '\n' then 0 else 1 + RemarkEnd(s[1..])
  }

  function Quoted(s: string): (r: Lexed)
    requires s != []
    ensures 0 < r.len <= |s|
  {
    var k := 1 + QuoteEnd(s[1..], s[0]);
    if k == |s| then Lexed(Cut, |s|, false)
    else
      var g := Glue(s[k + 1..], false);
      Lexed(Token(Word(Unescape(s[1..k]), |s|, |s| - k)), k + 1 + g.len, g.dollar)
  }

  /** Index of the delimiter of the unquoted token that s starts with, or |s|. */
  function BareClose(s: string, dollar: bool): (k: nat)
    requires s != []
    ensures 0 < k <= |s|
    ensures k < |s| ==> EndsBare(s[k])
  {
    if s[0] == '\\' then
      if |s| == 1 then 1 else 2 + BareEnd(s[2..], dollar)
    else 1 + BareEnd(s[1..], dollar || s[0] == '$')
  }

  /** An unquoted token. A leading backslash is dropped and quotes the next character. */
  function Bare(s: string, dollar: bool): (r: Lexed)
    requires s != []
    ensures 0 < r.len <= |s|
  {
    var k := BareClose(s, dollar);
    if k == |s| then Lexed(Cut, |s|, false)
    else
      var first := if s[0] == '\\' then 1 else 0;
      Lexed(Token(Word(Unescape(s[first..k]), |s|, |s| - k)), k, false)
  }

  /** One lexeme. `dollar` says that a `$` glued to an earlier closing quote is still open. */
  function Lex(s: string, dollar: bool): (r: Lexed)
    requires s != []
    ensures 0 < r.len <= |s|
  {
    if IsSpace(s[0]) then Lexed(Gap, 1, dollar)
    else if s[0] == ';' then Lexed(Mark(Simple), 1, dollar)
    else if s[0] == '{' then Lexed(Mark(Open), 1, dollar)
    else if s[0] == '}' then Lexed(Mark(Close), 1, dollar)
    else if s[0] == '#' then Lexed(Gap, 1 + RemarkEnd(s[1..]), dollar)
    else if s[0] == '\"' || s[0] == '\'' then Quoted(s)
    else Bare(s, dollar)
  }

  /** The next directive: the tokens up to the `;`, `{` or `}` that ends it. */
  function Scan(s: string, dollar: bool, words: seq<Word>): (r: Scanned)
    ensures |r.rest| <= |s|
    ensures r.taken == Done ==> r.rest == []
    ensures r.taken != Done ==> |r.rest| < |s|
    decreases |s|
  {
    if s == [] then Scanned(Done, words, [])
    else
      var l := Lex(s, dollar);
      match l.lexeme
      case Gap => Scan(s[l.len..], l.dollar, words)
      case Token(w) => Scan(s[l.len..], l.dollar, words + [w])
      case Mark(t) => Scanned(t, words, s[1..])
      case Cut => Scanned(Done, words, [])
  }

  /** One directive as the dispatcher sees it. */
  datatype Event = Event(taken: Taken, words: seq<string>)

  function Texts(words: seq<Word>): (r: seq<string>)
    ensures |r| == |words|
    ensures forall i :: 0 <= i < |words| ==> r[i] == words[i].text
  {
    seq(|words|, i requires 0 <= i < |words| => words[i].text)
  }

  /** All the directives of a text, in order; the end of the text is not among them. */
  function Events(s: string): seq<Event>
    decreases |s|
  {
    var r := Scan(s, false, []);
    if r.taken == Done then [] else [Event(r.taken, Texts(r.words))] + Events(r.rest)
  }

  function LineFeeds(s: string): nat {
    if s == [] then 0 else LineFeeds(s[..|s| - 1]) + (if s[|s| - 1] == '\n' then 1 else 0)
  }

  /** Scanning adds words at the end and never touches the ones it started with. */
  lemma {:induction false} ScanExtends(s: string, dollar: bool, words: seq<Word>)
    ensures words <= Scan(s, dollar, words).words
    decreases |s|
  {
    if s != [] {
      var l := Lex(s, dollar);
      match l.lexeme
      case Gap => ScanExtends(s[l.len..], l.dollar, words);
      case Token(w) => ScanExtends(s[l.len..], l.dollar, words + [w]);
      case Mark(t) =>
      case Cut =>
    }
  }
}
