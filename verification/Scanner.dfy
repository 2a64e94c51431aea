/**
 The scanner of src/core/fs_conf.c:131-335 over the windowed file reader of
 src/core/fs_file.h:74-89, with its second loop that decodes the token's raw slice.
 */
module Scanner {
  import opened Lexer
  import opened Options

  /** A position's window: refills happen at multiples of the buffer's capacity. */
  ghost predicate SameWindow(a: int, b: int, capacity: int)
    requires capacity > 0
  {
    a / capacity == b / capacity
  }

  /** The token, from its opening character through its closing delimiter, lies in one window. */
  ghost predicate Intact(w: Word, total: int, capacity: int)
    requires capacity > 0
  {
    SameWindow(total - w.open, total - w.close, capacity)
  }

  /** The first position of a window; windows follow one another without gaps. */
  ghost function WindowStart(turn: int, capacity: int): int {
    turn * capacity
  }

  lemma NextWindow(turn: int, capacity: int)
    ensures WindowStart(turn + 1, capacity) == WindowStart(turn, capacity) + capacity
  {
  }

  lemma WindowOf(turn: int, capacity: int, a: int)
    requires capacity > 0
    requires WindowStart(turn, capacity) <= a < WindowStart(turn, capacity) + capacity
    ensures a / capacity == turn
  {
    var q := a / capacity;
    assert a == q * capacity + a % capacity;
    if q > turn {
      MulMonotone(turn + 1, q, capacity);
    } else if q < turn {
      MulMonotone(q + 1, turn, capacity);
    }
  }

  lemma MulMonotone(a: int, b: int, c: int)
    requires a <= b && 0 <= c
    ensures a * c <= b * c
  {
  }

  /**
   The decoding loop as a function: `next` is the delimiter, at which a trailing backslash
   peeks.
   */
  function Decoded(raw: string, next: char): (r: string)
    ensures |r| <= |raw|
  {
    if raw == [] then []
    else
      var peek := if |raw| > 1 then raw[1] else next;
      var beyond := if |raw| > 1 then raw[2..] else [];
      if raw[0] == '\\' && IsLiteralEscape(peek) then [peek] + Decoded(beyond, next)
      else if raw[0] == '\\' && IsControlEscape(peek) then [Control(peek)] + Decoded(beyond, next)
      else [raw[0]] + Decoded(raw[1..], next)
  }

  /** The two loops stay in step on a quoted token. */
  lemma {:induction false} DecodedQuoted(s: string, quote: char)
    requires quote == '\"' || quote == '\''
    requires QuoteEnd(s, quote) < |s|
    ensures var n := QuoteEnd(s, quote);
      Decoded(s[..n], quote) == Unescape(s[..n])
  {
    var n := QuoteEnd(s, quote);
    if s[0] == quote {
    } else if s[0] == '\\' && (IsLiteralEscape(s[1]) || IsControlEscape(s[1])) {
      DecodedQuoted(s[2..], quote);
      assert s[..n][2..] == s[2..][..n - 2];
    } else if s[0] == '\\' {
      // an unknown escape: the scanner skips the pair, the decoder copies both characters
      DecodedQuoted(s[2..], quote);
      assert s[..n][1..][1..] == s[2..][..n - 2];
      assert s[..n][1..][0] == s[1];
    } else {
      DecodedQuoted(s[1..], quote);
      assert s[..n][1..] == s[1..][..n - 1];
    }
  }

  /** No delimiter of an unquoted token can be taken for an escaped character. */
  lemma {:induction false} DecodedBare(raw: string, next: char)
    requires EndsBare(next)
    ensures Decoded(raw, next) == Unescape(raw)
  {
    if |raw| == 1 {
    } else if raw != [] {
      DecodedBare(raw[1..], next);
      DecodedBare(raw[2..], next);
    }
  }

  /** What remains to be decoded from position i; the decoder may step one past the end. */
  ghost function DecodedFrom(s: string, i: nat, end: nat): string
    requires i <= end + 1 && end < |s|
  {
    Decoded(if i <= end then s[i..end] else [], s[end])
  }

  /** The character one turn of the decoding loop writes, and how far it moves. */
  ghost function Written(s: string, i: nat): (char, nat)
    requires i + 1 < |s|
  {
    if s[i] == '\\' && IsLiteralEscape(s[i + 1]) then (s[i + 1], 2)
    else if s[i] == '\\' && IsControlEscape(s[i + 1]) then (Control(s[i + 1]), 2)
    else (s[i], 1)
  }

  lemma DecodedStep(s: string, i: nat, end: nat, done: string)
    requires i < end < |s|
    ensures var (c, n) := Written(s, i);
      done + DecodedFrom(s, i, end) == (done + [c]) + DecodedFrom(s, i + n, end)
  {
    var raw := s[i..end];
    assert raw[1..] == s[i + 1..end];
    if |raw| > 1 {
      assert raw[2..] == s[i + 2..end];
    }
    var (c, n) := Written(s, i);
    assert DecodedFrom(s, i, end) == [c] + DecodedFrom(s, i + n, end);
    assert done + ([c] + DecodedFrom(s, i + n, end)) == (done + [c]) + DecodedFrom(s, i + n, end);
  }

  /** A token's buffer: as long as its raw slice and the terminator, whatever the text's length. */
  ghost predicate LeftBy(bytes: string, raw: string, next: char) {
    |bytes| == |raw| + 1 && Decoded(raw, next) + "\0" <= bytes
  }

  /** The decoding loop of src/core/fs_conf.c:288-321. `end` is the closing delimiter. */
  method Decode(buf: array<char>, start: nat, end: nat) returns (token: array<char>, n: nat)
    requires start <= end < buf.Length
    ensures fresh(token) && token.Length == end - start + 1
    ensures n < token.Length && token[n] == '\0'
    ensures token[..n] == Decoded(buf[start..end], buf[end]) && LeftBy(token[..], buf[start..end], buf[end])
  {
    hide Decoded;
    token := new char[end - start + 1];
    n := 0;
    var src := start;
    ghost var s := buf[..];
    ghost var whole := DecodedFrom(s, start, end);
    assert whole == Decoded(buf[start..end], buf[end]) by { assert buf[start..end] == s[start..end]; }
    assert token[..0] + DecodedFrom(s, start, end) == whole;
    while src < end
      invariant start <= src <= end + 1
      invariant n <= src - start && n <= end - start
      invariant buf[..] == s
      invariant token[..n] + DecodedFrom(s, src, end) == whole
    {
      DecodedStep(s, src, end, token[..n]);
      ghost var written, from, done := Written(s, src), src, token[..n];
      if buf[src] == '\\' && IsControlEscape(buf[src + 1]) {
        token[n] := Control(buf[src + 1]);
        n, src := n + 1, src + 2;
      } else {
        if buf[src] == '\\' && IsLiteralEscape(buf[src + 1]) {
          src := src + 1;
        }
        token[n] := buf[src];
        n, src := n + 1, src + 1;
      }
      assert src == from + written.1;
      assert token[..n] == done + [written.0];
    }
    assert token[..n] == whole;
    token[n] := '\0';
    assert token[..n] == whole && token[..n + 1] == whole + "\0";
  }

  // ---- What a token reads as

  /** Where the raw slice of the token that opens at this position begins. */
  ghost function RawOf(text: string, open: nat): nat
    requires open < |text|
  {
    if text[open] == '\"' || text[open] == '\'' || text[open] == '\\' then open + 1 else open
  }

  /** The slice of the text that is decoded for this token. */
  ghost function RawSlice(text: string, w: Word): string
    requires w.open <= |text| && 0 < w.close < w.open && RawOf(text, |text| - w.open) <= |text| - w.close
  {
    text[RawOf(text, |text| - w.open)..|text| - w.close]
  }

  /** The token stands in the text, and decoding its raw slice gives what it stands for. */
  ghost predicate Proper(text: string, w: Word) {
    w.open <= |text| && 0 < w.close < w.open &&
    var open, close := |text| - w.open, |text| - w.close;
    RawOf(text, open) <= close &&
    w.text == Unescape(RawSlice(text, w)) == Decoded(RawSlice(text, w), text[close])
  }

  /** Where the slice that is decoded begins: the token's place in its window, in the window of its end. */
  ghost function SliceStart(text: string, w: Word, capacity: nat): int
    requires Proper(text, w) && 0 < capacity
  {
    var open, close := |text| - w.open, |text| - w.close;
    WindowStart(close / capacity, capacity) + (RawOf(text, open) - WindowStart(open / capacity, capacity))
  }

  /**
   What the scanner makes of a token. The slice begins at a place remembered within the
   window, so a refill in between moves it on; when it begins past its end the source has
   no buffer to write to.
   */
  ghost function Read(text: string, w: Word, capacity: nat): Option<string>
    requires Proper(text, w) && 0 < capacity
  {
    var close := |text| - w.close;
    var begin := SliceStart(text, w, capacity);
    if begin > close then None
    else
      SliceStartLate(text, w, capacity);
      Some(Decoded(text[begin..close], text[close]))
  }

  lemma SliceStartLate(text: string, w: Word, capacity: nat)
    requires Proper(text, w) && 0 < capacity
    ensures var open, close := |text| - w.open, |text| - w.close;
      open / capacity <= close / capacity &&
      SliceStart(text, w, capacity) ==
      RawOf(text, open) + (close / capacity - open / capacity) * capacity >= RawOf(text, open)
  {
    hide Unescape, Decoded;
    var open, close := |text| - w.open, |text| - w.close;
    var m, n := open / capacity, close / capacity;
    DivMonotone(open, close, capacity);
    MulMonotone(0, n - m, capacity);
    assert n * capacity - m * capacity == (n - m) * capacity;
  }

  lemma DivMonotone(a: int, b: int, c: int)
    requires a <= b && 0 < c
    ensures a / c <= b / c
  {
    var m, n := a / c, b / c;
    assert a == m * c + a % c && b == n * c + b % c;
    if m > n {
      MulMonotone(n + 1, m, c);
    }
  }

  lemma {:induction false} DecodedLength(raw: string, next: char)
    ensures |Decoded(raw, next)| == |Unescape(raw)|
  {
    if |raw| == 1 {
    } else if raw != [] {
      DecodedLength(raw[1..], next);
      DecodedLength(raw[2..], next);
    }
  }

  /** Leaving out the first raw character never makes a token longer, or shorter by more than one. */
  lemma {:induction false} UnescapeTail(raw: string)
    requires raw != []
    ensures |Unescape(raw[1..])| <= |Unescape(raw)| <= 1 + |Unescape(raw[1..])|
    decreases |raw|
  {
    if |raw| > 1 {
      assert raw[1..][1..] == raw[2..];
      UnescapeTail(raw[1..]);
    }
  }

  /** Leaving out two or more raw characters makes it shorter. */
  lemma {:induction false} UnescapeShorter(raw: string, n: nat)
    requires 2 <= n <= |raw|
    ensures |Unescape(raw[n..])| < |Unescape(raw)|
    decreases n
  {
    if n == 2 {
      assert raw[1..][1..] == raw[2..];
      UnescapeTail(raw[1..]);
    } else {
      assert raw[n - 1..][1..] == raw[n..];
      UnescapeShorter(raw, n - 1);
      UnescapeTail(raw[n - 1..]);
    }
  }

  /**
   A token is read right exactly when it lies in one window, opening character and closing
   delimiter included. One that straddles a refill comes out shorter, or not at all.
   */
  lemma {:induction false} ReadRight(text: string, w: Word, capacity: nat)
    requires Proper(text, w) && 0 < capacity
    ensures Read(text, w, capacity) == Some(w.text) <==> Intact(w, |text|, capacity)
    ensures !Intact(w, |text|, capacity) ==>
              var r := Read(text, w, capacity); r == None || |r.value| < |w.text|
  {
    hide Unescape, Decoded;
    var open, close := |text| - w.open, |text| - w.close;
    var raw, begin := RawOf(text, open), SliceStart(text, w, capacity);
    var moved := close / capacity - open / capacity;
    SliceStartLate(text, w, capacity);
    if moved == 0 {
      assert begin == raw;
    } else if begin <= close {
      MulMonotone(1, moved, capacity);
      var slice := text[raw..close];
      assert slice[begin - raw..] == text[begin..close];
      DecodedLength(text[begin..close], text[close]);
      if begin - raw == 1 {
        NextWindowOnly(open, close, capacity);
        UnescapeOne(slice);
      } else {
        UnescapeShorter(slice, begin - raw);
      }
    }
  }

  lemma NextWindowOnly(open: nat, close: nat, capacity: nat)
    requires 0 < capacity && (close / capacity - open / capacity) * capacity == 1
    ensures close == open + 1
  {
    var k := close / capacity - open / capacity;
    if capacity > 1 {
      if k >= 1 {
        MulMonotone(1, k, capacity);
      } else {
        MulMonotone(k, 0, capacity);
      }
    }
    assert capacity == 1 && k == 1;
    DivOne(open);
    DivOne(close);
  }

  lemma DivOne(n: int)
    ensures n / 1 == n
  {
  }

  lemma UnescapeOne(raw: string)
    requires |raw| == 1
    ensures |Unescape(raw[1..])| < |Unescape(raw)|
  {
  }

  /**
   There is nothing to read exactly when the raw slice is shorter than the windows that were
   refilled since the token began: any token shorter than a window that straddles a refill.
   */
  lemma {:induction false} TornIsUnreadable(text: string, w: Word, capacity: nat)
    requires Proper(text, w) && 0 < capacity
    ensures var open, close := |text| - w.open, |text| - w.close;
      Read(text, w, capacity) == None <==>
      close - RawOf(text, open) < (close / capacity - open / capacity) * capacity
    ensures var open, close := |text| - w.open, |text| - w.close;
      !Intact(w, |text|, capacity) && close - RawOf(text, open) < capacity ==> Read(text, w, capacity) == None
  {
    hide Unescape, Decoded;
    var open, close := |text| - w.open, |text| - w.close;
    SliceStartLate(text, w, capacity);
    if !Intact(w, |text|, capacity) {
      MulMonotone(1, close / capacity - open / capacity, capacity);
    }
  }

  /** The tokens are what the scanner makes of these words. */
  ghost predicate Agrees(tokens: seq<string>, words: seq<Word>, text: string, capacity: nat)
    requires 0 < capacity
  {
    |tokens| == |words| &&
    forall i :: 0 <= i < |words| ==> Proper(text, words[i]) && Read(text, words[i], capacity) == Some(tokens[i])
  }

  datatype Reply = Took(taken: Taken) | Crashed

  /** The scanner's flags (src/core/fs_conf.c:136-142); `found_token` is false between characters. */
  datatype Flags = Flags(sharp: bool, quoted: bool, dQuote: bool, sQuote: bool,
                         vacancy: bool, needSpace: bool, variable: bool)

  // Absolute positions: where a quoted or unquoted token ends, where glued text or a comment ends.

  ghost function QuoteAt(text: string, i: nat, quote: char): (n: nat)
    requires i <= |text|
    ensures i <= n <= |text|
  {
    i + QuoteEnd(text[i..], quote)
  }

  ghost function BareAt(text: string, i: nat, dollar: bool): (n: nat)
    requires i <= |text|
    ensures i <= n <= |text|
  {
    i + BareEnd(text[i..], dollar)
  }

  ghost function GlueAt(text: string, i: nat, dollar: bool): (g: Glued)
    requires i <= |text|
    ensures i <= g.len <= |text|
  {
    var g := Glue(text[i..], dollar); Glued(i + g.len, g.dollar)
  }

  ghost function RemarkAt(text: string, i: nat): (n: nat)
    requires i <= |text|
    ensures i <= n <= |text|
  {
    i + RemarkEnd(text[i..])
  }

  lemma QuoteAtStep(text: string, i: nat, quote: char)
    requires i < |text|
    ensures QuoteAt(text, i, quote) ==
            if text[i] == '\\' then (if i + 1 < |text| then QuoteAt(text, i + 2, quote) else |text|)
            else if text[i] == quote then i else QuoteAt(text, i + 1, quote)
  {
    assert text[i..][1..] == text[i + 1..];
    if i + 1 < |text| {
      assert text[i..][2..] == text[i + 2..];
    }
  }

  lemma BareAtStep(text: string, i: nat, dollar: bool)
    requires i < |text|
    ensures BareAt(text, i, dollar) ==
            if text[i] == '{' && dollar then BareAt(text, i + 1, true)
            else if text[i] == '\\' then (if i + 1 < |text| then BareAt(text, i + 2, false) else |text|)
            else if text[i] == '$' then BareAt(text, i + 1, true)
            else if EndsBare(text[i]) then i else BareAt(text, i + 1, false)
  {
    assert text[i..][1..] == text[i + 1..];
    if i + 1 < |text| {
      assert text[i..][2..] == text[i + 2..];
    }
  }

  lemma GlueAtStep(text: string, i: nat, dollar: bool)
    requires i < |text|
    ensures GlueAt(text, i, dollar) ==
            if EndsBare(text[i]) then Glued(i, dollar)
            else if text[i] == '\\' then
              (if i + 1 < |text| then GlueAt(text, i + 2, false) else Glued(|text|, false))
            else GlueAt(text, i + 1, text[i] == '$')
  {
    assert text[i..][1..] == text[i + 1..];
    if i + 1 < |text| {
      assert text[i..][2..] == text[i + 2..];
    }
  }

  lemma RemarkAtStep(text: string, i: nat)
    requires i < |text|
    ensures RemarkAt(text, i) == if text[i] == '\n' then i else RemarkAt(text, i + 1)
  {
    assert text[i..][1..] == text[i + 1..];
  }

  /** Scanning on from position i. */
  ghost function ScanAt(text: string, i: nat, dollar: bool, words: seq<Word>): Scanned
    requires i <= |text|
  {
    Scan(text[i..], dollar, words)
  }

  lemma ScanGap(text: string, i: nat, dollar: bool, words: seq<Word>)
    requires i < |text|
    ensures IsSpace(text[i]) ==> ScanAt(text, i, dollar, words) == ScanAt(text, i + 1, dollar, words)
    ensures text[i] == '#' ==> ScanAt(text, i, dollar, words) == ScanAt(text, RemarkAt(text, i + 1), dollar, words)
    ensures text[i] == ';' ==> ScanAt(text, i, dollar, words) == Scanned(Simple, words, text[i + 1..])
    ensures text[i] == '{' ==> ScanAt(text, i, dollar, words) == Scanned(Open, words, text[i + 1..])
    ensures text[i] == '}' ==> ScanAt(text, i, dollar, words) == Scanned(Close, words, text[i + 1..])
  {
    var s := text[i..];
    assert s[1..] == text[i + 1..];
    if s[0] == '#' {
      var n := RemarkEnd(s[1..]);
      assert s[1 + n..] == text[i + 1 + n..];
    }
  }

  /** At the end of the text nothing is left to find. */
  lemma AtEnd(text: string, quote: char, dollar: bool, words: seq<Word>)
    ensures QuoteAt(text, |text|, quote) == BareAt(text, |text|, dollar) == RemarkAt(text, |text|) == |text|
    ensures GlueAt(text, |text|, dollar) == Glued(|text|, dollar)
    ensures ScanAt(text, |text|, dollar, words) == Scanned(Done, words, [])
  {
  }

  lemma DecodedQuotedAt(text: string, i: nat, quote: char)
    requires i <= |text|
    requires quote == '\"' || quote == '\''
    requires QuoteAt(text, i, quote) < |text|
    ensures var n := QuoteAt(text, i, quote);
      text[n] == quote && Decoded(text[i..n], quote) == Unescape(text[i..n])
  {
    var n := QuoteAt(text, i, quote);
    DecodedQuoted(text[i..], quote);
    assert text[i..][..n - i] == text[i..n];
  }

  lemma ScanQuoted(text: string, open: nat, dollar: bool, words: seq<Word>)
    requires open < |text|
    requires text[open] == '\"' || text[open] == '\''
    ensures var close := QuoteAt(text, open + 1, text[open]);
      if close == |text| then ScanAt(text, open, dollar, words) == Scanned(Done, words, [])
      else
        var w := Word(Unescape(text[open + 1..close]), |text| - open, |text| - close);
        var g := GlueAt(text, close + 1, false);
        ScanAt(text, open, dollar, words) == ScanAt(text, g.len, g.dollar, words + [w])
  {
    hide Unescape, QuoteEnd, Glue, Bare;
    var o := text[open..];
    assert o[1..] == text[open + 1..];
    var k := 1 + QuoteEnd(o[1..], o[0]);
    var l := Quoted(o);
    assert Lex(o, dollar) == l;
    if k < |o| {
      assert o[1..k] == text[open + 1..open + k];
      assert o[k + 1..] == text[open + k + 1..];
      assert o[l.len..] == text[open + l.len..];
    }
  }

  ghost predicate StartsBare(c: char) {
    !IsSpace(c) && c != ';' && c != '{' && c != '}' && c != '#' && c != '\"' && c != '\''
  }

  /** The delimiter of the unquoted token that starts at `open`. */
  ghost function BareCloseAt(text: string, open: nat, dollar: bool): (n: nat)
    requires open < |text|
    ensures n <= |text|
  {
    if text[open] == '\\' then (if open + 1 < |text| then BareAt(text, open + 2, dollar) else |text|)
    else BareAt(text, open + 1, dollar || text[open] == '$')
  }

  lemma ScanBare(text: string, open: nat, dollar: bool, words: seq<Word>)
    requires open < |text| && StartsBare(text[open])
    ensures open < BareCloseAt(text, open, dollar)
    ensures var close := BareCloseAt(text, open, dollar);
      if close == |text| then ScanAt(text, open, dollar, words) == Scanned(Done, words, [])
      else
        EndsBare(text[close]) && RawOf(text, open) <= close &&
        var w := Word(Unescape(text[RawOf(text, open)..close]), |text| - open, |text| - close);
        ScanAt(text, open, dollar, words) == ScanAt(text, close, false, words + [w])
  {
    hide Unescape, BareEnd, Quoted;
    var o := text[open..];
    assert o[1..] == text[open + 1..];
    if |o| > 1 {
      assert o[2..] == text[open + 2..];
    }
    var k := BareClose(o, dollar);
    assert open + k == BareCloseAt(text, open, dollar);
    assert Lex(o, dollar) == Bare(o, dollar);
    if k < |o| {
      var first := RawOf(text, open) - open;
      assert o[first..k] == text[open + first..open + k];
      assert o[k..] == text[open + k..];
    }
  }

  lemma QuotedProper(text: string, i: nat)
    requires i < |text| && (text[i] == '\"' || text[i] == '\'') && Quoted(text[i..]).lexeme.Token?
    ensures Proper(text, Quoted(text[i..]).lexeme.word)
  {
    hide Unescape, Decoded, QuoteEnd, Glue;
    var s := text[i..];
    var k := 1 + QuoteEnd(s[1..], s[0]);
    DecodedQuoted(s[1..], s[0]);
    assert s[1..][..k - 1] == s[1..k] == text[i + 1..i + k];
  }

  lemma BareProper(text: string, i: nat, dollar: bool)
    requires i < |text| && StartsBare(text[i]) && Bare(text[i..], dollar).lexeme.Token?
    ensures Proper(text, Bare(text[i..], dollar).lexeme.word)
  {
    hide Unescape, Decoded, BareEnd;
    var s := text[i..];
    var k := BareClose(s, dollar);
    var first := if s[0] == '\\' then 1 else 0;
    DecodedBare(s[first..k], s[k]);
    assert s[first..k] == text[i + first..i + k];
  }

  /** A token that the lexer takes stands in the text, and its raw slice decodes to it. */
  lemma {:induction false} LexProper(text: string, i: nat, dollar: bool)
    requires i < |text| && Lex(text[i..], dollar).lexeme.Token?
    ensures Proper(text, Lex(text[i..], dollar).lexeme.word)
  {
    hide Proper, Quoted, Bare, RemarkEnd;
    if text[i] == '\"' || text[i] == '\'' {
      QuotedProper(text, i);
    } else {
      BareProper(text, i, dollar);
    }
  }

  lemma {:induction false} ScanProper(text: string, i: nat, dollar: bool, words: seq<Word>, w: Word)
    requires i <= |text| && w in Scan(text[i..], dollar, words).words
    ensures w in words || Proper(text, w)
    decreases |text| - i
  {
    hide Lex, Proper;
    if i < |text| {
      var l := Lex(text[i..], dollar);
      assert text[i..][l.len..] == text[i + l.len..];
      match l.lexeme
      case Gap => ScanProper(text, i + l.len, l.dollar, words, w);
      case Token(v) =>
        LexProper(text, i, dollar);
        ScanProper(text, i + l.len, l.dollar, words + [v], w);
      case Mark(t) =>
      case Cut =>
    }
  }

  /** The combinations of flags that occur between characters. */
  ghost predicate Coherent(f: Flags) {
    (f.sharp ==> f.vacancy) &&
    (f.vacancy ==> !f.quoted && !f.dQuote && !f.sQuote && !f.needSpace) &&
    (f.needSpace ==> !f.dQuote && !f.sQuote) &&
    !(f.dQuote && f.sQuote)
  }

  /**
   What the flags mean: the scan that began at the call (`goal`) equals the scan that is
   left to do from position `at`. `open` is the opening character of the token being read
   and `dollar` the state of the `variable` flag just before it.
   */
  ghost predicate Pending(f: Flags, text: string, at: nat, open: nat, dollar: bool, words: seq<Word>, goal: Scanned)
    requires at <= |text|
  {
    // the position after a character that a backslash quotes
    var from := if f.quoted && at < |text| then at + 1 else at;
    Coherent(f) &&
    if f.sharp then goal == ScanAt(text, RemarkAt(text, at), f.variable, words)
    else if f.vacancy then goal == ScanAt(text, at, f.variable, words)
    else if f.needSpace then
      var g := GlueAt(text, from, f.variable); goal == ScanAt(text, g.len, g.dollar, words)
    else
      open < at && goal == ScanAt(text, open, dollar, words) &&
      if f.dQuote then text[open] == '\"' && QuoteAt(text, open + 1, '\"') == QuoteAt(text, from, '\"')
      else if f.sQuote then text[open] == '\'' && QuoteAt(text, open + 1, '\'') == QuoteAt(text, from, '\'')
      else StartsBare(text[open]) && BareCloseAt(text, open, dollar) == BareAt(text, from, f.variable)
  }

  lemma RemarkStep(f: Flags, text: string, at: nat, open: nat, dollar: bool, words: seq<Word>, goal: Scanned)
    requires at < |text| && Pending(f, text, at, open, dollar, words, goal)
    requires f.sharp
    ensures if text[at] == '\n' then Pending(f.(sharp := false), text, at, open, dollar, words, goal)
            else Pending(f, text, at + 1, open, dollar, words, goal)
  {
    hide ScanAt, RemarkAt;
    RemarkAtStep(text, at);
  }

  /** A character that a backslash quotes: the scanner passes over it. */
  lemma QuotedStep(f: Flags, text: string, at: nat, open: nat, dollar: bool, words: seq<Word>, goal: Scanned)
    requires at < |text| && Pending(f, text, at, open, dollar, words, goal)
    requires f.quoted
    ensures Pending(f.(quoted := false), text, at + 1, open, dollar, words, goal)
  {
    hide ScanAt, GlueAt, QuoteAt, BareAt;
  }

  lemma GlueStep(f: Flags, text: string, at: nat, open: nat, dollar: bool, words: seq<Word>, goal: Scanned)
    requires at < |text| && Pending(f, text, at, open, dollar, words, goal)
    requires f.needSpace && !f.quoted
    ensures var c := text[at];
      if IsSpace(c) then Pending(f.(vacancy := true, needSpace := false), text, at + 1, open, dollar, words, goal)
      else if c == ';' then goal == Scanned(Simple, words, text[at + 1..])
      else if c == '{' then goal == Scanned(Open, words, text[at + 1..])
      else Pending(f.(quoted := c == '\\', variable := c == '$'), text, at + 1, open, dollar, words, goal)
  {
    hide ScanAt, GlueAt;
    GlueAtStep(text, at, f.variable);
    ScanGap(text, at, f.variable, words);
    AtEnd(text, '\"', false, words);
  }

  lemma VacancyStep(f: Flags, text: string, at: nat, open: nat, dollar: bool, words: seq<Word>, goal: Scanned)
    requires at < |text| && Pending(f, text, at, open, dollar, words, goal)
    requires f.vacancy && !f.sharp
    ensures var c := text[at];
      if IsSpace(c) then Pending(f, text, at + 1, open, dollar, words, goal)
      else if c == ';' then goal == Scanned(Simple, words, text[at + 1..])
      else if c == '{' then goal == Scanned(Open, words, text[at + 1..])
      else if c == '}' then goal == Scanned(Close, words, text[at + 1..])
      else if c == '#' then Pending(f.(sharp := true), text, at + 1, open, dollar, words, goal)
      else Pending(f.(vacancy := false, dQuote := c == '\"', sQuote := c == '\'', quoted := c == '\\',
                      variable := f.variable || c == '$'), text, at + 1, at, f.variable, words, goal)
  {
    hide ScanAt;
    ScanGap(text, at, f.variable, words);
  }

  /** A character inside a quoted token, its closing quote included. */
  lemma QuoteStep(f: Flags, text: string, at: nat, open: nat, dollar: bool, words: seq<Word>, goal: Scanned, v: bool)
    requires at < |text| && Pending(f, text, at, open, dollar, words, goal)
    requires (f.dQuote || f.sQuote) && !f.quoted
    ensures open < at
    ensures var c := text[at];
      if c == (if f.dQuote then '\"' else '\'') then
        var w := Word(Unescape(text[open + 1..at]), |text| - open, |text| - at);
        Decoded(text[open + 1..at], c) == w.text &&
        Pending(f.(dQuote := false, sQuote := false, needSpace := true, variable := false),
                text, at + 1, open, dollar, words + [w], goal)
      else
        Pending(f.(quoted := c == '\\', variable := v), text, at + 1, open, dollar, words, goal)
  {
    hide ScanAt, QuoteAt, GlueAt, Decoded, Unescape;
    var quote := if f.dQuote then '\"' else '\'';
    QuoteAtStep(text, at, quote);
    AtEnd(text, quote, false, words);
    if text[at] == quote {
      ScanQuoted(text, open, dollar, words);
      DecodedQuotedAt(text, open + 1, quote);
    }
  }

  /** A character inside an unquoted token, its delimiter included. */
  lemma BareStep(f: Flags, text: string, at: nat, open: nat, dollar: bool, words: seq<Word>, goal: Scanned)
    requires at < |text| && Pending(f, text, at, open, dollar, words, goal)
    requires !f.vacancy && !f.needSpace && !f.dQuote && !f.sQuote && !f.quoted
    ensures open < at
    ensures var c := text[at];
      if c == '{' && f.variable then Pending(f, text, at + 1, open, dollar, words, goal)
      else if EndsBare(c) then
        RawOf(text, open) <= at &&
        var raw := text[RawOf(text, open)..at];
        var w := Word(Unescape(raw), |text| - open, |text| - at);
        Decoded(raw, c) == w.text &&
        if c == ';' then goal == Scanned(Simple, words + [w], text[at + 1..])
        else if c == '{' then goal == Scanned(Open, words + [w], text[at + 1..])
        else Pending(f.(vacancy := true, variable := false), text, at + 1, open, dollar, words + [w], goal)
      else
        Pending(f.(quoted := c == '\\', variable := c == '$'), text, at + 1, open, dollar, words, goal)
  {
    hide ScanAt, BareAt, Decoded, Unescape;
    BareAtStep(text, at, f.variable);
    AtEnd(text, '\"', false, words);
    if EndsBare(text[at]) && !(text[at] == '{' && f.variable) {
      ScanBare(text, open, dollar, words);
      var raw := text[RawOf(text, open)..at];
      DecodedBare(raw, text[at]);
      ScanGap(text, at, false, words + [Word(Unescape(raw), |text| - open, |text| - at)]);
    }
  }

  /** At the end of the text nothing more is taken, whatever was being read. */
  lemma EndStep(f: Flags, text: string, at: nat, open: nat, dollar: bool, words: seq<Word>, goal: Scanned)
    requires at == |text| && Pending(f, text, at, open, dollar, words, goal)
    ensures goal == Scanned(Done, words, [])
  {
    hide ScanAt, BareAt, QuoteAt, GlueAt, RemarkAt;
    AtEnd(text, '\"', f.variable, words);
    AtEnd(text, '\'', f.variable, words);
    if !f.vacancy && !f.needSpace {
      if f.dQuote || f.sQuote {
        ScanQuoted(text, open, dollar, words);
      } else {
        ScanBare(text, open, dollar, words);
      }
    }
  }

  lemma PendingExtends(f: Flags, text: string, at: nat, open: nat, dollar: bool, words: seq<Word>, goal: Scanned)
    requires at <= |text| && Pending(f, text, at, open, dollar, words, goal)
    ensures words <= goal.words
  {
    var from := if f.quoted && at < |text| then at + 1 else at;
    var g := GlueAt(text, from, f.variable);
    ScanExtends(text[RemarkAt(text, at)..], f.variable, words);
    ScanExtends(text[at..], f.variable, words);
    ScanExtends(text[g.len..], g.dollar, words);
    if open < at {
      ScanExtends(text[open..], dollar, words);
    }
  }

  /** What one character asks of the scanner besides setting flags. */
  datatype Move =
    | Pass
    | Begin(skip: nat)              // a token begins; its raw slice is `skip` characters further
    | End(stop: bool, taken: Taken) // a token ends, and with `stop` the directive too
    | Stop(taken: Taken)            // the directive ends

  /** The token that ends at the delimiter at `at`. */
  ghost function WordAt(text: string, open: nat, at: nat): Word
    requires open < at < |text|
  {
    Word(Unescape(text[RawOf(text, open)..at]), |text| - open, |text| - at)
  }

  /** One character against the flags (src/core/fs_conf.c:163-284). */
  method Turn(f0: Flags, chr: char, ghost text: string, ghost at: nat, ghost open: nat, ghost dollar: bool,
              ghost words: seq<Word>, ghost goal: Scanned)
    returns (f: Flags, move: Move)
    requires at < |text| && chr == text[at]
    requires Pending(f0, text, at, open, dollar, words, goal)
    ensures match move
      case Pass =>
        Pending(f, text, at + 1, open, dollar, words, goal) &&
        (!f.vacancy && !f.needSpace ==> !f0.vacancy && !f0.needSpace &&
                                        f.dQuote == f0.dQuote && f.sQuote == f0.sQuote)
      case Begin(skip) =>
        Pending(f, text, at + 1, at, f0.variable, words, goal) && RawOf(text, at) == at + skip
      case End(stop, taken) =>
        !f0.vacancy && !f0.needSpace && open < at && (f.vacancy || f.needSpace) &&
        var w := WordAt(text, open, at);
        Proper(text, w) &&
        words + [w] <= goal.words &&
        if stop then goal == Scanned(taken, words + [w], text[at + 1..])
        else Pending(f, text, at + 1, open, dollar, words + [w], goal)
      case Stop(taken) => goal == Scanned(taken, words, text[at + 1..])
  {
    hide Scan, Unescape, Decoded, QuoteEnd, BareEnd, Glue, RemarkEnd;
    f := f0;
    if f.sharp {
      RemarkStep(f, text, at, open, dollar, words, goal);
    }
    if chr == '\n' {
      if f.sharp {
        f := f.(sharp := false);
      }
    }
    if f.sharp {
      return f, Pass;
    }
    if f.quoted {
      QuotedStep(f, text, at, open, dollar, words, goal);
      f := f.(quoted := false);
      return f, Pass;
    }
    if f.needSpace {
      GlueStep(f, text, at, open, dollar, words, goal);
      if IsSpace(chr) {
        f := f.(vacancy := true, needSpace := false);
        return f, Pass;
      } else if chr == ';' {
        return f, Stop(Simple);
      } else if chr == '{' {
        return f, Stop(Open);
      }
    }
    if f.vacancy {
      VacancyStep(f, text, at, open, dollar, words, goal);
      if IsSpace(chr) {
        return f, Pass;
      } else if chr == ';' {
        return f, Stop(Simple);
      } else if chr == '{' {
        return f, Stop(Open);
      } else if chr == '}' {
        return f, Stop(Close);
      } else if chr == '#' {
        return f.(sharp := true), Pass;
      }
      f := f.(vacancy := false);
      if chr == '\\' {
        return f.(quoted := true), Begin(1);
      } else if chr == '\"' {
        return f.(dQuote := true), Begin(1);
      } else if chr == '\'' {
        return f.(sQuote := true), Begin(1);
      } else if chr == '$' {
        return f.(variable := true), Begin(0);
      }
      return f, Begin(0);
    }
    if f.dQuote || f.sQuote {
      QuoteStep(f, text, at, open, dollar, words, goal, chr == '$' || (chr == '{' && f.variable));
    } else if !f.needSpace {
      BareStep(f, text, at, open, dollar, words, goal);
    }
    if chr == '{' && f.variable {
      return f, Pass;
    }
    f := f.(variable := false);
    if chr == '\\' {
      return f.(quoted := true), Pass;
    }
    if chr == '$' {
      return f.(variable := true), Pass;
    }
    var foundToken := false;
    if f.dQuote {
      if chr == '\"' {
        f, foundToken := f.(dQuote := false, needSpace := true), true;
      }
    } else if f.sQuote {
      if chr == '\'' {
        f, foundToken := f.(sQuote := false, needSpace := true), true;
      }
    } else if EndsBare(chr) {
      f, foundToken := f.(vacancy := true), true;
    }
    if !foundToken {
      return f, Pass;
    }
    move := if chr == ';' then End(true, Simple) else if chr == '{' then End(true, Open) else End(false, Done);
    if !move.stop {
      PendingExtends(f, text, at + 1, open, dollar, words + [WordAt(text, open, at)], goal);
    }
  }

  lemma LineFeedsStep(text: string, at: nat)
    requires at < |text|
    ensures LineFeeds(text[..at + 1]) == LineFeeds(text[..at]) + (if text[at] == '\n' then 1 else 0)
  {
    assert text[..at + 1][..at] == text[..at];
  }

  /**
   The configuration being read: the file with its window (`fs_file_t`, `fs_buf_t`) and the
   tokens of the current directive (`fs_conf_t.tokens`).
   */
  class Conf {
    const file: string         // the bytes on disk; the size is their number
    const buf: array<char>
    var off: nat               // how much of the file has been read
    var pos: nat
    var last: nat
    var line: nat
    var tokens: seq<string>

    ghost const text: string   // all the text there is to scan
    ghost const ahead: nat     // the part of it that was in the window before any read
    ghost var start: int       // the position in the text of the window's first character
    ghost var turn: int        // the window's number

    ghost predicate Valid()
      reads this, buf
    {
      buf.Length > 0 && pos <= last <= buf.Length && off <= |file| &&
      |text| == ahead + |file| &&
      (forall k :: 0 <= k < |file| ==> file[k] == text[ahead + k]) &&
      start == WindowStart(turn, buf.Length) && start + last == ahead + off && 0 <= start + pos &&
      (off < |file| ==> last == buf.Length) &&
      (start < 0 ==> pos == last && start + last == 0) &&
      (0 <= start ==> forall k :: 0 <= k < last ==> buf[k] == text[start + k]) &&
      line == 1 + LineFeeds(text[..start + pos])
    }

    ghost function At(): (at: nat)
      requires Valid()
      reads this, buf
      ensures at <= |text|
    {
      start + pos
    }

    /** The text that has not been scanned yet. */
    ghost function Rest(): string
      requires Valid()
      reads this, buf
    {
      text[At()..]
    }

    /** A file opened for reading: its window is empty (src/core/fs_conf.c:53-77). */
    constructor FromFile(contents: string, capacity: nat)
      requires capacity > 0
      ensures Valid() && fresh(buf)
      ensures file == text == contents && buf.Length == capacity && Rest() == contents
    {
      file, text, ahead := contents, contents, 0;
      buf := new char[capacity];
      off, pos, last, line := 0, capacity, capacity, 1;
      start, turn := 0 - capacity, -1;
      tokens := [];
    }

    /**
     The text of the command line, all of it in the window (src/core/fs_conf.c:23-38); an
     empty one is not parsed at all.
     */
    constructor FromParam(cmdline: string)
      requires cmdline != []
      ensures Valid() && fresh(buf)
      ensures text == cmdline && buf.Length == |cmdline| && Rest() == cmdline
    {
      file, text, ahead := [], cmdline, |cmdline|;
      buf := new char[|cmdline|](i requires 0 <= i < |cmdline| => cmdline[i]);
      off, pos, last, line := 0, 0, |cmdline|, 1;
      start, turn := 0, 0;
      tokens := [];
    }

    /** `fs_file_read`: the next window, clamped to the capacity. */
    method Refill()
      requires Valid() && pos == last && off < |file|
      modifies this`off, this`pos, this`last, this`start, this`turn, buf
      ensures Valid() && At() == old(At())
      ensures start == old(At()) && pos < last
    {
      hide WindowStart, LineFeeds;
      ghost var at := At();
      var target := |file| - off;
      if target > buf.Length {
        target := buf.Length;
      }
      var n := 0;
      while n < target
        modifies buf
        invariant n <= target
        invariant forall k :: 0 <= k < n ==> buf[k] == file[off + k] == text[at + k]
      {
        buf[n] := file[off + n];
        n := n + 1;
      }
      NextWindow(turn, buf.Length);
      start, turn := start + last, turn + 1;
      off, pos, last := off + n, 0, n;
    }

    /**
     The next character, from a fresh window when the current one is used up, counting
     line feeds; none at the end of the file (src/core/fs_conf.c:152-164).
     */
    method NextChar() returns (chr: char, more: bool)
      requires Valid()
      modifies this`off, this`pos, this`last, this`start, this`turn, this`line, buf
      ensures Valid()
      ensures if more then old(At()) < |text| && chr == text[old(At())] && At() == old(At()) + 1 && 0 < pos
              else old(At()) == |text| && At() == old(At())
      ensures start == old(start) || start == old(At())
    {
      hide WindowStart, LineFeeds;
      if pos >= last {
        if off >= |file| {
          return ' ', false;
        }
        Refill();
      }
      LineFeedsStep(text, At());
      chr, more := buf[pos], true;
      pos := pos + 1;
      if chr == '\n' {
        line := line + 1;
      }
    }

    /** What a call that began a scan with result `goal` has delivered. */
    ghost predicate Delivers(r: Reply, goal: Scanned)
      requires Valid()
      reads this, buf
    {
      if r.Crashed? then
        exists w :: w in goal.words && Proper(text, w) && Read(text, w, buf.Length) == None
      else
        r.taken == goal.taken && Rest() == goal.rest &&
        Agrees(tokens, goal.words, text, buf.Length)
    }

    /** The character just read is in the current window. */
    lemma Here()
      requires Valid() && 0 < pos && 0 < At()
      ensures 0 < buf.Length && (At() - 1) / buf.Length == turn && start == WindowStart(turn, buf.Length) <= At() - 1
    {
      hide WindowStart, LineFeeds;
      WindowOf(turn, buf.Length, At() - 1);
    }

    /** The window holds the text up to the character just read. */
    lemma Held(from: nat)
      requires Valid() && 0 < pos && 0 < At() && from <= pos - 1
      ensures 0 <= start + from <= At() - 1 && pos <= buf.Length
      ensures buf[from..pos - 1] == text[start + from..At() - 1] && buf[pos - 1] == text[At() - 1]
    {
      hide WindowStart, LineFeeds;
      assert forall k :: from <= k < pos ==> buf[k] == text[start + k];
    }

    /**
     Takes the token whose raw slice the window holds from `from` up to the delimiter just
     read. `base` is the start of the window its opening character was in. A slice that
     begins past its end is a crash.
     */
    method TakeToken(from: nat, ghost base: int, ghost w: Word, ghost words: seq<Word>, ghost goal: Scanned)
      returns (ok: bool)
      requires Valid() && 0 < At() && 0 < pos
      requires Agrees(tokens, words, text, buf.Length)
      requires Proper(text, w) && |text| - w.close == At() - 1
      requires base == WindowStart((|text| - w.open) / buf.Length, buf.Length)
      requires base + from == RawOf(text, |text| - w.open)
      requires words + [w] <= goal.words
      modifies this`tokens
      ensures Valid() && At() == old(At())
      ensures if ok then Agrees(tokens, words + [w], text, buf.Length) else Delivers(Crashed, goal)
    {
      hide WindowStart, Unescape, Decoded, Valid, RawOf, Proper;
      Here();
      SliceStartLate(text, w, buf.Length);
      assert SliceStart(text, w, buf.Length) == start + from;
      if from > pos - 1 {
        assert w == goal.words[|words|] && w in goal.words;
        return false;
      }
      Held(from);
      var chars, n := Decode(buf, from, pos - 1);
      Add(chars[..n]);
      return true;
    }

    method Add(token: string)
      requires Valid()
      modifies this`tokens
      ensures Valid() && At() == old(At()) && tokens == old(tokens) + [token]
    {
      hide WindowStart, LineFeeds;
      tokens := tokens + [token];
    }

    /** The number of tokens is set to zero (src/core/fs_conf.c:147). */
    method Clear()
      requires Valid()
      modifies this`tokens
      ensures Valid() && At() == old(At()) && tokens == []
      ensures buf.Length > 0 && Agrees(tokens, [], text, buf.Length)
    {
      tokens := [];
    }

    lemma Started()
      requires Valid()
      ensures buf.Length > 0
      ensures Pending(Flags(false, false, false, false, true, false, false), text, At(), 0, false, [],
                      Scan(Rest(), false, []))
    {
    }

    /** `fs_conf_next_token`: the next directive, character by character. */
    method NextToken() returns (r: Reply)
      requires Valid()
      modifies this, buf
      ensures Valid()
      ensures Delivers(r, Scan(old(Rest()), false, []))
    {
      hide Scan, WindowStart, Unescape, Decoded, LineFeeds, Valid, Pending, Agrees, Proper, RawOf;
      var f := Flags(false, false, false, false, true, false, false);
      assert buf.Length > 0 && Pending(f, text, At(), 0, false, [], Scan(Rest(), false, [])) by { Started(); }
      Clear();
      var tokenStart: nat := 0;

      ghost var goal := Scan(Rest(), false, []);
      ghost var words: seq<Word> := [];
      ghost var open: nat, base: int, dollar := 0, 0, false;
      ghost var now := At();
      while true
        invariant Valid() && now == At() <= |text|
        invariant Pending(f, text, now, open, dollar, words, goal)
        invariant buf.Length > 0 && Agrees(tokens, words, text, buf.Length)
        invariant !f.vacancy && !f.needSpace ==>
                    open < now && base == WindowStart(open / buf.Length, buf.Length) &&
                    base + tokenStart == RawOf(text, open)
        decreases |text| - now
      {
        ghost var at := now;
        var chr, more := NextChar();
        now := At();
        if !more {
          EndStep(f, text, at, open, dollar, words, goal);
          return Took(Done);
        }
        var f', move := Turn(f, chr, text, at, open, dollar, words, goal);
        match move {
          case Pass =>
          case Begin(skip) =>
            Here();
            open, base, dollar := at, start, f.variable;
            tokenStart := pos - 1 + skip;
          case End(stop, taken) =>
            ghost var w := WordAt(text, open, at);
            var ok := TakeToken(tokenStart, base, w, words, goal);
            if !ok {
              return Crashed;
            }
            words := words + [w];
            if stop {
              return Took(taken);
            }
          case Stop(taken) =>
            return Took(taken);
        }
        f := f';
      }
    }
  }
}
