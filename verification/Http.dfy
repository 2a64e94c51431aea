/**
 Request headers, assembled from the pieces the HTTP parser delivers
 (src/mod/fs_mod_http.c:247-297), and the lookups over them (src/mod/http/kafka.c:315-412).
 */
module Http {
  import opened Options
  import opened Lexer
  import Scanner
  import Printer

  datatype HeaderState = WantKey | InKey | InValue

  /** What one callback of the parser delivers: a piece of a name or a piece of a value. */
  datatype Piece = Field(at: string) | Value(at: string)

  // ---- Strings that grow

  /**
   A string being assembled: its characters, the size of its memory, none at first, and
   whether something was written past that memory.
   */
  datatype Str = Str(text: string, capacity: nat, spilt: bool)

  const NO_STR := Str([], 0, false)

  /**
   `fs_mod_http_buf_append`: the first piece gets memory for itself and the terminator.
   After that the memory grows only when the piece would fit anyway.
   */
  function Append(s: Str, at: string): Str {
    var end := |s.text| + |at|;
    var capacity :=
      if s.capacity == 0 then |at| + 1
      else if end < s.capacity then 2 * s.capacity + 1
      else s.capacity;
    Str(s.text + at, capacity, s.spilt || capacity < end + 1)
  }

  /** A piece and its terminator stay inside the memory if and only if it is the first or meets the test. */
  lemma AppendInside(s: Str, at: string)
    requires s.capacity == 0 ==> s.text == []
    ensures Append(s, at).spilt <==> s.spilt || !(s.capacity == 0 || |s.text| + |at| < s.capacity)
  {
  }

  /** A string assembled from these pieces. */
  function Built(ss: seq<string>): Str {
    if ss == [] then NO_STR else Append(Built(ss[..|ss| - 1]), ss[|ss| - 1])
  }

  /** The pieces after the first are not empty. */
  predicate Proceeds(ss: seq<string>) {
    forall i :: 1 <= i < |ss| ==> ss[i] != []
  }

  /** The text is all there; it stays inside its memory if and only if it came in one piece. */
  lemma {:induction false} BuiltInside(ss: seq<string>)
    requires ss != []
    ensures Built(ss).text == Joined(ss)
    ensures |ss| == 1 ==> Built(ss).capacity == |ss[0]| + 1
    ensures Proceeds(ss) ==> (Built(ss).spilt <==> 1 < |ss|)
  {
    var before, last := ss[..|ss| - 1], ss[|ss| - 1];
    if |ss| == 1 {
      assert before == [] && Joined(before) + last == last && NO_STR.text + last == last;
    } else {
      BuiltInside(before);
      AppendInside(Built(before), last);
    }
  }

  /** After an empty piece the memory has been doubled, and the next piece may be that much longer. */
  lemma {:induction false} InsideAfterEmpty(first: string, next: string)
    ensures Built([first, "", next]).spilt <==> |first| + 3 <= |next|
  {
    var ss := [first, "", next];
    assert ss[..2] == [first, ""] && [first, ""][..1] == [first] && [first][..0] == [];
    assert Built([first]) == Str([] + first, |first| + 1, false);
    assert Built([first, ""]) == Append(Built([first]), "");
  }

  // ---- Names and values

  datatype Headers = Headers(keys: seq<Str>, vals: seq<Str>, state: HeaderState)

  /** The parser's promise: a value follows a name. */
  predicate Legal(h: Headers, p: Piece) {
    p.Value? ==> h.state != WantKey
  }

  /** Names and values go in step: a name without a value only while the name is being read. */
  predicate InStep(h: Headers) {
    |h.keys| == |h.vals| + (if h.state == InKey then 1 else 0) &&
    (h.state == InValue ==> h.vals != []) && (h.state == WantKey ==> h.keys == [])
  }

  function Extended(ss: seq<Str>, at: string): seq<Str>
    requires ss != []
  {
    ss[..|ss| - 1] + [Append(ss[|ss| - 1], at)]
  }

  function Feed(h: Headers, p: Piece): (r: Headers)
    requires InStep(h) && Legal(h, p)
    ensures InStep(r)
  {
    match p
    case Field(at) =>
      if h.state == InKey then Headers(Extended(h.keys, at), h.vals, InKey)
      else Headers(h.keys + [Append(NO_STR, at)], h.vals, InKey)
    case Value(at) =>
      if h.state == InKey then Headers(h.keys, h.vals + [Append(NO_STR, at)], InValue)
      else Headers(h.keys, Extended(h.vals, at), InValue)
  }

  /** Whether the parser may deliver these pieces one after the other. */
  predicate AllLegal(h: Headers, ps: seq<Piece>)
    requires InStep(h)
    decreases |ps|
  {
    ps == [] || (Legal(h, ps[0]) && AllLegal(Feed(h, ps[0]), ps[1..]))
  }

  function FeedAll(h: Headers, ps: seq<Piece>): (r: Headers)
    requires InStep(h) && AllLegal(h, ps)
    ensures InStep(r)
    decreases |ps|
  {
    if ps == [] then h else FeedAll(Feed(h, ps[0]), ps[1..])
  }

  const NOTHING := Headers([], [], WantKey)

  /** A string from its pieces. */
  function Joined(ss: seq<string>): string {
    if ss == [] then [] else Joined(ss[..|ss| - 1]) + ss[|ss| - 1]
  }

  // ---- Chunking

  /** A header as it was cut: at least one piece of its name, then at least one of its value. */
  datatype Header = Header(name: seq<string>, value: seq<string>)

  predicate WellCut(hs: seq<Header>) {
    forall i :: 0 <= i < |hs| ==> hs[i].name != [] && hs[i].value != []
  }

  function Fields(ss: seq<string>): seq<Piece> {
    if ss == [] then [] else Fields(ss[..|ss| - 1]) + [Field(ss[|ss| - 1])]
  }

  function Values(ss: seq<string>): seq<Piece> {
    if ss == [] then [] else Values(ss[..|ss| - 1]) + [Value(ss[|ss| - 1])]
  }

  function Pieces(hs: seq<Header>): seq<Piece> {
    if hs == [] then []
    else
      var h := hs[|hs| - 1];
      Pieces(hs[..|hs| - 1]) + (Fields(h.name) + Values(h.value))
  }

  function Names(hs: seq<Header>): seq<Str> {
    if hs == [] then [] else Names(hs[..|hs| - 1]) + [Built(hs[|hs| - 1].name)]
  }

  function Contents(hs: seq<Header>): seq<Str> {
    if hs == [] then [] else Contents(hs[..|hs| - 1]) + [Built(hs[|hs| - 1].value)]
  }

  lemma {:induction false} FeedAllAppend(h: Headers, a: seq<Piece>, b: seq<Piece>)
    requires InStep(h) && AllLegal(h, a) && AllLegal(FeedAll(h, a), b)
    ensures AllLegal(h, a + b) && FeedAll(h, a + b) == FeedAll(FeedAll(h, a), b)
    decreases |a|
  {
    hide Feed, Legal, InStep;
    if a == [] {
      assert a + b == b;
    } else {
      assert (a + b)[1..] == a[1..] + b;
      FeedAllAppend(Feed(h, a[0]), a[1..], b);
    }
  }

  lemma FeedOne(h: Headers, p: Piece)
    requires InStep(h) && Legal(h, p)
    ensures AllLegal(h, [p]) && FeedAll(h, [p]) == Feed(h, p)
  {
    assert [p][1..] == [];
  }

  lemma {:induction false} FeedName(h: Headers, name: seq<string>)
    requires InStep(h) && h.state != InKey && name != []
    ensures AllLegal(h, Fields(name))
    ensures FeedAll(h, Fields(name)) == Headers(h.keys + [Built(name)], h.vals, InKey)
    decreases |name|
  {
    var p := Field(name[|name| - 1]);
    if |name| == 1 {
      FeedOne(h, p);
      assert Fields(name[..0]) + [p] == [p] && Built(name[..0]) == NO_STR;
    } else {
      FeedName(h, name[..|name| - 1]);
      var mid := FeedAll(h, Fields(name[..|name| - 1]));
      FeedOne(mid, p);
      FeedAllAppend(h, Fields(name[..|name| - 1]), [p]);
      assert Extended(mid.keys, p.at) == h.keys + [Built(name)];
    }
  }

  lemma {:induction false} FeedValue(h: Headers, value: seq<string>)
    requires InStep(h) && h.state == InKey && value != []
    ensures AllLegal(h, Values(value))
    ensures FeedAll(h, Values(value)) == Headers(h.keys, h.vals + [Built(value)], InValue)
    decreases |value|
  {
    var p := Value(value[|value| - 1]);
    if |value| == 1 {
      FeedOne(h, p);
      assert Values(value[..0]) + [p] == [p] && Built(value[..0]) == NO_STR;
    } else {
      FeedValue(h, value[..|value| - 1]);
      var mid := FeedAll(h, Values(value[..|value| - 1]));
      FeedOne(mid, p);
      FeedAllAppend(h, Values(value[..|value| - 1]), [p]);
      assert Extended(mid.vals, p.at) == h.vals + [Built(value)];
    }
  }

  /** However names and values are cut, the arrays end up holding them whole and in order. */
  lemma {:induction false} ChunkingIgnored(hs: seq<Header>)
    requires WellCut(hs)
    ensures AllLegal(NOTHING, Pieces(hs))
    ensures FeedAll(NOTHING, Pieces(hs)) ==
            Headers(Names(hs), Contents(hs), if hs == [] then WantKey else InValue)
    decreases |hs|
  {
    hide Feed, Legal, Fields, Values, Built;
    if hs != [] {
      var h, before := hs[|hs| - 1], hs[..|hs| - 1];
      ChunkingIgnored(before);
      var mid := FeedAll(NOTHING, Pieces(before));
      FeedName(mid, h.name);
      FeedValue(FeedAll(mid, Fields(h.name)), h.value);
      FeedAllAppend(mid, Fields(h.name), Values(h.value));
      FeedAllAppend(NOTHING, Pieces(before), Fields(h.name) + Values(h.value));
    }
  }

  /** All the text of the pieces of one kind. */
  function TextOf(ps: seq<Piece>, fields: bool): string {
    if ps == [] then [] else (if ps[0].Field? == fields then ps[0].at else []) + TextOf(ps[1..], fields)
  }

  /** The text of all these strings. */
  function AllText(ss: seq<Str>): string {
    if ss == [] then [] else AllText(ss[..|ss| - 1]) + ss[|ss| - 1].text
  }

  lemma AllTextPush(ss: seq<Str>, at: string)
    ensures AllText(ss + [Append(NO_STR, at)]) == AllText(ss) + at
    ensures ss != [] ==> AllText(Extended(ss, at)) == AllText(ss) + at
  {
    assert (ss + [Append(NO_STR, at)])[..|ss|] == ss && NO_STR.text + at == at;
    if ss != [] {
      var e := Extended(ss, at);
      assert e[..|e| - 1] == ss[..|ss| - 1];
    }
  }

  lemma FeedText(h: Headers, p: Piece)
    requires InStep(h) && Legal(h, p)
    ensures var r := Feed(h, p);
      AllText(r.keys) == AllText(h.keys) + (if p.Field? then p.at else []) &&
      AllText(r.vals) == AllText(h.vals) + (if p.Value? then p.at else [])
  {
    hide AllText, Extended;
    AllTextPush(h.keys, p.at);
    AllTextPush(h.vals, p.at);
  }

  /** Whatever legal pieces arrive, no character is lost, added or moved to the other array. */
  lemma {:induction false} NothingLost(h: Headers, ps: seq<Piece>)
    requires InStep(h) && AllLegal(h, ps)
    ensures var r := FeedAll(h, ps);
      AllText(r.keys) == AllText(h.keys) + TextOf(ps, true) && AllText(r.vals) == AllText(h.vals) + TextOf(ps, false)
    decreases |ps|
  {
    hide AllText, Feed, InStep, Legal;
    if ps != [] {
      var p := ps[0];
      FeedText(h, p);
      NothingLost(Feed(h, p), ps[1..]);
      var k, v := TextOf(ps[1..], true), TextOf(ps[1..], false);
      var pk, pv := if p.Field? then p.at else [], if p.Value? then p.at else [];
      assert AllText(h.keys) + pk + k == AllText(h.keys) + (pk + k);
      assert AllText(h.vals) + pv + v == AllText(h.vals) + (pv + v);
    }
  }

  // ---- Lookup

  /**
   The source's test of a header's name against a configured one, of which `bytes` is the
   token's whole buffer: equal sizes but for one, then equal over the shorter size.
   */
  predicate SameName(key: string, bytes: string) {
    |key| + 1 == |bytes| && key == bytes[..|key|]
  }

  /** The raw slice holds an escape that stands for another character. */
  predicate HasEscape(raw: string) {
    exists i :: 0 <= i < |raw| - 1 && EscapesAt(raw, i)
  }

  predicate EscapesAt(raw: string, i: nat)
    requires i < |raw| - 1
  {
    raw[i] == '\\' && raw[i + 1] in {'\"', '\'', '\\', 't', 'r', 'n'}
  }

  /** Such an escape, and nothing else, makes the text shorter than its raw slice. */
  lemma {:induction false} EscapesShorten(raw: string)
    ensures |Unescape(raw)| <= |raw|
    ensures |Unescape(raw)| == |raw| <==> !HasEscape(raw)
    ensures !HasEscape(raw) <==> Unescape(raw) == raw
  {
    if raw != [] {
      EscapesShorten(raw[1..]);
      if |raw| > 1 && EscapesAt(raw, 0) {
        EscapesShorten(raw[2..]);
      } else {
        HasEscapeLater(raw);
      }
    }
  }

  lemma HasEscapeLater(raw: string)
    requires raw != [] && !(|raw| > 1 && EscapesAt(raw, 0))
    ensures HasEscape(raw) <==> HasEscape(raw[1..])
  {
    if i :| 0 <= i < |raw| - 1 && EscapesAt(raw, i) {
      assert EscapesAt(raw[1..], i - 1);
    }
    if i :| 0 <= i < |raw[1..]| - 1 && EscapesAt(raw[1..], i) {
      assert EscapesAt(raw, i + 1);
    }
  }

  /**
   A scanned token's buffer is as long as its raw slice. So a header's name, which holds no
   terminator, is found exactly by a token that was written as the name itself.
   */
  lemma {:induction false} NameMatches(key: string, text: string, w: Word, bytes: string)
    requires '\0' !in key
    requires Scanner.Proper(text, w) && Scanner.LeftBy(bytes, Scanner.RawSlice(text, w), text[|text| - w.close])
    ensures var raw := Scanner.RawSlice(text, w);
      SameName(key, bytes) <==> !HasEscape(raw) && key == raw
  {
    hide HasEscape, Unescape, Scanner.Decoded, Scanner.RawOf;
    var raw := Scanner.RawSlice(text, w);
    EscapesShorten(raw);
    assert bytes[|w.text|] == '\0' && bytes[..|w.text|] == w.text;
    if |w.text| < |key| {
      assert key[|w.text|] in key;
    }
  }

  lemma EscapeIts()
    ensures Printer.Escape("it's", '\'', false) == "it\\'s"
  {
    var w := "it's";
    assert w[1..] == "t's" && w[1..][1..] == "'s" && "'s"[1..] == "s" && "s"[1..] == "";
    assert Printer.Escape("s", '\'', false) == "s" && Printer.Escape("'s", '\'', false) == "\\'s";
    assert Printer.Escape("t's", '\'', false) == "t\\'s";
  }

  /** The token 'it\'s' stands for a legal header name that its buffer never matches. */
  lemma {:induction false} EscapedNameNotFound(bytes: string)
    requires Scanner.LeftBy(bytes, "it\\'s", '\'')
    ensures var text, w := "'it\\'s';", Word("it's", 8, 2);
      Lex(text, false).lexeme == Token(w) && Scanner.Proper(text, w) && !SameName(w.text, bytes)
  {
    hide Unescape, Scanner.Decoded, Printer.Escape, QuoteEnd;
    var text, w, raw := "'it\\'s';", Word("it's", 8, 2), "it\\'s";
    EscapeIts();
    Printer.LexQuotes(Printer.Written("it's", Printer.Quotes('\'', false), ""), ";");
    Printer.UnescapeEscape("it's", '\'', false);
    Printer.QuoteEndEscape("it's", '\'', false, ";");
    assert text[1..] == raw + ['\''] + ";" && text[1..][..5] == text[1..6] == raw;
    Scanner.DecodedQuoted(text[1..], '\'');
    assert EscapesAt(raw, 2);
    NameMatches(w.text, text, w, bytes);
  }

  datatype Origin = InPath | InParam | InDefault

  datatype Found = Found(value: string, origin: Origin) | Missing

  /** The first of these names that matches a configured one. */
  ghost predicate FirstMatch(keys: seq<Str>, bytes: string, n: nat) {
    n < |keys| && SameName(keys[n].text, bytes) && forall m :: 0 <= m < n ==> !SameName(keys[m].text, bytes)
  }

  /**
   What a lookup gives: the path's capture if there is one, else the value of the first
   header with the configured name, else the default.
   */
  ghost predicate Answers(r: Found, keys: seq<Str>, vals: seq<Str>, capture: Option<string>,
                          param: Option<string>, byDefault: Option<string>)
  {
    if capture.Some? && capture.value != [] then r == Found(capture.value, InPath)
    else if param.Some? && exists n: nat :: FirstMatch(keys, param.value, n) then
      exists n: nat :: FirstMatch(keys, param.value, n) && n < |vals| && r == Found(vals[n].text, InParam)
    else if byDefault.Some? then r == Found(byDefault.value, InDefault)
    else r == Missing
  }

  lemma {:induction false} NamesAt(hs: seq<Header>)
    ensures |Names(hs)| == |Contents(hs)| == |hs|
    ensures forall n :: 0 <= n < |hs| ==> Names(hs)[n] == Built(hs[n].name) && Contents(hs)[n] == Built(hs[n].value)
  {
    hide Built;
    if hs != [] {
      NamesAt(hs[..|hs| - 1]);
    }
  }

  /**
   A request's headers stay inside their memory if and only if no name and no value came in
   more than one piece, none of the pieces after the first being empty.
   */
  lemma {:induction false} HeadersInside(hs: seq<Header>)
    requires WellCut(hs) && forall h <- hs :: Proceeds(h.name) && Proceeds(h.value)
    ensures AllLegal(NOTHING, Pieces(hs))
    ensures var r := FeedAll(NOTHING, Pieces(hs));
      |r.keys| == |r.vals| == |hs| &&
      forall n :: 0 <= n < |hs| ==>
        (r.keys[n].spilt <==> 1 < |hs[n].name|) && (r.vals[n].spilt <==> 1 < |hs[n].value|)
  {
    hide Built, Proceeds, FeedAll, AllLegal, Pieces;
    ChunkingIgnored(hs);
    NamesAt(hs);
    forall n | 0 <= n < |hs|
      ensures Built(hs[n].name).spilt <==> 1 < |hs[n].name|
      ensures Built(hs[n].value).spilt <==> 1 < |hs[n].value|
    {
      assert hs[n] in hs;
      BuiltInside(hs[n].name);
      BuiltInside(hs[n].value);
    }
  }

  /** The first header of this name. */
  ghost predicate FirstNamed(hs: seq<Header>, name: string, n: nat) {
    n < |hs| && Joined(hs[n].name) == name && forall m :: 0 <= m < n ==> Joined(hs[m].name) != name
  }

  /**
   A lookup in a request that came in any pieces: what the path captured, if that is not
   empty; else the whole value of the first header of the configured name, if the name was
   written without escapes; else the default.
   */
  lemma {:induction false} LookupAssembled(hs: seq<Header>, text: string, w: Word, bytes: string,
                                           capture: Option<string>, byDefault: Option<string>, r: Found)
    requires WellCut(hs) && forall h <- hs :: '\0' !in Joined(h.name)
    requires Scanner.Proper(text, w) && Scanner.LeftBy(bytes, Scanner.RawSlice(text, w), text[|text| - w.close])
    requires AllLegal(NOTHING, Pieces(hs))
    requires var h := FeedAll(NOTHING, Pieces(hs)); Answers(r, h.keys, h.vals, capture, Some(bytes), byDefault)
    ensures var raw := Scanner.RawSlice(text, w);
      if capture.Some? && capture.value != "" then r == Found(capture.value, InPath)
      else if !HasEscape(raw) && exists n: nat :: FirstNamed(hs, raw, n) then
        exists n: nat :: FirstNamed(hs, raw, n) && r == Found(Joined(hs[n].value), InParam)
      else r == if byDefault.Some? then Found(byDefault.value, InDefault) else Missing
  {
    hide HasEscape, Joined, Built, SameName, Unescape, Scanner.Decoded, Scanner.LeftBy, FeedAll, AllLegal, Pieces;
    var raw := Scanner.RawSlice(text, w);
    ChunkingIgnored(hs);
    NamesAt(hs);
    forall n | 0 <= n < |hs|
      ensures Names(hs)[n].text == Joined(hs[n].name) && Contents(hs)[n].text == Joined(hs[n].value)
      ensures SameName(Names(hs)[n].text, bytes) <==> !HasEscape(raw) && Joined(hs[n].name) == raw
    {
      assert hs[n] in hs;
      BuiltInside(hs[n].name);
      BuiltInside(hs[n].value);
      NameMatches(Joined(hs[n].name), text, w, bytes);
    }
    assert forall n: nat :: FirstMatch(Names(hs), bytes, n) <==> !HasEscape(raw) && FirstNamed(hs, raw, n);
  }

  /** Without a configured name there is only the capture and the default. */
  lemma LookupUnnamed(keys: seq<Str>, vals: seq<Str>, capture: Option<string>, byDefault: Option<string>, r: Found)
    requires Answers(r, keys, vals, capture, None, byDefault)
    ensures r ==
            match (capture, byDefault)
            case (Some(value), None) => if value == "" then Missing else Found(value, InPath)
            case (Some(value), Some(other)) => if value == "" then Found(other, InDefault) else Found(value, InPath)
            case (None, Some(other)) => Found(other, InDefault)
            case (None, None) => Missing
  {
  }

  class Request {
    var url: Str
    var keys: seq<Str>
    var vals: seq<Str>
    var state: HeaderState

    ghost function Now(): Headers
      reads this
    {
      Headers(keys, vals, state)
    }

    ghost predicate Valid()
      reads this
    {
      InStep(Now())
    }

    constructor ()
      ensures Valid() && Now() == NOTHING && url == NO_STR
    {
      url, keys, vals, state := NO_STR, [], [], WantKey;
    }

    /** `on_url`: the path may come in pieces too. */
    method OnUrl(at: string)
      requires Valid()
      modifies this`url
      ensures Valid() && Now() == old(Now()) && url == Append(old(url), at)
    {
      url := Grow(url, at);
    }

    /** `fs_mod_http_buf_append`, on a string and the size of its memory. */
    method Grow(s: Str, at: string) returns (r: Str)
      ensures r == Append(s, at)
    {
      var capacity := s.capacity;
      if capacity == 0 {
        capacity := |at| + 1;
      } else if |s.text| + |at| < capacity {
        capacity := capacity * 2 + 1;
      }
      r := Str(s.text + at, capacity, s.spilt || |s.text| + |at| >= capacity);
    }

    /** `on_header_field` */
    method OnHeaderField(at: string)
      requires Valid()
      modifies this`keys, this`state
      ensures Valid() && Now() == Feed(old(Now()), Field(at))
    {
      if state == WantKey || state == InValue {
        var field := Grow(NO_STR, at);
        keys := keys + [field];
      } else {
        var field := Grow(keys[|keys| - 1], at);
        keys := keys[|keys| - 1 := field];
      }
      state := InKey;
      assert old(state) == InKey ==> keys == Extended(old(keys), at);
    }

    /** `on_header_value`; the parser delivers a name first. */
    method OnHeaderValue(at: string)
      requires Valid() && Legal(Now(), Value(at))
      modifies this`vals, this`state
      ensures Valid() && Now() == Feed(old(Now()), Value(at))
    {
      if state == InKey {
        var value := Grow(NO_STR, at);
        vals := vals + [value];
      } else {
        var value := Grow(vals[|vals| - 1], at);
        vals := vals[|vals| - 1 := value];
      }
      state := InValue;
      assert old(state) == InValue ==> vals == Extended(old(vals), at);
    }

    /**
     `get_topic` and `get_key`, with the buffer of the configured name's token. The request
     is complete, so each name has its value.
     */
    method Lookup(capture: Option<string>, param: Option<string>, byDefault: Option<string>) returns (r: Found)
      requires Valid() && state != InKey
      ensures Answers(r, keys, vals, capture, param, byDefault)
    {
      if capture.Some? && |capture.value| != 0 {
        return Found(capture.value, InPath);
      }
      if param.Some? {
        var found, n := false, 0;
        while n < |keys|
          invariant n <= |keys|
          invariant forall m :: 0 <= m < n ==> !SameName(keys[m].text, param.value)
        {
          if SameName(keys[n].text, param.value) {
            found := true;
            break;
          }
          n := n + 1;
        }
        if found {
          assert FirstMatch(keys, param.value, n);
          return Found(vals[n].text, InParam);
        }
      }
      if byDefault.Some? {
        return Found(byDefault.value, InDefault);
      }
      return Missing;
    }
  }
}
