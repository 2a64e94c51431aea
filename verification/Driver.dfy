/** `fs_conf_parse` and the start of the modules (src/core/fs_conf.c:88-128, src/core/fs_mod.c). */
module Driver {
  import opened Options
  import opened Lexer
  import opened Scanner
  import opened Printer
  import opened Modules
  import opened Dispatch
  import opened Handler
  import opened Walk
  import opened Records
  import opened Invariants
  import opened Rooms
  import opened Liveness
  import Outcomes

  // ---- What a text reads as through a window

  /** Each word stands in the text and can be read. */
  ghost predicate Readable(words: seq<Word>, text: string, capacity: nat)
    requires 0 < capacity
  {
    forall i :: 0 <= i < |words| ==> Proper(text, words[i]) && Read(text, words[i], capacity).Some?
  }

  /** The tokens the scanner makes of these words. */
  ghost function Heard(words: seq<Word>, text: string, capacity: nat): (r: seq<string>)
    requires 0 < capacity && Readable(words, text, capacity)
    ensures |r| == |words|
  {
    seq(|words|, i requires 0 <= i < |words| => Read(text, words[i], capacity).value)
  }

  /** The directives the dispatcher gets to see, and whether the scanner then meets a token it cannot read. */
  datatype Reading = Reading(events: seq<Event>, torn: bool)

  ghost function ReadingOf(s: string, text: string, capacity: nat): Reading
    requires 0 < capacity
    decreases |s|
  {
    var r := Scan(s, false, []);
    if !Readable(r.words, text, capacity) then Reading([], true)
    else if r.taken == Done then Reading([], false)
    else
      var rest := ReadingOf(r.rest, text, capacity);
      Reading([Event(r.taken, Heard(r.words, text, capacity))] + rest.events, rest.torn)
  }

  /** Where a run over such a reading ends: a token that cannot be read leaves no outcome. */
  function EndOf(env: Env, s: State, reading: Reading): State
    requires Fitting(env, s)
  {
    var end := RunAll(env, s, reading.events);
    if reading.torn && end.Running? then Lost else end
  }

  /**
   No token of a directive straddles a refill, and those of a directive that the text cuts
   off, which are dropped, can be read.
   */
  ghost predicate WellRead(s: string, text: string, capacity: nat)
    requires 0 < capacity
    decreases |s|
  {
    var r := Scan(s, false, []);
    if r.taken == Done then Readable(r.words, text, capacity)
    else (forall w <- r.words :: Intact(w, |text|, capacity)) && WellRead(r.rest, text, capacity)
  }

  /** A scan's words read as themselves exactly when none of them straddles a refill. */
  lemma {:induction false} IntactWords(text: string, i: nat, capacity: nat)
    requires 0 < capacity && i <= |text|
    ensures var words := Scan(text[i..], false, []).words;
      (forall w <- words :: Intact(w, |text|, capacity)) <==>
      Readable(words, text, capacity) && Heard(words, text, capacity) == Texts(words)
  {
    hide Scan, Proper, Read, Intact;
    var words := Scan(text[i..], false, []).words;
    forall w | w in words
      ensures Proper(text, w) && (Read(text, w, capacity) == Some(w.text) <==> Intact(w, |text|, capacity))
    {
      ScanProper(text, i, false, [], w);
      ReadRight(text, w, capacity);
    }
    if Readable(words, text, capacity) && Heard(words, text, capacity) == Texts(words) {
      forall k | 0 <= k < |words|
        ensures Intact(words[k], |text|, capacity)
      {
        assert words[k] in words && Heard(words, text, capacity)[k] == Texts(words)[k];
      }
    } else if forall w <- words :: Intact(w, |text|, capacity) {
      assert forall k :: 0 <= k < |words| ==> words[k] in words;
    }
  }

  /** A text is read as it stands if and only if it is read well in this sense. */
  lemma {:induction false} WellReadExactly(text: string, i: nat, capacity: nat)
    requires 0 < capacity && i <= |text|
    ensures ReadingOf(text[i..], text, capacity) == Reading(Events(text[i..]), false) <==>
            WellRead(text[i..], text, capacity)
    decreases |text| - i
  {
    hide Scan, Readable, Heard, Intact, Texts;
    var s := text[i..];
    var r := Scan(s, false, []);
    if r.taken != Done {
      IntactWords(text, i, capacity);
      ScanRest(s, false, []);
      assert r.rest == text[|text| - |r.rest|..];
      WellReadExactly(text, |text| - |r.rest|, capacity);
      var reading, events := ReadingOf(r.rest, text, capacity), Events(r.rest);
      var ev := Event(r.taken, Texts(r.words));
      assert Events(s) == [ev] + events && ([ev] + events)[1..] == events;
      if Readable(r.words, text, capacity) {
        var ev' := Event(r.taken, Heard(r.words, text, capacity));
        assert ReadingOf(s, text, capacity).events == [ev'] + reading.events;
        assert ([ev'] + reading.events)[1..] == reading.events;
      }
    }
  }

  /** What a scan leaves is the end of what it was given. */
  lemma {:induction false} ScanRest(s: string, dollar: bool, words: seq<Word>)
    ensures var r := Scan(s, dollar, words);
      |r.rest| <= |s| && r.rest == s[|s| - |r.rest|..]
    decreases |s|
  {
    hide Lex;
    if s != [] {
      var l := Lex(s, dollar);
      match l.lexeme
      case Gap => ScanRest(s[l.len..], l.dollar, words);
      case Token(w) => ScanRest(s[l.len..], l.dollar, words + [w]);
      case Mark(t) =>
      case Cut =>
    }
  }

  lemma AgreesHeard(tokens: seq<string>, words: seq<Word>, text: string, capacity: nat)
    requires 0 < capacity && Agrees(tokens, words, text, capacity)
    ensures Readable(words, text, capacity) && tokens == Heard(words, text, capacity)
  {
    hide Read, Proper;
  }

  lemma EndOfNext(env: Env, frames: seq<Frame>, st: Store, s: string, text: string, capacity: nat)
    requires 0 < capacity && |st.records| == |env.mods|
    requires Readable(Scan(s, false, []).words, text, capacity)
    ensures var r := Scan(s, false, []);
      EndOf(env, Running(frames, st), ReadingOf(s, text, capacity)) ==
      if r.taken == Done then Running(frames, st)
      else
        EndOf(env, Step(env, frames, st, Event(r.taken, Heard(r.words, text, capacity))),
              ReadingOf(r.rest, text, capacity))
  {
    hide Scan, Step, Readable, Heard;
    var r := Scan(s, false, []);
    if r.taken != Done {
      var ev, rest := Event(r.taken, Heard(r.words, text, capacity)), ReadingOf(r.rest, text, capacity);
      assert ([ev] + rest.events)[1..] == rest.events;
    }
  }

  lemma EndOfTorn(env: Env, frames: seq<Frame>, st: Store, s: string, text: string, capacity: nat)
    requires 0 < capacity && |st.records| == |env.mods|
    requires !Readable(Scan(s, false, []).words, text, capacity)
    ensures EndOf(env, Running(frames, st), ReadingOf(s, text, capacity)) == Lost
  {
    hide Scan, Readable;
  }

  lemma EndOfDone(env: Env, s: State, reading: Reading)
    requires Fitting(env, s) && !s.Running?
    ensures EndOf(env, s, reading) == s
  {
  }

  /** The same for the array of contexts. */
  lemma MemoryNext(env: Env, frames: seq<Frame>, st: Store, s: string, text: string, capacity: nat, m: Room)
    requires 0 < capacity && |st.records| == |env.mods| && |m.homes| == |frames|
    requires Readable(Scan(s, false, []).words, text, capacity)
    ensures var r := Scan(s, false, []);
      var events := ReadingOf(s, text, capacity).events;
      if r.taken == Done then AfterRun(env, Running(frames, st), events, m) == m
      else
        var ev := Event(r.taken, Heard(r.words, text, capacity));
        var s', m' := Step(env, frames, st, ev), AfterStep(env, frames, st, ev, m);
        (s'.Running? ==> |m'.homes| == |s'.frames|) &&
        AfterRun(env, Running(frames, st), events, m) ==
        AfterRun(env, s', ReadingOf(r.rest, text, capacity).events, m')
  {
    hide Scan, Step, AfterStep, Readable, Heard;
    var r := Scan(s, false, []);
    if r.taken != Done {
      var ev, rest := Event(r.taken, Heard(r.words, text, capacity)), ReadingOf(r.rest, text, capacity);
      AfterStepFits(env, frames, st, ev, m);
      assert ([ev] + rest.events)[1..] == rest.events;
    }
  }

  lemma MemoryDone(env: Env, s: State, events: seq<Event>, m: Room)
    requires Fitting(env, s) && !s.Running?
    ensures AfterRun(env, s, events, m) == m
  {
  }

  /**
   Scans and handles directives until the end of the text, an error or a token that cannot
   be read. A text may end inside a block or a directive; that is accepted.
   */
  method Parse(conf: Conf, d: Dispatcher) returns (out: Outcome)
    requires conf.Valid() && d.Valid() && {conf, conf.buf} !! d.run.Repr
    modifies conf, conf.buf, d, d.run.Repr
    ensures d.run.Valid() && (out != Broken ==> d.Valid())
    ensures 0 < conf.buf.Length &&
            var reading := ReadingOf(old(conf.Rest()), conf.text, conf.buf.Length);
            d.Handled(EndOf(d.env, Running(old(d.Frames()), old(d.Now())), reading), out) &&
            (out != Broken ==>
               d.Memory() ==
               AfterRun(d.env, Running(old(d.Frames()), old(d.Now())), reading.events, old(d.Memory())))
  {
    hide Scan, EndOf, Step, ReadingOf, Agrees, Readable, Heard, Read, Proper, AfterRun, AfterStep,
      Conf.Valid, RunStack.Run.Valid, RunStack.Run.Frames, RunStack.Run.Memory, Dispatcher.Memory;
    assert conf.buf.Length > 0 by { conf.Started(); }
    ghost var capacity := conf.buf.Length;
    ghost var goal := EndOf(d.env, Running(d.Frames(), d.Now()), ReadingOf(conf.Rest(), conf.text, capacity));
    ghost var memory := AfterRun(d.env, Running(d.Frames(), d.Now()),
                                 ReadingOf(conf.Rest(), conf.text, capacity).events, d.Memory());
    while true
      invariant conf.Valid() && d.Valid() && {conf, conf.buf} !! d.run.Repr
      invariant fresh(d.run.Repr - old(d.run.Repr))
      invariant goal == EndOf(d.env, Running(d.Frames(), d.Now()), ReadingOf(conf.Rest(), conf.text, capacity))
      invariant memory == AfterRun(d.env, Running(d.Frames(), d.Now()),
                                   ReadingOf(conf.Rest(), conf.text, capacity).events, d.Memory())
      decreases |conf.Rest()|
    {
      ghost var s := conf.Rest();
      ghost var words := Scan(s, false, []).words;
      var r := conf.NextToken();
      if r.Crashed? {
        Unreadable(words, conf.text, capacity);
        EndOfTorn(d.env, d.Frames(), d.Now(), s, conf.text, capacity);
        return Broken;
      }
      AgreesHeard(conf.tokens, words, conf.text, capacity);
      EndOfNext(d.env, d.Frames(), d.Now(), s, conf.text, capacity);
      MemoryNext(d.env, d.Frames(), d.Now(), s, conf.text, capacity, d.Memory());
      if r.taken == Done {
        return Accepted;
      }
      ghost var step := Step(d.env, d.Frames(), d.Now(), Event(r.taken, conf.tokens));
      out := d.Handle(r.taken, conf.tokens);
      if out != Accepted {
        EndOfDone(d.env, step, ReadingOf(conf.Rest(), conf.text, capacity));
        MemoryDone(d.env, step, ReadingOf(conf.Rest(), conf.text, capacity).events, d.Memory());
        return;
      }
    }
  }

  lemma Unreadable(words: seq<Word>, text: string, capacity: nat)
    requires 0 < capacity && exists w :: w in words && Proper(text, w) && Read(text, w, capacity) == None
    ensures !Readable(words, text, capacity)
  {
    hide Proper, Read;
  }

  /** The calls that start the used modules, in table order, each with its stored contexts. */
  function Starts(records: seq<Record>, n: nat): seq<Call>
    requires n <= |records|
  {
    if n == 0 then []
    else Starts(records, n - 1) + if records[n - 1].used then [Inited(n - 1, Stored(records[n - 1]))] else []
  }

  /** The same calls, read off the accepted directives. */
  function StartsOf(accepted: seq<Acceptance>, n: nat): seq<Call> {
    if n == 0 then []
    else
      var ctxs := CtxsOf(accepted, n - 1);
      StartsOf(accepted, n - 1) + if ctxs != [] then [Inited(n - 1, ctxs)] else []
  }

  /** Each module with an accepted directive is started once, with exactly its contexts. */
  lemma {:induction false} StartsMatch(env: Env, st: Store, n: nat)
    requires Kept(env, st) && n <= |st.records|
    ensures Starts(st.records, n) == StartsOf(st.accepted, n)
  {
    hide CtxsOf;
    if 0 < n {
      StartsMatch(env, st, n - 1);
      assert KeptBy(st.records[n - 1], CtxsOf(st.accepted, n - 1));
    }
  }

  /** `fs_gmod_inited` (src/core/fs_mod.c:24-35). */
  method InitedAll(d: Dispatcher)
    requires d.Valid()
    modifies d`trace
    ensures d.Valid() && d.Frames() == old(d.Frames()) && d.Memory() == old(d.Memory())
    ensures d.Now() == old(d.Now()).(trace := old(d.trace) + Starts(d.records, |d.records|))
  {
    hide RunStack.Run.Valid, RunStack.Run.Frames, Stored;
    var i := 0;
    while i < |d.records|
      invariant i <= |d.records| && d.Valid()
      invariant d.Frames() == old(d.Frames()) && d.Memory() == old(d.Memory())
      invariant d.trace == old(d.trace) + Starts(d.records, i)
    {
      if d.records[i].used {
        var reply := d.Ask(Inited(i, Stored(d.records[i])));
      }
      i := i + 1;
    }
  }

  lemma StartEmpty(env: Env)
    ensures Start(env).accepted == [] && Start(env).trace == [] && |Start(env).records| == |env.mods|
  {
  }

  /** With fewer than eight directives that take a slot, the array of eight is enough. */
  lemma {:induction false} FewSlots(env: Env, reading: Reading)
    requires var end := EndOf(env, Running([], Start(env)), reading);
      !end.Lost? && SlotsOf(end.store.accepted) < 8
    ensures !AfterRun(env, Running([], Start(env)), reading.events, Room(0, 8, [], false)).stale
  {
    hide RunAll, AfterRun, Start;
    StartEmpty(env);
    RoomyRun(env, [], Start(env), reading.events, Room(0, 8, [], false), 8);
  }

  /** `fs_conf_file` on a file of these contents (src/core/fs_conf.h:57-66). */
  method Configure(env: Env, contents: string, capacity: nat) returns (out: Outcome, d: Dispatcher)
    requires 0 < capacity
    ensures fresh(d) && d.env == env && d.run.Valid()
    ensures out != Broken ==>
              d.Memory() == AfterRun(env, Running([], Start(env)), ReadingOf(contents, contents, capacity).events,
                                     Room(0, 8, [], false))
    ensures out != Broken ==>
              var events := ReadingOf(contents, contents, capacity).events;
              d.stale <==> exists k :: DanglesAt(env, [], Start(env), events, Room(0, 8, [], false), k)
    ensures match EndOf(env, Running([], Start(env)), ReadingOf(contents, contents, capacity))
      case Running(frames, st) =>
        out == Accepted && d.Frames() == frames &&
        d.Now() == st.(trace := st.trace + Starts(st.records, |st.records|)) &&
        (SlotsOf(st.accepted) < 8 ==> !d.stale)
      case Stopped(st) => out == Refused && d.Now() == st && (SlotsOf(st.accepted) < 8 ==> !d.stale)
      case Lost => out == Broken
  {
    hide EndOf, ReadingOf, AfterRun, DanglesAt, Starts, Sound, LineFeeds, Conf.Valid, Conf.Rest,
      RunStack.Run.Valid, RunStack.Run.Frames, RunStack.Run.Memory;
    var conf := new Conf.FromFile(contents, capacity);
    d := new Dispatcher(env);
    out := Parse(conf, d);
    if out == Accepted {
      InitedAll(d);
    }
    ghost var reading := ReadingOf(contents, contents, capacity);
    ghost var end := EndOf(env, Running([], Start(env)), reading);
    StaleRun(env, [], Start(env), reading.events, Room(0, 8, [], false));
    if !end.Lost? && SlotsOf(end.store.accepted) < 8 {
      FewSlots(env, reading);
    }
  }

  /** A file that fits the window is read in one piece: no token can straddle a refill. */
  lemma {:induction false} SmallFileWellRead(text: string, i: nat, capacity: nat)
    requires i <= |text| <= capacity && 0 < capacity
    ensures WellRead(text[i..], text, capacity)
    decreases |text| - i
  {
    hide Scan, Proper, Heard, Readable;
    var r := Scan(text[i..], false, []);
    forall w | w in r.words
      ensures Intact(w, |text|, capacity)
    {
      ScanProper(text, i, false, [], w);
      ProperPlaces(text, w);
      WindowOf(0, capacity, |text| - w.open);
      WindowOf(0, capacity, |text| - w.close);
    }
    IntactWords(text, i, capacity);
    if r.taken != Done {
      ScanRest(text[i..], false, []);
      assert r.rest == text[|text| - |r.rest|..];
      SmallFileWellRead(text, |text| - |r.rest|, capacity);
    }
  }

  lemma ProperPlaces(text: string, w: Word)
    requires Proper(text, w)
    ensures 0 < w.close <= w.open <= |text|
  {
  }

  /** The size of a file's buffer (src/core/fs_conf.c:17). */
  const PAYLOAD_BUFFER_SIZE := 4096

  function Spaces(n: nat): (s: string)
    ensures |s| == n && forall i :: 0 <= i < n ==> s[i] == ' '
  {
    seq(n, _ => ' ')
  }

  lemma {:induction false} SpacesAreLayout(n: nat)
    ensures IsLayout(Spaces(n))
  {
    if n > 0 {
      assert Spaces(n)[1..] == Spaces(n - 1);
      SpacesAreLayout(n - 1);
    }
  }

  lemma ScanShort(before: nat)
    ensures Scan("ab;", false, []) == Scanned(Simple, [Word("ab", 3, 1)], "")
    ensures Proper(Spaces(before) + "ab;", Word("ab", 3, 1))
  {
    hide Spaces;
    var s := "ab;";
    assert s[1..] == "b;" && s[1..][1..] == ";" && s[2..] == ";" && s[0..2] == "ab" && "ab"[1..] == "b";
    assert BareEnd(";", false) == 0 && BareEnd("b;", false) == 1;
    assert Unescape("b") == "b" && Unescape("ab") == "ab" && Decoded("b", ';') == "b" && Decoded("ab", ';') == "ab";
    assert Lex(s, false) == Lexed(Token(Word("ab", 3, 1)), 2, false);
    assert Scan(";", false, [Word("ab", 3, 1)]) == Scanned(Simple, [Word("ab", 3, 1)], "");
    var text := Spaces(before) + s;
    assert text[before] == 'a' && text[before + 2] == ';' && text[before..before + 2] == "ab";
  }

  /** A file whose only token begins with the last character of the first buffer: reading it has no outcome. */
  lemma TornToken()
    ensures var text, w := Spaces(PAYLOAD_BUFFER_SIZE - 1) + "ab;", Word("ab", 3, 1);
      Scan(text, false, []) == Scanned(Simple, [w], "") &&
      Proper(text, w) && Read(text, w, PAYLOAD_BUFFER_SIZE) == None &&
      ReadingOf(text, text, PAYLOAD_BUFFER_SIZE) == Reading([], true)
  {
    hide Spaces, Scan, Proper, Intact, IsLayout;
    var text, w := Spaces(PAYLOAD_BUFFER_SIZE - 1) + "ab;", Word("ab", 3, 1);
    SpacesAreLayout(PAYLOAD_BUFFER_SIZE - 1);
    ScanShort(PAYLOAD_BUFFER_SIZE - 1);
    ScanLayout(Spaces(PAYLOAD_BUFFER_SIZE - 1), "ab;", false, []);
    TornIsUnreadable(text, w, PAYLOAD_BUFFER_SIZE);
    assert !Readable([w], text, PAYLOAD_BUFFER_SIZE) by { assert [w][0] == w; }
  }

  lemma StartKept(env: Env)
    ensures Kept(env, Start(env))
  {
    assert forall i :: 0 <= i < |env.mods| ==> KeptBy(Start(env).records[i], CtxsOf([], i));
  }

  /**
   A printed list of trees that the walk accepts, for any table: the parse ends with nothing
   open, every directive was accepted once and in order, and each completion that was owed
   was made. The modules are started with the contexts of their own directives if no
   directive took back a context that was not its own.
   */
  lemma {:induction false} PrintedConfiguration(env: Env, ds: seq<Directive>, end: string)
    requires AllWellLaid(ds) && IsLayout(end)
    requires WalkAll(env, [], ds, Start(env)).Visited?
    ensures var st, evs := WalkAll(env, [], ds, Start(env)).store, PreorderAll(ds);
      Events(PrintAll(ds) + end) == evs &&
      RunAll(env, Running([], Start(env)), evs) == Running([], st) &&
      WordsOf(st.accepted) == Directives(evs) &&
      Completions(st.trace) == Owed(env, st.accepted) &&
      Outcomes.Honest(env, st) && Outcomes.NoError(env, st.trace) &&
      (Kept(env, st) <==> !exists k :: RobsAt(env, [], Start(env), evs, k)) &&
      (SafeTable(env) ==> Kept(env, st)) &&
      (Kept(env, st) ==> Starts(st.records, |st.records|) == StartsOf(st.accepted, |env.mods|))
  {
    hide WalkAll, RunAll, Starts, StartsOf, Directives, PreorderAll, Events, PrintAll, AllWellLaid, KeptBy, SafeTable,
      RobsAt, Start;
    StartEmpty(env);
    var st := WalkAll(env, [], ds, Start(env)).store;
    PrintedRunIsWalk(env, ds, end);
    RoundTrip(ds, end);
    var evs := PreorderAll(ds);
    RecordedInOrder(env, [], Start(env), evs);
    assert WordsOf([]) + Directives(evs) == Directives(evs);
    SettledAlways(env, [], Start(env), evs);
    Outcomes.AcceptedByReply(env, [], Start(env), evs);
    StartKept(env);
    KeptExactly(env, [], Start(env), evs);
    if SafeTable(env) {
      KeptAlways(env, [], Start(env), evs);
    }
    if Kept(env, st) {
      StartsMatch(env, st, |st.records|);
    }
  }

  /**
   Reading a printed file that reads as it stands, on the heap structures: it is accepted if
   and only if the walk is, nothing stays open, and after the walk's callbacks the modules
   are started. Any file that fits the buffer is such a file.
   */
  method ConfigurePrinted(env: Env, ds: seq<Directive>, end: string, capacity: nat)
    returns (out: Outcome, d: Dispatcher)
    requires AllWellLaid(ds) && IsLayout(end) && 0 < capacity
    ensures fresh(d) && d.env == env && d.run.Valid()
    ensures var text := PrintAll(ds) + end;
      |text| <= capacity ==> WellRead(text, text, capacity)
    ensures var text := PrintAll(ds) + end;
      WellRead(text, text, capacity) ==>
        match WalkAll(env, [], ds, Start(env))
        case Visited(st) =>
          out == Accepted && d.Frames() == [] &&
          d.Now() == st.(trace := st.trace + Starts(st.records, |st.records|)) &&
          (SlotsOf(st.accepted) < 8 ==> !d.stale) &&
          (Kept(env, st) <==> !exists k :: RobsAt(env, [], Start(env), PreorderAll(ds), k)) &&
          (Kept(env, st) ==> d.Now().trace == st.trace + StartsOf(st.accepted, |env.mods|))
        case Halted(st) => out == Refused && d.Now() == st
        case Astray => out == Broken
  {
    hide WalkAll, RunAll, Starts, StartsOf, Events, PrintAll, PreorderAll, AllWellLaid, WellRead, ReadingOf,
      Kept, RobsAt, AfterRun, SlotsOf, RunStack.Run.Valid, RunStack.Run.Frames, RunStack.Run.Memory;
    var contents := PrintAll(ds) + end;
    assert contents[0..] == contents;
    if |contents| <= capacity {
      SmallFileWellRead(contents, 0, capacity);
    }
    WellReadExactly(contents, 0, capacity);
    PrintedRunIsWalk(env, ds, end);
    out, d := Configure(env, contents, capacity);
    if WalkAll(env, [], ds, Start(env)).Visited? {
      PrintedConfiguration(env, ds, end);
    }
  }
}
