/**
 The recursive reading of a tree of directives, and the stack machine's agreement with it.
 The walk has no stack: the enclosing frames are an argument, so a block's context and
 handler are those of the tree's own nesting.
 */
module Walk {
  import opened Options
  import opened Lexer
  import opened Printer
  import opened Modules
  import opened Dispatch

  datatype Visit = Visited(store: Store) | Halted(store: Store) | Astray

  function Walk(env: Env, enclosing: seq<Frame>, d: Directive, st: Store): (r: Visit)
    requires |st.records| == |env.mods|
    ensures !r.Astray? ==> |r.store.records| == |env.mods|
    decreases d, 0
  {
    match d
    case Line(_, words) =>
      (match Select(env, enclosing, st, Event(Simple, Spoken(words)))
       case Took(st', _) => Visited(st')
       case Failed(st') => Halted(st')
       case _ => Astray)
    case Block(_, words, body, _) =>
      (match Select(env, enclosing, st, Event(Open, Spoken(words)))
       case Took(st', Some(frame)) =>
         (match WalkAll(env, [frame] + enclosing, body, st')
          case Visited(st'') =>
            var end := Finish(env, frame, View([frame] + enclosing, []), st'');
            if end.Took? then Visited(end.store) else Halted(end.store)
          case r => r)
       case Failed(st') => Halted(st')
       case _ => Astray)
  }

  function WalkAll(env: Env, enclosing: seq<Frame>, ds: seq<Directive>, st: Store): (r: Visit)
    requires |st.records| == |env.mods|
    ensures !r.Astray? ==> |r.store.records| == |env.mods|
    decreases ds, 1
  {
    if ds == [] then Visited(st)
    else
      match Walk(env, enclosing, ds[0], st)
      case Visited(st') => WalkAll(env, enclosing, ds[1..], st')
      case r => r
  }

  /** The state a walk among the given frames amounts to. */
  function Reached(frames: seq<Frame>, v: Visit): State {
    match v
    case Visited(st) => Running(frames, st)
    case Halted(st) => Stopped(st)
    case Astray => Lost
  }

  /** Only a block leaves a frame open, and a block always does. */
  lemma {:induction false} TryAllPushes(env: Env, cs: seq<Candidate>, frames: seq<Frame>, st: Store,
                                        words: seq<string>, flag: bool, block: bool)
    requires |st.records| == |env.mods| && forall c <- cs :: c.mod < |env.mods| && c.cmd.block == block
    ensures var r := TryAll(env, cs, frames, st, words, flag);
      r.Took? ==> r.pushed.Some? == block
    decreases |cs|
  {
    hide RolledBack;
    if cs != [] {
      var a := Try(env, cs[0].mod, cs[0].cmd, frames, st, words, flag);
      if a.Passed? {
        TryAllPushes(env, cs[1..], frames, a.store, words, a.flag, block);
      }
    }
  }

  lemma SelectPushes(env: Env, frames: seq<Frame>, st: Store, ev: Event)
    requires |st.records| == |env.mods|
    ensures var r := Select(env, frames, st, ev);
      r.Took? ==> r.pushed.Some? == (ev.taken == Open)
  {
    hide TryAll;
    if ev.words != [] {
      var cs := Candidates(env.mods, 0, 0, ev.words[0], ev.taken);
      TryAllPushes(env, cs, frames, st, ev.words, env.flag(st.trace), ev.taken == Open);
    }
  }

  lemma {:induction false} RunAllAppend(env: Env, s: State, a: seq<Event>, b: seq<Event>)
    requires Fitting(env, s)
    ensures RunAll(env, s, a + b) == RunAll(env, RunAll(env, s, a), b)
    decreases |a|
  {
    hide Step;
    if a == [] {
      assert a + b == b;
    } else if s.Running? {
      assert (a + b)[1..] == a[1..] + b;
      RunAllAppend(env, Step(env, s.frames, s.store, a[0]), a[1..], b);
    }
  }

  lemma RunAllOne(env: Env, frames: seq<Frame>, st: Store, ev: Event)
    requires |st.records| == |env.mods|
    ensures RunAll(env, Running(frames, st), [ev]) == Step(env, frames, st, ev)
  {
    hide Step;
    assert [ev][1..] == [];
  }

  lemma RunAllDone(env: Env, s: State, evs: seq<Event>)
    requires Fitting(env, s) && !s.Running?
    ensures RunAll(env, s, evs) == s
  {
  }

  lemma StepSelect(env: Env, frames: seq<Frame>, st: Store, ev: Event)
    requires |st.records| == |env.mods| && ev.taken != Close
    ensures match Select(env, frames, st, ev)
      case Took(st', pushed) =>
        pushed.Some? == (ev.taken == Open) &&
        Step(env, frames, st, ev) == Running(if pushed.Some? then [pushed.value] + frames else frames, st')
      case Failed(st') => Step(env, frames, st, ev) == Stopped(st')
      case _ => Step(env, frames, st, ev) == Lost
  {
    hide Select, Finish;
    SelectPushes(env, frames, st, ev);
  }

  lemma {:induction false} DirectiveIsWalk(env: Env, frames: seq<Frame>, d: Directive, st: Store)
    requires |st.records| == |env.mods|
    ensures RunAll(env, Running(frames, st), Preorder(d)) == Reached(frames, Walk(env, frames, d, st))
    decreases d, 0
  {
    hide RunAll, Select, Finish, Step, WalkAll, PreorderAll, Spoken;
    match d
    case Line(_, words) =>
      var ev := Event(Simple, Spoken(words));
      RunAllOne(env, frames, st, ev);
      StepSelect(env, frames, st, ev);
    case Block(_, words, body, _) =>
      var ev, close := Event(Open, Spoken(words)), Event(Close, []);
      var s1 := Step(env, frames, st, ev);
      RunAllOne(env, frames, st, ev);
      StepSelect(env, frames, st, ev);
      assert Preorder(d) == [ev] + (PreorderAll(body) + [close]);
      RunAllAppend(env, Running(frames, st), [ev], PreorderAll(body) + [close]);
      RunAllAppend(env, s1, PreorderAll(body), [close]);
      if s1.Running? {
        DirectivesAreWalk(env, s1.frames, body, s1.store);
        var v := WalkAll(env, s1.frames, body, s1.store);
        if v.Visited? {
          RunAllOne(env, s1.frames, v.store, close);
          StepClose(env, s1.frames, v.store);
          assert s1.frames[1..] == frames;
        } else {
          RunAllDone(env, Reached(s1.frames, v), [close]);
        }
      } else {
        RunAllDone(env, s1, PreorderAll(body));
        RunAllDone(env, s1, [close]);
      }
  }

  lemma StepClose(env: Env, frames: seq<Frame>, st: Store)
    requires |st.records| == |env.mods| && frames != []
    ensures var end := Finish(env, frames[0], View(frames, []), st);
      Step(env, frames, st, Event(Close, [])) ==
      if end.Took? then Running(frames[1..], end.store) else Stopped(end.store)
  {
    hide Finish;
  }

  /**
   The stack machine on the directives of a tree does what the recursive walk does, and
   leaves the open frames as they were.
   */
  lemma {:induction false} DirectivesAreWalk(env: Env, frames: seq<Frame>, ds: seq<Directive>, st: Store)
    requires |st.records| == |env.mods|
    ensures RunAll(env, Running(frames, st), PreorderAll(ds)) == Reached(frames, WalkAll(env, frames, ds, st))
    decreases ds, 1
  {
    hide Walk, Preorder;
    if ds == [] {
    } else {
      DirectiveIsWalk(env, frames, ds[0], st);
      var v := Walk(env, frames, ds[0], st);
      RunAllAppend(env, Running(frames, st), Preorder(ds[0]), PreorderAll(ds[1..]));
      if v.Visited? {
        DirectivesAreWalk(env, frames, ds[1..], v.store);
      } else {
        RunAllDone(env, Reached(frames, v), PreorderAll(ds[1..]));
      }
    }
  }

  /** From the printed text to the callbacks: print, scan and dispatch is the recursive walk. */
  lemma {:induction false} PrintedRunIsWalk(env: Env, ds: seq<Directive>, end: string)
    requires AllWellLaid(ds) && IsLayout(end)
    ensures RunAll(env, Running([], Start(env)), Events(PrintAll(ds) + end)) ==
            Reached([], WalkAll(env, [], ds, Start(env)))
  {
    RoundTrip(ds, end);
    DirectivesAreWalk(env, [], ds, Start(env));
  }
}
