/** What a run of the dispatcher does to the array of contexts and to the pointers into it. */
module Liveness {
  import opened Options
  import opened Lexer
  import opened Modules
  import opened Dispatch
  import opened Rooms
  import opened Invariants
  import opened Records

  /** A candidate's own doing: whose pointers it follows, and what it leaves (src/core/fs_conf.c:381-460). */
  function After(cmd: Cmd, a: Attempt, m: Room): (r: Room)
    ensures a.Passed? ==> |r.homes| == |m.homes|
  {
    if cmd.child && !cmd.block then (if m.homes == [] then m else Touch(m, 0))
    else
      var e := Enter(m);
      var asked := if cmd.child && m.homes != [] then Touch(e, 1) else e;
      if a.Passed? then GiveBack(asked)
      else if a.Took? && !cmd.block then Leave(asked)
      else asked
  }

  /** The candidates in turn, until one does not pass. */
  function AfterAll(env: Env, cs: seq<Candidate>, frames: seq<Frame>, st: Store,
                    words: seq<string>, flag: bool, m: Room): Room
    requires |st.records| == |env.mods| && forall c <- cs :: c.mod < |env.mods|
    decreases |cs|
  {
    if cs == [] then m
    else
      var a := Try(env, cs[0].mod, cs[0].cmd, frames, st, words, flag);
      var m' := After(cs[0].cmd, a, m);
      if a.Passed? then AfterAll(env, cs[1..], frames, a.store, words, a.flag, m') else m'
  }

  /** A directive. The end of a block follows its pointer if the module hears of it. */
  function AfterStep(env: Env, frames: seq<Frame>, st: Store, ev: Event, m: Room): Room
    requires |st.records| == |env.mods| && |m.homes| == |frames|
  {
    if ev.taken == Close then
      if frames == [] then m
      else
        var asked := if Hears(env, frames[0].mod, frames[0].cmd) then Touch(m, 0) else m;
        if Finish(env, frames[0], View(frames, ev.words), st).Took? then Leave(asked) else asked
    else if ev.words == [] then m
    else
      AfterAll(env, Candidates(env.mods, 0, 0, ev.words[0], ev.taken), frames, st, ev.words, env.flag(st.trace), m)
  }

  function AfterRun(env: Env, s: State, evs: seq<Event>, m: Room): (r: Room)
    requires Fitting(env, s) && (s.Running? ==> |m.homes| == |s.frames|)
    ensures var s' := RunAll(env, s, evs); s'.Running? ==> |r.homes| == |s'.frames|
    decreases |evs|
  {
    if evs == [] || !s.Running? then m
    else
      AfterStepFits(env, s.frames, s.store, evs[0], m);
      AfterRun(env, Step(env, s.frames, s.store, evs[0]), evs[1..], AfterStep(env, s.frames, s.store, evs[0], m))
  }

  // ---- One pointer for each open frame

  lemma AfterFits(env: Env, c: Candidate, frames: seq<Frame>, st: Store, words: seq<string>, flag: bool, m: Room)
    requires |st.records| == |env.mods| && c.mod < |env.mods| && |m.homes| == |frames|
    ensures var a := Try(env, c.mod, c.cmd, frames, st, words, flag);
      var m' := After(c.cmd, a, m);
      (a.Took? ==> |m'.homes| == |frames| + if a.pushed.Some? then 1 else 0) &&
      (a.Passed? ==> |m'.homes| == |frames| && |a.store.records| == |env.mods|)
  {
    hide RolledBack;
  }

  lemma {:induction false} AfterAllFits(env: Env, cs: seq<Candidate>, frames: seq<Frame>, st: Store,
                                        words: seq<string>, flag: bool, m: Room)
    requires |st.records| == |env.mods| && (forall c <- cs :: c.mod < |env.mods|) && |m.homes| == |frames|
    ensures var r := TryAll(env, cs, frames, st, words, flag);
      r.Took? ==>
        |AfterAll(env, cs, frames, st, words, flag, m).homes| == |frames| + if r.pushed.Some? then 1 else 0
    decreases |cs|
  {
    hide Try, After;
    if cs != [] {
      AfterFits(env, cs[0], frames, st, words, flag, m);
      var a := Try(env, cs[0].mod, cs[0].cmd, frames, st, words, flag);
      if a.Passed? {
        AfterAllFits(env, cs[1..], frames, a.store, words, a.flag, After(cs[0].cmd, a, m));
      }
    }
  }

  lemma AfterStepFits(env: Env, frames: seq<Frame>, st: Store, ev: Event, m: Room)
    requires |st.records| == |env.mods| && |m.homes| == |frames|
    ensures var s := Step(env, frames, st, ev);
      s.Running? ==> |AfterStep(env, frames, st, ev, m).homes| == |s.frames|
  {
    hide TryAll, AfterAll, Candidates, Finish;
    if ev.taken != Close && ev.words != [] {
      AfterAllFits(env, Candidates(env.mods, 0, 0, ev.words[0], ev.taken), frames, st, ev.words, env.flag(st.trace), m);
    }
  }

  // ---- When released memory is read

  /** The array is no smaller than any before it, and holds the slots that are taken. */
  ghost predicate Sane(m: Room) {
    0 < m.capacity && m.taken <= m.capacity && forall k :: 0 <= k < |m.homes| ==> m.homes[k] <= m.capacity
  }

  /**
   A command inside a block whose pointer is not live any more, or a sub-block for which the
   array has to grow.
   */
  predicate Dangles(cmd: Cmd, m: Room) {
    cmd.child && m.homes != [] && !(Live(m, 0) && (cmd.block ==> m.taken < m.capacity))
  }

  /** Exactly such a candidate reads released memory. */
  lemma {:induction false} StaleExactly(cmd: Cmd, a: Attempt, m: Room)
    requires Sane(m)
    ensures var r := After(cmd, a, m);
      Sane(r) && (r.stale <==> m.stale || Dangles(cmd, m))
  {
    var e := Enter(m);
    assert forall k :: 0 <= k < |m.homes| ==> e.homes[k + 1] == m.homes[k];
    assert m.homes != [] ==> e.homes[1] == m.homes[0];
  }

  /** The array when the n-th candidate is asked. */
  ghost function TurnMemory(env: Env, cs: seq<Candidate>, frames: seq<Frame>, st: Store,
                            words: seq<string>, flag: bool, m: Room, n: nat): Room
    requires |st.records| == |env.mods| && OfTable(env, cs)
    decreases n
  {
    if n == 0 || cs == [] then m
    else
      var a := Try(env, cs[0].mod, cs[0].cmd, frames, st, words, flag);
      if a.Passed? then
        PassedFits(env, cs[0], frames, st, words, flag);
        TurnMemory(env, cs[1..], frames, a.store, words, a.flag, After(cs[0].cmd, a, m), n - 1)
      else m
  }

  lemma PassedFits(env: Env, c: Candidate, frames: seq<Frame>, st: Store, words: seq<string>, flag: bool)
    requires |st.records| == |env.mods| && c.mod < |env.mods|
    ensures var a := Try(env, c.mod, c.cmd, frames, st, words, flag);
      a.Passed? ==> |a.store.records| == |env.mods|
  {
    var ctx := TryTakes(env, c, frames, st, words, flag);
  }

  /** The n-th candidate's turn comes, and it reads released memory. */
  ghost predicate DanglesTurn(env: Env, cs: seq<Candidate>, frames: seq<Frame>, st: Store,
                              words: seq<string>, flag: bool, m: Room, n: nat)
    requires |st.records| == |env.mods| && OfTable(env, cs)
  {
    Turn(env, cs, frames, st, words, flag, n).Some? &&
    Dangles(cs[n].cmd, TurnMemory(env, cs, frames, st, words, flag, m, n))
  }

  lemma DanglesLater(env: Env, cs: seq<Candidate>, frames: seq<Frame>, st: Store,
                     words: seq<string>, flag: bool, m: Room, n: nat)
    requires |st.records| == |env.mods| && OfTable(env, cs) && cs != [] && 0 < n
    ensures var a := Try(env, cs[0].mod, cs[0].cmd, frames, st, words, flag);
      (a.Passed? ==> |a.store.records| == |env.mods|) &&
      (DanglesTurn(env, cs, frames, st, words, flag, m, n) <==>
       a.Passed? &&
       DanglesTurn(env, cs[1..], frames, a.store, words, a.flag, After(cs[0].cmd, a, m), n - 1))
  {
    hide Try, After, Turn, Dangles;
    PassedFits(env, cs[0], frames, st, words, flag);
    TurnLater(env, cs, frames, st, words, flag, n);
  }

  lemma {:induction false} StaleAll(env: Env, cs: seq<Candidate>, frames: seq<Frame>, st: Store,
                                    words: seq<string>, flag: bool, m: Room)
    requires |st.records| == |env.mods| && OfTable(env, cs) && Sane(m)
    ensures var r := AfterAll(env, cs, frames, st, words, flag, m);
      Sane(r) && (r.stale <==> m.stale || exists n :: DanglesTurn(env, cs, frames, st, words, flag, m, n))
    decreases |cs|
  {
    hide Try, After, Turn, Dangles, Sane;
    if cs != [] {
      var a := Try(env, cs[0].mod, cs[0].cmd, frames, st, words, flag);
      var m' := After(cs[0].cmd, a, m);
      PassedFits(env, cs[0], frames, st, words, flag);
      StaleExactly(cs[0].cmd, a, m);
      TurnFirst(env, cs, frames, st, words, flag);
      assert DanglesTurn(env, cs, frames, st, words, flag, m, 0) <==> Dangles(cs[0].cmd, m);
      if a.Passed? {
        StaleAll(env, cs[1..], frames, a.store, words, a.flag, m');
        if n: nat :| DanglesTurn(env, cs[1..], frames, a.store, words, a.flag, m', n) {
          DanglesLater(env, cs, frames, st, words, flag, m, n + 1);
        }
      }
      forall n: nat | 0 < n
        ensures DanglesTurn(env, cs, frames, st, words, flag, m, n) <==>
                a.Passed? && DanglesTurn(env, cs[1..], frames, a.store, words, a.flag, m', n - 1)
      {
        DanglesLater(env, cs, frames, st, words, flag, m, n);
      }
    }
  }

  /** A directive whose candidates come to such a one, or the end of a block whose pointer is not live. */
  ghost predicate DanglesStep(env: Env, frames: seq<Frame>, st: Store, ev: Event, m: Room)
    requires |st.records| == |env.mods| && |m.homes| == |frames|
  {
    if ev.taken == Close then frames != [] && Hears(env, frames[0].mod, frames[0].cmd) && !Live(m, 0)
    else
      ev.words != [] &&
      var cs := Candidates(env.mods, 0, 0, ev.words[0], ev.taken);
      exists n :: DanglesTurn(env, cs, frames, st, ev.words, env.flag(st.trace), m, n)
  }

  lemma {:induction false} StaleStep(env: Env, frames: seq<Frame>, st: Store, ev: Event, m: Room)
    requires |st.records| == |env.mods| && |m.homes| == |frames| && Sane(m)
    ensures var r := AfterStep(env, frames, st, ev, m);
      Sane(r) && (r.stale <==> m.stale || DanglesStep(env, frames, st, ev, m))
  {
    hide AfterAll, Candidates, Finish, DanglesTurn;
    if ev.taken != Close && ev.words != [] {
      var cs := Candidates(env.mods, 0, 0, ev.words[0], ev.taken);
      StaleAll(env, cs, frames, st, ev.words, env.flag(st.trace), m);
    }
  }

  /** The array when the k-th directive is handled. */
  ghost function ReachMemory(env: Env, frames: seq<Frame>, st: Store, evs: seq<Event>, m: Room, k: nat): (r: Room)
    requires |st.records| == |env.mods| && |m.homes| == |frames|
    ensures var s := Reach(env, frames, st, evs, k);
      s.Running? ==> |r.homes| == |s.frames|
  {
    if k < |evs| then AfterRun(env, Running(frames, st), evs[..k], m) else m
  }

  /** The run comes to its k-th directive, and that one reads released memory. */
  ghost predicate DanglesAt(env: Env, frames: seq<Frame>, st: Store, evs: seq<Event>, m: Room, k: nat)
    requires |st.records| == |env.mods| && |m.homes| == |frames|
  {
    var s := Reach(env, frames, st, evs, k);
    s.Running? && DanglesStep(env, s.frames, s.store, evs[k], ReachMemory(env, frames, st, evs, m, k))
  }

  lemma DanglesAtLater(env: Env, frames: seq<Frame>, st: Store, evs: seq<Event>, m: Room, k: nat)
    requires |st.records| == |env.mods| && |m.homes| == |frames| && evs != [] && 0 < k
    ensures var s, m' := Step(env, frames, st, evs[0]), AfterStep(env, frames, st, evs[0], m);
      (s.Running? ==> |m'.homes| == |s.frames|) &&
      (DanglesAt(env, frames, st, evs, m, k) <==>
       s.Running? && DanglesAt(env, s.frames, s.store, evs[1..], m', k - 1))
  {
    hide Step, AfterStep, DanglesStep, Reach;
    AfterStepFits(env, frames, st, evs[0], m);
    ReachLater(env, frames, st, evs, k);
    if k < |evs| {
      assert evs[..k][1..] == evs[1..][..k - 1] && evs[..k][0] == evs[0] && evs[1..][k - 1] == evs[k];
    }
  }

  /** A run reads released memory exactly when it comes to such a directive or end of a block. */
  lemma {:induction false} StaleRun(env: Env, frames: seq<Frame>, st: Store, evs: seq<Event>, m: Room)
    requires |st.records| == |env.mods| && |m.homes| == |frames| && Sane(m)
    ensures AfterRun(env, Running(frames, st), evs, m).stale <==>
            m.stale || exists k :: DanglesAt(env, frames, st, evs, m, k)
    decreases |evs|
  {
    hide Step, AfterStep, DanglesStep, Reach, Sane;
    if evs != [] {
      var s, m' := Step(env, frames, st, evs[0]), AfterStep(env, frames, st, evs[0], m);
      AfterStepFits(env, frames, st, evs[0], m);
      StaleStep(env, frames, st, evs[0], m);
      ReachFirst(env, frames, st, evs);
      assert evs[..0] == [];
      assert DanglesAt(env, frames, st, evs, m, 0) <==> DanglesStep(env, frames, st, evs[0], m);
      if s.Running? {
        StaleRun(env, s.frames, s.store, evs[1..], m');
        if k: nat :| DanglesAt(env, s.frames, s.store, evs[1..], m', k) {
          DanglesAtLater(env, frames, st, evs, m, k + 1);
        }
      }
      forall k: nat | 0 < k
        ensures DanglesAt(env, frames, st, evs, m, k) <==>
                s.Running? && DanglesAt(env, s.frames, s.store, evs[1..], m', k - 1)
      {
        DanglesAtLater(env, frames, st, evs, m, k);
      }
    }
  }

  /** The slots that these directives have taken: one for each but those of parameters. */
  function SlotsOf(accepted: seq<Acceptance>): nat {
    if accepted == [] then 0
    else
      var a := accepted[|accepted| - 1];
      SlotsOf(accepted[..|accepted| - 1]) + if a.cmd.child && !a.cmd.block then 0 else 1
  }

  lemma SlotsOfMore(accepted: seq<Acceptance>, a: Acceptance)
    ensures SlotsOf(accepted + [a]) == SlotsOf(accepted) + if a.cmd.child && !a.cmd.block then 0 else 1
  {
    assert (accepted + [a])[..|accepted|] == accepted;
  }

  lemma {:induction false} SlotsOfPrefix(a: seq<Acceptance>, b: seq<Acceptance>)
    requires a <= b
    ensures SlotsOf(a) <= SlotsOf(b)
    decreases |b|
  {
    if |a| < |b| {
      assert a <= b[..|b| - 1];
      SlotsOfPrefix(a, b[..|b| - 1]);
    } else {
      assert a == b;
    }
  }

  lemma TryGrows(env: Env, c: Candidate, frames: seq<Frame>, st: Store, words: seq<string>, flag: bool)
    requires |st.records| == |env.mods| && c.mod < |env.mods|
    ensures var a := Try(env, c.mod, c.cmd, frames, st, words, flag);
      (a != Undefined ==> st.accepted <= a.store.accepted) && (a.Passed? ==> |a.store.records| == |env.mods|)
  {
    hide RolledBack, WithCtx, Finish;
  }

  lemma {:induction false} TryAllGrows(env: Env, cs: seq<Candidate>, frames: seq<Frame>, st: Store,
                                       words: seq<string>, flag: bool)
    requires |st.records| == |env.mods| && forall c <- cs :: c.mod < |env.mods|
    ensures var a := TryAll(env, cs, frames, st, words, flag);
      a != Undefined ==> st.accepted <= a.store.accepted
    decreases |cs|
  {
    hide Try;
    if cs != [] {
      TryGrows(env, cs[0], frames, st, words, flag);
      var a := Try(env, cs[0].mod, cs[0].cmd, frames, st, words, flag);
      if a.Passed? {
        TryAllGrows(env, cs[1..], frames, a.store, words, a.flag);
      }
    }
  }

  lemma StepGrows(env: Env, frames: seq<Frame>, st: Store, ev: Event)
    requires |st.records| == |env.mods|
    ensures var s := Step(env, frames, st, ev);
      !s.Lost? ==> st.accepted <= s.store.accepted
  {
    hide TryAll, Candidates, Finish;
    if ev.taken != Close && ev.words != [] {
      var cs := Candidates(env.mods, 0, 0, ev.words[0], ev.taken);
      TryAllGrows(env, cs, frames, st, ev.words, env.flag(st.trace));
    }
  }

  /** No run forgets a directive it accepted. */
  lemma {:induction false} AcceptedGrows(env: Env, frames: seq<Frame>, st: Store, evs: seq<Event>)
    requires |st.records| == |env.mods|
    ensures var s := RunAll(env, Running(frames, st), evs);
      !s.Lost? ==> st.accepted <= s.store.accepted
    decreases |evs|
  {
    hide Step;
    if evs != [] {
      StepGrows(env, frames, st, evs[0]);
      var s := Step(env, frames, st, evs[0]);
      if s.Running? {
        AcceptedGrows(env, s.frames, s.store, evs[1..]);
      }
    }
  }

  /** All pointers are live and there is room; the slots taken are those of accepted directives. */
  ghost predicate Roomy(frames: seq<Frame>, st: Store, m: Room, capacity: nat) {
    |m.homes| == |frames| && m.taken == SlotsOf(st.accepted) && m.capacity == capacity && AllLive(m) && !m.stale
  }

  lemma RoomyAfter(cmd: Cmd, a: Attempt, m: Room)
    requires AllLive(m) && !m.stale && m.taken < m.capacity
    ensures var r := After(cmd, a, m);
      AllLive(r) && !r.stale && r.capacity == m.capacity &&
      r.taken == m.taken + if (cmd.child && !cmd.block) || a.Passed? then 0 else 1
  {
    var e := Enter(m);
    forall k | 0 <= k < |m.homes|
      ensures m.homes[k] <= m.capacity
    {
      assert Live(m, k);
    }
    EnterLive(m);
    assert m.homes != [] ==> Live(e, 1);
    var r := After(cmd, a, m);
    if r.homes == e.homes {
      SameLive(e, r);
    } else {
      assert e.homes[1..] == m.homes;
      SameLive(m, r);
    }
  }

  lemma RoomyTry(env: Env, c: Candidate, frames: seq<Frame>, st: Store,
                 words: seq<string>, flag: bool, m: Room, capacity: nat)
    requires |st.records| == |env.mods| && c.mod < |env.mods|
    requires Roomy(frames, st, m, capacity) && m.taken < capacity
    ensures var a := Try(env, c.mod, c.cmd, frames, st, words, flag);
      var m' := After(c.cmd, a, m);
      !m'.stale && m'.capacity == capacity &&
      (a.Passed? ==> Roomy(frames, a.store, m', capacity) && a.store.accepted == st.accepted) &&
      (a.Took? ==> Roomy((if a.pushed.Some? then [a.pushed.value] else []) + frames, a.store, m', capacity))
  {
    hide Try, SlotsOf, After, AllLive;
    var a := Try(env, c.mod, c.cmd, frames, st, words, flag);
    var ctx := TryTakes(env, c, frames, st, words, flag);
    AfterFits(env, c, frames, st, words, flag, m);
    RoomyAfter(c.cmd, a, m);
    if a.Took? {
      SlotsOfMore(st.accepted, Acceptance(c.mod, c.cmd, ctx, words));
    }
  }

  lemma {:induction false} RoomyAll(env: Env, cs: seq<Candidate>, frames: seq<Frame>, st: Store,
                                    words: seq<string>, flag: bool, m: Room, capacity: nat)
    requires |st.records| == |env.mods| && forall c <- cs :: c.mod < |env.mods|
    requires Roomy(frames, st, m, capacity) && m.taken < capacity
    ensures var a := TryAll(env, cs, frames, st, words, flag);
      var m' := AfterAll(env, cs, frames, st, words, flag, m);
      !m'.stale &&
      (a.Took? ==> Roomy((if a.pushed.Some? then [a.pushed.value] else []) + frames, a.store, m', capacity))
    decreases |cs|
  {
    hide Try, After, Roomy;
    assert !m.stale && |m.homes| == |frames| by { RoomyLive(frames, st, m, capacity); }
    if cs != [] {
      RoomyTry(env, cs[0], frames, st, words, flag, m, capacity);
      var a := Try(env, cs[0].mod, cs[0].cmd, frames, st, words, flag);
      if a.Passed? {
        var m' := After(cs[0].cmd, a, m);
        AfterFits(env, cs[0], frames, st, words, flag, m);
        assert m'.taken < capacity by { RoomyTaken(frames, st, m, a.store, m', capacity); }
        RoomyAll(env, cs[1..], frames, a.store, words, a.flag, m', capacity);
      }
    }
  }

  lemma RoomyLive(frames: seq<Frame>, st: Store, m: Room, capacity: nat)
    requires Roomy(frames, st, m, capacity)
    ensures !m.stale && |m.homes| == |frames|
  {
  }

  lemma RoomyTaken(frames: seq<Frame>, st: Store, m: Room, st': Store, m': Room, capacity: nat)
    requires Roomy(frames, st, m, capacity) && Roomy(frames, st', m', capacity) && st'.accepted == st.accepted
    ensures m'.taken == m.taken
  {
  }

  lemma RoomyStep(env: Env, frames: seq<Frame>, st: Store, ev: Event, m: Room, capacity: nat)
    requires |st.records| == |env.mods| && Roomy(frames, st, m, capacity) && m.taken < capacity
    ensures var s := Step(env, frames, st, ev);
      var m' := AfterStep(env, frames, st, ev, m);
      !m'.stale && (s.Running? ==> Roomy(s.frames, s.store, m', capacity))
  {
    hide TryAll, AfterAll, Candidates, Finish;
    if ev.taken != Close && ev.words != [] {
      var cs := Candidates(env.mods, 0, 0, ev.words[0], ev.taken);
      RoomyAll(env, cs, frames, st, ev.words, env.flag(st.trace), m, capacity);
    } else if ev.taken == Close && frames != [] {
      assert Live(m, 0);
      assert forall k :: 0 < k < |m.homes| ==> Live(m, k) && m.homes[k] == m.homes[1..][k - 1];
    }
  }

  /**
   A condition on the result alone: a run in which fewer directives took a slot than the
   array has from the start reads no released memory. The array never grows, and every open
   frame's pointer stays live.
   */
  lemma {:induction false} RoomyRun(env: Env, frames: seq<Frame>, st: Store, evs: seq<Event>, m: Room, capacity: nat)
    requires |st.records| == |env.mods| && Roomy(frames, st, m, capacity)
    requires var s := RunAll(env, Running(frames, st), evs); !s.Lost? ==> SlotsOf(s.store.accepted) < capacity
    ensures var s := RunAll(env, Running(frames, st), evs);
      !s.Lost? ==>
        var m' := AfterRun(env, Running(frames, st), evs, m);
        !m'.stale && (s.Running? ==> Roomy(s.frames, s.store, m', capacity))
    decreases |evs|
  {
    hide Step, AfterStep, SlotsOf, AllLive;
    if evs != [] && !RunAll(env, Running(frames, st), evs).Lost? {
      AcceptedGrows(env, frames, st, evs);
      SlotsOfPrefix(st.accepted, RunAll(env, Running(frames, st), evs).store.accepted);
      AfterStepFits(env, frames, st, evs[0], m);
      RoomyStep(env, frames, st, evs[0], m, capacity);
      var s := Step(env, frames, st, evs[0]);
      if s.Running? {
        RoomyRun(env, s.frames, s.store, evs[1..], AfterStep(env, frames, st, evs[0], m), capacity);
      }
    }
  }
}
