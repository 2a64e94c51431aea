/**
 What the callbacks' replies decide (src/core/fs_conf.c:349-458). A candidate's callbacks are
 listed here without regard to how the dispatcher gets to them; it asks them in turn until
 one does not reply OK, and that reply is the candidate's outcome.
 */
module Outcomes {
  import opened Options
  import opened Lexer
  import opened Modules
  import opened Dispatch
  import opened Invariants
  import opened Records
  import Walk

  /** The context a candidate's handler gets: the enclosing block's, or its own. */
  function ContextFor(env: Env, i: nat, cmd: Cmd, frames: seq<Frame>, st: Store, words: seq<string>): Ctx
    requires i < |env.mods| && (cmd.child ==> frames != [])
  {
    var held := env.held(st.trace);
    if cmd.child then frames[0].ctx
    else if env.mods[i].hasInit then
      env.reply(st.trace, Init(i, cmd, View([Frame(i, cmd, held)] + frames, words))).ctx
    else held
  }

  /** The callbacks of a candidate: `init_mod`, the handler, and the completion of a single command. */
  function Script(env: Env, i: nat, cmd: Cmd, frames: seq<Frame>, st: Store, words: seq<string>): seq<Call>
    requires i < |env.mods| && (cmd.child ==> frames != [])
  {
    var ctx := ContextFor(env, i, cmd, frames, st, words);
    var view := View(if cmd.child && !cmd.block then frames else [Frame(i, cmd, ctx)] + frames, words);
    var made := View([Frame(i, cmd, env.held(st.trace))] + frames, words);
    (if !cmd.child && env.mods[i].hasInit then [Init(i, cmd, made)] else []) +
    [Call.Handler(i, cmd, ctx, view)] +
    (if !cmd.child && !cmd.block && env.mods[i].hasCompleted then [Completed(i, ctx, view)] else [])
  }

  /** A reply as the dispatcher takes it: a completion has nothing to pass. */
  function Verdict(env: Env, trace: seq<Call>, call: Call): Modules.Verdict {
    var v := env.reply(trace, call).verdict;
    if call.Completed? && v == PASS then ERROR else v
  }

  /** The callbacks that are made: all up to the first that does not reply OK. */
  function Made(env: Env, trace: seq<Call>, script: seq<Call>): seq<Call>
    decreases |script|
  {
    if script == [] then []
    else
      [script[0]] + if Verdict(env, trace, script[0]) == OK then Made(env, trace + [script[0]], script[1..]) else []
  }

  /** The last reply. */
  function Answer(env: Env, trace: seq<Call>, script: seq<Call>): Modules.Verdict
    decreases |script|
  {
    if script == [] then OK
    else
      var v := Verdict(env, trace, script[0]);
      if v == OK then Answer(env, trace + [script[0]], script[1..]) else v
  }

  lemma OwnWithExactly(env: Env, i: nat, cmd: Cmd, ctx: Ctx, frames: seq<Frame>, st: Store, words: seq<string>)
    requires i < |env.mods| == |st.records|
    ensures var view := View([Frame(i, cmd, ctx)] + frames, words);
      var end := if !cmd.block && env.mods[i].hasCompleted && !cmd.child then [Completed(i, ctx, view)] else [];
      var script := [Call.Handler(i, cmd, ctx, view)] + end;
      var a := TryOwnWith(env, i, cmd, ctx, frames, st, words);
      (a.Took? <==> Answer(env, st.trace, script) == OK) &&
      (a.Failed? <==> Answer(env, st.trace, script) == ERROR) &&
      a != Undefined && a.store.trace == st.trace + Made(env, st.trace, script)
  {
    hide WithCtx, Made, Answer;
    var view := View([Frame(i, cmd, ctx)] + frames, words);
    var handler, done := Call.Handler(i, cmd, ctx, view), Completed(i, ctx, view);
    if !cmd.block && env.mods[i].hasCompleted && !cmd.child {
      Unroll(env, st.trace, handler, [done]);
      Unroll(env, st.trace + [handler], done, []);
      assert [done] + [] == [done];
      assert st.trace + [handler] + [done] == st.trace + ([handler] + [done]);
    } else {
      var none: seq<Call> := [];
      Unroll(env, st.trace, handler, none);
      var end: seq<Call> := if !cmd.block && env.mods[i].hasCompleted && !cmd.child then [done] else [];
      assert [handler] + end == [handler] + none == [handler];
    }
  }

  /**
   A candidate takes the directive exactly when all its callbacks reply OK, is refused
   exactly when one replies an error, and else is passed over. A command inside a block is
   refused without being asked when nothing is open.
   */
  lemma {:induction false} TryExactly(env: Env, i: nat, cmd: Cmd, frames: seq<Frame>, st: Store,
                                      words: seq<string>, flag: bool)
    requires i < |env.mods| == |st.records|
    ensures var a := Try(env, i, cmd, frames, st, words, flag);
      if cmd.child && frames == [] then a == if cmd.block then Undefined else Failed(st)
      else
        var script := Script(env, i, cmd, frames, st, words);
        (a.Took? <==> Answer(env, st.trace, script) == OK) &&
        (a.Failed? <==> Answer(env, st.trace, script) == ERROR) &&
        (a != Undefined ==> a.store.trace == st.trace + Made(env, st.trace, script))
  {
    hide RolledBack, WithCtx, Made, Answer, TryOwnWith;
    if cmd.child ==> frames != [] {
      var script := Script(env, i, cmd, frames, st, words);
      if cmd.child {
        var view := View(if cmd.block then [Frame(i, cmd, frames[0].ctx)] + frames else frames, words);
        var handler := Call.Handler(i, cmd, frames[0].ctx, view);
        assert script == [handler];
        Unroll(env, st.trace, handler, []);
      } else {
        var ctx := ContextFor(env, i, cmd, frames, st, words);
        var view := View([Frame(i, cmd, ctx)] + frames, words);
        var end := if !cmd.block && env.mods[i].hasCompleted && !cmd.child then [Completed(i, ctx, view)] else [];
        if env.mods[i].hasInit {
          assert script[1..] == [Call.Handler(i, cmd, ctx, view)] + end;
          assert script == [script[0]] + script[1..];
          Unroll(env, st.trace, script[0], script[1..]);
          OwnWithExactly(env, i, cmd, ctx, frames, Told(st, script[0]), words);
          assert st.trace + [script[0]] + Made(env, st.trace + [script[0]], script[1..])
              == st.trace + ([script[0]] + Made(env, st.trace + [script[0]], script[1..]));
        } else {
          assert script == [Call.Handler(i, cmd, ctx, view)] + end;
          OwnWithExactly(env, i, cmd, ctx, frames, st, words);
        }
      }
    }
  }

  lemma Unroll(env: Env, trace: seq<Call>, call: Call, rest: seq<Call>)
    ensures var v := Verdict(env, trace, call);
      Made(env, trace, [call] + rest) == [call] + (if v == OK then Made(env, trace + [call], rest) else []) &&
      Answer(env, trace, [call] + rest) == if v == OK then Answer(env, trace + [call], rest) else v
    ensures rest == [] ==> Made(env, trace, [call]) == [call] && Answer(env, trace, [call]) == Verdict(env, trace, call)
  {
    assert ([call] + rest)[1..] == rest && [call][1..] == [];
  }

  /** The directive it takes is recorded with the handler's context, and a block's frame holds that. */
  lemma {:induction false} TookExactly(env: Env, i: nat, cmd: Cmd, frames: seq<Frame>, st: Store,
                                       words: seq<string>, flag: bool)
    requires i < |env.mods| == |st.records| && (cmd.child ==> frames != [])
    ensures var a, ctx := Try(env, i, cmd, frames, st, words, flag), ContextFor(env, i, cmd, frames, st, words);
      a.Took? ==>
        a.store.accepted == st.accepted + [Acceptance(i, cmd, ctx, words)] &&
        a.pushed == if cmd.block then Some(Frame(i, cmd, ctx)) else None
  {
    hide RolledBack, WithCtx;
  }

  /** On an error the module keeps the context it was given, if the handler was asked; it is not taken back. */
  lemma {:induction false} FailedLeaves(env: Env, i: nat, cmd: Cmd, frames: seq<Frame>, st: Store,
                                        words: seq<string>, flag: bool)
    requires i < |env.mods| == |st.records| && (cmd.child ==> frames != [])
    ensures var a, ctx := Try(env, i, cmd, frames, st, words, flag), ContextFor(env, i, cmd, frames, st, words);
      a.Failed? ==>
        |st.trace| < |a.store.trace| &&
        var last := a.store.trace[|a.store.trace| - 1];
        if cmd.child || last.Init? then a.store.records == st.records && a.store.accepted == st.accepted
        else
          a.store.records == st.records[i := WithCtx(st.records[i], ctx)] &&
          a.store.accepted == st.accepted + if last.Completed? then [Acceptance(i, cmd, ctx, words)] else []
  {
    hide RolledBack, WithCtx;
  }

  /** What `first` of src/core/fs_conf.c:342 holds for the next candidate: only a handler of an own command sets it. */
  lemma {:induction false} PassedExactly(env: Env, i: nat, cmd: Cmd, frames: seq<Frame>, st: Store,
                                         words: seq<string>, flag: bool)
    requires i < |env.mods| == |st.records| && (cmd.child ==> frames != [])
    ensures var a, r := Try(env, i, cmd, frames, st, words, flag), st.records[i];
      var asked := Made(env, st.trace, Script(env, i, cmd, frames, st, words));
      a.Passed? ==>
        asked != [] &&
        a.flag == (if !cmd.child && asked[|asked| - 1].Handler? then !r.used else flag) &&
        a.store.accepted == st.accepted &&
        (cmd.child && cmd.block && r.ctxs.Some? && flag ==> !a.store.records[i].used) &&
        (cmd.child && cmd.block && r.ctxs.Some? && !flag ==>
           a.store.records[i].used && Stored(a.store.records[i]) == Stored(r)[..|Stored(r)| - 1])
  {
    hide WithCtx, Finish;
    TryExactly(env, i, cmd, frames, st, words, flag);
    var script := Script(env, i, cmd, frames, st, words);
    var a := Try(env, i, cmd, frames, st, words, flag);
    if a.Passed? {
      assert a.store.trace == st.trace + Made(env, st.trace, script);
    }
  }

  // ---- Runs

  /** The directives whose handlers replied OK, in the order of the calls. */
  function Agreed(env: Env, trace: seq<Call>): seq<Acceptance> {
    if trace == [] then []
    else
      var before, c := trace[..|trace| - 1], trace[|trace| - 1];
      Agreed(env, before) +
      if c.Handler? && env.reply(before, c).verdict == OK then [Acceptance(c.mod, c.cmd, c.ctx, c.view.words)] else []
  }

  /** No callback replied an error, and every completion replied OK. */
  ghost predicate NoError(env: Env, trace: seq<Call>) {
    forall k :: 0 <= k < |trace| ==> ReplyAt(env, trace, k) != ERROR
  }

  ghost function ReplyAt(env: Env, trace: seq<Call>, k: nat): Modules.Verdict
    requires k < |trace|
  {
    Verdict(env, trace[..k], trace[k])
  }

  lemma AgreedMore(env: Env, trace: seq<Call>, c: Call)
    ensures Agreed(env, trace + [c]) ==
            Agreed(env, trace) +
            if c.Handler? && env.reply(trace, c).verdict == OK then [Acceptance(c.mod, c.cmd, c.ctx, c.view.words)]
            else []
  {
    assert (trace + [c])[..|trace|] == trace;
  }

  lemma NoErrorMore(env: Env, trace: seq<Call>, c: Call)
    requires NoError(env, trace)
    ensures NoError(env, trace + [c]) <==> Verdict(env, trace, c) != ERROR
  {
    var all := trace + [c];
    assert all[..|trace|] == trace;
    forall k | 0 <= k < |trace|
      ensures ReplyAt(env, all, k) == ReplyAt(env, trace, k)
    {
      assert all[..k] == trace[..k];
    }
    assert ReplyAt(env, all, |trace|) == Verdict(env, trace, c);
  }

  /** What a script adds to a history without errors. */
  lemma {:induction false} MadeNoError(env: Env, trace: seq<Call>, script: seq<Call>)
    requires NoError(env, trace)
    ensures NoError(env, trace + Made(env, trace, script)) <==> Answer(env, trace, script) != ERROR
    decreases |script|
  {
    hide NoError, Verdict;
    if script == [] {
      assert trace + [] == trace;
    } else {
      NoErrorMore(env, trace, script[0]);
      if Verdict(env, trace, script[0]) == OK {
        var next := trace + [script[0]];
        MadeNoError(env, next, script[1..]);
        assert next + Made(env, next, script[1..]) == trace + Made(env, trace, script);
      } else {
        assert trace + Made(env, trace, script) == trace + [script[0]];
      }
    }
  }

  /** The accepted directives are those whose handlers agreed. */
  ghost predicate Honest(env: Env, st: Store) {
    st.accepted == Agreed(env, st.trace)
  }

  lemma HonestFinish(env: Env, frame: Frame, view: View, st: Store)
    requires Honest(env, st)
    ensures Honest(env, Finish(env, frame, view, st).store)
  {
    hide Agreed;
    AgreedMore(env, st.trace, Completed(frame.mod, frame.ctx, view));
  }

  lemma HonestOwnWith(env: Env, i: nat, cmd: Cmd, ctx: Ctx, frames: seq<Frame>, st: Store, words: seq<string>)
    requires i < |env.mods| == |st.records| && Honest(env, st)
    ensures Honest(env, TryOwnWith(env, i, cmd, ctx, frames, st, words).store)
  {
    hide Agreed, WithCtx, Finish;
    var frame := Frame(i, cmd, ctx);
    var view := View([frame] + frames, words);
    AgreedMore(env, st.trace, Call.Handler(i, cmd, ctx, view));
    var st' := Told(st, Call.Handler(i, cmd, ctx, view))
      .(records := st.records[i := WithCtx(st.records[i], ctx)],
        accepted := st.accepted + [Acceptance(i, cmd, ctx, words)]);
    if env.reply(st.trace, Call.Handler(i, cmd, ctx, view)).verdict == OK {
      HonestFinish(env, frame, view, st');
    }
  }

  lemma HonestTry(env: Env, c: Candidate, frames: seq<Frame>, st: Store, words: seq<string>, flag: bool)
    requires c.mod < |env.mods| == |st.records| && Honest(env, st)
    ensures var a := Try(env, c.mod, c.cmd, frames, st, words, flag);
      a != Undefined ==> Honest(env, a.store)
  {
    hide Agreed, RolledBack, TryOwnWith;
    var i, cmd := c.mod, c.cmd;
    if cmd.child && frames != [] {
      var ctx := frames[0].ctx;
      var view := View(if cmd.block then [Frame(i, cmd, ctx)] + frames else frames, words);
      AgreedMore(env, st.trace, Call.Handler(i, cmd, ctx, view));
    } else if !cmd.child {
      var held := env.held(st.trace);
      var call := Init(i, cmd, View([Frame(i, cmd, held)] + frames, words));
      AgreedMore(env, st.trace, call);
      HonestOwnWith(env, i, cmd, held, frames, st, words);
      HonestOwnWith(env, i, cmd, env.reply(st.trace, call).ctx, frames, Told(st, call), words);
    }
  }

  lemma NoErrorTry(env: Env, c: Candidate, frames: seq<Frame>, st: Store, words: seq<string>, flag: bool)
    requires c.mod < |env.mods| == |st.records| && NoError(env, st.trace)
    ensures var a := Try(env, c.mod, c.cmd, frames, st, words, flag);
      (a.Took? || a.Passed? ==> NoError(env, a.store.trace)) && (a.Passed? ==> |a.store.records| == |env.mods|)
  {
    hide Try, NoError, Made, Answer, Script;
    TryExactly(env, c.mod, c.cmd, frames, st, words, flag);
    var ctx := TryTakes(env, c, frames, st, words, flag);
    if c.cmd.child ==> frames != [] {
      MadeNoError(env, st.trace, Script(env, c.mod, c.cmd, frames, st, words));
    }
  }

  lemma {:induction false} ReplyTryAll(env: Env, cs: seq<Candidate>, frames: seq<Frame>, st: Store,
                                       words: seq<string>, flag: bool)
    requires |st.records| == |env.mods| && (forall c <- cs :: c.mod < |env.mods|)
    requires Honest(env, st) && NoError(env, st.trace)
    ensures var a := TryAll(env, cs, frames, st, words, flag);
      (a != Undefined ==> Honest(env, a.store)) && (a.Took? ==> NoError(env, a.store.trace))
    decreases |cs|
  {
    hide Try, Honest, NoError;
    if cs != [] {
      HonestTry(env, cs[0], frames, st, words, flag);
      NoErrorTry(env, cs[0], frames, st, words, flag);
      var a := Try(env, cs[0].mod, cs[0].cmd, frames, st, words, flag);
      if a.Passed? {
        ReplyTryAll(env, cs[1..], frames, a.store, words, a.flag);
      }
    }
  }

  // ---- The end of a block

  /**
   A `}` closes the innermost block if there is one and its module, when it is to hear of it,
   replies OK; else it is an error.
   */
  lemma {:induction false} CloseExactly(env: Env, frames: seq<Frame>, st: Store, words: seq<string>)
    requires |st.records| == |env.mods|
    ensures var s := Step(env, frames, st, Event(Close, words));
      if frames == [] then s == Stopped(st)
      else
        var top := frames[0];
        var call := Completed(top.mod, top.ctx, View(frames, words));
        if !Hears(env, top.mod, top.cmd) then s == Running(frames[1..], st)
        else
          s == if env.reply(st.trace, call).verdict == OK then Running(frames[1..], Told(st, call))
               else Stopped(Told(st, call))
  {
  }

  lemma ReplyStep(env: Env, frames: seq<Frame>, st: Store, ev: Event)
    requires |st.records| == |env.mods| && Honest(env, st) && NoError(env, st.trace)
    ensures var s := Step(env, frames, st, ev);
      (!s.Lost? ==> Honest(env, s.store)) && (s.Running? ==> NoError(env, s.store.trace))
  {
    hide TryAll, Candidates, Finish, Honest, NoError;
    if ev.taken == Close {
      CloseExactly(env, frames, st, ev.words);
      if frames != [] {
        var view := View(frames, ev.words);
        HonestFinish(env, frames[0], view, st);
        NoErrorMore(env, st.trace, Completed(frames[0].mod, frames[0].ctx, view));
      }
    } else if ev.words != [] {
      var cs := Candidates(env.mods, 0, 0, ev.words[0], ev.taken);
      ReplyTryAll(env, cs, frames, st, ev.words, env.flag(st.trace));
    }
  }

  /**
   After every run the accepted directives are exactly those whose handlers replied OK, in
   the order of the calls; and a run that is not stopped has met no error.
   */
  lemma {:induction false} AcceptedByReply(env: Env, frames: seq<Frame>, st: Store, evs: seq<Event>)
    requires |st.records| == |env.mods| && Honest(env, st) && NoError(env, st.trace)
    ensures var s := RunAll(env, Running(frames, st), evs);
      (!s.Lost? ==> Honest(env, s.store)) && (s.Running? ==> NoError(env, s.store.trace))
    decreases |evs|
  {
    hide Step, Honest, NoError;
    if evs != [] {
      ReplyStep(env, frames, st, evs[0]);
      var s := Step(env, frames, st, evs[0]);
      if s.Running? {
        AcceptedByReply(env, s.frames, s.store, evs[1..]);
      }
    }
  }

  // ---- What stops a run

  /** The n-th candidate's turn comes, and it is an error. */
  ghost predicate RefusedTurn(env: Env, cs: seq<Candidate>, frames: seq<Frame>, st: Store,
                              words: seq<string>, flag: bool, n: nat)
    requires |st.records| == |env.mods| && OfTable(env, cs)
  {
    var p := Turn(env, cs, frames, st, words, flag, n);
    p.Some? &&
    if cs[n].cmd.child && frames == [] then !cs[n].cmd.block
    else Answer(env, p.value.store.trace, Script(env, cs[n].mod, cs[n].cmd, frames, p.value.store, words)) == ERROR
  }

  lemma RefusedLater(env: Env, cs: seq<Candidate>, frames: seq<Frame>, st: Store,
                     words: seq<string>, flag: bool, n: nat)
    requires |st.records| == |env.mods| && OfTable(env, cs) && cs != [] && 0 < n
    ensures var a := Try(env, cs[0].mod, cs[0].cmd, frames, st, words, flag);
      (a.Passed? ==> |a.store.records| == |env.mods|) &&
      (RefusedTurn(env, cs, frames, st, words, flag, n) <==>
       a.Passed? && RefusedTurn(env, cs[1..], frames, a.store, words, a.flag, n - 1))
  {
    hide Try, Turn, Answer, Script;
    var ctx := TryTakes(env, cs[0], frames, st, words, flag);
    TurnLater(env, cs, frames, st, words, flag, n);
  }

  lemma {:induction false} FailedExactly(env: Env, cs: seq<Candidate>, frames: seq<Frame>, st: Store,
                                         words: seq<string>, flag: bool)
    requires |st.records| == |env.mods| && OfTable(env, cs)
    ensures TryAll(env, cs, frames, st, words, flag).Failed? <==>
            AllPass(env, cs, frames, st, words, flag).Some? ||
            exists n :: RefusedTurn(env, cs, frames, st, words, flag, n)
    decreases |cs|
  {
    hide Try, Turn, Answer, Script;
    if cs != [] {
      var a := Try(env, cs[0].mod, cs[0].cmd, frames, st, words, flag);
      var ctx := TryTakes(env, cs[0], frames, st, words, flag);
      TryExactly(env, cs[0].mod, cs[0].cmd, frames, st, words, flag);
      TurnFirst(env, cs, frames, st, words, flag);
      assert RefusedTurn(env, cs, frames, st, words, flag, 0) <==> a.Failed?;
      if a.Passed? {
        FailedExactly(env, cs[1..], frames, a.store, words, a.flag);
        if n: nat :| RefusedTurn(env, cs[1..], frames, a.store, words, a.flag, n) {
          RefusedLater(env, cs, frames, st, words, flag, n + 1);
        }
      }
      forall n: nat | 0 < n
        ensures RefusedTurn(env, cs, frames, st, words, flag, n) <==>
                a.Passed? && RefusedTurn(env, cs[1..], frames, a.store, words, a.flag, n - 1)
      {
        RefusedLater(env, cs, frames, st, words, flag, n);
      }
    }
  }

  /**
   A `}` with nothing open, or whose module does not reply OK; or a directive for which all
   candidates pass, or one is an error.
   */
  ghost predicate Refused(env: Env, frames: seq<Frame>, st: Store, ev: Event)
    requires |st.records| == |env.mods|
  {
    if ev.taken == Close then
      frames == [] ||
      var top := frames[0];
      Hears(env, top.mod, top.cmd) &&
      env.reply(st.trace, Completed(top.mod, top.ctx, View(frames, ev.words))).verdict != OK
    else
      ev.words != [] &&
      var cs := Candidates(env.mods, 0, 0, ev.words[0], ev.taken);
      AllPass(env, cs, frames, st, ev.words, env.flag(st.trace)).Some? ||
      exists n :: RefusedTurn(env, cs, frames, st, ev.words, env.flag(st.trace), n)
  }

  lemma {:induction false} RefusedStep(env: Env, frames: seq<Frame>, st: Store, ev: Event)
    requires |st.records| == |env.mods|
    ensures Step(env, frames, st, ev).Stopped? <==> Refused(env, frames, st, ev)
  {
    hide TryAll, AllPass, Candidates, Finish, RefusedTurn;
    if ev.taken == Close {
      CloseExactly(env, frames, st, ev.words);
    } else if ev.words != [] {
      FailedExactly(env, Candidates(env.mods, 0, 0, ev.words[0], ev.taken), frames, st, ev.words, env.flag(st.trace));
    }
  }

  /** The run comes to its k-th directive, and that one is refused. */
  ghost predicate StoppedAt(env: Env, frames: seq<Frame>, st: Store, evs: seq<Event>, k: nat)
    requires |st.records| == |env.mods|
  {
    var s := Reach(env, frames, st, evs, k);
    s.Running? && Refused(env, s.frames, s.store, evs[k])
  }

  lemma {:induction false} StoppedExactly(env: Env, frames: seq<Frame>, st: Store, evs: seq<Event>)
    requires |st.records| == |env.mods|
    ensures RunAll(env, Running(frames, st), evs).Stopped? <==> exists k :: StoppedAt(env, frames, st, evs, k)
    decreases |evs|
  {
    hide Step, Refused, Reach;
    if evs != [] {
      RefusedStep(env, frames, st, evs[0]);
      var s := Step(env, frames, st, evs[0]);
      ReachFirst(env, frames, st, evs);
      assert StoppedAt(env, frames, st, evs, 0) <==> s.Stopped?;
      if s.Running? {
        StoppedExactly(env, s.frames, s.store, evs[1..]);
        if k: nat :| StoppedAt(env, s.frames, s.store, evs[1..], k) {
          ReachLater(env, frames, st, evs, k + 1);
          assert StoppedAt(env, frames, st, evs, k + 1);
        }
      }
      forall k: nat | 0 < k
        ensures StoppedAt(env, frames, st, evs, k) <==>
                s.Running? && StoppedAt(env, s.frames, s.store, evs[1..], k - 1)
      {
        ReachLater(env, frames, st, evs, k);
      }
    }
  }

  // ---- Nesting

  /** Blocks opened less blocks closed. */
  function Depth(evs: seq<Event>): int {
    if evs == [] then 0
    else (if evs[0].taken == Open then 1 else if evs[0].taken == Close then -1 else 0) + Depth(evs[1..])
  }

  lemma StepDepth(env: Env, frames: seq<Frame>, st: Store, ev: Event)
    requires |st.records| == |env.mods| && ev.taken != Done
    ensures var s := Step(env, frames, st, ev);
      s.Running? ==> |s.frames| == |frames| + Depth([ev])
  {
    hide TryAll, Candidates, Finish;
    assert [ev][1..] == [];
    if ev.taken != Close && ev.words != [] {
      var cs := Candidates(env.mods, 0, 0, ev.words[0], ev.taken);
      Walk.TryAllPushes(env, cs, frames, st, ev.words, env.flag(st.trace), ev.taken == Open);
    }
  }

  /** A run that is not stopped closes no block that is not open, and leaves open what it did not close. */
  lemma {:induction false} Balanced(env: Env, frames: seq<Frame>, st: Store, evs: seq<Event>)
    requires |st.records| == |env.mods| && forall ev <- evs :: ev.taken != Done
    ensures var s := RunAll(env, Running(frames, st), evs);
      s.Running? ==>
        |s.frames| == |frames| + Depth(evs) && forall k :: 0 <= k <= |evs| ==> 0 <= |frames| + Depth(evs[..k])
    decreases |evs|
  {
    hide Step;
    if evs != [] {
      StepDepth(env, frames, st, evs[0]);
      assert [evs[0]][1..] == [];
      var s := Step(env, frames, st, evs[0]);
      if s.Running? {
        Balanced(env, s.frames, s.store, evs[1..]);
      }
      forall k | 0 < k <= |evs|
        ensures Depth(evs[..k]) == Depth([evs[0]]) + Depth(evs[1..][..k - 1])
      {
        assert evs[..k][1..] == evs[1..][..k - 1];
      }
    }
  }
}
