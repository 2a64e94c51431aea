/** What holds in every state of every run of the dispatcher, whatever the callbacks reply. */
module Invariants {
  import opened Options
  import opened Lexer
  import opened Modules
  import opened Dispatch

  // ---- Contexts are inherited

  /**
   Inside a sub-block the context is that of the frame around it, and the frame of any
   other block was accepted with the context it holds. The outermost frame is no sub-block.
   */
  ghost predicate Nested(frames: seq<Frame>, accepted: seq<Acceptance>) {
    forall k :: 0 <= k < |frames| ==> Placed(frames, k, accepted)
  }

  ghost predicate Placed(frames: seq<Frame>, k: nat, accepted: seq<Acceptance>)
    requires k < |frames|
  {
    if frames[k].cmd.child then k + 1 < |frames| && frames[k].ctx == frames[k + 1].ctx
    else Owned(frames[k], accepted)
  }

  ghost predicate Owned(frame: Frame, accepted: seq<Acceptance>) {
    exists a :: a in accepted && a.mod == frame.mod && a.cmd == frame.cmd && a.ctx == frame.ctx
  }

  /** The nearest enclosing frame, itself included, that is no sub-block. */
  ghost function Owner(frames: seq<Frame>, accepted: seq<Acceptance>, k: nat): (n: nat)
    requires Nested(frames, accepted) && k < |frames|
    ensures k <= n < |frames| && !frames[n].cmd.child
    ensures forall m :: k <= m < n ==> frames[m].cmd.child
    decreases |frames| - k
  {
    assert Placed(frames, k, accepted);
    if frames[k].cmd.child then Owner(frames, accepted, k + 1) else k
  }

  lemma {:induction false} ContextOfOwner(frames: seq<Frame>, accepted: seq<Acceptance>, k: nat)
    requires Nested(frames, accepted) && k < |frames|
    ensures var o := frames[Owner(frames, accepted, k)];
      frames[k].ctx == o.ctx && Owned(o, accepted)
    decreases |frames| - k
  {
    assert Placed(frames, k, accepted);
    if frames[k].cmd.child {
      ContextOfOwner(frames, accepted, k + 1);
    }
  }

  lemma OwnedLater(frame: Frame, before: seq<Acceptance>, after: seq<Acceptance>)
    requires before <= after && Owned(frame, before)
    ensures Owned(frame, after)
  {
    var a :| a in before && a.mod == frame.mod && a.cmd == frame.cmd && a.ctx == frame.ctx;
    assert a in after;
  }

  lemma NestedLater(frames: seq<Frame>, before: seq<Acceptance>, after: seq<Acceptance>)
    requires before <= after && Nested(frames, before)
    ensures Nested(frames, after)
  {
    hide Owned;
    forall k | 0 <= k < |frames|
      ensures Placed(frames, k, after)
    {
      assert Placed(frames, k, before);
      if !frames[k].cmd.child {
        OwnedLater(frames[k], before, after);
      }
    }
  }

  // ---- What a single candidate does

  /** A directive taken by a command: recorded last, with the context its open frame holds. */
  ghost predicate TakenBy(before: Store, after: Store, pushed: Option<Frame>, frames: seq<Frame>,
                          c: Candidate, ctx: Ctx, words: seq<string>)
  {
    after.accepted == before.accepted + [Acceptance(c.mod, c.cmd, ctx, words)] &&
    (pushed.Some? ==> pushed.value == Frame(c.mod, c.cmd, ctx)) &&
    (c.cmd.child ==> frames != [] && ctx == frames[0].ctx)
  }

  lemma TryTakes(env: Env, c: Candidate, frames: seq<Frame>, st: Store, words: seq<string>, flag: bool)
    returns (ctx: Ctx)
    requires c.mod < |st.records| == |env.mods|
    ensures match Try(env, c.mod, c.cmd, frames, st, words, flag)
      case Took(st', pushed) => TakenBy(st, st', pushed, frames, c, ctx, words)
      case Passed(st', _) => st'.accepted == st.accepted && |st'.records| == |env.mods|
      case _ => true
  {
    hide RolledBack;
    var r := Try(env, c.mod, c.cmd, frames, st, words, flag);
    ctx := if r.Took? then r.store.accepted[|st.accepted|].ctx else 0;
  }

  lemma {:induction false} TryAllTakes(env: Env, cs: seq<Candidate>, frames: seq<Frame>, st: Store,
                                       words: seq<string>, flag: bool)
    returns (c: Candidate, ctx: Ctx)
    requires |st.records| == |env.mods| && cs != [] && forall c <- cs :: c.mod < |env.mods|
    ensures match TryAll(env, cs, frames, st, words, flag)
      case Took(st', pushed) => c in cs && TakenBy(st, st', pushed, frames, c, ctx, words)
      case _ => true
    decreases |cs|
  {
    hide Try;
    c := cs[0];
    ctx := TryTakes(env, c, frames, st, words, flag);
    var a := Try(env, c.mod, c.cmd, frames, st, words, flag);
    if a.Passed? && |cs| > 1 {
      c, ctx := TryAllTakes(env, cs[1..], frames, a.store, words, a.flag);
    }
  }

  /** The command that took a directive, and the context it runs in. */
  lemma SelectTakes(env: Env, frames: seq<Frame>, st: Store, ev: Event) returns (c: Candidate, ctx: Ctx)
    requires |st.records| == |env.mods|
    ensures match Select(env, frames, st, ev)
      case Took(st', pushed) =>
        c.mod < |env.mods| && c.cmd in env.mods[c.mod].cmds && TakenBy(st, st', pushed, frames, c, ctx, ev.words)
      case _ => true
  {
    hide TryAll, TakenBy;
    c, ctx := Candidate(0, 0, Cmd("", 0, false, false)), 0;
    if ev.words != [] {
      var cs := Candidates(env.mods, 0, 0, ev.words[0], ev.taken);
      if cs == [] {
        TryAllNone(env, frames, st, ev.words, env.flag(st.trace));
      } else {
        c, ctx := TryAllTakes(env, cs, frames, st, ev.words, env.flag(st.trace));
      }
    }
  }

  lemma NestedStep(env: Env, frames: seq<Frame>, st: Store, ev: Event)
    requires |st.records| == |env.mods| && Nested(frames, st.accepted)
    ensures match Step(env, frames, st, ev)
      case Running(frames', st') => Nested(frames', st'.accepted)
      case _ => true
  {
    hide Select, Placed;
    if ev.taken == Close {
      if frames != [] {
        NestedPop(frames, st.accepted);
      }
    } else {
      var r := Select(env, frames, st, ev);
      var c, ctx := SelectTakes(env, frames, st, ev);
      if r.Took? {
        NestedLater(frames, st.accepted, r.store.accepted);
        if r.pushed.Some? {
          NestedPush(frames, st.accepted, r.store.accepted, r.pushed.value, ev.words);
        }
      }
    }
  }

  lemma NestedPop(frames: seq<Frame>, accepted: seq<Acceptance>)
    requires Nested(frames, accepted) && frames != []
    ensures Nested(frames[1..], accepted)
  {
    forall k | 0 <= k < |frames| - 1
      ensures Placed(frames[1..], k, accepted)
    {
      assert Placed(frames, k + 1, accepted);
    }
  }

  lemma NestedPush(frames: seq<Frame>, before: seq<Acceptance>, after: seq<Acceptance>, top: Frame, words: seq<string>)
    requires Nested(frames, after)
    requires after == before + [Acceptance(top.mod, top.cmd, top.ctx, words)]
    requires top.cmd.child ==> frames != [] && top.ctx == frames[0].ctx
    ensures Nested([top] + frames, after)
  {
    assert Owned(top, after) by {
      assert after[|before|] in after;
    }
    var all := [top] + frames;
    forall k | 0 <= k < |all|
      ensures Placed(all, k, after)
    {
      if 0 < k {
        assert Placed(frames, k - 1, after);
      }
    }
  }

  /** In every reachable state every frame has the context of its owner. */
  lemma {:induction false} NestedAlways(env: Env, frames: seq<Frame>, st: Store, evs: seq<Event>)
    requires |st.records| == |env.mods| && Nested(frames, st.accepted)
    ensures match RunAll(env, Running(frames, st), evs)
      case Running(frames', st') => Nested(frames', st'.accepted)
      case _ => true
    decreases |evs|
  {
    hide Step, Nested;
    if evs != [] {
      NestedStep(env, frames, st, evs[0]);
      var s := Step(env, frames, st, evs[0]);
      if s.Running? {
        NestedAlways(env, s.frames, s.store, evs[1..]);
      }
    }
  }

  // ---- Every directive is recorded once, in textual order

  function WordsOf(accepted: seq<Acceptance>): (r: seq<seq<string>>)
    ensures |r| == |accepted|
  {
    if accepted == [] then [] else WordsOf(accepted[..|accepted| - 1]) + [accepted[|accepted| - 1].words]
  }

  /** The tokens of the directives among the events; a block's end is none. */
  function Directives(evs: seq<Event>): seq<seq<string>> {
    if evs == [] then []
    else (if evs[0].taken == Close then [] else [evs[0].words]) + Directives(evs[1..])
  }

  lemma RecordedStep(env: Env, frames: seq<Frame>, st: Store, ev: Event)
    requires |st.records| == |env.mods|
    ensures match Step(env, frames, st, ev)
      case Running(_, st') => WordsOf(st'.accepted) == WordsOf(st.accepted) + Directives([ev])
      case _ => true
  {
    hide Select;
    assert [ev][1..] == [];
    if ev.taken != Close {
      var c, ctx := SelectTakes(env, frames, st, ev);
      var r := Select(env, frames, st, ev);
      if r.Took? {
        assert r.store.accepted[..|r.store.accepted| - 1] == st.accepted;
      }
    }
  }

  /** A run that is not stopped has accepted all its directives, each once, in their order. */
  lemma {:induction false} RecordedInOrder(env: Env, frames: seq<Frame>, st: Store, evs: seq<Event>)
    requires |st.records| == |env.mods|
    ensures match RunAll(env, Running(frames, st), evs)
      case Running(_, st') => WordsOf(st'.accepted) == WordsOf(st.accepted) + Directives(evs)
      case _ => true
    decreases |evs|
  {
    hide Step, WordsOf;
    if evs != [] {
      RecordedStep(env, frames, st, evs[0]);
      var s := Step(env, frames, st, evs[0]);
      assert Directives([evs[0]]) + Directives(evs[1..]) == Directives(evs) by { assert [evs[0]][1..] == []; }
      if s.Running? {
        RecordedInOrder(env, s.frames, s.store, evs[1..]);
        assert WordsOf(st.accepted) + Directives([evs[0]]) + Directives(evs[1..])
            == WordsOf(st.accepted) + (Directives([evs[0]]) + Directives(evs[1..]));
      }
    }
  }

  // ---- Completion

  /** Whether the module is to hear of the end of what this command opened. */
  predicate Hears(env: Env, mod: nat, cmd: Cmd) {
    mod < |env.mods| && env.mods[mod].hasCompleted && !cmd.child
  }

  /** The completions among the callbacks, with their contexts. */
  function Completions(trace: seq<Call>): multiset<(nat, Ctx)> {
    if trace == [] then multiset{}
    else
      var c := trace[|trace| - 1];
      Completions(trace[..|trace| - 1]) + if c.Completed? then multiset{(c.mod, c.ctx)} else multiset{}
  }

  /** The completions that the accepted directives call for. */
  function Owed(env: Env, accepted: seq<Acceptance>): multiset<(nat, Ctx)> {
    if accepted == [] then multiset{}
    else
      var a := accepted[|accepted| - 1];
      Owed(env, accepted[..|accepted| - 1]) + OwedBy(env, a)
  }

  /** The completions that the open frames are still to get. */
  function Pending(env: Env, frames: seq<Frame>): multiset<(nat, Ctx)> {
    if frames == [] then multiset{}
    else
      (if Hears(env, frames[0].mod, frames[0].cmd) then multiset{(frames[0].mod, frames[0].ctx)} else multiset{})
      + Pending(env, frames[1..])
  }

  /** Completions done and completions pending make up those owed. */
  ghost predicate Settled(env: Env, frames: seq<Frame>, st: Store) {
    Completions(st.trace) + Pending(env, frames) == Owed(env, st.accepted)
  }

  lemma CompletionsTold(trace: seq<Call>, call: Call)
    ensures Completions(trace + [call]) ==
            Completions(trace) + if call.Completed? then multiset{(call.mod, call.ctx)} else multiset{}
  {
    assert (trace + [call])[..|trace|] == trace;
  }

  lemma OwedMore(env: Env, accepted: seq<Acceptance>, a: Acceptance)
    ensures Owed(env, accepted + [a]) ==
            Owed(env, accepted) + OwedBy(env, a)
  {
    assert (accepted + [a])[..|accepted|] == accepted;
  }

  lemma FinishSettles(env: Env, frame: Frame, view: View, st: Store)
    ensures var r := Finish(env, frame, view, st);
      r.Took? ==> Completions(r.store.trace) ==
                  Completions(st.trace) +
                  if Hears(env, frame.mod, frame.cmd) then multiset{(frame.mod, frame.ctx)} else multiset{}
  {
    CompletionsTold(st.trace, Completed(frame.mod, frame.ctx, view));
  }

  function OwedBy(env: Env, a: Acceptance): multiset<(nat, Ctx)> {
    if Hears(env, a.mod, a.cmd) then multiset{(a.mod, a.ctx)} else multiset{}
  }

  /** What the last acceptance adds to what is owed is done or left pending. */
  ghost predicate Balances(env: Env, before: Store, after: Store, pushed: Option<Frame>) {
    after.accepted != [] &&
    var d := OwedBy(env, after.accepted[|after.accepted| - 1]);
    Owed(env, after.accepted) == Owed(env, before.accepted) + d &&
    if pushed.Some? then Completions(after.trace) == Completions(before.trace) && Pending(env, [pushed.value]) == d
    else Completions(after.trace) == Completions(before.trace) + d
  }

  lemma PendingOne(env: Env, frame: Frame)
    ensures Pending(env, [frame]) ==
            if Hears(env, frame.mod, frame.cmd) then multiset{(frame.mod, frame.ctx)} else multiset{}
  {
    assert [frame][1..] == [];
  }

  lemma OwnBalances(env: Env, i: nat, cmd: Cmd, ctx: Ctx, frames: seq<Frame>, st: Store, words: seq<string>)
    requires i < |st.records| == |env.mods|
    ensures match TryOwnWith(env, i, cmd, ctx, frames, st, words)
      case Took(st', pushed) => Balances(env, st, st', pushed)
      case Passed(st', _) => Completions(st'.trace) == Completions(st.trace)
      case _ => true
  {
    hide Completions, Owed, Pending, Finish;
    var frame := Frame(i, cmd, ctx);
    var view := View([frame] + frames, words);
    var call := Handler(i, cmd, ctx, view);
    CompletionsTold(st.trace, call);
    OwedMore(env, st.accepted, Acceptance(i, cmd, ctx, words));
    PendingOne(env, frame);
    var st2 := Told(st, call).(records := st.records[i := WithCtx(st.records[i], ctx)],
                               accepted := st.accepted + [Acceptance(i, cmd, ctx, words)]);
    FinishSettles(env, frame, view, st2);
  }

  lemma BalancesFrom(env: Env, before: Store, passed: Store, after: Store, pushed: Option<Frame>)
    requires passed.accepted == before.accepted && Completions(passed.trace) == Completions(before.trace)
    requires Balances(env, passed, after, pushed)
    ensures Balances(env, before, after, pushed)
  {
    hide Completions, Owed, OwedBy;
  }

  lemma ChildBalances(env: Env, i: nat, cmd: Cmd, frames: seq<Frame>, st: Store, words: seq<string>, flag: bool)
    requires i < |st.records| == |env.mods| && cmd.child
    ensures match Try(env, i, cmd, frames, st, words, flag)
      case Took(st', pushed) => Balances(env, st, st', pushed)
      case Passed(st', _) => Completions(st'.trace) == Completions(st.trace)
      case _ => true
  {
    hide Completions, Owed, Pending, RolledBack, TryOwn;
    if frames != [] {
      var frame := Frame(i, cmd, frames[0].ctx);
      var view := View(if cmd.block then [frame] + frames else frames, words);
      CompletionsTold(st.trace, Handler(i, cmd, frame.ctx, view));
      OwedMore(env, st.accepted, Acceptance(i, cmd, frame.ctx, words));
      PendingOne(env, frame);
    }
  }

  lemma TryBalances(env: Env, i: nat, cmd: Cmd, frames: seq<Frame>, st: Store, words: seq<string>, flag: bool)
    requires i < |st.records| == |env.mods|
    ensures match Try(env, i, cmd, frames, st, words, flag)
      case Took(st', pushed) => Balances(env, st, st', pushed)
      case Passed(st', _) => Completions(st'.trace) == Completions(st.trace)
      case _ => true
  {
    hide Completions, Balances, TryParam, TrySubBlock, TryOwnWith;
    if cmd.child {
      ChildBalances(env, i, cmd, frames, st, words, flag);
    } else {
      var held := env.held(st.trace);
      var init := Init(i, cmd, View([Frame(i, cmd, held)] + frames, words));
      if !env.mods[i].hasInit {
        OwnBalances(env, i, cmd, held, frames, st, words);
      } else {
        var ctx := env.reply(st.trace, init).ctx;
        CompletionsTold(st.trace, init);
        OwnBalances(env, i, cmd, ctx, frames, Told(st, init), words);
        var r := TryOwnWith(env, i, cmd, ctx, frames, Told(st, init), words);
        if r.Took? {
          BalancesFrom(env, st, Told(st, init), r.store, r.pushed);
        }
      }
    }
  }

  lemma {:induction false} TryAllBalances(env: Env, cs: seq<Candidate>, frames: seq<Frame>, st: Store,
                                          words: seq<string>, flag: bool)
    requires |st.records| == |env.mods| && forall c <- cs :: c.mod < |env.mods|
    ensures match TryAll(env, cs, frames, st, words, flag)
      case Took(st', pushed) => Balances(env, st, st', pushed)
      case _ => true
    decreases |cs|
  {
    hide Try, Completions, Balances;
    if cs != [] {
      var a := Try(env, cs[0].mod, cs[0].cmd, frames, st, words, flag);
      TryBalances(env, cs[0].mod, cs[0].cmd, frames, st, words, flag);
      if a.Passed? {
        var ctx := TryTakes(env, cs[0], frames, st, words, flag);
        TryAllBalances(env, cs[1..], frames, a.store, words, a.flag);
        var r := TryAll(env, cs[1..], frames, a.store, words, a.flag);
        if r.Took? {
          BalancesFrom(env, st, a.store, r.store, r.pushed);
        }
      }
    }
  }

  lemma SettledTaken(env: Env, frames: seq<Frame>, before: Store, after: Store, pushed: Option<Frame>)
    requires Settled(env, frames, before) && Balances(env, before, after, pushed)
    ensures Settled(env, if pushed.Some? then [pushed.value] + frames else frames, after)
  {
    hide Completions, Owed, OwedBy;
    if pushed.Some? {
      PendingOne(env, pushed.value);
      assert ([pushed.value] + frames)[1..] == frames;
    }
  }

  lemma SettledClosed(env: Env, frames: seq<Frame>, st: Store, view: View)
    requires Settled(env, frames, st) && frames != []
    ensures var r := Finish(env, frames[0], view, st);
      r.Took? ==> Settled(env, frames[1..], r.store)
  {
    hide Completions, Owed, Finish;
    FinishSettles(env, frames[0], view, st);
  }

  lemma SettledStep(env: Env, frames: seq<Frame>, st: Store, ev: Event)
    requires |st.records| == |env.mods| && Settled(env, frames, st)
    ensures match Step(env, frames, st, ev)
      case Running(frames', st') => Settled(env, frames', st')
      case _ => true
  {
    hide TryAll, Settled, Finish, Candidates, Balances;
    if ev.taken == Close {
      if frames != [] {
        SettledClosed(env, frames, st, View(frames, ev.words));
      }
    } else if ev.words != [] {
      var cs := Candidates(env.mods, 0, 0, ev.words[0], ev.taken);
      TryAllBalances(env, cs, frames, st, ev.words, env.flag(st.trace));
      var r := TryAll(env, cs, frames, st, ev.words, env.flag(st.trace));
      if r.Took? {
        SettledTaken(env, frames, st, r.store, r.pushed);
      }
    }
  }

  /**
   In every reachable state each accepted directive whose module asks for it is either open
   or has been completed exactly once, with its own context.
   */
  lemma {:induction false} SettledAlways(env: Env, frames: seq<Frame>, st: Store, evs: seq<Event>)
    requires |st.records| == |env.mods| && Settled(env, frames, st)
    ensures match RunAll(env, Running(frames, st), evs)
      case Running(frames', st') => Settled(env, frames', st')
      case _ => true
    decreases |evs|
  {
    hide Step, Settled;
    if evs != [] {
      SettledStep(env, frames, st, evs[0]);
      var s := Step(env, frames, st, evs[0]);
      if s.Running? {
        SettledAlways(env, s.frames, s.store, evs[1..]);
      }
    }
  }
}
