/** `fs_conf_handle` (src/core/fs_conf.c:337-467): it pushes a frame first and rolls back on PASS. */
module Handler {
  import opened Options
  import opened Lexer
  import opened Modules
  import opened Dispatch
  import opened RunStack
  import opened Rooms
  import opened Invariants
  import opened Liveness

  /** What came of a candidate, or of a whole directive. */
  datatype Outcome = Accepted | Passing | Refused | Broken

  class Dispatcher {
    const env: Env
    const run: Run
    var records: seq<Record>        // `used` and `ctxs` of each module
    var trace: seq<Call>            // the callbacks made so far
    ghost var accepted: seq<Acceptance>
    ghost var stale: bool           // released memory was read

    ghost predicate Valid()
      reads this, run, run.Repr
    {
      run.Valid() && this !in run.Repr && Sound(env, Now())
    }

    ghost function Now(): Store
      reads this
    {
      Store(records, trace, accepted)
    }

    ghost function Frames(): seq<Frame>
      requires run.Valid()
      reads run, run.Repr
    {
      run.Frames()
    }

    /** The array of contexts and the open frames' pointers into it. */
    ghost function Memory(): (m: Room)
      requires run.Valid()
      reads this, run, run.Repr
      ensures |m.homes| == |Frames()|
    {
      run.Memory().(stale := stale)
    }

    constructor (env: Env)
      ensures Valid() && Frames() == [] && this.env == env && Memory() == Room(0, 8, [], false)
      ensures Now() == Start(env)
      ensures fresh(run) && fresh(run.Repr)
    {
      this.env := env;
      run := new Run();
      records := seq(|env.mods|, _ => Record(false, None));
      trace := [];
      accepted, stale := [], false;
    }

    /** A callback: it joins the history, and the history decides what it replies. */
    method Ask(call: Call) returns (reply: Reply)
      requires Valid()
      modifies this`trace
      ensures Valid() && Frames() == old(Frames()) && Memory() == old(Memory())
      ensures Now() == Told(old(Now()), call) && reply == env.reply(old(trace), call)
    {
      reply := env.reply(trace, call);
      trace := trace + [call];
    }

    /** The command's own callback. */
    method Consult(i: nat, cmd: Cmd, ctx: Ctx, words: seq<string>) returns (reply: Reply)
      requires Valid()
      modifies this`trace
      ensures Valid() && Frames() == old(Frames()) && Memory() == old(Memory())
      ensures var call := Call.Handler(i, cmd, ctx, View(Frames(), words));
        Now() == Told(old(Now()), call) && reply == env.reply(old(trace), call)
    {
      hide Run.Valid, Run.Frames, Run.Memory;
      var frames := run.Snapshot();
      reply := Ask(Call.Handler(i, cmd, ctx, View(frames, words)));
    }

    /** The k-th frame's pointer was followed. */
    ghost method Follow(k: nat, live: bool)
      requires Valid() && k < |Frames()| && live == Live(Memory(), k)
      modifies this`stale
      ensures Valid() && Frames() == old(Frames()) && Now() == old(Now())
      ensures Memory() == Touch(old(Memory()), k)
    {
      hide Run.Valid, Run.Frames, Run.Memory;
      stale := stale || !live;
    }

    /** `fs_run_st_push` for a frame with a context of its own. */
    method Begin(i: nat, cmd: Cmd, held: Ctx)
      requires Valid()
      modifies run.Repr
      ensures Valid() && fresh(run.Repr - old(run.Repr)) && run.TopOwnsLast()
      ensures Frames() == [Frame(i, cmd, held)] + old(Frames()) && Memory() == Enter(old(Memory()))
    {
      hide Run.Valid, Run.Frames, Run.Memory, Run.TopOwnsLast, Run.Intact;
      run.Push(i, cmd, held);
    }

    /** The same for a frame that runs in the context of the frame around it. */
    method BeginInheriting(i: nat, cmd: Cmd) returns (ok: bool, ctx: Ctx)
      requires Valid()
      modifies this`stale, run.Repr
      ensures run.Valid() && fresh(run.Repr - old(run.Repr)) && ok == (old(Frames()) != [])
      ensures ok ==>
                Valid() && run.TopOwnsLast() && Now() == old(Now()) && ctx == old(Frames())[0].ctx &&
                Frames() == [Frame(i, cmd, ctx)] + old(Frames()) && Memory() == Touch(Enter(old(Memory())), 1)
    {
      hide Run.Valid, Run.Frames, Run.Memory, Run.TopOwnsLast;
      ghost var live;
      ok, ctx, live := run.PushInheriting(i, cmd, env.held(trace));
      if ok {
        stale := stale || !live;
      }
    }

    /** `fs_run_st_pop` */
    method Finished()
      requires Valid() && Frames() != []
      modifies run.Repr
      ensures Valid() && run.Repr == old(run.Repr)
      ensures Frames() == old(Frames())[1..] && Memory() == Leave(old(Memory()))
    {
      hide Run.Valid, Run.Frames, Run.Memory;
      run.Pop();
    }

    /** The rollback of the innermost frame. */
    method Undo()
      requires Valid() && run.TopOwnsLast()
      modifies run.Repr
      ensures Valid() && run.Repr == old(run.Repr)
      ensures Frames() == old(Frames())[1..] && Memory() == GiveBack(old(Memory()))
    {
      hide Run.Valid, Run.Frames, Run.Memory;
      run.Unwind();
    }

    method SetCtx(ctx: Ctx)
      requires Valid() && Frames() != []
      modifies run.Repr
      ensures Valid() && run.Repr == old(run.Repr) && run.TopOwnsLast() == old(run.TopOwnsLast())
      ensures Frames() == [old(Frames())[0].(ctx := ctx)] + old(Frames())[1..] && Memory() == old(Memory())
    {
      hide Run.Valid, Run.Frames, Run.Memory, Run.TopOwnsLast;
      run.SetTopCtx(ctx);
    }

    /** What holds after candidate (i, cmd) was tried from the given state. */
    ghost predicate Came(a: Attempt, frames: seq<Frame>, out: Outcome, first: bool)
      requires run.Valid()
      reads this, run, run.Repr
    {
      match a
      case Took(st, pushed) =>
        out == Accepted && Now() == st && Frames() == (if pushed.Some? then [pushed.value] else []) + frames
      case Passed(st, flag) => out == Passing && Now() == st && Frames() == frames && first == flag
      case Failed(st) => out == Refused && Now() == st
      case Undefined => out == Broken
    }

    /** src/core/fs_conf.c:381-395 */
    method Param(i: nat, cmd: Cmd, words: seq<string>, first: bool) returns (out: Outcome)
      requires Valid()
      modifies this`trace, this`accepted, this`stale
      ensures Valid() && Memory() == if old(Frames()) == [] then old(Memory()) else Touch(old(Memory()), 0)
      ensures Came(TryParam(env, i, cmd, old(Frames()), old(Now()), words, first), old(Frames()), out, first)
    {
      hide FramesOf, HomesOf, Homed, Slotted, Run.Valid, Run.Frames, Run.Memory;
      var empty := run.IsEmpty();
      if empty {
        return Refused;
      }
      var ctx, live := run.TopCtx();
      Follow(0, live);
      var reply := Consult(i, cmd, ctx, words);
      if reply.verdict == PASS {
        return Passing;
      }
      if reply.verdict == ERROR {
        return Refused;
      }
      accepted := accepted + [Acceptance(i, cmd, ctx, words)];
      return Accepted;
    }

    /** src/core/fs_conf.c:397-404 and 430-446 for a block inside a block. */
    method SubBlock(i: nat, cmd: Cmd, words: seq<string>, first: bool) returns (out: Outcome)
      requires Valid() && i < |env.mods|
      modifies this, run.Repr
      ensures run.Valid() && fresh(run.Repr - old(run.Repr)) && (out != Broken ==> Valid())
      ensures out != Broken ==> old(Frames()) != []
      ensures out != Broken ==>
                var asked := Touch(Enter(old(Memory())), 1);
                Memory() == if out == Passing then GiveBack(asked) else asked
      ensures Came(TrySubBlock(env, i, cmd, old(Frames()), old(Now()), words, first), old(Frames()), out, first)
    {
      hide FramesOf, HomesOf, Homed, Slotted, Run.Valid, Run.Frames, Run.Memory, Run.TopOwnsLast,
        Touch, Enter, GiveBack;
      var inherited, ctx := BeginInheriting(i, cmd);
      if !inherited {
        return Broken;
      }
      var reply := Consult(i, cmd, ctx, words);
      if reply.verdict == PASS {
        Undo();
        var r := RolledBack(records[i], first);
        if r == None {
          return Broken;
        }
        records := records[i := r.value];
        return Passing;
      }
      if reply.verdict == ERROR {
        return Refused;
      }
      accepted := accepted + [Acceptance(i, cmd, ctx, words)];
      return Accepted;
    }

    /** src/core/fs_conf.c:397-418: a new frame with a context of its own from `init_mod`. */
    method Own(i: nat, cmd: Cmd, words: seq<string>, first: bool) returns (out: Outcome, first': bool)
      requires Valid() && i < |env.mods|
      modifies this, run.Repr
      ensures run.Valid() && fresh(run.Repr - old(run.Repr)) && (out != Broken ==> Valid())
      ensures out != Broken
      ensures var e := Enter(old(Memory()));
        Memory() == if out == Passing then GiveBack(e) else if out == Accepted && !cmd.block then Leave(e) else e
      ensures Came(TryOwn(env, i, cmd, old(Frames()), old(Now()), words, first), old(Frames()), out, first')
    {
      hide FramesOf, HomesOf, Homed, Slotted, Run.Valid, Run.Frames, Run.Memory, Run.TopOwnsLast, TryOwnWith;
      ghost var frames := Frames();
      var ctx := env.held(trace);
      Begin(i, cmd, ctx);
      first' := first;
      if env.mods[i].hasInit {
        var fs := run.Snapshot();
        var reply := Ask(Call.Init(i, cmd, View(fs, words)));
        if reply.verdict == PASS {
          Undo();
          return Passing, first;
        }
        if reply.verdict != OK {
          return Refused, first;
        }
        ctx := reply.ctx;
        SetCtx(ctx);
      }
      out, first' := OwnWith(i, cmd, ctx, words, frames);
    }

    /** src/core/fs_conf.c:420-426: the module is used, and its array gets the context. */
    method Keep(i: nat, ctx: Ctx) returns (first: bool)
      requires Valid() && i < |records|
      modifies this`records
      ensures Valid() && Frames() == old(Frames()) && Memory() == old(Memory())
      ensures run.TopOwnsLast() == old(run.TopOwnsLast())
      ensures records == old(records)[i := WithCtx(old(records)[i], ctx)] && first == !old(records)[i].used
    {
      hide HomesOf, Homed, Run.Valid, Run.Frames, Run.Memory, Run.TopOwnsLast;
      if !records[i].used {
        records := records[i := records[i].(ctxs := Some([]))];
      }
      first := !records[i].used;
      records := records[i := Record(true, Some(records[i].ctxs.value + [ctx]))];
    }

    /** src/core/fs_conf.c:432-443, for a frame that has just stored its context. */
    method RollBack(i: nat, first: bool, ghost before: Record, ghost ctx: Ctx)
      requires Valid() && i < |records| && run.TopOwnsLast()
      requires records[i] == WithCtx(before, ctx) && first == !before.used && (before.used ==> before.ctxs.Some?)
      modifies this`records, run.Repr
      ensures Valid() && run.Repr == old(run.Repr)
      ensures Frames() == old(Frames())[1..] && Memory() == GiveBack(old(Memory()))
      ensures records == old(records)[i := if first then Record(false, Some([])) else before]
    {
      hide HomesOf, Homed, Run.Valid, Run.Frames, Run.Memory, Run.TopOwnsLast;
      Undo();
      var r := records[i];
      if r.ctxs.Some? {
        r := r.(ctxs := Some(r.ctxs.value[..|r.ctxs.value| - 1]));
      }
      if first {
        r := r.(used := false);
      }
      assert r.ctxs.value == Stored(before);
      records := records[i := r];
    }

    /** src/core/fs_conf.c:420-458: the module keeps the context, and the handler is called. */
    method OwnWith(i: nat, cmd: Cmd, ctx: Ctx, words: seq<string>, ghost frames: seq<Frame>)
      returns (out: Outcome, first: bool)
      requires Valid() && i < |env.mods|
      requires Frames() == [Frame(i, cmd, ctx)] + frames && run.TopOwnsLast() && Live(Memory(), 0)
      modifies this, run.Repr
      ensures run.Valid() && fresh(run.Repr - old(run.Repr)) && (out != Broken ==> Valid())
      ensures out != Broken
      ensures var e := old(Memory());
        Memory() == if out == Passing then GiveBack(e) else if out == Accepted && !cmd.block then Leave(e) else e
      ensures Came(TryOwnWith(env, i, cmd, ctx, frames, old(Now()), words), frames, out, first)
    {
      hide FramesOf, HomesOf, Homed, Slotted, Run.Valid, Run.Frames, Run.Memory, Run.TopOwnsLast, WithCtx;
      ghost var before := records[i];
      first := Keep(i, ctx);
      var reply := Consult(i, cmd, ctx, words);
      if reply.verdict == PASS {
        RollBack(i, first, before, ctx);
        assert before.used ==> records == old(records);
        return Passing, first;
      }
      if reply.verdict == ERROR {
        return Refused, first;
      }
      accepted := accepted + [Acceptance(i, cmd, ctx, words)];
      out := Accepted;
      if !cmd.block {
        out := Conclude(words);
      }
    }

    /** The module of the innermost frame hears of its end, unless it is a sub-block. */
    method End(words: seq<string>) returns (out: Outcome)
      requires Valid() && Frames() != []
      modifies this`trace, this`stale
      ensures Valid() && Frames() == old(Frames())
      ensures var top, m := Frames()[0], old(Memory());
        Memory() == if Hears(env, top.mod, top.cmd) then Touch(m, 0) else m
      ensures match Finish(env, Frames()[0], View(Frames(), words), old(Now()))
        case Took(st, _) => out == Accepted && Now() == st
        case Failed(st) => out == Refused && Now() == st
        case _ => false
    {
      hide FramesOf, HomesOf, Homed, Slotted, Run.Valid, Run.Frames, Run.Memory;
      var fs := run.Snapshot();
      var top := fs[0];
      if top.mod < |env.mods| && env.mods[top.mod].hasCompleted && !top.cmd.child {
        var ctx, live := run.TopCtx();
        Follow(0, live);
        var reply := Ask(Call.Completed(top.mod, ctx, View(fs, words)));
        if reply.verdict != OK {
          return Refused;
        }
      }
      return Accepted;
    }

    /** The innermost frame ends: its module hears of it, and it is popped. */
    method Conclude(words: seq<string>) returns (out: Outcome)
      requires Valid() && Frames() != []
      modifies this`trace, this`stale, run.Repr
      ensures Valid() && run.Repr == old(run.Repr)
      ensures var top, m := old(Frames())[0], old(Memory());
        var asked := if Hears(env, top.mod, top.cmd) then Touch(m, 0) else m;
        Memory() == if out == Accepted then Leave(asked) else asked
      ensures match Finish(env, old(Frames())[0], View(old(Frames()), words), old(Now()))
        case Took(st, _) => out == Accepted && Now() == st && Frames() == old(Frames())[1..]
        case Failed(st) => out == Refused && Now() == st
        case _ => false
    {
      hide Run.Valid, Run.Frames, Run.Memory, Finish;
      out := End(words);
      if out == Accepted {
        Finished();
      }
    }

    /** One candidate (src/core/fs_conf.c:381-460). */
    method Offer(i: nat, cmd: Cmd, words: seq<string>, first: bool) returns (out: Outcome, first': bool)
      requires Valid() && i < |env.mods|
      modifies this, run.Repr
      ensures run.Valid() && fresh(run.Repr - old(run.Repr)) && (out != Broken ==> Valid())
      ensures out != Broken ==>
                Memory() == After(cmd, Try(env, i, cmd, old(Frames()), old(Now()), words, first), old(Memory()))
      ensures Came(Try(env, i, cmd, old(Frames()), old(Now()), words, first), old(Frames()), out, first')
    {
      hide TryParam, TrySubBlock, TryOwn, Run.Valid, Run.Frames, Run.Memory;
      first' := first;
      if cmd.child && !cmd.block {
        out := Param(i, cmd, words, first);
      } else if cmd.child {
        out := SubBlock(i, cmd, words, first);
      } else {
        out, first' := Own(i, cmd, words, first);
      }
    }

    /** How a directive left the dispatcher. */
    ghost predicate Handled(s: State, out: Outcome)
      requires run.Valid()
      reads this, run, run.Repr
    {
      match s
      case Running(frames, st) => out == Accepted && Frames() == frames && Now() == st
      case Stopped(st) => out == Refused && Now() == st
      case Lost => out == Broken
    }

    method Handle(taken: Taken, words: seq<string>) returns (out: Outcome)
      requires Valid() && taken != Done
      modifies this, run.Repr
      ensures run.Valid() && fresh(run.Repr - old(run.Repr)) && (out != Broken ==> Valid())
      ensures out != Passing && Handled(Step(env, old(Frames()), old(Now()), Event(taken, words)), out)
      ensures out != Broken ==>
                Memory() == AfterStep(env, old(Frames()), old(Now()), Event(taken, words), old(Memory()))
    {
      hide Try, Finish, Candidates, Run.Valid, Run.Frames, Run.Memory, AfterAll;
      if taken == Close {
        var empty := run.IsEmpty();
        if empty {
          return Refused;
        }
        out := Conclude(words);
        return;
      }
      if words == [] {
        return Broken;
      }
      out := Choose(taken, words);
    }

    /** The search through the module table (src/core/fs_conf.c:360-466). */
    method Choose(taken: Taken, words: seq<string>) returns (out: Outcome)
      requires Valid() && (taken == Simple || taken == Open) && words != []
      modifies this, run.Repr
      ensures run.Valid() && fresh(run.Repr - old(run.Repr)) && (out != Broken ==> Valid())
      ensures out != Passing && Handled(Step(env, old(Frames()), old(Now()), Event(taken, words)), out)
      ensures out != Broken ==>
                Memory() == AfterStep(env, old(Frames()), old(Now()), Event(taken, words), old(Memory()))
    {
      hide Try, Run.Valid, Run.Frames, Run.Memory, TryAll, Candidates, After, AfterAll;
      var name := words[0];
      var first := env.flag(trace);
      ghost var frames := Frames();
      ghost var goal := Select(env, frames, Now(), Event(taken, words));
      ghost var memory := AfterStep(env, frames, Now(), Event(taken, words), Memory());
      var i := 0;
      while i < |env.mods|
        invariant Valid() && Frames() == frames && fresh(run.Repr - old(run.Repr))
        invariant |records| == |env.mods|
        invariant goal == TryAll(env, Candidates(env.mods, i, 0, name, taken), frames, Now(), words, first)
        invariant memory ==
                  AfterAll(env, Candidates(env.mods, i, 0, name, taken), frames, Now(), words, first, Memory())
      {
        var j := 0;
        var cmds := env.mods[i].cmds;
        while j < |cmds| && cmds[j].token != []
          invariant j <= |cmds|
          invariant Valid() && Frames() == frames && fresh(run.Repr - old(run.Repr))
          invariant |records| == |env.mods|
          invariant goal == TryAll(env, Candidates(env.mods, i, j, name, taken), frames, Now(), words, first)
          invariant memory ==
                    AfterAll(env, Candidates(env.mods, i, j, name, taken), frames, Now(), words, first, Memory())
        {
          var cmd := cmds[j];
          ChooseStep(env, i, j, name, taken, frames, Now(), words, first);
          ChooseMemory(env, i, j, name, taken, frames, Now(), words, first, Memory());
          j := j + 1;
          if !Matches(cmd.token, name) || (!cmd.block && taken != Simple) || (cmd.block && taken != Open) {
            continue;
          }
          out, first := Offer(i, cmd, words, first);
          if out != Passing {
            return;
          }
        }
        CandidatesAt(env.mods, i, j, name, taken);
        i := i + 1;
      }
      CandidatesAt(env.mods, i, 0, name, taken);
      TryAllNone(env, frames, Now(), words, first);
      AfterNone(env, frames, Now(), words, first, Memory());
      return Refused;
    }
  }

  /** The search at a command that does not fit, or that does. */
  lemma ChooseStep(env: Env, i: nat, j: nat, name: string, taken: Taken,
                   frames: seq<Frame>, st: Store, words: seq<string>, flag: bool)
    requires |st.records| == |env.mods| && i < |env.mods|
    requires j < |env.mods[i].cmds| && env.mods[i].cmds[j].token != []
    ensures var cmd := env.mods[i].cmds[j];
      var all, rest := Candidates(env.mods, i, j, name, taken), Candidates(env.mods, i, j + 1, name, taken);
      if !Fits(cmd, name, taken) then all == rest
      else
        match Try(env, i, cmd, frames, st, words, flag)
        case Passed(st', flag') =>
          |st'.records| == |env.mods| &&
          TryAll(env, all, frames, st, words, flag) == TryAll(env, rest, frames, st', words, flag')
        case a => TryAll(env, all, frames, st, words, flag) == a
  {
    hide Try, TryAll, Candidates;
    CandidatesAt(env.mods, i, j, name, taken);
    var cmd := env.mods[i].cmds[j];
    var all, rest := Candidates(env.mods, i, j, name, taken), Candidates(env.mods, i, j + 1, name, taken);
    if Fits(cmd, name, taken) {
      assert all == [Candidate(i, j, cmd)] + rest && all[1..] == rest;
      TryAllStep(env, all, frames, st, words, flag);
    }
  }

  /** The same for the array of contexts. */
  lemma ChooseMemory(env: Env, i: nat, j: nat, name: string, taken: Taken,
                     frames: seq<Frame>, st: Store, words: seq<string>, flag: bool, m: Room)
    requires |st.records| == |env.mods| && i < |env.mods|
    requires j < |env.mods[i].cmds| && env.mods[i].cmds[j].token != []
    ensures var cmd := env.mods[i].cmds[j];
      var all, rest := Candidates(env.mods, i, j, name, taken), Candidates(env.mods, i, j + 1, name, taken);
      if !Fits(cmd, name, taken) then all == rest
      else
        var a := Try(env, i, cmd, frames, st, words, flag);
        var m' := After(cmd, a, m);
        (a.Passed? ==> |a.store.records| == |env.mods|) &&
        AfterAll(env, all, frames, st, words, flag, m) ==
        if a.Passed? then AfterAll(env, rest, frames, a.store, words, a.flag, m') else m'
  {
    hide Try, After, AfterAll, Candidates;
    CandidatesAt(env.mods, i, j, name, taken);
    var cmd := env.mods[i].cmds[j];
    var all, rest := Candidates(env.mods, i, j, name, taken), Candidates(env.mods, i, j + 1, name, taken);
    if Fits(cmd, name, taken) {
      assert all == [Candidate(i, j, cmd)] + rest && all[1..] == rest;
      AfterAllStep(env, all, frames, st, words, flag, m);
    }
  }

  lemma AfterAllStep(env: Env, cs: seq<Candidate>, frames: seq<Frame>, st: Store,
                     words: seq<string>, flag: bool, m: Room)
    requires |st.records| == |env.mods| && (forall c <- cs :: c.mod < |env.mods|) && cs != []
    ensures var a := Try(env, cs[0].mod, cs[0].cmd, frames, st, words, flag);
      var m' := After(cs[0].cmd, a, m);
      (a.Passed? ==> |a.store.records| == |env.mods|) &&
      AfterAll(env, cs, frames, st, words, flag, m) ==
      if a.Passed? then AfterAll(env, cs[1..], frames, a.store, words, a.flag, m') else m'
  {
    hide After;
  }

  lemma AfterNone(env: Env, frames: seq<Frame>, st: Store, words: seq<string>, flag: bool, m: Room)
    requires |st.records| == |env.mods|
    ensures AfterAll(env, [], frames, st, words, flag, m) == m
  {
  }

  lemma TryAllStep(env: Env, cs: seq<Candidate>, frames: seq<Frame>, st: Store, words: seq<string>, flag: bool)
    requires |st.records| == |env.mods| && (forall c <- cs :: c.mod < |env.mods|) && cs != []
    ensures match Try(env, cs[0].mod, cs[0].cmd, frames, st, words, flag)
      case Passed(st', flag') =>
        |st'.records| == |env.mods| &&
        TryAll(env, cs, frames, st, words, flag) == TryAll(env, cs[1..], frames, st', words, flag')
      case a => TryAll(env, cs, frames, st, words, flag) == a
  {
  }
}
