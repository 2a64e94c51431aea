/** Which command takes a directive, what a passing one leaves behind, and what modules keep. */
module Records {
  import opened Options
  import opened Lexer
  import opened Modules
  import opened Dispatch
  import opened Invariants

  // ---- The first candidate in table order that does not pass

  datatype Passing = Passing(store: Store, flag: bool)

  /** The state after all these candidates passed, if they do. */
  function AllPass(env: Env, cs: seq<Candidate>, frames: seq<Frame>, st: Store,
                   words: seq<string>, flag: bool): (r: Option<Passing>)
    requires |st.records| == |env.mods| && forall c <- cs :: c.mod < |env.mods|
    ensures r.Some? ==> |r.value.store.records| == |env.mods|
    decreases |cs|
  {
    if cs == [] then Some(Passing(st, flag))
    else
      match Try(env, cs[0].mod, cs[0].cmd, frames, st, words, flag)
      case Passed(st', flag') => AllPass(env, cs[1..], frames, st', words, flag')
      case _ => None
  }

  /**
   The directive is decided by the first candidate that does not pass; it sees the state
   the earlier ones left. With no such candidate the directive is an error.
   */
  lemma {:induction false} FirstDecides(env: Env, cs: seq<Candidate>, frames: seq<Frame>, st: Store,
                                        words: seq<string>, flag: bool)
    returns (n: nat)
    requires |st.records| == |env.mods| && forall c <- cs :: c.mod < |env.mods|
    ensures n <= |cs|
    ensures var p := AllPass(env, cs[..n], frames, st, words, flag);
      p.Some? &&
      if n == |cs| then TryAll(env, cs, frames, st, words, flag) == Failed(p.value.store)
      else
        var a := Try(env, cs[n].mod, cs[n].cmd, frames, p.value.store, words, p.value.flag);
        !a.Passed? && TryAll(env, cs, frames, st, words, flag) == a
    decreases |cs|
  {
    hide Try;
    n := 0;
    if cs != [] {
      var ctx := TryTakes(env, cs[0], frames, st, words, flag);
      var a := Try(env, cs[0].mod, cs[0].cmd, frames, st, words, flag);
      if a.Passed? {
        n := FirstDecides(env, cs[1..], frames, a.store, words, a.flag);
        assert cs[..n + 1][1..] == cs[1..][..n];
        n := n + 1;
      }
    }
  }

  // ---- Rollback

  /** The same modules count as used, with the same contexts stored. */
  ghost predicate SameRecords(a: Store, b: Store) {
    |a.records| == |b.records| &&
    forall i :: 0 <= i < |a.records| ==>
      a.records[i].used == b.records[i].used && Stored(a.records[i]) == Stored(b.records[i])
  }

  /**
   The callbacks pass this candidate over: the handler does, or `init_mod` before it. A
   command inside a block is only asked when a block is open.
   */
  ghost predicate RepliesPass(env: Env, i: nat, cmd: Cmd, frames: seq<Frame>, st: Store, words: seq<string>)
    requires i < |env.mods|
  {
    if cmd.child then
      frames != [] &&
      var frame := Frame(i, cmd, frames[0].ctx);
      var view := View(if cmd.block then [frame] + frames else frames, words);
      env.reply(st.trace, Handler(i, cmd, frame.ctx, view)).verdict == PASS
    else
      var frame := Frame(i, cmd, env.held(st.trace));
      if !env.mods[i].hasInit then
        env.reply(st.trace, Handler(i, cmd, frame.ctx, View([frame] + frames, words))).verdict == PASS
      else
        var init := Init(i, cmd, View([frame] + frames, words));
        var reply := env.reply(st.trace, init);
        var own := View([Frame(i, cmd, reply.ctx)] + frames, words);
        reply.verdict == PASS ||
        (reply.verdict == OK && env.reply(st.trace + [init], Handler(i, cmd, reply.ctx, own)).verdict == PASS)
  }

  /**
   A candidate that is passed over leaves the records as they were if and only if it is no
   sub-block, or its module never made an array of contexts (src/core/fs_conf.c:435).
   Otherwise the source takes back a context that the sub-block never stored, from the
   module's array or from one already released.
   */
  lemma {:induction false} PassKeepsRecords(env: Env, i: nat, cmd: Cmd, frames: seq<Frame>, st: Store,
                                            words: seq<string>, flag: bool)
    requires Sound(env, st) && i < |env.mods| && RepliesPass(env, i, cmd, frames, st, words)
    ensures var a := Try(env, i, cmd, frames, st, words, flag);
      a.Passed? && SameRecords(st, a.store) <==> (cmd.child && cmd.block ==> st.records[i].ctxs == None)
  {
    if cmd.child && cmd.block {
      var r := st.records[i];
      var r' := RolledBack(r, flag);
      assert r.ctxs.Some? && r'.Some? && r'.value.used ==> |Stored(r'.value)| == |Stored(r)| - 1;
    }
  }

  /**
   A sub-block has nothing to inherit, or its callback passes it over while its module has an
   array with nothing in it to take back, or a released one.
   */
  ghost predicate HasNoOutcome(env: Env, i: nat, cmd: Cmd, frames: seq<Frame>, st: Store, words: seq<string>)
    requires i < |env.mods| == |st.records|
  {
    cmd.child && cmd.block &&
    (frames == [] ||
     (RepliesPass(env, i, cmd, frames, st, words) && st.records[i].ctxs.Some? && Stored(st.records[i]) == []))
  }

  /** A candidate passes exactly when its callbacks do, unless it has no outcome at all. */
  lemma {:induction false} OutcomeByReply(env: Env, i: nat, cmd: Cmd, frames: seq<Frame>, st: Store,
                                          words: seq<string>, flag: bool)
    requires i < |st.records| == |env.mods|
    ensures var a := Try(env, i, cmd, frames, st, words, flag);
      (a == Undefined <==> HasNoOutcome(env, i, cmd, frames, st, words)) &&
      (a.Passed? <==>
       RepliesPass(env, i, cmd, frames, st, words) && !HasNoOutcome(env, i, cmd, frames, st, words))
  {
  }

  // ---- Runs in which a passing sub-block does harm

  const BLOCK := Cmd("b", 0, true, false)
  const SUB := Cmd("s", 1, true, true)

  /** Two modules with a block "b" and a sub-block "s" each; module 0 passes some commands. */
  function Table(passed: set<Cmd>): Env {
    var m := Module([BLOCK, SUB], false, false);
    Env([m, m], (_, c: Call) => Reply(if c.Handler? && c.mod == 0 && c.cmd in passed then PASS else OK, 0),
        _ => 7, _ => false)
  }

  lemma TableCandidates(env: Env, i: nat, name: string)
    requires i < |env.mods| && env.mods[i].cmds == [BLOCK, SUB] && name in {"b", "s"}
    ensures Candidates(env.mods, i, 0, name, Open) ==
            [if name == "b" then Candidate(i, 0, BLOCK) else Candidate(i, 1, SUB)] +
            Candidates(env.mods, i + 1, 0, name, Open)
  {
    hide Candidates;
    assert "b"[0] != "s"[0];
    CandidatesAt(env.mods, i, 0, name, Open);
    CandidatesAt(env.mods, i, 1, name, Open);
    CandidatesAt(env.mods, i, 2, name, Open);
  }

  /** An opening directive in the table: module 0 is asked first, then module 1. */
  lemma TableStep(env: Env, frames: seq<Frame>, st: Store, name: string)
    requires |env.mods| == |st.records| == 2 && name in {"b", "s"}
    requires env.mods[0].cmds == env.mods[1].cmds == [BLOCK, SUB]
    ensures var cmd, flag := if name == "b" then BLOCK else SUB, env.flag(st.trace);
      var a := Try(env, 0, cmd, frames, st, [name], flag);
      Select(env, frames, st, Event(Open, [name])) ==
      if !a.Passed? then a
      else
        var a' := Try(env, 1, cmd, frames, a.store, [name], a.flag);
        if a'.Passed? then Failed(a'.store) else a'
  {
    hide Candidates, Try, RolledBack;
    TableCandidates(env, 0, name);
    TableCandidates(env, 1, name);
    CandidatesAt(env.mods, 2, 0, name, Open);
    var c0 := if name == "b" then Candidate(0, 0, BLOCK) else Candidate(0, 1, SUB);
    var c1 := if name == "b" then Candidate(1, 0, BLOCK) else Candidate(1, 1, SUB);
    assert Candidates(env.mods, 0, 0, name, Open) == [c0, c1];
    assert [c0, c1][1..] == [c1] && [c1][1..] == [];
    var flag := env.flag(st.trace);
    var ctx := TryTakes(env, c0, frames, st, [name], flag);
    var a := Try(env, 0, c0.cmd, frames, st, [name], flag);
    if a.Passed? {
      ctx := TryTakes(env, c1, frames, a.store, [name], a.flag);
      assert TryAll(env, [c1], frames, a.store, [name], a.flag) ==
             var a' := Try(env, 1, c1.cmd, frames, a.store, [name], a.flag);
             if a'.Passed? then Failed(a'.store) else a';
    }
  }

  /** The run over an opening "b" and an opening "s". */
  lemma OpenBoth(env: Env)
    ensures var s := Step(env, [], Start(env), Event(Open, ["b"]));
      RunAll(env, Running([], Start(env)), [Event(Open, ["b"])]) == s &&
      RunAll(env, Running([], Start(env)), [Event(Open, ["b"]), Event(Open, ["s"])]) ==
      if s.Running? then Step(env, s.frames, s.store, Event(Open, ["s"])) else s
  {
    hide Step;
    var a, b := Event(Open, ["b"]), Event(Open, ["s"]);
    assert [a, b][1..] == [b] && [b][1..] == [] && [a][1..] == [];
    var s := Step(env, [], Start(env), a);
    assert RunAll(env, s, [b]) == if s.Running? then RunAll(env, Step(env, s.frames, s.store, b), []) else s;
  }

  lemma BlockAccepted(env: Env) returns (s: State)
    requires env == Table({SUB})
    ensures s == Step(env, [], Start(env), Event(Open, ["b"])) && s.Running?
    ensures s.frames == [Frame(0, BLOCK, 7)] && s.store.accepted == [Acceptance(0, BLOCK, 7, ["b"])]
    ensures s.store.records[0] == Record(true, Some([7]))
  {
    hide Candidates;
    TableStep(env, [], Start(env), "b");
    s := Step(env, [], Start(env), Event(Open, ["b"]));
    assert Start(env).records[0] == Record(false, None);
    assert Try(env, 0, BLOCK, [], Start(env), ["b"], false).store.records[0] == WithCtx(Record(false, None), 7);
    assert [] + [7] == [7];
  }

  /** Module 0 accepts "b" and passes "s", which module 1 accepts: module 0's only context is lost. */
  lemma SubBlockPassLosesContext()
    ensures var env := Table({SUB});
      var s := RunAll(env, Running([], Start(env)), [Event(Open, ["b"]), Event(Open, ["s"])]);
      s.Running? && CtxsOf(s.store.accepted, 0) == [7] && s.store.records[0] == Record(true, Some([]))
  {
    hide Candidates, Start;
    var env := Table({SUB});
    OpenBoth(env);
    var s := BlockAccepted(env);
    TableStep(env, s.frames, s.store, "s");
    var a, b := Acceptance(0, BLOCK, 7, ["b"]), Acceptance(1, SUB, 7, ["s"]);
    assert Step(env, s.frames, s.store, Event(Open, ["s"])).store.accepted == [a, b];
    CtxsOfMore([], a, 0);
    CtxsOfMore([a], b, 0);
    assert [] + [a] == [a] && [a] + [b] == [a, b];
  }

  /**
   Module 0 passes "b" and then "s": it is not in use, but the array that was made for "b"
   and released is changed again.
   */
  lemma SubBlockPassAfterRelease()
    ensures var env := Table({BLOCK, SUB});
      var s := RunAll(env, Running([], Start(env)), [Event(Open, ["b"])]);
      s.Running? && s.store.records[0] == Record(false, Some([])) &&
      RunAll(env, Running([], Start(env)), [Event(Open, ["b"]), Event(Open, ["s"])]) == Lost
  {
    hide Candidates;
    var env := Table({BLOCK, SUB});
    OpenBoth(env);
    TableStep(env, [], Start(env), "b");
    var s := Step(env, [], Start(env), Event(Open, ["b"]));
    TableStep(env, s.frames, s.store, "s");
  }

  // ---- What the modules keep

  predicate HasOwn(m: Module) {
    exists c :: c in m.cmds && !c.child
  }

  /** In every run: only a module with commands of its own ever has an array. */
  ghost predicate Grounded(env: Env, st: Store) {
    Sound(env, st) && forall i :: 0 <= i < |st.records| && st.records[i].ctxs.Some? ==> HasOwn(env.mods[i])
  }

  /** The contexts of a module's accepted directives that are not inside another block of it. */
  function CtxsOf(accepted: seq<Acceptance>, mod: nat): seq<Ctx> {
    if accepted == [] then []
    else
      var a := accepted[|accepted| - 1];
      CtxsOf(accepted[..|accepted| - 1], mod) + if a.mod == mod && !a.cmd.child then [a.ctx] else []
  }

  /** Each module keeps the contexts of its accepted directives, and is used if there is one. */
  ghost predicate Kept(env: Env, st: Store) {
    Grounded(env, st) &&
    forall i :: 0 <= i < |st.records| ==> KeptBy(st.records[i], CtxsOf(st.accepted, i))
  }

  ghost predicate KeptBy(r: Record, ctxs: seq<Ctx>) {
    Stored(r) == ctxs && r.used == (ctxs != [])
  }

  /** Some module has fewer contexts than accepted directives. */
  ghost predicate Short(st: Store) {
    exists i :: 0 <= i < |st.records| && ShortBy(st.records[i], CtxsOf(st.accepted, i))
  }

  ghost predicate ShortBy(r: Record, ctxs: seq<Ctx>) {
    |Stored(r)| < |ctxs|
  }

  lemma ShortNotKept(env: Env, st: Store)
    requires Short(st)
    ensures !Kept(env, st)
  {
    var i :| 0 <= i < |st.records| && ShortBy(st.records[i], CtxsOf(st.accepted, i));
    assert !KeptBy(st.records[i], CtxsOf(st.accepted, i));
  }

  lemma CtxsOfMore(accepted: seq<Acceptance>, a: Acceptance, mod: nat)
    ensures CtxsOf(accepted + [a], mod) ==
            CtxsOf(accepted, mod) + if a.mod == mod && !a.cmd.child then [a.ctx] else []
  {
    assert (accepted + [a])[..|accepted|] == accepted;
  }

  /**
   A pass that takes back what is not the candidate's own: a sub-block's, in a module that
   has or had an array.
   */
  ghost predicate TakesBack(env: Env, c: Candidate, frames: seq<Frame>, st: Store, words: seq<string>)
    requires c.mod < |env.mods| == |st.records|
  {
    c.cmd.child && c.cmd.block && st.records[c.mod].ctxs.Some? &&
    RepliesPass(env, c.mod, c.cmd, frames, st, words)
  }

  /** What a candidate that passes or takes the directive does to the records. */
  lemma {:induction false} TryRecords(env: Env, c: Candidate, frames: seq<Frame>, st: Store,
                                      words: seq<string>, flag: bool)
    returns (ctx: Ctx)
    requires Sound(env, st) && c.mod < |env.mods|
    ensures match Try(env, c.mod, c.cmd, frames, st, words, flag)
      case Took(st', _) =>
        st'.accepted == st.accepted + [Acceptance(c.mod, c.cmd, ctx, words)] &&
        st'.records == if c.cmd.child then st.records else st.records[c.mod := WithCtx(st.records[c.mod], ctx)]
      case Passed(st', _) =>
        st'.accepted == st.accepted && RepliesPass(env, c.mod, c.cmd, frames, st, words) &&
        if TakesBack(env, c, frames, st, words) then
          var r := RolledBack(st.records[c.mod], flag);
          r.Some? && st'.records == st.records[c.mod := r.value]
        else SameRecords(st, st')
      case _ => true
  {
    hide RolledBack, WithCtx, RepliesPass, SameRecords, Finish;
    var a := Try(env, c.mod, c.cmd, frames, st, words, flag);
    ctx := if a.Took? then a.store.accepted[|st.accepted|].ctx else 0;
    OutcomeByReply(env, c.mod, c.cmd, frames, st, words, flag);
    if RepliesPass(env, c.mod, c.cmd, frames, st, words) {
      PassKeepsRecords(env, c.mod, c.cmd, frames, st, words, flag);
    }
  }

  lemma {:induction false} GroundedTry(env: Env, c: Candidate, frames: seq<Frame>, st: Store,
                                       words: seq<string>, flag: bool)
    requires Grounded(env, st) && c.mod < |env.mods| && c.cmd in env.mods[c.mod].cmds
    ensures var a := Try(env, c.mod, c.cmd, frames, st, words, flag);
      a.Took? || a.Passed? ==> Grounded(env, a.store)
  {
    hide HasOwn, Finish;
    assert !c.cmd.child ==> HasOwn(env.mods[c.mod]) by { OwnCmd(env.mods[c.mod], c.cmd); }
  }

  lemma OwnCmd(m: Module, cmd: Cmd)
    requires cmd in m.cmds
    ensures !cmd.child ==> HasOwn(m)
  {
  }

  /** Nothing that a candidate does makes up for a loss. */
  lemma {:induction false} ShortTry(env: Env, c: Candidate, frames: seq<Frame>, st: Store,
                                    words: seq<string>, flag: bool)
    requires Sound(env, st) && c.mod < |env.mods| && Short(st)
    ensures var a := Try(env, c.mod, c.cmd, frames, st, words, flag);
      a.Took? || a.Passed? ==> Short(a.store)
  {
    hide Try, RepliesPass, CtxsOf;
    var ctx := TryRecords(env, c, frames, st, words, flag);
    var i :| 0 <= i < |st.records| && ShortBy(st.records[i], CtxsOf(st.accepted, i));
    CtxsOfMore(st.accepted, Acceptance(c.mod, c.cmd, ctx, words), i);
    var a := Try(env, c.mod, c.cmd, frames, st, words, flag);
    assert a.Took? || a.Passed? ==> ShortBy(a.store.records[i], CtxsOf(a.store.accepted, i));
  }

  /** From a state in which the contexts are kept, exactly such a pass loses one. */
  lemma {:induction false} KeptTry(env: Env, c: Candidate, frames: seq<Frame>, st: Store,
                                   words: seq<string>, flag: bool)
    requires Kept(env, st) && c.mod < |env.mods| && c.cmd in env.mods[c.mod].cmds
    ensures var a := Try(env, c.mod, c.cmd, frames, st, words, flag);
      a.Took? || a.Passed? ==>
        if TakesBack(env, c, frames, st, words) then Short(a.store) else Kept(env, a.store)
  {
    hide Try, RepliesPass, CtxsOf, HasOwn;
    var ctx := TryRecords(env, c, frames, st, words, flag);
    GroundedTry(env, c, frames, st, words, flag);
    OutcomeByReply(env, c.mod, c.cmd, frames, st, words, flag);
    var a := Try(env, c.mod, c.cmd, frames, st, words, flag);
    forall i | 0 <= i < |st.records|
      ensures KeptBy(st.records[i], CtxsOf(st.accepted, i))
      ensures a.Took? || (a.Passed? && !TakesBack(env, c, frames, st, words)) ==>
                KeptBy(a.store.records[i], CtxsOf(a.store.accepted, i))
    {
      CtxsOfMore(st.accepted, Acceptance(c.mod, c.cmd, ctx, words), i);
    }
    if a.Passed? && TakesBack(env, c, frames, st, words) {
      assert ShortBy(a.store.records[c.mod], CtxsOf(a.store.accepted, c.mod));
    }
  }

  // ---- A directive's candidates

  /** Every candidate is a command of the table. */
  ghost predicate OfTable(env: Env, cs: seq<Candidate>) {
    forall c <- cs :: c.mod < |env.mods| && c.cmd in env.mods[c.mod].cmds
  }

  /** The state in which the n-th candidate is asked, if its turn comes. */
  ghost function Turn(env: Env, cs: seq<Candidate>, frames: seq<Frame>, st: Store,
                      words: seq<string>, flag: bool, n: nat): (r: Option<Passing>)
    requires |st.records| == |env.mods| && OfTable(env, cs)
    ensures r.Some? ==> n < |cs| && |r.value.store.records| == |env.mods|
  {
    if n < |cs| then AllPass(env, cs[..n], frames, st, words, flag) else None
  }

  lemma TurnFirst(env: Env, cs: seq<Candidate>, frames: seq<Frame>, st: Store, words: seq<string>, flag: bool)
    requires |st.records| == |env.mods| && OfTable(env, cs) && cs != []
    ensures Turn(env, cs, frames, st, words, flag, 0) == Some(Passing(st, flag))
  {
  }

  lemma TurnLater(env: Env, cs: seq<Candidate>, frames: seq<Frame>, st: Store, words: seq<string>, flag: bool, n: nat)
    requires |st.records| == |env.mods| && OfTable(env, cs) && cs != [] && 0 < n
    ensures var a := Try(env, cs[0].mod, cs[0].cmd, frames, st, words, flag);
      Turn(env, cs, frames, st, words, flag, n) ==
      if a.Passed? then Turn(env, cs[1..], frames, a.store, words, a.flag, n - 1) else None
  {
    hide RolledBack;
    if n < |cs| {
      assert cs[..n][1..] == cs[1..][..n - 1];
    }
  }

  lemma {:induction false} GroundedTurn(env: Env, cs: seq<Candidate>, frames: seq<Frame>, st: Store,
                                        words: seq<string>, flag: bool, n: nat)
    requires Grounded(env, st) && OfTable(env, cs)
    ensures var p := Turn(env, cs, frames, st, words, flag, n);
      p.Some? ==> Grounded(env, p.value.store)
    decreases |cs|
  {
    hide Try, Turn, HasOwn;
    if cs != [] {
      if n == 0 {
        TurnFirst(env, cs, frames, st, words, flag);
      } else {
        TurnLater(env, cs, frames, st, words, flag, n);
        GroundedTry(env, cs[0], frames, st, words, flag);
        var a := Try(env, cs[0].mod, cs[0].cmd, frames, st, words, flag);
        if a.Passed? {
          GroundedTurn(env, cs[1..], frames, a.store, words, a.flag, n - 1);
        }
      }
    }
  }

  /** The n-th candidate's turn comes, and it takes back what is not its own. */
  ghost predicate TakesBackAt(env: Env, cs: seq<Candidate>, frames: seq<Frame>, st: Store,
                              words: seq<string>, flag: bool, n: nat)
    requires |st.records| == |env.mods| && OfTable(env, cs)
  {
    var p := Turn(env, cs, frames, st, words, flag, n);
    p.Some? && TakesBack(env, cs[n], frames, p.value.store, words)
  }

  lemma {:induction false} KeptTryAll(env: Env, cs: seq<Candidate>, frames: seq<Frame>, st: Store,
                                      words: seq<string>, flag: bool)
    requires Grounded(env, st) && OfTable(env, cs)
    requires TryAll(env, cs, frames, st, words, flag).Took?
    ensures var st' := TryAll(env, cs, frames, st, words, flag).store;
      Grounded(env, st') && (Short(st) ==> Short(st')) &&
      (Kept(env, st) ==>
        if exists n :: TakesBackAt(env, cs, frames, st, words, flag, n) then Short(st') else Kept(env, st'))
    decreases |cs|
  {
    hide Try, Turn, HasOwn, KeptBy, Short, TakesBack;
    var a := Try(env, cs[0].mod, cs[0].cmd, frames, st, words, flag);
    GroundedTry(env, cs[0], frames, st, words, flag);
    if Short(st) {
      ShortTry(env, cs[0], frames, st, words, flag);
    }
    if Kept(env, st) {
      KeptTry(env, cs[0], frames, st, words, flag);
    }
    TurnFirst(env, cs, frames, st, words, flag);
    assert TakesBackAt(env, cs, frames, st, words, flag, 0) <==> TakesBack(env, cs[0], frames, st, words);
    if a.Passed? {
      KeptTryAll(env, cs[1..], frames, a.store, words, a.flag);
      if n: nat :| TakesBackAt(env, cs[1..], frames, a.store, words, a.flag, n) {
        TurnLater(env, cs, frames, st, words, flag, n + 1);
        assert TakesBackAt(env, cs, frames, st, words, flag, n + 1);
      }
    }
    forall n: nat | 0 < n
      ensures TakesBackAt(env, cs, frames, st, words, flag, n) <==>
              a.Passed? && TakesBackAt(env, cs[1..], frames, a.store, words, a.flag, n - 1)
    {
      TurnLater(env, cs, frames, st, words, flag, n);
    }
  }

  /** The n-th candidate's turn comes, and it has no outcome. */
  ghost predicate NoOutcomeAt(env: Env, cs: seq<Candidate>, frames: seq<Frame>, st: Store,
                              words: seq<string>, flag: bool, n: nat)
    requires |st.records| == |env.mods| && OfTable(env, cs)
  {
    var p := Turn(env, cs, frames, st, words, flag, n);
    p.Some? && HasNoOutcome(env, cs[n].mod, cs[n].cmd, frames, p.value.store, words)
  }

  lemma {:induction false} UndefinedTryAll(env: Env, cs: seq<Candidate>, frames: seq<Frame>, st: Store,
                                           words: seq<string>, flag: bool)
    requires |st.records| == |env.mods| && OfTable(env, cs)
    ensures TryAll(env, cs, frames, st, words, flag) == Undefined <==>
            exists n :: NoOutcomeAt(env, cs, frames, st, words, flag, n)
    decreases |cs|
  {
    hide Try, Turn, HasNoOutcome;
    if cs != [] {
      var a := Try(env, cs[0].mod, cs[0].cmd, frames, st, words, flag);
      var ctx := TryTakes(env, cs[0], frames, st, words, flag);
      OutcomeByReply(env, cs[0].mod, cs[0].cmd, frames, st, words, flag);
      TurnFirst(env, cs, frames, st, words, flag);
      assert NoOutcomeAt(env, cs, frames, st, words, flag, 0) <==> a == Undefined;
      if a.Passed? {
        UndefinedTryAll(env, cs[1..], frames, a.store, words, a.flag);
        if n: nat :| NoOutcomeAt(env, cs[1..], frames, a.store, words, a.flag, n) {
          TurnLater(env, cs, frames, st, words, flag, n + 1);
          assert NoOutcomeAt(env, cs, frames, st, words, flag, n + 1);
        }
      }
      forall n: nat | 0 < n
        ensures NoOutcomeAt(env, cs, frames, st, words, flag, n) <==>
                a.Passed? && NoOutcomeAt(env, cs[1..], frames, a.store, words, a.flag, n - 1)
      {
        TurnLater(env, cs, frames, st, words, flag, n);
      }
    }
  }

  // ---- A directive and a run

  /** Some candidate of the directive takes back what is not its own. */
  ghost predicate Robs(env: Env, frames: seq<Frame>, st: Store, ev: Event)
    requires |st.records| == |env.mods|
  {
    ev.taken != Close && ev.words != [] &&
    var cs := Candidates(env.mods, 0, 0, ev.words[0], ev.taken);
    exists n :: TakesBackAt(env, cs, frames, st, ev.words, env.flag(st.trace), n)
  }

  /** The directive has no token, or its candidates come to one without an outcome. */
  ghost predicate NoOutcome(env: Env, frames: seq<Frame>, st: Store, ev: Event)
    requires |st.records| == |env.mods|
  {
    ev.taken != Close &&
    (ev.words == [] ||
     var cs := Candidates(env.mods, 0, 0, ev.words[0], ev.taken);
     exists n :: NoOutcomeAt(env, cs, frames, st, ev.words, env.flag(st.trace), n))
  }

  lemma {:induction false} KeptStep(env: Env, frames: seq<Frame>, st: Store, ev: Event)
    requires Grounded(env, st) && Step(env, frames, st, ev).Running?
    ensures var st' := Step(env, frames, st, ev).store;
      Grounded(env, st') && (Short(st) ==> Short(st')) &&
      (Kept(env, st) ==> if Robs(env, frames, st, ev) then Short(st') else Kept(env, st'))
  {
    hide TryAll, KeptBy, ShortBy, HasOwn, Candidates, Finish, TakesBackAt;
    if ev.taken != Close && ev.words != [] {
      KeptTryAll(env, Candidates(env.mods, 0, 0, ev.words[0], ev.taken), frames, st, ev.words, env.flag(st.trace));
    }
  }

  lemma {:induction false} LostStep(env: Env, frames: seq<Frame>, st: Store, ev: Event)
    requires |st.records| == |env.mods|
    ensures Step(env, frames, st, ev) == Lost <==> NoOutcome(env, frames, st, ev)
  {
    hide TryAll, Candidates, Finish, NoOutcomeAt;
    if ev.taken != Close && ev.words != [] {
      UndefinedTryAll(env, Candidates(env.mods, 0, 0, ev.words[0], ev.taken), frames, st, ev.words, env.flag(st.trace));
    }
  }

  /** The state in which the k-th directive is handled, if the run comes to it. */
  ghost function Reach(env: Env, frames: seq<Frame>, st: Store, evs: seq<Event>, k: nat): (s: State)
    requires |st.records| == |env.mods|
    ensures s.Running? ==> k < |evs| && |s.store.records| == |env.mods|
  {
    if k < |evs| then RunAll(env, Running(frames, st), evs[..k]) else Lost
  }

  lemma ReachFirst(env: Env, frames: seq<Frame>, st: Store, evs: seq<Event>)
    requires |st.records| == |env.mods| && evs != []
    ensures Reach(env, frames, st, evs, 0) == Running(frames, st)
  {
  }

  lemma ReachLater(env: Env, frames: seq<Frame>, st: Store, evs: seq<Event>, k: nat)
    requires |st.records| == |env.mods| && evs != [] && 0 < k
    ensures var s, r := Step(env, frames, st, evs[0]), Reach(env, frames, st, evs, k);
      if s.Running? then r == Reach(env, s.frames, s.store, evs[1..], k - 1) else !r.Running?
  {
    hide Step;
    if k < |evs| {
      assert evs[..k][1..] == evs[1..][..k - 1];
      var s := Step(env, frames, st, evs[0]);
      assert RunAll(env, Running(frames, st), evs[..k]) == RunAll(env, s, evs[1..][..k - 1]);
    }
  }

  /** The run comes to its k-th directive, and that one takes back what is not its own. */
  ghost predicate RobsAt(env: Env, frames: seq<Frame>, st: Store, evs: seq<Event>, k: nat)
    requires |st.records| == |env.mods|
  {
    var s := Reach(env, frames, st, evs, k);
    s.Running? && Robs(env, s.frames, s.store, evs[k])
  }

  lemma {:induction false} KeptRun(env: Env, frames: seq<Frame>, st: Store, evs: seq<Event>)
    requires Grounded(env, st) && RunAll(env, Running(frames, st), evs).Running?
    ensures var st' := RunAll(env, Running(frames, st), evs).store;
      Grounded(env, st') && (Short(st) ==> Short(st')) &&
      (Kept(env, st) ==> if exists k :: RobsAt(env, frames, st, evs, k) then Short(st') else Kept(env, st'))
    decreases |evs|
  {
    hide Step, KeptBy, ShortBy, HasOwn, Robs, Reach;
    if evs != [] {
      KeptStep(env, frames, st, evs[0]);
      var s := Step(env, frames, st, evs[0]);
      ReachFirst(env, frames, st, evs);
      assert RobsAt(env, frames, st, evs, 0) <==> Robs(env, frames, st, evs[0]);
      KeptRun(env, s.frames, s.store, evs[1..]);
      if k: nat :| RobsAt(env, s.frames, s.store, evs[1..], k) {
        ReachLater(env, frames, st, evs, k + 1);
        assert RobsAt(env, frames, st, evs, k + 1);
      }
      forall k: nat | 0 < k
        ensures RobsAt(env, frames, st, evs, k) <==> RobsAt(env, s.frames, s.store, evs[1..], k - 1)
      {
        ReachLater(env, frames, st, evs, k);
      }
    }
  }

  /**
   Conservation of contexts, for any table: after a run each module has stored exactly the
   contexts of its accepted directives, in the order of the text, and counts as used exactly
   when there is one, if and only if no directive of the run passes over a sub-block whose
   module has or had an array.
   */
  lemma {:induction false} KeptExactly(env: Env, frames: seq<Frame>, st: Store, evs: seq<Event>)
    requires Kept(env, st) && RunAll(env, Running(frames, st), evs).Running?
    ensures Kept(env, RunAll(env, Running(frames, st), evs).store) <==>
            !exists k :: RobsAt(env, frames, st, evs, k)
  {
    hide RunAll, KeptBy, ShortBy, HasOwn, RobsAt;
    KeptRun(env, frames, st, evs);
    var st' := RunAll(env, Running(frames, st), evs).store;
    if Short(st') {
      ShortNotKept(env, st');
    }
  }

  /** The run comes to its k-th directive, and that one has no outcome. */
  ghost predicate LostAt(env: Env, frames: seq<Frame>, st: Store, evs: seq<Event>, k: nat)
    requires |st.records| == |env.mods|
  {
    var s := Reach(env, frames, st, evs, k);
    s.Running? && NoOutcome(env, s.frames, s.store, evs[k])
  }

  /** Nothing else can end a run without an outcome. */
  lemma {:induction false} LostExactly(env: Env, frames: seq<Frame>, st: Store, evs: seq<Event>)
    requires |st.records| == |env.mods|
    ensures RunAll(env, Running(frames, st), evs) == Lost <==> exists k :: LostAt(env, frames, st, evs, k)
    decreases |evs|
  {
    hide Step, NoOutcome, Reach;
    if evs != [] {
      LostStep(env, frames, st, evs[0]);
      var s := Step(env, frames, st, evs[0]);
      ReachFirst(env, frames, st, evs);
      assert LostAt(env, frames, st, evs, 0) <==> s == Lost;
      if s.Running? {
        LostExactly(env, s.frames, s.store, evs[1..]);
        if k: nat :| LostAt(env, s.frames, s.store, evs[1..], k) {
          ReachLater(env, frames, st, evs, k + 1);
          assert LostAt(env, frames, st, evs, k + 1);
        }
      }
      forall k: nat | 0 < k
        ensures LostAt(env, frames, st, evs, k) <==> s.Running? && LostAt(env, s.frames, s.store, evs[1..], k - 1)
      {
        ReachLater(env, frames, st, evs, k);
      }
    }
  }

  // ---- Tables that need no such condition

  /**
   No module has both a command of its own and a sub-block that passes. A sub-block is asked
   when its own frame is already the innermost one.
   */
  ghost predicate SafeTable(env: Env) {
    forall trace: seq<Call>, call: Call :: AsksSubBlock(env, call) ==> env.reply(trace, call).verdict != PASS
  }

  ghost predicate AsksSubBlock(env: Env, call: Call) {
    call.Handler? && call.cmd.block && call.cmd.child && call.mod < |env.mods| && HasOwn(env.mods[call.mod]) &&
    call.view.frames != [] && call.view.frames[0] == Frame(call.mod, call.cmd, call.ctx)
  }

  lemma SafeSubBlock(env: Env, c: Candidate, frames: seq<Frame>, st: Store, words: seq<string>)
    requires SafeTable(env) && c.mod < |env.mods| && c.cmd.child && c.cmd.block && HasOwn(env.mods[c.mod])
    ensures !RepliesPass(env, c.mod, c.cmd, frames, st, words)
  {
    if frames != [] {
      var frame := Frame(c.mod, c.cmd, frames[0].ctx);
      assert AsksSubBlock(env, Call.Handler(c.mod, c.cmd, frame.ctx, View([frame] + frames, words)));
    }
  }

  lemma SafeReply(env: Env, c: Candidate, frames: seq<Frame>, st: Store, words: seq<string>)
    requires SafeTable(env) && Grounded(env, st) && c.mod < |env.mods|
    requires RepliesPass(env, c.mod, c.cmd, frames, st, words)
    ensures c.cmd.child && c.cmd.block ==> st.records[c.mod].ctxs == None
  {
    hide HasOwn, SafeTable, RepliesPass;
    if c.cmd.child && c.cmd.block && HasOwn(env.mods[c.mod]) {
      SafeSubBlock(env, c, frames, st, words);
    }
  }

  /**
   With such a table a candidate passes exactly when its callbacks do, and then leaves the
   records as they were. Only a sub-block with nothing open has no outcome.
   */
  lemma {:induction false} SafeTry(env: Env, c: Candidate, frames: seq<Frame>, st: Store,
                                   words: seq<string>, flag: bool)
    requires SafeTable(env) && Grounded(env, st) && c.mod < |env.mods| && c.cmd in env.mods[c.mod].cmds
    ensures var a := Try(env, c.mod, c.cmd, frames, st, words, flag);
      (a.Passed? <==> RepliesPass(env, c.mod, c.cmd, frames, st, words)) &&
      (a.Passed? ==> SameRecords(st, a.store) && a.store.accepted == st.accepted) &&
      (a.Took? || a.Passed? ==> Grounded(env, a.store) && (Kept(env, st) ==> Kept(env, a.store))) &&
      (a == Undefined <==> c.cmd.child && c.cmd.block && frames == [])
  {
    hide SafeTable, HasOwn, RepliesPass, KeptBy, Try;
    OutcomeByReply(env, c.mod, c.cmd, frames, st, words, flag);
    GroundedTry(env, c, frames, st, words, flag);
    var ctx := TryRecords(env, c, frames, st, words, flag);
    if RepliesPass(env, c.mod, c.cmd, frames, st, words) {
      SafeReply(env, c, frames, st, words);
      NothingToPass(env, c.mod, c.cmd, frames, st, words);
    }
    if Kept(env, st) {
      KeptTry(env, c, frames, st, words, flag);
    }
  }

  lemma NothingToPass(env: Env, i: nat, cmd: Cmd, frames: seq<Frame>, st: Store, words: seq<string>)
    requires i < |env.mods| && RepliesPass(env, i, cmd, frames, st, words)
    ensures cmd.child ==> frames != []
  {
  }

  /** Candidates that are passed over leave no mark on the records. */
  lemma {:induction false} PassedOverKeeps(env: Env, cs: seq<Candidate>, frames: seq<Frame>, st: Store,
                                           words: seq<string>, flag: bool)
    requires SafeTable(env) && Grounded(env, st) && OfTable(env, cs)
    ensures var p := AllPass(env, cs, frames, st, words, flag);
      p.Some? ==>
        SameRecords(st, p.value.store) && p.value.store.accepted == st.accepted &&
        (Kept(env, st) ==> Kept(env, p.value.store))
    decreases |cs|
  {
    hide Try, HasOwn, KeptBy, SafeTable, RepliesPass;
    if cs != [] {
      var a := Try(env, cs[0].mod, cs[0].cmd, frames, st, words, flag);
      SafeTry(env, cs[0], frames, st, words, flag);
      if a.Passed? {
        PassedOverKeeps(env, cs[1..], frames, a.store, words, a.flag);
      }
    }
  }

  lemma {:induction false} GroundedReach(env: Env, frames: seq<Frame>, st: Store, evs: seq<Event>, k: nat)
    requires Grounded(env, st)
    ensures var s := Reach(env, frames, st, evs, k);
      s.Running? ==> Grounded(env, s.store)
  {
    hide RunAll, Grounded;
    assert |st.records| == |env.mods| by { GroundedFits(env, st); }
    if Reach(env, frames, st, evs, k).Running? {
      KeptRun(env, frames, st, evs[..k]);
    }
  }

  lemma GroundedFits(env: Env, st: Store)
    requires Grounded(env, st)
    ensures |st.records| == |env.mods|
  {
  }

  /** With a safe table no directive of a run takes back what is not its own. */
  lemma {:induction false} SafeRobsNone(env: Env, frames: seq<Frame>, st: Store, evs: seq<Event>, k: nat)
    requires SafeTable(env) && Grounded(env, st)
    ensures !RobsAt(env, frames, st, evs, k)
  {
    hide SafeTable, HasOwn, RepliesPass, Reach, Turn, Candidates;
    var s := Reach(env, frames, st, evs, k);
    GroundedReach(env, frames, st, evs, k);
    if s.Running? && evs[k].words != [] {
      var words, flag := evs[k].words, env.flag(s.store.trace);
      var cs := Candidates(env.mods, 0, 0, words[0], evs[k].taken);
      forall n: nat
        ensures !TakesBackAt(env, cs, s.frames, s.store, words, flag, n)
      {
        var p := Turn(env, cs, s.frames, s.store, words, flag, n);
        GroundedTurn(env, cs, s.frames, s.store, words, flag, n);
        if p.Some? && RepliesPass(env, cs[n].mod, cs[n].cmd, s.frames, p.value.store, words) {
          SafeReply(env, cs[n], s.frames, p.value.store, words);
        }
      }
    }
  }

  /** So the contexts are kept in every run. */
  lemma {:induction false} KeptAlways(env: Env, frames: seq<Frame>, st: Store, evs: seq<Event>)
    requires SafeTable(env) && Kept(env, st)
    ensures match RunAll(env, Running(frames, st), evs)
      case Running(_, st') => Kept(env, st')
      case _ => true
  {
    hide RunAll, SafeTable, KeptBy, HasOwn, RobsAt;
    forall k: nat
      ensures !RobsAt(env, frames, st, evs, k)
    {
      SafeRobsNone(env, frames, st, evs, k);
    }
    if RunAll(env, Running(frames, st), evs).Running? {
      KeptExactly(env, frames, st, evs);
    }
  }

  /**
   And a directive has no outcome exactly when it has no token or, with nothing open, the
   turn of a sub-block comes.
   */
  lemma {:induction false} SafeNoOutcome(env: Env, frames: seq<Frame>, st: Store, ev: Event)
    requires SafeTable(env) && Grounded(env, st)
    ensures NoOutcome(env, frames, st, ev) <==>
            ev.taken != Close && (ev.words == [] || (frames == [] && ComesToSubBlock(env, frames, st, ev)))
  {
    hide SafeTable, HasOwn, RepliesPass, Turn, Candidates;
    if ev.taken != Close && ev.words != [] {
      var words, flag := ev.words, env.flag(st.trace);
      var cs := Candidates(env.mods, 0, 0, words[0], ev.taken);
      forall n: nat
        ensures NoOutcomeAt(env, cs, frames, st, words, flag, n) <==>
                frames == [] && SubBlockAt(env, cs, frames, st, words, flag, n)
      {
        var p := Turn(env, cs, frames, st, words, flag, n);
        GroundedTurn(env, cs, frames, st, words, flag, n);
        if p.Some? && RepliesPass(env, cs[n].mod, cs[n].cmd, frames, p.value.store, words) {
          SafeReply(env, cs[n], frames, p.value.store, words);
        }
      }
    }
  }

  /** The turn of a sub-block comes. */
  ghost predicate SubBlockAt(env: Env, cs: seq<Candidate>, frames: seq<Frame>, st: Store,
                             words: seq<string>, flag: bool, n: nat)
    requires |st.records| == |env.mods| && OfTable(env, cs)
  {
    Turn(env, cs, frames, st, words, flag, n).Some? && cs[n].cmd.child && cs[n].cmd.block
  }

  ghost predicate ComesToSubBlock(env: Env, frames: seq<Frame>, st: Store, ev: Event)
    requires |st.records| == |env.mods| && ev.words != []
  {
    var cs := Candidates(env.mods, 0, 0, ev.words[0], ev.taken);
    exists n :: SubBlockAt(env, cs, frames, st, ev.words, env.flag(st.trace), n)
  }
}
