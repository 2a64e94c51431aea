/**
 What one directive does to the run: the reference definition of `fs_conf_handle`
 (src/core/fs_conf.c:337-467). It never pushes what it would have to undo: a candidate that
 passes leaves no frame behind. The method of Handler.dfy, which pushes first and rolls
 back, is proved to do the same.
 */
module Dispatch {
  import opened Options
  import opened Lexer
  import opened Modules

  /** What came of offering a directive to a command. */
  datatype Attempt =
    | Took(store: Store, pushed: Option<Frame>)  // accepted; a block leaves its frame open
    | Passed(store: Store, flag: bool)
    | Failed(store: Store)
    | Undefined                                   // the source would read or write what is not there

  /** The name test of src/core/fs_str.h:87: the command's token is a prefix of the name. */
  predicate Matches(token: string, name: string) {
    token <= name
  }

  /**
   The source compares over the shorter of the two sizes, and a scanned name's size counts
   its terminator and what its escapes left over. For a command's token, which holds no
   terminator, that is the prefix test on the name's text.
   */
  lemma MatchesBytes(token: string, name: string, left: string)
    requires '\0' !in token
    ensures var bytes := name + "\0" + left;
      var n := if |token| < |bytes| then |token| else |bytes|;
      token[..n] == bytes[..n] <==> Matches(token, name)
  {
    var bytes := name + "\0" + left;
    assert bytes[..|name|] == name && bytes[|name|] == '\0';
    if |name| < |token| {
      assert token[|name|] in token;
    } else {
      assert bytes[..|token|] == name[..|token|];
    }
  }

  /** The command's name and shape fit the directive. */
  predicate Fits(cmd: Cmd, name: string, taken: Taken) {
    Matches(cmd.token, name) && cmd.block == (taken == Open)
  }

  /** One record per module; a used module has its array of contexts. */
  ghost predicate Sound(env: Env, st: Store) {
    |st.records| == |env.mods| &&
    forall i :: 0 <= i < |st.records| && st.records[i].used ==> st.records[i].ctxs.Some?
  }

  function Told(st: Store, call: Call): Store {
    st.(trace := st.trace + [call])
  }

  /** A directive inside a block, for the block's own context. */
  function TryParam(env: Env, i: nat, cmd: Cmd, frames: seq<Frame>, st: Store,
                    words: seq<string>, flag: bool): Attempt
  {
    if frames == [] then Failed(st)
    else
      var ctx := frames[0].ctx;
      var call := Handler(i, cmd, ctx, View(frames, words));
      match env.reply(st.trace, call).verdict
      case OK => Took(Told(st, call).(accepted := st.accepted + [Acceptance(i, cmd, ctx, words)]), None)
      case PASS => Passed(Told(st, call), flag)
      case ERROR => Failed(Told(st, call))
  }

  /**
   The rollback of src/core/fs_conf.c:435-441: the last stored context is given up if the
   module has an array, and with `first` the module counts as unused again. None when the
   array was released or has nothing left to give up.
   */
  function RolledBack(r: Record, first: bool): Option<Record> {
    if r.ctxs.Some? && (!r.used || r.ctxs.value == []) then None
    else
      var ctxs := if r.ctxs.Some? then Some(r.ctxs.value[..|r.ctxs.value| - 1]) else None;
      Some(Record(r.used && !first, ctxs))
  }

  /** A block inside a block: it runs in the enclosing frame's context. */
  function TrySubBlock(env: Env, i: nat, cmd: Cmd, frames: seq<Frame>, st: Store,
                       words: seq<string>, flag: bool): Attempt
    requires i < |st.records|
  {
    if frames == [] then Undefined
    else
      var frame := Frame(i, cmd, frames[0].ctx);
      var call := Handler(i, cmd, frame.ctx, View([frame] + frames, words));
      match env.reply(st.trace, call).verdict
      case OK => Took(Told(st, call).(accepted := st.accepted + [Acceptance(i, cmd, frame.ctx, words)]), Some(frame))
      case PASS =>
        // nothing was stored for a sub-block, but the source takes something back
        (match RolledBack(st.records[i], flag)
         case None => Undefined
         case Some(r) => Passed(Told(st, call).(records := st.records[i := r]), flag))
      case ERROR => Failed(Told(st, call))
  }

  /** The record of a module that has just stored a context. */
  function WithCtx(r: Record, ctx: Ctx): Record {
    Record(true, Some((if r.used && r.ctxs.Some? then r.ctxs.value else []) + [ctx]))
  }

  /** A block or a single directive of its own: it gets a context and the module keeps it. */
  function TryOwn(env: Env, i: nat, cmd: Cmd, frames: seq<Frame>, st: Store, words: seq<string>, flag: bool): Attempt
    requires i < |st.records| == |env.mods|
  {
    var held := env.held(st.trace);
    if !env.mods[i].hasInit then TryOwnWith(env, i, cmd, held, frames, st, words)
    else
      var call := Init(i, cmd, View([Frame(i, cmd, held)] + frames, words));
      var reply := env.reply(st.trace, call);
      match reply.verdict
      case OK => TryOwnWith(env, i, cmd, reply.ctx, frames, Told(st, call), words)
      case PASS => Passed(Told(st, call), flag)
      case ERROR => Failed(Told(st, call))
  }

  function TryOwnWith(env: Env, i: nat, cmd: Cmd, ctx: Ctx, frames: seq<Frame>, st: Store, words: seq<string>): Attempt
    requires i < |st.records| == |env.mods|
  {
    var frame := Frame(i, cmd, ctx);
    var view := View([frame] + frames, words);
    var call := Handler(i, cmd, ctx, view);
    var r := st.records[i];
    var st1 := Told(st, call);
    match env.reply(st.trace, call).verdict
    case OK =>
      var st2 := st1.(records := st.records[i := WithCtx(r, ctx)],
                      accepted := st.accepted + [Acceptance(i, cmd, ctx, words)]);
      if cmd.block then Took(st2, Some(frame)) else Finish(env, frame, view, st2)
    case PASS =>
      // the context is given up again; an array made for it stays behind, released
      Passed(if r.used then st1 else st1.(records := st.records[i := Record(false, Some([]))]), !r.used)
    case ERROR => Failed(st1.(records := st.records[i := WithCtx(r, ctx)]))
  }

  /** The end of a block, or of a single directive: the module hears of its own context. */
  function Finish(env: Env, frame: Frame, view: View, st: Store): (r: Attempt)
    ensures r.Failed? || (r.Took? && r.pushed == None)
    ensures r.store.records == st.records && r.store.accepted == st.accepted
  {
    if frame.mod < |env.mods| && env.mods[frame.mod].hasCompleted && !frame.cmd.child then
      var call := Completed(frame.mod, frame.ctx, view);
      if env.reply(st.trace, call).verdict == OK then Took(Told(st, call), None) else Failed(Told(st, call))
    else Took(st, None)
  }

  function Try(env: Env, i: nat, cmd: Cmd, frames: seq<Frame>, st: Store, words: seq<string>, flag: bool): Attempt
    requires i < |st.records| == |env.mods|
  {
    if cmd.child && !cmd.block then TryParam(env, i, cmd, frames, st, words, flag)
    else if cmd.child then TrySubBlock(env, i, cmd, frames, st, words, flag)
    else TryOwn(env, i, cmd, frames, st, words, flag)
  }

  /** A command of the table that fits: its place and itself. */
  datatype Candidate = Candidate(mod: nat, index: nat, cmd: Cmd)

  /** Table order: by module, then by the place among the module's commands. */
  predicate Before(a: Candidate, b: Candidate) {
    a.mod < b.mod || (a.mod == b.mod && a.index < b.index)
  }

  /** A command that the search comes to: none before it in its module ends the list. */
  predicate Listed(mods: seq<Module>, c: Candidate) {
    c.mod < |mods| && c.index < |mods[c.mod].cmds| && mods[c.mod].cmds[c.index] == c.cmd &&
    forall k :: 0 <= k <= c.index ==> mods[c.mod].cmds[k].token != []
  }

  /** The fitting commands from module i's j-th on, in table order. */
  function Candidates(mods: seq<Module>, i: nat, j: nat, name: string, taken: Taken): (cs: seq<Candidate>)
    ensures forall c <- cs :: c.mod < |mods| && c.cmd in mods[c.mod].cmds && Fits(c.cmd, name, taken)
    decreases |mods| - i, if i < |mods| then |mods[i].cmds| - j else 0
  {
    if i >= |mods| then []
    else if j >= |mods[i].cmds| || mods[i].cmds[j].token == [] then Candidates(mods, i + 1, 0, name, taken)
    else
      (if Fits(mods[i].cmds[j], name, taken) then [Candidate(i, j, mods[i].cmds[j])] else [])
      + Candidates(mods, i, j + 1, name, taken)
  }

  lemma CandidatesAt(mods: seq<Module>, i: nat, j: nat, name: string, taken: Taken)
    ensures Candidates(mods, i, j, name, taken) ==
            if i >= |mods| then []
            else if j >= |mods[i].cmds| || mods[i].cmds[j].token == [] then Candidates(mods, i + 1, 0, name, taken)
            else
              (if Fits(mods[i].cmds[j], name, taken) then [Candidate(i, j, mods[i].cmds[j])] else [])
              + Candidates(mods, i, j + 1, name, taken)
  {
  }

  /** Every listed command that fits is a candidate. */
  lemma {:induction false} CandidatesComplete(mods: seq<Module>, i: nat, j: nat, name: string, taken: Taken,
                                              c: Candidate)
    requires Listed(mods, c) && Fits(c.cmd, name, taken)
    requires i < c.mod || (i == c.mod && j <= c.index)
    ensures c in Candidates(mods, i, j, name, taken)
    decreases |mods| - i, if i < |mods| then |mods[i].cmds| - j else 0
  {
    hide Candidates, Fits;
    CandidatesAt(mods, i, j, name, taken);
    if j >= |mods[i].cmds| || mods[i].cmds[j].token == [] {
      CandidatesComplete(mods, i + 1, 0, name, taken, c);
    } else if i != c.mod || j != c.index {
      CandidatesComplete(mods, i, j + 1, name, taken, c);
    }
  }

  lemma {:induction false} CandidatesListed(mods: seq<Module>, i: nat, j: nat, name: string, taken: Taken, c: Candidate)
    requires c in Candidates(mods, i, j, name, taken)
    ensures i < c.mod || (i == c.mod && j <= c.index)
    ensures c.mod < |mods| && c.index < |mods[c.mod].cmds| && mods[c.mod].cmds[c.index] == c.cmd
    ensures forall k :: (if c.mod == i then j else 0) <= k <= c.index ==> mods[c.mod].cmds[k].token != []
    decreases |mods| - i, if i < |mods| then |mods[i].cmds| - j else 0
  {
    hide Candidates, Fits;
    CandidatesAt(mods, i, j, name, taken);
    if i >= |mods| {
      assert false;
    } else if j >= |mods[i].cmds| || mods[i].cmds[j].token == [] {
      CandidatesListed(mods, i + 1, 0, name, taken, c);
    } else if c != Candidate(i, j, mods[i].cmds[j]) {
      CandidatesListed(mods, i, j + 1, name, taken, c);
    }
  }

  /** The candidates come in strict table order. */
  lemma {:induction false} CandidatesSorted(mods: seq<Module>, i: nat, j: nat, name: string, taken: Taken)
    ensures var cs := Candidates(mods, i, j, name, taken);
      forall k, l :: 0 <= k < l < |cs| ==> Before(cs[k], cs[l])
    decreases |mods| - i, if i < |mods| then |mods[i].cmds| - j else 0
  {
    hide Candidates, Fits, Before;
    CandidatesAt(mods, i, j, name, taken);
    if i < |mods| {
      if j >= |mods[i].cmds| || mods[i].cmds[j].token == [] {
        CandidatesSorted(mods, i + 1, 0, name, taken);
      } else {
        CandidatesSorted(mods, i, j + 1, name, taken);
        FirstBefore(mods, i, j, name, taken);
      }
    }
  }

  lemma FirstBefore(mods: seq<Module>, i: nat, j: nat, name: string, taken: Taken)
    requires i < |mods| && j < |mods[i].cmds|
    ensures forall c <- Candidates(mods, i, j + 1, name, taken) :: Before(Candidate(i, j, mods[i].cmds[j]), c)
  {
    hide Candidates;
    forall c <- Candidates(mods, i, j + 1, name, taken)
      ensures Before(Candidate(i, j, mods[i].cmds[j]), c)
    {
      CandidatesListed(mods, i, j + 1, name, taken, c);
    }
  }

  /**
   The candidates are exactly the listed commands whose token the name begins with: the
   blocks for a directive that opens one, the others for one that does not.
   */
  lemma CandidatesExact(mods: seq<Module>, name: string, taken: Taken, c: Candidate)
    ensures c in Candidates(mods, 0, 0, name, taken) <==>
            Listed(mods, c) && c.cmd.token <= name && (c.cmd.block <==> taken == Open)
  {
    if c in Candidates(mods, 0, 0, name, taken) {
      CandidatesListed(mods, 0, 0, name, taken, c);
    }
    if Listed(mods, c) && Fits(c.cmd, name, taken) {
      CandidatesComplete(mods, 0, 0, name, taken, c);
    }
  }

  /** The candidates in turn, until one does not pass. */
  function TryAll(env: Env, cs: seq<Candidate>, frames: seq<Frame>, st: Store,
                  words: seq<string>, flag: bool): (r: Attempt)
    requires |st.records| == |env.mods| && forall c <- cs :: c.mod < |env.mods|
    ensures !r.Passed?
    ensures r.Took? || r.Failed? ==> |r.store.records| == |env.mods|
    decreases |cs|
  {
    if cs == [] then Failed(st)
    else
      match Try(env, cs[0].mod, cs[0].cmd, frames, st, words, flag)
      case Passed(st', flag') => TryAll(env, cs[1..], frames, st', words, flag')
      case r => r
  }

  lemma TryAllNone(env: Env, frames: seq<Frame>, st: Store, words: seq<string>, flag: bool)
    requires |st.records| == |env.mods|
    ensures TryAll(env, [], frames, st, words, flag) == Failed(st)
  {
  }

  /** A directive that is not a block's end. Without a token there is no name to go by. */
  function Select(env: Env, frames: seq<Frame>, st: Store, ev: Event): (r: Attempt)
    requires |st.records| == |env.mods|
    ensures !r.Passed?
    ensures r.Took? || r.Failed? ==> |r.store.records| == |env.mods|
  {
    if ev.words == [] then Undefined
    else TryAll(env, Candidates(env.mods, 0, 0, ev.words[0], ev.taken), frames, st, ev.words, env.flag(st.trace))
  }

  /** The dispatcher's state: the open frames, innermost first, and the store. */
  datatype State = Running(frames: seq<Frame>, store: Store) | Stopped(store: Store) | Lost

  function Step(env: Env, frames: seq<Frame>, st: Store, ev: Event): (s: State)
    requires |st.records| == |env.mods|
    ensures !s.Lost? ==> |s.store.records| == |env.mods|
  {
    if ev.taken == Close then
      if frames == [] then Stopped(st)
      else
        match Finish(env, frames[0], View(frames, ev.words), st)
        case Took(st', _) => Running(frames[1..], st')
        case Failed(st') => Stopped(st')
        case _ => Lost
    else
      match Select(env, frames, st, ev)
      case Took(st', None) => Running(frames, st')
      case Took(st', Some(frame)) => Running([frame] + frames, st')
      case Failed(st') => Stopped(st')
      case _ => Lost
  }

  /** A state whose store has a record for every module. */
  predicate Fitting(env: Env, s: State) {
    !s.Lost? ==> |s.store.records| == |env.mods|
  }

  /** A run of the dispatcher over directives, until one stops it. */
  function RunAll(env: Env, s: State, evs: seq<Event>): (r: State)
    requires Fitting(env, s)
    ensures Fitting(env, r)
    decreases |evs|
  {
    if evs == [] || !s.Running? then s
    else RunAll(env, Step(env, s.frames, s.store, evs[0]), evs[1..])
  }

  function Start(env: Env): Store {
    Store(seq(|env.mods|, _ => Record(false, None)), [], [])
  }
}
