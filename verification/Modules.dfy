/**
 The module table and what the dispatcher keeps about it (src/core/fs_mod.h,
 src/core/fs_cmd.h). The modules' callbacks are arbitrary: what they reply may depend on
 every earlier callback, on the open frames and on the tokens of the directive.
 */
module Modules {
  import opened Options

  /** A command; `call` names its callback. */
  datatype Cmd = Cmd(token: string, call: nat, block: bool, child: bool)

  datatype Module = Module(cmds: seq<Cmd>, hasInit: bool, hasCompleted: bool)

  /** A context pointer, as opaque as the source's `void *`. */
  type Ctx = int

  /** An open block: its module, its command and the context its slot holds. */
  datatype Frame = Frame(mod: nat, cmd: Cmd, ctx: Ctx)

  /** What a callback can see of the run: the open frames, innermost first, and the tokens. */
  datatype View = View(frames: seq<Frame>, words: seq<string>)

  datatype Call =
    | Init(mod: nat, cmd: Cmd, view: View)
    | Handler(mod: nat, cmd: Cmd, ctx: Ctx, view: View)
    | Completed(mod: nat, ctx: Ctx, view: View)
    | Inited(mod: nat, ctxs: seq<Ctx>)

  datatype Verdict = OK | PASS | ERROR

  /** A callback's return value, and the context `init_mod` makes. */
  datatype Reply = Reply(verdict: Verdict, ctx: Ctx)

  /**
   The modules and their callbacks. `held` is what a fresh context slot happens to hold and
   `flag` what the uninitialised local `first` of src/core/fs_conf.c:342 happens to hold.
   */
  datatype Env = Env(
    mods: seq<Module>,
    reply: (seq<Call>, Call) -> Reply,
    held: seq<Call> -> Ctx,
    flag: seq<Call> -> bool)

  /** `used` and `ctxs` of a module; None is the null pointer before any block was accepted. */
  datatype Record = Record(used: bool, ctxs: Option<seq<Ctx>>)

  /** The contexts a module has stored. A released array is no longer read. */
  function Stored(r: Record): seq<Ctx> {
    if r.used && r.ctxs.Some? then r.ctxs.value else []
  }

  /** An accepted directive: the command that took it and the context it ran in. */
  datatype Acceptance = Acceptance(mod: nat, cmd: Cmd, ctx: Ctx, words: seq<string>)

  /** What the run keeps besides the stack: the modules' records and the history. */
  datatype Store = Store(records: seq<Record>, trace: seq<Call>, accepted: seq<Acceptance>)
}
