/** The block stack of src/core/fs_run.h:45-97 on the intrusive list and the context array. */
module RunStack {
  import opened Options
  import opened Arrays
  import opened Queues
  import opened Modules
  import opened Rooms

  /** `fs_st_mod_t`: its pointer to a context is an array and a place in it. */
  datatype StMod = StMod(mod: nat, cmd: Cmd, home: array<Ctx>, slot: nat)

  /** Every frame has a slot among the first `count`, higher than those of the frames around it. */
  ghost predicate Slotted(links: seq<Link<StMod>>, count: nat) {
    (forall i :: 0 <= i < |links| ==> links[i].payload.Some? && links[i].payload.value.slot < count) &&
    (forall i, j :: 0 <= i < j < |links| ==> links[j].payload.value.slot < links[i].payload.value.slot)
  }

  /** The frames, innermost first, each with the context its own slot holds. */
  ghost function FramesOf(links: seq<Link<StMod>>, slots: seq<Ctx>): (fs: seq<Frame>)
    requires Slotted(links, |slots|)
    ensures |fs| == |links|
    ensures forall i :: 0 <= i < |links| ==>
              var m := links[i].payload.value; fs[i] == Frame(m.mod, m.cmd, slots[m.slot])
  {
    if links == [] then []
    else
      var m := links[0].payload.value;
      [Frame(m.mod, m.cmd, slots[m.slot])] + FramesOf(links[1..], slots)
  }

  lemma FramesKept(links: seq<Link<StMod>>, slots: seq<Ctx>, more: seq<Ctx>)
    requires Slotted(links, |slots|) && slots <= more
    ensures Slotted(links, |more|) && FramesOf(links, more) == FramesOf(links, slots)
  {
  }

  /** Pushing a frame with a new last slot disturbs no other frame. */
  lemma FramesPush(links: seq<Link<StMod>>, slots: seq<Ctx>, node: Link<StMod>, held: Ctx)
    requires Slotted(links, |slots|)
    requires node.payload.Some? && node.payload.value.slot == |slots|
    ensures Slotted([node] + links, |slots| + 1)
    ensures var m := node.payload.value;
      FramesOf([node] + links, slots + [held]) == [Frame(m.mod, m.cmd, held)] + FramesOf(links, slots)
  {
    hide FramesOf;
    var all, more := [node] + links, slots + [held];
    assert forall i :: 0 < i < |all| ==> all[i] == links[i - 1];
    FramesKept(links, slots, more);
    assert FramesOf(all, more)[0] == Frame(node.payload.value.mod, node.payload.value.cmd, held);
    assert forall i :: 0 < i < |all| ==> FramesOf(all, more)[i] == FramesOf(links, more)[i - 1];
  }

  /** Popping the innermost frame disturbs no other, whether or not its slot is given back. */
  lemma FramesPop(links: seq<Link<StMod>>, slots: seq<Ctx>)
    requires Slotted(links, |slots|) && links != []
    ensures Slotted(links[1..], |slots|) && FramesOf(links[1..], slots) == FramesOf(links, slots)[1..]
    ensures links[0].payload.value.slot == |slots| - 1 ==>
              Slotted(links[1..], |slots| - 1) &&
              FramesOf(links[1..], slots[..|slots| - 1]) == FramesOf(links, slots)[1..]
  {
    var rest := links[1..];
    assert forall i :: 0 <= i < |rest| ==> rest[i] == links[i + 1];
    if links[0].payload.value.slot == |slots| - 1 {
      assert Slotted(rest, |slots| - 1);
      FramesKept(rest, slots[..|slots| - 1], slots);
    }
  }

  /** A frame's pointer is into the present array, or into a smaller one that was released. */
  ghost predicate Homed(links: seq<Link<StMod>>, elems: array<Ctx>) {
    forall i :: 0 <= i < |links| ==>
      links[i].payload.Some? &&
      var home := links[i].payload.value.home;
      home.Length <= elems.Length && (home.Length == elems.Length ==> home == elems)
  }

  /** The sizes of the arrays that the frames' pointers were taken from. */
  ghost function HomesOf(links: seq<Link<StMod>>, elems: array<Ctx>): (r: seq<nat>)
    requires Homed(links, elems)
    ensures |r| == |links|
    ensures forall i :: 0 <= i < |links| ==> r[i] <= elems.Length
    ensures forall i :: 0 <= i < |links| ==> (r[i] == elems.Length <==> links[i].payload.value.home == elems)
  {
    seq(|links|, i requires 0 <= i < |links| => links[i].payload.value.home.Length)
  }

  lemma HomesPush(links: seq<Link<StMod>>, node: Link<StMod>, elems: array<Ctx>, now: array<Ctx>)
    requires Homed(links, elems) && node.payload.Some? && node.payload.value.home == now
    requires now == elems || elems.Length < now.Length
    ensures Homed([node] + links, now)
    ensures HomesOf([node] + links, now) == [now.Length] + HomesOf(links, elems)
  {
    var all := [node] + links;
    assert forall i :: 0 < i < |all| ==> all[i] == links[i - 1];
  }

  lemma HomesPop(links: seq<Link<StMod>>, elems: array<Ctx>)
    requires Homed(links, elems) && links != []
    ensures Homed(links[1..], elems) && HomesOf(links[1..], elems) == HomesOf(links, elems)[1..]
  {
    assert forall i :: 0 <= i < |links| - 1 ==> links[1..][i] == links[i + 1];
  }

  class Run {
    const stMod: Queue<StMod>
    const ctx: Arr<Ctx>
    var depth: int

    ghost var Repr: set<object>

    ghost predicate Valid()
      reads this, Repr
      ensures Valid() ==> this in Repr
    {
      {this, stMod, ctx} <= Repr && ctx.elems in Repr && (forall l :: l in stMod.ring ==> l in Repr) &&
      stMod.Valid() && ctx.Valid() && depth == |stMod.Members()| && Slotted(stMod.Members(), ctx.count) &&
      Homed(stMod.Members(), ctx.elems)
    }

    ghost function Frames(): (fs: seq<Frame>)
      requires Valid()
      reads this, Repr
      ensures |fs| == depth
    {
      FramesOf(stMod.Members(), ctx.Contents())
    }

    /** The array of contexts and the frames' pointers into it. */
    ghost function Memory(): (m: Room)
      requires Valid()
      reads this, Repr
      ensures |m.homes| == depth && m.taken <= m.capacity && 0 < m.capacity
      ensures forall k :: 0 <= k < |m.homes| ==> m.homes[k] <= m.capacity
    {
      Room(ctx.count, ctx.capa, HomesOf(stMod.Members(), ctx.elems), false)
    }

    /** Every open frame's pointer is into the present array. */
    ghost predicate Intact()
      requires Valid()
      reads this, Repr
    {
      AllLive(Memory())
    }

    /** The innermost frame owns the last slot, as right after it was pushed. */
    ghost predicate TopOwnsLast()
      requires Valid()
      reads this, Repr
    {
      0 < depth && stMod.Members()[0].payload.value.slot == ctx.count - 1
    }

    constructor ()
      ensures Valid() && Frames() == [] && Memory() == Room(0, 8, [], false)
      ensures fresh(Repr)
    {
      hide FramesOf, IsRing, Arr.Valid;
      stMod := new Queue();
      ctx := new Arr(8);
      depth := 0;
      new;
      ctx.Sizes();
      Repr := {this, stMod, stMod.head, ctx, ctx.elems};
    }

    method IsEmpty() returns (r: bool)
      requires Valid()
      ensures r == (Frames() == [])
    {
      r := stMod.IsEmpty();
    }

    /** The changes `fs_run_st_push` makes to the depth, the list and the array of contexts. */
    method AddFrame(mod: nat, cmd: Cmd, held: Ctx) returns (node: Link<StMod>)
      requires Valid()
      modifies this`depth, stMod`ring, stMod.ring, ctx, ctx.elems
      ensures fresh(node) && node.payload == Some(StMod(mod, cmd, ctx.elems, old(ctx.count)))
      ensures stMod.Valid() && stMod.Members() == [node] + old(stMod.Members())
      ensures forall l :: l in stMod.ring ==> l == node || l in old(stMod.ring)
      ensures ctx.Valid() && ctx.Contents() == old(ctx.Contents()) + [held]
      ensures if old(ctx.count < ctx.capa) then ctx.elems == old(ctx.elems) else fresh(ctx.elems)
      ensures ctx.capa == if old(ctx.count < ctx.capa) then old(ctx.capa) else 2 * old(ctx.capa)
      ensures depth == old(depth) + 1
    {
      hide FramesOf, Slotted, Queue.Valid, Arr.Valid;
      stMod.HeadFirst();
      depth := depth + 1;
      var slot := ctx.count;
      ctx.Push(held);
      node := new Link(Some(StMod(mod, cmd, ctx.elems, slot)));
      stMod.InsertAfter(stMod.head, node, 0);
    }

    /** `fs_run_st_push`: a new innermost frame with a new slot, which holds anything at first. */
    method Push(mod: nat, cmd: Cmd, held: Ctx)
      requires Valid()
      modifies Repr
      ensures Valid() && fresh(Repr - old(Repr))
      ensures Frames() == [Frame(mod, cmd, held)] + old(Frames())
      ensures TopOwnsLast() && Memory() == Enter(old(Memory()))
      ensures Intact() <==> old(Frames()) == [] || (old(Intact()) && old(ctx.count < ctx.capa))
    {
      hide FramesOf, HomesOf, Homed, Slotted, Queue.Valid, Arr.Valid;
      ghost var members, slots, elems, before := stMod.Members(), ctx.Contents(), ctx.elems, Memory();
      ctx.Sizes();
      var node := AddFrame(mod, cmd, held);
      ctx.Sizes();
      FramesPush(members, slots, node, held);
      HomesPush(members, node, elems, ctx.elems);
      EnterLive(before);
      Repr := Repr + {node, ctx.elems};
    }

    /** The changes `fs_run_st_pop` makes. */
    method DropFrame()
      requires stMod.Valid() && stMod.Members() != []
      modifies this`depth, stMod`ring, stMod.ring
      ensures stMod.Valid() && stMod.Members() == old(stMod.Members())[1..]
      ensures forall l :: l in stMod.ring ==> l in old(stMod.ring)
      ensures depth == old(depth) - 1
    {
      hide IsRing;
      depth := depth - 1;
      var top := stMod.First();
      stMod.Remove(top, 1);
    }

    /** `fs_run_st_pop`: the innermost frame goes; its slot stays taken. */
    method Pop()
      requires Valid() && 0 < depth
      modifies Repr
      ensures Valid() && Repr == old(Repr)
      ensures Frames() == old(Frames())[1..] && Memory() == Leave(old(Memory()))
    {
      hide FramesOf, HomesOf, Homed, Queue.Valid, Arr.Valid;
      ghost var members := stMod.Members();
      FramesPop(members, ctx.Contents());
      HomesPop(members, ctx.elems);
      DropFrame();
    }

    /** The rollback of a frame just pushed: its slot is given back, then it is popped. */
    method Unwind()
      requires Valid() && TopOwnsLast()
      modifies Repr
      ensures Valid() && Repr == old(Repr)
      ensures Frames() == old(Frames())[1..] && Memory() == GiveBack(old(Memory()))
    {
      hide FramesOf, HomesOf, Homed, Queue.Valid, Arr.Valid;
      ghost var members, slots := stMod.Members(), ctx.Contents();
      FramesPop(members, slots);
      HomesPop(members, ctx.elems);
      ctx.DropLast();
      DropFrame();
    }

    method Top() returns (top: StMod)
      requires Valid() && 0 < depth
      ensures 0 < |stMod.ring| - 1 && Some(top) == stMod.ring[1].payload
      ensures top.slot < ctx.count && Frames()[0] == Frame(top.mod, top.cmd, ctx.Contents()[top.slot])
    {
      var first := stMod.First();
      top := first.payload.value;
    }

    /** All the open frames, as the callbacks can reach them through the list. */
    method Snapshot() returns (fs: seq<Frame>)
      requires Valid()
      ensures fs == Frames()
    {
      hide FramesOf, Homed, Queue.Valid, Arr.Valid;
      stMod.HeadFirst();
      fs := [];
      var l := stMod.head;
      for n := 0 to depth
        invariant l == stMod.ring[n]
        invariant fs == Frames()[..n]
      {
        stMod.NextOf(n);
        l := l.next;
        assert l == stMod.Members()[n];
        var m := l.payload.value;
        var c := ctx.Get(m.slot);
        assert Frames()[n] == Frame(m.mod, m.cmd, c);
        fs := fs + [Frame(m.mod, m.cmd, c)];
      }
    }

    /** `*fs_run_st_top_ctx`; `live` tells whether the pointer is into the present array. */
    method TopCtx() returns (c: Ctx, ghost live: bool)
      requires Valid() && 0 < depth
      ensures c == Frames()[0].ctx && live == Live(Memory(), 0)
    {
      hide FramesOf;
      var top := Top();
      ctx.Sizes();
      assert stMod.Members()[0].payload == Some(top);
      c := ctx.Get(top.slot);
      live := top.home == ctx.elems;
    }

    /** `*fs_run_st_subtop_ctx`: the context of the frame below the innermost one. */
    method SubtopCtx() returns (c: Ctx, ghost live: bool)
      requires Valid() && 1 < depth
      ensures c == Frames()[1].ctx && live == Live(Memory(), 1)
    {
      hide FramesOf;
      var second := stMod.Second();
      ctx.Sizes();
      c := ctx.Get(second.payload.value.slot);
      live := second.payload.value.home == ctx.elems;
    }

    /** The innermost frame's slot is set; no other frame sees a change. */
    method SetTopCtx(c: Ctx)
      requires Valid() && 0 < depth
      modifies Repr
      ensures Valid() && Repr == old(Repr)
      ensures Frames() == [old(Frames())[0].(ctx := c)] + old(Frames())[1..]
      ensures Memory() == old(Memory()) && TopOwnsLast() == old(TopOwnsLast())
    {
      var top := Top();
      ctx.Set(top.slot, c);
    }

    /**
     A frame that runs in the context of the frame around it: its slot gets a copy
     (src/core/fs_conf.c:397-404). There is none to copy when nothing was open, and what is
     copied is released memory unless the pointer around was live and the array had room.
     */
    method PushInheriting(mod: nat, cmd: Cmd, held: Ctx) returns (ok: bool, c: Ctx, ghost live: bool)
      requires Valid()
      modifies Repr
      ensures Valid() && fresh(Repr - old(Repr))
      ensures ok == (old(Frames()) != [])
      ensures ok ==> c == old(Frames())[0].ctx
      ensures ok ==> Frames() == [Frame(mod, cmd, c)] + old(Frames()) && TopOwnsLast()
      ensures Memory() == Enter(old(Memory()))
      ensures ok ==> live == Live(Memory(), 1) == (Live(old(Memory()), 0) && old(ctx.count < ctx.capa))
    {
      hide FramesOf, HomesOf, Homed, IsRing, Slotted, Valid, Frames, TopOwnsLast;
      var empty := IsEmpty();
      Push(mod, cmd, held);
      if empty {
        return false, held, true;
      }
      c, live := SubtopCtx();
      SetTopCtx(c);
      ok := true;
    }
  }

  /**
   A block with n sub-blocks, one after another, and the last one still open. It takes n + 1
   slots, and a block that has ended gives none back: with an eighth sub-block the array of
   eight grows, and the open block's pointer is left behind in released memory.
   */
  method SubBlocks(block: Cmd, sub: Cmd, n: nat) returns (run: Run, ghost live: bool)
    requires 0 < n
    ensures run.Valid() && |run.Frames()| == 2
    ensures run.Intact() <==> n <= 7
    ensures live <==> n <= 7
  {
    hide Run.Valid, Run.Frames, Run.Memory;
    run := new Run();
    run.Push(0, block, 0);
    var i := 0;
    live := true;
    while i < n
      invariant i <= n && run.Valid() && fresh(run.Repr)
      invariant |run.Frames()| == if i == 0 then 1 else 2
      invariant var m := run.Memory();
        m.taken == i + 1 && (if i <= 7 then m.capacity == 8 else 8 < m.capacity) &&
        m.homes[|m.homes| - 1] == 8 && (i <= 7 ==> m.homes[0] == 8)
      invariant live <==> i <= 7
    {
      if i > 0 {
        run.Pop();
      }
      var ok, c;
      ok, c, live := run.PushInheriting(1, sub, 0);
      i := i + 1;
    }
    assert Live(run.Memory(), 1) <==> n <= 7;
  }
}
