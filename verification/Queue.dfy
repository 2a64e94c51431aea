/** The intrusive circular list of src/core/fs_queue.h. */
module Queues {
  import opened Options

  /** A list link inside its owner; the list's head has no payload. */
  class Link<T(0)> {
    var prev: Link<T>
    var next: Link<T>
    const payload: Option<T>

    /** `fs_queue_init`: a link alone is a ring of one. */
    constructor (owner: Option<T>)
      ensures prev == next == this && payload == owner
    {
      payload := owner;
      prev, next := this, this;
    }
  }

  /** The two links are neighbours: `next` and `prev` are inverses between them. */
  ghost predicate Linked<T(0)>(a: Link<T>, b: Link<T>)
    reads a, b
  {
    a.next == b && b.prev == a
  }

  /** The links, from the head on, form one cycle. */
  ghost predicate IsRing<T(0)>(ring: seq<Link<T>>)
    reads ring
  {
    0 < |ring| &&
    (forall i, j :: 0 <= i < j < |ring| ==> ring[i] != ring[j]) &&
    (forall i :: 0 <= i < |ring| - 1 ==> Linked(ring[i], ring[i + 1])) &&
    Linked(ring[|ring| - 1], ring[0])
  }

  /** A link tied in after the k-th one, while the others kept their neighbours. */
  lemma RingInsert<T(0)>(r: seq<Link<T>>, q: Link<T>, k: nat)
    requires k < |r| && q !in r
    requires forall i, j :: 0 <= i < j < |r| ==> r[i] != r[j]
    requires forall j :: 0 <= j < |r| - 1 && j != k ==> Linked(r[j], r[j + 1])
    requires k == |r| - 1 || Linked(r[|r| - 1], r[0])
    requires Linked(r[k], q) && Linked(q, if k == |r| - 1 then r[0] else r[k + 1])
    ensures IsRing(r[..k + 1] + [q] + r[k + 1..])
  {
    hide Linked;
  }

  class Queue<T(0)> {
    const head: Link<T>
    ghost var ring: seq<Link<T>>   // the head and then the members in order

    ghost predicate Valid()
      reads this, ring
    {
      0 < |ring| && ring[0] == head && IsRing(ring)
    }

    ghost function Members(): seq<Link<T>>
      requires Valid()
      reads this, ring
    {
      ring[1..]
    }

    lemma HeadFirst()
      requires Valid()
      ensures 0 < |ring| && ring[0] == head
    {
    }

    lemma NextOf(n: nat)
      requires Valid() && n + 1 < |ring|
      ensures ring[n].next == ring[n + 1]
    {
      assert Linked(ring[n], ring[n + 1]);
    }

    constructor ()
      ensures Valid() && fresh(head) && Members() == []
    {
      head := new Link(None);
      new;
      ring := [head];
    }

    method IsEmpty() returns (r: bool)
      requires Valid()
      ensures r == (Members() == [])
    {
      r := head.next == head;
      assert |ring| > 1 ==> Linked(ring[0], ring[1]);
    }

    /** `fs_queue_head`: the first member. */
    method First() returns (l: Link<T>)
      requires Valid() && Members() != []
      ensures l == ring[1] == Members()[0]
    {
      assert Linked(ring[0], ring[1]);
      l := head.next;
    }

    /** `next->next` of the head: the second member. */
    method Second() returns (l: Link<T>)
      requires Valid() && 1 < |Members()|
      ensures l == ring[2] == Members()[1]
    {
      assert Linked(ring[0], ring[1]) && Linked(ring[1], ring[2]);
      l := head.next.next;
    }

    /** `fs_queue_insert_after`; h is the ring's i-th link, the head being the zeroth. */
    method InsertAfter(h: Link<T>, q: Link<T>, ghost i: nat)
      requires Valid() && i < |ring| && ring[i] == h && q !in ring
      modifies this`ring, ring, q
      ensures Valid() && ring == old(ring)[..i + 1] + [q] + old(ring)[i + 1..]
      ensures i == 0 ==> Members() == [q] + old(Members())
    {
      ghost var r := ring;
      assert if i + 1 < |r| then Linked(h, r[i + 1]) else Linked(h, r[0]);
      q.next := h.next;
      q.next.prev := q;
      q.prev := h;
      h.next := q;
      RingInsert(r, q, i);
      ring := r[..i + 1] + [q] + r[i + 1..];
    }

    /** `fs_queue_insert_before`; before the head means at the end. */
    method InsertBefore(h: Link<T>, q: Link<T>, ghost i: nat)
      requires Valid() && i < |ring| && ring[i] == h && q !in ring
      modifies this`ring, ring, q
      ensures Valid() && ring == if i == 0 then old(ring) + [q] else old(ring)[..i] + [q] + old(ring)[i..]
    {
      ghost var r := ring;
      ghost var k := if i == 0 then |r| - 1 else i - 1;
      assert Linked(r[k], h);
      q.prev := h.prev;
      q.prev.next := q;
      q.next := h;
      h.prev := q;
      forall j | 0 <= j < |r| - 1 && j != k
        ensures Linked(r[j], r[j + 1])
      {
        assert r[j] != r[k] && r[j + 1] != h && old(Linked(r[j], r[j + 1]));
      }
      RingInsert(r, q, k);
      ring := r[..k + 1] + [q] + r[k + 1..];
    }

    /** `fs_queue_remove`; the head itself is never removed. */
    method Remove(q: Link<T>, ghost i: nat)
      requires Valid() && 0 < i < |ring| && ring[i] == q
      modifies this`ring, ring
      ensures Valid() && ring == old(ring)[..i] + old(ring)[i + 1..]
    {
      ghost var r := ring;
      assert Linked(r[i - 1], r[i]) && (i + 1 < |r| ==> Linked(r[i], r[i + 1]));
      q.next.prev := q.prev;
      q.prev.next := q.next;
      ring := r[..i] + r[i + 1..];
    }
  }
}
