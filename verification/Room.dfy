/**
 The pointers of the open frames into the array of contexts (src/core/fs_run.h:93). Growing
 copies the array and releases the old one (src/core/fs_arr.c:32-42), and a pointer taken
 before then points to released memory.
 */
module Rooms {
  import opened Decimal

  /**
   The slots taken, the array's capacity, and for each open frame, innermost first, the
   capacity of the array its pointer was taken from. Growing doubles the capacity, so it
   tells the arrays apart. `stale` is set once released memory was read or written.
   */
  datatype Room = Room(taken: nat, capacity: nat, homes: seq<nat>, stale: bool)

  /** The k-th frame's pointer is into the present array. */
  predicate Live(m: Room, k: nat)
    requires k < |m.homes|
  {
    m.homes[k] == m.capacity
  }

  predicate AllLive(m: Room) {
    forall k :: 0 <= k < |m.homes| ==> Live(m, k)
  }

  /** A new innermost frame with a new slot, in an array twice as large when this one is full. */
  function Enter(m: Room): (r: Room)
    ensures |r.homes| == |m.homes| + 1 && Live(r, 0)
  {
    var capacity := if m.taken < m.capacity then m.capacity else 2 * m.capacity;
    Room(m.taken + 1, capacity, [capacity] + m.homes, m.stale)
  }

  /** The innermost frame goes, and its slot stays taken. */
  function Leave(m: Room): Room
    requires m.homes != []
  {
    m.(homes := m.homes[1..])
  }

  /** The innermost frame goes, and the last slot is given back. */
  function GiveBack(m: Room): Room
    requires m.homes != [] && 0 < m.taken
  {
    m.(taken := m.taken - 1, homes := m.homes[1..])
  }

  /** The k-th frame's pointer is followed. */
  function Touch(m: Room, k: nat): Room
    requires k < |m.homes|
  {
    m.(stale := m.stale || !Live(m, k))
  }

  lemma SameLive(m: Room, r: Room)
    requires AllLive(m) && r.homes == m.homes && r.capacity == m.capacity
    ensures AllLive(r)
  {
    forall k | 0 <= k < |r.homes|
      ensures Live(r, k)
    {
      assert Live(m, k);
    }
  }

  /** Entering keeps every pointer live if and only if there was room or nothing was open. */
  lemma EnterLive(m: Room)
    requires 0 < m.capacity && forall k :: 0 <= k < |m.homes| ==> m.homes[k] <= m.capacity
    ensures AllLive(Enter(m)) <==> m.homes == [] || (AllLive(m) && m.taken < m.capacity)
  {
    var r := Enter(m);
    assert forall k :: 0 <= k < |m.homes| ==> m.homes[k] == r.homes[k + 1];
    if m.homes != [] && AllLive(r) {
      assert Live(r, 1);
      forall k | 0 <= k < |m.homes|
        ensures Live(m, k)
      {
        assert Live(r, k + 1);
      }
    }
    if AllLive(m) && m.taken < m.capacity {
      forall k | 0 <= k < |r.homes|
        ensures Live(r, k)
      {
        assert 0 < k ==> Live(m, k - 1);
      }
    }
  }

  /** The array after n frames were opened one after another, from the source's eight slots. */
  function Entered(n: nat): (m: Room)
    ensures |m.homes| == n
  {
    if n == 0 then Room(0, 8, [], false) else Enter(Entered(n - 1))
  }

  /** It has room for them, and is eight slots or less than twice as many as there are, doubled each time. */
  lemma {:induction false} EnteredCapacity(n: nat)
    ensures var m := Entered(n);
      m.taken == n <= m.capacity && (m.capacity == 8 || m.capacity < 2 * n) &&
      exists j: nat :: m.capacity == 8 * Power(2, j)
  {
    if n == 0 {
      assert Entered(0).capacity == 8 * Power(2, 0);
    } else {
      EnteredCapacity(n - 1);
      var j: nat :| Entered(n - 1).capacity == 8 * Power(2, j);
      assert 2 * (8 * Power(2, j)) == 8 * Power(2, j + 1);
    }
  }

  lemma EnteredNext(n: nat)
    ensures var m := Entered(n);
      Entered(n + 1).capacity == if m.taken < m.capacity then m.capacity else 2 * m.capacity
  {
  }

  /** So the array grows exactly when the ninth, the seventeenth, the thirty-third frame opens, and so on. */
  lemma {:induction false} GrowsAt(n: nat)
    ensures Entered(n + 1).capacity != Entered(n).capacity <==> exists j: nat :: n == 8 * Power(2, j)
  {
    hide Entered, Power;
    EnteredCapacity(n);
    EnteredNext(n);
    var k: nat :| Entered(n).capacity == 8 * Power(2, k);
    if j: nat :| n == 8 * Power(2, j) {
      PowerOrder(j, k);
      PowerOrder(k, j);
    }
  }

  lemma {:induction false} PowerOrder(a: nat, b: nat)
    ensures 0 < Power(2, a) && (a < b ==> 2 * Power(2, a) <= Power(2, b))
    decreases b
  {
    if a + 1 < b {
      PowerOrder(a, b - 1);
    }
    PowerPositive(a);
  }

  lemma {:induction false} PowerPositive(a: nat)
    ensures 0 < Power(2, a)
  {
    if a > 0 {
      PowerPositive(a - 1);
    }
  }
}
