/** The growable array of src/core/fs_arr.c and src/core/fs_arr.h. */
module Arrays {

  /** A capacity after some number of doublings. */
  function Doubled(capacity: nat, times: nat): nat {
    if times == 0 then capacity else 2 * Doubled(capacity, times - 1)
  }

  class Arr<T(0)> {
    var elems: array<T>
    var capa: nat
    var count: nat

    ghost const initial: nat   // the capacity it was made with
    ghost var grown: nat       // how often it grew
    ghost var pushes: nat      // how often something was pushed
    ghost var copied: nat      // how many elements were copied by growing

    ghost predicate Valid()
      reads this, elems
    {
      elems.Length == capa && count <= capa && 0 < initial &&
      capa == Doubled(initial, grown) && count <= pushes &&
      copied + initial == capa && (0 < grown ==> capa < 2 * pushes)
    }

    ghost function Contents(): seq<T>
      requires Valid()
      reads this, elems
      ensures |Contents()| == count
    {
      elems[..count]
    }

    lemma Sizes()
      requires Valid()
      ensures elems.Length == capa && count <= capa && 0 < capa
    {
    }

    constructor (capacity: nat)
      requires 0 < capacity
      ensures Valid() && Contents() == [] && fresh(elems)
      ensures initial == capa == capacity && pushes == copied == 0
    {
      elems := new T[capacity];
      capa, count := capacity, 0;
      initial, grown, pushes, copied := capacity, 0, 0, 0;
    }

    /**
     `fs_arr_push`: a new last element, after doubling when full. `held` is what the
     element's memory happens to hold; the callers of the source then overwrite it. All the
     copying that growth ever did stays below twice the number of pushes.
     */
    method Push(held: T)
      requires Valid()
      modifies this, elems
      ensures Valid() && if old(count < capa) then elems == old(elems) else fresh(elems)
      ensures Contents() == old(Contents()) + [held]
      ensures pushes == old(pushes) + 1 && copied < 2 * pushes
      ensures capa == if old(count < capa) then old(capa) else 2 * old(capa)
    {
      ghost var before := Contents();
      if count == capa {
        var newElems := new T[2 * capa];
        var i := 0;
        while i < capa
          invariant i <= capa
          invariant newElems[..i] == before[..i]
          modifies newElems
        {
          newElems[i] := elems[i];
          i := i + 1;
        }
        copied, grown := copied + capa, grown + 1;
        elems := newElems;
        capa := 2 * capa;
        assert elems[..count] == before;
      }
      elems[count] := held;
      count, pushes := count + 1, pushes + 1;
      assert elems[..count] == before + [held];
    }

    /** `ele_count--`: the last element is given up. */
    method DropLast()
      requires Valid() && 0 < count
      modifies this`count
      ensures Valid() && Contents() == old(Contents())[..old(count) - 1]
    {
      count := count - 1;
    }

    method Get(i: nat) returns (x: T)
      requires Valid() && i < count
      ensures x == Contents()[i]
    {
      x := elems[i];
    }

    method Set(i: nat, x: T)
      requires Valid() && i < count
      modifies elems
      ensures Valid() && Contents() == old(Contents())[i := x]
    {
      elems[i] := x;
    }
  }
}
