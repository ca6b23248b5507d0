/**
 * `heterogeneous_queue<T>`: an append-only queue holding objects of types
 * derived from `T`, each stored by value with its dynamic type. Its header
 * is not part of this model; the contract here is the one its test
 * exercises: `push_back` appends, `size` counts, `get_pointers` lists the
 * elements in insertion order into an output list it overwrites, `swap`
 * exchanges two queues and `clear` destroys every element.
 *
 * An element is a value of a datatype whose constructors are the derived
 * types; the pointers `get_pointers` yields become the element values.
 */
module HeterogeneousQueues {
  import opened Common

  class HeterogeneousQueue<T> {
    /** The stored objects, oldest first. */
    var items: seq<T>

    /** A new queue is empty. */
    constructor ()
      ensures items == []
    {
      items := [];
    }

    /** `size()`: zero exactly when the queue holds nothing. */
    function Size(): (r: nat)
      reads this
      ensures r == 0 <==> items == []
    {
      |items|
    }

    /** `push_back(a)`: stores a copy of `a` after every element already
        held, which stay as they were. */
    method PushBack(a: T)
      modifies this
      ensures items == old(items) + [a]
      ensures Size() == old(Size()) + 1
      ensures items[..old(Size())] == old(items) && items[old(Size())] == a
    {
      items := items + [a];
    }

    /** `get_pointers(out)`: the output list `prev` is overwritten, not
        appended to; afterwards it lists every element, oldest first. */
    method GetPointers(prev: seq<T>) returns (ptrs: seq<T>)
      ensures |ptrs| == Size()
      ensures forall i :: 0 <= i < |ptrs| ==> ptrs[i] == items[i]
    {
      ptrs := items;
    }

    /** `swap(other)`: the two queues exchange their contents. */
    method Swap(other: HeterogeneousQueue<T>)
      modifies this, other
      ensures items == old(other.items) && other.items == old(items)
    {
      var mine := items;
      items := other.items;
      other.items := mine;
    }

    /** `clear()`: destroys every element; `destroyed` is the number of
        destructor runs, one per element held. */
    method Clear() returns (destroyed: nat)
      modifies this
      ensures items == [] && Size() == 0
      ensures destroyed == old(Size())
    {
      destroyed := |items|;
      items := [];
    }
  }

  /** The element types of the queue's test: `B` and `C` both derive from
      `A`, which holds `a`; `B` adds `b` and `C` adds a 100-byte array. */
  datatype Element = B(a: int, b: int) | C(a: int, c: seq<byte>)
  {
    /** The virtual `type()`: 1 for a `B` and 2 for a `C`. */
    function TypeTag(): (r: int)
      ensures r == 1 <==> B?
      ensures r == 2 <==> C?
    {
      if B? then 1 else 2
    }
  }

  /** `C(a, c)`: every byte of the array is set to `c`, converted to an
      unsigned octet as `memset` does. */
  function MakeC(a: int, c: int): (r: Element)
    ensures r.C? && r.a == a && |r.c| == 100
    ensures forall i :: 0 <= i < 100 ==> r.c[i] as int == c % 0x100
  {
    C(a, seq(100, _ => (c % 0x100) as byte))
  }

  /** Pushing three `B`s and three `C`s: the queue lists them in the order
      pushed, each with its type tag and fields. */
  method PushAndList() returns (ptrs: seq<Element>)
    ensures |ptrs| == 6
    ensures forall i :: 0 <= i < 3 ==> ptrs[i].TypeTag() == 1
    ensures forall i :: 3 <= i < 6 ==> ptrs[i].TypeTag() == 2
    ensures ptrs[0] == B(0, 1) && ptrs[1] == B(2, 3) && ptrs[2] == B(4, 5)
    ensures ptrs[3].C? && ptrs[3].a == 6 && |ptrs[3].c| == 100 && ptrs[3].c[0] == 7
    ensures ptrs[4].C? && ptrs[4].a == 8 && |ptrs[4].c| == 100 && ptrs[4].c[0] == 9
    ensures ptrs[5].C? && ptrs[5].a == 10 && |ptrs[5].c| == 100 && ptrs[5].c[0] == 11
  {
    var q := new HeterogeneousQueue<Element>();
    q.PushBack(B(0, 1));
    assert q.Size() == 1;
    q.PushBack(B(2, 3));
    assert q.Size() == 2;
    q.PushBack(B(4, 5));
    assert q.Size() == 3;
    q.PushBack(MakeC(6, 7));
    assert q.Size() == 4;
    q.PushBack(MakeC(8, 9));
    assert q.Size() == 5;
    q.PushBack(MakeC(10, 11));
    assert q.Size() == 6;
    ptrs := q.GetPointers([]);
  }

  /** Two queues swapped: each then lists what the other held, and listing
      into a list used before replaces its contents. */
  method SwapAndList() returns (first: seq<Element>, second: seq<Element>)
    ensures |first| == 2 && forall i :: 0 <= i < 2 ==> first[i].TypeTag() == 2
    ensures |second| == 3 && forall i :: 0 <= i < 3 ==> second[i].TypeTag() == 1
  {
    var q1 := new HeterogeneousQueue<Element>();
    var q2 := new HeterogeneousQueue<Element>();
    q1.PushBack(B(0, 1));
    q1.PushBack(B(2, 3));
    q1.PushBack(B(4, 5));
    assert q1.Size() == 3;
    q2.PushBack(MakeC(6, 7));
    q2.PushBack(MakeC(8, 9));
    assert q2.Size() == 2;

    var ptrs := q1.GetPointers([]);
    assert |ptrs| == 3 && ptrs[0].TypeTag() == 1 && ptrs[2].TypeTag() == 1;
    ptrs := q2.GetPointers(ptrs);
    assert |ptrs| == 2 && ptrs[0].TypeTag() == 2 && ptrs[1].TypeTag() == 2;

    q1.Swap(q2);
    first := q1.GetPointers(ptrs);
    assert q1.Size() == 2;
    second := q2.GetPointers(first);
    assert q2.Size() == 3;
  }

  /** The element type of the destruction test, whose instances are
      counted. */
  datatype Counted = D

  /** Four objects pushed and cleared: the count of live objects goes up
      by one per object the queue holds and is back to zero once the queue
      is cleared. The temporary each `push_back` copies from is created and
      destroyed within the statement, so it leaves the count as it was. */
  method ClearDestroysAll() returns (instances: int)
    ensures instances == 0
  {
    var q := new HeterogeneousQueue<Counted>();
    instances := 0;
    q.PushBack(D);
    instances := instances + 1;
    assert instances == q.Size() == 1;
    q.PushBack(D);
    instances := instances + 1;
    assert instances == q.Size() == 2;
    q.PushBack(D);
    instances := instances + 1;
    assert instances == q.Size() == 3;
    q.PushBack(D);
    instances := instances + 1;
    assert instances == q.Size() == 4;
    var destroyed := q.Clear();
    instances := instances - destroyed;
  }
}
