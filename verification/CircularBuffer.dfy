/** The receive buffer of the KVH driver: a ring of capacity + 1 cells that drops its oldest byte when full. */
module CircularBuffers {

  // ---- What the ring means: a queue of bounded length that drops its oldest element ----

  function Push<T>(queue: seq<T>, x: T, capacity: nat): seq<T> {
    if |queue| == capacity then (queue + [x])[1..] else queue + [x]
  }

  function Pop<T>(queue: seq<T>): seq<T> {
    if queue == [] then [] else queue[1..]
  }

  function PushAll<T>(queue: seq<T>, xs: seq<T>, capacity: nat): seq<T>
    decreases |xs|
  {
    if xs == [] then queue else PushAll(Push(queue, xs[0], capacity), xs[1..], capacity)
  }

  lemma PushNext<T>(queue: seq<T>, xs: seq<T>, i: nat, capacity: nat)
    requires i < |xs|
    ensures PushAll(queue, xs[i..], capacity) == PushAll(Push(queue, xs[i], capacity), xs[i + 1..], capacity)
  {
    assert xs[i..][1..] == xs[i + 1..];
  }

  function Newest<T>(xs: seq<T>, n: nat): seq<T> {
    if |xs| <= n then xs else xs[|xs| - n..]
  }

  lemma PushFirst<T>(queue: seq<T>, xs: seq<T>, capacity: nat)
    requires |queue| <= capacity && xs != []
    ensures |Push(queue, xs[0], capacity)| <= capacity
    ensures Push(queue, xs[0], capacity) + xs[1..] == if |queue| == capacity then (queue + xs)[1..] else queue + xs
  {
  }

  lemma NewestWithoutOldest<T>(xs: seq<T>, n: nat)
    ensures |xs| > n ==> Newest(xs[1..], n) == Newest(xs, n)
  {
  }

  /** Whatever is pushed, the queue holds the newest elements, in order; nothing is lost below the capacity. */
  lemma {:induction false} PushAllKeepsNewest<T>(queue: seq<T>, xs: seq<T>, capacity: nat)
    requires |queue| <= capacity
    ensures PushAll(queue, xs, capacity) == Newest(queue + xs, capacity)
    decreases |xs|
  {
    if xs == [] {
      assert queue + xs == queue;
    } else {
      PushFirst(queue, xs, capacity);
      PushAllKeepsNewest(Push(queue, xs[0], capacity), xs[1..], capacity);
      NewestWithoutOldest(queue + xs, capacity);
    }
  }

  // ---- The ring ----

  /** The iterator wraps from the last cell to the first. */
  datatype Iterator = Iterator(at: nat, last: nat) {
    function Next(): Iterator {
      if at == last then this.(at := 0) else this.(at := at + 1)
    }
  }

  /** Reduction modulo n of a number below 2 * n. */
  function Wrap(i: nat, n: nat): nat
    requires i < 2 * n
  {
    if i < n then i else i - n
  }

  /** Going one cell on, and then i more, is going i + 1 on. */
  lemma WrapAgain(tail: nat, i: nat, n: nat)
    requires tail < n && i < n
    ensures Wrap(tail + 1, n) < n
    ensures Wrap(Wrap(tail + 1, n) + i, n) == Wrap(tail + (i + 1), n)
    ensures Wrap(Wrap(tail + i, n) + 1, n) == Wrap(tail + (i + 1), n)
  {
  }

  /** The count cells that start at tail, going round the end of the array. */
  function Ring(cells: seq<bv8>, tail: nat, count: nat): (q: seq<bv8>)
    requires tail < |cells| && count <= |cells|
    ensures |q| == count
  {
    seq(count, i requires 0 <= i < count => cells[Wrap(tail + i, |cells|)])
  }

  lemma RingAdd(cells: seq<bv8>, tail: nat, count: nat, x: bv8)
    requires tail < |cells| && count < |cells|
    ensures Ring(cells[Wrap(tail + count, |cells|) := x], tail, count + 1) == Ring(cells, tail, count) + [x]
  {
    var more := cells[Wrap(tail + count, |cells|) := x];
    forall i | 0 <= i <= count ensures Ring(more, tail, count + 1)[i] == (Ring(cells, tail, count) + [x])[i] {
      if i < count {
        assert Wrap(tail + i, |cells|) != Wrap(tail + count, |cells|);
      }
    }
  }

  lemma RingRemove(cells: seq<bv8>, tail: nat, count: nat)
    requires tail < |cells| && 0 < count <= |cells|
    ensures Wrap(tail + 1, |cells|) < |cells|
    ensures Ring(cells, Wrap(tail + 1, |cells|), count - 1) == Ring(cells, tail, count)[1..]
  {
    WrapAgain(tail, 0, |cells|);
    var fewer := Ring(cells, Wrap(tail + 1, |cells|), count - 1);
    forall i | 0 <= i < count - 1 ensures fewer[i] == Ring(cells, tail, count)[1..][i] {
      WrapAgain(tail, i, |cells|);
      assert Ring(cells, tail, count)[1..][i] == Ring(cells, tail, count)[i + 1];
    }
  }

  /** Writing behind the last element, and going on with the first when there was no room, is pushing. */
  lemma RingPush(cells: seq<bv8>, tail: nat, count: nat, capacity: nat, x: bv8)
    requires |cells| == capacity + 1 && tail <= capacity && count <= capacity
    ensures var more, queue := cells[Wrap(tail + count, |cells|) := x], Push(Ring(cells, tail, count), x, capacity);
      && (count == capacity ==> Ring(more, Wrap(tail + 1, |cells|), count) == queue)
      && (count < capacity ==> Ring(more, tail, count + 1) == queue)
  {
    RingAdd(cells, tail, count, x);
    RingRemove(cells[Wrap(tail + count, |cells|) := x], tail, count + 1);
  }

  class CircularBuffer {
    const capacity: nat
    const cells: array<bv8>
    var headIdx: nat
    var tailIdx: nat
    var count: nat

    ghost predicate Valid()
      reads this
    {
      && cells.Length == capacity + 1
      && headIdx <= capacity && tailIdx <= capacity && count <= capacity
      && headIdx == Wrap(tailIdx + count, capacity + 1)
    }

    ghost function Contents(): (q: seq<bv8>)
      requires Valid()
      reads this, cells
    {
      Ring(cells[..], tailIdx, count)
    }

    constructor (capacity: nat)
      ensures Valid() && this.capacity == capacity && fresh(cells)
      ensures Contents() == []
    {
      this.capacity := capacity;
      cells := new bv8[capacity + 1](_ => 0);
      headIdx, tailIdx, count := 0, 0, 0;
    }

    /** Brings an index that has just been advanced back into the array. */
    method Mod(idx: nat) returns (r: nat)
      requires idx <= capacity + 1
      ensures r == Wrap(idx, capacity + 1)
    {
      r := idx % (capacity + 1);
    }

    predicate Full()
      reads this
    {
      count == capacity
    }

    predicate Empty()
      reads this
    {
      count == 0
    }

    method Add(x: bv8)
      requires Valid()
      modifies this, cells
      ensures Valid()
      ensures Contents() == Push(old(Contents()), x, capacity)
    {
      ghost var before, queue := cells[..], Push(Contents(), x, capacity);
      RingPush(before, tailIdx, count, capacity, x);
      WrapAgain(tailIdx, count, capacity + 1);
      cells[headIdx] := x;
      assert cells[..] == before[headIdx := x];
      headIdx := Mod(headIdx + 1);
      if Full() {
        tailIdx := Mod(tailIdx + 1);
        assert Ring(cells[..], tailIdx, count) == queue;
      } else {
        count := count + 1;
        assert Ring(cells[..], tailIdx, count) == queue;
      }
    }

    /** The oldest element; of an empty ring, whatever the cell holds. */
    method Get() returns (x: bv8)
      requires Valid()
      ensures Contents() != [] ==> x == Contents()[0]
    {
      x := cells[tailIdx];
      assert count > 0 ==> Contents()[0] == cells[Wrap(tailIdx + 0, capacity + 1)];
    }

    method Remove()
      requires Valid()
      modifies this
      ensures Valid()
      ensures Contents() == Pop(old(Contents()))
    {
      if Empty() {
        return;
      }
      RingRemove(cells[..], tailIdx, count);
      WrapAgain(tailIdx, count - 1, capacity + 1);
      count := count - 1;
      tailIdx := Mod(tailIdx + 1);
    }

    method Reset()
      requires Valid()
      modifies this, cells
      ensures Valid()
      ensures Contents() == []
      ensures forall i :: 0 <= i < cells.Length ==> cells[i] == 0
    {
      forall i | 0 <= i < cells.Length {
        cells[i] := 0;
      }
      headIdx, tailIdx, count := 0, 0, 0;
    }

    function Size(): nat
      reads this
    {
      count
    }

    function Begin(): Iterator
      reads this
    {
      Iterator(tailIdx, capacity)
    }

    function End(): Iterator
      reads this
    {
      Iterator(headIdx, capacity)
    }

    /** An iterator that is i places past the beginning. */
    ghost predicate At(it: Iterator, i: nat)
      requires Valid()
      reads this
    {
      i <= count && it == Iterator(Wrap(tailIdx + i, capacity + 1), capacity)
    }

    /** The iterator has reached the end exactly when it has passed every element, full or not, wrapped or not. */
    lemma EndReached(it: Iterator, i: nat)
      requires Valid() && At(it, i)
      ensures it == End() <==> i == count
      ensures i < count ==> At(it.Next(), i + 1) && it.at < cells.Length && cells[it.at] == Contents()[i]
    {
    }

    /** The range-for loop over the ring, left once it has seen limit elements. */
    method Collect(limit: nat) returns (items: seq<bv8>)
      requires Valid()
      ensures items == if limit < |Contents()| then Contents()[..limit] else Contents()
    {
      items := [];
      ghost var i := 0;
      var it := Begin();
      EndReached(it, 0);
      while it != End()
        invariant i <= count && i <= limit && At(it, i)
        invariant it == End() <==> i == count
        invariant items == Contents()[..i]
        decreases count - i
      {
        if limit <= |items| {
          break;
        }
        EndReached(it, i);
        items := items + [cells[it.at]];
        it := it.Next();
        i := i + 1;
        EndReached(it, i);
      }
    }
  }
}
