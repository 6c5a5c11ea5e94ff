/**
  * The fixed-capacity circular FIFO buffer of Queue.java.
  *
  * `data` is the backing array; a slot holds `None` where Java holds `null`.
  * The live elements sit at `data[(front + i) % capacity]` for `i` in
  * `[0, size)`; the ghost field `Contents` lists them oldest first. Slots
  * outside that window are stale (dequeue does not clear them) and do not
  * belong to `Contents`.
  */
module CircularQueue {
  import opened Wrappers

  // ---------------------------------------------------------------------
  // The abstract behaviour of a bounded FIFO log, on sequences
  // ---------------------------------------------------------------------

  /** The last `n` elements of `h`, in their original order. */
  function Latest<T>(h: seq<T>, n: nat): seq<T>
  {
    if |h| <= n then h else h[|h| - n..]
  }

  /** The contents after appending `x` to a log of capacity `cap`: when full, the oldest entry goes first. */
  function Pushed<T>(contents: seq<T>, cap: nat, x: T): seq<T>
    requires 0 < cap
  {
    if |contents| == cap then contents[1..] + [x] else contents + [x]
  }

  /** The contents after appending every element of `xs`, first to last. */
  function PushAll<T>(contents: seq<T>, cap: nat, xs: seq<T>): seq<T>
    requires 0 < cap
    decreases |xs|
  {
    if xs == [] then contents else PushAll(Pushed(contents, cap, xs[0]), cap, xs[1..])
  }

  /** Elements as Java array slots: every element present. */
  function Present<T>(s: seq<T>): seq<Option<T>>
  {
    seq(|s|, i requires 0 <= i < |s| => Some(s[i]))
  }

  /** Keeping the latest `n` twice is keeping them once, even with more history appended in between. */
  lemma LatestAbsorbs<T>(h: seq<T>, t: seq<T>, n: nat)
    ensures Latest(Latest(h, n) + t, n) == Latest(h + t, n)
  {
    if |h| > n {
      var l := h[|h| - n..];
      var x, y := h + t, l + t;
      if t == [] {
        assert x == h && y == l;
      } else {
        forall k | |t| <= k < |y|
          ensures y[k] == x[k + |h| - n]
        {
          if k < n {
            assert y[k] == l[k] == h[|h| - n + k];
          }
        }
        assert y[|t|..] == x[|x| - n..];
      }
    }
  }

  /** One append to a log that respects its capacity keeps exactly the latest `cap` entries. */
  lemma PushedIsLatest<T>(contents: seq<T>, cap: nat, x: T)
    requires 0 < cap && |contents| <= cap
    ensures Pushed(contents, cap, x) == Latest(contents + [x], cap)
    ensures |Pushed(contents, cap, x)| == Min(|contents| + 1, cap)
  {
    if |contents| == cap {
      assert (contents + [x])[|contents| + 1 - cap..] == contents[1..] + [x];
    }
  }

  /**
    * Any sequence of appends leaves in the log exactly the most recent `cap`
    * elements of everything ever appended, oldest first.
    */
  lemma {:induction false} PushAllIsLatest<T>(contents: seq<T>, cap: nat, xs: seq<T>)
    requires 0 < cap && |contents| <= cap
    ensures PushAll(contents, cap, xs) == Latest(contents + xs, cap)
    decreases |xs|
  {
    if xs != [] {
      var h, rest := contents + [xs[0]], xs[1..];
      var c := Pushed(contents, cap, xs[0]);
      PushedIsLatest(contents, cap, xs[0]);
      assert h + rest == contents + xs;
      calc {
        PushAll(contents, cap, xs);
        PushAll(c, cap, rest);
        { PushAllIsLatest(c, cap, rest); }
        Latest(c + rest, cap);
        Latest(Latest(h, cap) + rest, cap);
        { LatestAbsorbs(h, rest, cap); }
        Latest(h + rest, cap);
      }
    }
  }

  /** N appends to an empty log of capacity C leave min(N, C) entries. */
  lemma CapacityBound<T>(cap: nat, xs: seq<T>)
    requires 0 < cap
    ensures |PushAll([], cap, xs)| == Min(|xs|, cap)
  {
    PushAllIsLatest([], cap, xs);
    assert [] + xs == xs;
  }

  /** C + 1 appends to an empty log of capacity C evict exactly the first one. */
  lemma FifoEviction<T>(cap: nat, xs: seq<T>)
    requires 0 < cap && |xs| == cap + 1
    ensures PushAll([], cap, xs) == xs[1..]
  {
    PushAllIsLatest([], cap, xs);
    assert [] + xs == xs;
  }

  /** Reducing an index that overshoots the buffer end by less than one lap. */
  lemma ModWrap(k: int, m: int)
    requires 0 < m && 0 <= k < 2 * m
    ensures k % m == if k < m then k else k - m
  {
    if k >= m {
      assert k == m * 1 + (k - m);
    }
  }

  /** Advancing `rear` past a non-full window lands on the slot just after it, and keeps the index relation. */
  lemma RearAdvance(rear: int, front: int, size: int, cap: int)
    requires 0 <= front < cap && 0 <= size < cap && -1 <= rear < cap
    requires (rear + 1) % cap == (front + size) % cap
    ensures 0 <= (rear + 1) % cap < cap
    ensures (rear + 1) % cap == (front + size) % cap
    ensures ((rear + 1) % cap + 1) % cap == (front + size + 1) % cap
  {
    ModWrap(rear + 1, cap);
    ModWrap(front + size, cap);
    ModWrap(front + size + 1, cap);
    ModWrap((rear + 1) % cap + 1, cap);
  }

  /** Moving `front` one slot on drops the oldest element from the window and keeps the index relation. */
  lemma FrontAdvance<T>(d: array<Option<T>>, front: int, rear: int, size: int, contents: seq<T>, newFront: int)
    requires 0 <= front < d.Length && 0 < size <= d.Length && |contents| == size
    requires newFront == (front + 1) % d.Length
    requires (rear + 1) % d.Length == (front + size) % d.Length
    requires forall i :: 0 <= i < size ==> d[(front + i) % d.Length] == Some(contents[i])
    ensures 0 <= newFront < d.Length
    ensures (rear + 1) % d.Length == (newFront + (size - 1)) % d.Length
    ensures forall i :: 0 <= i < size - 1 ==> d[(newFront + i) % d.Length] == Some(contents[1..][i])
  {
    var cap := d.Length;
    ModWrap(front + 1, cap);
    ModWrap(newFront + (size - 1), cap);
    ModWrap(front + size, cap);
    forall i | 0 <= i < size - 1
      ensures d[(newFront + i) % cap] == Some(contents[1..][i])
    {
      ModWrap(newFront + i, cap);
      ModWrap(front + (i + 1), cap);
      assert d[(front + (i + 1)) % cap] == Some(contents[i + 1]);
    }
  }

  /** Writing just past the live window of a non-full buffer extends the window by that element. */
  lemma WindowAfterWrite<T>(d: seq<Option<T>>, front: int, size: int, contents: seq<T>, item: T)
    requires 0 <= front < |d| && 0 <= size < |d| && |contents| == size
    requires forall i :: 0 <= i < size ==> d[(front + i) % |d|] == Some(contents[i])
    ensures forall i :: 0 <= i < size + 1 ==>
      d[(front + size) % |d| := Some(item)][(front + i) % |d|] == Some((contents + [item])[i])
  {
    var cap := |d|;
    ModWrap(front + size, cap);
    forall i | 0 <= i < size + 1
      ensures d[(front + size) % cap := Some(item)][(front + i) % cap] == Some((contents + [item])[i])
    {
      ModWrap(front + i, cap);
    }
  }

  // ---------------------------------------------------------------------
  // The circular buffer
  // ---------------------------------------------------------------------

  class Queue<T> {
    const data: array<Option<T>>
    /** Index of the oldest element. */
    var front: int
    /** Index of the most recently written element (-1 before the first write). */
    var rear: int
    var size: int
    const capacity: int
    ghost var Contents: seq<T>

    ghost predicate Valid()
      reads this, data
    {
      && 1 <= capacity == data.Length
      && 0 <= size <= capacity
      && 0 <= front < capacity
      && -1 <= rear < capacity
      && (rear + 1) % capacity == (front + size) % capacity
      && |Contents| == size
      && forall i :: 0 <= i < size ==> data[(front + i) % capacity] == Some(Contents[i])
    }

    /** An empty queue over a fresh array of `capacity` null slots. */
    constructor (capacity: int)
      requires capacity >= 1
      ensures Valid() && fresh(data)
      ensures forall i :: 0 <= i < data.Length ==> data[i] == None
      ensures this.capacity == capacity && Contents == []
      ensures front == 0 && rear == -1 && size == 0
    {
      this.capacity := capacity;
      data := new Option<T>[capacity](_ => None);
      front, rear, size := 0, -1, 0;
      Contents := [];
    }

    /**
      * Append `item` at the rear; a full queue first drops its oldest element.
      * `rear + 1` is never negative, so Java's `%` and Dafny's agree here.
      */
    method Enqueue(item: T)
      requires Valid()
      modifies this, data
      ensures Valid()
      ensures Contents == Pushed(old(Contents), capacity, item)
      ensures size == Min(old(size) + 1, capacity)
    {
      if size == capacity {
        var _ := Dequeue();
      }
      RearAdvance(rear, front, size, capacity);
      ghost var before := data[..];
      rear := (rear + 1) % capacity;
      data[rear] := Some(item);
      WindowAfterWrite(before, front, size, Contents, item);
      size := size + 1;
      Contents := Contents + [item];
    }

    /** Remove and return the oldest element; `None` (Java's null) when empty. */
    method Dequeue() returns (removed: Option<T>)
      requires Valid()
      modifies this
      ensures Valid()
      ensures rear == old(rear)
      ensures old(Contents) == [] ==>
        removed == None && Contents == [] && front == old(front) && size == 0
      ensures old(Contents) != [] ==>
        removed == Some(old(Contents)[0]) && Contents == old(Contents)[1..] && size == old(size) - 1
    {
      if IsEmpty() {
        return None;
      }
      ModWrap(front, capacity);
      removed := data[front];
      var next := (front + 1) % capacity;
      FrontAdvance(data, front, rear, size, Contents, next);
      front := next;
      size := size - 1;
      Contents := Contents[1..];
    }

    function IsEmpty(): (b: bool)
      reads this, data
      requires Valid()
      ensures b <==> Contents == []
    {
      size == 0
    }

    function IsFull(): (b: bool)
      reads this, data
      requires Valid()
      ensures b <==> |Contents| == capacity
    {
      size == capacity
    }

    function GetSize(): (n: int)
      reads this, data
      requires Valid()
      ensures n == |Contents| && 0 <= n <= capacity
    {
      size
    }

    /**
      * Copy the elements, oldest first, into `a`, or into a fresh copy of `a`
      * of length `size` when `a` is too short; when the result is longer than
      * `size`, the slot just past the elements is set to null.
      */
    method ToArray(a: array<Option<T>>) returns (r: array<Option<T>>)
      requires Valid() && a != data
      modifies a
      ensures a.Length < size ==> fresh(r) && r.Length == size && unchanged(a)
      ensures a.Length >= size ==> r == a
      ensures size <= r.Length && r[..size] == Present(Contents)
      ensures r.Length > size ==> r[size] == None && r[size + 1..] == old(a[size + 1..])
    {
      r := a;
      var n := size;
      if a.Length < n {
        r := new Option<T>[n](i requires 0 <= i < n reads a => if i < a.Length then a[i] else None);
      }
      ghost var before := r[..];
      for i := 0 to size
        invariant forall j :: 0 <= j < i ==> r[j] == Some(Contents[j])
        invariant forall j :: i <= j < r.Length ==> r[j] == before[j]
        invariant r == a || fresh(r)
        invariant r != a ==> unchanged(a)
      {
        r[i] := data[(front + i) % capacity];
      }
      assert r[..size] == Present(Contents);
      if r.Length > size {
        r[size] := None;
      }
    }
  }
}
