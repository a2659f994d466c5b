/** The fixed-capacity ring buffer of `scientifik.kmath.streaming`: a store of
    `capacity` slots that keeps the most recent `capacity` pushed elements.

    The store is an `array<Option<T>>`; `None` is the `null` with which
    `boxing` fills it.  `startIndex` is a mathematical `nat` that, as in the
    source, is only ever incremented and never reduced modulo the capacity;
    every read and write reduces it through `Forward`. */
module RingBuffers {
  import opened Wrappers

  /** The exceptions the ring buffer's operations throw. */
  datatype Error =
    | IndexNegative                          // get: "Index must be positive"
    | IndexBeyondSize(index: int, size: int) // get: "Index $index is out of circular buffer size $size"
    | StoreIndexOutOfBounds(index: int)      // a store read outside [0, capacity)
    | DivisionByZero                         // `% buffer.size` on a store of size 0

  /** Kotlin's `%` on `Int`: truncated toward zero, so the remainder takes
      the sign of the dividend (Dafny's own `%` is Euclidean). */
  function TruncRem(a: int, b: int): (r: int)
    requires b > 0
    ensures a >= 0 ==> 0 <= r < b && r == a % b
    ensures a < 0 ==> -b < r <= 0 && r == -((-a) % b)
  {
    if a >= 0 then a % b else -((-a) % b)
  }

  /** `Int.forward(n) = (this + n) % buffer.size`: the physical slot that
      lies `n` slots after `index`.  It is a slot of the store whenever both
      operands are non-negative. */
  function Forward(index: int, n: int, capacity: int): (slot: int)
    requires capacity > 0
    ensures index >= 0 && n >= 0 ==> 0 <= slot < capacity
    ensures index + n < 0 && (-(index + n)) % capacity != 0 ==> slot < 0
  {
    TruncRem(index + n, capacity)
  }

  /** Euclidean division is unique: a quotient and remainder in range are
      the ones `/` and `%` give. */
  lemma ModUnique(y: int, c: int, q: int, r: int)
    requires c > 0 && 0 <= r < c && y == c * q + r
    ensures y % c == r
  {
    var d := q - y / c;
    assert c * d == y % c - r;
    if d > 0 {
    } else if d < 0 {
    }
  }

  /** Reducing the starting slot first does not change where an offset
      lands: `((a % c) + k) % c == (a + k) % c`. */
  lemma ForwardReduce(a: nat, k: nat, c: nat)
    requires c > 0
    ensures Forward(Forward(a, 0, c), k, c) == Forward(a, k, c)
  {
    var q, r := a / c, a % c;
    var q2, r2 := (r + k) / c, (r + k) % c;
    assert a + k == c * (q + q2) + r2;
    ModUnique(a + k, c, q + q2, r2);
  }

  /** Going once around the ring lands on the same slot. */
  lemma ForwardPeriod(a: nat, c: nat)
    requires c > 0
    ensures Forward(a, c, c) == Forward(a, 0, c)
  {
    ModUnique(a + c, c, a / c + 1, a % c);
  }

  /** Distinct offsets below the capacity land on distinct slots, so the
      `size` logical elements occupy `size` different slots. */
  lemma ForwardInjective(a: nat, i: nat, j: nat, c: nat)
    requires i < j < c
    ensures Forward(a, i, c) != Forward(a, j, c)
  {
    if Forward(a, i, c) == Forward(a, j, c) {
      var r := (a + i) % c;
      ModUnique(a + j, c, (a + i) / c, r + (j - i)) by {
        if r + (j - i) >= c {
          ForwardReduceBeyond(a + i, j - i, c);
        }
      }
    }
  }

  /** Helper for `ForwardInjective`: once `a % c + d` reaches `c`, the slot
      `d` later is `a % c + d - c`, which differs from `a % c`. */
  lemma ForwardReduceBeyond(a: nat, d: nat, c: nat)
    requires 0 < d < c && a % c + d >= c
    ensures (a + d) % c != a % c
  {
    ModUnique(a + d, c, a / c + 1, a % c + d - c);
  }

  /** The window a ring of capacity `c` keeps of a push history `s`: its last
      `c` elements, oldest first. */
  function Window<T>(s: seq<T>, c: nat): (w: seq<T>)
    ensures |w| == if |s| <= c then |s| else c
    ensures w == s[|s| - |w|..]
  {
    if |s| <= c then s else s[|s| - c..]
  }

  /** Keeping the window after every push keeps the window of the whole
      history: pushing `e` onto the window of `s` gives the window of `s + [e]`. */
  lemma {:induction false} WindowPush<T>(s: seq<T>, e: T, c: nat)
    requires c > 0
    ensures Window(Window(s, c) + [e], c) == Window(s + [e], c)
  {
    if |s| < c {
    } else {
      assert Window(s, c) + [e] == s[|s| - c..] + [e];
      assert (s[|s| - c..] + [e])[1..] == (s + [e])[|s| + 1 - c..];
    }
  }

  /** The layout invariant shared by the buffer, its iterator and its
      snapshot: logical element `k` of `elements` sits in slot
      `(start + k) % |store|`, and there are at most `|store|` of them. */
  ghost predicate Holds<T>(store: seq<Option<T>>, start: nat, elements: seq<T>)
  {
    && |elements| <= |store|
    && forall k :: 0 <= k < |elements| ==> store[Forward(start, k, |store|)] == Some(elements[k])
  }

  /** Writing the slot just past the last element of a ring that is not full
      appends to its elements and disturbs none of them. */
  lemma HoldsAppend<T>(store: seq<Option<T>>, start: nat, elements: seq<T>, e: T)
    requires Holds(store, start, elements) && |elements| < |store|
    ensures Holds(store[Forward(start, |elements|, |store|) := Some(e)], start, elements + [e])
  {
    var n, slot := |store|, Forward(start, |elements|, |store|);
    var after := store[slot := Some(e)];
    forall k | 0 <= k < |elements|
      ensures after[Forward(start, k, n)] == Some((elements + [e])[k])
    {
      ForwardInjective(start, k, |elements|, n);
    }
  }

  /** Writing that slot on a full ring overwrites the oldest element: the
      ring now starts one slot later and holds the old elements but the first,
      followed by the new one. */
  lemma HoldsEvict<T>(store: seq<Option<T>>, start: nat, elements: seq<T>, e: T)
    requires Holds(store, start, elements) && |elements| == |store| > 0
    ensures Holds(store[Forward(start, |elements|, |store|) := Some(e)], start + 1, elements[1..] + [e])
  {
    var n, slot := |store|, Forward(start, |elements|, |store|);
    var after, next, now := store[slot := Some(e)], start + 1, elements[1..] + [e];
    ForwardPeriod(start, n);
    forall k | 0 <= k < n
      ensures after[Forward(next, k, n)] == Some(now[k])
    {
      assert Forward(next, k, n) == Forward(start, k + 1, n);
      if k < n - 1 {
        ForwardInjective(start, 0, k + 1, n);
      }
    }
  }

  /** Taking the oldest element out and moving one reduced slot on keeps the
      rest laid out: what `computeNext` relies on. */
  lemma HoldsAdvance<T>(store: seq<Option<T>>, start: nat, elements: seq<T>)
    requires Holds(store, start, elements) && |elements| > 0
    ensures Holds(store, Forward(start, 1, |store|), elements[1..])
  {
    var n := |store|;
    var next := Forward(start, 1, n);
    forall k | 0 <= k < |elements| - 1
      ensures store[Forward(next, k, n)] == Some(elements[k + 1])
    {
      ForwardReduce(start + 1, k, n);
      assert Forward(next, k, n) == Forward(start, k + 1, n);
    }
  }

  /** Reducing the start offset to a slot changes nothing about the layout. */
  lemma HoldsReduce<T>(store: seq<Option<T>>, start: nat, elements: seq<T>)
    requires Holds(store, start, elements) && |store| > 0
    ensures Holds(store, Forward(start, 0, |store|), elements)
  {
    var n := |store|;
    forall k | 0 <= k < |elements|
      ensures store[Forward(Forward(start, 0, n), k, n)] == Some(elements[k])
    {
      ForwardReduce(start, k, n);
    }
  }

  /** `buffer.copy()`: a fresh store with the same slots. */
  method CopyStore<T>(a: array<Option<T>>) returns (b: array<Option<T>>)
    ensures fresh(b) && b.Length == a.Length && b[..] == a[..]
  {
    b := new Option<T>[a.Length](i reads a => if 0 <= i < a.Length then a[i] else None);
  }

  /** `RingBuffer<T>`: the store, the start offset and the logical length.
      `Contents` is the logical view, oldest element first. */
  class RingBuffer<T> {
    const buffer: array<Option<T>>
    var startIndex: nat
    var size: nat
    ghost var Contents: seq<T>

    /** Logical element `k` lives in slot `(startIndex + k) % capacity`, and
        the buffer never holds more than `capacity` elements. */
    ghost predicate Valid()
      reads this, buffer
    {
      |Contents| == size && Holds(buffer[..], startIndex, Contents)
    }

    /** `RingBuffer.build(size, empty)`: every slot holds `empty`. */
    constructor Build(capacity: nat, empty: T)
      ensures Valid() && fresh(buffer)
      ensures buffer.Length == capacity && startIndex == 0 && size == 0 && Contents == []
      ensures forall i :: 0 <= i < capacity ==> buffer[i] == Some(empty)
    {
      buffer := new Option<T>[capacity](_ => Some(empty));
      startIndex, size := 0, 0;
      Contents := [];
    }

    /** `RingBuffer.boxing(size)`: every slot holds `null`. */
    constructor Boxing(capacity: nat)
      ensures Valid() && fresh(buffer)
      ensures buffer.Length == capacity && startIndex == 0 && size == 0 && Contents == []
      ensures forall i :: 0 <= i < capacity ==> buffer[i] == None
    {
      buffer := new Option<T>[capacity](_ => None);
      startIndex, size := 0, 0;
      Contents := [];
    }

    /** `get(index)`: logical element `index`, oldest first; an index outside
        `[0, size)` throws, negative indices with their own message. */
    function Get(index: int): (r: Result<T, Error>)
      reads this, buffer
      requires Valid()
      ensures r.Success? <==> 0 <= index < |Contents|
      ensures r.Success? ==> r.value == Contents[index]
      ensures index < 0 ==> r == Failure(IndexNegative)
      ensures 0 <= |Contents| <= index ==> r == Failure(IndexBeyondSize(index, |Contents|))
    {
      if index < 0 then Failure(IndexNegative)
      else if index >= size then Failure(IndexBeyondSize(index, size))
      else
        assert buffer[..][Forward(startIndex, index, buffer.Length)] == Some(Contents[index]);
        Success(buffer[Forward(startIndex, index, buffer.Length)].value)
    }

    /** `isFull()`: the buffer holds `capacity` elements. */
    function IsFull(): (full: bool)
      reads this, buffer
      ensures Valid() ==> (full <==> |Contents| == buffer.Length)
    {
      size == buffer.Length
    }

    /** `push(element)`: writes at slot `(startIndex + size) % capacity`; on a
        full buffer that is the oldest element's slot, which is evicted by
        advancing `startIndex`, otherwise `size` grows.  A store of size 0
        makes the `%` throw before anything changes. */
    method Push(element: T) returns (outcome: Outcome<Error>)
      requires Valid()
      modifies this, buffer
      ensures Valid()
      ensures buffer.Length == 0 ==> outcome == Fail(DivisionByZero)
      ensures buffer.Length == 0 ==> startIndex == old(startIndex) && size == old(size) && Contents == old(Contents)
      ensures buffer.Length > 0 ==> outcome == Pass
      ensures buffer.Length > 0 ==>
        buffer[..] == old(buffer[..])[Forward(old(startIndex), old(size), buffer.Length) := Some(element)]
      ensures buffer.Length > 0 && old(size) < buffer.Length ==>
        size == old(size) + 1 && startIndex == old(startIndex) && Contents == old(Contents) + [element]
      ensures buffer.Length > 0 && old(size) == buffer.Length ==>
        size == old(size) && startIndex == old(startIndex) + 1 && Contents == old(Contents)[1..] + [element]
      ensures buffer.Length > 0 ==> Contents == Window(old(Contents) + [element], buffer.Length)
    {
      if buffer.Length == 0 {
        return Fail(DivisionByZero);
      }
      outcome := Pass;
      var slot := Forward(startIndex, size, buffer.Length);
      ghost var before := buffer[..];
      buffer[slot] := Some(element);
      assert buffer[..] == before[slot := Some(element)];
      if IsFull() {
        HoldsEvict(before, startIndex, Contents, element);
        startIndex := startIndex + 1;
        Contents := Contents[1..] + [element];
      } else {
        HoldsAppend(before, startIndex, Contents, element);
        size := size + 1;
        Contents := Contents + [element];
      }
    }

    /** `iterator()`, as written: the iterator starts at the unreduced
        `startIndex` over a copy of the store taken at creation. */
    method Iterator() returns (it: RingIterator<T>)
      requires Valid()
      ensures fresh(it) && fresh(it.copy) && it.Valid()
      ensures it.copy[..] == buffer[..] && it.count == size && it.index == startIndex
      ensures it.Remaining == Contents
    {
      var copy := CopyStore(buffer);
      it := new RingIterator(copy, size, startIndex, Contents);
    }

    /** `iterator()` with its start reduced to a slot, `startIndex.forward(0)`,
        as every other read of the store does. */
    method IteratorCorrected() returns (it: RingIterator<T>)
      requires Valid()
      ensures fresh(it) && fresh(it.copy) && it.Valid()
      ensures it.copy[..] == buffer[..] && it.count == size
      ensures it.index < it.copy.Length || it.count == 0
      ensures it.Remaining == Contents
    {
      var copy := CopyStore(buffer);
      var index := startIndex;
      if buffer.Length > 0 {
        index := Forward(startIndex, 0, buffer.Length);
        HoldsReduce(buffer[..], startIndex, Contents);
      }
      it := new RingIterator(copy, size, index, Contents);
    }

    /** Iterating the buffer as written (`for (e in buffer)`) gives its
        elements oldest first while `startIndex` is still a slot; once it has
        reached the capacity the very first read leaves the copied store. */
    method Elements() returns (r: Result<seq<T>, Error>)
      requires Valid()
      ensures startIndex < buffer.Length || size == 0 ==> r == Success(Contents)
      ensures startIndex >= buffer.Length && size > 0 ==> r == Failure(StoreIndexOutOfBounds(startIndex))
    {
      var it := Iterator();
      r := it.Drain();
    }

    /** Iterating through the corrected iterator: exactly the `size` elements,
        `get(0)` to `get(size - 1)`, in that order. */
    method ElementsCorrected() returns (r: Result<seq<T>, Error>)
      requires Valid()
      ensures r == Success(Contents)
      ensures |r.value| == size
      ensures forall i :: 0 <= i < size ==> Get(i) == Success(r.value[i])
    {
      var it := IteratorCorrected();
      r := it.Drain();
    }

    /** `snapshot()`, as written: a view of `size` elements over a copy of
        the store, whose element `i` is read at
        `copy[startIndex.forward(i)]` with the LIVE `startIndex` of this
        buffer. */
    method Snapshot() returns (snap: LiveSnapshot<T>)
      requires Valid()
      ensures fresh(snap) && fresh(snap.copy) && snap.Valid()
      ensures snap.owner == this && snap.size == size && snap.copy[..] == buffer[..]
      ensures forall i :: 0 <= i < size ==> snap.Get(i) == Some(Contents[i])
    {
      var copy := CopyStore(buffer);
      snap := new LiveSnapshot(this, copy, size);
      forall i | 0 <= i < size
        ensures snap.Get(i) == Some(Contents[i])
      {
        assert copy[..][Forward(startIndex, i, copy.Length)] == Some(Contents[i]);
      }
    }

    /** `snapshot()` with the start offset captured at the time of the copy,
        so that the view no longer refers to this buffer at all. */
    method SnapshotCorrected() returns (snap: StableSnapshot<T>)
      requires Valid()
      ensures fresh(snap) && fresh(snap.copy) && snap.Valid()
      ensures snap.size == size && snap.Elements == Contents
      ensures forall i :: 0 <= i < size ==> snap.Get(i) == Contents[i]
    {
      var copy := CopyStore(buffer);
      snap := new StableSnapshot(startIndex, copy, size, Contents);
    }
  }

  /** The `AbstractIterator` that `iterator()` returns: `count` elements are
      left, the next one in slot `index` of its private copy `copy`. */
  class RingIterator<T> {
    const copy: array<Option<T>>
    var count: nat
    var index: nat
    ghost var Remaining: seq<T>

    ghost predicate Valid()
      reads this, copy
    {
      count == |Remaining| && Holds(copy[..], index, Remaining)
    }

    constructor (copy: array<Option<T>>, count: nat, index: nat, ghost remaining: seq<T>)
      requires count == |remaining| && Holds(copy[..], index, remaining)
      ensures this.copy == copy && this.count == count && this.index == index && Remaining == remaining
      ensures Valid()
    {
      this.copy := copy;
      this.count := count;
      this.index := index;
      Remaining := remaining;
    }

    /** `computeNext()`: `None` once `count` is 0 (`done()`); otherwise the
        value in slot `index` (`setNext`), after which `index` moves one
        slot on and `count` drops.  Reading slot `index` throws when it lies
        outside the copy. */
    method ComputeNext() returns (r: Result<Option<T>, Error>)
      requires Valid()
      modifies this
      ensures Valid()
      ensures old(count) == 0 ==> r == Success(None) && count == 0 && index == old(index) && Remaining == old(Remaining)
      ensures old(count) > 0 && old(index) >= copy.Length ==>
        r == Failure(StoreIndexOutOfBounds(old(index))) && count == old(count) && index == old(index)
        && Remaining == old(Remaining)
      ensures old(count) > 0 && old(index) < copy.Length ==>
        r == Success(Some(old(Remaining)[0])) && Remaining == old(Remaining)[1..]
        && count == old(count) - 1 && index == Forward(old(index), 1, copy.Length)
    {
      if count == 0 {
        return Success(None);
      }
      if index >= copy.Length {
        return Failure(StoreIndexOutOfBounds(index));
      }
      ModUnique(index, copy.Length, 0, index);
      assert copy[..][Forward(index, 0, copy.Length)] == Some(Remaining[0]);
      r := Success(Some(copy[index].value));
      HoldsAdvance(copy[..], index, Remaining);
      index := Forward(index, 1, copy.Length);
      count := count - 1;
      Remaining := Remaining[1..];
    }

    /** Runs the iterator to the end, collecting what it yields. */
    method Drain() returns (r: Result<seq<T>, Error>)
      requires Valid()
      modifies this
      ensures old(count) == 0 || old(index) < copy.Length ==> r == Success(old(Remaining))
      ensures old(count) > 0 && old(index) >= copy.Length ==> r == Failure(StoreIndexOutOfBounds(old(index)))
      ensures Valid()
      ensures r.Success? ==> count == 0 && Remaining == []
      ensures r.Failure? ==> count == old(count) && index == old(index) && Remaining == old(Remaining)
    {
      var first := ComputeNext();
      if first.Failure? {
        return Failure(first.error);
      }
      if first.value.None? {
        assert Remaining == [];
        assert old(Remaining) == [];
        return Success([]);
      }
      var acc := [first.value.value];
      assert old(Remaining) == acc + Remaining;
      while count > 0
        invariant Valid()
        invariant old(Remaining) == acc + Remaining
        invariant count > 0 ==> index < copy.Length
        decreases count
      {
        ghost var rest := Remaining;
        var step := ComputeNext();
        assert rest == [step.value.value] + Remaining;
        acc := acc + [step.value.value];
      }
      assert Remaining == [];
      assert old(Remaining) == acc;
      r := Success(acc);
    }
  }

  /** The `VirtualBuffer` that `snapshot()` returns, as written: `size`
      elements over a private copy, read through the owner's live
      `startIndex`.  The unchecked `as T` lets a `null` slot through, so an
      element is an `Option`. */
  class LiveSnapshot<T> {
    const owner: RingBuffer<T>
    const copy: array<Option<T>>
    const size: nat

    ghost predicate Valid()
      reads this
    {
      size <= copy.Length
    }

    constructor (owner: RingBuffer<T>, copy: array<Option<T>>, size: nat)
      requires size <= copy.Length
      ensures this.owner == owner && this.copy == copy && this.size == size && Valid()
    {
      this.owner := owner;
      this.copy := copy;
      this.size := size;
    }

    /** Element `i` of the view: `copy[startIndex.forward(i)]`.  Whatever
        the owner's `startIndex` has become, the read stays inside the
        copy. */
    function Get(i: int): (slot: Option<T>)
      reads this, owner, copy
      requires Valid() && 0 <= i < size
      ensures slot in copy[..]
    {
      copy[Forward(owner.startIndex, i, copy.Length)]
    }
  }

  /** The corrected snapshot view: the start offset is captured with the
      copy, so the view depends on nothing but itself. */
  class StableSnapshot<T> {
    const start: nat
    const copy: array<Option<T>>
    const size: nat
    ghost const Elements: seq<T>

    ghost predicate Valid()
      reads this, copy
    {
      size == |Elements| && Holds(copy[..], start, Elements)
    }

    constructor (start: nat, copy: array<Option<T>>, size: nat, ghost elements: seq<T>)
      requires size == |elements| && Holds(copy[..], start, elements)
      ensures this.start == start && this.copy == copy && this.size == size && Elements == elements
      ensures Valid()
    {
      this.start := start;
      this.copy := copy;
      this.size := size;
      Elements := elements;
    }

    /** Element `i` of the view, oldest first. */
    function Get(i: int): (e: T)
      reads this, copy
      requires Valid() && 0 <= i < size
      ensures e == Elements[i]
    {
      assert copy[..][Forward(start, i, copy.Length)] == Some(Elements[i]);
      copy[Forward(start, i, copy.Length)].value
    }
  }

  /** Pushing `elements` one after another, as a sliding-window producer
      does, leaves the last `capacity` elements of the whole history, oldest
      first. */
  method PushEach<T>(rb: RingBuffer<T>, elements: seq<T>)
    requires rb.Valid() && rb.buffer.Length > 0
    modifies rb, rb.buffer
    ensures rb.Valid()
    ensures rb.Contents == Window(old(rb.Contents) + elements, rb.buffer.Length)
  {
    ghost var history := rb.Contents;
    var c := rb.buffer.Length;
    var i := 0;
    assert history + elements[..0] == history;
    while i < |elements|
      invariant 0 <= i <= |elements|
      invariant rb.Valid()
      invariant rb.Contents == Window(history + elements[..i], c)
    {
      var outcome := rb.Push(elements[i]);
      WindowStep(history, elements, i, c);
      i := i + 1;
    }
    assert elements[..i] == elements;
  }

  /** One step of `PushEach`: the window after pushing `elements[i]`. */
  lemma WindowStep<T>(history: seq<T>, elements: seq<T>, i: nat, c: nat)
    requires i < |elements| && c > 0
    ensures Window(Window(history + elements[..i], c) + [elements[i]], c) == Window(history + elements[..i + 1], c)
  {
    var before, e := history + elements[..i], elements[i];
    calc {
      Window(Window(before, c) + [e], c);
      { WindowPush(before, e, c); }
      Window(before + [e], c);
      { assert elements[..i + 1] == elements[..i] + [e];
        assert before + [e] == history + elements[..i + 1]; }
      Window(history + elements[..i + 1], c);
    }
  }

  /** A corrected snapshot is untouched by any later push. */
  method PushLeavesStableSnapshot<T>(rb: RingBuffer<T>, snap: StableSnapshot<T>, e: T)
    requires rb.Valid() && snap.Valid() && snap.copy != rb.buffer
    modifies rb, rb.buffer
    ensures snap.Valid()
    ensures forall i :: 0 <= i < snap.size ==> snap.Get(i) == old(snap.Get(i))
  {
    var outcome := rb.Push(e);
  }

  /** Capacity 3 and pushes 1, 2, 3, 4: the oldest element 1 is evicted, so
      `get(0)` is 2, `get(2)` is 4, `get(3)` throws, the buffer is full, and
      both the as-written snapshot, read right after capture, and the
      corrected one read 2, 3, 4. */
  method ThreeSlotScenario() returns (oldest: Result<int, Error>, newest: Result<int, Error>,
                                      beyond: Result<int, Error>, full: bool,
                                      liveWindow: seq<Option<int>>, window: seq<int>)
    ensures oldest == Success(2) && newest == Success(4)
    ensures beyond == Failure(IndexBeyondSize(3, 3)) && full
    ensures liveWindow == [Some(2), Some(3), Some(4)]
    ensures window == [2, 3, 4]
  {
    var rb := ThreeSlotRing();
    oldest, newest, beyond := rb.Get(0), rb.Get(2), rb.Get(3);
    full := rb.IsFull();
    var live := rb.Snapshot();
    liveWindow := [live.Get(0), live.Get(1), live.Get(2)];
    var snap := rb.SnapshotCorrected();
    window := [snap.Get(0), snap.Get(1), snap.Get(2)];
  }

  /** `build(3, 0)`, then `push(1)` to `push(4)`: 1 is evicted. */
  method ThreeSlotRing() returns (rb: RingBuffer<int>)
    ensures rb.Valid() && rb.buffer.Length == 3
    ensures rb.startIndex == 1 && rb.size == 3 && rb.Contents == [2, 3, 4]
  {
    rb := new RingBuffer<int>.Build(3, 0);
    var outcome := rb.Push(1);
    outcome := rb.Push(2);
    outcome := rb.Push(3);
    outcome := rb.Push(4);
  }

  /** The as-written iterator on a one-slot ring after one eviction: its
      first read is slot 1 of a one-slot copy, while the corrected iterator
      yields the one element. */
  method IteratorOverrunExample() returns (asWritten: Result<seq<int>, Error>, corrected: Result<seq<int>, Error>)
    ensures asWritten == Failure(StoreIndexOutOfBounds(1))
    ensures corrected == Success([8])
  {
    var rb := OneSlotAfterEviction();
    asWritten := rb.Elements();
    corrected := rb.ElementsCorrected();
  }

  /** `boxing(1)`, then `push(7)` and `push(8)`: 7 is evicted and
      `startIndex` has reached the capacity. */
  method OneSlotAfterEviction() returns (rb: RingBuffer<int>)
    ensures rb.Valid() && rb.buffer.Length == 1
    ensures rb.startIndex == 1 && rb.size == 1 && rb.Contents == [8]
  {
    rb := new RingBuffer<int>.Boxing(1);
    var outcome := rb.Push(7);
    outcome := rb.Push(8);
  }

  /** The as-written snapshot drifts when a later push evicts: taken over
      [1, 2] in a two-slot ring, its element 0 reads 2 after `push(3)`,
      while a corrected snapshot taken at the same time still reads 1. */
  method SnapshotDriftExample() returns (before: Option<int>, after: Option<int>, stable: int)
    ensures before == Some(1) && after == Some(2)
    ensures stable == 1
  {
    var rb, live, fixed := FullSnapshots();
    before := live.Get(0);
    var outcome := rb.Push(3);
    assert rb.startIndex == 1;
    after := live.Get(0);
    stable := fixed.Get(0);
  }

  /** A snapshot taken over [1] in a two-slot ring reads the never-written
      `null` slot as its element 0 once two more pushes have evicted 1. */
  method SnapshotNullExample() returns (leaked: Option<int>)
    ensures leaked == None
  {
    var rb, early := EarlySnapshot();
    var outcome := rb.Push(2);
    outcome := rb.Push(3);
    assert rb.startIndex == 1;
    leaked := early.Get(0);
  }

  /** `boxing(2)`, `push(1)`, then `snapshot()`: slot 1 of the copy is still
      the `null` the store was filled with. */
  method EarlySnapshot() returns (rb: RingBuffer<int>, early: LiveSnapshot<int>)
    ensures fresh(rb) && fresh(rb.buffer)
    ensures rb.Valid() && rb.buffer.Length == 2 && rb.startIndex == 0 && rb.size == 1
    ensures early.Valid() && early.owner == rb && early.size == 1
    ensures early.copy != rb.buffer && early.copy.Length == 2 && early.copy[1] == None
  {
    rb := new RingBuffer<int>.Boxing(2);
    var outcome := rb.Push(1);
    early := rb.Snapshot();
    assert early.copy[1] == None;
  }

  /** `boxing(2)`, `push(1)`, `push(2)`, then one snapshot as written and
      one corrected: both copies hold 1 in slot 0 and 2 in slot 1. */
  method FullSnapshots() returns (rb: RingBuffer<int>, live: LiveSnapshot<int>, fixed: StableSnapshot<int>)
    ensures fresh(rb) && fresh(rb.buffer)
    ensures rb.Valid() && rb.buffer.Length == 2 && rb.startIndex == 0 && rb.size == 2
    ensures live.Valid() && live.owner == rb && live.size == 2
    ensures live.copy != rb.buffer && live.copy.Length == 2 && live.copy[..] == [Some(1), Some(2)]
    ensures fixed.Valid() && fixed.copy != rb.buffer && fixed.size == 2 && fixed.Elements == [1, 2]
  {
    rb := new RingBuffer<int>.Boxing(2);
    var outcome := rb.Push(1);
    outcome := rb.Push(2);
    assert rb.buffer[..] == [Some(1), Some(2)];
    live := rb.Snapshot();
    fixed := rb.SnapshotCorrected();
  }
}
