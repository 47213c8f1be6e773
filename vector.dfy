/** Vector<T>: a growable array over a heap buffer `data` with a logical `size` and an
    allocated `capacity`.  The buffer pointer is `null` only after the vector has been
    moved from.  Slots `[size, capacity)` hold whatever the buffer held before
    (for `char` in the source: uninitialised memory), so no contract below says what
    they contain unless the source puts a known value there. */
module Vectors {
  import opened Wrappers
  import opened VectorIterators

  /** `after` is `before` with `block` written over it from index `at` on. */
  lemma Overwritten<T>(after: seq<T>, before: seq<T>, at: nat, block: seq<T>)
    requires |after| == |before| && at + |block| <= |before|
    requires forall k :: at <= k < at + |block| ==> after[k] == block[k - at]
    requires forall k :: 0 <= k < |after| && !(at <= k < at + |block|) ==> after[k] == before[k]
    ensures after == before[..at] + block + before[at + |block|..]
  {
    var whole := before[..at] + block + before[at + |block|..];
    assert |whole| == |after|;
    forall k | 0 <= k < |after|
      ensures after[k] == whole[k]
    {
      if k < at {
        assert whole[k] == before[k];
      } else if k < at + |block| {
        assert whole[k] == block[k - at];
      } else {
        assert whole[k] == before[k];
      }
    }
  }

  /** Shifting `before[p..size)` up by `|block|` and then writing `block` at `p` leaves
      `block` spliced into the first `size` elements at `p`. */
  lemma Spliced<T>(before: seq<T>, shifted: seq<T>, after: seq<T>, p: nat, size: nat, n: nat, block: seq<T>)
    requires p <= size && size + n <= |before| && |block| == n
    requires shifted == before[..size + n - (size - p)] + before[p..size] + before[size + n..]
    requires after == shifted[..p] + block + shifted[p + n..]
    ensures after[..size + n] == before[..size][..p] + block + before[..size][p..]
  {
    var live := before[..size];
    var want := live[..p] + block + live[p..];
    assert |want| == size + n;
    forall k | 0 <= k < size + n
      ensures after[k] == want[k]
    {
      if k < p {
        assert after[k] == shifted[k] == before[k];
      } else if k < p + n {
        assert after[k] == block[k - p];
      } else {
        assert after[k] == shifted[k] == before[k - n];
      }
    }
  }

  /** Shifting `before[p..size)` up by one and then writing `v` at `p` leaves `v`
      inserted into the first `size` elements at `p`. */
  lemma ShiftedIn<T>(before: seq<T>, shifted: seq<T>, after: seq<T>, p: nat, size: nat, v: T)
    requires p <= size && size + 1 <= |before|
    requires shifted == before[..size + 1 - (size - p)] + before[p..size] + before[size + 1..]
    requires after == shifted[p := v]
    ensures after[..size + 1] == before[..size][..p] + [v] + before[..size][p..]
  {
    var live := before[..size];
    var want := live[..p] + [v] + live[p..];
    assert |want| == size + 1;
    forall k | 0 <= k < size + 1
      ensures after[k] == want[k]
    {
      if k < p {
        assert after[k] == shifted[k] == before[k];
      } else if k > p {
        assert after[k] == shifted[k] == before[k - 1];
      }
    }
  }

  /** std::copy within one buffer toward lower addresses: the block `a[from..to)` is
      copied so that it starts at `dst <= from`. */
  method CopyDown<T>(a: array<T>, from: nat, to: nat, dst: nat)
    requires dst <= from <= to <= a.Length
    modifies a
    ensures a[..] == old(a[..dst]) + old(a[from..to]) + old(a[dst + (to - from)..])
  {
    ghost var before := a[..];
    ghost var block := a[from..to];
    var i := 0;
    while i < to - from
      invariant 0 <= i <= to - from
      invariant forall k :: dst <= k < dst + i ==> a[k] == block[k - dst]
      invariant forall k :: 0 <= k < a.Length && !(dst <= k < dst + i) ==> a[k] == before[k]
    {
      assert a[from + i] == block[i];
      a[dst + i] := a[from + i];
      i := i + 1;
    }
    Overwritten(a[..], before, dst, block);
  }

  /** std::copy_backward within one buffer toward higher addresses: the block
      `a[from..to)` is copied so that it ends at `dstEnd >= to`, last element first. */
  method CopyUp<T>(a: array<T>, from: nat, to: nat, dstEnd: nat)
    requires from <= to <= dstEnd <= a.Length
    modifies a
    ensures a[..] == old(a[..dstEnd - (to - from)]) + old(a[from..to]) + old(a[dstEnd..])
  {
    ghost var before := a[..];
    ghost var block := a[from..to];
    ghost var at := dstEnd - (to - from);
    var i := 0;
    while i < to - from
      invariant 0 <= i <= to - from
      invariant forall k :: dstEnd - i <= k < dstEnd ==> a[k] == block[k - at]
      invariant forall k :: 0 <= k < a.Length && !(dstEnd - i <= k < dstEnd) ==> a[k] == before[k]
    {
      assert a[to - 1 - i] == block[to - from - 1 - i];
      a[dstEnd - 1 - i] := a[to - 1 - i];
      i := i + 1;
    }
    Overwritten(a[..], before, at, block);
  }

  /** std::copy from one buffer into another: `n` elements starting at `src[srcFrom]`
      land at `dst[dstFrom..dstFrom + n)`. */
  method CopyBetween<T>(src: array<T>, srcFrom: nat, dst: array<T>, dstFrom: nat, n: nat)
    requires src != dst
    requires srcFrom + n <= src.Length && dstFrom + n <= dst.Length
    modifies dst
    ensures dst[..] == old(dst[..dstFrom]) + src[srcFrom..srcFrom + n] + old(dst[dstFrom + n..])
  {
    ghost var before := dst[..];
    ghost var block := src[srcFrom..srcFrom + n];
    var i := 0;
    while i < n
      invariant 0 <= i <= n
      invariant forall k :: dstFrom <= k < dstFrom + i ==> dst[k] == block[k - dstFrom]
      invariant forall k :: 0 <= k < dst.Length && !(dstFrom <= k < dstFrom + i) ==> dst[k] == before[k]
    {
      dst[dstFrom + i] := src[srcFrom + i];
      i := i + 1;
    }
    Overwritten(dst[..], before, dstFrom, block);
  }

  /** copy_backward of `a[p..size)` up by `dist`, then std::copy of `dist` elements of
      another buffer into the gap: the block lands among the first `size` elements at `p`. */
  method SpliceArray<T>(a: array<T>, size: nat, p: nat, src: array<T>, from: nat, dist: nat)
    requires src != a && p <= size && size + dist <= a.Length && from + dist <= src.Length
    modifies a
    ensures a[..size + dist] == old(a[..size])[..p] + src[from..from + dist] + old(a[..size])[p..]
  {
    ghost var before := a[..];
    CopyUp(a, p, size, size + dist);
    ghost var shifted := a[..];
    CopyBetween(src, from, a, p, dist);
    ghost var after := a[..];
    Spliced(before, shifted, after, p, size, dist, src[from..from + dist]);
  }

  /** copy_backward of `a[p..size)` up by one slot, then `v` written at `p`: `v` lands
      among the first `size` elements at `p`. */
  method InsertArray<T>(a: array<T>, size: nat, p: nat, v: T)
    requires p <= size < a.Length
    modifies a
    ensures a[..size + 1] == old(a[..size])[..p] + [v] + old(a[..size])[p..]
  {
    ghost var before := a[..];
    CopyUp(a, p, size, size + 1);
    ghost var shifted := a[..];
    a[p] := v;
    ShiftedIn(before, shifted, a[..], p, size, v);
  }

  /** The capacity the growth loop of the range insert reaches: `cap` doubled until the
      free room `cap - size` holds `dist` more elements. */
  function GrownCapacity(cap: nat, size: nat, dist: nat): (r: nat)
    requires cap > 0 || size + dist <= cap
    decreases size + dist - cap
    ensures r >= cap && r >= size + dist
    ensures r == cap || (r % 2 == 0 && r / 2 < size + dist)
  {
    if size + dist <= cap then cap else GrownCapacity(2 * cap, size, dist)
  }

  /** The capacity after `k` rounds of the growth step `resize(capacity * 2)` that
      push_back, push_front, insert and the range insert all use. */
  function Doublings(cap: nat, k: nat): (r: nat)
    ensures r >= cap
    decreases k
  {
    if k == 0 then cap else 2 * Doublings(cap, k - 1)
  }

  /** A vector of capacity zero (from `Vector(0)` or a move) never gains room from the
      growth step, however often it runs: push_back then writes past the buffer and the
      range insert loops forever. */
  lemma {:induction false} ZeroCapacityNeverGrows(k: nat)
    ensures Doublings(0, k) == 0
    decreases k
  {
    if k > 0 {
      ZeroCapacityNeverGrows(k - 1);
    }
  }

  /** The growth evidently intended: doubling from at least one, so every request for
      room is met. */
  function GrownCapacityFromOne(cap: nat, size: nat, dist: nat): (r: nat)
    ensures r >= cap && r >= 1 && r >= size + dist
  {
    GrownCapacity(if cap == 0 then 1 else cap, size, dist)
  }

  /** The capacity after the intended single growth step of push_back: a full buffer,
      even one of capacity zero, then has room for one more element. */
  function PushCapacityFromOne(cap: nat, size: nat): (r: nat)
    requires size <= cap
    ensures r > size && r >= cap
  {
    if size == cap then 2 * (if cap == 0 then 1 else cap) else cap
  }

  class Vector<T(0)> {
    var data: array?<T>
    var size: nat
    var capacity: nat
    ghost var Repr: set<object>

    /** The class invariant: `size <= capacity`, and `capacity` is the length of the
        buffer, which is absent only with capacity 0. */
    ghost predicate Valid()
      reads this, Repr
      ensures Valid() ==> this in Repr
    {
      && this in Repr
      && size <= capacity
      && (data == null ==> capacity == 0 && Repr == {this})
      && (data != null ==> data.Length == capacity && Repr == {this, data})
    }

    /** The live elements `[0, size)`. */
    function Elements(): (s: seq<T>)
      reads this, Repr
      requires Valid()
      ensures |s| == size
    {
      if data == null then [] else data[..size]
    }

    /** Vector(): an empty vector with room for one element. */
    constructor ()
      ensures Valid() && fresh(Repr)
      ensures Elements() == [] && capacity == 1 && data != null
    {
      var buffer := new T[1];
      data := buffer;
      size, capacity := 0, 1;
      Repr := {this, buffer};
    }

    /** Vector(size_t capacity): `n` default-initialised elements, and no spare room. */
    constructor WithCapacity(n: nat)
      ensures Valid() && fresh(Repr)
      ensures size == n && capacity == n && data != null
    {
      var buffer := new T[n];
      data := buffer;
      size, capacity := n, n;
      Repr := {this, buffer};
    }

    /** Vector(size_t size, T default_value): `n` copies of `value` in a buffer of
        twice that capacity. */
    constructor Filled(n: nat, value: T)
      ensures Valid() && fresh(Repr)
      ensures Elements() == seq(n, _ => value) && capacity == 2 * n
    {
      var buffer := new T[2 * n];
      var i := 0;
      while i < n
        invariant 0 <= i <= n
        invariant forall k :: 0 <= k < i ==> buffer[k] == value
      {
        buffer[i] := value;
        i := i + 1;
      }
      data := buffer;
      size, capacity := n, 2 * n;
      Repr := {this, buffer};
    }

    /** Vector(std::initializer_list<T>): exactly the listed elements, no spare room. */
    constructor FromList(list: seq<T>)
      ensures Valid() && fresh(Repr)
      ensures Elements() == list && capacity == |list|
    {
      var buffer := new T[|list|](i requires 0 <= i < |list| => list[i]);
      data := buffer;
      size, capacity := |list|, |list|;
      Repr := {this, buffer};
    }

    /** The copy constructor: the fields start out as the in-class defaults (no buffer),
        then the copy assignment runs. */
    constructor CopyOf(other: Vector<T>)
      requires other.Valid()
      ensures Valid() && fresh(Repr) && Repr !! other.Repr
      ensures Elements() == other.Elements() && size == other.size && capacity == other.capacity
    {
      data := null;
      size, capacity := 0, 0;
      Repr := {this};
      new;
      Assign(other);
    }

    /** The move constructor: from the in-class defaults, the move assignment runs. */
    constructor MoveFrom(other: Vector<T>)
      requires other.Valid()
      modifies other
      ensures Valid() && Repr == old(other.Repr) - {other} + {this}
      ensures Elements() == old(other.Elements())
      ensures size == old(other.size) && capacity == old(other.capacity) && data == old(other.data)
      ensures other.Valid() && other.data == null && other.size == 0 && other.capacity == 0
    {
      data := null;
      size, capacity := 0, 0;
      Repr := {this};
      new;
      MoveAssign(other);
    }

    /** begin(): the first slot. */
    function Begin(): (r: Iterator)
      ensures r.pos == 0
    {
      Iterator(0)
    }

    /** end(): one past the last live element. */
    function End(): (r: Iterator)
      reads this, Repr
      requires Valid()
      ensures r.pos == |Elements()|
    {
      Iterator(size)
    }

    /** is_empty(). */
    function IsEmpty(): (r: bool)
      reads this, Repr
      requires Valid()
      ensures r <==> Elements() == []
    {
      size == 0
    }

    /** get_size(): the number of live elements. */
    function GetSize(): (r: nat)
      reads this, Repr
      requires Valid()
      ensures r == |Elements()|
    {
      size
    }

    /** *it, read: the buffer slot an iterator points at. */
    function Load(it: Iterator): (r: T)
      reads this, Repr
      requires Valid() && 0 <= it.pos < capacity
      ensures it.pos < size ==> r == Elements()[it.pos]
    {
      data[it.pos]
    }

    /** *it = value: writes exactly the slot the iterator points at. */
    method Store(it: Iterator, value: T)
      requires Valid() && 0 <= it.pos < capacity
      modifies data
      ensures Valid() && data[..] == old(data[..])[it.pos := value]
      ensures it.pos < size ==> Elements() == old(Elements())[it.pos := value]
      ensures it.pos >= size ==> Elements() == old(Elements())
    {
      data[it.pos] := value;
    }

    /** operator[] (const): the element at `index`; out_of_range when `index >= size`. */
    function Get(index: nat): (r: Result<T>)
      reads this, Repr
      requires Valid()
      ensures r.Ok? <==> index < |Elements()|
      ensures r.Ok? ==> r.value == Elements()[index]
      ensures r.Err? ==> r.error == OutOfRange
    {
      if index >= size then Err(OutOfRange) else Ok(data[index])
    }

    /** operator[] used as an lvalue: `v[index] = value`, with the same range check. */
    method SetAt(index: nat, value: T) returns (r: Outcome)
      requires Valid()
      modifies data
      ensures Valid()
      ensures r == if index < old(size) then Pass else Fail(OutOfRange)
      ensures r.Pass? ==> Elements() == old(Elements())[index := value]
      ensures r.Fail? ==> Elements() == old(Elements())
    {
      if index >= size {
        return Fail(OutOfRange);
      }
      data[index] := value;
      r := Pass;
    }

    /** resize(new_size): rejects a capacity below the size with runtime_error, otherwise
        moves the live elements into a fresh buffer of exactly `n` slots — which may be
        smaller than the old capacity. */
    method Resize(n: nat) returns (r: Outcome)
      requires Valid()
      modifies Repr
      ensures Valid() && fresh(Repr - old(Repr))
      ensures r == if n < old(size) then Fail(RuntimeError) else Pass
      ensures r.Fail? ==> Repr == old(Repr) && data == old(data) && unchanged(Repr)
      ensures r.Pass? ==> data != null && fresh(data) && capacity == n && size == old(size)
      ensures Elements() == old(Elements())
    {
      if n < size {
        return Fail(RuntimeError);
      }
      var newData := new T[n];
      if data != null {
        CopyBetween(data, 0, newData, 0, size);
        assert newData[..size] == data[..size];
      }
      capacity := n;
      data := newData;
      Repr := {this, data};
      r := Pass;
    }

    /** push_back(value): doubles the capacity when the buffer is full, then appends. */
    method PushBack(value: T)
      requires Valid() && capacity > 0
      modifies Repr
      ensures Valid() && fresh(Repr - old(Repr))
      ensures Elements() == old(Elements()) + [value]
      ensures capacity == if old(size) == old(capacity) then 2 * old(capacity) else old(capacity)
    {
      if size == capacity {
        var _ := Resize(capacity * 2);
      }
      data[size] := value;
      size := size + 1;
      assert Elements() == old(Elements()) + [value];
    }

    /** push_front(value): shifts `[0, size)` one slot up and writes `value` at the
        front, but never increments `size`: the old last element is left in the slack
        slot at index `size`. */
    method PushFront(value: T)
      requires Valid() && capacity > 0
      modifies Repr
      ensures Valid() && fresh(Repr - old(Repr))
      ensures size == old(size) && data != null && size < data.Length
      ensures data[..size + 1] == [value] + old(Elements())
      ensures Elements() == ([value] + old(Elements()))[..size]
      ensures capacity == if old(size) == old(capacity) then 2 * old(capacity) else old(capacity)
    {
      if size == capacity {
        var _ := Resize(capacity * 2);
      }
      InsertArray(data, size, 0, value);
    }

    /** pop_back(): decrements `size`; on an empty vector the unsigned size would wrap. */
    method PopBack()
      requires Valid() && size > 0
      modifies this
      ensures Valid() && Repr == old(Repr) && data == old(data) && capacity == old(capacity)
      ensures Elements() == old(Elements())[..old(size) - 1]
    {
      size := size - 1;
    }

    /** pop_front(): shifts `[1, size)` one slot down and decrements `size`. */
    method PopFront()
      requires Valid() && size > 0
      modifies Repr
      ensures Valid() && Repr == old(Repr) && data == old(data) && capacity == old(capacity)
      ensures Elements() == old(Elements())[1..]
    {
      CopyDown(data, 1, size, 0);
      size := size - 1;
      assert Elements() == old(Elements())[1..];
    }

    /** insert(position, value): invalid_argument unless `begin() <= position <= end()`;
        otherwise grows a full buffer, shifts the tail up by one and writes `value`
        through an iterator at the position, which is returned. */
    method Insert(position: Iterator, value: T) returns (r: Result<Iterator>)
      requires Valid()
      requires 0 <= position.pos <= size ==> capacity > 0
      modifies Repr
      ensures Valid() && fresh(Repr - old(Repr))
      ensures r.Err? <==> !(0 <= position.pos <= old(size))
      ensures r.Err? ==> r.error == InvalidArgument && Elements() == old(Elements()) && capacity == old(capacity)
      ensures r.Ok? ==> r.value == position
      ensures r.Ok? ==> Elements() == old(Elements())[..position.pos] + [value] + old(Elements())[position.pos..]
    {
      if position.Greater(End()) || position.Less(Begin()) {
        return Err(InvalidArgument);
      }
      var p := position.Diff(Begin()).value;
      if size == capacity {
        var _ := Resize(capacity * 2);
      }
      var newPos := Iterator(p);
      ShiftIn(newPos, value);
      r := Ok(newPos);
    }

    /** The copying part of the single-element insert: shifts `[p, size)` up by one
        and writes `value` through the iterator at `p`. */
    method ShiftIn(at: Iterator, value: T)
      requires Valid() && 0 <= at.pos <= size < capacity
      modifies Repr
      ensures Valid() && Repr == old(Repr) && data == old(data) && capacity == old(capacity)
      ensures Elements() == old(Elements())[..at.pos] + [value] + old(Elements())[at.pos..]
    {
      InsertArray(data, size, at.pos, value);
      size := size + 1;
    }

    /** insert(position, first, last): invalid_argument when `first > last` or the
        position is outside `[begin(), end()]`; otherwise doubles the capacity until the
        free room holds the range, shifts the tail up and copies the range in.  The
        range comes from another vector. */
    method InsertRange(position: Iterator, src: Vector<T>, first: Iterator, last: Iterator)
      returns (r: Result<Iterator>)
      requires Valid() && src.Valid() && src != this && Repr !! src.Repr
      requires first.pos <= last.pos ==> 0 <= first.pos && last.pos <= src.size
      requires first.pos < last.pos && 0 <= position.pos <= size ==> capacity > 0
      modifies Repr
      ensures Valid() && fresh(Repr - old(Repr)) && Repr !! src.Repr
      ensures src.Elements() == old(src.Elements())
      ensures r.Err? <==> first.pos > last.pos || !(0 <= position.pos <= old(size))
      ensures r.Err? ==> r.error == InvalidArgument && Elements() == old(Elements()) && capacity == old(capacity)
      ensures r.Ok? ==> r.value == position
      ensures r.Ok? ==> capacity == GrownCapacity(old(capacity), old(size), last.pos - first.pos)
      ensures r.Ok? ==> Elements() == old(Elements())[..position.pos]
                                    + old(src.Elements())[first.pos..last.pos]
                                    + old(Elements())[position.pos..]
    {
      if first.Greater(last) || position.Greater(End()) || position.Less(Begin()) {
        return Err(InvalidArgument);
      }
      var dist := last.Diff(first).value;
      var p := position.Diff(Begin()).value;
      GrowAndSplice(p, src, first.pos, dist);
      r := Ok(Iterator(p));
    }

    /** The range insert once its checks have passed: grows the buffer for `dist` more
        elements, then splices `src[from..from + dist)` in at `p`. */
    method GrowAndSplice(p: nat, src: Vector<T>, from: nat, dist: nat)
      requires Valid() && src.Valid() && Repr !! src.Repr
      requires p <= size && from + dist <= src.size
      requires dist > 0 ==> capacity > 0
      modifies Repr
      ensures Valid() && fresh(Repr - old(Repr)) && Repr !! src.Repr
      ensures capacity == GrownCapacity(old(capacity), old(size), dist)
      ensures Elements() == old(Elements())[..p] + src.Elements()[from..from + dist] + old(Elements())[p..]
    {
      ghost var live := Elements();
      ghost var range := src.Elements()[from..from + dist];
      GrowFor(dist, src.Repr);
      if dist > 0 {
        assert src.data[from..from + dist] == range;
        SpliceIn(p, src.data, from, dist);
      } else {
        assert range == [];
        assert live[..p] + live[p..] == live;
        assert live == live[..p] + range + live[p..];
      }
    }

    /** The growth loop of the range insert: doubles the capacity until the free room
        holds `dist` more elements; the live elements stay as they are. */
    method GrowFor(dist: nat, ghost other: set<object>)
      requires Valid() && Repr !! other
      requires capacity > 0 || size + dist <= capacity
      modifies Repr
      ensures Valid() && fresh(Repr - old(Repr)) && Repr !! other
      ensures size == old(size) && Elements() == old(Elements())
      ensures capacity == GrownCapacity(old(capacity), old(size), dist)
    {
      while capacity - size < dist
        invariant Valid() && fresh(Repr - old(Repr)) && Repr !! other
        invariant size == old(size) && Elements() == old(Elements())
        invariant capacity > 0 || size + dist <= capacity
        invariant GrownCapacity(capacity, size, dist) == GrownCapacity(old(capacity), old(size), dist)
        decreases size + dist - capacity
      {
        var _ := Resize(capacity * 2);
      }
    }

    /** The copying part of the range insert: shifts `[p, size)` up by `dist` and
        copies `dist` elements of another buffer into the gap. */
    method SpliceIn(p: nat, src: array<T>, from: nat, dist: nat)
      requires Valid() && data != null && src !in Repr
      requires p <= size && size + dist <= capacity && from + dist <= src.Length
      modifies Repr
      ensures Valid() && Repr == old(Repr) && data == old(data) && capacity == old(capacity)
      ensures Elements() == old(Elements())[..p] + src[from..from + dist] + old(Elements())[p..]
    {
      SpliceArray(data, size, p, src, from, dist);
      size := size + dist;
    }

    /** erase(position): invalid_argument unless `begin() <= position <= end()`; shifts
        the tail down over the erased slot.  The guard admits `end()`, for which the
        copy range is inverted, so that position is excluded by the precondition. */
    method Erase(position: Iterator) returns (r: Result<Iterator>)
      requires Valid()
      requires position.pos != size
      modifies Repr
      ensures Valid() && Repr == old(Repr) && data == old(data) && capacity == old(capacity)
      ensures r.Err? <==> !(0 <= position.pos < old(size))
      ensures r.Err? ==> r.error == InvalidArgument && Elements() == old(Elements())
      ensures r.Ok? ==> r.value == position
      ensures r.Ok? ==> Elements() == old(Elements())[..position.pos] + old(Elements())[position.pos + 1..]
    {
      if position.Greater(End()) || position.Less(Begin()) {
        return Err(InvalidArgument);
      }
      assert 0 <= position.pos < size;
      var p := position.Diff(Begin()).value;
      assert p == position.pos;
      ghost var live := data[..size];
      CopyDown(data, p + 1, size, p);
      size := size - 1;
      assert Elements() == live[..p] + live[p + 1..];
      r := Ok(position);
    }

    /** erase(first, last): invalid_argument when `first > last`, `first < begin()` or
        `last > end()`; otherwise shifts the tail down over `[first, last)`. */
    method EraseRange(first: Iterator, last: Iterator) returns (r: Result<Iterator>)
      requires Valid()
      modifies Repr
      ensures Valid() && Repr == old(Repr) && data == old(data) && capacity == old(capacity)
      ensures r.Err? <==> first.pos > last.pos || first.pos < 0 || last.pos > old(size)
      ensures r.Err? ==> r.error == InvalidArgument && Elements() == old(Elements())
      ensures r.Ok? ==> r.value == first && size == old(size) - (last.pos - first.pos)
      ensures r.Ok? ==> Elements() == old(Elements())[..first.pos] + old(Elements())[last.pos..]
    {
      if first.Greater(last) || first.Less(Begin()) || last.Greater(End()) {
        return Err(InvalidArgument);
      }
      var dist := last.Diff(first).value;
      if data != null {
        ghost var live := data[..size];
        CopyDown(data, last.pos, size, first.pos);
        size := size - dist;
        assert Elements() == live[..first.pos] + live[last.pos..];
      }
      r := Ok(first);
    }

    /** Copy assignment: a no-op on itself; otherwise the same size, capacity and
        elements in a fresh buffer that nothing else shares. */
    method Assign(other: Vector<T>)
      requires Valid() && other.Valid()
      requires other != this ==> Repr !! other.Repr
      modifies Repr
      ensures Valid() && fresh(Repr - old(Repr))
      ensures size == old(other.size) && capacity == old(other.capacity)
      ensures Elements() == old(other.Elements())
      ensures other == this ==> data == old(data)
      ensures other != this ==> data != null && fresh(data) && Repr !! other.Repr
      ensures other != this ==> other.Elements() == old(other.Elements())
    {
      if this == other {
        return;
      }
      size := other.size;
      capacity := other.capacity;
      data := new T[capacity];
      if other.data != null {
        CopyBetween(other.data, 0, data, 0, size);
        assert data[..size] == other.data[..size];
      }
      Repr := {this, data};
    }

    /** Move assignment: a no-op on itself; otherwise takes over the other vector's
        buffer, size and capacity and resets it to no buffer, size 0, capacity 0. */
    method MoveAssign(other: Vector<T>)
      requires Valid() && other.Valid()
      requires other != this ==> Repr !! other.Repr
      modifies this, other
      ensures Valid() && other.Valid()
      ensures other == this ==> data == old(data) && size == old(size) && capacity == old(capacity) && Repr == old(Repr)
      ensures other != this ==> data == old(other.data) && size == old(other.size) && capacity == old(other.capacity)
      ensures other != this ==> Elements() == old(other.Elements()) && Repr == old(other.Repr) - {other} + {this}
      ensures other != this ==> other.data == null && other.size == 0 && other.capacity == 0
    {
      if this == other {
        return;
      }
      data := other.data;
      size := other.size;
      capacity := other.capacity;
      Repr := if data == null then {this} else {this, data};
      other.data := null;
      other.size := 0;
      other.capacity := 0;
      other.Repr := {other};
    }
  }
}
