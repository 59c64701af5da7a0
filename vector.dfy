/**
 * my::vector: a growable contiguous sequence. The raw block [m_first, m_end)
 * is the array `buf` (capacity() == buf.Length, and a zero-length array stands
 * for the null block); the live prefix [m_first, m_last) is buf[..sz].
 * Iterators and pointers into the block are indices. Thrown exceptions are
 * returned as an Outcome or Result; a failed operation commits no field change
 * unless its contract says otherwise.
 */
module MyVector {
  import opened Outcomes
  import opened VectorSpec

  class Vector<T(0)> {
    /** The raw block [m_first, m_end). */
    var buf: array<T>
    /** m_last - m_first. */
    var sz: nat

    /** first <= last <= end, and the block is one the allocator can hand out. */
    ghost predicate Valid()
      reads this
    {
      sz <= buf.Length <= MaxSize
    }

    /** The live range [begin(), end()) in iteration order. */
    function Contents(): (s: seq<T>)
      reads this, buf
      requires Valid()
    {
      buf[..sz]
    }

    function Size(): (n: nat)
      reads this
    {
      sz
    }

    function Capacity(): (n: nat)
      reads this
    {
      buf.Length
    }

    function Empty(): (b: bool)
      reads this
    {
      sz == 0
    }

    /** Checked access at(n). */
    function At(i: nat): (r: Result<T>)
      reads this, buf
      requires Valid()
      ensures r.Ok? <==> i < Size()
      ensures r.Ok? ==> r.value == Contents()[i]
      ensures r.Err? ==> r.error == OutOfRange
    {
      if i >= sz then Err(OutOfRange) else Ok(buf[i])
    }

    /** Unchecked access operator[](n). */
    function Get(i: nat): (x: T)
      reads this, buf
      requires Valid() && i < Size()
      ensures At(i) == Ok(x)
    {
      buf[i]
    }

    function Front(): (x: T)
      reads this, buf
      requires Valid() && !Empty()
      ensures At(0) == Ok(x)
    {
      buf[0]
    }

    function Back(): (x: T)
      reads this, buf
      requires Valid() && !Empty()
      ensures At(Size() - 1) == Ok(x)
    {
      buf[sz - 1]
    }

    /** The default constructor: no block at all. */
    constructor ()
      ensures Valid() && fresh(buf) && Contents() == [] && Capacity() == 0
    {
      buf := new T[0];
      sz := 0;
    }

    /**
     * Allocates a block of cap slots and copies src[..n] into its front, index
     * by index; src itself is only read.
     */
    static method Relocate(src: array<T>, n: nat, cap: nat) returns (dst: array<T>)
      requires n <= src.Length && n <= cap
      ensures fresh(dst) && dst.Length == cap
      ensures dst[..n] == src[..n]
    {
      dst := new T[cap];
      var i := 0;
      while i != n
        invariant 0 <= i <= n
        invariant forall k :: 0 <= k < i ==> dst[k] == src[k]
      {
        dst[i] := src[i];
        i := i + 1;
      }
    }

    /** Allocates a block of exactly |xs| slots holding xs. */
    static method Build(xs: seq<T>) returns (dst: array<T>)
      ensures fresh(dst) && dst[..] == xs
    {
      dst := new T[|xs|];
      var i := 0;
      while i != |xs|
        invariant 0 <= i <= |xs|
        invariant forall k :: 0 <= k < i ==> dst[k] == xs[k]
      {
        dst[i] := xs[i];
        i := i + 1;
      }
    }

    /**
     * Range and initializer-list construction: a block of exactly |xs| slots
     * holding xs. The allocator refuses more than max_size() slots.
     */
    static method FromSeq(xs: seq<T>) returns (r: Result<Vector<T>>)
      ensures r.Err? <==> |xs| > MaxSize
      ensures r.Err? ==> r.error == BadAlloc
      ensures r.Ok? ==> fresh(r.value) && fresh(r.value.buf) && r.value.Valid()
      ensures r.Ok? ==> r.value.Contents() == xs && r.value.Capacity() == |xs|
    {
      if |xs| > MaxSize {
        return Err(BadAlloc);
      }
      var v := new Vector<T>();
      v.buf := Build(xs);
      v.sz := |xs|;
      r := Ok(v);
    }

    /** vector(n, value): n copies of value in a block of exactly n slots. */
    static method Filled(n: nat, value: T) returns (r: Result<Vector<T>>)
      ensures r.Err? <==> n > MaxSize
      ensures r.Err? ==> r.error == BadAlloc
      ensures r.Ok? ==> fresh(r.value) && fresh(r.value.buf) && r.value.Valid()
      ensures r.Ok? ==> r.value.Contents() == Repeat(n, value) && r.value.Capacity() == n
    {
      if n > MaxSize {
        return Err(BadAlloc);
      }
      r := FromSeq(Repeat(n, value));
    }

    /**
     * vector(n): n value-initialised elements in a block of exactly n slots.
     * The elements are all T(); what T() is depends on T and is left open.
     */
    static method Defaulted(n: nat) returns (r: Result<Vector<T>>)
      ensures r.Err? <==> n > MaxSize
      ensures r.Err? ==> r.error == BadAlloc
      ensures r.Ok? ==> fresh(r.value) && fresh(r.value.buf) && r.value.Valid()
      ensures r.Ok? ==> r.value.Size() == n && r.value.Capacity() == n
      ensures r.Ok? ==> forall i, k :: 0 <= i < n && 0 <= k < n ==> r.value.Contents()[i] == r.value.Contents()[k]
    {
      if n > MaxSize {
        return Err(BadAlloc);
      }
      var d: T := *;
      r := FromSeq(Repeat(n, d));
    }

    /** The copy constructor: an independent block of exactly other.size() slots. */
    constructor Copy(other: Vector<T>)
      requires other.Valid()
      ensures Valid() && fresh(buf)
      ensures Contents() == other.Contents() && Capacity() == other.Size()
    {
      var b := Vector<T>.Relocate(other.buf, other.sz, other.sz);
      buf, sz := b, other.sz;
    }

    /** The move constructor: takes other's block and leaves other with none. */
    constructor Move(other: Vector<T>)
      requires other.Valid()
      modifies other
      ensures Valid() && buf == old(other.buf) && Contents() == old(other.Contents())
      ensures other.Valid() && other.Size() == 0 && other.Capacity() == 0
    {
      buf, sz := other.buf, other.sz;
      other.buf, other.sz := new T[0], 0;
    }

    /** Copy assignment; assigning a vector to itself changes nothing. */
    method CopyAssign(x: Vector<T>)
      requires Valid() && x.Valid()
      modifies this
      ensures Valid() && Contents() == old(x.Contents())
      ensures x != this ==> fresh(buf) && Capacity() == old(x.Size())
      ensures x == this ==> buf == old(buf) && sz == old(sz)
    {
      if x != this {
        buf := Relocate(x.buf, x.sz, x.sz);
        sz := x.sz;
      }
    }

    /** Move assignment: takes x's block and leaves x with none. */
    method MoveAssign(x: Vector<T>)
      requires Valid() && x.Valid()
      modifies this, x
      ensures Valid() && x.Valid()
      ensures x == this ==> buf == old(buf) && sz == old(sz)
      ensures x != this ==> buf == old(x.buf) && Contents() == old(x.Contents())
      ensures x != this ==> x.Size() == 0 && x.Capacity() == 0
    {
      if x != this {
        buf, sz := x.buf, x.sz;
        x.buf, x.sz := new T[0], 0;
      }
    }

    /**
     * operator=(initializer_list): releases the block first, then allocates
     * exactly |xs| slots; when the allocator refuses, the vector is left with
     * no block at all.
     */
    method ListAssign(xs: seq<T>) returns (st: Outcome)
      requires Valid()
      modifies this
      ensures Valid()
      ensures st == if |xs| > MaxSize then Failure(BadAlloc) else Success
      ensures st.Success? ==> fresh(buf) && Contents() == xs && Capacity() == |xs|
      ensures st.Failure? ==> Size() == 0 && Capacity() == 0
    {
      buf, sz := new T[0], 0;
      if |xs| > MaxSize {
        return Failure(BadAlloc);
      }
      buf := Build(xs);
      sz := |xs|;
      st := Success;
    }

    /**
     * reserve(n): length_error beyond max_size(), nothing to do when the block
     * is big enough, otherwise a block of max(n, 2 * capacity()) slots that
     * receives every element before the fields are switched to it. The old
     * block is never written.
     */
    method Reserve(n: nat) returns (st: Outcome)
      requires Valid()
      modifies this
      ensures Valid() && sz == old(sz) && Contents() == old(Contents())
      ensures st == ReserveOutcome(old(buf.Length), n)
      ensures st.Success? ==> Capacity() == ReservedCapacity(old(buf.Length), n)
      ensures st.Success? && n > old(buf.Length) ==> fresh(buf)
      ensures st.Failure? || n <= old(buf.Length) ==> buf == old(buf)
      ensures buf == old(buf) || fresh(buf)
      ensures old(buf)[..] == old(buf[..])
    {
      if n > MaxSize {
        return Failure(LengthError);
      }
      if n <= buf.Length {
        return Success;
      }
      var cap := Max(n, 2 * buf.Length);
      if cap > MaxSize {
        return Failure(BadAlloc);
      }
      buf := Relocate(buf, sz, cap);
      st := Success;
    }

    /**
     * The growth step `if (size() + extra >= capacity()) reserve(size() + extra)`
     * run by push_back, emplace_back, insert and emplace.
     */
    method Grow(extra: nat) returns (st: Outcome)
      requires Valid()
      modifies this
      ensures Valid() && sz == old(sz) && Contents() == old(Contents())
      ensures st == GrowthOutcome(old(sz), old(buf.Length), extra)
      ensures st.Success? ==> Capacity() == GrownCapacity(old(sz), old(buf.Length), extra)
      ensures st.Success? ==> sz + extra <= Capacity()
      ensures st.Failure? || old(sz) + extra <= old(buf.Length) ==> buf == old(buf)
      ensures buf == old(buf) || fresh(buf)
    {
      if sz + extra >= buf.Length {
        st := Reserve(sz + extra);
      } else {
        st := Success;
      }
      if st.Success? {
        GrowthMakesRoom(old(sz), old(buf.Length), extra);
      }
    }

    /** shrink_to_fit(): a block of exactly size() slots (none when empty). */
    method ShrinkToFit()
      requires Valid()
      modifies this
      ensures Valid() && sz == old(sz) && Contents() == old(Contents())
      ensures fresh(buf) && Capacity() == Size()
    {
      if sz == 0 {
        buf := new T[0];
        return;
      }
      buf := Relocate(buf, sz, sz);
    }

    /** clear(): no live elements; the block is kept. */
    method Clear()
      requires Valid()
      modifies this
      ensures Valid() && buf == old(buf) && Contents() == []
    {
      sz := 0;
    }

    /** push_back(x), both the copying and the moving overload. */
    method PushBack(x: T) returns (st: Outcome)
      requires Valid()
      modifies this, buf
      ensures Valid() && (buf == old(buf) || fresh(buf))
      ensures st == GrowthOutcome(old(sz), old(buf.Length), 1)
      ensures st.Success? ==> Contents() == old(Contents()) + [x]
      ensures st.Success? ==> Capacity() == GrownCapacity(old(sz), old(buf.Length), 1)
      ensures st.Success? && old(sz) + 1 <= old(buf.Length) ==> buf == old(buf)
      ensures st.Failure? ==> sz == old(sz) && buf == old(buf) && buf[..] == old(buf[..])
    {
      ghost var s := Contents();
      st := Grow(1);
      if st.Failure? {
        return;
      }
      buf[sz] := x;
      sz := sz + 1;
      assert Contents() == s + [x];
    }

    /** emplace_back(x): construction in place is push_back of the constructed value. */
    method EmplaceBack(x: T) returns (st: Outcome)
      requires Valid()
      modifies this, buf
      ensures Valid() && (buf == old(buf) || fresh(buf))
      ensures st == GrowthOutcome(old(sz), old(buf.Length), 1)
      ensures st.Success? ==> Contents() == old(Contents()) + [x] && Back() == x
      ensures st.Success? ==> Capacity() == GrownCapacity(old(sz), old(buf.Length), 1)
      ensures st.Success? && old(sz) + 1 <= old(buf.Length) ==> buf == old(buf)
      ensures st.Failure? ==> sz == old(sz) && buf == old(buf) && buf[..] == old(buf[..])
    {
      st := PushBack(x);
    }

    /** pop_back(): undefined on an empty vector. */
    method PopBack()
      requires Valid() && !Empty()
      modifies this
      ensures Valid() && buf == old(buf)
      ensures Contents() == old(Contents())[..old(sz) - 1]
    {
      sz := sz - 1;
    }

    /**
     * The tail-first shift of the inserting operations: buf[j..sz] moves n
     * slots towards the end, starting from its last element so that nothing
     * is overwritten before it has been moved.
     */
    method OpenGap(j: nat, n: nat)
      requires Valid() && j <= sz && sz + n <= buf.Length
      modifies buf
      ensures forall k :: 0 <= k < j ==> buf[k] == old(buf[k])
      ensures forall k :: j <= k < sz ==> buf[k + n] == old(buf[k])
    {
      var i := 0;
      while i < sz - j
        invariant 0 <= i <= sz - j
        invariant forall k :: 0 <= k < sz + n - i ==> buf[k] == old(buf[k])
        invariant forall k :: sz - i <= k < sz ==> buf[k + n] == old(buf[k])
      {
        buf[sz + n - 1 - i] := buf[sz - 1 - i];
        i := i + 1;
      }
    }

    /**
     * What every insert does once it is past its early return: the growth
     * step for |xs| more elements, the shift, and xs written into the gap.
     */
    method InsertElements(j: nat, xs: seq<T>) returns (r: Result<nat>)
      requires Valid() && j <= sz
      modifies this, buf
      ensures Valid() && (buf == old(buf) || fresh(buf))
      ensures r == WithIndex(GrowthOutcome(old(sz), old(buf.Length), |xs|), j)
      ensures r.Ok? ==> Contents() == old(Contents())[..j] + xs + old(Contents())[j..]
      ensures r.Ok? ==> Capacity() == GrownCapacity(old(sz), old(buf.Length), |xs|)
      ensures r.Ok? && old(sz) + |xs| <= old(buf.Length) ==> buf == old(buf)
      ensures r.Err? ==> sz == old(sz) && buf == old(buf) && buf[..] == old(buf[..])
    {
      ghost var s := Contents();
      var st := Grow(|xs|);
      if st.Failure? {
        return Err(st.error);
      }
      OpenGap(j, |xs|);
      assert forall k :: 0 <= k < j ==> buf[k] == s[k];
      assert forall k :: j <= k < sz ==> buf[k + |xs|] == s[k];
      Place(buf, j, xs);
      sz := sz + |xs|;
      SplicedIn(buf[..sz], s, j, xs);
      r := Ok(j);
    }

    /** Writes xs into b[j..j + |xs|], in ascending order; the other slots keep their values. */
    static method Place(b: array<T>, j: nat, xs: seq<T>)
      requires j + |xs| <= b.Length
      modifies b
      ensures forall k :: 0 <= k < |xs| ==> b[j + k] == xs[k]
      ensures forall k :: 0 <= k < b.Length && !(j <= k < j + |xs|) ==> b[k] == old(b[k])
    {
      var i := 0;
      while i < |xs|
        invariant 0 <= i <= |xs|
        invariant forall k :: 0 <= k < i ==> b[j + k] == xs[k]
        invariant forall k :: 0 <= k < b.Length && !(j <= k < j + i) ==> b[k] == old(b[k])
      {
        b[j + i] := xs[i];
        i := i + 1;
      }
    }

    /** insert(pos, x), both overloads; the result is the index of x. */
    method Insert(j: nat, x: T) returns (r: Result<nat>)
      requires Valid() && j <= sz
      modifies this, buf
      ensures Valid() && (buf == old(buf) || fresh(buf))
      ensures r == WithIndex(GrowthOutcome(old(sz), old(buf.Length), 1), j)
      ensures r.Ok? ==> Contents() == old(Contents())[..j] + [x] + old(Contents())[j..]
      ensures r.Ok? ==> Capacity() == GrownCapacity(old(sz), old(buf.Length), 1)
      ensures r.Ok? && old(sz) + 1 <= old(buf.Length) ==> buf == old(buf)
      ensures r.Err? ==> sz == old(sz) && buf == old(buf) && buf[..] == old(buf[..])
    {
      r := InsertElements(j, [x]);
    }

    /** emplace(pos, x): construction in place is insert of the constructed value. */
    method Emplace(j: nat, x: T) returns (r: Result<nat>)
      requires Valid() && j <= sz
      modifies this, buf
      ensures Valid() && (buf == old(buf) || fresh(buf))
      ensures r == WithIndex(GrowthOutcome(old(sz), old(buf.Length), 1), j)
      ensures r.Ok? ==> Contents() == old(Contents())[..j] + [x] + old(Contents())[j..]
      ensures r.Ok? ==> Capacity() == GrownCapacity(old(sz), old(buf.Length), 1)
      ensures r.Ok? && old(sz) + 1 <= old(buf.Length) ==> buf == old(buf)
      ensures r.Err? ==> sz == old(sz) && buf == old(buf) && buf[..] == old(buf[..])
    {
      r := Insert(j, x);
    }

    /** insert(pos, n, x): n copies of x at j; nothing at all happens when n == 0. */
    method InsertCount(j: nat, n: nat, x: T) returns (r: Result<nat>)
      requires Valid() && j <= sz
      modifies this, buf
      ensures Valid() && (buf == old(buf) || fresh(buf))
      ensures r == WithIndex(GrowthOutcome(old(sz), old(buf.Length), n), j)
      ensures r.Ok? ==> Contents() == old(Contents())[..j] + Repeat(n, x) + old(Contents())[j..]
      ensures r.Ok? ==> Capacity() == GrownCapacity(old(sz), old(buf.Length), n)
      ensures r.Ok? && old(sz) + n <= old(buf.Length) ==> buf == old(buf)
      ensures r.Err? ==> sz == old(sz) && buf == old(buf) && buf[..] == old(buf[..])
      ensures n == 0 ==> r == Ok(j) && sz == old(sz) && buf == old(buf) && buf[..] == old(buf[..])
    {
      if n == 0 {
        return Ok(j);
      }
      if sz + n > MaxSize {
        return Err(LengthError);
      }
      r := InsertElements(j, Repeat(n, x));
    }

    /** insert(pos, first, last) over the elements xs of the range; nothing happens when it is empty. */
    method InsertRange(j: nat, xs: seq<T>) returns (r: Result<nat>)
      requires Valid() && j <= sz
      modifies this, buf
      ensures Valid() && (buf == old(buf) || fresh(buf))
      ensures r == WithIndex(GrowthOutcome(old(sz), old(buf.Length), |xs|), j)
      ensures r.Ok? ==> Contents() == old(Contents())[..j] + xs + old(Contents())[j..]
      ensures r.Ok? ==> Capacity() == GrownCapacity(old(sz), old(buf.Length), |xs|)
      ensures r.Ok? && old(sz) + |xs| <= old(buf.Length) ==> buf == old(buf)
      ensures r.Err? ==> sz == old(sz) && buf == old(buf) && buf[..] == old(buf[..])
      ensures xs == [] ==> r == Ok(j) && sz == old(sz) && buf == old(buf) && buf[..] == old(buf[..])
    {
      if |xs| == 0 {
        return Ok(j);
      }
      r := InsertElements(j, xs);
    }

    /** insert(pos, initializer_list): the range insert over the list. */
    method InsertList(j: nat, xs: seq<T>) returns (r: Result<nat>)
      requires Valid() && j <= sz
      modifies this, buf
      ensures Valid() && (buf == old(buf) || fresh(buf))
      ensures r == WithIndex(GrowthOutcome(old(sz), old(buf.Length), |xs|), j)
      ensures r.Ok? ==> Contents() == old(Contents())[..j] + xs + old(Contents())[j..]
      ensures r.Ok? ==> Capacity() == GrownCapacity(old(sz), old(buf.Length), |xs|)
      ensures r.Ok? && old(sz) + |xs| <= old(buf.Length) ==> buf == old(buf)
      ensures r.Err? ==> sz == old(sz) && buf == old(buf) && buf[..] == old(buf[..])
      ensures xs == [] ==> r == Ok(j) && sz == old(sz) && buf == old(buf) && buf[..] == old(buf[..])
    {
      r := InsertRange(j, xs);
    }

    /**
     * erase(pos): out_of_range unless pos is a live position; otherwise the
     * elements after it move one slot forward and the index j is returned.
     */
    method Erase(j: int) returns (r: Result<nat>)
      requires Valid()
      modifies this, buf
      ensures Valid() && buf == old(buf)
      ensures r.Ok? <==> 0 <= j < old(sz)
      ensures r.Err? ==> r.error == OutOfRange && sz == old(sz) && buf[..] == old(buf[..])
      ensures r.Ok? ==> r.value == j && Contents() == old(Contents())[..j] + old(Contents())[j + 1..]
    {
      if j < 0 || j >= sz {
        return Err(OutOfRange);
      }
      ghost var s := Contents();
      var i := j;
      while i < sz - 1
        invariant j <= i <= sz - 1
        invariant forall k :: 0 <= k < j ==> buf[k] == s[k]
        invariant forall k :: j <= k < i ==> buf[k] == s[k + 1]
        invariant forall k :: i <= k < sz ==> buf[k] == s[k]
        modifies buf
      {
        buf[i] := buf[i + 1];
        i := i + 1;
      }
      sz := sz - 1;
      CutOut(Contents(), s, j, 1);
      r := Ok(j);
    }

    /**
     * erase(first, last): out_of_range unless 0 <= j < k <= size() (an empty
     * range is refused too); otherwise old[k..] moves forward to j.
     */
    method EraseRange(j: int, k: int) returns (r: Result<nat>)
      requires Valid()
      modifies this, buf
      ensures Valid() && buf == old(buf)
      ensures r.Ok? <==> 0 <= j < k <= old(sz)
      ensures r.Err? ==> r.error == OutOfRange && sz == old(sz) && buf[..] == old(buf[..])
      ensures r.Ok? ==> r.value == j && sz == old(sz) - (k - j)
      ensures r.Ok? ==> Contents() == old(Contents())[..j] + old(Contents())[k..]
    {
      if j < 0 || k > sz || j >= k {
        return Err(OutOfRange);
      }
      ghost var s := Contents();
      var d := k - j;
      var i := j;
      while i < sz - d
        invariant j <= i <= sz - d
        invariant forall t :: 0 <= t < j ==> buf[t] == s[t]
        invariant forall t :: j <= t < i ==> buf[t] == s[t + d]
        invariant forall t :: i <= t < sz ==> buf[t] == s[t]
        modifies buf
      {
        buf[i] := buf[i + d];
        i := i + 1;
      }
      sz := sz - d;
      CutOut(Contents(), s, j, d);
      r := Ok(j);
    }

    /**
     * resize(n, c): length_error beyond max_size(); shrinking keeps the block
     * and the first n elements; growing reserves n and appends copies of c.
     */
    method Resize(n: nat, c: T) returns (st: Outcome)
      requires Valid()
      modifies this, buf
      ensures Valid() && (buf == old(buf) || fresh(buf))
      ensures st == if n <= old(sz) then Success else ReserveOutcome(old(buf.Length), n)
      ensures st.Success? ==> Contents() == Resized(old(Contents()), n, c) && Size() == n
      ensures st.Success? && n > old(sz) ==> Capacity() == ReservedCapacity(old(buf.Length), n)
      ensures n <= old(buf.Length) ==> buf == old(buf)
      ensures st.Failure? ==> sz == old(sz) && buf == old(buf) && buf[..] == old(buf[..])
    {
      if n > MaxSize {
        return Failure(LengthError);
      }
      if n == sz {
        return Success;
      }
      ghost var s := Contents();
      if n < sz {
        sz := n;
        return Success;
      }
      st := Reserve(n);
      if st.Failure? {
        return;
      }
      var b := buf;
      var i := sz;
      while i < n
        invariant sz <= i <= n <= b.Length
        invariant forall k :: 0 <= k < sz ==> b[k] == s[k]
        invariant forall k :: sz <= k < i ==> b[k] == c
        modifies b
      {
        b[i] := c;
        i := i + 1;
      }
      sz := n;
      assert Contents() == Resized(s, n, c);
    }

    /**
     * resize(n): resize(n, T()). The elements it appends are all one value,
     * T's value-initialised one, which this model leaves open.
     */
    method ResizeDefault(n: nat) returns (st: Outcome)
      requires Valid()
      modifies this, buf
      ensures Valid() && (buf == old(buf) || fresh(buf))
      ensures st == if n <= old(sz) then Success else ReserveOutcome(old(buf.Length), n)
      ensures st.Success? ==> Size() == n
      ensures st.Success? && n <= old(sz) ==> Contents() == old(Contents())[..n]
      ensures st.Success? && n > old(sz) ==> Contents()[..old(sz)] == old(Contents())
      ensures st.Success? ==> forall i, k :: old(sz) <= i < n && old(sz) <= k < n ==> Contents()[i] == Contents()[k]
      ensures st.Success? && n > old(sz) ==> Capacity() == ReservedCapacity(old(buf.Length), n)
      ensures n <= old(buf.Length) ==> buf == old(buf)
      ensures st.Failure? ==> sz == old(sz) && buf == old(buf) && buf[..] == old(buf[..])
    {
      var d: T := *;
      st := Resize(n, d);
    }

    /**
     * assign(first, last) as the source writes it: the vector is cleared, the
     * block reserved and the elements constructed into it, but m_last is never
     * advanced, so the vector stays empty with xs sitting in its raw slots.
     */
    method AssignRangeAsWritten(xs: seq<T>) returns (st: Outcome)
      requires Valid()
      modifies this, buf
      ensures Valid() && Size() == 0 && (buf == old(buf) || fresh(buf))
      ensures st == ReserveOutcome(old(buf.Length), |xs|)
      ensures st.Success? ==> Capacity() == ReservedCapacity(old(buf.Length), |xs|)
      ensures st.Success? ==> |xs| <= buf.Length && buf[..|xs|] == xs
      ensures st.Failure? || |xs| <= old(buf.Length) ==> buf == old(buf)
    {
      sz := 0;
      st := Reserve(|xs|);
      if st.Failure? {
        return;
      }
      var b := buf;
      var i := 0;
      while i < |xs|
        invariant 0 <= i <= |xs| <= b.Length
        invariant forall k :: 0 <= k < i ==> b[k] == xs[k]
        modifies b
      {
        b[i] := xs[i];
        i := i + 1;
      }
    }

    /** assign(n, u) as the source writes it: the vector stays empty. */
    method AssignAsWritten(n: nat, u: T) returns (st: Outcome)
      requires Valid()
      modifies this, buf
      ensures Valid() && Size() == 0 && (buf == old(buf) || fresh(buf))
      ensures st == ReserveOutcome(old(buf.Length), n)
      ensures st.Success? ==> Capacity() == ReservedCapacity(old(buf.Length), n)
      ensures st.Success? ==> n <= buf.Length && buf[..n] == Repeat(n, u)
      ensures st.Failure? || n <= old(buf.Length) ==> buf == old(buf)
    {
      if n > MaxSize {
        sz := 0;
        return Failure(LengthError);
      }
      st := AssignRangeAsWritten(Repeat(n, u));
    }

    /**
     * assign(first, last) as intended: afterwards the vector holds exactly xs.
     * The old elements are gone even when reserve fails.
     */
    method AssignRange(xs: seq<T>) returns (st: Outcome)
      requires Valid()
      modifies this, buf
      ensures Valid() && (buf == old(buf) || fresh(buf))
      ensures st == ReserveOutcome(old(buf.Length), |xs|)
      ensures st.Success? ==> Contents() == xs
      ensures st.Success? ==> Capacity() == ReservedCapacity(old(buf.Length), |xs|)
      ensures st.Failure? ==> Size() == 0 && buf == old(buf)
      ensures |xs| <= old(buf.Length) ==> buf == old(buf)
    {
      st := AssignRangeAsWritten(xs);
      if st.Success? {
        sz := |xs|;
      }
    }

    /** assign(n, u) as intended: exactly n copies of u. */
    method Assign(n: nat, u: T) returns (st: Outcome)
      requires Valid()
      modifies this, buf
      ensures Valid() && (buf == old(buf) || fresh(buf))
      ensures st == ReserveOutcome(old(buf.Length), n)
      ensures st.Success? ==> Contents() == Repeat(n, u)
      ensures st.Success? ==> Capacity() == ReservedCapacity(old(buf.Length), n)
      ensures st.Failure? ==> Size() == 0 && buf == old(buf)
      ensures n <= old(buf.Length) ==> buf == old(buf)
    {
      if n > MaxSize {
        sz := 0;
        return Failure(LengthError);
      }
      st := AssignRange(Repeat(n, u));
    }

    /**
     * assign(initializer_list) as the source writes it: it forwards to the
     * as-written range assign, so the vector stays empty whatever the list.
     */
    method AssignListAsWritten(xs: seq<T>) returns (st: Outcome)
      requires Valid()
      modifies this, buf
      ensures Valid() && Size() == 0 && (buf == old(buf) || fresh(buf))
      ensures st == ReserveOutcome(old(buf.Length), |xs|)
      ensures st.Success? ==> Capacity() == ReservedCapacity(old(buf.Length), |xs|)
      ensures st.Success? ==> |xs| <= buf.Length && buf[..|xs|] == xs
      ensures st.Failure? || |xs| <= old(buf.Length) ==> buf == old(buf)
    {
      st := AssignRangeAsWritten(xs);
    }

    /** assign(initializer_list) as intended: the corrected range assign over the list. */
    method AssignList(xs: seq<T>) returns (st: Outcome)
      requires Valid()
      modifies this, buf
      ensures Valid() && (buf == old(buf) || fresh(buf))
      ensures st == ReserveOutcome(old(buf.Length), |xs|)
      ensures st.Success? ==> Contents() == xs
      ensures st.Success? ==> Capacity() == ReservedCapacity(old(buf.Length), |xs|)
      ensures st.Failure? ==> Size() == 0 && buf == old(buf)
      ensures |xs| <= old(buf.Length) ==> buf == old(buf)
    {
      st := AssignRange(xs);
    }

    /** swap(other): the two vectors exchange their blocks; no element is touched. */
    method Swap(other: Vector<T>)
      requires Valid() && other.Valid()
      modifies this, other
      ensures Valid() && other.Valid()
      ensures buf == old(other.buf) && Contents() == old(other.Contents())
      ensures other.buf == old(buf) && other.Contents() == old(Contents())
    {
      buf, other.buf := other.buf, buf;
      sz, other.sz := other.sz, sz;
    }
  }

  /** size() counts the live elements, never exceeds capacity() or max_size(), and empty() means size() == 0. */
  lemma Queries<T(0)>(v: Vector<T>)
    requires v.Valid()
    ensures v.Size() == |v.Contents()| <= v.Capacity() <= MaxSize
    ensures v.Empty() <==> v.Contents() == []
  {
  }

  /** The non-member swap(lhs, rhs). */
  method Swap<T(0)>(lhs: Vector<T>, rhs: Vector<T>)
    requires lhs.Valid() && rhs.Valid()
    modifies lhs, rhs
    ensures lhs.Valid() && rhs.Valid()
    ensures lhs.buf == old(rhs.buf) && lhs.Contents() == old(rhs.Contents())
    ensures rhs.buf == old(lhs.buf) && rhs.Contents() == old(lhs.Contents())
  {
    lhs.Swap(rhs);
  }
}
