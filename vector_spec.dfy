/**
 * Value-level rules of my::vector that do not depend on a particular object:
 * the growth policy of reserve, the growth step every inserting operation runs
 * first, the sequences that fill and resize produce, and what the growth policy
 * means for a run of push_back calls starting from an empty vector.
 */
module VectorSpec {
  import opened Outcomes

  /**
   * max_size(): allocator_traits<std::allocator<T>>::max_size, which is
   * SIZE_MAX / sizeof(T); fixed here for a 64-bit size_t and an 8-byte T.
   */
  const MaxSize: nat := 0x1FFF_FFFF_FFFF_FFFF

  function Max(a: nat, b: nat): (m: nat) { if a < b then b else a }

  /** n copies of x. */
  function Repeat<T>(n: nat, x: T): (r: seq<T>)
    ensures |r| == n
    ensures forall i :: 0 <= i < n ==> r[i] == x
  {
    seq(n, _ => x)
  }

  /** The element sequence resize(n, c) leaves behind s. */
  function Resized<T>(s: seq<T>, n: nat, c: T): (r: seq<T>)
    ensures |r| == n
    ensures n <= |s| ==> r == s[..n]
    ensures n > |s| ==> r[..|s|] == s
    ensures forall i :: |s| <= i < n ==> r[i] == c
  {
    if n <= |s| then s[..n] else s + Repeat(n - |s|, c)
  }

  /** Whether reserve(n) on a vector of capacity cap fails, and how. */
  function ReserveOutcome(cap: nat, n: nat): (o: Outcome)
  {
    if n > MaxSize then Failure(LengthError)
    else if n <= cap then Success
    else if Max(n, 2 * cap) > MaxSize then Failure(BadAlloc)
    else Success
  }

  /** The capacity after a successful reserve(n) on a vector of capacity cap. */
  function ReservedCapacity(cap: nat, n: nat): (c: nat)
  {
    if n <= cap then cap else Max(n, 2 * cap)
  }

  /**
   * The growth step `if (size() + extra >= capacity()) reserve(size() + extra)`
   * that push_back, emplace_back, insert and emplace run before writing.
   */
  function GrowthOutcome(size: nat, cap: nat, extra: nat): (o: Outcome)
  {
    if size + extra >= cap then ReserveOutcome(cap, size + extra) else Success
  }

  function GrownCapacity(size: nat, cap: nat, extra: nat): (c: nat)
  {
    if size + extra >= cap then ReservedCapacity(cap, size + extra) else cap
  }

  /** The growth rule: reserve never shrinks, reaches n, and at least doubles when it reallocates. */
  lemma ReserveGrowth(cap: nat, n: nat)
    requires cap <= MaxSize
    ensures ReserveOutcome(cap, n) == Failure(LengthError) <==> n > MaxSize
    ensures ReserveOutcome(cap, n) == Failure(BadAlloc) <==> cap < n <= MaxSize < 2 * cap
    ensures ReserveOutcome(cap, n).Success? ==> ReservedCapacity(cap, n) <= MaxSize
    ensures ReservedCapacity(cap, n) >= n && ReservedCapacity(cap, n) >= cap
    ensures n <= cap ==> ReservedCapacity(cap, n) == cap
    ensures n > cap ==> ReservedCapacity(cap, n) >= 2 * cap
  {
  }

  /** A successful growth step leaves room for `extra` more elements. */
  lemma GrowthMakesRoom(size: nat, cap: nat, extra: nat)
    requires size <= cap <= MaxSize
    requires GrowthOutcome(size, cap, extra).Success?
    ensures size + extra <= GrownCapacity(size, cap, extra) <= MaxSize
    ensures size + extra <= cap ==> GrownCapacity(size, cap, extra) == cap
  {
  }

  /**
   * The growth step's `>=` trigger behaves exactly like a `>` trigger: at
   * size + extra == cap the reserve it calls is a no-op, so the step never
   * reallocates before the block is actually too small.
   */
  lemma TriggerEquivalent(size: nat, cap: nat, extra: nat)
    requires size <= cap <= MaxSize
    ensures GrowthOutcome(size, cap, extra)
            == (if size + extra > cap then ReserveOutcome(cap, size + extra) else Success)
    ensures GrownCapacity(size, cap, extra)
            == (if size + extra > cap then ReservedCapacity(cap, size + extra) else cap)
  {
  }

  /** 2^e. */
  function Pow2(e: nat): (p: nat)
    ensures p >= 1
  {
    if e == 0 then 1 else 2 * Pow2(e - 1)
  }

  /** The capacity after k successful push_back calls starting from an empty vector. */
  function CapacityAfterPushes(k: nat): (c: nat)
  {
    if k == 0 then 0 else GrownCapacity(k - 1, CapacityAfterPushes(k - 1), 1)
  }

  /** How many of those k push_back calls reallocated the buffer. */
  function ReallocationsAfterPushes(k: nat): (m: nat)
  {
    if k == 0 then 0
    else ReallocationsAfterPushes(k - 1)
         + (if CapacityAfterPushes(k) != CapacityAfterPushes(k - 1) then 1 else 0)
  }

  /**
   * After k >= 1 pushes from empty the capacity is 2^e, the smallest power of
   * two not below k (the sequence 1, 2, 4, 4, 8, ...), and the buffer was
   * reallocated exactly e + 1 times.
   */
  lemma {:induction false} PushesFromEmpty(k: nat) returns (e: nat)
    requires k >= 1
    ensures CapacityAfterPushes(k) == Pow2(e)
    ensures k <= Pow2(e) && (e > 0 ==> Pow2(e - 1) < k)
    ensures ReallocationsAfterPushes(k) == e + 1
  {
    if k == 1 {
      e := 0;
    } else {
      var e' := PushesFromEmpty(k - 1);
      var p := CapacityAfterPushes(k - 1);
      if k - 1 == p {
        e := e' + 1;
      } else {
        e := e';
      }
    }
  }

  /** 2^e grows with e. */
  lemma {:induction false} Pow2Monotone(a: nat, b: nat)
    requires a <= b
    ensures Pow2(a) <= Pow2(b)
    decreases b
  {
    if a < b {
      Pow2Monotone(a, b - 1);
    }
  }

  /**
   * The exponent PushesFromEmpty returns is the least one whose power of two
   * holds k elements: no smaller e2 has k <= 2^e2.
   */
  lemma LeastPowerOfTwo(k: nat, e: nat, e2: nat)
    requires e > 0 ==> Pow2(e - 1) < k
    requires k <= Pow2(e2)
    ensures e <= e2
  {
    if e2 < e {
      Pow2Monotone(e2, e - 1);
    }
  }

  /** The index an inserting operation returns, or the failure of its growth step. */
  function WithIndex(o: Outcome, j: nat): (r: Result<nat>)
  {
    if o.Success? then Ok(j) else Err(o.error)
  }

  /** r is s with xs spliced in at j, stated element by element. */
  lemma SplicedIn<T>(r: seq<T>, s: seq<T>, j: nat, xs: seq<T>)
    requires j <= |s| && |r| == |s| + |xs|
    requires forall k :: 0 <= k < j ==> r[k] == s[k]
    requires forall k :: 0 <= k < |xs| ==> r[j + k] == xs[k]
    requires forall k :: j <= k < |s| ==> r[k + |xs|] == s[k]
    ensures r == s[..j] + xs + s[j..]
  {
    var t := s[..j] + xs + s[j..];
    forall k | 0 <= k < |r|
      ensures r[k] == t[k]
    {
      if k < j {
      } else if k < j + |xs| {
        assert r[j + (k - j)] == xs[k - j];
      } else {
        assert r[(k - |xs|) + |xs|] == s[k - |xs|];
      }
    }
  }

  /** r is s with the d elements starting at j removed, stated element by element. */
  lemma CutOut<T>(r: seq<T>, s: seq<T>, j: nat, d: nat)
    requires j + d <= |s| && |r| == |s| - d
    requires forall k :: 0 <= k < j ==> r[k] == s[k]
    requires forall k :: j <= k < |r| ==> r[k] == s[k + d]
    ensures r == s[..j] + s[j + d..]
  {
  }
}
