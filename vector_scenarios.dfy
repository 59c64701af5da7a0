/**
 * Client-side consequences of the my::vector contracts: the round trips that
 * relate operations to each other, and concrete scenarios of the operations on
 * small vectors, derived from the method contracts alone.
 */
module VectorScenarios {
  import opened Outcomes
  import opened VectorSpec
  import opened MyVector

  /** Taking out the element just put in at j gives back the sequence one started with. */
  lemma InsertEraseInverse<T>(s: seq<T>, j: nat, x: T)
    requires j <= |s|
    ensures var t := s[..j] + [x] + s[j..]; t[..j] + t[j + 1..] == s
  {
    var t := s[..j] + [x] + s[j..];
    assert t[..j] == s[..j];
    assert t[j + 1..] == s[j..];
  }

  /** push_back(x) followed by pop_back() restores the element sequence. */
  method PushThenPop<T(0)>(v: Vector<T>, x: T) returns (st: Outcome)
    requires v.Valid()
    modifies v, v.buf
    ensures v.Valid() && v.Contents() == old(v.Contents())
    ensures st == GrowthOutcome(old(v.Size()), old(v.Capacity()), 1)
  {
    st := v.PushBack(x);
    if st.Success? {
      v.PopBack();
    }
  }

  /** insert(j, x) followed by erase(j) restores the element sequence. */
  method InsertThenErase<T(0)>(v: Vector<T>, j: nat, x: T) returns (r: Result<nat>)
    requires v.Valid() && j <= v.Size()
    modifies v, v.buf
    ensures v.Valid() && v.Contents() == old(v.Contents())
    ensures r == WithIndex(GrowthOutcome(old(v.Size()), old(v.Capacity()), 1), j)
  {
    ghost var s := v.Contents();
    r := v.Insert(j, x);
    if r.Ok? {
      var e := v.Erase(j);
      InsertEraseInverse(s, j, x);
    }
  }

  /** Pushing onto a copy leaves the original's elements as they were. */
  method CopyIsIndependent<T(0)>(v: Vector<T>, x: T) returns (before: seq<T>, after: seq<T>, copied: seq<T>)
    requires v.Valid()
    ensures before == after
    ensures copied == before + [x] || copied == before
  {
    before := v.Contents();
    var c := new Vector<T>.Copy(v);
    var st := c.PushBack(x);
    after := v.Contents();
    copied := c.Contents();
  }

  /** Moving from a vector leaves it with size 0 and capacity 0. */
  method MoveLeavesSourceEmpty<T(0)>(v: Vector<T>) returns (w: Vector<T>)
    requires v.Valid()
    modifies v
    ensures w.Valid() && w.Contents() == old(v.Contents())
    ensures v.Valid() && v.Size() == 0 && v.Capacity() == 0
  {
    w := new Vector<T>.Move(v);
  }

  /** at(size()) always fails, and at(size() - 1) succeeds on a non-empty vector. */
  lemma AtBounds<T(0)>(v: Vector<T>)
    requires v.Valid()
    ensures v.At(v.Size()) == Err(OutOfRange)
    ensures !v.Empty() ==> v.At(v.Size() - 1).Ok?
  {
  }

  /** Five push_back calls from empty: capacities 1, 2, 4, 4, 8. */
  method PushFiveFromEmpty() returns (elems: seq<int>, caps: seq<nat>)
    ensures elems == [1, 2, 3, 4, 5]
    ensures caps == [1, 2, 4, 4, 8]
  {
    var v := new Vector<int>();
    caps := [];
    var st := v.PushBack(1);
    caps := caps + [v.Capacity()];
    st := v.PushBack(2);
    caps := caps + [v.Capacity()];
    st := v.PushBack(3);
    caps := caps + [v.Capacity()];
    st := v.PushBack(4);
    caps := caps + [v.Capacity()];
    st := v.PushBack(5);
    caps := caps + [v.Capacity()];
    elems := v.Contents();
  }

  /** From [1, 2, 3, 4]: insert 99 at 2, then erase [1, 3). */
  method InsertThenEraseRange() returns (inserted: seq<int>, erased: seq<int>)
    ensures inserted == [1, 2, 99, 3, 4]
    ensures erased == [1, 3, 4]
  {
    var made := Vector<int>.FromSeq([1, 2, 3, 4]);
    var v := made.value;
    var r := v.Insert(2, 99);
    inserted := v.Contents();
    r := v.EraseRange(1, 3);
    erased := v.Contents();
  }

  /** assign(3, 'x') on [a, b]: the source's version leaves the vector empty; the intended one gives [x, x, x]. */
  method AssignThreeCopies() returns (asWritten: seq<char>, intended: seq<char>)
    ensures asWritten == []
    ensures intended == ['x', 'x', 'x']
  {
    var made := Vector<char>.FromSeq(['a', 'b']);
    var v := made.value;
    var st := v.AssignAsWritten(3, 'x');
    asWritten := v.Contents();
    made := Vector<char>.FromSeq(['a', 'b']);
    v := made.value;
    st := v.Assign(3, 'x');
    intended := v.Contents();
  }

  /** assign over the range [7, 8] on an empty vector: empty as written, [7, 8] as intended. */
  method AssignRangeOfTwo() returns (asWritten: seq<int>, intended: seq<int>)
    ensures asWritten == []
    ensures intended == [7, 8]
  {
    var v := new Vector<int>();
    var st := v.AssignRangeAsWritten([7, 8]);
    asWritten := v.Contents();
    v := new Vector<int>();
    st := v.AssignRange([7, 8]);
    intended := v.Contents();
  }

  /** assign({7, 8}) on an empty vector: it forwards to the range assign, so empty as written, [7, 8] as intended. */
  method AssignListOfTwo() returns (asWritten: seq<int>, intended: seq<int>)
    ensures asWritten == []
    ensures intended == [7, 8]
  {
    var v := new Vector<int>();
    var st := v.AssignListAsWritten([7, 8]);
    asWritten := v.Contents();
    v := new Vector<int>();
    st := v.AssignList([7, 8]);
    intended := v.Contents();
  }
}
