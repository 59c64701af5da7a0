/**
 * Array<T, N>: a fixed-size container holding its N elements in place. N is
 * the length of `elems`; the Array<T, 0> specialisation is the case of an
 * empty `elems`, whose checked access always fails and whose unchecked
 * accesses (which abort) have no caller.
 */
module MyArray {
  import opened Outcomes

  class FixedArray<T> {
    /** `T element[N]`. */
    const elems: array<T>

    /** Aggregate initialisation from the N values in order. */
    constructor (init: seq<T>)
      ensures fresh(elems) && elems[..] == init
    {
      elems := new T[|init|](i requires 0 <= i < |init| => init[i]);
    }

    function Size(): (n: nat)
    {
      elems.Length
    }

    function MaxSize(): (n: nat)
    {
      elems.Length
    }

    predicate Empty(): (b: bool)
    {
      Size() == 0
    }

    /** Checked access at(index). */
    function At(i: nat): (r: Result<T>)
      reads elems
      ensures r.Ok? <==> i < Size()
      ensures r.Ok? ==> r.value == elems[i]
      ensures r.Err? ==> r.error == OutOfRange
    {
      if i >= Size() then Err(OutOfRange) else Ok(elems[i])
    }

    /** Unchecked access operator[](index). */
    function Get(i: nat): (x: T)
      reads elems
      requires i < Size()
      ensures At(i) == Ok(x)
    {
      elems[i]
    }

    function Front(): (x: T)
      reads elems
      requires !Empty()
      ensures At(0) == Ok(x)
    {
      elems[0]
    }

    function Back(): (x: T)
      reads elems
      requires !Empty()
      ensures At(Size() - 1) == Ok(x)
    {
      elems[Size() - 1]
    }

    /** fill(u): every element becomes u. */
    method Fill(u: T)
      modifies elems
      ensures forall i :: 0 <= i < Size() ==> elems[i] == u
    {
      var i := 0;
      while i < Size()
        invariant 0 <= i <= Size()
        invariant forall k :: 0 <= k < i ==> elems[k] == u
      {
        elems[i] := u;
        i := i + 1;
      }
    }
  }

  /** size() and max_size() are both N, and empty() holds exactly when N == 0. */
  lemma SizeQueries<T>(a: FixedArray<T>)
    ensures a.Size() == a.MaxSize() == a.elems.Length
    ensures a.Empty() <==> a.elems.Length == 0
  {
  }

  /** For N == 0 every checked access fails with out_of_range. */
  lemma ZeroLengthAt<T>(a: FixedArray<T>, i: nat)
    requires a.Size() == 0
    ensures a.Empty() && a.At(i) == Err(OutOfRange)
  {
  }

  /** The non-member swap(lhs, rhs): std::swap on each pair of elements in turn. */
  method Swap<T>(lhs: FixedArray<T>, rhs: FixedArray<T>)
    requires lhs.Size() == rhs.Size()
    modifies lhs.elems, rhs.elems
    ensures lhs.elems[..] == old(rhs.elems[..])
    ensures rhs.elems[..] == old(lhs.elems[..])
  {
    var i := 0;
    while i < lhs.Size()
      invariant 0 <= i <= lhs.Size()
      invariant forall k :: 0 <= k < i ==> lhs.elems[k] == old(rhs.elems[k]) && rhs.elems[k] == old(lhs.elems[k])
      invariant forall k :: i <= k < lhs.Size() ==> lhs.elems[k] == old(lhs.elems[k]) && rhs.elems[k] == old(rhs.elems[k])
    {
      var t := lhs.elems[i];
      lhs.elems[i] := rhs.elems[i];
      rhs.elems[i] := t;
      i := i + 1;
    }
  }

  /** operator==: equal sizes and equal elements position by position; stops at the first difference. */
  method Equal<T(==)>(lhs: FixedArray<T>, rhs: FixedArray<T>) returns (eq: bool)
    ensures eq <==> lhs.Size() == rhs.Size() && forall i :: 0 <= i < lhs.Size() ==> lhs.elems[i] == rhs.elems[i]
    ensures eq <==> lhs.elems[..] == rhs.elems[..]
  {
    if lhs.Size() != rhs.Size() {
      return false;
    }
    var i := 0;
    while i < lhs.Size()
      invariant 0 <= i <= lhs.Size()
      invariant forall k :: 0 <= k < i ==> lhs.elems[k] == rhs.elems[k]
    {
      if lhs.elems[i] != rhs.elems[i] {
        return false;
      }
      i := i + 1;
    }
    return true;
  }

  /** operator!=: the negation of operator==. */
  method NotEqual<T(==)>(lhs: FixedArray<T>, rhs: FixedArray<T>) returns (ne: bool)
    ensures ne <==> !(lhs.Size() == rhs.Size() && forall i :: 0 <= i < lhs.Size() ==> lhs.elems[i] == rhs.elems[i])
  {
    var eq := Equal(lhs, rhs);
    ne := !eq;
  }
}
