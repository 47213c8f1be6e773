/** Vector_iterator<T>: a position handle into the buffer of one vector.  The raw pointer
    of the source is modelled by its offset from the start of that buffer, so iterators
    are only meaningful when they come from the same vector. */
module VectorIterators {
  import opened Wrappers

  datatype Iterator = Iterator(pos: int) {

    /** operator+(size_t): the iterator `n` slots further on. */
    function Plus(n: nat): (r: Iterator)
      ensures r.pos - pos == n
    {
      Iterator(pos + n)
    }

    /** operator-(size_t): the iterator `n` slots back. */
    function Minus(n: nat): (r: Iterator)
      ensures r.Plus(n) == this
    {
      Iterator(pos - n)
    }

    /** operator-(iterator): the distance from `other` up to this iterator; throws
        invalid_argument when `other` lies after this one. */
    function Diff(other: Iterator): (r: Result<nat>)
      ensures r.Err? <==> pos < other.pos
      ensures r.Err? ==> r.error == InvalidArgument
      ensures r.Ok? ==> other.pos + r.value == pos
    {
      if Less(other) then Err(InvalidArgument) else Ok(pos - other.pos)
    }

    /** operator==: both iterators name the same slot. */
    predicate Equal(other: Iterator): (r: bool)
      ensures r <==> this == other
    {
      pos == other.pos
    }

    /** operator!=. */
    predicate NotEqual(other: Iterator): (r: bool)
      ensures r <==> this != other
    {
      pos != other.pos
    }

    /** operator<. */
    predicate Less(other: Iterator): (r: bool)
      ensures r <==> pos < other.pos
    {
      pos < other.pos
    }

    /** operator>. */
    predicate Greater(other: Iterator): (r: bool)
      ensures r <==> other.Less(this)
    {
      pos > other.pos
    }

    /** operator++: the next slot. */
    function Next(): (r: Iterator)
      ensures r == Plus(1)
    {
      Iterator(pos + 1)
    }

    /** operator--: the previous slot. */
    function Prev(): (r: Iterator)
      ensures r.Next() == this
    {
      Iterator(pos - 1)
    }
  }

  /** Offsetting and the checked difference undo each other: (it + n) - it == n and
      (it + n) - n == it. */
  lemma PlusDiffRoundTrip(it: Iterator, n: nat)
    ensures it.Plus(n).Diff(it) == Ok(n)
    ensures it.Plus(n).Minus(n) == it
    ensures it.Minus(n).Plus(n) == it
  {
  }

  /** ++ moves exactly one slot forward. */
  lemma NextIsPlusOne(it: Iterator)
    ensures it.Next() == it.Plus(1)
    ensures it.Next().Diff(it) == Ok(1)
  {
  }

  /** == and != are exact complements. */
  lemma EqualIsNotNotEqual(a: Iterator, b: Iterator)
    ensures a.Equal(b) <==> !a.NotEqual(b)
  {
  }

  /** < and > are converses of each other, and both are false on equal positions. */
  lemma LessGreaterConverse(a: Iterator, b: Iterator)
    ensures a.Less(b) <==> b.Greater(a)
    ensures a.Equal(b) ==> !a.Less(b) && !a.Greater(b)
    ensures !a.Less(b) && !a.Greater(b) ==> a.Equal(b)
  {
  }

  /** ++ followed by -- (and -- followed by ++) restores the position. */
  lemma NextPrevInverse(a: Iterator)
    ensures a.Next().Prev() == a
    ensures a.Prev().Next() == a
  {
  }
}
