/** Listing the members of a set, in an order the model leaves open. */
module Collections {
  /**
   * The members of a set, once each. A `HashSet` fixes no order; a
   * `LinkedHashSet` hands its members out in insertion order, which a
   * `set` does not record, so the order here is left open.
   */
  method Enumerate<T(==)>(s: set<T>) returns (order: seq<T>)
    ensures |order| == |s| && forall x :: x in s <==> x in order
    ensures forall i, j :: 0 <= i < j < |order| ==> order[i] != order[j]
  {
    order := [];
    var left := s;
    while left != {}
      invariant left <= s && |order| + |left| == |s|
      invariant forall x :: x in s <==> x in order || x in left
      invariant forall x :: x in order ==> x !in left
      invariant forall i, j :: 0 <= i < j < |order| ==> order[i] != order[j]
      decreases |left|
    {
      var x :| x in left;
      order := order + [x];
      left := left - {x};
    }
  }
}
