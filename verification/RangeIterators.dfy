/**
  Walking over the elements of a range set: a cursor holds the set, the index of
  the current range and the current value; the end cursor holds no set.
 */
module RangeIterators {
  import opened RangeLists
  import opened RangeSets

  ghost predicate Ascending(s: seq<int>) {
    forall i, j :: 0 <= i < j < |s| ==> s[i] < s[j]
  }

  ghost function ToSet(s: seq<int>): set<int> {
    set x | x in s
  }

  lemma {:induction false} AscendingCardinality(s: seq<int>)
    requires Ascending(s)
    ensures |ToSet(s)| == |s|
  {
    if s != [] {
      var init, last := s[..|s| - 1], s[|s| - 1];
      AscendingCardinality(init);
      assert s == init + [last];
      assert ToSet(s) == ToSet(init) + {last};
    }
  }

  /** A walk standing at `value` has visited exactly the smaller elements. */
  ghost predicate Visited(visited: seq<int>, rs: seq<Range>, value: int) {
    && (forall x :: x in visited ==> x in Elements(rs) && x < value)
    && (forall x :: x in Elements(rs) && x < value ==> x in visited)
  }

  function Top(rs: seq<Range>): int {
    if rs == [] then 0 else rs[|rs| - 1].end
  }

  lemma TopBounds(rs: seq<Range>, x: int)
    requires Canonical(rs) && x in Elements(rs)
    ensures x < Top(rs)
  {
    CanonicalOrdered(rs);
    var i :| 0 <= i < |rs| && rs[i].Has(x);
  }

  lemma AscendingSnoc(s: seq<int>, x: int)
    requires Ascending(s) && forall y :: y in s ==> y < x
    ensures Ascending(s + [x])
  {
    assert forall i :: 0 <= i < |s| ==> s[i] in s;
  }

  class Iterator {
    var owner: RangeSet?
    var iter: nat
    var value: int

    ghost predicate Valid()
      reads this, owner
    {
      owner != null ==>
        owner.Valid() && iter < |owner.ranges| && owner.ranges[iter].Has(value)
    }

    constructor Begin(s: RangeSet)
      requires s.Valid()
      ensures Valid() && owner == (if s.ranges == [] then null else s)
      ensures s.ranges != [] ==> value in s.Contents() && forall x :: x in s.Contents() ==> value <= x
    {
      owner := if s.ranges == [] then null else s;
      iter := 0;
      value := if s.ranges == [] then 0 else s.ranges[0].begin;
      new;
      if s.ranges != [] {
        CanonicalOrdered(s.ranges);
        assert s.ranges[0].Has(value);
        assert forall k :: 0 <= k < |s.ranges| ==> s.ranges[0].begin <= s.ranges[k].begin;
      }
    }

    /** Steps to the next larger element, or to the end when there is none. */
    method Increment()
      requires Valid() && owner != null
      modifies this
      ensures Valid() && (owner == null || owner == old(owner))
      ensures owner == null ==> forall x :: x in old(owner.Contents()) ==> x <= old(value)
      ensures owner != null ==> old(value) < value && value in owner.Contents()
      ensures owner != null ==> forall x :: x in owner.Contents() && old(value) < x ==> value <= x
    {
      ghost var rs, at := owner.ranges, iter;
      CanonicalOrdered(rs);
      value := value + 1;
      if !owner.ranges[iter].Has(value) {
        iter := iter + 1;
        if iter == |owner.ranges| {
          owner := null;
          iter := 0;
          value := 0;
        } else {
          value := owner.ranges[iter].begin;
        }
      }
      assert forall k :: 0 <= k < at ==> rs[k].end < rs[at].begin;
      assert forall k :: at < k < |rs| ==> rs[at].end < rs[k].begin;
      assert at + 1 < |rs| ==> forall k :: at < k < |rs| ==> rs[at + 1].begin <= rs[k].begin;
      if owner != null {
        assert rs[iter].Has(value);
      }
    }
  }

  /** The walk from begin() to end(), as a copy of the elements. */
  method Traverse(s: RangeSet) returns (visited: seq<int>)
    requires s.Valid()
    ensures Ascending(visited)
    ensures ToSet(visited) == s.Contents()
    ensures |visited| == |s.Contents()| == SizeOf(s.ranges)
  {
    visited := [];
    var it := new Iterator.Begin(s);
    while it.owner != null
      invariant it.Valid() && (it.owner == null || it.owner == s)
      invariant Ascending(visited)
      invariant it.owner != null ==> it.value in s.Contents()
      invariant it.owner != null ==> Visited(visited, s.ranges, it.value)
      invariant it.owner == null ==> forall x :: x in visited <==> x in s.Contents()
      decreases if it.owner == null then 0 else 1 + Top(s.ranges) - it.value
    {
      ghost var before, at := visited, it.value;
      visited := visited + [it.value];
      AscendingSnoc(before, at);
      it.Increment();
      TopBounds(s.ranges, at);
      assert forall x :: x in visited <==> x in before || x == at;
    }
    forall x ensures x in ToSet(visited) <==> x in s.Contents() {
      assert x in visited <==> x in s.Contents();
    }
    AscendingCardinality(visited);
    SizeIsCardinality(s.ranges);
  }
}
