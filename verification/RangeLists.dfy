/**
  Half-open ranges of numbers, and sorted lists of them. A list of ranges stands
  for a plain set of numbers; a canonical list (non-empty ranges, ascending, with
  a gap of at least one number between neighbours) stands for it uniquely.
 */
module RangeLists {

  datatype Range = Range(begin: int, end: int) {

    predicate Empty() {
      begin == end
    }

    /** Includes `begin`, excludes `end`. */
    predicate Has(x: int) {
      begin <= x < end
    }

    predicate Contains(r: Range) {
      begin <= r.begin && r.end <= end
    }

    predicate StrictContains(r: Range) {
      begin < r.begin && r.end < end
    }

    /** The order that the binary search runs on: a gap lies between the two. */
    predicate Before(r: Range) {
      end < r.begin
    }

    /** Overlapping or adjacent. */
    predicate Touching(r: Range) {
      Max(begin, r.begin) <= Min(end, r.end)
    }

    function Merge(r: Range): (m: Range)
      requires begin <= end && r.begin <= r.end && Touching(r)
      ensures forall x :: m.Has(x) <==> Has(x) || r.Has(x)
    {
      Range(Min(begin, r.begin), Max(end, r.end))
    }

    function Elements(): set<int> {
      set x | begin <= x < end && Has(x)
    }
  }

  function Min(a: int, b: int): int {
    if a < b then a else b
  }

  function Max(a: int, b: int): int {
    if a < b then b else a
  }

  /** Non-empty ranges, ascending, with a gap between neighbours. */
  predicate Canonical(rs: seq<Range>) {
    rs == [] ||
    (rs[0].begin < rs[0].end && Apart(rs[..1], rs[1..]) && Canonical(rs[1..]))
  }

  predicate Apart(a: seq<Range>, b: seq<Range>) {
    a == [] || b == [] || a[|a| - 1].end < b[0].begin
  }

  /** The same, by index. */
  ghost predicate Ordered(rs: seq<Range>) {
    && (forall i :: 0 <= i < |rs| ==> rs[i].begin < rs[i].end)
    && (forall i, j :: 0 <= i < j < |rs| ==> rs[i].end < rs[j].begin)
  }

  lemma {:induction false} CanonicalOrdered(rs: seq<Range>)
    requires Canonical(rs)
    ensures Ordered(rs)
  {
    if rs != [] {
      var t := rs[1..];
      CanonicalOrdered(t);
      assert forall i :: 0 < i < |rs| ==> rs[i] == t[i - 1];
      if t != [] {
        assert rs[..1][0] == rs[0];
        assert forall i :: 0 <= i < |t| ==> t[0].begin <= t[i].begin;
      }
    }
  }

  lemma InOrder(rs: seq<Range>, i: nat, j: nat)
    requires Canonical(rs) && i <= j < |rs|
    ensures rs[i].begin < rs[i].end && rs[j].begin < rs[j].end
    ensures rs[i].begin <= rs[j].begin && rs[i].end <= rs[j].end
    ensures i < j ==> rs[i].end < rs[j].begin
  {
    CanonicalOrdered(rs);
  }

  lemma {:induction false} OrderedCanonical(rs: seq<Range>)
    requires Ordered(rs)
    ensures Canonical(rs)
  {
    if rs != [] {
      var t := rs[1..];
      assert forall i :: 0 <= i < |t| ==> t[i] == rs[i + 1];
      OrderedCanonical(t);
    }
  }

  predicate Holds(rs: seq<Range>, x: int) {
    exists i :: 0 <= i < |rs| && rs[i].Has(x)
  }

  /** The set of numbers a list of ranges stands for. */
  function Elements(rs: seq<Range>): (s: set<int>)
    ensures forall x :: x in s <==> Holds(rs, x)
  {
    set i, x | 0 <= i < |rs| && rs[i].begin <= x < rs[i].end && rs[i].Has(x) :: x
  }

  lemma HoldsConcat(a: seq<Range>, b: seq<Range>, x: int)
    ensures Holds(a + b, x) <==> Holds(a, x) || Holds(b, x)
  {
    var ab := a + b;
    if Holds(a, x) {
      var i :| 0 <= i < |a| && a[i].Has(x);
      assert ab[i].Has(x);
    }
    if Holds(b, x) {
      var i :| 0 <= i < |b| && b[i].Has(x);
      assert ab[|a| + i].Has(x);
    }
    if Holds(ab, x) {
      var i :| 0 <= i < |ab| && ab[i].Has(x);
      if i < |a| { assert a[i].Has(x); } else { assert b[i - |a|].Has(x); }
    }
  }

  /** Canonical lists join when a gap lies between them. */
  lemma {:induction false} CanonicalConcat(a: seq<Range>, b: seq<Range>)
    ensures Canonical(a + b) <==> Canonical(a) && Canonical(b) && Apart(a, b)
  {
    if a == [] {
      assert a + b == b;
    } else {
      assert (a + b)[1..] == a[1..] + b && (a + b)[..1] == a[..1];
      CanonicalConcat(a[1..], b);
    }
  }

  /** Two canonical lists with the same elements are the same list. */
  lemma {:induction false} CanonicalUnique(a: seq<Range>, b: seq<Range>)
    requires Canonical(a) && Canonical(b)
    requires forall x :: Holds(a, x) <==> Holds(b, x)
    ensures a == b
    decreases |a|
  {
    if a == [] || b == [] {
      if a != [] { assert a[0].Has(a[0].begin); assert Holds(a, a[0].begin); }
      if b != [] { assert b[0].Has(b[0].begin); assert Holds(b, b[0].begin); }
    } else {
      HeadWithin(a, b);
      HeadWithin(b, a);
      forall x ensures Holds(a[1..], x) <==> Holds(b[1..], x) {
        TailHolds(a, x);
        TailHolds(b, x);
      }
      CanonicalUnique(a[1..], b[1..]);
      assert a == [a[0]] + a[1..] && b == [b[0]] + b[1..];
    }
  }

  lemma HeadWithin(a: seq<Range>, b: seq<Range>)
    requires Canonical(a) && Canonical(b) && a != [] && b != []
    requires forall x :: Holds(a, x) <==> Holds(b, x)
    ensures b[0].begin <= a[0].begin && a[0].end <= b[0].end
  {
    CanonicalOrdered(a);
    CanonicalOrdered(b);
    var lo := a[0].begin;
    assert a[0].Has(lo) && Holds(a, lo);
    var i :| 0 <= i < |b| && b[i].Has(lo);
    assert b[0].begin <= lo;
    var bLo := b[0].begin;
    assert b[0].Has(bLo) && Holds(b, bLo);
    var k :| 0 <= k < |a| && a[k].Has(bLo);
    assert a[0].begin <= a[k].begin;
    EndNotHeld(b);
    var e := b[0].end;
    assert a[0].Has(e) ==> Holds(a, e);
  }

  /** The gap after the first range is real. */
  lemma EndNotHeld(rs: seq<Range>)
    requires Canonical(rs) && rs != []
    ensures !Holds(rs, rs[0].end)
  {
    CanonicalOrdered(rs);
  }

  lemma TailHolds(rs: seq<Range>, x: int)
    requires Canonical(rs) && rs != []
    ensures Holds(rs[1..], x) <==> Holds(rs, x) && rs[0].end < x
  {
    CanonicalOrdered(rs);
    var t := rs[1..];
    if Holds(t, x) {
      var i :| 0 <= i < |t| && t[i].Has(x);
      assert rs[i + 1].Has(x);
    }
    if Holds(rs, x) && rs[0].end < x {
      var i :| 0 <= i < |rs| && rs[i].Has(x);
      assert t[i - 1].Has(x);
    }
  }

  // ------------------------------------------------------------ counting

  function SizeOf(rs: seq<Range>): int {
    if rs == [] then 0 else SizeOf(rs[..|rs| - 1]) + (rs[|rs| - 1].end - rs[|rs| - 1].begin)
  }

  lemma RangeCardinality(r: Range)
    requires r.begin <= r.end
    ensures |r.Elements()| == r.end - r.begin
    decreases r.end - r.begin
  {
    if r.begin < r.end {
      var shorter := Range(r.begin, r.end - 1);
      RangeCardinality(shorter);
      assert r.Elements() == shorter.Elements() + {r.end - 1};
    } else {
      assert r.Elements() == {};
    }
  }

  lemma ElementsConcat(a: seq<Range>, b: seq<Range>)
    ensures Elements(a + b) == Elements(a) + Elements(b)
  {
    forall x ensures x in Elements(a + b) <==> x in Elements(a) + Elements(b) {
      HoldsConcat(a, b, x);
    }
  }

  lemma ElementsOne(r: Range)
    ensures Elements([r]) == r.Elements()
  {
    forall x ensures x in Elements([r]) <==> x in r.Elements() {
      assert [r][0].Has(x) <==> Holds([r], x);
    }
  }

  lemma ElementsSnoc(rs: seq<Range>, r: Range)
    ensures Elements(rs + [r]) == Elements(rs) + r.Elements()
  {
    ElementsConcat(rs, [r]);
    ElementsOne(r);
  }

  lemma LastApart(init: seq<Range>, last: Range)
    requires Canonical(init + [last])
    ensures Canonical(init) && last.begin < last.end
    ensures Elements(init) !! last.Elements()
  {
    var rs := init + [last];
    CanonicalConcat(init, [last]);
    assert rs[|init|] == last;
    forall x | Holds(init, x) ensures !last.Has(x) {
      var i :| 0 <= i < |init| && init[i].Has(x);
      assert rs[i] == init[i];
      InOrder(rs, i, |init|);
    }
  }

  lemma DisjointUnionSize(a: set<int>, b: set<int>)
    requires a !! b
    ensures |a + b| == |a| + |b|
  {
  }

  lemma SizeSnoc(init: seq<Range>, last: Range)
    requires Canonical(init + [last])
    ensures Canonical(init)
    ensures |Elements(init + [last])| == |Elements(init)| + (last.end - last.begin)
  {
    LastApart(init, last);
    RangeCardinality(last);
    ElementsSnoc(init, last);
    DisjointUnionSize(Elements(init), last.Elements());
  }

  lemma {:induction false} SizeIsCardinality(rs: seq<Range>)
    requires Canonical(rs)
    ensures SizeOf(rs) == |Elements(rs)|
  {
    if rs != [] {
      assert rs == rs[..|rs| - 1] + [rs[|rs| - 1]];
      SizeSnoc(rs[..|rs| - 1], rs[|rs| - 1]);
      SizeIsCardinality(rs[..|rs| - 1]);
    }
  }
}
