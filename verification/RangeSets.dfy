/**
  A set of numbers kept as a vector of ranges, updated in place. Every operation is
  specified by the plain set the vector stands for; the vector stays canonical.
 */
module RangeSets {
  import opened RangeLists

  /** First range not wholly below `r`: the binary search of a sorted vector. */
  method LowerBound(rs: seq<Range>, r: Range) returns (i: nat)
    requires Canonical(rs)
    ensures i <= |rs|
    ensures forall k :: 0 <= k < i ==> rs[k].Before(r)
    ensures forall k :: i <= k < |rs| ==> !rs[k].Before(r)
  {
    CanonicalOrdered(rs);
    i := 0;
    var count := |rs|;
    while count > 0
      invariant 0 <= i <= i + count <= |rs|
      invariant forall k :: 0 <= k < i ==> rs[k].Before(r)
      invariant forall k :: i + count <= k < |rs| ==> !rs[k].Before(r)
    {
      var step := count / 2;
      var mid := i + step;
      if rs[mid].Before(r) {
        assert forall k :: 0 <= k < mid ==> rs[k].end < rs[mid].begin;
        i := mid + 1;
        count := count - (step + 1);
      } else {
        assert forall k :: mid < k < |rs| ==> rs[mid].end < rs[k].begin;
        count := step;
      }
    }
  }

  // -------------------------------------------------- list surgery

  /** `rs` with the ranges from `i` up to `j` replaced by `mid`. */
  function Splice(rs: seq<Range>, i: nat, j: nat, mid: seq<Range>): seq<Range>
    requires i <= j <= |rs|
  {
    rs[..i] + mid + rs[j..]
  }

  lemma ElementsSplice(rs: seq<Range>, i: nat, j: nat, mid: seq<Range>)
    requires i <= j <= |rs|
    ensures Elements(Splice(rs, i, j, mid)) == Elements(rs[..i]) + Elements(mid) + Elements(rs[j..])
    ensures Elements(rs) == Elements(rs[..i]) + Elements(rs[i..j]) + Elements(rs[j..])
  {
    ElementsThree(rs[..i], mid, rs[j..]);
    ElementsThree(rs[..i], rs[i..j], rs[j..]);
    assert rs[..i] + rs[i..j] + rs[j..] == rs;
  }

  lemma ElementsThree(a: seq<Range>, b: seq<Range>, c: seq<Range>)
    ensures Elements(a + b + c) == Elements(a) + Elements(b) + Elements(c)
  {
    ElementsConcat(a + b, c);
    ElementsConcat(a, b);
  }

  lemma CutCanonical(rs: seq<Range>, i: nat)
    requires Canonical(rs) && i <= |rs|
    ensures Canonical(rs[..i]) && Canonical(rs[i..])
  {
    CanonicalConcat(rs[..i], rs[i..]);
    assert rs[..i] + rs[i..] == rs;
  }

  /** Replacing the ranges `i..j` by one range that is apart from both neighbours. */
  lemma SpliceOne(rs: seq<Range>, i: nat, j: nat, m: Range)
    requires Canonical(rs) && i <= j <= |rs| && m.begin < m.end
    requires i > 0 ==> rs[i - 1].end < m.begin
    requires j < |rs| ==> m.end < rs[j].begin
    ensures Canonical(Splice(rs, i, j, [m]))
  {
    CutCanonical(rs, i);
    CutCanonical(rs, j);
    assert Canonical([m]);
    CanonicalConcat(rs[..i], [m]);
    CanonicalConcat(rs[..i] + [m], rs[j..]);
  }

  /** Adding a range that touches nothing. */
  lemma InsertApart(rs: seq<Range>, i: nat, r: Range)
    requires Canonical(rs) && i <= |rs| && r.begin < r.end
    requires i > 0 ==> rs[i - 1].end < r.begin
    requires i < |rs| ==> r.end < rs[i].begin
    ensures Canonical(Splice(rs, i, i, [r]))
    ensures Elements(Splice(rs, i, i, [r])) == Elements(rs) + r.Elements()
  {
    SpliceOne(rs, i, i, r);
    ElementsSplice(rs, i, i, [r]);
    ElementsOne(r);
    assert Elements(rs[i..i]) == {};
  }

  /** What `r` and the ranges `i..j` it touches merge into. */
  function Hull(rs: seq<Range>, i: nat, j: nat, r: Range): Range
    requires i < j <= |rs|
  {
    Range(Min(rs[i].begin, r.begin), Max(rs[j - 1].end, r.end))
  }

  lemma HullElements(rs: seq<Range>, i: nat, j: nat, r: Range)
    requires Canonical(rs) && i < j <= |rs| && r.begin < r.end
    requires r.begin <= rs[i].end && rs[j - 1].begin <= r.end
    ensures Hull(rs, i, j, r).Elements() == r.Elements() + Elements(rs[i..j])
  {
    var mid := rs[i..j];
    assert mid[0] == rs[i] && mid[|mid| - 1] == rs[j - 1];
    InOrder(rs, i, j - 1);
    forall x | Holds(mid, x) ensures Hull(rs, i, j, r).Has(x) {
      var k :| 0 <= k < |mid| && mid[k].Has(x);
      InOrder(rs, i, i + k);
      InOrder(rs, i + k, j - 1);
    }
    forall x | Hull(rs, i, j, r).Has(x) && !r.Has(x) ensures Holds(mid, x) {
      assert mid[0].Has(x) || mid[|mid| - 1].Has(x);
    }
  }

  /** Merging `r` with exactly the ranges it touches. */
  lemma MergeTouched(rs: seq<Range>, i: nat, j: nat, r: Range)
    requires Canonical(rs) && i < j <= |rs| && r.begin < r.end
    requires r.begin <= rs[i].end && rs[j - 1].begin <= r.end
    requires i > 0 ==> rs[i - 1].end < r.begin
    requires j < |rs| ==> r.end < rs[j].begin
    ensures Canonical(Splice(rs, i, j, [Hull(rs, i, j, r)]))
    ensures Elements(Splice(rs, i, j, [Hull(rs, i, j, r)])) == Elements(rs) + r.Elements()
  {
    HullApart(rs, i, j, r);
    var m := Hull(rs, i, j, r);
    SpliceOne(rs, i, j, m);
    ElementsSplice(rs, i, j, [m]);
    ElementsOne(m);
    HullElements(rs, i, j, r);
    Regroup(Elements(rs[..i]), Elements(rs[i..j]), Elements(rs[j..]), r.Elements());
  }

  lemma HullApart(rs: seq<Range>, i: nat, j: nat, r: Range)
    requires Canonical(rs) && i < j <= |rs| && r.begin < r.end
    requires i > 0 ==> rs[i - 1].end < r.begin
    requires j < |rs| ==> r.end < rs[j].begin
    ensures Hull(rs, i, j, r).begin < Hull(rs, i, j, r).end
    ensures i > 0 ==> rs[i - 1].end < Hull(rs, i, j, r).begin
    ensures j < |rs| ==> Hull(rs, i, j, r).end < rs[j].begin
  {
    InOrder(rs, i, j - 1);
    if i > 0 { InOrder(rs, i - 1, i); }
    if j < |rs| { InOrder(rs, j - 1, j); }
  }

  lemma Regroup(a: set<int>, m: set<int>, b: set<int>, r: set<int>)
    ensures a + (r + m) + b == a + m + b + r
  {
  }

  /** What is left of the ranges `lo..hi` once `r` is taken out of them. */
  function Remainder(rs: seq<Range>, lo: nat, hi: nat, r: Range): seq<Range>
    requires lo < hi <= |rs|
  {
    HeadOfSpan(r, rs[lo]) + TailOfSpan(r, rs[hi - 1])
  }

  /** `lo..hi` are the ranges that meet `r` or end where it begins. */
  predicate Spans(rs: seq<Range>, lo: nat, hi: nat, r: Range) {
    && Canonical(rs) && lo < hi <= |rs| && r.begin < r.end
    && (lo > 0 ==> rs[lo - 1].end < r.begin) && r.begin <= rs[lo].end
    && rs[hi - 1].begin < r.end && (hi < |rs| ==> r.end <= rs[hi].begin)
  }

  lemma RemainderElements(rs: seq<Range>, lo: nat, hi: nat, r: Range)
    requires Spans(rs, lo, hi, r)
    ensures Elements(Remainder(rs, lo, hi, r)) == Elements(rs[lo..hi]) - r.Elements()
  {
    var left, right := HeadOfSpan(r, rs[lo]), TailOfSpan(r, rs[hi - 1]);
    var mid := rs[lo..hi];
    assert mid[0] == rs[lo] && mid[|mid| - 1] == rs[hi - 1];
    ElementsConcat(left, right);
    ElementsOne(Range(rs[lo].begin, r.begin));
    ElementsOne(Range(r.end, rs[hi - 1].end));
    InOrder(rs, lo, hi - 1);
    forall x | x in Elements(left + right) ensures Holds(mid, x) && !r.Has(x) {
      assert mid[0].Has(x) || mid[|mid| - 1].Has(x);
    }
    forall x | Holds(mid, x) && !r.Has(x) ensures x in Elements(left) || x in Elements(right) {
      var k :| 0 <= k < |mid| && mid[k].Has(x);
      InOrder(rs, lo, lo + k);
      InOrder(rs, lo + k, hi - 1);
    }
  }

  lemma RemainderCanonical(rs: seq<Range>, lo: nat, hi: nat, r: Range)
    requires Spans(rs, lo, hi, r)
    ensures Canonical(Splice(rs, lo, hi, Remainder(rs, lo, hi, r)))
  {
    var head, tail := HeadOfSpan(r, rs[lo]), TailOfSpan(r, rs[hi - 1]);
    CutCanonical(rs, lo);
    CutCanonical(rs, hi);
    InOrder(rs, lo, hi - 1);
    if lo > 0 { InOrder(rs, lo - 1, lo); }
    if hi < |rs| { InOrder(rs, hi - 1, hi); }
    CanonicalConcat(head, tail);
    CanonicalConcat(rs[..lo], head + tail);
    CanonicalConcat(rs[..lo] + (head + tail), rs[hi..]);
  }

  lemma RemoveSpanned(rs: seq<Range>, lo: nat, hi: nat, r: Range)
    requires Spans(rs, lo, hi, r)
    ensures Canonical(Splice(rs, lo, hi, Remainder(rs, lo, hi, r)))
    ensures Elements(Splice(rs, lo, hi, Remainder(rs, lo, hi, r))) == Elements(rs) - r.Elements()
  {
    RemainderCanonical(rs, lo, hi, r);
    RemainderElements(rs, lo, hi, r);
    ElementsSplice(rs, lo, hi, Remainder(rs, lo, hi, r));
    OutsideSpan(rs, lo, hi, r);
  }

  lemma OutsideSpan(rs: seq<Range>, lo: nat, hi: nat, r: Range)
    requires Spans(rs, lo, hi, r)
    ensures Elements(rs[..lo]) !! r.Elements() && Elements(rs[hi..]) !! r.Elements()
  {
    forall x | Holds(rs[..lo], x) ensures !r.Has(x) {
      var k :| 0 <= k < lo && rs[..lo][k].Has(x);
      InOrder(rs, k, lo - 1);
    }
    forall x | Holds(rs[hi..], x) ensures !r.Has(x) {
      var k :| 0 <= k < |rs[hi..]| && rs[hi..][k].Has(x);
      InOrder(rs, hi, hi + k);
    }
  }

  /** `r` falls into a gap. */
  lemma RemoveNothing(rs: seq<Range>, i: nat, r: Range)
    requires Canonical(rs) && i <= |rs|
    requires forall k :: 0 <= k < i ==> rs[k].Before(r)
    requires i < |rs| ==> r.end <= rs[i].begin
    ensures Elements(rs) == Elements(rs) - r.Elements()
  {
    CanonicalOrdered(rs);
  }

  lemma EraseOne(rs: seq<Range>, i: nat)
    requires Canonical(rs) && i < |rs|
    ensures Canonical(rs[..i] + rs[i + 1..])
    ensures Elements(rs[..i] + rs[i + 1..]) == Elements(rs) - rs[i].Elements()
  {
    InOrder(rs, i, i);
    if i > 0 { InOrder(rs, i - 1, i); }
    if i + 1 < |rs| { InOrder(rs, i, i + 1); }
    assert Spans(rs, i, i + 1, rs[i]);
    assert Remainder(rs, i, i + 1, rs[i]) == [];
    assert Splice(rs, i, i + 1, []) == rs[..i] + rs[i + 1..];
    RemoveSpanned(rs, i, i + 1, rs[i]);
  }

  lemma SplitOne(rs: seq<Range>, i: nat, r: Range)
    requires Canonical(rs) && i < |rs| && r.begin < r.end && rs[i].StrictContains(r)
    ensures var t := rs[i := Range(r.end, rs[i].end)];
            var u := t[..i] + [Range(rs[i].begin, r.begin)] + t[i..];
            Canonical(u) && Elements(u) == Elements(rs) - r.Elements()
  {
    InOrder(rs, i, i);
    if i > 0 { InOrder(rs, i - 1, i); }
    if i + 1 < |rs| { InOrder(rs, i, i + 1); }
    RemoveSpanned(rs, i, i + 1, r);
    var t := rs[i := Range(r.end, rs[i].end)];
    assert t[..i] == rs[..i] && t[i..] == [Range(r.end, rs[i].end)] + rs[i + 1..];
    assert t[..i] + [Range(rs[i].begin, r.begin)] + t[i..] == Splice(rs, i, i + 1, Remainder(rs, i, i + 1, r));
  }

  /** `t` is `rs` with the first range of the span cut below `r` if it starts there. */
  function CutLeft(rs: seq<Range>, lo: nat, r: Range): seq<Range>
    requires lo < |rs|
  {
    if rs[lo].begin < r.begin then rs[lo := rs[lo].(end := r.begin)] else rs
  }

  /** ... and with the range at `j` cut above `r` if `r` reaches into it. */
  function CutRight(rs: seq<Range>, j: nat, r: Range): seq<Range>
    requires j <= |rs|
  {
    if j < |rs| && r.end > rs[j].begin then rs[j := rs[j].(begin := r.end)] else rs
  }

  function HeadOfSpan(r: Range, first: Range): seq<Range> {
    if first.begin < r.begin then [Range(first.begin, r.begin)] else []
  }

  function TailOfSpan(r: Range, last: Range): seq<Range> {
    if r.end < last.end then [Range(r.end, last.end)] else []
  }

  lemma CutShape(rs: seq<Range>, lo: nat, r: Range, j: nat)
    requires lo <= j <= |rs| && lo < |rs|
    requires rs[lo].begin < r.begin ==> lo < j
    requires j > lo ==> rs[j - 1].end <= r.end
    requires j < |rs| && r.end > rs[j].begin ==> r.end < rs[j].end
    requires j == lo ==> r.end > rs[j].begin
    ensures var i := if rs[lo].begin < r.begin then lo + 1 else lo;
            var hi := if j < |rs| && r.end > rs[j].begin then j + 1 else j;
            var t := CutRight(CutLeft(rs, lo, r), j, r);
            && t[..i] == rs[..lo] + HeadOfSpan(r, rs[lo])
            && t[j..] == TailOfSpan(r, rs[hi - 1]) + rs[hi..]
  {
  }

  lemma CutIsSplice(rs: seq<Range>, lo: nat, r: Range, j: nat)
    requires lo <= j <= |rs| && lo < |rs|
    requires rs[lo].begin < r.begin ==> lo < j
    requires j > lo ==> rs[j - 1].end <= r.end
    requires j < |rs| && r.end > rs[j].begin ==> r.end < rs[j].end
    requires j == lo ==> r.end > rs[j].begin
    ensures var i := if rs[lo].begin < r.begin then lo + 1 else lo;
            var hi := if j < |rs| && r.end > rs[j].begin then j + 1 else j;
            var t := CutRight(CutLeft(rs, lo, r), j, r);
            t[..i] + t[j..] == Splice(rs, lo, hi, Remainder(rs, lo, hi, r))
  {
    CutShape(rs, lo, r, j);
    var hi := if j < |rs| && r.end > rs[j].begin then j + 1 else j;
    SplitConcat(rs[..lo], HeadOfSpan(r, rs[lo]), TailOfSpan(r, rs[hi - 1]), rs[hi..]);
  }

  /** Cutting both ends of a span and erasing what lies between removes exactly `r`. */
  lemma CutBothEnds(rs: seq<Range>, lo: nat, r: Range, i: nat, j: nat)
    requires Canonical(rs) && lo < |rs| && r.begin < r.end
    requires lo > 0 ==> rs[lo - 1].end < r.begin
    requires r.begin <= rs[lo].end && rs[lo].begin < r.end && !rs[lo].StrictContains(r)
    requires i == (if rs[lo].begin < r.begin then lo + 1 else lo)
    requires i <= j <= |rs|
    requires j > lo ==> rs[j - 1].begin < r.end && rs[j - 1].end <= r.end
    requires j < |rs| ==> !r.Contains(rs[j])
    ensures var t := CutRight(CutLeft(rs, lo, r), j, r);
            Canonical(t[..i] + t[j..]) && Elements(t[..i] + t[j..]) == Elements(rs) - r.Elements()
  {
    var hi := if j < |rs| && r.end > rs[j].begin then j + 1 else j;
    SpanFound(rs, lo, r, j);
    RemoveSpanned(rs, lo, hi, r);
    CutIsSplice(rs, lo, r, j);
  }

  lemma SpanFound(rs: seq<Range>, lo: nat, r: Range, j: nat)
    requires Canonical(rs) && lo < |rs| && r.begin < r.end && lo <= j <= |rs|
    requires lo > 0 ==> rs[lo - 1].end < r.begin
    requires r.begin <= rs[lo].end && rs[lo].begin < r.end
    requires j > lo ==> rs[j - 1].begin < r.end && rs[j - 1].end <= r.end
    requires j < |rs| ==> !r.Contains(rs[j])
    requires rs[lo].begin < r.begin ==> lo < j
    ensures var hi := if j < |rs| && r.end > rs[j].begin then j + 1 else j;
            Spans(rs, lo, hi, r)
    ensures j < |rs| && r.end > rs[j].begin ==> r.end < rs[j].end
  {
    var hi := if j < |rs| && r.end > rs[j].begin then j + 1 else j;
    if j < |rs| { InOrder(rs, lo, j); }
    if hi < |rs| { InOrder(rs, hi - 1, hi); }
  }

  lemma SplitConcat(a: seq<Range>, b: seq<Range>, c: seq<Range>, d: seq<Range>)
    ensures (a + b) + (c + d) == a + (b + c) + d
  {
  }

  lemma ElementsTake(rs: seq<Range>, k: nat)
    requires k < |rs|
    ensures Elements(rs[..k + 1]) == Elements(rs[..k]) + rs[k].Elements()
    ensures rs[k].Elements() <= Elements(rs)
  {
    ElementsSnoc(rs[..k], rs[k]);
    assert rs[..k] + [rs[k]] == rs[..k + 1];
  }

  lemma UnionTake(s: set<int>, rs: seq<Range>, k: nat)
    requires k < |rs|
    ensures s + Elements(rs[..k]) + rs[k].Elements() == s + Elements(rs[..k + 1])
    ensures rs[k].Elements() <= Elements(rs)
  {
    ElementsTake(rs, k);
  }

  /** Canonical form is unique, stated on sets. */
  lemma SameElements(a: seq<Range>, b: seq<Range>)
    requires Canonical(a) && Canonical(b) && Elements(a) == Elements(b)
    ensures a == b
  {
    forall x ensures Holds(a, x) <==> Holds(b, x) {
      assert x in Elements(a) <==> x in Elements(b);
    }
    CanonicalUnique(a, b);
  }

  lemma AddedAgain(was: seq<Range>, now: seq<Range>, r: Range)
    requires Canonical(was) && Canonical(now)
    requires Elements(now) == Elements(was) + r.Elements() && r.Elements() <= Elements(was)
    ensures now == was
  {
    assert Elements(was) + r.Elements() == Elements(was);
    SameElements(was, now);
  }

  /** When the run found does not cover `r`, some element of `r` is missing from the set. */
  lemma RunLeaves(rs: seq<Range>, i: nat, r: Range)
    requires Canonical(rs) && i <= |rs| && r.begin < r.end
    requires forall k :: 0 <= k < i ==> rs[k].Before(r)
    requires forall k :: i <= k < |rs| ==> !rs[k].Before(r)
    requires i < |rs| ==> !rs[i].Contains(r)
    ensures !(r.Elements() <= Elements(rs))
  {
    CanonicalOrdered(rs);
    var x := if i < |rs| && rs[i].begin <= r.begin < rs[i].end then rs[i].end else r.begin;
    assert r.Has(x) && x in r.Elements();
    assert !Holds(rs, x);
  }

  class RangeSet {
    var ranges: seq<Range>

    ghost predicate Valid()
      reads this
    {
      Canonical(ranges)
    }

    ghost function Contents(): set<int>
      reads this
    {
      Elements(ranges)
    }

    constructor ()
      ensures Valid() && Contents() == {}
    {
      ranges := [];
    }

    method AddRange(r: Range)
      requires Valid() && r.begin <= r.end
      modifies this
      ensures Valid() && Contents() == old(Contents()) + r.Elements()
    {
      if r.Empty() {
        return;
      }
      var i := LowerBound(ranges, r);
      ghost var was := ranges;
      if i < |ranges| { InOrder(was, i, i); }
      if i == |ranges| || !ranges[i].Touching(r) {
        InsertApart(was, i, r);
        ranges := ranges[..i] + [r] + ranges[i..];
      } else {
        ranges := ranges[i := ranges[i].Merge(r)];
        var j := i + 1;
        while j < |ranges| && ranges[i].Touching(ranges[j])
          invariant i < j <= |was|
          invariant ranges == was[i := Hull(was, i, j, r)]
          invariant was[j - 1].begin <= r.end
        {
          InOrder(was, j - 1, j);
          ranges := ranges[i := ranges[i].Merge(ranges[j])];
          j := j + 1;
        }
        if j < |was| { InOrder(was, i, j); }
        MergeTouched(was, i, j, r);
        ranges := ranges[..i + 1] + ranges[j..];
        assert ranges == Splice(was, i, j, [Hull(was, i, j, r)]);
      }
    }

    method RemoveRange(r: Range)
      requires Valid() && r.begin <= r.end
      modifies this
      ensures Valid() && Contents() == old(Contents()) - r.Elements()
    {
      if r.Empty() {
        return;
      }
      var i := LowerBound(ranges, r);
      ghost var was, lo := ranges, i;
      if i == |ranges| || ranges[i].begin >= r.end {
        RemoveNothing(was, i, r);
        return;
      }
      if ranges[i] == r {
        EraseOne(was, i);
        ranges := ranges[..i] + ranges[i + 1..];
      } else if ranges[i].StrictContains(r) {
        SplitOne(was, i, r);
        var i1 := Range(ranges[i].begin, r.begin);
        var i2 := Range(r.end, ranges[i].end);
        ranges := ranges[i := i2];
        ranges := ranges[..i] + [i1] + ranges[i..];
      } else {
        if ranges[i].begin < r.begin {
          ranges := ranges[i := ranges[i].(end := r.begin)];
          i := i + 1;
        }
        var j := i;
        InOrder(was, lo, lo);
        while j < |ranges| && r.Contains(ranges[j])
          invariant i <= j <= |was| && ranges == CutLeft(was, lo, r)
          invariant j > lo ==> was[j - 1].begin < r.end && was[j - 1].end <= r.end
        {
          InOrder(was, j, j);
          j := j + 1;
        }
        CutBothEnds(was, lo, r, i, j);
        if j < |ranges| && r.end > ranges[j].begin {
          ranges := ranges[j := ranges[j].(begin := r.end)];
        }
        ranges := ranges[..i] + ranges[j..];
      }
    }

    /** Also right when `s` is this very set: then nothing changes while it is read. */
    method AddSet(s: RangeSet)
      requires Valid() && s.Valid()
      modifies this
      ensures Valid() && Contents() == old(Contents()) + old(s.Contents())
    {
      ghost var theirs, mine := s.ranges, ranges;
      CanonicalOrdered(theirs);
      var k := 0;
      while k < |s.ranges|
        invariant s.ranges == theirs && k <= |theirs| && Canonical(ranges)
        invariant Elements(ranges) == Elements(mine) + Elements(theirs[..k])
      {
        ghost var now := ranges;
        UnionTake(Elements(mine), theirs, k);
        AddRange(s.ranges[k]);
        if s == this {
          AddedAgain(now, ranges, theirs[k]);
        }
        k := k + 1;
      }
      assert theirs[..k] == theirs;
    }

    method RemoveSet(s: RangeSet)
      requires Valid() && s.Valid() && s != this
      modifies this
      ensures Valid() && Contents() == old(Contents()) - s.Contents()
    {
      ghost var mine := Contents();
      CanonicalOrdered(s.ranges);
      var k := 0;
      while k < |s.ranges|
        invariant 0 <= k <= |s.ranges| && Valid()
        invariant Contents() == mine - Elements(s.ranges[..k])
      {
        ElementsTake(s.ranges, k);
        RemoveRange(s.ranges[k]);
        k := k + 1;
      }
      assert s.ranges[..k] == s.ranges;
    }

    method AddNumber(t: int)
      requires Valid()
      modifies this
      ensures Valid() && Contents() == old(Contents()) + {t}
    {
      AddRange(Range(t, t + 1));
      assert Range(t, t + 1).Elements() == {t};
    }

    /** Closed range, in either order (SequenceSet). */
    method AddClosed(start: int, finish: int)
      requires Valid()
      modifies this
      ensures Valid()
      ensures forall x :: x in Contents() <==> x in old(Contents()) || start <= x <= finish || finish <= x <= start
    {
      AddRange(Range(Min(start, finish), Max(start, finish) + 1));
    }

    /** Closed range, in either order (SequenceSet). */
    method RemoveClosed(start: int, finish: int)
      requires Valid()
      modifies this
      ensures Valid()
      ensures forall x :: x in Contents() <==> x in old(Contents()) && !(start <= x <= finish || finish <= x <= start)
    {
      RemoveRange(Range(Min(start, finish), Max(start, finish) + 1));
    }

    method Contains(t: int) returns (found: bool)
      requires Valid()
      ensures found <==> t in Contents()
    {
      var i := LowerBound(ranges, Range(t, t + 1));
      found := i < |ranges| && ranges[i].Has(t);
      CanonicalOrdered(ranges);
    }

    /** For an empty range [t,t) the lookup also accepts a run that ends at `t`. */
    method ContainsRange(r: Range) returns (found: bool)
      requires Valid() && r.begin <= r.end
      ensures r.begin < r.end ==> (found <==> r.Elements() <= Contents())
      ensures r.begin == r.end ==> (found <==> r.begin in Contents() || r.begin - 1 in Contents())
    {
      var i := LowerBound(ranges, r);
      found := i < |ranges| && ranges[i].Contains(r);
      ghost var rs := ranges;
      CanonicalOrdered(rs);
      if r.begin == r.end {
        assert forall k :: 0 <= k < |rs| && (rs[k].Has(r.begin) || rs[k].Has(r.begin - 1)) ==> k == i;
        if found {
          assert rs[i].Has(r.begin) || rs[i].Has(r.begin - 1);
        }
      } else if found {
        assert forall x :: r.Has(x) ==> rs[i].Has(x);
      } else {
        RunLeaves(rs, i, r);
      }
    }

    /** The maximal run that holds `t`, or the empty range at `t`. */
    method RangeContaining(t: int) returns (r: Range)
      requires Valid()
      ensures t !in Contents() ==> r == Range(t, t)
      ensures t in Contents() ==> r.Has(t) && r.Elements() <= Contents()
      ensures t in Contents() ==> r.begin - 1 !in Contents() && r.end !in Contents()
    {
      var i := LowerBound(ranges, Range(t, t + 1));
      CanonicalOrdered(ranges);
      if i < |ranges| && ranges[i].Has(t) {
        r := ranges[i];
        assert forall x :: r.Has(x) ==> ranges[i].Has(x);
      } else {
        r := Range(t, t);
      }
    }

    method Size() returns (n: int)
      requires Valid()
      ensures n == |Contents()|
    {
      n := 0;
      for k := 0 to |ranges|
        invariant n == SizeOf(ranges[..k])
      {
        assert ranges[..k + 1][..k] == ranges[..k];
        n := n + (ranges[k].end - ranges[k].begin);
      }
      assert ranges[..|ranges|] == ranges;
      SizeIsCardinality(ranges);
    }
  }

  // -------------------------------------------------- histories

  datatype Update = Add(r: Range) | Remove(r: Range)

  /** The set a history of updates leaves, starting from the empty set. */
  ghost function After(updates: seq<Update>): set<int> {
    if updates == [] then {} else
      var s := After(updates[..|updates| - 1]);
      match updates[|updates| - 1]
      case Add(r) => s + r.Elements()
      case Remove(r) => s - r.Elements()
  }

  method Replay(updates: seq<Update>) returns (s: RangeSet)
    requires forall k :: 0 <= k < |updates| ==> updates[k].r.begin <= updates[k].r.end
    ensures fresh(s) && s.Valid() && s.Contents() == After(updates)
  {
    s := new RangeSet();
    for k := 0 to |updates|
      invariant fresh(s) && s.Valid() && s.Contents() == After(updates[..k])
    {
      assert updates[..k + 1][..k] == updates[..k];
      match updates[k]
      case Add(r) => s.AddRange(r);
      case Remove(r) => s.RemoveRange(r);
    }
    assert updates[..|updates|] == updates;
  }

  /** Histories that leave the same set leave the same vector of ranges. */
  method SameSetSameRanges(left: seq<Update>, right: seq<Update>) returns (a: seq<Range>, b: seq<Range>)
    requires forall k :: 0 <= k < |left| ==> left[k].r.begin <= left[k].r.end
    requires forall k :: 0 <= k < |right| ==> right[k].r.begin <= right[k].r.end
    ensures Canonical(a) && Elements(a) == After(left)
    ensures Canonical(b) && Elements(b) == After(right)
    ensures a == b <==> After(left) == After(right)
  {
    var s := Replay(left);
    var t := Replay(right);
    a, b := s.ranges, t.ranges;
    if Elements(a) == Elements(b) { SameElements(a, b); }
  }
}
