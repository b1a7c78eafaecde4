/** The logarithmic queries of the port manager agree with a scan over every port. */
module PortQueries {
  import opened OrderedMap
  import opened Segments
  import opened PortModel

  lemma {:induction false} SingleQueryIsScan(alloc: SegMap, p: nat)
    requires Segmented(alloc)
    ensures IsAllocated(alloc, p) <==> Covers(alloc, p)
  {
  }

  /** Both ends of the range matter even when it is empty: then the query is about port `l` alone. */
  lemma {:induction false} RangeQueryIsScan(alloc: SegMap, l: nat, h: nat)
    requires Segmented(alloc)
    ensures IsAllocatedRange(alloc, l, h) <==>
            Covers(alloc, l) || exists p :: l <= p < h && Covers(alloc, p)
  {
    if alloc != map[] {
      var it := UpperBound(alloc, l);
      if it.At? && it.key < h {
        assert Covers(alloc, it.key);
      }
      if it != Begin(alloc) {
        var k := Prev(alloc, it);
        assert k in alloc && k <= l;
      }
    }
  }

  /** The search by range finds exactly the free segment that contains the range. */
  lemma {:induction false} RangeFitIsContainment(free: SegMap, lo: nat, hi: nat)
    requires Segmented(free) && lo < hi
    ensures forall k: nat :: FindFitRange(free, lo, hi) == Fits(k) <==> k in free && k <= lo && hi <= free[k]
    ensures FindFitRange(free, lo, hi).NoLowerSegment? ==> !Covers(free, lo)
  {
  }

  /** A range of covered ports lies in one segment unless another segment begins inside it. */
  lemma {:induction false} CoveredRangeInOneSegment(m: SegMap, lo: nat, hi: nat)
    requires Segmented(m) && lo < hi
    requires forall p :: lo <= p < hi ==> Covers(m, p)
    ensures (exists k :: k in m && k <= lo && hi <= m[k]) <==> forall k :: k in m ==> !(lo < k < hi)
  {
    assert Covers(m, lo);
    var k :| k in m && k <= lo < m[k];
    if m[k] < hi {
      assert Covers(m, m[k]);
      var j :| j in m && j <= m[k] < m[j];
      assert j == m[k];
    }
  }
}
