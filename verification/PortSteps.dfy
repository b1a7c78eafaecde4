/** What each call of the port manager does to the ports, for every valid state and every argument. */
module PortSteps {
  import opened OrderedMap
  import opened Segments
  import opened PortModel
  import opened PortQueries

  /** `s'` hands the free ports `[lo, hi)` to the allocated side, as one segment, and changes no other port. */
  ghost predicate Takes(s: State, s': State, lo: nat, hi: nat) {
    && s'.low == s.low && s'.high == s.high
    && (forall p :: lo <= p < hi ==> Covers(s.free, p))
    && Drops(s.free, s'.free, lo, hi)
    && Adds(s.alloc, s'.alloc, lo, hi)
    && s'.alloc == s.alloc[lo := hi]
  }

  /** `s'` hands the allocated ports `[lo, hi)` back to the free side and changes no other port. */
  ghost predicate GivesBack(s: State, s': State, lo: nat, hi: nat) {
    && s'.low == s.low && s'.high == s.high
    && (forall p :: lo <= p < hi ==> Covers(s.alloc, p))
    && Adds(s.free, s'.free, lo, hi)
    && Drops(s.alloc, s'.alloc, lo, hi)
    && s'.alloc == s.alloc - {lo}
  }

  lemma {:induction false} TakesKeepsValid(s: State, s': State, lo: nat, hi: nat)
    requires Valid(s) && Takes(s, s', lo, hi)
    requires Segmented(s'.free) && Segmented(s'.alloc)
    ensures Valid(s')
  {
    forall p
      ensures Covers(s'.alloc, p) ==> s.low <= p < s.high && !Covers(s'.free, p)
      ensures s.low <= p < s.high ==> Covers(s'.free, p) || Covers(s'.alloc, p)
    {
      assert lo <= p < hi ==> Covers(s.free, p);
    }
  }

  lemma {:induction false} GivesBackKeepsValid(s: State, s': State, lo: nat, hi: nat)
    requires Valid(s) && GivesBack(s, s', lo, hi)
    requires Segmented(s'.free) && Segmented(s'.alloc)
    ensures Valid(s')
  {
    forall p
      ensures Covers(s'.free, p) ==> s.low <= p < s.high && !Covers(s'.alloc, p)
      ensures s.low <= p < s.high ==> Covers(s'.free, p) || Covers(s'.alloc, p)
    {
      assert lo <= p < hi ==> Covers(s.alloc, p);
    }
  }

  // ----- allocate(cnt)

  lemma {:induction false} CutTopDrops(free: SegMap, k: nat, cut: nat)
    requires Segmented(free) && k in free && k <= cut < free[k]
    ensures Segmented(CutTop(free, k, cut)) && Drops(free, CutTop(free, k, cut), cut, free[k])
  {
    if cut > k {
      Shrink(free, k, cut);
    } else {
      Remove(free, k);
    }
  }

  lemma {:induction false} AllocateCountTakes(s: State, cnt: nat)
    requires Valid(s) && cnt >= 1
    ensures var (s', r) := AllocateCount(s, cnt);
            Valid(s') && (r.Granted? ==> r.hi == r.lo + cnt && Takes(s, s', r.lo, r.hi))
  {
    var (s', r) := AllocateCount(s, cnt);
    var fit := FirstFit(s.free, cnt);
    if fit.At? {
      var cut: nat := s.free[fit.key] - cnt;
      assert s' == TakeTop(s, fit.key, cut) && r == Granted(cut, s.free[fit.key]);
      TakeTopTakes(s, fit.key, cut);
      assert Valid(s');
      assert Takes(s, s', r.lo, r.hi);
    }
  }

  lemma {:induction false} TakeTopTakes(s: State, k: nat, cut: nat)
    requires Valid(s) && k in s.free && k <= cut < s.free[k]
    ensures Valid(TakeTop(s, k, cut)) && Takes(s, TakeTop(s, k, cut), cut, s.free[k])
  {
    CutTopDrops(s.free, k, cut);
    InsertAllocated(s, k, cut, s.free[k]);
    TakesKeepsValid(s, TakeTop(s, k, cut), cut, s.free[k]);
  }

  lemma {:induction false} InsertAllocated(s: State, k: nat, lo: nat, hi: nat)
    requires Valid(s) && k in s.free && k <= lo < hi <= s.free[k]
    ensures Segmented(s.alloc[lo := hi]) && Adds(s.alloc, s.alloc[lo := hi], lo, hi)
    ensures forall p :: lo <= p < hi ==> Covers(s.free, p)
  {
    ClearIsUncovered(s.alloc, lo, hi);
    Insert(s.alloc, lo, hi);
  }

  /** `[lo, hi)` is the top of a free segment below which every free segment is too short. */
  ghost predicate IsLowestFit(free: SegMap, cnt: nat, lo: nat, hi: nat) {
    exists k ::
      && k in free && k <= lo && free[k] == hi == lo + cnt
      && (forall j :: j in free && j < k ==> free[j] < j + cnt)
  }

  /** The granted range is the top of the lowest free segment that is long enough. */
  lemma {:induction false} AllocateCountIsFirstFit(s: State, cnt: nat)
    requires Valid(s)
    ensures var r := AllocateCount(s, cnt).1;
            && (r == Full <==> forall k :: k in s.free ==> s.free[k] < k + cnt)
            && (r != Full ==> r.Granted? && IsLowestFit(s.free, cnt, r.lo, r.hi))
  {
  }

  // ----- allocate(lo, hi)

  lemma {:induction false} CarveDrops(free: SegMap, k: nat, lo: nat, hi: nat)
    requires Segmented(free) && k in free && k <= lo < hi <= free[k]
    ensures Segmented(Carve(free, k, lo, hi)) && Drops(free, Carve(free, k, lo, hi), lo, hi)
  {
    var left := if k < lo then free[k := lo] else free - {k};
    if k < lo {
      Shrink(free, k, lo);
    } else {
      Remove(free, k);
    }
    assert forall p :: lo <= p < free[k] ==> Covers(free, p);
    if free[k] > hi {
      assert Clear(left, hi, free[k]);
      Insert(left, hi, free[k]);
    }
  }

  lemma {:induction false} AllocateRangeTakes(s: State, lo: nat, hi: nat)
    requires Valid(s) && lo < hi
    ensures var (s', r) := AllocateRange(s, lo, hi);
            Valid(s') && (r.Granted? ==> r == Granted(lo, hi) && Takes(s, s', lo, hi))
  {
    var (s', r) := AllocateRange(s, lo, hi);
    if r.Granted? {
      RangeFitIsContainment(s.free, lo, hi);
      var k := FindFitRange(s.free, lo, hi).key;
      CarveDrops(s.free, k, lo, hi);
      InsertAllocated(s, k, lo, hi);
      TakesKeepsValid(s, s', lo, hi);
    }
  }

  /**
  Exactly when an exact range is granted, in any valid state: it is in bounds, all of it is free,
  and no free segment begins strictly inside it. In bounds and free but with such an inner edge,
  the call ends in the internal error; the other internal error cannot happen.
   */
  lemma {:induction false} AllocateRangeSucceedsIff(s: State, lo: nat, hi: nat)
    requires Valid(s) && lo < hi
    ensures var r := AllocateRange(s, lo, hi).1;
            var allFree := forall p :: lo <= p < hi ==> Covers(s.free, p);
            var oneSegment := forall k :: k in s.free ==> !(lo < k < hi);
            && (r.Granted? <==> allFree && oneSegment)
            && (r == BugShortSegment <==> allFree && !oneSegment)
            && (r == BadRange <==> !allFree)
            && r != BugNoSegment
  {
    RangeQueryIsScan(s.alloc, lo, hi);
    RangeFitIsContainment(s.free, lo, hi);
    if forall p :: lo <= p < hi ==> Covers(s.free, p) {
      assert Covers(s.free, lo) && Covers(s.free, hi - 1);
      CoveredRangeInOneSegment(s.free, lo, hi);
    } else {
      var p :| lo <= p < hi && !Covers(s.free, p);
      assert s.low <= p < s.high ==> Covers(s.alloc, p);
    }
  }

  /** In a coalesced state the third condition is never needed. */
  lemma {:induction false} CoalescedRangeSucceedsIff(s: State, lo: nat, hi: nat)
    requires Valid(s) && Coalesced(s) && lo < hi
    ensures var r := AllocateRange(s, lo, hi).1;
            && (r.Granted? <==> s.low <= lo && hi <= s.high && forall p :: lo <= p < hi ==> Covers(s.free, p))
            && r != BugNoSegment && r != BugShortSegment
  {
    AllocateRangeSucceedsIff(s, lo, hi);
    if forall p :: lo <= p < hi ==> Covers(s.free, p) {
      assert Covers(s.free, lo) && Covers(s.free, hi - 1);
      NoInnerEdge(s.free, lo, hi);
    }
  }

  lemma {:induction false} NoInnerEdge(m: SegMap, lo: nat, hi: nat)
    requires Segmented(m) && NoneTouch(m)
    requires forall p :: lo <= p < hi ==> Covers(m, p)
    ensures forall k :: k in m ==> !(lo < k < hi)
  {
    forall k | k in m
      ensures !(lo < k < hi)
    {
      assert lo < k < hi ==> Covers(m, (k as int) - 1);
    }
  }

  // ----- deallocate

  lemma {:induction false} MergeLeftAdds(free: SegMap, at: Iter, p: nat, e: nat)
    requires Segmented(free) && p < e && Clear(free, p, e)
    requires at.At? ==> at.key in free
    ensures Segmented(MergeLeft(free, at, p, e)) && Adds(free, MergeLeft(free, at, p, e), p, e)
  {
    if Merges(free, at, p) {
      Grow(free, Prev(free, at), e);
    } else {
      Insert(free, p, e);
    }
  }

  lemma {:induction false} ReleaseAdds(free: SegMap, p: nat, e: nat, relookup: bool)
    requires Segmented(free) && p < e && Clear(free, p, e)
    ensures Segmented(Release(free, p, e, relookup)) && Adds(free, Release(free, p, e, relookup), p, e)
  {
    var it := UpperBound(free, p);
    if it.At? && it.key == e {
      Remove(free, e);
      var rest := free - {e};
      MergeLeftAdds(rest, if relookup then UpperBound(rest, p) else Find(rest, e), p, free[e]);
      assert forall q :: e <= q < free[e] ==> Covers(free, q);
    } else {
      MergeLeftAdds(free, it, p, e);
    }
  }

  /** The partition survives `deallocate`, with or without the stale lookup. */
  lemma {:induction false} DeallocateGivesBack(s: State, p: nat, relookup: bool)
    requires Valid(s)
    ensures var (s', r) := DeallocateWith(s, p, relookup);
            && Valid(s')
            && (r.Released? <==> p in s.alloc)
            && (r == BadPort <==> p !in s.alloc)
            && (r.Released? ==> GivesBack(s, s', p, s.alloc[p]))
  {
    if p in s.alloc {
      var e := s.alloc[p];
      assert forall q :: p <= q < e ==> Covers(s.alloc, q);
      ClearIsUncovered(s.free, p, e);
      ReleaseAdds(s.free, p, e, relookup);
      Remove(s.alloc, p);
      GivesBackKeepsValid(s, DeallocateWith(s, p, relookup).0, p, e);
    }
  }

  // ----- arguments that break the partition

  /** Asking for no ports breaks the partition whenever a free segment exists; nothing else does. */
  lemma {:induction false} AllocateCountKeepsValidIff(s: State, cnt: nat)
    requires Valid(s)
    ensures Valid(AllocateCount(s, cnt).0) <==> cnt >= 1 || s.free == map[]
  {
    if cnt >= 1 {
      AllocateCountTakes(s, cnt);
    } else {
      var (s', r) := AllocateCount(s, cnt);
      if r.Granted? {
        assert s'.alloc[r.lo] == r.hi == r.lo;
      }
    }
  }

  /** What makes the code grant a range that is empty or backwards. */
  ghost predicate GrantsDegenerate(s: State, lo: nat, hi: nat) {
    && hi <= lo
    && s.low <= lo && hi <= s.high
    && (Covers(s.free, lo) || (s.high <= lo && exists k :: k in s.free && hi <= s.free[k]))
  }

  /** Exactly the empty or backwards ranges that are granted break the partition. */
  lemma {:induction false} AllocateRangeKeepsValidIff(s: State, lo: nat, hi: nat)
    requires Valid(s)
    ensures Valid(AllocateRange(s, lo, hi).0) <==> !GrantsDegenerate(s, lo, hi)
  {
    var (s', r) := AllocateRange(s, lo, hi);
    if lo < hi {
      AllocateRangeTakes(s, lo, hi);
    } else {
      DegenerateGrantedIff(s, lo, hi);
      if r.Granted? {
        assert s'.alloc[lo] == hi;
      }
    }
  }

  /** How an empty or backwards range is turned down. */
  lemma {:induction false} DegenerateOutcomes(s: State, lo: nat, hi: nat)
    requires Valid(s) && hi <= lo
    ensures var (s', r) := AllocateRange(s, lo, hi);
            && (r == BadRange <==> lo < s.low || hi > s.high || Covers(s.alloc, lo))
            && (r == BugNoSegment <==> r != BadRange && forall k :: k in s.free ==> lo < k)
            && (r == BugShortSegment <==> r != BadRange && r != BugNoSegment && !GrantsDegenerate(s, lo, hi))
            && (r.Granted? ==> r == Granted(lo, hi) && s'.alloc == s.alloc[lo := hi])
  {
    RangeQueryIsScan(s.alloc, lo, hi);
    DegenerateGrantedIff(s, lo, hi);
  }

  lemma {:induction false} DegenerateGrantedIff(s: State, lo: nat, hi: nat)
    requires Valid(s) && hi <= lo
    ensures AllocateRange(s, lo, hi).1.Granted? <==> GrantsDegenerate(s, lo, hi)
  {
    RangeQueryIsScan(s.alloc, lo, hi);
    var it := UpperBound(s.free, lo);
    if it != Begin(s.free) {
      var k := Prev(s.free, it);
      assert k in s.free && k <= lo;
    }
    SegmentsInBounds(s);
  }

  lemma {:induction false} SegmentsInBounds(s: State)
    requires Valid(s)
    ensures forall k :: k in s.free ==> s.low <= k < s.free[k] <= s.high
    ensures forall k :: k in s.alloc ==> s.low <= k < s.alloc[k] <= s.high
  {
    forall k | k in s.free
      ensures s.low <= k < s.free[k] <= s.high
    {
      assert Covers(s.free, k) && Covers(s.free, s.free[k] - 1);
    }
    forall k | k in s.alloc
      ensures s.low <= k < s.alloc[k] <= s.high
    {
      assert Covers(s.alloc, k) && Covers(s.alloc, s.alloc[k] - 1);
    }
  }
}
