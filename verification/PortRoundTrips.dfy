/** Allocating a range and giving it back. */
module PortRoundTrips {
  import opened OrderedMap
  import opened Segments
  import opened PortModel
  import opened PortQueries
  import opened PortSteps
  import opened PortCoalescing
  import opened PortRuns

  /** From any valid state, allocating and giving back restores every port and the allocated map. */
  lemma {:induction false} PortsRestored(s: State, c: Call)
    requires Valid(s) && WellFormed(c) && Apply(s, c, false).1.Granted?
    ensures var (s', r) := Apply(s, c, false);
            var (s'', r') := Deallocate(s', r.lo);
            && r' == Released
            && Valid(s'')
            && s''.alloc == s.alloc
            && forall p :: Covers(s''.free, p) <==> Covers(s.free, p)
  {
    var (s', r) := Apply(s, c, false);
    ApplyValid(s, c, false);
    match c {
      case Count(cnt) => AllocateCountTakes(s, cnt);
      case Exact(lo, hi) => AllocateRangeTakes(s, lo, hi);
    }
    TakenNotAllocated(s, s', r.lo, r.hi);
    TakeThenGiveBack(s, s', r.lo, r.hi);
  }

  lemma {:induction false} TakeThenGiveBack(s: State, s': State, lo: nat, hi: nat)
    requires Valid(s) && Valid(s') && lo < hi && lo !in s.alloc && Takes(s, s', lo, hi)
    ensures var (s'', r') := Deallocate(s', lo);
            && r' == Released
            && Valid(s'')
            && s''.alloc == s.alloc
            && forall p :: Covers(s''.free, p) <==> Covers(s.free, p)
  {
    assert s'.alloc - {lo} == s.alloc;
    DeallocateGivesBack(s', lo, false);
  }

  // ----- exact restoration after allocate(cnt)

  /** The segment that `allocate(cnt)` cuts touches no other free segment in a way the return trip merges. */
  ghost predicate CutsCleanly(free: SegMap, k: nat, cnt: nat)
    requires k in free
  {
    free[k] !in free && (k + cnt == free[k] ==> !TouchedFromLeft(free, k))
  }

  lemma {:induction false} CutTopRestored(free: SegMap, k: nat, cut: nat)
    requires Segmented(free) && k in free && k < cut < free[k] && free[k] !in free
    ensures Release(CutTop(free, k, cut), cut, free[k], false) == free
  {
    var f: SegMap := free[k := cut];
    var it := UpperBound(f, cut);
    assert k in f && f[k] == cut && Before(k, it);
    assert it != Begin(f);
    assert Prev(f, it) == k;
    assert f[k := free[k]] == free;
  }

  lemma {:induction false} EraseRestored(free: SegMap, k: nat)
    requires Segmented(free) && k in free && free[k] !in free
    ensures Release(free - {k}, k, free[k], false) == free <==> !TouchedFromLeft(free, k)
  {
  }

  lemma {:induction false} RightTouchNotRestored(free: SegMap, k: nat, cut: nat)
    requires Segmented(free) && k in free && k <= cut < free[k] && free[k] in free
    ensures Release(CutTop(free, k, cut), cut, free[k], false) != free
  {
  }

  lemma {:induction false} RestoredIsRelease(s: State, k: nat, lo: nat, hi: nat, f: SegMap)
    requires Valid(s) && k in s.free && k <= lo < s.free[k]
    ensures Deallocate(s.(free := f, alloc := s.alloc[lo := hi]), lo).0 == s <==>
            Release(f, lo, hi, false) == s.free
  {
    assert Covers(s.free, lo);
    assert lo in s.alloc ==> Covers(s.alloc, lo);
    assert s.alloc[lo := hi] - {lo} == s.alloc;
  }

  lemma {:induction false} TopRestoredIff(s: State, k: nat, cut: nat)
    requires Valid(s) && k in s.free && k <= cut < s.free[k]
    ensures Deallocate(TakeTop(s, k, cut), cut).0 == s <==>
            s.free[k] !in s.free && (cut == k ==> !TouchedFromLeft(s.free, k))
  {
    RestoredIsRelease(s, k, cut, s.free[k], CutTop(s.free, k, cut));
    if s.free[k] in s.free {
      RightTouchNotRestored(s.free, k, cut);
    } else if cut > k {
      CutTopRestored(s.free, k, cut);
    } else {
      EraseRestored(s.free, k);
    }
  }

  /** Both maps come back exactly if and only if the fitting segment cuts cleanly. */
  lemma {:induction false} CountRestoredIff(s: State, cnt: nat)
    requires Valid(s) && cnt >= 1 && AllocateCount(s, cnt).1.Granted?
    ensures var (s', r) := AllocateCount(s, cnt);
            Deallocate(s', r.lo).0 == s <==> CutsCleanly(s.free, FirstFit(s.free, cnt).key, cnt)
  {
    var k := FirstFit(s.free, cnt).key;
    var cut: nat := s.free[k] - cnt;
    assert AllocateCount(s, cnt) == (TakeTop(s, k, cut), Granted(cut, s.free[k]));
    TopRestoredIff(s, k, cut);
  }

  /** From a coalesced state `allocate(cnt)` and `deallocate` cancel exactly, even as written. */
  lemma {:induction false} CoalescedCountRestored(s: State, cnt: nat)
    requires Valid(s) && Coalesced(s) && cnt >= 1 && AllocateCount(s, cnt).1.Granted?
    ensures var (s', r) := AllocateCount(s, cnt);
            Deallocate(s', r.lo).0 == s
  {
    CountRestoredIff(s, cnt);
  }

  // ----- exact restoration after allocate(lo, hi)

  lemma {:induction false} MergeFromEndRestored(free: SegMap, k: nat, lo: nat)
    requires Segmented(free) && k in free && k < lo < free[k]
    ensures MergeLeft(free[k := lo], End, lo, free[k]) == free <==> forall j :: j in free ==> j <= k
  {
    var f: SegMap := free[k := lo];
    Shrink(free, k, lo);
    assert lo !in free;
    assert k in f && f[k] == lo;
    EndFindsLeft(f, lo);
    if Merges(f, End, lo) {
      assert Prev(f, End) == k;
      assert f[k := free[k]] == free;
      assert forall j :: j in free ==> j in f;
    } else {
      assert lo in MergeLeft(f, End, lo, free[k]);
      var j :| j in f && j >= lo;
      assert j in free;
    }
  }

  lemma {:induction false} CarveMiddleRestored(free: SegMap, k: nat, lo: nat, hi: nat)
    requires Segmented(free) && k in free && k < lo < hi < free[k]
    ensures Release(Carve(free, k, lo, hi), lo, hi, false) == free <==> forall j :: j in free ==> j <= k
  {
    var f: SegMap := Carve(free, k, lo, hi);
    CarveDrops(free, k, lo, hi);
    assert Clear(f, lo, hi);
    RightMerge(f, lo, hi);
    var shrunk: SegMap := free[k := lo];
    assert hi !in free && f - {hi} == shrunk && f[hi] == free[k];
    MergeFromEndRestored(free, k, lo);
  }

  lemma {:induction false} CarveLeftRestored(free: SegMap, k: nat, hi: nat)
    requires Segmented(free) && k in free && k < hi < free[k]
    ensures Release(Carve(free, k, k, hi), k, hi, false) == free <==>
            !(TouchedFromLeft(free, k) && forall j :: j in free ==> j <= k)
  {
    var f: SegMap := Carve(free, k, k, hi);
    CarveDrops(free, k, k, hi);
    assert Clear(f, k, hi);
    RightMerge(f, k, hi);
    var rest: SegMap := free - {k};
    assert f - {hi} == rest && f[hi] == free[k];
    MergeErasedRestored(free, k);
  }

  lemma {:induction false} MergeErasedRestored(free: SegMap, k: nat)
    requires Segmented(free) && k in free
    ensures MergeLeft(free - {k}, End, k, free[k]) == free <==>
            !(TouchedFromLeft(free, k) && forall j :: j in free ==> j <= k)
  {
    var rest: SegMap := free - {k};
    Remove(free, k);
    EndFindsLeft(rest, k);
    ErasedNeighbours(free, k);
    if Merges(rest, End, k) {
      assert k !in MergeLeft(rest, End, k, free[k]);
    } else {
      assert rest[k := free[k]] == free;
    }
  }

  lemma {:induction false} ErasedNeighbours(free: SegMap, k: nat)
    requires Segmented(free) && k in free
    ensures TouchedFromLeft(free - {k}, k) <==> TouchedFromLeft(free, k)
    ensures (forall j :: j in free - {k} ==> j < k) <==> forall j :: j in free ==> j <= k
  {
    var rest: SegMap := free - {k};
    if l :| l in free && free[l] == k {
      assert l in rest && rest[l] == k;
    }
    if j :| j in free && k < j {
      assert j in rest;
    }
  }

  /**
  Whether the range `[lo, hi)` cut out of free segment `k` comes back as it was. With ports left on
  its right the release merges right and then looks from the end of the map; otherwise it looks from `lo`.
   */
  ghost predicate ComesBack(free: SegMap, k: nat, lo: nat, hi: nat)
    requires k in free
  {
    var noneBeyond := forall j :: j in free ==> j <= k;
    if hi < free[k] then
      if k < lo then noneBeyond else !(TouchedFromLeft(free, k) && noneBeyond)
    else
      free[k] !in free && (k == lo ==> !TouchedFromLeft(free, k))
  }

  /** From any valid state, an exact range and its release restore both maps exactly if and only if it comes back. */
  lemma {:induction false} RangeRestoredIff(s: State, lo: nat, hi: nat)
    requires Valid(s) && lo < hi && AllocateRange(s, lo, hi).1.Granted?
    ensures Deallocate(AllocateRange(s, lo, hi).0, lo).0 == s <==>
            ComesBack(s.free, FindFitRange(s.free, lo, hi).key, lo, hi)
  {
    var k := FindFitRange(s.free, lo, hi).key;
    RangeFitIsContainment(s.free, lo, hi);
    assert AllocateRange(s, lo, hi).0 == Grant(s, k, lo, hi);
    GrantRestoredIff(s, k, lo, hi);
  }

  lemma {:induction false} GrantRestoredIff(s: State, k: nat, lo: nat, hi: nat)
    requires Valid(s) && k in s.free && k <= lo < hi <= s.free[k]
    ensures Deallocate(Grant(s, k, lo, hi), lo).0 == s <==> ComesBack(s.free, k, lo, hi)
  {
    RestoredIsRelease(s, k, lo, hi, Carve(s.free, k, lo, hi));
    if hi == s.free[k] {
      assert Carve(s.free, k, lo, hi) == CutTop(s.free, k, lo);
      if hi in s.free {
        RightTouchNotRestored(s.free, k, lo);
      } else if k < lo {
        CutTopRestored(s.free, k, lo);
      } else {
        EraseRestored(s.free, k);
      }
    } else if k < lo {
      CarveMiddleRestored(s.free, k, lo, hi);
    } else {
      CarveLeftRestored(s.free, k, hi);
    }
  }

  /**
  From a coalesced state that is always, unless the range was cut out of the middle of a segment that
  has another free segment somewhere to its right.
   */
  lemma {:induction false} CoalescedRangeRestoredIff(s: State, lo: nat, hi: nat)
    requires Valid(s) && Coalesced(s) && lo < hi && AllocateRange(s, lo, hi).1.Granted?
    ensures var k := FindFitRange(s.free, lo, hi).key;
            Deallocate(AllocateRange(s, lo, hi).0, lo).0 == s <==>
            !(k < lo && hi < s.free[k] && exists j :: j in s.free && k < j)
  {
    RangeRestoredIff(s, lo, hi);
    var k := FindFitRange(s.free, lo, hi).key;
    assert !TouchedFromLeft(s.free, k) && s.free[k] !in s.free;
    assert (forall j :: j in s.free ==> j <= k) <==> !exists j :: j in s.free && k < j;
    RangeFitIsContainment(s.free, lo, hi);
  }
}
