/** When free segments stay maximal: the exact effect of the stale lookup in `deallocate`. */
module PortCoalescing {
  import opened OrderedMap
  import opened Segments
  import opened PortModel
  import opened PortSteps

  /** A free segment ends at `p`. */
  ghost predicate TouchedFromLeft(free: SegMap, p: nat) {
    exists l :: l in free && free[l] == p
  }

  // ----- what maximality means for ports

  /** Coalesced says that the ports on both sides of every free segment are not free. */
  lemma {:induction false} CoalescedIsMaximal(s: State)
    requires Valid(s)
    ensures Coalesced(s) <==>
            forall k :: k in s.free ==> !Covers(s.free, s.free[k]) && !Covers(s.free, (k as int) - 1)
  {
    var m := s.free;
    if Coalesced(s) {
      forall k | k in m
        ensures !Covers(m, m[k]) && !Covers(m, (k as int) - 1)
      {
        assert forall j :: j in m && j <= m[k] < m[j] ==> j == m[k];
      }
    } else {
      var k :| k in m && m[k] in m;
      assert Covers(m, m[k]);
    }
  }

  // ----- merging

  lemma {:induction false} MergeLeftTouches(free: SegMap, at: Iter, p: nat, e: nat)
    requires Segmented(free) && p < e && Clear(free, p, e)
    requires at.At? ==> at.key in free
    ensures NoneTouch(MergeLeft(free, at, p, e)) <==>
            NoneTouch(free) && e !in free && (Merges(free, at, p) || !TouchedFromLeft(free, p))
  {
    var free' := MergeLeft(free, at, p, e);
    assert p !in free;
    if Merges(free, at, p) {
      var l := Prev(free, at);
      assert free' == free[l := e];
      if NoneTouch(free') {
        forall k | k in free
          ensures free[k] !in free
        {
          assert k != l ==> free'[k] == free[k];
        }
        assert free'[l] == e;
      }
    } else {
      assert free' == free[p := e];
      if NoneTouch(free') {
        forall k | k in free
          ensures free[k] !in free && free[k] != p
        {
          assert free'[k] == free[k];
        }
        assert free'[p] == e;
      }
    }
  }

  /** Searching from `p` finds the touching neighbour whenever there is one. */
  lemma {:induction false} UpperBoundFindsLeft(free: SegMap, p: nat)
    requires Segmented(free) && p !in free
    ensures Merges(free, UpperBound(free, p), p) <==> TouchedFromLeft(free, p)
  {
  }

  /** Searching from the end finds it only when nothing free lies further right. */
  lemma {:induction false} EndFindsLeft(free: SegMap, p: nat)
    requires Segmented(free) && p !in free
    ensures Merges(free, End, p) <==> TouchedFromLeft(free, p) && forall k :: k in free ==> k < p
  {
  }

  /** A right merge after which a touching left neighbour is missed. */
  ghost predicate LosesNeighbour(s: State, p: nat) {
    && p in s.alloc
    && s.alloc[p] in s.free
    && TouchedFromLeft(s.free, p)
    && exists k :: k in s.free && s.alloc[p] < k
  }

  lemma {:induction false} ReleaseTouches(free: SegMap, p: nat, e: nat, relookup: bool)
    requires Segmented(free) && p < e && Clear(free, p, e)
    ensures NoneTouch(Release(free, p, e, relookup)) <==>
            && NoneTouch(free)
            && (relookup || !(e in free && TouchedFromLeft(free, p) && exists k :: k in free && e < k))
  {
    var it := UpperBound(free, p);
    if it.At? && it.key == e {
      var rest := free - {e};
      var at := if relookup then UpperBound(rest, p) else Find(rest, e);
      Remove(free, e);
      MergeLeftTouches(rest, at, p, free[e]);
      UpperBoundFindsLeft(rest, p);
      EndFindsLeft(rest, p);
      EraseRightTouches(free, p, e);
      EraseRightLast(free, p, e);
    } else {
      assert e !in free;
      MergeLeftTouches(free, it, p, e);
      UpperBoundFindsLeft(free, p);
    }
  }

  lemma {:induction false} EraseRightTouches(free: SegMap, p: nat, e: nat)
    requires Segmented(free) && p < e && Clear(free, p, e) && e in free
    ensures NoneTouch(free) <==> NoneTouch(free - {e}) && free[e] !in free - {e}
    ensures TouchedFromLeft(free - {e}, p) <==> TouchedFromLeft(free, p)
  {
    var rest := free - {e};
    if NoneTouch(rest) && free[e] !in rest {
      forall k | k in free
        ensures free[k] !in free
      {
        assert k != e ==> k in rest && rest[k] == free[k];
      }
    }
    if l :| l in free && free[l] == p {
      assert l in rest && rest[l] == p;
    }
  }

  lemma {:induction false} EraseRightLast(free: SegMap, p: nat, e: nat)
    requires Segmented(free) && p < e && Clear(free, p, e) && e in free
    ensures (forall k :: k in free - {e} ==> k < p) <==> !exists k :: k in free && e < k
  {
    if k :| k in free && e < k {
      assert k in free - {e};
    }
  }

  /**
  Giving a range back leaves the free segments maximal exactly when they were and the stale lookup
  loses no neighbour. In particular `deallocate` never repairs a state that is not coalesced.
   */
  lemma {:induction false} DeallocateCoalescedIff(s: State, p: nat)
    requires Valid(s) && p in s.alloc
    ensures Coalesced(Deallocate(s, p).0) <==> Coalesced(s) && !LosesNeighbour(s, p)
  {
    ReleasedRangeClear(s, p);
    ReleaseTouches(s.free, p, s.alloc[p], false);
  }

  /** With the search repeated from `p`, maximality is always kept. */
  lemma {:induction false} RelookupCoalescedIff(s: State, p: nat)
    requires Valid(s)
    ensures Coalesced(DeallocateWith(s, p, true).0) <==> Coalesced(s)
  {
    if p in s.alloc {
      ReleasedRangeClear(s, p);
      ReleaseTouches(s.free, p, s.alloc[p], true);
    }
  }

  lemma {:induction false} ReleasedRangeClear(s: State, p: nat)
    requires Valid(s) && p in s.alloc
    ensures Clear(s.free, p, s.alloc[p])
  {
    assert forall q :: p <= q < s.alloc[p] ==> Covers(s.alloc, q);
    ClearIsUncovered(s.free, p, s.alloc[p]);
  }

  // ----- allocating

  lemma {:induction false} AllocateCountCoalesced(s: State, cnt: nat)
    requires Valid(s) && Coalesced(s) && cnt >= 1
    ensures Coalesced(AllocateCount(s, cnt).0)
  {
  }

  lemma {:induction false} AllocateRangeCoalesced(s: State, lo: nat, hi: nat)
    requires Valid(s) && Coalesced(s) && lo < hi
    ensures Coalesced(AllocateRange(s, lo, hi).0)
  {
  }

  // ----- how many segments

  lemma {:induction false} InjectionBound(a: set<nat>, b: set<nat>, f: map<nat, nat>)
    requires forall x :: x in a ==> x in f && f[x] in b
    requires forall x, y :: x in a && y in a && f[x] == f[y] ==> x == y
    ensures |a| <= |b|
    decreases a
  {
    if x :| x in a {
      InjectionBound(a - {x}, b - {f[x]}, f);
    }
  }

  /** The segment after a free one in a coalesced state is allocated and starts where it ends. */
  lemma {:induction false} NextIsAllocated(s: State, k: nat)
    requires Valid(s) && Coalesced(s) && k in s.free && s.free[k] < s.high
    ensures s.free[k] in s.alloc
  {
    var e := s.free[k];
    SegmentsInBounds(s);
    CoalescedIsMaximal(s);
    assert Covers(s.alloc, e);
    var j :| j in s.alloc && j <= e < s.alloc[j];
    assert Covers(s.free, e - 1);
    assert forall q :: j <= q < s.alloc[j] ==> Covers(s.alloc, q);
  }

  /** A coalesced state has at most one free segment more than it has allocated ones. */
  lemma {:induction false} FewFreeSegments(s: State)
    requires Valid(s) && Coalesced(s)
    ensures |s.free| <= |s.alloc| + 1
  {
    SegmentsInBounds(s);
    OneReachesTheTop(s.free, s.high);
    InnerAreAllocated(s, Inner(s.free, s.high));
  }

  ghost function Inner(m: SegMap, high: nat): set<nat> {
    set k | k in m.Keys && m[k] < high
  }

  lemma {:induction false} OneReachesTheTop(m: SegMap, high: nat)
    requires Segmented(m) && forall k :: k in m ==> m[k] <= high
    ensures |m| <= |Inner(m, high)| + 1
  {
    if last :| last in m.Keys && m[last] == high {
      assert m.Keys == Inner(m, high) + {last};
    } else {
      assert m.Keys == Inner(m, high);
    }
  }

  lemma {:induction false} InnerAreAllocated(s: State, inner: set<nat>)
    requires Valid(s) && Coalesced(s)
    requires forall k :: k in inner ==> k in s.free && s.free[k] < s.high
    ensures |inner| <= |s.alloc|
  {
    forall k | k in inner
      ensures k in s.free && s.free[k] in s.alloc.Keys
    {
      NextIsAllocated(s, k);
    }
    InjectionBound(inner, s.alloc.Keys, s.free);
  }
}
