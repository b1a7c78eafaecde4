/** Properties of whole runs of the port manager, from construction through any sequence of calls. */
module PortRuns {
  import opened Words
  import opened OrderedMap
  import opened Segments
  import opened PortModel
  import opened PortQueries
  import opened PortSteps
  import opened PortCoalescing

  datatype Call = Count(cnt: nat) | Exact(lo: nat, hi: nat) | Free(p: nat)

  /** Counts of at least one and ranges of at least one port. */
  predicate WellFormed(c: Call) {
    match c
    case Count(cnt) => cnt >= 1
    case Exact(lo, hi) => lo < hi
    case Free(_) => true
  }

  function Apply(s: State, c: Call, relookup: bool): (r: (State, Outcome))
    ensures r.1.Throws() ==> r.0 == s
  {
    match c
    case Count(cnt) => AllocateCount(s, cnt)
    case Exact(lo, hi) => AllocateRange(s, lo, hi)
    case Free(p) => DeallocateWith(s, p, relookup)
  }

  function Run(s: State, cs: seq<Call>, relookup: bool): State
    decreases |cs|
  {
    if cs == [] then s else Run(Apply(s, cs[0], relookup).0, cs[1..], relookup)
  }

  // ----- each port has one owner

  datatype Owner = Owner(isFree: bool, key: nat)

  ghost predicate Owns(s: State, o: Owner, p: nat) {
    var m := if o.isFree then s.free else s.alloc;
    o.key in m && o.key <= p < m[o.key]
  }

  ghost predicate OwnedOnce(s: State, p: nat) {
    exists o :: Owns(s, o, p) && forall o' :: Owns(s, o', p) ==> o' == o
  }

  ghost predicate InBounds(m: SegMap, low: nat, high: nat) {
    forall k :: k in m ==> low <= k < m[k] <= high
  }

  /**
  Segments are non-empty and within `[low, high)`, and each port of it is in exactly one segment of
  exactly one map.
   */
  ghost predicate Partitions(s: State, low: nat, high: nat) {
    && InBounds(s.free, low, high)
    && InBounds(s.alloc, low, high)
    && forall p: nat :: low <= p < high ==> OwnedOnce(s, p)
  }

  lemma {:induction false} ValidOwnedOnce(s: State, p: nat)
    requires Valid(s) && s.low <= p < s.high
    ensures OwnedOnce(s, p)
  {
    var isFree := Covers(s.free, p);
    var m := if isFree then s.free else s.alloc;
    var k :| k in m && k <= p < m[k];
    var o := Owner(isFree, k);
    assert Owns(s, o, p);
    forall o' | Owns(s, o', p)
      ensures o' == o
    {
      assert Covers(if o'.isFree then s.free else s.alloc, p);
    }
  }

  lemma {:induction false} SameOwner(s: State, o: Owner, o': Owner, p: nat)
    requires OwnedOnce(s, p) && Owns(s, o, p) && Owns(s, o', p)
    ensures o == o'
  {
  }

  lemma {:induction false} PartitionsSegmented(s: State, isFree: bool)
    requires Partitions(s, s.low, s.high)
    ensures Segmented(if isFree then s.free else s.alloc)
  {
    var m := if isFree then s.free else s.alloc;
    forall j, k | j in m && k in m && j < k
      ensures m[j] <= k
    {
      if k < m[j] {
        SameOwner(s, Owner(isFree, j), Owner(isFree, k), k);
      }
    }
  }

  /** The invariant used in the proofs says precisely that every port has one owner. */
  lemma {:induction false} ValidIsPartition(s: State)
    ensures Valid(s) <==> s.low < s.high < TWO_32 && Partitions(s, s.low, s.high)
  {
    if Valid(s) {
      SegmentsInBounds(s);
      forall p: nat | s.low <= p < s.high
        ensures OwnedOnce(s, p)
      {
        ValidOwnedOnce(s, p);
      }
    }
    if s.low < s.high < TWO_32 && Partitions(s, s.low, s.high) {
      PartitionsSegmented(s, true);
      PartitionsSegmented(s, false);
      forall p
        ensures Covers(s.free, p) ==> s.low <= p < s.high && !Covers(s.alloc, p)
        ensures s.low <= p < s.high ==> Covers(s.free, p) || Covers(s.alloc, p)
      {
        if Covers(s.free, p) && Covers(s.alloc, p) {
          var j :| j in s.free && j <= p < s.free[j];
          var k :| k in s.alloc && k <= p < s.alloc[k];
          SameOwner(s, Owner(true, j), Owner(false, k), p);
        }
        if s.low <= p < s.high {
          assert OwnedOnce(s, p);
          var o :| Owns(s, o, p);
        }
      }
    }
  }

  // ----- safety of every run

  /** A new manager has the given bounds, and exactly the ports between them are free. */
  lemma {:induction false} InitIsFree(low: nat, high: nat)
    ensures var s := Init(low, high);
            && s.low == low && s.high == high && s.alloc == map[]
            && forall p :: Covers(s.free, p) <==> low <= p < high
  {
    var s := Init(low, high);
    assert low in s.free && s.free[low] == high;
  }

  lemma {:induction false} InitValid(low: nat, high: nat)
    requires high < TWO_32
    ensures Valid(Init(low, high)) <==> low < high
    ensures Coalesced(Init(low, high)) <==> low != high
  {
    InitIsFree(low, high);
    assert low in Init(low, high).free;
  }

  /** No call, well-formed or not, moves the bounds. */
  lemma {:induction false} RunKeepsBounds(s: State, cs: seq<Call>, relookup: bool)
    ensures Run(s, cs, relookup).low == s.low && Run(s, cs, relookup).high == s.high
    decreases |cs|
  {
    if cs != [] {
      RunKeepsBounds(Apply(s, cs[0], relookup).0, cs[1..], relookup);
    }
  }

  lemma {:induction false} ApplyValid(s: State, c: Call, relookup: bool)
    requires Valid(s) && WellFormed(c)
    ensures Valid(Apply(s, c, relookup).0)
  {
    match c
    case Count(cnt) => AllocateCountTakes(s, cnt);
    case Exact(lo, hi) => AllocateRangeTakes(s, lo, hi);
    case Free(p) => DeallocateGivesBack(s, p, relookup);
  }

  lemma {:induction false} RunValid(s: State, cs: seq<Call>, relookup: bool)
    requires Valid(s) && forall c :: c in cs ==> WellFormed(c)
    ensures Valid(Run(s, cs, relookup))
    decreases |cs|
  {
    if cs != [] {
      ApplyValid(s, cs[0], relookup);
      RunValid(Apply(s, cs[0], relookup).0, cs[1..], relookup);
    }
  }

  /** After any sequence of calls, thrown exceptions included, the two maps partition `[low, high)`. */
  lemma {:induction false} EveryRunPartitions(low: nat, high: nat, cs: seq<Call>, relookup: bool)
    requires low < high < TWO_32 && forall c :: c in cs ==> WellFormed(c)
    ensures var s := Run(Init(low, high), cs, relookup);
            s.low == low && s.high == high && Partitions(s, low, high)
  {
    InitValid(low, high);
    InitIsFree(low, high);
    RunValid(Init(low, high), cs, relookup);
    RunKeepsBounds(Init(low, high), cs, relookup);
    ValidIsPartition(Run(Init(low, high), cs, relookup));
  }

  /** Asking a new manager for no ports, or for an empty range, breaks the partition at once. */
  lemma {:induction false} DegenerateCallsBreak()
    ensures Valid(Init(1, 10))
    ensures !Valid(AllocateCount(Init(1, 10), 0).0) && !Valid(AllocateRange(Init(1, 10), 5, 5).0)
  {
    var s := Init(1, 10);
    InitValid(1, 10);
    AllocateCountKeepsValidIff(s, 0);
    AllocateRangeKeepsValidIff(s, 5, 5);
    assert 1 in s.free && s.free[1] == 10 && Covers(s.free, 5);
  }

  // ----- maximality along runs

  lemma {:induction false} ApplyCoalesced(s: State, c: Call, relookup: bool)
    requires Valid(s) && WellFormed(c) && Coalesced(s)
    ensures Coalesced(Apply(s, c, relookup).0) <==> relookup || !(c.Free? && LosesNeighbour(s, c.p))
  {
    match c
    case Count(cnt) => AllocateCountCoalesced(s, cnt);
    case Exact(lo, hi) => AllocateRangeCoalesced(s, lo, hi);
    case Free(p) =>
      RelookupCoalescedIff(s, p);
      if p in s.alloc {
        DeallocateCoalescedIff(s, p);
      }
  }

  ghost predicate AlwaysCoalesced(s: State, cs: seq<Call>, relookup: bool)
    decreases |cs|
  {
    Coalesced(s) && (cs != [] ==> AlwaysCoalesced(Apply(s, cs[0], relookup).0, cs[1..], relookup))
  }

  /** No call of the run gives back a range between two free neighbours with more free space beyond. */
  ghost predicate NeverLosesNeighbour(s: State, cs: seq<Call>)
    decreases |cs|
  {
    cs != [] ==>
      && !(cs[0].Free? && LosesNeighbour(s, cs[0].p))
      && NeverLosesNeighbour(Apply(s, cs[0], false).0, cs[1..])
  }

  /** With the intended lookup every state of every run has maximal free segments. */
  lemma {:induction false} RelookupRunsCoalesced(s: State, cs: seq<Call>)
    requires Valid(s) && Coalesced(s) && forall c :: c in cs ==> WellFormed(c)
    ensures AlwaysCoalesced(s, cs, true)
    decreases |cs|
  {
    if cs != [] {
      ApplyValid(s, cs[0], true);
      ApplyCoalesced(s, cs[0], true);
      RelookupRunsCoalesced(Apply(s, cs[0], true).0, cs[1..]);
    }
  }

  /** As written, exactly the runs that never lose a neighbour stay coalesced throughout. */
  lemma {:induction false} RunsCoalescedIff(s: State, cs: seq<Call>)
    requires Valid(s) && Coalesced(s) && forall c :: c in cs ==> WellFormed(c)
    ensures AlwaysCoalesced(s, cs, false) <==> NeverLosesNeighbour(s, cs)
    decreases |cs|
  {
    if cs != [] {
      var s' := Apply(s, cs[0], false).0;
      ApplyValid(s, cs[0], false);
      ApplyCoalesced(s, cs[0], false);
      if Coalesced(s') {
        RunsCoalescedIff(s', cs[1..]);
      }
    }
  }

  /**
  Once a neighbour is lost, the two ports around the seam are free and yet asking for them ends in
  the internal error that the comment on the search rules out.
   */
  lemma {:induction false} LostNeighbourReachesBug(s: State, p: nat)
    requires Valid(s) && LosesNeighbour(s, p)
    ensures p >= 1
    ensures AllocateRange(Deallocate(s, p).0, p - 1, p + 1).1 == BugShortSegment
  {
    var s' := Deallocate(s, p).0;
    SeamFree(s, p);
    SeamKept(s, p);
    AllocateRangeSucceedsIff(s', p - 1, p + 1);
  }

  lemma {:induction false} SeamFree(s: State, p: nat)
    requires Valid(s) && p in s.alloc && TouchedFromLeft(s.free, p)
    ensures p >= 1 && Valid(Deallocate(s, p).0)
    ensures forall q :: p - 1 <= q < p + 1 ==> Covers(Deallocate(s, p).0.free, q)
  {
    var l :| l in s.free && s.free[l] == p;
    assert Covers(s.free, p - 1);
    DeallocateGivesBack(s, p, false);
  }

  lemma {:induction false} SeamKept(s: State, p: nat)
    requires Valid(s) && LosesNeighbour(s, p)
    ensures p in Deallocate(s, p).0.free
  {
    var e := s.alloc[p];
    var rest := s.free - {e};
    ReleasedRangeClear(s, p);
    EraseRightLast(s.free, p, e);
    Remove(s.free, e);
    EndFindsLeft(rest, p);
    RightMerge(s.free, p, e);
  }

  lemma {:induction false} RightMerge(free: SegMap, p: nat, e: nat)
    requires p < e && Clear(free, p, e) && Segmented(free) && e in free
    ensures Release(free, p, e, false) == MergeLeft(free - {e}, End, p, free[e])
  {
  }

  /** A run of four calls from a fresh manager that ends in that error. */
  lemma {:induction false} BugIsReachable()
    ensures var s := Run(Init(1, 10), [Exact(3, 5), Exact(7, 8), Free(3)], false);
            AllocateRange(s, 2, 4).1 == BugShortSegment
  {
    InitValid(1, 10);
    ExampleMaps();
    ExactFrom(Init(1, 10), 1, 3, 5);
    ExactFrom(TWO_FREE, 5, 7, 8);
    SeamLoses();
    ThreeCalls(Init(1, 10), Exact(3, 5), Exact(7, 8), Free(3));
    LostNeighbourReachesBug(THREE_FREE, 3);
  }

  const TWO_FREE := State(1, 10, map[1 := 3, 5 := 10], map[3 := 5])

  const THREE_FREE := State(1, 10, map[1 := 3, 5 := 7, 8 := 10], map[3 := 5, 7 := 8])

  lemma {:induction false} ExampleMaps()
    ensures TWO_FREE == Grant(Init(1, 10), 1, 3, 5)
    ensures THREE_FREE == Grant(TWO_FREE, 5, 7, 8)
  {
  }

  lemma {:induction false} SeamLoses()
    ensures LosesNeighbour(THREE_FREE, 3)
  {
    assert 1 in THREE_FREE.free && THREE_FREE.free[1] == 3 && 8 in THREE_FREE.free && THREE_FREE.alloc[3] == 5;
  }

  lemma {:induction false} ThreeCalls(s: State, a: Call, b: Call, c: Call)
    ensures Run(s, [a, b, c], false) ==
            Apply(Apply(Apply(s, a, false).0, b, false).0, c, false).0
  {
    var cs := [a, b, c];
    assert cs[1..] == [b, c] && [b, c][1..] == [c] && [c][1..] == [];
    var s1 := Apply(s, a, false).0;
    var s2 := Apply(s1, b, false).0;
    assert Run(s2, [c], false) == Apply(s2, c, false).0;
    assert Run(s1, [b, c], false) == Run(s2, [c], false);
  }

  lemma {:induction false} ExactFrom(s: State, k: nat, lo: nat, hi: nat)
    requires Valid(s) && k in s.free && k <= lo < hi <= s.free[k]
    ensures AllocateRange(s, lo, hi) == (Grant(s, k, lo, hi), Granted(lo, hi)) && Valid(Grant(s, k, lo, hi))
  {
    assert forall p :: lo <= p < hi ==> Covers(s.free, p);
    CoveredRangeInOneSegment(s.free, lo, hi);
    AllocateRangeSucceedsIff(s, lo, hi);
    RangeFitIsContainment(s.free, lo, hi);
    AllocateRangeTakes(s, lo, hi);
  }

  // ----- when allocation by count fails

  /** `cnt` consecutive free ports starting at `lo`. */
  ghost predicate FreeBlock(free: SegMap, lo: nat, cnt: nat) {
    forall p :: lo <= p < lo + cnt ==> Covers(free, p)
  }

  /** In a coalesced state the call throws exactly when no `cnt` consecutive ports are free. */
  lemma {:induction false} FullIff(s: State, cnt: nat)
    requires Valid(s) && Coalesced(s) && cnt >= 1
    ensures AllocateCount(s, cnt).1 == Full <==> forall lo: nat :: !FreeBlock(s.free, lo, cnt)
  {
    if AllocateCount(s, cnt).1 == Full {
      forall lo: nat
        ensures !FreeBlock(s.free, lo, cnt)
      {
        if FreeBlock(s.free, lo, cnt) {
          NoInnerEdge(s.free, lo, lo + cnt);
          CoveredRangeInOneSegment(s.free, lo, lo + cnt);
        }
      }
    } else {
      var k := FirstFit(s.free, cnt).key;
      assert FreeBlock(s.free, k, cnt);
    }
  }

  // ----- conservation

  /** Free and allocated lengths always add up to the managed range. */
  lemma {:induction false} Conservation(s: State)
    requires Valid(s)
    ensures Total(s.free) + Total(s.alloc) == s.high - s.low
  {
    SegmentsInBounds(s);
    TotalCountsPorts(s.free, s.high);
    TotalCountsPorts(s.alloc, s.high);
    PortsAddUp(s);
  }

  lemma {:induction false} PortsAddUp(s: State)
    requires Valid(s)
    ensures |PortsBelow(s.free, s.high)| + |PortsBelow(s.alloc, s.high)| == s.high - s.low
  {
    var f, a := PortsBelow(s.free, s.high), PortsBelow(s.alloc, s.high);
    forall p
      ensures s.low <= p < s.high <==> p in f || p in a
      ensures !(p in f && p in a)
    {
    }
    IntervalSplit(f, a, s.low, s.high);
  }

  lemma {:induction false} IntervalSplit(f: set<nat>, a: set<nat>, lo: nat, hi: nat)
    requires lo <= hi && forall p :: lo <= p < hi <==> p in f || p in a
    requires forall p :: !(p in f && p in a)
    ensures |f| + |a| == hi - lo
  {
    assert f !! a;
    assert f + a == Range(lo, hi);
  }

  /** A grant moves exactly the length of the granted range, whichever call made it. */
  lemma {:induction false} GrantMoves(s: State, c: Call)
    requires Valid(s) && WellFormed(c)
    ensures var (s', r) := Apply(s, c, false);
            r.Granted? ==>
              && Total(s'.alloc) == Total(s.alloc) + r.hi - r.lo
              && Total(s'.free) == Total(s.free) - (r.hi - r.lo)
              && (c.Count? ==> r.hi - r.lo == c.cnt)
  {
    var (s', r) := Apply(s, c, false);
    if r.Granted? {
      ApplyValid(s, c, false);
      match c {
        case Count(cnt) => AllocateCountTakes(s, cnt);
        case Exact(lo, hi) => AllocateRangeTakes(s, lo, hi);
      }
      TakeMoves(s, s', r.lo, r.hi);
    }
  }

  lemma {:induction false} TakeMoves(s: State, s': State, lo: nat, hi: nat)
    requires Valid(s) && Valid(s') && lo < hi && Takes(s, s', lo, hi)
    ensures Total(s'.alloc) == Total(s.alloc) + hi - lo
    ensures Total(s'.free) == Total(s.free) - (hi - lo)
  {
    TakenNotAllocated(s, s', lo, hi);
    assert s'.alloc - {lo} == s.alloc;
    SegmentsInBounds(s);
    SegmentsInBounds(s');
    TotalCountsPorts(s.alloc, s.high);
    TotalCountsPorts(s'.alloc, s.high);
    CountOne(s'.alloc, lo, s.high);
    Conservation(s);
    Conservation(s');
  }

  lemma {:induction false} TakenNotAllocated(s: State, s': State, lo: nat, hi: nat)
    requires Valid(s) && lo < hi && Takes(s, s', lo, hi)
    ensures lo !in s.alloc
  {
    assert Covers(s.free, lo);
    assert lo in s.alloc ==> Covers(s.alloc, lo);
  }
}
