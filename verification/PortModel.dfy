/**
The port manager as values: its two segment maps, the queries on them, and each public call as a
function from state to state. The calls take any argument the C++ signature allows.
 */
module PortModel {
  import opened Words
  import opened OrderedMap
  import opened Segments

  datatype State = State(low: nat, high: nat, free: SegMap, alloc: SegMap)

  /** How a call ends: a range, a plain return, or one of the exceptions. */
  datatype Outcome =
    | Granted(lo: nat, hi: nat)
    | Released
    | Full
    | BadRange
    | BadPort
    | BugNoSegment
    | BugShortSegment
  {
    predicate Throws() {
      !Granted? && !Released?
    }
  }

  /** Every managed port is in a segment of one of the two maps, and of only one. */
  ghost predicate Valid(s: State) {
    && s.low < s.high < TWO_32
    && Segmented(s.free)
    && Segmented(s.alloc)
    && (forall p :: Covers(s.free, p) ==> s.low <= p < s.high && !Covers(s.alloc, p))
    && (forall p :: Covers(s.alloc, p) ==> s.low <= p < s.high)
    && (forall p :: s.low <= p < s.high ==> Covers(s.free, p) || Covers(s.alloc, p))
  }

  /** No free segment ends where another begins. */
  ghost predicate Coalesced(s: State) {
    NoneTouch(s.free)
  }

  ghost predicate NoneTouch(m: SegMap) {
    forall k :: k in m ==> m[k] !in m
  }

  function Init(low: nat, high: nat): State {
    State(low, high, map[low := high], map[])
  }

  // ----- queries

  function IsAllocated(alloc: SegMap, p: nat): bool {
    if alloc == map[] then false else
      var it := UpperBound(alloc, p);
      if it == Begin(alloc) then false else alloc[Prev(alloc, it)] > p
  }

  function IsAllocatedRange(alloc: SegMap, l: nat, h: nat): bool {
    if alloc == map[] then false else
      var it := UpperBound(alloc, l);
      if it == Begin(alloc) then
        it.key < h
      else
        alloc[Prev(alloc, it)] > l || (it.At? && it.key < h)
  }

  // ----- searching the free map

  /** The lowest free segment with room for `cnt` ports. */
  function FirstFit(free: SegMap, cnt: nat): (it: Iter)
    ensures it.End? ==> forall k :: k in free ==> free[k] < k + cnt
    ensures it.At? ==> it.key in free && it.key + cnt <= free[it.key]
    ensures it.At? ==> forall k :: k in free && k < it.key ==> free[k] < k + cnt
  {
    var fits := set k | k in free.Keys && k + cnt <= free[k];
    assert forall k :: k in free && k + cnt <= free[k] ==> k in fits;
    First(fits)
  }

  datatype Fit = Fits(key: nat) | NoLowerSegment | ShortSegment

  /** The search for a free segment around `[lo, hi)`, with both of its internal errors. */
  function FindFitRange(free: SegMap, lo: nat, hi: nat): (f: Fit)
    ensures f.Fits? ==> f.key in free
  {
    var it := UpperBound(free, lo);
    if it == Begin(free) then NoLowerSegment else
      var k := Prev(free, it);
      if free[k] < hi then ShortSegment else Fits(k)
  }

  // ----- calls

  /** The free map once the ports from `cut` up are taken off segment `k`. */
  function CutTop(free: SegMap, k: nat, cut: nat): SegMap {
    if cut > k then free[k := cut] else free - {k}
  }

  function TakeTop(s: State, k: nat, cut: nat): State
    requires k in s.free
  {
    s.(free := CutTop(s.free, k, cut), alloc := s.alloc[cut := s.free[k]])
  }

  function AllocateCount(s: State, cnt: nat): (State, Outcome) {
    match FirstFit(s.free, cnt)
    case End => (s, Full)
    case At(k) =>
      var e := s.free[k];
      var cut := e - cnt;
      (TakeTop(s, k, cut), Granted(cut, e))
  }

  /** The free map once `[lo, hi)` is cut out of segment `k`. */
  function Carve(free: SegMap, k: nat, lo: nat, hi: nat): SegMap
    requires k in free
  {
    var left := if k < lo then free[k := lo] else free - {k};
    if free[k] > hi then left[hi := free[k]] else left
  }

  function Grant(s: State, k: nat, lo: nat, hi: nat): State
    requires k in s.free
  {
    s.(free := Carve(s.free, k, lo, hi), alloc := s.alloc[lo := hi])
  }

  function AllocateRange(s: State, lo: nat, hi: nat): (State, Outcome) {
    if lo < s.low || hi > s.high then (s, BadRange)
    else if IsAllocatedRange(s.alloc, lo, hi) then (s, BadRange)
    else
      match FindFitRange(s.free, lo, hi)
      case NoLowerSegment => (s, BugNoSegment)
      case ShortSegment => (s, BugShortSegment)
      case Fits(k) =>
        (Grant(s, k, lo, hi), Granted(lo, hi))
  }

  /** Whether the segment just before position `at` ends at `p`. */
  predicate Merges(free: SegMap, at: Iter, p: nat)
    requires at.At? ==> at.key in free
  {
    at != Begin(free) && free[Prev(free, at)] == p
  }

  /** Adds `[p, e)`, extending the segment just before position `at` when that one ends at `p`. */
  function MergeLeft(free: SegMap, at: Iter, p: nat, e: nat): SegMap
    requires at.At? ==> at.key in free
  {
    if Merges(free, at, p) then free[Prev(free, at) := e] else free[p := e]
  }

  /**
  The free map once `[p, e)` is given back. After a merge with the right neighbour the code looks
  up the key it has just erased; with `relookup` it searches again from `p` instead.
   */
  function Release(free: SegMap, p: nat, e: nat, relookup: bool): SegMap {
    var it := UpperBound(free, p);
    if it.At? && it.key == e then
      var rest := free - {e};
      MergeLeft(rest, if relookup then UpperBound(rest, p) else Find(rest, e), p, free[e])
    else
      MergeLeft(free, it, p, e)
  }

  function DeallocateWith(s: State, p: nat, relookup: bool): (State, Outcome) {
    if p !in s.alloc then (s, BadPort) else
      (s.(free := Release(s.free, p, s.alloc[p], relookup), alloc := s.alloc - {p}), Released)
  }

  /** `deallocate` as written. */
  function Deallocate(s: State, p: nat): (State, Outcome) {
    DeallocateWith(s, p, false)
  }
}
