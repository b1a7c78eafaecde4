/**
The port manager as the object it is: two segment maps updated in place, with 32-bit arithmetic that
could wrap around. Each method is proved to do what the value-level call does.
 */
module PortManager {
  import opened Words
  import opened OrderedMap
  import opened Segments
  import opened PortModel
  import opened PortQueries
  import opened PortSteps

  lemma {:induction false} IsFirstFit(free: SegMap, cnt: nat, k: nat)
    requires k in free && k + cnt <= free[k]
    requires forall j :: j in free && j < k ==> free[j] < j + cnt
    ensures FirstFit(free, cnt) == At(k)
  {
  }

  /** What the search result means for the call; in particular the sentinel is never a fit. */
  lemma {:induction false} CountOutcome(s: State, cnt: nat)
    requires Valid(s)
    ensures match FirstFit(s.free, cnt)
            case End => PortModel.AllocateCount(s, cnt) == (s, Full)
            case At(k) =>
              var e := s.free[k];
              && k < e < TWO_32 && k + cnt <= e
              && PortModel.AllocateCount(s, cnt) == (TakeTop(s, k, e - cnt), Granted(e - cnt, e))
              && (cnt >= 1 ==> Valid(TakeTop(s, k, e - cnt)))
  {
    SegmentsInBounds(s);
    var fit := FirstFit(s.free, cnt);
    if fit.At? && cnt >= 1 {
      TakeTopTakes(s, fit.key, s.free[fit.key] - cnt);
    }
  }

  /** On a fit none of the three 32-bit operations wraps around. */
  lemma {:induction false} CutPoint(k: Uint32, e: Uint32, cnt: Uint32)
    requires k + cnt <= e
    ensures Sub32(Sub32(e, k), cnt) == e - k - cnt
    ensures Add32(k, Sub32(Sub32(e, k), cnt)) == e - cnt
  {
  }

  lemma {:induction false} SubExact(e: Uint32, k: Uint32)
    requires k <= e
    ensures Sub32(e, k) == e - k
  {
  }

  class Manager {
    const low: Uint32
    const high: Uint32
    var freeMap: SegMap
    var allocatedMap: SegMap

    ghost function Value(): State
      reads this
    {
      State(low, high, freeMap, allocatedMap)
    }

    /** Manages `[low, high)`, all of it free. */
    constructor (low: Uint32, high: Uint32)
      ensures Value() == Init(low, high)
      ensures this.low == low && this.high == high && allocatedMap == map[]
      ensures forall p :: Covers(freeMap, p) <==> low <= p < high
    {
      this.low := low;
      this.high := high;
      freeMap := map[low := high];
      allocatedMap := map[];
      new;
      assert low in freeMap && freeMap[low] == high;
    }

    /** Without arguments that is `[1, 65535)`. */
    constructor Default()
      ensures Value() == Init(1, 65535)
      ensures this.low == 1 && this.high == 65535 && allocatedMap == map[]
      ensures forall p :: Covers(freeMap, p) <==> 1 <= p < 65535
    {
      this.low := 1;
      this.high := 65535;
      freeMap := map[1 := 65535];
      allocatedMap := map[];
      new;
      assert 1 in freeMap && freeMap[1] == 65535;
    }

    /** The iterator loop over the free map; `(0, 0)` stands for no fit. */
    method FindFit(cnt: Uint32) returns (fit: (Uint32, Uint32))
      requires Valid(Value())
      ensures match FirstFit(freeMap, cnt)
              case End => fit == (0, 0)
              case At(k) => fit == (k, freeMap[k])
    {
      SegmentsInBounds(Value());
      var i := Begin(freeMap);
      while i != End
        invariant i.At? ==> i.key in freeMap
        invariant forall k :: k in freeMap && Before(k, i) ==> freeMap[k] < k + cnt
        decreases Ahead(freeMap, i)
      {
        var k: Uint32, e: Uint32 := i.key, freeMap[i.key];
        SubExact(e, k);
        if cnt <= Sub32(e, k) {
          IsFirstFit(freeMap, cnt, k);
          return (k, e);
        }
        NextVisits(freeMap, k);
        i := UpperBound(freeMap, k);
      }
      return (0, 0);
    }

    method AllocateCount(cnt: Uint32) returns (r: Outcome)
      requires Valid(Value())
      modifies this`freeMap, this`allocatedMap
      ensures (Value(), r) == PortModel.AllocateCount(old(Value()), cnt)
      ensures cnt >= 1 ==> Valid(Value())
    {
      ghost var s := Value();
      var index := FindFit(cnt);
      CountOutcome(s, cnt);
      if index == (0, 0) {
        return Full;
      }
      var left := TakeOff(index.0, index.1, cnt);
      r := Granted(left, index.1);
    }

    /** Moves the top `cnt` ports of free segment `[first, second)` to the allocated map. */
    method TakeOff(first: Uint32, second: Uint32, cnt: Uint32) returns (left: Uint32)
      requires first in freeMap && freeMap[first] == second && first + cnt <= second
      modifies this`freeMap, this`allocatedMap
      ensures left == second - cnt && Value() == TakeTop(old(Value()), first, left)
    {
      CutPoint(first, second, cnt);
      var available := Sub32(second, first);
      var remain := Sub32(available, cnt);
      left := Add32(first, remain);
      if remain >= 1 {
        freeMap := freeMap[first := left];
      } else {
        freeMap := freeMap - {first};
      }
      allocatedMap := allocatedMap[left := second];
    }

    method AllocateRange(lo: Uint32, hi: Uint32) returns (r: Outcome)
      requires Valid(Value())
      modifies this`freeMap, this`allocatedMap
      ensures (Value(), r) == PortModel.AllocateRange(old(Value()), lo, hi)
      ensures lo < hi ==> Valid(Value())
    {
      AllocateRangeKeepsValidIff(Value(), lo, hi);
      if lo < low || hi > high {
        return BadRange;
      }
      if IsAllocatedRange(allocatedMap, lo, hi) {
        return BadRange;
      }
      var fit := FindFitRange(freeMap, lo, hi);
      if fit.NoLowerSegment? {
        return BugNoSegment;
      }
      if fit.ShortSegment? {
        return BugShortSegment;
      }
      var first, second := fit.key, freeMap[fit.key];
      if first < lo {
        freeMap := freeMap[first := lo];
      } else {
        freeMap := freeMap - {first};
      }
      if second > hi {
        freeMap := freeMap[hi := second];
      }
      allocatedMap := allocatedMap[lo := hi];
      r := Granted(lo, hi);
    }

    method Deallocate(p: Uint32) returns (r: Outcome)
      requires Valid(Value())
      modifies this`freeMap, this`allocatedMap
      ensures (Value(), r) == PortModel.Deallocate(old(Value()), p)
      ensures Valid(Value())
    {
      ghost var s := Value();
      if p !in allocatedMap {
        return BadPort;
      }
      var freeIndex := UpperBound(freeMap, p);
      if freeIndex != End {
        var value := freeIndex.key;
        if value == allocatedMap[p] {
          allocatedMap := allocatedMap[p := freeMap[value]];
          freeMap := freeMap - {value};
          freeIndex := Find(freeMap, value);
        }
      }
      assert Release(s.free, p, s.alloc[p], false) == MergeLeft(freeMap, freeIndex, p, allocatedMap[p]);
      assert allocatedMap - {p} == s.alloc - {p};
      if freeIndex != Begin(freeMap) {
        var left := Prev(freeMap, freeIndex);
        if freeMap[left] == p {
          freeMap := freeMap[left := allocatedMap[p]];
        } else {
          freeMap := freeMap[p := allocatedMap[p]];
        }
      } else {
        freeMap := freeMap[p := allocatedMap[p]];
      }
      allocatedMap := allocatedMap - {p};
      r := Released;
      DeallocateGivesBack(s, p, false);
    }

    /** Whether a port is in use, from at most one map entry. */
    method IsPortAllocated(p: Uint32) returns (used: bool)
      requires Valid(Value())
      ensures used <==> Covers(allocatedMap, p)
    {
      SingleQueryIsScan(allocatedMap, p);
      used := IsAllocated(allocatedMap, p);
    }

    /** Whether any port of a non-empty range is in use, from at most two map entries. */
    method IsRangeAllocated(l: Uint32, h: Uint32) returns (used: bool)
      requires Valid(Value())
      ensures used <==> Covers(allocatedMap, l) || exists p :: l <= p < h && Covers(allocatedMap, p)
    {
      RangeQueryIsScan(allocatedMap, l, h);
      used := IsAllocatedRange(allocatedMap, l, h);
    }
  }
}
