/**
Maps from the left edge of a half-open port segment to its right edge, the form of both
`free_map_` and `allocated_`, and the ports such a map stands for.
 */
module Segments {

  type SegMap = map<nat, nat>

  /** Segments are non-empty and do not overlap. */
  ghost predicate Segmented(m: SegMap) {
    && (forall k :: k in m ==> k < m[k])
    && (forall j, k :: j in m && k in m && j < k ==> m[j] <= k)
  }

  /** Whether port `p` lies in some segment: the port-by-port scan of the map. */
  ghost predicate Covers(m: SegMap, p: int) {
    exists k :: k in m && k <= p < m[k]
  }

  /** Whether `[lo, hi)` stays clear of every segment. */
  ghost predicate Clear(m: SegMap, lo: nat, hi: nat) {
    forall k :: k in m ==> m[k] <= lo || hi <= k
  }

  /** `m'` covers what `m` covers and `[lo, hi)` besides. */
  ghost predicate Adds(m: SegMap, m': SegMap, lo: nat, hi: nat) {
    forall p :: Covers(m', p) <==> Covers(m, p) || lo <= p < hi
  }

  /** `m'` covers what `m` covers outside `[lo, hi)`. */
  ghost predicate Drops(m: SegMap, m': SegMap, lo: nat, hi: nat) {
    forall p :: Covers(m', p) <==> Covers(m, p) && !(lo <= p < hi)
  }

  lemma {:induction false} ClearIsUncovered(m: SegMap, lo: nat, hi: nat)
    requires Segmented(m) && lo < hi
    ensures Clear(m, lo, hi) <==> forall p :: lo <= p < hi ==> !Covers(m, p)
  {
    if k :| k in m && !(m[k] <= lo || hi <= k) {
      var p := if k < lo then lo else k;
      assert lo <= p < hi && Covers(m, p);
    }
  }

  /** Adding a segment clear of the others. */
  lemma {:induction false} Insert(m: SegMap, k: nat, e: nat)
    requires Segmented(m) && k < e && Clear(m, k, e)
    ensures k !in m
    ensures Segmented(m[k := e]) && Adds(m, m[k := e], k, e)
  {
    var m' := m[k := e];
    forall p
      ensures Covers(m', p) <==> Covers(m, p) || k <= p < e
    {
      if j :| j in m && j <= p < m[j] {
        assert j in m' && m'[j] == m[j];
      }
      if k <= p < e {
        assert k in m' && m'[k] == e;
      }
    }
  }

  /** Erasing a segment. */
  lemma {:induction false} Remove(m: SegMap, k: nat)
    requires Segmented(m) && k in m
    ensures Segmented(m - {k}) && Clear(m - {k}, k, m[k])
    ensures Drops(m, m - {k}, k, m[k])
  {
    var m' := m - {k};
    forall p
      ensures Covers(m', p) <==> Covers(m, p) && !(k <= p < m[k])
    {
      if j :| j in m && j <= p < m[j] {
        assert j != k ==> j in m' && m'[j] == m[j];
      }
    }
  }

  /** Moving the right edge of segment `k` to `e`. */
  lemma {:induction false} Grow(m: SegMap, k: nat, e: nat)
    requires Segmented(m) && k in m && m[k] < e && Clear(m, m[k], e)
    ensures Segmented(m[k := e]) && Adds(m, m[k := e], m[k], e)
  {
    Remove(m, k);
    assert m[k := e] == (m - {k})[k := e];
    Insert(m - {k}, k, e);
  }

  lemma {:induction false} Shrink(m: SegMap, k: nat, e: nat)
    requires Segmented(m) && k in m && k < e <= m[k]
    ensures Segmented(m[k := e]) && Drops(m, m[k := e], e, m[k])
    ensures Clear(m[k := e], e, m[k])
  {
    Remove(m, k);
    assert m[k := e] == (m - {k})[k := e];
    Insert(m - {k}, k, e);
    assert forall p :: k <= p < m[k] ==> Covers(m, p);
  }

  // ----- counting

  /** The ports of `[lo, hi)`. */
  function Range(lo: nat, hi: nat): (r: set<nat>)
    ensures forall p :: p in r <==> lo <= p < hi
    ensures |r| == if lo <= hi then hi - lo else 0
    decreases hi
  {
    if lo < hi then Range(lo, hi - 1) + {hi - 1} else {}
  }

  /** The covered ports below `bound`. */
  ghost function PortsBelow(m: SegMap, bound: nat): set<nat> {
    set p | p in Range(0, bound) && Covers(m, p)
  }

  /** Sum of the segment lengths. */
  ghost function Total(m: SegMap): int
    decreases m.Keys
  {
    if m.Keys == {} then 0 else
      var k :| k in m.Keys;
      m[k] - k + Total(m - {k})
  }

  lemma {:induction false} CountOne(m: SegMap, k: nat, bound: nat)
    requires Segmented(m) && k in m && m[k] <= bound
    ensures |PortsBelow(m, bound)| == |PortsBelow(m - {k}, bound)| + m[k] - k
    ensures Segmented(m - {k})
  {
    Remove(m, k);
    var whole, rest, part := PortsBelow(m, bound), PortsBelow(m - {k}, bound), Range(k, m[k]);
    forall p
      ensures p in whole <==> p in rest || p in part
      ensures !(p in rest && p in part)
    {
      assert k <= p < m[k] ==> Covers(m, p);
    }
    assert whole == rest + part && rest !! part;
  }

  /** The summed lengths count the covered ports. */
  lemma {:induction false} TotalCountsPorts(m: SegMap, bound: nat)
    requires Segmented(m)
    requires forall k :: k in m ==> m[k] <= bound
    ensures Total(m) == |PortsBelow(m, bound)|
    decreases m.Keys
  {
    if m.Keys == {} {
      assert PortsBelow(m, bound) == {};
    } else {
      var k :| k in m.Keys && Total(m) == m[k] - k + Total(m - {k});
      TotalCountsPorts(m - {k}, bound);
      CountOne(m, k, bound);
    }
  }
}
