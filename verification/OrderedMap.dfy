/**
The part of `std::map` that the port manager uses: iterators in key order, `begin`, `find`,
`upper_bound` and `std::prev`. An iterator is the key it points at, or the end position.
 */
module OrderedMap {

  datatype Iter = End | At(key: nat)

  /** Whether key `k` comes before position `it`. */
  predicate Before(k: nat, it: Iter) {
    it.End? || k < it.key
  }

  lemma {:induction false} LeastExists(s: set<nat>, x: nat)
    requires x in s
    ensures exists m :: m in s && forall y :: y in s ==> m <= y
  {
    if y :| y in s && y < x {
      LeastExists(s, y);
    }
  }

  function Above(s: set<nat>, x: nat): set<nat> {
    set y | y in s && x < y
  }

  lemma {:induction false} GreatestExists(s: set<nat>, x: nat)
    requires x in s
    ensures exists m :: m in s && forall y :: y in s ==> y <= m
    decreases Above(s, x)
  {
    if y :| y in s && x < y {
      assert y in Above(s, x) && y !in Above(s, y);
      GreatestExists(s, y);
    }
  }

  function Least(s: set<nat>): (x: nat)
    requires s != {}
    ensures x in s && forall y :: y in s ==> x <= y
  {
    assert exists m :: m in s && forall y :: y in s ==> m <= y by {
      var any :| any in s;
      LeastExists(s, any);
    }
    var x :| x in s && forall y :: y in s ==> x <= y;
    x
  }

  function Greatest(s: set<nat>): (x: nat)
    requires s != {}
    ensures x in s && forall y :: y in s ==> y <= x
  {
    assert exists m :: m in s && forall y :: y in s ==> y <= m by {
      var any :| any in s;
      GreatestExists(s, any);
    }
    var x :| x in s && forall y :: y in s ==> y <= x;
    x
  }

  /** The position of the least key of `s`, or the end when `s` is empty. */
  function First(s: set<nat>): (it: Iter)
    ensures it.End? <==> s == {}
    ensures it.At? ==> it.key in s && forall y :: y in s ==> it.key <= y
  {
    if s == {} then End else At(Least(s))
  }

  function Begin(m: map<nat, nat>): (it: Iter)
    ensures it.End? <==> m.Keys == {}
    ensures it.At? ==> it.key in m && forall k :: k in m ==> it.key <= k
  {
    First(m.Keys)
  }

  function Find(m: map<nat, nat>, k: nat): (it: Iter)
    ensures it == (if k in m then At(k) else End)
  {
    if k in m.Keys then At(k) else End
  }

  /** The first position whose key is greater than `p`. */
  function UpperBound(m: map<nat, nat>, p: nat): (it: Iter)
    ensures it.End? ==> forall k :: k in m ==> k <= p
    ensures it.At? ==> it.key in m && p < it.key && forall k :: k in m ==> k <= p || it.key <= k
  {
    assert forall k :: k in m && p < k ==> k in Above(m.Keys, p);
    First(Above(m.Keys, p))
  }

  /** The position just before `it`. */
  function Prev(m: map<nat, nat>, it: Iter): (k: nat)
    requires it != Begin(m)
    requires it.At? ==> it.key in m
    ensures k in m && Before(k, it)
    ensures forall j :: j in m && Before(j, it) ==> j <= k
  {
    var earlier := set k | k in m.Keys && Before(k, it);
    assert earlier != {} by {
      assert Begin(m).At?;
      assert Begin(m).key in earlier;
    }
    assert forall j :: j in m && Before(j, it) ==> j in earlier;
    Greatest(earlier)
  }

  /** The keys from position `it` on, which an iteration still has to visit. */
  ghost function Ahead(m: map<nat, nat>, it: Iter): set<nat> {
    set k | k in m.Keys && !Before(k, it)
  }

  lemma {:induction false} NextVisits(m: map<nat, nat>, k: nat)
    requires k in m
    ensures Ahead(m, UpperBound(m, k)) < Ahead(m, At(k))
    ensures forall j :: j in m && Before(j, UpperBound(m, k)) ==> j == k || Before(j, At(k))
  {
    assert k in Ahead(m, At(k)) && k !in Ahead(m, UpperBound(m, k));
  }
}
