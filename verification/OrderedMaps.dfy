/** `std::map` with integer keys: ordered lookup, and the interval maps the TCP code keeps in them. */
module OrderedMaps {
  import opened Words

  lemma MinExists(s: set<nat>)
    requires s != {}
    ensures exists k :: k in s && forall j :: j in s ==> k <= j
  {
    var x :| x in s;
    if s != {x} {
      MinExists(s - {x});
      var k :| k in s - {x} && forall j :: j in s - {x} ==> k <= j;
      var w := Min(k, x);
      forall j | j in s ensures w <= j { assert j == x || j in s - {x}; }
      assert w in s && forall j :: j in s ==> w <= j;
    } else {
      assert x in s && forall j :: j in s ==> x <= j;
    }
  }

  lemma MaxExists(s: set<nat>)
    requires s != {}
    ensures exists k :: k in s && forall j :: j in s ==> j <= k
  {
    var x :| x in s;
    if s != {x} {
      MaxExists(s - {x});
      var k :| k in s - {x} && forall j :: j in s - {x} ==> j <= k;
      var w := Max(k, x);
      forall j | j in s ensures j <= w { assert j == x || j in s - {x}; }
      assert w in s && forall j :: j in s ==> j <= w;
    } else {
      assert x in s && forall j :: j in s ==> j <= x;
    }
  }

  predicate IsCeil<V>(m: map<nat, V>, i: nat, k: nat) {
    k in m && i <= k && forall j :: j in m && i <= j ==> k <= j
  }

  predicate IsFloor<V>(m: map<nat, V>, i: nat, k: nat) {
    k in m && k <= i && forall j :: j in m && j <= i ==> j <= k
  }

  lemma CeilExists<V>(m: map<nat, V>, i: nat, k: nat)
    requires k in m && i <= k
    ensures exists c :: c in m && IsCeil(m, i, c)
  {
    var s := set j | j in m && i <= j;
    assert k in s;
    MinExists(s);
    var c :| c in s && forall j :: j in s ==> c <= j;
    assert forall j :: j in m && i <= j ==> j in s;
    assert IsCeil(m, i, c);
  }

  lemma FloorExists<V>(m: map<nat, V>, i: nat, k: nat)
    requires k in m && k <= i
    ensures exists c :: c in m && IsFloor(m, i, c)
  {
    var s := set j | j in m && j <= i;
    assert k in s;
    MaxExists(s);
    var c :| c in s && forall j :: j in s ==> j <= c;
    assert forall j :: j in m && j <= i ==> j in s;
    assert IsFloor(m, i, c);
  }

  /** `lower_bound`: the least key at or after `i`; with `i == 0` it is `begin`. */
  function CeilKey<V>(m: map<nat, V>, i: nat): (r: Option<nat>)
    ensures r.None? ==> forall k :: k in m ==> k < i
    ensures r.Some? ==> r.value in m && i <= r.value && forall k :: k in m && i <= k ==> r.value <= k
  {
    if k :| k in m && IsCeil(m, i, k) then Some(k)
    else
      assert forall k :: k in m ==> k < i by {
        forall k | k in m ensures k < i { if i <= k { CeilExists(m, i, k); } }
      }
      None
  }

  /** The entry before `upper_bound`: the greatest key at or before `i`. */
  function FloorKey<V>(m: map<nat, V>, i: nat): (r: Option<nat>)
    ensures r.None? ==> forall k :: k in m ==> i < k
    ensures r.Some? ==> r.value in m && r.value <= i && forall k :: k in m && k <= i ==> k <= r.value
  {
    if k :| k in m && IsFloor(m, i, k) then Some(k)
    else
      assert forall k :: k in m ==> i < k by {
        forall k | k in m ensures i < k { if k <= i { FloorExists(m, i, k); } }
      }
      None
  }

  /** `insert`: does nothing when the key is present. */
  function Insert<V>(m: map<nat, V>, k: nat, v: V): map<nat, V> {
    if k in m then m else m[k := v]
  }

  lemma RemoveShrinks<V>(m: map<nat, V>, k: nat)
    requires k in m
    ensures |m - {k}| < |m|
  {
    assert (m - {k}).Keys == m.Keys - {k};
  }

  /** Byte fragments keyed by the index of their first byte. */
  type Fragments = map<nat, seq<Byte>>

  ghost predicate Disjoint(m: Fragments) {
    && (forall k :: k in m ==> |m[k]| > 0)
    && (forall j, k :: j in m && k in m && j < k ==> j + |m[j]| <= k)
  }

  ghost predicate SubMap(m': Fragments, m: Fragments) {
    forall k :: k in m' ==> k in m && m'[k] == m[k]
  }

  ghost predicate Covers(m: Fragments, k: nat, i: nat) {
    k in m && k <= i < k + |m[k]|
  }

  ghost predicate Stored(m: Fragments, i: nat) {
    exists k :: Covers(m, k, i)
  }

  /** The number of bytes stored. */
  ghost function Total(m: Fragments): nat
    decreases |m|
  {
    match CeilKey(m, 0)
    case None => 0
    case Some(k) => RemoveShrinks(m, k); |m[k]| + Total(m - {k})
  }

  lemma {:induction false} TotalRemove(m: Fragments, k: nat)
    requires k in m
    ensures Total(m) == |m[k]| + Total(m - {k})
    decreases |m|
  {
    var first := CeilKey(m, 0).value;
    if k != first {
      RemoveShrinks(m, first);
      TotalRemove(m - {first}, k);
      assert m - {first} - {k} == m - {k} - {first};
      assert first in m - {k};
      assert CeilKey(m - {k}, 0) == Some(first);
    }
  }

  lemma TotalInsert(m: Fragments, k: nat, v: seq<Byte>)
    requires k !in m
    ensures Total(m[k := v]) == Total(m) + |v|
  {
    TotalRemove(m[k := v], k);
    assert m[k := v] - {k} == m;
  }

  /**
   * Disjoint fragments that start between `lo` and `hi` and are at most `longest` bytes long overhang `hi` by one
   * fragment at most.
   */
  lemma {:induction false} TotalBound(m: Fragments, lo: nat, hi: nat, longest: nat)
    requires Disjoint(m) && lo <= hi + longest
    requires forall k :: k in m ==> lo <= k <= hi && |m[k]| <= longest
    ensures Total(m) <= hi - lo + longest
    ensures lo <= hi && (forall k :: k in m ==> k + |m[k]| <= hi) ==> Total(m) <= hi - lo
    decreases |m|
  {
    match CeilKey(m, 0)
    case None =>
    case Some(k) =>
      RemoveShrinks(m, k);
      TotalBound(m - {k}, k + |m[k]|, hi, longest);
  }
}
