/**
 * Identifier-keyed dictionaries, as the agendas keep them: `d[x.id] = x`
 * written once per item of a list, in list order.
 */
module Keyed {

  /** The keys of the items of `xs`. */
  function KeySet<T>(xs: seq<T>, key: T -> int): set<int> {
    set i | 0 <= i < |xs| :: key(xs[i])
  }

  /** No two items of `xs` share a key. */
  predicate DistinctKeys<T>(xs: seq<T>, key: T -> int) {
    forall i, j :: 0 <= i < j < |xs| ==> key(xs[i]) != key(xs[j])
  }

  /** Item `i` is the last item of `xs` with its key. */
  predicate IsLastWithKey<T>(xs: seq<T>, key: T -> int, i: int) {
    0 <= i < |xs| && forall j :: i < j < |xs| ==> key(xs[j]) != key(xs[i])
  }

  /** The index of the last item of `xs` with the same key as item `i`. */
  ghost function LastWithKey<T>(xs: seq<T>, key: T -> int, i: int): (r: int)
    requires 0 <= i < |xs|
    ensures i <= r && IsLastWithKey(xs, key, r) && key(xs[r]) == key(xs[i])
    decreases |xs| - i
  {
    if forall j :: i < j < |xs| ==> key(xs[j]) != key(xs[i]) then i
    else
      var j :| i < j < |xs| && key(xs[j]) == key(xs[i]);
      LastWithKey(xs, key, j)
  }

  /** Every stored value sits under its own key. */
  predicate KeysMatch<T>(m: map<int, T>, key: T -> int) {
    forall k :: k in m ==> key(m[k]) == k
  }

  /**
   * `for x in xs: m[key(x)] = x`. The keys written are added, keys not
   * written keep their value, and for a key written several times the last
   * item with that key is what is stored.
   */
  function PutAll<T>(m: map<int, T>, xs: seq<T>, key: T -> int): (r: map<int, T>)
    ensures r.Keys == m.Keys + KeySet(xs, key)
    ensures forall k :: k in m && k !in KeySet(xs, key) ==> r[k] == m[k]
    ensures forall i :: IsLastWithKey(xs, key, i) ==> r[key(xs[i])] == xs[i]
    decreases |xs|
  {
    if xs == [] then m
    else
      var r := PutAll(m[key(xs[0]) := xs[0]], xs[1..], key);
      KeySetCons(xs, key);
      forall i | IsLastWithKey(xs, key, i) ensures r[key(xs[i])] == xs[i] {
        if i > 0 {
          assert IsLastWithKey(xs[1..], key, i - 1);
        }
      }
      r
  }

  /** Writing items whose keys are their own ids keeps every entry under its own id. */
  lemma {:induction false} PutAllKeysMatch<T>(m: map<int, T>, xs: seq<T>, key: T -> int)
    requires KeysMatch(m, key)
    ensures KeysMatch(PutAll(m, xs, key), key)
    decreases |xs|
  {
    if xs != [] {
      PutAllKeysMatch(m[key(xs[0]) := xs[0]], xs[1..], key);
    }
  }

  /** The number of keys of a list never exceeds its length, and equals it exactly when keys are distinct. */
  lemma {:induction false} KeySetSize<T>(xs: seq<T>, key: T -> int)
    ensures |KeySet(xs, key)| <= |xs|
    ensures |KeySet(xs, key)| == |xs| <==> DistinctKeys(xs, key)
    decreases |xs|
  {
    if xs != [] {
      var tail := xs[1..];
      KeySetSize(tail, key);
      KeySetCons(xs, key);
      if key(xs[0]) in KeySet(tail, key) {
        var j :| 0 <= j < |tail| && key(tail[j]) == key(xs[0]);
        assert key(xs[0]) == key(xs[j + 1]);
        assert !DistinctKeys(xs, key);
      } else {
        assert DistinctKeys(xs, key) <==> DistinctKeys(tail, key) by {
          if DistinctKeys(tail, key) {
            forall i, j | 0 <= i < j < |xs| ensures key(xs[i]) != key(xs[j]) {
              if i == 0 { assert key(xs[j]) == key(tail[j - 1]); }
              else { assert key(xs[i]) == key(tail[i - 1]) && key(xs[j]) == key(tail[j - 1]); }
            }
          }
          if DistinctKeys(xs, key) {
            forall i, j | 0 <= i < j < |tail| ensures key(tail[i]) != key(tail[j]) {
              assert key(tail[i]) == key(xs[i + 1]) && key(tail[j]) == key(xs[j + 1]);
            }
          }
        }
      }
    }
  }

  /**
   * The dictionary grows by the number of written keys it did not hold; for
   * distinct keys none of which it held, by exactly the length of the list.
   */
  lemma PutAllSize<T>(m: map<int, T>, xs: seq<T>, key: T -> int)
    ensures |PutAll(m, xs, key)| == |m| + |KeySet(xs, key) - m.Keys|
    ensures DistinctKeys(xs, key) && KeySet(xs, key) !! m.Keys ==> |PutAll(m, xs, key)| == |m| + |xs|
  {
    MapSize(PutAll(m, xs, key), m, KeySet(xs, key));
    if DistinctKeys(xs, key) && KeySet(xs, key) !! m.Keys {
      KeySetSize(xs, key);
      assert KeySet(xs, key) - m.Keys == KeySet(xs, key);
    }
  }

  /** A map whose keys are those of `m` plus `s` has `|s - m.Keys|` more entries. */
  lemma MapSize<T>(r: map<int, T>, m: map<int, T>, s: set<int>)
    requires r.Keys == m.Keys + s
    ensures |r| == |m| + |s - m.Keys|
  {
    var added := s - m.Keys;
    assert r.Keys == m.Keys + added;
    assert m.Keys !! added;
    assert |r.Keys| == |m.Keys| + |added|;
  }

  lemma KeySetCons<T>(xs: seq<T>, key: T -> int)
    requires xs != []
    ensures KeySet(xs, key) == {key(xs[0])} + KeySet(xs[1..], key)
  {
    forall k | k in KeySet(xs, key) ensures k in {key(xs[0])} + KeySet(xs[1..], key) {
      var i :| 0 <= i < |xs| && key(xs[i]) == k;
      if i > 0 { assert key(xs[1..][i - 1]) == k; }
    }
    forall k | k in KeySet(xs[1..], key) ensures k in KeySet(xs, key) {
      var i :| 0 <= i < |xs[1..]| && key(xs[1..][i]) == k;
      assert key(xs[i + 1]) == k;
    }
  }

  lemma KeySetSnoc<T>(xs: seq<T>, x: T, key: T -> int)
    ensures KeySet(xs + [x], key) == KeySet(xs, key) + {key(x)}
  {
    var ys := xs + [x];
    forall k | k in KeySet(ys, key) ensures k in KeySet(xs, key) + {key(x)} {
      var i :| 0 <= i < |ys| && key(ys[i]) == k;
      if i < |xs| { assert key(xs[i]) == k; }
    }
    forall k | k in KeySet(xs, key) ensures k in KeySet(ys, key) {
      var i :| 0 <= i < |xs| && key(xs[i]) == k;
      assert key(ys[i]) == k;
    }
    assert key(ys[|xs|]) == key(x);
  }

  /**
   * Index of the first item whose key the dictionary already holds, or
   * `|xs|` when there is none: the item on which a check loop over `xs`
   * that raises on a stored key stops.
   */
  function FirstPresent<T>(m: map<int, T>, xs: seq<T>, key: T -> int): (r: nat)
    ensures r <= |xs|
    ensures forall k :: 0 <= k < r ==> key(xs[k]) !in m
    ensures r < |xs| ==> key(xs[r]) in m
    decreases |xs|
  {
    if xs == [] || key(xs[0]) in m then 0
    else 1 + FirstPresent(m, xs[1..], key)
  }

  /** The dictionary holds `x`'s key under a value other than `x`. */
  predicate Conflicts<T(==)>(m: map<int, T>, x: T, key: T -> int) {
    key(x) in m && m[key(x)] != x
  }

  /** Index of the first item whose key is stored under a different value, or `|xs|`. */
  function FirstConflict<T(==)>(m: map<int, T>, xs: seq<T>, key: T -> int): (r: nat)
    ensures r <= |xs|
    ensures forall k :: 0 <= k < r ==> !Conflicts(m, xs[k], key)
    ensures r < |xs| ==> Conflicts(m, xs[r], key)
    decreases |xs|
  {
    if xs == [] || Conflicts(m, xs[0], key) then 0
    else 1 + FirstConflict(m, xs[1..], key)
  }

  /**
   * `[x for x in xs if key(x) not in m]`, built by appending in order: the
   * items a batch would add because the dictionary lacks their key.
   */
  function Absent<T(==)>(m: map<int, T>, xs: seq<T>, key: T -> int): (r: seq<T>)
    ensures |r| <= |xs|
    ensures forall k :: 0 <= k < |r| ==> key(r[k]) !in m
    ensures KeySet(r, key) == KeySet(xs, key) - m.Keys
    ensures forall k :: 0 <= k < |r| ==> r[k] in xs
    ensures forall i :: 0 <= i < |xs| && key(xs[i]) !in m ==> xs[i] in r
    decreases |xs|
  {
    if xs == [] then []
    else
      var init := xs[..|xs| - 1];
      var x := xs[|xs| - 1];
      var r0 := Absent(m, init, key);
      assert xs == init + [x];
      KeySetSnoc(init, x, key);
      if key(x) in m then
        r0
      else
        KeySetSnoc(r0, x, key);
        r0 + [x]
  }

  /**
   * The last item of `xs` with a given missing key is also the last item
   * with that key in `Absent(m, xs, key)`, so it is the one `PutAll` stores.
   */
  lemma {:induction false} AbsentKeepsLast<T>(m: map<int, T>, xs: seq<T>, key: T -> int, i: int)
    requires IsLastWithKey(xs, key, i) && key(xs[i]) !in m
    ensures exists t :: IsLastWithKey(Absent(m, xs, key), key, t) && Absent(m, xs, key)[t] == xs[i]
    decreases |xs|
  {
    var init := xs[..|xs| - 1];
    var x := xs[|xs| - 1];
    var r0 := Absent(m, init, key);
    var r := Absent(m, xs, key);
    assert r == if key(x) in m then r0 else r0 + [x];
    if i == |xs| - 1 {
      assert IsLastWithKey(r, key, |r| - 1);
    } else {
      assert IsLastWithKey(init, key, i);
      AbsentKeepsLast(m, init, key, i);
      var t :| IsLastWithKey(r0, key, t) && r0[t] == xs[i];
      assert key(x) != key(xs[i]);
      if key(x) !in m {
        forall j | t < j < |r| ensures key(r[j]) != key(r[t]) {
          if j < |r0| {
            assert r[j] == r0[j];
          } else {
            assert r[j] == x;
          }
        }
      }
      assert IsLastWithKey(r, key, t) && r[t] == xs[i];
    }
  }

  /**
   * Writing only the items whose key is missing adds exactly the missing
   * keys of `xs`: the dictionary grows by that many entries.
   */
  lemma PutAbsentSize<T>(m: map<int, T>, xs: seq<T>, key: T -> int)
    ensures PutAll(m, Absent(m, xs, key), key).Keys == m.Keys + KeySet(xs, key)
    ensures |PutAll(m, Absent(m, xs, key), key)| == |m| + |KeySet(xs, key) - m.Keys|
  {
    var added := Absent(m, xs, key);
    var r := PutAll(m, added, key);
    UnionOfMissing(r.Keys, m.Keys, KeySet(added, key), KeySet(xs, key));
    MapSize(r, m, KeySet(xs, key));
  }

  lemma UnionOfMissing(keys: set<int>, held: set<int>, added: set<int>, written: set<int>)
    requires keys == held + added && added == written - held
    ensures keys == held + written
  {
  }
}
