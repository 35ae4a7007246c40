/**
 * The attribute map of an element, keyed by `(name, namespace)`. It is
 * modelled in the insertion-ordered configuration of the crate (an
 * `IndexMap`): an association list without repeated keys, in which a new
 * key goes to the end, an existing key keeps its position, and removal moves
 * the last entry into the vacated slot (`IndexMap::remove`, a swap-remove).
 */
module Attributes {
  import opened Wrappers

  /** An attribute's key: its local name and its namespace, if any. */
  datatype AttrKey = AttrKey(name: string, ns: Option<string>)

  predicate DistinctKeys(a: seq<(AttrKey, string)>) {
    forall i, j :: 0 <= i < j < |a| ==> a[i].0 != a[j].0
  }

  /** An attribute map: entries in iteration order, no key twice. */
  type Attrs = a: seq<(AttrKey, string)> | DistinctKeys(a) witness []

  /** The position of key `k` in `a`, or `|a|` when it is absent. */
  function Find(a: seq<(AttrKey, string)>, k: AttrKey): (i: nat)
    ensures i <= |a|
    ensures i < |a| ==> a[i].0 == k
    ensures forall j :: 0 <= j < i ==> a[j].0 != k
  {
    if a == [] then 0
    else if a[0].0 == k then 0
    else 1 + Find(a[1..], k)
  }

  /** `AttrMap::get`: the value stored under `k`, if any. */
  function Get(a: Attrs, k: AttrKey): (r: Option<string>)
    ensures r.None? <==> forall i :: 0 <= i < |a| ==> a[i].0 != k
    ensures forall i :: 0 <= i < |a| && a[i].0 == k ==> r == Some(a[i].1)
  {
    var i := Find(a, k);
    if i < |a| then Some(a[i].1) else None
  }

  /**
   * `AttrMap::insert` on the map itself: `k` now maps to `v`, every other key
   * keeps its value, an existing key keeps its position and a new key is
   * appended.
   */
  function Set(a: Attrs, k: AttrKey, v: string): (r: Attrs)
    ensures Get(r, k) == Some(v)
    ensures forall k' :: k' != k ==> Get(r, k') == Get(a, k')
    ensures Get(a, k).None? ==> r == a + [(k, v)]
    ensures Get(a, k).Some? ==> |r| == |a| && forall i :: 0 <= i < |a| ==> r[i].0 == a[i].0
  {
    var i := Find(a, k);
    if i < |a| then
      var r := a[i := (k, v)];
      assert forall j :: 0 <= j < |a| ==> r[j].0 == a[j].0;
      r
    else
      var r := a + [(k, v)];
      assert forall j :: 0 <= j < |a| ==> r[j] == a[j];
      assert r[|a|] == (k, v);
      r
  }

  /**
   * `AttrMap::remove` on the map itself: `k` is gone, every other key keeps
   * its value, and nothing changes when `k` was absent. The last entry takes
   * the place of the removed one.
   */
  function Remove(a: Attrs, k: AttrKey): (r: Attrs)
    ensures Get(r, k).None?
    ensures forall k' :: k' != k ==> Get(r, k') == Get(a, k')
    ensures Get(a, k).None? ==> r == a
    ensures Get(a, k).Some? ==> |r| == |a| - 1
    ensures Get(a, k).Some? ==>
              forall j :: 0 <= j < |r| ==> r[j] == (if j == Find(a, k) then a[|a| - 1] else a[j])
  {
    var i := Find(a, k);
    if i == |a| then a
    else
      var last := |a| - 1;
      var r := if i == last then a[..last] else a[..last][i := a[last]];
      assert forall j :: 0 <= j < |r| ==> r[j] == (if j == i then a[last] else a[j]);
      SwapRemoveKeepsOthers(a, k, r);
      r
  }

  /** A swap-remove of `k` keeps the value of every other key. */
  lemma SwapRemoveKeepsOthers(a: Attrs, k: AttrKey, r: Attrs)
    requires Find(a, k) < |a| && |r| == |a| - 1
    requires forall j :: 0 <= j < |r| ==> r[j] == (if j == Find(a, k) then a[|a| - 1] else a[j])
    ensures forall k' :: k' != k ==> Get(r, k') == Get(a, k')
  {
    var i, last := Find(a, k), |a| - 1;
    forall k' | k' != k
      ensures Get(r, k') == Get(a, k')
    {
      var j := Find(a, k');
      if j < |a| {
        assert j != i;
        if j == last {
          assert r[i] == a[j];
        } else {
          assert r[j] == a[j];
        }
      }
    }
  }

  /** Removing a key just inserted undoes the insertion. */
  lemma RemoveUndoesSet(a: Attrs, k: AttrKey, v: string)
    requires Get(a, k).None?
    ensures Remove(Set(a, k, v), k) == a
  {
    var s := Set(a, k, v);
    assert Find(s, k) == |a|;
    assert s[..|a|] == a;
  }

  /** Storing the value a key already has changes nothing. */
  lemma SetStoredValue(a: Attrs, k: AttrKey)
    requires Get(a, k).Some?
    ensures Set(a, k, Get(a, k).value) == a
  {
    var i := Find(a, k);
    assert a[i := (k, a[i].1)] == a;
  }

  /** A construction triple `(name, ns, value)`. */
  type Triple = (string, Option<string>, string)

  function KeyOf(t: Triple): AttrKey {
    AttrKey(t.0, t.1)
  }

  /** The value of the last triple whose key is `k`: later duplicates win. */
  function LastValue(ts: seq<Triple>, k: AttrKey): Option<string> {
    if ts == [] then None
    else if KeyOf(ts[|ts| - 1]) == k then Some(ts[|ts| - 1].2)
    else LastValue(ts[..|ts| - 1], k)
  }

  /** Collecting triples into an attribute map, one insertion after another. */
  function FromTriples(ts: seq<Triple>): (r: Attrs)
    ensures forall k :: Get(r, k) == LastValue(ts, k)
  {
    if ts == [] then []
    else
      var t := ts[|ts| - 1];
      Set(FromTriples(ts[..|ts| - 1]), KeyOf(t), t.2)
  }

  /** Triples with pairwise different keys are collected in their own order. */
  lemma {:induction false} FromDistinctTriples(ts: seq<Triple>)
    requires forall i, j :: 0 <= i < j < |ts| ==> KeyOf(ts[i]) != KeyOf(ts[j])
    ensures |FromTriples(ts)| == |ts|
    ensures forall i :: 0 <= i < |ts| ==> FromTriples(ts)[i] == (KeyOf(ts[i]), ts[i].2)
  {
    if ts != [] {
      var init := ts[..|ts| - 1];
      var t := ts[|ts| - 1];
      FromDistinctTriples(init);
      var a := FromTriples(init);
      assert Get(a, KeyOf(t)).None? by {
        forall i | 0 <= i < |a|
          ensures a[i].0 != KeyOf(t)
        {
          assert a[i].0 == KeyOf(ts[i]);
        }
      }
    }
  }
}
