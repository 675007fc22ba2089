/**
 The `defaultdict(list)` grouping idiom the source uses twice: rows are
 appended to the list of their key, and the groups are then read back in
 the dictionary's insertion order, which is the order in which each key
 first appeared.
 */
module Grouping {
  import opened Base

  /** Distinct keys in order of first appearance: the order of `d.keys()`. */
  function KeyOrder<K(==,!new)>(keys: seq<K>): (r: seq<K>)
    ensures Distinct(r)
    ensures forall k :: k in r <==> k in keys
  {
    if keys == [] then []
    else
      var r := KeyOrder(keys[..|keys| - 1]);
      var k := keys[|keys| - 1];
      assert forall j :: j in keys <==> j in keys[..|keys| - 1] || j == k;
      if k in r then r else r + [k]
  }

  /** The position where `k` first occurs in `keys`. */
  function FirstIndex<K(==)>(keys: seq<K>, k: K): (i: nat)
    requires k in keys
    ensures i < |keys| && keys[i] == k
    ensures forall j :: 0 <= j < i ==> keys[j] != k
  {
    if keys[0] == k then 0 else 1 + FirstIndex(keys[1..], k)
  }

  /** Appending a key does not move where an earlier key first occurs. */
  lemma FirstIndexSnoc<K>(keys: seq<K>, k: K, x: K)
    requires x in keys
    ensures FirstIndex(keys + [k], x) == FirstIndex(keys, x)
  {
    var a, b := FirstIndex(keys, x), FirstIndex(keys + [k], x);
    assert (keys + [k])[a] == x;
    assert b <= a;
    assert keys[b] == x;
  }

  /**
   `KeyOrder` lists the keys in order of first appearance: of any two keys
   it lists, the earlier one first occurs earlier in the input.
   */
  /** A key seen for the first time at the end is first found there. */
  lemma FirstIndexNew<K>(keys: seq<K>, k: K)
    requires k !in keys
    ensures FirstIndex(keys + [k], k) == |keys|
  {
    assert (keys + [k])[|keys|] == k;
  }

  lemma {:induction false} KeyOrderFirstAppearance<K(!new)>(keys: seq<K>)
    ensures forall i, j :: 0 <= i < j < |KeyOrder(keys)| ==>
              FirstIndex(keys, KeyOrder(keys)[i]) < FirstIndex(keys, KeyOrder(keys)[j])
  {
    if keys != [] {
      var init := keys[..|keys| - 1];
      var k := keys[|keys| - 1];
      var r' := KeyOrder(init);
      assert keys == init + [k];
      KeyOrderFirstAppearance(init);
      assert forall i, j :: 0 <= i < j < |r'| ==> FirstIndex(init, r'[i]) < FirstIndex(init, r'[j]);
      forall x | x in r' ensures FirstIndex(keys, x) == FirstIndex(init, x) {
        FirstIndexSnoc(init, k, x);
      }
      var r := KeyOrder(keys);
      assert r == if k in r' then r' else r' + [k];
      forall i, j | 0 <= i < j < |r| ensures FirstIndex(keys, r[i]) < FirstIndex(keys, r[j]) {
        assert r[i] == r'[i] && r[i] in r';
        if j == |r'| {
          assert r[j] == k;
          FirstIndexNew(init, k);
        } else {
          assert j < |r'|;
          assert r[j] == r'[j] && r[j] in r';
          assert FirstIndex(init, r'[i]) < FirstIndex(init, r'[j]);
        }
      }
    }
  }

  /** The group of key `k`: the rows with that key, in input order (`d[k]`). */
  function Members<V(!new), K(==,!new)>(xs: seq<V>, key: V -> K, k: K): seq<V>
  {
    Filter(x => key(x) == k, xs)
  }

  /** The keys of the rows, one per row. */
  function Keys<V, K>(xs: seq<V>, key: V -> K): seq<K>
  {
    Map(key, xs)
  }

  /**
   The loop `for x in xs: d[key(x)].append(x)`, returning the dictionary
   and its insertion order. Every key that occurs has exactly one group,
   holding its rows in input order.
   */
  method GroupBy<V(!new), K(==,!new)>(xs: seq<V>, key: V -> K) returns (order: seq<K>, groups: map<K, seq<V>>)
    ensures order == KeyOrder(Keys(xs, key))
    ensures Distinct(order)
    ensures forall k :: k in groups <==> k in order
    ensures forall k :: k in groups ==> groups[k] == Members(xs, key, k)
  {
    order := [];
    groups := map[];
    for i := 0 to |xs|
      invariant order == KeyOrder(Keys(xs[..i], key))
      invariant forall k :: k in groups <==> k in order
      invariant forall k :: k in groups ==> groups[k] == Members(xs[..i], key, k)
    {
      GroupByStep(xs, key, i, order, groups);
      var k := key(xs[i]);
      if k in groups {
        groups := groups[k := groups[k] + [xs[i]]];
      } else {
        order := order + [k];
        groups := groups[k := [xs[i]]];
      }
    }
    assert xs[..|xs|] == xs;
  }

  /** One turn of the loop in `GroupBy` keeps its invariants. */
  lemma GroupByStep<V(!new), K(!new)>(xs: seq<V>, key: V -> K, i: nat, order: seq<K>, groups: map<K, seq<V>>)
    requires i < |xs|
    requires order == KeyOrder(Keys(xs[..i], key))
    requires forall k :: k in groups <==> k in order
    requires forall k :: k in groups ==> groups[k] == Members(xs[..i], key, k)
    ensures
      var k := key(xs[i]);
      var order' := if k in groups then order else order + [k];
      var groups' := groups[k := (if k in groups then groups[k] else []) + [xs[i]]];
      && order' == KeyOrder(Keys(xs[..i + 1], key))
      && (forall j :: j in groups' <==> j in order')
      && (forall j :: j in groups' ==> groups'[j] == Members(xs[..i + 1], key, j))
  {
    var k := key(xs[i]);
    assert xs[..i + 1] == xs[..i] + [xs[i]];
    assert Keys(xs[..i + 1], key) == Keys(xs[..i], key) + [k];
    assert Keys(xs[..i + 1], key)[..i] == Keys(xs[..i], key);
    forall j | j in groups || j == k
      ensures Members(xs[..i + 1], key, j) == Members(xs[..i], key, j) + (if k == j then [xs[i]] else [])
    {
      MembersSnoc(xs[..i], xs[i], key, j);
    }
    if k !in groups {
      MembersAbsent(xs[..i], key, k);
    }
  }

  /** Appending one row extends its own group and leaves every other group alone. */
  lemma MembersSnoc<V(!new), K(!new)>(ys: seq<V>, x: V, key: V -> K, k: K)
    ensures Members(ys + [x], key, k) == Members(ys, key, k) + (if key(x) == k then [x] else [])
  {
    assert (ys + [x])[..|ys|] == ys;
  }

  /** A key that no row carries has an empty group. */
  lemma {:induction false} MembersAbsent<V(!new), K(!new)>(xs: seq<V>, key: V -> K, k: K)
    requires k !in Keys(xs, key)
    ensures Members(xs, key, k) == []
  {
    if xs != [] {
      var ys := xs[..|xs| - 1];
      assert xs == ys + [xs[|xs| - 1]];
      assert Keys(xs, key) == Keys(ys, key) + [key(xs[|xs| - 1])];
      MembersAbsent(ys, key, k);
      MembersSnoc(ys, xs[|xs| - 1], key, k);
    }
  }

  /** Every key in the insertion order has a non-empty group, headed by the first row with that key. */
  lemma {:induction false} MembersHead<V(!new), K(!new)>(xs: seq<V>, key: V -> K, k: K)
    requires k in Keys(xs, key)
    ensures Members(xs, key, k) != []
    ensures exists i :: 0 <= i < |xs| && Members(xs, key, k)[0] == xs[i] && key(xs[i]) == k
                        && forall j :: 0 <= j < i ==> key(xs[j]) != k
  {
    var ys := xs[..|xs| - 1];
    var x := xs[|xs| - 1];
    assert xs == ys + [x];
    MembersSnoc(ys, x, key, k);
    assert Keys(xs, key) == Keys(ys, key) + [key(x)];
    if k in Keys(ys, key) {
      MembersHead(ys, key, k);
      var i :| 0 <= i < |ys| && Members(ys, key, k)[0] == ys[i] && key(ys[i]) == k
                && forall j :: 0 <= j < i ==> key(ys[j]) != k;
      assert xs[i] == ys[i];
    } else {
      MembersAbsent(ys, key, k);
      assert forall j :: 0 <= j < |ys| ==> key(xs[j]) == Keys(ys, key)[j];
    }
  }

  /** Total size of the groups of the keys `ks`. */
  function GroupSizes<V(!new), K(==,!new)>(xs: seq<V>, key: V -> K, ks: seq<K>): nat
  {
    if ks == [] then 0 else GroupSizes(xs, key, ks[..|ks| - 1]) + |Members(xs, key, ks[|ks| - 1])|
  }

  lemma {:induction false} GroupSizesSnoc<V(!new), K(!new)>(ys: seq<V>, x: V, key: V -> K, ks: seq<K>)
    requires Distinct(ks)
    ensures GroupSizes(ys + [x], key, ks) == GroupSizes(ys, key, ks) + (if key(x) in ks then 1 else 0)
  {
    if ks != [] {
      var init := ks[..|ks| - 1];
      var last := ks[|ks| - 1];
      assert Distinct(init);
      assert forall j :: j in ks <==> j in init || j == last;
      assert last !in init;
      GroupSizesSnoc(ys, x, key, init);
      MembersSnoc(ys, x, key, last);
    }
  }

  lemma GroupSizesAppend<V(!new), K(!new)>(xs: seq<V>, key: V -> K, ks: seq<K>, k: K)
    ensures GroupSizes(xs, key, ks + [k]) == GroupSizes(xs, key, ks) + |Members(xs, key, k)|
  {
    assert (ks + [k])[..|ks|] == ks;
  }

  /** Every row lands in exactly one group: the group sizes add up to the number of rows. */
  lemma {:induction false} GroupsPartitionRows<V(!new), K(!new)>(xs: seq<V>, key: V -> K)
    ensures GroupSizes(xs, key, KeyOrder(Keys(xs, key))) == |xs|
  {
    if xs != [] {
      var ys := xs[..|xs| - 1];
      var x := xs[|xs| - 1];
      assert xs == ys + [x];
      assert Keys(xs, key)[..|xs| - 1] == Keys(ys, key);
      GroupsPartitionRows(ys, key);
      var order := KeyOrder(Keys(ys, key));
      GroupSizesSnoc(ys, x, key, order);
      if key(x) !in order {
        GroupSizesAppend(xs, key, order, key(x));
        MembersSnoc(ys, x, key, key(x));
        MembersAbsent(ys, key, key(x));
      }
    }
  }
  /**
   A dictionary of lists filled by `d[key(x)].append(f(x))`: one entry per
   key that occurs, holding the images of that key's rows in row order.
   */
  ghost predicate IsGroupMap<V(!new), K(!new), W>(m: map<K, seq<W>>, xs: seq<V>, key: V -> K, f: V -> W)
  {
    && (forall k :: k in m <==> k in Keys(xs, key))
    && (forall k :: k in m ==> m[k] == Map(f, Members(xs, key, k)))
  }

  /** One more appended row extends its own key's list and nothing else. */
  lemma GroupMapSnoc<V(!new), K(!new), W>(m: map<K, seq<W>>, xs: seq<V>, x: V, key: V -> K, f: V -> W)
    requires IsGroupMap(m, xs, key, f)
    ensures IsGroupMap(m[key(x) := (if key(x) in m then m[key(x)] else []) + [f(x)]], xs + [x], key, f)
  {
    var k := key(x);
    var m' := m[k := (if k in m then m[k] else []) + [f(x)]];
    assert Keys(xs + [x], key) == Keys(xs, key) + [k];
    if k !in m {
      MembersAbsent(xs, key, k);
    }
    forall j | j in m'
      ensures m'[j] == Map(f, Members(xs + [x], key, j))
    {
      MembersSnoc(xs, x, key, j);
      MapAppend(f, Members(xs, key, j), if k == j then [x] else []);
    }
  }
}
