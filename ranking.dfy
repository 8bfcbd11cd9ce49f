/**
 * Python's stable `sorted(items, key=..., reverse=True)` over a list of similarity
 * keys, modelled as the order of the item indices it produces. Equal keys keep their
 * submission order, so the earlier guess ranks higher.
 */
module Ranking {

  /** Index `i` comes before index `j`: a larger key, or an equal key submitted earlier. */
  predicate Before(keys: seq<real>, i: nat, j: nat) {
    i < |keys| && j < |keys| && (keys[i] > keys[j] || (keys[i] == keys[j] && i < j))
  }

  /** Every earlier entry of `ord` comes before every later one. */
  predicate Sorted(keys: seq<real>, ord: seq<nat>) {
    forall a, b :: 0 <= a < b < |ord| ==> Before(keys, ord[a], ord[b])
  }

  predicate InRange(ord: seq<nat>, n: nat) {
    forall k :: 0 <= k < |ord| ==> ord[k] < n
  }

  /** One insertion step of the stable descending sort: `i` goes behind every entry with a key at least keys[i]. */
  function Insert(keys: seq<real>, ord: seq<nat>, i: nat): (r: seq<nat>)
    requires i < |keys| && InRange(ord, |keys|)
    ensures |r| == |ord| + 1
    ensures multiset(r) == multiset(ord) + multiset{i}
  {
    if ord == [] then [i]
    else if keys[ord[0]] >= keys[i] then
      assert ord == [ord[0]] + ord[1..];
      [ord[0]] + Insert(keys, ord[1..], i)
    else [i] + ord
  }

  /** The sorted order of the first `n` indices. */
  function Order(keys: seq<real>, n: nat): (r: seq<nat>)
    requires n <= |keys|
    ensures |r| == n && InRange(r, n)
  {
    if n == 0 then []
    else
      var last: nat := n - 1;
      var prev := Order(keys, last);
      var r := Insert(keys, prev, last);
      assert forall k :: 0 <= k < |r| ==> r[k] in multiset(prev) + multiset{last};
      r
  }

  /** The index order of `sorted(range(len(keys)), key=keys.__getitem__, reverse=True)`. */
  function SortedOrder(keys: seq<real>): seq<nat> {
    Order(keys, |keys|)
  }

  /** How many entries of `ord` have a key of at least `v`. */
  function CountIn(keys: seq<real>, ord: seq<nat>, v: real): nat {
    if ord == [] then 0
    else (if ord[0] < |keys| && keys[ord[0]] >= v then 1 else 0) + CountIn(keys, ord[1..], v)
  }

  /** How many of the keys `s` are at least `v`. */
  function CountAtLeast(s: seq<real>, v: real): (c: nat)
    ensures c <= |s|
  {
    if s == [] then 0
    else if s[|s| - 1] >= v then CountAtLeast(s[..|s| - 1], v) + 1
    else CountAtLeast(s[..|s| - 1], v)
  }

  lemma {:induction false} InsertSorted(keys: seq<real>, ord: seq<nat>, i: nat)
    requires i < |keys| && InRange(ord, i) && Sorted(keys, ord)
    ensures Sorted(keys, Insert(keys, ord, i))
    decreases |ord|
  {
    if ord != [] {
      var r := Insert(keys, ord, i);
      if keys[ord[0]] >= keys[i] {
        var t := Insert(keys, ord[1..], i);
        InsertSorted(keys, ord[1..], i);
        assert r == [ord[0]] + t;
        forall b | 0 <= b < |t| ensures Before(keys, ord[0], t[b]) {
          assert t[b] in multiset(ord[1..]) + multiset{i};
          if t[b] != i {
            assert t[b] in ord[1..];
            var c :| 0 <= c < |ord[1..]| && ord[1..][c] == t[b];
            assert Before(keys, ord[0], ord[c + 1]);
          }
        }
      } else {
        assert r == [i] + ord;
        forall b | 0 <= b < |ord| ensures Before(keys, i, ord[b]) {
          if b > 0 {
            assert Before(keys, ord[0], ord[b]);
          }
        }
      }
    }
  }

  /** The order is sorted: keys never increase along it, and equal keys appear in index order. */
  lemma {:induction false} OrderSorted(keys: seq<real>, n: nat)
    requires n <= |keys|
    ensures Sorted(keys, Order(keys, n))
  {
    if n > 0 {
      OrderSorted(keys, n - 1);
      InsertSorted(keys, Order(keys, n - 1), n - 1);
    }
  }

  /** Every index below `n` occurs in the order of the first `n` indices. */
  lemma {:induction false} OrderCovers(keys: seq<real>, n: nat)
    requires n <= |keys|
    ensures forall j: nat :: j < n ==> j in Order(keys, n)
  {
    if n > 0 {
      var last: nat := n - 1;
      var prev := Order(keys, last);
      var r := Order(keys, n);
      OrderCovers(keys, last);
      assert multiset(r) == multiset(prev) + multiset{last};
      forall j: nat | j < n ensures j in r {
        if j < last {
          assert j in prev;
          assert j in multiset(prev);
        } else {
          assert j in multiset{last};
        }
        assert j in multiset(prev) + multiset{last};
      }
    }
  }

  /**
   * The sorted order is a permutation of the indices 0..|keys|-1 in which each index
   * comes before every later one: a strict, total ranking of all items.
   */
  lemma SortedOrderCorrect(keys: seq<real>)
    ensures var r := SortedOrder(keys);
      && |r| == |keys|
      && (forall j: nat :: j < |keys| ==> j in r)
      && (forall k :: 0 <= k < |r| ==> r[k] < |keys|)
      && Sorted(keys, r)
      && (forall a, b :: 0 <= a < b < |r| ==> r[a] != r[b])
  {
    OrderSorted(keys, |keys|);
    OrderCovers(keys, |keys|);
  }

  lemma {:induction false} InsertCount(keys: seq<real>, ord: seq<nat>, i: nat, v: real)
    requires i < |keys| && InRange(ord, |keys|)
    ensures keys[i] >= v ==> CountIn(keys, Insert(keys, ord, i), v) == CountIn(keys, ord, v) + 1
    ensures keys[i] < v ==> CountIn(keys, Insert(keys, ord, i), v) == CountIn(keys, ord, v)
    decreases |ord|
  {
    var r := Insert(keys, ord, i);
    if ord == [] {
      assert r[1..] == [];
    } else if keys[ord[0]] >= keys[i] {
      InsertCount(keys, ord[1..], i, v);
      assert r[1..] == Insert(keys, ord[1..], i);
    } else {
      assert r[1..] == ord;
    }
  }

  lemma {:induction false} OrderCount(keys: seq<real>, m: nat, v: real)
    requires m <= |keys|
    ensures CountIn(keys, Order(keys, m), v) == CountAtLeast(keys[..m], v)
  {
    if m > 0 {
      OrderCount(keys, m - 1, v);
      InsertCount(keys, Order(keys, m - 1), m - 1, v);
      CountAtLeastPrefix(keys, m, v);
    }
  }

  /** Counting over one more key of a prefix adds that key's hit. */
  lemma CountAtLeastPrefix(keys: seq<real>, m: nat, v: real)
    requires 0 < m <= |keys|
    ensures keys[m - 1] >= v ==> CountAtLeast(keys[..m], v) == CountAtLeast(keys[..m - 1], v) + 1
    ensures keys[m - 1] < v ==> CountAtLeast(keys[..m], v) == CountAtLeast(keys[..m - 1], v)
  {
    assert keys[..m][..m - 1] == keys[..m - 1];
  }

  lemma {:induction false} CountInNone(keys: seq<real>, ord: seq<nat>, v: real)
    requires InRange(ord, |keys|)
    requires forall k :: 0 <= k < |ord| ==> keys[ord[k]] < v
    ensures CountIn(keys, ord, v) == 0
    decreases |ord|
  {
    if ord != [] {
      CountInNone(keys, ord[1..], v);
    }
  }

  /** Inserting `i` into a sorted order puts it at the number of entries whose keys are at least its own. */
  lemma {:induction false} InsertPosition(keys: seq<real>, ord: seq<nat>, i: nat)
    requires i < |keys| && InRange(ord, i) && Sorted(keys, ord)
    ensures CountIn(keys, ord, keys[i]) <= |ord|
    ensures Insert(keys, ord, i)[CountIn(keys, ord, keys[i])] == i
    decreases |ord|
  {
    if ord != [] {
      if keys[ord[0]] >= keys[i] {
        InsertPosition(keys, ord[1..], i);
      } else {
        forall k | 0 <= k < |ord| ensures keys[ord[k]] < keys[i] {
          if k > 0 {
            assert Before(keys, ord[0], ord[k]);
          }
        }
        CountInNone(keys, ord, keys[i]);
      }
    }
  }

  /**
   * The rank rule: the last-submitted item sits at position p (0-based) of the sorted
   * order, where p is the number of earlier items whose keys are at least its key.
   */
  lemma LastItemPosition(keys: seq<real>)
    requires |keys| > 0
    ensures var n := |keys|; var p := CountAtLeast(keys[..n - 1], keys[n - 1]);
      p < n && SortedOrder(keys)[p] == n - 1
  {
    var n := |keys|;
    var prev := Order(keys, n - 1);
    OrderSorted(keys, n - 1);
    InsertPosition(keys, prev, n - 1);
    OrderCount(keys, n - 1, keys[n - 1]);
  }

  /** The first index of the sorted order has the largest key. */
  lemma FirstIsLargest(keys: seq<real>)
    requires |keys| > 0
    ensures forall k :: 0 <= k < |keys| ==> keys[k] <= keys[SortedOrder(keys)[0]]
  {
    var r := SortedOrder(keys);
    SortedOrderCorrect(keys);
    forall k | 0 <= k < |keys| ensures keys[k] <= keys[r[0]] {
      assert (k as nat) in r;
      var b :| 0 <= b < |r| && r[b] == k;
      if b > 0 {
        assert Before(keys, r[0], r[b]);
      }
    }
  }
}
