/**
 * The order in which a lane's events are packed.  The component sorts with
 * `Array.prototype.sort`, which is stable: week lanes by `startCol`, monthly week lanes by
 * `startCol` and then by span, longest first.  A stable sort by a key is the sort by the
 * key and then by original position, which is a strict total order, so its result is
 * described exactly by the order of positions computed here.
 */
module LaneOrder {
  import opened Sequences

  /** A sort key compared lexicographically: `major` first, then `minor`. */
  datatype Key = Key(major: int, minor: int)

  predicate KeyLess(a: Key, b: Key) {
    a.major < b.major || (a.major == b.major && a.minor < b.minor)
  }

  /** Position `i` is sorted before position `j`: smaller key, or the same key and earlier. */
  predicate Before(keys: seq<Key>, i: int, j: int)
    requires 0 <= i < |keys| && 0 <= j < |keys|
  {
    KeyLess(keys[i], keys[j]) || (keys[i] == keys[j] && i < j)
  }

  predicate InRange(keys: seq<Key>, order: seq<nat>) {
    forall k :: 0 <= k < |order| ==> order[k] < |keys|
  }

  /** The positions are listed in `Before` order (so each at most once). */
  predicate SortedBy(keys: seq<Key>, order: seq<nat>)
    requires InRange(keys, order)
  {
    forall a, b :: 0 <= a < b < |order| ==> Before(keys, order[a], order[b])
  }

  lemma BeforeStrictTotal(keys: seq<Key>, i: int, j: int, k: int)
    requires 0 <= i < |keys| && 0 <= j < |keys| && 0 <= k < |keys|
    ensures !Before(keys, i, i)
    ensures i != j ==> Before(keys, i, j) || Before(keys, j, i)
    ensures Before(keys, i, j) && Before(keys, j, k) ==> Before(keys, i, k)
  {
  }

  /** Insert position `i` into a sorted order, after everything that goes before it. */
  function Insert(keys: seq<Key>, order: seq<nat>, i: nat): (r: seq<nat>)
    requires i < |keys| && InRange(keys, order) && SortedBy(keys, order) && i !in order
    ensures |r| == |order| + 1 && InRange(keys, r)
    ensures forall x :: x in r <==> x in order || x == i
    ensures SortedBy(keys, r)
  {
    if |order| == 0 then [i]
    else if Before(keys, i, order[0]) then
      assert forall k :: 0 <= k < |order| ==> Before(keys, i, order[k]) by {
        forall k | 0 <= k < |order| ensures Before(keys, i, order[k]) {
          BeforeStrictTotal(keys, i, order[0], order[k]);
        }
      }
      [i] + order
    else
      var rest := Insert(keys, order[1..], i);
      assert forall x :: x in rest ==> Before(keys, order[0], x) by {
        forall x | x in rest ensures Before(keys, order[0], x) {
          if x == i {
            BeforeStrictTotal(keys, i, order[0], i);
          } else {
            var k :| 1 <= k < |order| && order[k] == x;
          }
        }
      }
      [order[0]] + rest
  }

  /** The stable sorted order of the first `n` positions. */
  function SortedPrefix(keys: seq<Key>, n: nat): (order: seq<nat>)
    requires n <= |keys|
    ensures |order| == n && InRange(keys, order)
    ensures forall x :: x in order <==> 0 <= x < n
    ensures SortedBy(keys, order)
  {
    if n == 0 then [] else Insert(keys, SortedPrefix(keys, n - 1), n - 1)
  }

  /**
   * The order in which a stable sort by `keys` visits the positions: every position
   * exactly once, keys ascending, equal keys in their original order.
   */
  function StableOrder(keys: seq<Key>): (order: seq<nat>)
    ensures |order| == |keys| && InRange(keys, order)
    ensures forall x :: x in order <==> 0 <= x < |keys|
    ensures SortedBy(keys, order)
  {
    SortedPrefix(keys, |keys|)
  }

  lemma SameElementsSameEmptiness(a: seq<nat>, b: seq<nat>)
    requires forall x :: x in a <==> x in b
    ensures |a| == 0 <==> |b| == 0
  {
    if |a| > 0 {
      assert a[0] in a;
    }
    if |b| > 0 {
      assert b[0] in b;
    }
  }

  /** A stable sort has exactly one possible result: any order with the same properties is this one. */
  lemma {:induction false} StableOrderUnique(keys: seq<Key>, a: seq<nat>, b: seq<nat>)
    requires InRange(keys, a) && InRange(keys, b) && SortedBy(keys, a) && SortedBy(keys, b)
    requires forall x :: x in a <==> x in b
    ensures a == b
  {
    SameElementsSameEmptiness(a, b);
    if |a| > 0 {
      assert a[0] in a && b[0] in b;
      var ia :| 0 <= ia < |b| && b[ia] == a[0];
      var ib :| 0 <= ib < |a| && a[ib] == b[0];
      if ia != 0 && ib != 0 {
        BeforeStrictTotal(keys, a[0], b[0], a[0]);
      }
      forall x ensures x in a[1..] <==> x in b[1..] {
        BeforeStrictTotal(keys, a[0], a[0], a[0]);
        if x in a[1..] {
          var k :| 1 <= k < |a| && a[k] == x;
          assert x in a && Before(keys, a[0], x);
        }
        if x in b[1..] {
          var k :| 1 <= k < |b| && b[k] == x;
          assert x in b && Before(keys, b[0], x);
        }
      }
      StableOrderUnique(keys, a[1..], b[1..]);
      assert a == [a[0]] + a[1..] && b == [b[0]] + b[1..];
    }
  }

  /** The items at the listed positions, in the listed order. */
  function Reorder<T>(items: seq<T>, order: seq<nat>): (r: seq<T>)
    requires forall k :: 0 <= k < |order| ==> order[k] < |items|
    ensures |r| == |order|
    ensures forall k :: 0 <= k < |order| ==> r[k] == items[order[k]]
  {
    if |order| == 0 then [] else [items[order[0]]] + Reorder(items, order[1..])
  }

  /**
   * `sorted` is a result a stable sort of `items` by `keys` may return: the items taken in
   * a `Before` order of all their positions, each position exactly once.
   */
  ghost predicate IsStableSort<T>(keys: seq<Key>, items: seq<T>, sorted: seq<T>)
    requires |keys| == |items|
  {
    exists order: seq<nat> ::
      && |order| == |items| && InRange(keys, order)
      && (forall x :: x in order <==> 0 <= x < |items|)
      && SortedBy(keys, order)
      && sorted == Reorder(items, order)
  }

  lemma ReorderAppend<T>(items: seq<T>, a: seq<nat>, b: seq<nat>)
    requires forall k :: 0 <= k < |a| ==> a[k] < |items|
    requires forall k :: 0 <= k < |b| ==> b[k] < |items|
    ensures Reorder(items, a + b) == Reorder(items, a) + Reorder(items, b)
  {
    var r, x, y := Reorder(items, a + b), Reorder(items, a), Reorder(items, b);
    forall k | 0 <= k < |r| ensures r[k] == (x + y)[k] {
      if k < |a| {
        assert (a + b)[k] == a[k];
      } else {
        assert (a + b)[k] == b[k - |a|];
      }
    }
    assert r == x + y;
  }

  /** Inserting a position splices it in somewhere, leaving the rest of the order as it was. */
  lemma {:induction false} InsertSplices(keys: seq<Key>, order: seq<nat>, i: nat) returns (j: nat)
    requires i < |keys| && InRange(keys, order) && SortedBy(keys, order) && i !in order
    ensures j <= |order| && Insert(keys, order, i) == order[..j] + [i] + order[j..]
  {
    if |order| == 0 || Before(keys, i, order[0]) {
      j := 0;
    } else {
      var tail := order[1..];
      var k := InsertSplices(keys, tail, i);
      j := k + 1;
      assert order[..j] == [order[0]] + tail[..k] && order[j..] == tail[k..];
    }
  }

  lemma ReorderSplice<T>(items: seq<T>, front: seq<nat>, i: nat, back: seq<nat>)
    requires i < |items|
    requires forall k :: 0 <= k < |front| ==> front[k] < |items|
    requires forall k :: 0 <= k < |back| ==> back[k] < |items|
    ensures multiset(Reorder(items, front + [i] + back)) == multiset(Reorder(items, front + back)) + multiset{items[i]}
  {
    ReorderAppend(items, front + [i], back);
    ReorderAppend(items, front, [i]);
    ReorderAppend(items, front, back);
  }

  lemma ReorderInsert<T>(keys: seq<Key>, items: seq<T>, order: seq<nat>, i: nat)
    requires |items| == |keys|
    requires i < |keys| && InRange(keys, order) && SortedBy(keys, order) && i !in order
    ensures multiset(Reorder(items, Insert(keys, order, i))) == multiset(Reorder(items, order)) + multiset{items[i]}
  {
    var j := InsertSplices(keys, order, i);
    var front, back := order[..j], order[j..];
    assert order == front + back;
    ReorderSplice(items, front, i, back);
  }

  lemma PrefixStep<T>(items: seq<T>, n: nat)
    requires 0 < n <= |items|
    ensures multiset(items[..n]) == multiset(items[..n - 1]) + multiset{items[n - 1]}
  {
    assert items[..n] == items[..n - 1] + [items[n - 1]];
  }

  lemma {:induction false} SortedPrefixPermutes<T>(keys: seq<Key>, items: seq<T>, n: nat)
    requires |items| == |keys| && n <= |keys|
    ensures multiset(Reorder(items, SortedPrefix(keys, n))) == multiset(items[..n])
  {
    if n > 0 {
      var prev := SortedPrefix(keys, n - 1);
      assert SortedPrefix(keys, n) == Insert(keys, prev, n - 1);
      SortedPrefixPermutes(keys, items, n - 1);
      ReorderInsert(keys, items, prev, n - 1);
      PrefixStep(items, n);
    }
  }

  /** The result of a stable sort: the only one there is, and a permutation of the items. */
  function StableSort<T>(keys: seq<Key>, items: seq<T>): (sorted: seq<T>)
    requires |keys| == |items|
    ensures IsStableSort(keys, items, sorted)
    ensures multiset(sorted) == multiset(items)
  {
    var order := StableOrder(keys);
    SortedPrefixPermutes(keys, items, |keys|);
    assert items[..|keys|] == items;
    assert |order| == |items| && InRange(keys, order)
      && (forall x :: x in order <==> 0 <= x < |items|)
      && SortedBy(keys, order)
      && Reorder(items, order) == Reorder(items, order);
    Reorder(items, order)
  }

  /** Any two results of a stable sort of the same items by the same keys are equal. */
  lemma StableSortUnique<T>(keys: seq<Key>, items: seq<T>, a: seq<T>, b: seq<T>)
    requires |keys| == |items| && IsStableSort(keys, items, a) && IsStableSort(keys, items, b)
    ensures a == b
  {
    var oa :| |oa| == |items| && InRange(keys, oa) && (forall x :: x in oa <==> 0 <= x < |items|)
      && SortedBy(keys, oa) && a == Reorder(items, oa);
    var ob :| |ob| == |items| && InRange(keys, ob) && (forall x :: x in ob <==> 0 <= x < |items|)
      && SortedBy(keys, ob) && b == Reorder(items, ob);
    StableOrderUnique(keys, oa, ob);
  }

  /** The result of a stable sort lists the items with keys ascending. */
  lemma StableSortAscends<T>(items: seq<T>, key: T -> Key, sorted: seq<T>)
    requires IsStableSort(Map(items, key), items, sorted)
    ensures |sorted| == |items|
    ensures forall a, b :: 0 <= a < b < |sorted| ==>
      KeyLess(key(sorted[a]), key(sorted[b])) || key(sorted[a]) == key(sorted[b])
  {
    var keys := Map(items, key);
    var order :| |order| == |items| && InRange(keys, order) && (forall x :: x in order <==> 0 <= x < |items|)
      && SortedBy(keys, order) && sorted == Reorder(items, order);
    forall a, b | 0 <= a < b < |sorted|
      ensures KeyLess(key(sorted[a]), key(sorted[b])) || key(sorted[a]) == key(sorted[b])
    {
      assert Before(keys, order[a], order[b]);
    }
  }
}
