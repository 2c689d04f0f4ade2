/**
 The backup retention policy: collect the slots whose name contains the backup
 marker, and when there are more than the configured maximum, order them by
 timestamp and delete the earliest until the maximum is reached.
 */
module Retention {
  import opened SaveStore
  import opened SeqFacts

  /**
   A listing of the store's folder keys, in the host's enumeration order: every
   key once, and nothing else.
   */
  predicate Enumerates(order: seq<int>, s: Store) {
    && Distinct(order)
    && (forall k :: k in order ==> k in s)
    && (forall k :: k in s ==> k in order)
  }

  /** The backup keys of a listing, in listing order (the filter loop). */
  function CollectBackups(order: seq<int>, s: Store): (b: seq<int>)
    requires forall k :: k in order ==> k in s
    ensures forall k :: k in b <==> k in order && IsBackup(s[k])
  {
    if order == [] then []
    else
      var first := order[0];
      assert first in order;
      assert order == [first] + order[1..];
      var rest := CollectBackups(order[1..], s);
      if IsBackup(s[first]) then [first] + rest else rest
  }

  /** Filtering a repetition-free listing keeps it repetition-free. */
  lemma {:induction false} CollectBackupsDistinct(order: seq<int>, s: Store)
    requires forall k :: k in order ==> k in s
    requires Distinct(order)
    ensures Distinct(CollectBackups(order, s))
  {
    if order != [] {
      var first := order[0];
      assert first in order;
      assert forall k :: k in order[1..] ==> k in order;
      DistinctTail(order);
      CollectBackupsDistinct(order[1..], s);
      var rest := CollectBackups(order[1..], s);
      if IsBackup(s[first]) {
        DistinctCons(first, rest);
      }
    }
  }

  /** Over a full listing, the collected keys are exactly the store's backups, each once. */
  lemma CollectBackupsCount(order: seq<int>, s: Store)
    requires Enumerates(order, s)
    ensures Elems(CollectBackups(order, s)) == Backups(s)
    ensures |CollectBackups(order, s)| == |Backups(s)|
  {
    var b := CollectBackups(order, s);
    CollectBackupsDistinct(order, s);
    DistinctCard(b);
    assert forall k :: k in Elems(b) <==> k in Backups(s);
  }

  /** Both folders exist and the first is stamped no later than the second. */
  predicate NoLater(s: Store, a: int, b: int) {
    a in s && b in s && s[a].realTime <= s[b].realTime
  }

  /** Timestamps never decrease along the sequence. */
  predicate SortedByTime(ks: seq<int>, s: Store) {
    forall i, j :: 0 <= i < j < |ks| ==> NoLater(s, ks[i], ks[j])
  }

  /** A head no later than every element of a sorted tail gives a sorted sequence. */
  lemma SortedCons(h: int, t: seq<int>, s: Store)
    requires h in s && SortedByTime(t, s)
    requires forall x :: x in t ==> NoLater(s, h, x)
    ensures SortedByTime([h] + t, s)
  {
    var r := [h] + t;
    forall i, j | 0 <= i < j < |r|
      ensures NoLater(s, r[i], r[j])
    {
      assert r[j] == t[j - 1] && t[j - 1] in t;
      if i > 0 {
        assert r[i] == t[i - 1];
        assert NoLater(s, t[i - 1], t[j - 1]);
      }
    }
  }

  /** Inserts one key into a timestamp-sorted sequence, before the first later-or-equal entry. */
  function InsertByTime(k: int, ks: seq<int>, s: Store): (r: seq<int>)
    requires k in s
    requires forall x :: x in ks ==> x in s
    ensures multiset(r) == multiset(ks) + multiset{k}
    ensures SortedByTime(ks, s) ==> SortedByTime(r, s)
  {
    if ks == [] then [k]
    else
      var first := ks[0];
      assert first in ks;
      assert ks == [first] + ks[1..];
      if s[k].realTime <= s[first].realTime then
        if SortedByTime(ks, s) then
          assert forall x :: x in ks ==> NoLater(s, k, x) by {
            forall x | x in ks ensures NoLater(s, k, x) {
              var i :| 0 <= i < |ks| && ks[i] == x;
              if i > 0 { assert NoLater(s, ks[0], ks[i]); }
            }
          }
          SortedCons(k, ks, s);
          [k] + ks
        else [k] + ks
      else
        var rest := InsertByTime(k, ks[1..], s);
        if SortedByTime(ks, s) then
          assert SortedByTime(ks[1..], s) by {
            forall i, j | 0 <= i < j < |ks[1..]| ensures ks[1..][i] == ks[i + 1] && ks[1..][j] == ks[j + 1] {}
          }
          assert forall x :: x in rest ==> x == k || x in ks[1..] by {
            forall x | x in rest ensures x == k || x in ks[1..] {
              assert x in multiset(rest);
            }
          }
          assert forall x :: x in ks[1..] ==> NoLater(s, first, x) by {
            forall x | x in ks[1..] ensures NoLater(s, first, x) {
              var i :| 0 <= i < |ks[1..]| && ks[1..][i] == x;
              assert ks[i + 1] == x;
            }
          }
          SortedCons(first, rest, s);
          [first] + rest
        else [first] + rest
  }

  /** Orders keys by ascending timestamp (insertion sort): a sorted permutation. */
  function SortByTime(ks: seq<int>, s: Store): (r: seq<int>)
    requires forall x :: x in ks ==> x in s
    ensures multiset(r) == multiset(ks)
    ensures SortedByTime(r, s)
  {
    if ks == [] then []
    else
      assert ks == [ks[0]] + ks[1..];
      var rest := SortByTime(ks[1..], s);
      assert forall x :: x in rest ==> x in s by {
        forall x | x in rest ensures x in s { assert x in multiset(rest); }
      }
      InsertByTime(ks[0], rest, s)
  }

  /** What a pruning pass did: the resulting store and the keys it deleted, in order. */
  datatype Pruned = Pruned(store: Store, deleted: seq<int>)

  /**
   The deletion loop: while more than max keys remain queued, delete the first
   queued folder and drop it from the queue. It deletes exactly the queue's
   prefix that leaves max keys behind.
   */
  function DeleteEarliest(s: Store, queue: seq<int>, max: nat): (r: Pruned)
    ensures |queue| <= max ==> r.deleted == []
    ensures |queue| > max ==> r.deleted == queue[..|queue| - max]
    ensures r.store.Keys == s.Keys - Elems(r.deleted)
    ensures forall k :: k in r.store ==> r.store[k] == s[k]
    decreases |queue|
  {
    if |queue| > max then
      var next := DeleteEarliest(DeleteSaveFolder(s, queue[0]), queue[1..], max);
      assert [queue[0]] + queue[1..][..|queue| - 1 - max] == queue[..|queue| - max];
      Pruned(next.store, [queue[0]] + next.deleted)
    else Pruned(s, [])
  }

  /** The queue a pruning pass works through: every backup once, earliest first. */
  function SortedBackups(s: Store, order: seq<int>): (q: seq<int>)
    requires Enumerates(order, s)
    ensures Elems(q) == Backups(s) && |q| == |Backups(s)|
    ensures SortedByTime(q, s)
  {
    var backups := CollectBackups(order, s);
    CollectBackupsCount(order, s);
    var q := SortByTime(backups, s);
    SameElems(q, backups);
    assert |q| == |multiset(q)| == |multiset(backups)| == |backups|;
    q
  }

  /**
   RemoveOldQuickSaves: collect the backups in listing order; if there are more
   than max, sort them by timestamp and delete from the front until max remain.
   Only deleted folders disappear, only backups are deleted, and nothing else changes.
   */
  function RemoveOldQuickSaves(s: Store, order: seq<int>, max: nat): (r: Pruned)
    requires Enumerates(order, s)
    ensures r.store.Keys == s.Keys - Elems(r.deleted)
    ensures forall k :: k in r.store ==> r.store[k] == s[k]
    ensures Elems(r.deleted) <= Backups(s)
    ensures forall k :: k in s && !IsBackup(s[k]) ==> k in r.store && r.store[k] == s[k]
  {
    var backups := CollectBackups(order, s);
    CollectBackupsCount(order, s);
    if |backups| > max then
      var queue := SortedBackups(s, order);
      PrefixElemsCard(queue, |queue| - max);
      DeleteEarliest(s, queue, max)
    else Pruned(s, [])
  }

  /** A pruning pass deletes the leading part of the sorted backup queue that leaves max behind. */
  lemma PruneDeletesQueuePrefix(s: Store, order: seq<int>, max: nat)
    requires Enumerates(order, s)
    ensures var q := SortedBackups(s, order);
      RemoveOldQuickSaves(s, order, max).deleted ==
        if |q| > max then q[..|q| - max] else []
  {
    CollectBackupsCount(order, s);
  }

  /** A leading part of a sorted, repetition-free key sequence is again one. */
  lemma SortedPrefix(q: seq<int>, n: nat, s: Store)
    requires n <= |q| && |Elems(q)| == |q| && SortedByTime(q, s)
    ensures |Elems(q[..n])| == n && SortedByTime(q[..n], s)
  {
    PrefixElemsCard(q, n);
    var p := q[..n];
    forall i, j | 0 <= i < j < |p|
      ensures NoLater(s, p[i], p[j])
    {
      assert p[i] == q[i] && p[j] == q[j];
    }
  }

  /** With at most max backups (strictly-greater trigger), pruning deletes nothing. */
  lemma PruneNoOpWithinMax(s: Store, order: seq<int>, max: nat)
    requires Enumerates(order, s)
    requires |Backups(s)| <= max
    ensures RemoveOldQuickSaves(s, order, max) == Pruned(s, [])
  {
    CollectBackupsCount(order, s);
  }

  /** The keys a pruning pass deletes, in order: earliest first, each once. */
  lemma PruneDeletedSorted(s: Store, order: seq<int>, max: nat)
    requires Enumerates(order, s)
    ensures |Elems(RemoveOldQuickSaves(s, order, max).deleted)| == |RemoveOldQuickSaves(s, order, max).deleted|
    ensures SortedByTime(RemoveOldQuickSaves(s, order, max).deleted, s)
  {
    var d := RemoveOldQuickSaves(s, order, max).deleted;
    var q := SortedBackups(s, order);
    PruneDeletesQueuePrefix(s, order, max);
    var n := if |q| > max then |q| - max else 0;
    assert d == q[..n];
    SortedPrefix(q, n, s);
  }

  /**
   Deleting, without touching anything else, n distinct backups leaves n
   backups fewer.
   */
  lemma DeletingBackupsCount(s: Store, r: Pruned, n: nat)
    requires r.store.Keys == s.Keys - Elems(r.deleted)
    requires forall k :: k in r.store ==> r.store[k] == s[k]
    requires Elems(r.deleted) <= Backups(s)
    requires |Elems(r.deleted)| == n
    ensures |Backups(r.store)| == |Backups(s)| - n
  {
    var gone := Elems(r.deleted);
    var before, after := Backups(s), Backups(r.store);
    assert after == before - gone by {
      forall k ensures k in after <==> k in before && k !in gone {
        if k in r.store { assert r.store[k] == s[k]; }
      }
    }
    SubsetCard(gone, before);
  }

  /**
   Above max backups, pruning deletes exactly count - max folders and leaves
   exactly max backups.
   */
  lemma PruneLeavesMax(s: Store, order: seq<int>, max: nat)
    requires Enumerates(order, s)
    requires |Backups(s)| > max
    ensures |RemoveOldQuickSaves(s, order, max).deleted| == |Backups(s)| - max
    ensures |s.Keys - RemoveOldQuickSaves(s, order, max).store.Keys| == |Backups(s)| - max
    ensures |Backups(RemoveOldQuickSaves(s, order, max).store)| == max
  {
    var r := RemoveOldQuickSaves(s, order, max);
    var q := SortedBackups(s, order);
    PruneDeletesQueuePrefix(s, order, max);
    PruneDeletedSorted(s, order, max);
    DeletingBackupsCount(s, r, |Backups(s)| - max);
    assert s.Keys - r.store.Keys == Elems(r.deleted);
  }

  /**
   Deleting a leading part of a timestamp-sorted queue of distinct keys removes
   nothing later than what is left of the queue.
   */
  lemma DeletingPrefixIsEarliest(s: Store, q: seq<int>, n: nat, r: Pruned)
    requires n <= |q| && SortedByTime(q, s)
    requires r.deleted == q[..n]
    ensures forall d, k :: d in r.deleted && k in q && k !in r.deleted ==>
              s[d].realTime <= s[k].realTime
  {
    forall d, k | d in r.deleted && k in q && k !in r.deleted
      ensures s[d].realTime <= s[k].realTime
    {
      var i :| 0 <= i < n && r.deleted[i] == d;
      assert q[i] == d;
      var j :| 0 <= j < |q| && q[j] == k;
      assert forall t :: 0 <= t < n ==> r.deleted[t] == q[t];
      assert NoLater(s, q[i], q[j]);
    }
  }

  /**
   Every deleted backup is no later than every surviving backup. Among equal
   timestamps, which ones go depends on the listing order.
   */
  lemma PruneDeletesEarliest(s: Store, order: seq<int>, max: nat)
    requires Enumerates(order, s)
    ensures var r := RemoveOldQuickSaves(s, order, max);
      forall d, k :: d in r.deleted && k in Backups(r.store) ==> s[d].realTime <= s[k].realTime
  {
    var r := RemoveOldQuickSaves(s, order, max);
    var q := SortedBackups(s, order);
    PruneDeletesQueuePrefix(s, order, max);
    if |q| > max {
      DeletingPrefixIsEarliest(s, q, |q| - max, r);
      assert forall k :: k in Backups(r.store) ==> k in Elems(q) && k !in r.deleted;
    }
  }

  /** A listing with no backup contributes nothing to the backup queue. */
  lemma {:induction false} CollectNoBackups(rest: seq<int>, s: Store)
    requires forall k :: k in rest ==> k in s && !IsBackup(s[k])
    ensures CollectBackups(rest, s) == []
  {
    if rest != [] {
      assert rest[0] in rest;
      assert forall k :: k in rest[1..] ==> k in rest;
      CollectNoBackups(rest[1..], s);
    }
  }

  /** Listing backups first and then other folders collects exactly those backups, in that order. */
  lemma {:induction false} CollectBackupsFirst(q: seq<int>, rest: seq<int>, s: Store)
    requires forall k :: k in q ==> k in s && IsBackup(s[k])
    requires forall k :: k in rest ==> k in s && !IsBackup(s[k])
    ensures CollectBackups(q + rest, s) == q
  {
    if q == [] {
      assert q + rest == rest;
      CollectNoBackups(rest, s);
    } else {
      assert q[0] in q;
      assert forall k :: k in q[1..] ==> k in q;
      assert (q + rest)[1..] == q[1..] + rest;
      CollectBackupsFirst(q[1..], rest, s);
    }
  }

  /** Sorting a sequence that is already in timestamp order returns it unchanged. */
  lemma {:induction false} SortSortedUnchanged(q: seq<int>, s: Store)
    requires forall x :: x in q ==> x in s
    requires SortedByTime(q, s)
    ensures SortByTime(q, s) == q
  {
    if q != [] {
      assert forall x :: x in q[1..] ==> x in q;
      assert SortedByTime(q[1..], s) by {
        forall i, j | 0 <= i < j < |q[1..]| ensures NoLater(s, q[1..][i], q[1..][j]) {
          assert q[1..][i] == q[i + 1] && q[1..][j] == q[j + 1];
        }
      }
      SortSortedUnchanged(q[1..], s);
      if |q| > 1 {
        assert NoLater(s, q[0], q[1]);
      }
      assert q == [q[0]] + q[1..];
    }
  }

  /** The backups listed once each, followed by the other folders listed once each, list the store. */
  lemma BackupsFirstEnumerates(s: Store, q: seq<int>, rest: seq<int>)
    requires Elems(q) == Backups(s) && |q| == |Backups(s)|
    requires Elems(rest) == s.Keys - Backups(s) && |rest| == |s.Keys - Backups(s)|
    ensures Enumerates(q + rest, s)
  {
    var order := q + rest;
    assert Elems(order) == Elems(q) + Elems(rest);
    assert Elems(q) * Elems(rest) == {};
    CardDistinct(order);
    assert forall k :: k in order ==> k in Elems(order);
    assert forall k :: k in s ==> k in Elems(order);
  }

  /**
   Every arrangement of the backups in timestamp order, whichever way ties fall,
   is the queue of some listing of the store: listing those backups first in that
   arrangement yields it. So the properties proved for every listing cover every
   order an unstable sort may produce.
   */
  lemma EveryTimeOrderArises(s: Store, q: seq<int>)
    requires Elems(q) == Backups(s) && |q| == |Backups(s)|
    requires SortedByTime(q, s)
    ensures exists order :: Enumerates(order, s) && SortedBackups(s, order) == q
  {
    var rest := ListingOf(s.Keys - Backups(s));
    var order := q + rest;
    BackupsFirstEnumerates(s, q, rest);
    assert forall k :: k in q ==> k in Elems(q);
    assert forall k :: k in rest ==> k in Elems(rest);
    CollectBackupsFirst(q, rest, s);
    SortSortedUnchanged(q, s);
    assert SortedBackups(s, order) == q;
  }
}
