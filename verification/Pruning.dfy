/**
 Pruning of the persistent function cache. Rows arrive in pruning order, in partitions of a fixed size, and are
 deleted until enough bytes are free; the nested loops leave early in the middle of a partition. What is deleted is
 proved to be independent of the size of the partitions, and what remains to fit the bytes to keep. Entries have
 sizes that are not negative. (src/cache_manager.py)
 */
module Pruning {

  datatype Entry = Entry(id: string, size: nat)

  function Total(entries: seq<Entry>): nat {
    if entries == [] then 0 else Total(entries[..|entries| - 1]) + entries[|entries| - 1].size
  }

  lemma {:induction false} TotalConcat(a: seq<Entry>, b: seq<Entry>)
    ensures Total(a + b) == Total(a) + Total(b)
  {
    if b == [] {
      assert a + b == a;
    } else {
      TotalConcat(a, b[..|b| - 1]);
      assert (a + b)[..|a + b| - 1] == a + b[..|b| - 1];
    }
  }

  /** `n` is the length of the shortest prefix with that total, or of the whole sequence if none has it. */
  ghost predicate ShortestSufficient(entries: seq<Entry>, amount: int, n: nat) {
    && n <= |entries|
    && (n == |entries| || Total(entries[..n]) >= amount)
    && forall k :: 0 <= k < n ==> Total(entries[..k]) < amount
  }

  /** How many entries have to go, one after the other, to free the amount. */
  function Needed(entries: seq<Entry>, amount: int): (n: nat)
    ensures n <= |entries|
  {
    if amount <= 0 || entries == [] then 0 else 1 + Needed(entries[1..], amount - entries[0].size)
  }

  lemma TotalOfFirst(entries: seq<Entry>, k: nat)
    requires 0 < k <= |entries|
    ensures Total(entries[..k]) == entries[0].size + Total(entries[1..][..k - 1])
  {
    var first, rest := [entries[0]], entries[1..][..k - 1];
    assert entries[..k] == first + rest;
    TotalConcat(first, rest);
    assert Total(first) == entries[0].size by {
      assert first[..0] == [] && Total([]) == 0;
    }
  }

  lemma {:induction false} NeededIsShortest(entries: seq<Entry>, amount: int)
    ensures ShortestSufficient(entries, amount, Needed(entries, amount))
  {
    if amount > 0 && entries != [] {
      var rest, m := entries[1..], Needed(entries[1..], amount - entries[0].size);
      NeededIsShortest(rest, amount - entries[0].size);
      forall k | 0 < k <= |entries|
        ensures Total(entries[..k]) == entries[0].size + Total(rest[..k - 1])
      {
        TotalOfFirst(entries, k);
      }
      forall k | 0 <= k < m + 1
        ensures Total(entries[..k]) < amount
      {
        assert k > 0 ==> Total(rest[..k - 1]) < amount - entries[0].size;
      }
    }
  }

  /** The rows of the stream from `from` on, at most `chunkSize` of them. */
  function Partition(rows: seq<Entry>, from: nat, chunkSize: nat): (p: seq<Entry>)
    requires from <= |rows|
    ensures from + |p| <= |rows| && rows[from..from + |p|] == p && |p| <= chunkSize
    ensures from < |rows| && chunkSize > 0 ==> p != []
  {
    if from + chunkSize <= |rows| then rows[from..from + chunkSize] else rows[from..]
  }

  /** The rows are the entries, each once. */
  ghost predicate ListsRows(entries: map<string, Entry>, rows: seq<Entry>) {
    && (forall i, j :: 0 <= i < j < |rows| ==> rows[i].id != rows[j].id)
    && (forall id :: id in entries <==> exists i :: 0 <= i < |rows| && rows[i].id == id)
    && (forall i :: 0 <= i < |rows| && rows[i].id in entries ==> entries[rows[i].id] == rows[i])
  }

  class Cache {
    var entries: map<string, Entry>

    ghost predicate Lists(rows: seq<Entry>)
      reads this
    {
      ListsRows(entries, rows)
    }

    /** Deletes the shortest prefix of the rows (in pruning order) that frees enough, whatever the chunk size, and
        reports the bytes deleted; a failing commit leaves everything in place. */
    method Prune(rows: seq<Entry>, cacheSize: int, minPruningBytes: int, chunkSize: nat, commit: bool)
      returns (pruned: int)
      requires Lists(rows) && chunkSize > 0
      modifies this
      ensures
        var n := Needed(rows, cacheSize - minPruningBytes);
        && pruned == Total(rows[..n])
        && (commit ==> entries == old(entries) - Ids(rows[..n]) && Lists(rows[n..]))
      ensures !commit ==> entries == old(entries)
    {
      var amount := cacheSize - minPruningBytes;
      ghost var n := Needed(rows, amount);
      var prunable, left := PruneRows(rows, amount, entries, chunkSize);
      assert left == entries - Ids(rows[..n]);
      LeftOver(rows, n, entries);
      if commit {
        entries := left;
      }
      pruned := amount - prunable;
    }
  }

  function Ids(rows: seq<Entry>): set<string> {
    set row | row in rows :: row.id
  }

  ghost predicate Progress(rows: seq<Entry>, amount: int, n: nat, prunable: int)
    requires n <= |rows|
  {
    prunable == amount - Total(rows[..n]) && forall k :: 0 <= k < n ==> Total(rows[..k]) < amount
  }

  lemma ProgressOn(rows: seq<Entry>, amount: int, n: nat, partition: seq<Entry>, k: nat, prunable: int)
    requires n + |partition| <= |rows| && k <= |partition| && rows[n..n + |partition|] == partition
    requires Progress(rows, amount, n, amount - Total(rows[..n]))
    requires Progress(partition, amount - Total(rows[..n]), k, prunable)
    ensures Progress(rows, amount, n + k, prunable)
    ensures Ids(rows[..n + k]) == Ids(rows[..n]) + Ids(partition[..k])
  {
    forall j | 0 <= j <= k
      ensures Total(rows[..n + j]) == Total(rows[..n]) + Total(partition[..j])
    {
      assert rows[..n + j] == rows[..n] + partition[..j];
      TotalConcat(rows[..n], partition[..j]);
    }
    forall j | 0 <= j < n + k
      ensures Total(rows[..j]) < amount
    {
      if j >= n {
        assert Total(partition[..j - n]) < amount - Total(rows[..n]);
        assert Total(rows[..n + (j - n)]) == Total(rows[..n]) + Total(partition[..j - n]);
      }
    }
    assert rows[..n + k] == rows[..n] + partition[..k];
  }

  lemma ProgressEnds(rows: seq<Entry>, amount: int, n: nat, prunable: int)
    requires n <= |rows| && Progress(rows, amount, n, prunable) && (prunable <= 0 || n == |rows|)
    ensures n == Needed(rows, amount)
  {
    NeededIsShortest(rows, amount);
  }

  /** The inner loop: stops at the row before which enough has been deleted. */
  method PrunePartition(partition: seq<Entry>, amount: int, entries: map<string, Entry>)
    returns (prunable: int, left: map<string, Entry>, enough: bool)
    ensures
      var k := Needed(partition, amount);
      && Progress(partition, amount, k, prunable)
      && left == entries - Ids(partition[..k])
      && enough == (k < |partition|) && (enough ==> prunable <= 0)
  {
    prunable, left, enough := amount, entries, false;
    ghost var k: nat := 0;
    for i := 0 to |partition|
      invariant k == i && Progress(partition, amount, i, prunable)
      invariant left == entries - Ids(partition[..i])
      invariant !enough
    {
      if prunable <= 0 {
        enough := true;
        break;
      }
      var entry := partition[i];
      assert partition[..i + 1] == partition[..i] + [entry];
      assert partition[..i + 1][..i] == partition[..i];
      prunable := prunable - entry.size;
      left := left - {entry.id};
      k := k + 1;
    }
    ProgressEnds(partition, amount, k, prunable);
  }

  /** The first `n` rows are gone, and before each of them there was something left to prune. */
  ghost predicate Pruned(rows: seq<Entry>, amount: int, entries: map<string, Entry>, n: nat, prunable: int,
                         left: map<string, Entry>)
    requires n <= |rows|
  {
    Progress(rows, amount, n, prunable) && left == entries - Ids(rows[..n])
  }

  lemma PrunedOn(rows: seq<Entry>, amount: int, entries: map<string, Entry>, n: nat, before: int,
                 leftBefore: map<string, Entry>, partition: seq<Entry>, k: nat, prunable: int, left: map<string, Entry>)
    requires n + |partition| <= |rows| && k <= |partition| && rows[n..n + |partition|] == partition
    requires Pruned(rows, amount, entries, n, before, leftBefore)
    requires Progress(partition, before, k, prunable) && left == leftBefore - Ids(partition[..k])
    ensures Pruned(rows, amount, entries, n + k, prunable, left)
  {
    ProgressOn(rows, amount, n, partition, k, prunable);
    var a, b := Ids(rows[..n]), Ids(partition[..k]);
    assert entries - a - b == entries - (a + b);
  }

  /** The outer loop over the partitions of the stream. */
  method PruneRows(rows: seq<Entry>, amount: int, entries: map<string, Entry>, chunkSize: nat)
    returns (prunable: int, left: map<string, Entry>)
    requires chunkSize > 0
    ensures prunable == amount - Total(rows[..Needed(rows, amount)])
    ensures left == entries - Ids(rows[..Needed(rows, amount)])
  {
    prunable, left := amount, entries;
    ghost var n: nat := 0;
    var from := 0;
    var enough := false;
    while from < |rows| && !enough
      invariant 0 <= from <= |rows| && n <= |rows|
      invariant if enough then prunable <= 0 else n == from
      invariant Pruned(rows, amount, entries, n, prunable, left)
      decreases |rows| - from
    {
      var partition := Partition(rows, from, chunkSize);
      ghost var k: nat, before, leftBefore := Needed(partition, prunable), prunable, left;
      prunable, left, enough := PrunePartition(partition, prunable, left);
      PrunedOn(rows, amount, entries, n, before, leftBefore, partition, k, prunable, left);
      n := n + k;
      from := from + |partition|;
    }
    ProgressEnds(rows, amount, n, prunable);
  }

  lemma LeftOver(rows: seq<Entry>, n: nat, entries: map<string, Entry>)
    requires n <= |rows| && ListsRows(entries, rows)
    ensures ListsRows(entries - Ids(rows[..n]), rows[n..])
  {
    var left := entries - Ids(rows[..n]);
    forall i | 0 <= i < n
      ensures rows[i].id in Ids(rows[..n])
    {
      assert rows[..n][i] in rows[..n];
    }
    forall id
      ensures id in left <==> exists i :: 0 <= i < |rows[n..]| && rows[n..][i].id == id
    {
      if id in left {
        var i :| 0 <= i < |rows| && rows[i].id == id;
        assert rows[n..][i - n].id == id;
      }
      if exists i :: 0 <= i < |rows[n..]| && rows[n..][i].id == id {
        var i :| 0 <= i < |rows[n..]| && rows[n..][i].id == id;
        assert rows[n + i].id == id && id in entries;
      }
    }
  }

  lemma TotalSplit(rows: seq<Entry>, k: nat)
    requires k <= |rows|
    ensures Total(rows) == Total(rows[..k]) + Total(rows[k..])
  {
    assert rows == rows[..k] + rows[k..];
    TotalConcat(rows[..k], rows[k..]);
  }

  /** What remains is no more than the bytes to keep, if the measured size is that of the rows; with one row less
      deleted it would be more. */
  lemma RemainderFits(rows: seq<Entry>, minPruningBytes: nat)
    ensures
      var n := Needed(rows, Total(rows) - minPruningBytes);
      Total(rows[n..]) <= minPruningBytes && (n > 0 ==> Total(rows[n - 1..]) > minPruningBytes)
  {
    var n := Needed(rows, Total(rows) - minPruningBytes);
    NeededIsShortest(rows, Total(rows) - minPruningBytes);
    TotalSplit(rows, n);
    if n > 0 {
      TotalSplit(rows, n - 1);
    }
  }
}
