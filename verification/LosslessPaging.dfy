/** Exactly which data paging returns completely, and which without repetition. (src/metadata.py) */
module LosslessPaging {
  import opened Common
  import opened Paging
  import opened CursorTrail

  /** The cursor made from a row keeps exactly the rows that come after it. */
  ghost predicate CursorsKeepRest(view: seq<Row>, desc: bool) {
    forall i, q :: 0 <= i < |view| && 0 <= q < |view| ==>
      (AfterCursor(view[i].key, Some(CursorOf(view[q].key)), desc) <==> q < i)
  }

  /** The cursor made from a row keeps neither that row nor one before it. */
  ghost predicate CursorsLeadOn(view: seq<Row>, desc: bool) {
    forall i, q :: 0 <= i <= q < |view| ==> !AfterCursor(view[i].key, Some(CursorOf(view[q].key)), desc)
  }

  /** The cursor of the row before position `p`. */
  predicate StartsAt(view: seq<Row>, p: nat, cursor: Option<Key>) {
    p <= |view| && cursor == if p == 0 then None else Some(CursorOf(view[p - 1].key))
  }

  /** A client that asks for pages of the given limit gets all accepted rows, in order and once, unless some request
      returns nothing with accepted rows ahead. */
  ghost predicate ReturnsAllAt(view: seq<Row>, cfgs: seq<FindingCfg>, desc: bool, limit: int) {
    var size, batch := PageSize(limit), RawBatch(limit);
    var t := Follow(view, cfgs, desc, size, batch, None);
    NoneReturnsNothing(view, cfgs, desc, size, batch, t.requests) ==> t.items == AcceptedRows(view, cfgs)
  }

  /** Whatever is accepted and whatever the limit. */
  ghost predicate ReturnsAll(view: seq<Row>, desc: bool) {
    forall cfgs, limit :: ReturnsAllAt(view, cfgs, desc, limit)
  }

  /** Whatever is accepted and whatever the page sizes, the rows come in order, so none comes twice. */
  ghost predicate ReturnsInOrder(view: seq<Row>, desc: bool) {
    forall cfgs, size: nat, batch: nat :: 0 < size && 0 < batch ==>
      InOrder(Follow(view, cfgs, desc, size, batch, None).items, desc)
  }

  // ---------------------------------------------------------------- what suffices

  lemma SeeksFrom(view: seq<Row>, desc: bool, p: nat, cursor: Option<Key>)
    requires CursorsLeadOn(view, desc) && StartsAt(view, p, cursor)
    ensures Seek(view, cursor, desc) == Seek(view[p..], cursor, desc)
  {
    SeekSkips(view, cursor, desc, p);
  }

  lemma SeeksRest(view: seq<Row>, desc: bool, p: nat, cursor: Option<Key>)
    requires CursorsKeepRest(view, desc) && StartsAt(view, p, cursor)
    ensures Seek(view, cursor, desc) == view[p..]
  {
    SeeksFrom(view, desc, p, cursor);
    forall i | 0 <= i < |view[p..]|
      ensures AfterCursor(view[p..][i].key, cursor, desc)
    {
      assert view[p..][i] == view[p + i];
    }
    SeekAll(view[p..], cursor, desc);
  }

  lemma SeeksNext(view: seq<Row>, desc: bool, p: nat, cursor: Option<Key>, n: nat)
    requires CursorsKeepRest(view, desc) && StartsAt(view, p, cursor) && 0 < n <= |Seek(view, cursor, desc)|
    ensures p + n <= |view| && Seek(view, cursor, desc)[..n] == view[p..p + n]
    ensures Seek(view, cursor, desc)[n - 1] == view[p + n - 1]
  {
    SeeksRest(view, desc, p, cursor);
  }

  /** A round reads the next `n` rows. */
  lemma RoundReadsNext(view: seq<Row>, cfgs: seq<FindingCfg>, desc: bool, size: nat, batch: nat, from: nat, p: nat,
                       cursor: Option<Key>, found: seq<Row>, n: nat, all: seq<Row>, next: Key)
    requires CursorsKeepRest(view, desc) && StartsAt(view, p, cursor) && |found| < size
    requires from <= p && found == AcceptedRows(view[from..p], cfgs)
    requires RoundEndsAt(view, cfgs, desc, size, batch, cursor, found, n, all, next)
    ensures 0 < n && p + n <= |view| && StartsAt(view, p + n, Some(next))
    ensures all == AcceptedRows(view[from..p + n], cfgs)
  {
    var q := p + n;
    SeeksNext(view, desc, p, cursor, n);
    assert all == found + AcceptedRows(view[p..q], cfgs);
    AcceptedBetween(view, cfgs, from, p, q);
  }

  /** The items are the accepted rows from position `from` up to the row the cursor is made from, or up to the end;
      without a cursor there may be none. */
  ghost predicate IsStretch(view: seq<Row>, cfgs: seq<FindingCfg>, from: nat, m: nat, items: seq<Row>,
                            next: Option<Key>)
  {
    from <= m <= |view| &&
    if next.Some? then from < m && StartsAt(view, m, next) && items == AcceptedRows(view[from..m], cfgs)
    else items == [] || items == AcceptedRows(view[from..], cfgs)
  }

  ghost predicate ReturnsStretch(view: seq<Row>, cfgs: seq<FindingCfg>, from: nat, items: seq<Row>, next: Option<Key>) {
    exists m: nat :: IsStretch(view, cfgs, from, m, items, next)
  }

  /** The request has found the accepted rows from position `from` up to its cursor's. */
  ghost predicate InStretch(view: seq<Row>, cfgs: seq<FindingCfg>, from: nat, cursor: Option<Key>, found: seq<Row>) {
    exists p: nat :: StartsAt(view, p, cursor) && from <= p && found == AcceptedRows(view[from..p], cfgs)
  }

  lemma LastRoundIsStretch(view: seq<Row>, cfgs: seq<FindingCfg>, from: nat, cursor: Option<Key>, found: seq<Row>)
    requires InStretch(view, cfgs, from, cursor, found)
    ensures ReturnsStretch(view, cfgs, from, found, if found != [] then cursor else None)
  {
    var p: nat :| StartsAt(view, p, cursor) && from <= p && found == AcceptedRows(view[from..p], cfgs);
    assert from == p ==> view[from..p] == [];
    assert IsStretch(view, cfgs, from, p, found, if found != [] then cursor else None);
  }

  lemma RoundStaysInStretch(view: seq<Row>, cfgs: seq<FindingCfg>, desc: bool, size: nat, batch: nat, from: nat,
                            cursor: Option<Key>, found: seq<Row>)
    requires CursorsKeepRest(view, desc) && 0 < batch && |found| < size
    requires InStretch(view, cfgs, from, cursor, found)
    ensures
      match Round(Query(view, cursor, desc, batch), cfgs, size, found)
      case (all, Exhausted) => ReturnsStretch(view, cfgs, from, all, None)
      case (all, Full(next)) => ReturnsStretch(view, cfgs, from, all, Some(next))
      case (all, GoOn(next)) => InStretch(view, cfgs, from, Some(next), all)
  {
    var p: nat :| StartsAt(view, p, cursor) && from <= p && found == AcceptedRows(view[from..p], cfgs);
    if Query(view, cursor, desc, batch) == [] {
      EndIsStretch(view, cfgs, desc, batch, from, p, cursor, found);
    } else {
      var n, all, next := RoundEnds(view, cfgs, desc, size, batch, cursor, found);
      RoundIsStretch(view, cfgs, desc, size, batch, from, p, cursor, found, n, all, next);
    }
  }

  lemma EndIsStretch(view: seq<Row>, cfgs: seq<FindingCfg>, desc: bool, batch: nat, from: nat, p: nat,
                     cursor: Option<Key>, found: seq<Row>)
    requires CursorsKeepRest(view, desc) && StartsAt(view, p, cursor) && from <= p && 0 < batch
    requires found == AcceptedRows(view[from..p], cfgs) && Query(view, cursor, desc, batch) == []
    ensures ReturnsStretch(view, cfgs, from, found, None)
  {
    SeeksRest(view, desc, p, cursor);
    assert view[from..p] == view[from..];
    assert IsStretch(view, cfgs, from, p, found, None);
  }

  lemma RoundIsStretch(view: seq<Row>, cfgs: seq<FindingCfg>, desc: bool, size: nat, batch: nat, from: nat, p: nat,
                       cursor: Option<Key>, found: seq<Row>, n: nat, all: seq<Row>, next: Key)
    requires CursorsKeepRest(view, desc) && StartsAt(view, p, cursor) && |found| < size
    requires from <= p && found == AcceptedRows(view[from..p], cfgs)
    requires RoundEndsAt(view, cfgs, desc, size, batch, cursor, found, n, all, next)
    ensures ReturnsStretch(view, cfgs, from, all, Some(next)) && InStretch(view, cfgs, from, Some(next), all)
  {
    RoundReadsNext(view, cfgs, desc, size, batch, from, p, cursor, found, n, all, next);
    assert IsStretch(view, cfgs, from, p + n, all, Some(next));
  }

  lemma ScanReturnsStretch(view: seq<Row>, cfgs: seq<FindingCfg>, desc: bool, size: nat, batch: nat, p: nat,
                           cursor: Option<Key>)
    requires CursorsKeepRest(view, desc) && StartsAt(view, p, cursor) && 0 < size && 0 < batch
    ensures
      var o := Scan(view, cfgs, desc, size, batch, cursor, MAX_ROUNDS, []);
      ReturnsStretch(view, cfgs, p, o.items, o.next)
  {
    var inv := (l: nat, c: Option<Key>, found: seq<Row>) => InStretch(view, cfgs, p, c, found);
    var good := (items: seq<Row>, next: Option<Key>) => ReturnsStretch(view, cfgs, p, items, next);
    forall l: nat, c, found | inv(l, c, found) && |found| < size
      ensures RoundKeeps(view, cfgs, desc, size, batch, inv, good, l, c, found)
    {
      if l > 0 {
        RoundStaysInStretch(view, cfgs, desc, size, batch, p, c, found);
      } else {
        LastRoundIsStretch(view, cfgs, p, c, found);
      }
    }
    assert view[p..p] == [];
    ScanInduction(view, cfgs, desc, size, batch, inv, good, MAX_ROUNDS, cursor, []);
  }

  /** A request that does not return nothing returns all that is accepted up to where the next one starts. */
  lemma RequestReturnsStretch(view: seq<Row>, cfgs: seq<FindingCfg>, desc: bool, size: nat, batch: nat, p: nat,
                              cursor: Option<Key>) returns (m: nat)
    requires CursorsKeepRest(view, desc) && StartsAt(view, p, cursor) && 0 < size && 0 < batch
    requires !ReturnsNothing(view, cfgs, desc, size, batch, cursor)
    ensures
      var o := Scan(view, cfgs, desc, size, batch, cursor, MAX_ROUNDS, []);
      if o.next.Some? then
        p < m && StartsAt(view, m, o.next) && AcceptedRows(view[p..], cfgs) == o.items + AcceptedRows(view[m..], cfgs)
      else o.items == AcceptedRows(view[p..], cfgs)
  {
    SeeksRest(view, desc, p, cursor);
    ScanReturnsStretch(view, cfgs, desc, size, batch, p, cursor);
    var o := Scan(view, cfgs, desc, size, batch, cursor, MAX_ROUNDS, []);
    m :| IsStretch(view, cfgs, p, m, o.items, o.next);
    AcceptedFrom(view, cfgs, p, m);
  }

  lemma AcceptedFrom(view: seq<Row>, cfgs: seq<FindingCfg>, p: nat, m: nat)
    requires p <= m <= |view|
    ensures AcceptedRows(view[p..], cfgs) == AcceptedRows(view[p..m], cfgs) + AcceptedRows(view[m..], cfgs)
  {
    AcceptedBetween(view, cfgs, p, m, |view|);
    assert view[p..|view|] == view[p..] && view[m..|view|] == view[m..];
  }

  /** From a position on, everything accepted is returned. */
  lemma {:induction false} RestIsReturned(view: seq<Row>, cfgs: seq<FindingCfg>, desc: bool, size: nat, batch: nat,
                                          p: nat, cursor: Option<Key>)
    requires CursorsKeepRest(view, desc) && StartsAt(view, p, cursor) && 0 < size && 0 < batch
    requires
      NoneReturnsNothing(view, cfgs, desc, size, batch, Follow(view, cfgs, desc, size, batch, cursor).requests)
    ensures Follow(view, cfgs, desc, size, batch, cursor).items == AcceptedRows(view[p..], cfgs)
    decreases |view| - p
  {
    var o := Scan(view, cfgs, desc, size, batch, cursor, MAX_ROUNDS, []);
    var rest := if o.next.Some? then Follow(view, cfgs, desc, size, batch, o.next).requests else [];
    FollowUnfolds(view, cfgs, desc, size, batch, cursor);
    FirstReturnsNothing(view, cfgs, desc, size, batch, cursor, rest);
    var m := RequestReturnsStretch(view, cfgs, desc, size, batch, p, cursor);
    if o.next.Some? {
      RestIsReturned(view, cfgs, desc, size, batch, m, o.next);
    }
  }

  // ---------------------------------------------------------------- what is needed

  lemma {:induction false} AllAreAccepted(rows: seq<Row>, n: nat)
    ensures AcceptedRows(rows, []) == rows && RowsFor(rows, [], n) == Min(n, |rows|)
  {
    if rows != [] {
      AllAreAccepted(rows[1..], if n > 0 then n - 1 else 0);
      assert Accepted(rows[0], []) && rows == [rows[0]] + rows[1..];
    }
  }

  /** A first page that ends with the row at position `q`. */
  lemma FirstPageTo(view: seq<Row>, desc: bool, q: nat)
    requires q < |view|
    ensures
      Follow(view, [], desc, q + 1, |view|, None).items ==
      view[..q + 1] + Follow(view, [], desc, q + 1, |view|, Some(CursorOf(view[q].key))).items
  {
    var size, batch: nat, next := q + 1, |view|, CursorOf(view[q].key);
    FirstRoundTo(view, desc, q);
    ScanUnfolds(view, [], desc, size, batch, None, MAX_ROUNDS, [], size, view[..size], next);
  }

  lemma FullRound(rows: seq<Row>, size: nat)
    requires 0 < size <= |rows|
    ensures Round(rows, [], size, []) == (rows[..size], Full(CursorOf(rows[size - 1].key)))
  {
    var none: seq<Row> := [];
    var n := RowsFor(rows, [], size - |none|);
    assert n == size by {
      AllAreAccepted(rows, size);
    }
    var items := none + AcceptedRows(rows[..n], []);
    assert items == rows[..size] by {
      AllAreAccepted(rows[..size], size);
    }
    assert rows != [] && |items| == size;
  }

  lemma FirstRoundTo(view: seq<Row>, desc: bool, q: nat)
    requires q < |view|
    ensures RoundEndsAt(view, [], desc, q + 1, |view|, None, [], q + 1, view[..q + 1], CursorOf(view[q].key))
  {
    var size := q + 1;
    assert Query(view, None, desc, |view|) == view == Seek(view, None, desc) by {
      SeekAll(view, None, desc);
    }
    FullRound(view, size);
    AllAreAccepted(view[..size], size);
    assert [] + view[..size] == view[..size];
  }

  /** If everything is accepted, a request returns something as long as there is something ahead. */
  lemma NeverReturnsNothing(view: seq<Row>, desc: bool, size: nat, batch: nat, cursor: Option<Key>)
    requires 0 < size && 0 < batch && Seek(view, cursor, desc) != []
    ensures
      var items := Scan(view, [], desc, size, batch, cursor, MAX_ROUNDS, []).items;
      items != [] && items[0] == Seek(view, cursor, desc)[0]
  {
    var n, all, next := RoundEnds(view, [], desc, size, batch, cursor, []);
    AllAreAccepted(Seek(view, cursor, desc)[..n], 0);
    assert all == Seek(view, cursor, desc)[..n];
    ScanUnfolds(view, [], desc, size, batch, cursor, MAX_ROUNDS, [], n, all, next);
    if |all| < size {
      ScanExtendsFound(view, [], desc, size, batch, Some(next), MAX_ROUNDS - 1, all);
    }
  }

  lemma ScanExtendsFound(view: seq<Row>, cfgs: seq<FindingCfg>, desc: bool, size: nat, batch: nat,
                         cursor: Option<Key>, rounds: nat, found: seq<Row>)
    requires 0 < batch && |found| < size
    ensures found <= Scan(view, cfgs, desc, size, batch, cursor, rounds, found).items
  {
    var inv := (l: nat, c: Option<Key>, more: seq<Row>) => found <= more;
    var good := (items: seq<Row>, next: Option<Key>) => found <= items;
    forall l: nat, c, more | inv(l, c, more) && |more| < size
      ensures RoundKeeps(view, cfgs, desc, size, batch, inv, good, l, c, more)
    {
      RoundExtends(Query(view, c, desc, batch), cfgs, size, more);
    }
    ScanInduction(view, cfgs, desc, size, batch, inv, good, rounds, cursor, found);
  }

  lemma RoundExtends(rows: seq<Row>, cfgs: seq<FindingCfg>, size: nat, found: seq<Row>)
    requires |found| < size
    ensures found <= Round(rows, cfgs, size, found).0
  {
  }

  lemma {:induction false} AcceptedMembers(rows: seq<Row>, cfgs: seq<FindingCfg>, r: Row)
    ensures r in AcceptedRows(rows, cfgs) <==> r in rows && Accepted(r, cfgs)
  {
    if rows != [] {
      AcceptedMembers(rows[1..], cfgs, r);
      assert r in rows <==> r == rows[0] || r in rows[1..];
    }
  }

  lemma RoundFindsAhead(view: seq<Row>, cfgs: seq<FindingCfg>, desc: bool, size: nat, batch: nat, cursor: Option<Key>,
                        found: seq<Row>, n: nat, all: seq<Row>, next: Key, r: Row)
    requires |found| < size && RoundEndsAt(view, cfgs, desc, size, batch, cursor, found, n, all, next)
    ensures r in all ==> r in found || r in Seek(view, cursor, desc)
    ensures r in Seek(view, Some(next), desc) ==> r in Seek(view, cursor, desc)
    ensures |Seek(view, Some(next), desc)| < |Seek(view, cursor, desc)|
  {
    var seen := Seek(view, cursor, desc);
    AcceptedMembers(seen[..n], cfgs, r);
    assert r in seen[..n] ==> r in seen;
    CursorAdvances(view, cursor, desc, seen[n - 1]);
    SeekMembers(view, cursor, desc, r);
    SeekMembers(view, Some(next), desc, r);
  }

  lemma FullRoundReturns(view: seq<Row>, cfgs: seq<FindingCfg>, desc: bool, size: nat, batch: nat, cursor: Option<Key>,
                         rounds: nat, found: seq<Row>, n: nat, all: seq<Row>, next: Key, r: Row)
    requires 0 < batch && |found| < size == |all| && rounds > 0
    requires RoundEndsAt(view, cfgs, desc, size, batch, cursor, found, n, all, next)
    requires r in Total(view, cfgs, desc, size, batch, cursor, rounds, found)
    ensures r in all || r in Total(view, cfgs, desc, size, batch, Some(next), MAX_ROUNDS, [])
  {
    TotalUnfolds(view, cfgs, desc, size, batch, cursor, rounds, found, n, all, next);
    FollowIsTotal(view, cfgs, desc, size, batch, Some(next));
  }

  lemma RoundReturns(view: seq<Row>, cfgs: seq<FindingCfg>, desc: bool, size: nat, batch: nat, cursor: Option<Key>,
                     rounds: nat, found: seq<Row>, n: nat, all: seq<Row>, next: Key, r: Row)
    requires 0 < batch && |found| < size && |all| < size && rounds > 0
    requires RoundEndsAt(view, cfgs, desc, size, batch, cursor, found, n, all, next)
    requires r in Total(view, cfgs, desc, size, batch, cursor, rounds, found)
    ensures r in Total(view, cfgs, desc, size, batch, Some(next), rounds - 1, all)
  {
    TotalUnfolds(view, cfgs, desc, size, batch, cursor, rounds, found, n, all, next);
  }

  /** On any data only rows ahead of the cursor are returned. */
  lemma {:induction false} ReturnsFromAhead(view: seq<Row>, cfgs: seq<FindingCfg>, desc: bool, size: nat, batch: nat,
                                            cursor: Option<Key>, rounds: nat, found: seq<Row>, r: Row)
    requires 0 < batch && |found| < size && r in Total(view, cfgs, desc, size, batch, cursor, rounds, found)
    ensures r in found || r in Seek(view, cursor, desc)
    decreases |Seek(view, cursor, desc)|, if found == [] then 0 else 1
  {
    if r in found {
    } else if rounds == 0 {
      FollowIsTotal(view, cfgs, desc, size, batch, cursor);
      ReturnsFromAhead(view, cfgs, desc, size, batch, cursor, MAX_ROUNDS, [], r);
    } else if Query(view, cursor, desc, batch) != [] {
      var n, all, next := RoundEnds(view, cfgs, desc, size, batch, cursor, found);
      RoundFindsAhead(view, cfgs, desc, size, batch, cursor, found, n, all, next, r);
      if |all| < size {
        RoundReturns(view, cfgs, desc, size, batch, cursor, rounds, found, n, all, next, r);
        ReturnsFromAhead(view, cfgs, desc, size, batch, Some(next), rounds - 1, all, r);
      } else if r !in all {
        FullRoundReturns(view, cfgs, desc, size, batch, cursor, rounds, found, n, all, next, r);
        ReturnsFromAhead(view, cfgs, desc, size, batch, Some(next), MAX_ROUNDS, [], r);
      }
    }
  }

  lemma {:induction false} FirstFound(view: seq<Row>, cursor: Option<Key>, desc: bool, i: nat) returns (j: nat)
    requires i < |view| && AfterCursor(view[i].key, cursor, desc)
    ensures j <= i && Seek(view, cursor, desc) != [] && Seek(view, cursor, desc)[0] == view[j]
  {
    if AfterCursor(view[0].key, cursor, desc) {
      j := 0;
    } else {
      j := FirstFound(view[1..], cursor, desc, i - 1);
      j := j + 1;
    }
  }

  lemma FollowStarts(view: seq<Row>, desc: bool, size: nat, batch: nat, cursor: Option<Key>)
    requires 0 < size && 0 < batch && Seek(view, cursor, desc) != []
    ensures
      var items := Follow(view, [], desc, size, batch, cursor).items;
      items != [] && items[0] == Seek(view, cursor, desc)[0]
  {
    NeverReturnsNothing(view, desc, size, batch, cursor);
    FollowIsTotal(view, [], desc, size, batch, cursor);
  }

  lemma ReturnedIsKept(view: seq<Row>, desc: bool, size: nat, batch: nat, cursor: Option<Key>, r: Row)
    requires 0 < size && 0 < batch && r in Follow(view, [], desc, size, batch, cursor).items
    ensures AfterCursor(r.key, cursor, desc)
  {
    FollowIsTotal(view, [], desc, size, batch, cursor);
    ReturnsFromAhead(view, [], desc, size, batch, cursor, MAX_ROUNDS, [], r);
    SeekMembers(view, cursor, desc, r);
  }

  /** A cursor after which exactly the following rows are returned keeps exactly these. */
  lemma RestReturnedIsKept(view: seq<Row>, desc: bool, size: nat, batch: nat, q: nat, i: nat)
    requires InOrder(view, desc) && q < |view| && i < |view| && 0 < size && 0 < batch
    requires Follow(view, [], desc, size, batch, Some(CursorOf(view[q].key))).items == view[q + 1..]
    ensures AfterCursor(view[i].key, Some(CursorOf(view[q].key)), desc) <==> q < i
  {
    var cursor := Some(CursorOf(view[q].key));
    if i > q {
      assert view[i] == view[q + 1..][i - q - 1];
      ReturnedIsKept(view, desc, size, batch, cursor, view[i]);
    } else if AfterCursor(view[i].key, cursor, desc) {
      LedBackIsReturned(view, desc, size, batch, q, i, cursor, view[q + 1..]);
    }
  }

  lemma LedBackIsReturned(view: seq<Row>, desc: bool, size: nat, batch: nat, q: nat, i: nat, cursor: Option<Key>,
                          rest: seq<Row>)
    requires InOrder(view, desc) && i <= q < |view| && 0 < size && 0 < batch && rest == view[q + 1..]
    requires AfterCursor(view[i].key, cursor, desc)
    ensures Follow(view, [], desc, size, batch, cursor).items != rest
  {
    var j := FirstFound(view, cursor, desc, i);
    FollowStarts(view, desc, size, batch, cursor);
    if rest != [] {
      FirstIsBehind(view, desc, q, j, rest);
    }
  }

  lemma FirstIsBehind(view: seq<Row>, desc: bool, q: nat, j: nat, rest: seq<Row>)
    requires InOrder(view, desc) && j <= q < |view| && rest == view[q + 1..] && rest != []
    ensures rest[0] != view[j]
  {
    assert Behind(view[q + 1].key, view[j].key, desc);
    SoonerIsOneWay(view[j].key, view[j].key);
  }

  lemma NothingAcceptedIsMissed(view: seq<Row>, desc: bool, size: nat, batch: nat, requests: seq<Option<Key>>)
    requires 0 < size && 0 < batch
    ensures NoneReturnsNothing(view, [], desc, size, batch, requests)
  {
    forall c | c in requests
      ensures !ReturnsNothing(view, [], desc, size, batch, c)
    {
      if Seek(view, c, desc) != [] {
        NeverReturnsNothing(view, desc, size, batch, c);
      }
    }
  }

  // ---------------------------------------------------------------- exactly when everything is returned

  /** If pages of one row return everything from a position on, they return everything after the first row. */
  lemma OneRowOn(view: seq<Row>, desc: bool, batch: nat, p: nat, cursor: Option<Key>)
    requires p < |view| && 0 < batch && Follow(view, [], desc, 1, batch, cursor).items == view[p..]
    ensures Follow(view, [], desc, 1, batch, Some(CursorOf(view[p].key))).items == view[p + 1..]
  {
    assert Query(view, cursor, desc, batch) != [];
    var n, all, next := RoundEnds(view, [], desc, 1, batch, cursor, []);
    AllAreAccepted(Seek(view, cursor, desc)[..n], 0);
    assert all == Seek(view, cursor, desc)[..n] && n == 1;
    ScanUnfolds(view, [], desc, 1, batch, cursor, MAX_ROUNDS, [], n, all, next);
    var rest := Follow(view, [], desc, 1, batch, Some(next)).items;
    assert view[p..] == all + rest;
    assert all[0] == view[p] && rest == view[p..][1..] == view[p + 1..];
  }

  lemma {:induction false} RowByRow(view: seq<Row>, desc: bool, batch: nat, p: nat, cursor: Option<Key>)
    requires StartsAt(view, p, cursor) && 0 < batch && Follow(view, [], desc, 1, batch, None).items == view
    ensures Follow(view, [], desc, 1, batch, cursor).items == view[p..]
    decreases p
  {
    if p == 0 {
      assert view[0..] == view;
    } else {
      var q := p - 1;
      var before := if q == 0 then None else Some(CursorOf(view[q - 1].key));
      RowByRow(view, desc, batch, q, before);
      OneRowOn(view, desc, batch, q, before);
    }
  }

  lemma RowByRowIsKept(view: seq<Row>, desc: bool, batch: nat, q: nat, i: nat)
    requires InOrder(view, desc) && q < |view| && i < |view| && 0 < batch
    requires Follow(view, [], desc, 1, batch, None).items == view
    ensures AfterCursor(view[i].key, Some(CursorOf(view[q].key)), desc) <==> q < i
  {
    RowByRow(view, desc, batch, q + 1, Some(CursorOf(view[q].key)));
    RestReturnedIsKept(view, desc, 1, batch, q, i);
  }

  lemma ReturnsAllRowByRow(view: seq<Row>, desc: bool)
    requires ReturnsAllAt(view, [], desc, 1)
    ensures Follow(view, [], desc, 1, RawBatch(1), None).items == view
  {
    assert PageSize(1) == 1;
    NothingAcceptedIsMissed(view, desc, 1, RawBatch(1), Follow(view, [], desc, 1, RawBatch(1), None).requests);
    AllAreAccepted(view, 0);
  }

  /** Sorted data, with any nulls, is returned completely for all filters and limits, short of a request that returns
      nothing, if and only if the cursor made from each row keeps exactly the rows after it. */
  lemma ReturnsAllIff(view: seq<Row>, desc: bool)
    requires InOrder(view, desc)
    ensures ReturnsAll(view, desc) <==> CursorsKeepRest(view, desc)
  {
    if CursorsKeepRest(view, desc) {
      forall cfgs, limit
        ensures ReturnsAllAt(view, cfgs, desc, limit)
      {
        KeepingRestReturnsAll(view, cfgs, desc, limit);
      }
    }
    if ReturnsAll(view, desc) {
      assert ReturnsAllAt(view, [], desc, 1);
      ReturningAllKeepsRest(view, desc);
    }
  }

  lemma ReturningAllKeepsRest(view: seq<Row>, desc: bool)
    requires InOrder(view, desc) && ReturnsAllAt(view, [], desc, 1)
    ensures CursorsKeepRest(view, desc)
  {
    ReturnsAllRowByRow(view, desc);
    forall i, q | 0 <= i < |view| && 0 <= q < |view|
      ensures AfterCursor(view[i].key, Some(CursorOf(view[q].key)), desc) <==> q < i
    {
      RowByRowIsKept(view, desc, RawBatch(1), q, i);
    }
  }

  lemma KeepingRestReturnsAll(view: seq<Row>, cfgs: seq<FindingCfg>, desc: bool, limit: int)
    requires CursorsKeepRest(view, desc)
    ensures ReturnsAllAt(view, cfgs, desc, limit)
  {
    var size, batch := PageSize(limit), RawBatch(limit);
    if NoneReturnsNothing(view, cfgs, desc, size, batch, Follow(view, cfgs, desc, size, batch, None).requests) {
      RestIsReturned(view, cfgs, desc, size, batch, 0, None);
      assert view[0..] == view;
    }
  }

  /** Where no cursor has a text in place of a null: everything is returned if and only if no null decides between a row
      and one after it. */
  lemma UnwrittenKeepsRestIff(view: seq<Row>, desc: bool)
    requires SortedView(view, desc)
    ensures
      CursorsKeepRest(view, desc) <==>
      forall q, i :: 0 <= q < i < |view| ==> !Undecided(view[q].key, view[i].key)
  {
    forall i, q | 0 <= i < |view| && 0 <= q < |view|
      ensures
        AfterCursor(view[i].key, Some(CursorOf(view[q].key)), desc) <==>
        q < i && !Undecided(view[q].key, view[i].key)
    {
      UnwrittenIsItsCursor(view[q].key);
      KeepsBehindIfDecided(view[i].key, view[q].key, desc);
      SoonerIsOneWay(view[i].key, view[q].key);
      assert i < q ==> Behind(view[q].key, view[i].key, desc);
      assert q < i ==> Behind(view[i].key, view[q].key, desc);
    }
  }

  // ---------------------------------------------------------------- exactly when nothing comes twice

  /** Rows of the view from position `a` up to `b`, in order. */
  ghost predicate OrderedWithin(rows: seq<Row>, view: seq<Row>, a: nat, b: nat, desc: bool) {
    a <= b <= |view| && InOrder(rows, desc) && forall r :: r in rows ==> r in view[a..b]
  }

  lemma OrderedConcat(xs: seq<Row>, ys: seq<Row>, view: seq<Row>, a: nat, b: nat, c: nat, desc: bool)
    requires InOrder(view, desc) && OrderedWithin(xs, view, a, b, desc) && OrderedWithin(ys, view, b, c, desc)
    ensures OrderedWithin(xs + ys, view, a, c, desc)
  {
    assert view[a..c] == view[a..b] + view[b..c];
    forall i, j | 0 <= i < j < |xs + ys|
      ensures Behind((xs + ys)[j].key, (xs + ys)[i].key, desc)
    {
      if i < |xs| <= j {
        assert xs[i] in view[a..b] && ys[j - |xs|] in view[b..c];
        var k :| 0 <= k < b - a && view[a..b][k] == xs[i];
        var l :| 0 <= l < c - b && view[b..c][l] == ys[j - |xs|];
        assert Behind(view[b + l].key, view[a + k].key, desc);
      }
    }
  }

  lemma {:induction false} AheadIsOrdered(view: seq<Row>, cfgs: seq<FindingCfg>, cursor: Option<Key>, desc: bool)
    requires InOrder(view, desc)
    ensures InOrder(Ahead(view, cfgs, cursor, desc), desc)
    ensures forall r :: r in Ahead(view, cfgs, cursor, desc) ==> r in view
  {
    if view != [] {
      var rest := Ahead(view[1..], cfgs, cursor, desc);
      assert forall i :: 0 <= i < |view[1..]| ==> view[1..][i] == view[i + 1];
      AheadIsOrdered(view[1..], cfgs, cursor, desc);
      AheadFirst(view, cfgs, cursor, desc);
      forall j | 0 <= j < |rest|
        ensures Behind(rest[j].key, view[0].key, desc)
      {
        assert rest[j] in view[1..];
        var i :| 0 <= i < |view[1..]| && view[1..][i] == rest[j];
        assert Behind(view[i + 1].key, view[0].key, desc);
      }
    }
  }

  lemma ReadIsOrdered(view: seq<Row>, cfgs: seq<FindingCfg>, desc: bool, p: nat, cursor: Option<Key>, n: nat)
    returns (q: nat)
    requires InOrder(view, desc) && CursorsLeadOn(view, desc) && StartsAt(view, p, cursor)
    requires 0 < n <= |Seek(view, cursor, desc)|
    ensures p <= q && StartsAt(view, q, Some(CursorOf(Seek(view, cursor, desc)[n - 1].key)))
    ensures OrderedWithin(AcceptedRows(Seek(view, cursor, desc)[..n], cfgs), view, p, q, desc)
  {
    SeeksFrom(view, desc, p, cursor);
    q := PassedTo(view, desc, p, cursor, n);
    AheadWithin(view, cfgs, cursor, desc, p, q);
  }

  lemma PassedTo(view: seq<Row>, desc: bool, p: nat, cursor: Option<Key>, n: nat) returns (q: nat)
    requires p <= |view| && 0 < n <= |Seek(view[p..], cursor, desc)|
    ensures p < q <= |view| && view[q - 1] == Seek(view[p..], cursor, desc)[n - 1]
    ensures Seek(view[p..], cursor, desc)[..n] == Seek(view[p..q], cursor, desc)
  {
    var rest := view[p..];
    PassedSplits(rest, cursor, desc, n);
    PassedEndsAt(rest, cursor, desc, n);
    var k := Passed(rest, cursor, desc, n);
    q := p + k;
    assert rest[k - 1] == view[q - 1] && rest[..k] == view[p..q];
  }

  lemma AheadWithin(view: seq<Row>, cfgs: seq<FindingCfg>, cursor: Option<Key>, desc: bool, p: nat, q: nat)
    requires InOrder(view, desc) && p <= q <= |view|
    ensures OrderedWithin(Ahead(view[p..q], cfgs, cursor, desc), view, p, q, desc)
  {
    var part := view[p..q];
    forall i, j | 0 <= i < j < |part|
      ensures Behind(part[j].key, part[i].key, desc)
    {
      assert Behind(view[p + j].key, view[p + i].key, desc);
    }
    AheadIsOrdered(part, cfgs, cursor, desc);
  }

  /** The request has found rows from position `from` up to its cursor's, in order. */
  ghost predicate InOrderSoFar(view: seq<Row>, desc: bool, from: nat, cursor: Option<Key>, found: seq<Row>) {
    exists p: nat :: StartsAt(view, p, cursor) && OrderedWithin(found, view, from, p, desc)
  }

  ghost predicate ReturnsOrdered(view: seq<Row>, desc: bool, from: nat, items: seq<Row>, next: Option<Key>) {
    exists m: nat :: OrderedWithin(items, view, from, m, desc) && (next.Some? ==> StartsAt(view, m, next))
  }

  lemma RoundStaysInOrder(view: seq<Row>, cfgs: seq<FindingCfg>, desc: bool, size: nat, batch: nat, from: nat,
                          cursor: Option<Key>, found: seq<Row>)
    requires InOrder(view, desc) && CursorsLeadOn(view, desc) && 0 < batch && |found| < size
    requires InOrderSoFar(view, desc, from, cursor, found)
    ensures
      match Round(Query(view, cursor, desc, batch), cfgs, size, found)
      case (all, Exhausted) => ReturnsOrdered(view, desc, from, all, None)
      case (all, Full(next)) => ReturnsOrdered(view, desc, from, all, Some(next))
      case (all, GoOn(next)) => InOrderSoFar(view, desc, from, Some(next), all)
  {
    var p: nat :| StartsAt(view, p, cursor) && OrderedWithin(found, view, from, p, desc);
    if Query(view, cursor, desc, batch) != [] {
      var n, all, next := RoundEnds(view, cfgs, desc, size, batch, cursor, found);
      RoundIsOrdered(view, cfgs, desc, size, batch, from, p, cursor, found, n, all, next);
    }
  }

  lemma RoundIsOrdered(view: seq<Row>, cfgs: seq<FindingCfg>, desc: bool, size: nat, batch: nat, from: nat, p: nat,
                       cursor: Option<Key>, found: seq<Row>, n: nat, all: seq<Row>, next: Key)
    requires InOrder(view, desc) && CursorsLeadOn(view, desc) && |found| < size
    requires StartsAt(view, p, cursor) && OrderedWithin(found, view, from, p, desc)
    requires RoundEndsAt(view, cfgs, desc, size, batch, cursor, found, n, all, next)
    ensures ReturnsOrdered(view, desc, from, all, Some(next)) && InOrderSoFar(view, desc, from, Some(next), all)
  {
    var q := ReadIsOrdered(view, cfgs, desc, p, cursor, n);
    OrderedConcat(found, AcceptedRows(Seek(view, cursor, desc)[..n], cfgs), view, from, p, q, desc);
    assert StartsAt(view, q, Some(next)) && OrderedWithin(all, view, from, q, desc);
  }

  lemma ScanReturnsOrdered(view: seq<Row>, cfgs: seq<FindingCfg>, desc: bool, size: nat, batch: nat, p: nat,
                           cursor: Option<Key>)
    requires InOrder(view, desc) && CursorsLeadOn(view, desc) && StartsAt(view, p, cursor) && 0 < size && 0 < batch
    ensures
      var o := Scan(view, cfgs, desc, size, batch, cursor, MAX_ROUNDS, []);
      ReturnsOrdered(view, desc, p, o.items, o.next)
  {
    var inv := (l: nat, c: Option<Key>, found: seq<Row>) => InOrderSoFar(view, desc, p, c, found);
    var good := (items: seq<Row>, next: Option<Key>) => ReturnsOrdered(view, desc, p, items, next);
    forall l: nat, c, found | inv(l, c, found) && |found| < size
      ensures RoundKeeps(view, cfgs, desc, size, batch, inv, good, l, c, found)
    {
      if l > 0 {
        RoundStaysInOrder(view, cfgs, desc, size, batch, p, c, found);
      }
    }
    assert OrderedWithin([], view, p, p, desc);
    ScanInduction(view, cfgs, desc, size, batch, inv, good, MAX_ROUNDS, cursor, []);
  }

  lemma {:induction false} FollowReturnsOrdered(view: seq<Row>, cfgs: seq<FindingCfg>, desc: bool, size: nat,
                                                batch: nat, p: nat, cursor: Option<Key>)
    requires InOrder(view, desc) && CursorsLeadOn(view, desc) && StartsAt(view, p, cursor) && 0 < size && 0 < batch
    ensures OrderedWithin(Follow(view, cfgs, desc, size, batch, cursor).items, view, p, |view|, desc)
    decreases |Seek(view, cursor, desc)|
  {
    var o := Scan(view, cfgs, desc, size, batch, cursor, MAX_ROUNDS, []);
    ScanReturnsOrdered(view, cfgs, desc, size, batch, p, cursor);
    var m: nat :| OrderedWithin(o.items, view, p, m, desc) && (o.next.Some? ==> StartsAt(view, m, o.next));
    if o.next.Some? {
      ScanAdvances(view, cfgs, desc, size, batch, cursor, MAX_ROUNDS, []);
      FollowReturnsOrdered(view, cfgs, desc, size, batch, m, o.next);
      OrderedConcat(o.items, Follow(view, cfgs, desc, size, batch, o.next).items, view, p, m, |view|, desc);
    } else {
      assert OrderedWithin([], view, m, |view|, desc);
      OrderedConcat(o.items, [], view, p, m, |view|, desc);
      assert o.items + [] == o.items;
    }
  }

  lemma LedBackIsOutOfOrder(view: seq<Row>, desc: bool, q: nat, i: nat)
    requires InOrder(view, desc) && i <= q < |view| && AfterCursor(view[i].key, Some(CursorOf(view[q].key)), desc)
    ensures !InOrder(Follow(view, [], desc, q + 1, |view|, None).items, desc)
  {
    var cursor := Some(CursorOf(view[q].key));
    var j := FirstFound(view, cursor, desc, i);
    FirstPageTo(view, desc, q);
    FollowStarts(view, desc, q + 1, |view|, cursor);
    OutOfOrder(view, desc, q, j, Follow(view, [], desc, q + 1, |view|, cursor).items);
  }

  lemma OutOfOrder(view: seq<Row>, desc: bool, q: nat, j: nat, rest: seq<Row>)
    requires InOrder(view, desc) && j <= q < |view| && rest != [] && rest[0] == view[j]
    ensures !InOrder(view[..q + 1] + rest, desc)
  {
    var items := view[..q + 1] + rest;
    assert items[q] == view[q] && items[q + 1] == view[j];
    SoonerIsOneWay(view[j].key, view[q].key);
    assert j < q ==> Behind(view[q].key, view[j].key, desc);
    assert !Behind(items[q + 1].key, items[q].key, desc);
  }

  /** Sorted data, with any nulls, is returned in order and without repetition for all filters and page sizes if and
      only if no cursor made from a row keeps that row or one before it. */
  lemma ReturnsInOrderIff(view: seq<Row>, desc: bool)
    requires InOrder(view, desc)
    ensures ReturnsInOrder(view, desc) <==> CursorsLeadOn(view, desc)
  {
    if CursorsLeadOn(view, desc) {
      forall cfgs, size: nat, batch: nat | 0 < size && 0 < batch
        ensures InOrder(Follow(view, cfgs, desc, size, batch, None).items, desc)
      {
        FollowReturnsOrdered(view, cfgs, desc, size, batch, 0, None);
      }
    }
    if ReturnsInOrder(view, desc) {
      forall i, q | 0 <= i <= q < |view|
        ensures !AfterCursor(view[i].key, Some(CursorOf(view[q].key)), desc)
      {
        if AfterCursor(view[i].key, Some(CursorOf(view[q].key)), desc) {
          LedBackIsOutOfOrder(view, desc, q, i);
        }
      }
    }
  }

  lemma {:induction false} LessThanCursorIsSooner(a: Key, b: Key)
    requires RowLess(a, CursorOf(b)) == True
    ensures Sooner(a, b)
  {
    if a[0].Val? && b[0].Val? && a[0].rank == b[0].rank {
      LessThanCursorIsSooner(a[1..], b[1..]);
    }
  }

  /** A cursor leads back only in ascending order and if it has a text in place of a null. */
  lemma LeadsBackOnlyByText(key: Key, k: Key, desc: bool)
    requires AfterCursor(key, Some(CursorOf(k)), desc)
    ensures Behind(key, k, desc) || (!desc && !Unwritten(k))
  {
    if desc {
      LessThanCursorIsSooner(key, k);
    } else if Unwritten(k) {
      UnwrittenIsItsCursor(k);
      KeepsBehindIfDecided(key, k, desc);
    }
  }

  /** In descending order nothing is returned twice, whatever nulls there are. */
  lemma DescendingReturnsInOrder(view: seq<Row>)
    requires InOrder(view, true)
    ensures ReturnsInOrder(view, true)
  {
    forall i, q | 0 <= i <= q < |view|
      ensures !AfterCursor(view[i].key, Some(CursorOf(view[q].key)), true)
    {
      SoonerIsOneWay(view[i].key, view[q].key);
      assert i < q ==> Behind(view[q].key, view[i].key, true);
      if AfterCursor(view[i].key, Some(CursorOf(view[q].key)), true) {
        LeadsBackOnlyByText(view[i].key, view[q].key, true);
      }
    }
    ReturnsInOrderIff(view, true);
  }
}
