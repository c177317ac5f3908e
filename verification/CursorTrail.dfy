/**
 Following the cursors of the search on any data, nulls in sort columns included: what a cursor keeps, and exactly when
 paging returns everything. (src/metadata.py)
 */
module CursorTrail {
  import opened Common
  import opened Paging

  // ---------------------------------------------------------------- what a cursor keeps

  /** How many leading cells agree and are not null. */
  function Deciding(a: Key, b: Key): (d: nat)
    ensures d <= |a| && d <= |b|
    ensures forall k :: 0 <= k < d ==> a[k] == b[k] && a[k].Val?
    ensures d < |a| && d < |b| ==> a[d].Null? || b[d].Null? || a[d].rank != b[d].rank
  {
    if a == [] || b == [] || a[0].Null? || b[0].Null? || a[0].rank != b[0].rank then 0
    else 1 + Deciding(a[1..], b[1..])
  }

  /** The first cell that differs or is null on either side is null. */
  predicate Undecided(a: Key, b: Key) {
    var d := Deciding(a, b);
    d < |a| && d < |b| && (a[d].Null? || b[d].Null?)
  }

  lemma {:induction false} RowLessExactly(a: Key, b: Key)
    ensures
      var d := Deciding(a, b);
      RowLess(a, b) == True <==> d < |a| && d < |b| && a[d].Val? && b[d].Val? && a[d].rank < b[d].rank
    ensures Undecided(a, b) <==> Undecided(b, a)
  {
    if Deciding(a, b) > 0 {
      RowLessExactly(a[1..], b[1..]);
    }
  }

  /** A cursor keeps a row exactly if the first cell that differs or is null on either side has a value on both, the
      row's on the far side. */
  lemma {:induction false} AfterCursorExactly(key: Key, c: Key, desc: bool)
    ensures
      var d := Deciding(key, c);
      AfterCursor(key, Some(c), desc) <==>
      && d < |key| && d < |c| && key[d].Val? && c[d].Val?
      && if desc then key[d].rank < c[d].rank else c[d].rank < key[d].rank
  {
    RowLessExactly(key, c);
    RowLessExactly(c, key);
    DecidingIsSymmetric(key, c);
  }

  lemma {:induction false} DecidingIsSymmetric(a: Key, b: Key)
    ensures Deciding(a, b) == Deciding(b, a)
  {
    if Deciding(a, b) > 0 {
      DecidingIsSymmetric(a[1..], b[1..]);
    }
  }

  /** The ascending order of the database: nulls rank above all values, as PostgreSQL sorts them, so they come last in
      ascending and first in descending order. */
  predicate Sooner(a: Key, b: Key) {
    if a == [] || b == [] then false
    else if a[0].Null? then b[0].Null? && Sooner(a[1..], b[1..])
    else b[0].Null? || a[0].rank < b[0].rank || (a[0].rank == b[0].rank && Sooner(a[1..], b[1..]))
  }

  /** In the order asked for, the key comes after the other. */
  predicate Behind(key: Key, c: Key, desc: bool) {
    if desc then Sooner(key, c) else Sooner(c, key)
  }

  lemma {:induction false} LessIffDecidedSooner(a: Key, b: Key)
    ensures RowLess(a, b) == True <==> Sooner(a, b) && !Undecided(a, b)
  {
    if Deciding(a, b) > 0 {
      LessIffDecidedSooner(a[1..], b[1..]);
    }
  }

  /** A cursor keeps exactly the rows behind it, except those which a null leaves undecided. */
  lemma {:induction false} KeepsBehindIfDecided(key: Key, c: Key, desc: bool)
    ensures AfterCursor(key, Some(c), desc) <==> Behind(key, c, desc) && !Undecided(c, key)
  {
    LessIffDecidedSooner(key, c);
    LessIffDecidedSooner(c, key);
    RowLessExactly(c, key);
  }

  lemma {:induction false} SoonerIsOneWay(a: Key, b: Key)
    ensures !(Sooner(a, b) && Sooner(b, a))
  {
    if a != [] && b != [] {
      SoonerIsOneWay(a[1..], b[1..]);
    }
  }

  // ---------------------------------------------------------------- cursors advance

  lemma {:induction false} CursorStaysAfter(key: Key, c: Key)
    ensures RowLess(c, key) == True ==> RowLess(c, CursorOf(key)) == True
    ensures RowLess(key, c) == True ==> RowLess(CursorOf(key), c) == True
  {
    if key != [] && c != [] {
      CursorStaysAfter(key[1..], c[1..]);
    }
  }

  lemma {:induction false} CursorPassesItsRow(key: Key)
    ensures RowLess(CursorOf(key), key) != True && RowLess(key, CursorOf(key)) != True
  {
    if key != [] {
      CursorPassesItsRow(key[1..]);
    }
  }

  /** On any view whatever, the cursor made from a row after a cursor keeps only rows after that cursor too, and not the
      row itself. */
  lemma CursorNarrows(row: Row, cursor: Option<Key>, desc: bool, other: Row)
    requires AfterCursor(row.key, cursor, desc)
    ensures AfterCursor(other.key, Some(CursorOf(row.key)), desc) ==> AfterCursor(other.key, cursor, desc)
    ensures !AfterCursor(row.key, Some(CursorOf(row.key)), desc)
  {
    CursorPassesItsRow(row.key);
    if cursor.Some? && AfterCursor(other.key, Some(CursorOf(row.key)), desc) {
      CursorStaysAfter(row.key, cursor.value);
      if desc {
        RowLessTransitive(other.key, CursorOf(row.key), cursor.value);
      } else {
        RowLessTransitive(cursor.value, CursorOf(row.key), other.key);
      }
    }
  }

  lemma {:induction false} SeekMembers(view: seq<Row>, cursor: Option<Key>, desc: bool, row: Row)
    ensures row in Seek(view, cursor, desc) <==> row in view && AfterCursor(row.key, cursor, desc)
  {
    if view != [] {
      SeekMembers(view[1..], cursor, desc, row);
      assert row in view <==> row == view[0] || row in view[1..];
    }
  }

  /** Every row after the one cursor is after the other. */
  ghost predicate Narrower(view: seq<Row>, cursor: Option<Key>, than: Option<Key>, desc: bool) {
    forall r :: r in view && AfterCursor(r.key, cursor, desc) ==> AfterCursor(r.key, than, desc)
  }

  lemma {:induction false} NarrowerSeeksFewer(view: seq<Row>, cursor: Option<Key>, than: Option<Key>, desc: bool)
    requires Narrower(view, cursor, than, desc)
    ensures |Seek(view, cursor, desc)| <= |Seek(view, than, desc)|
    ensures
      (exists r :: r in view && AfterCursor(r.key, than, desc) && !AfterCursor(r.key, cursor, desc)) ==>
        |Seek(view, cursor, desc)| < |Seek(view, than, desc)|
  {
    if view != [] {
      assert forall r :: r in view[1..] ==> r in view;
      NarrowerSeeksFewer(view[1..], cursor, than, desc);
      if r :| r in view && AfterCursor(r.key, than, desc) && !AfterCursor(r.key, cursor, desc) {
        assert r == view[0] || r in view[1..];
      }
    }
  }

  /** The cursor made from a row found leaves fewer rows to find. */
  lemma CursorAdvances(view: seq<Row>, cursor: Option<Key>, desc: bool, row: Row)
    requires row in Seek(view, cursor, desc)
    ensures Narrower(view, Some(CursorOf(row.key)), cursor, desc)
    ensures |Seek(view, Some(CursorOf(row.key)), desc)| < |Seek(view, cursor, desc)|
  {
    SeekMembers(view, cursor, desc, row);
    forall r: Row
      ensures AfterCursor(r.key, Some(CursorOf(row.key)), desc) ==> AfterCursor(r.key, cursor, desc)
    {
      CursorNarrows(row, cursor, desc, r);
    }
    CursorNarrows(row, cursor, desc, row);
    NarrowerSeeksFewer(view, Some(CursorOf(row.key)), cursor, desc);
  }

  /** A round that reads rows: what it has found then, and where it ends. */
  ghost predicate RoundEndsAt(view: seq<Row>, cfgs: seq<FindingCfg>, desc: bool, size: nat, batch: nat,
                              cursor: Option<Key>, found: seq<Row>, n: nat, all: seq<Row>, next: Key)
    requires |found| < size
  {
    && 0 < n <= |Seek(view, cursor, desc)| && next == CursorOf(Seek(view, cursor, desc)[n - 1].key)
    && all == found + AcceptedRows(Seek(view, cursor, desc)[..n], cfgs) && |all| <= size
    && Round(Query(view, cursor, desc, batch), cfgs, size, found) ==
       (all, if |all| == size then Full(next) else GoOn(next))
  }

  lemma RoundEnds(view: seq<Row>, cfgs: seq<FindingCfg>, desc: bool, size: nat, batch: nat, cursor: Option<Key>,
                  found: seq<Row>) returns (n: nat, all: seq<Row>, next: Key)
    requires 0 < batch && |found| < size && Query(view, cursor, desc, batch) != []
    ensures RoundEndsAt(view, cfgs, desc, size, batch, cursor, found, n, all, next)
  {
    var seen, rows := Seek(view, cursor, desc), Query(view, cursor, desc, batch);
    n := RowsFor(rows, cfgs, size - |found|);
    assert n > 0 && rows[..n] == seen[..n] && rows[n - 1] == seen[n - 1];
    all, next := found + AcceptedRows(rows[..n], cfgs), CursorOf(rows[n - 1].key);
    assert |all| <= size by {
      RowsForCounts(rows, cfgs, size - |found|);
    }
  }

  lemma ScanUnfolds(view: seq<Row>, cfgs: seq<FindingCfg>, desc: bool, size: nat, batch: nat, cursor: Option<Key>,
                    rounds: nat, found: seq<Row>, n: nat, all: seq<Row>, next: Key)
    requires 0 < batch && |found| < size && rounds > 0
    requires RoundEndsAt(view, cfgs, desc, size, batch, cursor, found, n, all, next)
    ensures
      Scan(view, cfgs, desc, size, batch, cursor, rounds, found) ==
      if |all| == size then Outcome(all, Some(next), [next])
      else
        var rest := Scan(view, cfgs, desc, size, batch, Some(next), rounds - 1, all);
        Outcome(rest.items, rest.next, [next] + rest.made)
  {
  }

  lemma {:induction false} ScanAdvances(view: seq<Row>, cfgs: seq<FindingCfg>, desc: bool, size: nat, batch: nat,
                                        cursor: Option<Key>, rounds: nat, found: seq<Row>)
    requires 0 < batch && |found| < size
    ensures
      var next := Scan(view, cfgs, desc, size, batch, cursor, rounds, found).next;
      next.Some? ==>
        && |Seek(view, next, desc)| <= |Seek(view, cursor, desc)|
        && (found == [] ==> |Seek(view, next, desc)| < |Seek(view, cursor, desc)|)
    decreases rounds
  {
    if rounds > 0 && Query(view, cursor, desc, batch) != [] {
      var n, all, next := RoundEnds(view, cfgs, desc, size, batch, cursor, found);
      assert |Seek(view, Some(next), desc)| < |Seek(view, cursor, desc)| by {
        CursorAdvances(view, cursor, desc, Seek(view, cursor, desc)[n - 1]);
      }
      if |all| < size {
        ScanAdvances(view, cfgs, desc, size, batch, Some(next), rounds - 1, all);
      }
      ScanUnfolds(view, cfgs, desc, size, batch, cursor, rounds, found, n, all, next);
    }
  }

  /** What following the cursors returns, all cursors made on the way, and those the requests start with. */
  datatype Trail = Trail(items: seq<Row>, made: seq<Key>, requests: seq<Option<Key>>)

  /** Requests from a cursor on, until one returns no cursor: on any data each has fewer rows ahead than the one before,
      so this ends. */
  function Follow(view: seq<Row>, cfgs: seq<FindingCfg>, desc: bool, size: nat, batch: nat, cursor: Option<Key>): Trail
    requires 0 < size && 0 < batch
    decreases |Seek(view, cursor, desc)|
  {
    var o := Scan(view, cfgs, desc, size, batch, cursor, MAX_ROUNDS, []);
    if o.next.None? then Trail(o.items, o.made, [cursor])
    else
      ScanAdvances(view, cfgs, desc, size, batch, cursor, MAX_ROUNDS, []);
      var rest := Follow(view, cfgs, desc, size, batch, o.next);
      Trail(o.items + rest.items, o.made + rest.made, [cursor] + rest.requests)
  }

  /** A client that asks for page after page. */
  method FollowCursors(view: seq<Row>, cfgs: seq<FindingCfg>, desc: bool, limit: int) returns (all: seq<Row>)
    ensures all == Follow(view, cfgs, desc, PageSize(limit), RawBatch(limit), None).items
    ensures forall width :: Ordered(view, desc, width) ==>
              all == Walk(Pages(view, cfgs, PageSize(limit), RawBatch(limit)), 0)
  {
    ghost var size, batch := PageSize(limit), RawBatch(limit);
    ghost var whole := Follow(view, cfgs, desc, size, batch, None).items;
    FollowIsWholeWalk(view, cfgs, desc, size, batch);
    RequestFollows(view, cfgs, desc, size, batch, None);
    var cursor: Option<Key>;
    all, cursor := SearchPage(view, cfgs, desc, limit, None);
    while cursor.Some?
      invariant whole == all + Remaining(view, cfgs, desc, size, batch, cursor)
      decreases if cursor.Some? then |Seek(view, cursor, desc)| + 1 else 0
    {
      RequestFollows(view, cfgs, desc, size, batch, cursor);
      var items, next := SearchPage(view, cfgs, desc, limit, cursor);
      Associative(all, items, Remaining(view, cfgs, desc, size, batch, next));
      all := all + items;
      cursor := next;
    }
  }

  /** What the requests after one that has returned this cursor return. */
  function Remaining(view: seq<Row>, cfgs: seq<FindingCfg>, desc: bool, size: nat, batch: nat, next: Option<Key>)
    : seq<Row>
    requires 0 < size && 0 < batch
  {
    if next.None? then [] else Follow(view, cfgs, desc, size, batch, next).items
  }

  lemma RequestFollows(view: seq<Row>, cfgs: seq<FindingCfg>, desc: bool, size: nat, batch: nat, cursor: Option<Key>)
    requires 0 < size && 0 < batch
    ensures
      var o := Scan(view, cfgs, desc, size, batch, cursor, MAX_ROUNDS, []);
      && Follow(view, cfgs, desc, size, batch, cursor).items ==
         o.items + Remaining(view, cfgs, desc, size, batch, o.next)
      && (o.next.Some? ==> |Seek(view, o.next, desc)| < |Seek(view, cursor, desc)|)
  {
    ScanAdvances(view, cfgs, desc, size, batch, cursor, MAX_ROUNDS, []);
  }

  lemma FollowIsWholeWalk(view: seq<Row>, cfgs: seq<FindingCfg>, desc: bool, size: nat, batch: nat)
    requires 0 < size && 0 < batch
    ensures forall width :: Ordered(view, desc, width) ==>
              Follow(view, cfgs, desc, size, batch, None).items == Walk(Pages(view, cfgs, size, batch), 0)
  {
    forall width | Ordered(view, desc, width)
      ensures Follow(view, cfgs, desc, size, batch, None).items == Walk(Pages(view, cfgs, size, batch), 0)
    {
      assert Position(view, None, desc) == 0;
      FollowIsWalk(view, cfgs, desc, width, size, batch, None);
    }
  }

  /** On an ordered view without nulls this is the walk over its pages. */
  lemma {:induction false} FollowIsWalk(view: seq<Row>, cfgs: seq<FindingCfg>, desc: bool, width: nat, size: nat,
                                        batch: nat, cursor: Option<Key>)
    requires Ordered(view, desc, width) && FitsView(cursor, width) && 0 < size && 0 < batch
    ensures
      Follow(view, cfgs, desc, size, batch, cursor).items ==
      Walk(Pages(view, cfgs, size, batch), Position(view, cursor, desc))
    decreases |Seek(view, cursor, desc)|
  {
    var o := Scan(view, cfgs, desc, size, batch, cursor, MAX_ROUNDS, []);
    ScanIsPage(view, cfgs, desc, width, size, batch, cursor);
    var p := Position(view, cursor, desc);
    var page := PageAt(view, cfgs, size, batch, p);
    assert Pages(view, cfgs, size, batch)[p] == page;
    if page.next.Some? {
      ScanAdvances(view, cfgs, desc, size, batch, cursor, MAX_ROUNDS, []);
      CursorContinues(view, desc, width, page.next.value);
      FollowIsWalk(view, cfgs, desc, width, size, batch, o.next);
    }
  }

  // ---------------------------------------------------------------- sorted data with nulls

  /** The view is in the order asked for; ids are unique, so no two rows tie. */
  ghost predicate InOrder(view: seq<Row>, desc: bool) {
    forall i, j :: 0 <= i < j < |view| ==> Behind(view[j].key, view[i].key, desc)
  }

  /** No cursor made from the key has a text in place of a null. */
  predicate Unwritten(key: Key) {
    forall k :: 0 <= k < |key| ==> key[k].Null? ==> key[k].written.None?
  }

  lemma {:induction false} UnwrittenIsItsCursor(key: Key)
    requires Unwritten(key)
    ensures CursorOf(key) == key
  {
    if key != [] {
      assert forall k :: 0 <= k < |key[1..]| ==> key[1..][k] == key[k + 1];
      UnwrittenIsItsCursor(key[1..]);
    }
  }

  ghost predicate SortedView(view: seq<Row>, desc: bool) {
    InOrder(view, desc) && forall r :: r in view ==> Unwritten(r.key)
  }

  /** The cursor of a row in the view is in view: everything up to position `p` is done. */
  predicate At(view: seq<Row>, p: nat, cursor: Option<Key>) {
    p <= |view| && cursor == if p == 0 then None else Some(view[p - 1].key)
  }

  lemma {:induction false} SeekSkips(view: seq<Row>, cursor: Option<Key>, desc: bool, p: nat)
    requires p <= |view| && forall i :: 0 <= i < p ==> !AfterCursor(view[i].key, cursor, desc)
    ensures Seek(view, cursor, desc) == Seek(view[p..], cursor, desc)
  {
    if p > 0 {
      assert !AfterCursor(view[0].key, cursor, desc);
      assert forall i :: 0 <= i < p - 1 ==> view[1..][i] == view[i + 1];
      SeekSkips(view[1..], cursor, desc, p - 1);
      assert view[1..][p - 1..] == view[p..];
    }
  }

  /** No cursor leads back. */
  lemma SeeksAhead(view: seq<Row>, desc: bool, p: nat, cursor: Option<Key>)
    requires InOrder(view, desc) && At(view, p, cursor)
    ensures Seek(view, cursor, desc) == Seek(view[p..], cursor, desc)
  {
    forall i | 0 <= i < p
      ensures !AfterCursor(view[i].key, cursor, desc)
    {
      KeepsBehindIfDecided(view[i].key, view[p - 1].key, desc);
      SoonerIsOneWay(view[i].key, view[p - 1].key);
      assert i < p - 1 ==> Behind(view[p - 1].key, view[i].key, desc);
    }
    SeekSkips(view, cursor, desc, p);
  }

  /** How many rows of the view are passed to find `n` of them. */
  function Passed(view: seq<Row>, cursor: Option<Key>, desc: bool, n: nat): (k: nat)
    requires n <= |Seek(view, cursor, desc)|
    ensures k <= |view|
  {
    if n == 0 then 0
    else 1 + Passed(view[1..], cursor, desc, if AfterCursor(view[0].key, cursor, desc) then n - 1 else n)
  }

  lemma {:induction false} SeekConcat(xs: seq<Row>, ys: seq<Row>, cursor: Option<Key>, desc: bool)
    ensures Seek(xs + ys, cursor, desc) == Seek(xs, cursor, desc) + Seek(ys, cursor, desc)
  {
    if xs == [] {
      assert xs + ys == ys;
    } else {
      SeekConcat(xs[1..], ys, cursor, desc);
      assert (xs + ys)[1..] == xs[1..] + ys;
      Associative(if AfterCursor(xs[0].key, cursor, desc) then [xs[0]] else [], Seek(xs[1..], cursor, desc),
                  Seek(ys, cursor, desc));
    }
  }

  lemma {:induction false} PassedCounts(view: seq<Row>, cursor: Option<Key>, desc: bool, n: nat)
    requires n <= |Seek(view, cursor, desc)|
    ensures |Seek(view[..Passed(view, cursor, desc, n)], cursor, desc)| == n
  {
    if n > 0 {
      var m := if AfterCursor(view[0].key, cursor, desc) then n - 1 else n;
      PassedCounts(view[1..], cursor, desc, m);
      var k := Passed(view[1..], cursor, desc, m);
      assert view[..k + 1][1..] == view[1..][..k];
    }
  }

  lemma PassedSplits(view: seq<Row>, cursor: Option<Key>, desc: bool, n: nat)
    requires n <= |Seek(view, cursor, desc)|
    ensures Seek(view[..Passed(view, cursor, desc, n)], cursor, desc) == Seek(view, cursor, desc)[..n]
    ensures Seek(view[Passed(view, cursor, desc, n)..], cursor, desc) == Seek(view, cursor, desc)[n..]
  {
    var k := Passed(view, cursor, desc, n);
    PassedCounts(view, cursor, desc, n);
    SeekConcat(view[..k], view[k..], cursor, desc);
    assert view == view[..k] + view[k..];
  }

  lemma {:induction false} PassedEndsAt(view: seq<Row>, cursor: Option<Key>, desc: bool, n: nat)
    requires 0 < n <= |Seek(view, cursor, desc)|
    ensures
      var k := Passed(view, cursor, desc, n);
      k > 0 && view[k - 1] == Seek(view, cursor, desc)[n - 1]
  {
    var found := AfterCursor(view[0].key, cursor, desc);
    var m := if found then n - 1 else n;
    if m > 0 {
      PassedEndsAt(view[1..], cursor, desc, m);
    }
  }

  /** The accepted rows a cursor keeps. */
  function Ahead(view: seq<Row>, cfgs: seq<FindingCfg>, cursor: Option<Key>, desc: bool): seq<Row> {
    AcceptedRows(Seek(view, cursor, desc), cfgs)
  }

  lemma AheadFirst(view: seq<Row>, cfgs: seq<FindingCfg>, cursor: Option<Key>, desc: bool)
    requires view != []
    ensures
      Ahead(view, cfgs, cursor, desc) ==
      (if AfterCursor(view[0].key, cursor, desc) && Accepted(view[0], cfgs) then [view[0]] else [])
      + Ahead(view[1..], cfgs, cursor, desc)
  {
    var rest := Seek(view[1..], cursor, desc);
    if AfterCursor(view[0].key, cursor, desc) {
      assert ([view[0]] + rest)[1..] == rest;
    } else {
      assert Seek(view, cursor, desc) == rest;
    }
  }

  ghost predicate LosesNone(view: seq<Row>, cfgs: seq<FindingCfg>, cursor: Option<Key>, desc: bool) {
    forall r :: r in view && Accepted(r, cfgs) ==> AfterCursor(r.key, cursor, desc)
  }

  lemma {:induction false} AheadIfNoneLost(view: seq<Row>, cfgs: seq<FindingCfg>, cursor: Option<Key>, desc: bool)
    ensures LosesNone(view, cfgs, cursor, desc) ==> Ahead(view, cfgs, cursor, desc) == AcceptedRows(view, cfgs)
    ensures |Ahead(view, cfgs, cursor, desc)| <= |AcceptedRows(view, cfgs)|
    ensures !LosesNone(view, cfgs, cursor, desc) ==> |Ahead(view, cfgs, cursor, desc)| < |AcceptedRows(view, cfgs)|
  {
    if view != [] {
      AheadFirst(view, cfgs, cursor, desc);
      AheadIfNoneLost(view[1..], cfgs, cursor, desc);
      assert forall r :: r in view <==> r == view[0] || r in view[1..];
    }
  }

  lemma {:induction false} NarrowerIsAheadLess(view: seq<Row>, cfgs: seq<FindingCfg>, cursor: Option<Key>,
                                               than: Option<Key>, desc: bool)
    requires Narrower(view, cursor, than, desc)
    ensures |Ahead(view, cfgs, cursor, desc)| <= |Ahead(view, cfgs, than, desc)|
  {
    if view != [] {
      assert forall r :: r in view[1..] ==> r in view;
      AheadFirst(view, cfgs, cursor, desc);
      AheadFirst(view, cfgs, than, desc);
      NarrowerIsAheadLess(view[1..], cfgs, cursor, than, desc);
    }
  }

  /** Reading `n` rows from position `p` on leads to position `q` and the cursor of the last one. */
  ghost predicate Reads(view: seq<Row>, cfgs: seq<FindingCfg>, desc: bool, p: nat, cursor: Option<Key>, n: nat, q: nat,
                        next: Key)
    requires n <= |Seek(view, cursor, desc)|
  {
    && p < q <= |view| && At(view, q, Some(next))
    && Ahead(view, cfgs, cursor, desc) ==
       AcceptedRows(Seek(view, cursor, desc)[..n], cfgs) + Ahead(view[q..], cfgs, cursor, desc)
    && Ahead(view, cfgs, Some(next), desc) == Ahead(view[q..], cfgs, Some(next), desc)
    && |Ahead(view[q..], cfgs, Some(next), desc)| <= |Ahead(view[q..], cfgs, cursor, desc)|
    && |Seek(view, Some(next), desc)| < |Seek(view, cursor, desc)|
  }

  lemma ReadsTo(view: seq<Row>, desc: bool, p: nat, cursor: Option<Key>, n: nat) returns (q: nat)
    requires SortedView(view, desc) && At(view, p, cursor) && 0 < n <= |Seek(view, cursor, desc)|
    ensures p < q <= |view| && view[q - 1] == Seek(view, cursor, desc)[n - 1]
    ensures Seek(view[q..], cursor, desc) == Seek(view, cursor, desc)[n..]
  {
    SeeksAhead(view, desc, p, cursor);
    var rest := view[p..];
    PassedSplits(rest, cursor, desc, n);
    PassedEndsAt(rest, cursor, desc, n);
    var k := Passed(rest, cursor, desc, n);
    q := p + k;
    assert rest[k..] == view[q..] && rest[k - 1] == view[q - 1];
  }

  lemma CursorReadsOn(view: seq<Row>, cfgs: seq<FindingCfg>, desc: bool, cursor: Option<Key>, q: nat)
    requires SortedView(view, desc) && 0 < q <= |view| && view[q - 1] in Seek(view, cursor, desc)
    ensures
      var next := Some(CursorOf(view[q - 1].key));
      && At(view, q, next) && Ahead(view, cfgs, next, desc) == Ahead(view[q..], cfgs, next, desc)
      && |Ahead(view[q..], cfgs, next, desc)| <= |Ahead(view[q..], cfgs, cursor, desc)|
      && |Seek(view, next, desc)| < |Seek(view, cursor, desc)|
  {
    var row := view[q - 1];
    UnwrittenIsItsCursor(row.key);
    SeeksAhead(view, desc, q, Some(row.key));
    CursorAdvances(view, cursor, desc, row);
    assert forall r :: r in view[q..] ==> r in view;
    NarrowerIsAheadLess(view[q..], cfgs, Some(row.key), cursor, desc);
  }

  lemma ReadsOn(view: seq<Row>, cfgs: seq<FindingCfg>, desc: bool, p: nat, cursor: Option<Key>, n: nat) returns (q: nat)
    requires SortedView(view, desc) && At(view, p, cursor) && 0 < n <= |Seek(view, cursor, desc)|
    ensures Reads(view, cfgs, desc, p, cursor, n, q, CursorOf(Seek(view, cursor, desc)[n - 1].key))
  {
    var seen := Seek(view, cursor, desc);
    q := ReadsTo(view, desc, p, cursor, n);
    CursorReadsOn(view, cfgs, desc, cursor, q);
    assert AcceptedRows(seen, cfgs) == AcceptedRows(seen[..n], cfgs) + AcceptedRows(seen[n..], cfgs) by {
      AcceptedConcat(seen[..n], seen[n..], cfgs);
      assert seen == seen[..n] + seen[n..];
    }
  }

  // ---------------------------------------------------------------- exactly when nothing is lost

  /** A request returns nothing although accepted rows are ahead of its cursor. */
  ghost predicate ReturnsNothing(view: seq<Row>, cfgs: seq<FindingCfg>, desc: bool, size: nat, batch: nat,
                                 cursor: Option<Key>)
    requires 0 < size && 0 < batch
  {
    && Scan(view, cfgs, desc, size, batch, cursor, MAX_ROUNDS, []).items == []
    && Ahead(view, cfgs, cursor, desc) != []
  }

  /** An accepted row behind the cursor is left undecided by a null. */
  ghost predicate LosesSome(view: seq<Row>, cfgs: seq<FindingCfg>, desc: bool, c: Key) {
    exists r :: r in view && Accepted(r, cfgs) && Behind(r.key, c, desc) && Undecided(c, r.key)
  }

  ghost predicate NoneLost(view: seq<Row>, cfgs: seq<FindingCfg>, desc: bool, made: seq<Key>) {
    forall c :: c in made ==> !LosesSome(view, cfgs, desc, c)
  }

  ghost predicate NoneReturnsNothing(view: seq<Row>, cfgs: seq<FindingCfg>, desc: bool, size: nat, batch: nat,
                                     requests: seq<Option<Key>>)
    requires 0 < size && 0 < batch
  {
    forall c :: c in requests ==> !ReturnsNothing(view, cfgs, desc, size, batch, c)
  }

  ghost predicate Smooth(view: seq<Row>, cfgs: seq<FindingCfg>, desc: bool, size: nat, batch: nat, t: Trail)
    requires 0 < size && 0 < batch
  {
    NoneReturnsNothing(view, cfgs, desc, size, batch, t.requests) && NoneLost(view, cfgs, desc, t.made)
  }

  /** The same for a request's outcome and all requests that follow. */
  ghost predicate SmoothOutcome(view: seq<Row>, cfgs: seq<FindingCfg>, desc: bool, size: nat, batch: nat,
                                cursor: Option<Key>, o: Outcome)
    requires 0 < size && 0 < batch
  {
    && (o.items == [] ==> Ahead(view, cfgs, cursor, desc) == [])
    && NoneLost(view, cfgs, desc, o.made)
    && (o.next.Some? ==> Smooth(view, cfgs, desc, size, batch, Follow(view, cfgs, desc, size, batch, o.next)))
  }

  ghost predicate SmoothFrom(view: seq<Row>, cfgs: seq<FindingCfg>, desc: bool, size: nat, batch: nat,
                             cursor: Option<Key>, rounds: nat, found: seq<Row>)
    requires 0 < batch && |found| < size
  {
    SmoothOutcome(view, cfgs, desc, size, batch, cursor, Scan(view, cfgs, desc, size, batch, cursor, rounds, found))
  }

  lemma SmoothConcat(view: seq<Row>, cfgs: seq<FindingCfg>, desc: bool, xs: seq<Key>, ys: seq<Key>)
    ensures NoneLost(view, cfgs, desc, xs + ys) <==> NoneLost(view, cfgs, desc, xs) && NoneLost(view, cfgs, desc, ys)
  {
    assert forall c :: c in xs + ys <==> c in xs || c in ys;
  }

  lemma FirstLoses(view: seq<Row>, cfgs: seq<FindingCfg>, desc: bool, c: Key, rest: seq<Key>)
    ensures
      NoneLost(view, cfgs, desc, [c] + rest) <==> !LosesSome(view, cfgs, desc, c) && NoneLost(view, cfgs, desc, rest)
  {
    assert forall d :: d in [c] + rest <==> d == c || d in rest;
  }

  lemma FirstReturnsNothing(view: seq<Row>, cfgs: seq<FindingCfg>, desc: bool, size: nat, batch: nat,
                            c: Option<Key>, rest: seq<Option<Key>>)
    requires 0 < size && 0 < batch
    ensures
      NoneReturnsNothing(view, cfgs, desc, size, batch, [c] + rest) <==>
      !ReturnsNothing(view, cfgs, desc, size, batch, c) && NoneReturnsNothing(view, cfgs, desc, size, batch, rest)
  {
    assert forall d :: d in [c] + rest <==> d == c || d in rest;
  }

  lemma FollowUnfolds(view: seq<Row>, cfgs: seq<FindingCfg>, desc: bool, size: nat, batch: nat, cursor: Option<Key>)
    requires 0 < size && 0 < batch
    ensures
      var o := Scan(view, cfgs, desc, size, batch, cursor, MAX_ROUNDS, []);
      var t := Follow(view, cfgs, desc, size, batch, cursor);
      if o.next.None? then t.made == o.made + [] && t.requests == [cursor] + []
      else
        var rest := Follow(view, cfgs, desc, size, batch, o.next);
        t.made == o.made + rest.made && t.requests == [cursor] + rest.requests
  {
  }

  lemma SmoothIsSmoothFrom(view: seq<Row>, cfgs: seq<FindingCfg>, desc: bool, size: nat, batch: nat,
                           cursor: Option<Key>)
    requires 0 < size && 0 < batch
    ensures
      Smooth(view, cfgs, desc, size, batch, Follow(view, cfgs, desc, size, batch, cursor)) <==>
      SmoothFrom(view, cfgs, desc, size, batch, cursor, MAX_ROUNDS, [])
  {
    var o := Scan(view, cfgs, desc, size, batch, cursor, MAX_ROUNDS, []);
    var none: Trail := Trail([], [], []);
    var rest := if o.next.Some? then Follow(view, cfgs, desc, size, batch, o.next) else none;
    FollowUnfolds(view, cfgs, desc, size, batch, cursor);
    SmoothConcat(view, cfgs, desc, o.made, rest.made);
    FirstReturnsNothing(view, cfgs, desc, size, batch, cursor, rest.requests);
  }

  /** What the request under way and all that follow return. */
  function Total(view: seq<Row>, cfgs: seq<FindingCfg>, desc: bool, size: nat, batch: nat, cursor: Option<Key>,
                 rounds: nat, found: seq<Row>): seq<Row>
    requires 0 < batch && |found| < size
  {
    var o := Scan(view, cfgs, desc, size, batch, cursor, rounds, found);
    o.items + if o.next.Some? then Follow(view, cfgs, desc, size, batch, o.next).items else []
  }

  lemma FollowIsTotal(view: seq<Row>, cfgs: seq<FindingCfg>, desc: bool, size: nat, batch: nat, cursor: Option<Key>)
    requires 0 < size && 0 < batch
    ensures
      Follow(view, cfgs, desc, size, batch, cursor).items ==
      Total(view, cfgs, desc, size, batch, cursor, MAX_ROUNDS, [])
  {
  }

  lemma {:induction false} ScanKeepsFound(view: seq<Row>, cfgs: seq<FindingCfg>, desc: bool, size: nat, batch: nat,
                                          cursor: Option<Key>, rounds: nat, found: seq<Row>)
    requires 0 < batch && |found| < size
    ensures |found| <= |Scan(view, cfgs, desc, size, batch, cursor, rounds, found).items|
    decreases rounds
  {
    if rounds > 0 {
      var (all, end) := Round(Query(view, cursor, desc, batch), cfgs, size, found);
      if end.GoOn? {
        ScanKeepsFound(view, cfgs, desc, size, batch, Some(end.scanCursor), rounds - 1, all);
      }
    }
  }

  lemma TotalUnfolds(view: seq<Row>, cfgs: seq<FindingCfg>, desc: bool, size: nat, batch: nat, cursor: Option<Key>,
                     rounds: nat, found: seq<Row>, n: nat, all: seq<Row>, next: Key)
    requires 0 < batch && |found| < size && rounds > 0 && |all| <= size
    requires RoundEndsAt(view, cfgs, desc, size, batch, cursor, found, n, all, next)
    ensures
      Total(view, cfgs, desc, size, batch, cursor, rounds, found) ==
      if |all| == size then all + Follow(view, cfgs, desc, size, batch, Some(next)).items
      else Total(view, cfgs, desc, size, batch, Some(next), rounds - 1, all)
  {
    ScanUnfolds(view, cfgs, desc, size, batch, cursor, rounds, found, n, all, next);
  }

  lemma FullRoundAdds(view: seq<Row>, cfgs: seq<FindingCfg>, desc: bool, size: nat, batch: nat, cursor: Option<Key>,
                      rounds: nat, found: seq<Row>, n: nat, all: seq<Row>, next: Key)
    requires 0 < batch && |found| < size == |all| && rounds > 0
    requires RoundEndsAt(view, cfgs, desc, size, batch, cursor, found, n, all, next)
    ensures
      |Total(view, cfgs, desc, size, batch, cursor, rounds, found)| ==
      |all| + |Total(view, cfgs, desc, size, batch, Some(next), MAX_ROUNDS, [])|
  {
    assert Total(view, cfgs, desc, size, batch, cursor, rounds, found) ==
           all + Follow(view, cfgs, desc, size, batch, Some(next)).items by {
      TotalUnfolds(view, cfgs, desc, size, batch, cursor, rounds, found, n, all, next);
    }
    FollowIsTotal(view, cfgs, desc, size, batch, Some(next));
  }

  lemma RoundAddsNothing(view: seq<Row>, cfgs: seq<FindingCfg>, desc: bool, size: nat, batch: nat,
                         cursor: Option<Key>, rounds: nat, found: seq<Row>, n: nat, all: seq<Row>, next: Key)
    requires 0 < batch && |found| < size && |all| < size && rounds > 0
    requires RoundEndsAt(view, cfgs, desc, size, batch, cursor, found, n, all, next)
    ensures
      |Total(view, cfgs, desc, size, batch, cursor, rounds, found)| ==
      |Total(view, cfgs, desc, size, batch, Some(next), rounds - 1, all)|
  {
    TotalUnfolds(view, cfgs, desc, size, batch, cursor, rounds, found, n, all, next);
  }

  lemma NoRoundAdds(view: seq<Row>, cfgs: seq<FindingCfg>, desc: bool, size: nat, batch: nat, cursor: Option<Key>,
                    found: seq<Row>)
    requires 0 < batch && |found| < size
    ensures
      |Total(view, cfgs, desc, size, batch, cursor, 0, found)| <=
      |found|
      + if found != [] && cursor.Some? then |Total(view, cfgs, desc, size, batch, cursor, MAX_ROUNDS, [])| else 0
  {
    FollowIsTotal(view, cfgs, desc, size, batch, cursor);
  }

  lemma RoundLeavesFewer(view: seq<Row>, cfgs: seq<FindingCfg>, desc: bool, size: nat, batch: nat, p: nat,
                         cursor: Option<Key>, found: seq<Row>, n: nat, all: seq<Row>, next: Key) returns (q: nat)
    requires SortedView(view, desc) && At(view, p, cursor) && |found| < size
    requires RoundEndsAt(view, cfgs, desc, size, batch, cursor, found, n, all, next)
    ensures At(view, q, Some(next)) && |Seek(view, Some(next), desc)| < |Seek(view, cursor, desc)|
    ensures |all| + |Ahead(view, cfgs, Some(next), desc)| <= |found| + |Ahead(view, cfgs, cursor, desc)|
  {
    q := ReadsOn(view, cfgs, desc, p, cursor, n);
  }

  /** No more is returned than there is ahead. */
  lemma {:induction false} TotalIsAtMost(view: seq<Row>, cfgs: seq<FindingCfg>, desc: bool, size: nat, batch: nat,
                                         p: nat, cursor: Option<Key>, rounds: nat, found: seq<Row>)
    requires SortedView(view, desc) && At(view, p, cursor) && 0 < batch && |found| < size
    ensures
      |Total(view, cfgs, desc, size, batch, cursor, rounds, found)| <= |found| + |Ahead(view, cfgs, cursor, desc)|
    decreases |Seek(view, cursor, desc)|, if found == [] then 0 else 1
  {
    if rounds == 0 {
      NoRoundAdds(view, cfgs, desc, size, batch, cursor, found);
      if found != [] && cursor.Some? {
        TotalIsAtMost(view, cfgs, desc, size, batch, p, cursor, MAX_ROUNDS, []);
      }
    } else if Query(view, cursor, desc, batch) != [] {
      var n, all, next := RoundEnds(view, cfgs, desc, size, batch, cursor, found);
      var q := RoundLeavesFewer(view, cfgs, desc, size, batch, p, cursor, found, n, all, next);
      if |all| == size {
        TotalIsAtMost(view, cfgs, desc, size, batch, q, Some(next), MAX_ROUNDS, []);
        FullRoundAdds(view, cfgs, desc, size, batch, cursor, rounds, found, n, all, next);
      } else {
        TotalIsAtMost(view, cfgs, desc, size, batch, q, Some(next), rounds - 1, all);
        RoundAddsNothing(view, cfgs, desc, size, batch, cursor, rounds, found, n, all, next);
      }
    }
  }

  lemma BehindCursor(view: seq<Row>, desc: bool, q: nat, r: Row)
    requires InOrder(view, desc) && 0 < q <= |view| && r in view
    ensures Behind(r.key, view[q - 1].key, desc) <==> r in view[q..]
  {
    if r in view[q..] {
      var j :| 0 <= j < |view[q..]| && view[q..][j] == r;
      assert view[q + j] == r && Behind(view[q + j].key, view[q - 1].key, desc);
    } else {
      assert r in view[..q] by {
        assert view == view[..q] + view[q..];
      }
      var i :| 0 <= i < q && view[i] == r;
      assert i < q - 1 ==> Behind(view[q - 1].key, view[i].key, desc);
      SoonerIsOneWay(view[i].key, view[q - 1].key);
    }
  }

  /** The cursor loses an accepted row exactly if one of those behind it is not kept. */
  lemma LosesSomeBehind(view: seq<Row>, cfgs: seq<FindingCfg>, desc: bool, q: nat)
    requires InOrder(view, desc) && 0 < q <= |view|
    ensures
      LosesSome(view, cfgs, desc, view[q - 1].key) <==> !LosesNone(view[q..], cfgs, Some(view[q - 1].key), desc)
  {
    var c := view[q - 1].key;
    forall r | r in view
      ensures r in view[q..] ==> (AfterCursor(r.key, Some(c), desc) <==> !Undecided(c, r.key))
      ensures Behind(r.key, c, desc) <==> r in view[q..]
    {
      BehindCursor(view, desc, q, r);
      KeepsBehindIfDecided(r.key, c, desc);
    }
    if r :| r in view[q..] && Accepted(r, cfgs) && !AfterCursor(r.key, Some(c), desc) {
      assert r in view;
    }
  }

  /** A cursor that loses an accepted row cannot be made up for. */
  lemma LossIsFinal(view: seq<Row>, cfgs: seq<FindingCfg>, desc: bool, size: nat, batch: nat, q: nat, next: Key,
                    rounds: nat, found: seq<Row>)
    requires SortedView(view, desc) && At(view, q, Some(next)) && q > 0 && 0 < batch && |found| < size
    requires Ahead(view, cfgs, Some(next), desc) == Ahead(view[q..], cfgs, Some(next), desc)
    requires !LosesNone(view[q..], cfgs, Some(next), desc)
    ensures
      Total(view, cfgs, desc, size, batch, Some(next), rounds, found) != found + AcceptedRows(view[q..], cfgs)
  {
    TotalIsAtMost(view, cfgs, desc, size, batch, q, Some(next), rounds, found);
    AheadIfNoneLost(view[q..], cfgs, Some(next), desc);
  }

  lemma FullRoundIsSmooth(view: seq<Row>, cfgs: seq<FindingCfg>, desc: bool, size: nat, batch: nat,
                          cursor: Option<Key>, rounds: nat, found: seq<Row>, n: nat, all: seq<Row>, next: Key)
    requires 0 < batch && |found| < size == |all| && rounds > 0
    requires RoundEndsAt(view, cfgs, desc, size, batch, cursor, found, n, all, next)
    ensures
      SmoothFrom(view, cfgs, desc, size, batch, cursor, rounds, found) <==>
      && !LosesSome(view, cfgs, desc, next)
      && Smooth(view, cfgs, desc, size, batch, Follow(view, cfgs, desc, size, batch, Some(next)))
  {
    ScanUnfolds(view, cfgs, desc, size, batch, cursor, rounds, found, n, all, next);
    assert next in [next];
  }

  lemma SmoothWithFirst(view: seq<Row>, cfgs: seq<FindingCfg>, desc: bool, size: nat, batch: nat, cursor: Option<Key>,
                        next: Key, rest: Outcome)
    requires 0 < size && 0 < batch
    requires rest.items == [] ==> Ahead(view, cfgs, cursor, desc) == Ahead(view, cfgs, Some(next), desc)
    ensures
      SmoothOutcome(view, cfgs, desc, size, batch, cursor, Outcome(rest.items, rest.next, [next] + rest.made)) <==>
      !LosesSome(view, cfgs, desc, next) && SmoothOutcome(view, cfgs, desc, size, batch, Some(next), rest)
  {
    FirstLoses(view, cfgs, desc, next, rest.made);
  }

  lemma RoundIsSmooth(view: seq<Row>, cfgs: seq<FindingCfg>, desc: bool, size: nat, batch: nat,
                      cursor: Option<Key>, rounds: nat, found: seq<Row>, n: nat, all: seq<Row>, next: Key)
    requires 0 < batch && |found| < size && |all| < size && rounds > 0
    requires RoundEndsAt(view, cfgs, desc, size, batch, cursor, found, n, all, next)
    requires all == [] ==> Ahead(view, cfgs, cursor, desc) == Ahead(view, cfgs, Some(next), desc)
    ensures
      SmoothFrom(view, cfgs, desc, size, batch, cursor, rounds, found) <==>
      && !LosesSome(view, cfgs, desc, next)
      && SmoothFrom(view, cfgs, desc, size, batch, Some(next), rounds - 1, all)
  {
    var rest := Scan(view, cfgs, desc, size, batch, Some(next), rounds - 1, all);
    ScanUnfolds(view, cfgs, desc, size, batch, cursor, rounds, found, n, all, next);
    ScanKeepsFound(view, cfgs, desc, size, batch, Some(next), rounds - 1, all);
    SmoothWithFirst(view, cfgs, desc, size, batch, cursor, next, rest);
  }

  /** What a round leaves for the ones after it, when nothing has been lost so far. */
  ghost predicate LeavesRest(view: seq<Row>, cfgs: seq<FindingCfg>, desc: bool, p: nat, cursor: Option<Key>,
                             found: seq<Row>, all: seq<Row>, next: Key, q: nat)
    requires p <= |view|
  {
    && q <= |view| && found + AcceptedRows(view[p..], cfgs) == all + AcceptedRows(view[q..], cfgs)
    && Ahead(view, cfgs, Some(next), desc) == Ahead(view[q..], cfgs, Some(next), desc)
    && (LosesSome(view, cfgs, desc, next) <==> !LosesNone(view[q..], cfgs, Some(next), desc))
    && (all == [] && !LosesSome(view, cfgs, desc, next) ==>
          Ahead(view, cfgs, cursor, desc) == Ahead(view, cfgs, Some(next), desc))
  }

  lemma RoundLeavesRest(view: seq<Row>, cfgs: seq<FindingCfg>, desc: bool, size: nat, batch: nat, p: nat,
                        cursor: Option<Key>, found: seq<Row>, n: nat, all: seq<Row>, next: Key, q: nat)
    requires SortedView(view, desc) && At(view, p, cursor) && |found| < size
    requires LosesNone(view[p..], cfgs, cursor, desc)
    requires RoundEndsAt(view, cfgs, desc, size, batch, cursor, found, n, all, next)
    requires Reads(view, cfgs, desc, p, cursor, n, q, next)
    ensures LeavesRest(view, cfgs, desc, p, cursor, found, all, next, q)
  {
    SeeksAhead(view, desc, p, cursor);
    AheadIfNoneLost(view[p..], cfgs, cursor, desc);
    assert view[q..] == view[p..][q - p..];
    assert LosesNone(view[q..], cfgs, cursor, desc);
    AheadIfNoneLost(view[q..], cfgs, cursor, desc);
    AheadIfNoneLost(view[q..], cfgs, Some(next), desc);
    LosesSomeBehind(view, cfgs, desc, q);
    var read := AcceptedRows(Seek(view, cursor, desc)[..n], cfgs);
    Associative(found, read, AcceptedRows(view[q..], cfgs));
  }

  /** With nothing lost so far, everything that is left gets returned exactly if nothing goes wrong from here on. */
  ghost predicate CompleteIffSmooth(view: seq<Row>, cfgs: seq<FindingCfg>, desc: bool, size: nat, batch: nat,
                                    p: nat, cursor: Option<Key>, rounds: nat, found: seq<Row>)
    requires 0 < batch && |found| < size && p <= |view|
  {
    Total(view, cfgs, desc, size, batch, cursor, rounds, found) == found + AcceptedRows(view[p..], cfgs) <==>
    SmoothFrom(view, cfgs, desc, size, batch, cursor, rounds, found)
  }

  lemma LossyFullRound(view: seq<Row>, cfgs: seq<FindingCfg>, desc: bool, size: nat, batch: nat, cursor: Option<Key>,
                       rounds: nat, found: seq<Row>, n: nat, all: seq<Row>, next: Key, q: nat)
    requires SortedView(view, desc) && At(view, q, Some(next)) && q > 0
    requires 0 < batch && |found| < size == |all| && rounds > 0
    requires RoundEndsAt(view, cfgs, desc, size, batch, cursor, found, n, all, next)
    requires Ahead(view, cfgs, Some(next), desc) == Ahead(view[q..], cfgs, Some(next), desc)
    requires !LosesNone(view[q..], cfgs, Some(next), desc)
    ensures Total(view, cfgs, desc, size, batch, cursor, rounds, found) != all + AcceptedRows(view[q..], cfgs)
  {
    var rest := Follow(view, cfgs, desc, size, batch, Some(next)).items;
    assert rest != AcceptedRows(view[q..], cfgs) by {
      FollowIsTotal(view, cfgs, desc, size, batch, Some(next));
      LossIsFinal(view, cfgs, desc, size, batch, q, next, MAX_ROUNDS, []);
    }
    TotalUnfolds(view, cfgs, desc, size, batch, cursor, rounds, found, n, all, next);
    SamePrefixCancels(all, rest, AcceptedRows(view[q..], cfgs));
  }

  lemma TotalStaysDifferent(view: seq<Row>, cfgs: seq<FindingCfg>, desc: bool, size: nat, batch: nat,
                            cursor: Option<Key>, rounds: nat, found: seq<Row>, n: nat, all: seq<Row>, next: Key,
                            other: seq<Row>)
    requires 0 < batch && |found| < size && |all| < size && rounds > 0
    requires RoundEndsAt(view, cfgs, desc, size, batch, cursor, found, n, all, next)
    requires Total(view, cfgs, desc, size, batch, Some(next), rounds - 1, all) != other
    ensures Total(view, cfgs, desc, size, batch, cursor, rounds, found) != other
  {
    TotalUnfolds(view, cfgs, desc, size, batch, cursor, rounds, found, n, all, next);
  }

  lemma LossyRound(view: seq<Row>, cfgs: seq<FindingCfg>, desc: bool, size: nat, batch: nat, cursor: Option<Key>,
                   rounds: nat, found: seq<Row>, n: nat, all: seq<Row>, next: Key, q: nat)
    requires SortedView(view, desc) && At(view, q, Some(next)) && q > 0
    requires 0 < batch && |found| < size && |all| < size && rounds > 0
    requires RoundEndsAt(view, cfgs, desc, size, batch, cursor, found, n, all, next)
    requires Ahead(view, cfgs, Some(next), desc) == Ahead(view[q..], cfgs, Some(next), desc)
    requires !LosesNone(view[q..], cfgs, Some(next), desc)
    ensures Total(view, cfgs, desc, size, batch, cursor, rounds, found) != all + AcceptedRows(view[q..], cfgs)
  {
    LossIsFinal(view, cfgs, desc, size, batch, q, next, rounds - 1, all);
    TotalStaysDifferent(view, cfgs, desc, size, batch, cursor, rounds, found, n, all, next,
                        all + AcceptedRows(view[q..], cfgs));
  }

  lemma FullRoundIsComplete(view: seq<Row>, cfgs: seq<FindingCfg>, desc: bool, size: nat, batch: nat,
                            cursor: Option<Key>, rounds: nat, found: seq<Row>, n: nat, all: seq<Row>, next: Key, q: nat)
    requires 0 < batch && |found| < size == |all| && rounds > 0 && q <= |view|
    requires RoundEndsAt(view, cfgs, desc, size, batch, cursor, found, n, all, next)
    requires !LosesSome(view, cfgs, desc, next)
    requires CompleteIffSmooth(view, cfgs, desc, size, batch, q, Some(next), MAX_ROUNDS, [])
    ensures
      Total(view, cfgs, desc, size, batch, cursor, rounds, found) == all + AcceptedRows(view[q..], cfgs) <==>
      SmoothFrom(view, cfgs, desc, size, batch, cursor, rounds, found)
  {
    var rest := Follow(view, cfgs, desc, size, batch, Some(next)).items;
    TotalUnfolds(view, cfgs, desc, size, batch, cursor, rounds, found, n, all, next);
    FullRoundIsSmooth(view, cfgs, desc, size, batch, cursor, rounds, found, n, all, next);
    FollowIsTotal(view, cfgs, desc, size, batch, Some(next));
    SmoothIsSmoothFrom(view, cfgs, desc, size, batch, Some(next));
    SamePrefixCancels(all, rest, AcceptedRows(view[q..], cfgs));
  }

  lemma RoundIsComplete(view: seq<Row>, cfgs: seq<FindingCfg>, desc: bool, size: nat, batch: nat,
                        cursor: Option<Key>, rounds: nat, found: seq<Row>, n: nat, all: seq<Row>, next: Key, q: nat)
    requires 0 < batch && |found| < size && |all| < size && rounds > 0 && q <= |view|
    requires RoundEndsAt(view, cfgs, desc, size, batch, cursor, found, n, all, next)
    requires !LosesSome(view, cfgs, desc, next)
    requires all == [] ==> Ahead(view, cfgs, cursor, desc) == Ahead(view, cfgs, Some(next), desc)
    requires CompleteIffSmooth(view, cfgs, desc, size, batch, q, Some(next), rounds - 1, all)
    ensures
      Total(view, cfgs, desc, size, batch, cursor, rounds, found) == all + AcceptedRows(view[q..], cfgs) <==>
      SmoothFrom(view, cfgs, desc, size, batch, cursor, rounds, found)
  {
    TotalUnfolds(view, cfgs, desc, size, batch, cursor, rounds, found, n, all, next);
    RoundIsSmooth(view, cfgs, desc, size, batch, cursor, rounds, found, n, all, next);
  }

  lemma LossIsNotSmooth(view: seq<Row>, cfgs: seq<FindingCfg>, desc: bool, size: nat, batch: nat,
                        cursor: Option<Key>, rounds: nat, found: seq<Row>, n: nat, all: seq<Row>, next: Key)
    requires 0 < batch && |found| < size && |all| <= size && rounds > 0
    requires RoundEndsAt(view, cfgs, desc, size, batch, cursor, found, n, all, next)
    requires LosesSome(view, cfgs, desc, next)
    ensures !SmoothFrom(view, cfgs, desc, size, batch, cursor, rounds, found)
  {
    ScanUnfolds(view, cfgs, desc, size, batch, cursor, rounds, found, n, all, next);
    assert Scan(view, cfgs, desc, size, batch, cursor, rounds, found).made[0] == next;
  }

  lemma NeitherAfterLoss(view: seq<Row>, cfgs: seq<FindingCfg>, desc: bool, size: nat, batch: nat, cursor: Option<Key>,
                         rounds: nat, found: seq<Row>, n: nat, all: seq<Row>, next: Key, q: nat)
    requires SortedView(view, desc) && At(view, q, Some(next)) && q > 0
    requires 0 < batch && |found| < size && rounds > 0
    requires RoundEndsAt(view, cfgs, desc, size, batch, cursor, found, n, all, next)
    requires Ahead(view, cfgs, Some(next), desc) == Ahead(view[q..], cfgs, Some(next), desc)
    requires !LosesNone(view[q..], cfgs, Some(next), desc) && LosesSome(view, cfgs, desc, next)
    ensures Total(view, cfgs, desc, size, batch, cursor, rounds, found) != all + AcceptedRows(view[q..], cfgs)
    ensures !SmoothFrom(view, cfgs, desc, size, batch, cursor, rounds, found)
  {
    if |all| == size {
      LossyFullRound(view, cfgs, desc, size, batch, cursor, rounds, found, n, all, next, q);
    } else {
      LossyRound(view, cfgs, desc, size, batch, cursor, rounds, found, n, all, next, q);
    }
    LossIsNotSmooth(view, cfgs, desc, size, batch, cursor, rounds, found, n, all, next);
  }

  lemma NoRoundIsComplete(view: seq<Row>, cfgs: seq<FindingCfg>, desc: bool, size: nat, batch: nat, p: nat,
                          cursor: Option<Key>, found: seq<Row>)
    requires SortedView(view, desc) && At(view, p, cursor) && 0 < batch && |found| < size
    requires found != [] ==> cursor.Some? && CompleteIffSmooth(view, cfgs, desc, size, batch, p, cursor, MAX_ROUNDS, [])
    requires LosesNone(view[p..], cfgs, cursor, desc)
    ensures CompleteIffSmooth(view, cfgs, desc, size, batch, p, cursor, 0, found)
  {
    if found != [] {
      FollowIsTotal(view, cfgs, desc, size, batch, cursor);
      SmoothIsSmoothFrom(view, cfgs, desc, size, batch, cursor);
      SamePrefixCancels(found, Follow(view, cfgs, desc, size, batch, cursor).items, AcceptedRows(view[p..], cfgs));
    } else {
      SeeksAhead(view, desc, p, cursor);
      AheadIfNoneLost(view[p..], cfgs, cursor, desc);
    }
  }

  lemma EndIsComplete(view: seq<Row>, cfgs: seq<FindingCfg>, desc: bool, size: nat, batch: nat, p: nat,
                      cursor: Option<Key>, rounds: nat, found: seq<Row>)
    requires SortedView(view, desc) && At(view, p, cursor) && 0 < batch && |found| < size && rounds > 0
    requires LosesNone(view[p..], cfgs, cursor, desc) && Query(view, cursor, desc, batch) == []
    ensures CompleteIffSmooth(view, cfgs, desc, size, batch, p, cursor, rounds, found)
  {
    SeeksAhead(view, desc, p, cursor);
    AheadIfNoneLost(view[p..], cfgs, cursor, desc);
    assert Seek(view, cursor, desc) == [];
    assert found + [] == found;
  }

  lemma NextRound(view: seq<Row>, cfgs: seq<FindingCfg>, desc: bool, size: nat, batch: nat, p: nat,
                  cursor: Option<Key>, found: seq<Row>) returns (n: nat, all: seq<Row>, next: Key, q: nat)
    requires SortedView(view, desc) && At(view, p, cursor) && 0 < batch && |found| < size
    requires LosesNone(view[p..], cfgs, cursor, desc) && Query(view, cursor, desc, batch) != []
    ensures RoundEndsAt(view, cfgs, desc, size, batch, cursor, found, n, all, next)
    ensures q > 0 && At(view, q, Some(next)) && |Seek(view, Some(next), desc)| < |Seek(view, cursor, desc)|
    ensures LeavesRest(view, cfgs, desc, p, cursor, found, all, next, q)
  {
    n, all, next := RoundEnds(view, cfgs, desc, size, batch, cursor, found);
    q := ReadsOn(view, cfgs, desc, p, cursor, n);
    RoundLeavesRest(view, cfgs, desc, size, batch, p, cursor, found, n, all, next, q);
  }

  lemma {:induction false} TotalIsComplete(view: seq<Row>, cfgs: seq<FindingCfg>, desc: bool, size: nat, batch: nat,
                                           p: nat, cursor: Option<Key>, rounds: nat, found: seq<Row>)
    requires SortedView(view, desc) && At(view, p, cursor) && 0 < batch && |found| < size
    requires found != [] ==> cursor.Some?
    requires LosesNone(view[p..], cfgs, cursor, desc)
    ensures CompleteIffSmooth(view, cfgs, desc, size, batch, p, cursor, rounds, found)
    decreases |Seek(view, cursor, desc)|, if found == [] then 0 else 1
  {
    if rounds == 0 {
      if found != [] {
        TotalIsComplete(view, cfgs, desc, size, batch, p, cursor, MAX_ROUNDS, []);
      }
      NoRoundIsComplete(view, cfgs, desc, size, batch, p, cursor, found);
    } else if Query(view, cursor, desc, batch) == [] {
      EndIsComplete(view, cfgs, desc, size, batch, p, cursor, rounds, found);
    } else {
      var n, all, next, q := NextRound(view, cfgs, desc, size, batch, p, cursor, found);
      if LosesSome(view, cfgs, desc, next) {
        NeitherAfterLoss(view, cfgs, desc, size, batch, cursor, rounds, found, n, all, next, q);
      } else if |all| == size {
        TotalIsComplete(view, cfgs, desc, size, batch, q, Some(next), MAX_ROUNDS, []);
        FullRoundIsComplete(view, cfgs, desc, size, batch, cursor, rounds, found, n, all, next, q);
      } else {
        TotalIsComplete(view, cfgs, desc, size, batch, q, Some(next), rounds - 1, all);
        RoundIsComplete(view, cfgs, desc, size, batch, cursor, rounds, found, n, all, next, q);
      }
    }
  }

  /** On sorted data, whose cursors have no text in place of a null, a run returns exactly the accepted rows if and only
      if no request returns nothing with accepted rows ahead, and no cursor made leaves an accepted row behind it
      undecided. */
  lemma FollowIsComplete(view: seq<Row>, cfgs: seq<FindingCfg>, desc: bool, size: nat, batch: nat)
    requires SortedView(view, desc) && 0 < size && 0 < batch
    ensures
      var t := Follow(view, cfgs, desc, size, batch, None);
      t.items == AcceptedRows(view, cfgs) <==>
      && (forall c :: c in t.requests ==> !ReturnsNothing(view, cfgs, desc, size, batch, c))
      && (forall c, r :: c in t.made && r in view && Accepted(r, cfgs) && Behind(r.key, c, desc) ==>
            !Undecided(c, r.key))
  {
    var t := Follow(view, cfgs, desc, size, batch, None);
    assert view[0..] == view;
    TotalIsComplete(view, cfgs, desc, size, batch, 0, None, MAX_ROUNDS, []);
    FollowIsTotal(view, cfgs, desc, size, batch, None);
    SmoothIsSmoothFrom(view, cfgs, desc, size, batch, None);
    assert NoneLost(view, cfgs, desc, t.made) <==>
      forall c, r :: c in t.made && r in view && Accepted(r, cfgs) && Behind(r.key, c, desc) ==> !Undecided(c, r.key);
  }

  // ---------------------------------------------------------------- cursors that go wrong

  lemma {:induction false} NullSeeksNothing(view: seq<Row>, c: Key, desc: bool)
    requires c != [] && c[0].Null?
    ensures Seek(view, Some(c), desc) == []
  {
    if view != [] {
      NullSeeksNothing(view[1..], c, desc);
    }
  }

  /** Nothing is returned after a request whose cursor begins with a null, whatever rows there are. */
  lemma NullCursorEndsPaging(view: seq<Row>, cfgs: seq<FindingCfg>, desc: bool, size: nat, batch: nat,
                             cursor: Option<Key>)
    requires 0 < size && 0 < batch
    requires
      var next := Scan(view, cfgs, desc, size, batch, cursor, MAX_ROUNDS, []).next;
      next.Some? && next.value != [] && next.value[0].Null?
    ensures
      Follow(view, cfgs, desc, size, batch, cursor).items ==
      Scan(view, cfgs, desc, size, batch, cursor, MAX_ROUNDS, []).items
  {
    var o := Scan(view, cfgs, desc, size, batch, cursor, MAX_ROUNDS, []);
    NullSeeksNothing(view, o.next.value, desc);
    ScanAdvances(view, cfgs, desc, size, batch, cursor, MAX_ROUNDS, []);
    assert Scan(view, cfgs, desc, size, batch, o.next, MAX_ROUNDS, []) == Outcome([], None, []);
  }

  lemma {:induction false} TextSeeksNothing(view: seq<Row>, c: Key, text: int)
    requires c != [] && c[0] == Val(text)
    requires forall r :: r in view ==> r.key != [] && (r.key[0].Null? || r.key[0].rank > text)
    ensures Seek(view, Some(c), true) == []
  {
    if view != [] {
      assert view[0] in view && forall r :: r in view[1..] ==> r in view;
      TextSeeksNothing(view[1..], c, text);
    }
  }

  /** In descending order, nothing is returned after a page that ends in a row without a name, if the text in its cursor
      ranks below all names. */
  lemma NamelessCursorEndsPaging(view: seq<Row>, cfgs: seq<FindingCfg>, size: nat, batch: nat, cursor: Option<Key>,
                                 text: int)
    requires 0 < size && 0 < batch
    requires
      var next := Scan(view, cfgs, true, size, batch, cursor, MAX_ROUNDS, []).next;
      next.Some? && next.value != [] && next.value[0] == Val(text)
    requires forall r :: r in view ==> r.key != [] && (r.key[0].Null? || r.key[0].rank > text)
    ensures
      Follow(view, cfgs, true, size, batch, cursor).items ==
      Scan(view, cfgs, true, size, batch, cursor, MAX_ROUNDS, []).items
  {
    var o := Scan(view, cfgs, true, size, batch, cursor, MAX_ROUNDS, []);
    TextSeeksNothing(view, o.next.value, text);
    ScanAdvances(view, cfgs, true, size, batch, cursor, MAX_ROUNDS, []);
    assert Scan(view, cfgs, true, size, batch, o.next, MAX_ROUNDS, []) == Outcome([], None, []);
  }

  /** So a row without a name, which comes first, can hide all others. */
  lemma NamelessRowHidesRest(a: Row, b: Row, name: int, text: int)
    requires a.key == [Val(name), Val(1)] && b.key == [Null(Some(text)), Val(2)] && text < name
    ensures InOrder([b, a], true)
    ensures Follow([b, a], [], true, 1, 10, None).items == [b]
  {
    var view, c := [b, a], [Val(text), Val(2)];
    NamelessCursor(a, b, name, text);
    SeekTwo(b, a, None, true);
    assert AcceptedRows([b], []) == [b] by {
      assert [b][1..] == [] && Accepted(b, []);
    }
    assert view[..1] == [b] && RowsFor(view, [], 1) == 1 && [] + [b] == [b];
    assert Round(view, [], 1, []) == ([b], Full(c));
    ScanUnfolds(view, [], true, 1, 10, None, MAX_ROUNDS, [], 1, [b], c);
    NamelessCursorEndsPaging(view, [], 1, 10, None, text);
  }

  lemma NamelessCursor(a: Row, b: Row, name: int, text: int)
    requires a.key == [Val(name), Val(1)] && b.key == [Null(Some(text)), Val(2)] && text < name
    ensures CursorOf(a.key) == a.key && CursorOf(b.key) == [Val(text), Val(2)]
    ensures Seek([a, b], None, false) == [a, b] && Seek([a, b], Some([Val(text), Val(2)]), false) == [a]
    ensures Seek([a, b], Some(a.key), false) == []
  {
    var c := [Val(text), Val(2)];
    assert CursorOf([Val(2)]) == [Val(2)] && CursorOf([Val(1)]) == [Val(1)];
    assert a.key[1..] == [Val(1)] && b.key[1..] == [Val(2)];
    assert [a, b][1..] == [b] && [b][1..] == [];
    assert RowLess([Val(1)], [Val(1)]) == False;
    assert RowLess(a.key, a.key) == False && RowLess(a.key, b.key) == Unknown;
    assert RowLess(c, a.key) == True && RowLess(c, b.key) == Unknown;
    SeekTwo(a, b, None, false);
    SeekTwo(a, b, Some(c), false);
    SeekTwo(a, b, Some(a.key), false);
  }

  lemma SeekTwo(a: Row, b: Row, cursor: Option<Key>, desc: bool)
    ensures
      Seek([a, b], cursor, desc) ==
      (if AfterCursor(a.key, cursor, desc) then [a] else []) + if AfterCursor(b.key, cursor, desc) then [b] else []
  {
    assert [a, b][1..] == [b] && [b][1..] == [];
    assert Seek([b], cursor, desc) == if AfterCursor(b.key, cursor, desc) then [b] else [];
  }

  lemma AllAccepted(a: Row, b: Row)
    ensures AcceptedRows([a, b], []) == [a, b] && RowsFor([a, b], [], 2) == 2
    ensures AcceptedRows([a], []) == [a] && RowsFor([a], [], 2) == 1
  {
    assert [a, b][1..] == [b] && [b][1..] == [] && [a][1..] == [];
    assert AcceptedRows([b], []) == [b] && RowsFor([b], [], 1) == 1;
  }

  /** A row without a name that ends a page in ascending order sends the client back: its cursor says `None`, and rows
      with later names are returned once more. */
  lemma NamelessRowRepeats(a: Row, b: Row, name: int, text: int)
    requires a.key == [Val(name), Val(1)] && b.key == [Null(Some(text)), Val(2)] && text < name
    ensures InOrder([a, b], false)
    ensures Follow([a, b], [], false, 2, 20, None).items == [a, b, a]
  {
    var view, c := [a, b], [Val(text), Val(2)];
    NamelessCursor(a, b, name, text);
    AllAccepted(a, b);
    NamelessRounds(a, b, name, text);
    ScanUnfolds(view, [], false, 2, 20, None, MAX_ROUNDS, [], 2, view, c);
    ScanUnfolds(view, [], false, 2, 20, Some(c), MAX_ROUNDS, [], 1, [a], a.key);
    var first := Scan(view, [], false, 2, 20, None, MAX_ROUNDS, []);
    var second := Scan(view, [], false, 2, 20, Some(c), MAX_ROUNDS, []);
    assert first.items == view && first.next == Some(c);
    assert second.items == [a] && second.next == None by {
      assert Query(view, Some(a.key), false, 20) == [];
    }
    assert Follow(view, [], false, 2, 20, Some(c)).items == [a];
  }

  lemma NamelessRounds(a: Row, b: Row, name: int, text: int)
    requires a.key == [Val(name), Val(1)] && b.key == [Null(Some(text)), Val(2)] && text < name
    ensures RoundEndsAt([a, b], [], false, 2, 20, None, [], 2, [a, b], [Val(text), Val(2)])
    ensures RoundEndsAt([a, b], [], false, 2, 20, Some([Val(text), Val(2)]), [], 1, [a], a.key)
  {
    var view := [a, b];
    NamelessCursor(a, b, name, text);
    AllAccepted(a, b);
    assert view[..2] == view && [] + view == view && [a][..1] == [a] && [] + [a] == [a];
    assert Round(view, [], 2, []) == (view, Full(CursorOf(b.key)));
    assert Round([a], [], 2, []) == ([a], GoOn(CursorOf(a.key)));
  }
}
