/**
 Seek pagination of the artefact-metadata search: over-fetch, filter, bounded rounds. (src/metadata.py)
 */
module Paging {
  import opened Common

  /** A sort column of a row, as its rank in the column's order. A null of `ocm.name` or `type` is written into a cursor
      as a text, whose rank `written` is; other nulls are kept. */
  datatype Cell = Null(written: Option<int>) | Val(rank: int)

  type Key = seq<Cell>

  datatype Row = Row(key: Key, dataType: string, artefact: string)

  /** A finding configuration: the datatype it governs and the artefacts its filter matches. */
  datatype FindingCfg = FindingCfg(dataType: string, matching: set<string>)

  const MAX_ROUNDS := 10

  // ---------------------------------------------------------------- the query

  /** SQL row comparison `(a...) < (b...)`: decided by the first unequal pair, unknown if a null comes first. */
  function RowLess(a: Key, b: Key): Truth {
    if a == [] || b == [] then False
    else if a[0].Null? || b[0].Null? then Unknown
    else if a[0].rank == b[0].rank then RowLess(a[1..], b[1..])
    else if a[0].rank < b[0].rank then True
    else False
  }

  /** `_make_next_cursor` */
  function CursorOf(key: Key): (cursor: Key)
    ensures |cursor| == |key|
  {
    if key == [] then []
    else [if key[0].Null? && key[0].written.Some? then Val(key[0].written.value) else key[0]] + CursorOf(key[1..])
  }

  /** `_cursor_clause`: rows strictly after the cursor in the sort direction. */
  predicate AfterCursor(key: Key, cursor: Option<Key>, desc: bool) {
    match cursor
    case None => true
    case Some(c) => (if desc then RowLess(key, c) else RowLess(c, key)) == True
  }

  function Seek(view: seq<Row>, cursor: Option<Key>, desc: bool): seq<Row> {
    if view == [] then []
    else (if AfterCursor(view[0].key, cursor, desc) then [view[0]] else []) + Seek(view[1..], cursor, desc)
  }

  function Take<T>(xs: seq<T>, n: nat): seq<T> {
    if n <= |xs| then xs[..n] else xs
  }

  /** `select ... where base_where and cursor order by ... limit n`, the view being the rows that satisfy
      `base_where` in the requested order. */
  function Query(view: seq<Row>, cursor: Option<Key>, desc: bool, n: nat): seq<Row> {
    Take(Seek(view, cursor, desc), n)
  }

  /** No finding configuration of the row's type filters its artefact out. */
  predicate Accepted(row: Row, cfgs: seq<FindingCfg>) {
    forall i :: 0 <= i < |cfgs| ==> cfgs[i].dataType == row.dataType ==> row.artefact in cfgs[i].matching
  }

  function AcceptedRows(rows: seq<Row>, cfgs: seq<FindingCfg>): seq<Row> {
    if rows == [] then []
    else (if Accepted(rows[0], cfgs) then [rows[0]] else []) + AcceptedRows(rows[1..], cfgs)
  }

  function PageSize(limit: int): (n: nat)
    ensures 1 <= n <= 200
  {
    Max(1, Min(limit, 200))
  }

  function RawBatch(limit: int): (n: nat)
    ensures 1 <= n
  {
    Min(2000, PageSize(limit) * 10)
  }

  // ---------------------------------------------------------------- what one page is

  /** How many rows are read until `n` accepted ones are found, or all of them. */
  function RowsFor(rows: seq<Row>, cfgs: seq<FindingCfg>, n: nat): (r: nat)
    ensures r <= |rows|
  {
    if n == 0 || rows == [] then 0
    else 1 + RowsFor(rows[1..], cfgs, if Accepted(rows[0], cfgs) then n - 1 else n)
  }

  datatype Page = Page(items: seq<Row>, next: Option<nat>)

  /** The rows a request starting at position `p` of the view gets to see. */
  function Window(view: seq<Row>, batch: nat, p: nat): seq<Row>
    requires p <= |view|
  {
    Take(view[p..], MAX_ROUNDS * batch)
  }

  /** The page that starts at position `p`, and the position the next one starts at. */
  function PageAt(view: seq<Row>, cfgs: seq<FindingCfg>, size: nat, batch: nat, p: nat): Page
    requires p <= |view|
  {
    var window := Window(view, batch, p);
    var n := RowsFor(window, cfgs, size);
    var items := AcceptedRows(window[..n], cfgs);
    if |items| == size then Page(items, Some(p + n))
    else if |view| - p <= (MAX_ROUNDS - 1) * batch || items == [] then Page(items, None)
    else Page(items, Some(p + |window|))
  }

  // ---------------------------------------------------------------- sorted views

  predicate NonNull(key: Key) {
    forall i :: 0 <= i < |key| ==> key[i].Val?
  }

  /** The view is strictly ordered on non-null keys of one shape (the sort fields always include the id). */
  ghost predicate Ordered(view: seq<Row>, desc: bool, width: nat) {
    && (forall i {:trigger NonNull(view[i].key)} ::
          0 <= i < |view| ==> NonNull(view[i].key) && |view[i].key| == width)
    && (forall i, j {:trigger AfterCursor(view[j].key, Some(view[i].key), desc)} ::
          0 <= i < j < |view| ==> AfterCursor(view[j].key, Some(view[i].key), desc))
  }

  ghost predicate FitsView(cursor: Option<Key>, width: nat) {
    cursor.Some? ==> NonNull(cursor.value) && |cursor.value| == width
  }

  lemma {:induction false} RowLessTransitive(a: Key, b: Key, c: Key)
    requires RowLess(a, b) == True && RowLess(b, c) == True
    ensures RowLess(a, c) == True
  {
    if a[0].rank == b[0].rank == c[0].rank {
      RowLessTransitive(a[1..], b[1..], c[1..]);
    }
  }

  lemma {:induction false} RowLessIrreflexive(a: Key)
    ensures RowLess(a, a) != True
  {
    if a != [] && a[0].Val? {
      RowLessIrreflexive(a[1..]);
    }
  }

  lemma {:induction false} NonNullIsItsCursor(key: Key)
    requires NonNull(key)
    ensures CursorOf(key) == key
  {
    if key != [] {
      assert key[0].Val?;
      assert forall i :: 0 <= i < |key[1..]| ==> key[1..][i] == key[i + 1];
      NonNullIsItsCursor(key[1..]);
    }
  }

  lemma OrderedRest(view: seq<Row>, desc: bool, width: nat)
    requires Ordered(view, desc, width) && view != []
    ensures Ordered(view[1..], desc, width)
  {
    var rest := view[1..];
    forall i | 0 <= i < |rest|
      ensures NonNull(rest[i].key) && |rest[i].key| == width
    {
      assert rest[i] == view[i + 1] && NonNull(view[i + 1].key);
    }
    forall i, j | 0 <= i < j < |rest|
      ensures AfterCursor(rest[j].key, Some(rest[i].key), desc)
    {
      assert AfterCursor(view[j + 1].key, Some(view[i + 1].key), desc);
    }
  }

  lemma {:induction false} SeekAll(view: seq<Row>, cursor: Option<Key>, desc: bool)
    requires forall i :: 0 <= i < |view| ==> AfterCursor(view[i].key, cursor, desc)
    ensures Seek(view, cursor, desc) == view
  {
    if view != [] {
      SeekAll(view[1..], cursor, desc);
      assert view == [view[0]] + view[1..];
    }
  }

  /** Number of leading rows that are not after the cursor. */
  function Position(view: seq<Row>, cursor: Option<Key>, desc: bool): (p: nat)
    ensures p <= |view|
  {
    if view == [] || AfterCursor(view[0].key, cursor, desc) then 0
    else 1 + Position(view[1..], cursor, desc)
  }

  /** On an ordered view, seeking past a cursor drops a prefix. */
  lemma {:induction false} SeekIsSuffix(view: seq<Row>, cursor: Option<Key>, desc: bool, width: nat)
    requires Ordered(view, desc, width) && FitsView(cursor, width)
    ensures Seek(view, cursor, desc) == view[Position(view, cursor, desc)..]
  {
    if view != [] {
      if AfterCursor(view[0].key, cursor, desc) {
        forall i | 0 <= i < |view|
          ensures AfterCursor(view[i].key, cursor, desc)
        {
          if cursor.Some? && i > 0 {
            assert AfterCursor(view[i].key, Some(view[0].key), desc);
            if desc {
              RowLessTransitive(view[i].key, view[0].key, cursor.value);
            } else {
              RowLessTransitive(cursor.value, view[0].key, view[i].key);
            }
          }
        }
        SeekAll(view, cursor, desc);
      } else {
        OrderedRest(view, desc, width);
        SeekIsSuffix(view[1..], cursor, desc, width);
      }
    }
  }

  /** The cursor made from row `i` seeks to row `i + 1`. */
  lemma {:induction false} PositionOfRow(view: seq<Row>, desc: bool, width: nat, i: nat)
    requires Ordered(view, desc, width) && i < |view|
    ensures Position(view, Some(view[i].key), desc) == i + 1
  {
    RowLessIrreflexive(view[i].key);
    if i == 0 {
      if |view| > 1 {
        assert AfterCursor(view[1].key, Some(view[0].key), desc);
        assert Position(view[1..], Some(view[0].key), desc) == 0;
      }
    } else {
      assert AfterCursor(view[i].key, Some(view[0].key), desc);
      if AfterCursor(view[0].key, Some(view[i].key), desc) {
        if desc {
          RowLessTransitive(view[0].key, view[i].key, view[0].key);
        } else {
          RowLessTransitive(view[i].key, view[0].key, view[i].key);
        }
        RowLessIrreflexive(view[0].key);
      }
      OrderedRest(view, desc, width);
      PositionOfRow(view[1..], desc, width, i - 1);
    }
  }

  // ---------------------------------------------------------------- the request handler's loop

  lemma {:induction false} AcceptedConcat(xs: seq<Row>, ys: seq<Row>, cfgs: seq<FindingCfg>)
    ensures AcceptedRows(xs + ys, cfgs) == AcceptedRows(xs, cfgs) + AcceptedRows(ys, cfgs)
  {
    if xs == [] {
      assert xs + ys == ys;
    } else {
      AcceptedConcat(xs[1..], ys, cfgs);
      assert (xs + ys)[0] == xs[0] && (xs + ys)[1..] == xs[1..] + ys;
      Associative(if Accepted(xs[0], cfgs) then [xs[0]] else [], AcceptedRows(xs[1..], cfgs), AcceptedRows(ys, cfgs));
    }
  }

  /** Reading row by row finds the page as soon as enough rows are accepted. */
  lemma {:induction false} RowsForReached(rows: seq<Row>, cfgs: seq<FindingCfg>, n: nat, m: nat)
    requires m < |rows| && |AcceptedRows(rows[..m], cfgs)| < n == |AcceptedRows(rows[..m + 1], cfgs)|
    ensures RowsFor(rows, cfgs, n) == m + 1
  {
    assert rows[..m + 1][1..] == rows[1..][..m];
    if m > 0 {
      assert rows[..m][1..] == rows[1..][..m - 1];
      RowsForReached(rows[1..], cfgs, if Accepted(rows[0], cfgs) then n - 1 else n, m - 1);
    } else {
      assert rows[1..][..0] == [];
    }
  }

  lemma {:induction false} RowsForExhausted(rows: seq<Row>, cfgs: seq<FindingCfg>, n: nat)
    requires |AcceptedRows(rows, cfgs)| < n
    ensures RowsFor(rows, cfgs, n) == |rows|
  {
    if rows != [] {
      RowsForExhausted(rows[1..], cfgs, if Accepted(rows[0], cfgs) then n - 1 else n);
    }
  }

  lemma {:induction false} RowsForPrefix(rows: seq<Row>, cfgs: seq<FindingCfg>, n: nat, m: nat)
    requires m <= |rows| && |AcceptedRows(rows[..m], cfgs)| >= n
    ensures RowsFor(rows, cfgs, n) == RowsFor(rows[..m], cfgs, n)
  {
    if n > 0 && m > 0 {
      assert rows[..m][1..] == rows[1..][..m - 1];
      RowsForPrefix(rows[1..], cfgs, if Accepted(rows[0], cfgs) then n - 1 else n, m - 1);
    }
  }

  lemma {:induction false} RowsForCounts(rows: seq<Row>, cfgs: seq<FindingCfg>, n: nat)
    ensures |AcceptedRows(rows[..RowsFor(rows, cfgs, n)], cfgs)| <= n
    ensures |AcceptedRows(rows[..RowsFor(rows, cfgs, n)], cfgs)| < n ==> RowsFor(rows, cfgs, n) == |rows|
  {
    var r := RowsFor(rows, cfgs, n);
    if n > 0 && rows != [] {
      var m := if Accepted(rows[0], cfgs) then n - 1 else n;
      RowsForCounts(rows[1..], cfgs, m);
      assert rows[..r][1..] == rows[1..][..r - 1];
    } else {
      assert rows[..r] == [];
    }
  }

  lemma {:induction false} RowsForLeast(rows: seq<Row>, cfgs: seq<FindingCfg>, n: nat, m: nat)
    requires m < RowsFor(rows, cfgs, n)
    ensures |AcceptedRows(rows[..m], cfgs)| < n
  {
    if m > 0 {
      RowsForLeast(rows[1..], cfgs, if Accepted(rows[0], cfgs) then n - 1 else n, m - 1);
      assert rows[..m][1..] == rows[1..][..m - 1];
    }
  }

  function CursorAt(view: seq<Row>, next: Option<nat>): Option<Key>
    requires next.Some? ==> 0 < next.value <= |view|
  {
    if next.None? then None else Some(view[next.value - 1].key)
  }

  /** Walks one raw batch in order and collects accepted rows until the page is full; `filledAt` is the
      index of the row that filled it, or the batch's length. */
  method CollectAccepted(rows: seq<Row>, cfgs: seq<FindingCfg>, pageSize: nat, found: seq<Row>)
    returns (items: seq<Row>, filledAt: nat)
    requires |found| < pageSize
    ensures filledAt <= |rows|
    ensures filledAt == |rows| ==> items == found + AcceptedRows(rows, cfgs) && |items| < pageSize
    ensures filledAt < |rows| ==>
              && items == found + AcceptedRows(rows[..filledAt + 1], cfgs)
              && |found + AcceptedRows(rows[..filledAt], cfgs)| < pageSize == |items|
  {
    items := found;
    filledAt := 0;
    assert rows[..0] == [];
    while filledAt < |rows|
      invariant filledAt <= |rows|
      invariant items == found + AcceptedRows(rows[..filledAt], cfgs) && |items| < pageSize
    {
      var row := rows[filledAt];
      assert rows[..filledAt + 1] == rows[..filledAt] + [row];
      AcceptedConcat(rows[..filledAt], [row], cfgs);
      assert AcceptedRows([row], cfgs) == if Accepted(row, cfgs) then [row] else [];
      if Accepted(row, cfgs) {
        items := items + [row];
        if |items| >= pageSize {
          return;
        }
      }
      filledAt := filledAt + 1;
    }
    assert rows[..|rows|] == rows;
  }

  /** The scan has read `pos` rows past position `p` without filling the page. */
  ghost predicate Scanned(view: seq<Row>, cfgs: seq<FindingCfg>, size: nat, p: nat, pos: nat, items: seq<Row>) {
    && p + pos <= |view|
    && items == AcceptedRows(view[p..][..pos], cfgs) && |items| < size
  }

  /** With room for `quota` rows so far, the scan is at the end of the last batch, or of the view. */
  ghost predicate AfterRounds(view: seq<Row>, p: nat, pos: nat, quota: nat)
    requires p <= |view|
  {
    pos == Min(quota, |view| - p)
  }

  lemma ScannedBatch(view: seq<Row>, cfgs: seq<FindingCfg>, size: nat, p: nat, pos: nat, items: seq<Row>, n: nat)
    requires Scanned(view, cfgs, size, p, pos, items) && p + pos + n <= |view|
    ensures AcceptedRows(view[p..][..pos + n], cfgs) == items + AcceptedRows(view[p + pos..][..n], cfgs)
  {
    assert view[p..][..pos + n] == view[p..][..pos] + view[p + pos..][..n];
    AcceptedConcat(view[p..][..pos], view[p + pos..][..n], cfgs);
  }

  lemma ScannedRows(view: seq<Row>, cfgs: seq<FindingCfg>, size: nat, p: nat, pos: nat, items: seq<Row>, rows: seq<Row>,
                    n: nat)
    requires Scanned(view, cfgs, size, p, pos, items) && rows <= view[p + pos..] && n <= |rows|
    ensures AcceptedRows(view[p..][..pos + n], cfgs) == items + AcceptedRows(rows[..n], cfgs)
  {
    assert rows[..n] == view[p + pos..][..n];
    ScannedBatch(view, cfgs, size, p, pos, items, n);
  }

  /** `items` and `next` are the page of the request and the cursor of the next one. */
  ghost predicate IsPageFor(view: seq<Row>, cfgs: seq<FindingCfg>, size: nat, batch: nat, p: nat,
                            items: seq<Row>, next: Option<Key>)
  {
    && p <= |view|
    && var page := PageAt(view, cfgs, size, batch, p);
       && items == page.items
       && (page.next.Some? ==> 0 < page.next.value <= |view|)
       && next == CursorAt(view, page.next)
  }

  /** Room for rows after the given number of rounds: `round * batch`, in steps. */
  ghost function Quota(round: nat, batch: nat): nat {
    if round == 0 then 0 else Quota(round - 1, batch) + batch
  }

  lemma {:induction false} QuotaIs(round: nat, batch: nat)
    ensures Quota(round, batch) == round * batch
  {
    if round > 0 {
      QuotaIs(round - 1, batch);
    }
  }

  lemma QuotaLeft(round: nat, batch: nat)
    ensures round < MAX_ROUNDS ==> Quota(round, batch) + batch <= MAX_ROUNDS * batch
    ensures Quota(MAX_ROUNDS, batch) == MAX_ROUNDS * batch
  {
    QuotaIs(round, batch);
    QuotaIs(MAX_ROUNDS, batch);
    if round < MAX_ROUNDS {
      assert round * batch <= (MAX_ROUNDS - 1) * batch;
    }
  }

  ghost predicate Scanning(view: seq<Row>, cfgs: seq<FindingCfg>, size: nat, batch: nat, cursor: Option<Key>,
                           p: nat, pos: nat, round: nat, items: seq<Row>, scanCursor: Option<Key>)
  {
    && Scanned(view, cfgs, size, p, pos, items) && AfterRounds(view, p, pos, Quota(round, batch))
    && (if round == 0 then scanCursor == cursor
        else pos > Quota(round - 1, batch) && scanCursor == Some(view[p + pos - 1].key))
  }

  /** How a round ends: no more rows, a full page and its cursor, or a cursor to read on from. */
  datatype RoundEnd = Exhausted | Full(next: Key) | GoOn(scanCursor: Key)

  /** One round: a raw batch is read until the page is full. */
  function Round(rows: seq<Row>, cfgs: seq<FindingCfg>, size: nat, found: seq<Row>): (r: (seq<Row>, RoundEnd))
    requires |found| < size
    ensures !r.1.Full? ==> |r.0| < size
  {
    if rows == [] then (found, Exhausted)
    else
      var n := RowsFor(rows, cfgs, size - |found|);
      RowsForCounts(rows, cfgs, size - |found|);
      var items := found + AcceptedRows(rows[..n], cfgs);
      (items, if |items| == size then Full(CursorOf(rows[n - 1].key)) else GoOn(CursorOf(rows[n - 1].key)))
  }

  /** What a request returns, and every cursor it makes. */
  datatype Outcome = Outcome(items: seq<Row>, next: Option<Key>, made: seq<Key>)

  /** A request with `rounds` rounds left that has found some rows and reads on after the cursor, on any view. */
  function Scan(view: seq<Row>, cfgs: seq<FindingCfg>, desc: bool, size: nat, batch: nat, cursor: Option<Key>,
                rounds: nat, found: seq<Row>): Outcome
    requires 0 < batch && |found| < size
    decreases rounds
  {
    if rounds == 0 then Outcome(found, if found != [] then cursor else None, [])
    else
      var (items, end) := Round(Query(view, cursor, desc, batch), cfgs, size, found);
      match end
      case Exhausted => Outcome(items, None, [])
      case Full(next) => Outcome(items, Some(next), [next])
      case GoOn(c) =>
        var rest := Scan(view, cfgs, desc, size, batch, Some(c), rounds - 1, items);
        rest.(made := [c] + rest.made)
  }

  /** One round: fetches a raw batch and filters it. */
  method ReadBatch(view: seq<Row>, cfgs: seq<FindingCfg>, desc: bool, pageSize: nat, rawBatch: nat,
                   scanCursor: Option<Key>, found: seq<Row>)
    returns (items: seq<Row>, end: RoundEnd)
    requires 0 < rawBatch && |found| < pageSize
    ensures (items, end) == Round(Query(view, scanCursor, desc, rawBatch), cfgs, pageSize, found)
  {
    var rows := Query(view, scanCursor, desc, rawBatch);
    if rows == [] {
      return found, Exhausted;
    }
    var filledAt;
    items, filledAt := CollectAccepted(rows, cfgs, pageSize, found);
    if filledAt < |rows| {
      RowsForReached(rows, cfgs, pageSize - |found|, filledAt);
      end := Full(CursorOf(rows[filledAt].key));
    } else {
      RowsForExhausted(rows, cfgs, pageSize - |found|);
      assert rows[..|rows|] == rows;
      end := GoOn(CursorOf(rows[|rows| - 1].key));
    }
  }

  /** The rounds of one request: raw batches are read and filtered until the page is full, the data ends,
      or the rounds are used up. */
  method ScanRounds(view: seq<Row>, cfgs: seq<FindingCfg>, desc: bool, pageSize: nat, rawBatch: nat,
                    cursor: Option<Key>)
    returns (items: seq<Row>, nextCursor: Option<Key>)
    requires 0 < pageSize && 0 < rawBatch
    ensures
      var o := Scan(view, cfgs, desc, pageSize, rawBatch, cursor, MAX_ROUNDS, []);
      items == o.items && nextCursor == o.next
  {
    items, nextCursor := [], None;
    var scanCursor := cursor;
    for round := 0 to MAX_ROUNDS
      invariant |items| < pageSize
      invariant
        var whole := Scan(view, cfgs, desc, pageSize, rawBatch, cursor, MAX_ROUNDS, []);
        var left := Scan(view, cfgs, desc, pageSize, rawBatch, scanCursor, MAX_ROUNDS - round, items);
        whole.items == left.items && whole.next == left.next
    {
      var end;
      items, end := ReadBatch(view, cfgs, desc, pageSize, rawBatch, scanCursor, items);
      match end {
        case Exhausted => return items, None;
        case Full(next) => return items, Some(next);
        case GoOn(last) => scanCursor := Some(last);
      }
    }
    nextCursor := if items != [] then scanCursor else None;
  }

  /** The paging part of the search request handler. */
  method SearchPage(view: seq<Row>, cfgs: seq<FindingCfg>, desc: bool, limit: int, cursor: Option<Key>)
    returns (items: seq<Row>, nextCursor: Option<Key>)
    ensures
      var o := Scan(view, cfgs, desc, PageSize(limit), RawBatch(limit), cursor, MAX_ROUNDS, []);
      items == o.items && nextCursor == o.next
    ensures forall width :: Ordered(view, desc, width) && FitsView(cursor, width) ==>
              IsPageFor(view, cfgs, PageSize(limit), RawBatch(limit), Position(view, cursor, desc), items, nextCursor)
  {
    items, nextCursor := ScanRounds(view, cfgs, desc, PageSize(limit), RawBatch(limit), cursor);
    forall width | Ordered(view, desc, width) && FitsView(cursor, width)
      ensures IsPageFor(view, cfgs, PageSize(limit), RawBatch(limit), Position(view, cursor, desc), items, nextCursor)
    {
      ScanIsPage(view, cfgs, desc, width, PageSize(limit), RawBatch(limit), cursor);
    }
  }

  /** The round has returned the page that starts at `p`, or is the beginning of the next round. */
  ghost predicate RoundFits(view: seq<Row>, cfgs: seq<FindingCfg>, size: nat, batch: nat, cursor: Option<Key>,
                            p: nat, pos: nat, round: nat, items: seq<Row>, end: RoundEnd)
  {
    match end
    case Exhausted => IsPageFor(view, cfgs, size, batch, p, items, None)
    case Full(next) => IsPageFor(view, cfgs, size, batch, p, items, Some(next))
    case GoOn(next) => round > 0 && Scanning(view, cfgs, size, batch, cursor, p, pos, round, items, Some(next))
  }

  lemma FilledFits(view: seq<Row>, cfgs: seq<FindingCfg>, size: nat, batch: nat, cursor: Option<Key>,
                   p: nat, pos: nat, round: nat, before: seq<Row>, scanCursor: Option<Key>, rows: seq<Row>, n: nat)
    requires 0 < batch && round < MAX_ROUNDS
    requires Scanning(view, cfgs, size, batch, cursor, p, pos, round, before, scanCursor)
    requires rows == Take(view[p + pos..], batch) && rows != [] && n == RowsFor(rows, cfgs, size - |before|)
    requires |before + AcceptedRows(rows[..n], cfgs)| == size
    ensures n > 0
    ensures IsPageFor(view, cfgs, size, batch, p, before + AcceptedRows(rows[..n], cfgs), Some(rows[n - 1].key))
  {
    RowsForLeast(rows, cfgs, size - |before|, n - 1);
    PageFilled(view, cfgs, size, batch, cursor, p, pos, round, before, scanCursor, rows, n - 1,
               before + AcceptedRows(rows[..n], cfgs));
  }

  lemma RowsRead(view: seq<Row>, cfgs: seq<FindingCfg>, size: nat, batch: nat,
                 cursor: Option<Key>, p: nat, pos: nat, round: nat, before: seq<Row>, scanCursor: Option<Key>,
                 rows: seq<Row>)
    requires 0 < batch && round < MAX_ROUNDS
    requires Scanning(view, cfgs, size, batch, cursor, p, pos, round, before, scanCursor)
    requires rows == Take(view[p + pos..], batch) && rows != []
    requires forall k :: 0 <= k < |rows| ==> CursorOf(rows[k].key) == rows[k].key
    ensures
      var r := Round(rows, cfgs, size, before);
      RoundFits(view, cfgs, size, batch, cursor, p, pos + |rows|, round + 1, r.0, r.1)
  {
    var left := size - |before|;
    var n := RowsFor(rows, cfgs, left);
    RowsForCounts(rows, cfgs, left);
    var items := before + AcceptedRows(rows[..n], cfgs);
    var next := rows[n - 1].key;
    assert Round(rows, cfgs, size, before) == (items, if |items| == size then Full(next) else GoOn(next));
    if |items| == size {
      FilledFits(view, cfgs, size, batch, cursor, p, pos, round, before, scanCursor, rows, n);
    } else {
      GoesOnFits(view, cfgs, size, batch, cursor, p, pos, round, before, scanCursor, rows, n);
    }
  }

  lemma GoesOnFits(view: seq<Row>, cfgs: seq<FindingCfg>, size: nat, batch: nat, cursor: Option<Key>,
                   p: nat, pos: nat, round: nat, before: seq<Row>, scanCursor: Option<Key>, rows: seq<Row>, n: nat)
    requires 0 < batch && n == |rows|
    requires Scanning(view, cfgs, size, batch, cursor, p, pos, round, before, scanCursor)
    requires rows == Take(view[p + pos..], batch) && rows != []
    requires |before + AcceptedRows(rows[..n], cfgs)| < size
    ensures Scanning(view, cfgs, size, batch, cursor, p, pos + n, round + 1, before + AcceptedRows(rows[..n], cfgs),
                     Some(rows[n - 1].key))
  {
    assert rows[..n] == rows;
    PageGoesOn(view, cfgs, size, batch, cursor, p, pos, round, before, scanCursor, rows,
               before + AcceptedRows(rows[..n], cfgs));
  }

  lemma OrderedAreTheirCursors(view: seq<Row>, desc: bool, width: nat, from: nat, rows: seq<Row>)
    requires Ordered(view, desc, width) && from <= |view| && rows <= view[from..]
    ensures forall k :: 0 <= k < |rows| ==> CursorOf(rows[k].key) == rows[k].key
  {
    forall k | 0 <= k < |rows|
      ensures CursorOf(rows[k].key) == rows[k].key
    {
      assert rows[k] == view[from + k];
      assert NonNull(view[from + k].key);
      NonNullIsItsCursor(rows[k].key);
    }
  }

  lemma NoRowsRead(view: seq<Row>, cfgs: seq<FindingCfg>, size: nat, batch: nat, cursor: Option<Key>,
                   p: nat, pos: nat, round: nat, items: seq<Row>, scanCursor: Option<Key>)
    requires 0 < batch && round < MAX_ROUNDS
    requires Scanning(view, cfgs, size, batch, cursor, p, pos, round, items, scanCursor)
    requires Take(view[p + pos..], batch) == []
    ensures
      var r := Round([], cfgs, size, items);
      RoundFits(view, cfgs, size, batch, cursor, p, pos, round + 1, r.0, r.1)
  {
    PageExhausted(view, cfgs, size, batch, cursor, p, pos, round, items, scanCursor);
  }

  /** The rows a round reads: those after the scan so far, and their cursors are their keys. */
  lemma BatchRead(view: seq<Row>, cfgs: seq<FindingCfg>, desc: bool, width: nat, size: nat, batch: nat,
                  cursor: Option<Key>, p: nat, pos: nat, round: nat, items: seq<Row>, scanCursor: Option<Key>)
    requires Ordered(view, desc, width) && FitsView(cursor, width) && p == Position(view, cursor, desc)
    requires Scanning(view, cfgs, size, batch, cursor, p, pos, round, items, scanCursor)
    ensures p + pos <= |view| && Query(view, scanCursor, desc, batch) == Take(view[p + pos..], batch)
    ensures
      var rows := Query(view, scanCursor, desc, batch);
      forall k :: 0 <= k < |rows| ==> CursorOf(rows[k].key) == rows[k].key
  {
    QueryReads(view, cfgs, desc, width, size, batch, cursor, p, pos, round, items, scanCursor);
    OrderedAreTheirCursors(view, desc, width, p + pos, Query(view, scanCursor, desc, batch));
  }

  lemma BatchFits(view: seq<Row>, cfgs: seq<FindingCfg>, size: nat, batch: nat, cursor: Option<Key>,
                  p: nat, pos: nat, round: nat, items: seq<Row>, scanCursor: Option<Key>, rows: seq<Row>,
                  all: seq<Row>, end: RoundEnd)
    requires 0 < batch && round < MAX_ROUNDS
    requires Scanning(view, cfgs, size, batch, cursor, p, pos, round, items, scanCursor)
    requires rows == Take(view[p + pos..], batch) && (all, end) == Round(rows, cfgs, size, items)
    requires forall k :: 0 <= k < |rows| ==> CursorOf(rows[k].key) == rows[k].key
    ensures RoundFits(view, cfgs, size, batch, cursor, p, pos + |rows|, round + 1, all, end)
  {
    if rows == [] {
      NoRowsRead(view, cfgs, size, batch, cursor, p, pos, round, items, scanCursor);
    } else {
      RowsRead(view, cfgs, size, batch, cursor, p, pos, round, items, scanCursor, rows);
    }
  }

  lemma RoundReads(view: seq<Row>, cfgs: seq<FindingCfg>, desc: bool, width: nat, size: nat, batch: nat,
                   cursor: Option<Key>, p: nat, pos: nat, round: nat, items: seq<Row>, scanCursor: Option<Key>,
                   rows: seq<Row>, all: seq<Row>, end: RoundEnd)
    requires Ordered(view, desc, width) && FitsView(cursor, width) && p == Position(view, cursor, desc)
    requires 0 < batch && round < MAX_ROUNDS
    requires Scanning(view, cfgs, size, batch, cursor, p, pos, round, items, scanCursor)
    requires rows == Query(view, scanCursor, desc, batch) && (all, end) == Round(rows, cfgs, size, items)
    ensures RoundFits(view, cfgs, size, batch, cursor, p, pos + |rows|, round + 1, all, end)
  {
    BatchRead(view, cfgs, desc, width, size, batch, cursor, p, pos, round, items, scanCursor);
    BatchFits(view, cfgs, size, batch, cursor, p, pos, round, items, scanCursor, rows, all, end);
  }

  /** What holds before a round, and what of the result, carries over from one round to the next. */
  ghost predicate RoundKeeps(view: seq<Row>, cfgs: seq<FindingCfg>, desc: bool, size: nat, batch: nat,
                             inv: (nat, Option<Key>, seq<Row>) -> bool, good: (seq<Row>, Option<Key>) -> bool,
                             left: nat, cursor: Option<Key>, items: seq<Row>)
    requires |items| < size
  {
    if left == 0 then good(items, if items != [] then cursor else None)
    else
      match Round(Query(view, cursor, desc, batch), cfgs, size, items)
      case (all, Exhausted) => good(all, None)
      case (all, Full(next)) => good(all, Some(next))
      case (all, GoOn(next)) => inv(left - 1, Some(next), all)
  }

  lemma {:induction false} ScanInduction(view: seq<Row>, cfgs: seq<FindingCfg>, desc: bool, size: nat, batch: nat,
                                         inv: (nat, Option<Key>, seq<Row>) -> bool,
                                         good: (seq<Row>, Option<Key>) -> bool,
                                         left: nat, cursor: Option<Key>, items: seq<Row>)
    requires 0 < batch && |items| < size && inv(left, cursor, items)
    requires forall l: nat, c, found :: inv(l, c, found) && |found| < size ==>
               RoundKeeps(view, cfgs, desc, size, batch, inv, good, l, c, found)
    ensures
      var o := Scan(view, cfgs, desc, size, batch, cursor, left, items);
      good(o.items, o.next)
    decreases left
  {
    assert RoundKeeps(view, cfgs, desc, size, batch, inv, good, left, cursor, items);
    if left > 0 {
      var (all, end) := Round(Query(view, cursor, desc, batch), cfgs, size, items);
      if end.GoOn? {
        ScanInduction(view, cfgs, desc, size, batch, inv, good, left - 1, Some(end.scanCursor), all);
      }
    }
  }

  ghost predicate RoundsLeft(view: seq<Row>, cfgs: seq<FindingCfg>, size: nat, batch: nat, cursor: Option<Key>, p: nat,
                             left: nat, scanCursor: Option<Key>, items: seq<Row>) {
    exists pos: nat, round: nat ::
      round + left == MAX_ROUNDS && Scanning(view, cfgs, size, batch, cursor, p, pos, round, items, scanCursor)
  }

  lemma NoRoundsLeft(view: seq<Row>, cfgs: seq<FindingCfg>, size: nat, batch: nat, cursor: Option<Key>, p: nat,
                     scanCursor: Option<Key>, items: seq<Row>)
    requires RoundsLeft(view, cfgs, size, batch, cursor, p, 0, scanCursor, items)
    ensures IsPageFor(view, cfgs, size, batch, p, items, if items != [] then scanCursor else None)
  {
    var pos: nat :| Scanning(view, cfgs, size, batch, cursor, p, pos, MAX_ROUNDS, items, scanCursor);
    PageCutShort(view, cfgs, size, batch, cursor, p, pos, items, scanCursor);
  }

  /** The round has returned the page, or leaves one round less. */
  ghost predicate LeadsOn(view: seq<Row>, cfgs: seq<FindingCfg>, size: nat, batch: nat, cursor: Option<Key>, p: nat,
                          left: nat, items: seq<Row>, end: RoundEnd)
  {
    match end
    case Exhausted => IsPageFor(view, cfgs, size, batch, p, items, None)
    case Full(next) => IsPageFor(view, cfgs, size, batch, p, items, Some(next))
    case GoOn(next) => RoundsLeft(view, cfgs, size, batch, cursor, p, left, Some(next), items)
  }

  lemma RoundLeadsOn(view: seq<Row>, cfgs: seq<FindingCfg>, desc: bool, width: nat, size: nat, batch: nat,
                     cursor: Option<Key>, p: nat, left: nat, scanCursor: Option<Key>, items: seq<Row>,
                     rows: seq<Row>, all: seq<Row>, end: RoundEnd)
    requires Ordered(view, desc, width) && FitsView(cursor, width) && p == Position(view, cursor, desc)
    requires 0 < batch && |items| < size && left > 0
    requires RoundsLeft(view, cfgs, size, batch, cursor, p, left, scanCursor, items)
    requires rows == Query(view, scanCursor, desc, batch) && (all, end) == Round(rows, cfgs, size, items)
    ensures LeadsOn(view, cfgs, size, batch, cursor, p, left - 1, all, end)
  {
    var pos: nat, round: nat :| round + left == MAX_ROUNDS
      && Scanning(view, cfgs, size, batch, cursor, p, pos, round, items, scanCursor);
    RoundReads(view, cfgs, desc, width, size, batch, cursor, p, pos, round, items, scanCursor, rows, all, end);
    FitsLeadsOn(view, cfgs, size, batch, cursor, p, pos + |rows|, round + 1, left - 1, all, end);
  }

  lemma FitsLeadsOn(view: seq<Row>, cfgs: seq<FindingCfg>, size: nat, batch: nat, cursor: Option<Key>, p: nat,
                    pos: nat, round: nat, left: nat, items: seq<Row>, end: RoundEnd)
    requires round + left == MAX_ROUNDS
    requires RoundFits(view, cfgs, size, batch, cursor, p, pos, round, items, end)
    ensures LeadsOn(view, cfgs, size, batch, cursor, p, left, items, end)
  {
    if end.GoOn? {
      HasRoundsLeft(view, cfgs, size, batch, cursor, p, pos, round, left, Some(end.scanCursor), items);
    }
  }

  lemma HasRoundsLeft(view: seq<Row>, cfgs: seq<FindingCfg>, size: nat, batch: nat, cursor: Option<Key>, p: nat,
                      pos: nat, round: nat, left: nat, scanCursor: Option<Key>, items: seq<Row>)
    requires round + left == MAX_ROUNDS && Scanning(view, cfgs, size, batch, cursor, p, pos, round, items, scanCursor)
    ensures RoundsLeft(view, cfgs, size, batch, cursor, p, left, scanCursor, items)
  {
  }

  /** On an ordered view a request returns the page that starts at its cursor's position. */
  lemma ScanIsPage(view: seq<Row>, cfgs: seq<FindingCfg>, desc: bool, width: nat, size: nat, batch: nat,
                   cursor: Option<Key>)
    requires Ordered(view, desc, width) && FitsView(cursor, width) && 0 < size && 0 < batch
    ensures
      var o := Scan(view, cfgs, desc, size, batch, cursor, MAX_ROUNDS, []);
      IsPageFor(view, cfgs, size, batch, Position(view, cursor, desc), o.items, o.next)
  {
    var p := Position(view, cursor, desc);
    var inv := (l: nat, c: Option<Key>, found: seq<Row>) => RoundsLeft(view, cfgs, size, batch, cursor, p, l, c, found);
    var good := (items: seq<Row>, next: Option<Key>) => IsPageFor(view, cfgs, size, batch, p, items, next);
    forall l: nat, c, found | inv(l, c, found) && |found| < size
      ensures RoundKeeps(view, cfgs, desc, size, batch, inv, good, l, c, found)
    {
      if l > 0 {
        var rows := Query(view, c, desc, batch);
        var (all, end) := Round(rows, cfgs, size, found);
        RoundLeadsOn(view, cfgs, desc, width, size, batch, cursor, p, l, c, found, rows, all, end);
      } else {
        NoRoundsLeft(view, cfgs, size, batch, cursor, p, c, found);
      }
    }
    assert view[p..][..0] == [];
    HasRoundsLeft(view, cfgs, size, batch, cursor, p, 0, 0, MAX_ROUNDS, cursor, []);
    ScanInduction(view, cfgs, desc, size, batch, inv, good, MAX_ROUNDS, cursor, []);
  }

  lemma QueryReads(view: seq<Row>, cfgs: seq<FindingCfg>, desc: bool, width: nat, size: nat, batch: nat,
                   cursor: Option<Key>, p: nat, pos: nat, round: nat, items: seq<Row>, scanCursor: Option<Key>)
    requires Ordered(view, desc, width) && FitsView(cursor, width) && p == Position(view, cursor, desc)
    requires Scanning(view, cfgs, size, batch, cursor, p, pos, round, items, scanCursor)
    ensures p + pos <= |view| && |items| < size
    ensures Query(view, scanCursor, desc, batch) == Take(view[p + pos..], batch)
  {
    if round > 0 {
      PositionOfRow(view, desc, width, p + pos - 1);
      assert NonNull(view[p + pos - 1].key);
    }
    SeekIsSuffix(view, scanCursor, desc, width);
  }

  lemma PageExhausted(view: seq<Row>, cfgs: seq<FindingCfg>, size: nat, batch: nat, cursor: Option<Key>,
                      p: nat, pos: nat, round: nat, items: seq<Row>, scanCursor: Option<Key>)
    requires 0 < batch && round < MAX_ROUNDS
    requires Scanning(view, cfgs, size, batch, cursor, p, pos, round, items, scanCursor)
    requires Take(view[p + pos..], batch) == []
    ensures IsPageFor(view, cfgs, size, batch, p, items, None)
  {
    QuotaLeft(round, batch);
    assert view[p..][..pos] == view[p..];
    FinishExhausted(view, cfgs, size, batch, p);
  }

  lemma PageFilled(view: seq<Row>, cfgs: seq<FindingCfg>, size: nat, batch: nat, cursor: Option<Key>,
                   p: nat, pos: nat, round: nat, before: seq<Row>, scanCursor: Option<Key>,
                   rows: seq<Row>, filledAt: nat, items: seq<Row>)
    requires 0 < batch && round < MAX_ROUNDS
    requires Scanning(view, cfgs, size, batch, cursor, p, pos, round, before, scanCursor)
    requires rows == Take(view[p + pos..], batch) && filledAt < |rows|
    requires items == before + AcceptedRows(rows[..filledAt + 1], cfgs)
    requires |before + AcceptedRows(rows[..filledAt], cfgs)| < size == |items|
    ensures IsPageFor(view, cfgs, size, batch, p, items, Some(rows[filledAt].key))
  {
    QuotaLeft(round, batch);
    ScannedRows(view, cfgs, size, p, pos, before, rows, filledAt);
    ScannedRows(view, cfgs, size, p, pos, before, rows, filledAt + 1);
    FinishFull(view, cfgs, size, batch, p, pos + filledAt);
  }

  lemma PageGoesOn(view: seq<Row>, cfgs: seq<FindingCfg>, size: nat, batch: nat, cursor: Option<Key>,
                   p: nat, pos: nat, round: nat, before: seq<Row>, scanCursor: Option<Key>,
                   rows: seq<Row>, items: seq<Row>)
    requires 0 < batch
    requires Scanning(view, cfgs, size, batch, cursor, p, pos, round, before, scanCursor)
    requires rows == Take(view[p + pos..], batch) && rows != []
    requires items == before + AcceptedRows(rows, cfgs) && |items| < size
    ensures Scanning(view, cfgs, size, batch, cursor, p, pos + |rows|, round + 1, items,
                     Some(rows[|rows| - 1].key))
  {
    var n := |rows|;
    RoundAdds(view, p, pos, Quota(round, batch), batch, rows);
    assert Quota(round + 1, batch) == Quota(round, batch) + batch;
    assert Scanned(view, cfgs, size, p, pos + n, items) by {
      assert rows == rows[..n];
      ScannedRows(view, cfgs, size, p, pos, before, rows, n);
    }
  }

  lemma RoundAdds(view: seq<Row>, p: nat, pos: nat, quota: nat, batch: nat, rows: seq<Row>)
    requires p + pos <= |view| && AfterRounds(view, p, pos, quota)
    requires rows == Take(view[p + pos..], batch) && rows != []
    ensures p + pos + |rows| <= |view| && AfterRounds(view, p, pos + |rows|, quota + batch) && pos + |rows| > quota
    ensures rows[|rows| - 1] == view[p + pos + |rows| - 1]
  {
  }

  lemma PageCutShort(view: seq<Row>, cfgs: seq<FindingCfg>, size: nat, batch: nat, cursor: Option<Key>,
                     p: nat, pos: nat, items: seq<Row>, scanCursor: Option<Key>)
    requires Scanning(view, cfgs, size, batch, cursor, p, pos, MAX_ROUNDS, items, scanCursor)
    ensures IsPageFor(view, cfgs, size, batch, p, items, if items != [] then scanCursor else None)
  {
    QuotaIs(MAX_ROUNDS - 1, batch);
    QuotaIs(MAX_ROUNDS, batch);
    FinishRounds(view, cfgs, size, batch, p, pos);
  }

  lemma FinishFull(view: seq<Row>, cfgs: seq<FindingCfg>, size: nat, batch: nat, p: nat, m: nat)
    requires p <= |view| && m < |view[p..]| && m < MAX_ROUNDS * batch
    requires |AcceptedRows(view[p..][..m], cfgs)| < size == |AcceptedRows(view[p..][..m + 1], cfgs)|
    ensures PageAt(view, cfgs, size, batch, p) == Page(AcceptedRows(view[p..][..m + 1], cfgs), Some(p + m + 1))
  {
    var rest, window := view[p..], Window(view, batch, p);
    assert window[..m] == rest[..m] && window[..m + 1] == rest[..m + 1];
    RowsForReached(window, cfgs, size, m);
  }

  lemma FinishExhausted(view: seq<Row>, cfgs: seq<FindingCfg>, size: nat, batch: nat, p: nat)
    requires p <= |view| && |view| - p <= (MAX_ROUNDS - 1) * batch
    requires |AcceptedRows(view[p..], cfgs)| < size
    ensures PageAt(view, cfgs, size, batch, p) == Page(AcceptedRows(view[p..], cfgs), None)
  {
    assert Window(view, batch, p) == view[p..];
    RowsForExhausted(view[p..], cfgs, size);
    assert view[p..][..|view[p..]|] == view[p..];
  }

  lemma FinishRounds(view: seq<Row>, cfgs: seq<FindingCfg>, size: nat, batch: nat, p: nat, pos: nat)
    requires p <= |view| && pos == |Window(view, batch, p)|
    requires (MAX_ROUNDS - 1) * batch < pos
    requires |AcceptedRows(view[p..][..pos], cfgs)| < size
    ensures
      var items := AcceptedRows(view[p..][..pos], cfgs);
      PageAt(view, cfgs, size, batch, p) == Page(items, if items == [] then None else Some(p + pos))
  {
    var window := Window(view, batch, p);
    assert window == view[p..][..pos] && window[..pos] == window;
    RowsForExhausted(window, cfgs, size);
  }

  // ---------------------------------------------------------------- following the cursors

  /** The cursor a page returns makes the next request start where the page ended. */
  lemma CursorContinues(view: seq<Row>, desc: bool, width: nat, next: nat)
    requires Ordered(view, desc, width) && 0 < next <= |view|
    ensures FitsView(CursorAt(view, Some(next)), width)
    ensures Position(view, CursorAt(view, Some(next)), desc) == next
  {
    PositionOfRow(view, desc, width, next - 1);
    assert NonNull(view[next - 1].key);
  }

  /** Cursors lead forward. */
  ghost predicate Advancing(at: seq<Page>) {
    forall p :: 0 <= p < |at| && at[p].next.Some? ==> p < at[p].next.value < |at|
  }

  /** The page a request returns, for every position it can start at. */
  ghost function Pages(view: seq<Row>, cfgs: seq<FindingCfg>, size: nat, batch: nat): (at: seq<Page>)
    requires 0 < size && 0 < batch
    ensures |at| == |view| + 1 && Advancing(at)
  {
    PagesAdvance(view, cfgs, size, batch);
    seq(|view| + 1, p requires 0 <= p <= |view| => PageAt(view, cfgs, size, batch, p))
  }

  lemma PagesAdvance(view: seq<Row>, cfgs: seq<FindingCfg>, size: nat, batch: nat)
    requires 0 < size && 0 < batch
    ensures forall p :: 0 <= p <= |view| ==>
      var next := PageAt(view, cfgs, size, batch, p).next;
      next.Some? ==> p < next.value <= |view|
  {
    forall p | 0 <= p <= |view|
      ensures
        var next := PageAt(view, cfgs, size, batch, p).next;
        next.Some? ==> p < next.value <= |view|
    {
    }
  }

  /** The items of every page, from position `p` on, until a request returns no cursor. */
  ghost function Walk(at: seq<Page>, p: nat): seq<Row>
    requires Advancing(at) && p < |at|
    decreases |at| - p
  {
    at[p].items + (if at[p].next.None? then [] else Walk(at, at[p].next.value))
  }

  /** The items of the first `k` pages. */
  ghost function FirstPages(at: seq<Page>, p: nat, k: nat): seq<Row>
    requires Advancing(at) && p < |at|
    decreases k
  {
    if k == 0 then []
    else at[p].items + (if at[p].next.None? then [] else FirstPages(at, at[p].next.value, k - 1))
  }

  /** How far the first `k` pages have read. */
  ghost function Reach(at: seq<Page>, view: seq<Row>, batch: nat, p: nat, k: nat): nat
    requires Advancing(at) && p < |at| == |view| + 1
    decreases k
  {
    if k == 0 then p
    else if at[p].next.None? then p + |Window(view, batch, p)|
    else Reach(at, view, batch, at[p].next.value, k - 1)
  }

  /** A request starts at position `s` when the cursors are followed from `p`. */
  ghost predicate Requested(at: seq<Page>, p: nat, s: nat)
    requires Advancing(at) && p < |at|
    decreases |at| - p
  {
    s == p || (at[p].next.Some? && Requested(at, at[p].next.value, s))
  }

  /** The request at `s` reads nothing but rejected rows for all its rounds although accepted ones follow. */
  predicate Stalls(view: seq<Row>, cfgs: seq<FindingCfg>, batch: nat, s: nat) {
    && s <= |view|
    && AcceptedRows(Window(view, batch, s), cfgs) == []
    && AcceptedRows(view[s..], cfgs) != []
  }

  /** The page holds exactly the accepted rows between its start and its end; without a next page, either the data
      has ended or nothing in the window was accepted. */
  ghost predicate Exact(page: Page, view: seq<Row>, cfgs: seq<FindingCfg>, size: nat, batch: nat, p: nat)
    requires p <= |view|
  {
    && |page.items| <= size
    && match page.next
      case Some(m) =>
        p < m <= p + |Window(view, batch, p)| && page.items == AcceptedRows(view[p..m], cfgs) && page.items != []
      case None =>
        && page.items == AcceptedRows(Window(view, batch, p), cfgs)
        && (page.items == [] || Window(view, batch, p) == view[p..])
  }

  lemma PageIsExact(view: seq<Row>, cfgs: seq<FindingCfg>, size: nat, batch: nat, p: nat)
    requires 0 < size && 0 < batch && p <= |view|
    ensures Exact(PageAt(view, cfgs, size, batch, p), view, cfgs, size, batch, p)
  {
    var window := Window(view, batch, p);
    var n := RowsFor(window, cfgs, size);
    RowsForCounts(window, cfgs, size);
    assert window[..n] == view[p..p + n];
    if |AcceptedRows(window[..n], cfgs)| < size {
      assert window[..n] == window;
      assert view[p..p + |window|] == window;
    }
  }

  ghost predicate AllExact(at: seq<Page>, view: seq<Row>, cfgs: seq<FindingCfg>, size: nat, batch: nat) {
    && |at| == |view| + 1 && Advancing(at)
    && forall p :: 0 <= p <= |view| ==> Exact(at[p], view, cfgs, size, batch, p)
  }

  lemma PagesAreExact(view: seq<Row>, cfgs: seq<FindingCfg>, size: nat, batch: nat)
    requires 0 < size && 0 < batch
    ensures AllExact(Pages(view, cfgs, size, batch), view, cfgs, size, batch)
  {
    forall p | 0 <= p <= |view|
      ensures Exact(Pages(view, cfgs, size, batch)[p], view, cfgs, size, batch, p)
    {
      PageIsExact(view, cfgs, size, batch, p);
    }
  }

  lemma PrefixOfAccepted(view: seq<Row>, cfgs: seq<FindingCfg>, p: nat, q: nat, items: seq<Row>)
    requires p <= q <= |view| && items == AcceptedRows(view[p..q], cfgs)
    ensures items <= AcceptedRows(view[p..], cfgs)
  {
    AcceptedConcat(view[p..q], view[q..], cfgs);
    assert view[p..] == view[p..q] + view[q..];
  }

  lemma AcceptedBetween(view: seq<Row>, cfgs: seq<FindingCfg>, p: nat, m: nat, q: nat)
    requires p <= m <= q <= |view|
    ensures AcceptedRows(view[p..q], cfgs) == AcceptedRows(view[p..m], cfgs) + AcceptedRows(view[m..q], cfgs)
  {
    AcceptedConcat(view[p..m], view[m..q], cfgs);
    assert view[p..q] == view[p..m] + view[m..q];
  }

  /** The first `k` pages hold exactly the accepted rows up to where they have read. */
  ghost predicate ExactSoFar(at: seq<Page>, view: seq<Row>, cfgs: seq<FindingCfg>, batch: nat, p: nat, k: nat)
    requires Advancing(at) && p < |at| == |view| + 1
  {
    var q := Reach(at, view, batch, p, k);
    p <= q <= |view| && FirstPages(at, p, k) == AcceptedRows(view[p..q], cfgs)
  }

  lemma LastPageIsExact(at: seq<Page>, view: seq<Row>, cfgs: seq<FindingCfg>, size: nat, batch: nat, p: nat, k: nat)
    requires Advancing(at) && p < |at| == |view| + 1 && k > 0
    requires Exact(at[p], view, cfgs, size, batch, p) && at[p].next.None?
    ensures ExactSoFar(at, view, cfgs, batch, p, k)
  {
    assert view[p..p + |Window(view, batch, p)|] == Window(view, batch, p);
  }

  lemma OnePageMore(at: seq<Page>, view: seq<Row>, cfgs: seq<FindingCfg>, size: nat, batch: nat, p: nat, k: nat)
    requires Advancing(at) && p < |at| == |view| + 1 && k > 0
    requires Exact(at[p], view, cfgs, size, batch, p) && at[p].next.Some?
    requires ExactSoFar(at, view, cfgs, batch, at[p].next.value, k - 1)
    ensures ExactSoFar(at, view, cfgs, batch, p, k)
  {
    AcceptedBetween(view, cfgs, p, at[p].next.value, Reach(at, view, batch, p, k));
  }

  lemma {:induction false} FirstPagesAreExact(at: seq<Page>, view: seq<Row>, cfgs: seq<FindingCfg>, size: nat,
                                              batch: nat,
                                              p: nat, k: nat)
    requires AllExact(at, view, cfgs, size, batch) && p <= |view|
    ensures ExactSoFar(at, view, cfgs, batch, p, k)
    decreases k
  {
    assert Exact(at[p], view, cfgs, size, batch, p);
    if k == 0 {
      assert view[p..p] == [];
    } else if at[p].next.Some? {
      var m := at[p].next.value;
      FirstPagesAreExact(at, view, cfgs, size, batch, m, k - 1);
      assert ExactSoFar(at, view, cfgs, batch, m, k - 1);
      OnePageMore(at, view, cfgs, size, batch, p, k);
    } else {
      LastPageIsExact(at, view, cfgs, size, batch, p, k);
    }
  }

  /** At every point of the walk the pages hold a gap-free prefix of the accepted rows. */
  lemma PagesArePrefix(view: seq<Row>, cfgs: seq<FindingCfg>, size: nat, batch: nat, p: nat, k: nat)
    requires 0 < size && 0 < batch && p <= |view|
    ensures
      var at := Pages(view, cfgs, size, batch);
      var q := Reach(at, view, batch, p, k);
      && p <= q <= |view| && FirstPages(at, p, k) == AcceptedRows(view[p..q], cfgs)
      && FirstPages(at, p, k) <= AcceptedRows(view[p..], cfgs)
  {
    var at := Pages(view, cfgs, size, batch);
    PagesAreExact(view, cfgs, size, batch);
    FirstPagesAreExact(at, view, cfgs, size, batch, p, k);
    PrefixOfAccepted(view, cfgs, p, Reach(at, view, batch, p, k), FirstPages(at, p, k));
  }

  /** Paging ends, after at most as many requests as there are rows left plus one, with the whole walk. */
  lemma {:induction false} PagingTerminates(at: seq<Page>, p: nat, k: nat)
    requires Advancing(at) && p < |at| && k >= |at| - p
    ensures FirstPages(at, p, k) == Walk(at, p)
    decreases |at| - p
  {
    if at[p].next.Some? {
      PagingTerminates(at, at[p].next.value, k - 1);
    }
  }

  /** A request reachable from `p` stalls. */
  ghost predicate SomeRequestStalls(at: seq<Page>, view: seq<Row>, cfgs: seq<FindingCfg>, batch: nat, p: nat)
    requires Advancing(at) && p < |at|
  {
    exists s :: Requested(at, p, s) && Stalls(view, cfgs, batch, s)
  }

  lemma StallsLast(at: seq<Page>, view: seq<Row>, cfgs: seq<FindingCfg>, batch: nat, p: nat)
    requires Advancing(at) && p < |at| && at[p].next.None?
    ensures SomeRequestStalls(at, view, cfgs, batch, p) <==> Stalls(view, cfgs, batch, p)
  {
    assert forall s :: Requested(at, p, s) ==> s == p;
    assert Requested(at, p, p);
  }

  lemma {:induction false} ExactWalkIsComplete(at: seq<Page>, view: seq<Row>, cfgs: seq<FindingCfg>, size: nat,
                                               batch: nat,
                                               p: nat)
    requires AllExact(at, view, cfgs, size, batch) && p <= |view|
    ensures Walk(at, p) == AcceptedRows(view[p..], cfgs) <==> !SomeRequestStalls(at, view, cfgs, batch, p)
    decreases |view| - p
  {
    assert Exact(at[p], view, cfgs, size, batch, p);
    if at[p].next.Some? {
      var m := at[p].next.value;
      PageWithItemsDoesNotStall(at[p], view, cfgs, size, batch, p);
      ExactWalkIsComplete(at, view, cfgs, size, batch, m);
      AcceptedBetween(view, cfgs, p, m, |view|);
      assert view[p..|view|] == view[p..] && view[m..|view|] == view[m..];
      SamePrefixCancels(at[p].items, Walk(at, m), AcceptedRows(view[m..], cfgs));
    } else {
      StallsLast(at, view, cfgs, batch, p);
    }
  }

  /** The walk returns every accepted row exactly if none of its requests stalls. */
  lemma WalkIsComplete(view: seq<Row>, cfgs: seq<FindingCfg>, size: nat, batch: nat, p: nat)
    requires 0 < size && 0 < batch && p <= |view|
    ensures
      var at := Pages(view, cfgs, size, batch);
      Walk(at, p) == AcceptedRows(view[p..], cfgs) <==> !SomeRequestStalls(at, view, cfgs, batch, p)
  {
    PagesAreExact(view, cfgs, size, batch);
    ExactWalkIsComplete(Pages(view, cfgs, size, batch), view, cfgs, size, batch, p);
  }

  lemma SamePrefixCancels<T>(xs: seq<T>, ys: seq<T>, zs: seq<T>)
    ensures xs + ys == xs + zs <==> ys == zs
  {
    assert (xs + ys)[|xs|..] == ys && (xs + zs)[|xs|..] == zs;
  }

  lemma PageWithItemsDoesNotStall(page: Page, view: seq<Row>, cfgs: seq<FindingCfg>, size: nat, batch: nat, p: nat)
    requires p <= |view| && Exact(page, view, cfgs, size, batch, p) && page.next.Some?
    ensures !Stalls(view, cfgs, batch, p)
  {
    var end := p + |Window(view, batch, p)|;
    assert Window(view, batch, p) == view[p..end];
    AcceptedBetween(view, cfgs, p, page.next.value, end);
  }

  /** What a caller can rely on: if every stretch of all rounds' batches has an accepted row, nothing is lost. */
  lemma NoLongRejectedStretchNoLoss(view: seq<Row>, cfgs: seq<FindingCfg>, size: nat, batch: nat)
    requires 0 < size && 0 < batch
    requires forall s :: 0 <= s && s + MAX_ROUNDS * batch <= |view| ==>
               AcceptedRows(view[s..][..MAX_ROUNDS * batch], cfgs) != []
    ensures Walk(Pages(view, cfgs, size, batch), 0) == AcceptedRows(view, cfgs)
  {
    WalkIsComplete(view, cfgs, size, batch, 0);
    assert view[0..] == view;
    forall s: nat | s <= |view|
      ensures !Stalls(view, cfgs, batch, s)
    {
      if s + MAX_ROUNDS * batch <= |view| {
        assert Window(view, batch, s) == view[s..][..MAX_ROUNDS * batch];
      } else {
        assert Window(view, batch, s) == view[s..];
      }
    }
  }

  /** The same by the limit requested: a request reads a hundred times as many rows as it may return, which are one at
      least and two hundred at most. Nothing is lost if every stretch of that many rows has an accepted one. */
  lemma NoLossForLimit(view: seq<Row>, cfgs: seq<FindingCfg>, limit: int, rows: nat)
    requires rows == if limit <= 1 then 100 else if limit >= 200 then 20000 else 100 * limit
    requires forall s :: 0 <= s && s + rows <= |view| ==> AcceptedRows(view[s..][..rows], cfgs) != []
    ensures Walk(Pages(view, cfgs, PageSize(limit), RawBatch(limit)), 0) == AcceptedRows(view, cfgs)
    ensures PageSize(limit) * 100 == rows
  {
    assert MAX_ROUNDS * RawBatch(limit) == rows;
    NoLongRejectedStretchNoLoss(view, cfgs, PageSize(limit), RawBatch(limit));
  }

  /** The accepted rows keep the strict order of the view, so no row is returned twice. */
  lemma {:induction false} AcceptedStayOrdered(view: seq<Row>, cfgs: seq<FindingCfg>, desc: bool, width: nat)
    requires Ordered(view, desc, width)
    ensures Ordered(AcceptedRows(view, cfgs), desc, width)
    ensures forall r :: r in AcceptedRows(view, cfgs) <==> r in view && Accepted(r, cfgs)
  {
    if view != [] {
      var rest := AcceptedRows(view[1..], cfgs);
      OrderedRest(view, desc, width);
      AcceptedStayOrdered(view[1..], cfgs, desc, width);
      assert forall r :: r in view <==> r == view[0] || r in view[1..];
      forall j | 0 <= j < |rest|
        ensures AfterCursor(rest[j].key, Some(view[0].key), desc)
      {
        assert rest[j] in view[1..];
        var i :| 0 <= i < |view[1..]| && view[1..][i] == rest[j];
        assert AfterCursor(view[i + 1].key, Some(view[0].key), desc);
      }
      assert NonNull(view[0].key);
      assert AcceptedRows(view, cfgs) == if Accepted(view[0], cfgs) then [view[0]] + rest else rest;
    }
  }
}
