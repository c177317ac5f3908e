/**
 The bulk upsert of artefact metadata and the discovery dates that new rows inherit. (src/metadata.py)
 */
module Upsert {
  import opened Common

  // ---------------------------------------------------------------- rows

  /** `rest` stands for the parts of an artefact's identity that queries do not look at. */
  datatype Artefact = Artefact(component: string, name: string, rest: string)

  /** `lastUpdate` is absent in rows written without it. */
  datatype Meta = Meta(lastUpdate: Option<string>, responsibles: Option<string>, assigneeMode: Option<string>,
                       creationDate: string)

  datatype Row = Row(id: string, artefact: Artefact, ctype: string, datasource: string, data: string, meta: Meta,
                     date: Option<int>)

  datatype Query = Query(component: string, name: string, ctype: string, datasource: string)

  datatype Error = KeyError | IntegrityError

  type Rows = map<string, Row>

  function QueryOf(row: Row): Query {
    Query(row.artefact.component, row.artefact.name, row.ctype, row.datasource)
  }

  /** The stored row takes over the incoming payload; its identity, creation and discovery date stay. */
  function Merged(row: Row, e: Row): Row {
    row.(data := e.data,
         meta := row.meta.(lastUpdate := e.meta.lastUpdate, responsibles := e.meta.responsibles,
                           assigneeMode := e.meta.assigneeMode))
  }

  /** Artefact, type, datasource and creation date of both rows are the same. */
  predicate KeepsIdentity(row: Row, origin: Row) {
    && row.artefact == origin.artefact && row.ctype == origin.ctype && row.datasource == origin.datasource
    && row.meta.creationDate == origin.meta.creationDate
  }

  // ---------------------------------------------------------------- what is loaded

  predicate KeySeen(entries: seq<Row>, artefact: Artefact, ctype: string) {
    exists i :: 0 <= i < |entries| && entries[i].artefact == artefact && entries[i].ctype == ctype
  }

  /** The queries of the first entry of every artefact and type. */
  function Asked(entries: seq<Row>): set<Query> {
    if entries == [] then {}
    else
      var n := |entries| - 1;
      var e := entries[n];
      Asked(entries[..n]) + if KeySeen(entries[..n], e.artefact, e.ctype) then {} else {QueryOf(e)}
  }

  /** The rows matching a query, in the order the database returns them. */
  function Loaded(rows: Rows, scan: seq<string>, asked: set<Query>): seq<Row>
    requires forall id :: id in scan ==> id in rows
  {
    if scan == [] then []
    else
      var n := |scan| - 1;
      Loaded(rows, scan[..n], asked) + if QueryOf(rows[scan[n]]) in asked then [rows[scan[n]]] else []
  }

  const EPOCH := "1970-01-01T00:00:00+00:00"

  function UpdatedAt(row: Row): string {
    if row.meta.lastUpdate.Some? then row.meta.lastUpdate.value else EPOCH
  }

  function InsertLatest(x: Row, xs: seq<Row>): seq<Row> {
    if xs == [] || TextLe(UpdatedAt(xs[0]), UpdatedAt(x)) then [x] + xs else [xs[0]] + InsertLatest(x, xs[1..])
  }

  /** Stable, latest update first. */
  function LatestFirst(xs: seq<Row>): seq<Row> {
    if xs == [] then [] else InsertLatest(xs[0], LatestFirst(xs[1..]))
  }

  predicate IsOf(row: Row, g: string, group: Row -> Option<string>) {
    group(row) == Some(g)
  }

  function FirstOf(xs: seq<Row>, g: string, group: Row -> Option<string>): (r: Option<Row>)
    ensures r.Some? ==> r.value in xs && IsOf(r.value, g, group)
  {
    if xs == [] then None else if IsOf(xs[0], g, group) then Some(xs[0]) else FirstOf(xs[1..], g, group)
  }

  function LastOf(xs: seq<Row>, g: string, group: Row -> Option<string>): (r: Option<Row>)
    ensures r.Some? ==> r.value in xs && IsOf(r.value, g, group)
    ensures r.None? ==> forall x :: x in xs ==> !IsOf(x, g, group)
  {
    if xs == [] then None
    else if IsOf(xs[|xs| - 1], g, group) then Some(xs[|xs| - 1])
    else LastOf(xs[..|xs| - 1], g, group)
  }

  // ---------------------------------------------------------------- reference: one linear scan per entry

  /** Rows that were there (some updated), rows created, and the created rows as they were at first. */
  datatype Work = Work(updated: Rows, created: Rows, log: seq<Row>)

  /** The date of the group's last created row, else of its most recently updated stored row, else its own. */
  function Inherited(e: Row, log: seq<Row>, stored: seq<Row>, group: Row -> Option<string>): Option<int> {
    if group(e).None? then e.date
    else
      var g := group(e).value;
      var candidate := if LastOf(log, g, group).Some? then LastOf(log, g, group) else FirstOf(stored, g, group);
      if candidate.Some? && candidate.value.date.Some? then candidate.value.date else e.date
  }

  function ApplyOne(w: Work, e: Row, asked: set<Query>, stored: seq<Row>, group: Row -> Option<string>)
    : Result<Work, Error>
  {
    if e.id in w.created then
      if w.created[e.id].meta.lastUpdate.None? then Err(KeyError)
      else Ok(w.(created := w.created[e.id := Merged(w.created[e.id], e)]))
    else if e.id in w.updated && QueryOf(w.updated[e.id]) in asked then
      if w.updated[e.id].meta.lastUpdate.None? then Err(KeyError)
      else Ok(w.(updated := w.updated[e.id := Merged(w.updated[e.id], e)]))
    else
      var row := e.(date := Inherited(e, w.log, stored, group));
      Ok(w.(created := w.created[e.id := row], log := w.log + [row]))
  }

  function Apply(rows: Rows, entries: seq<Row>, asked: set<Query>, stored: seq<Row>, group: Row -> Option<string>)
    : Result<Work, Error>
  {
    if entries == [] then Ok(Work(rows, map[], []))
    else
      var n := |entries| - 1;
      var before := Apply(rows, entries[..n], asked, stored, group);
      if before.Err? then before else ApplyOne(before.value, entries[n], asked, stored, group)
  }

  function Outcome(rows: Rows, entries: seq<Row>, scan: seq<string>, group: Row -> Option<string>): Result<Rows, Error>
    requires forall id :: id in scan ==> id in rows
  {
    var stored := LatestFirst(Loaded(rows, scan, Asked(entries)));
    var w := Apply(rows, entries, Asked(entries), stored, group);
    if w.Err? then Err(w.error)
    else if w.value.created.Keys * rows.Keys != {} then Err(IntegrityError)
    else Ok(w.value.updated + w.value.created)
  }

  // ---------------------------------------------------------------- the indexed upsert

  /** The database lists every row once, in whatever order. */
  ghost predicate Lists(scan: seq<string>, rows: Rows) {
    Distinct(scan) && forall id :: id in scan <==> id in rows
  }

  ghost predicate Indexes(byGroup: map<string, Row>, xs: seq<Row>, group: Row -> Option<string>) {
    forall g :: if g in byGroup then FirstOf(xs, g, group) == Some(byGroup[g]) else FirstOf(xs, g, group) == None
  }

  ghost predicate IndexesLast(byGroup: map<string, Row>, log: seq<Row>, group: Row -> Option<string>) {
    forall g :: if g in byGroup then LastOf(log, g, group) == Some(byGroup[g]) else LastOf(log, g, group) == None
  }

  lemma {:induction false} FirstOfAppends(xs: seq<Row>, x: Row, g: string, group: Row -> Option<string>)
    ensures
      FirstOf(xs + [x], g, group) ==
      if FirstOf(xs, g, group).Some? then FirstOf(xs, g, group) else if IsOf(x, g, group) then Some(x) else None
  {
    if xs == [] {
    } else {
      FirstOfAppends(xs[1..], x, g, group);
      assert (xs + [x])[1..] == xs[1..] + [x];
    }
  }

  method CollectQueries(entries: seq<Row>) returns (asked: set<Query>)
    ensures asked == Asked(entries)
  {
    var artefacts: map<(Artefact, string), Row> := map[];
    asked := {};
    for i := 0 to |entries|
      invariant forall a, t :: (a, t) in artefacts <==> KeySeen(entries[..i], a, t)
      invariant asked == Asked(entries[..i])
    {
      var e := entries[i];
      assert entries[..i + 1][..i] == entries[..i];
      if (e.artefact, e.ctype) !in artefacts {
        artefacts := artefacts[(e.artefact, e.ctype) := e];
        asked := asked + {QueryOf(e)};
      }
      forall a, t
        ensures KeySeen(entries[..i + 1], a, t) <==> KeySeen(entries[..i], a, t) || (e.artefact == a && e.ctype == t)
      {
        assert entries[..i + 1][i] == e;
        assert forall k :: 0 <= k < i ==> entries[..i + 1][k] == entries[..i][k];
      }
    }
    assert entries[..|entries|] == entries;
  }

  method LoadRows(rows: Rows, scan: seq<string>, asked: set<Query>) returns (loaded: seq<Row>)
    requires forall id :: id in scan ==> id in rows
    ensures loaded == Loaded(rows, scan, asked)
  {
    loaded := [];
    for i := 0 to |scan|
      invariant loaded == Loaded(rows, scan[..i], asked)
    {
      assert scan[..i + 1][..i] == scan[..i];
      if QueryOf(rows[scan[i]]) in asked {
        loaded := loaded + [rows[scan[i]]];
      }
    }
    assert scan[..|scan|] == scan;
  }

  method IndexStored(stored: seq<Row>, incoming: set<string>, group: Row -> Option<string>)
    returns (byId: set<string>, byGroup: map<string, Row>)
    ensures byId == set row | row in stored && row.id in incoming :: row.id
    ensures Indexes(byGroup, stored, group)
  {
    byId, byGroup := {}, map[];
    for i := 0 to |stored|
      invariant byId == set row | row in stored[..i] && row.id in incoming :: row.id
      invariant Indexes(byGroup, stored[..i], group)
    {
      var entry := stored[i];
      assert stored[..i + 1] == stored[..i] + [entry];
      if entry.id in incoming {
        byId := byId + {entry.id};
      }
      forall g
        ensures
          FirstOf(stored[..i + 1], g, group) ==
          if FirstOf(stored[..i], g, group).Some? then FirstOf(stored[..i], g, group)
          else if IsOf(entry, g, group) then Some(entry) else None
      {
        FirstOfAppends(stored[..i], entry, g, group);
      }
      var key := group(entry);
      if key.Some? && key.value !in byGroup {
        byGroup := byGroup[key.value := entry];
      }
    }
    assert stored[..|stored|] == stored;
  }

  lemma {:induction false} LoadedMembers(rows: Rows, scan: seq<string>, asked: set<Query>, row: Row)
    requires forall id :: id in scan ==> id in rows
    ensures row in Loaded(rows, scan, asked) <==> QueryOf(row) in asked && exists id :: id in scan && rows[id] == row
  {
    if scan != [] {
      var n := |scan| - 1;
      var init, last := scan[..n], rows[scan[n]];
      LoadedMembers(rows, init, asked, row);
      assert row in Loaded(rows, scan, asked) <==>
        row in Loaded(rows, init, asked) || (QueryOf(last) in asked && row == last);
      if id :| id in scan && rows[id] == row {
        assert id in init || id == scan[n];
      }
      assert scan[n] in scan && forall id :: id in init ==> id in scan;
    }
  }

  lemma {:induction false} InsertLatestMembers(x: Row, xs: seq<Row>, row: Row)
    ensures row in InsertLatest(x, xs) <==> row == x || row in xs
  {
    if xs != [] && !TextLe(UpdatedAt(xs[0]), UpdatedAt(x)) {
      InsertLatestMembers(x, xs[1..], row);
      assert row in xs <==> row == xs[0] || row in xs[1..];
      assert row in InsertLatest(x, xs) <==> row == xs[0] || row in InsertLatest(x, xs[1..]);
    } else {
      assert InsertLatest(x, xs) == [x] + xs;
    }
  }

  lemma {:induction false} LatestFirstMembers(xs: seq<Row>, row: Row)
    ensures row in LatestFirst(xs) <==> row in xs
  {
    if xs != [] {
      LatestFirstMembers(xs[1..], row);
      InsertLatestMembers(xs[0], LatestFirst(xs[1..]), row);
      assert xs == [xs[0]] + xs[1..];
    }
  }

  function Stored(rows: Rows, scan: seq<string>, entries: seq<Row>): seq<Row>
    requires forall id :: id in scan ==> id in rows
  {
    LatestFirst(Loaded(rows, scan, Asked(entries)))
  }

  lemma StoredMembers(rows: Rows, scan: seq<string>, entries: seq<Row>, row: Row)
    requires Lists(scan, rows)
    ensures
      row in Stored(rows, scan, entries) <==>
      QueryOf(row) in Asked(entries) && exists id :: id in rows && rows[id] == row
  {
    LatestFirstMembers(Loaded(rows, scan, Asked(entries)), row);
    LoadedMembers(rows, scan, Asked(entries), row);
  }

  ghost predicate Valid(rows: Rows) {
    forall id :: id in rows ==> rows[id].id == id
  }

  function Ids(entries: seq<Row>): set<string> {
    set e | e in entries :: e.id
  }

  /** The rows found by id are the stored ones that answer a query. */
  ghost predicate IdsFound(byId: set<string>, rows: Rows, asked: set<Query>, incoming: set<string>) {
    forall id :: id in byId <==> id in incoming && id in rows && QueryOf(rows[id]) in asked
  }

  lemma FoundById(rows: Rows, scan: seq<string>, entries: seq<Row>, incoming: set<string>, byId: set<string>)
    requires Valid(rows) && Lists(scan, rows)
    requires byId == set row | row in Stored(rows, scan, entries) && row.id in incoming :: row.id
    ensures IdsFound(byId, rows, Asked(entries), incoming)
  {
    forall id
      ensures id in byId <==> id in incoming && id in rows && QueryOf(rows[id]) in Asked(entries)
    {
      if id in rows {
        StoredMembers(rows, scan, entries, rows[id]);
      }
      if id in byId {
        var row :| row in Stored(rows, scan, entries) && row.id in incoming && row.id == id;
        StoredMembers(rows, scan, entries, row);
      }
    }
  }

  ghost predicate SameQueries(a: Rows, b: Rows) {
    a.Keys == b.Keys && forall id :: id in a && id in b ==> QueryOf(a[id]) == QueryOf(b[id])
  }

  lemma IndexExtends(byGroup: map<string, Row>, log: seq<Row>, row: Row, key: Option<string>,
                     group: Row -> Option<string>)
    requires IndexesLast(byGroup, log, group) && group(row) == key
    ensures IndexesLast(if key.Some? then byGroup[key.value := row] else byGroup, log + [row], group)
  {
    assert (log + [row])[..|log|] == log;
  }

  method UpdateEntry(existing: Row, e: Row) returns (r: Result<Row, Error>)
    ensures r == if existing.meta.lastUpdate.None? then Err(KeyError) else Ok(Merged(existing, e))
    ensures r.Ok? ==>
      && r.value.data == e.data && r.value.meta.lastUpdate == e.meta.lastUpdate
      && r.value.meta.responsibles == e.meta.responsibles && r.value.meta.assigneeMode == e.meta.assigneeMode
      && KeepsIdentity(r.value, existing) && r.value.id == existing.id && r.value.date == existing.date
  {
    var row := existing.(data := e.data);
    if row.meta.lastUpdate.None? {
      return Err(KeyError);
    }
    row := row.(meta := row.meta.(lastUpdate := None));
    if row.meta.responsibles.Some? {
      row := row.(meta := row.meta.(responsibles := None));
    }
    if row.meta.assigneeMode.Some? {
      row := row.(meta := row.meta.(assigneeMode := None));
    }
    row := row.(meta := Meta(e.meta.lastUpdate, e.meta.responsibles, e.meta.assigneeMode, row.meta.creationDate));
    r := Ok(row);
  }

  method DiscoveryDate(e: Row, key: Option<string>, createdByGroup: map<string, Row>, existingByGroup: map<string, Row>,
                       ghost log: seq<Row>, ghost stored: seq<Row>, ghost group: Row -> Option<string>)
    returns (date: Option<int>)
    requires key == group(e) && IndexesLast(createdByGroup, log, group) && Indexes(existingByGroup, stored, group)
    ensures date == Inherited(e, log, stored, group)
  {
    date := e.date;
    if key.Some? {
      var found: Option<int> := None;
      if key.value in createdByGroup {
        found := createdByGroup[key.value].date;
      } else if key.value in existingByGroup {
        found := existingByGroup[key.value].date;
      }
      if found.Some? {
        date := found;
      }
    }
  }

  /** Which group a row belongs to does not depend on its discovery date. */
  ghost predicate IgnoresDate(group: Row -> Option<string>) {
    forall row: Row, d: Option<int> :: group(row.(date := d)) == group(row)
  }

  /** The working state of the indexed upsert stands for that of the linear scan. */
  ghost predicate Mirrors(w: Result<Work, Error>, updated: Rows, created: Rows, log: seq<Row>,
                          createdByGroup: map<string, Row>, group: Row -> Option<string>) {
    w == Ok(Work(updated, created, log)) && IndexesLast(createdByGroup, log, group)
  }

  /** The main loop of the upsert. */
  method ApplyIndexed(rows: Rows, entries: seq<Row>, byId: set<string>, byGroup: map<string, Row>,
                      group: Row -> Option<string>, ghost asked: set<Query>, ghost stored: seq<Row>)
    returns (updated: Rows, created: Rows, error: Option<Error>)
    requires IgnoresDate(group) && Indexes(byGroup, stored, group) && IdsFound(byId, rows, asked, Ids(entries))
    ensures
      var w := Apply(rows, entries, asked, stored, group);
      if error.Some? then w == Err(error.value) else w.Ok? && w.value.updated == updated && w.value.created == created
  {
    updated, created, error := rows, map[], None;
    var createdByGroup: map<string, Row> := map[];
    ghost var log: seq<Row> := [];
    for i := 0 to |entries|
      invariant Mirrors(Apply(rows, entries[..i], asked, stored, group), updated, created, log, createdByGroup, group)
      invariant SameQueries(updated, rows) && error.None?
    {
      var e := entries[i];
      TakeNext(entries, i);
      if e.id in created {
        var merged := UpdateEntry(created[e.id], e);
        if merged.Err? {
          ErrorStays(rows, entries, i + 1, asked, stored, group);
          return updated, created, Some(merged.error);
        }
        created := created[e.id := merged.value];
      } else if e.id in byId {
        var merged := UpdateEntry(updated[e.id], e);
        if merged.Err? {
          ErrorStays(rows, entries, i + 1, asked, stored, group);
          return updated, created, Some(merged.error);
        }
        updated := updated[e.id := merged.value];
      } else {
        var key := group(e);
        var date := DiscoveryDate(e, key, createdByGroup, byGroup, log, stored, group);
        var row := e.(date := date);
        IndexExtends(createdByGroup, log, row, key, group);
        created := created[e.id := row];
        if key.Some? {
          createdByGroup := createdByGroup[key.value := row];
        }
        log := log + [row];
      }
    }
    assert entries[..|entries|] == entries;
  }

  class MetadataTable {
    var rows: Rows

    /** With its indexes by id and group, the upsert does what a linear scan for each entry does; on an error
        nothing is stored. */
    method Put(entries: seq<Row>, scan: seq<string>, group: Row -> Option<string>) returns (r: Result<(), Error>)
      requires Valid(rows) && Lists(scan, rows) && IgnoresDate(group)
      modifies this
      ensures
        var outcome := Outcome(old(rows), entries, scan, group);
        && r == (if outcome.Ok? then Ok(()) else Err(outcome.error))
        && rows == if outcome.Ok? then outcome.value else old(rows)
    {
      var asked := CollectQueries(entries);
      var loaded := LoadRows(rows, scan, asked);
      var stored := LatestFirst(loaded);
      var byId, byGroup := IndexStored(stored, Ids(entries), group);
      FoundById(rows, scan, entries, Ids(entries), byId);
      var updated, created, error := ApplyIndexed(rows, entries, byId, byGroup, group, asked, stored);
      if error.Some? {
        return Err(error.value);
      }
      if created.Keys * rows.Keys != {} {
        return Err(IntegrityError);
      }
      rows := updated + created;
      r := Ok(());
    }
  }

  lemma {:induction false} ErrorStays(rows: Rows, entries: seq<Row>, i: nat, asked: set<Query>, stored: seq<Row>,
                                      group: Row -> Option<string>)
    requires i <= |entries| && Apply(rows, entries[..i], asked, stored, group).Err?
    ensures Apply(rows, entries, asked, stored, group) == Apply(rows, entries[..i], asked, stored, group)
    decreases |entries| - i
  {
    if i < |entries| {
      assert entries[..i + 1][..i] == entries[..i];
      ErrorStays(rows, entries, i + 1, asked, stored, group);
    } else {
      assert entries[..i] == entries;
    }
  }

  // ---------------------------------------------------------------- what the upsert achieves

  ghost predicate OneDatasource(entries: seq<Row>) {
    forall i, j :: 0 <= i < |entries| && 0 <= j < |entries| ==>
      entries[i].artefact == entries[j].artefact && entries[i].ctype == entries[j].ctype ==>
      entries[i].datasource == entries[j].datasource
  }

  /** The identifier determines what is queried, and one artefact and type has one datasource. */
  ghost predicate Consistent(rows: Rows, entries: seq<Row>) {
    && (forall e :: e in entries && e.id in rows ==> QueryOf(e) == QueryOf(rows[e.id]))
    && OneDatasource(entries)
  }

  /** `last_update` is filled in on arrival; the stored rows to update have it as well. */
  ghost predicate Dated(rows: Rows, entries: seq<Row>) {
    && (forall e :: e in entries ==> e.meta.lastUpdate.Some?)
    && (forall e :: e in entries && e.id in rows ==> rows[e.id].meta.lastUpdate.Some?)
  }

  lemma {:induction false} EveryEntryIsAsked(entries: seq<Row>, e: Row)
    requires e in entries
    requires OneDatasource(entries)
    ensures QueryOf(e) in Asked(entries)
  {
    var n := |entries| - 1;
    var before := entries[..n];
    assert entries == before + [entries[n]];
    if e in before {
      EveryEntryIsAsked(before, e);
    } else if KeySeen(before, e.artefact, e.ctype) {
      var i :| 0 <= i < |before| && before[i].artefact == e.artefact && before[i].ctype == e.ctype;
      assert before[i] in entries;
      EveryEntryIsAsked(before, before[i]);
    }
  }

  function First(entries: seq<Row>, id: string): (e: Row)
    requires id in Ids(entries)
    ensures e in entries && e.id == id
  {
    if entries[0].id == id then entries[0]
    else
      assert entries == [entries[0]] + entries[1..];
      First(entries[1..], id)
  }

  function Last(entries: seq<Row>, id: string): (e: Row)
    requires id in Ids(entries)
    ensures e in entries && e.id == id
  {
    var n := |entries| - 1;
    if entries[n].id == id then entries[n]
    else
      assert entries == entries[..n] + [entries[n]];
      Last(entries[..n], id)
  }

  lemma {:induction false} FirstStays(entries: seq<Row>, e: Row, id: string)
    requires id in Ids(entries)
    ensures id in Ids(entries + [e]) && First(entries + [e], id) == First(entries, id)
  {
    var x :| x in entries && x.id == id;
    assert x in entries + [e];
    if entries[0].id != id {
      assert entries == [entries[0]] + entries[1..];
      assert (entries + [e])[1..] == entries[1..] + [e];
      FirstStays(entries[1..], e, id);
    }
  }

  lemma FirstOfNew(entries: seq<Row>, e: Row)
    requires e.id !in Ids(entries)
    ensures e.id in Ids(entries + [e]) && First(entries + [e], e.id) == e
    decreases |entries|
  {
    assert e in entries + [e];
    if entries != [] {
      assert entries[0] in entries;
      assert (entries + [e])[1..] == entries[1..] + [e];
      assert forall x :: x in entries[1..] ==> x in entries;
      FirstOfNew(entries[1..], e);
    }
  }

  /** Everything about a row but its discovery date. */
  predicate AgreeButDate(a: Row, b: Row) {
    a.(date := None) == b.(date := None)
  }

  /** The row with this identifier is among those loaded. */
  predicate Hit(rows: Rows, asked: set<Query>, id: string) {
    id in rows && QueryOf(rows[id]) in asked
  }

  /** What the entries so far have made of one identifier. */
  ghost predicate ReflectsAt(rows: Rows, asked: set<Query>, entries: seq<Row>, w: Work, id: string) {
    && (id in w.updated <==> id in rows)
    && (id in w.created <==> id in Ids(entries) && !Hit(rows, asked, id))
    && (id in rows && id in w.updated ==>
          w.updated[id] ==
          if id in Ids(entries) && Hit(rows, asked, id) then Merged(rows[id], Last(entries, id)) else rows[id])
    && (id in w.created && id in Ids(entries) ==>
          AgreeButDate(w.created[id], Merged(First(entries, id), Last(entries, id))))
  }

  ghost predicate Reflects(rows: Rows, asked: set<Query>, entries: seq<Row>, w: Work) {
    forall id :: ReflectsAt(rows, asked, entries, w, id)
  }

  lemma StepElsewhere(rows: Rows, asked: set<Query>, entries: seq<Row>, e: Row, w: Work, w': Work, id: string)
    requires ReflectsAt(rows, asked, entries, w, id) && id != e.id
    requires w'.updated - {e.id} == w.updated - {e.id} && w'.created - {e.id} == w.created - {e.id}
    ensures ReflectsAt(rows, asked, entries + [e], w', id)
  {
    assert id in w'.updated <==> id in w'.updated - {e.id};
    assert id in w.updated <==> id in w.updated - {e.id};
    assert id in w'.created <==> id in w'.created - {e.id};
    assert id in w.created <==> id in w.created - {e.id};
    if id in w.updated {
      assert (w.updated - {e.id})[id] == w.updated[id] && (w'.updated - {e.id})[id] == w'.updated[id];
    }
    if id in w.created {
      assert (w.created - {e.id})[id] == w.created[id] && (w'.created - {e.id})[id] == w'.created[id];
    }
    if id in Ids(entries) {
      FirstStays(entries, e, id);
    }
  }

  lemma CreateReflects(rows: Rows, asked: set<Query>, entries: seq<Row>, e: Row, w: Work, w': Work)
    requires ReflectsAt(rows, asked, entries, w, e.id) && !Hit(rows, asked, e.id)
    requires e.id in w'.created && w'.updated == w.updated
    requires
      if e.id in w.created then w'.created[e.id] == Merged(w.created[e.id], e) else AgreeButDate(w'.created[e.id], e)
    ensures ReflectsAt(rows, asked, entries + [e], w', e.id)
    ensures First(entries + [e], e.id) == if e.id in w.created then First(entries, e.id) else e
  {
    if e.id in w.created {
      FirstStays(entries, e, e.id);
    } else {
      FirstOfNew(entries, e);
    }
  }

  lemma StepReflects(rows: Rows, asked: set<Query>, entries: seq<Row>, e: Row, w: Work, w': Work, stored: seq<Row>,
                     group: Row -> Option<string>)
    requires Reflects(rows, asked, entries, w) && ApplyOne(w, e, asked, stored, group) == Ok(w')
    ensures Reflects(rows, asked, entries + [e], w')
  {
    assert ReflectsAt(rows, asked, entries, w, e.id);
    forall id
      ensures ReflectsAt(rows, asked, entries + [e], w', id)
    {
      if id != e.id {
        assert ReflectsAt(rows, asked, entries, w, id);
        StepElsewhere(rows, asked, entries, e, w, w', id);
      } else if Hit(rows, asked, id) {
      } else {
        CreateReflects(rows, asked, entries, e, w, w');
      }
    }
  }

  /** A new row of a group has the date of the group's first stored row, if there is one and it has one; a row
      outside of groups keeps its own. */
  ghost predicate Inherits(date: Option<int>, e: Row, stored: seq<Row>, group: Row -> Option<string>) {
    match group(e)
    case None => date == e.date
    case Some(g) =>
      var candidate := FirstOf(stored, g, group);
      candidate.Some? && candidate.value.date.Some? ==> date == candidate.value.date
  }

  ghost predicate LogInherits(log: seq<Row>, stored: seq<Row>, group: Row -> Option<string>) {
    forall row :: row in log ==> Inherits(row.date, row, stored, group)
  }

  ghost predicate DatesInherited(entries: seq<Row>, w: Work, stored: seq<Row>, group: Row -> Option<string>) {
    && LogInherits(w.log, stored, group)
    && (forall id :: id in w.created && id in Ids(entries) ==>
          Inherits(w.created[id].date, First(entries, id), stored, group))
  }

  lemma StepInherits(rows: Rows, asked: set<Query>, entries: seq<Row>, e: Row, w: Work, w': Work, stored: seq<Row>,
                     group: Row -> Option<string>)
    requires Reflects(rows, asked, entries, w) && ApplyOne(w, e, asked, stored, group) == Ok(w')
    requires IgnoresDate(group) && DatesInherited(entries, w, stored, group)
    ensures DatesInherited(entries + [e], w', stored, group)
  {
    assert ReflectsAt(rows, asked, entries, w, e.id);
    forall id | id in w'.created && id in Ids(entries + [e])
      ensures Inherits(w'.created[id].date, First(entries + [e], id), stored, group)
    {
      if id in Ids(entries) {
        FirstStays(entries, e, id);
        assert ReflectsAt(rows, asked, entries, w, id);
      } else {
        FirstOfNew(entries, e);
      }
    }
  }

  /** Stored and new rows alike have their last update on record. */
  lemma StepSucceeds(rows: Rows, asked: set<Query>, entries: seq<Row>, e: Row, w: Work, stored: seq<Row>,
                     group: Row -> Option<string>)
    requires Dated(rows, entries + [e]) && Reflects(rows, asked, entries, w)
    ensures ApplyOne(w, e, asked, stored, group).Ok?
  {
    assert ReflectsAt(rows, asked, entries, w, e.id);
    assert e in entries + [e];
    if e.id in Ids(entries) {
      assert Last(entries, e.id) in entries + [e];
    }
  }

  lemma {:induction false} ApplyReflects(rows: Rows, entries: seq<Row>, asked: set<Query>, stored: seq<Row>,
                                         group: Row -> Option<string>)
    requires Dated(rows, entries) && IgnoresDate(group)
    ensures
      var w := Apply(rows, entries, asked, stored, group);
      w.Ok? && Reflects(rows, asked, entries, w.value) && DatesInherited(entries, w.value, stored, group)
  {
    if entries != [] {
      var n := |entries| - 1;
      var before, e := entries[..n], entries[n];
      assert entries == before + [e];
      ApplyReflects(rows, before, asked, stored, group);
      var w := Apply(rows, before, asked, stored, group).value;
      StepSucceeds(rows, asked, before, e, w, stored, group);
      var w' := ApplyOne(w, e, asked, stored, group).value;
      StepReflects(rows, asked, before, e, w, w', stored, group);
      StepInherits(rows, asked, before, e, w, w', stored, group);
    }
  }

  // ---------------------------------------------------------------- main results

  /** Every stored row that an entry is about is found by the queries. */
  ghost predicate AllFound(rows: Rows, entries: seq<Row>) {
    forall e :: e in entries && e.id in rows ==> QueryOf(rows[e.id]) in Asked(entries)
  }

  lemma ConsistentIsFound(rows: Rows, entries: seq<Row>)
    requires Consistent(rows, entries)
    ensures AllFound(rows, entries)
  {
    forall e | e in entries && e.id in rows
      ensures QueryOf(rows[e.id]) in Asked(entries)
    {
      EveryEntryIsAsked(entries, e);
    }
  }

  /** The upsert goes through exactly if the queries find every stored row the entries are about. */
  lemma SucceedsIffAllFound(rows: Rows, entries: seq<Row>, scan: seq<string>, group: Row -> Option<string>)
    requires Lists(scan, rows) && Dated(rows, entries) && IgnoresDate(group)
    ensures Outcome(rows, entries, scan, group).Ok? <==> AllFound(rows, entries)
    ensures Outcome(rows, entries, scan, group).Err? ==> Outcome(rows, entries, scan, group).error == IntegrityError
  {
    var asked, stored := Asked(entries), Stored(rows, scan, entries);
    ApplyReflects(rows, entries, asked, stored, group);
    var w := Apply(rows, entries, asked, stored, group).value;
    if AllFound(rows, entries) {
      forall id | id in w.created
        ensures id !in rows
      {
        assert ReflectsAt(rows, asked, entries, w, id);
        var e :| e in entries && e.id == id;
      }
    } else {
      var e :| e in entries && e.id in rows && QueryOf(rows[e.id]) !in asked;
      assert ReflectsAt(rows, asked, entries, w, e.id);
      assert e.id in w.created.Keys * rows.Keys;
    }
  }

  /** Afterwards every incoming identifier has one row with the last incoming payload, stored rows keep identity,
      creation and discovery date, and all other rows are untouched, in whatever order the batch comes. */
  lemma UpsertReflects(rows: Rows, entries: seq<Row>, scan: seq<string>, group: Row -> Option<string>, id: string)
    requires Lists(scan, rows) && Dated(rows, entries) && IgnoresDate(group) && AllFound(rows, entries)
    ensures
      var outcome := Outcome(rows, entries, scan, group);
      && outcome.Ok?
      && (id in outcome.value <==> id in rows || id in Ids(entries))
      && (id in rows && id !in Ids(entries) ==> outcome.value[id] == rows[id])
      && (id in rows && id in Ids(entries) ==> outcome.value[id] == Merged(rows[id], Last(entries, id)))
      && (id !in rows && id in Ids(entries) ==>
            AgreeButDate(outcome.value[id], Merged(First(entries, id), Last(entries, id))))
  {
    SucceedsIffAllFound(rows, entries, scan, group);
    var w := OutcomeIsWork(rows, entries, scan, group);
    assert ReflectsAt(rows, Asked(entries), entries, w, id);
    if id in rows && id in Ids(entries) {
      var e :| e in entries && e.id == id;
      assert Hit(rows, Asked(entries), id);
    }
  }

  lemma {:induction false} AppliedReflects(rows: Rows, entries: seq<Row>, asked: set<Query>, stored: seq<Row>,
                                           group: Row -> Option<string>)
    requires Apply(rows, entries, asked, stored, group).Ok?
    ensures Reflects(rows, asked, entries, Apply(rows, entries, asked, stored, group).value)
  {
    if entries != [] {
      var n := |entries| - 1;
      var before, e := entries[..n], entries[n];
      assert entries == before + [e];
      AppliedReflects(rows, before, asked, stored, group);
      StepReflects(rows, asked, before, e, Apply(rows, before, asked, stored, group).value,
                   Apply(rows, entries, asked, stored, group).value, stored, group);
    }
  }

  /** `first` and `last` are the places of the first and the last entry with the identifier. */
  predicate Bounds(entries: seq<Row>, id: string, first: nat, last: nat) {
    && first < |entries| && last < |entries| && entries[first].id == id && entries[last].id == id
    && (forall k :: 0 <= k < first ==> entries[k].id != id)
    && (forall k :: last < k < |entries| ==> entries[k].id != id)
  }

  lemma {:induction false} FirstAt(entries: seq<Row>, id: string, first: nat, last: nat)
    requires Bounds(entries, id, first, last)
    ensures id in Ids(entries) && First(entries, id) == entries[first]
  {
    assert entries[first] in entries;
    if first > 0 {
      FirstAt(entries[1..], id, first - 1, last - 1);
    }
  }

  lemma {:induction false} LastAt(entries: seq<Row>, id: string, first: nat, last: nat)
    requires Bounds(entries, id, first, last)
    ensures id in Ids(entries) && Last(entries, id) == entries[last]
  {
    assert entries[last] in entries;
    if last < |entries| - 1 {
      LastAt(entries[..|entries| - 1], id, first, last);
    }
  }

  /** Whenever the upsert goes through, every incoming identifier has the payload it was sent with last; an
      identifier that was stored keeps everything else, a new one has it from its first entry. */
  lemma UpsertStoresPayload(rows: Rows, entries: seq<Row>, scan: seq<string>, group: Row -> Option<string>, id: string,
                            first: nat, last: nat)
    requires (forall i :: i in scan ==> i in rows) && Outcome(rows, entries, scan, group).Ok?
    requires Bounds(entries, id, first, last)
    ensures id in Outcome(rows, entries, scan, group).value
    ensures
      var row := Outcome(rows, entries, scan, group).value[id];
      && row.data == entries[last].data && row.meta.lastUpdate == entries[last].meta.lastUpdate
      && row.meta.responsibles == entries[last].meta.responsibles
      && row.meta.assigneeMode == entries[last].meta.assigneeMode
      && (if id in rows then KeepsIdentity(row, rows[id]) && row.id == rows[id].id && row.date == rows[id].date
          else KeepsIdentity(row, entries[first]) && row.id == id)
  {
    FirstAt(entries, id, first, last);
    LastAt(entries, id, first, last);
    var asked, stored := Asked(entries), Stored(rows, scan, entries);
    AppliedReflects(rows, entries, asked, stored, group);
    var w := Apply(rows, entries, asked, stored, group).value;
    assert ReflectsAt(rows, asked, entries, w, id);
    assert id in w.created && id in rows ==> id in w.created.Keys * rows.Keys;
  }

  lemma OutcomeIsWork(rows: Rows, entries: seq<Row>, scan: seq<string>, group: Row -> Option<string>) returns (w: Work)
    requires Lists(scan, rows) && Dated(rows, entries) && IgnoresDate(group)
    requires Outcome(rows, entries, scan, group).Ok?
    ensures Reflects(rows, Asked(entries), entries, w)
    ensures DatesInherited(entries, w, Stored(rows, scan, entries), group)
    ensures Outcome(rows, entries, scan, group).value == w.updated + w.created
  {
    ApplyReflects(rows, entries, Asked(entries), Stored(rows, scan, entries), group);
    w := Apply(rows, entries, Asked(entries), Stored(rows, scan, entries), group).value;
  }

  ghost predicate LatestFirstSorted(xs: seq<Row>) {
    forall i, j :: 0 <= i < j < |xs| ==> TextLe(UpdatedAt(xs[j]), UpdatedAt(xs[i]))
  }

  lemma {:induction false} InsertKeepsSorted(x: Row, xs: seq<Row>)
    requires LatestFirstSorted(xs)
    ensures LatestFirstSorted(InsertLatest(x, xs))
  {
    if xs == [] {
    } else if TextLe(UpdatedAt(xs[0]), UpdatedAt(x)) {
      forall j | 0 <= j < |xs|
        ensures TextLe(UpdatedAt(xs[j]), UpdatedAt(x))
      {
        if j > 0 {
          TextLeTransitive(UpdatedAt(xs[j]), UpdatedAt(xs[0]), UpdatedAt(x));
        }
      }
    } else {
      TextLeTotal(UpdatedAt(xs[0]), UpdatedAt(x));
      InsertKeepsSorted(x, xs[1..]);
      var rest := InsertLatest(x, xs[1..]);
      forall j | 0 <= j < |rest|
        ensures TextLe(UpdatedAt(rest[j]), UpdatedAt(xs[0]))
      {
        InsertLatestMembers(x, xs[1..], rest[j]);
      }
    }
  }

  lemma {:induction false} LatestFirstIsSorted(xs: seq<Row>)
    ensures LatestFirstSorted(LatestFirst(xs))
  {
    if xs != [] {
      LatestFirstIsSorted(xs[1..]);
      InsertKeepsSorted(xs[0], LatestFirst(xs[1..]));
    }
  }

  lemma {:induction false} FirstOfIsLatest(xs: seq<Row>, row: Row, g: string, group: Row -> Option<string>)
    requires LatestFirstSorted(xs) && row in xs && IsOf(row, g, group)
    ensures FirstOf(xs, g, group).Some? && TextLe(UpdatedAt(row), UpdatedAt(FirstOf(xs, g, group).value))
  {
    if IsOf(xs[0], g, group) {
      TextLeTotal(UpdatedAt(row), UpdatedAt(row));
    } else {
      FirstOfIsLatest(xs[1..], row, g, group);
    }
  }

  /** The stored rows of a group that the queries find. */
  ghost predicate Prior(rows: Rows, entries: seq<Row>, g: string, group: Row -> Option<string>, row: Row) {
    QueryOf(row) in Asked(entries) && IsOf(row, g, group) && exists id :: id in rows && rows[id] == row
  }

  /** Every new row of a group takes over the discovery date of a most recently updated stored row of the group
      (if that has one), whatever the order of the batch and of the rows in the database. */
  lemma NewRowInheritsDate(rows: Rows, entries: seq<Row>, scan: seq<string>, group: Row -> Option<string>, id: string,
                           prior: Row) returns (latest: Row)
    requires Lists(scan, rows) && Dated(rows, entries) && IgnoresDate(group) && AllFound(rows, entries)
    requires id in Ids(entries) && id !in rows && group(First(entries, id)).Some?
    requires Prior(rows, entries, group(First(entries, id)).value, group, prior)
    ensures Prior(rows, entries, group(First(entries, id)).value, group, latest)
    ensures forall row :: Prior(rows, entries, group(First(entries, id)).value, group, row) ==>
      TextLe(UpdatedAt(row), UpdatedAt(latest))
    ensures forall row :: Prior(rows, entries, group(First(entries, id)).value, group, row) ==>
      row.meta.lastUpdate.Some? && latest.meta.lastUpdate.Some? ==>
      TextLe(row.meta.lastUpdate.value, latest.meta.lastUpdate.value)
    ensures
      var outcome := Outcome(rows, entries, scan, group);
      outcome.Ok? && id in outcome.value && (latest.date.Some? ==> outcome.value[id].date == latest.date)
  {
    var g := group(First(entries, id)).value;
    latest := LatestPrior(rows, entries, scan, group, g, prior);
    SucceedsIffAllFound(rows, entries, scan, group);
    var w := OutcomeIsWork(rows, entries, scan, group);
    assert ReflectsAt(rows, Asked(entries), entries, w, id);
    assert Inherits(w.created[id].date, First(entries, id), Stored(rows, scan, entries), group);
  }

  lemma LatestPrior(rows: Rows, entries: seq<Row>, scan: seq<string>, group: Row -> Option<string>, g: string,
                    prior: Row) returns (latest: Row)
    requires Lists(scan, rows) && Prior(rows, entries, g, group, prior)
    ensures FirstOf(Stored(rows, scan, entries), g, group) == Some(latest) && Prior(rows, entries, g, group, latest)
    ensures forall row :: Prior(rows, entries, g, group, row) ==> TextLe(UpdatedAt(row), UpdatedAt(latest))
  {
    var stored := Stored(rows, scan, entries);
    LatestFirstIsSorted(Loaded(rows, scan, Asked(entries)));
    StoredMembers(rows, scan, entries, prior);
    FirstOfIsLatest(stored, prior, g, group);
    latest := FirstOf(stored, g, group).value;
    StoredMembers(rows, scan, entries, latest);
    forall row | Prior(rows, entries, g, group, row)
      ensures TextLe(UpdatedAt(row), UpdatedAt(latest))
    {
      StoredMembers(rows, scan, entries, row);
      FirstOfIsLatest(stored, row, g, group);
    }
  }

  /** Without a stored date to take over, the new rows of a group share the date of the first one that has one. */
  lemma {:induction false} NewRowsShareDate(rows: Rows, entries: seq<Row>, asked: set<Query>, stored: seq<Row>,
                                            group: Row -> Option<string>, i: nat, j: nat)
    requires IgnoresDate(group) && Apply(rows, entries, asked, stored, group).Ok?
    requires
      var log := Apply(rows, entries, asked, stored, group).value.log;
      i < j < |log| && log[i].date.Some? && group(log[i]).Some? && group(log[i]) == group(log[j])
    ensures
      var log := Apply(rows, entries, asked, stored, group).value.log;
      log[j].date == log[i].date
  {
    if entries != [] {
      var before, e := entries[..|entries| - 1], entries[|entries| - 1];
      var log := Apply(rows, before, asked, stored, group).value.log;
      var log' := Apply(rows, entries, asked, stored, group).value.log;
      if j < |log| {
        NewRowsShareDate(rows, before, asked, stored, group, i, j);
      } else {
        var k := LastOfAfter(log, group(log'[i]).value, group, i);
        if i < k {
          NewRowsShareDate(rows, before, asked, stored, group, i, k);
        }
        assert log'[j] == e.(date := Inherited(e, log, stored, group));
      }
    }
  }

  lemma {:induction false} LastOfAfter(xs: seq<Row>, g: string, group: Row -> Option<string>, i: nat) returns (k: nat)
    requires i < |xs| && IsOf(xs[i], g, group)
    ensures i <= k < |xs| && LastOf(xs, g, group) == Some(xs[k]) && IsOf(xs[k], g, group)
  {
    k := |xs| - 1;
    if !IsOf(xs[k], g, group) {
      k := LastOfAfter(xs[..k], g, group, i);
    }
  }

  /** One artefact and type with two datasources: only the first is queried, so a stored row of the second is
      taken for new and the whole batch fails. */
  lemma SecondDatasourceFails(row: Row, first: Row, group: Row -> Option<string>)
    requires first.artefact == row.artefact && first.ctype == row.ctype && first.datasource != row.datasource
    requires first.id != row.id && first.meta.lastUpdate.Some? && row.meta.lastUpdate.Some? && IgnoresDate(group)
    ensures Outcome(map[row.id := row], [first, row], [row.id], group) == Err(IntegrityError)
  {
    var rows, entries := map[row.id := row], [first, row];
    assert entries[..1] == [first] && [first][..0] == [];
    assert KeySeen([first], row.artefact, row.ctype) by {
      assert [first][0].artefact == row.artefact;
    }
    assert Asked([first]) == {QueryOf(first)};
    assert Asked(entries) == {QueryOf(first)};
    assert row in entries && !AllFound(rows, entries);
    SucceedsIffAllFound(rows, entries, [row.id], group);
  }
}
