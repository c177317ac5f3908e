/** The function cache and what it can serve. (src/deliverydb/cache_async.py, src/metadata.py) */
module FunctionCache {
  import opened Common

  // ---------------------------------------------------------------- the table

  /** A stored result, with its provenance: the key it was computed for and how many metadata writes
      concerning that key had been committed when its computation began. */
  datatype Value = Value(key: string, epoch: nat, size: nat)

  datatype Entry = Entry(value: Value, deleteAfter: Option<int>, keepUntil: int, costs: nat, lastUpdate: int,
                         lastRead: Option<int>, readCount: nat, revision: nat)

  type Table = map<string, Entry>

  predicate Stale(entry: Entry, now: int) {
    entry.deleteAfter.Some? && now > entry.deleteAfter.value
  }

  /** The value a read finds: there is an entry, and its deletion date has not passed. */
  function Found(table: Table, id: string, now: int): Option<Value> {
    if id in table && !Stale(table[id], now) then Some(table[id].value) else None
  }

  function AfterRead(table: Table, id: string, now: int): Table {
    if Found(table, id, now).None? then table
    else table[id := table[id].(lastRead := Some(now), readCount := table[id].readCount + 1)]
  }

  function Overwritten(existing: Entry, entry: Entry, now: int): Entry {
    entry.(revision := existing.revision + 1, lastUpdate := now, lastRead := existing.lastRead,
           readCount := existing.readCount)
  }

  /** Inserts the entry, or overwrites the one that is there. */
  function Stored(table: Table, id: string, entry: Entry, now: int): Table {
    if id in table then table[id := Overwritten(table[id], entry, now)] else table[id := entry.(lastUpdate := now)]
  }

  function Marked(table: Table, id: string, date: int): Table {
    if id in table then table[id := table[id].(deleteAfter := Some(date))] else table
  }

  /** The update of a metadata write: every listed entry is due now. */
  function MarkedAll(table: Table, ids: set<string>, date: int): Table {
    map id | id in table :: if id in ids then table[id].(deleteAfter := Some(date)) else table[id]
  }

  /** How the database session answers a commit. */
  datatype CommitResult = Committed | IntegrityError | OtherError

  /** The cache table behind a database session; a rolled-back change leaves no trace. */
  class CacheTable {
    var entries: Table

    constructor ()
      ensures entries == map[]
    {
      entries := map[];
    }

    method FindCachedValue(id: string, now: int, commit: CommitResult) returns (value: Option<Value>)
      modifies this
      ensures value == Found(old(entries), id, now)
      ensures entries == if commit.Committed? then AfterRead(old(entries), id, now) else old(entries)
    {
      if id !in entries {
        return None;
      }
      var entry := entries[id];
      if Stale(entry, now) {
        return None;
      }
      value := Some(entry.value);
      entry := entry.(lastRead := Some(now));
      entry := entry.(readCount := entry.readCount + 1);
      if commit.Committed? {
        entries := entries[id := entry];
      }
    }

    method UpdateCacheEntry(id: string, entry: Entry, now: int, commit: CommitResult) returns (done: bool)
      modifies this
      ensures done == (id in old(entries) && commit.Committed?)
      ensures entries == if done then Stored(old(entries), id, entry, now) else old(entries)
    {
      if id !in entries {
        return false;
      }
      var existing := entries[id];
      existing := existing.(revision := existing.revision + 1, lastUpdate := now);
      existing := existing.(deleteAfter := entry.deleteAfter, keepUntil := entry.keepUntil);
      existing := existing.(costs := entry.costs, value := entry.value);
      if commit.Committed? {
        entries := entries[id := existing];
        return true;
      }
      return false;
    }

    /** Without interference between insert and update the entry ends up stored, unless a commit fails. */
    method AddOrUpdateCacheEntry(id: string, entry: Entry, now: int, insert: CommitResult, update: CommitResult)
      returns (done: bool)
      requires entry.lastRead == None && entry.readCount == 0 && entry.revision == 0
      requires (insert.Committed? ==> id !in entries) && (insert.IntegrityError? ==> id in entries)
      modifies this
      ensures done == (insert.Committed? || (insert.IntegrityError? && update.Committed?))
      ensures entries == if done then Stored(old(entries), id, entry, now) else old(entries)
    {
      match insert {
        case Committed =>
          entries := entries[id := entry.(lastUpdate := now)];
          done := true;
        case IntegrityError =>
          done := UpdateCacheEntry(id, entry, now, update);
        case OtherError =>
          done := false;
      }
    }

    method MarkForDeletion(id: string, deleteAfter: Option<int>, now: int, commit: CommitResult) returns (done: bool)
      modifies this
      ensures done == (id !in old(entries) || commit.Committed?)
      ensures entries == if done then Marked(old(entries), id, if deleteAfter.Some? then deleteAfter.value else now)
                         else old(entries)
    {
      if id !in entries {
        return true;
      }
      var date := if deleteAfter.None? then now else deleteAfter.value;
      if commit.Committed? {
        entries := entries[id := entries[id].(deleteAfter := Some(date))];
        return true;
      }
      return false;
    }
  }

  // ---------------------------------------------------------------- interleaved calls

  /** A call of a cached function between two of its database requests. */
  datatype Call =
    | Missed(key: string)
    | Computing(key: string, epoch: nat)
    | Inserting(key: string, entry: Entry)
    | Updating(key: string, entry: Entry)

  /** A value served from the cache: when, when it had been stored, and whether its deletion date had been
      moved to a later time since. */
  datatype Served = Served(key: string, value: Value, when: int, storedAt: int, postponed: bool)

  datatype State = State(table: Table, now: int, writes: map<string, nat>, calls: map<nat, Call>,
                         postponed: set<string>, log: seq<Served>)

  datatype Action =
    | Lookup(client: nat, key: string, shortcut: bool, committed: bool)
    | Begin(client: nat)
    | Finish(client: nat, storable: bool, size: nat, keepSeconds: nat, costs: nat)
    | Insert(client: nat, committed: bool)
    | Update(client: nat, committed: bool)
    | WriteMetadata(keys: set<string>, at: int)
    | Mark(key: string, date: int)
    | Prune(keys: set<string>)
    | Tick(duration: nat)

  function Init(): State {
    State(map[], 0, map[], map[], {}, [])
  }

  function WritesOf(s: State, key: string): nat {
    if key in s.writes then s.writes[key] else 0
  }

  function Ended(s: State, client: nat): State {
    s.(calls := s.calls - {client})
  }

  predicate Later(date: int, than: Option<int>) {
    than.Some? && than.value < date
  }

  /** Steps of the wrapper around a function cached for `ttl` seconds (0: without limit), of metadata writes,
      explicit markings and pruning. */
  function Step(s: State, a: Action, ttl: nat): State {
    match a
    case Lookup(client, key, shortcut, committed) =>
      if client in s.calls then s
      else
        var value := if shortcut then None else Found(s.table, key, s.now);
        if value.Some? && value.value.size > 0 then
          s.(table := if committed then AfterRead(s.table, key, s.now) else s.table,
             log := s.log + [Served(key, value.value, s.now, s.table[key].lastUpdate, key in s.postponed)])
        else s.(calls := s.calls[client := Missed(key)])
    case Begin(client) =>
      if client !in s.calls || !s.calls[client].Missed? then s
      else s.(calls := s.calls[client := Computing(s.calls[client].key, WritesOf(s, s.calls[client].key))])
    case Finish(client, storable, size, keepSeconds, costs) =>
      if client !in s.calls || !s.calls[client].Computing? then s
      else if !storable then Ended(s, client)
      else
        var c := s.calls[client];
        var entry := Entry(Value(c.key, c.epoch, size), if ttl > 0 then Some(s.now + ttl) else None,
                           s.now + keepSeconds, costs, s.now, None, 0, 0);
        s.(calls := s.calls[client := Inserting(c.key, entry)])
    case Insert(client, committed) =>
      if client !in s.calls || !s.calls[client].Inserting? then s
      else
        var c := s.calls[client];
        if c.key in s.table then s.(calls := s.calls[client := Updating(c.key, c.entry)])
        else if !committed then Ended(s, client)
        else Ended(s, client).(table := Stored(s.table, c.key, c.entry, s.now), postponed := s.postponed - {c.key})
    case Update(client, committed) =>
      if client !in s.calls || !s.calls[client].Updating? then s
      else
        var c := s.calls[client];
        if c.key !in s.table || !committed then Ended(s, client)
        else Ended(s, client).(table := Stored(s.table, c.key, c.entry, s.now), postponed := s.postponed - {c.key})
    case WriteMetadata(keys, at) =>
      if at > s.now then s
      else
        s.(table := MarkedAll(s.table, keys, at),
           writes := map k | k in s.writes.Keys + keys :: if k in keys then WritesOf(s, k) + 1 else s.writes[k],
           postponed := s.postponed + set k | k in keys && k in s.table && Later(at, s.table[k].deleteAfter))
    case Mark(key, date) =>
      s.(table := Marked(s.table, key, date),
         postponed := s.postponed + if key in s.table && Later(date, s.table[key].deleteAfter) then {key} else {})
    case Prune(keys) => s.(table := s.table - keys)
    case Tick(duration) => s.(now := s.now + duration)
  }

  function Run(s: State, actions: seq<Action>, ttl: nat): State {
    if actions == [] then s else Step(Run(s, actions[..|actions| - 1], ttl), actions[|actions| - 1], ttl)
  }

  // ---------------------------------------------------------------- what is served

  predicate EntryFits(s: State, key: string, entry: Entry, ttl: nat) {
    && entry.value.key == key && entry.value.epoch <= WritesOf(s, key)
    && (ttl > 0 ==>
          entry.deleteAfter.Some? && (key in s.postponed || entry.deleteAfter.value <= entry.lastUpdate + ttl))
  }

  predicate PendingFits(s: State, key: string, entry: Entry, ttl: nat) {
    && entry.value.key == key && entry.value.epoch <= WritesOf(s, key)
    && (ttl > 0 ==> entry.deleteAfter.Some? && entry.deleteAfter.value <= s.now + ttl)
  }

  predicate CallFits(s: State, c: Call, ttl: nat) {
    match c
    case Missed(_) => true
    case Computing(key, epoch) => epoch <= WritesOf(s, key)
    case Inserting(key, entry) => PendingFits(s, key, entry, ttl)
    case Updating(key, entry) => PendingFits(s, key, entry, ttl)
  }

  predicate ServedFits(e: Served, ttl: nat) {
    e.value.key == e.key && (ttl > 0 && !e.postponed ==> e.when <= e.storedAt + ttl)
  }

  predicate Inv(s: State, ttl: nat) {
    && (forall k :: k in s.table ==> EntryFits(s, k, s.table[k], ttl))
    && (forall c :: c in s.calls ==> CallFits(s, s.calls[c], ttl))
    && (forall i :: 0 <= i < |s.log| ==> ServedFits(s.log[i], ttl))
  }

  lemma WritesGrow(s: State, a: Action, ttl: nat, key: string)
    ensures WritesOf(s, key) <= WritesOf(Step(s, a, ttl), key) && s.now <= Step(s, a, ttl).now
  {
  }

  lemma StoreKeepsEntry(s: State, a: Action, ttl: nat, k: string)
    requires Inv(s, ttl) && (a.Insert? || a.Update?) && k in Step(s, a, ttl).table
    ensures EntryFits(Step(s, a, ttl), k, Step(s, a, ttl).table[k], ttl)
  {
    assert k in s.table ==> EntryFits(s, k, s.table[k], ttl);
    if a.client in s.calls {
      assert CallFits(s, s.calls[a.client], ttl);
    }
  }

  lemma StepKeepsEntries(s: State, a: Action, ttl: nat)
    requires Inv(s, ttl)
    ensures var s' := Step(s, a, ttl); forall k :: k in s'.table ==> EntryFits(s', k, s'.table[k], ttl)
  {
    var s' := Step(s, a, ttl);
    forall k | k in s'.table
      ensures EntryFits(s', k, s'.table[k], ttl)
    {
      assert k in s.table ==> EntryFits(s, k, s.table[k], ttl);
      if a.Insert? || a.Update? {
        StoreKeepsEntry(s, a, ttl, k);
      } else {
        WritesGrow(s, a, ttl, k);
      }
    }
  }

  lemma StepKeepsLog(s: State, a: Action, ttl: nat)
    requires Inv(s, ttl)
    ensures var s' := Step(s, a, ttl); forall i :: 0 <= i < |s'.log| ==> ServedFits(s'.log[i], ttl)
  {
    if a.Lookup? && a.key in s.table {
      assert EntryFits(s, a.key, s.table[a.key], ttl);
    }
  }

  lemma StepKeepsInv(s: State, a: Action, ttl: nat)
    requires Inv(s, ttl)
    ensures Inv(Step(s, a, ttl), ttl)
  {
    StepKeepsEntries(s, a, ttl);
    StepKeepsLog(s, a, ttl);
  }

  lemma {:induction false} RunKeepsInv(s: State, actions: seq<Action>, ttl: nat)
    requires Inv(s, ttl)
    ensures Inv(Run(s, actions, ttl), ttl)
  {
    if actions != [] {
      RunKeepsInv(s, actions[..|actions| - 1], ttl);
      StepKeepsInv(Run(s, actions[..|actions| - 1], ttl), actions[|actions| - 1], ttl);
    }
  }

  /** Whatever is served was computed for the key asked for, and was stored at most `ttl` seconds before,
      unless its deletion date was moved to a later time. */
  lemma ServedForItsKeyAndInTime(actions: seq<Action>, ttl: nat, i: nat)
    requires i < |Run(Init(), actions, ttl).log|
    ensures
      var e := Run(Init(), actions, ttl).log[i];
      && e.value.key == e.key
      && (ttl > 0 && !e.postponed ==> e.when - e.storedAt <= ttl)
  {
    RunKeepsInv(Init(), actions, ttl);
    assert ServedFits(Run(Init(), actions, ttl).log[i], ttl);
  }

  // ---------------------------------------------------------------- invalidation

  /** The entry can still be served after time `t`, now that the clock has reached `now`; an empty value never is. */
  predicate Lasts(entry: Entry, t: int, now: int) {
    entry.value.size > 0 && (entry.deleteAfter.Some? ==> t < entry.deleteAfter.value && now <= entry.deleteAfter.value)
  }

  predicate Outdated(entry: Entry, epoch: nat, t: int, now: int) {
    entry.value.epoch < epoch && Lasts(entry, t, now)
  }

  /** The call can still store a result which was not computed from write number `epoch` on and is valid after `t`. */
  predicate Outlives(c: Call, key: string, epoch: nat, t: int, now: int) {
    match c
    case Missed(_) => false
    case Computing(k, e) => k == key && e < epoch
    case Inserting(k, entry) => k == key && Outdated(entry, epoch, t, now)
    case Updating(k, entry) => k == key && Outdated(entry, epoch, t, now)
  }

  /** The call is computing a result for the key, or has one to store that can be served after `t`. */
  predicate CanOutlive(c: Call, key: string, t: int, now: int) {
    match c
    case Missed(_) => false
    case Computing(k, _) => k == key
    case Inserting(k, entry) => k == key && Lasts(entry, t, now)
    case Updating(k, entry) => k == key && Lasts(entry, t, now)
  }

  /** Nothing in flight for the key outlives a write dated `t`. */
  predicate NoneOutlives(s: State, key: string, t: int) {
    forall c :: c in s.calls ==> !CanOutlive(s.calls[c], key, t, s.now)
  }

  /** From `now` on, nothing that was computed for the key before write number `epoch` can be served after `t`. */
  predicate Settled(s: State, key: string, epoch: nat, t: int, now: int) {
    && epoch <= WritesOf(s, key) && now <= s.now
    && (key in s.table ==> !Outdated(s.table[key], epoch, t, now))
    && (forall c :: c in s.calls ==> !Outlives(s.calls[c], key, epoch, t, now))
  }

  /** The latest of `t` and the deletion date the action gives to the key. */
  function HorizonAfter(a: Action, key: string, t: int): int {
    match a
    case Mark(k, date) => if k == key then Max(t, date) else t
    case WriteMetadata(keys, at) => if key in keys then Max(t, at) else t
    case _ => t
  }

  /** The latest of `t` and the deletion dates the actions give to the key. */
  function Horizon(actions: seq<Action>, key: string, t: int): int {
    if actions == [] then t
    else HorizonAfter(actions[|actions| - 1], key, Horizon(actions[..|actions| - 1], key, t))
  }

  lemma ServesSettled(s: State, a: Action, ttl: nat, key: string, epoch: nat, t: int, now: int)
    requires Settled(s, key, epoch, t, now)
    ensures
      var log := Step(s, a, ttl).log;
      && s.log <= log
      && forall i :: |s.log| <= i < |log| && log[i].key == key && log[i].value.epoch < epoch ==> log[i].when <= t
  {
  }

  lemma StepKeepsSettled(s: State, a: Action, ttl: nat, key: string, epoch: nat, t: int, now: int)
    requires Settled(s, key, epoch, t, now)
    ensures Settled(Step(s, a, ttl), key, epoch, HorizonAfter(a, key, t), now)
  {
    assert WritesOf(s, key) <= WritesOf(Step(s, a, ttl), key);
  }

  lemma {:induction false} SettledThroughout(s: State, later: seq<Action>, ttl: nat, key: string, epoch: nat, t: int,
                                             now: int)
    requires Settled(s, key, epoch, t, now)
    ensures Settled(Run(s, later, ttl), key, epoch, Horizon(later, key, t), now)
  {
    if later != [] {
      var before := later[..|later| - 1];
      SettledThroughout(s, before, ttl, key, epoch, t, now);
      StepKeepsSettled(Run(s, before, ttl), later[|later| - 1], ttl, key, epoch, Horizon(before, key, t), now);
    }
  }

  lemma {:induction false} OutdatedServedUpToHorizon(s: State, later: seq<Action>, ttl: nat, key: string, epoch: nat,
                                                     t: int, now: int, i: nat)
    requires Settled(s, key, epoch, t, now)
    requires
      var log := Run(s, later, ttl).log;
      |s.log| <= i < |log| && log[i].key == key && log[i].value.epoch < epoch
    ensures Run(s, later, ttl).log[i].when <= Horizon(later, key, t)
  {
    if later != [] {
      var before, a := later[..|later| - 1], later[|later| - 1];
      var mid := Run(s, before, ttl);
      SettledThroughout(s, before, ttl, key, epoch, t, now);
      ServesSettled(mid, a, ttl, key, epoch, Horizon(before, key, t), now);
      if i < |mid.log| {
        OutdatedServedUpToHorizon(s, before, ttl, key, epoch, t, now, i);
      }
    }
  }

  /** A value computed before a metadata write concerning its key is served at most up to the deletion date
      which that write, or a later marking of the same key, gives it, provided nothing in flight outlives the write. */
  lemma NothingOutdatedIsServed(s: State, keys: set<string>, at: int, key: string, ttl: nat, later: seq<Action>, i: nat)
    requires key in keys && at <= s.now && NoneOutlives(s, key, at)
    requires
      var log := Run(Step(s, WriteMetadata(keys, at), ttl), later, ttl).log;
      |s.log| <= i < |log| && log[i].key == key && log[i].value.epoch <= WritesOf(s, key)
    ensures Run(Step(s, WriteMetadata(keys, at), ttl), later, ttl).log[i].when <= Horizon(later, key, at)
  {
    var written := Step(s, WriteMetadata(keys, at), ttl);
    OutdatedServedUpToHorizon(written, later, ttl, key, WritesOf(s, key) + 1, at, s.now, i);
  }

  // ---------------------------------------------------------------- exactly when a write takes effect

  predicate MarksKey(a: Action, key: string) {
    (a.Mark? && a.key == key) || (a.WriteMetadata? && key in a.keys)
  }

  /** The actions leave the key's deletion date to what is stored under it. */
  predicate Unmarked(actions: seq<Action>, key: string) {
    forall i :: 0 <= i < |actions| ==> !MarksKey(actions[i], key)
  }

  lemma {:induction false} UnmarkedHorizon(actions: seq<Action>, key: string, t: int)
    requires Unmarked(actions, key)
    ensures Horizon(actions, key, t) == t
  {
    if actions != [] {
      UnmarkedHorizon(actions[..|actions| - 1], key, t);
    }
  }

  /** After the write dated `at`, the actions make the cache serve, later than that, a value computed before it. */
  ghost predicate ServesOutdated(s: State, keys: set<string>, at: int, key: string, ttl: nat, later: seq<Action>) {
    var log := Run(Step(s, WriteMetadata(keys, at), ttl), later, ttl).log;
    exists i :: |s.log| <= i < |log| && log[i].key == key && log[i].value.epoch <= WritesOf(s, key) && log[i].when > at
  }

  lemma {:induction false} FreshClient(clients: set<nat>) returns (bound: nat)
    ensures forall c :: c in clients ==> c < bound
  {
    if clients == {} {
      bound := 0;
    } else {
      var c :| c in clients;
      var others := FreshClient(clients - {c});
      bound := Max(others, c + 1);
      assert forall d :: d in clients ==> d == c || d in clients - {c};
    }
  }

  lemma {:induction false} RunConcat(s: State, xs: seq<Action>, ys: seq<Action>, ttl: nat)
    ensures Run(s, xs + ys, ttl) == Run(Run(s, xs, ttl), ys, ttl)
  {
    if ys == [] {
      assert xs + ys == xs;
    } else {
      RunConcat(s, xs, ys[..|ys| - 1], ttl);
      assert (xs + ys)[..|xs + ys| - 1] == xs + ys[..|ys| - 1];
    }
  }

  lemma RunFirst(s: State, a: Action, rest: seq<Action>, ttl: nat)
    ensures Run(s, [a] + rest, ttl) == Run(Step(s, a, ttl), rest, ttl)
  {
    RunConcat(s, [a], rest, ttl);
    assert [a][..0] == [];
  }

  function Open(client: nat, key: string): seq<Action> {
    [Lookup(client, key, true, true)] + ([Begin(client)] + [])
  }

  lemma Opens(s: State, client: nat, key: string, ttl: nat)
    requires client !in s.calls
    ensures Run(s, Open(client, key), ttl) == s.(calls := s.calls[client := Computing(key, WritesOf(s, key))])
  {
    var missed := Step(s, Lookup(client, key, true, true), ttl);
    RunFirst(s, Lookup(client, key, true, true), [Begin(client)] + [], ttl);
    RunFirst(missed, Begin(client), [], ttl);
  }

  function Fill(client: nat): seq<Action> {
    [Finish(client, true, 1, 0, 0)] + ([Insert(client, true)] + [])
  }

  /** A call's result makes sure that there is an entry for its key. */
  lemma Fills(s: State, client: nat, key: string, ttl: nat, call: nat)
    requires client in s.calls && s.calls[client].Computing? && s.calls[client].key == key
    requires call != client && call in s.calls
    ensures
      var s' := Run(s, Fill(client), ttl);
      && key in s'.table && s'.log == s.log && s'.now == s.now
      && s'.calls.Keys <= s.calls.Keys && call in s'.calls && s'.calls[call] == s.calls[call]
  {
    var finished := Step(s, Finish(client, true, 1, 0, 0), ttl);
    RunFirst(s, Finish(client, true, 1, 0, 0), [Insert(client, true)] + [], ttl);
    RunFirst(finished, Insert(client, true), [], ttl);
  }

  function Store(client: nat): seq<Action> {
    [Finish(client, true, 1, 0, 0)] + ([Insert(client, true)] + ([Update(client, true)] + []))
  }

  /** Left to itself, a call in flight stores its result over the one that is there. */
  lemma StoresOutdated(s: State, client: nat, key: string, epoch: nat, t: int, ttl: nat)
    requires key in s.table && t <= s.now
    requires client in s.calls && Outlives(s.calls[client], key, epoch, t, s.now)
    ensures
      var s' := Run(s, Store(client), ttl);
      && key in s'.table && Outdated(s'.table[key], epoch, t, s'.now)
      && s'.log == s.log && s'.now == s.now && s'.calls.Keys <= s.calls.Keys
  {
    var finished := Step(s, Finish(client, true, 1, 0, 0), ttl);
    var inserted := Step(finished, Insert(client, true), ttl);
    RunFirst(s, Finish(client, true, 1, 0, 0), [Insert(client, true)] + ([Update(client, true)] + []), ttl);
    RunFirst(finished, Insert(client, true), [Update(client, true)] + [], ttl);
    RunFirst(inserted, Update(client, true), [], ttl);
  }

  function Read(client: nat, key: string, delay: nat): seq<Action> {
    [Tick(delay)] + ([Lookup(client, key, false, true)] + [])
  }

  lemma ReadsOutdated(s: State, client: nat, key: string, epoch: nat, t: int, ttl: nat)
    requires key in s.table && t <= s.now && Outdated(s.table[key], epoch, t, s.now) && client !in s.calls
    ensures
      var log := Run(s, Read(client, key, if t < s.now then 0 else 1), ttl).log;
      && |log| == |s.log| + 1 && log[|s.log|].key == key && log[|s.log|].value.epoch < epoch && log[|s.log|].when > t
  {
    var delay := if t < s.now then 0 else 1;
    var ticked := Step(s, Tick(delay), ttl);
    RunFirst(s, Tick(delay), [Lookup(client, key, false, true)] + [], ttl);
    RunFirst(ticked, Lookup(client, key, false, true), [], ttl);
  }

  /** What a call that outlives the write makes happen, with two fresh clients. */
  function Revival(s: State, client: nat, other: nat, key: string, at: int): seq<Action> {
    Open(other, key) + (Fill(other) + (Store(client) + Read(other + 1, key, if at < s.now then 0 else 1)))
  }

  lemma RevivalIsUnmarked(s: State, client: nat, other: nat, key: string, at: int)
    ensures Unmarked(Revival(s, client, other, key, at), key)
  {
    var all := Revival(s, client, other, key, at);
    assert all == [Lookup(other, key, true, true), Begin(other), Finish(other, true, 1, 0, 0), Insert(other, true),
                   Finish(client, true, 1, 0, 0), Insert(client, true), Update(client, true),
                   Tick(if at < s.now then 0 else 1), Lookup(other + 1, key, false, true)];
  }

  lemma RevivalRuns(s: State, client: nat, other: nat, key: string, at: int, ttl: nat)
    ensures
      var filled := Run(Run(s, Open(other, key), ttl), Fill(other), ttl);
      Run(s, Revival(s, client, other, key, at), ttl) ==
      Run(Run(filled, Store(client), ttl), Read(other + 1, key, if at < s.now then 0 else 1), ttl)
  {
    var reading := Read(other + 1, key, if at < s.now then 0 else 1);
    var begun := Run(s, Open(other, key), ttl);
    RunConcat(s, Open(other, key), Fill(other) + (Store(client) + reading), ttl);
    RunConcat(begun, Fill(other), Store(client) + reading, ttl);
    RunConcat(Run(begun, Fill(other), ttl), Store(client), reading, ttl);
  }

  lemma RevivalStores(s: State, client: nat, other: nat, key: string, epoch: nat, at: int, ttl: nat)
    requires at <= s.now && forall c :: c in s.calls.Keys ==> c < other
    requires client in s.calls && Outlives(s.calls[client], key, epoch, at, s.now)
    ensures
      var filled := Run(Run(s, Open(other, key), ttl), Fill(other), ttl);
      var stored := Run(filled, Store(client), ttl);
      && key in stored.table && Outdated(stored.table[key], epoch, at, stored.now)
      && stored.log == s.log && stored.now == s.now && other + 1 !in stored.calls
  {
    Opens(s, other, key, ttl);
    var begun := Run(s, Open(other, key), ttl);
    Fills(begun, other, key, ttl, client);
    StoresOutdated(Run(begun, Fill(other), ttl), client, key, epoch, at, ttl);
    assert other + 1 !in begun.calls.Keys;
  }

  lemma RevivalServes(s: State, client: nat, other: nat, key: string, epoch: nat, at: int, ttl: nat)
    requires at <= s.now && forall c :: c in s.calls.Keys ==> c < other
    requires client in s.calls && Outlives(s.calls[client], key, epoch, at, s.now)
    ensures
      var log := Run(s, Revival(s, client, other, key, at), ttl).log;
      |log| == |s.log| + 1 && log[|s.log|].key == key && log[|s.log|].value.epoch < epoch && log[|s.log|].when > at
  {
    RevivalStores(s, client, other, key, epoch, at, ttl);
    var stored := Run(Run(Run(s, Open(other, key), ttl), Fill(other), ttl), Store(client), ttl);
    ReadsOutdated(stored, other + 1, key, epoch, at, ttl);
    RevivalRuns(s, client, other, key, at, ttl);
  }

  /** A call that can outlive a write does so, if it is left to finish: its outdated result is served later on. */
  lemma InFlightResultOutlivesWrite(s: State, keys: set<string>, at: int, key: string, ttl: nat, client: nat)
    returns (later: seq<Action>)
    requires Inv(s, ttl) && key in keys && at <= s.now
    requires client in s.calls && CanOutlive(s.calls[client], key, at, s.now)
    ensures Unmarked(later, key) && ServesOutdated(s, keys, at, key, ttl, later)
  {
    assert CallFits(s, s.calls[client], ttl);
    var written := Step(s, WriteMetadata(keys, at), ttl);
    var other := FreshClient(s.calls.Keys);
    later := Revival(written, client, other, key, at);
    RevivalIsUnmarked(written, client, other, key, at);
    RevivalServes(written, client, other, key, WritesOf(s, key) + 1, at, ttl);
  }

  /** In every reachable state: whatever happens after a write to a key, short of marking it again, nothing computed
      before the write is served after its date, exactly if nothing in flight for the key outlives it. */
  lemma WriteTakesEffectIff(actions: seq<Action>, ttl: nat, keys: set<string>, at: int, key: string)
    requires key in keys && at <= Run(Init(), actions, ttl).now
    ensures
      var s := Run(Init(), actions, ttl);
      (forall later :: Unmarked(later, key) ==> !ServesOutdated(s, keys, at, key, ttl, later)) <==>
      NoneOutlives(s, key, at)
  {
    var s := Run(Init(), actions, ttl);
    if NoneOutlives(s, key, at) {
      forall later | Unmarked(later, key)
        ensures !ServesOutdated(s, keys, at, key, ttl, later)
      {
        UnmarkedNothingServed(s, keys, at, key, ttl, later);
      }
    } else {
      RunKeepsInv(Init(), actions, ttl);
      var client :| client in s.calls && CanOutlive(s.calls[client], key, at, s.now);
      var later := InFlightResultOutlivesWrite(s, keys, at, key, ttl, client);
    }
  }

  lemma UnmarkedNothingServed(s: State, keys: set<string>, at: int, key: string, ttl: nat, later: seq<Action>)
    requires key in keys && at <= s.now && NoneOutlives(s, key, at) && Unmarked(later, key)
    ensures !ServesOutdated(s, keys, at, key, ttl, later)
  {
    var log := Run(Step(s, WriteMetadata(keys, at), ttl), later, ttl).log;
    forall i | |s.log| <= i < |log| && log[i].key == key && log[i].value.epoch <= WritesOf(s, key)
      ensures log[i].when <= at
    {
      NothingOutdatedIsServed(s, keys, at, key, ttl, later, i);
      UnmarkedHorizon(later, key, at);
    }
  }

  // ---------------------------------------------------------------- what is stored is served

  /** The call is open after each of the actions. */
  predicate StaysOpen(s: State, actions: seq<Action>, ttl: nat, client: nat) {
    forall i :: 0 <= i <= |actions| ==> client in Run(s, actions[..i], ttl).calls
  }

  /** The step stores a result under the key, marks or prunes it. */
  predicate Touches(s: State, a: Action, key: string) {
    match a
    case Insert(client, committed) =>
      committed && client in s.calls && s.calls[client].Inserting? && s.calls[client].key == key && key !in s.table
    case Update(client, committed) =>
      committed && client in s.calls && s.calls[client].Updating? && s.calls[client].key == key && key in s.table
    case Prune(keys) => key in keys
    case _ => MarksKey(a, key)
  }

  predicate Untouched(s: State, actions: seq<Action>, ttl: nat, key: string) {
    forall i :: 0 <= i < |actions| ==> !Touches(Run(s, actions[..i], ttl), actions[i], key)
  }

  predicate HasPending(s: State, client: nat, key: string, entry: Entry) {
    && client in s.calls && (s.calls[client].Inserting? || s.calls[client].Updating?)
    && s.calls[client].key == key && s.calls[client].entry == entry
  }

  lemma {:induction false} PendingStays(s: State, actions: seq<Action>, ttl: nat, client: nat, key: string,
                                        entry: Entry)
    requires HasPending(s, client, key, entry) && StaysOpen(s, actions, ttl, client)
    ensures HasPending(Run(s, actions, ttl), client, key, entry)
  {
    if actions != [] {
      var n := |actions| - 1;
      assert forall i :: 0 <= i <= n ==> actions[..n][..i] == actions[..i];
      PendingStays(s, actions[..n], ttl, client, key, entry);
      assert actions[..|actions|] == actions;
      PendingStep(Run(s, actions[..n], ttl), actions[n], ttl, client, key, entry);
    }
  }

  lemma PendingStep(s: State, a: Action, ttl: nat, client: nat, key: string, entry: Entry)
    requires HasPending(s, client, key, entry) && client in Step(s, a, ttl).calls
    ensures HasPending(Step(s, a, ttl), client, key, entry)
  {
  }

  predicate Keeps(s: State, key: string, value: Value, due: Option<int>) {
    key in s.table && s.table[key].value == value && s.table[key].deleteAfter == due
  }

  lemma UntouchedStep(s: State, a: Action, ttl: nat, key: string, value: Value, due: Option<int>)
    requires Keeps(s, key, value, due) && !Touches(s, a, key)
    ensures Keeps(Step(s, a, ttl), key, value, due)
  {
  }

  lemma {:induction false} UntouchedKeeps(s: State, actions: seq<Action>, ttl: nat, key: string, value: Value,
                                          due: Option<int>)
    requires Keeps(s, key, value, due) && Untouched(s, actions, ttl, key)
    ensures Keeps(Run(s, actions, ttl), key, value, due)
  {
    if actions != [] {
      var n := |actions| - 1;
      assert forall i :: 0 <= i < n ==> actions[..n][..i] == actions[..i];
      UntouchedKeeps(s, actions[..n], ttl, key, value, due);
      UntouchedStep(Run(s, actions[..n], ttl), actions[n], ttl, key, value, due);
    }
  }

  /** The call finishes at `s`, stays open while others run, and then stores its result, which gives `stored`. */
  predicate Completes(s: State, finish: Action, waiting: seq<Action>, store: Action, ttl: nat) {
    && finish.Finish? && finish.storable && finish.client in s.calls && s.calls[finish.client].Computing?
    && StaysOpen(Step(s, finish, ttl), waiting, ttl, finish.client)
    && (store.Insert? || store.Update?) && store.client == finish.client
    && var waited := Run(Step(s, finish, ttl), waiting, ttl);
       Step(waited, store, ttl).table != waited.table
  }

  function AfterStore(s: State, finish: Action, waiting: seq<Action>, store: Action, ttl: nat): State {
    Step(Run(Step(s, finish, ttl), waiting, ttl), store, ttl)
  }

  /** What is stored then: the result of the computation, with its dates reckoned from the time it was finished. */
  lemma StoredEntryIs(s: State, finish: Action, waiting: seq<Action>, store: Action, ttl: nat)
    requires Completes(s, finish, waiting, store, ttl)
    ensures
      var Computing(key, epoch) := s.calls[finish.client];
      var stored := AfterStore(s, finish, waiting, store, ttl);
      && key in stored.table && stored.table[key].value == Value(key, epoch, finish.size)
      && stored.table[key].deleteAfter == (if ttl == 0 then None else Some(s.now + ttl))
      && stored.table[key].keepUntil == s.now + finish.keepSeconds && stored.table[key].costs == finish.costs
      && stored.table[key].lastUpdate == stored.now
    ensures
      var key, waited := s.calls[finish.client].key, Run(Step(s, finish, ttl), waiting, ttl);
      var entry := AfterStore(s, finish, waiting, store, ttl).table[key];
      if key in waited.table then
        && entry.readCount == waited.table[key].readCount && entry.lastRead == waited.table[key].lastRead
        && entry.revision == waited.table[key].revision + 1
      else entry.readCount == 0 && entry.lastRead == None && entry.revision == 0
  {
    var Computing(key, epoch) := s.calls[finish.client];
    var finished := Step(s, finish, ttl);
    var entry := finished.calls[finish.client].entry;
    PendingStays(finished, waiting, ttl, finish.client, key, entry);
    StorePends(Run(finished, waiting, ttl), store, ttl, key, entry);
  }

  lemma StorePends(s: State, store: Action, ttl: nat, key: string, entry: Entry)
    requires (store.Insert? || store.Update?) && HasPending(s, store.client, key, entry)
    requires Step(s, store, ttl).table != s.table
    ensures
      var s' := Step(s, store, ttl);
      && key in s'.table && s'.table[key].lastUpdate == s'.now
      && s'.table[key].value == entry.value && s'.table[key].deleteAfter == entry.deleteAfter
      && s'.table[key].keepUntil == entry.keepUntil && s'.table[key].costs == entry.costs
      && (if key in s.table then
            && s'.table[key].readCount == s.table[key].readCount && s'.table[key].lastRead == s.table[key].lastRead
            && s'.table[key].revision == s.table[key].revision + 1
          else
            && s'.table[key].readCount == entry.readCount && s'.table[key].lastRead == entry.lastRead
            && s'.table[key].revision == entry.revision)
  {
  }

  /** Serving a value counts as a read of its entry, unless the commit fails. */
  lemma ServingCountsRead(s: State, client: nat, key: string, committed: bool, ttl: nat)
    requires |Step(s, Lookup(client, key, false, committed), ttl).log| > |s.log|
    ensures
      var s' := Step(s, Lookup(client, key, false, committed), ttl);
      && key in s.table && key in s'.table && s'.table - {key} == s.table - {key}
      && s'.table[key].value == s.table[key].value && s'.table[key].deleteAfter == s.table[key].deleteAfter
      && s'.table[key].readCount == s.table[key].readCount + (if committed then 1 else 0)
      && s'.table[key].lastRead == if committed then Some(s.now) else s.table[key].lastRead
  {
    if committed {
      assert AfterRead(s.table, key, s.now) - {key} == s.table - {key};
    }
  }

  /** The time to live: a non-empty result that was finished at some time and stored is served by every lookup of its
      key up to `ttl` seconds later, or without end for 0, and by none after that, as long as nothing stores, marks or
      prunes the key in between. */
  lemma StoredIsServedForItsTime(s: State, finish: Action, waiting: seq<Action>, store: Action, later: seq<Action>,
                                 client: nat, committed: bool, ttl: nat)
    requires Completes(s, finish, waiting, store, ttl) && finish.size > 0
    requires
      var stored := AfterStore(s, finish, waiting, store, ttl);
      Untouched(stored, later, ttl, s.calls[finish.client].key) && client !in Run(stored, later, ttl).calls
    ensures
      var Computing(key, epoch) := s.calls[finish.client];
      var s' := Run(AfterStore(s, finish, waiting, store, ttl), later, ttl);
      var found := Step(s', Lookup(client, key, false, committed), ttl);
      if ttl == 0 || s'.now <= s.now + ttl then
        && |found.log| == |s'.log| + 1 && found.log[|s'.log|].key == key && found.log[|s'.log|].when == s'.now
        && found.log[|s'.log|].value == Value(key, epoch, finish.size) && found.calls == s'.calls
      else
        found.log == s'.log && found.calls == s'.calls[client := Missed(key)]
  {
    var Computing(key, epoch) := s.calls[finish.client];
    var value, due := Value(key, epoch, finish.size), if ttl == 0 then None else Some(s.now + ttl);
    var stored := AfterStore(s, finish, waiting, store, ttl);
    StoredEntryIs(s, finish, waiting, store, ttl);
    UntouchedKeeps(stored, later, ttl, key, value, due);
    LookupKept(Run(stored, later, ttl), client, key, committed, value, due, ttl);
  }

  /** A marking: an entry with a value is served up to the date it was given, explicitly or by a metadata write, and not
      after that, as long as nothing stores, marks or prunes the key in between. */
  lemma MarkedIsServedUpToItsDate(s: State, mark: Action, date: int, key: string, later: seq<Action>, client: nat,
                                  committed: bool, ttl: nat)
    requires key in s.table && s.table[key].value.size > 0
    requires mark == Mark(key, date) || (mark.WriteMetadata? && key in mark.keys && mark.at == date && date <= s.now)
    requires Untouched(Step(s, mark, ttl), later, ttl, key) && client !in Run(Step(s, mark, ttl), later, ttl).calls
    ensures
      var s' := Run(Step(s, mark, ttl), later, ttl);
      var found := Step(s', Lookup(client, key, false, committed), ttl);
      if s'.now <= date then
        && |found.log| == |s'.log| + 1 && found.log[|s'.log|].key == key && found.log[|s'.log|].when == s'.now
        && found.log[|s'.log|].value == s.table[key].value && found.calls == s'.calls
      else
        found.log == s'.log && found.calls == s'.calls[client := Missed(key)]
  {
    var value := s.table[key].value;
    UntouchedKeeps(Step(s, mark, ttl), later, ttl, key, value, Some(date));
    LookupKept(Run(Step(s, mark, ttl), later, ttl), client, key, committed, value, Some(date), ttl);
  }

  lemma LookupKept(s: State, client: nat, key: string, committed: bool, value: Value, due: Option<int>, ttl: nat)
    requires Keeps(s, key, value, due) && value.size > 0 && client !in s.calls
    ensures
      var found := Step(s, Lookup(client, key, false, committed), ttl);
      if due.None? || s.now <= due.value then
        && |found.log| == |s.log| + 1 && found.log[|s.log|].key == key && found.log[|s.log|].when == s.now
        && found.log[|s.log|].value == value && found.calls == s.calls
      else found.log == s.log && found.calls == s.calls[client := Missed(key)]
  {
  }

  // ---------------------------------------------------------------- where things come from

  /** The step finished a result with this value. */
  ghost predicate Finished(actions: seq<Action>, ttl: nat, i: nat, value: Value)
    requires i < |actions|
  {
    var s, a := Run(Init(), actions[..i], ttl), actions[i];
    && a.Finish? && a.storable && a.size == value.size && a.client in s.calls
    && s.calls[a.client] == Computing(value.key, value.epoch)
  }

  ghost predicate WasFinished(actions: seq<Action>, ttl: nat, value: Value) {
    exists i :: 0 <= i < |actions| && Finished(actions, ttl, i, value)
  }

  ghost predicate AllFinished(s: State, actions: seq<Action>, ttl: nat) {
    && (forall k :: k in s.table ==> WasFinished(actions, ttl, s.table[k].value))
    && (forall c :: c in s.calls && (s.calls[c].Inserting? || s.calls[c].Updating?) ==>
          WasFinished(actions, ttl, s.calls[c].entry.value))
    && (forall k :: 0 <= k < |s.log| ==> WasFinished(actions, ttl, s.log[k].value))
  }

  lemma FinishedStays(actions: seq<Action>, a: Action, ttl: nat, value: Value)
    requires WasFinished(actions, ttl, value)
    ensures WasFinished(actions + [a], ttl, value)
  {
    var i :| 0 <= i < |actions| && Finished(actions, ttl, i, value);
    assert (actions + [a])[..i] == actions[..i] && (actions + [a])[i] == actions[i];
    assert Finished(actions + [a], ttl, i, value);
  }

  /** The value was there before the step, or the step has finished it. */
  predicate FromBefore(s: State, a: Action, value: Value) {
    || (exists k :: k in s.table && s.table[k].value == value)
    || (exists c :: c in s.calls && (s.calls[c].Inserting? || s.calls[c].Updating?) && s.calls[c].entry.value == value)
    || (a.Finish? && a.storable && a.client in s.calls && a.size == value.size
        && s.calls[a.client] == Computing(value.key, value.epoch))
  }

  lemma StepAddsNothing(s: State, a: Action, ttl: nat)
    ensures
      var s' := Step(s, a, ttl);
      && (forall k :: k in s'.table ==> FromBefore(s, a, s'.table[k].value))
      && (forall c :: c in s'.calls && (s'.calls[c].Inserting? || s'.calls[c].Updating?) ==>
            FromBefore(s, a, s'.calls[c].entry.value))
      && (forall k :: |s.log| <= k < |s'.log| ==> FromBefore(s, a, s'.log[k].value))
      && s.log <= s'.log
  {
  }

  lemma FromBeforeFinished(actions: seq<Action>, a: Action, ttl: nat, value: Value)
    requires AllFinished(Run(Init(), actions, ttl), actions, ttl) && FromBefore(Run(Init(), actions, ttl), a, value)
    ensures WasFinished(actions + [a], ttl, value)
  {
    if WasFinished(actions, ttl, value) {
      FinishedStays(actions, a, ttl, value);
    } else {
      assert (actions + [a])[..|actions|] == actions && (actions + [a])[|actions|] == a;
      assert Finished(actions + [a], ttl, |actions|, value);
    }
  }

  lemma StepFinishes(actions: seq<Action>, a: Action, ttl: nat)
    requires AllFinished(Run(Init(), actions, ttl), actions, ttl)
    ensures AllFinished(Step(Run(Init(), actions, ttl), a, ttl), actions + [a], ttl)
  {
    var s := Run(Init(), actions, ttl);
    StepAddsNothing(s, a, ttl);
    forall value | FromBefore(s, a, value)
      ensures WasFinished(actions + [a], ttl, value)
    {
      FromBeforeFinished(actions, a, ttl, value);
    }
    forall k | 0 <= k < |s.log|
      ensures WasFinished(actions + [a], ttl, s.log[k].value)
    {
      FinishedStays(actions, a, ttl, s.log[k].value);
    }
  }

  lemma {:induction false} RunFinishes(actions: seq<Action>, ttl: nat)
    ensures AllFinished(Run(Init(), actions, ttl), actions, ttl)
  {
    if actions != [] {
      var n := |actions| - 1;
      assert actions == actions[..n] + [actions[n]];
      RunFinishes(actions[..n], ttl);
      StepFinishes(actions[..n], actions[n], ttl);
    }
  }

  /** Whatever is served is the result of a computation for that very key which was fit for storing. */
  lemma ServedWasComputed(actions: seq<Action>, ttl: nat, k: nat)
    requires k < |Run(Init(), actions, ttl).log|
    ensures
      var e := Run(Init(), actions, ttl).log[k];
      WasFinished(actions, ttl, e.value) && e.value.key == e.key && e.value.size > 0
  {
    RunFinishes(actions, ttl);
    ServedForItsKeyAndInTime(actions, ttl, k);
    NothingEmptyIsServed(actions, ttl);
  }

  lemma {:induction false} NothingEmptyIsServed(actions: seq<Action>, ttl: nat)
    ensures forall k :: 0 <= k < |Run(Init(), actions, ttl).log| ==> Run(Init(), actions, ttl).log[k].value.size > 0
  {
    if actions != [] {
      NothingEmptyIsServed(actions[..|actions| - 1], ttl);
    }
  }

  /** The metadata writes among the actions that concern the key; one dated after its step does not take place. */
  function WritesIn(actions: seq<Action>, key: string, ttl: nat): nat {
    if actions == [] then 0
    else
      var n := |actions| - 1;
      var a := actions[n];
      WritesIn(actions[..n], key, ttl) +
      if a.WriteMetadata? && key in a.keys && a.at <= Run(Init(), actions[..n], ttl).now then 1 else 0
  }

  lemma WritesNext(s: State, a: Action, key: string, ttl: nat)
    ensures
      WritesOf(Step(s, a, ttl), key) ==
      WritesOf(s, key) + if a.WriteMetadata? && key in a.keys && a.at <= s.now then 1 else 0
  {
  }

  lemma {:induction false} WritesAreCounted(actions: seq<Action>, key: string, ttl: nat)
    ensures WritesOf(Run(Init(), actions, ttl), key) == WritesIn(actions, key, ttl)
  {
    if actions != [] {
      var n := |actions| - 1;
      WritesAreCounted(actions[..n], key, ttl);
      WritesNext(Run(Init(), actions[..n], ttl), actions[n], key, ttl);
    }
  }

  /** A rolled-back request leaves the table as it was. */
  lemma RollbackKeepsTable(s: State, a: Action, ttl: nat)
    requires (a.Lookup? || a.Insert? || a.Update?) && !a.committed
    ensures Step(s, a, ttl).table == s.table
  {
  }

  /** The step gives the stored entry of the key a later deletion date than it has. */
  predicate Postpones(s: State, a: Action, key: string) {
    && key in s.table && s.table[key].deleteAfter.Some?
    && ((a.Mark? && a.key == key && s.table[key].deleteAfter.value < a.date)
        || (a.WriteMetadata? && key in a.keys && a.at <= s.now && s.table[key].deleteAfter.value < a.at))
  }

  lemma PostponedStep(s: State, a: Action, ttl: nat, key: string)
    requires key in Step(s, a, ttl).postponed
    ensures key in s.postponed || Postpones(s, a, key)
    ensures a.Insert? || a.Update? ==> !Touches(s, a, key)
  {
  }

  /** A key counts as postponed only by a step that has moved its date to a later time, and nothing has been stored
      under it since. */
  lemma {:induction false} PostponedByMarking(actions: seq<Action>, ttl: nat, key: string) returns (i: nat)
    requires key in Run(Init(), actions, ttl).postponed
    ensures i < |actions| && Postpones(Run(Init(), actions[..i], ttl), actions[i], key)
    ensures forall m :: i < m < |actions| ==>
      var a := actions[m];
      a.Insert? || a.Update? ==> !Touches(Run(Init(), actions[..m], ttl), a, key)
  {
    var n := |actions| - 1;
    PostponedStep(Run(Init(), actions[..n], ttl), actions[n], ttl, key);
    if key in Run(Init(), actions[..n], ttl).postponed {
      i := PostponedByMarking(actions[..n], ttl, key);
      assert actions[..n][..i] == actions[..i];
      assert forall m :: i < m < n ==> actions[..n][..m] == actions[..m];
    } else {
      i := n;
    }
  }

  /** A later write gives an entry that is already due a new deletion date: at that very instant the outdated
      value is served again. */
  lemma SecondWriteRevivesForAnInstant(s: State, key: string, ttl: nat)
    requires key in s.table && s.table[key].deleteAfter.Some? && s.table[key].deleteAfter.value < s.now
    requires s.table[key].value.size > 0 && 0 !in s.calls
    ensures Found(s.table, key, s.now) == None
    ensures
      var s' := Step(Step(s, WriteMetadata({key}, s.now), ttl), Lookup(0, key, false, true), ttl);
      |s'.log| == |s.log| + 1 && s'.log[|s.log|].value == s.table[key].value && s'.log[|s.log|].postponed
  {
  }
}
