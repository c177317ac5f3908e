/** Compliance snapshots over repeated runs. (src/artefact_enumerator.py, src/odg/model.py) */
module Snapshots {
  import opened Common

  type Artefact = string

  datatype Status = Active | Inactive | Count(n: int) | NoStatus

  datatype State = State(timestamp: int, status: Status, service: Option<string>)

  // ---------------------------------------------------------------- the list of states

  /** The newest state of the service; of equally new ones the one noted first. */
  function Current(states: seq<State>, service: Option<string>): (r: Option<State>)
    ensures r.Some? ==> r.value in states && r.value.service == service
  {
    if states == [] then None
    else
      var later := Current(states[1..], service);
      if states[0].service != service then later
      else if later.Some? && later.value.timestamp > states[0].timestamp then later
      else Some(states[0])
  }

  function InsertNewest(x: State, xs: seq<State>): seq<State> {
    if xs == [] || xs[0].timestamp <= x.timestamp then [x] + xs else [xs[0]] + InsertNewest(x, xs[1..])
  }

  /** `sorted(states, key=timestamp, reverse=True)` */
  function NewestFirst(states: seq<State>): seq<State> {
    if states == [] then [] else InsertNewest(states[0], NewestFirst(states[1..]))
  }

  function FirstOf(states: seq<State>, service: Option<string>): Option<State> {
    if states == [] then None
    else if states[0].service == service then Some(states[0])
    else FirstOf(states[1..], service)
  }

  function Of(states: seq<State>, service: Option<string>): seq<State> {
    if states == [] then []
    else (if states[0].service == service then [states[0]] else []) + Of(states[1..], service)
  }

  function Others(states: seq<State>, service: Option<string>): seq<State> {
    if states == [] then []
    else (if states[0].service != service then [states[0]] else []) + Others(states[1..], service)
  }

  ghost predicate SortedNewestFirst(xs: seq<State>) {
    forall i, j :: 0 <= i < j < |xs| ==> xs[j].timestamp <= xs[i].timestamp
  }

  lemma {:induction false} FirstOfInserted(x: State, xs: seq<State>, service: Option<string>)
    requires SortedNewestFirst(xs)
    ensures SortedNewestFirst(InsertNewest(x, xs))
    ensures forall y :: y in InsertNewest(x, xs) ==> y == x || y in xs
    ensures
      var first := FirstOf(xs, service);
      FirstOf(InsertNewest(x, xs), service) ==
      if x.service != service || (first.Some? && first.value.timestamp > x.timestamp) then first else Some(x)
  {
    if xs != [] {
      FirstOfInserted(x, xs[1..], service);
      FirstOfIsMember(xs, service);
    }
  }

  lemma {:induction false} FirstOfIsMember(xs: seq<State>, service: Option<string>)
    ensures FirstOf(xs, service).Some? ==> FirstOf(xs, service).value in xs
  {
    if xs != [] {
      FirstOfIsMember(xs[1..], service);
    }
  }

  /** Sorting and taking the first match finds the newest state. */
  lemma {:induction false} FirstOfNewestIsCurrent(states: seq<State>, service: Option<string>)
    ensures SortedNewestFirst(NewestFirst(states))
    ensures FirstOf(NewestFirst(states), service) == Current(states, service)
  {
    if states != [] {
      FirstOfNewestIsCurrent(states[1..], service);
      FirstOfInserted(states[0], NewestFirst(states[1..]), service);
    }
  }

  /** `list.remove`: drops the first equal element. */
  function Remove(xs: seq<State>, x: State): seq<State>
    requires x in xs
  {
    if xs[0] == x then xs[1..] else [xs[0]] + Remove(xs[1..], x)
  }

  lemma {:induction false} RemoveOf(xs: seq<State>, x: State, service: Option<string>)
    requires x in xs && x.service == service
    ensures Others(Remove(xs, x), service) == Others(xs, service)
    ensures multiset(Of(xs, service)) == multiset(Of(Remove(xs, x), service)) + multiset{x}
  {
    if xs[0] != x {
      RemoveOf(xs[1..], x, service);
      assert Remove(xs, x)[1..] == Remove(xs[1..], x);
    }
  }

  lemma {:induction false} OfMembers(xs: seq<State>, service: Option<string>, x: State)
    ensures x in Of(xs, service) <==> x in xs && x.service == service
  {
    if xs != [] {
      OfMembers(xs[1..], service, x);
    }
  }

  lemma RemoveFromBag(xs: seq<State>, x: State, service: Option<string>, rest: seq<State>, current: State)
    requires x.service == service && multiset(Of(xs, service)) == multiset(rest) + multiset{x} + multiset{current}
    ensures x in xs && Others(Remove(xs, x), service) == Others(xs, service)
    ensures multiset(Of(Remove(xs, x), service)) == multiset(rest) + multiset{current}
  {
    assert x in multiset(Of(xs, service));
    OfMembers(xs, service, x);
    RemoveOf(xs, x, service);
    assert multiset(Of(Remove(xs, x), service)) == multiset(Of(xs, service)) - multiset{x};
  }

  lemma {:induction false} OfInserted(x: State, xs: seq<State>, service: Option<string>)
    ensures
      multiset(Of(InsertNewest(x, xs), service)) ==
      multiset(Of(xs, service)) + if x.service == service then multiset{x} else multiset{}
  {
    if xs == [] || xs[0].timestamp <= x.timestamp {
      assert ([x] + xs)[1..] == xs;
    } else {
      OfInserted(x, xs[1..], service);
      assert InsertNewest(x, xs)[1..] == InsertNewest(x, xs[1..]);
    }
  }

  lemma {:induction false} OfSorted(xs: seq<State>, service: Option<string>)
    ensures multiset(Of(NewestFirst(xs), service)) == multiset(Of(xs, service))
  {
    if xs != [] {
      OfSorted(xs[1..], service);
      OfInserted(xs[0], NewestFirst(xs[1..]), service);
    }
  }

  lemma SingletonBag(xs: seq<State>, x: State)
    requires multiset(xs) == multiset{x}
    ensures xs == [x]
  {
    assert |multiset(xs)| == 1;
    assert xs[0] in multiset(xs);
  }

  lemma {:induction false} FirstOfPrefix(xs: seq<State>, x: State, service: Option<string>)
    ensures
      FirstOf(xs + [x], service) ==
      if FirstOf(xs, service).Some? then FirstOf(xs, service) else if x.service == service then Some(x) else None
  {
    if xs != [] {
      FirstOfPrefix(xs[1..], x, service);
      assert (xs + [x])[1..] == xs[1..] + [x];
    }
  }

  lemma SplitAt(xs: seq<State>, i: nat, service: Option<string>)
    requires i < |xs|
    ensures
      FirstOf(xs[..i + 1], service) ==
      if FirstOf(xs[..i], service).Some? then FirstOf(xs[..i], service)
      else if xs[i].service == service then Some(xs[i]) else None
    ensures
      multiset(Of(xs[i..], service)) ==
      multiset(Of(xs[i + 1..], service)) + if xs[i].service == service then multiset{xs[i]} else multiset{}
  {
    assert xs[..i + 1] == xs[..i] + [xs[i]];
    FirstOfPrefix(xs[..i], xs[i], service);
    assert xs[i..][1..] == xs[i + 1..];
  }

  /** The states left once the first `i` of the sorted ones have been visited: of the service, `current` and those
      not visited yet. */
  ghost predicate Purging(left: seq<State>, states: seq<State>, sorted: seq<State>, i: nat, current: Option<State>,
                          service: Option<string>)
    requires i <= |sorted|
  {
    && current == FirstOf(sorted[..i], service)
    && Others(left, service) == Others(states, service)
    && multiset(Of(left, service)) ==
       multiset(Of(sorted[i..], service)) + if current.Some? then multiset{current.value} else multiset{}
  }

  lemma PurgingOn(left: seq<State>, states: seq<State>, sorted: seq<State>, i: nat, current: Option<State>,
                  service: Option<string>)
    requires i < |sorted| && Purging(left, states, sorted, i, current, service)
    ensures sorted[i].service != service ==> Purging(left, states, sorted, i + 1, current, service)
    ensures sorted[i].service == service && current.None? ==>
      Purging(left, states, sorted, i + 1, Some(sorted[i]), service)
    ensures sorted[i].service == service && current.Some? ==>
      sorted[i] in left && Purging(Remove(left, sorted[i]), states, sorted, i + 1, current, service)
  {
    SplitAt(sorted, i, service);
    if sorted[i].service == service && current.Some? {
      RemoveFromBag(left, sorted[i], service, Of(sorted[i + 1..], service), current.value);
    }
  }

  lemma PurgingStarts(states: seq<State>, service: Option<string>)
    ensures Purging(states, states, NewestFirst(states), 0, None, service)
  {
    OfSorted(states, service);
    assert NewestFirst(states)[0..] == NewestFirst(states);
  }

  lemma PurgingEnds(left: seq<State>, states: seq<State>, current: Option<State>, service: Option<string>)
    requires Purging(left, states, NewestFirst(states), |NewestFirst(states)|, current, service)
    ensures current == Current(states, service)
    ensures Of(left, service) == if current.Some? then [current.value] else []
  {
    var sorted := NewestFirst(states);
    assert sorted[..|sorted|] == sorted;
    FirstOfNewestIsCurrent(states, service);
    if current.Some? {
      SingletonBag(Of(left, service), current.value);
    } else {
      assert |multiset(Of(left, service))| == 0;
    }
  }

  /** Of the states of the service only the newest stays; those of others are untouched. */
  method PurgeOldStates(states: seq<State>, service: Option<string>) returns (left: seq<State>)
    ensures Others(left, service) == Others(states, service)
    ensures
      var current := Current(states, service);
      Of(left, service) == if current.Some? then [current.value] else []
  {
    left := states;
    var current: Option<State> := None;
    var sorted := NewestFirst(states);
    PurgingStarts(states, service);
    for i := 0 to |sorted|
      invariant Purging(left, states, sorted, i, current, service)
    {
      PurgingOn(left, states, sorted, i, current, service);
      if service == sorted[i].service {
        if current.None? {
          current := Some(sorted[i]);
        } else {
          left := Remove(left, sorted[i]);
        }
      }
    }
    PurgingEnds(left, states, current, service);
  }

  class ComplianceSnapshot {
    var state: seq<State>

    constructor (now: int)
      ensures state == [State(now, Active, None)]
    {
      state := [State(now, Active, None)];
    }

    method CurrentState(service: Option<string>) returns (r: Option<State>)
      ensures r == Current(state, service)
    {
      var sorted := NewestFirst(state);
      FirstOfNewestIsCurrent(state, service);
      for i := 0 to |sorted|
        invariant FirstOf(sorted[..i], service) == None
      {
        assert sorted[..i + 1] == sorted[..i] + [sorted[i]];
        FirstOfPrefix(sorted[..i], sorted[i], service);
        if sorted[i].service == service {
          FirstOfSplit(sorted, i + 1, service);
          return Some(sorted[i]);
        }
      }
      assert sorted[..|sorted|] == sorted;
      r := None;
    }

    method IsActive() returns (r: bool)
      ensures r == (Current(state, None).Some? && Current(state, None).value.status == Active)
    {
      var current := CurrentState(None);
      r := current.Some? && current.value.status == Active;
    }

    method UpdateState(s: State)
      modifies this
      ensures forall service :: Current(state, service) == Updated(Current(old(state), service), s, service)
      ensures |Of(state, s.service)| == 1
      ensures Others(state, s.service) == Others(old(state), s.service)
    {
      state := state + [s];
      OthersAppends(old(state), s);
      CurrentAppends(old(state), s, s.service);
      state := PurgeOldStates(state, s.service);
      forall service
        ensures Current(state, service) == Updated(Current(old(state), service), s, service)
      {
        CurrentAppends(old(state), s, service);
        CurrentAppends(old(state), s, s.service);
        if service == s.service {
          CurrentIsOf(state, service);
        } else {
          CurrentIsOthers(state, service, s.service);
          CurrentIsOthers(old(state), service, s.service);
        }
      }
    }
  }

  lemma {:induction false} FirstOfSplit(xs: seq<State>, i: nat, service: Option<string>)
    requires i <= |xs| && FirstOf(xs[..i], service).Some?
    ensures FirstOf(xs, service) == FirstOf(xs[..i], service)
  {
    if xs[0].service != service {
      assert xs[..i][1..] == xs[1..][..i - 1];
      FirstOfSplit(xs[1..], i - 1, service);
    }
  }

  /** Noting a state: it counts unless there is one of its service that is as new. */
  function Updated(current: Option<State>, s: State, service: Option<string>): Option<State> {
    if s.service != service || (current.Some? && current.value.timestamp >= s.timestamp) then current else Some(s)
  }

  lemma {:induction false} CurrentAppends(states: seq<State>, s: State, service: Option<string>)
    ensures Current(states + [s], service) == Updated(Current(states, service), s, service)
  {
    if states != [] {
      CurrentAppends(states[1..], s, service);
      assert (states + [s])[1..] == states[1..] + [s];
    }
  }

  lemma {:induction false} OthersAppends(states: seq<State>, s: State)
    ensures Others(states + [s], s.service) == Others(states, s.service)
  {
    if states != [] {
      OthersAppends(states[1..], s);
      assert (states + [s])[1..] == states[1..] + [s];
    }
  }

  lemma {:induction false} CurrentIsOf(states: seq<State>, service: Option<string>)
    ensures Current(states, service) == Current(Of(states, service), service)
  {
    if states != [] {
      CurrentIsOf(states[1..], service);
      if states[0].service == service {
        assert Of(states, service)[1..] == Of(states[1..], service);
      } else {
        assert Of(states, service) == Of(states[1..], service);
      }
    }
  }

  lemma {:induction false} CurrentIsOthers(states: seq<State>, service: Option<string>, other: Option<string>)
    requires service != other
    ensures Current(states, service) == Current(Others(states, other), service)
  {
    if states != [] {
      CurrentIsOthers(states[1..], service, other);
      if states[0].service != other {
        assert Others(states, other)[1..] == Others(states[1..], other);
      } else {
        assert Others(states, other) == Others(states[1..], other);
      }
    }
  }

  // ---------------------------------------------------------------- one artefact in one run

  /** The current state of every service; services are absent until noted. */
  type Snap = map<Option<string>, State>

  function Get<K(==), V>(m: map<K, V>, k: K): Option<V> {
    if k in m then Some(m[k]) else None
  }

  function Note(m: Snap, s: State): Snap {
    if Updated(Get(m, s.service), s, s.service) == Some(s) then m[s.service := s] else m
  }

  /** On the current states, `UpdateState` is `Note`. */
  lemma NoteUpdates(m: Snap, s: State, service: Option<string>)
    ensures Get(Note(m, s), service) == Updated(Get(m, service), s, service)
  {
  }

  datatype Priority = NoPriority | Low | High

  datatype Item = Item(artefact: Artefact, service: string, priority: Priority)

  /** `counted`: the issue replicator, whose state records the number of scans. */
  datatype Service = Service(name: string, interval: int, counted: bool, applies: Artefact -> bool)

  datatype Config = Config(services: seq<Service>, grace: int)

  const ISSUE_REPLICATOR := "issueReplicator"

  ghost predicate ValidConfig(cfg: Config) {
    && (forall i, j :: 0 <= i < j < |cfg.services| ==> cfg.services[i].name != cfg.services[j].name)
    && (forall i :: 0 <= i < |cfg.services| ==>
          (cfg.services[i].counted <==> cfg.services[i].name == ISSUE_REPLICATOR))
  }

  predicate Replicates(cfg: Config) {
    exists i :: 0 <= i < |cfg.services| && cfg.services[i].counted
  }

  predicate IsActive(m: Snap) {
    None in m && m[None].status == Active
  }

  function CalculatePriority(m: Snap, service: Service, status: Option<int>, now: int): Priority {
    var current := Get(m, Some(service.name));
    if current.None? || (status.Some? && Count(status.value) != current.value.status) then High
    else if now - current.value.timestamp >= service.interval then Low
    else NoPriority
  }

  function Serve(m: Snap, service: Service, a: Artefact, now: int, scans: Option<int>): (Snap, seq<Item>) {
    var status := if service.counted then scans else None;
    var priority := CalculatePriority(m, service, status, now);
    if !service.applies(a) || priority == NoPriority then (m, [])
    else
      var noted := if status.Some? then Count(status.value) else NoStatus;
      (Note(m, State(now, noted, Some(service.name))), [Item(a, service.name, priority)])
  }

  function ServeAll(services: seq<Service>, m: Snap, a: Artefact, now: int, scans: Option<int>): (Snap, seq<Item>) {
    if services == [] then (m, [])
    else
      var n := |services| - 1;
      var before := ServeAll(services[..n], m, a, now, scans);
      var last := Serve(before.0, services[n], a, now, scans);
      (last.0, before.1 + last.1)
  }

  function Activated(m: Option<Snap>, now: int): Snap {
    if m.None? then map[None := State(now, Active, None)]
    else if IsActive(m.value) then m.value
    else Note(m.value, State(now, Active, None))
  }

  /** What a run finds of an artefact: whether it is referenced, and its number of scans if that is known. */
  datatype Visit = Visit(now: int, seen: bool, scans: Option<int>)

  function Unseen(cfg: Config, a: Artefact, m: Snap, now: int): (Option<Snap>, seq<Item>) {
    var deactivates := IsActive(m);
    var left := if deactivates then Note(m, State(now, Inactive, None)) else m;
    if None !in left then (Some(m), [])
    else if now - left[None].timestamp >= cfg.grace then (None, [])
    else (Some(left), if deactivates && Replicates(cfg) then [Item(a, ISSUE_REPLICATOR, High)] else [])
  }

  /** The effect of a run on the snapshot of one artefact, and the backlog items it emits for it. */
  function Step(cfg: Config, a: Artefact, m: Option<Snap>, v: Visit): (Option<Snap>, seq<Item>) {
    if v.seen then
      var served := ServeAll(cfg.services, Activated(m, v.now), a, v.now, v.scans);
      (Some(served.0), served.1)
    else if m.None? then (None, [])
    else Unseen(cfg, a, m.value, v.now)
  }

  // ---------------------------------------------------------------- a whole run

  function ItemsOf(items: seq<Item>, a: Artefact): seq<Item> {
    if items == [] then []
    else
      var n := |items| - 1;
      ItemsOf(items[..n], a) + if items[n].artefact == a then [items[n]] else []
  }

  lemma {:induction false} ItemsOfConcat(xs: seq<Item>, ys: seq<Item>, a: Artefact)
    ensures ItemsOf(xs + ys, a) == ItemsOf(xs, a) + ItemsOf(ys, a)
  {
    if ys == [] {
      assert xs + ys == xs;
    } else {
      var n := |ys| - 1;
      ItemsOfConcat(xs, ys[..n], a);
      assert (xs + ys)[..|xs| + n] == xs + ys[..n];
    }
  }

  ghost predicate AllOf(items: seq<Item>, a: Artefact) {
    forall i :: 0 <= i < |items| ==> items[i].artefact == a
  }

  lemma {:induction false} OwnItems(items: seq<Item>, a: Artefact, b: Artefact)
    requires AllOf(items, a)
    ensures ItemsOf(items, b) == if a == b then items else []
  {
    if items != [] {
      OwnItems(items[..|items| - 1], a, b);
    }
  }

  lemma {:induction false} ServeAllIsOwn(services: seq<Service>, m: Snap, a: Artefact, now: int, scans: Option<int>)
    ensures AllOf(ServeAll(services, m, a, now, scans).1, a)
  {
    if services != [] {
      var n := |services| - 1;
      ServeAllIsOwn(services[..n], m, a, now, scans);
      var before := ServeAll(services[..n], m, a, now, scans);
    }
  }

  lemma ServeNext(services: seq<Service>, i: nat, m: Snap, a: Artefact, now: int, scans: Option<int>)
    requires i < |services|
    ensures
      var before := ServeAll(services[..i], m, a, now, scans);
      var last := Serve(before.0, services[i], a, now, scans);
      var all := ServeAll(services[..i + 1], m, a, now, scans);
      all.0 == last.0 && all.1 == before.1 + last.1
  {
    assert services[..i + 1][..i] == services[..i];
  }

  method ServeServices(services: seq<Service>, m: Snap, a: Artefact, now: int, scans: Option<int>)
    returns (after: Snap, items: seq<Item>)
    ensures
      var served := ServeAll(services, m, a, now, scans);
      after == served.0 && items == served.1
  {
    after, items := m, [];
    for i := 0 to |services|
      invariant after == ServeAll(services[..i], m, a, now, scans).0
      invariant items == ServeAll(services[..i], m, a, now, scans).1
    {
      ServeNext(services, i, m, a, now, scans);
      var service := services[i];
      if service.applies(a) {
        var status := if service.counted then scans else None;
        var priority := CalculatePriority(after, service, status, now);
        if priority != NoPriority {
          after := Note(after, State(now, if status.Some? then Count(status.value) else NoStatus, Some(service.name)));
          items := items + [Item(a, service.name, priority)];
        }
      }
    }
    assert services[..|services|] == services;
  }

  lemma ItemsOfAppends(items: seq<Item>, own: seq<Item>, a: Artefact, b: Artefact)
    requires AllOf(own, a)
    ensures ItemsOf(items + own, b) == ItemsOf(items, b) + if a == b then own else []
  {
    ItemsOfConcat(items, own, b);
    OwnItems(own, a, b);
  }

  /** What the first loop leaves behind for an artefact. */
  ghost predicate SeenAt(cfg: Config, before: map<Artefact, Snap>, now: int, scans: map<Artefact, int>,
                         visited: seq<Artefact>, updates: map<Artefact, Snap>, items: seq<Item>, a: Artefact) {
    if a in visited then
      a in updates &&
      var step := Step(cfg, a, Get(before, a), Visit(now, true, Get(scans, a)));
      Some(updates[a]) == step.0 && ItemsOf(items, a) == step.1
    else a !in updates && ItemsOf(items, a) == []
  }

  method ProcessSeen(cfg: Config, before: map<Artefact, Snap>, artefacts: seq<Artefact>, now: int,
                     scans: map<Artefact, int>) returns (updates: map<Artefact, Snap>, items: seq<Item>)
    requires Distinct(artefacts)
    ensures forall a :: SeenAt(cfg, before, now, scans, artefacts, updates, items, a)
  {
    updates, items := map[], [];
    for i := 0 to |artefacts|
      invariant forall a :: SeenAt(cfg, before, now, scans, artefacts[..i], updates, items, a)
    {
      var a := artefacts[i];
      var m := if a in before then Some(before[a]) else None;
      var after, own := ServeServices(cfg.services, Activated(m, now), a, now, Get(scans, a));
      ServeAllIsOwn(cfg.services, Activated(m, now), a, now, Get(scans, a));
      assert a !in artefacts[..i];
      assert SeenAt(cfg, before, now, scans, artefacts[..i], updates, items, a);
      ghost var visited, updates', items' := artefacts[..i + 1], updates, items;
      assert visited == artefacts[..i] + [a];
      updates := updates[a := after];
      items := items + own;
      forall b
        ensures SeenAt(cfg, before, now, scans, visited, updates, items, b)
      {
        assert SeenAt(cfg, before, now, scans, artefacts[..i], updates', items', b);
        ItemsOfAppends(items', own, a, b);
      }
    }
    assert artefacts[..|artefacts|] == artefacts;
  }

  /** What the second loop does to an artefact. */
  ghost predicate UnseenAt(cfg: Config, before: map<Artefact, Snap>, now: int, visited: seq<Artefact>,
                           deletable: set<Artefact>, updates: map<Artefact, Snap>, items: seq<Item>, a: Artefact) {
    if a in visited && a in before then
      var step := Unseen(cfg, a, before[a], now);
      && step.0 == (if a in deletable then None else if a in updates then Some(updates[a]) else Some(before[a]))
      && step.1 == ItemsOf(items, a)
      && (a in deletable ==> a !in updates)
    else a !in deletable && a !in updates && ItemsOf(items, a) == []
  }

  lemma UnseenNext(cfg: Config, before: map<Artefact, Snap>, now: int, visited: seq<Artefact>, a: Artefact,
                   deletable: set<Artefact>, updates: map<Artefact, Snap>, items: seq<Item>,
                   deletable': set<Artefact>, updates': map<Artefact, Snap>, items': seq<Item>)
    requires a !in visited && a in before && None in before[a]
    requires forall b :: UnseenAt(cfg, before, now, visited, deletable, updates, items, b)
    requires
      var step := Unseen(cfg, a, before[a], now);
      && deletable' == (if step.0.None? then deletable + {a} else deletable)
      && updates' == (if step.0.Some? && IsActive(before[a]) then updates[a := step.0.value] else updates)
      && items' == items + step.1
    ensures forall b :: UnseenAt(cfg, before, now, visited + [a], deletable', updates', items', b)
  {
    forall b
      ensures UnseenAt(cfg, before, now, visited + [a], deletable', updates', items', b)
    {
      assert UnseenAt(cfg, before, now, visited, deletable, updates, items, b);
      ItemsOfAppends(items, Unseen(cfg, a, before[a], now).1, a, b);
    }
  }

  /** Snapshots of artefacts no longer referenced are deactivated, and deleted once their grace period is over. */
  method ProcessInactive(cfg: Config, before: map<Artefact, Snap>, inactive: seq<Artefact>, now: int)
    returns (deletable: set<Artefact>, updates: map<Artefact, Snap>, items: seq<Item>)
    requires Distinct(inactive) && forall a :: a in inactive ==> a in before && None in before[a]
    ensures forall a :: UnseenAt(cfg, before, now, inactive, deletable, updates, items, a)
  {
    deletable, updates, items := {}, map[], [];
    for i := 0 to |inactive|
      invariant forall a :: UnseenAt(cfg, before, now, inactive[..i], deletable, updates, items, a)
    {
      var a := inactive[i];
      ghost var visited, deletable', updates', items' := inactive[..i + 1], deletable, updates, items;
      assert visited == inactive[..i] + [a] && a !in inactive[..i];
      var m := before[a];
      var updated := false;
      var own: seq<Item> := [];
      if IsActive(m) {
        m := Note(m, State(now, Inactive, None));
        updated := true;
        if Replicates(cfg) {
          own := [Item(a, ISSUE_REPLICATOR, High)];
        }
      }
      if now - m[None].timestamp >= cfg.grace {
        deletable := deletable + {a};
        own := [];
      } else if updated {
        updates := updates[a := m];
        items := items + own;
      }
      assert items == items' + own;
      UnseenNext(cfg, before, now, inactive[..i], a, deletable', updates', items', deletable, updates, items);
    }
    assert inactive[..|inactive|] == inactive;
  }

  class SnapshotStore {
    var snapshots: map<Artefact, Snap>

    /** One run over the artefacts found: for every artefact it does what `Step` says, and nothing else. */
    method Enumerate(cfg: Config, artefacts: seq<Artefact>, inactive: seq<Artefact>, now: int, scans: map<Artefact,
                     int>)
      returns (items: seq<Item>)
      requires Distinct(artefacts) && Distinct(inactive)
      requires forall a :: a in inactive <==> a in snapshots && a !in artefacts
      requires forall a :: a in snapshots ==> None in snapshots[a]
      modifies this
      ensures
        forall a ::
          var step := Step(cfg, a, Get(old(snapshots), a), Visit(now, a in artefacts, Get(scans, a)));
          Get(snapshots, a) == step.0 && ItemsOf(items, a) == step.1
    {
      ghost var before := snapshots;
      var seen, seenItems := ProcessSeen(cfg, snapshots, artefacts, now, scans);
      var deletable, unseen, unseenItems := ProcessInactive(cfg, snapshots, inactive, now);
      snapshots := (snapshots - deletable) + seen + unseen;
      items := seenItems + unseenItems;
      forall a
        ensures
          var step := Step(cfg, a, Get(before, a), Visit(now, a in artefacts, Get(scans, a)));
          Get(snapshots, a) == step.0 && ItemsOf(items, a) == step.1
      {
        ItemsOfConcat(seenItems, unseenItems, a);
        assert SeenAt(cfg, before, now, scans, artefacts, seen, seenItems, a);
        assert UnseenAt(cfg, before, now, inactive, deletable, unseen, unseenItems, a);
        var step := Step(cfg, a, Get(before, a), Visit(now, a in artefacts, Get(scans, a)));
        if a in artefacts {
          assert a !in unseen && Get(snapshots, a) == Some(seen[a]);
          assert ItemsOf(items, a) == step.1;
        } else if a in before {
          assert a !in seen;
          assert Get(snapshots, a) == step.0;
          assert ItemsOf(items, a) == step.1;
        } else {
          assert Get(snapshots, a) == None;
        }
      }
    }
  }

  // ---------------------------------------------------------------- sequences of runs

  /** The snapshot after the runs; there is none at first. */
  function After(cfg: Config, a: Artefact, visits: seq<Visit>): Option<Snap> {
    if visits == [] then None
    else Step(cfg, a, After(cfg, a, visits[..|visits| - 1]), visits[|visits| - 1]).0
  }

  function EmittedAt(cfg: Config, a: Artefact, visits: seq<Visit>, k: nat): seq<Item>
    requires k < |visits|
  {
    Step(cfg, a, After(cfg, a, visits[..k]), visits[k]).1
  }

  ghost predicate Clock(visits: seq<Visit>) {
    forall i, j :: 0 <= i < j < |visits| ==> visits[i].now < visits[j].now
  }

  /** Runs may share an instant. */
  ghost predicate NeverBack(visits: seq<Visit>) {
    forall i, j :: 0 <= i < j < |visits| ==> visits[i].now <= visits[j].now
  }

  lemma AfterNext(cfg: Config, a: Artefact, visits: seq<Visit>, k: nat)
    requires k < |visits|
    ensures After(cfg, a, visits[..k + 1]) == Step(cfg, a, After(cfg, a, visits[..k]), visits[k]).0
  {
    assert visits[..k + 1][..k] == visits[..k];
  }

  /** The run finds the artefact gone whose snapshot is active. */
  predicate Deactivates(cfg: Config, a: Artefact, visits: seq<Visit>, k: nat)
    requires k < |visits|
  {
    var m := After(cfg, a, visits[..k]);
    !visits[k].seen && m.Some? && IsActive(m.value)
  }

  ghost predicate NotSeen(visits: seq<Visit>, i: nat, k: nat)
    requires k <= |visits|
  {
    forall n :: i <= n < k ==> !visits[n].seen
  }

  /** Every snapshot has a status of its own, noted no later than the last run. */
  ghost predicate Sound(m: Option<Snap>, now: int) {
    m.Some? ==>
      && None in m.value && (m.value[None].status == Active || m.value[None].status == Inactive)
      && forall s :: s in m.value ==> m.value[s].timestamp <= now
  }

  lemma {:induction false} ServeAllIsSound(services: seq<Service>, m: Snap, a: Artefact, now: int, scans: Option<int>)
    requires Sound(Some(m), now)
    ensures Sound(Some(ServeAll(services, m, a, now, scans).0), now)
    ensures ServeAll(services, m, a, now, scans).0[None] == m[None]
  {
    if services != [] {
      ServeAllIsSound(services[..|services| - 1], m, a, now, scans);
    }
  }

  lemma StepIsSound(cfg: Config, a: Artefact, m: Option<Snap>, v: Visit, last: int)
    requires Sound(m, last) && last <= v.now
    ensures Sound(Step(cfg, a, m, v).0, v.now)
    ensures v.seen && last < v.now ==> Step(cfg, a, m, v).0.Some? && IsActive(Step(cfg, a, m, v).0.value)
  {
    if v.seen {
      ServeAllIsSound(cfg.services, Activated(m, v.now), a, v.now, v.scans);
    }
  }

  lemma {:induction false} AfterIsSound(cfg: Config, a: Artefact, visits: seq<Visit>)
    requires NeverBack(visits)
    ensures visits == [] ==> After(cfg, a, visits).None?
    ensures visits != [] ==> Sound(After(cfg, a, visits), visits[|visits| - 1].now)
  {
    if visits != [] {
      var n := |visits| - 1;
      AfterIsSound(cfg, a, visits[..n]);
      var last := if n > 0 then visits[n - 1].now else visits[n].now - 1;
      StepIsSound(cfg, a, After(cfg, a, visits[..n]), visits[n], last);
    }
  }

  /** An inactive snapshot was deactivated at the time noted, and its artefact has not been seen since. */
  lemma {:induction false} InactiveSince(cfg: Config, a: Artefact, visits: seq<Visit>) returns (j: nat)
    requires Clock(visits) && After(cfg, a, visits).Some? && !IsActive(After(cfg, a, visits).value)
    ensures j < |visits| && Deactivates(cfg, a, visits, j) && NotSeen(visits, j, |visits|)
    ensures None in After(cfg, a, visits).value && After(cfg, a, visits).value[None].timestamp == visits[j].now
  {
    var n := |visits| - 1;
    var before := visits[..n];
    AfterIsSound(cfg, a, before);
    StepIsSound(cfg, a, After(cfg, a, before), visits[n], if n > 0 then visits[n - 1].now else visits[n].now - 1);
    if IsActive(After(cfg, a, before).value) {
      j := n;
    } else {
      j := InactiveSince(cfg, a, before);
      assert before[..j] == visits[..j];
    }
  }

  /** A snapshot is deleted only by a run at least the grace period after the one that deactivated it, and no run
      in between has seen its artefact. */
  lemma DeletedOnlyAfterGrace(cfg: Config, a: Artefact, visits: seq<Visit>, k: nat) returns (j: nat)
    requires Clock(visits) && cfg.grace > 0 && k < |visits|
    requires After(cfg, a, visits[..k]).Some? && After(cfg, a, visits[..k + 1]).None?
    ensures j < k && Deactivates(cfg, a, visits, j) && NotSeen(visits, j, k + 1)
    ensures visits[k].now - visits[j].now >= cfg.grace
  {
    AfterNext(cfg, a, visits, k);
    AfterIsSound(cfg, a, visits[..k]);
    j := InactiveSince(cfg, a, visits[..k]);
    assert visits[..k][..j] == visits[..j];
  }

  lemma {:induction false} StaysInactive(cfg: Config, a: Artefact, visits: seq<Visit>, i: nat, k: nat)
    requires Clock(visits) && i < k <= |visits| && Deactivates(cfg, a, visits, i) && NotSeen(visits, i, k)
    ensures
      var m := After(cfg, a, visits[..k]);
      m.Some? ==> !IsActive(m.value) && None in m.value && m.value[None].timestamp == visits[i].now
    decreases k
  {
    AfterNext(cfg, a, visits, k - 1);
    AfterIsSound(cfg, a, visits[..k - 1]);
    if i < k - 1 {
      StaysInactive(cfg, a, visits, i, k - 1);
    }
  }

  /** Conversely, the first run that late finds no way around the deletion. */
  lemma OverdueIsDeleted(cfg: Config, a: Artefact, visits: seq<Visit>, i: nat, k: nat)
    requires Clock(visits) && i < k < |visits| && Deactivates(cfg, a, visits, i) && NotSeen(visits, i, k + 1)
    requires visits[k].now - visits[i].now >= cfg.grace
    ensures After(cfg, a, visits[..k + 1]).None?
  {
    AfterNext(cfg, a, visits, k);
    AfterIsSound(cfg, a, visits[..k]);
    StaysInactive(cfg, a, visits, i, k);
  }

  /** Between two deactivations some run has seen the artefact. */
  lemma DeactivationsAreSeparated(cfg: Config, a: Artefact, visits: seq<Visit>, i: nat, k: nat)
    requires Clock(visits) && i < k < |visits| && Deactivates(cfg, a, visits, i) && Deactivates(cfg, a, visits, k)
    ensures exists n :: i < n < k && visits[n].seen
  {
    if forall n :: i < n < k ==> !visits[n].seen {
      StaysInactive(cfg, a, visits, i, k);
    }
  }

  /** For an artefact it does not see, a run emits one item of high priority for the issue replicator, if that is
      enabled, exactly when it deactivates the snapshot and the grace period is positive. */
  lemma DeactivationNotifies(cfg: Config, a: Artefact, visits: seq<Visit>, k: nat)
    requires Clock(visits) && k < |visits| && !visits[k].seen
    ensures
      EmittedAt(cfg, a, visits, k) ==
      if Deactivates(cfg, a, visits, k) && Replicates(cfg) && cfg.grace > 0
      then [Item(a, ISSUE_REPLICATOR, High)] else []
    ensures Deactivates(cfg, a, visits, k) && cfg.grace <= 0 ==> After(cfg, a, visits[..k + 1]).None?
  {
    AfterNext(cfg, a, visits, k);
    AfterIsSound(cfg, a, visits[..k]);
  }

  /** The notification depends on whether the issue replicator is among the services. */
  lemma ReplicatesIfEnabled(cfg: Config)
    requires ValidConfig(cfg)
    ensures Replicates(cfg) <==> exists i :: 0 <= i < |cfg.services| && cfg.services[i].name == "issueReplicator"
  {
  }

  /** The state of an active snapshot says since when: since the run that has seen its artefact first, or first again
      after a deactivation. */
  lemma {:induction false} ActiveSince(cfg: Config, a: Artefact, visits: seq<Visit>) returns (j: nat)
    requires Clock(visits) && After(cfg, a, visits).Some? && IsActive(After(cfg, a, visits).value)
    ensures j < |visits| && visits[j].seen && After(cfg, a, visits).value[None].timestamp == visits[j].now
    ensures var before := After(cfg, a, visits[..j]); before.None? || !IsActive(before.value)
    ensures forall n :: j < n <= |visits| ==>
      After(cfg, a, visits[..n]).Some? && IsActive(After(cfg, a, visits[..n]).value)
  {
    var n := |visits| - 1;
    var before := visits[..n];
    assert visits[..|visits|] == visits;
    AfterIsSound(cfg, a, before);
    if visits[n].seen {
      ServeAllIsSound(cfg.services, Activated(After(cfg, a, before), visits[n].now), a, visits[n].now, visits[n].scans);
    }
    if After(cfg, a, before).Some? && IsActive(After(cfg, a, before).value) {
      j := ActiveSince(cfg, a, before);
      assert forall m :: 0 <= m <= n ==> before[..m] == visits[..m];
    } else {
      j := n;
    }
  }

  /** If runs may share an instant, a run deactivates or reactivates a snapshot exactly if it comes later than the state
      it finds. */
  lemma TakesEffectIfLater(cfg: Config, a: Artefact, visits: seq<Visit>, k: nat)
    requires NeverBack(visits) && cfg.grace > 0 && k < |visits| && After(cfg, a, visits[..k]).Some?
    ensures
      var m, m' := After(cfg, a, visits[..k]).value, After(cfg, a, visits[..k + 1]);
      && None in m
      && (Deactivates(cfg, a, visits, k) ==>
            m'.Some? && (!IsActive(m'.value) <==> visits[k].now > m[None].timestamp))
      && (visits[k].seen && !IsActive(m) ==>
            m'.Some? && (IsActive(m'.value) <==> visits[k].now > m[None].timestamp))
  {
    AfterNext(cfg, a, visits, k);
    AfterIsSound(cfg, a, visits[..k]);
    var m := After(cfg, a, visits[..k]).value;
    assert k > 0 ==> visits[..k][k - 1] == visits[k - 1];
    if visits[k].seen {
      ServeAllIsSound(cfg.services, Activated(Some(m), visits[k].now), a, visits[k].now, visits[k].scans);
    }
  }

  /** Two runs at one instant: the first does not get to deactivate the snapshot, and both notify. */
  lemma TiedRunsNotifyTwice(cfg: Config, a: Artefact, t: int, scans: Option<int>)
    requires cfg.grace > 0 && Replicates(cfg)
    ensures
      var visits := [Visit(t, true, scans), Visit(t, false, None), Visit(t + 1, false, None)];
      && EmittedAt(cfg, a, visits, 1) == [Item(a, ISSUE_REPLICATOR, High)]
      && EmittedAt(cfg, a, visits, 2) == [Item(a, ISSUE_REPLICATOR, High)]
  {
    var visits := [Visit(t, true, scans), Visit(t, false, None), Visit(t + 1, false, None)];
    AfterNext(cfg, a, visits, 0);
    ServeAllIsSound(cfg.services, Activated(None, t), a, t, scans);
    AfterNext(cfg, a, visits, 1);
    assert visits[..0] == [];
  }

  // ---------------------------------------------------------------- spacing of items

  predicate EmitsFor(items: seq<Item>, name: string) {
    exists i :: 0 <= i < |items| && items[i].service == name
  }

  predicate Due(m: Snap, service: Service, a: Artefact, now: int, scans: Option<int>) {
    service.applies(a) && CalculatePriority(m, service, if service.counted then scans else None, now) != NoPriority
  }

  lemma EmitsForConcat(xs: seq<Item>, ys: seq<Item>, name: string)
    ensures EmitsFor(xs + ys, name) <==> EmitsFor(xs, name) || EmitsFor(ys, name)
  {
    if EmitsFor(xs, name) {
      var i :| 0 <= i < |xs| && xs[i].service == name;
      assert (xs + ys)[i].service == name;
    }
    if EmitsFor(ys, name) {
      var i :| 0 <= i < |ys| && ys[i].service == name;
      assert (xs + ys)[|xs| + i].service == name;
    }
  }

  lemma {:induction false} OtherServicesKeep(services: seq<Service>, m: Snap, a: Artefact, now: int, scans: Option<int>,
                                             name: string)
    requires forall i :: 0 <= i < |services| ==> services[i].name != name
    ensures
      var served := ServeAll(services, m, a, now, scans);
      Get(served.0, Some(name)) == Get(m, Some(name)) && !EmitsFor(served.1, name)
  {
    if services != [] {
      var n := |services| - 1;
      OtherServicesKeep(services[..n], m, a, now, scans, name);
      var before := ServeAll(services[..n], m, a, now, scans);
      EmitsForConcat(before.1, Serve(before.0, services[n], a, now, scans).1, name);
    }
  }

  /** A service is served as if it were the only one. */
  lemma {:induction false} ServedAlone(services: seq<Service>, m: Snap, a: Artefact, now: int, scans: Option<int>,
                                       s: nat)
    requires s < |services|
    requires forall i, j :: 0 <= i < j < |services| ==> services[i].name != services[j].name
    ensures
      var served := ServeAll(services, m, a, now, scans);
      var name := Some(services[s].name);
      && (EmitsFor(served.1, services[s].name) <==> Due(m, services[s], a, now, scans))
      && Get(served.0, name) == Get(Serve(m, services[s], a, now, scans).0, name)
  {
    var n, name := |services| - 1, services[s].name;
    var before := ServeAll(services[..n], m, a, now, scans);
    var own := Serve(before.0, services[n], a, now, scans);
    EmitsForConcat(before.1, own.1, name);
    if s == n {
      OtherServicesKeep(services[..n], m, a, now, scans, name);
      ServeDependsOnOwnState(before.0, m, services[n], a, now, scans);
    } else {
      ServedAlone(services[..n], m, a, now, scans, s);
    }
  }

  lemma ServeDependsOnOwnState(m: Snap, m': Snap, service: Service, a: Artefact, now: int, scans: Option<int>)
    requires Get(m, Some(service.name)) == Get(m', Some(service.name))
    ensures Serve(m, service, a, now, scans).1 == Serve(m', service, a, now, scans).1
    ensures EmitsFor(Serve(m, service, a, now, scans).1, service.name) <==> Due(m', service, a, now, scans)
    ensures
      Get(Serve(m, service, a, now, scans).0, Some(service.name)) ==
      Get(Serve(m', service, a, now, scans).0, Some(service.name))
  {
    var items := Serve(m, service, a, now, scans).1;
    assert Due(m', service, a, now, scans) ==> items[0].service == service.name;
  }

  ghost predicate NotedSince(m: Option<Snap>, name: string, t: int) {
    m.Some? ==> Some(name) in m.value && m.value[Some(name)].timestamp >= t
  }

  lemma StepKeepsNoted(cfg: Config, a: Artefact, m: Option<Snap>, v: Visit, s: nat, t: int)
    requires ValidConfig(cfg) && s < |cfg.services| && !cfg.services[s].counted && t <= v.now && m.Some?
    requires NotedSince(m, cfg.services[s].name, t)
    ensures NotedSince(Step(cfg, a, m, v).0, cfg.services[s].name, t)
  {
    if v.seen {
      ServedAlone(cfg.services, Activated(m, v.now), a, v.now, v.scans, s);
    }
  }

  lemma {:induction false} StaysNoted(cfg: Config, a: Artefact, visits: seq<Visit>, i: nat, k: nat, s: nat)
    requires Clock(visits) && ValidConfig(cfg) && s < |cfg.services| && !cfg.services[s].counted
    requires i < k <= |visits| && EmitsFor(EmittedAt(cfg, a, visits, i), cfg.services[s].name)
    requires forall n :: i < n <= k ==> After(cfg, a, visits[..n]).Some?
    ensures NotedSince(After(cfg, a, visits[..k]), cfg.services[s].name, visits[i].now)
    decreases k
  {
    AfterNext(cfg, a, visits, k - 1);
    if i < k - 1 {
      StaysNoted(cfg, a, visits, i, k - 1, s);
      StepKeepsNoted(cfg, a, After(cfg, a, visits[..k - 1]), visits[k - 1], s, visits[i].now);
    } else {
      AfterIsSound(cfg, a, visits[..i]);
      EmittedWhenSeen(cfg, a, visits, i, s);
      var before := After(cfg, a, visits[..i]);
      ServedAlone(cfg.services, Activated(before, visits[i].now), a, visits[i].now, visits[i].scans, s);
    }
  }

  lemma EmittedWhenSeen(cfg: Config, a: Artefact, visits: seq<Visit>, i: nat, s: nat)
    requires ValidConfig(cfg) && s < |cfg.services| && !cfg.services[s].counted && i < |visits|
    requires EmitsFor(EmittedAt(cfg, a, visits, i), cfg.services[s].name)
    ensures visits[i].seen
  {
  }

  /** Two items for a service that records no status are at least its interval apart while the snapshot lives. */
  lemma ItemsAreSpaced(cfg: Config, a: Artefact, visits: seq<Visit>, i: nat, k: nat, s: nat)
    requires Clock(visits) && ValidConfig(cfg) && s < |cfg.services| && !cfg.services[s].counted
    requires i < k < |visits| && forall n :: i < n <= k ==> After(cfg, a, visits[..n]).Some?
    requires EmitsFor(EmittedAt(cfg, a, visits, i), cfg.services[s].name)
    requires EmitsFor(EmittedAt(cfg, a, visits, k), cfg.services[s].name)
    ensures visits[k].now - visits[i].now >= cfg.services[s].interval
  {
    StaysNoted(cfg, a, visits, i, k, s);
    EmittedWhenSeen(cfg, a, visits, k, s);
    var before := After(cfg, a, visits[..k]);
    ServedAlone(cfg.services, Activated(before, visits[k].now), a, visits[k].now, visits[k].scans, s);
  }

  // ---------------------------------------------------------------- exactly when items are emitted

  /** The items for one service. */
  function ItemsFor(items: seq<Item>, name: string): seq<Item> {
    if items == [] then []
    else (if items[0].service == name then [items[0]] else []) + ItemsFor(items[1..], name)
  }

  lemma {:induction false} ItemsForConcat(xs: seq<Item>, ys: seq<Item>, name: string)
    ensures ItemsFor(xs + ys, name) == ItemsFor(xs, name) + ItemsFor(ys, name)
  {
    if xs == [] {
      assert xs + ys == ys;
    } else {
      ItemsForConcat(xs[1..], ys, name);
      assert (xs + ys)[1..] == xs[1..] + ys;
    }
  }

  lemma ItemsForServe(m: Snap, service: Service, a: Artefact, now: int, scans: Option<int>, name: string)
    ensures
      var items := Serve(m, service, a, now, scans).1;
      ItemsFor(items, name) == if service.name == name then items else []
  {
    var items := Serve(m, service, a, now, scans).1;
    if items != [] {
      assert items[1..] == [] && items == [items[0]];
    }
  }

  lemma {:induction false} NoItemsForOthers(services: seq<Service>, m: Snap, a: Artefact, now: int, scans: Option<int>,
                                            name: string)
    requires forall i :: 0 <= i < |services| ==> services[i].name != name
    ensures
      var served := ServeAll(services, m, a, now, scans);
      Get(served.0, Some(name)) == Get(m, Some(name)) && ItemsFor(served.1, name) == []
  {
    if services != [] {
      var n := |services| - 1;
      NoItemsForOthers(services[..n], m, a, now, scans, name);
      var before := ServeAll(services[..n], m, a, now, scans);
      ItemsForServe(before.0, services[n], a, now, scans, name);
      ItemsForConcat(before.1, Serve(before.0, services[n], a, now, scans).1, name);
    }
  }

  lemma {:induction false} ItemsServedAlone(services: seq<Service>, m: Snap, a: Artefact, now: int, scans: Option<int>,
                                            s: nat)
    requires s < |services|
    requires forall i, j :: 0 <= i < j < |services| ==> services[i].name != services[j].name
    ensures
      ItemsFor(ServeAll(services, m, a, now, scans).1, services[s].name) == Serve(m, services[s], a, now, scans).1
  {
    var n, name := |services| - 1, services[s].name;
    var before := ServeAll(services[..n], m, a, now, scans);
    var own := Serve(before.0, services[n], a, now, scans);
    ItemsForConcat(before.1, own.1, name);
    ItemsForServe(before.0, services[n], a, now, scans, name);
    if s == n {
      NoItemsForOthers(services[..n], m, a, now, scans, name);
      ServeDependsOnOwnState(before.0, m, services[n], a, now, scans);
    } else {
      ItemsServedAlone(services[..n], m, a, now, scans, s);
    }
  }

  /** The run sees the artefact and emits an item for the service. */
  predicate Serves(cfg: Config, a: Artefact, visits: seq<Visit>, k: nat, s: nat)
    requires k < |visits| && s < |cfg.services|
  {
    visits[k].seen && ItemsFor(EmittedAt(cfg, a, visits, k), cfg.services[s].name) != []
  }

  /** The snapshot found before run `k` was created by run `since` and has lived on. */
  ghost predicate LivesSince(cfg: Config, a: Artefact, visits: seq<Visit>, since: nat, k: nat)
    requires k <= |visits|
  {
    && since <= k && After(cfg, a, visits[..since]).None?
    && forall n :: since < n <= k ==> After(cfg, a, visits[..n]).Some?
  }

  /** The last run before `k` in which the snapshot's artefact was served, if any. */
  ghost predicate LastServed(cfg: Config, a: Artefact, visits: seq<Visit>, since: nat, k: nat, s: nat,
                             last: Option<nat>)
    requires since <= k <= |visits| && s < |cfg.services|
  {
    && (last.Some? ==> since <= last.value < k && Serves(cfg, a, visits, last.value, s))
    && (forall n :: (if last.Some? then last.value < n else since <= n) && n < k ==> !Serves(cfg, a, visits, n, s))
  }

  /** What the run that served the artefact last has noted for the service. */
  function NotedBy(cfg: Config, visits: seq<Visit>, s: nat, last: Option<nat>): Option<State>
    requires s < |cfg.services| && (last.Some? ==> last.value < |visits|)
  {
    if last.None? then None
    else
      var Visit(now, _, scans) := visits[last.value];
      Some(State(now, if cfg.services[s].counted && scans.Some? then Count(scans.value) else NoStatus,
                 Some(cfg.services[s].name)))
  }

  lemma ServeNotes(m: Snap, service: Service, a: Artefact, now: int, scans: Option<int>)
    requires Some(service.name) in m ==> m[Some(service.name)].timestamp < now
    ensures
      var served := Serve(m, service, a, now, scans);
      Get(served.0, Some(service.name)) ==
      if served.1 == [] then Get(m, Some(service.name))
      else Some(State(now, if service.counted && scans.Some? then Count(scans.value) else NoStatus, Some(service.name)))
  {
  }

  lemma StepNotes(cfg: Config, a: Artefact, m: Option<Snap>, v: Visit, s: nat)
    requires ValidConfig(cfg) && s < |cfg.services| && Step(cfg, a, m, v).0.Some?
    requires m.Some? && Some(cfg.services[s].name) in m.value ==> m.value[Some(cfg.services[s].name)].timestamp < v.now
    ensures
      var service, step := cfg.services[s], Step(cfg, a, m, v);
      var before := if m.Some? then Get(m.value, Some(service.name)) else None;
      && Get(step.0.value, Some(service.name)) ==
         (if v.seen && ItemsFor(step.1, service.name) != []
          then Some(State(v.now, if service.counted && v.scans.Some? then Count(v.scans.value) else NoStatus,
                          Some(service.name)))
          else before)
      && (v.seen ==> ItemsFor(step.1, service.name) == Serve(Activated(m, v.now), service, a, v.now, v.scans).1)
  {
    if v.seen {
      var active := Activated(m, v.now);
      ServedAlone(cfg.services, active, a, v.now, v.scans, s);
      ItemsServedAlone(cfg.services, active, a, v.now, v.scans, s);
      ServeNotes(active, cfg.services[s], a, v.now, v.scans);
    }
  }

  /** Before run `k` the service's state is the one noted by the run `last`. */
  predicate NotedAt(cfg: Config, a: Artefact, visits: seq<Visit>, k: nat, s: nat, last: Option<nat>)
    requires k <= |visits| && s < |cfg.services| && (last.Some? ==> last.value < |visits|)
  {
    var m := After(cfg, a, visits[..k]);
    (if m.Some? then Get(m.value, Some(cfg.services[s].name)) else None) == NotedBy(cfg, visits, s, last)
  }

  lemma NotedNext(cfg: Config, a: Artefact, visits: seq<Visit>, k: nat, s: nat, last: Option<nat>)
    requires Clock(visits) && ValidConfig(cfg) && s < |cfg.services| && k < |visits|
    requires (last.Some? ==> last.value < k) && NotedAt(cfg, a, visits, k, s, last)
    requires After(cfg, a, visits[..k + 1]).Some?
    ensures NotedAt(cfg, a, visits, k + 1, s, if Serves(cfg, a, visits, k, s) then Some(k) else last)
  {
    AfterNext(cfg, a, visits, k);
    assert last.Some? ==> visits[last.value].now < visits[k].now;
    StepNotes(cfg, a, After(cfg, a, visits[..k]), visits[k], s);
  }

  lemma {:induction false} NotedState(cfg: Config, a: Artefact, visits: seq<Visit>, since: nat, k: nat, s: nat,
                                      last: Option<nat>)
    requires Clock(visits) && ValidConfig(cfg) && s < |cfg.services| && k <= |visits|
    requires LivesSince(cfg, a, visits, since, k) && LastServed(cfg, a, visits, since, k, s, last)
    ensures NotedAt(cfg, a, visits, k, s, last)
    decreases k
  {
    if since < k {
      var before := last;
      if last == Some(k - 1) {
        before := LastBefore(cfg, a, visits, since, k - 1, s);
      }
      NotedState(cfg, a, visits, since, k - 1, s, before);
      NotedNext(cfg, a, visits, k - 1, s, before);
    }
  }

  lemma {:induction false} LastBefore(cfg: Config, a: Artefact, visits: seq<Visit>, since: nat, k: nat, s: nat)
    returns (last: Option<nat>)
    requires since <= k <= |visits| && s < |cfg.services|
    ensures LastServed(cfg, a, visits, since, k, s, last)
    decreases k
  {
    if since == k {
      last := None;
    } else if Serves(cfg, a, visits, k - 1, s) {
      last := Some(k - 1);
    } else {
      last := LastBefore(cfg, a, visits, since, k - 1, s);
    }
  }

  /** A run that sees an artefact emits one item for a service that applies, or none: one of high priority if the
      service has not been served since the snapshot was created, or if it counts scans and their number has changed
      since; else one of low priority once its interval has passed. */
  lemma EmittedItemsAre(cfg: Config, a: Artefact, visits: seq<Visit>, since: nat, k: nat, s: nat, last: Option<nat>)
    requires Clock(visits) && ValidConfig(cfg) && s < |cfg.services| && k < |visits| && visits[k].seen
    requires LivesSince(cfg, a, visits, since, k) && LastServed(cfg, a, visits, since, k, s, last)
    ensures
      var service := cfg.services[s];
      ItemsFor(EmittedAt(cfg, a, visits, k), service.name) ==
      if !service.applies(a) then []
      else if last.None? || (service.counted && visits[k].scans.Some? && visits[k].scans != visits[last.value].scans)
      then [Item(a, service.name, High)]
      else if visits[k].now >= visits[last.value].now + service.interval then [Item(a, service.name, Low)]
      else []
  {
    NotedState(cfg, a, visits, since, k, s, last);
    AfterIsSound(cfg, a, visits[..k]);
    StepNotes(cfg, a, After(cfg, a, visits[..k]), visits[k], s);
  }
}
