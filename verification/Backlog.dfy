/** The backlog as a protocol over a versioned store. (src/k8s/backlog.py, src/backlog_controller.py) */
module Backlog {
  import opened Common

  // ---------------------------------------------------------------- objects

  datatype Label = NoLabel | LabelTrue | LabelFalse

  /** A backlog item resource; `uid` identifies it across its versions. */
  datatype Item = Item(name: string, uid: nat, version: nat, service: string, claimed: Label,
                       claimedBy: Option<string>, claimedAt: Option<int>, priority: int, timestamp: int)

  /** `HOSTNAME` of a process that is not a pod. */
  const LOCAL := "local"

  function Claimed(item: Item, pod: string, at: int): Item {
    item.(claimed := LabelTrue, claimedBy := Some(pod), claimedAt := Some(at))
  }

  function Unclaimed(item: Item): Item {
    item.(claimed := LabelFalse, claimedBy := None, claimedAt := None)
  }

  /** Higher priority first, then older timestamp. */
  predicate ComesBefore(a: Item, b: Item) {
    a.priority > b.priority || (a.priority == b.priority && a.timestamp < b.timestamp)
  }

  predicate IsOpen(item: Item, service: string) {
    item.service == service && item.claimed != LabelTrue
  }

  /** The item may be the first of the service's unclaimed items after sorting. */
  ghost predicate IsFirstOpen(store: map<string, Item>, service: string, name: string) {
    && name in store && IsOpen(store[name], service)
    && forall n :: n in store && IsOpen(store[n], service) ==> !ComesBefore(store[n], store[name])
  }

  // ---------------------------------------------------------------- the system

  /** A client between two of its requests. */
  datatype Session =
    | Claiming(read: Item, pod: string, at: int)
    | Colliding(name: string, priority: int)
    | Raising(read: Item, priority: int)
    | Sweeping(service: string, limit: int, at: int, left: seq<Item>, pods: Option<set<string>>)

  /** Effects on claims; `running` are the pods running at that moment. */
  datatype Event =
    | ClaimSet(uid: nat, pod: string, at: int)
    | ClaimRemoved(uid: nat, pod: string, at: int, limit: int, when: int, running: set<string>)

  datatype State = State(store: map<string, Item>, next: nat, now: int, running: map<string, string>,
                         gone: set<string>, sessions: map<nat, Session>, log: seq<Event>)

  datatype Action =
    | Create(client: nat, name: string, service: string, priority: int)
    | Reread(client: nat)
    | RaisePriority(client: nat)
    | PickFirst(client: nat, pod: string, service: string, name: string)
    | ReplaceClaimed(client: nat)
    | ListItems(client: nat, service: string, limit: int, names: seq<string>)
    | ListPods(client: nat)
    | Visit(client: nat)
    | UpdateSpec(name: string, priority: int, timestamp: int)
    | Delete(name: string)
    | StartPod(pod: string, service: string)
    | StopPod(pod: string)
    | Tick(duration: nat)

  function Init(): State {
    State(map[], 0, 0, map[], {}, map[], [])
  }

  function Idle(s: State, client: nat): State {
    s.(sessions := s.sessions - {client})
  }

  /** Writes an object under a fresh resource version. */
  function Write(s: State, item: Item): State {
    s.(store := s.store[item.name := item.(version := s.next)], next := s.next + 1)
  }

  /** The stored object is still the version that was read. */
  predicate Unchanged(s: State, read: Item) {
    read.name in s.store && s.store[read.name].version == read.version
  }

  /** Merge patch with a whole object that was read before: what the body mentions overrides the stored object. */
  function Merged(stored: Item, read: Item, priority: int): Item {
    stored.(claimed := if read.claimed == NoLabel then stored.claimed else read.claimed,
            claimedBy := if read.claimedBy == None then stored.claimedBy else read.claimedBy,
            claimedAt := if read.claimedAt == None then stored.claimedAt else read.claimedAt,
            priority := priority, timestamp := read.timestamp)
  }

  /** The controller removes the claim: its pod is not among the listed ones, or it is old enough. */
  predicate Removable(item: Item, pods: set<string>, at: int, limit: int) {
    || (item.claimedBy.Some? && item.claimedBy.value != "" && item.claimedBy.value !in pods)
    || (item.claimedAt.Some? && at - item.claimedAt.value >= limit)
  }

  /** `remove_claim` on a listed object: a replace of the version listed. A conflict ends the pass, because the
      retry fails on the annotations it has already deleted. */
  function RemoveClaimOf(s: State, client: nat, session: Session, item: Item, rest: Session): State
    requires session.Sweeping?
  {
    if item.claimedBy.None? || item.claimedAt.None? || !Unchanged(s, item) then Idle(s, client)
    else
      var written := Write(s, Unclaimed(item));
      written.(sessions := s.sessions[client := rest],
               log := s.log + [ClaimRemoved(item.uid, item.claimedBy.value, item.claimedAt.value, session.limit, s.now,
                                            s.running.Keys)])
  }

  /** One visit of the controller's loop. An empty pod list is fetched again for the next claimed item. */
  function VisitNext(s: State, client: nat, session: Session): State
    requires session.Sweeping?
  {
    if session.left == [] then Idle(s, client)
    else
      var item := session.left[0];
      var rest := session.(left := session.left[1..]);
      if item.claimed != LabelTrue then s.(sessions := s.sessions[client := rest])
      else if session.pods.None? then s
      else
        var next := if session.pods.value == {} then rest.(pods := None) else rest;
        if Removable(item, session.pods.value, session.at, session.limit)
        then RemoveClaimOf(s, client, session, item, next)
        else s.(sessions := s.sessions[client := next])
  }

  /** One step. An action that is not enabled changes nothing. `patchChecked` says whether the store rejects
      a merge patch whose body carries an outdated resource version. */
  ghost function Step(s: State, a: Action, patchChecked: bool): State {
    match a
    case Create(client, name, service, priority) =>
      if client in s.sessions then s
      else if name in s.store then s.(sessions := s.sessions[client := Colliding(name, priority)])
      else Write(s, Item(name, s.next, s.next, service, NoLabel, None, None, priority, s.now))
    case Reread(client) =>
      if client !in s.sessions || !s.sessions[client].Colliding? then s
      else
        var c := s.sessions[client];
        if c.name in s.store && s.store[c.name].priority < c.priority
        then s.(sessions := s.sessions[client := Raising(s.store[c.name], c.priority)])
        else Idle(s, client)
    case RaisePriority(client) =>
      if client !in s.sessions || !s.sessions[client].Raising? then s
      else
        var r := s.sessions[client];
        if r.read.name !in s.store || (patchChecked && !Unchanged(s, r.read)) then Idle(s, client)
        else Idle(Write(s, Merged(s.store[r.read.name], r.read, r.priority)), client)
    case PickFirst(client, pod, service, name) =>
      if client in s.sessions || !IsFirstOpen(s.store, service, name)
         || !(pod == LOCAL || (pod in s.running && s.running[pod] == service)) then s
      else s.(sessions := s.sessions[client := Claiming(s.store[name], pod, s.now)])
    case ReplaceClaimed(client) =>
      if client !in s.sessions || !s.sessions[client].Claiming? then s
      else
        var c := s.sessions[client];
        if !Unchanged(s, c.read) then Idle(s, client)
        else Idle(Write(s, Claimed(c.read, c.pod, c.at)).(log := s.log + [ClaimSet(c.read.uid, c.pod, c.at)]), client)
    case ListItems(client, service, limit, names) =>
      if client in s.sessions
         || (exists i :: 0 <= i < |names| && !(names[i] in s.store && s.store[names[i]].service == service))
      then s
      else
        var listed := seq(|names|, i requires 0 <= i < |names| && names[i] in s.store => s.store[names[i]]);
        s.(sessions := s.sessions[client := Sweeping(service, limit, s.now, listed, None)])
    case ListPods(client) =>
      if client !in s.sessions || !s.sessions[client].Sweeping? || s.sessions[client].pods.Some? then s
      else
        var c := s.sessions[client];
        s.(sessions := s.sessions[client := c.(pods := Some(set p | p in s.running && s.running[p] == c.service))])
    case Visit(client) =>
      if client !in s.sessions || !s.sessions[client].Sweeping? then s
      else VisitNext(s, client, s.sessions[client])
    case UpdateSpec(name, priority, timestamp) =>
      if name !in s.store then s
      else Write(s, s.store[name].(priority := priority, timestamp := timestamp))
    case Delete(name) => s.(store := s.store - {name})
    case StartPod(pod, service) =>
      if pod == LOCAL || pod in s.running || pod in s.gone then s else s.(running := s.running[pod := service])
    case StopPod(pod) =>
      if pod !in s.running then s else s.(running := s.running - {pod}, gone := s.gone + {pod})
    case Tick(duration) => s.(now := s.now + duration)
  }

  /** The state after a run. */
  ghost function Run(actions: seq<Action>, patchChecked: bool): State {
    if actions == [] then Init()
    else Step(Run(actions[..|actions| - 1], patchChecked), actions[|actions| - 1], patchChecked)
  }

  // ---------------------------------------------------------------- who holds a claim

  /** Claimant and time of the claim on an item, as its history of claims and removals says. */
  function Holder(log: seq<Event>, uid: nat): Option<(string, int)> {
    if log == [] then None
    else
      var e := log[|log| - 1];
      if e.uid != uid then Holder(log[..|log| - 1], uid)
      else if e.ClaimSet? then Some((e.pod, e.at))
      else None
  }

  /** What is said of every event at the moment it happens: claims are set on unclaimed items only; a removal
      hits the claim that is held, whose pod does not run or which is old enough. */
  predicate EventFits(before: seq<Event>, e: Event) {
    match e
    case ClaimSet(uid, _, _) => Holder(before, uid) == None
    case ClaimRemoved(uid, pod, at, limit, when, running) =>
      Holder(before, uid) == Some((pod, at)) && (pod !in running || when - at >= limit)
  }

  ghost predicate LogFits(log: seq<Event>) {
    forall k :: 0 <= k < |log| ==> EventFits(log[..k], log[k])
  }

  // ---------------------------------------------------------------- the invariant

  /** The label and annotations of a claimed item name its holder. */
  predicate ClaimComplete(item: Item) {
    item.claimed == LabelTrue ==> item.claimedBy.Some? && item.claimedAt.Some?
  }

  predicate HeldAsRecorded(item: Item, log: seq<Event>) {
    Holder(log, item.uid) ==
    if item.claimed == LabelTrue && item.claimedBy.Some? && item.claimedAt.Some?
    then Some((item.claimedBy.value, item.claimedAt.value)) else None
  }

  /** Claims are made by pods of the item's service, or locally; a pod that has gone never comes back. */
  predicate ByKnownPod(s: State, item: Item) {
    item.claimed == LabelTrue && item.claimedBy.Some? ==>
      var p := item.claimedBy.value;
      p == LOCAL || p in s.gone || (p in s.running && s.running[p] == item.service)
  }

  predicate PodsConsistent(s: State) {
    && LOCAL !in s.running
    && forall p :: p in s.gone ==> p !in s.running
  }

  /** An object read earlier: if its version is still the stored one, nothing in it has changed. */
  predicate SnapshotFits(s: State, read: Item) {
    && read.version < s.next
    && (Unchanged(s, read) ==> s.store[read.name] == read)
  }

  predicate StoreFits(s: State) {
    && (forall n :: n in s.store ==>
          && s.store[n].name == n && s.store[n].version < s.next && s.store[n].uid < s.next
          && ClaimComplete(s.store[n]) && HeldAsRecorded(s.store[n], s.log) && ByKnownPod(s, s.store[n]))
    && (forall m, n :: m in s.store && n in s.store && m != n ==>
          s.store[m].uid != s.store[n].uid && s.store[m].version != s.store[n].version)
  }

  predicate SweepItemFits(s: State, c: Session, item: Item)
    requires c.Sweeping?
  {
    && SnapshotFits(s, item) && ClaimComplete(item) && ByKnownPod(s, item) && item.service == c.service
    && (c.pods.Some? && item.claimed == LabelTrue && item.claimedBy.Some? && item.claimedBy.value !in c.pods.value ==>
          item.claimedBy.value !in s.running)
  }

  predicate SessionFits(s: State, c: Session) {
    match c
    case Claiming(read, pod, at) =>
      && SnapshotFits(s, read) && read.claimed != LabelTrue
      && (pod == LOCAL || pod in s.gone || (pod in s.running && s.running[pod] == read.service))
    case Colliding(_, _) => true
    case Raising(read, _) => SnapshotFits(s, read)
    case Sweeping(_, _, at, left, _) => at <= s.now && forall i :: 0 <= i < |left| ==> SweepItemFits(s, c, left[i])
  }

  ghost predicate Inv(s: State) {
    && StoreFits(s)
    && PodsConsistent(s)
    && (forall c :: c in s.sessions ==> SessionFits(s, s.sessions[c]))
    && (forall k :: 0 <= k < |s.log| ==> s.log[k].uid < s.next)
    && LogFits(s.log)
  }

  lemma LogFitsAppend(log: seq<Event>, e: Event)
    requires LogFits(log) && EventFits(log, e)
    ensures LogFits(log + [e])
  {
    forall k | 0 <= k < |log + [e]|
      ensures EventFits((log + [e])[..k], (log + [e])[k])
    {
      assert (log + [e])[..k] == log[..k];
      assert log[..|log|] == log;
    }
  }

  lemma {:induction false} NoHolderYet(log: seq<Event>, uid: nat)
    requires forall k :: 0 <= k < |log| ==> log[k].uid != uid
    ensures Holder(log, uid) == None
  {
    if log != [] {
      NoHolderYet(log[..|log| - 1], uid);
    }
  }

  /** Sessions only look at versions, pods and the clock: a write under a fresh version keeps them. */
  lemma WriteKeepsSessions(s: State, item: Item, log': seq<Event>)
    requires Inv(s)
    ensures
      var s' := Write(s, item).(log := log');
      forall c :: c in s'.sessions ==> SessionFits(s', s'.sessions[c])
  {
    var s' := Write(s, item).(log := log');
    forall c | c in s'.sessions
      ensures SessionFits(s', s'.sessions[c])
    {
      assert SessionFits(s, s.sessions[c]);
    }
  }

  /** Writing an item keeps the invariant if its claim is the one its history records. */
  lemma WriteKeepsInv(s: State, item: Item, log': seq<Event>)
    requires Inv(s) && ClaimComplete(item) && HeldAsRecorded(item, log') && ByKnownPod(s, item)
    requires if item.name in s.store then item.uid == s.store[item.name].uid else item.uid == s.next
    requires log' == s.log || (exists e :: log' == s.log + [e] && e.uid == item.uid && EventFits(s.log, e))
    ensures Inv(Write(s, item).(log := log'))
  {
    var s' := Write(s, item).(log := log');
    WriteKeepsSessions(s, item, log');
    if log' != s.log {
      var e :| log' == s.log + [e] && e.uid == item.uid && EventFits(s.log, e);
      LogFitsAppend(s.log, e);
      forall n | n in s.store && n != item.name
        ensures Holder(log', s.store[n].uid) == Holder(s.log, s.store[n].uid)
      {
      }
    }
  }

  lemma SessionSetKeepsInv(s: State, client: nat, c: Session)
    requires Inv(s) && SessionFits(s, c)
    ensures Inv(s.(sessions := s.sessions[client := c]))
  {
    var s' := s.(sessions := s.sessions[client := c]);
    forall d | d in s'.sessions
      ensures SessionFits(s', s'.sessions[d])
    {
      assert SessionFits(s, s'.sessions[d]);
    }
  }

  lemma IdleKeepsInv(s: State, client: nat)
    requires Inv(s)
    ensures Inv(Idle(s, client))
  {
    var s' := Idle(s, client);
    forall d | d in s'.sessions
      ensures SessionFits(s', s'.sessions[d])
    {
      assert SessionFits(s, s.sessions[d]);
    }
  }

  lemma CreateKeepsInv(s: State, client: nat, name: string, service: string, priority: int)
    requires Inv(s)
    ensures Inv(Step(s, Create(client, name, service, priority), true))
  {
    if client in s.sessions {
    } else if name in s.store {
      SessionSetKeepsInv(s, client, Colliding(name, priority));
    } else {
      NoHolderYet(s.log, s.next);
      WriteKeepsInv(s, Item(name, s.next, s.next, service, NoLabel, None, None, priority, s.now), s.log);
    }
  }

  lemma RereadKeepsInv(s: State, client: nat)
    requires Inv(s)
    ensures Inv(Step(s, Reread(client), true))
  {
    if client in s.sessions && s.sessions[client].Colliding? {
      var c := s.sessions[client];
      if c.name in s.store && s.store[c.name].priority < c.priority {
        SessionSetKeepsInv(s, client, Raising(s.store[c.name], c.priority));
      } else {
        IdleKeepsInv(s, client);
      }
    }
  }

  lemma RaiseKeepsInv(s: State, client: nat)
    requires Inv(s)
    ensures Inv(Step(s, RaisePriority(client), true))
  {
    if client in s.sessions && s.sessions[client].Raising? {
      var r := s.sessions[client];
      assert SessionFits(s, r);
      if Unchanged(s, r.read) {
        var item := Merged(s.store[r.read.name], r.read, r.priority);
        assert item == r.read.(priority := r.priority);
        WriteKeepsInv(s, item, s.log);
        IdleKeepsInv(Write(s, item), client);
      } else {
        IdleKeepsInv(s, client);
      }
    }
  }

  lemma PickKeepsInv(s: State, client: nat, pod: string, service: string, name: string)
    requires Inv(s)
    ensures Inv(Step(s, PickFirst(client, pod, service, name), true))
  {
    if client !in s.sessions && IsFirstOpen(s.store, service, name)
       && (pod == LOCAL || (pod in s.running && s.running[pod] == service)) {
      SessionSetKeepsInv(s, client, Claiming(s.store[name], pod, s.now));
    }
  }

  lemma ClaimKeepsInv(s: State, client: nat)
    requires Inv(s)
    ensures Inv(Step(s, ReplaceClaimed(client), true))
  {
    if client in s.sessions && s.sessions[client].Claiming? {
      var c := s.sessions[client];
      assert SessionFits(s, c);
      if Unchanged(s, c.read) {
        var item, e := Claimed(c.read, c.pod, c.at), ClaimSet(c.read.uid, c.pod, c.at);
        assert HeldAsRecorded(s.store[c.read.name], s.log);
        assert EventFits(s.log, e);
        WriteKeepsInv(s, item, s.log + [e]);
        IdleKeepsInv(Write(s, item).(log := s.log + [e]), client);
      } else {
        IdleKeepsInv(s, client);
      }
    }
  }

  lemma ListKeepsInv(s: State, client: nat, service: string, limit: int, names: seq<string>)
    requires Inv(s)
    ensures Inv(Step(s, ListItems(client, service, limit, names), true))
  {
    if client !in s.sessions
       && forall i :: 0 <= i < |names| ==> names[i] in s.store && s.store[names[i]].service == service {
      var listed := seq(|names|, i requires 0 <= i < |names| && names[i] in s.store => s.store[names[i]]);
      var c := Sweeping(service, limit, s.now, listed, None);
      forall i | 0 <= i < |listed|
        ensures SweepItemFits(s, c, listed[i])
      {
        assert listed[i] == s.store[names[i]];
      }
      SessionSetKeepsInv(s, client, c);
    }
  }

  lemma ListPodsKeepsInv(s: State, client: nat)
    requires Inv(s)
    ensures Inv(Step(s, ListPods(client), true))
  {
    if client in s.sessions && s.sessions[client].Sweeping? && s.sessions[client].pods.None? {
      var c := s.sessions[client];
      var c' := c.(pods := Some(set p | p in s.running && s.running[p] == c.service));
      assert SessionFits(s, c);
      forall i | 0 <= i < |c'.left|
        ensures SweepItemFits(s, c', c'.left[i])
      {
        assert SweepItemFits(s, c, c.left[i]);
      }
      SessionSetKeepsInv(s, client, c');
    }
  }

  lemma RemovalKeepsInv(s: State, client: nat, c: Session, item: Item, rest: Session)
    requires Inv(s) && c.Sweeping? && SweepItemFits(s, c, item) && c.at <= s.now && SessionFits(s, rest)
    requires item.claimed == LabelTrue && c.pods.Some? && Removable(item, c.pods.value, c.at, c.limit)
    ensures Inv(RemoveClaimOf(s, client, c, item, rest))
  {
    if item.claimedBy.Some? && item.claimedAt.Some? && Unchanged(s, item) {
      var e := ClaimRemoved(item.uid, item.claimedBy.value, item.claimedAt.value, c.limit, s.now, s.running.Keys);
      var freed := Unclaimed(item);
      assert HeldAsRecorded(s.store[item.name], s.log);
      assert EventFits(s.log, e);
      WriteKeepsInv(s, freed, s.log + [e]);
      var written := Write(s, freed).(log := s.log + [e]);
      IdleKeepsInv(s, client);
      RestFits(s, freed, s.log + [e], rest);
      SessionSetKeepsInv(written, client, rest);
    } else {
      IdleKeepsInv(s, client);
    }
  }

  lemma RestFits(s: State, item: Item, log': seq<Event>, c: Session)
    requires Inv(s) && SessionFits(s, c)
    ensures SessionFits(Write(s, item).(log := log'), c)
  {
    var t := s.(sessions := map[0 := c]);
    assert Inv(t);
    WriteKeepsSessions(t, item, log');
    var s', t' := Write(s, item).(log := log'), Write(t, item).(log := log');
    assert SessionFits(t', t'.sessions[0]);
    assert SessionFits(s', c) == SessionFits(t', c);
  }

  lemma VisitKeepsInv(s: State, client: nat)
    requires Inv(s)
    ensures Inv(Step(s, Visit(client), true))
  {
    if client in s.sessions && s.sessions[client].Sweeping? {
      var c := s.sessions[client];
      assert SessionFits(s, c);
      if c.left == [] {
        IdleKeepsInv(s, client);
      } else {
        var item := c.left[0];
        var rest := c.(left := c.left[1..]);
        assert SweepItemFits(s, c, item);
        forall i | 0 <= i < |rest.left|
          ensures SweepItemFits(s, rest, rest.left[i]) && SweepItemFits(s, rest.(pods := None), rest.left[i])
        {
          assert SweepItemFits(s, c, c.left[i + 1]);
        }
        var next := if c.pods == Some({}) then rest.(pods := None) else rest;
        SessionSetKeepsInv(s, client, rest);
        SessionSetKeepsInv(s, client, next);
        if item.claimed == LabelTrue && c.pods.Some? && Removable(item, c.pods.value, c.at, c.limit) {
          RemovalKeepsInv(s, client, c, item, next);
        }
      }
    }
  }

  lemma OtherKeepsSessions(s: State, a: Action, c: nat)
    requires Inv(s) && (a.Delete? || a.StartPod? || a.StopPod? || a.Tick?) && c in s.sessions
    ensures SessionFits(Step(s, a, true), s.sessions[c])
  {
    assert SessionFits(s, s.sessions[c]);
  }

  lemma OthersKeepInv(s: State, a: Action)
    requires Inv(s) && (a.Delete? || a.StartPod? || a.StopPod? || a.Tick?)
    ensures Inv(Step(s, a, true))
  {
    var s' := Step(s, a, true);
    assert s'.sessions == s.sessions && s'.log == s.log && s'.next == s.next;
    forall c | c in s'.sessions
      ensures SessionFits(s', s'.sessions[c])
    {
      OtherKeepsSessions(s, a, c);
    }
  }

  lemma UpdateKeepsInv(s: State, name: string, priority: int, timestamp: int)
    requires Inv(s)
    ensures Inv(Step(s, UpdateSpec(name, priority, timestamp), true))
  {
    if name in s.store {
      WriteKeepsInv(s, s.store[name].(priority := priority, timestamp := timestamp), s.log);
    }
  }

  /** Every step of every client keeps the invariant. */
  lemma StepKeepsInv(s: State, a: Action)
    requires Inv(s)
    ensures Inv(Step(s, a, true))
  {
    match a
    case Create(client, name, service, priority) => CreateKeepsInv(s, client, name, service, priority);
    case Reread(client) => RereadKeepsInv(s, client);
    case RaisePriority(client) => RaiseKeepsInv(s, client);
    case PickFirst(client, pod, service, name) => PickKeepsInv(s, client, pod, service, name);
    case ReplaceClaimed(client) => ClaimKeepsInv(s, client);
    case ListItems(client, service, limit, names) => ListKeepsInv(s, client, service, limit, names);
    case ListPods(client) => ListPodsKeepsInv(s, client);
    case Visit(client) => VisitKeepsInv(s, client);
    case UpdateSpec(name, priority, timestamp) => UpdateKeepsInv(s, name, priority, timestamp);
    case Delete(_) => OthersKeepInv(s, a);
    case StartPod(_, _) => OthersKeepInv(s, a);
    case StopPod(_) => OthersKeepInv(s, a);
    case Tick(_) => OthersKeepInv(s, a);
  }

  lemma {:induction false} RunKeepsInv(actions: seq<Action>)
    ensures Inv(Run(actions, true))
  {
    if actions != [] {
      RunKeepsInv(actions[..|actions| - 1]);
      StepKeepsInv(Run(actions[..|actions| - 1], true), actions[|actions| - 1]);
    }
  }

  // ---------------------------------------------------------------- what holds of every run

  lemma {:induction false} HolderStays(log: seq<Event>, uid: nat, i: nat, m: nat)
    requires i < m <= |log| && log[i].ClaimSet? && log[i].uid == uid
    requires forall k :: i < k < m ==> !(log[k].ClaimRemoved? && log[k].uid == uid)
    ensures Holder(log[..m], uid).Some?
  {
    assert log[..m][..m - 1] == log[..m - 1];
    if m - 1 > i {
      HolderStays(log, uid, i, m - 1);
    }
  }

  /** Mutual exclusion: between two claims of one backlog item its claim was removed. */
  lemma ClaimsExcludeEachOther(actions: seq<Action>, i: nat, j: nat)
    requires var log := Run(actions, true).log;
      i < j < |log| && log[i].ClaimSet? && log[j].ClaimSet? && log[i].uid == log[j].uid
    ensures var log := Run(actions, true).log;
      exists k :: i < k < j && log[k].ClaimRemoved? && log[k].uid == log[i].uid
  {
    var log := Run(actions, true).log;
    RunKeepsInv(actions);
    assert EventFits(log[..j], log[j]);
    if forall k :: i < k < j ==> !(log[k].ClaimRemoved? && log[k].uid == log[i].uid) {
      HolderStays(log, log[i].uid, i, j);
    }
  }

  lemma {:induction false} HolderSource(log: seq<Event>, uid: nat) returns (i: nat)
    requires Holder(log, uid).Some?
    ensures i < |log| && log[i].ClaimSet? && log[i].uid == uid
    ensures Holder(log, uid) == Some((log[i].pod, log[i].at))
    ensures forall m :: i < m < |log| ==> log[m].uid != uid
  {
    var n := |log| - 1;
    if log[n].uid == uid {
      i := n;
    } else {
      i := HolderSource(log[..n], uid);
    }
  }

  /** Every removal that takes effect hits the claim set last, and that claim's pod does not run any more or
      the claim is at least as old as the limit. A process without a pod name claims as `local`, which never counts
      as running: its claim is due at once, even while it works. */
  lemma RemovalsAreDue(actions: seq<Action>, k: nat)
    requires k < |Run(actions, true).log| && Run(actions, true).log[k].ClaimRemoved?
    ensures
      var log := Run(actions, true).log;
      var e := log[k];
      && (e.pod !in e.running || e.when - e.at >= e.limit)
      && exists i :: 0 <= i < k && log[i] == ClaimSet(e.uid, e.pod, e.at)
           && forall m :: i < m < k ==> log[m].uid != e.uid
  {
    var log := Run(actions, true).log;
    RunKeepsInv(actions);
    assert EventFits(log[..k], log[k]);
    var i := HolderSource(log[..k], log[k].uid);
    assert log[i] == ClaimSet(log[k].uid, log[k].pod, log[k].at);
    assert forall m :: i < m < k ==> log[..k][m] == log[m];
  }

  lemma RunNext(actions: seq<Action>, a: Action)
    ensures Run(actions + [a], true) == Step(Run(actions, true), a, true)
  {
    assert (actions + [a])[..|actions|] == actions;
  }

  /** A process without a pod name creates and claims an item; the first sweep takes the claim away at once, although
      the process has not ended and the limit has not passed. */
  lemma LocalClaimIsRemovedAtOnce(name: string, service: string, priority: int, limit: int)
    requires limit > 0
    ensures
      var claiming := [Create(0, name, service, priority), PickFirst(0, LOCAL, service, name), ReplaceClaimed(0)];
      var sweeping := [ListItems(1, service, limit, [name]), ListPods(1), Visit(1)];
      Run(claiming + sweeping, true).log == [ClaimSet(0, LOCAL, 0), ClaimRemoved(0, LOCAL, 0, limit, 0, {})]
  {
    var claiming := [Create(0, name, service, priority), PickFirst(0, LOCAL, service, name), ReplaceClaimed(0)];
    var sweeping := [ListItems(1, service, limit, [name]), ListPods(1), Visit(1)];
    LocalClaims(name, service, priority);
    RunNext(claiming, sweeping[0]);
    RunNext(claiming + [sweeping[0]], sweeping[1]);
    RunNext(claiming + [sweeping[0]] + [sweeping[1]], sweeping[2]);
    assert claiming + sweeping == claiming + [sweeping[0]] + [sweeping[1]] + [sweeping[2]];
    SweepRemovesLocal(Run(claiming, true), name, service, limit);
  }

  lemma SweepRemovesLocal(s: State, name: string, service: string, limit: int)
    requires s.running == map[] && 1 !in s.sessions && name in s.store
    requires s.store[name].service == service && s.store[name].name == name && s.store[name].claimed == LabelTrue
    requires s.store[name].claimedBy == Some(LOCAL) && s.store[name].claimedAt.Some?
    ensures
      var item := s.store[name];
      Step(Step(Step(s, ListItems(1, service, limit, [name]), true), ListPods(1), true), Visit(1), true).log ==
      s.log + [ClaimRemoved(item.uid, LOCAL, item.claimedAt.value, limit, s.now, {})]
  {
    var item := s.store[name];
    var listed := Step(s, ListItems(1, service, limit, [name]), true);
    assert 1 in listed.sessions && listed.sessions[1].left == [item];
    var podsListed := Step(listed, ListPods(1), true);
    var session := podsListed.sessions[1];
    assert session.left == [item] && session.pods.Some? && session.pods.value == {} && s.running.Keys == {};
    assert |LOCAL| > 0 && Removable(item, {}, session.at, limit) && Unchanged(podsListed, item);
  }

  lemma LocalClaims(name: string, service: string, priority: int)
    ensures
      var claiming := [Create(0, name, service, priority), PickFirst(0, LOCAL, service, name), ReplaceClaimed(0)];
      var s := Run(claiming, true);
      && s.store == map[name := Claimed(Item(name, 0, 1, service, NoLabel, None, None, priority, 0), LOCAL, 0)]
      && s.sessions == map[] && s.now == 0 && s.running == map[] && s.log == [ClaimSet(0, LOCAL, 0)]
  {
    var create, pick := Create(0, name, service, priority), PickFirst(0, LOCAL, service, name);
    var replace := ReplaceClaimed(0);
    RunNext([], create);
    RunNext([create], pick);
    RunNext([create, pick], replace);
    assert [] + [create] == [create] && [create] + [pick] == [create, pick];
    assert [create, pick] + [replace] == [create, pick, replace];
    var created := Step(Init(), create, true);
    assert created.store == map[name := Item(name, 0, 0, service, NoLabel, None, None, priority, 0)];
    assert IsFirstOpen(created.store, service, name);
    var picked := Step(created, pick, true);
    assert picked.sessions[0] == Claiming(created.store[name], LOCAL, 0);
  }

  // ---------------------------------------------------------------- due claims are removed

  /** The claim on the item is due: its pod is not one of the service's running ones, or it is old enough. */
  predicate Due(item: Item, running: map<string, string>, now: int, limit: int) {
    && item.claimed == LabelTrue && item.claimedBy.Some? && item.claimedAt.Some?
    && var pod := item.claimedBy.value;
       || (pod != "" && !(pod in running && running[pod] == item.service))
       || now - item.claimedAt.value >= limit
  }

  function RemovalOf(item: Item, limit: int, now: int, running: set<string>): Event
    requires item.claimedBy.Some? && item.claimedAt.Some?
  {
    ClaimRemoved(item.uid, item.claimedBy.value, item.claimedAt.value, limit, now, running)
  }

  /** In every reachable state: a visit to a claimed item of which nothing has changed since it was listed removes the
      claim if its pod is not among those listed or the claim was old enough then, and else leaves everything. */
  lemma VisitRemovesIffDue(actions: seq<Action>, client: nat)
    requires
      var s := Run(actions, true);
      && client in s.sessions && s.sessions[client].Sweeping? && s.sessions[client].pods.Some?
      && s.sessions[client].left != [] && s.sessions[client].left[0].claimed == LabelTrue
      && Unchanged(s, s.sessions[client].left[0])
    ensures
      var s, s' := Run(actions, true), Run(actions + [Visit(client)], true);
      var c := s.sessions[client];
      var item := c.left[0];
      && item.claimedBy.Some? && item.claimedAt.Some? && s.store[item.name] == item
      && (if (item.claimedBy.value != "" && item.claimedBy.value !in c.pods.value)
             || c.at - item.claimedAt.value >= c.limit
          then && s'.log == s.log + [RemovalOf(item, c.limit, s.now, s.running.Keys)]
               && s'.store == s.store[item.name := Unclaimed(item).(version := s.next)]
          else s'.log == s.log && s'.store == s.store)
      && client in s'.sessions
      && s'.sessions[client] == c.(left := c.left[1..], pods := if c.pods == Some({}) then None else c.pods)
  {
    RunKeepsInv(actions);
    RunNext(actions, Visit(client));
    var s := Run(actions, true);
    assert SessionFits(s, s.sessions[client]);
    assert SweepItemFits(s, s.sessions[client], s.sessions[client].left[0]);
  }

  ghost function Steps(s: State, actions: seq<Action>, patchChecked: bool): State
    decreases |actions|
  {
    if actions == [] then s else Steps(Step(s, actions[0], patchChecked), actions[1..], patchChecked)
  }

  /** The rest of a sweep over `n` items: the pods are listed when needed, then the next item is visited. */
  function Rounds(client: nat, n: nat): seq<Action> {
    if n == 0 then [] else [ListPods(client), Visit(client)] + Rounds(client, n - 1)
  }

  /** The client is sweeping through `left`, listed just now, with the pods that run now or none listed. */
  predicate SweepsNow(s: State, client: nat, service: string, limit: int, left: seq<Item>) {
    && client in s.sessions && s.sessions[client].Sweeping?
    && var c := s.sessions[client];
       && c.service == service && c.limit == limit && c.at == s.now && c.left == left
       && (c.pods.None? || c.pods.value == set p | p in s.running && s.running[p] == service)
  }

  /** Items listed by different names, still stored as they were, and with complete claims. */
  predicate Current(s: State, service: string, left: seq<Item>) {
    && (forall i :: 0 <= i < |left| ==>
          && left[i].name in s.store && s.store[left[i].name] == left[i] && left[i].service == service
          && ClaimComplete(left[i]))
    && (forall i, j :: 0 <= i < j < |left| ==> left[i].name != left[j].name)
  }

  lemma RoundRemoves(s: State, client: nat, service: string, limit: int, left: seq<Item>)
    requires SweepsNow(s, client, service, limit, left) && left != [] && Current(s, service, left)
    ensures
      var s' := Step(Step(s, ListPods(client), true), Visit(client), true);
      && SweepsNow(s', client, service, limit, left[1..]) && s'.now == s.now && s'.running == s.running
      && (if Due(left[0], s.running, s.now, limit)
          then && s'.log == s.log + [RemovalOf(left[0], limit, s.now, s.running.Keys)]
               && s'.store == s.store[left[0].name := Unclaimed(left[0]).(version := s.next)]
          else s'.log == s.log && s'.store == s.store)
  {
    var item := left[0];
    assert item.name in s.store && s.store[item.name] == item && item.service == service && ClaimComplete(item);
    var listed := Step(s, ListPods(client), true);
    assert listed == s.(sessions := listed.sessions) && listed.sessions[client].pods.Some?;
  }

  /** The removals of the claims that are due, in the order of the items. */
  function Removals(items: seq<Item>, s: State, limit: int): seq<Event> {
    if items == [] then []
    else
      (if Due(items[0], s.running, s.now, limit) then [RemovalOf(items[0], limit, s.now, s.running.Keys)] else []) +
      Removals(items[1..], s, limit)
  }

  lemma StepsTwo(s: State, a: Action, b: Action, rest: seq<Action>)
    ensures Steps(s, [a, b] + rest, true) == Steps(Step(Step(s, a, true), b, true), rest, true)
  {
    assert ([a, b] + rest)[1..] == [b] + rest;
    var t := Step(s, a, true);
    assert ([b] + rest)[1..] == rest;
    assert Steps(t, [b] + rest, true) == Steps(Step(t, b, true), rest, true);
  }

  predicate SweptAt(s: State, s': State, left: seq<Item>, limit: int, name: string)
    requires name in s.store && name in s'.store
  {
    if (exists i :: 0 <= i < |left| && left[i].name == name) && Due(s.store[name], s.running, s.now, limit)
    then s'.store[name].(version := s.store[name].version) == Unclaimed(s.store[name])
    else s'.store[name] == s.store[name]
  }

  lemma CurrentNext(s: State, t: State, service: string, limit: int, left: seq<Item>)
    requires left != [] && Current(s, service, left)
    requires t.store == s.store || t.store == s.store[left[0].name := Unclaimed(left[0]).(version := s.next)]
    ensures Current(t, service, left[1..]) && t.store.Keys == s.store.Keys
  {
    var rest := left[1..];
    forall i | 0 <= i < |rest|
      ensures
        && rest[i].name in t.store && t.store[rest[i].name] == rest[i] && rest[i].service == service
        && ClaimComplete(rest[i])
    {
      assert rest[i] == left[i + 1] && left[0].name != left[i + 1].name;
    }
  }

  ghost predicate Swept(s: State, s': State, left: seq<Item>, limit: int) {
    s'.store.Keys == s.store.Keys && forall n :: n in s.store && n in s'.store ==> SweptAt(s, s', left, limit, n)
  }

  /** The state after the next round, from which the rest of the sweep goes on. */
  lemma RoundRuns(s: State, client: nat, service: string, limit: int, left: seq<Item>) returns (t: State)
    requires SweepsNow(s, client, service, limit, left) && left != [] && Current(s, service, left)
    ensures Steps(s, Rounds(client, |left|), true) == Steps(t, Rounds(client, |left| - 1), true)
    ensures SweepsNow(t, client, service, limit, left[1..]) && Current(t, service, left[1..])
    ensures t.now == s.now && t.running == s.running
    ensures
      if Due(left[0], s.running, s.now, limit)
      then && t.log == s.log + [RemovalOf(left[0], limit, s.now, s.running.Keys)]
           && t.store == s.store[left[0].name := Unclaimed(left[0]).(version := s.next)]
      else t.log == s.log && t.store == s.store
  {
    t := Step(Step(s, ListPods(client), true), Visit(client), true);
    RoundRemoves(s, client, service, limit, left);
    StepsTwo(s, ListPods(client), Visit(client), Rounds(client, |left| - 1));
    CurrentNext(s, t, service, limit, left);
  }

  lemma {:induction false} RoundsRemove(s: State, client: nat, service: string, limit: int, left: seq<Item>)
    requires SweepsNow(s, client, service, limit, left) && Current(s, service, left)
    ensures Steps(s, Rounds(client, |left|), true).log == s.log + Removals(left, s, limit)
    ensures Swept(s, Steps(s, Rounds(client, |left|), true), left, limit)
    decreases |left|
  {
    if left != [] {
      var t := RoundRuns(s, client, service, limit, left);
      RoundsRemove(t, client, service, limit, left[1..]);
      RemovalsNext(s, t, left, limit);
      SweptNext(s, t, Steps(s, Rounds(client, |left|), true), service, left, limit);
    }
  }

  lemma SweptNext(s: State, t: State, s': State, service: string, left: seq<Item>, limit: int)
    requires left != [] && Current(s, service, left) && t.running == s.running && t.now == s.now
    requires
      t.store == if Due(left[0], s.running, s.now, limit)
                 then s.store[left[0].name := Unclaimed(left[0]).(version := s.next)] else s.store
    requires Swept(t, s', left[1..], limit)
    ensures Swept(s, s', left, limit)
  {
    forall n | n in s.store && n in s'.store
      ensures SweptAt(s, s', left, limit, n)
    {
      assert SweptAt(t, s', left[1..], limit, n);
      SweptFirst(s, t, s', left, limit, n);
    }
  }

  lemma {:induction false} RemovalsSame(items: seq<Item>, s: State, t: State, limit: int)
    requires s.running == t.running && s.now == t.now
    ensures Removals(items, s, limit) == Removals(items, t, limit)
  {
    if items != [] {
      RemovalsSame(items[1..], s, t, limit);
    }
  }

  lemma RemovalsNext(s: State, t: State, left: seq<Item>, limit: int)
    requires left != [] && t.running == s.running && t.now == s.now
    requires
      if Due(left[0], s.running, s.now, limit)
      then t.log == s.log + [RemovalOf(left[0], limit, s.now, s.running.Keys)] else t.log == s.log
    ensures t.log + Removals(left[1..], t, limit) == s.log + Removals(left, s, limit)
  {
    RemovalsSame(left[1..], s, t, limit);
    var rest := Removals(left[1..], s, limit);
    if Due(left[0], s.running, s.now, limit) {
      var first := [RemovalOf(left[0], limit, s.now, s.running.Keys)];
      assert Removals(left, s, limit) == first + rest;
      Associative(s.log, first, rest);
    } else {
      assert Removals(left, s, limit) == [] + rest == rest;
    }
  }

  lemma SweptFirst(s: State, t: State, s': State, left: seq<Item>, limit: int, name: string)
    requires left != [] && name in s.store && t.store.Keys == s.store.Keys == s'.store.Keys
    requires left[0].name in s.store && s.store[left[0].name] == left[0]
    requires forall i :: 0 < i < |left| ==> left[i].name != left[0].name
    requires t.running == s.running && t.now == s.now
    requires
      t.store == if Due(left[0], s.running, s.now, limit)
                 then s.store[left[0].name := Unclaimed(left[0]).(version := s.next)] else s.store
    requires SweptAt(t, s', left[1..], limit, name)
    ensures SweptAt(s, s', left, limit, name)
  {
    var rest := left[1..];
    if name == left[0].name {
      assert forall i :: 0 <= i < |rest| ==> rest[i] == left[i + 1];
    } else {
      assert t.store[name] == s.store[name];
      assert (exists i :: 0 <= i < |left| && left[i].name == name) <==>
             (exists i :: 0 <= i < |rest| && rest[i].name == name) by {
        assert forall i :: 0 <= i < |rest| ==> rest[i] == left[i + 1];
        assert forall i :: 0 < i < |left| ==> left[i] == rest[i - 1];
      }
    }
  }

  function Listed(store: map<string, Item>, names: seq<string>): (r: seq<Item>)
    requires forall n :: n in names ==> n in store
    ensures |r| == |names| && forall i :: 0 <= i < |names| ==> r[i] == store[names[i]]
  {
    seq(|names|, i requires 0 <= i < |names| => store[names[i]])
  }

  /** The sweep of a client over items of its service. */
  function Sweep(client: nat, service: string, limit: int, names: seq<string>): seq<Action> {
    [ListItems(client, service, limit, names)] + Rounds(client, |names|)
  }

  /** From every reachable state: a sweep that nothing interferes with removes exactly the claims that are due among the
      items listed, in their order, and changes nothing else about the store. */
  lemma SweepRemovesExactlyDue(actions: seq<Action>, client: nat, service: string, limit: int, names: seq<string>)
    requires Distinct(names) && client !in Run(actions, true).sessions
    requires
      var store := Run(actions, true).store;
      forall n :: n in names ==> n in store && store[n].service == service
    ensures
      var s := Run(actions, true);
      var s' := Steps(s, Sweep(client, service, limit, names), true);
      && s'.log == s.log + Removals(Listed(s.store, names), s, limit)
      && s'.store.Keys == s.store.Keys
      && forall n :: n in s.store ==>
           if n in names && Due(s.store[n], s.running, s.now, limit)
           then s'.store[n].(version := s.store[n].version) == Unclaimed(s.store[n])
           else s'.store[n] == s.store[n]
  {
    RunKeepsInv(actions);
    var s := Run(actions, true);
    var left := Listed(s.store, names);
    var listed := Step(s, ListItems(client, service, limit, names), true);
    ListsThem(s, client, service, limit, names);
    RoundsRemove(listed, client, service, limit, left);
    RemovalsSame(left, s, listed, limit);
    assert Sweep(client, service, limit, names)[1..] == Rounds(client, |names|);
    var s' := Steps(listed, Rounds(client, |left|), true);
    forall n | n in s.store
      ensures
        if n in names && Due(s.store[n], s.running, s.now, limit)
        then s'.store[n].(version := s.store[n].version) == Unclaimed(s.store[n]) else s'.store[n] == s.store[n]
    {
      assert SweptAt(listed, s', left, limit, n);
      assert n in names <==> exists i :: 0 <= i < |left| && left[i].name == n;
    }
  }

  lemma ListsThem(s: State, client: nat, service: string, limit: int, names: seq<string>)
    requires StoreFits(s) && Distinct(names) && client !in s.sessions
    requires forall n :: n in names ==> n in s.store && s.store[n].service == service
    ensures
      var left, listed := Listed(s.store, names), Step(s, ListItems(client, service, limit, names), true);
      && listed == s.(sessions := s.sessions[client := Sweeping(service, limit, s.now, left, None)])
      && Current(listed, service, left) && forall i :: 0 <= i < |left| ==> left[i].name == names[i]
  {
    var left := Listed(s.store, names);
    assert left == seq(|names|, i requires 0 <= i < |names| && names[i] in s.store => s.store[names[i]]);
    assert forall i :: 0 <= i < |left| ==> left[i] == s.store[names[i]] && left[i].name == names[i];
  }

  // ---------------------------------------------------------------- priorities

  /** A worker starts to claim an unclaimed item of its service that no other such item precedes: none has a higher
      priority, and none of the same priority is older. */
  lemma PickedIsFirst(s: State, client: nat, pod: string, service: string, name: string)
    requires client !in s.sessions
    ensures
      var s' := Step(s, PickFirst(client, pod, service, name), true);
      client in s'.sessions ==>
        && name in s.store && s.store[name].service == service && s.store[name].claimed != LabelTrue
        && s'.sessions[client] == Claiming(s.store[name], pod, s.now)
        && forall n :: n in s.store && s.store[n].service == service && s.store[n].claimed != LabelTrue ==>
             && s.store[n].priority <= s.store[name].priority
             && (s.store[n].priority == s.store[name].priority ==> s.store[name].timestamp <= s.store[n].timestamp)
  {
    forall n | n in s.store && IsOpen(s.store[n], service) && IsFirstOpen(s.store, service, name)
      ensures !ComesBefore(s.store[n], s.store[name])
    {
    }
  }

  /** Creating an item that is there makes the client patch it if it asks for a higher priority. */
  lemma Recreates(s: State, client: nat, name: string, service: string, priority: int)
    requires client !in s.sessions && name in s.store
    ensures
      var t := Step(Step(s, Create(client, name, service, priority), true), Reread(client), true);
      t == if s.store[name].priority < priority
           then s.(sessions := s.sessions[client := Raising(s.store[name], priority)]) else s
  {
    var collided := Step(s, Create(client, name, service, priority), true);
    assert collided == s.(sessions := s.sessions[client := Colliding(name, priority)]);
    var t := Step(collided, Reread(client), true);
    assert s.store[name].priority >= priority ==> t.sessions == s.sessions;
  }

  lemma RaiseWrites(s: State, client: nat, name: string, priority: int)
    requires client !in s.sessions && name in s.store && s.store[name].name == name
    ensures
      var item := s.store[name];
      Step(s.(sessions := s.sessions[client := Raising(item, priority)]), RaisePriority(client), true) ==
      s.(store := s.store[name := item.(priority := priority, version := s.next)], next := s.next + 1)
  {
    var item := s.store[name];
    var t := s.(sessions := s.sessions[client := Raising(item, priority)]);
    assert Unchanged(t, item) && Merged(item, item, priority) == item.(priority := priority);
    assert t.sessions - {client} == s.sessions;
  }

  /** From every reachable state: creating an item that is there already, undisturbed, raises its priority to the
      greater of both; the claim and all else about the store stay. */
  lemma CreatingAgainRaisesPriority(actions: seq<Action>, client: nat, name: string, service: string, priority: int)
    requires client !in Run(actions, true).sessions && name in Run(actions, true).store
    ensures
      var s := Run(actions, true);
      var s' := Steps(s, [Create(client, name, service, priority), Reread(client), RaisePriority(client)], true);
      && s'.log == s.log && s'.sessions == s.sessions && s'.store.Keys == s.store.Keys
      && s'.store[name].(version := s.store[name].version) ==
         s.store[name].(priority := Max(s.store[name].priority, priority))
      && (priority <= s.store[name].priority ==> s'.store == s.store)
      && forall n :: n in s.store && n != name ==> s'.store[n] == s.store[n]
  {
    RunKeepsInv(actions);
    var s := Run(actions, true);
    var create, reread, raise := Create(client, name, service, priority), Reread(client), RaisePriority(client);
    assert [create, reread, raise] == [create, reread] + [raise];
    StepsTwo(s, create, reread, [raise]);
    Recreates(s, client, name, service, priority);
    StepsOne(Step(Step(s, create, true), reread, true), raise);
    if s.store[name].priority < priority {
      RaiseWrites(s, client, name, priority);
    }
  }

  lemma StepsOne(s: State, a: Action)
    ensures Steps(s, [a], true) == Step(s, a, true)
  {
    assert [a][1..] == [];
    assert Steps(s, [a], true) == Steps(Step(s, a, true), [], true);
  }

  /** An update of an item that a worker has picked makes the worker's claim fail: what is stored is the updated item,
      still unclaimed. */
  lemma UpdateDefeatsClaim(actions: seq<Action>, client: nat, priority: int, timestamp: int)
    requires client in Run(actions, true).sessions && Run(actions, true).sessions[client].Claiming?
    requires Unchanged(Run(actions, true), Run(actions, true).sessions[client].read)
    ensures
      var s := Run(actions, true);
      var item := s.sessions[client].read;
      var s' := Step(Step(s, UpdateSpec(item.name, priority, timestamp), true), ReplaceClaimed(client), true);
      && s'.log == s.log && client !in s'.sessions && item.claimed != LabelTrue
      && s'.store == s.store[item.name := item.(priority := priority, timestamp := timestamp, version := s.next)]
  {
    RunKeepsInv(actions);
    var s := Run(actions, true);
    assert SessionFits(s, s.sessions[client]);
  }

  /** A merge patch leaves alone what its body does not mention: one made from an item that has never been claimed keeps
      the stored claim, one made from an item that has been puts the claim back that it was read with. */
  lemma PatchKeepsUnmentioned(stored: Item, read: Item, priority: int)
    ensures read.claimed == NoLabel && read.claimedBy.None? && read.claimedAt.None? ==>
      Merged(stored, read, priority) == stored.(priority := priority, timestamp := read.timestamp)
    ensures read.claimed != NoLabel && read.claimedBy.Some? && read.claimedAt.Some? ==>
      Merged(stored, read, priority) ==
      stored.(claimed := read.claimed, claimedBy := read.claimedBy, claimedAt := read.claimedAt, priority := priority,
              timestamp := read.timestamp)
  {
  }

  /** The claim of a pod that stops, however young, is removed by the next sweep. */
  lemma StoppedPodLosesClaim(name: string, service: string, pod: string, limit: int)
    requires limit > 0 && pod != LOCAL && pod != ""
    ensures
      var claiming := [Create(0, name, service, 0), StartPod(pod, service), PickFirst(0, pod, service, name),
                       ReplaceClaimed(0)];
      var sweeping := [StopPod(pod), ListItems(1, service, limit, [name]), ListPods(1), Visit(1)];
      Steps(Steps(Init(), claiming, true), sweeping, true).log ==
      [ClaimSet(0, pod, 0), ClaimRemoved(0, pod, 0, limit, 0, {})]
  {
    var create, start := Create(0, name, service, 0), StartPod(pod, service);
    var pick, replace := PickFirst(0, pod, service, name), ReplaceClaimed(0);
    assert [create, start, pick, replace] == [create, start] + ([pick, replace] + []);
    StepsTwo(Init(), create, start, [pick, replace] + []);
    var started := Step(Step(Init(), create, true), start, true);
    var item := Item(name, 0, 0, service, NoLabel, None, None, 0, 0);
    assert started.store == map[name := item] && started.running == map[pod := service];
    assert IsFirstOpen(started.store, service, name);
    StepsTwo(started, pick, replace, []);
    var picked := Step(started, pick, true);
    assert picked.sessions == map[0 := Claiming(item, pod, 0)];
    var claimed := Step(picked, replace, true);
    StopAndSweep(claimed, name, service, pod, limit);
  }

  lemma StopAndSweep(s: State, name: string, service: string, pod: string, limit: int)
    requires s.running == map[pod := service] && 1 !in s.sessions && name in s.store && pod != ""
    requires s.store[name].service == service && s.store[name].name == name && s.store[name].claimed == LabelTrue
    requires s.store[name].claimedBy == Some(pod) && s.store[name].claimedAt.Some?
    ensures
      var item := s.store[name];
      Steps(s, [StopPod(pod), ListItems(1, service, limit, [name]), ListPods(1), Visit(1)], true).log ==
      s.log + [ClaimRemoved(item.uid, pod, item.claimedAt.value, limit, s.now, {})]
  {
    var item := s.store[name];
    var stop, list := StopPod(pod), ListItems(1, service, limit, [name]);
    assert [stop, list, ListPods(1), Visit(1)] == [stop, list] + ([ListPods(1), Visit(1)] + []);
    StepsTwo(s, stop, list, [ListPods(1), Visit(1)] + []);
    var stopped := Step(s, stop, true);
    assert stopped.running == map[];
    var listed := Step(stopped, list, true);
    assert 1 in listed.sessions && listed.sessions[1].left == [item];
    StepsTwo(listed, ListPods(1), Visit(1), []);
    var podsListed := Step(listed, ListPods(1), true);
    assert podsListed.sessions[1].left == [item] && podsListed.sessions[1].pods == Some({});
    assert s.running.Keys == {pod} && podsListed.running.Keys == {};
  }

  // ---------------------------------------------------------------- why the patch has to be version-checked

  /** The item is the only one of its service. */
  predicate Alone(store: map<string, Item>, name: string) {
    && name in store && store[name].name == name
    && forall n :: n in store && n != name ==> store[n].service != store[name].service
  }

  /** A worker picks the open item and claims it. */
  lemma PickAndClaim(s: State, client: nat, pod: string, name: string)
    requires Alone(s.store, name) && s.store[name].claimed != LabelTrue && client !in s.sessions
    requires pod in s.running && s.running[pod] == s.store[name].service
    ensures
      var item := s.store[name];
      var s' := Step(Step(s, PickFirst(client, pod, item.service, name), false), ReplaceClaimed(client), false);
      s' == s.(store := s.store[name := Claimed(item, pod, s.now).(version := s.next)], next := s.next + 1,
               log := s.log + [ClaimSet(item.uid, pod, s.now)])
  {
    var item := s.store[name];
    assert IsFirstOpen(s.store, item.service, name);
    var s1 := Step(s, PickFirst(client, pod, item.service, name), false);
    assert s1.sessions[client] == Claiming(item, pod, s.now);
    assert s1.sessions - {client} == s.sessions;
  }

  /** If the store let a merge patch with an outdated resource version through, raising the priority of an item
      whose claim had once been removed would take the claim off a worker, and a second worker would get it. */
  lemma UncheckedPatchLetsTwoClaim(s: State, name: string, b: string, c: string, priority: int)
    requires Alone(s.store, name) && s.store[name].claimed == LabelFalse
    requires s.store[name].claimedBy == None && s.store[name].claimedAt == None && s.store[name].priority < priority
    requires b in s.running && s.running[b] == s.store[name].service
    requires c in s.running && s.running[c] == s.store[name].service
    requires 0 !in s.sessions && 1 !in s.sessions && 2 !in s.sessions
    ensures
      var item := s.store[name];
      var creator := [Create(0, name, item.service, priority), Reread(0)];
      var first := [PickFirst(1, b, item.service, name), ReplaceClaimed(1)];
      var second := [PickFirst(2, c, item.service, name), ReplaceClaimed(2)];
      Steps(Steps(Steps(Steps(s, creator, false), first, false), [RaisePriority(0)], false), second, false).log ==
      s.log + [ClaimSet(item.uid, b, s.now), ClaimSet(item.uid, c, s.now)]
  {
    var item := s.store[name];
    TwoSteps(s, Create(0, name, item.service, priority), Reread(0));
    var s2 := s.(sessions := s.sessions[0 := Raising(item, priority)]);
    assert Step(Step(s, Create(0, name, item.service, priority), false), Reread(0), false) == s2;
    TwoSteps(s2, PickFirst(1, b, item.service, name), ReplaceClaimed(1));
    PickAndClaim(s2, 1, b, name);
    var s4 := Steps(s2, [PickFirst(1, b, item.service, name), ReplaceClaimed(1)], false);
    var s5 := Step(s4, RaisePriority(0), false);
    assert Steps(s4, [RaisePriority(0)], false) == s5;
    assert Alone(s5.store, name) && s5.store[name].claimed == LabelFalse && s5.store[name].uid == item.uid;
    TwoSteps(s5, PickFirst(2, c, item.service, name), ReplaceClaimed(2));
    PickAndClaim(s5, 2, c, name);
  }

  lemma TwoSteps(s: State, a: Action, b: Action)
    ensures Steps(s, [a, b], false) == Step(Step(s, a, false), b, false)
  {
    assert [a, b][1..] == [b];
    var t := Step(s, a, false);
    assert [b][1..] == [];
    assert Steps(t, [b], false) == Steps(Step(t, b, false), [], false);
  }

  // ---------------------------------------------------------------- the edits of the client code

  datatype Reply = Accepted | Conflict | Failure

  datatype Outcome = Done | MissingAnnotation | ApiException

  /** The resource body a client holds and edits in place. */
  class Body {
    var item: Item

    constructor (read: Item)
      ensures item == read
    {
      item := read;
    }

    /** The edit before a claiming replace. */
    method MarkClaimed(pod: string, now: int)
      modifies this
      ensures item == Claimed(old(item), pod, now)
    {
      item := item.(claimed := LabelTrue);
      item := item.(claimedBy := Some(pod), claimedAt := Some(now));
    }

    /** `remove_claim`, given the store's replies to its replace requests in order; `requests` counts them. A
        conflict is never overcome: the retry stops at the annotations the first attempt has deleted. */
    method RemoveClaim(replies: seq<Reply>, maxRetries: nat, retryCount: nat)
      returns (outcome: Outcome, requests: nat)
      requires |replies| > 0
      modifies this
      decreases maxRetries - retryCount
      ensures
        var complete := old(item).claimedBy.Some? && old(item).claimedAt.Some?;
        && requests == (if complete then 1 else 0)
        && item == old(item).(claimed := LabelFalse, claimedBy := None,
                              claimedAt := if old(item).claimedBy.None? then old(item).claimedAt else None)
        && (complete ==> item == Unclaimed(old(item)))
        && (outcome.Done? <==> complete && replies[0] == Accepted)
        && (outcome.MissingAnnotation? <==> !complete || (replies[0] == Conflict && retryCount < maxRetries))
    {
      item := item.(claimed := LabelFalse);
      if item.claimedBy.None? {
        return MissingAnnotation, 0;
      }
      item := item.(claimedBy := None);
      if item.claimedAt.None? {
        return MissingAnnotation, 0;
      }
      item := item.(claimedAt := None);
      match replies[0] {
        case Accepted => return Done, 1;
        case Failure => return ApiException, 1;
        case Conflict =>
          if retryCount >= maxRetries {
            return ApiException, 1;
          }
          var further := if |replies| > 1 then replies[1..] else replies;
          var more;
          outcome, more := RemoveClaim(further, maxRetries, retryCount + 1);
          requests := 1 + more;
      }
    }
  }

  // ---------------------------------------------------------------- scaling

  const ISSUE_REPLICATOR := "issueReplicator"
  const BLACKDUCK := "blackduck"

  function MaxReplicas(service: string, configured: nat): nat {
    if service == ISSUE_REPLICATOR then 1 else if service == BLACKDUCK then 2 else configured
  }

  /** The fewest replicas that cover all items, within the service's bound. */
  function DesiredReplicas(items: nat, itemsPerReplica: nat, service: string, configured: nat): (r: nat)
    requires 0 < itemsPerReplica
    ensures r <= MaxReplicas(service, configured)
    ensures r < MaxReplicas(service, configured) ==> items <= r * itemsPerReplica
    ensures forall q: nat :: q < r ==> q * itemsPerReplica < items
  {
    var r := Min(CeilDiv(items, itemsPerReplica), MaxReplicas(service, configured));
    r
  }

  /** Whatever is configured, the issue replicator runs at most once and Black Duck at most twice; each service gets
      what its items need up to its bound. */
  lemma ReplicasByService(items: nat, itemsPerReplica: nat, service: string, configured: nat, q: nat)
    requires 0 < itemsPerReplica && items <= q * itemsPerReplica
    ensures service == "issueReplicator" ==> DesiredReplicas(items, itemsPerReplica, service, configured) <= Min(q, 1)
    ensures service == "blackduck" ==> DesiredReplicas(items, itemsPerReplica, service, configured) <= Min(q, 2)
    ensures service !in {"issueReplicator", "blackduck"} ==>
      var r := DesiredReplicas(items, itemsPerReplica, service, configured);
      r <= Min(q, configured) && (r < configured ==> items <= r * itemsPerReplica)
    ensures items > 0 && (service in {"issueReplicator", "blackduck"} || configured > 0) ==>
      DesiredReplicas(items, itemsPerReplica, service, configured) > 0
  {
    assert |"issueReplicator"| == 15 && |"blackduck"| == 9;
  }
}
