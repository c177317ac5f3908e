/**
 Which components a recursive search covers, the clause built from them, and the depth-bounded walk over component
 references. (src/metadata.py, src/components.py)
 */
module Scope {
  import opened Common

  datatype Id = Id(name: string, version: string)

  /** A resource or source of a component; `kind` tells which. */
  datatype Artefact = Artefact(kind: string, name: string, version: Option<string>, ctype: string,
                               extra: map<string, string>)

  /** `refs` as written in the descriptor, `extraRefs` from the label for extra component references. */
  datatype Component = Component(artefacts: seq<Artefact>, refs: seq<Id>, extraRefs: seq<Id>)

  /** The component descriptors that can be resolved. */
  type Repo = map<Id, Component>

  // ---------------------------------------------------------------- worklist search

  /** The identifying parts of an artefact: its version is part of the extra identity unless given there. */
  function Key(a: Artefact): Artefact {
    a.(extra := if a.version.Some? && "version" !in a.extra then a.extra["version" := a.version.value] else a.extra)
  }

  function Keys(c: Component): set<Artefact> {
    set a | a in c.artefacts :: Key(a)
  }

  /** The version an artefact is identified by: one in the extra identity takes precedence. */
  function VersionOf(a: Artefact): Option<string> {
    if "version" in a.extra then Some(a.extra["version"]) else a.version
  }

  function Lookup(m: map<string, string>, k: string): Option<string> {
    if k in m then Some(m[k]) else None
  }

  lemma KeyLookup(a: Artefact, k: string)
    ensures Lookup(Key(a).extra, k) == if k == "version" then VersionOf(a) else Lookup(a.extra, k)
  {
  }

  lemma SameLookups(m: map<string, string>, n: map<string, string>)
    requires forall k :: Lookup(m, k) == Lookup(n, k)
    ensures m == n
  {
    forall k
      ensures (k in m <==> k in n) && (k in m && k in n ==> m[k] == n[k])
    {
      assert Lookup(m, k) == Lookup(n, k);
    }
  }

  /** Two artefacts have one key exactly if they agree in kind, name, version and type, and in the extra identity once
      the version counts as part of it. */
  lemma KeyTellsArtefactsApart(a: Artefact, b: Artefact)
    ensures
      Key(a) == Key(b) <==>
      && a.kind == b.kind && a.name == b.name && a.version == b.version && a.ctype == b.ctype
      && VersionOf(a) == VersionOf(b) && forall k :: k != "version" ==> Lookup(a.extra, k) == Lookup(b.extra, k)
  {
    forall k
      ensures Lookup(Key(a).extra, k) == if k == "version" then VersionOf(a) else Lookup(a.extra, k)
      ensures Lookup(Key(b).extra, k) == if k == "version" then VersionOf(b) else Lookup(b.extra, k)
    {
      KeyLookup(a, k);
      KeyLookup(b, k);
    }
    if forall k :: Lookup(Key(a).extra, k) == Lookup(Key(b).extra, k) {
      SameLookups(Key(a).extra, Key(b).extra);
    }
    assert Key(a).extra == Key(b).extra ==> Lookup(Key(a).extra, "version") == Lookup(Key(b).extra, "version");
  }

  /** A reference needs a name and a version (an absent one counts as empty). */
  predicate Usable(ref: Id) {
    ref.name != "" && ref.version != ""
  }

  ghost predicate Edge(repo: Repo, a: Id, b: Id) {
    a in repo && b in repo && b in repo[a].refs && Usable(b)
  }

  ghost predicate Path(repo: Repo, p: seq<Id>) {
    p != [] && p[0] in repo && forall i :: 0 <= i < |p| - 1 ==> Edge(repo, p[i], p[i + 1])
  }

  ghost predicate PathBetween(repo: Repo, p: seq<Id>, a: Id, b: Id) {
    Path(repo, p) && p[0] == a && p[|p| - 1] == b
  }

  ghost predicate Reachable(repo: Repo, a: Id, b: Id) {
    exists p :: PathBetween(repo, p, a, b)
  }

  lemma ReachesItself(repo: Repo, a: Id)
    requires a in repo
    ensures Reachable(repo, a, a)
  {
    assert PathBetween(repo, [a], a, a);
  }

  lemma ReachesFurther(repo: Repo, a: Id, b: Id, c: Id)
    requires Reachable(repo, a, b) && Edge(repo, b, c)
    ensures Reachable(repo, a, c)
  {
    var p :| PathBetween(repo, p, a, b);
    assert PathBetween(repo, p + [c], a, c);
  }

  /** Every resolvable reference of what was visited is visited or still queued. */
  ghost predicate Covered(repo: Repo, visited: set<Id>, queue: seq<Id>) {
    forall a, b :: a in visited && Edge(repo, a, b) ==> b in visited || b in queue
  }

  lemma {:induction false} ClosedSetHoldsPath(repo: Repo, visited: set<Id>, p: seq<Id>)
    requires Covered(repo, visited, []) && Path(repo, p) && p[0] in visited
    ensures p[|p| - 1] in visited
  {
    if |p| > 1 {
      assert Edge(repo, p[0], p[1]);
      forall i | 0 <= i < |p[1..]| - 1
        ensures Edge(repo, p[1..][i], p[1..][i + 1])
      {
        assert Edge(repo, p[i + 1], p[i + 2]);
      }
      ClosedSetHoldsPath(repo, visited, p[1..]);
    }
  }

  lemma ClosedSetHoldsReachable(repo: Repo, visited: set<Id>, a: Id, b: Id)
    requires Covered(repo, visited, []) && a in visited && Reachable(repo, a, b)
    ensures b in visited
  {
    var p :| PathBetween(repo, p, a, b);
    ClosedSetHoldsPath(repo, visited, p);
  }

  method AddKeys(c: Component) returns (keys: set<Artefact>)
    ensures keys == Keys(c)
  {
    keys := {};
    for i := 0 to |c.artefacts|
      invariant keys == set a | a in c.artefacts[..i] :: Key(a)
    {
      keys := keys + {Key(c.artefacts[i])};
    }
    assert c.artefacts[..|c.artefacts|] == c.artefacts;
  }

  method EnqueueReferences(repo: Repo, c: Component, queue: seq<Id>) returns (all: seq<Id>)
    ensures queue <= all
    ensures forall b :: b in all <==> b in queue || (b in repo && b in c.refs && Usable(b))
  {
    all := queue;
    for i := 0 to |c.refs|
      invariant queue <= all
      invariant forall b :: b in all <==> b in queue || (b in repo && b in c.refs[..i] && Usable(b))
    {
      var ref := c.refs[i];
      if ref.name != "" && ref.version != "" {
        if ref in repo {
          all := all + [ref];
        }
      }
    }
  }

  ghost predicate InScope(repo: Repo, root: Id, recursive: bool, id: Id) {
    id in repo && if recursive then Reachable(repo, root, id) else id == root
  }

  ghost predicate OnlyInScope(repo: Repo, root: Id, recursive: bool, visited: set<Id>, queue: seq<Id>) {
    && (forall id :: id in visited ==> InScope(repo, root, recursive, id))
    && (forall id :: id in queue ==> InScope(repo, root, recursive, id))
  }

  lemma ReferencesInScope(repo: Repo, root: Id, cid: Id, queue: seq<Id>, queue': seq<Id>, visited: set<Id>)
    requires OnlyInScope(repo, root, true, visited, queue) && cid in visited
    requires forall b :: b in queue' <==> b in queue || (b in repo && b in repo[cid].refs && Usable(b))
    ensures OnlyInScope(repo, root, true, visited, queue')
  {
    forall b | b in queue' && b !in queue
      ensures InScope(repo, root, true, b)
    {
      assert InScope(repo, root, true, cid);
      ReachesFurther(repo, root, cid, b);
    }
  }

  ghost predicate KeysOf(repo: Repo, visited: set<Id>, keys: map<Id, set<Artefact>>) {
    && (forall id :: id in keys <==> id in visited && id in repo && repo[id].artefacts != [])
    && (forall id :: id in keys && id in repo ==> keys[id] == Keys(repo[id]))
  }

  datatype Error = BadRequest(missing: Id)

  /** Cyclic references included, the keys of exactly the components in scope that own an artefact: the
      reachable ones, or without `recursive` the component itself. */
  method ResolveComponentScope(repo: Repo, root: Id, recursive: bool) returns (r: Result<map<Id, set<Artefact>>, Error>)
    ensures root !in repo ==> r == Err(BadRequest(root))
    ensures root in repo ==> r.Ok?
    ensures r.Ok? ==> forall id ::
      id in r.value <==> InScope(repo, root, recursive, id) && repo[id].artefacts != []
    ensures r.Ok? ==> forall id :: id in r.value && id in repo ==> r.value[id] == Keys(repo[id])
  {
    if root !in repo {
      return Err(BadRequest(root));
    }
    var keys, visited := CollectKeys(repo, root, recursive);
    forall id | InScope(repo, root, recursive, id)
      ensures id in visited
    {
      if recursive {
        ClosedSetHoldsReachable(repo, visited, root, id);
      }
    }
    r := Ok(keys);
  }

  /** What holds whenever the next component is taken off the queue. */
  ghost predicate Collecting(repo: Repo, root: Id, recursive: bool, visited: set<Id>, queue: seq<Id>,
                             keys: map<Id, set<Artefact>>) {
    && (root in visited || root in queue) && visited <= repo.Keys
    && OnlyInScope(repo, root, recursive, visited, queue)
    && (recursive ==> Covered(repo, visited, queue))
    && KeysOf(repo, visited, keys)
  }

  /** Adds the keys of a component and queues what it refers to. */
  method VisitComponent(repo: Repo, root: Id, recursive: bool, ghost visited: set<Id>, cid: Id, queue: seq<Id>,
                        keys: map<Id, set<Artefact>>) returns (queue': seq<Id>, keys': map<Id, set<Artefact>>)
    requires cid in repo && cid !in visited && Collecting(repo, root, recursive, visited, [cid] + queue, keys)
    ensures Collecting(repo, root, recursive, visited + {cid}, queue', keys')
  {
    assert InScope(repo, root, recursive, cid);
    queue', keys' := queue, keys;
    var own := AddKeys(repo[cid]);
    if repo[cid].artefacts != [] {
      keys' := keys[cid := own];
    }
    if recursive {
      queue' := EnqueueReferences(repo, repo[cid], queue);
      ReferencesInScope(repo, root, cid, queue, queue', visited + {cid});
    }
  }

  lemma SkipVisited(repo: Repo, root: Id, recursive: bool, visited: set<Id>, cid: Id, queue: seq<Id>,
                    keys: map<Id, set<Artefact>>)
    requires cid in visited && Collecting(repo, root, recursive, visited, [cid] + queue, keys)
    ensures Collecting(repo, root, recursive, visited, queue, keys)
  {
    assert forall id :: id in [cid] + queue <==> id == cid || id in queue;
  }

  method CollectKeys(repo: Repo, root: Id, recursive: bool) returns (keys: map<Id, set<Artefact>>, visited: set<Id>)
    requires root in repo
    ensures Collecting(repo, root, recursive, visited, [], keys)
  {
    keys := map[];
    var queue := [root];
    visited := {};
    ReachesItself(repo, root);
    while queue != []
      invariant Collecting(repo, root, recursive, visited, queue, keys)
      decreases |repo.Keys - visited|, |queue|
    {
      var cid := queue[0];
      assert queue == [cid] + queue[1..];
      assert InScope(repo, root, recursive, cid);
      if cid in visited {
        SkipVisited(repo, root, recursive, visited, cid, queue[1..], keys);
        queue := queue[1..];
      } else {
        ghost var left := repo.Keys - visited;
        queue, keys := VisitComponent(repo, root, recursive, visited, cid, queue[1..], keys);
        visited := visited + {cid};
        assert repo.Keys - visited == left - {cid};
      }
    }
  }

  // ---------------------------------------------------------------- the rows of a resolved scope

  /** The columns of a metadata row that identify its component and artefact; any of them may be null. */
  datatype ScopedRow = ScopedRow(name: Option<string>, version: Option<string>, kind: Option<string>,
                                 artefact: Option<string>, artefactVersion: Option<string>, ctype: Option<string>,
                                 extra: Option<map<string, string>>)

  function Known(b: bool): Truth {
    if b then True else False
  }

  function EqualTo<T(==)>(column: Option<T>, value: Option<T>): Truth {
    if column.None? || value.None? then Unknown else Known(column.value == value.value)
  }

  function Both(a: Truth, b: Truth): Truth {
    if a == False || b == False then False else if a == Unknown || b == Unknown then Unknown else True
  }

  function Either(a: Truth, b: Truth): Truth {
    if a == True || b == True then True else if a == Unknown || b == Unknown then Unknown else False
  }

  /** False, unknown and true numbered 0, 1 and 2. */
  function TruthRank(t: Truth): int {
    match t case False => 0 case Unknown => 1 case True => 2
  }

  /** SQL's logic: `AND` and `OR` are minimum and maximum, and a comparison with a null is unknown. */
  lemma ConnectivesAreKleene(a: Truth, b: Truth, x: Option<string>, y: Option<string>)
    ensures TruthRank(Both(a, b)) == Min(TruthRank(a), TruthRank(b))
    ensures TruthRank(Either(a, b)) == Max(TruthRank(a), TruthRank(b))
    ensures EqualTo(x, y) == Unknown <==> x.None? || y.None?
    ensures EqualTo(x, y) == True <==> x.Some? && x == y
  {
  }

  /** `(kind, name, version, type, extra id) = key` */
  function TupleEquals(row: ScopedRow, k: Artefact): Truth {
    Both(EqualTo(row.kind, Some(k.kind)),
         Both(EqualTo(row.artefact, Some(k.name)),
              Both(EqualTo(row.artefactVersion, k.version),
                   Both(EqualTo(row.ctype, Some(k.ctype)), EqualTo(row.extra, Some(k.extra))))))
  }

  ghost function TupleIn(row: ScopedRow, keys: set<Artefact>): Truth {
    if exists k :: k in keys && TupleEquals(row, k) == True then True
    else if exists k :: k in keys && TupleEquals(row, k) == Unknown then Unknown
    else False
  }

  /** The predicate of one component: its own rows, or rows without version that carry one of its artefacts. */
  ghost function ComponentTruth(row: ScopedRow, id: Id, keys: set<Artefact>): Truth {
    var byName := EqualTo(row.name, Some(id.name));
    var direct := Both(byName, EqualTo(row.version, Some(id.version)));
    if keys == {} then direct
    else
      var versionless := Either(Known(row.version.None?), EqualTo(row.version, Some("")));
      Either(direct, Both(byName, Both(versionless, TupleIn(row, keys))))
  }

  /** The clause for a resolved scope; without components it is false. */
  ghost function ScopeTruth(row: ScopedRow, keysBy: map<Id, set<Artefact>>): Truth {
    if exists id :: id in keysBy && ComponentTruth(row, id, keysBy[id]) == True then True
    else if exists id :: id in keysBy && ComponentTruth(row, id, keysBy[id]) == Unknown then Unknown
    else False
  }

  /** All five columns are set and are those of the artefact, which has a version. */
  predicate Carries(row: ScopedRow, a: Artefact) {
    && row.kind == Some(a.kind) && row.artefact == Some(a.name) && row.ctype == Some(a.ctype)
    && a.version.Some? && row.artefactVersion == a.version && row.extra == Some(Key(a).extra)
  }

  /** The row is about the component: it names it with its version, or it names no version and carries one of its
      artefacts. */
  ghost predicate About(row: ScopedRow, id: Id, c: Component) {
    && row.name == Some(id.name)
    && (row.version == Some(id.version) ||
        ((row.version.None? || row.version == Some("")) && exists a :: a in c.artefacts && Carries(row, a)))
  }

  lemma ComponentMeansAbout(row: ScopedRow, id: Id, c: Component)
    ensures ComponentTruth(row, id, Keys(c)) == True <==> About(row, id, c)
  {
    if a :| a in c.artefacts && Carries(row, a) {
      assert Key(a) in Keys(c);
    }
    if k :| k in Keys(c) && TupleEquals(row, k) == True {
      var a :| a in c.artefacts && Key(a) == k;
    }
  }

  /** A search for a component keeps exactly the rows about a component in scope that owns an artefact. */
  lemma ScopeSelects(repo: Repo, root: Id, recursive: bool, keysBy: map<Id, set<Artefact>>, row: ScopedRow)
    requires forall id :: id in keysBy <==> InScope(repo, root, recursive, id) && repo[id].artefacts != []
    requires forall id :: id in keysBy && id in repo ==> keysBy[id] == Keys(repo[id])
    ensures
      ScopeTruth(row, keysBy) == True <==>
      exists id :: InScope(repo, root, recursive, id) && repo[id].artefacts != [] && About(row, id, repo[id])
  {
    forall id | id in keysBy
      ensures ComponentTruth(row, id, keysBy[id]) == True <==> About(row, id, repo[id])
    {
      ComponentMeansAbout(row, id, repo[id]);
    }
    if ScopeTruth(row, keysBy) == True {
      var id :| id in keysBy && ComponentTruth(row, id, keysBy[id]) == True;
      assert About(row, id, repo[id]);
    }
    if id :| InScope(repo, root, recursive, id) && repo[id].artefacts != [] && About(row, id, repo[id]) {
      assert id in keysBy;
    }
  }

  /** A component without artefacts is not found even by its own name and version. */
  lemma BareComponentIsNotFound(repo: Repo, root: Id, keysBy: map<Id, set<Artefact>>, row: ScopedRow)
    requires root in repo && repo[root].artefacts == []
    requires forall id :: id in keysBy <==> InScope(repo, root, false, id) && repo[id].artefacts != []
    requires row.name == Some(root.name) && row.version == Some(root.version)
    ensures About(row, root, repo[root]) && ScopeTruth(row, keysBy) == False
  {
    assert forall id :: id in keysBy ==> id == root;
  }

  // ---------------------------------------------------------------- depth-first walk

  function Children(c: Component): seq<Id> {
    c.refs + c.extraRefs
  }

  /** What is yielded for a component: the identities from the root to it, the last one marked if missing. */
  datatype Node = Node(path: seq<Id>, missing: bool)

  /** The nodes yielded, and the missing component that ended the walk early. */
  datatype Trace = Trace(nodes: seq<Node>, failed: Option<Id>)

  function Then(a: Trace, b: Trace): Trace {
    if a.failed.Some? then a else Trace(a.nodes + b.nodes, b.failed)
  }

  function Rank(rank: map<Id, nat>, id: Id): nat {
    if id in rank then rank[id] else 0
  }

  /** The references are acyclic: they lead to components of smaller rank. */
  ghost predicate Ranked(repo: Repo, rank: map<Id, nat>) {
    forall id, c :: id in repo && c in Children(repo[id]) ==> Rank(rank, c) < Rank(rank, id)
  }

  /** The depth-first walk; `depth` bounds the number of references followed, a negative one does not. The
      ghost arguments only justify that the walk ends. */
  function Dfs(repo: Repo, id: Id, depth: int, lenient: bool, path: seq<Id>, ghost rank: map<Id, nat>,
               ghost m: nat): Trace
    requires if depth >= 0 then m == depth else Ranked(repo, rank) && Rank(rank, id) <= m
    decreases m, 0
  {
    if id !in repo then
      if lenient then Trace([Node(path + [id], true)], None) else Trace([], Some(id))
    else
      var here := Trace([Node(path + [id], false)], None);
      var cs := Children(repo[id]);
      if depth == 0 || cs == [] then here
      else
        assert depth < 0 ==> Rank(rank, cs[0]) < Rank(rank, id);
        Then(here, DfsAll(repo, cs, if depth > 0 then depth - 1 else depth, lenient, path + [id], rank, m - 1))
  }

  function DfsAll(repo: Repo, ids: seq<Id>, depth: int, lenient: bool, path: seq<Id>, ghost rank: map<Id, nat>,
                  ghost m: nat)
    : Trace
    requires if depth >= 0 then m == depth else Ranked(repo, rank) && forall c :: c in ids ==> Rank(rank, c) <= m
    decreases m, |ids| + 1
  {
    if ids == [] then Trace([], None)
    else Then(Dfs(repo, ids[0], depth, lenient, path, rank, m), DfsAll(repo, ids[1..], depth, lenient, path, rank, m))
  }

  /** On acyclic references, no bound is as good as a bound of at least the rank. */
  lemma {:induction false} UnboundedIsDeepEnough(repo: Repo, id: Id, lenient: bool, path: seq<Id>, rank: map<Id, nat>,
                                                 m: nat)
    requires Ranked(repo, rank) && Rank(rank, id) <= m
    ensures Dfs(repo, id, -1, lenient, path, rank, m) == Dfs(repo, id, m, lenient, path, rank, m)
    decreases m, 0
  {
    if id in repo && Children(repo[id]) != [] {
      var cs := Children(repo[id]);
      assert Rank(rank, cs[0]) < Rank(rank, id);
      UnboundedAllIsDeepEnough(repo, cs, lenient, path + [id], rank, m - 1);
    }
  }

  lemma {:induction false} UnboundedAllIsDeepEnough(repo: Repo, ids: seq<Id>, lenient: bool, path: seq<Id>,
                                                    rank: map<Id, nat>, m: nat)
    requires Ranked(repo, rank) && forall c :: c in ids ==> Rank(rank, c) <= m
    ensures DfsAll(repo, ids, -1, lenient, path, rank, m) == DfsAll(repo, ids, m, lenient, path, rank, m)
    decreases m, |ids| + 1
  {
    if ids != [] {
      UnboundedIsDeepEnough(repo, ids[0], lenient, path, rank, m);
      UnboundedAllIsDeepEnough(repo, ids[1..], lenient, path, rank, m);
    }
  }

  // ---------------------------------------------------------------- the walk in preorder

  /** The component reached by following the child positions one after the other. */
  function Walk(repo: Repo, id: Id, ip: seq<nat>): Option<Id>
    decreases |ip|
  {
    if ip == [] then Some(id)
    else if id in repo && ip[0] < |Children(repo[id])| then Walk(repo, Children(repo[id])[ip[0]], ip[1..])
    else None
  }

  /** The identities met on the way. */
  function Trail(repo: Repo, id: Id, ip: seq<nat>): (t: seq<Id>)
    requires Walk(repo, id, ip).Some?
    ensures |t| == |ip| + 1
    ensures t[0] == id && Some(t[|t| - 1]) == Walk(repo, id, ip)
    decreases |ip|
  {
    if ip == [] then [id] else [id] + Trail(repo, Children(repo[id])[ip[0]], ip[1..])
  }

  function NodeAt(repo: Repo, id: Id, path: seq<Id>, ip: seq<nat>): Node
    requires Walk(repo, id, ip).Some?
  {
    Node(path + Trail(repo, id, ip), Walk(repo, id, ip).value !in repo)
  }

  /** Preorder: a node before what lies below it, earlier children before later ones. */
  predicate Before(a: seq<nat>, b: seq<nat>) {
    b != [] && (a == [] || a[0] < b[0] || (a[0] == b[0] && Before(a[1..], b[1..])))
  }

  lemma {:induction false} PreorderIsStrict(a: seq<nat>, b: seq<nat>, c: seq<nat>)
    ensures !Before(a, a) && (Before(a, b) ==> !Before(b, a)) && (a != b ==> Before(a, b) || Before(b, a))
    ensures Before(a, b) && Before(b, c) ==> Before(a, c)
    ensures c != [] ==> Before(a, a + c)
    decreases |a| + |b| + |c|
  {
    if a != [] {
      PreorderIsStrict(a[1..], if b == [] then [] else b[1..], c);
      assert (a + c)[1..] == a[1..] + c;
      assert b != [] ==> a == [a[0]] + a[1..] && b == [b[0]] + b[1..];
      if b != [] && c != [] {
        PreorderIsStrict(a[1..], b[1..], c[1..]);
      }
    } else {
      assert a + c == c;
    }
  }

  /** `ips` lists, in preorder, exactly the walks of at most `d` references that leave from `id`. */
  ghost predicate Lists(repo: Repo, id: Id, d: nat, ips: seq<seq<nat>>) {
    && (forall i, j :: 0 <= i < j < |ips| ==> Before(ips[i], ips[j]))
    && (forall ip :: ip in ips <==> |ip| <= d && Walk(repo, id, ip).Some?)
  }

  /** The same for walks whose first step leads to one of `ids`, counted from position `k` on. */
  ghost predicate ListsFrom(repo: Repo, ids: seq<Id>, k: nat, d: nat, ips: seq<seq<nat>>)
    requires k <= |ids|
  {
    && (forall i, j :: 0 <= i < j < |ips| ==> Before(ips[i], ips[j]))
    && (forall ip :: ip in ips <==>
          ip != [] && k <= ip[0] < |ids| && |ip| <= d + 1 && Walk(repo, ids[ip[0]], ip[1..]).Some?)
  }

  ghost predicate Shows(repo: Repo, id: Id, path: seq<Id>, ips: seq<seq<nat>>, nodes: seq<Node>) {
    && |nodes| == |ips|
    && forall i :: 0 <= i < |ips| ==> Walk(repo, id, ips[i]).Some? && nodes[i] == NodeAt(repo, id, path, ips[i])
  }

  ghost predicate ShowsFrom(repo: Repo, ids: seq<Id>, path: seq<Id>, ips: seq<seq<nat>>, nodes: seq<Node>) {
    && |nodes| == |ips|
    && forall i :: 0 <= i < |ips| ==>
         && ips[i] != [] && ips[i][0] < |ids| && Walk(repo, ids[ips[i][0]], ips[i][1..]).Some?
         && nodes[i] == NodeAt(repo, ids[ips[i][0]], path, ips[i][1..])
  }

  /** With a bound, the lenient walk yields exactly the paths of at most that many references, each once, in
      preorder; missing components end a path. */
  lemma {:induction false} WalkIsPreorder(repo: Repo, id: Id, d: nat, path: seq<Id>, rank: map<Id, nat>)
    returns (ips: seq<seq<nat>>)
    ensures Lists(repo, id, d, ips)
    ensures
      var t := Dfs(repo, id, d, true, path, rank, d);
      t.failed == None && Shows(repo, id, path, ips, t.nodes)
    decreases d, 0
  {
    if id in repo && d > 0 && Children(repo[id]) != [] {
      ips := RootInPreorder(repo, id, d, path, rank);
    } else {
      ips := [[]];
    }
  }

  lemma DfsBelowBound(repo: Repo, id: Id, d: nat, path: seq<Id>, rank: map<Id, nat>) returns (below: Trace)
    requires id in repo && d > 0 && Children(repo[id]) != []
    ensures below == DfsAll(repo, Children(repo[id]), d - 1, true, path + [id], rank, d - 1)
    ensures Dfs(repo, id, d, true, path, rank, d) == Then(Trace([Node(path + [id], false)], None), below)
  {
    below := DfsAll(repo, Children(repo[id]), d - 1, true, path + [id], rank, d - 1);
  }

  lemma {:induction false} RootInPreorder(repo: Repo, id: Id, d: nat, path: seq<Id>, rank: map<Id, nat>)
    returns (ips: seq<seq<nat>>)
    requires id in repo && d > 0 && Children(repo[id]) != []
    ensures Lists(repo, id, d, ips)
    ensures
      var t := Dfs(repo, id, d, true, path, rank, d);
      t.failed == None && Shows(repo, id, path, ips, t.nodes)
    decreases d - 1, |Children(repo[id])| + 3
  {
    var t := DfsBelowBound(repo, id, d, path, rank);
    var below := AllChildrenInPreorder(repo, Children(repo[id]), d - 1, path + [id], rank, t);
    ListsRoot(repo, id, d, below);
    ShowsRoot(repo, id, path, below, t.nodes);
    ips := [[]] + below;
  }

  function Behind(k: nat, ips: seq<seq<nat>>): seq<seq<nat>> {
    seq(|ips|, i requires 0 <= i < |ips| => [k] + ips[i])
  }

  lemma BehindMembers(k: nat, ips: seq<seq<nat>>, ip: seq<nat>)
    ensures ip in Behind(k, ips) <==> ip != [] && ip[0] == k && ip[1..] in ips
  {
    if ip != [] && ip[0] == k && ip[1..] in ips {
      var i :| 0 <= i < |ips| && ips[i] == ip[1..];
      assert Behind(k, ips)[i] == ip;
    }
    if ip in Behind(k, ips) {
      var i :| 0 <= i < |ips| && Behind(k, ips)[i] == ip;
      assert ip[1..] == ips[i];
    }
  }

  lemma ListsOneMore(repo: Repo, ids: seq<Id>, k: nat, d: nat, own: seq<seq<nat>>, rest: seq<seq<nat>>)
    requires k < |ids| && Lists(repo, ids[k], d, own) && ListsFrom(repo, ids, k + 1, d, rest)
    ensures ListsFrom(repo, ids, k, d, Behind(k, own) + rest)
  {
    var first := Behind(k, own);
    var all := first + rest;
    forall ip
      ensures ip in all <==> ip != [] && k <= ip[0] < |ids| && |ip| <= d + 1 && Walk(repo, ids[ip[0]], ip[1..]).Some?
    {
      BehindMembers(k, own, ip);
    }
    forall i, j | 0 <= i < j < |all|
      ensures Before(all[i], all[j])
    {
      if j < |first| {
        assert first[i][1..] == own[i] && first[j][1..] == own[j];
      } else if i < |first| {
        assert rest[j - |first|] in rest;
      }
    }
  }

  lemma ShowsOneMore(repo: Repo, ids: seq<Id>, k: nat, path: seq<Id>, own: seq<seq<nat>>, rest: seq<seq<nat>>,
                     nodes: seq<Node>, more: seq<Node>)
    requires k < |ids| && Shows(repo, ids[k], path, own, nodes) && ShowsFrom(repo, ids, path, rest, more)
    ensures ShowsFrom(repo, ids, path, Behind(k, own) + rest, nodes + more)
  {
    forall i | 0 <= i < |own|
      ensures Behind(k, own)[i][0] == k && Behind(k, own)[i][1..] == own[i]
    {
    }
  }

  lemma {:induction false} ChildrenInPreorder(repo: Repo, ids: seq<Id>, k: nat, d: nat, path: seq<Id>, rank: map<Id,
                                              nat>)
    returns (ips: seq<seq<nat>>)
    requires k <= |ids|
    ensures ListsFrom(repo, ids, k, d, ips)
    ensures
      var t := DfsAll(repo, ids[k..], d, true, path, rank, d);
      t.failed == None && ShowsFrom(repo, ids, path, ips, t.nodes)
    decreases d, |ids| - k + 1
  {
    ips := [];
    if k < |ids| {
      var own := WalkIsPreorder(repo, ids[k], d, path, rank);
      var rest := ChildrenInPreorder(repo, ids, k + 1, d, path, rank);
      assert ids[k..][1..] == ids[k + 1..];
      ips := Behind(k, own) + rest;
      ListsOneMore(repo, ids, k, d, own, rest);
      ShowsOneMore(repo, ids, k, path, own, rest, Dfs(repo, ids[k], d, true, path, rank, d).nodes,
                   DfsAll(repo, ids[k + 1..], d, true, path, rank, d).nodes);
    }
  }

  lemma {:induction false} AllChildrenInPreorder(repo: Repo, ids: seq<Id>, d: nat, path: seq<Id>, rank: map<Id, nat>,
                                                 t: Trace) returns (ips: seq<seq<nat>>)
    requires t == DfsAll(repo, ids, d, true, path, rank, d)
    ensures t.failed == None && ListsFrom(repo, ids, 0, d, ips) && ShowsFrom(repo, ids, path, ips, t.nodes)
    decreases d, |ids| + 2
  {
    ips := ChildrenInPreorder(repo, ids, 0, d, path, rank);
    assert ids[0..] == ids;
  }

  lemma ListsRoot(repo: Repo, id: Id, d: nat, below: seq<seq<nat>>)
    requires id in repo && d > 0 && ListsFrom(repo, Children(repo[id]), 0, d - 1, below)
    ensures Lists(repo, id, d, [[]] + below)
  {
    var all := [[]] + below;
    forall i, j | 0 <= i < j < |all|
      ensures Before(all[i], all[j])
    {
      assert below[j - 1] in below;
    }
  }

  lemma ShowsRoot(repo: Repo, id: Id, path: seq<Id>, below: seq<seq<nat>>, nodes: seq<Node>)
    requires id in repo && ShowsFrom(repo, Children(repo[id]), path + [id], below, nodes)
    ensures Shows(repo, id, path, [[]] + below, [Node(path + [id], false)] + nodes)
  {
    var cs, all := Children(repo[id]), [[]] + below;
    forall i | 0 <= i < |below|
      ensures Walk(repo, id, below[i]).Some? && nodes[i] == NodeAt(repo, id, path, below[i])
    {
      var ip := below[i];
      assert path + Trail(repo, id, ip) == path + [id] + Trail(repo, cs[ip[0]], ip[1..]);
    }
  }

  // ---------------------------------------------------------------- strict walks

  /** Position of the first missing component, the length if there is none. */
  function FirstMissing(nodes: seq<Node>): (k: nat)
    ensures k <= |nodes|
    ensures k < |nodes| ==> nodes[k].missing
    ensures forall i :: 0 <= i < k ==> !nodes[i].missing
  {
    if nodes == [] || nodes[0].missing then 0 else 1 + FirstMissing(nodes[1..])
  }

  lemma FirstMissingAppends(a: seq<Node>, b: seq<Node>)
    ensures FirstMissing(a + b) == if FirstMissing(a) < |a| then FirstMissing(a) else |a| + FirstMissing(b)
  {
    var k, n := FirstMissing(a + b), if FirstMissing(a) < |a| then FirstMissing(a) else |a| + FirstMissing(b);
    assert n < |a + b| ==> (a + b)[n].missing;
    assert forall i :: 0 <= i < n ==> !(a + b)[i].missing;
  }

  /** The strict walk is the lenient one up to its first missing component, which it reports. */
  ghost predicate StopsAtFirstMissing(strict: Trace, lenient: Trace) {
    && lenient.failed == None
    && var k := FirstMissing(lenient.nodes);
       if k == |lenient.nodes| then strict == lenient
       else
         && lenient.nodes[k].path != []
         && strict == Trace(lenient.nodes[..k], Some(lenient.nodes[k].path[|lenient.nodes[k].path| - 1]))
  }

  lemma StopsInSequence(a: Trace, a': Trace, b: Trace, b': Trace)
    requires StopsAtFirstMissing(a, a') && StopsAtFirstMissing(b, b')
    ensures StopsAtFirstMissing(Then(a, b), Then(a', b'))
  {
    FirstMissingAppends(a'.nodes, b'.nodes);
    var k := FirstMissing(a'.nodes + b'.nodes);
    if k < |a'.nodes| {
      assert (a'.nodes + b'.nodes)[..k] == a'.nodes[..k];
    } else {
      assert (a'.nodes + b'.nodes)[..k] == a'.nodes + b'.nodes[..k - |a'.nodes|];
    }
  }

  lemma {:induction false} StrictWalkStops(repo: Repo, id: Id, depth: int, path: seq<Id>, rank: map<Id, nat>, m: nat)
    requires if depth >= 0 then m == depth else Ranked(repo, rank) && Rank(rank, id) <= m
    ensures StopsAtFirstMissing(Dfs(repo, id, depth, false, path, rank, m), Dfs(repo, id, depth, true, path, rank, m))
    decreases m, 0
  {
    if id in repo && depth != 0 && Children(repo[id]) != [] {
      var cs := Children(repo[id]);
      assert depth < 0 ==> Rank(rank, cs[0]) < Rank(rank, id);
      StrictWalksStop(repo, cs, if depth > 0 then depth - 1 else depth, path + [id], rank, m - 1);
      var here := Trace([Node(path + [id], false)], None);
      StopsInSequence(here, here,
                      DfsAll(repo, cs, if depth > 0 then depth - 1 else depth, false, path + [id], rank, m - 1),
                      DfsAll(repo, cs, if depth > 0 then depth - 1 else depth, true, path + [id], rank, m - 1));
    }
  }

  lemma {:induction false} StrictWalksStop(repo: Repo, ids: seq<Id>, depth: int, path: seq<Id>, rank: map<Id, nat>,
                                           m: nat)
    requires if depth >= 0 then m == depth else Ranked(repo, rank) && forall c :: c in ids ==> Rank(rank, c) <= m
    ensures
      StopsAtFirstMissing(DfsAll(repo, ids, depth, false, path, rank, m), DfsAll(repo, ids, depth, true, path, rank, m))
    decreases m, |ids| + 1
  {
    if ids != [] {
      StrictWalkStops(repo, ids[0], depth, path, rank, m);
      StrictWalksStop(repo, ids[1..], depth, path, rank, m);
      StopsInSequence(Dfs(repo, ids[0], depth, false, path, rank, m), Dfs(repo, ids[0], depth, true, path, rank, m),
                      DfsAll(repo, ids[1..], depth, false, path, rank, m),
                      DfsAll(repo, ids[1..], depth, true, path, rank, m));
    }
  }

  // ---------------------------------------------------------------- both searches agree

  /** The unbounded walk shows the component, found. */
  ghost predicate Visits(nodes: seq<Node>, id: Id) {
    exists i :: 0 <= i < |nodes| && !nodes[i].missing && nodes[i].path != [] && nodes[i].path[|nodes[i].path| - 1] == id
  }

  ghost predicate PlainReferences(repo: Repo) {
    forall id :: id in repo ==> repo[id].extraRefs == [] && forall c :: c in repo[id].refs ==> Usable(c)
  }

  lemma {:induction false} WalkIsReachable(repo: Repo, root: Id, id: Id, ip: seq<nat>, end: Id)
    requires PlainReferences(repo) && Reachable(repo, root, id)
    requires Walk(repo, id, ip) == Some(end) && end in repo
    ensures Reachable(repo, root, end)
    decreases |ip|
  {
    if ip != [] {
      var c := Children(repo[id])[ip[0]];
      assert c in repo[id].refs;
      if c in repo {
        ReachesFurther(repo, root, id, c);
        WalkIsReachable(repo, root, c, ip[1..], end);
      }
    }
  }

  lemma {:induction false} PathIsWalk(repo: Repo, p: seq<Id>) returns (ip: seq<nat>)
    requires PlainReferences(repo) && Path(repo, p)
    ensures Walk(repo, p[0], ip) == Some(p[|p| - 1])
  {
    if |p| == 1 {
      ip := [];
    } else {
      assert Edge(repo, p[0], p[1]);
      var k: nat :| k < |repo[p[0]].refs| && repo[p[0]].refs[k] == p[1];
      forall i | 0 <= i < |p[1..]| - 1
        ensures Edge(repo, p[1..][i], p[1..][i + 1])
      {
        assert Edge(repo, p[i + 1], p[i + 2]);
      }
      var rest := PathIsWalk(repo, p[1..]);
      ip := [k] + rest;
      assert Children(repo[p[0]])[k] == p[1] && ip[1..] == rest;
    }
  }

  lemma {:induction false} WalkFitsRank(repo: Repo, id: Id, ip: seq<nat>, rank: map<Id, nat>)
    requires Ranked(repo, rank) && Walk(repo, id, ip).Some?
    ensures |ip| <= Rank(rank, id)
    decreases |ip|
  {
    if ip != [] {
      var c := Children(repo[id])[ip[0]];
      assert c in Children(repo[id]);
      WalkFitsRank(repo, c, ip[1..], rank);
    }
  }

  lemma {:induction false} PathEndsInRepo(repo: Repo, a: Id, b: Id)
    requires Reachable(repo, a, b)
    ensures b in repo
  {
    var p :| PathBetween(repo, p, a, b);
    assert |p| > 1 ==> Edge(repo, p[|p| - 2], p[|p| - 1]);
  }

  lemma ReachableIsListed(repo: Repo, root: Id, rank: map<Id, nat>, id: Id, ips: seq<seq<nat>>) returns (i: nat)
    requires PlainReferences(repo) && Ranked(repo, rank) && Reachable(repo, root, id)
    requires Lists(repo, root, Rank(rank, root), ips)
    ensures i < |ips| && Walk(repo, root, ips[i]) == Some(id) && id in repo
  {
    PathEndsInRepo(repo, root, id);
    var p :| PathBetween(repo, p, root, id);
    var ip := PathIsWalk(repo, p);
    WalkFitsRank(repo, root, ip, rank);
    i :| 0 <= i < |ips| && ips[i] == ip;
  }

  /** On acyclic references without extra ones, the unbounded walk finds exactly the components the recursive
      search covers. */
  lemma WalkFindsReachable(repo: Repo, root: Id, rank: map<Id, nat>, id: Id)
    requires root in repo && PlainReferences(repo) && Ranked(repo, rank)
    ensures Visits(Dfs(repo, root, -1, true, [], rank, Rank(rank, root)).nodes, id) <==> Reachable(repo, root, id)
  {
    var m := Rank(rank, root);
    UnboundedIsDeepEnough(repo, root, true, [], rank, m);
    var ips := WalkIsPreorder(repo, root, m, [], rank);
    var nodes := Dfs(repo, root, m, true, [], rank, m).nodes;
    if Visits(nodes, id) {
      VisitedIsReachable(repo, root, ips, nodes, id);
    }
    if Reachable(repo, root, id) {
      var i := ReachableIsListed(repo, root, rank, id, ips);
    }
  }

  lemma VisitedIsReachable(repo: Repo, root: Id, ips: seq<seq<nat>>, nodes: seq<Node>, id: Id)
    requires root in repo && PlainReferences(repo) && Shows(repo, root, [], ips, nodes) && Visits(nodes, id)
    ensures Reachable(repo, root, id)
  {
    var i :| 0 <= i < |nodes| && !nodes[i].missing && nodes[i].path != [] && nodes[i].path[|nodes[i].path| - 1] == id;
    assert nodes[i] == NodeAt(repo, root, [], ips[i]);
    ReachesItself(repo, root);
    WalkIsReachable(repo, root, root, ips[i], id);
  }

}
