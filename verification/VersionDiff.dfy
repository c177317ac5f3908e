/**
 The merged difference between two sets of component versions, and the changes derived from it. Of every component
 only one version is kept on either side, the greatest by semantic-version precedence, which is modelled in full; how
 a version is parsed is a parameter. Components are compared by name and version. (src/dora.py)
 */
module VersionDiff {
  import opened Common

  // ---------------------------------------------------------------- precedence

  /** A prerelease identifier: numeric ones rank below texts. */
  datatype Identifier = Numeric(n: nat) | Alphanumeric(text: string)

  /** Build metadata takes no part in precedence. */
  datatype Version = Version(major: nat, minor: nat, patch: nat, prerelease: seq<Identifier>)

  predicate IdentifierLess(a: Identifier, b: Identifier) {
    match (a, b)
    case (Numeric(m), Numeric(n)) => m < n
    case (Numeric(_), Alphanumeric(_)) => true
    case (Alphanumeric(_), Numeric(_)) => false
    case (Alphanumeric(s), Alphanumeric(t)) => s != t && TextLe(s, t)
  }

  /** Identifier by identifier; of two equal beginnings the shorter list ranks lower. */
  predicate PrereleaseLess(a: seq<Identifier>, b: seq<Identifier>) {
    if b == [] then false
    else if a == [] then true
    else IdentifierLess(a[0], b[0]) || (a[0] == b[0] && PrereleaseLess(a[1..], b[1..]))
  }

  /** Precedence by section 11 of Semantic Versioning 2.0.0. */
  predicate Less(a: Version, b: Version) {
    if a.major != b.major then a.major < b.major
    else if a.minor != b.minor then a.minor < b.minor
    else if a.patch != b.patch then a.patch < b.patch
    else if a.prerelease == [] then false
    else if b.prerelease == [] then true
    else PrereleaseLess(a.prerelease, b.prerelease)
  }

  lemma IdentifierOrder(a: Identifier, b: Identifier, c: Identifier)
    ensures IdentifierLess(a, b) || a == b || IdentifierLess(b, a)
    ensures !(IdentifierLess(a, b) && IdentifierLess(b, a)) && !IdentifierLess(a, a)
    ensures IdentifierLess(a, b) && IdentifierLess(b, c) ==> IdentifierLess(a, c)
  {
    if a.Alphanumeric? && b.Alphanumeric? {
      TextLeTotal(a.text, b.text);
      if TextLe(a.text, b.text) && TextLe(b.text, a.text) {
        TextLeAntisymmetric(a.text, b.text);
      }
      if c.Alphanumeric? && TextLe(a.text, b.text) && TextLe(b.text, c.text) {
        TextLeTransitive(a.text, b.text, c.text);
        if a == c {
          TextLeAntisymmetric(a.text, b.text);
        }
      }
    }
  }

  lemma {:induction false} PrereleaseOrder(a: seq<Identifier>, b: seq<Identifier>, c: seq<Identifier>)
    ensures PrereleaseLess(a, b) || a == b || PrereleaseLess(b, a)
    ensures !(PrereleaseLess(a, b) && PrereleaseLess(b, a)) && !PrereleaseLess(a, a)
    ensures PrereleaseLess(a, b) && PrereleaseLess(b, c) ==> PrereleaseLess(a, c)
    decreases |a| + |b| + |c|
  {
    if a != [] && b != [] {
      IdentifierOrder(a[0], b[0], if c != [] then c[0] else a[0]);
      PrereleaseOrder(a[1..], b[1..], if c != [] then c[1..] else []);
      assert a == [a[0]] + a[1..] && b == [b[0]] + b[1..];
      if c != [] {
        IdentifierOrder(b[0], c[0], a[0]);
        IdentifierOrder(a[0], c[0], b[0]);
      }
    } else if a != [] {
      PrereleaseOrder(a[1..], [], []);
      IdentifierOrder(a[0], a[0], a[0]);
    }
  }

  /** Precedence is a strict total order on versions (their build metadata left off). */
  lemma PrecedenceOrder(a: Version, b: Version, c: Version)
    ensures Less(a, b) || a == b || Less(b, a)
    ensures !(Less(a, b) && Less(b, a))
    ensures Less(a, b) && Less(b, c) ==> Less(a, c)
  {
    PrereleaseOrder(a.prerelease, b.prerelease, c.prerelease);
  }

  /** What section 11 of Semantic Versioning 2.0.0 says of two versions: the first number that differs decides; a
      release ranks above its prereleases; of two prereleases the first identifier that differs decides, numbers by
      value and below texts, or else the longer list ranks above. */
  lemma {:induction false} PrecedenceBySection11(v: Version, w: Version, common: seq<Identifier>, x: Identifier,
                                                 y: Identifier, p: seq<Identifier>, q: seq<Identifier>)
    ensures v.major < w.major ==> Less(v, w)
    ensures v.major == w.major && v.minor < w.minor ==> Less(v, w)
    ensures v.major == w.major && v.minor == w.minor && v.patch < w.patch ==> Less(v, w)
    ensures p != [] ==> Less(v.(prerelease := p), v.(prerelease := []))
    ensures p != [] && q != [] ==> Less(v.(prerelease := p), v.(prerelease := p + q))
    ensures
      var a, b := v.(prerelease := common + [x] + p), v.(prerelease := common + [y] + q);
      && (x.Numeric? && y.Numeric? && x.n < y.n ==> Less(a, b))
      && (x.Numeric? && y.Alphanumeric? ==> Less(a, b))
      && (x.Alphanumeric? && y.Alphanumeric? && x.text != y.text && TextLe(x.text, y.text) ==> Less(a, b))
  {
    CommonPrefix(common, [x] + p, [y] + q);
    assert common + [x] + p == common + ([x] + p) && common + [y] + q == common + ([y] + q);
    CommonPrefix(p, [], q);
    assert p + [] == p;
  }

  lemma {:induction false} CommonPrefix(common: seq<Identifier>, p: seq<Identifier>, q: seq<Identifier>)
    ensures PrereleaseLess(common + p, common + q) <==> PrereleaseLess(p, q)
  {
    if common == [] {
      assert common + p == p && common + q == q;
    } else {
      CommonPrefix(common[1..], p, q);
      assert (common + p)[1..] == common[1..] + p && (common + q)[1..] == common[1..] + q;
      IdentifierOrder(common[0], common[0], common[0]);
    }
  }

  // ---------------------------------------------------------------- one version per component

  datatype Component = Component(name: string, version: string)

  /** `a` has greater precedence than `b`. */
  predicate Newer(a: Component, b: Component, parse: string -> Version) {
    Less(parse(b.version), parse(a.version))
  }

  ghost predicate GreatestAt(cs: seq<Component>, i: int, parse: string -> Version) {
    && 0 <= i < |cs|
    && (forall j :: 0 <= j < |cs| ==> !Newer(cs[j], cs[i], parse))
    && (forall j :: 0 <= j < i ==> Newer(cs[i], cs[j], parse))
  }

  /** The first of the greatest versions. */
  ghost predicate IsGreatest(g: Component, cs: seq<Component>, parse: string -> Version) {
    exists i :: GreatestAt(cs, i, parse) && cs[i] == g
  }

  lemma GreatestIsUnique(g: Component, h: Component, cs: seq<Component>, parse: string -> Version)
    requires IsGreatest(g, cs, parse) && IsGreatest(h, cs, parse)
    ensures g == h
  {
    var i :| GreatestAt(cs, i, parse) && cs[i] == g;
    var k :| GreatestAt(cs, k, parse) && cs[k] == h;
    assert !Newer(g, h, parse) && !Newer(h, g, parse);
  }

  method GreatestVersion(cs: seq<Component>, parse: string -> Version) returns (g: Component)
    requires cs != []
    ensures IsGreatest(g, cs, parse)
  {
    g := cs[0];
    ghost var at: nat := 0;
    PrecedenceOrder(parse(g.version), parse(g.version), parse(g.version));
    for i := 1 to |cs|
      invariant 0 <= at < i && cs[at] == g
      invariant forall j :: 0 <= j < i ==> !Newer(cs[j], g, parse)
      invariant forall j :: 0 <= j < at ==> Newer(g, cs[j], parse)
    {
      if Newer(cs[i], g, parse) {
        forall j | 0 <= j < i
          ensures Newer(cs[i], cs[j], parse) && !Newer(cs[j], cs[i], parse)
        {
          PrecedenceOrder(parse(cs[j].version), parse(g.version), parse(cs[i].version));
          PrecedenceOrder(parse(cs[j].version), parse(cs[i].version), parse(cs[j].version));
        }
        PrecedenceOrder(parse(cs[i].version), parse(cs[i].version), parse(cs[i].version));
        g := cs[i];
        at := i;
      }
    }
    assert GreatestAt(cs, at, parse);
  }

  function Names(cs: seq<Component>): set<string> {
    set c | c in cs :: c.name
  }

  function Group(cs: seq<Component>, name: string): seq<Component> {
    if cs == [] then []
    else
      var n := |cs| - 1;
      Group(cs[..n], name) + if cs[n].name == name then [cs[n]] else []
  }

  lemma {:induction false} GroupMembers(cs: seq<Component>, name: string, c: Component)
    ensures c in Group(cs, name) <==> c in cs && c.name == name
  {
    if cs != [] {
      var n := |cs| - 1;
      GroupMembers(cs[..n], name, c);
      assert cs == cs[..n] + [cs[n]];
    }
  }

  /** Exactly one component of every name, the greatest. */
  ghost predicate OneGreatestEach(gs: seq<Component>, cs: seq<Component>, parse: string -> Version) {
    && Names(gs) == Names(cs)
    && (forall i, j :: 0 <= i < j < |gs| ==> gs[i].name != gs[j].name)
    && (forall i :: 0 <= i < |gs| ==> IsGreatest(gs[i], Group(cs, gs[i].name), parse))
  }

  ghost predicate Grouped(names: seq<string>, byName: map<string, seq<Component>>, cs: seq<Component>) {
    && Distinct(names) && (forall n :: n in names <==> n in byName)
    && (forall n :: n in byName ==> byName[n] == Group(cs, n) && byName[n] != [])
    && (forall n :: n !in byName ==> Group(cs, n) == [])
  }

  lemma GroupedNext(names: seq<string>, byName: map<string, seq<Component>>, cs: seq<Component>, c: Component)
    requires Grouped(names, byName, cs)
    ensures
      if c.name in byName then Grouped(names, byName[c.name := byName[c.name] + [c]], cs + [c])
      else Grouped(names + [c.name], byName[c.name := [c]], cs + [c])
  {
    var grown := byName[c.name := (if c.name in byName then byName[c.name] else []) + [c]];
    assert [] + [c] == [c];
    forall n
      ensures Group(cs + [c], n) == if n in grown then grown[n] else []
    {
      GroupAppends(cs, c, n);
    }
  }

  lemma GroupAppends(cs: seq<Component>, c: Component, name: string)
    ensures Group(cs + [c], name) == Group(cs, name) + if c.name == name then [c] else []
  {
    assert (cs + [c])[..|cs|] == cs;
  }

  lemma GroupedNames(names: seq<string>, byName: map<string, seq<Component>>, cs: seq<Component>, n: string)
    requires Grouped(names, byName, cs)
    ensures n in names <==> n in Names(cs)
  {
    if n in names {
      GroupMembers(cs, n, byName[n][0]);
    }
    if n in Names(cs) {
      var c :| c in cs && c.name == n;
      GroupMembers(cs, n, c);
    }
  }

  method GroupByName(cs: seq<Component>) returns (names: seq<string>, byName: map<string, seq<Component>>)
    ensures Grouped(names, byName, cs)
  {
    names, byName := [], map[];
    for i := 0 to |cs|
      invariant Grouped(names, byName, cs[..i])
    {
      var c := cs[i];
      assert cs[..i + 1] == cs[..i] + [c];
      GroupedNext(names, byName, cs[..i], c);
      if c.name !in byName {
        names := names + [c.name];
        byName := byName[c.name := []];
      }
      byName := byName[c.name := byName[c.name] + [c]];
    }
    assert cs[..|cs|] == cs;
  }

  method GreatestOfName(cs: seq<Component>, parse: string -> Version) returns (g: Component)
    requires cs != []
    ensures IsGreatest(g, cs, parse) && g in cs
  {
    if |cs| == 1 {
      g := cs[0];
      PrecedenceOrder(parse(g.version), parse(g.version), parse(g.version));
      assert GreatestAt(cs, 0, parse);
    } else {
      g := GreatestVersion(cs, parse);
    }
  }

  method OnlyGreatestVersions(cs: seq<Component>, parse: string -> Version) returns (gs: seq<Component>)
    ensures OneGreatestEach(gs, cs, parse)
  {
    var names, byName := GroupByName(cs);
    gs := [];
    for i := 0 to |names|
      invariant |gs| == i && forall k :: 0 <= k < i ==> gs[k].name == names[k]
      invariant forall k :: 0 <= k < i ==> IsGreatest(gs[k], Group(cs, gs[k].name), parse)
    {
      assert names[i] in names;
      var g := GreatestOfName(byName[names[i]], parse);
      GroupMembers(cs, names[i], g);
      gs := gs + [g];
    }
    forall n
      ensures n in Names(gs) <==> n in Names(cs)
    {
      GroupedNames(names, byName, cs, n);
    }
  }

  // ---------------------------------------------------------------- the difference

  datatype Diff = Diff(changed: seq<(Component, Component)>, onlyLeft: set<string>, onlyRight: set<string>,
                       changedNames: set<string>)

  function Identities(cs: seq<Component>): set<Component> {
    set c | c in cs
  }

  function Without(cs: seq<Component>, ids: set<Component>): (r: seq<Component>)
    ensures forall c :: c in r <==> c in cs && c !in ids
  {
    if cs == [] then []
    else
      var n := |cs| - 1;
      assert cs == cs[..n] + [cs[n]];
      Without(cs[..n], ids) + if cs[n] in ids then [] else [cs[n]]
  }

  ghost predicate UniqueNames(cs: seq<Component>) {
    forall i, j :: 0 <= i < j < |cs| ==> cs[i].name != cs[j].name
  }

  lemma {:induction false} WithoutUnique(cs: seq<Component>, ids: set<Component>)
    requires UniqueNames(cs)
    ensures UniqueNames(Without(cs, ids))
  {
    if cs != [] {
      var n := |cs| - 1;
      WithoutUnique(cs[..n], ids);
      var before := Without(cs[..n], ids);
      forall i | 0 <= i < |before|
        ensures before[i].name != cs[n].name
      {
        assert before[i] in before;
      }
    }
  }

  method FindByName(cs: seq<Component>, name: string) returns (r: Option<Component>)
    requires UniqueNames(cs)
    ensures r.Some? ==> r.value in cs && r.value.name == name
    ensures forall c :: c in cs && c.name == name ==> r == Some(c)
  {
    for i := 0 to |cs|
      invariant forall k :: 0 <= k < i ==> cs[k].name != name
    {
      if cs[i].name == name {
        return Some(cs[i]);
      }
    }
    r := None;
  }

  /** The component is the version kept of its name. */
  ghost predicate Keeps(cs: seq<Component>, parse: string -> Version, c: Component) {
    c.name in Names(cs) && IsGreatest(c, Group(cs, c.name), parse)
  }

  lemma KeptIsListed(gs: seq<Component>, cs: seq<Component>, parse: string -> Version, c: Component)
    requires OneGreatestEach(gs, cs, parse)
    ensures c in gs <==> Keeps(cs, parse, c)
  {
    if c in gs {
      assert c.name in Names(gs);
    }
    if Keeps(cs, parse, c) {
      var g :| g in gs && g.name == c.name;
      GreatestIsUnique(g, c, Group(cs, c.name), parse);
    }
  }

  lemma KeptAreListed(gs: seq<Component>, cs: seq<Component>, parse: string -> Version)
    requires OneGreatestEach(gs, cs, parse)
    ensures forall c :: c in Identities(gs) <==> Keeps(cs, parse, c)
    ensures forall c :: c in gs <==> Keeps(cs, parse, c)
  {
    forall c
      ensures c in gs <==> Keeps(cs, parse, c)
    {
      KeptIsListed(gs, cs, parse, c);
    }
  }

  /** The pairs are those of equally named, different components kept on either side, one for each such name. */
  ghost predicate PairsChanged(pairs: seq<(Component, Component)>, cs: seq<Component>, ds: seq<Component>,
                               parse: string -> Version) {
    && (forall a, b :: (a, b) in pairs <==> Keeps(cs, parse, a) && Keeps(ds, parse, b) && a.name == b.name && a != b)
    && (forall i, j :: 0 <= i < j < |pairs| ==> pairs[i].0.name != pairs[j].0.name)
  }

  method ChangedPairs(leftOnly: seq<Component>, rightOnly: seq<Component>) returns (pairs: seq<(Component, Component)>)
    requires UniqueNames(leftOnly) && UniqueNames(rightOnly)
    ensures forall a, b :: (a, b) in pairs <==> a in leftOnly && b in rightOnly && a.name == b.name
    ensures forall i, j :: 0 <= i < j < |pairs| ==> pairs[i].0.name != pairs[j].0.name
  {
    pairs := [];
    for i := 0 to |leftOnly|
      invariant forall a, b :: (a, b) in pairs <==> a in leftOnly[..i] && b in rightOnly && a.name == b.name
      invariant forall k, l :: 0 <= k < l < |pairs| ==> pairs[k].0.name != pairs[l].0.name
    {
      var a := leftOnly[i];
      assert leftOnly[..i + 1] == leftOnly[..i] + [a];
      var found := FindByName(rightOnly, a.name);
      if found.Some? {
        forall k | 0 <= k < |pairs|
          ensures pairs[k].0.name != a.name
        {
          assert (pairs[k].0, pairs[k].1) in pairs;
        }
        pairs := pairs + [(a, found.value)];
      }
    }
    assert leftOnly[..|leftOnly|] == leftOnly;
  }

  /** No difference exactly if both sides keep the same components; otherwise the changed pairs and the names found
      on one side only. */
  method DiffComponents(cs: seq<Component>, ds: seq<Component>, parse: string -> Version) returns (r: Option<Diff>)
    ensures r.None? <==> forall c :: Keeps(cs, parse, c) <==> Keeps(ds, parse, c)
    ensures
      r.Some? ==>
        && PairsChanged(r.value.changed, cs, ds, parse)
        && r.value.onlyLeft == Names(cs) - Names(ds) && r.value.onlyRight == Names(ds) - Names(cs)
        && r.value.changedNames == set p | p in r.value.changed :: p.0.name
  {
    var olds := OnlyGreatestVersions(cs, parse);
    var news := OnlyGreatestVersions(ds, parse);
    var oldIds, newIds := Identities(olds), Identities(news);
    var oldOnly, newOnly := Without(olds, newIds), Without(news, oldIds);
    SameIfKept(olds, news, cs, ds, parse);
    if oldIds - newIds == newIds - oldIds {
      return None;
    }
    WithoutUnique(olds, newIds);
    WithoutUnique(news, oldIds);
    var pairs := ChangedPairs(oldOnly, newOnly);
    PairsOfDifferent(pairs, olds, news);
    PairsOfKept(pairs, olds, news, cs, ds, parse);
    var oldNames, newNames := Names(olds), Names(news);
    var both := oldNames * newNames;
    WithoutBoth(oldNames, newNames);
    r := Some(Diff(pairs, oldNames - both, newNames - both, set p | p in pairs :: p.0.name));
  }

  lemma WithoutBoth<T>(a: set<T>, b: set<T>)
    ensures a - a * b == a - b && b - a * b == b - a
  {
  }

  lemma SameIfKept(olds: seq<Component>, news: seq<Component>, cs: seq<Component>, ds: seq<Component>,
                   parse: string -> Version)
    requires OneGreatestEach(olds, cs, parse) && OneGreatestEach(news, ds, parse)
    ensures
      (forall c :: Keeps(cs, parse, c) <==> Keeps(ds, parse, c)) <==>
      Identities(olds) - Identities(news) == Identities(news) - Identities(olds)
  {
    KeptAreListed(olds, cs, parse);
    KeptAreListed(news, ds, parse);
    SameIfNoneLeft(Identities(olds), Identities(news));
    if c :| Keeps(cs, parse, c) != Keeps(ds, parse, c) {
      assert (c in Identities(olds)) != (c in Identities(news));
    }
  }

  lemma PairsOfKept(pairs: seq<(Component, Component)>, olds: seq<Component>, news: seq<Component>,
                    cs: seq<Component>, ds: seq<Component>, parse: string -> Version)
    requires OneGreatestEach(olds, cs, parse) && OneGreatestEach(news, ds, parse)
    requires forall a, b :: (a, b) in pairs <==> a in olds && b in news && a.name == b.name && a != b
    requires forall i, j :: 0 <= i < j < |pairs| ==> pairs[i].0.name != pairs[j].0.name
    ensures PairsChanged(pairs, cs, ds, parse)
  {
    KeptAreListed(olds, cs, parse);
    KeptAreListed(news, ds, parse);
  }

  lemma SameIfNoneLeft<T>(a: set<T>, b: set<T>)
    ensures a - b == b - a <==> forall x :: x in a <==> x in b
  {
    if a - b == b - a {
      forall x
        ensures x in a <==> x in b
      {
        assert x in a - b <==> x in b - a;
      }
    }
  }

  lemma PairsOfDifferent(pairs: seq<(Component, Component)>, left: seq<Component>, right: seq<Component>)
    requires UniqueNames(left) && UniqueNames(right)
    requires
      forall a, b :: (a, b) in pairs <==>
        a in Without(left, Identities(right)) && b in Without(right, Identities(left)) && a.name == b.name
    ensures forall a, b :: (a, b) in pairs <==> a in left && b in right && a.name == b.name && a != b
  {
    forall a, b | a in left && b in right && a.name == b.name && a != b
      ensures a !in right && b !in left
    {
    }
  }

  lemma {:induction false} GreatestExists(cs: seq<Component>, parse: string -> Version) returns (g: Component)
    requires cs != []
    ensures IsGreatest(g, cs, parse)
  {
    var n := |cs| - 1;
    if n == 0 {
      g := cs[0];
      PrecedenceOrder(parse(g.version), parse(g.version), parse(g.version));
      assert GreatestAt(cs, 0, parse);
    } else {
      g := GreatestExists(cs[..n], parse);
      var i :| GreatestAt(cs[..n], i, parse) && cs[..n][i] == g;
      forall j | 0 <= j < n
        ensures !Newer(cs[j], g, parse) && (j < i ==> Newer(g, cs[j], parse))
      {
        assert cs[..n][j] == cs[j];
      }
      if Newer(cs[n], g, parse) {
        forall j | 0 <= j < n
          ensures Newer(cs[n], cs[j], parse) && !Newer(cs[j], cs[n], parse)
        {
          PrecedenceOrder(parse(cs[j].version), parse(g.version), parse(cs[n].version));
          PrecedenceOrder(parse(cs[j].version), parse(cs[n].version), parse(cs[j].version));
        }
        g := cs[n];
        PrecedenceOrder(parse(g.version), parse(g.version), parse(g.version));
        assert GreatestAt(cs, n, parse);
      } else {
        assert cs[i] == g;
        assert GreatestAt(cs, i, parse);
      }
    }
  }

  lemma KeptExists(cs: seq<Component>, parse: string -> Version, name: string) returns (c: Component)
    requires name in Names(cs)
    ensures Keeps(cs, parse, c) && c.name == name
  {
    var d :| d in cs && d.name == name;
    GroupMembers(cs, name, d);
    c := GreatestExists(Group(cs, name), parse);
    GroupMembers(cs, name, c);
  }

  lemma ChangedIsNotSame(cs: seq<Component>, ds: seq<Component>, parse: string -> Version, a: Component, b: Component,
                         c: Component)
    requires Keeps(cs, parse, a) && Keeps(ds, parse, b) && a.name == b.name && a != b
    ensures !(Keeps(cs, parse, c) && Keeps(ds, parse, c) && c.name == a.name)
  {
    if Keeps(cs, parse, c) && c.name == a.name {
      GreatestIsUnique(a, c, Group(cs, a.name), parse);
    }
    if Keeps(ds, parse, c) && c.name == a.name {
      GreatestIsUnique(b, c, Group(ds, a.name), parse);
    }
  }

  /** Every name falls into exactly one class: left only, right only, changed, or the same on both sides. */
  lemma NamesArePartitioned(cs: seq<Component>, ds: seq<Component>, parse: string -> Version,
                            pairs: seq<(Component, Component)>, name: string)
    requires PairsChanged(pairs, cs, ds, parse) && name in Names(cs) + Names(ds)
    ensures
      var onlyLeft, onlyRight := name in Names(cs) - Names(ds), name in Names(ds) - Names(cs);
      var changed := exists i :: 0 <= i < |pairs| && pairs[i].0.name == name;
      var same := exists c :: Keeps(cs, parse, c) && Keeps(ds, parse, c) && c.name == name;
      && (onlyLeft || onlyRight || changed || same)
      && !(onlyLeft && (onlyRight || changed || same)) && !(onlyRight && (changed || same)) && !(changed && same)
  {
    forall i | 0 <= i < |pairs|
      ensures Keeps(cs, parse, pairs[i].0) && Keeps(ds, parse, pairs[i].1)
      ensures pairs[i].0.name == pairs[i].1.name && pairs[i].0 != pairs[i].1
    {
      assert (pairs[i].0, pairs[i].1) in pairs;
    }
    forall i, c | 0 <= i < |pairs| && pairs[i].0.name == name
      ensures !(Keeps(cs, parse, c) && Keeps(ds, parse, c) && c.name == name)
    {
      ChangedIsNotSame(cs, ds, parse, pairs[i].0, pairs[i].1, c);
    }
    if name in Names(cs) && name in Names(ds) {
      var a := KeptExists(cs, parse, name);
      var b := KeptExists(ds, parse, name);
      if a != b {
        assert (a, b) in pairs;
      }
    }
  }

  // ---------------------------------------------------------------- derived changes

  function ChangesIn(pairs: seq<(Component, Component)>, filter: seq<string>, rising: bool, parse: string -> Version)
    : seq<(Component, Component)>
  {
    if pairs == [] then []
    else
      var n := |pairs| - 1;
      var (a, b) := pairs[n];
      ChangesIn(pairs[..n], filter, rising, parse)
      + if (filter == [] || a.name in filter) && (Newer(b, a, parse) || (!rising && Newer(a, b, parse)))
        then [pairs[n]] else []
  }

  datatype Error = NoDiff

  /** Keeps, in order, the pairs whose name passes the filter and whose versions differ in precedence, rising only if
      asked for. */
  method DependencyChanges(diff: Option<Diff>, filter: seq<string>, rising: bool, parse: string -> Version)
    returns (r: Result<seq<(Component, Component)>, Error>)
    ensures r == if diff.None? then Err(NoDiff) else Ok(ChangesIn(diff.value.changed, filter, rising, parse))
  {
    if diff.None? {
      return Err(NoDiff);
    }
    var pairs := diff.value.changed;
    var changes: seq<(Component, Component)> := [];
    for i := 0 to |pairs|
      invariant changes == ChangesIn(pairs[..i], filter, rising, parse)
    {
      assert pairs[..i + 1][..i] == pairs[..i];
      var (left, right) := pairs[i];
      if filter != [] && left.name !in filter {
        continue;
      }
      var leftVersion, rightVersion := parse(left.version), parse(right.version);
      PrecedenceOrder(leftVersion, rightVersion, leftVersion);
      if rising {
        if !Less(leftVersion, rightVersion) {
          continue;
        }
      } else if leftVersion == rightVersion {
        continue;
      }
      changes := changes + [pairs[i]];
    }
    assert pairs[..|pairs|] == pairs;
    r := Ok(changes);
  }

  lemma {:induction false} ChangesInMembers(pairs: seq<(Component, Component)>, filter: seq<string>, rising: bool,
                                            parse: string -> Version, p: (Component, Component))
    ensures
      p in ChangesIn(pairs, filter, rising, parse) <==>
      && p in pairs && (filter == [] || p.0.name in filter)
      && if rising then Less(parse(p.0.version), parse(p.1.version)) else parse(p.0.version) != parse(p.1.version)
  {
    if pairs != [] {
      var n := |pairs| - 1;
      ChangesInMembers(pairs[..n], filter, rising, parse, p);
      assert pairs == pairs[..n] + [pairs[n]];
      PrecedenceOrder(parse(p.0.version), parse(p.1.version), parse(p.0.version));
    }
  }
}
