/**
 What a compliance-summary cache entry is stored under, and what a metadata write invalidates.
 (src/deliverydb/cache_async.py, src/deliverydb_cache/model.py, src/compliance_summary.py, src/metadata.py)
 */
module CacheIdentity {
  import opened Common
  import opened CacheKeys

  /** A keyword argument of a cached function. */
  datatype Kwarg = Kwarg(name: string, value: Value)

  datatype Component = Component(name: string, version: string)

  const ENCODING := "pickle-4.0"
  const SUMMARIES := "compliance_summary.component_datatype_summaries"
  const SCAN_INFO := "meta/artefact_scan_info"

  /** Keyword arguments the decorator of `component_datatype_summaries` excludes. */
  const EXCLUDED: set<string> := {"finding_cfg", "component_descriptor_lookup", "ocm_repo"}

  /** Keyword arguments the wrapper takes out before serialising. */
  const POPPED: set<string> := {"db_session", "shortcut_cache"}

  const IDENTIFYING: set<string> := {"component", "finding_type", "datasource"}

  /** `CachedPythonFunction.key`. */
  function DescriptorKey(encoding: string, functionName: string, args: string, kwargs: string): string {
    "python-function" + ("|" + (encoding + ("|" + (functionName + ("|" + (args + ("|" + kwargs)))))))
  }

  function KwargPairs(kwargs: seq<Kwarg>): (r: seq<Pair>)
    ensures |r| == |kwargs|
    ensures forall i :: 0 <= i < |r| ==> r[i] == Pair(Str(kwargs[i].name), kwargs[i].value)
  {
    seq(|kwargs|, i requires 0 <= i < |kwargs| => Pair(Str(kwargs[i].name), kwargs[i].value))
  }

  function KwargMapping(kwargs: seq<Kwarg>): Value { Mapping(KwargPairs(kwargs)) }

  function FunctionKey(functionName: string, args: seq<Value>, kwargs: seq<Kwarg>): Result<string, Error> {
    match Normalise(Iterable(args), 0)
    case Err(e) => Err(e)
    case Ok(a) =>
      match Normalise(KwargMapping(kwargs), 0)
      case Err(e) => Err(e)
      case Ok(k) => Ok(DescriptorKey(ENCODING, functionName, a, k))
  }

  function Cachable(kwargs: seq<Kwarg>): seq<Kwarg> {
    if kwargs == [] then []
    else
      var rest := Cachable(kwargs[1..]);
      if kwargs[0].name in EXCLUDED + POPPED then rest else [kwargs[0]] + rest
  }

  /** A call has a key exactly if its arguments can be serialised, from the outermost level on. */
  lemma FunctionKeyExistsIff(functionName: string, args: seq<Value>, kwargs: seq<Kwarg>)
    ensures
      FunctionKey(functionName, args, kwargs).Ok? <==>
      && Sayable(Iterable(args)) && NestsWithin(Iterable(args), 100, false)
      && Sayable(KwargMapping(kwargs)) && NestsWithin(KwargMapping(kwargs), 100, false)
  {
    SerialisesIff(Iterable(args), 0);
    SerialisesIff(KwargMapping(kwargs), 0);
  }

  /** The key under which the wrapper stores the result of a call. */
  function WriterKey(kwargs: seq<Kwarg>): Result<string, Error> {
    FunctionKey(SUMMARIES, [], Cachable(kwargs))
  }

  function ComponentValue(c: Component): Value {
    Record([Pair(Str("name"), Str(c.name)), Pair(Str("version"), Str(c.version))])
  }

  function InvalidatorKwargs(c: Component, findingType: string, datasource: string): seq<Kwarg> {
    [Kwarg("component", ComponentValue(c)), Kwarg("finding_type", Enum(findingType)),
     Kwarg("datasource", Str(datasource))]
  }

  /** The key recomputed where metadata is written. */
  function InvalidatorKey(c: Component, findingType: string, datasource: string): Result<string, Error> {
    FunctionKey(SUMMARIES, [], InvalidatorKwargs(c, findingType, datasource))
  }

  ghost predicate DistinctNames(kwargs: seq<Kwarg>) {
    forall i, j :: 0 <= i < j < |kwargs| ==> kwargs[i].name != kwargs[j].name
  }

  /** A call of `component_datatype_summaries`, its keywords in any order, enums or plain texts alike. */
  ghost predicate IsSummaryCall(kwargs: seq<Kwarg>, c: Component, findingType: string, datasource: string) {
    && DistinctNames(kwargs)
    && (forall n :: n in IDENTIFYING ==> exists i :: 0 <= i < |kwargs| && kwargs[i].name == n)
    && (forall i :: 0 <= i < |kwargs| ==>
          || kwargs[i].name in EXCLUDED + POPPED
          || kwargs[i] == Kwarg("component", ComponentValue(c))
          || (kwargs[i].name == "finding_type" && kwargs[i].value in {Enum(findingType), Str(findingType)})
          || (kwargs[i].name == "datasource" && kwargs[i].value in {Enum(datasource), Str(datasource)}))
  }

  // ---------------------------------------------------------------- writer and invalidator agree

  lemma {:induction false} CachableKeeps(kwargs: seq<Kwarg>)
    ensures forall k :: k in Cachable(kwargs) <==> k in kwargs && k.name !in EXCLUDED + POPPED
  {
    if kwargs != [] {
      CachableKeeps(kwargs[1..]);
      assert forall k :: k in kwargs <==> k == kwargs[0] || k in kwargs[1..];
    }
  }

  lemma {:induction false} CachableDistinct(kwargs: seq<Kwarg>)
    requires DistinctNames(kwargs)
    ensures DistinctNames(Cachable(kwargs))
  {
    if kwargs != [] {
      var rest := kwargs[1..];
      CachableDistinct(rest);
      CachableKeeps(rest);
      forall j | 0 <= j < |Cachable(rest)|
        ensures Cachable(rest)[j].name != kwargs[0].name
      {
        assert Cachable(rest)[j] in rest;
      }
    }
  }

  function Names(kwargs: seq<Kwarg>): seq<string> {
    Map(kwargs, (k: Kwarg) => k.name)
  }

  predicate Named(kwargs: seq<Kwarg>, n: string) {
    exists i :: 0 <= i < |kwargs| && kwargs[i].name == n
  }

  ghost predicate SameNames(ks: seq<Kwarg>, ls: seq<Kwarg>) {
    && (forall i :: 0 <= i < |ks| ==> Named(ls, ks[i].name))
    && (forall j :: 0 <= j < |ls| ==> Named(ks, ls[j].name))
  }

  lemma NamedIn(kwargs: seq<Kwarg>, n: string)
    ensures Named(kwargs, n) <==> n in Names(kwargs)
  {
    if Named(kwargs, n) {
      var i :| 0 <= i < |kwargs| && kwargs[i].name == n;
      assert Names(kwargs)[i] == n;
    }
  }

  /** Same names, and name by name the same meaning: the same meaning as a mapping. */
  lemma SameNamesSameMeaning(ks: seq<Kwarg>, ls: seq<Kwarg>)
    requires DistinctNames(ks) && DistinctNames(ls) && SameNames(ks, ls)
    requires forall i, j :: 0 <= i < |ks| && 0 <= j < |ls| && ks[i].name == ls[j].name ==>
               MeaningOf(ks[i].value) == MeaningOf(ls[j].value)
    ensures MeaningOf(KwargMapping(ks)) == MeaningOf(KwargMapping(ls))
  {
    forall n
      ensures n in Names(ks) <==> n in Names(ls)
    {
      NamedIn(ks, n);
      NamedIn(ls, n);
    }
    DistinctSameElements(Names(ks), Names(ls));
    var fs, gs := MeaningOfPairs(KwargPairs(ks)), MeaningOfPairs(KwargPairs(ls));
    forall i, j | 0 <= i < |ks| && 0 <= j < |ls| && Names(ks)[i] == Names(ls)[j]
      ensures fs[i] == gs[j]
    {
      assert ks[i].name == ls[j].name;
      assert MeaningOfPair(KwargPairs(ks)[i]) == MeaningOfPair(KwargPairs(ls)[j]);
    }
    BagFactors(Names(ks), Names(ls), fs, gs);
  }

  lemma CachableOnlyIdentifying(kwargs: seq<Kwarg>, c: Component, findingType: string, datasource: string, i: nat)
    requires IsSummaryCall(kwargs, c, findingType, datasource) && i < |Cachable(kwargs)|
    ensures
      var k := Cachable(kwargs)[i];
      || k == Kwarg("component", ComponentValue(c))
      || (k.name == "finding_type" && k.value in {Enum(findingType), Str(findingType)})
      || (k.name == "datasource" && k.value in {Enum(datasource), Str(datasource)})
  {
    CachableKeeps(kwargs);
    var k := Cachable(kwargs)[i];
    assert k in kwargs;
    var m :| 0 <= m < |kwargs| && kwargs[m] == k;
  }

  /** What the wrapper serialises lines up, name by name, with what the invalidator serialises. */
  lemma CachableLinesUp(kwargs: seq<Kwarg>, c: Component, findingType: string, datasource: string)
    requires IsSummaryCall(kwargs, c, findingType, datasource)
    ensures DistinctNames(Cachable(kwargs))
    ensures SameNames(Cachable(kwargs), InvalidatorKwargs(c, findingType, datasource))
  {
    var ks, ls := Cachable(kwargs), InvalidatorKwargs(c, findingType, datasource);
    CachableKeeps(kwargs);
    CachableDistinct(kwargs);
    forall j | 0 <= j < |ls|
      ensures Named(ks, ls[j].name)
    {
      var i :| 0 <= i < |kwargs| && kwargs[i].name == ls[j].name;
      assert kwargs[i] in ks;
    }
    forall i | 0 <= i < |ks|
      ensures Named(ls, ks[i].name)
    {
      CachableOnlyIdentifying(kwargs, c, findingType, datasource, i);
      assert ls[0].name == "component" && ls[1].name == "finding_type" && ls[2].name == "datasource";
    }
  }

  lemma ComponentIsClear(c: Component)
    ensures UniqueKeys(ComponentValue(c))
    ensures CleanText(c.name) && CleanText(c.version) ==> Clean(ComponentValue(c))
    ensures MeaningOf(ComponentValue(c)) ==
            Assoc(multiset{(Atom("name"), Atom(c.name)), (Atom("version"), Atom(c.version))})
  {
    var name, version := Pair(Str("name"), Str(c.name)), Pair(Str("version"), Str(c.version));
    assert name.key.Str? && name.value.Str? && version.key.Str? && version.value.Str?;
    assert Render(name.key) == "name" && Render(version.key) == "version";
    assert "name"[0] != "version"[0];
    assert UniqueKeys(name.key) && UniqueKeys(name.value) && UniqueKeys(version.key) && UniqueKeys(version.value);
    assert UniqueKeysPair(name) && UniqueKeysPair(version);
    assert CleanText("name") && CleanText("version");
    assert Clean(name.key) && Clean(version.key);
    assert CleanText(c.name) ==> Clean(name.value) && CleanPair(name);
    assert CleanText(c.version) ==> Clean(version.value) && CleanPair(version);
    assert MeaningOf(name.key) == Atom("name") && MeaningOf(name.value) == Atom(c.name);
    assert MeaningOf(version.key) == Atom("version") && MeaningOf(version.value) == Atom(c.version);
    assert MeaningOfPairs([name, version]) == [MeaningOfPair(name), MeaningOfPair(version)];
  }

  lemma SummaryKeysUnique(ks: seq<Kwarg>, c: Component)
    requires DistinctNames(ks)
    requires forall i :: 0 <= i < |ks| ==> ks[i].value.Str? || ks[i].value.Enum? || ks[i].value == ComponentValue(c)
    ensures UniqueKeys(KwargMapping(ks))
  {
    ComponentIsClear(c);
    var items := KwargPairs(ks);
    forall i, j | 0 <= i < j < |items|
      ensures Render(items[i].key) != Render(items[j].key)
    {
      assert items[i].key == Str(ks[i].name) && items[j].key == Str(ks[j].name);
    }
    forall i | 0 <= i < |items|
      ensures UniqueKeysPair(items[i])
    {
      assert items[i] == Pair(Str(ks[i].name), ks[i].value);
    }
  }

  lemma KwargsSucceed(ks: seq<Kwarg>, ls: seq<Kwarg>)
    requires SameNames(ks, ls) && Normalise(KwargMapping(ls), 0).Ok?
    requires forall i, j :: 0 <= i < |ks| && 0 <= j < |ls| && ks[i].name == ls[j].name ==>
               (Normalise(ls[j].value, 1).Ok? ==> Normalise(ks[i].value, 1).Ok?)
    ensures Normalise(KwargMapping(ks), 0).Ok?
  {
    var ps, qs := KwargPairs(ks), KwargPairs(ls);
    PairsSucceed(ps, 1);
    PairsSucceed(qs, 1);
    forall i | 0 <= i < |ps|
      ensures Normalise(ps[i].key, 1).Ok? && Normalise(ps[i].value, 1).Ok?
    {
      assert Named(ls, ks[i].name);
      var j :| 0 <= j < |ls| && ls[j].name == ks[i].name;
      assert qs[j] == Pair(Str(ks[i].name), ls[j].value);
    }
  }

  lemma ArgumentsAgree(kwargs: seq<Kwarg>, c: Component, t: string, d: string, i: nat, j: nat)
    requires IsSummaryCall(kwargs, c, t, d)
    requires i < |Cachable(kwargs)| && j < |InvalidatorKwargs(c, t, d)|
    requires Cachable(kwargs)[i].name == InvalidatorKwargs(c, t, d)[j].name
    ensures
      var v, w := Cachable(kwargs)[i].value, InvalidatorKwargs(c, t, d)[j].value;
      && MeaningOf(v) == MeaningOf(w)
      && (Normalise(v, 1).Ok? <==> Normalise(w, 1).Ok?)
      && (v.Str? || v.Enum? || v == ComponentValue(c))
  {
    CachableOnlyIdentifying(kwargs, c, t, d, i);
    var v, w := Cachable(kwargs)[i].value, InvalidatorKwargs(c, t, d)[j].value;
    assert v == w || ((v.Str? || v.Enum?) && (w.Str? || w.Enum?) && v.text == w.text);
  }

  lemma KwargsSucceedTogether(kwargs: seq<Kwarg>, c: Component, t: string, d: string)
    requires IsSummaryCall(kwargs, c, t, d)
    ensures Normalise(KwargMapping(Cachable(kwargs)), 0).Ok? <==>
            Normalise(KwargMapping(InvalidatorKwargs(c, t, d)), 0).Ok?
  {
    var ks, ls := Cachable(kwargs), InvalidatorKwargs(c, t, d);
    CachableLinesUp(kwargs, c, t, d);
    forall i, j | 0 <= i < |ks| && 0 <= j < |ls| && ks[i].name == ls[j].name
      ensures Normalise(ks[i].value, 1).Ok? <==> Normalise(ls[j].value, 1).Ok?
    {
      ArgumentsAgree(kwargs, c, t, d, i, j);
    }
    if Normalise(KwargMapping(ks), 0).Ok? {
      KwargsSucceed(ls, ks);
    }
    if Normalise(KwargMapping(ls), 0).Ok? {
      KwargsSucceed(ks, ls);
    }
  }

  lemma KwargsMeanTheSame(kwargs: seq<Kwarg>, c: Component, t: string, d: string)
    requires IsSummaryCall(kwargs, c, t, d)
    ensures MeaningOf(KwargMapping(Cachable(kwargs))) == MeaningOf(KwargMapping(InvalidatorKwargs(c, t, d)))
  {
    var ks, ls := Cachable(kwargs), InvalidatorKwargs(c, t, d);
    CachableLinesUp(kwargs, c, t, d);
    forall i, j | 0 <= i < |ks| && 0 <= j < |ls| && ks[i].name == ls[j].name
      ensures MeaningOf(ks[i].value) == MeaningOf(ls[j].value)
    {
      ArgumentsAgree(kwargs, c, t, d, i, j);
    }
    SameNamesSameMeaning(ks, ls);
  }

  lemma KwargsAreClear(kwargs: seq<Kwarg>, c: Component, t: string, d: string)
    requires IsSummaryCall(kwargs, c, t, d)
    ensures UniqueKeys(KwargMapping(Cachable(kwargs))) && UniqueKeys(KwargMapping(InvalidatorKwargs(c, t, d)))
  {
    var ks := Cachable(kwargs);
    CachableLinesUp(kwargs, c, t, d);
    forall i | 0 <= i < |ks|
      ensures ks[i].value.Str? || ks[i].value.Enum? || ks[i].value == ComponentValue(c)
    {
      CachableOnlyIdentifying(kwargs, c, t, d, i);
    }
    SummaryKeysUnique(ks, c);
    SummaryKeysUnique(InvalidatorKwargs(c, t, d), c);
  }

  /** Writer and invalidator compute one key, whatever the keyword order, the enum or text form of the
      arguments, and the excluded arguments passed along; and they fail on the same inputs. */
  lemma WriterAgreesWithInvalidator(kwargs: seq<Kwarg>, c: Component, findingType: string, datasource: string)
    requires IsSummaryCall(kwargs, c, findingType, datasource)
    ensures WriterKey(kwargs).Ok? <==> InvalidatorKey(c, findingType, datasource).Ok?
    ensures WriterKey(kwargs).Ok? ==> WriterKey(kwargs) == InvalidatorKey(c, findingType, datasource)
  {
    var v, w := KwargMapping(Cachable(kwargs)), KwargMapping(InvalidatorKwargs(c, findingType, datasource));
    KwargsSucceedTogether(kwargs, c, findingType, datasource);
    KwargsMeanTheSame(kwargs, c, findingType, datasource);
    KwargsAreClear(kwargs, c, findingType, datasource);
    if Normalise(v, 0).Ok? {
      EqualMeaningsTextTheSame(v, w, 0);
    }
  }

  lemma ArgumentNamesAreClean()
    ensures CleanText("component") && CleanText("finding_type") && CleanText("datasource")
  {
    assert "component"[0] == 'c' && "component"[8] == 't';
    assert "finding_type"[0] == 'f' && "finding_type"[11] == 'e';
    assert "datasource"[0] == 'd' && "datasource"[9] == 'e';
  }

  lemma CleanKwargs(c: Component, findingType: string, datasource: string)
    requires CleanText(c.name) && CleanText(c.version) && CleanText(findingType) && CleanText(datasource)
    ensures Clean(KwargMapping(InvalidatorKwargs(c, findingType, datasource)))
  {
    var items := KwargPairs(InvalidatorKwargs(c, findingType, datasource));
    ComponentIsClear(c);
    assert items[0] == Pair(Str("component"), ComponentValue(c));
    assert items[1] == Pair(Str("finding_type"), Enum(findingType));
    assert items[2] == Pair(Str("datasource"), Str(datasource));
    ArgumentNamesAreClean();
    assert Clean(items[0].key) && Clean(items[1].key) && Clean(items[2].key);
    assert Clean(items[1].value) && Clean(items[2].value);
    assert CleanPair(items[0]) && CleanPair(items[1]) && CleanPair(items[2]);
  }

  /** The arguments' own names are no obstacle, and nothing nests deep: the key exists exactly if none of the four
      texts holds a join sequence. */
  lemma KeyExistsIff(c: Component, findingType: string, datasource: string)
    ensures
      InvalidatorKey(c, findingType, datasource).Ok? <==>
      !HasJoin(c.name) && !HasJoin(c.version) && !HasJoin(findingType) && !HasJoin(datasource)
  {
    var items := KwargPairs(InvalidatorKwargs(c, findingType, datasource));
    assert items[0] == Pair(Str("component"), ComponentValue(c));
    assert items[1] == Pair(Str("finding_type"), Enum(findingType));
    assert items[2] == Pair(Str("datasource"), Str(datasource));
    ComponentSayable(c);
    ArgumentNamesAreClean();
    CleanTextIsJoinFree("component");
    CleanTextIsJoinFree("finding_type");
    CleanTextIsJoinFree("datasource");
    TextPair(Pair(Str("component"), Str("component")), 99, false);
    assert SayablePair(items[0]) <==> !HasJoin(c.name) && !HasJoin(c.version);
    assert PairNestsWithin(items[0], 99, false);
    TextPair(items[1], 99, false);
    TextPair(items[2], 99, false);
    SerialisesIff(Mapping(items), 0);
    SerialisesIff(Iterable([]), 0);
  }

  lemma TextPair(p: Pair, room: nat, nested: bool)
    requires p.key.Str? && (p.value.Str? || p.value.Enum?)
    ensures SayablePair(p) <==> !HasJoin(p.key.text) && !HasJoin(p.value.text)
    ensures Sayable(p.key) <==> !HasJoin(p.key.text)
    ensures PairNestsWithin(p, room, nested)
  {
    var Pair(key, value) := p;
    assert Sayable(key) <==> !HasJoin(key.text);
    assert Sayable(value) <==> !HasJoin(value.text);
    assert NestsWithin(key, room, nested) && NestsWithin(value, room, nested);
  }

  lemma ComponentSayable(c: Component)
    ensures Sayable(ComponentValue(c)) <==> !HasJoin(c.name) && !HasJoin(c.version)
    ensures NestsWithin(ComponentValue(c), 99, false)
  {
    var name, version := Pair(Str("name"), Str(c.name)), Pair(Str("version"), Str(c.version));
    assert CleanText("name") && CleanText("version");
    CleanTextIsJoinFree("name");
    CleanTextIsJoinFree("version");
    TextPair(name, 97, true);
    TextPair(version, 97, true);
    var items := ComponentValue(c).items;
    assert items == [name, version] && items[0] == name && items[1] == version;
  }

  /** On clean texts the stored key tells component, finding type and datasource apart. */
  lemma KeyTellsSummariesApart(c: Component, t: string, d: string, c': Component, t': string, d': string)
    requires CleanText(c.name) && CleanText(c.version) && CleanText(t) && CleanText(d)
    requires CleanText(c'.name) && CleanText(c'.version) && CleanText(t') && CleanText(d')
    requires InvalidatorKey(c, t, d).Ok? && InvalidatorKey(c, t, d) == InvalidatorKey(c', t', d')
    ensures c == c' && t == t' && d == d'
  {
    var v, w := KwargMapping(InvalidatorKwargs(c, t, d)), KwargMapping(InvalidatorKwargs(c', t', d'));
    CleanKwargs(c, t, d);
    CleanKwargs(c', t', d');
    var a := Normalise(Iterable([]), 0).value;
    SamePrefix(DescriptorKey(ENCODING, SUMMARIES, a, ""), Normalise(v, 0).value, Normalise(w, 0).value);
    DescriptorAppends(a, Normalise(v, 0).value);
    DescriptorAppends(a, Normalise(w, 0).value);
    EqualTextsMeanTheSame(v, w, 0);
    SummaryMeaning(c, t, d);
    SummaryMeaning(c', t', d');
  }

  lemma SamePrefix(p: string, x: string, y: string)
    ensures p + x == p + y ==> x == y
  {
    assert (p + x)[|p|..] == x && (p + y)[|p|..] == y;
  }

  lemma DescriptorAppends(a: string, k: string)
    ensures DescriptorKey(ENCODING, SUMMARIES, a, k) == DescriptorKey(ENCODING, SUMMARIES, a, "") + k
  {
  }

  function SummaryPart(c: Component, t: string, d: string, i: nat): (Meaning, Meaning) {
    if i == 0 then
      (Atom("component"), Assoc(multiset{(Atom("name"), Atom(c.name)), (Atom("version"), Atom(c.version))}))
    else if i == 1 then (Atom("finding_type"), Atom(t))
    else (Atom("datasource"), Atom(d))
  }

  lemma SummaryMeaning(c: Component, t: string, d: string)
    ensures MeaningOf(KwargMapping(InvalidatorKwargs(c, t, d))) ==
            Assoc(multiset{SummaryPart(c, t, d, 0), SummaryPart(c, t, d, 1), SummaryPart(c, t, d, 2)})
  {
    var items := KwargPairs(InvalidatorKwargs(c, t, d));
    ComponentIsClear(c);
    assert items[0] == Pair(Str("component"), ComponentValue(c));
    assert items[1] == Pair(Str("finding_type"), Enum(t));
    assert items[2] == Pair(Str("datasource"), Str(d));
    assert MeaningOf(items[0].key) == Atom("component") && MeaningOf(items[1].key) == Atom("finding_type");
    assert MeaningOf(items[2].key) == Atom("datasource");
    assert MeaningOf(items[1].value) == Atom(t) && MeaningOf(items[2].value) == Atom(d);
    assert MeaningOfPairs(items) == [SummaryPart(c, t, d, 0), SummaryPart(c, t, d, 1), SummaryPart(c, t, d, 2)];
  }

  // ---------------------------------------------------------------- keys of other functions

  lemma {:induction false} FirstField(a: string, x: string, b: string, y: string)
    requires '|' !in a && '|' !in b && a + ("|" + x) == b + ("|" + y)
    ensures a == b && x == y
  {
    RunLengthAcross(a, "|" + x);
    RunLengthAcross(b, "|" + y);
    assert (a + ("|" + x))[..|a|] == a && (b + ("|" + y))[..|b|] == b;
    assert (a + ("|" + x))[|a| + 1..] == x && (b + ("|" + y))[|b| + 1..] == y;
  }

  /** The key of a cached call determines the encoding, the function, and what its arguments mean. */
  lemma KeyTellsCallsApart(e: string, f: string, args: Value, kwargs: Value,
                           e': string, f': string, args': Value, kwargs': Value)
    requires '|' !in e && '|' !in f && '|' !in e' && '|' !in f'
    requires Clean(args) && Clean(kwargs) && Clean(args') && Clean(kwargs')
    requires Normalise(args, 0).Ok? && Normalise(kwargs, 0).Ok?
    requires Normalise(args', 0).Ok? && Normalise(kwargs', 0).Ok?
    requires DescriptorKey(e, f, Normalise(args, 0).value, Normalise(kwargs, 0).value) ==
             DescriptorKey(e', f', Normalise(args', 0).value, Normalise(kwargs', 0).value)
    ensures e == e' && f == f' && MeaningOf(args) == MeaningOf(args') && MeaningOf(kwargs) == MeaningOf(kwargs')
  {
    var a, k := Normalise(args, 0).value, Normalise(kwargs, 0).value;
    var a', k' := Normalise(args', 0).value, Normalise(kwargs', 0).value;
    FirstField("python-function", e + ("|" + (f + ("|" + (a + ("|" + k))))),
               "python-function", e' + ("|" + (f' + ("|" + (a' + ("|" + k'))))));
    FirstField(e, f + ("|" + (a + ("|" + k))), e', f' + ("|" + (a' + ("|" + k'))));
    FirstField(f, a + ("|" + k), f', a' + ("|" + k'));
    SerialisedParsesBack(args, 0, "|" + k);
    SerialisedParsesBack(args', 0, "|" + k');
    CanonicalKeepsMeaning(args);
    CanonicalKeepsMeaning(args');
    assert ("|" + k)[1..] == k && ("|" + k')[1..] == k';
    EqualTextsMeanTheSame(kwargs, kwargs', 0);
  }

  // ---------------------------------------------------------------- which summaries a write invalidates

  /** A row of artefact metadata as far as invalidation is concerned; an unset column is the empty text. */
  datatype Row = Row(componentName: string, componentVersion: string, dataType: string, datasource: string)

  predicate Complete(row: Row) {
    row.componentName != "" && row.componentVersion != "" && row.dataType != "" && row.datasource != ""
  }

  /** The summaries of finding type `t` depend on the row: a scan info concerns every datatype of
      its datasource, any other row its own type. */
  predicate Concerns(row: Row, known: set<string>, datatypesOf: map<string, seq<string>>, t: string) {
    && Complete(row) && t in known
    && (if row.dataType == SCAN_INFO then row.datasource in datatypesOf && t in datatypesOf[row.datasource]
        else t == row.dataType)
  }

  function RowKey(row: Row, t: string): Result<string, Error> {
    InvalidatorKey(Component(row.componentName, row.componentVersion), t, row.datasource)
  }

  /** The row's write cannot name a cache entry: unknown datasource, or a text with join characters. */
  ghost predicate Unnameable(row: Row, known: set<string>, datatypesOf: map<string, seq<string>>) {
    || (Complete(row) && row.dataType == SCAN_INFO && row.datasource !in datatypesOf)
    || exists t :: Concerns(row, known, datatypesOf, t) && RowKey(row, t).Err?
  }

  /** A complete row has a key for what it concerns exactly if no text in it holds a join sequence. */
  lemma UnnameableIff(row: Row, known: set<string>, datatypesOf: map<string, seq<string>>)
    ensures
      Unnameable(row, known, datatypesOf) <==>
      || (Complete(row) && row.dataType == SCAN_INFO && row.datasource !in datatypesOf)
      || exists t :: Concerns(row, known, datatypesOf, t) &&
           (HasJoin(row.componentName) || HasJoin(row.componentVersion) || HasJoin(t) || HasJoin(row.datasource))
  {
    forall t
      ensures RowKey(row, t).Err? <==>
        HasJoin(row.componentName) || HasJoin(row.componentVersion) || HasJoin(t) || HasJoin(row.datasource)
    {
      KeyExistsIff(Component(row.componentName, row.componentVersion), t, row.datasource);
    }
  }

  /** Clean texts throughout, and a datasource that is known where it is looked up. */
  predicate CleanFor(row: Row, known: set<string>, datatypesOf: map<string, seq<string>>) {
    && CleanText(row.componentName) && CleanText(row.componentVersion) && CleanText(row.datasource)
    && (forall t :: t in known ==> CleanText(t))
    && (row.dataType == SCAN_INFO ==> row.datasource in datatypesOf)
  }

  /** Clean texts never make a write fail. */
  lemma CleanRowIsNameable(row: Row, known: set<string>, datatypesOf: map<string, seq<string>>)
    requires CleanFor(row, known, datatypesOf)
    ensures !Unnameable(row, known, datatypesOf)
  {
    UnnameableIff(row, known, datatypesOf);
    CleanTextIsJoinFree(row.componentName);
    CleanTextIsJoinFree(row.componentVersion);
    CleanTextIsJoinFree(row.datasource);
    forall t | t in known
      ensures !HasJoin(t)
    {
      CleanTextIsJoinFree(t);
    }
  }

  /** Of a row that is no scan info only its own summary is concerned. */
  lemma OwnSummaryOnly(row: Row, known: set<string>, datatypesOf: map<string, seq<string>>, cacheIds: set<string>,
                       ids: set<string>)
    requires Complete(row) && row.dataType in known && row.dataType != SCAN_INFO
    requires RowKey(row, row.dataType).Ok?
    requires forall k :: k in ids <==>
      k in cacheIds || exists t :: Concerns(row, known, datatypesOf, t) && RowKey(row, t) == Ok(k)
    ensures ids == cacheIds + {RowKey(row, row.dataType).value}
  {
    var own := RowKey(row, row.dataType).value;
    assert Concerns(row, known, datatypesOf, row.dataType);
    assert forall t :: Concerns(row, known, datatypesOf, t) ==> t == row.dataType;
    assert forall k :: k in ids <==> k in cacheIds || k == own;
  }

  /** `_collect_compliance_summary_cache_ids`: the keys of exactly the summaries the row concerns. */
  method CollectSummaryKeys(row: Row, known: set<string>, datatypesOf: map<string, seq<string>>, cacheIds: set<string>)
    returns (r: Result<set<string>, Error>)
    ensures r.Err? <==> Unnameable(row, known, datatypesOf)
    ensures r.Ok? ==> forall k :: k in r.value <==>
              k in cacheIds || exists t :: Concerns(row, known, datatypesOf, t) && RowKey(row, t) == Ok(k)
    ensures CleanFor(row, known, datatypesOf) ==> r.Ok?
    ensures row.componentName == "" || row.componentVersion == "" || row.dataType == "" || row.datasource == "" ==>
              r == Ok(cacheIds)
    ensures
      var key := InvalidatorKey(Component(row.componentName, row.componentVersion), row.dataType, row.datasource);
      && r.Ok? && row.dataType in known && row.dataType != SCAN_INFO
      && row.componentName != "" && row.componentVersion != "" && row.dataType != "" && row.datasource != "" ==>
        key.Ok? && r.value == cacheIds + {key.value}
  {
    if CleanFor(row, known, datatypesOf) {
      CleanRowIsNameable(row, known, datatypesOf);
    }
    if !Complete(row) {
      return Ok(cacheIds);
    }
    var datatypes: seq<string>;
    if row.dataType == SCAN_INFO {
      if row.datasource !in datatypesOf {
        return Err(ValueError);
      }
      datatypes := datatypesOf[row.datasource];
    } else {
      datatypes := [row.dataType];
    }
    var ids := cacheIds;
    for i := 0 to |datatypes|
      invariant forall t :: t in datatypes[..i] && t in known ==> RowKey(row, t).Ok?
      invariant forall k :: k in ids <==>
                  k in cacheIds || exists t :: t in datatypes[..i] && t in known && RowKey(row, t) == Ok(k)
    {
      var t := datatypes[i];
      assert datatypes[..i + 1] == datatypes[..i] + [t];
      if t in known {
        var key := RowKey(row, t);
        if key.Err? {
          assert Concerns(row, known, datatypesOf, t);
          return Err(key.error);
        }
        ids := ids + {key.value};
      }
    }
    assert datatypes[..|datatypes|] == datatypes;
    assert forall t :: Concerns(row, known, datatypesOf, t) <==> t in datatypes && t in known;
    if row.dataType in known && row.dataType != SCAN_INFO {
      OwnSummaryOnly(row, known, datatypesOf, cacheIds, ids);
    }
    r := Ok(ids);
  }

  /** Writing a row marks the stored summaries of a component, finding type and datasource for
      deletion exactly if the row concerns them. */
  lemma WriteInvalidatesExactlyItsSummaries(row: Row, known: set<string>, datatypesOf: map<string, seq<string>>,
                                            kwargs: seq<Kwarg>, c: Component, t: string, d: string)
    requires IsSummaryCall(kwargs, c, t, d) && WriterKey(kwargs).Ok?
    requires CleanText(c.name) && CleanText(c.version) && CleanText(t) && CleanText(d)
    requires CleanText(row.componentName) && CleanText(row.componentVersion) && CleanText(row.datasource)
    requires forall s :: s in known ==> CleanText(s)
    ensures (exists s :: Concerns(row, known, datatypesOf, s) && RowKey(row, s) == WriterKey(kwargs)) <==>
            (Concerns(row, known, datatypesOf, t) && c == Component(row.componentName, row.componentVersion) &&
             d == row.datasource)
  {
    WriterAgreesWithInvalidator(kwargs, c, t, d);
    var own := Component(row.componentName, row.componentVersion);
    forall s | Concerns(row, known, datatypesOf, s) && RowKey(row, s) == WriterKey(kwargs)
      ensures s == t && c == own && d == row.datasource
    {
      KeyTellsSummariesApart(own, s, row.datasource, c, t, d);
    }
  }
}
