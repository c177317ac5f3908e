/**
 Deserialisation of cryptographic assets with references among them, and their aggregation by key.
 (src/crypto_extension/model.py, src/crypto_extension/validate.py, src/odg/model.py)
 */
module CryptoAssets {
  import opened Common

  // ---------------------------------------------------------------- keys

  function NatText(n: nat): string {
    if n < 10 then ['0' + n as char] else NatText(n / 10) + ['0' + (n % 10) as char]
  }

  /** Python's `str` on an integer or `None`. */
  function IntText(n: Option<int>): string {
    if n.None? then "None" else if n.value < 0 then "-" + NatText(-n.value) else NatText(n.value)
  }

  /** Parts joined by `|`, absent ones as `None`. */
  function AsKey(parts: seq<Option<string>>): string {
    if parts == [] then ""
    else
      var first := if parts[0].Some? then parts[0].value else "None";
      if |parts| == 1 then first else first + "|" + AsKey(parts[1..])
  }

  datatype Properties =
    | Algorithm(name: string, primitive: Option<string>, parameterSet: Option<string>, curve: Option<string>,
                padding: Option<string>)
    | Certificate(kind: string, validityYears: Option<int>, signatureAlgorithm: Option<string>,
                  publicKey: Option<string>)
    | Library(name: string, version: Option<string>)
    | Protocol(ptype: Option<string>, version: Option<string>)
    | Material(mtype: Option<string>, algorithm: Option<string>, curve: Option<string>, size: Option<int>)

  function AssetType(p: Properties): string {
    match p
    case Algorithm(_, _, _, _, _) => "algorithm"
    case Certificate(_, _, _, _) => "certificate"
    case Library(_, _) => "library"
    case Protocol(_, _) => "protocol"
    case Material(_, _, _, _) => "related-crypto-material"
  }

  function PropertiesKey(p: Properties): string {
    match p
    case Algorithm(name, primitive, parameterSet, curve, padding) =>
      AsKey([Some(name), primitive, parameterSet, curve, padding])
    case Certificate(kind, years, signature, key) => AsKey([Some(kind), Some(IntText(years)), signature, key])
    case Library(name, version) => AsKey([Some(name), version])
    case Protocol(ptype, version) => AsKey([ptype, version])
    case Material(mtype, algorithm, curve, size) => AsKey([mtype, algorithm, curve, Some(IntText(size))])
  }

  datatype Asset = Asset(names: seq<string>, locations: seq<string>, properties: Properties)

  /** Names and locations are not part of the key. */
  function Key(a: Asset): string {
    KeyOf(a.properties)
  }

  function KeyOf(p: Properties): string {
    AsKey([Some(AssetType(p)), Some(PropertiesKey(p))])
  }

  // ---------------------------------------------------------------- sorted sets

  function Dedup(xs: seq<string>): (r: seq<string>)
    ensures forall x :: x in r <==> x in xs
    ensures Distinct(r)
  {
    if xs == [] then []
    else
      assert xs == [xs[0]] + xs[1..];
      var rest := Dedup(xs[1..]);
      if xs[0] in rest then rest else [xs[0]] + rest
  }

  function Itself(x: string): string {
    x
  }

  /** `sorted(set(xs))` */
  function SortedSet(xs: seq<string>): seq<string> {
    SortBy(Dedup(xs), Itself)
  }

  lemma SortedSetMembers(xs: seq<string>, x: string)
    ensures x in SortedSet(xs) <==> x in xs
  {
    SortByBag(Dedup(xs), Itself);
    assert x in SortedSet(xs) <==> x in multiset(SortedSet(xs));
    assert x in Dedup(xs) <==> x in multiset(Dedup(xs));
  }

  /** Only the elements matter, not their order or number. */
  lemma SortedSetCanonical(xs: seq<string>, ys: seq<string>)
    requires forall x :: x in xs <==> x in ys
    ensures SortedSet(xs) == SortedSet(ys)
  {
    DistinctSameElements(Dedup(xs), Dedup(ys));
    SortByUnique(Dedup(xs), Dedup(ys), Itself);
  }

  lemma SortedSetAgain(xs: seq<string>, ys: seq<string>)
    ensures SortedSet(SortedSet(xs) + ys) == SortedSet(xs + ys)
  {
    forall x
      ensures x in SortedSet(xs) + ys <==> x in xs + ys
    {
      SortedSetMembers(xs, x);
    }
    SortedSetCanonical(SortedSet(xs) + ys, xs + ys);
  }

  // ---------------------------------------------------------------- deserialisation

  /** References are empty when absent; `described` and `kind` stand for what the source reads off a description and the
      names of subject and issuer. */
  datatype RawProperties =
    | RawAlgorithm(primitive: Option<string>, parameterSet: Option<string>, curve: Option<string>,
                   padding: Option<string>)
    | RawCertificate(kind: string, validitySeconds: Option<int>, signatureRef: string, publicKeyRef: string)
    | RawLibrary
    | RawProtocol(ptype: Option<string>, version: Option<string>)
    | RawMaterial(mtype: Option<string>, algorithmRef: string, described: string, size: Option<int>)

  datatype Kind = CryptographicAsset | LibraryComponent | OtherComponent

  datatype Raw = Raw(bomRef: string, kind: Kind, name: string, version: Option<string>, properties: RawProperties,
                     locations: seq<string>)

  datatype Error = Unresolved(ref: string)

  function RawType(raw: Raw): string {
    if raw.kind.LibraryComponent? then "library"
    else match raw.properties
      case RawAlgorithm(_, _, _, _) => "algorithm"
      case RawCertificate(_, _, _, _) => "certificate"
      case RawLibrary => "library"
      case RawProtocol(_, _) => "protocol"
      case RawMaterial(_, _, _, _) => "related-crypto-material"
  }

  predicate Kept(raw: Raw, known: seq<string>, included: Option<seq<string>>) {
    && !raw.kind.OtherComponent?
    && (raw.kind.LibraryComponent? ==> raw.name in known)
    && (included.Some? ==> RawType(raw) in included.value)
  }

  function FilterAssets(components: seq<Raw>, known: seq<string>, included: Option<seq<string>>): seq<Raw> {
    if components == [] then []
    else
      (if Kept(components[0], known, included) then [components[0]] else [])
      + FilterAssets(components[1..], known, included)
  }

  /** The references an asset of this type follows. */
  function Refs(raw: Raw): seq<string> {
    if raw.kind.LibraryComponent? then []
    else match raw.properties
      case RawCertificate(_, _, signatureRef, publicKeyRef) => [signatureRef, publicKeyRef]
      case RawMaterial(_, algorithmRef, _, _) => [algorithmRef]
      case _ => []
  }

  /** The first asset with the reference. */
  function Find(raws: seq<Raw>, ref: string): (r: Option<nat>)
    ensures r.Some? ==> r.value < |raws| && raws[r.value].bomRef == ref
    ensures r.None? ==> forall i :: 0 <= i < |raws| ==> raws[i].bomRef != ref
  {
    if raws == [] then None
    else if raws[0].bomRef == ref then Some(0)
    else
      var rest := Find(raws[1..], ref);
      if rest.Some? then Some(rest.value + 1) else None
  }

  /** The references are acyclic: they lead to assets of smaller rank. */
  ghost predicate Ranked(raws: seq<Raw>, rank: seq<nat>) {
    && |rank| == |raws|
    && forall i, r :: 0 <= i < |raws| && r in Refs(raws[i]) ==> RefBelow(raws, rank, r, rank[i])
  }

  ghost predicate RefBelow(raws: seq<Raw>, rank: seq<nat>, ref: string, bound: nat) {
    ref != "" && Find(raws, ref).Some? ==> |rank| == |raws| && rank[Find(raws, ref).value] < bound
  }

  const YEAR := 60 * 60 * 24 * 365

  /** The key of the asset referred to; the ghost arguments only justify that the recursion ends. */
  function BomRefToDataKey(ref: string, raws: seq<Raw>, ghost rank: seq<nat>, ghost bound: nat)
    : Result<Option<string>, Error>
    requires Ranked(raws, rank) && RefBelow(raws, rank, ref, bound)
    decreases bound, 0
  {
    if ref == "" then Ok(None)
    else
      var i := Find(raws, ref);
      if i.None? then Err(Unresolved(ref))
      else
        var asset := Deserialise(raws, i.value, rank);
        if asset.Err? then Err(asset.error) else Ok(Some(Key(asset.value)))
  }

  function Deserialise(raws: seq<Raw>, i: nat, ghost rank: seq<nat>): Result<Asset, Error>
    requires Ranked(raws, rank) && i < |raws|
    decreases rank[i], 1
  {
    var raw := raws[i];
    var properties := DeserialiseProperties(raw, raws, rank, rank[i]);
    if properties.Err? then Err(properties.error)
    else Ok(Asset([raw.name], SortedSet(raw.locations), properties.value))
  }

  function DeserialiseProperties(raw: Raw, raws: seq<Raw>, ghost rank: seq<nat>, ghost bound: nat)
    : Result<Properties, Error>
    requires Ranked(raws, rank) && forall r :: r in Refs(raw) ==> RefBelow(raws, rank, r, bound)
    decreases bound, 1, 0
  {
    if raw.kind.LibraryComponent? then Ok(Library(raw.name, raw.version))
    else match raw.properties
      case RawAlgorithm(primitive, parameterSet, curve, padding) =>
        Ok(Algorithm(raw.name, primitive, parameterSet, curve, padding))
      case RawCertificate(kind, seconds, signatureRef, publicKeyRef) =>
        var signature := BomRefToDataKey(signatureRef, raws, rank, bound);
        if signature.Err? then Err(signature.error)
        else
          var publicKey := BomRefToDataKey(publicKeyRef, raws, rank, bound);
          if publicKey.Err? then Err(publicKey.error)
          else
            var years := if seconds.Some? then Some(CeilDiv(seconds.value, YEAR)) else None;
            Ok(Certificate(kind, years, signature.value, publicKey.value))
      case RawLibrary => Ok(Library(raw.name, raw.version))
      case RawProtocol(ptype, version) => Ok(Protocol(ptype, version))
      case RawMaterial(mtype, algorithmRef, described, size) =>
        var algorithm := BomRefToDataKey(algorithmRef, raws, rank, bound);
        if algorithm.Err? then Err(algorithm.error) else Ok(Material(mtype, algorithm.value, Some(described), size))
  }

  /** The first `n` assets, up to the first that fails. */
  function DeserialiseAll(raws: seq<Raw>, n: nat, ghost rank: seq<nat>): Result<seq<Asset>, Error>
    requires Ranked(raws, rank) && n <= |raws|
  {
    if n == 0 then Ok([])
    else
      var before := DeserialiseAll(raws, n - 1, rank);
      if before.Err? then before
      else
        var last := Deserialise(raws, n - 1, rank);
        if last.Err? then Err(last.error) else Ok(before.value + [last.value])
  }

  // ---------------------------------------------------------------- aggregation

  /** Position of the asset with the key. */
  function PositionOf(assets: seq<Asset>, key: string): (r: Option<nat>)
    ensures r.Some? ==> r.value < |assets| && Key(assets[r.value]) == key
    ensures r.None? ==> forall i :: 0 <= i < |assets| ==> Key(assets[i]) != key
  {
    if assets == [] then None
    else if Key(assets[0]) == key then Some(0)
    else
      var rest := PositionOf(assets[1..], key);
      if rest.Some? then Some(rest.value + 1) else None
  }

  function Merged(a: Asset, b: Asset): Asset {
    a.(names := SortedSet(a.names + b.names), locations := SortedSet(a.locations + b.locations))
  }

  function Aggregated(assets: seq<Asset>): seq<Asset> {
    if assets == [] then []
    else
      var n := |assets| - 1;
      var before, a := Aggregated(assets[..n]), assets[n];
      var p := PositionOf(before, Key(a));
      if p.None? then before + [a] else before[p.value := Merged(before[p.value], a)]
  }

  function Group(assets: seq<Asset>, key: string): (r: seq<Asset>)
    ensures forall a :: a in r <==> a in assets && Key(a) == key
  {
    if assets == [] then []
    else
      var n := |assets| - 1;
      assert assets == assets[..n] + [assets[n]];
      Group(assets[..n], key) + if Key(assets[n]) == key then [assets[n]] else []
  }

  function AllNames(assets: seq<Asset>): seq<string> {
    if assets == [] then [] else AllNames(assets[..|assets| - 1]) + assets[|assets| - 1].names
  }

  function AllLocations(assets: seq<Asset>): seq<string> {
    if assets == [] then [] else AllLocations(assets[..|assets| - 1]) + assets[|assets| - 1].locations
  }

  /** Of several assets: the first one's properties with the sorted union of all names and locations. */
  function Combined(group: seq<Asset>): Asset
    requires group != []
  {
    if |group| == 1 then group[0]
    else group[0].(names := SortedSet(AllNames(group)), locations := SortedSet(AllLocations(group)))
  }

  lemma {:induction false} CombinedNext(group: seq<Asset>, a: Asset)
    requires group != []
    ensures Combined(group + [a]) == Merged(Combined(group), a)
  {
    var all := group + [a];
    assert all[..|group|] == group;
    if |group| == 1 {
      assert group[..0] == [];
      assert AllNames(group) == group[0].names && AllLocations(group) == group[0].locations;
    } else {
      SortedSetAgain(AllNames(group), a.names);
      SortedSetAgain(AllLocations(group), a.locations);
    }
  }

  ghost predicate DistinctKeys(assets: seq<Asset>) {
    forall i, j :: 0 <= i < j < |assets| ==> Key(assets[i]) != Key(assets[j])
  }

  lemma {:induction false} KeysDistinct(assets: seq<Asset>)
    ensures DistinctKeys(Aggregated(assets))
  {
    if assets != [] {
      KeysDistinct(assets[..|assets| - 1]);
    }
  }

  lemma {:induction false} KeysCovered(assets: seq<Asset>, a: Asset) returns (p: nat)
    requires a in assets
    ensures p < |Aggregated(assets)| && Key(Aggregated(assets)[p]) == Key(a)
  {
    var n := |assets| - 1;
    var before := Aggregated(assets[..n]);
    if a in assets[..n] {
      p := KeysCovered(assets[..n], a);
      assert before[p] in before;
    } else {
      assert a == assets[n] by {
        assert assets == assets[..n] + [assets[n]];
      }
      var q := PositionOf(before, Key(a));
      p := if q.Some? then q.value else |before|;
    }
  }

  lemma NewKeyGroup(assets: seq<Asset>, a: Asset)
    requires PositionOf(Aggregated(assets), Key(a)).None?
    ensures Group(assets, Key(a)) == []
  {
    if Group(assets, Key(a)) != [] {
      var p := KeysCovered(assets, Group(assets, Key(a))[0]);
    }
  }

  /** Aggregation outputs every key once, for the combination of all assets that have it. */
  lemma {:induction false} AggregatesByKey(assets: seq<Asset>, p: nat, key: string)
    requires p < |Aggregated(assets)| && Key(Aggregated(assets)[p]) == key
    ensures Group(assets, key) != [] && Aggregated(assets)[p] == Combined(Group(assets, key))
  {
    var n := |assets| - 1;
    var before, a := Aggregated(assets[..n]), assets[n];
    var q := PositionOf(before, Key(a));
    var group := Group(assets[..n], key);
    if q.None? && p == |before| {
      NewKeyGroup(assets[..n], a);
      assert Group(assets, key) == [a] && Combined([a]) == a;
    } else {
      KeysDistinct(assets[..n]);
      assert Key(before[p]) == key;
      assert q == Some(p) <==> Key(a) == key;
      AggregatesByKey(assets[..n], p, key);
      if Key(a) == key {
        CombinedNext(group, a);
        assert Aggregated(assets)[p] == Merged(before[p], a);
        assert Group(assets, key) == group + [a];
      } else {
        assert Aggregated(assets)[p] == before[p];
        assert Group(assets, key) == group;
      }
    }
  }

  lemma CombinedProperties(assets: seq<Asset>, p: nat) returns (a: Asset)
    requires p < |Aggregated(assets)|
    ensures a in assets && Aggregated(assets)[p].properties == a.properties
  {
    var key := Key(Aggregated(assets)[p]);
    AggregatesByKey(assets, p, key);
    a := Group(assets, key)[0];
  }

  lemma {:induction false} AllNamesMembers(group: seq<Asset>, x: string)
    ensures x in AllNames(group) <==> exists a :: a in group && x in a.names
  {
    if group != [] {
      AllNamesMembers(group[..|group| - 1], x);
      assert group == group[..|group| - 1] + [group[|group| - 1]];
    }
  }

  lemma {:induction false} AllLocationsMembers(group: seq<Asset>, x: string)
    ensures x in AllLocations(group) <==> exists a :: a in group && x in a.locations
  {
    if group != [] {
      AllLocationsMembers(group[..|group| - 1], x);
      assert group == group[..|group| - 1] + [group[|group| - 1]];
    }
  }

  /** No name or location is lost or invented for any key. */
  lemma NamesAndLocationsConserved(assets: seq<Asset>, p: nat, x: string)
    requires p < |Aggregated(assets)|
    ensures
      var out := Aggregated(assets)[p];
      && (x in out.names <==> exists a :: a in assets && Key(a) == Key(out) && x in a.names)
      && (x in out.locations <==> exists a :: a in assets && Key(a) == Key(out) && x in a.locations)
  {
    var out := Aggregated(assets)[p];
    var group := Group(assets, Key(out));
    AggregatesByKey(assets, p, Key(out));
    AllNamesMembers(group, x);
    AllLocationsMembers(group, x);
    if |group| == 1 {
      assert group[..0] == [];
      assert AllNames(group) == group[0].names && AllLocations(group) == group[0].locations;
    } else {
      SortedSetMembers(AllNames(group), x);
      SortedSetMembers(AllLocations(group), x);
    }
  }

  // ---------------------------------------------------------------- aggregation in place

  class CryptoAsset {
    var names: seq<string>
    var locations: seq<string>
    const properties: Properties

    constructor (asset: Asset)
      ensures Value() == asset
    {
      names := asset.names;
      locations := asset.locations;
      properties := asset.properties;
    }

    function Value(): Asset
      reads this
    {
      Asset(names, locations, properties)
    }

    method Absorb(other: CryptoAsset)
      modifies this
      ensures Value() == Merged(old(Value()), old(other.Value()))
    {
      names := SortedSet(names + other.names);
      locations := SortedSet(locations + other.locations);
    }
  }

  function Values(assets: seq<CryptoAsset>): seq<Asset>
    reads assets
  {
    seq(|assets|, i requires 0 <= i < |assets| reads assets => assets[i].Value())
  }

  /** The dictionary finds the position of every key. */
  ghost predicate IndexesKeys(byKey: map<string, nat>, assets: seq<Asset>) {
    forall key :: PositionOf(assets, key) == if key in byKey then Some(byKey[key]) else None
  }

  lemma {:induction false} PositionAppends(assets: seq<Asset>, a: Asset, key: string)
    ensures
      PositionOf(assets + [a], key) ==
      if PositionOf(assets, key).Some? then PositionOf(assets, key)
      else if Key(a) == key then Some(|assets|) else None
  {
    if assets != [] {
      PositionAppends(assets[1..], a, key);
      assert (assets + [a])[1..] == assets[1..] + [a];
    }
  }

  lemma {:induction false} PositionKeeps(assets: seq<Asset>, p: nat, a: Asset, key: string)
    requires p < |assets| && Key(a) == Key(assets[p])
    ensures PositionOf(assets[p := a], key) == PositionOf(assets, key)
  {
    if p > 0 {
      PositionKeeps(assets[1..], p - 1, a, key);
      assert assets[p := a][1..] == assets[1..][p - 1 := a];
    } else {
      assert assets[p := a][1..] == assets[1..];
    }
  }

  lemma IndexAppends(byKey: map<string, nat>, assets: seq<Asset>, a: Asset)
    requires IndexesKeys(byKey, assets) && Key(a) !in byKey
    ensures IndexesKeys(byKey[Key(a) := |assets|], assets + [a])
  {
    forall key
      ensures
        PositionOf(assets + [a], key) ==
        if key in byKey[Key(a) := |assets|] then Some(byKey[Key(a) := |assets|][key]) else None
    {
      PositionAppends(assets, a, key);
      assert PositionOf(assets, key) == if key in byKey then Some(byKey[key]) else None;
    }
  }

  lemma IndexKeeps(byKey: map<string, nat>, assets: seq<Asset>, p: nat, a: Asset)
    requires IndexesKeys(byKey, assets) && p < |assets| && Key(a) == Key(assets[p])
    ensures IndexesKeys(byKey, assets[p := a])
  {
    forall key
      ensures PositionOf(assets[p := a], key) == if key in byKey then Some(byKey[key]) else None
    {
      PositionKeeps(assets, p, a, key);
    }
  }

  /** The aggregated objects are different ones of the first `i`; they have the values that aggregating those gives,
      and the later ones are untouched. */
  ghost predicate Underway(aggregated: seq<CryptoAsset>, assets: seq<CryptoAsset>, i: nat, values: seq<Asset>)
    reads assets, aggregated
  {
    && i <= |assets| == |values|
    && (forall a :: a in aggregated ==> a in assets[..i])
    && Distinct(aggregated)
    && (forall j :: i <= j < |assets| ==> assets[j].Value() == values[j])
    && Values(aggregated) == Aggregated(values[..i])
  }

  lemma AggregatedNext(values: seq<Asset>, i: nat, p: Option<nat>)
    requires i < |values| && p == PositionOf(Aggregated(values[..i]), Key(values[i]))
    ensures
      var before := Aggregated(values[..i]);
      Aggregated(values[..i + 1]) ==
      if p.None? then before + [values[i]] else before[p.value := Merged(before[p.value], values[i])]
  {
    assert values[..i + 1][..i] == values[..i];
  }

  lemma UnderwayAppends(aggregated: seq<CryptoAsset>, assets: seq<CryptoAsset>, i: nat, values: seq<Asset>)
    requires Distinct(assets) && i < |assets| && Underway(aggregated, assets, i, values)
    requires PositionOf(Aggregated(values[..i]), Key(values[i])).None?
    ensures Underway(aggregated + [assets[i]], assets, i + 1, values)
  {
    AggregatedNext(values, i, None);
    TakeNext(assets, i);
    MembersAppend(aggregated, assets[..i], assets[i]);
  }

  lemma MembersAppend(aggregated: seq<CryptoAsset>, before: seq<CryptoAsset>, a: CryptoAsset)
    requires Distinct(aggregated) && a !in before && forall x :: x in aggregated ==> x in before
    ensures Distinct(aggregated + [a]) && forall x :: x in aggregated + [a] ==> x in before + [a]
  {
    assert forall i :: 0 <= i < |aggregated| ==> aggregated[i] in before;
  }

  /** Merges `assets[i]` into the aggregated asset at position `p`; everything else stays. */
  method MergeInto(aggregated: seq<CryptoAsset>, p: nat, assets: seq<CryptoAsset>, i: nat, ghost values: seq<Asset>)
    requires Distinct(assets) && i < |assets| && Underway(aggregated, assets, i, values)
    requires PositionOf(Aggregated(values[..i]), Key(values[i])) == Some(p) && p < |aggregated|
    modifies aggregated[p]
    ensures Underway(aggregated, assets, i + 1, values)
  {
    AggregatedNext(values, i, Some(p));
    TakeNext(assets, i);
    ghost var before := Values(aggregated);
    assert aggregated[p] in aggregated;
    aggregated[p].Absorb(assets[i]);
    forall j | i < j < |assets|
      ensures assets[j] != aggregated[p]
    {
      var k :| 0 <= k < i && assets[k] == aggregated[p];
    }
    forall k | 0 <= k < |aggregated|
      ensures Values(aggregated)[k] == if k == p then Merged(before[p], values[i]) else before[k]
    {
      assert k != p ==> aggregated[k] != aggregated[p];
    }
    assert Values(aggregated) == before[p := Merged(before[p], values[i])];
  }

  /** The first asset of every key absorbs the others and is returned, in order of first occurrence. */
  method AggregateCryptoAssets(assets: seq<CryptoAsset>) returns (aggregated: seq<CryptoAsset>)
    requires Distinct(assets)
    modifies assets
    ensures forall a :: a in aggregated ==> a in assets
    ensures Values(aggregated) == Aggregated(old(Values(assets)))
  {
    aggregated := [];
    var byKey: map<string, nat> := map[];
    ghost var values := Values(assets);
    for i := 0 to |assets|
      invariant Underway(aggregated, assets, i, values)
      invariant IndexesKeys(byKey, Aggregated(values[..i]))
    {
      var key := Key(assets[i].Value());
      ghost var before := Aggregated(values[..i]);
      assert PositionOf(before, key) == if key in byKey then Some(byKey[key]) else None;
      AggregatedNext(values, i, PositionOf(before, key));
      if key !in byKey {
        IndexAppends(byKey, before, values[i]);
        UnderwayAppends(aggregated, assets, i, values);
        byKey := byKey[key := |aggregated|];
        aggregated := aggregated + [assets[i]];
      } else {
        IndexKeeps(byKey, before, byKey[key], Merged(before[byKey[key]], values[i]));
        assert aggregated[byKey[key]] in aggregated;
        MergeInto(aggregated, byKey[key], assets, i, values);
      }
    }
    assert values[..|assets|] == values;
  }

  // ---------------------------------------------------------------- references survive

  ghost predicate AllResolve(raws: seq<Raw>) {
    forall i, r :: 0 <= i < |raws| && r in Refs(raws[i]) && r != "" ==> Find(raws, r).Some?
  }

  lemma {:induction false} ResolvedDeserialises(raws: seq<Raw>, i: nat, rank: seq<nat>)
    requires Ranked(raws, rank) && i < |raws| && AllResolve(raws)
    ensures Deserialise(raws, i, rank).Ok?
    decreases rank[i]
  {
    forall r | r in Refs(raws[i])
      ensures RefBelow(raws, rank, r, rank[i]) && BomRefToDataKey(r, raws, rank, rank[i]).Ok?
    {
      if r != "" {
        ResolvedDeserialises(raws, Find(raws, r).value, rank);
      }
    }
    RefsSuffice(raws[i], raws, rank, rank[i]);
  }

  /** An asset deserialises exactly if each of its references does. */
  lemma RefsSuffice(raw: Raw, raws: seq<Raw>, rank: seq<nat>, bound: nat)
    requires Ranked(raws, rank) && forall r :: r in Refs(raw) ==> RefBelow(raws, rank, r, bound)
    ensures
      DeserialiseProperties(raw, raws, rank, bound).Ok? <==>
      forall r :: r in Refs(raw) ==> BomRefToDataKey(r, raws, rank, bound).Ok?
  {
    if !raw.kind.LibraryComponent? && raw.properties.RawCertificate? {
      var refs := [raw.properties.signatureRef, raw.properties.publicKeyRef];
      assert Refs(raw) == refs && refs[0] in refs && refs[1] in refs;
    } else if !raw.kind.LibraryComponent? && raw.properties.RawMaterial? {
      assert raw.properties.algorithmRef in Refs(raw);
    }
  }

  ghost predicate AllDeserialise(raws: seq<Raw>, n: nat, rank: seq<nat>)
    requires Ranked(raws, rank) && n <= |raws|
  {
    forall i :: 0 <= i < n ==> Deserialise(raws, i, rank).Ok?
  }

  lemma {:induction false} DeserialiseAllAt(raws: seq<Raw>, n: nat, rank: seq<nat>)
    requires Ranked(raws, rank) && n <= |raws|
    ensures DeserialiseAll(raws, n, rank).Ok? <==> AllDeserialise(raws, n, rank)
    ensures
      var all := DeserialiseAll(raws, n, rank);
      all.Ok? ==> |all.value| == n && forall i :: 0 <= i < n ==> Deserialise(raws, i, rank) == Ok(all.value[i])
  {
    if n > 0 {
      DeserialiseAllAt(raws, n - 1, rank);
      assert AllDeserialise(raws, n, rank) <==> AllDeserialise(raws, n - 1, rank) && Deserialise(raws, n - 1, rank).Ok?;
    }
  }

  /** Deserialisation succeeds exactly if every reference leads to one of the assets considered. */
  lemma SucceedsIffAllResolve(raws: seq<Raw>, rank: seq<nat>)
    requires Ranked(raws, rank)
    ensures DeserialiseAll(raws, |raws|, rank).Ok? <==> AllResolve(raws)
  {
    DeserialiseAllAt(raws, |raws|, rank);
    if AllResolve(raws) {
      forall i | 0 <= i < |raws|
        ensures Deserialise(raws, i, rank).Ok?
      {
        ResolvedDeserialises(raws, i, rank);
      }
    } else {
      var i, r :| 0 <= i < |raws| && r in Refs(raws[i]) && r != "" && Find(raws, r).None?;
      assert RefBelow(raws, rank, r, rank[i]);
      assert BomRefToDataKey(r, raws, rank, rank[i]).Err?;
      RefsSuffice(raws[i], raws, rank, rank[i]);
      assert Deserialise(raws, i, rank).Err?;
    }
  }

  /** The keys of other assets that the properties refer to. */
  function StoredKeys(p: Properties): seq<Option<string>> {
    match p
    case Certificate(_, _, signature, publicKey) => [signature, publicKey]
    case Material(_, algorithm, _, _) => [algorithm]
    case _ => []
  }

  lemma StoredKeyIsKey(raws: seq<Raw>, rank: seq<nat>, i: nat, key: string) returns (j: nat)
    requires Ranked(raws, rank) && i < |raws| && Deserialise(raws, i, rank).Ok?
    requires Some(key) in StoredKeys(Deserialise(raws, i, rank).value.properties)
    ensures j < |raws| && Deserialise(raws, j, rank).Ok? && Key(Deserialise(raws, j, rank).value) == key
  {
    var refs := Refs(raws[i]);
    assert forall r :: r in refs ==> RefBelow(raws, rank, r, rank[i]);
    var r :| r in refs && BomRefToDataKey(r, raws, rank, rank[i]) == Ok(Some(key)) by {
      StoredKeyHasRef(raws[i], raws, rank, rank[i], key);
    }
    j := Find(raws, r).value;
  }

  lemma StoredKeyHasRef(raw: Raw, raws: seq<Raw>, rank: seq<nat>, bound: nat, key: string)
    requires Ranked(raws, rank) && forall r :: r in Refs(raw) ==> RefBelow(raws, rank, r, bound)
    requires DeserialiseProperties(raw, raws, rank, bound).Ok?
    requires Some(key) in StoredKeys(DeserialiseProperties(raw, raws, rank, bound).value)
    ensures exists r :: r in Refs(raw) && BomRefToDataKey(r, raws, rank, bound) == Ok(Some(key))
  {
    if raw.properties.RawCertificate? {
      assert raw.properties.signatureRef == Refs(raw)[0] && raw.properties.publicKeyRef == Refs(raw)[1];
    } else {
      assert raw.properties.algorithmRef == Refs(raw)[0];
    }
  }

  /** Exactly which components of a document are considered: cryptographic assets and known libraries, of the types
      asked for. */
  lemma {:induction false} FilterKeepsIff(components: seq<Raw>, known: seq<string>, included: Option<seq<string>>,
                                          raw: Raw)
    ensures
      raw in FilterAssets(components, known, included) <==>
      && raw in components
      && (raw.kind == CryptographicAsset || (raw.kind == LibraryComponent && raw.name in known))
      && (included.Some? ==> RawType(raw) in included.value)
  {
    if components != [] {
      FilterKeepsIff(components[1..], known, included, raw);
      assert raw in components <==> raw == components[0] || raw in components[1..];
    }
  }

  /** The asset carries what the component says: its name and locations, its own properties, the validity in years
      rounded up, and a type that is the one it was filtered by. */
  lemma DeserialisedCarries(raws: seq<Raw>, i: nat, rank: seq<nat>)
    requires Ranked(raws, rank) && i < |raws| && Deserialise(raws, i, rank).Ok?
    ensures
      var raw, a := raws[i], Deserialise(raws, i, rank).value;
      && a.names == [raw.name] && (forall l :: l in a.locations <==> l in raw.locations)
      && AssetType(a.properties) == RawType(raw)
    ensures
      var raw, p := raws[i], Deserialise(raws, i, rank).value.properties;
      if raw.kind.LibraryComponent? || raw.properties.RawLibrary?
      then p.Library? && p.name == raw.name && p.version == raw.version
      else match raw.properties
        case RawAlgorithm(primitive, parameterSet, curve, padding) =>
          && p.Algorithm? && p.name == raw.name && p.primitive == primitive && p.parameterSet == parameterSet
          && p.curve == curve && p.padding == padding
        case RawCertificate(kind, seconds, _, _) =>
          && p.Certificate? && p.kind == kind && (p.validityYears.Some? <==> seconds.Some?)
          && (seconds.Some? ==>
                (p.validityYears.value - 1) * 31536000 < seconds.value <= p.validityYears.value * 31536000)
        case RawProtocol(ptype, version) => p.Protocol? && p.ptype == ptype && p.version == version
        case RawMaterial(mtype, _, described, size) =>
          p.Material? && p.mtype == mtype && p.curve == Some(described) && p.size == size
        case RawLibrary => true
  {
    var raw := raws[i];
    forall l
      ensures l in SortedSet(raw.locations) <==> l in raw.locations
    {
      SortedSetMembers(raw.locations, l);
    }
  }

  /** The references of a certificate and of key material lead where the document says. */
  lemma DeserialisedRefers(raws: seq<Raw>, i: nat, rank: seq<nat>)
    requires Ranked(raws, rank) && i < |raws| && Deserialise(raws, i, rank).Ok? && !raws[i].kind.LibraryComponent?
    ensures
      var raw, p := raws[i].properties, Deserialise(raws, i, rank).value.properties;
      && (raw.RawCertificate? ==>
            && p.Certificate? && RefersTo(raws, raw.signatureRef, p.signatureAlgorithm, rank)
            && RefersTo(raws, raw.publicKeyRef, p.publicKey, rank))
      && (raw.RawMaterial? ==> p.Material? && RefersTo(raws, raw.algorithmRef, p.algorithm, rank))
  {
    var refs := Refs(raws[i]);
    RefsSuffice(raws[i], raws, rank, rank[i]);
    forall k | 0 <= k < |refs|
      ensures RefBelow(raws, rank, refs[k], rank[i]) && BomRefToDataKey(refs[k], raws, rank, rank[i]).Ok?
      ensures RefersTo(raws, refs[k], BomRefToDataKey(refs[k], raws, rank, rank[i]).value, rank)
    {
      assert refs[k] in refs;
      KeyRefers(refs[k], raws, rank, rank[i]);
    }
    if raws[i].properties.RawCertificate? {
      assert refs[0] == raws[i].properties.signatureRef && refs[1] == raws[i].properties.publicKeyRef;
    } else if raws[i].properties.RawMaterial? {
      assert refs[0] == raws[i].properties.algorithmRef;
    }
  }

  lemma KeyRefers(ref: string, raws: seq<Raw>, rank: seq<nat>, bound: nat)
    requires Ranked(raws, rank) && RefBelow(raws, rank, ref, bound) && BomRefToDataKey(ref, raws, rank, bound).Ok?
    ensures RefersTo(raws, ref, BomRefToDataKey(ref, raws, rank, bound).value, rank)
  {
  }

  /** An empty reference stores nothing, any other the key of the first asset with it. */
  predicate RefersTo(raws: seq<Raw>, ref: string, key: Option<string>, ghost rank: seq<nat>)
    requires Ranked(raws, rank)
  {
    if ref == "" then key == None
    else
      && Find(raws, ref).Some? && Deserialise(raws, Find(raws, ref).value, rank).Ok?
      && key == Some(Key(Deserialise(raws, Find(raws, ref).value, rank).value))
  }

  lemma {:induction false} FindsFirst(raws: seq<Raw>, ref: string)
    requires Find(raws, ref).Some?
    ensures forall k :: 0 <= k < Find(raws, ref).value ==> raws[k].bomRef != ref
  {
    if raws[0].bomRef != ref {
      FindsFirst(raws[1..], ref);
    }
  }

  /** The whole pipeline: filter, deserialise, aggregate. */
  function IterCryptoAssets(components: seq<Raw>, known: seq<string>, included: Option<seq<string>>,
                            ghost rank: seq<nat>)
    : Result<seq<Asset>, Error>
    requires Ranked(FilterAssets(components, known, included), rank)
  {
    var raws := FilterAssets(components, known, included);
    var assets := DeserialiseAll(raws, |raws|, rank);
    if assets.Err? then Err(assets.error) else Ok(Aggregated(assets.value))
  }

  /** Every key that an aggregated asset stores is the key of exactly one aggregated asset, so looking it up later
      cannot fail. */
  lemma EveryReferenceSurvives(components: seq<Raw>, known: seq<string>, included: Option<seq<string>>, rank: seq<nat>,
                               p: nat, key: string)
    requires Ranked(FilterAssets(components, known, included), rank)
    requires
      var assets := IterCryptoAssets(components, known, included, rank);
      assets.Ok? && p < |assets.value| && Some(key) in StoredKeys(assets.value[p].properties)
    ensures
      var assets := IterCryptoAssets(components, known, included, rank).value;
      DistinctKeys(assets) && PositionOf(assets, key).Some?
  {
    var raws := FilterAssets(components, known, included);
    var assets := DeserialiseAll(raws, |raws|, rank).value;
    DeserialiseAllAt(raws, |raws|, rank);
    KeysDistinct(assets);
    var a := CombinedProperties(assets, p);
    var i :| 0 <= i < |assets| && assets[i] == a;
    var j := StoredKeyIsKey(raws, rank, i, key);
    var q := KeysCovered(assets, assets[j]);
  }

  /** Leaving out a type that others refer to makes the whole document fail. */
  lemma ExcludedTypeBreaksReferences(certificate: Raw, algorithm: Raw, known: seq<string>, rank: seq<nat>)
    requires certificate.kind.CryptographicAsset? && certificate.properties.RawCertificate?
    requires algorithm.kind.CryptographicAsset? && algorithm.properties.RawAlgorithm?
    requires certificate.properties.signatureRef == algorithm.bomRef != "" && certificate.bomRef != algorithm.bomRef
    requires Ranked(FilterAssets([certificate, algorithm], known, Some(["certificate"])), rank)
    ensures IterCryptoAssets([certificate, algorithm], known, Some(["certificate"]), rank).Err?
  {
    assert [certificate, algorithm][1..] == [algorithm] && [algorithm][1..] == [];
    var raws := FilterAssets([certificate, algorithm], known, Some(["certificate"]));
    assert FilterAssets([algorithm], known, Some(["certificate"])) == [];
    assert raws == [certificate];
    assert Refs(raws[0])[0] == algorithm.bomRef;
    assert Find(raws, algorithm.bomRef).None?;
    assert !AllResolve(raws);
    SucceedsIffAllResolve(raws, rank);
  }
}
