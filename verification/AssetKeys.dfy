/** What the key of a cryptographic asset tells apart. (src/odg/model.py, src/crypto_extension/model.py) */
module AssetKeys {
  import opened Common
  import opened CryptoAssets

  // ---------------------------------------------------------------- assets unfolded

  /** An asset without names and locations, with the assets it refers to in place of their keys. */
  datatype Node = Node(ctype: string, parts: seq<Part>)

  datatype Part = Text(text: Option<string>) | Number(number: Option<int>) | Reference(to: Option<Node>)

  datatype PartKind = IsText | IsNumber | IsReference

  const NO_TYPE := "None"

  /** The kinds of the parts of every type. */
  const KINDS: map<string, seq<PartKind>> := map[
    "algorithm" := [IsText, IsText, IsText, IsText, IsText],
    "certificate" := [IsText, IsNumber, IsReference, IsReference],
    "library" := [IsText, IsText],
    "protocol" := [IsText, IsText],
    "related-crypto-material" := [IsText, IsReference, IsText, IsNumber]]

  predicate FitsKind(p: Part, kind: PartKind) {
    match kind
    case IsText => p.Text?
    case IsNumber => p.Number?
    case IsReference => p.Reference?
  }

  /** The text can stand in a key: it neither holds the separator nor spells an absent part. */
  predicate Plain(s: string) {
    '|' !in s && s != NO_TYPE
  }

  /** The node has the parts of its type, and all texts in it are plain. */
  predicate Proper(n: Node)
    decreases n, 0
  {
    n.ctype in KINDS && |n.parts| == |KINDS[n.ctype]| &&
    forall i :: 0 <= i < |n.parts| ==> FitsKind(n.parts[i], KINDS[n.ctype][i]) && ProperPart(n.parts[i])
  }

  predicate ProperPart(p: Part)
    decreases p, 1
  {
    match p
    case Text(text) => text.Some? ==> Plain(text.value)
    case Number(_) => true
    case Reference(to) => to.Some? ==> Proper(to.value)
  }

  function NodeText(n: Node): string
    decreases n, 0
  {
    n.ctype + PartsText(n.parts)
  }

  /** The parts, each after a separator. */
  function PartsText(ps: seq<Part>): string
    decreases ps, 2
  {
    if ps == [] then "" else "|" + (PartText(ps[0]) + PartsText(ps[1..]))
  }

  function PartText(p: Part): string
    decreases p, 1
  {
    match p
    case Text(text) => if text.Some? then text.value else NO_TYPE
    case Number(number) => IntText(number)
    case Reference(to) => if to.Some? then NodeText(to.value) else NO_TYPE
  }

  // ---------------------------------------------------------------- the text determines the node

  /** What may follow a part. */
  predicate Ends(rest: string) {
    rest == [] || rest[0] == '|'
  }

  lemma FirstField(x: string, r: string, y: string, q: string)
    requires '|' !in x && '|' !in y && Ends(r) && Ends(q) && x + r == y + q
    ensures x == y && r == q
  {
    assert forall i :: 0 <= i < |x| ==> (x + r)[i] == x[i] != '|';
    assert forall i :: 0 <= i < |y| ==> (y + q)[i] == y[i] != '|';
    assert (r != [] ==> (x + r)[|x|] == '|') && (q != [] ==> (y + q)[|y|] == '|');
    assert (x + r)[..|x|] == x && (y + q)[..|y|] == y && (x + r)[|x|..] == r && (y + q)[|y|..] == q;
  }

  lemma {:induction false} NatTextPlain(n: nat)
    ensures '|' !in NatText(n) && NatText(n) != [] && forall c :: c in NatText(n) ==> '0' <= c <= '9'
  {
    if n >= 10 {
      NatTextPlain(n / 10);
    }
  }

  lemma {:induction false} NatTextTellsApart(m: nat, n: nat)
    requires NatText(m) == NatText(n)
    ensures m == n
  {
    NatTextPlain(m / 10);
    NatTextPlain(n / 10);
    var s, t := NatText(m), NatText(n);
    assert s[|s| - 1] == '0' + (m % 10) as char && t[|t| - 1] == '0' + (n % 10) as char;
    if m >= 10 && n >= 10 {
      assert s[..|s| - 1] == NatText(m / 10) && t[..|t| - 1] == NatText(n / 10);
      NatTextTellsApart(m / 10, n / 10);
    } else {
      assert m >= 10 ==> |s| >= 2;
      assert n >= 10 ==> |t| >= 2;
    }
  }

  lemma IntTextHead(n: Option<int>)
    ensures '|' !in IntText(n) && IntText(n) != []
    ensures n.None? ==> IntText(n) == NO_TYPE
    ensures n.Some? && n.value < 0 ==> IntText(n)[0] == '-' && IntText(n)[1..] == NatText(-n.value)
    ensures n.Some? && n.value >= 0 ==> '0' <= IntText(n)[0] <= '9' && IntText(n) == NatText(n.value)
  {
    if n.Some? {
      var digits := NatText(Abs(n.value));
      NatTextPlain(Abs(n.value));
      assert digits[0] in digits;
    }
  }

  lemma IntTextTellsApart(m: Option<int>, n: Option<int>)
    requires IntText(m) == IntText(n)
    ensures m == n
  {
    IntTextHead(m);
    IntTextHead(n);
    if m.Some? && n.Some? {
      NatTextTellsApart(Abs(m.value), Abs(n.value));
    }
  }

  function Abs(n: int): nat {
    if n < 0 then -n else n
  }

  lemma EndsParts(ps: seq<Part>, rest: string)
    requires Ends(rest)
    ensures Ends(PartsText(ps) + rest)
  {
  }

  /** The text of a node determines it, whatever parts follow. */
  lemma {:induction false} TextTellsNodesApart(n: Node, m: Node, rest: string, rest': string)
    requires Proper(n) && Proper(m) && Ends(rest) && Ends(rest') && NodeText(n) + rest == NodeText(m) + rest'
    ensures n == m && rest == rest'
    decreases n, 0
  {
    TypesTellApart(n, m, rest, rest');
    TextTellsPartsApart(n.parts, m.parts, KINDS[n.ctype], rest, rest');
  }

  lemma TypesTellApart(n: Node, m: Node, rest: string, rest': string)
    requires n.ctype in KINDS && m.ctype in KINDS && Ends(rest) && Ends(rest')
    requires NodeText(n) + rest == NodeText(m) + rest'
    ensures n.ctype == m.ctype && PartsText(n.parts) + rest == PartsText(m.parts) + rest'
  {
    EndsParts(n.parts, rest);
    EndsParts(m.parts, rest');
    assert NodeText(n) + rest == n.ctype + (PartsText(n.parts) + rest);
    assert NodeText(m) + rest' == m.ctype + (PartsText(m.parts) + rest');
    TypesArePlain(n.ctype);
    TypesArePlain(m.ctype);
    FirstField(n.ctype, PartsText(n.parts) + rest, m.ctype, PartsText(m.parts) + rest');
  }

  lemma TypesArePlain(t: string)
    requires t in KINDS
    ensures Plain(t) && t != []
  {
    assert t in {"algorithm", "certificate", "library", "protocol", "related-crypto-material"};
    assert |NO_TYPE| == 4;
  }

  predicate ProperParts(ps: seq<Part>, kinds: seq<PartKind>)
    decreases ps, 2
  {
    |ps| == |kinds| && forall i :: 0 <= i < |ps| ==> FitsKind(ps[i], kinds[i]) && ProperPart(ps[i])
  }

  lemma {:induction false} TextTellsPartsApart(ps: seq<Part>, qs: seq<Part>, kinds: seq<PartKind>, rest: string,
                                               rest': string)
    requires ProperParts(ps, kinds) && ProperParts(qs, kinds) && Ends(rest) && Ends(rest')
    requires PartsText(ps) + rest == PartsText(qs) + rest'
    ensures ps == qs && rest == rest'
    decreases ps, 2
  {
    if ps != [] {
      FirstParts(ps, qs, rest, rest');
      EndsParts(ps[1..], rest);
      EndsParts(qs[1..], rest');
      TextTellsPartApart(ps[0], qs[0], kinds[0], PartsText(ps[1..]) + rest, PartsText(qs[1..]) + rest');
      TextTellsPartsApart(ps[1..], qs[1..], kinds[1..], rest, rest');
      assert ps == [ps[0]] + ps[1..] && qs == [qs[0]] + qs[1..];
    } else {
      assert PartsText(ps) + rest == rest && PartsText(qs) + rest' == rest';
    }
  }

  lemma FirstParts(ps: seq<Part>, qs: seq<Part>, rest: string, rest': string)
    requires ps != [] && qs != [] && PartsText(ps) + rest == PartsText(qs) + rest'
    ensures PartText(ps[0]) + (PartsText(ps[1..]) + rest) == PartText(qs[0]) + (PartsText(qs[1..]) + rest')
  {
    DropSeparator(PartText(ps[0]), PartsText(ps[1..]), rest);
    DropSeparator(PartText(qs[0]), PartsText(qs[1..]), rest');
  }

  lemma DropSeparator(a: string, b: string, rest: string)
    ensures ("|" + (a + b) + rest)[1..] == a + (b + rest)
  {
  }

  lemma TextTellsPartApart(p: Part, q: Part, kind: PartKind, rest: string, rest': string)
    requires FitsKind(p, kind) && FitsKind(q, kind) && ProperPart(p) && ProperPart(q) && Ends(rest) && Ends(rest')
    requires PartText(p) + rest == PartText(q) + rest'
    ensures p == q && rest == rest'
    decreases p, 1
  {
    match p
    case Text(_) => FirstField(PartText(p), rest, PartText(q), rest');
    case Number(_) =>
      IntTextHead(p.number);
      IntTextHead(q.number);
      FirstField(PartText(p), rest, PartText(q), rest');
      IntTextTellsApart(p.number, q.number);
    case Reference(_) =>
      if p.to.Some? && q.to.Some? {
        TextTellsNodesApart(p.to.value, q.to.value, rest, rest');
      } else if p.to.Some? {
        NodeIsNotAbsent(p.to.value, rest, rest');
      } else if q.to.Some? {
        NodeIsNotAbsent(q.to.value, rest', rest);
      } else {
        FirstField(NO_TYPE, rest, NO_TYPE, rest');
      }
  }

  lemma NodeIsNotAbsent(n: Node, rest: string, rest': string)
    requires Proper(n) && Ends(rest) && Ends(rest')
    ensures NodeText(n) + rest != NO_TYPE + rest'
  {
    TypesArePlain(n.ctype);
    EndsParts(n.parts, rest);
    assert NodeText(n) + rest == n.ctype + (PartsText(n.parts) + rest);
    if n.ctype + (PartsText(n.parts) + rest) == NO_TYPE + rest' {
      FirstField(n.ctype, PartsText(n.parts) + rest, NO_TYPE, rest');
    }
  }

  // ---------------------------------------------------------------- keys of deserialised assets

  /** The node of properties, given what their references lead to. */
  function NodeOf(p: Properties, first: Option<Node>, second: Option<Node>): Node {
    match p
    case Algorithm(name, primitive, parameterSet, curve, padding) =>
      Node("algorithm", [Text(Some(name)), Text(primitive), Text(parameterSet), Text(curve), Text(padding)])
    case Certificate(kind, years, _, _) =>
      Node("certificate", [Text(Some(kind)), Number(years), Reference(first), Reference(second)])
    case Library(name, version) => Node("library", [Text(Some(name)), Text(version)])
    case Protocol(ptype, version) => Node("protocol", [Text(ptype), Text(version)])
    case Material(mtype, _, curve, size) =>
      Node("related-crypto-material", [Text(mtype), Reference(first), Text(curve), Number(size)])
  }

  /** An asset as it was deserialised, its references followed. */
  ghost function Unfolded(raws: seq<Raw>, i: nat, rank: seq<nat>): Node
    requires Ranked(raws, rank) && i < |raws| && Deserialise(raws, i, rank).Ok?
    decreases rank[i], 1
  {
    var refs := Refs(raws[i]);
    RefsSuffice(raws[i], raws, rank, rank[i]);
    assert forall k :: 0 <= k < |refs| ==> refs[k] in refs;
    NodeOf(Deserialise(raws, i, rank).value.properties,
           if |refs| > 0 then UnfoldedRef(refs[0], raws, rank, rank[i]) else None,
           if |refs| > 1 then UnfoldedRef(refs[1], raws, rank, rank[i]) else None)
  }

  ghost function UnfoldedRef(ref: string, raws: seq<Raw>, rank: seq<nat>, bound: nat): Option<Node>
    requires Ranked(raws, rank) && RefBelow(raws, rank, ref, bound) && BomRefToDataKey(ref, raws, rank, bound).Ok?
    decreases bound, 0
  {
    if ref == "" then None else Some(Unfolded(raws, Find(raws, ref).value, rank))
  }

  lemma {:induction false} PartsAsKey(ps: seq<Part>, xs: seq<Option<string>>)
    requires |ps| == |xs| > 0
    requires forall i :: 0 <= i < |ps| ==> PartText(ps[i]) == if xs[i].Some? then xs[i].value else NO_TYPE
    ensures PartsText(ps) == "|" + AsKey(xs)
  {
    if |ps| > 1 {
      PartsAsKey(ps[1..], xs[1..]);
      assert AsKey(xs) == PartText(ps[0]) + "|" + AsKey(xs[1..]);
    } else {
      assert ps[1..] == [] && PartsText(ps[1..]) == "";
    }
  }

  /** The references in the node print as the keys the properties store. */
  predicate Agrees(p: Properties, first: Option<Node>, second: Option<Node>) {
    match p
    case Certificate(_, _, signature, publicKey) => Stores(signature, first) && Stores(publicKey, second)
    case Material(_, algorithm, _, _) => Stores(algorithm, first)
    case _ => true
  }

  predicate Stores(key: Option<string>, to: Option<Node>) {
    key == if to.Some? then Some(NodeText(to.value)) else None
  }

  lemma KeyOfTwo(a: string, b: string)
    ensures AsKey([Some(a), Some(b)]) == a + ("|" + b)
  {
    assert [Some(a), Some(b)][1..] == [Some(b)];
  }

  lemma NodeKey(p: Properties, first: Option<Node>, second: Option<Node>)
    requires Agrees(p, first, second)
    ensures NodeText(NodeOf(p, first, second)) == KeyOf(p)
  {
    var parts := NodeOf(p, first, second).parts;
    KeyOfTwo(AssetType(p), PropertiesKey(p));
    match p
    case Algorithm(name, primitive, parameterSet, curve, padding) =>
      PartsAsKey(parts, [Some(name), primitive, parameterSet, curve, padding]);
    case Certificate(kind, years, signature, publicKey) =>
      PartsAsKey(parts, [Some(kind), Some(IntText(years)), signature, publicKey]);
    case Library(name, version) => PartsAsKey(parts, [Some(name), version]);
    case Protocol(ptype, version) => PartsAsKey(parts, [ptype, version]);
    case Material(mtype, algorithm, curve, size) =>
      PartsAsKey(parts, [mtype, algorithm, curve, Some(IntText(size))]);
  }

  lemma {:induction false} UnfoldedKey(raws: seq<Raw>, i: nat, rank: seq<nat>)
    requires Ranked(raws, rank) && i < |raws| && Deserialise(raws, i, rank).Ok?
    ensures NodeText(Unfolded(raws, i, rank)) == Key(Deserialise(raws, i, rank).value)
    decreases rank[i], 1
  {
    var refs := Refs(raws[i]);
    var p := Deserialise(raws, i, rank).value.properties;
    RefsSuffice(raws[i], raws, rank, rank[i]);
    assert forall k :: 0 <= k < |refs| ==> refs[k] in refs;
    if |refs| > 0 {
      UnfoldedRefKey(refs[0], raws, rank, rank[i]);
    }
    if |refs| > 1 {
      UnfoldedRefKey(refs[1], raws, rank, rank[i]);
    }
    NodeKey(p, if |refs| > 0 then UnfoldedRef(refs[0], raws, rank, rank[i]) else None,
            if |refs| > 1 then UnfoldedRef(refs[1], raws, rank, rank[i]) else None);
  }

  lemma UnfoldedRefKey(ref: string, raws: seq<Raw>, rank: seq<nat>, bound: nat)
    requires Ranked(raws, rank) && RefBelow(raws, rank, ref, bound) && BomRefToDataKey(ref, raws, rank, bound).Ok?
    ensures Stores(BomRefToDataKey(ref, raws, rank, bound).value, UnfoldedRef(ref, raws, rank, bound))
    decreases bound, 0
  {
    if ref != "" {
      UnfoldedKey(raws, Find(raws, ref).value, rank);
    }
  }

  predicate PlainOption(o: Option<string>) {
    o.Some? ==> Plain(o.value)
  }

  /** The texts of the asset itself are plain. */
  predicate PlainRaw(raw: Raw) {
    && Plain(raw.name) && PlainOption(raw.version)
    && match raw.properties
       case RawAlgorithm(primitive, parameterSet, curve, padding) =>
         PlainOption(primitive) && PlainOption(parameterSet) && PlainOption(curve) && PlainOption(padding)
       case RawCertificate(kind, _, _, _) => Plain(kind)
       case RawLibrary => true
       case RawProtocol(ptype, version) => PlainOption(ptype) && PlainOption(version)
       case RawMaterial(mtype, _, described, _) => PlainOption(mtype) && Plain(described)
  }

  lemma {:induction false} UnfoldedProper(raws: seq<Raw>, i: nat, rank: seq<nat>)
    requires Ranked(raws, rank) && i < |raws| && Deserialise(raws, i, rank).Ok?
    requires forall k :: 0 <= k < |raws| ==> PlainRaw(raws[k])
    ensures Proper(Unfolded(raws, i, rank))
    decreases rank[i]
  {
    var refs := Refs(raws[i]);
    RefsSuffice(raws[i], raws, rank, rank[i]);
    forall k | 0 <= k < |refs|
      ensures RefBelow(raws, rank, refs[k], rank[i]) && BomRefToDataKey(refs[k], raws, rank, rank[i]).Ok?
      ensures ProperPart(Reference(UnfoldedRef(refs[k], raws, rank, rank[i])))
    {
      assert refs[k] in refs;
      if refs[k] != "" {
        UnfoldedProper(raws, Find(raws, refs[k]).value, rank);
      }
    }
    assert PlainRaw(raws[i]);
  }

  /** On plain texts the key of a deserialised asset tells its type, its own properties and, all the way, those of the
      assets it refers to; names and locations it leaves out. */
  lemma KeyTellsAssetsApart(raws: seq<Raw>, i: nat, rank: seq<nat>, others: seq<Raw>, j: nat, ranks: seq<nat>)
    requires Ranked(raws, rank) && i < |raws| && Deserialise(raws, i, rank).Ok?
    requires Ranked(others, ranks) && j < |others| && Deserialise(others, j, ranks).Ok?
    requires forall k :: 0 <= k < |raws| ==> PlainRaw(raws[k])
    requires forall k :: 0 <= k < |others| ==> PlainRaw(others[k])
    ensures
      Key(Deserialise(raws, i, rank).value) == Key(Deserialise(others, j, ranks).value) <==>
      Unfolded(raws, i, rank) == Unfolded(others, j, ranks)
  {
    var n, m := Unfolded(raws, i, rank), Unfolded(others, j, ranks);
    UnfoldedKey(raws, i, rank);
    UnfoldedKey(others, j, ranks);
    UnfoldedProper(raws, i, rank);
    UnfoldedProper(others, j, ranks);
    if NodeText(n) == NodeText(m) {
      assert NodeText(n) + "" == NodeText(m) + "";
      TextTellsNodesApart(n, m, "", "");
    }
  }
}
