/**
 Cache keys: the canonical serialiser, a parser that undoes it, and what a key identifies. The serialiser joins texts
 with short sequences of `|`, `-`, `_` and `:`; that its output can still be taken apart is what makes keys tell values
 apart. (src/deliverydb_cache/util.py)
 */
module CacheKeys {
  import opened Common

  const MAX_DEPTH := 100

  /** What the serialiser tells apart in its argument. `Other` covers dates, numbers, `None`, ...,
      printed by `isoformat` or `str` without any check; a `Record` is a dataclass, its field
      names being `Str` keys. */
  datatype Value =
    | Str(text: string)
    | Enum(text: string)
    | Other(text: string)
    | Generator
    | Record(items: seq<Pair>)
    | Mapping(items: seq<Pair>)
    | Iterable(elems: seq<Value>)

  datatype Pair = Pair(key: Value, value: Value)

  datatype Error = ValueError | DepthError

  datatype Entry = Entry(key: string, value: string)

  // ---------------------------------------------------------------- the serialiser

  predicate StartsWith(s: string, p: string) {
    |p| <= |s| && s[..|p|] == p
  }

  predicate Contains(s: string, p: string) {
    StartsWith(s, p) || (s != [] && Contains(s[1..], p))
  }

  predicate HasJoinCharacters(s: string) {
    Contains(s, "|-") || Contains(s, "--|") || Contains(s, "|_") || Contains(s, "__|") || Contains(s, "|:")
  }

  function Self(s: string): string { s }

  function KeyOf(e: Entry): string { e.key }

  function ListBody(ts: seq<string>): string {
    if ts == [] then ""
    else if |ts| == 1 then ts[0]
    else ts[0] + ("|_" + ListBody(ts[1..]))
  }

  function DictBody(es: seq<Entry>): string {
    if es == [] then ""
    else
      var first := es[0].key + ("|:" + es[0].value);
      if |es| == 1 then first else first + ("|-" + DictBody(es[1..]))
  }

  function ListText(ts: seq<string>): string {
    "|__" + (ListBody(ts) + "__|")
  }

  function DictText(es: seq<Entry>): string {
    "|--" + (DictBody(es) + "--|")
  }

  /** `dataclasses.asdict`: every record, at any nesting, becomes a mapping. */
  function AsDict(v: Value): Value
    decreases v, 0
  {
    match v
    case Record(items) => Mapping(PairsAsDict(items))
    case Mapping(items) => Mapping(PairsAsDict(items))
    case Iterable(elems) => Iterable(seq(|elems|, i requires 0 <= i < |elems| => AsDict(elems[i])))
    case _ => v
  }

  function PairsAsDict(items: seq<Pair>): seq<Pair>
    decreases items, 2
  {
    seq(|items|, i requires 0 <= i < |items| => PairAsDict(items[i]))
  }

  function PairAsDict(p: Pair): Pair
    decreases p, 1
  {
    Pair(AsDict(p.key), AsDict(p.value))
  }

  /** `normalise_and_serialise_object`. */
  function Normalise(v: Value, depth: nat): Result<string, Error>
    decreases MAX_DEPTH + 1 - depth, 0
  {
    if depth > MAX_DEPTH then Err(DepthError)
    else
      match v
      case Generator => Err(ValueError)
      case Str(s) => if HasJoinCharacters(s) then Err(ValueError) else Ok(s)
      case Enum(s) => if HasJoinCharacters(s) then Err(ValueError) else Ok(s)
      case Other(s) => Ok(s)
      case Record(_) => Normalise(AsDict(v), depth + 1)
      case Mapping(items) =>
        (match NormalisePairs(items, depth + 1)
         case Err(e) => Err(e)
         case Ok(es) => Ok(DictText(SortBy(es, KeyOf))))
      case Iterable(elems) =>
        (match NormaliseAll(elems, depth + 1)
         case Err(e) => Err(e)
         case Ok(ts) => Ok(ListText(SortBy(ts, Self))))
  }

  function NormaliseAll(elems: seq<Value>, depth: nat): Result<seq<string>, Error>
    decreases MAX_DEPTH + 1 - depth, 1 + |elems|
  {
    if elems == [] then Ok([])
    else
      match Normalise(elems[0], depth)
      case Err(e) => Err(e)
      case Ok(t) =>
        match NormaliseAll(elems[1..], depth)
        case Err(e) => Err(e)
        case Ok(ts) => Ok([t] + ts)
  }

  function NormalisePairs(items: seq<Pair>, depth: nat): Result<seq<Entry>, Error>
    decreases MAX_DEPTH + 1 - depth, 1 + |items|
  {
    if items == [] then Ok([])
    else
      match Normalise(items[0].key, depth)
      case Err(e) => Err(e)
      case Ok(k) =>
        match Normalise(items[0].value, depth)
        case Err(e) => Err(e)
        case Ok(t) =>
          match NormalisePairs(items[1..], depth)
          case Err(e) => Err(e)
          case Ok(es) => Ok([Entry(k, t)] + es)
  }

  // ---------------------------------------------------------------- the text, free of checks

  /** The text of a value, whatever its depth and atoms. */
  function Render(v: Value): string
    decreases v, 0
  {
    match v
    case Generator => ""
    case Str(s) => s
    case Enum(s) => s
    case Other(s) => s
    case Record(items) => DictText(SortBy(RenderPairs(items), KeyOf))
    case Mapping(items) => DictText(SortBy(RenderPairs(items), KeyOf))
    case Iterable(elems) => ListText(SortBy(RenderAll(elems), Self))
  }

  function RenderAll(elems: seq<Value>): (r: seq<string>)
    decreases elems, 2
  {
    seq(|elems|, i requires 0 <= i < |elems| => Render(elems[i]))
  }

  function RenderPairs(items: seq<Pair>): (r: seq<Entry>)
    decreases items, 2
  {
    seq(|items|, i requires 0 <= i < |items| => RenderPair(items[i]))
  }

  function RenderPair(p: Pair): Entry
    decreases p, 1
  {
    Entry(Render(p.key), Render(p.value))
  }

  lemma {:induction false} RenderAsDict(v: Value)
    ensures Render(AsDict(v)) == Render(v)
    decreases v, 0
  {
    match v
    case Record(items) => RenderPairsAsDict(items);
    case Mapping(items) => RenderPairsAsDict(items);
    case Iterable(elems) =>
      forall i | 0 <= i < |elems| {
        RenderAsDict(elems[i]);
      }
      assert RenderAll(AsDict(v).elems) == RenderAll(elems);
    case _ =>
  }

  lemma {:induction false} RenderPairsAsDict(items: seq<Pair>)
    ensures RenderPairs(PairsAsDict(items)) == RenderPairs(items)
    decreases items, 2
  {
    forall i | 0 <= i < |items| {
      RenderPairAsDict(items[i]);
    }
  }

  lemma RenderPairAsDict(p: Pair)
    ensures RenderPair(PairAsDict(p)) == RenderPair(p)
    decreases p, 1
  {
    RenderAsDict(p.key);
    RenderAsDict(p.value);
  }

  /** A successful call returns the value's text, at whatever depth it is made. */
  lemma {:induction false} NormaliseRenders(v: Value, depth: nat)
    requires Normalise(v, depth).Ok?
    ensures Normalise(v, depth).value == Render(v)
    decreases MAX_DEPTH + 1 - depth, 0
  {
    match v
    case Record(_) =>
      NormaliseRenders(AsDict(v), depth + 1);
      RenderAsDict(v);
    case Mapping(items) => NormalisePairsRenders(items, depth + 1);
    case Iterable(elems) => NormaliseAllRenders(elems, depth + 1);
    case _ =>
  }

  lemma {:induction false} NormaliseAllRenders(elems: seq<Value>, depth: nat)
    requires NormaliseAll(elems, depth).Ok?
    ensures NormaliseAll(elems, depth).value == RenderAll(elems)
    decreases MAX_DEPTH + 1 - depth, 1 + |elems|
  {
    if elems != [] {
      NormaliseRenders(elems[0], depth);
      NormaliseAllRenders(elems[1..], depth);
    }
  }

  lemma {:induction false} NormalisePairsRenders(items: seq<Pair>, depth: nat)
    requires NormalisePairs(items, depth).Ok?
    ensures NormalisePairs(items, depth).value == RenderPairs(items)
    decreases MAX_DEPTH + 1 - depth, 1 + |items|
  {
    if items != [] {
      NormaliseRenders(items[0].key, depth);
      NormaliseRenders(items[0].value, depth);
      NormalisePairsRenders(items[1..], depth);
    }
  }

  // ---------------------------------------------------------------- the parser

  /** Serialised values as trees: what a key can be decoded into. */
  datatype Tree =
    | Leaf(text: string)
    | Dict(entries: seq<TreeEntry>)
    | List(elems: seq<Tree>)

  datatype TreeEntry = TreeEntry(key: Tree, value: Tree)

  function Print(t: Tree): string
    decreases t, 0
  {
    match t
    case Leaf(s) => s
    case Dict(es) => DictText(PrintEntries(es))
    case List(ts) => ListText(PrintAll(ts))
  }

  function PrintAll(ts: seq<Tree>): (r: seq<string>)
    decreases ts, 2
  {
    seq(|ts|, i requires 0 <= i < |ts| => Print(ts[i]))
  }

  function PrintEntries(es: seq<TreeEntry>): (r: seq<Entry>)
    decreases es, 2
  {
    seq(|es|, i requires 0 <= i < |es| => PrintEntry(es[i]))
  }

  function PrintEntry(e: TreeEntry): Entry
    decreases e, 1
  {
    Entry(Print(e.key), Print(e.value))
  }

  /** Length of the longest prefix without `|`. */
  function RunLength(s: string): (n: nat)
    ensures n <= |s|
  {
    if s == [] || s[0] == '|' then 0 else 1 + RunLength(s[1..])
  }

  predicate EndsWithCloser(s: string) {
    |s| >= 2 && (s[|s| - 2..] == "--" || s[|s| - 2..] == "__")
  }

  /** Length of the atom in front, without a closer that follows it. */
  function LeafLength(s: string): (n: nat)
    ensures n <= |s|
  {
    var run := RunLength(s);
    if run < |s| && EndsWithCloser(s[..run]) then run - 2 else run
  }

  /** Reads one value off the front of the text and returns it with what follows. */
  function ParseValue(s: string): (r: Option<(Tree, string)>)
    ensures r.Some? ==> |r.value.1| < |s|
    decreases |s|, 0
  {
    if StartsWith(s, "|--") then
      if StartsWith(s[3..], "--|") then Some((Dict([]), s[6..]))
      else
        match ParseEntries(s[3..])
        case None => None
        case Some(p) => Some((Dict(p.0), p.1))
    else if StartsWith(s, "|__") then
      if StartsWith(s[3..], "__|") then Some((List([]), s[6..]))
      else
        match ParseElems(s[3..])
        case None => None
        case Some(p) => Some((List(p.0), p.1))
    else
      var n := LeafLength(s);
      if n == 0 then None else Some((Leaf(s[..n]), s[n..]))
  }

  /** One or more values, separated by `|_`, up to the closing `__|`. */
  function ParseElems(s: string): (r: Option<(seq<Tree>, string)>)
    ensures r.Some? ==> |r.value.1| < |s|
    decreases |s|, 1
  {
    match ParseValue(s)
    case None => None
    case Some(p) =>
      if StartsWith(p.1, "__|") then Some(([p.0], p.1[3..]))
      else if StartsWith(p.1, "|_") then
        match ParseElems(p.1[2..])
        case None => None
        case Some(q) => Some(([p.0] + q.0, q.1))
      else None
  }

  /** One `key|:value`. */
  function ParseEntry(s: string): (r: Option<(TreeEntry, string)>)
    ensures r.Some? ==> |r.value.1| < |s|
    decreases |s|, 1
  {
    match ParseValue(s)
    case None => None
    case Some(k) =>
      if !StartsWith(k.1, "|:") then None
      else
        match ParseValue(k.1[2..])
        case None => None
        case Some(v) => Some((TreeEntry(k.0, v.0), v.1))
  }

  /** One or more entries, separated by `|-`, up to the closing `--|`. */
  function ParseEntries(s: string): (r: Option<(seq<TreeEntry>, string)>)
    ensures r.Some? ==> |r.value.1| < |s|
    decreases |s|, 2
  {
    match ParseEntry(s)
    case None => None
    case Some(p) =>
      if StartsWith(p.1, "--|") then Some(([p.0], p.1[3..]))
      else if StartsWith(p.1, "|-") then
        match ParseEntries(p.1[2..])
        case None => None
        case Some(q) => Some(([p.0] + q.0, q.1))
      else None
  }

  /** Atoms the format keeps apart: non-empty, no `|`, no `-` or `_` at either end. */
  predicate CleanText(s: string) {
    s != [] && '|' !in s && !EdgeCharacter(s[0]) && !EdgeCharacter(s[|s| - 1])
  }

  predicate EdgeCharacter(c: char) {
    c == '-' || c == '_'
  }

  predicate CleanTree(t: Tree)
    decreases t, 0
  {
    match t
    case Leaf(s) => CleanText(s)
    case Dict(es) => forall i :: 0 <= i < |es| ==> CleanEntry(es[i])
    case List(ts) => forall i :: 0 <= i < |ts| ==> CleanTree(ts[i])
  }

  predicate CleanEntry(e: TreeEntry)
    decreases e, 1
  {
    CleanTree(e.key) && CleanTree(e.value)
  }

  /** What may come after a value inside a serialised text. */
  predicate Boundary(rest: string) {
    rest == [] || rest[0] == '|' || StartsWith(rest, "--|") || StartsWith(rest, "__|")
  }

  lemma {:induction false} RunLengthAcross(s: string, rest: string)
    requires '|' !in s
    ensures RunLength(s + rest) == |s| + RunLength(rest)
  {
    if s == [] {
      assert s + rest == rest;
    } else {
      RunLengthAcross(s[1..], rest);
      assert (s + rest)[1..] == s[1..] + rest;
    }
  }

  lemma CloserRun(rest: string)
    requires StartsWith(rest, "--|") || StartsWith(rest, "__|")
    ensures RunLength(rest) == 2 && |rest| > 2 && (rest[..2] == "--" || rest[..2] == "__")
  {
    assert rest[..3] == "--|" || rest[..3] == "__|";
    assert rest[0] == rest[..3][0] && rest[1] == rest[..3][1] && rest[2] == rest[..3][2];
    assert RunLength(rest[2..]) == 0;
    assert RunLength(rest[1..]) == 1;
  }

  lemma LeafLengthIs(s: string, rest: string)
    requires CleanText(s) && Boundary(rest)
    ensures LeafLength(s + rest) == |s|
  {
    var whole := s + rest;
    RunLengthAcross(s, rest);
    if StartsWith(rest, "--|") || StartsWith(rest, "__|") {
      CloserRun(rest);
      assert whole[..|s| + 2][|s|..] == rest[..2];
    } else {
      assert RunLength(rest) == 0;
      assert whole[..|s|] == s && !EndsWithCloser(s);
    }
  }

  lemma ParseLeaf(s: string, rest: string)
    requires CleanText(s) && Boundary(rest)
    ensures ParseValue(s + rest) == Some((Leaf(s), rest))
  {
    var whole := s + rest;
    LeafLengthIs(s, rest);
    assert whole[0] == s[0] != '|';
    assert whole[..|s|] == s && whole[|s|..] == rest;
    assert !StartsWith(whole, "|--") && !StartsWith(whole, "|__");
  }

  lemma PrintHead(t: Tree)
    requires CleanTree(t)
    ensures Print(t) != [] && !EdgeCharacter(Print(t)[0])
  {
  }

  lemma ParseEmpty(rest: string)
    ensures ParseValue(DictText([]) + rest) == Some((Dict([]), rest))
    ensures ParseValue(ListText([]) + rest) == Some((List([]), rest))
  {
    assert DictText([]) + rest == "|--" + ("--|" + rest);
    assert ListText([]) + rest == "|__" + ("__|" + rest);
    assert (DictText([]) + rest)[6..] == rest && (ListText([]) + rest)[6..] == rest;
  }

  lemma ParseList(inner: string, ts: seq<Tree>, rest: string)
    requires inner != [] && inner[0] != '_' && ParseElems(inner) == Some((ts, rest))
    ensures ParseValue("|__" + inner) == Some((List(ts), rest))
  {
    var s := "|__" + inner;
    assert s[..3] == "|__" && s[3..] == inner && s[1] == '_';
    assert !StartsWith(s, "|--") && StartsWith(s, "|__");
    assert !StartsWith(inner, "__|");
  }

  /** The parser undoes the printer, whatever follows. */
  lemma {:induction false} ParsePrint(t: Tree, rest: string)
    requires CleanTree(t) && Boundary(rest)
    ensures ParseValue(Print(t) + rest) == Some((t, rest))
    decreases t, 0
  {
    match t
    case Leaf(s) => ParseLeaf(s, rest);
    case Dict(es) => ParsePrintDict(es, rest);
    case List(ts) => ParsePrintList(ts, rest);
  }

  lemma ParsePrintDict(es: seq<TreeEntry>, rest: string)
    requires CleanTree(Dict(es))
    ensures ParseValue(DictText(PrintEntries(es)) + rest) == Some((Dict(es), rest))
    decreases es, 3
  {
    if es == [] {
      ParseEmpty(rest);
    } else {
      var inner := DictBody(PrintEntries(es)) + ("--|" + rest);
      assert DictText(PrintEntries(es)) + rest == "|--" + inner;
      ParsePrintEntries(es, rest);
      assert CleanEntry(es[0]);
      PrintHead(es[0].key);
      assert inner[0] == PrintEntry(es[0]).key[0];
    }
  }

  lemma ParsePrintList(ts: seq<Tree>, rest: string)
    requires CleanTree(List(ts))
    ensures ParseValue(ListText(PrintAll(ts)) + rest) == Some((List(ts), rest))
    decreases ts, 3
  {
    if ts == [] {
      ParseEmpty(rest);
    } else {
      var inner := ListBody(PrintAll(ts)) + ("__|" + rest);
      assert ListText(PrintAll(ts)) + rest == "|__" + inner;
      ParsePrintElems(ts, rest);
      PrintHead(ts[0]);
      assert inner[0] == Print(ts[0])[0];
      ParseList(inner, ts, rest);
    }
  }

  lemma Skip(p: string, rest: string)
    ensures StartsWith(p + rest, p) && (p + rest)[|p|..] == rest
  {
  }

  lemma ParseElemsMore(s: string, t: Tree, tail: string, ts: seq<Tree>, rest: string)
    requires ParseValue(s) == Some((t, "|_" + tail)) && ParseElems(tail) == Some((ts, rest))
    ensures ParseElems(s) == Some(([t] + ts, rest))
  {
    Skip("|_", tail);
    assert ("|_" + tail)[0] == '|';
  }

  lemma {:induction false} ParsePrintElems(ts: seq<Tree>, rest: string)
    requires ts != [] && CleanTree(List(ts))
    ensures ParseElems(ListBody(PrintAll(ts)) + ("__|" + rest)) == Some((ts, rest))
    decreases ts, 1
  {
    var s := ListBody(PrintAll(ts)) + ("__|" + rest);
    assert PrintAll(ts)[1..] == PrintAll(ts[1..]);
    if |ts| == 1 {
      ParsePrint(ts[0], "__|" + rest);
      assert ts == [ts[0]];
    } else {
      var tail := ListBody(PrintAll(ts[1..])) + ("__|" + rest);
      assert s == Print(ts[0]) + ("|_" + tail);
      ParsePrint(ts[0], "|_" + tail);
      ParsePrintElems(ts[1..], rest);
      ParseElemsMore(s, ts[0], tail, ts[1..], rest);
      assert ts == [ts[0]] + ts[1..];
    }
  }

  lemma ParseEntriesMore(s: string, e: TreeEntry, tail: string, es: seq<TreeEntry>, rest: string)
    requires ParseEntry(s) == Some((e, "|-" + tail)) && ParseEntries(tail) == Some((es, rest))
    ensures ParseEntries(s) == Some(([e] + es, rest))
  {
    Skip("|-", tail);
    assert ("|-" + tail)[0] == '|';
  }

  lemma {:induction false} ParsePrintEntries(es: seq<TreeEntry>, rest: string)
    requires es != [] && CleanTree(Dict(es))
    ensures ParseEntries(DictBody(PrintEntries(es)) + ("--|" + rest)) == Some((es, rest))
    decreases es, 2
  {
    var s := DictBody(PrintEntries(es)) + ("--|" + rest);
    assert CleanEntry(es[0]);
    if |es| == 1 {
      OneEntryText(es, rest);
      ParsePrintEntry(es[0], "--|" + rest);
      assert es == [es[0]];
    } else {
      var tail := DictBody(PrintEntries(es[1..])) + ("--|" + rest);
      MoreEntriesText(es, rest);
      ParsePrintEntry(es[0], "|-" + tail);
      ParsePrintEntries(es[1..], rest);
      ParseEntriesMore(s, es[0], tail, es[1..], rest);
      assert es == [es[0]] + es[1..];
    }
  }

  lemma Regroup(key: string, value: string, after: string)
    ensures key + ("|:" + value) + after == key + ("|:" + (value + after))
  {
    Associative("|:", value, after);
    Associative(key, "|:" + value, after);
  }

  lemma OneEntryText(es: seq<TreeEntry>, rest: string)
    requires |es| == 1
    ensures DictBody(PrintEntries(es)) + ("--|" + rest) == EntryText(es[0], "--|" + rest)
  {
    var e := PrintEntry(es[0]);
    assert PrintEntries(es) == [e];
    Regroup(e.key, e.value, "--|" + rest);
  }

  lemma MoreEntriesText(es: seq<TreeEntry>, rest: string)
    requires |es| > 1
    ensures
      DictBody(PrintEntries(es)) + ("--|" + rest) ==
      EntryText(es[0], "|-" + (DictBody(PrintEntries(es[1..])) + ("--|" + rest)))
  {
    var e, more := PrintEntry(es[0]), DictBody(PrintEntries(es[1..]));
    assert PrintEntries(es)[0] == e && PrintEntries(es)[1..] == PrintEntries(es[1..]);
    var first := e.key + ("|:" + e.value);
    assert DictBody(PrintEntries(es)) == first + ("|-" + more);
    Associative(first, "|-" + more, "--|" + rest);
    Associative("|-", more, "--|" + rest);
    Regroup(e.key, e.value, "|-" + (more + ("--|" + rest)));
  }

  function EntryText(e: TreeEntry, after: string): string {
    PrintEntry(e).key + ("|:" + (PrintEntry(e).value + after))
  }

  lemma ParsePrintEntry(e: TreeEntry, after: string)
    requires CleanEntry(e) && Boundary(after)
    ensures ParseEntry(EntryText(e, after)) == Some((e, after))
    decreases e, 1
  {
    var value := PrintEntry(e).value + after;
    ParsePrint(e.key, "|:" + value);
    ParsePrint(e.value, after);
  }

  // ---------------------------------------------------------------- canonical form

  /** The tree a value is serialised as: lists and mappings sorted by their elements' texts. */
  function Canonical(v: Value): Tree
    decreases v, 0
  {
    match v
    case Generator => Leaf("")
    case Str(s) => Leaf(s)
    case Enum(s) => Leaf(s)
    case Other(s) => Leaf(s)
    case Record(items) => Dict(SortBy(CanonicalPairs(items), TreeKey))
    case Mapping(items) => Dict(SortBy(CanonicalPairs(items), TreeKey))
    case Iterable(elems) => List(SortBy(CanonicalAll(elems), Print))
  }

  function TreeKey(e: TreeEntry): string { Print(e.key) }

  function CanonicalAll(elems: seq<Value>): (r: seq<Tree>)
    decreases elems, 2
  {
    seq(|elems|, i requires 0 <= i < |elems| => Canonical(elems[i]))
  }

  function CanonicalPairs(items: seq<Pair>): (r: seq<TreeEntry>)
    decreases items, 2
  {
    seq(|items|, i requires 0 <= i < |items| => CanonicalPair(items[i]))
  }

  function CanonicalPair(p: Pair): TreeEntry
    decreases p, 1
  {
    TreeEntry(Canonical(p.key), Canonical(p.value))
  }

  /** Every atom of the value, keys included, is one the format keeps apart. */
  predicate Clean(v: Value)
    decreases v, 0
  {
    match v
    case Generator => false
    case Str(s) => CleanText(s)
    case Enum(s) => CleanText(s)
    case Other(s) => CleanText(s)
    case Record(items) => forall i :: 0 <= i < |items| ==> CleanPair(items[i])
    case Mapping(items) => forall i :: 0 <= i < |items| ==> CleanPair(items[i])
    case Iterable(elems) => forall i :: 0 <= i < |elems| ==> Clean(elems[i])
  }

  predicate CleanPair(p: Pair)
    decreases p, 1
  {
    Clean(p.key) && Clean(p.value)
  }

  lemma {:induction false} PrintCanonical(v: Value)
    ensures Print(Canonical(v)) == Render(v)
    decreases v, 0
  {
    match v
    case Record(items) => PrintCanonicalPairs(items);
    case Mapping(items) => PrintCanonicalPairs(items);
    case Iterable(elems) =>
      forall i | 0 <= i < |elems| {
        PrintCanonical(elems[i]);
      }
      var ts := CanonicalAll(elems);
      MapSort(ts, Print, Print, Self);
      assert Map(ts, Print) == RenderAll(elems);
      assert PrintAll(SortBy(ts, Print)) == Map(SortBy(ts, Print), Print);
    case _ =>
  }

  lemma {:induction false} PrintCanonicalPairs(items: seq<Pair>)
    ensures PrintEntries(SortBy(CanonicalPairs(items), TreeKey)) == SortBy(RenderPairs(items), KeyOf)
    decreases items, 2
  {
    forall i | 0 <= i < |items| {
      PrintCanonicalPair(items[i]);
    }
    var es := CanonicalPairs(items);
    MapSort(es, TreeKey, PrintEntry, KeyOf);
    assert Map(es, PrintEntry) == RenderPairs(items);
    assert PrintEntries(SortBy(es, TreeKey)) == Map(SortBy(es, TreeKey), PrintEntry);
  }

  lemma PrintCanonicalPair(p: Pair)
    ensures PrintEntry(CanonicalPair(p)) == RenderPair(p)
    decreases p, 1
  {
    PrintCanonical(p.key);
    PrintCanonical(p.value);
  }

  lemma {:induction false} CleanCanonical(v: Value)
    requires Clean(v)
    ensures CleanTree(Canonical(v))
    decreases v, 0
  {
    match v
    case Record(items) => CleanCanonicalPairs(items);
    case Mapping(items) => CleanCanonicalPairs(items);
    case Iterable(elems) =>
      forall i | 0 <= i < |elems| {
        CleanCanonical(elems[i]);
      }
      var ts := SortBy(CanonicalAll(elems), Print);
      SortByBag(CanonicalAll(elems), Print);
      forall i | 0 <= i < |ts|
        ensures CleanTree(ts[i])
      {
        assert ts[i] in multiset(CanonicalAll(elems));
      }
    case _ =>
  }

  lemma {:induction false} CleanCanonicalPairs(items: seq<Pair>)
    requires forall i :: 0 <= i < |items| ==> CleanPair(items[i])
    ensures CleanTree(Dict(SortBy(CanonicalPairs(items), TreeKey)))
    decreases items, 2
  {
    forall i | 0 <= i < |items| {
      CleanCanonicalPair(items[i]);
    }
    var es := SortBy(CanonicalPairs(items), TreeKey);
    SortByBag(CanonicalPairs(items), TreeKey);
    forall i | 0 <= i < |es|
      ensures CleanEntry(es[i])
    {
      assert es[i] in multiset(CanonicalPairs(items));
    }
  }

  lemma CleanCanonicalPair(p: Pair)
    requires CleanPair(p)
    ensures CleanEntry(CanonicalPair(p))
    decreases p, 1
  {
    CleanCanonical(p.key);
    CleanCanonical(p.value);
  }

  /** The serialiser can be undone: its output, whatever follows it, parses back to the canonical tree. */
  lemma SerialisedParsesBack(v: Value, depth: nat, rest: string)
    requires Clean(v) && Normalise(v, depth).Ok? && Boundary(rest)
    ensures ParseValue(Normalise(v, depth).value + rest) == Some((Canonical(v), rest))
  {
    NormaliseRenders(v, depth);
    PrintCanonical(v);
    CleanCanonical(v);
    ParsePrint(Canonical(v), rest);
  }

  // ---------------------------------------------------------------- meaning

  /** What a value says, with the order of lists and mappings forgotten and atoms read as text. */
  datatype Meaning =
    | Atom(text: string)
    | Bag(elems: multiset<Meaning>)
    | Assoc(pairs: multiset<(Meaning, Meaning)>)

  function MeaningOf(v: Value): Meaning
    decreases v, 0
  {
    match v
    case Generator => Atom("")
    case Str(s) => Atom(s)
    case Enum(s) => Atom(s)
    case Other(s) => Atom(s)
    case Record(items) => Assoc(multiset(MeaningOfPairs(items)))
    case Mapping(items) => Assoc(multiset(MeaningOfPairs(items)))
    case Iterable(elems) => Bag(multiset(MeaningOfAll(elems)))
  }

  function MeaningOfAll(elems: seq<Value>): (r: seq<Meaning>)
    decreases elems, 2
  {
    seq(|elems|, i requires 0 <= i < |elems| => MeaningOf(elems[i]))
  }

  function MeaningOfPairs(items: seq<Pair>): (r: seq<(Meaning, Meaning)>)
    decreases items, 2
  {
    seq(|items|, i requires 0 <= i < |items| => MeaningOfPair(items[i]))
  }

  function MeaningOfPair(p: Pair): (Meaning, Meaning)
    decreases p, 1
  {
    (MeaningOf(p.key), MeaningOf(p.value))
  }

  /** The meaning of a decoded tree. */
  function MeaningOfTree(t: Tree): Meaning
    decreases t, 0
  {
    match t
    case Leaf(s) => Atom(s)
    case Dict(es) => Assoc(multiset(MeaningOfEntries(es)))
    case List(ts) => Bag(multiset(MeaningOfTrees(ts)))
  }

  function MeaningOfTrees(ts: seq<Tree>): (r: seq<Meaning>)
    decreases ts, 2
  {
    seq(|ts|, i requires 0 <= i < |ts| => MeaningOfTree(ts[i]))
  }

  function MeaningOfEntries(es: seq<TreeEntry>): (r: seq<(Meaning, Meaning)>)
    decreases es, 2
  {
    seq(|es|, i requires 0 <= i < |es| => MeaningOfEntry(es[i]))
  }

  function MeaningOfEntry(e: TreeEntry): (Meaning, Meaning)
    decreases e, 1
  {
    (MeaningOfTree(e.key), MeaningOfTree(e.value))
  }

  lemma {:induction false} CanonicalKeepsMeaning(v: Value)
    ensures MeaningOfTree(Canonical(v)) == MeaningOf(v)
    decreases v, 0
  {
    match v
    case Record(items) => CanonicalPairsKeepMeaning(items);
    case Mapping(items) => CanonicalPairsKeepMeaning(items);
    case Iterable(elems) =>
      forall i | 0 <= i < |elems| {
        CanonicalKeepsMeaning(elems[i]);
      }
      var ts := CanonicalAll(elems);
      SortByBag(ts, Print);
      BagFactors(SortBy(ts, Print), ts, MeaningOfTrees(SortBy(ts, Print)), MeaningOfTrees(ts));
      assert MeaningOfTrees(ts) == MeaningOfAll(elems);
    case _ =>
  }

  lemma {:induction false} CanonicalPairsKeepMeaning(items: seq<Pair>)
    ensures multiset(MeaningOfEntries(SortBy(CanonicalPairs(items), TreeKey))) == multiset(MeaningOfPairs(items))
    decreases items, 2
  {
    forall i | 0 <= i < |items| {
      CanonicalPairKeepsMeaning(items[i]);
    }
    var es := CanonicalPairs(items);
    SortByBag(es, TreeKey);
    BagFactors(SortBy(es, TreeKey), es, MeaningOfEntries(SortBy(es, TreeKey)), MeaningOfEntries(es));
    assert MeaningOfEntries(es) == MeaningOfPairs(items);
  }

  lemma CanonicalPairKeepsMeaning(p: Pair)
    ensures MeaningOfEntry(CanonicalPair(p)) == MeaningOfPair(p)
    decreases p, 1
  {
    CanonicalKeepsMeaning(p.key);
    CanonicalKeepsMeaning(p.value);
  }

  /** Equal keys mean equal values, up to the order of lists and mappings. */
  lemma EqualTextsMeanTheSame(v: Value, w: Value, depth: nat)
    requires Clean(v) && Clean(w)
    requires Normalise(v, depth).Ok? && Normalise(v, depth) == Normalise(w, depth)
    ensures MeaningOf(v) == MeaningOf(w)
  {
    SerialisedParsesBack(v, depth, []);
    SerialisedParsesBack(w, depth, []);
    CanonicalKeepsMeaning(v);
    CanonicalKeepsMeaning(w);
  }

  // ---------------------------------------------------------------- equal meanings, equal texts

  /** No two entries of a mapping have keys of the same text, at any nesting. */
  predicate UniqueKeys(v: Value)
    decreases v, 0
  {
    match v
    case Record(items) => UniqueKeysPairs(items)
    case Mapping(items) => UniqueKeysPairs(items)
    case Iterable(elems) => forall i :: 0 <= i < |elems| ==> UniqueKeys(elems[i])
    case _ => true
  }

  predicate UniqueKeysPairs(items: seq<Pair>)
    decreases items, 2
  {
    && (forall i, j :: 0 <= i < j < |items| ==> Render(items[i].key) != Render(items[j].key))
    && (forall i :: 0 <= i < |items| ==> UniqueKeysPair(items[i]))
  }

  predicate UniqueKeysPair(p: Pair)
    decreases p, 1
  {
    UniqueKeys(p.key) && UniqueKeys(p.value)
  }

  lemma {:induction false} SameMeaningSameText(v: Value, w: Value)
    requires UniqueKeys(v) && UniqueKeys(w) && MeaningOf(v) == MeaningOf(w)
    ensures Render(v) == Render(w)
    decreases v, 0
  {
    match v
    case Record(items) => SameMeaningSameEntries(items, w.items);
    case Mapping(items) => SameMeaningSameEntries(items, w.items);
    case Iterable(elems) =>
      forall i, j | 0 <= i < |elems| && 0 <= j < |w.elems| && MeaningOfAll(elems)[i] == MeaningOfAll(w.elems)[j]
        ensures RenderAll(elems)[i] == RenderAll(w.elems)[j]
      {
        SameMeaningSameText(elems[i], w.elems[j]);
      }
      BagFactors(MeaningOfAll(elems), MeaningOfAll(w.elems), RenderAll(elems), RenderAll(w.elems));
      SortByUnique(RenderAll(elems), RenderAll(w.elems), Self);
    case _ =>
  }

  lemma {:induction false} SameMeaningSameEntries(items: seq<Pair>, others: seq<Pair>)
    requires UniqueKeysPairs(items) && UniqueKeysPairs(others)
    requires multiset(MeaningOfPairs(items)) == multiset(MeaningOfPairs(others))
    ensures SortBy(RenderPairs(items), KeyOf) == SortBy(RenderPairs(others), KeyOf)
    decreases items, 2
  {
    forall i, j | 0 <= i < |items| && 0 <= j < |others| && MeaningOfPairs(items)[i] == MeaningOfPairs(others)[j]
      ensures RenderPairs(items)[i] == RenderPairs(others)[j]
    {
      SameMeaningSameEntry(items[i], others[j]);
    }
    BagFactors(MeaningOfPairs(items), MeaningOfPairs(others), RenderPairs(items), RenderPairs(others));
    DistinctKeyTexts(items);
    SortByUnique(RenderPairs(items), RenderPairs(others), KeyOf);
  }

  lemma DistinctKeyTexts(items: seq<Pair>)
    requires UniqueKeysPairs(items)
    ensures KeyDistinguishes(RenderPairs(items), KeyOf)
  {
    var es := RenderPairs(items);
    forall i, j | 0 <= i < |es| && 0 <= j < |es| && KeyOf(es[i]) == KeyOf(es[j])
      ensures es[i] == es[j]
    {
      assert es[i] == RenderPair(items[i]) && es[j] == RenderPair(items[j]);
      assert Render(items[i].key) == Render(items[j].key);
    }
  }

  lemma SameMeaningSameEntry(p: Pair, q: Pair)
    requires UniqueKeysPair(p) && UniqueKeysPair(q) && MeaningOfPair(p) == MeaningOfPair(q)
    ensures RenderPair(p) == RenderPair(q)
    decreases p, 1
  {
    SameMeaningSameText(p.key, q.key);
    SameMeaningSameText(p.value, q.value);
  }

  /** Values that differ only in the order of lists and mappings get the same key. */
  lemma EqualMeaningsTextTheSame(v: Value, w: Value, depth: nat)
    requires UniqueKeys(v) && UniqueKeys(w) && MeaningOf(v) == MeaningOf(w)
    requires Normalise(v, depth).Ok? && Normalise(w, depth).Ok?
    ensures Normalise(v, depth) == Normalise(w, depth)
  {
    NormaliseRenders(v, depth);
    NormaliseRenders(w, depth);
    SameMeaningSameText(v, w);
  }

  /** On clean values the key is exactly the meaning. */
  lemma KeyIsMeaning(v: Value, w: Value, depth: nat)
    requires Clean(v) && Clean(w) && UniqueKeys(v) && UniqueKeys(w)
    requires Normalise(v, depth).Ok? && Normalise(w, depth).Ok?
    ensures Normalise(v, depth) == Normalise(w, depth) <==> MeaningOf(v) == MeaningOf(w)
  {
    if Normalise(v, depth) == Normalise(w, depth) {
      EqualTextsMeanTheSame(v, w, depth);
    }
    if MeaningOf(v) == MeaningOf(w) {
      EqualMeaningsTextTheSame(v, w, depth);
    }
  }

  // ---------------------------------------------------------------- which values serialise

  /** One of the sequences used for joining occurs somewhere in the text. */
  ghost predicate HasJoin(s: string) {
    exists i :: JoinAt(s, i)
  }

  predicate JoinAt(s: string, i: int) {
    || (0 <= i <= |s| - 2 && s[i..i + 2] in {"|-", "|_", "|:"})
    || (0 <= i <= |s| - 3 && s[i..i + 3] in {"--|", "__|"})
  }

  predicate OccursAt(s: string, p: string, i: int) {
    0 <= i <= |s| - |p| && s[i..i + |p|] == p
  }

  lemma {:induction false} ContainsIsSlice(s: string, p: string)
    requires p != []
    ensures Contains(s, p) <==> exists i :: OccursAt(s, p, i)
  {
    assert StartsWith(s, p) <==> OccursAt(s, p, 0) by {
      assert |p| <= |s| ==> s[0..|p|] == s[..|p|];
    }
    if s != [] {
      ContainsIsSlice(s[1..], p);
      forall i | 0 <= i
        ensures OccursAt(s[1..], p, i) <==> OccursAt(s, p, i + 1)
      {
        if i + |p| < |s| {
          assert s[1..][i..i + |p|] == s[i + 1..i + 1 + |p|];
        }
      }
      if i :| OccursAt(s, p, i) {
        assert i == 0 || OccursAt(s[1..], p, i - 1);
      }
    }
  }

  lemma JoinIsSlice(s: string)
    ensures HasJoinCharacters(s) <==> HasJoin(s)
  {
    ContainsIsSlice(s, "|-");
    ContainsIsSlice(s, "--|");
    ContainsIsSlice(s, "|_");
    ContainsIsSlice(s, "__|");
    ContainsIsSlice(s, "|:");
    forall i
      ensures
        JoinAt(s, i) <==>
        || OccursAt(s, "|-", i) || OccursAt(s, "--|", i) || OccursAt(s, "|_", i) || OccursAt(s, "__|", i)
        || OccursAt(s, "|:", i)
    {
    }
  }

  /** No generator inside, and no checked text with a join sequence. */
  ghost predicate Sayable(v: Value)
    decreases v, 0
  {
    match v
    case Generator => false
    case Str(s) => !HasJoin(s)
    case Enum(s) => !HasJoin(s)
    case Other(_) => true
    case Record(items) => forall i :: 0 <= i < |items| ==> SayablePair(items[i])
    case Mapping(items) => forall i :: 0 <= i < |items| ==> SayablePair(items[i])
    case Iterable(elems) => forall i :: 0 <= i < |elems| ==> Sayable(elems[i])
  }

  ghost predicate SayablePair(p: Pair)
    decreases p, 1
  {
    Sayable(p.key) && Sayable(p.value)
  }

  /** The value nests at most `room` deep. A record takes two levels, but inside a record (`nested`) only one. */
  predicate NestsWithin(v: Value, room: int, nested: bool)
    decreases v, 0
  {
    0 <= room &&
    match v
    case Record(items) =>
      var left := if nested then room else room - 1;
      0 <= left && forall i :: 0 <= i < |items| ==> PairNestsWithin(items[i], left - 1, true)
    case Mapping(items) => forall i :: 0 <= i < |items| ==> PairNestsWithin(items[i], room - 1, nested)
    case Iterable(elems) => forall i :: 0 <= i < |elems| ==> NestsWithin(elems[i], room - 1, nested)
    case _ => true
  }

  predicate PairNestsWithin(p: Pair, room: int, nested: bool)
    decreases p, 1
  {
    NestsWithin(p.key, room, nested) && NestsWithin(p.value, room, nested)
  }

  lemma {:induction false} AsDictSayable(v: Value)
    ensures Sayable(AsDict(v)) <==> Sayable(v)
    decreases v, 0
  {
    match v
    case Record(items) => PairsAsDictSayable(items);
    case Mapping(items) => PairsAsDictSayable(items);
    case Iterable(elems) =>
      forall i | 0 <= i < |elems|
        ensures Sayable(AsDict(v).elems[i]) <==> Sayable(elems[i])
      {
        AsDictSayable(elems[i]);
      }
    case _ =>
  }

  lemma {:induction false} PairsAsDictSayable(items: seq<Pair>)
    ensures forall i :: 0 <= i < |items| ==> (SayablePair(PairsAsDict(items)[i]) <==> SayablePair(items[i]))
    decreases items, 2
  {
    forall i | 0 <= i < |items|
      ensures SayablePair(PairsAsDict(items)[i]) <==> SayablePair(items[i])
    {
      PairAsDictSayable(items[i]);
    }
  }

  lemma PairAsDictSayable(p: Pair)
    ensures SayablePair(PairAsDict(p)) <==> SayablePair(p)
    decreases p, 1
  {
    AsDictSayable(p.key);
    AsDictSayable(p.value);
  }

  lemma {:induction false} AsDictNests(v: Value, room: int)
    ensures NestsWithin(AsDict(v), room, false) <==> NestsWithin(v, room, true)
    decreases v, 0
  {
    match v
    case Record(items) => PairsAsDictNest(items, room - 1);
    case Mapping(items) => PairsAsDictNest(items, room - 1);
    case Iterable(elems) =>
      forall i | 0 <= i < |elems|
        ensures NestsWithin(AsDict(v).elems[i], room - 1, false) <==> NestsWithin(elems[i], room - 1, true)
      {
        AsDictNests(elems[i], room - 1);
      }
    case _ =>
  }

  lemma {:induction false} PairsAsDictNest(items: seq<Pair>, room: int)
    ensures forall i :: 0 <= i < |items| ==>
      (PairNestsWithin(PairsAsDict(items)[i], room, false) <==> PairNestsWithin(items[i], room, true))
    decreases items, 2
  {
    forall i | 0 <= i < |items|
      ensures PairNestsWithin(PairsAsDict(items)[i], room, false) <==> PairNestsWithin(items[i], room, true)
    {
      PairAsDictNests(items[i], room);
    }
  }

  lemma PairAsDictNests(p: Pair, room: int)
    ensures PairNestsWithin(PairAsDict(p), room, false) <==> PairNestsWithin(p, room, true)
    decreases p, 1
  {
    AsDictNests(p.key, room);
    AsDictNests(p.value, room);
  }

  lemma {:induction false} AllSucceed(elems: seq<Value>, depth: nat)
    ensures NormaliseAll(elems, depth).Ok? <==> forall i :: 0 <= i < |elems| ==> Normalise(elems[i], depth).Ok?
  {
    if elems != [] {
      AllSucceed(elems[1..], depth);
      assert forall i :: 1 <= i < |elems| ==> elems[i] == elems[1..][i - 1];
    }
  }

  lemma {:induction false} PairsSucceed(items: seq<Pair>, depth: nat)
    ensures NormalisePairs(items, depth).Ok? <==>
            forall i :: 0 <= i < |items| ==> Normalise(items[i].key, depth).Ok? && Normalise(items[i].value, depth).Ok?
  {
    if items != [] {
      PairsSucceed(items[1..], depth);
      assert forall i :: 1 <= i < |items| ==> items[i] == items[1..][i - 1];
    }
  }

  /** A value serialises exactly if there is no generator in it, no join sequence in its texts, and it does not nest
      deeper than a hundred levels. */
  lemma {:induction false} SerialisesIff(v: Value, depth: nat)
    ensures Normalise(v, depth).Ok? <==> Sayable(v) && NestsWithin(v, 100 - depth, false)
    decreases MAX_DEPTH + 1 - depth, 0
  {
    if depth <= MAX_DEPTH {
      match v
      case Record(_) =>
        SerialisesIff(AsDict(v), depth + 1);
        AsDictSayable(v);
        AsDictNests(v, 99 - depth);
      case Mapping(items) => PairsSerialiseIff(items, depth + 1);
      case Iterable(elems) => AllSerialiseIff(elems, depth + 1);
      case Str(s) => JoinIsSlice(s);
      case Enum(s) => JoinIsSlice(s);
      case _ =>
    }
  }

  lemma {:induction false} AllSerialiseIff(elems: seq<Value>, depth: nat)
    ensures NormaliseAll(elems, depth).Ok? <==>
            forall i :: 0 <= i < |elems| ==> Sayable(elems[i]) && NestsWithin(elems[i], 100 - depth, false)
    decreases MAX_DEPTH + 1 - depth, 1
  {
    AllSucceed(elems, depth);
    forall i | 0 <= i < |elems| {
      SerialisesIff(elems[i], depth);
    }
  }

  lemma {:induction false} PairsSerialiseIff(items: seq<Pair>, depth: nat)
    ensures NormalisePairs(items, depth).Ok? <==>
            forall i :: 0 <= i < |items| ==> SayablePair(items[i]) && PairNestsWithin(items[i], 100 - depth, false)
    decreases MAX_DEPTH + 1 - depth, 1
  {
    PairsSucceed(items, depth);
    forall i | 0 <= i < |items|
      ensures Normalise(items[i].key, depth).Ok? && Normalise(items[i].value, depth).Ok? <==>
              SayablePair(items[i]) && PairNestsWithin(items[i], 100 - depth, false)
    {
      SerialisesIff(items[i].key, depth);
      SerialisesIff(items[i].value, depth);
    }
  }

  lemma CleanTextIsJoinFree(s: string)
    requires CleanText(s)
    ensures !HasJoin(s)
  {
    assert forall i :: 0 <= i < |s| ==> s[i] != '|';
    forall i
      ensures !JoinAt(s, i)
    {
      assert 0 <= i <= |s| - 2 ==> s[i..i + 2][0] == s[i];
      assert 0 <= i <= |s| - 3 ==> s[i..i + 3][2] == s[i + 2];
    }
  }

  lemma {:induction false} CleanIsSayable(v: Value)
    requires Clean(v)
    ensures Sayable(v)
    decreases v, 0
  {
    match v
    case Str(s) => CleanTextIsJoinFree(s);
    case Enum(s) => CleanTextIsJoinFree(s);
    case Other(_) =>
    case Record(items) => CleanPairsAreSayable(items);
    case Mapping(items) => CleanPairsAreSayable(items);
    case Iterable(elems) =>
      forall i | 0 <= i < |elems| {
        CleanIsSayable(elems[i]);
      }
  }

  lemma {:induction false} CleanPairsAreSayable(items: seq<Pair>)
    requires forall i :: 0 <= i < |items| ==> CleanPair(items[i])
    ensures forall i :: 0 <= i < |items| ==> SayablePair(items[i])
    decreases items, 2
  {
    forall i | 0 <= i < |items| {
      CleanPairIsSayable(items[i]);
    }
  }

  lemma CleanPairIsSayable(p: Pair)
    requires CleanPair(p)
    ensures SayablePair(p)
    decreases p, 1
  {
    CleanIsSayable(p.key);
    CleanIsSayable(p.value);
  }

  /** Every clean value has a key, unless it nests too deep. */
  lemma CleanSerialises(v: Value, depth: nat)
    requires Clean(v)
    ensures Normalise(v, depth).Ok? <==> NestsWithin(v, 100 - depth, false)
  {
    CleanIsSayable(v);
    SerialisesIff(v, depth);
  }

  // ---------------------------------------------------------------- outside the domain

  /** An empty text is lost: a list holding just it prints like the empty list. */
  lemma EmptyTextCollides()
    ensures !Clean(Iterable([Str("")]))
    ensures Normalise(Iterable([Str("")]), 0) == Normalise(Iterable([]), 0)
    ensures MeaningOf(Iterable([Str("")])) != MeaningOf(Iterable([]))
  {
    var v := Iterable([Str("")]);
    NoJoin("");
    assert [Str("")][1..] == [] && NormaliseAll([], 1) == Ok([]);
    assert Normalise(Str(""), 1) == Ok("");
    assert [""] + [] == [""];
    assert NormaliseAll([Str("")], 1) == Ok([""]);
    assert SortBy([""], Self) == [""];
    assert |multiset(MeaningOfAll(v.elems))| == 1;
    assert !Clean(v.elems[0]);
  }

  /** Texts printed without a check can spell out a list. */
  lemma UncheckedTextCollides()
    ensures Normalise(Other("|____|"), 0) == Normalise(Iterable([]), 0)
    ensures MeaningOf(Other("|____|")) != MeaningOf(Iterable([]))
    ensures Normalise(Str("|____|"), 0) == Err(ValueError)
  {
    assert StartsWith("|____|", "|_");
    assert Contains("|____|", "|_");
    assert NormaliseAll([], 1) == Ok([]) && ListText([]) == "|____|";
    assert SortBy<string>([], Self) == [];
  }

  lemma TwoEntriesOfOneKey(p: Pair, q: Pair, k: string, x: string, y: string)
    requires Normalise(p.key, 1) == Ok(k) && Normalise(q.key, 1) == Ok(k)
    requires Normalise(p.value, 1) == Ok(x) && Normalise(q.value, 1) == Ok(y)
    ensures Normalise(Mapping([p, q]), 0) == Ok(DictText([Entry(k, x), Entry(k, y)]))
  {
    var a, b := Entry(k, x), Entry(k, y);
    assert [q][1..] == [] && [p, q][1..] == [q] && [b] + [] == [b] && [a] + [b] == [a, b];
    assert NormalisePairs([], 1) == Ok([]);
    assert NormalisePairs([q], 1) == Ok([b]);
    assert NormalisePairs([p, q], 1) == Ok([a, b]);
    TextLeTotal(k, k);
    assert [b][1..] == [] && [a, b][1..] == [b];
    assert SortBy([b], KeyOf) == [b];
    assert SortBy([a, b], KeyOf) == [a, b];
  }

  /** Mapping keys of the same text make the key depend on the mapping's order. */
  lemma SameKeyTextsKeepOrder()
    ensures
      var p, q := Pair(Other("1"), Str("a")), Pair(Str("1"), Str("b"));
      && MeaningOf(Mapping([p, q])) == MeaningOf(Mapping([q, p]))
      && Normalise(Mapping([p, q]), 0).Ok? && Normalise(Mapping([q, p]), 0).Ok?
      && Normalise(Mapping([p, q]), 0) != Normalise(Mapping([q, p]), 0)
  {
    var p, q := Pair(Other("1"), Str("a")), Pair(Str("1"), Str("b"));
    SwapKeepsMeaning(p, q);
    NoJoin("1");
    NoJoin("a");
    NoJoin("b");
    TwoEntriesOfOneKey(p, q, "1", "a", "b");
    TwoEntriesOfOneKey(q, p, "1", "b", "a");
    SwapChangesText("1", "a", "b");
  }

  lemma SwapKeepsMeaning(p: Pair, q: Pair)
    ensures MeaningOf(Mapping([p, q])) == MeaningOf(Mapping([q, p]))
  {
    var a, b := MeaningOfPair(p), MeaningOfPair(q);
    assert MeaningOfPairs([p, q]) == [a, b];
    assert MeaningOfPairs([q, p]) == [b, a];
    assert multiset([a, b]) == multiset([b, a]);
  }

  lemma SwapChangesText(k: string, x: string, y: string)
    requires x != [] && y != [] && x[0] != y[0]
    ensures DictText([Entry(k, x), Entry(k, y)]) != DictText([Entry(k, y), Entry(k, x)])
  {
    assert DictText([Entry(k, x), Entry(k, y)])[|k| + 5] == x[0];
    assert DictText([Entry(k, y), Entry(k, x)])[|k| + 5] == y[0];
  }

  lemma NoJoin(s: string)
    requires |s| <= 1
    ensures !HasJoinCharacters(s)
  {
    ShortContains(s, "|-");
    ShortContains(s, "--|");
    ShortContains(s, "|_");
    ShortContains(s, "__|");
    ShortContains(s, "|:");
  }

  lemma ShortContains(s: string, p: string)
    requires |s| <= 1 < |p|
    ensures !Contains(s, p)
  {
    if s != [] {
      assert s[1..] == [];
    }
  }
}
