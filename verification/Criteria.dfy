/**
 Search criteria, translated to a WHERE clause and read in SQL's three-valued logic. (src/metadata.py)
 */
module Criteria {
  import opened Common
  import opened LikePatterns

  // ---------------------------------------------------------------- requests and rows

  datatype Operator =
    | Eq(value: Option<string>)
    | In(values: seq<string>)
    | Range(gte: Option<string>, lte: Option<string>)
    | Cmp(cmp: string, value: Option<string>)

  datatype Criterion =
    | OcmCriterion(value: string, exclude: bool)
    | MetadataCriterion(attr: string, op: Operator, exclude: bool)
    | FulltextCriterion(value: string, fields: Option<seq<string>>, exclude: bool)

  /** A database row: its non-null columns and JSON paths, as text. */
  type Row = map<string, string>

  datatype Category = Category(id: string, value: int)

  datatype FindingCfg = FindingCfg(dataType: string, categorisations: seq<Category>)

  /** What the database and the runtime contribute: case mappings, text order, timestamps, numbers. */
  datatype Env = Env(lower: char -> char, upper: string -> string, textLess: (string, string) -> bool,
                     parseTime: string -> Option<int>, rowTime: string -> int, parseInt: string -> Option<int>,
                     findingCfgs: seq<FindingCfg>)

  const DEFAULT_SEARCH_FIELDS: seq<string> :=
    ["data.summary", "data.cve", "data.package_name", "data.package_version", "artefact.name", "ocm.name"]

  const COLUMNS: map<string, string> := map[
    "id" := "id", "type" := "type", "datasource" := "datasource", "artefact_kind" := "artefact_kind",
    "artefact_name" := "artefact_name", "artefact_version" := "artefact_version",
    "artefact_type" := "artefact_type", "component_name" := "component_name",
    "component_version" := "component_version", "data_key" := "data_key",
    "ocm.name" := "component_name", "ocm.version" := "component_version",
    "artefact.name" := "artefact_name", "artefact.version" := "artefact_version",
    "artefact.type" := "artefact_type"]

  datatype BadRequest = BadRequest

  // ---------------------------------------------------------------- clauses

  datatype TextTest =
    | Equals(text: string)
    | Matches(pattern: string)
    | OneOf(texts: seq<string>)
    | NotBefore(time: int)
    | NotAfter(time: int)
    | Compares(cmp: string, text: string)

  /** SQL boolean expressions; `Nothing` is SQLAlchemy's `or_()` without elements. That it is left out of any
      conjunction, negated or not, is an assumption about SQLAlchemy. */
  datatype Clause =
    | Always
    | Nothing
    | Column(column: string, test: TextTest)
    | Severity(cmp: string, right: int)
    | And(parts: seq<Clause>)
    | Or(parts: seq<Clause>)
    | Not(part: Clause)

  predicate KnownCmp(cmp: string) {
    cmp in {">=", ">", "<=", "<", "!=", "==", "="}
  }

  /** The comparison holds, given whether the left side is less than and equal to the right one. */
  predicate CmpHolds(cmp: string, less: bool, equal: bool) {
    if cmp == ">=" then !less
    else if cmp == ">" then !less && !equal
    else if cmp == "<=" then less || equal
    else if cmp == "<" then less
    else if cmp == "!=" then !equal
    else equal
  }

  ghost predicate TestHolds(text: string, test: TextTest, env: Env) {
    match test
    case Equals(t) => text == t
    case Matches(p) => Like(Fold(text, env.lower), Fold(p, env.lower))
    case OneOf(ts) => text in ts
    case NotBefore(t) => env.rowTime(text) >= t
    case NotAfter(t) => env.rowTime(text) <= t
    case Compares(cmp, t) => CmpHolds(cmp, env.textLess(text, t), text == t)
  }

  /** The `case` expression that maps a row's type and severity to a number, 0 if nothing matches. */
  function SeverityOf(row: Row, env: Env): int {
    if "type" !in row || "data.severity" !in row then 0
    else SeverityIn(row["type"], env.upper(row["data.severity"]), env.findingCfgs)
  }

  function SeverityIn(dataType: string, id: string, cfgs: seq<FindingCfg>): int {
    if cfgs == [] then 0
    else
      match (if cfgs[0].dataType == dataType then FindCategory(id, cfgs[0].categorisations) else None)
      case Some(v) => v
      case None => SeverityIn(dataType, id, cfgs[1..])
  }

  function FindCategory(id: string, cats: seq<Category>): Option<int> {
    if cats == [] then None
    else if cats[0].id == id then Some(cats[0].value)
    else FindCategory(id, cats[1..])
  }

  function Known(b: bool): Truth {
    if b then True else False
  }

  ghost function Eval(c: Clause, row: Row, env: Env): Truth {
    match c
    case Always => True
    case Nothing => True
    case Column(col, test) => if col in row then Known(TestHolds(row[col], test, env)) else Unknown
    case Severity(cmp, right) => Known(CmpHolds(cmp, SeverityOf(row, env) < right, SeverityOf(row, env) == right))
    case And(cs) =>
      if exists i :: 0 <= i < |cs| && Eval(cs[i], row, env) == False then False
      else if exists i :: 0 <= i < |cs| && Eval(cs[i], row, env) == Unknown then Unknown
      else True
    case Or(cs) =>
      if exists i :: 0 <= i < |cs| && Eval(cs[i], row, env) == True then True
      else if exists i :: 0 <= i < |cs| && Eval(cs[i], row, env) == Unknown then Unknown
      else False
    case Not(d) =>
      if d.Nothing? then True
      else match Eval(d, row, env) case True => False case False => True case Unknown => Unknown
  }

  function MakeOr(cs: seq<Clause>): Clause {
    if cs == [] then Nothing else Or(cs)
  }

  // ---------------------------------------------------------------- predicates of single criteria

  /** The characters `str.strip` removes. */
  predicate IsSpace(c: char) {
    || '\t' <= c <= '\r' || '\U{1C}' <= c <= ' ' || c in {'\U{85}', '\U{A0}', '\U{1680}'}
    || '\U{2000}' <= c <= '\U{200A}' || c in {'\U{2028}', '\U{2029}', '\U{202F}', '\U{205F}', '\U{3000}'}
  }

  function StripLeft(s: string): (r: string)
    ensures |r| <= |s|
  {
    if s != [] && IsSpace(s[0]) then StripLeft(s[1..]) else s
  }

  function StripRight(s: string): (r: string)
    ensures |r| <= |s|
  {
    if s != [] && IsSpace(s[|s| - 1]) then StripRight(s[..|s| - 1]) else s
  }

  function Strip(s: string): string { StripRight(StripLeft(s)) }

  function IndexOf(s: string, c: char): (i: nat)
    ensures i <= |s| && (i < |s| ==> s[i] == c)
  {
    if s == [] || s[0] == c then 0 else 1 + IndexOf(s[1..], c)
  }

  /** `_split_ocm`: component name and, if given, version. */
  function SplitOcm(componentId: string): (string, Option<string>) {
    var raw := Strip(componentId);
    var i := IndexOf(raw, ':');
    if i == |raw| then (raw, None)
    else
      var version := Strip(raw[i + 1..]);
      (Strip(raw[..i]), if version == "" then None else Some(version))
  }

  predicate Blank(s: string) {
    forall i :: 0 <= i < |s| ==> IsSpace(s[i])
  }

  /** No space at either end. */
  predicate Trimmed(s: string) {
    s != [] ==> !IsSpace(s[0]) && !IsSpace(s[|s| - 1])
  }

  lemma {:induction false} StripLeftSplits(s: string) returns (left: string)
    ensures Blank(left) && s == left + StripLeft(s)
    ensures StripLeft(s) != [] ==> !IsSpace(StripLeft(s)[0])
  {
    left := [];
    if s != [] && IsSpace(s[0]) {
      left := StripLeftSplits(s[1..]);
      left := [s[0]] + left;
    }
  }

  lemma {:induction false} StripRightSplits(s: string) returns (right: string)
    ensures Blank(right) && s == StripRight(s) + right
    ensures StripRight(s) != [] ==> !IsSpace(StripRight(s)[|StripRight(s)| - 1])
  {
    right := [];
    if s != [] && IsSpace(s[|s| - 1]) {
      right := StripRightSplits(s[..|s| - 1]);
      right := right + [s[|s| - 1]];
    }
  }

  /** Stripping takes off spaces on both sides and leaves none there. */
  lemma StripSplits(s: string) returns (left: string, right: string)
    ensures Blank(left) && Blank(right) && Trimmed(Strip(s)) && s == left + Strip(s) + right
  {
    left := StripLeftSplits(s);
    right := StripRightSplits(StripLeft(s));
    assert StripLeft(s) == Strip(s) + right;
    assert Strip(s) != [] ==> Strip(s)[0] == StripLeft(s)[0];
  }

  lemma BlankHasNoCore(left: string, core: string, right: string)
    requires Trimmed(core)
    ensures Blank(left + core + right) ==> core == []
  {
    if core != [] {
      assert (left + core + right)[|left|] == core[0];
    }
  }

  /** There is only one such text. */
  lemma SplitUnique(left: string, core: string, right: string, left': string, core': string, right': string)
    requires left + core + right == left' + core' + right'
    requires Blank(left) && Blank(right) && Blank(left') && Blank(right') && Trimmed(core) && Trimmed(core')
    ensures core == core'
  {
    var s := left + core + right;
    if core == [] {
      BlankHasNoCore(left', core', right');
    } else if core' == [] {
      BlankHasNoCore(left, core, right);
    } else {
      assert s[|left|] == core[0] && s[|left'|] == core'[0];
      assert s[|left| + |core| - 1] == core[|core| - 1] && s[|left'| + |core'| - 1] == core'[|core'| - 1];
      assert s[|left|..|left| + |core|] == core && s[|left'|..|left'| + |core'|] == core';
    }
  }

  lemma StripIs(left: string, core: string, right: string)
    requires Blank(left) && Blank(right) && Trimmed(core)
    ensures Strip(left + core + right) == core
  {
    var left', right' := StripSplits(left + core + right);
    SplitUnique(left, core, right, left', Strip(left + core + right), right');
  }

  lemma {:induction false} IndexAfter(s: string, c: char, rest: string)
    requires c !in s
    ensures IndexOf(s + [c] + rest, c) == |s|
  {
    if s != [] {
      IndexAfter(s[1..], c, rest);
      assert (s + [c] + rest)[1..] == s[1..] + [c] + rest;
    }
  }

  /** An identifier without a colon is a name. */
  lemma SplitOcmBare(s: string)
    requires ':' !in s
    ensures SplitOcm(s) == (Strip(s), None)
  {
    var left, right := StripSplits(s);
    assert forall k :: 0 <= k < |Strip(s)| ==> Strip(s)[k] == s[|left| + k];
    assert forall x :: x in Strip(s) ==> x in s;
  }

  /** Spaces around the colon stay when the whole is stripped; the colon is none. */
  lemma StripAroundColon(name: string, version: string) returns (b: string, c: string)
    ensures Blank(b) && Blank(c)
    ensures Strip(name + ":" + version) == Strip(name) + b + ":" + (c + Strip(version))
    ensures forall x :: x in Strip(name) + b ==> x in name
  {
    var a, d;
    a, b := StripSplits(name);
    c, d := StripSplits(version);
    var n, v := Strip(name), Strip(version);
    assert forall x :: x in n + b ==> x in name;
    if n == "" {
      a, b := a + b, "";
    }
    if v == "" {
      c, d := "", c + d;
    }
    assert name == a + n + b && version == c + v + d;
    Regroup(a, n, b, c, v, d);
    ColonIsCore(n + b, c + v);
    StripIs(a, n + b + ":" + (c + v), d);
  }

  lemma Regroup(a: string, n: string, b: string, c: string, v: string, d: string)
    ensures a + n + b + ":" + (c + v + d) == a + (n + b + ":" + (c + v)) + d
  {
    var l, r := n + b, c + v;
    assert a + n + b == a + l;
    assert a + l + ":" + (r + d) == a + (l + ":" + r) + d;
  }

  lemma ColonIsCore(x: string, y: string)
    requires (x != [] ==> !IsSpace(x[0])) && (y != [] ==> !IsSpace(y[|y| - 1]))
    ensures Trimmed(x + ":" + y)
  {
  }

  lemma StripBlank(s: string)
    ensures Strip(s) == [] <==> Blank(s)
  {
    var left, right := StripSplits(s);
    BlankHasNoCore(left, Strip(s), right);
    if Strip(s) == [] {
      assert s == left + right;
    }
  }

  /** Otherwise the first colon ends the name; a version made of spaces is none. */
  lemma SplitOcmAtColon(name: string, version: string)
    requires ':' !in name
    ensures SplitOcm(name + ":" + version) == (Strip(name), if Blank(version) then None else Some(Strip(version)))
  {
    var b, c := StripAroundColon(name, version);
    var n, v := Strip(name), Strip(version);
    var raw := n + b + ":" + (c + v);
    IndexAfter(n + b, ':', c + v);
    assert raw == n + b + [':'] + (c + v);
    assert raw[..|n + b|] == n + b && raw[|n + b| + 1..] == c + v;
    var l, r := StripSplits(name);
    var l', r' := StripSplits(version);
    StripIs("", n, b);
    assert "" + n + b == n + b;
    StripIs(c, v, "");
    assert c + v + "" == c + v;
    StripBlank(version);
  }

  function PredOcm(value: string): Result<Clause, BadRequest> {
    var (name, version) := SplitOcm(value);
    if name == "" then Err(BadRequest)
    else
      var byName := Column("component_name", Equals(name));
      match version
      case None => Ok(byName)
      case Some(v) => Ok(And([byName, Column("component_version", Equals(v))]))
  }

  /** `_expr_for_attr`. */
  function ColumnOf(attr: string): Option<string> {
    if "meta." <= attr || "data." <= attr then Some(attr)
    else if attr in COLUMNS then Some(COLUMNS[attr])
    else None
  }

  function TimeBound(raw: Option<string>, env: Env): Result<Option<int>, BadRequest> {
    match raw
    case None => Ok(None)
    case Some(r) => match env.parseTime(r) case None => Err(BadRequest) case Some(t) => Ok(Some(t))
  }

  /** The configured value of a severity id for a finding type, the first configuration of the type deciding. */
  function SeverityValue(dataType: string, id: string, cfgs: seq<FindingCfg>): Option<int> {
    if cfgs == [] then None
    else if cfgs[0].dataType == dataType then FindCategory(id, cfgs[0].categorisations)
    else SeverityValue(dataType, id, cfgs[1..])
  }

  /** The number a severity is compared with: given as such, or the value of an id of the selected type. */
  function SeverityTarget(value: string, selectedType: Option<string>, env: Env): Option<int> {
    match env.parseInt(value)
    case Some(n) => Some(n)
    case None => if selectedType.None? then None else SeverityValue(selectedType.value, value, env.findingCfgs)
  }

  /** `_pred_cmp`. */
  function PredCmp(attr: string, cmp: string, value: string, selectedType: Option<string>,
                   env: Env): Result<Clause, BadRequest> {
    if attr == "finding.severity" || attr == "data.severity" then
      var right := SeverityTarget(value, selectedType, env);
      if right.None? || !KnownCmp(cmp) then Err(BadRequest) else Ok(Severity(cmp, right.value))
    else
      match ColumnOf(attr)
      case None => Err(BadRequest)
      case Some(col) => if KnownCmp(cmp) then Ok(Column(col, Compares(cmp, value))) else Err(BadRequest)
  }

  function PredRange(col: string, gte: Option<int>, lte: Option<int>): Clause {
    var clauses := (if gte.Some? then [Column(col, NotBefore(gte.value))] else []) +
                   (if lte.Some? then [Column(col, NotAfter(lte.value))] else []);
    if clauses == [] then Always else And(clauses)
  }

  /** `_pred_for_artefact_metadata`. */
  function PredMetadata(attr: string, op: Operator, selectedType: Option<string>,
                        env: Env): Result<Clause, BadRequest> {
    match op
    case Cmp(cmp, value) =>
      if cmp == "" || value.None? then Err(BadRequest) else PredCmp(attr, cmp, value.value, selectedType, env)
    case Eq(value) =>
      if value.None? || ColumnOf(attr).None? then Err(BadRequest)
      else if '*' in value.value then Ok(Column(ColumnOf(attr).value, Matches(LikePattern(value.value, false))))
      else Ok(Column(ColumnOf(attr).value, Equals(value.value)))
    case In(values) =>
      if values == [] || ColumnOf(attr).None? then Err(BadRequest)
      else Ok(Column(ColumnOf(attr).value, OneOf(values)))
    case Range(gte, lte) =>
      if ColumnOf(attr).None? then Err(BadRequest)
      else
        match TimeBound(gte, env)
        case Err(e) => Err(e)
        case Ok(from) =>
          match TimeBound(lte, env)
          case Err(e) => Err(e)
          case Ok(to) => Ok(PredRange(ColumnOf(attr).value, from, to))
  }

  function LikeFields(fields: seq<string>, token: string): Result<seq<Clause>, BadRequest> {
    if fields == [] then Ok([])
    else
      match ColumnOf(fields[0])
      case None => Err(BadRequest)
      case Some(col) =>
        match LikeFields(fields[1..], token)
        case Err(e) => Err(e)
        case Ok(cs) => Ok([Column(col, Matches(LikePattern(token, true)))] + cs)
  }

  /** `_pred_fulltext`. */
  function PredFulltext(value: string, fields: seq<string>): Result<Clause, BadRequest> {
    var token := Strip(value);
    if token == "" then Ok(Always)
    else match LikeFields(fields, token) case Err(e) => Err(e) case Ok(cs) => Ok(MakeOr(cs))
  }

  function FieldsOf(fields: Option<seq<string>>): seq<string> {
    if fields.Some? then fields.value else DEFAULT_SEARCH_FIELDS
  }

  function Pred(c: Criterion, selectedType: Option<string>, env: Env): Result<Clause, BadRequest> {
    match c
    case OcmCriterion(value, _) => PredOcm(value)
    case MetadataCriterion(attr, op, _) => PredMetadata(attr, op, selectedType, env)
    case FulltextCriterion(value, fields, _) => PredFulltext(value, FieldsOf(fields))
  }

  // ---------------------------------------------------------------- what a criterion asks for

  /** The row's value of the attribute, if it has one. */
  function AttrOf(row: Row, attr: string): Option<string> {
    match ColumnOf(attr)
    case None => None
    case Some(col) => if col in row then Some(row[col]) else None
  }

  /** A token is found in a text: as any part of it, or at its end if the token ends in a literal `%`. */
  ghost predicate TokenFound(text: string, token: string, env: Env) {
    var t, k := Fold(text, env.lower), Fold(token, env.lower);
    if k != [] && k[|k| - 1] == '%' then GlobAtEnd(t, k) else GlobInside(t, k)
  }

  predicate IsSeverity(attr: string, op: Operator) {
    op.Cmp? && (attr == "finding.severity" || attr == "data.severity")
  }

  ghost predicate TextSatisfies(text: string, op: Operator, env: Env) {
    match op
    case Eq(v) =>
      v.Some? && (if '*' in v.value then Glob(Fold(text, env.lower), Fold(v.value, env.lower)) else text == v.value)
    case In(vs) => text in vs
    case Range(gte, lte) =>
      && (gte.Some? ==> env.parseTime(gte.value).Some? && env.rowTime(text) >= env.parseTime(gte.value).value)
      && (lte.Some? ==> env.parseTime(lte.value).Some? && env.rowTime(text) <= env.parseTime(lte.value).value)
    case Cmp(cmp, v) => v.Some? && CmpHolds(cmp, env.textLess(text, v.value), text == v.value)
  }

  /** The row satisfies the criterion, ignoring its mode; a missing value satisfies nothing. */
  ghost predicate Satisfies(row: Row, c: Criterion, selectedType: Option<string>, env: Env) {
    match c
    case OcmCriterion(value, _) =>
      var (name, version) := SplitOcm(value);
      && AttrOf(row, "component_name") == Some(name)
      && (version.Some? ==> AttrOf(row, "component_version") == version)
    case MetadataCriterion(attr, op, _) =>
      if IsSeverity(attr, op) then
        && op.value.Some? && SeverityTarget(op.value.value, selectedType, env).Some?
        && var right := SeverityTarget(op.value.value, selectedType, env).value;
           CmpHolds(op.cmp, SeverityOf(row, env) < right, SeverityOf(row, env) == right)
      else if op.Range? && op.gte.None? && op.lte.None? then true
      else AttrOf(row, attr).Some? && TextSatisfies(AttrOf(row, attr).value, op, env)
    case FulltextCriterion(value, fields, _) =>
      || Strip(value) == ""
      || FieldsOf(fields) == []
      || exists i :: 0 <= i < |FieldsOf(fields)| && FieldFound(row, FieldsOf(fields)[i], Strip(value), env)
  }

  ghost predicate FieldFound(row: Row, field: string, token: string, env: Env) {
    AttrOf(row, field).Some? && TokenFound(AttrOf(row, field).value, token, env)
  }

  /** The row does not satisfy the criterion, but only because of a value it lacks. */
  ghost predicate Undecided(row: Row, c: Criterion, selectedType: Option<string>, env: Env) {
    && !Satisfies(row, c, selectedType, env)
    && match c
       case OcmCriterion(value, _) =>
         var (name, version) := SplitOcm(value);
         var cn, cv := AttrOf(row, "component_name"), AttrOf(row, "component_version");
         (cn.None? || cn == Some(name)) && (version.None? || cv.None? || cv == version)
       case MetadataCriterion(attr, op, _) => !IsSeverity(attr, op) && AttrOf(row, attr).None?
       case FulltextCriterion(_, fields, _) =>
         exists i :: 0 <= i < |FieldsOf(fields)| && AttrOf(row, FieldsOf(fields)[i]).None?
  }

  // ---------------------------------------------------------------- single predicates mean what they ask for

  lemma PredOcmTruth(row: Row, value: string, exclude: bool, selectedType: Option<string>, env: Env)
    requires PredOcm(value).Ok?
    ensures PredHasTruth(row, OcmCriterion(value, exclude), selectedType, env)
  {
    var (name, version) := SplitOcm(value);
    var byName := Column("component_name", Equals(name));
    ComponentColumns(row);
    assert Eval(byName, row, env) == ColumnTruth(AttrOf(row, "component_name"), name);
    if version.Some? {
      var byVersion := Column("component_version", Equals(version.value));
      assert PredOcm(value).value == And([byName, byVersion]);
      assert Eval(byVersion, row, env) == ColumnTruth(AttrOf(row, "component_version"), version.value);
      EvalBoth(byName, byVersion, row, env);
    }
  }

  function ColumnTruth(value: Option<string>, wanted: string): Truth {
    if value.None? then Unknown else Known(value.value == wanted)
  }

  lemma ComponentColumns(row: Row)
    ensures AttrOf(row, "component_name") == if "component_name" in row then Some(row["component_name"]) else None
    ensures
      AttrOf(row, "component_version") == if "component_version" in row then Some(row["component_version"]) else None
  {
  }

  lemma EvalBoth(c: Clause, d: Clause, row: Row, env: Env)
    ensures
      var a, b := Eval(c, row, env), Eval(d, row, env);
      Eval(And([c, d]), row, env) ==
      if a == False || b == False then False else if a == Unknown || b == Unknown then Unknown else True
  {
    var cs := [c, d];
    assert cs[0] == c && cs[1] == d;
  }

  lemma EvalOne(c: Clause, row: Row, env: Env)
    ensures Eval(And([c]), row, env) == Eval(c, row, env)
  {
    var cs := [c];
    assert cs[0] == c;
  }

  /** The predicate of a criterion is true, unknown or false as the row satisfies it, lacks what
      would decide it, or fails it. */
  ghost predicate PredHasTruth(row: Row, c: Criterion, selectedType: Option<string>, env: Env)
    requires Pred(c, selectedType, env).Ok?
  {
    Eval(Pred(c, selectedType, env).value, row, env) ==
    if Satisfies(row, c, selectedType, env) then True
    else if Undecided(row, c, selectedType, env) then Unknown
    else False
  }

  lemma PredRangeTruth(row: Row, col: string, from: Option<int>, to: Option<int>, env: Env)
    ensures Eval(PredRange(col, from, to), row, env) ==
            if from.None? && to.None? then True
            else if col !in row then Unknown
            else Known((from.Some? ==> env.rowTime(row[col]) >= from.value) &&
                       (to.Some? ==> env.rowTime(row[col]) <= to.value))
  {
    if from.Some? && to.Some? {
      assert PredRange(col, from, to) == And([Column(col, NotBefore(from.value)), Column(col, NotAfter(to.value))]);
      EvalBoth(Column(col, NotBefore(from.value)), Column(col, NotAfter(to.value)), row, env);
    } else if from.Some? {
      assert PredRange(col, from, to) == And([Column(col, NotBefore(from.value))]);
      EvalOne(Column(col, NotBefore(from.value)), row, env);
    } else if to.Some? {
      assert PredRange(col, from, to) == And([Column(col, NotAfter(to.value))]);
      EvalOne(Column(col, NotAfter(to.value)), row, env);
    }
  }

  lemma RangeTruth(row: Row, attr: string, op: Operator, exclude: bool, selectedType: Option<string>, env: Env)
    requires op.Range? && PredMetadata(attr, op, selectedType, env).Ok?
    ensures PredHasTruth(row, MetadataCriterion(attr, op, exclude), selectedType, env)
  {
    PredRangeTruth(row, ColumnOf(attr).value, TimeBound(op.gte, env).value, TimeBound(op.lte, env).value, env);
  }

  lemma EqTruth(row: Row, attr: string, op: Operator, exclude: bool, selectedType: Option<string>, env: Env)
    requires KeepsSpecials(env.lower) && op.Eq? && PredMetadata(attr, op, selectedType, env).Ok?
    ensures PredHasTruth(row, MetadataCriterion(attr, op, exclude), selectedType, env)
  {
    var value := op.value.value;
    if '*' in value && AttrOf(row, attr).Some? {
      PredLikeIgnoresCase(value, false, env.lower);
      PatternMatchesGlob(Fold(AttrOf(row, attr).value, env.lower), Fold(value, env.lower));
    }
  }

  lemma PredMetadataTruth(row: Row, attr: string, op: Operator, exclude: bool, selectedType: Option<string>, env: Env)
    requires KeepsSpecials(env.lower) && PredMetadata(attr, op, selectedType, env).Ok?
    ensures PredHasTruth(row, MetadataCriterion(attr, op, exclude), selectedType, env)
  {
    match op
    case Cmp(_, _) =>
    case In(_) =>
    case Eq(_) => EqTruth(row, attr, op, exclude, selectedType, env);
    case Range(_, _) => RangeTruth(row, attr, op, exclude, selectedType, env);
  }

  lemma {:induction false} LikeFieldsEach(fields: seq<string>, token: string)
    requires LikeFields(fields, token).Ok?
    ensures |LikeFields(fields, token).value| == |fields|
    ensures forall i :: 0 <= i < |fields| ==>
              && ColumnOf(fields[i]).Some?
              && LikeFields(fields, token).value[i] ==
                 Column(ColumnOf(fields[i]).value, Matches(LikePattern(token, true)))
  {
    if fields != [] {
      LikeFieldsEach(fields[1..], token);
      assert forall i :: 1 <= i < |fields| ==> fields[i] == fields[1..][i - 1];
    }
  }

  lemma FieldTruth(row: Row, field: string, token: string, env: Env)
    requires KeepsSpecials(env.lower) && ColumnOf(field).Some?
    ensures Eval(Column(ColumnOf(field).value, Matches(LikePattern(token, true))), row, env) ==
            if AttrOf(row, field).None? then Unknown else Known(FieldFound(row, field, token, env))
  {
    if AttrOf(row, field).Some? {
      PredLikeIgnoresCase(token, true, env.lower);
      WrappedMatches(Fold(AttrOf(row, field).value, env.lower), Fold(token, env.lower));
    }
  }

  ghost predicate AnyFound(row: Row, fields: seq<string>, token: string, env: Env) {
    exists i :: 0 <= i < |fields| && FieldFound(row, fields[i], token, env)
  }

  ghost predicate AnyMissing(row: Row, fields: seq<string>) {
    exists i :: 0 <= i < |fields| && AttrOf(row, fields[i]).None?
  }

  lemma FulltextOr(row: Row, fields: seq<string>, token: string, cs: seq<Clause>, env: Env)
    requires |cs| == |fields|
    requires forall i :: 0 <= i < |fields| ==>
      Eval(cs[i], row, env) ==
      if AttrOf(row, fields[i]).None? then Unknown else Known(FieldFound(row, fields[i], token, env))
    ensures
      Eval(Or(cs), row, env) ==
      if AnyFound(row, fields, token, env) then True else if AnyMissing(row, fields) then Unknown else False
  {
    if i :| 0 <= i < |fields| && FieldFound(row, fields[i], token, env) {
      assert Eval(cs[i], row, env) == True;
    } else if i :| 0 <= i < |fields| && AttrOf(row, fields[i]).None? {
      assert Eval(cs[i], row, env) == Unknown;
    }
  }

  lemma PredFulltextTruth(row: Row, c: Criterion, selectedType: Option<string>, env: Env)
    requires KeepsSpecials(env.lower) && c.FulltextCriterion? && Pred(c, selectedType, env).Ok?
    ensures PredHasTruth(row, c, selectedType, env)
  {
    var fields, token := FieldsOf(c.fields), Strip(c.value);
    if token != "" {
      LikeFieldsEach(fields, token);
      var cs := LikeFields(fields, token).value;
      forall i | 0 <= i < |fields|
        ensures Eval(cs[i], row, env) ==
                if AttrOf(row, fields[i]).None? then Unknown else Known(FieldFound(row, fields[i], token, env))
      {
        FieldTruth(row, fields[i], token, env);
      }
      FulltextOr(row, fields, token, cs, env);
      assert Satisfies(row, c, selectedType, env) <==> fields == [] || AnyFound(row, fields, token, env);
      assert Pred(c, selectedType, env).value == MakeOr(cs);
    }
  }

  lemma PredTruth(row: Row, c: Criterion, selectedType: Option<string>, env: Env)
    requires KeepsSpecials(env.lower) && Pred(c, selectedType, env).Ok?
    ensures PredHasTruth(row, c, selectedType, env)
  {
    match c
    case OcmCriterion(value, exclude) => PredOcmTruth(row, value, exclude, selectedType, env);
    case MetadataCriterion(attr, op, exclude) => PredMetadataTruth(row, attr, op, exclude, selectedType, env);
    case FulltextCriterion(_, _, _) => PredFulltextTruth(row, c, selectedType, env);
  }

  // ---------------------------------------------------------------- comparisons and severities

  /** `left` compares to `right` as the operator says. */
  predicate Compared(cmp: string, left: int, right: int) {
    || (cmp == ">=" && left >= right) || (cmp == ">" && left > right)
    || (cmp == "<=" && left <= right) || (cmp == "<" && left < right)
    || (cmp == "!=" && left != right) || (cmp in {"==", "="} && left == right)
  }

  predicate IsOperator(cmp: string) {
    cmp in {">=", ">", "<=", "<", "!=", "==", "="}
  }

  /** A severity is compared with a number as numbers compare, and the result is always known. */
  lemma SeverityIsCompared(row: Row, cmp: string, value: string, n: int, selectedType: Option<string>, env: Env)
    requires env.parseInt(value) == Some(n)
    ensures
      var pred := PredMetadata("data.severity", Cmp(cmp, Some(value)), selectedType, env);
      && (pred.Ok? <==> IsOperator(cmp))
      && (pred.Ok? ==> Eval(pred.value, row, env) == Known(Compared(cmp, SeverityOf(row, env), n)))
  {
  }

  /** A text is compared by the order of texts; `order` is negative, zero or positive as it comes before the value, is
      the same or comes after. */
  lemma TextIsCompared(row: Row, attr: string, cmp: string, value: string, order: int, selectedType: Option<string>,
                       env: Env)
    requires !IsSeverity(attr, Cmp(cmp, Some(value))) && AttrOf(row, attr).Some?
    requires env.textLess(AttrOf(row, attr).value, value) <==> order < 0
    requires AttrOf(row, attr).value == value <==> order == 0
    ensures
      var pred := PredMetadata(attr, Cmp(cmp, Some(value)), selectedType, env);
      && (pred.Ok? <==> IsOperator(cmp))
      && (pred.Ok? ==> Eval(pred.value, row, env) == Known(Compared(cmp, order, 0)))
  {
  }

  /** The first category with the id. */
  predicate IsCategoryAt(id: string, cats: seq<Category>, j: nat) {
    j < |cats| && cats[j].id == id && forall k :: 0 <= k < j ==> cats[k].id != id
  }

  lemma {:induction false} FindCategoryAt(id: string, cats: seq<Category>, j: nat)
    requires IsCategoryAt(id, cats, j)
    ensures FindCategory(id, cats) == Some(cats[j].value)
  {
    if j > 0 {
      FindCategoryAt(id, cats[1..], j - 1);
    }
  }

  predicate HasCategory(cfg: FindingCfg, id: string) {
    exists j :: 0 <= j < |cfg.categorisations| && cfg.categorisations[j].id == id
  }

  lemma {:induction false} FindCategoryNone(id: string, cfg: FindingCfg)
    ensures FindCategory(id, cfg.categorisations).Some? <==> HasCategory(cfg, id)
    decreases |cfg.categorisations|
  {
    var cats := cfg.categorisations;
    if cats != [] && cats[0].id != id {
      var rest := cfg.(categorisations := cats[1..]);
      FindCategoryNone(id, rest);
      assert forall j :: 1 <= j < |cats| ==> cats[j] == rest.categorisations[j - 1];
    }
  }

  /** Configuration `i` is of the type and has the id. */
  predicate Categorises(cfgs: seq<FindingCfg>, i: nat, dataType: string, id: string) {
    i < |cfgs| && cfgs[i].dataType == dataType && HasCategory(cfgs[i], id)
  }

  lemma {:induction false} SeverityInAt(dataType: string, id: string, cfgs: seq<FindingCfg>, i: nat, j: nat)
    requires i < |cfgs| && cfgs[i].dataType == dataType && IsCategoryAt(id, cfgs[i].categorisations, j)
    requires forall k: nat :: k < i ==> !Categorises(cfgs, k, dataType, id)
    ensures SeverityIn(dataType, id, cfgs) == cfgs[i].categorisations[j].value
  {
    FindCategoryNone(id, cfgs[0]);
    if i == 0 {
      FindCategoryAt(id, cfgs[0].categorisations, j);
    } else {
      assert !Categorises(cfgs, 0, dataType, id);
      forall k: nat | k < i - 1
        ensures !Categorises(cfgs[1..], k, dataType, id)
      {
        assert !Categorises(cfgs, k + 1, dataType, id);
      }
      SeverityInAt(dataType, id, cfgs[1..], i - 1, j);
    }
  }

  lemma {:induction false} SeverityInNone(dataType: string, id: string, cfgs: seq<FindingCfg>)
    requires forall k: nat :: !Categorises(cfgs, k, dataType, id)
    ensures SeverityIn(dataType, id, cfgs) == 0
  {
    if cfgs != [] {
      assert !Categorises(cfgs, 0, dataType, id);
      FindCategoryNone(id, cfgs[0]);
      forall k: nat
        ensures !Categorises(cfgs[1..], k, dataType, id)
      {
        assert !Categorises(cfgs, k + 1, dataType, id);
      }
      SeverityInNone(dataType, id, cfgs[1..]);
    }
  }

  /** The severity of a row is the value of its upper-cased severity id, in the first configuration of the row's type
      that has the id; 0 without one. */
  lemma SeverityIsConfigured(row: Row, env: Env, i: nat, j: nat)
    requires "type" in row && "data.severity" in row
    ensures
      var dataType, id := row["type"], env.upper(row["data.severity"]);
      && ((i < |env.findingCfgs| && env.findingCfgs[i].dataType == dataType
           && IsCategoryAt(id, env.findingCfgs[i].categorisations, j)
           && forall k: nat :: k < i ==> !Categorises(env.findingCfgs, k, dataType, id)) ==>
            SeverityOf(row, env) == env.findingCfgs[i].categorisations[j].value)
      && ((forall k: nat :: !Categorises(env.findingCfgs, k, dataType, id)) ==> SeverityOf(row, env) == 0)
    ensures SeverityOf(row - {"type"}, env) == 0 == SeverityOf(row - {"data.severity"}, env)
  {
    var dataType, id, cfgs := row["type"], env.upper(row["data.severity"]), env.findingCfgs;
    if i < |cfgs| && cfgs[i].dataType == dataType && IsCategoryAt(id, cfgs[i].categorisations, j)
       && forall k: nat :: k < i ==> !Categorises(cfgs, k, dataType, id) {
      SeverityInAt(dataType, id, cfgs, i, j);
    }
    if forall k: nat :: !Categorises(cfgs, k, dataType, id) {
      SeverityInNone(dataType, id, cfgs);
    }
  }

  /** A severity given by its id stands for its value in the first configuration of the selected type; it is an error
      if that does not have the id. */
  lemma {:induction false} SeverityIdIsLookedUp(dataType: string, id: string, cfgs: seq<FindingCfg>, i: nat)
    requires i < |cfgs| && cfgs[i].dataType == dataType && forall k :: 0 <= k < i ==> cfgs[k].dataType != dataType
    ensures SeverityValue(dataType, id, cfgs).Some? <==> HasCategory(cfgs[i], id)
    ensures forall j: nat :: IsCategoryAt(id, cfgs[i].categorisations, j) ==>
      SeverityValue(dataType, id, cfgs) == Some(cfgs[i].categorisations[j].value)
  {
    if i > 0 {
      SeverityIdIsLookedUp(dataType, id, cfgs[1..], i - 1);
    } else {
      FindCategoryNone(id, cfgs[0]);
      forall j: nat | IsCategoryAt(id, cfgs[0].categorisations, j) {
        FindCategoryAt(id, cfgs[0].categorisations, j);
      }
    }
  }

  /** False, unknown and true are numbered 0, 1 and 2: negation reverses, `AND` and `OR` are minimum and maximum. */
  function Rank(t: Truth): int {
    match t case False => 0 case Unknown => 1 case True => 2
  }

  lemma EvalIsKleene(c: Clause, d: Clause, row: Row, env: Env)
    ensures !c.Nothing? ==> Rank(Eval(Not(c), row, env)) == 2 - Rank(Eval(c, row, env))
    ensures Rank(Eval(And([c, d]), row, env)) == Min(Rank(Eval(c, row, env)), Rank(Eval(d, row, env)))
    ensures Rank(Eval(Or([c, d]), row, env)) == Max(Rank(Eval(c, row, env)), Rank(Eval(d, row, env)))
  {
    EvalBoth(c, d, row, env);
    EvalEither(c, d, row, env);
    if !c.Nothing? {
      EvalNot(c, row, env);
    }
  }

  lemma EvalEither(c: Clause, d: Clause, row: Row, env: Env)
    ensures
      var a, b := Eval(c, row, env), Eval(d, row, env);
      Eval(Or([c, d]), row, env) ==
      if a == True || b == True then True else if a == Unknown || b == Unknown then Unknown else False
  {
    var cs := [c, d];
    assert cs[0] == c && cs[1] == d;
  }

  lemma EvalNot(c: Clause, row: Row, env: Env)
    requires !c.Nothing?
    ensures Eval(c, row, env) == True ==> Eval(Not(c), row, env) == False
    ensures Eval(c, row, env) == False ==> Eval(Not(c), row, env) == True
    ensures Eval(c, row, env) == Unknown ==> Eval(Not(c), row, env) == Unknown
  {
  }

  // ---------------------------------------------------------------- which criteria are well formed

  /** A JSON path below the metadata or the data of a row, or one of the names listed. */
  predicate IsAttribute(attr: string) {
    (|attr| >= 5 && attr[..5] in {"meta.", "data."}) || attr in COLUMNS
  }

  predicate IsColumn(attr: string) {
    attr in {"id", "type", "datasource", "artefact_kind", "artefact_name", "artefact_version", "artefact_type",
             "component_name", "component_version", "data_key"}
  }

  lemma ColumnsAre(attr: string)
    ensures ColumnOf(attr).Some? <==> IsAttribute(attr)
    ensures |attr| >= 5 && attr[..5] in {"meta.", "data."} ==> ColumnOf(attr) == Some(attr)
    ensures IsColumn(attr) ==> ColumnOf(attr) == Some(attr)
    ensures ColumnOf("ocm.name") == Some("component_name") && ColumnOf("ocm.version") == Some("component_version")
    ensures ColumnOf("artefact.name") == Some("artefact_name") && ColumnOf("artefact.type") == Some("artefact_type")
    ensures ColumnOf("artefact.version") == Some("artefact_version")
  {
    assert "meta." <= attr <==> |attr| >= 5 && attr[..5] == "meta.";
    assert "data." <= attr <==> |attr| >= 5 && attr[..5] == "data.";
    assert "artefact.name"[0] == "artefact.type"[0] == "artefact.version"[0] == 'a' && "ocm.name"[0] == 'o';
    assert attr in COLUMNS && "meta." <= attr ==> attr[0] == 'm';
  }

  predicate TimeGiven(raw: Option<string>, env: Env) {
    raw.Some? ==> env.parseTime(raw.value).Some?
  }

  /** The operator has what it needs for the attribute. */
  predicate OperatorFits(attr: string, op: Operator, selectedType: Option<string>, env: Env) {
    match op
    case Eq(value) => value.Some? && IsAttribute(attr)
    case In(values) => values != [] && IsAttribute(attr)
    case Range(gte, lte) => IsAttribute(attr) && TimeGiven(gte, env) && TimeGiven(lte, env)
    case Cmp(cmp, value) =>
      && IsOperator(cmp) && value.Some?
      && if attr in {"finding.severity", "data.severity"} then
           || env.parseInt(value.value).Some?
           || (selectedType.Some? && SeverityValue(selectedType.value, value.value, env.findingCfgs).Some?)
         else IsAttribute(attr)
  }

  /** Exactly when a criterion has a clause: a component needs a name, a metadata criterion a known attribute, a fitting
      operator and its values, and a search known fields, unless there is nothing to search for. */
  lemma WellFormedIff(c: Criterion, selectedType: Option<string>, env: Env)
    ensures
      Pred(c, selectedType, env).Ok? <==>
      match c
      case OcmCriterion(value, _) => !Blank(value[..IndexOf(value, ':')])
      case MetadataCriterion(attr, op, _) => OperatorFits(attr, op, selectedType, env)
      case FulltextCriterion(value, fields, _) =>
        Blank(value) || fields.None? || forall f :: f in fields.value ==> IsAttribute(f)
  {
    match c
    case OcmCriterion(value, _) => NameIsBeforeColon(value);
    case MetadataCriterion(attr, op, _) => OperatorFitsIff(attr, op, selectedType, env);
    case FulltextCriterion(value, fields, _) =>
      StripBlank(value);
      FieldsFit(FieldsOf(fields), Strip(value));
      DefaultFieldsFit();
  }

  lemma DefaultFieldsFit()
    ensures forall f :: f in DEFAULT_SEARCH_FIELDS ==> IsAttribute(f)
  {
    assert forall f :: f in DEFAULT_SEARCH_FIELDS ==>
      f in {"data.summary", "data.cve", "data.package_name", "data.package_version", "artefact.name", "ocm.name"};
    assert "data.summary"[..5] == "data." && "data.cve"[..5] == "data." && "data.package_name"[..5] == "data.";
    assert "data.package_version"[..5] == "data.";
  }

  lemma OperatorFitsIff(attr: string, op: Operator, selectedType: Option<string>, env: Env)
    ensures PredMetadata(attr, op, selectedType, env).Ok? <==> OperatorFits(attr, op, selectedType, env)
  {
    ColumnsAre(attr);
    match op
    case Cmp(cmp, value) => ComparisonFitsIff(attr, cmp, value, selectedType, env);
    case _ =>
  }

  lemma ComparisonFitsIff(attr: string, cmp: string, value: Option<string>, selectedType: Option<string>, env: Env)
    ensures
      PredMetadata(attr, Cmp(cmp, value), selectedType, env).Ok? <==>
      OperatorFits(attr, Cmp(cmp, value), selectedType, env)
  {
    ColumnsAre(attr);
    assert IsOperator(cmp) ==> cmp != "";
    assert IsOperator(cmp) <==> KnownCmp(cmp);
  }

  lemma NameIsBeforeColon(value: string)
    ensures SplitOcm(value).0 == "" <==> Blank(value[..IndexOf(value, ':')])
  {
    var i := IndexOf(value, ':');
    var name := value[..i];
    FirstIndex(value, ':');
    StripBlank(name);
    if i < |value| {
      SplitAround(value, i);
      SplitOcmAtColon(name, value[i + 1..]);
    } else {
      assert name == value;
      SplitOcmBare(name);
    }
  }

  lemma SplitAround(s: string, i: nat)
    requires i < |s| && s[i] == ':'
    ensures s == s[..i] + ":" + s[i + 1..]
  {
  }

  lemma {:induction false} FirstIndex(s: string, c: char)
    ensures c !in s[..IndexOf(s, c)]
  {
    if s != [] && s[0] != c {
      FirstIndex(s[1..], c);
      assert s[..IndexOf(s, c)] == [s[0]] + s[1..][..IndexOf(s[1..], c)];
    }
  }

  lemma {:induction false} FieldsFit(fields: seq<string>, token: string)
    ensures LikeFields(fields, token).Ok? <==> forall f :: f in fields ==> IsAttribute(f)
  {
    if fields != [] {
      ColumnsAre(fields[0]);
      FieldsFit(fields[1..], token);
      assert forall f :: f in fields <==> f == fields[0] || f in fields[1..];
    }
  }

  /** Tabs, line ends and non-breaking spaces are stripped like blanks; spaces inside stay. */
  lemma StripExample()
    ensures Strip("\t\n\r " + "open ssl" + "\U{A0}\U{2003}") == "open ssl"
  {
    var left, right := "\t\n\r ", "\U{A0}\U{2003}";
    assert left[0] == '\t' && left[1] == '\n' && left[2] == '\r' && left[3] == ' ';
    assert right[0] == '\U{A0}' && right[1] == '\U{2003}';
    StripIs(left, "open ssl", right);
  }

  // ---------------------------------------------------------------- what a list of criteria asks for

  /** All OCM criteria, the metadata criteria of one attribute, or all full-text criteria. */
  datatype Group = OcmGroup | AttrGroup(attr: string) | FulltextGroup

  predicate InGroup(c: Criterion, g: Group) {
    match g
    case OcmGroup => c.OcmCriterion?
    case AttrGroup(attr) => c.MetadataCriterion? && c.attr == attr
    case FulltextGroup => c.FulltextCriterion?
  }

  /** A search over no fields at all: the code leaves it out in either mode. */
  predicate WithoutEffect(c: Criterion) {
    c.FulltextCriterion? && Strip(c.value) != "" && FieldsOf(c.fields) == []
  }

  ghost predicate HasInclude(cs: seq<Criterion>, g: Group) {
    exists i :: 0 <= i < |cs| && InGroup(cs[i], g) && !cs[i].exclude
  }

  ghost predicate IncludeSatisfied(row: Row, cs: seq<Criterion>, g: Group, selectedType: Option<string>, env: Env) {
    exists i :: 0 <= i < |cs| && InGroup(cs[i], g) && !cs[i].exclude && Satisfies(row, cs[i], selectedType, env)
  }

  ghost predicate GroupIncludes(row: Row, cs: seq<Criterion>, g: Group, selectedType: Option<string>, env: Env) {
    HasInclude(cs, g) ==> IncludeSatisfied(row, cs, g, selectedType, env)
  }

  /** The documented semantics: among the includes of OCM criteria, and of each attribute, one is satisfied;
      every full-text include is satisfied; no exclude is. */
  ghost predicate Wanted(row: Row, cs: seq<Criterion>, selectedType: Option<string>, env: Env) {
    && (forall g: Group :: g.FulltextGroup? || GroupIncludes(row, cs, g, selectedType, env))
    && (forall i :: 0 <= i < |cs| && cs[i].FulltextCriterion? && !cs[i].exclude ==>
          Satisfies(row, cs[i], selectedType, env))
    && (forall i :: 0 <= i < |cs| && cs[i].exclude && !WithoutEffect(cs[i]) ==>
          !Satisfies(row, cs[i], selectedType, env))
  }

  /** No exclude is left open by a value the row lacks. */
  ghost predicate ExcludesDecided(row: Row, cs: seq<Criterion>, selectedType: Option<string>, env: Env) {
    forall i :: 0 <= i < |cs| && cs[i].exclude && !WithoutEffect(cs[i]) ==> !Undecided(row, cs[i], selectedType, env)
  }

  ghost predicate AllTrue(parts: seq<Clause>, row: Row, env: Env) {
    forall i :: 0 <= i < |parts| ==> Eval(parts[i], row, env) == True
  }

  /** The predicates of a group's includes or excludes, in order. */
  function GroupPreds(cs: seq<Criterion>, g: Group, exclude: bool, selectedType: Option<string>,
                      env: Env): seq<Clause> {
    if cs == [] then []
    else
      var c := cs[|cs| - 1];
      GroupPreds(cs[..|cs| - 1], g, exclude, selectedType, env) +
      (if InGroup(c, g) && c.exclude == exclude && Pred(c, selectedType, env).Ok?
       then [Pred(c, selectedType, env).value] else [])
  }

  ghost predicate AllValid(cs: seq<Criterion>, selectedType: Option<string>, env: Env) {
    forall i :: 0 <= i < |cs| ==> Pred(cs[i], selectedType, env).Ok?
  }

  lemma {:induction false} PredListed(cs: seq<Criterion>, g: Group, exclude: bool, selectedType: Option<string>,
                                      env: Env, i: nat)
    requires i < |cs| && InGroup(cs[i], g) && cs[i].exclude == exclude && Pred(cs[i], selectedType, env).Ok?
    ensures Pred(cs[i], selectedType, env).value in GroupPreds(cs, g, exclude, selectedType, env)
  {
    if i < |cs| - 1 {
      PredListed(cs[..|cs| - 1], g, exclude, selectedType, env, i);
    }
  }

  lemma {:induction false} PredSource(cs: seq<Criterion>, g: Group, exclude: bool, selectedType: Option<string>,
                                      env: Env, p: Clause)
    returns (i: nat)
    requires p in GroupPreds(cs, g, exclude, selectedType, env)
    ensures i < |cs| && InGroup(cs[i], g) && cs[i].exclude == exclude && Pred(cs[i], selectedType, env) == Ok(p)
  {
    var n := |cs| - 1;
    if p in GroupPreds(cs[..n], g, exclude, selectedType, env) {
      i := PredSource(cs[..n], g, exclude, selectedType, env, p);
    } else {
      i := n;
    }
  }

  function OrPart(preds: seq<Clause>): seq<Clause> {
    if preds == [] then [] else [Or(preds)]
  }

  function NotOrPart(preds: seq<Clause>): seq<Clause> {
    if preds == [] then [] else [Not(Or(preds))]
  }

  function AndPart(preds: seq<Clause>): seq<Clause> {
    if preds == [] then [] else [And(preds)]
  }

  function Negations(preds: seq<Clause>): (r: seq<Clause>)
    ensures |r| == |preds| && forall i :: 0 <= i < |preds| ==> r[i] == Not(preds[i])
  {
    seq(|preds|, i requires 0 <= i < |preds| => Not(preds[i]))
  }

  /** The row does not satisfy the exclude, and knows it. */
  ghost predicate Rejects(row: Row, c: Criterion, selectedType: Option<string>, env: Env) {
    WithoutEffect(c) || (!Satisfies(row, c, selectedType, env) && !Undecided(row, c, selectedType, env))
  }

  ghost predicate GroupRejects(row: Row, cs: seq<Criterion>, g: Group, selectedType: Option<string>, env: Env) {
    forall i :: 0 <= i < |cs| && InGroup(cs[i], g) && cs[i].exclude ==> Rejects(row, cs[i], selectedType, env)
  }

  ghost predicate FulltextIncludes(row: Row, cs: seq<Criterion>, selectedType: Option<string>, env: Env) {
    forall i :: 0 <= i < |cs| && cs[i].FulltextCriterion? && !cs[i].exclude ==> Satisfies(row, cs[i], selectedType, env)
  }

  ghost predicate SomeTrue(preds: seq<Clause>, row: Row, env: Env) {
    exists i :: 0 <= i < |preds| && Eval(preds[i], row, env) == True
  }

  lemma OrPartTrue(preds: seq<Clause>, row: Row, env: Env)
    ensures AllTrue(OrPart(preds), row, env) <==> preds == [] || SomeTrue(preds, row, env)
  {
    if preds != [] {
      assert OrPart(preds)[0] == Or(preds);
    }
  }

  lemma NotOrPartTrue(preds: seq<Clause>, row: Row, env: Env)
    ensures AllTrue(NotOrPart(preds), row, env) <==>
            forall i :: 0 <= i < |preds| ==> Eval(preds[i], row, env) == False
  {
    if preds != [] {
      assert NotOrPart(preds)[0] == Not(Or(preds));
      assert Eval(NotOrPart(preds)[0], row, env) == True <==> Eval(Or(preds), row, env) == False;
      if Eval(Or(preds), row, env) == False {
        forall i | 0 <= i < |preds|
          ensures Eval(preds[i], row, env) == False
        {
          assert Eval(preds[i], row, env) != True && Eval(preds[i], row, env) != Unknown;
        }
      }
    }
  }

  lemma AndPartTrue(preds: seq<Clause>, row: Row, env: Env)
    ensures AllTrue(AndPart(preds), row, env) <==> AllTrue(preds, row, env)
  {
    if preds != [] {
      assert AndPart(preds)[0] == And(preds);
    }
  }

  lemma IncludeListed(cs: seq<Criterion>, g: Group, selectedType: Option<string>, env: Env)
    requires AllValid(cs, selectedType, env)
    ensures GroupPreds(cs, g, false, selectedType, env) != [] <==> HasInclude(cs, g)
  {
    var preds := GroupPreds(cs, g, false, selectedType, env);
    if preds != [] {
      var i := PredSource(cs, g, false, selectedType, env, preds[0]);
    }
    if i: nat :| i < |cs| && InGroup(cs[i], g) && !cs[i].exclude {
      PredListed(cs, g, false, selectedType, env, i);
    }
  }

  lemma IncludeSound(row: Row, cs: seq<Criterion>, g: Group, selectedType: Option<string>, env: Env)
    requires KeepsSpecials(env.lower) && SomeTrue(GroupPreds(cs, g, false, selectedType, env), row, env)
    ensures IncludeSatisfied(row, cs, g, selectedType, env)
  {
    var preds := GroupPreds(cs, g, false, selectedType, env);
    var k :| 0 <= k < |preds| && Eval(preds[k], row, env) == True;
    var i := PredSource(cs, g, false, selectedType, env, preds[k]);
    PredTruth(row, cs[i], selectedType, env);
  }

  lemma IncludeComplete(row: Row, cs: seq<Criterion>, g: Group, selectedType: Option<string>, env: Env)
    requires KeepsSpecials(env.lower) && AllValid(cs, selectedType, env)
    requires IncludeSatisfied(row, cs, g, selectedType, env)
    ensures SomeTrue(GroupPreds(cs, g, false, selectedType, env), row, env)
  {
    var preds := GroupPreds(cs, g, false, selectedType, env);
    var i: nat :| i < |cs| && InGroup(cs[i], g) && !cs[i].exclude && Satisfies(row, cs[i], selectedType, env);
    PredTruth(row, cs[i], selectedType, env);
    PredListed(cs, g, false, selectedType, env, i);
    var k :| 0 <= k < |preds| && preds[k] == Pred(cs[i], selectedType, env).value;
  }

  lemma IncludePart(row: Row, cs: seq<Criterion>, g: Group, selectedType: Option<string>, env: Env)
    requires KeepsSpecials(env.lower) && AllValid(cs, selectedType, env)
    ensures AllTrue(OrPart(GroupPreds(cs, g, false, selectedType, env)), row, env) <==>
            GroupIncludes(row, cs, g, selectedType, env)
  {
    var preds := GroupPreds(cs, g, false, selectedType, env);
    OrPartTrue(preds, row, env);
    IncludeListed(cs, g, selectedType, env);
    if SomeTrue(preds, row, env) {
      IncludeSound(row, cs, g, selectedType, env);
    } else if IncludeSatisfied(row, cs, g, selectedType, env) {
      IncludeComplete(row, cs, g, selectedType, env);
    }
  }

  lemma ExcludePart(row: Row, cs: seq<Criterion>, g: Group, selectedType: Option<string>, env: Env)
    requires KeepsSpecials(env.lower) && AllValid(cs, selectedType, env) && g != FulltextGroup
    ensures AllTrue(NotOrPart(GroupPreds(cs, g, true, selectedType, env)), row, env) <==>
            GroupRejects(row, cs, g, selectedType, env)
  {
    var preds := GroupPreds(cs, g, true, selectedType, env);
    NotOrPartTrue(preds, row, env);
    if GroupRejects(row, cs, g, selectedType, env) {
      forall k | 0 <= k < |preds|
        ensures Eval(preds[k], row, env) == False
      {
        var i := PredSource(cs, g, true, selectedType, env, preds[k]);
        PredTruth(row, cs[i], selectedType, env);
      }
    }
    if AllTrue(NotOrPart(preds), row, env) {
      forall i: nat | i < |cs| && InGroup(cs[i], g) && cs[i].exclude
        ensures Rejects(row, cs[i], selectedType, env)
      {
        PredTruth(row, cs[i], selectedType, env);
        PredListed(cs, g, true, selectedType, env, i);
        var k :| 0 <= k < |preds| && preds[k] == Pred(cs[i], selectedType, env).value;
      }
    }
  }

  lemma FulltextIncludePart(row: Row, cs: seq<Criterion>, selectedType: Option<string>, env: Env)
    requires KeepsSpecials(env.lower) && AllValid(cs, selectedType, env)
    ensures AllTrue(AndPart(GroupPreds(cs, FulltextGroup, false, selectedType, env)), row, env) <==>
            FulltextIncludes(row, cs, selectedType, env)
  {
    var preds := GroupPreds(cs, FulltextGroup, false, selectedType, env);
    AndPartTrue(preds, row, env);
    if FulltextIncludes(row, cs, selectedType, env) {
      forall k | 0 <= k < |preds|
        ensures Eval(preds[k], row, env) == True
      {
        var i := PredSource(cs, FulltextGroup, false, selectedType, env, preds[k]);
        PredTruth(row, cs[i], selectedType, env);
      }
    }
    if AllTrue(preds, row, env) {
      forall i: nat | i < |cs| && cs[i].FulltextCriterion? && !cs[i].exclude
        ensures Satisfies(row, cs[i], selectedType, env)
      {
        PredTruth(row, cs[i], selectedType, env);
        PredListed(cs, FulltextGroup, false, selectedType, env, i);
        var k :| 0 <= k < |preds| && preds[k] == Pred(cs[i], selectedType, env).value;
      }
    }
  }

  lemma NegationRejects(row: Row, c: Criterion, selectedType: Option<string>, env: Env)
    requires KeepsSpecials(env.lower) && c.FulltextCriterion? && Pred(c, selectedType, env).Ok?
    ensures Eval(Not(Pred(c, selectedType, env).value), row, env) == True <==> Rejects(row, c, selectedType, env)
  {
    PredTruth(row, c, selectedType, env);
  }

  lemma FulltextExcludePart(row: Row, cs: seq<Criterion>, selectedType: Option<string>, env: Env)
    requires KeepsSpecials(env.lower) && AllValid(cs, selectedType, env)
    ensures AllTrue(AndPart(Negations(GroupPreds(cs, FulltextGroup, true, selectedType, env))), row, env) <==>
            GroupRejects(row, cs, FulltextGroup, selectedType, env)
  {
    var preds := GroupPreds(cs, FulltextGroup, true, selectedType, env);
    var nots := Negations(preds);
    AndPartTrue(nots, row, env);
    if GroupRejects(row, cs, FulltextGroup, selectedType, env) {
      forall k | 0 <= k < |nots|
        ensures Eval(nots[k], row, env) == True
      {
        var i := PredSource(cs, FulltextGroup, true, selectedType, env, preds[k]);
        NegationRejects(row, cs[i], selectedType, env);
      }
    }
    if AllTrue(nots, row, env) {
      forall i: nat | i < |cs| && InGroup(cs[i], FulltextGroup) && cs[i].exclude
        ensures Rejects(row, cs[i], selectedType, env)
      {
        NegationRejects(row, cs[i], selectedType, env);
        PredListed(cs, FulltextGroup, true, selectedType, env, i);
        var k :| 0 <= k < |preds| && preds[k] == Pred(cs[i], selectedType, env).value;
        assert nots[k] == Not(preds[k]);
      }
    }
  }

  // ---------------------------------------------------------------- the translation

  /** The metadata predicates by attribute, attributes in order of their first criterion. */
  ghost predicate GroupedByAttr(cs: seq<Criterion>, exclude: bool, attrs: seq<string>, byAttr: map<string, seq<Clause>>,
                                selectedType: Option<string>, env: Env)
  {
    && (forall a :: a in attrs <==> a in byAttr)
    && (forall a :: a in byAttr ==> byAttr[a] == GroupPreds(cs, AttrGroup(a), exclude, selectedType, env))
    && (forall a :: a !in byAttr ==> GroupPreds(cs, AttrGroup(a), exclude, selectedType, env) == [])
  }

  lemma GroupedOn(cs: seq<Criterion>, c: Criterion, exclude: bool, selectedType: Option<string>, env: Env, g: Group)
    requires Pred(c, selectedType, env).Ok?
    ensures GroupPreds(cs + [c], g, exclude, selectedType, env) ==
            GroupPreds(cs, g, exclude, selectedType, env) +
            if InGroup(c, g) && c.exclude == exclude then [Pred(c, selectedType, env).value] else []
  {
    assert (cs + [c])[..|cs|] == cs;
  }

  /** Every criterion of the group and mode has a predicate. */
  ghost predicate ValidIn(cs: seq<Criterion>, g: Group, exclude: bool, selectedType: Option<string>, env: Env) {
    forall i :: 0 <= i < |cs| && InGroup(cs[i], g) && cs[i].exclude == exclude ==> Pred(cs[i], selectedType, env).Ok?
  }

  lemma ValidAppends(cs: seq<Criterion>, c: Criterion, g: Group, exclude: bool, selectedType: Option<string>, env: Env)
    ensures
      ValidIn(cs + [c], g, exclude, selectedType, env) <==>
      && ValidIn(cs, g, exclude, selectedType, env)
      && (InGroup(c, g) && c.exclude == exclude ==> Pred(c, selectedType, env).Ok?)
  {
    var all := cs + [c];
    assert all[|cs|] == c && forall i :: 0 <= i < |cs| ==> all[i] == cs[i];
  }

  lemma ValidPrefix(cs: seq<Criterion>, n: nat, g: Group, exclude: bool, selectedType: Option<string>, env: Env)
    requires n <= |cs|
    ensures ValidIn(cs, g, exclude, selectedType, env) ==> ValidIn(cs[..n], g, exclude, selectedType, env)
  {
    assert forall i :: 0 <= i < n ==> cs[..n][i] == cs[i];
  }

  /** The loops over the OCM and the full-text criteria, one mode at a time. */
  method CollectPreds(cs: seq<Criterion>, g: Group, exclude: bool, selectedType: Option<string>, env: Env)
    returns (r: Result<seq<Clause>, BadRequest>)
    ensures r.Ok? <==> ValidIn(cs, g, exclude, selectedType, env)
    ensures r.Ok? ==> r.value == GroupPreds(cs, g, exclude, selectedType, env)
  {
    var preds := [];
    for i := 0 to |cs|
      invariant ValidIn(cs[..i], g, exclude, selectedType, env)
      invariant preds == GroupPreds(cs[..i], g, exclude, selectedType, env)
    {
      var c := cs[i];
      assert cs[..i + 1] == cs[..i] + [c];
      ValidAppends(cs[..i], c, g, exclude, selectedType, env);
      if InGroup(c, g) && c.exclude == exclude {
        var pred := Pred(c, selectedType, env);
        if pred.Err? {
          ValidPrefix(cs, i + 1, g, exclude, selectedType, env);
          return Err(pred.error);
        }
        GroupedOn(cs[..i], c, exclude, selectedType, env, g);
        preds := preds + [pred.value];
      } else {
        OtherCriterion(cs[..i], c, exclude, selectedType, env, g);
      }
    }
    assert cs[..|cs|] == cs;
    r := Ok(preds);
  }

  lemma OtherCriterion(cs: seq<Criterion>, c: Criterion, exclude: bool, selectedType: Option<string>, env: Env,
                       g: Group)
    requires !(InGroup(c, g) && c.exclude == exclude)
    ensures GroupPreds(cs + [c], g, exclude, selectedType, env) == GroupPreds(cs, g, exclude, selectedType, env)
  {
    assert (cs + [c])[..|cs|] == cs;
  }

  /** Lookup in a `defaultdict(list)`. */
  function GetOrEmpty(m: map<string, seq<Clause>>, key: string): seq<Clause> {
    if key in m then m[key] else []
  }

  lemma GroupedGrows(cs: seq<Criterion>, c: Criterion, exclude: bool, attrs: seq<string>,
                     byAttr: map<string, seq<Clause>>, selectedType: Option<string>, env: Env)
    requires GroupedByAttr(cs, exclude, attrs, byAttr, selectedType, env)
    requires c.MetadataCriterion? && c.exclude == exclude && Pred(c, selectedType, env).Ok?
    ensures GroupedByAttr(cs + [c], exclude, if c.attr in byAttr then attrs else attrs + [c.attr],
                          byAttr[c.attr := GetOrEmpty(byAttr, c.attr) + [Pred(c, selectedType, env).value]],
                          selectedType, env)
  {
    var grown := byAttr[c.attr := GetOrEmpty(byAttr, c.attr) + [Pred(c, selectedType, env).value]];
    forall a
      ensures GroupPreds(cs + [c], AttrGroup(a), exclude, selectedType, env) == GetOrEmpty(grown, a)
    {
      GroupGrowsAt(cs, c, exclude, attrs, byAttr, selectedType, env, a);
    }
  }

  lemma GroupGrowsAt(cs: seq<Criterion>, c: Criterion, exclude: bool, attrs: seq<string>,
                     byAttr: map<string, seq<Clause>>, selectedType: Option<string>, env: Env, a: string)
    requires GroupedByAttr(cs, exclude, attrs, byAttr, selectedType, env)
    requires c.MetadataCriterion? && c.exclude == exclude && Pred(c, selectedType, env).Ok?
    ensures
      var grown := byAttr[c.attr := GetOrEmpty(byAttr, c.attr) + [Pred(c, selectedType, env).value]];
      GroupPreds(cs + [c], AttrGroup(a), exclude, selectedType, env) == GetOrEmpty(grown, a)
  {
    GroupedOn(cs, c, exclude, selectedType, env, AttrGroup(a));
  }

  lemma GroupedStays(cs: seq<Criterion>, c: Criterion, exclude: bool, attrs: seq<string>,
                     byAttr: map<string, seq<Clause>>, selectedType: Option<string>, env: Env)
    requires GroupedByAttr(cs, exclude, attrs, byAttr, selectedType, env)
    requires !(c.MetadataCriterion? && c.exclude == exclude)
    ensures GroupedByAttr(cs + [c], exclude, attrs, byAttr, selectedType, env)
  {
    forall a
      ensures GroupPreds(cs + [c], AttrGroup(a), exclude, selectedType, env) ==
              GroupPreds(cs, AttrGroup(a), exclude, selectedType, env)
    {
      OtherCriterion(cs, c, exclude, selectedType, env, AttrGroup(a));
    }
  }

  ghost predicate ValidMetadata(cs: seq<Criterion>, exclude: bool, selectedType: Option<string>, env: Env) {
    forall i :: 0 <= i < |cs| && cs[i].MetadataCriterion? && cs[i].exclude == exclude ==>
      Pred(cs[i], selectedType, env).Ok?
  }

  lemma ValidMetadataNext(cs: seq<Criterion>, i: nat, exclude: bool, selectedType: Option<string>, env: Env)
    requires i < |cs|
    ensures
      ValidMetadata(cs[..i + 1], exclude, selectedType, env) <==>
      && ValidMetadata(cs[..i], exclude, selectedType, env)
      && (cs[i].MetadataCriterion? && cs[i].exclude == exclude ==> Pred(cs[i], selectedType, env).Ok?)
    ensures ValidMetadata(cs, exclude, selectedType, env) ==> ValidMetadata(cs[..i + 1], exclude, selectedType, env)
  {
    assert forall j :: 0 <= j < i ==> cs[..i + 1][j] == cs[..i][j];
    assert cs[..i + 1][i] == cs[i];
  }

  /** The loop over the metadata criteria, one mode at a time. */
  method GroupMetadata(cs: seq<Criterion>, exclude: bool, selectedType: Option<string>, env: Env)
    returns (ok: bool, attrs: seq<string>, byAttr: map<string, seq<Clause>>)
    ensures ok <==> ValidMetadata(cs, exclude, selectedType, env)
    ensures ok ==> GroupedByAttr(cs, exclude, attrs, byAttr, selectedType, env)
  {
    attrs, byAttr := [], map[];
    for i := 0 to |cs|
      invariant ValidMetadata(cs[..i], exclude, selectedType, env)
      invariant GroupedByAttr(cs[..i], exclude, attrs, byAttr, selectedType, env)
    {
      var c := cs[i];
      assert cs[..i + 1] == cs[..i] + [c];
      ValidMetadataNext(cs, i, exclude, selectedType, env);
      if c.MetadataCriterion? && c.exclude == exclude {
        var pred := Pred(c, selectedType, env);
        if pred.Err? {
          return false, attrs, byAttr;
        }
        GroupedGrows(cs[..i], c, exclude, attrs, byAttr, selectedType, env);
        attrs, byAttr := if c.attr in byAttr then attrs else attrs + [c.attr],
          byAttr[c.attr := GetOrEmpty(byAttr, c.attr) + [pred.value]];
      } else {
        GroupedStays(cs[..i], c, exclude, attrs, byAttr, selectedType, env);
      }
    }
    assert cs[..|cs|] == cs;
    ok := true;
  }

  lemma AllTrueConcat(ps: seq<Clause>, qs: seq<Clause>, row: Row, env: Env)
    ensures AllTrue(ps + qs, row, env) <==> AllTrue(ps, row, env) && AllTrue(qs, row, env)
  {
    assert forall i :: 0 <= i < |ps| ==> (ps + qs)[i] == ps[i];
    assert forall i :: 0 <= i < |qs| ==> (ps + qs)[|ps| + i] == qs[i];
  }

  /** The rows a search returns: wanted, with no exclude left open. */
  ghost predicate Selected(row: Row, cs: seq<Criterion>, selectedType: Option<string>, env: Env) {
    Wanted(row, cs, selectedType, env) && ExcludesDecided(row, cs, selectedType, env)
  }

  lemma SelectedByGroups(row: Row, cs: seq<Criterion>, selectedType: Option<string>, env: Env)
    ensures Selected(row, cs, selectedType, env) <==>
            && (forall g: Group :: g.FulltextGroup? || GroupIncludes(row, cs, g, selectedType, env))
            && FulltextIncludes(row, cs, selectedType, env)
            && (forall g: Group :: GroupRejects(row, cs, g, selectedType, env))
  {
    forall i | 0 <= i < |cs| && cs[i].exclude && (forall g: Group :: GroupRejects(row, cs, g, selectedType, env))
      ensures Rejects(row, cs[i], selectedType, env)
    {
      var g := match cs[i]
        case OcmCriterion(_, _) => OcmGroup
        case MetadataCriterion(attr, _, _) => AttrGroup(attr)
        case FulltextCriterion(_, _, _) => FulltextGroup;
      assert InGroup(cs[i], g) && GroupRejects(row, cs, g, selectedType, env);
    }
  }

  /** All attributes' parts hold, for the attributes listed. */
  ghost predicate AttrPartsTrue(attrs: seq<string>, byAttr: map<string, seq<Clause>>, exclude: bool, row: Row, env: Env)
    requires forall a :: a in attrs ==> a in byAttr
  {
    forall j :: 0 <= j < |attrs| ==>
      AllTrue(if exclude then NotOrPart(byAttr[attrs[j]]) else OrPart(byAttr[attrs[j]]), row, env)
  }

  /** The loops that append the clause of each attribute. */
  method AppendAttrs(ands: seq<Clause>, attrs: seq<string>, byAttr: map<string, seq<Clause>>, exclude: bool,
                     ghost env: Env)
    returns (r: seq<Clause>)
    requires forall a :: a in attrs ==> a in byAttr
    ensures forall row ::
              AllTrue(r, row, env) <==> AllTrue(ands, row, env) && AttrPartsTrue(attrs, byAttr, exclude, row, env)
  {
    r := ands;
    for j := 0 to |attrs|
      invariant forall row :: AllTrue(r, row, env) <==>
                  AllTrue(ands, row, env) && AttrPartsTrue(attrs[..j], byAttr, exclude, row, env)
    {
      var preds := byAttr[attrs[j]];
      var part := if exclude then NotOrPart(preds) else OrPart(preds);
      forall row
        ensures AllTrue(r + part, row, env) <==> AllTrue(r, row, env) && AllTrue(part, row, env)
        ensures AttrPartsTrue(attrs[..j + 1], byAttr, exclude, row, env) <==>
                AttrPartsTrue(attrs[..j], byAttr, exclude, row, env) && AllTrue(part, row, env)
      {
        AllTrueConcat(r, part, row, env);
        assert attrs[..j + 1] == attrs[..j] + [attrs[j]];
      }
      r := r + part;
    }
    assert attrs[..|attrs|] == attrs;
  }

  lemma AttrParts(row: Row, cs: seq<Criterion>, exclude: bool, attrs: seq<string>, byAttr: map<string, seq<Clause>>,
                  selectedType: Option<string>, env: Env)
    requires KeepsSpecials(env.lower) && AllValid(cs, selectedType, env)
    requires GroupedByAttr(cs, exclude, attrs, byAttr, selectedType, env)
    ensures AttrPartsTrue(attrs, byAttr, exclude, row, env) <==>
            forall a :: if exclude then GroupRejects(row, cs, AttrGroup(a), selectedType, env)
                        else GroupIncludes(row, cs, AttrGroup(a), selectedType, env)
  {
    forall a
      ensures (if exclude then GroupRejects(row, cs, AttrGroup(a), selectedType, env)
               else GroupIncludes(row, cs, AttrGroup(a), selectedType, env)) <==>
              (a in byAttr ==> AllTrue(if exclude then NotOrPart(byAttr[a]) else OrPart(byAttr[a]), row, env))
    {
      if exclude {
        ExcludePart(row, cs, AttrGroup(a), selectedType, env);
      } else {
        IncludePart(row, cs, AttrGroup(a), selectedType, env);
      }
    }
    if AttrPartsTrue(attrs, byAttr, exclude, row, env) {
      forall a | a in byAttr
        ensures AllTrue(if exclude then NotOrPart(byAttr[a]) else OrPart(byAttr[a]), row, env)
      {
        assert a in attrs;
        var j :| 0 <= j < |attrs| && attrs[j] == a;
      }
    }
    forall j | 0 <= j < |attrs|
      ensures attrs[j] in byAttr
    {
      assert attrs[j] in attrs;
    }
  }

  /** The clauses of the OCM criteria: includes are alternatives, excludes are ruled out together. */
  method OcmParts(cs: seq<Criterion>, selectedType: Option<string>, env: Env)
    returns (r: Result<seq<Clause>, BadRequest>)
    requires KeepsSpecials(env.lower)
    ensures r.Ok? <==> ValidIn(cs, OcmGroup, false, selectedType, env) && ValidIn(cs, OcmGroup, true, selectedType, env)
    ensures r.Ok? ==> r.value == OrPart(GroupPreds(cs, OcmGroup, false, selectedType, env)) +
                                 NotOrPart(GroupPreds(cs, OcmGroup, true, selectedType, env))
  {
    var inc := CollectPreds(cs, OcmGroup, false, selectedType, env);
    if inc.Err? {
      return Err(BadRequest);
    }
    var exc := CollectPreds(cs, OcmGroup, true, selectedType, env);
    if exc.Err? {
      return Err(BadRequest);
    }
    r := Ok(OrPart(inc.value) + NotOrPart(exc.value));
  }

  /** The clauses of the full-text criteria. */
  method FulltextParts(cs: seq<Criterion>, selectedType: Option<string>, env: Env)
    returns (r: Result<seq<Clause>, BadRequest>)
    ensures r.Ok? <==>
            ValidIn(cs, FulltextGroup, false, selectedType, env) && ValidIn(cs, FulltextGroup, true, selectedType, env)
    ensures r.Ok? ==> r.value == AndPart(GroupPreds(cs, FulltextGroup, false, selectedType, env)) +
                                 AndPart(Negations(GroupPreds(cs, FulltextGroup, true, selectedType, env)))
  {
    var inc := CollectPreds(cs, FulltextGroup, false, selectedType, env);
    if inc.Err? {
      return Err(BadRequest);
    }
    var exc := CollectPreds(cs, FulltextGroup, true, selectedType, env);
    if exc.Err? {
      return Err(BadRequest);
    }
    r := Ok(AndPart(inc.value) + AndPart(Negations(exc.value)));
  }

  lemma OcmPartsTrue(row: Row, cs: seq<Criterion>, selectedType: Option<string>, env: Env)
    requires KeepsSpecials(env.lower) && AllValid(cs, selectedType, env)
    ensures AllTrue(OrPart(GroupPreds(cs, OcmGroup, false, selectedType, env)) +
                    NotOrPart(GroupPreds(cs, OcmGroup, true, selectedType, env)), row, env) <==>
            GroupIncludes(row, cs, OcmGroup, selectedType, env) && GroupRejects(row, cs, OcmGroup, selectedType, env)
  {
    AllTrueConcat(OrPart(GroupPreds(cs, OcmGroup, false, selectedType, env)),
                  NotOrPart(GroupPreds(cs, OcmGroup, true, selectedType, env)), row, env);
    IncludePart(row, cs, OcmGroup, selectedType, env);
    ExcludePart(row, cs, OcmGroup, selectedType, env);
  }

  lemma FulltextPartsTrue(row: Row, cs: seq<Criterion>, selectedType: Option<string>, env: Env)
    requires KeepsSpecials(env.lower) && AllValid(cs, selectedType, env)
    ensures AllTrue(AndPart(GroupPreds(cs, FulltextGroup, false, selectedType, env)) +
                    AndPart(Negations(GroupPreds(cs, FulltextGroup, true, selectedType, env))), row, env) <==>
            FulltextIncludes(row, cs, selectedType, env) && GroupRejects(row, cs, FulltextGroup, selectedType, env)
  {
    AllTrueConcat(AndPart(GroupPreds(cs, FulltextGroup, false, selectedType, env)),
                  AndPart(Negations(GroupPreds(cs, FulltextGroup, true, selectedType, env))), row, env);
    FulltextIncludePart(row, cs, selectedType, env);
    FulltextExcludePart(row, cs, selectedType, env);
  }

  ghost predicate AttrsSelect(row: Row, cs: seq<Criterion>, selectedType: Option<string>, env: Env) {
    && (forall a :: GroupIncludes(row, cs, AttrGroup(a), selectedType, env))
    && (forall a :: GroupRejects(row, cs, AttrGroup(a), selectedType, env))
  }

  /** Appends the clauses of the metadata criteria. */
  method AppendMetadata(ands: seq<Clause>, cs: seq<Criterion>, selectedType: Option<string>, env: Env)
    returns (r: Result<seq<Clause>, BadRequest>)
    requires KeepsSpecials(env.lower)
    ensures r.Ok? <==> ValidMetadata(cs, false, selectedType, env) && ValidMetadata(cs, true, selectedType, env)
    ensures r.Ok? && AllValid(cs, selectedType, env) ==>
              forall row ::
                AllTrue(r.value, row, env) <==> AllTrue(ands, row, env) && AttrsSelect(row, cs, selectedType, env)
  {
    var incOk, incAttrs, incByAttr := GroupMetadata(cs, false, selectedType, env);
    var excOk, excAttrs, excByAttr := GroupMetadata(cs, true, selectedType, env);
    if !incOk || !excOk {
      return Err(BadRequest);
    }
    var parts := AppendAttrs(ands, incAttrs, incByAttr, false, env);
    parts := AppendAttrs(parts, excAttrs, excByAttr, true, env);
    if AllValid(cs, selectedType, env) {
      forall row
        ensures AttrsSelect(row, cs, selectedType, env) <==>
                && AttrPartsTrue(incAttrs, incByAttr, false, row, env)
                && AttrPartsTrue(excAttrs, excByAttr, true, row, env)
      {
        AttrParts(row, cs, false, incAttrs, incByAttr, selectedType, env);
        AttrParts(row, cs, true, excAttrs, excByAttr, selectedType, env);
      }
    }
    r := Ok(parts);
  }

  lemma PartsSelect(row: Row, cs: seq<Criterion>, ocm: seq<Clause>, ands: seq<Clause>, fulltext: seq<Clause>,
                    selectedType: Option<string>, env: Env)
    requires KeepsSpecials(env.lower) && AllValid(cs, selectedType, env)
    requires ocm == OrPart(GroupPreds(cs, OcmGroup, false, selectedType, env)) +
                    NotOrPart(GroupPreds(cs, OcmGroup, true, selectedType, env))
    requires AllTrue(ands, row, env) <==> AllTrue(ocm, row, env) && AttrsSelect(row, cs, selectedType, env)
    requires fulltext == AndPart(GroupPreds(cs, FulltextGroup, false, selectedType, env)) +
                         AndPart(Negations(GroupPreds(cs, FulltextGroup, true, selectedType, env)))
    ensures AllTrue(ands + fulltext, row, env) <==> Selected(row, cs, selectedType, env)
  {
    AllTrueConcat(ands, fulltext, row, env);
    OcmPartsTrue(row, cs, selectedType, env);
    FulltextPartsTrue(row, cs, selectedType, env);
    SelectedByParts(row, cs, selectedType, env);
  }

  function AndOrAlways(ands: seq<Clause>): Clause {
    if ands == [] then Always else And(ands)
  }

  lemma AndOrAlwaysTrue(ands: seq<Clause>, row: Row, env: Env)
    ensures Eval(AndOrAlways(ands), row, env) == True <==> AllTrue(ands, row, env)
  {
  }

  /** `_translate_criteria`: the clause is true of exactly the selected rows. */
  method Translate(cs: seq<Criterion>, selectedType: Option<string>, env: Env) returns (r: Result<Clause, BadRequest>)
    requires KeepsSpecials(env.lower)
    ensures r.Ok? <==> AllValid(cs, selectedType, env)
    ensures r.Ok? ==> forall row :: Eval(r.value, row, env) == True <==> Selected(row, cs, selectedType, env)
  {
    if cs == [] {
      return Ok(Always);
    }
    var ocm := OcmParts(cs, selectedType, env);
    if ocm.Err? {
      return Err(BadRequest);
    }
    var ands := AppendMetadata(ocm.value, cs, selectedType, env);
    if ands.Err? {
      return Err(BadRequest);
    }
    var fulltext := FulltextParts(cs, selectedType, env);
    if fulltext.Err? {
      return Err(BadRequest);
    }
    r := Ok(AndOrAlways(ands.value + fulltext.value));
    forall row
      ensures Eval(r.value, row, env) == True <==> Selected(row, cs, selectedType, env)
    {
      PartsSelect(row, cs, ocm.value, ands.value, fulltext.value, selectedType, env);
      AndOrAlwaysTrue(ands.value + fulltext.value, row, env);
    }
  }

  lemma SelectedByParts(row: Row, cs: seq<Criterion>, selectedType: Option<string>, env: Env)
    ensures Selected(row, cs, selectedType, env) <==>
            && GroupIncludes(row, cs, OcmGroup, selectedType, env) && GroupRejects(row, cs, OcmGroup, selectedType, env)
            && (forall a :: GroupIncludes(row, cs, AttrGroup(a), selectedType, env))
            && (forall a :: GroupRejects(row, cs, AttrGroup(a), selectedType, env))
            && FulltextIncludes(row, cs, selectedType, env) && GroupRejects(row, cs, FulltextGroup, selectedType, env)
  {
    SelectedByGroups(row, cs, selectedType, env);
    forall g: Group
      ensures g.OcmGroup? || g.FulltextGroup? || g == AttrGroup(g.attr)
    {
    }
  }

  // ---------------------------------------------------------------- order, and the split of the request handler

  /** Both lists have the same criteria of a group. */
  ghost predicate SameInGroup(cs: seq<Criterion>, ds: seq<Criterion>, g: Group) {
    forall c :: InGroup(c, g) ==> (c in cs <==> c in ds)
  }

  lemma SameIncludes(row: Row, cs: seq<Criterion>, ds: seq<Criterion>, g: Group, selectedType: Option<string>, env: Env)
    requires SameInGroup(cs, ds, g) && GroupIncludes(row, cs, g, selectedType, env)
    ensures GroupIncludes(row, ds, g, selectedType, env)
  {
    if HasInclude(ds, g) {
      var j :| 0 <= j < |ds| && InGroup(ds[j], g) && !ds[j].exclude;
      assert ds[j] in cs;
      var k :| 0 <= k < |cs| && cs[k] == ds[j];
      assert HasInclude(cs, g);
      var i :| 0 <= i < |cs| && InGroup(cs[i], g) && !cs[i].exclude && Satisfies(row, cs[i], selectedType, env);
      assert cs[i] in ds;
      var l :| 0 <= l < |ds| && ds[l] == cs[i];
    }
  }

  lemma SameRejects(row: Row, cs: seq<Criterion>, ds: seq<Criterion>, g: Group, selectedType: Option<string>, env: Env)
    requires SameInGroup(cs, ds, g) && GroupRejects(row, cs, g, selectedType, env)
    ensures GroupRejects(row, ds, g, selectedType, env)
  {
    forall j | 0 <= j < |ds| && InGroup(ds[j], g) && ds[j].exclude
      ensures Rejects(row, ds[j], selectedType, env)
    {
      assert ds[j] in cs;
      var i :| 0 <= i < |cs| && cs[i] == ds[j];
    }
  }

  lemma SameFulltext(row: Row, cs: seq<Criterion>, ds: seq<Criterion>, selectedType: Option<string>, env: Env)
    requires SameInGroup(cs, ds, FulltextGroup) && FulltextIncludes(row, cs, selectedType, env)
    ensures FulltextIncludes(row, ds, selectedType, env)
  {
    forall j | 0 <= j < |ds| && ds[j].FulltextCriterion? && !ds[j].exclude
      ensures Satisfies(row, ds[j], selectedType, env)
    {
      assert InGroup(ds[j], FulltextGroup);
      assert ds[j] in cs;
      var i :| 0 <= i < |cs| && cs[i] == ds[j];
    }
  }

  lemma OneWay(row: Row, cs: seq<Criterion>, ds: seq<Criterion>, selectedType: Option<string>, env: Env)
    requires forall g: Group :: SameInGroup(cs, ds, g)
    requires Selected(row, cs, selectedType, env)
    ensures Selected(row, ds, selectedType, env)
  {
    SelectedByParts(row, cs, selectedType, env);
    SameRejects(row, cs, ds, OcmGroup, selectedType, env);
    forall a
      ensures GroupIncludes(row, ds, AttrGroup(a), selectedType, env)
      ensures GroupRejects(row, ds, AttrGroup(a), selectedType, env)
    {
      SameRejects(row, cs, ds, AttrGroup(a), selectedType, env);
    }
    SameFulltext(row, cs, ds, selectedType, env);
    SameRejects(row, cs, ds, FulltextGroup, selectedType, env);
    SelectedByParts(row, ds, selectedType, env);
  }

  /** The rows a search selects do not depend on the order of its criteria, nor on repetitions. */
  lemma OrderDoesNotMatter(row: Row, cs: seq<Criterion>, ds: seq<Criterion>, selectedType: Option<string>, env: Env)
    requires forall c :: c in cs <==> c in ds
    ensures Selected(row, cs, selectedType, env) <==> Selected(row, ds, selectedType, env)
    ensures AllValid(cs, selectedType, env) <==> AllValid(ds, selectedType, env)
  {
    if Selected(row, cs, selectedType, env) {
      OneWay(row, cs, ds, selectedType, env);
    }
    if Selected(row, ds, selectedType, env) {
      OneWay(row, ds, cs, selectedType, env);
    }
    assert AllValid(cs, selectedType, env) <==> forall c :: c in cs ==> Pred(c, selectedType, env).Ok?;
    assert AllValid(ds, selectedType, env) <==> forall c :: c in ds ==> Pred(c, selectedType, env).Ok?;
  }

  /** The metadata criterion includes rows of the finding type. */
  predicate IncludesType(c: Criterion, t: string) {
    && c.MetadataCriterion? && !c.exclude && c.attr == "type"
    && ((c.op.Eq? && c.op.value == Some(t)) || (c.op.In? && t in c.op.values))
  }

  ghost predicate TypeIncluded(cs: seq<Criterion>, t: string) {
    exists c :: c in cs && IncludesType(c, t)
  }

  ghost predicate OnlyTypeIncluded(cs: seq<Criterion>, t: string) {
    TypeIncluded(cs, t) && forall u :: TypeIncluded(cs, u) ==> u == t
  }

  /** The finding type that severities are read by, if the includes name exactly one. */
  ghost function IncludedType(cs: seq<Criterion>): (r: Option<string>)
    ensures forall t :: r == Some(t) <==> OnlyTypeIncluded(cs, t)
  {
    if exists t :: OnlyTypeIncluded(cs, t) then
      var t :| OnlyTypeIncluded(cs, t);
      Some(t)
    else None
  }

  /** `_single_included_finding_type`: the one finding type included by name, if there is just one. */
  method SingleIncludedType(cs: seq<Criterion>) returns (r: Option<string>)
    ensures r == IncludedType(cs)
  {
    var types: set<string> := {};
    for i := 0 to |cs|
      invariant forall t :: t in types <==> TypeIncluded(cs[..i], t)
    {
      var c := cs[i];
      assert cs[..i + 1] == cs[..i] + [c];
      var named: set<string> :=
        if !(c.MetadataCriterion? && !c.exclude && c.attr == "type") then {}
        else if c.op.Eq? && c.op.value.Some? then {c.op.value.value}
        else if c.op.In? then set v | v in c.op.values
        else {};
      assert forall t :: t in named <==> IncludesType(c, t);
      types := types + named;
    }
    assert cs[..|cs|] == cs;
    forall t
      ensures types == {t} <==> OnlyTypeIncluded(cs, t)
    {
      if types == {t} {
        forall u | TypeIncluded(cs, u)
          ensures u == t
        {
          assert u in types;
        }
      }
    }
    if |types| == 1 {
      var t :| t in types;
      assert |types - {t}| == 0;
      assert types == {t};
      r := Some(t);
    } else {
      r := None;
    }
  }

  function WithoutOcm(cs: seq<Criterion>): seq<Criterion> {
    if cs == [] then [] else (if cs[0].OcmCriterion? then [] else [cs[0]]) + WithoutOcm(cs[1..])
  }

  lemma {:induction false} WithoutOcmMembers(cs: seq<Criterion>)
    ensures forall c :: c in WithoutOcm(cs) <==> c in cs && !c.OcmCriterion?
  {
    if cs != [] {
      WithoutOcmMembers(cs[1..]);
    }
  }

  lemma SplitSelects(row: Row, cs: seq<Criterion>, selectedType: Option<string>, env: Env)
    ensures Selected(row, cs, selectedType, env) <==>
            && GroupIncludes(row, cs, OcmGroup, selectedType, env) && GroupRejects(row, cs, OcmGroup, selectedType, env)
            && Selected(row, WithoutOcm(cs), selectedType, env)
  {
    var ds := WithoutOcm(cs);
    WithoutOcmMembers(cs);
    SelectedByParts(row, cs, selectedType, env);
    SelectedByParts(row, ds, selectedType, env);
    forall i | 0 <= i < |ds|
      ensures !InGroup(ds[i], OcmGroup)
    {
      assert ds[i] in ds;
    }
    forall g: Group | g != OcmGroup
      ensures GroupIncludes(row, cs, g, selectedType, env) <==> GroupIncludes(row, ds, g, selectedType, env)
      ensures GroupRejects(row, cs, g, selectedType, env) <==> GroupRejects(row, ds, g, selectedType, env)
    {
      SameGroupBothWays(row, cs, ds, g, selectedType, env);
    }
    if FulltextIncludes(row, cs, selectedType, env) {
      SameFulltext(row, cs, ds, selectedType, env);
    }
    if FulltextIncludes(row, ds, selectedType, env) {
      SameFulltext(row, ds, cs, selectedType, env);
    }
  }

  lemma SameGroupBothWays(row: Row, cs: seq<Criterion>, ds: seq<Criterion>, g: Group, selectedType: Option<string>,
                          env: Env)
    requires SameInGroup(cs, ds, g)
    ensures GroupIncludes(row, cs, g, selectedType, env) <==> GroupIncludes(row, ds, g, selectedType, env)
    ensures GroupRejects(row, cs, g, selectedType, env) <==> GroupRejects(row, ds, g, selectedType, env)
  {
    if GroupIncludes(row, cs, g, selectedType, env) {
      SameIncludes(row, cs, ds, g, selectedType, env);
    }
    if GroupIncludes(row, ds, g, selectedType, env) {
      SameIncludes(row, ds, cs, g, selectedType, env);
    }
    if GroupRejects(row, cs, g, selectedType, env) {
      SameRejects(row, cs, ds, g, selectedType, env);
    }
    if GroupRejects(row, ds, g, selectedType, env) {
      SameRejects(row, ds, cs, g, selectedType, env);
    }
  }

  /** The request handler: OCM criteria get a clause of their own, the rest is translated. With no scope to
      resolve this selects what translating the whole list would. */
  method SearchClause(cs: seq<Criterion>, env: Env) returns (r: Result<Clause, BadRequest>)
    requires KeepsSpecials(env.lower)
    ensures r.Ok? <==> AllValid(cs, IncludedType(WithoutOcm(cs)), env)
    ensures r.Ok? ==> forall row ::
      Eval(r.value, row, env) == True <==> Selected(row, cs, IncludedType(WithoutOcm(cs)), env)
  {
    var others := WithoutOcm(cs);
    WithoutOcmMembers(cs);
    var single := SingleIncludedType(others);
    var ocm := OcmParts(cs, single, env);
    var other := Translate(others, single, env);
    SplitValid(cs, single, env);
    if ocm.Err? || other.Err? {
      return Err(BadRequest);
    }
    var ocmWhere := AndOrAlways(ocm.value);
    r := Ok(And([ocmWhere, other.value]));
    forall row
      ensures Eval(r.value, row, env) == True <==> Selected(row, cs, single, env)
    {
      EvalBoth(ocmWhere, other.value, row, env);
      AndOrAlwaysTrue(ocm.value, row, env);
      OcmPartsTrue(row, cs, single, env);
      SplitSelects(row, cs, single, env);
    }
  }

  lemma SplitValid(cs: seq<Criterion>, selectedType: Option<string>, env: Env)
    ensures AllValid(cs, selectedType, env) <==>
            && ValidIn(cs, OcmGroup, false, selectedType, env) && ValidIn(cs, OcmGroup, true, selectedType, env)
            && AllValid(WithoutOcm(cs), selectedType, env)
  {
    var ds := WithoutOcm(cs);
    WithoutOcmMembers(cs);
    if AllValid(cs, selectedType, env) {
      forall j | 0 <= j < |ds|
        ensures Pred(ds[j], selectedType, env).Ok?
      {
        assert ds[j] in ds;
        var i :| 0 <= i < |cs| && cs[i] == ds[j];
      }
    }
    if AllValid(ds, selectedType, env) {
      forall i | 0 <= i < |cs| && !cs[i].OcmCriterion?
        ensures Pred(cs[i], selectedType, env).Ok?
      {
        assert cs[i] in ds;
        var j :| 0 <= j < |ds| && ds[j] == cs[i];
      }
    }
  }

  // ---------------------------------------------------------------- searching a component

  /** The column is there and has the value. */
  predicate Has(row: Row, column: string, value: string) {
    column in row && row[column] == value
  }

  /** The column is there and has another value. */
  predicate HasOther(row: Row, column: string, value: string) {
    column in row && row[column] != value
  }

  lemma SingleSelects(row: Row, c: Criterion, selectedType: Option<string>, env: Env)
    requires c.OcmCriterion?
    ensures
      Selected(row, [c], selectedType, env) <==>
      if c.exclude then !Satisfies(row, c, selectedType, env) && !Undecided(row, c, selectedType, env)
      else Satisfies(row, c, selectedType, env)
  {
    SelectedByParts(row, [c], selectedType, env);
    assert [c][0] == c;
    forall g: Group
      ensures GroupIncludes(row, [c], g, selectedType, env) <==>
              (InGroup(c, g) && !c.exclude ==> Satisfies(row, c, selectedType, env))
      ensures GroupRejects(row, [c], g, selectedType, env) <==>
              (InGroup(c, g) && c.exclude ==> Rejects(row, c, selectedType, env))
    {
    }
  }

  lemma SingleValid(c: Criterion, selectedType: Option<string>, env: Env)
    ensures AllValid([c], selectedType, env) <==> Pred(c, selectedType, env).Ok?
  {
    assert [c][0] == c;
  }

  /** One component, with a version or without, searched for or ruled out: both ways to build the clause are true
      of exactly the rows that have the values, or that have a different one. */
  method SearchComponent(name: string, version: Option<string>, exclude: bool, selectedType: Option<string>, env: Env)
    returns (translated: Result<Clause, BadRequest>, searched: Result<Clause, BadRequest>)
    requires KeepsSpecials(env.lower) && Trimmed(name) && ':' !in name
    requires version.Some? ==> version.value != "" && Trimmed(version.value)
    ensures (translated.Ok? <==> name != "") && (searched.Ok? <==> name != "")
    ensures forall clause, row :: translated == Ok(clause) || searched == Ok(clause) ==>
      (Eval(clause, row, env) == True <==>
       if exclude then
         || HasOther(row, "component_name", name)
         || (version.Some? && HasOther(row, "component_version", version.value))
       else
         && Has(row, "component_name", name)
         && (version.Some? ==> Has(row, "component_version", version.value)))
  {
    var value := if version.Some? then name + ":" + version.value else name;
    var c := OcmCriterion(value, exclude);
    ComponentSplits(name, version);
    translated := Translate([c], selectedType, env);
    searched := SearchClause([c], env);
    SingleValid(c, selectedType, env);
    SingleValid(c, IncludedType(WithoutOcm([c])), env);
    forall row: Row, t: Option<string>
      ensures Selected(row, [c], t, env) <==>
        if exclude then
          || HasOther(row, "component_name", name)
          || (version.Some? && HasOther(row, "component_version", version.value))
        else
          && Has(row, "component_name", name)
          && (version.Some? ==> Has(row, "component_version", version.value))
    {
      SingleSelects(row, c, t, env);
      ComponentColumns(row);
    }
  }

  lemma ComponentSplits(name: string, version: Option<string>)
    requires Trimmed(name) && ':' !in name && (version.Some? ==> version.value != "" && Trimmed(version.value))
    ensures SplitOcm(if version.Some? then name + ":" + version.value else name) == (name, version)
  {
    StripTrimmed(name);
    if version.Some? {
      StripTrimmed(version.value);
      SplitOcmAtColon(name, version.value);
    } else {
      SplitOcmBare(name);
    }
  }

  lemma StripTrimmed(s: string)
    requires Trimmed(s)
    ensures Strip(s) == s
  {
    StripIs("", s, "");
    assert "" + s + "" == s;
  }

  // ---------------------------------------------------------------- missing values

  /** The attributes a criterion looks at. */
  function AttrsOf(c: Criterion): set<string> {
    match c
    case OcmCriterion(_, _) => {"component_name", "component_version"}
    case MetadataCriterion(attr, _, _) => {attr}
    case FulltextCriterion(_, fields, _) => set f | f in FieldsOf(fields)
  }

  /** If the row has every value its excludes look at, it is selected exactly if it is wanted. */
  lemma NoMissingValuesNoDifference(row: Row, cs: seq<Criterion>, selectedType: Option<string>, env: Env)
    requires forall i, a :: 0 <= i < |cs| && cs[i].exclude && a in AttrsOf(cs[i]) ==>
               AttrOf(row, a).Some? || (cs[i].MetadataCriterion? && IsSeverity(cs[i].attr, cs[i].op))
    ensures Selected(row, cs, selectedType, env) <==> Wanted(row, cs, selectedType, env)
  {
    forall i | 0 <= i < |cs| && cs[i].exclude
      ensures !Undecided(row, cs[i], selectedType, env)
    {
      var c := cs[i];
      assert AttrsOf(c) == AttrsOf(cs[i]);
      match c
      case OcmCriterion(_, _) =>
        assert "component_name" in AttrsOf(c) && "component_version" in AttrsOf(c);
      case MetadataCriterion(attr, _, _) =>
        assert attr in AttrsOf(c);
      case FulltextCriterion(_, fields, _) =>
        forall k | 0 <= k < |FieldsOf(fields)|
          ensures AttrOf(row, FieldsOf(fields)[k]).Some?
        {
          assert FieldsOf(fields)[k] in AttrsOf(c);
        }
    }
  }

  /** Without the value, an exclude drops the row although nothing it excludes is there. */
  lemma ExcludeDropsRowWithoutValue(cve: string, selectedType: Option<string>, env: Env)
    ensures
      var c := MetadataCriterion("data.cve", Eq(Some(cve)), true);
      && AllValid([c], selectedType, env)
      && Wanted(map[], [c], selectedType, env)
      && !Selected(map[], [c], selectedType, env)
  {
    var c := MetadataCriterion("data.cve", Eq(Some(cve)), true);
    assert "data." <= "data.cve";
    assert ColumnOf("data.cve") == Some("data.cve");
    assert [c][0] == c;
    assert Undecided(map[], c, selectedType, env);
    assert !Satisfies(map[], c, selectedType, env);
  }
}
