/**
 Fitting log messages and log lists into a byte budget, measured on their JSON form. The form is that of `json.dumps`
 with ASCII output, written out character by character, so that sizes are lengths of texts and not estimates; texts
 are sequences of code points, lone surrogates included, because log messages may hold them. (src/k8s/logging.py)
 */
module LogTruncation {
  import opened Common

  /** Unicode code points, lone surrogates included. */
  type CodePoint = c: int | 0 <= c <= 0x10FFFF witness 0

  type Text = seq<CodePoint>

  // ---------------------------------------------------------------- JSON strings

  function HexDigit(n: int): char
    requires 0 <= n < 0x10
  {
    if n < 10 then '0' + n as char else 'a' + (n - 10) as char
  }

  function Unit(n: int): (s: string)
    requires 0 <= n <= 0xFFFF
    ensures |s| == 6
  {
    ['\\', 'u', HexDigit(n / 0x1000), HexDigit(n / 0x100 % 0x10), HexDigit(n / 0x10 % 0x10), HexDigit(n % 0x10)]
  }

  /** `json.dumps` with ASCII output: short escapes, printable ASCII as is, everything else as UTF-16 units. */
  function Escape(c: CodePoint): (s: string)
    ensures 1 <= |s|
  {
    if c == 0x22 then "\\\""
    else if c == 0x5C then "\\\\"
    else if c == 0x0A then "\\n"
    else if c == 0x0D then "\\r"
    else if c == 0x09 then "\\t"
    else if c == 0x08 then "\\b"
    else if c == 0x0C then "\\f"
    else if 0x20 <= c <= 0x7E then [c as char]
    else if c <= 0xFFFF then Unit(c)
    else Unit(0xD800 + (c - 0x10000) / 0x400) + Unit(0xDC00 + (c - 0x10000) % 0x400)
  }

  /** The texts of all characters, one after the other. */
  function Spelled(text: Text, spell: CodePoint -> string): string {
    if text == [] then "" else spell(text[0]) + Spelled(text[1..], spell)
  }

  function Escaped(text: Text): string {
    Spelled(text, Escape)
  }

  function JsonText(text: Text): string {
    "\"" + Escaped(text) + "\""
  }

  function JsonSize(text: Text): nat {
    |JsonText(text)|
  }

  lemma {:induction false} SpelledConcat(a: Text, b: Text, spell: CodePoint -> string)
    ensures Spelled(a + b, spell) == Spelled(a, spell) + Spelled(b, spell)
  {
    if a == [] {
      assert a + b == b;
    } else {
      SpelledConcat(a[1..], b, spell);
      assert (a + b)[0] == a[0] && (a + b)[1..] == a[1..] + b;
      Associative(spell(a[0]), Spelled(a[1..], spell), Spelled(b, spell));
    }
  }

  /** A tail one character longer costs what that character costs. */
  lemma LongerTail(marker: Text, text: Text, start: nat)
    requires 0 < start <= |text|
    ensures JsonSize(marker + text[start - 1..]) == JsonSize(marker + text[start..]) + |Escape(text[start - 1])|
    ensures |Escape(text[start - 1])| == JsonSize([text[start - 1]]) - 2
  {
    var c := text[start - 1];
    SpelledConcat(marker, text[start - 1..], Escape);
    SpelledConcat(marker, text[start..], Escape);
    assert text[start - 1..] == [c] + text[start..];
    SpelledConcat([c], text[start..], Escape);
    assert [c][1..] == [];
    assert Spelled([c], Escape) == Escape(c) + "";
  }

  lemma {:induction false} TailsGrow(marker: Text, text: Text, k: nat, start: nat)
    requires k <= start <= |text|
    ensures JsonSize(marker + text[k..]) >= JsonSize(marker + text[start..]) + (start - k)
    decreases start - k
  {
    if k < start {
      LongerTail(marker, text, start);
      TailsGrow(marker, text, k, start - 1);
    }
  }

  /** A text that is too long becomes the marker and its longest tail that fits; the result fits if and only if the
      text or the marker does. */
  method TruncateHeadToFit(text: Text, maxBytes: int, marker: Text) returns (r: Text, ghost start: nat)
    ensures start <= |text|
    ensures r == if JsonSize(text) <= maxBytes then text else marker + text[start..]
    ensures JsonSize(r) <= maxBytes <==> JsonSize(text) <= maxBytes || JsonSize(marker) <= maxBytes
    ensures
      JsonSize(text) > maxBytes ==> forall k :: 0 <= k < start ==> JsonSize(marker + text[k..]) > maxBytes
  {
    start := 0;
    if JsonSize(text) <= maxBytes {
      return text, 0;
    }
    var budget := maxBytes - JsonSize(marker);
    var first := |text|;
    assert marker + text[first..] == marker;
    while first > 0 && JsonSize([text[first - 1]]) - 2 <= budget
      invariant 0 <= first <= |text|
      invariant budget == maxBytes - JsonSize(marker + text[first..])
      invariant if JsonSize(marker) <= maxBytes then budget >= 0 else budget < 0 && first == |text|
      decreases first
    {
      LongerTail(marker, text, first);
      budget := budget - (JsonSize([text[first - 1]]) - 2);
      first := first - 1;
    }
    start := first;
    r := marker + text[first..];
    forall k | 0 <= k < first
      ensures JsonSize(marker + text[k..]) > maxBytes
    {
      LongerTail(marker, text, first);
      TailsGrow(marker, text, k, first - 1);
    }
  }

  // ---------------------------------------------------------------- reading JSON strings

  function HexValue(c: char): Option<int> {
    if '0' <= c <= '9' then Some(c as int - '0' as int)
    else if 'a' <= c <= 'f' then Some(10 + c as int - 'a' as int)
    else if 'A' <= c <= 'F' then Some(10 + c as int - 'A' as int)
    else None
  }

  /** The UTF-16 unit of a `\uXXXX` in front. */
  function ReadUnit(s: string): (r: Option<int>)
    ensures r.Some? ==> |s| >= 6
  {
    if |s| < 6 || s[0] != '\\' || s[1] != 'u' then None
    else
      var a, b, c, d := HexValue(s[2]), HexValue(s[3]), HexValue(s[4]), HexValue(s[5]);
      if a.None? || b.None? || c.None? || d.None? then None
      else Some(((a.value * 0x10 + b.value) * 0x10 + c.value) * 0x10 + d.value)
  }

  predicate IsHigh(unit: int) {
    0xD800 <= unit <= 0xDBFF
  }

  predicate IsLow(unit: int) {
    0xDC00 <= unit <= 0xDFFF
  }

  /** What a letter after a backslash stands for. */
  function ShortValue(c: char): Option<int> {
    match c
    case '"' => Some(0x22)
    case '\\' => Some(0x5C)
    case '/' => Some(0x2F)
    case 'b' => Some(0x08)
    case 'f' => Some(0x0C)
    case 'n' => Some(0x0A)
    case 'r' => Some(0x0D)
    case 't' => Some(0x09)
    case _ => None
  }

  /** One character of a JSON string by section 7 of RFC 8259, and what follows; a pair of surrogates is one. */
  function ReadCharacter(s: string): (r: Option<(int, string)>)
    ensures r.Some? ==> |r.value.1| < |s|
  {
    if s == [] || s[0] == '"' || s[0] < ' ' then None
    else if s[0] != '\\' then Some((s[0] as int, s[1..]))
    else if ReadUnit(s).Some? then
      var unit, low := ReadUnit(s).value, ReadUnit(s[6..]);
      if IsHigh(unit) && low.Some? && IsLow(low.value)
      then Some((0x10000 + (unit - 0xD800) * 0x400 + (low.value - 0xDC00), s[12..]))
      else Some((unit, s[6..]))
    else if |s| >= 2 && ShortValue(s[1]).Some? then Some((ShortValue(s[1]).value, s[2..]))
    else None
  }

  /** The characters up to the closing quote, which has to be the end. */
  function ReadCharacters(s: string): Option<seq<int>>
    decreases |s|
  {
    if s == "\"" then Some([])
    else
      match ReadCharacter(s)
      case None => None
      case Some((c, rest)) => match ReadCharacters(rest) case None => None case Some(cs) => Some([c] + cs)
  }

  lemma UnitReadsBack(n: int, rest: string)
    requires 0 <= n <= 0xFFFF
    ensures ReadUnit(Unit(n) + rest) == Some(n) && (Unit(n) + rest)[6..] == rest
  {
    HexReadsBack(n / 0x1000);
    HexReadsBack(n / 0x100 % 0x10);
    HexReadsBack(n / 0x10 % 0x10);
    HexReadsBack(n % 0x10);
    UnitValue(n);
    var s := Unit(n) + rest;
    assert forall i :: 0 <= i < 6 ==> s[i] == Unit(n)[i];
  }

  lemma UnitValue(n: int)
    requires 0 <= n <= 0xFFFF
    ensures ((n / 0x1000 * 0x10 + n / 0x100 % 0x10) * 0x10 + n / 0x10 % 0x10) * 0x10 + n % 0x10 == n
  {
  }

  lemma UnitIsAscii(n: int)
    requires 0 <= n <= 0xFFFF
    ensures forall c :: c in Unit(n) ==> ' ' <= c <= '~'
  {
  }

  lemma HexReadsBack(n: int)
    requires 0 <= n < 0x10
    ensures HexValue(HexDigit(n)) == Some(n) && ' ' <= HexDigit(n) <= '~' && !('A' <= HexDigit(n) <= 'F')
  {
  }

  lemma ShortReadsBack(x: char, rest: string)
    requires x != 'u' && ShortValue(x).Some?
    ensures ReadCharacter(['\\', x] + rest) == Some((ShortValue(x).value, rest))
    ensures ReadUnit(['\\', x] + rest).None?
  {
    var s := ['\\', x] + rest;
    assert s[0] == '\\' && s[1] == x && s[2..] == rest;
  }

  lemma PlainReadsBack(x: char, rest: string)
    requires ' ' <= x <= '~' && x != '"' && x != '\\'
    ensures ReadCharacter([x] + rest) == Some((x as int, rest)) && ReadUnit([x] + rest).None?
  {
    var s := [x] + rest;
    assert s[0] == x && s[1..] == rest;
  }

  lemma CodeReadsBack(n: int, rest: string)
    requires 0 <= n <= 0xFFFF && (IsHigh(n) ==> ReadUnit(rest).None? || !IsLow(ReadUnit(rest).value))
    ensures ReadCharacter(Unit(n) + rest) == Some((n, rest))
  {
    UnitReadsBack(n, rest);
    assert (Unit(n) + rest)[0] == '\\';
  }

  lemma PairReadsBack(c: int, rest: string)
    requires 0x10000 <= c <= 0x10FFFF
    ensures
      var high, low := 0xD800 + (c - 0x10000) / 0x400, 0xDC00 + (c - 0x10000) % 0x400;
      ReadCharacter(Unit(high) + (Unit(low) + rest)) == Some((c, rest))
  {
    var high, low := 0xD800 + (c - 0x10000) / 0x400, 0xDC00 + (c - 0x10000) % 0x400;
    UnitReadsBack(high, Unit(low) + rest);
    UnitReadsBack(low, rest);
    var s := Unit(high) + (Unit(low) + rest);
    assert s[0] == '\\' && s[12..] == s[6..][6..];
  }

  predicate HasShortEscape(c: CodePoint) {
    c in {0x22, 0x5C, 0x08, 0x09, 0x0A, 0x0C, 0x0D}
  }

  lemma ShortEscape(c: CodePoint) returns (x: char)
    requires HasShortEscape(c)
    ensures Escape(c) == ['\\', x] && x != 'u' && ShortValue(x) == Some(c)
  {
    x := Escape(c)[1];
  }

  /** What is escaped is read back, unless a high surrogate happens to meet a low one. */
  lemma EscapeReadsBack(c: CodePoint, rest: string)
    requires IsHigh(c) ==> ReadUnit(rest).None? || !IsLow(ReadUnit(rest).value)
    ensures ReadCharacter(Escape(c) + rest) == Some((c as int, rest))
  {
    if HasShortEscape(c) {
      var x := ShortEscape(c);
      ShortReadsBack(x, rest);
    } else if 0x20 <= c <= 0x7E {
      PlainReadsBack(c as char, rest);
    } else if c <= 0xFFFF {
      CodeReadsBack(c, rest);
    } else {
      PairReadsBack(c, rest);
      Associative(Unit(0xD800 + (c - 0x10000) / 0x400), Unit(0xDC00 + (c - 0x10000) % 0x400), rest);
    }
  }

  /** Two bytes for the characters with a short escape, one for other printable ASCII, six for what is left of the basic
      plane and twelve beyond; every byte is printable ASCII, so that characters are bytes. */
  lemma EscapeSize(c: CodePoint)
    ensures
      |Escape(c)| ==
      if HasShortEscape(c) then 2
      else if 0x20 <= c <= 0x7E then 1 else if c <= 0xFFFF then 6 else 12
    ensures forall x :: x in Escape(c) ==> ' ' <= x <= '~'
  {
    if c > 0xFFFF {
      UnitIsAscii(0xD800 + (c - 0x10000) / 0x400);
      UnitIsAscii(0xDC00 + (c - 0x10000) % 0x400);
    } else {
      UnitIsAscii(c);
    }
  }

  /** No high surrogate is followed by a low one: two code points that together read as one. */
  predicate NoSurrogatePairs(text: Text) {
    forall i :: 0 <= i < |text| - 1 ==> !(IsHigh(text[i]) && IsLow(text[i + 1]))
  }

  lemma EscapedHead(text: Text)
    ensures ReadUnit(Escaped(text) + "\"").Some? && IsLow(ReadUnit(Escaped(text) + "\"").value) ==>
      text != [] && IsLow(text[0])
  {
    if text != [] {
      var c, rest := text[0], Escaped(text[1..]) + "\"";
      assert Escaped(text) + "\"" == Escape(c) + rest;
      EscapeIsLow(c, rest);
    }
  }

  lemma EscapeIsLow(c: CodePoint, rest: string)
    ensures ReadUnit(Escape(c) + rest).Some? && IsLow(ReadUnit(Escape(c) + rest).value) ==> IsLow(c)
  {
    if HasShortEscape(c) {
      var x := ShortEscape(c);
      ShortReadsBack(x, rest);
    } else if 0x20 <= c <= 0x7E {
      PlainReadsBack(c as char, rest);
    } else if c <= 0xFFFF {
      UnitReadsBack(c, rest);
    } else {
      var high, low := 0xD800 + (c - 0x10000) / 0x400, 0xDC00 + (c - 0x10000) % 0x400;
      UnitReadsBack(high, Unit(low) + rest);
      Associative(Unit(high), Unit(low), rest);
    }
  }

  lemma {:induction false} EscapedReadsBack(text: Text)
    requires NoSurrogatePairs(text)
    ensures ReadCharacters(Escaped(text) + "\"") == Some(Codes(text))
  {
    if text != [] {
      var c, rest := text[0], Escaped(text[1..]) + "\"";
      assert forall i :: 0 <= i < |text| - 1 ==> text[1..][i] == text[i + 1];
      EscapedReadsBack(text[1..]);
      EscapedHead(text[1..]);
      EscapeReadsBack(c, rest);
      assert Escaped(text) + "\"" == Escape(c) + rest;
      assert |Escape(c) + rest| > 1;
      assert Codes(text) == [c as int] + Codes(text[1..]);
    }
  }

  function Codes(text: Text): seq<int> {
    seq(|text|, i requires 0 <= i < |text| => text[i])
  }

  /** The JSON form measured is one: it is quoted, and reading what is between the quotes gives the text back. */
  lemma JsonReadsBack(text: Text)
    requires NoSurrogatePairs(text)
    ensures JsonText(text)[0] == '"' && ReadCharacters(JsonText(text)[1..]) == Some(Codes(text))
  {
    EscapedReadsBack(text);
    assert JsonText(text)[1..] == Escaped(text) + "\"";
  }

  // ---------------------------------------------------------------- lists of logs

  function Joined(logs: seq<string>): string {
    if logs == [] then "" else if |logs| == 1 then logs[0] else logs[0] + ", " + Joined(logs[1..])
  }

  /** The JSON form of a list whose elements have the given JSON forms. */
  function ListText(logs: seq<string>): string {
    "[" + Joined(logs) + "]"
  }

  function TotalSize(logs: seq<string>): nat {
    if logs == [] then 0 else |logs[0]| + TotalSize(logs[1..])
  }

  /** Brackets around, and two characters between any two elements. */
  lemma {:induction false} ListSize(logs: seq<string>)
    ensures |ListText(logs)| == 2 + TotalSize(logs) + if logs == [] then 0 else 2 * (|logs| - 1)
  {
    if |logs| > 1 {
      ListSize(logs[1..]);
    } else if |logs| == 1 {
      assert logs[1..] == [];
    }
  }

  lemma {:induction false} ShorterListIsSmaller(logs: seq<string>, j: nat, k: nat)
    requires j <= k <= |logs|
    ensures |ListText(logs[k..])| <= |ListText(logs[j..])|
    decreases k - j
  {
    if j < k {
      ShorterListIsSmaller(logs, j + 1, k);
      assert logs[j..][1..] == logs[j + 1..];
    }
  }

  /** Below two bytes no list fits, not even the empty one, whose tail is the empty one again: the loop of the source
      would not end. */
  lemma NothingFitsBelowTwo(logs: seq<string>, maxBytes: nat)
    ensures |ListText(logs)| >= 2
    ensures (exists r :: |ListText(r)| <= maxBytes) <==> maxBytes >= 2
  {
    assert |ListText([])| == 2;
  }

  /** The longest tail of the list that fits. */
  method TrimLogs(logs: seq<string>, maxBytes: nat) returns (r: seq<string>, ghost dropped: nat)
    requires maxBytes >= 2
    ensures dropped <= |logs| && r == logs[dropped..]
    ensures |ListText(r)| <= maxBytes
    ensures forall k :: 0 <= k < dropped ==> |ListText(logs[k..])| > maxBytes
  {
    r := logs;
    dropped := 0;
    while |ListText(r)| > maxBytes
      invariant dropped <= |logs| && r == logs[dropped..]
      invariant forall k :: 0 <= k < dropped ==> |ListText(logs[k..])| > maxBytes
      decreases |r|
    {
      r := r[1..];
      dropped := dropped + 1;
    }
  }
}
