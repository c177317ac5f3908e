/**
 Search values with `*` wildcards, compiled to SQL `LIKE ... ESCAPE '\'` patterns by a sequence of replacements. Both
 sides of the comparison have a meaning of their own here: the pattern by the rules of the standard, the value as a
 user reads it; the compiler is proved to carry one into the other. (src/metadata.py)
 */
module LikePatterns {
  import opened Common

  // ---------------------------------------------------------------- the compiler

  /** `str.replace` of a single character. */
  function Replace(s: string, c: char, sub: string): string {
    if s == [] then []
    else (if s[0] == c then sub else [s[0]]) + Replace(s[1..], c, sub)
  }

  /** `_escape_like_literal`. */
  function EscapeLiteral(raw: string): string {
    Replace(Replace(Replace(raw, '\\', "\\\\"), '%', "\\%"), '_', "\\_")
  }

  /** `_like_pattern`. */
  function LikePattern(value: string, wrapContains: bool): string {
    var esc := Replace(EscapeLiteral(value), '*', "%");
    if !wrapContains then esc
    else
      var front := if esc != [] && esc[0] == '%' then esc else "%" + esc;
      if front[|front| - 1] == '%' then front else front + "%"
  }

  // ---------------------------------------------------------------- what patterns mean

  /** `text LIKE pattern ESCAPE '\'` (section 8.5 of ISO/IEC 9075-2); a pattern ending in a lone
      escape character matches nothing. */
  ghost predicate Like(text: string, pattern: string)
    decreases |pattern|
  {
    if pattern == [] then text == []
    else if pattern[0] == '\\' then
      |pattern| >= 2 && text != [] && text[0] == pattern[1] && Like(text[1..], pattern[2..])
    else if pattern[0] == '%' then exists k :: 0 <= k <= |text| && Like(text[k..], pattern[1..])
    else text != [] && (pattern[0] == '_' || text[0] == pattern[0]) && Like(text[1..], pattern[1..])
  }

  /** How a user reads a search value: `*` is any run of characters, everything else is itself. */
  ghost predicate Glob(text: string, value: string)
    decreases |value|
  {
    if value == [] then text == []
    else if value[0] == '*' then exists k :: 0 <= k <= |text| && Glob(text[k..], value[1..])
    else text != [] && text[0] == value[0] && Glob(text[1..], value[1..])
  }

  /** Some part of the text matches the value. */
  ghost predicate GlobInside(text: string, value: string) {
    exists i, j :: 0 <= i <= j <= |text| && Glob(text[i..j], value)
  }

  /** Some end of the text matches the value. */
  ghost predicate GlobAtEnd(text: string, value: string) {
    exists i :: 0 <= i <= |text| && Glob(text[i..], value)
  }

  // ---------------------------------------------------------------- the compiler, one character at a time

  function Code(c: char): string {
    if c == '\\' then "\\\\" else if c == '%' then "\\%" else if c == '_' then "\\_"
    else if c == '*' then "%" else [c]
  }

  function CodeAll(value: string): string {
    if value == [] then [] else Code(value[0]) + CodeAll(value[1..])
  }

  lemma {:induction false} ReplaceConcat(s: string, t: string, c: char, sub: string)
    ensures Replace(s + t, c, sub) == Replace(s, c, sub) + Replace(t, c, sub)
  {
    if s == [] {
      assert s + t == t;
    } else {
      ReplaceConcat(s[1..], t, c, sub);
      assert (s + t)[0] == s[0] && (s + t)[1..] == s[1..] + t;
      Associative(if s[0] == c then sub else [s[0]], Replace(s[1..], c, sub), Replace(t, c, sub));
    }
  }

  lemma ReplaceShort(s: string, c: char, sub: string)
    requires 1 <= |s| <= 2
    ensures Replace(s, c, sub) ==
            (if s[0] == c then sub else [s[0]]) + (if |s| == 1 then [] else if s[1] == c then sub else [s[1]])
  {
    assert Replace(s[1..], c, sub) == if |s| == 1 then [] else if s[1] == c then sub else [s[1]];
  }

  lemma ReplaceChar(c: char)
    ensures Replace(EscapeLiteral([c]), '*', "%") == Code(c)
  {
    ReplaceShort([c], '\\', "\\\\");
    var s := Replace([c], '\\', "\\\\");
    ReplaceShort(s, '%', "\\%");
    var t := Replace(s, '%', "\\%");
    ReplaceShort(t, '_', "\\_");
    ReplaceShort(Replace(t, '_', "\\_"), '*', "%");
  }

  /** The four replacements in sequence do not disturb each other. */
  lemma {:induction false} CompilesCharByChar(value: string)
    ensures LikePattern(value, false) == CodeAll(value)
  {
    if value != [] {
      var c, rest := [value[0]], value[1..];
      assert value == c + rest;
      ReplaceConcat(c, rest, '\\', "\\\\");
      var a, b := Replace(c, '\\', "\\\\"), Replace(rest, '\\', "\\\\");
      ReplaceConcat(a, b, '%', "\\%");
      ReplaceConcat(Replace(a, '%', "\\%"), Replace(b, '%', "\\%"), '_', "\\_");
      ReplaceConcat(EscapeLiteral(c), EscapeLiteral(rest), '*', "%");
      ReplaceChar(value[0]);
      CompilesCharByChar(rest);
    }
  }

  // ---------------------------------------------------------------- meaning is preserved

  /** Compilation preserves meaning: the pattern, with any tail, matches as the value reads. */
  lemma {:induction false} CodeMatches(text: string, value: string)
    ensures Like(text, CodeAll(value)) <==> Glob(text, value)
    decreases |value|
  {
    if value != [] {
      var c, rest := value[0], value[1..];
      var p := CodeAll(value);
      if c == '*' {
        assert p[0] == '%' && p[1..] == CodeAll(rest);
        forall k | 0 <= k <= |text|
          ensures Like(text[k..], p[1..]) <==> Glob(text[k..], rest)
        {
          CodeMatches(text[k..], rest);
        }
      } else if c == '\\' || c == '%' || c == '_' {
        assert p[0] == '\\' && p[1] == c && p[2..] == CodeAll(rest);
        if text != [] {
          CodeMatches(text[1..], rest);
        }
      } else {
        assert p[0] == c && p[1..] == CodeAll(rest);
        if text != [] {
          CodeMatches(text[1..], rest);
        }
      }
    }
  }

  /** Without wrapping, the pattern matches exactly the texts the value reads. */
  lemma PatternMatchesGlob(text: string, value: string)
    ensures Like(text, LikePattern(value, false)) <==> Glob(text, value)
  {
    CompilesCharByChar(value);
    CodeMatches(text, value);
  }

  function Front(value: string): string {
    if value != [] && value[0] == '*' then value else "*" + value
  }

  function WithStars(value: string): string {
    var front := Front(value);
    if front[|front| - 1] == '*' || front[|front| - 1] == '%' then front else front + "*"
  }

  lemma {:induction false} CodeConcat(s: string, t: string)
    ensures CodeAll(s + t) == CodeAll(s) + CodeAll(t)
  {
    if s == [] {
      assert s + t == t;
    } else {
      CodeConcat(s[1..], t);
      assert (s + t)[0] == s[0] && (s + t)[1..] == s[1..] + t;
      assert CodeAll(s + t) == Code(s[0]) + CodeAll(s[1..] + t);
      Associative(Code(s[0]), CodeAll(s[1..]), CodeAll(t));
    }
  }

  lemma CodeEnds(value: string)
    requires value != []
    ensures CodeAll(value) != []
    ensures CodeAll(value)[0] == '%' <==> value[0] == '*'
    ensures
      var last := value[|value| - 1];
      CodeAll(value)[|CodeAll(value)| - 1] == '%' <==> last == '*' || last == '%'
  {
    var n := |value| - 1;
    assert value == value[..n] + [value[n]];
    CodeConcat(value[..n], [value[n]]);
    assert CodeAll([value[n]]) == Code(value[n]);
  }

  lemma FrontCode(value: string)
    ensures CodeAll(Front(value)) ==
            if CodeAll(value) != [] && CodeAll(value)[0] == '%' then CodeAll(value) else "%" + CodeAll(value)
  {
    CodeConcat("*", value);
    assert CodeAll("*") == "%";
    if value != [] {
      CodeEnds(value);
    }
  }

  /** Wrapping puts a wildcard at either end, unless the pattern already has a `%` there. */
  lemma WrapAddsStars(value: string)
    ensures LikePattern(value, true) == CodeAll(WithStars(value))
  {
    CompilesCharByChar(value);
    FrontCode(value);
    CodeEnds(Front(value));
    CodeConcat(Front(value), "*");
    assert CodeAll("*") == "%";
  }

  // Leading and trailing stars, in terms of the value between them.

  lemma {:induction false} GlobTrailingStar(text: string, value: string)
    ensures Glob(text, value + "*") <==> exists j :: 0 <= j <= |text| && Glob(text[..j], value)
    decreases |value|, 1
  {
    var starred := value + "*";
    if value == [] {
      assert starred[0] == '*' && starred[1..] == [];
      assert text[|text|..] == [] && Glob(text[|text|..], []);
      assert text[..0] == [] && Glob(text[..0], value);
    } else {
      assert starred[0] == value[0] && starred[1..] == value[1..] + "*";
      if value[0] == '*' {
        StarThenTrailing(text, value);
      } else if text == [] {
        assert forall j :: 0 <= j <= |text| ==> text[..j] == [];
      } else {
        GlobTrailingStar(text[1..], value[1..]);
        forall j | 1 <= j <= |text|
          ensures Glob(text[..j], value) <==> text[0] == value[0] && Glob(text[1..][..j - 1], value[1..])
        {
          assert text[..j][1..] == text[1..][..j - 1];
        }
        if Glob(text, starred) {
          var j :| 0 <= j <= |text[1..]| && Glob(text[1..][..j], value[1..]);
          assert Glob(text[..j + 1], value);
        }
        if j :| 0 <= j <= |text| && Glob(text[..j], value) {
          assert j >= 1;
          assert Glob(text[1..][..j - 1], value[1..]);
        }
      }
    }
  }

  lemma StarThenTrailing(text: string, value: string)
    requires value != [] && value[0] == '*'
    ensures Glob(text, value + "*") <==> exists j :: 0 <= j <= |text| && Glob(text[..j], value)
    decreases |value|, 0
  {
    var rest := value[1..];
    assert (value + "*")[0] == '*' && (value + "*")[1..] == rest + "*";
    if Glob(text, value + "*") {
      var k :| 0 <= k <= |text| && Glob(text[k..], rest + "*");
      GlobTrailingStar(text[k..], rest);
      var j :| 0 <= j <= |text[k..]| && Glob(text[k..][..j], rest);
      assert text[..k + j][k..] == text[k..][..j];
      assert Glob(text[..k + j], value);
    }
    if j :| 0 <= j <= |text| && Glob(text[..j], value) {
      var k :| 0 <= k <= j && Glob(text[..j][k..], rest);
      assert text[..j][k..] == text[k..][..j - k];
      GlobTrailingStar(text[k..], rest);
      assert Glob(text[k..], rest + "*");
    }
  }

  lemma FrontMatches(text: string, value: string)
    ensures Glob(text, Front(value)) <==> GlobAtEnd(text, value)
  {
    assert text[0..] == text;
    if value != [] && value[0] == '*' {
      if i :| 0 <= i <= |text| && Glob(text[i..], value) {
        var k :| 0 <= k <= |text[i..]| && Glob(text[i..][k..], value[1..]);
        assert text[i..][k..] == text[i + k..];
      }
    } else {
      assert ("*" + value)[1..] == value;
    }
  }

  lemma StretchRight(text: string, value: string)
    requires value != [] && value[|value| - 1] == '*'
    ensures Glob(text, value) <==> exists j :: 0 <= j <= |text| && Glob(text[..j], value)
  {
    var n := |value| - 1;
    assert value == value[..n] + "*";
    GlobTrailingStar(text, value[..n]);
    assert text[..|text|] == text;
    if j :| 0 <= j <= |text| && Glob(text[..j], value) {
      GlobTrailingStar(text[..j], value[..n]);
      var k :| 0 <= k <= j && Glob(text[..j][..k], value[..n]);
      assert text[..j][..k] == text[..k];
    }
  }

  /** The wrapped pattern matches iff some part of the text does; after a value ending in a literal `%`
      it stays anchored at the end of the text. */
  lemma WrappedMatches(text: string, value: string)
    ensures Like(text, LikePattern(value, true)) <==>
            if value != [] && value[|value| - 1] == '%' then GlobAtEnd(text, value) else GlobInside(text, value)
  {
    var front := Front(value);
    WrapAddsStars(value);
    CodeMatches(text, WithStars(value));
    if front[|front| - 1] == '%' {
      FrontMatches(text, value);
    } else {
      forall j | 0 <= j <= |text|
        ensures Glob(text[..j], front) <==> GlobAtEnd(text[..j], value)
      {
        FrontMatches(text[..j], value);
      }
      if front[|front| - 1] == '*' {
        StretchRight(text, front);
      } else {
        GlobTrailingStar(text, front);
      }
    }
  }

  // ---------------------------------------------------------------- when wrapping means "contains"

  /** The value read with every `*` as the empty run. */
  function Shortest(value: string): string {
    if value == [] then [] else (if value[0] == '*' then [] else [value[0]]) + Shortest(value[1..])
  }

  lemma {:induction false} ShortestMatches(value: string)
    ensures Glob(Shortest(value), value)
  {
    if value != [] {
      ShortestMatches(value[1..]);
      if value[0] == '*' {
        assert Shortest(value)[0..] == Shortest(value[1..]);
      } else {
        assert Shortest(value)[1..] == Shortest(value[1..]);
      }
    }
  }

  lemma {:induction false} LiteralEnd(text: string, value: string)
    requires value != [] && value[|value| - 1] != '*' && Glob(text, value)
    ensures text != [] && text[|text| - 1] == value[|value| - 1]
    decreases |value|
  {
    if value[0] == '*' {
      var k :| 0 <= k <= |text| && Glob(text[k..], value[1..]);
      LiteralEnd(text[k..], value[1..]);
    } else if |value| > 1 {
      LiteralEnd(text[1..], value[1..]);
    }
  }

  lemma PercentEndIsAnchored(value: string) returns (text: string)
    requires value != [] && value[|value| - 1] == '%'
    ensures GlobInside(text, value) && !Like(text, LikePattern(value, true))
  {
    text := Shortest(value) + "x";
    var n := |Shortest(value)|;
    ShortestMatches(value);
    assert text[0..n] == Shortest(value);
    WrappedMatches(text, value);
    if i :| 0 <= i <= |text| && Glob(text[i..], value) {
      LiteralEnd(text[i..], value);
      assert false;
    }
  }

  /** Wrapping reads as "contains" for every text exactly when the value does not end in a literal `%`. */
  lemma WrapMeansContains(value: string)
    ensures (forall text :: Like(text, LikePattern(value, true)) <==> GlobInside(text, value)) <==>
            !(value != [] && value[|value| - 1] == '%')
  {
    if value != [] && value[|value| - 1] == '%' {
      var text := PercentEndIsAnchored(value);
    } else {
      forall text
        ensures Like(text, LikePattern(value, true)) <==> GlobInside(text, value)
      {
        WrappedMatches(text, value);
      }
    }
  }

  // ---------------------------------------------------------------- both sides in lower case

  function Fold(s: string, lower: char -> char): (r: string)
    ensures |r| == |s| && forall i :: 0 <= i < |s| ==> r[i] == lower(s[i])
  {
    seq(|s|, i requires 0 <= i < |s| => lower(s[i]))
  }

  /** Lower-casing keeps the four special characters, and makes no other character special. */
  ghost predicate KeepsSpecials(lower: char -> char) {
    forall c: char ::
      && (lower(c) == '\\' <==> c == '\\')
      && (lower(c) == '%' <==> c == '%')
      && (lower(c) == '_' <==> c == '_')
      && (lower(c) == '*' <==> c == '*')
  }

  lemma {:induction false} FoldCodeAll(value: string, lower: char -> char)
    requires KeepsSpecials(lower)
    ensures Fold(CodeAll(value), lower) == CodeAll(Fold(value, lower))
  {
    if value == [] {
      assert Fold(value, lower) == [];
    } else {
      FoldCodeAll(value[1..], lower);
      assert Fold(value, lower)[1..] == Fold(value[1..], lower);
    }
  }

  lemma FoldStars(value: string, lower: char -> char)
    requires KeepsSpecials(lower)
    ensures WithStars(Fold(value, lower)) == Fold(WithStars(value), lower)
  {
    FoldFront(value, lower);
    var front := Front(value);
    var last := front[|front| - 1];
    assert (lower(last) == '*' <==> last == '*') && (lower(last) == '%' <==> last == '%');
    assert lower('*') == '*';
    assert Fold(front + "*", lower) == Fold(front, lower) + "*";
  }

  lemma FoldFront(value: string, lower: char -> char)
    requires KeepsSpecials(lower)
    ensures Front(Fold(value, lower)) == Fold(Front(value), lower)
  {
    assert lower('*') == '*';
    assert value != [] ==> (lower(value[0]) == '*' <==> value[0] == '*');
    assert Fold("*" + value, lower) == "*" + Fold(value, lower);
  }

  /** `_pred_like` lower-cases text and pattern: the pattern it sends is that of the lower-cased value. */
  lemma PredLikeIgnoresCase(value: string, wrapContains: bool, lower: char -> char)
    requires KeepsSpecials(lower)
    ensures Fold(LikePattern(value, wrapContains), lower) == LikePattern(Fold(value, lower), wrapContains)
  {
    if wrapContains {
      WrapAddsStars(value);
      WrapAddsStars(Fold(value, lower));
      FoldStars(value, lower);
      FoldCodeAll(WithStars(value), lower);
    } else {
      CompilesCharByChar(value);
      CompilesCharByChar(Fold(value, lower));
      FoldCodeAll(value, lower);
    }
  }
}
