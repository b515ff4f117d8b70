/** "Every key with this prefix" as a LIKE pattern: the escaping of connectors/core/purge.py and the
    shorter one of connectors/core/ledger.py, against a LIKE matcher with ESCAPE '\'. */
module LikePrefix {
  import opened Text

  const BACKSLASH := '\\'

  // ---------------------------------------------------------------- the matcher

  /** SQLite's LIKE folds ASCII case (foldCase), Postgres' does not. */
  predicate Same(a: char, b: char, foldCase: bool) {
    a == b || (foldCase && LowerChar(a) == LowerChar(b))
  }

  predicate Like(pattern: string, text: string, foldCase: bool)
    decreases |pattern| + |text|
  {
    if pattern == "" then text == ""
    else if pattern[0] == BACKSLASH then
      |pattern| >= 2 && text != "" && Same(pattern[1], text[0], foldCase) && Like(pattern[2..], text[1..], foldCase)
    else if pattern[0] == '%' then
      Like(pattern[1..], text, foldCase) || (text != "" && Like(pattern, text[1..], foldCase))
    else
      text != "" && (pattern[0] == '_' || Same(pattern[0], text[0], foldCase)) &&
        Like(pattern[1..], text[1..], foldCase)
  }

  predicate StartsWith(text: string, prefix: string, foldCase: bool) {
    |prefix| <= |text| && forall k :: 0 <= k < |prefix| ==> Same(prefix[k], text[k], foldCase)
  }

  /** Starting with a prefix: as it is, or once both are lower-cased where case is folded. */
  lemma StartsWithMeans(text: string, prefix: string)
    ensures StartsWith(text, prefix, false) <==> prefix <= text
    ensures StartsWith(text, prefix, true) <==> Lower(prefix) <= Lower(text)
  {
    if Lower(prefix) <= Lower(text) {
      forall k | 0 <= k < |prefix| ensures Same(prefix[k], text[k], true) {
        assert Lower(prefix)[k] == Lower(text)[k];
      }
    }
  }

  // ---------------------------------------------------------------- escaping

  /** str.replace for a single character. */
  function Replace(s: string, c: char, with: string): string {
    if s == "" then "" else (if s[0] == c then with else [s[0]]) + Replace(s[1..], c, with)
  }

  /** purge.py: backslash, then % and _. */
  function EscapeFully(p: string): string {
    Replace(Replace(Replace(p, BACKSLASH, "\\\\"), '%', "\\%"), '_', "\\_")
  }

  /** ledger.py: % and _ only. */
  function EscapeWildcards(p: string): string {
    Replace(Replace(p, '%', "\\%"), '_', "\\_")
  }

  predicate Special(c: char) { c == BACKSLASH || c == '%' || c == '_' }

  function Guard(c: char, guarded: bool): string {
    if guarded then [BACKSLASH, c] else [c]
  }

  lemma {:induction false} ReplaceConcat(s: string, t: string, c: char, with: string)
    ensures Replace(s + t, c, with) == Replace(s, c, with) + Replace(t, c, with)
  {
    if s == "" {
      assert s + t == t;
    } else {
      assert (s + t)[1..] == s[1..] + t;
      ReplaceConcat(s[1..], t, c, with);
    }
  }

  lemma ReplaceTwo(a: char, b: char, c: char, with: string)
    ensures Replace([a], c, with) == if a == c then with else [a]
    ensures a != c && b != c ==> Replace([a, b], c, with) == [a, b]
    ensures a != c && b == c ==> Replace([a, b], c, with) == [a] + with
    ensures a == c && b != c ==> Replace([a, b], c, with) == with + [b]
  {
    assert [a][1..] == "" && [a, b][1..] == [b] && [b][1..] == "";
    assert Replace([b], c, with) == (if b == c then with else [b]) + "";
    assert Replace([a], c, with) == (if a == c then with else [a]) + "";
  }

  /** The chained replacements escape character by character. */
  lemma EscapeFullyCons(p: string)
    requires p != ""
    ensures EscapeFully(p) == Guard(p[0], Special(p[0])) + EscapeFully(p[1..])
  {
    var c := p[0];
    var head := Guard(c, c == BACKSLASH);
    var one := Replace(p[1..], BACKSLASH, "\\\\");
    ReplaceConcat(head, one, '%', "\\%");
    ReplaceTwo(c, c, '%', "\\%");
    ReplaceTwo(BACKSLASH, c, '%', "\\%");
    var two := Replace(one, '%', "\\%");
    var middle := Guard(c, c == BACKSLASH || c == '%');
    assert Replace(head, '%', "\\%") == middle;
    ReplaceConcat(middle, two, '_', "\\_");
    ReplaceTwo(c, c, '_', "\\_");
    ReplaceTwo(BACKSLASH, c, '_', "\\_");
  }

  lemma EscapeWildcardsCons(p: string)
    requires p != ""
    ensures EscapeWildcards(p) == Guard(p[0], p[0] == '%' || p[0] == '_') + EscapeWildcards(p[1..])
  {
    var c := p[0];
    var one := Replace(p[1..], '%', "\\%");
    var head := Guard(c, c == '%');
    ReplaceConcat(head, one, '_', "\\_");
    ReplaceTwo(c, c, '_', "\\_");
    ReplaceTwo(BACKSLASH, c, '_', "\\_");
  }

  // ---------------------------------------------------------------- exactness

  lemma {:induction false} PercentMatchesAll(text: string, foldCase: bool)
    ensures Like("%", text, foldCase)
  {
    assert "%"[1..] == "";
    if text != "" { PercentMatchesAll(text[1..], foldCase); }
  }

  lemma LikeLiteral(c: char, guarded: bool, rest: string, text: string, foldCase: bool)
    requires Special(c) ==> guarded
    ensures Like(Guard(c, guarded) + rest, text, foldCase) <==>
      text != "" && Same(c, text[0], foldCase) && Like(rest, text[1..], foldCase)
  {
    var p := Guard(c, guarded) + rest;
    if guarded { assert p[1] == c && p[2..] == rest; } else { assert p[1..] == rest; }
  }

  lemma StartsWithCons(text: string, prefix: string, foldCase: bool)
    requires prefix != ""
    ensures StartsWith(text, prefix, foldCase) <==>
      text != "" && Same(prefix[0], text[0], foldCase) && StartsWith(text[1..], prefix[1..], foldCase)
  {
    if StartsWith(text, prefix, foldCase) {
      forall k | 0 <= k < |prefix[1..]| ensures Same(prefix[1..][k], text[1..][k], foldCase) {
        assert Same(prefix[k + 1], text[k + 1], foldCase);
      }
    }
    if text != "" && Same(prefix[0], text[0], foldCase) && StartsWith(text[1..], prefix[1..], foldCase) {
      forall k | 0 <= k < |prefix| ensures Same(prefix[k], text[k], foldCase) {
        if k > 0 { assert Same(prefix[1..][k - 1], text[1..][k - 1], foldCase); }
      }
    }
  }

  /** Full escaping is exact: the pattern matches a key iff the key starts with the prefix. */
  lemma {:induction false} FullEscapingIsExact(prefix: string, key: string, foldCase: bool)
    ensures Like(EscapeFully(prefix) + "%", key, foldCase) <==> StartsWith(key, prefix, foldCase)
    decreases |prefix|
  {
    if prefix == "" {
      assert EscapeFully(prefix) + "%" == "%";
      PercentMatchesAll(key, foldCase);
    } else {
      EscapeFullyCons(prefix);
      var rest := EscapeFully(prefix[1..]) + "%";
      assert EscapeFully(prefix) + "%" == Guard(prefix[0], Special(prefix[0])) + rest;
      LikeLiteral(prefix[0], Special(prefix[0]), rest, key, foldCase);
      StartsWithCons(key, prefix, foldCase);
      if key != "" { FullEscapingIsExact(prefix[1..], key[1..], foldCase); }
    }
  }

  lemma {:induction false} NoBackslashSameEscape(prefix: string)
    requires BACKSLASH !in prefix
    ensures EscapeWildcards(prefix) == EscapeFully(prefix)
  {
    if prefix != "" {
      EscapeFullyCons(prefix);
      EscapeWildcardsCons(prefix);
      NoBackslashSameEscape(prefix[1..]);
    }
  }

  /** A key the short pattern of a prefix with a backslash matches although it lacks the prefix. */
  function Stray(p: string): string {
    if p == "" then ""
    else if p[0] != BACKSLASH then [p[0]] + Stray(p[1..])
    else if |p| == 1 then "%"
    else if p[1] == '%' then [BACKSLASH] + Stray(p[2..])
    else if p[1] == '_' then [BACKSLASH, '-'] + Stray(p[2..])
    else [p[1]] + Stray(p[2..])
  }

  lemma {:induction false} StrayIsShort(p: string)
    ensures |Stray(p)| <= |p|
    decreases |p|
  {
    if p != "" {
      StrayIsShort(p[1..]);
      if |p| >= 2 { StrayIsShort(p[2..]); }
    }
  }

  lemma {:induction false} StrayLacksPrefix(p: string, foldCase: bool)
    requires BACKSLASH in p
    ensures !StartsWith(Stray(p), p, foldCase)
    decreases |p|
  {
    StrayIsShort(p);
    if p[0] != BACKSLASH {
      assert BACKSLASH in p[1..];
      StrayLacksPrefix(p[1..], foldCase);
      StartsWithCons(Stray(p), p, foldCase);
    } else if |p| == 1 {
      assert Stray(p)[0] == '%';
    } else {
      StrayIsShort(p[2..]);
      if p[1] == '_' {
        assert Stray(p)[1] == '-';
      }
    }
  }

  lemma {:induction false} StrayMatches(p: string, foldCase: bool)
    ensures Like(EscapeWildcards(p) + "%", Stray(p), foldCase)
    decreases |p|
  {
    if p == "" {
      assert EscapeWildcards(p) + "%" == "%";
      PercentMatchesAll("", foldCase);
    } else {
      EscapeWildcardsCons(p);
      var rest := EscapeWildcards(p[1..]) + "%";
      var guarded := p[0] == '%' || p[0] == '_';
      assert EscapeWildcards(p) + "%" == Guard(p[0], guarded) + rest;
      if p[0] != BACKSLASH {
        StrayMatches(p[1..], foldCase);
        LikeLiteral(p[0], guarded, rest, Stray(p), foldCase);
      } else {
        StrayMatchesBackslash(p, rest, foldCase);
      }
    }
  }

  lemma {:induction false} StrayMatchesBackslash(p: string, rest: string, foldCase: bool)
    requires p != "" && p[0] == BACKSLASH && rest == EscapeWildcards(p[1..]) + "%"
    ensures Like([BACKSLASH] + rest, Stray(p), foldCase)
    decreases |p|, 0
  {
    var pattern := [BACKSLASH] + rest;
    if |p| == 1 {
      assert pattern == Guard('%', true) + "";
      LikeLiteral('%', true, "", "%", foldCase);
    } else {
      EscapeWildcardsCons(p[1..]);
      assert p[1..][1..] == p[2..];
      StrayMatches(p[2..], foldCase);
      var tail := EscapeWildcards(p[2..]) + "%";
      if p[1] == '%' || p[1] == '_' {
        assert pattern == Guard(BACKSLASH, true) + ([p[1]] + tail);
        LikeLiteral(BACKSLASH, true, [p[1]] + tail, Stray(p), foldCase);
        var t := Stray(p)[1..];
        assert ([p[1]] + tail)[1..] == tail;
        if p[1] == '%' { assert t == Stray(p[2..]); } else { assert t[1..] == Stray(p[2..]); }
      } else {
        assert pattern == Guard(p[1], true) + tail;
        LikeLiteral(p[1], true, tail, Stray(p), foldCase);
      }
    }
  }

  /** The ledger's shorter escaping is exact for a prefix exactly when the prefix has no backslash. */
  lemma ShortEscapingIsExactIff(prefix: string, foldCase: bool)
    ensures (forall key :: Like(EscapeWildcards(prefix) + "%", key, foldCase) <==> StartsWith(key, prefix, foldCase))
      <==> BACKSLASH !in prefix
  {
    if BACKSLASH !in prefix {
      NoBackslashSameEscape(prefix);
      forall key ensures Like(EscapeWildcards(prefix) + "%", key, foldCase) <==> StartsWith(key, prefix, foldCase) {
        FullEscapingIsExact(prefix, key, foldCase);
      }
    } else {
      StrayMatches(prefix, foldCase);
      StrayLacksPrefix(prefix, foldCase);
    }
  }

  // ---------------------------------------------------------------- purge_ledger_prefix

  function LowerOne(c: char, unicode: char -> string): string {
    if c < '\U{80}' then [LowerChar(c)] else unicode(c)
  }

  /** Python's str.lower(), character by character: ASCII letters as LOWER() does, other characters as
      Unicode says; `unicode` gives the latter. */
  function PyLower(s: string, unicode: char -> string): string {
    if s == "" then "" else LowerOne(s[0], unicode) + PyLower(s[1..], unicode)
  }

  /** What Unicode lower-casing never does: vanish, or produce a capital or a pattern character. */
  ghost predicate Sane(unicode: char -> string) {
    forall c :: |unicode(c)| >= 1 && forall k :: 0 <= k < |unicode(c)| ==>
      !Special(unicode(c)[k]) && LowerChar(unicode(c)[k]) == unicode(c)[k]
  }

  function PurgePattern(prefix: string, unicode: char -> string): string {
    PyLower(EscapeFully(prefix) + "%", unicode)
  }

  lemma {:induction false} PyLowerConcat(s: string, t: string, unicode: char -> string)
    ensures PyLower(s + t, unicode) == PyLower(s, unicode) + PyLower(t, unicode)
  {
    if s == "" {
      assert s + t == t;
    } else {
      assert (s + t)[1..] == s[1..] + t;
      PyLowerConcat(s[1..], t, unicode);
    }
  }

  lemma {:induction false} EscapeFullyConcat(s: string, t: string)
    ensures EscapeFully(s + t) == EscapeFully(s) + EscapeFully(t)
  {
    if s == "" {
      assert s + t == t;
    } else {
      assert (s + t)[1..] == s[1..] + t;
      EscapeFullyCons(s);
      EscapeFullyCons(s + t);
      EscapeFullyConcat(s[1..], t);
    }
  }

  lemma {:induction false} NothingToEscape(s: string)
    requires forall k :: 0 <= k < |s| ==> !Special(s[k])
    ensures EscapeFully(s) == s
  {
    if s != "" {
      EscapeFullyCons(s);
      NothingToEscape(s[1..]);
    }
  }

  /** One character: lower-casing and escaping commute. */
  lemma LowerCommutesOnce(c: char, unicode: char -> string)
    requires Sane(unicode)
    ensures PyLower(Guard(c, Special(c)), unicode) == EscapeFully(LowerOne(c, unicode))
  {
    assert [c][1..] == "" && [BACKSLASH, c][1..] == [c];
    assert PyLower([c], unicode) == LowerOne(c, unicode) + "";
    if Special(c) {
      assert LowerOne(c, unicode) == [c] && EscapeFully("") == "";
      EscapeFullyCons([c]);
      assert PyLower([BACKSLASH, c], unicode) == [BACKSLASH] + PyLower([c], unicode);
    } else {
      NothingToEscape(LowerOne(c, unicode));
    }
  }

  /** Lower-casing the escaped prefix is escaping the lower-cased one. */
  lemma {:induction false} LowerCommutes(p: string, unicode: char -> string)
    requires Sane(unicode)
    ensures PyLower(EscapeFully(p), unicode) == EscapeFully(PyLower(p, unicode))
  {
    if p != "" {
      var c := p[0];
      EscapeFullyCons(p);
      PyLowerConcat(Guard(c, Special(c)), EscapeFully(p[1..]), unicode);
      LowerCommutesOnce(c, unicode);
      LowerCommutes(p[1..], unicode);
      EscapeFullyConcat(LowerOne(c, unicode), PyLower(p[1..], unicode));
    }
  }

  /** The purge matches LOWER(key) iff it starts with the prefix as Python lower-cases it. */
  lemma PurgePatternMatches(prefix: string, key: string, unicode: char -> string, foldCase: bool)
    requires Sane(unicode)
    ensures Like(PurgePattern(prefix, unicode), Lower(key), foldCase) <==>
      StartsWith(Lower(key), PyLower(prefix, unicode), foldCase)
  {
    PyLowerConcat(EscapeFully(prefix), "%", unicode);
    assert "%"[1..] == "";
    assert PyLower("%", unicode) == "%";
    LowerCommutes(prefix, unicode);
    FullEscapingIsExact(PyLower(prefix, unicode), Lower(key), foldCase);
  }

  lemma {:induction false} PyLowerHasNoCapitals(s: string, unicode: char -> string)
    requires Sane(unicode)
    ensures |PyLower(s, unicode)| >= |s|
    ensures Lower(PyLower(s, unicode)) == PyLower(s, unicode)
  {
    if s != "" {
      PyLowerHasNoCapitals(s[1..], unicode);
      var head := LowerOne(s[0], unicode);
      var rest := PyLower(s[1..], unicode);
      forall k | 0 <= k < |head + rest| ensures LowerChar((head + rest)[k]) == (head + rest)[k] {
        if k >= |head| { assert Lower(rest)[k - |head|] == rest[k - |head|]; }
      }
    }
  }

  /** The purge deletes exactly the keys that start with the prefix up to ASCII case - for every prefix
      whose only capitals are ASCII. A prefix with another capital misses its own keys. */
  lemma PurgeIsExactIff(prefix: string, unicode: char -> string, foldCase: bool)
    requires Sane(unicode)
    ensures (forall key :: Like(PurgePattern(prefix, unicode), Lower(key), foldCase) <==> StartsWith(key, prefix, true))
      <==> PyLower(prefix, unicode) == Lower(prefix)
  {
    var low := PyLower(prefix, unicode);
    PyLowerHasNoCapitals(prefix, unicode);
    forall key { PurgePatternMatches(prefix, key, unicode, foldCase); }
    if low == Lower(prefix) {
      forall key ensures StartsWith(Lower(key), low, foldCase) <==> StartsWith(key, prefix, true) {
        SameFolded(key, prefix, foldCase);
      }
    } else {
      assert StartsWith(prefix, prefix, true);
      OwnPrefix(prefix, low, foldCase);
    }
  }

  lemma OwnPrefix(prefix: string, low: string, foldCase: bool)
    requires |low| >= |prefix| && Lower(low) == low
    ensures StartsWith(Lower(prefix), low, foldCase) ==> low == Lower(prefix)
  {
    if StartsWith(Lower(prefix), low, foldCase) {
      forall k | 0 <= k < |low| ensures low[k] == Lower(prefix)[k] {
        assert Same(low[k], Lower(prefix)[k], foldCase);
        assert Lower(low)[k] == low[k];
      }
    }
  }

  lemma SameFolded(key: string, prefix: string, foldCase: bool)
    ensures StartsWith(Lower(key), Lower(prefix), foldCase) <==> StartsWith(key, prefix, true)
  {
    if |prefix| <= |key| {
      forall k | 0 <= k < |prefix|
        ensures Same(Lower(prefix)[k], Lower(key)[k], foldCase) <==> Same(prefix[k], key[k], true)
      {
      }
    }
  }

  const ACCENTED := "\U{C9}"

  /** A prefix with a capital E-acute does not match itself: Python lower-cases it, LOWER() does not. */
  lemma AccentedPrefixMissesItself(unicode: char -> string, foldCase: bool)
    requires Sane(unicode) && unicode(ACCENTED[0]) == "\U{E9}"
    ensures StartsWith(ACCENTED, ACCENTED, true) && !Like(PurgePattern(ACCENTED, unicode), Lower(ACCENTED), foldCase)
  {
    assert ACCENTED[1..] == "" && PyLower(ACCENTED, unicode) == "\U{E9}" + "";
    assert PyLower(ACCENTED, unicode)[0] == '\U{E9}' && Lower(ACCENTED)[0] == '\U{C9}';
    PurgePatternMatches(ACCENTED, ACCENTED, unicode, foldCase);
    assert !Same(PyLower(ACCENTED, unicode)[0], Lower(ACCENTED)[0], foldCase);
  }
}
