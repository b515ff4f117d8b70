/** Placeholder translation of storage/sql_backend.py: SQLite text to psycopg text.
    DDL type rewriting is not part of this model; `sql` is the text after it. */
module SqlTranslate {
  import opened Options

  predicate IsQuote(c: char) { c == '\'' || c == '"' }

  // ---------------------------------------------------------------- the literal pattern

  /** Where the regular expression (?:[^q]|qq)*q, started at j, stops matching: greedy, and giving a
      doubled quote back when no closing quote follows. */
  function LiteralEnd(s: string, j: nat, q: char): (e: Option<nat>)
    requires j <= |s|
    ensures e.Some? ==> j < e.value <= |s|
    decreases |s| - j
  {
    if j == |s| then None
    else if s[j] != q then LiteralEnd(s, j + 1, q)
    else if j + 1 < |s| && s[j + 1] == q then
      match LiteralEnd(s, j + 2, q)
      case Some(e) => Some(e)
      case None => Some(j + 1)
    else Some(j + 1)
  }

  /** The end of the quoted literal matched at i, if one is. */
  function LiteralAt(s: string, i: nat): (e: Option<nat>)
    requires i < |s|
    ensures e.Some? ==> i < e.value <= |s|
  {
    if IsQuote(s[i]) then LiteralEnd(s, i + 1, s[i]) else None
  }

  // ---------------------------------------------------------------- translate

  function DoublePercents(s: string): string {
    if s == "" then "" else (if s[0] == '%' then "%%" else [s[0]]) + DoublePercents(s[1..])
  }

  function TranslateFrom(s: string, i: nat, hasParams: bool): string
    requires i <= |s|
    decreases |s| - i
  {
    if i == |s| then ""
    else match LiteralAt(s, i)
      case Some(e) =>
        (if hasParams then DoublePercents(s[i..e]) else s[i..e]) + TranslateFrom(s, e, hasParams)
      case None =>
        (if s[i] == '?' then "%s" else if s[i] == '%' && hasParams then "%%" else [s[i]])
        + TranslateFrom(s, i + 1, hasParams)
  }

  function Translate(sql: string, hasParams: bool): string {
    TranslateFrom(sql, 0, hasParams)
  }

  // ---------------------------------------------------------------- what a statement means

  datatype Token = Ch(c: char) | Slot

  /** For each character from i on: does it lie in a quoted literal? */
  function LiteralMask(s: string, i: nat): (m: seq<bool>)
    requires i <= |s|
    ensures |m| == |s| - i
    decreases |s| - i
  {
    if i == |s| then []
    else match LiteralAt(s, i)
      case Some(e) => seq(e - i, _ => true) + LiteralMask(s, e)
      case None => [false] + LiteralMask(s, i + 1)
  }

  /** The statement SQLite reads: a slot at each ? outside literals, every other character itself. */
  function Meaning(s: string, mask: seq<bool>): seq<Token>
    requires |mask| == |s|
  {
    seq(|s|, k requires 0 <= k < |s| => if s[k] == '?' && !mask[k] then Slot else Ch(s[k]))
  }

  /** The statement psycopg reads when it is given parameters: %% is a percent sign, %s a slot,
      any other use of % an error. Literals mean nothing to it. */
  function Read(t: string): Option<seq<Token>> {
    if t == "" then Some([])
    else if t[0] != '%' then Prepend([Ch(t[0])], Read(t[1..]))
    else if |t| >= 2 && t[1] == '%' then Prepend([Ch('%')], Read(t[2..]))
    else if |t| >= 2 && t[1] == 's' then Prepend([Slot], Read(t[2..]))
    else None
  }

  function Prepend(head: seq<Token>, tail: Option<seq<Token>>): Option<seq<Token>> {
    match tail
    case Some(ts) => Some(head + ts)
    case None => None
  }

  function Characters(s: string): seq<Token> {
    seq(|s|, k requires 0 <= k < |s| => Ch(s[k]))
  }

  lemma ReadOne(c: char, t: string)
    ensures c != '%' ==> Read([c] + t) == Prepend([Ch(c)], Read(t))
    ensures Read("%%" + t) == Prepend([Ch('%')], Read(t))
    ensures Read("%s" + t) == Prepend([Slot], Read(t))
  {
    assert ([c] + t)[1..] == t && ("%%" + t)[2..] == t && ("%s" + t)[2..] == t;
  }

  lemma {:induction false} ReadLiteral(lit: string, t: string)
    ensures Read(DoublePercents(lit) + t) == Prepend(Characters(lit), Read(t))
  {
    if lit == "" {
      assert DoublePercents(lit) + t == t;
      if Read(t).Some? { assert Characters(lit) + Read(t).value == Read(t).value; }
    } else {
      var head := if lit[0] == '%' then "%%" else [lit[0]];
      var rest := DoublePercents(lit[1..]);
      assert (head + rest) + t == head + (rest + t);
      ReadOne(lit[0], rest + t);
      ReadLiteral(lit[1..], t);
      if Read(t).Some? {
        assert [Ch(lit[0])] + (Characters(lit[1..]) + Read(t).value) == Characters(lit) + Read(t).value;
      }
    }
  }

  lemma MeaningSplit(s: string, i: nat, e: nat)
    requires i < e <= |s|
    requires LiteralMask(s, i) == (if LiteralAt(s, i) == Some(e) then seq(e - i, _ => true) else [false]) +
      LiteralMask(s, e)
    requires LiteralAt(s, i) == Some(e) || (LiteralAt(s, i) == None && e == i + 1)
    ensures Meaning(s[i..], LiteralMask(s, i)) ==
      (if LiteralAt(s, i) == Some(e) then Characters(s[i..e]) else [if s[i] == '?' then Slot else Ch(s[i])])
      + Meaning(s[e..], LiteralMask(s, e))
  {
  }

  /** Psycopg reads the translation of s[i..] as SQLite reads s[i..]. */
  predicate KeepsMeaning(s: string, i: nat)
    requires i <= |s|
  {
    Read(TranslateFrom(s, i, true)) == Some(Meaning(s[i..], LiteralMask(s, i)))
  }

  lemma LiteralKeepsMeaning(s: string, i: nat, e: nat)
    requires i < |s| && LiteralAt(s, i) == Some(e) && KeepsMeaning(s, e)
    ensures KeepsMeaning(s, i)
  {
    ReadLiteral(s[i..e], TranslateFrom(s, e, true));
    MeaningSplit(s, i, e);
  }

  lemma CharacterKeepsMeaning(s: string, i: nat)
    requires i < |s| && LiteralAt(s, i) == None && KeepsMeaning(s, i + 1)
    ensures KeepsMeaning(s, i)
  {
    ReadOne(s[i], TranslateFrom(s, i + 1, true));
    MeaningSplit(s, i, i + 1);
  }

  lemma {:induction false} TranslateFromKeepsMeaning(s: string, i: nat)
    requires i <= |s|
    ensures KeepsMeaning(s, i)
    decreases |s| - i
  {
    if i == |s| {
      assert Meaning(s[i..], LiteralMask(s, i)) == [];
    } else {
      match LiteralAt(s, i)
      case Some(e) =>
        TranslateFromKeepsMeaning(s, e);
        LiteralKeepsMeaning(s, i, e);
      case None =>
        TranslateFromKeepsMeaning(s, i + 1);
        CharacterKeepsMeaning(s, i);
    }
  }

  /** Placeholder translation preserves meaning, for every text: psycopg reads back the original
      characters with a slot at exactly each ? outside quoted literals, and never rejects the result. */
  lemma TranslateKeepsMeaning(sql: string)
    ensures Read(Translate(sql, true)) == Some(Meaning(sql, LiteralMask(sql, 0)))
  {
    TranslateFromKeepsMeaning(sql, 0);
    assert sql[0..] == sql;
  }

  predicate HasSlot(s: string, i: nat)
    requires i <= |s|
  {
    Slot in Meaning(s[i..], LiteralMask(s, i))
  }

  lemma HasSlotStep(s: string, i: nat, e: nat)
    requires i < |s| && e == match LiteralAt(s, i) { case Some(end) => end case None => i + 1 }
    ensures HasSlot(s, i) <==> (LiteralAt(s, i).None? && s[i] == '?') || HasSlot(s, e)
  {
    MeaningSplit(s, i, e);
    var head := if LiteralAt(s, i) == Some(e) then Characters(s[i..e]) else [if s[i] == '?' then Slot else Ch(s[i])];
    var tail := Meaning(s[e..], LiteralMask(s, e));
    assert Slot in head + tail <==> Slot in head || Slot in tail;
    assert Slot in head <==> LiteralAt(s, i).None? && s[i] == '?';
  }

  /** Without parameters psycopg does not interpret %, so the text must come through untouched:
      it does exactly when it has no ? outside literals. */
  lemma {:induction false} NoParamsUntouched(s: string, i: nat)
    requires i <= |s|
    ensures |TranslateFrom(s, i, false)| >= |s| - i
    ensures |TranslateFrom(s, i, false)| == |s| - i <==> Slot !in Meaning(s[i..], LiteralMask(s, i))
    ensures TranslateFrom(s, i, false) == s[i..] <==> Slot !in Meaning(s[i..], LiteralMask(s, i))
    decreases |s| - i
  {
    if i < |s| {
      var e := match LiteralAt(s, i) { case Some(end) => end case None => i + 1 };
      NoParamsUntouched(s, e);
      HasSlotStep(s, i, e);
      assert s[i..] == s[i..e] + s[e..];
    }
  }

  // ---------------------------------------------------------------- piece by piece

  lemma {:induction false} LiteralEndShifts(p: string, s: string, j: nat, q: char)
    requires j <= |s|
    ensures LiteralEnd(p + s, |p| + j, q) ==
      match LiteralEnd(s, j, q) { case Some(e) => Some(|p| + e) case None => None }
    decreases |s| - j
  {
    if j < |s| {
      LiteralEndShifts(p, s, j + 1, q);
      if j + 1 < |s| { LiteralEndShifts(p, s, j + 2, q); }
      assert (p + s)[|p| + j] == s[j] && (j + 1 < |s| ==> (p + s)[|p| + j + 1] == s[j + 1]);
    }
  }

  lemma LiteralAtShifts(p: string, s: string, i: nat)
    requires i < |s|
    ensures LiteralAt(p + s, |p| + i) ==
      match LiteralAt(s, i) { case Some(e) => Some(|p| + e) case None => None }
  {
    assert (p + s)[|p| + i] == s[i];
    LiteralEndShifts(p, s, i + 1, s[i]);
  }

  /** Where the next step from i ends, and what it puts out. */
  function NextStep(s: string, i: nat): (e: nat)
    requires i < |s|
    ensures i < e <= |s|
  {
    match LiteralAt(s, i)
    case Some(e) => e
    case None => i + 1
  }

  function StepText(s: string, i: nat, hasParams: bool): string
    requires i < |s|
  {
    if LiteralAt(s, i).Some? then
      if hasParams then DoublePercents(s[i..NextStep(s, i)]) else s[i..NextStep(s, i)]
    else if s[i] == '?' then "%s"
    else if s[i] == '%' && hasParams then "%%"
    else [s[i]]
  }

  lemma TranslateStep(s: string, i: nat, hasParams: bool)
    requires i < |s|
    ensures TranslateFrom(s, i, hasParams) == StepText(s, i, hasParams) + TranslateFrom(s, NextStep(s, i), hasParams)
  {
  }

  lemma StepShifts(p: string, s: string, i: nat, hasParams: bool)
    requires i < |s|
    ensures NextStep(p + s, |p| + i) == |p| + NextStep(s, i)
    ensures StepText(p + s, |p| + i, hasParams) == StepText(s, i, hasParams)
  {
    LiteralAtShifts(p, s, i);
    var e := NextStep(s, i);
    assert (p + s)[|p| + i] == s[i] && (p + s)[|p| + i..|p| + e] == s[i..e];
  }

  lemma {:induction false} TranslateShifts(p: string, s: string, i: nat, hasParams: bool)
    requires i <= |s|
    ensures TranslateFrom(p + s, |p| + i, hasParams) == TranslateFrom(s, i, hasParams)
    decreases |s| - i
  {
    if i < |s| {
      StepShifts(p, s, i, hasParams);
      TranslateStep(s, i, hasParams);
      TranslateStep(p + s, |p| + i, hasParams);
      TranslateShifts(p, s, NextStep(s, i), hasParams);
    }
  }

  /** Outside quotes a question mark becomes %s and, when there are parameters, a percent sign is doubled; every
      other character is kept. */
  lemma UnquotedCharacter(c: char, rest: string, hasParams: bool)
    requires c != '\'' && c != '"'
    ensures Translate([c] + rest, hasParams) ==
      (if c == '?' then "%s" else if c == '%' && hasParams then "%%" else [c]) + Translate(rest, hasParams)
  {
    assert ([c] + rest)[0] == c;
    TranslateShifts([c], rest, 0, hasParams);
  }

  lemma {:induction false} DoublePercentsAdds(a: string, b: string)
    ensures DoublePercents(a + b) == DoublePercents(a) + DoublePercents(b)
  {
    if a == "" {
      assert a + b == b;
    } else {
      assert (a + b)[1..] == a[1..] + b;
      DoublePercentsAdds(a[1..], b);
    }
  }

  lemma {:induction false} NoPercents(a: string)
    requires '%' !in a
    ensures DoublePercents(a) == a
  {
    if a != "" { NoPercents(a[1..]); }
  }

  /** Every percent sign is doubled, and nothing else changes. */
  lemma PercentIsDoubled(a: string, b: string)
    requires '%' !in a
    ensures DoublePercents(a) == a && DoublePercents(a + "%" + b) == a + "%%" + DoublePercents(b)
  {
    NoPercents(a);
    DoublePercentsAdds(a, "%" + b);
    assert a + "%" + b == a + ("%" + b) && ("%" + b)[1..] == b;
  }

  lemma {:induction false} LiteralEndsAt(inner: string, q: char, rest: string, j: nat)
    requires q !in inner && (rest == "" || rest[0] != q) && j <= |inner|
    ensures LiteralEnd(inner + [q] + rest, j, q) == Some(|inner| + 1)
    decreases |inner| - j
  {
    var s := inner + [q] + rest;
    if j < |inner| {
      assert s[j] == inner[j];
      LiteralEndsAt(inner, q, rest, j + 1);
    } else {
      assert s[j] == q && (rest != "" ==> s[j + 1] == rest[0]);
    }
  }

  lemma WholeLiteral(q: char, inner: string, rest: string)
    requires IsQuote(q) && q !in inner && (rest == "" || rest[0] != q)
    ensures LiteralAt([q] + inner + [q] + rest, 0) == Some(|inner| + 2)
  {
    LiteralEndsAt(inner, q, rest, 0);
    LiteralEndShifts([q], inner + [q] + rest, 0, q);
    assert [q] + inner + [q] + rest == [q] + (inner + [q] + rest);
  }

  /** A text in single or double quotes comes through with its question marks, its percent signs doubled only when
      there are parameters. */
  lemma QuotedText(q: char, inner: string, rest: string, hasParams: bool)
    requires (q == '\'' || q == '"') && q !in inner && (rest == "" || rest[0] != q)
    ensures Translate([q] + inner + [q] + rest, hasParams) ==
      (if hasParams then DoublePercents([q] + inner + [q]) else [q] + inner + [q]) + Translate(rest, hasParams)
  {
    var literal := [q] + inner + [q];
    WholeLiteral(q, inner, rest);
    TranslateStep(literal + rest, 0, hasParams);
    TranslateShifts(literal, rest, 0, hasParams);
    assert (literal + rest)[0..|literal|] == literal;
  }
}
