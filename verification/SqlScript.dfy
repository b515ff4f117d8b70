/** split_script of storage/sql_backend.py: a quote-toggling scanner that cuts on top-level semicolons. */
module SqlScript {
  import opened Options
  import opened SqlTranslate

  // ---------------------------------------------------------------- the toggle scanner

  /** The scanner's `quote` variable after reading c. */
  function Toggle(quote: Option<char>, c: char): Option<char> {
    match quote
    case Some(q) => if c == q then None else quote
    case None => if IsQuote(c) then Some(c) else None
  }

  /** Quote state after reading s[i..j] from state quote. */
  function ScanQuote(s: string, quote: Option<char>): Option<char> {
    if s == "" then quote else ScanQuote(s[1..], Toggle(quote, s[0]))
  }

  predicate Balanced(s: string) {
    ScanQuote(s, None) == None
  }

  /** Which characters of s[i..] the scanner sees as inside a literal, delimiters included. */
  function ToggleMask(s: string, i: nat, quote: Option<char>): (m: seq<bool>)
    requires i <= |s|
    ensures |m| == |s| - i
    decreases |s| - i
  {
    if i == |s| then []
    else [quote.Some? || IsQuote(s[i])] + ToggleMask(s, i + 1, Toggle(quote, s[i]))
  }

  lemma ScanStep(s: string, i: nat, quote: Option<char>)
    requires i < |s|
    ensures ScanQuote(s[i..], quote) == ScanQuote(s[i + 1..], Toggle(quote, s[i]))
  {
    assert s[i..][0] == s[i] && s[i..][1..] == s[i + 1..];
  }

  /** While the pattern matches a literal the scanner stays inside one, and both leave it together. */
  lemma {:induction false} LiteralInStep(s: string, j: nat, q: char)
    requires j <= |s| && IsQuote(q)
    ensures match LiteralEnd(s, j, q)
      case Some(e) =>
        && ToggleMask(s, j, Some(q)) == seq(e - j, _ => true) + ToggleMask(s, e, None)
        && ScanQuote(s[j..], Some(q)) == ScanQuote(s[e..], None)
      case None => ScanQuote(s[j..], Some(q)).Some?
    decreases |s| - j
  {
    if j < |s| {
      ScanStep(s, j, Some(q));
      if s[j] != q {
        LiteralInStep(s, j + 1, q);
      } else if j + 1 < |s| && s[j + 1] == q {
        ScanStep(s, j + 1, None);
        LiteralInStep(s, j + 2, q);
        assert Toggle(None, s[j + 1]) == Some(q);
      }
    }
  }

  lemma CancelHead(head: seq<bool>, a: seq<bool>, b: seq<bool>)
    ensures head + a == head + b <==> a == b
  {
    assert (head + a)[|head|..] == a && (head + b)[|head|..] == b;
  }

  /** A matched literal: both mark it, and both go on after it. */
  lemma LiteralMasks(s: string, i: nat, e: nat) returns (head: seq<bool>)
    requires i < |s| && LiteralAt(s, i) == Some(e)
    ensures ToggleMask(s, i, None) == head + ToggleMask(s, e, None) && LiteralMask(s, i) == head + LiteralMask(s, e)
    ensures ScanQuote(s[i..], None) == ScanQuote(s[e..], None)
  {
    head := seq(e - i, _ => true);
    ScanStep(s, i, None);
    LiteralInStep(s, i + 1, s[i]);
    var inner := seq(e - (i + 1), _ => true);
    assert [true] + inner == head;
    assert [true] + (inner + ToggleMask(s, e, None)) == head + ToggleMask(s, e, None);
  }

  /** The scanner and the literal pattern of `translate` mark the same characters
      exactly when every quote is closed. */
  lemma {:induction false} MasksAgree(s: string, i: nat)
    requires i <= |s|
    ensures ToggleMask(s, i, None) == LiteralMask(s, i) <==> Balanced(s[i..])
    decreases |s| - i
  {
    if i < |s| {
      match LiteralAt(s, i)
      case Some(e) =>
        var head := LiteralMasks(s, i, e);
        MasksAgree(s, e);
        CancelHead(head, ToggleMask(s, e, None), LiteralMask(s, e));
      case None =>
        ScanStep(s, i, None);
        if IsQuote(s[i]) {
          LiteralInStep(s, i + 1, s[i]);
          assert ToggleMask(s, i, None)[0] && !LiteralMask(s, i)[0];
        } else {
          MasksAgree(s, i + 1);
          CancelHead([false], ToggleMask(s, i + 1, None), LiteralMask(s, i + 1));
        }
    }
  }

  // ---------------------------------------------------------------- strip

  /** The characters str.strip() removes. */
  predicate IsSpace(c: char) {
    '\t' <= c <= '\r' || '\U{1C}' <= c <= ' ' || c == '\U{85}' || c == '\U{A0}' || c == '\U{1680}'
    || '\U{2000}' <= c <= '\U{200A}' || c == '\U{2028}' || c == '\U{2029}' || c == '\U{202F}'
    || c == '\U{205F}' || c == '\U{3000}'
  }

  function StripLeft(s: string): string {
    if s != "" && IsSpace(s[0]) then StripLeft(s[1..]) else s
  }

  function StripRight(s: string): string {
    if s != "" && IsSpace(s[|s| - 1]) then StripRight(s[..|s| - 1]) else s
  }

  function Strip(s: string): string { StripRight(StripLeft(s)) }

  predicate Trimmed(s: string) {
    s != "" ==> !IsSpace(s[0]) && !IsSpace(s[|s| - 1])
  }

  predicate Blank(s: string) {
    forall k :: 0 <= k < |s| ==> IsSpace(s[k])
  }

  lemma {:induction false} StripLeftSplits(s: string) returns (left: string)
    ensures Blank(left) && s == left + StripLeft(s)
    ensures StripLeft(s) != "" ==> !IsSpace(StripLeft(s)[0])
  {
    if s != "" && IsSpace(s[0]) {
      var rest := StripLeftSplits(s[1..]);
      left := [s[0]] + rest;
    } else {
      left := "";
    }
  }

  lemma {:induction false} StripRightSplits(s: string) returns (right: string)
    ensures Blank(right) && s == StripRight(s) + right
    ensures StripRight(s) != "" ==> !IsSpace(StripRight(s)[|StripRight(s)| - 1])
  {
    if s != "" && IsSpace(s[|s| - 1]) {
      var rest := StripRightSplits(s[..|s| - 1]);
      right := rest + [s[|s| - 1]];
    } else {
      right := "";
    }
  }

  /** strip() removes whitespace around a text that has none at its ends, and nothing else. */
  lemma StripSplits(s: string) returns (left: string, right: string)
    ensures Blank(left) && Blank(right) && s == left + Strip(s) + right && Trimmed(Strip(s))
  {
    left := StripLeftSplits(s);
    right := StripRightSplits(StripLeft(s));
  }

  lemma TrimmedStaysPut(s: string)
    requires Trimmed(s)
    ensures Strip(s) == s
  {
  }

  // ---------------------------------------------------------------- cutting

  /** s[i..] cut at every semicolon outside quotes. */
  function Cut(s: string, quote: Option<char>): (pieces: seq<string>)
    ensures |pieces| >= 1
  {
    if s == "" then [""]
    else if quote == None && s[0] == ';' then [""] + Cut(s[1..], None)
    else WithHead([s[0]], Cut(s[1..], Toggle(quote, s[0])))
  }

  function WithHead(head: string, pieces: seq<string>): (r: seq<string>)
    requires |pieces| >= 1
    ensures |r| == |pieces|
  {
    [head + pieces[0]] + pieces[1..]
  }

  function Join(pieces: seq<string>): string {
    if pieces == [] then "" else if |pieces| == 1 then pieces[0] else pieces[0] + (";" + Join(pieces[1..]))
  }

  /** What is kept of the pieces: each stripped, blanks dropped. */
  function Statements(pieces: seq<string>): seq<string> {
    if pieces == [] then []
    else (if Strip(pieces[0]) == "" then [] else [Strip(pieces[0])]) + Statements(pieces[1..])
  }

  /** No semicolon outside quotes, read from state quote. */
  predicate Quiet(s: string, quote: Option<char>) {
    s == "" || (!(quote == None && s[0] == ';') && Quiet(s[1..], Toggle(quote, s[0])))
  }

  lemma WithHeadTwice(head: string, c: char, pieces: seq<string>)
    requires |pieces| >= 1
    ensures WithHead(head, WithHead([c], pieces)) == WithHead(head + [c], pieces)
    ensures WithHead("", pieces) == pieces
  {
    assert head + ([c] + pieces[0]) == (head + [c]) + pieces[0];
    assert "" + pieces[0] == pieces[0];
  }

  lemma Associative(a: string, b: string, c: string)
    ensures (a + b) + c == a + (b + c)
  {
  }

  lemma JoinWithHead(head: string, pieces: seq<string>)
    requires |pieces| >= 1
    ensures Join(WithHead(head, pieces)) == head + Join(pieces)
  {
    var r := WithHead(head, pieces);
    assert r[1..] == pieces[1..];
    if |pieces| > 1 {
      Associative(head, pieces[0], ";" + Join(pieces[1..]));
    }
  }

  lemma JoinAfterCut(pieces: seq<string>)
    requires |pieces| >= 1
    ensures Join([""] + pieces) == ";" + Join(pieces)
  {
    assert ([""] + pieces)[1..] == pieces;
    assert "" + (";" + Join(pieces)) == ";" + Join(pieces);
  }

  /** Nothing is lost or invented by cutting. */
  lemma {:induction false} CutIsFaithful(s: string, quote: Option<char>)
    ensures Join(Cut(s, quote)) == s
  {
    if s != "" {
      if quote == None && s[0] == ';' {
        CutIsFaithful(s[1..], None);
        JoinAfterCut(Cut(s[1..], None));
        assert ";" + s[1..] == s;
      } else {
        CutIsFaithful(s[1..], Toggle(quote, s[0]));
        JoinWithHead([s[0]], Cut(s[1..], Toggle(quote, s[0])));
      }
    }
  }

  /** Every piece is free of top-level semicolons and, except the last, leaves no quote open. */
  predicate PiecesOk(pieces: seq<string>, quote: Option<char>)
    requires |pieces| >= 1
  {
    && Quiet(pieces[0], quote)
    && (|pieces| > 1 ==> ScanQuote(pieces[0], quote) == None && PiecesOk(pieces[1..], None))
  }

  /** Every cut is made at a semicolon outside quotes, and none of those is left. */
  lemma {:induction false} CutIsMaximal(s: string, quote: Option<char>)
    ensures PiecesOk(Cut(s, quote), quote)
  {
    if s != "" {
      var pieces := Cut(s, quote);
      if quote == None && s[0] == ';' {
        CutIsMaximal(s[1..], None);
        assert pieces[1..] == Cut(s[1..], None);
      } else {
        var rest := Cut(s[1..], Toggle(quote, s[0]));
        CutIsMaximal(s[1..], Toggle(quote, s[0]));
        assert pieces[0][0] == s[0] && pieces[0][1..] == rest[0] && pieces[1..] == rest[1..];
      }
    }
  }

  lemma {:induction false} CutQuiet(head: string, tail: string, quote: Option<char>)
    requires Quiet(head, quote)
    ensures Cut(head + tail, quote) == WithHead(head, Cut(tail, ScanQuote(head, quote)))
  {
    if head == "" {
      assert head + tail == tail;
      WithHeadTwice("", ' ', Cut(tail, quote));
    } else {
      assert (head + tail)[1..] == head[1..] + tail;
      CutQuiet(head[1..], tail, Toggle(quote, head[0]));
      var rest := Cut(tail, ScanQuote(head, quote));
      assert [head[0]] + (head[1..] + rest[0]) == head + rest[0];
    }
  }

  /** Cutting undoes joining, for any pieces that are quiet and - except perhaps the last - balanced. */
  lemma {:induction false} CutUndoesJoin(pieces: seq<string>)
    requires |pieces| >= 1
    requires forall k :: 0 <= k < |pieces| ==> Quiet(pieces[k], None)
    requires forall k :: 0 <= k < |pieces| - 1 ==> Balanced(pieces[k])
    ensures Cut(Join(pieces), None) == pieces
  {
    if |pieces| == 1 {
      CutQuiet(pieces[0], "", None);
      assert pieces[0] + "" == pieces[0];
      assert Cut("", ScanQuote(pieces[0], None)) == [""];
    } else {
      var tail := ";" + Join(pieces[1..]);
      CutQuiet(pieces[0], tail, None);
      assert tail[1..] == Join(pieces[1..]);
      CutUndoesJoin(pieces[1..]);
      assert pieces[0] + "" == pieces[0];
    }
  }

  // ---------------------------------------------------------------- split_script

  function Kept(piece: string): seq<string> {
    if Strip(piece) == "" then [] else [Strip(piece)]
  }

  /** What is still to be output when s[i..] is unread and `current` holds the piece so far. */
  function Pending(current: string, s: string, i: nat, quote: Option<char>): seq<string>
    requires i <= |s|
    decreases |s| - i
  {
    if i == |s| then Kept(current)
    else if quote == None && s[i] == ';' then Kept(current) + Pending("", s, i + 1, None)
    else Pending(current + [s[i]], s, i + 1, Toggle(quote, s[i]))
  }

  lemma StatementsCons(piece: string, rest: seq<string>)
    ensures Statements([piece] + rest) == Kept(piece) + Statements(rest)
  {
    assert ([piece] + rest)[1..] == rest;
  }

  lemma {:induction false} PendingIsCut(current: string, s: string, i: nat, quote: Option<char>)
    requires i <= |s|
    ensures Pending(current, s, i, quote) == Statements(WithHead(current, Cut(s[i..], quote)))
    decreases |s| - i
  {
    assert current + "" == current;
    if i == |s| {
      StatementsCons(current, []);
      assert WithHead(current, [""]) == [current] + [];
    } else {
      assert s[i..][0] == s[i] && s[i..][1..] == s[i + 1..];
      var rest := Cut(s[i + 1..], Toggle(quote, s[i]));
      if quote == None && s[i] == ';' {
        PendingIsCut("", s, i + 1, None);
        WithHeadTwice("", ' ', rest);
        StatementsCons(current, rest);
        assert WithHead(current, [""] + rest) == [current] + rest;
      } else {
        PendingIsCut(current + [s[i]], s, i + 1, Toggle(quote, s[i]));
        WithHeadTwice(current, s[i], rest);
      }
    }
  }

  method SplitScript(script: string) returns (statements: seq<string>)
    ensures statements == Statements(Cut(script, None))
  {
    statements := [];
    var current := "";
    var quote: Option<char> := None;
    var i := 0;
    while i < |script|
      invariant 0 <= i <= |script|
      invariant Pending("", script, 0, None) == statements + Pending(current, script, i, quote)
    {
      var c := script[i];
      if quote.Some? {
        current := current + [c];
        if c == quote.value { quote := None; }
      } else if c == '\'' || c == '"' {
        quote := Some(c);
        current := current + [c];
      } else if c == ';' {
        var statement := Strip(current);
        if statement != "" { statements := statements + [statement]; }
        current := "";
      } else {
        current := current + [c];
      }
      i := i + 1;
    }
    var tail := Strip(current);
    if tail != "" { statements := statements + [tail]; }
    PendingIsCut("", script, 0, None);
    WithHeadTwice("", ' ', Cut(script, None));
    assert script[0..] == script;
  }

  /** A piece is dropped exactly when it holds nothing but whitespace. */
  lemma DroppedIffBlank(piece: string)
    ensures Strip(piece) == "" <==> Blank(piece)
  {
    var left, right := StripSplits(piece);
    if Strip(piece) != "" {
      assert piece[|left|] == Strip(piece)[0];
    }
  }

  /** Every statement is one of the pieces without its outer whitespace, and none is empty. */
  lemma {:induction false} StatementIsPiece(pieces: seq<string>, k: nat) returns (i: nat, left: string, right: string)
    requires k < |Statements(pieces)|
    ensures i < |pieces| && pieces[i] == left + Statements(pieces)[k] + right
    ensures Blank(left) && Blank(right) && Statements(pieces)[k] != "" && Trimmed(Statements(pieces)[k])
  {
    if Strip(pieces[0]) != "" && k == 0 {
      i := 0;
      left, right := StripSplits(pieces[0]);
    } else {
      i, left, right := StatementIsPiece(pieces[1..], if Strip(pieces[0]) == "" then k else k - 1);
      i := i + 1;
    }
  }

  lemma {:induction false} KeptAsIs(pieces: seq<string>)
    requires forall k :: 0 <= k < |pieces| ==> pieces[k] != "" && Trimmed(pieces[k])
    ensures Statements(pieces) == pieces
    ensures Statements(pieces + [""]) == pieces
  {
    if pieces == [] {
      assert Statements([""]) == [];
    } else {
      TrimmedStaysPut(pieces[0]);
      KeptAsIs(pieces[1..]);
      assert (pieces + [""])[1..] == pieces[1..] + [""];
    }
  }

  lemma {:induction false} JoinTerminated(pieces: seq<string>)
    requires |pieces| >= 1
    ensures Join(pieces + [""]) == Join(pieces) + ";"
  {
    assert (pieces + [""])[1..] == pieces[1..] + [""];
    if |pieces| > 1 {
      JoinTerminated(pieces[1..]);
    } else {
      assert Join(pieces[1..] + [""]) == "";
    }
  }

  lemma NothingToSplit()
    ensures Statements(Cut("", None)) == [] && Statements(Cut(";", None)) == []
  {
    assert ";"[1..] == "" && ["", ""][1..] == [""] && [""][1..] == [];
    assert Cut("", None) == [""];
    assert Cut(";", None) == ["", ""];
    assert Statements([""]) == [];
  }

  /** A statement as one writes it: trimmed, quotes closed, no semicolon outside them. */
  predicate WellFormed(t: string) {
    t != "" && Trimmed(t) && Balanced(t) && Quiet(t, None)
  }

  lemma CutTerminated(statements: seq<string>)
    requires statements != [] && forall k :: 0 <= k < |statements| ==> WellFormed(statements[k])
    ensures Cut(Join(statements) + ";", None) == statements + [""]
  {
    var longer := statements + [""];
    forall k | 0 <= k < |longer| ensures Quiet(longer[k], None) && (k < |longer| - 1 ==> Balanced(longer[k])) {
      if k < |statements| { assert WellFormed(longer[k]); }
    }
    CutUndoesJoin(longer);
    JoinTerminated(statements);
  }

  lemma KeptWhole(statements: seq<string>)
    requires forall k :: 0 <= k < |statements| ==> WellFormed(statements[k])
    ensures Statements(statements) == statements
    ensures Statements(statements + [""]) == statements
  {
    KeptAsIs(statements);
  }

  /** Splitting a script of well-formed statements returns them... */
  lemma SplitUndoesJoin(statements: seq<string>)
    requires forall k :: 0 <= k < |statements| ==> WellFormed(statements[k])
    ensures Statements(Cut(Join(statements), None)) == statements
  {
    if statements == [] {
      NothingToSplit();
    } else {
      CutUndoesJoin(statements);
      KeptWhole(statements);
    }
  }

  /** ... also with a final semicolon. */
  lemma SplitTerminated(statements: seq<string>)
    requires forall k :: 0 <= k < |statements| ==> WellFormed(statements[k])
    ensures Statements(Cut(Join(statements) + ";", None)) == statements
  {
    if statements == [] {
      NothingToSplit();
      assert Join(statements) + ";" == ";";
    } else {
      CutTerminated(statements);
      KeptWhole(statements);
    }
  }

  // ---------------------------------------------------------------- piece by piece

  lemma {:induction false} PlainIsQuiet(a: string)
    requires forall k :: 0 <= k < |a| ==> a[k] != '\'' && a[k] != '"' && a[k] != ';'
    ensures Quiet(a, None) && ScanQuote(a, None) == None
  {
    if a != "" { PlainIsQuiet(a[1..]); }
  }

  lemma {:induction false} InnerIsQuiet(inner: string, q: char)
    requires q !in inner
    ensures Quiet(inner + [q], Some(q)) && ScanQuote(inner + [q], Some(q)) == None
  {
    if inner == "" {
      assert inner + [q] == [q] && [q][1..] == "";
    } else {
      assert (inner + [q])[1..] == inner[1..] + [q];
      InnerIsQuiet(inner[1..], q);
    }
  }

  /** A semicolon outside quotes ends a piece... */
  lemma CutsAtSemicolon(a: string, rest: string)
    requires forall k :: 0 <= k < |a| ==> a[k] != '\'' && a[k] != '"' && a[k] != ';'
    ensures Cut(a + ";" + rest, None) == [a] + Cut(rest, None)
    ensures Cut(a, None) == [a]
  {
    PlainIsQuiet(a);
    CutQuiet(a, ";" + rest, None);
    CutQuiet(a, "", None);
    assert a + (";" + rest) == a + ";" + rest && (";" + rest)[1..] == rest;
    assert a + "" == a && Cut("", None) == [""];
  }

  /** ... and what single or double quotes enclose stays in one. */
  lemma QuotedStaysWhole(q: char, inner: string, rest: string)
    requires (q == '\'' || q == '"') && q !in inner
    ensures var quoted := [q] + inner + [q];
      Cut(quoted + rest, None) == [quoted + Cut(rest, None)[0]] + Cut(rest, None)[1..]
  {
    var quoted := [q] + inner + [q];
    InnerIsQuiet(inner, q);
    assert quoted[0] == q && quoted[1..] == inner + [q];
    CutQuiet(quoted, rest, None);
  }

  lemma {:induction false} StripLeftOf(left: string, s: string)
    requires forall k :: 0 <= k < |left| ==> left[k] in {' ', '\t', '\n', '\r'}
    requires s == "" || '!' <= s[0] <= '~'
    ensures StripLeft(left + s) == s
  {
    if left == "" {
      assert left + s == s;
    } else {
      assert (left + s)[1..] == left[1..] + s;
      StripLeftOf(left[1..], s);
    }
  }

  lemma {:induction false} StripRightOf(s: string, right: string)
    requires forall k :: 0 <= k < |right| ==> right[k] in {' ', '\t', '\n', '\r'}
    requires s == "" || '!' <= s[|s| - 1] <= '~'
    ensures StripRight(s + right) == s
  {
    if right == "" {
      assert s + right == s;
    } else {
      assert (s + right)[..|s + right| - 1] == s + right[..|right| - 1];
      StripRightOf(s, right[..|right| - 1]);
    }
  }

  /** Blanks, tabs and line ends around a statement go, and a piece of nothing else is no statement. */
  lemma OuterSpaceGoes(left: string, s: string, right: string)
    requires forall k :: 0 <= k < |left| ==> left[k] in {' ', '\t', '\n', '\r'}
    requires forall k :: 0 <= k < |right| ==> right[k] in {' ', '\t', '\n', '\r'}
    requires s == "" || ('!' <= s[0] <= '~' && '!' <= s[|s| - 1] <= '~')
    ensures Strip(left + s + right) == s
    ensures Statements([left + s + right]) == if s == "" then [] else [s]
  {
    var piece := left + s + right;
    if s == "" {
      StripLeftOf(left + right, "");
      assert piece == left + right + "";
      assert forall k :: 0 <= k < |piece| ==> piece[k] in {' ', '\t', '\n', '\r'};
    } else {
      StripLeftOf(left, s + right);
      assert piece == left + (s + right);
      StripRightOf(s, right);
    }
    assert [piece][1..] == [] && Strip(piece) == s;
  }
}
