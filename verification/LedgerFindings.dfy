/** Ingestion findings of connectors/core/ledger.py: record_ingestion_assessments and
    delete_findings_with_prefix over the findings table and its evidence table. */
module LedgerFindings {
  import opened Options
  import opened LikePrefix

  datatype FindingStatus = Open | Stale

  datatype Finding = Finding(
    recordKey: string, chunkId: string, kind: string, severity: string, status: FindingStatus, title: string,
    summary: string, reasoning: string, confidence: real, properties: string,
    createdAt: real, updatedAt: real, staleAt: Option<real>, staleReason: Option<string>)

  datatype Evidence = Evidence(chunkId: string, excerpt: string)

  /** ingestion_findings by finding_key; ingestion_finding_evidence by (finding_key, record_key, role). */
  datatype Desk = Desk(findings: map<string, Finding>, evidence: map<(string, string, string), Evidence>)

  const ROLE := "new_evidence"

  const STALE_REASON := "The evidence chunk was reprocessed and no longer produced this finding."

  /** One judgement; a missing text is "", a missing confidence 0. `topic` is the topic key or title,
      lower-cased, and `properties` the JSON of the fields that only travel. */
  datatype Assessment = Assessment(
    shouldFlag: bool, action: string, topic: string, severity: string, title: string, summary: string,
    reasoning: string, confidence: real, properties: string, evidence: string)

  /** value or default */
  function Or(value: string, default: string): string { if value == "" then default else value }

  function Action(a: Assessment): string { Or(a.action, "review") }

  // ---------------------------------------------------------------- finding keys

  predicate SlugChar(c: char) { 'a' <= c <= 'z' || '0' <= c <= '9' || c == '-' }

  predicate WordChar(c: char) { SlugChar(c) && c != '-' }

  /** Runs of other characters become one dash; none leads. */
  function Dashed(s: string): (r: string)
    ensures forall k :: 0 <= k < |r| ==> SlugChar(r[k])
  {
    if s == "" then ""
    else
      var r, c := Dashed(s[..|s| - 1]), s[|s| - 1];
      if WordChar(c) then r + [c]
      else if r == "" || r[|r| - 1] == '-' then r
      else r + "-"
  }

  function Stripped(d: string): string {
    if d != "" && d[|d| - 1] == '-' then d[..|d| - 1] else d
  }

  function Slug(topic: string): (k: string)
    ensures 1 <= |k| <= 100 && forall i :: 0 <= i < |k| ==> SlugChar(k[i])
  {
    var words := Stripped(Dashed(topic));
    var cut := if |words| <= 100 then words else words[..100];
    if cut == "" then "finding" else cut
  }

  /** The maximal runs of word characters. */
  function Words(s: string): (w: seq<string>)
    ensures forall k :: 0 <= k < |w| ==> w[k] != "" && forall i :: 0 <= i < |w[k]| ==> WordChar(w[k][i])
  {
    if s == "" then []
    else
      var w, c := Words(s[..|s| - 1]), s[|s| - 1];
      if !WordChar(c) then w
      else if |s| >= 2 && WordChar(s[|s| - 2]) && w != [] then w[..|w| - 1] + [w[|w| - 1] + [c]]
      else w + [[c]]
  }

  function Hyphenated(w: seq<string>): string {
    if w == [] then "" else if |w| == 1 then w[0] else Hyphenated(w[..|w| - 1]) + "-" + w[|w| - 1]
  }

  lemma HyphenatedLast(w: seq<string>, last: string, more: string)
    ensures Hyphenated(w + [last + more]) == Hyphenated(w + [last]) + more
    ensures w != [] ==> Hyphenated(w + [last]) == Hyphenated(w) + "-" + last
  {
    assert (w + [last + more])[..|w|] == w && (w + [last])[..|w|] == w;
    assert w != [] ==> (Hyphenated(w) + "-") + (last + more) == ((Hyphenated(w) + "-") + last) + more;
  }

  lemma {:induction false} WordsEnd(s: string)
    requires s != "" && WordChar(s[|s| - 1])
    ensures Words(s) != []
  {
  }

  lemma HyphenatedEnds(w: seq<string>)
    requires w != [] && forall k :: 0 <= k < |w| ==> w[k] != "" && forall i :: 0 <= i < |w[k]| ==> WordChar(w[k][i])
    ensures Hyphenated(w) != "" && Hyphenated(w)[|Hyphenated(w)| - 1] != '-'
  {
    var last := w[|w| - 1];
    assert Hyphenated(w)[|Hyphenated(w)| - 1] == last[|last| - 1];
  }

  /** Dashing a text writes its words with dashes between, and one more if other characters follow the last. */
  predicate DashesWords(s: string) {
    Dashed(s) == Hyphenated(Words(s)) + if Words(s) != [] && !WordChar(s[|s| - 1]) then "-" else ""
  }

  lemma WordGoesOn(s: string)
    requires |s| >= 2 && WordChar(s[|s| - 1]) && WordChar(s[|s| - 2]) && DashesWords(s[..|s| - 1])
    ensures DashesWords(s)
  {
    var front, c := s[..|s| - 1], s[|s| - 1];
    var w := Words(front);
    assert front[|front| - 1] == s[|s| - 2];
    WordsEnd(front);
    var head, last := w[..|w| - 1], w[|w| - 1];
    assert w == head + [last];
    HyphenatedLast(head, last, [c]);
    assert Words(s) == head + [last + [c]];
  }

  lemma WordStarts(s: string)
    requires s != "" && WordChar(s[|s| - 1]) && (|s| >= 2 ==> !WordChar(s[|s| - 2])) && DashesWords(s[..|s| - 1])
    ensures DashesWords(s)
  {
    var front, c := s[..|s| - 1], s[|s| - 1];
    var w := Words(front);
    if |s| >= 2 { assert front[|front| - 1] == s[|s| - 2]; }
    assert Words(s) == w + [[c]];
    if w == [] {
      assert w + [[c]] == [[c]];
    } else {
      HyphenatedLast(w, [c], "");
    }
  }

  lemma WordEnds(s: string)
    requires s != "" && !WordChar(s[|s| - 1]) && DashesWords(s[..|s| - 1])
    ensures DashesWords(s)
  {
    var w := Words(s[..|s| - 1]);
    if w != [] { HyphenatedEnds(w); }
  }

  lemma {:induction false} DashedIsWords(s: string)
    ensures DashesWords(s)
  {
    if s != "" {
      DashedIsWords(s[..|s| - 1]);
      if !WordChar(s[|s| - 1]) {
        WordEnds(s);
      } else if |s| >= 2 && WordChar(s[|s| - 2]) {
        WordGoesOn(s);
      } else {
        WordStarts(s);
      }
    }
  }

  /** The slug of a topic is its words joined by dashes, cut at 100 characters; "finding" if it has none. */
  lemma SlugIsWords(topic: string)
    ensures var words := Hyphenated(Words(topic));
      Slug(topic) == if Words(topic) == [] then "finding" else if |words| <= 100 then words else words[..100]
  {
    DashedIsWords(topic);
    if Words(topic) != [] { HyphenatedEnds(Words(topic)); }
    assert Stripped(Dashed(topic)) == Hyphenated(Words(topic));
  }

  /** record_key.split(":", 1)[0] */
  function Provider(r: string): string {
    if r == "" || r[0] == ':' then "" else [r[0]] + Provider(r[1..])
  }

  function FindingKey(r: string, a: Assessment): string {
    "llm:" + Provider(r) + ":" + Action(a) + ":" + Slug(a.topic)
  }

  lemma {:induction false} ProviderHasNoColon(r: string)
    ensures ':' !in Provider(r)
  {
    if r != "" && r[0] != ':' { ProviderHasNoColon(r[1..]); }
  }

  lemma FirstColon(a: string, b: string, x: string, y: string)
    requires ':' !in a && ':' !in b && a + ":" + x == b + ":" + y
    ensures a == b && x == y
  {
    var s := a + ":" + x;
    assert s[|a|] == ':' && s[|b|] == ':';
    assert forall i :: 0 <= i < |a| ==> s[i] == a[i];
    assert forall i :: 0 <= i < |b| ==> s[i] == b[i];
    assert s[..|a|] == a && s[..|b|] == b && s[|a| + 1..] == x && s[|b| + 1..] == y;
  }

  lemma LastColon(a: string, b: string, x: string, y: string)
    requires ':' !in x && ':' !in y && a + ":" + x == b + ":" + y
    ensures a == b && x == y
  {
    var s := a + ":" + x;
    assert s[|a|] == ':' && s[|b|] == ':';
    assert forall i :: |a| < i < |s| ==> s[i] == x[i - |a| - 1];
    assert forall i :: |b| < i < |s| ==> s[i] == y[i - |b| - 1];
    assert s[..|a|] == a && s[..|b|] == b && s[|a| + 1..] == x && s[|b| + 1..] == y;
  }

  lemma Prefixed(p: string, x: string, y: string)
    requires p + x == p + y
    ensures x == y
  {
    assert (p + x)[|p|..] == x && (p + y)[|p|..] == y;
  }

  /** Two judgements share a finding exactly when provider, action and slug agree - whatever records or
      connections they come from. */
  lemma KeysAgreeIff(r: string, a: Assessment, s: string, b: Assessment)
    ensures FindingKey(r, a) == FindingKey(s, b) <==>
      Provider(r) == Provider(s) && Action(a) == Action(b) && Slug(a.topic) == Slug(b.topic)
  {
    var x, y := Action(a) + ":" + Slug(a.topic), Action(b) + ":" + Slug(b.topic);
    KeyIsNested(r, a);
    KeyIsNested(s, b);
    if FindingKey(r, a) == FindingKey(s, b) {
      Prefixed("llm:", Provider(r) + ":" + x, Provider(s) + ":" + y);
      ProviderHasNoColon(r);
      ProviderHasNoColon(s);
      FirstColon(Provider(r), Provider(s), x, y);
      LastColon(Action(a), Action(b), Slug(a.topic), Slug(b.topic));
    }
  }

  lemma KeyIsNested(r: string, a: Assessment)
    ensures FindingKey(r, a) == "llm:" + (Provider(r) + ":" + (Action(a) + ":" + Slug(a.topic)))
  {
  }

  /** The provider is what stands before the first colon, and findings say so. */
  lemma {:induction false} ProviderIsFirstPart(p: string, rest: string)
    requires ':' !in p
    ensures Provider(p) == Provider(p + ":" + rest) == p
  {
    if p != "" {
      assert (p + ":" + rest)[1..] == p[1..] + ":" + rest;
      ProviderIsFirstPart(p[1..], rest);
    }
  }

  /** A topic of small letters and digits is its own slug, up to 100 characters... */
  lemma {:induction false} DashedPlain(front: string, plain: string)
    requires forall k :: 0 <= k < |plain| ==> 'a' <= plain[k] <= 'z' || '0' <= plain[k] <= '9'
    ensures Dashed(front + plain) == Dashed(front) + plain
  {
    if plain == "" {
      assert front + plain == front;
    } else {
      var last := |plain| - 1;
      assert (front + plain)[..|front + plain| - 1] == front + plain[..last];
      DashedPlain(front, plain[..last]);
      assert (Dashed(front) + plain[..last]) + [plain[last]] == Dashed(front) + plain;
    }
  }

  /** ... and any other character between two such words is a dash in it. */
  lemma PlainTopics(a: string, c: char, b: string)
    requires a != "" && b != "" && |a| + 1 + |b| <= 100
    requires forall k :: 0 <= k < |a| ==> 'a' <= a[k] <= 'z' || '0' <= a[k] <= '9'
    requires forall k :: 0 <= k < |b| ==> 'a' <= b[k] <= 'z' || '0' <= b[k] <= '9'
    requires !('a' <= c <= 'z' || '0' <= c <= '9')
    ensures Slug(a) == a && Slug(a + [c] + b) == a + "-" + b
  {
    DashedPlain("", a);
    assert "" + a == a;
    DashedOther(a, c);
    DashedPlain(a + [c], b);
    SlugOfPlain(a, a);
    SlugOfPlain(a + [c] + b, a + "-" + b);
  }

  lemma DashedOther(s: string, c: char)
    requires Dashed(s) == s != "" && WordChar(s[|s| - 1]) && !WordChar(c)
    ensures Dashed(s + [c]) == s + "-"
  {
    assert (s + [c])[..|s|] == s;
  }

  lemma SlugOfPlain(topic: string, dashed: string)
    requires Dashed(topic) == dashed && 1 <= |dashed| <= 100 && dashed[|dashed| - 1] != '-'
    ensures Slug(topic) == dashed
  {
  }

  // ---------------------------------------------------------------- statements

  predicate LocatedAt(f: Finding, r: string, c: string) { f.recordKey == r && f.chunkId == c }

  function OpenAt(d: Desk, r: string, c: string): set<string> {
    set key | key in d.findings && LocatedAt(d.findings[key], r, c) && d.findings[key].status == Open
  }

  /** UPDATE ... SET status = 'stale' */
  function Retired(d: Desk, r: string, c: string, now: real): Desk {
    d.(findings := map key | key in d.findings ::
      if key in OpenAt(d, r, c)
      then d.findings[key].(status := Stale, staleAt := Some(now), staleReason := Some(STALE_REASON), updatedAt := now)
      else d.findings[key])
  }

  function Raised(r: string, c: string, a: Assessment, created: real, now: real): Finding {
    Finding(r, c, "llm_" + Action(a), Or(a.severity, "warning"), Open, Or(a.title, "Evidence requires review"),
            a.summary, a.reasoning, if a.confidence == 0.0 then 0.5 else a.confidence, a.properties,
            created, now, None, None)
  }

  /** The two upserts for one flagged judgement. */
  function Flagged(d: Desk, r: string, c: string, a: Assessment, now: real): Desk {
    var key := FindingKey(r, a);
    var created := if key in d.findings then d.findings[key].createdAt else now;
    Desk(d.findings[key := Raised(r, c, a, created, now)],
         d.evidence[(key, r, ROLE) := Evidence(c, a.evidence)])
  }

  function Written(r: string, items: seq<Assessment>): seq<string> {
    if items == [] then []
    else
      var rest, a := Written(r, items[..|items| - 1]), items[|items| - 1];
      if a.shouldFlag then rest + [FindingKey(r, a)] else rest
  }

  function FlaggedAll(d: Desk, r: string, c: string, items: seq<Assessment>, now: real): Desk {
    if items == [] then d
    else
      var d', a := FlaggedAll(d, r, c, items[..|items| - 1], now), items[|items| - 1];
      if a.shouldFlag then Flagged(d', r, c, a, now) else d'
  }

  function Assessed(d: Desk, r: string, c: string, items: seq<Assessment>, now: real): Desk {
    FlaggedAll(Retired(d, r, c, now), r, c, items, now)
  }

  /** record_key LIKE ? ESCAPE '\' with the ledger's shorter escaping. */
  predicate Under(r: string, prefix: string, foldCase: bool) {
    Like(EscapeWildcards(prefix) + "%", r, foldCase)
  }

  function Located(d: Desk, prefix: string, foldCase: bool): set<string> {
    set key | key in d.findings && Under(d.findings[key].recordKey, prefix, foldCase)
  }

  /** Evidence goes only when there is a finding to delete. */
  function Deleted(d: Desk, prefix: string, foldCase: bool): Desk {
    if Located(d, prefix, foldCase) == {} then d
    else Desk(map key | key in d.findings && !Under(d.findings[key].recordKey, prefix, foldCase) :: d.findings[key],
              map e | e in d.evidence && !Under(e.1, prefix, foldCase) :: d.evidence[e])
  }

  // ---------------------------------------------------------------- one call

  lemma {:induction false} FlaggedAllFindings(d: Desk, r: string, c: string, items: seq<Assessment>, now: real)
    ensures var d' := FlaggedAll(d, r, c, items, now);
      && (forall key :: key in d'.findings <==> key in d.findings || key in Written(r, items))
      && (forall key :: key in Written(r, items) ==> key in OpenAt(d', r, c))
      && (forall key :: key in d.findings && key !in Written(r, items) ==> d'.findings[key] == d.findings[key])
  {
    if items != [] {
      FlaggedAllFindings(d, r, c, items[..|items| - 1], now);
    }
  }

  /** After the call the open findings located at (r, c) are exactly the keys it returned, and no finding
      it neither wrote nor retired has changed. */
  lemma OpenAreWritten(d: Desk, r: string, c: string, items: seq<Assessment>, now: real)
    ensures var d' := Assessed(d, r, c, items, now);
      && OpenAt(d', r, c) == (set key | key in Written(r, items))
      && (forall key :: key in d.findings && key !in OpenAt(d, r, c) && key !in Written(r, items) ==>
            key in d'.findings && d'.findings[key] == d.findings[key])
  {
    FlaggedAllFindings(Retired(d, r, c, now), r, c, items, now);
  }

  lemma {:induction false} LastFlaggedStands(d: Desk, r: string, c: string, items: seq<Assessment>, now: real, i: nat)
    requires i < |items| && items[i].shouldFlag
    requires forall j :: i < j < |items| && items[j].shouldFlag ==> FindingKey(r, items[j]) != FindingKey(r, items[i])
    ensures var d', key := FlaggedAll(d, r, c, items, now), FindingKey(r, items[i]);
      && key in d'.findings && (key, r, ROLE) in d'.evidence
      && d'.evidence[(key, r, ROLE)] == Evidence(c, items[i].evidence)
      && d'.findings[key] ==
           Raised(r, c, items[i], if key in d.findings then d.findings[key].createdAt else now, now)
  {
    var last := |items| - 1;
    if i < last {
      LastFlaggedStands(d, r, c, items[..last], now, i);
    } else {
      CreatedStays(d, r, c, items[..last], now, FindingKey(r, items[i]));
    }
  }

  lemma {:induction false} CreatedStays(d: Desk, r: string, c: string, items: seq<Assessment>, now: real, key: string)
    ensures var d' := FlaggedAll(d, r, c, items, now);
      key in d'.findings ==> d'.findings[key].createdAt == if key in d.findings then d.findings[key].createdAt else now
    ensures key in d.findings ==> key in FlaggedAll(d, r, c, items, now).findings
  {
    if items != [] { CreatedStays(d, r, c, items[..|items| - 1], now, key); }
  }

  /** What the last flagged judgement with a key leaves: an open finding at this record and chunk with what the
      judgement says, each missing part replaced by its default, created when the key was first seen; and its
      excerpt as new evidence for the record. */
  lemma JudgementIsRecorded(d: Desk, r: string, c: string, items: seq<Assessment>, now: real, i: nat)
    requires i < |items| && items[i].shouldFlag
    requires forall j :: i < j < |items| && items[j].shouldFlag ==> FindingKey(r, items[j]) != FindingKey(r, items[i])
    ensures FindingKey(r, items[i]) ==
      "llm:" + Provider(r) + ":" + (if items[i].action == "" then "review" else items[i].action) + ":" +
      Slug(items[i].topic)
    ensures var d', a, key := Assessed(d, r, c, items, now), items[i], FindingKey(r, items[i]);
      && key in d'.findings && (key, r, "new_evidence") in d'.evidence
      && d'.evidence[(key, r, "new_evidence")].chunkId == c
      && d'.evidence[(key, r, "new_evidence")].excerpt == a.evidence
      && var f := d'.findings[key];
      && f.recordKey == r && f.chunkId == c && f.status == Open && f.staleAt.None? && f.staleReason.None?
      && f.kind == "llm_" + (if a.action == "" then "review" else a.action)
      && f.severity == (if a.severity == "" then "warning" else a.severity)
      && f.title == (if a.title == "" then "Evidence requires review" else a.title)
      && f.confidence == (if a.confidence == 0.0 then 0.5 else a.confidence)
      && f.summary == a.summary && f.reasoning == a.reasoning && f.properties == a.properties
      && f.updatedAt == now && f.createdAt == if key in d.findings then d.findings[key].createdAt else now
  {
    LastFlaggedStands(Retired(d, r, c, now), r, c, items, now, i);
  }

  /** A finding no judgement raises: open at this chunk, it is stale from now on; otherwise it stays as it is. */
  lemma UnraisedIsRetired(d: Desk, r: string, c: string, items: seq<Assessment>, now: real, key: string)
    requires key in d.findings
    requires forall j :: 0 <= j < |items| && items[j].shouldFlag ==> FindingKey(r, items[j]) != key
    ensures var d' := Assessed(d, r, c, items, now);
      && key in d'.findings
      && var was, f := d.findings[key], d'.findings[key];
      if was.recordKey == r && was.chunkId == c && was.status == Open
      then
        && f.status == Stale && f.staleAt == Some(now) && f.staleReason.Some? && f.updatedAt == now
        && f == was.(status := f.status, staleAt := f.staleAt, staleReason := f.staleReason, updatedAt := f.updatedAt)
      else f == was
  {
    NotWritten(r, items, key);
    FlaggedAllFindings(Retired(d, r, c, now), r, c, items, now);
  }

  lemma {:induction false} NotWritten(r: string, items: seq<Assessment>, key: string)
    requires forall j :: 0 <= j < |items| && items[j].shouldFlag ==> FindingKey(r, items[j]) != key
    ensures key !in Written(r, items)
  {
    if items != [] { NotWritten(r, items[..|items| - 1], key); }
  }

  /** Deleting under a prefix without a backslash deletes the findings whose record key has that prefix, and when
      there is one also the evidence of such records; all else stays. */
  lemma DeleteIsByPrefix(d: Desk, prefix: string, foldCase: bool)
    requires BACKSLASH !in prefix
    ensures var d', hit := Deleted(d, prefix, foldCase),
                           exists key :: key in d.findings && StartsWith(d.findings[key].recordKey, prefix, foldCase);
      && (forall key :: key in d'.findings <==>
            key in d.findings && !StartsWith(d.findings[key].recordKey, prefix, foldCase))
      && (forall key :: key in d'.findings ==> d'.findings[key] == d.findings[key])
      && (forall e :: e in d'.evidence <==> e in d.evidence && !(hit && StartsWith(e.1, prefix, foldCase)))
      && (forall e :: e in d'.evidence ==> d'.evidence[e] == d.evidence[e])
  {
    ShortEscapingIsExactIff(prefix, foldCase);
    forall r ensures Under(r, prefix, foldCase) <==> StartsWith(r, prefix, foldCase) { }
    if key :| key in d.findings && StartsWith(d.findings[key].recordKey, prefix, foldCase) {
      assert key in Located(d, prefix, foldCase);
    }
  }

  /** Stale exactly when stale_at and its reason are set, and evidence for the current record naming its chunk. */
  ghost predicate SoundAt(d: Desk, key: string)
    requires key in d.findings
  {
    var f := d.findings[key];
    && (f.status == Stale <==> f.staleAt.Some?) && (f.status == Stale <==> f.staleReason.Some?)
    && (key, f.recordKey, ROLE) in d.evidence && d.evidence[(key, f.recordKey, ROLE)].chunkId == f.chunkId
  }

  ghost predicate Sound(d: Desk) {
    forall key :: key in d.findings ==> SoundAt(d, key)
  }

  lemma FlaggedKeepsSound(d: Desk, r: string, c: string, a: Assessment, now: real)
    requires Sound(d)
    ensures Sound(Flagged(d, r, c, a, now))
  {
    var d' := Flagged(d, r, c, a, now);
    forall key | key in d'.findings ensures SoundAt(d', key) {
      if key != FindingKey(r, a) { assert SoundAt(d, key); }
    }
  }

  lemma {:induction false} FlaggedAllKeepsSound(d: Desk, r: string, c: string, items: seq<Assessment>, now: real)
    requires Sound(d)
    ensures Sound(FlaggedAll(d, r, c, items, now))
  {
    if items != [] {
      var front, a := items[..|items| - 1], items[|items| - 1];
      FlaggedAllKeepsSound(d, r, c, front, now);
      FlaggedKeepsSound(FlaggedAll(d, r, c, front, now), r, c, a, now);
    }
  }

  lemma RetiredKeepsSound(d: Desk, r: string, c: string, now: real)
    requires Sound(d)
    ensures Sound(Retired(d, r, c, now))
  {
    var d' := Retired(d, r, c, now);
    forall key | key in d'.findings ensures SoundAt(d', key) { assert SoundAt(d, key); }
  }

  lemma DeletedKeepsSound(d: Desk, prefix: string, foldCase: bool)
    requires Sound(d)
    ensures Sound(Deleted(d, prefix, foldCase))
  {
    var d' := Deleted(d, prefix, foldCase);
    forall key | key in d'.findings ensures SoundAt(d', key) { assert SoundAt(d, key); }
  }

  // ---------------------------------------------------------------- whole runs

  datatype Event =
    | Assess(r: string, c: string, items: seq<Assessment>, now: real)
    | DeletePrefix(prefix: string)

  function Apply(d: Desk, e: Event, foldCase: bool): Desk {
    match e
    case Assess(r, c, items, now) => Assessed(d, r, c, items, now)
    case DeletePrefix(prefix) => Deleted(d, prefix, foldCase)
  }

  function Run(events: seq<Event>, foldCase: bool): Desk {
    if events == [] then Desk(map[], map[])
    else Apply(Run(events[..|events| - 1], foldCase), events[|events| - 1], foldCase)
  }

  lemma {:induction false} RunIsSound(events: seq<Event>, foldCase: bool)
    ensures Sound(Run(events, foldCase))
  {
    if events != [] {
      var before, e := events[..|events| - 1], events[|events| - 1];
      RunIsSound(before, foldCase);
      var d := Run(before, foldCase);
      match e
      case Assess(r, c, items, now) =>
        RetiredKeepsSound(d, r, c, now);
        FlaggedAllKeepsSound(Retired(d, r, c, now), r, c, items, now);
      case DeletePrefix(prefix) => DeletedKeepsSound(d, prefix, foldCase);
    }
  }

  /** What the history says is open at a chunk: what its last pass raised, less what later passes over
      other chunks took over, nothing after its prefix was deleted. */
  function Standing(events: seq<Event>, r: string, c: string, foldCase: bool): set<string> {
    if events == [] then {}
    else
      var s := Standing(events[..|events| - 1], r, c, foldCase);
      match events[|events| - 1]
      case Assess(r', c', items, _) =>
        var raised := set key | key in Written(r', items);
        if r' == r && c' == c then raised else s - raised
      case DeletePrefix(prefix) => if Under(r, prefix, foldCase) then {} else s
  }

  lemma AssessElsewhere(d: Desk, r: string, c: string, items: seq<Assessment>, now: real, r': string, c': string)
    requires r' != r || c' != c
    ensures OpenAt(Assessed(d, r, c, items, now), r', c') == OpenAt(d, r', c') - set key | key in Written(r, items)
  {
    var m := Retired(d, r, c, now);
    FlaggedAllFindings(m, r, c, items, now);
    assert OpenAt(m, r', c') == OpenAt(d, r', c');
  }

  lemma DeleteElsewhere(d: Desk, prefix: string, foldCase: bool, r: string, c: string)
    ensures OpenAt(Deleted(d, prefix, foldCase), r, c) == if Under(r, prefix, foldCase) then {} else OpenAt(d, r, c)
  {
    if Under(r, prefix, foldCase) {
      assert forall key :: key in OpenAt(d, r, c) ==> key in Located(d, prefix, foldCase);
    }
  }

  /** Over any run the open findings of every chunk are what its history says. */
  lemma {:induction false} OpenMatchesHistory(events: seq<Event>, r: string, c: string, foldCase: bool)
    ensures OpenAt(Run(events, foldCase), r, c) == Standing(events, r, c, foldCase)
  {
    if events != [] {
      var before, e := events[..|events| - 1], events[|events| - 1];
      OpenMatchesHistory(before, r, c, foldCase);
      var d := Run(before, foldCase);
      match e
      case Assess(r', c', items, now) =>
        if r' == r && c' == c {
          OpenAreWritten(d, r, c, items, now);
        } else {
          AssessElsewhere(d, r', c', items, now, r, c);
        }
      case DeletePrefix(prefix) => DeleteElsewhere(d, prefix, foldCase, r, c);
    }
  }

  // ---------------------------------------------------------------- prefix deletes

  ghost predicate EvidenceUnder(d: Desk, prefix: string, foldCase: bool) {
    exists e :: e in d.evidence && Under(e.1, prefix, foldCase)
  }

  /** A prefix delete always removes the findings under the prefix, but their evidence table is clean
      afterwards exactly when a finding was still there or no evidence was. */
  lemma DeleteIsCleanIff(d: Desk, prefix: string, foldCase: bool)
    ensures var d' := Deleted(d, prefix, foldCase);
      && Located(d', prefix, foldCase) == {}
      && (!EvidenceUnder(d', prefix, foldCase) <==>
            Located(d, prefix, foldCase) != {} || !EvidenceUnder(d, prefix, foldCase))
  {
  }

  /** The findings that have evidence for this record. */
  function Evidenced(d: Desk, r: string): set<string> {
    set e | e in d.evidence && e.1 == r && e.2 == ROLE :: e.0
  }

  /** What the history says has evidence for a record: everything ever raised there since the last delete over
      the record that found a finding. */
  function RaisedSince(events: seq<Event>, r: string, foldCase: bool): set<string> {
    if events == [] then {}
    else
      var before := events[..|events| - 1];
      var s := RaisedSince(before, r, foldCase);
      match events[|events| - 1]
      case Assess(r', _, items, _) => if r' == r then s + set key | key in Written(r, items) else s
      case DeletePrefix(prefix) =>
        if Under(r, prefix, foldCase) && Located(Run(before, foldCase), prefix, foldCase) != {} then {} else s
  }

  lemma {:induction false} FlaggedAllEvidence(d: Desk, r: string, c: string, items: seq<Assessment>, now: real,
                                              x: string)
    ensures Evidenced(FlaggedAll(d, r, c, items, now), x) ==
      Evidenced(d, x) + if x == r then set key | key in Written(r, items) else {}
    ensures forall e :: e in FlaggedAll(d, r, c, items, now).evidence && e !in d.evidence ==> e.1 == r && e.2 == ROLE
  {
    if items != [] {
      var front, a := items[..|items| - 1], items[|items| - 1];
      FlaggedAllEvidence(d, r, c, front, now, x);
      if a.shouldFlag { FlaggedEvidence(FlaggedAll(d, r, c, front, now), r, c, a, now, x); }
    }
  }

  lemma FlaggedEvidence(d: Desk, r: string, c: string, a: Assessment, now: real, x: string)
    ensures Evidenced(Flagged(d, r, c, a, now), x) == Evidenced(d, x) + if x == r then {FindingKey(r, a)} else {}
  {
    var d', key := Flagged(d, r, c, a, now), FindingKey(r, a);
    assert (key, r, ROLE) in d'.evidence && (key, r, ROLE).0 == key;
    forall k | k in Evidenced(d, x) ensures k in Evidenced(d', x) { assert (k, x, ROLE) in d'.evidence; }
  }

  /** Over any run a finding has evidence for a record exactly when its history says so. */
  lemma {:induction false} EvidenceMatchesHistory(events: seq<Event>, r: string, foldCase: bool)
    ensures Evidenced(Run(events, foldCase), r) == RaisedSince(events, r, foldCase)
    ensures forall e :: e in Run(events, foldCase).evidence ==> e.2 == ROLE
  {
    if events != [] {
      var before, e := events[..|events| - 1], events[|events| - 1];
      EvidenceMatchesHistory(before, r, foldCase);
      var d := Run(before, foldCase);
      if e.Assess? {
        assert Evidenced(Retired(d, e.r, e.c, e.now), r) == Evidenced(d, r);
        FlaggedAllEvidence(Retired(d, e.r, e.c, e.now), e.r, e.c, e.items, e.now, r);
      } else {
        DeleteEvidence(d, e.prefix, foldCase, r);
      }
    }
  }

  lemma DeleteEvidence(d: Desk, prefix: string, foldCase: bool, r: string)
    ensures Evidenced(Deleted(d, prefix, foldCase), r) ==
      if Under(r, prefix, foldCase) && Located(d, prefix, foldCase) != {} then {} else Evidenced(d, r)
  {
  }

  /** After any run a prefix delete leaves no evidence under the prefix exactly when a finding was still located
      there, or no record there had any raised since such a delete. */
  lemma PrefixIsCleanIff(events: seq<Event>, prefix: string, foldCase: bool)
    ensures var d := Run(events, foldCase);
      !EvidenceUnder(Deleted(d, prefix, foldCase), prefix, foldCase) <==>
        Located(d, prefix, foldCase) != {} || forall r :: Under(r, prefix, foldCase) ==>
          RaisedSince(events, r, foldCase) == {}
  {
    var d := Run(events, foldCase);
    DeleteIsCleanIff(d, prefix, foldCase);
    forall r ensures Evidenced(d, r) == RaisedSince(events, r, foldCase) {
      EvidenceMatchesHistory(events, r, foldCase);
    }
    EvidenceMatchesHistory(events, prefix, foldCase);
    if e :| e in d.evidence && Under(e.1, prefix, foldCase) {
      assert e.0 in Evidenced(d, e.1);
    }
    if r :| Under(r, prefix, foldCase) && RaisedSince(events, r, foldCase) != {} {
      var key :| key in Evidenced(d, r);
      assert (key, r, ROLE) in d.evidence && (key, r, ROLE).1 == r;
    }
  }

  /** A topic raised under one record and then under another of the same provider leaves evidence
      behind when the first record's prefix is deleted. */
  lemma MovedTopicLeavesEvidence(r: string, s: string, c: string, a: Assessment, now: real, foldCase: bool)
    requires a.shouldFlag && Provider(r) == Provider(s)
    requires Under(r, r, foldCase) && !Under(s, r, foldCase)
    ensures var d := Run([Assess(r, c, [a], now), Assess(s, c, [a], now), DeletePrefix(r)], foldCase);
      EvidenceUnder(d, r, foldCase) && Located(d, r, foldCase) == {}
  {
    var one, two, three := Assess(r, c, [a], now), Assess(s, c, [a], now), DeletePrefix(r);
    assert [one, two, three][..2] == [one, two] && [one, two][..1] == [one] && [one][..0] == [];
    KeysAgreeIff(r, a, s, a);
    var d0 := Desk(map[], map[]);
    var d1, d2 := Assessed(d0, r, c, [a], now), Assessed(Assessed(d0, r, c, [a], now), s, c, [a], now);
    assert Run([], foldCase) == d0;
    assert Run([one], foldCase) == Apply(d0, one, foldCase) == d1;
    assert Run([one, two], foldCase) == Apply(d1, two, foldCase) == d2;
    assert Run([one, two, three], foldCase) == Apply(d2, three, foldCase);
    OneAssessment(d0, r, c, a, now);
    OneAssessment(d1, s, c, a, now);
    assert d2.findings.Keys == {FindingKey(r, a)};
    assert Located(d2, r, foldCase) == {};
    assert (FindingKey(r, a), r, ROLE) in d2.evidence;
  }

  lemma OneAssessment(d: Desk, r: string, c: string, a: Assessment, now: real)
    requires a.shouldFlag
    ensures Assessed(d, r, c, [a], now) == Flagged(Retired(d, r, c, now), r, c, a, now)
  {
    assert [a][..0] == [];
    assert FlaggedAll(Retired(d, r, c, now), r, c, [], now) == Retired(d, r, c, now);
  }
}
