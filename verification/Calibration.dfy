/** Expected calibration error: scripts/measure_review_precision.py::compute_ece, over the reals. */
module Calibration {
  import opened Options
  import opened Arith

  /** One decided review: predicted confidence, was it approved. */
  datatype Scored = Scored(confidence: real, approved: bool)

  datatype BinDetail = BinDetail(lo: real, hi: real, count: nat, stats: Option<BinStats>)
  datatype BinStats = BinStats(meanConfidence: real, approvalRate: real, gap: real)

  function Abs(x: real): (r: real)
    ensures r >= 0.0 && (r == x || r == -x)
  {
    if x < 0.0 then -x else x
  }

  function Outcome(p: Scored): real { if p.approved then 1.0 else 0.0 }

  function Error(p: Scored): real { p.confidence - Outcome(p) }

  function Clamp(c: real): real {
    if c < 0.0 then 0.0 else if c > 1.0 then 1.0 else c
  }

  function BinOf(p: Scored, n: nat): (i: nat)
    requires n > 0
    ensures i < n
  {
    var i := (Clamp(p.confidence) * n as real).Floor;
    if i < n - 1 then i else n - 1
  }

  /** The bin index of each pair. */
  function Bins(pairs: seq<Scored>, n: nat): (b: seq<nat>)
    requires n > 0
    ensures |b| == |pairs|
  {
    seq(|pairs|, k requires 0 <= k < |pairs| => BinOf(pairs[k], n))
  }

  /** Of the first k pairs, those put in bin i, in order. */
  function Members(pairs: seq<Scored>, b: seq<nat>, i: nat, k: nat): (ms: seq<Scored>)
    requires |b| == |pairs| && k <= |pairs|
    ensures |ms| <= k
  {
    if k == 0 then [] else Members(pairs, b, i, k - 1) + if b[k - 1] == i then [pairs[k - 1]] else []
  }

  function SumConfidence(ps: seq<Scored>): real {
    if ps == [] then 0.0 else SumConfidence(ps[..|ps| - 1]) + ps[|ps| - 1].confidence
  }

  function SumOutcome(ps: seq<Scored>): real {
    if ps == [] then 0.0 else SumOutcome(ps[..|ps| - 1]) + Outcome(ps[|ps| - 1])
  }

  /** Sum of the errors of the first k pairs whose bin lies in lo..hi. */
  function Deviation(pairs: seq<Scored>, b: seq<nat>, lo: nat, hi: nat, k: nat): real
    requires |b| == |pairs| && k <= |pairs|
  {
    if k == 0 then 0.0
    else Deviation(pairs, b, lo, hi, k - 1) + if lo <= b[k - 1] < hi then Error(pairs[k - 1]) else 0.0
  }

  /** Total absolute deviation of the single bins in lo..hi. */
  function AbsDeviation(pairs: seq<Scored>, b: seq<nat>, lo: nat, hi: nat, k: nat): real
    requires |b| == |pairs| && k <= |pairs|
    decreases hi
  {
    if hi <= lo then 0.0
    else AbsDeviation(pairs, b, lo, hi - 1, k) + Abs(Deviation(pairs, b, hi - 1, hi, k))
  }

  function Ece(pairs: seq<Scored>, n: nat): real
    requires n > 0
  {
    if pairs == [] then 0.0 else AbsDeviation(pairs, Bins(pairs, n), 0, n, |pairs|) / |pairs| as real
  }

  // ---------------------------------------------------------------- the computation

  lemma QuotientTimes(x: real, k: real)
    requires k > 0.0
    ensures (x / k) * k == x
  {
  }

  lemma ScaleQuotient(x: real, k: real, t: real)
    requires k > 0.0 && t > 0.0
    ensures (k / t) * (x / k) == x / t
  {
    var u, v := k / t, x / k;
    QuotientTimes(k, t);
    QuotientTimes(x, k);
    assert u * v * t == v * (u * t) == v * k;
    assert (u * v * t) / t == u * v;
  }

  lemma DifferenceOfQuotients(c: real, o: real, k: real)
    requires k > 0.0
    ensures c / k - o / k == (c - o) / k
    ensures Abs(c / k - o / k) == Abs(c - o) / k
  {
  }

  /** A bin's weight times its gap is its share of the total absolute deviation. */
  lemma WeightedGap(c: real, o: real, k: real, t: real)
    requires k > 0.0 && t > 0.0
    ensures (k / t) * Abs(c / k - o / k) == Abs(c - o) / t
  {
    DifferenceOfQuotients(c, o, k);
    ScaleQuotient(Abs(c - o), k, t);
  }

  lemma SumOfQuotients(a: real, b: real, t: real)
    requires t > 0.0
    ensures a / t + b / t == (a + b) / t
  {
  }

  lemma {:induction false} MembersDeviate(pairs: seq<Scored>, b: seq<nat>, i: nat, k: nat)
    requires |b| == |pairs| && k <= |pairs|
    ensures var ms := Members(pairs, b, i, k);
      SumConfidence(ms) - SumOutcome(ms) == Deviation(pairs, b, i, i + 1, k)
  {
    if k > 0 {
      MembersDeviate(pairs, b, i, k - 1);
      var before := Members(pairs, b, i, k - 1);
      if b[k - 1] == i {
        assert (before + [pairs[k - 1]])[..|before|] == before;
      } else {
        assert before + [] == before;
      }
    }
  }

  predicate StatsOk(s: BinStats, ps: seq<Scored>)
    requires ps != []
  {
    && s.meanConfidence == SumConfidence(ps) / |ps| as real
    && s.approvalRate == SumOutcome(ps) / |ps| as real
    && s.gap == Abs(s.meanConfidence - s.approvalRate)
  }

  predicate DetailOk(d: BinDetail, ps: seq<Scored>, i: nat, n: nat)
    requires n > 0
  {
    && d.lo == i as real / n as real && d.hi == (i + 1) as real / n as real && d.count == |ps|
    && (ps == [] <==> d.stats.None?)
    && (ps != [] ==> StatsOk(d.stats.value, ps))
  }

  /** Each of the first bins is reported as it is. */
  predicate DetailsOk(details: seq<BinDetail>, bins: seq<seq<Scored>>)
    requires |details| <= |bins|
  {
    details == [] ||
    (var i := |details| - 1;
     DetailsOk(details[..i], bins) && DetailOk(details[i], bins[i], i, |bins|))
  }

  lemma DetailsSnoc(details: seq<BinDetail>, d: BinDetail, bins: seq<seq<Scored>>)
    requires |details| < |bins| && DetailsOk(details, bins) && DetailOk(d, bins[|details|], |details|, |bins|)
    ensures DetailsOk(details + [d], bins)
  {
    assert (details + [d])[..|details|] == details;
  }

  function BinsOf(pairs: seq<Scored>, n: nat): seq<seq<Scored>>
    requires n > 0
  {
    seq(n, i requires 0 <= i < n => Members(pairs, Bins(pairs, n), i, |pairs|))
  }

  method FillBins(pairs: seq<Scored>, nBins: nat) returns (bins: seq<seq<Scored>>)
    requires nBins > 0
    ensures bins == BinsOf(pairs, nBins)
  {
    ghost var b := Bins(pairs, nBins);
    bins := seq(nBins, _ => []);
    for k := 0 to |pairs|
      invariant |bins| == nBins
      invariant forall i :: 0 <= i < nBins ==> bins[i] == Members(pairs, b, i, k)
    {
      var clamped := Clamp(pairs[k].confidence);
      var index := (clamped * nBins as real).Floor;
      if index > nBins - 1 { index := nBins - 1; }
      assert index == BinOf(pairs[k], nBins) == b[k];
      bins := bins[index := bins[index] + [pairs[k]]];
    }
  }

  /** What one bin adds to the error. */
  function Term(ps: seq<Scored>, total: nat): real {
    if ps == [] || total == 0 then 0.0 else Abs(SumConfidence(ps) - SumOutcome(ps)) / total as real
  }

  function Accumulated(bins: seq<seq<Scored>>, total: nat, i: nat): real
    requires i <= |bins|
  {
    if i == 0 then 0.0 else Accumulated(bins, total, i - 1) + Term(bins[i - 1], total)
  }

  /** A reported bin's weight times its gap. */
  function Share(d: BinDetail, total: nat): real {
    if d.stats.None? || total == 0 then 0.0 else (d.count as real / total as real) * d.stats.value.gap
  }

  function SumShares(details: seq<BinDetail>, total: nat): real {
    if details == [] then 0.0
    else SumShares(details[..|details| - 1], total) + Share(details[|details| - 1], total)
  }

  method Report(members: seq<Scored>, i: nat, nBins: nat, total: nat) returns (d: BinDetail, term: real)
    requires |members| <= total && i < nBins
    ensures DetailOk(d, members, i, nBins)
    ensures term == Term(members, total) == Share(d, total)
  {
    var lo, hi := i as real / nBins as real, (i + 1) as real / nBins as real;
    if members == [] {
      return BinDetail(lo, hi, 0, None), 0.0;
    }
    var count := |members| as real;
    var mean := SumConfidence(members) / count;
    var rate := SumOutcome(members) / count;
    var gap := Abs(mean - rate);
    var weight := count / total as real;
    WeightedGap(SumConfidence(members), SumOutcome(members), count, total as real);
    term := weight * gap;
    d := BinDetail(lo, hi, |members|, Some(BinStats(mean, rate, gap)));
  }

  lemma ShareStep(pairs: seq<Scored>, b: seq<nat>, i: nat)
    requires |b| == |pairs| && pairs != []
    ensures AbsDeviation(pairs, b, 0, i + 1, |pairs|) / |pairs| as real ==
      AbsDeviation(pairs, b, 0, i, |pairs|) / |pairs| as real + Term(Members(pairs, b, i, |pairs|), |pairs|)
  {
    MembersDeviate(pairs, b, i, |pairs|);
    SumOfQuotients(AbsDeviation(pairs, b, 0, i, |pairs|), Abs(Deviation(pairs, b, i, i + 1, |pairs|)), |pairs| as real);
  }

  lemma {:induction false} AccumulatedIsShare(pairs: seq<Scored>, b: seq<nat>, bins: seq<seq<Scored>>, i: nat)
    requires |b| == |pairs| && i <= |bins| && pairs != []
    requires forall j :: 0 <= j < |bins| ==> bins[j] == Members(pairs, b, j, |pairs|)
    ensures Accumulated(bins, |pairs|, i) == AbsDeviation(pairs, b, 0, i, |pairs|) / |pairs| as real
  {
    if i > 0 {
      AccumulatedIsShare(pairs, b, bins, i - 1);
      ShareStep(pairs, b, i - 1);
    }
  }

  lemma {:induction false} AccumulatedEmpty(bins: seq<seq<Scored>>, i: nat)
    requires i <= |bins|
    ensures Accumulated(bins, 0, i) == 0.0
  {
    if i > 0 { AccumulatedEmpty(bins, i - 1); }
  }

  /** The error is the weighted sum of the reported gaps; each pair is in the bin whose interval its confidence
      lies in, the first and the last bin taking what lies outside [0, 1]; and a reported mean within [0, 1] lies
      in its own reported interval. With no bins a non-empty list is an index error. */
  method ComputeEce(pairs: seq<Scored>, nBins: int) returns (r: Option<(real, seq<BinDetail>)>)
    ensures r.None? <==> nBins <= 0 && pairs != []
    ensures nBins <= 0 && pairs == [] ==> r == Some((0.0, []))
    ensures nBins > 0 ==>
      && r.value.0 == Ece(pairs, nBins)
      && |r.value.1| == nBins && DetailsOk(r.value.1, BinsOf(pairs, nBins))
      && r.value.0 == SumShares(r.value.1, |pairs|)
    ensures nBins > 0 ==> forall i :: 0 <= i < nBins ==>
      var d, ps := r.value.1[i], BinsOf(pairs, nBins)[i];
      && d.lo == i as real / nBins as real && d.hi == (i + 1) as real / nBins as real
      && d.count == |ps| && (d.stats.Some? <==> d.count > 0)
      && (d.stats.Some? ==>
            var BinStats(mean, rate, gap) := d.stats.value;
            && mean == SumConfidence(ps) / d.count as real && rate == SumOutcome(ps) / d.count as real
            && gap == if mean >= rate then mean - rate else rate - mean)
    ensures nBins > 0 ==> forall i, p :: 0 <= i < nBins ==> (p in BinsOf(pairs, nBins)[i] <==>
      && p in pairs
      && (i == 0 || p.confidence >= i as real / nBins as real)
      && (i == nBins - 1 || p.confidence < (i + 1) as real / nBins as real))
    ensures nBins > 0 ==> forall i :: 0 <= i < nBins && r.value.1[i].stats.Some? ==>
      var mean := r.value.1[i].stats.value.meanConfidence;
      0.0 <= mean <= 1.0 ==> r.value.1[i].lo <= mean <= r.value.1[i].hi
  {
    if nBins <= 0 {
      return if pairs == [] then Some((0.0, [])) else None;
    }
    var bins := FillBins(pairs, nBins);
    var total := |pairs|;
    var ece := 0.0;
    var detail: seq<BinDetail> := [];
    for i := 0 to nBins
      invariant |detail| == i
      invariant ece == Accumulated(bins, total, i) == SumShares(detail, total)
      invariant DetailsOk(detail, bins)
    {
      var d, term := Report(bins[i], i, nBins, total);
      DetailsSnoc(detail, d, bins);
      ece := ece + term;
      assert (detail + [d])[..|detail|] == detail;
      detail := detail + [d];
    }
    if pairs == [] {
      AccumulatedEmpty(bins, nBins);
    } else {
      AccumulatedIsShare(pairs, Bins(pairs, nBins), bins, nBins);
    }
    BinsAreIntervals(pairs, nBins);
    MeansInBins(pairs, nBins, bins, detail);
    r := Some((ece, detail));
  }

  lemma {:induction false} DetailAt(details: seq<BinDetail>, bins: seq<seq<Scored>>, i: nat)
    requires |details| <= |bins| && DetailsOk(details, bins) && i < |details|
    ensures DetailOk(details[i], bins[i], i, |bins|)
  {
    var last := |details| - 1;
    if i < last { DetailAt(details[..last], bins, i); }
  }

  // ---------------------------------------------------------------- bins are intervals

  predicate AtLeastLow(c: real, i: nat, n: nat)
    requires n > 0
  {
    i == 0 || c >= i as real / n as real
  }

  predicate BelowHigh(c: real, i: nat, n: nat)
    requires n > 0
  {
    i == n - 1 || c < (i + 1) as real / n as real
  }

  lemma QuotientOrder(c: real, i: real, n: real)
    requires n > 0.0
    ensures c >= i / n <==> c * n >= i
  {
    var q := i / n;
    assert q * n == i;
    if c >= q { assert (c - q) * n >= 0.0; } else { assert (q - c) * n > 0.0; }
  }

  lemma FloorIs(y: real, i: int)
    ensures y.Floor == i <==> i as real <= y < (i + 1) as real
  {
  }

  lemma ScaledBetween(c: real, n: real, i: real, j: real)
    requires n > 0.0
    ensures i <= c * n < j <==> c >= i / n && c < j / n
  {
    QuotientOrder(c, i, n);
    QuotientOrder(c, j, n);
  }

  /** A confidence within [0, 1): its bin and the ends of the bins. */
  lemma BinInside(p: Scored, n: nat, i: nat)
    requires i < n && 0.0 <= p.confidence < 1.0
    ensures BinOf(p, n) == i <==>
      p.confidence >= i as real / n as real && p.confidence < (i + 1) as real / n as real
  {
    BinBelowTop(p, n);
    FloorIs(p.confidence * n as real, i);
    ScaledBetween(p.confidence, n as real, i as real, (i + 1) as real);
  }

  lemma EndsInside(n: nat, i: nat)
    requires i < n
    ensures 0.0 <= i as real / n as real < (i + 1) as real / n as real <= 1.0
    ensures (i + 1) as real / n as real == 1.0 <==> i == n - 1
    ensures i as real / n as real == 0.0 <==> i == 0
  {
    var k, m := (i + 1) as real, n as real;
    assert i as real / m * m == i as real && k / m * m == k;
    QuotientOrder(1.0, k, m);
    QuotientOrder(0.0, i as real, m);
    if k / m == 1.0 { assert k == m; }
  }

  lemma BinOfIff(p: Scored, n: nat, i: nat)
    requires i < n
    ensures BinOf(p, n) == i <==> AtLeastLow(p.confidence, i, n) && BelowHigh(p.confidence, i, n)
  {
    EndsInside(n, i);
    if 0.0 <= p.confidence < 1.0 {
      BinInside(p, n, i);
    } else if p.confidence < 0.0 {
      assert Clamp(p.confidence) == 0.0 && 0.0 * n as real == 0.0;
    } else {
      BinAtTop(p, n);
    }
  }

  lemma InBinIff(pairs: seq<Scored>, n: nat, i: nat, p: Scored)
    requires i < n
    ensures p in BinsOf(pairs, n)[i] <==>
      p in pairs && AtLeastLow(p.confidence, i, n) && BelowHigh(p.confidence, i, n)
  {
    BinOfIff(p, n, i);
    BinsPartition(pairs, n, i, p);
    assert p in BinsOf(pairs, n)[i] <==> multiset(BinsOf(pairs, n)[i])[p] > 0;
    assert p in pairs <==> multiset(pairs)[p] > 0;
  }

  lemma OneMoreTimes(bound: real, n: real)
    ensures bound * (n - 1.0) + bound == bound * n
  {
  }

  lemma {:induction false} SumAtLeast(ps: seq<Scored>, lo: real)
    requires forall p :: p in ps ==> p.confidence >= lo
    ensures SumConfidence(ps) >= lo * |ps| as real
  {
    if ps != [] {
      var front := ps[..|ps| - 1];
      SumAtLeast(front, lo);
      OneMoreTimes(lo, |ps| as real);
      assert ps[|ps| - 1] in ps && |front| as real == |ps| as real - 1.0;
    }
  }

  lemma {:induction false} SumAtMost(ps: seq<Scored>, hi: real)
    requires forall p :: p in ps ==> p.confidence <= hi
    ensures SumConfidence(ps) <= hi * |ps| as real
  {
    if ps != [] {
      var front := ps[..|ps| - 1];
      SumAtMost(front, hi);
      OneMoreTimes(hi, |ps| as real);
      assert ps[|ps| - 1] in ps && |front| as real == |ps| as real - 1.0;
    }
  }

  /** The mean confidence of a bin lies in the bin's interval, unless it lies outside [0, 1]. */
  lemma MeanInBin(ps: seq<Scored>, i: nat, n: nat)
    requires i < n && ps != []
    requires forall p :: p in ps ==> AtLeastLow(p.confidence, i, n) && BelowHigh(p.confidence, i, n)
    ensures var mean := SumConfidence(ps) / |ps| as real;
      0.0 <= mean <= 1.0 ==> i as real / n as real <= mean <= (i + 1) as real / n as real
  {
    var lo, hi, k := i as real / n as real, (i + 1) as real / n as real, |ps| as real;
    var sum := SumConfidence(ps);
    EndsInside(n, i);
    if i > 0 { SumAtLeast(ps, lo); }
    if i < n - 1 { SumAtMost(ps, hi); }
    MeanBetween(sum, lo, hi, k);
  }

  lemma MeanBetween(sum: real, lo: real, hi: real, k: real)
    requires k > 0.0
    ensures sum >= lo * k ==> sum / k >= lo
    ensures sum <= hi * k ==> sum / k <= hi
  {
    var q := sum / k;
    assert q * k == sum;
    if q < lo { assert (lo - q) * k > 0.0; }
    if q > hi { assert (q - hi) * k > 0.0; }
  }

  lemma BinsAreIntervals(pairs: seq<Scored>, n: nat)
    requires n > 0
    ensures forall i, p :: 0 <= i < n ==> (p in BinsOf(pairs, n)[i] <==>
      && p in pairs
      && (i == 0 || p.confidence >= i as real / n as real)
      && (i == n - 1 || p.confidence < (i + 1) as real / n as real))
  {
    forall i: nat, p | i < n
      ensures p in BinsOf(pairs, n)[i] <==>
        p in pairs && AtLeastLow(p.confidence, i, n) && BelowHigh(p.confidence, i, n)
    {
      InBinIff(pairs, n, i, p);
    }
  }

  lemma MeansInBins(pairs: seq<Scored>, n: nat, bins: seq<seq<Scored>>, detail: seq<BinDetail>)
    requires n > 0 && bins == BinsOf(pairs, n) && |detail| == n && DetailsOk(detail, bins)
    ensures forall i :: 0 <= i < n ==> DetailOk(detail[i], bins[i], i, n)
    ensures forall i :: 0 <= i < n && detail[i].stats.Some? ==>
      var mean := detail[i].stats.value.meanConfidence;
      0.0 <= mean <= 1.0 ==> detail[i].lo <= mean <= detail[i].hi
  {
    forall i: nat | i < n ensures DetailOk(detail[i], bins[i], i, n) { DetailAt(detail, bins, i); }
    forall i: nat | i < n && detail[i].stats.Some?
      ensures var mean := detail[i].stats.value.meanConfidence;
        0.0 <= mean <= 1.0 ==> detail[i].lo <= mean <= detail[i].hi
    {
      DetailAt(detail, bins, i);
      forall p | p in bins[i] ensures AtLeastLow(p.confidence, i, n) && BelowHigh(p.confidence, i, n) {
        InBinIff(pairs, n, i, p);
      }
      MeanInBin(bins[i], i, n);
    }
  }

  /** The sums are sums: of the confidences, and of one for each approval. */
  lemma {:induction false} SumsAdd(a: seq<Scored>, b: seq<Scored>)
    ensures SumConfidence(a + b) == SumConfidence(a) + SumConfidence(b)
    ensures SumOutcome(a + b) == SumOutcome(a) + SumOutcome(b)
    ensures forall c :: SumConfidence([Scored(c, true)]) == c && SumConfidence([Scored(c, false)]) == c
    ensures forall c :: SumOutcome([Scored(c, true)]) == 1.0 && SumOutcome([Scored(c, false)]) == 0.0
  {
    forall p: Scored ensures SumConfidence([p]) == p.confidence && SumOutcome([p]) == if p.approved then 1.0 else 0.0 {
      assert [p][..0] == [];
    }
    if b == [] {
      assert a + b == a;
    } else {
      var front := b[..|b| - 1];
      assert (a + b)[..|a + b| - 1] == a + front;
      SumsAdd(a, front);
    }
  }

  // ---------------------------------------------------------------- the bins partition the pairs

  function Copies(ps: seq<Scored>, x: Scored): nat { multiset(ps)[x] }

  lemma CountSnoc(ps: seq<Scored>, p: Scored, x: Scored)
    ensures Copies(ps + [p], x) == Copies(ps, x) + if p == x then 1 else 0
  {
  }

  lemma CountPrefix(pairs: seq<Scored>, k: nat, x: Scored)
    requires 0 < k <= |pairs|
    ensures Copies(pairs[..k], x) == Copies(pairs[..k - 1], x) + if pairs[k - 1] == x then 1 else 0
  {
    assert pairs[..k] == pairs[..k - 1] + [pairs[k - 1]];
    CountSnoc(pairs[..k - 1], pairs[k - 1], x);
  }

  lemma CountTaken(pairs: seq<Scored>, b: seq<nat>, i: nat, k: nat, x: Scored)
    requires |b| == |pairs| && 0 < k <= |pairs| && b[k - 1] == i
    ensures Copies(Members(pairs, b, i, k), x) ==
      Copies(Members(pairs, b, i, k - 1), x) + if pairs[k - 1] == x then 1 else 0
  {
    CountSnoc(Members(pairs, b, i, k - 1), pairs[k - 1], x);
  }

  lemma CountPassed(pairs: seq<Scored>, b: seq<nat>, i: nat, k: nat)
    requires |b| == |pairs| && 0 < k <= |pairs| && b[k - 1] != i
    ensures Members(pairs, b, i, k) == Members(pairs, b, i, k - 1)
  {
  }

  /** One pair: its bin counts it, the others do not. */
  lemma CountStep(pairs: seq<Scored>, b: seq<nat>, i: nat, k: nat, x: Scored)
    requires |b| == |pairs| && 0 < k <= |pairs|
    ensures Copies(Members(pairs, b, i, k), x) ==
      Copies(Members(pairs, b, i, k - 1), x) + if b[k - 1] == i && pairs[k - 1] == x then 1 else 0
  {
    if b[k - 1] == i { CountTaken(pairs, b, i, k, x); } else { CountPassed(pairs, b, i, k); }
  }

  /** If every copy of x is put in bin j, that bin counts them all... */
  lemma {:induction false} CountInOwnBin(pairs: seq<Scored>, b: seq<nat>, j: nat, k: nat, x: Scored)
    requires |b| == |pairs| && k <= |pairs|
    requires forall m :: 0 <= m < |pairs| && pairs[m] == x ==> b[m] == j
    ensures Copies(Members(pairs, b, j, k), x) == Copies(pairs[..k], x)
  {
    if k > 0 {
      CountInOwnBin(pairs, b, j, k - 1, x);
      CountStep(pairs, b, j, k, x);
      CountPrefix(pairs, k, x);
    }
  }

  /** ... and no other bin any. */
  lemma {:induction false} CountInOtherBin(pairs: seq<Scored>, b: seq<nat>, j: nat, i: nat, k: nat, x: Scored)
    requires |b| == |pairs| && k <= |pairs| && i != j
    requires forall m :: 0 <= m < |pairs| && pairs[m] == x ==> b[m] == j
    ensures Copies(Members(pairs, b, i, k), x) == 0
  {
    if k > 0 {
      CountInOtherBin(pairs, b, j, i, k - 1, x);
      CountStep(pairs, b, i, k, x);
    }
  }

  /** The bins partition the pairs: a pair is in its own bin as often as it occurs, and in no other -
      however far outside [0, 1] its confidence is. */
  lemma BinsPartition(pairs: seq<Scored>, n: nat, i: nat, x: Scored)
    requires i < n
    ensures multiset(BinsOf(pairs, n)[i])[x] == if i == BinOf(x, n) then multiset(pairs)[x] else 0
  {
    var own := BinOf(x, n);
    if i == own {
      CountInOwnBin(pairs, Bins(pairs, n), own, |pairs|, x);
      assert pairs[..|pairs|] == pairs;
    } else {
      CountInOtherBin(pairs, Bins(pairs, n), own, i, |pairs|, x);
    }
  }

  // ---------------------------------------------------------------- upper bound

  /** Sum of the absolute errors of the first k pairs. */
  function SumError(pairs: seq<Scored>, k: nat): real
    requires k <= |pairs|
  {
    if k == 0 then 0.0 else SumError(pairs, k - 1) + Abs(Error(pairs[k - 1]))
  }

  lemma {:induction false} AbsDeviationStep(pairs: seq<Scored>, b: seq<nat>, m: nat, k: nat)
    requires |b| == |pairs| && 0 < k <= |pairs|
    ensures AbsDeviation(pairs, b, 0, m, k) <=
      AbsDeviation(pairs, b, 0, m, k - 1) + if b[k - 1] < m then Abs(Error(pairs[k - 1])) else 0.0
    decreases m
  {
    if m > 0 { AbsDeviationStep(pairs, b, m - 1, k); }
  }

  lemma {:induction false} NothingDeviates(pairs: seq<Scored>, b: seq<nat>, lo: nat, hi: nat)
    requires |b| == |pairs|
    ensures AbsDeviation(pairs, b, lo, hi, 0) == 0.0
    decreases hi
  {
    if hi > lo { NothingDeviates(pairs, b, lo, hi - 1); }
  }

  lemma {:induction false} AtMostSumError(pairs: seq<Scored>, b: seq<nat>, n: nat, k: nat)
    requires |b| == |pairs| && k <= |pairs|
    ensures AbsDeviation(pairs, b, 0, n, k) <= SumError(pairs, k)
    decreases k
  {
    if k == 0 {
      NothingDeviates(pairs, b, 0, n);
    } else {
      AbsDeviationStep(pairs, b, n, k);
      AtMostSumError(pairs, b, n, k - 1);
    }
  }

  lemma {:induction false} SumErrorAtMostCount(pairs: seq<Scored>, k: nat)
    requires k <= |pairs| && forall j :: 0 <= j < |pairs| ==> 0.0 <= pairs[j].confidence <= 1.0
    ensures SumError(pairs, k) <= k as real
  {
    if k > 0 { SumErrorAtMostCount(pairs, k - 1); }
  }

  // ---------------------------------------------------------------- refining the bins

  lemma RealMono(a: real, y: real, b: real, f: real)
    requires a <= y < b && f > 0.0
    ensures a * f <= y * f < b * f
  {
    assert (y - a) * f >= 0.0 && (b - y) * f > 0.0;
  }

  lemma CastProduct(k: nat, n: nat)
    ensures (k * n) as real == k as real * n as real == n as real * k as real
  {
  }

  lemma BelowOne(x: real, n: nat)
    requires 0.0 <= x < 1.0 && n > 0
    ensures 0.0 <= x * n as real < n as real
    ensures 0 <= (x * n as real).Floor < n
  {
    RealMono(0.0, x, 1.0, n as real);
  }

  lemma FloorBetween(y: real, a: int, b: int)
    requires a as real <= y < b as real
    ensures a <= y.Floor < b
  {
  }

  /** y lies between two integers once scaled, if their reals are the scaled bounds. */
  lemma FloorScaled(y: real, u: real, v: real, f: real, lo: int, hi: int, scaled: real)
    requires u <= y < v && f > 0.0
    requires lo as real == u * f && hi as real == v * f && scaled == y * f
    ensures lo <= scaled.Floor < hi
  {
    RealMono(u, y, v, f);
    FloorBetween(scaled, lo, hi);
  }

  lemma ScaledFloor(y: real, q: nat, k: nat)
    requires k > 0 && q as real <= y < (q + 1) as real
    ensures k * q <= (y * k as real).Floor < k * (q + 1)
  {
    CastProduct(k, q);
    CastProduct(k, q + 1);
    FloorScaled(y, q as real, (q + 1) as real, k as real, k * q, k * (q + 1), y * k as real);
  }

  lemma TopBin(n: nat, k: nat)
    requires n > 0 && k > 0 && k * n > 0
    ensures (k * n - 1) / k == n - 1
  {
    assert k * n - 1 == k * (n - 1) + (k - 1);
    DivUnique(k * n - 1, k, n - 1, k - 1);
  }

  lemma Regroup(x: real, f: real, g: real)
    ensures x * (f * g) == (x * g) * f
  {
  }

  lemma FineFloor(x: real, n: nat, k: nat, fine: nat)
    requires 0.0 <= x < 1.0 && n > 0 && k > 0 && fine == k * n && fine > 0
    ensures 0 <= (x * n as real).Floor < n && 0 <= (x * fine as real).Floor < fine
    ensures (x * fine as real).Floor / k == (x * n as real).Floor
  {
    BelowOne(x, n);
    BelowOne(x, fine);
    var y := x * n as real;
    var q: nat := y.Floor;
    ScaledFloor(y, q, k);
    assert x * fine as real == y * k as real by {
      CastProduct(k, n);
      Regroup(x, k as real, n as real);
    }
    FloorQuotient((y * k as real).Floor, q, k);
  }

  lemma FloorQuotient(r: nat, q: nat, k: nat)
    requires k > 0 && k * q <= r < k * (q + 1)
    ensures r / k == q
  {
    assert k * (q + 1) == k * q + k;
    DivUnique(r, k, q, r - k * q);
  }

  lemma FineBelowTop(p: Scored, n: nat, k: nat, fine: nat)
    requires n > 0 && k > 0 && fine == k * n && fine > 0 && Clamp(p.confidence) < 1.0
    ensures BinOf(p, fine) / k == BinOf(p, n)
  {
    var x := Clamp(p.confidence);
    FineFloor(x, n, k, fine);
    assert BinOf(p, n) == (x * n as real).Floor by { BinBelowTop(p, n); }
    assert BinOf(p, fine) == (x * fine as real).Floor by { BinBelowTop(p, fine); }
  }

  lemma FineAtTop(p: Scored, n: nat, k: nat, fine: nat)
    requires n > 0 && k > 0 && fine == k * n && fine > 0 && Clamp(p.confidence) == 1.0
    ensures BinOf(p, fine) / k == BinOf(p, n)
  {
    BinAtTop(p, n);
    BinAtTop(p, fine);
    TopBin(n, k);
  }

  /** k*n bins refine n bins: k consecutive fine bins make one coarse bin. */
  lemma FineBinInCoarse(p: Scored, n: nat, k: nat, fine: nat)
    requires n > 0 && k > 0 && fine == k * n && fine > 0
    ensures BinOf(p, fine) / k == BinOf(p, n)
  {
    if Clamp(p.confidence) == 1.0 { FineAtTop(p, n, k, fine); } else { FineBelowTop(p, n, k, fine); }
  }

  lemma BinBelowTop(p: Scored, n: nat)
    requires n > 0 && Clamp(p.confidence) < 1.0
    ensures BinOf(p, n) == (Clamp(p.confidence) * n as real).Floor
  {
    BelowOne(Clamp(p.confidence), n);
  }

  lemma BinAtTop(p: Scored, n: nat)
    requires n > 0 && Clamp(p.confidence) == 1.0
    ensures BinOf(p, n) == n - 1
  {
    assert 1.0 * n as real == n as real;
  }

  lemma InRange(j: nat, k: nat, i: nat)
    requires k > 0
    ensures k * i <= j < k * i + k <==> j / k == i
  {
    if k * i <= j < k * i + k {
      DivUnique(j, k, i, j - k * i);
    }
    assert j == k * (j / k) + j % k;
  }

  ghost predicate Refines(fine: seq<nat>, coarse: seq<nat>, k: nat)
    requires k > 0
  {
    |fine| == |coarse| && forall j :: 0 <= j < |fine| ==> fine[j] / k == coarse[j]
  }

  /** A coarse bin deviates as its k fine bins do together. */
  lemma {:induction false} CoarseIsFineRange(pairs: seq<Scored>, fine: seq<nat>, coarse: seq<nat>, k: nat, i: nat,
                                             m: nat)
    requires k > 0 && |fine| == |pairs| && Refines(fine, coarse, k) && m <= |pairs|
    ensures Deviation(pairs, coarse, i, i + 1, m) == Deviation(pairs, fine, k * i, k * i + k, m)
    decreases m
  {
    if m > 0 {
      CoarseIsFineRange(pairs, fine, coarse, k, i, m - 1);
      InRange(fine[m - 1], k, i);
    }
  }

  lemma {:induction false} DeviationAdds(pairs: seq<Scored>, b: seq<nat>, lo: nat, mid: nat, hi: nat, k: nat)
    requires |b| == |pairs| && k <= |pairs| && lo <= mid <= hi
    ensures Deviation(pairs, b, lo, hi, k) == Deviation(pairs, b, lo, mid, k) + Deviation(pairs, b, mid, hi, k)
    ensures Deviation(pairs, b, lo, lo, k) == 0.0
    decreases k
  {
    if k > 0 { DeviationAdds(pairs, b, lo, mid, hi, k - 1); }
  }

  lemma {:induction false} Triangle(pairs: seq<Scored>, b: seq<nat>, lo: nat, hi: nat, k: nat)
    requires |b| == |pairs| && k <= |pairs| && lo <= hi
    ensures Abs(Deviation(pairs, b, lo, hi, k)) <= AbsDeviation(pairs, b, lo, hi, k)
    decreases hi
  {
    if hi > lo {
      Triangle(pairs, b, lo, hi - 1, k);
      DeviationAdds(pairs, b, lo, hi - 1, hi, k);
    } else {
      DeviationAdds(pairs, b, lo, lo, lo, k);
    }
  }

  lemma {:induction false} AbsDeviationAdds(pairs: seq<Scored>, b: seq<nat>, mid: nat, hi: nat, k: nat)
    requires |b| == |pairs| && k <= |pairs| && mid <= hi
    ensures AbsDeviation(pairs, b, 0, hi, k) == AbsDeviation(pairs, b, 0, mid, k) + AbsDeviation(pairs, b, mid, hi, k)
    decreases hi
  {
    if hi > mid { AbsDeviationAdds(pairs, b, mid, hi - 1, k); }
  }

  lemma {:induction false} FinerDeviatesMore(pairs: seq<Scored>, fine: seq<nat>, coarse: seq<nat>, k: nat, m: nat)
    requires k > 0 && |fine| == |pairs| && Refines(fine, coarse, k)
    ensures AbsDeviation(pairs, coarse, 0, m, |pairs|) <= AbsDeviation(pairs, fine, 0, k * m, |pairs|)
    decreases m
  {
    if m > 0 {
      FinerDeviatesMore(pairs, fine, coarse, k, m - 1);
      var lo, hi := k * (m - 1), k * m;
      assert hi == lo + k;
      CoarseIsFineRange(pairs, fine, coarse, k, m - 1, |pairs|);
      Triangle(pairs, fine, lo, hi, |pairs|);
      AbsDeviationAdds(pairs, fine, lo, hi, |pairs|);
    }
  }

  lemma BinsRefine(pairs: seq<Scored>, n: nat, k: nat)
    requires n > 0 && k > 0 && k * n > 0
    ensures Refines(Bins(pairs, k * n), Bins(pairs, n), k)
  {
    forall j | 0 <= j < |pairs| ensures BinOf(pairs[j], k * n) / k == BinOf(pairs[j], n) {
      FineBinInCoarse(pairs[j], n, k, k * n);
    }
  }

  lemma DivideBoth(a: real, b: real, t: real)
    requires a <= b && t > 0.0
    ensures a / t <= b / t
  {
    assert b / t - a / t == (b - a) / t;
  }

  /** Splitting every bin into k never lowers the calibration error. */
  lemma RefiningNeverLowers(pairs: seq<Scored>, n: nat, k: nat)
    requires n > 0 && k > 0
    ensures k * n > 0 && Ece(pairs, n) <= Ece(pairs, k * n)
  {
    AtLeastOneFactor(k, n);
    if pairs != [] {
      BinsRefine(pairs, n, k);
      FinerDeviatesMore(pairs, Bins(pairs, k * n), Bins(pairs, n), k, n);
      DivideBoth(AbsDeviation(pairs, Bins(pairs, n), 0, n, |pairs|),
                 AbsDeviation(pairs, Bins(pairs, k * n), 0, k * n, |pairs|), |pairs| as real);
    }
  }

  lemma {:induction false} OneBinHoldsAll(pairs: seq<Scored>, b: seq<nat>, k: nat)
    requires |b| == |pairs| && k <= |pairs| && forall j :: 0 <= j < |b| ==> b[j] == 0
    ensures Members(pairs, b, 0, k) == pairs[..k]
  {
    if k > 0 { OneBinHoldsAll(pairs, b, k - 1); }
  }

  lemma OneBinDeviation(pairs: seq<Scored>, b: seq<nat>)
    requires |b| == |pairs| && forall j :: 0 <= j < |b| ==> b[j] == 0
    ensures AbsDeviation(pairs, b, 0, 1, |pairs|) == Abs(SumConfidence(pairs) - SumOutcome(pairs))
  {
    OneBinHoldsAll(pairs, b, |pairs|);
    assert pairs[..|pairs|] == pairs;
    MembersDeviate(pairs, b, 0, |pairs|);
    assert AbsDeviation(pairs, b, 0, 0, |pairs|) == 0.0;
  }

  lemma OneBinGap(pairs: seq<Scored>)
    requires pairs != []
    ensures Ece(pairs, 1) == Abs(SumConfidence(pairs) / |pairs| as real - SumOutcome(pairs) / |pairs| as real)
  {
    OneBinDeviation(pairs, Bins(pairs, 1));
    DifferenceOfQuotients(SumConfidence(pairs), SumOutcome(pairs), |pairs| as real);
  }

  /** The error is at least the gap of the overall averages... */
  lemma AtLeastOverallGap(pairs: seq<Scored>, n: nat)
    requires n > 0 && pairs != []
    ensures Abs(SumConfidence(pairs) / |pairs| as real - SumOutcome(pairs) / |pairs| as real) <= Ece(pairs, n)
  {
    OneBinGap(pairs);
    RefiningNeverLowers(pairs, 1, n);
  }

  /** ... and at most the mean absolute error, hence at most 1 for confidences in [0, 1]. */
  lemma AtMostMeanError(pairs: seq<Scored>, n: nat)
    requires n > 0 && pairs != []
    ensures Ece(pairs, n) <= SumError(pairs, |pairs|) / |pairs| as real
    ensures (forall k :: 0 <= k < |pairs| ==> 0.0 <= pairs[k].confidence <= 1.0) ==> Ece(pairs, n) <= 1.0
  {
    var t := |pairs| as real;
    AtMostSumError(pairs, Bins(pairs, n), n, |pairs|);
    DivideBoth(AbsDeviation(pairs, Bins(pairs, n), 0, n, |pairs|), SumError(pairs, |pairs|), t);
    if forall k :: 0 <= k < |pairs| ==> 0.0 <= pairs[k].confidence <= 1.0 {
      SumErrorAtMostCount(pairs, |pairs|);
      DivideBoth(SumError(pairs, |pairs|), t, t);
      QuotientTimes(t, t);
    }
  }
}
