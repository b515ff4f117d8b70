/** Collecting the first `limit` commits page by page: connectors/bitbucket/api.py::commits.
    A page is the list of commits it holds; every page but the last links to the next. */
module CommitPages {

  datatype Commit = Commit(hash: string, message: string)

  function Flatten(pages: seq<seq<Commit>>): seq<Commit> {
    if pages == [] then [] else pages[0] + Flatten(pages[1..])
  }

  /** The first `limit`; none when that is negative. */
  function Slice(raw: seq<Commit>, limit: int): seq<Commit> {
    if limit >= |raw| then raw else if limit < 0 then [] else raw[..limit]
  }

  /** Commits without a message are not reported. */
  function Reported(raw: seq<Commit>): seq<Commit> {
    if raw == [] then [] else (if raw[0].message != "" then [raw[0]] else []) + Reported(raw[1..])
  }

  lemma SliceIsPrefix(raw: seq<Commit>, limit: int)
    ensures Slice(raw, limit) <= raw
    ensures |Slice(raw, limit)| == if limit < 0 then 0 else if limit < |raw| then limit else |raw|
  {
  }

  lemma ReportedOne(c: Commit)
    ensures Reported([c]) == if c.message == "" then [] else [c]
  {
    assert [c][1..] == [];
  }

  /** The report keeps the commits with a message, in order, and no other. */
  lemma {:induction false} ReportedIsFilter(a: seq<Commit>, b: seq<Commit>)
    ensures Reported(a + b) == Reported(a) + Reported(b)
    ensures forall c :: c in Reported(a) <==> c in a && c.message != ""
  {
    if a == [] {
      assert a + b == b;
    } else {
      assert (a + b)[1..] == a[1..] + b;
      ReportedIsFilter(a[1..], b);
    }
  }

  lemma {:induction false} FlattenSplit(pages: seq<seq<Commit>>, n: nat)
    requires n <= |pages|
    ensures Flatten(pages) == Flatten(pages[..n]) + Flatten(pages[n..])
    decreases n
  {
    if n == 0 {
      assert pages[n..] == pages;
    } else {
      FlattenSplit(pages[1..], n - 1);
      assert pages[..n][0] == pages[0] && pages[..n][1..] == pages[1..][..n - 1] && pages[1..][n - 1..] == pages[n..];
      assert pages[0] + (Flatten(pages[1..][..n - 1]) + Flatten(pages[n..]))
        == (pages[0] + Flatten(pages[1..][..n - 1])) + Flatten(pages[n..]);
    }
  }

  lemma FlattenSnoc(pages: seq<seq<Commit>>, n: nat)
    requires n < |pages|
    ensures Flatten(pages[..n + 1]) == Flatten(pages[..n]) + pages[n]
  {
    var p := pages[..n + 1];
    FlattenSplit(p, n);
    assert p[..n] == pages[..n] && p[n..] == [pages[n]];
    assert Flatten([pages[n]]) == pages[n] + [] by { assert [pages[n]][1..] == []; }
  }

  /** The loop ends after n pages: it stops as soon as `limit` commits are in hand or no page is left. */
  ghost predicate StopsAfter(pages: seq<seq<Commit>>, n: nat, limit: int) {
    && n <= |pages|
    && (n == |pages| || |Flatten(pages[..n])| >= limit)
    && (n > 0 ==> |Flatten(pages[..n - 1])| < limit)
  }

  method Collect(pages: seq<seq<Commit>>, limit: int) returns (raw: seq<Commit>, next: nat)
    ensures StopsAfter(pages, next, limit) && raw == Flatten(pages[..next])
  {
    raw, next := [], 0;
    while next < |pages| && |raw| < limit
      invariant next <= |pages| && raw == Flatten(pages[..next])
      invariant next > 0 ==> |Flatten(pages[..next - 1])| < limit
      decreases |pages| - next
    {
      FlattenSnoc(pages, next);
      raw := raw + pages[next];
      next := next + 1;
    }
  }

  lemma ReportedStep(kept: seq<Commit>, i: nat, output: seq<Commit>)
    requires i < |kept|
    ensures output + Reported(kept[i..]) ==
      (if kept[i].message != "" then output + [kept[i]] else output) + Reported(kept[i + 1..])
  {
    var rest := Reported(kept[i + 1..]);
    assert kept[i..][0] == kept[i] && kept[i..][1..] == kept[i + 1..];
    if kept[i].message != "" {
      assert output + ([kept[i]] + rest) == (output + [kept[i]]) + rest;
    } else {
      assert [] + rest == rest;
    }
  }

  method Report(kept: seq<Commit>) returns (output: seq<Commit>)
    ensures output == Reported(kept)
  {
    output := [];
    for i := 0 to |kept|
      invariant Reported(kept) == output + Reported(kept[i..])
    {
      ReportedStep(kept, i, output);
      if kept[i].message != "" { output := output + [kept[i]]; }
    }
  }

  lemma EnoughInHand(pages: seq<seq<Commit>>, n: nat, limit: int)
    requires StopsAfter(pages, n, limit)
    ensures Slice(Flatten(pages[..n]), limit) == Slice(Flatten(pages), limit)
  {
    FlattenSplit(pages, n);
    if n == |pages| { assert pages[..n] == pages; }
  }

  /** The commits with a message among the first `limit` of the whole history, and a flag. */
  method Commits(pages: seq<seq<Commit>>, limit: int) returns (output: seq<Commit>, capped: bool, ghost n: nat)
    ensures output == Reported(Slice(Flatten(pages), limit))
    ensures StopsAfter(pages, n, limit) && (capped <==> |Flatten(pages[..n])| > limit || n < |pages|)
  {
    var raw, next := Collect(pages, limit);
    n := next;
    EnoughInHand(pages, n, limit);
    capped := |raw| > limit || next < |pages|;
    output := Report(Slice(raw, limit));
  }

  /** The flag means that more commits exist, unless exactly `limit` are in hand and every page left
      unread is empty. */
  lemma CappedIsExactIff(pages: seq<seq<Commit>>, n: nat, limit: int)
    requires StopsAfter(pages, n, limit)
    ensures var have, left, total := |Flatten(pages[..n])|, |Flatten(pages[n..])|, |Flatten(pages)|;
      ((have > limit || n < |pages|) <==> total > limit) <==> !(n < |pages| && have == limit && left == 0)
  {
    FlattenSplit(pages, n);
    assert n == |pages| ==> pages[n..] == [];
  }

  /** One commit, an empty page after it, a limit of one: the flag is raised and nothing is left. */
  lemma EmptyPageAtTheLimit(c: Commit)
    ensures var pages := [[c], []];
      StopsAfter(pages, 1, 1) && 1 < |pages| && |Flatten(pages)| == 1
  {
    var pages: seq<seq<Commit>> := [[c], []];
    assert pages[1..] == [[]] && pages[1..][1..] == [];
    assert pages[..1] == [[c]] && pages[..1][1..] == [] && pages[..0] == [];
    assert Flatten(pages[1..]) == [];
  }
}
