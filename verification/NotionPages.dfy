/** The page worklist of connectors/notion/api.py::fetch_pages. Rendering text is left out: a page is
    its id, and the workspace says which child pages and database rows its blocks mention. */
module NotionPages {
  import opened Graph
  import opened Options
  import opened Sequences

  datatype Page = Page(id: string, archived: bool)

  /** What rendering a page finds: child page ids, and the rows of its child databases. */
  datatype Body = Body(children: seq<string>, rows: seq<Page>)

  /** The search results; the pages a GET yields unarchived; the pages whose blocks can be read. */
  datatype Workspace = Workspace(found: seq<Page>, live: set<string>, bodies: map<string, Body>)

  predicate Offerable(p: Page) { !p.archived && p.id != "" }

  predicate Fetchable(w: Workspace, id: string) { id != "" && id in w.live }

  /** The child pages a rendering collects, and the pages its databases list. */
  function Children(w: Workspace, id: string): set<string> {
    if id in w.bodies then set c | c in w.bodies[id].children && c != "" else {}
  }

  function Rows(w: Workspace, id: string): (ids: set<string>)
    ensures id in w.bodies ==> forall p :: p in w.bodies[id].rows && Offerable(p) ==> p.id in ids
  {
    if id in w.bodies then set p | p in w.bodies[id].rows && Offerable(p) :: p.id else {}
  }

  function Mentions(w: Workspace, id: string): set<string> { Children(w, id) + Rows(w, id) }

  /** What a rendered page leads to: the children that can be fetched, and whatever is listed. */
  function Links(w: Workspace): Edges {
    map id | id in w.bodies :: (set c | c in Children(w, id) && Fetchable(w, c)) + Rows(w, id)
  }

  ghost predicate IsRoot(w: Workspace, id: string) {
    exists p :: p in w.found && Offerable(p) && p.id == id
  }

  /** The pages a sync should render. */
  ghost predicate Wanted(w: Workspace, includeChildren: bool, id: string) {
    exists r :: IsRoot(w, r) && if includeChildren then Reaches(Links(w), r, id) else r == id
  }

  /** Every id the workspace mentions. */
  ghost function Mentioned(w: Workspace): (ids: set<string>)
    ensures forall p :: p in w.found ==> p.id in ids
    ensures forall a, b :: Edge(Links(w), a, b) ==> b in ids
  {
    (set p | p in w.found :: p.id) + set a, b | a in Links(w) && b in Links(w)[a] :: b
  }

  lemma {:induction false} DistinctFits(s: seq<string>, universe: set<string>)
    requires Distinct(s) && forall x :: x in s ==> x in universe
    ensures |s| <= |universe|
  {
    if s != [] {
      var last := s[|s| - 1];
      forall x | x in s[..|s| - 1] ensures x in universe - {last} { }
      DistinctFits(s[..|s| - 1], universe - {last});
    }
  }

  /** The queue of page ids to render, and every id ever considered. */
  class Worklist {
    ghost const w: Workspace
    ghost const includeChildren: bool
    var queue: seq<string>
    var queued: set<string>

    /** Every queued page is considered and wanted, once. */
    ghost predicate Valid()
      reads this
    {
      && Distinct(queue)
      && forall id :: id in queue ==>
           id != "" && id in queued && id in Mentioned(w) && Wanted(w, includeChildren, id)
    }

    constructor (ghost w: Workspace, ghost includeChildren: bool)
      ensures Valid() && queue == [] && queued == {} && this.w == w && this.includeChildren == includeChildren
    {
      this.w := w;
      this.includeChildren := includeChildren;
      queue := [];
      queued := {};
    }

    method Offer(page: Page)
      requires Valid()
      requires Offerable(page) ==> page.id in Mentioned(w) && Wanted(w, includeChildren, page.id)
      modifies this
      ensures Valid()
      ensures queued == if Offerable(page) then old(queued) + {page.id} else old(queued)
      ensures queue == if Offerable(page) && page.id !in old(queued) then old(queue) + [page.id] else old(queue)
    {
      if page.archived { return; }
      if page.id == "" || page.id in queued { return; }
      queued := queued + {page.id};
      queue := queue + [page.id];
    }

    /** `fetched`: the GET of this page succeeded and it is not archived. */
    method EnqueueChild(id: string, fetched: bool)
      requires Valid() && id != "" && fetched == Fetchable(w, id)
      requires Fetchable(w, id) ==> id in Mentioned(w) && Wanted(w, includeChildren, id)
      modifies this
      ensures Valid() && queued == old(queued) + {id}
      ensures queue == if fetched && id !in old(queued) then old(queue) + [id] else old(queue)
    {
      if id in queued { return; }
      queued := queued + {id};
      if fetched { queue := queue + [id]; }
    }

    method OfferAll(pages: seq<Page>)
      requires Valid()
      requires forall p :: p in pages && Offerable(p) ==> p.id in Mentioned(w) && Wanted(w, includeChildren, p.id)
      modifies this
      ensures Valid() && old(queue) <= queue
      ensures queued == old(queued) + set p | p in pages && Offerable(p) :: p.id
      ensures forall x :: x in queue <==> x in old(queue) || (x in queued && x !in old(queued))
    {
      for k := 0 to |pages|
        invariant Valid() && old(queue) <= queue
        invariant queued == old(queued) + set p | p in pages[..k] && Offerable(p) :: p.id
        invariant forall x :: x in queue <==> x in old(queue) || (x in queued && x !in old(queued))
      {
        assert forall p :: p in pages[..k + 1] <==> p in pages[..k] || p == pages[k];
        Offer(pages[k]);
      }
      assert pages[..|pages|] == pages;
    }

    /** Rendering collects no empty ids. */
    method EnqueueChildren(w: Workspace, ids: seq<string>)
      requires Valid() && w == this.w
      requires forall id :: id in ids && Fetchable(w, id) ==> id in Mentioned(w) && Wanted(w, includeChildren, id)
      modifies this
      ensures Valid() && old(queue) <= queue
      ensures queued == old(queued) + set c | c in ids && c != ""
      ensures forall x :: x in queue <==> x in old(queue) || (x in queued && x !in old(queued) && Fetchable(w, x))
    {
      for k := 0 to |ids|
        invariant Valid() && old(queue) <= queue
        invariant queued == old(queued) + set c | c in ids[..k] && c != ""
        invariant forall x :: x in queue <==> x in old(queue) || (x in queued && x !in old(queued) && Fetchable(w, x))
      {
        assert forall c :: c in ids[..k + 1] <==> c in ids[..k] || c == ids[k];
        if ids[k] != "" { EnqueueChild(ids[k], Fetchable(w, ids[k])); }
      }
      assert ids[..|ids|] == ids;
    }

    /** Considers everything one rendered page mentions, its children before its rows. */
    method Expand(w: Workspace, id: string)
      requires Valid() && w == this.w && includeChildren && id in w.bodies && Wanted(w, true, id)
      modifies this
      ensures Valid() && old(queue) <= queue
      ensures queued == old(queued) + Mentions(w, id)
      ensures forall x :: x in queue <==>
        x in old(queue) || (x in Mentions(w, id) && x !in old(queued) && Kept(w, id, x))
    {
      var body := w.bodies[id];
      forall next | Edge(Links(w), id, next) ensures Wanted(w, true, next) && next in Mentioned(w) {
        WantedNext(w, id, next);
      }
      forall c | c in body.children && Fetchable(w, c) ensures c in Mentioned(w) && Wanted(w, true, c) {
        assert Edge(Links(w), id, c);
      }
      EnqueueChildren(w, body.children);
      forall p | p in body.rows && Offerable(p) ensures p.id in Mentioned(w) && Wanted(w, true, p.id) {
        assert Edge(Links(w), id, p.id);
      }
      OfferAll(body.rows);
    }

    /** Expanding page n of the queue keeps queue and considered ids in step. */
    method ExpandNext(w: Workspace, ghost n: nat, id: string)
      requires Valid() && w == this.w && includeChildren && id in w.bodies && Wanted(w, true, id)
      requires InStep(w, queue, queued, n) && n < |queue| && id == queue[n]
      modifies this
      ensures Valid() && old(queue) <= queue && InStep(w, queue, queued, n + 1)
    {
      ghost var before, known := queue, queued;
      Expand(w, id);
      ExpandKeepsStep(w, before, known, queue, queued, n);
    }

    /** The pages rendered so far are the first of the queue, which is in step with them. */
    ghost predicate At(pages: seq<string>, seen: set<string>)
      reads this
    {
      && Valid() && Rendered(w, queue, pages, seen)
      && InStep(w, queue, queued, if includeChildren then |pages| else 0)
    }

    /** Renders the next page of the queue; None when its blocks cannot be read. */
    method RenderNext(w: Workspace, includeChildren: bool, pages: seq<string>, seen: set<string>)
      returns (result: Option<seq<string>>)
      requires At(pages, seen) && w == this.w && includeChildren == this.includeChildren && |pages| < |queue|
      modifies this
      ensures result.None? ==> old(queue)[|pages|] !in w.bodies
      ensures result.Some? ==>
        && old(queue) <= queue && result.value == pages + [old(queue)[|pages|]]
        && At(result.value, seen + {old(queue)[|pages|]})
    {
      var id := queue[|pages|];
      assert id in queue;
      if id !in w.bodies {
        return None;
      }
      ghost var before := queue;
      ghost var n := |pages|;
      if includeChildren { ExpandNext(w, n, id); }
      assert InStep(w, queue, queued, if includeChildren then n + 1 else 0);
      RenderedMore(w, before, queue, pages, seen);
      var more := pages + [id];
      assert |more| == n + 1;
      result := Some(more);
    }
  }

  // ---------------------------------------------------------------- what is rendered

  /** The first mention of x, by this page, gets it queued. */
  predicate Kept(w: Workspace, id: string, x: string) {
    Fetchable(w, x) || x !in Children(w, id)
  }

  /** Of the first n pages, the i-th is the first to mention x. */
  ghost predicate First(w: Workspace, pages: seq<string>, n: nat, i: int, x: string)
    requires n <= |pages|
  {
    0 <= i < n && x in Mentions(w, pages[i]) && forall j :: 0 <= j < i ==> x !in Mentions(w, pages[j])
  }

  /** x is a search result or mentioned by one of the first n pages. */
  ghost predicate Known(w: Workspace, pages: seq<string>, n: nat, x: string)
    requires n <= |pages|
  {
    IsRoot(w, x) || exists i :: 0 <= i < n && x in Mentions(w, pages[i])
  }

  /** x is a search result, or the first page to mention it gets it queued. */
  ghost predicate Admitted(w: Workspace, pages: seq<string>, n: nat, x: string)
    requires n <= |pages|
  {
    IsRoot(w, x) || exists i :: First(w, pages, n, i, x) && Kept(w, pages[i], x)
  }

  /** The result of a sync, in the order of rendering: exactly the search results and the pages whose first
      mention was not a child block that could not be fetched. */
  ghost predicate Renders(w: Workspace, includeChildren: bool, pages: seq<string>) {
    forall x :: x in pages <==> Admitted(w, pages, if includeChildren then |pages| else 0, x)
  }

  lemma KnownStep(w: Workspace, before: seq<string>, after: seq<string>, n: nat, x: string)
    requires before <= after && n < |before|
    ensures Known(w, after, n + 1, x) <==> Known(w, before, n, x) || x in Mentions(w, before[n])
  {
    assert after[n] == before[n];
    if i :| 0 <= i < n && x in Mentions(w, before[i]) { assert x in Mentions(w, after[i]); }
    if i :| 0 <= i < n + 1 && x in Mentions(w, after[i]) { assert x in Mentions(w, before[i]); }
  }

  lemma AdmittedStep(w: Workspace, before: seq<string>, after: seq<string>, n: nat, x: string)
    requires before <= after && n < |before|
    ensures Admitted(w, after, n + 1, x) <==>
      Admitted(w, before, n, x) || (!Known(w, before, n, x) && x in Mentions(w, before[n]) && Kept(w, before[n], x))
  {
    assert forall i :: 0 <= i <= n ==> after[i] == before[i];
    if i :| First(w, before, n, i, x) && Kept(w, before[i], x) {
      assert First(w, after, n + 1, i, x);
    }
    if !Known(w, before, n, x) && x in Mentions(w, before[n]) && Kept(w, before[n], x) {
      assert First(w, after, n + 1, n, x);
    }
    if i :| First(w, after, n + 1, i, x) && Kept(w, after[i], x) {
      if i < n { assert First(w, before, n, i, x); }
    }
  }

  lemma WantedNext(w: Workspace, id: string, next: string)
    requires Wanted(w, true, id) && Edge(Links(w), id, next)
    ensures Wanted(w, true, next)
  {
    var r :| IsRoot(w, r) && Reaches(Links(w), r, id);
    ReachesStep(Links(w), r, id, next);
  }

  lemma RootWanted(w: Workspace, includeChildren: bool, p: Page)
    requires p in w.found && Offerable(p)
    ensures Wanted(w, includeChildren, p.id)
  {
    assert IsRoot(w, p.id);
    ReachesSelf(Links(w), p.id, 0);
  }

  /** After n pages have been expanded: what has been considered, and what of it is queued. */
  ghost predicate InStep(w: Workspace, queue: seq<string>, queued: set<string>, n: nat) {
    n <= |queue| && forall x :: (x in queued <==> Known(w, queue, n, x)) && (x in queue <==> Admitted(w, queue, n, x))
  }

  lemma ExpandKeepsStep(w: Workspace, before: seq<string>, known: set<string>, after: seq<string>, queued: set<string>,
                        n: nat)
    requires InStep(w, before, known, n) && n < |before| && before <= after
    requires queued == known + Mentions(w, before[n])
    requires forall x :: x in after <==>
      x in before || (x in Mentions(w, before[n]) && x !in known && Kept(w, before[n], x))
    ensures InStep(w, after, queued, n + 1)
  {
    forall x ensures (x in queued <==> Known(w, after, n + 1, x)) && (x in after <==> Admitted(w, after, n + 1, x)) {
      KnownStep(w, before, after, n, x);
      AdmittedStep(w, before, after, n, x);
    }
  }

  lemma StartInStep(w: Workspace, queue: seq<string>, queued: set<string>)
    requires queued == set p | p in w.found && Offerable(p) :: p.id
    requires forall x :: x in queue <==> x in queued
    ensures InStep(w, queue, queued, 0)
  {
    assert forall x :: x in queued <==> IsRoot(w, x);
  }

  lemma StepsDone(w: Workspace, includeChildren: bool, pages: seq<string>, queued: set<string>)
    requires InStep(w, pages, queued, if includeChildren then |pages| else 0)
    ensures Renders(w, includeChildren, pages)
  {
  }

  /** The rendered pages are the first of the queue. */
  ghost predicate Rendered(w: Workspace, queue: seq<string>, pages: seq<string>, seen: set<string>) {
    pages <= queue && (forall id :: id in seen <==> id in pages) && forall id :: id in pages ==> id in w.bodies
  }

  lemma NextIsNew(queue: seq<string>, pages: seq<string>)
    requires Distinct(queue) && pages <= queue && |pages| < |queue|
    ensures queue[|pages|] !in pages
  {
  }

  lemma RenderedMore(w: Workspace, before: seq<string>, after: seq<string>, pages: seq<string>, seen: set<string>)
    requires Rendered(w, before, pages, seen) && |pages| < |before| && before <= after && before[|pages|] in w.bodies
    ensures Rendered(w, after, pages + [before[|pages|]], seen + {before[|pages|]})
  {
    assert pages + [before[|pages|]] == after[..|pages| + 1];
  }

  /** Terminates on any workspace, cycles included; renders each page at most once and no unwanted one, and
      exactly those `Renders` describes. None is the error of a page whose blocks cannot be read. */
  method FetchPages(w: Workspace, includeChildren: bool) returns (result: Option<seq<string>>)
    ensures result.Some? ==> Distinct(result.value) && Renders(w, includeChildren, result.value)
    ensures result.Some? ==> forall id :: id in result.value ==> id in w.bodies && Wanted(w, includeChildren, id)
    ensures result.None? ==> exists id :: Wanted(w, includeChildren, id) && id !in w.bodies
  {
    var list := new Worklist(w, includeChildren);
    forall p | p in w.found && Offerable(p) ensures Wanted(w, includeChildren, p.id) {
      RootWanted(w, includeChildren, p);
    }
    list.OfferAll(w.found);
    StartInStep(w, list.queue, list.queued);
    var pages: seq<string> := [];
    var seen: set<string> := {};
    var index := 0;
    DistinctFits(list.queue, Mentioned(w));
    while index < |list.queue|
      invariant list.w == w && list.includeChildren == includeChildren && list.At(pages, seen)
      invariant index == |pages| <= |list.queue| <= |Mentioned(w)|
      decreases |Mentioned(w)| - index
    {
      NextIsNew(list.queue, pages);
      var id := list.queue[index];
      assert id in list.queue;
      index := index + 1;
      if id == "" || id in seen { continue; }
      var more := list.RenderNext(w, includeChildren, pages, seen);
      if more.None? { return None; }
      pages, seen := more.value, seen + {id};
      DistinctFits(list.queue, Mentioned(w));
    }
    assert pages == list.queue;
    StepsDone(w, includeChildren, pages, list.queued);
    result := Some(pages);
  }

  // ---------------------------------------------------------------- how much is covered

  lemma FirstIsUnique(w: Workspace, pages: seq<string>, i: int, k: int, x: string)
    requires First(w, pages, |pages|, i, x) && First(w, pages, |pages|, k, x)
    ensures i == k
  {
  }

  lemma {:induction false} FirstMention(w: Workspace, pages: seq<string>, n: nat, x: string) returns (i: nat)
    requires n < |pages| && x in Mentions(w, pages[n])
    ensures First(w, pages, |pages|, i, x)
  {
    if k :| 0 <= k < n && x in Mentions(w, pages[k]) {
      i := FirstMention(w, pages, k, x);
    } else {
      i := n;
    }
  }

  /** The i-th page is the first to mention x, as a child block. */
  ghost predicate FirstAsChild(w: Workspace, pages: seq<string>, i: int, x: string) {
    First(w, pages, |pages|, i, x) && x in Children(w, pages[i])
  }

  /** A page that some rendered page mentions is missing exactly when the first to mention it has it as a child
      block and it cannot be fetched, and it is no search result. */
  lemma MissingIff(w: Workspace, pages: seq<string>, a: string, x: string)
    requires Renders(w, true, pages) && a in pages && x in Mentions(w, a)
    ensures x !in pages <==> !IsRoot(w, x) && !Fetchable(w, x) && exists i :: FirstAsChild(w, pages, i, x)
  {
    var n :| 0 <= n < |pages| && pages[n] == a;
    var i := FirstMention(w, pages, n, x);
    forall k | First(w, pages, |pages|, k, x) ensures k == i { FirstIsUnique(w, pages, i, k, x); }
    assert x in pages <==> Admitted(w, pages, |pages|, x);
    assert Admitted(w, pages, |pages|, x) <==> IsRoot(w, x) || Kept(w, pages[i], x);
    assert (exists k :: FirstAsChild(w, pages, k, x)) <==> x in Children(w, pages[i]) by {
      if x in Children(w, pages[i]) { assert FirstAsChild(w, pages, i, x); }
    }
  }

  /** No page is rendered that was not there to be: each was listed, not archived, by the search or by a database of
      a rendered page, or is a child block of one and was fetched, not archived. */
  lemma RenderedWasOffered(w: Workspace, includeChildren: bool, pages: seq<string>, x: string)
    requires Renders(w, includeChildren, pages) && x in pages
    ensures x != ""
    ensures
      || (exists p :: p in w.found && !p.archived && p.id == x)
      || (includeChildren && exists a :: a in pages && a in w.bodies && x in w.bodies[a].children && x in w.live)
      || (includeChildren && exists a, p ::
            a in pages && a in w.bodies && p in w.bodies[a].rows && !p.archived && p.id == x)
  {
    var n := if includeChildren then |pages| else 0;
    assert Admitted(w, pages, n, x);
    if !IsRoot(w, x) {
      var i :| First(w, pages, n, i, x) && Kept(w, pages[i], x);
      assert pages[i] in pages;
    }
  }

  /** What the search finds unarchived is rendered; so is, if children are asked for, every child block of a rendered
      page that can be fetched, and every unarchived row of its databases that can be fetched or is nowhere a child
      block. */
  lemma OfferedIsRendered(w: Workspace, includeChildren: bool, pages: seq<string>)
    requires Renders(w, includeChildren, pages)
    ensures forall p :: p in w.found && !p.archived && p.id != "" ==> p.id in pages
    ensures includeChildren ==> forall a, c ::
      a in pages && a in w.bodies && c in w.bodies[a].children && c != "" && c in w.live ==> c in pages
    ensures includeChildren ==> forall a, p ::
      && a in pages && a in w.bodies && p in w.bodies[a].rows && !p.archived && p.id != ""
      && (p.id in w.live || forall b :: b in pages && b in w.bodies ==> p.id !in w.bodies[b].children)
      ==> p.id in pages
  {
    var n := if includeChildren then |pages| else 0;
    forall p | p in w.found && !p.archived && p.id != "" ensures p.id in pages {
      assert IsRoot(w, p.id) && Admitted(w, pages, n, p.id);
    }
    if includeChildren {
      forall a, c | a in pages && a in w.bodies && c in w.bodies[a].children && c != "" && c in w.live
        ensures c in pages
      {
        MissingIff(w, pages, a, c);
      }
      forall a, p | a in pages && a in w.bodies && p in w.bodies[a].rows && !p.archived && p.id != "" &&
        (p.id in w.live || forall b :: b in pages && b in w.bodies ==> p.id !in w.bodies[b].children)
        ensures p.id in pages
      {
        assert p.id in Rows(w, a);
        MissingIff(w, pages, a, p.id);
        if p.id !in w.live {
          forall i ensures !FirstAsChild(w, pages, i, p.id) {
            if 0 <= i < |pages| { assert pages[i] in pages; }
          }
        }
      }
    }
  }

  /** The links to pages that can be fetched. */
  function FetchableLinks(w: Workspace): Edges {
    map id | id in w.bodies :: set x | x in Mentions(w, id) && Fetchable(w, x)
  }

  lemma FetchableLinkIsRendered(w: Workspace, pages: seq<string>, a: string, b: string)
    requires Renders(w, true, pages) && a in pages && Edge(FetchableLinks(w), a, b)
    ensures b in pages
  {
    MissingIff(w, pages, a, b);
  }

  /** Whatever can be reached from a search result through fetchable pages is rendered. */
  lemma FetchableReachedIsRendered(w: Workspace, pages: seq<string>, r: string, id: string)
    requires Renders(w, true, pages) && IsRoot(w, r) && Reaches(FetchableLinks(w), r, id)
    ensures id in pages
  {
    var s := set x | x in pages;
    forall x, y | x in s && Edge(FetchableLinks(w), x, y) ensures y in s { FetchableLinkIsRendered(w, pages, x, y); }
    ClosedHoldsReachable(FetchableLinks(w), s, r, id);
  }

  /** A page listed by a rendered one, but first met as a child block whose GET failed. */
  ghost predicate PassedOver(w: Workspace, pages: seq<string>, x: string) {
    && !IsRoot(w, x) && !Fetchable(w, x)
    && (exists a :: a in pages && x in Rows(w, a))
    && exists i :: FirstAsChild(w, pages, i, x)
  }

  lemma LinkIsRenderedOrPassedOver(w: Workspace, pages: seq<string>, a: string, b: string)
    requires Renders(w, true, pages) && a in pages && Edge(Links(w), a, b)
    ensures b in pages || PassedOver(w, pages, b)
  {
    assert b in Mentions(w, a);
    MissingIff(w, pages, a, b);
  }

  lemma NothingMissed(w: Workspace, pages: seq<string>, id: string)
    requires Renders(w, true, pages) && (forall x :: !PassedOver(w, pages, x)) && Wanted(w, true, id)
    ensures id in pages
  {
    var r :| IsRoot(w, r) && Reaches(Links(w), r, id);
    var s := set x | x in pages;
    forall x, y | x in s && Edge(Links(w), x, y) ensures y in s { LinkIsRenderedOrPassedOver(w, pages, x, y); }
    ClosedHoldsReachable(Links(w), s, r, id);
  }

  /** Exactly the wanted pages are rendered if and only if no listed page was first met as a child block whose
      GET failed. */
  lemma CoverageIsCompleteIff(w: Workspace, pages: seq<string>)
    requires Renders(w, true, pages) && forall id :: id in pages ==> Wanted(w, true, id)
    ensures (forall id :: Wanted(w, true, id) <==> id in pages) <==> forall x :: !PassedOver(w, pages, x)
  {
    if forall x :: !PassedOver(w, pages, x) {
      forall id | Wanted(w, true, id) ensures id in pages { NothingMissed(w, pages, id); }
    }
    if x :| PassedOver(w, pages, x) {
      var a :| a in pages && x in Rows(w, a);
      WantedNext(w, a, x);
      MissingIff(w, pages, a, x);
    }
  }

  /** A page that cannot be fetched, is no search result, and is both listed and a child block. */
  ghost predicate Ambiguous(w: Workspace, x: string) {
    && !IsRoot(w, x) && !Fetchable(w, x)
    && (exists a :: Wanted(w, true, a) && x in Rows(w, a)) && exists b :: Wanted(w, true, b) && x in Children(w, b)
  }

  /** In a workspace without such a page a sync renders exactly the wanted pages. */
  lemma UnambiguousCoverageIsExact(w: Workspace, pages: seq<string>, id: string)
    requires Renders(w, true, pages) && forall x :: x in pages ==> Wanted(w, true, x)
    requires forall x :: !Ambiguous(w, x)
    ensures id in pages <==> Wanted(w, true, id)
  {
    forall x ensures !PassedOver(w, pages, x) { PassedOverIsAmbiguous(w, pages, x); }
    CoverageIsCompleteIff(w, pages);
  }

  lemma PassedOverIsAmbiguous(w: Workspace, pages: seq<string>, x: string)
    requires forall a :: a in pages ==> Wanted(w, true, a)
    ensures PassedOver(w, pages, x) ==> Ambiguous(w, x)
  {
    if PassedOver(w, pages, x) {
      var i :| FirstAsChild(w, pages, i, x);
      assert pages[i] in pages;
    }
  }

  /** A listed page that is not archived can also be fetched by id. */
  ghost predicate Consistent(w: Workspace) {
    forall id, p :: id in w.bodies && p in w.bodies[id].rows && Offerable(p) ==> Fetchable(w, p.id)
  }

  /** While listings and GETs agree, a sync renders exactly the search results and, if asked for, everything
      linked from them. */
  lemma ConsistentCoverageIsExact(w: Workspace, includeChildren: bool, pages: seq<string>, id: string)
    requires Consistent(w) && Renders(w, includeChildren, pages)
    requires forall x :: x in pages ==> Wanted(w, includeChildren, x)
    ensures id in pages <==> Wanted(w, includeChildren, id)
  {
    if includeChildren {
      UnambiguousCoverageIsExact(w, pages, id);
    } else {
      SearchResultsOnly(w, pages, id);
    }
  }

  /** Without child pages, exactly the search results. */
  lemma SearchResultsOnly(w: Workspace, pages: seq<string>, id: string)
    requires Renders(w, false, pages)
    ensures id in pages <==> Wanted(w, false, id)
  {
    assert id in pages <==> Admitted(w, pages, 0, id);
    if IsRoot(w, id) { assert Wanted(w, false, id); }
  }

  /** One search result whose blocks hold a child page x and a database that lists x; x answers no GET, and
      links to y, which does. */
  function DetourWorkspace(): Workspace {
    Workspace([Page("r", false)], {"r", "y"},
              map["r" := Body(["x"], [Page("x", false)]), "x" := Body(["y"], []), "y" := Body([], [])])
  }

  lemma DetourLinks()
    ensures var w := DetourWorkspace();
      && Children(w, "r") == {"x"} && Rows(w, "r") == {"x"} && Mentions(w, "x") == Children(w, "x") == {"y"}
      && (forall a :: "x" in Mentions(w, a) ==> a == "r") && (forall a :: "y" in Mentions(w, a) ==> a == "x")
      && (forall x :: IsRoot(w, x) <==> x == "r")
  {
    var w := DetourWorkspace();
    assert w.found == [Page("r", false)] && w.found[0].id == "r";
    assert w.bodies["r"].children == ["x"] && w.bodies["r"].children[0] == "x";
    assert w.bodies["r"].rows == [Page("x", false)] && w.bodies["r"].rows[0].id == "x";
    assert w.bodies["x"].children == ["y"] && w.bodies["x"].children[0] == "y" && w.bodies["x"].rows == [];
    assert w.bodies["y"] == Body([], []);
  }

  lemma DetourWants()
    ensures var w := DetourWorkspace();
      Wanted(w, true, "r") && Wanted(w, true, "x") && Wanted(w, true, "y") && Ambiguous(w, "x")
  {
    var w := DetourWorkspace();
    DetourLinks();
    assert w.found[0].id == "r";
    RootWanted(w, true, w.found[0]);
    WantedNext(w, "r", "x");
    WantedNext(w, "x", "y");
  }

  /** x and y should be rendered there, and neither is. */
  lemma DetourIsMissed(pages: seq<string>)
    requires Renders(DetourWorkspace(), true, pages)
    ensures var w := DetourWorkspace();
      && Wanted(w, true, "x") && "x" !in pages
      && Wanted(w, true, "y") && Fetchable(w, "y") && "y" !in pages
      && Ambiguous(w, "x")
  {
    DetourLinks();
    DetourWants();
    var w := DetourWorkspace();
    assert "x" in pages <==> Admitted(w, pages, |pages|, "x");
    assert "y" in pages <==> Admitted(w, pages, |pages|, "y");
  }

  /** The sync there renders the search result alone. */
  lemma DetourResult()
    ensures Renders(DetourWorkspace(), true, ["r"])
  {
    DetourLinks();
    var w := DetourWorkspace();
    forall x ensures x in ["r"] <==> Admitted(w, ["r"], 1, x) {
      assert First(w, ["r"], 1, 0, x) <==> x in Mentions(w, "r");
    }
  }
}
