/** The category crawl of `get_all_all_articles`: titles of a category's members are
    expanded when they name a category and written to the article log otherwise, down to
    a maximum depth. The worker threads become one worklist loop that takes the queued
    items in an arbitrary order; the recursive specification CrawlTitle says what gets
    written, up to that order. */
module CategoryCrawl {
  import opened Sequences
  import opened Text
  import Logs

  const CategoryPrefix: string := "Category:"

  /** One entry of `query.categorymembers`; its `title` key may be missing. */
  datatype Member = Member(title: Option<string>)

  /** What one category-listing request gives: an exception (network failure, a body
      that is not JSON), or a JSON body in which `query.categorymembers` may be absent. */
  datatype ListingReply = ListingFailed | ListingBody(members: Option<seq<Member>>)

  /** The MediaWiki API's answer to a `categorymembers` query for `cmtitle`. */
  type ListingApi = string -> ListingReply

  /** A queued (title, depth) pair. */
  datatype WorkItem = WorkItem(title: string, depth: int)

  predicate IsCategory(title: string) {
    StartsWith(title, CategoryPrefix)
  }

  /** `[member['title'] for member in ...]`: a member without a title raises KeyError. */
  function Titles(ms: seq<Member>): (r: Option<seq<string>>)
    ensures r.Some? <==> forall i :: 0 <= i < |ms| ==> ms[i].title.Some?
    ensures r.Some? ==> |r.value| == |ms| &&
                        forall i :: 0 <= i < |ms| ==> r.value[i] == ms[i].title.value
  {
    if ms == [] then Some([])
    else
      match Titles(ms[1..])
      case None => None
      case Some(rest) =>
        if ms[0].title.None? then None else Some([ms[0].title.value] + rest)
  }

  /** `get_articles_in_category`: list the members of `Category:<category>`; None when the
      call raises. */
  function GetArticlesInCategory(api: ListingApi, category: string): Option<seq<string>>
  {
    match api(CategoryPrefix + category)
    case ListingFailed => None
    case ListingBody(None) => Some([])
    case ListingBody(Some(ms)) => Titles(ms)
  }

  /** The crawl lists a subcategory by its name without the prefix, and the listing puts
      the prefix back: the category queried is the queued title itself. */
  lemma SubcategoryQuery(api: ListingApi, title: string)
    requires IsCategory(title)
    ensures GetArticlesInCategory(api, title[|CategoryPrefix|..]) ==
            match api(title)
            case ListingFailed => None
            case ListingBody(None) => Some([])
            case ListingBody(Some(ms)) => Titles(ms)
  {
    assert CategoryPrefix + title[|CategoryPrefix|..] == title;
  }

  /** How many more levels may still be expanded below depth `d`. */
  function Rank(maxDepth: int, d: int): nat {
    if d > maxDepth then 0 else maxDepth + 1 - d
  }

  /** The titles written to the article log for the queued item (t, d), in depth-first
      order: nothing past the maximum depth, the members' crawls for a category whose
      listing succeeds, nothing for one whose listing fails, and `t` itself otherwise. */
  function CrawlTitle(api: ListingApi, maxDepth: int, t: string, d: int): seq<string>
    decreases Rank(maxDepth, d), 0
  {
    if d > maxDepth then []
    else if IsCategory(t) then
      match GetArticlesInCategory(api, t[|CategoryPrefix|..])
      case None => []
      case Some(ms) => CrawlMembers(api, maxDepth, ms, d + 1)
    else [t]
  }

  /** The crawls of the titles `ms`, all queued at depth `d`, one after the other. */
  function CrawlMembers(api: ListingApi, maxDepth: int, ms: seq<string>, d: int): seq<string>
    decreases Rank(maxDepth, d), |ms|
  {
    if ms == [] then []
    else CrawlTitle(api, maxDepth, ms[0], d) + CrawlMembers(api, maxDepth, ms[1..], d)
  }

  /** What a whole run writes: the seed category's members enter at depth 1. If listing the
      seed raises, the exception leaves `get_all_all_articles`. */
  function Crawl(api: ListingApi, category: string, maxDepth: int): Exit<seq<string>>
  {
    match GetArticlesInCategory(api, category)
    case None => Raised
    case Some(ms) => Returned(CrawlMembers(api, maxDepth, ms, 1))
  }

  // ----- facts about the specification -----

  /** A title beginning with `Category:` is never written, at any depth. */
  lemma {:induction false} CrawlTitleWritesNoCategory(api: ListingApi, maxDepth: int, t: string, d: int)
    ensures forall k :: 0 <= k < |CrawlTitle(api, maxDepth, t, d)| ==>
                          !IsCategory(CrawlTitle(api, maxDepth, t, d)[k])
    decreases Rank(maxDepth, d), 0
  {
    if d <= maxDepth && IsCategory(t) {
      match GetArticlesInCategory(api, t[|CategoryPrefix|..])
      case None =>
      case Some(ms) => CrawlMembersWritesNoCategory(api, maxDepth, ms, d + 1);
    }
  }

  lemma {:induction false} CrawlMembersWritesNoCategory(api: ListingApi, maxDepth: int, ms: seq<string>, d: int)
    ensures forall k :: 0 <= k < |CrawlMembers(api, maxDepth, ms, d)| ==>
                          !IsCategory(CrawlMembers(api, maxDepth, ms, d)[k])
    decreases Rank(maxDepth, d), |ms|
  {
    if ms != [] {
      CrawlTitleWritesNoCategory(api, maxDepth, ms[0], d);
      CrawlMembersWritesNoCategory(api, maxDepth, ms[1..], d);
    }
  }

  /** Every non-category member listed at a depth within the bound is written, once per
      time it is listed (there is no visited set). */
  lemma {:induction false} MembersWithinDepthWritten(api: ListingApi, maxDepth: int, ms: seq<string>, d: int)
    requires d <= maxDepth
    ensures forall x :: !IsCategory(x) ==>
              multiset(ms)[x] <= multiset(CrawlMembers(api, maxDepth, ms, d))[x]
  {
    if ms != [] {
      MembersWithinDepthWritten(api, maxDepth, ms[1..], d);
      assert ms == [ms[0]] + ms[1..];
    }
  }

  /** Raising the depth bound never loses a written title. */
  lemma {:induction false} CrawlTitleMonotone(api: ListingApi, maxDepth: int, t: string, d: int)
    ensures multiset(CrawlTitle(api, maxDepth, t, d)) <= multiset(CrawlTitle(api, maxDepth + 1, t, d))
    decreases Rank(maxDepth, d), 0
  {
    if d <= maxDepth && IsCategory(t) {
      match GetArticlesInCategory(api, t[|CategoryPrefix|..])
      case None =>
      case Some(ms) => CrawlMembersMonotone(api, maxDepth, ms, d + 1);
    }
  }

  lemma {:induction false} CrawlMembersMonotone(api: ListingApi, maxDepth: int, ms: seq<string>, d: int)
    ensures multiset(CrawlMembers(api, maxDepth, ms, d)) <= multiset(CrawlMembers(api, maxDepth + 1, ms, d))
    decreases Rank(maxDepth, d), |ms|
  {
    if ms != [] {
      CrawlTitleMonotone(api, maxDepth, ms[0], d);
      CrawlMembersMonotone(api, maxDepth, ms[1..], d);
    }
  }

  /** A small category graph: Root lists the subcategories A and B; A lists the article X
      and itself, B lists X. */
  function ExampleApi(cmtitle: string): ListingReply {
    if cmtitle == "Category:Root" then ListingBody(Some([Member(Some("Category:A")), Member(Some("Category:B"))]))
    else if cmtitle == "Category:A" then ListingBody(Some([Member(Some("X")), Member(Some("Category:A"))]))
    else if cmtitle == "Category:B" then ListingBody(Some([Member(Some("X"))]))
    else ListingFailed
  }

  lemma ExampleListings()
    ensures GetArticlesInCategory(ExampleApi, "Root") == Some(["Category:A", "Category:B"])
    ensures GetArticlesInCategory(ExampleApi, "A") == Some(["X", "Category:A"])
    ensures GetArticlesInCategory(ExampleApi, "B") == Some(["X"])
  {
    var a, b, x := "Category:A", "Category:B", "X";
    assert CategoryPrefix + "Root" == "Category:Root";
    assert CategoryPrefix + "A" == a && CategoryPrefix + "B" == b;
    var tb, ta, tr := Titles([Member(Some(x))]), Titles([Member(Some(x)), Member(Some(a))]),
                      Titles([Member(Some(a)), Member(Some(b))]);
    assert tb.Some? && tb.value == [x];
    assert ta.Some? && ta.value == [x, a];
    assert tr.Some? && tr.value == [a, b];
  }

  /** Below Root, at any depth limit `max` >= 2: the leaf X is written once at the last
      level, and the crawl of B (at depth 1) writes X once. */
  lemma ExampleLastLevel(max: int)
    requires max >= 2
    ensures CrawlMembers(ExampleApi, max, ["X"], max) == ["X"]
    ensures CrawlMembers(ExampleApi, max, ["X", "Category:A"], max) == ["X"]
    ensures CrawlTitle(ExampleApi, max, "Category:B", 1) == ["X"]
  {
    var a, b, x := "Category:A", "Category:B", "X";
    ExampleListings();
    assert a[|CategoryPrefix|..] == "A" && b[|CategoryPrefix|..] == "B";
    assert IsCategory(a) && IsCategory(b) && !IsCategory(x);
    assert CrawlTitle(ExampleApi, max, x, max + 1) == [] && CrawlTitle(ExampleApi, max, a, max + 1) == [];
    assert CrawlMembers(ExampleApi, max, [a], max + 1) == [];
    assert CrawlTitle(ExampleApi, max, x, max) == [x];
    assert CrawlMembers(ExampleApi, max, [x, a], max + 1) == [];
    assert CrawlTitle(ExampleApi, max, a, max) == [];
    assert CrawlMembers(ExampleApi, max, [a], max) == [];
    assert CrawlMembers(ExampleApi, max, [x], 2) == [x];
  }

  /** No visited set: X, reachable through A and through B, is written twice when the
      depth limit is 2, and the cycle A -> A writes it once more for a limit of 3. */
  lemma ExampleRepeatedTitles()
    ensures Crawl(ExampleApi, "Root", 2) == Returned(["X", "X"])
    ensures Crawl(ExampleApi, "Root", 3) == Returned(["X", "X", "X"])
  {
    var a, b, x := "Category:A", "Category:B", "X";
    ExampleListings();
    ExampleLastLevel(2);
    ExampleLastLevel(3);
    assert a[|CategoryPrefix|..] == "A";
    assert IsCategory(a) && !IsCategory(x);
    assert CrawlTitle(ExampleApi, 2, a, 1) == [x];
    assert CrawlMembers(ExampleApi, 2, [a, b], 1) == [x, x];
    assert CrawlMembers(ExampleApi, 3, [x, a], 2) == [x] + CrawlMembers(ExampleApi, 3, [a], 2);
    assert CrawlTitle(ExampleApi, 3, a, 2) == [x];
    assert CrawlTitle(ExampleApi, 3, a, 1) == [x, x];
    assert CrawlMembers(ExampleApi, 3, [a, b], 1) == [x, x, x];
  }

  // ----- the worklist -----

  /** The items queued for the members `ms` of a category at depth `d - 1`. */
  function Children(ms: seq<string>, d: int): (q: seq<WorkItem>)
    ensures |q| == |ms|
    ensures forall i :: 0 <= i < |ms| ==> q[i] == WorkItem(ms[i], d)
  {
    seq(|ms|, i requires 0 <= i < |ms| => WorkItem(ms[i], d))
  }

  /** What the queued items still have to write, as a bag: the queue is unordered. */
  function QueueYield(api: ListingApi, maxDepth: int, q: seq<WorkItem>): multiset<string>
  {
    if q == [] then multiset{}
    else multiset(CrawlTitle(api, maxDepth, q[0].title, q[0].depth)) + QueueYield(api, maxDepth, q[1..])
  }

  /** How many items the crawl of (t, d) dequeues, (t, d) included. */
  function WorkTitle(api: ListingApi, maxDepth: int, t: string, d: int): nat
    decreases Rank(maxDepth, d), 0
  {
    if d <= maxDepth && IsCategory(t) then
      match GetArticlesInCategory(api, t[|CategoryPrefix|..])
      case None => 1
      case Some(ms) => 1 + WorkMembers(api, maxDepth, ms, d + 1)
    else 1
  }

  function WorkMembers(api: ListingApi, maxDepth: int, ms: seq<string>, d: int): nat
    decreases Rank(maxDepth, d), |ms|
  {
    if ms == [] then 0
    else WorkTitle(api, maxDepth, ms[0], d) + WorkMembers(api, maxDepth, ms[1..], d)
  }

  /** The number of items still to be dequeued; it bounds the worklist loop. */
  function QueueWork(api: ListingApi, maxDepth: int, q: seq<WorkItem>): nat
  {
    if q == [] then 0
    else WorkTitle(api, maxDepth, q[0].title, q[0].depth) + QueueWork(api, maxDepth, q[1..])
  }

  lemma {:induction false} QueueConcat(api: ListingApi, maxDepth: int, a: seq<WorkItem>, b: seq<WorkItem>)
    ensures QueueYield(api, maxDepth, a + b) == QueueYield(api, maxDepth, a) + QueueYield(api, maxDepth, b)
    ensures QueueWork(api, maxDepth, a + b) == QueueWork(api, maxDepth, a) + QueueWork(api, maxDepth, b)
  {
    if a == [] {
      assert a + b == b;
    } else {
      assert (a + b)[1..] == a[1..] + b;
      QueueConcat(api, maxDepth, a[1..], b);
    }
  }

  /** Taking item `i` out of the queue takes its crawl out of the queue's yield. */
  lemma QueueRemove(api: ListingApi, maxDepth: int, q: seq<WorkItem>, i: nat)
    requires i < |q|
    ensures QueueYield(api, maxDepth, q) ==
            QueueYield(api, maxDepth, q[..i] + q[i + 1..]) + multiset(CrawlTitle(api, maxDepth, q[i].title, q[i].depth))
    ensures QueueWork(api, maxDepth, q) ==
            QueueWork(api, maxDepth, q[..i] + q[i + 1..]) + WorkTitle(api, maxDepth, q[i].title, q[i].depth)
  {
    assert q == q[..i] + ([q[i]] + q[i + 1..]);
    QueueConcat(api, maxDepth, q[..i], [q[i]] + q[i + 1..]);
    QueueConcat(api, maxDepth, q[..i], q[i + 1..]);
    assert ([q[i]] + q[i + 1..])[1..] == q[i + 1..];
  }

  lemma {:induction false} ChildrenQueue(api: ListingApi, maxDepth: int, ms: seq<string>, d: int)
    ensures QueueYield(api, maxDepth, Children(ms, d)) == multiset(CrawlMembers(api, maxDepth, ms, d))
    ensures QueueWork(api, maxDepth, Children(ms, d)) == WorkMembers(api, maxDepth, ms, d)
  {
    if ms != [] {
      assert Children(ms, d)[1..] == Children(ms[1..], d);
      ChildrenQueue(api, maxDepth, ms[1..], d);
    }
  }

  /** What dequeuing one item writes and how much work it accounts for, case by case. */
  lemma ItemStep(api: ListingApi, maxDepth: int, item: WorkItem)
    ensures item.depth > maxDepth ==>
              CrawlTitle(api, maxDepth, item.title, item.depth) == [] &&
              WorkTitle(api, maxDepth, item.title, item.depth) == 1
    ensures item.depth <= maxDepth && !IsCategory(item.title) ==>
              CrawlTitle(api, maxDepth, item.title, item.depth) == [item.title] &&
              WorkTitle(api, maxDepth, item.title, item.depth) == 1
    ensures item.depth <= maxDepth && IsCategory(item.title) ==>
              var listed := GetArticlesInCategory(api, item.title[|CategoryPrefix|..]);
              (listed.None? ==>
                 CrawlTitle(api, maxDepth, item.title, item.depth) == [] &&
                 WorkTitle(api, maxDepth, item.title, item.depth) == 1) &&
              (listed.Some? ==>
                 CrawlTitle(api, maxDepth, item.title, item.depth) ==
                   CrawlMembers(api, maxDepth, listed.value, item.depth + 1) &&
                 WorkTitle(api, maxDepth, item.title, item.depth) ==
                   1 + WorkMembers(api, maxDepth, listed.value, item.depth + 1))
  {
  }

  /** One iteration of a worker on a dequeued item: drop it past the maximum depth, list a
      category and hand back its members one level deeper (nothing when the listing
      raises: the error is printed and the item dropped), or write a plain title to the
      log. */
  method Expand(api: ListingApi, maxDepth: int, item: WorkItem, log: Logs.LineLog)
    returns (children: seq<WorkItem>)
    modifies log
    ensures item.depth > maxDepth ==> log.lines == old(log.lines) && children == []
    ensures item.depth <= maxDepth && !IsCategory(item.title) ==>
              log.lines == old(log.lines) + [item.title] && children == []
    ensures item.depth <= maxDepth && IsCategory(item.title) ==>
              log.lines == old(log.lines) &&
              children == match GetArticlesInCategory(api, item.title[|CategoryPrefix|..])
                          case None => []
                          case Some(ms) => Children(ms, item.depth + 1)
    ensures old(log.lines) <= log.lines
    ensures multiset(log.lines[|old(log.lines)|..]) + QueueYield(api, maxDepth, children) ==
            multiset(CrawlTitle(api, maxDepth, item.title, item.depth))
    ensures QueueWork(api, maxDepth, children) + 1 == WorkTitle(api, maxDepth, item.title, item.depth)
    ensures forall k :: 0 <= k < |children| ==> children[k].depth == item.depth + 1
  {
    children := [];
    ItemStep(api, maxDepth, item);
    if item.depth > maxDepth {
      return;
    }
    if IsCategory(item.title) {
      var subcategory := item.title[|CategoryPrefix|..];
      var subcats := GetArticlesInCategory(api, subcategory);
      if subcats.Some? {
        children := Children(subcats.value, item.depth + 1);
        ChildrenQueue(api, maxDepth, subcats.value, item.depth + 1);
      }
    } else {
      log.Append(item.title);
      assert log.lines[|old(log.lines)|..] == [item.title];
    }
  }

  /** One iteration keeps the loop invariant: the dequeued item's remaining output moves
      from the queue to the log and to its children, and the work left shrinks. */
  lemma StepKeepsInvariant(api: ListingApi, maxDepth: int, queue: seq<WorkItem>, i: nat,
                           children: seq<WorkItem>, done: seq<string>, now: seq<string>,
                           goal: multiset<string>)
    requires i < |queue|
    requires multiset(done) + QueueYield(api, maxDepth, queue) == goal
    requires multiset(now) + QueueYield(api, maxDepth, children) ==
             multiset(CrawlTitle(api, maxDepth, queue[i].title, queue[i].depth))
    requires QueueWork(api, maxDepth, children) + 1 == WorkTitle(api, maxDepth, queue[i].title, queue[i].depth)
    ensures multiset(done + now) + QueueYield(api, maxDepth, queue[..i] + queue[i + 1..] + children) == goal
    ensures QueueWork(api, maxDepth, queue[..i] + queue[i + 1..] + children) < QueueWork(api, maxDepth, queue)
  {
    var rest := queue[..i] + queue[i + 1..];
    QueueRemove(api, maxDepth, queue, i);
    QueueConcat(api, maxDepth, rest, children);
  }

  /** `get_all_all_articles`: returns its `output` list, which nothing ever fills, and
      appends the discovered titles to `log`. What is appended is, up to order, the
      crawl specification; lines already in the log stay. An exception while listing the
      seed category leaves the function with the log untouched. */
  method GetAllAllArticles(api: ListingApi, category: string, maxDepth: int, log: Logs.LineLog)
    returns (result: Exit<seq<string>>)
    modifies log
    ensures result.Raised? <==> Crawl(api, category, maxDepth).Raised?
    ensures result.Raised? ==> log.lines == old(log.lines)
    ensures result.Returned? ==> result.value == []
    ensures old(log.lines) <= log.lines
    ensures result.Returned? ==>
              multiset(log.lines[|old(log.lines)|..]) == multiset(Crawl(api, category, maxDepth).value)
  {
    var output: seq<string> := [];
    var seed := GetArticlesInCategory(api, category);
    if seed.None? {
      return Raised;
    }
    var queue := Children(seed.value, 1);
    ghost var before := log.lines;
    ghost var goal := multiset(CrawlMembers(api, maxDepth, seed.value, 1));
    ChildrenQueue(api, maxDepth, seed.value, 1);
    while queue != []
      invariant before <= log.lines
      invariant multiset(log.lines[|before|..]) + QueueYield(api, maxDepth, queue) == goal
      decreases QueueWork(api, maxDepth, queue)
    {
      var i :| 0 <= i < |queue|;
      var item := queue[i];
      ghost var written := log.lines;
      var children := Expand(api, maxDepth, item, log);
      ghost var after := log.lines;
      StepKeepsInvariant(api, maxDepth, queue, i, children, written[|before|..], after[|written|..], goal);
      AppendedInTwoSteps(before, written, after);
      queue := queue[..i] + queue[i + 1..] + children;
    }
    return Returned(output);
  }
}
