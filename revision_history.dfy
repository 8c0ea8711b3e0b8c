/** The revision fetch of `get_revision_history`: for each article, the `prop=revisions`
    query is repeated with the response's `continue` object overlaid onto the parameters
    until a response comes without one; the revisions of every page of every response are
    collected, and with `ip_only` only those whose user parses as an IP address are kept,
    each kept user being appended to the IP log. The worker threads become one loop that
    takes the articles in an arbitrary order. */
module RevisionHistory {
  import opened Sequences
  import Logs

  /** Request parameters; the `continue` object of a response has the same shape. */
  type Params = map<string, string>

  /** The parameters of the first request for one article. */
  function InitialParams(title: string, startTime: string, endTime: string): Params
  {
    map["action" := "query", "prop" := "revisions", "titles" := title,
        "rvstart" := startTime, "rvend" := endTime, "rvlimit" := "max",
        "rvprop" := "ids|timestamp|user|comment|flags", "format" := "json"]
  }

  /** One revision as `rvprop` asks for it; only `user` is inspected, and it is absent
      for revisions whose user is hidden. */
  datatype Revision = Revision(revid: int, timestamp: string, user: Option<string>, comment: string)

  /** One entry of `query.pages`; its `revisions` key may be absent. */
  datatype Page = Page(revisions: Option<seq<Revision>>)

  /** A response body: the pages in the order of the `pages` object, and the `continue`
      object when there is one. */
  datatype Reply = Reply(pages: seq<Page>, cont: Option<Params>)

  /** The API's answer to one request; None when the request raises (network failure, a
      body that is not JSON or not shaped as above). */
  type RevisionApi = Params -> Option<Reply>

  /** `rev.get('user', '')`. */
  function UserName(r: Revision): string {
    match r.user
    case None => ""
    case Some(u) => u
  }

  /** `ip_address(s)` returns instead of raising ValueError. The parser itself is a
      parameter; the empty string is never an address. */
  predicate IpAddress(parse: string -> bool, s: string) {
    s != "" && parse(s)
  }

  /** The test the `ip_only` filter applies to one revision. */
  function IpEdit(parse: string -> bool): Revision -> bool {
    r => IpAddress(parse, UserName(r))
  }

  /** The users of `rs`, in order. */
  function Users(rs: seq<Revision>): (us: seq<string>)
    ensures |us| == |rs|
    ensures forall i :: 0 <= i < |rs| ==> us[i] == UserName(rs[i])
  {
    seq(|rs|, i requires 0 <= i < |rs| => UserName(rs[i]))
  }

  lemma UsersConcat(a: seq<Revision>, b: seq<Revision>)
    ensures Users(a + b) == Users(a) + Users(b)
  {
    assert forall i :: 0 <= i < |a + b| ==> Users(a + b)[i] == (Users(a) + Users(b))[i];
  }

  /** `page_data.get("revisions", [])`. */
  function PageRevisions(p: Page): seq<Revision> {
    match p.revisions
    case None => []
    case Some(rs) => rs
  }

  /** What is kept of one page's revisions. */
  function Kept(rs: seq<Revision>, parse: string -> bool, ipOnly: bool): seq<Revision> {
    if ipOnly then Filter(rs, IpEdit(parse)) else rs
  }

  /** What one response adds to `article_revisions`: the kept revisions of its pages, page
      after page. */
  function ReplyKept(pages: seq<Page>, parse: string -> bool, ipOnly: bool): seq<Revision> {
    if pages == [] then []
    else ReplyKept(pages[..|pages| - 1], parse, ipOnly) + Kept(PageRevisions(pages[|pages| - 1]), parse, ipOnly)
  }

  /** What is written to the IP log for the kept revisions `kept`. */
  function Logged(kept: seq<Revision>, ipOnly: bool): seq<string> {
    if ipOnly then Users(kept) else []
  }

  lemma LoggedConcat(a: seq<Revision>, b: seq<Revision>, ipOnly: bool)
    ensures Logged(a + b, ipOnly) == Logged(a, ipOnly) + Logged(b, ipOnly)
  {
    UsersConcat(a, b);
  }

  /** Of one page, `ip_only` keeps exactly the revisions whose user parses as an IP
      address; without it, everything. */
  lemma KeptMembers(rs: seq<Revision>, parse: string -> bool, ipOnly: bool)
    ensures forall r :: r in Kept(rs, parse, ipOnly) <==> r in rs && (ipOnly ==> IpAddress(parse, UserName(r)))
  {
    if ipOnly {
      var kept := Filter(rs, IpEdit(parse));
      forall r | r in kept
        ensures r in rs && IpAddress(parse, UserName(r))
      {
        var k :| 0 <= k < |kept| && kept[k] == r;
      }
      forall r | r in rs && IpAddress(parse, UserName(r))
        ensures r in kept
      {
        var k :| 0 <= k < |rs| && rs[k] == r;
      }
    }
  }

  /** The filter of a response is the filter of each of its pages. */
  lemma {:induction false} ReplyKeptFilter(pages: seq<Page>, parse: string -> bool, ipOnly: bool, r: Revision)
    ensures r in ReplyKept(pages, parse, ipOnly) <==>
            r in ReplyKept(pages, parse, false) && (ipOnly ==> IpAddress(parse, UserName(r)))
  {
    if pages != [] {
      var init, last := pages[..|pages| - 1], pages[|pages| - 1];
      ReplyKeptFilter(init, parse, ipOnly, r);
      KeptMembers(PageRevisions(last), parse, ipOnly);
      KeptMembers(PageRevisions(last), parse, false);
    }
  }

  /** Without the filter, a response's revisions are those of its pages. */
  lemma {:induction false} ReplyRevisionsOnPages(pages: seq<Page>, parse: string -> bool, r: Revision)
    ensures r in ReplyKept(pages, parse, false) <==> exists j :: 0 <= j < |pages| && r in PageRevisions(pages[j])
  {
    if pages != [] {
      var init, last := pages[..|pages| - 1], pages[|pages| - 1];
      ReplyRevisionsOnPages(init, parse, r);
      assert ReplyKept(pages, parse, false) == ReplyKept(init, parse, false) + PageRevisions(last);
      if exists j :: 0 <= j < |pages| && r in PageRevisions(pages[j]) {
        var j :| 0 <= j < |pages| && r in PageRevisions(pages[j]);
        if j < |init| {
          assert init[j] == pages[j];
        }
      }
      if exists j :: 0 <= j < |init| && r in PageRevisions(init[j]) {
        var j :| 0 <= j < |init| && r in PageRevisions(init[j]);
        assert init[j] == pages[j];
      }
    }
  }

  /** A revision is kept from a response exactly when it is on one of its pages and, with
      `ip_only`, its user parses as an IP address; a revision without a user never is. */
  lemma ReplyKeptCharacterised(pages: seq<Page>, parse: string -> bool, ipOnly: bool, r: Revision)
    ensures r in ReplyKept(pages, parse, ipOnly) <==>
              (exists j :: 0 <= j < |pages| && r in PageRevisions(pages[j])) &&
              (ipOnly ==> IpAddress(parse, UserName(r)))
    ensures ipOnly && r in ReplyKept(pages, parse, ipOnly) ==> r.user.Some?
  {
    ReplyKeptFilter(pages, parse, ipOnly, r);
    ReplyRevisionsOnPages(pages, parse, r);
  }

  // ----- pagination -----

  /** The requests starting from `params` reach, within `n` of them, a response without
      `continue` or a request that raises. The source loop has no bound of its own. */
  predicate EndsWithin(api: RevisionApi, params: Params, n: nat)
    decreases n
  {
    n > 0 &&
    match api(params)
    case None => true
    case Some(reply) => reply.cont.None? || EndsWithin(api, params + reply.cont.value, n - 1)
  }

  /** The requests made for one article, starting from `params`. */
  function Requests(api: RevisionApi, params: Params, n: nat): (reqs: seq<Params>)
    requires EndsWithin(api, params, n)
    decreases n
    ensures |reqs| >= 1 && reqs[0] == params
    ensures forall k :: 0 <= k < |reqs| - 1 ==>
              api(reqs[k]).Some? && api(reqs[k]).value.cont.Some? &&
              reqs[k + 1] == reqs[k] + api(reqs[k]).value.cont.value
    ensures api(reqs[|reqs| - 1]).None? || api(reqs[|reqs| - 1]).value.cont.None?
  {
    match api(params)
    case None => [params]
    case Some(reply) =>
      match reply.cont
      case None => [params]
      case Some(c) =>
        var rest := Requests(api, params + c, n - 1);
        assert forall k :: 1 <= k < |rest| + 1 ==> ([params] + rest)[k] == rest[k - 1];
        [params] + rest
  }

  /** The revisions kept from the responses to `reqs`, request after request. */
  function RepliesKept(api: RevisionApi, parse: string -> bool, ipOnly: bool, reqs: seq<Params>): seq<Revision> {
    if reqs == [] then []
    else
      (match api(reqs[0])
       case None => []
       case Some(reply) => ReplyKept(reply.pages, parse, ipOnly)) +
      RepliesKept(api, parse, ipOnly, reqs[1..])
  }

  /** What fetching one article gives: its revisions, or None when a request raised, and
      what was written to the IP log on the way, which stays even when a request raises. */
  datatype Fetched = Fetched(revisions: Option<seq<Revision>>, logged: seq<string>)

  /** The pagination loop from `params` on. */
  function Paginate(api: RevisionApi, parse: string -> bool, ipOnly: bool, params: Params, n: nat): Fetched
    requires EndsWithin(api, params, n)
    decreases n
  {
    match api(params)
    case None => Fetched(None, [])
    case Some(reply) =>
      var kept := ReplyKept(reply.pages, parse, ipOnly);
      match reply.cont
      case None => Fetched(Some(kept), Logged(kept, ipOnly))
      case Some(c) =>
        var rest := Paginate(api, parse, ipOnly, params + c, n - 1);
        Fetched(if rest.revisions.Some? then Some(kept + rest.revisions.value) else None,
                Logged(kept, ipOnly) + rest.logged)
  }

  lemma RepliesKeptCons(api: RevisionApi, parse: string -> bool, ipOnly: bool, params: Params, rest: seq<Params>)
    requires api(params).Some?
    ensures RepliesKept(api, parse, ipOnly, [params] + rest) ==
            ReplyKept(api(params).value.pages, parse, ipOnly) + RepliesKept(api, parse, ipOnly, rest)
  {
    assert ([params] + rest)[1..] == rest;
  }

  /** A response with `continue` leads to the request with the overlaid parameters. */
  lemma RequestsStep(api: RevisionApi, params: Params, n: nat)
    requires EndsWithin(api, params, n)
    requires api(params).Some? && api(params).value.cont.Some?
    ensures EndsWithin(api, params + api(params).value.cont.value, n - 1)
    ensures Requests(api, params, n) == [params] + Requests(api, params + api(params).value.cont.value, n - 1)
    ensures Last(Requests(api, params, n)) == Last(Requests(api, params + api(params).value.cont.value, n - 1))
  {
  }

  /** What a response with `continue` adds in front of the rest of the pagination. */
  lemma PaginateStep(api: RevisionApi, parse: string -> bool, ipOnly: bool, params: Params, n: nat)
    requires EndsWithin(api, params, n)
    requires api(params).Some? && api(params).value.cont.Some?
    ensures EndsWithin(api, params + api(params).value.cont.value, n - 1)
    ensures var kept := ReplyKept(api(params).value.pages, parse, ipOnly);
            var g := Paginate(api, parse, ipOnly, params + api(params).value.cont.value, n - 1);
            Paginate(api, parse, ipOnly, params, n) ==
            Fetched(if g.revisions.Some? then Some(kept + g.revisions.value) else None, Logged(kept, ipOnly) + g.logged)
  {
  }

  /** The last request: a response without `continue`, or a request that raises. */
  lemma PaginateLast(api: RevisionApi, parse: string -> bool, ipOnly: bool, params: Params, n: nat)
    requires EndsWithin(api, params, n)
    requires api(params).None? || api(params).value.cont.None?
    ensures Requests(api, params, n) == [params]
    ensures api(params).None? ==>
              RepliesKept(api, parse, ipOnly, [params]) == [] && Paginate(api, parse, ipOnly, params, n) == Fetched(None, [])
    ensures api(params).Some? ==>
              var kept := ReplyKept(api(params).value.pages, parse, ipOnly);
              RepliesKept(api, parse, ipOnly, [params]) == kept &&
              Paginate(api, parse, ipOnly, params, n) == Fetched(Some(kept), Logged(kept, ipOnly))
  {
    if api(params).Some? {
      RepliesKeptCons(api, parse, ipOnly, params, []);
      assert [params] + [] == [params];
    }
  }

  /** The bound is only a proof device: any bound within which the requests end gives the
      same requests and the same outcome. */
  lemma {:induction false} BoundIrrelevant(api: RevisionApi, parse: string -> bool, ipOnly: bool,
                                           params: Params, n: nat, m: nat)
    requires EndsWithin(api, params, n) && EndsWithin(api, params, m)
    ensures Requests(api, params, n) == Requests(api, params, m)
    ensures Paginate(api, parse, ipOnly, params, n) == Paginate(api, parse, ipOnly, params, m)
    decreases n
  {
    if api(params).Some? && api(params).value.cont.Some? {
      var next := params + api(params).value.cont.value;
      RequestsStep(api, params, n);
      RequestsStep(api, params, m);
      PaginateStep(api, parse, ipOnly, params, n);
      PaginateStep(api, parse, ipOnly, params, m);
      BoundIrrelevant(api, parse, ipOnly, next, n - 1, m - 1);
    }
  }

  /** Pagination returns revisions exactly when the last request does not raise. */
  lemma {:induction false} PaginateReturns(api: RevisionApi, parse: string -> bool, ipOnly: bool,
                                           params: Params, n: nat)
    requires EndsWithin(api, params, n)
    ensures Paginate(api, parse, ipOnly, params, n).revisions.Some? <==>
            api(Last(Requests(api, params, n))).Some?
    decreases n
  {
    if api(params).None? || api(params).value.cont.None? {
      PaginateLast(api, parse, ipOnly, params, n);
    } else {
      RequestsStep(api, params, n);
      PaginateStep(api, parse, ipOnly, params, n);
      PaginateReturns(api, parse, ipOnly, params + api(params).value.cont.value, n - 1);
    }
  }

  /** Returned revisions are the kept revisions of the responses, in request order. */
  lemma {:induction false} PaginateRevisions(api: RevisionApi, parse: string -> bool, ipOnly: bool,
                                             params: Params, n: nat)
    requires EndsWithin(api, params, n)
    ensures var f := Paginate(api, parse, ipOnly, params, n);
            f.revisions.Some? ==> f.revisions.value == RepliesKept(api, parse, ipOnly, Requests(api, params, n))
    decreases n
  {
    if api(params).None? || api(params).value.cont.None? {
      PaginateLast(api, parse, ipOnly, params, n);
    } else {
      RequestsStep(api, params, n);
      PaginateRevisions(api, parse, ipOnly, params + api(params).value.cont.value, n - 1);
      RevisionsStep(api, parse, ipOnly, params, n);
    }
  }

  /** The step of PaginateRevisions: a response with `continue` puts its kept revisions in
      front of those of the requests that follow. */
  lemma RevisionsStep(api: RevisionApi, parse: string -> bool, ipOnly: bool, params: Params, n: nat)
    requires EndsWithin(api, params, n)
    requires api(params).Some? && api(params).value.cont.Some?
    requires EndsWithin(api, params + api(params).value.cont.value, n - 1)
    requires var next := params + api(params).value.cont.value;
             var g := Paginate(api, parse, ipOnly, next, n - 1);
             g.revisions.Some? ==> g.revisions.value == RepliesKept(api, parse, ipOnly, Requests(api, next, n - 1))
    ensures var f := Paginate(api, parse, ipOnly, params, n);
            f.revisions.Some? ==> f.revisions.value == RepliesKept(api, parse, ipOnly, Requests(api, params, n))
  {
    var next := params + api(params).value.cont.value;
    RequestsStep(api, params, n);
    PaginateStep(api, parse, ipOnly, params, n);
    RepliesKeptCons(api, parse, ipOnly, params, Requests(api, next, n - 1));
  }

  /** The IP log receives the users of every revision kept from a response that came
      back, in request order, even when a later request raises. */
  lemma {:induction false} PaginateLog(api: RevisionApi, parse: string -> bool, ipOnly: bool,
                                       params: Params, n: nat)
    requires EndsWithin(api, params, n)
    ensures Paginate(api, parse, ipOnly, params, n).logged ==
            Logged(RepliesKept(api, parse, ipOnly, Requests(api, params, n)), ipOnly)
    decreases n
  {
    if api(params).None? || api(params).value.cont.None? {
      PaginateLast(api, parse, ipOnly, params, n);
    } else {
      var c := api(params).value.cont.value;
      var rest := Requests(api, params + c, n - 1);
      RequestsStep(api, params, n);
      PaginateStep(api, parse, ipOnly, params, n);
      PaginateLog(api, parse, ipOnly, params + c, n - 1);
      RepliesKeptCons(api, parse, ipOnly, params, rest);
      LoggedConcat(ReplyKept(api(params).value.pages, parse, ipOnly), RepliesKept(api, parse, ipOnly, rest), ipOnly);
    }
  }

  /** With `ip_only` every logged line and every returned revision's user is an IP
      address; without it nothing is logged. */
  lemma {:induction false} PaginateIpOnly(api: RevisionApi, parse: string -> bool, ipOnly: bool,
                                          params: Params, n: nat)
    requires EndsWithin(api, params, n)
    ensures ipOnly ==> forall line :: line in Paginate(api, parse, ipOnly, params, n).logged ==> IpAddress(parse, line)
    ensures ipOnly && Paginate(api, parse, ipOnly, params, n).revisions.Some? ==>
              forall r :: r in Paginate(api, parse, ipOnly, params, n).revisions.value ==> IpAddress(parse, UserName(r))
    ensures !ipOnly ==> Paginate(api, parse, ipOnly, params, n).logged == []
    decreases n
  {
    match api(params)
    case None =>
    case Some(reply) =>
      var kept := ReplyKept(reply.pages, parse, ipOnly);
      forall r | r in kept
        ensures ipOnly ==> IpAddress(parse, UserName(r))
      {
        ReplyKeptCharacterised(reply.pages, parse, ipOnly, r);
      }
      if ipOnly {
        forall line | line in Users(kept)
          ensures IpAddress(parse, line)
        {
          var k :| 0 <= k < |kept| && Users(kept)[k] == line;
          assert kept[k] in kept;
        }
      }
      if reply.cont.Some? {
        PaginateStep(api, parse, ipOnly, params, n);
        PaginateIpOnly(api, parse, ipOnly, params + reply.cont.value, n - 1);
      }
  }

  // ----- the fetch loop of one article -----

  /** The filter over one revision more. */
  lemma FilterStep(revisions: seq<Revision>, i: nat, parse: string -> bool)
    requires i < |revisions|
    ensures Filter(revisions[..i + 1], IpEdit(parse)) ==
            Filter(revisions[..i], IpEdit(parse)) +
            (if IpAddress(parse, UserName(revisions[i])) then [revisions[i]] else [])
  {
    assert revisions[..i + 1] == revisions[..i] + [revisions[i]];
    FilterSnoc(revisions[..i], revisions[i], IpEdit(parse));
  }

  /** Logging one kept user more. */
  lemma LogStep(before: seq<string>, filtered: seq<Revision>, rev: Revision)
    ensures before + Users(filtered) + [UserName(rev)] == before + Users(filtered + [rev])
  {
    UsersConcat(filtered, [rev]);
    ConcatAssoc(before, Users(filtered), [UserName(rev)]);
  }

  /** The `ip_only` filter of one page: keeps the revisions whose user parses as an IP
      address, in order, writing each kept user to the IP log. */
  method FilterIpRevisions(revisions: seq<Revision>, parse: string -> bool, ipLog: Logs.LineLog)
    returns (filtered: seq<Revision>)
    modifies ipLog
    ensures filtered == Filter(revisions, IpEdit(parse))
    ensures ipLog.lines == old(ipLog.lines) + Users(filtered)
  {
    filtered := [];
    for i := 0 to |revisions|
      invariant filtered == Filter(revisions[..i], IpEdit(parse))
      invariant ipLog.lines == old(ipLog.lines) + Users(filtered)
    {
      var rev := revisions[i];
      FilterStep(revisions, i, parse);
      if IpAddress(parse, UserName(rev)) {
        LogStep(old(ipLog.lines), filtered, rev);
        filtered := filtered + [rev];
        ipLog.Append(UserName(rev));
      }
    }
    assert revisions[..|revisions|] == revisions;
  }

  /** One page more of a response: what the page loop has after it. */
  lemma CollectStep(pages: seq<Page>, j: nat, kept: seq<Revision>, revisions: seq<Revision>,
                    parse: string -> bool, ipOnly: bool, before: seq<string>)
    requires j < |pages|
    requires kept == ReplyKept(pages[..j], parse, ipOnly)
    requires revisions == Kept(PageRevisions(pages[j]), parse, ipOnly)
    ensures kept + revisions == ReplyKept(pages[..j + 1], parse, ipOnly)
    ensures before + Logged(kept, ipOnly) + Logged(revisions, ipOnly) == before + Logged(kept + revisions, ipOnly)
  {
    assert pages[..j + 1][..j] == pages[..j];
    LoggedConcat(kept, revisions, ipOnly);
    ConcatAssoc(before, Logged(kept, ipOnly), Logged(revisions, ipOnly));
  }

  /** The `for page_id, page_data in pages.items()` loop of one response. */
  method CollectPages(pages: seq<Page>, parse: string -> bool, ipOnly: bool, ipLog: Logs.LineLog)
    returns (kept: seq<Revision>)
    modifies ipLog
    ensures kept == ReplyKept(pages, parse, ipOnly)
    ensures ipLog.lines == old(ipLog.lines) + Logged(kept, ipOnly)
  {
    kept := [];
    for j := 0 to |pages|
      invariant kept == ReplyKept(pages[..j], parse, ipOnly)
      invariant ipLog.lines == old(ipLog.lines) + Logged(kept, ipOnly)
    {
      ghost var logged := ipLog.lines;
      var revisions := PageRevisions(pages[j]);
      if ipOnly {
        revisions := FilterIpRevisions(revisions, parse, ipLog);
      }
      assert ipLog.lines == logged + Logged(revisions, ipOnly);
      CollectStep(pages, j, kept, revisions, parse, ipOnly, old(ipLog.lines));
      kept := kept + revisions;
    }
    assert pages[..|pages|] == pages;
  }

  /** The fetch loop, about to request `params`, has collected `collected` and logged
      `written`, and what the remaining requests give completes `total`. */
  predicate Pending(api: RevisionApi, parse: string -> bool, ipOnly: bool, params: Params, fuel: nat,
                    collected: seq<Revision>, written: seq<string>, total: Fetched)
  {
    EndsWithin(api, params, fuel) &&
    var rest := Paginate(api, parse, ipOnly, params, fuel);
    total.logged == written + rest.logged &&
    total.revisions == (if rest.revisions.Some? then Some(collected + rest.revisions.value) else None)
  }

  /** One response that comes back moves the loop on: to the overlaid parameters when it
      carries `continue`, to the end otherwise. */
  lemma PendingStep(api: RevisionApi, parse: string -> bool, ipOnly: bool, params: Params, fuel: nat,
                    collected: seq<Revision>, written: seq<string>, total: Fetched)
    requires Pending(api, parse, ipOnly, params, fuel, collected, written, total)
    requires api(params).Some?
    ensures var reply := api(params).value;
            var kept := ReplyKept(reply.pages, parse, ipOnly);
            (reply.cont.None? ==> total == Fetched(Some(collected + kept), written + Logged(kept, ipOnly))) &&
            (reply.cont.Some? ==>
               fuel > 0 &&
               Pending(api, parse, ipOnly, params + reply.cont.value, fuel - 1,
                       collected + kept, written + Logged(kept, ipOnly), total))
  {
    var reply := api(params).value;
    var kept := ReplyKept(reply.pages, parse, ipOnly);
    if reply.cont.Some? {
      var rest' := Paginate(api, parse, ipOnly, params + reply.cont.value, fuel - 1);
      ConcatAssoc(written, Logged(kept, ipOnly), rest'.logged);
      if rest'.revisions.Some? {
        ConcatAssoc(collected, kept, rest'.revisions.value);
      }
    }
  }

  /** The body of the worker's `try` for one article: request, collect, overlay the
      `continue` object, until a response has none. The result is None when a request
      raises; the log writes made before that stay. */
  method FetchArticleRevisions(api: RevisionApi, parse: string -> bool, ipOnly: bool, title: string,
                               startTime: string, endTime: string, ipLog: Logs.LineLog, ghost n: nat)
    returns (articleRevisions: Option<seq<Revision>>)
    requires EndsWithin(api, InitialParams(title, startTime, endTime), n)
    modifies ipLog
    ensures var f := Paginate(api, parse, ipOnly, InitialParams(title, startTime, endTime), n);
            articleRevisions == f.revisions && ipLog.lines == old(ipLog.lines) + f.logged
  {
    var params: Option<Params> := Some(InitialParams(title, startTime, endTime));
    var collected: seq<Revision> := [];
    ghost var fuel := n;
    ghost var written: seq<string> := [];
    ghost var total := Paginate(api, parse, ipOnly, params.value, n);
    assert total.revisions.Some? ==> collected + total.revisions.value == total.revisions.value;
    while params.Some?
      invariant ipLog.lines == old(ipLog.lines) + written
      invariant params.Some? ==> Pending(api, parse, ipOnly, params.value, fuel, collected, written, total)
      invariant params.None? ==> total == Fetched(Some(collected), written)
      decreases fuel
    {
      var reply := api(params.value);
      if reply.None? {
        return None;
      }
      PendingStep(api, parse, ipOnly, params.value, fuel, collected, written, total);
      var kept := CollectPages(reply.value.pages, parse, ipOnly, ipLog);
      ConcatAssoc(old(ipLog.lines), written, Logged(kept, ipOnly));
      written := written + Logged(kept, ipOnly);
      collected := collected + kept;
      params := if reply.value.cont.Some? then Some(params.value + reply.value.cont.value) else None;
      fuel := fuel - 1;
    }
    return Some(collected);
  }

  // ----- all articles -----

  /** One element of the returned list: `{"title": ..., "revisions": ...}`. */
  datatype Entry = Entry(title: string, revisions: seq<Revision>)

  /** The requests for every article end within `n`: finitely many articles always have
      such a common bound once each of them ends. */
  predicate AllEndWithin(api: RevisionApi, articles: seq<string>, startTime: string, endTime: string, n: nat) {
    forall k :: 0 <= k < |articles| ==> EndsWithin(api, InitialParams(articles[k], startTime, endTime), n)
  }

  /** What fetching one article gives. */
  function FetchArticle(api: RevisionApi, parse: string -> bool, ipOnly: bool,
                        title: string, startTime: string, endTime: string, n: nat): Fetched
    requires EndsWithin(api, InitialParams(title, startTime, endTime), n)
  {
    Paginate(api, parse, ipOnly, InitialParams(title, startTime, endTime), n)
  }

  /** The entry of one article: one when it completes, none when a request raises. */
  function EntryOf(api: RevisionApi, parse: string -> bool, ipOnly: bool,
                   title: string, startTime: string, endTime: string, n: nat): seq<Entry>
    requires EndsWithin(api, InitialParams(title, startTime, endTime), n)
  {
    var f := FetchArticle(api, parse, ipOnly, title, startTime, endTime, n);
    if f.revisions.Some? then [Entry(title, f.revisions.value)] else []
  }

  /** The entries for `articles`, in list order. */
  function HistoryEntries(api: RevisionApi, parse: string -> bool, ipOnly: bool,
                          articles: seq<string>, startTime: string, endTime: string, n: nat): seq<Entry>
    requires AllEndWithin(api, articles, startTime, endTime, n)
  {
    if articles == [] then []
    else
      HistoryEntries(api, parse, ipOnly, articles[..|articles| - 1], startTime, endTime, n) +
      EntryOf(api, parse, ipOnly, articles[|articles| - 1], startTime, endTime, n)
  }

  /** The IP log lines written for `articles`, article after article. */
  function HistoryLog(api: RevisionApi, parse: string -> bool, ipOnly: bool,
                      articles: seq<string>, startTime: string, endTime: string, n: nat): seq<string>
    requires AllEndWithin(api, articles, startTime, endTime, n)
  {
    if articles == [] then []
    else
      HistoryLog(api, parse, ipOnly, articles[..|articles| - 1], startTime, endTime, n) +
      FetchArticle(api, parse, ipOnly, articles[|articles| - 1], startTime, endTime, n).logged
  }

  /** Whether a request raises does not depend on the filter. */
  lemma {:induction false} FailureIgnoresFilter(api: RevisionApi, parse: string -> bool, ipOnly: bool,
                                                params: Params, n: nat)
    requires EndsWithin(api, params, n)
    ensures Paginate(api, parse, ipOnly, params, n).revisions.Some? <==>
            Paginate(api, (s: string) => true, false, params, n).revisions.Some?
    decreases n
  {
    match api(params)
    case None =>
    case Some(reply) =>
      if reply.cont.Some? {
        FailureIgnoresFilter(api, parse, ipOnly, params + reply.cont.value, n - 1);
      }
  }

  /** The article is fetched without an exception. */
  predicate Completes(api: RevisionApi, startTime: string, endTime: string, n: nat, title: string) {
    EndsWithin(api, InitialParams(title, startTime, endTime), n) &&
    Paginate(api, (s: string) => true, false, InitialParams(title, startTime, endTime), n).revisions.Some?
  }

  function EntryTitles(es: seq<Entry>): (ts: seq<string>)
    ensures |ts| == |es|
    ensures forall i :: 0 <= i < |es| ==> ts[i] == es[i].title
  {
    seq(|es|, i requires 0 <= i < |es| => es[i].title)
  }

  lemma AllEndWithinPrefix(api: RevisionApi, articles: seq<string>, startTime: string, endTime: string, n: nat, i: nat)
    requires AllEndWithin(api, articles, startTime, endTime, n) && i <= |articles|
    ensures AllEndWithin(api, articles[..i], startTime, endTime, n)
    ensures AllEndWithin(api, articles[i..], startTime, endTime, n)
  {
    forall k | 0 <= k < i ensures articles[..i][k] == articles[k] { }
    forall k | 0 <= k < |articles| - i ensures articles[i..][k] == articles[i + k] { }
  }

  /** Every article that completes gets exactly one entry, in list order, and the others
      get none. */
  lemma {:induction false} OneEntryPerCompletedArticle(api: RevisionApi, parse: string -> bool, ipOnly: bool,
                                                       articles: seq<string>, startTime: string, endTime: string,
                                                       n: nat)
    requires AllEndWithin(api, articles, startTime, endTime, n)
    ensures EntryTitles(HistoryEntries(api, parse, ipOnly, articles, startTime, endTime, n)) ==
            Filter(articles, a => Completes(api, startTime, endTime, n, a))
  {
    if articles != [] {
      var init, a := articles[..|articles| - 1], articles[|articles| - 1];
      EntryTitlesStep(api, parse, ipOnly, articles, startTime, endTime, n);
      OneEntryPerCompletedArticle(api, parse, ipOnly, init, startTime, endTime, n);
    }
  }

  /** The last article adds its title exactly when it completes. */
  lemma EntryTitlesStep(api: RevisionApi, parse: string -> bool, ipOnly: bool,
                        articles: seq<string>, startTime: string, endTime: string, n: nat)
    requires AllEndWithin(api, articles, startTime, endTime, n) && articles != []
    ensures AllEndWithin(api, articles[..|articles| - 1], startTime, endTime, n)
    ensures var a := articles[|articles| - 1];
            EntryTitles(HistoryEntries(api, parse, ipOnly, articles, startTime, endTime, n)) ==
            EntryTitles(HistoryEntries(api, parse, ipOnly, articles[..|articles| - 1], startTime, endTime, n)) +
            (if Completes(api, startTime, endTime, n, a) then [a] else [])
  {
    var init, a := articles[..|articles| - 1], articles[|articles| - 1];
    AllEndWithinPrefix(api, articles, startTime, endTime, n, |articles| - 1);
    FailureIgnoresFilter(api, parse, ipOnly, InitialParams(a, startTime, endTime), n);
    var es0 := HistoryEntries(api, parse, ipOnly, init, startTime, endTime, n);
    var e := EntryOf(api, parse, ipOnly, a, startTime, endTime, n);
    assert HistoryEntries(api, parse, ipOnly, articles, startTime, endTime, n) == es0 + e;
    assert EntryTitles(es0 + e) == EntryTitles(es0) + EntryTitles(e);
  }

  lemma {:induction false} HistoryEntriesConcat(api: RevisionApi, parse: string -> bool, ipOnly: bool,
                                                a: seq<string>, b: seq<string>, startTime: string, endTime: string,
                                                n: nat)
    requires AllEndWithin(api, a, startTime, endTime, n) && AllEndWithin(api, b, startTime, endTime, n)
    requires AllEndWithin(api, a + b, startTime, endTime, n)
    ensures HistoryEntries(api, parse, ipOnly, a + b, startTime, endTime, n) ==
            HistoryEntries(api, parse, ipOnly, a, startTime, endTime, n) +
            HistoryEntries(api, parse, ipOnly, b, startTime, endTime, n)
    decreases |b|
  {
    if b == [] {
      assert a + b == a;
    } else {
      var b' := b[..|b| - 1];
      assert (a + b)[..|a + b| - 1] == a + b';
      AllEndWithinPrefix(api, a + b, startTime, endTime, n, |a + b| - 1);
      AllEndWithinPrefix(api, b, startTime, endTime, n, |b| - 1);
      HistoryEntriesConcat(api, parse, ipOnly, a, b', startTime, endTime, n);
      ConcatAssoc(HistoryEntries(api, parse, ipOnly, a, startTime, endTime, n),
                  HistoryEntries(api, parse, ipOnly, b', startTime, endTime, n),
                  EntryOf(api, parse, ipOnly, b[|b| - 1], startTime, endTime, n));
    }
  }

  lemma {:induction false} HistoryLogConcat(api: RevisionApi, parse: string -> bool, ipOnly: bool,
                                            a: seq<string>, b: seq<string>, startTime: string, endTime: string,
                                            n: nat)
    requires AllEndWithin(api, a, startTime, endTime, n) && AllEndWithin(api, b, startTime, endTime, n)
    requires AllEndWithin(api, a + b, startTime, endTime, n)
    ensures HistoryLog(api, parse, ipOnly, a + b, startTime, endTime, n) ==
            HistoryLog(api, parse, ipOnly, a, startTime, endTime, n) +
            HistoryLog(api, parse, ipOnly, b, startTime, endTime, n)
    decreases |b|
  {
    if b == [] {
      assert a + b == a;
    } else {
      var b' := b[..|b| - 1];
      assert (a + b)[..|a + b| - 1] == a + b';
      AllEndWithinPrefix(api, a + b, startTime, endTime, n, |a + b| - 1);
      AllEndWithinPrefix(api, b, startTime, endTime, n, |b| - 1);
      HistoryLogConcat(api, parse, ipOnly, a, b', startTime, endTime, n);
      ConcatAssoc(HistoryLog(api, parse, ipOnly, a, startTime, endTime, n),
                  HistoryLog(api, parse, ipOnly, b', startTime, endTime, n),
                  FetchArticle(api, parse, ipOnly, b[|b| - 1], startTime, endTime, n).logged);
    }
  }

  /** Taking article `i` off the queue leaves a queue whose requests all end within `n`. */
  lemma RemoveKeepsBound(api: RevisionApi, queue: seq<string>, i: nat, startTime: string, endTime: string, n: nat)
    requires i < |queue|
    requires AllEndWithin(api, queue, startTime, endTime, n)
    ensures AllEndWithin(api, queue[..i], startTime, endTime, n)
    ensures AllEndWithin(api, [queue[i]], startTime, endTime, n)
    ensures AllEndWithin(api, queue[i + 1..], startTime, endTime, n)
    ensures AllEndWithin(api, queue[..i] + [queue[i]], startTime, endTime, n)
    ensures AllEndWithin(api, queue[..i] + queue[i + 1..], startTime, endTime, n)
    ensures queue == queue[..i] + [queue[i]] + queue[i + 1..]
  {
    AllEndWithinPrefix(api, queue, startTime, endTime, n, i);
    AllEndWithinPrefix(api, queue, startTime, endTime, n, i + 1);
    assert queue[..i + 1] == queue[..i] + [queue[i]];
    assert queue == queue[..i + 1] + queue[i + 1..];
  }

  /** Taking article `i` off the queue takes its entry out of what the queue still owes. */
  lemma HistoryEntriesRemove(api: RevisionApi, parse: string -> bool, ipOnly: bool,
                             queue: seq<string>, i: nat, startTime: string, endTime: string, n: nat)
    requires i < |queue|
    requires AllEndWithin(api, queue, startTime, endTime, n)
    ensures AllEndWithin(api, queue[..i] + queue[i + 1..], startTime, endTime, n)
    ensures multiset(HistoryEntries(api, parse, ipOnly, queue, startTime, endTime, n)) ==
            multiset(HistoryEntries(api, parse, ipOnly, queue[..i] + queue[i + 1..], startTime, endTime, n)) +
            multiset(EntryOf(api, parse, ipOnly, queue[i], startTime, endTime, n))
  {
    var pre, mid, post := queue[..i], [queue[i]], queue[i + 1..];
    RemoveKeepsBound(api, queue, i, startTime, endTime, n);
    HistoryEntriesConcat(api, parse, ipOnly, pre + mid, post, startTime, endTime, n);
    HistoryEntriesConcat(api, parse, ipOnly, pre, mid, startTime, endTime, n);
    HistoryEntriesConcat(api, parse, ipOnly, pre, post, startTime, endTime, n);
    assert HistoryEntries(api, parse, ipOnly, mid, startTime, endTime, n) ==
           EntryOf(api, parse, ipOnly, queue[i], startTime, endTime, n) by {
      assert mid[..0] == [];
    }
  }

  /** Taking article `i` off the queue takes its log lines out of what the queue still
      owes. */
  lemma HistoryLogRemove(api: RevisionApi, parse: string -> bool, ipOnly: bool,
                         queue: seq<string>, i: nat, startTime: string, endTime: string, n: nat)
    requires i < |queue|
    requires AllEndWithin(api, queue, startTime, endTime, n)
    ensures AllEndWithin(api, queue[..i] + queue[i + 1..], startTime, endTime, n)
    ensures multiset(HistoryLog(api, parse, ipOnly, queue, startTime, endTime, n)) ==
            multiset(HistoryLog(api, parse, ipOnly, queue[..i] + queue[i + 1..], startTime, endTime, n)) +
            multiset(FetchArticle(api, parse, ipOnly, queue[i], startTime, endTime, n).logged)
  {
    var pre, mid, post := queue[..i], [queue[i]], queue[i + 1..];
    RemoveKeepsBound(api, queue, i, startTime, endTime, n);
    HistoryLogConcat(api, parse, ipOnly, pre + mid, post, startTime, endTime, n);
    HistoryLogConcat(api, parse, ipOnly, pre, mid, startTime, endTime, n);
    HistoryLogConcat(api, parse, ipOnly, pre, post, startTime, endTime, n);
    assert HistoryLog(api, parse, ipOnly, mid, startTime, endTime, n) ==
           FetchArticle(api, parse, ipOnly, queue[i], startTime, endTime, n).logged by {
      assert mid[..0] == [];
    }
  }

  /** Fetching article `i` of the queue keeps the loop invariant of the article loop. */
  lemma HistoryStep(api: RevisionApi, parse: string -> bool, ipOnly: bool,
                    queue: seq<string>, i: nat, startTime: string, endTime: string, n: nat,
                    done: seq<Entry>, written: seq<string>, entriesGoal: multiset<Entry>, logGoal: multiset<string>)
    requires i < |queue|
    requires AllEndWithin(api, queue, startTime, endTime, n)
    requires multiset(done) + multiset(HistoryEntries(api, parse, ipOnly, queue, startTime, endTime, n)) == entriesGoal
    requires multiset(written) + multiset(HistoryLog(api, parse, ipOnly, queue, startTime, endTime, n)) == logGoal
    ensures AllEndWithin(api, queue[..i] + queue[i + 1..], startTime, endTime, n)
    ensures var f := FetchArticle(api, parse, ipOnly, queue[i], startTime, endTime, n);
            var done' := done + (if f.revisions.Some? then [Entry(queue[i], f.revisions.value)] else []);
            multiset(done') +
            multiset(HistoryEntries(api, parse, ipOnly, queue[..i] + queue[i + 1..], startTime, endTime, n)) ==
            entriesGoal &&
            multiset(written + f.logged) +
            multiset(HistoryLog(api, parse, ipOnly, queue[..i] + queue[i + 1..], startTime, endTime, n)) ==
            logGoal
  {
    HistoryEntriesRemove(api, parse, ipOnly, queue, i, startTime, endTime, n);
    HistoryLogRemove(api, parse, ipOnly, queue, i, startTime, endTime, n);
  }

  /** `get_revision_history`: every article is fetched once, in an arbitrary order; each
      one that completes adds its entry, one that raises adds none. Up to order, the
      entries and the IP log lines are those of the specification; lines already in the
      log stay. */
  method GetRevisionHistory(api: RevisionApi, parse: string -> bool, articles: seq<string>,
                            startTime: string, endTime: string, ipOnly: bool, ipLog: Logs.LineLog,
                            ghost n: nat)
    returns (allRevisions: seq<Entry>)
    requires AllEndWithin(api, articles, startTime, endTime, n)
    modifies ipLog
    ensures old(ipLog.lines) <= ipLog.lines
    ensures multiset(allRevisions) == multiset(HistoryEntries(api, parse, ipOnly, articles, startTime, endTime, n))
    ensures multiset(ipLog.lines[|old(ipLog.lines)|..]) ==
            multiset(HistoryLog(api, parse, ipOnly, articles, startTime, endTime, n))
  {
    allRevisions := [];
    var queue := articles;
    ghost var written: seq<string> := [];
    ghost var entriesGoal := multiset(HistoryEntries(api, parse, ipOnly, articles, startTime, endTime, n));
    ghost var logGoal := multiset(HistoryLog(api, parse, ipOnly, articles, startTime, endTime, n));
    while queue != []
      invariant AllEndWithin(api, queue, startTime, endTime, n)
      invariant ipLog.lines == old(ipLog.lines) + written
      invariant multiset(allRevisions) + multiset(HistoryEntries(api, parse, ipOnly, queue, startTime, endTime, n)) == entriesGoal
      invariant multiset(written) + multiset(HistoryLog(api, parse, ipOnly, queue, startTime, endTime, n)) == logGoal
      decreases |queue|
    {
      var i :| 0 <= i < |queue|;
      var title := queue[i];
      HistoryStep(api, parse, ipOnly, queue, i, startTime, endTime, n, allRevisions, written, entriesGoal, logGoal);
      ghost var f := FetchArticle(api, parse, ipOnly, title, startTime, endTime, n);
      ghost var done := allRevisions;
      var articleRevisions := FetchArticleRevisions(api, parse, ipOnly, title, startTime, endTime, ipLog, n);
      if articleRevisions.Some? {
        allRevisions := allRevisions + [Entry(title, articleRevisions.value)];
      }
      assert allRevisions == done + (if f.revisions.Some? then [Entry(title, f.revisions.value)] else []);
      ConcatAssoc(old(ipLog.lines), written, f.logged);
      written := written + f.logged;
      queue := queue[..i] + queue[i + 1..];
    }
    assert ipLog.lines[|old(ipLog.lines)|..] == written;
  }

  /** With `ip_only` every line the run logs is an IP address; without it the run logs
      nothing. */
  lemma {:induction false} HistoryLogIps(api: RevisionApi, parse: string -> bool, ipOnly: bool,
                                         articles: seq<string>, startTime: string, endTime: string, n: nat)
    requires AllEndWithin(api, articles, startTime, endTime, n)
    ensures ipOnly ==> forall line :: line in HistoryLog(api, parse, ipOnly, articles, startTime, endTime, n) ==>
                         IpAddress(parse, line)
    ensures !ipOnly ==> HistoryLog(api, parse, ipOnly, articles, startTime, endTime, n) == []
  {
    if articles != [] {
      var init, a := articles[..|articles| - 1], articles[|articles| - 1];
      AllEndWithinPrefix(api, articles, startTime, endTime, n, |articles| - 1);
      HistoryLogIps(api, parse, ipOnly, init, startTime, endTime, n);
      PaginateIpOnly(api, parse, ipOnly, InitialParams(a, startTime, endTime), n);
      assert HistoryLog(api, parse, ipOnly, articles, startTime, endTime, n) ==
             HistoryLog(api, parse, ipOnly, init, startTime, endTime, n) +
             FetchArticle(api, parse, ipOnly, a, startTime, endTime, n).logged;
    }
  }

  /** With `ip_only` every revision the run returns has a user that parses as an IP
      address. */
  lemma {:induction false} HistoryEntriesIps(api: RevisionApi, parse: string -> bool,
                                             articles: seq<string>, startTime: string, endTime: string, n: nat)
    requires AllEndWithin(api, articles, startTime, endTime, n)
    ensures forall e, r :: e in HistoryEntries(api, parse, true, articles, startTime, endTime, n) && r in e.revisions ==>
                           IpAddress(parse, UserName(r))
  {
    if articles != [] {
      var init, a := articles[..|articles| - 1], articles[|articles| - 1];
      AllEndWithinPrefix(api, articles, startTime, endTime, n, |articles| - 1);
      HistoryEntriesIps(api, parse, init, startTime, endTime, n);
      var f := FetchArticle(api, parse, true, a, startTime, endTime, n);
      PaginateIpOnly(api, parse, true, InitialParams(a, startTime, endTime), n);
    }
  }
}
