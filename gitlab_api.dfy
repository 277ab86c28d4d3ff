/**
 * Fetching a paginated collection from the GitLab REST API, and keeping the notes that
 * log time. The HTTP layer is a server oracle: a function from a request to its response.
 */
module GitlabApi {
  import opened Wrappers
  import opened Text
  import opened Data
  import Configuration

  /** The largest page size the API serves. */
  const PageSize: nat := 100

  /** One GET: the resource URL, the `per_page` and `page` query values and the extra query pairs. */
  datatype Request = Request(url: string, perPage: nat, page: nat, query: seq<(string, string)>)

  /** What the server answers: whether the status is a success, the decoded items and the raw `X-Next-Page` header. */
  datatype Response<T> = Response(success: bool, items: seq<T>, nextPage: Option<string>)

  datatype FetchError =
    | HttpStatus(page: nat)   // a non-success status: the source panics
    | OutOfFuel               // the model's bound on the number of requests was reached

  /** The requests made, in order, and the result of a fetch. */
  datatype FetchRun<T> = FetchRun(requests: seq<Request>, outcome: Result<seq<T>, FetchError>)

  /**
   * The page an `X-Next-Page` header names: absent, empty, not a number or above
   * `usize::MAX` means none. (A header that is not visible ASCII is not a number either.)
   */
  function NextPageHint(header: Option<string>): (r: Option<nat>)
    ensures header.None? || header == Some("") ==> r.None?
    ensures r.Some? ==> header.Some? && ParseUsize(header.value) == r && r.value <= UsizeMax
    ensures header.Some? ==> r == ParseUsize(header.value)
  {
    match header
    case None => None
    case Some(s) => if |s| == 0 then None else ParseUsize(s)
  }

  /** The page after `page`: the hint when there is one, else the next number. */
  function NextPage(page: nat, header: Option<string>): (r: nat)
    ensures header.Some? && ParseUsize(header.value).Some? ==> r == ParseUsize(header.value).value
    ensures header.None? || ParseUsize(header.value).None? ==> r == page + 1
  {
    match NextPageHint(header)
    case Some(n) => n
    case None => page + 1
  }

  /** `https://<base>/api/v4/<endpoint>` */
  function RequestPath(baseUrl: string, endpoint: string): (r: string)
    ensures |r| == |baseUrl| + |endpoint| + 16
    ensures r[..8] == "https://" && r[8..8 + |baseUrl|] == baseUrl
    ensures r[8 + |baseUrl|..|r| - |endpoint|] == "/api/v4/"
    ensures r[|r| - |endpoint|..] == endpoint
  {
    "https://" + baseUrl + "/api/v4/" + endpoint
  }

  /**
   * The fetch from `page` on, with at most `fuel` more requests: a non-success status ends it
   * with an error and no items; a page with fewer than `PageSize` items ends it; after a full
   * page it goes on with the page the hint names, or the next one.
   */
  function Fetch<T>(server: Request -> Response<T>, url: string, query: seq<(string, string)>, page: nat, fuel: nat): (r: FetchRun<T>)
    ensures |r.requests| <= fuel
    ensures fuel > 0 ==> |r.requests| >= 1
    ensures r.outcome == Err(OutOfFuel) ==> |r.requests| == fuel
    decreases fuel
  {
    if fuel == 0 then FetchRun([], Err(OutOfFuel))
    else
      var req := Request(url, PageSize, page, query);
      var resp := server(req);
      if !resp.success then FetchRun([req], Err(HttpStatus(page)))
      else if |resp.items| < PageSize then FetchRun([req], Ok(resp.items))
      else Prepend([req], resp.items, Fetch(server, url, query, NextPage(page, resp.nextPage), fuel - 1))
  }

  /** Requests and items that come before the rest of a run; an error keeps no items. */
  function Prepend<T>(requests: seq<Request>, items: seq<T>, run: FetchRun<T>): FetchRun<T> {
    FetchRun(requests + run.requests,
      match run.outcome
      case Ok(rest) => Ok(items + rest)
      case Err(e) => Err(e))
  }

  /** One step of a fetch with fuel left: the first request and what its response decides. */
  lemma FetchUnfold<T>(server: Request -> Response<T>, url: string, query: seq<(string, string)>, page: nat, fuel: nat)
    requires fuel > 0
    ensures var req := Request(url, PageSize, page, query);
      var resp := server(req);
      Fetch(server, url, query, page, fuel)
      == if !resp.success then FetchRun([req], Err(HttpStatus(page)))
         else if |resp.items| < PageSize then FetchRun([req], Ok(resp.items))
         else Prepend([req], resp.items, Fetch(server, url, query, NextPage(page, resp.nextPage), fuel - 1))
  {
  }

  /** One iteration of the request loop: what the fetch from page 0 is, given the next response. */
  lemma FetchLoopStep<T>(server: Request -> Response<T>, url: string, query: seq<(string, string)>, fuel: nat,
                         page: nat, left: nat, requests: seq<Request>, out: seq<T>)
    requires left > 0
    requires Fetch(server, url, query, 0, fuel) == Prepend(requests, out, Fetch(server, url, query, page, left))
    ensures var req := Request(url, PageSize, page, query);
      var resp := server(req);
      && (!resp.success ==> Fetch(server, url, query, 0, fuel) == FetchRun(requests + [req], Err(HttpStatus(page))))
      && (resp.success && |resp.items| < PageSize ==>
            Fetch(server, url, query, 0, fuel) == FetchRun(requests + [req], Ok(out + resp.items)))
      && (resp.success && |resp.items| >= PageSize ==>
            Fetch(server, url, query, 0, fuel)
            == Prepend(requests + [req], out + resp.items, Fetch(server, url, query, NextPage(page, resp.nextPage), left - 1)))
  {
    var req := Request(url, PageSize, page, query);
    var resp := server(req);
    FetchUnfold(server, url, query, page, left);
    if resp.success && |resp.items| >= PageSize {
      PrependPrepend(requests, out, [req], resp.items, Fetch(server, url, query, NextPage(page, resp.nextPage), left - 1));
    }
  }

  lemma PrependNothing<T>(run: FetchRun<T>)
    ensures Prepend([], [], run) == run
  {
    assert [] + run.requests == run.requests;
    if run.outcome.Ok? {
      assert [] + run.outcome.value == run.outcome.value;
    }
  }

  lemma PrependPrepend<T>(r1: seq<Request>, x1: seq<T>, r2: seq<Request>, x2: seq<T>, run: FetchRun<T>)
    ensures Prepend(r1, x1, Prepend(r2, x2, run)) == Prepend(r1 + r2, x1 + x2, run)
  {
    assert r1 + (r2 + run.requests) == (r1 + r2) + run.requests;
    if run.outcome.Ok? {
      assert x1 + (x2 + run.outcome.value) == (x1 + x2) + run.outcome.value;
    }
  }

  /**
   * `request_multiple`: request page 0, 1, ... of `endpoint` with page size 100, append each
   * page's items, stop after a short page, and follow the `X-Next-Page` hint after a full
   * one. At most `fuel` requests are made.
   */
  method RequestMultiple<T>(server: Request -> Response<T>, baseUrl: string, endpoint: string,
                            parameters: Option<seq<(string, string)>>, fuel: nat)
    returns (outcome: Result<seq<T>, FetchError>, requests: seq<Request>)
    ensures FetchRun(requests, outcome)
         == Fetch(server, RequestPath(baseUrl, endpoint), QueryOf(parameters), 0, fuel)
  {
    var requestPath := RequestPath(baseUrl, endpoint);
    var query := QueryOf(parameters);
    var pageSize := PageSize;
    var page := 0;
    var out: seq<T> := [];
    requests := [];
    var left := fuel;
    PrependNothing(Fetch(server, requestPath, query, page, left));
    while true
      invariant Fetch(server, requestPath, query, 0, fuel) == Prepend(requests, out, Fetch(server, requestPath, query, page, left))
      decreases left
    {
      if left == 0 {
        return Err(OutOfFuel), requests;
      }
      var req := Request(requestPath, pageSize, page, query);
      var resp := server(req);
      FetchLoopStep(server, requestPath, query, fuel, page, left, requests, out);
      requests := requests + [req];
      if !resp.success {
        return Err(HttpStatus(page)), requests;
      }
      var nextPage := NextPageHint(resp.nextPage);
      assert NextPage(page, resp.nextPage) == if nextPage.Some? then nextPage.value else page + 1;
      var pageResults := resp.items;
      var count := |pageResults|;
      out := out + pageResults;
      if count < pageSize {
        return Ok(out), requests;
      } else if nextPage.Some? {
        page := nextPage.value;
      } else {
        page := page + 1;
      }
      left := left - 1;
    }
  }

  /** `req.query(params)` adds the pairs; no parameters add nothing. */
  function QueryOf(parameters: Option<seq<(string, string)>>): seq<(string, string)> {
    match parameters
    case None => []
    case Some(ps) => ps
  }

  // ---------------------------------------------------------------- properties of a fetch

  /** The items of the responses to `requests`, in request order. */
  function Collected<T>(server: Request -> Response<T>, requests: seq<Request>): seq<T> {
    if |requests| == 0 then [] else server(requests[0]).items + Collected(server, requests[1..])
  }

  /**
   * `next` is the request that follows `req`: `req` got a page of at least 100 items, and
   * `next` asks for the page it points to.
   */
  predicate Advances<T>(server: Request -> Response<T>, req: Request, next: Request) {
    server(req).success && |server(req).items| >= PageSize
    && next.page == NextPage(req.page, server(req).nextPage)
  }

  /**
   * Every request of a fetch goes to the same URL with page size 100 and the same query; at
   * most `fuel` requests are made, and the first asks for the starting page.
   */
  lemma {:induction false} FetchRequests<T>(server: Request -> Response<T>, url: string, query: seq<(string, string)>, page: nat, fuel: nat)
    ensures var run := Fetch(server, url, query, page, fuel);
      |run.requests| <= fuel
      && (fuel > 0 ==> |run.requests| >= 1 && run.requests[0].page == page)
      && forall i :: 0 <= i < |run.requests| ==> run.requests[i] == Request(url, PageSize, run.requests[i].page, query)
    decreases fuel
  {
    if fuel > 0 {
      var req := Request(url, PageSize, page, query);
      var resp := server(req);
      if resp.success && |resp.items| >= PageSize {
        var next := NextPage(page, resp.nextPage);
        var rest := Fetch(server, url, query, next, fuel - 1);
        FetchRequests(server, url, query, next, fuel - 1);
        var run := Fetch(server, url, query, page, fuel);
        assert run.requests == [req] + rest.requests;
        forall i | 1 <= i < |run.requests|
          ensures run.requests[i] == Request(url, PageSize, run.requests[i].page, query)
        {
          assert run.requests[i] == rest.requests[i - 1];
        }
      }
    }
  }

  /** Each request after the first asks for the page the previous full page pointed to. */
  lemma {:induction false} FetchAdvances<T>(server: Request -> Response<T>, url: string, query: seq<(string, string)>, page: nat, fuel: nat)
    ensures var run := Fetch(server, url, query, page, fuel);
      forall i :: 0 <= i < |run.requests| - 1 ==> Advances(server, run.requests[i], run.requests[i + 1])
    decreases fuel
  {
    if fuel > 0 {
      var req := Request(url, PageSize, page, query);
      var resp := server(req);
      if resp.success && |resp.items| >= PageSize {
        var next := NextPage(page, resp.nextPage);
        var rest := Fetch(server, url, query, next, fuel - 1);
        FetchAdvances(server, url, query, next, fuel - 1);
        FetchRequests(server, url, query, next, fuel - 1);
        var run := Fetch(server, url, query, page, fuel);
        assert run.requests == [req] + rest.requests;
        forall i | 0 <= i < |run.requests| - 1
          ensures Advances(server, run.requests[i], run.requests[i + 1])
        {
          if i > 0 {
            assert run.requests[i] == rest.requests[i - 1];
            assert run.requests[i + 1] == rest.requests[i];
          }
        }
      }
    }
  }

  /**
   * How a fetch completes: it returns the items of every page in request order, and its
   * last page was short.
   */
  lemma {:induction false} FetchOutcome<T>(server: Request -> Response<T>, url: string, query: seq<(string, string)>, page: nat, fuel: nat)
    ensures var run := Fetch(server, url, query, page, fuel);
      run.outcome.Ok? ==>
        |run.requests| >= 1
        && server(Last(run.requests)).success && |server(Last(run.requests)).items| < PageSize
        && run.outcome.value == Collected(server, run.requests)
    decreases fuel
  {
    if fuel > 0 {
      var req := Request(url, PageSize, page, query);
      var resp := server(req);
      var run := Fetch(server, url, query, page, fuel);
      if !resp.success || |resp.items| < PageSize {
        assert Collected(server, [req]) == resp.items + Collected(server, []);
      } else {
        var next := NextPage(page, resp.nextPage);
        var rest := Fetch(server, url, query, next, fuel - 1);
        FetchOutcome(server, url, query, next, fuel - 1);
        assert run.requests == [req] + rest.requests;
        if rest.outcome.Ok? {
          assert run.requests[1..] == rest.requests;
          assert run.requests[|run.requests| - 1] == rest.requests[|rest.requests| - 1];
        }
      }
    }
  }

  /**
   * How a fetch fails on a status: the error names the page whose response was not a
   * success, and that was the last request made.
   */
  lemma {:induction false} FetchFailure<T>(server: Request -> Response<T>, url: string, query: seq<(string, string)>, page: nat, fuel: nat)
    ensures var run := Fetch(server, url, query, page, fuel);
      run.outcome.Err? && run.outcome.error.HttpStatus? ==>
        |run.requests| >= 1
        && !server(Last(run.requests)).success && run.outcome.error.page == Last(run.requests).page
    decreases fuel
  {
    if fuel > 0 {
      var req := Request(url, PageSize, page, query);
      var resp := server(req);
      var run := Fetch(server, url, query, page, fuel);
      if resp.success && |resp.items| >= PageSize {
        var next := NextPage(page, resp.nextPage);
        var rest := Fetch(server, url, query, next, fuel - 1);
        FetchFailure(server, url, query, next, fuel - 1);
        assert run.requests == [req] + rest.requests;
        if rest.outcome.Err? && rest.outcome.error.HttpStatus? {
          assert run.requests[|run.requests| - 1] == rest.requests[|rest.requests| - 1];
        }
      }
    }
  }

  function Last<X>(s: seq<X>): X
    requires |s| >= 1
  {
    s[|s| - 1]
  }

  /** The server never returns more items than the page size asked for. */
  ghost predicate HonoursPageSize<T>(server: Request -> Response<T>) {
    forall req :: |server(req).items| <= req.perPage
  }

  /** Pages that are full except the last hold 100 items each. */
  lemma {:induction false} CollectedLength<T>(server: Request -> Response<T>, requests: seq<Request>)
    requires |requests| >= 1
    requires forall i :: 0 <= i < |requests| - 1 ==> |server(requests[i]).items| == PageSize
    ensures |Collected(server, requests)| == PageSize * (|requests| - 1) + |server(requests[|requests| - 1]).items|
  {
    if |requests| > 1 {
      CollectedLength(server, requests[1..]);
    }
  }

  /**
   * From a server that honours the page size, a completed fetch made one request per 100
   * items, plus one for the short page that ended it: `n` items take `n / 100 + 1` requests.
   */
  lemma RequestCount<T>(server: Request -> Response<T>, url: string, query: seq<(string, string)>, fuel: nat)
    requires HonoursPageSize(server)
    requires Fetch(server, url, query, 0, fuel).outcome.Ok?
    ensures var run := Fetch(server, url, query, 0, fuel);
      |run.requests| == |run.outcome.value| / PageSize + 1
  {
    var run := Fetch(server, url, query, 0, fuel);
    FetchOutcome(server, url, query, 0, fuel);
    FetchAdvances(server, url, query, 0, fuel);
    FetchRequests(server, url, query, 0, fuel);
    var n := |run.requests|;
    forall i | 0 <= i < n - 1 ensures |server(run.requests[i]).items| == PageSize {
      assert Advances(server, run.requests[i], run.requests[i + 1]);
      assert run.requests[i].perPage == PageSize;
    }
    CollectedLength(server, run.requests);
    var short := |server(run.requests[n - 1]).items|;
    assert |run.outcome.value| == PageSize * (n - 1) + short;
    assert 0 <= short < PageSize;
  }

  /** For example, 250 items come back in three requests. */
  lemma RequestCountExample<T>(server: Request -> Response<T>, url: string, query: seq<(string, string)>, fuel: nat)
    requires HonoursPageSize(server)
    requires Fetch(server, url, query, 0, fuel).outcome.Ok?
    requires |Fetch(server, url, query, 0, fuel).outcome.value| == 250
    ensures |Fetch(server, url, query, 0, fuel).requests| == 3
  {
    RequestCount(server, url, query, fuel);
  }

  /**
   * A short page ends the fetch whatever its `X-Next-Page` header says: two servers that
   * differ only in that header make the same run.
   */
  lemma ShortPageIgnoresHint<T>(server: Request -> Response<T>, other: Request -> Response<T>, url: string, query: seq<(string, string)>, page: nat, fuel: nat)
    requires fuel > 0
    requires var req := Request(url, PageSize, page, query);
      server(req).success && |server(req).items| < PageSize
      && other(req) == server(req).(nextPage := other(req).nextPage)
    ensures Fetch(server, url, query, page, fuel) == Fetch(other, url, query, page, fuel)
    ensures Fetch(server, url, query, page, fuel).requests == [Request(url, PageSize, page, query)]
  {
  }

  /** The `X-Next-Page` header: absent, empty or not a number means no hint. */
  lemma NextPageHintExamples()
    ensures NextPageHint(None) == None
    ensures NextPageHint(Some("")) == None
    ensures NextPageHint(Some("-1")) == None
    ensures NextPageHint(Some("7")) == Some(7)
    ensures NextPage(3, Some("x")) == 4
    ensures NextPage(3, Some("7")) == 7
  {
    assert "7"[..0] == "";
  }

  /** A hint is followed exactly when it fits in a `usize`; a larger number moves to the next page. */
  lemma WideHintIgnored(page: nat, n: nat)
    ensures n <= UsizeMax ==> NextPage(page, Some(NatToString(n))) == n
    ensures n > UsizeMax ==> NextPage(page, Some(NatToString(n))) == page + 1
  {
    UsizeRoundTrip(n);
  }

  // ---------------------------------------------------------------- the note filter

  /** A note that logs time: its body mentions `added` or `deleted`, and `time spent`. */
  predicate IsTimeNote(note: Note) {
    (Contains(note.body, "added") || Contains(note.body, "deleted")) && Contains(note.body, "time spent")
  }

  /** A time note is one in whose body `added` or `deleted` occurs somewhere, and `time spent` too. */
  lemma TimeNoteOccurs(note: Note)
    ensures IsTimeNote(note) <==>
      ((exists j :: OccursAt(note.body, "added", j)) || (exists j :: OccursAt(note.body, "deleted", j)))
      && (exists j :: OccursAt(note.body, "time spent", j))
  {
    ContainsMeansOccurs(note.body, "added");
    ContainsMeansOccurs(note.body, "deleted");
    ContainsMeansOccurs(note.body, "time spent");
  }

  /** The notes that log time, in their original order. */
  function FilterTimeNotes(notes: seq<Note>): (r: seq<Note>)
    ensures |r| <= |notes|
    ensures forall n :: n in r <==> n in notes && IsTimeNote(n)
  {
    if |notes| == 0 then []
    else
      var init := FilterTimeNotes(notes[..|notes| - 1]);
      var last := notes[|notes| - 1];
      assert notes == notes[..|notes| - 1] + [last];
      if IsTimeNote(last) then init + [last] else init
  }

  /** Filtering a concatenation filters each part: the kept notes stay in their order. */
  lemma {:induction false} FilterAppend(a: seq<Note>, b: seq<Note>)
    ensures FilterTimeNotes(a + b) == FilterTimeNotes(a) + FilterTimeNotes(b)
    decreases |b|
  {
    if |b| == 0 {
      assert a + b == a;
    } else {
      var b' := b[..|b| - 1];
      assert (a + b)[..|a + b| - 1] == a + b';
      FilterAppend(a, b');
    }
  }

  /** The filter keeps every time note and is idempotent. */
  lemma {:induction false} FilterIdempotent(notes: seq<Note>)
    ensures FilterTimeNotes(FilterTimeNotes(notes)) == FilterTimeNotes(notes)
  {
    if |notes| > 0 {
      var init := notes[..|notes| - 1];
      var last := notes[|notes| - 1];
      FilterIdempotent(init);
      if IsTimeNote(last) {
        FilterAppend(FilterTimeNotes(init), [last]);
        assert FilterTimeNotes([last]) == FilterTimeNotes([]) + [last];
      }
    }
  }

  /** `/projects/<project id>/issues/<iid>/notes`, with the leading `/` the request URL then doubles. */
  function NotesEndpoint(issue: Issue): string {
    "/projects/" + NatToString(issue.projectId) + "/issues/" + NatToString(issue.iid) + "/notes"
  }

  /**
   * The `/`-parts of the notes endpoint are an empty first part, `projects`, the project
   * id, `issues`, the iid and `notes`, and both ids read back from their parts.
   */
  lemma NotesEndpointParts(issue: Issue, endpoint: string)
    requires endpoint == NotesEndpoint(issue)
    ensures var parts := Split(endpoint, '/');
      parts == ["", "projects", NatToString(issue.projectId), "issues", NatToString(issue.iid), "notes"]
      && ParseNat(parts[2]) == Some(issue.projectId) && ParseNat(parts[4]) == Some(issue.iid)
  {
    var p, i := NatToString(issue.projectId), NatToString(issue.iid);
    var parts := ["", "projects", p, "issues", i, "notes"];
    DigitsOmit(p, '/');
    DigitsOmit(i, '/');
    assert "projects"[1] != '/' && "issues"[1] != '/';
    forall k | 0 <= k < |parts| ensures '/' !in parts[k] {
      if k == 1 || k == 3 || k == 5 {
        assert forall c :: c in parts[k] ==> 'a' <= c <= 'z';
      }
    }
    EndpointJoin(parts, p, i, endpoint);
    SplitJoin(parts, '/');
    NatToStringRoundTrip(issue.projectId);
    NatToStringRoundTrip(issue.iid);
  }

  lemma EndpointJoin(parts: seq<string>, p: string, i: string, endpoint: string)
    requires parts == ["", "projects", p, "issues", i, "notes"]
    requires endpoint == "/projects/" + p + "/issues/" + i + "/notes"
    ensures Join(parts, '/') == endpoint
  {
    var t4 := i + "/notes";
    var t3 := "issues/" + t4;
    var t2 := p + "/" + t3;
    var t1 := "projects/" + t2;
    assert Join(parts[5..], '/') == "notes";
    assert Join(parts[4..], '/') == t4;
    assert Join(parts[3..], '/') == t3;
    assert Join(parts[2..], '/') == t2;
    assert Join(parts[1..], '/') == t1;
    assert endpoint == "/" + t1;
  }

  /**
   * `get_notes_for_issue`: fetch every note of the issue without extra parameters, and pair
   * the issue with the notes that log time; a failed fetch fails.
   */
  method GetNotesForIssue(server: Request -> Response<Note>, baseUrl: string, issue: Issue, fuel: nat)
    returns (r: Result<(Issue, seq<Note>), FetchError>)
    ensures var run := Fetch(server, RequestPath(baseUrl, NotesEndpoint(issue)), [], 0, fuel);
      (r.Err? <==> run.outcome.Err?)
      && (r.Err? ==> r.error == run.outcome.error)
      && (r.Ok? ==> r.value.0 == issue && r.value.1 == FilterTimeNotes(run.outcome.value))
  {
    var notes, _ := RequestMultiple(server, baseUrl, NotesEndpoint(issue), None, fuel);
    match notes
    case Err(e) => r := Err(e);
    case Ok(ns) => r := Ok((issue, FilterTimeNotes(ns)));
  }

  /** The fetch of the issues of the configured project or group. */
  function IssuesRun(server: Request -> Response<Issue>, config: Configuration.Config, fuel: nat): FetchRun<Issue> {
    Fetch(server, RequestPath(config.baseUrl, config.path + "/issues/"), config.parameters, 0, fuel)
  }

  /**
   * `get_issues`: every issue of the configured endpoint, requested with the configured
   * query pairs (the extra parameters and the milestones).
   */
  method GetIssues(server: Request -> Response<Issue>, config: Configuration.Config, fuel: nat)
    returns (r: Result<seq<Issue>, FetchError>)
    ensures r == IssuesRun(server, config, fuel).outcome
    ensures forall req :: req in IssuesRun(server, config, fuel).requests ==> req.query == config.parameters
  {
    var parameters := Configuration.Parameters(config);
    var requests;
    r, requests := RequestMultiple(server, config.baseUrl, config.path + "/issues/", Some(parameters), fuel);
    FetchRequests(server, RequestPath(config.baseUrl, config.path + "/issues/"), config.parameters, 0, fuel);
  }
}
