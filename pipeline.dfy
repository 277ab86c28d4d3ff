/**
 * `generate_table`: fetch the issues, fetch each issue's time notes, turn every issue's
 * notes into time entries and group them into the report. The concurrent fetch of the
 * notes is modelled as a sequential one that stops at the first failure.
 */
module Pipeline {
  import opened Wrappers
  import opened Data
  import opened Util
  import opened Formatting
  import opened GitlabApi
  import Configuration

  // ---------------------------------------------------------------- the notes of every issue

  function NotesRun(server: Request -> Response<Note>, baseUrl: string, issue: Issue, fuel: nat): FetchRun<Note> {
    Fetch(server, RequestPath(baseUrl, NotesEndpoint(issue)), [], 0, fuel)
  }

  predicate AllNotesFetched(server: Request -> Response<Note>, baseUrl: string, issues: seq<Issue>, fuel: nat) {
    forall k :: 0 <= k < |issues| ==> NotesRun(server, baseUrl, issues[k], fuel).outcome.Ok?
  }

  /** Each issue paired with its time notes, when every fetch succeeded. */
  function IssueNotes(server: Request -> Response<Note>, baseUrl: string, issues: seq<Issue>, fuel: nat): seq<(Issue, seq<Note>)>
    requires AllNotesFetched(server, baseUrl, issues, fuel)
  {
    seq(|issues|, k requires 0 <= k < |issues| =>
      (issues[k], FilterTimeNotes(NotesRun(server, baseUrl, issues[k], fuel).outcome.value)))
  }

  /**
   * The note fetches of all issues: the issues in order, each with its time notes; the
   * first failed fetch fails the whole.
   */
  method FetchAllNotes(server: Request -> Response<Note>, baseUrl: string, issues: seq<Issue>, fuel: nat)
    returns (r: Result<seq<(Issue, seq<Note>)>, FetchError>)
    ensures r.Ok? <==> AllNotesFetched(server, baseUrl, issues, fuel)
    ensures r.Ok? ==> r.value == IssueNotes(server, baseUrl, issues, fuel)
  {
    var pairs: seq<(Issue, seq<Note>)> := [];
    for i := 0 to |issues|
      invariant AllNotesFetched(server, baseUrl, issues[..i], fuel)
      invariant pairs == IssueNotes(server, baseUrl, issues[..i], fuel)
    {
      var one := GetNotesForIssue(server, baseUrl, issues[i], fuel);
      if one.Err? {
        assert !NotesRun(server, baseUrl, issues[i], fuel).outcome.Ok?;
        return Err(one.error);
      }
      NotesStep(server, baseUrl, issues, i, fuel);
      pairs := pairs + [one.value];
    }
    assert issues[..|issues|] == issues;
    r := Ok(pairs);
  }

  lemma NotesStep(server: Request -> Response<Note>, baseUrl: string, issues: seq<Issue>, i: nat, fuel: nat)
    requires i < |issues|
    requires AllNotesFetched(server, baseUrl, issues[..i], fuel)
    requires NotesRun(server, baseUrl, issues[i], fuel).outcome.Ok?
    ensures AllNotesFetched(server, baseUrl, issues[..i + 1], fuel)
    ensures IssueNotes(server, baseUrl, issues[..i + 1], fuel)
         == IssueNotes(server, baseUrl, issues[..i], fuel)
            + [(issues[i], FilterTimeNotes(NotesRun(server, baseUrl, issues[i], fuel).outcome.value))]
  {
    var before, after := issues[..i], issues[..i + 1];
    assert after == before + [issues[i]];
    forall k | 0 <= k < |after| ensures NotesRun(server, baseUrl, after[k], fuel).outcome.Ok? {
      if k < i { assert after[k] == before[k]; }
    }
    var xs := IssueNotes(server, baseUrl, before, fuel);
    var ys := IssueNotes(server, baseUrl, after, fuel);
    assert |ys| == |xs| + 1;
    forall k | 0 <= k < |xs| ensures ys[k] == xs[k] {
      assert after[k] == before[k];
    }
  }

  // ---------------------------------------------------------------- time entries of every issue

  /** Every time note of every issue is one `process_note` reads without panicking. */
  predicate AllIssuesParsable(pairs: seq<(Issue, seq<Note>)>) {
    forall k :: 0 <= k < |pairs| ==> AllParsable(pairs[k].1)
  }

  /** The authors with a time note on any issue. */
  function AllTimeAuthors(pairs: seq<(Issue, seq<Note>)>): set<Author> {
    if |pairs| == 0 then {} else AllTimeAuthors(pairs[..|pairs| - 1]) + TimeAuthors(pairs[|pairs| - 1].1)
  }

  /** The net minutes of `a` over all issues. */
  function NetOver(pairs: seq<(Issue, seq<Note>)>, a: Author): int
    requires AllIssuesParsable(pairs)
  {
    if |pairs| == 0 then 0
    else NetOver(pairs[..|pairs| - 1], a) + AuthorNet(pairs[|pairs| - 1].1, a)
  }

  /** The number of issues `a` logged time on. */
  function IssuesWith(pairs: seq<(Issue, seq<Note>)>, a: Author): nat {
    if |pairs| == 0 then 0
    else IssuesWith(pairs[..|pairs| - 1], a) + (if a in TimeAuthors(pairs[|pairs| - 1].1) then 1 else 0)
  }

  /** The number of entries of `a`. */
  function EntryCount(times: seq<TimeEntry>, a: Author): nat {
    if |times| == 0 then 0
    else EntryCount(times[..|times| - 1], a) + (if times[|times| - 1].author == a then 1 else 0)
  }

  /** The entries of `a`, in order. */
  function EntriesOf(times: seq<TimeEntry>, a: Author): seq<TimeEntry> {
    if |times| == 0 then []
    else EntriesOf(times[..|times| - 1], a) + (if times[|times| - 1].author == a then [times[|times| - 1]] else [])
  }

  /**
   * The entries `a` is due: one per issue `a` logged time on, in issue order, each
   * carrying that issue and `a`'s net minutes on it.
   */
  function IssueEntries(pairs: seq<(Issue, seq<Note>)>, a: Author): seq<TimeEntry>
    requires AllIssuesParsable(pairs)
  {
    if |pairs| == 0 then []
    else
      var last := pairs[|pairs| - 1];
      IssueEntries(pairs[..|pairs| - 1], a)
      + (if a in TimeAuthors(last.1) then [TimeEntry(a, last.0, AuthorNet(last.1, a))] else [])
  }

  /**
   * `entries.iter().flat_map(process_issue)`: the entries of every issue in turn. Each
   * author's entries are, in issue order, one per issue they logged time on, carrying
   * that issue and their net minutes on it. So every author's total over them is that
   * author's net over all issues.
   */
  method CollectTimes(pairs: seq<(Issue, seq<Note>)>) returns (times: seq<TimeEntry>)
    requires AllIssuesParsable(pairs)
    ensures AuthorsOf(times) == AllTimeAuthors(pairs)
    ensures forall a :: Total(times, a) == NetOver(pairs, a)
    ensures forall a :: EntryCount(times, a) == IssuesWith(pairs, a)
    ensures forall i :: 0 <= i < |times| ==>
      exists k :: 0 <= k < |pairs| && times[i].ticket == pairs[k].0 && times[i].author in TimeAuthors(pairs[k].1)
    ensures forall a :: EntriesOf(times, a) == IssueEntries(pairs, a)
  {
    times := [];
    for k := 0 to |pairs|
      invariant AuthorsOf(times) == AllTimeAuthors(pairs[..k])
      invariant forall a :: CollectedUpTo(times, pairs, k, a)
      invariant FromIssues(times, pairs, k)
    {
      var block := ProcessIssue(pairs[k].1, pairs[k].0);
      assert pairs[..k + 1][..k] == pairs[..k];
      var n := k + 1;
      forall a ensures CollectedUpTo(times + block, pairs, n, a) {
        BlockOfIssue(block, pairs[k].1, pairs[k].0, a);
        DistinctEntries(block, pairs[k].1, pairs[k].0, a);
        CollectStep(times, block, pairs, k, a);
      }
      AuthorsOfAppend(times, block);
      AuthorsOfMembershipAll(block);
      FromIssuesStep(times, block, pairs, k);
      times := times + block;
    }
    assert pairs[..|pairs|] == pairs;
    forall a ensures Total(times, a) == NetOver(pairs, a) && EntryCount(times, a) == IssuesWith(pairs, a)
                 && EntriesOf(times, a) == IssueEntries(pairs, a)
    {
      assert CollectedUpTo(times, pairs, |pairs|, a);
    }
  }

  /** Each of `times` carries one of the first `n` issues, and its author logged time on it. */
  predicate FromIssues(times: seq<TimeEntry>, pairs: seq<(Issue, seq<Note>)>, n: nat)
    requires n <= |pairs|
  {
    forall i :: 0 <= i < |times| ==>
      exists j :: 0 <= j < n && times[i].ticket == pairs[j].0 && times[i].author in TimeAuthors(pairs[j].1)
  }

  /** The entries of issue `k`, appended, keep every entry tied to its issue. */
  lemma FromIssuesStep(times: seq<TimeEntry>, block: seq<TimeEntry>, pairs: seq<(Issue, seq<Note>)>, k: nat)
    requires k < |pairs| && FromIssues(times, pairs, k)
    requires forall i :: 0 <= i < |block| ==> block[i].ticket == pairs[k].0 && block[i].author in TimeAuthors(pairs[k].1)
    ensures FromIssues(times + block, pairs, k + 1)
  {
    var ts := times + block;
    forall i | 0 <= i < |ts|
      ensures exists j :: 0 <= j < k + 1 && ts[i].ticket == pairs[j].0 && ts[i].author in TimeAuthors(pairs[j].1)
    {
      if i >= |times| {
        assert ts[i] == block[i - |times|];
      } else {
        var j :| 0 <= j < k && times[i].ticket == pairs[j].0 && times[i].author in TimeAuthors(pairs[j].1);
        assert ts[i] == times[i];
      }
    }
    assert forall i :: 0 <= i < |ts| ==> exists j :: 0 <= j < k + 1 && ts[i].ticket == pairs[j].0 && ts[i].author in TimeAuthors(pairs[j].1);
  }

  /** What the entries of the first `n` issues give author `a`. */
  ghost predicate CollectedUpTo(times: seq<TimeEntry>, pairs: seq<(Issue, seq<Note>)>, n: nat, a: Author)
    requires n <= |pairs| && AllIssuesParsable(pairs)
  {
    Total(times, a) == NetOver(pairs[..n], a)
    && EntryCount(times, a) == IssuesWith(pairs[..n], a)
    && EntriesOf(times, a) == IssueEntries(pairs[..n], a)
  }

  /**
   * Appending a block that gives author `a` what issue `k` gives them (their net, one
   * entry if they logged time there) extends what `a` is given by the issues before `k`.
   */
  lemma CollectStep(times: seq<TimeEntry>, block: seq<TimeEntry>, pairs: seq<(Issue, seq<Note>)>, k: nat, a: Author)
    requires k < |pairs| && AllIssuesParsable(pairs)
    requires CollectedUpTo(times, pairs, k, a)
    requires Total(block, a) == AuthorNet(pairs[k].1, a)
    requires EntryCount(block, a) == if a in TimeAuthors(pairs[k].1) then 1 else 0
    requires EntriesOf(block, a)
      == if a in TimeAuthors(pairs[k].1) then [TimeEntry(a, pairs[k].0, AuthorNet(pairs[k].1, a))] else []
    ensures CollectedUpTo(times + block, pairs, k + 1, a)
  {
    assert pairs[..k + 1][..k] == pairs[..k];
    assert pairs[..k + 1][k] == pairs[k];
    TotalAppend(times, block, a);
    EntryCountAppend(times, block, a);
    EntriesOfAppend(times, block, a);
  }

  /** In one issue's entries, with distinct authors, `a` has the single entry with the issue and `a`'s net, if any. */
  lemma {:induction false} DistinctEntries(block: seq<TimeEntry>, notes: seq<Note>, ticket: Issue, a: Author)
    requires AllParsable(notes)
    requires forall i :: 0 <= i < |block| ==>
      block[i].ticket == ticket && block[i].timeSpent == AuthorNet(notes, block[i].author)
    requires forall i, j :: 0 <= i < j < |block| ==> block[i].author != block[j].author
    ensures EntriesOf(block, a) == if a in AuthorsOf(block) then [TimeEntry(a, ticket, AuthorNet(notes, a))] else []
  {
    if |block| > 0 {
      var init := block[..|block| - 1];
      var last := block[|block| - 1];
      DistinctEntries(init, notes, ticket, a);
      if last.author == a {
        AuthorsOfMembership(init, a);
        forall i | 0 <= i < |init| ensures init[i].author != a {
          assert init[i] == block[i];
        }
      }
    }
  }

  lemma {:induction false} EntriesOfAppend(xs: seq<TimeEntry>, ys: seq<TimeEntry>, a: Author)
    ensures EntriesOf(xs + ys, a) == EntriesOf(xs, a) + EntriesOf(ys, a)
    decreases |ys|
  {
    if |ys| == 0 {
      assert xs + ys == xs;
    } else {
      assert (xs + ys)[..|xs + ys| - 1] == xs + ys[..|ys| - 1];
      EntriesOfAppend(xs, ys[..|ys| - 1], a);
    }
  }

  /**
   * What `process_issue` gives for one issue, as one author sees it: their net minutes, and
   * one entry if they logged time on the issue, none otherwise.
   */
  lemma {:induction false} BlockOfIssue(block: seq<TimeEntry>, notes: seq<Note>, ticket: Issue, a: Author)
    requires AllParsable(notes)
    requires forall i :: 0 <= i < |block| ==> block[i].timeSpent == AuthorNet(notes, block[i].author)
    requires forall i, j :: 0 <= i < j < |block| ==> block[i].author != block[j].author
    requires AuthorsOf(block) == TimeAuthors(notes)
    ensures Total(block, a) == AuthorNet(notes, a)
    ensures EntryCount(block, a) == if a in TimeAuthors(notes) then 1 else 0
  {
    DistinctBlock(block, notes, a);
    if a !in TimeAuthors(notes) {
      AuthorNetOutside(notes, a);
    }
  }

  lemma {:induction false} DistinctBlock(block: seq<TimeEntry>, notes: seq<Note>, a: Author)
    requires AllParsable(notes)
    requires forall i :: 0 <= i < |block| ==> block[i].timeSpent == AuthorNet(notes, block[i].author)
    requires forall i, j :: 0 <= i < j < |block| ==> block[i].author != block[j].author
    ensures Total(block, a) == (if a in AuthorsOf(block) then AuthorNet(notes, a) else 0)
    ensures EntryCount(block, a) == (if a in AuthorsOf(block) then 1 else 0)
  {
    if |block| > 0 {
      var init := block[..|block| - 1];
      var last := block[|block| - 1];
      DistinctBlock(init, notes, a);
      if last.author == a {
        AuthorsOfMembership(init, a);
        forall i | 0 <= i < |init| ensures init[i].author != a {
          assert init[i] == block[i];
        }
      }
    }
  }

  lemma {:induction false} EntryCountAppend(xs: seq<TimeEntry>, ys: seq<TimeEntry>, a: Author)
    ensures EntryCount(xs + ys, a) == EntryCount(xs, a) + EntryCount(ys, a)
    decreases |ys|
  {
    if |ys| == 0 {
      assert xs + ys == xs;
    } else {
      assert (xs + ys)[..|xs + ys| - 1] == xs + ys[..|ys| - 1];
      EntryCountAppend(xs, ys[..|ys| - 1], a);
    }
  }

  lemma {:induction false} AuthorsOfAppend(xs: seq<TimeEntry>, ys: seq<TimeEntry>)
    ensures AuthorsOf(xs + ys) == AuthorsOf(xs) + AuthorsOf(ys)
    decreases |ys|
  {
    if |ys| == 0 {
      assert xs + ys == xs;
    } else {
      assert (xs + ys)[..|xs + ys| - 1] == xs + ys[..|ys| - 1];
      AuthorsOfAppend(xs, ys[..|ys| - 1]);
    }
  }

  /** A person's rows are that person's entries, one each. */
  lemma {:induction false} RowsLength(times: seq<TimeEntry>, a: Author)
    requires AllLabelled(times)
    ensures |Rows(times, a)| == EntryCount(times, a)
  {
    if |times| > 0 {
      RowsLength(times[..|times| - 1], a);
    }
  }

  /**
   * Every issue someone logged time on has a link long enough to label; only those issues
   * give time entries, so only their links reach `generate_entry`.
   */
  predicate IssuesLabelled(pairs: seq<(Issue, seq<Note>)>) {
    forall k :: 0 <= k < |pairs| && TimeAuthors(pairs[k].1) != {} ==> HasLabelSegment(pairs[k].0.webUrl)
  }

  /**
   * The rows the report gives author `a`, issue by issue: one row per issue `a` logged
   * time on, in issue order, labelled by that issue and carrying `a`'s net minutes on it.
   */
  function IssueRows(pairs: seq<(Issue, seq<Note>)>, a: Author): seq<TableEntry>
    requires AllIssuesParsable(pairs) && IssuesLabelled(pairs)
  {
    if |pairs| == 0 then []
    else
      var last := pairs[|pairs| - 1];
      IssueRows(pairs[..|pairs| - 1], a)
      + (if a in TimeAuthors(last.1) then [GenerateEntry(TimeEntry(a, last.0, AuthorNet(last.1, a)))] else [])
  }

  /** A person's rows depend only on that person's own entries. */
  lemma {:induction false} RowsOfOwnEntries(times: seq<TimeEntry>, a: Author)
    requires AllLabelled(times)
    ensures AllLabelled(EntriesOf(times, a))
    ensures Rows(EntriesOf(times, a), a) == Rows(times, a)
  {
    if |times| > 0 {
      var init := times[..|times| - 1];
      var last := times[|times| - 1];
      RowsOfOwnEntries(init, a);
      if last.author == a {
        var es := EntriesOf(init, a) + [last];
        assert es[..|es| - 1] == EntriesOf(init, a);
      } else {
        assert EntriesOf(times, a) == EntriesOf(init, a);
      }
    }
  }

  /** Rendering the entries of `a`, issue by issue, gives `a`'s rows issue by issue. */
  lemma {:induction false} IssueRowsOfEntries(pairs: seq<(Issue, seq<Note>)>, a: Author)
    requires AllIssuesParsable(pairs) && IssuesLabelled(pairs)
    ensures AllLabelled(IssueEntries(pairs, a))
    ensures Rows(IssueEntries(pairs, a), a) == IssueRows(pairs, a)
  {
    if |pairs| > 0 {
      var init := pairs[..|pairs| - 1];
      var last := pairs[|pairs| - 1];
      assert AllIssuesParsable(init) && IssuesLabelled(init);
      IssueRowsOfEntries(init, a);
      if a in TimeAuthors(last.1) {
        var es := IssueEntries(init, a) + [TimeEntry(a, last.0, AuthorNet(last.1, a))];
        assert es[..|es| - 1] == IssueEntries(init, a);
      } else {
        assert IssueEntries(pairs, a) == IssueEntries(init, a);
      }
    }
  }

  // ---------------------------------------------------------------- the whole run

  /** Every issue the server sends has a link long enough to label (else `generate_entry` panics). */
  ghost predicate IssueLinksLabelled(server: Request -> Response<Issue>) {
    forall req, k :: 0 <= k < |server(req).items| ==> HasLabelSegment(server(req).items[k].webUrl)
  }

  /** Every time note the server sends is one `process_note` reads without panicking. */
  ghost predicate TimeNotesParsable(server: Request -> Response<Note>) {
    forall req, k :: 0 <= k < |server(req).items| && IsTimeNote(server(req).items[k]) ==> NoteParsable(server(req).items[k].body)
  }

  /** Everything a fetch collects comes from one of its responses. */
  lemma {:induction false} CollectedMembers<T>(server: Request -> Response<T>, requests: seq<Request>)
    ensures forall x :: x in Collected(server, requests) ==> exists j :: 0 <= j < |requests| && x in server(requests[j]).items
  {
    if |requests| > 0 {
      CollectedMembers(server, requests[1..]);
      forall x | x in Collected(server, requests) ensures exists j :: 0 <= j < |requests| && x in server(requests[j]).items {
        if x !in server(requests[0]).items {
          assert x in Collected(server, requests[1..]);
          var j :| 0 <= j < |requests[1..]| && x in server(requests[1..][j]).items;
          assert requests[1..][j] == requests[j + 1];
        }
      }
    }
  }

  /**
   * The run reaches the report without a panic: every time note of every issue parses,
   * and every issue someone logged time on can be labelled.
   */
  predicate RunReadable(server: Request -> Response<Note>, baseUrl: string, issues: seq<Issue>, fuel: nat)
    requires AllNotesFetched(server, baseUrl, issues, fuel)
  {
    var pairs := IssueNotes(server, baseUrl, issues, fuel);
    AllIssuesParsable(pairs) && IssuesLabelled(pairs)
  }

  /** A server whose every link can be labelled sends only issues that can be labelled. */
  lemma FetchedIssuesLabelled(issueServer: Request -> Response<Issue>, config: Configuration.Config,
                              server: Request -> Response<Note>, issues: seq<Issue>, fuel: nat)
    requires IssueLinksLabelled(issueServer)
    requires IssuesRun(issueServer, config, fuel).outcome == Ok(issues)
    requires AllNotesFetched(server, config.baseUrl, issues, fuel)
    ensures IssuesLabelled(IssueNotes(server, config.baseUrl, issues, fuel))
  {
    var run := IssuesRun(issueServer, config, fuel);
    var url := RequestPath(config.baseUrl, config.path + "/issues/");
    assert run == Fetch(issueServer, url, config.parameters, 0, fuel);
    FetchOutcome(issueServer, url, config.parameters, 0, fuel);
    CollectedMembers(issueServer, run.requests);
    var pairs := IssueNotes(server, config.baseUrl, issues, fuel);
    forall k | 0 <= k < |pairs| ensures HasLabelSegment(pairs[k].0.webUrl) {
      var x := issues[k];
      assert pairs[k].0 == x;
      assert x in Collected(issueServer, run.requests);
      var j :| 0 <= j < |run.requests| && x in issueServer(run.requests[j]).items;
      var m :| 0 <= m < |issueServer(run.requests[j]).items| && issueServer(run.requests[j]).items[m] == x;
    }
  }

  /** A server whose every time note parses sends only time notes that parse. */
  lemma FetchedNotesParsable(server: Request -> Response<Note>, baseUrl: string, issues: seq<Issue>, fuel: nat)
    requires TimeNotesParsable(server)
    requires AllNotesFetched(server, baseUrl, issues, fuel)
    ensures AllIssuesParsable(IssueNotes(server, baseUrl, issues, fuel))
  {
    var pairs := IssueNotes(server, baseUrl, issues, fuel);
    forall k | 0 <= k < |pairs| ensures AllParsable(pairs[k].1) {
      var run := NotesRun(server, baseUrl, issues[k], fuel);
      var kept := FilterTimeNotes(run.outcome.value);
      assert pairs[k].1 == kept;
      FetchOutcome(server, RequestPath(baseUrl, NotesEndpoint(issues[k])), [], 0, fuel);
      CollectedMembers(server, run.requests);
      forall i | 0 <= i < |kept| ensures NoteParsable(kept[i].body) {
        var n := kept[i];
        assert n in kept;
        var j :| 0 <= j < |run.requests| && n in server(run.requests[j]).items;
        var m :| 0 <= m < |server(run.requests[j]).items| && server(run.requests[j]).items[m] == n;
      }
    }
  }

  /** Entries each made from an issue its author logged time on can all be labelled. */
  lemma PairsLabelled(pairs: seq<(Issue, seq<Note>)>, times: seq<TimeEntry>)
    requires IssuesLabelled(pairs)
    requires forall i :: 0 <= i < |times| ==>
      exists k :: 0 <= k < |pairs| && times[i].ticket == pairs[k].0 && times[i].author in TimeAuthors(pairs[k].1)
    ensures AllLabelled(times)
  {
    forall i | 0 <= i < |times| ensures HasLabelSegment(times[i].ticket.webUrl) {
      var k :| 0 <= k < |pairs| && times[i].ticket == pairs[k].0 && times[i].author in TimeAuthors(pairs[k].1);
      assert TimeAuthors(pairs[k].1) != {};
    }
  }

  /**
   * `generate_table` up to the report text: the issues of the configured endpoint, their
   * time notes, the time entries and the report. Any failed fetch fails the run. In the
   * report, everyone with a time note on some issue appears once, sorted by name, with
   * their net over all issues as total, one row per issue they logged time on, and the
   * rows summing to the total.
   */
  method GenerateTable(config: Configuration.Config, issueServer: Request -> Response<Issue>,
                       noteServer: Request -> Response<Note>, fuel: nat)
    returns (r: Result<seq<PersonEntry>, FetchError>)
    requires IssuesRun(issueServer, config, fuel).outcome.Ok?
      && AllNotesFetched(noteServer, config.baseUrl, IssuesRun(issueServer, config, fuel).outcome.value, fuel)
      ==> RunReadable(noteServer, config.baseUrl, IssuesRun(issueServer, config, fuel).outcome.value, fuel)
    ensures r.Ok? <==>
      IssuesRun(issueServer, config, fuel).outcome.Ok?
      && AllNotesFetched(noteServer, config.baseUrl, IssuesRun(issueServer, config, fuel).outcome.value, fuel)
    ensures r.Ok? ==>
      var pairs := IssueNotes(noteServer, config.baseUrl, IssuesRun(issueServer, config, fuel).outcome.value, fuel);
      AllIssuesParsable(pairs)
      && SortedByName(r.value) && DistinctUsers(r.value)
      && UsersOf(r.value) == AllTimeAuthors(pairs)
      && IssuesLabelled(pairs)
      && forall p :: p in r.value ==>
           p.tickets == IssueRows(pairs, p.user)
           && p.totalTimeSpent == NetOver(pairs, p.user)
           && |p.tickets| == IssuesWith(pairs, p.user)
           && SumTime(p.tickets) == p.totalTimeSpent
  {
    var tickets := GetIssues(issueServer, config, fuel);
    if tickets.Err? {
      return Err(tickets.error);
    }
    var entries := FetchAllNotes(noteServer, config.baseUrl, tickets.value, fuel);
    if entries.Err? {
      return Err(entries.error);
    }
    var pairs := entries.value;
    var times := CollectTimes(pairs);
    PairsLabelled(pairs, times);
    var people := GenerateTimeTable(times);
    forall p | p in people
      ensures p.tickets == IssueRows(pairs, p.user)
      ensures |p.tickets| == IssuesWith(pairs, p.user) && SumTime(p.tickets) == p.totalTimeSpent
    {
      RowsOfOwnEntries(times, p.user);
      IssueRowsOfEntries(pairs, p.user);
      RowsLength(times, p.user);
      RowsTotal(times, p.user);
    }
    r := Ok(people);
  }
}
