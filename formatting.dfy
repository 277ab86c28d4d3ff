/**
 * The report: time entries grouped per person, each person's total, one row per entry
 * with a short ticket label, people ordered by display name, and the percentage each
 * row shows of its person's total.
 */
module Formatting {
  import opened Wrappers
  import opened Text
  import opened Data

  /** One row of a person's table. */
  datatype TableEntry = TableEntry(title: string, timeSpent: int, ticket: string, ticketLink: string)

  /** One person's block of the report. */
  datatype PersonEntry = PersonEntry(user: Author, totalTimeSpent: int, tickets: seq<TableEntry>)

  // ---------------------------------------------------------------- ticket label

  /** The link has at least four `/`-separated segments, so `parts[parts.len() - 4]` does not panic. */
  predicate HasLabelSegment(webUrl: string) {
    |Split(webUrl, '/')| >= 4
  }

  /** `<segment>#<iid>`, the segment being the fourth-from-last `/`-separated part of the link. */
  function TicketLabel(webUrl: string, iid: nat): (r: string)
    requires HasLabelSegment(webUrl)
    ensures var d := NatToString(iid);
      |r| > |d| && r[|r| - |d|..] == d && r[|r| - |d| - 1] == '#' && '/' !in r[..|r| - |d| - 1]
  {
    var parts := Split(webUrl, '/');
    parts[|parts| - 4] + "#" + NatToString(iid)
  }

  /** `generate_entry`: the row for one time entry. */
  function GenerateEntry(entry: TimeEntry): (r: TableEntry)
    requires HasLabelSegment(entry.ticket.webUrl)
    ensures r.title == entry.ticket.title
    ensures r.timeSpent == entry.timeSpent
    ensures r.ticketLink == entry.ticket.webUrl
    ensures r.ticket == TicketLabel(entry.ticket.webUrl, entry.ticket.iid)
  {
    TableEntry(entry.ticket.title, entry.timeSpent, TicketLabel(entry.ticket.webUrl, entry.ticket.iid), entry.ticket.webUrl)
  }

  /**
   * For a link `prefix/seg/s1/s2/s3` whose last four parts hold no `/`, the label is
   * `seg#iid`.
   */
  lemma TicketLabelOfUrl(url: string, prefix: string, seg: string, s1: string, s2: string, s3: string, iid: nat)
    requires url == prefix + "/" + seg + "/" + s1 + "/" + s2 + "/" + s3
    requires '/' !in seg && '/' !in s1 && '/' !in s2 && '/' !in s3
    ensures HasLabelSegment(url)
    ensures TicketLabel(url, iid) == seg + "#" + NatToString(iid)
  {
    SplitUrl(url, prefix, seg, s1, s2, s3);
    var parts := Split(url, '/');
    assert parts[|parts| - 4] == seg;
  }

  /** A link of exactly four parts, `seg/s1/s2/s3`, is labelled by its first part: `seg#iid`. */
  lemma TicketLabelOfShortUrl(url: string, seg: string, s1: string, s2: string, s3: string, iid: nat)
    requires url == seg + "/" + s1 + "/" + s2 + "/" + s3
    requires '/' !in seg && '/' !in s1 && '/' !in s2 && '/' !in s3
    ensures Split(url, '/') == [seg, s1, s2, s3]
    ensures HasLabelSegment(url)
    ensures TicketLabel(url, iid) == seg + "#" + NatToString(iid)
  {
    var parts := [seg, s1, s2, s3];
    assert Join(parts[3..], '/') == s3;
    assert Join(parts[2..], '/') == s2 + "/" + s3;
    assert Join(parts[1..], '/') == s1 + "/" + s2 + "/" + s3;
    assert Join(parts, '/') == url;
    SplitJoin(parts, '/');
  }

  /** The `/`-parts of `prefix/seg/s1/s2/s3` are those of `prefix` followed by the four others. */
  lemma SplitUrl(url: string, prefix: string, seg: string, s1: string, s2: string, s3: string)
    requires url == prefix + "/" + seg + "/" + s1 + "/" + s2 + "/" + s3
    requires '/' !in seg && '/' !in s1 && '/' !in s2 && '/' !in s3
    ensures Split(url, '/') == Split(prefix, '/') + [seg, s1, s2, s3]
  {
    var head := Split(prefix, '/');
    var parts := head + [seg, s1, s2, s3];
    forall k | 0 <= k < |parts| ensures '/' !in parts[k] {
      if k < |head| { assert parts[k] == head[k]; }
    }
    JoinAppend(head, seg, '/');
    JoinAppend(head + [seg], s1, '/');
    JoinAppend(head + [seg, s1], s2, '/');
    JoinAppend(head + [seg, s1, s2], s3, '/');
    assert head + [seg] + [s1] == head + [seg, s1];
    assert head + [seg, s1] + [s2] == head + [seg, s1, s2];
    assert head + [seg, s1, s2] + [s3] == parts;
    assert Join(parts, '/') == url;
    SplitJoin(parts, '/');
  }

  /** The number after the last `#` of a label `seg#iid` reads back as the iid. */
  lemma LabelNumber(ticket: string, seg: string, iid: nat)
    requires ticket == seg + "#" + NatToString(iid)
    ensures var parts := Split(ticket, '#');
            ParseNat(parts[|parts| - 1]) == Some(iid)
  {
    var digits := NatToString(iid);
    DigitsOmit(digits, '#');
    assert ticket == seg + ['#'] + digits;
    SplitLastAfterSep(seg, digits, '#');
    var parts := Split(ticket, '#');
    assert parts[|parts| - 1] == digits;
    NatToStringRoundTrip(iid);
  }

  lemma TicketLabelExample(url: string)
    requires url == "https://gitlab.com/grp/proj/-/issues/12"
    ensures HasLabelSegment(url) && TicketLabel(url, 12) == "proj#12"
  {
    ExampleUrlLayout(url, "https://gitlab.com/grp", "proj", "-", "issues", "12");
    TicketLabelOfUrl(url, "https://gitlab.com/grp", "proj", "-", "issues", "12", 12);
    assert NatToString(12) == "12";
  }

  lemma ExampleUrlLayout(url: string, prefix: string, seg: string, s1: string, s2: string, s3: string)
    requires url == "https://gitlab.com/grp/proj/-/issues/12"
    requires prefix == "https://gitlab.com/grp" && seg == "proj" && s1 == "-" && s2 == "issues" && s3 == "12"
    ensures url == prefix + "/" + seg + "/" + s1 + "/" + s2 + "/" + s3
    ensures '/' !in seg && '/' !in s1 && '/' !in s2 && '/' !in s3
  {
  }

  // ---------------------------------------------------------------- grouping

  /** Every entry's link is long enough to label. */
  predicate AllLabelled(times: seq<TimeEntry>) {
    forall k :: 0 <= k < |times| ==> HasLabelSegment(times[k].ticket.webUrl)
  }

  /** The rows of author `a`: the entries of `a`, in input order, made into rows. */
  function Rows(times: seq<TimeEntry>, a: Author): seq<TableEntry>
    requires AllLabelled(times)
  {
    if |times| == 0 then []
    else
      var last := times[|times| - 1];
      Rows(times[..|times| - 1], a) + (if last.author == a then [GenerateEntry(last)] else [])
  }

  /** The net minutes of author `a` over all entries. */
  function Total(times: seq<TimeEntry>, a: Author): int
  {
    if |times| == 0 then 0
    else
      var last := times[|times| - 1];
      Total(times[..|times| - 1], a) + (if last.author == a then last.timeSpent else 0)
  }

  /** The minutes of a list of rows. */
  function SumTime(rows: seq<TableEntry>): int
  {
    if |rows| == 0 then 0 else SumTime(rows[..|rows| - 1]) + rows[|rows| - 1].timeSpent
  }

  predicate SortedByName(people: seq<PersonEntry>) {
    forall i, j :: 0 <= i < j < |people| ==> LexLe(people[i].user.name, people[j].user.name)
  }

  predicate DistinctUsers(people: seq<PersonEntry>) {
    forall i, j :: 0 <= i < j < |people| ==> people[i].user != people[j].user
  }

  function UsersOf(people: seq<PersonEntry>): set<Author> {
    if |people| == 0 then {} else UsersOf(people[..|people| - 1]) + {people[|people| - 1].user}
  }

  lemma {:induction false} UsersOfMembership(people: seq<PersonEntry>, u: Author)
    ensures u in UsersOf(people) <==> exists i :: 0 <= i < |people| && people[i].user == u
  {
    if |people| > 0 {
      var init := people[..|people| - 1];
      UsersOfMembership(init, u);
      if exists i :: 0 <= i < |init| && init[i].user == u {
        var i :| 0 <= i < |init| && init[i].user == u;
        assert people[i].user == u;
      }
    }
  }

  lemma SortedCons(x: PersonEntry, s: seq<PersonEntry>)
    requires SortedByName(s)
    requires forall j :: 0 <= j < |s| ==> LexLe(x.user.name, s[j].user.name)
    ensures SortedByName([x] + s)
  {
  }

  lemma DistinctCons(x: PersonEntry, s: seq<PersonEntry>)
    requires DistinctUsers(s)
    requires forall j :: 0 <= j < |s| ==> s[j].user != x.user
    ensures DistinctUsers([x] + s)
  {
  }

  /** Put `p` into its place in a list sorted by display name. */
  function Insert(p: PersonEntry, sorted: seq<PersonEntry>): (r: seq<PersonEntry>)
    ensures multiset(r) == multiset(sorted) + multiset{p}
  {
    if |sorted| == 0 then [p]
    else if LexLe(p.user.name, sorted[0].user.name) then [p] + sorted
    else
      assert sorted == [sorted[0]] + sorted[1..];
      [sorted[0]] + Insert(p, sorted[1..])
  }

  lemma {:induction false} InsertSorted(p: PersonEntry, sorted: seq<PersonEntry>)
    requires SortedByName(sorted)
    ensures SortedByName(Insert(p, sorted))
  {
    if |sorted| == 0 {
    } else if LexLe(p.user.name, sorted[0].user.name) {
      forall j | 0 < j < |sorted| ensures LexLe(p.user.name, sorted[j].user.name) {
        LexLeTransitive(p.user.name, sorted[0].user.name, sorted[j].user.name);
      }
      SortedCons(p, sorted);
    } else {
      var tail := sorted[1..];
      var rest := Insert(p, tail);
      InsertSorted(p, tail);
      LexLeTotal(p.user.name, sorted[0].user.name);
      forall j | 0 <= j < |rest| ensures LexLe(sorted[0].user.name, rest[j].user.name) {
        assert rest[j] in multiset(rest);
        if rest[j] != p {
          assert rest[j] in tail;
        }
      }
      SortedCons(sorted[0], rest);
    }
  }

  lemma {:induction false} InsertDistinct(p: PersonEntry, sorted: seq<PersonEntry>)
    requires DistinctUsers(sorted)
    requires forall k :: 0 <= k < |sorted| ==> sorted[k].user != p.user
    ensures DistinctUsers(Insert(p, sorted))
  {
    if |sorted| == 0 {
    } else if LexLe(p.user.name, sorted[0].user.name) {
      DistinctCons(p, sorted);
    } else {
      var tail := sorted[1..];
      var rest := Insert(p, tail);
      InsertDistinct(p, tail);
      forall j | 0 <= j < |rest| ensures rest[j].user != sorted[0].user {
        assert rest[j] in multiset(rest);
        if rest[j] != p {
          assert rest[j] in tail;
        }
      }
      DistinctCons(sorted[0], rest);
    }
  }

  /**
   * `sort_by_key(|e| e.user.name.clone())`: the people ordered by display name. The
   * relative order of equal names is whatever the input had, and the input order comes
   * from a `HashMap`, so it is unspecified.
   */
  function SortByName(people: seq<PersonEntry>): (r: seq<PersonEntry>)
    ensures multiset(r) == multiset(people)
  {
    if |people| == 0 then []
    else
      assert people == [people[0]] + people[1..];
      Insert(people[0], SortByName(people[1..]))
  }

  /** Sorting gives a list ordered by display name that keeps users distinct when they were. */
  lemma {:induction false} SortByNameSorted(people: seq<PersonEntry>)
    ensures SortedByName(SortByName(people))
    ensures DistinctUsers(people) ==> DistinctUsers(SortByName(people))
  {
    if |people| > 0 {
      var rest := SortByName(people[1..]);
      SortByNameSorted(people[1..]);
      InsertSorted(people[0], rest);
      if DistinctUsers(people) {
        forall k | 0 <= k < |rest| ensures rest[k].user != people[0].user {
          assert rest[k] in multiset(rest);
          assert rest[k] in people[1..];
        }
        InsertDistinct(people[0], rest);
      }
    }
  }

  /**
   * `generate_time_table`: group the entries by author, list one person per author and
   * sort the list by display name.
   */
  method GenerateTimeTable(times: seq<TimeEntry>) returns (people: seq<PersonEntry>)
    requires AllLabelled(times)
    ensures SortedByName(people)
    ensures DistinctUsers(people)
    ensures UsersOf(people) == AuthorsOf(times)
    ensures forall p :: p in people ==> p.tickets == Rows(times, p.user) && p.totalTimeSpent == Total(times, p.user)
  {
    var entries := GroupByAuthor(times);
    var unsorted := PeopleOf(entries);
    people := SortByName(unsorted);
    SortByNameSorted(unsorted);
    SameMembers(unsorted, people);
  }

  /**
   * The grouping loop of `generate_time_table`: per author, a running total and the rows,
   * entry after entry in input order.
   */
  method GroupByAuthor(times: seq<TimeEntry>) returns (entries: map<Author, (int, seq<TableEntry>)>)
    requires AllLabelled(times)
    ensures entries.Keys == AuthorsOf(times)
    ensures forall a :: a in entries ==> entries[a].0 == Total(times, a) && entries[a].1 == Rows(times, a)
  {
    entries := map[];
    for i := 0 to |times|
      invariant Grouped(times, i, entries)
    {
      var time := times[i];
      var author := time.author;
      var entry := if author in entries then entries[author] else (0, []);
      var te := GenerateEntry(time);
      GroupStep(times, i, entries);
      entries := entries[author := (entry.0 + te.timeSpent, entry.1 + [te])];
    }
    assert times[..|times|] == times;
    forall a ensures (a in entries <==> a in AuthorsOf(times))
      && (a in entries ==> entries[a].0 == Total(times, a) && entries[a].1 == Rows(times, a))
    {
      assert GroupedAt(times, |times|, entries, a);
    }
  }

  /** Two lists with the same elements have the same users. */
  lemma SameMembers(xs: seq<PersonEntry>, ys: seq<PersonEntry>)
    requires multiset(xs) == multiset(ys)
    ensures forall y :: y in ys ==> y in xs
    ensures forall x :: x in xs ==> x in ys
    ensures UsersOf(xs) == UsersOf(ys)
  {
    assert forall y :: y in ys ==> y in xs by {
      forall y | y in ys ensures y in xs { assert y in multiset(ys); }
    }
    assert forall x :: x in xs ==> x in ys by {
      forall x | x in xs ensures x in ys { assert x in multiset(xs); }
    }
    forall u | u in UsersOf(xs) ensures u in UsersOf(ys) {
      UsersOfMembership(xs, u);
      UsersOfMembership(ys, u);
      var i :| 0 <= i < |xs| && xs[i].user == u;
      assert xs[i] in ys;
    }
    forall u | u in UsersOf(ys) ensures u in UsersOf(xs) {
      UsersOfMembership(xs, u);
      UsersOfMembership(ys, u);
      var i :| 0 <= i < |ys| && ys[i].user == u;
      assert ys[i] in xs;
    }
  }

  /** The `for (k, (v, vv)) in entries { people.push(...) }` loop: one person per key, in the map's order. */
  method PeopleOf(entries: map<Author, (int, seq<TableEntry>)>) returns (people: seq<PersonEntry>)
    ensures DistinctUsers(people)
    ensures UsersOf(people) == entries.Keys
    ensures forall p :: p in people ==> p.user in entries && entries[p.user] == (p.totalTimeSpent, p.tickets)
  {
    people := [];
    var rest := entries.Keys;
    while rest != {}
      invariant rest <= entries.Keys
      invariant UsersOf(people) == entries.Keys - rest
      invariant DistinctUsers(people)
      invariant forall p :: p in people ==> p.user in entries && entries[p.user] == (p.totalTimeSpent, p.tickets)
      decreases |rest|
    {
      var k :| k in rest;
      var done := people;
      people := done + [PersonEntry(k, entries[k].0, entries[k].1)];
      assert people[..|people| - 1] == done;
      forall i | 0 <= i < |done| ensures done[i].user != k {
        UsersOfMembership(done, done[i].user);
      }
      rest := rest - {k};
    }
  }

  /** How one more entry changes the totals and the rows. */
  lemma EntryStep(times: seq<TimeEntry>, i: nat)
    requires i < |times| && AllLabelled(times)
    ensures AllLabelled(times[..i]) && AllLabelled(times[..i + 1])
    ensures AuthorsOf(times[..i + 1]) == AuthorsOf(times[..i]) + {times[i].author}
  {
    assert times[..i + 1][..i] == times[..i];
  }

  /** The map after the first `n` entries: each author's total and rows so far. */
  ghost predicate Grouped(times: seq<TimeEntry>, n: nat, entries: map<Author, (int, seq<TableEntry>)>)
    requires n <= |times| && AllLabelled(times)
  {
    forall a :: GroupedAt(times, n, entries, a)
  }

  /** What the map says about author `a` after the first `n` entries. */
  ghost predicate GroupedAt(times: seq<TimeEntry>, n: nat, entries: map<Author, (int, seq<TableEntry>)>, a: Author)
    requires n <= |times| && AllLabelled(times)
  {
    EntryPrefix(times, n);
    (a in entries <==> a in AuthorsOf(times[..n]))
    && (a in entries ==> entries[a].0 == Total(times[..n], a) && entries[a].1 == Rows(times[..n], a))
    && (a !in entries ==> Total(times[..n], a) == 0 && Rows(times[..n], a) == [])
  }

  lemma EntryPrefix(times: seq<TimeEntry>, n: nat)
    requires n <= |times| && AllLabelled(times)
    ensures AllLabelled(times[..n])
  {
  }

  /** Adding entry `i` to its author's total and rows keeps the map grouped. */
  lemma GroupStep(times: seq<TimeEntry>, i: nat, entries: map<Author, (int, seq<TableEntry>)>)
    requires i < |times| && AllLabelled(times)
    requires Grouped(times, i, entries)
    ensures var author := times[i].author;
      var entry := if author in entries then entries[author] else (0, []);
      var te := GenerateEntry(times[i]);
      Grouped(times, i + 1, entries[author := (entry.0 + te.timeSpent, entry.1 + [te])])
  {
    var author := times[i].author;
    var entry := if author in entries then entries[author] else (0, []);
    var te := GenerateEntry(times[i]);
    var next := entries[author := (entry.0 + te.timeSpent, entry.1 + [te])];
    var n := i + 1;
    forall a ensures GroupedAt(times, n, next, a) {
      GroupStepAt(times, i, entries, next, a);
    }
  }

  lemma GroupStepAt(times: seq<TimeEntry>, i: nat, entries: map<Author, (int, seq<TableEntry>)>,
                    next: map<Author, (int, seq<TableEntry>)>, a: Author)
    requires i < |times| && AllLabelled(times)
    requires GroupedAt(times, i, entries, times[i].author) && GroupedAt(times, i, entries, a)
    requires var author := times[i].author;
      var entry := if author in entries then entries[author] else (0, []);
      var te := GenerateEntry(times[i]);
      next == entries[author := (entry.0 + te.timeSpent, entry.1 + [te])]
    ensures GroupedAt(times, i + 1, next, a)
  {
    EntryStep(times, i);
    EntryStepAt(times, i, a);
  }

  lemma EntryStepAt(times: seq<TimeEntry>, i: nat, a: Author)
    requires i < |times| && AllLabelled(times)
    ensures AllLabelled(times[..i]) && AllLabelled(times[..i + 1])
    ensures Total(times[..i + 1], a) == Total(times[..i], a) + (if times[i].author == a then times[i].timeSpent else 0)
    ensures Rows(times[..i + 1], a) == Rows(times[..i], a) + (if times[i].author == a then [GenerateEntry(times[i])] else [])
  {
    assert times[..i + 1][..i] == times[..i];
  }

  // ---------------------------------------------------------------- totals and rows

  /** A person's total is the sum of the minutes of their rows. */
  lemma {:induction false} RowsTotal(times: seq<TimeEntry>, a: Author)
    requires AllLabelled(times)
    ensures SumTime(Rows(times, a)) == Total(times, a)
  {
    if |times| > 0 {
      var init := times[..|times| - 1];
      RowsTotal(init, a);
      var last := times[|times| - 1];
      if last.author == a {
        var rows := Rows(times, a);
        assert rows[..|rows| - 1] == Rows(init, a);
      } else {
        assert Rows(times, a) == Rows(init, a);
      }
    }
  }

  /** Totals add up over a concatenation of entry lists. */
  lemma {:induction false} TotalAppend(xs: seq<TimeEntry>, ys: seq<TimeEntry>, a: Author)
    ensures Total(xs + ys, a) == Total(xs, a) + Total(ys, a)
  {
    if |ys| == 0 {
      assert xs + ys == xs;
    } else {
      var ys' := ys[..|ys| - 1];
      TotalAppend(xs, ys', a);
      assert (xs + ys)[..|xs + ys| - 1] == xs + ys';
    }
  }

  /** Rows over a concatenation are the rows of the first part followed by those of the second. */
  lemma {:induction false} RowsAppend(xs: seq<TimeEntry>, ys: seq<TimeEntry>, a: Author)
    requires AllLabelled(xs) && AllLabelled(ys)
    ensures AllLabelled(xs + ys)
    ensures Rows(xs + ys, a) == Rows(xs, a) + Rows(ys, a)
  {
    LabelledAppend(xs, ys);
    if |ys| == 0 {
      assert xs + ys == xs;
    } else {
      var ys' := ys[..|ys| - 1];
      var zs := xs + ys;
      RowsLast(ys, a);
      RowsLast(zs, a);
      assert zs[..|zs| - 1] == xs + ys';
      assert zs[|zs| - 1] == ys[|ys| - 1];
      RowsAppend(xs, ys', a);
    }
  }

  /** The rows of a non-empty list: those of all but its last entry, then the last one's. */
  lemma RowsLast(ts: seq<TimeEntry>, a: Author)
    requires AllLabelled(ts) && |ts| > 0
    ensures AllLabelled(ts[..|ts| - 1])
    ensures var last := ts[|ts| - 1];
      Rows(ts, a) == Rows(ts[..|ts| - 1], a) + (if last.author == a then [GenerateEntry(last)] else [])
  {
    var init := ts[..|ts| - 1];
    forall k | 0 <= k < |init| ensures HasLabelSegment(init[k].ticket.webUrl) {
      assert init[k] == ts[k];
    }
  }

  lemma LabelledAppend(xs: seq<TimeEntry>, ys: seq<TimeEntry>)
    requires AllLabelled(xs) && AllLabelled(ys)
    ensures AllLabelled(xs + ys)
  {
    forall k | 0 <= k < |xs + ys| ensures HasLabelSegment((xs + ys)[k].ticket.webUrl) {
      if k >= |xs| { assert (xs + ys)[k] == ys[k - |xs|]; }
    }
  }

  /** The number of rows in a report. */
  function RowCount(people: seq<PersonEntry>): nat {
    if |people| == 0 then 0 else RowCount(people[..|people| - 1]) + |people[|people| - 1].tickets|
  }

  /** The number of rows `times` gives each of `people`'s users, added up. */
  function RowsFor(times: seq<TimeEntry>, people: seq<PersonEntry>): nat
    requires AllLabelled(times)
  {
    if |people| == 0 then 0 else RowsFor(times, people[..|people| - 1]) + |Rows(times, people[|people| - 1].user)|
  }

  /** How many of `people` have user `a`. */
  function Hits(people: seq<PersonEntry>, a: Author): nat {
    if |people| == 0 then 0 else Hits(people[..|people| - 1], a) + (if people[|people| - 1].user == a then 1 else 0)
  }

  lemma {:induction false} HitsDistinct(people: seq<PersonEntry>, a: Author)
    requires DistinctUsers(people)
    ensures Hits(people, a) == (if a in UsersOf(people) then 1 else 0)
  {
    if |people| > 0 {
      var init := people[..|people| - 1];
      HitsDistinct(init, a);
      if people[|people| - 1].user == a {
        forall i | 0 <= i < |init| ensures init[i].user != a {
          assert init[i] == people[i];
        }
        UsersOfMembership(init, a);
      }
    }
  }

  lemma {:induction false} RowsForStep(times: seq<TimeEntry>, people: seq<PersonEntry>)
    requires |times| > 0 && AllLabelled(times)
    ensures AllLabelled(times[..|times| - 1])
    ensures RowsFor(times, people) == RowsFor(times[..|times| - 1], people) + Hits(people, times[|times| - 1].author)
  {
    if |people| > 0 {
      RowsForStep(times, people[..|people| - 1]);
    }
  }

  lemma {:induction false} RowsForAll(times: seq<TimeEntry>, people: seq<PersonEntry>)
    requires AllLabelled(times) && DistinctUsers(people) && AuthorsOf(times) <= UsersOf(people)
    ensures RowsFor(times, people) == |times|
  {
    if |times| == 0 {
      RowsForEmpty(times, people);
    } else {
      var init := times[..|times| - 1];
      RowsForStep(times, people);
      RowsForAll(init, people);
      HitsDistinct(people, times[|times| - 1].author);
    }
  }

  lemma {:induction false} RowsForEmpty(times: seq<TimeEntry>, people: seq<PersonEntry>)
    requires |times| == 0
    ensures RowsFor(times, people) == 0
  {
    if |people| > 0 {
      RowsForEmpty(times, people[..|people| - 1]);
    }
  }

  lemma {:induction false} RowCountIsRowsFor(times: seq<TimeEntry>, people: seq<PersonEntry>)
    requires AllLabelled(times)
    requires forall p :: p in people ==> p.tickets == Rows(times, p.user)
    ensures RowCount(people) == RowsFor(times, people)
  {
    if |people| > 0 {
      RowCountIsRowsFor(times, people[..|people| - 1]);
      assert people[|people| - 1] in people;
    }
  }

  /**
   * Every entry becomes exactly one row: a report with one person per author, each holding
   * that author's rows, has as many rows as there were entries.
   */
  lemma EveryEntryOneRow(times: seq<TimeEntry>, people: seq<PersonEntry>)
    requires AllLabelled(times)
    requires DistinctUsers(people) && UsersOf(people) == AuthorsOf(times)
    requires forall p :: p in people ==> p.tickets == Rows(times, p.user)
    ensures RowCount(people) == |times|
  {
    RowCountIsRowsFor(times, people);
    RowsForAll(times, people);
  }

  // ---------------------------------------------------------------- percentage

  function Abs(x: int): nat {
    if x < 0 then -x else x
  }

  /** Rust's `/` on signed integers: the quotient rounded toward zero. */
  function TruncDiv(a: int, b: int): int
    requires b != 0
  {
    if a >= 0 && b > 0 then a / b
    else if a < 0 && b > 0 then -((-a) / b)
    else if a >= 0 then -(a / -b)
    else (-a) / (-b)
  }

  /**
   * The quotient rounded toward zero: its magnitude is the floor of `|a| / |b|` and its
   * sign is the product of the operands' signs.
   */
  lemma TruncDivTowardZero(a: int, b: int)
    requires b != 0
    ensures Abs(TruncDiv(a, b)) == Abs(a) / Abs(b)
    ensures (a >= 0 && b > 0) || (a <= 0 && b < 0) ==> TruncDiv(a, b) >= 0
    ensures (a >= 0 && b < 0) || (a <= 0 && b > 0) ==> TruncDiv(a, b) <= 0
  {
    NatDivNonNegative(Abs(a), Abs(b));
  }

  lemma NatDivNonNegative(x: nat, y: nat)
    requires y > 0
    ensures x / y >= 0
  {
  }

  /** Rounding toward zero treats a negated dividend symmetrically, unlike Euclidean division. */
  lemma TruncDivOdd(a: int, b: int)
    requires b != 0
    ensures TruncDiv(-a, b) == -TruncDiv(a, b)
  {
  }

  /**
   * The percentage a row shows: `time_spent * 100 / total_time_spent`, truncated, and at
   * least 1. A person's total of 0 makes the division panic, so it is excluded.
   */
  function Percentage(timeSpent: int, total: int): (p: int)
    requires total != 0
    ensures p >= 1
  {
    var q := TruncDiv(timeSpent * 100, total);
    if q > 1 then q else 1
  }

  /** With a positive total and a row between 0 and the total, the percentage is at most 100. */
  lemma PercentageAtMost100(timeSpent: int, total: int)
    requires 0 <= timeSpent <= total && total > 0
    ensures Percentage(timeSpent, total) <= 100
  {
    assert timeSpent * 100 <= total * 100;
    DivMonotone(timeSpent * 100, total * 100, total);
    assert (total * 100) / total == 100;
  }

  lemma DivMonotone(x: nat, y: nat, d: nat)
    requires x <= y && d > 0
    ensures x / d <= y / d
  {
    var qx, qy := x / d, y / d;
    assert d * qx + x % d == x;
    assert d * qy + y % d == y;
    if qx > qy {
      MulMonotone(d, qy + 1, qx);
      assert false;
    }
  }

  lemma MulMonotone(d: nat, a: nat, b: nat)
    requires a <= b
    ensures d * a <= d * b
  {
  }

  /** For a non-negative row and positive total, the percentage is the floor of the share, raised to 1. */
  lemma PercentageFloor(timeSpent: int, total: int)
    requires timeSpent >= 0 && total > 0
    ensures Percentage(timeSpent, total) == if timeSpent * 100 / total >= 1 then timeSpent * 100 / total else 1
  {
  }

  lemma PercentageExamples()
    ensures Percentage(120, 180) == 66 && Percentage(60, 180) == 33
    ensures Percentage(60, 100) == 60 && Percentage(40, 100) == 40
    ensures Percentage(1, 1000) == 1
    ensures Percentage(-60, 120) == 1
  {
  }

  /**
   * The percentage with the zero total guarded: when a person's rows net to zero every row
   * shows the floor value 1 instead of dividing by zero; otherwise it is `Percentage`.
   */
  function GuardedPercentage(timeSpent: int, total: int): (p: int)
    ensures p >= 1
    ensures total != 0 ==> p == Percentage(timeSpent, total)
  {
    if total == 0 then 1 else Percentage(timeSpent, total)
  }

  /** For a row between 0 and the total, the guarded percentage is between 1 and 100. */
  lemma GuardedPercentageBounds(timeSpent: int, total: int)
    requires 0 <= timeSpent <= total
    ensures 1 <= GuardedPercentage(timeSpent, total) <= 100
  {
    if total != 0 {
      PercentageAtMost100(timeSpent, total);
    }
  }

  /** The percentages of a person's rows, in row order. */
  function Percentages(person: PersonEntry): (r: seq<int>)
    ensures |r| == |person.tickets|
    ensures forall i :: 0 <= i < |r| ==> r[i] >= 1
    ensures person.totalTimeSpent != 0 ==>
      forall i :: 0 <= i < |r| ==> r[i] == Percentage(person.tickets[i].timeSpent, person.totalTimeSpent)
  {
    seq(|person.tickets|, i requires 0 <= i < |person.tickets| => GuardedPercentage(person.tickets[i].timeSpent, person.totalTimeSpent))
  }

  /**
   * A person's total can be 0 while they have rows: an added and an equal deleted entry on
   * two tickets. The percentage of such a person's rows divides by zero.
   */
  lemma ZeroTotalWithRows(e1: TimeEntry, e2: TimeEntry)
    requires e1.author == e2.author && e1.timeSpent == -e2.timeSpent
    requires HasLabelSegment(e1.ticket.webUrl) && HasLabelSegment(e2.ticket.webUrl)
    ensures AllLabelled([e1, e2])
    ensures Total([e1, e2], e1.author) == 0 && |Rows([e1, e2], e1.author)| == 2
  {
    var ts := [e1, e2];
    assert ts[..1] == [e1];
    assert ts[..1][..0] == [];
    assert AllLabelled(ts[..1]) && AllLabelled(ts[..1][..0]);
    assert Total(ts[..1], e1.author) == e1.timeSpent;
    assert |Rows(ts[..1], e1.author)| == 1;
  }
}
