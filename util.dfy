/**
 * Reading GitLab's time-tracking notes ("added 1h 30m of time spent at ...") and
 * netting them per author for one issue.
 */
module Util {
  import opened Wrappers
  import opened Text
  import opened Data

  // ---------------------------------------------------------------- duration tokens

  /**
   * A token `match_time_str` reads without panicking: it has a last character, that
   * character is one byte long (so slicing it off stays on a character boundary), and
   * the text before it parses as a signed integer.
   */
  predicate WellFormedToken(t: string) {
    |t| > 0 && t[|t| - 1] as int < 128 && ParseInt(t[..|t| - 1]).Some?
  }

  /** The minutes one token stands for: minutes, hours of 60 and days of 480; any other unit counts 0. */
  function TokenMinutes(t: string): (r: int)
    requires WellFormedToken(t)
    ensures r == ParseInt(t[..|t| - 1]).value * UnitMinutes(t[|t| - 1])
  {
    var val := ParseInt(t[..|t| - 1]).value;
    match t[|t| - 1]
    case 'm' => val
    case 'h' => val * 60
    case 'd' => val * 480
    case _ => 0
  }

  /** The minutes one unit stands for. */
  function UnitMinutes(unit: char): int {
    if unit == 'm' then 1 else if unit == 'h' then 60 else if unit == 'd' then 8 * 60 else 0
  }

  /** A count written in decimal followed by a unit stands for the count times the unit, negated after a `-`. */
  lemma TokenRoundTrip(n: nat, unit: char)
    requires unit as int < 128
    ensures WellFormedToken(NatToString(n) + [unit])
    ensures TokenMinutes(NatToString(n) + [unit]) == n * UnitMinutes(unit)
    ensures WellFormedToken("-" + NatToString(n) + [unit])
    ensures TokenMinutes("-" + NatToString(n) + [unit]) == -(n * UnitMinutes(unit))
  {
    var d := NatToString(n);
    NatToStringRoundTrip(n);
    SignedRoundTrip(n);
    assert (d + [unit])[..|d + [unit]| - 1] == d;
    assert ("-" + d + [unit])[..|"-" + d + [unit]| - 1] == "-" + d;
  }

  /**
   * The minutes a list of tokens stands for, accumulated left to right. Tokens that all
   * stand for a non-negative time sum to a non-negative time.
   */
  function TimeSum(times: seq<string>): (r: int)
    requires forall k :: 0 <= k < |times| ==> WellFormedToken(times[k])
    ensures (forall k :: 0 <= k < |times| ==> TokenMinutes(times[k]) >= 0) ==> r >= 0
  {
    if |times| == 0 then 0 else TimeSum(times[..|times| - 1]) + TokenMinutes(times[|times| - 1])
  }

  /** The same sum taken from the front: the first token's minutes plus those of the rest. */
  lemma {:induction false} TimeSumFront(times: seq<string>)
    requires |times| > 0
    requires forall k :: 0 <= k < |times| ==> WellFormedToken(times[k])
    ensures TimeSum(times) == TokenMinutes(times[0]) + TimeSum(times[1..])
  {
    if |times| > 1 {
      var init := times[..|times| - 1];
      TimeSumFront(init);
      assert times[1..][..|times| - 2] == init[1..];
    }
  }

  /** `match_time_str`: add up the minutes of every token. */
  method MatchTimeStr(times: seq<string>) returns (s: int)
    requires forall k :: 0 <= k < |times| ==> WellFormedToken(times[k])
    ensures s == TimeSum(times)
  {
    s := 0;
    for i := 0 to |times|
      invariant s == TimeSum(times[..i])
    {
      var time := times[i];
      var unit := time[|time| - 1];
      var val := ParseInt(time[..|time| - 1]).value;
      s := s + match unit {
        case 'm' => val
        case 'h' => val * 60
        case 'd' => val * 480
        case _ => 0
      };
      assert times[..i + 1][..i] == times[..i];
    }
    assert times[..|times|] == times;
  }

  lemma TokenExamples()
    ensures TokenMinutes("30m") == 30
    ensures TokenMinutes("2h") == 120
    ensures TokenMinutes("1d") == 480
    ensures TokenMinutes("-15m") == -15
  {
    assert "30m"[..2] == "30";
    assert "2h"[..1] == "2";
    assert "1d"[..1] == "1";
    assert "-15m"[..3] == "-15";
    assert DigitsValue("15") == 15 by { assert "15"[..1] == "1"; }
    assert DigitsValue("30") == 30 by { assert "30"[..1] == "3"; }
  }

  /** A token whose unit is not `m`, `h` or `d` contributes nothing. */
  lemma UnknownUnitIsZero(t: string)
    requires WellFormedToken(t) && t[|t| - 1] !in {'m', 'h', 'd'}
    ensures TokenMinutes(t) == 0
  {
  }

  /** The total of a concatenation is the sum of the totals of its parts. */
  lemma {:induction false} TimeSumAppend(a: seq<string>, b: seq<string>)
    requires forall k :: 0 <= k < |a| ==> WellFormedToken(a[k])
    requires forall k :: 0 <= k < |b| ==> WellFormedToken(b[k])
    ensures TimeSum(a + b) == TimeSum(a) + TimeSum(b)
  {
    if |b| == 0 {
      assert a + b == a;
    } else {
      var b' := b[..|b| - 1];
      TimeSumAppend(a, b');
      assert (a + b)[..|a + b| - 1] == a + b';
    }
  }

  lemma TimeSumEmpty()
    ensures TimeSum([]) == 0
  {
  }

  // ---------------------------------------------------------------- notes

  const Separator := " of"

  /** The words of the note before its first " of", split at single spaces. */
  function NoteWords(body: string): Option<seq<string>>
  {
    match SplitOnce(body, Separator)
    case None => None
    case Some((timeSubstr, _)) => Some(Split(timeSubstr, ' '))
  }

  /** A note `process_note` reads without panicking: every word after the first is a well-formed token. */
  predicate NoteParsable(body: string) {
    match NoteWords(body)
    case None => true
    case Some(words) => forall k :: 1 <= k < |words| ==> WellFormedToken(words[k])
  }

  /** The sign the leading word gives: `added` adds, `deleted` subtracts, anything else adds. */
  function Prefix(word: string): (sign: int)
    ensures sign == -1 <==> word == "deleted"
    ensures sign == 1 <==> word != "deleted"
  {
    match word
    case "added" => 1
    case "deleted" => -1
    case _ => 1
  }

  /**
   * `process_note`: `None` for a note without " of"; otherwise the note's author with the
   * signed minutes of the words before the first " of".
   */
  function ProcessNote(note: Note): (r: Option<(Author, int)>)
    requires NoteParsable(note.body)
    ensures r.None? <==> !Contains(note.body, Separator)
    ensures r.Some? ==> r.value.0 == note.author
  {
    match SplitOnce(note.body, Separator)
    case None => None
    case Some((timeSubstr, _)) =>
      var time := Split(timeSubstr, ' ');
      var prefix := Prefix(time[0]);
      Some((note.author, TimeSum(time[1..]) * prefix))
  }

  /** A body laid out as `pre` " of" `rest` with no " of" inside `pre`: the first " of" is right after `pre`. */
  lemma FirstSeparator(pre: string, rest: string)
    requires !Contains(pre, Separator)
    ensures FindFirst(pre + Separator + rest, Separator) == Some(|pre|)
  {
    var s := pre + Separator + rest;
    assert s[|pre|..|pre| + 3] == Separator;
    assert OccursAt(s, Separator, |pre|);
    ContainsMeansOccurs(pre, Separator);
    forall j | 0 <= j < |pre| ensures !OccursAt(s, Separator, j) {
      if j + 3 <= |pre| {
        assert s[j..j + 3] == pre[j..j + 3];
        assert !OccursAt(pre, Separator, j);
      } else {
        var d := |pre| - j;
        assert s[j..j + 3][d] == s[|pre|] == ' ';
        assert Separator[d] != ' ';
      }
    }
  }

  /** Only the text before the first " of" matters: whatever follows it is ignored. */
  lemma {:induction false} OnlyPrefixParsed(pre: string, rest1: string, rest2: string, author: Author)
    requires !Contains(pre, Separator)
    requires NoteParsable(pre + Separator + rest1)
    ensures NoteParsable(pre + Separator + rest2)
    ensures ProcessNote(Note(pre + Separator + rest1, author)) == ProcessNote(Note(pre + Separator + rest2, author))
  {
    FirstSeparator(pre, rest1);
    FirstSeparator(pre, rest2);
    assert (pre + Separator + rest1)[..|pre|] == pre;
    assert (pre + Separator + rest2)[..|pre|] == pre;
  }

  /**
   * The sign rule: a note whose text before " of" is the words `words` is worth the sign of
   * its first word times the minutes of the remaining words.
   */
  lemma ProcessNoteOfWords(words: seq<string>, rest: string, a: Author)
    requires |words| >= 1
    requires forall k :: 0 <= k < |words| ==> ' ' !in words[k]
    requires forall k :: 1 <= k < |words| ==> WellFormedToken(words[k])
    requires !Contains(Join(words, ' '), Separator)
    ensures NoteParsable(Join(words, ' ') + Separator + rest)
    ensures ProcessNote(Note(Join(words, ' ') + Separator + rest, a))
         == Some((a, TimeSum(words[1..]) * Prefix(words[0])))
  {
    var pre := Join(words, ' ');
    var body := pre + Separator + rest;
    SplitOnceAt(pre, rest);
    SplitJoin(words, ' ');
    assert NoteWords(body) == Some(words);
    ProcessNoteAt(Note(body, a), pre, rest);
  }

  /** `process_note` on a body whose first " of" follows `pre`, spelled out. */
  lemma ProcessNoteAt(note: Note, pre: string, rest: string)
    requires SplitOnce(note.body, Separator) == Some((pre, rest))
    requires forall k :: 1 <= k < |Split(pre, ' ')| ==> WellFormedToken(Split(pre, ' ')[k])
    ensures NoteParsable(note.body)
    ensures ProcessNote(note) == Some((note.author, TimeSum(Split(pre, ' ')[1..]) * Prefix(Split(pre, ' ')[0])))
  {
  }

  /** Splitting `pre` " of" `rest` at its first " of", for `pre` without " of", gives `pre` and `rest`. */
  lemma SplitOnceAt(pre: string, rest: string)
    requires !Contains(pre, Separator)
    ensures SplitOnce(pre + Separator + rest, Separator) == Some((pre, rest))
  {
    var s := pre + Separator + rest;
    FirstSeparator(pre, rest);
    assert s[..|pre|] == pre;
    assert s[|pre| + 3..] == rest;
  }

  /** A text in which no space is followed by `o` holds no " of". */
  lemma NoSeparatorIn(s: string)
    requires forall j :: 0 <= j < |s| - 1 ==> s[j] != ' ' || s[j + 1] != 'o'
    ensures !Contains(s, Separator)
  {
    ContainsMeansOccurs(s, Separator);
    forall j | 0 <= j ensures !OccursAt(s, Separator, j) {
      if j + 3 <= |s| {
        assert s[j..j + 3][0] == s[j] && s[j..j + 3][1] == s[j + 1];
      }
    }
  }

  lemma NoteExampleAdded(body: string, a: Author)
    requires body == "added 1h of time spent"
    ensures NoteParsable(body) && ProcessNote(Note(body, a)) == Some((a, 60))
  {
    assert TokenMinutes("1h") == 60 by { assert "1h"[..1] == "1" && "1"[..0] == ""; }
    assert body == "added 1h" + Separator + " time spent";
    ExampleNote(["added", "1h"], "added 1h", " time spent", a);
  }

  lemma HourAndHalf()
    ensures WellFormedToken("1h") && WellFormedToken("30m")
    ensures TimeSum(["1h", "30m"]) == 90
  {
    assert TokenMinutes("1h") == 60 by { assert "1h"[..1] == "1" && "1"[..0] == ""; }
    assert TokenMinutes("30m") == 30 by { TokenExamples(); }
    assert ["1h", "30m"][..1] == ["1h"];
    assert ["1h"][..0] == [];
  }

  lemma NoteExampleAddedHourAndHalf(body: string, a: Author)
    requires body == "added 1h 30m of time spent"
    ensures NoteParsable(body) && ProcessNote(Note(body, a)) == Some((a, 90))
  {
    HourAndHalf();
    assert ["added", "1h", "30m"][1..] == ["1h", "30m"];
    assert body == "added 1h 30m" + Separator + " time spent";
    ExampleNote(["added", "1h", "30m"], "added 1h 30m", " time spent", a);
  }

  lemma NoteExampleDeletedHourAndHalf(body: string, a: Author)
    requires body == "deleted 1h 30m of time spent"
    ensures NoteParsable(body) && ProcessNote(Note(body, a)) == Some((a, -90))
  {
    HourAndHalf();
    assert ["deleted", "1h", "30m"][1..] == ["1h", "30m"];
    assert body == "deleted 1h 30m" + Separator + " time spent";
    ExampleNote(["deleted", "1h", "30m"], "deleted 1h 30m", " time spent", a);
  }

  /** A leading word other than `added` or `deleted` counts as adding. */
  lemma NoteExampleUnknownPrefix(body: string, a: Author)
    requires body == "subtracted 2h of time spent"
    ensures NoteParsable(body) && ProcessNote(Note(body, a)) == Some((a, 120))
  {
    assert TokenMinutes("2h") == 120 by { assert "2h"[..1] == "2" && "2"[..0] == ""; }
    assert Prefix("subtracted") == 1;
    assert body == "subtracted 2h" + Separator + " time spent";
    ExampleNote(["subtracted", "2h"], "subtracted 2h", " time spent", a);
  }

  lemma NoteExampleNoSeparator(body: string, a: Author)
    requires body == "deleted time spent"
    ensures NoteParsable(body) && ProcessNote(Note(body, a)) == None
  {
    NoSeparatorIn(body);
  }

  lemma ExampleNote(words: seq<string>, pre: string, rest: string, a: Author)
    requires |words| >= 1 && Join(words, ' ') == pre
    requires forall k :: 0 <= k < |words| ==> ' ' !in words[k]
    requires forall k :: 1 <= k < |words| ==> WellFormedToken(words[k])
    requires forall j :: 0 <= j < |pre| - 1 ==> pre[j] != ' ' || pre[j + 1] != 'o'
    ensures NoteParsable(pre + Separator + rest)
    ensures ProcessNote(Note(pre + Separator + rest, a)) == Some((a, TimeSum(words[1..]) * Prefix(words[0])))
  {
    NoSeparatorIn(pre);
    ProcessNoteOfWords(words, rest, a);
  }

  // ---------------------------------------------------------------- issues

  /** Every note of the list is one `process_note` reads without panicking. */
  predicate AllParsable(notes: seq<Note>) {
    forall k :: 0 <= k < |notes| ==> NoteParsable(notes[k].body)
  }

  /** The signed minutes a note records; a note `process_note` skips records none. */
  function NoteMinutes(note: Note): int
    requires NoteParsable(note.body)
  {
    match ProcessNote(note)
    case None => 0
    case Some((_, v)) => v
  }

  /** The authors of the notes `process_note` does not skip. */
  function TimeAuthors(notes: seq<Note>): set<Author>
  {
    if |notes| == 0 then {}
    else
      var last := notes[|notes| - 1];
      TimeAuthors(notes[..|notes| - 1]) + (if Contains(last.body, Separator) then {last.author} else {})
  }

  /** The net minutes author `a` logged in the notes: the sum of the values of `a`'s notes. */
  function AuthorNet(notes: seq<Note>, a: Author): int
    requires AllParsable(notes)
  {
    if |notes| == 0 then 0
    else
      var last := notes[|notes| - 1];
      AuthorNet(notes[..|notes| - 1], a) + (if last.author == a then NoteMinutes(last) else 0)
  }

  /**
   * `process_issue`: one entry per author with at least one note that has " of", carrying
   * the issue and that author's net minutes. Authors whose notes cancel out still get an
   * entry (with 0). The order of the entries is unspecified, as a `HashMap`'s iteration order.
   */
  method ProcessIssue(notes: seq<Note>, ticket: Issue) returns (entries: seq<TimeEntry>)
    requires AllParsable(notes)
    ensures forall i :: 0 <= i < |entries| ==>
      entries[i].ticket == ticket && entries[i].timeSpent == AuthorNet(notes, entries[i].author)
    ensures forall i, j :: 0 <= i < j < |entries| ==> entries[i].author != entries[j].author
    ensures AuthorsOf(entries) == TimeAuthors(notes)
  {
    var table: map<Author, int> := map[];
    for i := 0 to |notes|
      invariant table.Keys == TimeAuthors(notes[..i])
      invariant forall a :: a in table ==> table[a] == AuthorNet(notes[..i], a)
      invariant forall a :: a !in table ==> AuthorNet(notes[..i], a) == 0
    {
      NoteStep(notes, i);
      var r := ProcessNote(notes[i]);
      if r.Some? {
        var (author, time) := r.value;
        table := table[author := (if author in table then table[author] else 0) + time];
      }
      forall a ensures (a in table ==> table[a] == AuthorNet(notes[..i + 1], a))
                    && (a !in table ==> AuthorNet(notes[..i + 1], a) == 0)
      {
        NoteStepAt(notes, i, a);
      }
    }
    assert notes[..|notes|] == notes;
    entries := TableEntries(table, ticket);
  }

  /**
   * `table.into_iter().map(...).collect()`: one entry per key of the table, in the
   * table's (unspecified) iteration order.
   */
  method TableEntries(table: map<Author, int>, ticket: Issue) returns (entries: seq<TimeEntry>)
    ensures forall i :: 0 <= i < |entries| ==>
      entries[i].ticket == ticket && entries[i].author in table && entries[i].timeSpent == table[entries[i].author]
    ensures forall i, j :: 0 <= i < j < |entries| ==> entries[i].author != entries[j].author
    ensures AuthorsOf(entries) == table.Keys
  {
    entries := [];
    var rest := table.Keys;
    while rest != {}
      invariant rest <= table.Keys
      invariant AuthorsOf(entries) == table.Keys - rest
      invariant forall i :: 0 <= i < |entries| ==>
        entries[i].ticket == ticket && entries[i].author in table && entries[i].timeSpent == table[entries[i].author]
      invariant forall i, j :: 0 <= i < j < |entries| ==> entries[i].author != entries[j].author
      decreases |rest|
    {
      var author :| author in rest;
      DrainStep(entries, author, ticket, table);
      entries := entries + [TimeEntry(author, ticket, table[author])];
      rest := rest - {author};
    }
  }

  /** Taking one more key out of the table keeps the drained entries one per key, with its value. */
  lemma DrainStep(done: seq<TimeEntry>, author: Author, ticket: Issue, table: map<Author, int>)
    requires author in table && author !in AuthorsOf(done)
    requires forall i :: 0 <= i < |done| ==>
      done[i].ticket == ticket && done[i].author in table && done[i].timeSpent == table[done[i].author]
    requires forall i, j :: 0 <= i < j < |done| ==> done[i].author != done[j].author
    ensures var entries := done + [TimeEntry(author, ticket, table[author])];
      AuthorsOf(entries) == AuthorsOf(done) + {author}
      && (forall i :: 0 <= i < |entries| ==>
        entries[i].ticket == ticket && entries[i].author in table && entries[i].timeSpent == table[entries[i].author])
      && (forall i, j :: 0 <= i < j < |entries| ==> entries[i].author != entries[j].author)
  {
    var entries := done + [TimeEntry(author, ticket, table[author])];
    assert entries[..|entries| - 1] == done;
    AuthorsOfMembershipAll(done);
  }

  /** How one more note changes the authors and the nets. */
  lemma NoteStep(notes: seq<Note>, i: nat)
    requires i < |notes| && AllParsable(notes)
    ensures AllParsable(notes[..i]) && AllParsable(notes[..i + 1])
    ensures TimeAuthors(notes[..i + 1])
         == TimeAuthors(notes[..i]) + (if Contains(notes[i].body, Separator) then {notes[i].author} else {})
    ensures Contains(notes[i].body, Separator) ==> NoteMinutes(notes[i]) == ProcessNote(notes[i]).value.1
    ensures !Contains(notes[i].body, Separator) ==> NoteMinutes(notes[i]) == 0
  {
    assert notes[..i + 1][..i] == notes[..i];
  }

  /** How one more note changes the net of author `a`. */
  lemma NoteStepAt(notes: seq<Note>, i: nat, a: Author)
    requires i < |notes| && AllParsable(notes)
    ensures AllParsable(notes[..i]) && AllParsable(notes[..i + 1])
    ensures AuthorNet(notes[..i + 1], a)
         == AuthorNet(notes[..i], a) + (if notes[i].author == a then NoteMinutes(notes[i]) else 0)
  {
    assert notes[..i + 1][..i] == notes[..i];
  }

  /** An author is among `TimeAuthors` exactly when one of their notes holds " of". */
  lemma {:induction false} TimeAuthorsMembership(notes: seq<Note>, a: Author)
    ensures a in TimeAuthors(notes) <==>
      exists k :: 0 <= k < |notes| && notes[k].author == a && Contains(notes[k].body, Separator)
  {
    if |notes| > 0 {
      var init := notes[..|notes| - 1];
      TimeAuthorsMembership(init, a);
      if exists k :: 0 <= k < |init| && init[k].author == a && Contains(init[k].body, Separator) {
        var k :| 0 <= k < |init| && init[k].author == a && Contains(init[k].body, Separator);
        assert notes[k] == init[k];
      }
    }
  }

  /** An author with no note that `process_note` reads has a net of zero. */
  lemma {:induction false} AuthorNetOutside(notes: seq<Note>, a: Author)
    requires AllParsable(notes) && a !in TimeAuthors(notes)
    ensures AuthorNet(notes, a) == 0
  {
    if |notes| > 0 {
      AuthorNetOutside(notes[..|notes| - 1], a);
    }
  }

  /** Netting is additive over the notes, so it does not depend on how they are split. */
  lemma {:induction false} AuthorNetAppend(xs: seq<Note>, ys: seq<Note>, a: Author)
    requires AllParsable(xs) && AllParsable(ys)
    ensures AllParsable(xs + ys)
    ensures AuthorNet(xs + ys, a) == AuthorNet(xs, a) + AuthorNet(ys, a)
  {
    assert AllParsable(xs + ys) by {
      forall k | 0 <= k < |xs + ys| ensures NoteParsable((xs + ys)[k].body) {
        if k >= |xs| { assert (xs + ys)[k] == ys[k - |xs|]; }
      }
    }
    if |ys| > 0 {
      var ys' := ys[..|ys| - 1];
      AuthorNetAppend(xs, ys', a);
      assert (xs + ys)[..|xs + ys| - 1] == xs + ys';
    } else {
      assert xs + ys == xs;
    }
  }

  /**
   * Two notes by one author that cancel out (as "added 1h 30m of time spent" and
   * "deleted 1h 30m of time spent" do) leave the author with a net of zero, and the
   * author is still among those `process_issue` emits an entry for.
   */
  lemma ZeroNetAuthorKept(n1: Note, n2: Note, a: Author, v: int)
    requires NoteParsable(n1.body) && NoteParsable(n2.body)
    requires ProcessNote(n1) == Some((a, v)) && ProcessNote(n2) == Some((a, -v))
    ensures AllParsable([n1, n2])
    ensures a in TimeAuthors([n1, n2])
    ensures AuthorNet([n1, n2], a) == 0
  {
    var notes := [n1, n2];
    assert NoteMinutes(n1) == v && NoteMinutes(n2) == -v;
    assert notes[..0] == [];
    NoteStep(notes, 0);
    NoteStep(notes, 1);
    assert notes[..2] == notes;
    assert AuthorNet(notes[..0], a) == 0;
    assert AuthorNet(notes[..1], a) == v;
    assert AuthorNet(notes[..2], a) == 0;
  }
}
