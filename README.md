# gitlab-timetable, modelled in Dafny

gitlab-timetable reads the time-tracking notes of a GitLab project or group and writes a
per-person report. It takes four steps:

1. Fetch every issue of the project or group, page by page.
2. Fetch each issue's notes and keep the ones that log time ("added 1h 30m of time spent").
3. Net the logged minutes per author and issue.
4. Group the resulting time entries per person, sorted by display name. Each person gets a
   total and one row per issue, with a percentage.

This project models that core and proves properties about it. The modules are:

| file | module | source |
|---|---|---|
| `wrappers.dfy` | `Wrappers` | `Option` and `Result` |
| `text.dfy` | `Text` | the Rust string operations the core relies on (`split_once`, `split`, `contains`, integer parse and format, `String` order) |
| `data.dfy` | `Data` | `src/data.rs` |
| `util.dfy` | `Util` | `match_time_str`, `process_note`, `process_issue` in `src/util.rs` |
| `formatting.dfy` | `Formatting` | `generate_entry`, `generate_time_table` and the row percentage in `src/formatting.rs` |
| `gitlab_api.dfy` | `GitlabApi` | `request_multiple`, `get_issues`, `get_notes_for_issue` in `src/gitlab_api.rs` |
| `percent_encoding.dfy` | `PercentEncoding` | `utf8_percent_encode(_, NON_ALPHANUMERIC)` as `src/config.rs` uses it |
| `config.dfy` | `Configuration` | `Config::get` after the URL captures, and `Config::parameters` |
| `pipeline.dfy` | `Pipeline` | `generate_table` in `src/main.rs`, up to the report text |

Modelling choices:
- **HTTP.** The network is a server oracle, a function from a request to its response. A
  response has a success flag, the decoded items and the raw `X-Next-Page` header.
- **Probes.** The two `Config::get` probe requests are functions from a URL to the id
  found, or nothing.
- **Pagination.** `request_multiple` is a `while` loop. It is proved equal to the
  specification function `GitlabApi.Fetch`, which is bounded by a fuel count.
- **Maps.** The `HashMap`s of `process_issue` and `generate_time_table` are `map`s in loops.
  Their unspecified iteration order is a nondeterministic choice (`:|`), so the contracts
  do not depend on that order.
- **Panics.** A panic the source can hit becomes a precondition:
  - an `unwrap` on a duration token;
  - `parts[len - 4]` on a short link;
  - a failed HTTP status is the exception: it becomes an error result.

  `Pipeline.GenerateTable` requires these only where the source reaches them: only when
  the issue fetch and every note fetch succeed, only of the time notes those fetches
  keep, and only of the links of issues someone logged time on (only those give time
  entries, so only those links reach `generate_entry`).
- **Following the code where a prose description differs:**
  - Percentages truncate toward zero; they are not rounded.
  - Authors whose notes net to zero still get a time entry.
  - `Author` equality is over id, username and name.
  - The notes path is `/projects/<pid>/issues/<iid>/notes`, leading slash included, so the
    request URL has `v4//projects`.

## Model

| member | source | states |
|---|---|---|
| Util.MatchTimeStr | src/util.rs:32-45 | the accumulator loop returns the sum of the minutes of all tokens (`TimeSum`) |
| Util.TokenMinutes | src/util.rs:35-42 | a token is its number times the minutes of its unit: 1 for `m`, 60 for `h`, 480 for `d`, 0 for any other |
| Util.TokenRoundTrip | src/util.rs:35-42 | the digits of `n` followed by a unit give `n` times that unit's minutes, and with a leading `-` its negation |
| Util.TimeSum | src/util.rs:33-44 | tokens that are each non-negative sum to a non-negative total |
| Util.TimeSumFront | src/util.rs:34-43 | the total is the first token's minutes plus the total of the rest, as the loop adds them front to back |
| Util.TokenExamples | src/util.rs:37-40 | `30m` is 30, `2h` is 120, `1d` is 480 and `-15m` is -15 minutes |
| Util.UnknownUnitIsZero | src/util.rs:41 | a token whose last character is not `m`, `h` or `d` counts 0 |
| Util.TimeSumAppend | src/util.rs:33-44 | the minutes of a concatenation of token lists are the sum of the parts |
| Util.TimeSumEmpty | src/util.rs:33 | no tokens make 0 minutes |
| Util.Prefix | src/util.rs:50-57 | the sign is -1 exactly for `deleted` and +1 for every other first word, `added` included |
| Util.ProcessNote | src/util.rs:47-60 | the note is skipped exactly when its body has no `" of"`; otherwise the pair carries the note's own author |
| Util.FirstSeparator | src/util.rs:48 | the first `" of"` of `pre + " of" + rest` is at the end of `pre` when `pre` has none |
| Util.SplitOnceAt | src/util.rs:48 | `split_once(" of")` of such a body gives `pre` and `rest` |
| Util.OnlyPrefixParsed | src/util.rs:48 | what follows the first `" of"` has no effect on the result |
| Util.ProcessNoteOfWords | src/util.rs:48-59 | a note whose text before `" of"` is the words `w0 w1 …` gives the author and `TimeSum(w1 …) * Prefix(w0)` |
| Util.ProcessNoteAt | src/util.rs:48-59 | a body splitting at its first `" of"` into `pre` and `rest` gives the author and the words of `pre` summed and signed by the first word |
| Util.ExampleNote | src/util.rs:48-59 | the same sign rule, for a body given by its text before `" of"` |
| Util.NoSeparatorIn | src/util.rs:48 | a text in which no space is followed by `o` does not contain `" of"` |
| Util.NoteExampleAdded | src/util.rs:47-60 | `added 1h of time spent` gives 60 minutes for the note's author |
| Util.HourAndHalf | src/util.rs:32-45 | the tokens `1h 30m` make 90 minutes |
| Util.NoteExampleAddedHourAndHalf | src/util.rs:47-60 | `added 1h 30m of time spent` gives 90 |
| Util.NoteExampleDeletedHourAndHalf | src/util.rs:47-60 | `deleted 1h 30m of time spent` gives -90 |
| Util.NoteExampleUnknownPrefix | src/util.rs:53-56 | an unknown first word, as in `subtracted 2h of time spent`, counts +1: 120 |
| Util.NoteExampleNoSeparator | src/util.rs:48 | `deleted time spent` has no `" of"` and is skipped |
| Util.ProcessIssue | src/util.rs:62-77 | exactly one entry per author with a note that has `" of"`; the authors are distinct; each entry carries the issue and the author's net minutes (`AuthorNet`) |
| Util.TableEntries | src/util.rs:69-76 | draining the table gives one entry per key with its value and the issue, in any order |
| Util.NoteStep | src/util.rs:64-68 | one more note adds its author to those with a net exactly when it has `" of"`, and its minutes are the parsed value, or 0 without `" of"` |
| Util.NoteStepAt | src/util.rs:64-68 | one more note adds its minutes to its own author's net and leaves every other author's unchanged |
| Util.DrainStep | src/util.rs:69-76 | draining one more key adds that author once, with the issue and the key's value, and keeps the authors distinct |
| Util.TimeAuthorsMembership | src/util.rs:64-68 | an author has a net exactly when one of their notes has `" of"` |
| Util.AuthorNetOutside | src/util.rs:64-68 | an author without such a note nets 0 |
| Util.AuthorNetAppend | src/util.rs:64-68 | netting is additive over the notes, so it does not depend on how they are split |
| Util.ZeroNetAuthorKept | src/util.rs:66-76 | an author whose notes cancel out still has a net (of 0) and so still gets an entry |
| Data.AuthorsOfMembership | src/data.rs:10-15 | an author is among those of a list of entries exactly when some entry has them, equality being over all three fields |
| Formatting.GenerateEntry | src/formatting.rs:63-71 | the row copies title, minutes and link unchanged and is labelled by `TicketLabel` (the link's fourth-from-last segment, `#` and the iid) |
| Formatting.TicketLabel | src/formatting.rs:64-68 | the label ends with the iid's digits, preceded by `#` and by a segment that holds no `/` |
| Formatting.TicketLabelOfUrl | src/formatting.rs:64-68 | for a link `…/seg/a/b/c` whose last four segments hold no `/`, the link can be labelled and the label is `seg#iid` |
| Formatting.TicketLabelOfShortUrl | src/formatting.rs:64-68 | a link of exactly four parts `seg/a/b/c` splits into those parts and is labelled `seg#iid` |
| Formatting.SplitUrl | src/formatting.rs:64 | the `/`-parts of such a link are those of its prefix followed by its last four segments |
| Formatting.LabelNumber | src/formatting.rs:68 | the text after the last `#` of a label `seg#iid` parses back to the iid, whatever `seg` holds |
| Formatting.TicketLabelExample | src/formatting.rs:64-68 | `https://gitlab.com/grp/proj/-/issues/12` with iid 12 gives `proj#12` |
| Formatting.GenerateTimeTable | src/formatting.rs:40-61 | the people are sorted by display name and distinct; they are exactly the authors of the entries; each person's rows are their entries in input order and the total is their net |
| Formatting.GroupByAuthor | src/formatting.rs:41-50 | the map has a key per author, with that author's total and rows in input order |
| Formatting.GroupStep | src/formatting.rs:42-50 | adding one entry to its author's total and rows keeps the map equal to the totals and rows of the entries so far |
| Formatting.GroupStepAt | src/formatting.rs:42-50 | the same, for one author: the key is present exactly for authors seen so far, with their total and rows |
| Formatting.PeopleOf | src/formatting.rs:51-58 | one person per key, carrying that key's total and rows |
| Formatting.EntryStepAt | src/formatting.rs:42-50 | one more entry adds to its author's total and rows only |
| Formatting.SortByName | src/formatting.rs:59 | sorting is a permutation |
| Formatting.Insert | src/formatting.rs:59 | inserting adds exactly the one person |
| Formatting.InsertSorted | src/formatting.rs:59 | inserting into a sorted list keeps it sorted |
| Formatting.InsertDistinct | src/formatting.rs:59 | inserting a new user keeps users distinct |
| Formatting.SortByNameSorted | src/formatting.rs:59 | the sorted list is ordered by name and keeps users distinct |
| Formatting.SameMembers | src/formatting.rs:59 | a permutation has the same people, in both directions, and the same users |
| Formatting.UsersOfMembership | src/formatting.rs:51-58 | a user is in the report exactly when some person has them |
| Formatting.RowsTotal | src/formatting.rs:47-49 | a person's total is the sum of the minutes of their rows |
| Formatting.TotalAppend | src/formatting.rs:48 | totals are additive over the entries |
| Formatting.RowsAppend | src/formatting.rs:49 | rows of a concatenation are the rows of the parts, in order |
| Formatting.LabelledAppend | src/formatting.rs:64 | a concatenation of entries that can all be labelled can be labelled |
| Formatting.HitsDistinct | src/formatting.rs:51-58 | in a list of distinct users, an author is found once or not at all |
| Formatting.RowsForAll | src/formatting.rs:42-50 | when every author has a person, the rows found for the entries are as many as the entries |
| Formatting.RowCountIsRowsFor | src/formatting.rs:42-58 | the rows of all people are the rows found for the entries |
| Formatting.EveryEntryOneRow | src/formatting.rs:42-58 | every entry becomes exactly one row: the report has as many rows as there are entries |
| Formatting.TruncDivOdd | src/formatting.rs:22 | Rust's `/` rounds toward zero, so negating the dividend negates the quotient |
| Formatting.TruncDivTowardZero | src/formatting.rs:22 | the quotient's size is the quotient of the sizes, and its sign is the sign of the operands' product, or 0 |
| Formatting.Percentage | src/formatting.rs:22-23 | the row percentage, truncating `time_spent * 100 / total` and raised to at least 1, for a non-zero total |
| Formatting.PercentageAtMost100 | src/formatting.rs:22-23 | for a row between 0 and a positive total the percentage is at most 100 |
| Formatting.PercentageFloor | src/formatting.rs:22-23 | for non-negative rows it is the floor of the share, raised to 1 |
| Formatting.PercentageExamples | src/formatting.rs:22-23 | 120 and 60 of 180 give 66 and 33; 1 of 1000 gives 1; a negative row gives 1 |
| Formatting.GuardedPercentage | src/formatting.rs:22-23 | corrected percentage: at least 1 for every total, and equal to the source's wherever the total is not 0 |
| Formatting.GuardedPercentageBounds | src/formatting.rs:22-23 | for a row between 0 and the total it is between 1 and 100 |
| Formatting.Percentages | src/formatting.rs:21-24 | one percentage per row, each at least 1, equal to the source's whenever the total is non-zero |
| Formatting.ZeroTotalWithRows | src/formatting.rs:22 | an added and an equally large deleted entry on two tickets give a person with two rows and a total of 0 |
| GitlabApi.NextPageHint | src/gitlab_api.rs:32-42 | an absent header gives no hint, and a present one gives what `parse::<usize>` gives for it (`ParseUsize`, 64-bit `usize`), so an empty, non-numeric or too large header gives none |
| GitlabApi.NextPage | src/gitlab_api.rs:49-53 | after a full page the next page is the parsed hint when there is one, and otherwise the current page plus one |
| GitlabApi.WideHintIgnored | src/gitlab_api.rs:40-53 | a numeric hint is followed exactly when it is at most `usize::MAX`; a larger one moves to the current page plus one |
| GitlabApi.RequestPath | src/gitlab_api.rs:12 | the request URL is `https://`, then the base URL, then `/api/v4/`, then the endpoint, and nothing else (its length is theirs) |
| GitlabApi.Fetch | src/gitlab_api.rs:16-54 | a fetch makes at most as many requests as its fuel, at least one when it has any, and runs out of fuel only after using it all |
| GitlabApi.NextPageHintExamples | src/gitlab_api.rs:32-53 | `""`, absent and `-1` give no hint, `7` gives 7; after page 3 a non-number header leads to page 4 |
| GitlabApi.RequestMultiple | src/gitlab_api.rs:5-56 | the loop makes exactly the requests of `Fetch` from page 0 and returns its outcome |
| GitlabApi.FetchUnfold | src/gitlab_api.rs:22-53 | a fetch with requests left asks for the current page; a failed status ends it with an error, a short page ends it with that page, a full page goes on at the next page |
| GitlabApi.FetchLoopStep | src/gitlab_api.rs:22-53 | one loop iteration keeps the loop's requests and items a prefix of the fetch from page 0, and each of its exits returns that fetch |
| GitlabApi.PrependNothing | src/gitlab_api.rs:14-15 | a fetch starts with no requests and no items |
| GitlabApi.PrependPrepend | src/gitlab_api.rs:46 | appending pages one by one collects them in request order |
| GitlabApi.FetchRequests | src/gitlab_api.rs:12-20 | the first request asks for the starting page (0), and every request has the endpoint, page size 100 and the same query pairs |
| GitlabApi.FetchAdvances | src/gitlab_api.rs:47-53 | each request after the first follows a successful page of at least 100 items and asks for the hinted page, or the next |
| GitlabApi.FetchOutcome | src/gitlab_api.rs:43-55 | a completed fetch ended on a short successful page and returns all pages' items in request order |
| GitlabApi.FetchFailure | src/gitlab_api.rs:22-31 | a failed status ends the fetch at that request, and the error names its page |
| GitlabApi.CollectedLength | src/gitlab_api.rs:44-48 | full pages before a last page make 100 items each |
| GitlabApi.RequestCount | src/gitlab_api.rs:44-48 | from a server that honours the page size, `n` items take `n / 100 + 1` requests |
| GitlabApi.RequestCountExample | src/gitlab_api.rs:44-48 | 250 items take 3 requests |
| GitlabApi.ShortPageIgnoresHint | src/gitlab_api.rs:47-48 | a short page ends the fetch whatever its `X-Next-Page` says |
| GitlabApi.FilterTimeNotes | src/gitlab_api.rs:84-89 | the kept notes are exactly the notes that mention `added` or `deleted`, and `time spent` |
| GitlabApi.FilterAppend | src/gitlab_api.rs:84-89 | filtering a concatenation filters each part, so kept notes keep their order |
| GitlabApi.FilterIdempotent | src/gitlab_api.rs:84-89 | filtering twice is filtering once |
| GitlabApi.GetNotesForIssue | src/gitlab_api.rs:75-91 | the issue, unchanged, with the filtered notes of the fetch of its notes path without parameters; a failed fetch fails |
| GitlabApi.NotesEndpointParts | src/gitlab_api.rs:77 | the notes path splits at `/` into an empty first part, `projects`, the project id, `issues`, the iid and `notes`, and both numbers parse back |
| GitlabApi.EndpointJoin | src/gitlab_api.rs:77 | joining those six parts with `/` gives the notes path |
| GitlabApi.TimeNoteOccurs | src/gitlab_api.rs:86-87 | a note is kept exactly when `added` or `deleted` occurs somewhere in its body and `time spent` occurs somewhere too |
| GitlabApi.GetIssues | src/gitlab_api.rs:67-73 | the outcome of the fetch of `<endpoint>/issues/`, each request carrying the configured query pairs |
| PercentEncoding.EncodeChar | src/config.rs:57 | one to four UTF-8 bytes per character, one exactly for ASCII |
| PercentEncoding.DecodeEncodeChar | src/config.rs:57 | decoding a character's UTF-8 bytes gives it back |
| PercentEncoding.DecodeEncodeTwo | src/config.rs:57 | a two-byte encoding decodes back to its character |
| PercentEncoding.DecodeEncodeThree | src/config.rs:57 | a three-byte encoding decodes back to its character |
| PercentEncoding.DecodeEncodeFour | src/config.rs:57 | a four-byte encoding decodes back to its character |
| PercentEncoding.Utf8RoundTrip | src/config.rs:57 | decoding the UTF-8 of a text gives the text back |
| PercentEncoding.EncodeByte | src/config.rs:57 | a byte becomes one character exactly when it is an ASCII letter or digit, and that character is the byte itself; any other byte becomes `%` and two hex digits that read back as its high and low halves; every output character is a letter, a digit or `%` |
| PercentEncoding.PercentEncode | src/config.rs:57 | the encoded path holds only ASCII letters, digits and `%` |
| PercentEncoding.HexValue | src/config.rs:57 | a hex digit's value is below 16 and names that digit |
| PercentEncoding.PercentRoundTrip | src/config.rs:57 | decoding the escapes gives the bytes back |
| PercentEncoding.PathRoundTrip | src/config.rs:57 | the encoded path has no `/`, and decoding it gives the captured path back |
| PercentEncoding.DecodeEncodedByte | src/config.rs:57 | decoding a byte's encoding followed by decodable text gives the byte followed by that text's bytes |
| PercentEncoding.PercentEncodeAppend | src/config.rs:57 | the encoding of a concatenation is the concatenation of the encodings |
| PercentEncoding.EncodeAlphanumeric | src/config.rs:57 | letters and digits stand for themselves |
| PercentEncoding.EncodeAsciiOther | src/config.rs:57 | any other ASCII character becomes one upper-case escape |
| PercentEncoding.EncodeExample | src/config.rs:57 | `grp/sub-1` becomes `grp%2Fsub%2D1` |
| Configuration.MilestonePairs | src/config.rs:49-53 | one `("milestone", m)` pair per milestone, in milestone order |
| Configuration.MergeParameters | src/config.rs:47-55 | the configured pairs followed by the milestone pairs; the length is the sum of the two |
| Configuration.Resolve | src/config.rs:47-81 | base URL is the host capture and token, output and merged parameters are carried over; it fails exactly when both probes find nothing |
| Configuration.ProjectFirst | src/config.rs:58-64 | a project found gives `projects/<id>` whatever the group probe answers |
| Configuration.GroupFallback | src/config.rs:65-71 | otherwise a group found gives `groups/<id>` |
| Configuration.ProbePathIsOneSegment | src/config.rs:57-67 | the encoded path is the last segment of each probe URL, and it decodes to the captured path |
| Configuration.ProbeUrl | src/config.rs:58-67 | the probe URL is `https://`, the host, and the API path, and it ends with `/` and the encoded path |
| Configuration.ProbeUrlShape | src/config.rs:58-67 | the probe URL is its fixed front, a `/` and the encoded path |
| Configuration.Parameters | src/config.rs:84-89 | the stored pairs, same contents, same order |
| Pipeline.FetchAllNotes | src/main.rs:35-36 | succeeds exactly when every issue's note fetch does, and then pairs each issue, in order, with its time notes |
| Pipeline.NotesStep | src/main.rs:35-36 | one more successful note fetch appends one pair |
| Pipeline.CollectTimes | src/main.rs:37-40 | the entries of all issues: the authors are those with a time note anywhere, each author's total is their net over all issues, every entry's ticket is one of the issues and its author logged time on that issue, and each author's entries are, in issue order, one per issue they logged time on, carrying that issue and their net on it (`IssueEntries`) |
| Pipeline.CollectStep | src/main.rs:37-40 | appending a block that gives an author their net on issue `k` and, if they logged time there, one entry with that issue, extends what the issues before `k` gave them |
| Pipeline.DistinctEntries | src/util.rs:69-76 | among one issue's entries with distinct authors, an author has the single entry with the issue and their net, or none |
| Pipeline.EntriesOfAppend | src/main.rs:37-40 | an author's entries of a concatenation are their entries of the parts, in order |
| Pipeline.BlockOfIssue | src/main.rs:39 | within one issue's entries an author totals their net and appears once if they logged time there |
| Pipeline.DistinctBlock | src/util.rs:69-76 | in entries with distinct authors, an author's total and count come from their single entry |
| Pipeline.EntryCountAppend | src/main.rs:37-40 | entry counts are additive over concatenation |
| Pipeline.AuthorsOfAppend | src/main.rs:37-40 | the authors of a concatenation are those of the parts |
| Pipeline.RowsLength | src/formatting.rs:42-50 | a person has one row per entry of theirs |
| Pipeline.CollectedMembers | src/gitlab_api.rs:43-46 | every fetched item came from one of the responses |
| Pipeline.FetchedIssuesLabelled | src/gitlab_api.rs:67-73 | issues fetched from a server whose links are all long enough can all be labelled, so the pairs meet the labelling requirement |
| Pipeline.FetchedNotesParsable | src/gitlab_api.rs:75-91 | time notes fetched from a server whose time notes all parse can all be read, so every pair's notes parse |
| Pipeline.FromIssuesStep | src/main.rs:37-40 | appending issue `k`'s entries, each carrying issue `k` and an author who logged time on it, keeps every entry tied to such an issue |
| Pipeline.PairsLabelled | src/formatting.rs:63-68 | entries each made from an issue their author logged time on can all be labelled when every such issue can |
| Pipeline.GenerateTable | src/main.rs:28-41 | requires readable notes and labellable links (`RunReadable`) only when every fetch succeeds, and links only of issues someone logged time on; fails exactly when a fetch fails; otherwise everyone with a time note appears once, sorted by name, with their net over all issues as total; their rows are, in issue order, one per issue they logged time on, made by `generate_entry` from that issue and their net on it (`IssueRows`), and they sum to the total |
| Pipeline.RowsOfOwnEntries | src/formatting.rs:42-50 | a person's rows are the rows of their own entries |
| Pipeline.IssueRowsOfEntries | src/formatting.rs:63-71 | the rows of an author's entries, issue by issue, are `IssueRows` |
| Text.FindFirst | src/util.rs:48 | the leftmost occurrence of the pattern, or none anywhere |
| Text.ContainsMeansOccurs | src/gitlab_api.rs:86-87 | `contains` holds exactly when the pattern occurs somewhere |
| Text.SplitOnce | src/util.rs:48 | none exactly when the pattern does not occur; otherwise the text is before + pattern + after, split at the leftmost occurrence (`FindFirst`) |
| Text.Split | src/util.rs:49 | at least one part, no part holds the separator, and joining the parts gives the text back |
| Text.SplitJoin | src/formatting.rs:64 | splitting what was joined gives the parts back |
| Text.SplitLastAfterSep | src/formatting.rs:64 | the last part is the text after the last separator |
| Text.ParseInt | src/util.rs:36 | a value exactly for an optional sign followed by at least one decimal digit |
| Text.ParseNat | src/gitlab_api.rs:40 | a value exactly for an optional `+` followed by at least one digit, and then the same value as the signed parse |
| Text.ParseUsize | src/gitlab_api.rs:40 | `parse::<usize>`: the unsigned reading when it is at most `usize::MAX` (2^64 - 1), none otherwise |
| Text.UsizeRoundTrip | src/gitlab_api.rs:40 | the digits of `n` parse as a `usize` to `n` exactly when `n` fits, and to none above `usize::MAX` |
| Text.SignedRoundTrip | src/util.rs:36 | `-` and the digits of `n` parse to `-n`, `+` and the digits to `n`; the unsigned parse takes `+` and rejects `-` |
| Text.ParseRejects | src/util.rs:36 | the empty text, a lone sign and a text with a non-digit after its sign parse to nothing |
| Text.NatToStringRoundTrip | src/formatting.rs:68 | the decimal digits of `n` parse back to `n`, unsigned and signed |
| Text.LexLeTotal | src/formatting.rs:59 | any two names are ordered one way or the other |
| Text.LexLeTransitive | src/formatting.rs:59 | the order of names is transitive |

## Findings

| source | as written | input that shows it | evidently intended | confidence | as-written member | corrected member |
|---|---|---|---|---|---|---|
| src/formatting.rs:22 | the row percentage divides by the person's total, which can be 0 | one author with `added 1h of time spent` on one issue and `deleted 1h of time spent` on another: total 0, two rows, and the division panics | a total of 0 shows the floor value 1 on every row instead of panicking | medium, not executed | Formatting.ZeroTotalWithRows | Formatting.GuardedPercentage |

`Formatting.Percentage` is the percentage as written, with its zero total excluded.
`Formatting.Percentages` uses the guarded one.

## Left out

- HTTP client construction, bearer headers, `send` and JSON decoding (`src/util.rs`, `src/gitlab_api.rs:21,43,58-65`): the server and the probes are oracles. A header that is not visible ASCII is modelled as an absent hint.
- GitlabApi.RequestMultiple: the fetch is bounded by a fuel count of requests, since the source's loop need not end when a hint points back. Running out of fuel is an error that the source does not have.
- GitlabApi.RequestCount: it requires that the server never returns more than 100 items per page. The source carries on after any page of 100 or more items, and the model does too.
- Pipeline.FetchAllNotes: the concurrent `try_join_all` is a sequential loop that stops at the first failure. Which failure is reported when several fetches fail is not modelled.
- Pipeline.GenerateTable: the `OnceLock` global configuration is a parameter. The output file, the printed report text, the heading's rounded hours (floating point) and the timing are not modelled.
- Configuration.Resolve: the configuration file, the command line, the URL regular expression and its capture count check are not modelled. Resolution starts from the host and path captures.
- Util.ProcessIssue: the order of the entries is left unspecified, as the `HashMap` leaves it.
- Formatting.SortByName: an insertion sort stands in for `sort_by_key`. Only the order by name and the permutation are stated. The relative order of people with equal names is not, since it depends on `HashMap` order anyway.
- Formatting.Percentage: a total of 0 is excluded by a precondition where the source panics (see Findings).
- Util.TokenMinutes, Util.MatchTimeStr and Text.ParseInt: `isize` width and overflow are not modelled. Integers are unbounded.
- GitlabApi.NextPage: `usize` is taken to be 64 bits wide. A hint above `usize::MAX` is rejected as the source rejects it, but `page + 1` is unbounded where the source would overflow at `usize::MAX`.
- Util.ProcessNote: the `println!` for an unknown first word is not modelled.
- A token whose last character is not ASCII is excluded by `WellFormedToken`. The source's byte slice would panic there.
