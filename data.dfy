/**
 * The records the GitLab API returns and the pipeline passes around. Equality of a
 * datatype value is structural, as the derived `PartialEq` of the Rust structs: two
 * authors are the same exactly when id, username and name all agree.
 */
module Data {
  import opened Wrappers

  /** A GitLab user as it appears on a note. */
  datatype Author = Author(id: nat, username: string, name: string)

  /** One entry of an issue's history: free text and who wrote it. */
  datatype Note = Note(body: string, author: Author)

  datatype Milestone = Milestone(title: string)

  datatype TimeStats = TimeStats(totalTimeSpent: Option<nat>)

  /** An issue: `iid` is its number inside the project `projectId`. */
  datatype Issue = Issue(
    iid: nat,
    projectId: nat,
    title: string,
    timeStats: Option<TimeStats>,
    milestone: Option<Milestone>,
    webUrl: string)

  /** The net minutes one author logged on one ticket. */
  datatype TimeEntry = TimeEntry(author: Author, ticket: Issue, timeSpent: int)

  /** The only fields of a project or group lookup that the program reads. */
  datatype Project = Project(id: nat)

  datatype Group = Group(id: nat)

  /** The authors that occur in a list of time entries. */
  function AuthorsOf(entries: seq<TimeEntry>): set<Author>
  {
    if |entries| == 0 then {}
    else AuthorsOf(entries[..|entries| - 1]) + {entries[|entries| - 1].author}
  }

  lemma {:induction false} AuthorsOfMembership(entries: seq<TimeEntry>, a: Author)
    ensures a in AuthorsOf(entries) <==> exists i :: 0 <= i < |entries| && entries[i].author == a
  {
    if |entries| > 0 {
      var init := entries[..|entries| - 1];
      AuthorsOfMembership(init, a);
      if exists i :: 0 <= i < |init| && init[i].author == a {
        var i :| 0 <= i < |init| && init[i].author == a;
        assert entries[i].author == a;
      }
    }
  }

  lemma AuthorsOfMembershipAll(entries: seq<TimeEntry>)
    ensures forall i :: 0 <= i < |entries| ==> entries[i].author in AuthorsOf(entries)
  {
    forall i | 0 <= i < |entries| ensures entries[i].author in AuthorsOf(entries) {
      AuthorsOfMembership(entries, entries[i].author);
    }
  }
}
