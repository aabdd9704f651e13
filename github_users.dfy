/** The per-author git activity table of the GitHub enricher
    (`GitHubEnrich.__read_users_data`) and the lookup of an issue's author
    in it (`build_involves`). The CSV reader and SortingHat are outside the
    model: the rows arrive already split into columns, and the directory of
    unique identities is a function from uuid to its identities (`None`
    when the uuid is unknown). */
module GitHubUsers {
  import opened Values
  import opened Seqs
  import Text

  /** One SortingHat identity of a unique identity. */
  datatype ShIdent = ShIdent(source: string, username: string)

  /** A data row of the CSV file, its columns read and its GitHub usernames found. */
  datatype UserRow = UserRow(
    name: string,
    uuid: string,
    project: string,
    commits: string,
    maxDate: string,
    minDate: string,
    usernames: seq<string>)

  /** The value kept per uuid. `commits` stays text, so it is compared as
      text, as the source compares it. */
  datatype UserActivity = UserActivity(
    name: string,
    usernames: seq<string>,
    project: string,       // `mozilla_project`
    commits: string,       // `mozilla_commits`
    projects: seq<string>, // `mozilla_projects`
    maxDate: string,       // `mozilla_commits_max_author_date`
    minDate: string)       // `mozilla_commits_min_author_date`

  /** The `users_data` dict: its keys in insertion order, and its entries. */
  datatype UsersTable = UsersTable(uuids: seq<string>, data: map<string, UserActivity>)

  /** A dict's keys are listed once each, in the order list. */
  predicate Wellformed(t: UsersTable) {
    && NoDups(t.uuids)
    && (forall u :: u in t.data ==> u in t.uuids)
    && (forall k :: 0 <= k < |t.uuids| ==> t.uuids[k] in t.data)
  }

  /** The usernames of the `github` identities, each kept once, in the order met. */
  function GitHubUsernames(ids: seq<ShIdent>): (r: seq<string>)
    decreases |ids|
  {
    if |ids| == 0 then []
    else
      var prev := GitHubUsernames(ids[..|ids| - 1]);
      var last := ids[|ids| - 1];
      if last.source == "github" && last.username !in prev then prev + [last.username] else prev
  }

  /** The usernames are distinct and are exactly those of the `github` identities. */
  lemma {:induction false} GitHubUsernamesExact(ids: seq<ShIdent>)
    ensures NoDups(GitHubUsernames(ids))
    ensures forall k :: 0 <= k < |ids| && ids[k].source == "github" ==> ids[k].username in GitHubUsernames(ids)
    ensures forall u :: u in GitHubUsernames(ids) ==>
      exists k :: 0 <= k < |ids| && ids[k].source == "github" && ids[k].username == u
    decreases |ids|
  {
    if |ids| > 0 {
      var init := ids[..|ids| - 1];
      GitHubUsernamesExact(init);
      forall k | 0 <= k < |ids| - 1
        ensures ids[k] == init[k]
      {
      }
    }
  }

  /** The identities loop: a `github` username is added unless it is already there. */
  method CollectGitHubUsernames(ids: seq<ShIdent>) returns (usernames: seq<string>)
    ensures usernames == GitHubUsernames(ids)
  {
    usernames := [];
    for i := 0 to |ids|
      invariant usernames == GitHubUsernames(ids[..i])
    {
      assert ids[..i + 1][..i] == ids[..i];
      var identity := ids[i];
      if identity.source == "github" {
        if |usernames| > 0 {
          if identity.username !in usernames {
            usernames := usernames + [identity.username];
          }
        } else {
          usernames := [identity.username];
        }
      }
    }
    assert ids[..|ids|] == ids;
  }

  /** A CSV row read into its fields; a row of fewer than seven columns
      raises IndexError. */
  function ParseRow(row: seq<string>, directory: string -> Option<seq<ShIdent>>): (r: Result<UserRow>)
    ensures r.Failure? <==> |row| < 7
    ensures r.Success? ==>
      && r.value.name == row[0] && r.value.uuid == row[1] && r.value.project == row[2]
      && r.value.commits == row[3] && r.value.maxDate == row[5] && r.value.minDate == row[6]
      && (directory(row[1]).None? ==> r.value.usernames == [])
      && (directory(row[1]).Some? ==> r.value.usernames == GitHubUsernames(directory(row[1]).value))
  {
    if |row| < 7 then Failure(IndexError("list index out of range"))
    else
      var usernames := match directory(row[1]) case None => [] case Some(ids) => GitHubUsernames(ids);
      Success(UserRow(row[0], row[1], row[2], row[3], row[5], row[6], usernames))
  }

  /** All rows read, stopping at the first that cannot be. */
  function ParseAll(rows: seq<seq<string>>, directory: string -> Option<seq<ShIdent>>): (r: Result<seq<UserRow>>)
    ensures r.Success? ==> |r.value| == |rows|
    ensures r.Success? <==> forall k :: 0 <= k < |rows| ==> |rows[k]| >= 7
    ensures r.Success? ==> forall k :: 0 <= k < |rows| ==> ParseRow(rows[k], directory) == Success(r.value[k])
    decreases |rows|
  {
    if |rows| == 0 then Success([])
    else
      var init := rows[..|rows| - 1];
      assert forall k :: 0 <= k < |init| ==> init[k] == rows[k];
      var parsed :- ParseAll(init, directory);
      var row :- ParseRow(rows[|rows| - 1], directory);
      Success(parsed + [row])
  }

  /** The entry a uuid's first row creates. */
  function Fresh(row: UserRow): UserActivity {
    UserActivity(row.name, row.usernames, row.project, row.commits, [row.project], row.maxDate, row.minDate)
  }

  /** A later row of the same uuid: its project is appended, its usernames
      replace the old ones, and the smallest commits (with its project), the
      largest max date and the smallest min date are kept. */
  function Merge(a: UserActivity, row: UserRow): UserActivity {
    var a1 := a.(projects := a.projects + [row.project], usernames := row.usernames);
    var a2 := if Text.LexLess(row.commits, a1.commits) then a1.(commits := row.commits, project := row.project) else a1;
    var a3 := if Text.LexLess(a2.maxDate, row.maxDate) then a2.(maxDate := row.maxDate) else a2;
    if Text.LexLess(row.minDate, a3.minDate) then a3.(minDate := row.minDate) else a3
  }

  /** One row added to the table. */
  function Step(t: UsersTable, row: UserRow): UsersTable {
    if row.uuid !in t.data then UsersTable(t.uuids + [row.uuid], t.data[row.uuid := Fresh(row)])
    else t.(data := t.data[row.uuid := Merge(t.data[row.uuid], row)])
  }

  /** The table built from the rows, in order. */
  function Aggregate(rows: seq<UserRow>): UsersTable
    decreases |rows|
  {
    if |rows| == 0 then UsersTable([], map[])
    else Step(Aggregate(rows[..|rows| - 1]), rows[|rows| - 1])
  }

  /** `__read_users_data`: the header line is skipped (an empty file makes
      `next` raise), then every row is read and added. */
  function ReadUsers(rows: seq<seq<string>>, directory: string -> Option<seq<ShIdent>>): Result<UsersTable> {
    if |rows| == 0 then Failure(StopIteration)
    else
      var parsed :- ParseAll(rows[1..], directory);
      Success(Aggregate(parsed))
  }

  /** The rows of one uuid, in order. */
  function RowsFor(rows: seq<UserRow>, uuid: string): (r: seq<UserRow>)
    ensures forall k :: 0 <= k < |r| ==> r[k].uuid == uuid
    decreases |rows|
  {
    if |rows| == 0 then []
    else
      var prev := RowsFor(rows[..|rows| - 1], uuid);
      if rows[|rows| - 1].uuid == uuid then prev + [rows[|rows| - 1]] else prev
  }

  lemma {:induction false} RowsForNone(rows: seq<UserRow>, uuid: string)
    requires forall k :: 0 <= k < |rows| ==> rows[k].uuid != uuid
    ensures RowsFor(rows, uuid) == []
    decreases |rows|
  {
    if |rows| > 0 {
      RowsForNone(rows[..|rows| - 1], uuid);
    }
  }

  /** The entry a non-empty list of rows of one uuid leads to. */
  function Summarize(f: seq<UserRow>): UserActivity
    requires |f| > 0
    decreases |f|
  {
    if |f| == 1 then Fresh(f[0]) else Merge(Summarize(f[..|f| - 1]), f[|f| - 1])
  }

  /** The index of the first row of a uuid (`|rows|` when there is none). */
  function FirstRow(rows: seq<UserRow>, uuid: string): (k: nat)
    ensures k <= |rows|
    ensures k < |rows| ==> rows[k].uuid == uuid
    ensures forall j :: 0 <= j < k ==> rows[j].uuid != uuid
    decreases |rows|
  {
    if |rows| == 0 then 0
    else if rows[0].uuid == uuid then 0
    else 1 + FirstRow(rows[1..], uuid)
  }

  lemma FirstRowSnoc(rows: seq<UserRow>, row: UserRow, uuid: string)
    ensures FirstRow(rows + [row], uuid) == (if FirstRow(rows, uuid) < |rows| then FirstRow(rows, uuid)
                                             else if row.uuid == uuid then |rows| else |rows| + 1)
  {
    var k := FirstRow(rows + [row], uuid);
    var k0 := FirstRow(rows, uuid);
    if k0 < |rows| {
      assert (rows + [row])[k0] == rows[k0];
    } else if row.uuid == uuid {
      assert (rows + [row])[|rows|] == row;
    }
  }

  /** The table's keys are the uuids of the rows, each listed once. */
  lemma {:induction false} AggregateKeys(rows: seq<UserRow>)
    ensures Wellformed(Aggregate(rows))
    ensures forall u :: u in Aggregate(rows).data <==> FirstRow(rows, u) < |rows|
    decreases |rows|
  {
    if |rows| > 0 {
      var init := rows[..|rows| - 1];
      var row := rows[|rows| - 1];
      assert rows == init + [row];
      AggregateKeys(init);
      forall u
        ensures FirstRow(rows, u) == (if FirstRow(init, u) < |init| then FirstRow(init, u)
                                      else if row.uuid == u then |init| else |init| + 1)
      {
        FirstRowSnoc(init, row, u);
      }
    }
  }

  /** Each entry summarizes the rows of its uuid. */
  lemma {:induction false} AggregateEntries(rows: seq<UserRow>)
    ensures forall u :: u in Aggregate(rows).data ==>
      |RowsFor(rows, u)| > 0 && Aggregate(rows).data[u] == Summarize(RowsFor(rows, u))
    decreases |rows|
  {
    if |rows| > 0 {
      var init := rows[..|rows| - 1];
      var row := rows[|rows| - 1];
      AggregateEntries(init);
      AggregateKeys(init);
      var t := Aggregate(init);
      forall u | u in Aggregate(rows).data
        ensures |RowsFor(rows, u)| > 0 && Aggregate(rows).data[u] == Summarize(RowsFor(rows, u))
      {
        EntryStep(init, row, u);
      }
    }
  }

  /** One row's effect on the entry of a uuid. */
  lemma EntryStep(init: seq<UserRow>, row: UserRow, u: string)
    requires forall v :: v in Aggregate(init).data ==>
      |RowsFor(init, v)| > 0 && Aggregate(init).data[v] == Summarize(RowsFor(init, v))
    requires forall v :: v in Aggregate(init).data <==> FirstRow(init, v) < |init|
    requires u in Step(Aggregate(init), row).data
    ensures var rows := init + [row];
      |RowsFor(rows, u)| > 0 && Step(Aggregate(init), row).data[u] == Summarize(RowsFor(rows, u))
  {
    var rows := init + [row];
    assert rows[..|rows| - 1] == init;
    var t := Aggregate(init);
    if u == row.uuid && u in t.data {
      var f := RowsFor(init, u);
      assert RowsFor(rows, u) == f + [row];
      assert (f + [row])[..|f|] == f;
    } else if u == row.uuid {
      RowsForNone(init, u);
      assert RowsFor(rows, u) == [row];
    } else {
      assert RowsFor(rows, u) == RowsFor(init, u);
    }
  }

  /** Keys come in the order of the first row of each uuid. */
  lemma {:induction false} AggregateOrder(rows: seq<UserRow>)
    ensures forall i, j :: 0 <= i < j < |Aggregate(rows).uuids| ==>
      FirstRow(rows, Aggregate(rows).uuids[i]) < FirstRow(rows, Aggregate(rows).uuids[j])
    ensures forall i :: 0 <= i < |Aggregate(rows).uuids| ==> FirstRow(rows, Aggregate(rows).uuids[i]) < |rows|
    decreases |rows|
  {
    if |rows| > 0 {
      var init := rows[..|rows| - 1];
      var row := rows[|rows| - 1];
      assert rows == init + [row];
      AggregateOrder(init);
      AggregateKeys(init);
      var t := Aggregate(init);
      var us := Aggregate(rows).uuids;
      forall i | 0 <= i < |t.uuids|
        ensures FirstRow(rows, t.uuids[i]) == FirstRow(init, t.uuids[i])
      {
        FirstRowSnoc(init, row, t.uuids[i]);
      }
      if row.uuid !in t.data {
        assert us == t.uuids + [row.uuid];
        FirstRowSnoc(init, row, row.uuid);
        assert FirstRow(rows, row.uuid) == |init|;
      }
    }
  }

  /** What an entry says about its rows: the name of the first, the usernames
      of the last, every project in order, the largest max date, the smallest
      min date, and the smallest commits text together with the project of
      the first row that has it. */
  lemma SummarizeProperties(f: seq<UserRow>)
    requires |f| > 0
    ensures var s := Summarize(f);
      && s.name == f[0].name
      && s.usernames == f[|f| - 1].usernames
      && |s.projects| == |f| && (forall k :: 0 <= k < |f| ==> s.projects[k] == f[k].project)
      && (exists k :: 0 <= k < |f| && f[k].maxDate == s.maxDate)
      && (forall k :: 0 <= k < |f| ==> !Text.LexLess(s.maxDate, f[k].maxDate))
      && (exists k :: 0 <= k < |f| && f[k].minDate == s.minDate)
      && (forall k :: 0 <= k < |f| ==> !Text.LexLess(f[k].minDate, s.minDate))
      && (forall k :: 0 <= k < |f| ==> !Text.LexLess(f[k].commits, s.commits))
      && CommitsChosen(f, s)
  {
    SummarizeNames(f);
    SummarizeDates(f);
    SummarizeCommits(f);
  }

  /** The name of the first row, the usernames of the last, every project in order. */
  lemma {:induction false} SummarizeNames(f: seq<UserRow>)
    requires |f| > 0
    ensures var s := Summarize(f);
      && s.name == f[0].name
      && s.usernames == f[|f| - 1].usernames
      && |s.projects| == |f| && (forall k :: 0 <= k < |f| ==> s.projects[k] == f[k].project)
    decreases |f|
  {
    if |f| > 1 {
      var init := f[..|f| - 1];
      SummarizeNames(init);
      assert forall k :: 0 <= k < |init| ==> f[k] == init[k];
    }
  }

  /** The largest max date and the smallest min date, both taken from some row. */
  lemma {:induction false} SummarizeDates(f: seq<UserRow>)
    requires |f| > 0
    ensures var s := Summarize(f);
      && (exists k :: 0 <= k < |f| && f[k].maxDate == s.maxDate)
      && (forall k :: 0 <= k < |f| ==> !Text.LexLess(s.maxDate, f[k].maxDate))
      && (exists k :: 0 <= k < |f| && f[k].minDate == s.minDate)
      && (forall k :: 0 <= k < |f| ==> !Text.LexLess(f[k].minDate, s.minDate))
    decreases |f|
  {
    if |f| == 1 {
      Text.LexIrreflexive(f[0].maxDate);
      Text.LexIrreflexive(f[0].minDate);
    } else {
      var init := f[..|f| - 1];
      var row := f[|f| - 1];
      SummarizeDates(init);
      MaxDateStep(init, Summarize(init), row);
      MinDateStep(init, Summarize(init), row);
      assert f == init + [row];
    }
  }

  /** The smallest commits text, with the project of the first row that has it. */
  lemma {:induction false} SummarizeCommits(f: seq<UserRow>)
    requires |f| > 0
    ensures var s := Summarize(f);
      && (forall k :: 0 <= k < |f| ==> !Text.LexLess(f[k].commits, s.commits))
      && CommitsChosen(f, s)
    decreases |f|
  {
    if |f| == 1 {
      Text.LexIrreflexive(f[0].commits);
      assert CommitsAt(f, Summarize(f), 0);
    } else {
      var init := f[..|f| - 1];
      var row := f[|f| - 1];
      SummarizeCommits(init);
      CommitsStep(init, Summarize(init), row);
      assert f == init + [row];
    }
  }

  /** The kept commits text and project are those of row `k`, and every
      earlier row has a larger commits text. */
  predicate CommitsAt(f: seq<UserRow>, s: UserActivity, k: int) {
    && 0 <= k < |f|
    && s.commits == f[k].commits && s.project == f[k].project
    && forall j :: 0 <= j < k ==> Text.LexLess(s.commits, f[j].commits)
  }

  ghost predicate CommitsChosen(f: seq<UserRow>, s: UserActivity) {
    exists k :: CommitsAt(f, s, k)
  }

  lemma MaxDateStep(init: seq<UserRow>, a: UserActivity, row: UserRow)
    requires exists k :: 0 <= k < |init| && init[k].maxDate == a.maxDate
    requires forall k :: 0 <= k < |init| ==> !Text.LexLess(a.maxDate, init[k].maxDate)
    ensures var s := Merge(a, row); var f := init + [row];
      && (exists k :: 0 <= k < |f| && f[k].maxDate == s.maxDate)
      && (forall k :: 0 <= k < |f| ==> !Text.LexLess(s.maxDate, f[k].maxDate))
  {
    var s := Merge(a, row);
    var f := init + [row];
    if Text.LexLess(a.maxDate, row.maxDate) {
      assert f[|init|].maxDate == s.maxDate;
      Text.LexIrreflexive(row.maxDate);
      forall k | 0 <= k < |init|
        ensures !Text.LexLess(row.maxDate, init[k].maxDate)
      {
        Text.LexAtMostThenLess(init[k].maxDate, a.maxDate, row.maxDate);
        Text.LexAsymmetric(init[k].maxDate, row.maxDate);
      }
    } else {
      var k :| 0 <= k < |init| && init[k].maxDate == a.maxDate;
      assert f[k].maxDate == s.maxDate;
    }
  }

  lemma MinDateStep(init: seq<UserRow>, a: UserActivity, row: UserRow)
    requires exists k :: 0 <= k < |init| && init[k].minDate == a.minDate
    requires forall k :: 0 <= k < |init| ==> !Text.LexLess(init[k].minDate, a.minDate)
    ensures var s := Merge(a, row); var f := init + [row];
      && (exists k :: 0 <= k < |f| && f[k].minDate == s.minDate)
      && (forall k :: 0 <= k < |f| ==> !Text.LexLess(f[k].minDate, s.minDate))
  {
    var s := Merge(a, row);
    var f := init + [row];
    if Text.LexLess(row.minDate, a.minDate) {
      assert f[|init|].minDate == s.minDate;
      Text.LexIrreflexive(row.minDate);
      forall k | 0 <= k < |init|
        ensures !Text.LexLess(init[k].minDate, row.minDate)
      {
        Text.LexLessThenAtMost(row.minDate, a.minDate, init[k].minDate);
        Text.LexAsymmetric(row.minDate, init[k].minDate);
      }
    } else {
      var k :| 0 <= k < |init| && init[k].minDate == a.minDate;
      assert f[k].minDate == s.minDate;
    }
  }

  lemma CommitsStep(init: seq<UserRow>, a: UserActivity, row: UserRow)
    requires CommitsChosen(init, a)
    requires forall k :: 0 <= k < |init| ==> !Text.LexLess(init[k].commits, a.commits)
    ensures var s := Merge(a, row); var f := init + [row];
      && CommitsChosen(f, s)
      && (forall k :: 0 <= k < |f| ==> !Text.LexLess(f[k].commits, s.commits))
  {
    var s := Merge(a, row);
    var f := init + [row];
    if Text.LexLess(row.commits, a.commits) {
      forall j | 0 <= j < |init|
        ensures Text.LexLess(s.commits, f[j].commits)
      {
        Text.LexLessThenAtMost(row.commits, a.commits, init[j].commits);
      }
      assert CommitsAt(f, s, |init|);
      Text.LexIrreflexive(row.commits);
      forall k | 0 <= k < |f|
        ensures !Text.LexLess(f[k].commits, s.commits)
      {
        if k < |init| {
          Text.LexAsymmetric(s.commits, f[k].commits);
        }
      }
    } else {
      var k :| CommitsAt(init, a, k);
      assert CommitsAt(f, s, k);
    }
  }

  /** `__read_users_data` over the rows of the file (header first). */
  method ReadUsersData(rows: seq<seq<string>>, directory: string -> Option<seq<ShIdent>>)
    returns (r: Result<UsersTable>)
    ensures r == ReadUsers(rows, directory)
  {
    if |rows| == 0 {
      return Failure(StopIteration);
    }
    var body := rows[1..];
    var uuids: seq<string> := [];
    var data: map<string, UserActivity> := map[];
    ghost var parsed: seq<UserRow> := [];
    for i := 0 to |body|
      invariant ParseAll(body[..i], directory) == Success(parsed)
      invariant UsersTable(uuids, data) == Aggregate(parsed)
    {
      assert body[..i + 1][..i] == body[..i];
      var row := body[i];
      if |row| < 7 {
        assert ParseAll(body[..i + 1], directory).Failure?;
        ParseAllPrefixFails(body, i + 1, directory);
        return Failure(IndexError("list index out of range"));
      }
      var name, uuid, project, commits, maxDate, minDate := row[0], row[1], row[2], row[3], row[5], row[6];
      var usernames: seq<string> := [];
      var identities := directory(uuid);
      if identities.Some? {
        usernames := CollectGitHubUsernames(identities.value);
      }
      var parsedRow := UserRow(name, uuid, project, commits, maxDate, minDate, usernames);
      assert ParseRow(row, directory) == Success(parsedRow);
      if uuid !in data {
        uuids := uuids + [uuid];
        data := data[uuid := UserActivity(name, usernames, project, commits, [project], maxDate, minDate)];
      } else {
        var entry := data[uuid];
        entry := entry.(projects := entry.projects + [project], usernames := usernames);
        if Text.LexLess(commits, entry.commits) {
          entry := entry.(commits := commits, project := project);
        }
        if Text.LexLess(entry.maxDate, maxDate) {
          entry := entry.(maxDate := maxDate);
        }
        if Text.LexLess(minDate, entry.minDate) {
          entry := entry.(minDate := minDate);
        }
        data := data[uuid := entry];
      }
      parsed := parsed + [parsedRow];
    }
    assert body[..|body|] == body;
    r := Success(UsersTable(uuids, data));
  }

  /** Once a prefix of the rows cannot be read, neither can the whole. */
  lemma {:induction false} ParseAllPrefixFails(rows: seq<seq<string>>, n: nat, directory: string -> Option<seq<ShIdent>>)
    requires n <= |rows|
    requires ParseAll(rows[..n], directory).Failure?
    ensures ParseAll(rows, directory) == ParseAll(rows[..n], directory)
    decreases |rows|
  {
    if n == |rows| {
      assert rows[..n] == rows;
    } else {
      var init := rows[..|rows| - 1];
      assert init[..n] == rows[..n];
      ParseAllPrefixFails(init, n, directory);
      ParseAllSnocFails(rows, directory);
    }
  }

  /** One more row after a failing prefix keeps its failure. */
  lemma ParseAllSnocFails(rows: seq<seq<string>>, directory: string -> Option<seq<ShIdent>>)
    requires |rows| > 0 && ParseAll(rows[..|rows| - 1], directory).Failure?
    ensures ParseAll(rows, directory) == ParseAll(rows[..|rows| - 1], directory)
  {
  }

  /** The `involves_*` fields of an issue author. */
  datatype Involves = Involves(uuid: Option<string>, name: Option<string>, username: string)

  /** `build_involves`: the first uuid, in the dict's order, whose usernames
      hold the author's username. */
  method BuildInvolves(username: string, t: UsersTable) returns (r: Involves)
    requires Wellformed(t)
    ensures r.username == username
    ensures r.uuid.None? <==> forall k :: 0 <= k < |t.uuids| ==> username !in t.data[t.uuids[k]].usernames
    ensures r.uuid.None? ==> r.name.None?
    ensures r.uuid.Some? ==>
      exists k :: FirstMatch(username, t, k) && r.uuid == Some(t.uuids[k]) && r.name == Some(t.data[t.uuids[k]].name)
  {
    r := Involves(None, None, username);
    for i := 0 to |t.uuids|
      invariant r == Involves(None, None, username)
      invariant forall k :: 0 <= k < i ==> username !in t.data[t.uuids[k]].usernames
    {
      var uuid := t.uuids[i];
      if username in t.data[uuid].usernames {
        r := Involves(Some(uuid), Some(t.data[uuid].name), username);
        assert FirstMatch(username, t, i);
        return;
      }
    }
  }

  /** Key `k` is the first whose usernames hold `username`. */
  predicate FirstMatch(username: string, t: UsersTable, k: int)
    requires Wellformed(t)
  {
    && 0 <= k < |t.uuids|
    && username in t.data[t.uuids[k]].usernames
    && forall j :: 0 <= j < k ==> username !in t.data[t.uuids[j]].usernames
  }
}
