/** The GitHub issue / pull request enrichment: the identities of an issue
    (`GitHubEnrich.get_identities`), the role fields of its author and
    assignee, the fields derived from `html_url`, the issue / pull request
    classification and the label text of `GitHubEnrich.get_rich_item`. */
module GitHubIssue {
  import opened Values
  import opened GitHubActors
  import opened GitHubGeo
  import Text

  const GITHUB := "https://github.com/"

  /** The `data` payload of a raw GitHub issue item, reduced to the keys the
      enrichment reads. */
  datatype Issue = Issue(
    user: Option<Actor>,
    userData: Option<Actor>,
    assignee: Option<Actor>,
    assigneeData: Option<Actor>,
    id: int,
    htmlUrl: string,
    title: string,
    state: string,
    createdAt: string,
    updatedAt: string,
    closedAt: Option<string>,
    labels: Option<seq<string>>,   // the `name` of each label, when the key `labels` is present
    hasHead: bool,                 // whether the key `head` is present
    hasPullRequest: bool)          // whether the key `pull_request` is present

  /** Python truthiness of a user dict. */
  predicate TruthyActor(a: Option<Actor>) {
    a.Some? && |a.value| > 0
  }

  /** The identity a role contributes to `get_identities`: none when the raw
      role field is falsy or its `_data` dict is empty. */
  function RoleIdentity(raw: Option<Actor>, data: Option<Actor>): (r: Result<seq<Identity>>)
    ensures !TruthyActor(raw) ==> r == Success([])
    ensures r.Success? ==> |r.value| <= 1
    ensures TruthyActor(raw) && data.Some? && "login" in data.value && |data.value| > 0 ==>
      r.Success? && |r.value| == 1 && r.value[0].username == data.value["login"]
    ensures TruthyActor(raw) ==> (r.Failure? <==> ShIdentity(data).Failure?)
  {
    if !TruthyActor(raw) then Success([])
    else
      var id :- ShIdentity(data);
      if id.Some? then Success([id.value]) else Success([])
  }

  /** `get_identities`: at most two identities, the user's before the assignee's. */
  function GetIdentities(issue: Issue): (r: Result<seq<Identity>>)
    ensures r.Success? ==> |r.value| <= 2
    ensures r.Success? <==> RoleIdentity(issue.user, issue.userData).Success? && RoleIdentity(issue.assignee, issue.assigneeData).Success?
    ensures r.Success? ==>
      r.value == RoleIdentity(issue.user, issue.userData).value + RoleIdentity(issue.assignee, issue.assigneeData).value
    ensures r.Success? && |r.value| == 2 ==>
      r.value[0].username == issue.userData.value["login"] && r.value[1].username == issue.assigneeData.value["login"]
  {
    var users :- RoleIdentity(issue.user, issue.userData);
    var assignees :- RoleIdentity(issue.assignee, issue.assigneeData);
    Success(users + assignees)
  }

  /** `get_time_diff_days(start, end)`, which is not interpreted: the
      arguments chosen are what the model keeps. */
  datatype TimeDiff = DaysBetween(start: string, end: Option<string>)

  /** The `<role>_domain` key: missing, `None`, or `get_email_domain(email)`
      (not interpreted) for the email it is computed from. */
  datatype DomainField = NoKey | NullDomain | DomainOf(email: string)

  /** The `<role>_*` fields of one actor (`user` or `assignee`), without the
      geolocation, which comes from the cache. */
  datatype RoleFields = RoleFields(
    login: Option<string>,
    name: Option<string>,
    email: Option<string>,
    domain: DomainField,
    org: Option<string>,
    location: Option<string>)

  /** The role fields when the actor is absent: every one is `None`. */
  const NO_ROLE := RoleFields(None, None, None, NullDomain, None, None)

  /** The domain is computed only from a truthy email; otherwise the key is left out. */
  function DomainFor(email: Option<string>): (d: DomainField)
    ensures d != NullDomain
    ensures d.DomainOf? <==> Truthy(email)
    ensures d.DomainOf? ==> d.email == email.value
  {
    if Truthy(email) then DomainOf(email.value) else NoKey
  }

  /** The fields `user_data` contributes; `name`, `email`, `company` and
      `location` must be keys of it. */
  function DataFields(login: Option<string>, data: Actor): (r: Result<RoleFields>)
    ensures r.Success? <==> "name" in data && "email" in data && "company" in data && "location" in data
    ensures r.Success? ==>
      && r.value.login == login && r.value.name == data["name"] && r.value.email == data["email"]
      && r.value.org == data["company"] && r.value.location == data["location"]
      && r.value.domain == DomainFor(data["email"])
  {
    var name :- Values.Lookup(data, "name");
    var email :- Values.Lookup(data, "email");
    var org :- Values.Lookup(data, "company");
    var location :- Values.Lookup(data, "location");
    Success(RoleFields(login, name, email, DomainFor(email), org, location))
  }

  /** The `user_*` fields: `user_login` always comes from `user`; every other
      field is `None` when `user_data` is `None`. */
  function UserRole(issue: Issue): (r: Result<RoleFields>)
    ensures issue.user.None? ==> r.Failure?
    ensures r.Success? ==> "login" in issue.user.value && r.value.login == issue.user.value["login"]
    ensures r.Success? && issue.userData.None? ==> "login" in issue.user.value && r.value == NO_ROLE.(login := issue.user.value["login"])
    ensures r.Success? && issue.userData.Some? ==> (r.value.domain.NoKey? <==> !Truthy(r.value.email))
  {
    match issue.user
    case None => Failure(TypeError("'NoneType' object is not subscriptable"))
    case Some(u) =>
      var login :- Values.Lookup(u, "login");
      match issue.userData
      case None => Success(NO_ROLE.(login := login))
      case Some(data) => DataFields(login, data)
  }

  /** The `assignee_*` fields: all `None` when `assignee` is `None`; otherwise
      the login from `assignee` and the rest from `assignee_data`. */
  function AssigneeRole(issue: Issue): (r: Result<RoleFields>)
    ensures issue.assignee.None? ==> r == Success(NO_ROLE)
    // `assignee['login']` is read before `assignee_data` is used
    ensures issue.assignee.Some? && "login" !in issue.assignee.value ==> r == Failure(KeyError("login"))
    ensures issue.assignee.Some? && "login" in issue.assignee.value && issue.assigneeData.None? ==> r.Failure? && r.error.TypeError?
    ensures r.Success? && issue.assignee.Some? ==>
      "login" in issue.assignee.value && r.value.login == issue.assignee.value["login"] && (r.value.domain.NoKey? <==> !Truthy(r.value.email))
  {
    match issue.assignee
    case None => Success(NO_ROLE)
    case Some(a) =>
      var login :- Values.Lookup(a, "login");
      match issue.assigneeData
      case None => Failure(TypeError("'NoneType' object is not subscriptable"))
      case Some(data) => DataFields(login, data)
  }

  /** `html_url.split("/")[-1]`: the text after the last "/", all of the URL
      when it has none. */
  function IdInRepo(htmlUrl: string): (r: string)
    ensures '/' !in r
    ensures |r| <= |htmlUrl| && htmlUrl[|htmlUrl| - |r|..] == r
    ensures |r| < |htmlUrl| ==> htmlUrl[|htmlUrl| - |r| - 1] == '/'
  {
    Text.LastPieceSuffix(htmlUrl, '/');
    Text.LastPiece(htmlUrl, '/')
  }

  /** `html_url.rsplit("/", 2)[0]`. */
  function Repository(htmlUrl: string): string {
    Text.RsplitTwoHead(htmlUrl, '/')
  }

  /** `re.sub('.git$', '', s)` as written: the unescaped `.` matches any
      character but a newline, and `$` matches at the end or just before a
      final newline. */
  function StripGitAsWritten(s: string): string {
    var n := |s|;
    if n >= 4 && s[n - 3..] == "git" && s[n - 4] != '\n' then s[..n - 4]
    else if n >= 5 && s[n - 1] == '\n' && s[n - 4..n - 1] == "git" && s[n - 5] != '\n' then s[..n - 5] + "\n"
    else s
  }

  /** `github_repo` as the source computes it. */
  function GitHubRepoAsWritten(repository: string): string {
    StripGitAsWritten(Text.RemoveAll(repository, GITHUB))
  }

  /** The evidently intended `re.sub(r'\.git$', '', s)`: a trailing `.git` is dropped. */
  function StripGitSuffix(s: string): (r: string)
    ensures |s| >= 4 && s[|s| - 4..] == ".git" ==> s == r + ".git"
    ensures !(|s| >= 4 && s[|s| - 4..] == ".git") ==> r == s
  {
    if |s| >= 4 && s[|s| - 4..] == ".git" then s[..|s| - 4] else s
  }

  /** `github_repo`, with the suffix strip corrected. */
  function GitHubRepo(repository: string): string {
    StripGitSuffix(Text.RemoveAll(repository, GITHUB))
  }

  /** `url_id`. */
  function UrlId(githubRepo: string, idInRepo: string): string {
    githubRepo + "/issues/" + idInRepo
  }

  /** `labels`: every label name followed by ";;" (the `labels[:-2]` of the
      source discards its result, so the trailing separator stays). */
  function LabelText(labels: Option<seq<string>>): string {
    Text.Terminated(labels.GetOr([]), ";;")
  }

  /** The label text of a non-empty label list is the names joined by ";;"
      followed by one more ";;". */
  lemma LabelTextKeepsTrailingSeparator(names: seq<string>)
    requires |names| > 0
    ensures LabelText(Some(names)) == Text.Join(names, ";;") + ";;"
    ensures LabelText(None) == ""
  {
    Text.TerminatedIsJoinPlusSep(names, ";;");
  }

  /** The enriched issue document (the fields this model derives). */
  datatype RichIssue = RichIssue(
    timeToCloseDays: TimeDiff,
    timeOpenDays: TimeDiff,
    user: RoleFields,
    userGeolocation: Option<GeoPoint>,
    authorName: Option<string>,
    assignee: RoleFields,
    assigneeGeolocation: Option<GeoPoint>,
    id: int,
    idInRepo: string,
    repository: string,
    title: string,
    titleAnalyzed: string,
    state: string,
    createdAt: string,
    updatedAt: string,
    closedAt: Option<string>,
    url: string,
    labels: string,
    pullRequest: bool,
    itemType: string,
    githubRepo: string,
    urlId: string)

  /** The document built from the issue, its two roles and their points. */
  function RichIssueOf(issue: Issue, now: string, user: RoleFields, userGeo: Option<GeoPoint>,
                       assignee: RoleFields, assigneeGeo: Option<GeoPoint>): (r: RichIssue)
    // `time_open_days` is the time to close for a closed issue, the time until now otherwise
    ensures r.timeToCloseDays == DaysBetween(issue.createdAt, issue.closedAt)
    ensures issue.state == "closed" ==> r.timeOpenDays == r.timeToCloseDays
    ensures issue.state != "closed" ==> r.timeOpenDays == DaysBetween(issue.createdAt, Some(now))
    // a pull request exactly when `head` or `pull_request` is a key
    ensures !r.pullRequest <==> !issue.hasHead && !issue.hasPullRequest
    ensures r.itemType == (if r.pullRequest then "pull request" else "issue")
    ensures r.user == user && r.userGeolocation == userGeo && r.authorName == user.name
    ensures r.assignee == assignee && r.assigneeGeolocation == assigneeGeo
    ensures r.id == issue.id && r.state == issue.state && r.createdAt == issue.createdAt
    ensures r.updatedAt == issue.updatedAt && r.closedAt == issue.closedAt
    ensures r.labels == LabelText(issue.labels)
    // the URL-derived fields
    ensures r.idInRepo == IdInRepo(issue.htmlUrl) && r.repository == Repository(issue.htmlUrl)
    ensures r.githubRepo == GitHubRepo(r.repository)
    ensures r.title == r.titleAnalyzed == issue.title && r.url == issue.htmlUrl
    ensures '/' !in r.idInRepo
    ensures r.urlId == r.githubRepo + "/issues/" + r.idInRepo
  {
    var timeToClose := DaysBetween(issue.createdAt, issue.closedAt);
    var isPull := issue.hasHead || issue.hasPullRequest;
    var repository := Repository(issue.htmlUrl);
    var idInRepo := IdInRepo(issue.htmlUrl);
    var githubRepo := GitHubRepo(repository);
    RichIssue(
      timeToClose,
      if issue.state != "closed" then DaysBetween(issue.createdAt, Some(now)) else timeToClose,
      user, userGeo, user.name, assignee, assigneeGeo,
      issue.id, idInRepo, repository, issue.title, issue.title, issue.state,
      issue.createdAt, issue.updatedAt, issue.closedAt, issue.htmlUrl,
      LabelText(issue.labels),
      isPull, if isPull then "pull request" else "issue",
      githubRepo, UrlId(githubRepo, idInRepo))
  }

  /** `get_rich_item` as a whole: the user's fields, a geocache lookup of the
      user's location, the assignee's fields, a lookup of the assignee's
      location, then the document; the first failing lookup of a dict key
      ends it, keeping the cache changes made so far. */
  function Enrich(s: GeoState, issue: Issue, now: string, geocoder: string -> GeoAnswer): (r: (GeoState, Result<RichIssue>))
    requires Wellformed(s)
    ensures Wellformed(r.0)
    ensures r.1.Success? <==> UserRole(issue).Success? && AssigneeRole(issue).Success?
    ensures UserRole(issue).Failure? ==> r == (s, Failure(UserRole(issue).error))
    ensures UserRole(issue).Success? && AssigneeRole(issue).Failure? ==>
      r == (GeoLookup(s, UserRole(issue).value.location, geocoder).state, Failure(AssigneeRole(issue).error))
    ensures r.1.Success? ==>
      var user := UserRole(issue).value;
      var assignee := AssigneeRole(issue).value;
      var first := GeoLookup(s, user.location, geocoder);
      var second := GeoLookup(first.state, assignee.location, geocoder);
      r == (second.state, Success(RichIssueOf(issue, now, user, first.point, assignee, second.point)))
    ensures issue.userData.None? && issue.assignee.None? ==> r.0 == s
  {
    match UserRole(issue)
    case Failure(e) => (s, Failure(e))
    case Success(user) =>
      var first := GeoLookup(s, user.location, geocoder);
      match AssigneeRole(issue)
      case Failure(e) => (first.state, Failure(e))
      case Success(assignee) =>
        var second := GeoLookup(first.state, assignee.location, geocoder);
        (second.state, Success(RichIssueOf(issue, now, user, first.point, assignee, second.point)))
  }

  /** A missing author or assignee gives `None` in every one of its fields,
      and no geocoding call is made for it. */
  lemma {:induction false} AbsentActorsNulled(s: GeoState, issue: Issue, now: string, geocoder: string -> GeoAnswer)
    requires Wellformed(s)
    requires issue.user.Some? && "login" in issue.user.value
    requires issue.userData.None? && issue.assignee.None?
    ensures var r := Enrich(s, issue, now, geocoder);
            && r.0 == s && r.1.Success?
            && r.1.value.user == NO_ROLE.(login := issue.user.value["login"])
            && r.1.value.userGeolocation.None? && r.1.value.authorName.None?
            && r.1.value.assignee == NO_ROLE && r.1.value.assigneeGeolocation.None?
  {
    var user := UserRole(issue).value;
    assert user == NO_ROLE.(login := issue.user.value["login"]);
    var first := GeoLookup(s, user.location, geocoder);
    assert first.state == s && first.point.None?;
    assert AssigneeRole(issue) == Success(NO_ROLE);
    var second := GeoLookup(first.state, NO_ROLE.location, geocoder);
    assert second.state == s && second.point.None?;
  }

  /** For an item at `https://github.com/<owner>/<repo>/<kind>/<number>` whose
      names hold neither `/` nor `:` and whose repository name does not end in
      `.git`, the derived fields are the expected parts of the URL. */
  lemma {:induction false} IssueUrlFields(owner: string, repo: string, kind: string, number: string)
    requires '/' !in owner && '/' !in repo && '/' !in kind && '/' !in number
    requires ':' !in owner && ':' !in repo
    requires !(|repo| >= 4 && repo[|repo| - 4..] == ".git")
    ensures var html := GITHUB + owner + "/" + repo + "/" + kind + "/" + number;
            && IdInRepo(html) == number
            && Repository(html) == GITHUB + owner + "/" + repo
            && GitHubRepo(Repository(html)) == owner + "/" + repo
            && UrlId(GitHubRepo(Repository(html)), IdInRepo(html)) == owner + "/" + repo + "/issues/" + number
  {
    UrlSplit(owner, repo, kind, number);
    OwnerRepoStripped(owner, repo);
  }

  /** Splitting an item URL on "/" gives back its seven pieces, so the id
      and the repository are the expected ones. */
  lemma UrlSplit(owner: string, repo: string, kind: string, number: string)
    requires '/' !in owner && '/' !in repo && '/' !in kind && '/' !in number
    ensures var html := GITHUB + owner + "/" + repo + "/" + kind + "/" + number;
            && IdInRepo(html) == number
            && Repository(html) == GITHUB + owner + "/" + repo
  {
    var pieces := ["https:", "", "github.com", owner, repo, kind, number];
    UrlJoin(owner, repo, kind, number);
    HostPiecesFree();
    Text.JoinSplit(pieces, '/');
  }

  /** The literal pieces of the GitHub prefix hold no "/". */
  lemma HostPiecesFree()
    ensures '/' !in "https:" && '/' !in "" && '/' !in "github.com"
  {
    var h := "https:";
    var g := "github.com";
    forall i | 0 <= i < |h| ensures h[i] != '/' { }
    forall i | 0 <= i < |g| ensures g[i] != '/' { }
  }

  /** The URL and the repository are the pieces joined by "/". */
  lemma UrlJoin(owner: string, repo: string, kind: string, number: string)
    ensures var pieces := ["https:", "", "github.com", owner, repo, kind, number];
            && Text.Join(pieces, "/") == GITHUB + owner + "/" + repo + "/" + kind + "/" + number
            && pieces[..5] == ["https:", "", "github.com", owner, repo]
            && Text.Join(pieces[..5], "/") == GITHUB + owner + "/" + repo
  {
    JoinSeven("https:", "", "github.com", owner, repo, kind, number);
    JoinFive("https:", "", "github.com", owner, repo);
    assert "https:" + "/" + "" + "/" + "github.com" + "/" == GITHUB;
  }

  /** `github_repo` of `GITHUB + owner + "/" + repo` is `owner/repo`. */
  lemma OwnerRepoStripped(owner: string, repo: string)
    requires ':' !in owner && ':' !in repo
    requires !(|repo| >= 4 && repo[|repo| - 4..] == ".git")
    ensures GitHubRepo(GITHUB + owner + "/" + repo) == owner + "/" + repo
  {
    var tail := owner + "/" + repo;
    assert GITHUB + owner + "/" + repo == GITHUB + tail;
    DropGitHubPrefix(tail);
    assert !(|tail| >= 4 && tail[|tail| - 4..] == ".git") by {
      if |repo| < 4 && |tail| >= 4 {
        assert tail[|tail| - 4..][3 - |repo|] == '/';
      } else if |repo| >= 4 {
        assert tail[|tail| - 4..] == repo[|repo| - 4..];
      }
    }
  }

  /** The source's own strip gives the same `owner/repo` when the repository
      name does not end in "git" and holds no newline, so the corrected strip
      only departs from it on names ending in "git". */
  lemma OwnerRepoStrippedAsWritten(owner: string, repo: string)
    requires ':' !in owner && ':' !in repo && '\n' !in repo
    requires !(|repo| >= 3 && repo[|repo| - 3..] == "git")
    ensures GitHubRepoAsWritten(GITHUB + owner + "/" + repo) == owner + "/" + repo
  {
    var tail := owner + "/" + repo;
    assert GITHUB + owner + "/" + repo == GITHUB + tail;
    DropGitHubPrefix(tail);
    var n := |tail|;
    assert tail[n - 1 - |repo|] == '/';
    assert !(n >= 4 && tail[n - 3..] == "git") by {
      if |repo| < 3 && n >= 4 {
        assert tail[n - 3..][2 - |repo|] == '/';
      } else if |repo| >= 3 {
        assert tail[n - 3..] == repo[|repo| - 3..];
      }
    }
    assert tail[n - 1] != '\n' by {
      if |repo| > 0 {
        assert tail[n - 1] == repo[|repo| - 1];
      }
    }
  }

  /** One step of `Join` on a list of at least two pieces. */
  lemma JoinCons(x: string, rest: seq<string>, sep: string)
    requires |rest| >= 1
    ensures Text.Join([x] + rest, sep) == x + sep + Text.Join(rest, sep)
  {
    assert ([x] + rest)[1..] == rest;
  }

  /** Five pieces joined by "/". */
  lemma JoinFive(a: string, b: string, c: string, d: string, e: string)
    ensures Text.Join([a, b, c, d, e], "/") == a + "/" + b + "/" + c + "/" + d + "/" + e
  {
    JoinCons(d, [e], "/");
    assert [d] + [e] == [d, e];
    JoinCons(c, [d, e], "/");
    assert [c] + [d, e] == [c, d, e];
    JoinCons(b, [c, d, e], "/");
    assert [b] + [c, d, e] == [b, c, d, e];
    JoinCons(a, [b, c, d, e], "/");
    assert [a] + [b, c, d, e] == [a, b, c, d, e];
  }

  /** Seven pieces joined by "/". */
  lemma JoinSeven(a: string, b: string, c: string, d: string, e: string, f: string, g: string)
    ensures Text.Join([a, b, c, d, e, f, g], "/") == a + "/" + b + "/" + c + "/" + d + "/" + e + "/" + f + "/" + g
  {
    JoinFive(c, d, e, f, g);
    JoinCons(b, [c, d, e, f, g], "/");
    assert [b] + [c, d, e, f, g] == [b, c, d, e, f, g];
    JoinCons(a, [b, c, d, e, f, g], "/");
    assert [a] + [b, c, d, e, f, g] == [a, b, c, d, e, f, g];
  }

  /** Removing the GitHub prefix from `GITHUB + t`, when `t` has no `:`. */
  lemma DropGitHubPrefix(t: string)
    requires ':' !in t
    ensures Text.RemoveAll(GITHUB + t, GITHUB) == t
  {
    var s := GITHUB + t;
    assert s[..|GITHUB|] == GITHUB && s[|GITHUB|..] == t;
    assert GITHUB[5] == ':';
    Text.AbsentByChar(GITHUB, t, 5);
    Text.RemoveAllAbsent(t, GITHUB);
  }

  /** The source's `.git$` strip cuts a repository name that merely ends in
      some character followed by "git": `isomorphic-git/isomorphic-git`
      becomes `isomorphic-git/isomorphic`; the corrected strip keeps it. */
  lemma UnescapedDotCutsRepositoryName()
    ensures GitHubRepoAsWritten(GITHUB + "isomorphic-git/isomorphic-git") == "isomorphic-git/isomorphic"
    ensures GitHubRepo(GITHUB + "isomorphic-git/isomorphic-git") == "isomorphic-git/isomorphic-git"
  {
    var t := "isomorphic-git/isomorphic-git";
    NoColonInExample();
    DropGitHubPrefix(t);
    assert t[|t| - 3..] == "git" && t[|t| - 4] == '-';
    assert t[..|t| - 4] == "isomorphic-git/isomorphic";
    assert t[|t| - 4..] == "-git";
  }

  lemma NoColonInExample()
    ensures ':' !in "isomorphic-git/isomorphic-git"
  {
    var t := "isomorphic-git/isomorphic-git";
    forall i | 0 <= i < |t|
      ensures t[i] != ':'
    {
    }
  }

  /** `labels += label['name'] + ";;"` over the label list. */
  method ConcatLabels(labels: Option<seq<string>>) returns (text: string)
    ensures text == LabelText(labels)
  {
    text := "";
    if labels.Some? {
      var names := labels.value;
      for i := 0 to |names|
        invariant text == Text.Terminated(names[..i], ";;")
      {
        Text.TerminatedSnoc(names[..i], names[i], ";;");
        assert names[..i + 1] == names[..i] + [names[i]];
        text := text + names[i] + ";;";
      }
      assert names[..|names|] == names;
    }
  }

  /** `get_rich_item` with the enricher's geolocation cache. */
  method GetRichItem(cache: GeoCache, issue: Issue, now: string, geocoder: string -> GeoAnswer)
    returns (r: Result<RichIssue>)
    requires cache.Valid()
    modifies cache
    ensures cache.Valid()
    ensures (cache.State(), r) == Enrich(old(cache.State()), issue, now, geocoder)
  {
    var userRole := UserRole(issue);
    if userRole.Failure? {
      return Failure(userRole.error);
    }
    var user := userRole.value;
    var userGeo := cache.GetGeoPoint(user.location, geocoder);
    var assigneeRole := AssigneeRole(issue);
    if assigneeRole.Failure? {
      return Failure(assigneeRole.error);
    }
    var assignee := assigneeRole.value;
    var assigneeGeo := cache.GetGeoPoint(assignee.location, geocoder);
    var labels := ConcatLabels(issue.labels);
    var rich := RichIssueOf(issue, now, user, userGeo, assignee, assigneeGeo);
    assert rich.labels == labels;
    r := Success(rich);
  }
}
