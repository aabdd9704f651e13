/** The projects file conversion script (`mordred/scripts/projects_format.py`):
    from the old format, project -> data source -> list of repository dicts,
    to the new one, project -> data source -> list of repository URLs, keeping
    only the `git` and `github` data sources. Reading the file and printing
    the JSON are outside the model. */
module ProjectsFormat {
  import opened Values

  /** The data sources kept (`ds_supported`). */
  const SUPPORTED: set<string> := {"git", "github"}

  type Repo = map<string, string>
  type OldProject = map<string, seq<Repo>>
  type NewProject = map<string, seq<string>>

  /** The `url` of every repository, in order; a repository without one
      raises KeyError. */
  function RepoUrls(repos: seq<Repo>): (r: Result<seq<string>>)
    ensures r.Success? <==> forall k :: 0 <= k < |repos| ==> "url" in repos[k]
    ensures r.Failure? ==> r.error == KeyError("url")
    ensures r.Success? ==> |r.value| == |repos| && forall k :: 0 <= k < |repos| ==> r.value[k] == repos[k]["url"]
  {
    if forall k :: 0 <= k < |repos| ==> "url" in repos[k] then
      Success(seq(|repos|, i requires 0 <= i < |repos| => repos[i]["url"]))
    else Failure(KeyError("url"))
  }

  /** A project converted: its supported data sources, each with its URLs. */
  function ConvertProject(p: OldProject): (r: Result<NewProject>)
    ensures r.Success? <==> forall ds :: ds in p && ds in SUPPORTED ==> RepoUrls(p[ds]).Success?
    ensures r.Failure? ==> r.error == KeyError("url")
    ensures r.Success? ==> r.value.Keys == p.Keys * SUPPORTED
    ensures r.Success? ==> forall ds :: ds in r.value ==> Success(r.value[ds]) == RepoUrls(p[ds])
  {
    if forall ds :: ds in p && ds in SUPPORTED ==> RepoUrls(p[ds]).Success? then
      Success(map ds | ds in p && ds in SUPPORTED :: RepoUrls(p[ds]).value)
    else Failure(KeyError("url"))
  }

  /** The whole file converted: every project is kept, even one left with no
      data source. */
  function Convert(projectsOld: map<string, OldProject>): (r: Result<map<string, NewProject>>)
    ensures r.Success? <==> forall p :: p in projectsOld ==> ConvertProject(projectsOld[p]).Success?
    ensures r.Failure? ==> r.error == KeyError("url")
    ensures r.Success? ==> r.value.Keys == projectsOld.Keys
    ensures r.Success? ==> forall p :: p in r.value ==> Success(r.value[p]) == ConvertProject(projectsOld[p])
  {
    if forall p :: p in projectsOld ==> ConvertProject(projectsOld[p]).Success? then
      Success(map p | p in projectsOld :: ConvertProject(projectsOld[p]).value)
    else Failure(KeyError("url"))
  }

  /** A project with no supported data source becomes an empty dict. */
  lemma UnsupportedOnlyIsEmpty(p: OldProject)
    requires forall ds :: ds in p ==> ds !in SUPPORTED
    ensures ConvertProject(p) == Success(map[])
  {
    assert p.Keys * SUPPORTED == {};
  }

  /** Converting the converted file again (each URL as a `url` dict) gives
      the same result: the new format is a fixed point. */
  lemma ConvertIdempotent(projectsOld: map<string, OldProject>)
    requires Convert(projectsOld).Success?
    ensures Convert(AsOld(Convert(projectsOld).value)) == Convert(projectsOld)
  {
    var n := Convert(projectsOld).value;
    forall p | p in n
      ensures ConvertProject(AsOld(n)[p]) == Success(n[p])
    {
      assert AsOld(n)[p] == ProjectAsOld(n[p]);
      ProjectRoundTrip(n[p]);
    }
    assert Convert(AsOld(n)).value == n;
  }

  /** A converted project written back and converted again is unchanged. */
  lemma ProjectRoundTrip(np: NewProject)
    requires np.Keys <= SUPPORTED
    ensures ConvertProject(ProjectAsOld(np)) == Success(np)
  {
    var op := ProjectAsOld(np);
    forall ds | ds in op && ds in SUPPORTED
      ensures RepoUrls(op[ds]) == Success(np[ds])
    {
      assert |op[ds]| == |np[ds]|;
      assert RepoUrls(op[ds]).value == np[ds];
    }
    assert ConvertProject(op).value == np;
  }

  function ProjectAsOld(np: NewProject): OldProject {
    map ds | ds in np :: seq(|np[ds]|, i requires 0 <= i < |np[ds]| => map["url" := np[ds][i]])
  }

  /** The new format written back in the old shape, each URL as `{"url": url}`. */
  function AsOld(n: map<string, NewProject>): map<string, OldProject> {
    map p | p in n :: ProjectAsOld(n[p])
  }

  /** The repository loop: `url` of each repository appended in order. */
  method CollectUrls(repos: seq<Repo>) returns (r: Result<seq<string>>)
    ensures r == RepoUrls(repos)
  {
    var urls: seq<string> := [];
    for i := 0 to |repos|
      invariant |urls| == i && forall k :: 0 <= k < i ==> "url" in repos[k] && urls[k] == repos[k]["url"]
    {
      if "url" !in repos[i] {
        return Failure(KeyError("url"));
      }
      urls := urls + [repos[i]["url"]];
    }
    assert urls == RepoUrls(repos).value;
    r := Success(urls);
  }

  /** The data source loop of one project. */
  method FormatProject(p: OldProject) returns (r: Result<NewProject>)
    ensures r == ConvertProject(p)
  {
    var project: NewProject := map[];
    var todo := p.Keys;
    while todo != {}
      invariant todo <= p.Keys
      invariant project.Keys == (p.Keys - todo) * SUPPORTED
      invariant forall ds :: ds in project ==> Success(project[ds]) == RepoUrls(p[ds])
      decreases todo
    {
      var ds :| ds in todo;
      if ds in SUPPORTED {
        var urls := CollectUrls(p[ds]);
        if urls.Failure? {
          return Failure(urls.error);
        }
        project := project[ds := urls.value];
      }
      todo := todo - {ds};
    }
    r := Success(project);
    assert r.value == ConvertProject(p).value;
  }

  /** The project loop of the script. */
  method FormatProjects(projectsOld: map<string, OldProject>) returns (r: Result<map<string, NewProject>>)
    ensures r == Convert(projectsOld)
  {
    var projects: map<string, NewProject> := map[];
    var todo := projectsOld.Keys;
    while todo != {}
      invariant todo <= projectsOld.Keys
      invariant projects.Keys == projectsOld.Keys - todo
      invariant forall p :: p in projects ==> Success(projects[p]) == ConvertProject(projectsOld[p])
      decreases todo
    {
      var p :| p in todo;
      var project := FormatProject(projectsOld[p]);
      if project.Failure? {
        return Failure(project.error);
      }
      projects := projects[p := project.value];
      todo := todo - {p};
    }
    r := Success(projects);
    assert r.value == Convert(projectsOld).value;
  }
}
