/** GitHub user dicts: the identity the GitHub enricher hands to SortingHat
    (`GitHubEnrich.get_sh_identity`) and the organisation text of the
    `GitHubUser` helper (`GitHubUser._getOrg`). */
module GitHubActors {
  import opened Values
  import Text

  /** A GitHub user dict as the raw items carry it (`user`, `user_data`,
      `assignee`, `assignee_data`): field name -> string or `null`. */
  type Actor = map<string, Option<string>>

  /** The value of an optional field: `None` when the key is missing. */
  function FieldOrNone(a: Actor, key: string): (v: Option<string>)
    ensures key !in a ==> v.None?
    ensures key in a ==> v == a[key]
  {
    if key in a then a[key] else None
  }

  /** `get_sh_identity(user)` for a user dict: `{}` (here `None`) for an empty
      dict, otherwise `username` from `login`, with `email` and `name` set only
      when the dict has those keys. A `None` user makes `'data' in user` raise a
      TypeError; a non-empty dict without `login` raises a KeyError. */
  function ShIdentity(user: Option<Actor>): (r: Result<Option<Identity>>)
    ensures user.None? ==> r.Failure? && r.error.TypeError?
    ensures user.Some? && |user.value| == 0 ==> r == Success(None)
    ensures user.Some? && |user.value| > 0 ==>
      (r.Success? <==> "login" in user.value) && (r.Success? ==> r.value.Some?)
    ensures r.Success? && r.value.Some? ==>
      && r.value.value.username == user.value["login"]
      && ("email" !in user.value ==> r.value.value.email.None?)
      && ("name" !in user.value ==> r.value.value.name.None?)
      && ("email" in user.value ==> r.value.value.email == user.value["email"])
      && ("name" in user.value ==> r.value.value.name == user.value["name"])
  {
    match user
    case None => Failure(TypeError("argument of type 'NoneType' is not iterable"))
    case Some(u) =>
      if |u| == 0 then Success(None)
      else if "login" !in u then Failure(KeyError("login"))
      else Success(Some(Identity(u["login"], FieldOrNone(u, "email"), FieldOrNone(u, "name"))))
  }

  /** Python's `s[:-2]`. */
  function DropLastTwo(s: string): (r: string)
    ensures |s| >= 2 ==> r == s[..|s| - 2]
    ensures |s| < 2 ==> r == ""
  {
    if |s| >= 2 then s[..|s| - 2] else ""
  }

  /** `GitHubUser._getOrg`. `company` is the `company` attribute, `None` when
      the user dict had no `company` key and the attribute was never set (the
      method then raises AttributeError); `orgLogins` are the `login`s of
      `orgs`. A truthy company is the answer; otherwise the logins are
      accumulated as `login + ";;"` and the last two characters dropped, which
      is the logins joined by ";;". */
  method GetOrg(company: Option<Option<string>>, orgLogins: seq<string>) returns (r: Result<string>)
    ensures r.Failure? <==> company.None?
    ensures company.Some? && Truthy(company.value) ==> r == Success(company.value.value)
    ensures company.Some? && !Truthy(company.value) ==> r == Success(Text.Join(orgLogins, ";;"))
  {
    if company.None? {
      return Failure(AttributeError("company"));
    }
    var org: Option<string> := None;
    if Truthy(company.value) {
      org := company.value;
    }
    if org.None? {
      var acc := "";
      for i := 0 to |orgLogins|
        invariant acc == Text.Terminated(orgLogins[..i], ";;")
      {
        Text.TerminatedSnoc(orgLogins[..i], orgLogins[i], ";;");
        assert orgLogins[..i + 1] == orgLogins[..i] + [orgLogins[i]];
        acc := acc + orgLogins[i] + ";;";
      }
      assert orgLogins[..|orgLogins|] == orgLogins;
      if |orgLogins| > 0 {
        Text.TerminatedIsJoinPlusSep(orgLogins, ";;");
      }
      org := Some(DropLastTwo(acc));
    }
    r := Success(org.value);
  }
}
