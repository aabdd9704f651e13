/** The raw Gerrit review as the Gerrit enricher sees it, the identities it
    hands to SortingHat (`GerritEnrich.get_sh_identity`,
    `GerritEnrich.get_identities`), the `origin_repository` key of a review
    (`get_project_repository`), and the in-place conversion of its Unix
    timestamps to ISO text (`_fix_review_dates`). */
module GerritReview {
  import opened Values
  import opened Seqs
  import Text

  /** A Gerrit account dict (`owner`, `uploader`, `author`, `by`, `reviewer`). */
  type GerritUser = map<string, string>

  /** A date field: a Unix timestamp as Gerrit sends it, or the ISO text
      `unixtime_to_datetime(ts).isoformat()` made of it. Both carry the
      instant in seconds; the text itself is not modelled. */
  datatype Stamp = Unix(seconds: int) | Iso(seconds: int)

  /** An approval; `approver` is its `by` dict. */
  datatype Approval = Approval(approver: GerritUser, grantedOn: Stamp)

  datatype PatchSet = PatchSet(
    uploader: GerritUser,
    author: Option<GerritUser>,          // present when the key `author` is
    approvals: Option<seq<Approval>>,    // present when the key `approvals` is
    createdOn: Stamp)

  datatype Comment = Comment(reviewer: Option<GerritUser>, message: string, timestamp: Stamp)

  /** The `data` of a raw Gerrit item; an `Option` field is one whose key may be missing. */
  datatype Review = Review(
    owner: GerritUser,
    status: string,
    branch: string,
    url: string,
    subject: string,
    id: string,
    project: string,
    number: string,
    timestamp: Option<Stamp>,
    createdOn: Option<Stamp>,
    lastUpdated: Option<Stamp>,
    patchSets: Option<seq<PatchSet>>,
    comments: Option<seq<Comment>>)

  /** A raw item: the review and the `metadata__updated_on` of its envelope. */
  datatype RawItem = RawItem(metadataUpdatedOn: string, data: Review)

  /** The value of an optional key of an account dict. */
  function Field(user: GerritUser, key: string): (v: Option<string>)
    ensures v.Some? <==> key in user
    ensures v.Some? ==> v.value == user[key]
  {
    if key in user then Some(user[key]) else None
  }

  /** `get_sh_identity(user)`: `name`, `email` and `username` are each `None`
      unless the dict has that key. */
  function ShIdentity(user: GerritUser): (r: Identity)
    ensures r.name.Some? <==> "name" in user
    ensures r.email.Some? <==> "email" in user
    ensures r.username.Some? <==> "username" in user
    ensures r.name.Some? ==> r.name.value == user["name"]
    ensures r.email.Some? ==> r.email.value == user["email"]
    ensures r.username.Some? ==> r.username.value == user["username"]
  {
    Identity(Field(user, "username"), Field(user, "email"), Field(user, "name"))
  }

  /** `get_project_repository`: the origin, "_", then the repository. */
  function ProjectRepository(origin: string, repository: string): string {
    origin + "_" + repository
  }

  /** For origins without "_", different (origin, repository) pairs get
      different keys. */
  lemma ProjectRepositoryInjective(o1: string, r1: string, o2: string, r2: string)
    requires '_' !in o1 && '_' !in o2
    requires ProjectRepository(o1, r1) == ProjectRepository(o2, r2)
    ensures o1 == o2 && r1 == r2
  {
    assert ProjectRepository(o1, r1) == o1 + ("_" + r1);
    assert ProjectRepository(o2, r2) == o2 + ("_" + r2);
    Text.SeparatedPartsUnique(o1, "_" + r1, o2, "_" + r2, '_');
    assert r1 == ("_" + r1)[1..] && r2 == ("_" + r2)[1..];
  }

  /** The users of a patch set, in the order they are yielded: the uploader,
      the author when present, then the approvers. */
  function PatchSetUsers(p: PatchSet): (r: seq<GerritUser>)
    ensures |r| == 1 + (if p.author.Some? then 1 else 0) + |p.approvals.GetOr([])|
    ensures r[0] == p.uploader
    ensures p.author.Some? ==> r[1] == p.author.value
    ensures var approvals := p.approvals.GetOr([]);
            forall k :: 0 <= k < |approvals| ==> r[|r| - |approvals| + k] == approvals[k].approver
  {
    var approvals := p.approvals.GetOr([]);
    [p.uploader] + (if p.author.Some? then [p.author.value] else [])
      + seq(|approvals|, i requires 0 <= i < |approvals| => approvals[i].approver)
  }

  /** The users of all patch sets, in order. */
  function PatchSetsUsers(ps: seq<PatchSet>): seq<GerritUser>
    decreases |ps|
  {
    if |ps| == 0 then [] else PatchSetUsers(ps[0]) + PatchSetsUsers(ps[1..])
  }

  /** What a generator has produced: the values yielded, and the error that
      ended it early, if any. */
  datatype Yielded<T> = Yielded(values: seq<T>, error: Option<Error>)

  /** The comment reviewers: a comment without `reviewer` raises KeyError
      after the earlier reviewers have been yielded. */
  function CommentUsers(cs: seq<Comment>): (r: Yielded<GerritUser>)
    ensures r.error.None? <==> forall k :: 0 <= k < |cs| ==> cs[k].reviewer.Some?
    ensures |r.values| <= |cs|
    ensures r.error.None? ==> |r.values| == |cs|
    ensures r.error.Some? ==> r.error.value == KeyError("reviewer")
    // the reviewers are yielded in order, up to the first comment without one
    ensures forall k :: 0 <= k < |r.values| ==> cs[k].reviewer.Some? && r.values[k] == cs[k].reviewer.value
    ensures r.error.Some? ==> |r.values| < |cs| && cs[|r.values|].reviewer.None?
    decreases |cs|
  {
    if |cs| == 0 then Yielded([], None)
    else if cs[0].reviewer.None? then Yielded([], Some(KeyError("reviewer")))
    else
      var rest := CommentUsers(cs[1..]);
      assert forall k :: 1 <= k < |cs| ==> cs[k] == cs[1..][k - 1];
      Yielded([cs[0].reviewer.value] + rest.values, rest.error)
  }

  /** `get_identities`: the owner, the users of every patch set, then the
      comment reviewers, each through `get_sh_identity`. */
  function ReviewIdentities(review: Review): (r: Yielded<Identity>)
    ensures var users := PatchSetsUsers(review.patchSets.GetOr([]));
            var comments := review.comments.GetOr([]);
            var reviewers := CommentUsers(comments);
            && |r.values| == 1 + |users| + |reviewers.values|
            && r.values[0] == ShIdentity(review.owner)
            && (forall k :: 0 <= k < |users| ==> r.values[1 + k] == ShIdentity(users[k]))
            && (forall k :: 0 <= k < |reviewers.values| ==>
                  r.values[1 + |users| + k] == ShIdentity(comments[k].reviewer.value))
            && r.error == reviewers.error
  {
    var users := PatchSetsUsers(review.patchSets.GetOr([]));
    var reviewers := CommentUsers(review.comments.GetOr([]));
    IdentitiesOfAll(review.owner, users, reviewers.values);
    Yielded([ShIdentity(review.owner)] + Identities(users) + Identities(reviewers.values), reviewers.error)
  }

  /** The identities of the owner, then of two lists of users. */
  lemma IdentitiesOfAll(owner: GerritUser, users: seq<GerritUser>, more: seq<GerritUser>)
    ensures var r := [ShIdentity(owner)] + Identities(users) + Identities(more);
            && |r| == 1 + |users| + |more|
            && r[0] == ShIdentity(owner)
            && (forall k :: 0 <= k < |users| ==> r[1 + k] == ShIdentity(users[k]))
            && (forall k :: 0 <= k < |more| ==> r[1 + |users| + k] == ShIdentity(more[k]))
  {
    ConcatThree([ShIdentity(owner)], Identities(users), Identities(more));
  }

  /** The identity of each user, in order. */
  function Identities(users: seq<GerritUser>): (r: seq<Identity>)
    ensures |r| == |users| && forall k {:trigger users[k]} :: 0 <= k < |users| ==> r[k] == ShIdentity(users[k])
  {
    seq(|users|, i requires 0 <= i < |users| => ShIdentity(users[i]))
  }

  /** The number of users a patch set contributes. */
  function PatchSetCount(p: PatchSet): nat {
    1 + (if p.author.Some? then 1 else 0) + |p.approvals.GetOr([])|
  }

  function PatchSetCounts(ps: seq<PatchSet>): (r: seq<int>)
    ensures |r| == |ps|
    ensures forall k :: 0 <= k < |ps| ==> r[k] == PatchSetCount(ps[k])
  {
    seq(|ps|, i requires 0 <= i < |ps| => PatchSetCount(ps[i]) as int)
  }

  lemma {:induction false} PatchSetsUsersCount(ps: seq<PatchSet>)
    ensures |PatchSetsUsers(ps)| == Sum(PatchSetCounts(ps))
    decreases |ps|
  {
    if |ps| > 0 {
      PatchSetsUsersCount(ps[1..]);
      assert PatchSetCounts(ps)[1..] == PatchSetCounts(ps[1..]);
    }
  }

  /** A review whose comments all have a reviewer yields one identity for the
      owner, one per uploader, author and approval, and one per comment. */
  lemma IdentityCount(review: Review)
    requires forall k :: 0 <= k < |review.comments.GetOr([])| ==> review.comments.GetOr([])[k].reviewer.Some?
    ensures ReviewIdentities(review).error.None?
    ensures |ReviewIdentities(review).values|
      == 1 + Sum(PatchSetCounts(review.patchSets.GetOr([]))) + |review.comments.GetOr([])|
  {
    PatchSetsUsersCount(review.patchSets.GetOr([]));
  }

  /** `unixtime_to_datetime(ts).isoformat()`: an ISO text cannot be
      converted again (`InvalidDateError`). */
  function ToIso(s: Stamp): (r: Result<Stamp>)
    ensures r.Success? <==> s.Unix?
    ensures r.Success? ==> r.value == Iso(s.seconds)
  {
    match s
    case Unix(sec) => Success(Iso(sec))
    case Iso(_) => Failure(DateError)
  }

  /** An optional date field converted when present. */
  function ToIsoIfPresent(s: Option<Stamp>): (r: Result<Option<Stamp>>)
    ensures r.Success? <==> s.None? || s.value.Unix?
    ensures r.Success? ==> (r.value.Some? <==> s.Some?)
    ensures r.Success? && s.Some? ==> r.value.value == Iso(s.value.seconds)
  {
    match s
    case None => Success(None)
    case Some(st) => var iso :- ToIso(st); Success(Some(iso))
  }

  function FixApprovals(approvals: seq<Approval>): (r: Result<seq<Approval>>)
    ensures r.Success? <==> forall k :: 0 <= k < |approvals| ==> approvals[k].grantedOn.Unix?
    ensures r.Success? ==> |r.value| == |approvals| && forall k :: 0 <= k < |approvals| ==>
      r.value[k] == approvals[k].(grantedOn := Iso(approvals[k].grantedOn.seconds))
    decreases |approvals|
  {
    if |approvals| == 0 then Success([])
    else
      var init := approvals[..|approvals| - 1];
      assert forall k :: 0 <= k < |init| ==> init[k] == approvals[k];
      var fixed :- FixApprovals(init);
      var last := approvals[|approvals| - 1];
      var g :- ToIso(last.grantedOn);
      Success(fixed + [last.(grantedOn := g)])
  }

  /** One patch set with its `createdOn` and its approvals' `grantedOn` converted. */
  function FixPatchSet(p: PatchSet): (r: Result<PatchSet>)
    ensures r.Success? <==> PatchSetUnix(p)
    ensures r.Success? ==>
      && r.value.uploader == p.uploader && r.value.author == p.author
      && r.value.createdOn == Iso(p.createdOn.seconds)
      && (r.value.approvals.Some? <==> p.approvals.Some?)
      && (p.approvals.Some? ==>
            && |r.value.approvals.value| == |p.approvals.value|
            && forall k :: 0 <= k < |p.approvals.value| ==>
                 r.value.approvals.value[k] == p.approvals.value[k].(grantedOn := Iso(p.approvals.value[k].grantedOn.seconds)))
  {
    var created :- ToIso(p.createdOn);
    match p.approvals
    case None => Success(p.(createdOn := created))
    case Some(approvals) =>
      var fixed :- FixApprovals(approvals);
      Success(p.(createdOn := created, approvals := Some(fixed)))
  }

  function FixPatchSets(ps: seq<PatchSet>): (r: Result<seq<PatchSet>>)
    ensures r.Success? ==> |r.value| == |ps| && forall k :: 0 <= k < |ps| ==> FixPatchSet(ps[k]) == Success(r.value[k])
    ensures r.Success? <==> forall k :: 0 <= k < |ps| ==> FixPatchSet(ps[k]).Success?
    decreases |ps|
  {
    if |ps| == 0 then Success([])
    else
      var init := ps[..|ps| - 1];
      assert forall k :: 0 <= k < |init| ==> init[k] == ps[k];
      var fixed :- FixPatchSets(init);
      var last :- FixPatchSet(ps[|ps| - 1]);
      Success(fixed + [last])
  }

  function FixComments(cs: seq<Comment>): (r: Result<seq<Comment>>)
    ensures r.Success? <==> forall k :: 0 <= k < |cs| ==> cs[k].timestamp.Unix?
    ensures r.Success? ==> |r.value| == |cs| && forall k :: 0 <= k < |cs| ==>
      r.value[k] == cs[k].(timestamp := Iso(cs[k].timestamp.seconds))
    decreases |cs|
  {
    if |cs| == 0 then Success([])
    else
      var init := cs[..|cs| - 1];
      assert forall k :: 0 <= k < |init| ==> init[k] == cs[k];
      var fixed :- FixComments(init);
      var last := cs[|cs| - 1];
      var t :- ToIso(last.timestamp);
      Success(fixed + [last.(timestamp := t)])
  }

  /** `_fix_review_dates`: every date of the review converted to ISO text,
      or the error of the first that cannot be. */
  function FixedDates(r: Review): (f: Result<Review>)
    // the conversion keeps the number of comments
    ensures f.Success? ==> |f.value.comments.GetOr([])| == |r.comments.GetOr([])|
  {
    var timestamp :- ToIsoIfPresent(r.timestamp);
    var createdOn :- ToIsoIfPresent(r.createdOn);
    var lastUpdated :- ToIsoIfPresent(r.lastUpdated);
    var patchSets :- FixOptionalPatchSets(r.patchSets);
    var comments :- FixOptionalComments(r.comments);
    Success(r.(timestamp := timestamp, createdOn := createdOn, lastUpdated := lastUpdated,
               patchSets := patchSets, comments := comments))
  }

  /** The `patchSets` key converted when the review has one. */
  function FixOptionalPatchSets(ps: Option<seq<PatchSet>>): Result<Option<seq<PatchSet>>> {
    match ps
    case None => Success(None)
    case Some(ps) => var f :- FixPatchSets(ps); Success(Some(f))
  }

  /** The `comments` key converted when the review has one. */
  function FixOptionalComments(cs: Option<seq<Comment>>): Result<Option<seq<Comment>>> {
    match cs
    case None => Success(None)
    case Some(cs) => var f :- FixComments(cs); Success(Some(f))
  }

  /** Every date of a review is a Unix timestamp, as Gerrit sends them. */
  predicate AllUnix(r: Review) {
    && (r.timestamp.Some? ==> r.timestamp.value.Unix?)
    && (r.createdOn.Some? ==> r.createdOn.value.Unix?)
    && (r.lastUpdated.Some? ==> r.lastUpdated.value.Unix?)
    && (r.patchSets.Some? ==> forall k :: 0 <= k < |r.patchSets.value| ==> PatchSetUnix(r.patchSets.value[k]))
    && (r.comments.Some? ==> forall k :: 0 <= k < |r.comments.value| ==> r.comments.value[k].timestamp.Unix?)
  }

  predicate PatchSetUnix(p: PatchSet) {
    && p.createdOn.Unix?
    && (p.approvals.Some? ==> forall k :: 0 <= k < |p.approvals.value| ==> p.approvals.value[k].grantedOn.Unix?)
  }

  predicate PatchSetIso(p: PatchSet) {
    && p.createdOn.Iso?
    && (p.approvals.Some? ==> forall k :: 0 <= k < |p.approvals.value| ==> p.approvals.value[k].grantedOn.Iso?)
  }

  /** Every date of a review is ISO text. */
  predicate AllIso(r: Review) {
    && (r.timestamp.Some? ==> r.timestamp.value.Iso?)
    && (r.createdOn.Some? ==> r.createdOn.value.Iso?)
    && (r.lastUpdated.Some? ==> r.lastUpdated.value.Iso?)
    && (r.patchSets.Some? ==> forall k :: 0 <= k < |r.patchSets.value| ==> PatchSetIso(r.patchSets.value[k]))
    && (r.comments.Some? ==> forall k :: 0 <= k < |r.comments.value| ==> r.comments.value[k].timestamp.Iso?)
  }

  /** A review as Gerrit sends it is converted: every date becomes ISO text
      of the same instant, and no other field changes. */
  lemma FixedDatesConverts(r: Review)
    requires AllUnix(r)
    ensures FixedDates(r).Success?
    ensures var f := FixedDates(r).value;
      && AllIso(f)
      && f.owner == r.owner && f.status == r.status && f.branch == r.branch && f.url == r.url
      && f.subject == r.subject && f.id == r.id && f.project == r.project && f.number == r.number
      && (f.timestamp.Some? <==> r.timestamp.Some?)
      && (f.timestamp.Some? ==> f.timestamp.value == Iso(r.timestamp.value.seconds))
      && (f.createdOn.Some? <==> r.createdOn.Some?)
      && (f.createdOn.Some? ==> f.createdOn.value == Iso(r.createdOn.value.seconds))
      && (f.lastUpdated.Some? <==> r.lastUpdated.Some?)
      && (f.lastUpdated.Some? ==> f.lastUpdated.value == Iso(r.lastUpdated.value.seconds))
      && (f.patchSets.Some? <==> r.patchSets.Some?)
      && (f.patchSets.Some? ==>
          && |f.patchSets.value| == |r.patchSets.value|
          && forall k :: 0 <= k < |f.patchSets.value| ==> f.patchSets.value[k] == FixPatchSet(r.patchSets.value[k]).value)
      && (f.comments.Some? <==> r.comments.Some?)
      && (f.comments.Some? ==>
          && |f.comments.value| == |r.comments.value|
          && forall k :: 0 <= k < |f.comments.value| ==>
               f.comments.value[k] == r.comments.value[k].(timestamp := Iso(r.comments.value[k].timestamp.seconds)))
  {
    if r.patchSets.Some? {
      var ps := r.patchSets.value;
      forall k | 0 <= k < |ps|
        ensures FixPatchSet(ps[k]).Success?
      {
        assert PatchSetUnix(ps[k]);
      }
    }
  }

  /** The conversion is done in place on the raw item, so converting the
      same review a second time fails once it has any date. */
  lemma FixingTwiceFails(r: Review)
    requires FixedDates(r).Success?
    requires r.createdOn.Some?
    ensures FixedDates(FixedDates(r).value).Failure?
  {
  }

  /** A raw Gerrit item held by the enricher; `_fix_review_dates` rewrites
      its `data` in place. */
  class RawReview {
    var data: Review
    const metadataUpdatedOn: string

    constructor(item: RawItem)
      ensures data == item.data && metadataUpdatedOn == item.metadataUpdatedOn
    {
      data := item.data;
      metadataUpdatedOn := item.metadataUpdatedOn;
    }

    /** `_fix_review_dates`: the review's own dates, then each patch set's
        `createdOn` and its approvals' `grantedOn`, then each comment's
        `timestamp`. When a date cannot be converted the error is returned
        and the review is left partly converted. */
    method FixReviewDates() returns (err: Option<Error>)
      modifies this
      ensures err.None? <==> FixedDates(old(data)).Success?
      ensures err.None? ==> data == FixedDates(old(data)).value
      ensures err.Some? ==> err.value == FixedDates(old(data)).error
    {
      var review := data;
      var timestamp := ToIsoIfPresent(review.timestamp);
      if timestamp.Failure? { return Some(timestamp.error); }
      data := data.(timestamp := timestamp.value);
      var createdOn := ToIsoIfPresent(review.createdOn);
      if createdOn.Failure? { return Some(createdOn.error); }
      data := data.(createdOn := createdOn.value);
      var lastUpdated := ToIsoIfPresent(review.lastUpdated);
      if lastUpdated.Failure? { return Some(lastUpdated.error); }
      data := data.(lastUpdated := lastUpdated.value);
      err := FixPatchSetDates();
      if err.Some? { return; }
      err := FixCommentDates();
    }

    /** The patch set loop of `_fix_review_dates`: each patch set's
        `createdOn` and its approvals' `grantedOn`, in order. */
    method FixPatchSetDates() returns (err: Option<Error>)
      modifies this
      ensures var f := FixOptionalPatchSets(old(data).patchSets);
              && (err.None? <==> f.Success?)
              && (err.None? ==> data == old(data).(patchSets := f.value))
              && (err.Some? ==> err.value == f.error)
    {
      if data.patchSets.None? { return None; }
      ghost var before := data;
      var ps := data.patchSets.value;
      var fixed: seq<PatchSet> := [];
      assert fixed + ps[0..] == ps;
      for i := 0 to |ps|
        invariant FixPatchSets(ps[..i]) == Success(fixed)
        invariant data == before.(patchSets := Some(fixed + ps[i..]))
      {
        assert ps[..i + 1][..i] == ps[..i];
        var patch := FixOnePatchSet(ps[i]);
        if patch.Failure? {
          FixPatchSetsPrefixFails(ps, i + 1);
          return Some(patch.error);
        }
        fixed := fixed + [patch.value];
        assert fixed + ps[i + 1..] == fixed[..i] + [patch.value] + ps[i + 1..];
        data := data.(patchSets := Some(fixed + ps[i + 1..]));
      }
      assert ps[..|ps|] == ps;
      assert fixed + ps[|ps|..] == fixed;
      err := None;
    }

    /** The comment loop of `_fix_review_dates`: each comment's `timestamp`, in order. */
    method FixCommentDates() returns (err: Option<Error>)
      modifies this
      ensures var f := FixOptionalComments(old(data).comments);
              && (err.None? <==> f.Success?)
              && (err.None? ==> data == old(data).(comments := f.value))
              && (err.Some? ==> err.value == f.error)
    {
      if data.comments.None? { return None; }
      ghost var before := data;
      var cs := data.comments.value;
      var fixed: seq<Comment> := [];
      assert fixed + cs[0..] == cs;
      for i := 0 to |cs|
        invariant FixComments(cs[..i]) == Success(fixed)
        invariant data == before.(comments := Some(fixed + cs[i..]))
      {
        assert cs[..i + 1][..i] == cs[..i];
        var t := ToIso(cs[i].timestamp);
        if t.Failure? {
          FixCommentsPrefixFails(cs, i + 1);
          return Some(t.error);
        }
        fixed := fixed + [cs[i].(timestamp := t.value)];
        data := data.(comments := Some(fixed + cs[i + 1..]));
      }
      assert cs[..|cs|] == cs;
      assert fixed + cs[|cs|..] == fixed;
      err := None;
    }
  }

  /** One patch set converted, approvals in order. */
  method FixOnePatchSet(p: PatchSet) returns (r: Result<PatchSet>)
    ensures r == FixPatchSet(p)
  {
    var created := ToIso(p.createdOn);
    if created.Failure? {
      return Failure(created.error);
    }
    if p.approvals.None? {
      return Success(p.(createdOn := created.value));
    }
    var approvals := p.approvals.value;
    var fixed: seq<Approval> := [];
    for i := 0 to |approvals|
      invariant FixApprovals(approvals[..i]) == Success(fixed)
    {
      assert approvals[..i + 1][..i] == approvals[..i];
      var g := ToIso(approvals[i].grantedOn);
      if g.Failure? {
        FirstFailureApprovals(approvals, i + 1);
        return Failure(g.error);
      }
      fixed := fixed + [approvals[i].(grantedOn := g.value)];
    }
    assert approvals[..|approvals|] == approvals;
    r := Success(p.(createdOn := created.value, approvals := Some(fixed)));
  }

  /** The error of the conversion is that of its first failing element, so
      any prefix that already fails decides it. */
  lemma {:induction false} FirstFailureApprovals(approvals: seq<Approval>, n: nat)
    requires n <= |approvals| && FixApprovals(approvals[..n]).Failure?
    ensures FixApprovals(approvals) == FixApprovals(approvals[..n])
    decreases |approvals| - n
  {
    if n < |approvals| {
      assert approvals[..n + 1][..n] == approvals[..n];
      FirstFailureApprovals(approvals, n + 1);
    } else {
      assert approvals[..n] == approvals;
    }
  }

  lemma {:induction false} FixPatchSetsPrefixFails(ps: seq<PatchSet>, n: nat)
    requires n <= |ps| && FixPatchSets(ps[..n]).Failure?
    ensures FixPatchSets(ps) == FixPatchSets(ps[..n])
    decreases |ps| - n
  {
    if n < |ps| {
      assert ps[..n + 1][..n] == ps[..n];
      FixPatchSetsPrefixFails(ps, n + 1);
    } else {
      assert ps[..n] == ps;
    }
  }

  lemma {:induction false} FixCommentsPrefixFails(cs: seq<Comment>, n: nat)
    requires n <= |cs| && FixComments(cs[..n]).Failure?
    ensures FixComments(cs) == FixComments(cs[..n])
    decreases |cs| - n
  {
    if n < |cs| {
      assert cs[..n + 1][..n] == cs[..n];
      FixCommentsPrefixFails(cs, n + 1);
    } else {
      assert cs[..n] == cs;
    }
  }
}
