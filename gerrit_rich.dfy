/** The enriched Gerrit documents: one per review (`GerritEnrich.get_rich_item`)
    and one per review comment (`GerritEnrich.get_rich_item_comments`). */
module GerritRich {
  import opened Values
  import opened GerritReview
  import Text

  const REVIEW_TYPE := "review"
  const COMMENT_TYPE := "comment"

  /** `str_to_datetime(s)` of a date field, as an instant in seconds: after
      the conversion every date is ISO text; a Unix timestamp is not text
      and cannot be parsed. */
  function StrToDatetime(s: Stamp): (r: Result<int>)
    ensures r.Success? <==> s.Iso?
    ensures r.Success? ==> r.value == s.seconds
  {
    match s
    case Iso(sec) => Success(sec)
    case Unix(_) => Failure(DateError)
  }

  /** The end of the open period: the last update, or the moment of enrichment. */
  datatype Until = At(seconds: int) | Now

  /** `timeopen`: days from `fromSeconds` to `until`, kept symbolic (the
      float division and its `%.2f` text are not modelled). */
  datatype TimeOpen = TimeOpen(fromSeconds: int, until: Until)

  /** The enriched review document (the fields this model derives). */
  datatype RichReview = RichReview(
    closed: string,
    status: string,
    branch: string,
    url: string,
    summary: string,
    githash: string,
    openedOn: Stamp,          // `opened`
    repository: string,
    number: string,
    id: string,
    summaryAnalyzed: string,
    name: Option<string>,
    domain: Option<string>,
    patchsets: nat,
    createdOn: Stamp,
    lastUpdated: Stamp,
    timeopen: TimeOpen)

  /** Python's `d[key]` for a key that may be missing. */
  function Need<T>(v: Option<T>, key: string): (r: Result<T>)
    ensures r.Success? <==> v.Some?
    ensures r.Success? ==> r.value == v.value
    ensures r.Failure? ==> r.error == KeyError(key)
  {
    match v
    case Some(x) => Success(x)
    case None => Failure(KeyError(key))
  }

  /** The name and domain of an account: the name only when the dict has a
      `name`; the domain only then, and only from an `email` holding "@",
      as the text after its first "@" (up to any second one). */
  function NameAndDomain(user: GerritUser): (r: (Option<string>, Option<string>))
    ensures r.0 == Field(user, "name")
    ensures r.1.Some? <==> "name" in user && "email" in user && '@' in user["email"]
    ensures r.1.Some? ==> '@' !in r.1.value
    // the domain is the text after the first "@", up to the next "@" or the end
    ensures r.1.Some? ==>
      var e := user["email"]; var i := Text.FirstIndex(e, '@'); var d := r.1.value;
      i + 1 + |d| <= |e| && e[i + 1..i + 1 + |d|] == d && (i + 1 + |d| < |e| ==> e[i + 1 + |d|] == '@')
  {
    if "name" !in user then (None, None)
    else if "email" in user && '@' in user["email"] then
      Text.SecondPiece(user["email"], '@');
      (Some(user["name"]), Some(Text.Split(user["email"], '@')[1]))
    else (Some(user["name"]), None)
  }

  /** For an address `local@host` with a single "@", the domain is `host`. */
  lemma DomainOfAddress(user: GerritUser, local: string, host: string)
    requires "name" in user && "email" in user && user["email"] == local + "@" + host
    requires '@' !in local && '@' !in host
    ensures NameAndDomain(user) == (Some(user["name"]), Some(host))
  {
    assert user["email"] == Text.Join([local, host], "@");
    Text.JoinSplit([local, host], '@');
    assert user["email"][|local|] == '@';
  }

  /** The review document built from a review whose dates have been
      converted, with the errors of the keys it needs. */
  function RichReviewOf(review: Review, metadataUpdatedOn: string, keywordMax: nat): (r: Result<RichReview>)
    ensures r.Success? ==> review.createdOn.Some? && review.patchSets.Some? && review.lastUpdated.Some?
    ensures review.createdOn.None? ==> r == Failure(KeyError("createdOn"))
    ensures review.createdOn.Some? && review.patchSets.None? ==> r == Failure(KeyError("patchSets"))
    ensures r.Success? ==>
      var e := r.value;
      // the id is the change number; the summary is the subject cut to the keyword size
      && e.id == review.number && e.number == review.number
      && e.summaryAnalyzed == review.subject
      && e.summary == Text.Truncate(review.subject, keywordMax)
      && e.closed == metadataUpdatedOn
      // copied and renamed fields
      && e.status == review.status && e.branch == review.branch && e.url == review.url
      && e.githash == review.id && e.repository == review.project
      && e.lastUpdated == review.lastUpdated.value
      && e.patchsets == |review.patchSets.value|
      // the creation date is that of the first patch set, when there is one
      && e.createdOn == (if |review.patchSets.value| > 0 then review.patchSets.value[0].createdOn else review.createdOn.value)
      && e.openedOn == review.createdOn.value
      // a merged or abandoned review is open until its last update; any other until now
      && e.timeopen.fromSeconds == e.createdOn.seconds
      && (review.status in {"MERGED", "ABANDONED"} ==> e.timeopen.until == At(review.lastUpdated.value.seconds))
      && (review.status !in {"MERGED", "ABANDONED"} ==> e.timeopen.until == Now)
      && (e.name, e.domain) == NameAndDomain(review.owner)
  {
    var openedOn :- Need(review.createdOn, "createdOn");
    var patchSets :- Need(review.patchSets, "patchSets");
    var createdOn := if |patchSets| > 0 then patchSets[0].createdOn else openedOn;
    var createdSeconds :- StrToDatetime(createdOn);
    var lastUpdated :- Need(review.lastUpdated, "lastUpdated");
    var lastSeconds :- StrToDatetime(lastUpdated);
    var until := if review.status in ["MERGED", "ABANDONED"] then At(lastSeconds) else Now;
    var (name, domain) := NameAndDomain(review.owner);
    Success(RichReview(
      metadataUpdatedOn, review.status, review.branch, review.url,
      Text.Truncate(review.subject, keywordMax), review.id, openedOn, review.project, review.number,
      review.number, review.subject, name, domain, |patchSets|, createdOn, lastUpdated,
      TimeOpen(createdSeconds, until)))
  }

  /** A review as Gerrit sends it, with `createdOn`, `lastUpdated` and
      `patchSets`, is enriched once its dates are converted. */
  lemma ConvertedReviewEnriches(review: Review, metadataUpdatedOn: string, keywordMax: nat)
    requires AllUnix(review)
    requires review.createdOn.Some? && review.lastUpdated.Some? && review.patchSets.Some?
    ensures FixedDates(review).Success?
    ensures RichReviewOf(FixedDates(review).value, metadataUpdatedOn, keywordMax).Success?
  {
    FixedDatesConverts(review);
  }

  /** The enriched comment document. */
  datatype RichComment = RichComment(
    url: string,
    summary: string,
    repository: string,
    branch: string,
    reviewNumber: string,
    reviewerName: Option<string>,
    reviewerDomain: Option<string>,
    created: int,
    message: string,
    id: string,
    itemType: string)

  /** `'{}'.format(created.timestamp())`: the float text of a whole number of
      seconds, its digits followed by ".0". */
  function SecondsText(seconds: int): string {
    Text.IntText(seconds) + ".0"
  }

  /** The id of a comment: the review number, "_comment_", the creation time. */
  function CommentId(reviewNumber: string, seconds: int): string {
    reviewNumber + "_comment_" + SecondsText(seconds)
  }

  /** The document of one comment of the enriched review `e`. */
  function CommentDoc(c: Comment, e: RichReview, keywordMax: nat): (r: Result<RichComment>)
    ensures r.Success? <==> c.timestamp.Iso?
    ensures r.Success? ==>
      && r.value.id == CommentId(e.number, c.timestamp.seconds)
      && r.value.itemType == COMMENT_TYPE
      && r.value.message == Text.Truncate(c.message, keywordMax)
      && r.value.reviewNumber == e.number && r.value.url == e.url && r.value.summary == e.summary
      && r.value.repository == e.repository && r.value.branch == e.branch
      && (c.reviewer.None? ==> r.value.reviewerName.None? && r.value.reviewerDomain.None?)
      && (c.reviewer.Some? ==> (r.value.reviewerName, r.value.reviewerDomain) == NameAndDomain(c.reviewer.value))
  {
    var created :- StrToDatetime(c.timestamp);
    var (name, domain) := if c.reviewer.Some? then NameAndDomain(c.reviewer.value) else (None, None);
    Success(RichComment(e.url, e.summary, e.repository, e.branch, e.number, name, domain, created,
                        Text.Truncate(c.message, keywordMax), CommentId(e.number, created), COMMENT_TYPE))
  }

  /** The documents of all comments, in order, or the first error. */
  function CommentDocs(cs: seq<Comment>, e: RichReview, keywordMax: nat): (r: Result<seq<RichComment>>)
    ensures r.Success? <==> forall k :: 0 <= k < |cs| ==> cs[k].timestamp.Iso?
    ensures r.Success? ==> |r.value| == |cs| && forall k :: 0 <= k < |cs| ==> CommentDoc(cs[k], e, keywordMax) == Success(r.value[k])
    decreases |cs|
  {
    if |cs| == 0 then Success([])
    else
      var init := cs[..|cs| - 1];
      assert forall k :: 0 <= k < |init| ==> init[k] == cs[k];
      var docs :- CommentDocs(init, e, keywordMax);
      var doc :- CommentDoc(cs[|cs| - 1], e, keywordMax);
      Success(docs + [doc])
  }

  /** `get_rich_item_comments`: one document per comment, in order. */
  method GetRichItemComments(comments: seq<Comment>, eitem: RichReview, keywordMax: nat)
    returns (r: Result<seq<RichComment>>)
    ensures r == CommentDocs(comments, eitem, keywordMax)
  {
    var ecomments: seq<RichComment> := [];
    for i := 0 to |comments|
      invariant CommentDocs(comments[..i], eitem, keywordMax) == Success(ecomments)
    {
      assert comments[..i + 1][..i] == comments[..i];
      var ecomment := CommentDoc(comments[i], eitem, keywordMax);
      if ecomment.Failure? {
        CommentDocsPrefixFails(comments, i + 1, eitem, keywordMax);
        return Failure(ecomment.error);
      }
      ecomments := ecomments + [ecomment.value];
    }
    assert comments[..|comments|] == comments;
    r := Success(ecomments);
  }

  lemma {:induction false} CommentDocsPrefixFails(cs: seq<Comment>, n: nat, e: RichReview, keywordMax: nat)
    requires n <= |cs| && CommentDocs(cs[..n], e, keywordMax).Failure?
    ensures CommentDocs(cs, e, keywordMax) == CommentDocs(cs[..n], e, keywordMax)
    decreases |cs| - n
  {
    if n < |cs| {
      assert cs[..n + 1][..n] == cs[..n];
      CommentDocsPrefixFails(cs, n + 1, e, keywordMax);
    } else {
      assert cs[..n] == cs;
    }
  }

  /** Comment ids tell reviews and comments apart: for review numbers
      without "_", equal ids mean the same review number and the same
      creation second. */
  lemma CommentIdInjective(n1: string, s1: int, n2: string, s2: int)
    requires '_' !in n1 && '_' !in n2
    requires CommentId(n1, s1) == CommentId(n2, s2)
    ensures n1 == n2 && s1 == s2
  {
    CommentIdParts(n1, s1);
    CommentIdParts(n2, s2);
    Text.SeparatedPartsUnique(n1, "_comment_" + SecondsText(s1), n2, "_comment_" + SecondsText(s2), '_');
    SecondsTextInjective(s1, s2);
  }

  /** A comment id is the review number followed by a text that starts with
      "_" and ends in the printed seconds. */
  lemma CommentIdParts(n: string, s: int)
    ensures var t := "_comment_" + SecondsText(s);
            && CommentId(n, s) == n + t && t[0] == '_' && t[9..] == SecondsText(s)
  {
  }

  /** Distinct seconds print differently. */
  lemma SecondsTextInjective(s1: int, s2: int)
    requires SecondsText(s1) == SecondsText(s2)
    ensures s1 == s2
  {
    var a := SecondsText(s1);
    assert Text.IntText(s1) == a[..|a| - 2];
    assert Text.IntText(s2) == a[..|a| - 2];
    Text.IntTextInjective(s1, s2);
  }

  /** A comment's id is never the id of a review (the review number itself). */
  lemma CommentIdNotReviewId(n: string, m: string, s: int)
    requires '_' !in m
    ensures CommentId(n, s) != m
  {
    assert CommentId(n, s)[|n|] == '_';
  }

  /** The comments of one review get distinct ids when their timestamps differ. */
  lemma CommentIdsDistinct(cs: seq<Comment>, e: RichReview, keywordMax: nat)
    requires '_' !in e.number
    requires CommentDocs(cs, e, keywordMax).Success?
    requires forall i, j :: 0 <= i < j < |cs| ==> cs[i].timestamp.seconds != cs[j].timestamp.seconds
    ensures var docs := CommentDocs(cs, e, keywordMax).value;
      forall i, j :: 0 <= i < j < |docs| ==> docs[i].id != docs[j].id
  {
    var docs := CommentDocs(cs, e, keywordMax).value;
    forall i, j | 0 <= i < j < |docs|
      ensures docs[i].id != docs[j].id
    {
      assert CommentDoc(cs[i], e, keywordMax) == Success(docs[i]);
      assert CommentDoc(cs[j], e, keywordMax) == Success(docs[j]);
      if docs[i].id == docs[j].id {
        CommentIdInjective(e.number, cs[i].timestamp.seconds, e.number, cs[j].timestamp.seconds);
      }
    }
  }

  /** An enriched document: a review or one of its comments. */
  datatype EnrichedDoc = ReviewDoc(review: RichReview) | CommentDocOf(comment: RichComment)

  /** All documents of one raw item: its dates converted in place, the review
      document, then, when the review has comments, one document per
      comment, built from the converted comments. */
  function ItemDocs(item: RawItem, keywordMax: nat): (r: Result<seq<EnrichedDoc>>)
    ensures FixedDates(item.data).Failure? ==> r == Failure(FixedDates(item.data).error)
    ensures r.Success? <==>
      && FixedDates(item.data).Success?
      && RichReviewOf(FixedDates(item.data).value, item.metadataUpdatedOn, keywordMax).Success?
      && CommentDocs(FixedDates(item.data).value.comments.GetOr([]),
                     RichReviewOf(FixedDates(item.data).value, item.metadataUpdatedOn, keywordMax).value, keywordMax).Success?
    ensures r.Success? ==>
      var fixed := FixedDates(item.data).value;
      var rich := RichReviewOf(fixed, item.metadataUpdatedOn, keywordMax).value;
      var docs := CommentDocs(fixed.comments.GetOr([]), rich, keywordMax).value;
      // the review document first, then one document per comment, in order
      && |r.value| == 1 + |item.data.comments.GetOr([])|
      && r.value[0] == ReviewDoc(rich)
      && forall k :: 0 <= k < |docs| ==> r.value[1 + k] == CommentDocOf(docs[k])
  {
    var fixed :- FixedDates(item.data);
    ReviewDocs(fixed, item.metadataUpdatedOn, keywordMax)
  }

  /** The documents of a review whose dates are already converted: the
      review document, then one document per comment. */
  function ReviewDocs(fixed: Review, metadataUpdatedOn: string, keywordMax: nat): (r: Result<seq<EnrichedDoc>>)
    ensures r.Success? <==>
      && RichReviewOf(fixed, metadataUpdatedOn, keywordMax).Success?
      && CommentDocs(fixed.comments.GetOr([]), RichReviewOf(fixed, metadataUpdatedOn, keywordMax).value, keywordMax).Success?
    ensures r.Success? ==>
      var rich := RichReviewOf(fixed, metadataUpdatedOn, keywordMax).value;
      var docs := CommentDocs(fixed.comments.GetOr([]), rich, keywordMax).value;
      && |r.value| == 1 + |fixed.comments.GetOr([])|
      && r.value[0] == ReviewDoc(rich)
      && forall k :: 0 <= k < |docs| ==> r.value[1 + k] == CommentDocOf(docs[k])
  {
    var rich :- RichReviewOf(fixed, metadataUpdatedOn, keywordMax);
    var comments := fixed.comments.GetOr([]);
    if |comments| == 0 then Success([ReviewDoc(rich)])
    else
      var docs :- CommentDocs(comments, rich, keywordMax);
      Success([ReviewDoc(rich)] + seq(|docs|, i requires 0 <= i < |docs| => CommentDocOf(docs[i])))
  }

  /** `get_rich_item` on the held raw item: its dates are converted in
      place, then the review document is built. */
  method GetRichItem(raw: RawReview, keywordMax: nat) returns (r: Result<RichReview>)
    modifies raw
    ensures FixedDates(old(raw.data)).Success? ==> raw.data == FixedDates(old(raw.data)).value
    ensures FixedDates(old(raw.data)).Failure? ==> r == Failure(FixedDates(old(raw.data)).error)
    ensures FixedDates(old(raw.data)).Success? ==> r == RichReviewOf(raw.data, raw.metadataUpdatedOn, keywordMax)
  {
    var err := raw.FixReviewDates();
    if err.Some? {
      return Failure(err.value);
    }
    r := RichReviewOf(raw.data, raw.metadataUpdatedOn, keywordMax);
  }
}
