/** The Gerrit enrichment loop (`GerritEnrich.enrich_items`): every raw item
    becomes its review document followed by its comment documents, and the
    documents are uploaded in bulk batches of at least
    `MAX_SIZE_BULK_ENRICHED_ITEMS`, the remainder in one last batch. The
    store is a function from a batch to the number of documents it accepted. */
module GerritBatches {
  import opened Values
  import opened Seqs
  import opened GerritReview
  import opened GerritRich

  const MAX_SIZE_BULK_ENRICHED_ITEMS := 200

  /** The batches uploaded so far and the documents still waiting. */
  datatype Batching = Batching(uploaded: seq<seq<EnrichedDoc>>, pending: seq<EnrichedDoc>)

  /** One item's documents added: once at least `MAX_SIZE_BULK_ENRICHED_ITEMS`
      documents wait, they are uploaded together. */
  function AddItem(b: Batching, docs: seq<EnrichedDoc>): Batching {
    var pending := b.pending + docs;
    if |pending| < MAX_SIZE_BULK_ENRICHED_ITEMS then b.(pending := pending)
    else Batching(b.uploaded + [pending], [])
  }

  /** The state after the items' documents, in order. */
  function BatchAll(perItem: seq<seq<EnrichedDoc>>): Batching
    decreases |perItem|
  {
    if |perItem| == 0 then Batching([], [])
    else AddItem(BatchAll(perItem[..|perItem| - 1]), perItem[|perItem| - 1])
  }

  /** The batches uploaded in all: those of the loop, then what is left, if anything. */
  function Batches(perItem: seq<seq<EnrichedDoc>>): seq<seq<EnrichedDoc>> {
    var b := BatchAll(perItem);
    if |b.pending| > 0 then b.uploaded + [b.pending] else b.uploaded
  }

  /** While the loop runs, no document is lost or reordered, every uploaded
      batch is full and fewer than a full batch wait. */
  lemma {:induction false} BatchAllInvariant(perItem: seq<seq<EnrichedDoc>>)
    ensures var b := BatchAll(perItem);
      && Flatten(b.uploaded) + b.pending == Flatten(perItem)
      && |b.pending| < MAX_SIZE_BULK_ENRICHED_ITEMS
      && forall k :: 0 <= k < |b.uploaded| ==> |b.uploaded[k]| >= MAX_SIZE_BULK_ENRICHED_ITEMS
    decreases |perItem|
  {
    if |perItem| > 0 {
      var init := perItem[..|perItem| - 1];
      var docs := perItem[|perItem| - 1];
      BatchAllInvariant(init);
      var b := BatchAll(init);
      assert perItem == init + [docs];
      FlattenSnoc(init, docs);
      FlattenSnoc(b.uploaded, b.pending + docs);
    }
  }

  /** All documents are uploaded, in order, in non-empty batches, each but
      the last of at least `MAX_SIZE_BULK_ENRICHED_ITEMS` documents. */
  lemma BatchesProperties(perItem: seq<seq<EnrichedDoc>>)
    ensures Flatten(Batches(perItem)) == Flatten(perItem)
    ensures forall k :: 0 <= k < |Batches(perItem)| ==> |Batches(perItem)[k]| > 0
    ensures forall k :: 0 <= k < |Batches(perItem)| - 1 ==> |Batches(perItem)[k]| >= MAX_SIZE_BULK_ENRICHED_ITEMS
  {
    BatchAllInvariant(perItem);
    var b := BatchAll(perItem);
    if |b.pending| > 0 {
      FlattenSnoc(b.uploaded, b.pending);
    }
  }

  /** The results of `f` on `xs` before the first that fails, and that
      failure's error. */
  function UntilFailure<T, U>(xs: seq<T>, f: T -> Result<U>): (r: (seq<U>, Option<Error>))
    ensures |r.0| <= |xs|
    ensures r.1.None? <==> forall k :: 0 <= k < |xs| ==> f(xs[k]).Success?
    ensures r.1.None? ==> |r.0| == |xs|
    ensures forall k :: 0 <= k < |r.0| ==> f(xs[k]) == Success(r.0[k])
    ensures r.1.Some? ==> f(xs[|r.0|]) == Failure(r.1.value)
    decreases |xs|
  {
    if |xs| == 0 then ([], None)
    else match f(xs[0])
      case Failure(e) => ([], Some(e))
      case Success(y) =>
        var rest := UntilFailure(xs[1..], f);
        assert forall k :: 1 <= k < |xs| ==> xs[k] == xs[1..][k - 1];
        ([y] + rest.0, rest.1)
  }

  /** The documents of the items before the first one that cannot be
      enriched, and that item's error. */
  function DocsUntilError(items: seq<RawItem>, keywordMax: nat): (r: (seq<seq<EnrichedDoc>>, Option<Error>))
    ensures |r.0| <= |items|
    ensures r.1.None? <==> forall k :: 0 <= k < |items| ==> ItemDocs(items[k], keywordMax).Success?
    ensures r.1.None? ==> |r.0| == |items|
    ensures forall k :: 0 <= k < |r.0| ==> ItemDocs(items[k], keywordMax) == Success(r.0[k])
    ensures r.1.Some? ==> ItemDocs(items[|r.0|], keywordMax) == Failure(r.1.value)
  {
    UntilFailure(items, item => ItemDocs(item, keywordMax))
  }

  /** The count of documents the store reports for each batch. */
  function Inserted(batches: seq<seq<EnrichedDoc>>, bulkUpload: seq<EnrichedDoc> -> nat): (r: seq<int>)
    ensures |r| == |batches|
  {
    seq(|batches|, i requires 0 <= i < |batches| => bulkUpload(batches[i]) as int)
  }

  lemma InsertedSnoc(batches: seq<seq<EnrichedDoc>>, batch: seq<EnrichedDoc>, bulkUpload: seq<EnrichedDoc> -> nat)
    ensures Inserted(batches + [batch], bulkUpload) == Inserted(batches, bulkUpload) + [bulkUpload(batch) as int]
  {
  }

  /** The sizes of the batches. */
  function Sizes(batches: seq<seq<EnrichedDoc>>): (r: seq<int>)
    ensures |r| == |batches|
  {
    seq(|batches|, i requires 0 <= i < |batches| => |batches[i]|)
  }

  lemma {:induction false} SizesSum(batches: seq<seq<EnrichedDoc>>)
    ensures Sum(Sizes(batches)) == |Flatten(batches)|
    decreases |batches|
  {
    if |batches| > 0 {
      SizesSum(batches[1..]);
      assert Sizes(batches)[1..] == Sizes(batches[1..]);
    }
  }

  /** `enrich_items`: `numItems` is the number of documents uploaded and
      `insItems` the number the store accepted (a difference is only
      logged). An item that cannot be enriched ends the loop with its error,
      after the batches uploaded so far; its pending documents are not
      uploaded. */
  method EnrichItems(items: seq<RawItem>, keywordMax: nat, bulkUpload: seq<EnrichedDoc> -> nat)
    returns (numItems: int, insItems: int, uploads: seq<seq<EnrichedDoc>>, err: Option<Error>)
    ensures err == DocsUntilError(items, keywordMax).1
    ensures err.None? ==> uploads == Batches(DocsUntilError(items, keywordMax).0)
    ensures err.Some? ==> uploads == BatchAll(DocsUntilError(items, keywordMax).0).uploaded
    ensures numItems == |Flatten(uploads)|
    ensures insItems == Sum(Inserted(uploads, bulkUpload))
  {
    var itemsToEnrich: seq<EnrichedDoc> := [];
    numItems, insItems, uploads := 0, 0, [];
    ghost var perItem: seq<seq<EnrichedDoc>> := [];
    for i := 0 to |items|
      invariant |perItem| == i && EnrichedPrefix(items, keywordMax, perItem)
      invariant BatchAll(perItem) == Batching(uploads, itemsToEnrich)
      invariant Counted(uploads, numItems, insItems, bulkUpload)
    {
      var docs := EnrichOne(items[i], keywordMax);
      if docs.Failure? {
        err := Some(docs.error);
        PrefixDocs(items, keywordMax, i, perItem);
        return;
      }
      BatchAllSnoc(perItem, docs.value);
      ExtendPrefix(items, keywordMax, perItem, docs.value);
      perItem := perItem + [docs.value];
      itemsToEnrich := itemsToEnrich + docs.value;
      if |itemsToEnrich| < MAX_SIZE_BULK_ENRICHED_ITEMS {
        continue;
      }
      numItems, insItems, uploads := Upload(uploads, itemsToEnrich, numItems, insItems, bulkUpload);
      itemsToEnrich := [];
    }
    if |itemsToEnrich| > 0 {
      numItems, insItems, uploads := Upload(uploads, itemsToEnrich, numItems, insItems, bulkUpload);
    }
    err := None;
    PrefixDocs(items, keywordMax, |items|, perItem);
  }

  /** `perItem` lists the documents of the first `|perItem|` items. */
  predicate EnrichedPrefix(items: seq<RawItem>, keywordMax: nat, perItem: seq<seq<EnrichedDoc>>) {
    && |perItem| <= |items|
    && forall k :: 0 <= k < |perItem| ==> ItemDocs(items[k], keywordMax) == Success(perItem[k])
  }

  lemma ExtendPrefix(items: seq<RawItem>, keywordMax: nat, perItem: seq<seq<EnrichedDoc>>, docs: seq<EnrichedDoc>)
    requires EnrichedPrefix(items, keywordMax, perItem) && |perItem| < |items|
    requires ItemDocs(items[|perItem|], keywordMax) == Success(docs)
    ensures EnrichedPrefix(items, keywordMax, perItem + [docs])
  {
  }

  /** The counters agree with the batches uploaded. */
  predicate Counted(uploads: seq<seq<EnrichedDoc>>, numItems: int, insItems: int, bulkUpload: seq<EnrichedDoc> -> nat) {
    numItems == |Flatten(uploads)| && insItems == Sum(Inserted(uploads, bulkUpload))
  }

  lemma BatchAllSnoc(perItem: seq<seq<EnrichedDoc>>, docs: seq<EnrichedDoc>)
    ensures BatchAll(perItem + [docs]) == AddItem(BatchAll(perItem), docs)
  {
    assert (perItem + [docs])[..|perItem|] == perItem;
  }

  /** One bulk upload: the counters grow by the batch's size and by the
      store's answer. */
  method Upload(uploads: seq<seq<EnrichedDoc>>, batch: seq<EnrichedDoc>, numItems: int, insItems: int,
                bulkUpload: seq<EnrichedDoc> -> nat)
    returns (numItems': int, insItems': int, uploads': seq<seq<EnrichedDoc>>)
    requires Counted(uploads, numItems, insItems, bulkUpload)
    ensures uploads' == uploads + [batch]
    ensures Counted(uploads', numItems', insItems', bulkUpload)
  {
    numItems' := numItems + |batch|;
    insItems' := insItems + bulkUpload(batch);
    FlattenSnoc(uploads, batch);
    InsertedSnoc(uploads, batch, bulkUpload);
    SumSnoc(Inserted(uploads, bulkUpload), bulkUpload(batch));
    uploads' := uploads + [batch];
  }

  /** The results before the first failure are the ones `UntilFailure` lists. */
  lemma {:induction false} UntilFailurePrefix<T, U>(xs: seq<T>, f: T -> Result<U>, n: nat, ys: seq<U>)
    requires n <= |xs| && |ys| == n
    requires forall k :: 0 <= k < n ==> f(xs[k]) == Success(ys[k])
    requires n < |xs| ==> f(xs[n]).Failure?
    ensures UntilFailure(xs, f).0 == ys
    ensures n < |xs| ==> UntilFailure(xs, f).1 == Some(f(xs[n]).error)
    ensures n == |xs| ==> UntilFailure(xs, f).1 == None
    decreases n
  {
    if n > 0 {
      assert f(xs[0]) == Success(ys[0]);
      forall k | 0 <= k < n - 1
        ensures f(xs[1..][k]) == Success(ys[1..][k])
      {
        assert xs[1..][k] == xs[k + 1];
      }
      UntilFailurePrefix(xs[1..], f, n - 1, ys[1..]);
      assert ys == [ys[0]] + ys[1..];
      if n < |xs| {
        assert xs[1..][n - 1] == xs[n];
      }
    }
  }

  /** The items enriched before the first failure are the documents
      `DocsUntilError` lists. */
  lemma PrefixDocs(items: seq<RawItem>, keywordMax: nat, n: nat, perItem: seq<seq<EnrichedDoc>>)
    requires n <= |items| && |perItem| == n
    requires EnrichedPrefix(items, keywordMax, perItem)
    requires n < |items| ==> ItemDocs(items[n], keywordMax).Failure?
    ensures DocsUntilError(items, keywordMax).0 == perItem
    ensures n < |items| ==> DocsUntilError(items, keywordMax).1 == Some(ItemDocs(items[n], keywordMax).error)
    ensures n == |items| ==> DocsUntilError(items, keywordMax).1 == None
  {
    UntilFailurePrefix(items, item => ItemDocs(item, keywordMax), n, perItem);
  }

  /** One raw item through `get_rich_item` and `get_rich_item_comments`. */
  method EnrichOne(item: RawItem, keywordMax: nat) returns (r: Result<seq<EnrichedDoc>>)
    ensures r == ItemDocs(item, keywordMax)
  {
    var raw := new RawReview(item);
    var eitem := GetRichItem(raw, keywordMax);
    if eitem.Failure? {
      return Failure(eitem.error);
    }
    var docs := [ReviewDoc(eitem.value)];
    var comments := raw.data.comments.GetOr([]);
    if |comments| > 0 {
      var richComments := GetRichItemComments(comments, eitem.value, keywordMax);
      if richComments.Failure? {
        return Failure(richComments.error);
      }
      var cs := richComments.value;
      docs := docs + seq(|cs|, i requires 0 <= i < |cs| => CommentDocOf(cs[i]));
    }
    r := Success(docs);
  }
}
