# GrimoireELK enrichment core, modelled in Dafny

This project models the part of GrimoireELK that turns raw items into
enriched Elasticsearch documents for two data sources. It also models the
projects-file conversion script.

- **GitHub** (`grimoire_elk/elk/github.py`): the identities handed to
  SortingHat; the geolocation cache (`get_geo_point`, loading the cache
  from stored documents, and the bulk write-back `geo_locations_to_es`);
  the issue / pull request document (`get_rich_item`); the per-author git
  activity table (`__read_users_data`); `build_involves`; and
  `GitHubUser._getOrg`.
- **Gerrit** (`grimoire_elk/enriched/gerrit.py`, `grimoire_elk/raw/gerrit.py`):
  - the identities of a review;
  - the in-place conversion of its Unix timestamps (`_fix_review_dates`);
  - the review document and the comment documents;
  - the batching of documents into bulk uploads of at least 200 documents each, the last one excepted (`enrich_items`);
  - the parsing of a data source text into URL and filter.
- **Projects file** (`mordred/scripts/projects_format.py`): the conversion
  from the old projects format to the new one.

Python semantics are written out:
- `split`, `rsplit`, `replace`, slicing and string `<` are modelled in `text.dfy`.
- Dict insertion order is an explicit sequence of keys.
- A generator that stops with an exception is a `Yielded(values, error)` pair.
- `KeyError`, `IndexError`, `TypeError`, `AttributeError` and `StopIteration` are `Result` failures.

Outside services are function parameters:
- the geocoding service;
- the SortingHat identity directory;
- `elastic.bulk_upload`;
- Python's `str` of a float.

Date and float arithmetic stays symbolic:
- `TimeDiff` and `TimeOpen` record the arguments chosen.
- `Stamp` carries an instant either as a Unix timestamp or as ISO text.

Classes model the state the source changes in place:
- `GitHubGeo.GeoCache` holds the enricher's geolocation dict and its not-found list.
- `GerritReview.RawReview` holds the raw review whose dates are converted in place.

## Model

| member | source | states |
|---|---|---|
| GitHubActors.ShIdentity | grimoire_elk/elk/github.py:85-102 | `None` raises TypeError; an empty dict gives no identity; otherwise the username is `login` (KeyError without it), and email and name are set exactly when the dict has those keys |
| GitHubActors.GetOrg | grimoire_elk/elk/github.py:545-558 | a truthy company is the organisation; otherwise the org logins joined by ";;" (the accumulate-then-drop-two loop); AttributeError when `company` was never set |
| GitHubIssue.RoleIdentity | grimoire_elk/elk/github.py:76-81 | a falsy role contributes nothing; a truthy one contributes at most one identity, whose username is the `_data` login, and fails exactly when `get_sh_identity` does |
| GitHubIssue.GetIdentities | grimoire_elk/elk/github.py:71-83 | at most two identities, the user's before the assignee's, the concatenation of the two roles' contributions, failing if either role fails |
| GitHubIssue.DomainFor | grimoire_elk/elk/github.py:268-269 | the domain key is set exactly for a truthy email and is computed from that email |
| GitHubIssue.DataFields | grimoire_elk/elk/github.py:266-272 | succeeds exactly when `name`, `email`, `company` and `location` are keys of the `_data` dict; each field is taken from its key |
| GitHubIssue.UserRole | grimoire_elk/elk/github.py:261-280 | `user_login` always comes from `user`; a `None` `user_data` nulls every other user field; the domain is missing exactly when the email is falsy |
| GitHubIssue.AssigneeRole | grimoire_elk/elk/github.py:283-303 | a `None` assignee nulls every assignee field; the assignee's `login` is read first (KeyError without it); then an assignee without `assignee_data` fails with TypeError; otherwise the login comes from `assignee` and the other fields from `assignee_data` |
| GitHubIssue.IdInRepo | grimoire_elk/elk/github.py:306 | the id is the suffix of `html_url` after its last "/" (the whole URL when it has none) and holds no "/" |
| GitHubIssue.StripGitSuffix | grimoire_elk/elk/github.py:330 | corrected `.git$` strip: a trailing ".git" is removed and nothing else changes |
| GitHubIssue.LabelTextKeepsTrailingSeparator | grimoire_elk/elk/github.py:315-321 | the label text is the names joined by ";;" plus a trailing ";;" (the discarded `labels[:-2]`); no `labels` key gives "" |
| GitHubIssue.ConcatLabels | grimoire_elk/elk/github.py:315-321 | the label loop computes the label text |
| GitHubIssue.RichIssueOf | grimoire_elk/elk/github.py:252-331 | every role and geolocation field is the one given; `id`, `state` and the dates come from the issue; `labels` is the label text; `id_in_repo`, `repository` and `github_repo` are those of `html_url`; `time_open_days` equals the time to close for a closed issue and runs until now otherwise; pull request exactly when `head` or `pull_request` is a key, with the matching `item_type`; `author_name` is the user name; `url_id` is `github_repo/issues/id_in_repo` |
| GitHubIssue.Enrich | grimoire_elk/elk/github.py:261-303 | the document is produced exactly when both roles succeed, and it is then `RichIssueOf` the issue with the two roles and their geolocations; a user failure leaves the cache unchanged, an assignee failure keeps the user's geolocation lookup; the geocache stays well formed; with no user data and no assignee the cache is untouched |
| GitHubIssue.AbsentActorsNulled | grimoire_elk/elk/github.py:274-281 | an issue without user data or assignee gets `None` in every user field but the login and in every assignee field, and makes no geocoding call |
| GitHubIssue.IssueUrlFields | grimoire_elk/elk/github.py:305-331 | for `https://github.com/<owner>/<repo>/<kind>/<n>`: `id_in_repo` is n, `repository` is the URL up to the repo, `github_repo` (corrected strip) is `owner/repo`, and `url_id` is `owner/repo/issues/n` |
| GitHubIssue.OwnerRepoStrippedAsWritten | grimoire_elk/elk/github.py:329-330 | the source's own `.git$` strip also gives `owner/repo` when the repository name does not end in "git" and holds no newline |
| GitHubIssue.UnescapedDotCutsRepositoryName | grimoire_elk/elk/github.py:329-330 | as written, the repository `isomorphic-git/isomorphic-git` becomes `isomorphic-git/isomorphic`; the corrected strip keeps it |
| GitHubIssue.GetRichItem | grimoire_elk/elk/github.py:241-345 | the new cache and the document are those of `Enrich` on the old cache; the cache stays valid |
| GitHubGeo.GeoLookup | grimoire_elk/elk/github.py:104-143 | the geocoder is called exactly for a location neither cached nor known unresolvable; a cached location returns its point; a failed call records the location once; a resolved call caches the point (`lng` as `lon`); an empty result changes nothing; the cache stays well formed |
| GitHubGeo.AskedAtMostOnce | grimoire_elk/elk/github.py:110-143 | once a location has been answered, asking again makes no call and gives the same point and state |
| GitHubGeo.GeoCache.GetGeoPoint | grimoire_elk/elk/github.py:104-143 | the method's new state and result are those of `GeoLookup` |
| GitHubGeo.GeoIdShape | grimoire_elk/elk/github.py:192-193 | the `_id` ends in an ASCII form of the location, equal to the location when it is ASCII |
| GitHubGeo.Loaded | grimoire_elk/elk/github.py:146-174 | the cache loaded from stored documents is well formed, with an empty not-found list |
| GitHubGeo.GeoCache.constructor | grimoire_elk/elk/github.py:56-59 | `set_elastic` loads the cache from the stored documents |
| GitHubGeo.PersistLoadRoundTrip | grimoire_elk/elk/github.py:146-209 | writing the cache out and loading it back gives the same points, keys and order |
| GitHubGeo.GeoCache.GeoLocationsToEs | grimoire_elk/elk/github.py:180-209 | every cached point is written once, in dict order, in requests of at most `max(max_items, 1)` entries; for `max_items >= 1` every request but the last holds exactly `max_items` and the last is non-empty unless the cache is empty, which gives one empty request |
| GitHubUsers.GitHubUsernamesExact | grimoire_elk/elk/github.py:370-381 | the usernames are distinct and are exactly those of the `github` identities |
| GitHubUsers.CollectGitHubUsernames | grimoire_elk/elk/github.py:370-381 | the identities loop computes those usernames |
| GitHubUsers.ParseRow | grimoire_elk/elk/github.py:363-387 | a row of fewer than seven columns raises IndexError; the fields are columns 0, 1, 2, 3, 5 and 6; an unknown uuid gives no usernames |
| GitHubUsers.ParseAll | grimoire_elk/elk/github.py:360-368 | every row is read exactly when every row has at least seven columns; then the k-th entry is the k-th row parsed |
| GitHubUsers.AggregateKeys | grimoire_elk/elk/github.py:393-412 | the dict's keys are exactly the rows' uuids, each listed once |
| GitHubUsers.AggregateOrder | grimoire_elk/elk/github.py:393-403 | keys appear in the order of each uuid's first row |
| GitHubUsers.AggregateEntries | grimoire_elk/elk/github.py:393-412 | the entry of each uuid summarizes that uuid's rows, in order |
| GitHubUsers.SummarizeProperties | grimoire_elk/elk/github.py:393-412 | the name is that of the first row; the usernames those of the last; every project in row order; the largest max date and the smallest min date (string order); the smallest commits text with the project of the first row that has it |
| GitHubUsers.ReadUsersData | grimoire_elk/elk/github.py:347-422 | the whole reading loop computes the table of `ReadUsers` (StopIteration for an empty file, IndexError for a short row) |
| GitHubUsers.BuildInvolves | grimoire_elk/elk/github.py:430-441 | the uuid and name are those of the first key, in dict order, whose usernames hold the author's; both are `None` exactly when no key does |
| GerritReview.ShIdentity | grimoire_elk/enriched/gerrit.py:88-107 | name, email and username are set exactly when the account has those keys, each from its key |
| GerritReview.ProjectRepositoryInjective | grimoire_elk/enriched/gerrit.py:109-112 | for origins without "_", distinct (origin, repository) pairs give distinct keys |
| GerritReview.PatchSetUsers | grimoire_elk/enriched/gerrit.py:127-139 | a patch set yields its uploader first, then its author when it has one, then the approver of each approval in order |
| GerritReview.CommentUsers | grimoire_elk/enriched/gerrit.py:142-146 | the reviewers are yielded in comment order; all of them when every comment has one; otherwise the generator stops at the first comment without one with KeyError("reviewer") |
| GerritReview.ReviewIdentities | grimoire_elk/enriched/gerrit.py:114-146 | the owner's identity first, then those of the patch set users in order, then those of the yielded reviewers in order; the generator's error is that of the comment loop |
| GerritReview.IdentityCount | grimoire_elk/enriched/gerrit.py:114-146 | with every reviewer present, the review yields one identity for the owner, one per uploader, author and approval, and one per comment |
| GerritReview.ToIso | grimoire_elk/enriched/gerrit.py:160 | a Unix timestamp converts to the ISO text of the same instant; converting ISO text fails |
| GerritReview.FixPatchSet | grimoire_elk/enriched/gerrit.py:163-170 | succeeds exactly when the creation and approval dates are Unix timestamps; then the creation date and each approval's `grantedOn` become ISO text of the same instant and nothing else changes |
| GerritReview.FixPatchSets | grimoire_elk/enriched/gerrit.py:162-170 | succeeds exactly when every patch set converts; then the k-th patch set is `FixPatchSet` of the k-th |
| GerritReview.FixComments | grimoire_elk/enriched/gerrit.py:172-175 | succeeds exactly when every comment timestamp is a Unix timestamp, each converted |
| GerritReview.FixedDatesConverts | grimoire_elk/enriched/gerrit.py:154-175 | a review with all dates as Unix timestamps converts; `timestamp`, `createdOn` and `lastUpdated` become ISO text of the same instant, each present exactly when it was; each patch set is converted by `FixPatchSet`; each comment timestamp becomes ISO text; the other fields are unchanged |
| GerritReview.FixingTwiceFails | grimoire_elk/enriched/gerrit.py:154-175 | converting an already converted review fails: the conversion is not idempotent |
| GerritReview.RawReview.FixReviewDates | grimoire_elk/enriched/gerrit.py:154-175 | the in-place conversion leaves the review equal to `FixedDates` of the old one, or reports its error |
| GerritReview.RawReview.FixPatchSetDates | grimoire_elk/enriched/gerrit.py:162-170 | the patch-set loop leaves the review's `patchSets` key converted as by `FixPatchSets` (an absent key stays absent) and nothing else changed, or reports the first error |
| GerritReview.RawReview.FixCommentDates | grimoire_elk/enriched/gerrit.py:172-175 | the comment loop leaves the review's `comments` key converted as by `FixComments` (an absent key stays absent) and nothing else changed, or reports the first error |
| GerritReview.FixOnePatchSet | grimoire_elk/enriched/gerrit.py:163-170 | the patch set loop computes `FixPatchSet` |
| GerritRich.StrToDatetime | grimoire_elk/enriched/gerrit.py:224 | ISO text parses to its instant; a raw timestamp does not |
| GerritRich.NameAndDomain | grimoire_elk/enriched/gerrit.py:209-215 | name from the `name` key; domain set exactly when the account has a `name` and an `email` holding "@"; it is the text after the first "@" up to the next "@" (or the end) and holds no "@" |
| GerritRich.DomainOfAddress | grimoire_elk/enriched/gerrit.py:213-215 | the domain of `local@host` is `host` |
| GerritRich.RichReviewOf | grimoire_elk/enriched/gerrit.py:186-237 | `status`, `branch`, `url`, `githash` (the id), `repository` (the project) and `lastUpdated` come from the review; `id` is the change number; the summary is the subject cut to the keyword size; the creation date is that of the first patch set if any; a merged or abandoned review is open until its last update, others until now; KeyError for a missing `createdOn` or `patchSets` |
| GerritRich.ConvertedReviewEnriches | grimoire_elk/enriched/gerrit.py:186-237 | a review with Unix dates and the keys `createdOn`, `lastUpdated` and `patchSets` is enriched after the date conversion |
| GerritRich.CommentDoc | grimoire_elk/enriched/gerrit.py:253-282 | the comment document copies the review's url, summary, repository, branch and number; the reviewer's name and domain are taken as for the owner; the message is truncated; the id is `<number>_comment_<seconds>.0`; the type is `comment` |
| GerritRich.CommentDocs | grimoire_elk/enriched/gerrit.py:250-305 | one document per comment, in order, or a failure |
| GerritRich.GetRichItemComments | grimoire_elk/enriched/gerrit.py:250-305 | the comment loop computes `CommentDocs` |
| GerritRich.CommentIdInjective | grimoire_elk/enriched/gerrit.py:281 | for review numbers without "_", distinct (number, time) pairs give distinct comment ids |
| GerritRich.CommentIdNotReviewId | grimoire_elk/enriched/gerrit.py:206 | a comment id never equals a review id without "_" |
| GerritRich.CommentIdsDistinct | grimoire_elk/enriched/gerrit.py:281 | comments created at distinct times get distinct ids |
| GerritRich.ItemDocs | grimoire_elk/enriched/gerrit.py:316-323 | a date conversion failure is the item's failure; otherwise documents exactly when the review and every comment enrich; then the review document first and one comment document per comment, in order |
| GerritRich.ReviewDocs | grimoire_elk/enriched/gerrit.py:316-323 | for an already converted review: documents exactly when the review and every comment enrich; then the review document first and one comment document per comment, in order |
| GerritRich.GetRichItem | grimoire_elk/enriched/gerrit.py:178-248 | the raw review is converted in place; a conversion error ends enrichment; otherwise the document is `RichReviewOf` the converted review |
| GerritBatches.BatchesProperties | grimoire_elk/enriched/gerrit.py:315-334 | the uploaded batches concatenate to all documents in order; none is empty; all but the last hold at least 200 documents |
| GerritBatches.DocsUntilError | grimoire_elk/enriched/gerrit.py:315-323 | items are enriched in order until the first that fails, whose error is reported |
| GerritBatches.SizesSum | grimoire_elk/enriched/gerrit.py:328-334 | the batch sizes add up to the number of documents |
| GerritBatches.EnrichItems | grimoire_elk/enriched/gerrit.py:310-342 | the uploads are the batches of the enriched documents, or those sent before the first failure; `num_items` counts the uploaded documents and `ins_items` adds up what bulk upload reports |
| GerritBatches.EnrichOne | grimoire_elk/enriched/gerrit.py:316-323 | one item's documents are `ItemDocs` |
| GerritRaw.GetP2oParams | grimoire_elk/raw/gerrit.py:86-96 | the URL is the text before the first space and holds none; the filter is present exactly when there is a space; IndexError exactly when the text after the space holds no "="; the filter is the text after its first "=" up to the next "=" (or the end) |
| GerritRaw.FilterValue | grimoire_elk/raw/gerrit.py:93 | IndexError exactly when there is no "="; otherwise the text after the first "=" up to the next one, holding no "=" |
| GerritRaw.ParamsRoundTrip | grimoire_elk/raw/gerrit.py:86-96 | `url name=value` is read back as that URL and value |
| GerritRaw.FilterCutAtSecondEquals | grimoire_elk/raw/gerrit.py:93 | a filter value containing "=" is cut at it |
| ProjectsFormat.RepoUrls | mordred/scripts/projects_format.py:29-30 | the URLs of the repositories in order; KeyError when one has no `url` |
| ProjectsFormat.ConvertProject | mordred/scripts/projects_format.py:26-30 | the new project has exactly the supported data sources `git` and `github`, each with its URLs |
| ProjectsFormat.Convert | mordred/scripts/projects_format.py:24-30 | every project is kept, each converted |
| ProjectsFormat.UnsupportedOnlyIsEmpty | mordred/scripts/projects_format.py:25-27 | a project with no supported data source becomes an empty dict |
| ProjectsFormat.ConvertIdempotent | mordred/scripts/projects_format.py:18-30 | converting the converted file again, each URL written as `{"url": ...}`, changes nothing |
| ProjectsFormat.CollectUrls | mordred/scripts/projects_format.py:29-30 | the repository loop computes `RepoUrls` |
| ProjectsFormat.FormatProject | mordred/scripts/projects_format.py:26-30 | the data source loop computes `ConvertProject` |
| ProjectsFormat.FormatProjects | mordred/scripts/projects_format.py:24-30 | the project loop computes `Convert` |

## Left out

- HTTP requests, the Elasticsearch client, CSV and JSON file reading, printing and logging are not modelled.
  - Their results are parameters: the geocoder answer, the stored geolocation documents, the CSV rows, the SortingHat directory and `bulk_upload`'s count.
  - The logging counters of `__read_users_data` (not found, multi-username, git without GitHub) have no effect on the result and are left out.
- `get_github_cache` paging over the scroll API is not modelled; the cache is built from the documents it would return.
- Date and float arithmetic are symbolic.
  - `get_time_diff_days`, `unixtime_to_datetime(...).isoformat()`, `str_to_datetime`, the `timeopen` division and its `'%.2f'` text are not computed.
  - The model keeps the arguments chosen (`TimeDiff`, `TimeOpen`, `Stamp`).
- GerritRich.SecondsText assumes the float text of a whole timestamp is its digits followed by ".0", as for any timestamp below 10^16 seconds; larger values would print in exponent form.
- Inherited enricher machinery is not part of this model: `RAW_FIELDS_COPY` copying, `@metadata`, `get_item_sh`, `get_item_project`, `get_grimoire_fields`, `add_metadata_filter_raw`, mappings, and the studies `enrich_demography` and `enrich_onion`.
- `enrich_users_activity` and the GitHub `enrich_items` driver are not modelled: they fetch and upload through the Elasticsearch client. `build_involves` and `__read_users_data`, which they use, are modelled.
- GitHubActors.ShIdentity models the call with a user dict. The `get_sh_identity(item, identity_field)` form with a raw item is not used by the modelled code.
- Keys that the code reads unconditionally from raw items (`id`, `html_url`, `state`, `subject`, `number`, ...) are datatype fields, so their KeyError is not modelled. Keys the code tests with `in`, and keys it reads from user dicts, are modelled with their errors.
- GitHubGeo.GeoIdShape states only the shape of the `_id`, because the float text is the `show` parameter. The JSON text of the bulk body is not modelled; its entries are.
- GitHubGeo.GeoLookup: an empty `location` object from the geocoder is neither cached nor recorded as not found, so the same location is asked again later. This is how the code behaves; AskedAtMostOnce therefore excludes that answer.
- GerritReview.RawReview.FixReviewDates does not constrain a review that a failing conversion leaves half converted. Python leaves such a review partly rewritten; the model states only the error.
- GitHubUsers.ParseRow takes the SortingHat usernames as strings; a `None` username of a `github` identity is not distinguished.
- ProjectsFormat: a data source whose value is not a list, or a repository that is not a dict, is not modelled (the JSON is typed in the model).
- `utils/alerts.py` and `utils/mongo2es.py` are not part of this model.
- GitHubIssue.RichIssueOf builds `github_repo` and `url_id` with the corrected `.git` strip (StripGitSuffix), not the source's `re.sub('.git$', ...)`. The two differ only for repository names ending in "git" that are not ".git" (see Findings; OwnerRepoStrippedAsWritten proves they agree otherwise).
- GitHubIssue.Enrich and GitHubIssue.GetRichItem therefore also produce the corrected `github_repo` and `url_id`.
- GitHubIssue.IssueUrlFields states the derived fields under the corrected strip; OwnerRepoStrippedAsWritten gives the as-written `github_repo` for names not ending in "git".
- GitHubGeo.GeoLookup: an HTTP request that fails raises out of `get_geo_point`, since `requests.get` is outside its `try`. That exception is not modelled; `Failed` covers a reply that is not JSON or has no first result.
- GitHubActors.ShIdentity follows the code for a `None` user, which raises a TypeError (`'data' in None`), not an empty identity. GitHubIssue.RoleIdentity only calls it when `user` is truthy, so the enrichment is unaffected.

## Findings

| source | as written | input that shows it | evidently intended | confidence | as-written member | corrected member |
|---|---|---|---|---|---|---|
| grimoire_elk/elk/github.py:330 | `re.sub('.git$', '', github_repo)` treats the unescaped `.` as any character, so any repository name ending in "git" loses its last four characters | `html_url` `https://github.com/isomorphic-git/isomorphic-git/issues/1` gives `github_repo` `isomorphic-git/isomorphic` | only a literal `.git` suffix is removed (`r'\.git$'`) | not executed | GitHubIssue.UnescapedDotCutsRepositoryName | GitHubIssue.StripGitSuffix |
