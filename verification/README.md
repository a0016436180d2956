# Verified models of the asset library backend

A Dafny project about the parts of the backend that contain real algorithms or protocols. Postgres,
Redis, S3, Meilisearch and the job queue are maps, sets, counters and lists with the commands the
services use; everything else is the services' own logic, proved against independent statements of
what it is for.

| file | what it models |
|---|---|
| `Discover.dfy`, `DiscoverRefinement.dfy` | the batched Discover row builder as the imperative pipeline it is, and its refinement of one query per category |
| `FanIn.dfy` | the analyzer fan-in: uploads, reanalysis, per-file jobs with retries and the rollup job over one shared counter, one step per command |
| `SearchIndex.dfy` | row writes, mark jobs, the dirty set and the batch worker that rebuilds the search index |
| `Manifest.dfy`, `ManifestTree.dfy`, `ManifestOrder.dfy` | the package manifest tree: linked nodes mutated and sorted in place, the theorems about the tree they build, and what of the upload order it shows |
| `TipTap.dfy`, `TipTapTheorems.dfy`, `Json.dfy` | the document sanitizer and its violation list |
| `EditorMediaGc.dfy` | the mark-and-sweep of editor media, and what it takes of what the stored documents and galleries need |
| `Comments.dfy`, `Excerpt.dfy` | comment threads: depth rule, hop-limited query, tree reconstruction, excerpt |
| `Lifecycle.dfy` | the asset state machine with its two writers and the archive purge |
| `Storage.dfy`, `StorageReport.dfy` | the storage rollup and the dashboard total read from it |
| `Featured.dfy` | featured slots, the two-pass reorder under a unique index, the active cap |
| `Paging.dfy` | keyset paging |
| `RateLimit.dfy` | the fixed-window rate limiter |
| `Cidr.dfy`, `CidrAddresses.dfy`, `CidrBlocks.dfy`, `Bits.dfy` | the CIDR allow-list on 32- and 128-bit values: the code, what it reads each written address as, and the blocks it matches |
| `Sorting.dfy`, `Text.dfy`, `Options.dfy` | stable sort, splitting and joining, decimal text, option and result types |

Code that updates objects, maps or lists is a class or a method with loops, proved equal to a
specification function; the theorems are lemmas about those functions. Protocols with interleavings
are state machines, and their theorems quantify over every run. The library sort is a stable
insertion sort used as a specification; SQL `ORDER BY` and `Array.prototype.sort` both mean it.

## What does not hold

Where the code does not do what its comments or its callers expect, the model keeps the code and
states exactly when it does:

- The fan-in loses work in four situations, each shown by a run with that one fault and every other
  step clean: a rollup request made while the queue still holds the finished rollup's job id (a
  second upload within a day), reanalysis of a file whose finished analysis job id is held, an
  upload completing while its file is outstanding already (after a reanalysis, or completed twice),
  and deletion of a file whose job waits. `NeverSticks` holds for every run without such a step;
  `CleanIsExact` and `BalancedExactly` say which steps break the count, `RequestHeardExactly` when a
  request is lost for good, and `StuckAtRest` that a counter left too high never requests again.
- A failed attempt decrements and is retried, so a rollup can also be requested early:
  `EarlyExactly` says when.
- The batch worker's comment says the dirty set is emptied atomically. SMEMBERS and DEL are two
  commands: a mark escapes the batch if and only if it is its asset's first between SMEMBERS and the
  next DEL, and nothing marks the asset again.
- The index does not follow every write. Some writes of what a document copies queue no mark: the
  nightly recomputation of download and save counts, and an owner's display name taken over at
  login. An asset so written stays stale until something else marks it. And the producer's comment
  says a job id is refused while the job waits or runs, but the queue holds a finished job's id for a
  day as well, so of two changes of an asset for one reason the second may never be indexed.
  `WriteShowsExactly` says when a write shows, `UnmarkedAtRestExactly` which assets at rest were
  written after their last mark, and `RefusedShowsExactly` what a write without an accepted job does.
- The Discover rows equal the old form if and only if no ranked asset disappears between the two
  queries; one that does shifts every later summary one place.
- The two-pass reorder does trip the unique index when the list leaves out a slot that sits below
  the list's length. `Fits` is the exact condition.
- IPv6 text with "::" at either end, such as the loopback address, makes the conversion throw. A
  dotted IPv4 tail counts as one group and is read as its first octet's digits in base 16, so
  `64:ff9b::1.2.3.4` is taken for `64:ff9b::1`; the number read is right if and only if there is no
  tail, or a tail of four zeros with nothing but zero groups between it and the "::" or the start.
- A restore publishes an asset that was never shown before, with no checklist passed, exactly when
  the row has no publication date; an archived draft is one.
- With selection and removal apart, the purge deletes an asset restored in between.
- The dashboard total is too high by what an earlier rollup of the same date stored under a label
  that has emptied since. On a date's first rollup it is exact if and only if something was listed or
  the total shown before was 0: a rollup that lists nothing leaves the previous date showing.
- The media collector reads long descriptions only, and of those only `src` and `href`. An image in
  a comment or in release notes, a video's `poster` and the entries of an asset's gallery are stored
  and shown from the same bucket, and an old unmarked upload of one is aimed at. It is safe if and
  only if every key that some stored document mentions or some gallery shows is also under `src` or
  `href` of some long description (`SafeExactly`). All this is about rows of the uploads table that
  something outside this repository records: its own upload endpoint only signs a URL, and while no
  row is recorded a run takes nothing (`NothingRecordedNothingTaken`).
- The manifest keeps upload order among names of one directory that compare alike, and among the
  entries of one path. So it is the same for every order if and only if no two distinct such names,
  both of files or both of directories, stand in one directory and files at one path carry equal
  entries (`AnyOrderExactly`).

## Model

| member | source | states |
|---|---|---|
| Discover.IndexById | src/modules/assets/discover.service.ts:150 | the id index of the hydrated rows |
| Discover.GroupIds | src/modules/assets/discover.service.ts:156-161 | each category's ranked ids, in the order the query returned them |
| Discover.SortGroups | src/modules/assets/discover.service.ts:162-172 | every group sorted in place by date and id, newest first, missing rows tying with all others |
| Discover.Flatten | src/modules/assets/discover.service.ts:177-182 | the flat list: categories in order, each id tagged with its category |
| Discover.Hydrated | src/modules/assets/discover.service.ts:183-185 | the flat list's assets that were found, in order |
| Discover.SplitBack | src/modules/assets/discover.service.ts:187-194 | each category gets the summaries at its positions of the flat list |
| Discover.CollectRows | src/modules/assets/discover.service.ts:196-207 | the rows: category order kept, empty categories dropped |
| Discover.BuildRows | src/modules/assets/discover.service.ts:115-208 | the whole pipeline, with both early returns, computes PipelineRows |
| DiscoverRefinement.RowNumberAt | src/modules/assets/discover.service.ts:127-138 | the window function's row number is the position in the category's sorted published assets |
| DiscoverRefinement.TopMembers | src/modules/assets/discover.service.ts:127-142 | being ranked at most eight is being among the first eight of the category's own query |
| DiscoverRefinement.BatchedIsSimple | src/modules/assets/discover.service.ts:103-208 | for any row orders of both queries the pipeline equals one query per category, as the comment promises |
| DiscoverRefinement.RowsShowNewest | src/modules/assets/discover.service.ts:103-208 | read off the table: one row per category with something published, in order, each with its id, slug and name or slug, and the summaries of its eight newest published assets, undated last, ids breaking ties |
| DiscoverRefinement.BatchedExactly | src/modules/assets/discover.service.ts:103-208 | and it does so if and only if every ranked asset was still there to hydrate |
| DiscoverRefinement.MissingShifts | src/modules/assets/discover.service.ts:183-194 | a vanished asset puts a later category's asset into an earlier category's row |
| FanIn.OutstandingNext | src/modules/jobs/processors/analyze/analyze.worker.ts:35-123 | how each command moves the set of outstanding files |
| FanIn.InvPreserved | src/modules/jobs/processors/analyze/analyze.worker.ts:116-123 | every clean step keeps the counter at or below the outstanding files and a rollup on the way for unread results |
| FanIn.NeverSticks | src/modules/jobs/processors/analyze/analyze.worker.ts:52-123 | over all clean interleavings: the counter never exceeds the outstanding files, the last decrement is told to request, and at rest every result has been read by a later rollup |
| FanIn.EveryFileAnalysed | src/modules/jobs/processors/analyze/analyze.worker.ts:52-123 | in a clean run that comes to rest, every file counted by an upload or a reanalysis has an attempt that ends afterwards and a rollup that runs after that |
| FanIn.RetriedExactly | src/modules/jobs/jobs.producer.ts:60-64 | in any run an attempt is followed by another if and only if it failed and was not the fifth |
| FanIn.CleanIsExact | src/modules/files/files.service.ts:437-440 | from an exact counter a step keeps the bound if and only if it is accounted for |
| FanIn.BalancedExactly | src/modules/jobs/processors/analyze/analyze.worker.ts:108-123 | and it keeps the counter exact if and only if, besides, a reanalysis covers the outstanding files, a decrement is its file's last and the key is deleted at 0 |
| FanIn.EarlyExactly | src/modules/jobs/processors/analyze/analyze.worker.ts:108-123 | from an exact counter a decrement leads to a rollup request over an outstanding file if and only if its file is the only one and will be analysed again |
| FanIn.RequestHeardExactly | src/modules/jobs/jobs.producer.ts:84-88 | when the last file's request is made and nothing is counted afterwards, the results are read, whatever happens later, if and only if none were unread or the queue is not past the rollup it holds |
| FanIn.FanInExact | src/modules/jobs/processors/analyze/analyze.worker.ts:116-123 | without failures, increments before a DEL and reanalysis over outstanding work: counter equals outstanding files, never early, one request per drain |
| FanIn.SurplusStays | src/modules/jobs/processors/analyze/analyze.worker.ts:108-123 | a counter exactly some surplus too high keeps that surplus and requests no rollup over any undisturbed run without reanalysis |
| FanIn.StuckAtRest | src/modules/jobs/processors/analyze/analyze.worker.ts:116-123 | in particular from rest with a counter above 0, for good |
| FanIn.SecondUploadSticks | src/modules/jobs/jobs.producer.ts:84-88 | two whole uploads, all steps clean but the second request, dropped on the held rollup id: at rest the second result is unread |
| FanIn.RetainedIdSticks | src/modules/versions/versions.service.ts:55-59 | all steps clean but the add after a reanalysis, dropped on the held id of the finished analysis: at rest the counter is 1, and a later upload is analysed and never rolled up |
| FanIn.ReanalysisDuringUploadSticks | src/modules/versions/versions.service.ts:55-59 | all steps clean but completing an upload a reanalysis has counted already: one outstanding file is counted 2, and its result stays unread |
| FanIn.DeletedFileSticks | src/modules/jobs/processors/analyze/analyze.worker.ts:37-41 | all steps clean but the deletion of a file whose job waits: at rest the counter is 1, and a later upload is never rolled up |
| FanIn.RetryRollsUpEarly | src/modules/jobs/processors/analyze/analyze.worker.ts:52-65 | two uploads, all steps strict but one failed attempt: a rollup is about to be requested while the other file is outstanding |
| SearchIndex.InvPreservedAt | src/modules/jobs/processors/search/search-index-batch.worker.ts:77-97 | per asset, every command keeps: mirrored, dirty, in the batch with current documents, written after its last mark, or that mark escaped |
| SearchIndex.IndexAgreement | src/modules/jobs/processors/search/search-index-batch.worker.ts:77-161 | with every write of what documents copy a step of its own, whether or not a job follows: in every reachable state each asset is mirrored exactly, or dirty, or in the running batch, or was written after its last mark, or that mark escaped |
| SearchIndex.IndexShowsExactly | src/modules/jobs/processors/search/search-index-batch.worker.ts:99-161 | read off the row: an asset at rest, neither written after its last mark nor with that mark escaped, has a document at a locale if and only if it is published and translated there, with that text, its other fields and the category named at the locale, else in English, else by slug |
| SearchIndex.AtomicAgreement | src/modules/jobs/processors/search/search-index-batch.worker.ts:78-81 | with the drain atomic, as the comment intends, what is stale at rest was written after its last mark |
| SearchIndex.EscapedExactly | src/modules/jobs/processors/search/search-index-batch.worker.ts:78-81 | at every state of a run a mark has escaped if and only if it was its asset's first between SMEMBERS and the next DEL and the asset has not been marked since |
| SearchIndex.LostInGap | src/modules/jobs/processors/search/search-index-batch.worker.ts:78-81 | so at the end of any run |
| SearchIndex.UnmarkedExactly | src/modules/jobs/jobs.producer.ts:124-129 | an asset counts as unmarked if and only if some write of it has no mark after it |
| SearchIndex.UnmarkedAtRestExactly | src/modules/jobs/jobs.producer.ts:124-129 | at rest that is so if and only if at some write none of its jobs was waiting and none was accepted since, because none was added or the queue held each id |
| SearchIndex.WriteShowsExactly | src/modules/jobs/processors/search/search-index-batch.worker.ts:77-97 | an asset at rest is written, not again, and comes to rest: the index shows it if and only if some mark since did not fall into the gap of a batch that had not read it, or the documents are the same |
| SearchIndex.RefusedShowsExactly | src/modules/jobs/jobs.producer.ts:124-129 | with no job added, or each refused, it shows if and only if the documents are the same |
| SearchIndex.MarkEscapes | src/modules/jobs/processors/search/search-index.worker.ts:28-30 | an interleaving in which one escapes: everything at rest, a published asset missing |
| SearchIndex.WriteUnqueued | src/modules/jobs/processors/maintenance/analytics-rollup.worker.ts:102-106 | a run in which an indexed asset is written and no job is added: everything at rest, the index shows the old documents |
| SearchIndex.MarkDropped | src/modules/jobs/jobs.producer.ts:124-129 | a run in which the job of the second of two changes for one reason is refused: everything at rest, the index shows the first |
| SearchIndex.Collect | src/modules/jobs/processors/search/search-index-batch.worker.ts:83-92 | one document per translation of each marked published asset, with just the fields its row calls for, and both keys of each marked asset that is missing, unpublished or untranslated |
| Manifest.Node.NewFile | src/modules/jobs/processors/analyze/manifest.ts:29-35 | a fresh file node |
| Manifest.Node.NewDir | src/modules/jobs/processors/analyze/manifest.ts:40 | a fresh directory without children |
| Manifest.Node.FindDir | src/modules/jobs/processors/analyze/manifest.ts:38 | the first directory child of that name, if any |
| Manifest.Node.InsertFile | src/modules/jobs/processors/analyze/manifest.ts:25-44 | mutating the linked tree computes Inserted, touching only the tree's own nodes |
| Manifest.Node.SortRecursive | src/modules/jobs/processors/analyze/manifest.ts:46-53 | the in-place recursive sort computes SortedTree |
| Manifest.BuildManifest | src/modules/jobs/processors/analyze/manifest.ts:16-23 | the returned tree is the root directory over Manifest(files) |
| ManifestTree.RoundTrip | src/modules/jobs/processors/analyze/manifest.ts:16-44 | joining names along every path gives back exactly the input files as a multiset |
| ManifestTree.Shape | src/modules/jobs/processors/analyze/manifest.ts:38-53 | at every level directories before files, names of each kind in order, distinct directory names, no empty directory |
| ManifestTree.SortThenEach | src/modules/jobs/processors/analyze/manifest.ts:48-52 | sorting a level before or after its subtrees is the same |
| ManifestTree.ManifestCount | src/modules/jobs/processors/analyze/manifest.ts:16-23 | the tree holds an entry at a path as often as the input gives it |
| ManifestTree.CanonicalUnique | src/modules/jobs/processors/analyze/manifest.ts:46-53 | two canonical trees with the same entries at the same paths are equal |
| ManifestTree.ManifestCanonical | src/modules/jobs/processors/analyze/manifest.ts:16-53 | distinct paths give a canonical tree |
| ManifestTree.OrderIndependent | src/modules/jobs/processors/analyze/manifest.ts:16-53 | for distinct paths, and names that compare apart, every upload order gives the same tree |
| ManifestTree.SharedPathShowsOrder | src/modules/jobs/processors/analyze/manifest.ts:28-36 | two files at a one-segment path already show it |
| ManifestOrder.ManifestEntries | src/modules/jobs/processors/analyze/manifest.ts:16-53 | for any upload the tree holds at every path exactly the entries uploaded there, in upload order |
| ManifestOrder.ManifestSeen | src/modules/jobs/processors/analyze/manifest.ts:16-53 | every directory of the tree shows, among names that compare alike, its files in upload order and its directories in the order of their first files |
| ManifestOrder.SeenDetermines | src/modules/jobs/processors/analyze/manifest.ts:38-53 | an ordered tree is determined by what its directories so show |
| ManifestOrder.SameTreeExactly | src/modules/jobs/processors/analyze/manifest.ts:16-53 | for any comparator: two uploads give one tree if and only if in every directory, among names that compare alike, the same files come in the same order and so do the first files below each directory |
| ManifestOrder.SameTreeUntied | src/modules/jobs/processors/analyze/manifest.ts:16-53 | if names all compare apart: if and only if at every path they give the same entries in the same order |
| ManifestOrder.SwapShows | src/modules/jobs/processors/analyze/manifest.ts:28-36 | exchanging two files at one path with different entries, wherever they stand, changes the tree |
| ManifestOrder.AnyOrderExactly | src/modules/jobs/processors/analyze/manifest.ts:16-53 | for any comparator: all orders of an upload give one tree if and only if no two distinct names of files, or of directories, in one directory compare alike and files at one path carry equal entries |
| ManifestOrder.AnyOrderUntied | src/modules/jobs/processors/analyze/manifest.ts:16-53 | if names all compare apart: if and only if files at one path carry equal entries |
| ManifestOrder.TiedNamesShow | src/modules/jobs/processors/analyze/manifest.ts:48-51 | two files whose names compare alike show their upload order at distinct paths |
| TipTap.FilterAttrs | src/common/tiptap/validate.ts:150-159 | node attributes restricted to the allowed names |
| TipTap.CleanAttrs | src/common/tiptap/validate.ts:171-182 | mark attributes restricted, rel and target forced on links |
| TipTap.WalkMarks | src/common/tiptap/validate.ts:160-189 | allowed marks kept clean, one violation per disallowed one |
| TipTap.Walk | src/common/tiptap/validate.ts:127-195 | one walk returns Sanitized and appends Violations at the node's path |
| TipTap.ValidateTipTap | src/common/tiptap/validate.ts:203-232 | the rejections in the code's order, else the sanitized document |
| TipTapTheorems.OffenderFound | src/common/tiptap/validate.ts:132-169 | a path and code offend exactly when the node reached by the path, outside disallowed subtrees, has a type or mark the allowlist lacks or is a heading of numeric level below 1 or above its maximum |
| TipTapTheorems.ListsOffenders | src/common/tiptap/validate.ts:127-195 | the violation list holds exactly the offenders |
| TipTapTheorems.ListInOrder | src/common/tiptap/validate.ts:140-193 | strictly in visiting order |
| TipTapTheorems.NotBeforeItself | src/common/tiptap/validate.ts:140-193 | that order is strict, so each offender is listed once |
| TipTapTheorems.SoundAndComplete | src/common/tiptap/validate.ts:222-231 | no violation is reported if and only if at every node the type and marks are allowed and a heading with a numeric level has one from 1 to the maximum |
| TipTapTheorems.HeadingLevels | src/common/tiptap/validate.ts:141-149 | the full editor takes heading levels 1 to 3 only, the lite editor no heading |
| TipTapTheorems.LiteWithinFull | src/common/tiptap/validate.ts:34-117 | what the lite editor takes the full one takes, but for mentions |
| TipTapTheorems.Idempotent | src/common/tiptap/validate.ts:150-194 | the output conforms and sanitizing it again changes nothing |
| TipTapTheorems.UnchangedExactly | src/common/tiptap/validate.ts:150-187 | a conforming document comes back unchanged if and only if all its attributes are allowed and its links carry what is forced |
| TipTapTheorems.ShippedAllowForced | src/common/tiptap/validate.ts:79-113 | which holds for both editors: either allowlist lets a link carry what is forced on it |
| TipTapTheorems.NothingElseLost | src/common/tiptap/validate.ts:150-202 | of a conforming document exactly the attributes the allowlist names are kept, with their values; a link has rel "noopener nofollow" and its own target or "_blank" besides |
| TipTapTheorems.OutputLinksForced | src/common/tiptap/validate.ts:178-182 | every link mark of any output carries the forced rel and a target |
| TipTapTheorems.TextKept | src/common/tiptap/validate.ts:190-193 | the texts of a conforming document survive in order |
| TipTapTheorems.RenderInjective | src/common/tiptap/validate.ts:143-192 | the written path of a violation leads back to one place only |
| EditorMediaGc.WalkTipTap | src/modules/jobs/processors/maintenance/editor-media-gc.worker.ts:90-114 | the collecting recursion adds exactly Harvest |
| EditorMediaGc.HarvestExact | src/modules/jobs/processors/maintenance/editor-media-gc.worker.ts:95-113 | a key is harvested if and only if it is not empty and a chain of content, marks and array steps leads to an attrs object whose src or href is a string that extracts to it |
| EditorMediaGc.SanitizedHarvest | src/modules/jobs/processors/maintenance/editor-media-gc.worker.ts:73-114 | from a document the full sanitizer wrote: exactly the keys src of image, video and embed and href of link extract to |
| EditorMediaGc.PosterNotHarvested | src/common/tiptap/validate.ts:74 | a video's poster is allowed, kept and not harvested |
| EditorMediaGc.CollectReferencedKeys | src/modules/jobs/processors/maintenance/editor-media-gc.worker.ts:77-87 | the union of the harvests of the long descriptions, of no other stored document |
| EditorMediaGc.Store.SelectOrphans | src/modules/jobs/processors/maintenance/editor-media-gc.worker.ts:52-55 | any 1000 of the old unmarked rows, all of them when there are no more |
| EditorMediaGc.Store.RemoveOrphans | src/modules/jobs/processors/maintenance/editor-media-gc.worker.ts:58-69 | objects of the selected orphans go, except where their deletion throws, and then their rows, except where that throws |
| EditorMediaGc.Store.Process | src/modules/jobs/processors/maintenance/editor-media-gc.worker.ts:44-71 | the whole new state of a run |
| EditorMediaGc.CollectedExactly | src/modules/jobs/processors/maintenance/editor-media-gc.worker.ts:77-114 | a key is collected if and only if a long description mentions it under src or href, at any depth |
| EditorMediaGc.RunTakesExactly | src/modules/jobs/processors/maintenance/editor-media-gc.worker.ts:44-69 | whoever needs it, a run takes an upload's object if and only if the upload is unmarked, older than seven days, not so mentioned, and its deletion does not throw |
| EditorMediaGc.SafeExactly | src/modules/jobs/processors/maintenance/editor-media-gc.worker.ts:73-87 | over documents of all tables and all galleries: no run on any uploads aims at a needed object if and only if every needed key is mentioned by a long description under src or href |
| EditorMediaGc.CommentImageTaken | src/modules/comments/comments.service.ts:150 | an image in a comment and in release notes is accepted, kept, needed and, once a row records it that is old, among the run's targets |
| EditorMediaGc.PosterTaken | src/common/tiptap/validate.ts:74 | so is a video's poster in a long description |
| EditorMediaGc.GalleryTaken | src/modules/assets/asset-mapper.service.ts:130-142 | and a gallery entry, its original and what is displayed for it |
| EditorMediaGc.NothingRecordedNothingTaken | src/modules/files/files.service.ts:383-393 | while nothing records an upload, no sequence of runs takes anything |
| EditorMediaGc.NamedOnceKept | src/modules/jobs/processors/maintenance/editor-media-gc.worker.ts:46-69 | an upload collected in any run keeps its row, mark and object through every later run |
| Comments.CommentTable.Create | src/modules/comments/comments.service.ts:145-182 | the refusals in the code's order and the depth rule of a new comment |
| Comments.CreatedExactly | src/modules/comments/comments.service.ts:145-182 | which comment is refused for what; any other is stored as given, one level below its parent, an issue only at the top, and the rest of the table stays |
| Comments.CommentTable.AdminDelete | src/modules/comments/comments.service.ts:262-275 | admins only; a delete only stamps the row |
| Comments.InvReached | src/modules/comments/comments.service.ts:152-165 | every run keeps parents present, one level up and of the same asset |
| Comments.DepthIsAncestors | src/modules/comments/comments.service.ts:152-165 | in every reachable state depth is the number of ancestors and below five |
| Comments.QueryIsComplete | src/modules/comments/comments.service.ts:74-95 | the hop limit loses nothing: found are exactly the live descendants along live replies |
| Comments.FoundOnce | src/modules/comments/comments.service.ts:77-84 | each at one hop only |
| Comments.GroupByParent | src/modules/comments/comments.service.ts:102-107 | the rows of each parent, in order |
| Comments.ToTree | src/modules/comments/comments.service.ts:97-143 | the tree of the root, or the two errors |
| Comments.BuildIsTree | src/modules/comments/comments.service.ts:108-138 | every node carries, in row order, exactly the rows whose parent it is |
| Comments.TreeIsThread | src/modules/comments/comments.service.ts:97-143 | the tree holds each live reply below its root exactly once and nothing else, siblings oldest first |
| Comments.ThreadLayered | src/modules/comments/comments.service.ts:108-109 | what the query returns always satisfies ToTree's precondition, so the recursion ends |
| Comments.ListThreads | src/modules/comments/comments.service.ts:55-60 | in every reachable state the listing of a page of top-level rows is the whole thread of each, in order, with the fields of the table |
| Excerpt.ExcerptOf | src/modules/comments/comments.service.ts:230-240 | the first 140 UTF-16 units of the texts joined by spaces |
| Excerpt.WordsApart | src/modules/comments/comments.service.ts:239 | the texts can be told apart again at the spaces |
| Excerpt.UnitsDecode | src/modules/comments/comments.service.ts:239 | the units are the UTF-16 text of the characters |
| Excerpt.ExcerptKept | src/modules/comments/comments.service.ts:230-240 | the excerpt is the same before and after sanitizing |
| Lifecycle.AssetTable.Create | src/modules/assets/assets.service.ts:91-99 | a draft without dates |
| Lifecycle.AssetTable.Publish | src/modules/assets/assets.service.ts:306-349 | refused in the code's order, else published now, archivedAt untouched |
| Lifecycle.AssetTable.Archive | src/modules/assets/assets.service.ts:351-353 | the owner's archive as a state transition |
| Lifecycle.AssetTable.SoftDelete | src/modules/assets/assets.service.ts:374-376 | the owner's delete as a state transition |
| Lifecycle.AssetTable.TransitionStatus | src/modules/assets/assets.service.ts:378-394 | status and purge clock set together, or the refusal |
| Lifecycle.AssetTable.Restore | src/modules/assets/assets.service.ts:355-372 | from archived or deleted only: published, clock cleared, first publication date kept |
| Lifecycle.AssetTable.AdminArchive | src/modules/admin/assets-moderation.service.ts:43-64 | needs a reason that is not blank, then as the owner's |
| Lifecycle.AssetTable.AdminRestore | src/modules/admin/assets-moderation.service.ts:66-87 | as the owner's, without ownership |
| Lifecycle.AssetTable.AdminSoftDelete | src/modules/admin/assets-moderation.service.ts:89-110 | needs a reason that is not blank, then as the owner's |
| Lifecycle.AssetTable.ForceDelete | src/modules/admin/assets-moderation.service.ts:117-125 | the row goes at once, unless removing its objects throws first |
| Lifecycle.AssetTable.PurgeProcess | src/modules/jobs/processors/maintenance/archive-purge.worker.ts:54-75 | exactly the selected assets whose own purge does not throw are removed |
| Lifecycle.RefusedExactly | src/modules/assets/assets.service.ts:51-54 | each call is refused for just its reason: an owner's call if and only if the asset exists and the caller is neither its owner nor an admin, a moderator's if trimming leaves no reason |
| Lifecycle.OwnersOnly | src/modules/assets/assets.service.ts:306-394 | over all runs: whoever published, archived, restored or deleted an asset by the owner's calls is the owner named at its creation or an admin |
| Lifecycle.StatusExactly | src/modules/assets/assets.service.ts:331-390 | in every reachable state the status is that of the last event that took effect |
| Lifecycle.PublishedAtExactly | src/modules/assets/assets.service.ts:331-368 | the publication date is that of the last publish since creation, or of the first restore if there was none |
| Lifecycle.ArchivedAtExactly | src/modules/assets/assets.service.ts:366-390 | the purge clock stands at the last shelving not followed by a restore, and is off if there is none |
| Lifecycle.PurgeExact | src/modules/jobs/processors/maintenance/archive-purge.worker.ts:54-62 | over all runs: an asset is purged if and only if the last thing that took effect on it was an archive or delete, by either service, at least the configured days before |
| Lifecycle.DormantThroughout | src/modules/jobs/processors/maintenance/archive-purge.worker.ts:54-62 | with a monotone clock it was dormant, in one unchanged row, over all of that time |
| Lifecycle.PublishedDated | src/modules/assets/assets.service.ts:331-368 | in every reachable state a published asset has a publication date, that of a publish just before, and is off the purge clock after a restore |
| Lifecycle.PublishedExactly | src/modules/assets/assets.service.ts:319-368 | published if and only if the last effective event was a publish with no checklist error or a restore |
| Lifecycle.NeverShownExactly | src/modules/assets/assets.service.ts:331-368 | over all runs: a row has no publication date if and only if no publish and no restore took effect since it was created |
| Lifecycle.RestoreShowsFirstExactly | src/modules/assets/assets.service.ts:355-372 | a restore by either service shows an asset never shown before, with no checklist passed since its creation, if and only if the row has no publication date |
| Lifecycle.DraftPublishedByRestore | src/modules/assets/assets.service.ts:355-372 | it happens to an archived draft, whatever the checklist would say |
| Lifecycle.RestoreUndoes | src/modules/admin/assets-moderation.service.ts:66-77 | a restore by either service undoes an archive or delete by either service |
| Lifecycle.RemovalSafeExactly | src/modules/jobs/processors/maintenance/archive-purge.worker.ts:56-75 | with selection and removal apart, removal is still right if and only if nothing took effect on the asset in between, whatever happens to others |
| Lifecycle.RestoredYetPurged | src/modules/jobs/processors/maintenance/archive-purge.worker.ts:56-75 | a restore in between does not save it |
| Storage.ContainsMeans | src/modules/jobs/processors/maintenance/storage-rollup.worker.ts:133-137 | the substring test finds exactly the occurrences |
| Storage.AssetIdExact | src/modules/jobs/processors/maintenance/storage-rollup.worker.ts:139-143 | the id is matched if and only if the key starts with assets/, that whole segment and a slash |
| StorageReport.LabelExactly | src/modules/jobs/processors/maintenance/storage-rollup.worker.ts:133-137 | the label of an object, read off its bucket and key |
| StorageReport.WalkedExactly | src/modules/jobs/processors/maintenance/storage-rollup.worker.ts:145-155 | a listing is read up to the first page that is not truncated or has no usable token |
| StorageReport.CountersExactly | src/modules/jobs/processors/maintenance/storage-rollup.worker.ts:66-74 | a bucket's counters hold, per label some object has, the bytes and number of those objects |
| StorageReport.PerAssetExactly | src/modules/jobs/processors/maintenance/storage-rollup.worker.ts:76-79 | an asset's row is the bytes of the objects under its prefix |
| Storage.WalkBucket | src/modules/jobs/processors/maintenance/storage-rollup.worker.ts:145-155 | all pages up to the first that asks for no more |
| Storage.PaginationIrrelevant | src/modules/jobs/processors/maintenance/storage-rollup.worker.ts:145-155 | however the listing is cut into pages, nothing is dropped |
| Storage.Attribute | src/modules/jobs/processors/maintenance/storage-rollup.worker.ts:76-93 | an object's bytes go to its asset, and to the owner when known |
| Storage.Tally | src/modules/jobs/processors/maintenance/storage-rollup.worker.ts:66-94 | the loop over one bucket computes the three maps |
| Storage.Snapshots.UpsertDaily | src/modules/jobs/processors/maintenance/storage-rollup.worker.ts:96-102 | the bucket's rows of the date replaced or added, others kept |
| Storage.Snapshots.UpsertUsers | src/modules/jobs/processors/maintenance/storage-rollup.worker.ts:105-111 | likewise for users |
| Storage.Snapshots.UpsertAssets | src/modules/jobs/processors/maintenance/storage-rollup.worker.ts:112-118 | likewise for assets |
| Storage.Snapshots.RollBuckets | src/modules/jobs/processors/maintenance/storage-rollup.worker.ts:58-103 | the three buckets in turn |
| Storage.Snapshots.Process | src/modules/jobs/processors/maintenance/storage-rollup.worker.ts:45-122 | all three tables after a run |
| StorageReport.PrefixTotals | src/modules/jobs/processors/maintenance/storage-rollup.worker.ts:66-74 | the label totals sum to the bucket's bytes and object count |
| StorageReport.UserRowExact | src/modules/jobs/processors/maintenance/storage-rollup.worker.ts:80-91 | a user's row is the sum over exactly the assets seen that the user owns, and assetCount their number |
| StorageReport.UserConservation | src/modules/jobs/processors/maintenance/storage-rollup.worker.ts:76-93 | per-user bytes sum to per-asset bytes over assets with a known owner |
| StorageReport.AssetConservation | src/modules/jobs/processors/maintenance/storage-rollup.worker.ts:76-79 | per-asset bytes sum to the bytes of objects under an asset |
| StorageReport.RolledAt | src/modules/jobs/processors/maintenance/storage-rollup.worker.ts:96-102 | a row of the table is written exactly if its label was counted in its own bucket, else untouched |
| StorageReport.DailyExactly | src/modules/jobs/processors/maintenance/storage-rollup.worker.ts:58-103 | after a rollup the table has a row for its date, bucket and label if and only if some listed object has the label, with their bytes and number, and is otherwise as before |
| StorageReport.DashboardTotal | src/modules/admin/dashboard.service.ts:117-148 | the total is all bytes listed plus the stale rows of the date; exact if and only if those hold nothing |
| StorageReport.DashboardParts | src/modules/admin/dashboard.service.ts:132-147 | each figure is the bytes listed under its label plus that label's own stale row |
| StorageReport.FirstRollupExactly | src/modules/admin/dashboard.service.ts:117-148 | on a date's first rollup it is exact if and only if anything was listed or the total shown before was 0 |
| StorageReport.EmptyRollupShowsOld | src/modules/jobs/processors/maintenance/storage-rollup.worker.ts:96-102 | a rollup of empty buckets leaves the table, and so the shown date, as it was |
| Featured.FeaturedTable.NextOrder | src/modules/featured/featured.service.ts:58-60 | one above the highest sort order, or 0 |
| Featured.FeaturedTable.Create | src/modules/featured/featured.service.ts:40-71 | the refusals in order, else the new slot |
| Featured.FeaturedTable.Update | src/modules/featured/featured.service.ts:96-130 | the cap and the unique index checked, else the new row |
| Featured.FeaturedTable.Remove | src/modules/featured/featured.service.ts:142-149 | the slot goes, or is not found |
| Featured.FeaturedTable.Reorder | src/modules/featured/featured.service.ts:163-191 | both passes commit or nothing changes |
| Featured.PlaceAll | src/modules/featured/featured.service.ts:179-190 | one pass, update by update against the unique index |
| Featured.ReorderExactly | src/modules/featured/featured.service.ts:174-191 | the transaction commits if and only if no left-out slot sits where a pass puts one; then the list is numbered from 0 and all else is as before |
| Featured.FullReorderCommits | src/modules/featured/featured.service.ts:174-191 | a reorder of all slots below the offset always commits |
| Featured.PartialReorderCommits | src/modules/featured/featured.service.ts:174-191 | so does one whose left-out slots sit at or above the list's length |
| Featured.PartialReorderTrips | src/modules/featured/featured.service.ts:159-161 | another does not, against the comment |
| Featured.CapHolds | src/modules/featured/featured.service.ts:48-129 | any sequence of calls keeps sort orders distinct and at most five slots active |
| Featured.LimitDropsNone | src/modules/assets/discover.service.ts:64-70 | the Discover limit drops no active slot |
| Featured.ShownInSequence | src/modules/assets/discover.service.ts:64-70 | after a reorder the listed active slots are shown in the listed sequence |
| Paging.ResolvePageSize | src/common/pagination/list-query.dto.ts:29-35 | the requested size from 1 to 100, 100 above that, 24 for none or less than 1 |
| Paging.List | src/modules/audit/audit.controller.ts:22-61 | the envelope built in line is the shared helper's over the filtered, ordered rows |
| Paging.OrderedRows | src/modules/audit/audit.controller.ts:28-45 | the rows paged through are those no given filter rules out, each once, later first and the greater id first at one moment |
| Paging.PageFrom | src/common/pagination/cursor.ts:42-52 | a page shows the next rows, says more remain exactly if some do, and its cursor continues there |
| Paging.PageCountIsCeiling | src/modules/audit/audit.controller.ts:39-61 | the number of pages is the ceiling of rows over page size, at least one |
| Paging.VisitsAll | src/modules/audit/audit.controller.ts:22-61 | following nextCursor visits every matching row exactly once in order and stops after that many pages, hasMore on all but the last |
| RateLimit.Redis.Incr | src/common/rate-limit/rate-limit.guard.ts:42 | counts on a live key, starts at 1 without expiry on an absent or expired one |
| RateLimit.Redis.Expire | src/common/rate-limit/rate-limit.guard.ts:43-45 | sets the expiry of a live key |
| RateLimit.CanActivate | src/common/rate-limit/rate-limit.guard.ts:24-76 | the new store and the answer of one request |
| RateLimit.KeyInjective | src/common/rate-limit/rate-limit.guard.ts:38-40 | distinct names without a colon, identifiers (colons allowed) or windows never share a key |
| RateLimit.PassesExactly | src/common/rate-limit/rate-limit.guard.ts:39-60 | in any run a request passes if and only if fewer than max earlier ones of its client fell into its window: the expiry never resets a counter inside its window |
| RateLimit.IdentifierExactly | src/common/rate-limit/rate-limit.guard.ts:62-76 | what a limit counts by is the user's id, the address or nothing, by its scope; without a user or address nothing is counted |
| RateLimit.RefusalExactly | src/common/rate-limit/rate-limit.guard.ts:39-60 | any other is told the seconds left of its window, or 1 |
| RateLimit.FirstMaxPass | src/common/rate-limit/rate-limit.guard.ts:42-60 | each window lets exactly the first max through |
| RateLimit.SpanBound | src/common/rate-limit/rate-limit.guard.ts:11-14 | any span of one window length, aligned or not, lets at most twice max through |
| RateLimit.RetryAfterEndsWindow | src/common/rate-limit/rate-limit.guard.ts:47-50 | Retry-After is the seconds to the window's end, or 1 past it, at most the window, and waiting it out leaves the window |
| CidrAddresses.ReadsAddress | src/modules/metrics/metrics.controller.ts:73-88 | every address of RFC 4291 section 2.2, in each of its three forms, and every dotted quad is read as ReadAs, below 2^width, exactly unless its "::" stands at an end; then it throws |
| CidrAddresses.ReadsRight | src/modules/metrics/metrics.controller.ts:73-88 | what is read is the number the address denotes if and only if it has no dotted tail, or one of four zeros with nothing but zero groups between it and the "::" or the start |
| CidrAddresses.HexValueExactly | src/modules/metrics/metrics.controller.ts:80 | the value of a group is that of its digits, of either case, in base 16 |
| CidrAddresses.FirstOctetOnly | src/modules/metrics/metrics.controller.ts:77-80 | after groups and "::" a tail with a first octet other than 0 is read as the group written with that octet's digits, and wrongly |
| CidrAddresses.TailMisread | src/modules/metrics/metrics.controller.ts:77-80 | "64:ff9b::1.2.3.4" is read as "64:ff9b::1" |
| CidrAddresses.InteriorExpands | src/modules/metrics/metrics.controller.ts:83-88 | an interior "::" is filled with the missing zero groups to eight |
| CidrAddresses.LoopbackThrows | src/modules/metrics/metrics.controller.ts:83-88 | "::1" throws |
| CidrBlocks.ParsesTo | src/modules/metrics/metrics.controller.ts:60-71 | what any line made of a well-formed address and text after slashes becomes |
| CidrBlocks.NoAddressNoEntry | src/modules/metrics/metrics.controller.ts:60-64 | a line that starts with no address is no entry, and what is no address matches none |
| CidrBlocks.EntryMask | src/modules/metrics/metrics.controller.ts:68-70 | the XOR mask is the high-bit mask and the base keeps those bits only |
| CidrBlocks.MatchIsAgreement | src/modules/metrics/metrics.controller.ts:90-94 | an address matches if and only if the families agree and the first bits of what is read agree, for every prefix length (RFC 4632 section 3.1) |
| CidrBlocks.MatchIsTrue | src/modules/metrics/metrics.controller.ts:60-94 | and of what the addresses denote, when both are read right |
| CidrBlocks.HostBitsIgnored | src/modules/metrics/metrics.controller.ts:67-70 | two lines of one prefix length become one entry if and only if what is read of their addresses agrees on the prefix |
| CidrBlocks.BlockSize | src/modules/metrics/metrics.controller.ts:68-70 | a block has 2^(width - bits) addresses |
| CidrBlocks.NestedOrDisjoint | src/modules/metrics/metrics.controller.ts:68-70 | two blocks are nested or disjoint, nested exactly when the narrower base agrees with the wider prefix |
| Bits.BitByBit | src/modules/metrics/metrics.controller.ts:69-80 | AND, OR and XOR go bit by bit |
| Bits.XorOfOnes | src/modules/metrics/metrics.controller.ts:69 | all ones XOR the low ones is the mask of the high bits |
| Bits.AndHigh | src/modules/metrics/metrics.controller.ts:70 | masking clears the low bits and nothing else |
| Bits.OrShifted | src/modules/metrics/metrics.controller.ts:75-80 | shift-and-or appends a digit |

## Left out

- The clients of Postgres, Redis, S3, Meilisearch, Mongo and the queue; identifiers, hashes, presigned URLs and the JSON and base64url form of cursors are abstract.
- Controllers, DTO validation, guards other than the rate limiter, notifications, audit records, cache invalidation, thumbnails, extractors and other subprocess work.
- FanIn and SearchIndex are state machines on values, one step per command, not classes: what matters there is the interleaving of several workers, which a method cannot show.
- FanIn: analyser results, dependency rows and the rollup's own work are not modelled; database writes and the rollup job are taken to succeed, and a reanalysis request is taken to read a file list that is not empty, as the early return ensures.
- SearchIndex: batches and mark jobs do not fail, rows and translations are never removed, a batch reads an asset at one moment, and adding to the set and finishing the job are one step; the tag mirror and the direct index writes of forced deletion and of the purge are not modelled.
- Discover: when a ranked asset has vanished the comparator ties it with everything and is no longer an order; the library sort's outcome is then taken as the stable insertion sort's (the exact condition counts rows and does not depend on it). SQL and JavaScript are taken to order ids alike, and a ranked asset may be removed between the two queries but is not changed, archived or published again say. The cache in front of the rows, presigning and the summary mapping itself (any function of the asset) are not modelled.
- Manifest: the name comparison is an abstract total preorder, under which distinct names may compare alike; numbers above 2^53 lose no precision.
- TipTap: documents that are not shaped like TipTap nodes (a mark list that is not a list, say) are not modelled, and the size of the output, which forced link attributes can push past the byte cap, is not bounded.
- EditorMediaGc: URL parsing is a partial function; a document saved between collecting and deleting, and any `attrs` that is an array, are not modelled; what a document needs is what the string attributes of its nodes and marks point at, and what an asset needs besides are the two keys of each gallery entry; client code that would record uploads is not part of this model.
- Comments: the author lookup, edits and issue status are not modelled; a reply created between the two queries of a read is not either.
- Lifecycle: each call is one step, so two calls do not interleave between read and write; transfers of ownership, the objects in S3, which a purge that throws halfway has already deleted, and version dates are not modelled.
- Storage: a bucket changing between pages is not modelled.
- Featured: the cap check and the write are one step, though the code takes no lock; banner keys and titles are not modelled.
- Paging: rows inserted or deleted between pages are not modelled; that a cursor whose row does not match the filters gives an empty page is a convention of the model, not known of the database client.
- RateLimit: clock reading and INCR are one step, INCR and EXPIRE do not fail in between, a handler without a limit is not modelled, and the division is exact, as it is for doubles at present times.
- Text: strings are sequences of characters and compared character by character, where JavaScript compares units of UTF-16; only the excerpt counts those.
- Cidr: zone identifiers and the platform's address test are not modelled.
