# Verification of the delivery service's stateful core

This project models the hard parts of the delivery service and proves what they promise. It is written in Dafny 4.11
and stands alone; `dafny verify dfyconfig.toml` checks all of it.

| file | what it models |
|---|---|
| `CacheKeys.dfy` | the canonical serialiser behind cache keys, with a parser that undoes it |
| `CacheIdentity.dfy` | the key a cached call is stored under, and the keys a metadata write invalidates |
| `FunctionCache.dfy` | the cache table, and interleaved computations, stores, reads, invalidations and pruning |
| `LikePatterns.dfy` | search values with wildcards, compiled to `LIKE` patterns |
| `Criteria.dfy` | search criteria, compiled to a clause in three-valued logic |
| `Paging.dfy` | seek pagination with a post-filter and a limit on rounds |
| `CursorTrail.dfy` | following the cursors of the search on any data, with nulls in sort columns |
| `LosslessPaging.dfy` | exactly which data paging returns completely, and which without repetition |
| `Scope.dfy` | recursive component scope: worklist search, the clause built from it, and the depth-first walk |
| `Upsert.dfy` | the indexed bulk upsert and the discovery dates new rows inherit |
| `Backlog.dfy` | the backlog as a protocol over a versioned object store, with workers, creators and the controller |
| `Snapshots.dfy` | compliance snapshots over repeated runs of the artefact enumerator |
| `Sprints.dfy` | sprint generation on the Gregorian calendar |
| `CryptoAssets.dfy` | references among crypto assets and their aggregation in place |
| `AssetKeys.dfy` | what the key of a crypto asset tells apart |
| `Pruning.dfy` | pruning of the cache in chunks |
| `LogTruncation.dfy` | fitting logs into a byte budget measured on their JSON form |
| `VersionDiff.dfy` | the merged difference of two component trees |
| `Common.dfy` | options, results, sorting by a text key |

Code that updates state in place is a class or a method with its loops, proved against a function of the old state; the
promises are then lemmas about that function or about runs of a step function. Interleavings (cache, backlog) and
repeated runs (snapshots) are sequences of steps, so the results hold for every run.

## What turned out differently from the documentation or from what one would expect

- A search that excludes a full-text value over no fields at all has no effect, although the documentation lets every
  exclude rule rows out. This rests on an assumption about SQLAlchemy, whose code is not part of this model: an `or_()`
  without elements is left out of a conjunction even when negated (`Criteria.Clause`, followed by `Criteria.Wanted`).
- An exclude also drops rows that lack the value it looks at (`Criteria.ExcludeDropsRowWithoutValue`);
  `Criteria.NoMissingValuesNoDifference` says when this makes no difference.
- A wrapped pattern means "contains" exactly if the value does not end in a literal `%`
  (`LikePatterns.WrapMeansContains`).
- On data without nulls in the sort columns paging loses rows exactly if some request sees nothing but rejected rows in
  all its rounds (`Paging.WalkIsComplete`).
- With nulls in sort columns paging can lose rows and repeat them. `LosslessPaging.ReturnsAllIff` says exactly on which
  sorted data everything is returned for all filters and limits, and `LosslessPaging.ReturnsInOrderIff` on which
  nothing comes twice:
  - A null that is kept in the cursor hides every row behind it for which the first sort column that differs, or is null
    on either side, is null (`CursorTrail.KeepsBehindIfDecided`). A cursor that begins with a null ends the paging
    (`CursorTrail.NullCursorEndsPaging`).
  - A null component name or type is written into the cursor as `None`. In descending order this hides the rows that
    agree with it in the sort columns before and have a value that ranks above that text
    (`CursorTrail.NamelessCursorEndsPaging`, `CursorTrail.NamelessRowHidesRest`); in ascending order it leads back to
    them (`CursorTrail.NamelessRowRepeats`). Nothing else leads back (`LosslessPaging.LeadsBackOnlyByText`).
  - Paging ends on any data (`CursorTrail.ScanAdvances`).
- A metadata write does not stop a computation in flight from storing and serving an outdated result. That nothing
  outdated is served afterwards holds exactly if nothing in flight for the key can still outlive the write
  (`FunctionCache.WriteTakesEffectIff`).
- The cycle index of a sprint stays below the configured number of cycles for every start date exactly if one sprint
  more than the cycles fits into 365 days (`Sprints.CycleBoundIsExact`); otherwise some start date makes it overrun.
- A backlog item claimed by a process without `HOSTNAME` is claimed by `local`, which is never among the running pods:
  the controller's first sweep removes the claim, although the process may still be at work
  (`Backlog.LocalClaimIsRemovedAtOnce`).
- A versioned search never finds rows of a component that owns no artefact (`Scope.BareComponentIsNotFound`).
- The comment at `src/k8s/backlog.py:261-262` says that priority patches cannot conflict, but the patch sends the whole
  object, resource version included. The model assumes that the store checks it; without the check two workers can hold
  one item (`Backlog.UncheckedPatchLetsTwoClaim`).
- The retry of a conflicting claim removal fails at the annotations its first attempt deleted
  (`Backlog.Body.RemoveClaim`), so a conflicting removal never takes effect.
- The docstring of `iter_sprint_dates` excludes the end date; the code yields one date that is not before it
  (`Sprints.IterSprintDates`).
- With a grace period of zero a deactivated snapshot is deleted at once and its backlog item is lost
  (`Snapshots.DeactivationNotifies`).
- A batch with two datasources for one artefact and type fails as a whole (`Upsert.SecondDatasourceFails`).
- A log list cannot be trimmed below two bytes; the loop of the source would not end
  (`LogTruncation.NothingFitsBelowTwo`).

## Model

| member | source | states |
|---|---|---|
| CacheKeys.NormaliseRenders | src/deliverydb_cache/util.py:13-80 | A successful call returns a text that depends on the value alone, not on the nesting depth it is made at. |
| CacheKeys.SerialisesIff | src/deliverydb_cache/util.py:31-80 | A call succeeds if and only if there is no generator in the value, none of the five join sequences occurs in a plain text or enum, and the value nests at most 100 levels deep, counted from the depth of the call; a record takes two levels, inside a record one. |
| CacheKeys.JoinIsSlice | src/deliverydb_cache/util.py:31-48 | The check for join sequences finds one exactly if it is a slice of the text. |
| CacheKeys.CleanSerialises | src/deliverydb_cache/util.py:13-80 | Every clean value has a key unless it nests too deep. |
| CacheKeys.ParsePrint | src/deliverydb_cache/util.py:31-80 | The parser reads every printed tree of clean atoms back, whatever follows it in the text. |
| CacheKeys.SerialisedParsesBack | src/deliverydb_cache/util.py:13-80 | The output for a clean value parses back to the value's canonical tree, with lists and mappings sorted. |
| CacheKeys.EqualTextsMeanTheSame | src/deliverydb_cache/util.py:31-80 | Equal keys mean values that are equal up to the order of lists and mappings. |
| CacheKeys.EqualMeaningsTextTheSame | src/deliverydb_cache/util.py:31-80 | Values that differ only in the order of lists and mappings get one key, if no mapping has two keys of one text. |
| CacheKeys.KeyIsMeaning | src/deliverydb_cache/util.py:13-80 | On clean values keys are equal if and only if the meanings are. |
| CacheKeys.EmptyTextCollides | src/deliverydb_cache/util.py:45-78 | Outside that domain `[]` and `['']` share a key. |
| CacheKeys.UncheckedTextCollides | src/deliverydb_cache/util.py:44-80 | An object printed by `str` without the check for join characters can spell the empty list. |
| CacheKeys.SameKeyTextsKeepOrder | src/deliverydb_cache/util.py:59-71 | Two mapping keys of one text make the cache key depend on the mapping's order. |
| CacheIdentity.WriterAgreesWithInvalidator | src/deliverydb/cache_async.py:134-156 | The key recomputed on a metadata write is the key the summary was stored under, for every keyword order, enum or text form and whatever excluded arguments were passed; both fail on the same inputs. |
| CacheIdentity.KeyTellsSummariesApart | src/deliverydb_cache/model.py:66-75 | On clean texts two summaries share a key only if component, finding type and datasource agree. |
| CacheIdentity.KeyTellsCallsApart | src/deliverydb_cache/model.py:66-75 | The key of any cached call determines encoding, function name and what the arguments mean. |
| CacheIdentity.FunctionKeyExistsIff | src/deliverydb/cache_async.py:150-155 | The key of a call can be built exactly if its arguments can be serialised from the outermost level on. |
| CacheIdentity.KeyExistsIff | src/metadata.py:1536-1547 | The key of a summary exists if and only if none of component name, version, finding type and datasource holds a join sequence. |
| CacheIdentity.UnnameableIff | src/metadata.py:1501-1547 | What makes the collection fail, by the texts of the row: an unknown datasource of a scan info, or a join sequence in a text that a summary concerned is named by. |
| CacheIdentity.CollectSummaryKeys | src/metadata.py:1501-1547 | Collects the keys of exactly the summaries a row concerns: none for a row with an unset column, one for a row of a known type, those of all known types of the datasource for a scan info. Fails exactly if one cannot be named, which clean texts and a known datasource rule out. |
| CacheIdentity.WriteInvalidatesExactlyItsSummaries | src/metadata.py:1365-1372 | The keys marked by a write include a stored summary's key exactly if the row concerns that component, finding type and datasource. |
| LikePatterns.CompilesCharByChar | src/metadata.py:125-131 | The replacements in sequence do not disturb each other: the pattern is the codes of the characters, one after the other. |
| LikePatterns.CodeMatches | src/metadata.py:125-131 | The code of a value matches a text under `ESCAPE '\'` exactly as the value reads with `*` as any run. |
| LikePatterns.PatternMatchesGlob | src/metadata.py:129-140 | The unwrapped pattern matches exactly the texts the value reads. |
| LikePatterns.WrapAddsStars | src/metadata.py:129-140 | Wrapping adds a wildcard at either end, unless the pattern has a `%` there, escaped or not. |
| LikePatterns.WrappedMatches | src/metadata.py:129-140 | The wrapped pattern matches if some part of the text does, or only its end if the value ends in a literal `%`. |
| LikePatterns.WrapMeansContains | src/metadata.py:129-140 | Wrapping means "contains" for every text exactly if the value does not end in a literal `%`. |
| LikePatterns.PredLikeIgnoresCase | src/metadata.py:143-146 | Lower-casing column and pattern is matching the lower-cased value. |
| Criteria.PredTruth | src/metadata.py:143-342 | The clause of a single criterion is true, unknown or false as the row satisfies it, lacks the value that would decide it, or fails it. |
| Criteria.CollectPreds | src/metadata.py:380-390 | The loop over one kind of criteria keeps their clauses in order and rejects exactly the malformed ones. |
| Criteria.GroupMetadata | src/metadata.py:392-404 | Groups metadata clauses by attribute, attributes in order of first use; fails exactly on a malformed criterion. |
| Criteria.AppendAttrs | src/metadata.py:406-411 | The appended parts hold exactly if every attribute's alternatives hold, or for excludes none of them does. |
| Criteria.OcmParts | src/metadata.py:380-390 | Includes of components are alternatives, excludes are ruled out together. |
| Criteria.FulltextParts | src/metadata.py:413-430 | Every full-text include has to match, and no exclude may. |
| Criteria.Translate | src/metadata.py:345-432 | The clause is true of exactly the wanted rows on which no exclude is left open by a missing value; it exists exactly if every criterion is well formed. |
| Criteria.SearchClause | src/metadata.py:773-848 | The handler's split into a component clause and the rest selects what translating the whole list would, with no scope resolved. |
| Criteria.SearchComponent | src/metadata.py:156-179 | A search for a component, with or without a version, is true of exactly the rows that have the name and the version given; ruling it out, of exactly those that have a different name or version. Both ways to build the clause, without the splitter in the statement. |
| Criteria.SplitOcmAtColon | src/metadata.py:156-163 | The first colon ends the name; both parts are stripped, and a version of spaces is none. |
| Criteria.SplitOcmBare | src/metadata.py:156-163 | Without a colon the stripped text is the name. |
| Criteria.StripSplits | src/metadata.py:157-161 | Stripping takes off spaces at both ends and leaves none there; by `Criteria.SplitUnique` there is only one such text. |
| Criteria.StripExample | src/metadata.py:157-161 | Tabs, line ends and non-breaking spaces are stripped like blanks, spaces inside a text are not. |
| Criteria.WellFormedIff | src/metadata.py:166-342 | Exactly when a criterion is accepted: a component needs a name, a metadata criterion a known attribute with a fitting operator and values, a search known fields unless there is nothing to search for or the default fields are used. |
| Criteria.ColumnsAre | src/metadata.py:30-122 | Attributes are paths below metadata and data, the columns by their names, and the five aliases. |
| Criteria.SeverityIsCompared | src/metadata.py:264-305 | A severity is compared with a number as numbers compare; exactly the seven operators are accepted. |
| Criteria.TextIsCompared | src/metadata.py:288-305 | Any other value is compared by the order of texts. |
| Criteria.SeverityIsConfigured | src/metadata.py:82-98 | A row's severity is the value of its upper-cased severity id in the first configuration of its type that has it, else 0. |
| Criteria.SeverityIdIsLookedUp | src/metadata.py:576-592 | A severity given by id stands for its value in the first configuration of the selected type, and is an error if that lacks it. |
| Criteria.EvalIsKleene | src/metadata.py:345-432 | Clauses are read as SQL does: negation reverses false, unknown and true, conjunction and disjunction are their minimum and maximum. |
| Criteria.SplitSelects | src/metadata.py:830-848 | Selection by a list is selection by its component criteria and by the rest. |
| Criteria.OrderDoesNotMatter | src/metadata.py:345-432 | The rows selected do not depend on order or repetition of criteria. |
| Criteria.SingleIncludedType | src/metadata.py:555-573 | Returns the finding type named by includes exactly if there is just one. |
| Criteria.NoMissingValuesNoDifference | src/metadata.py:345-432 | Rows with all values their excludes look at are selected exactly if wanted. |
| Criteria.ExcludeDropsRowWithoutValue | src/metadata.py:308-432 | An exclude drops a row that lacks the value, although nothing it excludes is there. |
| Paging.SeekIsSuffix | src/metadata.py:459-483 | On an ordered view the cursor clause keeps a suffix. |
| Paging.PositionOfRow | src/metadata.py:459-510 | The cursor made from a row seeks to the row after it. |
| Paging.CollectAccepted | src/metadata.py:879-892 | Filters a batch in order and stops exactly at the row that fills the page. |
| Paging.ReadBatch | src/metadata.py:861-898 | On any data one round reads a raw batch after the scan cursor until the page is full, and ends full, exhausted or with a cursor to go on from. |
| Paging.ScanRounds | src/metadata.py:851-903 | The rounds of a request return the items and the cursor of its scan, on any data. |
| Paging.SearchPage | src/metadata.py:761-910 | The same for the page and batch sizes derived from the requested limit; on an ordered view this is the page that starts at the cursor's position. |
| Paging.CursorContinues | src/metadata.py:486-510 | The next request starts exactly where the page ended. |
| Paging.PageIsExact | src/metadata.py:851-903 | A page holds exactly the accepted rows between its start and its end; without a cursor the data has ended or all rounds were rejected. |
| Paging.PagesArePrefix | src/metadata.py:851-903 | After any number of requests the pages are a gap-free prefix of the accepted rows. |
| Paging.PagingTerminates | src/metadata.py:486-510 | Following the cursors ends after at most one request per remaining row plus one. |
| Paging.WalkIsComplete | src/metadata.py:900-903 | On an ordered view without nulls all accepted rows are returned if and only if no request stalls on rejected rows. |
| Paging.NoLongRejectedStretchNoLoss | src/metadata.py:852-903 | If every stretch of ten batches has an accepted row, nothing is lost. |
| Paging.NoLossForLimit | src/metadata.py:761-853 | By the requested limit: a request reads a hundred rows for each it may return, at least 100 and at most 20000; nothing is lost if every stretch of that many rows has an accepted one. |
| Paging.AcceptedStayOrdered | src/metadata.py:879-892 | The accepted rows stay strictly ordered, so no row comes twice. |
| Paging.ScanIsPage | src/metadata.py:851-903 | On an ordered view without nulls a request returns the page that starts at its cursor's position, and the cursor of the next one. |
| CursorTrail.AfterCursorExactly | src/metadata.py:459-483 | A cursor keeps a row exactly if the first sort column that differs or is null on either side has values on both, the row's on the far side. |
| CursorTrail.KeepsBehindIfDecided | src/metadata.py:435-483 | A cursor keeps exactly the rows behind it in the database's order, except those for which that column is null on either side. |
| CursorTrail.CursorAdvances | src/metadata.py:486-510 | On any data the cursor made from a row found keeps fewer rows than the cursor it was found with, all of them among those. |
| CursorTrail.ScanAdvances | src/metadata.py:851-903 | On any data a cursor returned by a request has fewer rows ahead than the request's own, so paging ends. |
| CursorTrail.FollowCursors | src/metadata.py:708-742 | A client that follows the cursors gets the items of all requests in turn; on an ordered view without nulls they are the walk over its pages. |
| CursorTrail.FollowIsWalk | src/metadata.py:486-510 | On such a view, from every cursor, following the cursors is the walk from its position. |
| CursorTrail.FollowIsComplete | src/metadata.py:446-510 | On sorted data whose cursors keep all nulls, a run returns exactly the accepted rows if and only if no request returns nothing with accepted rows ahead and no cursor made leaves an accepted row behind it undecided. |
| CursorTrail.NullCursorEndsPaging | src/metadata.py:446-483 | Nothing is returned after a request whose cursor begins with a null, whatever rows there are. |
| CursorTrail.NamelessCursorEndsPaging | src/metadata.py:499-502 | In descending order nothing is returned after a request whose cursor begins with a text that ranks below all values of the column. |
| CursorTrail.NamelessRowHidesRest | src/metadata.py:499-502 | So a row without a name, which comes first in descending order, can hide all others. |
| CursorTrail.NamelessRowRepeats | src/metadata.py:499-502 | In ascending order a row without a name that ends a page can make earlier rows come again. |
| LosslessPaging.ReturnsAllIff | src/metadata.py:435-510 | Sorted data with any nulls is returned completely, in order and once, for all filters and limits short of a request that returns nothing with accepted rows ahead, if and only if the cursor made from each row keeps exactly the rows after it. |
| LosslessPaging.UnwrittenKeepsRestIff | src/metadata.py:459-510 | Where no null is written as a text, this is so if and only if no null decides between a row and one after it. |
| LosslessPaging.ReturnsInOrderIff | src/metadata.py:435-510 | Sorted data with any nulls is returned in order, so that nothing comes twice, for all filters and page sizes, if and only if no cursor made from a row keeps that row or one before it. |
| LosslessPaging.LeadsBackOnlyByText | src/metadata.py:486-510 | A cursor leads back only in ascending order and if it has a text in place of a null. |
| LosslessPaging.DescendingReturnsInOrder | src/metadata.py:435-510 | In descending order nothing comes twice, whatever nulls there are. |
| Scope.ResolveComponentScope | src/metadata.py:595-649 | On any reference graph, cyclic or not, returns exactly the components in scope that own an artefact, each with its full key set; an unresolvable root is a bad request. |
| Scope.CollectKeys | src/metadata.py:616-647 | The worklist ends with a set that holds the root and is closed under resolvable references, and only reachable components in it. |
| Scope.EnqueueReferences | src/metadata.py:513-518 | Queues exactly the resolvable references with a name and a version. |
| Scope.AddKeys | src/metadata.py:521-552 | The keys of all resources and sources, the version filled into the extra identity unless given. |
| Scope.KeyTellsArtefactsApart | src/metadata.py:530-552 | Two artefacts share a key exactly if kind, name, version and type agree, and the extra identity does once the version counts as part of it. |
| Scope.ScopeSelects | src/metadata.py:182-216 | The clause of a resolved scope is true of exactly the rows about a component in scope that owns an artefact: by name and version, or without version by artefact key. |
| Scope.ConnectivesAreKleene | src/metadata.py:182-216 | The scope clause is read as SQL does, a comparison with a null being unknown. |
| Scope.BareComponentIsNotFound | src/metadata.py:192-216 | A component without artefacts is not found even by its own name and version. |
| Scope.WalkIsPreorder | src/components.py:812-896 | With depth d the lenient walk yields exactly the paths of at most d references, extra references included, each once and in preorder. |
| Scope.PreorderIsStrict | src/components.py:812-896 | The order of that walk is a strict total order with every path before its extensions. |
| Scope.UnboundedIsDeepEnough | src/components.py:855-858 | On acyclic references no bound is as good as a bound of at least the rank. |
| Scope.StrictWalkStops | src/components.py:820-847 | The strict walk is the lenient one up to its first missing component, which it reports. |
| Scope.WalkFindsReachable | src/components.py:812-896 | On acyclic graphs without extra references the unbounded walk finds exactly the components the recursive search covers. |
| Upsert.CollectQueries | src/metadata.py:1218-1237 | One query per artefact and type, from its first entry. |
| Upsert.IndexStored | src/metadata.py:1293-1305 | The index by group holds each group's first row in order of update, the index by id the incoming ones. |
| Upsert.UpdateEntry | src/metadata.py:1349-1363 | The stored row takes over data, update time, responsibles and assignee mode, keeps id, artefact, type, datasource, creation and discovery date, and fails without a recorded update. |
| Upsert.DiscoveryDate | src/metadata.py:1330-1346 | With its indexes a new row gets the date that scanning created and stored rows would give. |
| Upsert.ApplyIndexed | src/metadata.py:1314-1363 | The indexed loop computes what a linear scan for every entry does. |
| Upsert.MetadataTable.Put | src/metadata.py:1210-1375 | The whole request has the outcome of the linear scan, and leaves the table alone on an error. |
| Upsert.SucceedsIffAllFound | src/metadata.py:1218-1377 | The upsert goes through if and only if the queries find every stored row the entries are about. |
| Upsert.ConsistentIsFound | src/metadata.py:1218-1243 | They do if ids determine the queried attributes and one artefact and type has one datasource. |
| Upsert.UpsertReflects | src/metadata.py:1314-1375 | Every incoming id exists with its last payload; stored rows keep identity, creation and discovery date; other rows are untouched. |
| Upsert.UpsertStoresPayload | src/metadata.py:1314-1375 | Field by field, whenever the batch goes through: data, update time, responsibles and assignee mode of an incoming id are those of its last entry; artefact, type, datasource and creation date are those of the stored row, for a new id those of its first entry; a stored row keeps its id and discovery date. |
| Upsert.NewRowInheritsDate | src/metadata.py:1269-1346 | A new row of a reuse group has the discovery date of a most recently updated stored row of the group, if that has one, whatever the order of batch and table. |
| Upsert.NewRowsShareDate | src/metadata.py:1330-1346 | Without such a date the new rows of a group share the date of the first one that has one. |
| Upsert.SecondDatasourceFails | src/metadata.py:1218-1237 | Two datasources for one artefact and type make the batch fail on the second one's stored row. |
| Backlog.StepKeepsInv | src/k8s/backlog.py:124-366 | Every step of creators, workers and controller keeps the claim recorded on an item equal to what its history of claims and removals says. |
| Backlog.RunKeepsInv | src/k8s/backlog.py:124-366 | So does every run. |
| Backlog.ClaimsExcludeEachOther | src/k8s/backlog.py:213-287 | Between two successful claims of one backlog item its claim was removed. |
| Backlog.RemovalsAreDue | src/backlog_controller.py:54-98 | Every removal that takes effect hits the claim set last, whose pod is not running or whose age is at least the limit. |
| Backlog.VisitRemovesIffDue | src/backlog_controller.py:62-97 | In every reachable state, a visit to a claimed item that has not changed since it was listed removes the claim if and only if its claimant is not among the listed pods or the claim was old enough when the items were listed; else nothing changes. |
| Backlog.SweepRemovesExactlyDue | src/backlog_controller.py:42-97 | From every reachable state, a sweep that nothing interferes with removes exactly the due claims among the items listed, in their order, and leaves the rest of the store. |
| Backlog.StoppedPodLosesClaim | src/backlog_controller.py:75-86 | The claim of a pod that stops is removed by the next sweep, however young. |
| Backlog.PickedIsFirst | src/k8s/backlog.py:236-258 | A worker claims an unclaimed item of its service such that none has a higher priority and none of the same priority is older. |
| Backlog.UpdateDefeatsClaim | src/k8s/backlog.py:258-287 | An update of an item a worker has picked makes the claim fail; the updated item stays unclaimed. |
| Backlog.CreatingAgainRaisesPriority | src/k8s/backlog.py:158-210 | From every reachable state, creating an item again raises its priority to the greater of both; its claim and all else about the store stay. |
| Backlog.LocalClaimIsRemovedAtOnce | src/k8s/backlog.py:256 | The claim of a process without a pod name is removed by the first sweep, at age zero and whatever the limit. |
| Backlog.UncheckedPatchLetsTwoClaim | src/k8s/backlog.py:198-208 | Were the priority patch not checked for its version, two workers could hold one item. |
| Backlog.PatchKeepsUnmentioned | src/k8s/backlog.py:198-208 | A merge patch leaves alone what its body does not mention: the body of an item never claimed keeps the stored claim, that of an item claimed before puts its own back. |
| Backlog.Body.MarkClaimed | src/k8s/backlog.py:248-258 | Marks label and annotations of the body read. |
| Backlog.Body.RemoveClaim | src/k8s/backlog.py:290-340 | Sends at most one request; after a conflict the retry fails at the deleted annotations. |
| Backlog.DesiredReplicas | src/backlog_controller.py:100-107 | The fewest replicas that cover all items, within the service's bound. |
| Backlog.ReplicasByService | src/backlog_controller.py:100-107 | Never more than one replica for the issue replicator and two for Black Duck, and never more than the items need; no less than they need below the bound. |
| FunctionCache.CacheTable.FindCachedValue | src/deliverydb/cache_async.py:86-115 | Returns the value unless the deletion date has passed, and counts the read only if the commit succeeds. |
| FunctionCache.CacheTable.UpdateCacheEntry | src/deliverydb/cache_async.py:25-50 | Overwrites the entry, keeping its read counters and raising its revision; a failing commit changes nothing. |
| FunctionCache.CacheTable.AddOrUpdateCacheEntry | src/deliverydb/cache_async.py:53-83 | Without interference the entry ends up stored unless a commit fails. |
| FunctionCache.CacheTable.MarkForDeletion | src/deliverydb/cache_async.py:327-351 | Moves the deletion date of the entry, if there is one. |
| FunctionCache.ServedForItsKeyAndInTime | src/deliverydb/cache_async.py:118-208 | In every interleaving a served value was computed for its key and stored at most the time to live before, unless its deletion date was postponed. |
| FunctionCache.StoredIsServedForItsTime | src/deliverydb/cache_async.py:158-208 | A non-empty result that was finished at some time and stored is served by every lookup up to the time to live later, without end for 0, and by none after that, as long as nothing stores, marks or prunes its key in between. |
| FunctionCache.StoredEntryIs | src/deliverydb/cache_async.py:189-205 | What is stored is the result computed, with deletion date, keep-until date and costs as of the time it was finished; read counters of an entry that is overwritten are kept, its revision rises. |
| FunctionCache.ServingCountsRead | src/deliverydb/cache_async.py:86-115 | Serving a value counts as a read of its entry unless the commit fails. |
| FunctionCache.RollbackKeepsTable | src/deliverydb/cache_async.py:25-115 | A request whose commit fails leaves the table as it was. |
| FunctionCache.MarkedIsServedUpToItsDate | src/deliverydb/cache_async.py:327-351 | A marked entry is served up to the date it was given, and not after that, as long as nothing touches its key. |
| FunctionCache.ServedWasComputed | src/deliverydb/cache_async.py:171-208 | Whatever is served is the non-empty result of a computation for its very key that was fit for storing. |
| FunctionCache.PostponedByMarking | src/deliverydb/cache_async.py:327-351 | A key counts as postponed only if a step has moved its date to a later time and nothing was stored under it since. |
| FunctionCache.WritesAreCounted | src/metadata.py:1365-1372 | A computation is dated by the number of writes concerning its key that took place before it. |
| FunctionCache.NothingOutdatedIsServed | src/metadata.py:1365-1372 | Unless something in flight for the key can outlive a write, a value computed before it is served at most up to the deletion date that this or a later marking gives. |
| FunctionCache.WriteTakesEffectIff | src/deliverydb/cache_async.py:134-208 | In every reachable state, whatever happens after a write short of marking the key again, nothing computed before it is served after its date, if and only if no computation for the key is under way and no result that stays valid is waiting to be stored. |
| FunctionCache.InFlightResultOutlivesWrite | src/deliverydb/cache_async.py:158-208 | Every computation under way at a write, and every result waiting to be stored that stays valid, can be stored and served after it. |
| FunctionCache.SecondWriteRevivesForAnInstant | src/metadata.py:1365-1372 | A later write makes an entry that was already due valid again at that very instant. |
| Snapshots.PurgeOldStates | src/odg/model.py:1126-1143 | Of a service's states only the newest stays, the earlier one on ties; other services' states are untouched. |
| Snapshots.ComplianceSnapshot.CurrentState | src/odg/model.py:1113-1124 | The newest state of the service. |
| Snapshots.ComplianceSnapshot.UpdateState | src/odg/model.py:1106-1111 | Afterwards every service's current state is as before, except that the new state counts for its own unless one as new is there. |
| Snapshots.FirstOfNewestIsCurrent | src/odg/model.py:1113-1124 | Sorting and taking the first match finds the newest state. |
| Snapshots.NoteUpdates | src/odg/model.py:1106-1124 | On a snapshot given by its services' current states, recording a state has the effect that updating the state list has on them. |
| Snapshots.ServeServices | src/artefact_enumerator.py:253-458 | Serves the enabled services in order, each on the snapshot the ones before it left. |
| Snapshots.ProcessSeen | src/artefact_enumerator.py:596-614 | The loop over the referenced artefacts does to each what one run is meant to. |
| Snapshots.ProcessInactive | src/artefact_enumerator.py:461-521 | The loop over the unreferenced snapshots deactivates, deletes and emits as one run is meant to. |
| Snapshots.SnapshotStore.Enumerate | src/artefact_enumerator.py:524-645 | A whole run changes every artefact's snapshot and emits its items as its own step says, independent of all others. |
| Snapshots.DeletedOnlyAfterGrace | src/artefact_enumerator.py:461-521 | Over any sequence of runs a snapshot is deleted only by a run at least the grace period after the one that deactivated it, none in between seeing the artefact. |
| Snapshots.OverdueIsDeleted | src/artefact_enumerator.py:501-521 | A run that late does delete it. |
| Snapshots.DeactivationNotifies | src/artefact_enumerator.py:484-507 | A run emits an item for an artefact it does not see exactly if it deactivates its snapshot, the issue replicator is enabled and the grace period is positive: one, of high priority. |
| Snapshots.ReplicatesIfEnabled | src/artefact_enumerator.py:484-507 | The issue replicator is enabled exactly if a service of its name is configured. |
| Snapshots.DeactivationsAreSeparated | src/artefact_enumerator.py:131-154 | Between two deactivations some run has seen the artefact. |
| Snapshots.ItemsAreSpaced | src/artefact_enumerator.py:157-218 | Two items for a service without status are at least its interval apart while the snapshot lives. |
| Snapshots.EmittedItemsAre | src/artefact_enumerator.py:157-218 | Exactly what a run emits for a service that applies to an artefact it sees, by the history of runs: one item of high priority if the service has not been served since the snapshot was created or its count of scans has changed since, else one of low priority once the interval has passed, else none. |
| Snapshots.ActiveSince | src/odg/model.py:1106-1124 | The status of an active snapshot is dated by the run that saw its artefact first, or first again after a deactivation. |
| Snapshots.ServedAlone | src/artefact_enumerator.py:185-218 | A service is served as if it were the only one. |
| Snapshots.TakesEffectIfLater | src/odg/model.py:1106-1143 | If runs may share an instant, a run deactivates or reactivates a snapshot if and only if it comes later than the state it finds. |
| Snapshots.TiedRunsNotifyTwice | src/odg/model.py:1106-1143 | Two runs at one instant: the first does not get to deactivate the snapshot, and both notify. |
| Sprints.IterSprintDates | src/features/__init__.py:427-448 | Evenly spaced dates up to and including the first that is not before the end. |
| Sprints.NameSprints | src/features/__init__.py:504-537 | Every sprint is named after the date `offset` sprints on, with its number and the count of directly preceding sprints of that number. |
| Sprints.IterSprints | src/features/__init__.py:490-537 | The sprints are exactly those whose own and whose naming date are in the generated list. |
| Sprints.NumberedByWindow | src/features/__init__.py:451-520 | A sprint is named after the date `offset` sprints away; its number says in which window of the year that lies, windows being as many sprints long as cycles are configured, or one. |
| Sprints.IterSprintsFromStart | src/features/__init__.py:490-537 | For offsets up to zero the end dates start at the start date and go on evenly to the first that is not before the threshold. |
| Sprints.LabelsIncrease | src/features/__init__.py:507-537 | (year, number, cycle) strictly increases over all sprints, so no label repeats. |
| Sprints.YearStartIs | src/features/__init__.py:461-462 | The calendar is the Gregorian one: a year has a day more every four years, but not every hundred, yet every four hundred. |
| Sprints.CyclesAreBounded | src/features/__init__.py:454-462 | If one sprint more than the cycles fits into 365 days, the cycle index stays below the number of cycles, across years and leap years. |
| Sprints.LettersTellApart | src/features/__init__.py:465-487 | With at most 26 such cycles year, number and letter tell all sprints apart. |
| Sprints.CyclesOverrun | src/features/__init__.py:454-462 | Without room for one more sprint, sprints that start with the first window of a year of 365 days all have number 1, and their cycle reaches the number of cycles. |
| Sprints.CycleBoundIsExact | src/features/__init__.py:454-462 | For a sprint length and a number of cycles, the cycle index stays below that number for every start date if and only if one sprint more than the cycles fits into 365 days. |
| Sprints.LongWindowsRunOn | src/features/__init__.py:454-462 | Once a window covers a leap year every sprint has number 1 and its cycle runs on. |
| CryptoAssets.SucceedsIffAllResolve | src/crypto_extension/model.py:108-126 | On acyclic references deserialisation succeeds if and only if every reference leads to a kept asset. |
| CryptoAssets.FilterKeepsIff | src/crypto_extension/model.py:40-81 | Exactly the cryptographic assets and the known libraries of a document are considered, of the types asked for. |
| CryptoAssets.DeserialisedCarries | src/crypto_extension/model.py:183-328 | An asset has the name, the locations and every property of its component, validity in years rounded up, and the type it was filtered by. |
| CryptoAssets.DeserialisedRefers | src/crypto_extension/model.py:108-256 | It stores for each reference the key of the asset the document refers to. |
| CryptoAssets.FindsFirst | src/crypto_extension/model.py:108-126 | A reference leads to the first asset with it. |
| CryptoAssets.StoredKeyIsKey | src/crypto_extension/model.py:199-256 | Every key stored for a reference is the key of an asset of the list. |
| CryptoAssets.AggregatesByKey | src/crypto_extension/model.py:331-357 | An aggregated asset is the first of its key with the sorted union of all names and locations of that key. |
| CryptoAssets.KeysDistinct | src/crypto_extension/model.py:331-357 | Aggregated assets have different keys. |
| AssetKeys.KeyTellsAssetsApart | src/odg/model.py:884-898 | On plain texts two deserialised assets share a key if and only if they agree in type and properties, those of the assets they refer to included, all the way; names and locations do not count. |
| AssetKeys.TextTellsNodesApart | src/odg/model.py:22-27 | Read from the front, a key determines its parts, although keys of other assets stand in it unquoted. |
| CryptoAssets.KeysCovered | src/crypto_extension/model.py:331-357 | No key is lost. |
| CryptoAssets.NamesAndLocationsConserved | src/crypto_extension/model.py:331-357 | No name or location is lost or invented for any key. |
| CryptoAssets.AggregateCryptoAssets | src/crypto_extension/model.py:331-357 | The loop that merges assets in place, found by a dictionary, leaves the objects with the values of the aggregation. |
| CryptoAssets.EveryReferenceSurvives | src/crypto_extension/validate.py:60-68 | Every key an aggregated asset stores is found among the aggregated assets. |
| CryptoAssets.ExcludedTypeBreaksReferences | src/crypto_extension/model.py:40-84 | Leaving out a type that others refer to makes the document fail. |
| Pruning.Cache.Prune | src/cache_manager.py:79-130 | Deletes the shortest prefix of the rows that frees enough, whatever the chunk size, reports the bytes deleted, and changes nothing if the commit fails. |
| Pruning.PruneRows | src/cache_manager.py:113-122 | The nested loops over the partitions find that prefix. |
| Pruning.NeededIsShortest | src/cache_manager.py:113-122 | Deleting while something is left to prune stops after the shortest prefix that is enough. |
| Pruning.RemainderFits | src/cache_manager.py:106-122 | What remains is at most the bytes to keep, and one row less deleted would leave more. |
| LogTruncation.TruncateHeadToFit | src/k8s/logging.py:288-311 | A text that is too long becomes the marker and its longest tail that fits; the result fits if and only if the text or the marker does. |
| LogTruncation.JsonReadsBack | src/k8s/logging.py:290 | The text whose size is measured is a JSON string by section 7 of RFC 8259: reading it gives the text back, unless a lone high surrogate meets a lone low one. |
| LogTruncation.EscapeSize | src/k8s/logging.py:290-307 | A character takes two bytes if it has a short escape, one if it is other printable ASCII, six in the rest of the basic plane and twelve beyond. |
| LogTruncation.ListSize | src/k8s/logging.py:59 | A list takes its elements, the brackets and two bytes between elements. |
| LogTruncation.LongerTail | src/k8s/logging.py:307-309 | A tail one character longer costs the JSON size of that character. |
| LogTruncation.TrimLogs | src/k8s/logging.py:55-61 | The longest tail of the list whose JSON form fits. |
| LogTruncation.NothingFitsBelowTwo | src/k8s/logging.py:55-61 | Some list fits if and only if at least two bytes are allowed. |
| VersionDiff.PrecedenceOrder | src/dora.py:854-858 | Precedence by section 11 of Semantic Versioning 2.0.0 is a strict total order. |
| VersionDiff.PrecedenceBySection11 | src/dora.py:854-858 | Precedence is that of section 11 of Semantic Versioning 2.0.0: the first number that differs decides, a release ranks above its prereleases, and of two prereleases the first identifier that differs decides, else the longer list ranks above. |
| VersionDiff.GreatestVersion | src/dora.py:853-859 | The running maximum is the first of the greatest versions. |
| VersionDiff.OnlyGreatestVersions | src/dora.py:840-861 | Exactly one component of every name, the greatest. |
| VersionDiff.DiffComponents | src/dora.py:808-923 | No difference if and only if both sides keep the same components; otherwise one pair for each name whose kept versions differ, and the names found on one side only. |
| VersionDiff.NamesArePartitioned | src/dora.py:908-922 | Every name is left only, right only, changed or unchanged, and only one of these. |
| VersionDiff.DependencyChanges | src/dora.py:926-967 | Filters the pairs in order; without a difference it is an error. |
| VersionDiff.ChangesInMembers | src/dora.py:945-957 | Rising changes are exactly those to strictly greater precedence, others those to a different one. |

## Left out

- HTTP, database, Kubernetes and OCI clients: requests are steps with an outcome, tables are maps or sequences, and the
  order in which the database returns rows is a parameter.
- Hashing: ids are their key texts. Clocks are inputs; the runs of the enumerator come at strictly increasing times,
  except in `Snapshots.TakesEffectIfLater` and `Snapshots.TiedRunsNotifyTwice`.
- CacheKeys.KeyIsMeaning: clean texts (not empty, no `|`, no `-` or `_` at either end) are shown to suffice, and three
  collisions outside them; which other texts collide is left open.
- Criteria.Translate: severity comparisons are never null, and row timestamps always parse.
- Paging.SearchPage: the text form of cursors and the SQL types of sort columns; a sort column is its rank in the
  column's order.
- CursorTrail.FollowIsComplete: single runs on data with a null in `ocm.name` or `type` while sorting by it; such data is
  covered by `LosslessPaging.ReturnsAllIff`, over all runs at once.
- LosslessPaging.ReturnsInOrderIff: page sizes and raw batches are any positive numbers, not only those the handler
  derives from a limit. Nulls sort as in PostgreSQL, here and in the other results about sorted data.
- Scope.ResolveComponentScope: key sets are sets, their sorted order is left out; a descriptor is taken to have the
  identity it was looked up by, and the normalised extra identity stands for its mapping.
- Scope.Dfs: on cyclic references an unbounded walk does not end; the model asks for a rank of the references then.
- Upsert.MetadataTable.Put: which rows share a discovery date is a parameter that does not look at the date; the maximum
  reuse time and the data keys per type are part of it.
- Backlog.StepKeepsInv: the store checks versions of priority patches, and pod names are not used again.
- FunctionCache.CacheTable.AddOrUpdateCacheEntry: entries are stored whole; `src/deliverydb/cache.py` is the same code
  without `await` and is covered by the same model.
- Snapshots.SnapshotStore.Enumerate: a failing database write of a run; a stored snapshot is its current states, to which
  `UpdateState` is proved to reduce.
- Sprints.IterSprints: dates outside the years 1 to 9999, for which the source raises; the sprint length has to be
  positive, else the source would not end.
- CryptoAssets.AggregateCryptoAssets: missing or malformed properties of a document, and the heuristics that read a
  curve, a certificate kind or a location off texts.
- AssetKeys.KeyTellsAssetsApart: texts with `|` or the text `None`, which can make keys coincide.
- CryptoAssets.EveryReferenceSurvives: cyclic references, on which the source would not end.
- Pruning.Cache.Prune: the weights; the rows come in pruning order.
- VersionDiff.DiffComponents: walking the component tree and parsing versions, which is a parameter.
- The compliance summary's running maximum, DORA statistics, access management, file-system and scanner integration,
  and lookups: mostly filters, first matches and library calls, without state or recursion of their own.
