# Catalog backend: verified models

A Dafny model of the parts of the catalog backend whose correctness is decided
by code rather than by a framework, with proofs over all inputs, all runs or all
interleavings. `dafny verify dfyconfig.toml` checks everything.

- **Attribute dictionary** (`AttributeDb`, `EnumMerge`, `AttributeRequests`,
  `AttributeService`, and the laws in `EnumMergeLaws`, `AttributeLaws`,
  `AttributeResolution`, `AttributeEffects`, `AttributeHistory`,
  `AttributeIsolation`, `AttributeViews`). Tables are finite maps from id to row, transactions are
  atomic, `findFirst` and `findMany` without an order return any matching row or
  any order, new ids are fresh. The service is a class whose methods update the
  tables statement by statement and are proved against the request functions;
  the laws are proved about those functions for every choice the database may
  make. `tenant` says whether every request of a run carries a catalog (any mix
  of catalogs) or none does.
- **Unique keys** (`UniqueKey`): the numbered candidates of the key generator
  and the pigeonhole argument that ends its loop.
- **Login lockout** (`LoginLockout`, `LockoutLaws`): Redis as a map from key to value and
  expiry; requests are atomic and carry their time.
- **Media import and media-map backfill** (`MediaStore`, `MediaAssets`,
  `MediaImport`, `MediaImportLaws`, `MediaLinking`, `MediaClashes`,
  `MediaRepeat`, `MediaMapBackfill`, `MediaAgreement`, `MediaPipeline`,
  `MediaEdits`). The import is a state machine with one small program per
  asset, interleaved at every database call. Importing an asset either yields a
  file or fails; a created media row is identified by its object key, which is
  unique in a catalog.
- **Default-variant and cart-item backfills** (`BatchQueries`, `VariantKinds`,
  `DefaultVariantBackfill`, `CartItemBackfill`, `BackfillPair`).
- **Category-product positions** of the legacy migration (`CategoryPositions`,
  `CategoryLinks`) and **position repair** of the database console
  (`PositionRepair`, `PositionConsole`), with what the one finds on the tables of
  the other (`MigratedPositions`).
- **CSV export** (`CsvExport`) and **fuzzy search** (`FuzzySearch`) of the
  console.

What the proofs turned up:

- The unique indexes on enum values and aliases also cover soft-deleted rows.
  In a catalog a merge therefore aborts exactly when an alias row carrying the
  source's name exists that is not a live alias of the source itself
  (`MergeCommitsIff`). `OrphanBlocksMerge` is a run of seven requests from the
  empty dictionary that ends there: the alias of a removed value keeps its name,
  a new value takes the name, and merging that value breaks the index, because
  `ensureMergedValueAlias` marks the orphan as deleted and then inserts the same
  key.
- A span of 900 s counted with both ends can hold 39 failed logins, and does in
  `BoundIsReached`; any shorter span holds at most 38.
- "Substring matches rank first" holds for every query of up to 50 characters
  and fails for every longer length (`LongQueriesRankOtherwise`).
- The cart-item loop leaves a fixable item behind exactly when at least a whole
  batch of unfixable open items precedes it (`LeftBehindIff`).
- Positions in the target's category-product table can fall short of those of
  the legacy categories when legacy entities share a target. The rows written for a
  target category have different positions exactly when no two links that have
  the last word on different products tie (`DistinctIffTieFree`), and stand at
  0..n-1 exactly when moreover none is placed at n or beyond
  (`DenseIffBounded`); injective targets guarantee both
  (`InjectiveTargetsAreDense`). `SharedTargetClashes`: two legacy categories
  matched to one target each place a product first. Separately, every link ends
  at its own position exactly when links that meet in one row agree
  (`SettledIff`); in `SharedTargetDisagrees` two links to one row do not.
- The import's link loop stops exactly when two images of one product came to
  the same media row, because (product, media) is the primary key
  (`LinkedIff`). `ClashFreeIff` says when that happens in terms of what is there
  before: both images reused from one map entry's media, one reused and standing
  at the other's object key, or both new with the same catalog, position and
  file name. It never happens on a first import with injective product maps
  (`FreshImagesNeverClash`), but it does after an edit: when an image failed,
  its neighbour's media was moved to its place and the backfill ran, the
  neighbour's media is mapped for both, and the next import stops, whatever it
  downloads (`MovedLinkStopsLinking`, with `EditedImportStops` as the smallest
  case). `SharedProductStopsLinking` is the case of maps that are not injective.
- The default-variant backfill finishes exactly when the missing products, served
  by ascending id, each find a free SKU candidate (`AllocatesAll`).
- The dry run predicts apply only because candidates are deduplicated
  (`DuplicatesBreakPrediction`).

## Model

| member | source | states |
|---|---|---|
| `UniqueKey.Candidate` | src/modules/attribute/attribute.utils.ts:69-78 | a candidate fits the maximum length while its suffix does; beyond that it is the bare suffix |
| `UniqueKey.FittingBaseIsKept` | src/modules/attribute/attribute.utils.ts:69-78 | a base that fits with its suffix and does not end in a dash is kept whole, followed by a dash and the number |
| `UniqueKey.HeadIsTrimmedBase` | src/modules/attribute/attribute.utils.ts:75-77 | in general the head is a prefix of the base that does not end in a dash, and everything cut off before the limit is dashes |
| `UniqueKey.NumberedCandidatesDiffer` | src/modules/attribute/attribute.utils.ts:69-78 | two differently numbered candidates differ whatever truncation and dash trimming cut off |
| `UniqueKey.BareCandidateMayReturn` | src/modules/attribute/attribute.utils.ts:69-78 | the unnumbered candidate may equal a numbered one, so only numbered ones count in the pigeonhole |
| `UniqueKey.TakenProbesAreFew` | src/modules/attribute/attribute.service.ts:408-422 | if the first n candidates are all taken then n is at most the number of taken names plus one |
| `UniqueKey.FirstFreeFrom` | src/modules/attribute/attribute.service.ts:408-422 | among the first taken-plus-two candidates there is a free one, and all before it are taken |
| `UniqueKey.EnsureUniqueKey` | src/modules/attribute/attribute.service.ts:408-422 | the loop ends within taken + 2 probes for every finite taken set, returns the first free candidate, fits the maximum length while the suffix does, and returns a free base that fits unchanged after one probe |
| `AttributeDb.TakenIffOwned` | src/modules/attribute/attribute.repository.ts:336-373 | the two duplicate queries find a row if and only if some other live value in scope answers to the name, orphan aliases ignored |
| `EnumMerge.MoveAliasesFrame` | src/modules/attribute/attribute.repository.ts:638-679 | moving aliases adds and removes no row and changes only the listed ones |
| `EnumMerge.MoveAliasesNames` | src/modules/attribute/attribute.repository.ts:655-678 | for every order and whatever conflicts occur, the target ends with exactly its own alias names and the moved ones |
| `EnumMerge.MoveAliasesRows` | src/modules/attribute/attribute.repository.ts:666-677 | each listed alias either died in place or changed only its owner |
| `EnumMergeLaws.MovedAliasesDiffer` | src/modules/attribute/attribute.repository.ts:655-678 | an alias whose name the target has already dies instead of moving: the target's live aliases keep having different names |
| `EnumMergeLaws.EnsuredRows` | src/modules/attribute/attribute.repository.ts:690-717 | re-creating the name changes nothing if another value holds it or the conflicting alias is the target's own; else the conflicting alias dies and one row is added |
| `EnumMergeLaws.MovedNames` | src/modules/attribute/attribute.repository.ts:638-679 | after the move the target answers to an alias name iff it or the source did |
| `EnumMergeLaws.MovedOthers` | src/modules/attribute/attribute.repository.ts:638-679 | the move changes no other value's alias names, in any scope and attribute |
| `EnumMergeLaws.EnsuredNames` | src/modules/attribute/attribute.repository.ts:681-718 | re-creating the old name as an alias adds that one name to the target and takes names from no live value |
| `EnumMergeLaws.SourceNameIsItsOwn` | src/modules/attribute/attribute.repository.ts:690-706 | whichever rows `findFirst` returns, no other live value holds the source's name, so a conflicting alias is the target's own or an orphan |
| `EnumMergeLaws.MergeCollapsesNames` | src/modules/attribute/attribute.repository.ts:442-509 | after a committed merge a name resolves to the target iff it resolved to source or target before, every other name of every attribute resolves as before, and nothing resolves to the source |
| `EnumMergeLaws.MergeKeepsOtherCatalogs` | src/modules/attribute/attribute.repository.ts:442-509 | a merge in one catalog changes no name of another |
| `EnumMergeLaws.MergeCommitsIff` | src/modules/attribute/attribute.repository.ts:681-718 | a merge of two live values commits iff the name slot is open: no alias row of the catalog carries the source's name unless it is a live alias of the source; otherwise it is a unique violation |
| `MergeExample.OrphanBlocksMerge` | src/modules/attribute/attribute.repository.ts:696-717 | a valid run from the empty dictionary, every request served, after which a merge of two live values is refused with a unique violation because of an orphan alias |
| `EnumMergeLaws.MergeMovesReferences` | src/modules/attribute/attribute.repository.ts:461-479 | no live in-scope product or variant reference stays on the source, the target's count grows by exactly the source's, all other values keep their references |
| `EnumMergeLaws.MergeRewritesReferences` | src/modules/attribute/attribute.repository.ts:461-479 | row by row: live in-scope references to the source name the target, every other reference row is untouched |
| `EnumMergeLaws.MergePointsAtTarget` | src/modules/attribute/attribute.repository.ts:490-493 | the source's row is marked deleted and points at the target, is otherwise unchanged, and no other value row changes |
| `EnumMergeLaws.MergeAddsItsName` | src/modules/attribute/attribute.repository.ts:708-717 | an alias row that a merge adds carries the source's name and display name, the target and the request's catalog |
| `EnumMergeLaws.TombstoneKeepsLinks` | src/modules/attribute/attribute.repository.ts:490-493 | pointing the source at a live target keeps the merge links acyclic and only on deleted rows |
| `EnumMergeLaws.MergePathsEnd` | src/modules/attribute/attribute.repository.ts:490-493 | following merge links visits no value twice and ends within as many steps as there are values |
| `EnumMergeLaws.MergeKeepsInv` | src/modules/attribute/attribute.repository.ts:442-509 | a merge keeps the whole dictionary invariant |
| `AttributeLaws.CreateAttributeKeepsInv` | src/modules/attribute/attribute.service.ts:81-98 | creating an attribute, with a given or generated key, keeps the invariant |
| `AttributeLaws.UpdateAttributeKeepsInv` | src/modules/attribute/attribute.service.ts:100-134 | any accepted combination of new key, types, data type and variant flag keeps the invariant |
| `AttributeLaws.RemoveAttributeKeepsInv` | src/modules/attribute/attribute.service.ts:136-142 | the removal cascade keeps the invariant |
| `AttributeLaws.CreateValueKeepsInv` | src/modules/attribute/attribute.service.ts:149-163 | creating a value, with a given or generated name, keeps the invariant |
| `AttributeLaws.UpdateValueKeepsInv` | src/modules/attribute/attribute.service.ts:165-198 | renaming a value, also to one of its own aliases, keeps the invariant |
| `AttributeLaws.RemoveValueKeepsInv` | src/modules/attribute/attribute.service.ts:200-215 | removing a value, which leaves its aliases as orphans, keeps the invariant |
| `AttributeLaws.CreateAliasKeepsInv` | src/modules/attribute/attribute.service.ts:227-251 | adding an alias keeps the invariant |
| `AttributeLaws.RemoveAliasKeepsInv` | src/modules/attribute/attribute.service.ts:253-268 | removing an alias keeps the invariant |
| `AttributeLaws.StepKeepsInv` | src/modules/attribute/attribute.service.ts:81-296 | every request, served or refused, keeps the invariant for every choice of the database |
| `AttributeLaws.RunKeepsInv` | src/modules/attribute/attribute.service.ts:81-296 | in every run with a catalog on each request, or on none, each name has at most one live owner per attribute, merge links are acyclic, live attributes sharing a type have different keys and live variant attributes are ENUM |
| `AttributeLaws.EmptyDictionary` | src/modules/attribute/attribute.repository.ts:212-214 | the empty dictionary satisfies the invariant, so every run from it does |
| `AttributeViews.ChangesAreInvalidated` | src/modules/attribute/attribute.service.ts:355-377 | whenever a request changes what `findByType` returns for a type to a reader in any catalog, the type is invalidated, including types an update detached |
| `AttributeViews.SameVersionSameView` | src/modules/attribute/attribute.service.ts:355-377 | in every run with uniform scope, a type whose cache version is the same at the end looks the same to every reader |
| `AttributeViews.DictionaryRequestStaysInside` | src/modules/attribute/attribute.service.ts:149-296 | value, alias and merge requests change rows of their own attribute only and invalidate its types |
| `AttributeViews.AttributeRequestIsLocal` | src/modules/attribute/attribute.service.ts:81-142 | attribute requests leave the view of every type outside the invalidated set as it was |
| `AttributeViews.RemovalLeavesNothing` | src/modules/attribute/attribute.repository.ts:230-247 | removing an attribute leaves no live enum value or product attribute row; removing a variant attribute leaves no live variant attribute row nor live variant that used it either, and spares all other variants |
| `AttributeViews.RemovalOnlyMarks` | src/modules/attribute/attribute.repository.ts:569-625 | no row disappears and none changes but for its deletion mark |
| `AttributeViews.TypeViewShows` | src/modules/attribute/attribute.repository.ts:192-210 | what readers of a type see: its live attributes, with each its live values in the reader's catalog, with their live aliases |
| `AttributeViews.RowsFirstSparesVariants` | src/modules/attribute/attribute.repository.ts:602-625 | with the two variant updates swapped no variant would die |
| `AttributeViews.GeneratedNameFitsIndex` | src/modules/attribute/attribute.service.ts:389-406 | a generated enum value never runs into the unique index, because the generator also avoids deleted values |
| `AttributeResolution.RequestsResolve` | src/modules/attribute/attribute.service.ts:81-296 | the exact effect of each of the nine requests on which value answers to which name in its scope: a create or alias adds one answer, a rename moves one, a removal takes its own away, a merge collapses two values, nothing else changes |
| `AttributeEffects.CreateAttributeServedIff` | src/modules/attribute/attribute.service.ts:81-98 | an attribute is created iff a variant attribute is ENUM, the types exist and a given key clashes with no live attribute of them |
| `AttributeEffects.UpdateAttributeServedIff` | src/modules/attribute/attribute.service.ts:100-134 | an update is served iff it changes something of a live attribute and the final key, types, data type and variant flag are acceptable where touched |
| `AttributeEffects.CreateValueServedIff` | src/modules/attribute/attribute.service.ts:149-163 | a value is created iff the attribute is a live ENUM, nobody answers to the name and no row of the catalog, deleted or not, holds it |
| `AttributeEffects.UpdateValueServedIff` | src/modules/attribute/attribute.service.ts:165-198 | the exact condition for a value update, imported values included |
| `AttributeEffects.EditsServedIff` | src/modules/attribute/attribute.service.ts:136-268 | the exact conditions for removing an attribute, a value or an alias and for adding an alias |
| `AttributeEffects.MergeServedIff` | src/modules/attribute/attribute.service.ts:270-296 | a merge is served iff source and target differ, both may be edited by hand and the name slot is open |
| `AttributeEffects.RefusalsMean` | src/modules/attribute/attribute.service.ts:298-324 | missing attributes are not found, attributes that are no ENUM are a bad request, only an update with unknown types violates a foreign key |
| `AttributeEffects.UpdateRefusalsMean` | src/modules/attribute/attribute.service.ts:100-134 | an update with something to do is not found iff the attribute is gone, and a foreign key violation iff only the types it names do not exist |
| `AttributeEffects.ValueRefusalsMean` | src/modules/attribute/attribute.service.ts:316-353 | missing, deleted or foreign values and aliases are not found, imported values are a bad request |
| `AttributeEffects.NameRefusalsMean` | src/modules/attribute/attribute.service.ts:149-251 | a name somebody answers to is a bad request, one that only a deleted row holds a unique violation |
| `AttributeEffects.CreatedAttribute` | src/modules/attribute/attribute.utils.ts:80-98 | the one new row has what was asked for; a generated key clashes with nothing and is the slug itself if that is free and fits 100 characters |
| `AttributeEffects.UpdatedAttributeRow` | src/modules/attribute/attribute.utils.ts:100-137 | the one changed row has the given fields and keeps the others |
| `AttributeEffects.CreatedValue` | src/modules/attribute/attribute.utils.ts:139-157 | the one new row belongs to the request's catalog and has what was asked for; a generated name is the slug itself if nobody ever had it and it fits 255 characters |
| `AttributeEffects.UpdatedValueRow` | src/modules/attribute/attribute.utils.ts:159-181 | the one changed row has the given fields and keeps the others |
| `AttributeEffects.EditedRows` | src/modules/attribute/attribute.repository.ts:406-440 | removals mark one row; a created alias belongs to its value and catalog |
| `AttributeEffects.InvalidatesItsTypes` | src/modules/attribute/attribute.service.ts:81-296 | a served request invalidates exactly the types of the attribute it is about, those before and those after |
| `AttributeEffects.GeneratedNamesFitColumns` | src/modules/attribute/attribute.service.ts:379-406 | generated keys fit 100 characters and generated values 255 as long as the number does |
| `AttributeHistory.RequestsKeepDeadRows` | src/modules/attribute/attribute.repository.ts:375-523 | no request changes a deleted value row |
| `AttributeHistory.MergedValueLeadsToTarget` | src/modules/attribute/attribute.repository.ts:490-493 | in every run after a served merge, following the links from its source starts at its target |
| `AttributeIsolation.RequestsStayInCatalog` | src/modules/attribute/attribute.repository.ts:76-92 | a request made in a catalog changes no value, alias, product or variant reference of another catalog (attribute removal, which is shared, excepted) |
| `AttributeIsolation.OthersCannotReach` | src/modules/attribute/attribute.repository.ts:76-92 | in every run of requests from other catalogs the dictionary rows of a catalog stay as they are |
| `AttributeIsolation.ImportedValuesAreProtected` | src/modules/attribute/attribute.service.ts:326-353 | no request but an attribute removal changes more of a live imported value than its display name |
| `AttributeIsolation.ImportedValuesStay` | src/modules/attribute/attribute.service.ts:326-353 | nor does any run of them |
| `AttributeIsolation.RemovalSparesOthers` | src/modules/attribute/attribute.repository.ts:569-625 | removing an attribute leaves all rows of other attributes, and all aliases, as they were; one that is no variant attribute takes no variant with it |
| `AttributeServices.FindFirst` | src/modules/attribute/attribute.repository.ts:690-699 | any matching row, none only if none matches |
| `AttributeServices.FindMany` | src/modules/attribute/attribute.repository.ts:646-653 | each matching row once, in any order |
| `AttributeServices.SomeChoices` | src/modules/attribute/attribute.repository.ts:442-509 | the database always has choices for a merge, so the laws are not vacuous |
| `AttributeServices.AttributeService.constructor` | src/modules/attribute/attribute.service.ts:59-65 | a service over an empty dictionary satisfies the invariant in both scopes |
| `AttributeServices.AttributeService.InvalidateTypeCache` | src/modules/attribute/attribute.service.ts:355-377 | the versions become the bumped ones |
| `AttributeViews.BumpedMeans` | src/modules/attribute/attribute.service.ts:372-376 | the version of each given type goes up by exactly one, no other changes |
| `AttributeServices.AttributeService.MoveEnumValueAliases` | src/modules/attribute/attribute.repository.ts:638-679 | the loop moves exactly the source's live in-scope aliases, in some order, and touches no other table |
| `AttributeServices.AttributeService.EnsureMergedValueAlias` | src/modules/attribute/attribute.repository.ts:681-718 | for some rows `findFirst` may return, the alias table becomes what the specification gives, or the insert is rejected |
| `AttributeServices.AttributeService.MergeTransaction` | src/modules/attribute/attribute.repository.ts:442-509 | the five statements compute the merge of the specification or roll back; it commits iff the name slot is open; then the source points at the target and exactly its live in-scope references are rewritten |
| `AttributeServices.AttributeService.SoftDelete` | src/modules/attribute/attribute.repository.ts:230-247 | the five statements of the cascade, in their order, amount to the cascade of the specification |
| `AttributeServices.AttributeService.GenerateEnumValue` | src/modules/attribute/attribute.service.ts:389-406 | the first candidate that no value of the attribute in scope ever had |
| `AttributeServices.AttributeService.CreateAttributeRow` | src/modules/attribute/attribute.service.ts:81-98 | reply and tables are those of the specification for a fresh id |
| `AttributeServices.AttributeService.CreateEnumValue` | src/modules/attribute/attribute.service.ts:149-163 | reply and tables are those of the specification for a fresh id |
| `AttributeServices.AttributeService.InsertEnumValue` | src/modules/attribute/attribute.service.ts:153-162 | with the name chosen, the availability check and the insert give the specified reply and table |
| `AttributeServices.AttributeService.CreateEnumValueAlias` | src/modules/attribute/attribute.service.ts:227-251 | reply and tables are those of the specification for a fresh id |
| `AttributeServices.AttributeService.MergeEnumValues` | src/modules/attribute/attribute.service.ts:270-296 | reply and tables are those of the specification for some choices of the database |
| `AttributeServices.AttributeService.RemoveAttributeRow` | src/modules/attribute/attribute.service.ts:136-142 | reply and tables are those of the specification |
| `AttributeServices.AttributeService.UpdateAttributeRow` | src/modules/attribute/attribute.service.ts:100-134 | the checks, the field update and the type update, rolled back together, amount to the specified update; the reply invalidates old and new types |
| `AttributeServices.AttributeService.UpdateEnumValue` | src/modules/attribute/attribute.service.ts:165-198 | reply and tables are those of the specification, and in a state satisfying the invariant a served request moves exactly the name answers it is about |
| `AttributeServices.AttributeService.RemoveEnumValue` | src/modules/attribute/attribute.service.ts:200-215 | reply and tables are those of the specification, and in a state satisfying the invariant a served request moves exactly the name answers it is about |
| `AttributeServices.AttributeService.RemoveEnumValueAlias` | src/modules/attribute/attribute.service.ts:253-268 | reply and tables are those of the specification, and in a state satisfying the invariant a served request moves exactly the name answers it is about |
| `AttributeServices.AttributeService.InsertEnumValueAlias` | src/modules/attribute/attribute.service.ts:232-250 | reply and tables are those of the specification, and in a state satisfying the invariant a served request moves exactly the name answers it is about |
| `AttributeServices.AttributeService.Handle` | src/modules/attribute/attribute.service.ts:81-296 | every request is served as specified, bumps exactly the invalidated types when it succeeds, keeps the invariant, and moves exactly the name answers it is about |
| `LoginLockout.KeysApart` | src/modules/auth/auth.service.ts:61-67 | the lock and failure keys of all addresses are pairwise different |
| `LoginLockout.AuthService.CheckLockout` | src/modules/auth/auth.service.ts:69-79 | an address is locked iff its lock key exists and has not expired; requests without an address never are |
| `LoginLockout.AuthService.RecordFailedAttempt` | src/modules/auth/auth.service.ts:81-90 | the Redis state after increment, first expiry and lock is that of the specification |
| `LoginLockout.AuthService.ClearFailedAttempts` | src/modules/auth/auth.service.ts:92-95 | only the address's failure counter goes away |
| `LoginLockout.AuthService.Login` | src/modules/auth/auth.service.ts:170-261 | response and Redis state of both login flows |
| `LoginLockout.OthersDoNotInterfere` | src/modules/auth/auth.service.ts:61-95 | a request from another address leaves both keys of this one alone |
| `LoginLockout.StepStaysConsistent` | src/modules/auth/auth.service.ts:81-90 | a live counter stays between 1 and 19 with at most 900 s to run |
| `LoginLockout.AttemptSpendsBudget` | src/modules/auth/auth.service.ts:69-95 | each counted failure uses up one of the failures still possible in the span |
| `LoginLockout.FailedLoginsAreBounded` | src/modules/auth/auth.service.ts:29-31 | in every timed run of both flows, a 900 s span without a successful login from the address holds at most 39 counted failures, a shorter one at most 38 |
| `LoginLockout.BoundIsReached` | src/modules/auth/auth.service.ts:81-90 | a run without a login whose 900 s span holds exactly 39 |
| `LoginLockout.LockHolds` | src/modules/auth/auth.service.ts:69-79 | once locked, every attempt of the address before the lock's expiry is refused, whatever happens in between |
| `LoginLockout.CounterLives` | src/modules/auth/auth.service.ts:84-85 | the counter of a first failure is there 899 999 ms later and gone after 900 000 |
| `LoginLockout.LockLives` | src/modules/auth/auth.service.ts:86-89 | after the twentieth failure every attempt of the address is refused for 1 799 999 ms, whatever else arrives, and answered on its merits from 1 800 000 on |
| `LoginLockout.UnlockedAnswers` | src/modules/auth/auth.service.ts:170-261 | what an unlocked address is told: only the catalog flow checks catalog access, only wrong credentials count |
| `LoginLockout.UntrackedLogins` | src/modules/auth/auth.service.ts:69-95 | logins without an address are answered on their merits and leave Redis alone |
| `LoginLockout.OneFailure` | src/modules/auth/auth.service.ts:81-90 | an unlocked failure is answered as failed credentials, raises the counter by one within the same window, and as the twentieth locks for 1800 s |
| `LockoutLaws.OtherOutcomesChangeNothing` | src/modules/auth/auth.service.ts:201-212 | refused, forbidden and failed-session logins leave Redis alone |
| `LockoutLaws.LoginStartsOver` | src/modules/auth/auth.service.ts:193-193 | after a successful login, through any timed run of requests from any addresses with fewer than twenty wrong-credential attempts of the address, its next attempt is answered on its merits, never as locked out |
| `LockoutLaws.RefusalIsEarned` | src/modules/auth/auth.service.ts:69-90 | in every timed run, behind each refusal stands a failure less than 1800 s earlier that was at least the twentieth counted one within 900 s with no login in between |
| `FuzzySearch.FuzzyScore` | scripts/db-console/prompt.ts:141-154 | the loop computes 100 plus the length for a substring, else the greedy score, else 0 |
| `FuzzySearch.GreedyFinds` | scripts/db-console/prompt.ts:147-152 | if the query embeds anywhere in order, greedy matching finds a match |
| `FuzzySearch.ScoresIffSubsequence` | scripts/db-console/prompt.ts:141-154 | a non-empty query scores above 0 iff it is a subsequence of the value |
| `FuzzySearch.SubsequenceOnlyScore` | scripts/db-console/prompt.ts:145-153 | a match that is no substring scores between the query's length and three times it less two |
| `FuzzySearch.SubstringsRankFirst` | scripts/db-console/prompt.ts:141-154 | up to 50 characters every substring match scores above every other match |
| `FuzzySearch.LongQueriesRankOtherwise` | scripts/db-console/prompt.ts:141-154 | for every length above 50 some substring match scores no higher than a non-substring one |
| `FuzzySearch.FuzzyFilter` | scripts/db-console/prompt.ts:132-139 | exactly the matching choices, by falling score, ties in their given order |
| `FuzzySearch.RankedMeans` | scripts/db-console/prompt.ts:132-139 | what the ranking is: the choices with a score, higher scores first, among equal scores the earlier choice |
| `FuzzySearch.SubstringsComeFirst` | scripts/db-console/prompt.ts:132-139 | for queries of 1 to 50 characters substring matches precede all others in the list |
| `CsvExport.CellReadsBack` | scripts/db-console/format.ts:268-271 | an escaped cell followed by a comma, a line break or the end reads back as the cell |
| `CsvExport.PlainIffNothingToQuote` | scripts/db-console/format.ts:268-271 | a cell is printed as it is iff it has no quote, comma, line feed or carriage return |
| `CsvExport.RowReadsBack` | scripts/db-console/format.ts:150-155 | a printed row reads back as its cells |
| `CsvExport.TableReadsBack` | scripts/db-console/format.ts:150-155 | a reader following section 2 of RFC 4180 with LF recovers every table of at least one column exactly, quotes, commas and line breaks included |
| `CsvExport.CollectColumns` | scripts/db-console/format.ts:143-148 | each field of any record once, in order of first occurrence |
| `CsvExport.HeaderOrder` | scripts/db-console/format.ts:143-148 | the first record's fields come first and in its order, later records only append |
| `CsvExport.RowsToCsv` | scripts/db-console/format.ts:138-156 | the text reads back as the header and, for records with distinct field names, one line per record whose cell under each column is the value of that field, and empty if the record has none |
| `PositionRepair.ListedAtRank` | scripts/db-console/cockpit.ts:323-329 | the index of a row in the ordered listing is the diagnostic's row number less one |
| `PositionRepair.PlanUpdates` | scripts/db-console/cockpit.ts:328-333 | one update, to its rank, for exactly each row that sits off its rank |
| `PositionRepair.UpdatesMatchGaps` | scripts/db-console/catalog-diagnostics.ts:333-344 | as many updates as the diagnostic reports gaps |
| `PositionRepair.OrderPreserved` | scripts/db-console/cockpit.ts:361-368 | the repair keeps the order of any two rows |
| `PositionRepair.RepairedInOrder` | scripts/db-console/cockpit.ts:323-333 | after the repair rows stand by old position, then age, then id |
| `PositionRepair.RepairedHasNoGaps` | scripts/db-console/catalog-diagnostics.ts:333-344 | after the repair the diagnostic is 0 and a second repair changes nothing |
| `PositionRepair.RepairedIsDense` | scripts/db-console/cockpit.ts:328-333 | a number is a position of the repaired group iff it is one of 0..n-1 |
| `PositionConsole.CategoriesRepaired` | scripts/db-console/cockpit.ts:317-373 | the repaired table has gap count 0, is a fixed point of the repair, and leaves other catalogs alone |
| `PositionConsole.RepairedCategoryRows` | scripts/db-console/cockpit.ts:317-373 | the repair sets the positions of the catalog's live categories, and nothing else, to the number of categories before each |
| `PositionConsole.CategoryGapsAre` | scripts/db-console/catalog-diagnostics.ts:333-344 | the diagnostic counts the live categories of the catalog that are not there |
| `PositionConsole.RepairedLinkRows` | scripts/db-console/cockpit.ts:375-450 | likewise for category products of the catalog's categories, deleted ones included, and for their diagnostic |
| `PositionConsole.CategoryListed` | scripts/db-console/cockpit.ts:381-391 | the rows of one category, in query order, list its group in the diagnostic's order |
| `PositionConsole.GroupRows` | scripts/db-console/cockpit.ts:386-391 | grouping keeps each category's rows in query order |
| `PositionConsole.AllCategoriesFixed` | scripts/db-console/cockpit.ts:393-405 | the updates are as many as the per-category gaps and carry the table to the repaired one |
| `PositionConsole.LinksRepaired` | scripts/db-console/catalog-diagnostics.ts:319-331 | after the link repair the diagnostic finds nothing |
| `PositionConsole.Console.NormalizeCategories` | scripts/db-console/cockpit.ts:317-373 | as many updates as the diagnostic counts gaps; if accepted the table is the repaired one, else unchanged |
| `PositionConsole.Console.NormalizeCategoryProducts` | scripts/db-console/cockpit.ts:375-450 | likewise for category products, partitioned by category |
| `CategoryPositions.PositionKeyInjective` | migration/scripts/legacy-migration/product-sync.ts:1178-1183 | different pairs have different keys |
| `CategoryPositions.ReadLinkIsSeparatorFree` | migration/scripts/legacy-migration/product-sync.ts:1501-1511 | category ids built from rows without a NUL character contain none |
| `CategoryPositions.ReadLinkByTable` | migration/scripts/legacy-migration/product-sync.ts:177-187 | a link row of table XProduct is about a category of table XCategory, for exactly nine tables |
| `CategoryPositions.OrderPlaces` | migration/scripts/legacy-migration/product-sync.ts:1126-1128 | the order number of a product is the place of its last occurrence |
| `CategoryPositions.CategoriesAgree` | migration/scripts/legacy-migration/product-sync.ts:1160-1172 | positions follow the product order, so two categories rank shared products alike |
| `CategoryPositions.PositionsAreDense` | migration/scripts/legacy-migration/product-sync.ts:1151-1173 | a category's positions are below the number of its distinct linked known products and pairwise different |
| `CategoryPositions.PositionTaken` | migration/scripts/legacy-migration/product-sync.ts:1151-1173 | every such position is taken |
| `CategoryPositions.GroupLinks` | migration/scripts/legacy-migration/product-sync.ts:1129-1148 | each category gets exactly its linked known products; unknown products and links without a category are ignored |
| `CategoryPositions.BuildPositionMap` | migration/scripts/legacy-migration/product-sync.ts:1123-1176 | every linked known product of every category is mapped to the number of linked products before it, duplicate links or not |
| `CategoryLinks.WriteLinks` | migration/scripts/legacy-migration/product-sync.ts:598-637 | created, reused and skipped add up, skipped counts the links one of whose ends has no target, and the table is the old one with the links written in order, each at its position; the fallback 0 is never used |
| `CategoryLinks.LastLinkWins` | migration/scripts/legacy-migration/product-sync.ts:1092-1120 | a named row ends at the position of the last link that names it, every other row stays |
| `CategoryLinks.SettledIff` | migration/scripts/legacy-migration/product-sync.ts:598-637 | every resolved link finds its own position in the table iff links that meet in a row agree |
| `CategoryLinks.DistinctIffTieFree` | migration/scripts/legacy-migration/product-sync.ts:598-637 | the rows written for a target category have pairwise different positions iff no two last-writing links of different products carry equal positions |
| `CategoryLinks.DenseIffBounded` | migration/scripts/legacy-migration/product-sync.ts:598-637 | they stand at exactly 0..n-1 iff moreover every last-writing link is placed below n |
| `CategoryLinks.InjectiveTargetsAreDense` | migration/scripts/legacy-migration/product-sync.ts:598-637 | with injective targets every link is settled and the rows written for each target category stand at exactly 0..n-1 |
| `CategoryLinks.SharedTargetClashes` | migration/scripts/legacy-migration/product-sync.ts:771-783 | two categories matched to one target: in the table written, every link is settled and two rows of the category share position 0 |
| `CategoryLinks.SharedTargetDisagrees` | migration/scripts/legacy-migration/product-sync.ts:771-783 | two links that meet in one row at different positions: the later wins and the earlier is not settled |
| `PositionRepair.NoGapsIffDense` | scripts/db-console/catalog-diagnostics.ts:319-344 | the diagnostic reports nothing for a group iff its positions are pairwise different and exactly 0..n-1 |
| `MigratedPositions.NoGapsAfterMigrationIff` | scripts/db-console/catalog-diagnostics.ts:319-331 | on the table the migration leaves, the console reports no gap in a catalog iff none of its categories has a tie or a position out of bounds, given that earlier rows are among those the links name |
| `MigratedPositions.InjectiveMigrationNeedsNoRepair` | scripts/db-console/catalog-diagnostics.ts:319-331 | with injective targets the diagnostic is 0 and the repair changes nothing |
| `BatchQueries.TakeFirst` | scripts/audit-default-product-variants.ts:560-585 | the n smallest ids, in order |
| `CartItemBackfill.CartStore.ShouldUpdate` | scripts/audit-default-product-variants.ts:592-596 | true iff the product has exactly one live variant and it is a default one |
| `CartItemBackfill.CartStore.ProcessBatch` | scripts/audit-default-product-variants.ts:589-651 | updated and skipped add up to the batch; the items attached on top of those done before are exactly the fixable ones of the batch |
| `CartItemBackfill.CartStore.Backfill` | scripts/audit-default-product-variants.ts:559-654 | the loop ends, processed = updated + skipped, skipped counts the unfixable items of each pass, and the table is the old one with exactly the items within reach attached to the sole default variant of their own product |
| `CartItemBackfill.FixableIff` | scripts/audit-default-product-variants.ts:592-596 | an item can be fixed iff its product has exactly one live variant and that is of kind DEFAULT or keyed `default` |
| `CartItemBackfill.OpenIff` | scripts/audit-default-product-variants.ts:560-568 | open items are the active ones without a variant |
| `CartItemBackfill.MismatchIff` | scripts/audit-default-product-variants.ts:330-347 | mismatches are active items whose live variant is of another product |
| `CartItemBackfill.AttachedRows` | scripts/audit-default-product-variants.ts:622-625 | attached items hold that variant and are otherwise unchanged, as are all other items |
| `CartItemBackfill.FewUnfixableReachesAll` | scripts/audit-default-product-variants.ts:559-654 | with fewer than a batch of unfixable open items every fixable one is attached |
| `CartItemBackfill.NoNewMismatch` | scripts/audit-default-product-variants.ts:330-347 | attaching creates and removes no item/variant mismatch |
| `CartItemBackfill.LeftBehindIff` | scripts/audit-default-product-variants.ts:653-654 | a fixable item stays open iff a whole batch of unfixable open items precedes it |
| `CartItemBackfill.LeftBehind` | scripts/audit-default-product-variants.ts:653-654 | a fixable item that stays open behind one unfixable item with batches of one |
| `DefaultVariantBackfill.Candidates` | scripts/audit-default-product-variants.ts:670-689 | all SKU candidates fit the column |
| `DefaultVariantBackfill.CandidatesSpelledOut` | scripts/audit-default-product-variants.ts:670-689 | the product's own SKU first, then its head cut to 100 characters with -D- and 8, 12, 16, 20, 32 and 40 digits of the digest |
| `DefaultVariantBackfill.FirstFree` | scripts/audit-default-product-variants.ts:683-693 | a free candidate, or none only if all are taken |
| `DefaultVariantBackfill.FirstFreeIsFirst` | scripts/audit-default-product-variants.ts:672-689 | all candidates before the chosen one are taken |
| `DefaultVariantBackfill.ResolveDefaultVariantSku` | scripts/audit-default-product-variants.ts:665-706 | the first candidate no variant, deleted ones included, has |
| `DefaultVariantBackfill.MissingNow` | scripts/audit-default-product-variants.ts:429-441 | products still without a variant are the initial ones less those done |
| `DefaultVariantBackfill.GrowOne` | scripts/audit-default-product-variants.ts:517-528 | one insert keeps old rows, unique SKUs and one new default row per done product |
| `DefaultVariantBackfill.NoClashNeverFails` | scripts/audit-default-product-variants.ts:691-693 | if each missing product has a candidate that nobody has or may take, allocation never fails |
| `DefaultVariantBackfill.FirstPassesOn` | scripts/audit-default-product-variants.ts:445-447 | creating the variant of the smallest missing product leaves unchanged whether all missing products can be served in order |
| `DefaultVariantBackfill.TakenCandidatesAbort` | scripts/audit-default-product-variants.ts:691-693 | a product all of whose candidates its own deleted variants hold makes allocation fail |
| `DefaultVariantBackfill.Backfill.CreateDefaultVariantIfMissing` | scripts/audit-default-product-variants.ts:504-537 | creates iff the product has no live variant and a SKU is free: one live row of kind DEFAULT, keyed `default`, with the first free SKU and the product's price; fails iff no SKU is free |
| `DefaultVariantBackfill.Backfill.Run` | scripts/audit-default-product-variants.ts:409-502 | the loop ends; it finishes iff the missing products, by ascending id, all find a SKU; finished means every initially missing product, and no other, got one default variant; it aborts only at a product whose candidates are all taken |
| `DefaultVariantBackfill.NothingMissingNothingReported` | scripts/db-console/catalog-diagnostics.ts:346-371 | with nothing missing the diagnostic of simple products without default variant is 0 for every catalog |
| `DefaultVariantBackfill.DiagnosticCountsMissing` | scripts/db-console/catalog-diagnostics.ts:346-371 | the diagnostic counts exactly the products the backfill is after |
| `DefaultVariantBackfill.DiagnosticsSee` | scripts/db-console/catalog-diagnostics.ts:373-438 | two live default variants of a live product are reported, and each one whose price is not the product's |
| `DefaultVariantBackfill.DiagnosticsSeeOnly` | scripts/db-console/catalog-diagnostics.ts:373-438 | nothing else is reported |
| `DefaultVariantBackfill.OtherDiagnosticsUnchanged` | scripts/db-console/catalog-diagnostics.ts:373-438 | the multiple-default and price-mismatch diagnostics stay exactly the same |
| `BackfillPair.FixableAfter` | scripts/audit-default-product-variants.ts:592-596 | after the default-variant backfill an open item is fixable iff it was before or its product got a variant |
| `BackfillPair.MissingProductsEndAttached` | scripts/audit-default-product-variants.ts:559-654 | with fewer than a batch of hopeless open items, every other open item, those of initially missing products included, ends attached to the sole default variant of its product |
| `BackfillPair.ApplyBackfills` | scripts/audit-default-product-variants.ts:146-163 | the script runs the second backfill only if the first finished, which it does iff all SKUs can be allocated, and both then leave exactly the specified tables |
| `MediaStore.ProductImageIdInjective` | migration/scripts/legacy-migration/media-sync.ts:1049-1069 | product and image number can be read off the legacy id |
| `MediaStore.KindsApart` | migration/scripts/legacy-migration/media-sync.ts:1004-1070 | legacy ids of different kinds never coincide |
| `MediaStore.FileNamesApart` | migration/scripts/legacy-migration/media-sync.ts:1212-1232 | a file name determines position and hashed name, zero padding or not |
| `MediaStore.FileNameSpelling` | migration/scripts/legacy-migration/media-sync.ts:1227-1230 | position plus one, padded below ten, dash, hash, dot, extension |
| `MediaMapBackfill.DedupeCandidates` | migration/scripts/backfill-media-maps.ts:460-471 | the first candidate of each legacy id, in order, and one for each id that occurs |
| `MediaMapBackfill.FirstsRepresent` | migration/scripts/backfill-media-maps.ts:464-468 | the kept candidates have distinct legacy ids and represent every id that occurs |
| `MediaMapBackfill.DryRunPredictsApply` | migration/scripts/backfill-media-maps.ts:324-382 | for every store and deduplicated list the dry run's counters equal those of apply |
| `MediaMapBackfill.DuplicatesBreakPrediction` | migration/scripts/backfill-media-maps.ts:324-382 | for every store without the legacy id, two candidates for it with different existing media make the dry run announce two creations where apply makes one |
| `MediaMapBackfill.OutcomesAddUp` | migration/scripts/backfill-media-maps.ts:421-458 | the five counters sum to the number of candidates |
| `MediaMapBackfill.CountersTally` | migration/scripts/backfill-media-maps.ts:384-447 | the five counters are the sizes of five sets of candidates, told apart by whether their media exists and where their map points |
| `MediaMapBackfill.ApplyRepairs` | migration/scripts/backfill-media-maps.ts:337-382 | after apply every candidate whose media exists is mapped to existing media, the old one if it still existed and else its own; no other entry changes |
| `MediaMapBackfill.ValidMapsAreKept` | migration/scripts/backfill-media-maps.ts:384-419 | a map whose media exists never changes, no map disappears, and every changed map points at existing media |
| `MediaMapBackfill.SecondApplyDoesNothing` | migration/scripts/backfill-media-maps.ts:337-382 | a second apply creates and updates nothing |
| `MediaMapBackfill.Backfill.AnalyzeCandidates` | migration/scripts/backfill-media-maps.ts:324-335 | the loop's stats are what apply would report for a deduplicated list, and nothing is written |
| `MediaMapBackfill.Backfill.ApplyCandidates` | migration/scripts/backfill-media-maps.ts:337-382 | for a deduplicated list the counters are the sizes of the five sets and the maps are repaired accordingly; the counters add up for every list |
| `MediaAssets.BuildLegacyMediaAssets` | migration/scripts/legacy-migration/media-sync.ts:1004-1070 | the assets of all rows in order, with distinct legacy ids when the rows are distinct |
| `MediaAssets.AllAssetsAre` | migration/scripts/legacy-migration/media-sync.ts:1004-1070 | the assets are exactly the logos, backgrounds and category images that exist and every image of every product |
| `MediaAssets.AssetsAreWellNamed` | migration/scripts/legacy-migration/media-sync.ts:1004-1070 | every asset's legacy id spells its kind, entity and 1-based number |
| `MediaImportLaws.StepStaysConsistent` | migration/scripts/legacy-migration/media-sync.ts:367-578 | one step of any asset keeps: rows only grow, each asset is on its way to its outcome, each plan holds exactly its finished successes |
| `MediaImportLaws.RunStaysConsistent` | migration/scripts/legacy-migration/media-sync.ts:367-578 | so does every interleaving |
| `MediaImportLaws.FairSchedulesFinish` | migration/scripts/legacy-migration/media-sync.ts:367-578 | four turns per asset finish the import in whatever order they come: no asset waits for another |
| `MediaImportLaws.ResolvesIffKnown` | migration/scripts/legacy-migration/media-sync.ts:1107-1141 | an asset finds its place iff its business, and category or product, is known: in the catalog of the business, at its own target |
| `MediaImportLaws.ImportedIff` | migration/scripts/legacy-migration/media-sync.ts:367-578 | an asset comes to media iff it is known, its url is usable and its map points at existing media or the download works; to the mapped media, or to the media at its object key |
| `MediaLinking.ItemRowsExact` | migration/scripts/legacy-migration/media-sync.ts:607-617 | a plan's rows can be inserted iff its media are distinct, and are then exactly its items at their positions |
| `MediaLinking.LinkProducts` | migration/scripts/legacy-migration/media-sync.ts:580-625 | the link loop computes the specified table, or stops at the first product whose insert clashes |
| `MediaLinking.EveryScheduleLinksTheSame` | migration/scripts/legacy-migration/media-sync.ts:340-625 | any two interleavings that finish leave the same product links |
| `MediaLinking.LinkedIff` | migration/scripts/legacy-migration/media-sync.ts:602-618 | the loop goes through iff no product's images came to the same media row |
| `MediaLinking.LinksOfRun` | migration/scripts/legacy-migration/media-sync.ts:340-625 | after any finished interleaving each product has exactly its successful images at their original positions, keeps its old links if all failed, and never loses links without a replacement |
| `MediaRepeat.RunKeepsFresh` | migration/scripts/legacy-migration/media-sync.ts:685-825 | every interleaving leaves a store from which the import can start again |
| `MediaRepeat.SecondImportChangesNothing` | migration/scripts/legacy-migration/media-sync.ts:340-625 | a second import of the same assets, under any two interleavings and with no edits in between, leaves the product links as they are |
| `MediaClashes.FreshClashIff` | migration/scripts/legacy-migration/media-sync.ts:1212-1232 | two freshly imported images of a product come to the same media row iff catalog, position and file name agree |
| `MediaClashes.ClashFreeIff` | migration/scripts/legacy-migration/media-sync.ts:660-683 | no two images of a product come to the same media row iff no two wanted ones have the same reused media, the reused media at the new object key, or the same catalog, position and file name |
| `MediaClashes.InjectiveNumbersApart` | migration/scripts/legacy-migration/media-sync.ts:1052-1067 | with injective product maps and assets of distinct rows the images of a target product have different positions |
| `MediaClashes.FreshImagesNeverClash` | migration/scripts/legacy-migration/media-sync.ts:1212-1232 | freshly imported images from distinct legacy rows never share a media row when product maps are injective |
| `MediaClashes.SharedProductStopsLinking` | migration/scripts/legacy-migration/media-sync.ts:602-618 | product maps that are not injective: two legacy products with one target and the same picture at the same index; under every fair schedule the import finishes and the link loop stops |
| `MediaClashes.RoundRobinIsFair` | migration/scripts/legacy-migration/media-sync.ts:367-578 | two assets that take turns: a fair schedule exists |
| `MediaEdits.MovedLinkIsMistaken` | migration/scripts/backfill-media-maps.ts:304-321 | a link moved to the place of a failed image is collected under that image's legacy id, with injective maps |
| `MediaEdits.MovedLinkStopsLinking` | migration/scripts/legacy-migration/media-sync.ts:602-618 | after an import in which one image failed, the move and the backfill, every fair run of the next import reuses one media row for both images and its link loop stops, whatever it downloads |
| `MediaEdits.EditedImportStops` | migration/scripts/legacy-migration/media-sync.ts:602-618 | the same from the empty store for one product with two images: any fair import, the move, the backfill, any fair import |
| `MediaEdits.SecondImageFails` | migration/scripts/legacy-migration/media-sync.ts:545-550 | that product reaches the situation, with injective maps |
| `MediaAgreement.ProductLinksAgree` | migration/scripts/backfill-media-maps.ts:276-322 | every candidate read off a product link that the import wrote is skipped as existing |
| `MediaAgreement.ImportThenBackfill` | migration/scripts/legacy-migration/media-sync.ts:806-818 | the same from distinct legacy rows through any interleaving and the link loop, with injective product maps |
| `MediaAgreement.InjectiveMeansOneWriter` | migration/scripts/legacy-migration/media-sync.ts:1107-1141 | with injective entity maps no two assets write the same logo, background or category image |
| `MediaAgreement.RunWritesLinks` | migration/scripts/legacy-migration/media-sync.ts:464-528 | through every interleaving, a finished asset's logo, background or category link holds its own outcome |
| `MediaAgreement.GoneCategoriesStayBare` | migration/scripts/legacy-migration/media-sync.ts:512-527 | in no interleaving does a category that is gone get an image |
| `MediaAgreement.SingleLinksAgree` | migration/scripts/backfill-media-maps.ts:179-274 | candidates for logos, backgrounds and category images that the import linked are skipped as existing |
| `MediaAgreement.ImportThenBackfillSingle` | migration/scripts/legacy-migration/media-sync.ts:464-528 | the same from distinct legacy rows through any interleaving, with injective business and category maps |
| `MediaPipeline.CollectedIsSkipped` | migration/scripts/backfill-media-maps.ts:337-419 | a collected candidate that is mapped already is kept by the deduplication and resolves to skip-existing in its own turn of apply, after all earlier candidates were applied |
| `MediaPipeline.ProductLinkSkippedInTurn` | migration/scripts/backfill-media-maps.ts:131-177 | from distinct legacy rows through any interleaving, the link loop, collection, deduplication and apply, every link of a product that the import linked is skipped as existing in its turn |
| `MediaPipeline.SingleLinkSkippedInTurn` | migration/scripts/backfill-media-maps.ts:131-274 | the same for the logo, background or category image that an asset wrote |

## Left out

- Normalisation of names, keys and labels, slugs and lower-casing: requests and queries carry the normalised text, a generated name its slug.
- Fields without influence on the modelled behaviour: an attribute's or a value's remaining fields are one `title`; deletion times are a `live` flag.
- Integration modules that write enum values of their own, and product editing: they add rows outside the request set of the dictionary.
- Runs that mix requests with and without a catalog: the name invariant is not meant for them.
- Database isolation and partial failure: each transaction, each request and each login is atomic, and so is each database call of the import.
- `AttributeServices.AttributeService.InvalidateTypeCache`: the event dispatcher and the direct version bump are one version bump, and caching is on; with caching off nothing is invalidated because nothing is cached.
- Session issuing, password hashing and catalog access: outcomes of a login that the lockout takes as given. Redis expiry is exact: a key exists before its expiry time and not at it.
- Download, image processing, upload, retries, progress, issue lists and counters of the media import; importing is success with a file or failure.
- The order in which `createMany` inserts rows of one product: a table of rows has none.
- The `limit` and catalog filters of the media-map backfill, which only shorten the candidate list, and the payloads and run ids of map rows.
- `FuzzySearch.FuzzyScore`: strings are sequences of characters, so a query's surrogate pairs count as one character each in both the loop and the length.
- `CsvExport.RowsToCsv`: rows come after secrets are masked and values formatted; records without any field print as empty lines and do not read back.
- `CategoryLinks.DenseIffBounded`: speaks of the rows that the links of the run name; rows of earlier runs that no link names keep their positions, whatever those are.
- `CategoryPositions.BuildPositionMap`: category ids contain no NUL character, which the legacy database's text columns cannot store.
- The fingerprint search of `upsertLegacyCategory` itself, order, payment and SEO sync, catalog bootstrap, reconciliation reports and their slug loops: field copying or facts simpler than those above.
- `BackfillPair.ApplyBackfills`: the audit that may forbid the run and the option that switches the second backfill off.
- Samples, progress logs, command lines, menus, backups and audit records of the scripts and the console; a confirmation is a parameter.
- Controllers, guards, cookies, metrics and connection code.
