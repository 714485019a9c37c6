# Marketplace asset core in Dafny

This project models the server-side asset core of the LAND marketplace:

- **Parcel identity.** A parcel's id is the text `"x,y"` built from its coordinates. `splitId` takes an id apart again.
- **Parcel geometry.** The Chebyshev distance, the bounding-box test and parcel equality.
- **The parcel map query `inRange`.** The database selects a rectangle, left-joins the latest publication and orders by x ascending, then y descending. The application then drops rows whose publication has expired.
- **The district partition.** Owneable parcels against landmarks.
- **Token id lookups.** Point lookups between a parcel's token id and its coordinates.
- **Parcel insertion.** `insert` stamps the id before saving.
- **The generic asset repository (`Asset`).** Point and bulk lookups, lookups by owner and status, and the paginated listing `filter` with its total count.
- **The three property sanitizers.** They remove fixed blacklists of bookkeeping columns from column lists and records.

## How queries are modelled

Every query is a function over an in-memory snapshot: a sequence of asset rows and a sequence of publication rows.

- A `WHERE` clause is `Seqs.Filter`.
- A join is a pair of nested filters.
- `ORDER BY` is a sort that is proved sorted and a permutation (`Seqs.SortByCorrect`).
- `LIMIT`/`OFFSET` is `Seqs.Window`.
- `DISTINCT ON` keeps the first row per key (`Seqs.DistinctOn`).

Helpers whose code lives elsewhere in the repository are parameters of the functions that use them, so nothing is assumed about them:

| parameter | stands for |
|---|---|
| `latestOf` | the latest-publication sub-select |
| `statusPubs` | the rows of the by-status relation |
| `isActive` | the active-publication condition |
| `hasStatus` | the optional status condition |
| `toArray` | `coordinates.toArray` |
| `isExpired` | the expiry check, which reads the clock |
| `Filters` value | the already-sanitized result of `filters.sanitize()` |

`Publications.PassThroughStatus` is the assumed meaning of `PublicationQueries.hasStatus`, whose code is not part of this model: a null status passes everything, otherwise the status must be equal. Only `Assets.NullStatusTotalBelowPage` uses it; every other member takes `hasStatus` as a parameter.

## Layout

| file | module | contents |
|---|---|---|
| `results.dfy` | Results | `Option` and `Result` |
| `seqs.dfy` | Seqs | filter, subsequence, first match, stable sort, window, distinct-on |
| `text.dfy` | Text | decimal rendering of integers as a template literal does it, and `String.prototype.split` on one character |
| `records.dfy` | Records | `utils.omit` and `utils.mapOmit` on records seen as maps from key to value |
| `sanitize.dfy` | SanitizePublications, SanitizeContributions, SanitizeDistricts | the three sanitizers |
| `publications.dfy` | Publications | the publication row and the single-latest-pointer invariant |
| `assets.dfy` | Assets | `src/Asset/Asset.js` |
| `parcels.dfy` | Parcels | `src/Asset/Parcel/Parcel.model.js` |

## Parcel insertion and the range bounds

`Parcels.ParcelTable` is the parcels table as `insert` changes it. `Parcels.ParcelDraft` is the object handed to `insert`, whose `id` field `insert` overwrites.

`inRange` takes `minx` and `maxy` from its `min` argument, and `maxx` and `miny` from `max`. So `min` is the north-west corner (as the route comment at `src/server.js:42-44` calls it), and rows satisfy `max.y <= y <= min.y`.

## Model

| member | source | states |
|---|---|---|
| Parcels.BuildId | src/Asset/Parcel/Parcel.model.js:30-38 | fails exactly when x or y is missing, reporting both; otherwise the id is x in decimal, a comma, y in decimal |
| Parcels.SplitId | src/Asset/Parcel/Parcel.model.js:40-48 | undefined splits as ''; succeeds exactly when the text holds one comma; the two pieces are comma-free and rejoined with a comma give the id back; otherwise fails with the id text |
| Parcels.SplitIdBuildIdRoundTrip | src/Asset/Parcel/Parcel.model.js:30-48 | for all integers x, y: splitId(buildId(x, y)) succeeds with the decimal texts of x and y |
| Parcels.CanonicalIdInjective | src/Asset/Parcel/Parcel.model.js:37 | two coordinate pairs with the same id text are the same pair |
| Parcels.SplitIdRejects | src/Asset/Parcel/Parcel.model.js:40-45 | the default '', "5" and "1,2,3" are all refused |
| Parcels.DistanceTo | src/Asset/Parcel/Parcel.model.js:157-163 | the result is at least each axis distance and equal to one of them, i.e. their maximum |
| Parcels.DistanceToSymmetric | src/Asset/Parcel/Parcel.model.js:157-163 | distance is symmetric |
| Parcels.DistanceToZero | src/Asset/Parcel/Parcel.model.js:157-163 | distance to itself is 0; distance is 0 exactly at equal coordinates |
| Parcels.DistanceToTriangle | src/Asset/Parcel/Parcel.model.js:157-163 | the triangle inequality |
| Parcels.IsWithinBoundingBox | src/Asset/Parcel/Parcel.model.js:165-170 | holds exactly when the distance is at most size |
| Parcels.IsEqual | src/Asset/Parcel/Parcel.model.js:149-155 | holds exactly when the ids are equal or the distance between the parcels is zero |
| Parcels.IsEqualReflexiveSymmetric | src/Asset/Parcel/Parcel.model.js:149-155 | isEqual is reflexive and symmetric |
| Parcels.IsEqualNotTransitive | src/Asset/Parcel/Parcel.model.js:149-155 | three rows where a equals b by id, b equals c by coordinates, yet a differs from c |
| Parcels.StampedIsEqualIffSameCoordinates | src/Asset/Parcel/Parcel.model.js:149-155 | between rows carrying the id insert stamps, isEqual is exactly coordinate equality |
| Parcels.RangeBounds | src/Asset/Parcel/Parcel.model.js:89-92 | min supplies minx and maxy, max supplies maxx and miny, from a parsed text or an object |
| Parcels.ScanOrderIsTotalPreorder | src/Asset/Parcel/Parcel.model.js:112 | x ascending then y descending is a total preorder |
| Parcels.LeftJoinRow | src/Asset/Parcel/Parcel.model.js:109 | one row per latest publication of the parcel, or a single undecorated row when it has none; every row pairs the parcel with a latest publication in the table or with nothing when none exists |
| Parcels.LeftJoin | src/Asset/Parcel/Parcel.model.js:108-109 | a row is in the join exactly when its parcel is in the table and its decoration is as the left join on is_latest prescribes |
| Parcels.RangeRows | src/Asset/Parcel/Parcel.model.js:106-113 | the database stage is a permutation of the join of the in-box parcels, sorted x ascending then y descending |
| Parcels.RangeRowsMembers | src/Asset/Parcel/Parcel.model.js:106-111 | a row is in the database stage exactly when its parcel is in the table, inside the bounds, and carries the left-join decoration |
| Parcels.InRange | src/Asset/Parcel/Parcel.model.js:88-119 | every row has min.x <= x <= max.x and max.y <= y <= min.y; a row is returned exactly when its parcel is in the table and inside the bounds, it carries the left-join decoration and its publication is absent or not expired; the result is sorted and is a subsequence of the database stage |
| Parcels.InRangeOccurrences | src/Asset/Parcel/Parcel.model.js:114-116 | every copy of an unexpired row of the database stage is kept, and no copy of an expired one |
| Parcels.InRangeDropsOnlyExpired | src/Asset/Parcel/Parcel.model.js:114-118 | a row of the database stage is kept exactly when it has no publication or one that is not expired |
| Parcels.InRangeEmptyWhenInverted | src/Asset/Parcel/Parcel.model.js:110-111 | a lower bound above its upper bound gives [] |
| Parcels.InRangeTextAndPointAgree | src/Asset/Parcel/Parcel.model.js:89-92 | a text corner and the object it parses to give the same result, for either argument |
| Parcels.AtMostOneLatest | src/Asset/Parcel/Parcel.model.js:109 | under the single-latest-pointer invariant a parcel has at most one latest publication |
| Parcels.LeftJoinOneRowPerParcel | src/Asset/Parcel/Parcel.model.js:108-109 | under that invariant the left join has exactly one row per parcel |
| Parcels.RangeRowsOneRowPerParcel | src/Asset/Parcel/Parcel.model.js:106-113 | under that invariant the database stage has as many rows as parcels inside the bounds |
| Parcels.FindOwneableParcels | src/Asset/Parcel/Parcel.model.js:62-68 | exactly the parcels whose district_id is null |
| Parcels.FindLandmarks | src/Asset/Parcel/Parcel.model.js:70-76 | exactly the parcels whose district_id is not null |
| Parcels.OwneableAndLandmarksPartition | src/Asset/Parcel/Parcel.model.js:62-76 | the two results are disjoint and together hold every parcel row as often as the table does |
| Parcels.EncodeTokenId | src/Asset/Parcel/Parcel.model.js:121-130 | null when no parcel is at (x, y); otherwise the token id of a parcel at (x, y) |
| Parcels.DecodeTokenId | src/Asset/Parcel/Parcel.model.js:132-140 | null exactly when no parcel has the token id; otherwise the id of a parcel with that token id |
| Parcels.TokenIdRoundTrip | src/Asset/Parcel/Parcel.model.js:121-140 | with stamped ids and unique token ids, decoding the token id found at (x, y) yields the id of (x, y) |
| Parcels.ValidTableTokenIdRoundTrip | src/Asset/Parcel/Parcel.model.js:121-147 | on a table whose every row was stamped by insert and whose ids are unique, with unique token ids, decoding the token id found at (x, y) yields the id of (x, y) |
| Parcels.ParcelTable.Insert | src/Asset/Parcel/Parcel.model.js:142-147 | on a missing coordinate it fails with buildId's error and changes neither the table nor parcel.id; otherwise parcel.id becomes "x,y" first; an id already saved is then refused by the primary key with the table unchanged; otherwise the saved row carries the stamped id and the draft's columns and exactly that row is appended; the invariant that every row is stamped and ids are unique is kept |
| Assets.FindById | src/Asset/Asset.js:12-22 | undefined exactly when no row has the id; otherwise a row of the table with that id, decorated with its latest publication |
| Assets.FindByTokenId | src/Asset/Asset.js:24-34 | undefined exactly when no row has the token id; otherwise a row with it, decorated with its latest publication |
| Assets.FindByIds | src/Asset/Asset.js:36-44 | [] for no ids; otherwise exactly the rows whose id is listed, in table order, each as often as the table holds it |
| Assets.FindByTokenIds | src/Asset/Asset.js:46-54 | [] for no token ids; otherwise exactly the rows whose non-null token id is listed, in table order, each as often as the table holds it |
| Assets.FindByOwner | src/Asset/Asset.js:56-64 | exactly the owner's rows, each decorated with its latest publication, in table order and with every owned row as often as the table holds it |
| Assets.JoinOn | src/Asset/Asset.js:84-85 | a pair is in the join exactly when the publication and the asset are in their tables and the ids agree |
| Assets.JoinOnAtMostOnePerPublication | src/Asset/Asset.js:84-85 | when asset id is a key, the join has no more rows than there are publications |
| Assets.FindByOwnerAndStatus | src/Asset/Asset.js:66-76 | every row is an owned asset paired with a by-status publication of that asset with a transaction hash; no two rows share (asset id, status) |
| Assets.FindByOwnerAndStatusComplete | src/Asset/Asset.js:66-76 | every owned asset with a hashed by-status publication has a row with its (asset id, status) |
| Assets.FindByOwnerAndStatusHasStatus | src/Asset/Asset.js:70-72 | when the by-status relation holds only one status, so does every returned publication |
| Assets.Ordered | src/Asset/Asset.js:90 | the selected rows, permuted into sort.by / sort.order order |
| Assets.CountAssetPublications | src/Asset/Asset.js:99-113 | the count is at most the number of publications, and 0 when the status is null |
| Assets.Filter | src/Asset/Asset.js:78-97 | the page is rows offset .. offset + limit - 1 of the ordered selection (row i is ordered row offset + i), so its size is min(limit, matches - offset), or 0 past the end; each row joins an existing asset to a table publication that is confirmed, of the asset type, active and satisfies the status condition; rows are in sort order; total is the count query's result |
| Assets.FilterFirstPageIsComplete | src/Asset/Asset.js:90-91 | with offset 0 and enough limit, the page is a permutation of all matching rows |
| Assets.StatusTotalBoundsPage | src/Asset/Asset.js:78-113 | for a given status whose condition implies equality, and with id a key, the page size is at most total |
| Assets.NullStatusTotalBelowPage | src/Asset/Asset.js:89 | with a null status, one confirmed active publication and its asset give a one-row page whose total is 0 |
| Assets.FilterConsistent | src/Asset/Asset.js:78-97 | the same page as filter; the total is the number of rows the page query's own condition selects (the join with its WHERE clause, before pagination); page size <= total, and the page size is min(limit, total - offset) |
| Records.Omit | src/sanitize/sanitizePublications.js:10 | a key survives exactly when it is not listed, and its value is unchanged |
| Records.MapOmit | src/sanitize/sanitizePublications.js:6 | same length; each record loses exactly the listed keys and keeps the other values |
| SanitizePublications.SanitizePublicationProps | src/sanitize/sanitizePublications.js:3-15 | none of is_latest, created_at, updated_at remain; the result is a subsequence of the input; every other name keeps its multiplicity |
| SanitizePublications.SanitizePublicationPropsIdempotent | src/sanitize/sanitizePublications.js:14 | sanitizing twice equals sanitizing once |
| SanitizePublications.SanitizePublication | src/sanitize/sanitizePublications.js:9-11 | the three names are absent; any other key is present exactly when it was, with its value |
| SanitizePublications.SanitizePublications | src/sanitize/sanitizePublications.js:5-7 | same length; each record loses exactly the blacklisted keys and keeps the rest |
| SanitizeContributions.SanitizeContributionProps | src/sanitize/sanitizeContributions.js:3-16 | none of message, signature, created_at, updated_at remain; subsequence of the input; every other name keeps its multiplicity |
| SanitizeContributions.SanitizeContributionPropsIdempotent | src/sanitize/sanitizeContributions.js:15 | sanitizing twice equals sanitizing once |
| SanitizeContributions.SanitizeContributions | src/sanitize/sanitizeContributions.js:10-12 | same length; each record loses exactly the blacklisted keys and keeps the rest unchanged |
| SanitizeDistricts.SanitizeDistrictProps | src/sanitize/sanitizeDistricts.js:3-17 | none of disabled, address, parcel_ids, created_at, updated_at remain; subsequence of the input; every other name keeps its multiplicity |
| SanitizeDistricts.SanitizeDistrictPropsIdempotent | src/sanitize/sanitizeDistricts.js:16 | sanitizing twice equals sanitizing once |
| SanitizeDistricts.SanitizeDistricts | src/sanitize/sanitizeDistricts.js:11-13 | same length; each record loses exactly the blacklisted keys and keeps the rest unchanged |
| Text.SplitJoin | src/Asset/Parcel/Parcel.model.js:41 | joining the pieces of a split with the separator gives the text back |
| Text.SplitCount | src/Asset/Parcel/Parcel.model.js:41-43 | a split has one more piece than the text has separators |
| Text.IntToDecimalInjective | src/Asset/Parcel/Parcel.model.js:37 | distinct integers render to distinct texts |

## Left out

- The HTTP server, the web application and the schema migration. They are request routing, rendering and DDL.
- SQL text, identifier interpolation and `row_to_json`. Each query is a function over row sequences, and a publication's JSON is the publication row itself.
- Parcels.InRange: the publication JSON at Parcel.model.js:107 is `row_to_json(row(...))`. In PostgreSQL that object has keys `f1` .. `fn`, and a parcel without a latest publication gets an object of nulls, not `null`. Read that way, `!publication` at :115 never holds and `publication.expires_at` is always undefined, so `isExpired(undefined)` would decide every row. The model reads the JSON as the publication row or nothing, which is what the filter at :114-116 is written for; the literal PostgreSQL reading is not modelled.
- The column projection of `inRange` (Parcel.model.js:98-103). No projection is applied. Parcel rows carry id, token_id, owner, x, y and district_id; the other seven columns listed at Parcel.model.js:14-28 are not modelled. The parcel half of the projection depends on `sanitizeParcelProps`, which is not part of this model. The publication half is `sanitizePublicationProps` (modelled as `SanitizePublications.SanitizePublicationProps`). It drops `is_latest`, `created_at` and `updated_at` from the returned publication. The model's decoration still carries `isLatest`, which the query reads but does not return.
- Publications.Publication: only the columns the queries' conditions read are kept (asset_id, asset_type, status, tx_hash, tx_status, expires_at, is_latest). So `Filters.sortBy` of `filter` can order only by a value computed from these. An order by a column the model leaves out, such as the price, cannot be expressed.
- `findWithLastActiveMortgageByBorrower`. All its behaviour lives in the mortgage sub-query, which is not part of this model.
- `isPlaza` and `isRoad`. They only call the district component, which is not part of this model.
- `Parcel.findByIds`, `Parcel.findByOwner` and `Parcel.findByOwnerAndStatus`. They delegate to the generic `Asset` methods, so they are `Assets.FindByIds`, `Assets.FindByOwner` and `Assets.FindByOwnerAndStatus` at parcel rows.
- The `Asset` constructor. It only stores which table to read; passing that table's snapshot plays its part.
- Concurrency. The page and count queries of `filter` run side by side, and writers may race them; the model reads both from one snapshot.
- Database errors. They propagate unchanged in the source; the model has no storage failures, except the duplicate-id refusal of `Parcels.ParcelTable.Insert`, which assumes `id` is the primary key of the parcels table (the schema is not part of this model).
- Parcels.IsEqual: ids are always-present strings. In the source, `===` on two missing ids (`undefined === undefined`) is true, so two in-memory parcels without ids would be equal whatever their coordinates; the model does not express missing ids.
- JavaScript numbers. Coordinates and distances are mathematical integers, with no floating point, no `NaN` and no non-integer coordinates.
- The argument of `splitId`. `Parcels.SplitId` models an undefined argument, which takes the default `''`. A `null` argument, which throws a `TypeError` in `split`, is not distinguished.
- Foreign helpers. A failing `coordinates.toArray` is not modelled; it is an arbitrary total function.
- Tie order. Rows that the queries return in database-chosen order keep table order. Ties under `ORDER BY` keep the order of the selection; SQL leaves both unspecified.
- `LIMIT 1` lookups. `encodeTokenId`, `decodeTokenId`, `findById` and `findByTokenId` return the first matching row in table order.
- The single-latest-pointer invariant. The writer that maintains it is outside this code. `Publications.LatestPointerInvariant` is a precondition of the lemmas that need it.
- Assets.CountAssetPublications: the extra `asset_type` argument passed at Asset.js:93 is ignored by the source and not modelled; its contract states only the bound and the null-status case, while `Assets.FilterConsistent` carries the corrected total.
- `utils.omit` and `utils.mapOmit` live in a library. They are modelled by their assumed meaning (drop the listed keys, keep the others) on records seen as maps.
- Parcels.EncodeTokenId: returns the token id of the first parcel at (x, y) in table order, which may be null; the contract states only that some parcel at (x, y) has that token id.

## Findings

| source | as written | input that shows it | evidently intended | confidence | as-written member | corrected member |
|---|---|---|---|---|---|---|
| src/Asset/Asset.js:106 | the total counts `status = ${status}`, while the page filters with `hasStatus(status)` (Asset.js:89), which passes every status through when the status is null; in SQL `status = NULL` is never true | status null, one confirmed active publication of the requested asset type whose asset exists: the page holds one row and total is 0 | the total counts the rows the page query's own condition selects, so that the page size is at most total and every page size follows from total, limit and offset | not executed | Assets.NullStatusTotalBelowPage | Assets.FilterConsistent |
