# Photo album query model

A Dafny model of the six native SQL queries of the photo album's
`PhotoRepository`. Each query is a read over the PHOTOS table. In the model,
each one is a pure function of the table's contents (`store: seq<Photo>`, in
the table's own row order) and the query's parameters:

| query | model |
|---|---|
| `findAllOrderByUploadedAtDesc` | every row, newest first |
| `findPhotosUploadedBefore(t)` | rows with `UPLOADED_AT < t`, newest first, `LIMIT 10` |
| `findPhotosUploadedAfter(t)` | rows with `UPLOADED_AT > t`, oldest first, no limit, `COALESCE(FILE_PATH, 'default_path')` |
| `findPhotosByUploadMonth(y, m)` | rows whose `TO_CHAR(UPLOADED_AT, 'YYYY')` is `y` and `TO_CHAR(UPLOADED_AT, 'MM')` is `m`, newest first |
| `findPhotosWithPagination(offset, limit)` | `LIMIT limit OFFSET offset` over the newest-first listing |
| `findPhotosWithStatistics()` | every row with `RANK() OVER (ORDER BY FILE_SIZE DESC)` and `SUM(FILE_SIZE) OVER (ORDER BY UPLOADED_AT ROWS UNBOUNDED PRECEDING)`, newest first |

The modules are:

- `Records` holds the row (`Photo`) and the timestamp (`DateTime`).
  - `Instant` places a timestamp on one integer time line.
  - `InstantIsChronological` proves that, for valid timestamps, comparing instants is the same as comparing field by field, and that equal instants mean equal timestamps.
- `Relational` holds the SQL building blocks over any row type:
  - `ORDER BY`, as a stable insertion sort;
  - `WHERE`;
  - `LIMIT`/`OFFSET`;
  - projection and `SUM`;
  - the facts about sorted sequences that the queries need.
- `DateText` holds the text `TO_CHAR` prints for `'YYYY'` and `'MM'` (zero-padded decimal). It proves that reading that text back gives the number again, so two different years (or months) never print the same text.
- `WindowFunctions` holds `RANK` and the `ROWS` running total.
  - `RankIsStandard` ties `RANK` to the SQL standard's definition (one plus the number of non-peer rows ahead in the window order).
- `PhotoRepository` holds the six queries and their properties.
- `Scenarios` takes a three-row table (`t1 < t2 < t3`, sizes 100, 200, 200) through the queries.

Design choices that follow the code:

- **Running total.** The code's frame is `ROWS UNBOUNDED PRECEDING`. The total at a row therefore covers the rows up to that row's position in the ascending window order, not every row with a timestamp no later than it. Two rows with the same timestamp get different totals, unless the later row's size is 0. The model follows the code.
- **Rank.** `RANK()` is one plus the number of rows with a strictly larger size. Equal sizes share a rank, and the ranks after a tie leave a gap (200, 200, 100 rank 1, 1, 3).
- **Ties in ORDER BY.** The database leaves the order of rows with equal timestamps unspecified. The model fixes one order: a stable sort, so tied rows keep the order they arrive in (`OrderByIsStable`). For the listing, after and month queries, which return every matching row, this choice decides only the order among ties: each of them returns a sorted arrangement of a fixed multiset of rows, so `SortedPermutationsAgree` fixes the timestamp at every position (`ListingFixedUpToTies` states it for the listing), and `SortedPermutationUnique` fixes the whole result when no two rows share a timestamp. For the before and page queries the timestamp at each position is still fixed (`SortedPermutationsAgree`), but when several rows share the timestamp at the LIMIT cut, the tie order decides which of them come back: `TiedPageScenario` shows a page of one row over two tied rows returning whichever was stored first. For the statistics query it decides more: the ROWS frame follows the window order, so the tie order also decides which of two tied rows gets which RUNNING_TOTAL. `TiedLatestScenario` shows this for two rows with the same timestamp: the first stored gets only its own size, the second the sum of both.

## Model

| member | source | states |
|---|---|---|
| Records.InstantIsChronological | src/main/java/com/photoalbum/repository/PhotoRepository.java:37 | For valid timestamps, `Instant(a) < Instant(b)` exactly when `a` is earlier field by field, and equal instants only for equal timestamps: the database's UPLOADED_AT comparison is chronological |
| Relational.OrderBy | src/main/java/com/photoalbum/repository/PhotoRepository.java:25 | ORDER BY returns the same rows (same multiset, same length), sorted by the key in the given direction |
| Relational.InsertKeepsTies | src/main/java/com/photoalbum/repository/PhotoRepository.java:25 | Inserting a row into a sorted sequence keeps the rows of each key in their order, the new row ahead of those that share its key |
| Relational.OrderByIsStable | src/main/java/com/photoalbum/repository/PhotoRepository.java:25 | ORDER BY is stable: for every key, the rows with that key come out in the order they had in the input, in both directions |
| Relational.Where | src/main/java/com/photoalbum/repository/PhotoRepository.java:37 | WHERE keeps each row that satisfies the filter exactly as often as it is stored and no other row |
| Relational.SortedPermutationsAgree | src/main/java/com/photoalbum/repository/PhotoRepository.java:25 | Any two sorted arrangements of the same rows have the same key at every position, so the tie-break only decides the order among equal keys |
| Relational.SortedPermutationUnique | src/main/java/com/photoalbum/repository/PhotoRepository.java:25 | When no two rows share a key, there is exactly one sorted arrangement |
| Relational.CutRowsFollow | src/main/java/com/photoalbum/repository/PhotoRepository.java:38-39 | A row that a LIMIT over a sorted sequence cuts off comes no earlier in the order than any row kept |
| Relational.LimitOffset | src/main/java/com/photoalbum/repository/PhotoRepository.java:82 | LIMIT/OFFSET is the slice from `min(offset, n)` to `min(offset + limit, n)`, of length `min(limit, n - offset)`, or 0 when the offset is past the end |
| Relational.AdjacentLimitsConcatenate | src/main/java/com/photoalbum/repository/PhotoRepository.java:82 | The page of `a` rows at `offset` followed by the page of `b` rows at `offset + a` is the page of `a + b` rows at `offset` |
| Relational.ConsecutivePagesArePrefix | src/main/java/com/photoalbum/repository/PhotoRepository.java:82 | Fetching pages 0 .. count-1 of `size` rows of one fixed sequence reads exactly its first `min(count * size, n)` rows, with nothing skipped or repeated |
| Relational.ProjectPermutation | src/main/java/com/photoalbum/repository/PhotoRepository.java:49 | Rearranging rows and then applying a per-row projection such as COALESCE gives the same multiset as projecting first |
| Relational.SumOfPermutation | src/main/java/com/photoalbum/repository/PhotoRepository.java:93 | SUM does not depend on the order of the rows |
| DateText.DecimalRoundTrip | src/main/java/com/photoalbum/repository/PhotoRepository.java:66-67 | Reading the decimal digits of `n` back gives `n` |
| DateText.ZeroPaddedRoundTrip | src/main/java/com/photoalbum/repository/PhotoRepository.java:66-67 | The zero-padded text of `n` is all digits, at least as long as the pad width, and reads back as `n` |
| DateText.ZeroPaddedInjective | src/main/java/com/photoalbum/repository/PhotoRepository.java:66-67 | Two numbers print the same padded text exactly when they are equal |
| DateText.YearTextLength | src/main/java/com/photoalbum/repository/PhotoRepository.java:66 | `'YYYY'` prints exactly four characters for years up to 9999 and more after |
| DateText.YearText | src/main/java/com/photoalbum/repository/PhotoRepository.java:66 | `'YYYY'` prints at least four decimal digits that read back as the year |
| DateText.MonthText | src/main/java/com/photoalbum/repository/PhotoRepository.java:67 | `'MM'` prints at least two decimal digits that read back as the month |
| DateText.MonthTextLength | src/main/java/com/photoalbum/repository/PhotoRepository.java:67 | `'MM'` prints exactly two characters for month numbers up to 99 |
| WindowFunctions.SizeRankBounds | src/main/java/com/photoalbum/repository/PhotoRepository.java:92 | The rank of a row of the table lies between 1 and the number of rows |
| WindowFunctions.SizeRank | src/main/java/com/photoalbum/repository/PhotoRepository.java:92 | RANK is at least 1 and at most one more than the number of rows |
| WindowFunctions.SizeRankOrder | src/main/java/com/photoalbum/repository/PhotoRepository.java:92 | Equal sizes get equal ranks, a size at least another's gets a rank no larger, and a strictly larger size in the table gets a strictly smaller rank |
| WindowFunctions.RankIsStandard | src/main/java/com/photoalbum/repository/PhotoRepository.java:92 | At every position of every size-descending arrangement, RANK as the standard defines it (1 + non-peers ahead) equals 1 + the number of strictly larger rows |
| WindowFunctions.RunningTotalStep | src/main/java/com/photoalbum/repository/PhotoRepository.java:93 | Each ROWS frame adds exactly the current row's size to the previous row's total (the first frame is the first row alone) |
| WindowFunctions.RunningTotal | src/main/java/com/photoalbum/repository/PhotoRepository.java:93 | The running total at a position plus the sizes of the rows after it is SUM(FILE_SIZE) over the whole window order |
| WindowFunctions.RunningTotalMonotone | src/main/java/com/photoalbum/repository/PhotoRepository.java:93 | With no negative sizes, running totals never decrease along the window order |
| PhotoRepository.FindAllOrderByUploadedAtDesc | src/main/java/com/photoalbum/repository/PhotoRepository.java:22-27 | The listing holds every stored row exactly as often as it is stored, newest first |
| PhotoRepository.ListingFixedUpToTies | src/main/java/com/photoalbum/repository/PhotoRepository.java:22-27 | Any other newest-first arrangement of the table shows the same upload timestamp at every position as the listing |
| PhotoRepository.ListingReturnsStoredRows | src/main/java/com/photoalbum/repository/PhotoRepository.java:22-27 | The listing contains a row exactly when the table does, a null FILE_PATH included |
| PhotoRepository.FindPhotosUploadedBefore | src/main/java/com/photoalbum/repository/PhotoRepository.java:34-41 | Returns min(10, number of rows strictly before the cursor) rows, each strictly before the cursor, newest first, drawn from the table |
| PhotoRepository.BeforeIsEarlier | src/main/java/com/photoalbum/repository/PhotoRepository.java:37 | For valid timestamps, `IsBefore` (UPLOADED_AT < cursor) keeps a row exactly when its upload time is chronologically before the cursor |
| PhotoRepository.BeforeKeepsLatest | src/main/java/com/photoalbum/repository/PhotoRepository.java:37-39 | A row before the cursor that the limit leaves out is no later than any row returned: the result is the latest qualifying rows |
| PhotoRepository.BeforeReturnsAllWhenFew | src/main/java/com/photoalbum/repository/PhotoRepository.java:37-39 | With at most ten qualifying rows, exactly those are returned; the result is empty exactly when no row is before the cursor |
| PhotoRepository.BeforeReturnsStoredRows | src/main/java/com/photoalbum/repository/PhotoRepository.java:34-36 | The before query returns stored rows unchanged |
| PhotoRepository.WithDefaultPath | src/main/java/com/photoalbum/repository/PhotoRepository.java:49 | COALESCE leaves a row with a path as it is, gives a row without one the path "default_path", and changes no other column |
| PhotoRepository.FindPhotosUploadedAfter | src/main/java/com/photoalbum/repository/PhotoRepository.java:48-55 | Returns as many rows as are strictly after the cursor, no limit; each is strictly after the cursor and has a path; oldest first |
| PhotoRepository.AfterIsLater | src/main/java/com/photoalbum/repository/PhotoRepository.java:52 | For valid timestamps, `IsAfter` (UPLOADED_AT > cursor) keeps a row exactly when its upload time is chronologically after the cursor |
| PhotoRepository.DefaultingKeepsOrder | src/main/java/com/photoalbum/repository/PhotoRepository.java:49-53 | COALESCE of the path keeps every row after the cursor and keeps the ascending order |
| PhotoRepository.AfterIsEveryLaterRow | src/main/java/com/photoalbum/repository/PhotoRepository.java:48-55 | The result is exactly the rows after the cursor with COALESCE applied, each as often as it is stored |
| PhotoRepository.AfterReturnsEveryLaterRow | src/main/java/com/photoalbum/repository/PhotoRepository.java:49-52 | Every stored row after the cursor comes back, with its path defaulted |
| PhotoRepository.OnlyAfterDefaultsPath | src/main/java/com/photoalbum/repository/PhotoRepository.java:22-55 | A stored row with a null path after the cursor is in the listing unchanged, and in the after query only with the path "default_path" |
| PhotoRepository.FindPhotosByUploadMonth | src/main/java/com/photoalbum/repository/PhotoRepository.java:63-70 | Holds each stored row whose TO_CHAR year text and month text equal the given strings, as often as it is stored, and no other row; newest first |
| PhotoRepository.MonthFilterIsCalendarMonth | src/main/java/com/photoalbum/repository/PhotoRepository.java:66-67 | Given the texts TO_CHAR prints for a year and a month, the filter returns exactly the rows uploaded in that month of that year |
| PhotoRepository.InMonthTextIsCalendarMonth | src/main/java/com/photoalbum/repository/PhotoRepository.java:66-67 | Given the texts TO_CHAR prints for a year and a month, `InMonthText` keeps a row exactly when it was uploaded in that month of that year |
| PhotoRepository.ShortTextMatchesNothing | src/main/java/com/photoalbum/repository/PhotoRepository.java:66-67 | A year text shorter than four characters or an unpadded month such as "3" matches no row: an empty result, not an error |
| PhotoRepository.NoSuchMonthMatchesNothing | src/main/java/com/photoalbum/repository/PhotoRepository.java:67 | Over valid timestamps, a month string that is not the text of a month 1..12 (such as "00" or "13") matches no row |
| PhotoRepository.MonthReturnsStoredRows | src/main/java/com/photoalbum/repository/PhotoRepository.java:63-65 | The month query returns stored rows unchanged |
| PhotoRepository.FindPhotosWithPagination | src/main/java/com/photoalbum/repository/PhotoRepository.java:78-84 | The page is the newest-first listing from `offset` for at most `limit` rows, and empty when the offset is past the end |
| PhotoRepository.PageBounds | src/main/java/com/photoalbum/repository/PhotoRepository.java:82 | A page never exceeds its limit; LIMIT 0 and an offset at or past the row count give an empty page |
| PhotoRepository.AdjacentPagesConcatenate | src/main/java/com/photoalbum/repository/PhotoRepository.java:82 | Two adjacent pages together are the page that covers both |
| PhotoRepository.FirstPagesArePrefix | src/main/java/com/photoalbum/repository/PhotoRepository.java:81-82 | Consecutive pages 0 .. count-1 of `size` rows over an unchanged table, with ties broken the same way by every page query, read exactly the first `min(count * size, n)` rows of the newest-first listing |
| PhotoRepository.PageReturnsStoredRows | src/main/java/com/photoalbum/repository/PhotoRepository.java:78-80 | A page returns stored rows unchanged |
| PhotoRepository.FindPhotosWithStatistics | src/main/java/com/photoalbum/repository/PhotoRepository.java:90-97 | One output row per table row, carrying the window columns computed in the window order, listed newest first |
| PhotoRepository.WindowOrderIsAscending | src/main/java/com/photoalbum/repository/PhotoRepository.java:93 | The running total's window order lists every table row once, oldest first |
| PhotoRepository.RunningTotalsAccumulate | src/main/java/com/photoalbum/repository/PhotoRepository.java:93 | Each running total is the previous row's total plus the row's own size (the first row's total is its own size) |
| PhotoRepository.LastWindowRowHoldsTotal | src/main/java/com/photoalbum/repository/PhotoRepository.java:93 | The last row of the window order carries SUM(FILE_SIZE) over the table |
| PhotoRepository.RunningTotalsNeverDecrease | src/main/java/com/photoalbum/repository/PhotoRepository.java:93 | With no negative sizes, totals never decrease along the window order |
| PhotoRepository.StatisticsCoverTable | src/main/java/com/photoalbum/repository/PhotoRepository.java:90-97 | The output rows' photos are the table's rows, each once per copy stored |
| PhotoRepository.WindowRowFromTable | src/main/java/com/photoalbum/repository/PhotoRepository.java:92 | Each window row is a table row carrying its RANK over the whole table |
| PhotoRepository.StatisticsRank | src/main/java/com/photoalbum/repository/PhotoRepository.java:92 | Each output row's SIZE_RANK is 1 + the number of table rows with a larger size, between 1 and the row count |
| PhotoRepository.StatisticsRanksOrdered | src/main/java/com/photoalbum/repository/PhotoRepository.java:92 | Output rows of equal size share a rank; a strictly larger size has a strictly smaller rank |
| PhotoRepository.HeadNotEarlier | src/main/java/com/photoalbum/repository/PhotoRepository.java:95 | No table row is later than the first output row |
| PhotoRepository.HeadIsLatest | src/main/java/com/photoalbum/repository/PhotoRepository.java:95 | When one row is strictly the latest, it is the first output row |
| PhotoRepository.LatestOnlyAtEnd | src/main/java/com/photoalbum/repository/PhotoRepository.java:93 | A row stored once and strictly later than every other row is last in the window order |
| PhotoRepository.HeadIsLastWindowRow | src/main/java/com/photoalbum/repository/PhotoRepository.java:93-95 | When one row is strictly the latest, the first output row is the last row of the window order |
| PhotoRepository.LatestRowCarriesGrandTotal | src/main/java/com/photoalbum/repository/PhotoRepository.java:93-95 | The latest row heads the output and its running total is the sum of all file sizes |
| Scenarios.ListingScenario | src/main/java/com/photoalbum/repository/PhotoRepository.java:22-27 | Rows uploaded at t1 < t2 < t3 are listed t3, t2, t1 |
| Scenarios.BeforeScenario | src/main/java/com/photoalbum/repository/PhotoRepository.java:34-41 | Before t2 there is only the t1 row |
| Scenarios.AfterScenario | src/main/java/com/photoalbum/repository/PhotoRepository.java:48-55 | After t1 come the t2 and t3 rows in that order, each with its path defaulted |
| Scenarios.TiedPageScenario | src/main/java/com/photoalbum/repository/PhotoRepository.java:78-84 | With two rows sharing a timestamp, the page at offset 0 of one row is whichever of them is stored first: the tie order decides which tied rows a LIMIT keeps |
| Scenarios.TiedPagesCanRepeat | src/main/java/com/photoalbum/repository/PhotoRepository.java:78-84 | When two page requests see two tied rows in different orders, pages 0 and 1 of one row return the same row twice and skip the other |
| Scenarios.PageScenario | src/main/java/com/photoalbum/repository/PhotoRepository.java:78-84 | The page at offset 1 of size 1 is the t2 row |
| Scenarios.RankScenario | src/main/java/com/photoalbum/repository/PhotoRepository.java:92 | With sizes 100, 200, 200, size 200 ranks 1 and size 100 ranks 3 (no rank 2) |
| Scenarios.RunningTotalScenario | src/main/java/com/photoalbum/repository/PhotoRepository.java:93 | Along t1, t2, t3 the running totals are 100, 300, 500 |
| Scenarios.WindowRowsScenario | src/main/java/com/photoalbum/repository/PhotoRepository.java:92-93 | The window rows are (t1, 3, 100), (t2, 1, 300), (t3, 1, 500) |
| Scenarios.StatisticsScenario | src/main/java/com/photoalbum/repository/PhotoRepository.java:90-97 | The statistics output is (t3, 1, 500), (t2, 1, 300), (t1, 3, 100) |
| Scenarios.TiedLatestScenario | src/main/java/com/photoalbum/repository/PhotoRepository.java:93-95 | Two rows with the same timestamp, stored a then b, come out in that order; a carries its own size as running total, b the sum of both |

## Left out

- The JPA and Spring plumbing are not part of this model: the repository interface, `@Query`/`@Param`, and the mapping of result rows to `Photo` objects and to `Object[]`. The statistics row is modelled as a `StatisticsRow` holding the photo and the two window columns.
- `Photo.java` is not part of this model. Its columns are taken from the query's SELECT list.
- Database access is not modelled: connection failures, timeouts and transactions. Each query is a total function of the table's contents.
- Concurrent writes between two page requests are not modelled. `FirstPagesArePrefix` is stated over an unchanged table.
- PhotoRepository.FirstPagesArePrefix: assumes every page query breaks ties between equal timestamps the same way, as the model's single fixed tie order does. In PostgreSQL, different LIMIT/OFFSET values may produce different plans, and `ORDER BY UPLOADED_AT DESC` does not fix the order among tied rows. So a page boundary inside a run of tied timestamps can repeat one row and skip another with no writes at all (`TiedPagesCanRepeat`).
- Null query parameters are not modelled. The cursor of the before and after queries is a `DateTime` and the year and month of the month query are strings, none of them nullable. In the database, `UPLOADED_AT < NULL`, `UPLOADED_AT > NULL` and `TO_CHAR(...) = NULL` are never true, so such a call returns no rows (or fails if the driver binds an untyped null).
- UPLOADED_AT and FILE_SIZE are taken as NOT NULL columns: `uploadedAt` is a `DateTime` and `fileSize` an `int`. A NULL there would change ORDER BY (NULLS FIRST under DESC), RANK and SUM, and is not modelled.
- The database engine's tie order is not modelled. Rows with equal timestamps come out in one fixed order, the order they reach ORDER BY in. The database promises no particular order among ties.
- PHOTO_DATA is an opaque optional byte string that every query carries through unchanged. WIDTH and HEIGHT are optional integers. No constraint on their values is modelled.
- Time zones, locale and the database's timestamp precision are not modelled. A timestamp is its seven LocalDateTime fields, and days are allowed up to 31 in every month. Years before the common era are not part of this model.
- PhotoRepository.FindPhotosWithPagination: offset and limit are natural numbers. The negative values a Java `int` allows (which the database rejects) and the 32-bit range are not modelled.
- PhotoRepository.LatestRowCarriesGrandTotal: stated only when one row is strictly the latest and stored once. When several rows share the latest timestamp, the ROWS frame gives the grand total to the one the tie order puts last in the ascending window order, and to the tied rows before it only when the later tied rows have size 0. The stable descending ORDER BY then lists that row after the other tied rows, so, unless the later tied rows have size 0, the first output row does not carry the grand total (`TiedLatestScenario`).
- PhotoRepository.HeadIsLatest: likewise requires one row strictly later than the others. In general, `HeadNotEarlier` states that no row is later than the first output row.
- PhotoRepository.ShortTextMatchesNothing: states only the empty result for texts too short to be printed by TO_CHAR. Rejecting malformed year or month strings is the caller's job and is outside this repository.
