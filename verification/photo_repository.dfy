/**
 The six native queries of the photo repository, each a function of the
 table's contents (`store`, in the table's own row order) and the query's
 parameters.

 Timestamps are compared as the database compares them, by their instant
 (`Records.Instant`); for valid timestamps that is chronological order
 (`Records.InstantIsChronological`). ORDER BY is the stable sort of
 `Relational.OrderBy`: rows with equal timestamps keep the order they reach
 it in.
 */
module PhotoRepository {
  import opened Records
  import opened Relational
  import opened DateText
  import opened WindowFunctions

  /** LIMIT of the before-cursor query. */
  const BeforeLimit: nat := 10

  /** What COALESCE puts in place of a null FILE_PATH in the after-cursor query. */
  const DefaultPath: string := "default_path"

  // ---------------------------------------------------------------------
  // findAllOrderByUploadedAtDesc: every row, newest first.

  function FindAllOrderByUploadedAtDesc(store: seq<Photo>): (r: seq<Photo>)
    ensures multiset(r) == multiset(store)
    ensures SortedBy(r, UploadedInstant, Descending)
  {
    OrderBy(store, UploadedInstant, Descending)
  }

  /** Any newest-first arrangement of the table shows the same timestamp at
      every position: the tie-break chosen for ORDER BY changes only which of
      several rows with one timestamp comes first. */
  lemma ListingFixedUpToTies(store: seq<Photo>, other: seq<Photo>)
    requires ValidStore(store)
    requires multiset(other) == multiset(store)
    requires SortedBy(other, UploadedInstant, Descending)
    ensures |other| == |store|
    ensures forall i :: 0 <= i < |other| ==> other[i].uploadedAt == FindAllOrderByUploadedAtDesc(store)[i].uploadedAt
  {
    var listed := FindAllOrderByUploadedAtDesc(store);
    SortedPermutationsAgree(other, listed, UploadedInstant, Descending);
    forall i | 0 <= i < |other| ensures other[i].uploadedAt == listed[i].uploadedAt {
      assert other[i] in multiset(store) && listed[i] in multiset(store);
      var j :| 0 <= j < |store| && store[j] == other[i];
      var k :| 0 <= k < |store| && store[k] == listed[i];
      InstantIsChronological(other[i].uploadedAt, listed[i].uploadedAt);
    }
  }

  // ---------------------------------------------------------------------
  // findPhotosUploadedBefore: the ten latest rows strictly before a cursor.

  /** WHERE UPLOADED_AT < :uploadedAt */
  function IsBefore(cursor: DateTime): Photo -> bool {
    (p: Photo) => UploadedInstant(p) < Instant(cursor)
  }

  /** For valid timestamps the filter keeps exactly the rows uploaded
      chronologically before the cursor. */
  lemma BeforeIsEarlier(cursor: DateTime, p: Photo)
    requires ValidDateTime(cursor) && ValidDateTime(p.uploadedAt)
    ensures IsBefore(cursor)(p) <==> Earlier(p.uploadedAt, cursor)
  {
    InstantIsChronological(p.uploadedAt, cursor);
  }

  function UploadedBefore(store: seq<Photo>, cursor: DateTime): seq<Photo> {
    Where(store, IsBefore(cursor))
  }

  function FindPhotosUploadedBefore(store: seq<Photo>, cursor: DateTime): (r: seq<Photo>)
    ensures |r| == Min(BeforeLimit, |UploadedBefore(store, cursor)|)
    ensures forall i :: 0 <= i < |r| ==> UploadedInstant(r[i]) < Instant(cursor)
    ensures SortedBy(r, UploadedInstant, Descending)
    ensures multiset(r) <= multiset(store)
  {
    var ordered := OrderBy(UploadedBefore(store, cursor), UploadedInstant, Descending);
    KeptRows(store, IsBefore(cursor), ordered);
    if |ordered| <= BeforeLimit then
      ordered
    else
      PrefixSubMultiset(ordered, BeforeLimit);
      SortedPrefix(ordered, BeforeLimit, UploadedInstant, Descending);
      ordered[..BeforeLimit]
  }

  /** The rows before the cursor that the limit leaves out are no later
      than any row returned: the result is the latest qualifying rows. */
  lemma BeforeKeepsLatest(store: seq<Photo>, cursor: DateTime, p: Photo)
    requires p in store && UploadedInstant(p) < Instant(cursor)
    requires multiset(FindPhotosUploadedBefore(store, cursor))[p] < multiset(store)[p]
    ensures forall i :: 0 <= i < |FindPhotosUploadedBefore(store, cursor)| ==>
      UploadedInstant(p) <= UploadedInstant(FindPhotosUploadedBefore(store, cursor)[i])
  {
    var r := FindPhotosUploadedBefore(store, cursor);
    var ordered := OrderBy(UploadedBefore(store, cursor), UploadedInstant, Descending);
    assert r == ordered[..|r|];
    assert multiset(ordered)[p] == multiset(store)[p];
    CutRowsFollow(ordered, |r|, UploadedInstant, Descending, p);
  }

  /** With at most ten rows before the cursor, all of them are returned;
      with none, the result is empty. */
  lemma BeforeReturnsAllWhenFew(store: seq<Photo>, cursor: DateTime)
    ensures |UploadedBefore(store, cursor)| <= BeforeLimit ==>
      forall x :: multiset(FindPhotosUploadedBefore(store, cursor))[x] ==
        if UploadedInstant(x) < Instant(cursor) then multiset(store)[x] else 0
    ensures FindPhotosUploadedBefore(store, cursor) == [] <==>
      forall p :: p in store ==> Instant(cursor) <= UploadedInstant(p)
  {
    var q := UploadedBefore(store, cursor);
    var r := FindPhotosUploadedBefore(store, cursor);
    if |q| <= BeforeLimit {
      assert r == OrderBy(q, UploadedInstant, Descending);
    }
    if r == [] {
      forall p | p in store ensures Instant(cursor) <= UploadedInstant(p) {
        assert multiset(q) == multiset{};
        assert p in multiset(store);
        assert multiset(q)[p] == 0;
      }
    } else {
      assert q != [] && q[0] in multiset(q);
      assert IsBefore(cursor)(q[0]);
    }
  }

  // ---------------------------------------------------------------------
  // findPhotosUploadedAfter: every row strictly after a cursor, oldest
  // first, with COALESCE(FILE_PATH, 'default_path').

  /** COALESCE(FILE_PATH, 'default_path') applied to one row. */
  function WithDefaultPath(p: Photo): (r: Photo)
    ensures r.filePath.Some?
    ensures p.filePath.Some? ==> r == p
    ensures p.filePath.None? ==> r.filePath == Some(DefaultPath)
    ensures r.(filePath := p.filePath) == p
  {
    if p.filePath.None? then p.(filePath := Some(DefaultPath)) else p
  }

  /** WHERE UPLOADED_AT > :uploadedAt */
  function IsAfter(cursor: DateTime): Photo -> bool {
    (p: Photo) => Instant(cursor) < UploadedInstant(p)
  }

  /** For valid timestamps the filter keeps exactly the rows uploaded
      chronologically after the cursor. */
  lemma AfterIsLater(cursor: DateTime, p: Photo)
    requires ValidDateTime(cursor) && ValidDateTime(p.uploadedAt)
    ensures IsAfter(cursor)(p) <==> Earlier(cursor, p.uploadedAt)
  {
    InstantIsChronological(cursor, p.uploadedAt);
  }

  function UploadedAfter(store: seq<Photo>, cursor: DateTime): seq<Photo> {
    Where(store, IsAfter(cursor))
  }

  function FindPhotosUploadedAfter(store: seq<Photo>, cursor: DateTime): (r: seq<Photo>)
    ensures |r| == |UploadedAfter(store, cursor)|
    ensures forall i :: 0 <= i < |r| ==> Instant(cursor) < UploadedInstant(r[i]) && r[i].filePath.Some?
    ensures SortedBy(r, UploadedInstant, Ascending)
  {
    var ordered := OrderBy(UploadedAfter(store, cursor), UploadedInstant, Ascending);
    KeptRows(store, IsAfter(cursor), ordered);
    DefaultingKeepsOrder(ordered, cursor);
    Project(WithDefaultPath, ordered)
  }

  /** Defaulting the path of rows after the cursor, listed oldest first,
      leaves them after the cursor and oldest first, and none with a null path. */
  lemma DefaultingKeepsOrder(ordered: seq<Photo>, cursor: DateTime)
    requires forall i :: 0 <= i < |ordered| ==> IsAfter(cursor)(ordered[i])
    requires SortedBy(ordered, UploadedInstant, Ascending)
    ensures forall i :: 0 <= i < |Project(WithDefaultPath, ordered)| ==>
      var x := Project(WithDefaultPath, ordered)[i];
      Instant(cursor) < UploadedInstant(x) && x.filePath.Some?
    ensures SortedBy(Project(WithDefaultPath, ordered), UploadedInstant, Ascending)
  {
    var r := Project(WithDefaultPath, ordered);
    forall i | 0 <= i < |r| ensures r[i].uploadedAt == ordered[i].uploadedAt && r[i].filePath.Some? {
      assert r[i] == WithDefaultPath(ordered[i]);
    }
    forall i, j | 0 <= i < j < |r| ensures InOrder(Ascending, UploadedInstant(r[i]), UploadedInstant(r[j])) {
      assert InOrder(Ascending, UploadedInstant(ordered[i]), UploadedInstant(ordered[j]));
    }
  }

  /** No limit applies: the result holds every row after the cursor (with
      its path defaulted), as often as it is stored, and nothing else. */
  lemma AfterIsEveryLaterRow(store: seq<Photo>, cursor: DateTime)
    ensures multiset(FindPhotosUploadedAfter(store, cursor)) == multiset(Project(WithDefaultPath, UploadedAfter(store, cursor)))
  {
    var q := UploadedAfter(store, cursor);
    ProjectPermutation(WithDefaultPath, OrderBy(q, UploadedInstant, Ascending), q);
  }

  /** Each stored row after the cursor comes back, with its path defaulted. */
  lemma AfterReturnsEveryLaterRow(store: seq<Photo>, cursor: DateTime, p: Photo)
    requires p in store && Instant(cursor) < UploadedInstant(p)
    ensures WithDefaultPath(p) in FindPhotosUploadedAfter(store, cursor)
  {
    var q := UploadedAfter(store, cursor);
    AfterIsEveryLaterRow(store, cursor);
    assert p in multiset(store);
    assert p in multiset(q);
    var k :| 0 <= k < |q| && q[k] == p;
    assert Project(WithDefaultPath, q)[k] == WithDefaultPath(p);
    assert WithDefaultPath(p) in multiset(FindPhotosUploadedAfter(store, cursor));
  }

  // ---------------------------------------------------------------------
  // findPhotosByUploadMonth: the rows whose TO_CHAR year and month texts
  // equal the given strings, newest first.

  /** WHERE TO_CHAR(UPLOADED_AT, 'YYYY') = :year AND TO_CHAR(UPLOADED_AT, 'MM') = :month */
  function InMonthText(year: string, month: string): Photo -> bool {
    (p: Photo) => YearText(p.uploadedAt.year) == year && MonthText(p.uploadedAt.month) == month
  }

  /** Given the texts TO_CHAR prints for a year and a month, the filter keeps
      a row exactly when it was uploaded in that month of that year. */
  lemma InMonthTextIsCalendarMonth(year: nat, month: nat, p: Photo)
    ensures InMonthText(YearText(year), MonthText(month))(p) <==>
      p.uploadedAt.year == year && p.uploadedAt.month == month
  {
    ZeroPaddedInjective(p.uploadedAt.year, year, 4);
    ZeroPaddedInjective(p.uploadedAt.month, month, 2);
  }

  function FindPhotosByUploadMonth(store: seq<Photo>, year: string, month: string): (r: seq<Photo>)
    ensures forall x :: (multiset(r)[x] ==
      if YearText(x.uploadedAt.year) == year && MonthText(x.uploadedAt.month) == month then multiset(store)[x] else 0)
    ensures SortedBy(r, UploadedInstant, Descending)
  {
    var matching := Where(store, InMonthText(year, month));
    var r := OrderBy(matching, UploadedInstant, Descending);
    assert forall x :: multiset(r)[x] == multiset(matching)[x];
    r
  }

  /** Given the texts TO_CHAR prints for a year and a month, the filter
      returns exactly the rows uploaded in that calendar month of that year. */
  lemma MonthFilterIsCalendarMonth(store: seq<Photo>, year: nat, month: nat)
    ensures forall x :: (multiset(FindPhotosByUploadMonth(store, YearText(year), MonthText(month)))[x] ==
      if x.uploadedAt.year == year && x.uploadedAt.month == month then multiset(store)[x] else 0)
  {
    forall x: Photo ensures (YearText(x.uploadedAt.year) == YearText(year)) == (x.uploadedAt.year == year)
      && (MonthText(x.uploadedAt.month) == MonthText(month)) == (x.uploadedAt.month == month)
    {
      ZeroPaddedInjective(x.uploadedAt.year, year, 4);
      ZeroPaddedInjective(x.uploadedAt.month, month, 2);
    }
  }

  /** A month not padded to two characters (such as "3") or a year shorter
      than four characters matches nothing: the result is empty, not an error. */
  lemma ShortTextMatchesNothing(store: seq<Photo>, year: string, month: string)
    requires |year| < 4 || |month| < 2
    ensures FindPhotosByUploadMonth(store, year, month) == []
  {
    var r := FindPhotosByUploadMonth(store, year, month);
    forall x: Photo ensures multiset(r)[x] == 0 {
      ZeroPaddedRoundTrip(x.uploadedAt.year, 4);
      ZeroPaddedRoundTrip(x.uploadedAt.month, 2);
    }
    assert multiset(r) == multiset{};
  }

  /** Over valid timestamps, a month string that is not the text of a month
      from 1 to 12 (such as "13" or "00") matches nothing. */
  lemma NoSuchMonthMatchesNothing(store: seq<Photo>, year: string, month: string)
    requires ValidStore(store)
    requires forall m :: 1 <= m <= 12 ==> MonthText(m) != month
    ensures FindPhotosByUploadMonth(store, year, month) == []
  {
    var r := FindPhotosByUploadMonth(store, year, month);
    forall x: Photo ensures multiset(r)[x] == 0 {
      if x in store {
        var j :| 0 <= j < |store| && store[j] == x;
        assert ValidDateTime(store[j].uploadedAt);
      } else {
        assert multiset(store)[x] == 0;
      }
    }
    assert multiset(r) == multiset{};
  }

  // ---------------------------------------------------------------------
  // findPhotosWithPagination: LIMIT :limit OFFSET :offset over the
  // newest-first listing.

  function FindPhotosWithPagination(store: seq<Photo>, offset: nat, limit: nat): (r: seq<Photo>)
    ensures |r| == if offset >= |store| then 0 else Min(limit, |store| - offset)
    ensures r == FindAllOrderByUploadedAtDesc(store)[Min(offset, |store|)..Min(offset + limit, |store|)]
  {
    LimitOffset(FindAllOrderByUploadedAtDesc(store), offset, limit)
  }

  /** A page never exceeds its limit; LIMIT 0 and an offset past the last
      row both give an empty page. */
  lemma PageBounds(store: seq<Photo>, offset: nat, limit: nat)
    ensures |FindPhotosWithPagination(store, offset, limit)| <= limit
    ensures limit == 0 ==> FindPhotosWithPagination(store, offset, limit) == []
    ensures offset >= |store| ==> FindPhotosWithPagination(store, offset, limit) == []
  {
  }

  /** A page followed by the page that starts where it ends is the page
      covering both. */
  lemma AdjacentPagesConcatenate(store: seq<Photo>, offset: nat, a: nat, b: nat)
    ensures FindPhotosWithPagination(store, offset, a) + FindPhotosWithPagination(store, offset + a, b)
         == FindPhotosWithPagination(store, offset, a + b)
  {
    AdjacentLimitsConcatenate(FindAllOrderByUploadedAtDesc(store), offset, a, b);
  }

  /** Fetching consecutive pages over an unchanged table reads a prefix of
      the newest-first listing, with no row skipped or repeated, provided
      every page query breaks ties between equal timestamps the same way. */
  lemma FirstPagesArePrefix(store: seq<Photo>, count: nat, size: nat)
    ensures ConsecutivePages(FindAllOrderByUploadedAtDesc(store), count, size)
         == FindAllOrderByUploadedAtDesc(store)[..Min(count * size, |store|)]
  {
    ConsecutivePagesArePrefix(FindAllOrderByUploadedAtDesc(store), count, size);
  }

  // ---------------------------------------------------------------------
  // findPhotosWithStatistics: every row with SIZE_RANK and RUNNING_TOTAL,
  // newest first.

  datatype StatisticsRow = StatisticsRow(photo: Photo, sizeRank: int, runningTotal: int)

  function RowPhoto(row: StatisticsRow): Photo {
    row.photo
  }

  function RowInstant(row: StatisticsRow): int {
    UploadedInstant(row.photo)
  }

  /** The rows in the running total's window order (ascending upload time),
      with both window columns computed over the whole table. */
  function WindowRows(store: seq<Photo>): seq<StatisticsRow> {
    var ascending := OrderBy(store, UploadedInstant, Ascending);
    seq(|ascending|, i requires 0 <= i < |ascending| =>
      StatisticsRow(ascending[i], SizeRank(store, ascending[i].fileSize), RunningTotal(ascending, i)))
  }

  function FindPhotosWithStatistics(store: seq<Photo>): (r: seq<StatisticsRow>)
    ensures multiset(r) == multiset(WindowRows(store))
    ensures |r| == |store|
    ensures SortedBy(r, RowInstant, Descending)
  {
    OrderBy(WindowRows(store), RowInstant, Descending)
  }

  /** The window order lists every row of the table once, oldest first. */
  lemma WindowOrderIsAscending(store: seq<Photo>)
    ensures |WindowRows(store)| == |store|
    ensures multiset(Project(RowPhoto, WindowRows(store))) == multiset(store)
    ensures SortedBy(Project(RowPhoto, WindowRows(store)), UploadedInstant, Ascending)
  {
    var ascending := OrderBy(store, UploadedInstant, Ascending);
    var photos := Project(RowPhoto, WindowRows(store));
    assert |photos| == |ascending|;
    forall i | 0 <= i < |photos| ensures photos[i] == ascending[i] {
      WindowRowPhoto(store, i);
    }
    assert photos == ascending;
  }

  /** Each running total adds the row's own size to the previous row's total. */
  lemma RunningTotalsAccumulate(store: seq<Photo>, i: nat)
    requires i < |WindowRows(store)|
    ensures WindowRows(store)[i].runningTotal ==
      (if i == 0 then 0 else WindowRows(store)[i - 1].runningTotal) + WindowRows(store)[i].photo.fileSize
  {
    var ascending := OrderBy(store, UploadedInstant, Ascending);
    var rows := WindowRows(store);
    assert rows[i].runningTotal == RunningTotal(ascending, i);
    assert rows[i].photo == ascending[i];
    if i > 0 {
      assert rows[i - 1].runningTotal == RunningTotal(ascending, i - 1);
    }
    RunningTotalStep(ascending, i);
  }

  /** The last row of the window order carries SUM(FILE_SIZE) over the table. */
  lemma LastWindowRowHoldsTotal(store: seq<Photo>)
    requires store != []
    ensures WindowRows(store)[|store| - 1].runningTotal == SumOf(store, FileSize)
  {
    var ascending := OrderBy(store, UploadedInstant, Ascending);
    LastRunningTotal(ascending);
    SumOfPermutation(ascending, store, FileSize);
  }

  /** With no negative sizes, the totals never decrease along the window order. */
  lemma RunningTotalsNeverDecrease(store: seq<Photo>, i: nat, j: nat)
    requires forall p :: p in store ==> p.fileSize >= 0
    requires i <= j < |WindowRows(store)|
    ensures WindowRows(store)[i].runningTotal <= WindowRows(store)[j].runningTotal
  {
    var ascending := OrderBy(store, UploadedInstant, Ascending);
    forall k | 0 <= k < |ascending| ensures ascending[k].fileSize >= 0 {
      assert ascending[k] in multiset(store);
    }
    RunningTotalMonotone(ascending, i, j);
  }

  /** Every row of the table appears once in the statistics output. */
  lemma StatisticsCoverTable(store: seq<Photo>)
    ensures multiset(Project(RowPhoto, FindPhotosWithStatistics(store))) == multiset(store)
  {
    WindowOrderIsAscending(store);
    ProjectPermutation(RowPhoto, FindPhotosWithStatistics(store), WindowRows(store));
  }

  /** Each window row is a row of the table carrying its SIZE_RANK. */
  lemma WindowRowFromTable(store: seq<Photo>, k: nat)
    requires k < |WindowRows(store)|
    ensures WindowRows(store)[k].photo in store
    ensures WindowRows(store)[k].sizeRank == SizeRank(store, WindowRows(store)[k].photo.fileSize)
  {
    var ascending := OrderBy(store, UploadedInstant, Ascending);
    assert WindowRows(store)[k].photo == ascending[k];
    assert ascending[k] in multiset(store);
  }

  /** Each output row is a row of the table, and its SIZE_RANK is one more
      than the number of rows of the table with a larger size, between 1
      and the number of rows. */
  lemma StatisticsRank(store: seq<Photo>, i: nat)
    requires i < |FindPhotosWithStatistics(store)|
    ensures FindPhotosWithStatistics(store)[i].photo in store
    ensures FindPhotosWithStatistics(store)[i].sizeRank == SizeRank(store, FindPhotosWithStatistics(store)[i].photo.fileSize)
    ensures 1 <= FindPhotosWithStatistics(store)[i].sizeRank <= |store|
  {
    var r := FindPhotosWithStatistics(store);
    var rows := WindowRows(store);
    assert r[i] in multiset(rows);
    var k :| 0 <= k < |rows| && rows[k] == r[i];
    WindowRowFromTable(store, k);
    SizeRankBounds(store, r[i].photo);
  }

  /** Output rows of equal size share a rank, and a strictly larger size
      has a strictly smaller rank (ties leave a gap after them). */
  lemma StatisticsRanksOrdered(store: seq<Photo>, i: nat, j: nat)
    requires i < |FindPhotosWithStatistics(store)| && j < |FindPhotosWithStatistics(store)|
    ensures FindPhotosWithStatistics(store)[i].photo.fileSize == FindPhotosWithStatistics(store)[j].photo.fileSize ==>
      FindPhotosWithStatistics(store)[i].sizeRank == FindPhotosWithStatistics(store)[j].sizeRank
    ensures FindPhotosWithStatistics(store)[i].photo.fileSize > FindPhotosWithStatistics(store)[j].photo.fileSize ==>
      FindPhotosWithStatistics(store)[i].sizeRank < FindPhotosWithStatistics(store)[j].sizeRank
  {
    var r := FindPhotosWithStatistics(store);
    StatisticsRank(store, i);
    StatisticsRank(store, j);
    SizeRankOrder(store, r[i].photo, r[j].photo);
  }

  /** No row of the table is later than the first output row. */
  lemma HeadNotEarlier(store: seq<Photo>, p: Photo)
    requires p in store
    ensures |FindPhotosWithStatistics(store)| > 0
    ensures UploadedInstant(p) <= RowInstant(FindPhotosWithStatistics(store)[0])
  {
    var r := FindPhotosWithStatistics(store);
    var rows := WindowRows(store);
    var ascending := OrderBy(store, UploadedInstant, Ascending);
    assert p in multiset(ascending);
    var k :| 0 <= k < |ascending| && ascending[k] == p;
    assert rows[k].photo == p;
    assert rows[k] in multiset(r);
    SortedBounds(r, RowInstant, Descending, rows[k]);
  }

  /** The first output row is the latest row. */
  lemma HeadIsLatest(store: seq<Photo>, latest: Photo)
    requires latest in store
    requires forall p :: p in store && p != latest ==> UploadedInstant(p) < UploadedInstant(latest)
    ensures |FindPhotosWithStatistics(store)| > 0
    ensures FindPhotosWithStatistics(store)[0].photo == latest
  {
    HeadNotEarlier(store, latest);
    StatisticsRank(store, 0);
  }

  /** Each window row carries the row at the same position of the window order. */
  lemma WindowRowPhoto(store: seq<Photo>, k: nat)
    requires k < |WindowRows(store)|
    ensures WindowRows(store)[k].photo == OrderBy(store, UploadedInstant, Ascending)[k]
  {
  }

  /** When one stored row is strictly the latest, the first output row is
      the last row of the window order. */
  lemma HeadIsLastWindowRow(store: seq<Photo>, latest: Photo)
    requires multiset(store)[latest] == 1
    requires forall p :: p in store && p != latest ==> UploadedInstant(p) < UploadedInstant(latest)
    ensures |FindPhotosWithStatistics(store)| == |store| > 0
    ensures FindPhotosWithStatistics(store)[0] == WindowRows(store)[|store| - 1]
  {
    var r := FindPhotosWithStatistics(store);
    var rows := WindowRows(store);
    assert latest in multiset(store);
    HeadIsLatest(store, latest);
    assert r[0] in multiset(rows);
    var k :| 0 <= k < |rows| && rows[k] == r[0];
    WindowRowPhoto(store, k);
    LatestOnlyAtEnd(store, latest, k);
  }

  /** A row stored once and later than every other row occupies no
      position of the window order but the last. */
  lemma LatestOnlyAtEnd(store: seq<Photo>, latest: Photo, k: nat)
    requires multiset(store)[latest] == 1
    requires forall p :: p in store && p != latest ==> UploadedInstant(p) < UploadedInstant(latest)
    requires k < |store| && OrderBy(store, UploadedInstant, Ascending)[k] == latest
    ensures k == |store| - 1
  {
    var ascending := OrderBy(store, UploadedInstant, Ascending);
    forall y | y in ascending && y != latest ensures UploadedInstant(y) < UploadedInstant(latest) {
      assert y in multiset(ascending);
      assert y in multiset(store);
    }
    UniqueMaximumIsLast(ascending, UploadedInstant, latest, k);
  }

  /** When one row is strictly the latest, it heads the statistics output
      and its running total is SUM(FILE_SIZE) over the whole table. */
  lemma LatestRowCarriesGrandTotal(store: seq<Photo>, latest: Photo)
    requires multiset(store)[latest] == 1
    requires forall p :: p in store && p != latest ==> UploadedInstant(p) < UploadedInstant(latest)
    ensures |FindPhotosWithStatistics(store)| > 0
    ensures FindPhotosWithStatistics(store)[0].photo == latest
    ensures FindPhotosWithStatistics(store)[0].runningTotal == SumOf(store, FileSize)
  {
    assert latest in multiset(store);
    HeadIsLatest(store, latest);
    HeadIsLastWindowRow(store, latest);
    LastWindowRowHoldsTotal(store);
  }

  /** The listing returns exactly the stored rows, a null FILE_PATH included. */
  lemma ListingReturnsStoredRows(store: seq<Photo>)
    ensures forall x :: x in FindAllOrderByUploadedAtDesc(store) <==> x in store
  {
    var all := FindAllOrderByUploadedAtDesc(store);
    forall x ensures x in all <==> x in store {
      assert x in all <==> x in multiset(all);
    }
  }

  /** The before-cursor query returns stored rows as they are. */
  lemma BeforeReturnsStoredRows(store: seq<Photo>, cursor: DateTime)
    ensures forall x :: x in FindPhotosUploadedBefore(store, cursor) ==> x in store
  {
    forall x | x in FindPhotosUploadedBefore(store, cursor) ensures x in store {
      assert x in multiset(FindPhotosUploadedBefore(store, cursor));
    }
  }

  /** The month filter returns stored rows as they are. */
  lemma MonthReturnsStoredRows(store: seq<Photo>, year: string, month: string)
    ensures forall x :: x in FindPhotosByUploadMonth(store, year, month) ==> x in store
  {
    forall x | x in FindPhotosByUploadMonth(store, year, month) ensures x in store {
      assert x in multiset(FindPhotosByUploadMonth(store, year, month));
    }
  }

  /** A page returns stored rows as they are. */
  lemma PageReturnsStoredRows(store: seq<Photo>, offset: nat, limit: nat)
    ensures forall x :: x in FindPhotosWithPagination(store, offset, limit) ==> x in store
  {
    ListingReturnsStoredRows(store);
  }

  /** A stored row with a null FILE_PATH uploaded after the cursor: the
      listing returns it unchanged, while the after-cursor query returns it
      only with the path 'default_path' and never with a null path. */
  lemma OnlyAfterDefaultsPath(store: seq<Photo>, cursor: DateTime, p: Photo)
    requires p in store && p.filePath == None
    requires Instant(cursor) < UploadedInstant(p)
    ensures p in FindAllOrderByUploadedAtDesc(store)
    ensures p !in FindPhotosUploadedAfter(store, cursor)
    ensures p.(filePath := Some(DefaultPath)) in FindPhotosUploadedAfter(store, cursor)
  {
    ListingReturnsStoredRows(store);
    AfterReturnsEveryLaterRow(store, cursor, p);
  }
}
