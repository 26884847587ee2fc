/**
 A table of three rows `a`, `b`, `c`, uploaded in that order (at t1 < t2 <
 t3) with sizes 100, 200 and 200, worked through the queries.
 */
module Scenarios {
  import opened Records
  import opened Relational
  import opened DateText
  import opened WindowFunctions
  import opened PhotoRepository

  /** Rows `a`, `b`, `c` uploaded in that order. */
  predicate InUploadOrder(a: Photo, b: Photo, c: Photo) {
    UploadedInstant(a) < UploadedInstant(b) < UploadedInstant(c)
  }

  /** Three rows with increasing keys, in either direction, are sorted, and
      no two of them share a key. */
  lemma ThreeSorted<T>(a: T, b: T, c: T, key: T -> int)
    requires key(a) < key(b) < key(c)
    ensures SortedBy([a, b, c], key, Ascending) && SortedBy([c, b, a], key, Descending)
    ensures forall x, y :: x in [a, b, c] && y in [a, b, c] && key(x) == key(y) ==> x == y
    ensures forall x, y :: x in [c, b, a] && y in [c, b, a] && key(x) == key(y) ==> x == y
  {
    var up, down := [a, b, c], [c, b, a];
    forall i, j | 0 <= i < j < 3 ensures InOrder(Ascending, key(up[i]), key(up[j])) {
    }
    forall i, j | 0 <= i < j < 3 ensures InOrder(Descending, key(down[i]), key(down[j])) {
    }
  }

  /** ORDER BY on three rows with increasing keys. */
  lemma OrderThree<T>(a: T, b: T, c: T, key: T -> int)
    requires key(a) < key(b) < key(c)
    ensures OrderBy([a, b, c], key, Ascending) == [a, b, c]
    ensures OrderBy([a, b, c], key, Descending) == [c, b, a]
  {
    ThreeSorted(a, b, c, key);
    assert multiset([c, b, a]) == multiset([a, b, c]);
    SortedPermutationUnique([a, b, c], OrderBy([a, b, c], key, Ascending), key, Ascending);
    SortedPermutationUnique([c, b, a], OrderBy([a, b, c], key, Descending), key, Descending);
  }

  /** ORDER BY on two rows with increasing keys. */
  lemma OrderTwo<T>(a: T, b: T, key: T -> int)
    requires key(a) < key(b)
    ensures OrderBy([a, b], key, Ascending) == [a, b]
  {
    var up := [a, b];
    forall i, j | 0 <= i < j < 2 ensures InOrder(Ascending, key(up[i]), key(up[j])) {
    }
    SortedPermutationUnique(up, OrderBy(up, key, Ascending), key, Ascending);
  }

  /** WHERE on three rows keeps those that pass, in order. */
  lemma WhereThree<T(!new)>(a: T, b: T, c: T, keep: T -> bool)
    ensures Where([a, b, c], keep) ==
      (if keep(a) then [a] else []) + ((if keep(b) then [b] else []) + (if keep(c) then [c] else []))
  {
    assert [c] == [c] + [];
    assert [b, c] == [b] + [c];
    assert [a, b, c] == [a] + [b, c];
    WhereCons(c, [], keep);
    WhereCons(b, [c], keep);
    WhereCons(a, [b, c], keep);
  }

  /** ORDER BY keeps two rows with the same key in their input order. */
  lemma OrderTwoTied<T>(a: T, b: T, key: T -> int, dir: Direction)
    requires key(a) == key(b)
    ensures OrderBy([a, b], key, dir) == [a, b]
  {
    assert [a, b][1..] == [b] && [b][1..] == [];
    assert OrderBy([b], key, dir) == [b];
    assert InOrder(dir, key(a), key(b));
  }

  /** The listing puts the rows newest first. */
  lemma ListingScenario(a: Photo, b: Photo, c: Photo)
    requires InUploadOrder(a, b, c)
    ensures FindAllOrderByUploadedAtDesc([a, b, c]) == [c, b, a]
  {
    OrderThree(a, b, c, UploadedInstant);
  }

  /** The window order of the table is the upload order. */
  lemma WindowOrderScenario(a: Photo, b: Photo, c: Photo)
    requires InUploadOrder(a, b, c)
    ensures OrderBy([a, b, c], UploadedInstant, Ascending) == [a, b, c]
  {
    OrderThree(a, b, c, UploadedInstant);
  }

  /** Two rows are larger than 100 and none is larger than 200. */
  lemma RankScenario(a: Photo, b: Photo, c: Photo)
    requires a.fileSize == 100 && b.fileSize == 200 && c.fileSize == 200
    ensures SizeRank([a, b, c], 100) == 3 && SizeRank([a, b, c], 200) == 1
  {
    WhereThree(a, b, c, LargerThan(100));
    WhereThree(a, b, c, LargerThan(200));
  }

  /** The running totals along the upload order are 100, 300 and 500. */
  lemma RunningTotalScenario(a: Photo, b: Photo, c: Photo)
    requires a.fileSize == 100 && b.fileSize == 200 && c.fileSize == 200
    ensures RunningTotal([a, b, c], 0) == 100
    ensures RunningTotal([a, b, c], 1) == 300
    ensures RunningTotal([a, b, c], 2) == 500
  {
    RunningTotalStep([a, b, c], 0);
    RunningTotalStep([a, b, c], 1);
    RunningTotalStep([a, b, c], 2);
  }

  /** Three values at the three positions of a sequence of length 3 make it up. */
  lemma ThreePositions<T>(w: seq<T>, x: T, y: T, z: T)
    requires |w| == 3 && w[0] == x && w[1] == y && w[2] == z
    ensures w == [x, y, z]
  {
  }

  /** The rows in window order with their two window columns. */
  lemma WindowRowsScenario(a: Photo, b: Photo, c: Photo)
    requires InUploadOrder(a, b, c)
    requires a.fileSize == 100 && b.fileSize == 200 && c.fileSize == 200
    ensures WindowRows([a, b, c]) == [StatisticsRow(a, 3, 100), StatisticsRow(b, 1, 300), StatisticsRow(c, 1, 500)]
  {
    WindowOrderScenario(a, b, c);
    RankScenario(a, b, c);
    RunningTotalScenario(a, b, c);
    ThreePositions(WindowRows([a, b, c]), StatisticsRow(a, 3, 100), StatisticsRow(b, 1, 300), StatisticsRow(c, 1, 500));
  }

  /** The two rows of size 200 share rank 1 and the row of size 100 gets
      rank 3 (no rank 2); the running totals along ascending time are 100,
      300 and 500, shown newest first. */
  lemma StatisticsScenario(a: Photo, b: Photo, c: Photo)
    requires InUploadOrder(a, b, c)
    requires a.fileSize == 100 && b.fileSize == 200 && c.fileSize == 200
    ensures FindPhotosWithStatistics([a, b, c]) ==
      [StatisticsRow(c, 1, 500), StatisticsRow(b, 1, 300), StatisticsRow(a, 3, 100)]
  {
    var x, y, z := StatisticsRow(a, 3, 100), StatisticsRow(b, 1, 300), StatisticsRow(c, 1, 500);
    WindowRowsScenario(a, b, c);
    OrderThree(x, y, z, RowInstant);
  }

  /** The rows strictly before the second upload. */
  lemma BeforeRowsScenario(a: Photo, b: Photo, c: Photo)
    requires InUploadOrder(a, b, c)
    ensures UploadedBefore([a, b, c], b.uploadedAt) == [a]
  {
    var before := IsBefore(b.uploadedAt);
    assert Where([a, b, c], before) == [a] by {
      assert before(a) && !before(b) && !before(c);
      WhereThree(a, b, c, before);
    }
  }

  /** The rows strictly after the first upload. */
  lemma AfterRowsScenario(a: Photo, b: Photo, c: Photo)
    requires InUploadOrder(a, b, c)
    ensures UploadedAfter([a, b, c], a.uploadedAt) == [b, c]
  {
    var after := IsAfter(a.uploadedAt);
    assert Where([a, b, c], after) == [b, c] by {
      assert !after(a) && after(b) && after(c);
      WhereThree(a, b, c, after);
      assert [] + ([b] + [c]) == [b, c];
    }
  }

  /** Before the second upload there is only the first. */
  lemma BeforeScenario(a: Photo, b: Photo, c: Photo)
    requires InUploadOrder(a, b, c)
    ensures FindPhotosUploadedBefore([a, b, c], b.uploadedAt) == [a]
  {
    BeforeRowsScenario(a, b, c);
    assert OrderBy([a], UploadedInstant, Descending) == [a];
  }

  /** After the first upload come the second and the third, oldest first,
      each with its path defaulted when it is null. */
  lemma AfterScenario(a: Photo, b: Photo, c: Photo)
    requires InUploadOrder(a, b, c)
    ensures FindPhotosUploadedAfter([a, b, c], a.uploadedAt) == [WithDefaultPath(b), WithDefaultPath(c)]
  {
    AfterRowsScenario(a, b, c);
    OrderTwo(b, c, UploadedInstant);
    var defaulted := Project(WithDefaultPath, [b, c]);
    assert |defaulted| == 2 && defaulted[0] == WithDefaultPath(b) && defaulted[1] == WithDefaultPath(c);
  }

  /** The page at offset 1 of size 1 is the second newest row. */
  lemma PageScenario(a: Photo, b: Photo, c: Photo)
    requires InUploadOrder(a, b, c)
    ensures FindPhotosWithPagination([a, b, c], 1, 1) == [b]
  {
    ListingScenario(a, b, c);
    assert [c, b, a][1..2] == [b];
  }

  /** With two rows sharing a timestamp, a page of one row returns the one the
      tie order puts first: which tied rows a LIMIT keeps depends on that order. */
  lemma TiedPageScenario(a: Photo, b: Photo)
    requires UploadedInstant(a) == UploadedInstant(b)
    ensures FindPhotosWithPagination([a, b], 0, 1) == [a]
    ensures FindPhotosWithPagination([b, a], 0, 1) == [b]
  {
    OrderTwoTied(a, b, UploadedInstant, Descending);
    OrderTwoTied(b, a, UploadedInstant, Descending);
    assert [a, b][0..1] == [a] && [b, a][0..1] == [b];
  }

  /** Two page requests that see the tied rows in different orders can
      return the same row twice and never the other one. */
  lemma TiedPagesCanRepeat(a: Photo, b: Photo)
    requires UploadedInstant(a) == UploadedInstant(b)
    ensures FindPhotosWithPagination([a, b], 0, 1) + FindPhotosWithPagination([b, a], 1, 1) == [a, a]
  {
    TiedPageScenario(a, b);
    OrderTwoTied(b, a, UploadedInstant, Descending);
    assert [b, a][1..2] == [a];
  }

  /** Two values at the two positions of a sequence of length 2 make it up. */
  lemma TwoPositions<T>(w: seq<T>, x: T, y: T)
    requires |w| == 2 && w[0] == x && w[1] == y
    ensures w == [x, y]
  {
  }

  /** Two rows uploaded at the same instant: the ROWS frame gives the first
      in window order only its own size and the second the grand total, and
      the statistics output lists them in that same order, so the row it
      shows first does not carry SUM(FILE_SIZE). */
  lemma TiedLatestScenario(a: Photo, b: Photo)
    requires UploadedInstant(a) == UploadedInstant(b)
    ensures FindPhotosWithStatistics([a, b]) ==
      [StatisticsRow(a, SizeRank([a, b], a.fileSize), a.fileSize),
       StatisticsRow(b, SizeRank([a, b], b.fileSize), a.fileSize + b.fileSize)]
  {
    var x := StatisticsRow(a, SizeRank([a, b], a.fileSize), a.fileSize);
    var y := StatisticsRow(b, SizeRank([a, b], b.fileSize), a.fileSize + b.fileSize);
    OrderTwoTied(a, b, UploadedInstant, Ascending);
    RunningTotalStep([a, b], 0);
    RunningTotalStep([a, b], 1);
    TwoPositions(WindowRows([a, b]), x, y);
    OrderTwoTied(x, y, RowInstant, Descending);
  }
}
