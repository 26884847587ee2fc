/**
 The two window columns of the statistics query.

 SIZE_RANK is RANK() OVER (ORDER BY FILE_SIZE DESC) over the whole table:
 one more than the number of rows with a strictly larger size, so equal
 sizes share a rank and the ranks after a tie leave a gap. `RankIsStandard`
 ties this to the SQL standard's definition of RANK (ISO/IEC 9075-2, window
 functions): one plus the number of rows that precede the row in the window
 order and are not its peers.

 RUNNING_TOTAL is SUM(FILE_SIZE) OVER (ORDER BY UPLOADED_AT ROWS UNBOUNDED
 PRECEDING): a ROWS frame, so the total at a row covers the rows up to and
 including that row's position in the window order, and two rows with the
 same timestamp get different totals unless the later one's size is 0.
 */
module WindowFunctions {
  import opened Records
  import opened Relational

  /** The rows ranked ahead of a row of size `size`. */
  function LargerThan(size: int): Photo -> bool {
    (p: Photo) => p.fileSize > size
  }

  /** The rows that are not peers of a row of size `size` in ORDER BY FILE_SIZE. */
  function NotPeerOf(size: int): Photo -> bool {
    (p: Photo) => p.fileSize != size
  }

  /** SIZE_RANK of a row of size `size` among `rows`. */
  function SizeRank(rows: seq<Photo>, size: int): (r: int)
    ensures 1 <= r <= |rows| + 1
  {
    1 + |Where(rows, LargerThan(size))|
  }

  /** RANK as the standard defines it, at position `i` of a window order `w`. */
  function StandardRank(w: seq<Photo>, i: nat): int
    requires i < |w|
  {
    1 + |Where(w[..i], NotPeerOf(w[i].fileSize))|
  }

  /** RUNNING_TOTAL at position `i` of the window order `ordered`: the sum
      over the frame from the first row to the current row. */
  function RunningTotal(ordered: seq<Photo>, i: nat): (r: int)
    requires i < |ordered|
    ensures r + SumOf(ordered[i + 1..], FileSize) == SumOf(ordered, FileSize)
  {
    assert ordered == ordered[..i + 1] + ordered[i + 1..];
    SumOfConcat(ordered[..i + 1], ordered[i + 1..], FileSize);
    SumOf(ordered[..i + 1], FileSize)
  }

  /** A smaller multiset has no more elements, and strictly fewer when it misses one. */
  lemma SubMultisetSize<T>(a: multiset<T>, b: multiset<T>, x: T)
    requires a <= b
    ensures |a| <= |b|
    ensures x in b && x !in a ==> |a| < |b|
  {
    assert b == a + (b - a);
    if x in b && x !in a {
      assert x in b - a;
    }
  }

  /** Filtering two arrangements of the same rows gives the same number of rows. */
  lemma WherePermutation<T(!new)>(a: seq<T>, b: seq<T>, keep: T -> bool)
    requires multiset(a) == multiset(b)
    ensures |Where(a, keep)| == |Where(b, keep)|
  {
    assert multiset(Where(a, keep)) == multiset(Where(b, keep));
  }

  /** Filtering splits over concatenation. */
  lemma WhereConcat<T(!new)>(a: seq<T>, b: seq<T>, keep: T -> bool)
    ensures |Where(a + b, keep)| == |Where(a, keep)| + |Where(b, keep)|
  {
    assert multiset(Where(a + b, keep)) == multiset(Where(a, keep)) + multiset(Where(b, keep));
  }

  /** A row of the table is ranked between 1 and the number of rows. */
  lemma SizeRankBounds(rows: seq<Photo>, p: Photo)
    requires p in rows
    ensures 1 <= SizeRank(rows, p.fileSize) <= |rows|
  {
    var ahead := Where(rows, LargerThan(p.fileSize));
    assert multiset(ahead) <= multiset(rows);
    assert p in multiset(rows);
    SubMultisetSize(multiset(ahead), multiset(rows), p);
  }

  /** A row whose size is at least another's is ranked no later, and a row
      of the table with a strictly larger size is ranked strictly earlier. */
  lemma SizeRankOrder(rows: seq<Photo>, p: Photo, q: Photo)
    ensures p.fileSize == q.fileSize ==> SizeRank(rows, p.fileSize) == SizeRank(rows, q.fileSize)
    ensures p.fileSize >= q.fileSize ==> SizeRank(rows, p.fileSize) <= SizeRank(rows, q.fileSize)
    ensures p in rows && p.fileSize > q.fileSize ==> SizeRank(rows, p.fileSize) < SizeRank(rows, q.fileSize)
  {
    var aheadOfP := Where(rows, LargerThan(p.fileSize));
    var aheadOfQ := Where(rows, LargerThan(q.fileSize));
    if p.fileSize >= q.fileSize {
      assert multiset(aheadOfP) <= multiset(aheadOfQ);
      if p in rows && p.fileSize > q.fileSize {
        assert p in multiset(rows);
        assert p in multiset(aheadOfQ) && p !in multiset(aheadOfP);
      }
      SubMultisetSize(multiset(aheadOfP), multiset(aheadOfQ), p);
    }
  }

  /** Two filters that agree on every row of `s` keep the same number of rows. */
  lemma WhereAgree<T(!new)>(s: seq<T>, keep: T -> bool, keep': T -> bool)
    requires forall x :: x in s ==> keep(x) == keep'(x)
    ensures |Where(s, keep)| == |Where(s, keep')|
  {
    assert multiset(Where(s, keep)) == multiset(Where(s, keep'));
  }

  /** In a size-descending order, the rows before position `i` that are not
      peers of row `i` are exactly those larger than it. */
  lemma NotPeersBeforeAreLarger(w: seq<Photo>, i: nat)
    requires SortedBy(w, FileSize, Descending) && i < |w|
    ensures |Where(w[..i], NotPeerOf(w[i].fileSize))| == |Where(w[..i], LargerThan(w[i].fileSize))|
  {
    var v := w[i].fileSize;
    forall x | x in w[..i] ensures NotPeerOf(v)(x) == LargerThan(v)(x) {
      var j :| 0 <= j < i && w[..i][j] == x;
      assert InOrder(Descending, FileSize(w[j]), FileSize(w[i]));
    }
    WhereAgree(w[..i], NotPeerOf(v), LargerThan(v));
  }

  /** In a size-descending order, no row from position `i` on is larger than row `i`. */
  lemma NoneLargerAfter(w: seq<Photo>, i: nat)
    requires SortedBy(w, FileSize, Descending) && i < |w|
    ensures |Where(w[i..], LargerThan(w[i].fileSize))| == 0
  {
    var v := w[i].fileSize;
    forall x | x in multiset(w[i..]) ensures !LargerThan(v)(x) {
      var j :| 0 <= j < |w| - i && w[i..][j] == x;
      assert InOrder(Descending, FileSize(w[i]), FileSize(w[i + j]));
    }
    assert multiset(Where(w[i..], LargerThan(v))) == multiset{};
  }

  /** SIZE_RANK agrees with the standard's RANK at every position of every
      size-descending arrangement of the table. */
  lemma RankIsStandard(rows: seq<Photo>, w: seq<Photo>, i: nat)
    requires multiset(w) == multiset(rows)
    requires SortedBy(w, FileSize, Descending)
    requires i < |w|
    ensures StandardRank(w, i) == SizeRank(rows, w[i].fileSize)
  {
    var v := w[i].fileSize;
    assert w == w[..i] + w[i..];
    NotPeersBeforeAreLarger(w, i);
    NoneLargerAfter(w, i);
    WhereConcat(w[..i], w[i..], LargerThan(v));
    WherePermutation(w, rows, LargerThan(v));
  }

  /** Each row's frame adds exactly that row's size to the previous frame. */
  lemma RunningTotalStep(ordered: seq<Photo>, i: nat)
    requires i < |ordered|
    ensures RunningTotal(ordered, i) == (if i == 0 then 0 else RunningTotal(ordered, i - 1)) + ordered[i].fileSize
  {
    if i > 0 {
      assert ordered[..i + 1] == ordered[..i] + [ordered[i]];
      SumOfConcat(ordered[..i], [ordered[i]], FileSize);
    } else {
      var frame := ordered[..1];
      assert frame[0] == ordered[0] && frame[1..] == [];
      assert SumOf(frame, FileSize) == FileSize(frame[0]) + SumOf(frame[1..], FileSize);
    }
  }

  /** With no negative sizes, running totals never decrease along the window order. */
  lemma {:induction false} RunningTotalMonotone(ordered: seq<Photo>, i: nat, j: nat)
    requires forall k :: 0 <= k < |ordered| ==> ordered[k].fileSize >= 0
    requires i <= j < |ordered|
    ensures RunningTotal(ordered, i) <= RunningTotal(ordered, j)
    decreases j
  {
    if i < j {
      RunningTotalMonotone(ordered, i, j - 1);
      RunningTotalStep(ordered, j);
    }
  }

  /** The frame of the last row is the whole table. */
  lemma LastRunningTotal(ordered: seq<Photo>)
    requires ordered != []
    ensures RunningTotal(ordered, |ordered| - 1) == SumOf(ordered, FileSize)
  {
    assert ordered[..|ordered|] == ordered;
  }
}
