/**
 The relational operators the queries are composed of, over sequences of
 rows: ORDER BY on an integer key (the upload instant), WHERE, LIMIT/OFFSET, a per-row
 projection and the SUM aggregate.

 SQL leaves the order of rows with equal sort keys unspecified. This model
 fixes one tie-break: ORDER BY is a stable sort, so rows with equal keys keep
 the order they had in its input. `SortedPermutationsAgree` shows that any
 other sorted arrangement lists the same keys in the same positions, so the
 choice only decides the order among ties.
 */
module Relational {
  import opened Records

  datatype Direction = Ascending | Descending

  /** A row whose sort key is `a` may be listed before one whose key is `b`
      under ORDER BY ... `dir`. */
  predicate InOrder(dir: Direction, a: int, b: int) {
    if dir == Ascending then a <= b else b <= a
  }

  /** Every row comes no later (in the direction) than every row after it. */
  predicate SortedBy<T>(s: seq<T>, key: T -> int, dir: Direction) {
    forall i, j {:trigger InOrder(dir, key(s[i]), key(s[j]))} :: 0 <= i < j < |s| ==> InOrder(dir, key(s[i]), key(s[j]))
  }

  /** A row that may precede every row of a sorted sequence may head it. */
  lemma SortedCons<T>(y: T, t: seq<T>, key: T -> int, dir: Direction)
    requires SortedBy(t, key, dir)
    requires forall z :: z in t ==> InOrder(dir, key(y), key(z))
    ensures SortedBy([y] + t, key, dir)
  {
    var r := [y] + t;
    forall i, j | 0 <= i < j < |r| ensures InOrder(dir, key(r[i]), key(r[j])) {
      assert r[j] == t[j - 1];
      if i > 0 {
        assert r[i] == t[i - 1];
      }
    }
  }

  /** The rows after the first of a sorted sequence are sorted, and the
      first may precede each of them. */
  lemma SortedUncons<T>(s: seq<T>, key: T -> int, dir: Direction)
    requires s != [] && SortedBy(s, key, dir)
    ensures SortedBy(s[1..], key, dir)
    ensures forall z :: z in s[1..] ==> InOrder(dir, key(s[0]), key(z))
  {
    forall i, j | 0 <= i < j < |s| - 1 ensures InOrder(dir, key(s[1..][i]), key(s[1..][j])) {
      assert s[1..][i] == s[i + 1] && s[1..][j] == s[j + 1];
    }
  }

  /** A row that may precede the first row of a sorted sequence may
      precede every row of it. */
  lemma PrecedesSorted<T>(x: T, s: seq<T>, key: T -> int, dir: Direction)
    requires SortedBy(s, key, dir)
    requires s == [] || InOrder(dir, key(x), key(s[0]))
    ensures forall z :: z in s ==> InOrder(dir, key(x), key(z))
  {
    forall z | z in s ensures InOrder(dir, key(x), key(z)) {
      var k :| 0 <= k < |s| && s[k] == z;
      if k > 0 {
        assert InOrder(dir, key(s[0]), key(s[k]));
      }
    }
  }

  /** Places `x` in front of the first row it may precede. */
  function Insert<T>(x: T, s: seq<T>, key: T -> int, dir: Direction): (r: seq<T>)
    requires SortedBy(s, key, dir)
    ensures multiset(r) == multiset(s) + multiset{x}
    ensures SortedBy(r, key, dir)
    decreases |s|
  {
    if s == [] || InOrder(dir, key(x), key(s[0])) then
      PrecedesSorted(x, s, key, dir);
      SortedCons(x, s, key, dir);
      [x] + s
    else
      assert s == [s[0]] + s[1..];
      SortedUncons(s, key, dir);
      var t := Insert(x, s[1..], key, dir);
      assert forall z :: z in t ==> InOrder(dir, key(s[0]), key(z)) by {
        forall z | z in t ensures InOrder(dir, key(s[0]), key(z)) {
          assert z in multiset(t);
          if z != x {
            assert z in multiset(s[1..]);
          }
        }
      }
      SortedCons(s[0], t, key, dir);
      [s[0]] + t
  }

  /** ORDER BY key `dir`: a stable sort of the rows. */
  function OrderBy<T>(s: seq<T>, key: T -> int, dir: Direction): (r: seq<T>)
    ensures multiset(r) == multiset(s)
    ensures |r| == |s|
    ensures SortedBy(r, key, dir)
  {
    if s == [] then
      []
    else
      assert s == [s[0]] + s[1..];
      var r := Insert(s[0], OrderBy(s[1..], key, dir), key, dir);
      assert |r| == |multiset(r)|;
      r
  }

  /** WHERE keep: the rows that satisfy `keep`, each as often as in `s`. */
  function Where<T(!new)>(s: seq<T>, keep: T -> bool): (r: seq<T>)
    ensures forall x :: multiset(r)[x] == if keep(x) then multiset(s)[x] else 0
    ensures forall i :: 0 <= i < |r| ==> keep(r[i])
    ensures multiset(r) <= multiset(s)
    ensures |r| <= |s|
  {
    if s == [] then
      []
    else
      assert s == [s[0]] + s[1..];
      var t := Where(s[1..], keep);
      if keep(s[0]) then [s[0]] + t else t
  }

  /** WHERE looks at the rows one at a time, front to back. */
  lemma WhereCons<T(!new)>(x: T, t: seq<T>, keep: T -> bool)
    ensures Where([x] + t, keep) == (if keep(x) then [x] else []) + Where(t, keep)
  {
    var s := [x] + t;
    assert s[0] == x && s[1..] == t;
  }

  /** The filter that keeps the rows whose key is `k`. */
  function HasKey<T>(key: T -> int, k: int): T -> bool {
    (x: T) => key(x) == k
  }

  /** Filtering is blind to swapping two neighbouring rows when at most
      one of them passes: placing `y` before the filtered rows of `[x] + u`
      is filtering `[x, y] + u`. */
  lemma WhereSwap<T(!new)>(x: T, y: T, t: seq<T>, u: seq<T>, keep: T -> bool)
    requires !(keep(x) && keep(y))
    requires Where(t, keep) == Where([x] + u, keep)
    ensures Where([y] + t, keep) == Where([x] + ([y] + u), keep)
  {
    var rest := Where(u, keep);
    WhereCons(y, t, keep);
    WhereCons(x, u, keep);
    WhereCons(y, u, keep);
    WhereCons(x, [y] + u, keep);
    if keep(x) {
      calc {
        Where([y] + t, keep);
        Where(t, keep);
        [x] + rest;
        [x] + Where([y] + u, keep);
        Where([x] + ([y] + u), keep);
      }
    } else {
      assert [] + rest == rest;
      calc {
        Where([y] + t, keep);
        (if keep(y) then [y] else []) + Where(t, keep);
        (if keep(y) then [y] else []) + rest;
        Where([y] + u, keep);
        Where([x] + ([y] + u), keep);
      }
    }
  }

  /** Inserting a row keeps the rows of each key in the order they had, the
      new row in front of those that share its key. */
  lemma {:induction false} InsertKeepsTies<T(!new)>(x: T, s: seq<T>, key: T -> int, dir: Direction, k: int)
    requires SortedBy(s, key, dir)
    ensures Where(Insert(x, s, key, dir), HasKey(key, k)) == Where([x] + s, HasKey(key, k))
    decreases |s|
  {
    if s != [] && !InOrder(dir, key(x), key(s[0])) {
      var same := HasKey(key, k);
      var s' := s[1..];
      assert SortedBy(s', key, dir) by { SortedUncons(s, key, dir); }
      var t := Insert(x, s', key, dir);
      calc {
        Where(Insert(x, s, key, dir), same);
        Where([s[0]] + t, same);
        { assert !(same(x) && same(s[0])) by { assert key(x) != key(s[0]); }
          InsertKeepsTies(x, s', key, dir, k);
          WhereSwap(x, s[0], t, s', same); }
        Where([x] + ([s[0]] + s'), same);
        { assert s == [s[0]] + s'; }
        Where([x] + s, same);
      }
    }
  }

  /** ORDER BY is stable: the rows that share a key come out in the order
      they have in the input. */
  lemma {:induction false} OrderByIsStable<T(!new)>(s: seq<T>, key: T -> int, dir: Direction, k: int)
    ensures Where(OrderBy(s, key, dir), HasKey(key, k)) == Where(s, HasKey(key, k))
  {
    if s != [] {
      var same := HasKey(key, k);
      var rest := OrderBy(s[1..], key, dir);
      var first := if same(s[0]) then [s[0]] else [];
      calc {
        Where(OrderBy(s, key, dir), same);
        Where(Insert(s[0], rest, key, dir), same);
        { InsertKeepsTies(s[0], rest, key, dir, k); }
        Where([s[0]] + rest, same);
        { WhereCons(s[0], rest, same); }
        first + Where(rest, same);
        { OrderByIsStable(s[1..], key, dir, k); }
        first + Where(s[1..], same);
        { WhereCons(s[0], s[1..], same); }
        Where([s[0]] + s[1..], same);
        { assert s == [s[0]] + s[1..]; }
        Where(s, same);
      }
    }
  }

  /** A prefix holds no row more often than the whole sequence. */
  lemma PrefixSubMultiset<T>(s: seq<T>, n: nat)
    requires n <= |s|
    ensures multiset(s[..n]) <= multiset(s)
  {
    assert s == s[..n] + s[n..];
  }

  /** A prefix of a sorted sequence is sorted. */
  lemma SortedPrefix<T>(s: seq<T>, n: nat, key: T -> int, dir: Direction)
    requires n <= |s| && SortedBy(s, key, dir)
    ensures SortedBy(s[..n], key, dir)
  {
    forall i, j | 0 <= i < j < n ensures InOrder(dir, key(s[..n][i]), key(s[..n][j])) {
      assert s[..n][i] == s[i] && s[..n][j] == s[j];
    }
  }

  /** No row has a larger key than the last row of an ascending order or
      the first row of a descending order. */
  lemma SortedBounds<T>(s: seq<T>, key: T -> int, dir: Direction, x: T)
    requires SortedBy(s, key, dir) && x in s
    ensures dir == Ascending ==> key(x) <= key(s[|s| - 1])
    ensures dir == Descending ==> key(x) <= key(s[0])
  {
    var i :| 0 <= i < |s| && s[i] == x;
    if i < |s| - 1 {
      assert InOrder(dir, key(s[i]), key(s[|s| - 1]));
    }
    if 0 < i {
      assert InOrder(dir, key(s[0]), key(s[i]));
    }
  }

  /** A value at two different positions occurs at least twice. */
  lemma TwoPositionsTwoCopies<T>(s: seq<T>, x: T, i: nat, j: nat)
    requires i < j < |s| && s[i] == x && s[j] == x
    ensures multiset(s)[x] >= 2
  {
    assert s == s[..j] + s[j..];
    assert x in multiset(s[..j]) && x in multiset(s[j..]);
  }

  /** Only one copy of `x` in `s` means only one position holds it. */
  lemma SinglePosition<T>(s: seq<T>, x: T, i: nat, j: nat)
    requires multiset(s)[x] == 1
    requires i < |s| && j < |s| && s[i] == x && s[j] == x
    ensures i == j
  {
    if i < j {
      TwoPositionsTwoCopies(s, x, i, j);
    } else if j < i {
      TwoPositionsTwoCopies(s, x, j, i);
    }
  }

  /** In an ascending order, a row stored once whose key is larger than
      every other row's sits at the last position and nowhere else. */
  lemma UniqueMaximumIsLast<T>(s: seq<T>, key: T -> int, x: T, k: nat)
    requires SortedBy(s, key, Ascending)
    requires multiset(s)[x] == 1
    requires forall y :: y in s && y != x ==> key(y) < key(x)
    requires k < |s| && s[k] == x
    ensures k == |s| - 1
  {
    var last := s[|s| - 1];
    SortedBounds(s, key, Ascending, x);
    assert last == x;
    SinglePosition(s, x, k, |s| - 1);
  }

  /** A row that a LIMIT of `n` cuts off (fewer copies are kept than there
      are) comes after every row kept. */
  lemma CutRowsFollow<T>(s: seq<T>, n: nat, key: T -> int, dir: Direction, p: T)
    requires n <= |s| && SortedBy(s, key, dir)
    requires multiset(s[..n])[p] < multiset(s)[p]
    ensures forall i :: 0 <= i < n ==> InOrder(dir, key(s[i]), key(p))
  {
    assert s == s[..n] + s[n..];
    assert p in multiset(s[n..]);
    var j :| 0 <= j < |s| - n && s[n..][j] == p;
    forall i | 0 <= i < n ensures InOrder(dir, key(s[i]), key(p)) {
      assert s[n + j] == p;
    }
  }

  /** Every row of a WHERE result, wherever it is moved, satisfies the filter. */
  lemma KeptRows<T(!new)>(s: seq<T>, keep: T -> bool, r: seq<T>)
    requires multiset(r) == multiset(Where(s, keep))
    ensures forall i :: 0 <= i < |r| ==> keep(r[i])
  {
    forall i | 0 <= i < |r| ensures keep(r[i]) {
      assert r[i] in multiset(r);
    }
  }

  function Min(a: int, b: int): int {
    if a <= b then a else b
  }

  /** LIMIT `limit` OFFSET `offset`: skip the first `offset` rows (all of
      them when there are fewer), then keep at most `limit` rows. The result
      is the slice between the offset and the offset plus the limit, each
      cut off at the end of the input. */
  function LimitOffset<T>(s: seq<T>, offset: nat, limit: nat): (r: seq<T>)
    ensures |r| == if offset >= |s| then 0 else Min(limit, |s| - offset)
    ensures r == s[Min(offset, |s|)..Min(offset + limit, |s|)]
  {
    var rest := if offset <= |s| then s[offset..] else [];
    if limit <= |rest| then rest[..limit] else rest
  }

  /** A page followed by the page that starts where it ends is the page
      covering both. */
  lemma AdjacentLimitsConcatenate<T>(s: seq<T>, offset: nat, a: nat, b: nat)
    ensures LimitOffset(s, offset, a) + LimitOffset(s, offset + a, b) == LimitOffset(s, offset, a + b)
  {
    var x, y, z := Min(offset, |s|), Min(offset + a, |s|), Min(offset + a + b, |s|);
    assert s[x..y] + s[y..z] == s[x..z];
  }

  /** The rows up to `i`, then the rows from `i` up to `j`, are the rows up to `j`
      (each bound cut off at the end of the input). */
  lemma PrefixThenSlice<T>(s: seq<T>, i: nat, j: nat)
    requires i <= j
    ensures s[..Min(i, |s|)] + s[Min(i, |s|)..Min(j, |s|)] == s[..Min(j, |s|)]
  {
  }

  /** The offset of page `k` (counting from 0) when every page holds `size` rows. */
  function PageStart(k: nat, size: nat): nat {
    if k == 0 then 0 else PageStart(k - 1, size) + size
  }

  /** Page `k` starts after `k` full pages. */
  lemma {:induction false} PageStartIsProduct(k: nat, size: nat)
    ensures PageStart(k, size) == k * size
  {
    if k > 0 {
      PageStartIsProduct(k - 1, size);
    }
  }

  /** The first `count` pages of `size` rows of `s`, fetched one after another. */
  function ConsecutivePages<T>(s: seq<T>, count: nat, size: nat): seq<T> {
    if count == 0 then [] else ConsecutivePages(s, count - 1, size) + LimitOffset(s, PageStart(count - 1, size), size)
  }

  /** Consecutive pages read a prefix of the input, with no row skipped or repeated. */
  lemma {:induction false} ConsecutivePagesArePrefix<T>(s: seq<T>, count: nat, size: nat)
    ensures ConsecutivePages(s, count, size) == s[..Min(count * size, |s|)]
  {
    if count == 0 {
      assert s[..0] == [];
    } else {
      ConsecutivePagesArePrefix(s, count - 1, size);
      PageStartIsProduct(count - 1, size);
      PageStartIsProduct(count, size);
      var start := PageStart(count - 1, size);
      var x, y := Min(start, |s|), Min(start + size, |s|);
      assert PageStart(count, size) == start + size;
      assert LimitOffset(s, start, size) == s[x..y];
      PrefixThenSlice(s, start, start + size);
      assert s[..x] + s[x..y] == s[..y];
    }
  }

  /** The projection applying `f` to every row, in order. */
  function Project<T, U>(f: T -> U, s: seq<T>): seq<U> {
    seq(|s|, i requires 0 <= i < |s| => f(s[i]))
  }

  /** SUM(f) over all rows of `s`. */
  function SumOf<T>(s: seq<T>, f: T -> int): int {
    if s == [] then 0 else f(s[0]) + SumOf(s[1..], f)
  }

  /** Removing one occurrence of `s[k]` leaves the rest of the multiset. */
  lemma RemoveAt<T>(s: seq<T>, k: nat)
    requires k < |s|
    ensures multiset(s[..k] + s[k + 1..]) == multiset(s) - multiset{s[k]}
  {
    assert s == s[..k] + [s[k]] + s[k + 1..];
  }

  /** Taking the first row of `a` out of both arrangements leaves two
      arrangements of the same rows. */
  lemma PermutationRemoveFirst<T>(a: seq<T>, b: seq<T>, k: nat)
    requires a != [] && multiset(a) == multiset(b)
    requires k < |b| && b[k] == a[0]
    ensures multiset(a[1..]) == multiset(b[..k] + b[k + 1..])
  {
    RemoveAt(b, k);
    assert a == [a[0]] + a[1..];
  }

  /** Projection commutes with concatenation. */
  lemma ProjectConcat<T, U>(f: T -> U, a: seq<T>, b: seq<T>)
    ensures Project(f, a + b) == Project(f, a) + Project(f, b)
  {
  }

  /** Rearranging the rows rearranges their projections the same way. */
  lemma {:induction false} ProjectPermutation<T, U>(f: T -> U, a: seq<T>, b: seq<T>)
    requires multiset(a) == multiset(b)
    ensures multiset(Project(f, a)) == multiset(Project(f, b))
    decreases |a|
  {
    if a != [] {
      assert a[0] in multiset(b);
      var k :| 0 <= k < |b| && b[k] == a[0];
      var rest := b[..k] + b[k + 1..];
      PermutationRemoveFirst(a, b, k);
      assert a == [a[0]] + a[1..];
      ProjectPermutation(f, a[1..], rest);
      assert b == b[..k] + [b[k]] + b[k + 1..];
      ProjectConcat(f, b[..k] + [b[k]], b[k + 1..]);
      ProjectConcat(f, b[..k], [b[k]]);
      ProjectConcat(f, b[..k], b[k + 1..]);
      ProjectConcat(f, [a[0]], a[1..]);
    }
  }

  /** SUM distributes over concatenation. */
  lemma {:induction false} SumOfConcat<T>(a: seq<T>, b: seq<T>, f: T -> int)
    ensures SumOf(a + b, f) == SumOf(a, f) + SumOf(b, f)
    decreases |a|
  {
    if a != [] {
      assert (a + b)[0] == a[0];
      assert (a + b)[1..] == a[1..] + b;
      SumOfConcat(a[1..], b, f);
    } else {
      assert a + b == b;
    }
  }

  /** SUM does not depend on the order of the rows. */
  lemma {:induction false} SumOfPermutation<T>(a: seq<T>, b: seq<T>, f: T -> int)
    requires multiset(a) == multiset(b)
    ensures SumOf(a, f) == SumOf(b, f)
    decreases |a|
  {
    if a == [] {
      assert |b| == |multiset(b)| == 0;
    } else {
      assert a[0] in multiset(b);
      var k :| 0 <= k < |b| && b[k] == a[0];
      var rest := b[..k] + b[k + 1..];
      PermutationRemoveFirst(a, b, k);
      assert a == [a[0]] + a[1..];
      SumOfPermutation(a[1..], rest, f);
      assert b == b[..k] + ([b[k]] + b[k + 1..]);
      SumOfConcat(b[..k], [b[k]] + b[k + 1..], f);
      SumOfConcat(b[..k], b[k + 1..], f);
    }
  }

  /** Dropping the row at position `k` keeps a sorted sequence sorted. */
  lemma SortedRemoveAt<T>(s: seq<T>, k: nat, key: T -> int, dir: Direction)
    requires k < |s| && SortedBy(s, key, dir)
    ensures SortedBy(s[..k] + s[k + 1..], key, dir)
  {
    var rest := s[..k] + s[k + 1..];
    forall i, j | 0 <= i < j < |rest| ensures InOrder(dir, key(rest[i]), key(rest[j])) {
      var si := if i < k then i else i + 1;
      var sj := if j < k then j else j + 1;
      assert rest[i] == s[si] && rest[j] == s[sj];
    }
  }

  /** Sorted arrangements of the same rows start with the same key. */
  lemma FirstKeysAgree<T>(a: seq<T>, b: seq<T>, key: T -> int, dir: Direction)
    requires a != [] && multiset(a) == multiset(b)
    requires SortedBy(a, key, dir) && SortedBy(b, key, dir)
    ensures b != [] && key(a[0]) == key(b[0])
  {
    assert a[0] in multiset(b);
    assert b[0] in multiset(a);
    var k :| 0 <= k < |b| && b[k] == a[0];
    var j :| 0 <= j < |a| && a[j] == b[0];
    assert InOrder(dir, key(a[0]), key(a[j]));
    assert InOrder(dir, key(b[0]), key(b[k]));
  }

  /** In a sorted sequence, every row between two rows with the same key has that key. */
  lemma SortedBetween<T>(s: seq<T>, k: nat, key: T -> int, dir: Direction)
    requires k < |s| && SortedBy(s, key, dir) && key(s[0]) == key(s[k])
    ensures forall i :: 0 <= i <= k ==> key(s[i]) == key(s[0])
  {
    forall i | 0 <= i <= k ensures key(s[i]) == key(s[0]) {
      assert InOrder(dir, key(s[0]), key(s[i]));
      assert InOrder(dir, key(s[i]), key(s[k]));
    }
  }

  /** Two sorted arrangements of the same rows list the same keys, position
      by position: the tie-break of ORDER BY is invisible in the keys. */
  lemma {:induction false} SortedPermutationsAgree<T>(a: seq<T>, b: seq<T>, key: T -> int, dir: Direction)
    requires multiset(a) == multiset(b)
    requires SortedBy(a, key, dir) && SortedBy(b, key, dir)
    ensures |a| == |b|
    ensures forall i :: 0 <= i < |a| ==> key(a[i]) == key(b[i])
    decreases |a|
  {
    assert |a| == |multiset(a)| == |multiset(b)| == |b|;
    if a != [] {
      FirstKeysAgree(a, b, key, dir);
      assert a[0] in multiset(b);
      var k :| 0 <= k < |b| && b[k] == a[0];
      SortedBetween(b, k, key, dir);
      var rest := b[..k] + b[k + 1..];
      var tail := a[1..];
      PermutationRemoveFirst(a, b, k);
      SortedRemoveAt(b, k, key, dir);
      SortedRemoveAt(a, 0, key, dir);
      assert a[..0] + a[1..] == tail;
      SortedPermutationsAgree(tail, rest, key, dir);
      forall i | 0 <= i < |a| ensures key(a[i]) == key(b[i]) {
        if 0 < i {
          assert a[i] == tail[i - 1];
          if i <= k {
            assert rest[i - 1] == b[i - 1];
          } else {
            assert rest[i - 1] == b[i];
          }
        }
      }
    }
  }

  /** When no two rows share a key, a sorted arrangement is unique. */
  lemma SortedPermutationUnique<T>(a: seq<T>, b: seq<T>, key: T -> int, dir: Direction)
    requires multiset(a) == multiset(b)
    requires SortedBy(a, key, dir) && SortedBy(b, key, dir)
    requires forall x, y :: x in a && y in a && key(x) == key(y) ==> x == y
    ensures a == b
  {
    SortedPermutationsAgree(a, b, key, dir);
    forall i | 0 <= i < |a| ensures a[i] == b[i] {
      assert b[i] in multiset(a);
    }
  }
}
