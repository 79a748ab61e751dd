/**
 * The nested loop `for i in range(n): for j in range(i + 1, n)` that visits each
 * unordered pair of positions once, row by row, collecting what each pair yields.
 * `get_join_relationships` and `get_all_tables_needed` are both built on it.
 */
module PairLoop {

  /** The inner loop of row `i`, from column `j` on: the pieces `f(i, j), f(i, j + 1), ...`. */
  function Row<T>(f: (nat, nat) -> seq<T>, n: nat, i: nat, j: nat): seq<T>
    requires j <= n
    decreases n - j
  {
    if j == n then [] else f(i, j) + Row(f, n, i, j + 1)
  }

  /** The rows `lo, lo + 1, ...`, each over the columns after it. */
  function Rows<T>(f: (nat, nat) -> seq<T>, n: nat, lo: nat): seq<T>
    requires lo <= n
    decreases n - lo
  {
    if lo == n then [] else Row(f, n, lo, lo + 1) + Rows(f, n, lo + 1)
  }

  /** An element comes out of a row exactly when one of its pairs yields it. */
  lemma {:induction false} RowMembership<T>(f: (nat, nat) -> seq<T>, n: nat, i: nat, j: nat, x: T)
    requires j <= n
    ensures x in Row(f, n, i, j) <==> exists k :: j <= k < n && x in f(i, k)
    decreases n - j
  {
    if j < n {
      RowMembership(f, n, i, j + 1, x);
      if x in f(i, j) {
        assert j <= j < n && x in f(i, j);
      }
      if exists k :: j <= k < n && x in f(i, k) {
        var k :| j <= k < n && x in f(i, k);
        if k > j {
          assert j + 1 <= k < n && x in f(i, k);
        }
      }
    }
  }

  lemma {:induction false} RowsSound<T>(f: (nat, nat) -> seq<T>, n: nat, lo: nat, x: T)
    requires lo <= n
    requires x in Rows(f, n, lo)
    ensures exists i, j :: lo <= i < j < n && x in f(i, j)
    decreases n - lo
  {
    assert Rows(f, n, lo) == Row(f, n, lo, lo + 1) + Rows(f, n, lo + 1);
    if x in Row(f, n, lo, lo + 1) {
      RowMembership(f, n, lo, lo + 1, x);
      var k :| lo + 1 <= k < n && x in f(lo, k);
      assert lo <= lo < k < n && x in f(lo, k);
    } else {
      RowsSound(f, n, lo + 1, x);
      var i, j :| lo + 1 <= i < j < n && x in f(i, j);
      assert lo <= i < j < n && x in f(i, j);
    }
  }

  lemma {:induction false} RowComplete<T>(f: (nat, nat) -> seq<T>, n: nat, i: nat, j: nat, k: nat, x: T)
    requires j <= k < n
    requires x in f(i, k)
    ensures x in Row(f, n, i, j)
    decreases n - j
  {
    assert Row(f, n, i, j) == f(i, j) + Row(f, n, i, j + 1);
    if j < k {
      RowComplete(f, n, i, j + 1, k, x);
    }
  }

  lemma InRowsHead<T>(f: (nat, nat) -> seq<T>, n: nat, lo: nat, x: T)
    requires lo < n && x in Row(f, n, lo, lo + 1)
    ensures x in Rows(f, n, lo)
  {
  }

  lemma InRowsTail<T>(f: (nat, nat) -> seq<T>, n: nat, lo: nat, x: T)
    requires lo < n && x in Rows(f, n, lo + 1)
    ensures x in Rows(f, n, lo)
  {
  }

  lemma {:induction false} RowsComplete<T>(f: (nat, nat) -> seq<T>, n: nat, lo: nat, i: nat, j: nat, x: T)
    requires lo <= i < j < n
    requires x in f(i, j)
    ensures x in Rows(f, n, lo)
    decreases n - lo
  {
    if i == lo {
      RowComplete(f, n, lo, lo + 1, j, x);
      InRowsHead(f, n, lo, x);
    } else {
      RowsComplete(f, n, lo + 1, i, j, x);
      InRowsTail(f, n, lo, x);
    }
  }

  /** An element comes out of the loop exactly when some pair `lo <= i < j < n` yields it. */
  lemma RowsMembership<T>(f: (nat, nat) -> seq<T>, n: nat, lo: nat, x: T)
    requires lo <= n
    ensures x in Rows(f, n, lo) <==> exists i, j :: lo <= i < j < n && x in f(i, j)
  {
    if x in Rows(f, n, lo) {
      RowsSound(f, n, lo, x);
    }
    if exists i, j :: lo <= i < j < n && x in f(i, j) {
      var i, j :| lo <= i < j < n && x in f(i, j);
      RowsComplete(f, n, lo, i, j, x);
    }
  }

  lemma {:induction false} RowCongruence<T>(f1: (nat, nat) -> seq<T>, f2: (nat, nat) -> seq<T>, n: nat, i: nat, j: nat)
    requires j <= n
    requires forall k :: j <= k < n ==> f1(i, k) == f2(i, k)
    ensures Row(f1, n, i, j) == Row(f2, n, i, j)
    decreases n - j
  {
    if j < n {
      RowCongruence(f1, f2, n, i, j + 1);
    }
  }

  /** Two loops whose pairs yield the same pieces collect the same sequence. */
  lemma {:induction false} RowsCongruence<T>(f1: (nat, nat) -> seq<T>, f2: (nat, nat) -> seq<T>, n: nat, lo: nat)
    requires lo <= n
    requires forall i, j :: lo <= i < j < n ==> f1(i, j) == f2(i, j)
    ensures Rows(f1, n, lo) == Rows(f2, n, lo)
    decreases n - lo
  {
    if lo < n {
      RowCongruence(f1, f2, n, lo, lo + 1);
      RowsCongruence(f1, f2, n, lo + 1);
    }
  }

  lemma {:induction false} RowLength<T, U>(f: (nat, nat) -> seq<T>, h: (nat, nat) -> seq<U>, n: nat, i: nat, j: nat)
    requires j <= n
    requires forall k :: j <= k < n ==> |f(i, k)| == |h(i, k)|
    ensures |Row(f, n, i, j)| == |Row(h, n, i, j)|
    decreases n - j
  {
    if j < n {
      RowLength(f, h, n, i, j + 1);
    }
  }

  /** Two loops whose pairs yield pieces of the same lengths collect sequences of the same length. */
  lemma {:induction false} RowsLength<T, U>(f: (nat, nat) -> seq<T>, h: (nat, nat) -> seq<U>, n: nat, lo: nat)
    requires lo <= n
    requires forall i, j :: lo <= i < j < n ==> |f(i, j)| == |h(i, j)|
    ensures |Rows(f, n, lo)| == |Rows(h, n, lo)|
    decreases n - lo
  {
    if lo < n {
      RowLength(f, h, n, lo, lo + 1);
      RowsLength(f, h, n, lo + 1);
    }
  }

  /** `[m(x) for x in s]`. */
  function MapSeq<T, U>(m: T -> U, s: seq<T>): (r: seq<U>)
    ensures |r| == |s|
    ensures forall k :: 0 <= k < |s| ==> r[k] == m(s[k])
  {
    seq(|s|, k requires 0 <= k < |s| => m(s[k]))
  }

  lemma MapConcat<T, U>(m: T -> U, a: seq<T>, b: seq<T>)
    ensures MapSeq(m, a + b) == MapSeq(m, a) + MapSeq(m, b)
  {
  }

  lemma {:induction false} RowMap<T, U>(f: (nat, nat) -> seq<U>, h: (nat, nat) -> seq<T>, m: T -> U,
                                        n: nat, i: nat, j: nat)
    requires j <= n
    requires forall k :: j <= k < n ==> f(i, k) == MapSeq(m, h(i, k))
    ensures Row(f, n, i, j) == MapSeq(m, Row(h, n, i, j))
    decreases n - j
  {
    if j < n {
      RowMap(f, h, m, n, i, j + 1);
      MapConcat(m, h(i, j), Row(h, n, i, j + 1));
    }
  }

  /** A loop whose pieces are the images of another loop's pieces collects the image of its sequence. */
  lemma {:induction false} RowsMap<T, U>(f: (nat, nat) -> seq<U>, h: (nat, nat) -> seq<T>, m: T -> U, n: nat, lo: nat)
    requires lo <= n
    requires forall i, j :: lo <= i < j < n ==> f(i, j) == MapSeq(m, h(i, j))
    ensures Rows(f, n, lo) == MapSeq(m, Rows(h, n, lo))
    decreases n - lo
  {
    if lo < n {
      RowMap(f, h, m, n, lo, lo + 1);
      RowsMap(f, h, m, n, lo + 1);
      MapConcat(m, Row(h, n, lo, lo + 1), Rows(h, n, lo + 1));
    }
  }

  /** `[x for x in s if p(x)]`. */
  function Filter<T>(p: T -> bool, s: seq<T>): (r: seq<T>)
    ensures |r| <= |s|
    ensures forall k :: 0 <= k < |r| ==> r[k] in s && p(r[k])
    ensures forall k :: 0 <= k < |s| && p(s[k]) ==> s[k] in r
  {
    if |s| == 0 then []
    else
      assert s == [s[0]] + s[1..];
      (if p(s[0]) then [s[0]] else []) + Filter(p, s[1..])
  }

  lemma {:induction false} FilterConcat<T>(p: T -> bool, a: seq<T>, b: seq<T>)
    ensures Filter(p, a + b) == Filter(p, a) + Filter(p, b)
  {
    if |a| == 0 {
      assert a + b == b;
    } else {
      assert (a + b)[0] == a[0];
      assert (a + b)[1..] == a[1..] + b;
      FilterConcat(p, a[1..], b);
    }
  }

  lemma {:induction false} RowFilter<T>(f: (nat, nat) -> seq<T>, h: (nat, nat) -> seq<T>, p: T -> bool,
                                        n: nat, i: nat, j: nat)
    requires j <= n
    requires forall k :: j <= k < n ==> f(i, k) == Filter(p, h(i, k))
    ensures Row(f, n, i, j) == Filter(p, Row(h, n, i, j))
    decreases n - j
  {
    if j < n {
      RowFilter(f, h, p, n, i, j + 1);
      FilterConcat(p, h(i, j), Row(h, n, i, j + 1));
    }
  }

  /** A loop whose pieces are another loop's pieces filtered by `p` collects that loop's sequence filtered by `p`. */
  lemma {:induction false} RowsFilter<T>(f: (nat, nat) -> seq<T>, h: (nat, nat) -> seq<T>, p: T -> bool, n: nat, lo: nat)
    requires lo <= n
    requires forall i, j :: lo <= i < j < n ==> f(i, j) == Filter(p, h(i, j))
    ensures Rows(f, n, lo) == Filter(p, Rows(h, n, lo))
    decreases n - lo
  {
    if lo < n {
      RowFilter(f, h, p, n, lo, lo + 1);
      RowsFilter(f, h, p, n, lo + 1);
      FilterConcat(p, Row(h, n, lo, lo + 1), Rows(h, n, lo + 1));
    }
  }

  /** Over two positions the loop visits the single pair `(0, 1)`. */
  lemma TwoPositions<T>(f: (nat, nat) -> seq<T>)
    ensures Rows(f, 2, 0) == f(0, 1)
  {
    assert Row(f, 2, 0, 1) == f(0, 1) + Row(f, 2, 0, 2);
    assert Rows(f, 2, 1) == Row(f, 2, 1, 2) + Rows(f, 2, 2);
  }
}
