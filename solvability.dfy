/**
 * Why the parity test of isSolvable is the right one: every accepted move
 * keeps its verdict. A move along a row leaves the tile order unchanged; a
 * move along a column carries one tile past n-1 others, which changes the
 * inversion parity by n-1, while the blank changes row.
 */
module Solvability {
  import opened Wrappers
  import opened Board
  import opened Moves

  /** s with the neighbours at positions p and p+1 exchanged. */
  function SwapNext(s: seq<int>, p: nat): (r: seq<int>)
    requires p + 1 < |s|
    ensures |r| == |s|
  {
    s[..p] + [s[p + 1], s[p]] + s[p + 2..]
  }

  lemma {:induction false} BelowSwapNext(v: int, t: seq<int>, p: nat)
    requires p + 1 < |t|
    ensures Below(v, SwapNext(t, p)) == Below(v, t)
  {
    var t' := SwapNext(t, p);
    if p == 0 {
      assert t'[1..][1..] == t[1..][1..];
    } else {
      assert t'[0] == t[0];
      assert t'[1..] == SwapNext(t[1..], p - 1);
      BelowSwapNext(v, t[1..], p - 1);
    }
  }

  /** Exchanging two different neighbours adds or removes exactly one inversion. */
  lemma {:induction false} InversionsSwapNext(s: seq<int>, p: nat)
    requires p + 1 < |s| && s[p] != s[p + 1]
    ensures Inversions(SwapNext(s, p)) == Inversions(s) + (if s[p] < s[p + 1] then 1 else -1)
  {
    var s' := SwapNext(s, p);
    if p == 0 {
      var r := s[2..];
      assert s[1..] == [s[1]] + r && s'[1..] == [s[0]] + r;
      assert ([s[1]] + r)[1..] == r && ([s[0]] + r)[1..] == r;
    } else {
      assert s'[0] == s[0];
      assert s'[1..] == SwapNext(s[1..], p - 1);
      BelowSwapNext(s[0], s[1..], p - 1);
      InversionsSwapNext(s[1..], p - 1);
    }
  }

  /** Carrying x from before a block M to after it changes the inversion parity by |M|. */
  lemma {:induction false} InversionsSlide(p: seq<int>, x: int, m: seq<int>, q: seq<int>)
    requires x !in m
    ensures (Inversions(p + [x] + m + q) + |m|) % 2 == Inversions(p + m + [x] + q) % 2
    decreases |m|
  {
    if |m| > 0 {
      var before := p + [x] + m + q;
      var after := p + [m[0]] + [x] + m[1..] + q;
      assert after == SwapNext(before, |p|);
      assert before[|p|] == x && before[|p| + 1] == m[0];
      InversionsSwapNext(before, |p|);
      InversionsSlide(p + [m[0]], x, m[1..], q);
      assert p + [m[0]] + m[1..] + [x] + q == p + m + [x] + q;
    } else {
      assert p + [x] + m + q == p + m + [x] + q;
    }
  }

  lemma {:induction false} NonBlankAppend(a: seq<int>, b: seq<int>)
    ensures NonBlank(a + b) == NonBlank(a) + NonBlank(b)
    decreases |b|
  {
    if |b| == 0 {
      assert a + b == a;
    } else {
      var b' := b[..|b| - 1];
      assert (a + b)[..|a + b| - 1] == a + b';
      NonBlankAppend(a, b');
    }
  }

  lemma NonBlankFive(a: seq<int>, u: int, m: seq<int>, w: int, b: seq<int>)
    ensures NonBlank(a + [u] + m + [w] + b)
         == NonBlank(a) + NonBlank([u]) + NonBlank(m) + NonBlank([w]) + NonBlank(b)
  {
    NonBlankAppend(a + [u] + m + [w], b);
    NonBlankAppend(a + [u] + m, [w]);
    NonBlankAppend(a + [u], m);
    NonBlankAppend(a, [u]);
  }

  lemma NonBlankSingle(x: int)
    ensures NonBlank([x]) == if x == 0 then [] else [x]
  {
    assert [x][..0] == [];
  }

  lemma NonBlankAround(a: seq<int>, x: int, m: seq<int>, b: seq<int>)
    requires x != 0 && 0 !in m
    ensures NonBlank(a + [x] + m + [0] + b) == NonBlank(a) + [x] + m + NonBlank(b)
  {
    NonBlankFive(a, x, m, 0, b);
    NonBlankOfTiles(m);
    NonBlankSingle(0);
    NonBlankSingle(x);
    calc {
      NonBlank(a + [x] + m + [0] + b);
      NonBlank(a) + NonBlank([x]) + NonBlank(m) + NonBlank([0]) + NonBlank(b);
      NonBlank(a) + [x] + m + [] + NonBlank(b);
      { assert NonBlank(a) + [x] + m + [] == NonBlank(a) + [x] + m; }
      NonBlank(a) + [x] + m + NonBlank(b);
    }
  }

  lemma NonBlankAroundBack(a: seq<int>, x: int, m: seq<int>, b: seq<int>)
    requires x != 0 && 0 !in m
    ensures NonBlank(a + [0] + m + [x] + b) == NonBlank(a) + m + [x] + NonBlank(b)
  {
    NonBlankFive(a, 0, m, x, b);
    NonBlankOfTiles(m);
    NonBlankSingle(0);
    NonBlankSingle(x);
    calc {
      NonBlank(a + [0] + m + [x] + b);
      NonBlank(a) + NonBlank([0]) + NonBlank(m) + NonBlank([x]) + NonBlank(b);
      NonBlank(a) + [] + m + [x] + NonBlank(b);
      { assert NonBlank(a) + [] == NonBlank(a); }
      NonBlank(a) + m + [x] + NonBlank(b);
    }
  }

  /** Exchanging the blank with a tile past a block of other tiles changes the inversion parity by the block's length. */
  lemma BlankAcross(s: seq<int>, s': seq<int>, a: seq<int>, x: int, m: seq<int>, b: seq<int>, k: int)
    requires x != 0 && x !in m && 0 !in m && k == |m|
    requires s == a + [x] + m + [0] + b && s' == a + [0] + m + [x] + b
    ensures (CountInversions(s) + k) % 2 == CountInversions(s') % 2
  {
    NonBlankAround(a, x, m, b);
    NonBlankAroundBack(a, x, m, b);
    InversionsSlide(NonBlank(a), x, m, NonBlank(b));
  }

  lemma ParityShiftBack(p: int, q: int, k: int)
    requires (p + k) % 2 == q % 2
    ensures (q + k) % 2 == p % 2
  {
  }

  lemma SplitAt(s: seq<int>, lo: nat, hi: nat)
    requires lo < hi < |s|
    ensures s == s[..lo] + [s[lo]] + s[lo + 1..hi] + [s[hi]] + s[hi + 1..]
    ensures Swap(s, lo, hi) == s[..lo] + [s[hi]] + s[lo + 1..hi] + [s[lo]] + s[hi + 1..]
  {
  }

  lemma MiddleTiles(s: seq<int>, lo: nat, hi: nat, x: int)
    requires lo < hi < |s|
    requires forall k :: lo < k < hi ==> s[k] != 0 && s[k] != x
    ensures x !in s[lo + 1..hi] && 0 !in s[lo + 1..hi]
  {
  }

  lemma AcrossFromBlank(s: seq<int>, s': seq<int>, lo: nat, hi: nat, k: int)
    requires lo < hi < |s| && s[lo] == 0 && s[hi] != 0
    requires forall c :: lo < c < hi ==> s[c] != 0 && s[c] != s[hi]
    requires s' == Swap(s, lo, hi) && k == hi - lo - 1
    ensures (CountInversions(s') + k) % 2 == CountInversions(s) % 2
  {
    var a, x, m, b := s[..lo], s[hi], s[lo + 1..hi], s[hi + 1..];
    assert s' == a + [x] + m + [0] + b && s == a + [0] + m + [x] + b by {
      SplitAt(s, lo, hi);
    }
    MiddleTiles(s, lo, hi, x);
    BlankAcross(s', s, a, x, m, b, k);
  }

  lemma ToBlankParity(s: seq<int>, s': seq<int>, lo: nat, hi: nat, k: int)
    requires lo < hi < |s| && s[lo] != 0 && s[hi] == 0
    requires forall c :: lo < c < hi ==> s[c] != 0 && s[c] != s[lo]
    requires s' == Swap(s, lo, hi) && k == hi - lo - 1
    ensures (CountInversions(s) + k) % 2 == CountInversions(s') % 2
  {
    var a, x, m, b := s[..lo], s[lo], s[lo + 1..hi], s[hi + 1..];
    assert s == a + [x] + m + [0] + b && s' == a + [0] + m + [x] + b by {
      SplitAt(s, lo, hi);
    }
    MiddleTiles(s, lo, hi, x);
    BlankAcross(s, s', a, x, m, b, k);
  }

  lemma AcrossToBlank(s: seq<int>, s': seq<int>, lo: nat, hi: nat, k: int)
    requires lo < hi < |s| && s[lo] != 0 && s[hi] == 0
    requires forall c :: lo < c < hi ==> s[c] != 0 && s[c] != s[lo]
    requires s' == Swap(s, lo, hi) && k == hi - lo - 1
    ensures (CountInversions(s') + k) % 2 == CountInversions(s) % 2
  {
    ToBlankParity(s, s', lo, hi, k);
    ParityShiftBack(CountInversions(s), CountInversions(s'), k);
  }

  /**
   * Exchanging the blank with a tile k + 1 cells further on, past k cells that
   * hold neither the blank nor that tile, changes the inversion parity by k.
   */
  lemma InversionsAcross(s: seq<int>, s': seq<int>, lo: nat, hi: nat, k: int)
    requires lo < hi < |s|
    requires (s[lo] == 0) != (s[hi] == 0)
    requires forall c :: lo < c < hi ==> s[c] != 0 && s[c] != s[lo] && s[c] != s[hi]
    requires s' == Swap(s, lo, hi) && k == hi - lo - 1
    ensures (CountInversions(s') + k) % 2 == CountInversions(s) % 2
  {
    if s[lo] == 0 {
      AcrossFromBlank(s, s', lo, hi, k);
    } else {
      AcrossToBlank(s, s', lo, hi, k);
    }
  }

  /** The parity verdict depends only on the parities of the inversions and of the blank row. */
  lemma ParityOnlyParities(n: nat, inv: int, row: int, inv': int, row': int)
    requires inv % 2 == inv' % 2 && row % 2 == row' % 2
    ensures ParityAllows(n, inv, row) == ParityAllows(n, inv', row')
  {
  }

  /** A move along a row keeps the tile order and the blank's row. */
  lemma RowMoveKeepsVerdict(n: nat, s: seq<int>, s': seq<int>, lo: nat)
    requires n > 0 && lo + 1 < |s| && (lo + 1) / n == lo / n
    requires (s[lo] == 0) != (s[lo + 1] == 0) && s' == Swap(s, lo, lo + 1)
    requires (IndexOf(s, 0) == lo && IndexOf(s', 0) == lo + 1) || (IndexOf(s, 0) == lo + 1 && IndexOf(s', 0) == lo)
    ensures IsSolvable(n, s') == IsSolvable(n, s)
  {
    InversionsAcross(s, s', lo, lo + 1, 0);
    SameRow(n, lo, IndexOf(s, 0), IndexOf(s', 0));
    VerdictKept(n, s, s');
  }

  /** Two cells of the same row have the same quotient. */
  lemma SameRow(n: nat, lo: nat, e: int, e': int)
    requires n > 0 && (lo + 1) / n == lo / n
    requires (e == lo && e' == lo + 1) || (e == lo + 1 && e' == lo)
    ensures e / n == e' / n
  {
  }

  /** Boards with the same inversion parity and the same blank row get the same verdict. */
  lemma VerdictKept(n: nat, s: seq<int>, s': seq<int>)
    requires n > 0 && CountInversions(s) % 2 == CountInversions(s') % 2
    requires IndexOf(s, 0) / n == IndexOf(s', 0) / n
    ensures IsSolvable(n, s') == IsSolvable(n, s)
  {
    ParityOnlyParities(n, CountInversions(s), BlankRowFromBottom(n, s),
      CountInversions(s'), BlankRowFromBottom(n, s'));
  }

  /** The cell below e is on the next row. */
  lemma NextRow(n: nat, e: nat)
    requires n > 0 && e + n < n * n
    ensures (e + n) / n == e / n + 1
  {
    var q, r := e / n, e % n;
    assert e == q * n + r;
    DivMod(e + n, n, q + 1, r);
  }

  /** Flipping the parities of both the inversions and the blank row keeps the verdict when n is even. */
  lemma ColumnVerdict(n: nat, k: int, inv: int, row: int, inv': int, row': int)
    requires k == n - 1 && (inv' + k) % 2 == inv % 2
    requires row' == row + 1 || row' == row - 1
    ensures ParityAllows(n, inv, row) == ParityAllows(n, inv', row')
  {
  }

  /** The blank moving one cell up or down moves its row from the bottom by one. */
  lemma ColumnBlankRows(n: nat, s: seq<int>, s': seq<int>, lo: nat)
    requires n > 0 && (lo + n) / n == lo / n + 1
    requires (IndexOf(s, 0) == lo && IndexOf(s', 0) == lo + n) || (IndexOf(s, 0) == lo + n && IndexOf(s', 0) == lo)
    ensures BlankRowFromBottom(n, s') == BlankRowFromBottom(n, s) + 1
         || BlankRowFromBottom(n, s') == BlankRowFromBottom(n, s) - 1
  {
  }

  /** Boards whose inversion parities differ by n - 1 and whose blanks are one row apart get the same verdict. */
  lemma VerdictFlipped(n: nat, k: int, s: seq<int>, s': seq<int>)
    requires n > 0 && k == n - 1 && (CountInversions(s') + k) % 2 == CountInversions(s) % 2
    requires BlankRowFromBottom(n, s') == BlankRowFromBottom(n, s) + 1
          || BlankRowFromBottom(n, s') == BlankRowFromBottom(n, s) - 1
    ensures IsSolvable(n, s') == IsSolvable(n, s)
  {
    ColumnVerdict(n, k, CountInversions(s), BlankRowFromBottom(n, s),
      CountInversions(s'), BlankRowFromBottom(n, s'));
  }

  /** Carrying a tile past the n - 1 cells of a column move changes the inversion parity by n - 1. */
  lemma ColumnParity(n: nat, k: int, s: seq<int>, s': seq<int>, lo: nat)
    requires lo + n < |s| && (s[lo] == 0) != (s[lo + n] == 0) && s' == Swap(s, lo, lo + n)
    requires forall c :: lo < c < lo + n ==> s[c] != 0 && s[c] != s[lo] && s[c] != s[lo + n]
    requires k == n - 1
    ensures (CountInversions(s') + k) % 2 == CountInversions(s) % 2
  {
    InversionsAcross(s, s', lo, lo + n, k);
  }

  /** A move along a column changes both the inversion parity by n-1 and the blank's row by one. */
  lemma ColumnMoveKeepsVerdict(n: nat, s: seq<int>, s': seq<int>, lo: nat)
    requires n > 0 && lo + n < |s| && (lo + n) / n == lo / n + 1
    requires (s[lo] == 0) != (s[lo + n] == 0) && s' == Swap(s, lo, lo + n)
    requires forall k :: lo < k < lo + n ==> s[k] != 0 && s[k] != s[lo] && s[k] != s[lo + n]
    requires (IndexOf(s, 0) == lo && IndexOf(s', 0) == lo + n) || (IndexOf(s, 0) == lo + n && IndexOf(s', 0) == lo)
    ensures IsSolvable(n, s') == IsSolvable(n, s)
  {
    var k := n - 1;
    ColumnMoveParities(n, k, s, s', lo);
    VerdictFlipped(n, k, s, s');
  }

  /** The two parities a move along a column flips. */
  lemma ColumnMoveParities(n: nat, k: int, s: seq<int>, s': seq<int>, lo: nat)
    requires n > 0 && lo + n < |s| && (lo + n) / n == lo / n + 1
    requires (s[lo] == 0) != (s[lo + n] == 0) && s' == Swap(s, lo, lo + n)
    requires forall k :: lo < k < lo + n ==> s[k] != 0 && s[k] != s[lo] && s[k] != s[lo + n]
    requires (IndexOf(s, 0) == lo && IndexOf(s', 0) == lo + n) || (IndexOf(s, 0) == lo + n && IndexOf(s', 0) == lo)
    requires k == n - 1
    ensures (CountInversions(s') + k) % 2 == CountInversions(s) % 2
    ensures BlankRowFromBottom(n, s') == BlankRowFromBottom(n, s) + 1
         || BlankRowFromBottom(n, s') == BlankRowFromBottom(n, s) - 1
  {
    ColumnParity(n, k, s, s', lo);
    ColumnBlankRows(n, s, s', lo);
  }

  /** The four ways t can neighbour e, each with the row arithmetic it needs. */
  lemma NeighbourSteps(n: nat, e: int, t: int)
    requires n > 0 && IsNeighbour(n, e, t)
    ensures 0 <= e < n * n && 0 <= t < n * n
    ensures || (t == e + 1 && (e + 1) / n == e / n)
            || (t == e - 1 && (t + 1) / n == t / n)
            || (t == e + n && (e + n) / n == e / n + 1)
            || (t == e - n && (t + n) / n == t / n + 1)
  {
    if t == e + 1 && e % n < n - 1 {
      ColumnStep(n, e);
    } else if t == e - 1 && e % n > 0 {
      ColumnStepBack(n, e);
    } else if t == e + n && e / n < n - 1 {
      RowStep(n, e);
    } else {
      RowStepBack(n, e);
    }
  }

  /** A sequence that agrees with s except that the cells e and t are exchanged is Swap(s, lo, hi). */
  lemma ExchangeIsSwap(s: seq<int>, s': seq<int>, e: nat, t: nat, lo: nat, hi: nat)
    requires e < |s| && t < |s| && |s'| == |s| && {lo, hi} == {e, t}
    requires s'[t] == s[e] && s'[e] == s[t]
    requires forall k :: 0 <= k < |s| && k != e && k != t ==> s'[k] == s[k]
    ensures s' == Swap(s, lo, hi)
  {
    assert lo == e || lo == t;
    assert hi == e || hi == t;
  }

  /** In a board without repeats no cell strictly between lo and hi repeats either end. */
  lemma DistinctBetween(s: seq<int>, lo: nat, hi: nat)
    requires Distinct(s) && lo < hi < |s| && (s[lo] == 0 || s[hi] == 0)
    ensures (s[lo] == 0) != (s[hi] == 0)
    ensures forall k :: lo < k < hi ==> s[k] != 0 && s[k] != s[lo] && s[k] != s[hi]
  {
  }

  /** Exchanging the blank at e with a neighbouring tile t keeps the verdict. */
  lemma ExchangeKeepsVerdict(n: nat, s: seq<int>, s': seq<int>, e: nat, t: nat)
    requires n > 0 && Distinct(s) && e < |s| && t < |s| && |s'| == |s|
    requires s[e] == 0 && IndexOf(s, 0) == e && IndexOf(s', 0) == t
    requires s'[t] == s[e] && s'[e] == s[t]
    requires forall k :: 0 <= k < |s| && k != e && k != t ==> s'[k] == s[k]
    requires || (t == e + 1 && (e + 1) / n == e / n)
             || (t == e - 1 && (t + 1) / n == t / n)
             || (t == e + n && (e + n) / n == e / n + 1)
             || (t == e - n && (t + n) / n == t / n + 1)
    ensures IsSolvable(n, s') == IsSolvable(n, s)
  {
    if t == e + 1 && (e + 1) / n == e / n {
      ExchangeIsSwap(s, s', e, t, e, t);
      DistinctBetween(s, e, t);
      RowMoveKeepsVerdict(n, s, s', e);
    } else if t == e - 1 && (t + 1) / n == t / n {
      ExchangeIsSwap(s, s', e, t, t, e);
      DistinctBetween(s, t, e);
      RowMoveKeepsVerdict(n, s, s', t);
    } else if t == e + n && (e + n) / n == e / n + 1 {
      ExchangeIsSwap(s, s', e, t, e, t);
      DistinctBetween(s, e, t);
      ColumnMoveKeepsVerdict(n, s, s', e);
    } else {
      ExchangeIsSwap(s, s', e, t, t, e);
      DistinctBetween(s, t, e);
      ColumnMoveKeepsVerdict(n, s, s', t);
    }
  }

  /**
   * A move keeps the verdict of the solvability test: from the solved
   * arrangement only boards that pass it can be reached, and boards that pass
   * it only lead to boards that pass it.
   */
  lemma MovePreservesSolvable(n: nat, s: seq<int>, t: int)
    requires n > 0 && IsBoard(n, s) && 0 in s && t in Movable(n, s)
    ensures IsSolvable(n, ApplyMove(n, s, t).value) == IsSolvable(n, s)
  {
    var e := IndexOf(s, 0);
    var s' := ApplyMove(n, s, t).value;
    BoardIsDistinct(n, s);
    BlankAfterMove(n, s, t);
    MovableAreNeighbours(n, s);
    NeighbourSteps(n, e, t);
    ExchangeKeepsVerdict(n, s, s', e, t);
  }
}
