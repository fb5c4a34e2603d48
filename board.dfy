/**
 * The board model of the sliding-tile puzzle: a row-major sequence of n*n
 * integers in which 0 is the blank and 1 .. n*n-1 are the numbered tiles.
 * The width n, a global in script.js, is an explicit parameter.
 */
module Board {

  /** The solved arrangement 1, 2, ..., n*n-1 followed by the blank. */
  function Solved(n: nat): (r: seq<int>)
    ensures |r| == n * n
    ensures forall i :: 0 <= i < n * n - 1 ==> r[i] == i + 1
    ensures n > 0 ==> r[n * n - 1] == 0
  {
    ModBelow(n * n);
    seq(n * n, i requires 0 <= i < n * n => (i + 1) % (n * n))
  }

  /** Remainders by a positive x of 0 .. x. */
  lemma ModBelow(x: int)
    ensures x > 0 ==> x % x == 0
    ensures forall a :: 0 <= a < x ==> a % x == a
  {
    if x > 0 {
      DivMod(x, x, 1, 0);
      forall a | 0 <= a < x ensures a % x == a {
        DivMod(a, x, 0, a);
      }
    }
  }

  /**
   * Every cell but the last holds its index plus one, and the last holds the
   * blank: a solved board holds at each cell i the value solvedArray builds
   * there for a board of its length.
   */
  predicate IsSolved(a: seq<int>)
    ensures IsSolved(a) ==> forall i :: 0 <= i < |a| ==> a[i] == (i + 1) % |a|
  {
    ModBelow(|a|);
    && |a| > 0
    && (forall i :: 0 <= i < |a| - 1 ==> a[i] == i + 1)
    && a[|a| - 1] == 0
  }

  /** Of all boards of width n, exactly the solved arrangement is solved. */
  lemma SolvedIsTheOnlySolved(n: nat, a: seq<int>)
    requires n > 0 && |a| == n * n
    ensures IsSolved(a) <==> a == Solved(n)
  {
    if IsSolved(a) {
      forall i | 0 <= i < |a| ensures a[i] == Solved(n)[i] { }
    }
  }

  /** The scan with early exit that decides whether a board is solved. */
  method IsSolvedScan(a: array<int>) returns (solved: bool)
    ensures solved == IsSolved(a[..])
  {
    if a.Length == 0 {
      return false;
    }
    var i := 0;
    while i < a.Length - 1
      invariant 0 <= i <= a.Length - 1
      invariant forall k :: 0 <= k < i ==> a[k] == k + 1
    {
      if a[i] != i + 1 {
        return false;
      }
      i := i + 1;
    }
    solved := a[a.Length - 1] == 0;
  }

  /** The tiles of a board in row-major order, the blank removed. */
  function NonBlank(s: seq<int>): (r: seq<int>)
    ensures |r| <= |s|
  {
    if |s| == 0 then []
    else NonBlank(s[..|s| - 1]) + (if s[|s| - 1] != 0 then [s[|s| - 1]] else [])
  }

  /** The number of elements of t that are smaller than v. */
  function Below(v: int, t: seq<int>): nat
  {
    if |t| == 0 then 0 else (if t[0] < v then 1 else 0) + Below(v, t[1..])
  }

  /** The number of pairs of positions i < j with s[i] > s[j], counted row by row. */
  function Inversions(s: seq<int>): nat
  {
    if |s| == 0 then 0 else Below(s[0], s[1..]) + Inversions(s[1..])
  }

  /**
   * countInversions: the number of pairs of tiles, the blank ignored, in
   * which the earlier tile holds the larger number.
   */
  function CountInversions(a: seq<int>): (inv: nat)
    ensures inv == |InversionPairs(NonBlank(a))|
  {
    InversionsArePairs(NonBlank(a));
    Inversions(NonBlank(a))
  }

  /** The inverted pairs of s, as a set of position pairs. */
  ghost function InversionPairs(s: seq<int>): set<(int, int)>
  {
    set i, j | 0 <= i < j < |s| && s[i] > s[j] :: (i, j)
  }

  ghost function PairsFrom(s: seq<int>, k: nat): set<(int, int)>
  {
    set i, j | k <= i < j < |s| && s[i] > s[j] :: (i, j)
  }

  ghost function RowPairs(s: seq<int>, i: int, k: nat): set<(int, int)>
  {
    set j | k <= j < |s| && 0 <= i < |s| && s[i] > s[j] :: (i, j)
  }

  lemma {:induction false} RowPairsCount(s: seq<int>, i: nat, k: nat)
    requires i < |s| && k <= |s|
    ensures |RowPairs(s, i, k)| == Below(s[i], s[k..])
    decreases |s| - k
  {
    if k < |s| {
      RowPairsCount(s, i, k + 1);
      var head: set<(int, int)> := if s[i] > s[k] then {(i, k)} else {};
      assert RowPairs(s, i, k) == head + RowPairs(s, i, k + 1);
      assert head * RowPairs(s, i, k + 1) == {};
      assert s[k..][1..] == s[k + 1..];
    } else {
      assert RowPairs(s, i, k) == {};
    }
  }

  lemma {:induction false} PairsFromCount(s: seq<int>, k: nat)
    requires k <= |s|
    ensures |PairsFrom(s, k)| == Inversions(s[k..])
    decreases |s| - k
  {
    if k < |s| {
      PairsFromCount(s, k + 1);
      RowPairsCount(s, k, k + 1);
      assert PairsFrom(s, k) == RowPairs(s, k, k + 1) + PairsFrom(s, k + 1);
      assert RowPairs(s, k, k + 1) * PairsFrom(s, k + 1) == {};
      assert s[k..][1..] == s[k + 1..];
    } else {
      assert PairsFrom(s, k) == {};
    }
  }

  /** Inversions counts exactly the inverted position pairs. */
  lemma InversionsArePairs(s: seq<int>)
    ensures Inversions(s) == |InversionPairs(s)|
  {
    PairsFromCount(s, 0);
    assert s[0..] == s;
    assert PairsFrom(s, 0) == InversionPairs(s);
  }

  /** The nested counting loops of countInversions over the blank-free tiles. */
  method CountInversionsScan(arr: array<int>) returns (inv: nat)
    ensures inv == CountInversions(arr[..])
  {
    var a := NonBlank(arr[..]);
    inv := 0;
    var i := 0;
    while i < |a|
      invariant 0 <= i <= |a|
      invariant inv + Inversions(a[i..]) == Inversions(a)
    {
      ghost var before := inv;
      var j := i + 1;
      while j < |a|
        invariant i + 1 <= j <= |a|
        invariant inv + Below(a[i], a[j..]) == before + Below(a[i], a[i + 1..])
      {
        assert a[j..][1..] == a[j + 1..];
        if a[i] > a[j] {
          inv := inv + 1;
        }
        j := j + 1;
      }
      assert a[i..][1..] == a[i + 1..];
      i := i + 1;
    }
  }

  /** indexOf: the first position holding v, or -1 when there is none. */
  function IndexOf(s: seq<int>, v: int): (r: int)
    ensures -1 <= r < |s|
    ensures r == -1 <==> v !in s
    ensures r >= 0 ==> s[r] == v && forall k :: 0 <= k < r ==> s[k] != v
  {
    if |s| == 0 then -1
    else if s[0] == v then 0
    else
      var rest := IndexOf(s[1..], v);
      if rest == -1 then -1 else rest + 1
  }

  lemma {:induction false} MulAtLeast(d: int, n: int)
    requires d >= 1 && n > 0
    ensures d * n >= n
  {
    if d > 1 {
      MulAtLeast(d - 1, n);
      assert d * n == (d - 1) * n + n;
    }
  }

  lemma MulBetween(d: int, n: int)
    requires n > 0 && -n < d * n < n
    ensures d == 0
  {
    if d >= 1 {
      MulAtLeast(d, n);
      assert false;
    } else if d <= -1 {
      MulAtLeast(-d, n);
      assert false;
    }
  }

  /** Row and column of a cell: the quotient and remainder are unique. */
  lemma DivMod(e: int, n: int, q: int, r: int)
    requires n > 0 && 0 <= r < n && e == q * n + r
    ensures e / n == q && e % n == r
  {
    var q', r' := e / n, e % n;
    assert e == q' * n + r';
    assert (q - q') * n == r' - r;
    MulBetween(q - q', n);
  }

  /** A positive quotient means a dividend of at least the divisor. */
  lemma QuotientPositive(e: int, n: int)
    requires n > 0 && e / n > 0
    ensures e >= n
  {
    MulAtLeast(e / n, n);
  }

  /** A cell of an n-by-n board lies on one of its n rows. */
  lemma RowBound(n: nat, e: int)
    requires n > 0 && 0 <= e < n * n
    ensures 0 <= e / n < n
  {
    var q, r := e / n, e % n;
    assert e == q * n + r;
    if q >= n {
      MulAtLeast(q - n + 1, n);
      assert false;
    }
  }

  lemma LastRow(n: nat)
    requires n > 0
    ensures (n * n - 1) / n == n - 1
  {
    DivMod(n * n - 1, n, n - 1, n - 1);
  }

  /**
   * blankRowFromBottom: n minus the zero-based row of the blank. On a board
   * with a blank that is a row between 1 (the bottom row) and n (the top
   * row); without a blank, indexOf gives -1 and the result is n + 1.
   */
  function BlankRowFromBottom(n: nat, a: seq<int>): (row: int)
    requires n > 0
    ensures |a| == n * n && 0 in a ==> 1 <= row <= n
    ensures 0 in a ==> (n - row) * n <= IndexOf(a, 0) < (n - row) * n + n
    ensures 0 !in a ==> row == n + 1
  {
    var e := IndexOf(a, 0);
    RowOfIndex(n, |a|, e);
    n - e / n
  }

  /** The row of a cell, and the row Math.floor gives the missing index -1. */
  lemma RowOfIndex(n: nat, len: nat, e: int)
    requires n > 0 && -1 <= e < len
    ensures e == -1 ==> e / n == -1
    ensures len == n * n && e >= 0 ==> 0 <= e / n < n
    ensures e >= 0 ==> (e / n) * n <= e < (e / n) * n + n
  {
    assert e == (e / n) * n + e % n;
    if e == -1 {
      DivMod(-1, n, -1, n - 1);
    } else if len == n * n {
      RowBound(n, e);
    }
  }

  /**
   * The parity criterion of isSolvable: for odd n the inversions are even;
   * for even n the parities of the blank's row from the bottom and of the
   * inversions differ.
   */
  predicate ParityAllows(n: nat, inv: int, blankRow: int)
  {
    if n % 2 == 1 then inv % 2 == 0
    else (blankRow % 2 == 0) != (inv % 2 == 0)
  }

  /**
   * isSolvable: for odd n the inversions are even; for even n exactly one of
   * the blank's row from the bottom and the inversion count is odd.
   */
  predicate IsSolvable(n: nat, a: seq<int>)
    requires n > 0
    ensures n % 2 == 1 ==> (IsSolvable(n, a) <==> CountInversions(a) % 2 == 0)
    ensures n % 2 == 0 ==> (IsSolvable(n, a) <==> (BlankRowFromBottom(n, a) + CountInversions(a)) % 2 == 1)
  {
    ParityAllows(n, CountInversions(a), BlankRowFromBottom(n, a))
  }

  /** isSolvable as the program evaluates it on an array. */
  method IsSolvableCheck(n: nat, arr: array<int>) returns (ok: bool)
    requires n > 0
    ensures ok == IsSolvable(n, arr[..])
  {
    var inv := CountInversionsScan(arr);
    if n % 2 == 1 {
      return inv % 2 == 0;
    }
    var blankFromBottom := n - IndexOf(arr[..], 0) / n;
    ok := (blankFromBottom % 2 == 0) != (inv % 2 == 0);
  }

  lemma {:induction false} BelowNone(v: int, t: seq<int>)
    requires forall k :: 0 <= k < |t| ==> v < t[k]
    ensures Below(v, t) == 0
  {
    if |t| > 0 {
      BelowNone(v, t[1..]);
    }
  }

  /** A strictly increasing sequence has no inversions. */
  lemma {:induction false} IncreasingNoInversions(s: seq<int>)
    requires forall i, j :: 0 <= i < j < |s| ==> s[i] < s[j]
    ensures Inversions(s) == 0
  {
    if |s| > 0 {
      BelowNone(s[0], s[1..]);
      IncreasingNoInversions(s[1..]);
    }
  }

  lemma {:induction false} NonBlankOfTiles(s: seq<int>)
    requires 0 !in s
    ensures NonBlank(s) == s
  {
    if |s| > 0 {
      var p := s[..|s| - 1];
      assert 0 !in p && s[|s| - 1] != 0 by {
        assert s == p + [s[|s| - 1]];
      }
      NonBlankOfTiles(p);
      assert s == p + [s[|s| - 1]];
    }
  }

  lemma {:induction false} IndexOfLast(s: seq<int>, v: int)
    requires |s| > 0 && s[|s| - 1] == v && v !in s[..|s| - 1]
    ensures IndexOf(s, v) == |s| - 1
  {
    if |s| > 1 {
      assert s[1..][..|s| - 2] == s[1..|s| - 1];
      IndexOfLast(s[1..], v);
    }
  }

  /** The tiles of the solved arrangement are in increasing order, so it has no inversions. */
  lemma SolvedNoInversions(n: nat)
    requires n > 0
    ensures CountInversions(Solved(n)) == 0
  {
    var s := Solved(n);
    var front := s[..n * n - 1];
    assert s == front + [s[n * n - 1]];
    NonBlankOfTiles(front);
    assert NonBlank(s) == front;
    IncreasingNoInversions(front);
  }

  /** The blank of the solved arrangement is on the bottom row. */
  lemma SolvedBlankRow(n: nat)
    requires n > 0
    ensures BlankRowFromBottom(n, Solved(n)) == 1
  {
    var s := Solved(n);
    IndexOfLast(s, 0);
    LastRow(n);
  }

  /** The solved arrangement is solved and passes the solvability test. */
  lemma SolvedIsSolvable(n: nat)
    requires n > 0
    ensures IsSolved(Solved(n))
    ensures IsSolvable(n, Solved(n))
  {
    SolvedNoInversions(n);
    SolvedBlankRow(n);
  }

  lemma ExampleTiles()
    ensures NonBlank([1, 2, 3, 4, 5, 6, 0, 7, 8]) == [1, 2, 3, 4, 5, 6, 7, 8]
  {
    var s := [1, 2, 3, 4, 5, 6, 0, 7, 8];
    var p := [1, 2, 3, 4, 5, 6];
    assert s[..8] == p + [0, 7] && s[..7] == p + [0] && s[..6] == p;
    assert (p + [0, 7])[..7] == p + [0] && (p + [0])[..6] == p;
    NonBlankOfTiles(p);
  }

  lemma ExampleInversions()
    ensures CountInversions([1, 2, 3, 4, 5, 6, 0, 7, 8]) == 0
  {
    ExampleTiles();
    var t := [1, 2, 3, 4, 5, 6, 7, 8];
    assert forall i, j :: 0 <= i < j < |t| ==> t[i] < t[j] by {
      assert forall i :: 0 <= i < |t| ==> t[i] == i + 1;
    }
    IncreasingNoInversions(t);
  }

  lemma ExampleBlank()
    ensures IndexOf([1, 2, 3, 4, 5, 6, 0, 7, 8], 0) == 6
  {
    var s := [1, 2, 3, 4, 5, 6, 0, 7, 8];
    assert 0 in s && s[6] == 0;
    assert forall k :: 0 <= k < 6 ==> s[k] != 0;
  }

  /** The worked example of a 3x3 board with the blank on the bottom row. */
  lemma ThreeByThreeExample()
    ensures CountInversions([1, 2, 3, 4, 5, 6, 0, 7, 8]) == 0
    ensures BlankRowFromBottom(3, [1, 2, 3, 4, 5, 6, 0, 7, 8]) == 1
    ensures IsSolvable(3, [1, 2, 3, 4, 5, 6, 0, 7, 8])
  {
    ExampleInversions();
    ExampleBlank();
  }

  /** The cells of s with positions i and j exchanged. */
  function Swap(s: seq<int>, i: int, j: int): (r: seq<int>)
    requires 0 <= i < |s| && 0 <= j < |s|
    ensures |r| == |s| && r[i] == s[j] && r[j] == s[i]
    ensures forall k :: 0 <= k < |s| && k != i && k != j ==> r[k] == s[k]
    ensures multiset(r) == multiset(s)
  {
    s[i := s[j]][j := s[i]]
  }

  /** A board of width n: a permutation of the solved arrangement. */
  predicate IsBoard(n: nat, s: seq<int>)
  {
    |s| == n * n && multiset(s) == multiset(Solved(n))
  }

  predicate Distinct(s: seq<int>)
  {
    forall i, j :: 0 <= i < j < |s| ==> s[i] != s[j]
  }

  lemma {:induction false} DistinctOnce(s: seq<int>, v: int)
    requires Distinct(s)
    ensures multiset(s)[v] <= 1
  {
    if |s| > 0 {
      var t := s[..|s| - 1];
      assert s == t + [s[|s| - 1]];
      DistinctOnce(t, v);
      if s[|s| - 1] == v {
        assert v !in t;
      }
    }
  }

  lemma RepeatTwice(s: seq<int>, i: nat, j: nat)
    requires i < j < |s| && s[i] == s[j]
    ensures multiset(s)[s[i]] >= 2
  {
    assert s == s[..j] + [s[j]] + s[j + 1..];
    assert s[i] in s[..j];
  }

  /** A board has a blank and no value twice. */
  lemma BoardIsDistinct(n: nat, s: seq<int>)
    requires n > 0 && IsBoard(n, s)
    ensures Distinct(s) && 0 in s
  {
    var t := Solved(n);
    assert Distinct(t) by {
      forall i, j | 0 <= i < j < |t| ensures t[i] != t[j] {
        if j < n * n - 1 { } else { assert t[i] == i + 1; }
      }
    }
    assert 0 in multiset(t) by { assert t[n * n - 1] == 0; }
    forall i, j | 0 <= i < j < |s| ensures s[i] != s[j] {
      if s[i] == s[j] {
        RepeatTwice(s, i, j);
        DistinctOnce(t, s[i]);
        assert false;
      }
    }
  }
}
