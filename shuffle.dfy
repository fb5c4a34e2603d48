/**
 * randomSolvable: a downward Fisher-Yates shuffle of the solved board,
 * repeated until the outcome passes the solvability test and is not
 * already solved. Math.random is replaced by a supplied stream of draws,
 * each a real number in [0, 1).
 */
module Shuffle {
  import opened Wrappers
  import opened Board
  import opened Moves
  import opened Solvability

  /** A value Math.random can return. */
  predicate IsDraw(x: real)
  {
    0.0 <= x < 1.0
  }

  /** Math.floor(x * (i + 1)): the position exchanged with position i. */
  function DrawIndex(x: real, i: nat): (j: int)
    requires IsDraw(x)
    ensures 0 <= j <= i
  {
    ScaledDraw(x, (i + 1) as real);
    (x * (i + 1) as real).Floor
  }

  lemma ScaledDraw(x: real, m: real)
    requires IsDraw(x) && m >= 1.0
    ensures 0.0 <= x * m < m
  {
  }

  /** Enough draws for one pass over a board of len cells, every one a Math.random value. */
  predicate DrawsFor(len: nat, xs: seq<real>)
  {
    |xs| + 1 >= len && forall t :: 0 <= t < |xs| ==> IsDraw(xs[t])
  }

  /** Positions drawn for the steps i, i - 1, ..., 1, each at most its step. */
  predicate IndicesFor(js: seq<int>, i: nat)
  {
    |js| >= i && forall t :: 0 <= t < i ==> 0 <= js[t] <= i - t
  }

  /** The positions the draws select, step i first. */
  function Indices(xs: seq<real>, i: nat): (js: seq<int>)
    requires i <= |xs| && forall t :: 0 <= t < |xs| ==> IsDraw(xs[t])
    ensures |js| == i && IndicesFor(js, i)
    ensures forall t :: 0 <= t < i ==> js[t] == DrawIndex(xs[t], i - t)
  {
    seq(i, t requires 0 <= t < i => DrawIndex(xs[t], i - t))
  }

  /**
   * The shuffle loop from position i down to position 1; the step at
   * position i exchanges it with the first remaining drawn position.
   */
  function ShuffleFrom(s: seq<int>, js: seq<int>, i: nat): (r: seq<int>)
    requires i < |s| && IndicesFor(js, i)
    ensures |r| == |s|
    decreases i
  {
    if i == 0 then s
    else
      assert forall t :: 0 <= t < i - 1 ==> js[1..][t] == js[t + 1];
      ShuffleFrom(Swap(s, i, js[0]), js[1..], i - 1)
  }

  /** One full pass of the loop over s. */
  function Shuffled(s: seq<int>, xs: seq<real>): (r: seq<int>)
    requires DrawsFor(|s|, xs)
  {
    if |s| == 0 then s else ShuffleFrom(s, Indices(xs, |s| - 1), |s| - 1)
  }

  /** A shuffle only rearranges: the outcome is a permutation of its input. */
  lemma ShuffledIsPermutation(s: seq<int>, xs: seq<real>)
    requires DrawsFor(|s|, xs)
    ensures |Shuffled(s, xs)| == |s| && multiset(Shuffled(s, xs)) == multiset(s)
  {
    if |s| > 0 {
      ShuffleFromPermutes(s, Indices(xs, |s| - 1), |s| - 1);
    }
  }

  /** Each step exchanges two cells, so the loop from any position permutes. */
  lemma {:induction false} ShuffleFromPermutes(s: seq<int>, js: seq<int>, i: nat)
    requires i < |s| && IndicesFor(js, i)
    ensures multiset(ShuffleFrom(s, js, i)) == multiset(s)
    decreases i
  {
    if i > 0 {
      var s' := Swap(s, i, js[0]);
      assert IndicesFor(js[1..], i - 1) by {
        assert forall t :: 0 <= t < i - 1 ==> js[1..][t] == js[t + 1];
      }
      ShuffleFromPermutes(s', js[1..], i - 1);
    }
  }

  /** One step of the loop: position k = i + 1 is exchanged with the drawn position. */
  lemma ShuffleStep(before: seq<int>, after: seq<int>, prev: seq<int>, rest: seq<int>, k: nat, i: nat, target: seq<int>)
    requires k == i + 1 && k < |before| && IndicesFor(prev, k)
    requires after == Swap(before, k, prev[0]) && rest == prev[1..]
    requires ShuffleFrom(before, prev, k) == target
    ensures IndicesFor(rest, i) && ShuffleFrom(after, rest, i) == target
  {
    assert forall t :: 0 <= t < i ==> rest[t] == prev[t + 1];
    assert ShuffleFrom(before, prev, k) == ShuffleFrom(Swap(before, k, prev[0]), prev[1..], k - 1);
  }

  lemma ShuffledUnfold(s: seq<int>, xs: seq<real>, js: seq<int>, i: nat, target: seq<int>)
    requires i + 1 == |s| && DrawsFor(|s|, xs) && js == Indices(xs, i)
    requires target == Shuffled(s, xs)
    ensures IndicesFor(js, i) && ShuffleFrom(s, js, i) == target
  {
  }

  /** The for loop of randomSolvable, exchanging cells of the array in place. */
  method ShuffleInPlace(a: array<int>, xs: seq<real>)
    requires DrawsFor(a.Length, xs)
    modifies a
    ensures a[..] == Shuffled(old(a[..]), xs)
  {
    ghost var target := Shuffled(a[..], xs);
    ghost var js: seq<int> := [];
    var i: int := a.Length - 1;
    if a.Length > 0 {
      js := Indices(xs, i);
      ShuffledUnfold(a[..], xs, js, i, target);
    }
    ghost var rest := js;
    while i > 0
      invariant if a.Length == 0 then i == -1 else 0 <= i < a.Length
      invariant rest == js[a.Length - 1 - i..]
      invariant a.Length > 0 ==> IndicesFor(rest, i) && ShuffleFrom(a[..], rest, i) == target
      invariant a.Length == 0 ==> a[..] == target
    {
      ghost var before, prev, k := a[..], rest, i;
      var j := DrawIndex(xs[a.Length - 1 - i], i);
      assert j == prev[0];
      a[i], a[j] := a[j], a[i];
      rest := rest[1..];
      i := i - 1;
      ShuffleStep(before, a[..], prev, rest, k, i, target);
    }
  }

  /** The draw that makes DrawIndex pick position j at step i. */
  function DrawFor(j: nat, i: nat): (x: real)
    requires j <= i
    ensures IsDraw(x) && DrawIndex(x, i) == j
  {
    var x := j as real / (i + 1) as real;
    assert x * (i + 1) as real == j as real;
    x
  }

  lemma PrefixSwap(s: seq<int>, i: nat, j: nat)
    requires j <= i < |s|
    ensures multiset(Swap(s, i, j)[..i + 1]) == multiset(s[..i + 1])
  {
    var r := Swap(s, i, j);
    assert r[..i + 1] == Swap(s[..i + 1], i, j);
  }

  lemma DropLast(s: seq<int>, p: seq<int>, i: nat)
    requires i < |s| && i < |p| && s[i] == p[i]
    requires multiset(s[..i + 1]) == multiset(p[..i + 1])
    ensures multiset(s[..i]) == multiset(p[..i])
  {
    assert s[..i + 1] == s[..i] + [s[i]];
    assert p[..i + 1] == p[..i] + [p[i]];
    assert multiset(s[..i]) == multiset(s[..i + 1]) - multiset{s[i]};
    assert multiset(p[..i]) == multiset(p[..i + 1]) - multiset{p[i]};
  }

  lemma Present(s: seq<int>, p: seq<int>, i: nat) returns (j: nat)
    requires i < |s| && i < |p|
    requires multiset(s[..i + 1]) == multiset(p[..i + 1])
    ensures j <= i && s[j] == p[i]
  {
    assert p[i] in multiset(p[..i + 1]) by {
      assert p[..i + 1][i] == p[i];
    }
    assert p[i] in s[..i + 1];
    var k :| 0 <= k < i + 1 && s[..i + 1][k] == p[i];
    j := k;
  }

  /** Drawing j first and then rest runs one step and continues from s'. */
  lemma Prepend(s: seq<int>, s': seq<int>, j: int, rest: seq<int>, js: seq<int>, i: nat, h: nat)
    requires h + 1 == i && i < |s| && 0 <= j <= i && s' == Swap(s, i, j)
    requires |rest| == h && IndicesFor(rest, h) && js == [j] + rest
    ensures |js| == i && IndicesFor(js, i)
    ensures ShuffleFrom(s, js, i) == ShuffleFrom(s', rest, h)
  {
    assert js[0] == j && js[1..] == rest;
    assert forall t :: 0 < t < i ==> js[t] == rest[t - 1];
  }

  lemma FirstCellAgrees(s: seq<int>, p: seq<int>)
    requires 0 < |s| == |p| && multiset(s[..1]) == multiset(p[..1])
    requires forall k :: 0 < k < |s| ==> s[k] == p[k]
    ensures s == p
  {
    assert s[..1] == [s[0]] && p[..1] == [p[0]];
    assert multiset([s[0]])[p[0]] > 0;
  }

  /** After moving p[i] into position i, the cells from i upwards agree with p. */
  lemma Settled(s: seq<int>, s': seq<int>, p: seq<int>, i: nat, j: nat, h: nat)
    requires h + 1 == i && j <= i < |s| == |p| && s[j] == p[i] && s' == Swap(s, i, j)
    requires forall k :: i < k < |s| ==> s[k] == p[k]
    ensures forall k :: h < k < |s| ==> s'[k] == p[k]
  {
  }

  /** Positions that lead ShuffleFrom from s to p, when the cells above i already agree. */
  lemma {:induction false} ReachFrom(s: seq<int>, p: seq<int>, i: nat) returns (js: seq<int>)
    requires i < |s| && |p| == |s|
    requires multiset(s[..i + 1]) == multiset(p[..i + 1])
    requires forall k :: i < k < |s| ==> s[k] == p[k]
    ensures |js| == i && IndicesFor(js, i)
    ensures ShuffleFrom(s, js, i) == p
    decreases i
  {
    if i == 0 {
      FirstCellAgrees(s, p);
      js := [];
    } else {
      var j := Present(s, p, i);
      var s' := Swap(s, i, j);
      var h := i - 1;
      PrefixSwap(s, i, j);
      DropLast(s', p, i);
      Settled(s, s', p, i, j, h);
      var rest := ReachFrom(s', p, h);
      js := [j] + rest;
      Prepend(s, s', j, rest, js, i, h);
    }
  }

  /** Draws that select the positions js. */
  function DrawsOf(js: seq<int>, i: nat): (xs: seq<real>)
    requires |js| == i && IndicesFor(js, i)
    ensures |xs| == i && (forall t :: 0 <= t < i ==> IsDraw(xs[t]))
    ensures Indices(xs, i) == js
  {
    seq(i, t requires 0 <= t < i => DrawFor(js[t], i - t))
  }

  /** Every rearrangement of the input is the outcome of some stream of draws. */
  lemma EveryArrangementReachable(s: seq<int>, p: seq<int>)
    requires multiset(p) == multiset(s)
    ensures exists xs :: DrawsFor(|s|, xs) && Shuffled(s, xs) == p
  {
    assert |p| == |multiset(p)| == |s|;
    if |s| == 0 {
      assert DrawsFor(|s|, []) && Shuffled(s, []) == p;
    } else {
      assert s[..|s|] == s && p[..|s|] == p;
      var js := ReachFrom(s, p, |s| - 1);
      var xs := DrawsOf(js, |s| - 1);
      assert DrawsFor(|s|, xs) && Shuffled(s, xs) == p;
    }
  }

  /** The board one attempt of the do-while builds: a shuffled copy of the solved board. */
  function Attempt(n: nat, xs: seq<real>): (r: seq<int>)
    requires DrawsFor(n * n, xs)
    ensures IsBoard(n, r)
  {
    ShuffledIsPermutation(Solved(n), xs);
    Shuffled(Solved(n), xs)
  }

  /** The exit condition of the do-while: solvable and not already solved. */
  predicate Accepted(n: nat, a: seq<int>)
    requires n > 0
  {
    IsSolvable(n, a) && !IsSolved(a)
  }

  /**
   * The do-while leaves the loop with a board that passes the solvability
   * test and differs from the solved arrangement, and never with the solved
   * arrangement itself.
   */
  lemma AcceptedNotSolved(n: nat, a: seq<int>)
    requires n > 0
    ensures Accepted(n, a) ==> IsSolvable(n, a) && a != Solved(n)
    ensures !Accepted(n, Solved(n))
  {
    SolvedIsSolvable(n);
  }

  /** One draw stream per attempt, each long enough for a full pass. */
  predicate AttemptDraws(n: nat, draws: seq<seq<real>>)
  {
    forall k :: 0 <= k < |draws| ==> DrawsFor(n * n, draws[k])
  }

  /** The first position holding true. */
  function FirstTrue(bs: seq<bool>): (r: Option<nat>)
    ensures r.Some? ==> r.value < |bs| && bs[r.value]
    ensures r.Some? ==> forall m :: 0 <= m < r.value ==> !bs[m]
    ensures r.None? <==> forall k :: 0 <= k < |bs| ==> !bs[k]
  {
    if |bs| == 0 then None
    else if bs[0] then Some(0)
    else
      var rest := FirstTrue(bs[1..]);
      assert forall k :: 1 <= k < |bs| ==> bs[k] == bs[1..][k - 1];
      if rest.None? then None else Some(rest.value + 1)
  }

  /** The verdict on each attempt. */
  function Verdicts(n: nat, draws: seq<seq<real>>): (bs: seq<bool>)
    requires n > 0 && AttemptDraws(n, draws)
    ensures |bs| == |draws| && forall k :: 0 <= k < |draws| ==> (bs[k] <==> Accepted(n, Attempt(n, draws[k])))
  {
    seq(|draws|, k requires 0 <= k < |draws| => Accepted(n, Attempt(n, draws[k])))
  }

  /** The position of the first accepted attempt, if any attempt is accepted. */
  function FirstAccepted(n: nat, draws: seq<seq<real>>): (r: Option<nat>)
    requires n > 0 && AttemptDraws(n, draws)
    ensures r.Some? ==> r.value < |draws|
  {
    FirstTrue(Verdicts(n, draws))
  }

  /**
   * The first accepted attempt is accepted and every attempt before it is
   * rejected; there is none exactly when all are rejected.
   */
  lemma FirstAcceptedIsFirst(n: nat, draws: seq<seq<real>>)
    requires n > 0 && AttemptDraws(n, draws)
    ensures var r := FirstAccepted(n, draws);
      r.Some? ==> Accepted(n, Attempt(n, draws[r.value]))
    ensures var r := FirstAccepted(n, draws);
      r.Some? ==> forall m :: 0 <= m < r.value ==> !Accepted(n, Attempt(n, draws[m]))
    ensures FirstAccepted(n, draws).None? <==> forall k :: 0 <= k < |draws| ==> !Accepted(n, Attempt(n, draws[k]))
  {
    var bs := Verdicts(n, draws);
    assert FirstAccepted(n, draws) == FirstTrue(bs);
  }

  /** A fresh array holding the solved arrangement, as solvedArray builds it. */
  method SolvedArray(n: nat) returns (arr: array<int>)
    ensures fresh(arr) && arr[..] == Solved(n)
  {
    arr := new int[n * n](i requires 0 <= i < n * n => (i + 1) % (n * n));
  }

  /** One pass of the do-while loop of randomSolvable: shuffle a solved board and judge it. */
  method TryAttempt(n: nat, xs: seq<real>) returns (arr: array<int>, accepted: bool)
    requires n > 0 && DrawsFor(n * n, xs)
    ensures fresh(arr) && arr[..] == Attempt(n, xs)
    ensures accepted == Accepted(n, Attempt(n, xs))
  {
    arr := SolvedArray(n);
    ShuffleInPlace(arr, xs);
    var solvable := IsSolvableCheck(n, arr);
    var solved := IsSolvedScan(arr);
    accepted := solvable && !solved;
  }

  /**
   * randomSolvable with at most |draws| attempts: found tells whether an
   * attempt was accepted, and then arr holds the board of the first one.
   */
  method RandomSolvable(n: nat, draws: seq<seq<real>>) returns (arr: array<int>, found: bool)
    requires n > 0 && AttemptDraws(n, draws)
    ensures fresh(arr)
    ensures found <==> FirstAccepted(n, draws).Some?
    ensures found ==> arr[..] == Attempt(n, draws[FirstAccepted(n, draws).value])
  {
    arr := SolvedArray(n);
    ghost var verdicts := Verdicts(n, draws);
    var k := 0;
    while k < |draws|
      invariant 0 <= k <= |draws| && fresh(arr)
      invariant forall m :: 0 <= m < k ==> !verdicts[m]
    {
      var accepted;
      arr, accepted := TryAttempt(n, draws[k]);
      VerdictOf(n, draws, k, accepted);
      if accepted {
        FirstTrueAt(verdicts, k);
        return arr, true;
      }
      k := k + 1;
    }
    found := false;
  }

  /** The verdict TryAttempt reaches on attempt k is the k-th verdict. */
  lemma VerdictOf(n: nat, draws: seq<seq<real>>, k: nat, accepted: bool)
    requires n > 0 && AttemptDraws(n, draws) && k < |draws|
    requires accepted == Accepted(n, Attempt(n, draws[k]))
    ensures accepted == Verdicts(n, draws)[k]
  {
  }

  /** A true entry after only false ones is the first true entry. */
  lemma FirstTrueAt(bs: seq<bool>, k: nat)
    requires k < |bs| && bs[k]
    requires forall m :: 0 <= m < k ==> !bs[m]
    ensures FirstTrue(bs) == Some(k)
  {
  }

  /** On the solved board of width two or more, the cell left of the blank is movable. */
  lemma LeftOfBlankMovable(n: nat)
    requires n >= 2
    ensures IndexOf(Solved(n), 0) == n * n - 1
    ensures n * n - 2 in Movable(n, Solved(n))
  {
    var s := Solved(n);
    var e := n * n - 1;
    assert s[e] == 0;
    IndexOfLast(s, 0);
    DivMod(e, n, n - 1, n - 1);
    MovableAreNeighbours(n, s);
    assert IsNeighbour(n, e, e - 1);
  }

  /** For widths of two and more some stream of draws is accepted, so the do-while can end. */
  lemma SomeAttemptAccepted(n: nat)
    requires n >= 2
    ensures exists xs :: DrawsFor(n * n, xs) && Accepted(n, Attempt(n, xs))
  {
    var s := Solved(n);
    SolvedIsSolvable(n);
    LeftOfBlankMovable(n);
    var t := n * n - 2;
    BoardIsDistinct(n, s);
    MovePreservesSolvable(n, s, t);
    var p := ApplyMove(n, s, t).value;
    assert p[n * n - 1] != 0;
    EveryArrangementReachable(s, p);
    var xs :| DrawsFor(|s|, xs) && Shuffled(s, xs) == p;
    assert Attempt(n, xs) == p;
  }
}
