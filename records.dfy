/**
 * The best-result rule of updateBest: a finished game sets a new record
 * when there is none yet, or when it took fewer seconds, or as many seconds
 * and fewer moves.
 */
module Records {
  import opened Wrappers

  datatype Record = Record(seconds: int, moves: int)

  /**
   * The `better` test of updateBest. A better result never takes more
   * seconds than the record, takes fewer moves when it ties on seconds, and
   * is never the record itself.
   */
  predicate Better(r: Record, best: Option<Record>)
    ensures Better(r, best) && best.Some? ==> r.seconds <= best.value.seconds
    ensures Better(r, best) && best.Some? && r.seconds == best.value.seconds ==> r.moves < best.value.moves
    ensures best == Some(r) ==> !Better(r, best)
  {
    || best.None?
    || r.seconds < best.value.seconds
    || (r.seconds == best.value.seconds && r.moves < best.value.moves)
  }

  /** Nothing beats itself: a repeat of the record is not a new record. */
  lemma BetterIrreflexive(r: Record)
    ensures !Better(r, Some(r))
  {
  }

  /** Of two different results exactly one beats the other. */
  lemma BetterTotal(a: Record, b: Record)
    requires a != b
    ensures Better(a, Some(b)) != Better(b, Some(a))
  {
  }

  lemma BetterTransitive(a: Record, b: Record, c: Record)
    requires Better(a, Some(b)) && Better(b, Some(c))
    ensures Better(a, Some(c))
  {
  }

  /** updateBest without the storage: the record kept and whether the result is a new record. */
  function UpdateBest(best: Option<Record>, r: Record): (u: (Option<Record>, bool))
    ensures u.1 <==> Better(r, best)
    ensures u.0 == if u.1 then Some(r) else best
  {
    if Better(r, best) then (Some(r), true) else (best, false)
  }

  /** The record after a run of finished games, one updateBest per game. */
  function BestOf(best: Option<Record>, rs: seq<Record>): Option<Record>
    decreases |rs|
  {
    if |rs| == 0 then best else BestOf(UpdateBest(best, rs[0]).0, rs[1..])
  }

  /**
   * The record after a run of games is the best of them and of the record
   * before: no game beats it, the earlier record does not beat it, and it is
   * the earlier record or one of the games.
   */
  lemma {:induction false} BestOfIsMinimum(best: Option<Record>, rs: seq<Record>)
    ensures |rs| > 0 ==> BestOf(best, rs).Some?
    ensures forall i :: 0 <= i < |rs| ==> !Better(rs[i], BestOf(best, rs))
    ensures best.Some? ==> !Better(best.value, BestOf(best, rs))
    ensures BestOf(best, rs) == best || BestOf(best, rs).value in rs
    decreases |rs|
  {
    if |rs| > 0 {
      var b' := UpdateBest(best, rs[0]).0;
      var final := BestOf(best, rs);
      BestOfIsMinimum(b', rs[1..]);
      assert final == BestOf(b', rs[1..]);
      assert !Better(b'.value, final);
      forall i | 0 <= i < |rs| ensures !Better(rs[i], final) {
        if i > 0 {
          assert rs[i] == rs[1..][i - 1];
        }
      }
      if final != best && final != b' {
        assert final.value in rs[1..];
      }
    }
  }

  /** The results of the worked example: 50 s / 30 moves, then 50 s / 35 moves, then 49 s / 99 moves. */
  lemma RecordExample()
    ensures UpdateBest(None, Record(50, 30)) == (Some(Record(50, 30)), true)
    ensures UpdateBest(Some(Record(50, 30)), Record(50, 35)) == (Some(Record(50, 30)), false)
    ensures UpdateBest(Some(Record(50, 30)), Record(49, 99)) == (Some(Record(49, 99)), true)
  {
  }
}
