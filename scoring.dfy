/**
 * The two numeric formulas of a guess: the displayed similarity derived from the raw
 * cosine similarity, and the percentile derived from a rank.
 */
module Scoring {

  /** The in-game score `max(0, similarity * 100)`: negative similarities show as 0. */
  function ClampScore(raw: real): (s: real)
    ensures s >= 0.0 && s >= raw * 100.0
    ensures s == 0.0 || s == raw * 100.0
    ensures -1.0 <= raw <= 1.0 ==> s <= 100.0
  {
    if raw * 100.0 > 0.0 then raw * 100.0 else 0.0
  }

  /**
   * The percentile of rank `rank` among `total` guesses:
   * `((total - rank + 1) / total) * 1000`, or 1000 when there are no guesses.
   */
  function Percentile(total: nat, rank: nat): real {
    if total > 0 then ((total - rank + 1) as real / total as real) * 1000.0 else 1000.0
  }

  /** For a rank in [1, total] the percentile lies in (0, 1000]. */
  lemma PercentileRange(total: nat, rank: nat)
    requires 1 <= rank <= total
    ensures 0.0 < Percentile(total, rank) <= 1000.0
  {
    var a := (total - rank + 1) as real;
    var n := total as real;
    var q := a / n;
    assert q * n == a;
    assert 0.0 < q <= 1.0;
  }

  /** A higher rank number always means a strictly lower percentile. */
  lemma PercentileStrictlyDecreasing(total: nat, better: nat, worse: nat)
    requires 1 <= better < worse <= total
    ensures Percentile(total, worse) < Percentile(total, better)
  {
    var n := total as real;
    var qb := (total - better + 1) as real / n;
    var qw := (total - worse + 1) as real / n;
    assert qb * n == (total - better + 1) as real;
    assert qw * n == (total - worse + 1) as real;
    assert (qb - qw) * n == (worse - better) as real;
    assert qw < qb;
  }

  /**
   * The end points: rank 1 gives exactly 1000 and is the only rank that does, and the
   * last rank gives 1000 / total.
   */
  lemma PercentileEnds(total: nat, rank: nat)
    requires 1 <= rank <= total
    ensures Percentile(total, rank) == 1000.0 <==> rank == 1
    ensures rank == total ==> Percentile(total, rank) == 1000.0 / total as real
  {
    var n := total as real;
    assert Percentile(total, 1) == 1000.0 by {
      assert (total - 1 + 1) as real / n == 1.0;
    }
    if rank > 1 {
      PercentileStrictlyDecreasing(total, 1, rank);
    }
    if rank == total {
      assert (1.0 / n) * 1000.0 == 1000.0 / n;
    }
  }
}
