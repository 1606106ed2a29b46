/**
 * The engine's only use of randomness: `Math.round(Math.random() * n)` picks
 * an index in [0, n].  Math.random is any real in [0, 1); Math.round rounds
 * half up.
 */
module Randomness {

  /** One draw of Math.random: some real in [0, 1), chosen nondeterministically. */
  method Random() returns (r: real)
    ensures 0.0 <= r < 1.0
  {
    r :| 0.0 <= r < 1.0;
  }

  /** Math.round: the integer nearest to x, halves going up. */
  function Round(x: real): (n: int)
    ensures x - 0.5 < n as real <= x + 0.5
  {
    (x + 0.5).Floor
  }

  /** Math.round(rnd * n) for a draw rnd of Math.random stays inside [0, n]. */
  function RandomIndex(rnd: real, n: nat): (k: nat)
    requires 0.0 <= rnd < 1.0
    ensures k <= n
  {
    ScaledDrawInRange(rnd, n);
    Round(rnd * n as real)
  }

  lemma ScaledDrawInRange(rnd: real, n: nat)
    requires 0.0 <= rnd < 1.0
    ensures 0.0 <= rnd * n as real <= n as real
  {
    assert rnd * n as real <= 1.0 * n as real;
  }
}
