/**
 * The reconnect delay `2**tries + randint(0, 1000) / 1000` seconds, kept in
 * integer milliseconds: `1000 * 2^tries + jitter` with the jitter drawn by
 * the caller's oracle.
 */
module Backoff {
  import opened MqttTypes

  function Pow2(n: nat): (p: nat)
    ensures p >= 1
  {
    if n == 0 then 1 else 2 * Pow2(n - 1)
  }

  /** Delay before the next reconnect attempt after `tries` attempts. */
  function DelayMs(tries: nat, jitter: Jitter): (ms: int)
    ensures 1000 * Pow2(tries) <= ms <= 1000 * Pow2(tries) + 1000
    ensures ms >= 1000
  {
    1000 * Pow2(tries) + jitter
  }

  /** Whatever jitter is drawn, a later attempt never waits less than an
      earlier one: the base doubles while the jitter adds at most one second. */
  lemma {:induction false} DelayNeverShrinks(n: nat, m: nat, j: Jitter, j': Jitter)
    requires n < m
    ensures DelayMs(n, j) <= DelayMs(m, j')
    decreases m - n
  {
    if m == n + 1 {
      assert Pow2(m) == 2 * Pow2(n);
    } else {
      DelayNeverShrinks(n, m - 1, j, 0);
      DelayNeverShrinks(m - 1, m, 0, j');
    }
  }

  /** In whole seconds the delay is `2^tries` and the jitter adds less than
      one second, except that the largest draw reaches exactly one second more. */
  lemma SecondsPart(tries: nat, j: Jitter)
    ensures DelayMs(tries, j) / 1000 == Pow2(tries) + (if j == 1000 then 1 else 0)
    ensures DelayMs(tries, j) % 1000 == (if j == 1000 then 0 else j)
  {
  }
}
