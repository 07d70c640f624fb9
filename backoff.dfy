/** The exponential back-off schedules of the completion client
    (main.py:105-106) and the notifier (main.py:645-646). */
module Backoff {

  /** `2 ** n`. */
  function Pow2(n: nat): (r: nat)
    ensures r >= 1
  {
    if n == 0 then 1 else 2 * Pow2(n - 1)
  }

  /** The sleeps taken after the first `n` failed attempts: 1, 2, 4, … */
  function Delays(n: nat): seq<nat> {
    seq(n, i requires 0 <= i < n => Pow2(i))
  }

  /** The total of a sequence of durations. */
  function Total(s: seq<nat>): nat {
    if s == [] then 0 else Total(s[..|s| - 1]) + s[|s| - 1]
  }

  /** One more failure adds one more delay at the end. */
  lemma DelaysGrow(n: nat)
    ensures Delays(n + 1) == Delays(n) + [Pow2(n)]
  {
  }

  /** After `n` delays the time waited is 2^n - 1 units. */
  lemma {:induction false} DelaysTotal(n: nat)
    ensures Total(Delays(n)) + 1 == Pow2(n)
  {
    if n > 0 {
      DelaysTotal(n - 1);
      assert Delays(n)[..n - 1] == Delays(n - 1);
    }
  }
}
