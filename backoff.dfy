/**
 * The exponential backoff shared by the listing fetch and the file download:
 * after a failed attempt number `k` (counting from 0) that is not the last
 * one, the caller waits `2**k` seconds.
 */
module Backoff {

  /** `2**attempt`, the wait after failed attempt `attempt`. */
  function Delay(attempt: nat): (d: nat)
    ensures d >= 1
  {
    if attempt == 0 then 1 else 2 * Delay(attempt - 1)
  }

  /** The waits after failed attempts 0, 1, ..., n-1. */
  function Delays(n: nat): (ds: seq<nat>)
    ensures |ds| == n
  {
    if n == 0 then [] else Delays(n - 1) + [Delay(n - 1)]
  }

  function Sum(s: seq<nat>): nat
  {
    if s == [] then 0 else Sum(s[..|s| - 1]) + s[|s| - 1]
  }

  /** The waits before the attempt after n failures add up to one less than the next wait. */
  lemma {:induction false} TotalWait(n: nat)
    ensures Sum(Delays(n)) + 1 == Delay(n)
  {
    if n > 0 {
      TotalWait(n - 1);
      assert Delays(n)[..n - 1] == Delays(n - 1);
    }
  }

  /** Each wait is twice the one before it. */
  lemma {:induction false} DelaysDouble(n: nat, k: nat)
    requires 0 < k < n
    ensures Delays(n)[k] == 2 * Delays(n)[k - 1]
  {
    if k < n - 1 {
      DelaysDouble(n - 1, k);
    }
  }
}
