/** `call_llm_with_retry` (crewai_tools/tools/geocoder_tool.py): up to `retries` attempts;
    an error whose text contains "429" on any attempt but the last is followed by a
    pause of 5·2^i seconds and another attempt; any other error, or a 429 on the last
    attempt, propagates. Attempt i's outcome is the oracle `reply(i)`; each pause is
    recorded in a wait log instead of sleeping. */
module LlmRetry {

  import opened Text
  import opened LlmApi

  const DefaultRetries: int := 3

  /** How the call ends: a response, an exception, or (no attempt at all) `None`. */
  datatype RetryResult = Returned(content: string) | Raised(message: string) | NothingReturned

  /** The end of the call, the number of attempts made and the pauses taken, in seconds. */
  datatype RetryRun = RetryRun(result: RetryResult, attempts: nat, waits: seq<nat>)

  predicate IsRateLimited(outcome: CallOutcome)
  {
    outcome.Failure? && Contains(outcome.message, "429")
  }

  function Pow2(n: nat): (p: nat)
    ensures p >= 1
  {
    if n == 0 then 1 else 2 * Pow2(n - 1)
  }

  /** The pause after the rate-limited attempt i (0-based): `(2 ** i) * 5`. */
  function Backoff(i: nat): nat
  {
    5 * Pow2(i)
  }

  /** The pauses after the first n attempts when all of them were rate limited:
      5 seconds first, then twice the previous pause each time. */
  function Backoffs(n: nat): (w: seq<nat>)
    ensures |w| == n
    ensures forall j :: 0 <= j < n ==> w[j] == Backoff(j)
    ensures n > 0 ==> w[0] == 5
    ensures forall j :: 0 < j < n ==> w[j] == 2 * w[j - 1]
  {
    seq(n, j requires 0 <= j < n => Backoff(j))
  }

  /** The call from attempt i on, the counts taken relative to attempt i. */
  function Retry(retries: int, reply: nat -> CallOutcome, i: nat): (run: RetryRun)
    ensures run == RetryRun(NothingReturned, 0, []) || |run.waits| + 1 == run.attempts
    decreases retries - i
  {
    if i >= retries then RetryRun(NothingReturned, 0, [])
    else
      match reply(i)
      case Response(content) => RetryRun(Returned(content), 1, [])
      case Failure(message) =>
        if Contains(message, "429") && i < retries - 1 then
          var rest := Retry(retries, reply, i + 1);
          RetryRun(rest.result, rest.attempts + 1, [Backoff(i)] + rest.waits)
        else RetryRun(Raised(message), 1, [])
  }

  /** A run from attempt i, seen from the first attempt after i rate-limited attempts. */
  function After(i: nat, run: RetryRun): RetryRun
  {
    RetryRun(run.result, run.attempts + i, Backoffs(i) + run.waits)
  }

  /** After k rate-limited attempts that were not the last, the call continues as from attempt k. */
  lemma {:induction false} RateLimitedPrefix(retries: int, reply: nat -> CallOutcome, k: nat)
    requires k == 0 || k < retries
    requires forall j :: 0 <= j < k ==> IsRateLimited(reply(j))
    ensures Retry(retries, reply, 0) == After(k, Retry(retries, reply, k))
    decreases k
  {
    if k == 0 {
      assert Backoffs(0) == [];
    } else {
      RateLimitedPrefix(retries, reply, k - 1);
      assert Backoffs(k - 1) + [Backoff(k - 1)] == Backoffs(k);
    }
  }

  /** The first response is returned at once, after the pauses of the rate-limited attempts before it. */
  lemma FirstResponseReturned(retries: int, reply: nat -> CallOutcome, k: nat)
    requires k < retries
    requires forall j :: 0 <= j < k ==> IsRateLimited(reply(j))
    requires reply(k).Response?
    ensures Retry(retries, reply, 0) == RetryRun(Returned(reply(k).content), k + 1, Backoffs(k))
  {
    RateLimitedPrefix(retries, reply, k);
  }

  /** An error without "429" propagates from the attempt that raised it, with no pause after it. */
  lemma OtherErrorPropagates(retries: int, reply: nat -> CallOutcome, k: nat)
    requires k < retries
    requires forall j :: 0 <= j < k ==> IsRateLimited(reply(j))
    requires reply(k).Failure? && !IsRateLimited(reply(k))
    ensures Retry(retries, reply, 0) == RetryRun(Raised(reply(k).message), k + 1, Backoffs(k))
  {
    RateLimitedPrefix(retries, reply, k);
  }

  /** When every attempt is rate limited there are exactly `retries` attempts and
      `retries` - 1 pauses, and the last error propagates. */
  lemma AllRateLimited(retries: int, reply: nat -> CallOutcome)
    requires retries >= 1
    requires forall j :: 0 <= j < retries ==> IsRateLimited(reply(j))
    ensures IsRateLimited(reply(retries - 1))
    ensures Retry(retries, reply, 0)
            == RetryRun(Raised(reply(retries - 1).message), retries, Backoffs(retries - 1))
  {
    assert IsRateLimited(reply(retries - 1));
    RateLimitedPrefix(retries, reply, retries - 1);
  }

  /** With the default budget and three 429 errors: three attempts, pauses of 5 s then 10 s. */
  lemma DefaultBudgetSchedule(reply: nat -> CallOutcome)
    requires forall j :: 0 <= j < 3 ==> IsRateLimited(reply(j))
    ensures IsRateLimited(reply(2))
    ensures Retry(DefaultRetries, reply, 0) == RetryRun(Raised(reply(2).message), 3, [5, 10])
  {
    AllRateLimited(3, reply);
    assert Backoffs(2) == [5, 10];
  }

  /** Whatever the replies, the call makes between one and `retries` attempts, pausing
      after every attempt but the last, on the 5·2^i schedule; with no budget it makes
      none and returns `None`. */
  lemma {:induction false} RetryShape(retries: int, reply: nat -> CallOutcome, i: nat)
    requires i < retries
    ensures var run := Retry(retries, reply, i);
      && 1 <= run.attempts <= retries - i
      && |run.waits| == run.attempts - 1
      && (forall j :: 0 <= j < |run.waits| ==> run.waits[j] == Backoff(i + j))
      && !run.result.NothingReturned?
    decreases retries - i
  {
    if reply(i).Failure? && Contains(reply(i).message, "429") && i < retries - 1 {
      RetryShape(retries, reply, i + 1);
    }
  }

  lemma NoBudgetNoAttempt(retries: int, reply: nat -> CallOutcome)
    ensures Retry(retries, reply, 0).attempts == 0 <==> retries <= 0
    ensures Retry(retries, reply, 0).result.NothingReturned? <==> retries <= 0
  {
    if retries > 0 {
      RetryShape(retries, reply, 0);
    }
  }

  /** The loop of `call_llm_with_retry`. */
  method CallWithRetry(retries: int, reply: nat -> CallOutcome)
    returns (result: RetryResult, attempts: nat, waits: seq<nat>)
    ensures RetryRun(result, attempts, waits) == Retry(retries, reply, 0)
  {
    result, attempts, waits := NothingReturned, 0, [];
    var i: nat := 0;
    while i < retries
      invariant i == 0 || i < retries
      invariant forall j :: 0 <= j < i ==> IsRateLimited(reply(j))
      invariant attempts == i && waits == Backoffs(i)
      decreases retries - i
    {
      RateLimitedPrefix(retries, reply, i);
      attempts := attempts + 1;
      match reply(i) {
        case Response(content) =>
          result := Returned(content);
          return;
        case Failure(message) =>
          if Contains(message, "429") && i < retries - 1 {
            waits := waits + [Backoff(i)];
            assert waits == Backoffs(i + 1);
            i := i + 1;
          } else {
            result := Raised(message);
            return;
          }
      }
    }
  }
}
