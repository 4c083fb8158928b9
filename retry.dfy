/** `retryOperation` of `services/geminiService.ts`: an operation is retried,
    with a doubling delay, while it fails with a rate-limit or overload error
    and retries remain; any other failure is rethrown at once. */
module Retry {
  import opened Common

  /** The fields of a thrown API error that the code inspects; each may be
      missing. */
  datatype ApiError = ApiError(status: Option<int>, code: Option<int>, message: Option<string>)

  /** `error.status || error.code`: the status unless it is missing or 0 (the
      falsy numbers), and otherwise the code, whatever it is. */
  function EffectiveCode(e: ApiError): (r: Option<int>)
    ensures e.status.Some? && e.status.value != 0 ==> r == e.status
    ensures (e.status.None? || e.status.value == 0) ==> r == e.code
  {
    if e.status.Some? && e.status.value != 0 then e.status else e.code
  }

  /** `p` is a prefix of `s`. */
  predicate StartsWith(s: string, p: string)
  {
    |p| <= |s| && s[..|p|] == p
  }

  /** `s.includes(p)`. */
  predicate Contains(s: string, p: string)
    decreases |s|
  {
    StartsWith(s, p) || (|s| > 0 && Contains(s[1..], p))
  }

  /** `p` occurs in `s` at position `i`. */
  predicate OccursAt(s: string, p: string, i: nat)
  {
    i + |p| <= |s| && s[i..i + |p|] == p
  }

  /** `Contains` agrees with the positional definition of a substring. */
  lemma {:induction false} ContainsIffOccurs(s: string, p: string)
    ensures Contains(s, p) <==> exists i: nat :: OccursAt(s, p, i)
    decreases |s|
  {
    if Contains(s, p) {
      if StartsWith(s, p) {
        assert OccursAt(s, p, 0);
      } else {
        ContainsIffOccurs(s[1..], p);
        var i: nat :| OccursAt(s[1..], p, i);
        assert s[1..][i..i + |p|] == s[i + 1..i + 1 + |p|];
        assert OccursAt(s, p, i + 1);
      }
    }
    if exists i: nat :: OccursAt(s, p, i) {
      var i: nat :| OccursAt(s, p, i);
      if i > 0 {
        assert s[1..][i - 1..i - 1 + |p|] == s[i..i + |p|];
        assert OccursAt(s[1..], p, i - 1);
        ContainsIffOccurs(s[1..], p);
      }
    }
  }

  /** A message that mentions `429` or `quota` (case-sensitive), or an
      effective code of 429. */
  predicate IsRateLimit(e: ApiError)
  {
    EffectiveCode(e) == Some(429)
    || (e.message.Some? && Contains(e.message.value, "429"))
    || (e.message.Some? && Contains(e.message.value, "quota"))
  }

  /** An effective code of 503. */
  predicate IsServerOverload(e: ApiError)
  {
    EffectiveCode(e) == Some(503)
  }

  predicate Retryable(e: ApiError)
  {
    IsRateLimit(e) || IsServerOverload(e)
  }

  /** What one call of the operation does: resolve or throw. */
  datatype Attempt<T> = Ok(value: T) | Err(error: ApiError)

  /** The settled result and the delays waited, in order, between attempts. */
  datatype Outcome<T> = Outcome(result: Attempt<T>, delays: seq<int>)

  /** How many retries `retries` allows: none unless it is positive. */
  function Budget(retries: int): nat
  {
    if retries > 0 then retries else 0
  }

  /** `retryOperation(operation, retries, delay)`, where the `k`-th call of the
      operation (counting from `attempt`) behaves as `calls(k)`. */
  function RetryOperation<T>(calls: nat -> Attempt<T>, attempt: nat, retries: int, delay: int): (r: Outcome<T>)
    ensures |r.delays| <= Budget(retries)
    ensures r.result == calls(attempt + |r.delays|)
    ensures forall j :: attempt <= j < attempt + |r.delays| ==>
      calls(j).Err? && Retryable(calls(j).error)
    ensures r.result.Err? ==> !Retryable(r.result.error) || |r.delays| == Budget(retries)
    decreases Budget(retries)
  {
    match calls(attempt)
    case Ok(v) => Outcome(Ok(v), [])
    case Err(e) =>
      if Retryable(e) && retries > 0 then
        var rest := RetryOperation(calls, attempt + 1, retries - 1, delay * 2);
        Outcome(rest.result, [delay] + rest.delays)
      else Outcome(Err(e), [])
  }

  function Pow2(k: nat): (r: nat)
    ensures r >= 1
  {
    if k == 0 then 1 else 2 * Pow2(k - 1)
  }

  lemma DoubleShift(delay: int, k: nat)
    requires k > 0
    ensures (delay * 2) * Pow2(k - 1) == delay * Pow2(k)
  {
  }

  /** The `k`-th wait is the initial delay doubled `k` times. */
  lemma {:induction false} DelaysDouble<T>(calls: nat -> Attempt<T>, attempt: nat, retries: int, delay: int)
    ensures var ds := RetryOperation(calls, attempt, retries, delay).delays;
      forall k :: 0 <= k < |ds| ==> ds[k] == delay * Pow2(k)
    decreases Budget(retries)
  {
    if calls(attempt).Err? && Retryable(calls(attempt).error) && retries > 0 {
      DelaysDouble(calls, attempt + 1, retries - 1, delay * 2);
      var rest := RetryOperation(calls, attempt + 1, retries - 1, delay * 2).delays;
      PrependDoubling(delay, rest);
    }
  }

  /** A wait of `delay` followed by waits doubling from `2 * delay` doubles
      from `delay`. */
  lemma PrependDoubling(delay: int, rest: seq<int>)
    requires forall k :: 0 <= k < |rest| ==> rest[k] == (delay * 2) * Pow2(k)
    ensures forall k :: 0 <= k < |rest| + 1 ==> ([delay] + rest)[k] == delay * Pow2(k)
  {
    var ds := [delay] + rest;
    forall k | 0 <= k < |ds| ensures ds[k] == delay * Pow2(k) {
      if k > 0 {
        assert ds[k] == rest[k - 1];
        DoubleShift(delay, k);
      }
    }
  }

  /** With the defaults (`retries = 3`, `delay = 1000`): at most four calls,
      the waits being a prefix of 1000, 2000, 4000 ms. */
  lemma DefaultSchedule<T>(calls: nat -> Attempt<T>)
    ensures var r := RetryOperation(calls, 0, 3, 1000);
      |r.delays| <= 3 && r.delays == [1000, 2000, 4000][..|r.delays|]
  {
    DelaysDouble(calls, 0, 3, 1000);
    var ds := RetryOperation(calls, 0, 3, 1000).delays;
    assert Pow2(1) == 2 && Pow2(2) == 4;
    if |ds| == 3 {
      assert ds == [ds[0], ds[1], ds[2]];
    }
  }

  /** An error that is neither a rate limit nor an overload is rethrown by the
      first call, without waiting. */
  lemma NonRetryableRethrown<T>(calls: nat -> Attempt<T>, retries: int, delay: int)
    requires calls(0).Err? && !Retryable(calls(0).error)
    ensures RetryOperation(calls, 0, retries, delay) == Outcome(calls(0), [])
  {
  }
}
