/** `checkQuotaError` of `App.tsx`: the game-side classification of a failed
    turn as a quota problem, which opens the quota dialog. */
module Quota {
  import opened Common
  import opened Retry

  /** `toLowerCase` on the ASCII letters; every other character is kept. */
  function LowerChar(c: char): (r: char)
    ensures 'A' <= c <= 'Z' ==> r as int == c as int + 32
    ensures !('A' <= c <= 'Z') ==> r == c
  {
    if 'A' <= c <= 'Z' then (c as int + 32) as char else c
  }

  function Lower(s: string): (r: string)
    ensures |r| == |s|
    ensures forall i :: 0 <= i < |s| ==> r[i] == LowerChar(s[i])
  {
    seq(|s|, i requires 0 <= i < |s| => LowerChar(s[i]))
  }

  /** `error?.message || ''`: a missing error or message reads as the empty text. */
  function MessageOf(error: Option<ApiError>): string
  {
    if error.Some? && error.value.message.Some? then error.value.message.value else ""
  }

  /** Code 429, or a message containing `429`, or a message containing
      `quota` in any letter case. */
  predicate IsQuotaError(error: Option<ApiError>)
  {
    (error.Some? && EffectiveCode(error.value) == Some(429))
    || Contains(MessageOf(error), "429")
    || Contains(Lower(MessageOf(error)), "quota")
  }

  /** The verdict and the quota dialog flag afterwards. */
  datatype QuotaCheck = QuotaCheck(isQuota: bool, showQuotaModal: bool)

  /** `checkQuotaError`: the flag is raised when the error is a quota error,
      and is otherwise left as it was. */
  function CheckQuotaError(error: Option<ApiError>, showQuotaModal: bool): (r: QuotaCheck)
    ensures r.isQuota <==> IsQuotaError(error)
    ensures r.isQuota ==> r.showQuotaModal
    ensures !r.isQuota ==> r.showQuotaModal == showQuotaModal
  {
    var isQuota := IsQuotaError(error);
    QuotaCheck(isQuota, if isQuota then true else showQuotaModal)
  }

  lemma LowerDrop(s: string)
    requires |s| > 0
    ensures Lower(s)[1..] == Lower(s[1..])
  {
  }

  /** A lower-case word found in a text is found in its lower-cased text. */
  lemma {:induction false} ContainsLower(s: string, p: string)
    requires Contains(s, p) && Lower(p) == p
    ensures Contains(Lower(s), p)
    decreases |s|
  {
    if StartsWith(s, p) {
      assert Lower(s)[..|p|] == Lower(s[..|p|]);
    } else {
      ContainsLower(s[1..], p);
      LowerDrop(s);
    }
  }

  /** Every error `retryOperation` treats as a rate limit is a quota error
      for the game: the game's test is the weaker one. */
  lemma RateLimitIsQuota(e: ApiError)
    requires IsRateLimit(e)
    ensures IsQuotaError(Some(e))
  {
    if e.message.Some? && Contains(e.message.value, "quota") {
      assert Lower("quota") == "quota";
      ContainsLower(e.message.value, "quota");
    }
  }

  /** A text without the first character of `p` does not contain `p`. */
  lemma {:induction false} MissingFirstChar(s: string, p: string)
    requires |p| > 0 && forall i :: 0 <= i < |s| ==> s[i] != p[0]
    ensures !Contains(s, p)
    decreases |s|
  {
    if |s| > 0 {
      assert !StartsWith(s, p) by {
        if |p| <= |s| { assert s[..|p|][0] == s[0]; }
      }
      MissingFirstChar(s[1..], p);
    }
  }

  /** The converse fails: a message saying `QUOTA` is a quota error for the
      game, but is rethrown by `retryOperation` without a retry. */
  lemma UpperCaseQuotaNotRetried()
    ensures var e := ApiError(None, None, Some("QUOTA"));
      IsQuotaError(Some(e)) && !IsRateLimit(e) && !Retryable(e)
  {
    var e := ApiError(None, None, Some("QUOTA"));
    assert Lower("QUOTA") == "quota";
    assert StartsWith("quota", "quota");
    MissingFirstChar("QUOTA", "429");
    MissingFirstChar("QUOTA", "quota");
  }
}
