/** The evaluation callback `notify_evaluation_api` (main.py:609-648): five
    POST attempts with a doubling delay, reporting success as a boolean. */
module Notifier {
  import opened Backoff

  const NotifyAttempts := 5

  /** The JSON body posted to the evaluation URL (main.py:614-622). */
  datatype Payload = Payload(
    email: string, task: string, round: int, nonce: string,
    repoUrl: string, commitSha: string, pagesUrl: string)

  /** What one POST gives: an exception, or a status code. */
  datatype PostReply = PostRaised | PostStatus(code: int)

  /** Posts until an attempt is answered 200, at most five times, sleeping
      `delay` after each failed attempt but the last and doubling `delay`
      from 1. Errors are caught, so the outcome is only the boolean. */
  method NotifyEvaluation(payload: Payload, replies: seq<PostReply>)
    returns (ok: bool, attempts: nat, sleeps: seq<nat>)
    requires |replies| >= NotifyAttempts
    ensures ok <==> exists k :: 0 <= k < NotifyAttempts && replies[k] == PostStatus(200)
    ensures 1 <= attempts <= NotifyAttempts
    ensures ok ==>
      replies[attempts - 1] == PostStatus(200) &&
      forall k :: 0 <= k < attempts - 1 ==> replies[k] != PostStatus(200)
    ensures !ok ==> attempts == NotifyAttempts
    ensures sleeps == Delays(attempts - 1)
  {
    var delay := 1;
    sleeps := [];
    var attempt := 0;
    while attempt < NotifyAttempts
      invariant 0 <= attempt <= NotifyAttempts
      invariant forall k :: 0 <= k < attempt ==> replies[k] != PostStatus(200)
      invariant attempt < NotifyAttempts ==> delay == Pow2(attempt) && sleeps == Delays(attempt)
      invariant attempt == NotifyAttempts ==> sleeps == Delays(attempt - 1)
    {
      if replies[attempt] == PostStatus(200) {
        return true, attempt + 1, sleeps;
      }
      if attempt < NotifyAttempts - 1 {
        DelaysGrow(attempt);
        sleeps := sleeps + [delay];
        delay := delay * 2;
      }
      attempt := attempt + 1;
    }
    return false, NotifyAttempts, sleeps;
  }

  /** A failed notification waits 1 + 2 + 4 + 8 = 15 units in all. */
  lemma FailedNotificationWaits()
    ensures Total(Delays(NotifyAttempts - 1)) == 15
  {
    DelaysTotal(NotifyAttempts - 1);
  }
}
