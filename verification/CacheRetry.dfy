/** Retry around a cached read (internal/api/v1/fleet.go, withFleetRetry over internal/fleet/cache.go). */
module CacheRetry {
  import opened Upstream
  import opened Policies
  import opened CacheProtocol
  import opened CacheTheorems
  import opened Retry

  /** Main result: a read that found an entry is never repeated; Do around it makes exactly one attempt,
      whatever later attempts would have given. */
  lemma FoundMeansOneAttempt(cfg: Config, run: Run, i: nat, replies: seq<Reply>, n: nat)
    requires IsRun(cfg, run) && i < |run.acts|
    requires run.acts[i].Return? && Enabled(run.states[i], run.acts[i]) && AnswerAt(run, i).seen.Some?
    requires 0 < n <= |replies| && replies[0] == AnswerAt(run, i).reply
    ensures Attempts(replies, n) == 1
  {
    hide IsRun;
    FoundNeverRetryable(cfg, run, i);
  }
}
