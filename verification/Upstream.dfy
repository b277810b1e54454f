/** Answers and failures of the upstream fleet API (internal/fleet/client.go, internal/fleet/retry.go):
    failures are kinds instead of wrapped errors.
 */
module Upstream {
  /** An answer: which endpoint's type it has and which version of the data it shows. */
  datatype Payload = Payload(endpoint: string, version: nat)

  /** Cancelled and Deadline are context errors; Unavailable is a 503 with its Retry-After. */
  datatype Fault = Cancelled | Deadline | Unavailable(retryAfter: int) | Timeout | Terminal(code: int)

  datatype Reply = Ok(val: Payload) | Fail(fault: Fault)

  /** 503 and network timeouts only. */
  predicate Retryable(f: Fault) { f.Unavailable? || f.Timeout? }
}
