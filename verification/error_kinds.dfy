/** The separation of the two error kinds across both operations. */
module ErrorKinds {
  import opened Results
  import Hyper
  import opened ConsulError
  import Agent
  import KV

  /** For both operations: the error is of the `Http` kind exactly when the
      exchange failed in transport, and a `Consul` error only ever comes
      from a completed response. */
  lemma KindsFollowTheExchange(x: Hyper.Exchange)
    ensures Agent.RegisterOutcome(x).Err? && Agent.RegisterOutcome(x).error.Http? <==> x.Failed?
    ensures KV.PutOutcome(x).Err? && KV.PutOutcome(x).error.Http? <==> x.Failed?
    ensures Agent.RegisterOutcome(x).Err? && Agent.RegisterOutcome(x).error.Consul? ==> x.Completed?
    ensures KV.PutOutcome(x).Err? && KV.PutOutcome(x).error.Consul? ==> x.Completed?
  {
  }
}
