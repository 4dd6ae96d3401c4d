/** The coordinator's bookkeeping for one request, as a state machine over values.
    Every completion of a replica attempt (proxied or local) is one atomic step; the steps
    arrive in any order. The two stages that handle a local exception are taken as one step. The class in module Executor is proved to perform exactly these steps. */
module Coordination {
  import opened Types

  /** The state of the future that `execute` returns. `Succeeded` means it was completed with
      the executor's `values` array (the very array, which later steps may still write into). */
  datatype Outcome = Pending | Succeeded | Failed

  /** What one request fixes for its whole life: the quorum `ack`, the fan-out `from`,
      the UTF-8 bytes of the key, the request body (`None` for no body) and the success
      statuses of the request's method (`None` for a method the table does not know). */
  datatype Params = Params(ack: int, from: int, key: Bytes, body: Option<Bytes>, codes: Option<set<int>>)

  /** Executors are assumed to be built with `1 <= ack <= from`; the code that builds them is
      not part of this model. */
  predicate ValidParams(p: Params)
  {
    1 <= p.ack <= p.from
  }

  /** The failure count at which success has become impossible: only `ack - 1` attempts are left. */
  function FailureThreshold(p: Params): int
  {
    p.from - p.ack + 1
  }

  /** The executor's mutable fields, and the log of hints handed to the hints manager. */
  datatype State = State(
    failureCount: nat,
    successCount: nat,
    readyCount: nat,
    values: seq<Option<Bytes>>,
    outcome: Outcome,
    hint: Option<Hint>,
    submitted: seq<Submission>)

  /** The state `execute` sets up: `from` empty slots, zero counters, a pending future, no hint. */
  function Init(p: Params): (s: State)
    requires ValidParams(p)
    ensures |s.values| == p.from && forall i :: 0 <= i < p.from ==> s.values[i].None?
  {
    State(0, 0, 0, seq(p.from, _ => None), Pending, None, [])
  }

  /** A future completes at most once: a completion of a future that is no longer pending is ignored. */
  function Complete(o: Outcome, resolution: Outcome): Outcome
  {
    if o == Pending then resolution else o
  }

  /** `addSuccess` (and the local path's copy of it): take rank `success`, store `v` in slot
      `success - 1`, then count it as ready; the `ack`-th ready success completes the future.
      A rank past the array's end throws before `readyCount` moves, so only `successCount` changes. */
  function AddSuccess(p: Params, s: State, v: Option<Bytes>): (r: State)
    ensures r.successCount == s.successCount + 1 && r.failureCount == s.failureCount
    ensures r.hint == s.hint && r.submitted == s.submitted && |r.values| == |s.values|
    ensures s.successCount < |s.values| ==>
      r.readyCount == s.readyCount + 1 && r.values == s.values[s.successCount := v]
    ensures s.successCount >= |s.values| ==> r.readyCount == s.readyCount && r.values == s.values
    ensures s.outcome != Pending ==> r.outcome == s.outcome
    ensures r.outcome != s.outcome ==> r.outcome == Succeeded && r.readyCount == p.ack
  {
    var success := s.successCount + 1;
    if success - 1 < |s.values| then
      var ready := s.readyCount + 1;
      s.(successCount := success, values := s.values[success - 1 := v], readyCount := ready,
         outcome := if ready == p.ack then Complete(s.outcome, Succeeded) else s.outcome)
    else
      s.(successCount := success)
  }

  /** `addFailure`: count the failure; the failure after which only `ack - 1` attempts remain
      fails the future with "not enough replicas". */
  function AddFailure(p: Params, s: State): (r: State)
    ensures r.failureCount == s.failureCount + 1
    ensures r.successCount == s.successCount && r.readyCount == s.readyCount && r.values == s.values
    ensures r.hint == s.hint && r.submitted == s.submitted
    ensures s.outcome != Pending ==> r.outcome == s.outcome
    ensures r.outcome != s.outcome ==> r.outcome == Failed && r.failureCount == FailureThreshold(p)
  {
    var failure := s.failureCount + 1;
    s.(failureCount := failure,
       outcome := if p.from - failure == p.ack - 1 then Complete(s.outcome, Failed) else s.outcome)
  }

  /** Whether the request carries a body worth handing off: non-null and non-empty. */
  predicate CarriesBody(p: Params)
  {
    p.body.Some? && |p.body.value| > 0
  }

  /** The one hint a request ever builds: its key's bytes and its body. */
  function HintOf(p: Params): Hint
    requires p.body.Some?
  {
    Hint(p.key, p.body.value)
  }

  /** `addHint`: build the hint on first use, then hand the same hint to the hints manager
      for the failing replica. */
  function AddHint(p: Params, s: State, replica: Url): (r: State)
    requires p.body.Some?
    requires s.hint.Some? ==> s.hint.value == HintOf(p)
    ensures r.hint == Some(HintOf(p)) && r.submitted == s.submitted + [Submission(replica, HintOf(p))]
    ensures r.(hint := s.hint, submitted := s.submitted) == s
  {
    var hint := if s.hint.None? then HintOf(p) else s.hint.value;
    s.(hint := Some(hint), submitted := s.submitted + [Submission(replica, hint)])
  }

  /** `handleReplicaFailure`: hint the replica when the body is worth it, then count a failure. */
  function HandleReplicaFailure(p: Params, s: State, replica: Url): (r: State)
    requires HintWellFormed(p, s)
    ensures r.failureCount == s.failureCount + 1
    ensures r.successCount == s.successCount && r.readyCount == s.readyCount && r.values == s.values
    ensures r.submitted == s.submitted + if CarriesBody(p) then [Submission(replica, HintOf(p))] else []
    ensures s.outcome != Pending ==> r.outcome == s.outcome
    ensures r.outcome != s.outcome ==> r.outcome == Failed && r.failureCount == FailureThreshold(p)
  {
    AddFailure(p, if CarriesBody(p) then AddHint(p, s, replica) else s)
  }

  /** How a proxy attempt ends: the admission gate turned the task down, the transport threw,
      or the replica answered with a status and a body. */
  datatype ProxyResult = Rejected | TransportError | Response(status: int, body: Bytes)

  /** How the local work ends: it returned a value (possibly `null`) or it threw. */
  datatype LocalResult = Returned(value: Option<Bytes>) | Threw

  /** One completed attempt. */
  datatype Event = Proxy(replica: Url, proxyResult: ProxyResult) | Local(localResult: LocalResult)

  /** What a failed local attempt does: as the code is written (a failure, then, because the
      exception handler yields `null`, also a success with a `null` value), or as evidently
      intended (a failure only). */
  datatype LocalPolicy = AsWritten | Intended

  /** The handlers chained onto a proxy attempt in `proxyAndHandle`. A transport error is handled
      once by the exception handler; the following stage then throws on the `null` response, which
      nothing observes. An answer to a method the table does not know throws in the same way
      (the status set is `null`) and is recorded nowhere. */
  function OnProxyResult(p: Params, s: State, replica: Url, result: ProxyResult): State
    requires HintWellFormed(p, s)
  {
    match result
    case Rejected => HandleReplicaFailure(p, s, replica)
    case TransportError => HandleReplicaFailure(p, s, replica)
    case Response(status, body) =>
      if p.codes.None? then s
      else if status in p.codes.value then AddSuccess(p, s, Some(body))
      else HandleReplicaFailure(p, s, replica)
  }

  /** What a proxy completion does: a success status stores the body in the next slot; a
      rejection, a transport error or another status counts one failure and hints the replica;
      an answer for a method without a status table is lost. */
  lemma ProxyResultEffect(p: Params, s: State, replica: Url, result: ProxyResult)
    requires HintWellFormed(p, s)
    ensures result.Response? && p.codes.None? ==> OnProxyResult(p, s, replica, result) == s
    ensures var r := OnProxyResult(p, s, replica, result);
      result.Response? && p.codes.Some? && result.status in p.codes.value ==>
      && r.successCount == s.successCount + 1 && r.failureCount == s.failureCount
      && r.submitted == s.submitted
      && (s.successCount < |s.values| ==> r.values == s.values[s.successCount := Some(result.body)])
    ensures var r := OnProxyResult(p, s, replica, result);
      !result.Response? || (p.codes.Some? && result.status !in p.codes.value) ==>
      && r.successCount == s.successCount && r.failureCount == s.failureCount + 1
      && r.values == s.values
      && r.submitted == s.submitted + if CarriesBody(p) then [Submission(replica, HintOf(p))] else []
    ensures s.outcome != Pending ==> OnProxyResult(p, s, replica, result).outcome == s.outcome
  {
  }

  /** The handlers chained onto the local work in `execute`. */
  function OnLocalResult(p: Params, policy: LocalPolicy, s: State, result: LocalResult): (r: State)
    ensures r.successCount == s.successCount + (if result.Returned? || policy == AsWritten then 1 else 0)
    ensures r.failureCount == s.failureCount + (if result.Threw? then 1 else 0)
    ensures r.hint == s.hint && r.submitted == s.submitted
    ensures result.Threw? && policy != AsWritten ==> r.values == s.values
    ensures (result.Returned? || policy == AsWritten) && s.successCount < |s.values| ==>
      r.values == s.values[s.successCount := if result.Returned? then result.value else None]
    ensures s.outcome != Pending ==> r.outcome == s.outcome
  {
    match result
    case Returned(v) => AddSuccess(p, s, v)
    case Threw =>
      if policy == AsWritten then AddSuccess(p, AddFailure(p, s), None) else AddFailure(p, s)
  }

  /** The hint field is either unset or the request's one hint. */
  predicate HintWellFormed(p: Params, s: State)
  {
    s.hint.Some? ==> CarriesBody(p) && s.hint.value == HintOf(p)
  }

  function Step(p: Params, policy: LocalPolicy, s: State, e: Event): (r: State)
    requires HintWellFormed(p, s)
    ensures HintWellFormed(p, r)
    ensures s.outcome != Pending ==> r.outcome == s.outcome
  {
    match e
    case Proxy(replica, result) => OnProxyResult(p, s, replica, result)
    case Local(result) => OnLocalResult(p, policy, s, result)
  }

  /** The state after the completions `events`, in that order. */
  function Run(p: Params, policy: LocalPolicy, s: State, events: seq<Event>): (r: State)
    requires HintWellFormed(p, s)
    ensures HintWellFormed(p, r)
    decreases |events|
  {
    if events == [] then s
    else Step(p, policy, Run(p, policy, s, events[..|events| - 1]), events[|events| - 1])
  }

  /** One request-to-replica completion for each rejected proxy task, in the order `execute` meets them. */
  function Rejections(replicas: seq<Url>): (events: seq<Event>)
    ensures |events| == |replicas|
  {
    seq(|replicas|, i requires 0 <= i < |replicas| => Proxy(replicas[i], Rejected))
  }
}
