/** `ReplicatedRequestExecutor`: the object that coordinates one replicated request. Its fields
    are updated in place by `execute` and by the handlers of each replica attempt; each handler
    runs as one atomic step, and every step is proved to be the matching step of module
    Coordination, so the theorems of module CoordinationTheorems hold of the object's fields. */
module Executor {
  import opened Types
  import opened Coordination
  import opened ReplicaSelection
  import StatusCodes
  import Utf8

  class ReplicatedRequestExecutor {
    const id: string
    const methodName: string
    const body: Option<Bytes>
    const ack: int
    const from: int

    var successStatusCodes: Option<set<int>>
    var failureCount: nat
    var successCount: nat
    var readyCount: nat
    var values: array<Option<Bytes>>
    var outcome: Outcome
    var hint: Option<Hint>
    /** The calls made to the hints manager, in order. */
    ghost var submitted: seq<Submission>
    /** The completions handled so far, in order. */
    ghost var events: seq<Event>
    ghost var executed: bool

    /** What the request fixes, in the terms of module Coordination. */
    function Config(): Params
      reads this
    {
      Params(ack, from, Utf8.Encode(id), body, successStatusCodes)
    }

    /** The fields, in the terms of module Coordination. */
    ghost function Snapshot(): State
      reads this, values
    {
      State(failureCount, successCount, readyCount, values[..], outcome, hint, submitted)
    }

    /** The object after `execute` has set it up. */
    ghost predicate Valid()
      reads this, values
    {
      executed && ValidParams(Config()) && values.Length == from &&
      HintWellFormed(Config(), Snapshot())
    }

    /** The fields are the run of the completions handled so far, so every theorem of module
        CoordinationTheorems about `Run` applies to them. */
    ghost predicate Traced()
      reads this, values
    {
      Valid() && Snapshot() == Run(Config(), AsWritten, Init(Config()), events)
    }

    constructor (id: string, methodName: string, body: Option<Bytes>, ack: int, from: int)
      requires 1 <= ack <= from
      ensures this.id == id && this.methodName == methodName && this.body == body
      ensures this.ack == ack && this.from == from
      ensures !executed && hint == None && submitted == [] && events == []
    {
      this.id := id;
      this.methodName := methodName;
      this.body := body;
      this.ack := ack;
      this.from := from;
      successStatusCodes := None;
      failureCount, successCount, readyCount := 0, 0, 0;
      values := new Option<Bytes>[0];
      outcome := Pending;
      hint := None;
      submitted := [];
      events := [];
      executed := false;
    }

    /** Completes the future unless it is already completed. */
    method Complete(resolution: Outcome)
      modifies this`outcome
      ensures outcome == if old(outcome) == Pending then resolution else old(outcome)
    {
      if outcome == Pending {
        outcome := resolution;
      }
    }

    /** `execute`: set up the request's state, then walk the key's `from` replicas on the ring.
        Returns whether local work runs and the replicas whose proxy task was admitted; the
        rejected ones have been handled already. */
    method Execute(selfUrl: Url, shards: seq<Url>, nodeIndex: nat, admit: seq<bool>)
      returns (needLocalWork: bool, proxied: seq<Url>)
      requires !executed && hint == None && submitted == []
      requires 1 <= ack <= from && 0 < |shards| && |admit| == from
      modifies this
      ensures Valid() && fresh(values) && successStatusCodes == StatusCodes.SuccessStatusCodes(methodName)
      ensures needLocalWork <==> selfUrl in Chosen(shards, nodeIndex, from)
      ensures proxied == AdmittedReplicas(Chosen(shards, nodeIndex, from), admit, selfUrl)
      ensures Traced() && events == Rejections(RejectedReplicas(Chosen(shards, nodeIndex, from), admit, selfUrl))
    {
      Prepare(Rejections(RejectedReplicas(Chosen(shards, nodeIndex, from), admit, selfUrl)));
      needLocalWork, proxied := WalkReplicas(selfUrl, shards, nodeIndex, admit);
    }

    /** The set-up part of `execute`: look up the success statuses, allocate the slots and zero
        the counters; the future is pending. `log` is the completion log the walk will produce. */
    method Prepare(ghost log: seq<Event>)
      requires !executed && hint == None && submitted == []
      requires 1 <= ack <= from
      modifies this
      ensures Valid() && fresh(values) && successStatusCodes == StatusCodes.SuccessStatusCodes(methodName)
      ensures Snapshot() == Init(Config()) && events == log
    {
      successStatusCodes := StatusCodes.SuccessStatusCodes(methodName);
      values := new Option<Bytes>[from](_ => None);
      failureCount, successCount, readyCount := 0, 0, 0;
      outcome := Pending;
      executed := true;
      events := log;
      assert Snapshot() == Init(Config());
    }

    /** The loop of `execute` over the key's replicas: the local node is remembered in
        `needLocalWork`; every other replica is proxied through the admission gate, whose answer
        for replica `i` is `admit[i]`. */
    method WalkReplicas(selfUrl: Url, shards: seq<Url>, nodeIndex: nat, admit: seq<bool>)
      returns (needLocalWork: bool, proxied: seq<Url>)
      requires Valid() && Snapshot() == Init(Config())
      requires 0 < |shards| && |admit| == from
      modifies this`failureCount, this`outcome, this`hint, this`submitted
      ensures Valid() && Config() == old(Config())
      ensures needLocalWork <==> selfUrl in Chosen(shards, nodeIndex, from)
      ensures proxied == AdmittedReplicas(Chosen(shards, nodeIndex, from), admit, selfUrl)
      ensures Snapshot() == Run(Config(), AsWritten, Init(Config()),
                                Rejections(RejectedReplicas(Chosen(shards, nodeIndex, from), admit, selfUrl)))
    {
      ghost var chosen := Chosen(shards, nodeIndex, from);
      ghost var config := Config();
      ghost var rejected: seq<Url> := [];
      needLocalWork, proxied := false, [];
      var replicaIndex := 0;
      assert chosen[..0] == [] && admit[..0] == [];
      while replicaIndex < from
        invariant 0 <= replicaIndex <= from
        invariant Valid() && Config() == config
        invariant needLocalWork == NeedsLocal(chosen[..replicaIndex], selfUrl)
        invariant proxied == AdmittedReplicas(chosen[..replicaIndex], admit[..replicaIndex], selfUrl)
        invariant rejected == RejectedReplicas(chosen[..replicaIndex], admit[..replicaIndex], selfUrl)
        invariant Snapshot() == Run(config, AsWritten, Init(config), Rejections(rejected))
      {
        var nodeUrlByKey := shards[(nodeIndex + replicaIndex) % |shards|];
        ChosenAt(shards, nodeIndex, from, replicaIndex);
        FiltersSnoc(chosen, admit, selfUrl, replicaIndex);
        if selfUrl == nodeUrlByKey {
          needLocalWork := true;
        } else {
          var admitted := ProxyAndHandle(nodeUrlByKey, admit[replicaIndex]);
          if admitted {
            proxied := proxied + [nodeUrlByKey];
          } else {
            RunRejectionsSnoc(config, rejected, nodeUrlByKey);
            rejected := rejected + [nodeUrlByKey];
          }
        }
        replicaIndex := replicaIndex + 1;
        assert proxied == AdmittedReplicas(chosen[..replicaIndex], admit[..replicaIndex], selfUrl);
        assert rejected == RejectedReplicas(chosen[..replicaIndex], admit[..replicaIndex], selfUrl);
      }
      assert chosen[..from] == chosen && admit[..from] == admit;
      NeedsLocalIsMembership(chosen, selfUrl);
    }

    /** `proxyAndHandle`: offer the replica's task to the admission gate (whose answer is
        `accepted`); a rejected task is a replica failure at once. */
    method ProxyAndHandle(nodeUrlByKey: Url, accepted: bool) returns (taskAdded: bool)
      requires Valid()
      modifies this`failureCount, this`outcome, this`hint, this`submitted
      ensures Valid() && values == old(values)
      ensures taskAdded == accepted && Config() == old(Config())
      ensures Snapshot() == if accepted then old(Snapshot())
                            else Step(Config(), AsWritten, old(Snapshot()), Proxy(nodeUrlByKey, Rejected))
    {
      taskAdded := accepted;
      if !taskAdded {
        HandleReplicaFailure(nodeUrlByKey);
      }
    }

    /** The handlers of an admitted proxy task: the transport either threw, and the exception
        stage handles a replica failure, or delivered a response to the response stage. */
    method OnProxyCompletion(nodeUrlByKey: Url, result: ProxyResult)
      requires Traced() && !result.Rejected?
      modifies this`successCount, this`readyCount, this`outcome, this`failureCount, this`hint, this`submitted, this`events, values
      ensures Traced() && values == old(values) && events == old(events) + [Proxy(nodeUrlByKey, result)]
      ensures Snapshot() == Step(Config(), AsWritten, old(Snapshot()), Proxy(nodeUrlByKey, result))
    {
      RunSnoc(Config(), events, Proxy(nodeUrlByKey, result));
      events := events + [Proxy(nodeUrlByKey, result)];
      if result.TransportError? {
        HandleReplicaFailure(nodeUrlByKey);
      } else {
        OnResponse(nodeUrlByKey, result.status, result.body);
      }
    }

    /** The response stage: a status the method accepts is a success with the response body;
        any other status is a replica failure. */
    method OnResponse(nodeUrlByKey: Url, status: int, responseBody: Bytes)
      requires Valid()
      modifies this`successCount, this`readyCount, this`outcome, this`failureCount, this`hint, this`submitted, values
      ensures Valid() && values == old(values)
      ensures Snapshot() == OnProxyResult(Config(), old(Snapshot()), nodeUrlByKey, Response(status, responseBody))
    {
      if successStatusCodes.None? {
        // the status set is null: the stage throws and nothing is recorded
      } else if status in successStatusCodes.value {
        AddSuccess(Some(responseBody));
      } else {
        HandleReplicaFailure(nodeUrlByKey);
      }
    }

    /** The handlers of the local work: a returned value is a success; an exception is a failure,
        and then, as the handler yields `null`, also a success with an empty value. */
    method OnLocalResult(result: LocalResult)
      requires Traced()
      modifies this`successCount, this`readyCount, this`outcome, this`failureCount, this`hint, this`submitted, this`events, values
      ensures Traced() && values == old(values) && events == old(events) + [Local(result)]
      ensures Snapshot() == Step(Config(), AsWritten, old(Snapshot()), Local(result))
    {
      RunSnoc(Config(), events, Local(result));
      events := events + [Local(result)];
      match result {
        case Returned(value) =>
          AddSuccess(value);
        case Threw =>
          AddFailure();
          AddSuccess(None);
      }
    }

    /** `addSuccess`: rank, store, then count as ready; the `ack`-th ready success completes the
        future with the values. */
    method AddSuccess(value: Option<Bytes>)
      requires Valid()
      modifies this`successCount, this`readyCount, this`outcome, values
      ensures Valid() && values == old(values)
      ensures Snapshot() == Coordination.AddSuccess(Config(), old(Snapshot()), value)
    {
      var success := successCount + 1;
      successCount := success;
      if success - 1 < values.Length {
        values[success - 1] := value;
        var ready := readyCount + 1;
        readyCount := ready;
        if ready == ack {
          Complete(Succeeded);
        }
      }
    }

    /** `handleReplicaFailure`: hint the replica if the body is non-null and non-empty, then count
        a failure. */
    method HandleReplicaFailure(replicaUrl: Url)
      requires Valid()
      modifies this`failureCount, this`outcome, this`hint, this`submitted
      ensures Valid() && values == old(values)
      ensures Snapshot() == Coordination.HandleReplicaFailure(Config(), old(Snapshot()), replicaUrl)
    {
      if body.Some? && |body.value| > 0 {
        AddHint(replicaUrl);
      }
      AddFailure();
    }

    /** `addFailure`: count the failure; when only `ack - 1` attempts can still succeed, fail the
        future with "not enough replicas". */
    method AddFailure()
      requires Valid()
      modifies this`failureCount, this`outcome
      ensures Valid() && values == old(values)
      ensures Snapshot() == Coordination.AddFailure(Config(), old(Snapshot()))
    {
      var failure := failureCount + 1;
      failureCount := failure;
      if from - failure == ack - 1 {
        Complete(Failed);
      }
    }

    /** `addHint`: build the hint on first use from the id's UTF-8 bytes and the body, then hand
        it to the hints manager for the replica. */
    method AddHint(replicaUrl: Url)
      requires Valid() && CarriesBody(Config())
      modifies this`hint, this`submitted
      ensures Valid() && values == old(values)
      ensures Snapshot() == Coordination.AddHint(Config(), old(Snapshot()), replicaUrl)
    {
      if hint.None? {
        hint := Some(Hint(Utf8.Encode(id), body.value));
      }
      submitted := submitted + [Submission(replicaUrl, hint.value)];
    }
  }

  /** Handling one more completion is running one more step. */
  lemma RunSnoc(p: Params, events: seq<Event>, e: Event)
    requires ValidParams(p)
    ensures Run(p, AsWritten, Init(p), events + [e]) == Step(p, AsWritten, Run(p, AsWritten, Init(p), events), e)
  {
    assert (events + [e])[..|events|] == events;
  }

  /** Handling one more rejection is running one more rejection event. */
  lemma RunRejectionsSnoc(p: Params, replicas: seq<Url>, replica: Url)
    requires ValidParams(p)
    ensures Run(p, AsWritten, Init(p), Rejections(replicas + [replica]))
         == Step(p, AsWritten, Run(p, AsWritten, Init(p), Rejections(replicas)), Proxy(replica, Rejected))
  {
    var events := Rejections(replicas + [replica]);
    assert events[..|events| - 1] == Rejections(replicas);
  }
}
