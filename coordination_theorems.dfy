/** What the coordinator's bookkeeping guarantees over any order of completions. */
module CoordinationTheorems {
  import opened Types
  import opened Coordination
  import opened ReplicaSelection

  /** The attempts one request makes: one per proxied replica, and local work or not. */
  datatype Plan = Plan(remotes: seq<Url>, local: bool)

  /** The plan `execute` makes from the chosen replicas. */
  function PlanOf(chosen: seq<Url>, self: Url): Plan
  {
    Plan(Remotes(chosen, self), self in chosen)
  }

  function Attempts(plan: Plan): nat
  {
    |plan.remotes| + if plan.local then 1 else 0
  }

  /** The replicas named by the proxy completions among `events`, in order. */
  function ProxiedReplicas(events: seq<Event>): seq<Url>
  {
    if events == [] then []
    else
      var e := events[|events| - 1];
      ProxiedReplicas(events[..|events| - 1]) + if e.Proxy? then [e.replica] else []
  }

  /** How many local completions there are among `events`. */
  function LocalCount(events: seq<Event>): nat
  {
    if events == [] then 0
    else LocalCount(events[..|events| - 1]) + if events[|events| - 1].Local? then 1 else 0
  }

  /** A schedule the plan can produce: each proxied replica completes at most as often as it
      was proxied, and the local work completes at most once, and only if it was scheduled. */
  predicate WellFormed(plan: Plan, events: seq<Event>)
  {
    multiset(ProxiedReplicas(events)) <= multiset(plan.remotes) &&
    LocalCount(events) <= if plan.local then 1 else 0
  }

  /** Whether a proxy completion is a replica answering with one of the method's success statuses. */
  predicate ProxySucceeded(p: Params, e: Event)
  {
    e.Proxy? && e.proxyResult.Response? && p.codes.Some? && e.proxyResult.status in p.codes.value
  }

  /** The value one completion records as a success, if any. */
  function RecordedBy(p: Params, policy: LocalPolicy, e: Event): (d: seq<Option<Bytes>>)
    ensures |d| <= 1
  {
    if ProxySucceeded(p, e) then [Some(e.proxyResult.body)]
    else if e.Local? && e.localResult.Returned? then [e.localResult.value]
    else if e.Local? && policy == AsWritten then [None]
    else []
  }

  /** The replica one completion reports as failed, if any. */
  function FailedBy(p: Params, e: Event): (d: seq<Url>)
    ensures |d| <= 1
  {
    if e.Proxy? && !ProxySucceeded(p, e) && !(e.proxyResult.Response? && p.codes.None?) then [e.replica]
    else []
  }

  /** The values the completions record as successes, in the order they complete. */
  function Recorded(p: Params, policy: LocalPolicy, events: seq<Event>): seq<Option<Bytes>>
  {
    if events == [] then []
    else Recorded(p, policy, events[..|events| - 1]) + RecordedBy(p, policy, events[|events| - 1])
  }

  /** The replicas whose attempt failed (rejected, transport error or unexpected status), in order. */
  function FailedReplicas(p: Params, events: seq<Event>): seq<Url>
  {
    if events == [] then []
    else FailedReplicas(p, events[..|events| - 1]) + FailedBy(p, events[|events| - 1])
  }

  /** How many times the local work threw. */
  function LocalThrows(events: seq<Event>): nat
  {
    if events == [] then 0
    else LocalThrows(events[..|events| - 1]) + if events[|events| - 1] == Local(Threw) then 1 else 0
  }

  /** How many attempts genuinely succeeded: a replica answered with a success status, or the
      local work returned. */
  function Successes(p: Params, events: seq<Event>): nat
  {
    if events == [] then 0
    else
      var e := events[|events| - 1];
      Successes(p, events[..|events| - 1]) + if ProxySucceeded(p, e) || (e.Local? && e.localResult.Returned?) then 1 else 0
  }

  lemma {:induction false} SubMultisetSize(a: multiset<Url>, b: multiset<Url>)
    requires a <= b
    ensures |a| <= |b|
    decreases |a|
  {
    if a != multiset{} {
      var x :| x in a;
      SubMultisetSize(a - multiset{x}, b - multiset{x});
    }
  }

  lemma {:induction false} EventsSplit(events: seq<Event>)
    ensures |events| == |ProxiedReplicas(events)| + LocalCount(events)
  {
    if events != [] {
      EventsSplit(events[..|events| - 1]);
    }
  }

  /** A well-formed schedule has no more completions than the plan has attempts. */
  lemma ScheduleLength(plan: Plan, events: seq<Event>)
    requires WellFormed(plan, events)
    ensures |events| <= Attempts(plan)
  {
    EventsSplit(events);
    SubMultisetSize(multiset(ProxiedReplicas(events)), multiset(plan.remotes));
  }

  /** The counters agree, and the future is pending exactly while neither threshold is reached:
      it is completed with the values once `ack` successes are ready, and failed once
      `from - ack + 1` failures are counted. */
  predicate Consistent(p: Params, s: State)
  {
    s.readyCount == s.successCount && |s.values| == p.from &&
    (s.outcome == Pending <==> s.successCount < p.ack && s.failureCount < FailureThreshold(p)) &&
    (s.outcome == Succeeded ==> s.successCount >= p.ack) &&
    (s.outcome == Failed ==> s.failureCount >= FailureThreshold(p))
  }

  lemma AddSuccessConsistent(p: Params, s: State, v: Option<Bytes>)
    requires ValidParams(p) && Consistent(p, s) && s.successCount < p.from
    ensures Consistent(p, AddSuccess(p, s, v))
  {
  }

  lemma AddFailureConsistent(p: Params, s: State)
    requires ValidParams(p) && Consistent(p, s)
    ensures Consistent(p, AddFailure(p, s))
  {
  }

  /** One completion moves the counters by what it records and reports, and the future stays
      consistent with the counters. */
  lemma StepEffect(p: Params, policy: LocalPolicy, s: State, e: Event)
    requires ValidParams(p) && HintWellFormed(p, s) && Consistent(p, s) && s.successCount < p.from
    ensures var r := Step(p, policy, s, e); var d := RecordedBy(p, policy, e);
      && Consistent(p, r)
      && r.successCount == s.successCount + |d|
      && r.failureCount == s.failureCount + |FailedBy(p, e)| + (if e == Local(Threw) then 1 else 0)
  {
    match e
    case Proxy(replica, result) =>
      var s' := if CarriesBody(p) then AddHint(p, s, replica) else s;
      AddFailureConsistent(p, s');
      AddSuccessConsistent(p, s, if result.Response? then Some(result.body) else None);
    case Local(result) =>
      AddSuccessConsistent(p, s, if result.Returned? then result.value else None);
      AddFailureConsistent(p, s);
      if result == Threw && policy == AsWritten {
        AddSuccessConsistent(p, AddFailure(p, s), None);
      }
  }

  /** After any schedule of at most `from` completions (every well-formed one, by `ScheduleLength`
      and `PlanFitsValues`): the success and ready counters both equal the number of recorded
      successes, which never exceeds `from` (so every slot index is in bounds); the failure
      counter counts failed replicas and local exceptions; and the future is resolved exactly as
      `Consistent` says. */
  lemma {:induction false} RunConsistent(p: Params, policy: LocalPolicy, events: seq<Event>)
    requires ValidParams(p) && |events| <= p.from
    ensures var r := Run(p, policy, Init(p), events);
      && Consistent(p, r)
      && |Recorded(p, policy, events)| <= |events|
      && r.successCount == |Recorded(p, policy, events)|
      && r.failureCount == |FailedReplicas(p, events)| + LocalThrows(events)
  {
    if events != [] {
      var n := |events| - 1;
      var prefix, e := events[..n], events[n];
      RunConsistent(p, policy, prefix);
      var prev := Run(p, policy, Init(p), prefix);
      StepEffect(p, policy, prev, e);
      assert Recorded(p, policy, events) == Recorded(p, policy, prefix) + RecordedBy(p, policy, e);
      assert FailedReplicas(p, events) == FailedReplicas(p, prefix) + FailedBy(p, e);
    }
  }

  /** A completion that records a value writes it into the first free slot and nowhere else. */
  lemma StepValues(p: Params, policy: LocalPolicy, s: State, e: Event)
    requires HintWellFormed(p, s) && s.successCount < |s.values|
    ensures var d := RecordedBy(p, policy, e);
      Step(p, policy, s, e).values == if d == [] then s.values else s.values[s.successCount := d[0]]
  {
  }

  /** After any schedule of at most `from` completions, slot `i` holds the `i+1`-th recorded
      success value and the slots past the recorded ones are still empty. */
  lemma {:induction false} RunValues(p: Params, policy: LocalPolicy, events: seq<Event>)
    requires ValidParams(p) && |events| <= p.from
    ensures var r := Run(p, policy, Init(p), events); var rec := Recorded(p, policy, events);
      |r.values| == p.from && |rec| <= p.from &&
      forall i :: 0 <= i < p.from ==> r.values[i] == if i < |rec| then rec[i] else None
  {
    RunConsistent(p, policy, events);
    if events != [] {
      var n := |events| - 1;
      RunValues(p, policy, events[..n]);
      RunConsistent(p, policy, events[..n]);
      var prev := Run(p, policy, Init(p), events[..n]);
      StepValues(p, policy, prev, events[n]);
      var d := RecordedBy(p, policy, events[n]);
      var recPrev := Recorded(p, policy, events[..n]);
      var rec := Recorded(p, policy, events);
      var r := Run(p, policy, Init(p), events);
      assert rec == recPrev + d;
      assert prev.successCount == |recPrev|;
      forall i | 0 <= i < p.from
        ensures r.values[i] == if i < |rec| then rec[i] else None
      {
        if i < |recPrev| {
          assert rec[i] == recPrev[i];
        }
      }
    }
  }

  /** The future is resolved exactly once: a completion that arrives after the future was resolved,
      success or failure, leaves the resolution as it was. */
  lemma {:induction false} RunWriteOnce(p: Params, policy: LocalPolicy, s: State, events: seq<Event>, k: nat)
    requires HintWellFormed(p, s) && k <= |events|
    requires Run(p, policy, s, events[..k]).outcome != Pending
    ensures Run(p, policy, s, events).outcome == Run(p, policy, s, events[..k]).outcome
    decreases |events| - k
  {
    if k == |events| {
      assert events[..k] == events;
    } else {
      var n := |events| - 1;
      assert events[..k] == events[..n][..k];
      RunWriteOnce(p, policy, s, events[..n], k);
      assert Run(p, policy, s, events) == Step(p, policy, Run(p, policy, s, events[..n]), events[n]);
    }
  }

  lemma {:induction false} RecordedPrefix(p: Params, policy: LocalPolicy, events: seq<Event>, k: nat)
    requires k <= |events|
    ensures Recorded(p, policy, events[..k]) <= Recorded(p, policy, events)
    decreases |events| - k
  {
    if k == |events| {
      assert events[..k] == events;
    } else {
      var n := |events| - 1;
      assert events[..k] == events[..n][..k];
      RecordedPrefix(p, policy, events[..n], k);
    }
  }

  /** With each handler one atomic step, the values a succeeded future hands out are final: the
      first `ack` slots of the array that completed the future keep their values whatever
      completes afterwards. Handlers that interleave inside `addSuccess` break this; module
      `AddSuccessRace` shows how. */
  lemma SucceededValuesStable(p: Params, policy: LocalPolicy, plan: Plan, events: seq<Event>, k: nat)
    requires ValidParams(p) && WellFormed(plan, events) && Attempts(plan) <= p.from && k <= |events|
    requires Run(p, policy, Init(p), events[..k]).outcome == Succeeded
    ensures var before := Run(p, policy, Init(p), events[..k]).values;
      var after := Run(p, policy, Init(p), events).values;
      |before| == |after| == p.from && before[..p.ack] == after[..p.ack]
  {
    ScheduleLength(plan, events);
    RunConsistent(p, policy, events[..k]);
    RunValues(p, policy, events[..k]);
    RunValues(p, policy, events);
    RecordedPrefix(p, policy, events, k);
  }

  /** Resolution depends only on the counts: the future stays pending exactly while fewer than
      `ack` values are recorded and fewer than `from - ack + 1` failures are counted; a success
      has `ack` recorded values behind it and a failure has the threshold of failures. */
  lemma RunOutcome(p: Params, policy: LocalPolicy, plan: Plan, events: seq<Event>)
    requires ValidParams(p) && WellFormed(plan, events) && Attempts(plan) <= p.from
    ensures var r := Run(p, policy, Init(p), events);
      var successes := |Recorded(p, policy, events)|;
      var failures := |FailedReplicas(p, events)| + LocalThrows(events);
      && (r.outcome == Pending <==> successes < p.ack && failures < p.from - p.ack + 1)
      && (r.outcome == Succeeded ==> successes >= p.ack)
      && (r.outcome == Failed ==> failures >= p.from - p.ack + 1)
  {
    ScheduleLength(plan, events);
    RunConsistent(p, policy, events);
  }

  /** Each completion is at most one of a genuine success, a failed replica and a local exception. */
  lemma {:induction false} CountsBounded(p: Params, events: seq<Event>)
    ensures Successes(p, events) + |FailedReplicas(p, events)| + LocalThrows(events) <= |events|
  {
    if events != [] {
      CountsBounded(p, events[..|events| - 1]);
    }
  }

  /** If at least `ack` attempts genuinely succeed, the request succeeds, whichever way a local
      exception is counted and in whatever order the completions arrive. */
  lemma EnoughSuccessesSucceed(p: Params, policy: LocalPolicy, plan: Plan, events: seq<Event>)
    requires ValidParams(p) && WellFormed(plan, events) && Attempts(plan) <= p.from
    requires Successes(p, events) >= p.ack
    ensures Run(p, policy, Init(p), events).outcome == Succeeded
  {
    ScheduleLength(plan, events);
    RunConsistent(p, policy, events);
    RecordedCounts(p, events);
    CountsBounded(p, events);
  }

  /** As intended, the successes and failures counted never exceed the `from` attempts. */
  lemma IntendedCountsWithinFrom(p: Params, plan: Plan, events: seq<Event>)
    requires ValidParams(p) && WellFormed(plan, events) && Attempts(plan) <= p.from
    ensures var r := Run(p, Intended, Init(p), events); r.successCount + r.failureCount <= p.from
  {
    ScheduleLength(plan, events);
    RunConsistent(p, Intended, events);
    RecordedCounts(p, events);
    CountsBounded(p, events);
  }

  /** Every completion of a request whose method the table knows is counted at least once. */
  lemma {:induction false} EveryCompletionCounts(p: Params, policy: LocalPolicy, events: seq<Event>)
    requires p.codes.Some?
    ensures |Recorded(p, policy, events)| + |FailedReplicas(p, events)| + LocalThrows(events) >= |events|
  {
    if events != [] {
      EveryCompletionCounts(p, policy, events[..|events| - 1]);
    }
  }

  /** Once every attempt has completed, the future is resolved, provided the request's method has a
      status table and the plan makes `from` attempts (the local node is chosen at most once). */
  lemma AllAttemptsResolve(p: Params, policy: LocalPolicy, plan: Plan, events: seq<Event>)
    requires ValidParams(p) && p.codes.Some? && Attempts(plan) == p.from
    requires WellFormed(plan, events) && |events| == Attempts(plan)
    ensures Run(p, policy, Init(p), events).outcome != Pending
  {
    RunConsistent(p, policy, events);
    EveryCompletionCounts(p, policy, events);
  }

  /** With distinct shard URLs and `from` no larger than the ring, `execute` plans exactly `from`
      attempts, so every request of a known method is eventually resolved. */
  lemma PlanMakesFromAttempts(shards: seq<Url>, nodeIndex: nat, from: nat, self: Url)
    requires 0 < |shards| && from <= |shards|
    requires forall i, j :: 0 <= i < j < |shards| ==> shards[i] != shards[j]
    ensures Attempts(PlanOf(Chosen(shards, nodeIndex, from), self)) == from
  {
    var chosen := Chosen(shards, nodeIndex, from);
    ChosenDistinct(shards, nodeIndex, from);
    DistinctOccursOnce(chosen, self);
    AttemptCount(chosen, self);
  }

  /** Any plan `execute` makes has at most `from` attempts, so every slot index stays in bounds. */
  lemma PlanFitsValues(chosen: seq<Url>, self: Url)
    ensures Attempts(PlanOf(chosen, self)) <= |chosen|
  {
    AttemptCount(chosen, self);
  }

  /** The hint manager calls a run makes: the request's one hint, for each failed replica in turn. */
  function Submissions(p: Params, replicas: seq<Url>): seq<Submission>
    requires p.body.Some?
  {
    seq(|replicas|, i requires 0 <= i < |replicas| => Submission(replicas[i], HintOf(p)))
  }

  lemma StepHints(p: Params, policy: LocalPolicy, s: State, e: Event)
    requires HintWellFormed(p, s)
    ensures var r := Step(p, policy, s, e); var f := FailedBy(p, e);
      && r.submitted == s.submitted + (if CarriesBody(p) && f != [] then [Submission(f[0], HintOf(p))] else [])
      && r.hint == (if CarriesBody(p) && f != [] then Some(HintOf(p)) else s.hint)
  {
  }

  /** Hinted handoff, with each handler one atomic step: a request whose body is non-null and
      non-empty hands the hints manager one call per failed replica (admission rejection,
      transport error or unexpected status), in the order they fail, each with the same hint of
      the key's bytes and the body; any other request, and any local exception, hands it nothing.
      The hint exists exactly when a call was made. Two failures that interleave inside `addHint`
      can pass on the hint before its fields are set, which this lemma does not cover. */
  lemma {:induction false} RunHints(p: Params, policy: LocalPolicy, events: seq<Event>)
    requires ValidParams(p)
    ensures var r := Run(p, policy, Init(p), events); var failed := FailedReplicas(p, events);
      && (CarriesBody(p) ==> r.submitted == Submissions(p, failed))
      && (!CarriesBody(p) ==> r.submitted == [])
      && (r.hint.Some? <==> CarriesBody(p) && failed != [])
      && (r.hint.Some? ==> r.hint.value == HintOf(p))
  {
    if events != [] {
      var n := |events| - 1;
      RunHints(p, policy, events[..n]);
      StepHints(p, policy, Run(p, policy, Init(p), events[..n]), events[n]);
      if CarriesBody(p) {
        var before := FailedReplicas(p, events[..n]);
        assert FailedReplicas(p, events) == before + FailedBy(p, events[n]);
        if FailedBy(p, events[n]) != [] {
          assert Submissions(p, before + FailedBy(p, events[n]))
              == Submissions(p, before) + [Submission(FailedBy(p, events[n])[0], HintOf(p))];
        } else {
          assert before + FailedBy(p, events[n]) == before;
        }
      }
    }
  }

  /** Admission rejection, a transport error and an unexpected status have the same effect on the
      coordinator, and none of them records a success. */
  lemma RejectionIsLikeReplicaFailure(p: Params, s: State, replica: Url, status: int, body: Bytes)
    requires HintWellFormed(p, s) && p.codes.Some? && status !in p.codes.value
    ensures OnProxyResult(p, s, replica, Rejected) == OnProxyResult(p, s, replica, TransportError)
    ensures OnProxyResult(p, s, replica, Rejected) == OnProxyResult(p, s, replica, Response(status, body))
    ensures var r := OnProxyResult(p, s, replica, Rejected);
      r.successCount == s.successCount && r.values == s.values && r.failureCount == s.failureCount + 1
  {
  }

  /** The successes the counters see: as written, every local exception is seen as a success too;
      as intended, only genuine successes are. */
  lemma {:induction false} RecordedCounts(p: Params, events: seq<Event>)
    ensures |Recorded(p, Intended, events)| == Successes(p, events)
    ensures |Recorded(p, AsWritten, events)| == Successes(p, events) + LocalThrows(events)
  {
    if events != [] {
      RecordedCounts(p, events[..|events| - 1]);
    }
  }

  /** As written, a request can succeed with fewer than `ack` replicas having served it: with
      `ack = 2, from = 3`, a local exception, one replica answering 200 and one transport error
      complete the future with the values, and the three attempts are counted four times. */
  lemma AsWrittenSucceedsBelowQuorum()
    ensures var p := Params(2, 3, [], None, Some({200, 404}));
      var plan := Plan(["b", "c"], true);
      var events := [Local(Threw), Proxy("b", Response(200, [])), Proxy("c", TransportError)];
      && WellFormed(plan, events) && Attempts(plan) == p.from
      && Run(p, AsWritten, Init(p), events).outcome == Succeeded
      && Successes(p, events) == 1 < p.ack
      && Run(p, AsWritten, Init(p), events).successCount + Run(p, AsWritten, Init(p), events).failureCount == 4 > p.from
  {
    var p := Params(2, 3, [], None, Some({200, 404}));
    var events := [Local(Threw), Proxy("b", Response(200, [])), Proxy("c", TransportError)];
    assert events[..2][..1] == events[..1] == [Local(Threw)];
    assert events[..2] == [Local(Threw), Proxy("b", Response(200, []))];
    assert events[..1][..0] == [];
    var s0 := Init(p);
    var s1 := Step(p, AsWritten, s0, events[0]);
    assert s1.successCount == 1 && s1.readyCount == 1 && s1.failureCount == 1 && s1.outcome == Pending;
    assert Run(p, AsWritten, s0, events[..1]) == s1;
    var s2 := Step(p, AsWritten, s1, events[1]);
    assert s2.readyCount == 2 && s2.outcome == Succeeded;
    assert Run(p, AsWritten, s0, events[..2]) == s2;
    var s3 := Step(p, AsWritten, s2, events[2]);
    assert s3.successCount == 2 && s3.failureCount == 2;
    assert Run(p, AsWritten, s0, events) == s3;
    assert events[..1][..0] == [];
    assert ProxiedReplicas(events[..1]) == [];
    assert LocalCount(events[..1]) == 1;
    assert Successes(p, events[..1]) == 0;
    assert ProxiedReplicas(events[..2]) == ["b"] && LocalCount(events[..2]) == 1 && Successes(p, events[..2]) == 1;
    assert ProxiedReplicas(events) == ["b", "c"] && LocalCount(events) == 1 && Successes(p, events) == 1;
  }

  /** As intended (a local exception is a failure only), a future completed with the values always
      has at least `ack` genuine successes behind it. */
  lemma IntendedSuccessNeedsQuorum(p: Params, plan: Plan, events: seq<Event>)
    requires ValidParams(p) && WellFormed(plan, events) && Attempts(plan) <= p.from
    requires Run(p, Intended, Init(p), events).outcome == Succeeded
    ensures Successes(p, events) >= p.ack
  {
    ScheduleLength(plan, events);
    RunConsistent(p, Intended, events);
    RecordedCounts(p, events);
  }

  lemma {:induction false} ScheduleAppend(a: seq<Event>, b: seq<Event>)
    ensures ProxiedReplicas(a + b) == ProxiedReplicas(a) + ProxiedReplicas(b)
    ensures LocalCount(a + b) == LocalCount(a) + LocalCount(b)
    decreases |b|
  {
    if b != [] {
      var n := |b| - 1;
      ScheduleAppend(a, b[..n]);
      assert (a + b)[..|a + b| - 1] == a + b[..n];
    } else {
      assert a + b == a;
    }
  }

  lemma {:induction false} RejectionsSchedule(replicas: seq<Url>)
    ensures ProxiedReplicas(Rejections(replicas)) == replicas
    ensures LocalCount(Rejections(replicas)) == 0
    decreases |replicas|
  {
    if replicas != [] {
      var n := |replicas| - 1;
      RejectionsSchedule(replicas[..n]);
      assert Rejections(replicas)[..n] == Rejections(replicas[..n]);
    }
  }

  /** Whether `c` interleaves `a` and `b`: every completion of `c` is taken from one of the two,
      and each of them keeps its own order. */
  predicate Interleaving(a: seq<Event>, b: seq<Event>, c: seq<Event>)
    decreases |c|
  {
    if c == [] then a == [] && b == []
    else
      var e := c[|c| - 1];
      || (a != [] && a[|a| - 1] == e && Interleaving(a[..|a| - 1], b, c[..|c| - 1]))
      || (b != [] && b[|b| - 1] == e && Interleaving(a, b[..|b| - 1], c[..|c| - 1]))
  }

  /** An interleaving proxies the replicas of both schedules and runs the local work of both. */
  lemma {:induction false} InterleavingCounts(a: seq<Event>, b: seq<Event>, c: seq<Event>)
    requires Interleaving(a, b, c)
    ensures multiset(ProxiedReplicas(c)) == multiset(ProxiedReplicas(a)) + multiset(ProxiedReplicas(b))
    ensures LocalCount(c) == LocalCount(a) + LocalCount(b)
    decreases |c|
  {
    if c != [] {
      var n := |c| - 1;
      if a != [] && a[|a| - 1] == c[n] && Interleaving(a[..|a| - 1], b, c[..n]) {
        InterleavingCounts(a[..|a| - 1], b, c[..n]);
      } else {
        InterleavingCounts(a, b[..|b| - 1], c[..n]);
      }
    }
  }

  /** Running one schedule after the other is one of their interleavings. */
  lemma {:induction false} AppendInterleaves(a: seq<Event>, b: seq<Event>)
    ensures Interleaving(a, b, a + b)
    decreases |a| + |b|
  {
    if b != [] {
      AppendInterleaves(a, b[..|b| - 1]);
      assert (a + b)[..|a + b| - 1] == a + b[..|b| - 1];
    } else if a != [] {
      AppendInterleaves(a[..|a| - 1], []);
      assert a[..|a| - 1] + [] == a[..|a| - 1];
      assert a + b == a;
    }
  }

  /** The schedules an executed request meets are the ones the theorems above assume. The
      rejections `execute` handles itself come in ring order. The completions of admitted proxy
      tasks (each at most once) may run before, between or after them, since those tasks start
      during the walk. The local work (at most once, and only when the local node is chosen)
      starts after the walk, so its completion follows every rejection; the lemma allows it
      anywhere, which covers that order too. */
  lemma ExecutionSchedulesWellFormed(chosen: seq<Url>, admit: seq<bool>, self: Url, later: seq<Event>, events: seq<Event>)
    requires |admit| == |chosen|
    requires multiset(ProxiedReplicas(later)) <= multiset(AdmittedReplicas(chosen, admit, self))
    requires LocalCount(later) <= if self in chosen then 1 else 0
    requires Interleaving(Rejections(RejectedReplicas(chosen, admit, self)), later, events)
    ensures WellFormed(PlanOf(chosen, self), events)
  {
    var rejected := RejectedReplicas(chosen, admit, self);
    InterleavingCounts(Rejections(rejected), later, events);
    RejectionsSchedule(rejected);
    AdmissionSplitsRemotes(chosen, admit, self);
  }
}
