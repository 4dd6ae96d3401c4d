/** `addSuccess` when success handlers run on several threads at once. Each of its actions is
    then a step of its own, and other handlers' steps can come between any two of them: taking a
    rank from `successCount` (line 164), storing the slot (line 165), raising `readyCount` (line
    167), and completing the future when the count it got is `ack` (lines 168-169). Only success
    handlers are modelled here, and a slot records only whether it has been stored.
    `readyCount` is meant to make the future wait until the slots of the first `ack` ranks are
    stored. As written, any `ack` raises complete it, whichever ranks they hold. */
module AddSuccessRace {
  import opened Types

  /** Where one success handler is: not started, holding its rank, past the store, past the
      raise of `readyCount` (with the count it got, the local `ready`), or finished. */
  datatype Phase = Idle | Ranked(rank: nat) | Stored(rank: nat) | Counted(rank: nat, ready: nat) | Done(rank: nat)

  /** The counters; which slots have been stored; which slots' handlers have passed line 167;
      each handler's phase; and the stored slots the future was completed with (`None` while it
      is pending). */
  datatype Race = Race(
    ack: nat,
    successCount: nat,
    readyCount: nat,
    stored: seq<bool>,
    released: seq<bool>,
    phases: seq<Phase>,
    completedWith: Option<seq<bool>>)

  /** One atomic step of a handler: line 164 (`Take`), line 165 (`Store`), line 167 (`Count`)
      or lines 168-169 (`Complete`). */
  datatype Action = Take(handler: nat) | Store(handler: nat) | Count(handler: nat) | Complete(handler: nat)

  /** `AsWritten` raises `readyCount` for every rank; `Corrected` only for ranks up to `ack`. */
  datatype Release = AsWritten | Corrected

  /** `from` unstored slots and `handlers` idle success handlers. */
  function Init(ack: nat, from: nat, handlers: nat): (s: Race)
    ensures |s.stored| == |s.released| == from && |s.phases| == handlers
    ensures s.successCount == s.readyCount == 0 && s.completedWith == None
  {
    Race(ack, 0, 0, seq(from, _ => false), seq(from, _ => false), seq(handlers, _ => Idle), None)
  }

  /** Line 164: the handler takes the next rank. */
  function TakeStep(s: Race, h: nat): Race
    requires h < |s.phases|
  {
    s.(successCount := s.successCount + 1, phases := s.phases[h := Ranked(s.successCount + 1)])
  }

  /** Line 165: the handler stores slot `r - 1`; a rank beyond the slots makes the store throw,
      so the handler ends there. */
  function StoreStep(s: Race, h: nat, r: nat): Race
    requires h < |s.phases|
  {
    if !(0 < r <= |s.stored|) then s.(phases := s.phases[h := Done(r)])
    else s.(stored := s.stored[r - 1 := true], phases := s.phases[h := Stored(r)])
  }

  /** Line 167: the handler raises `readyCount` and keeps the count it got; corrected, a rank
      beyond `ack` does not raise it and the handler ends there. */
  function CountStep(release: Release, s: Race, h: nat, r: nat): Race
    requires h < |s.phases|
  {
    var released := if 0 < r <= |s.released| then s.released[r - 1 := true] else s.released;
    if release == AsWritten || r <= s.ack then
      s.(readyCount := s.readyCount + 1, released := released,
         phases := s.phases[h := Counted(r, s.readyCount + 1)])
    else
      s.(released := released, phases := s.phases[h := Done(r)])
  }

  /** Lines 168-169: the handler that got `ack` completes the future, which takes the first
      completion only. */
  function CompleteStep(s: Race, h: nat, r: nat, ready: nat): Race
    requires h < |s.phases|
  {
    s.(phases := s.phases[h := Done(r)],
       completedWith := if ready == s.ack && s.completedWith.None? then Some(s.stored) else s.completedWith)
  }

  /** One step. An action of a handler that is not at that point changes nothing. */
  function Act(release: Release, s: Race, a: Action): (r: Race)
    ensures r.ack == s.ack && |r.stored| == |s.stored| && |r.released| == |s.released|
    ensures |r.phases| == |s.phases|
  {
    if a.handler >= |s.phases| then s
    else
      match (a, s.phases[a.handler])
      case (Take(h), Idle) => TakeStep(s, h)
      case (Store(h), Ranked(r)) => StoreStep(s, h, r)
      case (Count(h), Stored(r)) => CountStep(release, s, h, r)
      case (Complete(h), Counted(r, ready)) => CompleteStep(s, h, r, ready)
      case _ => s
  }

  function RunRace(release: Release, s: Race, actions: seq<Action>): (r: Race)
    ensures r.ack == s.ack && |r.stored| == |s.stored| && |r.released| == |s.released|
    ensures |r.phases| == |s.phases|
  {
    if actions == [] then s
    else Act(release, RunRace(release, s, actions[..|actions| - 1]), actions[|actions| - 1])
  }

  /** How many slots of `s` are stored. */
  function CountStored(s: seq<bool>): (n: nat)
    ensures n <= |s|
  {
    if s == [] then 0 else CountStored(s[..|s| - 1]) + if s[|s| - 1] then 1 else 0
  }

  lemma {:induction false} CountStoredAll(s: seq<bool>)
    ensures CountStored(s) == |s| <==> forall i :: 0 <= i < |s| ==> s[i]
  {
    if s != [] {
      var n := |s| - 1;
      CountStoredAll(s[..n]);
      if CountStored(s) == |s| {
        forall i | 0 <= i < |s| ensures s[i] {
          if i < n { assert s[i] == s[..n][i]; }
        }
      }
    }
  }

  lemma {:induction false} CountStoredMark(s: seq<bool>, i: nat)
    requires i < |s| && !s[i]
    ensures CountStored(s[i := true]) == CountStored(s) + 1
  {
    var n := |s| - 1;
    if i < n {
      assert s[i := true][..n] == s[..n][i := true];
      CountStoredMark(s[..n], i);
    } else {
      assert s[i := true][..n] == s[..n];
    }
  }

  lemma {:induction false} CountStoredMono(a: seq<bool>, b: seq<bool>)
    requires |a| == |b| && forall i :: 0 <= i < |a| && a[i] ==> b[i]
    ensures CountStored(a) <= CountStored(b)
  {
    if a != [] {
      var n := |a| - 1;
      CountStoredMono(a[..n], b[..n]);
    }
  }

  lemma {:induction false} ZeroWhenNoneStored(s: seq<bool>)
    requires forall i :: 0 <= i < |s| ==> !s[i]
    ensures CountStored(s) == 0
  {
    if s != [] {
      ZeroWhenNoneStored(s[..|s| - 1]);
    }
  }

  /** The ranks handed out start at 1, are at most `successCount` and are distinct. */
  ghost predicate RankInv(s: Race)
  {
    && (forall h :: 0 <= h < |s.phases| && !s.phases[h].Idle? ==> 1 <= s.phases[h].rank <= s.successCount)
    && (forall h, k :: 0 <= h < k < |s.phases| && !s.phases[h].Idle? && !s.phases[k].Idle?
          ==> s.phases[h].rank != s.phases[k].rank)
  }

  /** What the slots keep, in either version: no slot at or beyond `successCount` is stored; a
      handler holding its rank has not stored its slot yet; a handler past its store has stored
      its slot and not yet passed line 167; and only stored slots are released. */
  ghost predicate SlotInv(s: Race)
  {
    && |s.released| == |s.stored|
    && (forall i :: s.successCount <= i < |s.stored| ==> !s.stored[i])
    && (forall h :: 0 <= h < |s.phases| && s.phases[h].Ranked? && 1 <= s.phases[h].rank <= |s.stored|
          ==> !s.stored[s.phases[h].rank - 1])
    && (forall h :: 0 <= h < |s.phases| && s.phases[h].Stored?
          ==> 1 <= s.phases[h].rank <= |s.stored| && s.stored[s.phases[h].rank - 1] && !s.released[s.phases[h].rank - 1])
    && (forall i :: 0 <= i < |s.released| && s.released[i] ==> s.stored[i])
  }

  ghost predicate RanksInv(s: Race)
  {
    RankInv(s) && SlotInv(s)
  }

  /** No other handler holds the rank of handler `h`. */
  lemma RankOwner(s: Race, h: nat)
    requires RankInv(s) && h < |s.phases| && !s.phases[h].Idle?
    ensures forall k :: 0 <= k < |s.phases| && k != h && !s.phases[k].Idle? ==> s.phases[k].rank != s.phases[h].rank
  {
    forall k | 0 <= k < |s.phases| && k != h && !s.phases[k].Idle?
      ensures s.phases[k].rank != s.phases[h].rank
    {
      if k < h {
        assert s.phases[k].rank != s.phases[h].rank;
      } else {
        assert s.phases[h].rank != s.phases[k].rank;
      }
    }
  }

  /** What the corrected `readyCount` keeps: it counts the released slots among the first `ack`;
      a handler that got `ack` from it saw the first `ack` slots stored; and a completed future
      was completed with them stored, and they stay stored. */
  ghost predicate ReadyInv(s: Race)
  {
    && 1 <= s.ack <= |s.stored| == |s.released|
    && s.readyCount == CountStored(s.released[..s.ack])
    && (forall h :: 0 <= h < |s.phases| && s.phases[h].Counted? && s.phases[h].ready == s.ack
          ==> forall i :: 0 <= i < s.ack ==> s.stored[i])
    && (s.completedWith.Some? ==> forall i :: 0 <= i < s.ack ==> s.stored[i])
    && (s.completedWith.Some? ==>
          (|s.completedWith.value| == |s.stored| && forall i :: 0 <= i < s.ack ==> s.completedWith.value[i]))
  }

  /** What keeps the corrected future from being forgotten: a stored slot that is not yet
      released has its handler between lines 165 and 167; and once `readyCount` reaches `ack`,
      the future is completed or the handler that got `ack` has yet to complete it. */
  ghost predicate LiveInv(s: Race)
  {
    && |s.released| == |s.stored|
    && (forall i :: 0 <= i < |s.stored| && s.stored[i] && !s.released[i]
          ==> exists h :: 0 <= h < |s.phases| && s.phases[h] == Stored(i + 1))
    && (s.readyCount == s.ack && s.completedWith.None? ==>
          exists h :: 0 <= h < |s.phases| && s.phases[h].Counted? && s.phases[h].ready == s.ack)
  }

  ghost predicate Inv(s: Race)
  {
    RanksInv(s) && ReadyInv(s) && LiveInv(s)
  }

  /** No handler is between two of its steps. */
  ghost predicate Quiescent(s: Race)
  {
    forall h :: 0 <= h < |s.phases| ==> s.phases[h].Idle? || s.phases[h].Done?
  }

  lemma TakeKeepsInv(s: Race, h: nat)
    requires RanksInv(s) && ReadyInv(s) && h < |s.phases| && s.phases[h].Idle?
    ensures RanksInv(TakeStep(s, h)) && ReadyInv(TakeStep(s, h))
  {
  }

  lemma StoreKeepsRank(s: Race, h: nat, r: nat)
    requires RankInv(s) && h < |s.phases| && s.phases[h] == Ranked(r)
    ensures RankInv(StoreStep(s, h, r))
  {
  }

  lemma StoreKeepsSlots(s: Race, h: nat, r: nat)
    requires SlotInv(s) && h < |s.phases| && s.phases[h] == Ranked(r) && 1 <= r <= s.successCount
    requires forall k :: 0 <= k < |s.phases| && k != h && !s.phases[k].Idle? ==> s.phases[k].rank != r
    ensures SlotInv(StoreStep(s, h, r))
  {
  }

  lemma StoreKeepsReady(s: Race, h: nat, r: nat)
    requires RanksInv(s) && ReadyInv(s) && h < |s.phases| && s.phases[h] == Ranked(r)
    ensures ReadyInv(StoreStep(s, h, r))
  {
  }

  lemma CountKeepsRank(release: Release, s: Race, h: nat, r: nat)
    requires RankInv(s) && h < |s.phases| && s.phases[h] == Stored(r)
    ensures RankInv(CountStep(release, s, h, r))
  {
  }

  lemma CountKeepsSlots(release: Release, s: Race, h: nat, r: nat)
    requires SlotInv(s) && h < |s.phases| && s.phases[h] == Stored(r)
    requires forall k :: 0 <= k < |s.phases| && k != h && !s.phases[k].Idle? ==> s.phases[k].rank != r
    ensures SlotInv(CountStep(release, s, h, r))
  {
  }

  lemma CountKeepsReady(s: Race, h: nat, r: nat)
    requires RanksInv(s) && ReadyInv(s) && h < |s.phases| && s.phases[h] == Stored(r)
    ensures ReadyInv(CountStep(Corrected, s, h, r))
  {
    var t := CountStep(Corrected, s, h, r);
    assert 0 < r <= |s.released| && !s.released[r - 1];
    var released := s.released[r - 1 := true];
    if r <= s.ack {
      assert released[..s.ack] == s.released[..s.ack][r - 1 := true];
      CountStoredMark(s.released[..s.ack], r - 1);
      if t.readyCount == s.ack {
        CountStoredAll(released[..s.ack]);
        forall i | 0 <= i < s.ack ensures s.stored[i] {
          assert released[i] == released[..s.ack][i];
        }
      }
    } else {
      assert released[..s.ack] == s.released[..s.ack];
    }
  }

  lemma CompleteKeepsInv(s: Race, h: nat, r: nat, ready: nat)
    requires RanksInv(s) && ReadyInv(s) && h < |s.phases| && s.phases[h] == Counted(r, ready)
    ensures RanksInv(CompleteStep(s, h, r, ready)) && ReadyInv(CompleteStep(s, h, r, ready))
  {
  }

  lemma TakeKeepsLive(s: Race, h: nat)
    requires LiveInv(s) && h < |s.phases| && s.phases[h].Idle?
    ensures LiveInv(TakeStep(s, h))
  {
    var t := TakeStep(s, h);
    forall i | 0 <= i < |t.stored| && t.stored[i] && !t.released[i]
      ensures exists w :: 0 <= w < |t.phases| && t.phases[w] == Stored(i + 1)
    {
      var w :| 0 <= w < |s.phases| && s.phases[w] == Stored(i + 1);
      assert t.phases[w] == Stored(i + 1);
    }
    if t.readyCount == t.ack && t.completedWith.None? {
      var w :| 0 <= w < |s.phases| && s.phases[w].Counted? && s.phases[w].ready == s.ack;
      assert t.phases[w] == s.phases[w];
    }
  }

  lemma StoreKeepsLive(s: Race, h: nat, r: nat)
    requires LiveInv(s) && h < |s.phases| && s.phases[h] == Ranked(r)
    ensures LiveInv(StoreStep(s, h, r))
  {
    var t := StoreStep(s, h, r);
    forall i | 0 <= i < |t.stored| && t.stored[i] && !t.released[i]
      ensures exists w :: 0 <= w < |t.phases| && t.phases[w] == Stored(i + 1)
    {
      if 0 < r <= |s.stored| && i == r - 1 {
        assert t.phases[h] == Stored(i + 1);
      } else {
        assert s.stored[i] && !s.released[i];
        var w :| 0 <= w < |s.phases| && s.phases[w] == Stored(i + 1);
        assert t.phases[w] == Stored(i + 1);
      }
    }
    if t.readyCount == t.ack && t.completedWith.None? {
      var w :| 0 <= w < |s.phases| && s.phases[w].Counted? && s.phases[w].ready == s.ack;
      assert t.phases[w] == s.phases[w];
    }
  }

  lemma CountKeepsLive(s: Race, h: nat, r: nat)
    requires LiveInv(s) && h < |s.phases| && s.phases[h] == Stored(r)
    requires forall k :: 0 <= k < |s.phases| && k != h && !s.phases[k].Idle? ==> s.phases[k].rank != r
    ensures LiveInv(CountStep(Corrected, s, h, r))
  {
    var t := CountStep(Corrected, s, h, r);
    forall i | 0 <= i < |t.stored| && t.stored[i] && !t.released[i]
      ensures exists w :: 0 <= w < |t.phases| && t.phases[w] == Stored(i + 1)
    {
      assert !s.released[i];
      var w :| 0 <= w < |s.phases| && s.phases[w] == Stored(i + 1);
      assert i + 1 != r;
      assert t.phases[w] == Stored(i + 1);
    }
    if t.readyCount == t.ack && t.completedWith.None? {
      if r <= s.ack {
        assert t.phases[h] == Counted(r, t.ack);
      } else {
        var w :| 0 <= w < |s.phases| && s.phases[w].Counted? && s.phases[w].ready == s.ack;
        assert t.phases[w] == s.phases[w];
      }
    }
  }

  lemma CompleteKeepsLive(s: Race, h: nat, r: nat, ready: nat)
    requires LiveInv(s) && h < |s.phases| && s.phases[h] == Counted(r, ready)
    ensures LiveInv(CompleteStep(s, h, r, ready))
  {
    var t := CompleteStep(s, h, r, ready);
    forall i | 0 <= i < |t.stored| && t.stored[i] && !t.released[i]
      ensures exists w :: 0 <= w < |t.phases| && t.phases[w] == Stored(i + 1)
    {
      var w :| 0 <= w < |s.phases| && s.phases[w] == Stored(i + 1);
      assert t.phases[w] == Stored(i + 1);
    }
    if t.readyCount == t.ack && t.completedWith.None? {
      var w :| 0 <= w < |s.phases| && s.phases[w].Counted? && s.phases[w].ready == s.ack;
      assert t.phases[w] == s.phases[w];
    }
  }

  lemma ActKeepsInv(s: Race, a: Action)
    requires Inv(s)
    ensures Inv(Act(Corrected, s, a))
  {
    if a.handler < |s.phases| {
      match (a, s.phases[a.handler])
      case (Take(h), Idle) =>
        TakeKeepsInv(s, h);
        TakeKeepsLive(s, h);
      case (Store(h), Ranked(r)) =>
        RankOwner(s, h);
        StoreKeepsRank(s, h, r);
        StoreKeepsSlots(s, h, r);
        StoreKeepsReady(s, h, r);
        StoreKeepsLive(s, h, r);
      case (Count(h), Stored(r)) =>
        RankOwner(s, h);
        CountKeepsRank(Corrected, s, h, r);
        CountKeepsSlots(Corrected, s, h, r);
        CountKeepsReady(s, h, r);
        CountKeepsLive(s, h, r);
      case (Complete(h), Counted(r, ready)) =>
        CompleteKeepsInv(s, h, r, ready);
        CompleteKeepsLive(s, h, r, ready);
      case _ =>
    }
  }

  lemma {:induction false} RunKeepsInv(s: Race, actions: seq<Action>)
    requires Inv(s)
    ensures Inv(RunRace(Corrected, s, actions))
  {
    if actions != [] {
      RunKeepsInv(s, actions[..|actions| - 1]);
      ActKeepsInv(RunRace(Corrected, s, actions[..|actions| - 1]), actions[|actions| - 1]);
    }
  }

  /** As written, with `ack = 1` and two handlers, the handler that took rank 2 stores its slot,
      raises `readyCount` to 1 and completes the future while the handler of rank 1 is still
      between lines 164 and 165: the future completes with slot 0, the first of the values it
      hands out, not yet stored. */
  lemma AsWrittenCompletesBeforeFirstSlot()
    ensures RunRace(AsWritten, Init(1, 2, 2), [Take(0), Take(1), Store(1), Count(1), Complete(1)]).completedWith
      == Some([false, true])
  {
    var actions := [Take(0), Take(1), Store(1), Count(1), Complete(1)];
    var s0 := Init(1, 2, 2);
    assert s0.stored == [false, false];
    var s1 := Act(AsWritten, s0, Take(0));
    assert s1.phases == [Ranked(1), Idle] && s1.successCount == 1;
    var s2 := Act(AsWritten, s1, Take(1));
    assert s2.phases == [Ranked(1), Ranked(2)] && s2.successCount == 2;
    var s3 := Act(AsWritten, s2, Store(1));
    assert s3.stored == [false, true] && s3.phases[1] == Stored(2);
    var s4 := Act(AsWritten, s3, Count(1));
    assert s4.phases[1] == Counted(2, 1) && s4.stored == [false, true];
    var s5 := Act(AsWritten, s4, Complete(1));
    assert s5.completedWith == Some([false, true]);
    assert actions[..1] == [Take(0)] && actions[..1][..0] == [];
    assert RunRace(AsWritten, s0, actions[..1]) == s1;
    assert actions[..2][..1] == actions[..1];
    assert RunRace(AsWritten, s0, actions[..2]) == s2;
    assert actions[..3][..2] == actions[..2];
    assert RunRace(AsWritten, s0, actions[..3]) == s3;
    assert actions[..4][..3] == actions[..3];
    assert RunRace(AsWritten, s0, actions[..4]) == s4;
    assert actions[..4] == actions[..|actions| - 1];
  }

  /** Corrected, whatever the interleaving of the steps of any number of handlers over `from`
      slots: `readyCount` never exceeds the number of stored slots among the first `ack`, and a
      completed future was completed with the slots of ranks 1 to `ack` stored, which stay
      stored. Once no handler is between two of its steps, the future is completed exactly when
      those slots are stored. */
  lemma CorrectedCompletesWithFirstSlots(ack: nat, from: nat, handlers: nat, actions: seq<Action>)
    requires 1 <= ack <= from
    ensures var s := RunRace(Corrected, Init(ack, from, handlers), actions);
      && s.readyCount <= CountStored(s.stored[..ack])
      && (s.completedWith.Some? ==> forall i :: 0 <= i < ack ==> s.stored[i])
      && (s.completedWith.Some? ==>
            (|s.completedWith.value| == from && forall i :: 0 <= i < ack ==> s.completedWith.value[i]))
      && (Quiescent(s) ==> (s.completedWith.Some? <==> forall i :: 0 <= i < ack ==> s.stored[i]))
  {
    var s0 := Init(ack, from, handlers);
    ZeroWhenNoneStored(s0.released[..ack]);
    RunKeepsInv(s0, actions);
    var s := RunRace(Corrected, s0, actions);
    CountStoredMono(s.released[..ack], s.stored[..ack]);
    if Quiescent(s) && forall i :: 0 <= i < ack ==> s.stored[i] {
      QuiescentCompletes(s);
    }
  }

  lemma QuiescentCompletes(s: Race)
    requires Inv(s) && Quiescent(s) && forall i :: 0 <= i < s.ack ==> s.stored[i]
    ensures s.completedWith.Some?
  {
    forall i | 0 <= i < s.ack ensures s.released[..s.ack][i] {
    }
    CountStoredAll(s.released[..s.ack]);
  }
}
