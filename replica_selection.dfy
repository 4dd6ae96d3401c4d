/** Which replicas serve a key, and how `execute` splits them between local work and proxy
    attempts. The shard list and the key's node index come from the node mapper, which is not
    part of this model; they are parameters here. */
module ReplicaSelection {
  import opened Types

  /** The shards met walking the ring `count` steps from `position`, wrapping past the end. */
  function Walk(shards: seq<Url>, position: nat, count: nat): (r: seq<Url>)
    requires position < |shards|
    ensures |r| == count
    decreases count
  {
    if count == 0 then []
    else [shards[position]] + Walk(shards, if position + 1 == |shards| then 0 else position + 1, count - 1)
  }

  /** The `from` replicas of a key whose primary shard is `nodeIndex`: its ring walk. */
  function Chosen(shards: seq<Url>, nodeIndex: nat, from: nat): (r: seq<Url>)
    requires |shards| > 0
    ensures |r| == from
  {
    Walk(shards, nodeIndex % |shards|, from)
  }

  /** The chosen replicas other than the local node, in ring order: those that are proxied. */
  function Remotes(chosen: seq<Url>, self: Url): (r: seq<Url>)
    ensures |r| <= |chosen| && self !in r
  {
    if chosen == [] then []
    else
      var last := chosen[|chosen| - 1];
      Remotes(chosen[..|chosen| - 1], self) + (if last != self then [last] else [])
  }

  /** The proxied replicas whose task the admission gate accepted (`admit[i]` answers for replica `i`). */
  function AdmittedReplicas(chosen: seq<Url>, admit: seq<bool>, self: Url): (r: seq<Url>)
    requires |admit| == |chosen|
    ensures |r| <= |chosen| && self !in r
  {
    if chosen == [] then []
    else
      var n := |chosen| - 1;
      AdmittedReplicas(chosen[..n], admit[..n], self) + (if chosen[n] != self && admit[n] then [chosen[n]] else [])
  }

  /** The proxied replicas whose task the admission gate turned down. */
  function RejectedReplicas(chosen: seq<Url>, admit: seq<bool>, self: Url): (r: seq<Url>)
    requires |admit| == |chosen|
    ensures |r| <= |chosen| && self !in r
  {
    if chosen == [] then []
    else
      var n := |chosen| - 1;
      RejectedReplicas(chosen[..n], admit[..n], self) + (if chosen[n] != self && !admit[n] then [chosen[n]] else [])
  }

  /** Whether the local node is among the walked replicas, as the walk's flag accumulates it. */
  predicate NeedsLocal(chosen: seq<Url>, self: Url)
  {
    chosen != [] && (NeedsLocal(chosen[..|chosen| - 1], self) || chosen[|chosen| - 1] == self)
  }

  lemma {:induction false} NeedsLocalIsMembership(chosen: seq<Url>, self: Url)
    ensures NeedsLocal(chosen, self) <==> self in chosen
  {
    if chosen != [] {
      var n := |chosen| - 1;
      NeedsLocalIsMembership(chosen[..n], self);
      assert chosen == chosen[..n] + [chosen[n]];
    }
  }

  /** One more replica walked: the filters of the longer prefix extend those of the shorter one. */
  lemma FiltersSnoc(chosen: seq<Url>, admit: seq<bool>, self: Url, i: nat)
    requires |admit| == |chosen| && i < |chosen|
    ensures chosen[i] == self ==>
      AdmittedReplicas(chosen[..i + 1], admit[..i + 1], self) == AdmittedReplicas(chosen[..i], admit[..i], self) &&
      RejectedReplicas(chosen[..i + 1], admit[..i + 1], self) == RejectedReplicas(chosen[..i], admit[..i], self)
    ensures chosen[i] != self && admit[i] ==>
      AdmittedReplicas(chosen[..i + 1], admit[..i + 1], self) == AdmittedReplicas(chosen[..i], admit[..i], self) + [chosen[i]] &&
      RejectedReplicas(chosen[..i + 1], admit[..i + 1], self) == RejectedReplicas(chosen[..i], admit[..i], self)
    ensures chosen[i] != self && !admit[i] ==>
      AdmittedReplicas(chosen[..i + 1], admit[..i + 1], self) == AdmittedReplicas(chosen[..i], admit[..i], self) &&
      RejectedReplicas(chosen[..i + 1], admit[..i + 1], self) == RejectedReplicas(chosen[..i], admit[..i], self) + [chosen[i]]
    ensures NeedsLocal(chosen[..i + 1], self) <==> NeedsLocal(chosen[..i], self) || chosen[i] == self
  {
    assert chosen[..i + 1][..i] == chosen[..i];
    assert admit[..i + 1][..i] == admit[..i];
    assert chosen[..i + 1][i] == chosen[i] && admit[..i + 1][i] == admit[i];
  }

  /** Every chosen replica other than the local node is proxied exactly as often as it is chosen,
      and the local node is never proxied. */
  lemma {:induction false} RemotesAreChosenOthers(chosen: seq<Url>, self: Url, u: Url)
    ensures multiset(Remotes(chosen, self))[u] == if u == self then 0 else multiset(chosen)[u]
  {
    if chosen != [] {
      var n := |chosen| - 1;
      RemotesAreChosenOthers(chosen[..n], self, u);
      assert chosen == chosen[..n] + [chosen[n]];
      assert multiset(chosen)[u] == multiset(chosen[..n])[u] + if chosen[n] == u then 1 else 0;
      var last := if chosen[n] != self then [chosen[n]] else [];
      assert Remotes(chosen, self) == Remotes(chosen[..n], self) + last;
      assert multiset(Remotes(chosen, self))[u] == multiset(Remotes(chosen[..n], self))[u] + multiset(last)[u];
    }
  }

  /** Each proxy attempt is either admitted or rejected, never both and never neither. */
  lemma {:induction false} AdmissionSplitsRemotes(chosen: seq<Url>, admit: seq<bool>, self: Url)
    requires |admit| == |chosen|
    ensures multiset(AdmittedReplicas(chosen, admit, self)) + multiset(RejectedReplicas(chosen, admit, self))
         == multiset(Remotes(chosen, self))
  {
    if chosen != [] {
      var n := |chosen| - 1;
      AdmissionSplitsRemotes(chosen[..n], admit[..n], self);
    }
  }

  /** How many times the local node is among the chosen replicas. */
  function SelfCount(chosen: seq<Url>, self: Url): nat
  {
    multiset(chosen)[self]
  }

  /** The attempts a request makes, one per proxied replica plus at most one local one,
      number `from` less the local node's repetitions; so never more than `from`, and exactly
      `from` when the local node is chosen at most once. */
  lemma {:induction false} AttemptCount(chosen: seq<Url>, self: Url)
    ensures |Remotes(chosen, self)| + (if self in chosen then 1 else 0)
         == |chosen| - SelfCount(chosen, self) + (if self in chosen then 1 else 0)
    ensures |Remotes(chosen, self)| + (if self in chosen then 1 else 0) <= |chosen|
  {
    if chosen != [] {
      var n := |chosen| - 1;
      AttemptCount(chosen[..n], self);
      assert chosen == chosen[..n] + [chosen[n]];
      assert self in chosen <==> self in chosen[..n] || chosen[n] == self;
    }
  }

  lemma {:induction false} MultipleAtLeast(x: int, size: int)
    requires x >= 1 && size > 0
    ensures x * size >= size
  {
    if x > 1 {
      MultipleAtLeast(x - 1, size);
      assert x * size == (x - 1) * size + size;
    }
  }

  /** Quotient and remainder are unique: `n == q * size + r` with `r` in range fixes `n % size`. */
  lemma RemainderUnique(n: nat, q: int, r: int, size: nat)
    requires size > 0 && 0 <= r < size && n == q * size + r
    ensures n % size == r
  {
    var q', r' := n / size, n % size;
    assert q * size + r == q' * size + r';
    if q' > q {
      MultipleAtLeast(q' - q, size);
    } else if q > q' {
      MultipleAtLeast(q - q', size);
    }
  }

  /** Different ring positions below the ring size name different shards. */
  lemma RingPositionsDiffer(nodeIndex: nat, i: nat, j: nat, size: nat)
    requires i < j < size
    ensures (nodeIndex + i) % size != (nodeIndex + j) % size
  {
    var a, d := nodeIndex + i, j - i;
    var q, r := a / size, a % size;
    assert a == q * size + r;
    if r + d < size {
      RemainderUnique(a + d, q, r + d, size);
    } else {
      assert a + d == (q + 1) * size + (r + d - size);
      RemainderUnique(a + d, q + 1, r + d - size, size);
    }
  }

  /** Adding whole turns of the ring does not change the position. */
  lemma RemainderShift(q: nat, x: nat, size: nat)
    requires size > 0
    ensures (q * size + x) % size == x % size
  {
    assert x == x / size * size + x % size;
    assert q * size + x == (q + x / size) * size + x % size;
    RemainderUnique(q * size + x, q + x / size, x % size, size);
  }

  /** Stepping to the next ring position (wrapping at the end) and then `i - 1` more places is
      the same as going `i` places. */
  lemma NextPosition(position: nat, i: nat, size: nat)
    requires position < size && 0 < i
    ensures var next := if position + 1 == size then 0 else position + 1;
      (next + (i - 1)) % size == (position + i) % size
  {
    if position + 1 == size {
      RemainderShift(1, i - 1, size);
      assert 1 * size + (i - 1) == position + i;
    }
  }

  lemma {:induction false} WalkAt(shards: seq<Url>, position: nat, count: nat, i: nat)
    requires position < |shards| && i < count
    ensures Walk(shards, position, count)[i] == shards[(position + i) % |shards|]
    decreases count
  {
    var size := |shards|;
    var next := if position + 1 == size then 0 else position + 1;
    var rest := Walk(shards, next, count - 1);
    assert Walk(shards, position, count) == [shards[position]] + rest;
    if i == 0 {
      RemainderUnique(position, 0, position, size);
    } else {
      WalkAt(shards, next, count - 1, i - 1);
      NextPosition(position, i, size);
      assert Walk(shards, position, count)[i] == rest[i - 1] == shards[(position + i) % size];
    }
  }

  /** The `i`-th replica of a key is the shard `i` places after its primary on the ring:
      `shards[(nodeIndex + i) % |shards|]`, always a valid index. */
  lemma ChosenAt(shards: seq<Url>, nodeIndex: nat, from: nat, i: nat)
    requires 0 < |shards| && i < from
    ensures (nodeIndex + i) % |shards| < |shards|
    ensures Chosen(shards, nodeIndex, from)[i] == shards[(nodeIndex + i) % |shards|]
  {
    var size := |shards|;
    WalkAt(shards, nodeIndex % size, from, i);
    assert nodeIndex == nodeIndex / size * size + nodeIndex % size;
    assert nodeIndex + i == nodeIndex / size * size + (nodeIndex % size + i);
    RemainderShift(nodeIndex / size, nodeIndex % size + i, size);
  }

  /** When `from` does not exceed the number of shards and the shards' URLs differ, the chosen
      replicas differ, so the local node is chosen at most once. */
  lemma ChosenDistinct(shards: seq<Url>, nodeIndex: nat, from: nat)
    requires 0 < |shards| && from <= |shards|
    requires forall i, j :: 0 <= i < j < |shards| ==> shards[i] != shards[j]
    ensures var chosen := Chosen(shards, nodeIndex, from);
      forall i, j :: 0 <= i < j < from ==> chosen[i] != chosen[j]
  {
    var chosen := Chosen(shards, nodeIndex, from);
    forall i, j | 0 <= i < j < from
      ensures chosen[i] != chosen[j]
    {
      RingPositionsDiffer(nodeIndex, i, j, |shards|);
      ChosenAt(shards, nodeIndex, from, i);
      ChosenAt(shards, nodeIndex, from, j);
      var p, q := (nodeIndex + i) % |shards|, (nodeIndex + j) % |shards|;
      if p < q {
        assert shards[p] != shards[q];
      } else {
        assert shards[q] != shards[p];
      }
    }
  }

  /** In a sequence of distinct URLs each URL occurs at most once. */
  lemma {:induction false} DistinctOccursOnce(s: seq<Url>, u: Url)
    requires forall i, j :: 0 <= i < j < |s| ==> s[i] != s[j]
    ensures multiset(s)[u] <= 1
  {
    if s != [] {
      var n := |s| - 1;
      DistinctOccursOnce(s[..n], u);
      assert s == s[..n] + [s[n]];
      if s[n] == u {
        assert u !in s[..n];
      }
    }
  }
}
