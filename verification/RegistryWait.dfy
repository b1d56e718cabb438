/**
 * The wait for the registry after a release: rounds of lookups with a backoff between them, which end when no
 * package lags behind the version or the deadline would be passed.
 */
module RegistryWait {
  import opened Seqs

  /** `REGISTRY_BACKOFF_MS`, the last value repeating. */
  const BACKOFF: seq<nat> := [5000, 10000, 20000, 30000]
  const DEADLINE: nat := 1800000

  function Wait(attempt: nat): (ms: nat)
    ensures 5000 <= ms <= 30000
  {
    BACKOFF[if attempt < 3 then attempt else 3]
  }

  /** What a lookup came to; versions are ranked by release order, and a failure is a thrown error of either call. */
  datatype Lookup = Tagged(version: int) | Missing | Failed(reason: string)

  predicate Current(found: Lookup, version: int) {
    found.Tagged? && found.version >= version
  }

  datatype Miss = Miss(name: string, found: Lookup)

  datatype Outcome = Returned | Thrown(missing: seq<Miss>)

  /** The registry as the wait meets it: what each round's lookup of a name answers. */
  type Registry = (nat, string) -> Lookup

  /** The name answered at or above the version in one of the first `rounds` rounds. */
  ghost predicate Seen(registry: Registry, version: int, name: string, rounds: nat) {
    exists a: nat :: a < rounds && Current(registry(a, name), version)
  }

  /** The names without such an answer in the first `rounds` rounds, in their own order. */
  ghost function Pending(names: seq<string>, registry: Registry, version: int, rounds: nat): seq<string> {
    Filter((name: string) => !Seen(registry, version, name, rounds), names)
  }

  function Misses(names: seq<string>, registry: Registry, round: nat): seq<Miss> {
    Map(name => Miss(name, registry(round, name)), names)
  }

  /** The moment before round `attempt`'s lookups, if every sleep takes exactly its time. */
  function Earliest(start: int, clock: nat -> int, attempt: nat): int {
    if attempt == 0 then start else clock(attempt - 1) + Wait(attempt - 1)
  }

  /** `clock(a)` is read after round `a`; the clock advances at least by every sleep. */
  ghost predicate Advances(start: int, clock: nat -> int) {
    forall a: nat :: Earliest(start, clock, a) <= clock(a)
  }

  /** The rounds go on after round `attempt`: a name is pending and the next sleep ends by the deadline. */
  ghost predicate GoesOn(names: seq<string>, registry: Registry, version: int, start: int, clock: nat -> int, attempt: nat) {
    Pending(names, registry, version, attempt + 1) != [] && clock(attempt) + Wait(attempt) <= start + DEADLINE
  }

  lemma {:induction false} NextPending(names: seq<string>, registry: Registry, version: int, round: nat)
    ensures Filter((name: string) => !Current(registry(round, name), version), Pending(names, registry, version, round))
         == Pending(names, registry, version, round + 1)
  {
    if names != [] {
      NextPending(names[1..], registry, version, round);
      var name := names[0];
      assert Seen(registry, version, name, round + 1) <==> Seen(registry, version, name, round) || Current(registry(round, name), version);
      var before := Pending(names, registry, version, round);
      if !Seen(registry, version, name, round) {
        assert before[0] == name && before[1..] == Pending(names[1..], registry, version, round);
      }
    }
  }

  /** One round: looks every pending name up and keeps the ones still missing, with what they answered. */
  method LookUp(pending: seq<string>, registry: Registry, version: int, round: nat) returns (remaining: seq<string>, missing: seq<Miss>)
    ensures remaining == Filter((name: string) => !Current(registry(round, name), version), pending)
    ensures missing == Misses(remaining, registry, round)
  {
    remaining, missing := [], [];
    ghost var keep := (name: string) => !Current(registry(round, name), version);
    for i := 0 to |pending|
      invariant remaining == Filter(keep, pending[..i])
      invariant missing == Misses(remaining, registry, round)
    {
      FilterSnoc(keep, pending, i);
      var name := pending[i];
      var actual := registry(round, name);
      if !Current(actual, version) {
        missing := missing + [Miss(name, actual)];
        remaining := remaining + [name];
      }
    }
    assert pending[..|pending|] == pending;
  }

  /** What the rounds before `attempt` looked up and slept. */
  ghost predicate Waited(names: seq<string>, registry: Registry, version: int, start: int, clock: nat -> int,
                         slept: seq<nat>, asked: seq<seq<string>>) {
    && (forall a: nat :: a < |asked| ==> asked[a] == Pending(names, registry, version, a))
    && (forall a: nat :: a < |slept| ==>
          slept[a] == Wait(a) && clock(a) + slept[a] <= start + DEADLINE && GoesOn(names, registry, version, start, clock, a))
  }

  /**
   * `awaitRegistryTag`, with `rounds` rounds of lookups and a sleep between each two. It returns or throws at the first
   * round after which nothing is pending or the next sleep would end past the deadline; a round looks up exactly the
   * names no earlier round saw; it throws exactly the names never seen, with their last answers.
   */
  method AwaitRegistryTag(names: seq<string>, registry: Registry, version: int, start: int, clock: nat -> int)
    returns (outcome: Outcome, rounds: nat, slept: seq<nat>, asked: seq<seq<string>>)
    requires Advances(start, clock)
    ensures 1 <= rounds <= 62 && |asked| == rounds && |slept| == rounds - 1
    ensures Waited(names, registry, version, start, clock, slept, asked)
    ensures !GoesOn(names, registry, version, start, clock, rounds - 1)
    ensures outcome == Returned <==> Pending(names, registry, version, rounds) == []
    ensures outcome != Returned ==> outcome == Thrown(Misses(Pending(names, registry, version, rounds), registry, rounds - 1))
  {
    hide *;
    var deadline := start + DEADLINE;
    var pending := names;
    slept, asked := [], [];
    var attempt := 0;
    WaitStarts(names, registry, version, start, clock);
    while true
      invariant |asked| == attempt && |slept| == attempt
      invariant pending == Pending(names, registry, version, attempt)
      invariant Waited(names, registry, version, start, clock, slept, asked)
      invariant Earliest(start, clock, attempt) <= deadline
      decreases deadline - Earliest(start, clock, attempt)
    {
      ghost var before := asked;
      asked := asked + [pending];
      var missing: seq<Miss>;
      pending, missing := LookUp(pending, registry, version, attempt);
      NextPending(names, registry, version, attempt);
      MissesFor(pending, registry, attempt);
      Asked(names, registry, version, start, clock, slept, before, attempt);
      GoesOnWhen(names, registry, version, start, clock, attempt);
      SleepsAreBounded(names, registry, version, start, clock, slept, asked);
      rounds := attempt + 1;
      if |missing| == 0 {
        outcome := Returned;
        return;
      }
      var wait := Wait(attempt);
      if clock(attempt) + wait > deadline {
        outcome := Thrown(missing);
        return;
      }
      Slept(names, registry, version, start, clock, slept, asked);
      slept := slept + [wait];
      attempt := attempt + 1;
    }
  }

  lemma WaitStarts(names: seq<string>, registry: Registry, version: int, start: int, clock: nat -> int)
    ensures Pending(names, registry, version, 0) == names && Waited(names, registry, version, start, clock, [], [])
    ensures Earliest(start, clock, 0) == start && DEADLINE == 1800000
  {
    NothingSeen(names, registry, version);
  }

  lemma Asked(names: seq<string>, registry: Registry, version: int, start: int, clock: nat -> int,
              slept: seq<nat>, asked: seq<seq<string>>, attempt: nat)
    requires |asked| == attempt && Waited(names, registry, version, start, clock, slept, asked)
    ensures Waited(names, registry, version, start, clock, slept, asked + [Pending(names, registry, version, attempt)])
  {
    hide Pending, GoesOn, Wait;
  }

  /** A round that goes on sleeps to a later moment, still by the deadline. */
  lemma GoesOnWhen(names: seq<string>, registry: Registry, version: int, start: int, clock: nat -> int, attempt: nat)
    requires Advances(start, clock)
    ensures GoesOn(names, registry, version, start, clock, attempt)
       <==> Pending(names, registry, version, attempt + 1) != [] && clock(attempt) + Wait(attempt) <= start + DEADLINE
    ensures Earliest(start, clock, attempt + 1) == clock(attempt) + Wait(attempt) > Earliest(start, clock, attempt)
  {
    hide Pending, Wait;
    assert Earliest(start, clock, attempt) <= clock(attempt);
  }

  lemma Slept(names: seq<string>, registry: Registry, version: int, start: int, clock: nat -> int,
              slept: seq<nat>, asked: seq<seq<string>>)
    requires Waited(names, registry, version, start, clock, slept, asked)
    requires GoesOn(names, registry, version, start, clock, |slept|)
    ensures Waited(names, registry, version, start, clock, slept + [Wait(|slept|)], asked)
  {
    hide Pending, Wait;
  }

  lemma MissesFor(names: seq<string>, registry: Registry, round: nat)
    ensures |Misses(names, registry, round)| == |names|
  {
  }

  lemma {:induction false} NothingSeen(names: seq<string>, registry: Registry, version: int)
    ensures Pending(names, registry, version, 0) == names
  {
    if names != [] {
      NothingSeen(names[1..], registry, version);
    }
  }

  /** It returns only when every name was seen, and throws only with a name that never was. */
  lemma PendingMeansUnseen(names: seq<string>, registry: Registry, version: int, rounds: nat)
    ensures Pending(names, registry, version, rounds) == [] <==> forall name :: name in names ==> Seen(registry, version, name, rounds)
    ensures forall name :: name in Pending(names, registry, version, rounds) <==> name in names && !Seen(registry, version, name, rounds)
  {
    var pending := Pending(names, registry, version, rounds);
    forall name ensures name in pending <==> name in names && !Seen(registry, version, name, rounds) {
      FilterHolds((name: string) => !Seen(registry, version, name, rounds), names, name);
    }
    if pending != [] {
      assert pending[0] in pending;
    }
  }

  /** Every sleep adds up: the earliest moment of a round is the start and the waits before it. */
  function TotalWait(attempt: nat): (ms: nat)
    ensures attempt == 1 ==> ms == 5000
    ensures attempt == 2 ==> ms == 15000
    ensures attempt >= 3 ==> ms == 35000 + 30000 * (attempt - 3)
  {
    if attempt == 0 then 0 else TotalWait(attempt - 1) + Wait(attempt - 1)
  }

  lemma {:induction false} WaitsAdd(start: int, clock: nat -> int, attempt: nat)
    requires Advances(start, clock)
    ensures start + TotalWait(attempt) <= Earliest(start, clock, attempt)
  {
    if attempt > 0 {
      WaitsAdd(start, clock, attempt - 1);
      assert Earliest(start, clock, attempt - 1) <= clock(attempt - 1);
    }
  }

  /** However fast the registry answers, the wait sleeps at most 61 times. */
  lemma SleepsAreBounded(names: seq<string>, registry: Registry, version: int, start: int, clock: nat -> int,
                         slept: seq<nat>, asked: seq<seq<string>>)
    requires Advances(start, clock) && Waited(names, registry, version, start, clock, slept, asked)
    ensures |slept| <= 61
  {
    hide Pending, Wait, GoesOn;
    if slept != [] {
      var last := |slept| - 1;
      WaitsAdd(start, clock, |slept|);
      assert slept[last] == Wait(last) && clock(last) + slept[last] <= start + DEADLINE;
    }
  }
}
