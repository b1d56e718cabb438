/**
 * The generation guard of maintenance transitions: what an object has published after any delivery of requests, late,
 * twice or out of order.
 */
module Transitions {
  import opened Wrappers

  datatype Mode = OpenMode | ReadOnly | Closed | Inspect

  datatype Published = Published(generation: nat, mode: Mode)

  /** `opsTransitionRefused`. */
  predicate Refused(current: Option<Published>, request: Published) {
    match current
    case None => false
    case Some(state) =>
      request.generation < state.generation || (request.generation == state.generation && request.mode != state.mode)
  }

  function Deliver(current: Option<Published>, request: Published): Option<Published> {
    if Refused(current, request) then current else Some(request)
  }

  /** What is published after every request has been delivered in turn. */
  function Run(current: Option<Published>, requests: seq<Published>): Option<Published>
    decreases |requests|
  {
    if requests == [] then current else Run(Deliver(current, requests[0]), requests[1..])
  }

  /** A later moment of a run: nothing is unpublished, no generation falls, and a generation keeps its mode. */
  ghost predicate Follows(earlier: Option<Published>, later: Option<Published>) {
    earlier.Some? ==>
      && later.Some?
      && earlier.value.generation <= later.value.generation
      && (earlier.value.generation == later.value.generation ==> later == earlier)
  }

  lemma {:induction false} RunFollows(current: Option<Published>, requests: seq<Published>)
    ensures Follows(current, Run(current, requests))
    decreases |requests|
  {
    if requests != [] {
      RunFollows(Deliver(current, requests[0]), requests[1..]);
    }
  }

  lemma {:induction false} RunOfParts(current: Option<Published>, first: seq<Published>, second: seq<Published>)
    ensures Run(current, first + second) == Run(Run(current, first), second)
    decreases |first|
  {
    if first == [] {
      assert first + second == second;
    } else {
      assert (first + second)[1..] == first[1..] + second;
      RunOfParts(Deliver(current, first[0]), first[1..], second);
    }
  }

  /** Between any two moments of any run: the generation never falls, and a published generation never changes its mode. */
  lemma NeverFalls(start: Option<Published>, requests: seq<Published>, i: nat, j: nat)
    requires i <= j <= |requests|
    ensures Follows(Run(start, requests[..i]), Run(start, requests[..j]))
  {
    assert requests[..j] == requests[..i] + requests[i..j];
    RunOfParts(start, requests[..i], requests[i..j]);
    RunFollows(Run(start, requests[..i]), requests[i..j]);
  }

  /** What is published was delivered (or stood before), and nothing delivered has a higher generation. */
  lemma {:induction false} RunIsHighest(current: Option<Published>, requests: seq<Published>)
    requires current.Some? || requests != []
    ensures var end := Run(current, requests);
            && end.Some?
            && (end.value in requests || end == current)
            && forall r :: r in requests ==> r.generation <= end.value.generation
    decreases |requests|
  {
    if requests != [] {
      var next := Deliver(current, requests[0]);
      RunIsHighest(next, requests[1..]);
      RunFollows(next, requests[1..]);
      assert requests == [requests[0]] + requests[1..];
    }
  }

  predicate IsHighest(request: Published, requests: seq<Published>) {
    request in requests && forall r :: r in requests ==> r.generation <= request.generation
  }

  /** The requests of the highest generation carry one mode. */
  ghost predicate HighestAgree(requests: seq<Published>) {
    forall x, y :: IsHighest(x, requests) && IsHighest(y, requests) ==> x == y
  }

  /** Every delivery of the same requests, in any order and any number of times, ends at the one of highest generation. */
  lemma DeliveryForgotten(a: seq<Published>, b: seq<Published>)
    requires a != [] && HighestAgree(a) && forall r :: r in a <==> r in b
    ensures Run(None, a) == Run(None, b) && Run(None, a).Some? && IsHighest(Run(None, a).value, a)
  {
    assert a[0] in b;
    RunIsHighest(None, a);
    RunIsHighest(None, b);
    assert IsHighest(Run(None, a).value, a) && IsHighest(Run(None, b).value, a);
  }

  /** A request of the highest generation, delivered first, stays published. */
  lemma FirstStays(request: Published, rest: seq<Published>)
    requires forall r :: r in rest ==> r.generation <= request.generation
    ensures Run(None, [request] + rest) == Some(request)
  {
    assert ([request] + rest)[1..] == rest;
    RunFollows(Some(request), rest);
    RunIsHighest(Some(request), rest);
  }

  lemma Moved(requests: seq<Published>, request: Published) returns (moved: seq<Published>)
    requires IsHighest(request, requests)
    ensures multiset(moved) == multiset(requests) && Run(None, moved) == Some(request)
  {
    var i :| 0 <= i < |requests| && requests[i] == request;
    var rest := requests[..i] + requests[i + 1..];
    assert requests == requests[..i] + [request] + requests[i + 1..];
    moved := [request] + rest;
    FirstStays(request, rest);
  }

  /**
   * The order of delivery is forgotten exactly when the highest generation carries one mode: a lower generation may
   * have carried two.
   */
  lemma OrderForgottenIff(requests: seq<Published>)
    ensures (forall other :: multiset(other) == multiset(requests) ==> Run(None, other) == Run(None, requests))
       <==> HighestAgree(requests)
  {
    if HighestAgree(requests) {
      forall other | multiset(other) == multiset(requests) ensures Run(None, other) == Run(None, requests) {
        assert forall r :: r in requests <==> r in multiset(requests);
        assert forall r :: r in other <==> r in multiset(other);
        if requests == [] {
          assert |multiset(other)| == 0;
          assert other == [];
        } else {
          DeliveryForgotten(requests, other);
        }
      }
    } else {
      var x, y :| IsHighest(x, requests) && IsHighest(y, requests) && x != y;
      var a := Moved(requests, x);
      var b := Moved(requests, y);
    }
  }
}
