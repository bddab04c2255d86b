/**
  The byte accounting of an allocation limiter, as values.

  A limiter has a fixed capacity and a count of idle bytes. A request is
  refused outright when it exceeds the capacity; otherwise it is granted
  only when the idle bytes minus the request stay strictly positive, and a
  release adds its size to the idle bytes without any check. The class in
  module AllocationLimiter is specified by the functions of this module.
 */
module Accounting {

  datatype Option<T> = None | Some(value: T)

  /** The two integers of the limiter: capacityBytes never changes after construction. */
  datatype State = State(capacityBytes: int, idleBytes: int)

  /** What one request attempt ends in. OversizedRequest stands for the panic. */
  datatype Outcome = Granted | MustWait | OversizedRequest

  /** One call of an application into the limiter, as seen by the shared counter. */
  datatype Event = Request(sizeBytes: int) | Dealloc(sizeBytes: int)

  /** A new limiter: every byte of the capacity is idle. */
  function New(capacityBytes: int): State
  {
    State(capacityBytes, capacityBytes)
  }

  /** One pass of a request: the oversize guard, then the strict grant test. */
  function Attempt(s: State, sizeBytes: int): (r: (Outcome, State))
    ensures r.1.capacityBytes == s.capacityBytes
    ensures r.0 == Granted ==> r.1.idleBytes > 0
    ensures r.0 != Granted ==> r.1 == s
  {
    if sizeBytes > s.capacityBytes then (OversizedRequest, s)
    else if s.idleBytes - sizeBytes > 0 then (Granted, s.(idleBytes := s.idleBytes - sizeBytes))
    else (MustWait, s)
  }

  /** A release: its size is added to the idle bytes, unchecked. */
  function Release(s: State, sizeBytes: int): State
  {
    s.(idleBytes := s.idleBytes + sizeBytes)
  }

  /**
    The retry loop after the guard: check; on failure, wait, and check again.
    While a caller waits, other callers run: releases raise the idle bytes and
    grants to competing requests lower them, and the wake-up may come from a
    notice left by a release made before the failed check. Each element of
    interleaved is the net change of the idle bytes between one failed check
    and the next, so it may be zero or negative. When no change is left the
    request is still waiting.
   */
  function Retry(s: State, sizeBytes: int, interleaved: seq<int>): (Outcome, State)
    decreases |interleaved|
  {
    if s.idleBytes - sizeBytes > 0 then (Granted, s.(idleBytes := s.idleBytes - sizeBytes))
    else if interleaved == [] then (MustWait, s)
    else Retry(s.(idleBytes := s.idleBytes + interleaved[0]), sizeBytes, interleaved[1..])
  }

  /** A blocking request: the guard runs once, then the retry loop. */
  function BlockingRequest(s: State, sizeBytes: int, interleaved: seq<int>): (Outcome, State)
  {
    if sizeBytes > s.capacityBytes then (OversizedRequest, s)
    else Retry(s, sizeBytes, interleaved)
  }

  function Sum(xs: seq<int>): int
  {
    if xs == [] then 0 else xs[0] + Sum(xs[1..])
  }

  /** xs with one occurrence of x taken out. */
  function Remove(xs: seq<int>, x: int): (r: seq<int>)
    requires x in xs
    ensures |r| == |xs| - 1
    ensures multiset(r) == multiset(xs) - multiset{x}
  {
    assert xs == [xs[0]] + xs[1..];
    if xs[0] == x then xs[1..] else [xs[0]] + Remove(xs[1..], x)
  }

  /**
    Replays a sequence of single request attempts and releases, keeping the
    ledger of the sizes granted and not yet released. A release that matches
    no outstanding grant breaks the pairing callers are trusted to keep: the
    replay then has no result.
   */
  function Replay(s: State, held: seq<int>, events: seq<Event>): Option<(State, seq<int>)>
    decreases |events|
  {
    if events == [] then Some((s, held))
    else match Step(s, held, events[0])
      case None => None
      case Some((s', held')) => Replay(s', held', events[1..])
  }

  /** One event of a replay: a granted request joins the ledger, a release leaves it. */
  function Step(s: State, held: seq<int>, e: Event): Option<(State, seq<int>)>
  {
    match e
    case Request(n) =>
      var (o, s') := Attempt(s, n);
      Some((s', if o == Granted then held + [n] else held))
    case Dealloc(n) =>
      if n in held then Some((Release(s, n), Remove(held, n))) else None
  }

  /** The idle bytes plus the bytes held account for the whole capacity, and all of them are positive. */
  ghost predicate Balanced(s: State, held: seq<int>)
  {
    && s.idleBytes + Sum(held) == s.capacityBytes
    && s.idleBytes > 0
    && forall i :: 0 <= i < |held| ==> held[i] > 0
  }

  ghost predicate PositiveRequests(events: seq<Event>)
  {
    forall i :: 0 <= i < |events| && events[i].Request? ==> events[i].sizeBytes > 0
  }

  // ---------------------------------------------------------------------
  // One request attempt

  /** The oversize guard reads only the capacity: whatever the idle bytes, nothing changes. */
  lemma OversizedWhateverIdle(s: State, sizeBytes: int)
    requires sizeBytes > s.capacityBytes
    ensures Attempt(s, sizeBytes) == (OversizedRequest, s)
  {
  }

  /** A request is granted exactly when it fits the capacity and is strictly below the idle bytes. */
  lemma GrantedIff(s: State, sizeBytes: int)
    ensures Attempt(s, sizeBytes).0 == Granted <==> sizeBytes <= s.capacityBytes && sizeBytes < s.idleBytes
    ensures Attempt(s, sizeBytes).0 == Granted ==> Attempt(s, sizeBytes).1.idleBytes == s.idleBytes - sizeBytes
  {
  }

  /** Asking for exactly the idle bytes is never granted. */
  lemma ExactIdleNotGranted(s: State)
    ensures Attempt(s, s.idleBytes).0 != Granted
  {
  }

  /** A grant followed by the release of the same size restores the state. */
  lemma GrantThenReleaseRestores(s: State, sizeBytes: int)
    requires Attempt(s, sizeBytes).0 == Granted
    ensures Release(Attempt(s, sizeBytes).1, sizeBytes) == s
  {
  }

  /** Releases are unchecked: one from a new limiter pushes the idle bytes above the capacity. */
  lemma OverReleaseExceedsCapacity(capacityBytes: int, sizeBytes: int)
    requires sizeBytes > 0
    ensures Release(New(capacityBytes), sizeBytes).idleBytes > capacityBytes
    ensures Replay(New(capacityBytes), [], [Dealloc(sizeBytes)]) == None
  {
  }

  // ---------------------------------------------------------------------
  // Grants alone

  /** Applies one request attempt per size, in order. */
  function AttemptAll(s: State, sizes: seq<int>): State
    decreases |sizes|
  {
    if sizes == [] then s else AttemptAll(Attempt(s, sizes[0]).1, sizes[1..])
  }

  /** Requests alone never bring positive idle bytes down to zero, and never touch the capacity. */
  lemma {:induction false} AttemptAllKeepsIdlePositive(s: State, sizes: seq<int>)
    requires s.idleBytes > 0
    ensures AttemptAll(s, sizes).idleBytes > 0
    ensures AttemptAll(s, sizes).capacityBytes == s.capacityBytes
    decreases |sizes|
  {
    if sizes != [] {
      AttemptAllKeepsIdlePositive(Attempt(s, sizes[0]).1, sizes[1..]);
    }
  }

  // ---------------------------------------------------------------------
  // The retry loop

  lemma SumPrefixTail(xs: seq<int>, k: nat)
    requires 0 < k <= |xs|
    ensures Sum(xs[..k]) == xs[0] + Sum(xs[1..][..k - 1])
  {
    assert xs[..k][1..] == xs[1..][..k - 1];
  }

  /** Whether the strict test passes once the first k interleaved changes have been applied. */
  ghost predicate PassesAfter(s: State, sizeBytes: int, interleaved: seq<int>, k: int)
    requires 0 <= k <= |interleaved|
  {
    s.idleBytes + Sum(interleaved[..k]) - sizeBytes > 0
  }

  /**
    The retry loop grants exactly when the idle bytes plus some prefix of the
    interleaved changes pass the strict test. It grants at the first such
    prefix, taking exactly the requested size; it never grants part of a
    request, and while it waits the idle bytes are the start plus every change.
   */
  lemma {:induction false} RetryOutcome(s: State, sizeBytes: int, interleaved: seq<int>)
    ensures Retry(s, sizeBytes, interleaved).0 != OversizedRequest
    ensures Retry(s, sizeBytes, interleaved).1.capacityBytes == s.capacityBytes
    ensures Retry(s, sizeBytes, interleaved).0 == Granted <==>
      exists k :: 0 <= k <= |interleaved| && PassesAfter(s, sizeBytes, interleaved, k)
    ensures Retry(s, sizeBytes, interleaved).0 == Granted ==>
      exists k :: 0 <= k <= |interleaved| && PassesAfter(s, sizeBytes, interleaved, k)
        && (forall j :: 0 <= j < k ==> !PassesAfter(s, sizeBytes, interleaved, j))
        && Retry(s, sizeBytes, interleaved).1.idleBytes == s.idleBytes + Sum(interleaved[..k]) - sizeBytes
    ensures Retry(s, sizeBytes, interleaved).0 == Granted ==> Retry(s, sizeBytes, interleaved).1.idleBytes > 0
    ensures Retry(s, sizeBytes, interleaved).0 == MustWait ==>
      Retry(s, sizeBytes, interleaved).1.idleBytes == s.idleBytes + Sum(interleaved)
    decreases |interleaved|
  {
    if s.idleBytes - sizeBytes > 0 {
      assert interleaved[..0] == [];
      assert PassesAfter(s, sizeBytes, interleaved, 0);
    } else if interleaved == [] {
      forall k | 0 <= k <= |interleaved|
        ensures !PassesAfter(s, sizeBytes, interleaved, k)
      {
        assert interleaved[..k] == [];
      }
    } else {
      var s' := s.(idleBytes := s.idleBytes + interleaved[0]);
      var rest := interleaved[1..];
      RetryOutcome(s', sizeBytes, rest);
      // Every prefix of rest is a prefix of interleaved, one change shorter.
      forall k | 0 < k <= |interleaved|
        ensures PassesAfter(s, sizeBytes, interleaved, k) == PassesAfter(s', sizeBytes, rest, k - 1)
      {
        SumPrefixTail(interleaved, k);
      }
      assert interleaved[..0] == [];
      assert !PassesAfter(s, sizeBytes, interleaved, 0);
      if Retry(s, sizeBytes, interleaved).0 == Granted {
        var j :| 0 <= j <= |rest| && PassesAfter(s', sizeBytes, rest, j)
          && (forall i :: 0 <= i < j ==> !PassesAfter(s', sizeBytes, rest, i))
          && Retry(s', sizeBytes, rest).1.idleBytes == s'.idleBytes + Sum(rest[..j]) - sizeBytes;
        SumPrefixTail(interleaved, j + 1);
        assert PassesAfter(s, sizeBytes, interleaved, j + 1);
        forall i | 0 <= i < j + 1 ensures !PassesAfter(s, sizeBytes, interleaved, i) {
          if i > 0 {
            assert !PassesAfter(s', sizeBytes, rest, i - 1);
          }
        }
      } else {
        forall k | 0 <= k <= |interleaved|
          ensures !PassesAfter(s, sizeBytes, interleaved, k)
        {
          if k > 0 {
            assert !PassesAfter(s', sizeBytes, rest, k - 1);
          }
        }
      }
    }
  }

  /** With no other caller running while it waits, a blocking request is a single attempt. */
  lemma BlockingAloneIsOneAttempt(s: State, sizeBytes: int)
    ensures BlockingRequest(s, sizeBytes, []) == Attempt(s, sizeBytes)
  {
  }

  /** The oversize guard runs once, before any check or wait, whatever the idle bytes and the other callers do. */
  lemma BlockingOversizedWhateverIdle(s: State, sizeBytes: int, interleaved: seq<int>)
    requires sizeBytes > s.capacityBytes
    ensures BlockingRequest(s, sizeBytes, interleaved) == (OversizedRequest, s)
  {
  }

  // ---------------------------------------------------------------------
  // Callers that pair their requests and releases

  lemma {:induction false} SumRemove(xs: seq<int>, x: int)
    requires x in xs
    ensures Sum(xs) == x + Sum(Remove(xs, x))
  {
    if xs[0] != x {
      SumRemove(xs[1..], x);
    }
  }

  lemma {:induction false} SumAppend(xs: seq<int>, x: int)
    ensures Sum(xs + [x]) == Sum(xs) + x
  {
    if xs != [] {
      assert (xs + [x])[1..] == xs[1..] + [x];
      SumAppend(xs[1..], x);
    }
  }

  lemma {:induction false} SumPositive(xs: seq<int>)
    requires forall i :: 0 <= i < |xs| ==> xs[i] > 0
    ensures Sum(xs) >= 0
    ensures xs != [] ==> Sum(xs) > 0
  {
    if xs != [] {
      SumPositive(xs[1..]);
    }
  }

  /** One paired event with a positive request size keeps the balance and the capacity. */
  lemma StepKeepsBalance(s: State, held: seq<int>, e: Event)
    requires Balanced(s, held)
    requires e.Request? ==> e.sizeBytes > 0
    requires Step(s, held, e).Some?
    ensures Step(s, held, e).value.0.capacityBytes == s.capacityBytes
    ensures Balanced(Step(s, held, e).value.0, Step(s, held, e).value.1)
  {
    match e
    case Request(n) =>
      if Attempt(s, n).0 == Granted {
        SumAppend(held, n);
      }
    case Dealloc(n) =>
      SumRemove(held, n);
      var r := Remove(held, n);
      forall i | 0 <= i < |r| ensures r[i] > 0 {
        assert r[i] in multiset(r);
      }
  }

  /**
    When callers release only what they were granted and request positive
    sizes, every step keeps the idle bytes and the outstanding grants adding
    up to the capacity, with the idle bytes strictly positive.
   */
  lemma {:induction false} ReplayKeepsBalance(s: State, held: seq<int>, events: seq<Event>)
    requires Balanced(s, held)
    requires PositiveRequests(events)
    requires Replay(s, held, events).Some?
    ensures Replay(s, held, events).value.0.capacityBytes == s.capacityBytes
    ensures Balanced(Replay(s, held, events).value.0, Replay(s, held, events).value.1)
    decreases |events|
  {
    if events != [] {
      assert events[0].Request? ==> events[0].sizeBytes > 0;
      StepKeepsBalance(s, held, events[0]);
      var (s', held') := Step(s, held, events[0]).value;
      assert PositiveRequests(events[1..]) by {
        forall i | 0 <= i < |events[1..]| && events[1..][i].Request?
          ensures events[1..][i].sizeBytes > 0
        {
          assert events[1..][i] == events[i + 1];
        }
      }
      ReplayKeepsBalance(s', held', events[1..]);
    }
  }

  /**
    From a new limiter with a positive capacity, paired callers asking for
    positive sizes always see idle bytes strictly between zero and the
    capacity (inclusive above), and the bytes they hold stay below the
    capacity.
   */
  lemma PairedCallersStayWithinCapacity(capacityBytes: int, events: seq<Event>)
    requires capacityBytes > 0
    requires PositiveRequests(events)
    requires Replay(New(capacityBytes), [], events).Some?
    ensures Replay(New(capacityBytes), [], events).value.0.capacityBytes == capacityBytes
    ensures 0 < Replay(New(capacityBytes), [], events).value.0.idleBytes <= capacityBytes
    ensures 0 <= Sum(Replay(New(capacityBytes), [], events).value.1) < capacityBytes
  {
    ReplayKeepsBalance(New(capacityBytes), [], events);
    SumPositive(Replay(New(capacityBytes), [], events).value.1);
  }

  /**
    Because the grant test is strict, a request for the whole capacity is
    never granted to paired callers, however they have interleaved: it
    passes the oversize guard and then waits.
   */
  lemma CapacityRequestNeverGranted(capacityBytes: int, events: seq<Event>)
    requires capacityBytes > 0
    requires PositiveRequests(events)
    requires Replay(New(capacityBytes), [], events).Some?
    ensures Attempt(Replay(New(capacityBytes), [], events).value.0, capacityBytes).0 == MustWait
  {
    PairedCallersStayWithinCapacity(capacityBytes, events);
  }
}
