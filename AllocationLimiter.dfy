/**
  The allocation limiter object: a fixed capacity and a count of idle bytes
  that requests decrement and releases increment in place. Each method is
  specified by the function of module Accounting that it carries out.
 */
module AllocationLimiter {

  import opened Accounting

  class AllocationLimiter {
    const capacityBytes: int
    var idleBytes: int

    /** The limiter's two integers as a value of the accounting model. */
    function Snapshot(): State
      reads this
    {
      State(capacityBytes, idleBytes)
    }

    /** A new limiter whose idle bytes start at its capacity; the capacity is not validated. */
    constructor (capacityBytes: int)
      ensures this.capacityBytes == capacityBytes && idleBytes == capacityBytes
      ensures Snapshot() == New(capacityBytes)
    {
      this.capacityBytes := capacityBytes;
      idleBytes := capacityBytes;
    }

    /**
      One attempt of a request: a size above the capacity is refused before
      the idle bytes are read; otherwise the request is granted and taken
      from the idle bytes only when strictly fewer than the idle bytes.
     */
    method TryRequest(sizeBytes: int) returns (outcome: Outcome)
      modifies this
      ensures outcome == OversizedRequest <==> sizeBytes > capacityBytes
      ensures outcome == Granted <==> sizeBytes <= capacityBytes && old(idleBytes) - sizeBytes > 0
      ensures idleBytes == if outcome == Granted then old(idleBytes) - sizeBytes else old(idleBytes)
      ensures (outcome, Snapshot()) == Attempt(old(Snapshot()), sizeBytes)
    {
      if sizeBytes > capacityBytes {
        return OversizedRequest;
      }
      if idleBytes - sizeBytes > 0 {
        idleBytes := idleBytes - sizeBytes;
        outcome := Granted;
      } else {
        outcome := MustWait;
      }
    }

    /**
      A blocking request. After the oversize guard, the check is repeated.
      Each time it fails the caller waits, and other callers' releases and
      grants change the idle bytes before the next check: the net change is
      the next element of interleaved, which may be zero (a wake-up with no
      new idle bytes) or negative (a competing request was granted first).
      When interleaved runs out the request is still waiting.
     */
    method RequestAllocation(sizeBytes: int, interleaved: seq<int>) returns (outcome: Outcome)
      modifies this
      ensures (outcome, Snapshot()) == BlockingRequest(old(Snapshot()), sizeBytes, interleaved)
    {
      if sizeBytes > capacityBytes {
        return OversizedRequest;
      }
      var i := 0;
      while true
        invariant 0 <= i <= |interleaved|
        invariant Retry(Snapshot(), sizeBytes, interleaved[i..]) == BlockingRequest(old(Snapshot()), sizeBytes, interleaved)
        decreases |interleaved| - i
      {
        if idleBytes - sizeBytes > 0 {
          idleBytes := idleBytes - sizeBytes;
          return Granted;
        }
        if i == |interleaved| {
          return MustWait;
        }
        // Other callers run while this one waits.
        idleBytes := idleBytes + interleaved[i];
        i := i + 1;
      }
    }

    /** A release: its size is added to the idle bytes, with no check against the capacity or earlier grants. */
    method Deallocated(sizeBytes: int)
      modifies this
      ensures idleBytes == old(idleBytes) + sizeBytes
      ensures Snapshot() == Release(old(Snapshot()), sizeBytes)
    {
      idleBytes := idleBytes + sizeBytes;
    }
  }

  /**
    Three requests of 40 bytes against a capacity of 100, done one after the
    other: two are granted, the third waits, and after one release it is
    granted with 20 bytes left idle. A request that waits through a
    wake-up with no new idle bytes and a competing grant is granted once
    enough is released. A request for the whole capacity of a
    new limiter waits, because the grant test is strict.
   */
  method ThreeRequestsScenario()
  {
    var limiter := new AllocationLimiter(100);
    var a := limiter.TryRequest(40);
    var b := limiter.TryRequest(40);
    var c := limiter.TryRequest(40);
    assert a == Granted && b == Granted && c == MustWait;
    assert limiter.idleBytes == 20;
    c := limiter.RequestAllocation(40, [40]);
    assert c == Granted && limiter.idleBytes == 20;

    // A wake-up with nothing new, then a competing grant of 10, then a release of 50.
    var d := limiter.RequestAllocation(40, [0, -10, 50]);
    assert d == Granted && limiter.idleBytes == 20;

    var empty := new AllocationLimiter(100);
    var whole := empty.TryRequest(100);
    assert whole == MustWait;
    var over := empty.TryRequest(101);
    assert over == OversizedRequest;
  }
}
