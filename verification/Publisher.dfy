/** Publishing with bounded retries: one payload, at most so many attempts, waits that grow
    geometrically. */
module Publisher {
  import opened Calendar
  import opened Protocol
  import Events
  import Uuid

  const MAX_RETRIES: nat := 3
  const RETRY_BASE: int := 5 * SECOND
  const RETRY_MULTIPLE: int := 5
  const MAX_INT64 := 0x7fff_ffff_ffff_ffff

  /** What each attempt meets, and whether the caller's context ends during the wait after it. */
  datatype Weather = Weather(outcome: Outcome, cancelled: bool)

  /** The attempt that ends the loop, counting from the given one. */
  function LastAttempt(weather: seq<Weather>, first: nat): nat
    requires 1 <= first <= |weather|
    decreases |weather| - first
  {
    var w := weather[first - 1];
    if w.outcome == Acknowledged || first == |weather| || w.cancelled then first
    else LastAttempt(weather, first + 1)
  }

  /** The copies that so many attempts leave in the stream. */
  function Delivered(message: Events.CloudEvent, weather: seq<Weather>, attempts: nat): seq<Events.CloudEvent>
    requires attempts <= |weather|
  {
    if attempts == 0 then []
    else
      Delivered(message, weather, attempts - 1)
      + if weather[attempts - 1].outcome == NotApplied then [] else [message]
  }

  function Pow(base: int, k: nat): int {
    if k == 0 then 1 else base * Pow(base, k - 1)
  }

  /** 64-bit two's complement. */
  function Wrap64(n: int): int {
    var m := n % (2 * (MAX_INT64 + 1));
    if m > MAX_INT64 then m - 2 * (MAX_INT64 + 1) else m
  }

  function Sum(waits: seq<int>): int {
    if waits == [] then 0 else Sum(waits[..|waits| - 1]) + waits[|waits| - 1]
  }

  /** The attempt that ends the loop is the first that is acknowledged or cancelled, or else
      the last one allowed. */
  lemma {:induction false} LastAttemptIsFirstEnd(weather: seq<Weather>, first: nat)
    requires 1 <= first <= |weather|
    ensures var last := LastAttempt(weather, first);
            && first <= last <= |weather|
            && (forall k :: first - 1 <= k < last - 1 ==> weather[k].outcome != Acknowledged && !weather[k].cancelled)
            && (last < |weather| ==> weather[last - 1].outcome == Acknowledged || weather[last - 1].cancelled)
    decreases |weather| - first
  {
    var w := weather[first - 1];
    if w.outcome != Acknowledged && first < |weather| && !w.cancelled {
      LastAttemptIsFirstEnd(weather, first + 1);
    }
  }

  lemma {:induction false} PowAscends(base: int, j: nat, k: nat)
    requires base >= 1 && j <= k
    ensures 1 <= Pow(base, j) <= Pow(base, k)
    decreases k
  {
    if k > 0 {
      PowAscends(base, if j < k then j else k - 1, k - 1);
      Grows(base, Pow(base, k - 1));
    }
  }

  lemma Grows(base: int, p: int)
    requires base >= 1 && p >= 1
    ensures base * p >= p
  {
    assert base * p == p + (base - 1) * p;
    assert (base - 1) * p >= 0;
  }

  lemma ScaledFits(base: int, p: int, q: int)
    requires base >= 0 && 0 <= p <= q && base * q <= MAX_INT64
    ensures Wrap64(base * p) == base * p
  {
    assert base * q == base * p + base * (q - p);
    assert base * (q - p) >= 0 && base * p >= 0;
  }

  function NextWait(wait: int, multiple: int): int {
    Wrap64(wait * multiple)
  }

  /** The waits between attempts: each the wrapped multiple of the one before. */
  function Wait(base: int, multiple: int, k: nat): int {
    if k == 0 then base else NextWait(Wait(base, multiple, k - 1), multiple)
  }

  lemma {:induction false} WaitIsGeometric(base: int, multiple: int, k: nat, n: nat)
    requires base >= 0 && multiple >= 1 && k <= n && base * Pow(multiple, n) <= MAX_INT64
    ensures Wait(base, multiple, k) == base * Pow(multiple, k)
  {
    if k > 0 {
      WaitIsGeometric(base, multiple, k - 1, n);
      PowAscends(multiple, k, n);
      WaitDoesNotWrap(base, multiple, Pow(multiple, k - 1), Pow(multiple, n));
    }
  }

  lemma WaitDoesNotWrap(base: int, multiple: int, p: int, longest: int)
    requires base >= 0 && 0 <= multiple * p <= longest && base * longest <= MAX_INT64
    ensures Wrap64(base * p * multiple) == base * (multiple * p)
  {
    assert base * p * multiple == base * (multiple * p);
    ScaledFits(base, multiple * p, longest);
  }

  /** The waits stay geometric exactly when the longest of them fits 64 bits. */
  lemma WaitsExactIffLongestFits(base: int, multiple: int, n: nat)
    requires 0 <= base <= MAX_INT64 && multiple >= 1
    ensures (forall k: nat :: k <= n ==> Wait(base, multiple, k) == base * Pow(multiple, k))
            <==> base * Pow(multiple, n) <= MAX_INT64
  {
    if base * Pow(multiple, n) <= MAX_INT64 {
      forall k: nat | k <= n
        ensures Wait(base, multiple, k) == base * Pow(multiple, k)
      {
        WaitIsGeometric(base, multiple, k, n);
      }
    } else {
      assert Wait(base, multiple, n) <= MAX_INT64;
    }
  }

  /** As long as the longest wait fits 64 bits nothing wraps, and the waits before attempt
      k + 1 add up to base * (multiple^k - 1) / (multiple - 1). */
  lemma {:induction false} TotalWait(base: int, multiple: int, waits: seq<int>, n: nat)
    requires base >= 0 && multiple >= 1 && |waits| <= n + 1 && base * Pow(multiple, n) <= MAX_INT64
    requires forall k :: 0 <= k < |waits| ==> waits[k] == Wait(base, multiple, k)
    ensures Sum(waits) * (multiple - 1) == base * (Pow(multiple, |waits|) - 1)
  {
    if waits != [] {
      var k := |waits| - 1;
      TotalWait(base, multiple, waits[..k], n);
      WaitIsGeometric(base, multiple, k, n);
      var p := Pow(multiple, k);
      assert Sum(waits) == Sum(waits[..k]) + base * p;
      Geometric(base, multiple, p, Sum(waits[..k]));
    }
  }

  lemma Geometric(base: int, multiple: int, p: int, sum: int)
    requires sum * (multiple - 1) == base * (p - 1)
    ensures (sum + base * p) * (multiple - 1) == base * (multiple * p - 1)
  {
    assert (sum + base * p) * (multiple - 1) == sum * (multiple - 1) + base * p * (multiple - 1);
    assert base * p * (multiple - 1) == base * (p * (multiple - 1));
    assert p - 1 + p * (multiple - 1) == multiple * p - 1;
    assert base * (p - 1) + base * (p * (multiple - 1)) == base * (p - 1 + p * (multiple - 1));
  }

  class EventPublisher {
    var stream: seq<Events.CloudEvent>

    constructor ()
      ensures stream == []
    {
      stream := [];
    }

    /** Sends one payload until an attempt is acknowledged, the context ends, or the attempts
        are used up; `waits` are the waits that were sat out. */
    method Retry(data: Events.CloudEvent, base: int, multiple: int, weather: seq<Weather>)
      returns (attempts: nat, waits: seq<int>)
      modifies this
      ensures attempts == if weather == [] then 0 else LastAttempt(weather, 1)
      ensures attempts <= |weather| && stream == old(stream) + Delivered(data, weather, attempts)
      ensures |waits| == if attempts == 0 then 0 else attempts - 1
      ensures forall k :: 0 <= k < |waits| ==> waits[k] == Wait(base, multiple, k)
    {
      attempts, waits := 0, [];
      var wait := base;
      while attempts < |weather|
        invariant attempts <= |weather|
        invariant attempts < |weather| ==> LastAttempt(weather, 1) == LastAttempt(weather, attempts + 1)
        invariant attempts == |weather| > 0 ==> LastAttempt(weather, 1) == |weather|
        invariant stream == old(stream) + Delivered(data, weather, attempts)
        invariant |waits| == if 0 < attempts == |weather| then attempts - 1 else attempts
        invariant attempts < |weather| ==> wait == Wait(base, multiple, attempts)
        invariant forall k :: 0 <= k < |waits| ==> waits[k] == Wait(base, multiple, k)
      {
        var w := weather[attempts];
        Attempt(data, w.outcome);
        attempts := attempts + 1;
        if w.outcome == Acknowledged {
          return;
        }
        if attempts < |weather| {
          if w.cancelled {
            return;
          }
          waits := waits + [wait];
          wait := NextWait(wait, multiple);
        }
      }
    }

    method Attempt(data: Events.CloudEvent, outcome: Outcome)
      modifies this
      ensures stream == old(stream) + if outcome == NotApplied then [] else [data]
    {
      if outcome != NotApplied {
        stream := stream + [data];
      }
    }

    /** The payload is built once, before the loop. */
    method Publish(event: Events.PolicyEvent, freshId: Uuid.Id, weather: seq<Weather>) returns (attempts: nat, waits: seq<int>)
      requires |weather| == MAX_RETRIES
      modifies this
      ensures 1 <= attempts <= 3 && attempts == LastAttempt(weather, 1)
      ensures waits == [5 * SECOND, 25 * SECOND][..attempts - 1]
      ensures attempts == 3 ==> Sum(waits) == 30 * SECOND
      ensures |stream| == |old(stream)| + Reached(weather, attempts) && stream[..|old(stream)|] == old(stream)
      ensures forall i :: |old(stream)| <= i < |stream| ==>
                Events.Announces(stream[i], event, freshId) && stream[i] == stream[|old(stream)|]
    {
      var data := Events.ToCloudEvent(event, freshId);
      Events.EnvelopeAnnounces(event, freshId);
      attempts, waits := Retry(data, RETRY_BASE, RETRY_MULTIPLE, weather);
      LastAttemptIsFirstEnd(weather, 1);
      DeliveredCopies(data, weather, attempts);
      FiveThenTwentyFive(waits);
      if attempts == 3 {
        ThirtySeconds(waits);
      }
    }
  }

  /** How many of the first attempts reach the stream. */
  function Reached(weather: seq<Weather>, attempts: nat): nat
    requires attempts <= |weather|
  {
    if attempts == 0 then 0
    else Reached(weather, attempts - 1) + if weather[attempts - 1].outcome == NotApplied then 0 else 1
  }

  lemma {:induction false} DeliveredCopies(message: Events.CloudEvent, weather: seq<Weather>, attempts: nat)
    requires attempts <= |weather|
    ensures |Delivered(message, weather, attempts)| == Reached(weather, attempts)
    ensures forall i :: 0 <= i < |Delivered(message, weather, attempts)| ==> Delivered(message, weather, attempts)[i] == message
  {
    if attempts > 0 {
      DeliveredCopies(message, weather, attempts - 1);
    }
  }

  lemma FiveThenTwentyFive(waits: seq<int>)
    requires |waits| <= 2 && forall k :: 0 <= k < |waits| ==> waits[k] == Wait(RETRY_BASE, RETRY_MULTIPLE, k)
    ensures waits == [5 * SECOND, 25 * SECOND][..|waits|]
  {
    assert Wait(RETRY_BASE, RETRY_MULTIPLE, 0) == 5 * SECOND;
    assert Wait(RETRY_BASE, RETRY_MULTIPLE, 1) == 25 * SECOND;
  }

  /** The waits of three failed attempts add up to 30 seconds. */
  lemma ThirtySeconds(waits: seq<int>)
    requires |waits| == 2 && forall k :: 0 <= k < |waits| ==> waits[k] == Wait(RETRY_BASE, RETRY_MULTIPLE, k)
    ensures Sum(waits) == 30 * SECOND
  {
    assert Pow(RETRY_MULTIPLE, 2) == 25;
    TotalWait(RETRY_BASE, RETRY_MULTIPLE, waits, 2);
  }

  // ---- the loop and the protocol --------------------------------------------------------------

  /** The attempts of one request, as steps of the interleaved protocol. */
  function Attempts(s: State, r: nat, weather: seq<Weather>, attempts: nat): State
    requires attempts <= |weather|
  {
    if attempts == 0 then s else NextSend(Attempts(s, r, weather, attempts - 1), r, weather[attempts - 1].outcome)
  }

  lemma {:induction false} SendingGoesOn(s: State, r: nat, weather: seq<Weather>, attempts: nat)
    requires r in s.requests && s.requests[r].Sending? && s.requests[r].attempts == 0
    requires |weather| == MAX_RETRIES && attempts < MAX_RETRIES
    requires forall k :: 0 <= k < attempts ==> weather[k].outcome != Acknowledged
    ensures var t := Attempts(s, r, weather, attempts);
            && r in t.requests && t.requests[r] == Sending(s.requests[r].message, attempts)
            && t.stream == s.stream + Delivered(s.requests[r].message, weather, attempts)
  {
    if attempts > 0 {
      SendingGoesOn(s, r, weather, attempts - 1);
    }
  }

  /** Without a cancelled context, the loop leaves in the stream exactly what the protocol's
      send steps leave, and after its attempts the request is done. */
  lemma LoopRefinesSends(s: State, r: nat, weather: seq<Weather>)
    requires r in s.requests && s.requests[r].Sending? && s.requests[r].attempts == 0
    requires |weather| == MAX_RETRIES && forall k :: 0 <= k < |weather| ==> !weather[k].cancelled
    ensures var last := LastAttempt(weather, 1);
            && last <= |weather|
            && var t := Attempts(s, r, weather, last);
               r !in t.requests && t.stream == s.stream + Delivered(s.requests[r].message, weather, last)
  {
    LastAttemptIsFirstEnd(weather, 1);
    var last := LastAttempt(weather, 1);
    SendingGoesOn(s, r, weather, last - 1);
  }
}
