/**
 Security events: a counter per event code, and a rate limit of one packet per
 second and code, kept in readings of the wrapping clock with 0 for "never".
 */
module SecurityEvents {
  import opened Bytes
  import opened TrackTable
  import opened LostMode

  const EVENT_CODES: nat := 8
  const MIN_INTERVAL_MS: nat := 1000
  const HMAC_FAILURE: nat := 1
  const REPLAY_DETECTED: nat := 2

  predicate IsCode(code: nat) {
    1 <= code <= EVENT_CODES
  }

  /** Whether an event last sent at reading `last` may be sent at reading `now`. */
  predicate Allowed(last: u32, now: u32) {
    last == 0 || Age(now, last) >= MIN_INTERVAL_MS
  }

  class EventLog {
    const counts: array<u32>
    const lastSent: array<u32>

    ghost predicate Valid() {
      counts.Length == lastSent.Length == EVENT_CODES && counts != lastSent
    }

    constructor ()
      ensures Valid() && fresh(counts) && fresh(lastSent)
      ensures forall i :: 0 <= i < EVENT_CODES ==> counts[i] == lastSent[i] == 0
    {
      counts := new u32[EVENT_CODES](_ => 0);
      lastSent := new u32[EVENT_CODES](_ => 0);
    }

    method Record(code: nat)
      requires Valid()
      modifies counts
      ensures counts[..] == if IsCode(code) then old(counts[..])[code - 1 := (old(counts[code - 1]) + 1) % WRAP32]
                            else old(counts[..])
    {
      if code < 1 || code > EVENT_CODES {
        return;
      }
      counts[code - 1] := (counts[code - 1] + 1) % WRAP32;
    }

    /** The limiter's check. */
    method MaySend(code: nat, now: u32) returns (ok: bool)
      requires Valid()
      ensures ok == (IsCode(code) && Allowed(lastSent[code - 1], now))
    {
      if code < 1 || code > EVENT_CODES {
        return false;
      }
      if lastSent[code - 1] != 0 && (now - lastSent[code - 1]) % WRAP32 < MIN_INTERVAL_MS {
        return false;
      }
      return true;
    }

    method NoteSent(code: nat, now: u32)
      requires Valid() && IsCode(code)
      modifies lastSent
      ensures lastSent[..] == old(lastSent[..])[code - 1 := now]
    {
      lastSent[code - 1] := now;
    }
  }

  // --------------------------------------------------------------------- runs

  /** An event of one code at true time `at`; `works` says whether its packet can be sent. */
  datatype Occurrence = Occurrence(at: nat, works: bool)

  ghost predicate InOrder(os: seq<Occurrence>) {
    forall i, j :: 0 <= i <= j < |os| ==> os[i].at <= os[j].at
  }

  /** The limiter's reading before occurrence `n`. */
  function Reading(os: seq<Occurrence>, n: nat): u32
    requires n <= |os|
    decreases n, 0
  {
    if n == 0 then 0 else if IsSent(os, n - 1) then Clock(os[n - 1].at) else Reading(os, n - 1)
  }

  predicate IsSent(os: seq<Occurrence>, n: nat)
    requires n < |os|
    decreases n, 1
  {
    os[n].works && Allowed(Reading(os, n), Clock(os[n].at))
  }

  /** Occurrence `j` is the next one after `i` whose packet is sent. */
  ghost predicate NextSent(os: seq<Occurrence>, i: nat, j: nat) {
    i < j < |os| && IsSent(os, i) && forall k :: i < k < j ==> !IsSent(os, k)
  }

  lemma {:induction false} ReadingOf(os: seq<Occurrence>, i: nat, j: nat)
    requires i < j <= |os| && IsSent(os, i) && forall k :: i < k < j ==> !IsSent(os, k)
    ensures Reading(os, j) == Clock(os[i].at)
  {
    hide Allowed;
    if i < j - 1 {
      ReadingOf(os, i, j - 1);
    }
  }

  /**
   Two successive packets of one code are a second of true time apart, unless
   the first went out at clock reading 0, which the limiter takes for "never".
   */
  lemma EventsAreSpaced(os: seq<Occurrence>, i: nat, j: nat)
    requires InOrder(os) && NextSent(os, i, j) && IsSent(os, j)
    ensures os[j].at - os[i].at >= MIN_INTERVAL_MS || Clock(os[i].at) == 0
  {
    ReadingOf(os, i, j);
    hide Reading, Clock, Age;
    ClockAge(os[i].at, os[j].at);
  }

  /** Within a full turn of the clock the limiter lets exactly such packets through. */
  lemma LimiterIsExact(os: seq<Occurrence>, i: nat, j: nat)
    requires InOrder(os) && NextSent(os, i, j) && os[j].works && os[j].at - os[i].at < WRAP32
    ensures IsSent(os, j) <==> os[j].at - os[i].at >= MIN_INTERVAL_MS || Clock(os[i].at) == 0
  {
    ReadingOf(os, i, j);
    hide Reading, Clock, Age;
    ClockAge(os[i].at, os[j].at);
  }

  /** The exception is real: an event at clock reading 0 is followed by another a millisecond later. */
  lemma ReadingZeroDoesNotHold(os: seq<Occurrence>)
    requires os == [Occurrence(WRAP32, true), Occurrence(WRAP32 + 1, true)]
    ensures InOrder(os) && NextSent(os, 0, 1) && IsSent(os, 1) && os[1].at - os[0].at < MIN_INTERVAL_MS
  {
    assert Clock(os[0].at) == 0 && Reading(os, 0) == 0;
    assert IsSent(os, 0);
    assert Reading(os, 1) == 0;
  }
}
