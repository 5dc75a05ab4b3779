/**
 The Lost Mode timer: a node that has been taken live and hears no manager poll
 for more than nine seconds announces itself every three seconds. All times are
 readings of a 32-bit millisecond clock; the theorems are about true time.
 */
module LostMode {
  import opened Bytes
  import opened TrackTable

  const POLL_TIME_MS: nat := 3000
  const LOST_THRESHOLD_MS: nat := 9000

  datatype Life = Life(live: bool, keysValid: bool, lost: bool, lastPoll: u32, lastLost: u32)

  /** `announced` says whether the on-boot announcement could be sent. */
  datatype Event = GoLive(announced: bool) | PollHeard | Tick | Provision | Deprovision

  function NewLife(): Life {
    Life(false, false, false, 0, 0)
  }

  /** A timer tick: enters Lost Mode when the last poll is too old, and announces when it is due. */
  function OnTick(s: Life, now: u32): (Life, bool) {
    if !s.live || !s.keysValid then (s, false)
    else
      var entering := !s.lost && Age(now, s.lastPoll) > LOST_THRESHOLD_MS;
      var last := if entering then (now - POLL_TIME_MS) % WRAP32 else s.lastLost;
      var lost := s.lost || entering;
      if lost && Age(now, last) >= POLL_TIME_MS then (s.(lost := lost, lastLost := now), true)
      else (s.(lost := lost, lastLost := last), false)
  }

  /** What a tick does: entering always announces, on the same tick. */
  lemma TickCases(s: Life, now: u32)
    ensures var (r, announces) := OnTick(s, now);
            && r == s.(lost := r.lost, lastLost := r.lastLost)
            && (r.lost <==> s.lost || (s.live && s.keysValid && Age(now, s.lastPoll) > LOST_THRESHOLD_MS))
            && (announces <==> s.live && s.keysValid && if s.lost then Age(now, s.lastLost) >= POLL_TIME_MS else r.lost)
            && r.lastLost == if announces then now else s.lastLost
  {
    var last := (now - POLL_TIME_MS) % WRAP32;
    assert Age(now, last) == POLL_TIME_MS by {
      assert last == if now >= POLL_TIME_MS then now - POLL_TIME_MS else now - POLL_TIME_MS + WRAP32;
    }
  }

  /** The node's move on one event, and whether it attempts a Lost Mode announcement. */
  function React(s: Life, e: Event, now: u32): (Life, bool) {
    match e
    case GoLive(announced) =>
      (if s.keysValid && announced then s.(live := true, lost := false, lastPoll := now) else s, false)
    case PollHeard =>
      (if s.keysValid then s.(lost := false, lastPoll := now) else s, false)
    case Tick => OnTick(s, now)
    case Provision => (s.(keysValid := true), false)
    case Deprovision => (s.(keysValid := false), false)
  }

  class Watchdog {
    var live: bool
    var keysValid: bool
    var lost: bool
    var lastPoll: u32
    var lastLost: u32

    function State(): Life
      reads this
    {
      Life(live, keysValid, lost, lastPoll, lastLost)
    }

    constructor ()
      ensures State() == NewLife()
    {
      live, keysValid, lost, lastPoll, lastLost := false, false, false, 0, 0;
    }

    method SetKeys(valid: bool)
      modifies this
      ensures State() == React(old(State()), if valid then Provision else Deprovision, 0).0
    {
      keysValid := valid;
    }

    method ButtonGoLive(announced: bool, now: u32)
      modifies this
      ensures State() == React(old(State()), GoLive(announced), now).0
    {
      if !keysValid {
        return;
      }
      if !announced {
        return;
      }
      live := true;
      lost := false;
      lastPoll := now;
    }

    /** Any authenticated poll; packets are only authenticated while there are keys. */
    method HearPoll(now: u32)
      requires keysValid
      modifies this
      ensures State() == React(old(State()), PollHeard, now).0
    {
      lastPoll := now;
      if lost {
        lost := false;
      }
    }

    method TimerTick(now: u32) returns (announce: bool)
      modifies this
      ensures (State(), announce) == React(old(State()), Tick, now)
    {
      announce := false;
      if live && keysValid {
        if !lost {
          if (now - lastPoll) % WRAP32 > LOST_THRESHOLD_MS {
            lost := true;
            lastLost := (now - POLL_TIME_MS) % WRAP32;
          }
        }
        if lost {
          if (now - lastLost) % WRAP32 >= POLL_TIME_MS {
            announce := true;
            lastLost := now;
          }
        }
      }
    }
  }

  // --------------------------------------------------------------------- runs

  /** An event `at` milliseconds of true time after the start. */
  datatype Timed = Timed(at: nat, event: Event)

  function Clock(t: nat): u32 {
    t % WRAP32
  }

  /** The age the clock shows never exceeds the true age, and is exact below a full turn of the clock. */
  lemma ClockAge(seenAt: nat, now: nat)
    requires seenAt <= now
    ensures Age(Clock(now), Clock(seenAt)) <= now - seenAt
    ensures now - seenAt < WRAP32 ==> Age(Clock(now), Clock(seenAt)) == now - seenAt
  {
    ModularAge(seenAt, now);
  }

  ghost predicate InTime(es: seq<Timed>) {
    forall i, j :: 0 <= i <= j < |es| ==> es[i].at <= es[j].at
  }

  /** The node after the first `n` events. */
  function LifeAfter(es: seq<Timed>, n: nat): Life
    requires n <= |es|
  {
    if n == 0 then NewLife() else React(LifeAfter(es, n - 1), es[n - 1].event, Clock(es[n - 1].at)).0
  }

  predicate Announces(es: seq<Timed>, n: nat)
    requires n < |es|
  {
    React(LifeAfter(es, n), es[n].event, Clock(es[n].at)).1
  }

  /** Event `n` is a poll or a Go Live that takes effect. */
  predicate Hears(es: seq<Timed>, n: nat)
    requires n < |es|
  {
    LifeAfter(es, n).keysValid && (es[n].event.PollHeard? || es[n].event == GoLive(true))
  }

  /** True time of the last such event among the first `n`; 0 before there is one. */
  ghost function HeardAt(es: seq<Timed>, n: nat): nat
    requires n <= |es|
  {
    if n == 0 then 0 else if Hears(es, n - 1) then es[n - 1].at else HeardAt(es, n - 1)
  }

  /** True time of the last announcement attempt among the first `n` events; -1 before there is one. */
  ghost function AnnouncedAt(es: seq<Timed>, n: nat): int
    requires n <= |es|
  {
    if n == 0 then -1 else if Announces(es, n - 1) then es[n - 1].at else AnnouncedAt(es, n - 1)
  }

  /** The clock readings a node keeps are the wrapped images of the true times they stand for. */
  ghost predicate Faithful(s: Life, heard: nat, announced: int, now: nat) {
    && heard <= now && announced <= now
    && s.lastPoll == Clock(heard)
    && (s.lost ==> 0 <= announced && s.lastLost == Clock(announced) && heard <= announced)
    && (!s.lost ==> announced <= heard)
  }

  /** One event at true time `t`: the readings stay faithful, and time has passed as it should. */
  lemma OneEvent(s: Life, heard: nat, announced: int, e: Event, t: nat)
    requires Faithful(s, heard, announced, t)
    ensures var (r, announces) := React(s, e, Clock(t));
            && Faithful(r, if s.keysValid && (e.PollHeard? || e == GoLive(true)) then t else heard,
                        if announces then t else announced, t)
            && (announces && announced >= 0 ==> t - announced >= POLL_TIME_MS)
            && (!s.lost && r.lost ==> e.Tick? && announces && s.live && t - heard > LOST_THRESHOLD_MS)
  {
    hide Age, OnTick, Clock;
    TickCases(s, Clock(t));
    ClockAge(heard, t);
    if announced >= 0 {
      ClockAge(announced, t);
    }
  }

  lemma {:induction false} AlwaysFaithful(es: seq<Timed>, n: nat, now: nat)
    requires InTime(es) && n <= |es| && (n > 0 ==> es[n - 1].at <= now)
    ensures Faithful(LifeAfter(es, n), HeardAt(es, n), AnnouncedAt(es, n), now)
  {
    if n > 0 {
      hide React, Faithful;
      AlwaysFaithful(es, n - 1, es[n - 1].at);
      OneEvent(LifeAfter(es, n - 1), HeardAt(es, n - 1), AnnouncedAt(es, n - 1), es[n - 1].event, es[n - 1].at);
      LaterIsFaithful(LifeAfter(es, n), HeardAt(es, n), AnnouncedAt(es, n), es[n - 1].at, now);
    } else {
      assert Clock(0) == 0;
    }
  }

  lemma LaterIsFaithful(s: Life, heard: nat, announced: int, earlier: nat, now: nat)
    requires Faithful(s, heard, announced, earlier) && earlier <= now
    ensures Faithful(s, heard, announced, now)
  {
  }

  lemma {:induction false} HeardIsLast(es: seq<Timed>, n: nat, i: nat)
    requires InTime(es) && i < n <= |es| && Hears(es, i)
    ensures es[i].at <= HeardAt(es, n)
  {
    hide Hears;
    if i < n - 1 {
      HeardIsLast(es, n - 1, i);
    }
  }

  lemma {:induction false} AnnouncedIsLast(es: seq<Timed>, n: nat, i: nat)
    requires InTime(es) && i < n <= |es| && Announces(es, i)
    ensures es[i].at <= AnnouncedAt(es, n)
  {
    hide Announces;
    if i < n - 1 {
      AnnouncedIsLast(es, n - 1, i);
    }
  }

  lemma {:induction false} LiveWasTakenLive(es: seq<Timed>, n: nat) returns (i: nat)
    requires n <= |es| && LifeAfter(es, n).live
    ensures i < n && Hears(es, i) && es[i].event.GoLive?
  {
    hide Age;
    if LifeAfter(es, n - 1).live {
      i := LiveWasTakenLive(es, n - 1);
    } else {
      i := n - 1;
    }
  }

  /**
   Lost Mode is entered only by a timer tick of a node that was taken live, and
   only more than nine seconds of true time after every poll and Go Live.
   */
  lemma EnteredOnlyAfterSilence(es: seq<Timed>, n: nat)
    requires InTime(es) && n < |es|
    requires !LifeAfter(es, n).lost && LifeAfter(es, n + 1).lost
    ensures es[n].event.Tick? && Announces(es, n)
    ensures exists i :: 0 <= i < n && Hears(es, i) && es[i].event.GoLive?
    ensures forall i :: 0 <= i < n && Hears(es, i) ==> es[n].at - es[i].at > LOST_THRESHOLD_MS
  {
    hide Faithful, React;
    AlwaysFaithful(es, n, es[n].at);
    OneEvent(LifeAfter(es, n), HeardAt(es, n), AnnouncedAt(es, n), es[n].event, es[n].at);
    var live := LiveWasTakenLive(es, n);
    forall i | 0 <= i < n && Hears(es, i)
      ensures es[n].at - es[i].at > LOST_THRESHOLD_MS
    {
      HeardIsLast(es, n, i);
    }
  }

  /** Two announcement attempts are always at least three seconds of true time apart. */
  lemma AnnouncementsAreSpaced(es: seq<Timed>, i: nat, j: nat)
    requires InTime(es) && i < j < |es| && Announces(es, i) && Announces(es, j)
    ensures es[j].at - es[i].at >= POLL_TIME_MS
  {
    hide Faithful, React;
    AlwaysFaithful(es, j, es[j].at);
    OneEvent(LifeAfter(es, j), HeardAt(es, j), AnnouncedAt(es, j), es[j].event, es[j].at);
    AnnouncedIsLast(es, j, i);
  }

  /** Lost Mode is left exactly by the polls and Go Lives that take effect. */
  lemma LeftExactlyByHearing(es: seq<Timed>, n: nat)
    requires n < |es| && LifeAfter(es, n).lost
    ensures !LifeAfter(es, n + 1).lost <==> Hears(es, n)
  {
    hide OnTick;
    TickCases(LifeAfter(es, n), Clock(es[n].at));
  }

  // ----------------------------------------------------------------- liveness

  /** After event `k` only timer ticks up to event `n`, none more than `gap` after the event before it. */
  ghost predicate OnlyTicks(es: seq<Timed>, k: nat, n: nat, gap: nat)
    requires n <= |es|
  {
    forall i :: k < i < n ==> es[i].event.Tick? && es[i].at <= es[i - 1].at + gap
  }

  /**
   After a poll or Go Live that a live node heard, with ticks at most `gap` apart
   and nothing else, the node is in Lost Mode after a tick exactly when that tick
   is more than nine seconds later, so after at most 9000 + `gap` ms of silence;
   and it has then always tried to announce itself less than three seconds before.
   */
  lemma {:induction false} SilenceIsNoticed(es: seq<Timed>, k: nat, n: nat, gap: nat)
    requires InTime(es) && k < n <= |es| && Hears(es, k) && LifeAfter(es, k + 1).live
    requires LOST_THRESHOLD_MS + gap < WRAP32 && OnlyTicks(es, k, n, gap)
    ensures LifeAfter(es, n).lost <==> es[n - 1].at - es[k].at > LOST_THRESHOLD_MS
    ensures LifeAfter(es, n).lost ==> es[k].at <= AnnouncedAt(es, n) && es[n - 1].at - AnnouncedAt(es, n) < POLL_TIME_MS
    ensures LifeAfter(es, n).live && LifeAfter(es, n).keysValid && HeardAt(es, n) == es[k].at
    decreases n
  {
    hide Age, OnTick, Clock, Faithful;
    if n > k + 1 {
      SilenceIsNoticed(es, k, n - 1, gap);
      var s, heard, announced, t := LifeAfter(es, n - 1), es[k].at, AnnouncedAt(es, n - 1), es[n - 1].at;
      assert es[n - 1].event.Tick? && es[n - 2].at <= t <= es[n - 2].at + gap;
      AlwaysFaithful(es, n - 1, t);
      TickFromFaithful(s, heard, announced, t);
    }
  }

  /** What a tick does to a live node, in terms of true time. */
  lemma TickFromFaithful(s: Life, heard: nat, announced: int, t: nat)
    requires Faithful(s, heard, announced, t) && s.live && s.keysValid
    requires !s.lost ==> t - heard < WRAP32
    requires s.lost ==> t - announced < WRAP32
    ensures var (r, announces) := OnTick(s, Clock(t));
            && (r.lost <==> s.lost || t - heard > LOST_THRESHOLD_MS)
            && (announces <==> if s.lost then t - announced >= POLL_TIME_MS else r.lost)
            && r.live && r.keysValid
  {
    hide Age, OnTick, Clock;
    TickCases(s, Clock(t));
    ClockAge(heard, t);
    if s.lost {
      ClockAge(announced, t);
    }
  }

  /** A tick a whole turn of the clock after the last poll notices nothing: the gap must be bounded. */
  lemma FullTurnIsMissed(es: seq<Timed>, k: nat)
    requires k + 1 < |es| && Hears(es, k) && es[k + 1] == Timed(es[k].at + WRAP32, Tick)
    ensures !LifeAfter(es, k + 2).lost
  {
    hide OnTick, Age;
    TickCases(LifeAfter(es, k + 1), Clock(es[k + 1].at));
    assert Clock(es[k].at + WRAP32) == Clock(es[k].at);
    assert Age(Clock(es[k].at), Clock(es[k].at)) == 0 by {
      ClockAge(es[k].at, es[k].at);
    }
  }
}
