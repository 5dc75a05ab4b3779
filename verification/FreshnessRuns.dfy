/**
 What the freshness check guarantees over whole runs: any sequence of arrivals
 at non-decreasing true times, seen by the receiver through a clock that wraps
 every 2^32 milliseconds. Loss, duplication and reordering on the way only
 change which sequence of arrivals this is.
 */
module FreshnessRuns {
  import opened Bytes
  import opened TrackTable
  import opened Freshness

  /** A packet arriving `t` milliseconds of true time after the start. */
  datatype Arrival = Arrival(t: nat, msg: Message)

  ghost predicate Ordered(es: seq<Arrival>) {
    forall i, j :: 0 <= i <= j < |es| ==> es[i].t <= es[j].t
  }

  /** The tracker after the first `n` arrivals. */
  function TrackerAfter(es: seq<Arrival>, n: nat): Tracker
    requires n <= |es|
  {
    if n == 0 then Empty()
    else Deliver(TrackerAfter(es, n - 1), es[n - 1].msg, es[n - 1].t % WRAP32).tracker
  }

  /** The verdict on arrival `n`. */
  predicate Accepts(es: seq<Arrival>, n: nat)
    requires n < |es|
  {
    Deliver(TrackerAfter(es, n), es[n].msg, es[n].t % WRAP32).accepted
  }

  /** The verdicts on a whole run. */
  ghost function Verdicts(es: seq<Arrival>): (v: seq<bool>)
    ensures |v| == |es|
    ensures forall n :: 0 <= n < |es| ==> v[n] == Accepts(es, n)
  {
    seq(|es|, n requires 0 <= n < |es| => Accepts(es, n))
  }

  /** The last accepted arrival from `id` among the first `n`, or -1. */
  ghost function LastFrom(es: seq<Arrival>, v: seq<bool>, n: nat, id: SenderId): (r: int)
    requires n <= |es| == |v|
    ensures -1 <= r < n
    ensures r >= 0 ==> es[r].msg.sender == id && v[r]
    ensures forall i :: r < i < n && es[i].msg.sender == id ==> !v[i]
  {
    if n == 0 then -1
    else if es[n - 1].msg.sender == id && v[n - 1] then n - 1
    else LastFrom(es, v, n - 1, id)
  }

  /** The last accepted arrival from any endpoint of `tuid` among the first `n`, or -1. */
  ghost function LastFromTuid(es: seq<Arrival>, v: seq<bool>, n: nat, tuid: Tuid): (r: int)
    requires n <= |es| == |v|
    ensures -1 <= r < n
    ensures r >= 0 ==> TuidOf(es[r].msg.sender) == tuid && v[r]
    ensures forall i :: r < i < n && TuidOf(es[i].msg.sender) == tuid ==> !v[i]
  {
    if n == 0 then -1
    else if TuidOf(es[n - 1].msg.sender) == tuid && v[n - 1] then n - 1
    else LastFromTuid(es, v, n - 1, tuid)
  }

  /** `key` has a slot holding `value`, stamped with the wrapped image of true time `t`. */
  ghost predicate Holds<K, V>(t: seq<Slot<K, V>>, key: K, value: V, at: nat) {
    Find(t, key) >= 0 && t[Find(t, key)] == Slot(true, key, value, at % WRAP32)
  }

  /** The tables have their size and hold no key twice. */
  ghost predicate WellFormed(tr: Tracker) {
    |tr.sessions| == SLOTS && |tr.marks| == SLOTS && Distinct(tr.sessions) && Distinct(tr.marks)
  }

  /** Every TUID or Sender-ID accepted less than an hour before `now` still has its slot. */
  ghost predicate RemembersRecent(es: seq<Arrival>, v: seq<bool>, n: nat, tr: Tracker, now: nat)
    requires n <= |es| == |v|
  {
    && (forall id: SenderId {:trigger LastFrom(es, v, n, id)} ::
          var i := LastFrom(es, v, n, id);
          i >= 0 && now < es[i].t + STALE_MS ==> Holds(tr.marks, id, es[i].msg.mark, es[i].t))
    && (forall tuid: Tuid {:trigger LastFromTuid(es, v, n, tuid)} ::
          var i := LastFromTuid(es, v, n, tuid);
          i >= 0 && now < es[i].t + STALE_MS ==> Holds(tr.sessions, tuid, es[i].msg.mark.session, es[i].t))
  }

  /** One packet keeps the tables well formed. */
  lemma DeliverKeepsWellFormed(tr: Tracker, m: Message, now: u32)
    requires WellFormed(tr)
    ensures WellFormed(Deliver(tr, m, now).tracker)
  {
    var c := ClaimSession(tr.sessions, m, now);
    if c.Some? {
      var (claimed, i) := c.value;
      var tuid := TuidOf(m.sender);
      PutIsFound(tr.sessions, tuid, now, i, claimed[i]);
      assert claimed == tr.sessions[i := claimed[i]];
      var s := Slot(true, tuid, m.mark.session, now);
      PutIsFound(claimed, tuid, now, i, s);
      var j := PlaceMark(tr.marks, m, now);
      if j >= 0 {
        PutIsFound(tr.marks, m.sender, now, j, Slot(true, m.sender, m.mark, now));
      }
    }
  }

  /** A refused packet leaves every sequence mark as it was. */
  lemma RejectionKeepsMarks(tr: Tracker, m: Message, now: u32)
    requires !Deliver(tr, m, now).accepted
    ensures Deliver(tr, m, now).tracker.marks == tr.marks
  {
  }

  /** After an accepted packet both tables hold what it carried. */
  lemma AcceptedIsHeld(tr: Tracker, m: Message, now: nat)
    requires WellFormed(tr)
    requires Deliver(tr, m, now % WRAP32).accepted
    ensures var tr' := Deliver(tr, m, now % WRAP32).tracker;
            && Holds(tr'.marks, m.sender, m.mark, now)
            && Holds(tr'.sessions, TuidOf(m.sender), m.mark.session, now)
  {
    var n32 := now % WRAP32;
    var (claimed, i) := ClaimSession(tr.sessions, m, n32).value;
    var tuid := TuidOf(m.sender);
    PutIsFound(tr.sessions, tuid, n32, i, claimed[i]);
    assert claimed == tr.sessions[i := claimed[i]];
    PutIsFound(claimed, tuid, n32, i, Slot(true, tuid, m.mark.session, n32));
    var j := PlaceMark(tr.marks, m, n32);
    PutIsFound(tr.marks, m.sender, n32, j, Slot(true, m.sender, m.mark, n32));
  }

  /** A packet never displaces a mark of another Sender-ID written less than an hour ago. */
  lemma OtherMarkIsKept(tr: Tracker, m: Message, now: nat, id: SenderId, mark: Mark, at: nat)
    requires WellFormed(tr)
    requires Holds(tr.marks, id, mark, at) && at <= now < at + STALE_MS
    requires id != m.sender
    ensures Holds(Deliver(tr, m, now % WRAP32).tracker.marks, id, mark, at)
  {
    var n32 := now % WRAP32;
    var j := PlaceMark(tr.marks, m, n32);
    if j >= 0 {
      PutSparesRecent(tr.marks, m.sender, j, Slot(true, m.sender, m.mark, n32), id, at, now);
    }
  }

  /** A packet never displaces a session floor of another TUID written less than an hour ago. */
  lemma OtherFloorIsKept(tr: Tracker, m: Message, now: nat, tuid: Tuid, session: u32, at: nat)
    requires WellFormed(tr)
    requires Holds(tr.sessions, tuid, session, at) && at <= now < at + STALE_MS
    requires tuid != TuidOf(m.sender)
    ensures Holds(Deliver(tr, m, now % WRAP32).tracker.sessions, tuid, session, at)
  {
    var n32 := now % WRAP32;
    var c := ClaimSession(tr.sessions, m, n32);
    if c.Some? {
      var (claimed, i) := c.value;
      var key := TuidOf(m.sender);
      PutSparesRecent(tr.sessions, key, i, claimed[i], tuid, at, now);
      assert claimed == tr.sessions[i := claimed[i]];
      PutIsFound(tr.sessions, key, n32, i, claimed[i]);
      PutSparesRecent(claimed, key, i, Slot(true, key, m.mark.session, n32), tuid, at, now);
    }
  }

  /** A refused packet leaves a session floor that is held. */
  lemma RejectionKeepsFloor(tr: Tracker, m: Message, now: u32)
    requires !Deliver(tr, m, now).accepted
    requires Find(tr.sessions, TuidOf(m.sender)) >= 0
    ensures Deliver(tr, m, now).tracker == tr
  {
  }

  /** The invariant of every run: well-formed tables that remember the last hour. */
  lemma {:induction false} RunInvariant(es: seq<Arrival>, n: nat, now: nat)
    requires n <= |es| && Ordered(es)
    requires forall i :: 0 <= i < n ==> es[i].t <= now
    ensures WellFormed(TrackerAfter(es, n))
    ensures RemembersRecent(es, Verdicts(es), n, TrackerAfter(es, n), now)
  {
    if n > 0 {
      var e := es[n - 1];
      RunInvariant(es, n - 1, e.t);
      DeliverKeepsWellFormed(TrackerAfter(es, n - 1), e.msg, e.t % WRAP32);
      RememberStep(es, Verdicts(es), n, TrackerAfter(es, n - 1), TrackerAfter(es, n));
      var v, tr := Verdicts(es), TrackerAfter(es, n);
      assert RemembersRecent(es, v, n, tr, e.t) && e.t <= now;
      assert forall id: SenderId {:trigger LastFrom(es, v, n, id)} ::
          var i := LastFrom(es, v, n, id);
          i >= 0 && now < es[i].t + STALE_MS ==> e.t < es[i].t + STALE_MS;
      assert forall tuid: Tuid {:trigger LastFromTuid(es, v, n, tuid)} ::
          var i := LastFromTuid(es, v, n, tuid);
          i >= 0 && now < es[i].t + STALE_MS ==> e.t < es[i].t + STALE_MS;
    }
  }

  lemma RememberStep(es: seq<Arrival>, v: seq<bool>, n: nat, tr: Tracker, tr': Tracker)
    requires 0 < n <= |es| == |v| && Ordered(es)
    requires WellFormed(tr) && RemembersRecent(es, v, n - 1, tr, es[n - 1].t)
    requires Verdict(tr', v[n - 1]) == Deliver(tr, es[n - 1].msg, es[n - 1].t % WRAP32)
    ensures RemembersRecent(es, v, n, tr', es[n - 1].t)
  {
    var e := es[n - 1];
    forall id: SenderId | LastFrom(es, v, n, id) >= 0 && e.t < es[LastFrom(es, v, n, id)].t + STALE_MS
      ensures var i := LastFrom(es, v, n, id); Holds(tr'.marks, id, es[i].msg.mark, es[i].t)
    {
      MarkStep(es, v, n, tr, id);
    }
    forall tuid: Tuid | LastFromTuid(es, v, n, tuid) >= 0 && e.t < es[LastFromTuid(es, v, n, tuid)].t + STALE_MS
      ensures var i := LastFromTuid(es, v, n, tuid); Holds(tr'.sessions, tuid, es[i].msg.mark.session, es[i].t)
    {
      FloorStep(es, v, n, tr, tuid);
    }
  }

  lemma MarkStep(es: seq<Arrival>, v: seq<bool>, n: nat, tr: Tracker, id: SenderId)
    requires 0 < n <= |es| == |v| && Ordered(es)
    requires WellFormed(tr) && RemembersRecent(es, v, n - 1, tr, es[n - 1].t)
    requires v[n - 1] == Deliver(tr, es[n - 1].msg, es[n - 1].t % WRAP32).accepted
    requires LastFrom(es, v, n, id) >= 0 && es[n - 1].t < es[LastFrom(es, v, n, id)].t + STALE_MS
    ensures var i := LastFrom(es, v, n, id);
            Holds(Deliver(tr, es[n - 1].msg, es[n - 1].t % WRAP32).tracker.marks, id, es[i].msg.mark, es[i].t)
  {
    var e := es[n - 1];
    var i := LastFrom(es, v, n, id);
    if i == n - 1 {
      AcceptedIsHeld(tr, e.msg, e.t);
    } else {
      assert i == LastFrom(es, v, n - 1, id);
      if v[n - 1] {
        OtherMarkIsKept(tr, e.msg, e.t, id, es[i].msg.mark, es[i].t);
      } else {
        RejectionKeepsMarks(tr, e.msg, e.t % WRAP32);
      }
    }
  }

  lemma FloorStep(es: seq<Arrival>, v: seq<bool>, n: nat, tr: Tracker, tuid: Tuid)
    requires 0 < n <= |es| == |v| && Ordered(es)
    requires WellFormed(tr) && RemembersRecent(es, v, n - 1, tr, es[n - 1].t)
    requires v[n - 1] == Deliver(tr, es[n - 1].msg, es[n - 1].t % WRAP32).accepted
    requires LastFromTuid(es, v, n, tuid) >= 0 && es[n - 1].t < es[LastFromTuid(es, v, n, tuid)].t + STALE_MS
    ensures var i := LastFromTuid(es, v, n, tuid);
            Holds(Deliver(tr, es[n - 1].msg, es[n - 1].t % WRAP32).tracker.sessions,
                  tuid, es[i].msg.mark.session, es[i].t)
  {
    var e := es[n - 1];
    var i := LastFromTuid(es, v, n, tuid);
    if i == n - 1 {
      AcceptedIsHeld(tr, e.msg, e.t);
    } else {
      assert i == LastFromTuid(es, v, n - 1, tuid);
      if tuid != TuidOf(e.msg.sender) {
        OtherFloorIsKept(tr, e.msg, e.t, tuid, es[i].msg.mark.session, es[i].t);
      } else {
        RejectionKeepsFloor(tr, e.msg, e.t % WRAP32);
      }
    }
  }

  /** Two accepts from one Sender-ID with none from it in between. */
  ghost predicate Successive(es: seq<Arrival>, v: seq<bool>, i: nat, j: nat)
    requires i < j < |es| == |v|
  {
    v[j] && LastFrom(es, v, j, es[j].msg.sender) == i
  }

  /** Successive accepts from a Sender-ID less than an hour of true time apart strictly increase. */
  lemma SuccessiveAcceptsIncrease(es: seq<Arrival>, i: nat, j: nat)
    requires Ordered(es) && i < j < |es|
    requires Successive(es, Verdicts(es), i, j) && es[j].t < es[i].t + STALE_MS
    ensures Before(es[i].msg.mark, es[j].msg.mark)
  {
    RunInvariant(es, j, es[j].t);
    assert Holds(TrackerAfter(es, j).marks, es[j].msg.sender, es[i].msg.mark, es[i].t);
  }

  /**
   Successive accepts from a TUID, at whichever of its endpoints, less than an
   hour of true time apart never go back a session.
   */
  lemma SessionsNeverDecrease(es: seq<Arrival>, i: nat, j: nat)
    requires Ordered(es) && i < j < |es|
    requires Accepts(es, j) && LastFromTuid(es, Verdicts(es), j, TuidOf(es[j].msg.sender)) == i
    requires es[j].t < es[i].t + STALE_MS
    ensures es[i].msg.mark.session <= es[j].msg.mark.session
  {
    RunInvariant(es, j, es[j].t);
    assert Holds(TrackerAfter(es, j).sessions, TuidOf(es[j].msg.sender), es[i].msg.mark.session, es[i].t);
  }

  /** Every two successive accepts from `id` are less than an hour apart. */
  ghost predicate NeverSilentForAnHour(es: seq<Arrival>, v: seq<bool>, id: SenderId)
    requires |v| == |es|
  {
    forall i: nat, j: nat :: i < j < |es| && es[j].msg.sender == id && Successive(es, v, i, j) ==>
      es[j].t < es[i].t + STALE_MS
  }

  /** Successive accepts being in order, all accepts are. */
  lemma {:induction false} ChainOfAccepts(es: seq<Arrival>, v: seq<bool>, i: nat, j: nat)
    requires i < j < |es| == |v|
    requires es[i].msg.sender == es[j].msg.sender && v[i] && v[j]
    requires forall a: nat, b: nat ::
               a < b < |es| && es[b].msg.sender == es[i].msg.sender && Successive(es, v, a, b) ==>
               Before(es[a].msg.mark, es[b].msg.mark)
    ensures Before(es[i].msg.mark, es[j].msg.mark)
    decreases j
  {
    var k := LastFrom(es, v, j, es[j].msg.sender);
    assert Successive(es, v, k, j);
    if i < k {
      ChainOfAccepts(es, v, i, k);
    }
  }

  /**
   At most once, over every run: while a Sender-ID is never silent for an hour,
   its accepted (session, sequence) pairs strictly increase.
   */
  lemma AcceptsStrictlyIncrease(es: seq<Arrival>, i: nat, j: nat)
    requires Ordered(es) && i < j < |es|
    requires es[i].msg.sender == es[j].msg.sender
    requires NeverSilentForAnHour(es, Verdicts(es), es[i].msg.sender)
    requires Accepts(es, i) && Accepts(es, j)
    ensures Before(es[i].msg.mark, es[j].msg.mark)
  {
    var v := Verdicts(es);
    forall a: nat, b: nat | a < b < |es| && es[b].msg.sender == es[i].msg.sender && Successive(es, v, a, b)
      ensures Before(es[a].msg.mark, es[b].msg.mark)
    {
      SuccessiveAcceptsIncrease(es, a, b);
    }
    ChainOfAccepts(es, v, i, j);
  }

  /** So no packet is accepted twice, whatever was duplicated or replayed in between. */
  lemma NoPacketAcceptedTwice(es: seq<Arrival>, i: nat, j: nat)
    requires Ordered(es) && i < j < |es|
    requires NeverSilentForAnHour(es, Verdicts(es), es[i].msg.sender)
    requires Accepts(es, i) && Accepts(es, j)
    ensures es[i].msg != es[j].msg
  {
    if es[i].msg == es[j].msg {
      AcceptsStrictlyIncrease(es, i, j);
    }
  }
}
