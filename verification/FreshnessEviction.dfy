/**
 What the tracker gives up when it is full: over every run, only the oldest of
 the marks and of the floors it holds, and only after an hour.
 */
module FreshnessEviction {
  import opened Bytes
  import opened TrackTable
  import opened Freshness
  import opened FreshnessRuns
  import E = FreshnessExact

  lemma OthersAreKept<K, V>(t: seq<Slot<K, V>>, r: int, s: Slot<K, V>, other: K)
    requires 0 <= r < |t| && Find(t, other) >= 0 && Find(t, other) != r
    ensures Find(t[r := s], other) >= 0
  {
    assert Matches(t[r := s][Find(t, other)], other);
  }

  /** Writing a key that displaces another takes the oldest slot of a full table, at least an hour old. */
  lemma DisplacedIsOldest<K, V>(t: seq<Slot<K, V>>, key: K, now: u32, r: int, s: Slot<K, V>, lost: K)
    requires Distinct(t) && Placed(t, key, now, r) && Matches(s, key)
    requires Find(t, lost) >= 0 && Find(t[r := s], lost) == -1
    ensures r == Find(t, lost) && Age(now, t[r].lastSeen) >= STALE_MS
    ensures forall k :: 0 <= k < |t| ==> t[k].used && Age(now, t[k].lastSeen) <= Age(now, t[r].lastSeen)
  {
    PutIsFound(t, key, now, r, s);
    if Find(t, lost) != r {
      OthersAreKept(t, r, s, lost);
      assert false;
    }
    hide Age;
  }

  // -------------------------------------------------------------------- marks

  /** A mark that is found carries the pair and the time of its sender's last accepted packet. */
  ghost predicate Stamped(es: seq<Arrival>, tr: Tracker, id: SenderId, i: int)
    requires i < |es|
  {
    WellFormed(tr) && (Find(tr.marks, id) >= 0 ==> i >= 0 && Holds(tr.marks, id, es[i].msg.mark, es[i].t))
  }

  lemma MarkSlotAfter(tr: Tracker, m: Message, now: u32, id: SenderId)
    requires WellFormed(tr)
    ensures var d := Deliver(tr, m, now);
            var i := Find(d.tracker.marks, id);
            i >= 0 ==> if d.accepted && id == m.sender then d.tracker.marks[i] == Slot(true, id, m.mark, now)
                       else Find(tr.marks, id) >= 0 && d.tracker.marks[i] == tr.marks[Find(tr.marks, id)]
  {
    hide Acquire;
    var d := Deliver(tr, m, now);
    if d.accepted {
      var j, s := PlaceMark(tr.marks, m, now), Slot(true, m.sender, m.mark, now);
      PutIsFound(tr.marks, m.sender, now, j, s);
      var i := Find(d.tracker.marks, id);
      if i >= 0 && id != m.sender {
        assert d.tracker.marks[i] == tr.marks[i] && Matches(tr.marks[i], id);
        assert Find(tr.marks, id) >= 0 && Matches(tr.marks[Find(tr.marks, id)], id);
      }
    } else {
      RejectionKeepsMarks(tr, m, now);
    }
  }

  lemma {:induction false} MarkIsStamped(es: seq<Arrival>, n: nat, id: SenderId)
    requires n <= |es|
    ensures Stamped(es, TrackerAfter(es, n), id, LastFrom(es, Verdicts(es), n, id))
  {
    hide Deliver, Find, WellFormed, TrackerAfter, LastFrom, Verdicts;
    if n == 0 {
      E.NothingHeld(es, id);
    } else {
      var tr, e := TrackerAfter(es, n - 1), es[n - 1];
      MarkIsStamped(es, n - 1, id);
      DeliverKeepsWellFormed(tr, e.msg, e.t % WRAP32);
      MarkSlotAfter(tr, e.msg, e.t % WRAP32, id);
      E.OneMore(es, n, id);
    }
  }

  /** Arrival `n` costs `id` its mark. */
  ghost predicate LosesMark(es: seq<Arrival>, n: nat, id: SenderId)
    requires n < |es|
  {
    Find(TrackerAfter(es, n).marks, id) >= 0 && Find(TrackerAfter(es, n + 1).marks, id) == -1
  }

  /** A packet that costs a sender its mark is another sender's, is accepted, and displaces the oldest mark. */
  lemma LostMarkIsOldest(tr: Tracker, m: Message, now: u32, id: SenderId)
    requires WellFormed(tr) && Find(tr.marks, id) >= 0 && Find(Deliver(tr, m, now).tracker.marks, id) == -1
    ensures Deliver(tr, m, now).accepted && m.sender != id
    ensures Age(now, tr.marks[Find(tr.marks, id)].lastSeen) >= STALE_MS
    ensures forall k :: 0 <= k < SLOTS ==>
              tr.marks[k].used && Age(now, tr.marks[k].lastSeen) <= Age(now, tr.marks[Find(tr.marks, id)].lastSeen)
  {
    hide Age, Acquire;
    if !Deliver(tr, m, now).accepted {
      RejectionKeepsMarks(tr, m, now);
    } else {
      var j, s := PlaceMark(tr.marks, m, now), Slot(true, m.sender, m.mark, now);
      DisplacedIsOldest(tr.marks, m.sender, now, j, s, id);
      PutIsFound(tr.marks, m.sender, now, j, s);
    }
  }

  /**
   A sender's mark is given up only for a packet of another sender, only when its
   last accepted packet is at least an hour back, and only if no other mark held
   is of an earlier packet, as far as a 32-bit clock can tell: less than one turn
   of the clock back. Then all 32 marks are held.
   */
  lemma EvictedMarkIsOldest(es: seq<Arrival>, n: nat, id: SenderId, other: SenderId)
    requires Ordered(es) && n < |es| && LosesMark(es, n, id)
    ensures Accepts(es, n) && es[n].msg.sender != id
    ensures forall k :: 0 <= k < SLOTS == |TrackerAfter(es, n).marks| ==> TrackerAfter(es, n).marks[k].used
    ensures var i := LastFrom(es, Verdicts(es), n, id);
            && i >= 0 && es[n].t - es[i].t >= STALE_MS
            && var j := LastFrom(es, Verdicts(es), n, other);
               Find(TrackerAfter(es, n).marks, other) >= 0 ==>
                 j >= 0 && (es[n].t - es[j].t < WRAP32 && es[n].t - es[i].t < WRAP32 ==> es[i].t <= es[j].t)
  {
    hide Deliver, Find, Verdicts, LastFrom, TrackerAfter, Age;
    var tr, now := TrackerAfter(es, n), es[n].t % WRAP32;
    MarkIsStamped(es, n, id);
    MarkIsStamped(es, n, other);
    assert TrackerAfter(es, n + 1) == Deliver(tr, es[n].msg, now).tracker by {
      E.OneMore(es, n + 1, id);
    }
    LostMarkIsOldest(tr, es[n].msg, now, id);
    var i, j := LastFrom(es, Verdicts(es), n, id), LastFrom(es, Verdicts(es), n, other);
    ModularAge(es[i].t, es[n].t);
    if Find(tr.marks, other) >= 0 {
      ModularAge(es[j].t, es[n].t);
    }
  }

  // ------------------------------------------------------------------- floors

  /** The true time of the last accepted packet recorded in slot `k` of the session table; 0 before there is one. */
  ghost function FloorStamp(es: seq<Arrival>, n: nat, k: nat): nat
    requires n <= |es|
  {
    if n == 0 then 0
    else if Accepts(es, n - 1) && Find(TrackerAfter(es, n).sessions, TuidOf(es[n - 1].msg.sender)) == k then es[n - 1].t
    else FloorStamp(es, n - 1, k)
  }

  /** Only an accepted packet stamps a slot: its TUID's. A refused one may claim a slot, whose stamp stays. */
  lemma StampAfter(tr: Tracker, m: Message, now: u32, k: nat)
    requires WellFormed(tr) && k < SLOTS
    ensures var d := Deliver(tr, m, now);
            && |d.tracker.sessions| == SLOTS
            && d.tracker.sessions[k].lastSeen
               == if d.accepted && Find(d.tracker.sessions, TuidOf(m.sender)) == k then now else tr.sessions[k].lastSeen
  {
    hide Acquire;
    match ClaimSession(tr.sessions, m, now)
    case None =>
    case Some((claimed, i)) =>
      var s := Slot(true, TuidOf(m.sender), m.mark.session, now);
      PutIsFound(tr.sessions, TuidOf(m.sender), now, i, s);
      assert claimed[i := s] == tr.sessions[i := s];
  }

  lemma {:induction false} FloorIsStamped(es: seq<Arrival>, n: nat, k: nat)
    requires Ordered(es) && n <= |es| && k < SLOTS
    ensures WellFormed(TrackerAfter(es, n)) && TrackerAfter(es, n).sessions[k].lastSeen == FloorStamp(es, n, k) % WRAP32
    ensures forall j :: n <= j < |es| ==> FloorStamp(es, n, k) <= es[j].t
  {
    hide Deliver, Find;
    if n == 0 {
      E.NothingHeld(es, NO_SENDER);
    } else {
      FloorIsStamped(es, n - 1, k);
      hide WellFormed;
      DeliverKeepsWellFormed(TrackerAfter(es, n - 1), es[n - 1].msg, es[n - 1].t % WRAP32);
      StampAfter(TrackerAfter(es, n - 1), es[n - 1].msg, es[n - 1].t % WRAP32, k);
    }
  }

  /** Arrival `n` costs `tuid` its floor. */
  ghost predicate LosesFloor(es: seq<Arrival>, n: nat, tuid: Tuid)
    requires n < |es|
  {
    Find(TrackerAfter(es, n).sessions, tuid) >= 0 && Find(TrackerAfter(es, n + 1).sessions, tuid) == -1
  }

  lemma LostFloorIsOldest(tr: Tracker, m: Message, now: u32, tuid: Tuid)
    requires WellFormed(tr) && Find(tr.sessions, tuid) >= 0 && Find(Deliver(tr, m, now).tracker.sessions, tuid) == -1
    ensures TuidOf(m.sender) != tuid
    ensures Age(now, tr.sessions[Find(tr.sessions, tuid)].lastSeen) >= STALE_MS
    ensures var i := Find(tr.sessions, tuid);
            forall k :: 0 <= k < SLOTS ==>
              tr.sessions[k].used && Age(now, tr.sessions[k].lastSeen) <= Age(now, tr.sessions[i].lastSeen)
  {
    hide Age, Acquire;
    match ClaimSession(tr.sessions, m, now)
    case None =>
    case Some((claimed, i)) =>
      var after := Deliver(tr, m, now).tracker.sessions;
      assert after == tr.sessions[i := after[i]];
      if after != tr.sessions {
        assert Matches(after[i], TuidOf(m.sender));
        DisplacedIsOldest(tr.sessions, TuidOf(m.sender), now, i, after[i], tuid);
        PutIsFound(tr.sessions, TuidOf(m.sender), now, i, after[i]);
      }
  }

  /**
   A TUID's floor is given up only for a packet of another TUID, only when the
   last accepted packet recorded in its slot is at least an hour back, and only
   if none recorded in any other slot is earlier, less than one turn of the clock
   back. Then all 32 floors are held.
   */
  lemma EvictedFloorIsOldest(es: seq<Arrival>, n: nat, tuid: Tuid, k: nat)
    requires Ordered(es) && n < |es| && k < SLOTS && LosesFloor(es, n, tuid)
    ensures TuidOf(es[n].msg.sender) != tuid
    ensures var i := Find(TrackerAfter(es, n).sessions, tuid);
            && |TrackerAfter(es, n).sessions| == SLOTS && TrackerAfter(es, n).sessions[k].used
            && es[n].t - FloorStamp(es, n, i) >= STALE_MS
            && (es[n].t - FloorStamp(es, n, k) < WRAP32 && es[n].t - FloorStamp(es, n, i) < WRAP32 ==>
                  FloorStamp(es, n, i) <= FloorStamp(es, n, k))
  {
    hide Deliver, Find, TrackerAfter, FloorStamp, Age;
    var tr, now := TrackerAfter(es, n), es[n].t % WRAP32;
    assert TrackerAfter(es, n + 1) == Deliver(tr, es[n].msg, now).tracker by {
      E.OneMore(es, n + 1, es[n].msg.sender);
    }
    var i := Find(tr.sessions, tuid);
    FloorIsStamped(es, n, k);
    FloorIsStamped(es, n, i);
    LostFloorIsOldest(tr, es[n].msg, now, tuid);
    ModularAge(FloorStamp(es, n, i), es[n].t);
    ModularAge(FloorStamp(es, n, k), es[n].t);
  }
}
