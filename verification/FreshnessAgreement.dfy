/**
 Exactly when the bounded tracker decides like the two unbounded maps it stands
 for. No condition on time or on the number of senders is assumed.
 */
module FreshnessAgreement {
  import opened Bytes
  import opened TrackTable
  import opened Freshness
  import opened FreshnessRuns
  import opened FreshnessIdeal
  import E = FreshnessExact

  // --------------------------------------------------------- what is forgotten

  /** The tables hold nothing for the packet and have no slot for it. */
  predicate NoRoom(tr: Tracker, m: Message, now: u32) {
    || (Find(tr.sessions, TuidOf(m.sender)) == -1 && Acquire(tr.sessions, now) == -1)
    || (Find(tr.marks, m.sender) == -1 && Acquire(tr.marks, now) == -1)
  }

  /** The packet's session is below the floor ever accepted from its TUID. */
  predicate BelowFloor(a: Ideal, m: Message) {
    var tuid := TuidOf(m.sender);
    tuid in a.floors && m.mark.session < a.floors[tuid]
  }

  /** The packet is not newer than the last ever accepted from its sender. */
  predicate NotNewer(a: Ideal, m: Message) {
    m.sender in a.marks && !Before(a.marks[m.sender], m.mark)
  }

  /** The tables have lost everything that makes the packet stale: a higher floor, a later mark, or both. */
  predicate Forgotten(tr: Tracker, a: Ideal, m: Message) {
    var i := Find(tr.sessions, TuidOf(m.sender));
    && (BelowFloor(a, m) ==> i == -1 || tr.sessions[i].value <= m.mark.session)
    && (NotNewer(a, m) ==> Find(tr.marks, m.sender) == -1)
  }

  /** A new packet finds room, or a stale one either none or a trace of what makes it stale. */
  predicate Agreeable(tr: Tracker, a: Ideal, m: Message, now: u32) {
    if BelowFloor(a, m) || NotNewer(a, m) then NoRoom(tr, m, now) || !Forgotten(tr, a, m) else !NoRoom(tr, m, now)
  }

  // ------------------------------------------------------------------ one step

  /** What a table holds is what its map holds; a floor of 0 may also be the claim of a refused packet. */
  ghost predicate Recalls(tr: Tracker, a: Ideal) {
    && WellFormed(tr)
    && (forall id :: Find(tr.marks, id) >= 0 ==> id in a.marks && tr.marks[Find(tr.marks, id)].value == a.marks[id])
    && (forall tuid :: Find(tr.sessions, tuid) >= 0 ==>
          RecallsFloor(tr.sessions[Find(tr.sessions, tuid)].value, a, tuid))
  }

  predicate RecallsFloor(floor: u32, a: Ideal, tuid: Tuid) {
    floor == 0 || (tuid in a.floors && floor == a.floors[tuid])
  }

  lemma VerdictsAgree(tr: Tracker, a: Ideal, m: Message, now: u32)
    requires Recalls(tr, a)
    ensures Deliver(tr, m, now).accepted == IdealDeliver(a, m).accepted <==> Agreeable(tr, a, m, now)
  {
    hide Find, Acquire, Deliver;
    E.VerdictCases(tr, m, now);
    var i, j := Find(tr.sessions, TuidOf(m.sender)), Find(tr.marks, m.sender);
    assert i >= 0 ==> RecallsFloor(tr.sessions[i].value, a, TuidOf(m.sender));
    assert j >= 0 ==> m.sender in a.marks && tr.marks[j].value == a.marks[m.sender];
    assert i == -1 || i >= 0;
    assert Acquire(tr.sessions, now) >= -1 && Acquire(tr.marks, now) >= -1;
  }

  /** A slot written for a TUID is found with what was written, and no other floor changes; one may be lost. */
  lemma FloorWritten(t: seq<Slot<Tuid, u32>>, tuid: Tuid, now: u32, j: int, s: Slot<Tuid, u32>, other: Tuid)
    requires Distinct(t) && Placed(t, tuid, now, j) && Matches(s, tuid)
    ensures var i := Find(t[j := s], other);
            i >= 0 ==> if other == tuid then t[j := s][i].value == s.value
                       else Find(t, other) >= 0 && t[j := s][i].value == t[Find(t, other)].value
  {
    hide Acquire;
    PutIsFound(t, tuid, now, j, s);
    var i := Find(t[j := s], other);
    if i >= 0 && other != tuid {
      assert t[j := s][i] == t[i] && Matches(t[i], other);
      assert Find(t, other) >= 0 && Matches(t[Find(t, other)], other);
    }
  }

  /** One packet writes its own floor, 0 if it is refused, and no other; it may at most lose one. */
  lemma FloorsAfter(tr: Tracker, m: Message, now: u32, other: Tuid)
    requires WellFormed(tr)
    ensures var d := Deliver(tr, m, now);
            var i := Find(d.tracker.sessions, other);
            i >= 0 ==>
              var floor := d.tracker.sessions[i].value;
              if d.accepted && other == TuidOf(m.sender) then floor == m.mark.session
              else (floor == 0 && !d.accepted && other == TuidOf(m.sender))
                   || (Find(tr.sessions, other) >= 0 && floor == tr.sessions[Find(tr.sessions, other)].value)
  {
    var tuid := TuidOf(m.sender);
    var d := Deliver(tr, m, now);
    match ClaimSession(tr.sessions, m, now)
    case None =>
    case Some((claimed, j)) =>
      hide Acquire;
      assert Placed(tr.sessions, tuid, now, j);
      if d.accepted {
        var s := Slot(true, tuid, m.mark.session, now);
        assert d.tracker.sessions == tr.sessions[j := s];
        FloorWritten(tr.sessions, tuid, now, j, s, other);
      } else if Find(tr.sessions, tuid) == -1 {
        FloorWritten(tr.sessions, tuid, now, j, claimed[j], other);
        assert claimed == tr.sessions[j := claimed[j]];
      }
  }

  /** As long as the verdicts agree, the tables recall nothing that the maps do not. */
  lemma StepRecalls(tr: Tracker, a: Ideal, m: Message, now: u32)
    requires Recalls(tr, a) && Deliver(tr, m, now).accepted == IdealDeliver(a, m).accepted
    ensures Recalls(Deliver(tr, m, now).tracker, IdealDeliver(a, m).state)
  {
    hide Find, Acquire, Deliver, WellFormed;
    var d, a' := Deliver(tr, m, now), IdealDeliver(a, m).state;
    DeliverKeepsWellFormed(tr, m, now);
    forall id | Find(d.tracker.marks, id) >= 0
      ensures id in a'.marks && d.tracker.marks[Find(d.tracker.marks, id)].value == a'.marks[id]
    {
      E.MarksAfter(tr, m, now, id);
    }
    forall tuid | Find(d.tracker.sessions, tuid) >= 0
      ensures RecallsFloor(d.tracker.sessions[Find(d.tracker.sessions, tuid)].value, a', tuid)
    {
      FloorsAfter(tr, m, now, tuid);
      if Find(tr.sessions, tuid) >= 0 {
        assert RecallsFloor(tr.sessions[Find(tr.sessions, tuid)].value, a, tuid);
      }
    }
  }

  // --------------------------------------------------------------------- runs

  /** The first `n` verdicts agree. */
  ghost predicate AgreeUpTo(es: seq<Arrival>, n: nat)
    requires n <= |es|
  {
    forall k :: 0 <= k < n ==> Accepts(es, k) == IdealAccepts(es, k)
  }

  ghost predicate AgreeableAt(es: seq<Arrival>, n: nat)
    requires n < |es|
  {
    Agreeable(TrackerAfter(es, n), IdealAfter(es, n), es[n].msg, es[n].t % WRAP32)
  }

  lemma {:induction false} RunRecalls(es: seq<Arrival>, n: nat)
    requires n <= |es| && AgreeUpTo(es, n)
    ensures Recalls(TrackerAfter(es, n), IdealAfter(es, n))
  {
    if n == 0 {
      EmptyRefines({});
    } else {
      hide Recalls, Deliver, IdealDeliver;
      RunRecalls(es, n - 1);
      assert Accepts(es, n - 1) == IdealAccepts(es, n - 1);
      StepRecalls(TrackerAfter(es, n - 1), IdealAfter(es, n - 1), es[n - 1].msg, es[n - 1].t % WRAP32);
    }
  }

  /** After agreeing so far, the next verdicts agree exactly when the packet meets tables that allow it. */
  lemma NextVerdictAgrees(es: seq<Arrival>, n: nat)
    requires n < |es| && AgreeUpTo(es, n)
    ensures Accepts(es, n) == IdealAccepts(es, n) <==> AgreeableAt(es, n)
  {
    hide Recalls, Deliver, IdealDeliver, Agreeable, AgreeUpTo;
    RunRecalls(es, n);
    VerdictsAgree(TrackerAfter(es, n), IdealAfter(es, n), es[n].msg, es[n].t % WRAP32);
  }

  /**
   The exact extent of the refinement, for every run: the bounded tracker gives
   the verdicts of the unbounded maps throughout if and only if no new packet
   finds the tables full, and no stale one finds that everything that makes it
   stale has been lost and that there is room for it.
   */
  lemma {:induction false} RefinementIsExact(es: seq<Arrival>, n: nat)
    requires n <= |es|
    ensures AgreeUpTo(es, n) <==> forall k :: 0 <= k < n ==> AgreeableAt(es, k)
  {
    hide Accepts, IdealAccepts, AgreeableAt;
    if n > 0 {
      RefinementIsExact(es, n - 1);
      if AgreeUpTo(es, n - 1) {
        NextVerdictAgrees(es, n - 1);
      }
    }
  }
}
