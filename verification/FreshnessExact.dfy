/**
 Exactly when the tracker lets a stale packet in. No condition on time or on the
 number of senders is assumed: the answer is read off the tables the packet
 meets.
 */
module FreshnessExact {
  import opened Bytes
  import opened TrackTable
  import opened Freshness
  import opened FreshnessRuns

  /** The packet's TUID has a floor the packet respects, or there is a slot to claim for it. */
  predicate FloorAdmits(tr: Tracker, m: Message, now: u32) {
    var i := Find(tr.sessions, TuidOf(m.sender));
    if i >= 0 then tr.sessions[i].value <= m.mark.session else Acquire(tr.sessions, now) >= 0
  }

  /**
   The tracker has lost the mark of this sender, and takes the packet for a
   newcomer it has room for.
   */
  predicate Readmits(tr: Tracker, m: Message, now: u32) {
    Find(tr.marks, m.sender) == -1 && Acquire(tr.marks, now) >= 0 && FloorAdmits(tr, m, now)
  }

  /** One packet writes its own mark if it is accepted, and no other; it may at most lose one. */
  lemma MarksAfter(tr: Tracker, m: Message, now: u32, id: SenderId)
    requires WellFormed(tr)
    ensures var d := Deliver(tr, m, now);
            Find(d.tracker.marks, id) >= 0 ==>
              if d.accepted && id == m.sender then d.tracker.marks[Find(d.tracker.marks, id)].value == m.mark
              else Find(tr.marks, id) >= 0
                   && d.tracker.marks[Find(d.tracker.marks, id)].value == tr.marks[Find(tr.marks, id)].value
  {
    var d := Deliver(tr, m, now);
    if d.accepted {
      var j := PlaceMark(tr.marks, m, now);
      MarkWritten(tr.marks, m, now, j, id);
    } else {
      RejectionKeepsMarks(tr, m, now);
    }
  }

  lemma MarkWritten(t: seq<Slot<SenderId, Mark>>, m: Message, now: u32, j: int, id: SenderId)
    requires Distinct(t) && j == PlaceMark(t, m, now) >= 0
    ensures var t' := t[j := Slot(true, m.sender, m.mark, now)];
            var i := Find(t', id);
            i >= 0 ==> if id == m.sender then t'[i].value == m.mark
                       else Find(t, id) >= 0 && t'[i].value == t[Find(t, id)].value
  {
    hide Acquire;
    var s := Slot(true, m.sender, m.mark, now);
    PutIsFound(t, m.sender, now, j, s);
    var i := Find(t[j := s], id);
    if i >= 0 && id != m.sender {
      assert t[j := s][i] == t[i] && Matches(t[i], id);
      assert Find(t, id) >= 0 && Matches(t[Find(t, id)], id);
    }
  }

  /** The tracker and the last accept after one more arrival. */
  lemma OneMore(es: seq<Arrival>, n: nat, id: SenderId)
    requires 0 < n <= |es|
    ensures var d := Deliver(TrackerAfter(es, n - 1), es[n - 1].msg, es[n - 1].t % WRAP32);
            && TrackerAfter(es, n) == d.tracker
            && LastFrom(es, Verdicts(es), n, id)
               == if d.accepted && es[n - 1].msg.sender == id then n - 1 else LastFrom(es, Verdicts(es), n - 1, id)
  {
    hide Deliver;
    assert Verdicts(es)[n - 1] == Accepts(es, n - 1);
  }

  lemma NothingHeld(es: seq<Arrival>, id: SenderId)
    ensures WellFormed(TrackerAfter(es, 0)) && Find(TrackerAfter(es, 0).marks, id) == -1
  {
    var tr := TrackerAfter(es, 0);
    assert forall i :: 0 <= i < |tr.marks| ==> !Matches(tr.marks[i], id);
  }

  /** A mark that is found is always the mark of its sender's last accepted packet, however old. */
  lemma {:induction false} MarkIsLast(es: seq<Arrival>, n: nat, id: SenderId)
    requires n <= |es|
    ensures var tr, i := TrackerAfter(es, n), LastFrom(es, Verdicts(es), n, id);
            && WellFormed(tr)
            && (Find(tr.marks, id) >= 0 ==> i >= 0 && tr.marks[Find(tr.marks, id)].value == es[i].msg.mark)
  {
    hide Deliver, Find, WellFormed, TrackerAfter, LastFrom, Verdicts;
    if n == 0 {
      NothingHeld(es, id);
    } else {
      var tr, e := TrackerAfter(es, n - 1), es[n - 1];
      MarkIsLast(es, n - 1, id);
      DeliverKeepsWellFormed(tr, e.msg, e.t % WRAP32);
      MarksAfter(tr, e.msg, e.t % WRAP32, id);
      OneMore(es, n, id);
    }
  }

  /** Arrival `j` is not newer than the last one accepted from its sender. */
  ghost predicate Stale(es: seq<Arrival>, j: nat)
    requires j < |es|
  {
    var i := LastFrom(es, Verdicts(es), j, es[j].msg.sender);
    i >= 0 && !Before(es[i].msg.mark, es[j].msg.mark)
  }

  /** Arrival `j` meets a tracker that readmits it. */
  ghost predicate MeetsRoom(es: seq<Arrival>, j: nat)
    requires j < |es|
  {
    Readmits(TrackerAfter(es, j), es[j].msg, es[j].t % WRAP32)
  }

  /** The verdict on a packet, in terms of the mark that is held for its sender. */
  lemma VerdictCases(tr: Tracker, m: Message, now: u32)
    ensures Deliver(tr, m, now).accepted <==>
            && FloorAdmits(tr, m, now)
            && if Find(tr.marks, m.sender) >= 0 then Before(tr.marks[Find(tr.marks, m.sender)].value, m.mark)
               else Acquire(tr.marks, now) >= 0
  {
    hide Find, Acquire;
  }

  /**
   A stale packet, a replay in particular, is accepted exactly when the tracker
   has lost its sender's mark, finds a slot for a new one, and its session floor
   for the TUID, if it has one, admits the session.
   */
  lemma StaleIsAcceptedExactly(es: seq<Arrival>, j: nat)
    requires j < |es| && Stale(es, j)
    ensures Accepts(es, j) <==> MeetsRoom(es, j)
  {
    MarkIsLast(es, j, es[j].msg.sender);
    VerdictCases(TrackerAfter(es, j), es[j].msg, es[j].t % WRAP32);
    hide Deliver, Find, Acquire, FloorAdmits, TrackerAfter, WellFormed;
  }

  /** The promise: what is accepted from a Sender-ID always moves forward. */
  ghost predicate MovesForward(es: seq<Arrival>) {
    forall i, j :: 0 <= i < j < |es| && es[i].msg.sender == es[j].msg.sender && Accepts(es, i) && Accepts(es, j) ==>
      Before(es[i].msg.mark, es[j].msg.mark)
  }

  /**
   The exact extent of the replay protection, for every run: accepted pairs
   strictly increase for every sender if and only if no stale packet ever meets
   a tracker that has lost its sender's mark and has room for it.
   */
  lemma ProtectionIsExact(es: seq<Arrival>)
    ensures MovesForward(es) <==> forall j :: 0 <= j < |es| && Stale(es, j) ==> !MeetsRoom(es, j)
  {
    hide Accepts, MeetsRoom;
    if MovesForward(es) {
      forall j | 0 <= j < |es| && Stale(es, j)
        ensures !MeetsRoom(es, j)
      {
        StaleIsAcceptedExactly(es, j);
        assert Accepts(es, LastFrom(es, Verdicts(es), j, es[j].msg.sender));
      }
    }
    if forall j :: 0 <= j < |es| && Stale(es, j) ==> !MeetsRoom(es, j) {
      forall i, j | 0 <= i < j < |es| && es[i].msg.sender == es[j].msg.sender && Accepts(es, i) && Accepts(es, j)
        ensures Before(es[i].msg.mark, es[j].msg.mark)
      {
        StepsForward(es, es[i].msg.sender);
        ChainOfAccepts(es, Verdicts(es), i, j);
      }
    }
  }

  /** Then successive accepts of every sender move forward. */
  lemma StepsForward(es: seq<Arrival>, id: SenderId)
    requires forall j :: 0 <= j < |es| && Stale(es, j) ==> !MeetsRoom(es, j)
    ensures forall a: nat, b: nat :: a < b < |es| && es[b].msg.sender == id && Successive(es, Verdicts(es), a, b) ==>
              Before(es[a].msg.mark, es[b].msg.mark)
  {
    hide Accepts, MeetsRoom;
    forall a: nat, b: nat | a < b < |es| && es[b].msg.sender == id && Successive(es, Verdicts(es), a, b)
      ensures Before(es[a].msg.mark, es[b].msg.mark)
    {
      if Stale(es, b) {
        StaleIsAcceptedExactly(es, b);
      }
    }
  }
}
