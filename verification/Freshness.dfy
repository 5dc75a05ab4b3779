/**
 The receiver's freshness check: a table of session floors keyed by TUID, a
 table of (session, sequence) marks keyed by Sender-ID, and the check that
 reads and commits to both.
 */
module Freshness {
  import opened Bytes
  import opened TrackTable

  type Tuid = s: seq<byte> | |s| == 6 witness [0, 0, 0, 0, 0, 0]
  type SenderId = s: seq<byte> | |s| == 8 witness [0, 0, 0, 0, 0, 0, 0, 0]

  datatype Mark = Mark(session: u32, seqNum: u32)

  /** Lexicographic order of (session, sequence) pairs. */
  predicate Before(a: Mark, b: Mark) {
    a.session < b.session || (a.session == b.session && a.seqNum < b.seqNum)
  }

  /** The freshness-relevant options of an authenticated packet. */
  datatype Message = Message(sender: SenderId, mark: Mark)

  /** The TUID is the first six bytes of the Sender-ID. */
  function TuidOf(id: SenderId): Tuid {
    id[..6]
  }

  datatype Tracker = Tracker(sessions: seq<Slot<Tuid, u32>>, marks: seq<Slot<SenderId, Mark>>)

  const NO_TUID: Tuid := [0, 0, 0, 0, 0, 0]
  const NO_SENDER: SenderId := [0, 0, 0, 0, 0, 0, 0, 0]
  const FREE_SESSION: Slot<Tuid, u32> := Slot(false, NO_TUID, 0, 0)
  const FREE_MARK: Slot<SenderId, Mark> := Slot(false, NO_SENDER, Mark(0, 0), 0)

  /** The zeroed tracker. */
  function Empty(): (r: Tracker)
  {
    Tracker(seq(SLOTS, _ => FREE_SESSION), seq(SLOTS, _ => FREE_MARK))
  }

  datatype Verdict = Verdict(tracker: Tracker, accepted: bool)

  /**
   The first half: look up the TUID's session floor, or claim a slot for it. A
   claim sets the floor to 0 and leaves the slot's old timestamp in place.
   */
  function ClaimSession(sessions: seq<Slot<Tuid, u32>>, m: Message, now: u32): Option<(seq<Slot<Tuid, u32>>, int)> {
    var tuid := TuidOf(m.sender);
    var i := Find(sessions, tuid);
    if i >= 0 then
      if m.mark.session < sessions[i].value then None else Some((sessions, i))
    else
      var j := Acquire(sessions, now);
      if j < 0 then None
      else Some((sessions[j := Slot(true, tuid, 0, sessions[j].lastSeen)], j))
  }

  /** The second half: where the Sender-ID's mark is to be written, if the packet is fresh. */
  function PlaceMark(marks: seq<Slot<SenderId, Mark>>, m: Message, now: u32): int {
    var i := Find(marks, m.sender);
    if i >= 0 then
      if Before(marks[i].value, m.mark) then i else -1
    else Acquire(marks, now)
  }

  /**
   One authenticated packet. A packet refused in the second half has already
   claimed its session slot.
   */
  function Deliver(tr: Tracker, m: Message, now: u32): Verdict {
    match ClaimSession(tr.sessions, m, now)
    case None => Verdict(tr, false)
    case Some((claimed, i)) =>
      var j := PlaceMark(tr.marks, m, now);
      if j < 0 then Verdict(tr.(sessions := claimed), false)
      else
        Verdict(
          Tracker(
            claimed[i := Slot(true, TuidOf(m.sender), m.mark.session, now)],
            tr.marks[j := Slot(true, m.sender, m.mark, now)]),
          true)
  }

  class FreshnessTracker {
    const sessions: array<Slot<Tuid, u32>>
    const marks: array<Slot<SenderId, Mark>>

    ghost predicate Valid()
    {
      sessions.Length == SLOTS && marks.Length == SLOTS
    }

    ghost function Contents(): Tracker
      reads sessions, marks
    {
      Tracker(sessions[..], marks[..])
    }

    constructor ()
      ensures Valid() && fresh(sessions) && fresh(marks)
      ensures Contents() == Empty()
    {
      sessions := new Slot<Tuid, u32>[SLOTS](_ => FREE_SESSION);
      marks := new Slot<SenderId, Mark>[SLOTS](_ => FREE_MARK);
    }

    /** Checks a packet's freshness and, if it is fresh, records it. */
    method ValidateAndCommit(m: Message, now: u32) returns (ok: bool)
      requires Valid()
      modifies sessions, marks
      ensures Verdict(Contents(), ok) == Deliver(old(Contents()), m, now)
    {
      hide Acquire, Find;
      ghost var s0, q0 := sessions[..], marks[..];
      var tuid := TuidOf(m.sender);
      var si := FindTrack(sessions, tuid);
      if si >= 0 {
        if m.mark.session < sessions[si].value {
          return false;
        }
      } else {
        si := AcquireSlot(sessions, now);
        if si < 0 {
          return false;
        }
        sessions[si] := sessions[si].(used := true, key := tuid, value := 0);
      }
      ghost var s1 := sessions[..];
      assert ClaimSession(s0, m, now) == Some((s1, si));
      assert marks[..] == q0;

      var qi := FindTrack(marks, m.sender);
      if qi >= 0 {
        if m.mark.session < marks[qi].value.session {
          return false;
        }
        if m.mark.session == marks[qi].value.session && m.mark.seqNum <= marks[qi].value.seqNum {
          return false;
        }
      } else {
        qi := AcquireSlot(marks, now);
        if qi < 0 {
          return false;
        }
        marks[qi] := marks[qi].(used := true, key := m.sender, value := Mark(0, 0));
      }
      assert PlaceMark(q0, m, now) == qi;
      assert sessions[..] == s1;

      sessions[si] := sessions[si].(value := m.mark.session, lastSeen := now);
      marks[qi] := marks[qi].(value := m.mark, lastSeen := now);
      assert sessions[..] == s1[si := Slot(true, tuid, m.mark.session, now)];
      assert marks[..] == q0[qi := Slot(true, m.sender, m.mark, now)];
      return true;
    }
  }
}
