/**
 Where the freshness guarantees end. With 33 Sender-IDs the tracker refuses a
 packet its ideal accepts, and once a full table has been silent for an hour a
 replayed packet is accepted; a refused packet can leave a claimed slot behind.
 */
module FreshnessLimits {
  import opened Bytes
  import opened TrackTable
  import opened Freshness
  import opened FreshnessRuns
  import opened FreshnessIdeal

  function Id(i: byte): SenderId {
    [0, 0, 0, 0, 0, i, 0, 1]
  }

  /** The first packet of sender `i`. */
  function First(i: byte): Message {
    Message(Id(i), Mark(1, 1))
  }

  /** The first packets of 32 senders, all at time 0. */
  function Flood(): (es: seq<Arrival>)
    ensures |es| == SLOTS
    ensures forall i :: 0 <= i < SLOTS ==> es[i] == Arrival(0, First(i))
  {
    seq(SLOTS, i requires 0 <= i < SLOTS => Arrival(0, First(i)))
  }

  /** The tracker after the first `k` of them: slots 0 to k-1 hold senders 0 to k-1, the rest are free. */
  ghost predicate Filled(tr: Tracker, k: nat) {
    && |tr.sessions| == |tr.marks| == SLOTS
    && (forall i :: 0 <= i < SLOTS && i < k ==> tr.sessions[i] == Slot(true, TuidOf(Id(i)), 1, 0))
    && (forall i :: 0 <= i < SLOTS && i < k ==> tr.marks[i] == Slot(true, Id(i), Mark(1, 1), 0))
    && (forall i :: k <= i < SLOTS ==> tr.sessions[i] == FREE_SESSION && tr.marks[i] == FREE_MARK)
  }

  lemma FilledLacks(tr: Tracker, k: nat, i: byte)
    requires Filled(tr, k) && k <= i
    ensures Find(tr.sessions, TuidOf(Id(i))) == -1
    ensures Find(tr.marks, Id(i)) == -1
  {
    forall j | 0 <= j < SLOTS
      ensures !Matches(tr.sessions[j], TuidOf(Id(i))) && !Matches(tr.marks[j], Id(i))
    {
      if j < k {
        assert TuidOf(Id(j))[5] == j && TuidOf(Id(i))[5] == i;
        assert Id(j)[5] == j && Id(i)[5] == i;
      }
    }
  }

  /** The next sender of the flood takes the next free slot of both tables. */
  lemma FillStep(tr: Tracker, k: nat)
    requires k < SLOTS && Filled(tr, k)
    ensures Deliver(tr, First(k), 0).accepted && Filled(Deliver(tr, First(k), 0).tracker, k + 1)
  {
    FilledLacks(tr, k, k);
    assert FirstFree(tr.sessions) == k && FirstFree(tr.marks) == k by {
      assert !tr.sessions[k].used && !tr.marks[k].used;
    }
    assert ClaimSession(tr.sessions, First(k), 0).Some? && PlaceMark(tr.marks, First(k), 0) == k;
  }

  lemma FillArrival(tr: Tracker, e: Arrival, k: nat)
    requires k < SLOTS && Filled(tr, k) && e == Arrival(0, First(k))
    ensures Deliver(tr, e.msg, e.t % WRAP32).accepted && Filled(Deliver(tr, e.msg, e.t % WRAP32).tracker, k + 1)
  {
    FillStep(tr, k);
  }

  /** The flood fills the tables slot by slot, each of its packets being accepted. */
  lemma {:induction false} FloodFills(es: seq<Arrival>, k: nat, tr: Tracker)
    requires k <= SLOTS && Flood() <= es && tr == TrackerAfter(es, k)
    ensures Filled(tr, k)
  {
    if k > 0 {
      var before := TrackerAfter(es, k - 1);
      FloodFills(es, k - 1, before);
      assert es[k - 1] == Flood()[k - 1];
      FillArrival(before, es[k - 1], k - 1);
    }
  }

  lemma FloodIsAccepted(es: seq<Arrival>, k: nat)
    requires k < SLOTS && Flood() <= es
    ensures Accepts(es, k)
  {
    var tr := TrackerAfter(es, k);
    FloodFills(es, k, tr);
    assert es[k] == Flood()[k];
    FillArrival(tr, es[k], k);
  }

  /** In a full table untouched since time 0, nothing can be taken before the hour, and slot 0 at the hour. */
  lemma AcquireWhenAllSeenAtZero<K, V>(t: seq<Slot<K, V>>, now: u32)
    requires t != [] && AllUsed(t) && forall i :: 0 <= i < |t| ==> t[i].lastSeen == 0
    ensures Acquire(t, now) == if now < STALE_MS then -1 else 0
  {
    assert forall i :: 0 <= i < |t| ==> Age(now, t[i].lastSeen) == now;
    assert Age(now, t[0].lastSeen) == now;
  }

  /** A sender outside a full table is refused while nothing in it is an hour old. */
  lemma FullTableRefuses(tr: Tracker, m: Message, now: u32)
    requires tr.sessions != [] && AllUsed(tr.sessions) && forall i :: 0 <= i < |tr.sessions| ==>
               tr.sessions[i].lastSeen == 0
    requires Find(tr.sessions, TuidOf(m.sender)) == -1 && now < STALE_MS
    ensures Deliver(tr, m, now) == Verdict(tr, false)
  {
    AcquireWhenAllSeenAtZero(tr.sessions, now);
  }

  /** The tracker after a newcomer has taken slot 0 of both tables. */
  function Displace(tr: Tracker, m: Message, now: u32): Tracker
    requires tr.sessions != [] && tr.marks != []
  {
    Tracker(
      tr.sessions[0 := Slot(true, TuidOf(m.sender), m.mark.session, now)],
      tr.marks[0 := Slot(true, m.sender, m.mark, now)])
  }

  /** An hour later the newcomer is accepted in the place of the first of the oldest. */
  lemma NewcomerDisplaces(tr: Tracker, m: Message)
    requires tr.sessions != [] && AllUsed(tr.sessions) && forall i :: 0 <= i < |tr.sessions| ==>
               tr.sessions[i].lastSeen == 0
    requires tr.marks != [] && AllUsed(tr.marks) && forall i :: 0 <= i < |tr.marks| ==> tr.marks[i].lastSeen == 0
    requires Find(tr.sessions, TuidOf(m.sender)) == -1 && Find(tr.marks, m.sender) == -1
    ensures Deliver(tr, m, STALE_MS) == Verdict(Displace(tr, m, STALE_MS), true)
  {
    AcquireWhenAllSeenAtZero(tr.sessions, STALE_MS);
    AcquireWhenAllSeenAtZero(tr.marks, STALE_MS);
    var (claimed, i) := ClaimSession(tr.sessions, m, STALE_MS).value;
    assert claimed[0 := Slot(true, TuidOf(m.sender), m.mark.session, STALE_MS)] == Displace(tr, m, STALE_MS).sessions;
  }

  /** The evicted sender is unknown again, and slot 1 is an hour old, so its packet is accepted anew. */
  lemma EvictedIsAcceptedAgain(tr: Tracker, k: nat)
    requires k == SLOTS && Filled(tr, k)
    ensures Deliver(Displace(tr, First(32), STALE_MS), First(0), STALE_MS).accepted
  {
    var d := Displace(tr, First(32), STALE_MS);
    forall j | 0 <= j < SLOTS
      ensures !Matches(d.sessions[j], TuidOf(Id(0))) && !Matches(d.marks[j], Id(0))
    {
      assert j > 0 ==> TuidOf(Id(j))[5] == j && Id(j)[5] == j;
      assert TuidOf(Id(32))[5] == 32 && TuidOf(Id(0))[5] == 0 && Id(32)[5] == 32 && Id(0)[5] == 0;
    }
    assert Find(d.sessions, TuidOf(Id(0))) == -1 && Find(d.marks, Id(0)) == -1;
    assert Age(STALE_MS, d.sessions[1].lastSeen) == STALE_MS && Age(STALE_MS, d.marks[1].lastSeen) == STALE_MS;
  }

  /** The bound of 32 is tight: the first packet of a 33rd sender is refused. */
  lemma ThirtyThirdSenderIsRefused(es: seq<Arrival>, n: nat)
    requires n == SLOTS && Flood() <= es && |es| > n && es[n] == Arrival(0, First(32))
    ensures !Accepts(es, n)
  {
    var tr := TrackerAfter(es, n);
    FloodFills(es, n, tr);
    FloodedRefuses(tr, n, es[n]);
  }

  lemma FloodedRefuses(tr: Tracker, n: nat, e: Arrival)
    requires n == SLOTS && Filled(tr, n) && e == Arrival(0, First(32))
    ensures !Deliver(tr, e.msg, e.t % WRAP32).accepted
  {
    FilledLacks(tr, n, 32);
    assert AllUsed(tr.sessions);
    FullTableRefuses(tr, e.msg, 0);
  }

  /** The ideal accepts that packet: all 33 arrive in order. */
  lemma IdealTakesThirtyThird(es: seq<Arrival>, n: nat)
    requires n == SLOTS && Flood() <= es && |es| == n + 1 && es[n] == Arrival(0, First(32))
    ensures IdealAccepts(es, n)
  {
    forall i, j | 0 <= i < j < |es|
      ensures TuidOf(es[i].msg.sender) != TuidOf(es[j].msg.sender)
    {
      assert i < n ==> es[i] == Flood()[i];
      assert j < n ==> es[j] == Flood()[j];
      assert TuidOf(es[i].msg.sender)[5] == i && TuidOf(es[j].msg.sender)[5] == j;
    }
    IdealTakesInOrder(es, n + 1);
  }

  /**
   After an hour of silence in a full table, a newcomer is accepted and evicts
   the oldest sender, whose packet, accepted at time 0, is then accepted a second
   time.
   */
  lemma ReplayAfterAnHour(es: seq<Arrival>, n: nat)
    requires n == SLOTS && Flood() <= es && |es| == n + 2
    requires es[n] == Arrival(STALE_MS, First(32)) && es[n + 1] == Arrival(STALE_MS, First(0))
    ensures Ordered(es) && es[0].msg == es[n + 1].msg
    ensures Accepts(es, 0) && Accepts(es, n) && Accepts(es, n + 1)
  {
    hide Accepts, TrackerAfter, Deliver;
    assert forall i :: 0 <= i < n ==> es[i] == Flood()[i];
    FloodIsAccepted(es, 0);
    LastTwoAreAccepted(es, n, TrackerAfter(es, n));
  }

  lemma LastTwoAreAccepted(es: seq<Arrival>, n: nat, tr: Tracker)
    requires n == SLOTS && Flood() <= es && |es| == n + 2 && tr == TrackerAfter(es, n)
    requires es[n] == Arrival(STALE_MS, First(32)) && es[n + 1] == Arrival(STALE_MS, First(0))
    ensures Accepts(es, n) && Accepts(es, n + 1)
  {
    FloodFills(es, n, tr);
    FilledLacks(tr, n, 32);
    NewcomerDisplaces(tr, First(32));
    EvictedIsAcceptedAgain(tr, n);
    assert TrackerAfter(es, n + 1) == Displace(tr, First(32), STALE_MS);
  }

  /**
   A refused packet is not always harmless: it changes the tracker exactly when
   its TUID had no floor, a session slot could be claimed for it, and its mark
   was then stale or found no slot. The claimed slot is all it changes: it gets the
   TUID and floor 0, and keeps its old timestamp.
   */
  lemma RefusalLeavesClaim(tr: Tracker, m: Message, now: u32)
    requires !Deliver(tr, m, now).accepted
    ensures Deliver(tr, m, now).tracker.marks == tr.marks
    ensures Deliver(tr, m, now).tracker != tr <==>
            && Find(tr.sessions, TuidOf(m.sender)) == -1
            && Acquire(tr.sessions, now) >= 0
            && PlaceMark(tr.marks, m, now) == -1
    ensures Deliver(tr, m, now).tracker != tr ==>
              var j := Acquire(tr.sessions, now);
              Deliver(tr, m, now).tracker.sessions
              == tr.sessions[j := Slot(true, TuidOf(m.sender), 0, tr.sessions[j].lastSeen)]
  {
    var tuid := TuidOf(m.sender);
    var j := Acquire(tr.sessions, now);
    if Find(tr.sessions, tuid) == -1 && j >= 0 {
      assert !Matches(tr.sessions[j], tuid);
      var claimed := tr.sessions[j := Slot(true, tuid, 0, tr.sessions[j].lastSeen)];
      assert Matches(claimed[j], tuid);
      assert claimed != tr.sessions;
    }
  }
}
