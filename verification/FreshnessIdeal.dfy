/**
 The 32-slot tracker against the one it stands for: two unbounded maps. On
 every run with at most 32 distinct Sender-IDs the two give the same verdicts,
 and with 33 they need not.
 */
module FreshnessIdeal {
  import opened Bytes
  import opened TrackTable
  import opened Freshness
  import opened FreshnessRuns

  /** A session floor for every TUID and a mark for every Sender-ID ever accepted. */
  datatype Ideal = Ideal(floors: map<Tuid, u32>, marks: map<SenderId, Mark>)

  datatype IdealVerdict = IdealVerdict(state: Ideal, accepted: bool)

  function IdealDeliver(a: Ideal, m: Message): IdealVerdict {
    var tuid := TuidOf(m.sender);
    if tuid in a.floors && m.mark.session < a.floors[tuid] then IdealVerdict(a, false)
    else if m.sender in a.marks && !Before(a.marks[m.sender], m.mark) then IdealVerdict(a, false)
    else IdealVerdict(Ideal(a.floors[tuid := m.mark.session], a.marks[m.sender := m.mark]), true)
  }

  function IdealAfter(es: seq<Arrival>, n: nat): Ideal
    requires n <= |es|
  {
    if n == 0 then Ideal(map[], map[]) else IdealDeliver(IdealAfter(es, n - 1), es[n - 1].msg).state
  }

  predicate IdealAccepts(es: seq<Arrival>, n: nat)
    requires n < |es|
  {
    IdealDeliver(IdealAfter(es, n), es[n].msg).accepted
  }

  /** A table holds exactly what a map holds. */
  ghost predicate Represents<K(!new), V>(t: seq<Slot<K, V>>, m: map<K, V>) {
    forall k {:trigger Find(t, k)} :: (Find(t, k) >= 0 <==> k in m) && (k in m ==> t[Find(t, k)].value == m[k])
  }

  ghost predicate Refines(tr: Tracker, a: Ideal) {
    && WellFormed(tr)
    && Represents(tr.sessions, a.floors)
    && Represents(tr.marks, a.marks)
    && (forall id :: id in a.marks ==> TuidOf(id) in a.floors)
  }

  /** Every slot in use is for a key of `ids`. */
  ghost predicate KeysIn<K, V>(t: seq<Slot<K, V>>, ids: set<K>) {
    forall i :: 0 <= i < |t| && t[i].used ==> t[i].key in ids
  }

  /** Slots in use stay in use for the same key: nothing is evicted. */
  ghost predicate NoEviction<K, V>(t: seq<Slot<K, V>>, t': seq<Slot<K, V>>) {
    |t'| == |t| && forall i :: 0 <= i < |t| && t[i].used ==> t'[i].used && t'[i].key == t[i].key
  }

  /** Writing a key's slot is updating the map, when no other key is displaced. */
  lemma PutRefines<K(!new), V>(t: seq<Slot<K, V>>, m: map<K, V>, key: K, now: u32, r: int, s: Slot<K, V>, ids: set<K>)
    requires Distinct(t) && Represents(t, m) && KeysIn(t, ids)
    requires key in ids && |ids| <= |t|
    requires Placed(t, key, now, r) && Matches(s, key)
    ensures Distinct(t[r := s]) && KeysIn(t[r := s], ids) && NoEviction(t, t[r := s])
    ensures Represents(t[r := s], m[key := s.value])
    ensures Find(t[r := s], key) == r
  {
    PutIsFound(t, key, now, r, s);
    if Find(t, key) == -1 {
      RoomForNewKey(t, ids, key, now);
    }
    var t', m' := t[r := s], m[key := s.value];
    forall k
      ensures (Find(t', k) >= 0 <==> k in m') && (k in m' ==> t'[Find(t', k)].value == m'[k])
    {
      if k != key {
        PutIntoFree(t, key, r, s, k);
        assert Find(t, k) >= 0 <==> k in m;
      }
    }
  }

  ghost function Tuids(ids: set<SenderId>): set<Tuid> {
    set id | id in ids :: TuidOf(id)
  }

  lemma {:induction false} FewerTuids(ids: set<SenderId>)
    ensures |Tuids(ids)| <= |ids|
  {
    if ids == {} {
      assert Tuids(ids) == {};
    } else {
      var id :| id in ids;
      FewerTuids(ids - {id});
      assert Tuids(ids) == Tuids(ids - {id}) + {TuidOf(id)};
    }
  }

  /** What a tracker fed only by `ids` looks like, beside its ideal. */
  ghost predicate InStep(tr: Tracker, a: Ideal, ids: set<SenderId>) {
    Refines(tr, a) && KeysIn(tr.marks, ids) && KeysIn(tr.sessions, Tuids(ids))
  }

  /** One packet from a known population: same verdict, no eviction, no trace of a refusal. */
  lemma StepRefines(tr: Tracker, a: Ideal, m: Message, now: u32, ids: set<SenderId>)
    requires InStep(tr, a, ids)
    requires m.sender in ids && |ids| <= SLOTS
    ensures var d, i := Deliver(tr, m, now), IdealDeliver(a, m);
            && InStep(d.tracker, i.state, ids)
            && d.accepted == i.accepted
            && (!d.accepted ==> d.tracker == tr)
            && NoEviction(tr.marks, d.tracker.marks) && NoEviction(tr.sessions, d.tracker.sessions)
  {
    hide Find, Acquire;
    var tuid := TuidOf(m.sender);
    FewerTuids(ids);
    assert tuid in Tuids(ids);
    assert Find(tr.sessions, tuid) >= 0 <==> tuid in a.floors;
    assert Find(tr.marks, m.sender) >= 0 <==> m.sender in a.marks;
    if IdealDeliver(a, m).accepted {
      if Find(tr.sessions, tuid) == -1 {
        RoomForNewKey(tr.sessions, Tuids(ids), tuid, now);
      }
      if Find(tr.marks, m.sender) == -1 {
        RoomForNewKey(tr.marks, ids, m.sender, now);
      }
      var (claimed, i) := ClaimSession(tr.sessions, m, now).value;
      var j := PlaceMark(tr.marks, m, now);
      var s := Slot(true, tuid, m.mark.session, now);
      PutRefines(tr.sessions, a.floors, tuid, now, i, s, Tuids(ids));
      assert claimed[i := s] == tr.sessions[i := s];
      PutRefines(tr.marks, a.marks, m.sender, now, j, Slot(true, m.sender, m.mark, now), ids);
    }
  }

  lemma EmptyRefines(ids: set<SenderId>)
    ensures InStep(Empty(), Ideal(map[], map[]), ids)
  {
    var tr := Empty();
    forall k: Tuid ensures Find(tr.sessions, k) == -1 {
      assert Find(tr.sessions, k) >= 0 ==> Matches(tr.sessions[Find(tr.sessions, k)], k);
    }
    forall k: SenderId ensures Find(tr.marks, k) == -1 {
      assert Find(tr.marks, k) >= 0 ==> Matches(tr.marks[Find(tr.marks, k)], k);
    }
  }

  /** The bounded tracker and the ideal stay in step through the first `n` arrivals. */
  lemma {:induction false} StaysInStep(es: seq<Arrival>, n: nat, ids: set<SenderId>)
    requires n <= |es| && |ids| <= SLOTS
    requires forall i :: 0 <= i < |es| ==> es[i].msg.sender in ids
    ensures InStep(TrackerAfter(es, n), IdealAfter(es, n), ids)
  {
    if n == 0 {
      EmptyRefines(ids);
    } else {
      StaysInStep(es, n - 1, ids);
      StepRefines(TrackerAfter(es, n - 1), IdealAfter(es, n - 1), es[n - 1].msg, es[n - 1].t % WRAP32, ids);
    }
  }

  /**
   Refinement: on every run with at most 32 distinct Sender-IDs, whatever the
   clock does, the tracker decides exactly as the ideal does, evicts nothing,
   and is left untouched by every packet it refuses.
   */
  lemma TrackerRefinesIdeal(es: seq<Arrival>, ids: set<SenderId>, n: nat)
    requires n < |es| && |ids| <= SLOTS
    requires forall i :: 0 <= i < |es| ==> es[i].msg.sender in ids
    ensures Accepts(es, n) == IdealAccepts(es, n)
    ensures !Accepts(es, n) ==> TrackerAfter(es, n + 1) == TrackerAfter(es, n)
    ensures NoEviction(TrackerAfter(es, n).marks, TrackerAfter(es, n + 1).marks)
    ensures NoEviction(TrackerAfter(es, n).sessions, TrackerAfter(es, n + 1).sessions)
  {
    StaysInStep(es, n, ids);
    StepRefines(TrackerAfter(es, n), IdealAfter(es, n), es[n].msg, es[n].t % WRAP32, ids);
  }

  /** Arrivals from each TUID come in strictly increasing (session, sequence) order. */
  ghost predicate ArrivesInOrder(es: seq<Arrival>) {
    forall i, j :: 0 <= i < j < |es| && TuidOf(es[i].msg.sender) == TuidOf(es[j].msg.sender) ==>
      Before(es[i].msg.mark, es[j].msg.mark)
  }

  /** What the ideal remembers of a run it accepted whole. */
  ghost predicate SeenBefore(es: seq<Arrival>, n: nat, a: Ideal)
    requires n <= |es|
  {
    && (forall tuid :: tuid in a.floors ==>
          exists i :: 0 <= i < n && TuidOf(es[i].msg.sender) == tuid && es[i].msg.mark.session == a.floors[tuid])
    && (forall id :: id in a.marks ==>
          exists i :: 0 <= i < n && es[i].msg.sender == id && es[i].msg.mark == a.marks[id])
  }

  lemma {:induction false} IdealTakesInOrder(es: seq<Arrival>, n: nat)
    requires n <= |es| && ArrivesInOrder(es)
    ensures SeenBefore(es, n, IdealAfter(es, n))
    ensures forall k :: 0 <= k < n ==> IdealAccepts(es, k)
  {
    hide IdealDeliver;
    if n > 0 {
      hide SeenBefore;
      IdealTakesInOrder(es, n - 1);
      var a, m := IdealAfter(es, n - 1), es[n - 1].msg;
      InOrderStep(es, n, a);
      assert IdealAccepts(es, n - 1);
    }
  }

  lemma InOrderStep(es: seq<Arrival>, n: nat, a: Ideal)
    requires 0 < n <= |es| && ArrivesInOrder(es) && SeenBefore(es, n - 1, a)
    ensures IdealDeliver(a, es[n - 1].msg).accepted
    ensures SeenBefore(es, n, IdealDeliver(a, es[n - 1].msg).state)
  {
    var m := es[n - 1].msg;
    var a' := IdealDeliver(a, m).state;
    forall tuid | tuid in a'.floors
      ensures exists i :: 0 <= i < n && TuidOf(es[i].msg.sender) == tuid && es[i].msg.mark.session == a'.floors[tuid]
    {
      if tuid == TuidOf(m.sender) {
        assert es[n - 1].msg == m;
      } else {
        assert tuid in a.floors;
      }
    }
    forall id | id in a'.marks
      ensures exists i :: 0 <= i < n && es[i].msg.sender == id && es[i].msg.mark == a'.marks[id]
    {
      if id == m.sender {
        assert es[n - 1].msg == m;
      } else {
        assert id in a.marks;
      }
    }
  }

  /**
   Delivery: at most 32 Sender-IDs whose packets arrive in order, however many
   were lost on the way and however long each sender was silent, have every
   arriving packet accepted.
   */
  lemma InOrderIsAccepted(es: seq<Arrival>, ids: set<SenderId>, n: nat)
    requires n < |es| && |ids| <= SLOTS
    requires forall i :: 0 <= i < |es| ==> es[i].msg.sender in ids
    requires ArrivesInOrder(es)
    ensures Accepts(es, n)
  {
    IdealTakesInOrder(es, n + 1);
    TrackerRefinesIdeal(es, ids, n);
  }

  /** Whatever the ideal accepted it never falls behind again. */
  lemma {:induction false} IdealNeverForgets(es: seq<Arrival>, n: nat, i: nat)
    requires i < n <= |es| && IdealAccepts(es, i)
    ensures var a, m := IdealAfter(es, n), es[i].msg;
            && m.sender in a.marks && !Before(a.marks[m.sender], m.mark)
            && TuidOf(m.sender) in a.floors && m.mark.session <= a.floors[TuidOf(m.sender)]
  {
    if i < n - 1 {
      IdealNeverForgets(es, n - 1, i);
    }
  }

  /**
   With at most 32 Sender-IDs replays are kept out without any condition on time:
   accepted pairs of a Sender-ID strictly increase however long it was silent,
   and sessions accepted from a TUID never go back.
   */
  lemma FewSendersStrictlyIncrease(es: seq<Arrival>, ids: set<SenderId>, i: nat, j: nat)
    requires i < j < |es| && |ids| <= SLOTS
    requires forall k :: 0 <= k < |es| ==> es[k].msg.sender in ids
    requires Accepts(es, i) && Accepts(es, j)
    ensures es[i].msg.sender == es[j].msg.sender ==> Before(es[i].msg.mark, es[j].msg.mark)
    ensures TuidOf(es[i].msg.sender) == TuidOf(es[j].msg.sender) ==> es[i].msg.mark.session <= es[j].msg.mark.session
  {
    TrackerRefinesIdeal(es, ids, i);
    TrackerRefinesIdeal(es, ids, j);
    IdealNeverForgets(es, j, i);
    hide IdealAfter, TrackerAfter, Accepts, TuidOf;
  }
}
