/**
 Senders, an unreliable network and one receiver as a state machine. The
 network may lose, duplicate and reorder packets; the clock may advance by any
 amount; the receiver sees only its low 32 bits.
 */
module Network {
  import opened Bytes
  import opened Freshness
  import opened FreshnessRuns
  import opened Sender

  /** `sent` counts each TUID's transmissions; `arrivals` is everything the receiver has been handed. */
  datatype System = System(
    now: nat,
    sent: map<Tuid, nat>,
    transit: multiset<Message>,
    tracker: Tracker,
    arrivals: seq<Arrival>)

  datatype Step =
    | Send(sender: SenderId)
    | Drop(msg: Message)
    | Duplicate(msg: Message)
    | Receive(msg: Message)
    | Wait(ms: nat)

  function SentBy(s: System, tuid: Tuid): nat {
    if tuid in s.sent then s.sent[tuid] else 0
  }

  predicate Enabled(senders: map<Tuid, Transmitter>, s: System, step: Step) {
    match step
    case Send(id) => TuidOf(id) in senders && BeforeWrap(senders[TuidOf(id)], SentBy(s, TuidOf(id)))
    case Drop(m) => m in s.transit
    case Duplicate(m) => m in s.transit
    case Receive(m) => m in s.transit
    case Wait(_) => true
  }

  function Apply(senders: map<Tuid, Transmitter>, s: System, step: Step): System
    requires Enabled(senders, s, step)
  {
    match step
    case Send(id) =>
      var tuid := TuidOf(id);
      var k := SentBy(s, tuid);
      s.(sent := s.sent[tuid := k + 1], transit := s.transit + multiset{Message(id, Nth(senders[tuid], k))})
    case Drop(m) => s.(transit := s.transit - multiset{m})
    case Duplicate(m) => s.(transit := s.transit + multiset{m})
    case Receive(m) =>
      s.(transit := s.transit - multiset{m},
         tracker := Deliver(s.tracker, m, s.now % WRAP32).tracker,
         arrivals := s.arrivals + [Arrival(s.now, m)])
    case Wait(ms) => s.(now := s.now + ms)
  }

  function Init(): System {
    System(0, map[], multiset{}, Empty(), [])
  }

  /** The state after a run; a step that is not enabled is skipped. */
  function Run(senders: map<Tuid, Transmitter>, steps: seq<Step>): System {
    if steps == [] then Init()
    else
      var s := Run(senders, steps[..|steps| - 1]);
      var step := steps[|steps| - 1];
      if Enabled(senders, s, step) then Apply(senders, s, step) else s
  }

  /** `m` is transmission `k` of its sender. */
  ghost predicate IsTransmission(senders: map<Tuid, Transmitter>, s: System, m: Message, k: nat) {
    var tuid := TuidOf(m.sender);
    tuid in senders && k < SentBy(s, tuid) && BeforeWrap(senders[tuid], k) && m.mark == Nth(senders[tuid], k)
  }

  ghost predicate WasSent(senders: map<Tuid, Transmitter>, s: System, m: Message) {
    exists k: nat :: IsTransmission(senders, s, m, k)
  }

  ghost predicate Consistent(senders: map<Tuid, Transmitter>, s: System) {
    && Ordered(s.arrivals)
    && (forall i :: 0 <= i < |s.arrivals| ==> s.arrivals[i].t <= s.now)
    && s.tracker == TrackerAfter(s.arrivals, |s.arrivals|)
    && (forall m :: m in s.transit ==> WasSent(senders, s, m))
    && (forall i :: 0 <= i < |s.arrivals| ==> WasSent(senders, s, s.arrivals[i].msg))
  }

  lemma {:induction false} PrefixTracker(es: seq<Arrival>, es': seq<Arrival>, n: nat)
    requires n <= |es| && es <= es'
    ensures TrackerAfter(es, n) == TrackerAfter(es', n)
  {
    hide Deliver;
    if n > 0 {
      PrefixTracker(es, es', n - 1);
    }
  }

  lemma SentStaysSent(senders: map<Tuid, Transmitter>, s: System, s': System, m: Message)
    requires WasSent(senders, s, m) && SentBy(s, TuidOf(m.sender)) <= SentBy(s', TuidOf(m.sender))
    ensures WasSent(senders, s', m)
  {
    var k: nat :| IsTransmission(senders, s, m, k);
    assert IsTransmission(senders, s', m, k);
  }

  /** Once sent, always sent: no step forgets a transmission. */
  lemma StepKeepsSent(senders: map<Tuid, Transmitter>, s: System, step: Step)
    requires Enabled(senders, s, step)
    ensures forall m :: WasSent(senders, s, m) ==> WasSent(senders, Apply(senders, s, step), m)
  {
    var s' := Apply(senders, s, step);
    forall m | WasSent(senders, s, m)
      ensures WasSent(senders, s', m)
    {
      SentStaysSent(senders, s, s', m);
    }
  }

  /** A transmission puts on the network what it counts as sent. */
  lemma SendIsSent(senders: map<Tuid, Transmitter>, s: System, id: SenderId, m: Message)
    requires Enabled(senders, s, Send(id)) && m == Message(id, Nth(senders[TuidOf(id)], SentBy(s, TuidOf(id))))
    ensures WasSent(senders, Apply(senders, s, Send(id)), m)
  {
    assert IsTransmission(senders, Apply(senders, s, Send(id)), m, SentBy(s, TuidOf(id)));
  }

  /** Every step keeps the system consistent. */
  lemma StepKeepsConsistent(senders: map<Tuid, Transmitter>, s: System, step: Step)
    requires Consistent(senders, s) && Enabled(senders, s, step)
    ensures Consistent(senders, Apply(senders, s, step))
  {
    StepKeepsSent(senders, s, step);
    match step
    case Send(id) => SendKeepsConsistent(senders, s, id);
    case Receive(m) => ReceiveKeepsConsistent(senders, s, m);
    case Drop(_) =>
    case Duplicate(_) =>
    case Wait(_) =>
  }

  lemma SendKeepsConsistent(senders: map<Tuid, Transmitter>, s: System, id: SenderId)
    requires Consistent(senders, s) && Enabled(senders, s, Send(id))
    ensures Consistent(senders, Apply(senders, s, Send(id)))
  {
    var s' := Apply(senders, s, Send(id));
    var m := Message(id, Nth(senders[TuidOf(id)], SentBy(s, TuidOf(id))));
    StepKeepsSent(senders, s, Send(id));
    SendIsSent(senders, s, id, m);
    assert forall x :: x in s'.transit ==> x == m || x in s.transit;
  }

  lemma ReceiveKeepsConsistent(senders: map<Tuid, Transmitter>, s: System, m: Message)
    requires Consistent(senders, s) && Enabled(senders, s, Receive(m))
    ensures Consistent(senders, Apply(senders, s, Receive(m)))
  {
    hide Deliver, TrackerAfter, WasSent;
    var s' := Apply(senders, s, Receive(m));
    StepKeepsSent(senders, s, Receive(m));
    ReceiveKeepsTracker(s, m);
    assert m in s.transit;
  }

  lemma ReceiveKeepsTracker(s: System, m: Message)
    requires s.tracker == TrackerAfter(s.arrivals, |s.arrivals|)
    ensures var es := s.arrivals + [Arrival(s.now, m)];
            Deliver(s.tracker, m, s.now % WRAP32).tracker == TrackerAfter(es, |es|)
  {
    hide Deliver, TrackerAfter;
    var es := s.arrivals + [Arrival(s.now, m)];
    PrefixTracker(s.arrivals, es, |s.arrivals|);
    LastDelivery(es);
  }

  lemma LastDelivery(es: seq<Arrival>)
    requires es != []
    ensures var n := |es| - 1;
            TrackerAfter(es, |es|) == Deliver(TrackerAfter(es, n), es[n].msg, es[n].t % WRAP32).tracker
  {
    hide Deliver;
  }

  lemma {:induction false} RunIsConsistent(senders: map<Tuid, Transmitter>, steps: seq<Step>)
    ensures Consistent(senders, Run(senders, steps))
  {
    if steps != [] {
      var front := steps[..|steps| - 1];
      RunIsConsistent(senders, front);
      var s, step := Run(senders, front), steps[|steps| - 1];
      if Enabled(senders, s, step) {
        StepKeepsConsistent(senders, s, step);
      }
    }
  }

  /**
   Safety of the whole protocol, for every run of senders, network and clock:
   what the receiver accepts was really sent, and while a Sender-ID is never
   silent for an hour the transmissions accepted from it are accepted in the
   order they were sent, each at most once.
   */
  lemma AcceptedInSendingOrder(senders: map<Tuid, Transmitter>, steps: seq<Step>, i: nat, j: nat, k: nat, l: nat)
    requires var s := Run(senders, steps);
             && i < j < |s.arrivals| && s.arrivals[i].msg.sender == s.arrivals[j].msg.sender
             && NeverSilentForAnHour(s.arrivals, Verdicts(s.arrivals), s.arrivals[i].msg.sender)
             && Accepts(s.arrivals, i) && Accepts(s.arrivals, j)
             && IsTransmission(senders, s, s.arrivals[i].msg, k)
             && IsTransmission(senders, s, s.arrivals[j].msg, l)
    ensures k < l
  {
    RunIsConsistent(senders, steps);
    var s := Run(senders, steps);
    AcceptsStrictlyIncrease(s.arrivals, i, j);
    NthIncreases(senders[TuidOf(s.arrivals[i].msg.sender)], k, l);
  }

  /** Nothing arrives, let alone is accepted, that was not sent. */
  lemma ArrivedWasSent(senders: map<Tuid, Transmitter>, steps: seq<Step>, i: nat)
    requires i < |Run(senders, steps).arrivals|
    ensures WasSent(senders, Run(senders, steps), Run(senders, steps).arrivals[i].msg)
  {
    hide WasSent;
    RunIsConsistent(senders, steps);
  }
}
