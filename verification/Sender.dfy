/**
 The sender's shared (session, sequence) counter and its two rollover rules:
 the node's, which starts a new session when the incremented number reaches
 0xFFFFFFFF, and the desktop application's, which does so after sending it.
 */
module Sender {
  import opened Bytes
  import opened Freshness
  import opened FreshnessRuns
  import opened FreshnessIdeal

  const MAX32: u32 := 0xFFFF_FFFF

  datatype Rule = NodeRule | AppRule

  function IncrementSequence(current: u32): u32 {
    if current == MAX32 then 1 else current + 1
  }

  predicate ShouldIncrementSession(seqNum: u32) {
    seqNum == MAX32
  }

  /** The counter after one packet has been sent. */
  function Advance(rule: Rule, m: Mark): Mark {
    match rule
    case NodeRule =>
      var next := IncrementSequence(m.seqNum);
      if ShouldIncrementSession(next) then Mark((m.session + 1) % WRAP32, 1) else Mark(m.session, next)
    case AppRule =>
      if m.seqNum == MAX32 then Mark((m.session + 1) % WRAP32, 1)
      else Mark(m.session, IncrementSequence(m.seqNum))
  }

  /** Advancing moves the counter forward, except at these points. */
  predicate Sticks(rule: Rule, m: Mark) {
    match rule
    case NodeRule => m.seqNum == MAX32 || (m.seqNum == MAX32 - 1 && m.session == MAX32)
    case AppRule => m.seqNum == MAX32 && m.session == MAX32
  }

  /**
   The counter moves strictly forward exactly outside the listed points: the
   last session's end under both rules, and sequence 0xFFFFFFFF, which its own
   rule never reaches, under the node's.
   */
  lemma AdvanceMovesForward(rule: Rule, m: Mark)
    ensures Before(m, Advance(rule, m)) <==> !Sticks(rule, m)
  {
  }

  /** How many packets one session lasts. */
  function Period(rule: Rule): (p: nat)
    ensures p > 0
  {
    match rule
    case NodeRule => MAX32 - 1
    case AppRule => MAX32
  }

  /** A sender that begins at sequence 1 of session `start`. */
  datatype Transmitter = Transmitter(rule: Rule, start: u32)

  /** The pair carried by transmission `k`, counted from 0. */
  function Nth(s: Transmitter, k: nat): Mark {
    if k == 0 then Mark(s.start, 1) else Advance(s.rule, Nth(s, k - 1))
  }

  /** Transmission `k` comes before the session number wraps. */
  predicate BeforeWrap(s: Transmitter, k: nat) {
    s.start + k / Period(s.rule) <= MAX32
  }

  lemma MulStrict(p: nat, a: nat, b: nat)
    requires a < b
    ensures p * a + p <= p * b
  {
    assert p * b >= p * (a + 1) == p * a + p;
  }

  lemma DivUnique(k: nat, p: nat, q: nat, r: nat)
    requires p > 0 && k == p * q + r && r < p
    ensures k / p == q && k % p == r
  {
    var q' := k / p;
    assert k == p * q' + k % p;
    if q' < q {
      MulStrict(p, q', q);
    } else if q < q' {
      MulStrict(p, q, q');
    }
  }

  lemma DivStep(k: nat, p: nat)
    requires p > 0 && k > 0
    ensures k / p == (k - 1) / p + (if (k - 1) % p == p - 1 then 1 else 0)
    ensures k % p == if (k - 1) % p == p - 1 then 0 else (k - 1) % p + 1
  {
    var q, r := (k - 1) / p, (k - 1) % p;
    assert k - 1 == p * q + r;
    if r == p - 1 {
      assert p * (q + 1) == p * q + p;
      DivUnique(k, p, q + 1, 0);
    } else {
      DivUnique(k, p, q, r + 1);
    }
  }

  lemma DivOrder(k: nat, l: nat, p: nat)
    requires p > 0 && k <= l
    ensures k / p < l / p || (k / p == l / p && k % p <= l % p)
    ensures k < l && k / p == l / p ==> k % p < l % p
  {
    assert k == p * (k / p) + k % p && l == p * (l / p) + l % p;
    if l / p < k / p {
      MulStrict(p, l / p, k / p);
    }
  }

  /** Closed form of the counter: sessions last exactly one period, sequences run from 1. */
  lemma {:induction false} NthClosedForm(s: Transmitter, k: nat)
    requires BeforeWrap(s, k)
    ensures Nth(s, k) == Mark(s.start + k / Period(s.rule), 1 + k % Period(s.rule))
  {
    if k > 0 {
      DivStep(k, Period(s.rule));
      NthClosedForm(s, k - 1);
    }
  }

  /** Until its session number wraps, a sender's pairs strictly increase with every transmission. */
  lemma NthIncreases(s: Transmitter, k: nat, l: nat)
    requires BeforeWrap(s, k) && BeforeWrap(s, l)
    ensures Before(Nth(s, k), Nth(s, l)) <==> k < l
  {
    NthClosedForm(s, k);
    NthClosedForm(s, l);
    if k < l {
      DivOrder(k, l, Period(s.rule));
    } else {
      DivOrder(l, k, Period(s.rule));
    }
  }

  /** When the session number wraps, the counter goes back: the limit above is exact. */
  lemma WrapGoesBack(s: Transmitter, k: nat)
    requires k > 0 && BeforeWrap(s, k - 1) && !BeforeWrap(s, k)
    ensures Nth(s, k) == Mark(0, 1) && !Before(Nth(s, k - 1), Nth(s, k))
  {
    DivStep(k, Period(s.rule));
    NthClosedForm(s, k - 1);
  }

  /**
   Arrival `i` is transmission `nth[i]` of its sender, at any of its endpoints,
   and each sender's transmissions arrive in the order they were sent.
   */
  ghost predicate LossyInOrder(es: seq<Arrival>, nth: seq<nat>, senders: map<Tuid, Transmitter>) {
    && |nth| == |es|
    && (forall i :: 0 <= i < |es| ==>
          var tuid := TuidOf(es[i].msg.sender);
          tuid in senders && BeforeWrap(senders[tuid], nth[i]) && es[i].msg.mark == Nth(senders[tuid], nth[i]))
    && (forall i, j :: 0 <= i < j < |es| && TuidOf(es[i].msg.sender) == TuidOf(es[j].msg.sender) ==> nth[i] < nth[j])
  }

  /**
   Delivery: from an empty tracker, every in-order lossy interleaving of senders
   that share one counter across their endpoints is accepted whole, as long as
   no session number has wrapped and at most 32 Sender-IDs take part.
   */
  lemma LossyInOrderIsAccepted(
    es: seq<Arrival>, nth: seq<nat>, senders: map<Tuid, Transmitter>, ids: set<SenderId>, n: nat)
    requires LossyInOrder(es, nth, senders) && n < |es|
    requires |ids| <= 32 && forall i :: 0 <= i < |es| ==> es[i].msg.sender in ids
    ensures Accepts(es, n)
  {
    forall i, j | 0 <= i < j < |es| && TuidOf(es[i].msg.sender) == TuidOf(es[j].msg.sender)
      ensures Before(es[i].msg.mark, es[j].msg.mark)
    {
      NthIncreases(senders[TuidOf(es[i].msg.sender)], nth[i], nth[j]);
    }
    InOrderIsAccepted(es, ids, n);
  }
}
