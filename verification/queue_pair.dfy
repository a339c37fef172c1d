/**
 * `net::qp`, the per-shard transmit/receive engine: a transmit queue refilled
 * by pulling from registered packet providers, a proxy inbox whose drain
 * provider re-injects packets forwarded from other shards, and the packet
 * counters. Packets are opaque ids; a provider is the sequence of packets it
 * will still yield.
 */
module QueuePair {
  import opened Bytes
  import opened Wrappers

  type PacketId = nat
  type Cpu = nat

  /** `poll_tx` refills only when fewer packets than this are queued. */
  const RefillThreshold: nat := 16
  /** `poll_tx` stops refilling when the queue holds this many packets. */
  const MaxTxQueue: nat := 128

  /**
   * A registered packet provider: an upper-layer source that yields the
   * given packets one per call, or the drain of the proxy inbox that
   * `add_proxy` registers.
   */
  datatype Provider = Source(pending: seq<PacketId>) | ProxyDrain

  datatype Qp = Qp(
    providers: seq<Provider>,
    proxies: seq<Cpu>,
    proxyQ: seq<PacketId>,
    txQ: seq<PacketId>,
    packetsSnt: nat,
    packetsRcv: nat,
    lastTxBunch: nat,
    lastRxBunch: nat)

  /** One transmit cycle: the new state, the batch handed to the device, and `poll_tx`'s result. */
  datatype TxCycle = TxCycle(qp: Qp, batch: seq<PacketId>, sentAny: bool)

  predicate CountersValid(q: Qp) {
    q.packetsSnt < U64 && q.packetsRcv < U64 && q.lastTxBunch < U64 && q.lastRxBunch < U64
  }

  /**
   * The invariant every reachable queue-pair keeps: the drain provider is
   * registered exactly once once there is a proxy and never before, and the
   * transmit queue never exceeds its cap.
   */
  predicate Wf(q: Qp) {
    && CountersValid(q)
    && |q.txQ| <= MaxTxQueue
    && ((exists i :: 0 <= i < |q.providers| && q.providers[i] == ProxyDrain) <==> |q.proxies| > 0)
    && OneDrain(q.providers)
  }

  /** At most one provider is the proxy drain. */
  predicate OneDrain(ps: seq<Provider>) {
    forall i, j ::
      (0 <= i < |ps| && 0 <= j < |ps| && ps[i] == ProxyDrain && ps[j] == ProxyDrain) ==> i == j
  }

  /** A freshly constructed queue-pair: nothing registered, nothing queued, counters at 0. */
  function NewQp(): (q: Qp)
    ensures Wf(q)
    ensures q.txQ == [] && q.providers == [] && !MayForward(q)
  {
    Qp([], [], [], [], 0, 0, 0, 0)
  }

  /** `may_forward`: true once a proxy has been added. */
  predicate MayForward(q: Qp) {
    |q.proxies| > 0
  }

  /** `update_rx_count`: the last receive batch and the running (64-bit, wrapping) total. */
  function UpdateRxCount(q: Qp, count: nat): (r: Qp)
    requires CountersValid(q) && count < U64
    ensures CountersValid(r)
    ensures r.lastRxBunch == count
    ensures q.packetsRcv + count < U64 ==> r.packetsRcv == q.packetsRcv + count
    ensures q.packetsRcv + count >= U64 ==> r.packetsRcv + U64 == q.packetsRcv + count
    ensures r.(lastRxBunch := q.lastRxBunch, packetsRcv := q.packetsRcv) == q
  {
    q.(lastRxBunch := count, packetsRcv := (q.packetsRcv + count) % U64)
  }

  /** `register_packet_provider`: appended after the providers already registered. */
  function RegisterPacketProvider(q: Qp, pending: seq<PacketId>): (r: Qp)
    ensures r.providers == q.providers + [Source(pending)]
    ensures r.(providers := q.providers) == q
    ensures Wf(q) ==> Wf(r)
  {
    var r := q.(providers := q.providers + [Source(pending)]);
    assert forall i :: 0 <= i < |q.providers| ==> r.providers[i] == q.providers[i];
    r
  }

  /** `add_proxy`: records the cpu; the first call also registers the drain provider. */
  function AddProxy(q: Qp, cpu: Cpu): (r: Qp)
    ensures MayForward(r)
    ensures r.proxies == q.proxies + [cpu]
    ensures MayForward(q) ==> r.providers == q.providers
    ensures !MayForward(q) ==> r.providers == q.providers + [ProxyDrain]
    ensures r.(providers := q.providers, proxies := q.proxies) == q
    ensures Wf(q) ==> Wf(r)
  {
    if |q.proxies| == 0 then
      var r := q.(providers := q.providers + [ProxyDrain], proxies := q.proxies + [cpu]);
      assert forall i :: 0 <= i < |q.providers| ==> r.providers[i] == q.providers[i];
      assert r.providers[|q.providers|] == ProxyDrain;
      r
    else
      q.(proxies := q.proxies + [cpu])
  }

  /** `proxy_send`: a packet forwarded from another shard joins the back of the inbox. */
  function ProxySend(q: Qp, p: PacketId): (r: Qp)
    ensures r.proxyQ == q.proxyQ + [p]
    ensures r.(proxyQ := q.proxyQ) == q
    ensures Wf(q) ==> Wf(r)
  {
    q.(proxyQ := q.proxyQ + [p])
  }

  /** The packets provider pr would still yield in state q. */
  function Yields(q: Qp, pr: Provider): seq<PacketId> {
    match pr
    case Source(s) => s
    case ProxyDrain => q.proxyQ
  }

  /** Multiset of the packets held by the upper-layer sources. */
  function SourceBacklog(ps: seq<Provider>): multiset<PacketId> {
    if |ps| == 0 then multiset{}
    else
      (match ps[0] case Source(s) => multiset(s) case ProxyDrain => multiset{})
      + SourceBacklog(ps[1..])
  }

  /** Every packet some registered provider could still yield. */
  function Available(q: Qp): multiset<PacketId> {
    SourceBacklog(q.providers) + (if ProxyDrain in q.providers then multiset(q.proxyQ) else multiset{})
  }

  /** No registered provider has anything left to yield. */
  predicate Exhausted(q: Qp) {
    forall j :: 0 <= j < |q.providers| ==> Yields(q, q.providers[j]) == []
  }

  predicate IsSuffix<T(==)>(a: seq<T>, b: seq<T>) {
    |a| <= |b| && a == b[|b| - |a|..]
  }

  /**
   * r results from q by taking packets from the front of providers and of the
   * proxy inbox and appending packets at the back of the transmit queue:
   * nothing else changes.
   */
  predicate Drains(q: Qp, r: Qp) {
    && |r.providers| == |q.providers|
    && (forall j :: 0 <= j < |q.providers| ==>
          (r.providers[j].ProxyDrain? <==> q.providers[j].ProxyDrain?) &&
          (q.providers[j].Source? ==> IsSuffix(r.providers[j].pending, q.providers[j].pending)))
    && IsSuffix(r.proxyQ, q.proxyQ)
    && q.txQ <= r.txQ
    && r.proxies == q.proxies
    && r.packetsSnt == q.packetsSnt && r.packetsRcv == q.packetsRcv
    && r.lastTxBunch == q.lastTxBunch && r.lastRxBunch == q.lastRxBunch
  }

  lemma DrainsTrans(a: Qp, b: Qp, c: Qp)
    requires Drains(a, b) && Drains(b, c)
    ensures Drains(a, c)
  {
    forall j | 0 <= j < |a.providers| && a.providers[j].Source?
      ensures IsSuffix(c.providers[j].pending, a.providers[j].pending)
    {
      var x, y, z := a.providers[j].pending, b.providers[j].pending, c.providers[j].pending;
      assert z == x[|x| - |z|..];
    }
    assert c.proxyQ == a.proxyQ[|a.proxyQ| - |c.proxyQ|..];
  }

  lemma {:induction false} SourceBacklogTake(ps: seq<Provider>, i: nat, s: seq<PacketId>)
    requires i < |ps| && ps[i] == Source(s) && |s| > 0
    ensures SourceBacklog(ps[i := Source(s[1..])]) + multiset{s[0]} == SourceBacklog(ps)
  {
    var ps' := ps[i := Source(s[1..])];
    if i == 0 {
      assert ps'[1..] == ps[1..];
      assert multiset(s) == multiset{s[0]} + multiset(s[1..]) by {
        assert s == [s[0]] + s[1..];
      }
    } else {
      assert ps'[1..] == ps[1..][i - 1 := Source(s[1..])];
      SourceBacklogTake(ps[1..], i - 1, s);
    }
  }

  lemma {:induction false} SourceBacklogEmpty(ps: seq<Provider>)
    ensures SourceBacklog(ps) == multiset{} <==>
      forall j :: 0 <= j < |ps| && ps[j].Source? ==> ps[j].pending == []
  {
    if |ps| > 0 {
      SourceBacklogEmpty(ps[1..]);
      assert forall j :: 1 <= j < |ps| ==> ps[j] == ps[1..][j - 1];
    }
  }

  lemma ExhaustedIffNothingAvailable(q: Qp)
    ensures Exhausted(q) <==> Available(q) == multiset{}
  {
    SourceBacklogEmpty(q.providers);
    if ProxyDrain in q.providers {
      var k :| 0 <= k < |q.providers| && q.providers[k] == ProxyDrain;
      assert Yields(q, q.providers[k]) == q.proxyQ;
    }
  }

  lemma DrainMembershipKept(ps: seq<Provider>, i: nat, p: Provider)
    requires i < |ps| && ps[i].Source? && p.Source?
    ensures ProxyDrain in ps[i := p] <==> ProxyDrain in ps
  {
    if ProxyDrain in ps {
      var k :| 0 <= k < |ps| && ps[k] == ProxyDrain;
      assert ps[i := p][k] == ProxyDrain;
    }
    if ProxyDrain in ps[i := p] {
      var k :| 0 <= k < |ps| && ps[i := p][k] == ProxyDrain;
      assert ps[k] == ProxyDrain;
    }
  }

  /**
   * Calling provider i once: a source yields its first pending packet, the
   * drain yields the head of the proxy inbox, and an empty one yields nothing.
   */
  function Poll(q: Qp, i: nat): (r: (Qp, Option<PacketId>))
    requires i < |q.providers|
    ensures r.0.txQ == q.txQ && |r.0.providers| == |q.providers|
    ensures r.1.None? <==> Yields(q, q.providers[i]) == []
    ensures r.1.None? ==> r.0 == q
  {
    match q.providers[i]
    case Source(s) =>
      if |s| == 0 then (q, None)
      else (q.(providers := q.providers[i := Source(s[1..])]), Some(s[0]))
    case ProxyDrain =>
      if |q.proxyQ| == 0 then (q, None)
      else (q.(proxyQ := q.proxyQ[1..]), Some(q.proxyQ[0]))
  }

  /** A yielded packet is the head of what the provider held; the rest stays, in order. */
  lemma PollYieldsHead(q: Qp, i: nat)
    requires i < |q.providers|
    ensures var (r, p) := Poll(q, i);
      p.Some? ==> Yields(q, q.providers[i]) == [p.value] + Yields(r, r.providers[i])
  {
    var ys := Yields(q, q.providers[i]);
    if ys != [] {
      assert ys == [ys[0]] + ys[1..];
    }
  }

  /** Polling only takes from the front of the polled provider. */
  lemma PollDrains(q: Qp, i: nat)
    requires i < |q.providers|
    ensures Drains(q, Poll(q, i).0)
  {
  }

  lemma PollConserves(q: Qp, i: nat)
    requires i < |q.providers|
    ensures var (r, p) := Poll(q, i);
      p.Some? ==> Available(r) + multiset{p.value} == Available(q)
  {
    var (r, p) := Poll(q, i);
    if p.Some? {
      match q.providers[i]
      case Source(s) =>
        SourceBacklogTake(q.providers, i, s);
        DrainMembershipKept(q.providers, i, Source(s[1..]));
        var extra := if ProxyDrain in q.providers then multiset(q.proxyQ) else multiset{};
        assert Available(r) == SourceBacklog(r.providers) + extra;
      case ProxyDrain =>
        assert q.proxyQ == [q.proxyQ[0]] + q.proxyQ[1..];
        assert ProxyDrain in q.providers by { assert q.providers[i] == ProxyDrain; }
    }
  }

  /**
   * The rest of one refill round: providers i.. are polled in registration
   * order, each yielded packet is appended at the back, and the round stops
   * early when the queue reaches the cap. The second component counts the
   * packets yielded so far (`work`).
   */
  function RoundFrom(q: Qp, i: nat, work: nat): (r: (Qp, nat))
    requires i <= |q.providers| && |q.txQ| < MaxTxQueue
    decreases |q.providers| - i
    ensures |r.0.providers| == |q.providers|
    ensures r.1 >= work && |r.0.txQ| == |q.txQ| + (r.1 - work)
    ensures |r.0.txQ| <= MaxTxQueue
    ensures r.1 == work ==> r.0 == q
  {
    if i == |q.providers| then (q, work)
    else
      var (q1, p) := Poll(q, i);
      match p
      case None => RoundFrom(q1, i + 1, work)
      case Some(pk) =>
        var q2 := q1.(txQ := q1.txQ + [pk]);
        if |q2.txQ| == MaxTxQueue then (q2, work + 1)
        else RoundFrom(q2, i + 1, work + 1)
  }

  /** Appending to the transmit queue takes nothing from any provider. */
  lemma AppendDrains(q: Qp, pk: PacketId)
    ensures Drains(q, q.(txQ := q.txQ + [pk]))
  {
  }

  /** The first step of a round from provider i: poll it, append what it yields, stop at the cap. */
  lemma RoundStep(q: Qp, i: nat, work: nat)
    requires i < |q.providers| && |q.txQ| < MaxTxQueue
    ensures Poll(q, i).1.None? ==> RoundFrom(q, i, work) == RoundFrom(q, i + 1, work)
    ensures Poll(q, i).1.Some? ==>
      var q2 := Poll(q, i).0.(txQ := q.txQ + [Poll(q, i).1.value]);
      RoundFrom(q, i, work) == if |q2.txQ| == MaxTxQueue then (q2, work + 1) else RoundFrom(q2, i + 1, work + 1)
  {
  }

  /** A round only takes packets from the front of providers and appends them to the queue. */
  lemma {:induction false} RoundDrains(q: Qp, i: nat, work: nat)
    requires i <= |q.providers| && |q.txQ| < MaxTxQueue
    decreases |q.providers| - i
    ensures Drains(q, RoundFrom(q, i, work).0)
  {
    if i < |q.providers| {
      RoundStep(q, i, work);
      var r := RoundFrom(q, i, work).0;
      var p := Poll(q, i).1;
      if p.None? {
        RoundDrains(q, i + 1, work);
      } else {
        var q1 := Poll(q, i).0;
        PollDrains(q, i);
        var q2 := q1.(txQ := q.txQ + [p.value]);
        AppendDrains(q1, p.value);
        DrainsTrans(q, q1, q2);
        if |q2.txQ| < MaxTxQueue {
          RoundDrains(q2, i + 1, work + 1);
          DrainsTrans(q, q2, r);
        } else {
          assert r == q2;
        }
      }
    }
  }

  /** A round in which no provider yields anything found every provider from i on empty. */
  lemma {:induction false} RoundIdle(q: Qp, i: nat, work: nat)
    requires i <= |q.providers| && |q.txQ| < MaxTxQueue
    decreases |q.providers| - i
    ensures RoundFrom(q, i, work).1 == work ==>
      forall j :: i <= j < |q.providers| ==> Yields(q, q.providers[j]) == []
  {
    if i < |q.providers| && RoundFrom(q, i, work).1 == work {
      var (q1, p) := Poll(q, i);
      assert p.None?;
      RoundIdle(q1, i + 1, work);
    }
  }

  /**
   * Reference order of a round from provider i: the first packet each
   * provider from i on holds, in registration order, skipping the empty ones.
   */
  function RoundYield(q: Qp, i: nat): (ys: seq<PacketId>)
    requires i <= |q.providers|
    decreases |q.providers| - i
    ensures |ys| <= |q.providers| - i
  {
    if i == |q.providers| then []
    else
      var y := Yields(q, q.providers[i]);
      (if y == [] then [] else [y[0]]) + RoundYield(q, i + 1)
  }

  /** The reference order depends only on what providers i.. would yield. */
  lemma {:induction false} RoundYieldFrame(q: Qp, r: Qp, i: nat)
    requires i <= |q.providers| == |r.providers|
    requires forall k :: i <= k < |q.providers| ==> Yields(r, r.providers[k]) == Yields(q, q.providers[k])
    decreases |q.providers| - i
    ensures RoundYield(r, i) == RoundYield(q, i)
  {
    if i < |q.providers| {
      RoundYieldFrame(q, r, i + 1);
    }
  }

  /** With one drain at most, polling provider i leaves what every other provider would yield. */
  lemma PollLeavesOthers(q: Qp, i: nat)
    requires i < |q.providers| && OneDrain(q.providers)
    ensures OneDrain(Poll(q, i).0.providers)
    ensures forall k :: 0 <= k < |q.providers| && k != i ==>
      Yields(Poll(q, i).0, Poll(q, i).0.providers[k]) == Yields(q, q.providers[k])
  {
    var r := Poll(q, i).0;
    forall k | 0 <= k < |q.providers| && k != i
      ensures Yields(r, r.providers[k]) == Yields(q, q.providers[k])
    {
      if q.providers[i] == ProxyDrain {
        assert q.providers[k] != ProxyDrain;
      }
    }
  }

  /** The first `n` elements of `s`, or all of it when it is shorter. */
  function Prefix<T>(s: seq<T>, n: nat): seq<T> {
    if |s| <= n then s else s[..n]
  }

  lemma PrefixCons<T>(x: T, s: seq<T>, n: nat)
    requires n >= 1
    ensures Prefix([x] + s, n) == [x] + Prefix(s, n - 1)
  {
    if |s| > n - 1 {
      assert ([x] + s)[..n] == [x] + s[..n - 1];
    }
  }

  /** After a yielding poll of provider i, the reference order is that packet, then the rest's. */
  lemma PollThenRest(q: Qp, i: nat)
    requires i < |q.providers| && OneDrain(q.providers) && Poll(q, i).1.Some?
    ensures var q2 := Poll(q, i).0.(txQ := q.txQ + [Poll(q, i).1.value]);
      && OneDrain(q2.providers)
      && RoundYield(q, i) == [Poll(q, i).1.value] + RoundYield(q2, i + 1)
  {
    var q1 := Poll(q, i).0;
    var pk := Poll(q, i).1.value;
    var q2 := q1.(txQ := q.txQ + [pk]);
    PollYieldsHead(q, i);
    PollLeavesOthers(q, i);
    RoundYieldFrame(q, q2, i + 1);
  }

  /**
   * A round from provider i appends the reference order of heads from i
   * on, cut where the queue reaches the cap.
   */
  predicate RoundOrdered(q: Qp, i: nat, work: nat)
    requires i <= |q.providers| && |q.txQ| < MaxTxQueue
  {
    RoundFrom(q, i, work).0.txQ == q.txQ + Prefix(RoundYield(q, i), MaxTxQueue - |q.txQ|)
  }

  /** The step of `RoundOrder` at an empty provider, given the order for the rest of the round. */
  lemma RoundOrderSkipped(q: Qp, i: nat, work: nat)
    requires i < |q.providers| && |q.txQ| < MaxTxQueue && Poll(q, i).1.None?
    requires RoundOrdered(q, i + 1, work)
    ensures RoundOrdered(q, i, work)
  {
    RoundStep(q, i, work);
    assert RoundYield(q, i) == RoundYield(q, i + 1);
  }

  /** The step of `RoundOrder` at a provider whose packet fills the queue to the cap. */
  lemma RoundOrderFilled(q: Qp, i: nat, work: nat, q1: Qp, pk: PacketId)
    requires i < |q.providers| && |q.txQ| + 1 == MaxTxQueue && Poll(q, i).0 == q1 && Poll(q, i).1 == Some(pk)
    requires RoundYield(q, i) == [pk] + RoundYield(q1.(txQ := q.txQ + [pk]), i + 1)
    ensures RoundOrdered(q, i, work)
  {
    var rest := RoundYield(q1.(txQ := q.txQ + [pk]), i + 1);
    PrefixCons(pk, rest, 1);
    assert Prefix(rest, 0) == [];
  }

  /** Below the cap, a round that polls a yielding provider continues from the next one. */
  lemma RoundContinues(q: Qp, i: nat, work: nat, q1: Qp, pk: PacketId)
    requires i < |q.providers| && |q.txQ| + 1 < MaxTxQueue && Poll(q, i).0 == q1 && Poll(q, i).1 == Some(pk)
    ensures RoundFrom(q, i, work) == RoundFrom(q1.(txQ := q.txQ + [pk]), i + 1, work + 1)
  {
  }

  /** The step of `RoundOrder` at a provider that yields below the cap, given the order for the rest. */
  lemma RoundOrderYielded(q: Qp, i: nat, work: nat, q1: Qp, pk: PacketId)
    requires i < |q.providers| && |q.txQ| + 1 < MaxTxQueue && Poll(q, i).0 == q1 && Poll(q, i).1 == Some(pk)
    requires RoundYield(q, i) == [pk] + RoundYield(q1.(txQ := q.txQ + [pk]), i + 1)
    requires RoundOrdered(q1.(txQ := q.txQ + [pk]), i + 1, work + 1)
    ensures RoundOrdered(q, i, work)
  {
    var q2 := q1.(txQ := q.txQ + [pk]);
    var rest := RoundYield(q2, i + 1);
    var room := MaxTxQueue - |q.txQ|;
    RoundContinues(q, i, work, q1, pk);
    PrefixCons(pk, rest, room);
    AppendThenConcat(q.txQ, pk, Prefix(rest, room - 1));
  }

  lemma AppendThenConcat<T>(a: seq<T>, x: T, b: seq<T>)
    ensures (a + [x]) + b == a + ([x] + b)
  {
  }

  /**
   * A round from provider i appends to the transmit queue exactly the
   * reference order of heads, cut where the queue reaches the cap.
   */
  lemma {:induction false} RoundOrder(q: Qp, i: nat, work: nat)
    requires i <= |q.providers| && |q.txQ| < MaxTxQueue && OneDrain(q.providers)
    decreases |q.providers| - i
    ensures RoundOrdered(q, i, work)
  {
    if i < |q.providers| {
      var q1 := Poll(q, i).0;
      var p := Poll(q, i).1;
      if p.None? {
        RoundOrder(q, i + 1, work);
        RoundOrderSkipped(q, i, work);
      } else {
        var q2 := q1.(txQ := q.txQ + [p.value]);
        assert OneDrain(q2.providers) && RoundYield(q, i) == [p.value] + RoundYield(q2, i + 1) by {
          PollThenRest(q, i);
        }
        if |q.txQ| + 1 == MaxTxQueue {
          RoundOrderFilled(q, i, work, q1, p.value);
        } else {
          RoundOrder(q2, i + 1, work + 1);
          RoundOrderYielded(q, i, work, q1, p.value);
        }
      }
    }
  }

  /** The packets held by the queue-pair: queued for transmission or still with a provider. */
  function Total(q: Qp): multiset<PacketId> {
    multiset(q.txQ) + Available(q)
  }

  /** Moving a polled packet to the back of the transmit queue keeps the total. */
  lemma PollAppendConserves(q: Qp, i: nat)
    requires i < |q.providers|
    ensures var (q1, p) := Poll(q, i);
      p.Some? ==> Total(q1.(txQ := q1.txQ + [p.value])) == Total(q)
  {
    var (q1, p) := Poll(q, i);
    PollConserves(q, i);
    if p.Some? {
      var q2 := q1.(txQ := q1.txQ + [p.value]);
      assert Available(q2) == Available(q1);
      assert multiset(q2.txQ) == multiset(q.txQ) + multiset{p.value};
    }
  }

  /** A round moves packets from the providers to the transmit queue without losing or inventing any. */
  lemma {:induction false} RoundConserves(q: Qp, i: nat, work: nat)
    requires i <= |q.providers| && |q.txQ| < MaxTxQueue
    decreases |q.providers| - i
    ensures Total(RoundFrom(q, i, work).0) == Total(q)
  {
    if i < |q.providers| {
      RoundStep(q, i, work);
      var p := Poll(q, i).1;
      if p.None? {
        RoundConserves(q, i + 1, work);
      } else {
        PollAppendConserves(q, i);
        var q2 := Poll(q, i).0.(txQ := q.txQ + [p.value]);
        if |q2.txQ| < MaxTxQueue {
          RoundConserves(q2, i + 1, work + 1);
        }
      }
    }
  }

  /** The `do … while (work && size < 128)` refill loop. */
  function RefillLoop(q: Qp): (r: Qp)
    requires |q.txQ| < MaxTxQueue
    decreases MaxTxQueue - |q.txQ|
    ensures |q.txQ| <= |r.txQ| <= MaxTxQueue
  {
    var (q1, work) := RoundFrom(q, 0, 0);
    if work != 0 && |q1.txQ| < MaxTxQueue then RefillLoop(q1) else q1
  }

  /**
   * What the refill loop achieves: packets only move from the providers to
   * the back of the queue, none is lost, and the loop stops only when the
   * queue is full or no provider has anything left.
   */
  lemma {:induction false} RefillLoopSpec(q: Qp)
    requires |q.txQ| < MaxTxQueue
    decreases MaxTxQueue - |q.txQ|
    ensures var r := RefillLoop(q);
      && Drains(q, r)
      && multiset(r.txQ) + Available(r) == multiset(q.txQ) + Available(q)
      && (|r.txQ| == MaxTxQueue || Available(r) == multiset{})
  {
    var (q1, work) := RoundFrom(q, 0, 0);
    RoundDrains(q, 0, 0);
    RoundConserves(q, 0, 0);
    if work != 0 && |q1.txQ| < MaxTxQueue {
      RefillLoopSpec(q1);
      DrainsTrans(q, q1, RefillLoop(q1));
    } else if work == 0 {
      RoundIdle(q, 0, 0);
      ExhaustedIffNothingAvailable(q1);
    }
  }

  /** The refill step of `poll_tx`: only a queue below the threshold is refilled. */
  function Refill(q: Qp): (r: Qp)
    ensures Drains(q, r)
    ensures |q.txQ| >= RefillThreshold ==> r == q
    ensures |q.txQ| < RefillThreshold ==>
      |r.txQ| <= MaxTxQueue &&
      multiset(r.txQ) + Available(r) == multiset(q.txQ) + Available(q) &&
      (|r.txQ| == MaxTxQueue || Available(r) == multiset{})
  {
    if |q.txQ| < RefillThreshold then RefillLoopSpec(q); RefillLoop(q) else q
  }

  /**
   * How much a refill queues: everything available, up to the cap of 128.
   */
  lemma RefillAmount(q: Qp)
    requires |q.txQ| < RefillThreshold
    ensures var total := |q.txQ| + |Available(q)|;
      |Refill(q).txQ| == if total < MaxTxQueue then total else MaxTxQueue
  {
    var r := Refill(q);
    assert |multiset(r.txQ) + Available(r)| == |multiset(q.txQ) + Available(q)|;
  }

  /**
   * The default batch `send`: every queued packet goes to the device in queue
   * order, the queue is left empty, and the (32-bit) count is returned.
   */
  function DefaultBatchSend(txQ: seq<PacketId>): (r: (seq<PacketId>, seq<PacketId>, nat))
    ensures r.0 == [] && r.1 == txQ
    ensures r.2 < U32 && (|txQ| < U32 ==> r.2 == |txQ|) && (r.2 - |txQ|) % U32 == 0
  {
    (txQ[|txQ|..], txQ, |txQ| % U32)
  }

  /** A refill leaves every counter as it was. */
  lemma RefillKeepsCounters(q: Qp)
    requires CountersValid(q)
    ensures CountersValid(Refill(q))
    ensures Refill(q).packetsSnt == q.packetsSnt
  {
    var r := Refill(q);
    assert Drains(q, r);
  }

  /** `poll_tx`: refill, then hand the whole queue to the device in one batch. */
  function PollTx(q: Qp): (c: TxCycle)
    requires CountersValid(q)
    ensures CountersValid(c.qp)
    ensures c.sentAny <==> |Refill(q).txQ| > 0
    ensures c.sentAny ==>
      && c.batch == Refill(q).txQ
      && c.qp == Refill(q).(txQ := [], lastTxBunch := |c.batch| % U32,
                            packetsSnt := (q.packetsSnt + |c.batch| % U32) % U64)
    ensures !c.sentAny ==> c.batch == [] && c.qp == Refill(q)
  {
    var r := Refill(q);
    RefillKeepsCounters(q);
    if |r.txQ| > 0 then
      var (rest, batch, sent) := DefaultBatchSend(r.txQ);
      assert batch == r.txQ && sent == |batch| % U32;
      TxCycle(r.(txQ := rest, lastTxBunch := sent, packetsSnt := (q.packetsSnt + sent) % U64), batch, true)
    else
      TxCycle(r, [], false)
  }

  /** Draining keeps the drain provider registered where it was, so the shape part of `Wf` carries over. */
  lemma DrainsKeepsWf(q: Qp, r: Qp)
    requires Wf(q) && Drains(q, r) && CountersValid(r) && |r.txQ| <= MaxTxQueue
    ensures Wf(r)
  {
    forall j | 0 <= j < |r.providers|
      ensures r.providers[j] == ProxyDrain <==> q.providers[j] == ProxyDrain
    {
      assert r.providers[j].ProxyDrain? <==> q.providers[j].ProxyDrain?;
    }
    if |q.proxies| > 0 {
      var k :| 0 <= k < |q.providers| && q.providers[k] == ProxyDrain;
      assert r.providers[k] == ProxyDrain;
    }
    if exists i :: 0 <= i < |r.providers| && r.providers[i] == ProxyDrain {
      var k :| 0 <= k < |r.providers| && r.providers[k] == ProxyDrain;
      assert q.providers[k] == ProxyDrain;
    }
  }

  /** A transmit cycle keeps every queue-pair invariant, in particular the cap of 128. */
  lemma PollTxKeepsWf(q: Qp)
    requires Wf(q)
    ensures Wf(PollTx(q).qp)
  {
    var r := Refill(q);
    DrainsKeepsWf(q, r);
    var c := PollTx(q);
    assert c.qp.providers == r.providers && c.qp.proxies == r.proxies && |c.qp.txQ| <= |r.txQ|;
  }

  /**
   * Scenario: one provider holding n packets and an empty queue. The first
   * cycle sends the first min(n, 128) packets in order; the rest stay with the
   * provider for the next cycle.
   */
  lemma SingleProviderCycle(q: Qp, s: seq<PacketId>)
    requires CountersValid(q) && q.providers == [Source(s)] && q.txQ == []
    ensures var k := if |s| < MaxTxQueue then |s| else MaxTxQueue;
      && PollTx(q).batch == s[..k]
      && PollTx(q).qp.providers == [Source(s[k..])]
  {
    assert SourceBacklog(q.providers) == multiset(s) by {
      assert q.providers[1..] == [];
    }
    assert ProxyDrain !in q.providers;
    assert Available(q) == multiset(s);
    RefillAmount(q);
    SingleProviderOrder(q, s);
  }

  /** With a single source, the packets appended by a refill are exactly a prefix of what it held. */
  lemma SingleProviderOrder(q: Qp, s: seq<PacketId>)
    requires q.providers == [Source(s)] && q.txQ == []
    ensures var r := Refill(q);
      |r.txQ| <= |s| && r.txQ == s[..|r.txQ|] && r.providers == [Source(s[|r.txQ|..])]
  {
    SingleSourceRefill(q, s, [], 0);
  }

  /** One iteration of the refill loop: a round, then another iteration while it found work and there is room. */
  lemma RefillStep(q: Qp)
    requires |q.txQ| < MaxTxQueue
    ensures var rd := RoundFrom(q, 0, 0);
      RefillLoop(q) == if rd.1 != 0 && |rd.0.txQ| < MaxTxQueue then RefillLoop(rd.0) else rd.0
  {
  }

  /** A round over a single source moves its first packet, if any, to the queue. */
  lemma SingleSourceRound(q: Qp, s: seq<PacketId>)
    requires q.providers == [Source(s)] && |q.txQ| < MaxTxQueue
    ensures s == [] ==> RoundFrom(q, 0, 0) == (q, 0)
    ensures s != [] ==> RoundFrom(q, 0, 0) == (q.(providers := [Source(s[1..])], txQ := q.txQ + [s[0]]), 1)
  {
    RoundStep(q, 0, 0);
    if s == [] {
      assert RoundFrom(q, 1, 0) == (q, 0);
    } else {
      var q2 := q.(providers := [Source(s[1..])], txQ := q.txQ + [s[0]]);
      assert q.providers[0 := Source(s[1..])] == [Source(s[1..])];
      assert Poll(q, 0) == (q.(providers := [Source(s[1..])]), Some(s[0]));
      if |q2.txQ| < MaxTxQueue {
        assert RoundFrom(q2, 1, 1) == (q2, 1);
      }
    }
  }

  /**
   * Invariant of refilling from one source: the queue is the packets already
   * queued followed by the first ones of the source, in order.
   */
  lemma {:induction false} SingleSourceRefill(q: Qp, s0: seq<PacketId>, pre: seq<PacketId>, m: nat)
    requires m <= |s0| && |q.txQ| < MaxTxQueue
    requires q.providers == [Source(s0[m..])] && q.txQ == pre + s0[..m]
    decreases MaxTxQueue - |q.txQ|
    ensures SourceQueued(RefillLoop(q), s0, pre)
  {
    if m == |s0| {
      assert RefillLoop(q) == q by {
        SingleSourceRound(q, s0[m..]);
        RefillStep(q);
      }
    } else {
      var q2 := q.(providers := [Source(s0[m + 1..])], txQ := q.txQ + [s0[m]]);
      SingleSourceLoopStep(q, s0, pre, m);
      if |q2.txQ| < MaxTxQueue {
        SingleSourceRefill(q2, s0, pre, m + 1);
      }
    }
  }

  /** The refill loop has queued the earlier packets and then a prefix of the source, which still holds the rest. */
  predicate SourceQueued(r: Qp, s0: seq<PacketId>, pre: seq<PacketId>) {
    && |pre| <= |r.txQ| <= |pre| + |s0|
    && r.txQ == pre + s0[..|r.txQ| - |pre|]
    && r.providers == [Source(s0[|r.txQ| - |pre|..])]
  }

  /** One iteration of a single-source refill moves the source's next packet and keeps the queue a prefix. */
  lemma SingleSourceLoopStep(q: Qp, s0: seq<PacketId>, pre: seq<PacketId>, m: nat)
    requires m < |s0| && |q.txQ| < MaxTxQueue
    requires q.providers == [Source(s0[m..])] && q.txQ == pre + s0[..m]
    ensures var q2 := q.(providers := [Source(s0[m + 1..])], txQ := q.txQ + [s0[m]]);
      && q2.txQ == pre + s0[..m + 1]
      && RefillLoop(q) == (if |q2.txQ| < MaxTxQueue then RefillLoop(q2) else q2)
      && (|q2.txQ| == MaxTxQueue ==> SourceQueued(q2, s0, pre))
  {
    var q2 := q.(providers := [Source(s0[m + 1..])], txQ := q.txQ + [s0[m]]);
    assert s0[m..][0] == s0[m] && s0[m..][1..] == s0[m + 1..];
    SingleSourceRound(q, s0[m..]);
    RefillStep(q);
    assert s0[..m + 1] == s0[..m] + [s0[m]];
  }


  /**
   * The drain provider serves the proxy inbox first-in first-out: after
   * `proxy_send(p)` it yields the oldest forwarded packet, which is p itself
   * when the inbox was empty.
   */
  lemma ProxyDrainFifo(q: Qp, i: nat, p: PacketId)
    requires i < |q.providers| && q.providers[i] == ProxyDrain
    ensures Poll(ProxySend(q, p), i).1 == Some(if q.proxyQ == [] then p else q.proxyQ[0])
    ensures Poll(ProxySend(q, p), i).0.proxyQ == (q.proxyQ + [p])[1..]
  {
  }

  /** One pass of the `for` loop over the providers, with its early `break` at the cap. */
  method RunRound(start: Qp) returns (q: Qp, work: nat)
    requires |start.txQ| < MaxTxQueue
    ensures (q, work) == RoundFrom(start, 0, 0)
  {
    q, work := start, 0;
    var i: nat := 0;
    while i < |q.providers|
      invariant i <= |q.providers| && |q.txQ| < MaxTxQueue
      invariant RoundFrom(q, i, work) == RoundFrom(start, 0, 0)
      decreases |q.providers| - i
    {
      var (q1, p) := Poll(q, i);
      q := q1;
      if p.Some? {
        work := work + 1;
        q := q.(txQ := q.txQ + [p.value]);
        if |q.txQ| == MaxTxQueue {
          return;
        }
      }
      i := i + 1;
    }
  }

  /** The refill part of `poll_tx`: the threshold test and the `do … while` loop. */
  method RunRefill(q0: Qp) returns (q: Qp)
    ensures q == Refill(q0)
  {
    q := q0;
    if |q.txQ| < RefillThreshold {
      while true
        invariant |q.txQ| < MaxTxQueue
        invariant RefillLoop(q) == RefillLoop(q0)
        decreases MaxTxQueue - |q.txQ|
      {
        var start := q;
        var work;
        q, work := RunRound(start);
        if work == 0 || |q.txQ| >= MaxTxQueue {
          return;
        }
      }
    }
  }

  /** The default batch `send`, popping the queue one packet at a time. */
  method RunBatchSend(txQ0: seq<PacketId>) returns (txQ: seq<PacketId>, batch: seq<PacketId>, sent: nat)
    ensures (txQ, batch, sent) == DefaultBatchSend(txQ0)
  {
    txQ, batch, sent := txQ0, [], 0;
    while txQ != []
      invariant batch + txQ == txQ0
      invariant sent == |batch| % U32
    {
      batch := batch + [txQ[0]];
      txQ := txQ[1..];
      sent := (sent + 1) % U32;
    }
    assert batch == txQ0 && txQ == txQ0[|txQ0|..];
  }

  /** The imperative `poll_tx`. */
  method PollTxLoop(q0: Qp) returns (c: TxCycle)
    requires CountersValid(q0)
    ensures c == PollTx(q0)
  {
    var q := RunRefill(q0);
    if |q.txQ| > 0 {
      var rest, batch, sent := RunBatchSend(q.txQ);
      c := TxCycle(q.(txQ := rest, lastTxBunch := sent, packetsSnt := (q.packetsSnt + sent) % U64), batch, true);
    } else {
      c := TxCycle(q, [], false);
    }
  }
}
