/**
 * The network device: one queue pair per cpu, a hash-to-queue map and the
 * forwarding rule that spreads a queue's received packets over its proxy cpus.
 */
module Device {
  import opened Bytes
  import opened Wrappers
  import opened QueuePair

  function Pow2(n: nat): (r: nat)
    ensures r > 0
  {
    if n == 0 then 1 else 2 * Pow2(n - 1)
  }

  /**
   * `queues` has one slot per cpu (null until the cpu installs its queue pair),
   * `rssTableBits` is the number of low hash bits the hardware already used,
   * `hwQueues` is what the driver reports as its hardware queue count.
   */
  datatype Device = Device(queues: seq<Option<Qp>>, rssTableBits: nat, hwQueues: nat)

  datatype DeviceError = QueueAlreadyInstalled

  /** A fresh device for `cpus` cpus: no queue installed, no RSS bits, one hardware queue. */
  function NewDevice(cpus: nat): (d: Device)
    ensures |d.queues| == cpus && d.rssTableBits == 0 && d.hwQueues == 1
    ensures forall c :: 0 <= c < cpus ==> d.queues[c].None?
  {
    Device(seq(cpus, _ => None), 0, 1)
  }

  predicate Installed(d: Device, cpu: Cpu) {
    cpu < |d.queues| && d.queues[cpu].Some?
  }

  /** The queue pair of `cpu`; dereferencing an empty slot is not allowed. */
  function QueueForCpu(d: Device, cpu: Cpu): (q: Qp)
    requires Installed(d, cpu)
    ensures Some(q) == d.queues[cpu]
  {
    d.queues[cpu].value
  }

  /**
   * Installs the queue pair of `cpu`. The source asserts that the slot is
   * still empty; a second installation is the error here.
   */
  function SetLocalQueue(d: Device, cpu: Cpu, q: Qp): (r: Result<Device, DeviceError>)
    requires cpu < |d.queues|
    ensures r.Success? <==> !Installed(d, cpu)
    ensures r.Success? ==>
      && |r.value.queues| == |d.queues|
      && r.value.queues[cpu] == Some(q)
      && r.value.rssTableBits == d.rssTableBits && r.value.hwQueues == d.hwQueues
      && (forall c :: 0 <= c < |d.queues| && c != cpu ==> r.value.queues[c] == d.queues[c])
    ensures r.Failure? ==> r.error == QueueAlreadyInstalled
  {
    if d.queues[cpu].Some? then Failure(QueueAlreadyInstalled)
    else Success(d.(queues := d.queues[cpu := Some(q)]))
  }

  /** Installing a queue never disturbs one that is already there. */
  lemma SetLocalQueueOnce(d: Device, cpu: Cpu, q1: Qp, q2: Qp)
    requires cpu < |d.queues| && !Installed(d, cpu)
    ensures SetLocalQueue(d, cpu, q1).Success?
    ensures SetLocalQueue(SetLocalQueue(d, cpu, q1).value, cpu, q2) == Failure(QueueAlreadyInstalled)
  {
  }

  /** Maps a 32-bit RSS hash to a hardware queue. */
  function Hash2Qid(d: Device, hash: nat): (qid: nat)
    requires hash < U32 && d.hwQueues > 0
    ensures qid < d.hwQueues
  {
    hash % d.hwQueues
  }

  /** Hashes that differ by a multiple of the queue count land on the same queue. */
  lemma {:induction false} Hash2QidPeriodic(d: Device, hash: nat, k: nat)
    requires d.hwQueues > 0 && hash + k * d.hwQueues < U32
    ensures Hash2Qid(d, hash + k * d.hwQueues) == Hash2Qid(d, hash)
  {
    var n := d.hwQueues;
    DivModUnique(hash + k * n, n, hash / n + k, hash % n);
  }

  /** Every hardware queue is the target of some hash. */
  lemma Hash2QidOnto(d: Device, qid: nat)
    requires qid < d.hwQueues && d.hwQueues <= U32
    ensures Hash2Qid(d, qid) == qid
  {
    DivModUnique(qid, d.hwQueues, 0, qid);
  }

  /** `hash >> bits`; shifting a 32-bit value by 32 or more is undefined in the source. */
  function Shift(hash: nat, bits: nat): (r: nat)
    requires bits < 32
    ensures r <= hash
  {
    if bits == 0 then hash else Shift(hash / 2, bits - 1)
  }

  lemma MulTwo(k: nat, p: nat)
    ensures k * (2 * p) == 2 * (k * p)
  {
  }

  lemma HalfOf(m: nat, low: nat)
    ensures (2 * m + low) / 2 == m + low / 2
  {
    DivModUnique(2 * m + low, 2, m + low / 2, low % 2);
  }

  /** Shifting `k * 2^bits + low` by `bits` leaves exactly the block number `k`. */
  lemma {:induction false} ShiftBlock(k: nat, low: nat, bits: nat)
    requires bits < 32 && low < Pow2(bits)
    ensures Shift(k * Pow2(bits) + low, bits) == k
  {
    if bits > 0 {
      var p := Pow2(bits - 1);
      assert Pow2(bits) == 2 * p;
      MulTwo(k, p);
      HalfOf(k * p, low);
      ShiftBlock(k, low / 2, bits - 1);
    }
  }

  /**
   * The cpu that should handle a packet received on `src` whose hash is
   * `hash`: the hash is shifted past the RSS bits and reduced modulo the
   * number of proxies plus one; zero keeps the packet on `src`.
   */
  function ForwardDst(d: Device, src: Cpu, hash: nat): (dst: Cpu)
    requires Installed(d, src) && hash < U32 && d.rssTableBits < 32
    ensures dst == src || dst in QueueForCpu(d, src).proxies
    ensures !MayForward(QueueForCpu(d, src)) ==> dst == src
  {
    var q := QueueForCpu(d, src);
    if !MayForward(q) then src
    else
      var idx := Shift(hash, d.rssTableBits) % (|q.proxies| + 1);
      if idx != 0 then q.proxies[idx - 1] else src
  }

  /**
   * Reading the hash as a block number `k` above `rssTableBits` low bits:
   * the low bits play no part, and block `k` goes to `src` when `k` is a
   * multiple of one more than the proxy count, otherwise to proxy number
   * `k` modulo that count, counting from one.
   */
  lemma {:induction false} ForwardDstByBlock(d: Device, src: Cpu, k: nat, low: nat)
    requires Installed(d, src) && d.rssTableBits < 32
    requires low < Pow2(d.rssTableBits) && k * Pow2(d.rssTableBits) + low < U32
    ensures var q := QueueForCpu(d, src);
      var m := k % (|q.proxies| + 1);
      ForwardDst(d, src, k * Pow2(d.rssTableBits) + low) == if m == 0 then src else q.proxies[m - 1]
  {
    ShiftBlock(k, low, d.rssTableBits);
  }

  /**
   * The forwarding rule reaches every cpu it may choose: `src` itself and
   * each proxy has a hash that selects it, as long as the shifted hash range
   * is wide enough to tell them apart.
   */
  lemma {:induction false} ForwardDstReachesAll(d: Device, src: Cpu, k: nat)
    requires Installed(d, src) && d.rssTableBits < 32
    requires k <= |QueueForCpu(d, src).proxies|
    requires k * Pow2(d.rssTableBits) < U32
    ensures var dst := ForwardDst(d, src, k * Pow2(d.rssTableBits));
      dst == if k == 0 then src else QueueForCpu(d, src).proxies[k - 1]
  {
    ForwardDstByBlock(d, src, k, 0);
    DivModUnique(k, |QueueForCpu(d, src).proxies| + 1, 0, k);
  }

  /**
   * The cpu for a hash: its hardware queue, taken as the cpu with the same
   * number, then forwarded among that cpu's proxies.
   */
  function Hash2Cpu(d: Device, hash: nat): (cpu: Cpu)
    requires hash < U32 && d.hwQueues > 0 && d.rssTableBits < 32
    requires Installed(d, Hash2Qid(d, hash))
    ensures var src := Hash2Qid(d, hash);
      cpu == src || cpu in QueueForCpu(d, src).proxies
  {
    ForwardDst(d, Hash2Qid(d, hash), hash)
  }

  /** Without proxies the cpu is simply the hash modulo the queue count. */
  lemma Hash2CpuNoProxies(d: Device, hash: nat)
    requires hash < U32 && d.hwQueues > 0 && d.rssTableBits < 32
    requires Installed(d, Hash2Qid(d, hash))
    requires QueueForCpu(d, Hash2Qid(d, hash)).proxies == []
    ensures Hash2Cpu(d, hash) == hash % d.hwQueues
  {
  }
}
