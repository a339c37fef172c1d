/**
 * RPC value types: statistics counters, per-client auxiliary data, the
 * cancellation handle, the error kinds and the send/receive buffers with
 * their 128 KiB chunking.
 */
module RpcTypes {
  import opened Bytes
  import opened Wrappers

  /** Largest contiguous piece of a send buffer. */
  const ChunkSize: nat := 128 * 1024

  /**
   * The errors a call or connection can fail with: `closed_error`,
   * `timeout_error`, `unknown_verb_error`, `unknown_exception_error`,
   * `canceled_error`, and the `std::runtime_error` carrying the message of
   * a USER exception the server sent back.
   */
  datatype RpcError =
    | Closed
    | TimedOut
    | UnknownVerb(verb: nat)
    | UnknownException
    | Canceled
    | User(message: seq<byte>)

  /** Counters of one connection; every field is a 64-bit unsigned counter. */
  datatype Stats = Stats(
    replied: nat,
    pending: nat,
    exceptionReceived: nat,
    sentMessages: nat,
    waitReply: nat,
    timeout: nat)

  predicate StatsValid(s: Stats) {
    s.replied < U64 && s.pending < U64 && s.exceptionReceived < U64
    && s.sentMessages < U64 && s.waitReply < U64 && s.timeout < U64
  }

  function ZeroStats(): (s: Stats)
    ensures StatsValid(s)
    ensures s.replied == s.pending == s.exceptionReceived == s.sentMessages == s.waitReply == s.timeout == 0
  {
    Stats(0, 0, 0, 0, 0, 0)
  }

  /** `counter++` on a 64-bit unsigned counter. */
  function Inc(c: nat): (r: nat)
    requires c < U64
    ensures r < U64
    ensures c + 1 < U64 ==> r == c + 1
    ensures c + 1 == U64 ==> r == 0
  {
    (c + 1) % U64
  }

  /**
   * What a connection knows about its peer, with a map of named auxiliary
   * objects. The objects are of any type in the source; here they are of a
   * type parameter.
   */
  datatype ClientInfo<V> = ClientInfo(addr: nat, userData: map<string, V>)

  /** Attaching under a key already in use keeps the old object. */
  function AttachAuxiliary<V>(info: ClientInfo<V>, key: string, obj: V): (r: ClientInfo<V>)
    ensures r.addr == info.addr
    ensures key in r.userData
    ensures key in info.userData ==> r.userData == info.userData
    ensures key !in info.userData ==> r.userData[key] == obj
    ensures forall k :: k in info.userData ==> k in r.userData && r.userData[k] == info.userData[k]
    ensures forall k :: k in r.userData ==> k == key || k in info.userData
  {
    if key in info.userData then info
    else info.(userData := info.userData[key := obj])
  }

  /** Retrieving a key that was never attached is a failed assertion in the source. */
  function RetrieveAuxiliary<V>(info: ClientInfo<V>, key: string): (v: V)
    requires key in info.userData
    ensures v == info.userData[key]
  {
    info.userData[key]
  }

  /** The first object attached under a key is the one retrieved, whatever is attached later. */
  lemma AttachThenRetrieve<V>(info: ClientInfo<V>, key: string, first: V, later: seq<V>)
    requires key !in info.userData
    ensures var i1 := AttachAuxiliary(info, key, first);
      RetrieveAuxiliary(AttachAll(i1, key, later), key) == first
  {
    AttachAllKeeps(AttachAuxiliary(info, key, first), key, later);
  }

  function AttachAll<V>(info: ClientInfo<V>, key: string, objects: seq<V>): (r: ClientInfo<V>)
    ensures key in info.userData ==> r == info
    decreases |objects|
  {
    if objects == [] then info else AttachAll(AttachAuxiliary(info, key, objects[0]), key, objects[1..])
  }

  lemma AttachAllKeeps<V>(info: ClientInfo<V>, key: string, objects: seq<V>)
    requires key in info.userData
    ensures key in AttachAll(info, key, objects).userData
    ensures AttachAll(info, key, objects).userData[key] == info.userData[key]
  {
  }

  /**
   * A cancellation handle: the outgoing-queue entry it can still withdraw
   * and the reply wait it can still abandon, either of which may be gone.
   */
  datatype Cancellable = Cancellable(cancelSend: Option<nat>, cancelWait: Option<int>)

  datatype CancelAction = WithdrawSend(entry: nat) | AbandonWait(msgId: int)

  /** `cancel`: the send side first, then the wait side, each only if still armed. */
  function Cancel(c: Cancellable): (actions: seq<CancelAction>)
    ensures |actions| <= 2
    ensures forall e: nat :: WithdrawSend(e) in actions <==> c.cancelSend == Some(e)
    ensures forall m :: AbandonWait(m) in actions <==> c.cancelWait == Some(m)
    ensures forall k :: 0 <= k < |actions| ==>
      (actions[k].WithdrawSend? ==> k == 0) && (actions[k].AbandonWait? ==> k == |actions| - 1)
    ensures c.cancelSend.None? && c.cancelWait.None? ==> actions == []
  {
    (if c.cancelSend.Some? then [WithdrawSend(c.cancelSend.value)] else [])
    + (if c.cancelWait.Some? then [AbandonWait(c.cancelWait.value)] else [])
  }

  /** The storage of a send buffer: one contiguous piece or a list of chunks. */
  datatype Bufs = One(data: seq<byte>) | Many(chunks: seq<seq<byte>>)

  /** `snd_buf`: a 32-bit size field and the storage. */
  datatype SndBuf = SndBuf(size: nat, bufs: Bufs)

  function Concat(chunks: seq<seq<byte>>): (r: seq<byte>)
  {
    if chunks == [] then [] else chunks[0] + Concat(chunks[1..])
  }

  /** All bytes of a buffer, in order. */
  function Flatten(b: SndBuf): (r: seq<byte>)
  {
    match b.bufs
    case One(d) => d
    case Many(cs) => Concat(cs)
  }

  function Min(a: nat, b: nat): nat {
    if a <= b then a else b
  }

  /** The chunks the sizing constructor allocates: full chunks, then the remainder. */
  function Chunks(n: nat): (cs: seq<seq<byte>>)
    decreases n
  {
    if n == 0 then [] else [Zeros(Min(ChunkSize, n))] + Chunks(n - Min(ChunkSize, n))
  }

  /** The chunk list covers exactly `n` zero bytes. */
  lemma {:induction false} ChunksCover(n: nat)
    ensures Concat(Chunks(n)) == Zeros(n)
  {
    if n > 0 {
      var m := Min(ChunkSize, n);
      ChunksCover(n - m);
      assert Zeros(m) + Zeros(n - m) == Zeros(n);
    }
  }

  /** Every chunk but the last is full, and none is empty. */
  lemma {:induction false} ChunksShape(n: nat)
    ensures forall k :: 0 <= k < |Chunks(n)| ==> 0 < |Chunks(n)[k]| <= ChunkSize
    ensures forall k :: 0 <= k < |Chunks(n)| - 1 ==> |Chunks(n)[k]| == ChunkSize
  {
    if n > 0 {
      ChunksShape(n - Min(ChunkSize, n));
    }
  }

  /** As many chunks as the aligned-up size divided by the chunk size. */
  lemma {:induction false} ChunksCount(n: nat)
    ensures |Chunks(n)| == (n + ChunkSize - 1) / ChunkSize
  {
    if n > 0 {
      var m := Min(ChunkSize, n);
      ChunksCount(n - m);
      if n <= ChunkSize {
        DivModUnique(n + ChunkSize - 1, ChunkSize, 1, n - 1);
      } else {
        var q := (n - m + ChunkSize - 1) / ChunkSize;
        var r := (n - m + ChunkSize - 1) % ChunkSize;
        DivModUnique(n + ChunkSize - 1, ChunkSize, q + 1, r);
      }
    } else {
      DivModUnique(ChunkSize - 1, ChunkSize, 0, ChunkSize - 1);
    }
  }

  /**
   * `snd_buf(size_t)`: the size field keeps the low 32 bits; a buffer of at
   * most one chunk is one piece, anything larger is chunked.
   */
  function NewSndBuf(n: nat): (b: SndBuf)
    requires n < U64
    ensures b.size == n % U32
    ensures b.bufs.One? <==> n % U32 <= ChunkSize
  {
    var size := n % U32;
    if size <= ChunkSize then SndBuf(size, One(Zeros(size)))
    else SndBuf(size, Many(Chunks(n)))
  }

  /** The chunking loop of the sizing constructor. */
  method AllocateChunks(n: nat) returns (v: seq<seq<byte>>)
    ensures v == Chunks(n)
  {
    v := [];
    var left: nat := n;
    while left != 0
      invariant left <= n
      invariant v + Chunks(left) == Chunks(n)
      decreases left
    {
      var piece := Zeros(Min(ChunkSize, left));
      v := v + [piece];
      left := left - |piece|;
    }
  }

  /**
   * For any size a 32-bit field can hold, the buffer has exactly `size`
   * zero bytes, in pieces of at most one chunk.
   */
  lemma NewSndBufContents(n: nat)
    requires n < U32
    ensures Flatten(NewSndBuf(n)) == Zeros(n)
    ensures |Flatten(NewSndBuf(n))| == NewSndBuf(n).size
  {
    if n > ChunkSize {
      ChunksCover(n);
    }
  }

  /**
   * `snd_buf(temporary_buffer)`: one piece, its length stored in the 32-bit
   * size field, which keeps only the low 32 bits of a longer piece.
   */
  function SndBufOf(data: seq<byte>): (b: SndBuf)
    ensures Flatten(b) == data && b.size < U32
    ensures |data| < U32 ==> b.size == |data|
    ensures (b.size - |data|) % U32 == 0
    ensures SndBufWf(b) <==> |data| < U32
  {
    SndBuf(|data| % U32, One(data))
  }

  /** A well-formed buffer: a chunk list is never empty, and the size field counts the bytes. */
  predicate SndBufWf(b: SndBuf) {
    && (b.bufs.Many? ==> |b.bufs.chunks| > 0)
    && |Flatten(b)| == b.size
  }

  /** `front()`: the single piece, or the first chunk. */
  function Front(b: SndBuf): (f: seq<byte>)
    requires b.bufs.Many? ==> |b.bufs.chunks| > 0
    ensures f <= Flatten(b)
  {
    match b.bufs
    case One(d) => d
    case Many(cs) => cs[0]
  }

  /**
   * Every buffer the sizing constructor makes has a front of at least
   * `min(size, chunk)` bytes, so a header of up to one chunk written through
   * `front()` lands at the start of the whole buffer.
   */
  lemma {:induction false} NewSndBufFront(n: nat)
    requires n < U32
    ensures SndBufWf(NewSndBuf(n))
    ensures |Front(NewSndBuf(n))| >= Min(n, ChunkSize)
  {
    NewSndBufContents(n);
    if n > ChunkSize {
      ChunksShape(n);
    }
  }

  /** `s` with `bytes` written at offset `off`. */
  function WriteAt(s: seq<byte>, off: nat, bytes: seq<byte>): (r: seq<byte>)
    requires off + |bytes| <= |s|
    ensures |r| == |s| && r[off..off + |bytes|] == bytes
    ensures r[..off] == s[..off] && r[off + |bytes|..] == s[off + |bytes|..]
  {
    s[..off] + bytes + s[off + |bytes|..]
  }

  /** `write_le` through `front().get_write()`. */
  function WriteFront(b: SndBuf, off: nat, bytes: seq<byte>): (r: SndBuf)
    requires b.bufs.Many? ==> |b.bufs.chunks| > 0
    requires off + |bytes| <= |Front(b)|
    ensures r.size == b.size
  {
    match b.bufs
    case One(d) => b.(bufs := One(WriteAt(d, off, bytes)))
    case Many(cs) => b.(bufs := Many(cs[0 := WriteAt(cs[0], off, bytes)]))
  }

  /** Writing through the front is writing into the whole byte sequence. */
  lemma WriteFrontFlat(b: SndBuf, off: nat, bytes: seq<byte>)
    requires b.bufs.Many? ==> |b.bufs.chunks| > 0
    requires off + |bytes| <= |Front(b)|
    ensures Flatten(WriteFront(b, off, bytes)) == WriteAt(Flatten(b), off, bytes)
  {
    if b.bufs.Many? {
      var cs := b.bufs.chunks;
      assert Concat(cs) == cs[0] + Concat(cs[1..]);
      var cs2 := cs[0 := WriteAt(cs[0], off, bytes)];
      assert cs2[1..] == cs[1..];
      assert Concat(cs2) == cs2[0] + Concat(cs2[1..]);
    }
  }

  /** `front().trim_front(k); size -= k`: drops the first `k` bytes. */
  function TrimFront(b: SndBuf, k: nat): (r: SndBuf)
    requires b.bufs.Many? ==> |b.bufs.chunks| > 0
    requires k <= |Front(b)| && k <= b.size
    ensures r.size == b.size - k
  {
    match b.bufs
    case One(d) => SndBuf(b.size - k, One(d[k..]))
    case Many(cs) => SndBuf(b.size - k, Many(cs[0 := cs[0][k..]]))
  }

  lemma TrimFrontFlat(b: SndBuf, k: nat)
    requires b.bufs.Many? ==> |b.bufs.chunks| > 0
    requires k <= |Front(b)| && k <= b.size
    ensures Flatten(TrimFront(b, k)) == Flatten(b)[k..]
  {
    if b.bufs.Many? {
      var cs := b.bufs.chunks;
      assert Concat(cs) == cs[0] + Concat(cs[1..]);
      var cs2 := cs[0 := cs[0][k..]];
      assert cs2[1..] == cs[1..];
      assert Concat(cs2) == cs2[0] + Concat(cs2[1..]);
    }
  }
}
