/**
 * The RPC wire formats: the negotiation frame exchanged when a connection
 * opens, the request and response frame headers, the exception payloads,
 * and the length prefix of a compressed frame. Multi-byte fields are little
 * endian. A byte stream is a `seq<byte>`; reading `n` bytes from it takes
 * what is there, up to `n`, and a short read is an end of stream.
 */
module RpcFrames {
  import opened Bytes
  import opened Wrappers
  import opened RpcTypes

  /** "SSTARRPC" without its terminating NUL. */
  const Magic: seq<byte> := [0x53, 0x53, 0x54, 0x41, 0x52, 0x52, 0x50, 0x43]

  /** The fixed part of a negotiation frame: the magic and a 32-bit length. */
  const NegotiationHeaderSize: nat := 12

  /** Protocol feature identifiers. */
  const FeatureCompress: nat := 0
  const FeatureTimeout: nat := 1

  /** The `exception_type` tags of an error reply. */
  const ExceptionUser: nat := 0
  const ExceptionUnknownVerb: nat := 1

  lemma ReadLE32At(s: seq<byte>, off: nat, n: nat)
    requires n < U32 && off + 4 <= |s| && s[off..off + 4] == LE32(n)
    ensures ReadLE(s, off, 4) == n
  {
    Pow256Values();
    FromLEOfLE(n, 4);
  }

  lemma ReadLE64At(s: seq<byte>, off: nat, n: nat)
    requires n < U64 && off + 8 <= |s| && s[off..off + 8] == LE64(n)
    ensures ReadLE(s, off, 8) == n
  {
    Pow256Values();
    FromLEOfLE(n, 8);
  }

  // Feature maps: an ordered map from feature id to feature data, kept as an
  // association list sorted by id.

  type FeatureMap = seq<(nat, seq<byte>)>

  predicate Sorted(fm: FeatureMap) {
    forall i, j :: 0 <= i < j < |fm| ==> fm[i].0 < fm[j].0
  }

  /** Ids are 32-bit values and each piece of data has a 32-bit length. */
  predicate FeatureMapValid(fm: FeatureMap) {
    && Sorted(fm)
    && (forall i :: 0 <= i < |fm| ==> fm[i].0 < U32 && |fm[i].1| < U32)
  }

  function Lookup(fm: FeatureMap, id: nat): (r: Option<seq<byte>>)
    ensures r.Some? <==> exists i :: 0 <= i < |fm| && fm[i].0 == id
    ensures r.Some? ==> exists i :: 0 <= i < |fm| && fm[i] == (id, r.value)
  {
    if fm == [] then None
    else if fm[0].0 == id then Some(fm[0].1)
    else Lookup(fm[1..], id)
  }

  /** `map.emplace`: inserts in id order unless the id is already present. */
  function Emplace(fm: FeatureMap, id: nat, data: seq<byte>): (r: FeatureMap)
    ensures forall i :: 0 <= i < |r| ==> r[i] == (id, data) || r[i] in fm
    ensures Sorted(fm) ==> Sorted(r)
    ensures Sorted(fm) && Lookup(fm, id).Some? ==> r == fm
  {
    if fm == [] then [(id, data)]
    else if id < fm[0].0 then PrependBelow(fm, id, data); [(id, data)] + fm
    else if id == fm[0].0 then fm
    else
      var rest := Emplace(fm[1..], id, data);
      ConsKeeps(fm, id, data, rest);
      EmplaceKeepsPresent(fm, id, rest);
      [fm[0]] + rest
  }

  /** A new id below the first one goes in front and leaves the map ordered. */
  lemma PrependBelow(fm: FeatureMap, id: nat, data: seq<byte>)
    requires fm != [] && id < fm[0].0
    ensures Sorted(fm) ==> Sorted([(id, data)] + fm)
    ensures Lookup(fm, id).Some? ==> !Sorted(fm)
  {
    if Sorted(fm) {
      var r := [(id, data)] + fm;
      forall i, j | 0 <= i < j < |r|
        ensures r[i].0 < r[j].0
      {
        assert r[j] == fm[j - 1];
        if i > 0 {
          assert r[i] == fm[i - 1];
        } else if j > 1 {
          assert fm[0].0 < fm[j - 1].0;
        }
      }
      forall k | 0 <= k < |fm|
        ensures fm[k].0 != id
      {
        if k > 0 {
          assert fm[0].0 < fm[k].0;
        }
      }
    }
  }

  /** In the recursive case an id already present further on leaves the tail, hence the map, as it was. */
  lemma EmplaceKeepsPresent(fm: FeatureMap, id: nat, rest: FeatureMap)
    requires fm != [] && id > fm[0].0
    requires Sorted(fm[1..]) && Lookup(fm[1..], id).Some? ==> rest == fm[1..]
    ensures Sorted(fm) && Lookup(fm, id).Some? ==> [fm[0]] + rest == fm
  {
    if Sorted(fm) && Lookup(fm, id).Some? {
      SortedTail(fm);
      assert Lookup(fm[1..], id).Some?;
      assert [fm[0]] + fm[1..] == fm;
    }
  }

  /** `map[id] = data`: inserts in id order or replaces the data of the id. */
  function Assign(fm: FeatureMap, id: nat, data: seq<byte>): (r: FeatureMap)
    ensures forall i :: 0 <= i < |r| ==> r[i] == (id, data) || r[i] in fm
    ensures Sorted(fm) ==> Sorted(r)
  {
    if fm == [] then [(id, data)]
    else if id < fm[0].0 then PrependBelow(fm, id, data); [(id, data)] + fm
    else if id == fm[0].0 then [(id, data)] + fm[1..]
    else
      var rest := Assign(fm[1..], id, data);
      ConsKeeps(fm, id, data, rest);
      [fm[0]] + rest
  }

  /** The tail of a sorted map is sorted and does not hold the head's id. */
  lemma SortedTail(fm: FeatureMap)
    requires Sorted(fm) && fm != []
    ensures Sorted(fm[1..]) && Lookup(fm[1..], fm[0].0).None?
  {
    forall i, j | 0 <= i < j < |fm| - 1
      ensures fm[1..][i].0 < fm[1..][j].0
    {
      assert fm[1..][i] == fm[i + 1] && fm[1..][j] == fm[j + 1];
    }
    forall i | 0 <= i < |fm[1..]|
      ensures fm[1..][i].0 != fm[0].0
    {
      assert fm[1..][i] == fm[i + 1];
    }
  }

  /**
   * The recursive case of `Emplace` and `Assign`: the head goes back in
   * front of the result for the tail, which keeps the entries drawn from
   * `fm` and, for a sorted `fm`, the order.
   */
  lemma ConsKeeps(fm: FeatureMap, id: nat, data: seq<byte>, rest: FeatureMap)
    requires fm != [] && id > fm[0].0
    requires forall i :: 0 <= i < |rest| ==> rest[i] == (id, data) || rest[i] in fm[1..]
    requires Sorted(fm[1..]) ==> Sorted(rest)
    ensures forall i :: 0 <= i < |[fm[0]] + rest| ==> ([fm[0]] + rest)[i] == (id, data) || ([fm[0]] + rest)[i] in fm
    ensures Sorted(fm) ==> Sorted([fm[0]] + rest)
  {
    var r := [fm[0]] + rest;
    forall i | 0 <= i < |r|
      ensures r[i] == (id, data) || r[i] in fm
    {
      if i == 0 {
        assert r[i] == fm[0];
      } else {
        assert r[i] == rest[i - 1];
      }
    }
    if Sorted(fm) {
      assert fm == [fm[0]] + fm[1..];
      SortedTail(fm);
      ConsSorted(fm[0], fm[1..], id, data, rest);
    }
  }

  /**
   * Putting back the head of a sorted map in front of a sorted result whose
   * entries come from the tail or are the new id keeps the order.
   */
  lemma ConsSorted(x: (nat, seq<byte>), fm: FeatureMap, id: nat, data: seq<byte>, rest: FeatureMap)
    requires Sorted([x] + fm) && x.0 < id && Sorted(rest)
    requires forall i :: 0 <= i < |rest| ==> rest[i] == (id, data) || rest[i] in fm
    ensures Sorted([x] + rest)
  {
    var r := [x] + rest;
    forall i, j | 0 <= i < j < |r|
      ensures r[i].0 < r[j].0
    {
      assert r[j] == rest[j - 1];
      if i == 0 {
        assert r[i] == ([x] + fm)[0];
        if rest[j - 1] != (id, data) {
          var k :| 0 <= k < |fm| && fm[k] == rest[j - 1];
          assert ([x] + fm)[k + 1] == fm[k];
        }
      } else {
        assert r[i] == rest[i - 1];
      }
    }
  }

  /** After `Emplace` the id is present; it maps to the new data only if it was absent. */
  lemma {:induction false} EmplaceLookup(fm: FeatureMap, id: nat, data: seq<byte>, other: nat)
    requires Sorted(fm)
    ensures Lookup(Emplace(fm, id, data), id) ==
      if Lookup(fm, id).Some? then Lookup(fm, id) else Some(data)
    ensures other != id ==> Lookup(Emplace(fm, id, data), other) == Lookup(fm, other)
  {
    if fm != [] && id > fm[0].0 {
      EmplaceLookup(fm[1..], id, data, other);
    }
  }

  /** After `Assign` the id maps to the new data and no other id changes. */
  lemma {:induction false} AssignLookup(fm: FeatureMap, id: nat, data: seq<byte>, other: nat)
    ensures Lookup(Assign(fm, id, data), id) == Some(data)
    ensures other != id ==> Lookup(Assign(fm, id, data), other) == Lookup(fm, other)
  {
    if fm != [] && id > fm[0].0 {
      AssignLookup(fm[1..], id, data, other);
    }
  }

  /** Emplacing an id above every present id appends it. */
  lemma {:induction false} EmplaceAbove(fm: FeatureMap, id: nat, data: seq<byte>)
    requires forall i :: 0 <= i < |fm| ==> fm[i].0 < id
    ensures Emplace(fm, id, data) == fm + [(id, data)]
  {
    if fm != [] {
      assert id > fm[0].0;
      assert Emplace(fm, id, data) == [fm[0]] + Emplace(fm[1..], id, data);
      EmplaceAbove(fm[1..], id, data);
      AppendAssoc([fm[0]], fm[1..], [(id, data)]);
      assert [fm[0]] + fm[1..] == fm;
    }
  }

  // The negotiation frame.

  /** One record: 32-bit id, 32-bit data length, data. */
  function Record(id: nat, data: seq<byte>): (r: seq<byte>)
    requires id < U32 && |data| < U32
    ensures |r| == 8 + |data|
  {
    LE32(id) + LE32(|data|) + data
  }

  function EncodeRecords(fm: FeatureMap): (r: seq<byte>)
    requires FeatureMapValid(fm)
    ensures |r| == RecordsSize(fm)
  {
    if fm == [] then [] else Record(fm[0].0, fm[0].1) + EncodeRecords(fm[1..])
  }

  /** The length field of the frame: eight bytes of record header per feature, plus the data. */
  function RecordsSize(fm: FeatureMap): nat {
    if fm == [] then 0 else 8 + |fm[0].1| + RecordsSize(fm[1..])
  }

  /** `send_negotiation_frame`: magic, length of the records, the records in id order. */
  function EncodeNegotiation(fm: FeatureMap): (r: seq<byte>)
    requires FeatureMapValid(fm) && RecordsSize(fm) < U32
    ensures |r| == NegotiationHeaderSize + RecordsSize(fm)
    ensures r[..8] == Magic
  {
    Magic + LE32(RecordsSize(fm)) + EncodeRecords(fm)
  }

  /**
   * The record loop of `receive_negotiation_frame`: fewer than eight bytes
   * left, or a length that runs past the end, closes the connection; a
   * repeated id keeps its first data.
   */
  function ParseRecords(data: seq<byte>, acc: FeatureMap): (r: Result<FeatureMap, RpcError>)
    ensures r.Failure? ==> r.error == Closed
    ensures data == [] ==> r == Success(acc)
    ensures MalformedRecord(data) ==> r == Failure(Closed)
    decreases |data|
  {
    if |data| == 0 then Success(acc)
    else if |data| < 8 then Failure(Closed)
    else
      var id := ReadLE(data, 0, 4);
      var len := ReadLE(data, 4, 4);
      if len > |data| - 8 then Failure(Closed)
      else ParseRecords(data[8 + len..], Emplace(acc, id, data[8..8 + len]))
  }

  /**
   * The front of a record list that the loop refuses: a partial record
   * header, or a header whose length runs past the end.
   */
  predicate MalformedRecord(data: seq<byte>) {
    || 0 < |data| < 8
    || (|data| >= 8 && ReadLE(data, 4, 4) > |data| - 8)
  }

  /** A malformed record after any number of well-formed ones still closes the connection. */
  lemma {:induction false} MalformedAfterRecords(fm: FeatureMap, tail: seq<byte>, acc: FeatureMap)
    requires FeatureMapValid(fm) && MalformedRecord(tail)
    ensures ParseRecords(EncodeRecords(fm) + tail, acc) == Failure(Closed)
    decreases |fm|
  {
    if fm != [] {
      var id, d := fm[0].0, fm[0].1;
      assert id < U32 && |d| < U32;
      assert EncodeRecords(fm) + tail == Record(id, d) + (EncodeRecords(fm[1..]) + tail);
      ParseRecordsStep(id, d, EncodeRecords(fm[1..]) + tail, acc);
      MalformedAfterRecords(fm[1..], tail, Emplace(acc, id, d));
    } else {
      assert EncodeRecords(fm) + tail == tail;
    }
  }

  /**
   * `receive_negotiation_frame`: the fixed part, the magic check, the
   * records. Every failure is `closed_error`. On success the map and the
   * unread rest of the stream.
   */
  function ReceiveNegotiation(input: seq<byte>): (r: Result<(FeatureMap, seq<byte>), RpcError>)
    ensures r.Failure? ==> r.error == Closed
    ensures r.Success? ==> |input| >= NegotiationHeaderSize && input[..8] == Magic
    ensures r.Success? ==>
      var len := ReadLE(input, 8, 4);
      NegotiationHeaderSize + len <= |input| && r.value.1 == input[NegotiationHeaderSize + len..]
  {
    if |input| < NegotiationHeaderSize then Failure(Closed)
    else if input[..8] != Magic then Failure(Closed)
    else
      var len := ReadLE(input, 8, 4);
      if |input| - NegotiationHeaderSize < len then Failure(Closed)
      else
        var fm :- ParseRecords(input[NegotiationHeaderSize..NegotiationHeaderSize + len], []);
        Success((fm, input[NegotiationHeaderSize + len..]))
  }

  lemma AppendAssoc<T>(a: seq<T>, b: seq<T>, c: seq<T>)
    ensures (a + b) + c == a + (b + c)
  {
  }

  /** One well-formed record at the front is consumed and emplaced. */
  lemma ParseRecordsStep(id: nat, d: seq<byte>, tail: seq<byte>, acc: FeatureMap)
    requires id < U32 && |d| < U32
    ensures ParseRecords(Record(id, d) + tail, acc) == ParseRecords(tail, Emplace(acc, id, d))
  {
    var s := Record(id, d) + tail;
    ReadLE32At(s, 0, id);
    ReadLE32At(s, 4, |d|);
    assert s[8..8 + |d|] == d;
    assert s[8 + |d|..] == tail;
  }

  /** Moving the first entry of `post` to the end of `pre` keeps both sides ordered. */
  lemma ShiftFirst(pre: FeatureMap, post: FeatureMap)
    requires FeatureMapValid(post) && post != []
    requires forall i, j :: 0 <= i < |pre| && 0 <= j < |post| ==> pre[i].0 < post[j].0
    ensures FeatureMapValid(post[1..])
    ensures forall i, j :: 0 <= i < |pre + [post[0]]| && 0 <= j < |post[1..]| ==>
      (pre + [post[0]])[i].0 < post[1..][j].0
  {
    var pre', post' := pre + [post[0]], post[1..];
    forall i, j | 0 <= i < |pre'| && 0 <= j < |post'|
      ensures pre'[i].0 < post'[j].0
    {
      assert post'[j] == post[j + 1];
      if i == |pre| {
        assert pre'[i] == post[0];
      } else {
        assert pre'[i] == pre[i];
      }
    }
    forall i, j | 0 <= i < j < |post'|
      ensures post'[i].0 < post'[j].0
    {
      assert post'[i] == post[i + 1] && post'[j] == post[j + 1];
    }
  }

  lemma {:induction false} ParseRecordsOfEncode(pre: FeatureMap, post: FeatureMap)
    requires FeatureMapValid(post)
    requires forall i, j :: 0 <= i < |pre| && 0 <= j < |post| ==> pre[i].0 < post[j].0
    ensures ParseRecords(EncodeRecords(post), pre) == Success(pre + post)
    decreases |post|
  {
    if post != [] {
      var id, d := post[0].0, post[0].1;
      assert id < U32 && |d| < U32;
      assert EncodeRecords(post) == Record(id, d) + EncodeRecords(post[1..]);
      ParseRecordsStep(id, d, EncodeRecords(post[1..]), pre);
      assert forall i :: 0 <= i < |pre| ==> pre[i].0 < id;
      EmplaceAbove(pre, id, d);
      var pre' := pre + [(id, d)];
      var post' := post[1..];
      ShiftFirst(pre, post);
      ParseRecordsOfEncode(pre', post');
      assert post == [(id, d)] + post';
      AppendAssoc(pre, [(id, d)], post');
    } else {
      assert pre + post == pre;
    }
  }

  /** What one side encodes, the other reads back: the same map, and the stream after it untouched. */
  lemma NegotiationRoundTrip(fm: FeatureMap, rest: seq<byte>)
    requires FeatureMapValid(fm) && RecordsSize(fm) < U32
    ensures ReceiveNegotiation(EncodeNegotiation(fm) + rest) == Success((fm, rest))
  {
    var input := EncodeNegotiation(fm) + rest;
    var n := RecordsSize(fm);
    assert input[..8] == Magic;
    assert input[8..12] == LE32(n);
    ReadLE32At(input, 8, n);
    assert input[12..12 + n] == EncodeRecords(fm);
    assert input[12 + n..] == rest;
    ParseRecordsOfEncode([], fm);
    assert [] + fm == fm;
  }

  /** A frame that does not start with the magic is refused. */
  lemma NegotiationRejectsMagic(input: seq<byte>)
    requires |input| >= NegotiationHeaderSize && input[..8] != Magic
    ensures ReceiveNegotiation(input) == Failure(Closed)
  {
  }

  /** A stream that ends inside the announced records is refused. */
  lemma NegotiationRejectsTruncated(fm: FeatureMap, cut: nat)
    requires FeatureMapValid(fm) && RecordsSize(fm) < U32
    requires cut < |EncodeNegotiation(fm)|
    ensures ReceiveNegotiation(EncodeNegotiation(fm)[..cut]).Failure?
  {
    var full := EncodeNegotiation(fm);
    var input := full[..cut];
    if cut >= NegotiationHeaderSize {
      assert input[..8] == Magic;
      assert input[8..12] == full[8..12] == LE32(RecordsSize(fm));
      ReadLE32At(input, 8, RecordsSize(fm));
    }
  }

  /** A negotiation frame whose record list ends in a malformed record is refused. */
  lemma NegotiationRejectsMalformed(fm: FeatureMap, tail: seq<byte>, rest: seq<byte>)
    requires FeatureMapValid(fm) && MalformedRecord(tail) && |EncodeRecords(fm) + tail| < U32
    ensures var recs := EncodeRecords(fm) + tail;
      ReceiveNegotiation(Magic + LE32(|recs|) + recs + rest) == Failure(Closed)
  {
    var recs := EncodeRecords(fm) + tail;
    var input := Magic + LE32(|recs|) + recs + rest;
    assert input[..8] == Magic;
    ReadLE32At(input, 8, |recs|);
    assert input[NegotiationHeaderSize..NegotiationHeaderSize + |recs|] == recs;
    MalformedAfterRecords(fm, tail, []);
  }

  /** A record whose length runs past the end of the records is refused. */
  lemma RecordOverrunRejected(id: nat, len: nat, data: seq<byte>, acc: FeatureMap)
    requires id < U32 && len < U32 && |data| < len
    ensures ParseRecords(LE32(id) + LE32(len) + data, acc) == Failure(Closed)
  {
    var s := LE32(id) + LE32(len) + data;
    ReadLE32At(s, 4, len);
  }

  /** Of two records with the same id the first one wins. */
  lemma DuplicateRecordIgnored(id: nat, d1: seq<byte>, d2: seq<byte>)
    requires id < U32 && |d1| < U32 && |d2| < U32
    ensures ParseRecords(Record(id, d1) + Record(id, d2), []) == Success([(id, d1)])
  {
    ParseRecordsStep(id, d1, Record(id, d2), []);
    ParseRecordsStep(id, d2, [], [(id, d1)]);
    assert Record(id, d2) + [] == Record(id, d2);
  }

  // Request and response frames.

  /** A request header as decoded: optional expiry, verb, message id, payload length. */
  datatype Header =
    | RequestHeader(expire: Option<nat>, verb: nat, msgId: int, size: nat)
    | ResponseHeader(msgId: int, size: nat)

  /** The three header layouts: request without and with expiry, response. */
  datatype FrameKind = Request(withTimeout: bool) | Response

  function HeaderSize(k: FrameKind): nat {
    match k
    case Request(t) => if t then 28 else 20
    case Response => 12
  }

  /**
   * Decodes a header. The verb is read as 64 bits and converted to the
   * 32-bit message type; the message id is a signed 64-bit value.
   */
  function DecodeHeader(k: FrameKind, h: seq<byte>): (r: Header)
    requires |h| == HeaderSize(k)
    ensures k.Request? <==> r.RequestHeader?
    ensures r.size < U32
    ensures r.RequestHeader? ==> r.verb < U32 && (r.expire.Some? <==> k.withTimeout)
  {
    match k
    case Request(t) =>
      var off := if t then 8 else 0;
      var expire := if t then Some(ReadLE(h, 0, 8)) else None;
      Pow256Values();
      RequestHeader(expire, ReadLE(h, off, 8) % U32, FromU64(ReadLE(h, off + 8, 8)), ReadLE(h, off + 16, 4))
    case Response =>
      Pow256Values();
      ResponseHeader(FromU64(ReadLE(h, 0, 8)), ReadLE(h, 8, 4))
  }

  datatype Frame = Frame(header: Header, payload: seq<byte>)

  /**
   * Why no frame came out. The reader returns an empty value in every case;
   * only a partial header or body is logged.
   */
  datatype ReadError = EndOfStream | TruncatedHeader | TruncatedBody

  /** `read_frame`: a header, then as many payload bytes as it announces. */
  function ReadFrame(k: FrameKind, input: seq<byte>): (r: Result<(Frame, seq<byte>), ReadError>)
    ensures r.Failure? <==>
      |input| < HeaderSize(k)
      || |input| - HeaderSize(k) < DecodeHeader(k, input[..HeaderSize(k)]).size
    ensures r.Failure? && |input| == 0 ==> r.error == EndOfStream
    ensures r.Success? ==>
      var hs := HeaderSize(k);
      var h := DecodeHeader(k, input[..hs]);
      && r.value.0 == Frame(h, input[hs..hs + h.size])
      && r.value.1 == input[hs + h.size..]
  {
    var hs := HeaderSize(k);
    if |input| < hs then
      if |input| == 0 then Failure(EndOfStream) else Failure(TruncatedHeader)
    else
      var h := DecodeHeader(k, input[..hs]);
      if |input| - hs < h.size then Failure(TruncatedBody)
      else Success((Frame(h, input[hs..hs + h.size]), input[hs + h.size..]))
  }

  /** A compressor, given by its two transformations of whole frames. */
  datatype Codec = Codec(compress: seq<byte> -> seq<byte>, decompress: seq<byte> -> seq<byte>)

  /**
   * `read_frame_compressed`: with a compressor, a 32-bit length, that many
   * compressed bytes, and a frame read from their decompression (anything
   * after that frame is dropped); without one, a plain frame.
   */
  function ReadFrameCompressed(k: FrameKind, compressor: Option<Codec>, input: seq<byte>)
    : (r: Result<(Frame, seq<byte>), ReadError>)
    ensures compressor.None? ==> r == ReadFrame(k, input)
    ensures compressor.Some? && |input| >= 4 && |input| - 4 >= ReadLE(input, 0, 4) ==>
      var n := ReadLE(input, 0, 4);
      var inner := ReadFrame(k, compressor.value.decompress(input[4..4 + n]));
      r == if inner.Success? then Success((inner.value.0, input[4 + n..])) else Failure(inner.error)
    ensures compressor.Some? && (|input| < 4 || |input| - 4 < ReadLE(input, 0, 4)) ==> r.Failure?
  {
    if compressor.None? then ReadFrame(k, input)
    else if |input| < 4 then
      if |input| == 0 then Failure(EndOfStream) else Failure(TruncatedHeader)
    else
      var n := ReadLE(input, 0, 4);
      if |input| - 4 < n then Failure(TruncatedBody)
      else
        var inner := ReadFrame(k, compressor.value.decompress(input[4..4 + n]));
        if inner.Success? then Success((inner.value.0, input[4 + n..])) else Failure(inner.error)
  }

  /** `compress`: the compressed frame behind its 32-bit length. */
  function CompressFrame(compressor: Option<Codec>, frame: seq<byte>): (r: seq<byte>)
    requires compressor.Some? ==> |compressor.value.compress(frame)| < U32
    ensures compressor.None? ==> r == frame
    ensures compressor.Some? ==>
      var c := compressor.value.compress(frame);
      |r| == 4 + |c| && r[..4] == LE32(|c|) && r[4..] == c
  {
    if compressor.None? then frame
    else
      var c := compressor.value.compress(frame);
      LE32(|c|) + c
  }

  /**
   * The request a client queues: eight bytes left for the expiry, the verb
   * widened to 64 bits, the message id, the payload length, the payload.
   * The eight leading bytes are not initialised by the sender; they are
   * zeros here.
   */
  function RequestBody(verb: nat, msgId: int, payload: seq<byte>): (r: seq<byte>)
    requires verb < U32 && I64Min <= msgId <= I64Max && 28 + |payload| < U32
    ensures |r| == 28 + |payload| && r[28..] == payload
  {
    Zeros(8) + LE64(verb) + LE64(ToU64(msgId)) + LE32(|payload|) + payload
  }

  /**
   * The request fix-up of the send loop: when the peer agreed to receive
   * timeouts the first eight bytes carry the milliseconds left (zero for no
   * deadline); otherwise they are cut off.
   */
  function FixupRequest(frame: seq<byte>, timeoutNegotiated: bool, left: nat): (r: seq<byte>)
    requires |frame| >= 8 && left < U64
    ensures timeoutNegotiated ==> r == LE64(left) + frame[8..]
    ensures !timeoutNegotiated ==> r == frame[8..]
  {
    if timeoutNegotiated then WriteAt(frame, 0, LE64(left)) else frame[8..]
  }

  /** Everything the client puts on the wire for one request. */
  function RequestWire(compressor: Option<Codec>, timeoutNegotiated: bool, left: nat,
                       verb: nat, msgId: int, payload: seq<byte>): seq<byte>
    requires verb < U32 && I64Min <= msgId <= I64Max && 28 + |payload| < U32 && left < U64
    requires compressor.Some? ==>
      |compressor.value.compress(FixupRequest(RequestBody(verb, msgId, payload), timeoutNegotiated, left))| < U32
  {
    CompressFrame(compressor, FixupRequest(RequestBody(verb, msgId, payload), timeoutNegotiated, left))
  }

  /**
   * A request goes through unchanged: the server, reading with the layout
   * the negotiation chose, gets the verb, the message id, the payload, and
   * the milliseconds left exactly when timeouts were negotiated.
   */
  lemma {:induction false} RequestRoundTrip(compressor: Option<Codec>, timeoutNegotiated: bool, left: nat,
                                           verb: nat, msgId: int, payload: seq<byte>, rest: seq<byte>)
    requires verb < U32 && I64Min <= msgId <= I64Max && 28 + |payload| < U32 && left < U64
    requires var f := FixupRequest(RequestBody(verb, msgId, payload), timeoutNegotiated, left);
      compressor.Some? ==> |compressor.value.compress(f)| < U32 && compressor.value.decompress(compressor.value.compress(f)) == f
    ensures var expire := if timeoutNegotiated then Some(left) else None;
      ReadFrameCompressed(Request(timeoutNegotiated), compressor,
        RequestWire(compressor, timeoutNegotiated, left, verb, msgId, payload) + rest)
      == Success((Frame(RequestHeader(expire, verb, msgId, |payload|), payload), rest))
  {
    var body := RequestBody(verb, msgId, payload);
    var f := FixupRequest(body, timeoutNegotiated, left);
    RequestHeaderRoundTrip(timeoutNegotiated, left, verb, msgId, payload, rest);
    if compressor.Some? {
      var c := compressor.value.compress(f);
      var input := LE32(|c|) + c + rest;
      assert input == RequestWire(compressor, timeoutNegotiated, left, verb, msgId, payload) + rest;
      ReadLE32At(input, 0, |c|);
      assert input[4..4 + |c|] == c;
      assert input[4 + |c|..] == rest;
      RequestHeaderRoundTrip(timeoutNegotiated, left, verb, msgId, payload, []);
      assert f + [] == f;
    }
  }

  lemma {:induction false} RequestHeaderRoundTrip(timeoutNegotiated: bool, left: nat,
                                                 verb: nat, msgId: int, payload: seq<byte>, rest: seq<byte>)
    requires verb < U32 && I64Min <= msgId <= I64Max && 28 + |payload| < U32 && left < U64
    ensures var expire := if timeoutNegotiated then Some(left) else None;
      ReadFrame(Request(timeoutNegotiated), FixupRequest(RequestBody(verb, msgId, payload), timeoutNegotiated, left) + rest)
      == Success((Frame(RequestHeader(expire, verb, msgId, |payload|), payload), rest))
  {
    var body := RequestBody(verb, msgId, payload);
    var input := FixupRequest(body, timeoutNegotiated, left) + rest;
    var off := if timeoutNegotiated then 8 else 0;
    var hs := HeaderSize(Request(timeoutNegotiated));
    assert hs == off + 20;
    var fields := LE64(verb) + LE64(ToU64(msgId)) + LE32(|payload|);
    assert body[8..] == fields + payload;
    assert input[off..] == fields + (payload + rest);
    var h := input[..hs];
    assert h[off..] == fields by {
      assert h[off..] == input[off..][..20];
    }
    RequestFieldsAt(h, off, verb, ToU64(msgId), |payload|);
    SignedRoundTrip(msgId);
    if timeoutNegotiated {
      assert h[0..8] == LE64(left);
      ReadLE64At(h, 0, left);
    }
    assert input[hs..] == payload + rest by {
      assert input[hs..] == input[off..][20..];
    }
    assert input[hs..hs + |payload|] == payload;
    DecodeRequestHeader(timeoutNegotiated, h, left, verb, msgId, |payload|);
  }

  lemma DecodeRequestHeader(t: bool, h: seq<byte>, left: nat, verb: nat, msgId: int, size: nat)
    requires |h| == HeaderSize(Request(t)) && verb < U32 && I64Min <= msgId <= I64Max
    requires var off := if t then 8 else 0;
      && ReadLE(h, off, 8) == verb && FromU64(ReadLE(h, off + 8, 8)) == msgId && ReadLE(h, off + 16, 4) == size
      && (t ==> ReadLE(h, 0, 8) == left)
    ensures DecodeHeader(Request(t), h) == RequestHeader(if t then Some(left) else None, verb, msgId, size)
  {
  }

  /** The three fields of a request header, read back from where they were written. */
  lemma RequestFieldsAt(h: seq<byte>, off: nat, verb: nat, id: nat, size: nat)
    requires verb < U64 && id < U64 && size < U32
    requires |h| == off + 20 && h[off..] == LE64(verb) + LE64(id) + LE32(size)
    ensures ReadLE(h, off, 8) == verb && ReadLE(h, off + 8, 8) == id && ReadLE(h, off + 16, 4) == size
  {
    var a, b, c := LE64(verb), LE64(id), LE32(size);
    FieldOfSuffix(h, off, 0, a + b + c, a, b + c);
    FieldOfSuffix(h, off, 8, a + b + c, b, c);
    FieldOfSuffix(h, off, 16, a + b + c, c, []);
    ReadLE64At(h, off, verb);
    ReadLE64At(h, off + 8, id);
    ReadLE32At(h, off + 16, size);
  }

  /** A field laid at position `at` of a suffix starting at `off` sits at `off + at` of the whole. */
  lemma FieldOfSuffix(h: seq<byte>, off: nat, at: nat, t: seq<byte>, field: seq<byte>, after: seq<byte>)
    requires off <= |h| && h[off..] == t && at + |field| + |after| == |t| && t[at..] == field + after
    ensures h[off + at..off + at + |field|] == field
  {
    forall k | 0 <= k < |field|
      ensures h[off + at + k] == field[k]
    {
      assert h[off + at + k] == t[at + k] == t[at..][k];
    }
  }

  /** `respond`: the signed message id and the payload length in front of the payload. */
  function ResponseBody(msgId: int, payload: seq<byte>): (r: seq<byte>)
    requires I64Min <= msgId <= I64Max && 12 + |payload| < U32
    ensures |r| == 12 + |payload| && r[12..] == payload
  {
    LE64(ToU64(msgId)) + LE32(|payload|) + payload
  }

  /** What the server sends for a response. */
  function ResponseWire(compressor: Option<Codec>, msgId: int, payload: seq<byte>): seq<byte>
    requires I64Min <= msgId <= I64Max && 12 + |payload| < U32
    requires compressor.Some? ==> |compressor.value.compress(ResponseBody(msgId, payload))| < U32
  {
    CompressFrame(compressor, ResponseBody(msgId, payload))
  }

  /** A response goes through unchanged, its (possibly negative) message id included. */
  lemma {:induction false} ResponseRoundTrip(compressor: Option<Codec>, msgId: int, payload: seq<byte>, rest: seq<byte>)
    requires I64Min <= msgId <= I64Max && 12 + |payload| < U32
    requires var f := ResponseBody(msgId, payload);
      compressor.Some? ==> |compressor.value.compress(f)| < U32 && compressor.value.decompress(compressor.value.compress(f)) == f
    ensures ReadFrameCompressed(Response, compressor, ResponseWire(compressor, msgId, payload) + rest)
      == Success((Frame(ResponseHeader(msgId, |payload|), payload), rest))
  {
    ResponseHeaderRoundTrip(msgId, payload, rest);
    if compressor.Some? {
      var f := ResponseBody(msgId, payload);
      var c := compressor.value.compress(f);
      var input := LE32(|c|) + c + rest;
      assert input == ResponseWire(compressor, msgId, payload) + rest;
      ReadLE32At(input, 0, |c|);
      assert input[4..4 + |c|] == c;
      assert input[4 + |c|..] == rest;
      ResponseHeaderRoundTrip(msgId, payload, []);
      assert f + [] == f;
    }
  }

  lemma ResponseHeaderRoundTrip(msgId: int, payload: seq<byte>, rest: seq<byte>)
    requires I64Min <= msgId <= I64Max && 12 + |payload| < U32
    ensures ReadFrame(Response, ResponseBody(msgId, payload) + rest)
      == Success((Frame(ResponseHeader(msgId, |payload|), payload), rest))
  {
    var a, b := LE64(ToU64(msgId)), LE32(|payload|);
    var input := ResponseBody(msgId, payload) + rest;
    assert input == (a + b) + (payload + rest);
    var h := input[..12];
    assert h == a + b;
    assert h[0..8] == a && h[8..12] == b;
    ReadLE64At(h, 0, ToU64(msgId));
    SignedRoundTrip(msgId);
    ReadLE32At(h, 8, |payload|);
    assert input[12..12 + |payload|] == payload;
    assert input[12 + |payload|..] == rest;
  }

  // Exception payloads of error replies.

  /** The message of a C++ exception as `strlen` sees it: up to the first NUL. */
  function CStr(what: seq<byte>): (s: seq<byte>)
    ensures s <= what
    ensures forall k :: 0 <= k < |s| ==> s[k] != 0
    ensures |s| < |what| ==> what[|s|] == 0
  {
    if what == [] || what[0] == 0 then [] else [what[0]] + CStr(what[1..])
  }

  /** The payload of a reply for a handler that threw: type USER, length, message. */
  function UserExceptionPayload(what: seq<byte>): (r: seq<byte>)
    requires |CStr(what)| + 20 < U32
    ensures |r| == 8 + |CStr(what)|
  {
    var s := CStr(what);
    LE32(ExceptionUser) + LE32(|s|) + s
  }

  /** The payload of a reply for a verb with no handler: type UNKNOWN_VERB, length 8, the verb. */
  function UnknownVerbPayload(verb: nat): (r: seq<byte>)
    requires verb < U32
    ensures |r| == 16
  {
    LE32(ExceptionUnknownVerb) + LE32(8) + LE64(verb)
  }

  /** Reading past the end of an exception payload. */
  datatype DecodeError = Underflow

  /**
   * `unmarshal_exception`: type and length, then the message for USER, a
   * 64-bit verb for UNKNOWN_VERB (whatever the length says), and an
   * unknown exception for any other type. Reading past the end of the
   * payload is the underflow the deserializer stream reports.
   */
  function UnmarshalException(d: seq<byte>): (r: Result<RpcError, DecodeError>)
    ensures |d| < 8 ==> r == Failure(Underflow)
    ensures |d| >= 8 && ReadLE(d, 0, 4) == ExceptionUser ==> (r.Success? <==> ReadLE(d, 4, 4) <= |d| - 8)
    ensures |d| >= 8 && ReadLE(d, 0, 4) == ExceptionUnknownVerb ==> (r.Success? <==> |d| >= 16)
    ensures r.Failure? ==> r.error == Underflow
    ensures r.Success? && ReadLE(d, 0, 4) == ExceptionUser ==>
      8 + ReadLE(d, 4, 4) <= |d| && r.value == User(d[8..8 + ReadLE(d, 4, 4)])
    ensures r.Success? && ReadLE(d, 0, 4) == ExceptionUnknownVerb ==>
      |d| >= 16 && r.value == UnknownVerb(ReadLE(d, 8, 8))
    ensures |d| >= 8 && ReadLE(d, 0, 4) != ExceptionUser && ReadLE(d, 0, 4) != ExceptionUnknownVerb ==>
      r == Success(UnknownException)
  {
    if |d| < 8 then Failure(Underflow)
    else
      var t := ReadLE(d, 0, 4);
      var len := ReadLE(d, 4, 4);
      if t == ExceptionUser then
        if |d| - 8 < len then Failure(Underflow) else Success(User(d[8..8 + len]))
      else if t == ExceptionUnknownVerb then
        if |d| < 16 then Failure(Underflow) else Success(UnknownVerb(ReadLE(d, 8, 8)))
      else Success(UnknownException)
  }

  /** A user exception arrives with its message cut at the first NUL. */
  lemma UserExceptionRoundTrip(what: seq<byte>)
    requires |CStr(what)| + 20 < U32
    ensures UnmarshalException(UserExceptionPayload(what)) == Success(User(CStr(what)))
  {
    var s := CStr(what);
    var p := UserExceptionPayload(what);
    TwoWordsAt(ExceptionUser, |s|, s);
    assert p == LE32(ExceptionUser) + LE32(|s|) + s;
    assert |p| == 8 + |s| && ReadLE(p, 0, 4) == ExceptionUser && ReadLE(p, 4, 4) == |s|;
    assert p[8..8 + |s|] == s;
  }

  /** An unknown-verb exception arrives with the verb the server did not know. */
  lemma UnknownVerbRoundTrip(verb: nat)
    requires verb < U32
    ensures UnmarshalException(UnknownVerbPayload(verb)) == Success(UnknownVerb(verb))
  {
    var p := UnknownVerbPayload(verb);
    TwoWordsAt(ExceptionUnknownVerb, 8, LE64(verb));
    assert p[8..16] == p[8..];
    ReadLE64At(p, 8, verb);
  }

  /** Two 32-bit words in front of `rest` read back as themselves. */
  lemma TwoWordsAt(t: nat, n: nat, rest: seq<byte>)
    requires t < U32 && n < U32
    ensures var p := LE32(t) + LE32(n) + rest;
      |p| == 8 + |rest| && ReadLE(p, 0, 4) == t && ReadLE(p, 4, 4) == n && p[8..] == rest
  {
    var a, b := LE32(t), LE32(n);
    var p := a + b + rest;
    assert p[0..4] == a && p[4..8] == b && p[8..] == rest;
    ReadLE32At(p, 0, t);
    ReadLE32At(p, 4, n);
  }
}
