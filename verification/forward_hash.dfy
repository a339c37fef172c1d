/**
 * `net::forward_hash`: a fixed 64-byte, append-only accumulator of packet
 * header bytes that a protocol's forward predicate fills and the device turns
 * into a destination shard. Exceeding the capacity trips an `assert`, a fatal
 * error, modelled as a `Failure`.
 */
module ForwardHash {
  import opened Bytes
  import opened Wrappers

  /** The size of the `data` array. */
  const Capacity: nat := 64

  /** The bytes pushed so far; `end_idx` is their count. */
  datatype ForwardHash = ForwardHash(data: seq<byte>)

  /** The fatal assertion of `push_back` when all 64 bytes are already used. */
  datatype Fatal = CapacityExceeded

  predicate Valid(h: ForwardHash) {
    |h.data| <= Capacity
  }

  /** A freshly constructed accumulator (`end_idx = 0`). */
  function Empty(): (h: ForwardHash)
    ensures Valid(h) && Size(h) == 0
  {
    ForwardHash([])
  }

  function Size(h: ForwardHash): nat {
    |h.data|
  }

  /** `operator[]`: the byte at position idx. */
  function At(h: ForwardHash, idx: nat): byte
    requires idx < Size(h)
  {
    h.data[idx]
  }

  /** `push_back(uint8_t)`: append one byte, or fail when the array is full. */
  function PushByte(h: ForwardHash, b: byte): (r: Result<ForwardHash, Fatal>)
    requires Valid(h)
    ensures r.Success? <==> Size(h) < Capacity
    ensures r.Success? ==> Valid(r.value) && Size(r.value) == Size(h) + 1
    ensures r.Success? ==> At(r.value, Size(h)) == b
    ensures r.Success? ==> forall i :: 0 <= i < Size(h) ==> At(r.value, i) == At(h, i)
  {
    if |h.data| < Capacity then Success(ForwardHash(h.data + [b])) else Failure(CapacityExceeded)
  }

  /** `push_back(uint16_t)`: the low byte, then the high byte. */
  function Push16(h: ForwardHash, v: nat): (r: Result<ForwardHash, Fatal>)
    requires Valid(h) && v < U16
    ensures r.Success? <==> Size(h) + 2 <= Capacity
    ensures r.Success? ==> Valid(r.value) && r.value.data == h.data + LE(v, 2)
  {
    var h1 :- PushByte(h, (v % 256) as byte);
    var h2 :- PushByte(h1, (v / 256 % 256) as byte);
    assert LE(v, 2) == [(v % 256) as byte, (v / 256 % 256) as byte] by {
      DivBound(v, 2);
      DivBound(v / 256, 1);
    }
    Success(h2)
  }

  /** The four bytes of a 32-bit value are the two bytes of each 16-bit half. */
  lemma Halves(v: nat)
    requires v < U32
    ensures v % U16 < U16 && v / U16 % U16 < U16
    ensures LE(v, 4) == LE(v % U16, 2) + LE(v / U16 % U16, 2)
  {
    Pow256Values();
    assert v == v % U16 + U16 * (v / U16);
    assert v / U16 < U16;
    assert v / U16 % U16 == v / U16;
    LEConcat(v % U16, v / U16, 2, 2);
  }

  /** `push_back(uint32_t)`: the low 16 bits, then the high 16 bits. */
  function Push32(h: ForwardHash, v: nat): (r: Result<ForwardHash, Fatal>)
    requires Valid(h) && v < U32
    ensures r.Success? <==> Size(h) + 4 <= Capacity
    ensures r.Success? ==> Valid(r.value) && r.value.data == h.data + LE(v, 4)
  {
    Halves(v);
    var h1 :- Push16(h, v % U16);
    var h2 :- Push16(h1, v / U16 % U16);
    assert h2.data == h.data + LE(v, 4) by {
      assert h2.data == h.data + LE(v % U16, 2) + LE(v / U16 % U16, 2);
    }
    Success(h2)
  }

  /** Reading back a pushed 32-bit value from its position gives the value (little-endian). */
  lemma Push32ReadBack(h: ForwardHash, v: nat)
    requires Valid(h) && v < U32 && Size(h) + 4 <= Capacity
    ensures Push32(h, v).Success?
    ensures var h' := Push32(h, v).value;
      Size(h') == Size(h) + 4 &&
      FromLE(h'.data[Size(h)..]) == v &&
      h'.data[..Size(h)] == h.data
  {
    var h' := Push32(h, v).value;
    assert h'.data[Size(h)..] == LE(v, 4);
    Pow256Values();
    FromLEOfLE(v, 4);
  }

  /** A push onto a full hash fails with the capacity error. */
  lemma FullIsFatal(h: ForwardHash, b: byte)
    requires Valid(h) && Size(h) == Capacity
    ensures PushByte(h, b) == Failure(CapacityExceeded)
  {
  }
}
