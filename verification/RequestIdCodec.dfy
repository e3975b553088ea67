/** The 24-byte header that ties a service response to its request: the 16-byte
    writer guid of the client followed by the request's sequence number, a
    little-endian 64-bit integer. */
module RequestIdCodec {
  import opened Common
  import opened Bytes

  const GUID_LEN: nat := 16
  const HEADER_LEN: nat := 24
  const TWO_63: nat := 0x8000_0000_0000_0000
  const TWO_64: nat := 0x1_0000_0000_0000_0000

  datatype RequestId = RequestId(guid: seq<Byte>, sequence: int)

  predicate IsI64(v: int) { 0 - TWO_63 <= v < TWO_63 }

  /** A value of the C struct `rmw_request_id_t`. */
  predicate Representable(id: RequestId) {
    |id.guid| == GUID_LEN && IsI64(id.sequence)
  }

  predicate NonZero(guid: seq<Byte>) {
    exists i :: 0 <= i < |guid| && guid[i] != 0
  }

  /** What both ends demand of a header: a nonzero guid and a positive sequence number. */
  predicate Acceptable(id: RequestId) {
    Representable(id) && id.sequence > 0 && NonZero(id.guid)
  }

  /** The casts between `int64_t` and `uint64_t` (two's complement). */
  function ToU64(v: int): nat
    requires IsI64(v)
  {
    if v < 0 then v + TWO_64 else v
  }

  function ToI64(u: nat): int
    requires u < TWO_64
  {
    if u < TWO_63 then u else u - TWO_64
  }

  lemma Pow256Of8()
    ensures Pow256(8) == TWO_64
  {
    assert Pow256(4) == 0x1_0000_0000;
  }

  function Encode(id: RequestId): (s: seq<Byte>)
    requires Representable(id)
    ensures |s| == HEADER_LEN
  {
    id.guid + LeBytes(ToU64(id.sequence), 8)
  }

  function DecodeSequence(s: seq<Byte>): int
    requires |s| == 8
  {
    LeValueBound(s); Pow256Of8();
    ToI64(LeValue(s))
  }

  function Decode(data: seq<Byte>): Option<RequestId> {
    if |data| < HEADER_LEN then None else
      var id := RequestId(data[..GUID_LEN], DecodeSequence(data[GUID_LEN..HEADER_LEN]));
      if id.sequence <= 0 || !NonZero(id.guid) then None else Some(id)
  }

  lemma SequenceRoundTrip(v: int)
    requires IsI64(v)
    ensures DecodeSequence(LeBytes(ToU64(v), 8)) == v
  {
    Pow256Of8();
    LeValueOfBytes(ToU64(v), 8);
  }

  /** The codec is exact: a message decodes to `id` if and only if `id` is acceptable
      and the message starts with the encoding of `id`. */
  lemma DecodeIffEncoded(data: seq<Byte>, id: RequestId)
    ensures Decode(data) == Some(id) <==>
            Acceptable(id) && |data| >= HEADER_LEN && data[..HEADER_LEN] == Encode(id)
  {
    if Decode(data) == Some(id) {
      var tail := data[GUID_LEN..HEADER_LEN];
      LeValueBound(tail); Pow256Of8();
      LeBytesOfValue(tail);
      assert ToU64(id.sequence) == LeValue(tail);
      assert data[..HEADER_LEN] == data[..GUID_LEN] + tail;
    }
    if Acceptable(id) && |data| >= HEADER_LEN && data[..HEADER_LEN] == Encode(id) {
      SequenceRoundTrip(id.sequence);
      assert data[..GUID_LEN] == data[..HEADER_LEN][..GUID_LEN] == id.guid;
      assert data[GUID_LEN..HEADER_LEN] == data[..HEADER_LEN][GUID_LEN..] == LeBytes(ToU64(id.sequence), 8);
    }
  }

  /** A stamped message gives back its stamp, whatever follows the header. */
  lemma DecodeStamped(id: RequestId, payload: seq<Byte>)
    requires Acceptable(id)
    ensures Decode(Encode(id) + payload) == Some(id)
  {
    assert (Encode(id) + payload)[..HEADER_LEN] == Encode(id);
    DecodeIffEncoded(Encode(id) + payload, id);
  }

  // The C functions, which work on byte buffers in place.

  method EncodeI64Le(value: int, out: array<Byte>, at: nat)
    requires IsI64(value) && at + 8 <= out.Length
    modifies out
    ensures out[at..at + 8] == LeBytes(ToU64(value), 8)
    ensures forall k :: 0 <= k < out.Length && !(at <= k < at + 8) ==> out[k] == old(out[k])
  {
    var uvalue := ToU64(value);
    for i := 0 to 8
      invariant forall k :: 0 <= k < i ==> out[at + k] == LeBytes(uvalue, 8)[k]
      invariant forall k :: 0 <= k < out.Length && !(at <= k < at + i) ==> out[k] == old(out[k])
    {
      LeByteIsShift(uvalue, 8, i);
      out[at + i] := (uvalue / Pow256(i)) % 256;
    }
  }

  /** `value |= in[i] << 8i` adds, because the bits already set all lie below bit 8i. */
  method DecodeI64Le(data: array<Byte>, at: nat) returns (v: int)
    requires at + 8 <= data.Length
    ensures v == DecodeSequence(data[at..at + 8])
  {
    var value: nat := 0;
    for i := 0 to 8
      invariant value == LeValue(data[at..at + i])
    {
      LeValueSnoc(data[at..at + i], data[at + i]);
      assert data[at..at + i + 1] == data[at..at + i] + [data[at + i]];
      value := value + data[at + i] * Pow256(i);
    }
    LeValueBound(data[at..at + 8]); Pow256Of8();
    v := ToI64(value);
  }

  method EncodeRequestId(id: RequestId, out: array<Byte>)
    requires Representable(id) && HEADER_LEN <= out.Length
    modifies out
    ensures out[..HEADER_LEN] == Encode(id)
    ensures out[HEADER_LEN..] == old(out[HEADER_LEN..])
  {
    for i := 0 to GUID_LEN
      invariant forall k :: 0 <= k < i ==> out[k] == id.guid[k]
      invariant forall k :: i <= k < out.Length ==> out[k] == old(out[k])
    {
      out[i] := id.guid[i];
    }
    EncodeI64Le(id.sequence, out, GUID_LEN);
    assert out[..HEADER_LEN] == out[..GUID_LEN] + out[GUID_LEN..HEADER_LEN];
    assert out[..GUID_LEN] == id.guid;
  }

  method DecodeRequestId(data: array<Byte>, len: nat) returns (r: Option<RequestId>)
    requires len <= data.Length
    ensures r == Decode(data[..len])
  {
    if len < HEADER_LEN {
      return None;
    }
    var sequence := DecodeI64Le(data, GUID_LEN);
    assert data[..len][GUID_LEN..HEADER_LEN] == data[GUID_LEN..GUID_LEN + 8];
    assert data[..len][..GUID_LEN] == data[..GUID_LEN];
    if sequence <= 0 {
      return None;
    }
    var guidNonzero := false;
    var idx := 0;
    while idx < GUID_LEN
      invariant 0 <= idx <= GUID_LEN
      invariant !guidNonzero && forall k :: 0 <= k < idx ==> data[k] == 0
    {
      if data[idx] != 0 {
        assert data[..GUID_LEN][idx] != 0;
        guidNonzero := true;
        break;
      }
      idx := idx + 1;
    }
    if !guidNonzero {
      return None;
    }
    return Some(RequestId(data[..GUID_LEN], sequence));
  }

  /** What the last eight bytes of a header say as an unsigned number: the sequence itself, and
      2^64 more than a negative one. */
  lemma HeaderNumber(id: RequestId)
    requires Representable(id)
    ensures Encode(id)[..GUID_LEN] == id.guid
    ensures LeValue(Encode(id)[GUID_LEN..]) == if id.sequence >= 0 then id.sequence else id.sequence + TWO_64
  {
    Pow256Of8();
    LeValueOfBytes(ToU64(id.sequence), 8);
    assert Encode(id)[GUID_LEN..] == LeBytes(ToU64(id.sequence), 8);
  }
}
