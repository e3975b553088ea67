/** The four calls behind the protocol steps, as they work on buffers and readers:
    stamping and publishing a request or response, and taking one back. */
module ServiceEndpoints {
  import opened Common
  import opened Bytes
  import opened RequestIdCodec
  import opened SampleTake
  import opened ServiceProtocol

  const PAYLOAD_CAPACITY: nat := 1024
  const CAPACITY: nat := HEADER_LEN + PAYLOAD_CAPACITY

  /** `hdds_rmw_serialize_ros_message`; `encoded` is None when the message cannot be
      serialized. A payload that does not fit is not written, but its length is reported. */
  method Serialize(encoded: Option<Message>, buffer: array<Byte>, at: nat, capacity: nat)
    returns (status: Status, len: nat)
    requires at + capacity <= buffer.Length
    modifies buffer
    ensures encoded.None? ==> status == OperationFailed
    ensures encoded.Some? ==> len == |encoded.value| && status == if len <= capacity then HddsOk else OutOfMemory
    ensures status == HddsOk ==> buffer[at..at + len] == encoded.value
  {
    if encoded.None? {
      return OperationFailed, 0;
    }
    len := |encoded.value|;
    if len > capacity {
      return OutOfMemory, len;
    }
    for i := 0 to len
      invariant buffer[at..at + i] == encoded.value[..i]
    {
      buffer[at + i] := encoded.value[i];
      assert buffer[at..at + i + 1] == buffer[at..at + i] + [encoded.value[i]];
    }
    return HddsOk, len;
  }

  /** How stamping ends. */
  function StampStatus(encoded: Option<Message>, allocOk: bool, growOk: bool): Ret {
    if !allocOk then BadAlloc
    else if encoded.None? then Error
    else if |encoded.value| > PAYLOAD_CAPACITY && !growOk then BadAlloc
    else Ok
  }

  /** How sending ends, once the header is acceptable. */
  function SendStatus(encoded: Option<Message>, allocOk: bool, growOk: bool, writeOk: bool): Ret {
    var r := StampStatus(encoded, allocOk, growOk);
    if r == Ok && !writeOk then Error else r
  }

  /** Stamping succeeds exactly when there is memory, also for a longer payload, and the message
      can be serialized; it reports which of the two was missing first. */
  lemma StampOkIff(encoded: Option<Message>, allocOk: bool, growOk: bool)
    ensures StampStatus(encoded, allocOk, growOk) == Ok <==>
            allocOk && encoded.Some? && (growOk || |encoded.value| <= PAYLOAD_CAPACITY)
    ensures StampStatus(encoded, allocOk, growOk) == Error <==> allocOk && encoded.None?
    ensures StampStatus(encoded, allocOk, growOk) in {Ok, Error, BadAlloc}
  {
  }

  /** The buffer loop of `rmw_send_request` and `rmw_send_response`: the payload is
      serialized behind the room left for the header, growing the buffer once if needed,
      and the header is written last. Returns what is handed to the writer. */
  method StampMessage(id: RequestId, encoded: Option<Message>, allocOk: bool, growOk: bool)
    returns (r: Ret, out: Option<Message>)
    requires Representable(id)
    ensures r == StampStatus(encoded, allocOk, growOk)
    ensures out == if r == Ok then Some(Encode(id) + encoded.value) else None
  {
    if !allocOk {
      return BadAlloc, None;
    }
    var payloadCapacity := PAYLOAD_CAPACITY;
    var buffer := new Byte[HEADER_LEN + payloadCapacity](_ => 0);
    var status, len := Serialize(encoded, buffer, HEADER_LEN, payloadCapacity);
    while status != HddsOk
      invariant fresh(buffer) && buffer.Length == HEADER_LEN + payloadCapacity
      invariant encoded.None? ==> status == OperationFailed
      invariant encoded.Some? ==>
                  len == |encoded.value| && status == if len <= payloadCapacity then HddsOk else OutOfMemory
      invariant status == HddsOk ==> buffer[HEADER_LEN..HEADER_LEN + len] == encoded.value
      invariant payloadCapacity == PAYLOAD_CAPACITY || (encoded.Some? && |encoded.value| > PAYLOAD_CAPACITY && growOk)
      decreases if status == OutOfMemory then 1 else 0
    {
      if status != OutOfMemory {
        return Error, None;
      }
      if !growOk {
        return BadAlloc, None;
      }
      payloadCapacity := len;
      buffer := new Byte[HEADER_LEN + payloadCapacity](_ => 0);
      status, len := Serialize(encoded, buffer, HEADER_LEN, payloadCapacity);
    }
    ghost var body := buffer[HEADER_LEN..HEADER_LEN + len];
    ghost var tail := buffer[HEADER_LEN..];
    EncodeRequestId(id, buffer);
    assert body == tail[..len];
    assert buffer[HEADER_LEN..HEADER_LEN + len] == buffer[HEADER_LEN..][..len];
    assert buffer[..HEADER_LEN + len] == buffer[..HEADER_LEN] + buffer[HEADER_LEN..HEADER_LEN + len];
    return Ok, Some(buffer[..HEADER_LEN + len]);
  }

  /** The part of `rmw_hdds_client_impl_t` that sending changes. */
  class ClientImpl {
    const guid: seq<Byte>
    var nextSequence: nat

    constructor (guid: seq<Byte>)
      ensures this.guid == guid && nextSequence == 1
    {
      this.guid := guid;
      nextSequence := 1;
    }

    /** `rmw_send_request`: the sequence number is spent even when sending fails. */
    method SendRequest(encoded: Option<Message>, allocOk: bool, growOk: bool, writeOk: bool)
      returns (r: Ret, sequenceId: nat, written: Option<Message>)
      requires |guid| == GUID_LEN && nextSequence < INT64_MAX
      modifies this
      ensures (sequenceId, nextSequence) == Stamp(old(nextSequence))
      ensures sequenceId == (if old(nextSequence) == 0 then 1 else old(nextSequence)) && nextSequence == sequenceId + 1
      ensures r == SendStatus(encoded, allocOk, growOk, writeOk)
      ensures r == Ok <==>
              allocOk && encoded.Some? && (growOk || |encoded.value| <= PAYLOAD_CAPACITY) && writeOk
      ensures written == if r == Ok then Some(Encode(RequestId(guid, sequenceId)) + encoded.value) else None
    {
      sequenceId := nextSequence;
      nextSequence := nextSequence + 1;
      if sequenceId == 0 {
        sequenceId := nextSequence;
        nextSequence := nextSequence + 1;
      }
      r, written := StampMessage(RequestId(guid, sequenceId), encoded, allocOk, growOk);
      if r == Ok && !writeOk {
        r, written := Error, None;
      }
    }
  }

  /** `rmw_take_request` and `rmw_take_response` down to the header they return. Both take
      the same samples in the same way; `decodes` is the outcome of deserialization. */
  method TakeHeader(reader: Reader, o: Oracle, decodes: bool) returns (r: Ret, id: Option<RequestId>)
    modifies reader
    ensures r == Ok || id.None?
    ensures !((r == BadAlloc || r == Error) && Interrupted(o, old(reader.queue), reader.queue, CAPACITY)) ==>
              match DeliverIndex(old(reader.queue), CAPACITY)
              case None => r == Ok && id == None && reader.queue == []
              case Some(k) =>
                && reader.queue == old(reader.queue)[k + 1..]
                && id == (if decodes then Decode(old(reader.queue)[k]) else None)
                && r == if id.Some? then Ok else Error
  {
    var taken := TakeGrowing(reader, CAPACITY, o);
    match taken {
      case Empty => return Ok, None;
      case NoMemory => return BadAlloc, None;
      case Failed => return Error, None;
      case Taken(data) =>
        var buffer := new Byte[|data|](i requires 0 <= i < |data| => data[i]);
        assert buffer[..|data|] == data;
        var header := DecodeRequestId(buffer, |data|);
        if header.None? || !decodes {
          return Error, None;
        }
        return Ok, header;
    }
  }

  /** `rmw_send_response` refuses a header that no request can have carried. */
  method SendResponse(id: RequestId, encoded: Option<Message>, allocOk: bool, growOk: bool, writeOk: bool)
    returns (r: Ret, written: Option<Message>)
    requires Representable(id)
    ensures r == if Acceptable(id) then SendStatus(encoded, allocOk, growOk, writeOk) else InvalidArgument
    ensures r == InvalidArgument <==> id.sequence <= 0 || forall k :: 0 <= k < GUID_LEN ==> id.guid[k] == 0
    ensures r == Ok <==> r != InvalidArgument && allocOk && encoded.Some? && writeOk
                         && (growOk || |encoded.value| <= PAYLOAD_CAPACITY)
    ensures written == if r == Ok then Some(Encode(id) + encoded.value) else None
    ensures r == Ok ==> Decode(written.value) == Some(id)
  {
    if id.sequence <= 0 {
      return InvalidArgument, None;
    }
    var idx := 0;
    while idx < GUID_LEN && id.guid[idx] == 0
      invariant 0 <= idx <= GUID_LEN
      invariant forall k :: 0 <= k < idx ==> id.guid[k] == 0
    {
      idx := idx + 1;
    }
    if idx == GUID_LEN {
      return InvalidArgument, None;
    }
    r, written := StampMessage(id, encoded, allocOk, growOk);
    if r == Ok {
      DecodeStamped(id, encoded.value);
      if !writeOk {
        r, written := Error, None;
      }
    }
  }

  /** The guid bytes a new client stores: counter and address, both copied as they lie in
      memory on a little-endian machine. */
  lemma StoredGuid(counter: nat, address: nat)
    requires counter <= UINT64_MAX
    ensures IsWriterGuid(LeBytes(counter, 8) + LeBytes(address, 8), counter)
  {
    Pow256Of8();
    LeValueOfBytes(counter, 8);
    assert (LeBytes(counter, 8) + LeBytes(address, 8))[..8] == LeBytes(counter, 8);
  }
}
