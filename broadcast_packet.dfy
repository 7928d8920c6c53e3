// The broadcast packet frame: a version byte 1, a big-endian 32-bit total
// size (header included) and the concatenated parts.
module BroadcastPacket {
  import opened Wrappers
  import opened Bytes
  import opened Streams

  const ErrPayloadNotEnough: string := "Payload Not Enough"

  /** Length of the version byte plus the size field. */
  const HeadLen: nat := 5

  /** ParsePacket's three results: the packet (nil as None), the declared size, the error. */
  datatype Parsed = Parsed(packet: Option<bytes>, size: int, err: Option<string>)

  /** MarshalPacket: the head [1, size] with size = 5 + total part length, truncated to uint32. */
  function MarshalPacket(parts: seq<bytes>): (payload: bytes)
    ensures |payload| == HeadLen + |Flatten(parts)|
    ensures payload[0] == 1 && payload[HeadLen..] == Flatten(parts)
    ensures ReadBE32(payload[1..]) == Wrap(HeadLen + |Flatten(parts)|, U32)
  {
    var size := Wrap(HeadLen + |Flatten(parts)|, U32);
    BE32RoundTrip(size, Flatten(parts));
    [1] + BE32(size) + Flatten(parts)
  }

  /**
   * ParsePacket as written. The size field can always be read once more
   * than five bytes are present, so parseSize's short-read branch and
   * binary.Read's error never fire; the slice payload[5:size] panics when
   * the declared size is below 5.
   */
  function ParsePacketAsWritten(payload: bytes): (r: Completion<Parsed>)
    ensures |payload| <= HeadLen ==> r == Returned(Parsed(None, -1, Some(ErrPayloadNotEnough)))
    ensures |payload| > HeadLen && payload[0] != 1 ==> r == Returned(Parsed(None, -1, None))
    ensures r.Panicked? <==> |payload| > HeadLen && payload[0] == 1 && ReadBE32(payload[1..]) < HeadLen
  {
    if |payload| <= HeadLen then Returned(Parsed(None, -1, Some(ErrPayloadNotEnough)))
    else if payload[0] != 1 then Returned(Parsed(None, -1, None))
    else
      var size := ReadBE32(payload[1..]);
      if size > |payload| then Returned(Parsed(None, size, Some(ErrPayloadNotEnough)))
      else if size < HeadLen then Panicked
      else Returned(Parsed(Some(payload[HeadLen..size]), size, None))
  }

  /**
   * ParsePacket with a declared size below the head length reported as
   * "Payload Not Enough" (with that size) instead of panicking.
   */
  function ParsePacket(payload: bytes): (r: Parsed)
    ensures |payload| <= HeadLen ==> r == Parsed(None, -1, Some(ErrPayloadNotEnough))
    ensures |payload| > HeadLen && payload[0] != 1 ==> r == Parsed(None, -1, None)
    ensures r.packet.Some? <==> r.err.None? && r.size >= 0
    ensures r.packet.Some? ==> 0 <= r.size <= |payload| && r.size < U32 && payload[..r.size] == [1] + BE32(r.size) + r.packet.value
    ensures r.err.Some? && |payload| > HeadLen ==> r.size == ReadBE32(payload[1..]) && r.packet == None
  {
    if |payload| <= HeadLen then Parsed(None, -1, Some(ErrPayloadNotEnough))
    else if payload[0] != 1 then Parsed(None, -1, None)
    else
      var size := ReadBE32(payload[1..]);
      if size > |payload| || size < HeadLen then Parsed(None, size, Some(ErrPayloadNotEnough))
      else
        ReadBE32Inverse(payload[1..]);
        assert payload[..size] == [payload[0]] + payload[1..HeadLen] + payload[HeadLen..size];
        Parsed(Some(payload[HeadLen..size]), size, None)
  }

  /** Wherever the code as written returns, the corrected parse returns the same. */
  lemma ParsePacketAgrees(payload: bytes)
    requires ParsePacketAsWritten(payload).Returned?
    ensures ParsePacket(payload) == ParsePacketAsWritten(payload).value
  {
  }

  /** A version-1 payload declaring size 0 makes the code as written panic. */
  lemma ShortSizePanics()
    ensures ParsePacketAsWritten([1, 0, 0, 0, 0, 9]) == Panicked
    ensures ParsePacket([1, 0, 0, 0, 0, 9]) == Parsed(None, 0, Some(ErrPayloadNotEnough))
  {
    var p: bytes := [1, 0, 0, 0, 0, 9];
    assert ReadBE32(p[1..]) == 0;
  }

  /** ParsePacket inverts MarshalPacket for non-empty parts whose size fits a uint32. */
  lemma PacketRoundTrip(parts: seq<bytes>)
    requires 0 < |Flatten(parts)| && HeadLen + |Flatten(parts)| < U32
    ensures ParsePacket(MarshalPacket(parts)) == Parsed(Some(Flatten(parts)), |MarshalPacket(parts)|, None)
    ensures ParsePacketAsWritten(MarshalPacket(parts)) == Returned(ParsePacket(MarshalPacket(parts)))
  {
    var payload := MarshalPacket(parts);
    assert payload[HeadLen..|payload|] == Flatten(parts);
  }

  /** Empty parts marshal to the bare head, which ParsePacket rejects as too short. */
  lemma EmptyPacketRejected(parts: seq<bytes>)
    requires Flatten(parts) == []
    ensures ParsePacket(MarshalPacket(parts)) == Parsed(None, -1, Some(ErrPayloadNotEnough))
  {
  }

  /**
   * A marshalled packet cut short (but longer than the head) fails with
   * "Payload Not Enough" and still reports the full declared size.
   */
  lemma TruncatedPacket(parts: seq<bytes>, k: nat)
    requires HeadLen + |Flatten(parts)| < U32
    requires HeadLen < k < |MarshalPacket(parts)|
    ensures ParsePacket(MarshalPacket(parts)[..k]) == Parsed(None, |MarshalPacket(parts)|, Some(ErrPayloadNotEnough))
  {
    var payload := MarshalPacket(parts);
    var cut := payload[..k];
    assert cut[1..HeadLen] == payload[1..HeadLen];
    assert ReadBE32(cut[1..HeadLen]) == ReadBE32(payload[1..]);
  }
}
