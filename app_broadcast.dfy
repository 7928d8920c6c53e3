// The multicast pack header of the app's broadcast service: a zero marker
// byte, a 16-bit checksum (65535 ^ size), the 16-bit payload size and the
// payload, cut into blocks of at most one MTU on delivery.
module AppBroadcast {
  import opened Wrappers
  import opened Bytes
  import opened Streams
  import opened Errors

  /** Largest payload Deliver accepts: 65535 less the five header bytes less one. */
  const MaxPayload: nat := 65531

  /** parsePacketBuffer's results: the bytes handed on, and the size (0: not a first block). */
  datatype Unpacked = Unpacked(buffer: bytes, size: nat)

  /** packBuffer: [0] ++ BE16(65535 ^ uint16(n)) ++ BE16(uint16(n)) ++ buffer. */
  function PackBuffer(buffer: bytes): (block: bytes)
    ensures |block| == |buffer| + 5
    ensures block[0] == 0 && block[5..] == buffer
  {
    var size := Wrap(|buffer|, U16);
    XorAllOnes16(size);
    [0] + BE16(Xor(0xFFFF, size)) + BE16(size) + buffer
  }

  /** The header fields packBuffer writes, read back: the checksum complements the size. */
  lemma PackBufferHeader(buffer: bytes)
    ensures ReadBE16(PackBuffer(buffer)[3..]) == Wrap(|buffer|, U16)
    ensures ReadBE16(PackBuffer(buffer)[1..]) == 0xFFFF - Wrap(|buffer|, U16)
    ensures Xor(ReadBE16(PackBuffer(buffer)[1..]), ReadBE16(PackBuffer(buffer)[3..])) == 0xFFFF
  {
    var size := Wrap(|buffer|, U16);
    XorAllOnes16(size);
    PackBufferFields(buffer);
    BE16RoundTrip(0xFFFF - size, BE16(size) + buffer);
    BE16RoundTrip(size, buffer);
  }

  /** The bytes after the marker, and after the checksum. */
  lemma PackBufferFields(buffer: bytes)
    ensures PackBuffer(buffer)[1..] == BE16(0xFFFF - Wrap(|buffer|, U16)) + (BE16(Wrap(|buffer|, U16)) + buffer)
    ensures PackBuffer(buffer)[3..] == BE16(Wrap(|buffer|, U16)) + buffer
  {
    var size := Wrap(|buffer|, U16);
    XorAllOnes16(size);
    var block := PackBuffer(buffer);
    assert block == [0] + BE16(0xFFFF - size) + BE16(size) + buffer;
    assert block[1..] == BE16(0xFFFF - size) + (BE16(size) + buffer);
  }

  /**
   * The five header bytes block[0:5] reads: Go bounds the slice by the
   * capacity, so past the block's length they come from the spare bytes of
   * its backing array.
   */
  function HeaderBytes(block: bytes, spare: bytes): (h: bytes)
    requires |block| + |spare| >= 5
    ensures |h| == 5 && (|block| >= 5 ==> h == block[..5])
  {
    (block + spare)[..5]
  }

  /**
   * parsePacketBuffer as written, on a block whose backing array holds the
   * bytes spare past its length: an empty block panics on block[0]; a
   * zero-marked block panics on the header slices when its capacity is
   * below 5, and, when only its length is below 5, on block[5:] once
   * checksum ^ size is 0; a block passes only when checksum ^ size is 0 and
   * the size is at least len(block) - 4.
   */
  function ParsePacketBufferAsWritten(block: bytes, spare: bytes): (r: Completion<Unpacked>)
    ensures |block| == 0 ==> r.Panicked?
    ensures |block| > 0 && block[0] != 0 ==> r == Returned(Unpacked(block, 0))
    ensures |block| > 0 && block[0] == 0 && |block| + |spare| < 5 ==> r.Panicked?
    ensures |block| > 0 && block[0] == 0 && |block| < 5 <= |block| + |spare| ==>
      var h := HeaderBytes(block, spare);
      (r.Panicked? <==> Xor(ReadBE16(h[1..]), ReadBE16(h[3..])) == 0) &&
      (r.Returned? ==> r == Returned(Unpacked(block, 0)))
    ensures |block| >= 5 ==> r.Returned?
    ensures r.Returned? && r.value.buffer != block ==>
      |block| >= 5 && r.value.buffer == block[5..] && r.value.size == ReadBE16(block[3..]) == ReadBE16(block[1..])
  {
    if |block| == 0 then Panicked
    else if block[0] != 0 then Returned(Unpacked(block, 0))
    else if |block| + |spare| < 5 then Panicked
    else
      var h := HeaderBytes(block, spare);
      var checksum := ReadBE16(h[1..]);
      var size := ReadBE16(h[3..]);
      if Xor(checksum, size) != 0 then Returned(Unpacked(block, 0))
      else if size < |block| - 4 then Returned(Unpacked(block, 0))
      else if |block| < 5 then Panicked
      else
        XorZero(checksum, size);
        Returned(Unpacked(block[5..], size))
  }

  /** A block that holds the whole header parses the same whatever lies past its length. */
  lemma AsWrittenIgnoresSpare(block: bytes, spare: bytes)
    requires |block| >= 5
    ensures ParsePacketBufferAsWritten(block, spare) == ParsePacketBufferAsWritten(block, [])
  {
  }

  /**
   * On the receive path a block is read into a fresh zeroed buffer of MTU
   * bytes: a zero-marked block of one byte then reads checksum 0 and size 0
   * and panics on block[5:], while [0, 1] reads checksum 256 and comes back
   * unrecognised.
   */
  lemma ShortReceivedBlocks()
    ensures ParsePacketBufferAsWritten([0], [0, 0, 0, 0]) == Panicked
    ensures ParsePacketBufferAsWritten([0, 1], [0, 0, 0]) == Returned(Unpacked([0, 1], 0))
  {
    assert HeaderBytes([0], [0, 0, 0, 0]) == [0, 0, 0, 0, 0];
    assert HeaderBytes([0, 1], [0, 0, 0]) == [0, 1, 0, 0, 0];
  }

  /**
   * The code as written hands every packBuffer output back as an
   * unrecognised block, whatever its capacity: its checksum ^ size is
   * 65535, never 0, and its size is below len(block) - 4 as well.
   */
  lemma PackedBufferRejectedAsWritten(buffer: bytes, spare: bytes)
    requires |buffer| < U16
    ensures ParsePacketBufferAsWritten(PackBuffer(buffer), spare) == Returned(Unpacked(PackBuffer(buffer), 0))
    ensures ReadBE16(PackBuffer(buffer)[3..]) < |PackBuffer(buffer)| - 4
  {
    var block := PackBuffer(buffer);
    PackBufferHeader(buffer);
    XorZero(ReadBE16(block[1..]), ReadBE16(block[3..]));
    var h := HeaderBytes(block, spare);
    assert h[1..] == block[1..5] && h[3..] == block[3..5];
  }

  /**
   * parsePacketBuffer with the checks packBuffer's header satisfies:
   * checksum ^ size must be 65535 and the size at least the payload carried
   * in this block, len(block) - 5. A zero-marked block shorter than the
   * header is a panic, as the code's slices are for a block whose capacity
   * is its length.
   */
  function ParsePacketBuffer(block: bytes): (r: Completion<Unpacked>)
    ensures r.Panicked? <==> |block| == 0 || (block[0] == 0 && |block| < 5)
    ensures |block| > 0 && block[0] != 0 ==> r == Returned(Unpacked(block, 0))
    ensures r.Returned? && r.value.buffer != block ==>
      block[0] == 0 && r.value.buffer == block[5..] && r.value.size == ReadBE16(block[3..]) &&
      Xor(ReadBE16(block[1..]), r.value.size) == 0xFFFF && |r.value.buffer| <= r.value.size
  {
    if |block| == 0 then Panicked
    else if block[0] != 0 then Returned(Unpacked(block, 0))
    else if |block| < 5 then Panicked
    else
      var checksum := ReadBE16(block[1..]);
      var size := ReadBE16(block[3..]);
      if Xor(checksum, size) != 0xFFFF then Returned(Unpacked(block, 0))
      else if size < |block| - 5 then Returned(Unpacked(block, 0))
      else Returned(Unpacked(block[5..], size))
  }

  /**
   * ParsePacketBuffer inverts PackBuffer: on the whole packed block, and on
   * every prefix of it that holds the header (the first block Deliver sends
   * of a payload longer than one MTU), it yields the bytes after the header
   * and the full payload size.
   */
  lemma PackBufferRoundTrip(buffer: bytes, k: nat)
    requires |buffer| < U16 && 5 <= k <= |buffer| + 5
    ensures ParsePacketBuffer(PackBuffer(buffer)) == Returned(Unpacked(buffer, |buffer|))
    ensures ParsePacketBuffer(PackBuffer(buffer)[..k]) == Returned(Unpacked(buffer[..k - 5], |buffer|))
  {
    var block := PackBuffer(buffer);
    PackBufferHeader(buffer);
    var cut := block[..k];
    assert cut[1..] == block[1..k] && cut[3..] == block[3..k];
    assert ReadBE16(cut[1..]) == ReadBE16(block[1..]);
    assert ReadBE16(cut[3..]) == ReadBE16(block[3..]);
    assert cut[5..] == buffer[..k - 5];
    if k - 5 == |buffer| {
      assert cut == block;
    } else {
      assert cut[5..] != cut;
    }
    assert block[5..] != block;
  }

  /**
   * The end of the block that starts at offset, as Deliver computes it: for
   * the final short block it takes the block's length, size - offset.
   */
  function BlockLimitAsWritten(offset: nat, mtu: nat, size: nat): int {
    if offset + mtu > size then size - offset else offset + mtu
  }

  /**
   * Whenever the packed buffer is longer than one MTU and not a multiple of
   * it, the final block's limit falls below its offset, so buffer[offset:limit]
   * panics: a 10-byte payload packs to 15 bytes, and with an MTU of 4 the
   * final block would be buffer[12:3].
   */
  lemma FinalBlockPanicsAsWritten(size: nat, mtu: nat)
    requires 0 < mtu < size && size % mtu != 0
    ensures var last := size / mtu * mtu; last < size && BlockLimitAsWritten(last, mtu, size) < last
    ensures BlockLimitAsWritten(12, 4, 15) == 3
  {
    var last := size / mtu * mtu;
    assert last == size - size % mtu;
    assert last >= mtu;
  }

  /** The blocks a buffer is delivered in: MTU-sized pieces, the last one shorter. */
  function Fragments(buffer: bytes, mtu: nat): (blocks: seq<bytes>)
    requires mtu > 0
    ensures Flatten(blocks) == buffer
    ensures forall i :: 0 <= i < |blocks| ==> 0 < |blocks[i]| <= mtu
    ensures forall i :: 0 <= i < |blocks| - 1 ==> |blocks[i]| == mtu
    decreases |buffer|
  {
    if buffer == [] then []
    else if |buffer| <= mtu then FlattenOne(buffer); [buffer]
    else
      var rest := Fragments(buffer[mtu..], mtu);
      FlattenCons(buffer[..mtu], rest);
      [buffer[..mtu]] + rest
  }

  lemma FragmentsStep(buffer: bytes, mtu: nat, offset: nat)
    requires mtu > 0 && offset < |buffer|
    ensures Fragments(buffer[offset..], mtu) ==
      [buffer[offset..if offset + mtu > |buffer| then |buffer| else offset + mtu]] +
      Fragments(buffer[if offset + mtu > |buffer| then |buffer| else offset + mtu..], mtu)
  {
    var limit := if offset + mtu > |buffer| then |buffer| else offset + mtu;
    if offset + mtu > |buffer| {
      assert buffer[offset..limit] == buffer[offset..];
      assert buffer[limit..] == [];
    } else {
      assert buffer[offset..][..mtu] == buffer[offset..limit];
      assert buffer[offset..][mtu..] == buffer[limit..];
    }
  }

  lemma AppendBlock(blocks: seq<bytes>, block: bytes, rest: seq<bytes>)
    ensures (blocks + [block]) + rest == blocks + ([block] + rest)
  {
  }

  /** The block-cutting loop of Deliver, with the final limit at the buffer's end. */
  method SplitBlocks(buffer: bytes, mtu: nat) returns (blocks: seq<bytes>)
    requires mtu > 0
    ensures blocks == Fragments(buffer, mtu)
  {
    blocks := [];
    var size := |buffer|;
    var offset := 0;
    while offset < size
      invariant 0 <= offset <= size
      invariant blocks + Fragments(buffer[offset..], mtu) == Fragments(buffer, mtu)
      decreases size - offset
    {
      var limit;
      if offset + mtu > size {
        limit := size;
      } else {
        limit := offset + mtu;
      }
      FragmentsStep(buffer, mtu, offset);
      AppendBlock(blocks, buffer[offset..limit], Fragments(buffer[limit..], mtu));
      blocks := blocks + [buffer[offset..limit]];
      offset := limit;
    }
    assert buffer[offset..] == [];
  }

  /**
   * What Deliver does with a payload before it writes to the connections:
   * the blocks it writes once each, or, when the MTU is still zero (Deliver
   * called before the first sigOnce initialised it), the block it writes
   * over and over because the offset never advances.
   */
  datatype Delivery = Delivery(err: Option<string>, blocks: seq<bytes>) | Endless(block: bytes)

  /**
   * Deliver's size checks and the blocks it writes to every connection: an
   * empty payload sends nothing and succeeds, one above 65531 bytes fails
   * with bytes.ErrTooLarge, any other is packed and cut into MTU blocks; with
   * a zero MTU the loop keeps writing the empty block buffer[0:0].
   */
  method Deliver(payload: bytes, mtu: nat) returns (d: Delivery)
    ensures |payload| == 0 ==> d == Delivery(None, [])
    ensures |payload| > MaxPayload ==> d == Delivery(Some(ErrTooLarge), [])
    ensures 0 < |payload| <= MaxPayload && mtu == 0 ==> d == Endless([])
    ensures 0 < |payload| <= MaxPayload && mtu > 0 ==> d == Delivery(None, Fragments(PackBuffer(payload), mtu))
  {
    var size := |payload|;
    if size <= 0 {
      return Delivery(None, []);
    }
    if size > MaxPayload {
      return Delivery(Some(ErrTooLarge), []);
    }
    if mtu == 0 {
      var buffer := PackBuffer(payload);
      return Endless(buffer[0..0]);
    }
    var buffer := PackBuffer(payload);
    var blocks := SplitBlocks(buffer, mtu);
    return Delivery(None, blocks);
  }

  /**
   * A delivered payload's blocks concatenate to its packed buffer, and the
   * first of them is recognised as the start of a payload of that size.
   */
  lemma DeliveredStartsPayload(payload: bytes, mtu: nat)
    requires 0 < |payload| <= MaxPayload && mtu >= 5
    ensures var blocks := Fragments(PackBuffer(payload), mtu);
      Flatten(blocks) == PackBuffer(payload) && |blocks| > 0 &&
      ParsePacketBuffer(blocks[0]) == Returned(Unpacked(blocks[0][5..], |payload|))
  {
    var buffer := PackBuffer(payload);
    var blocks := Fragments(buffer, mtu);
    var k := if |buffer| <= mtu then |buffer| else mtu;
    assert blocks[0] == buffer[..k];
    PackBufferRoundTrip(payload, k);
    assert buffer[..k][5..] == payload[..k - 5];
  }
}
