// peer: the segment framing of peer requests and responses.
// A header field is BE16(length) ++ data; a header segment is the type byte
// 0 followed by a name field and a value field; a body segment is the type
// byte 1 followed by the rest of the stream.
module PeerCodec {
  import opened Wrappers
  import opened Bytes
  import opened Streams

  const HeaderSegmentType: byte := 0
  const BodySegmentType: byte := 1

  /** The name of the header that carries a request's method. */
  const MethodName: bytes := Ascii("Method")
  /** The name of the header that carries a response's code. */
  const PeerCodeName: bytes := Ascii("PeerCode")
  const MethodNilError: string := "Method Should not be nil"
  /** The runtime panic of an out-of-range slice or index expression. */
  const IndexPanic: string := "runtime error: index out of range"

  datatype HeaderSegment = HeaderSegment(name: bytes, value: bytes)

  // ---------------------------------------------------------------- fields

  /** CreateHeaderSegmentField: the 16-bit size (uint16 conversion) and the data, as two sub-readers. */
  function FieldBytes(data: bytes): bytes {
    BE16(Wrap(|data|, U16)) + data
  }

  /**
   * ParseHeaderSegmentField on the bytes the stream delivers: the field's
   * data, the number of bytes consumed and the error. A size of 0 gives nil
   * data; a field cut short by the end of the stream is padded with zero
   * bytes and reports no error, because the read loop's error is a
   * shadowed local.
   */
  function FieldSpec(f: bytes): (r: (bytes, nat, Option<string>))
    ensures r.1 <= |f|
    ensures r.2.None? <==> |f| >= 2
    ensures r.2.None? ==> r.1 >= 2 && |r.0| == ReadBE16(f)
  {
    if |f| < 2 then ([], |f|, FullReadError(2, |f|))
    else
      var size := ReadBE16(f);
      if size == 0 then ([], 2, None)
      else
        var n := Min(size, |f| - 2);
        (f[2..2 + n] + ZeroBytes(size - n), 2 + n, None)
  }

  lemma FieldRoundTrip(data: bytes, rest: bytes)
    requires |data| < U16
    ensures FieldSpec(FieldBytes(data) + rest) == (data, 2 + |data|, None)
  {
    var f := FieldBytes(data) + rest;
    assert f == BE16(|data|) + (data + rest);
    BE16RoundTrip(|data|, data + rest);
    assert ReadBE16(f) == |data|;
    assert Min(|data|, |f| - 2) == |data|;
    assert f[2..2 + |data|] + ZeroBytes(0) == data;
  }

  /** ParseHeaderSegmentField: the two size bytes by binary.Read, then the field's data. */
  method ParseHeaderSegmentField(s: Stream) returns (data: bytes, s': Stream, err: Option<string>)
    ensures data == FieldSpec(Flatten(s)).0 && err == FieldSpec(Flatten(s)).2
    ensures Flatten(s') == Flatten(s)[FieldSpec(Flatten(s)).1..]
  {
    ghost var f := Flatten(s);
    var (sizeBytes, s1) := ReadFull(s, 2);
    FieldSizeRead(f, sizeBytes, Flatten(s1));
    err := FullReadError(2, |sizeBytes|);
    if err.Some? {
      return [], s1, err;
    }
    var size := ReadBE16(sizeBytes);
    if size == 0 {
      return [], s1, err;
    }
    data, s' := ReadSizedField(f, s1, size);
  }

  /** The data of a field whose non-zero size f starts with, read from the stream after the size bytes. */
  method ReadSizedField(ghost f: bytes, s1: Stream, size: nat) returns (data: bytes, s': Stream)
    requires |f| >= 2 && Flatten(s1) == f[2..] && size == ReadBE16(f) > 0
    ensures data == FieldSpec(f).0 && FieldSpec(f).2 == None && Flatten(s') == f[FieldSpec(f).1..]
  {
    data, s' := ReadFieldData(s1, size);
    FieldOfParts(f, size, Flatten(s1), data, Flatten(s'));
  }

  /** What the two size bytes binary.Read gathers decide about FieldSpec. */
  lemma FieldSizeRead(f: bytes, sizeBytes: bytes, rest: bytes)
    requires |sizeBytes| == Min(2, |f|) && sizeBytes == f[..|sizeBytes|] && rest == f[|sizeBytes|..]
    ensures FullReadError(2, |sizeBytes|).Some? ==>
      FieldSpec(f) == ([], |f|, FullReadError(2, |sizeBytes|)) && rest == f[|f|..]
    ensures FullReadError(2, |sizeBytes|).None? ==>
      |f| >= 2 && ReadBE16(f) == ReadBE16(sizeBytes) && rest == f[2..]
    ensures FullReadError(2, |sizeBytes|).None? && ReadBE16(sizeBytes) == 0 ==> FieldSpec(f) == ([], 2, None)
  {
  }

  /** The size bytes, then the data read from what follows them, make up FieldSpec's answer. */
  lemma FieldOfParts(f: bytes, size: nat, rest: bytes, data: bytes, tail: bytes)
    requires |f| >= 2 && rest == f[2..] && size == ReadBE16(f) > 0
    requires data == rest[..Min(size, |rest|)] + ZeroBytes(size - Min(size, |rest|))
    requires tail == rest[Min(size, |rest|)..]
    ensures FieldSpec(f) == (data, |f| - |tail|, None) && tail == f[|f| - |tail|..]
  {
    var n := Min(size, |rest|);
    assert rest[..n] == f[2..2 + n] && tail == f[2 + n..];
  }

  /**
   * The read loop of ParseHeaderSegmentField, each Read filling the buffer
   * from where the previous one stopped. It ends when the field is full or
   * the stream is exhausted; whatever was not filled stays zero.
   */
  method ReadFieldData(s: Stream, size: nat) returns (data: bytes, s': Stream)
    requires size > 0
    ensures var n := Min(size, |Flatten(s)|);
      data == Flatten(s)[..n] + ZeroBytes(size - n) && Flatten(s') == Flatten(s)[n..]
  {
    ghost var f := Flatten(s);
    data := ZeroBytes(size);
    FilledStart(f, size);
    var total := 0;
    s' := s;
    while total < size
      invariant total <= size && total <= |f|
      invariant data == Filled(f, total, size)
      invariant Flatten(s') == f[total..]
      decreases size - total
    {
      var chunk := Read(s', size - total);
      var got := chunk.0;
      if got == [] {
        break;
      }
      ReadAdvance(f, total, s', got, chunk.1);
      FillStep(f, total, got, size, data);
      data := data[..total] + got + data[total + |got|..];
      total := total + |got|;
      s' := chunk.1;
    }
    FieldFilled(f, total, size, s');
  }

  /** The field after the first total bytes of f have been read into it. */
  ghost function Filled(f: bytes, total: nat, size: nat): bytes
    requires total <= size && total <= |f|
  {
    f[..total] + ZeroBytes(size - total)
  }

  lemma FilledStart(f: bytes, size: nat)
    ensures Filled(f, 0, size) == ZeroBytes(size)
  {
    assert f[..0] == [];
  }

  /** The loop ends with the field full, or with the stream exhausted after total bytes. */
  lemma FieldFilled(f: bytes, total: nat, size: nat, cur: Stream)
    requires total <= size && total <= |f| && Flatten(cur) == f[total..]
    requires total < size ==> Flatten(cur) == []
    ensures total == Min(size, |f|)
  {
  }

  /** A read from the stream positioned at total takes the next |got| bytes of f. */
  lemma ReadAdvance(f: bytes, total: nat, cur: Stream, got: bytes, next: Stream)
    requires total <= |f| && Flatten(cur) == f[total..] && Flatten(cur) == got + Flatten(next)
    ensures total + |got| <= |f| && f[total..total + |got|] == got && Flatten(next) == f[total + |got|..]
  {
    assert f[total..][..|got|] == got;
    assert f[total..][|got|..] == Flatten(next);
  }

  lemma FillStep(f: bytes, total: nat, got: bytes, size: nat, data: bytes)
    requires total + |got| <= size && total + |got| <= |f|
    requires f[total..total + |got|] == got && data == Filled(f, total, size)
    ensures data[..total] + got + data[total + |got|..] == Filled(f, total + |got|, size)
  {
    assert data[..total] == f[..total];
    assert data[total + |got|..] == ZeroBytes(size - total - |got|);
    assert f[..total + |got|] == f[..total] + got;
  }

  /**
   * The read loop as written: after the first read the buffer is
   * data[:total], so every later chunk lands at the front of the field.
   */
  function FieldLoopAsWritten(cur: Stream, data: bytes, total: nat, size: nat, buflen: nat): (r: bytes)
    requires 0 < buflen <= size && total < size && |data| == size
    ensures |r| == size
    decreases size - total
  {
    var (got, next) := Read(cur, buflen);
    if got == [] then data
    else
      var data' := got + data[|got|..];
      var total' := total + |got|;
      if total' >= size then data' else FieldLoopAsWritten(next, data', total', size, total')
  }

  /** The data ParseHeaderSegmentField returns as written, for a stream holding a whole size. */
  function ParseFieldAsWritten(s: Stream): (data: bytes)
  {
    var (sizeBytes, s1) := ReadFull(s, 2);
    if |sizeBytes| < 2 || ReadBE16(sizeBytes) == 0 then []
    else FieldLoopAsWritten(s1, ZeroBytes(ReadBE16(sizeBytes)), 0, ReadBE16(sizeBytes), ReadBE16(sizeBytes))
  }

  /** A four-byte field whose size arrives alone and whose data arrives in two chunks. */
  const SplitField: Stream := [[0, 4], [1, 2], [3, 4]]

  lemma SplitFieldBytes()
    ensures Flatten(SplitField) == [0, 4, 1, 2, 3, 4]
  {
    var s := SplitField;
    assert s[1..] == [[1, 2], [3, 4]] && s[1..][1..] == [[3, 4]];
    FlattenOne([3, 4]);
  }

  /** As written, the second chunk overwrites the first: [3, 4, 0, 0]. */
  lemma PartialReadsScrambleField()
    ensures ParseFieldAsWritten(SplitField) == [3, 4, 0, 0]
  {
    var s := SplitField;
    var (sizeBytes, s1) := ReadFull(s, 2);
    SplitFieldBytes();
    assert sizeBytes == [0, 4] && s1 == [[], [1, 2], [3, 4]];
    assert ReadBE16(sizeBytes) == 4;
    assert ZeroBytes(4) == [0, 0, 0, 0];
    var t1: Stream := [[1, 2], [3, 4]];
    assert s1[1..] == t1 && t1[1..] == [[3, 4]];
    assert Read(s1, 4) == Read(t1, 4);
    assert t1[0] == [1, 2] && Min(4, 2) == 2 && t1[0][..2] == [1, 2] && t1[0][2..] == [];
    var n1: Stream := [[], [3, 4]];
    assert [t1[0][2..]] + t1[1..] == n1;
    assert Read(s1, 4) == ([1, 2], n1);
    assert FieldLoopAsWritten(s1, [0, 0, 0, 0], 0, 4, 4) == FieldLoopAsWritten(n1, [1, 2, 0, 0], 2, 4, 2);
    LastChunkOverwrites(n1);
  }

  lemma LastChunkOverwrites(n1: Stream)
    requires n1 == [[], [3, 4]]
    ensures FieldLoopAsWritten(n1, [1, 2, 0, 0], 2, 4, 2) == [3, 4, 0, 0]
  {
    var t2: Stream := [[3, 4]];
    assert n1[1..] == t2 && t2[1..] == [];
    assert Read(n1, 2) == Read(t2, 2);
    assert Read(t2, 2).0 == [3, 4];
  }

  /** Read from where the last chunk stopped, the same stream gives the field that was sent. */
  lemma SplitFieldCorrected()
    ensures FieldSpec(Flatten(SplitField)).0 == [1, 2, 3, 4]
  {
    SplitFieldBytes();
    var f := Flatten(SplitField);
    assert ReadBE16(f) == 4 && f[2..6] == [1, 2, 3, 4];
    assert ZeroBytes(0) == [];
  }

  // ---------------------------------------------------------------- segments

  /** ParseSegmentType: one Read of one byte; at the end of the stream the zero byte and io.EOF. */
  function ParseSegmentType(s: Stream): (r: (byte, Stream, Option<string>))
    ensures r.2.None? <==> Flatten(s) != []
    ensures r.2.None? ==> r.0 == Flatten(s)[0] && Flatten(r.1) == Flatten(s)[1..]
    ensures r.2.Some? ==> r.0 == 0 && Flatten(r.1) == []
  {
    var (got, s') := Read(s, 1);
    if got == [] then (0, s', Some(EOF)) else (got[0], s', None)
  }

  /** CreateSegmentType ++ CreateHeaderSegment. */
  function HeaderBytes(h: HeaderSegment): bytes {
    [HeaderSegmentType] + FieldBytes(h.name) + FieldBytes(h.value)
  }

  /** ParseHeaderSegment on the bytes the stream delivers: the segment, the bytes consumed and the error. */
  function HeaderSpec(f: bytes): (r: (HeaderSegment, nat, Option<string>))
    ensures r.1 <= |f|
    ensures r.2.None? ==> r.1 >= 4
  {
    var (name, used, err) := FieldSpec(f);
    if err.Some? then (HeaderSegment([], []), used, err)
    else
      var (value, used', err') := FieldSpec(f[used..]);
      (HeaderSegment(name, value), used + used', err')
  }

  lemma HeaderRoundTrip(h: HeaderSegment, rest: bytes)
    requires |h.name| < U16 && |h.value| < U16
    ensures HeaderSpec(FieldBytes(h.name) + FieldBytes(h.value) + rest) == (h, 4 + |h.name| + |h.value|, None)
  {
    var f := FieldBytes(h.name) + FieldBytes(h.value) + rest;
    assert f == FieldBytes(h.name) + (FieldBytes(h.value) + rest);
    FieldRoundTrip(h.name, FieldBytes(h.value) + rest);
    assert f[2 + |h.name|..] == FieldBytes(h.value) + rest;
    FieldRoundTrip(h.value, rest);
  }

  method ParseHeaderSegment(s: Stream) returns (h: HeaderSegment, s': Stream, err: Option<string>)
    ensures var (h0, used, e) := HeaderSpec(Flatten(s));
      err == e && (err.None? ==> h == h0) && Flatten(s') == Flatten(s)[used..]
  {
    var name, value;
    name, s', err := ParseHeaderSegmentField(s);
    if err.Some? {
      return HeaderSegment([], []), s', err;
    }
    value, s', err := ParseHeaderSegmentField(s');
    h := HeaderSegment(name, value);
    ghost var (_, used, _) := FieldSpec(Flatten(s));
    assert Flatten(s)[used..][FieldSpec(Flatten(s)[used..]).1..] == Flatten(s)[used + FieldSpec(Flatten(s)[used..]).1..];
  }

  /** A field read as a Go []byte: a zero-size field is nil. */
  function FieldValue(v: bytes): (r: Option<bytes>)
    ensures r.Some? <==> v != []
    ensures r.Some? ==> r.value == v
  {
    if v == [] then None else Some(v)
  }

  /** The first header with the given name, as Request.Header and Response.Header look it up; nil when none matches. */
  method Header(headers: seq<HeaderSegment>, name: bytes) returns (value: bytes)
    ensures (forall i :: 0 <= i < |headers| ==> headers[i].name != name) ==> value == []
    ensures forall i :: 0 <= i < |headers| && headers[i].name == name ==>
      exists j :: 0 <= j <= i && headers[j].name == name && value == headers[j].value
        && forall k :: 0 <= k < j ==> headers[k].name != name
  {
    value := [];
    var i := 0;
    while i < |headers|
      invariant 0 <= i <= |headers|
      invariant forall k :: 0 <= k < i ==> headers[k].name != name
    {
      if headers[i].name == name {
        value := headers[i].value;
        return;
      }
      i := i + 1;
    }
  }

  function HeadersBytes(headers: seq<HeaderSegment>): bytes {
    if headers == [] then [] else HeaderBytes(headers[0]) + HeadersBytes(headers[1..])
  }

  lemma {:induction false} HeadersBytesAppend(a: seq<HeaderSegment>, b: seq<HeaderSegment>)
    ensures HeadersBytes(a + b) == HeadersBytes(a) + HeadersBytes(b)
  {
    if a == [] {
      assert a + b == b;
    } else {
      assert (a + b)[0] == a[0] && (a + b)[1..] == a[1..] + b;
      HeadersBytesAppend(a[1..], b);
    }
  }

  /** Fields short enough for their uint16 size, and none named like the reserved header. */
  ghost predicate Encodable(headers: seq<HeaderSegment>, reserved: bytes) {
    forall i :: 0 <= i < |headers| ==>
      |headers[i].name| < U16 && |headers[i].value| < U16 && headers[i].name != reserved
  }

  /**
   * The fields of the segments before the body: the reserved header's value,
   * the other headers, the next segment type and what follows it, and whether
   * the loop stopped on a reserved value shorter than the caller needs.
   */
  datatype Segments = Segments(reserved: Option<bytes>, headers: seq<HeaderSegment>, ntype: byte, rest: bytes, short: bool)

  /**
   * The loop of UnmarshalRequest and UnmarshalResponse on the bytes the
   * stream delivers: header segments are read until a type byte other than 0,
   * the end of the stream or a malformed segment; the last reserved header
   * wins. On a malformed segment the next type stays 0. Each reserved value
   * is used as it is read: one shorter than minLen stops the loop there
   * (UnmarshalResponse's binary.BigEndian.Uint32 panics on it; requests pass 0).
   */
  function SegmentLoop(f: bytes, reserved: bytes, minLen: nat, value: Option<bytes>, headers: seq<HeaderSegment>): (r: Segments)
    ensures r.short ==> r.reserved.Some? && |r.reserved.value| < minLen
    ensures !r.short && r.reserved.Some? && r.reserved != value ==> |r.reserved.value| >= minLen
    decreases |f|
  {
    if f == [] then Segments(value, headers, 0, [], false)
    else if f[0] != HeaderSegmentType then Segments(value, headers, f[0], f[1..], false)
    else
      var (h, used, err) := HeaderSpec(f[1..]);
      if err.Some? then Segments(value, headers, 0, f[1 + used..], false)
      else if h.name == reserved && |h.value| < minLen then Segments(Some(h.value), headers, 0, f[1 + used..], true)
      else if h.name == reserved then SegmentLoop(f[1 + used..], reserved, minLen, Some(h.value), headers)
      else SegmentLoop(f[1 + used..], reserved, minLen, value, headers + [h])
  }

  /** One encoded header segment is decoded as the reserved value or appended to the headers. */
  lemma SegmentLoopStep(h: HeaderSegment, rest: bytes, reserved: bytes, minLen: nat, value: Option<bytes>, acc: seq<HeaderSegment>)
    requires |h.name| < U16 && |h.value| < U16
    ensures SegmentLoop(HeaderBytes(h) + rest, reserved, minLen, value, acc)
      == if h.name == reserved && |h.value| < minLen then Segments(Some(h.value), acc, 0, rest, true)
         else if h.name == reserved then SegmentLoop(rest, reserved, minLen, Some(h.value), acc)
         else SegmentLoop(rest, reserved, minLen, value, acc + [h])
  {
    var f := HeaderBytes(h) + rest;
    assert f[0] == HeaderSegmentType;
    assert f[1..] == FieldBytes(h.name) + FieldBytes(h.value) + rest;
    HeaderRoundTrip(h, rest);
    assert f[1 + (4 + |h.name| + |h.value|)..] == rest;
  }

  /** Decoding a run of encoded header segments appends them, ahead of whatever follows. */
  lemma {:induction false} SegmentLoopHeaders(hs: seq<HeaderSegment>, reserved: bytes, minLen: nat, value: Option<bytes>,
                                              acc: seq<HeaderSegment>, tail: bytes)
    requires Encodable(hs, reserved)
    ensures SegmentLoop(HeadersBytes(hs) + tail, reserved, minLen, value, acc) == SegmentLoop(tail, reserved, minLen, value, acc + hs)
    decreases |hs|
  {
    if hs == [] {
      assert HeadersBytes(hs) + tail == tail && acc + hs == acc;
    } else {
      var h, more := hs[0], hs[1..];
      assert |h.name| < U16 && |h.value| < U16 && h.name != reserved;
      assert Encodable(more, reserved) by {
        forall i | 0 <= i < |more| ensures |more[i].name| < U16 && |more[i].value| < U16 && more[i].name != reserved {
          assert more[i] == hs[i + 1];
        }
      }
      assert HeadersBytes(hs) == HeaderBytes(h) + HeadersBytes(more);
      assert HeadersBytes(hs) + tail == HeaderBytes(h) + (HeadersBytes(more) + tail);
      SegmentLoopStep(h, HeadersBytes(more) + tail, reserved, minLen, value, acc);
      SegmentLoopHeaders(more, reserved, minLen, value, acc + [h], tail);
      assert acc + [h] + more == acc + hs;
    }
  }

  /** The reserved header first, then the others: decoding recovers its value and the others in order. */
  lemma SegmentsRoundTrip(first: HeaderSegment, hs: seq<HeaderSegment>, tail: bytes, minLen: nat)
    requires |first.name| < U16 && minLen <= |first.value| < U16 && Encodable(hs, first.name)
    requires tail == [] || tail[0] != HeaderSegmentType
    ensures var r := SegmentLoop(HeaderBytes(first) + HeadersBytes(hs) + tail, first.name, minLen, None, []);
      && !r.short && r.reserved == Some(first.value) && r.headers == hs
      && r.ntype == (if tail == [] then 0 else tail[0])
      && r.rest == (if tail == [] then [] else tail[1..])
  {
    assert HeaderBytes(first) + HeadersBytes(hs) + tail == HeaderBytes(first) + (HeadersBytes(hs) + tail);
    SegmentLoopStep(first, HeadersBytes(hs) + tail, first.name, minLen, None, []);
    SegmentLoopHeaders(hs, first.name, minLen, Some(first.value), [], tail);
    assert [] + hs == hs;
  }

  /** The loop of UnmarshalRequest and UnmarshalResponse over a stream. */
  method ReadSegments(s: Stream, reserved: bytes, minLen: nat, value: Option<bytes>) returns (r: Segments, s': Stream)
    ensures r == SegmentLoop(Flatten(s), reserved, minLen, value, [])
    ensures Flatten(s') == r.rest
  {
    var headers: seq<HeaderSegment> := [];
    var v := value;
    var cur := s;
    while true
      invariant SegmentLoop(Flatten(cur), reserved, minLen, v, headers) == SegmentLoop(Flatten(s), reserved, minLen, value, [])
      decreases |Flatten(cur)|
    {
      ghost var f := Flatten(cur);
      var (headerType, next, err) := ParseSegmentType(cur);
      if err.Some? || headerType != HeaderSegmentType {
        return Segments(v, headers, headerType, Flatten(next), false), next;
      }
      SegmentLoopAt(f, reserved, minLen, v, headers);
      var h, after;
      h, after, err := ParseHeaderSegment(next);
      if err.Some? {
        return Segments(v, headers, 0, Flatten(after), false), after;
      }
      if h.name == reserved && |h.value| < minLen {
        return Segments(Some(h.value), headers, 0, Flatten(after), true), after;
      }
      if h.name == reserved {
        v := Some(h.value);
        cur := after;
        continue;
      }
      headers := headers + [h];
      cur := after;
    }
  }

  /** SegmentLoop at a header segment, with the bytes after it named once. */
  lemma SegmentLoopAt(f: bytes, reserved: bytes, minLen: nat, value: Option<bytes>, headers: seq<HeaderSegment>)
    requires f != [] && f[0] == HeaderSegmentType
    ensures var (h, used, err) := HeaderSpec(f[1..]);
      f[1..][used..] == f[1 + used..] &&
      SegmentLoop(f, reserved, minLen, value, headers) ==
        if err.Some? then Segments(value, headers, 0, f[1 + used..], false)
        else if h.name == reserved && |h.value| < minLen then Segments(Some(h.value), headers, 0, f[1 + used..], true)
        else if h.name == reserved then SegmentLoop(f[1 + used..], reserved, minLen, Some(h.value), headers)
        else SegmentLoop(f[1 + used..], reserved, minLen, value, headers + [h])
  {
  }

  // ---------------------------------------------------------------- requests

  /** A peer request: nil method, headers and body are None, [] and None. */
  datatype Request = Request(verb: Option<bytes>, headers: seq<HeaderSegment>, body: Option<bytes>)

  const EmptyRequest: Request := Request(None, [], None)

  function BodyBytes(body: Option<bytes>): bytes {
    if body.Some? then [BodySegmentType] + body.value else []
  }

  /** The bytes MarshalRequest's reader delivers for a request with a method. */
  function RequestBytes(req: Request): bytes
    requires req.verb.Some?
  {
    HeaderBytes(HeaderSegment(MethodName, req.verb.value)) + HeadersBytes(req.headers) + BodyBytes(req.body)
  }

  /** UnmarshalRequest into req on the bytes the stream delivers: fields the stream does not carry keep their old values. */
  function DecodeRequest(f: bytes, req: Request): (r: Request)
  {
    var seg := SegmentLoop(f, MethodName, 0, None, []);
    Request(
      if seg.reserved.Some? then FieldValue(seg.reserved.value) else req.verb,
      if |seg.headers| > 0 then seg.headers else req.headers,
      if seg.ntype == BodySegmentType then Some(seg.rest) else req.body)
  }

  /** CreateSegmentType(0) and CreateHeaderSegment: the type byte, then size and data of name and value. */
  function HeaderChunks(h: HeaderSegment): (c: Stream)
    ensures Flatten(c) == HeaderBytes(h)
  {
    var c := [[HeaderSegmentType], BE16(Wrap(|h.name|, U16)), h.name, BE16(Wrap(|h.value|, U16)), h.value];
    assert c == [c[0]] + ([c[1]] + ([c[2]] + ([c[3]] + [c[4]])));
    FlattenOne(c[4]);
    FlattenCons(c[3], [c[4]]);
    FlattenCons(c[2], [c[3]] + [c[4]]);
    FlattenCons(c[1], [c[2]] + ([c[3]] + [c[4]]));
    FlattenCons(c[0], [c[1]] + ([c[2]] + ([c[3]] + [c[4]])));
    c
  }

  /** The readers of each header, then those of the body segment when there is a body, after the given ones. */
  method AppendSegments(readers: Stream, headers: seq<HeaderSegment>, body: Option<bytes>) returns (stream: Stream)
    ensures Flatten(stream) == Flatten(readers) + HeadersBytes(headers) + BodyBytes(body)
  {
    stream := readers;
    var i := 0;
    while i < |headers|
      invariant 0 <= i <= |headers|
      invariant Flatten(stream) == Flatten(readers) + HeadersBytes(headers[..i])
    {
      AppendHeaderStep(Flatten(readers), stream, headers[..i], headers[i], HeaderChunks(headers[i]));
      assert headers[..i + 1] == headers[..i] + [headers[i]];
      stream := stream + HeaderChunks(headers[i]);
      i := i + 1;
    }
    assert headers[..i] == headers;
    if body.Some? {
      AppendBodyStep(stream, body.value);
      stream := stream + [[BodySegmentType], body.value];
    }
  }

  /** Appending the readers of one more header appends its bytes. */
  lemma AppendHeaderStep(lead: bytes, stream: Stream, pre: seq<HeaderSegment>, h: HeaderSegment, c: Stream)
    requires Flatten(stream) == lead + HeadersBytes(pre) && Flatten(c) == HeaderBytes(h)
    ensures Flatten(stream + c) == lead + HeadersBytes(pre + [h])
  {
    assert HeadersBytes([h]) == HeaderBytes(h) by {
      assert [h][1..] == [];
    }
    calc {
      Flatten(stream + c);
    == { FlattenAppend(stream, c); }
      (lead + HeadersBytes(pre)) + HeaderBytes(h);
    ==
      lead + (HeadersBytes(pre) + HeadersBytes([h]));
    == { HeadersBytesAppend(pre, [h]); }
      lead + HeadersBytes(pre + [h]);
    }
  }

  /** Appending the body segment's two readers appends its type byte and the body. */
  lemma AppendBodyStep(stream: Stream, body: bytes)
    ensures Flatten(stream + [[BodySegmentType], body]) == Flatten(stream) + BodyBytes(Some(body))
  {
    var tail: Stream := [[BodySegmentType], body];
    assert tail == [tail[0]] + [tail[1]];
    FlattenOne(tail[1]);
    FlattenCons(tail[0], [tail[1]]);
    FlattenAppend(stream, tail);
  }

  /** MarshalRequest: nil method is an error; otherwise the method header, each header, then the body segment if any. */
  method MarshalRequest(req: Request) returns (stream: Stream, err: Option<string>)
    ensures err.Some? <==> req.verb.None?
    ensures err.Some? ==> err == Some(MethodNilError)
    ensures err.None? ==> Flatten(stream) == RequestBytes(req)
  {
    if req.verb.None? {
      return [], Some(MethodNilError);
    }
    stream := AppendSegments(HeaderChunks(HeaderSegment(MethodName, req.verb.value)), req.headers, req.body);
    err := None;
  }

  /** UnmarshalRequest: the method header sets the method, other headers replace the list when there are any, a body segment sets the body. */
  method UnmarshalRequest(s: Stream, req: Request) returns (r: Request)
    ensures r == DecodeRequest(Flatten(s), req)
  {
    var seg, rest := ReadSegments(s, MethodName, 0, None);
    r := req;
    if seg.reserved.Some? {
      r := r.(verb := FieldValue(seg.reserved.value));
    }
    if |seg.headers| > 0 {
      r := r.(headers := seg.headers);
    }
    if seg.ntype == BodySegmentType {
      r := r.(body := Some(Flatten(rest)));
    }
  }

  /** A request with a non-empty method and encodable headers decodes, into an empty request, to itself. */
  lemma RequestRoundTrip(req: Request)
    requires req.verb.Some? && req.verb.value != [] && |req.verb.value| < U16
    requires Encodable(req.headers, MethodName)
    ensures DecodeRequest(RequestBytes(req), EmptyRequest) == req
  {
    SegmentsRoundTrip(HeaderSegment(MethodName, req.verb.value), req.headers, BodyBytes(req.body), 0);
    assert HeaderBytes(HeaderSegment(MethodName, req.verb.value)) + HeadersBytes(req.headers) + BodyBytes(req.body)
      == RequestBytes(req);
    if req.body.Some? {
      assert BodyBytes(req.body)[1..] == req.body.value;
    }
  }

  /** An empty method goes out as a zero-size field and comes back nil. */
  lemma EmptyMethodComesBackNil(req: Request)
    requires req.verb == Some([]) && Encodable(req.headers, MethodName)
    ensures DecodeRequest(RequestBytes(req), EmptyRequest).verb == None
  {
    SegmentsRoundTrip(HeaderSegment(MethodName, []), req.headers, BodyBytes(req.body), 0);
  }

  // ---------------------------------------------------------------- responses

  /** A peer response; code is a Go int. */
  datatype Response = Response(code: int, headers: seq<HeaderSegment>, body: Option<bytes>)

  const EmptyResponse: Response := Response(0, [], None)

  predicate IsError(resp: Response) {
    resp.code != 0
  }

  /** The bytes MarshalResponse's reader delivers: the code as a PeerCode header holding BE32(uint32(code)). */
  function ResponseBytes(resp: Response): bytes {
    HeaderBytes(HeaderSegment(PeerCodeName, BE32(Wrap(resp.code, U32)))) + HeadersBytes(resp.headers) + BodyBytes(resp.body)
  }

  /** UnmarshalResponse on the bytes the stream delivers; any PeerCode value shorter than four bytes makes binary.BigEndian.Uint32 panic. */
  function DecodeResponse(f: bytes, resp: Response): (r: Result<Response>)
  {
    var seg := SegmentLoop(f, PeerCodeName, 4, None, []);
    if seg.short then Err(IndexPanic)
    else
      Ok(Response(
        if seg.reserved.Some? then ReadBE32(seg.reserved.value) else resp.code,
        if |seg.headers| > 0 then seg.headers else resp.headers,
        if seg.ntype == BodySegmentType then Some(seg.rest) else resp.body))
  }

  method MarshalResponse(resp: Response) returns (stream: Stream)
    ensures Flatten(stream) == ResponseBytes(resp)
  {
    var code := BE32(Wrap(resp.code, U32));
    stream := AppendSegments(HeaderChunks(HeaderSegment(PeerCodeName, code)), resp.headers, resp.body);
  }

  method UnmarshalResponse(s: Stream, resp: Response) returns (r: Result<Response>)
    ensures r == DecodeResponse(Flatten(s), resp)
  {
    var seg, rest := ReadSegments(s, PeerCodeName, 4, None);
    if seg.short {
      return Err(IndexPanic);
    }
    var out := resp;
    if seg.reserved.Some? {
      out := out.(code := ReadBE32(seg.reserved.value));
    }
    if |seg.headers| > 0 {
      out := out.(headers := seg.headers);
    }
    if seg.ntype == BodySegmentType {
      out := out.(body := Some(Flatten(rest)));
    }
    return Ok(out);
  }

  /** A response decodes to itself with its code taken modulo 2^32 (Go's int(uint32(code))). */
  lemma ResponseRoundTrip(resp: Response)
    requires Encodable(resp.headers, PeerCodeName)
    ensures DecodeResponse(ResponseBytes(resp), EmptyResponse) == Ok(resp.(code := Wrap(resp.code, U32)))
  {
    var code := BE32(Wrap(resp.code, U32));
    SegmentsRoundTrip(HeaderSegment(PeerCodeName, code), resp.headers, BodyBytes(resp.body), 4);
    BE32RoundTrip(Wrap(resp.code, U32), []);
    assert code + [] == code;
    if resp.body.Some? {
      assert BodyBytes(resp.body)[1..] == resp.body.value;
    }
  }

  /**
   * A PeerCode header whose value is shorter than four bytes panics wherever
   * it comes among the headers, even when a well-formed PeerCode header follows.
   */
  lemma ShortCodePanics(hs: seq<HeaderSegment>, v: bytes, rest: bytes, resp: Response)
    requires Encodable(hs, PeerCodeName) && |v| < 4
    ensures DecodeResponse(HeadersBytes(hs) + HeaderBytes(HeaderSegment(PeerCodeName, v)) + rest, resp) == Err(IndexPanic)
  {
    var h := HeaderSegment(PeerCodeName, v);
    assert HeadersBytes(hs) + HeaderBytes(h) + rest == HeadersBytes(hs) + (HeaderBytes(h) + rest);
    SegmentLoopHeaders(hs, PeerCodeName, 4, None, [], HeaderBytes(h) + rest);
    SegmentLoopStep(h, rest, PeerCodeName, 4, None, [] + hs);
  }

  /** The PeerCode values [0, 0] then [0, 0, 0, 1]: the first one panics, so the second is never read. */
  lemma ShortThenLongCodePanics()
    ensures DecodeResponse(HeaderBytes(HeaderSegment(PeerCodeName, [0, 0])) + HeaderBytes(HeaderSegment(PeerCodeName, [0, 0, 0, 1])), EmptyResponse)
      == Err(IndexPanic)
  {
    ShortCodePanics([], [0, 0], HeaderBytes(HeaderSegment(PeerCodeName, [0, 0, 0, 1])), EmptyResponse);
    assert HeadersBytes([]) + HeaderBytes(HeaderSegment(PeerCodeName, [0, 0])) == HeaderBytes(HeaderSegment(PeerCodeName, [0, 0]));
  }

  /** IsError survives the round trip for codes within a 32-bit range. */
  lemma RoundTripKeepsIsError(resp: Response)
    requires Encodable(resp.headers, PeerCodeName) && -(U32 as int) < resp.code < U32
    ensures DecodeResponse(ResponseBytes(resp), EmptyResponse).Ok?
    ensures IsError(DecodeResponse(ResponseBytes(resp), EmptyResponse).value) <==> IsError(resp)
  {
    ResponseRoundTrip(resp);
    if resp.code < 0 {
      assert Wrap(resp.code, U32) != 0 by {
        WrapNegative(resp.code);
      }
    }
  }

  lemma WrapNegative(x: int)
    requires -(U32 as int) < x < 0
    ensures Wrap(x, U32) == x + U32
  {
  }
}
