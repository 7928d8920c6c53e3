// app/node: the header table of node messages and the framing of node
// messages, requests and responses. A segment is BE32(length) ++ data; a
// header is a run of key and value segments; a message is BE32(header size)
// ++ header ++ body; a request puts a name segment in front of a message and
// a response a BE32 code.
module NodeCodec {
  import opened Wrappers
  import opened Bytes
  import opened Buckets
  import opened Streams
  import opened AppCacheBucket

  /** The panic of a method call on a nil io.Reader. */
  const NilReaderPanic: string := "runtime error: invalid memory address or nil pointer dereference"

  datatype HeaderItem = HeaderItem(key: bytes, value: bytes)

  /** HeaderItem.HashCode: entries are keyed by their key. */
  function HashCode(item: HeaderItem): bytes {
    item.key
  }

  ghost predicate DistinctItemKeys(items: seq<HeaderItem>) {
    forall i, j :: 0 <= i < j < |items| ==> items[i].key != items[j].key
  }

  /** The value held under each key. */
  ghost function EntryMap(items: seq<HeaderItem>): map<bytes, bytes>
    requires DistinctItemKeys(items)
  {
    map i | 0 <= i < |items| :: items[i].key := items[i].value
  }

  /** The value of each item in a map of items. */
  ghost function Values(c: map<bytes, HeaderItem>): map<bytes, bytes> {
    map k | k in c :: c[k].value
  }

  lemma ValuesUpdate(c: map<bytes, HeaderItem>, k: bytes, item: HeaderItem)
    ensures Values(c[k := item]) == Values(c)[k := item.value]
  {
  }

  lemma ValuesRemove(c: map<bytes, HeaderItem>, k: bytes)
    ensures Values(c - {k}) == Values(c) - {k}
  {
  }

  lemma ContentsKey(items: seq<HeaderItem>, key: HeaderItem -> bytes, k: bytes)
    requires DistinctKeys(items, key) && KeyedByKey(key) && k in ToMap(items, key)
    ensures key(ToMap(items, key)[k]) == k
  {
    var i := ToMapHas(items, key, k);
  }

  /** A key function that reads the item's key. */
  ghost predicate KeyedByKey(key: HeaderItem -> bytes) {
    forall it :: key(it) == it.key
  }

  lemma DistinctByKey(items: seq<HeaderItem>, key: HeaderItem -> bytes)
    requires DistinctKeys(items, key) && KeyedByKey(key)
    ensures DistinctItemKeys(items)
  {
    forall i, j | 0 <= i < j < |items| ensures items[i].key != items[j].key {
      assert key(items[i]) != key(items[j]);
    }
  }

  lemma EntryAt(items: seq<HeaderItem>, key: HeaderItem -> bytes, k: bytes)
    requires DistinctKeys(items, key) && KeyedByKey(key) && DistinctItemKeys(items)
    ensures k in ToMap(items, key) <==> k in EntryMap(items)
    ensures k in ToMap(items, key) ==> ToMap(items, key)[k].value == EntryMap(items)[k]
  {
    if k in ToMap(items, key) {
      var i := ToMapHas(items, key, k);
      assert items[i].key == k;
    }
    if k in EntryMap(items) {
      var i :| 0 <= i < |items| && items[i].key == k;
      ToMapAt(items, key, i);
    }
  }

  /** The entries of a bucket keyed by item key, read from its item map. */
  lemma EntryMapOfContents(items: seq<HeaderItem>, key: HeaderItem -> bytes)
    requires DistinctKeys(items, key) && KeyedByKey(key)
    ensures DistinctItemKeys(items)
    ensures EntryMap(items) == Values(ToMap(items, key))
  {
    DistinctByKey(items, key);
    var e := EntryMap(items);
    var v := Values(ToMap(items, key));
    forall k ensures (k in e <==> k in v) && (k in e ==> e[k] == v[k]) {
      EntryAt(items, key, k);
    }
    SameEntries(e, v);
  }

  /** Two maps with the same keys and the same value under each are equal. */
  lemma SameEntries(e: map<bytes, bytes>, v: map<bytes, bytes>)
    requires forall k :: (k in e <==> k in v) && (k in e ==> e[k] == v[k])
    ensures e == v
  {
  }

  /** Set applied to each item in turn. */
  function ApplySets(m: map<bytes, bytes>, items: seq<HeaderItem>): map<bytes, bytes>
    decreases |items|
  {
    if items == [] then m else ApplySets(m[items[0].key := items[0].value], items[1..])
  }

  /** Setting distinct keys one by one leaves exactly their entries on top of the old ones. */
  lemma {:induction false} ApplySetsDistinct(m: map<bytes, bytes>, items: seq<HeaderItem>)
    requires DistinctItemKeys(items)
    ensures ApplySets(m, items) == m + EntryMap(items)
    decreases |items|
  {
    if items != [] {
      var m' := m[items[0].key := items[0].value];
      ApplySetsDistinct(m', items[1..]);
      EntryMapCons(items);
      UpdateThenMerge(m, items[0].key, items[0].value, EntryMap(items[1..]));
    }
  }

  /** The entries of a list are its first item's on top of the rest's, which do not hold that key. */
  lemma EntryMapCons(items: seq<HeaderItem>)
    requires DistinctItemKeys(items) && items != []
    ensures DistinctItemKeys(items[1..]) && items[0].key !in EntryMap(items[1..])
    ensures EntryMap(items) == EntryMap(items[1..])[items[0].key := items[0].value]
  {
    forall k | k in EntryMap(items[1..]) ensures k != items[0].key {
      var i :| 0 <= i < |items[1..]| && items[1..][i].key == k;
      assert items[i + 1].key == k;
    }
  }

  /** An update followed by a merge that does not touch its key is the merge of the update. */
  lemma UpdateThenMerge(m: map<bytes, bytes>, k: bytes, v: bytes, e: map<bytes, bytes>)
    requires k !in e
    ensures m[k := v] + e == m + e[k := v]
  {
  }

  // ---------------------------------------------------------------- header

  /** Header: the entries of a node message, in a bucket sorted by key under bytes.Compare. */
  class Header {
    const bucket: SimpleBucket<bytes, HeaderItem>

    ghost predicate Valid()
      reads this, bucket
    {
      bucket.Valid() && KeyedByKey(bucket.key) && (forall a, b :: bucket.cmp(a, b) == Compare(a, b))
    }

    /** The value held under each key. */
    ghost function Entries(): map<bytes, bytes>
      reads this, bucket
      requires Valid()
    {
      Values(bucket.Contents())
    }

    /** InitHeader: an empty bucket ordered by bytes.Compare. */
    constructor ()
      ensures Valid() && Entries() == map[] && fresh(bucket)
    {
      CompareTotal();
      bucket := new SimpleBucket<bytes, HeaderItem>(HashCode, Compare);
    }

    method Set(key: bytes, value: bytes)
      requires Valid()
      modifies bucket
      ensures Valid() && Entries() == old(Entries())[key := value]
    {
      ValuesUpdate(bucket.Contents(), key, HeaderItem(key, value));
      var _ := bucket.Swap(HeaderItem(key, value));
    }

    /** The value under key with true, or nil and false. */
    method Get(key: bytes) returns (value: bytes, ok: bool)
      requires Valid()
      ensures ok <==> key in Entries()
      ensures value == if ok then Entries()[key] else []
    {
      var item := bucket.Search(key);
      if item.None? {
        return [], false;
      }
      return item.value.value, true;
    }

    method Del(key: bytes)
      requires Valid()
      modifies bucket
      ensures Valid() && Entries() == old(Entries()) - {key}
    {
      ValuesRemove(bucket.Contents(), key);
      var item := bucket.Search(key);
      if item.Some? {
        ContentsKey(bucket.items, bucket.key, key);
        bucket.Delete(item.value);
      } else {
        RemoveAbsent(bucket.Contents(), key);
      }
    }

    /** The entries are those of the items in the bucket. */
    lemma EntriesOfItems()
      requires Valid()
      ensures DistinctItemKeys(bucket.items) && Entries() == EntryMap(bucket.items)
    {
      SortedDistinct(bucket.items, bucket.key, bucket.cmp);
      EntryMapOfContents(bucket.items, bucket.key);
    }
  }

  // ---------------------------------------------------------------- segments

  /** A segment as MarshalHeader and MarshalRequest write it: the uint32 length, then the data. */
  function SegmentBytes(data: bytes): bytes {
    BE32(Wrap(|data|, U32)) + data
  }

  /**
   * ParseSegment on the bytes the stream delivers: the data, the bytes
   * consumed and the error. It reads the 4-byte length, then that many bytes,
   * both with io.ReadFull.
   */
  function SegmentSpec(f: bytes): (r: (bytes, nat, Option<string>))
    ensures r.1 <= |f|
    ensures r.2.None? ==> r.1 >= 4 && |f| >= 4 && r.0 == f[4..r.1] && |r.0| == ReadBE32(f)
    ensures f == [] ==> r.2 == Some(EOF)
  {
    if |f| < 4 then ([], |f|, FullReadError(4, |f|))
    else
      var n := ReadBE32(f);
      var m := Min(n, |f| - 4);
      (f[4..4 + m], 4 + m, FullReadError(n, m))
  }

  lemma SegmentRoundTrip(data: bytes, rest: bytes)
    requires |data| < U32
    ensures SegmentSpec(SegmentBytes(data) + rest) == (data, 4 + |data|, None)
  {
    var f := SegmentBytes(data) + rest;
    assert f == BE32(|data|) + (data + rest);
    BE32RoundTrip(|data|, data + rest);
    assert f[4..4 + |data|] == data;
  }

  /** ParseSegment on a stream. */
  function ParseSegment(s: Stream): (r: (bytes, Stream, Option<string>))
    ensures r.0 == SegmentSpec(Flatten(s)).0 && r.2 == SegmentSpec(Flatten(s)).2
    ensures Flatten(r.1) == Flatten(s)[SegmentSpec(Flatten(s)).1..]
  {
    var (sizeBytes, s1) := ReadFull(s, 4);
    if |sizeBytes| < 4 then
      assert SegmentSpec(Flatten(s)) == ([], |sizeBytes|, FullReadError(4, |sizeBytes|));
      ([], s1, FullReadError(4, |sizeBytes|))
    else
      var n := ReadBE32(sizeBytes);
      var (data, s2) := ReadFull(s1, n);
      SegmentOfParts(Flatten(s), sizeBytes, Flatten(s1), data, Flatten(s2));
      (data, s2, FullReadError(n, |data|))
  }

  lemma SegmentOfParts(f: bytes, sizeBytes: bytes, rest: bytes, data: bytes, tail: bytes)
    requires |f| >= 4 && sizeBytes == f[..4] && rest == f[4..]
    requires |data| == Min(ReadBE32(sizeBytes), |rest|) && data == rest[..|data|] && tail == rest[|data|..]
    ensures SegmentSpec(f) == (data, 4 + |data|, FullReadError(ReadBE32(sizeBytes), |data|))
    ensures tail == f[4 + |data|..]
  {
    assert ReadBE32(f) == ReadBE32(sizeBytes);
    assert data == f[4..4 + |data|];
  }

  // ---------------------------------------------------------------- header encoding

  function ItemBytes(item: HeaderItem): bytes {
    SegmentBytes(item.key) + SegmentBytes(item.value)
  }

  /** The buffer MarshalHeader builds: each entry's key segment, then its value segment. */
  function EntriesBytes(items: seq<HeaderItem>): bytes {
    if items == [] then [] else ItemBytes(items[0]) + EntriesBytes(items[1..])
  }

  lemma {:induction false} EntriesBytesSnoc(items: seq<HeaderItem>, item: HeaderItem)
    ensures EntriesBytes(items + [item]) == EntriesBytes(items) + ItemBytes(item)
    decreases |items|
  {
    if items == [] {
      assert items + [item] == [item] && [item][1..] == [];
    } else {
      assert (items + [item])[0] == items[0] && (items + [item])[1..] == items[1..] + [item];
      EntriesBytesSnoc(items[1..], item);
    }
  }

  /** MarshalHeader: nil and 0 for an empty header, otherwise the buffer and its length. */
  method MarshalHeader(header: Header) returns (reader: Option<bytes>, size: nat)
    requires header.Valid()
    ensures header.bucket.items == [] ==> reader == None && size == 0
    ensures header.bucket.items != [] ==> reader == Some(EntriesBytes(header.bucket.items)) && size == |reader.value|
  {
    var items := header.bucket.Items();
    if |items| <= 0 {
      return None, 0;
    }
    var buffer := AppendEntries(items);
    return Some(buffer), |buffer|;
  }

  /** The loop of MarshalHeader: each entry's key and value appended to the buffer. */
  method AppendEntries(items: seq<HeaderItem>) returns (buffer: bytes)
    ensures buffer == EntriesBytes(items)
  {
    buffer := [];
    var i := 0;
    while i < |items|
      invariant 0 <= i <= |items|
      invariant buffer == EntriesBytes(items[..i])
    {
      var item := items[i];
      EntriesBytesSnoc(items[..i], item);
      assert items[..i + 1] == items[..i] + [item];
      buffer := AppendItem(buffer, item);
      i := i + 1;
    }
    assert items[..i] == items;
  }

  /** One pass of MarshalHeader's loop: the key's size and bytes, then the value's. */
  method AppendItem(buffer: bytes, item: HeaderItem) returns (out: bytes)
    ensures out == buffer + ItemBytes(item)
  {
    out := buffer + BE32(Wrap(|item.key|, U32)) + item.key;
    out := out + BE32(Wrap(|item.value|, U32)) + item.value;
  }

  /** One pass of UnmarshalHeader's loop: a key segment, then a value segment unless the key failed. */
  function DecodeEntry(f: bytes): (r: (HeaderItem, nat, Option<string>))
    ensures r.1 <= |f|
    ensures r.2.None? ==> r.1 >= 8
  {
    var key := SegmentSpec(f);
    if key.2.Some? then (HeaderItem([], []), key.1, key.2)
    else
      var value := SegmentSpec(f[key.1..]);
      (HeaderItem(key.0, value.0), key.1 + value.1, value.2)
  }

  /**
   * UnmarshalHeader with its loop ending at the end of the header: the
   * entries read, in order, and the error. An io.EOF where a key would start
   * ends the header without error; any other failed segment is returned.
   */
  function DecodeEntries(f: bytes): (r: (seq<HeaderItem>, Option<string>))
    decreases |f|
  {
    if f == [] then ([], None)
    else
      var entry := DecodeEntry(f);
      if entry.2.Some? then ([], entry.2)
      else
        var rest := DecodeEntries(f[entry.1..]);
        ([entry.0] + rest.0, rest.1)
  }

  /** Entries short enough for their uint32 lengths. */
  ghost predicate EncodableItems(items: seq<HeaderItem>) {
    forall i :: 0 <= i < |items| ==> |items[i].key| < U32 && |items[i].value| < U32
  }

  lemma {:induction false} EntriesRoundTrip(items: seq<HeaderItem>)
    requires EncodableItems(items)
    ensures DecodeEntries(EntriesBytes(items)) == (items, None)
    decreases |items|
  {
    if items != [] {
      var item := items[0];
      var rest := EntriesBytes(items[1..]);
      var f := EntriesBytes(items);
      assert f == SegmentBytes(item.key) + (SegmentBytes(item.value) + rest);
      SegmentRoundTrip(item.key, SegmentBytes(item.value) + rest);
      assert f[4 + |item.key|..] == SegmentBytes(item.value) + rest;
      SegmentRoundTrip(item.value, rest);
      assert f[4 + |item.key| + (4 + |item.value|)..] == rest;
      assert DecodeEntry(f) == (item, 4 + |item.key| + (4 + |item.value|), None);
      EntriesRoundTrip(items[1..]);
      assert [item] + items[1..] == items;
    }
  }

  /**
   * UnmarshalHeader as written: the loop exits only through a failed
   * ParseSegment and returns that failure, so it never reports success.
   */
  function UnmarshalHeaderAsWritten(f: bytes): (err: Option<string>)
    ensures err.Some?
    decreases |f|
  {
    var entry := DecodeEntry(f);
    if entry.2.Some? then entry.2 else UnmarshalHeaderAsWritten(f[entry.1..])
  }

  /** Two segments read one after the other make up one entry. */
  lemma DecodeEntryOfSegments(f: bytes)
    requires SegmentSpec(f).2.None?
    ensures var used := SegmentSpec(f).1;
      DecodeEntry(f) == (HeaderItem(SegmentSpec(f).0, SegmentSpec(f[used..]).0), used + SegmentSpec(f[used..]).1, SegmentSpec(f[used..]).2)
    ensures f[SegmentSpec(f).1..][SegmentSpec(f[SegmentSpec(f).1..]).1..] == f[DecodeEntry(f).1..]
  {
  }

  /** UnmarshalHeader (its end-of-header case corrected): each entry read is Set into the header. */
  method UnmarshalHeader(s: Stream, header: Header) returns (err: Option<string>)
    requires header.Valid()
    modifies header.bucket
    ensures header.Valid()
    ensures err == DecodeEntries(Flatten(s)).1
    ensures header.Entries() == ApplySets(old(header.Entries()), DecodeEntries(Flatten(s)).0)
  {
    ghost var goal := ApplySets(header.Entries(), DecodeEntries(Flatten(s)).0);
    var cur := s;
    while true
      invariant header.Valid()
      invariant DecodeEntries(Flatten(cur)).1 == DecodeEntries(Flatten(s)).1
      invariant ApplySets(header.Entries(), DecodeEntries(Flatten(cur)).0) == goal
      decreases |Flatten(cur)|
    {
      if Flatten(cur) == [] {
        return None;
      }
      ghost var f := Flatten(cur);
      var (key, afterKey, e) := ParseSegment(cur);
      if e.Some? {
        assert DecodeEntries(f) == ([], e);
        return e;
      }
      var (value, next, e') := ParseSegment(afterKey);
      DecodeEntryOfSegments(f);
      if e'.Some? {
        assert DecodeEntries(f) == ([], e');
        return e';
      }
      ghost var rest := Flatten(next);
      ApplySetsStep(header.Entries(), f, HeaderItem(key, value), rest);
      header.Set(key, value);
      cur := next;
    }
  }

  /** The entry at the front of a header is Set first. */
  lemma ApplySetsStep(m: map<bytes, bytes>, f: bytes, item: HeaderItem, rest: bytes)
    requires f != [] && DecodeEntry(f).0 == item && DecodeEntry(f).2.None? && rest == f[DecodeEntry(f).1..]
    ensures DecodeEntries(f).1 == DecodeEntries(rest).1
    ensures ApplySets(m, DecodeEntries(f).0) == ApplySets(m[item.key := item.value], DecodeEntries(rest).0)
  {
    var items := DecodeEntries(f).0;
    assert items == [item] + DecodeEntries(rest).0;
    assert items[0] == item && items[1..] == DecodeEntries(rest).0;
  }

  // ---------------------------------------------------------------- messages

  /** The sub-readers of a body; a nil body delivers nothing. */
  function BodyChunks(body: Option<Stream>): Stream {
    if body.Some? then body.value else []
  }

  /**
   * MarshalMessage with nil readers left out: the header size, the header
   * buffer when the header is not empty, then the body.
   */
  function MessageChunks(items: seq<HeaderItem>, body: Option<Stream>): (c: Stream)
    ensures Flatten(c) == BE32(Wrap(|EntriesBytes(items)|, U32)) + EntriesBytes(items) + Flatten(BodyChunks(body))
  {
    var c := [BE32(Wrap(|EntriesBytes(items)|, U32))] + (if items == [] then [] else [EntriesBytes(items)]) + BodyChunks(body);
    FlattenAppend([BE32(Wrap(|EntriesBytes(items)|, U32))] + (if items == [] then [] else [EntriesBytes(items)]), BodyChunks(body));
    FlattenCons(BE32(Wrap(|EntriesBytes(items)|, U32)), if items == [] then [] else [EntriesBytes(items)]);
    FlattenOne(EntriesBytes(items));
    c
  }

  /** The readers MarshalMessage hands to io.MultiReader as written, None standing for a nil reader. */
  function MessageReadersAsWritten(items: seq<HeaderItem>, body: Option<Stream>): seq<Option<Stream>> {
    [Some([BE32(Wrap(|EntriesBytes(items)|, U32))]), if items == [] then None else Some([EntriesBytes(items)]), body]
  }

  /** Reading an io.MultiReader to the end: the Read call that reaches a nil reader panics. */
  function ReadAll(readers: seq<Option<Stream>>): (r: Result<bytes>)
    ensures r.Err? <==> exists i :: 0 <= i < |readers| && readers[i].None?
  {
    if readers == [] then Ok([])
    else if readers[0].None? then Err(NilReaderPanic)
    else
      var rest := ReadAll(readers[1..]);
      assert forall i :: 0 < i < |readers| ==> readers[i] == readers[1..][i - 1];
      if rest.Err? then rest else Ok(Flatten(readers[0].value) + rest.value)
  }

  /** As written, a message with an empty header cannot be read past its size: its header reader is nil. */
  lemma EmptyHeaderPanics(body: Option<Stream>)
    ensures ReadAll(MessageReadersAsWritten([], body)).Err?
    ensures Flatten(MessageChunks([], body)) == [0, 0, 0, 0] + Flatten(BodyChunks(body))
  {
    assert MessageReadersAsWritten([], body)[1].None?;
  }

  /**
   * UnmarshalMessage: one Read of four bytes for the header size (a short
   * Read leaves the rest of the buffer zero), then the header read from the
   * next size bytes, then the rest of the stream as the body.
   */
  function DecodeMessage(s: Stream): (r: Result<(seq<HeaderItem>, Stream)>)
  {
    var (got, s1) := Read(s, 4);
    if got == [] then Err(EOF)
    else
      var size := ReadBE32(got + ZeroBytes(4 - |got|));
      if size == 0 then Ok(([], s1))
      else
        var (headerBytes, s2) := ReadFull(s1, size);
        var (items, err) := DecodeEntries(headerBytes);
        if err.Some? then Err(err.value) else Ok((items, s2))
  }

  /** UnmarshalMessage as written: any non-empty header makes it fail. */
  function DecodeMessageAsWritten(s: Stream): (r: Result<(seq<HeaderItem>, Stream)>)
  {
    var (got, s1) := Read(s, 4);
    if got == [] then Err(EOF)
    else
      var size := ReadBE32(got + ZeroBytes(4 - |got|));
      if size == 0 then Ok(([], s1))
      else
        var (headerBytes, s2) := ReadFull(s1, size);
        Err(UnmarshalHeaderAsWritten(headerBytes).value)
  }

  /**
   * UnmarshalMessage: the new header and the body on success; the caller's
   * message is assigned only then.
   */
  method UnmarshalMessage(s: Stream) returns (header: Header, body: Stream, err: Option<string>)
    ensures fresh(header) && fresh(header.bucket) && header.Valid()
    ensures err.None? <==> DecodeMessage(s).Ok?
    ensures err.Some? ==> err.value == DecodeMessage(s).error
    ensures err.None? ==> header.Entries() == ApplySets(map[], DecodeMessage(s).value.0) && body == DecodeMessage(s).value.1
  {
    var (got, s1) := Read(s, 4);
    header := new Header();
    body := s1;
    if got == [] {
      return header, body, Some(EOF);
    }
    var headerSize := ReadBE32(got + ZeroBytes(4 - |got|));
    err := None;
    if headerSize > 0 {
      var (headerBytes, s2) := ReadFull(s1, headerSize);
      err := UnmarshalHeader(Of(headerBytes), header);
      body := s2;
    }
  }

  /** Encodable entries and a header that fits its uint32 size. */
  ghost predicate Encodable(items: seq<HeaderItem>) {
    EncodableItems(items) && |EntriesBytes(items)| < U32
  }

  /** A message decodes to the entries and body it was built from, after any exhausted sub-readers. */
  lemma MessageRoundTrip(items: seq<HeaderItem>, body: Option<Stream>)
    requires Encodable(items)
    ensures DecodeMessage([[]] + MessageChunks(items, body)).Ok?
    ensures DecodeMessage([[]] + MessageChunks(items, body)).value.0 == items
    ensures Flatten(DecodeMessage([[]] + MessageChunks(items, body)).value.1) == Flatten(BodyChunks(body))
  {
    MessageSizeRead(items, body);
    if items != [] {
      MessageEntriesRead(items, body);
      EntriesRoundTrip(items);
    } else {
      assert MessageTail(items, body) == BodyChunks(body);
      FlattenCons([], BodyChunks(body));
    }
  }

  /** The sub-readers after the size: the header buffer when the header is not empty, then the body. */
  function MessageTail(items: seq<HeaderItem>, body: Option<Stream>): Stream {
    (if items == [] then [] else [EntriesBytes(items)]) + BodyChunks(body)
  }

  /** The first Read of a message takes the whole size chunk, which holds the header's length. */
  lemma MessageSizeRead(items: seq<HeaderItem>, body: Option<Stream>)
    requires Encodable(items)
    ensures Read([[]] + MessageChunks(items, body), 4) == (BE32(|EntriesBytes(items)|), [[]] + MessageTail(items, body))
    ensures ReadBE32(BE32(|EntriesBytes(items)|) + ZeroBytes(0)) == |EntriesBytes(items)|
  {
    var c := MessageChunks(items, body);
    var size := BE32(|EntriesBytes(items)|);
    assert c == [size] + MessageTail(items, body);
    ReadSkipsEmpty(c, 4);
    ReadWholeChunk(size, MessageTail(items, body));
    assert size + ZeroBytes(0) == size + [];
    BE32RoundTrip(|EntriesBytes(items)|, []);
  }

  /** Reading the header's length after the size takes exactly the header buffer, leaving the body. */
  lemma MessageEntriesRead(items: seq<HeaderItem>, body: Option<Stream>)
    requires items != []
    ensures ReadFull([[]] + MessageTail(items, body), |EntriesBytes(items)|).0 == EntriesBytes(items)
    ensures Flatten(ReadFull([[]] + MessageTail(items, body), |EntriesBytes(items)|).1) == Flatten(BodyChunks(body))
  {
    var e := EntriesBytes(items);
    var rest := Flatten(BodyChunks(body));
    FlattenCons([], MessageTail(items, body));
    FlattenAppend([e], BodyChunks(body));
    FlattenOne(e);
    assert Flatten([[]] + MessageTail(items, body)) == e + rest;
    assert (e + rest)[..|e|] == e && (e + rest)[|e|..] == rest;
  }

  /** As written, a message built from a non-empty header never decodes. */
  lemma NonEmptyHeaderNeverDecodes(items: seq<HeaderItem>, body: Option<Stream>)
    requires Encodable(items) && items != []
    ensures DecodeMessageAsWritten([[]] + MessageChunks(items, body)).Err?
  {
    MessageSizeRead(items, body);
    assert |EntriesBytes(items)| > 0 by {
      assert EntriesBytes(items) == ItemBytes(items[0]) + EntriesBytes(items[1..]);
    }
  }

  /** MarshalMessage on a header and a body, with nil readers left out. */
  method MarshalMessage(header: Header, body: Option<Stream>) returns (s: Stream)
    requires header.Valid()
    ensures s == MessageChunks(header.bucket.items, body)
    ensures Flatten(s) == BE32(Wrap(|EntriesBytes(header.bucket.items)|, U32)) + EntriesBytes(header.bucket.items) + Flatten(BodyChunks(body))
  {
    var headerReader, headerSize := MarshalHeader(header);
    var sizeBuffer := BE32(Wrap(headerSize, U32));
    s := [sizeBuffer] + (if headerReader.Some? then [headerReader.value] else []) + BodyChunks(body);
  }

  /** A header's items, set one by one into an empty header, give back its entries. */
  lemma HeaderSurvivesRoundTrip(header: Header)
    requires header.Valid()
    ensures ApplySets(map[], header.bucket.items) == header.Entries()
  {
    header.EntriesOfItems();
    ApplySetsDistinct(map[], header.bucket.items);
    EmptyUnion(EntryMap(header.bucket.items));
  }

  lemma RemoveAbsent(c: map<bytes, HeaderItem>, k: bytes)
    requires k !in c
    ensures c - {k} == c
  {
  }

  lemma EmptyUnion(m: map<bytes, bytes>)
    ensures map[] + m == m
  {
  }

  // ---------------------------------------------------------------- requests

  /** A node request: its name and, from the embedded Message, a header and a body. */
  class Request {
    var name: bytes
    var header: Header
    var body: Option<Stream>

    /** A zero Request after InitRequest: an empty header, no name, no body. */
    constructor ()
      ensures name == [] && body == None
      ensures fresh(header) && fresh(header.bucket) && header.Valid() && header.Entries() == map[]
    {
      name := [];
      body := None;
      header := new Header();
    }
  }

  /** The sub-readers of a marshalled request: the name segment, then the message. */
  function RequestChunks(name: bytes, items: seq<HeaderItem>, body: Option<Stream>): (c: Stream)
    ensures Flatten(c) == SegmentBytes(name) + Flatten(MessageChunks(items, body))
  {
    FlattenCons(SegmentBytes(name), MessageChunks(items, body));
    [SegmentBytes(name)] + MessageChunks(items, body)
  }

  method MarshalRequest(request: Request) returns (s: Stream)
    requires request.header.Valid()
    ensures s == RequestChunks(request.name, request.header.bucket.items, request.body)
  {
    var nameBuffer := BE32(Wrap(|request.name|, U32)) + request.name;
    var message := MarshalMessage(request.header, request.body);
    s := [nameBuffer] + message;
  }

  /** The embedded Message's half of UnmarshalRequest: header and body are assigned only on success. */
  method UnmarshalRequestMessage(s: Stream, request: Request) returns (err: Option<string>)
    modifies request
    ensures request.name == old(request.name)
    ensures err.None? <==> DecodeMessage(s).Ok?
    ensures err.Some? ==>
      err.value == DecodeMessage(s).error && request.header == old(request.header) && request.body == old(request.body)
    ensures err.None? ==>
      fresh(request.header) && fresh(request.header.bucket) && request.header.Valid() &&
      request.header.Entries() == ApplySets(map[], DecodeMessage(s).value.0) &&
      request.body == Some(DecodeMessage(s).value.1)
  {
    var header, body;
    header, body, err := UnmarshalMessage(s);
    if err.None? {
      assert header as object != request && header.bucket as object != request;
      request.header := header;
      request.body := Some(body);
    }
  }

  /**
   * UnmarshalRequest: the name segment first; a failure there leaves the
   * request untouched. The name is kept even when the message then fails.
   */
  method UnmarshalRequest(s: Stream, request: Request) returns (err: Option<string>)
    modifies request
    ensures ParseSegment(s).2.Some? ==> err == ParseSegment(s).2 && unchanged(request)
    ensures ParseSegment(s).2.None? ==> request.name == ParseSegment(s).0
    ensures ParseSegment(s).2.None? ==> (err.None? <==> DecodeMessage(ParseSegment(s).1).Ok?)
    ensures ParseSegment(s).2.None? && err.Some? ==>
      err.value == DecodeMessage(ParseSegment(s).1).error && request.header == old(request.header) && request.body == old(request.body)
    ensures ParseSegment(s).2.None? && err.None? ==>
      fresh(request.header) && fresh(request.header.bucket) && request.header.Valid() &&
      request.header.Entries() == ApplySets(map[], DecodeMessage(ParseSegment(s).1).value.0) &&
      request.body == Some(DecodeMessage(ParseSegment(s).1).value.1)
  {
    var segment := ParseSegment(s);
    if segment.2.Some? {
      return segment.2;
    }
    request.name := segment.0;
    err := UnmarshalRequestMessage(segment.1, request);
  }

  /** A marshalled request parses back to its name, then to a message with its entries and body. */
  lemma RequestRoundTrip(name: bytes, items: seq<HeaderItem>, body: Option<Stream>)
    requires |name| < U32 && Encodable(items)
    ensures ParseSegment(RequestChunks(name, items, body)).2.None?
    ensures ParseSegment(RequestChunks(name, items, body)).0 == name
    ensures DecodeMessage(ParseSegment(RequestChunks(name, items, body)).1).Ok?
    ensures DecodeMessage(ParseSegment(RequestChunks(name, items, body)).1).value.0 == items
    ensures Flatten(DecodeMessage(ParseSegment(RequestChunks(name, items, body)).1).value.1) == Flatten(BodyChunks(body))
  {
    var m := MessageChunks(items, body);
    var c := RequestChunks(name, items, body);
    assert c == [BE32(|name|) + name] + m;
    ReadFullChunk(BE32(|name|), name, m);
    BE32RoundTrip(|name|, []);
    assert BE32(|name|) + [] == BE32(|name|);
    ReadFullChunk(name, [], m);
    assert name + [] == name;
    assert ParseSegment(c) == (name, [[]] + m, None);
    MessageRoundTrip(items, body);
  }

  // ---------------------------------------------------------------- responses

  /** A node response: its code and, from the embedded Message, a header and a body. */
  class Response {
    var code: int
    var header: Header
    var body: Option<Stream>

    /** A zero Response after InitResponse: an empty header, code 0, no body. */
    constructor ()
      ensures code == 0 && body == None
      ensures fresh(header) && fresh(header.bucket) && header.Valid() && header.Entries() == map[]
    {
      code := 0;
      body := None;
      header := new Header();
    }
  }

  /** The sub-readers of a marshalled response: the code as a uint32, then the message. */
  function ResponseChunks(code: int, items: seq<HeaderItem>, body: Option<Stream>): (c: Stream)
    ensures Flatten(c) == BE32(Wrap(code, U32)) + Flatten(MessageChunks(items, body))
  {
    FlattenCons(BE32(Wrap(code, U32)), MessageChunks(items, body));
    [BE32(Wrap(code, U32))] + MessageChunks(items, body)
  }

  method MarshalResponse(response: Response) returns (s: Stream)
    requires response.header.Valid()
    ensures s == ResponseChunks(response.code, response.header.bucket.items, response.body)
  {
    var codeBuffer := BE32(Wrap(response.code, U32));
    var message := MarshalMessage(response.header, response.body);
    s := [codeBuffer] + message;
  }

  /** The code binary.Read gives back: four bytes read in full as a big-endian uint32, or the read error. */
  function DecodeCode(s: Stream): (r: (int, Stream, Option<string>))
    ensures r.2.None? <==> |Flatten(s)| >= 4
    ensures r.2.None? ==> 0 <= r.0 < U32 && r.0 == ReadBE32(Flatten(s)) && Flatten(r.1) == Flatten(s)[4..]
  {
    var (codeBytes, s1) := ReadFull(s, 4);
    var err := FullReadError(4, |codeBytes|);
    if err.Some? then (0, s1, err)
    else
      assert codeBytes == Flatten(s)[..4];
      assert ReadBE32(codeBytes) == ReadBE32(Flatten(s));
      (ReadBE32(codeBytes), s1, None)
  }

  /** UnmarshalResponse: the code first; a read error there leaves the response untouched. */
  method UnmarshalResponse(s: Stream, response: Response) returns (err: Option<string>)
    modifies response
    ensures DecodeCode(s).2.Some? ==> err == DecodeCode(s).2 && unchanged(response)
    ensures DecodeCode(s).2.None? ==> response.code == DecodeCode(s).0
    ensures DecodeCode(s).2.None? ==> (err.None? <==> DecodeMessage(DecodeCode(s).1).Ok?)
    ensures DecodeCode(s).2.None? && err.Some? ==>
      err.value == DecodeMessage(DecodeCode(s).1).error && response.header == old(response.header) && response.body == old(response.body)
    ensures DecodeCode(s).2.None? && err.None? ==>
      fresh(response.header) && fresh(response.header.bucket) && response.header.Valid() &&
      response.header.Entries() == ApplySets(map[], DecodeMessage(DecodeCode(s).1).value.0) &&
      response.body == Some(DecodeMessage(DecodeCode(s).1).value.1)
  {
    var read := DecodeCode(s);
    if read.2.Some? {
      return read.2;
    }
    response.code := read.0;
    var header, body;
    header, body, err := UnmarshalMessage(read.1);
    if err.None? {
      response.header := header;
      response.body := Some(body);
    }
  }

  /** A marshalled response decodes to its code as a uint32, then to its entries and body. */
  lemma ResponseRoundTrip(code: int, items: seq<HeaderItem>, body: Option<Stream>)
    requires Encodable(items)
    ensures DecodeCode(ResponseChunks(code, items, body)).2.None?
    ensures DecodeCode(ResponseChunks(code, items, body)).0 == Wrap(code, U32)
    ensures DecodeMessage(DecodeCode(ResponseChunks(code, items, body)).1).Ok?
    ensures DecodeMessage(DecodeCode(ResponseChunks(code, items, body)).1).value.0 == items
    ensures Flatten(DecodeMessage(DecodeCode(ResponseChunks(code, items, body)).1).value.1) == Flatten(BodyChunks(body))
  {
    var m := MessageChunks(items, body);
    var c := ResponseChunks(code, items, body);
    var b := BE32(Wrap(code, U32));
    assert b + [] == b;
    ReadFullChunk(b, [], m);
    BE32RoundTrip(Wrap(code, U32), []);
    assert DecodeCode(c) == (Wrap(code, U32), [[]] + m, None);
    MessageRoundTrip(items, body);
  }
}
