// Byte streams as the codecs see them. A stream is the list of sub-readers
// of an io.MultiReader (or the segments a network stream delivers): one
// Read call returns bytes from the first non-empty sub-reader only, while
// io.ReadFull (and binary.Read, which uses it) keeps reading across them.
module Streams {
  import opened Wrappers
  import opened Bytes

  type Stream = seq<bytes>

  const EOF: string := "EOF"
  const ErrUnexpectedEOF: string := "unexpected EOF"

  /** The bytes a stream delivers, in order. */
  function Flatten(s: Stream): bytes {
    if s == [] then [] else s[0] + Flatten(s[1..])
  }

  lemma {:induction false} FlattenAppend(a: Stream, b: Stream)
    ensures Flatten(a + b) == Flatten(a) + Flatten(b)
  {
    if a == [] {
      assert a + b == b;
    } else {
      assert (a + b)[0] == a[0];
      assert (a + b)[1..] == a[1..] + b;
      FlattenAppend(a[1..], b);
    }
  }

  lemma FlattenOne(c: bytes)
    ensures Flatten([c]) == c
  {
    assert [c][1..] == [];
  }

  lemma FlattenCons(c: bytes, s: Stream)
    ensures Flatten([c] + s) == c + Flatten(s)
  {
    assert ([c] + s)[1..] == s;
  }

  function Min(a: nat, b: nat): nat {
    if a < b then a else b
  }

  /** One Read with a k-byte buffer: up to k bytes from the first non-empty sub-reader; none at the end of the stream. */
  function Read(s: Stream, k: nat): (r: (bytes, Stream))
    requires k > 0
    ensures |r.0| <= k && Flatten(s) == r.0 + Flatten(r.1)
    ensures r.0 == [] <==> Flatten(s) == []
  {
    if s == [] then ([], [])
    else if s[0] == [] then Read(s[1..], k)
    else
      var m := Min(k, |s[0]|);
      var rest := [s[0][m..]] + s[1..];
      assert rest[1..] == s[1..];
      assert s[0] == s[0][..m] + s[0][m..];
      (s[0][..m], rest)
  }

  /** io.ReadFull: k bytes gathered across sub-readers, or all that is left when the stream ends first. */
  function ReadFull(s: Stream, k: nat): (r: (bytes, Stream))
    ensures |r.0| == Min(k, |Flatten(s)|)
    ensures r.0 == Flatten(s)[..|r.0|] && Flatten(r.1) == Flatten(s)[|r.0|..]
    decreases k
  {
    if k == 0 then ([], s)
    else
      var (got, s') := Read(s, k);
      if got == [] then ([], s')
      else
        var (more, s'') := ReadFull(s', k - |got|);
        SplitAfter(got, Flatten(s'), |more|);
        (got + more, s'')
  }

  /** Cutting a concatenation n bytes into its second part. */
  lemma SplitAfter(a: bytes, b: bytes, n: nat)
    requires n <= |b|
    ensures (a + b)[..|a| + n] == a + b[..n] && (a + b)[|a| + n..] == b[n..]
  {
  }

  /** The error io.ReadFull reports after reading n of the k bytes it wanted. */
  function FullReadError(k: nat, n: nat): (err: Option<string>)
    ensures err.None? <==> n == k
  {
    if n == k then None else if n == 0 then Some(EOF) else Some(ErrUnexpectedEOF)
  }

  /** Reading exactly the front of the first sub-reader leaves the rest of it in place. */
  lemma ReadFullChunk(a: bytes, b: bytes, t: Stream)
    ensures ReadFull([a + b] + t, |a|) == (a, [b] + t)
  {
    var s := [a + b] + t;
    if |a| > 0 {
      assert s[0] == a + b && s[1..] == t;
      assert (a + b)[..|a|] == a && (a + b)[|a|..] == b;
      assert Read(s, |a|) == (a, [b] + t);
      assert a + [] == a;
    } else {
      assert a + b == b;
    }
  }

  /** Read passes over an exhausted sub-reader. */
  lemma ReadSkipsEmpty(t: Stream, k: nat)
    requires k > 0
    ensures Read([[]] + t, k) == Read(t, k)
  {
    assert ([[]] + t)[1..] == t;
  }

  /** One Read returns the whole first sub-reader when it fits the buffer. */
  lemma ReadWholeChunk(c: bytes, t: Stream)
    requires c != []
    ensures Read([c] + t, |c|) == (c, [[]] + t)
  {
    assert ([c] + t)[0] == c && ([c] + t)[1..] == t;
    assert c[..|c|] == c && c[|c|..] == [];
  }

  /** A stream made of a single sub-reader. */
  function Of(b: bytes): (s: Stream)
    ensures Flatten(s) == b
  {
    FlattenOne(b);
    [b]
  }
}
