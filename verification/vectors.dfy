/** The post-authentication vector protocol (VectorProcessor::processVectors,
    receiveVector and sendResults). The client's bytes after "OK" are one
    stream; every read takes a fixed number of bytes off its front. */
module VectorProtocol {
  import opened Wrappers
  import opened Sequences
  import opened Wire
  import opened Product

  /** A vector whose length fits the 32-bit length field. */
  type Vector = v: seq<uint32> | |v| <= UINT32_MAX

  /** A batch read off the stream: the vectors decoded, in order, the input
      left after them, and whether all announced vectors arrived. */
  datatype Batch = Batch(vectors: seq<Vector>, rest: seq<byte>, complete: bool)

  /** What the client sends for one vector: its length, then its elements. */
  function EncodeVector(v: Vector): (b: seq<byte>)
    ensures |b| == 4 + 4 * |v|
  {
    EncodeU32(|v|) + EncodeWords(v)
  }

  /** What the client sends for a sequence of vectors, one after the other. */
  function EncodeVectors(vs: seq<Vector>): seq<byte>
  {
    if |vs| == 0 then [] else EncodeVector(vs[0]) + EncodeVectors(vs[1..])
  }

  lemma EncodeVectorsCons(v: Vector, vs: seq<Vector>, rest: seq<byte>)
    ensures EncodeVectors([v] + vs) + rest == EncodeVector(v) + (EncodeVectors(vs) + rest)
  {
    assert ([v] + vs)[1..] == vs;
  }

  /** receiveVector: a big-endian length, then that many big-endian elements.
      A length of 0 succeeds at once and reads no element bytes; otherwise
      the read succeeds iff all 4*length element bytes are there. */
  function ReceiveVector(s: seq<byte>): (r: Option<Read<Vector>>)
    ensures r.Some? <==> |s| >= 4 && |s| - 4 >= 4 * DecodeU32(s[..4])
    ensures r.Some? ==> |r.value.value| == DecodeU32(s[..4])
    ensures r.Some? ==> s == EncodeVector(r.value.value) + r.value.rest
  {
    match ReadU32(s)
    case None => None
    case Some(Read(size, rest)) =>
      assert s[..4] == EncodeU32(size) && DecodeU32(s[..4]) == size by {
        assert s[..4] == (EncodeU32(size) + rest)[..4];
        DecodeEncodeU32(size);
      }
      if size == 0 then
        Some(Read([], rest))
      else if |rest| < 4 * size then
        None
      else
        var v := DecodeWords(rest, size);
        assert rest == rest[..4 * size] + rest[4 * size..];
        Some(Read(v, rest[4 * size..]))
  }

  /** Decoding is the inverse of the client's encoding, whatever follows. */
  lemma ReceiveEncodedVector(v: Vector, rest: seq<byte>)
    ensures ReceiveVector(EncodeVector(v) + rest) == Some(Read(v, rest))
  {
    var s := EncodeVector(v) + rest;
    assert s == EncodeU32(|v|) + (EncodeWords(v) + rest);
    ReadEncodedU32(|v|, EncodeWords(v) + rest);
    DecodeEncodeWords(v, rest);
    var after := EncodeWords(v) + rest;
    assert after[4 * |v|..] == rest;
  }

  /** Something that takes one vector off the front of the input, or fails. */
  type VectorReader = seq<byte> -> Option<Read<Vector>>

  /** The reader consumes exactly the wire form of the vector it returns. */
  ghost predicate Consumes(read: VectorReader)
  {
    forall s :: read(s).Some? ==> s == EncodeVector(read(s).value.value) + read(s).value.rest
  }

  /** The reader gives back every vector sent in full, whatever follows. */
  ghost predicate Inverts(read: VectorReader)
  {
    forall v, rest :: read(EncodeVector(v) + rest) == Some(Read(v, rest))
  }

  /** The loop of processVectors: up to `n` vectors, in order, stopping at
      the first one that `read` cannot take. */
  function ReadBatch(read: VectorReader, s: seq<byte>, n: nat): (b: Batch)
    ensures |b.vectors| <= n
    ensures b.complete <==> |b.vectors| == n
    ensures !b.complete ==> read(b.rest).None?
    decreases n
  {
    if n == 0 then Batch([], s, true)
    else match read(s)
      case None => Batch([], s, false)
      case Some(Read(v, rest)) =>
        var tail := ReadBatch(read, rest, n - 1);
        Batch([v] + tail.vectors, tail.rest, tail.complete)
  }

  /** The vectors read, followed by what is left, are the input. */
  lemma {:induction false} ReadBatchConsumes(read: VectorReader, s: seq<byte>, n: nat)
    requires Consumes(read)
    ensures var b := ReadBatch(read, s, n); s == EncodeVectors(b.vectors) + b.rest
    decreases n
  {
    if n > 0 && read(s).Some? {
      var rest := read(s).value.rest;
      var tail := ReadBatch(read, rest, n - 1);
      ReadBatchConsumes(read, rest, n - 1);
      EncodeVectorsCons(read(s).value.value, tail.vectors, tail.rest);
    }
  }

  /** Reading vectors that were sent in full yields exactly those vectors;
      the batch is complete iff all `n` were sent, and otherwise stops where
      the input no longer holds a whole vector. */
  lemma {:induction false} ReadBatchInverts(read: VectorReader, vs: seq<Vector>, tail: seq<byte>, n: nat)
    requires Inverts(read)
    requires |vs| <= n
    requires |vs| < n ==> read(tail).None?
    ensures ReadBatch(read, EncodeVectors(vs) + tail, n) == Batch(vs, tail, |vs| == n)
  {
    if |vs| == 0 {
      assert EncodeVectors(vs) + tail == tail;
    } else {
      ReadBatchInverts(read, vs[1..], tail, n - 1);
      ReadBatchCons(read, vs, tail, n);
    }
  }

  /** One iteration of the loop over a fully sent first vector. */
  lemma ReadBatchCons(read: VectorReader, vs: seq<Vector>, tail: seq<byte>, n: nat)
    requires Inverts(read)
    requires 0 < |vs| <= n
    requires ReadBatch(read, EncodeVectors(vs[1..]) + tail, n - 1) == Batch(vs[1..], tail, |vs[1..]| == n - 1)
    ensures ReadBatch(read, EncodeVectors(vs) + tail, n) == Batch(vs, tail, |vs| == n)
  {
    EncodeVectorsCons(vs[0], vs[1..], tail);
    assert [vs[0]] + vs[1..] == vs;
  }

  lemma ReceiveVectorConsumes()
    ensures Consumes(ReceiveVector)
  {
  }

  lemma ReceiveVectorInverts()
    ensures Inverts(ReceiveVector)
  {
    forall v: Vector, rest: seq<byte>
      ensures ReceiveVector(EncodeVector(v) + rest) == Some(Read(v, rest))
    {
      ReceiveEncodedVector(v, rest);
    }
  }

  /** The loop of processVectors with receiveVector. */
  function ReceiveBatch(s: seq<byte>, n: nat): (b: Batch)
    ensures |b.vectors| <= n
    ensures b.complete <==> |b.vectors| == n
    ensures s == EncodeVectors(b.vectors) + b.rest
    ensures !b.complete ==> ReceiveVector(b.rest).None?
  {
    ReceiveVectorConsumes();
    ReadBatchConsumes(ReceiveVector, s, n);
    ReadBatch(ReceiveVector, s, n)
  }

  /** Vectors sent in full are received as sent; the batch is complete iff
      all `n` were sent, and otherwise stops where the input no longer holds
      a whole vector. */
  lemma ReceiveEncodedBatch(vs: seq<Vector>, tail: seq<byte>, n: nat)
    requires |vs| <= n
    requires |vs| < n ==> ReceiveVector(tail).None?
    ensures ReceiveBatch(EncodeVectors(vs) + tail, n) == Batch(vs, tail, |vs| == n)
  {
    ReceiveVectorInverts();
    ReadBatchInverts(ReceiveVector, vs, tail, n);
  }

  /** One saturating product per vector, in order. */
  function Products(vs: seq<Vector>): (rs: seq<uint32>)
    ensures |rs| == |vs|
    ensures forall i :: 0 <= i < |vs| ==> rs[i] == SaturatingProduct(vs[i])
  {
    seq(|vs|, i requires 0 <= i < |vs| => SaturatingProduct(vs[i]))
  }

  /** The body of the loop of processVectors: computeProduct of every vector
      received, pushed onto the results in order. */
  method ComputeProducts(vs: seq<Vector>) returns (rs: seq<uint32>)
    ensures rs == Products(vs)
  {
    rs := [];
    var i := 0;
    while i < |vs|
      invariant 0 <= i <= |vs|
      invariant |rs| == i
      invariant forall j :: 0 <= j < i ==> rs[j] == SaturatingProduct(vs[j])
    {
      var p := ComputeProduct(vs[i]);
      rs := rs + [p];
      i := i + 1;
    }
  }

  /** sendResults: the count, then every result, all big-endian. */
  function SendResults(rs: seq<uint32>): (out: seq<byte>)
    requires |rs| <= UINT32_MAX
    ensures |out| == 4 + 4 * |rs|
    ensures out[..4] == EncodeU32(|rs|)
    ensures forall i :: 0 <= i < |rs| ==> out[4 + 4 * i .. 8 + 4 * i] == EncodeU32(rs[i])
  {
    var out := EncodeU32(|rs|) + EncodeWords(rs);
    assert forall i :: 0 <= i < |rs| ==> out[4 + 4 * i .. 8 + 4 * i] == EncodeWords(rs)[4 * i .. 4 * i + 4];
    out
  }

  /** How the test client reads a reply: a count, then that many words. */
  function DecodeResults(s: seq<byte>): Option<seq<uint32>>
  {
    match ReadU32(s)
    case None => None
    case Some(Read(n, rest)) =>
      if |rest| < 4 * n then None else Some(DecodeWords(rest, n))
  }

  /** A reply decodes to the results it was built from. */
  lemma ResultsRoundTrip(rs: seq<uint32>)
    requires |rs| <= UINT32_MAX
    ensures DecodeResults(SendResults(rs)) == Some(rs)
  {
    ReadEncodedU32(|rs|, EncodeWords(rs));
    DecodeEncodeWords(rs, []);
    assert EncodeWords(rs) + [] == EncodeWords(rs);
  }

  /** The reply to the vectors that were read: the count and products of all
      of them, or nothing at all when there are none. */
  function Reply(vs: seq<Vector>): (out: seq<byte>)
    requires |vs| <= UINT32_MAX
    ensures |vs| == 0 <==> out == []
  {
    if |vs| == 0 then [] else SendResults(Products(vs))
  }

  /** processVectors: the bytes sent back for the whole input stream. A
      failed count read sends nothing; a failed vector read ends the loop
      but the results so far are still sent; an empty result list (also
      N = 0) sends nothing at all. */
  function ProcessVectors(s: seq<byte>): (out: seq<byte>)
    ensures |s| < 4 ==> out == []
  {
    match ReadU32(s)
    case None => []
    case Some(Read(count, rest)) => Reply(ReceiveBatch(rest, count).vectors)
  }

  /** processVectors after a successful count read. */
  lemma ProcessAfterCount(n: uint32, rest: seq<byte>)
    ensures ProcessVectors(EncodeU32(n) + rest) == Reply(ReceiveBatch(rest, n).vectors)
  {
    ReadEncodedU32(n, rest);
  }

  /** Vectors sent in full, `vs`, of the `n` announced: one product per
      vector, in order, or nothing at all when `vs` is empty. When fewer than
      `n` arrive, the input after them must not hold a whole vector (a
      short read) and the results so far are still sent. */
  lemma ProcessBatch(n: uint32, vs: seq<Vector>, tail: seq<byte>)
    requires |vs| <= n
    requires |vs| < n ==> ReceiveVector(tail).None?
    ensures ProcessVectors(EncodeU32(n) + EncodeVectors(vs) + tail)
         == if |vs| == 0 then [] else SendResults(Products(vs))
  {
    var rest := EncodeVectors(vs) + tail;
    ConcatAssoc(EncodeU32(n), EncodeVectors(vs), tail);
    assert ReceiveBatch(rest, n).vectors == vs by {
      ReceiveEncodedBatch(vs, tail, n);
    }
    ProcessAfterCount(n, rest);
  }
}
