/** Machine integers, network byte order and the byte-stream reader shared by
    the vector protocol. A socket read of k bytes is modelled as taking the
    first k bytes of the remaining input: it succeeds iff k bytes remain. */
module Wire {
  import opened Wrappers
  import opened Sequences

  type byte = x: int | 0 <= x < 0x100
  type uint32 = x: int | 0 <= x < 0x1_0000_0000
  type uint64 = x: int | 0 <= x < 0x1_0000_0000_0000_0000

  /** std::numeric_limits<uint32_t>::max() */
  const UINT32_MAX: uint32 := 0xFFFF_FFFF

  /** A successful read: the decoded value and the input still unread. */
  datatype Read<+T> = Read(value: T, rest: seq<byte>)

  /** htonl: the four bytes of `x`, most significant first. */
  function EncodeU32(x: uint32): (b: seq<byte>)
    ensures |b| == 4
  {
    [x / 0x100_0000, (x / 0x1_0000) % 0x100, (x / 0x100) % 0x100, x % 0x100]
  }

  /** ntohl over four received bytes. */
  function DecodeU32(b: seq<byte>): uint32
    requires |b| == 4
  {
    (b[0] as int) * 0x100_0000 + (b[1] as int) * 0x1_0000 + (b[2] as int) * 0x100 + (b[3] as int)
  }

  /** Every four bytes are the wire form of the word they decode to. */
  lemma EncodeDecodeU32(b: seq<byte>)
    requires |b| == 4
    ensures EncodeU32(DecodeU32(b)) == b
  {
    DigitsOfWord(DecodeU32(b), b[0], b[1], b[2], b[3]);
  }

  /** Euclidean division is determined by quotient and remainder. */
  lemma DivModUnique(x: int, k: int, q: int, r: int)
    requires 0 < k && 0 <= r < k && x == q * k + r
    ensures x / k == q && x % k == r
  {
    var d := q - x / k;
    assert d * k == x % k - r;
    MulAtLeastOne(d, k);
  }

  lemma MulAtLeastOne(d: int, k: int)
    requires 0 < k
    ensures d >= 1 ==> d * k >= k
    ensures d <= -1 ==> d * k <= -k
  {
    if d >= 1 {
      assert d * k == (d - 1) * k + k;
    } else if d <= -1 {
      assert d * k == (d + 1) * k - k;
    }
  }

  lemma DigitsOfWord(x: int, a: byte, b: byte, c: byte, d: byte)
    requires x == a * 0x100_0000 + b * 0x1_0000 + c * 0x100 + d
    ensures 0 <= x < 0x1_0000_0000
    ensures x / 0x100_0000 == a
    ensures (x / 0x1_0000) % 0x100 == b
    ensures (x / 0x100) % 0x100 == c
    ensures x % 0x100 == d
  {
    DivModUnique(x, 0x100_0000, a, b * 0x1_0000 + c * 0x100 + d);
    DivModUnique(x, 0x1_0000, a * 0x100 + b, c * 0x100 + d);
    DivModUnique(a * 0x100 + b, 0x100, a, b);
    DivModUnique(x, 0x100, a * 0x1_0000 + b * 0x100 + c, d);
    DivModUnique(a * 0x1_0000 + b * 0x100 + c, 0x100, a * 0x100 + b, c);
  }

  lemma DecodeEncodeU32(x: uint32)
    ensures DecodeU32(EncodeU32(x)) == x
  {
    var b := EncodeU32(x);
    var a1 := x / 0x100;
    var a2 := a1 / 0x100;
    assert x == a1 * 0x100 + b[3];
    assert a1 == a2 * 0x100 + b[2];
    assert a2 == (b[0] as int) * 0x100 + b[1];
  }

  /** EncodeU32 is injective: distinct words never share a wire form. */
  lemma EncodeU32Injective(x: uint32, y: uint32)
    requires EncodeU32(x) == EncodeU32(y)
    ensures x == y
  {
    DecodeEncodeU32(x);
    DecodeEncodeU32(y);
  }

  /** recv of one big-endian uint32. */
  function ReadU32(s: seq<byte>): (r: Option<Read<uint32>>)
    ensures r.Some? <==> |s| >= 4
    ensures r.Some? ==> s == EncodeU32(r.value.value) + r.value.rest
  {
    if |s| < 4 then None
    else
      var x := DecodeU32(s[..4]);
      EncodeDecodeU32(s[..4]);
      assert s == s[..4] + s[4..];
      Some(Read(x, s[4..]))
  }

  lemma ReadEncodedU32(x: uint32, rest: seq<byte>)
    ensures ReadU32(EncodeU32(x) + rest) == Some(Read(x, rest))
  {
    var s := EncodeU32(x) + rest;
    assert s[..4] == EncodeU32(x);
    assert s[4..] == rest;
    DecodeEncodeU32(x);
  }

  /** The wire form of a sequence of words (the `htonl` loop of
      sendResults): each word's four big-endian bytes at offset 4*i. */
  function EncodeWords(ws: seq<uint32>): (b: seq<byte>)
    ensures |b| == 4 * |ws|
    ensures forall i :: 0 <= i < |ws| ==> b[4 * i .. 4 * i + 4] == EncodeU32(ws[i])
  {
    if |ws| == 0 then []
    else
      var tail := EncodeWords(ws[1..]);
      var b := EncodeU32(ws[0]) + tail;
      assert forall i :: 1 <= i < |ws| ==> b[4 * i .. 4 * i + 4] == tail[4 * (i - 1) .. 4 * (i - 1) + 4];
      b
  }

  /** Decodes `n` big-endian words from the first 4*n bytes of `s`. */
  function DecodeWords(s: seq<byte>, n: nat): (ws: seq<uint32>)
    requires |s| >= 4 * n
    ensures |ws| == n
    ensures EncodeWords(ws) == s[..4 * n]
  {
    if n == 0 then []
    else
      var w, tail := DecodeU32(s[..4]), DecodeWords(s[4..], n - 1);
      EncodeDecodeU32(s[..4]);
      EncodeWordsCons(w, tail);
      assert s[..4 * n] == s[..4] + s[4..][..4 * (n - 1)];
      [w] + tail
  }

  lemma EncodeWordsCons(w: uint32, ws: seq<uint32>)
    ensures EncodeWords([w] + ws) == EncodeU32(w) + EncodeWords(ws)
  {
    assert ([w] + ws)[1..] == ws;
  }

  /** Decoding an encoded word sequence gives it back. */
  lemma {:induction false} DecodeEncodeWords(ws: seq<uint32>, rest: seq<byte>)
    ensures DecodeWords(EncodeWords(ws) + rest, |ws|) == ws
  {
    if |ws| > 0 {
      var w, tail := ws[0], ws[1..];
      var after := EncodeWords(tail) + rest;
      var s := EncodeWords(ws) + rest;
      assert ws == [w] + tail;
      EncodeWordsCons(w, tail);
      ConcatAssoc(EncodeU32(w), EncodeWords(tail), rest);
      assert s[..4] == EncodeU32(w);
      assert s[4..] == after;
      DecodeEncodeU32(w);
      DecodeEncodeWords(tail, rest);
    }
  }
}
