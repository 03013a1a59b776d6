/** The Huffman bit string and its byte packing: `binaryStringToBuffer` and
    `bufferToBinaryString` in server/index.js. A bit string is a
    `seq<bool>` with `true` for the character '1'. */
module BitPacking {
  import opened Bytes

  /** `x.toString(2).padStart(n, '0')` for `x < 2^n`: the `n` low bits of
      `x`, most significant first. */
  function ToBits(x: nat, n: nat): (bits: seq<bool>)
    ensures |bits| == n
  {
    if n == 0 then [] else ToBits(x / 2, n - 1) + [x % 2 == 1]
  }

  /** `parseInt(bits, 2)`: the bits read as a binary numeral. */
  function FromBits(bits: seq<bool>): nat
  {
    if bits == [] then 0 else 2 * FromBits(bits[..|bits| - 1]) + (if bits[|bits| - 1] then 1 else 0)
  }

  function Pow2(n: nat): (p: nat)
    ensures p >= 1
  {
    if n == 0 then 1 else 2 * Pow2(n - 1)
  }

  /** A numeral of `n` bits is below `2^n`. */
  lemma {:induction false} FromBitsBound(bits: seq<bool>)
    ensures FromBits(bits) < Pow2(|bits|)
  {
    if bits != [] {
      FromBitsBound(bits[..|bits| - 1]);
    }
  }

  /** Writing a number in `n` bits and reading it back gives the number. */
  lemma {:induction false} FromToBits(x: nat, n: nat)
    requires x < Pow2(n)
    ensures FromBits(ToBits(x, n)) == x
  {
    if n > 0 {
      var bits := ToBits(x, n);
      assert bits[..n - 1] == ToBits(x / 2, n - 1);
      FromToBits(x / 2, n - 1);
    }
  }

  /** Reading a bit string as a number and writing it back in as many bits
      gives the bit string. */
  lemma {:induction false} ToFromBits(bits: seq<bool>)
    ensures ToBits(FromBits(bits), |bits|) == bits
  {
    if bits != [] {
      var init := bits[..|bits| - 1];
      ToFromBits(init);
      var x := FromBits(bits);
      assert x / 2 == FromBits(init);
      assert bits == init + [bits[|bits| - 1]];
    }
  }

  /** `parseInt(byteStr, 2)` of one 8-character slice. */
  function ByteOf(bits: seq<bool>): (x: Byte)
    requires |bits| == 8
  {
    FromBitsBound(bits);
    FromBits(bits)
  }

  /** `buffer[i].toString(2).padStart(8, '0')`. */
  function BitsOf(x: Byte): (bits: seq<bool>)
    ensures |bits| == 8
  {
    ToBits(x, 8)
  }

  /** The 8-bit groups of a bit string whose length is a multiple of 8. */
  function Chunks(bits: seq<bool>): (r: seq<Byte>)
    requires |bits| % 8 == 0
    ensures |r| == |bits| / 8
    decreases |bits|
  {
    if bits == [] then [] else [ByteOf(bits[..8])] + Chunks(bits[8..])
  }

  /** The bits of a byte sequence, 8 per byte, concatenated. */
  function Unchunk(bytes: seq<Byte>): (bits: seq<bool>)
    ensures |bits| == 8 * |bytes|
  {
    if bytes == [] then [] else BitsOf(bytes[0]) + Unchunk(bytes[1..])
  }

  /** Unpacking the groups gives back the bits they were packed from. */
  lemma {:induction false} UnchunkChunks(bits: seq<bool>)
    requires |bits| % 8 == 0
    ensures Unchunk(Chunks(bits)) == bits
    decreases |bits|
  {
    if bits != [] {
      var c := Chunks(bits);
      assert c[1..] == Chunks(bits[8..]);
      ToFromBits(bits[..8]);
      UnchunkChunks(bits[8..]);
      assert bits == bits[..8] + bits[8..];
    }
  }

  /** Packing the bits of some bytes gives back the bytes. */
  lemma {:induction false} ChunksUnchunk(bytes: seq<Byte>)
    ensures Chunks(Unchunk(bytes)) == bytes
  {
    if bytes != [] {
      var bits := Unchunk(bytes);
      assert bits[..8] == BitsOf(bytes[0]);
      assert bits[8..] == Unchunk(bytes[1..]);
      FromToBits(bytes[0], 8);
      ChunksUnchunk(bytes[1..]);
    }
  }

  /** Zero bits appended so the length becomes a multiple of 8. */
  function PaddingOf(n: nat): (p: nat)
    ensures p < 8 && (n + p) % 8 == 0
  {
    (8 - n % 8) % 8
  }

  /** `binaryStringToBuffer(bitString)`: a padding-count byte, then the bits
      padded with zeros and packed eight to a byte, first bit highest. */
  function Pack(bits: seq<bool>): (r: seq<Byte>)
    ensures |r| == 1 + (|bits| + 7) / 8
    ensures r[0] < 8 && (|bits| + r[0]) % 8 == 0
  {
    var padding := PaddingOf(|bits|);
    [padding] + Chunks(bits + seq(padding, _ => false))
  }

  /** The end index of `s.slice(0, end)` on a string of length `len`: a
      negative end counts back from the end of the string. */
  function SliceEnd(len: nat, end: int): (e: nat)
    ensures e <= len
  {
    if end < 0 then (if len + end < 0 then 0 else len + end)
    else if end > len then len
    else end
  }

  /** `bufferToBinaryString(buffer)`: the bits of every byte after the first,
      less as many trailing bits as the first byte says. On an empty buffer
      the padding is `undefined`, the slice end is `NaN`, and the result is
      the empty string. */
  function Unpack(buffer: seq<Byte>): (bits: seq<bool>)
  {
    if buffer == [] then []
    else
      var all := Unchunk(buffer[1..]);
      all[..SliceEnd(|all|, |all| - buffer[0])]
  }

  /** Round trip: `bufferToBinaryString(binaryStringToBuffer(s)) == s`. */
  lemma PackRoundTrip(bits: seq<bool>)
    ensures Unpack(Pack(bits)) == bits
  {
    var padding := PaddingOf(|bits|);
    var padded := bits + seq(padding, _ => false);
    var packed := Pack(bits);
    assert packed[1..] == Chunks(padded);
    UnchunkChunks(padded);
    assert padded[..|bits|] == bits;
  }

  /** The buffers `binaryStringToBuffer` can produce: a padding count below 8
      (0 when there are no data bytes) and that many zero bits at the end. */
  ghost predicate WellPacked(buffer: seq<Byte>)
  {
    && |buffer| >= 1
    && buffer[0] < 8
    && (|buffer| == 1 ==> buffer[0] == 0)
    && var all := Unchunk(buffer[1..]);
       forall k :: |all| - buffer[0] <= k < |all| ==> !all[k]
  }

  /** Dropping `p < 8` bits from a whole number of bytes leaves a length
      that needs exactly `p` bits of padding. */
  lemma PaddingOfComplement(k: nat, p: nat)
    requires p < 8 && p <= 8 * k
    ensures PaddingOf(8 * k - p) == p
  {
    if p > 0 {
      assert 8 * k - p == 8 * (k - 1) + (8 - p);
    }
  }

  /** The converse round trip: every well-packed buffer is the packing of
      the bits it unpacks to. */
  lemma UnpackRoundTrip(buffer: seq<Byte>)
    requires WellPacked(buffer)
    ensures Pack(Unpack(buffer)) == buffer
  {
    var all := Unchunk(buffer[1..]);
    var p := buffer[0] as nat;
    var bits := Unpack(buffer);
    assert p <= |all| && bits == all[..|all| - p] by {
      assert |all| == 8 * (|buffer| - 1);
    }
    assert PaddingOf(|bits|) == p by {
      PaddingOfComplement(|buffer| - 1, p);
    }
    assert bits + seq(p, _ => false) == all;
    assert Pack(bits) == [p] + Chunks(all);
    ChunksUnchunk(buffer[1..]);
  }
}
