/** The Huffman container: `huffmanCompress` and `huffmanDecompress` in
    server/index.js. A blob is a 4-byte big-endian table length, the table
    as JSON text, then the packed code bits. */
module Huffman {
  import opened Bytes
  import opened BitPacking
  import opened HuffmanTree
  import opened HuffmanCodes

  /** `JSON.stringify` of a frequency object to UTF-8 bytes, and
      `JSON.parse` of UTF-8 bytes back to one (`None` where it throws). The
      JSON text format is not part of this model. */
  datatype TableCodec = TableCodec(stringify: FreqMap -> seq<Byte>, parse: seq<Byte> -> Option<FreqMap>)

  /** The codec reads back the table it wrote, and the text fits the
      32-bit length field. */
  ghost predicate Faithful(c: TableCodec, m: FreqMap)
  {
    c.parse(c.stringify(m)) == Some(m) && |c.stringify(m)| < TWO_32
  }

  /** Every input byte has a code in the table built from the input. */
  lemma CodesCoverInput(b: seq<Byte>)
    ensures forall k :: 0 <= k < |b| ==> b[k] in CodesOf(BuildHuffmanTree(BuildFrequencyMap(b)))
  {
    if b != [] {
      InputLeaves(b);
    }
  }

  /** The code bits of `b` under the codes of its own table. */
  function EncodedBits(b: seq<Byte>): seq<bool>
  {
    CodesCoverInput(b);
    EncodeBits(b, CodesOf(BuildHuffmanTree(BuildFrequencyMap(b))))
  }

  /** `huffmanCompress(buffer)`. `writeUInt32BE` throws a `RangeError` when
      the table text is 2^32 bytes or longer; otherwise the blob is the
      length field, the table text and the packed bits, and the length
      field reads back as the length of the table text that follows it. */
  function Compress(c: TableCodec, b: seq<Byte>): (r: Result<seq<Byte>, Thrown>)
    ensures r.Err? <==> |c.stringify(BuildFrequencyMap(b))| >= TWO_32
    ensures r.Err? ==> r.error == RangeError
    ensures r.Ok? ==> |r.value| >= 5 && ReadUInt32BE(r.value) == |c.stringify(BuildFrequencyMap(b))|
  {
    var table := c.stringify(BuildFrequencyMap(b));
    if |table| >= TWO_32 then Err(RangeError)
    else
      UInt32BERoundTrip(|table|);
      Ok(UInt32BE(|table|) + table + Pack(EncodedBits(b)))
  }

  /** Where the table text ends: `4 + freqLen`, clamped to the blob as
      `slice` does. */
  function TableEnd(blob: seq<Byte>): (e: nat)
    requires |blob| >= 4
    ensures 4 <= e <= |blob|
  {
    var len := ReadUInt32BE(blob);
    if 4 + len <= |blob| then 4 + len else |blob|
  }

  /** `huffmanDecompress(buffer)`: `readUInt32BE(0)` throws a `RangeError`
      on fewer than 4 bytes; a table that does not parse throws a
      `SyntaxError`; otherwise the tree is rebuilt from the table and walked
      along the unpacked bits. */
  function Decompress(c: TableCodec, blob: seq<Byte>): (r: Result<seq<Byte>, Thrown>)
    ensures |blob| < 4 ==> r == Err(RangeError)
    ensures |blob| >= 4 && c.parse(blob[4..TableEnd(blob)]).None? ==> r == Err(SyntaxError)
  {
    if |blob| < 4 then Err(RangeError)
    else
      var end := TableEnd(blob);
      match c.parse(blob[4..end])
      case None => Err(SyntaxError)
      case Some(freq) => DecodeBits(BuildHuffmanTree(freq), Unpack(blob[end..]))
  }

  /** A compressed blob splits back into the table text and the packed bits. */
  lemma Framing(c: TableCodec, b: seq<Byte>)
    requires Compress(c, b).Ok?
    ensures var blob := Compress(c, b).value;
      var table := c.stringify(BuildFrequencyMap(b));
      && TableEnd(blob) == 4 + |table|
      && blob[4..TableEnd(blob)] == table
      && blob[TableEnd(blob)..] == Pack(EncodedBits(b))
  {
    var table := c.stringify(BuildFrequencyMap(b));
    var blob := Compress(c, b).value;
    assert blob == UInt32BE(|table|) + table + Pack(EncodedBits(b));
    assert blob[4..4 + |table|] == table;
    assert blob[4 + |table|..] == Pack(EncodedBits(b));
  }

  /** The packed bits of an input round-trip through the container. */
  lemma DecompressOfCompress(c: TableCodec, b: seq<Byte>)
    requires Faithful(c, BuildFrequencyMap(b))
    ensures Compress(c, b).Ok?
    ensures Decompress(c, Compress(c, b).value)
         == DecodeBits(BuildHuffmanTree(BuildFrequencyMap(b)), EncodedBits(b))
  {
    Framing(c, b);
    PackRoundTrip(EncodedBits(b));
  }

  lemma SubsetCard(a: set<Byte>, s: set<Byte>)
    requires a <= s
    ensures |a| <= |s|
  {
    assert s == a + (s - a);
  }

  /** The table of a non-empty input has one key exactly when all its
      bytes are equal. */
  lemma OneKey(b: seq<Byte>)
    requires b != []
    ensures |BuildFrequencyMap(b).Keys| == 1 <==> forall k :: 0 <= k < |b| ==> b[k] == b[0]
  {
    var keys := BuildFrequencyMap(b).Keys;
    assert b[0] in keys by {
      assert b[0] in b;
    }
    if k :| 0 <= k < |b| && b[k] != b[0] {
      assert b[k] in keys by {
        assert b[k] in b;
      }
      SubsetCard({b[0], b[k]}, keys);
    } else {
      assert keys == {b[0]} by {
        forall v | v in keys ensures v == b[0] {
          assert v in b;
        }
      }
    }
  }

  /** Every byte of the input sits at a leaf of the tree built from its
      table, whose root weight is the input length. */
  lemma InputLeaves(b: seq<Byte>)
    requires b != []
    ensures BuildHuffmanTree(BuildFrequencyMap(b)).Some?
    ensures BuildHuffmanTree(BuildFrequencyMap(b)).value.freq == |b|
    ensures forall k :: 0 <= k < |b| ==> b[k] in LeafSet(BuildHuffmanTree(BuildFrequencyMap(b)).value)
  {
    TreeOfInput(b);
    var t := BuildHuffmanTree(BuildFrequencyMap(b)).value;
    forall k | 0 <= k < |b| ensures b[k] in LeafSet(t) {
      assert b[k] in b;
      assert b[k] in multiset(Leaves(t));
      LeafSetLeaves(t, b[k]);
    }
  }

  /** The tree of an input is a single leaf exactly when the input repeats
      one byte. */
  lemma InputTreeShape(b: seq<Byte>)
    requires b != []
    ensures BuildHuffmanTree(BuildFrequencyMap(b)).Some?
    ensures BuildHuffmanTree(BuildFrequencyMap(b)).value.Leaf?
        <==> forall k :: 0 <= k < |b| ==> b[k] == b[0]
  {
    var m := BuildFrequencyMap(b);
    assert m != map[] by {
      assert b[0] in b;
    }
    HuffmanTreeSpec(m);
    OneKey(b);
  }

  /** The tree walk decodes the code bits of every input with no or at
      least two distinct bytes. */
  lemma DecodeOfInput(b: seq<Byte>)
    requires b == [] || exists k :: 0 <= k < |b| && b[k] != b[0]
    ensures DecodeBits(BuildHuffmanTree(BuildFrequencyMap(b)), EncodedBits(b)) == Ok(b)
  {
    if b == [] {
      EntriesFromEmpty(0);
      assert BuildHuffmanTree(BuildFrequencyMap(b)) == None;
    } else {
      InputLeaves(b);
      InputTreeShape(b);
      DecodeEncode(BuildHuffmanTree(BuildFrequencyMap(b)).value, b);
    }
  }

  /** Round trip for every input with no or at least two distinct bytes,
      given a table codec that reads back what it writes. */
  lemma RoundTrip(c: TableCodec, b: seq<Byte>)
    requires Faithful(c, BuildFrequencyMap(b))
    requires b == [] || exists k :: 0 <= k < |b| && b[k] != b[0]
    ensures Compress(c, b).Ok?
    ensures Decompress(c, Compress(c, b).value) == Ok(b)
  {
    DecompressOfCompress(c, b);
    DecodeOfInput(b);
  }

  /** With one distinct byte the tree is a single leaf carrying the byte
      and the input length, and the code bits are empty. */
  lemma SingleSymbolBits(b: seq<Byte>)
    requires b != [] && forall k :: 0 <= k < |b| ==> b[k] == b[0]
    ensures BuildHuffmanTree(BuildFrequencyMap(b)) == Some(Leaf(b[0], |b|))
    ensures EncodedBits(b) == []
  {
    InputLeaves(b);
    InputTreeShape(b);
    var t := BuildHuffmanTree(BuildFrequencyMap(b)).value;
    assert t == Leaf(b[0], |b|) by {
      assert b[0] in LeafSet(t);
    }
    SingleLeafEncodesEmpty(b[0], |b|, b);
  }

  /** With one distinct byte the packed bits are the lone padding byte 0,
      and decompression yields nothing: the input is lost. */
  lemma SingleSymbolLost(c: TableCodec, b: seq<Byte>)
    requires Faithful(c, BuildFrequencyMap(b))
    requires b != [] && forall k :: 0 <= k < |b| ==> b[k] == b[0]
    ensures Compress(c, b).Ok?
    ensures Pack(EncodedBits(b)) == [0]
    ensures Decompress(c, Compress(c, b).value) == Ok([])
  {
    var tree := BuildHuffmanTree(BuildFrequencyMap(b));
    var bits := EncodedBits(b);
    assert tree == Some(Leaf(b[0], |b|)) && bits == [] by {
      SingleSymbolBits(b);
    }
    DecompressOfCompress(c, b);
  }

  /** Concretely: three bytes "AAA" come back as the empty buffer. */
  lemma SingleSymbolExample(c: TableCodec)
    requires Faithful(c, BuildFrequencyMap([65, 65, 65]))
    ensures Compress(c, [65, 65, 65]).Ok?
    ensures Decompress(c, Compress(c, [65, 65, 65]).value) == Ok([])
  {
    SingleSymbolLost(c, [65, 65, 65]);
  }

  /** The decoding walk with the single-leaf case repaired: a tree that is
      one leaf stands for `freq` copies of its byte. */
  function DecodeBitsFixed(tree: Option<Tree>, bits: seq<bool>): (r: Result<seq<Byte>, Thrown>)
    ensures tree.Some? && tree.value.Node? ==> r == DecodeBits(tree, bits)
    ensures tree.Some? && tree.value.Leaf? && bits == [] ==> r.Ok? && |r.value| == tree.value.freq
  {
    match tree
    case Some(Leaf(v, f)) => if bits == [] then Ok(seq(f, _ => v)) else Err(TypeError)
    case _ => DecodeBits(tree, bits)
  }

  /** `huffmanDecompress` with the repaired walk. */
  function DecompressFixed(c: TableCodec, blob: seq<Byte>): (r: Result<seq<Byte>, Thrown>)
    ensures |blob| < 4 ==> r == Err(RangeError)
  {
    if |blob| < 4 then Err(RangeError)
    else
      var end := TableEnd(blob);
      match c.parse(blob[4..end])
      case None => Err(SyntaxError)
      case Some(freq) => DecodeBitsFixed(BuildHuffmanTree(freq), Unpack(blob[end..]))
  }

  lemma DecompressFixedOfCompress(c: TableCodec, b: seq<Byte>)
    requires Faithful(c, BuildFrequencyMap(b))
    ensures Compress(c, b).Ok?
    ensures DecompressFixed(c, Compress(c, b).value)
         == DecodeBitsFixed(BuildHuffmanTree(BuildFrequencyMap(b)), EncodedBits(b))
  {
    Framing(c, b);
    PackRoundTrip(EncodedBits(b));
  }

  /** The repaired walk decodes the code bits of every input. */
  lemma DecodeFixedOfInput(b: seq<Byte>)
    ensures DecodeBitsFixed(BuildHuffmanTree(BuildFrequencyMap(b)), EncodedBits(b)) == Ok(b)
  {
    var tree := BuildHuffmanTree(BuildFrequencyMap(b));
    var bits := EncodedBits(b);
    if b != [] && forall k :: 0 <= k < |b| ==> b[k] == b[0] {
      SingleSymbolBits(b);
      assert b == seq(|b|, _ => b[0]);
    } else {
      DecodeOfInput(b);
      if b != [] {
        InputTreeShape(b);
      } else {
        EntriesFromEmpty(0);
      }
    }
  }

  /** With the repaired walk every input round-trips. */
  lemma RoundTripFixed(c: TableCodec, b: seq<Byte>)
    requires Faithful(c, BuildFrequencyMap(b))
    ensures Compress(c, b).Ok?
    ensures DecompressFixed(c, Compress(c, b).value) == Ok(b)
  {
    DecompressFixedOfCompress(c, b);
    DecodeFixedOfInput(b);
  }
}
