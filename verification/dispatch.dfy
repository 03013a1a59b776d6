/** The algorithm selection of the `/compress` and `/decompress` routes in
    server/index.js: the form field `algorithm` names the codec, and the
    route answers with the codec's output or with an error. */
module Dispatch {
  import opened Bytes
  import Rle
  import HuffmanTree
  import Huffman
  import Lz77

  /** The three codecs a name can select. */
  datatype Algorithm = RleCodec | HuffmanCodec | Lz77Codec

  /** Why a route answers with an error instead of a buffer. */
  datatype Failure =
    | UnsupportedAlgorithm               // status 400, no codec is called
    | CompressionFailed(cause: Thrown)   // status 500 from the compress route
    | DecompressionFailed(cause: Thrown) // status 500 from the decompress route

  /** `req.body.algorithm || 'rle'`: an absent or empty field selects "rle",
      any other text is taken as it is. */
  function Selected(field: Option<string>): (name: string)
    ensures name == "rle" <==> (field == None || field == Some("") || field == Some("rle"))
    ensures field.Some? && field.value != "" ==> name == field.value
  {
    match field
    case None => "rle"
    case Some(s) => if s == "" then "rle" else s
  }

  /** The `if`/`else if` chain on `algorithm === …`. */
  function AlgorithmOf(name: string): (a: Option<Algorithm>)
    ensures a == Some(RleCodec) <==> name == "rle"
    ensures a == Some(HuffmanCodec) <==> name == "huffman"
    ensures a == Some(Lz77Codec) <==> name == "lz77"
    ensures a == None <==> name !in {"rle", "huffman", "lz77"}
  {
    if name == "rle" then Some(RleCodec)
    else if name == "huffman" then Some(HuffmanCodec)
    else if name == "lz77" then Some(Lz77Codec)
    else None
  }

  /** The `try` block of `/compress`: the chosen codec's output, a thrown
      error caught as "Compression failed", or "Unsupported algorithm". */
  function CompressRoute(c: Huffman.TableCodec, field: Option<string>, b: seq<Byte>): (r: Result<seq<Byte>, Failure>)
  {
    match AlgorithmOf(Selected(field))
    case None => Err(UnsupportedAlgorithm)
    case Some(RleCodec) => Ok(Rle.Compress(b))
    case Some(Lz77Codec) => Ok(Lz77.Compress(b))
    case Some(HuffmanCodec) =>
      match Huffman.Compress(c, b)
      case Ok(blob) => Ok(blob)
      case Err(e) => Err(CompressionFailed(e))
  }

  /** The `try` block of `/decompress`. */
  function DecompressRoute(c: Huffman.TableCodec, field: Option<string>, blob: seq<Byte>): (r: Result<seq<Byte>, Failure>)
  {
    match AlgorithmOf(Selected(field))
    case None => Err(UnsupportedAlgorithm)
    case Some(RleCodec) => Ok(Rle.Decompress(blob))
    case Some(Lz77Codec) => Ok(Lz77.Decompress(blob))
    case Some(HuffmanCodec) =>
      match Huffman.Decompress(c, blob)
      case Ok(out) => Ok(out)
      case Err(e) => Err(DecompressionFailed(e))
  }

  /** The HTTP status a route answers with. */
  function Status(r: Result<seq<Byte>, Failure>): (code: nat)
    ensures code == 200 <==> r.Ok?
    ensures code == 400 <==> r == Err(UnsupportedAlgorithm)
    ensures code == 500 <==> r.Err? && r.error != UnsupportedAlgorithm
  {
    match r
    case Ok(_) => 200
    case Err(UnsupportedAlgorithm) => 400
    case Err(_) => 500
  }

  // ---------------------------------------------------------------------
  // Properties of the routes.

  /** Without an algorithm field, or with an empty one, both routes behave
      exactly as for "rle". */
  lemma DefaultIsRle(c: Huffman.TableCodec, b: seq<Byte>)
    ensures CompressRoute(c, None, b) == CompressRoute(c, Some(""), b) == Ok(Rle.Compress(b))
    ensures DecompressRoute(c, None, b) == DecompressRoute(c, Some(""), b) == Ok(Rle.Decompress(b))
  {
  }

  /** A route answers "Unsupported algorithm" (status 400) exactly when the
      selected name is none of the three, whatever the file holds. */
  lemma UnsupportedExactly(c: Huffman.TableCodec, field: Option<string>, b: seq<Byte>)
    ensures CompressRoute(c, field, b) == Err(UnsupportedAlgorithm)
        <==> Selected(field) !in {"rle", "huffman", "lz77"}
    ensures DecompressRoute(c, field, b) == Err(UnsupportedAlgorithm)
        <==> Selected(field) !in {"rle", "huffman", "lz77"}
    ensures Status(CompressRoute(c, field, b)) == 400 <==> Selected(field) !in {"rle", "huffman", "lz77"}
  {
  }

  /** The answer to an unsupported name does not depend on the file, so no
      codec has been consulted. */
  lemma UnsupportedIgnoresInput(c: Huffman.TableCodec, field: Option<string>, b1: seq<Byte>, b2: seq<Byte>)
    requires AlgorithmOf(Selected(field)) == None
    ensures CompressRoute(c, field, b1) == CompressRoute(c, field, b2)
    ensures DecompressRoute(c, field, b1) == DecompressRoute(c, field, b2)
  {
  }

  /** Each known name reaches its own codec, and only the Huffman codec can
      make a route fail (engine size limits, which would make any codec
      throw, are not modelled). */
  lemma Routing(c: Huffman.TableCodec, field: Option<string>, b: seq<Byte>, blob: seq<Byte>)
    ensures Selected(field) == "rle" ==>
      CompressRoute(c, field, b) == Ok(Rle.Compress(b)) && DecompressRoute(c, field, blob) == Ok(Rle.Decompress(blob))
    ensures Selected(field) == "lz77" ==>
      CompressRoute(c, field, b) == Ok(Lz77.Compress(b)) && DecompressRoute(c, field, blob) == Ok(Lz77.Decompress(blob))
    ensures Selected(field) == "huffman" ==>
      && (Huffman.Compress(c, b).Ok? ==> CompressRoute(c, field, b) == Ok(Huffman.Compress(c, b).value))
      && (Huffman.Compress(c, b).Err? ==> CompressRoute(c, field, b) == Err(CompressionFailed(Huffman.Compress(c, b).error)))
      && (Huffman.Decompress(c, blob).Ok? ==> DecompressRoute(c, field, blob) == Ok(Huffman.Decompress(c, blob).value))
      && (Huffman.Decompress(c, blob).Err? ==> DecompressRoute(c, field, blob) == Err(DecompressionFailed(Huffman.Decompress(c, blob).error)))
    ensures CompressRoute(c, field, b).Err? && CompressRoute(c, field, b) != Err(UnsupportedAlgorithm)
        ==> Selected(field) == "huffman"
    ensures DecompressRoute(c, field, blob).Err? && DecompressRoute(c, field, blob) != Err(UnsupportedAlgorithm)
        ==> Selected(field) == "huffman"
  {
  }

  /** "rle" gives every file back. */
  lemma RleRouteRoundTrip(c: Huffman.TableCodec, field: Option<string>, b: seq<Byte>)
    requires Selected(field) == "rle"
    ensures CompressRoute(c, field, b) == Ok(Rle.Compress(b))
    ensures DecompressRoute(c, field, Rle.Compress(b)) == Ok(b)
  {
    assert Rle.Decompress(Rle.Compress(b)) == b by {
      Rle.RoundTrip(b);
    }
    Routing(c, field, b, Rle.Compress(b));
  }

  /** "lz77" gives every file back, with a 0 byte appended when the last
      match of the parse ran to the end of the file. */
  lemma Lz77RouteRoundTrip(c: Huffman.TableCodec, field: Option<string>, b: seq<Byte>)
    requires Selected(field) == "lz77"
    ensures CompressRoute(c, field, b) == Ok(Lz77.Compress(b))
    ensures DecompressRoute(c, field, Lz77.Compress(b))
         == Ok(b + (if Lz77.EndsInsideMatch(b, |b|, 0) then [0] else []))
  {
    assert Lz77.Decompress(Lz77.Compress(b)) == b + (if Lz77.EndsInsideMatch(b, |b|, 0) then [0] else []) by {
      Lz77.RoundTrip(b);
    }
    Routing(c, field, b, Lz77.Compress(b));
  }

  /** "huffman" gives a file back when the table codec reads back the
      file's table and the file is empty or holds two different bytes. */
  lemma HuffmanRouteRoundTrip(c: Huffman.TableCodec, field: Option<string>, b: seq<Byte>)
    requires Selected(field) == "huffman"
    requires Huffman.Faithful(c, HuffmanTree.BuildFrequencyMap(b))
    requires b == [] || exists k :: 0 <= k < |b| && b[k] != b[0]
    ensures Huffman.Compress(c, b).Ok?
    ensures CompressRoute(c, field, b) == Ok(Huffman.Compress(c, b).value)
    ensures DecompressRoute(c, field, Huffman.Compress(c, b).value) == Ok(b)
  {
    assert Huffman.Compress(c, b).Ok? && Huffman.Decompress(c, Huffman.Compress(c, b).value) == Ok(b) by {
      Huffman.RoundTrip(c, b);
    }
    Routing(c, field, b, Huffman.Compress(c, b).value);
  }

  /** Through "huffman", a file of one repeated byte comes back empty. */
  lemma HuffmanRouteSingleSymbol(c: Huffman.TableCodec, field: Option<string>, b: seq<Byte>)
    requires Selected(field) == "huffman"
    requires Huffman.Faithful(c, HuffmanTree.BuildFrequencyMap(b))
    requires b != [] && forall k :: 0 <= k < |b| ==> b[k] == b[0]
    ensures Huffman.Compress(c, b).Ok?
    ensures CompressRoute(c, field, b) == Ok(Huffman.Compress(c, b).value)
    ensures DecompressRoute(c, field, Huffman.Compress(c, b).value) == Ok([])
  {
    assert Huffman.Compress(c, b).Ok? && Huffman.Decompress(c, Huffman.Compress(c, b).value) == Ok([]) by {
      Huffman.SingleSymbolLost(c, b);
    }
    Routing(c, field, b, Huffman.Compress(c, b).value);
  }
}
