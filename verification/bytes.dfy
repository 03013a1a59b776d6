/** Byte values, the outcome datatypes shared by the codecs, and the
    4-byte big-endian length field of the Huffman container. */
module Bytes {

  /** One element of a Node.js `Buffer`: an integer in 0..255. */
  type Byte = x: int | 0 <= x < 256

  /** Largest value + 1 that `writeUInt32BE` accepts. */
  const TWO_32: int := 0x1_0000_0000

  datatype Option<+T> = None | Some(value: T)

  datatype Result<+T, +E> = Ok(value: T) | Err(error: E)

  /** The JavaScript exceptions the codecs can raise. */
  datatype Thrown =
    | RangeError   // `readUInt32BE`/`writeUInt32BE` outside the buffer or the value range
    | SyntaxError  // `JSON.parse` of a table that does not parse
    | TypeError    // reading `.left`, `.right` or `.byte` of `null`/`undefined`

  /** `s[k]` as it ends up in a `Buffer`: an index outside the array reads
      `undefined`, which `Buffer.from` stores as 0. */
  function At(s: seq<Byte>, k: int): Byte
  {
    if 0 <= k < |s| then s[k] else 0
  }

  /** `buf.writeUInt32BE(n)` on a fresh 4-byte buffer. */
  function UInt32BE(n: nat): (r: seq<Byte>)
    requires n < TWO_32
    ensures |r| == 4
  {
    [n / 0x100_0000, (n / 0x1_0000) % 256, (n / 0x100) % 256, n % 256]
  }

  /** `buf.readUInt32BE(0)`, on a buffer of at least four bytes. */
  function ReadUInt32BE(s: seq<Byte>): (n: nat)
    requires |s| >= 4
    ensures n < TWO_32
  {
    (s[0] as int) * 0x100_0000 + (s[1] as int) * 0x1_0000 + (s[2] as int) * 0x100 + s[3] as int
  }

  /** Division by a positive constant undoes `q * k + r` for `0 <= r < k`. */
  lemma DivModUnique(q: int, r: int, k: int)
    requires k > 0 && 0 <= r < k
    ensures (q * k + r) / k == q && (q * k + r) % k == r
  {
    var x := q * k + r;
    var d := x / k - q;
    assert d * k == r - x % k;
  }

  /** Reading back a written length gives the length. */
  lemma UInt32BERoundTrip(n: nat)
    requires n < TWO_32
    ensures ReadUInt32BE(UInt32BE(n)) == n
  {
    var d, n1 := n % 0x100, n / 0x100;
    var c, n2 := n1 % 0x100, n1 / 0x100;
    var b, a := n2 % 0x100, n2 / 0x100;
    assert n == n1 * 0x100 + d;
    assert n1 == n2 * 0x100 + c;
    assert n2 == a * 0x100 + b;
    assert n / 0x1_0000 == n2 by {
      assert n == n2 * 0x1_0000 + (c * 0x100 + d);
      DivModUnique(n2, c * 0x100 + d, 0x1_0000);
    }
    assert n / 0x100_0000 == a by {
      assert n == a * 0x100_0000 + (b * 0x1_0000 + c * 0x100 + d);
      DivModUnique(a, b * 0x1_0000 + c * 0x100 + d, 0x100_0000);
    }
  }

  /** Writing a read length gives back the four bytes it was read from. */
  lemma ReadUInt32BERoundTrip(s: seq<Byte>)
    requires |s| == 4
    ensures UInt32BE(ReadUInt32BE(s)) == s
  {
    var n := ReadUInt32BE(s);
    var s0, s1, s2, s3 := s[0] as int, s[1] as int, s[2] as int, s[3] as int;
    DivModUnique(s0, s1 * 0x1_0000 + s2 * 0x100 + s3, 0x100_0000);
    DivModUnique(s0 * 0x100 + s1, s2 * 0x100 + s3, 0x1_0000);
    DivModUnique(s0, s1, 0x100);
    DivModUnique(s0 * 0x1_0000 + s1 * 0x100 + s2, s3, 0x100);
    DivModUnique(s0 * 0x100 + s1, s2, 0x100);
  }
}
