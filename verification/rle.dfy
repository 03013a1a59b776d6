/** Run-length encoding: `rleCompress` / `rleDecompress` in server/index.js.
    A blob is a sequence of (count, value) byte pairs with no header. */
module Rle {
  import opened Bytes

  /** A count is one byte, so no pair covers more than 255 bytes. */
  const MAX_COUNT: nat := 255

  datatype Run = Run(count: Byte, value: Byte)

  /** The bytes a list of pairs stands for. */
  function Expand(rs: seq<Run>): seq<Byte>
  {
    if rs == [] then [] else seq(rs[0].count, _ => rs[0].value) + Expand(rs[1..])
  }

  /** The pairs as they are pushed into the output array. */
  function Flatten(rs: seq<Run>): (r: seq<Byte>)
    ensures |r| == 2 * |rs|
  {
    if rs == [] then [] else [rs[0].count, rs[0].value] + Flatten(rs[1..])
  }

  /** The shape of every pair list the encoder emits: counts in 1..255, and
      two neighbouring pairs carry the same value only when the first one
      is full (a run longer than 255 split at the cap). */
  ghost predicate Canonical(rs: seq<Run>)
  {
    rs == [] ||
    (&& 1 <= rs[0].count
     && (|rs| > 1 && rs[1].value == rs[0].value ==> rs[0].count == MAX_COUNT)
     && Canonical(rs[1..]))
  }

  /** Extends a run of `b[0]` already known to cover `b[..k]` as far as the
      loop at server/index.js:37-45 does before it emits a pair. */
  function RunFrom(b: seq<Byte>, k: nat): (n: nat)
    requires 1 <= k <= |b| && k <= MAX_COUNT
    requires forall j :: 0 <= j < k ==> b[j] == b[0]
    ensures k <= n <= |b| && n <= MAX_COUNT
    ensures forall j :: 0 <= j < n ==> b[j] == b[0]
    ensures n == |b| || n == MAX_COUNT || b[n] != b[0]
    decreases |b| - k
  {
    if k < |b| && k < MAX_COUNT && b[k] == b[0] then RunFrom(b, k + 1) else k
  }

  /** The count of the first pair: the leading run of `b[0]`, capped at 255. */
  function FirstRun(b: seq<Byte>): (n: nat)
    requires |b| > 0
    ensures 1 <= n <= |b| && n <= MAX_COUNT
    ensures forall j :: 0 <= j < n ==> b[j] == b[0]
    ensures n == |b| || n == MAX_COUNT || b[n] != b[0]
  {
    RunFrom(b, 1)
  }

  /** Any maximal capped run is the one `FirstRun` finds. */
  lemma FirstRunUnique(b: seq<Byte>, n: nat)
    requires 1 <= n <= |b| && n <= MAX_COUNT
    requires forall j :: 0 <= j < n ==> b[j] == b[0]
    requires n == |b| || n == MAX_COUNT || b[n] != b[0]
    ensures FirstRun(b) == n
  {
  }

  /** One `else` branch of the encoder loop: a run that cannot be extended
      is emitted as one pair and the rest is encoded on its own. */
  lemma EmitStep(buffer: seq<Byte>, i: nat, count: nat)
    requires 1 <= count <= i <= |buffer| && count <= MAX_COUNT
    requires forall j :: i - count <= j < i ==> buffer[j] == buffer[i - 1]
    requires i == |buffer| || buffer[i] != buffer[i - 1] || count == MAX_COUNT
    ensures Compress(buffer[i - count..]) == [count, buffer[i - 1]] + Compress(buffer[i..])
  {
    var s := buffer[i - count..];
    assert forall j :: 0 <= j < count ==> s[j] == buffer[i - count + j];
    FirstRunUnique(s, count);
    assert s[count..] == buffer[i..];
  }

  /** The pairs `rleCompress` emits, one per capped run, left to right. */
  function Runs(b: seq<Byte>): seq<Run>
    decreases |b|
  {
    if b == [] then [] else [Run(FirstRun(b), b[0])] + Runs(b[FirstRun(b)..])
  }

  /** The pairs are canonical and expand back to the input. */
  lemma {:induction false} RunsSpec(b: seq<Byte>)
    ensures Canonical(Runs(b))
    ensures Expand(Runs(b)) == b
    decreases |b|
  {
    if b != [] {
      var n := FirstRun(b);
      var rest := Runs(b[n..]);
      RunsSpec(b[n..]);
      assert b == seq(n, _ => b[0]) + b[n..];
      if |rest| > 0 && n < MAX_COUNT {
        assert rest[0].value == b[n..][0] == b[n] != b[0];
      }
    }
  }

  /** `rleCompress(buffer)`: the canonical pairs, flattened. */
  function Compress(b: seq<Byte>): (r: seq<Byte>)
    ensures |r| % 2 == 0
    ensures |r| == 0 <==> |b| == 0
  {
    Flatten(Runs(b))
  }

  /** `rleDecompress(buffer)`: each (count, value) pair expands to `count`
      copies of `value`. A trailing lone count reads its value as
      `undefined`, which `Buffer.from` stores as 0. */
  function Decompress(blob: seq<Byte>): seq<Byte>
    decreases |blob|
  {
    if blob == [] then []
    else seq(blob[0], _ => At(blob, 1)) + Decompress(blob[if |blob| >= 2 then 2 else 1..])
  }

  /** Decoding reads back exactly the pairs that were flattened. */
  lemma {:induction false} DecompressFlatten(rs: seq<Run>)
    ensures Decompress(Flatten(rs)) == Expand(rs)
  {
    if rs != [] {
      var blob := Flatten(rs);
      assert blob[2..] == Flatten(rs[1..]);
      DecompressFlatten(rs[1..]);
    }
  }

  /** Round trip: `rleDecompress(rleCompress(b)) == b` for every input. */
  lemma RoundTrip(b: seq<Byte>)
    ensures Decompress(Compress(b)) == b
  {
    RunsSpec(b);
    DecompressFlatten(Runs(b));
  }

  /** The converse: every canonical pair list is the encoding of what it
      expands to, so canonical blobs and byte strings correspond one to one. */
  lemma {:induction false} RunsOfExpand(rs: seq<Run>)
    requires Canonical(rs)
    ensures Runs(Expand(rs)) == rs
  {
    if rs != [] {
      var b := Expand(rs);
      var n := rs[0].count as nat;
      var tail := Expand(rs[1..]);
      assert b == seq(n, _ => rs[0].value) + tail;
      if n < |b| && n < MAX_COUNT {
        assert rs[1].value != rs[0].value;
        assert tail == seq(rs[1].count, _ => rs[1].value) + Expand(rs[2..]);
        assert b[n] == tail[0] == rs[1].value;
      }
      FirstRunUnique(b, n);
      assert b[n..] == tail;
      RunsOfExpand(rs[1..]);
    }
  }

  /** One `if` branch of the encoder loop: the run grows by one byte. */
  lemma ExtendStep(buffer: seq<Byte>, start: nat, i: nat)
    requires start < i < |buffer| && buffer[i] == buffer[i - 1]
    requires forall j :: start <= j < i ==> buffer[j] == buffer[i - 1]
    ensures forall j :: start <= j < i + 1 ==> buffer[j] == buffer[i]
  {
  }

  /** The loop of `rleCompress` (server/index.js:35-46) statement by statement;
      it builds exactly the canonical pairs. */
  method CompressLoop(buffer: seq<Byte>) returns (output: seq<Byte>)
    ensures output == Compress(buffer)
  {
    output := [];
    var count: Byte := 1;
    var i: nat := 1;
    ghost var start: nat := 0;
    while i <= |buffer|
      invariant 1 <= i <= |buffer| + 1
      invariant 1 <= count <= i && count <= MAX_COUNT
      invariant start == i - count <= |buffer|
      invariant i <= |buffer| ==> forall j :: start <= j < i ==> buffer[j] == buffer[i - 1]
      invariant i == |buffer| + 1 ==> count == 1
      invariant output + Compress(buffer[start..]) == Compress(buffer)
      decreases |buffer| + 1 - i
    {
      if i < |buffer| && buffer[i] == buffer[i - 1] && count < MAX_COUNT {
        ExtendStep(buffer, start, i);
        count := count + 1;
      } else {
        var pair: seq<Byte> := [count, buffer[i - 1]];
        ghost var rest := Compress(buffer[i..]);
        assert Compress(buffer[start..]) == pair + rest by {
          EmitStep(buffer, i, count);
        }
        assert (output + pair) + rest == output + (pair + rest);
        output := output + pair;
        count := 1;
        start := i;
      }
      i := i + 1;
    }
    assert buffer[start..] == [];
  }

  /** Worked example: "AAABBC" compresses to (3,A),(2,B),(1,C). */
  lemma ExampleAAABBC()
    ensures Compress([65, 65, 65, 66, 66, 67]) == [3, 65, 2, 66, 1, 67]
  {
    var b: seq<Byte> := [65, 65, 65, 66, 66, 67];
    var rs := [Run(3, 65), Run(2, 66), Run(1, 67)];
    assert Canonical(rs);
    assert Expand(rs) == b by {
      assert Expand(rs[2..]) == [67];
      assert Expand(rs[1..]) == [66, 66, 67];
    }
    RunsOfExpand(rs);
  }

  /** A run of 300 equal bytes is split at the cap into (255, v), (45, v). */
  lemma ExampleLongRun(v: Byte)
    ensures Compress(seq(300, _ => v)) == [255, v, 45, v]
  {
    var rs := [Run(255, v), Run(45, v)];
    assert Canonical(rs);
    assert Expand(rs[1..]) == seq(45, _ => v) by {
      assert Expand(rs[2..]) == [];
    }
    assert Expand(rs) == seq(300, _ => v);
    RunsOfExpand(rs);
    assert Flatten(rs[1..]) == [45, v] by {
      assert Flatten(rs[2..]) == [];
    }
  }
}
