/** LZ77: `lz77Compress` / `lz77Decompress` in server/index.js. A blob is a
    sequence of (offset, length, next) byte triples with no header. */
module Lz77 {
  import opened Bytes

  /** `windowSize`, which the server never overrides. */
  const WINDOW_SIZE: nat := 255

  /** The longest match the inner loop builds (`length < 255`). */
  const MAX_LENGTH: nat := 255

  /** One emitted `match`: copy `length` bytes from `offset` back, then
      append `next`. */
  datatype Triple = Triple(offset: Byte, length: Byte, next: Byte)

  /** The inner `while` of `lz77Compress` for the window position `p`,
      continued from `k` matched bytes: it stops at the end bound `end`, at
      the end of the window (`p + k` reaching `i`), at 255, or at the first
      differing byte. The source's bound is `end == |b|`. */
  function MatchFrom(b: seq<Byte>, end: nat, i: nat, p: nat, k: nat): (n: nat)
    requires end <= |b| && p < i < |b| && k <= MAX_LENGTH
    requires i + k <= end || k == 0
    requires p + k <= i
    ensures k <= n <= MAX_LENGTH && p + n <= i && i + n <= |b|
    ensures i + n <= end || n == 0
    decreases MAX_LENGTH - k
  {
    if i + k < end && p + k < i && k < MAX_LENGTH && b[p + k] == b[i + k] then
      MatchFrom(b, end, i, p, k + 1)
    else k
  }

  /** The `n` bytes from `p` equal the `n` bytes from `i`. */
  predicate Agrees(b: seq<Byte>, p: nat, i: nat, n: nat)
    requires p + n <= |b| && i + n <= |b|
  {
    b[p..p + n] == b[i..i + n]
  }

  /** A match of `n` bytes from window position `p` cannot be extended: it
      has 255 bytes, reaches the end bound or the position `i`, or the next
      bytes differ. */
  predicate Stops(b: seq<Byte>, end: nat, i: nat, p: nat, n: nat)
    requires end <= |b| && p + n <= i
  {
    n == MAX_LENGTH || i + n >= end || p + n == i || b[p + n] != b[i + n]
  }

  /** Once `k` bytes agree, the match continued from `k` agrees on all of
      its bytes and cannot be extended by one more. */
  lemma {:induction false} MatchFromSpec(b: seq<Byte>, end: nat, i: nat, p: nat, k: nat)
    requires end <= |b| && p < i < |b| && k <= MAX_LENGTH
    requires i + k <= end || k == 0
    requires p + k <= i
    requires Agrees(b, p, i, k)
    ensures var n := MatchFrom(b, end, i, p, k);
      Agrees(b, p, i, n) && Stops(b, end, i, p, n)
    decreases MAX_LENGTH - k
  {
    if i + k < end && p + k < i && k < MAX_LENGTH && b[p + k] == b[i + k] {
      assert Agrees(b, p, i, k + 1) by {
        assert b[p..p + k + 1] == b[p..p + k] + [b[p + k]];
        assert b[i..i + k + 1] == b[i..i + k] + [b[i + k]];
      }
      MatchFromSpec(b, end, i, p, k + 1);
    }
  }

  /** The length of the match of the input at `i` against window position
      `p`. */
  function MatchLength(b: seq<Byte>, end: nat, i: nat, p: nat): (n: nat)
    requires end <= |b| && p < i < |b|
    ensures n <= MAX_LENGTH && p + n <= i && (i + n <= end || n == 0)
  {
    MatchFrom(b, end, i, p, 0)
  }

  /** The bytes from `p` equal those from `i` for the match's length, and
      the match stops at 255, at the end bound, at `i`, or at a difference. */
  lemma MatchLengthSpec(b: seq<Byte>, end: nat, i: nat, p: nat)
    requires end <= |b| && p < i < |b|
    ensures var n := MatchLength(b, end, i, p);
      Agrees(b, p, i, n) && Stops(b, end, i, p, n)
  {
    assert Agrees(b, p, i, 0);
    MatchFromSpec(b, end, i, p, 0);
  }

  /** The byte after a match: `buffer[i + length] || 0`. */
  function NextAfter(b: seq<Byte>, i: nat, n: nat): Byte
  {
    At(b, i + n)
  }

  /** The first window position the scan visits: `Math.max(0, i - windowSize)`. */
  function WindowStart(i: nat): (lo: nat)
    ensures lo <= i && i - lo <= WINDOW_SIZE
  {
    if i >= WINDOW_SIZE then i - WINDOW_SIZE else 0
  }

  /** The window leaves out no earlier position within 255 bytes: it starts
      at the beginning of the input or exactly 255 bytes back. Kept apart
      from `WindowStart` so that the case split is made only where needed. */
  lemma WindowStartFull(i: nat)
    ensures WindowStart(i) == 0 || i - WindowStart(i) == WINDOW_SIZE
    ensures WindowStart(i) > 0 ==> i - (WindowStart(i) - 1) > WINDOW_SIZE
  {
  }

  /** What the scan may hold in `match` after visiting positions below some
      point of the window `[lo, i)`: the initial no-match triple, or the
      triple of a real match starting at a visited position. */
  ghost predicate Candidate(b: seq<Byte>, end: nat, i: nat, lo: nat, m: Triple)
    requires end <= |b| && lo <= i < |b|
  {
    if m.length == 0 then m.offset == 0 && m.next == b[i]
    else
      && 1 <= m.offset <= i - lo
      && MatchLength(b, end, i, i - m.offset) == m.length
      && m.next == NextAfter(b, i, m.length)
  }

  /** No position of `[lo, p)` matches longer than `m`, and when `m` is a
      match, none older than it matches as long. */
  ghost predicate Leads(b: seq<Byte>, end: nat, i: nat, lo: nat, p: nat, m: Triple)
    requires end <= |b| && lo <= p <= i < |b|
  {
    && (forall q :: lo <= q < p ==> MatchLength(b, end, i, q) <= m.length)
    && (m.length > 0 ==> forall q :: lo <= q < i - m.offset ==> MatchLength(b, end, i, q) < m.length)
  }

  /** The match of `m` stays inside the input, and inside the end bound
      unless it is empty. */
  predicate Fits(b: seq<Byte>, end: nat, i: nat, m: Triple)
  {
    i + m.length <= |b| && (i + m.length <= end || m.length == 0)
  }

  /** The body of the window loop at position `p`: `match` is replaced only
      by a strictly longer match, whose offset is `window.length - j`. */
  function Pick(b: seq<Byte>, end: nat, i: nat, p: nat, m: Triple): (r: Triple)
    requires end <= |b| && p < i < |b| && i - p <= WINDOW_SIZE && Fits(b, end, i, m)
    ensures Fits(b, end, i, r)
  {
    var n := MatchLength(b, end, i, p);
    if n > m.length then Triple(i - p, n, NextAfter(b, i, n)) else m
  }

  /** The scan's invariant after visiting `[lo, p)`. */
  ghost predicate Leader(b: seq<Byte>, end: nat, i: nat, lo: nat, p: nat, m: Triple)
    requires end <= |b| && lo <= p <= i < |b|
  {
    Candidate(b, end, i, lo, m) && Leads(b, end, i, lo, p, m)
  }

  /** One iteration of the window loop keeps the scan's invariant. */
  lemma ScanStep(b: seq<Byte>, end: nat, i: nat, lo: nat, p: nat, m: Triple)
    requires end <= |b| && lo <= p < i < |b| && i - lo <= WINDOW_SIZE && Fits(b, end, i, m)
    requires Leader(b, end, i, lo, p, m)
    ensures Leader(b, end, i, lo, p + 1, Pick(b, end, i, p, m))
  {
    var n := MatchLength(b, end, i, p);
    if n > m.length {
      assert Pick(b, end, i, p, m) == Triple(i - p, n, NextAfter(b, i, n));
      ScanTakes(b, end, i, lo, p, m);
    } else {
      assert Pick(b, end, i, p, m) == m;
    }
  }

  /** A strictly longer match at `p` becomes the leader. */
  lemma ScanTakes(b: seq<Byte>, end: nat, i: nat, lo: nat, p: nat, m: Triple)
    requires end <= |b| && lo <= p < i < |b| && i - lo <= WINDOW_SIZE
    requires Leads(b, end, i, lo, p, m) && MatchLength(b, end, i, p) > m.length
    ensures var n := MatchLength(b, end, i, p);
      var m' := Triple(i - p, n, NextAfter(b, i, n));
      Candidate(b, end, i, lo, m') && Leads(b, end, i, lo, p + 1, m')
  {
    var n := MatchLength(b, end, i, p);
    var m' := Triple(i - p, n, NextAfter(b, i, n));
    assert i - m'.offset == p;
  }

  /** The `for (let j …)` loop over the window from position `p` on. */
  function Scan(b: seq<Byte>, end: nat, i: nat, lo: nat, p: nat, m: Triple): (r: Triple)
    requires end <= |b| && lo <= p <= i < |b| && i - lo <= WINDOW_SIZE
    requires Fits(b, end, i, m)
    ensures Fits(b, end, i, r)
    decreases i - p
  {
    if p == i then m else Scan(b, end, i, lo, p + 1, Pick(b, end, i, p, m))
  }

  /** The scan keeps its invariant to the end of the window: it returns a
      real match (or none), no position matches longer, and among the
      longest matches it holds the oldest, i.e. the largest offset. */
  lemma {:induction false} ScanSpec(b: seq<Byte>, end: nat, i: nat, lo: nat, p: nat, m: Triple)
    requires end <= |b| && lo <= p <= i < |b| && i - lo <= WINDOW_SIZE && Fits(b, end, i, m)
    requires Leader(b, end, i, lo, p, m)
    ensures Leader(b, end, i, lo, i, Scan(b, end, i, lo, p, m))
    decreases i - p
  {
    if p < i {
      var m' := Pick(b, end, i, p, m);
      ScanStep(b, end, i, lo, p, m);
      ScanSpec(b, end, i, lo, p + 1, m');
      assert Scan(b, end, i, lo, p, m) == Scan(b, end, i, lo, p + 1, m');
    }
  }

  /** The triple `lz77Compress` emits at position `i`. */
  function BestMatch(b: seq<Byte>, end: nat, i: nat): (m: Triple)
    requires end <= |b| && i < |b|
    ensures Fits(b, end, i, m)
  {
    Scan(b, end, i, WindowStart(i), WindowStart(i), Triple(0, 0, b[i]))
  }

  /** The emitted triple is the no-match triple or a real match inside the
      window; no window position matches longer, and no older position
      matches as long. */
  lemma BestMatchSpec(b: seq<Byte>, end: nat, i: nat)
    requires end <= |b| && i < |b|
    ensures Leader(b, end, i, WindowStart(i), i, BestMatch(b, end, i))
  {
    ScanSpec(b, end, i, WindowStart(i), WindowStart(i), Triple(0, 0, b[i]));
  }

  /** What an emitted triple states about the input at `i`: an offset is 0
      exactly when the length is; the copy source lies inside the window and
      ends at or before `i`; the copied bytes are the input's next `length`
      bytes; `next` is the byte after them (0 past the end). */
  lemma EmittedTriple(b: seq<Byte>, end: nat, i: nat)
    requires end <= |b| && i < |b|
    ensures var m := BestMatch(b, end, i);
      && (m.offset == 0 <==> m.length == 0)
      && m.length <= m.offset <= i - WindowStart(i)
      && i + m.length <= |b|
      && b[i - m.offset..i - m.offset + m.length] == b[i..i + m.length]
      && m.next == At(b, i + m.length)
  {
    var m := BestMatch(b, end, i);
    assert Candidate(b, end, i, WindowStart(i), m) by {
      BestMatchSpec(b, end, i);
    }
    if m.length > 0 {
      var p := i - m.offset;
      assert MatchLength(b, end, i, p) == m.length;
      MatchLengthSpec(b, end, i, p);
    }
  }

  /** The emitted match is a longest one in the window, and the oldest of
      the longest: no window position matches longer, and no position
      before the chosen one matches as long. */
  lemma EmittedLongest(b: seq<Byte>, end: nat, i: nat)
    requires end <= |b| && i < |b|
    ensures var m := BestMatch(b, end, i);
      && (forall q :: WindowStart(i) <= q < i ==> MatchLength(b, end, i, q) <= m.length)
      && (m.length > 0 ==> forall q :: WindowStart(i) <= q < i - m.offset ==> MatchLength(b, end, i, q) < m.length)
  {
    BestMatchSpec(b, end, i);
  }

  /** The triples emitted from position `i` on; each advances past its
      match and its next byte. */
  function Tokens(b: seq<Byte>, end: nat, i: nat): seq<Triple>
    requires end <= |b|
    decreases |b| - i
  {
    if i >= |b| then []
    else
      var m := BestMatch(b, end, i);
      [m] + Tokens(b, end, i + m.length + 1)
  }

  /** The triples as they are pushed into the output array. */
  function Flatten(ts: seq<Triple>): (r: seq<Byte>)
    ensures |r| == 3 * |ts|
  {
    if ts == [] then [] else [ts[0].offset, ts[0].length, ts[0].next] + Flatten(ts[1..])
  }

  /** `lz77Compress(buffer)`: matches may run to the end of the input. */
  function Compress(b: seq<Byte>): (r: seq<Byte>)
    ensures |r| % 3 == 0 && (b == [] <==> r == [])
  {
    Flatten(Tokens(b, |b|, 0))
  }

  /** `output.push(output[start + j])` for `j < length`: each read is of
      the array as it has grown so far; a read outside it is `undefined`,
      stored as 0. */
  function CopyBack(out: seq<Byte>, start: int, n: nat): (r: seq<Byte>)
    ensures |r| == |out| + n && r[..|out|] == out
    decreases n
  {
    if n == 0 then out
    else
      var r := CopyBack(out + [At(out, start)], start + 1, n - 1);
      assert r[..|out|] == (out + [At(out, start)])[..|out|];
      r
  }

  /** One triple of the decoder: the copy from `offset` back, then `next`. */
  function Step(out: seq<Byte>, offset: Byte, length: Byte, next: Byte): (r: seq<Byte>)
    ensures |r| == |out| + length + 1 && r[..|out|] == out && r[|r| - 1] == next
  {
    var r := CopyBack(out, |out| - offset, length) + [next];
    assert r[..|out|] == CopyBack(out, |out| - offset, length)[..|out|];
    r
  }

  /** The loop of `lz77Decompress` from byte `i` of the blob on, every
      three bytes. A last partial triple reads its missing fields as
      `undefined`: no copy, and a next byte of 0. */
  function DecodeFrom(blob: seq<Byte>, i: nat, out: seq<Byte>): seq<Byte>
    decreases |blob| - i
  {
    if i >= |blob| then out
    else DecodeFrom(blob, i + 3, Step(out, blob[i], At(blob, i + 1), At(blob, i + 2)))
  }

  /** `lz77Decompress(buffer)`. */
  function Decompress(blob: seq<Byte>): seq<Byte>
  {
    DecodeFrom(blob, 0, [])
  }

  /** `lz77Decompress` as the source writes it: one output array that the
      inner loop grows while it reads from it. It computes the functional
      decoder. */
  method DecompressLoop(blob: seq<Byte>) returns (out: seq<Byte>)
    ensures out == Decompress(blob)
  {
    out := [];
    var i := 0;
    while i < |blob|
      invariant DecodeFrom(blob, i, out) == Decompress(blob)
      decreases |blob| - i
    {
      var offset, length, next := blob[i], At(blob, i + 1), At(blob, i + 2);
      var start := |out| - offset;
      ghost var before := out;
      var j := 0;
      while j < length
        invariant 0 <= j <= length
        invariant CopyBack(out, start + j, length - j) == CopyBack(before, start, length)
      {
        out := out + [At(out, start + j)];
        j := j + 1;
      }
      out := out + [next];
      i := i + 3;
    }
  }

  // ---------------------------------------------------------------------
  // Round trip.

  /** A back-reference inside the output copies that stretch of the output. */
  lemma {:induction false} CopyBackInside(out: seq<Byte>, start: nat, n: nat)
    requires start + n <= |out|
    ensures CopyBack(out, start, n) == out + out[start..start + n]
    decreases n
  {
    if n > 0 {
      var out' := out + [out[start]];
      CopyBackInside(out', start + 1, n - 1);
      assert out'[start + 1..start + n] == out[start + 1..start + n];
      assert out[start..start + n] == [out[start]] + out[start + 1..start + n];
    }
  }

  /** The decoder's step on a triple whose copy source holds the input's
      next `length` bytes and whose `next` is the byte after them rebuilds
      the input up to the match's end, then appends `next`. */
  lemma DecodeTokenStep(b: seq<Byte>, i: nat, m: Triple)
    requires m.offset <= i && m.length <= m.offset && i + m.length <= |b|
    requires b[i - m.offset..i - m.offset + m.length] == b[i..i + m.length]
    requires m.next == At(b, i + m.length)
    ensures Step(b[..i], m.offset, m.length, m.next)
         == b[..i + m.length] + [NextAfter(b, i, m.length)]
  {
    var p := i - m.offset;
    assert CopyBack(b[..i], p, m.length) == b[..i + m.length] by {
      CopyMatch(b, i, p, m.length);
    }
  }

  /** Copying a match whose source bytes equal the bytes at `i` extends the
      input before `i` to the input before the match's end. */
  lemma CopyMatch(b: seq<Byte>, i: nat, p: nat, n: nat)
    requires p + n <= i && i + n <= |b| && b[p..p + n] == b[i..i + n]
    ensures CopyBack(b[..i], p, n) == b[..i + n]
  {
    var front := b[..i];
    CopyBackInside(front, p, n);
    assert front[p..p + n] == b[i..i + n];
    assert front + b[i..i + n] == b[..i + n];
  }

  /** Whether the last match of the parse from `i` runs into the end of the
      input, so that its next byte is the stand-in 0. */
  ghost predicate EndsInsideMatch(b: seq<Byte>, end: nat, i: nat)
    requires end <= |b|
    decreases |b| - i
  {
    if i >= |b| then false
    else
      var m := BestMatch(b, end, i);
      i + m.length == |b| || EndsInsideMatch(b, end, i + m.length + 1)
  }

  /** One step of `EndsInsideMatch`: true at a match that reaches the end,
      otherwise whatever holds after the match. */
  lemma EndsInsideMatchStep(b: seq<Byte>, end: nat, i: nat)
    requires end <= |b| && i < |b|
    ensures var n := BestMatch(b, end, i).length as nat;
      && EndsInsideMatch(b, end, i) == (i + n == |b| || EndsInsideMatch(b, end, i + n + 1))
  {
  }

  /** Decoding the triples from position `i` after the first `i` input
      bytes rebuilds the input, plus a 0 when the last match ran into the
      end of the input. */
  lemma {:induction false} DecodeTokens(b: seq<Byte>, end: nat, i: nat)
    requires end <= |b| && i <= |b|
    ensures DecodeFrom(Flatten(Tokens(b, end, i)), 0, b[..i])
         == b + (if EndsInsideMatch(b, end, i) then [0] else [])
    decreases |b| - i
  {
    if i == |b| {
      assert b[..i] == b;
    } else {
      var m := BestMatch(b, end, i);
      var n := m.length as nat;
      var rest := Flatten(Tokens(b, end, i + n + 1));
      var out := b[..i + n] + [NextAfter(b, i, n)];
      DecodeFirstToken(b, end, i);
      if i + n == |b| {
        assert EndsInsideMatch(b, end, i) by { EndsInsideMatchStep(b, end, i); }
        assert DecodeFrom(rest, 0, out) == b + [0] by {
          assert rest == [] by { TokensHead(b, end, i); }
          assert b[..i + n] == b;
        }
      } else {
        var tail: seq<Byte> := if EndsInsideMatch(b, end, i + n + 1) then [0] else [];
        assert (if EndsInsideMatch(b, end, i) then [0] else []) == tail by {
          EndsInsideMatchStep(b, end, i);
        }
        assert DecodeFrom(rest, 0, out) == b + tail by {
          PrefixThenNext(b, i, n);
          DecodeTokens(b, end, i + n + 1);
        }
      }
    }
  }

  /** Decoding the triples from `i` after the input before `i` is decoding
      the triples after the first one after the input up to the first
      match's end and its next byte. */
  lemma DecodeFirstToken(b: seq<Byte>, end: nat, i: nat)
    requires end <= |b| && i < |b|
    ensures var n := BestMatch(b, end, i).length as nat;
      DecodeFrom(Flatten(Tokens(b, end, i)), 0, b[..i])
        == DecodeFrom(Flatten(Tokens(b, end, i + n + 1)), 0, b[..i + n] + [NextAfter(b, i, n)])
  {
    var m := BestMatch(b, end, i);
    var rest := Flatten(Tokens(b, end, i + m.length + 1));
    assert Flatten(Tokens(b, end, i)) == [m.offset, m.length, m.next] + rest by {
      TokensHead(b, end, i);
    }
    assert Step(b[..i], m.offset, m.length, m.next) == b[..i + m.length] + [NextAfter(b, i, m.length)] by {
      BestMatchStep(b, end, i);
    }
    DecodeHead(rest, m.offset, m.length, m.next, b[..i]);
  }

  /** The decoder's step on the emitted triple at `i` rebuilds the input up
      to the match's end, then appends the match's next byte. */
  lemma BestMatchStep(b: seq<Byte>, end: nat, i: nat)
    requires end <= |b| && i < |b|
    ensures var m := BestMatch(b, end, i);
      Step(b[..i], m.offset, m.length, m.next) == b[..i + m.length] + [NextAfter(b, i, m.length)]
  {
    EmittedTriple(b, end, i);
    DecodeTokenStep(b, i, BestMatch(b, end, i));
  }

  /** The input up to a match's end followed by its next byte, when the
      match stops short of the end, is the input up to one byte further. */
  lemma PrefixThenNext(b: seq<Byte>, i: nat, n: nat)
    requires i + n < |b|
    ensures b[..i + n] + [NextAfter(b, i, n)] == b[..i + n + 1]
  {
  }

  /** The triples from `i` are the best match at `i` followed by the triples
      from just after its next byte. */
  lemma TokensHead(b: seq<Byte>, end: nat, i: nat)
    requires end <= |b| && i < |b|
    ensures var m := BestMatch(b, end, i);
      && Flatten(Tokens(b, end, i)) == [m.offset, m.length, m.next] + Flatten(Tokens(b, end, i + m.length + 1))
      && (i + m.length + 1 >= |b| ==> Tokens(b, end, i + m.length + 1) == [])
  {
    var m := BestMatch(b, end, i);
    var ts := Tokens(b, end, i);
    assert ts == [m] + Tokens(b, end, i + m.length + 1);
    assert ts[1..] == Tokens(b, end, i + m.length + 1);
  }

  /** Decoding a blob that starts with a whole triple is decoding the rest
      after that triple's step. */
  lemma DecodeHead(rest: seq<Byte>, offset: Byte, length: Byte, next: Byte, out: seq<Byte>)
    ensures DecodeFrom([offset, length, next] + rest, 0, out)
         == DecodeFrom(rest, 0, Step(out, offset, length, next))
  {
    var blob := [offset, length, next] + rest;
    assert blob[0] == offset && At(blob, 1) == length && At(blob, 2) == next;
    assert DecodeFrom(blob, 0, out) == DecodeFrom(blob, 3, Step(out, offset, length, next));
    DecodeShift(rest, [offset, length, next], Step(out, offset, length, next));
  }

  /** Decoding after a whole first triple is decoding the rest alone. */
  lemma {:induction false} DecodeShift(rest: seq<Byte>, head: seq<Byte>, out: seq<Byte>)
    requires |head| == 3
    ensures DecodeFrom(head + rest, 3, out) == DecodeFrom(rest, 0, out)
  {
    DecodeShiftFrom(rest, head, 0, out);
  }

  lemma {:induction false} DecodeShiftFrom(rest: seq<Byte>, head: seq<Byte>, j: nat, out: seq<Byte>)
    requires |head| == 3 && j % 3 == 0
    ensures DecodeFrom(head + rest, j + 3, out) == DecodeFrom(rest, j, out)
    decreases |rest| - j
  {
    var blob := head + rest;
    if j < |rest| {
      assert blob[j + 3] == rest[j];
      assert At(blob, j + 4) == At(rest, j + 1);
      assert At(blob, j + 5) == At(rest, j + 2);
      DecodeShiftFrom(rest, head, j + 3, Step(out, rest[j], At(rest, j + 1), At(rest, j + 2)));
    }
  }

  /** `lz77Decompress(lz77Compress(b))` is `b`, followed by one 0 byte
      exactly when the last match reached the end of the input. */
  lemma RoundTrip(b: seq<Byte>)
    ensures Decompress(Compress(b)) == b + (if EndsInsideMatch(b, |b|, 0) then [0] else [])
  {
    DecodeTokens(b, |b|, 0);
    assert b[..0] == [];
  }

  /** Concretely: "AA" is sent as (0, 0, 'A') then (1, 1, 0), which decodes
      to "AA" followed by a 0 byte. */
  lemma ExampleTrailingZero()
    ensures Decompress(Compress([65, 65])) == [65, 65, 0]
  {
    ExampleCompress();
    ExampleDecode();
  }

  /** The blob for "AA". */
  lemma ExampleCompress()
    ensures Compress([65, 65]) == [0, 0, 65, 1, 1, 0]
  {
    var b: seq<Byte> := [65, 65];
    assert |b| == 2;
    ExampleTokens();
    assert Flatten([Triple(1, 1, 0)]) == [1, 1, 0];
  }

  /** The parse of "AA": no match at 0, then the one-byte match at 1 that
      runs into the end. */
  lemma ExampleTokens()
    ensures Tokens([65, 65], 2, 0) == [Triple(0, 0, 65), Triple(1, 1, 0)]
  {
    var b: seq<Byte> := [65, 65];
    assert BestMatch(b, 2, 0) == Triple(0, 0, 65) by {
      assert WindowStart(0) == 0;
    }
    assert BestMatch(b, 2, 1) == Triple(1, 1, 0) by {
      assert WindowStart(1) == 0;
      assert MatchLength(b, 2, 1, 0) == 1 by {
        assert MatchFrom(b, 2, 1, 0, 1) == 1;
      }
      assert NextAfter(b, 1, 1) == 0;
      assert Pick(b, 2, 1, 0, Triple(0, 0, 65)) == Triple(1, 1, 0);
    }
    assert Tokens(b, 2, 1) == [Triple(1, 1, 0)] by {
      assert Tokens(b, 2, 3) == [];
    }
  }

  /** The decoder's reading of (0, 0, 'A') then (1, 1, 0). */
  lemma ExampleDecode()
    ensures Decompress([0, 0, 65, 1, 1, 0]) == [65, 65, 0]
  {
    var blob: seq<Byte> := [0, 0, 65, 1, 1, 0];
    assert Step([], 0, 0, 65) == [65];
    assert Step([65], 1, 1, 0) == [65, 65, 0] by {
      assert CopyBack([65], 0, 1) == [65, 65];
    }
    assert DecodeFrom(blob, 3, [65]) == [65, 65, 0] by {
      assert DecodeFrom(blob, 6, [65, 65, 0]) == [65, 65, 0];
    }
  }

  /** A copy that starts before the output reads `undefined`, stored as 0,
      at the negative positions; from position 0 on it copies the output,
      including the bytes this same copy has just pushed. */
  lemma ExampleReadsAroundOutput()
    ensures Decompress([0, 0, 5, 3, 4, 7]) == [5, 0, 0, 5, 0, 7]
  {
    var blob: seq<Byte> := [0, 0, 5, 3, 4, 7];
    assert Step([], 0, 0, 5) == [5];
    assert CopyBack([5], -2, 4) == [5, 0, 0, 5, 0] by {
      assert CopyBack([5, 0, 0, 5, 0], 2, 0) == [5, 0, 0, 5, 0];
      assert CopyBack([5, 0, 0, 5], 1, 1) == [5, 0, 0, 5, 0];
      assert CopyBack([5, 0, 0], 0, 2) == [5, 0, 0, 5, 0];
      assert CopyBack([5, 0], -1, 3) == [5, 0, 0, 5, 0];
    }
    assert Step([5], 3, 4, 7) == [5, 0, 0, 5, 0, 7];
    assert DecodeFrom(blob, 3, [5]) == [5, 0, 0, 5, 0, 7] by {
      assert DecodeFrom(blob, 6, [5, 0, 0, 5, 0, 7]) == [5, 0, 0, 5, 0, 7];
    }
  }

  /** The repaired encoder: a match stops one byte short of the end, so
      every triple's next byte is a real input byte. */
  function CompressFixed(b: seq<Byte>): (r: seq<Byte>)
    ensures |r| % 3 == 0
  {
    Flatten(Tokens(b, if |b| == 0 then 0 else |b| - 1, 0))
  }

  /** With the end bound one short, no match reaches the end. */
  lemma {:induction false} NeverEndsInsideMatch(b: seq<Byte>, i: nat)
    requires |b| > 0
    ensures !EndsInsideMatch(b, |b| - 1, i)
    decreases |b| - i
  {
    if i < |b| {
      NeverEndsInsideMatch(b, i + BestMatch(b, |b| - 1, i).length + 1);
    }
  }

  /** The repaired encoder round-trips every input exactly. */
  lemma RoundTripFixed(b: seq<Byte>)
    ensures Decompress(CompressFixed(b)) == b
  {
    if b == [] {
      assert CompressFixed(b) == [];
    } else {
      DecodeTokens(b, |b| - 1, 0);
      NeverEndsInsideMatch(b, 0);
      assert b[..0] == [];
    }
  }
}
