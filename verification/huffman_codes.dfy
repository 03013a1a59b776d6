/** Code assignment, encoding and the decoding walk: `generateCodes`,
    `compressToBinaryString` and the tree walk of `huffmanDecompress` in
    server/index.js. A code is a bit string (`true` for '1'). */
module HuffmanCodes {
  import opened Bytes
  import opened HuffmanTree

  type Code = seq<bool>

  /** The leaf byte reached by following `path` from `t` (`false` = left,
      `true` = right), if the path ends exactly on a leaf. */
  function Reach(t: Tree, path: Code): Option<Byte>
    decreases |path|
  {
    match t
    case Leaf(v, _) => if path == [] then Some(v) else None
    case Node(_, l, r) =>
      if path == [] then None else Reach(if path[0] then r else l, path[1..])
  }

  /** The bytes at the leaves of `t`. */
  ghost function LeafSet(t: Tree): set<Byte>
  {
    match t
    case Leaf(v, _) => {v}
    case Node(_, l, r) => LeafSet(l) + LeafSet(r)
  }

  lemma {:induction false} LeafSetLeaves(t: Tree, v: Byte)
    ensures v in LeafSet(t) <==> v in Leaves(t)
  {
    match t
    case Leaf(_, _) =>
    case Node(_, l, r) =>
      LeafSetLeaves(l, v);
      LeafSetLeaves(r, v);
  }

  ghost predicate IsPrefix(p: Code, q: Code)
  {
    |p| <= |q| && q[..|p|] == p
  }

  /** `generateCodes(node, prefix, codes)`: a leaf records its prefix, then
      the left and the right subtree are visited with '0' and '1' appended.
      The bytes of `t` are added to the table. */
  function GenerateCodes(t: Tree, prefix: Code, codes: map<Byte, Code>): (r: map<Byte, Code>)
    ensures r.Keys == codes.Keys + LeafSet(t)
  {
    match t
    case Leaf(v, _) => codes[v := prefix]
    case Node(_, l, rt) => GenerateCodes(rt, prefix + [true], GenerateCodes(l, prefix + [false], codes))
  }

  /** Entries for bytes outside `t` are left as they were. */
  lemma {:induction false} GenerateCodesKeeps(t: Tree, prefix: Code, codes: map<Byte, Code>, v: Byte)
    requires v in codes && v !in LeafSet(t)
    ensures GenerateCodes(t, prefix, codes)[v] == codes[v]
  {
    match t
    case Leaf(_, _) =>
    case Node(_, l, rt) =>
      GenerateCodesKeeps(l, prefix + [false], codes, v);
      GenerateCodesKeeps(rt, prefix + [true], GenerateCodes(l, prefix + [false], codes), v);
  }

  /** A code extending `prefix + [bit]` extends `prefix`, continued by `bit`. */
  lemma ExtendPrefix(c: Code, prefix: Code, bit: bool)
    requires |prefix| + 1 <= |c| && c[..|prefix| + 1] == prefix + [bit]
    ensures c[..|prefix|] == prefix
    ensures c[|prefix|..] == [bit] + c[|prefix| + 1..]
  {
    assert c[..|prefix|] == c[..|prefix| + 1][..|prefix|];
    assert c[|prefix|..] == [c[|prefix|]] + c[|prefix| + 1..];
  }

  /** The code of a byte of `t` is `prefix` followed by a path from `t` to
      a leaf holding that byte. */
  lemma {:induction false} GenerateCodesPath(t: Tree, prefix: Code, codes: map<Byte, Code>, v: Byte)
    requires v in LeafSet(t)
    ensures var c := GenerateCodes(t, prefix, codes)[v];
      |prefix| <= |c| && c[..|prefix|] == prefix && Reach(t, c[|prefix|..]) == Some(v)
  {
    match t
    case Leaf(_, _) =>
      var c := GenerateCodes(t, prefix, codes)[v];
      assert c[|prefix|..] == [];
    case Node(_, l, rt) =>
      var afterLeft := GenerateCodes(l, prefix + [false], codes);
      var c := GenerateCodes(t, prefix, codes)[v];
      var bit := v in LeafSet(rt);
      if bit {
        GenerateCodesPath(rt, prefix + [true], afterLeft, v);
      } else {
        GenerateCodesPath(l, prefix + [false], codes, v);
        GenerateCodesKeeps(rt, prefix + [true], afterLeft, v);
      }
      ExtendPrefix(c, prefix, bit);
      assert c[|prefix|..][1..] == c[|prefix| + 1..];
  }

  /** `generateCodes(tree)` on a built tree; `undefined` (an empty table)
      yields no codes. */
  function CodesOf(tree: Option<Tree>): map<Byte, Code>
  {
    match tree
    case None => map[]
    case Some(t) => GenerateCodes(t, [], map[])
  }

  /** Two root paths that both end on leaves are equal or not prefixes of
      one another. */
  lemma {:induction false} ReachPrefixFree(t: Tree, p: Code, q: Code)
    requires Reach(t, p).Some? && Reach(t, q).Some?
    requires IsPrefix(p, q)
    ensures p == q
    decreases |p|
  {
    match t
    case Leaf(_, _) =>
    case Node(_, l, r) =>
      assert p != [] && q != [];
      assert p[0] == q[0];
      ReachPrefixFree(if p[0] then r else l, p[1..], q[1..]);
      assert p == [p[0]] + p[1..] && q == [q[0]] + q[1..];
  }

  /** A path that reaches a leaf reaches one of the tree's bytes. */
  lemma {:induction false} ReachInLeaves(t: Tree, path: Code)
    requires Reach(t, path).Some?
    ensures Reach(t, path).value in LeafSet(t)
    decreases |path|
  {
    match t
    case Leaf(_, _) =>
    case Node(_, l, r) =>
      ReachInLeaves(if path[0] then r else l, path[1..]);
  }

  /** No byte sits at two leaves. */
  ghost predicate DistinctLeaves(t: Tree)
  {
    match t
    case Leaf(_, _) => true
    case Node(_, l, r) => LeafSet(l) !! LeafSet(r) && DistinctLeaves(l) && DistinctLeaves(r)
  }

  /** A tree in which every byte occurs at most once among the leaves has
      distinct leaves. */
  lemma {:induction false} DistinctLeavesOfCounts(t: Tree)
    requires forall v :: multiset(Leaves(t))[v] <= 1
    ensures DistinctLeaves(t)
  {
    match t
    case Leaf(_, _) =>
    case Node(_, l, r) =>
      assert multiset(Leaves(t)) == multiset(Leaves(l)) + multiset(Leaves(r));
      forall v | v in LeafSet(l) ensures v !in LeafSet(r) {
        LeafSetLeaves(l, v);
        LeafSetLeaves(r, v);
        assert multiset(Leaves(t))[v] == multiset(Leaves(l))[v] + multiset(Leaves(r))[v];
      }
      forall v ensures multiset(Leaves(l))[v] <= 1 && multiset(Leaves(r))[v] <= 1 {
        assert multiset(Leaves(t))[v] == multiset(Leaves(l))[v] + multiset(Leaves(r))[v];
      }
      DistinctLeavesOfCounts(l);
      DistinctLeavesOfCounts(r);
  }

  /** In a tree whose leaves are distinct, only one path reaches each byte. */
  lemma {:induction false} ReachUnique(t: Tree, p: Code, q: Code)
    requires DistinctLeaves(t)
    requires Reach(t, p).Some? && Reach(t, p) == Reach(t, q)
    ensures p == q
    decreases |p|
  {
    match t
    case Leaf(_, _) =>
    case Node(_, l, r) =>
      var sp, sq := if p[0] then r else l, if q[0] then r else l;
      ReachInLeaves(sp, p[1..]);
      ReachInLeaves(sq, q[1..]);
      assert p[0] == q[0];
      ReachUnique(sp, p[1..], q[1..]);
      assert p == [p[0]] + p[1..] && q == [q[0]] + q[1..];
  }

  /** Every path into an internal node that ends on a leaf is non-empty. */
  lemma ReachNode(t: Tree, path: Code)
    requires t.Node? && Reach(t, path).Some?
    ensures path != []
  {
  }

  /** The code table of a tree: its keys are the tree's bytes; each code is
      that byte's root path (0 = left, 1 = right), and with distinct leaves
      the only one; no code is a prefix of another; and when the root is an
      internal node every code is non-empty. */
  lemma CodesSpec(t: Tree)
    ensures GenerateCodes(t, [], map[]).Keys == LeafSet(t)
    ensures forall v :: v in LeafSet(t) ==> Reach(t, GenerateCodes(t, [], map[])[v]) == Some(v)
    ensures DistinctLeaves(t) ==> forall v, path ::
      v in LeafSet(t) && Reach(t, path) == Some(v) ==> path == GenerateCodes(t, [], map[])[v]
    ensures forall a, b :: a in LeafSet(t) && b in LeafSet(t) && a != b ==>
      !IsPrefix(GenerateCodes(t, [], map[])[a], GenerateCodes(t, [], map[])[b])
    ensures t.Node? ==> forall v :: v in LeafSet(t) ==> GenerateCodes(t, [], map[])[v] != []
  {
    var codes := GenerateCodes(t, [], map[]);
    forall v | v in LeafSet(t) ensures Reach(t, codes[v]) == Some(v) && (t.Node? ==> codes[v] != []) {
      GenerateCodesPath(t, [], map[], v);
      assert codes[v][0..] == codes[v];
      if t.Node? {
        ReachNode(t, codes[v]);
      }
    }
    if DistinctLeaves(t) {
      forall v, path | v in LeafSet(t) && Reach(t, path) == Some(v) ensures path == codes[v] {
        ReachUnique(t, path, codes[v]);
      }
    }
    forall a, b | a in LeafSet(t) && b in LeafSet(t) && a != b ensures !IsPrefix(codes[a], codes[b]) {
      if IsPrefix(codes[a], codes[b]) {
        ReachPrefixFree(t, codes[a], codes[b]);
      }
    }
  }

  /** `compressToBinaryString(buffer, codeMap)`: the codes of the input
      bytes, concatenated in input order. */
  function EncodeBits(b: seq<Byte>, codes: map<Byte, Code>): seq<bool>
    requires forall k :: 0 <= k < |b| ==> b[k] in codes
  {
    if b == [] then [] else codes[b[0]] + EncodeBits(b[1..], codes)
  }

  /** The loop `for (const bit of bitString)` of `huffmanDecompress`, from
      the current node `node` of the tree `root`. Reaching a leaf emits its
      byte and restarts at the root; stepping from a leaf reads a child of
      `null` and throws. Bits that run out in the middle of a code are
      dropped without an error. */
  function Walk(root: Tree, node: Tree, bits: seq<bool>): Result<seq<Byte>, Thrown>
    decreases |bits|
  {
    if bits == [] then Ok([])
    else
      match node
      case Leaf(_, _) => Err(TypeError)
      case Node(_, l, r) =>
        var child := if bits[0] then r else l;
        if child.Leaf? then
          var rest := Walk(root, root, bits[1..]);
          if rest.Err? then rest else Ok([child.symbol] + rest.value)
        else Walk(root, child, bits[1..])
  }

  /** The decoding walk from the tree `buildHuffmanTree` returned; with
      `undefined` (an empty table) any bit throws. */
  function DecodeBits(tree: Option<Tree>, bits: seq<bool>): Result<seq<Byte>, Thrown>
  {
    match tree
    case None => if bits == [] then Ok([]) else Err(TypeError)
    case Some(t) => Walk(t, t, bits)
  }

  /** Walking along a root path of a leaf emits that leaf's byte and goes
      back to the root for the remaining bits. */
  lemma {:induction false} WalkCode(root: Tree, node: Tree, path: Code, rest: seq<bool>)
    requires node.Node? && Reach(node, path).Some?
    ensures Walk(root, node, path + rest) ==
      var tail := Walk(root, root, rest);
      if tail.Err? then tail else Ok([Reach(node, path).value] + tail.value)
    decreases |path|
  {
    var bits := path + rest;
    assert bits[0] == path[0] && bits[1..] == path[1..] + rest;
    var child := if path[0] then node.right else node.left;
    if child.Node? {
      WalkCode(root, child, path[1..], rest);
    } else {
      assert path[1..] == [];
    }
  }

  /** The tree walk inverts code concatenation when the root is an
      internal node. */
  lemma {:induction false} DecodeEncode(t: Tree, b: seq<Byte>)
    requires t.Node?
    requires forall k :: 0 <= k < |b| ==> b[k] in LeafSet(t)
    ensures forall k :: 0 <= k < |b| ==> b[k] in GenerateCodes(t, [], map[])
    ensures Walk(t, t, EncodeBits(b, GenerateCodes(t, [], map[]))) == Ok(b)
  {
    CodesSpec(t);
    var codes := GenerateCodes(t, [], map[]);
    if b != [] {
      DecodeEncode(t, b[1..]);
      WalkCode(t, t, codes[b[0]], EncodeBits(b[1..], codes));
      assert b == [b[0]] + b[1..];
    }
  }

  /** A single-leaf root gets the empty code, so every input encodes to
      the empty bit string. */
  lemma {:induction false} SingleLeafEncodesEmpty(v: Byte, f: nat, b: seq<Byte>)
    requires forall k :: 0 <= k < |b| ==> b[k] == v
    ensures GenerateCodes(Leaf(v, f), [], map[]) == map[v := []]
    ensures EncodeBits(b, map[v := []]) == []
  {
    if b != [] {
      SingleLeafEncodesEmpty(v, f, b[1..]);
    }
  }
}
