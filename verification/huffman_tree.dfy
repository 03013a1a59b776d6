/** Frequency counting and Huffman tree construction: `class Node`,
    `buildFrequencyMap` and `buildHuffmanTree` in server/index.js. */
module HuffmanTree {
  import opened Bytes

  /** `class Node`. A leaf has a byte (`byte !== null`) and no children; an
      internal node has `byte === null` and both children. */
  datatype Tree = Leaf(symbol: Byte, freq: nat) | Node(freq: nat, left: Tree, right: Tree)

  /** The frequency object `{ [byte]: count }`. */
  type FreqMap = map<Byte, nat>

  /** One `[byte, count]` pair of `Object.entries(freq)`. */
  type Entry = (Byte, nat)

  /** The set of byte values that occur in `b`. */
  ghost function Distinct(b: seq<Byte>): set<Byte>
  {
    set x | x in b
  }

  /** `buildFrequencyMap(buffer)`: one pass, `freq[byte] = (freq[byte] || 0) + 1`.
      The keys are exactly the bytes that occur, each mapped to its number of
      occurrences. */
  function BuildFrequencyMap(b: seq<Byte>): (m: FreqMap)
    ensures m.Keys == Distinct(b)
    ensures forall v :: v in m ==> m[v] == multiset(b)[v]
    decreases |b|
  {
    if b == [] then map[]
    else
      var init := b[..|b| - 1];
      var v := b[|b| - 1];
      var prev := BuildFrequencyMap(init);
      assert b == init + [v];
      assert multiset(b) == multiset(init) + multiset{v};
      assert Distinct(b) == Distinct(init) + {v};
      prev[v := (if v in prev then prev[v] else 0) + 1]
  }

  /** The entries of `m` with key at least `lo`, in ascending key order. */
  function EntriesFrom(m: FreqMap, lo: nat): (es: seq<Entry>)
    requires lo <= 256
    decreases 256 - lo
  {
    if lo == 256 then []
    else (if lo as Byte in m then [(lo as Byte, m[lo as Byte])] else []) + EntriesFrom(m, lo + 1)
  }

  /** `Object.entries(freq)`: integer-like keys enumerate in ascending
      numeric order, whatever order they were inserted or parsed in. */
  function Entries(m: FreqMap): seq<Entry>
  {
    EntriesFrom(m, 0)
  }

  function KeysOf(es: seq<Entry>): seq<Byte>
  {
    if es == [] then [] else [es[0].0] + KeysOf(es[1..])
  }

  function SumCounts(es: seq<Entry>): nat
  {
    if es == [] then 0 else es[0].1 + SumCounts(es[1..])
  }

  lemma {:induction false} KeysOfAppend(a: seq<Entry>, b: seq<Entry>)
    ensures KeysOf(a + b) == KeysOf(a) + KeysOf(b)
  {
    if a != [] {
      assert (a + b)[1..] == a[1..] + b;
      KeysOfAppend(a[1..], b);
    } else {
      assert a + b == b;
    }
  }

  lemma {:induction false} SumCountsAppend(a: seq<Entry>, b: seq<Entry>)
    ensures SumCounts(a + b) == SumCounts(a) + SumCounts(b)
  {
    if a != [] {
      assert (a + b)[1..] == a[1..] + b;
      SumCountsAppend(a[1..], b);
    } else {
      assert a + b == b;
    }
  }

  /** One step of the key scan: the key `lo`, if present, then the rest. */
  lemma EntriesFromStep(m: FreqMap, lo: nat)
    requires lo < 256
    ensures multiset(KeysOf(EntriesFrom(m, lo)))
         == (if lo as Byte in m then multiset{lo as Byte} else multiset{}) + multiset(KeysOf(EntriesFrom(m, lo + 1)))
  {
    var x := lo as Byte;
    var head: seq<Entry> := if x in m then [(x, m[x])] else [];
    var rest := EntriesFrom(m, lo + 1);
    assert EntriesFrom(m, lo) == head + rest;
    KeysOfAppend(head, rest);
    if x in m {
      assert KeysOf(head) == [x] + KeysOf([]);
    } else {
      assert KeysOf(head) == [];
    }
  }

  /** The entries list every key at or above `lo` exactly once. */
  lemma {:induction false} EntriesFromKey(m: FreqMap, lo: nat, v: Byte)
    requires lo <= 256
    ensures multiset(KeysOf(EntriesFrom(m, lo)))[v] == if v in m && lo <= v then 1 else 0
    decreases 256 - lo
  {
    if lo < 256 {
      EntriesFromKey(m, lo + 1, v);
      EntriesFromStep(m, lo);
    }
  }

  /** Every entry at or above `lo` is a key of `m` with its count, and the
      keys strictly ascend. */
  lemma {:induction false} EntriesFromOrdered(m: FreqMap, lo: nat)
    requires lo <= 256
    ensures forall k :: 0 <= k < |EntriesFrom(m, lo)| ==>
      lo <= EntriesFrom(m, lo)[k].0 && EntriesFrom(m, lo)[k].0 in m && EntriesFrom(m, lo)[k].1 == m[EntriesFrom(m, lo)[k].0]
    ensures forall k, l :: 0 <= k < l < |EntriesFrom(m, lo)| ==> EntriesFrom(m, lo)[k].0 < EntriesFrom(m, lo)[l].0
    decreases 256 - lo
  {
    if lo < 256 {
      EntriesFromOrdered(m, lo + 1);
      var rest := EntriesFrom(m, lo + 1);
      if lo as Byte in m {
        var es := EntriesFrom(m, lo);
        assert es == [(lo as Byte, m[lo as Byte])] + rest;
        forall k | 0 < k < |es| ensures es[k] == rest[k - 1] && lo < es[k].0 {
        }
      }
    }
  }

  /** The keys of `m` at or above `lo`. */
  ghost function KeysFrom(m: FreqMap, lo: nat): set<Byte>
  {
    set v | v in m && lo <= v
  }

  /** The number of entries is the number of keys. */
  lemma {:induction false} EntriesFromCount(m: FreqMap, lo: nat)
    requires lo <= 256
    ensures |EntriesFrom(m, lo)| == |KeysFrom(m, lo)|
    decreases 256 - lo
  {
    if lo == 256 {
      assert KeysFrom(m, lo) == {};
    } else {
      EntriesFromCount(m, lo + 1);
      var above := KeysFrom(m, lo + 1);
      var x := lo as Byte;
      if x in m {
        assert EntriesFrom(m, lo) == [(x, m[x])] + EntriesFrom(m, lo + 1);
        assert x !in above;
        assert KeysFrom(m, lo) == above + {x};
      } else {
        assert KeysFrom(m, lo) == above;
      }
    }
  }

  /** Changing one count changes the sum of the entries by the difference. */
  lemma {:induction false} SumCountsUpdate(m: FreqMap, v: Byte, c: nat, lo: nat)
    requires lo <= 256
    ensures SumCounts(EntriesFrom(m[v := c], lo)) + (if lo <= v && v in m then m[v] else 0)
         == SumCounts(EntriesFrom(m, lo)) + (if lo <= v then c else 0)
    decreases 256 - lo
  {
    if lo < 256 {
      var m' := m[v := c];
      var b := lo as Byte;
      var head: seq<Entry> := if b in m then [(b, m[b])] else [];
      var head': seq<Entry> := if b in m' then [(b, m'[b])] else [];
      SumCountsUpdate(m, v, c, lo + 1);
      SumCountsAppend(head, EntriesFrom(m, lo + 1));
      SumCountsAppend(head', EntriesFrom(m', lo + 1));
    }
  }

  /** An empty table has no entries. */
  lemma {:induction false} EntriesFromEmpty(lo: nat)
    requires lo <= 256
    ensures EntriesFrom(map[], lo) == []
    decreases 256 - lo
  {
    if lo < 256 {
      EntriesFromEmpty(lo + 1);
    }
  }

  /** The counts of the frequency table add up to the input length. */
  lemma {:induction false} FrequencySum(b: seq<Byte>)
    ensures SumCounts(Entries(BuildFrequencyMap(b))) == |b|
    decreases |b|
  {
    if b != [] {
      var init := b[..|b| - 1];
      var v := b[|b| - 1];
      var prev := BuildFrequencyMap(init);
      var c := (if v in prev then prev[v] else 0) + 1;
      assert BuildFrequencyMap(b) == prev[v := c];
      assert SumCounts(Entries(prev[v := c])) == SumCounts(Entries(prev)) + 1 by {
        SumCountsUpdate(prev, v, c, 0);
      }
      FrequencySum(init);
    } else {
      EntriesFromEmpty(0);
    }
  }

  /** `new Node(Number(byte), count)` for every entry. */
  function LeafNodes(es: seq<Entry>): (ns: seq<Tree>)
    ensures |ns| == |es|
  {
    if es == [] then [] else [Leaf(es[0].0, es[0].1)] + LeafNodes(es[1..])
  }

  // ---------------------------------------------------------------------
  // The stable sort `nodes.sort((a, b) => a.freq - b.freq)`.

  ghost predicate SortedByFreq(s: seq<Tree>)
  {
    forall k, l :: 0 <= k < l < |s| ==> s[k].freq <= s[l].freq
  }

  /** The nodes of `s` with frequency `f`, in their order in `s`. */
  function WithFreq(s: seq<Tree>, f: nat): seq<Tree>
  {
    if s == [] then [] else (if s[0].freq == f then [s[0]] else []) + WithFreq(s[1..], f)
  }

  /** Places `x` before the first node whose frequency is at least its own,
      so that `x` stays ahead of the equal-frequency nodes of `s`. */
  function Insert(x: Tree, s: seq<Tree>): (r: seq<Tree>)
    ensures |r| == |s| + 1
  {
    if s == [] || x.freq <= s[0].freq then [x] + s
    else [s[0]] + Insert(x, s[1..])
  }

  /** Inserting adds `x` and nothing else. */
  lemma {:induction false} InsertPermutes(x: Tree, s: seq<Tree>)
    ensures multiset(Insert(x, s)) == multiset(s) + multiset{x}
  {
    if s != [] && x.freq > s[0].freq {
      InsertPermutes(x, s[1..]);
      assert s == [s[0]] + s[1..];
    }
  }

  /** A member of the result is `x` or a member of `s`. */
  lemma {:induction false} InsertMembers(x: Tree, s: seq<Tree>, y: Tree)
    requires y in Insert(x, s)
    ensures y == x || y in s
  {
    if s != [] && x.freq > s[0].freq && y != s[0] {
      InsertMembers(x, s[1..], y);
    }
  }

  /** The tail of a sorted sequence is sorted. */
  lemma SortedTail(r: seq<Tree>)
    requires r != [] && SortedByFreq(r)
    ensures SortedByFreq(r[1..])
  {
    forall k, l | 0 <= k < l < |r| - 1 ensures r[1..][k].freq <= r[1..][l].freq {
      assert r[1..][k] == r[k + 1] && r[1..][l] == r[l + 1];
    }
  }

  /** A node no heavier than every node of a sorted sequence can go in front. */
  lemma SortedCons(h: Tree, tail: seq<Tree>)
    requires SortedByFreq(tail)
    requires forall y :: y in tail ==> h.freq <= y.freq
    ensures SortedByFreq([h] + tail)
  {
    var r := [h] + tail;
    forall k, l | 0 <= k < l < |r| ensures r[k].freq <= r[l].freq {
      assert r[l] == tail[l - 1];
      if k > 0 {
        assert r[k] == tail[k - 1];
      }
    }
  }

  /** Every node of a sorted sequence is at least as heavy as its first. */
  lemma SortedHead(s: seq<Tree>)
    requires s != [] && SortedByFreq(s)
    ensures forall y :: y in s ==> s[0].freq <= y.freq
  {
  }

  /** Inserting into a sorted sequence keeps it sorted. */
  lemma {:induction false} InsertSorted(x: Tree, s: seq<Tree>)
    requires SortedByFreq(s)
    ensures SortedByFreq(Insert(x, s))
  {
    if s == [] || x.freq <= s[0].freq {
      if s != [] {
        SortedHead(s);
      }
      SortedCons(x, s);
    } else {
      var tail := Insert(x, s[1..]);
      assert SortedByFreq(tail) by {
        SortedTail(s);
        InsertSorted(x, s[1..]);
      }
      assert forall y :: y in tail ==> s[0].freq <= y.freq by {
        SortedHead(s);
        forall y | y in tail ensures y == x || y in s {
          InsertMembers(x, s[1..], y);
        }
      }
      SortedCons(s[0], tail);
    }
  }

  /** `x` lands ahead of every node of `s` with the same frequency. */
  lemma {:induction false} InsertStable(x: Tree, s: seq<Tree>, f: nat)
    ensures WithFreq(Insert(x, s), f) == (if x.freq == f then [x] else []) + WithFreq(s, f)
  {
    if s == [] || x.freq <= s[0].freq {
      assert ([x] + s)[1..] == s;
    } else {
      var r := Insert(x, s);
      assert r[1..] == Insert(x, s[1..]);
      InsertStable(x, s[1..], f);
    }
  }

  /** `nodes.sort((a, b) => a.freq - b.freq)`, which is stable: insertion
      sort by frequency. It permutes its input. */
  function Sort(s: seq<Tree>): (r: seq<Tree>)
    ensures multiset(r) == multiset(s)
    ensures |r| == |s|
  {
    if s == [] then []
    else
      InsertPermutes(s[0], Sort(s[1..]));
      assert s == [s[0]] + s[1..];
      Insert(s[0], Sort(s[1..]))
  }

  /** The sort is sorted by frequency and stable: the nodes of each
      frequency keep their relative order. */
  lemma {:induction false} SortSpec(s: seq<Tree>)
    ensures SortedByFreq(Sort(s))
    ensures forall f :: WithFreq(Sort(s), f) == WithFreq(s, f)
  {
    if s != [] {
      var rest := Sort(s[1..]);
      SortSpec(s[1..]);
      InsertSorted(s[0], rest);
      forall f ensures WithFreq(Sort(s), f) == WithFreq(s, f) {
        InsertStable(s[0], rest, f);
      }
    }
  }

  /** Every stable sort by frequency gives the same order as `Sort`, so
      modelling the engine's sort by this one loses nothing. */
  lemma StableSortIsSort(s: seq<Tree>, r: seq<Tree>)
    requires SortedByFreq(r)
    requires forall f :: WithFreq(r, f) == WithFreq(s, f)
    ensures r == Sort(s)
  {
    SortSpec(s);
    StableSortUnique(r, Sort(s));
  }

  lemma {:induction false} WithFreqMembers(s: seq<Tree>, f: nat)
    ensures forall y :: y in WithFreq(s, f) ==> y in s && y.freq == f
  {
    if s != [] {
      WithFreqMembers(s[1..], f);
    }
  }

  lemma WithFreqHead(s: seq<Tree>)
    ensures s != [] ==> WithFreq(s, s[0].freq) != []
  {
  }

  /** Two sorted sequences with the same per-frequency subsequences start
      with the same node: the first node of the lowest frequency. */
  lemma SameHead(r1: seq<Tree>, r2: seq<Tree>)
    requires r1 != [] && r2 != []
    requires SortedByFreq(r1) && SortedByFreq(r2)
    requires forall f :: WithFreq(r1, f) == WithFreq(r2, f)
    ensures r1[0] == r2[0]
  {
    var f1, f2 := r1[0].freq, r2[0].freq;
    WithFreqHead(r1);
    WithFreqHead(r2);
    assert f2 <= f1 by {
      WithFreqMembers(r2, f1);
      var y := WithFreq(r2, f1)[0];
      assert y in r2;
    }
    assert f1 <= f2 by {
      WithFreqMembers(r1, f2);
      var y := WithFreq(r1, f2)[0];
      assert y in r1;
    }
    assert WithFreq(r1, f1)[0] == r1[0];
    assert WithFreq(r2, f2)[0] == r2[0];
  }

  /** Dropping an equal first node keeps the per-frequency subsequences equal. */
  lemma WithFreqTail(r1: seq<Tree>, r2: seq<Tree>, f: nat)
    requires r1 != [] && r2 != [] && r1[0] == r2[0]
    requires WithFreq(r1, f) == WithFreq(r2, f)
    ensures WithFreq(r1[1..], f) == WithFreq(r2[1..], f)
  {
    var t1, t2 := WithFreq(r1[1..], f), WithFreq(r2[1..], f);
    var head: seq<Tree> := if r1[0].freq == f then [r1[0]] else [];
    assert head + t1 == head + t2;
    assert t1 == (head + t1)[|head|..] && t2 == (head + t2)[|head|..];
  }

  /** A sorted sequence is determined by its per-frequency subsequences, so
      any two stable sorts by frequency of the same input agree. */
  lemma {:induction false} StableSortUnique(r1: seq<Tree>, r2: seq<Tree>)
    requires SortedByFreq(r1) && SortedByFreq(r2)
    requires forall f :: WithFreq(r1, f) == WithFreq(r2, f)
    ensures r1 == r2
    decreases |r1|
  {
    WithFreqHead(r1);
    WithFreqHead(r2);
    if r1 != [] && r2 != [] {
      SameHead(r1, r2);
      forall f ensures WithFreq(r1[1..], f) == WithFreq(r2[1..], f) {
        WithFreqTail(r1, r2, f);
      }
      SortedTail(r1);
      SortedTail(r2);
      StableSortUnique(r1[1..], r2[1..]);
      assert r1 == [r1[0]] + r1[1..];
      assert r2 == [r2[0]] + r2[1..];
    }
  }

  // ---------------------------------------------------------------------
  // `buildHuffmanTree(freq)`.

  /** One round of the loop: the first two nodes become the children of a
      new node, appended at the end. */
  function Merge(s: seq<Tree>): (r: seq<Tree>)
    requires |s| >= 2
    ensures |r| == |s| - 1
  {
    s[2..] + [Node(s[0].freq + s[1].freq, s[0], s[1])]
  }

  /** `while (nodes.length > 1) { sort; shift two; push parent }`, then `nodes[0]`. */
  function Build(nodes: seq<Tree>): Tree
    requires |nodes| >= 1
    decreases |nodes|
  {
    if |nodes| == 1 then nodes[0] else Build(Merge(Sort(nodes)))
  }

  /** `buildHuffmanTree(freq)`. An empty table leaves the node list empty
      and `nodes[0]` is `undefined`. */
  function BuildHuffmanTree(m: FreqMap): Option<Tree>
  {
    var es := Entries(m);
    if es == [] then None else Some(Build(LeafNodes(es)))
  }

  /** The bytes at the leaves, left to right. */
  function Leaves(t: Tree): seq<Byte>
  {
    match t
    case Leaf(v, _) => [v]
    case Node(_, l, r) => Leaves(l) + Leaves(r)
  }

  function AllLeaves(ns: seq<Tree>): seq<Byte>
  {
    if ns == [] then [] else Leaves(ns[0]) + AllLeaves(ns[1..])
  }

  function SumFreq(ns: seq<Tree>): nat
  {
    if ns == [] then 0 else ns[0].freq + SumFreq(ns[1..])
  }

  /** Every internal node's frequency is the sum of its children's. */
  ghost predicate WellWeighted(t: Tree)
  {
    match t
    case Leaf(_, _) => true
    case Node(f, l, r) => f == l.freq + r.freq && WellWeighted(l) && WellWeighted(r)
  }

  lemma {:induction false} AllLeavesAppend(a: seq<Tree>, b: seq<Tree>)
    ensures AllLeaves(a + b) == AllLeaves(a) + AllLeaves(b)
    ensures SumFreq(a + b) == SumFreq(a) + SumFreq(b)
  {
    if a != [] {
      assert (a + b)[1..] == a[1..] + b;
      AllLeavesAppend(a[1..], b);
    } else {
      assert a + b == b;
    }
  }

  lemma {:induction false} InsertContents(x: Tree, s: seq<Tree>)
    ensures multiset(AllLeaves(Insert(x, s))) == multiset(Leaves(x)) + multiset(AllLeaves(s))
    ensures SumFreq(Insert(x, s)) == x.freq + SumFreq(s)
  {
    var r := Insert(x, s);
    if s != [] && x.freq > s[0].freq {
      var tail := Insert(x, s[1..]);
      InsertContents(x, s[1..]);
      assert r[0] == s[0] && r[1..] == tail;
      assert AllLeaves(r) == Leaves(s[0]) + AllLeaves(tail);
      assert AllLeaves(s) == Leaves(s[0]) + AllLeaves(s[1..]);
      assert multiset(AllLeaves(r)) == multiset(Leaves(s[0])) + multiset(AllLeaves(tail));
      assert multiset(AllLeaves(s)) == multiset(Leaves(s[0])) + multiset(AllLeaves(s[1..]));
    } else {
      assert r[0] == x && r[1..] == s;
      assert AllLeaves(r) == Leaves(x) + AllLeaves(s);
    }
  }

  /** Sorting moves nodes around but keeps the leaves and the total weight. */
  lemma {:induction false} SortContents(s: seq<Tree>)
    ensures multiset(AllLeaves(Sort(s))) == multiset(AllLeaves(s))
    ensures SumFreq(Sort(s)) == SumFreq(s)
  {
    if s != [] {
      SortContents(s[1..]);
      InsertContents(s[0], Sort(s[1..]));
    }
  }

  /** One merge keeps the multiset of leaves and the total weight, and the
      new parent is well weighted. */
  lemma MergeContents(s: seq<Tree>)
    requires |s| >= 2
    ensures multiset(AllLeaves(Merge(s))) == multiset(AllLeaves(s))
    ensures SumFreq(Merge(s)) == SumFreq(s)
  {
    var parent := Node(s[0].freq + s[1].freq, s[0], s[1]);
    var rest := s[2..];
    var l0, l1, lr := Leaves(s[0]), Leaves(s[1]), AllLeaves(rest);
    assert Merge(s) == rest + [parent];
    assert s[1..][1..] == rest;
    assert AllLeaves(s) == l0 + (l1 + lr);
    assert SumFreq(s) == s[0].freq + (s[1].freq + SumFreq(rest));
    AllLeavesAppend(rest, [parent]);
    assert AllLeaves([parent]) == l0 + l1 by {
      assert AllLeaves([parent]) == Leaves(parent) + AllLeaves([]);
    }
    assert SumFreq([parent]) == parent.freq + SumFreq([]);
    assert SumFreq(Merge(s)) == SumFreq(rest) + parent.freq;
    assert AllLeaves(Merge(s)) == lr + (l0 + l1);
    calc {
      multiset(AllLeaves(Merge(s)));
      multiset(lr) + (multiset(l0) + multiset(l1));
      multiset(l0) + (multiset(l1) + multiset(lr));
      multiset(AllLeaves(s));
    }
  }

  /** Sorting then merging well-weighted nodes gives well-weighted nodes. */
  lemma MergeWellWeighted(ns: seq<Tree>)
    requires |ns| >= 2
    requires forall k :: 0 <= k < |ns| ==> WellWeighted(ns[k])
    ensures forall k :: 0 <= k < |Merge(Sort(ns))| ==> WellWeighted(Merge(Sort(ns))[k])
  {
    var s := Sort(ns);
    var next := Merge(s);
    forall t | t in multiset(s) ensures WellWeighted(t) {
      assert t in multiset(ns);
    }
    forall k | 0 <= k < |next| ensures WellWeighted(next[k]) {
      if k < |next| - 1 {
        assert next[k] == s[k + 2];
        assert s[k + 2] in multiset(s);
      } else {
        assert s[0] in multiset(s) && s[1] in multiset(s);
      }
    }
  }

  /** The loop keeps the multiset of leaves and the total weight, builds
      well-weighted parents, and ends in an internal node as soon as it
      merged at least once. */
  lemma {:induction false} BuildSpec(ns: seq<Tree>)
    requires |ns| >= 1
    requires forall k :: 0 <= k < |ns| ==> WellWeighted(ns[k])
    ensures multiset(Leaves(Build(ns))) == multiset(AllLeaves(ns))
    ensures Build(ns).freq == SumFreq(ns)
    ensures WellWeighted(Build(ns))
    ensures |ns| >= 2 ==> Build(ns).Node?
    decreases |ns|
  {
    if |ns| == 1 {
      assert AllLeaves(ns) == Leaves(ns[0]) + AllLeaves([]);
      assert SumFreq(ns) == ns[0].freq + SumFreq([]);
    } else {
      var next := Merge(Sort(ns));
      SortContents(ns);
      MergeContents(Sort(ns));
      MergeWellWeighted(ns);
      BuildSpec(next);
      if |next| == 1 {
        assert next[0].Node?;
      }
    }
  }

  /** The leaves of a list of leaf nodes are the entries' bytes. */
  lemma {:induction false} LeafNodesContents(es: seq<Entry>)
    ensures AllLeaves(LeafNodes(es)) == KeysOf(es)
    ensures SumFreq(LeafNodes(es)) == SumCounts(es)
    ensures forall k :: 0 <= k < |es| ==> WellWeighted(LeafNodes(es)[k])
  {
    if es != [] {
      LeafNodesContents(es[1..]);
      assert LeafNodes(es)[1..] == LeafNodes(es[1..]);
    }
  }

  /** For a non-empty table, `buildHuffmanTree` returns a well-weighted tree
      whose leaves are the table's bytes, each exactly once, whose root
      weight is the sum of the counts, and which is a single leaf exactly
      when the table has one key. */
  lemma HuffmanTreeSpec(m: FreqMap)
    requires m != map[]
    ensures BuildHuffmanTree(m).Some?
    ensures forall v :: multiset(Leaves(BuildHuffmanTree(m).value))[v] == if v in m then 1 else 0
    ensures BuildHuffmanTree(m).value.freq == SumCounts(Entries(m))
    ensures WellWeighted(BuildHuffmanTree(m).value)
    ensures BuildHuffmanTree(m).value.Leaf? <==> |m.Keys| == 1
  {
    var es := Entries(m);
    var ns := LeafNodes(es);
    TableKeys(m);
    LeafNodesContents(es);
    BuildSpec(ns);
    var t := Build(ns);
    assert BuildHuffmanTree(m) == Some(t);
    if |es| == 1 {
      assert ns == [Leaf(es[0].0, es[0].1)];
    }
  }

  /** Each key of a non-empty table appears once among the entries, and
      there are as many entries as keys. */
  lemma TableKeys(m: FreqMap)
    requires m != map[]
    ensures forall v :: multiset(KeysOf(Entries(m)))[v] == if v in m then 1 else 0
    ensures |Entries(m)| == |m.Keys| >= 1
  {
    var es := Entries(m);
    assert |es| == |m.Keys| by {
      EntriesFromCount(m, 0);
      assert KeysFrom(m, 0) == m.Keys;
    }
    assert |m.Keys| >= 1 by {
      var v :| v in m;
      assert v in m.Keys;
    }
    forall v ensures multiset(KeysOf(es))[v] == if v in m then 1 else 0 {
      EntriesFromKey(m, 0, v);
    }
  }

  /** Applied to the table of an input: the root weight is the input length
      and the leaves are the input's distinct bytes. */
  lemma TreeOfInput(b: seq<Byte>)
    requires b != []
    ensures BuildHuffmanTree(BuildFrequencyMap(b)).Some?
    ensures BuildHuffmanTree(BuildFrequencyMap(b)).value.freq == |b|
    ensures forall v :: multiset(Leaves(BuildHuffmanTree(BuildFrequencyMap(b)).value))[v]
                        == if v in b then 1 else 0
  {
    var m := BuildFrequencyMap(b);
    assert b[0] in m.Keys;
    HuffmanTreeSpec(m);
    FrequencySum(b);
  }
}
