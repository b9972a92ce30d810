/** Domain-separated binary Merkle trees with odd-node promotion.

    The tree is built twice in the repository (the app's state root and the
    transcript anchor) and walked once (the light client's membership proof).
    The loops are proved against the recursive tree of section 2.1 of RFC 6962,
    and soundness is stated without assuming anything about the hash function:
    whenever a claim about a root is wrong, two distinct preimages with one hash
    are produced. */
module Merkle {
  import opened Common

  type Hash = h: Bytes | |h| == 32 witness seq(32, i => 0)

  /** The hash function; nothing is assumed about it. */
  type Hasher = Bytes -> Hash

  /** Two byte strings offered as a counterexample to collision resistance. */
  datatype Collision = Collision(x: Bytes, y: Bytes)

  predicate Breaks(H: Hasher, c: Collision) {
    c.x != c.y && H(c.x) == H(c.y)
  }

  function NodePreimage(l: Hash, r: Hash): Bytes {
    [1] + l + r
  }

  function LeafHash(H: Hasher, data: Bytes): Hash {
    H([0] + data)
  }

  function NodeHash(H: Hasher, l: Hash, r: Hash): Hash {
    H(NodePreimage(l, r))
  }

  function Leaves(H: Hasher, data: seq<Bytes>): seq<Hash> {
    seq(|data|, i requires 0 <= i < |data| => LeafHash(H, data[i]))
  }

  // ----- the reference tree: section 2.1 of RFC 6962 -----

  predicate IsPowerOfTwo(k: nat) {
    k == 1 || (k > 1 && k % 2 == 0 && IsPowerOfTwo(k / 2))
  }

  /** The largest power of two smaller than `n`. */
  function SplitPoint(n: nat): (k: nat)
    requires n > 1
    ensures IsPowerOfTwo(k) && k < n <= 2 * k
  {
    if n == 2 then 1 else 2 * SplitPoint((n + 1) / 2)
  }

  /** `MTH` over already hashed leaves. */
  function TreeHash(H: Hasher, leaves: seq<Hash>): Hash
    requires leaves != []
    decreases |leaves|
  {
    if |leaves| == 1 then leaves[0]
    else
      var k := SplitPoint(|leaves|);
      NodeHash(H, TreeHash(H, leaves[..k]), TreeHash(H, leaves[k..]))
  }

  function RootOf(H: Hasher, leaves: seq<Hash>): Hash {
    if leaves == [] then H([]) else TreeHash(H, leaves)
  }

  /** The smallest trees, spelled out: leaves are hashed under 0, inner nodes under 1, and a
      node without a partner goes up as it is. */
  lemma SmallTrees(H: Hasher, a: Bytes, b: Bytes, c: Bytes)
    ensures RootOf(H, Leaves(H, [])) == H([])
    ensures RootOf(H, Leaves(H, [a])) == H([0] + a)
    ensures RootOf(H, Leaves(H, [a, b])) == H([1] + H([0] + a) + H([0] + b))
    ensures RootOf(H, Leaves(H, [a, b, c])) == H([1] + H([1] + H([0] + a) + H([0] + b)) + H([0] + c))
  {
    var two, three := Leaves(H, [a, b]), Leaves(H, [a, b, c]);
    assert two[..1] == Leaves(H, [a]) && two[1..] == Leaves(H, [b]);
    assert three[..2] == two && three[2..] == Leaves(H, [c]);
    TreeOfTwo(H, two);
    assert SplitPoint(3) == 2 * SplitPoint(2) == 2;
    assert TreeHash(H, three) == NodeHash(H, TreeHash(H, two), three[2]);
  }

  lemma TreeOfTwo(H: Hasher, leaves: seq<Hash>)
    requires |leaves| == 2
    ensures TreeHash(H, leaves) == NodeHash(H, leaves[0], leaves[1])
  {
    assert SplitPoint(2) == 1;
    assert TreeHash(H, leaves[..1]) == leaves[0] && TreeHash(H, leaves[1..]) == leaves[1];
  }

  // ----- the pairing loops -----

  /** One level of the pairing loop: neighbours hashed, an odd last node promoted. */
  function PairUp(H: Hasher, level: seq<Hash>): (next: seq<Hash>)
    ensures |next| == (|level| + 1) / 2
  {
    if |level| < 2 then level
    else [NodeHash(H, level[0], level[1])] + PairUp(H, level[2..])
  }

  lemma {:induction false} PairUpAppend(H: Hasher, a: seq<Hash>, b: seq<Hash>)
    requires |a| % 2 == 0
    ensures PairUp(H, a + b) == PairUp(H, a) + PairUp(H, b)
    decreases |a|
  {
    if a == [] {
      assert a + b == b;
    } else {
      assert (a + b)[2..] == a[2..] + b;
      PairUpAppend(H, a[2..], b);
    }
  }

  lemma PairUpStep(H: Hasher, level: seq<Hash>)
    ensures if |level| < 2 then PairUp(H, level) == level
            else PairUp(H, level) == [NodeHash(H, level[0], level[1])] + PairUp(H, level[2..])
  {
  }

  lemma {:induction false} PairUpAt(H: Hasher, level: seq<Hash>, i: nat)
    requires i < (|level| + 1) / 2
    ensures PairUp(H, level)[i] ==
            if 2 * i + 1 < |level| then NodeHash(H, level[2 * i], level[2 * i + 1]) else level[2 * i]
    decreases |level|
  {
    if i > 0 {
      PairUpAt(H, level[2..], i - 1);
    }
  }

  /** Pairing a level does not change the root of the reference tree. */
  lemma {:induction false} PairUpKeepsTreeHash(H: Hasher, level: seq<Hash>)
    requires level != []
    ensures TreeHash(H, PairUp(H, level)) == TreeHash(H, level)
    decreases |level|
  {
    var n := |level|;
    if n > 2 {
      var k := SplitPoint(n);
      var a, b := level[..k], level[k..];
      assert level == a + b;
      PairUpAppend(H, a, b);
      var pa, pb := PairUp(H, a), PairUp(H, b);
      assert |pa| == k / 2 == SplitPoint((n + 1) / 2);
      assert (pa + pb)[..k / 2] == pa && (pa + pb)[k / 2..] == pb;
      PairUpKeepsTreeHash(H, a);
      PairUpKeepsTreeHash(H, b);
    } else if n == 2 {
      assert level[..1] == [level[0]] && level[1..] == [level[1]];
    }
  }

  /** The inner loop of `merkle_root`: build the next level. */
  method NextLevel(H: Hasher, level: seq<Hash>) returns (next: seq<Hash>)
    ensures next == PairUp(H, level)
  {
    hide *;
    next := [];
    var i := 0;
    assert level[0..] == level;
    while i < |level|
      invariant i <= |level|
      invariant next + PairUp(H, level[i..]) == PairUp(H, level)
    {
      ghost var rest := level[i..];
      PairUpStep(H, rest);
      if i + 1 < |level| {
        assert rest[2..] == level[i + 2..];
        next := next + [NodeHash(H, level[i], level[i + 1])];
        i := i + 2;
      } else {
        PairUpStep(H, []);
        assert rest == [level[i]] && level[i + 1..] == [];
        next := next + [level[i]];
        i := i + 1;
      }
    }
    PairUpStep(H, []);
    assert level[i..] == [];
  }

  /** `merkle_root` of the app, mirrored by `build_root`: level by level. */
  method BuildRoot(H: Hasher, leaves: seq<Hash>) returns (root: Hash)
    ensures root == RootOf(H, leaves)
  {
    if leaves == [] {
      return H([]);
    }
    var level := leaves;
    while |level| > 1
      invariant level != []
      invariant TreeHash(H, level) == TreeHash(H, leaves)
      decreases |level|
    {
      PairUpKeepsTreeHash(H, level);
      level := NextLevel(H, level);
    }
    root := level[0];
  }

  /** One level of the anchor's loop: `chunks_exact(2)`, then the odd node. */
  method AnchorLevel(H: Hasher, level: seq<Hash>) returns (next: seq<Hash>)
    ensures next == PairUp(H, level)
  {
    hide *;
    next := [];
    PairUpStep(H, level[..0]);
    for i := 0 to |level| / 2
      invariant next == PairUp(H, level[..2 * i])
    {
      var pair := level[2 * i..2 * i + 2];
      PairUpAppend(H, level[..2 * i], pair);
      PairUpStep(H, pair);
      PairUpStep(H, pair[2..]);
      assert level[..2 * i] + pair == level[..2 * (i + 1)];
      next := next + [NodeHash(H, pair[0], pair[1])];
    }
    var even := 2 * (|level| / 2);
    assert level == level[..even] + level[even..];
    PairUpAppend(H, level[..even], level[even..]);
    PairUpStep(H, level[even..]);
    if |level| % 2 == 1 {
      next := next + [level[|level| - 1]];
    }
  }

  /** `merkle_root` of the transcript anchor. The caller promises a non-empty
      window, as the source asserts. */
  method AnchorRoot(H: Hasher, leaves: seq<Hash>) returns (root: Hash)
    requires leaves != []
    ensures root == TreeHash(H, leaves)
  {
    var level := leaves;
    while |level| > 1
      invariant level != []
      invariant TreeHash(H, level) == TreeHash(H, leaves)
      decreases |level|
    {
      PairUpKeepsTreeHash(H, level);
      level := AnchorLevel(H, level);
    }
    root := level[0];
  }

  // ----- paths -----

  type Path = seq<Option<Hash>>

  function SiblingOf(level: seq<Hash>, idx: nat): Option<Hash>
    requires idx < |level|
  {
    var sib := if idx % 2 == 0 then idx + 1 else idx - 1;
    if sib < |level| then Some(level[sib]) else None
  }

  /** The sibling path of leaf `idx`, bottom-up; `None` marks a promotion. */
  function PathOf(H: Hasher, level: seq<Hash>, idx: nat): Path
    requires idx < |level|
    decreases |level|
  {
    if |level| == 1 then [] else [SiblingOf(level, idx)] + PathOf(H, PairUp(H, level), idx / 2)
  }

  lemma PathOfFirst(H: Hasher, level: seq<Hash>, idx: nat)
    requires idx < |level| && |level| > 1
    ensures PathOf(H, level, idx) == [SiblingOf(level, idx)] + PathOf(H, PairUp(H, level), idx / 2)
  {
  }

  /** `merkle_path` / `build_path`. */
  method BuildPath(H: Hasher, leaves: seq<Hash>, index: nat) returns (siblings: Path)
    requires index < |leaves|
    ensures siblings == PathOf(H, leaves, index)
  {
    siblings := [];
    var level := leaves;
    var idx: nat := index;
    ghost var whole := PathOf(H, leaves, index);
    while |level| > 1
      invariant idx < |level|
      invariant siblings + PathOf(H, level, idx) == whole
      decreases |level|
    {
      var entry := SiblingOf(level, idx);
      PathOfFirst(H, level, idx);
      ghost var rest := PathOf(H, PairUp(H, level), idx / 2);
      assert siblings + ([entry] + rest) == (siblings + [entry]) + rest;
      siblings := siblings + [entry];
      level := NextLevel(H, level);
      idx := idx / 2;
    }
    assert PathOf(H, level, idx) == [];
  }

  function StepUp(H: Hasher, cur: Hash, idx: nat, sib: Option<Hash>): Hash {
    match sib
    case None => cur
    case Some(s) => if idx % 2 == 0 then NodeHash(H, cur, s) else NodeHash(H, s, cur)
  }

  function Halved(idx: nat, times: nat): nat {
    if times == 0 then idx else Halved(idx, times - 1) / 2
  }

  /** The value a proof walk reaches from `leaf`. */
  function WalkUp(H: Hasher, leaf: Hash, idx: nat, siblings: Path): Hash
    decreases |siblings|
  {
    if siblings == [] then leaf
    else
      var n := |siblings| - 1;
      StepUp(H, WalkUp(H, leaf, idx, siblings[..n]), Halved(idx, n), siblings[n])
  }

  /** `compute_root`: the light client's proof walk. */
  method ComputeRoot(H: Hasher, leaf: Hash, leafIndex: nat, siblings: Path) returns (cur: Hash)
    ensures cur == WalkUp(H, leaf, leafIndex, siblings)
  {
    cur := leaf;
    var idx: nat := leafIndex;
    for i := 0 to |siblings|
      invariant idx == Halved(leafIndex, i)
      invariant cur == WalkUp(H, leaf, leafIndex, siblings[..i])
    {
      assert siblings[..i + 1][..i] == siblings[..i];
      cur := StepUp(H, cur, idx, siblings[i]);
      idx := idx / 2;
    }
    assert siblings[..|siblings|] == siblings;
  }

  lemma {:induction false} HalvedOnce(idx: nat, times: nat)
    ensures Halved(idx, times + 1) == Halved(idx / 2, times)
  {
    if times > 0 {
      HalvedOnce(idx, times - 1);
    }
  }

  lemma {:induction false} WalkUpFirst(H: Hasher, leaf: Hash, idx: nat, first: Option<Hash>, rest: Path)
    ensures WalkUp(H, leaf, idx, [first] + rest) == WalkUp(H, StepUp(H, leaf, idx, first), idx / 2, rest)
    decreases |rest|
  {
    var all := [first] + rest;
    if rest == [] {
      assert all[..0] == [];
      assert WalkUp(H, leaf, idx, all[..0]) == leaf;
    } else {
      var n := |rest| - 1;
      assert all[..n + 1] == [first] + rest[..n];
      WalkUpFirst(H, leaf, idx, first, rest[..n]);
      HalvedOnce(idx, n);
    }
  }

  /** One step up from a leaf is its parent. */
  lemma StepIsParent(H: Hasher, leaves: seq<Hash>, i: nat)
    requires i < |leaves| && |leaves| > 1
    ensures i / 2 < |PairUp(H, leaves)| < |leaves|
    ensures StepUp(H, leaves[i], i, SiblingOf(leaves, i)) == PairUp(H, leaves)[i / 2]
  {
    hide PairUp, NodeHash;
    PairUpAt(H, leaves, i / 2);
  }

  /** Completeness: the built path proves its leaf against the built root. */
  lemma {:induction false} PathProvesLeaf(H: Hasher, leaves: seq<Hash>, i: nat)
    requires i < |leaves|
    ensures WalkUp(H, leaves[i], i, PathOf(H, leaves, i)) == TreeHash(H, leaves)
    decreases |leaves|
  {
    if |leaves| > 1 {
      hide *;
      var up := PairUp(H, leaves);
      PathOfFirst(H, leaves, i);
      StepIsParent(H, leaves, i);
      WalkUpFirst(H, leaves[i], i, SiblingOf(leaves, i), PathOf(H, up, i / 2));
      PathProvesLeaf(H, up, i / 2);
      PairUpKeepsTreeHash(H, leaves);
    }
  }

  // ----- soundness, with explicit collisions -----

  lemma LeavesSplit(H: Hasher, data: seq<Bytes>, k: nat)
    requires k <= |data|
    ensures Leaves(H, data)[..k] == Leaves(H, data[..k])
    ensures Leaves(H, data)[k..] == Leaves(H, data[k..])
  {
  }

  lemma NodePreimageInjective(l: Hash, r: Hash, l': Hash, r': Hash)
    requires NodePreimage(l, r) == NodePreimage(l', r')
    ensures l == l' && r == r'
  {
    var p, p' := NodePreimage(l, r), NodePreimage(l', r');
    assert l == p[1..33] && r == p[33..];
    assert l' == p'[1..33] && r' == p'[33..];
  }

  datatype Finding = Member(i: nat) | Broken(c: Collision)

  predicate Holds(H: Hasher, f: Finding, data: Bytes, entries: seq<Bytes>) {
    match f
    case Member(i) => i < |entries| && entries[i] == data
    case Broken(c) => Breaks(H, c)
  }

  /** Soundness of the walk, for any index and any path a prover can submit:
      from a walk that reaches the root, compute either a committed entry with
      exactly the proved bytes, or a collision. */
  function Explain(H: Hasher, data: Bytes, idx: nat, siblings: Path, entries: seq<Bytes>): (f: Finding)
    requires WalkUp(H, LeafHash(H, data), idx, siblings) == RootOf(H, Leaves(H, entries))
    ensures Holds(H, f, data, entries)
    decreases |siblings|
  {
    var leaves := Leaves(H, entries);
    if siblings == [] then
      if entries == [] then Broken(Collision([0] + data, []))
      else if |entries| == 1 then
        if data == entries[0] then Member(0)
        else
          assert ([0] + data)[1..] == data && ([0] + entries[0])[1..] == entries[0];
          Broken(Collision([0] + data, [0] + entries[0]))
      else
        var k := SplitPoint(|leaves|);
        var l, r := TreeHash(H, leaves[..k]), TreeHash(H, leaves[k..]);
        assert ([0] + data)[0] != NodePreimage(l, r)[0];
        Broken(Collision([0] + data, NodePreimage(l, r)))
    else
      var n := |siblings| - 1;
      var below := WalkUp(H, LeafHash(H, data), idx, siblings[..n]);
      match siblings[n]
      case None => Explain(H, data, idx, siblings[..n], entries)
      case Some(s) =>
        var left := Halved(idx, n) % 2 == 0;
        var pre := if left then NodePreimage(below, s) else NodePreimage(s, below);
        if entries == [] then Broken(Collision(pre, []))
        else if |entries| == 1 then
          assert pre[0] != ([0] + entries[0])[0];
          Broken(Collision(pre, [0] + entries[0]))
        else
          var k := SplitPoint(|leaves|);
          var l, r := TreeHash(H, leaves[..k]), TreeHash(H, leaves[k..]);
          if pre != NodePreimage(l, r) then Broken(Collision(pre, NodePreimage(l, r)))
          else
            LeavesSplit(H, entries, k);
            if left then
              NodePreimageInjective(below, s, l, r);
              Explain(H, data, idx, siblings[..n], entries[..k])
            else
              NodePreimageInjective(s, below, l, r);
              match Explain(H, data, idx, siblings[..n], entries[k..])
              case Member(i) => Member(k + i)
              case Broken(c) => Broken(c)
  }

  /** Binding: two non-empty transcripts with one root are the same ordered list,
      or the function returns a collision. */
  function Compare(H: Hasher, a: seq<Bytes>, b: seq<Bytes>): (c: Option<Collision>)
    requires a != [] && b != []
    requires TreeHash(H, Leaves(H, a)) == TreeHash(H, Leaves(H, b))
    ensures c.None? ==> a == b
    ensures c.Some? ==> Breaks(H, c.value)
    decreases |a|
  {
    var la, lb := Leaves(H, a), Leaves(H, b);
    if |a| == 1 && |b| == 1 then
      assert ([0] + a[0])[1..] == a[0] && ([0] + b[0])[1..] == b[0];
      if a == b then None else Some(Collision([0] + a[0], [0] + b[0]))
    else if |a| == 1 then
      var k := SplitPoint(|lb|);
      var pre := NodePreimage(TreeHash(H, lb[..k]), TreeHash(H, lb[k..]));
      assert pre[0] != ([0] + a[0])[0];
      Some(Collision([0] + a[0], pre))
    else if |b| == 1 then
      var k := SplitPoint(|la|);
      var pre := NodePreimage(TreeHash(H, la[..k]), TreeHash(H, la[k..]));
      assert pre[0] != ([0] + b[0])[0];
      Some(Collision(pre, [0] + b[0]))
    else
      var j, k := SplitPoint(|la|), SplitPoint(|lb|);
      var l, r := TreeHash(H, la[..j]), TreeHash(H, la[j..]);
      var l', r' := TreeHash(H, lb[..k]), TreeHash(H, lb[k..]);
      if NodePreimage(l, r) != NodePreimage(l', r') then Some(Collision(NodePreimage(l, r), NodePreimage(l', r')))
      else
        NodePreimageInjective(l, r, l', r');
        LeavesSplit(H, a, j);
        LeavesSplit(H, b, k);
        match Compare(H, a[..j], b[..k])
        case Some(c) => Some(c)
        case None =>
          assert a == a[..j] + a[j..] && b == b[..k] + b[k..];
          Compare(H, a[j..], b[k..])
  }
}
