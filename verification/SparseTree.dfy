/** The wallet's tree: a sparse node map filled leaf by leaf, from which roots and paths are read. */
module SparseTree {
  import opened Basics
  import opened PaddedTree
  import opened MerklePath
  import FrontierTree

  datatype Commitment = Commitment(leafIndex: nat, value: F)

  type Nodes = map<(nat, nat), F>

  /** The leaf assignment a commitment list stands for; a later entry wins over an earlier one. */
  function Assigned(cs: seq<Commitment>): map<nat, F> {
    if cs == [] then map[]
    else
      var last := cs[|cs| - 1];
      Assigned(cs[..|cs| - 1])[last.leafIndex := last.value]
  }

  function Get(nodes: Nodes, z: seq<F>, level: nat, idx: nat): F
    requires level < |z|
  {
    if (level, idx) in nodes then nodes[(level, idx)] else z[level]
  }

  /** Looking a node up, with the level's zero as default, gives the padded tree's node. */
  ghost predicate HoldsAt(h: Hash, nodes: Nodes, m: map<nat, F>, level: nat, idx: nat) {
    (if (level, idx) in nodes then nodes[(level, idx)] else ZeroAt(h, level)) == Node(h, m, level, idx)
  }

  ghost predicate Faithful(h: Hash, depth: nat, nodes: Nodes, m: map<nat, F>) {
    forall l: nat, i: nat :: l <= depth ==> HoldsAt(h, nodes, m, l, i)
  }

  /** While leaf `leaf` is being written, only its ancestors above `level` are stale. */
  ghost predicate FaithfulBut(h: Hash, depth: nat, nodes: Nodes, m: map<nat, F>, leaf: nat, level: nat) {
    forall l: nat, i: nat :: l <= depth && (l <= level || i != Ancestor(leaf, l)) ==> HoldsAt(h, nodes, m, l, i)
  }

  lemma FaithfulStart(h: Hash, depth: nat, nodes: Nodes, m: map<nat, F>, leaf: nat, v: F)
    requires Faithful(h, depth, nodes, m)
    ensures FaithfulBut(h, depth, nodes[(0, leaf) := v], m[leaf := v], leaf, 0)
  {
    var nodes', m' := nodes[(0, leaf) := v], m[leaf := v];
    forall l: nat, i: nat | l <= depth && (l <= 0 || i != Ancestor(leaf, l))
      ensures HoldsAt(h, nodes', m', l, i)
    {
      assert HoldsAt(h, nodes, m, l, i);
      if i != Ancestor(leaf, l) {
        NodeOffPath(h, m, leaf, v, l, i);
      } else {
        assert l == 0 && i == leaf;
      }
    }
  }

  /** Storing the right value one level up moves the stale part up by one. */
  lemma FaithfulStep(h: Hash, depth: nat, nodes: Nodes, m: map<nat, F>, leaf: nat, level: nat, cur: F)
    requires FaithfulBut(h, depth, nodes, m, leaf, level) && level < depth
    requires cur == Node(h, m, level + 1, Ancestor(leaf, level + 1))
    ensures FaithfulBut(h, depth, nodes[(level + 1, Ancestor(leaf, level + 1)) := cur], m, leaf, level + 1)
  {
    var at := (level + 1, Ancestor(leaf, level + 1));
    var nodes' := nodes[at := cur];
    forall l: nat, i: nat | l <= depth && (l <= level + 1 || i != Ancestor(leaf, l))
      ensures HoldsAt(h, nodes', m, l, i)
    {
      assert (l, i) != at ==> HoldsAt(h, nodes, m, l, i);
    }
  }

  lemma FaithfulEmpty(h: Hash, depth: nat)
    ensures Faithful(h, depth, map[], map[])
  {
    forall l: nat, i: nat ensures HoldsAt(h, map[], map[], l, i) {
      NodeOfEmpty(h, l, i);
    }
  }

  /** On the stale path, the sibling of the last fresh node can be looked up. */
  lemma SiblingHolds(h: Hash, depth: nat, z: seq<F>, nodes: Nodes, m: map<nat, F>, leaf: nat, level: nat)
    requires FaithfulBut(h, depth, nodes, m, leaf, level) && level < depth == |z| && z[level] == ZeroAt(h, level)
    ensures Get(nodes, z, level, Sibling(Ancestor(leaf, level))) == Node(h, m, level, Sibling(Ancestor(leaf, level)))
  {
    assert HoldsAt(h, nodes, m, level, Sibling(Ancestor(leaf, level)));
  }

  lemma FaithfulEnd(h: Hash, depth: nat, nodes: Nodes, m: map<nat, F>, leaf: nat)
    requires FaithfulBut(h, depth, nodes, m, leaf, depth)
    ensures Faithful(h, depth, nodes, m)
  {
  }

  /** Zero hashes of the levels below the root. */
  method Zeros(h: Hash, depth: nat) returns (z: seq<F>)
    requires 0 < depth
    ensures |z| == depth && forall l: nat :: l < depth ==> z[l] == ZeroAt(h, l)
  {
    z := [0];
    for i := 1 to depth
      invariant |z| == i && forall l: nat :: l < i ==> z[l] == ZeroAt(h, l)
    {
      z := z + [h(z[i - 1], z[i - 1])];
    }
  }

  /** Stores one leaf and rehashes its path up to the root. */
  method PutLeaf(h: Hash, z: seq<F>, nodes: Nodes, c: Commitment, ghost m: map<nat, F>) returns (nodes': Nodes, root: F)
    requires forall l: nat :: l < |z| ==> z[l] == ZeroAt(h, l)
    requires Faithful(h, |z|, nodes, m) && c.leafIndex < Pow2(|z|)
    ensures Faithful(h, |z|, nodes', m[c.leafIndex := c.value])
    ensures root == Root(h, |z|, m[c.leafIndex := c.value])
  {
    hide Faithful, FaithfulBut, HoldsAt;
    var depth := |z|;
    ghost var m' := m[c.leafIndex := c.value];
    var idx, cur := c.leafIndex, c.value;
    FaithfulStart(h, depth, nodes, m, c.leafIndex, c.value);
    nodes' := nodes[(0, idx) := cur];
    for level := 0 to depth
      invariant idx == Ancestor(c.leafIndex, level)
      invariant cur == Node(h, m', level, idx)
      invariant FaithfulBut(h, depth, nodes', m', c.leafIndex, level)
    {
      SiblingHolds(h, depth, z, nodes', m', c.leafIndex, level);
      NodeOfPair(h, m', level, idx);
      if idx % 2 == 0 {
        cur := h(cur, Get(nodes', z, level, idx + 1));
      } else {
        cur := h(Get(nodes', z, level, idx - 1), cur);
      }
      FaithfulStep(h, depth, nodes', m', c.leafIndex, level, cur);
      idx := idx / 2;
      nodes' := nodes'[(level + 1, idx) := cur];
    }
    FaithfulEnd(h, depth, nodes', m', c.leafIndex);
    AncestorInRange(c.leafIndex, depth);
    root := cur;
  }

  /** Writes each commitment in turn. Whatever the order of the commitments, the map then holds every
      node of the padded tree over them and the root is that tree's root. */
  method BuildTree(h: Hash, depth: nat, cs: seq<Commitment>) returns (z: seq<F>, nodes: Nodes, root: F)
    requires 0 < depth
    requires forall c :: c in cs ==> c.leafIndex < Pow2(depth)
    ensures |z| == depth && forall l: nat :: l < depth ==> z[l] == ZeroAt(h, l)
    ensures Faithful(h, depth, nodes, Assigned(cs))
    ensures root == Root(h, depth, Assigned(cs))
  {
    hide Faithful;
    z := Zeros(h, depth);
    nodes := map[];
    root := h(z[depth - 1], z[depth - 1]);
    NodeOfEmpty(h, depth, 0);
    FaithfulEmpty(h, depth);
    for k := 0 to |cs|
      invariant Faithful(h, depth, nodes, Assigned(cs[..k]))
      invariant root == Root(h, depth, Assigned(cs[..k]))
    {
      assert cs[..k + 1][..k] == cs[..k];
      nodes, root := PutLeaf(h, z, nodes, cs[k], Assigned(cs[..k]));
    }
    assert cs[..|cs|] == cs;
  }

  /** `packed` holds the low `level` bits of `leaf`, and `idx` the rest. */
  ghost predicate Packed(leaf: nat, packed: nat, idx: nat, level: nat) {
    packed < Pow2(level) && leaf == packed + idx * Pow2(level)
  }

  lemma PackNone(leaf: nat)
    ensures Packed(leaf, 0, leaf, 0)
  {
  }

  lemma PackAll(leaf: nat, packed: nat, level: nat)
    requires Packed(leaf, packed, 0, level)
    ensures packed == leaf
  {
  }

  lemma PackBit(leaf: nat, packed: nat, idx: nat, level: nat)
    requires Packed(leaf, packed, idx, level)
    ensures Packed(leaf, if idx % 2 == 0 then packed else packed + Pow2(level), idx / 2, level + 1)
  {
    var a, q := Pow2(level), idx / 2;
    assert Pow2(level + 1) == 2 * a;
    if idx % 2 == 0 {
      Regroup(q, a, 0);
    } else {
      Regroup(q, a, 1);
    }
  }

  lemma Regroup(q: nat, a: nat, r: nat)
    ensures (2 * q + r) * a == q * (2 * a) + r * a
  {
  }

  /** Reads the siblings of a leaf and packs the direction bits: the packed bits are the leaf index
      itself, and the path folds the stored leaf to the root. */
  method PathOf(h: Hash, z: seq<F>, nodes: Nodes, leafIndex: nat, ghost m: map<nat, F>)
    returns (pathElements: seq<F>, pathIndices: nat)
    requires forall l: nat :: l < |z| ==> z[l] == ZeroAt(h, l)
    requires Faithful(h, |z|, nodes, m) && leafIndex < Pow2(|z|)
    ensures |pathElements| == |z| && IsPath(h, m, pathElements, leafIndex)
    ensures pathIndices == leafIndex
    ensures Fold(h, LeafAt(m, leafIndex), pathElements, pathIndices) == Root(h, |z|, m)
  {
    hide Node, ZeroAt, Root, Pow2, Packed;
    pathElements, pathIndices := [], 0;
    var idx := leafIndex;
    PackNone(leafIndex);
    for level := 0 to |z|
      invariant idx == Ancestor(leafIndex, level)
      invariant |pathElements| == level && IsPath(h, m, pathElements, leafIndex)
      invariant Packed(leafIndex, pathIndices, idx, level)
    {
      var isLeft := idx % 2 == 0;
      assert HoldsAt(h, nodes, m, level, Sibling(idx));
      var sibling := Get(nodes, z, level, if isLeft then idx + 1 else idx - 1);
      PathExtend(h, m, pathElements, leafIndex, sibling);
      pathElements := pathElements + [sibling];
      PackBit(leafIndex, pathIndices, idx, level);
      if !isLeft {
        // Bit `level` is clear so far, so setting it adds 2^level.
        pathIndices := pathIndices + Pow2(level);
      }
      idx := idx / 2;
    }
    AncestorInRange(leafIndex, |z|);
    PackAll(leafIndex, pathIndices, |z|);
    PathFoldsToRoot(h, m, pathElements, leafIndex);
  }

  datatype LeafPath = LeafPath(pathElements: seq<F>, pathIndices: nat)

  /** Paths of several leaves, all against one root. */
  method SpendPaths(h: Hash, depth: nat, cs: seq<Commitment>, leafIndices: seq<nat>)
    returns (root: F, paths: seq<LeafPath>)
    requires 0 < depth
    requires forall c :: c in cs ==> c.leafIndex < Pow2(depth)
    requires forall i :: i in leafIndices ==> i < Pow2(depth)
    ensures root == Root(h, depth, Assigned(cs)) && |paths| == |leafIndices|
    ensures forall k :: 0 <= k < |paths| ==>
              && |paths[k].pathElements| == depth && paths[k].pathIndices == leafIndices[k]
              && Fold(h, LeafAt(Assigned(cs), leafIndices[k]), paths[k].pathElements, leafIndices[k]) == root
  {
    var z, nodes, r := BuildTree(h, depth, cs);
    root, paths := r, [];
    for k := 0 to |leafIndices|
      invariant |paths| == k
      invariant forall j :: 0 <= j < k ==>
        && |paths[j].pathElements| == depth && paths[j].pathIndices == leafIndices[j]
        && Fold(h, LeafAt(Assigned(cs), leafIndices[j]), paths[j].pathElements, leafIndices[j]) == root
    {
      assert leafIndices[k] in leafIndices;
      var elements, indices := PathOf(h, z, nodes, leafIndices[k], Assigned(cs));
      paths := paths + [LeafPath(elements, indices)];
    }
  }

  /** The guard on a list rebuilt from events: indices must run 0, 1, 2, ... */
  method ContiguousFromZero(cs: seq<Commitment>) returns (ok: bool)
    ensures ok <==> forall i :: 0 <= i < |cs| ==> cs[i].leafIndex == i
  {
    for i := 0 to |cs|
      invariant forall j :: 0 <= j < i ==> cs[j].leafIndex == j
    {
      if cs[i].leafIndex != i {
        return false;
      }
    }
    return true;
  }

  /** Every entry is a leaf the vault really emitted. */
  ghost predicate Genuine(cs: seq<Commitment>, leaves: seq<F>) {
    forall c :: c in cs ==> c.leafIndex < |leaves| && c.value == leaves[c.leafIndex]
  }

  ghost predicate Mentions(cs: seq<Commitment>, i: nat) {
    exists c :: c in cs && c.leafIndex == i
  }

  /** Genuine entries that cover every leaf stand for the vault's leaf list, in any order and with
      any repetition. */
  lemma {:induction false} AssignedGenuine(cs: seq<Commitment>, leaves: seq<F>)
    requires Genuine(cs, leaves)
    ensures forall i: nat :: i in Assigned(cs) <==> Mentions(cs, i)
    ensures forall i :: i in Assigned(cs) ==> i < |leaves| && Assigned(cs)[i] == leaves[i]
  {
    if cs != [] {
      var front, last := cs[..|cs| - 1], cs[|cs| - 1];
      assert cs == front + [last];
      AssignedGenuine(front, leaves);
      forall i: nat ensures i in Assigned(cs) <==> Mentions(cs, i) {
        if i == last.leafIndex {
          assert last in cs;
        } else if i in Assigned(cs) {
          assert Mentions(front, i);
          var c :| c in front && c.leafIndex == i;
          assert c in cs;
        }
      }
    }
  }

  /** Wallet and vault agree: over all emitted leaves, in any order, the sparse tree's root is the
      root the vault's frontier computed. */
  lemma SparseRootIsVaultRoot(h: Hash, depth: nat, cs: seq<Commitment>, leaves: seq<F>)
    requires Genuine(cs, leaves) && |leaves| <= Pow2(depth)
    requires forall i: nat :: i < |leaves| ==> Mentions(cs, i)
    ensures Root(h, depth, Assigned(cs)) == FrontierTree.RootAfter(h, depth, leaves)
  {
    AssignedGenuine(cs, leaves);
    assert Assigned(cs) == Indexed(leaves);
    FrontierTree.RootAfterIsRoot(h, depth, leaves);
  }

  /** The contiguity guard cannot see a dropped tail: what passes is exactly some prefix of the
      vault's leaves, and its root is still accepted by the vault when fewer than `history` leaves
      are missing. */
  lemma ContiguousIsPrefix(h: Hash, depth: nat, history: nat, cs: seq<Commitment>, leaves: seq<F>)
    requires Genuine(cs, leaves) && |leaves| <= Pow2(depth)
    requires forall i :: 0 <= i < |cs| ==> cs[i].leafIndex == i
    ensures |cs| <= |leaves|
    ensures Root(h, depth, Assigned(cs)) == FrontierTree.RootAfter(h, depth, leaves[..|cs|])
    ensures |leaves| < |cs| + history && Root(h, depth, Assigned(cs)) != 0 ==>
              FrontierTree.KnownRoot(h, depth, history, leaves, Root(h, depth, Assigned(cs)))
  {
    if cs != [] {
      assert cs[|cs| - 1] in cs;
    }
    var prefix := leaves[..|cs|];
    forall c | c in cs ensures c.leafIndex < |prefix| && c.value == prefix[c.leafIndex] {
      var i :| 0 <= i < |cs| && cs[i] == c;
    }
    forall i: nat | i < |prefix| ensures Mentions(cs, i) {
      assert cs[i] in cs && cs[i].leafIndex == i;
    }
    SparseRootIsVaultRoot(h, depth, cs, prefix);
  }

  /** Exactly when a list that passes the guard still spends: without collisions and zero leaves its root is
      known to the vault if and only if fewer than `history` leaves are missing. */
  lemma ContiguousKnownIff(h: Hash, depth: nat, history: nat, cs: seq<Commitment>, leaves: seq<F>, asked: iset<(F, F)>)
    requires Genuine(cs, leaves) && |leaves| <= Pow2(depth) && (forall v :: v in leaves ==> v != 0)
    requires forall i :: 0 <= i < |cs| ==> cs[i].leafIndex == i
    requires CollisionFree(h, asked) && FrontierTree.PrefixesAsked(h, depth, leaves, asked)
    requires Root(h, depth, Assigned(cs)) != 0
    ensures FrontierTree.KnownRoot(h, depth, history, leaves, Root(h, depth, Assigned(cs))) <==>
            |leaves| < |cs| + history
  {
    hide CollisionFree, FrontierTree.PrefixesAsked, FrontierTree.KnownRoot, FrontierTree.RootAfter, Root, Pow2;
    ContiguousIsPrefix(h, depth, history, cs, leaves);
    FrontierTree.PrefixKnownIff(h, depth, history, leaves, |cs|, asked);
  }
}
