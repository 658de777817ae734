/** Inclusion paths: folding a leaf with its siblings, as the circuit and both wallets do. */
module MerklePath {
  import opened Basics
  import opened PaddedTree

  function Sibling(i: nat): nat {
    if i % 2 == 0 then i + 1 else i - 1
  }

  /** The two values hashed on level `l` of the fold of `leaf` along `path`. */
  function FoldPair(h: Hash, leaf: F, path: seq<F>, idx: nat, l: nat): (F, F)
    requires l < |path|
    decreases l, 1
  {
    var below := FoldTo(h, leaf, path, idx, l);
    if Ancestor(idx, l) % 2 == 0 then (below, path[l]) else (path[l], below)
  }

  /** Value reached after folding the first `l` levels; bit `l` of `idx` says which side the path is on. */
  function FoldTo(h: Hash, leaf: F, path: seq<F>, idx: nat, l: nat): F
    requires l <= |path|
    decreases l, 0
  {
    if l == 0 then leaf
    else
      var pair := FoldPair(h, leaf, path, idx, l - 1);
      h(pair.0, pair.1)
  }

  function Fold(h: Hash, leaf: F, path: seq<F>, idx: nat): F {
    FoldTo(h, leaf, path, idx, |path|)
  }

  /** `path` lists, level by level, the siblings of the way from leaf `idx` to the root. */
  ghost predicate IsPath(h: Hash, m: map<nat, F>, path: seq<F>, idx: nat) {
    forall l: nat :: l < |path| ==> path[l] == Node(h, m, l, Sibling(Ancestor(idx, l)))
  }

  /** The siblings of leaf `idx`, read off the tree. */
  ghost function PathIn(h: Hash, m: map<nat, F>, depth: nat, idx: nat): (p: seq<F>)
    ensures |p| == depth && IsPath(h, m, p, idx)
  {
    seq(depth, l requires 0 <= l < depth => Node(h, m, l, Sibling(Ancestor(idx, l))))
  }

  lemma PathExtend(h: Hash, m: map<nat, F>, path: seq<F>, idx: nat, v: F)
    requires IsPath(h, m, path, idx) && v == Node(h, m, |path|, Sibling(Ancestor(idx, |path|)))
    ensures IsPath(h, m, path + [v], idx)
  {
  }

  /** `bits` lists the direction of the path of leaf `idx` at each level, 0 for a left child. */
  ghost predicate AreBits(bits: seq<nat>, idx: nat) {
    forall l: nat :: l < |bits| ==> bits[l] == Ancestor(idx, l) % 2
  }

  lemma BitsExtend(bits: seq<nat>, idx: nat, b: nat)
    requires AreBits(bits, idx) && b == Ancestor(idx, |bits|) % 2
    ensures AreBits(bits + [b], idx)
  {
  }

  /** Soundness: a leaf folded with its siblings gives the node at the top of its path. */
  lemma {:induction false} PathFolds(h: Hash, m: map<nat, F>, path: seq<F>, idx: nat, l: nat)
    requires IsPath(h, m, path, idx) && l <= |path|
    ensures FoldTo(h, LeafAt(m, idx), path, idx, l) == Node(h, m, l, Ancestor(idx, l))
  {
    hide Node;
    if l == 0 {
      LeafNode(h, m, idx);
    } else {
      PathFolds(h, m, path, idx, l - 1);
      assert path[l - 1] == Node(h, m, l - 1, Sibling(Ancestor(idx, l - 1)));
      NodeOfPair(h, m, l - 1, Ancestor(idx, l - 1));
    }
  }

  lemma LeafNode(h: Hash, m: map<nat, F>, i: nat)
    ensures Node(h, m, 0, i) == LeafAt(m, i)
  {
  }

  lemma NodeOfPair(h: Hash, m: map<nat, F>, level: nat, idx: nat)
    ensures var own, sibling := Node(h, m, level, idx), Node(h, m, level, Sibling(idx));
      Node(h, m, level + 1, idx / 2) == if idx % 2 == 0 then h(own, sibling) else h(sibling, own)
  {
  }

  lemma PathFoldsToRoot(h: Hash, m: map<nat, F>, path: seq<F>, idx: nat)
    requires IsPath(h, m, path, idx) && idx < Pow2(|path|)
    ensures Fold(h, LeafAt(m, idx), path, idx) == Root(h, |path|, m)
  {
    PathFolds(h, m, path, idx, |path|);
    AncestorInRange(idx, |path|);
  }

  /** A set of hash inputs on which `h` has no collision. */
  ghost predicate CollisionFree(h: Hash, asked: iset<(F, F)>) {
    forall p, q :: p in asked && q in asked && h(p.0, p.1) == h(q.0, q.1) ==> p == q
  }

  /** Every pair of children hashed while computing the first `depth` levels of the tree was asked. */
  ghost predicate TreeAsked(h: Hash, m: map<nat, F>, depth: nat, asked: iset<(F, F)>) {
    forall l: nat, i: nat :: l < depth ==> ChildPair(h, m, l, i) in asked
  }

  function ChildPair(h: Hash, m: map<nat, F>, l: nat, i: nat): (F, F) {
    (Node(h, m, l, 2 * i), Node(h, m, l, 2 * i + 1))
  }

  ghost predicate FoldAsked(h: Hash, leaf: F, path: seq<F>, idx: nat, asked: iset<(F, F)>) {
    forall l: nat :: l < |path| ==> FoldPair(h, leaf, path, idx, l) in asked
  }

  /** Binding: if a fold reaches a node of the tree and no two asked pairs collide, then the folded
      leaf is the tree's leaf at that index. */
  lemma {:induction false} FoldBinds(h: Hash, m: map<nat, F>, leaf: F, path: seq<F>, idx: nat, l: nat,
                                     asked: iset<(F, F)>)
    requires CollisionFree(h, asked) && TreeAsked(h, m, |path|, asked)
    requires FoldAsked(h, leaf, path, idx, asked)
    requires l <= |path| && FoldTo(h, leaf, path, idx, l) == Node(h, m, l, Ancestor(idx, l))
    ensures leaf == LeafAt(m, idx)
  {
    if l > 0 {
      var pair, children := FoldPair(h, leaf, path, idx, l - 1), ChildPair(h, m, l - 1, Ancestor(idx, l));
      assert pair in asked && children in asked;
      assert h(pair.0, pair.1) == h(children.0, children.1);
      FoldBinds(h, m, leaf, path, idx, l - 1, asked);
    }
  }

  lemma FoldBindsToRoot(h: Hash, m: map<nat, F>, leaf: F, path: seq<F>, idx: nat, asked: iset<(F, F)>)
    requires CollisionFree(h, asked) && TreeAsked(h, m, |path|, asked)
    requires FoldAsked(h, leaf, path, idx, asked)
    requires idx < Pow2(|path|) && Fold(h, leaf, path, idx) == Root(h, |path|, m)
    ensures leaf == LeafAt(m, idx)
  {
    AncestorInRange(idx, |path|);
    FoldBinds(h, m, leaf, path, idx, |path|, asked);
  }
}
