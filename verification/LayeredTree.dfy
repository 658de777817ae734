/** The older note flow's tree: the whole leaf list is hashed layer by layer, and one leaf's path is
    collected on the way up. */
module LayeredTree {
  import opened Basics
  import opened PaddedTree
  import opened MerklePath
  import FrontierTree

  datatype Path = Path(pathElements: seq<F>, pathIndices: seq<nat>, root: F)
  datatype Result = Built(path: Path) | OutOfRange

  /** Reading a layer, with the level's zero past its end, gives the padded tree's node. */
  ghost predicate LayerAt(h: Hash, m: map<nat, F>, level: nat, nodes: seq<F>, i: nat) {
    (if i < |nodes| then nodes[i] else ZeroAt(h, level)) == Node(h, m, level, i)
  }

  ghost predicate IsLayer(h: Hash, m: map<nat, F>, level: nat, nodes: seq<F>) {
    forall i: nat :: LayerAt(h, m, level, nodes, i)
  }

  /** Pairing up a layer, with the level's zero for a missing right sibling, gives the next layer. */
  lemma NextLayer(h: Hash, m: map<nat, F>, level: nat, nodes: seq<F>, next: seq<F>)
    requires IsLayer(h, m, level, nodes)
    requires |next| == (|nodes| + 1) / 2
    requires forall i: nat :: i < |next| ==> next[i] == Node(h, m, level + 1, i)
    ensures IsLayer(h, m, level + 1, next)
  {
    var up := level + 1;
    forall i: nat ensures LayerAt(h, m, up, next, i) {
      if |next| <= i {
        assert LayerAt(h, m, level, nodes, 2 * i) && LayerAt(h, m, level, nodes, 2 * i + 1);
      }
    }
  }

  method ZeroHashes(h: Hash, levels: nat) returns (zeros: seq<F>)
    ensures |zeros| == levels + 1 && forall l: nat :: l <= levels ==> zeros[l] == ZeroAt(h, l)
  {
    zeros := [0];
    for i := 0 to levels
      invariant |zeros| == i + 1 && forall l: nat :: l <= i ==> zeros[l] == ZeroAt(h, l)
    {
      zeros := zeros + [h(zeros[i], zeros[i])];
    }
  }

  /** Hashes a layer pairwise into the next one. */
  method HashLayer(h: Hash, ghost m: map<nat, F>, level: nat, nodes: seq<F>, zero: F) returns (next: seq<F>)
    requires IsLayer(h, m, level, nodes) && zero == ZeroAt(h, level)
    ensures IsLayer(h, m, level + 1, next) && |next| == (|nodes| + 1) / 2
  {
    next := [];
    var i := 0;
    while i < |nodes|
      invariant i == 2 * |next| && i <= |nodes| + 1
      invariant forall k: nat :: k < |next| ==> next[k] == Node(h, m, level + 1, k)
    {
      var left := nodes[i];
      var right := if i + 1 < |nodes| then nodes[i + 1] else zero;
      assert LayerAt(h, m, level, nodes, i) && LayerAt(h, m, level, nodes, i + 1);
      next := next + [h(left, right)];
      i := i + 2;
    }
    NextLayer(h, m, level, nodes, next);
  }

  /** Rejects exactly the indices outside the list. Otherwise the root is the padded tree's root
      (over the first 2^levels leaves, should there be more), the elements are the leaf's siblings,
      the indices are its direction bits, and the fold of the leaf gives the root. */
  method BuildMerklePath(h: Hash, levels: nat, leaves: seq<F>, leafIndex: int) returns (r: Result)
    ensures r.OutOfRange? <==> !(0 <= leafIndex < |leaves|)
    ensures r.Built? ==>
              && |r.path.pathElements| == levels == |r.path.pathIndices|
              && IsPath(h, Indexed(leaves), r.path.pathElements, leafIndex)
              && AreBits(r.path.pathIndices, leafIndex)
              && r.path.root == Root(h, levels, Indexed(leaves))
    ensures r.Built? && leafIndex < Pow2(levels) ==>
              Fold(h, leaves[leafIndex], r.path.pathElements, leafIndex) == r.path.root
    ensures r.Built? && |leaves| <= Pow2(levels) ==>
              r.path.root == FrontierTree.RootAfter(h, levels, leaves)
  {
    if leafIndex < 0 || leafIndex >= |leaves| {
      return OutOfRange;
    }
    ghost var m := Indexed(leaves);
    var zeros := ZeroHashes(h, levels);
    var pathElements: seq<F>, pathIndices: seq<nat> := [], [];
    var nodes, idx: nat := leaves, leafIndex;
    assert IsLayer(h, m, 0, nodes);
    for level := 0 to levels
      invariant idx == Ancestor(leafIndex, level)
      invariant nodes != [] && IsLayer(h, m, level, nodes)
      invariant |pathElements| == level == |pathIndices|
      invariant IsPath(h, m, pathElements, leafIndex)
      invariant AreBits(pathIndices, leafIndex)
    {
      var siblingIndex := Sibling(idx);
      assert LayerAt(h, m, level, nodes, siblingIndex);
      var element := if siblingIndex < |nodes| then nodes[siblingIndex] else zeros[level];
      PathExtend(h, m, pathElements, leafIndex, element);
      BitsExtend(pathIndices, leafIndex, idx % 2);
      pathElements := pathElements + [element];
      pathIndices := pathIndices + [idx % 2];
      nodes := HashLayer(h, m, level, nodes, zeros[level]);
      idx := idx / 2;
    }
    if leafIndex < Pow2(levels) {
      PathFoldsToRoot(h, m, pathElements, leafIndex);
    }
    if |leaves| <= Pow2(levels) {
      FrontierTree.RootAfterIsRoot(h, levels, leaves);
    }
    assert LayerAt(h, m, levels, nodes, 0);
    return Built(Path(pathElements, pathIndices, nodes[0]));
  }
}
