/** The vault's append-only tree: one frontier hash per level plus a ring of recent roots. */
module FrontierTree {
  import opened Basics
  import opened PaddedTree
  import MerklePath

  /** Root recorded by the last insert. It is the root of the padded tree as long as the leaves fit. */
  function RootAfter(h: Hash, depth: nat, leaves: seq<F>): F {
    if leaves == [] then Root(h, depth, map[])
    else Node(h, Indexed(leaves), depth, Ancestor(|leaves| - 1, depth))
  }

  /** Nonzero root after one of the last `history` states of the tree, the present one included. */
  ghost predicate KnownRoot(h: Hash, depth: nat, history: nat, leaves: seq<F>, r: F) {
    r != 0 &&
    exists m: nat :: m <= |leaves| < m + history && r == RootAfter(h, depth, leaves[..m])
  }

  /** How many inserts ago ring slot `j` was written, when the newest root is in slot `cur`. */
  function SlotAge(cur: nat, history: nat, j: nat): nat
    requires cur < history && j < history
  {
    if j <= cur then cur - j else cur + history - j
  }

  function SlotOf(cur: nat, history: nat, age: nat): (j: nat)
    requires cur < history && age < history
    ensures j < history && SlotAge(cur, history, j) == age
  {
    if age <= cur then cur - age else cur + history - age
  }

  /** Index of the node a level's frontier hash belongs to: the last left child on the way of leaf `last`. */
  function LeftMost(last: nat, level: nat): nat {
    Ancestor(last, level) - Ancestor(last, level) % 2
  }

  ghost predicate FrontierOk(h: Hash, depth: nat, frontier: seq<F>, leaves: seq<F>) {
    |frontier| == depth &&
    (leaves != [] ==>
       forall l: nat :: l < depth ==>
         frontier[l] == Node(h, Indexed(leaves), l, LeftMost(|leaves| - 1, l)))
  }

  ghost predicate RingOk(h: Hash, depth: nat, roots: seq<F>, cur: nat, leaves: seq<F>) {
    cur < |roots| &&
    forall j: nat :: j < |roots| ==>
      var age := SlotAge(cur, |roots|, j);
      roots[j] == if age <= |leaves| then RootAfter(h, depth, leaves[..|leaves| - age]) else 0
  }

  /** While no more leaves than fit have been inserted, the recorded root is the padded tree's root. */
  lemma RootAfterIsRoot(h: Hash, depth: nat, leaves: seq<F>)
    requires |leaves| <= Pow2(depth)
    ensures RootAfter(h, depth, leaves) == Root(h, depth, Indexed(leaves))
  {
    if leaves == [] {
      assert Indexed(leaves) == map[];
    } else {
      AncestorInRange(|leaves| - 1, depth);
    }
  }

  lemma IndexedAppend(leaves: seq<F>, v: F)
    ensures Indexed(leaves + [v]) == Indexed(leaves)[|leaves| := v]
  {
  }

  /** Right of the path of the newest leaf the tree is still empty. */
  lemma RightIsEmpty(h: Hash, leaves: seq<F>, level: nat)
    requires leaves != []
    ensures Node(h, Indexed(leaves), level, Ancestor(|leaves| - 1, level) + 1) == ZeroAt(h, level)
  {
    forall k: nat | Ancestor(k, level) == Ancestor(|leaves| - 1, level) + 1
      ensures k !in Indexed(leaves)
    {
      if k <= |leaves| - 1 {
        AncestorMonotone(k, |leaves| - 1, level);
      }
    }
    NodeEmpty(h, Indexed(leaves), level, Ancestor(|leaves| - 1, level) + 1);
  }

  /** Where the new leaf's path turns left, the frontier already holds the left sibling, and
      appending the leaf does not change it. */
  lemma LeftIsFrontier(h: Hash, depth: nat, frontier: seq<F>, leaves: seq<F>, v: F, level: nat)
    requires FrontierOk(h, depth, frontier, leaves) && level < depth
    requires Ancestor(|leaves|, level) % 2 == 1
    ensures frontier[level] == Node(h, Indexed(leaves + [v]), level, Ancestor(|leaves|, level) - 1)
  {
    hide Node;
    var n := |leaves|;
    IndexedAppend(leaves, v);
    NodeOffPath(h, Indexed(leaves), n, v, level, Ancestor(n, level) - 1);
    if n == 0 {
      AncestorOfZero(level);
    } else {
      AncestorSuccessor(n - 1, level);
    }
  }

  lemma {:induction false} AncestorOfZero(level: nat)
    ensures Ancestor(0, level) == 0
  {
    if level > 0 {
      AncestorOfZero(level - 1);
    }
  }

  /** Writing the newest root into the next slot keeps every other slot one insert older. */
  lemma RingPush(h: Hash, depth: nat, roots: seq<F>, cur: nat, leaves: seq<F>, v: F, next: nat)
    requires RingOk(h, depth, roots, cur, leaves)
    requires next == if cur + 1 < |roots| then cur + 1 else 0
    ensures RingOk(h, depth, roots[next := RootAfter(h, depth, leaves + [v])], next, leaves + [v])
  {
    var roots' := roots[next := RootAfter(h, depth, leaves + [v])];
    var leaves' := leaves + [v];
    forall j: nat | j < |roots'|
      ensures var age := SlotAge(next, |roots'|, j);
        roots'[j] == if age <= |leaves'| then RootAfter(h, depth, leaves'[..|leaves'| - age]) else 0
    {
      if j == next {
        assert leaves'[..|leaves'|] == leaves';
      } else {
        var age := SlotAge(cur, |roots|, j);
        assert SlotAge(next, |roots'|, j) == age + 1;
        if age <= |leaves| {
          assert leaves'[..|leaves'| - (age + 1)] == leaves[..|leaves| - age];
        }
      }
    }
  }

  /** The ring holds exactly the known roots. */
  lemma RingIsKnownRoots(h: Hash, depth: nat, roots: seq<F>, cur: nat, leaves: seq<F>, r: F)
    requires RingOk(h, depth, roots, cur, leaves) && r != 0
    ensures r in roots <==> KnownRoot(h, depth, |roots|, leaves, r)
  {
    if r in roots {
      var j: nat :| j < |roots| && roots[j] == r;
      var m := |leaves| - SlotAge(cur, |roots|, j);
      assert m <= |leaves| < m + |roots| && r == RootAfter(h, depth, leaves[..m]);
    }
    if KnownRoot(h, depth, |roots|, leaves, r) {
      var m: nat :| m <= |leaves| < m + |roots| && r == RootAfter(h, depth, leaves[..m]);
      assert roots[SlotOf(cur, |roots|, |leaves| - m)] == r;
    }
  }

  lemma ModStep(n: nat, r: nat)
    requires r > 0
    ensures (n + 1) % r == if n % r + 1 < r then n % r + 1 else 0
  {
    var q, c := n / r, n % r;
    if c + 1 < r {
      DivUnique(n + 1, r, q, c + 1);
    } else {
      assert n + 1 == (q + 1) * r;
      DivUnique(n + 1, r, q + 1, 0);
    }
  }

  lemma NextSlot(n: nat, cur: nat, history: nat)
    requires history > 0 && cur == n % history
    ensures (cur + 1) % history == (n + 1) % history == if cur + 1 < history then cur + 1 else 0
  {
    ModStep(n, history);
    DivUnique(cur, history, 0, cur);
    ModStep(cur, history);
  }

  lemma NewLeaf(h: Hash, leaves: seq<F>, leaf: F)
    ensures Node(h, Indexed(leaves + [leaf]), 0, |leaves|) == leaf
  {
  }

  /** A root recorded now is still known after `k` more inserts, whatever they are, as long as
      fewer than `history` followed it. */
  lemma KnownRootSurvives(h: Hash, depth: nat, history: nat, leaves: seq<F>, more: seq<F>)
    requires RootAfter(h, depth, leaves) != 0 && |more| < history
    ensures KnownRoot(h, depth, history, leaves + more, RootAfter(h, depth, leaves))
  {
    assert (leaves + more)[..|leaves|] == leaves;
  }

  /** Two leaves go in per accepted transaction, so the current root outlives 31 further ones; with
      the 32nd its slot is overwritten, and it is known from then on only if a later root equals it. */
  lemma RootLifetime(h: Hash, depth: nat, leaves: seq<F>, more: seq<F>, txs: nat)
    requires RootAfter(h, depth, leaves) != 0 && |more| == 2 * txs
    ensures txs <= 31 ==> KnownRoot(h, depth, 64, leaves + more, RootAfter(h, depth, leaves))
    ensures txs >= 32 && KnownRoot(h, depth, 64, leaves + more, RootAfter(h, depth, leaves)) ==>
              exists k: nat :: 0 < k <= |more| &&
                RootAfter(h, depth, leaves + more[..k]) == RootAfter(h, depth, leaves)
  {
    if txs <= 31 {
      KnownRootSurvives(h, depth, 64, leaves, more);
    } else if KnownRoot(h, depth, 64, leaves + more, RootAfter(h, depth, leaves)) {
      var all := leaves + more;
      var m: nat :| m <= |all| < m + 64 &&
        RootAfter(h, depth, leaves) == RootAfter(h, depth, all[..m]);
      var k := m - |leaves|;
      assert all[..m] == leaves + more[..k];
    }
  }

  // ----- without collisions the lifetime is exact

  /** Every tree over a prefix of the leaves was hashed. */
  ghost predicate PrefixesAsked(h: Hash, depth: nat, leaves: seq<F>, asked: iset<(F, F)>) {
    forall m: nat :: m <= |leaves| ==> MerklePath.TreeAsked(h, Indexed(leaves[..m]), depth, asked)
  }

  lemma TreePathAsked(h: Hash, depth: nat, t: map<nat, F>, i: nat, path: seq<F>, asked: iset<(F, F)>)
    requires MerklePath.TreeAsked(h, t, depth, asked) && |path| == depth && MerklePath.IsPath(h, t, path, i)
    ensures MerklePath.FoldAsked(h, LeafAt(t, i), path, i, asked)
  {
    hide Node;
    forall l: nat | l < depth ensures MerklePath.FoldPair(h, LeafAt(t, i), path, i, l) in asked {
      MerklePath.PathFolds(h, t, path, i, l);
      assert MerklePath.ChildPair(h, t, l, Ancestor(i, l) / 2) in asked;
    }
  }

  /** Two different prefixes of nonzero leaves never have one root: a path in the longer tree would put its
      extra leaf into the shorter one. */
  lemma PrefixRootsDiffer(h: Hash, depth: nat, leaves: seq<F>, m: nat, n: nat, asked: iset<(F, F)>)
    requires m < n <= |leaves| <= Pow2(depth) && leaves[m] != 0
    requires MerklePath.CollisionFree(h, asked) && PrefixesAsked(h, depth, leaves, asked)
    ensures RootAfter(h, depth, leaves[..m]) != RootAfter(h, depth, leaves[..n])
  {
    hide Node, MerklePath.CollisionFree, MerklePath.TreeAsked, MerklePath.FoldAsked, RootAfter, Pow2;
    RootAfterIsRoot(h, depth, leaves[..m]);
    RootAfterIsRoot(h, depth, leaves[..n]);
    var short, long := Indexed(leaves[..m]), Indexed(leaves[..n]);
    assert LeafAt(long, m) == leaves[m] && LeafAt(short, m) == 0;
    if Root(h, depth, short) == Root(h, depth, long) {
      var path := MerklePath.PathIn(h, long, depth, m);
      TreePathAsked(h, depth, long, m, path, asked);
      MerklePath.PathFoldsToRoot(h, long, path, m);
      MerklePath.FoldBindsToRoot(h, short, leaves[m], path, m, asked);
    }
  }

  /** Exactly how long a root is known, when no two hashed pairs collide and no leaf is zero: the root after
      the first `k` leaves is known if and only if fewer than `history` leaves followed it. */
  lemma PrefixKnownIff(h: Hash, depth: nat, history: nat, leaves: seq<F>, k: nat, asked: iset<(F, F)>)
    requires k <= |leaves| <= Pow2(depth) && (forall v :: v in leaves ==> v != 0)
    requires MerklePath.CollisionFree(h, asked) && PrefixesAsked(h, depth, leaves, asked)
    requires RootAfter(h, depth, leaves[..k]) != 0
    ensures KnownRoot(h, depth, history, leaves, RootAfter(h, depth, leaves[..k])) <==> |leaves| < k + history
  {
    hide RootAfter, PrefixesAsked, MerklePath.CollisionFree, Pow2;
    var r := RootAfter(h, depth, leaves[..k]);
    if KnownRoot(h, depth, history, leaves, r) {
      var m: nat :| m <= |leaves| < m + history && r == RootAfter(h, depth, leaves[..m]);
      if m < k {
        assert leaves[m] in leaves;
        PrefixRootsDiffer(h, depth, leaves, m, k, asked);
      } else if k < m {
        assert leaves[k] in leaves;
        PrefixRootsDiffer(h, depth, leaves, k, m, asked);
      }
    }
  }

  class Tree {
    const h: Hash
    const depth: nat
    const history: nat
    var zeros: seq<F>
    var frontier: seq<F>
    var roots: seq<F>
    var currentRootIndex: nat
    var nextLeafIndex: nat
    ghost var leaves: seq<F>

    ghost predicate Valid()
      reads this
    {
      0 < depth && 0 < history &&
      |zeros| == depth && (forall l: nat :: l < depth ==> zeros[l] == ZeroAt(h, l)) &&
      FrontierOk(h, depth, frontier, leaves) &&
      |roots| == history && RingOk(h, depth, roots, currentRootIndex, leaves) &&
      nextLeafIndex == |leaves| && currentRootIndex == |leaves| % history
    }

    /** An empty tree whose zero hashes are computed from leaf zero and whose root is in slot 0. */
    constructor (h: Hash, depth: nat, history: nat)
      requires 0 < depth && 0 < history
      ensures Valid() && leaves == []
      ensures this.h == h && this.depth == depth && this.history == history
    {
      var cur: F := 0;
      var zs := [cur];
      for l := 1 to depth
        invariant |zs| == l && cur == ZeroAt(h, l - 1)
        invariant forall k: nat :: k < l ==> zs[k] == ZeroAt(h, k)
      {
        cur := h(cur, cur);
        zs := zs + [cur];
      }
      var root0 := h(cur, cur);
      var rs := [root0];
      for k := 1 to history
        invariant |rs| == k && rs[0] == root0
        invariant forall j: nat :: 0 < j < k ==> rs[j] == 0
      {
        rs := rs + [0];
      }
      this.h, this.depth, this.history := h, depth, history;
      zeros, frontier, roots := zs, zs, rs;
      currentRootIndex, nextLeafIndex := 0, 0;
      leaves := [];
      new;
      NodeOfEmpty(h, depth, 0);
    }

    /** Appends one leaf. The returned root is the node at the top of the new leaf's path in the
        padded tree over all leaves so far, whatever the number of leaves. */
    method Insert(leaf: F) returns (index: nat, root: F)
      requires Valid()
      modifies this
      ensures Valid() && leaves == old(leaves) + [leaf] && zeros == old(zeros)
      ensures index == |old(leaves)| && root == RootAfter(h, depth, leaves)
      ensures |leaves| <= Pow2(depth) ==> root == Root(h, depth, Indexed(leaves))
    {
      hide Node, Root, Pow2;
      ghost var all := leaves + [leaf];
      NewLeaf(h, leaves, leaf);
      var startIndex := nextLeafIndex;
      var idx, current := startIndex, leaf;
      var fr := frontier;
      for level := 0 to depth
        modifies {}
        invariant idx == Ancestor(startIndex, level)
        invariant current == Node(h, Indexed(all), level, idx)
        invariant |fr| == depth
        invariant forall l: nat :: l < level ==>
          fr[l] == Node(h, Indexed(all), l, LeftMost(startIndex, l))
        invariant forall l: nat :: level <= l < depth ==> fr[l] == frontier[l]
      {
        MerklePath.NodeOfPair(h, Indexed(all), level, idx);
        if idx % 2 == 0 {
          fr := fr[level := current];
          RightIsEmpty(h, all, level);
          current := h(current, zeros[level]);
        } else {
          LeftIsFrontier(h, depth, frontier, leaves, leaf, level);
          current := h(fr[level], current);
        }
        idx := idx / 2;
      }
      var nextIdx := (currentRootIndex + 1) % history;
      NextSlot(|leaves|, currentRootIndex, history);
      RingPush(h, depth, roots, currentRootIndex, leaves, leaf, nextIdx);
      roots := roots[nextIdx := current];
      frontier := fr;
      currentRootIndex := nextIdx;
      nextLeafIndex := startIndex + 1;
      leaves := all;
      if |all| <= Pow2(depth) {
        RootAfterIsRoot(h, depth, all);
      }
      return startIndex, current;
    }

    /** Full when fewer than two free leaves remain. */
    method IsFull() returns (full: bool)
      requires Valid()
      ensures full <==> Pow2(depth) < |leaves| + 2
    {
      return nextLeafIndex + 2 > Pow2(depth);
    }

    method CurrentRoot() returns (r: F)
      requires Valid()
      ensures r == RootAfter(h, depth, leaves)
    {
      r := roots[currentRootIndex];
      assert SlotAge(currentRootIndex, history, currentRootIndex) == 0;
      assert leaves[..|leaves|] == leaves;
    }

    /** Exactly the nonzero roots of the last `history` tree states are known. */
    method IsKnownRoot(root: F) returns (known: bool)
      requires Valid()
      ensures known <==> KnownRoot(h, depth, history, leaves, root)
    {
      if root == 0 {
        return false;
      }
      RingIsKnownRoots(h, depth, roots, currentRootIndex, leaves, root);
      for k := 0 to |roots|
        invariant root !in roots[..k]
      {
        if roots[k] == root {
          return true;
        }
      }
      assert roots[..|roots|] == roots;
      return false;
    }
  }
}
