/** The specification all three Merkle trees refine: a perfect binary tree of a given depth whose
    unset leaves hold zero. Leaves are a finite map, so the append-only vault tree, the sparse
    wallet tree and the layered note tree can be compared on the same footing. */
module PaddedTree {
  import opened Basics

  /** A 256-bit hash value; only equality, order and zero matter here. */
  type F = nat

  /** The two-to-one compression function, left uninterpreted. */
  type Hash = (F, F) -> F

  /** Root of an empty subtree of height `level`. */
  function ZeroAt(h: Hash, level: nat): F {
    if level == 0 then 0 else h(ZeroAt(h, level - 1), ZeroAt(h, level - 1))
  }

  function LeafAt(m: map<nat, F>, i: nat): F {
    if i in m then m[i] else 0
  }

  /** Value of the `i`-th node of height `level`. */
  function Node(h: Hash, m: map<nat, F>, level: nat, i: nat): F {
    if level == 0 then LeafAt(m, i)
    else h(Node(h, m, level - 1, 2 * i), Node(h, m, level - 1, 2 * i + 1))
  }

  function Root(h: Hash, depth: nat, m: map<nat, F>): F {
    Node(h, m, depth, 0)
  }

  /** The leaves of an append-only list, by position. */
  function Indexed(leaves: seq<F>): map<nat, F> {
    map i: nat | i < |leaves| :: leaves[i]
  }

  /** Index of the node of height `level` above leaf `i`. */
  function Ancestor(i: nat, level: nat): nat {
    if level == 0 then i else Ancestor(i, level - 1) / 2
  }

  lemma {:induction false} AncestorMonotone(i: nat, j: nat, level: nat)
    requires i <= j
    ensures Ancestor(i, level) <= Ancestor(j, level)
  {
    if level > 0 {
      AncestorMonotone(i, j, level - 1);
    }
  }

  /** Neighbouring leaves have the same or neighbouring ancestors. */
  lemma {:induction false} AncestorSuccessor(i: nat, level: nat)
    ensures Ancestor(i, level) <= Ancestor(i + 1, level) <= Ancestor(i, level) + 1
  {
    if level > 0 {
      AncestorSuccessor(i, level - 1);
    }
  }

  /** Only in-range leaves sit below node 0 of height `level`. */
  lemma {:induction false} AncestorInRange(i: nat, level: nat)
    ensures Ancestor(i, level) == i / Pow2(level)
    ensures i < Pow2(level) <==> Ancestor(i, level) == 0
  {
    if level > 0 {
      AncestorInRange(i, level - 1);
      DivTwice(i, Pow2(level - 1));
    }
    DivZero(i, Pow2(level));
  }

  /** A node depends only on the leaves below it. */
  lemma {:induction false} NodeLocal(h: Hash, m: map<nat, F>, m': map<nat, F>, level: nat, i: nat)
    requires forall k: nat :: Ancestor(k, level) == i ==> LeafAt(m, k) == LeafAt(m', k)
    ensures Node(h, m, level, i) == Node(h, m', level, i)
  {
    if level == 0 {
      assert Ancestor(i, 0) == i;
    } else {
      forall k: nat | Ancestor(k, level - 1) == 2 * i || Ancestor(k, level - 1) == 2 * i + 1
        ensures LeafAt(m, k) == LeafAt(m', k)
      {
        assert Ancestor(k, level) == i;
      }
      NodeLocal(h, m, m', level - 1, 2 * i);
      NodeLocal(h, m, m', level - 1, 2 * i + 1);
    }
  }

  /** A node with no leaf below it is the zero of its height. */
  lemma {:induction false} NodeEmpty(h: Hash, m: map<nat, F>, level: nat, i: nat)
    requires forall k: nat :: Ancestor(k, level) == i ==> k !in m
    ensures Node(h, m, level, i) == ZeroAt(h, level)
  {
    NodeLocal(h, m, map[], level, i);
    NodeOfEmpty(h, level, i);
  }

  lemma {:induction false} NodeOfEmpty(h: Hash, level: nat, i: nat)
    ensures Node(h, map[], level, i) == ZeroAt(h, level)
  {
    if level > 0 {
      NodeOfEmpty(h, level - 1, 2 * i);
      NodeOfEmpty(h, level - 1, 2 * i + 1);
    }
  }

  /** Setting one leaf changes only its ancestors. */
  lemma NodeOffPath(h: Hash, m: map<nat, F>, leaf: nat, v: F, level: nat, i: nat)
    requires i != Ancestor(leaf, level)
    ensures Node(h, m[leaf := v], level, i) == Node(h, m, level, i)
  {
    NodeLocal(h, m[leaf := v], m, level, i);
  }
}
