/** The two-in two-out transaction circuit as a relation between public inputs and a witness, and
    the wallet's own computation of keys, commitments and nullifiers. Hashes and curve operations
    are uninterpreted. */
module Circuit {
  import opened Basics
  import opened PaddedTree
  import opened MerklePath
  import opened Field

  const LEVELS: nat := 20

  datatype Point = Point(x: F, y: F)

  datatype Primitives = Primitives(
    compress: Hash,
    hash1: (F, nat) -> F,
    hash2: (F, F, nat) -> F,
    hash3: (F, F, F, nat) -> F,
    mulBase: nat -> Point,
    mulPoint: (nat, Point) -> Point,
    onCurve: Point -> bool)

  /** Facts about the primitives the circuit's gadgets rely on: hashes are field elements, multiples
      of the base point are on the curve and compose modulo the subgroup order. */
  ghost predicate Sound(pr: Primitives) {
    && (forall a, t :: Canonical(pr.hash1(a, t)))
    && (forall a, b, t :: Canonical(pr.hash2(a, b, t)))
    && (forall a, b, c, t :: Canonical(pr.hash3(a, b, c, t)))
    && (forall a, b :: Canonical(pr.compress(a, b)))
    && (forall s :: pr.onCurve(pr.mulBase(s)))
    && (forall e: nat, s: nat :: e < L && s < L ==> pr.mulPoint(e, pr.mulBase(s)) == pr.mulBase((e * s) % L))
  }

  // ----- keys, commitments and nullifiers as the wallet computes them

  function FoldPoint(pr: Primitives, p: Point, tag: nat): F {
    pr.hash2(p.x, p.y, tag)
  }

  function NoteCommitment(pr: Primitives, amount: F, pkD: Point, blinding: F): F {
    pr.hash3(amount, FoldPoint(pr, pkD, 0x05), blinding, 0x01)
  }

  function Nullifier(pr: Primitives, commitment: F, position: nat, nkFold: F): F {
    pr.hash3(commitment, position, nkFold, 0x02)
  }

  function NkFold(pr: Primitives, nsk: nat): F {
    FoldPoint(pr, pr.mulBase(nsk), 0x06)
  }

  function NoteNullifier(pr: Primitives, amount: F, pkD: Point, nsk: nat, blinding: F, leafIndex: nat): F {
    Nullifier(pr, NoteCommitment(pr, amount, pkD, blinding), leafIndex, NkFold(pr, nsk))
  }

  function IvkHash(pr: Primitives, ask: nat, nsk: nat): F {
    pr.hash2(FoldPoint(pr, pr.mulBase(ask), 0x07), NkFold(pr, nsk), 0x10)
  }

  function DiversifiedKey(pr: Primitives, ivk: nat, d: F): Point {
    pr.mulBase((ivk * (pr.hash1(d, 0x11) % L)) % L)
  }

  /** Spend keys and diversifier a note is locked to. */
  datatype Keys = Keys(ask: nat, nsk: nat, d: F)

  function PkD(pr: Primitives, k: Keys): Point {
    DiversifiedKey(pr, IvkHash(pr, k.ask, k.nsk) % L, k.d)
  }

  // ----- the circuit

  datatype InputWitness = InputWitness(
    amount: F, keys: Keys, blinding: F, pathIndices: nat, pathElements: seq<F>,
    ivk: nat, ivkQuotient: nat, rd: nat, rdQuotient: nat)

  datatype OutputWitness = OutputWitness(amount: F, pubkey: Point, blinding: F)

  datatype Witness = Witness(in0: InputWitness, in1: InputWitness, out0: OutputWitness, out1: OutputWitness)

  /** Public inputs in declared order: root, public amount, ext data hash, domain, two nullifiers,
      two output commitments. */
  datatype Public = Public(root: F, publicAmount: F, extDataHash: F, domain: F,
                           null0: F, null1: F, comm0: F, comm1: F)

  /** The public inputs as the proof check receives them. */
  function Signals(pub: Public): seq<F> {
    [pub.root, pub.publicAmount, pub.extDataHash, pub.domain, pub.null0, pub.null1, pub.comm0, pub.comm1]
  }

  /** Public inputs read back from such a list. */
  function FromSignals(v: seq<F>): (pub: Public)
    requires |v| == 8
    ensures Signals(pub) == v
  {
    Public(v[0], v[1], v[2], v[3], v[4], v[5], v[6], v[7])
  }

  /** The circuit derives the transmission key by two multiplications, not by one. */
  function InputPkD(pr: Primitives, w: InputWitness): Point {
    pr.mulPoint(w.ivk, pr.mulBase(w.rd))
  }

  function InputCommitment(pr: Primitives, w: InputWitness): F {
    NoteCommitment(pr, w.amount, InputPkD(pr, w), w.blinding)
  }

  /** Constraints on one input slot; the root check is switched off for amount zero. */
  predicate InputOk(pr: Primitives, root: F, nullifier: F, w: InputWitness) {
    && w.keys.ask < L && w.keys.nsk < L
    && ReduceGate(IvkHash(pr, w.keys.ask, w.keys.nsk), w.ivk, w.ivkQuotient)
    && ReduceGate(pr.hash1(w.keys.d, 0x11), w.rd, w.rdQuotient)
    && |w.pathElements| == LEVELS && w.pathIndices < Pow2(LEVELS)
    && nullifier == Nullifier(pr, InputCommitment(pr, w), w.pathIndices, NkFold(pr, w.keys.nsk))
    && (w.amount != 0 ==> Fold(pr.compress, InputCommitment(pr, w), w.pathElements, w.pathIndices) == root)
    && w.amount < AMOUNT_BOUND
  }

  predicate OutputOk(pr: Primitives, commitment: F, w: OutputWitness) {
    && pr.onCurve(w.pubkey)
    && commitment == NoteCommitment(pr, w.amount, w.pubkey, w.blinding)
    && w.amount < AMOUNT_BOUND
  }

  predicate Satisfies(pr: Primitives, pub: Public, w: Witness) {
    && InputOk(pr, pub.root, pub.null0, w.in0)
    && InputOk(pr, pub.root, pub.null1, w.in1)
    && OutputOk(pr, pub.comm0, w.out0)
    && OutputOk(pr, pub.comm1, w.out1)
    && pub.null0 != pub.null1
    && (w.in0.amount + w.in1.amount + pub.publicAmount) % P == (w.out0.amount + w.out1.amount) % P
  }

  /** The circuit's transmission key is the wallet's: both reductions have a single solution and the
      two multiplications compose into the wallet's one. */
  lemma InputPkDIsPkD(pr: Primitives, root: F, nullifier: F, w: InputWitness)
    requires Sound(pr) && InputOk(pr, root, nullifier, w)
    ensures InputPkD(pr, w) == PkD(pr, w.keys)
  {
    ReduceGateIsMod(IvkHash(pr, w.keys.ask, w.keys.nsk), w.ivk, w.ivkQuotient);
    ReduceGateIsMod(pr.hash1(w.keys.d, 0x11), w.rd, w.rdQuotient);
  }

  /** The witness the wallet assembles for one input note. */
  function InputWitnessOf(pr: Primitives, amount: F, keys: Keys, blinding: F,
                          pathIndices: nat, pathElements: seq<F>): InputWitness {
    var ivkHash, rdHash := IvkHash(pr, keys.ask, keys.nsk), pr.hash1(keys.d, 0x11);
    InputWitness(amount, keys, blinding, pathIndices, pathElements,
                 ivkHash % L, ivkHash / L, rdHash % L, rdHash / L)
  }

  /** Completeness for one input: the assembled witness passes the input constraints exactly when
      the keys and amount are in range and, for a nonzero amount, the path leads to the root. */
  lemma InputComplete(pr: Primitives, root: F, nullifier: F, amount: F, keys: Keys, blinding: F,
                      pathIndices: nat, pathElements: seq<F>)
    requires Sound(pr)
    requires |pathElements| == LEVELS && pathIndices < Pow2(LEVELS)
    requires nullifier == NoteNullifier(pr, amount, PkD(pr, keys), keys.nsk, blinding, pathIndices)
    ensures InputOk(pr, root, nullifier, InputWitnessOf(pr, amount, keys, blinding, pathIndices, pathElements)) <==>
            && keys.ask < L && keys.nsk < L && amount < AMOUNT_BOUND
            && (amount != 0 ==>
                  Fold(pr.compress, NoteCommitment(pr, amount, PkD(pr, keys), blinding), pathElements, pathIndices)
                      == root)
  {
    var w := InputWitnessOf(pr, amount, keys, blinding, pathIndices, pathElements);
    ReduceGateIsMod(IvkHash(pr, keys.ask, keys.nsk), w.ivk, w.ivkQuotient);
    ReduceGateIsMod(pr.hash1(keys.d, 0x11), w.rd, w.rdQuotient);
    assert InputPkD(pr, w) == PkD(pr, keys);
  }
}
