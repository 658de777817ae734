/** The BN254 scalar field, signed 128-bit amounts, and the embedding of one into the other. */
module Field {
  import opened Basics

  const P: int := 21888242871839275222246405745257275088548364400416034343698204186575808495617

  /** Order of the Baby Jubjub prime-order subgroup. */
  const L: nat := 2736030358979909402780800718157159386076813972158567259200215660948447373041

  /** P - 7L, the bound the reduction gadget puts on the remainder when the quotient is 7. */
  const RHO: nat := 2736030358979909402780800718157159386010666595306063529296694559936676884330

  /** Note amounts are range-checked to 248 bits. */
  const AMOUNT_BOUND: nat := 452312848583266388373324160190187140051835877600158453279131187530910662656

  const I128_MAX: int := 170141183460469231731687303715884105727
  const I128_MIN: int := -170141183460469231731687303715884105728

  type i128 = x: int | I128_MIN <= x <= I128_MAX

  predicate Canonical(x: nat) {
    x < P
  }

  predicate InI128(x: int) {
    I128_MIN <= x <= I128_MAX
  }

  /** The public amount: a signed integer as a field element, negatives wrapping below the modulus. */
  function CalcPublicAmount(signed: i128): (pa: nat)
    ensures Canonical(pa)
    ensures pa % P == signed % P
  {
    if signed >= 0 then signed
    else
      assert (P + signed) % P == signed % P by { ModShift(signed); }
      P + signed
  }

  lemma ModShift(x: int)
    requires -P < x < 0
    ensures x % P == P + x && (P + x) % P == P + x
  {
  }

  lemma PublicAmountInjective(a: i128, b: i128)
    ensures CalcPublicAmount(a) == CalcPublicAmount(b) <==> a == b
  {
  }

  /** Congruent numbers less than a modulus apart are equal. */
  lemma CongruentClose(x: int, y: int)
    requires x % P == y % P && -P < x - y < P
    ensures x == y
  {
    var k := x / P - y / P;
    assert x - y == k * P;
  }

  lemma ModAddShift(x: int)
    ensures (x + P) % P == x % P
  {
    var q, r := x / P, x % P;
    assert x + P == (q + 1) * P + r;
    var q', r' := (x + P) / P, (x + P) % P;
    assert (q + 1 - q') * P == r' - r;
  }

  /** The circuit's balance equation over the field is the balance equation over the integers, for
      sums of two amounts below any bound that leaves room for one i128. */
  lemma BalancePinsInteger(bound: nat, sumIns: nat, sumOuts: nat, signed: i128)
    requires 2 * bound + I128_MAX + 1 <= P
    requires sumIns < 2 * bound && sumOuts < 2 * bound
    ensures (sumIns + CalcPublicAmount(signed)) % P == sumOuts % P <==> sumIns + signed == sumOuts
  {
    if signed < 0 {
      ModAddShift(sumIns + signed);
      assert sumIns + CalcPublicAmount(signed) == sumIns + signed + P;
    }
    if (sumIns + CalcPublicAmount(signed)) % P == sumOuts % P {
      CongruentClose(sumIns + signed, sumOuts);
    }
  }

  /** With 248-bit amounts there is always room. */
  lemma TransactionBalance(in0: nat, in1: nat, out0: nat, out1: nat, signed: i128)
    requires in0 < AMOUNT_BOUND && in1 < AMOUNT_BOUND && out0 < AMOUNT_BOUND && out1 < AMOUNT_BOUND
    ensures (in0 + in1 + CalcPublicAmount(signed)) % P == (out0 + out1) % P <==>
            in0 + in1 + signed == out0 + out1
  {
    BalancePinsInteger(AMOUNT_BOUND, in0 + in1, out0 + out1, signed);
  }

  /** The constraints of the modulo-L reduction gadget on a quotient and remainder witness. */
  predicate ReduceGate(x: nat, out: nat, k: nat) {
    && x == (out + k * L) % P
    && out < L
    && k < 8
    && (k == 7 ==> out < RHO)
  }

  /** The gadget admits exactly one witness, the true quotient and remainder: no second remainder can
      be reached by letting the sum wrap around the field modulus. */
  lemma ReduceGateIsMod(x: nat, out: nat, k: nat)
    requires Canonical(x)
    ensures ReduceGate(x, out, k) <==> out == x % L && k == x / L
  {
    assert RHO == P - 7 * L && P < 8 * L;
    if k < 8 && out < L && (k == 7 ==> out < RHO) {
      assert out + k * L < P;
    }
    if ReduceGate(x, out, k) {
      assert x == k * L + out;
      assert (x / L - k) * L == out - x % L;
    }
    if out == x % L && k == x / L {
      assert x == k * L + out;
      assert k < 8;
    }
  }

  /** Why the extra bound at quotient 7 is there: without it zero would have a second reduction. */
  lemma ReduceNeedsBound()
    ensures RHO < L && (RHO + 7 * L) % P == 0 % P && RHO != 0 % L
  {
  }
}
