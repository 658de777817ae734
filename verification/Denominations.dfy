/** Splitting an amount into notes of fixed denominations, largest first. */
module Denominations {
  import opened Basics

  /** A piece with its exact count, and the piece as it is returned, with the count as a double. */
  datatype Piece = Piece(denomination: int, count: nat)
  datatype Double = Finite(n: nat) | Infinity
  datatype Shown = Shown(denomination: int, count: Double)

  datatype Result =
    | Split(pieces: seq<Shown>)
    | NotPositive
    | NotRepresentable(remainder: int)
    | DivisionByZero

  // ----- note counts become double-precision numbers

  const TWO53: nat := 9007199254740992

  /** How many low bits an integer loses in 53 bits. */
  function ExtraBits(n: nat): nat {
    if n < TWO53 then 0 else 1 + ExtraBits(n / 2)
  }

  /** Round half to even at 2^e. */
  function RoundAt(n: nat, e: nat): nat {
    var unit := Pow2(e);
    var q, r := n / unit, n % unit;
    if 2 * r > unit || (2 * r == unit && q % 2 == 1) then (q + 1) * unit else q * unit
  }

  /** The count as a double: exact below 2^53, rounded above, infinite from 2^1024 on (2^53 times 2^971). */
  function ToNumber(n: nat): Double {
    if n < TWO53 then Finite(n)
    else
      var e := ExtraBits(n);
      var r := RoundAt(n, e);
      if e > 971 || (e == 971 && r >= TWO53 * Pow2(e)) then Infinity else Finite(r)
  }

  // ----- the list of denominations, largest first

  predicate Descending(ds: seq<int>) {
    forall i, j :: 0 <= i < j < |ds| ==> ds[i] >= ds[j]
  }

  function InsertDescending(d: int, ds: seq<int>): (r: seq<int>)
    requires Descending(ds)
    ensures forall x :: x in r <==> x == d || x in ds
    ensures Descending(r)
  {
    if ds == [] || d >= ds[0] then [d] + ds
    else
      assert forall k :: 0 <= k < |ds[1..]| ==> ds[1..][k] == ds[k + 1];
      var tail := InsertDescending(d, ds[1..]);
      assert forall x :: x in ds <==> x == ds[0] || x in ds[1..];
      assert forall k :: 0 <= k < |tail| ==> tail[k] in tail;
      [ds[0]] + tail
  }

  function SortDescending(ds: seq<int>): (r: seq<int>)
    ensures forall x :: x in r <==> x in ds
    ensures Descending(r)
  {
    if ds == [] then []
    else
      assert forall x :: x in ds <==> x == ds[0] || x in ds[1..];
      InsertDescending(ds[0], SortDescending(ds[1..]))
  }

  // ----- the greedy split with exact counts

  datatype Greedy = Greedy(pieces: seq<Piece>, rest: int, dividedByZero: bool)

  /** What the loop does on the remaining denominations: stops when nothing is left, fails at a zero
      denomination, passes over negative ones. */
  function GreedySplit(ds: seq<int>, remaining: int): Greedy
  {
    if ds == [] || remaining <= 0 then Greedy([], remaining, false)
    else if ds[0] == 0 then Greedy([], remaining, true)
    else if ds[0] < 0 || remaining < ds[0] then GreedySplit(ds[1..], remaining)
    else
      var count := remaining / ds[0];
      var g := GreedySplit(ds[1..], remaining - ds[0] * count);
      g.(pieces := [Piece(ds[0], count)] + g.pieces)
  }

  function Reported(pieces: seq<Piece>): seq<Shown> {
    seq(|pieces|, k requires 0 <= k < |pieces| => Shown(pieces[k].denomination, ToNumber(pieces[k].count)))
  }

  function Value(pieces: seq<Piece>): int {
    if pieces == [] then 0 else pieces[0].denomination * pieces[0].count + Value(pieces[1..])
  }

  /** What the returned pieces are worth, unless a count is infinite. */
  function Worth(pieces: seq<Shown>): Option<int> {
    if pieces == [] then Some(0)
    else
      var tail := Worth(pieces[1..]);
      if tail.None? || pieces[0].count.Infinity? then None
      else Some(pieces[0].denomination * pieces[0].count.n + tail.value)
  }

  /** How many notes the returned pieces are. */
  function ShownNotes(pieces: seq<Shown>): Option<nat> {
    if pieces == [] then Some(0)
    else
      var tail := ShownNotes(pieces[1..]);
      if tail.None? || pieces[0].count.Infinity? then None else Some(pieces[0].count.n + tail.value)
  }

  function Notes(pieces: seq<Piece>): nat {
    if pieces == [] then 0 else pieces[0].count + Notes(pieces[1..])
  }

  function SplitAmount(amount: int, denominations: seq<int>): Result {
    if amount <= 0 then NotPositive
    else
      var g := GreedySplit(SortDescending(denominations), amount);
      if g.dividedByZero then DivisionByZero
      else if g.rest != 0 then NotRepresentable(g.rest)
      else Split(Reported(g.pieces))
  }

  method ComputeSplit(amount: int, denominations: seq<int>) returns (r: Result)
    ensures r == SplitAmount(amount, denominations)
  {
    if amount <= 0 {
      return NotPositive;
    }
    var sorted := SortDescending(denominations);
    var pieces: seq<Shown> := [];
    var remaining := amount;
    ghost var g := GreedySplit(sorted, amount);
    ghost var exact: seq<Piece> := [];
    var k := 0;
    while k < |sorted|
      invariant 0 <= k <= |sorted| && remaining >= 0
      invariant pieces == Reported(exact)
      invariant var h := GreedySplit(sorted[k..], remaining);
        g == Greedy(exact + h.pieces, h.rest, h.dividedByZero)
    {
      if remaining <= 0 {
        break;
      }
      var denom := sorted[k];
      assert sorted[k..][0] == denom && sorted[k..][1..] == sorted[k + 1..];
      if denom == 0 {
        return DivisionByZero;
      }
      // Truncating division of a positive remainder: zero or less for a negative denomination.
      var count := if denom < 0 then -(remaining / -denom) else remaining / denom;
      DivFacts(remaining, denom);
      if count > 0 {
        ghost var before := exact;
        exact := exact + [Piece(denom, count)];
        pieces := pieces + [Shown(denom, ToNumber(count))];
        remaining := remaining - denom * count;
        assert forall rest: seq<Piece> :: before + ([Piece(denom, count)] + rest) == exact + rest;
      }
      k := k + 1;
    }
    assert exact + [] == exact;
    if remaining != 0 {
      return NotRepresentable(remaining);
    }
    return Split(pieces);
  }

  // ----- arithmetic

  lemma SmallMultiple(t: int, d: int)
    requires d > 0
    ensures -d < t * d < d ==> t == 0
  {
    if t >= 1 {
      assert t * d >= d;
    } else if t <= -1 {
      assert t * d <= -d;
    }
  }

  lemma DivFacts(n: int, d: int)
    requires n > 0 && d != 0
    ensures d > 0 ==> n == d * (n / d) + n % d && (n / d > 0 <==> d <= n) && 0 <= n - d * (n / d) < d
    ensures d < 0 ==> n / -d >= 0
  {
    if d > 0 {
      assert n == d * (n / d) + n % d;
      MulMono(d, n / d, 0);
      MulMono(d, 1, n / d);
    }
  }

  lemma ModShiftBy(a: int, k: int, d: int)
    requires d > 0
    ensures (a + k * d) % d == a % d
    ensures (a + k * d) / d == a / d + k
  {
    var q, r := a / d, a % d;
    var q', r' := (a + k * d) / d, (a + k * d) % d;
    assert a == q * d + r && a + k * d == q' * d + r';
    assert (q + k - q') * d == r' - r;
    SmallMultiple(q + k - q', d);
  }

  // ----- conservation

  predicate WellFormed(pieces: seq<Piece>, below: int) {
    && (forall k :: 0 <= k < |pieces| ==> 0 < pieces[k].denomination <= below && pieces[k].count > 0)
    && (forall i, j :: 0 <= i < j < |pieces| ==> pieces[i].denomination > pieces[j].denomination)
  }

  /** The exact counts plus the rest always add up to the amount. */
  lemma {:induction false} GreedyConserves(ds: seq<int>, amount: int)
    requires amount >= 0
    ensures var g := GreedySplit(ds, amount);
      Value(g.pieces) + g.rest == amount && 0 <= g.rest
  {
    if ds != [] && amount > 0 && ds[0] != 0 {
      if ds[0] < 0 || amount < ds[0] {
        GreedyConserves(ds[1..], amount);
      } else {
        DivFacts(amount, ds[0]);
        var rest := amount - ds[0] * (amount / ds[0]);
        GreedyConserves(ds[1..], rest);
        assert GreedySplit(ds, amount).pieces[1..] == GreedySplit(ds[1..], rest).pieces;
      }
    }
  }

  lemma WellFormedCons(p: Piece, pieces: seq<Piece>, bound: int, below: int)
    requires WellFormed(pieces, bound) && bound < p.denomination <= below && p.denomination > 0 && p.count > 0
    ensures WellFormed([p] + pieces, below)
  {
  }

  /** The pieces have strictly decreasing positive denominations, each of them offered and at most the
      amount, and positive counts. */
  lemma {:induction false} GreedyWellFormed(ds: seq<int>, amount: int, below: int)
    requires Descending(ds) && 0 <= amount && amount <= below
    ensures WellFormed(GreedySplit(ds, amount).pieces, below)
    ensures forall p :: p in GreedySplit(ds, amount).pieces ==> p.denomination in ds
  {
    if ds != [] && amount > 0 && ds[0] != 0 {
      var d, tail := ds[0], ds[1..];
      assert forall x :: x in tail ==> x in ds;
      assert forall k :: 0 <= k < |tail| ==> tail[k] == ds[k + 1];
      if d < 0 || amount < d {
        GreedyWellFormed(tail, amount, below);
      } else {
        DivFacts(amount, d);
        var rest := amount - d * (amount / d);
        GreedyWellFormed(tail, rest, d - 1);
        WellFormedCons(Piece(d, amount / d), GreedySplit(tail, rest).pieces, d - 1, below);
      }
    }
  }

  // ----- exactness

  predicate ExactCount(n: nat) {
    ToNumber(n) == Finite(n)
  }

  predicate AllExact(pieces: seq<Piece>) {
    forall p :: p in pieces ==> ExactCount(p.count)
  }

  lemma {:induction false} UnitBelow(n: nat)
    requires n >= TWO53
    ensures 2 <= Pow2(ExtraBits(n)) <= n
  {
    if n / 2 >= TWO53 {
      UnitBelow(n / 2);
    } else {
      assert Pow2(1) == 2 by { assert Pow2(0) == 1; }
    }
  }

  /** Rounding never more than doubles a count. */
  lemma RoundedBelow(n: nat)
    ensures ToNumber(n).Finite? ==> ToNumber(n).n <= 2 * n
  {
    if n >= TWO53 {
      UnitBelow(n);
      var unit := Pow2(ExtraBits(n));
      assert (n / unit) * unit <= n;
      assert (n / unit + 1) * unit == (n / unit) * unit + unit;
    }
  }

  lemma RoundExact(n: nat, e: nat)
    ensures RoundAt(n, e) == n <==> n % Pow2(e) == 0
  {
    var unit := Pow2(e);
    var q, r := n / unit, n % unit;
    assert n == q * unit + r;
    assert (q + 1) * unit == q * unit + unit;
  }

  /** A count is returned unchanged exactly when it is a multiple of the unit its size is rounded to, and
      not too large for a double. */
  lemma ExactCountIff(n: nat)
    ensures ExactCount(n) <==> n < TWO53 || (n % Pow2(ExtraBits(n)) == 0 && ExtraBits(n) <= 971)
  {
    hide Pow2, ExtraBits, RoundAt;
    if n >= TWO53 {
      MantissaBelow(n);
      RoundExact(n, ExtraBits(n));
    }
  }

  lemma {:induction false} MantissaBelow(n: nat)
    ensures n < TWO53 * Pow2(ExtraBits(n))
    ensures n / Pow2(ExtraBits(n)) < TWO53
  {
    var unit := Pow2(ExtraBits(n));
    if n < TWO53 {
      assert unit == 1;
    } else {
      MantissaBelow(n / 2);
      assert unit == 2 * Pow2(ExtraBits(n / 2));
    }
    hide Pow2, ExtraBits;
    QuotientBelow(n, unit, TWO53);
  }

  /** The unit is the one a 53-bit number of this size is counted in. */
  lemma {:induction false} MantissaAbove(n: nat)
    requires n >= TWO53
    ensures TWO53 * Pow2(ExtraBits(n)) <= 2 * n
  {
    if n / 2 >= TWO53 {
      MantissaAbove(n / 2);
    } else {
      assert Pow2(1) == 2 by { assert Pow2(0) == 1; }
    }
  }

  /** Rounding gives the nearest multiple of the unit, and of two the one with an even quotient. */
  lemma RoundIsNearest(n: nat, e: nat)
    ensures var unit, r := Pow2(e), RoundAt(n, e);
      && r % unit == 0 && 2 * (r - n) <= unit && 2 * (n - r) <= unit
      && (2 * (r - n) == unit || 2 * (n - r) == unit ==> (r / unit) % 2 == 0)
  {
    hide Pow2;
    var unit := Pow2(e);
    var q, rest := n / unit, n % unit;
    assert n == q * unit + rest;
    assert (q + 1) * unit == q * unit + unit;
    DivUnique(q * unit, unit, q, 0);
    DivUnique((q + 1) * unit, unit, q + 1, 0);
  }

  lemma {:induction false} Pow2Mono(a: nat, b: nat)
    requires a <= b
    ensures Pow2(a) <= Pow2(b)
  {
    if a < b {
      Pow2Mono(a, b - 1);
    }
  }

  lemma Pow2Step(a: nat)
    ensures Pow2(a + 1) == 2 * Pow2(a)
  {
  }

  /** A count as a double: itself below 2^53; above, what rounding gives, unless that has reached 2^1024. */
  lemma ToNumberIs(n: nat)
    ensures n < TWO53 ==> ToNumber(n) == Finite(n)
    ensures n >= TWO53 ==>
              var r := RoundAt(n, ExtraBits(n));
              ToNumber(n) == if r < TWO53 * Pow2(971) then Finite(r) else Infinity
  {
    hide Pow2, ExtraBits, RoundAt;
    if n >= TWO53 {
      var e := ExtraBits(n);
      MantissaBelow(n);
      MantissaAbove(n);
      RoundIsNearest(n, e);
      if e < 971 {
        Pow2Mono(e + 1, 971);
        Pow2Step(e);
      } else if e > 971 {
        Pow2Mono(972, e);
        Pow2Step(971);
        RoundAtLeast(n, e);
      }
    }
  }

  lemma RoundAtLeast(n: nat, e: nat)
    requires TWO53 * Pow2(e) <= 2 * n
    ensures TWO53 * Pow2(e) <= 2 * RoundAt(n, e)
  {
    hide Pow2;
    var unit, half := Pow2(e), TWO53 / 2;
    var q := n / unit;
    MulMono(unit, q + 1, half);
    MulMono(unit, half, q);
    assert (q + 1) * unit == q * unit + unit;
    assert n < (q + 1) * unit;
  }

  lemma QuotientBelow(n: nat, unit: nat, bound: nat)
    requires unit > 0 && n < bound * unit
    ensures n / unit < bound
  {
    if n / unit >= bound {
      MulMono(unit, bound, n / unit);
    }
  }

  lemma {:induction false} WorthBounds(pieces: seq<Piece>, below: int)
    requires WellFormed(pieces, below)
    ensures Value(pieces) >= 0
    ensures Worth(Reported(pieces)).Some? ==> 0 <= Worth(Reported(pieces)).value <= 2 * Value(pieces)
  {
    if pieces != [] {
      var p, tail := pieces[0], pieces[1..];
      assert forall k :: 0 <= k < |tail| ==> tail[k] == pieces[k + 1];
      assert Reported(pieces)[1..] == Reported(tail);
      WorthBounds(tail, below);
      RoundedBelow(p.count);
      MulMono(p.denomination, 0, p.count);
      if ToNumber(p.count).Finite? {
        MulMono(p.denomination, 0, ToNumber(p.count).n);
        MulMono(p.denomination, ToNumber(p.count).n, 2 * p.count);
        Doubled(p.denomination, p.count);
      }
    }
  }

  lemma Doubled(d: int, c: int)
    ensures d * (2 * c) == 2 * (d * c)
  {
  }

  /** One inexact count cannot be made up for by smaller denominations: they are worth less than one unit
      of it, and so is their rounding error. */
  lemma HeadDecides(d: int, n: nat, r: nat, tailValue: int, tailWorth: int)
    requires d > 0 && 0 <= tailValue < d && 0 <= tailWorth <= 2 * tailValue && r != n
    ensures d * r + tailWorth != d * n + tailValue
  {
    var t := r - n;
    assert d * r - d * n == t * d;
    SmallMultiple(t, d);
  }

  /** The returned pieces are worth what the exact ones are if and only if every count is exact. */
  lemma {:induction false} GreedyExactIff(ds: seq<int>, amount: int)
    requires Descending(ds) && amount >= 0
    ensures var pieces := GreedySplit(ds, amount).pieces;
      Worth(Reported(pieces)) == Some(Value(pieces)) <==> AllExact(pieces)
  {
    hide ToNumber, Worth, Reported, AllExact, Value, WellFormed;
    ExactNil();
    if ds != [] && amount > 0 && ds[0] != 0 {
      var d, rest := ds[0], ds[1..];
      assert forall k :: 0 <= k < |rest| ==> rest[k] == ds[k + 1];
      if d < 0 || amount < d {
        GreedyExactIff(rest, amount);
      } else {
        DivFacts(amount, d);
        var n, left := amount / d, amount - d * (amount / d);
        var tail := GreedySplit(rest, left).pieces;
        GreedyExactIff(rest, left);
        GreedyConserves(rest, left);
        GreedyWellFormed(rest, left, left);
        WorthBounds(tail, left);
        ExactCons(d, n, tail);
        assert GreedySplit(ds, amount).pieces == [Piece(d, n)] + tail;
      }
    }
  }

  lemma ExactNil()
    ensures Worth(Reported([])) == Some(Value([])) && AllExact([])
  {
  }

  lemma ExactCons(d: int, n: nat, tail: seq<Piece>)
    requires d > 0 && 0 <= Value(tail) < d
    requires Worth(Reported(tail)).Some? ==> 0 <= Worth(Reported(tail)).value <= 2 * Value(tail)
    requires Worth(Reported(tail)) == Some(Value(tail)) <==> AllExact(tail)
    ensures var pieces := [Piece(d, n)] + tail;
      Worth(Reported(pieces)) == Some(Value(pieces)) <==> AllExact(pieces)
  {
    hide ToNumber;
    var pieces := [Piece(d, n)] + tail;
    assert pieces[1..] == tail && Reported(pieces)[1..] == Reported(tail);
    assert AllExact(pieces) <==> ExactCount(n) && AllExact(tail) by {
      assert pieces[0] in pieces && forall p :: p in tail ==> p in pieces;
    }
    var w := Worth(Reported(tail));
    if w.Some? && ToNumber(n).Finite? && ToNumber(n).n != n {
      HeadDecides(d, n, ToNumber(n).n, Value(tail), w.value);
    }
  }

  /** The returned pieces have the denominations of the exact ones: strictly decreasing, positive, and among
      those offered. They are worth the amount if and only if every exact count is returned unchanged. */
  lemma SplitIsExact(amount: int, denominations: seq<int>)
    requires SplitAmount(amount, denominations).Split?
    ensures var pieces, exact := SplitAmount(amount, denominations).pieces,
            GreedySplit(SortDescending(denominations), amount).pieces;
      && WellFormed(exact, amount) && Value(exact) == amount && pieces == Reported(exact)
      && (forall p :: p in exact ==> p.denomination in denominations)
      && (Worth(pieces) == Some(amount) <==> AllExact(exact))
  {
    var ds := SortDescending(denominations);
    GreedyConserves(ds, amount);
    GreedyWellFormed(ds, amount, amount);
    GreedyExactIff(ds, amount);
  }

  lemma {:induction false} CountsBounded(pieces: seq<Piece>, below: int, least: int)
    requires WellFormed(pieces, below) && least > 0
    requires forall p :: p in pieces ==> p.denomination >= least
    ensures Value(pieces) >= 0
    ensures forall p :: p in pieces ==> least * p.count <= Value(pieces)
  {
    if pieces != [] {
      var p, tail := pieces[0], pieces[1..];
      assert forall k :: 0 <= k < |tail| ==> tail[k] == pieces[k + 1];
      assert forall x :: x in pieces <==> x == p || x in tail;
      CountsBounded(tail, below, least);
      MulMono(p.count, least, p.denomination);
      MulMono(p.denomination, 0, p.count);
    }
  }

  /** A bound to check before the call: up to 2^53 notes of the smallest denomination every split is exact. */
  lemma SmallSplitIsExact(amount: int, denominations: seq<int>, least: int)
    requires SplitAmount(amount, denominations).Split?
    requires least > 0 && forall d :: d in denominations && d > 0 ==> d >= least
    requires amount <= least * TWO53
    ensures Worth(SplitAmount(amount, denominations).pieces) == Some(amount)
  {
    SplitIsExact(amount, denominations);
    hide GreedySplit, SortDescending, SplitAmount, Worth, Value, Reported, AllExact;
    var exact := GreedySplit(SortDescending(denominations), amount).pieces;
    forall p | p in exact ensures p.denomination >= least {
      var k :| 0 <= k < |exact| && exact[k] == p;
    }
    CountsBounded(exact, amount, least);
    AllWithin(exact, amount, least);
  }

  lemma AllWithin(exact: seq<Piece>, amount: int, least: int)
    requires least > 0 && amount <= least * TWO53
    requires forall p :: p in exact ==> least * p.count <= amount
    ensures AllExact(exact)
  {
    hide ExactCount;
    forall p | p in exact ensures ExactCount(p.count) {
      CountWithin(least, p.count, TWO53);
      Two53IsExact(p.count);
    }
  }

  lemma CountWithin(least: int, count: nat, bound: nat)
    requires least > 0 && least * count <= least * bound
    ensures count <= bound
  {
    if count > bound {
      MulMono(least, bound, count);
    }
  }

  lemma Two53IsExact(n: nat)
    requires n <= TWO53
    ensures ExactCount(n)
  {
    if n == TWO53 {
      assert ExtraBits(TWO53 / 2) == 0;
      assert ExtraBits(n) == 1;
      assert Pow2(1) == 2 by { assert Pow2(0) == 1; }
    }
  }

  lemma OneAboveRounds()
    ensures ToNumber(TWO53 + 1) == Finite(TWO53)
  {
    var n := TWO53 + 1;
    assert ExtraBits(n / 2) == 0;
    assert ExtraBits(n) == 1;
    assert Pow2(1) == 2 by { assert Pow2(0) == 1; }
  }

  lemma OneSplit(d: int, n: nat)
    requires d > 0 && n > 0
    ensures SortDescending([d]) == [d]
    ensures GreedySplit([d], d * n) == Greedy([Piece(d, n)], 0, false)
  {
    assert SortDescending([d][1..]) == [];
    MulMono(d, 1, n);
    DivUnique(d * n, d, n, 0);
    assert GreedySplit([d][1..], 0) == Greedy([], 0, false);
  }

  /** Both sides of the condition at one amount beyond 2^53: 2^53 + 1 unit notes come back one short, and
      2^53 notes of two, which are more, come back exactly. */
  lemma SplitNotExactAbove()
    ensures SplitAmount(TWO53 + 1, [1]) == Split([Shown(1, Finite(TWO53))])
    ensures Worth([Shown(1, Finite(TWO53))]) == Some(TWO53)
    ensures Worth(SplitAmount(2 * TWO53, [2]).pieces) == Some(2 * TWO53)
  {
    hide GreedySplit, SortDescending, ToNumber;
    OneSplit(1, TWO53 + 1);
    OneAboveRounds();
    assert Reported([Piece(1, TWO53 + 1)]) == [Shown(1, Finite(TWO53))];
    assert Worth([Shown(1, Finite(TWO53))][1..]) == Some(0);
    OneSplit(2, TWO53);
    Two53IsExact(TWO53);
    assert Reported([Piece(2, TWO53)]) == [Shown(2, Finite(TWO53))];
    assert Worth([Shown(2, Finite(TWO53))][1..]) == Some(0);
  }

  // ----- divisibility chains

  /** Positive denominations, largest first, each a multiple of the next. */
  predicate Chain(ds: seq<int>) {
    && Descending(ds)
    && (forall k :: 0 <= k < |ds| ==> ds[k] > 0)
    && (forall k :: 0 <= k < |ds| - 1 ==> ds[k] % ds[k + 1] == 0)
  }

  function Positives(ds: seq<int>): (r: seq<int>) {
    if ds == [] then [] else (if ds[0] > 0 then [ds[0]] else []) + Positives(ds[1..])
  }

  lemma {:induction false} NoPositives(ds: seq<int>, amount: int)
    requires Descending(ds) && (ds != [] ==> ds[0] <= 0) && amount > 0
    ensures Positives(ds) == []
    ensures GreedySplit(ds, amount).pieces == [] && GreedySplit(ds, amount).rest == amount
  {
    if ds != [] {
      assert forall k :: 0 <= k < |ds[1..]| ==> ds[1..][k] == ds[k + 1];
      NoPositives(ds[1..], amount);
    }
  }

  /** Denominations that are not positive change neither the pieces nor the rest. */
  lemma {:induction false} OnlyPositivesMatter(ds: seq<int>, amount: int)
    requires Descending(ds) && amount >= 0
    ensures var g, h := GreedySplit(ds, amount), GreedySplit(Positives(ds), amount);
      g.pieces == h.pieces && g.rest == h.rest && (g.dividedByZero ==> g.rest > 0) && !h.dividedByZero
  {
    if ds != [] && amount > 0 {
      var d, tail := ds[0], ds[1..];
      if d <= 0 {
        NoPositives(ds, amount);
        ZeroLeavesRest(ds, amount);
      } else {
        assert Positives(ds)[1..] == Positives(tail);
        if amount < d {
          OnlyPositivesMatter(tail, amount);
        } else {
          DivFacts(amount, d);
          OnlyPositivesMatter(tail, amount - d * (amount / d));
        }
      }
    }
  }

  lemma {:induction false} ZeroLeavesRest(ds: seq<int>, amount: int)
    requires amount >= 0
    ensures GreedySplit(ds, amount).dividedByZero ==> GreedySplit(ds, amount).rest > 0
  {
    if ds != [] && amount > 0 && ds[0] != 0 {
      if ds[0] < 0 || amount < ds[0] {
        ZeroLeavesRest(ds[1..], amount);
      } else {
        DivFacts(amount, ds[0]);
        ZeroLeavesRest(ds[1..], amount - ds[0] * (amount / ds[0]));
      }
    }
  }

  lemma ChainHeadPositive(ds: seq<int>)
    requires Chain(ds) && ds != []
    ensures ds[0] > 0
  {
  }

  lemma ChainLast(ds: seq<int>)
    requires Chain(ds) && ds != []
    ensures ds[|ds| - 1] > 0
  {
  }

  lemma ChainTail(ds: seq<int>)
    requires Chain(ds) && ds != []
    ensures Chain(ds[1..])
  {
    assert forall k :: 0 <= k < |ds[1..]| ==> ds[1..][k] == ds[k + 1];
  }

  lemma ModSub(a: int, m: int, c: int, d: int)
    requires d > 0 && m % d == 0
    ensures (a - m * c) % d == a % d
  {
    var q := m / d;
    assert m == q * d;
    assert m * c == (q * c) * d;
    ModShiftBy(a - m * c, q * c, d);
  }

  lemma {:induction false} ChainMultiple(ds: seq<int>)
    requires Chain(ds) && ds != []
    ensures ds[0] % ds[|ds| - 1] == 0
  {
    if |ds| > 1 {
      ChainTail(ds);
      ChainMultiple(ds[1..]);
      var s := ds[|ds| - 1];
      assert ds[1..][|ds| - 2] == s;
      var q, r := ds[0] / ds[1], ds[1] / s;
      assert ds[0] == q * ds[1] && ds[1] == r * s;
      assert ds[0] == (q * r) * s;
      ModShiftBy(0, q * r, s);
    }
  }

  lemma RestStep(ds: seq<int>, amount: int)
    requires ds != [] && ds[0] > 0 && amount > 0
    ensures GreedySplit(ds, amount).rest ==
              GreedySplit(ds[1..], if amount < ds[0] then amount else amount - ds[0] * (amount / ds[0])).rest
  {
  }

  lemma RestOfNothing(ds: seq<int>, amount: int)
    requires amount <= 0 || ds == []
    ensures GreedySplit(ds, amount).rest == amount
  {
  }

  lemma SingleRest(amount: int, d: int)
    requires d > 0 && amount > 0
    ensures (if amount < d then amount else amount - d * (amount / d)) == amount % d
  {
    DivFacts(amount, d);
    if amount < d {
      DivUnique(amount, d, 0, amount);
    }
  }

  /** On a chain the greedy rest is the remainder by the smallest denomination. */
  lemma {:induction false} ChainRest(ds: seq<int>, amount: int)
    requires Chain(ds) && ds != [] && amount >= 0
    ensures GreedySplit(ds, amount).rest == amount % ds[|ds| - 1]
  {
    hide Chain, GreedySplit;
    var d, s, tail := ds[0], ds[|ds| - 1], ds[1..];
    ChainTail(ds);
    ChainHeadPositive(ds);
    ChainLast(ds);
    if amount == 0 {
      RestOfNothing(ds, 0);
      DivUnique(0, s, 0, 0);
    } else {
      var left := if amount < d then amount else amount - d * (amount / d);
      RestStep(ds, amount);
      SingleRest(amount, d);
      if tail == [] {
        RestOfNothing(tail, left);
      } else {
        assert tail[|tail| - 1] == s;
        DivFacts(amount, d);
        ChainRest(tail, left);
        ChainMultiple(ds);
        ModSub(amount, d, amount / d, s);
      }
    }
  }

  /** When the positive denominations form a chain, a positive amount is split exactly when the smallest
      of them divides it. */
  lemma ChainSplitIff(amount: int, denominations: seq<int>)
    requires amount > 0 && Chain(Positives(SortDescending(denominations)))
    ensures var ds := Positives(SortDescending(denominations));
      SplitAmount(amount, denominations).Split? <==> ds != [] && amount % ds[|ds| - 1] == 0
  {
    var ds := Positives(SortDescending(denominations));
    OnlyPositivesMatter(SortDescending(denominations), amount);
    if ds != [] {
      ChainRest(ds, amount);
    }
  }

  // ----- fewest notes

  /** Any way to pay: a count for each denomination. */
  function Paid(ds: seq<int>, counts: seq<nat>): int
    requires |ds| == |counts|
  {
    if ds == [] then 0 else ds[0] * counts[0] + Paid(ds[1..], counts[1..])
  }

  function NoteCount(counts: seq<nat>): nat {
    if counts == [] then 0 else counts[0] + NoteCount(counts[1..])
  }

  function GreedyNotes(ds: seq<int>, amount: int): nat {
    Notes(GreedySplit(ds, amount).pieces)
  }

  lemma SmallQuotient(n: int, d: int)
    requires 0 <= n < d
    ensures n / d == 0
  {
  }

  lemma GreedyNotesStep(ds: seq<int>, amount: int)
    requires Chain(ds) && ds != [] && amount >= 0
    ensures GreedyNotes(ds, amount) == amount / ds[0] + GreedyNotes(ds[1..], amount - ds[0] * (amount / ds[0]))
  {
    hide Chain;
    var d := ds[0];
    ChainHeadPositive(ds);
    QuotientAtLeast(amount, d, 0);
    var q, rest := amount / d, amount - d * (amount / d);
    if amount < d {
      SmallQuotient(amount, d);
    } else {
      assert q > 0 by { MulMono(d, q, 0); }
      assert GreedySplit(ds, amount).pieces == [Piece(d, q)] + GreedySplit(ds[1..], rest).pieces;
      assert GreedySplit(ds, amount).pieces[1..] == GreedySplit(ds[1..], rest).pieces;
    }
  }

  /** Adding `k` copies of a multiple of the largest denomination costs at least `k` more notes. */
  lemma GreedyNotesGrow(ds: seq<int>, amount: int, m: int, k: nat)
    requires Chain(ds) && ds != [] && amount >= 0 && m > 0 && m % ds[0] == 0
    ensures GreedyNotes(ds, amount + k * m) >= GreedyNotes(ds, amount) + k
  {
    hide GreedyNotes, Chain;
    var d := ds[0];
    ChainHeadPositive(ds);
    var q := m / d;
    assert m == q * d;
    MulMono(d, q, 0);
    assert k * m == (k * q) * d;
    assert k * m >= 0 && k * q >= k;
    DivShiftBy(amount, k * q, d);
    GreedyNotesStep(ds, amount);
    GreedyNotesStep(ds, amount + k * m);
  }

  lemma DivShiftBy(a: int, k: int, d: int)
    requires d > 0
    ensures (a + k * d) / d == a / d + k
    ensures a + k * d - d * ((a + k * d) / d) == a - d * (a / d)
  {
    ModShiftBy(a, k, d);
    assert d * (a / d + k) == d * (a / d) + k * d;
  }

  /** On a chain no way to pay the amount uses fewer notes than the greedy one. */
  lemma {:induction false} GreedyIsFewest(ds: seq<int>, counts: seq<nat>, amount: int)
    requires Chain(ds) && |counts| == |ds| && amount >= 0 && Paid(ds, counts) == amount
    ensures GreedyNotes(ds, amount) <= NoteCount(counts)
  {
    if ds != [] {
      hide GreedyNotes, Chain;
      var d, c := ds[0], counts[0];
      ChainTail(ds);
      ChainHeadPositive(ds);
      PaidNonnegative(ds[1..], counts[1..]);
      GreedyIsFewest(ds[1..], counts[1..], amount - d * c);
      QuotientAtLeast(amount, d, c);
      var q := amount / d;
      var r := amount - d * q;
      GreedyNotesStep(ds, amount);
      RestByQuotient(amount, d, c, q);
      if |ds| > 1 {
        ChainNext(ds);
        GreedyNotesGrow(ds[1..], r, d, q - c);
      } else {
        RestZero(d, c, q, r);
      }
    }
  }

  lemma RestByQuotient(amount: int, d: int, c: int, q: int)
    ensures amount - d * c == (amount - d * q) + (q - c) * d
  {
  }

  lemma RestZero(d: int, c: int, q: int, r: int)
    requires d > 0 && 0 <= r < d && 0 == r + (q - c) * d
    ensures q == c
  {
    SmallMultiple(q - c, d);
  }

  lemma ChainNext(ds: seq<int>)
    requires Chain(ds) && |ds| > 1
    ensures ds[0] % ds[1..][0] == 0 && ds[1..][0] > 0
  {
  }

  lemma {:induction false} PaidNonnegative(ds: seq<int>, counts: seq<nat>)
    requires |ds| == |counts| && Chain(ds)
    ensures Paid(ds, counts) >= 0
  {
    if ds != [] {
      ChainTail(ds);
      PaidNonnegative(ds[1..], counts[1..]);
      assert ds[0] * counts[0] >= 0;
    }
  }

  lemma QuotientAtLeast(n: int, d: int, c: nat)
    requires d > 0 && n >= d * c
    ensures c <= n / d && 0 <= n - d * (n / d) < d
  {
    assert n == d * (n / d) + n % d;
    MulMono(d, n / d + 1, c);
  }

  lemma {:induction false} ExactNotes(pieces: seq<Piece>)
    requires AllExact(pieces)
    ensures ShownNotes(Reported(pieces)) == Some(Notes(pieces))
  {
    hide ToNumber;
    if pieces != [] {
      assert pieces[0] in pieces && forall p :: p in pieces[1..] ==> p in pieces;
      assert Reported(pieces)[1..] == Reported(pieces[1..]);
      ExactNotes(pieces[1..]);
    }
  }

  /** Fewest notes, for the split itself: on a chain, no counts over the positive denominations that pay
      the amount use fewer notes than the exact pieces, nor than the returned ones whenever those pay it. */
  lemma SplitIsFewest(amount: int, denominations: seq<int>, counts: seq<nat>)
    requires SplitAmount(amount, denominations).Split?
    requires var ds := Positives(SortDescending(denominations));
      Chain(ds) && |counts| == |ds| && Paid(ds, counts) == amount
    ensures Notes(GreedySplit(SortDescending(denominations), amount).pieces) <= NoteCount(counts)
    ensures var pieces := SplitAmount(amount, denominations).pieces;
      Worth(pieces) == Some(amount) ==> ShownNotes(pieces).Some? && ShownNotes(pieces).value <= NoteCount(counts)
  {
    SplitIsExact(amount, denominations);
    hide GreedySplit, AllExact;
    var ds := SortDescending(denominations);
    var exact := GreedySplit(ds, amount).pieces;
    OnlyPositivesMatter(ds, amount);
    GreedyIsFewest(Positives(ds), counts, amount);
    if Worth(SplitAmount(amount, denominations).pieces) == Some(amount) {
      ExactNotes(exact);
    }
  }

  lemma SortFront(d: int, ds: seq<int>)
    requires SortDescending(ds) == ds && (ds == [] || d >= ds[0])
    ensures SortDescending([d] + ds) == [d] + ds
  {
    assert ([d] + ds)[1..] == ds;
  }

  lemma SmallSorts()
    ensures SortDescending([4, 3, 1]) == [4, 3, 1] && SortDescending([4, 3]) == [4, 3]
  {
    hide SortDescending;
    assert SortDescending([]) == [] by { EmptySort(); }
    SortFront(1, []);
    SortFront(3, []);
    assert [1] + [] == [1] && [3] + [] == [3];
    SortFront(3, [1]);
    assert [3] + [1] == [3, 1];
    SortFront(4, [3, 1]);
    SortFront(4, [3]);
    assert [4] + [3, 1] == [4, 3, 1] && [4] + [3] == [4, 3];
  }

  lemma EmptySort()
    ensures SortDescending([]) == []
  {
  }

  lemma SmallSplits()
    ensures GreedySplit([4, 3, 1], 6) == Greedy([Piece(4, 1), Piece(1, 2)], 0, false)
    ensures GreedySplit([4, 3], 6) == Greedy([Piece(4, 1)], 2, false)
  {
    assert [4, 3, 1][1..] == [3, 1] && [3, 1][1..] == [1] && [1][1..] == [] && [4, 3][1..] == [3] && [3][1..] == [];
    assert GreedySplit([1], 2) == Greedy([Piece(1, 2)], 0, false);
    assert GreedySplit([3, 1], 2) == GreedySplit([1], 2);
    assert GreedySplit([3], 2) == Greedy([], 2, false);
  }

  /** Largest first is not best, and may fail, when the denominations are not a chain: 6 is two notes of
      3, yet from 4, 3 and 1 the split takes three notes and from 4 and 3 it finds none. */
  lemma NotFewestWithoutChain()
    ensures SplitAmount(6, [4, 3, 1]) == Split([Shown(4, Finite(1)), Shown(1, Finite(2))])
    ensures SplitAmount(6, [4, 3]) == NotRepresentable(2)
    ensures Paid([4, 3, 1], [0, 2, 0]) == 6 && NoteCount([0, 2, 0]) == 2
  {
    hide SortDescending, GreedySplit;
    SmallSorts();
    SmallSplits();
    assert Reported([Piece(4, 1), Piece(1, 2)]) == [Shown(4, Finite(1)), Shown(1, Finite(2))];
    assert [4, 3, 1][1..] == [3, 1] && [3, 1][1..] == [1] && [1][1..] == [];
    assert [0, 2, 0][1..] == [2, 0] && [2, 0][1..] == [0] && [0][1..] == [];
    assert Paid([1], [0]) == 0 && Paid([3, 1], [2, 0]) == 6;
    assert NoteCount([0]) == 0 && NoteCount([2, 0]) == 2;
  }

  // ----- largest first, whatever the denominations

  /** Value of the pieces smaller than a denomination. */
  function ValueBelow(pieces: seq<Piece>, d: int): int {
    if pieces == [] then 0
    else (if pieces[0].denomination < d then pieces[0].denomination * pieces[0].count
          else 0) + ValueBelow(pieces[1..], d)
  }

  /** Pieces that are all smaller count in full. */
  lemma {:induction false} ValueBelowAll(pieces: seq<Piece>, d: int)
    requires forall p :: p in pieces ==> p.denomination < d
    ensures ValueBelow(pieces, d) == Value(pieces)
  {
    if pieces != [] {
      assert pieces[0] in pieces && forall p :: p in pieces[1..] ==> p in pieces;
      ValueBelowAll(pieces[1..], d);
    }
  }

  lemma ValueBelowCons(p: Piece, pieces: seq<Piece>, d: int)
    ensures ValueBelow([p] + pieces, d)
         == (if p.denomination < d then p.denomination * p.count else 0) + ValueBelow(pieces, d)
  {
    assert ([p] + pieces)[1..] == pieces;
  }

  /** What is left of an amount below `d` is paid in pieces below `d`. */
  lemma SmallAmount(ds: seq<int>, amount: int, d: int)
    requires Descending(ds) && 0 <= amount < d
    ensures var g := GreedySplit(ds, amount);
      ValueBelow(g.pieces, d) + g.rest == amount
  {
    GreedyConserves(ds, amount);
    GreedyWellFormed(ds, amount, amount);
    var pieces := GreedySplit(ds, amount).pieces;
    forall p | p in pieces ensures p.denomination < d {
      var k :| 0 <= k < |pieces| && pieces[k] == p;
    }
    ValueBelowAll(pieces, d);
  }

  /** Largest first: for every positive denomination offered, what is paid in smaller ones, together with what
      cannot be paid, is less than that denomination. With conservation this determines every count. */
  lemma {:induction false} GreedyIsLargestFirst(ds: seq<int>, amount: int, d: int)
    requires Descending(ds) && amount >= 0 && d in ds && d > 0
    ensures var g := GreedySplit(ds, amount);
      0 <= ValueBelow(g.pieces, d) + g.rest < d
  {
    if amount > 0 {
      var head, tail := ds[0], ds[1..];
      assert ds == [head] + tail && head >= d;
      assert forall k :: 0 <= k < |tail| ==> tail[k] == ds[k + 1];
      DivFacts(amount, head);
      var left := if amount < head then amount else amount - head * (amount / head);
      if head == d {
        SmallAmount(tail, left, d);
      } else {
        GreedyIsLargestFirst(tail, left, d);
      }
      if head <= amount {
        ValueBelowCons(Piece(head, amount / head), GreedySplit(tail, left).pieces, d);
      }
    }
  }

  /** Why a split is refused: the amount is not positive; or what the positive denominations leave is not zero, which
      is reported as the remainder unless a zero among them makes the division fail first. */
  lemma SplitRefusedIff(amount: int, denominations: seq<int>)
    ensures var r := SplitAmount(amount, denominations);
      var rest := GreedySplit(Positives(SortDescending(denominations)), amount).rest;
      && (r == NotPositive <==> amount <= 0)
      && (r == DivisionByZero <==> amount > 0 && rest > 0 && 0 in denominations)
      && (r.NotRepresentable? <==> amount > 0 && rest > 0 && 0 !in denominations)
      && (r.NotRepresentable? ==> r.remainder == rest)
  {
    hide GreedySplit, SortDescending, Positives;
    if amount > 0 {
      var ds := SortDescending(denominations);
      OnlyPositivesMatter(ds, amount);
      GreedyConserves(ds, amount);
      ZeroIsReached(ds, amount);
    }
  }

  lemma TailBelow(ds: seq<int>)
    requires Descending(ds) && ds != []
    ensures Descending(ds[1..]) && forall x :: x in ds[1..] ==> x <= ds[0]
  {
    assert forall k :: 0 <= k < |ds| - 1 ==> ds[1..][k] == ds[k + 1];
  }

  lemma GreedyStep(ds: seq<int>, amount: int)
    requires ds != [] && amount > 0 && ds[0] != 0
    ensures var left := if ds[0] < 0 || amount < ds[0] then amount else amount - ds[0] * (amount / ds[0]);
      && 0 <= left
      && var g, h := GreedySplit(ds, amount), GreedySplit(ds[1..], left);
      g.rest == h.rest && g.dividedByZero == h.dividedByZero
  {
    DivFacts(amount, ds[0]);
  }

  /** A zero denomination is divided by exactly when something is left for it. */
  lemma {:induction false} ZeroIsReached(ds: seq<int>, amount: int)
    requires Descending(ds) && amount >= 0
    ensures var g := GreedySplit(ds, amount);
      g.dividedByZero <==> 0 in ds && g.rest > 0
  {
    if ds != [] && amount > 0 {
      var head, tail := ds[0], ds[1..];
      assert ds == [head] + tail;
      TailBelow(ds);
      hide Descending;
      if head != 0 {
        GreedyStep(ds, amount);
        hide GreedySplit;
        ZeroIsReached(tail, if head < 0 || amount < head then amount else amount - head * (amount / head));
      }
    }
  }
}
