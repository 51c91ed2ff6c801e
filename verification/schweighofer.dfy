/**
 * The positivity tester: the sign rules for powers and products
 * (test_factorized), the numeric and syntactic short-cuts of test, the
 * monomial table, the product closure of the sources (expandSrcs) and the
 * folding of numeric sources in the constructor. The linear program the
 * tester hands to the LP solver is not part of this model.
 */
module Schweighofer {
  import opened Wrappers
  import opened SignLattice
  import opened Terms

  // ---------------------------------------------------------------------
  // Arithmetic facts used by the sign rules.

  lemma MulMono(a: real, b: real, c: real, d: real)
    requires a >= b >= 0.0 && c >= d >= 0.0
    ensures a * c >= b * d
  {
    assert a * c >= b * c;
    assert b * c >= b * d;
  }

  lemma {:induction false} PowerMono(b: real, d: real, n: nat)
    requires b >= d >= 0.0
    ensures Power(b, n) >= Power(d, n)
  {
    if n > 0 {
      PowerMono(b, d, n - 1);
      MulMono(b, d, Power(b, n - 1), Power(d, n - 1));
    }
  }

  lemma {:induction false} PowerOfNegation(b: real, n: nat)
    ensures n % 2 == 0 ==> Power(-b, n) == Power(b, n)
    ensures n % 2 == 1 ==> Power(-b, n) == -Power(b, n)
  {
    if n > 0 {
      PowerOfNegation(b, n - 1);
      var p := Power(b, n - 1);
      if n % 2 == 1 {
        assert Power(-b, n) == -b * p;
      } else {
        assert Power(-b, n) == -b * -p;
      }
    }
  }

  // ---------------------------------------------------------------------
  // Sign of a power b^n from the sign of its base.

  function PowerRule(sub: TestResult, n: nat): (r: TestResult)
    ensures WellFormed(sub) ==> WellFormed(r)
  {
    match sub.sign
    case Zero => sub
    case Absurd => sub
    case Gez => sub
    case Unknown => if n % 2 == 0 then TestResult(Gez, 0.0) else sub
    case Lez => if n % 2 == 0 then TestResult(Gez, 0.0) else sub
    case Ltz =>
      if n % 2 == 0 then TestResult(Gtz, Power(sub.distance, n))
      else TestResult(Ltz, Power(sub.distance, n))
    case Gtz => TestResult(Gtz, Power(sub.distance, n))
  }

  /** Whatever the base's result claims about `b` carries over to `b^n`. */
  lemma PowerRuleSound(sub: TestResult, n: nat, b: real)
    requires n >= 1 && WellFormed(sub) && Holds(sub, b)
    ensures Holds(PowerRule(sub, n), Power(b, n))
  {
    match sub.sign
    case Zero =>
    case Gez => PowerMono(b, 0.0, n);
    case Gtz => PowerMono(b, sub.distance, n);
    case Unknown =>
      if n % 2 == 0 {
        PowerOfNegation(b, n);
        if b >= 0.0 { PowerMono(b, 0.0, n); } else { PowerMono(-b, 0.0, n); }
      }
    case Lez =>
      PowerOfNegation(b, n);
      PowerMono(-b, 0.0, n);
    case Ltz =>
      PowerOfNegation(b, n);
      PowerMono(-b, sub.distance, n);
    case Absurd =>
  }

  // ---------------------------------------------------------------------
  // Sign of a negated power -(b^n) from the sign of its base.

  function NegatedPowerRule(sub: TestResult, n: nat): (r: TestResult)
    ensures WellFormed(sub) ==> WellFormed(r)
  {
    match sub.sign
    case Zero => sub
    case Absurd => sub
    case Unknown => if n % 2 == 0 then TestResult(Lez, 0.0) else sub
    case Gez => TestResult(Lez, 0.0)
    case Lez => if n % 2 == 0 then TestResult(Lez, 0.0) else TestResult(Gez, 0.0)
    case Ltz =>
      if n % 2 == 0 then TestResult(Ltz, Power(sub.distance, n))
      else TestResult(Gtz, Power(sub.distance, n))
    case Gtz => TestResult(Ltz, Power(sub.distance, n))
  }

  /** Whatever the base's result claims about `b` carries over to `-(b^n)`. */
  lemma NegatedPowerRuleSound(sub: TestResult, n: nat, b: real)
    requires n >= 1 && WellFormed(sub) && Holds(sub, b)
    ensures Holds(NegatedPowerRule(sub, n), -Power(b, n))
  {
    match sub.sign
    case Zero =>
    case Gez => PowerMono(b, 0.0, n);
    case Gtz => PowerMono(b, sub.distance, n);
    case Unknown =>
      if n % 2 == 0 {
        PowerOfNegation(b, n);
        if b >= 0.0 { PowerMono(b, 0.0, n); } else { PowerMono(-b, 0.0, n); }
      }
    case Lez =>
      PowerOfNegation(b, n);
      PowerMono(-b, 0.0, n);
    case Ltz =>
      PowerOfNegation(b, n);
      PowerMono(-b, sub.distance, n);
    case Absurd =>
  }

  // ---------------------------------------------------------------------
  // Sign of a product from the signs of its factors.

  function Product(vs: seq<real>): real
  {
    if |vs| == 0 then 1.0 else vs[0] * Product(vs[1..])
  }

  /** Every result is well formed and holds for the matching value. */
  predicate AllHold(rs: seq<TestResult>, vs: seq<real>)
  {
    |rs| == |vs| && forall i :: 0 <= i < |rs| ==> WellFormed(rs[i]) && Holds(rs[i], vs[i])
  }

  /** The partial product `acc` lies at least `dist` away from zero on the side `positive` names. */
  predicate Within(positive: bool, dist: real, acc: real)
  {
    dist >= 0.0 && (positive ==> acc >= dist) && (!positive ==> acc <= -dist)
  }

  /** A factor whose result is the product's result. */
  predicate Decisive(f: TestResult)
  {
    f.sign == Absurd || f.sign == Unknown || f.sign == Zero
  }

  /** The side of zero after one more factor: negative factors flip it. */
  function StepSide(f: TestResult, positive: bool): bool
  {
    if f.sign == Ltz || f.sign == Lez then !positive else positive
  }

  /** The distance after one more factor: strict factors multiply it, weak ones reset it to 0. */
  function StepDistance(f: TestResult, dist: real): real
  {
    if f.sign == Ltz || f.sign == Gtz then dist * f.distance else 0.0
  }

  /** The result once every factor has been seen. */
  function Conclude(positive: bool, dist: real): TestResult
  {
    if positive then (if dist > 0.0 then TestResult(Gtz, dist) else TestResult(Gez, 0.0))
    else (if dist > 0.0 then TestResult(Ltz, dist) else TestResult(Lez, 0.0))
  }

  /** The product rule applied to the factors `fs`, starting from side `positive` and distance `dist`. */
  function ProductFrom(fs: seq<TestResult>, positive: bool, dist: real): TestResult
    decreases |fs|
  {
    if |fs| == 0 then Conclude(positive, dist)
    else if Decisive(fs[0]) then fs[0]
    else ProductFrom(fs[1..], StepSide(fs[0], positive), StepDistance(fs[0], dist))
  }

  lemma StepWithin(positive: bool, dist: real, acc: real, f: TestResult, v: real)
    requires Within(positive, dist, acc) && WellFormed(f) && Holds(f, v) && !Decisive(f)
    ensures Within(StepSide(f, positive), StepDistance(f, dist), acc * v)
  {
    match f.sign
    case Ltz =>
      if positive {
        MulMono(acc, dist, -v, f.distance);
        assert acc * v == -(acc * -v);
      } else {
        MulMono(-acc, dist, -v, f.distance);
        assert acc * v == (-acc) * (-v);
      }
    case Gtz =>
      if positive {
        MulMono(acc, dist, v, f.distance);
      } else {
        MulMono(-acc, dist, v, f.distance);
        assert acc * v == -((-acc) * v);
      }
    case Lez =>
      if positive {
        MulMono(acc, 0.0, -v, 0.0);
        assert acc * v == -(acc * -v);
      } else {
        MulMono(-acc, 0.0, -v, 0.0);
        assert acc * v == (-acc) * (-v);
      }
    case Gez =>
      if positive {
        MulMono(acc, 0.0, v, 0.0);
      } else {
        MulMono(-acc, 0.0, v, 0.0);
        assert acc * v == -((-acc) * v);
      }
  }

  /** With every factor seen, the concluded result holds for the product accumulated so far. */
  lemma ConcludeSound(positive: bool, dist: real, acc: real)
    requires Within(positive, dist, acc)
    ensures Holds(Conclude(positive, dist), acc)
  {
  }

  /** A decisive factor's result holds for any multiple of its value. */
  lemma DecisiveSound(f: TestResult, v: real, k: real)
    requires Holds(f, v) && Decisive(f)
    ensures Holds(f, k * v)
  {
    if f.sign == Zero {
      assert k * v == 0.0;
    }
  }

  lemma AllHoldTail(fs: seq<TestResult>, vs: seq<real>)
    requires AllHold(fs, vs) && |fs| > 0
    ensures AllHold(fs[1..], vs[1..]) && WellFormed(fs[0]) && Holds(fs[0], vs[0])
  {
    forall i | 0 <= i < |fs[1..]| ensures WellFormed(fs[1..][i]) && Holds(fs[1..][i], vs[1..][i]) {
      assert fs[1..][i] == fs[i + 1] && vs[1..][i] == vs[i + 1];
    }
  }

  /**
   * The product rule is sound: what it claims holds for the product `x` of
   * the factors' values with the part `acc` already accumulated.
   */
  lemma {:induction false} ProductFromSound(fs: seq<TestResult>, vs: seq<real>, positive: bool, dist: real,
                                            acc: real, x: real)
    requires AllHold(fs, vs) && Within(positive, dist, acc) && x == acc * Product(vs)
    ensures Holds(ProductFrom(fs, positive, dist), x)
    decreases |fs|
  {
    if |fs| == 0 {
      ConcludeSound(positive, dist, acc);
    } else {
      var f, v, rest := fs[0], vs[0], Product(vs[1..]);
      AllHoldTail(fs, vs);
      Reorder(acc, v, rest);
      if Decisive(f) {
        DecisiveSound(f, v, acc * rest);
      } else {
        StepWithin(positive, dist, acc, f, v);
        ProductFromSound(fs[1..], vs[1..], StepSide(f, positive), StepDistance(f, dist), acc * v, x);
      }
    }
  }

  /**
   * The sign of a product, factor by factor: an UNKNOWN, ZERO or ABSURD
   * factor is returned as it is, negative factors flip the side, strict
   * factors multiply the distance and weak ones reset it to 0.
   */
  method ProductSign(factors: seq<TestResult>) returns (r: TestResult)
    ensures r == ProductFrom(factors, true, 1.0)
    ensures forall vs :: AllHold(factors, vs) ==> Holds(r, Product(vs))
  {
    var positive := true;
    var distance := 1.0;
    var i := 0;
    while i < |factors|
      invariant 0 <= i <= |factors|
      invariant ProductFrom(factors[i..], positive, distance) == ProductFrom(factors, true, 1.0)
    {
      var t := factors[i];
      assert factors[i..][0] == t && factors[i..][1..] == factors[i + 1..];
      if Decisive(t) {
        r := t;
        break;
      }
      positive, distance := StepSide(t, positive), StepDistance(t, distance);
      i := i + 1;
    }
    if i == |factors| {
      assert factors[i..] == [];
      r := Conclude(positive, distance);
    }
    forall vs | AllHold(factors, vs)
      ensures Holds(r, Product(vs))
    {
      ProductFromSound(factors, vs, true, 1.0, 1.0, Product(vs));
    }
  }

  // ---------------------------------------------------------------------
  // test_factorized: powers, negated powers and products.

  /** The power `b^n` inside `-(b^n)`, when `e` is written as that product with -1. */
  function NegatedPowerOf(e: Term): (r: Option<Term>)
    ensures r.Some? ==> r.value.Pow? && forall env :: Eval(e, env) == -Eval(r.value, env)
  {
    if e.Mul? && |e.factors| == 2 && e.factors[0] == Num(-1) && e.factors[1].Pow? then
      TwoFactors(e.factors);
      Some(e.factors[1])
    else if e.Mul? && |e.factors| == 2 && e.factors[1] == Num(-1) && e.factors[0].Pow? then
      TwoFactors(e.factors);
      Some(e.factors[0])
    else None
  }

  lemma TwoFactors(fs: seq<Term>)
    requires |fs| == 2
    ensures forall env :: ProductOf(fs, env) == Eval(fs[0], env) * Eval(fs[1], env)
  {
    forall env ensures ProductOf(fs, env) == Eval(fs[0], env) * Eval(fs[1], env) {
      assert fs[1..][1..] == [];
      assert fs[1..][0] == fs[1];
      calc {
        ProductOf(fs, env);
        Eval(fs[0], env) * ProductOf(fs[1..], env);
        Eval(fs[0], env) * (Eval(fs[1], env) * ProductOf(fs[1..][1..], env));
        Eval(fs[0], env) * (Eval(fs[1], env) * 1.0);
      }
    }
  }

  /** The tester's answer for each factor. */
  function Results(fs: seq<Term>, test: Term -> TestResult): (rs: seq<TestResult>)
    ensures |rs| == |fs| && forall i :: 0 <= i < |fs| ==> rs[i] == test(fs[i])
  {
    seq(|fs|, i requires 0 <= i < |fs| => test(fs[i]))
  }

  /** The value of each factor. */
  function Values(fs: seq<Term>, env: Sym -> real): (vs: seq<real>)
    ensures |vs| == |fs| && forall i :: 0 <= i < |fs| ==> vs[i] == Eval(fs[i], env)
  {
    seq(|fs|, i requires 0 <= i < |fs| => Eval(fs[i], env))
  }

  lemma {:induction false} ProductOfValues(fs: seq<Term>, env: Sym -> real)
    ensures ProductOf(fs, env) == Product(Values(fs, env))
    decreases |fs|
  {
    if |fs| > 0 {
      ProductOfValues(fs[1..], env);
      assert Values(fs, env)[1..] == Values(fs[1..], env);
    }
  }

  /** The tester answers soundly for every expression at the point `env`. */
  ghost predicate SoundAt(test: Term -> TestResult, env: Sym -> real)
  {
    forall t :: WellFormed(test(t)) && Holds(test(t), Eval(t, env))
  }

  /** Powers are never raised to the exponent 0: the algebra library folds `b^0` to 1. */
  predicate PowersFolded(e: Term)
  {
    (e.Pow? ==> e.exponent >= 1) && (NegatedPowerOf(e).Some? ==> NegatedPowerOf(e).value.exponent >= 1)
  }

  /**
   * The sign of a power, a negated power or a product from the signs of
   * its parts; anything else is UNKNOWN. Whatever it claims holds at every
   * point where the tester's answers for the parts hold.
   */
  method TestFactorized(e: Term, test: Term -> TestResult) returns (r: TestResult)
    requires !e.Num?
    ensures e.Pow? ==> r == PowerRule(test(e.base), e.exponent)
    ensures !e.Pow? && NegatedPowerOf(e).Some? ==>
      r == NegatedPowerRule(test(NegatedPowerOf(e).value.base), NegatedPowerOf(e).value.exponent)
    ensures !e.Pow? && NegatedPowerOf(e).None? && !e.Mul? ==> r == TestResult(Unknown, 0.0)
    ensures forall env :: PowersFolded(e) && SoundAt(test, env) ==> Holds(r, Eval(e, env))
  {
    if e.Pow? {
      r := PowerRule(test(e.base), e.exponent);
      forall env | PowersFolded(e) && SoundAt(test, env) ensures Holds(r, Eval(e, env)) {
        EvalPow(e.base, e.exponent, env);
        PowerRuleSound(test(e.base), e.exponent, Eval(e.base, env));
      }
    } else if NegatedPowerOf(e).Some? {
      var p := NegatedPowerOf(e).value;
      r := NegatedPowerRule(test(p.base), p.exponent);
      forall env | PowersFolded(e) && SoundAt(test, env) ensures Holds(r, Eval(e, env)) {
        EvalPow(p.base, p.exponent, env);
        NegatedPowerRuleSound(test(p.base), p.exponent, Eval(p.base, env));
      }
    } else if e.Mul? {
      var rs := Results(e.factors, test);
      r := ProductSign(rs);
      forall env | PowersFolded(e) && SoundAt(test, env) ensures Holds(r, Eval(e, env)) {
        ProductOfValues(e.factors, env);
        assert AllHold(rs, Values(e.factors, env));
      }
    } else {
      r := TestResult(Unknown, 0.0);
    }
  }

  // ---------------------------------------------------------------------
  // test: the numeric and syntactic short-cuts taken before the LP solver.

  /** How far test() got: a final answer, or the answer so far that the LP solver then refines. */
  datatype Phase = Final(result: TestResult) | Refine(result: TestResult)

  /**
   * A number is ZERO when it is within 1e-10 of 0, GTZ by its value when
   * positive (final), and LTZ by its magnitude when negative (refined).
   */
  function NumericTest(v: int): (p: Phase)
    ensures Holds(p.result, v as real) && WellFormed(p.result)
    ensures p.Final? <==> v >= 0
  {
    if -0.0000000001 < v as real < 0.0000000001 then Final(TestResult(Zero, 0.0))
    else if v < 0 then Refine(TestResult(Ltz, -(v as real)))
    else Final(TestResult(Gtz, v as real))
  }

  /**
   * Stands for the algebra library's `expand` followed by a number test:
   * `Some(v)` when the expression expands to the number `v`.
   */
  type Numberer = Term -> Option<real>

  ghost predicate NumbererSound(asNumber: Numberer, env: Sym -> real)
  {
    forall t :: asNumber(t).Some? ==> Eval(t, env) == asNumber(t).value
  }

  /** `ineq - b` is a number at least 0, so `b >= 0` implies `ineq >= 0`. */
  predicate GezBy(ineq: Term, b: Term, asNumber: Numberer)
  {
    asNumber(Minus(ineq, b)).Some? && asNumber(Minus(ineq, b)).value >= 0.0
  }

  /** `ineq + b` is a number at most 0, so `b >= 0` implies `ineq <= 0`. */
  predicate LezBy(ineq: Term, b: Term, asNumber: Numberer)
  {
    asNumber(Plus(ineq, b)).Some? && asNumber(Plus(ineq, b)).value <= 0.0
  }

  function Max(a: real, b: real): real
  {
    if a >= b then a else b
  }

  /**
   * After comparing `ineq` with the expressions `done` on the GEZ side:
   * `gez` says whether one differs from `ineq` by a number at least 0 and
   * `gtz` is the largest such number (witnessed by `gezAt` and `gtzAt`).
   */
  ghost predicate GezScanned(ineq: Term, done: set<Term>, asNumber: Numberer, gez: bool, gtz: real, gezAt: Term, gtzAt: Term)
  {
    && (gez ==> gezAt in done && GezBy(ineq, gezAt, asNumber))
    && gtz >= 0.0
    && (forall b :: b in done && GezBy(ineq, b, asNumber) ==> gez && asNumber(Minus(ineq, b)).value <= gtz)
    && (gtz > 0.0 ==> gtzAt in done && GezBy(ineq, gtzAt, asNumber) && asNumber(Minus(ineq, gtzAt)).value == gtz)
  }

  /** The same on the LEZ side, which is only looked at when `testPosAndNeg` is set. */
  ghost predicate LezScanned(ineq: Term, done: set<Term>, asNumber: Numberer, testPosAndNeg: bool,
                             lez: bool, ltz: real, lezAt: Term, ltzAt: Term)
  {
    && (lez ==> testPosAndNeg && lezAt in done && LezBy(ineq, lezAt, asNumber))
    && ltz >= 0.0
    && (testPosAndNeg ==> forall b :: b in done && LezBy(ineq, b, asNumber) ==> lez && -asNumber(Plus(ineq, b)).value <= ltz)
    && (ltz > 0.0 ==> lez && ltzAt in done && LezBy(ineq, ltzAt, asNumber) && -asNumber(Plus(ineq, ltzAt)).value == ltz)
    && (!testPosAndNeg ==> ltz == 0.0 && !lez)
  }

  /** One expression `b` compared on the GEZ side. */
  method ScanGez(ineq: Term, b: Term, asNumber: Numberer, ghost done: set<Term>,
                 gez: bool, gtz: real, ghost gezAt: Term, ghost gtzAt: Term)
    returns (gez': bool, gtz': real, ghost gezAt': Term, ghost gtzAt': Term)
    requires GezScanned(ineq, done, asNumber, gez, gtz, gezAt, gtzAt)
    ensures GezScanned(ineq, done + {b}, asNumber, gez', gtz', gezAt', gtzAt')
  {
    gez', gtz', gezAt', gtzAt' := gez, gtz, gezAt, gtzAt;
    var posTest := asNumber(Minus(ineq, b));
    if posTest.Some? && posTest.value >= 0.0 {
      gez', gezAt' := true, b;
      if posTest.value > gtz {
        gtzAt' := b;
      }
      gtz' := Max(gtz, posTest.value);
    }
  }

  /** One expression `b` compared on the LEZ side. */
  method ScanLez(ineq: Term, b: Term, asNumber: Numberer, testPosAndNeg: bool, ghost done: set<Term>,
                 lez: bool, ltz: real, ghost lezAt: Term, ghost ltzAt: Term)
    returns (lez': bool, ltz': real, ghost lezAt': Term, ghost ltzAt': Term)
    requires LezScanned(ineq, done, asNumber, testPosAndNeg, lez, ltz, lezAt, ltzAt)
    ensures LezScanned(ineq, done + {b}, asNumber, testPosAndNeg, lez', ltz', lezAt', ltzAt')
  {
    lez', ltz', lezAt', ltzAt' := lez, ltz, lezAt, ltzAt;
    if testPosAndNeg {
      var negTest := asNumber(Plus(ineq, b));
      if negTest.Some? && negTest.value <= 0.0 {
        lez', lezAt' := true, b;
        if -negTest.value > ltz {
          ltzAt' := b;
        }
        ltz' := Max(ltz, -negTest.value);
      }
    }
  }

  /**
   * Compares `ineq` with every expression the tester holds: `gez`/`lez`
   * record whether some of them differs from `ineq` (resp. `-ineq`) by a
   * number of the right sign, and `gtz`/`ltz` the largest such gap.
   */
  method Scan(ineq: Term, bases: set<Term>, testPosAndNeg: bool, asNumber: Numberer)
    returns (gez: bool, lez: bool, gtz: real, ltz: real)
    ensures gez <==> exists b :: b in bases && GezBy(ineq, b, asNumber)
    ensures lez <==> testPosAndNeg && exists b :: b in bases && LezBy(ineq, b, asNumber)
    ensures gtz >= 0.0 && ltz >= 0.0
    ensures forall b :: b in bases && GezBy(ineq, b, asNumber) ==> asNumber(Minus(ineq, b)).value <= gtz
    ensures gtz > 0.0 ==> exists b :: b in bases && GezBy(ineq, b, asNumber) && asNumber(Minus(ineq, b)).value == gtz
    ensures testPosAndNeg ==> forall b :: b in bases && LezBy(ineq, b, asNumber) ==> -asNumber(Plus(ineq, b)).value <= ltz
    ensures ltz > 0.0 ==> lez && exists b :: b in bases && LezBy(ineq, b, asNumber) && -asNumber(Plus(ineq, b)).value == ltz
  {
    gez, lez, gtz, ltz := false, false, 0.0, 0.0;
    ghost var gezAt, gtzAt, lezAt, ltzAt: Term := Num(0), Num(0), Num(0), Num(0);
    var todo := bases;
    ghost var done: set<Term> := {};
    while todo != {}
      invariant todo <= bases && done == bases - todo
      invariant GezScanned(ineq, done, asNumber, gez, gtz, gezAt, gtzAt)
      invariant LezScanned(ineq, done, asNumber, testPosAndNeg, lez, ltz, lezAt, ltzAt)
      decreases |todo|
    {
      var b :| b in todo;
      gez, gtz, gezAt, gtzAt := ScanGez(ineq, b, asNumber, done, gez, gtz, gezAt, gtzAt);
      lez, ltz, lezAt, ltzAt := ScanLez(ineq, b, asNumber, testPosAndNeg, done, lez, ltz, lezAt, ltzAt);
      todo := todo - {b};
      done := done + {b};
    }
  }

  /**
   * The answer of the syntactic comparison, as the source writes it: ABSURD
   * when one side is matched with a positive gap and the other side is
   * matched at all; otherwise the side with a match, strict when its gap is
   * positive. The ZERO answer for a match on both sides is overwritten by
   * the GEZ branch that follows it.
   */
  function DecideAsWritten(gez: bool, lez: bool, gtz: real, ltz: real): (p: Phase)
    ensures !gez && !lez ==> p == Refine(TestResult(Unknown, 0.0))
    ensures gez && lez && gtz == 0.0 && ltz == 0.0 ==> p.result.sign == Gez
  {
    if gez || lez then
      if (ltz > 0.0 && gez) || (gtz > 0.0 && lez) then Final(TestResult(Absurd, 0.0))
      else
        var zero := if lez && gez then TestResult(Zero, 0.0) else TestResult(Unknown, 0.0);
        if gez then Refine(if gtz > 0.0 then TestResult(Gtz, gtz) else TestResult(Gez, 0.0))
        else Refine(if ltz > 0.0 then TestResult(Ltz, ltz) else TestResult(Lez, 0.0))
    else Refine(TestResult(Unknown, 0.0))
  }

  /**
   * The answer of the syntactic comparison with the evident intent kept: a
   * match on both sides with no gap answers ZERO.
   */
  function Decide(gez: bool, lez: bool, gtz: real, ltz: real): (p: Phase)
    ensures !gez && !lez ==> p == Refine(TestResult(Unknown, 0.0))
    ensures gez && lez && gtz == 0.0 && ltz == 0.0 ==> p.result.sign == Zero
    ensures p.result.sign != Zero ==> p == DecideAsWritten(gez, lez, gtz, ltz)
  {
    if gez || lez then
      if (ltz > 0.0 && gez) || (gtz > 0.0 && lez) then Final(TestResult(Absurd, 0.0))
      else if lez && gez then Refine(TestResult(Zero, 0.0))
      else if gez then Refine(if gtz > 0.0 then TestResult(Gtz, gtz) else TestResult(Gez, 0.0))
      else Refine(if ltz > 0.0 then TestResult(Ltz, ltz) else TestResult(Lez, 0.0))
    else Refine(TestResult(Unknown, 0.0))
  }

  /**
   * Both readings are sound when every held expression is non-negative, and
   * where they differ the intended one is strictly more precise: ZERO pins
   * the value that GEZ only bounds.
   */
  lemma {:induction false} DecideSound(gez: bool, lez: bool, gtz: real, ltz: real, v: real)
    requires gtz >= 0.0 && ltz >= 0.0
    requires gez ==> v >= gtz
    requires lez ==> -v >= ltz
    requires gtz > 0.0 ==> gez
    requires ltz > 0.0 ==> lez
    ensures Holds(Decide(gez, lez, gtz, ltz).result, v)
    ensures Holds(DecideAsWritten(gez, lez, gtz, ltz).result, v)
    ensures Decide(gez, lez, gtz, ltz) != DecideAsWritten(gez, lez, gtz, ltz) ==>
      Decide(gez, lez, gtz, ltz).result.sign == Zero && DecideAsWritten(gez, lez, gtz, ltz).result.sign == Gez
  {
    if (ltz > 0.0 && gez) || (gtz > 0.0 && lez) {
      assert false;
    }
  }

  /** The gaps the scan finds bound the value of the tested expression wherever the held expressions are non-negative. */
  lemma ScanMeaning(ineq: Term, bases: set<Term>, testPosAndNeg: bool, asNumber: Numberer,
                    gez: bool, lez: bool, gtz: real, ltz: real, env: Sym -> real)
    requires gez <==> exists b :: b in bases && GezBy(ineq, b, asNumber)
    requires lez <==> testPosAndNeg && exists b :: b in bases && LezBy(ineq, b, asNumber)
    requires gtz >= 0.0 && ltz >= 0.0
    requires forall b :: b in bases && GezBy(ineq, b, asNumber) ==> asNumber(Minus(ineq, b)).value <= gtz
    requires gtz > 0.0 ==> exists b :: b in bases && GezBy(ineq, b, asNumber) && asNumber(Minus(ineq, b)).value == gtz
    requires ltz > 0.0 ==> lez && exists b :: b in bases && LezBy(ineq, b, asNumber) && -asNumber(Plus(ineq, b)).value == ltz
    requires NumbererSound(asNumber, env)
    requires forall b :: b in bases ==> Eval(b, env) >= 0.0
    ensures gez ==> Eval(ineq, env) >= gtz
    ensures lez ==> -Eval(ineq, env) >= ltz
    ensures gtz > 0.0 ==> gez
  {
    if gez {
      if gtz > 0.0 {
        var b :| b in bases && GezBy(ineq, b, asNumber) && asNumber(Minus(ineq, b)).value == gtz;
        EvalMinus(ineq, b, env);
      } else {
        var b :| b in bases && GezBy(ineq, b, asNumber);
        EvalMinus(ineq, b, env);
      }
    }
    if lez {
      if ltz > 0.0 {
        var b :| b in bases && LezBy(ineq, b, asNumber) && -asNumber(Plus(ineq, b)).value == ltz;
        EvalPlus(ineq, b, env);
      } else {
        var b :| b in bases && LezBy(ineq, b, asNumber);
        EvalPlus(ineq, b, env);
      }
    }
  }

  // ---------------------------------------------------------------------
  // gatherMonomials: the monomials of an expanded expression and their coefficients.

  /** No factor is a number. */
  predicate NoNumber(fs: seq<Term>)
  {
    forall i :: 0 <= i < |fs| ==> !fs[i].Num?
  }

  /** At most one factor is a number, as in every product the algebra library builds. */
  predicate OneCoefficient(fs: seq<Term>)
  {
    forall i, j :: 0 <= i < j < |fs| && fs[i].Num? ==> !fs[j].Num?
  }

  /**
   * The numeric coefficient of a product: its numeric factor, or 1. The
   * algebra library keeps at most one numeric factor in a product, so the
   * first one is the only one (Coefficient below reads it off as the
   * source's loop does).
   */
  function NumericFactor(fs: seq<Term>): real
  {
    if |fs| == 0 then 1.0
    else if fs[0].Num? then fs[0].value as real
    else NumericFactor(fs[1..])
  }

  /**
   * The coefficient as gatherMonomials' loop computes it: the last numeric
   * factor met, or 1 when there is none.
   */
  method Coefficient(fs: seq<Term>) returns (c: real)
    ensures OneCoefficient(fs) ==> c == NumericFactor(fs)
    ensures c == 1.0 || exists i :: 0 <= i < |fs| && fs[i].Num? && c == fs[i].value as real
  {
    c := 1.0;
    var k := 0;
    while k < |fs|
      invariant k <= |fs|
      invariant OneCoefficient(fs) ==>
        (c == 1.0 && NumericFactor(fs[k..]) == NumericFactor(fs)) || (c == NumericFactor(fs) && NoNumber(fs[k..]))
      invariant c == 1.0 || exists i :: 0 <= i < k && fs[i].Num? && c == fs[i].value as real
    {
      assert fs[k..][0] == fs[k] && fs[k..][1..] == fs[k + 1..];
      if fs[k].Num? {
        c := fs[k].value as real;
      }
      k := k + 1;
    }
  }

  /** The non-numeric factors of a product, in order. */
  function NonNumeric(fs: seq<Term>): (rest: seq<Term>)
    ensures forall i :: 0 <= i < |rest| ==> !rest[i].Num?
  {
    if |fs| == 0 then []
    else if fs[0].Num? then NonNumeric(fs[1..])
    else [fs[0]] + NonNumeric(fs[1..])
  }

  /** The product divided by its coefficient, written as the library writes it. */
  function MonomialOf(fs: seq<Term>): Term
  {
    var rest := NonNumeric(fs);
    if |rest| == 1 then rest[0] else Mul(rest)
  }

  /** The values `vs` of the factors `fs` at the non-numeric factors. */
  function KeptValues(fs: seq<Term>, vs: seq<real>): (kept: seq<real>)
    requires |vs| == |fs|
    ensures |kept| == |NonNumeric(fs)|
  {
    if |fs| == 0 then []
    else if fs[0].Num? then KeptValues(fs[1..], vs[1..])
    else [vs[0]] + KeptValues(fs[1..], vs[1..])
  }

  /** The value `vs` gives the numeric factor of `fs`, or 1. */
  function CoefficientValue(fs: seq<Term>, vs: seq<real>): real
    requires |vs| == |fs|
  {
    if |fs| == 0 then 1.0
    else if fs[0].Num? then vs[0]
    else CoefficientValue(fs[1..], vs[1..])
  }

  lemma {:induction false} CoefficientValueOne(fs: seq<Term>, vs: seq<real>)
    requires |vs| == |fs| && NoNumber(fs)
    ensures CoefficientValue(fs, vs) == 1.0
    decreases |fs|
  {
    if |fs| > 0 {
      CoefficientValueOne(fs[1..], vs[1..]);
    }
  }

  /**
   * Whatever values the factors take, a product with at most one numeric
   * factor is the numeric factor's value times the product of the others.
   */
  lemma {:induction false} ProductSplit(fs: seq<Term>, vs: seq<real>)
    requires |vs| == |fs| && OneCoefficient(fs)
    ensures Product(vs) == CoefficientValue(fs, vs) * Product(KeptValues(fs, vs))
    decreases |fs|
  {
    if |fs| > 0 {
      var tail, ws := fs[1..], vs[1..];
      ProductSplit(tail, ws);
      if fs[0].Num? {
        CoefficientValueOne(tail, ws);
        Rescale(Product(vs), vs[0], CoefficientValue(tail, ws), Product(KeptValues(tail, ws)),
                CoefficientValue(fs, vs), Product(KeptValues(fs, vs)));
      } else {
        var k := KeptValues(fs, vs);
        assert k[0] == vs[0] && k[1..] == KeptValues(tail, ws);
        Regroup(Product(vs), vs[0], CoefficientValue(tail, ws), Product(KeptValues(tail, ws)),
                CoefficientValue(fs, vs), Product(k));
      }
    }
  }

  /** A leading numeric factor `l` before a product with coefficient 1 becomes the coefficient. */
  lemma Rescale(x: real, l: real, c: real, p: real, y: real, q: real)
    requires x == l * (c * p) && c == 1.0 && y == l && q == p
    ensures x == y * q
  {
  }

  /** A leading symbolic factor `l` joins the monomial and leaves the coefficient. */
  lemma Regroup(x: real, l: real, c: real, p: real, y: real, q: real)
    requires x == l * (c * p) && y == c && q == l * p
    ensures x == y * q
  {
  }

  /** The values of the monomial's factors and of the coefficient, read off the values of all factors. */
  lemma {:induction false} ValuesSplit(fs: seq<Term>, env: Sym -> real)
    ensures Values(NonNumeric(fs), env) == KeptValues(fs, Values(fs, env))
    ensures NumericFactor(fs) == CoefficientValue(fs, Values(fs, env))
    decreases |fs|
  {
    if |fs| > 0 {
      ValuesSplit(fs[1..], env);
      var vs := Values(fs, env);
      assert vs[0] == Eval(fs[0], env) && vs[1..] == Values(fs[1..], env);
      if !fs[0].Num? {
        var n := NonNumeric(fs);
        assert n[0] == fs[0] && n[1..] == NonNumeric(fs[1..]);
        assert Values(n, env)[1..] == Values(n[1..], env);
      }
    }
  }

  lemma SplitCoefficient(fs: seq<Term>, env: Sym -> real)
    requires OneCoefficient(fs)
    ensures ProductOf(fs, env) == NumericFactor(fs) * ProductOf(NonNumeric(fs), env)
  {
    ProductOfValues(fs, env);
    ProductOfValues(NonNumeric(fs), env);
    ValuesSplit(fs, env);
    ProductSplit(fs, Values(fs, env));
  }

  lemma Reorder(a: real, v: real, r: real)
    ensures a * (v * r) == (a * v) * r == (a * r) * v
  {
  }

  lemma {:induction false} NoNumbers(fs: seq<Term>)
    requires NoNumber(fs)
    ensures NumericFactor(fs) == 1.0
    decreases |fs|
  {
    if |fs| > 0 {
      NoNumbers(fs[1..]);
    }
  }

  /**
   * A product with at most one numeric factor is its coefficient times its
   * monomial, which is how gatherMonomials records it.
   */
  lemma MonomialSplit(fs: seq<Term>, env: Sym -> real)
    requires OneCoefficient(fs)
    ensures Eval(Mul(fs), env) == NumericFactor(fs) * Eval(MonomialOf(fs), env)
  {
    SplitCoefficient(fs, env);
    var rest := NonNumeric(fs);
    if |rest| == 1 {
      assert rest[1..] == [];
      assert ProductOf(rest, env) == Eval(rest[0], env) * 1.0;
    }
  }

  /** Every sum in `e` has at least one term, as sums built by the algebra library do. */
  predicate NonEmptySums(e: Term)
    decreases e, 1
  {
    e.Add? ==> |e.terms| > 0 && AllNonEmptySums(e.terms)
  }

  predicate AllNonEmptySums(ts: seq<Term>)
    decreases ts, 0
  {
    |ts| > 0 ==> NonEmptySums(ts[0]) && AllNonEmptySums(ts[1..])
  }

  /**
   * The monomials of an expanded expression with their coefficients: a
   * number is a multiple of the monomial 1, a symbol or a power is its own
   * monomial with coefficient 1, a product is split into its coefficient
   * and monomial, and a sum gathers the monomials of its terms.
   */
  function GatherMonomials(e: Term): (m: map<Term, real>)
    ensures NonEmptySums(e) ==> |m| > 0
    ensures !e.Add? ==> |m| == 1
    ensures e.Num? ==> m == map[Num(1) := e.value as real]
    decreases e, 1
  {
    match e
    case Num(v) => map[Num(1) := v as real]
    case Var(_) => map[e := 1.0]
    case Pow(_, _) => map[e := 1.0]
    case Mul(fs) => map[MonomialOf(fs) := NumericFactor(fs)]
    case Add(ts) => GatherAll(ts)
  }

  /** The monomials of a sum; a monomial seen again takes its later coefficient. */
  function GatherAll(ts: seq<Term>): (m: map<Term, real>)
    ensures |ts| > 0 && AllNonEmptySums(ts) ==> |m| > 0
    decreases ts, 0
  {
    if |ts| == 0 then map[]
    else
      var first, rest := GatherMonomials(ts[0]), GatherAll(ts[1..]);
      assert first.Keys <= (first + rest).Keys;
      first + rest
  }

  /** The monomial a term of an expanded sum contributes. */
  function Key(t: Term): Term
  {
    match t
    case Num(_) => Num(1)
    case Mul(fs) => MonomialOf(fs)
    case _ => t
  }

  /** The coefficient a term of an expanded sum contributes. */
  function Coeff(t: Term): real
  {
    match t
    case Num(v) => v as real
    case Mul(fs) => NumericFactor(fs)
    case _ => 1.0
  }

  /** A term of an expanded sum: no nested sum, and at most one number in a product. */
  predicate SimpleTerm(t: Term)
  {
    !t.Add? && (t.Mul? ==> OneCoefficient(t.factors))
  }

  /** Every term is its coefficient times its monomial, and that is the pair gathered for it. */
  lemma TermSplit(t: Term, env: Sym -> real)
    requires SimpleTerm(t)
    ensures GatherMonomials(t) == map[Key(t) := Coeff(t)]
    ensures Eval(t, env) == Coeff(t) * Eval(Key(t), env)
  {
    match t
    case Num(v) =>
    case Var(_) =>
    case Pow(_, _) =>
    case Mul(fs) => MonomialSplit(fs, env);
  }

  /** The monomials the terms of a sum contribute. */
  function KeysOf(ts: seq<Term>): set<Term>
  {
    if |ts| == 0 then {} else {Key(ts[0])} + KeysOf(ts[1..])
  }

  /** The terms of a sum contribute pairwise distinct monomials. */
  predicate DistinctKeys(ts: seq<Term>)
  {
    |ts| > 0 ==> Key(ts[0]) !in KeysOf(ts[1..]) && DistinctKeys(ts[1..])
  }

  /**
   * The monomials gathered from an expanded sum whose terms have distinct
   * monomials are exactly those monomials, each with its own term's
   * coefficient; with TermSplit this says the sum is recovered from them.
   */
  lemma {:induction false} GatherSum(ts: seq<Term>)
    requires forall i :: 0 <= i < |ts| ==> SimpleTerm(ts[i])
    requires DistinctKeys(ts)
    ensures GatherAll(ts).Keys == KeysOf(ts)
    ensures forall i :: 0 <= i < |ts| ==> Key(ts[i]) in GatherAll(ts) && GatherAll(ts)[Key(ts[i])] == Coeff(ts[i])
  {
    if |ts| > 0 {
      var tail := ts[1..];
      GatherSum(tail);
      GatherSimple(ts[0]);
      var rest := GatherAll(tail);
      var all := GatherAll(ts);
      assert all == map[Key(ts[0]) := Coeff(ts[0])] + rest;
      assert Key(ts[0]) !in rest;
      forall i | 0 <= i < |ts|
        ensures Key(ts[i]) in all && all[Key(ts[i])] == Coeff(ts[i])
      {
        if i > 0 {
          var t := tail[i - 1];
          assert t == ts[i];
          TailEntry(ts, i, rest, all);
        }
      }
    }
  }

  lemma TailEntry(ts: seq<Term>, i: nat, rest: map<Term, real>, all: map<Term, real>)
    requires 1 <= i < |ts|
    requires Key(ts[i]) in rest && rest[Key(ts[i])] == Coeff(ts[i])
    requires all == map[Key(ts[0]) := Coeff(ts[0])] + rest
    ensures Key(ts[i]) in all && all[Key(ts[i])] == Coeff(ts[i])
  {
  }

  lemma GatherSimple(t: Term)
    requires SimpleTerm(t)
    ensures GatherMonomials(t) == map[Key(t) := Coeff(t)]
  {
  }

  // ---------------------------------------------------------------------
  // The tester's table of products of the sources (the columns of the
  // linear problem) and of their monomials (its rows).

  /** The product `expand(a * b)` of the algebra library. */
  type Multiplier = (Term, Term) -> Term

  ghost predicate MultiplierSound(product: Multiplier, env: Sym -> real)
  {
    forall a, b :: Eval(product(a, b), env) == Eval(a, env) * Eval(b, env)
  }

  /**
   * `pos` numbers the entries of `order` consecutively from 1; slot 0 of
   * `order` is unused, as in the linear solver's own arrays. (The last
   * quantifier fires only where the entry at a number is asked for; NumberOf
   * asks for it.)
   */
  ghost predicate Numbering(pos: map<Term, nat>, order: seq<Term>)
  {
    && |order| == |pos| + 1
    && (forall i :: 1 <= i < |order| ==> order[i] in pos && pos[order[i]] == i)
    && (forall m {:trigger pos[m]} :: m in pos ==> 1 <= pos[m] < |order|)
    && (forall m {:trigger order[pos[m]]} :: m in pos ==> order[pos[m]] == m)
  }

  /** The entry at the number of a numbered element is that element. */
  lemma NumberOf(pos: map<Term, nat>, order: seq<Term>, m: Term)
    requires Numbering(pos, order) && m in pos
    ensures 1 <= pos[m] < |order| && order[pos[m]] == m
  {
  }

  lemma NumberingAppend(pos: map<Term, nat>, order: seq<Term>, m: Term)
    requires Numbering(pos, order) && m !in pos
    ensures Numbering(pos[m := |order|], order + [m])
  {
    var pos', order' := pos[m := |order|], order + [m];
    forall x | x in pos'
      ensures 1 <= pos'[x] < |order'| && order'[pos'[x]] == x
    {
      if x != m {
        NumberOf(pos, order, x);
      }
    }
  }

  /** `column` holds, at the row of each monomial of `p`, its coefficient, and nothing else. */
  ghost predicate Recorded(p: Term, column: map<nat, real>, monomPos: map<Term, nat>, rows: seq<Term>)
  {
    var g := GatherMonomials(p);
    && (forall m :: m in g ==> m in monomPos && monomPos[m] in column && column[monomPos[m]] == g[m])
    && (forall r :: r in column ==> 1 <= r < |rows| && rows[r] in g)
  }

  /** Numbering more monomials leaves a recorded column as it is. */
  lemma RecordedGrows(p: Term, column: map<nat, real>, mp: map<Term, nat>, rows: seq<Term>,
                      mp': map<Term, nat>, rows': seq<Term>)
    requires Recorded(p, column, mp, rows)
    requires forall m :: m in mp ==> m in mp' && mp'[m] == mp[m]
    requires |rows| <= |rows'| && rows'[..|rows|] == rows
    ensures Recorded(p, column, mp', rows')
  {
    forall r | r in column
      ensures rows'[r] == rows[r]
    {
      assert rows'[..|rows|][r] == rows'[r];
    }
  }

  /**
   * Column 1 is the constant 1 and every later column is a source times an
   * earlier column: `parents[c]` names the source and the earlier column.
   */
  ghost predicate Generated(cols: seq<Term>, parents: seq<(Term, nat)>, root: set<Term>, product: Multiplier)
  {
    && |cols| >= 2 && cols[1] == Num(1) && |parents| == |cols|
    && (forall c {:trigger parents[c]} :: 2 <= c < |cols| ==>
          parents[c].0 in root && 1 <= parents[c].1 < c && cols[c] == product(parents[c].0, cols[parents[c].1]))
  }

  /**
   * The products the tester builds are non-negative wherever the sources
   * are: this is what makes a non-negative combination of its columns a
   * proof of non-negativity.
   */
  lemma {:induction false} ColumnsNonNegative(cols: seq<Term>, parents: seq<(Term, nat)>, root: set<Term>,
                                              product: Multiplier, env: Sym -> real, n: nat)
    requires Generated(cols, parents, root, product)
    requires MultiplierSound(product, env)
    requires forall r :: r in root ==> Eval(r, env) >= 0.0
    requires n <= |cols|
    ensures forall c :: 1 <= c < n ==> Eval(cols[c], env) >= 0.0
  {
    if n > 2 {
      ColumnsNonNegative(cols, parents, root, product, env, n - 1);
      var c := n - 1;
      var r, j := parents[c].0, parents[c].1;
      MulMono(Eval(r, env), 0.0, Eval(cols[j], env), 0.0);
    }
  }

  /** The sources with their numbers folded: a negative number makes the whole system false (None), the others are dropped. */
  function FoldSources(srcs: seq<Term>): (r: Option<set<Term>>)
    ensures r.None? <==> exists i :: 0 <= i < |srcs| && srcs[i].Num? && srcs[i].value < 0
    ensures r.Some? ==> forall t :: t in r.value <==> t in srcs && !t.Num?
  {
    if |srcs| == 0 then Some({})
    else
      var init, last := srcs[..|srcs| - 1], srcs[|srcs| - 1];
      var rest := FoldSources(init);
      assert srcs == init + [last];
      assert forall t :: t in srcs <==> t == last || t in init;
      if last.Num? then
        if last.value < 0 then None else rest
      else if rest.None? then None
      else Some(rest.value + {last})
  }

  /**
   * The folding as the constructor's loop performs it: after erasing a
   * non-negative number the iterator is advanced twice, so the source that
   * follows it is kept without being looked at.
   */
  function FoldSourcesAsWritten(srcs: seq<Term>): (r: Option<set<Term>>)
    ensures r.Some? ==> r.value <= set t | t in srcs
  {
    if |srcs| == 0 then Some({})
    else if srcs[0].Num? then
      if srcs[0].value < 0 then None
      else if |srcs| == 1 then Some({})
      else
        match FoldSourcesAsWritten(srcs[2..])
        case None => None
        case Some(rest) => Some({srcs[1]} + rest)
    else
      match FoldSourcesAsWritten(srcs[1..])
      case None => None
      case Some(rest) => Some({srcs[0]} + rest)
  }

  /** A zero followed by a negative number: as written the negative number survives, as intended the system is false. */
  lemma FoldSkipsNext()
    ensures FoldSourcesAsWritten([Num(0), Num(-1)]) == Some({Num(-1)})
    ensures FoldSources([Num(0), Num(-1)]) == None
  {
    var srcs := [Num(0), Num(-1)];
    assert srcs[2..] == [];
    assert FoldSourcesAsWritten(srcs[2..]) == Some({});
    assert {srcs[1]} + {} == {Num(-1)};
    assert FoldSources(srcs[..1]) == Some({});
  }

  /** The row of one monomial: the number it has, or else the next one, which it is given. */
  method RowOf(m: Term, monomPos: map<Term, nat>, ghost rows: seq<Term>)
    returns (monomPos': map<Term, nat>, ghost rows': seq<Term>, row: nat)
    requires Numbering(monomPos, rows)
    ensures Numbering(monomPos', rows')
    ensures |rows| <= |rows'| && forall r :: 0 <= r < |rows| ==> rows'[r] == rows[r]
    ensures forall x :: x in monomPos ==> x in monomPos' && monomPos'[x] == monomPos[x]
    ensures m in monomPos' && monomPos'[m] == row
    ensures m !in monomPos ==> row == |rows| && rows' == rows + [m]
  {
    if m in monomPos {
      monomPos', rows', row := monomPos, rows, monomPos[m];
    } else {
      row := |monomPos| + 1;
      NumberingAppend(monomPos, rows, m);
      monomPos', rows' := monomPos[m := row], rows + [m];
    }
  }

  /**
   * The rows of the monomials of a new column: a monomial already numbered
   * keeps its row, a new one takes the next row.
   */
  method NumberMonomials(e: Term, monomPos: map<Term, nat>, ghost rows: seq<Term>)
    returns (monomPos': map<Term, nat>, ghost rows': seq<Term>, entries: map<nat, real>)
    requires Numbering(monomPos, rows)
    ensures Numbering(monomPos', rows')
    ensures |rows| <= |rows'| && rows'[..|rows|] == rows
    ensures forall m :: m in monomPos ==> m in monomPos' && monomPos'[m] == monomPos[m]
    ensures Recorded(e, entries, monomPos', rows')
  {
    var coeffs := GatherMonomials(e);
    monomPos', rows' := monomPos, rows;
    var todo := coeffs.Keys;
    entries := map[];
    while todo != {}
      invariant todo <= coeffs.Keys
      invariant Numbering(monomPos', rows')
      invariant |rows| <= |rows'| && forall r :: 0 <= r < |rows| ==> rows'[r] == rows[r]
      invariant forall m :: m in monomPos ==> m in monomPos' && monomPos'[m] == monomPos[m]
      invariant forall m :: m in coeffs && m !in todo ==>
        m in monomPos' && monomPos'[m] in entries && entries[monomPos'[m]] == coeffs[m]
      invariant forall r :: r in entries ==> 1 <= r < |rows'| && rows'[r] in coeffs && rows'[r] !in todo
      decreases todo
    {
      var m :| m in todo;
      var row;
      monomPos', rows', row := RowOf(m, monomPos', rows');
      entries := entries[row := coeffs[m]];
      todo := todo - {m};
    }
    assert rows'[..|rows|] == rows;
  }

  /** The rows of monomials, the columns of products and the matrix between them. */
  datatype Tables = Tables(monomPos: map<Term, nat>, ineqPos: map<Term, nat>, indexes: map<nat, map<nat, real>>)

  /** `rows` and `cols` list the monomials and products in the order the tables number them. */
  ghost predicate TablesValid(t: Tables, rows: seq<Term>, cols: seq<Term>)
  {
    && Numbering(t.monomPos, rows)
    && Numbering(t.ineqPos, cols)
    && |t.indexes| == |cols| - 1
    && (forall c :: c in t.indexes <==> 1 <= c < |cols|)
  }

  /** Every column of the matrix records the monomials of its product. (Which columns exist, TablesValid says.) */
  ghost predicate Matrix(indexes: map<nat, map<nat, real>>, monomPos: map<Term, nat>, rows: seq<Term>, cols: seq<Term>)
  {
    forall c {:trigger indexes[c]} :: 1 <= c < |cols| && c in indexes ==> Recorded(cols[c], indexes[c], monomPos, rows)
  }

  /** Numbering more monomials and recording one more column keeps the matrix. */
  lemma MatrixAppend(indexes: map<nat, map<nat, real>>, mp: map<Term, nat>, rows: seq<Term>, cols: seq<Term>,
                     mp': map<Term, nat>, rows': seq<Term>, e: Term, entries: map<nat, real>)
    requires Matrix(indexes, mp, rows, cols)
    requires forall m :: m in mp ==> m in mp' && mp'[m] == mp[m]
    requires |rows| <= |rows'| && rows'[..|rows|] == rows
    requires Recorded(e, entries, mp', rows')
    ensures Matrix(indexes[|cols| := entries], mp', rows', cols + [e])
  {
    var indexes', cols' := indexes[|cols| := entries], cols + [e];
    forall c | 1 <= c < |cols'| && c in indexes'
      ensures Recorded(cols'[c], indexes'[c], mp', rows')
    {
      if c < |cols| {
        assert indexes'[c] == indexes[c] && cols'[c] == cols[c];
        RecordedGrows(cols[c], indexes[c], mp, rows, mp', rows');
      } else {
        assert indexes'[c] == entries && cols'[c] == e;
      }
    }
  }

  /** Gives the new product `e` the next column and records its monomials, numbering the new ones. */
  method AddColumn(t: Tables, ghost rows: seq<Term>, ghost cols: seq<Term>, e: Term)
    returns (t': Tables, ghost rows': seq<Term>, ghost cols': seq<Term>, column: nat)
    requires TablesValid(t, rows, cols) && e !in t.ineqPos
    requires Matrix(t.indexes, t.monomPos, rows, cols)
    ensures TablesValid(t', rows', cols') && Matrix(t'.indexes, t'.monomPos, rows', cols')
    ensures column == |cols| && cols' == cols + [e] && t'.ineqPos == t.ineqPos[e := column]
    ensures |rows| <= |rows'| && rows'[..|rows|] == rows
  {
    column := |t.indexes| + 1;
    var monomPos, entries;
    monomPos, rows', entries := NumberMonomials(e, t.monomPos, rows);
    cols' := cols + [e];
    t' := Tables(monomPos, t.ineqPos[e := column], t.indexes[column := entries]);
    TablesAppend(t, rows, cols, e, monomPos, rows', entries);
  }

  lemma TablesAppend(t: Tables, rows: seq<Term>, cols: seq<Term>, e: Term,
                     monomPos: map<Term, nat>, rows': seq<Term>, entries: map<nat, real>)
    requires TablesValid(t, rows, cols) && e !in t.ineqPos
    requires Matrix(t.indexes, t.monomPos, rows, cols)
    requires Numbering(monomPos, rows')
    requires |rows| <= |rows'| && rows'[..|rows|] == rows
    requires forall m :: m in t.monomPos ==> m in monomPos && monomPos[m] == t.monomPos[m]
    requires Recorded(e, entries, monomPos, rows')
    ensures TablesValid(Tables(monomPos, t.ineqPos[e := |cols|], t.indexes[|cols| := entries]), rows', cols + [e])
    ensures Matrix(t.indexes[|cols| := entries], monomPos, rows', cols + [e])
  {
    NumberingAppend(t.ineqPos, cols, e);
    MatrixAppend(t.indexes, t.monomPos, rows, cols, monomPos, rows', e, entries);
  }

  /**
   * What holds while expandSrcs is building degree `|done|`: `done` are the
   * finished degrees, `layer` the products of the current degree found so
   * far, and `level` the degree of each column.
   */
  ghost predicate Building(t: Tables, rows: seq<Term>, cols: seq<Term>, parents: seq<(Term, nat)>,
                           done: seq<set<Term>>, layer: set<Term>, level: seq<nat>, root: set<Term>, product: Multiplier)
  {
    && TablesValid(t, rows, cols) && Generated(cols, parents, root, product)
    && |rows| >= 2 && rows[1] == Num(1)
    && |done| >= 1 && done[0] == {Num(1)}
    && (forall k :: 0 <= k < |done| ==> done[k] <= t.ineqPos.Keys)
    && (forall e :: e in layer ==> e in t.ineqPos)
    && |level| == |cols|
    && (forall c {:trigger level[c]} :: 1 <= c < |cols| ==>
          level[c] <= |done| && (if level[c] < |done| then cols[c] in done[level[c]] else cols[c] in layer))
  }

  /** A product that has a column was found at some degree. */
  lemma Seen(t: Tables, rows: seq<Term>, cols: seq<Term>, parents: seq<(Term, nat)>,
             done: seq<set<Term>>, layer: set<Term>, level: seq<nat>, root: set<Term>, product: Multiplier, e: Term)
    requires Building(t, rows, cols, parents, done, layer, level, root, product)
    ensures e in t.ineqPos ==> e in layer || exists k :: 0 <= k < |done| && e in done[k]
  {
    if e in t.ineqPos {
      NumberOf(t.ineqPos, cols, e);
      var c := t.ineqPos[e];
      assert level[c] <= |done|;
    }
  }

  /** Adding a source times an existing product as a new column of the current degree keeps the building state. */
  lemma BuildingStep(t: Tables, rows: seq<Term>, cols: seq<Term>, parents: seq<(Term, nat)>,
                     done: seq<set<Term>>, layer: set<Term>, level: seq<nat>, root: set<Term>, product: Multiplier,
                     rootExp: Term, prevOrd: Term, t': Tables, rows': seq<Term>, cols': seq<Term>)
    requires Building(t, rows, cols, parents, done, layer, level, root, product)
    requires rootExp in root && prevOrd in t.ineqPos
    requires TablesValid(t', rows', cols')
    requires cols' == cols + [product(rootExp, prevOrd)]
    requires t'.ineqPos == t.ineqPos[product(rootExp, prevOrd) := |cols|]
    requires |rows| <= |rows'| && rows'[..|rows|] == rows
    ensures Building(t', rows', cols', parents + [(rootExp, t.ineqPos[prevOrd])],
                     done, layer + {product(rootExp, prevOrd)}, level + [|done|], root, product)
  {
    var e := product(rootExp, prevOrd);
    var parents' := parents + [(rootExp, t.ineqPos[prevOrd])];
    var level' := level + [|done|];
    assert rows'[1] == rows[1] by {
      assert rows'[..|rows|][1] == rows'[1];
    }
    NumberOf(t.ineqPos, cols, prevOrd);
    assert Generated(cols', parents', root, product) by {
      forall c | 2 <= c < |cols'|
        ensures parents'[c].0 in root && 1 <= parents'[c].1 < c && cols'[c] == product(parents'[c].0, cols'[parents'[c].1])
      {
        if c < |cols| {
          assert parents'[c] == parents[c];
        }
      }
    }
    forall c | 1 <= c < |cols'|
      ensures level'[c] <= |done|
      ensures if level'[c] < |done| then cols'[c] in done[level'[c]] else cols'[c] in layer + {e}
    {
      if c < |cols| {
        assert cols'[c] == cols[c] && level'[c] == level[c];
      }
    }
  }

  /** Once degree `order` is finished it joins the finished ones and the next degree starts empty. */
  lemma BuildingNext(t: Tables, rows: seq<Term>, cols: seq<Term>, parents: seq<(Term, nat)>,
                     layers: seq<set<Term>>, order: nat, layer: set<Term>, level: seq<nat>,
                     root: set<Term>, product: Multiplier)
    requires order < |layers|
    requires Building(t, rows, cols, parents, layers[..order], layer, level, root, product)
    ensures Building(t, rows, cols, parents, layers[order := layer][..order + 1], {}, level, root, product)
  {
    var done, done' := layers[..order], layers[order := layer][..order + 1];
    assert done' == done + [layer];
    forall k | 0 <= k < |done'|
      ensures done'[k] <= t.ineqPos.Keys
    {
      if k < |done| {
        assert done'[k] == done[k];
      }
    }
    forall c | 1 <= c < |cols|
      ensures level[c] <= |done'|
      ensures if level[c] < |done'| then cols[c] in done'[level[c]] else cols[c] in {}
    {
      if level[c] < |done| {
        assert done'[level[c]] == done[level[c]];
      }
    }
  }


  /**
   * Gives a product found at no degree yet the next column, adding it to
   * the current degree.
   */
  method AddProduct(t: Tables, ghost rows: seq<Term>, ghost cols: seq<Term>, ghost parents: seq<(Term, nat)>,
                    done: seq<set<Term>>, layer: set<Term>, ghost level: seq<nat>, root: set<Term>, product: Multiplier,
                    rootExp: Term, prevOrd: Term)
    returns (t': Tables, ghost rows': seq<Term>, ghost cols': seq<Term>, ghost parents': seq<(Term, nat)>,
             layer': set<Term>, ghost level': seq<nat>, column: nat)
    requires Building(t, rows, cols, parents, done, layer, level, root, product)
    requires Matrix(t.indexes, t.monomPos, rows, cols)
    requires rootExp in root && prevOrd in t.ineqPos
    requires product(rootExp, prevOrd) !in layer
    requires forall k :: 0 <= k < |done| ==> product(rootExp, prevOrd) !in done[k]
    ensures Building(t', rows', cols', parents', done, layer', level', root, product)
    ensures Matrix(t'.indexes, t'.monomPos, rows', cols')
    ensures column == |cols| && |cols'| == |cols| + 1
    ensures t'.ineqPos == t.ineqPos[product(rootExp, prevOrd) := column]
    ensures layer' == layer + {product(rootExp, prevOrd)}
  {
    var e := product(rootExp, prevOrd);
    Seen(t, rows, cols, parents, done, layer, level, root, product, e);
    t', rows', cols', column := AddColumn(t, rows, cols, e);
    BuildingStep(t, rows, cols, parents, done, layer, level, root, product, rootExp, prevOrd, t', rows', cols');
    parents' := parents + [(rootExp, t.ineqPos[prevOrd])];
    layer' := layer + {e};
    level' := level + [|done|];
  }

  /**
   * One step of the innermost loop of expandSrcs: the product of a source
   * with a product of the previous degree takes the next column unless it
   * was found at some degree already; `full` says column 2500 was filled.
   * The degrees above the current one are still empty, so looking the
   * product up in the finished degrees and the current one is looking it
   * up in all of them.
   */
  method ExpandPair(t: Tables, ghost rows: seq<Term>, ghost cols: seq<Term>, ghost parents: seq<(Term, nat)>,
                    done: seq<set<Term>>, layer: set<Term>, ghost level: seq<nat>, root: set<Term>,
                    product: Multiplier, rootExp: Term, prevOrd: Term)
    returns (t': Tables, ghost rows': seq<Term>, ghost cols': seq<Term>, ghost parents': seq<(Term, nat)>,
             layer': set<Term>, ghost level': seq<nat>, full: bool)
    requires Building(t, rows, cols, parents, done, layer, level, root, product)
    requires Matrix(t.indexes, t.monomPos, rows, cols) && |cols| <= 2500
    requires rootExp in root && prevOrd in t.ineqPos
    ensures Building(t', rows', cols', parents', done, layer', level', root, product)
    ensures Matrix(t'.indexes, t'.monomPos, rows', cols')
    ensures if full then |cols'| == 2501 else |cols'| <= 2500
    ensures t'.ineqPos.Keys == t.ineqPos.Keys + {product(rootExp, prevOrd)}
  {
    var expanExp := product(rootExp, prevOrd);
    var skip := expanExp in layer || exists k :: 0 <= k < |done| && expanExp in done[k];
    if skip {
      return t, rows, cols, parents, layer, level, false;
    }
    var column;
    t', rows', cols', parents', layer', level', column :=
      AddProduct(t, rows, cols, parents, done, layer, level, root, product, rootExp, prevOrd);
    full := column >= 2500;
  }

  /**
   * The innermost loop of expandSrcs: the products of one source with
   * every product of the previous degree, stopping (`full`) once column
   * 2500 is filled; `visited` are the sources already done.
   */
  method ExpandSource(t: Tables, ghost rows: seq<Term>, ghost cols: seq<Term>, ghost parents: seq<(Term, nat)>,
                      done: seq<set<Term>>, layer: set<Term>, ghost level: seq<nat>, root: set<Term>,
                      product: Multiplier, ghost visited: set<Term>, rootExp: Term)
    returns (t': Tables, ghost rows': seq<Term>, ghost cols': seq<Term>, ghost parents': seq<(Term, nat)>,
             layer': set<Term>, ghost level': seq<nat>, full: bool)
    requires Building(t, rows, cols, parents, done, layer, level, root, product)
    requires Matrix(t.indexes, t.monomPos, rows, cols) && |cols| <= 2500
    requires rootExp in root
    requires forall r, q :: r in visited && q in done[|done| - 1] ==> product(r, q) in t.ineqPos
    ensures Building(t', rows', cols', parents', done, layer', level', root, product)
    ensures Matrix(t'.indexes, t'.monomPos, rows', cols')
    ensures if full then |cols'| == 2501 else |cols'| <= 2500
    ensures !full ==> forall r, q :: r in visited + {rootExp} && q in done[|done| - 1] ==> product(r, q) in t'.ineqPos
    ensures t.ineqPos.Keys <= t'.ineqPos.Keys
  {
    t', rows', cols', parents', layer', level' := t, rows, cols, parents, layer, level;
    full := false;
    var prevTodo := done[|done| - 1];
    while prevTodo != {}
      invariant prevTodo <= done[|done| - 1]
      invariant Building(t', rows', cols', parents', done, layer', level', root, product)
      invariant Matrix(t'.indexes, t'.monomPos, rows', cols') && |cols'| <= 2500
      invariant forall r, q :: r in visited && q in done[|done| - 1] ==> product(r, q) in t'.ineqPos
      invariant forall q :: q in done[|done| - 1] - prevTodo ==> product(rootExp, q) in t'.ineqPos
      invariant t.ineqPos.Keys <= t'.ineqPos.Keys
      decreases prevTodo
    {
      var prevOrd :| prevOrd in prevTodo;
      t', rows', cols', parents', layer', level', full :=
        ExpandPair(t', rows', cols', parents', done, layer', level', root, product, rootExp, prevOrd);
      if full {
        break;
      }
      prevTodo := prevTodo - {prevOrd};
    }
  }

  /**
   * The middle loop of expandSrcs: every source times every product of the
   * previous degree, the new ones collected in `layer`, stopping (`full`)
   * once column 2500 is filled.
   */
  method ExpandDegree(t: Tables, ghost rows: seq<Term>, ghost cols: seq<Term>, ghost parents: seq<(Term, nat)>,
                      done: seq<set<Term>>, ghost level: seq<nat>, root: set<Term>, product: Multiplier)
    returns (t': Tables, ghost rows': seq<Term>, ghost cols': seq<Term>, ghost parents': seq<(Term, nat)>,
             layer: set<Term>, ghost level': seq<nat>, full: bool)
    requires Building(t, rows, cols, parents, done, {}, level, root, product)
    requires Matrix(t.indexes, t.monomPos, rows, cols) && |cols| <= 2500
    ensures Building(t', rows', cols', parents', done, layer, level', root, product)
    ensures Matrix(t'.indexes, t'.monomPos, rows', cols')
    ensures if full then |cols'| == 2501 else |cols'| <= 2500
    ensures !full ==> forall r, q :: r in root && q in done[|done| - 1] ==> product(r, q) in t'.ineqPos
    ensures t.ineqPos.Keys <= t'.ineqPos.Keys
  {
    t', rows', cols', parents', layer, level' := t, rows, cols, parents, {}, level;
    full := false;
    var rootsTodo := root;
    while rootsTodo != {}
      invariant rootsTodo <= root
      invariant Building(t', rows', cols', parents', done, layer, level', root, product)
      invariant Matrix(t'.indexes, t'.monomPos, rows', cols') && |cols'| <= 2500
      invariant forall r, q :: r in root - rootsTodo && q in done[|done| - 1] ==> product(r, q) in t'.ineqPos
      invariant t.ineqPos.Keys <= t'.ineqPos.Keys
      decreases rootsTodo
    {
      var rootExp :| rootExp in rootsTodo;
      t', rows', cols', parents', layer, level', full :=
        ExpandSource(t', rows', cols', parents', done, layer, level', root, product, root - rootsTodo, rootExp);
      if full {
        break;
      }
      rootsTodo := rootsTodo - {rootExp};
    }
  }

  /**
   * The tables expandSrcs leaves: the constant 1 at column and row 1,
   * every other column a source times an earlier column, at most 2500
   * columns, and, unless that cap was reached, every product of a source
   * with a product of degree below the maximum present.
   */
  ghost predicate Expanded(t: Tables, rows: seq<Term>, cols: seq<Term>, parents: seq<(Term, nat)>,
                           layers: seq<set<Term>>, root: set<Term>, product: Multiplier, maxOrder: nat)
  {
    && TablesValid(t, rows, cols) && Matrix(t.indexes, t.monomPos, rows, cols)
    && Generated(cols, parents, root, product)
    && |rows| >= 2 && rows[1] == Num(1)
    && |cols| <= 2501
    && |layers| == maxOrder + 1 && layers[0] == {Num(1)}
    && (forall k :: 0 <= k < |layers| ==> layers[k] <= t.ineqPos.Keys)
    && (|cols| <= 2500 ==>
          forall k, r, q :: 0 <= k < maxOrder && r in root && q in layers[k] ==> product(r, q) in t.ineqPos)
  }

  /** The degrees built so far, followed by the empty ones, are the layers expandSrcs leaves. */
  lemma ExpandedOf(t: Tables, rows: seq<Term>, cols: seq<Term>, parents: seq<(Term, nat)>, layers: seq<set<Term>>,
                   n: nat, level: seq<nat>, root: set<Term>, product: Multiplier, maxOrder: nat)
    requires 1 <= n <= |layers| == maxOrder + 1
    requires Building(t, rows, cols, parents, layers[..n], {}, level, root, product)
    requires Matrix(t.indexes, t.monomPos, rows, cols) && |cols| <= 2501
    requires forall k :: n <= k < |layers| ==> layers[k] == {}
    requires |cols| <= 2500 ==>
      n == |layers| && forall k, r, q :: 0 <= k < n - 1 && r in root && q in layers[k] ==> product(r, q) in t.ineqPos
    ensures Expanded(t, rows, cols, parents, layers, root, product, maxOrder)
  {
    assert layers[0] == layers[..n][0];
    forall k | 0 <= k < |layers|
      ensures layers[k] <= t.ineqPos.Keys
    {
      if k < n {
        assert layers[k] == layers[..n][k];
      }
    }
  }

  /**
   * The state of expandSrcs before degree `order`: the lower degrees are
   * built and closed, the higher ones still empty.
   */
  ghost predicate Staged(t: Tables, rows: seq<Term>, cols: seq<Term>, parents: seq<(Term, nat)>,
                         layers: seq<set<Term>>, order: nat, level: seq<nat>, root: set<Term>, product: Multiplier)
  {
    && 1 <= order <= |layers|
    && Building(t, rows, cols, parents, layers[..order], {}, level, root, product)
    && Matrix(t.indexes, t.monomPos, rows, cols) && |cols| <= 2500
    && (forall k :: order <= k < |layers| ==> layers[k] == {})
    && (forall k, r, q :: 0 <= k < order - 1 && r in root && q in layers[k] ==> product(r, q) in t.ineqPos)
  }

  /** The tables expandSrcs starts from: the constant 1 alone, at row and column 1. */
  lemma StagedStart(root: set<Term>, product: Multiplier, maxOrder: nat)
    ensures Staged(Tables(map[Num(1) := 1], map[Num(1) := 1], map[1 := map[1 := 1.0]]),
                   [Num(0), Num(1)], [Num(0), Num(1)], [(Num(0), 0), (Num(1), 0)],
                   [{Num(1)}] + seq(maxOrder, _ => {}), 1, [0, 0], root, product)
  {
    var layers: seq<set<Term>> := [{Num(1)}] + seq(maxOrder, _ => {});
    assert layers[..1] == [{Num(1)}];
  }

  /** All degrees built and closed: the tables expandSrcs leaves. */
  lemma StagedDone(t: Tables, rows: seq<Term>, cols: seq<Term>, parents: seq<(Term, nat)>,
                   layers: seq<set<Term>>, order: nat, level: seq<nat>, root: set<Term>, product: Multiplier,
                   maxOrder: nat)
    requires Staged(t, rows, cols, parents, layers, order, level, root, product)
    requires order == |layers| == maxOrder + 1
    ensures Expanded(t, rows, cols, parents, layers, root, product, maxOrder)
  {
    ExpandedOf(t, rows, cols, parents, layers, order, level, root, product, maxOrder);
  }

  /** The products of the sources with every degree below `order + 1` are numbered once the degree `order` is closed. */
  lemma ClosedNext(layers: seq<set<Term>>, order: nat, layers': seq<set<Term>>, numbered: set<Term>,
                   numbered': set<Term>, root: set<Term>, product: Multiplier)
    requires 1 <= order < |layers| == |layers'| && layers'[..order] == layers[..order]
    requires forall k, r, q :: 0 <= k < order - 1 && r in root && q in layers[k] ==> product(r, q) in numbered
    requires numbered <= numbered'
    requires forall r, q :: r in root && q in layers[..order][|layers[..order]| - 1] ==> product(r, q) in numbered'
    ensures forall k, r, q :: 0 <= k < order && r in root && q in layers'[k] ==> product(r, q) in numbered'
  {
    forall k, r, q | 0 <= k < order && r in root && q in layers'[k]
      ensures product(r, q) in numbered'
    {
      assert layers'[k] == layers'[..order][k] == layers[k];
      if k == order - 1 {
        assert layers[..order][order - 1] == layers[k];
      }
    }
  }

  /**
   * A closed degree added on top of the staged ones starts the next degree:
   * `numbered` are the products numbered before the degree was built.
   */
  lemma StagedNext(layers: seq<set<Term>>, order: nat, numbered: map<Term, nat>,
                   t': Tables, rows': seq<Term>, cols': seq<Term>, parents': seq<(Term, nat)>,
                   layer: set<Term>, level': seq<nat>, root: set<Term>, product: Multiplier)
    requires 1 <= order < |layers|
    requires forall k :: order < k < |layers| ==> layers[k] == {}
    requires forall k, r, q :: 0 <= k < order - 1 && r in root && q in layers[k] ==> product(r, q) in numbered
    requires numbered.Keys <= t'.ineqPos.Keys
    requires Building(t', rows', cols', parents', layers[order := layer][..order + 1], {}, level', root, product)
    requires Matrix(t'.indexes, t'.monomPos, rows', cols') && |cols'| <= 2500
    requires forall r, q :: r in root && q in layers[..order][|layers[..order]| - 1] ==> product(r, q) in t'.ineqPos
    ensures Staged(t', rows', cols', parents', layers[order := layer], order + 1, level', root, product)
  {
    var layers' := layers[order := layer];
    assert layers'[..order] == layers[..order];
    ClosedNext(layers, order, layers', numbered.Keys, t'.ineqPos.Keys, root, product);
    assert forall k :: order < k < |layers| ==> layers'[k] == layers[k];
  }

  /** A degree cut short by the column cap ends the expansion with the tables as they are. */
  lemma StagedFull(layers: seq<set<Term>>, order: nat,
                   t': Tables, rows': seq<Term>, cols': seq<Term>, parents': seq<(Term, nat)>,
                   layer: set<Term>, level': seq<nat>, root: set<Term>, product: Multiplier, maxOrder: nat)
    requires 1 <= order < |layers| == maxOrder + 1
    requires forall k :: order < k < |layers| ==> layers[k] == {}
    requires Building(t', rows', cols', parents', layers[order := layer][..order + 1], {}, level', root, product)
    requires Matrix(t'.indexes, t'.monomPos, rows', cols') && |cols'| == 2501
    ensures Expanded(t', rows', cols', parents', layers[order := layer], root, product, maxOrder)
  {
    var layers' := layers[order := layer];
    assert forall k :: order < k < |layers| ==> layers'[k] == layers[k];
    ExpandedOf(t', rows', cols', parents', layers', order + 1, level', root, product, maxOrder);
  }

  /**
   * One degree of expandSrcs: the products of the sources with the previous
   * degree become degree `order`; either the cap was reached and the
   * tables are final, or the next degree can start.
   */
  method ExpandNext(t: Tables, ghost rows: seq<Term>, ghost cols: seq<Term>, ghost parents: seq<(Term, nat)>,
                    layers: seq<set<Term>>, order: nat, ghost level: seq<nat>,
                    root: set<Term>, product: Multiplier, ghost maxOrder: nat)
    returns (t': Tables, ghost rows': seq<Term>, ghost cols': seq<Term>, ghost parents': seq<(Term, nat)>,
             layers': seq<set<Term>>, ghost level': seq<nat>, full: bool)
    requires Staged(t, rows, cols, parents, layers, order, level, root, product)
    requires order < |layers| == maxOrder + 1
    ensures |layers'| == |layers|
    ensures full ==> Expanded(t', rows', cols', parents', layers', root, product, maxOrder)
    ensures !full ==> Staged(t', rows', cols', parents', layers', order + 1, level', root, product)
  {
    var layer;
    t', rows', cols', parents', layer, level', full :=
      ExpandDegree(t, rows, cols, parents, layers[..order], level, root, product);
    BuildingNext(t', rows', cols', parents', layers, order, layer, level', root, product);
    layers' := layers[order := layer];
    if full {
      StagedFull(layers, order, t', rows', cols', parents', layer, level', root, product, maxOrder);
    } else {
      StagedNext(layers, order, t.ineqPos, t', rows', cols', parents', layer, level', root, product);
    }
  }

  /**
   * Numbers the products of the sources degree by degree: degree 0 is the
   * constant 1; each product of a source with a product of the previous
   * degree not already present takes the next column, until the maximum
   * degree is reached or column 2500 is filled.
   */
  method ExpandSrcs(root: set<Term>, product: Multiplier, maxOrder: nat)
    returns (t: Tables, ghost rows: seq<Term>, ghost cols: seq<Term>, ghost parents: seq<(Term, nat)>,
             layers: seq<set<Term>>)
    ensures Expanded(t, rows, cols, parents, layers, root, product, maxOrder)
  {
    layers := [{Num(1)}] + seq(maxOrder, _ => {});
    t := Tables(map[Num(1) := 1], map[Num(1) := 1], map[1 := map[1 := 1.0]]);
    rows, cols := [Num(0), Num(1)], [Num(0), Num(1)];
    parents := [(Num(0), 0), (Num(1), 0)];
    ghost var level: seq<nat> := [0, 0];
    StagedStart(root, product, maxOrder);
    var order := 1;
    while order <= maxOrder
      invariant |layers| == maxOrder + 1
      invariant Staged(t, rows, cols, parents, layers, order, level, root, product)
    {
      var full;
      t, rows, cols, parents, layers, level, full :=
        ExpandNext(t, rows, cols, parents, layers, order, level, root, product, maxOrder);
      if full {
        return;
      }
      order := order + 1;
    }
    StagedDone(t, rows, cols, parents, layers, order, level, root, product, maxOrder);
  }

  /**
   * The constructor's pass over the sources, erasing the non-negative
   * numbers from the set in place and giving up at a negative one.
   */
  method EraseNumbers(sources: seq<Term>) returns (r: Option<set<Term>>)
    requires forall i, j :: 0 <= i < j < |sources| ==> sources[i] != sources[j]
    ensures r == FoldSources(sources)
  {
    var ineqs := set t | t in sources;
    var i := 0;
    while i < |sources|
      invariant 0 <= i <= |sources|
      invariant forall j :: 0 <= j < i ==> !(sources[j].Num? && sources[j].value < 0)
      invariant forall t :: t in ineqs <==> (t in sources[..i] && !t.Num?) || t in sources[i..]
    {
      var e := sources[i];
      assert sources[..i + 1] == sources[..i] + [e];
      assert sources[i..] == [e] + sources[i + 1..];
      if e.Num? {
        if e.value < 0 {
          return None;
        }
        assert e !in sources[i + 1..];
        ineqs := ineqs - {e};
      }
      i := i + 1;
    }
    assert sources[..i] == sources && sources[i..] == [];
    assert ineqs == FoldSources(sources).value;
    return Some(ineqs);
  }

  /**
   * The positivity tester over a system of sources `e >= 0`: the products
   * of the sources up to a degree are the columns of a linear problem whose
   * rows are their monomials. The linear problem itself is not modelled;
   * `indexes` is the matrix it is loaded from.
   */
  class Tester {
    var numSrcs: nat
    /** Row number of each monomial. */
    var monomPos: map<Term, nat>
    /** Column number of each product of sources. */
    var ineqPos: map<Term, nat>
    /** Coefficient of each row in each column. */
    var indexes: map<nat, map<nat, real>>
    const maxOrder: nat

    /** The monomials in row order and the products in column order (slot 0 unused). */
    ghost var rows: seq<Term>
    ghost var cols: seq<Term>
    /** Which source and which earlier column each column was made from. */
    ghost var parents: seq<(Term, nat)>
    /** The products introduced at each degree. */
    ghost var layers: seq<set<Term>>

    ghost predicate Empty()
      reads this
    {
      monomPos == map[] && ineqPos == map[] && indexes == map[] && |rows| == 1 && |cols| == 1
    }

    ghost predicate Built(root: set<Term>, product: Multiplier)
      reads this
    {
      Expanded(Tables(monomPos, ineqPos, indexes), rows, cols, parents, layers, root, product, maxOrder)
    }

    /**
     * Builds the tester over the sources, given in the order the source set
     * iterates them: a negative number empties it, non-negative numbers are
     * dropped, and the remaining sources are expanded.
     */
    constructor (sources: seq<Term>, d: nat, product: Multiplier)
      requires forall i, j :: 0 <= i < j < |sources| ==> sources[i] != sources[j]
      ensures maxOrder == MaxOrder(d)
      ensures |sources| == 0 || FoldSources(sources).None? ==> Empty() && numSrcs == 0
      ensures |sources| > 0 && FoldSources(sources).Some? ==>
        numSrcs == |FoldSources(sources).value| && Built(FoldSources(sources).value, product)
    {
      maxOrder := MaxOrder(d);
      var folded: Option<set<Term>> := None;
      if |sources| > 0 {
        folded := EraseNumbers(sources);
      }
      if folded.None? {
        numSrcs := 0;
        monomPos, ineqPos, indexes := map[], map[], map[];
        rows, cols, parents, layers := [Num(0)], [Num(0)], [], [];
      } else {
        var t, rs, cs, ps, ls := ExpandSrcs(folded.value, product, MaxOrder(d));
        numSrcs := |folded.value|;
        monomPos, ineqPos, indexes := t.monomPos, t.ineqPos, t.indexes;
        rows, cols, parents, layers := rs, cs, ps, ls;
      }
    }

    /** Empties the tester. */
    method Clear()
      modifies this
      ensures Empty() && numSrcs == 0
    {
      numSrcs := 0;
      monomPos, ineqPos := map[], map[];
      indexes := map[];
      rows, cols := [Num(0)], [Num(0)];
    }

    /**
     * The checks `test` makes before the linear problem: a number is
     * decided by its value (a negative one still goes on to the linear
     * problem); an expression that is a known product plus or minus a
     * number is decided by that number; an expression with a monomial no
     * product has is UNKNOWN.
     */
    method Presolve(ineq: Term, testPosAndNeg: bool, asNumber: Numberer) returns (p: Phase)
      ensures WellFormed(p.result)
      ensures ineq.Num? && ineq.value >= 0 ==> p == NumericTest(ineq.value)
      ensures ineq.Num? && ineq.value < 0 ==>
        p == (if Num(1) in monomPos then NumericTest(ineq.value) else Final(TestResult(Unknown, 0.0)))
      ensures !ineq.Num? && p.Final? ==> p.result.sign == Absurd || p.result == TestResult(Unknown, 0.0)
      ensures p.Refine? ==> forall m :: m in GatherMonomials(ineq) ==> m in monomPos
      ensures forall env :: (forall b :: b in ineqPos ==> Eval(b, env) >= 0.0) && NumbererSound(asNumber, env) ==>
        Holds(p.result, Eval(ineq, env))
    {
      if ineq.Num? {
        p := NumericTest(ineq.value);
        if p.Final? {
          return;
        }
      } else {
        var gez, lez, gtz, ltz := Scan(ineq, ineqPos.Keys, testPosAndNeg, asNumber);
        p := Decide(gez, lez, gtz, ltz);
        forall env | (forall b :: b in ineqPos ==> Eval(b, env) >= 0.0) && NumbererSound(asNumber, env)
          ensures Holds(p.result, Eval(ineq, env))
        {
          ScanMeaning(ineq, ineqPos.Keys, testPosAndNeg, asNumber, gez, lez, gtz, ltz, env);
          DecideSound(gez, lez, gtz, ltz, Eval(ineq, env));
        }
        if p.Final? {
          return;
        }
      }
      var coeffs := GatherMonomials(ineq);
      var todo := coeffs.Keys;
      while todo != {}
        invariant todo <= coeffs.Keys
        invariant forall m :: m in coeffs && m !in todo ==> m in monomPos
        decreases todo
      {
        var m :| m in todo;
        if m !in monomPos {
          return Final(TestResult(Unknown, 0.0));
        }
        todo := todo - {m};
      }
    }
  }

  /**
   * Wherever the sources are non-negative, so is every product the tester
   * keeps, which is what Presolve's soundness asks of the tester.
   */
  lemma TablesNonNegative(t: Tables, rows: seq<Term>, cols: seq<Term>, parents: seq<(Term, nat)>,
                          layers: seq<set<Term>>, root: set<Term>, product: Multiplier, maxOrder: nat,
                          env: Sym -> real)
    requires Expanded(t, rows, cols, parents, layers, root, product, maxOrder)
    requires MultiplierSound(product, env)
    requires forall r :: r in root ==> Eval(r, env) >= 0.0
    ensures forall b :: b in t.ineqPos ==> Eval(b, env) >= 0.0
  {
    ColumnsNonNegative(cols, parents, root, product, env, |cols|);
    forall b | b in t.ineqPos
      ensures Eval(b, env) >= 0.0
    {
      NumberOf(t.ineqPos, cols, b);
    }
  }
}
