/**
 * Integer linear forms `k + a[0]*x0 + a[1]*x1 + ...`: the polynomials of the
 * constraint store, of conjunctions and of the elimination step. A form is
 * evaluated at an integer point, an assignment of an integer to every symbol.
 * Trailing zero coefficients are trimmed, so two canonical forms are equal
 * exactly when they are the same polynomial, as for expanded polynomials of
 * the algebra library.
 */
module Linear {
  import opened Terms

  datatype Lin = Lin(k: int, a: seq<int>)

  /** An integer value for every symbol. */
  type Point = Sym -> int

  /** The coefficient list read with zeros past its end. */
  function At(a: seq<int>, i: nat): int
  {
    if i < |a| then a[i] else 0
  }

  /** The coefficient of symbol `v` in `e`. */
  function Coef(e: Lin, v: Sym): int
  {
    At(e.a, v)
  }

  /** The sum of `At(a, i) * x(i)` over `i < n`. */
  function Partial(a: seq<int>, x: Point, n: nat): int
  {
    if n == 0 then 0 else Partial(a, x, n - 1) + At(a, n - 1) * x(n - 1)
  }

  /** The value of `e` at the point `x`. */
  function Value(e: Lin, x: Point): int
  {
    e.k + Partial(e.a, x, |e.a|)
  }

  function Constant(c: int): Lin
  {
    Lin(c, [])
  }

  /** No symbol occurs: the form is a number. */
  predicate IsNumeric(e: Lin)
  {
    forall i :: 0 <= i < |e.a| ==> e.a[i] == 0
  }

  predicate Trimmed(a: seq<int>)
  {
    |a| == 0 || a[|a| - 1] != 0
  }

  /** `v` occurs in `e`. */
  predicate Mentions(e: Lin, v: Sym)
  {
    Coef(e, v) != 0
  }

  // ----- value lemmas over coefficient lists -----

  lemma {:induction false} PartialPointwise(a: seq<int>, b: seq<int>, x: Point, n: nat)
    requires forall i: nat :: i < n ==> At(a, i) == At(b, i)
    ensures Partial(a, x, n) == Partial(b, x, n)
  {
    if n > 0 {
      PartialPointwise(a, b, x, n - 1);
    }
  }

  lemma {:induction false} PartialPad(a: seq<int>, x: Point, n: nat)
    requires n >= |a|
    ensures Partial(a, x, n) == Partial(a, x, |a|)
  {
    if n > |a| {
      PartialPad(a, x, n - 1);
    }
  }

  /** `Value` computed over any prefix at least as long as the coefficients. */
  lemma ValuePad(e: Lin, x: Point, n: nat)
    requires n >= |e.a|
    ensures Value(e, x) == e.k + Partial(e.a, x, n)
  {
    PartialPad(e.a, x, n);
  }

  lemma Distribute(p: int, u: int, q: int, w: int, y: int)
    ensures (p * u + q * w) * y == p * (u * y) + q * (w * y)
  {
  }

  lemma {:induction false} PartialCombine(c: seq<int>, a: seq<int>, b: seq<int>, p: int, q: int, x: Point, n: nat)
    requires forall i: nat :: i < n ==> At(c, i) == p * At(a, i) + q * At(b, i)
    ensures Partial(c, x, n) == p * Partial(a, x, n) + q * Partial(b, x, n)
  {
    if n > 0 {
      PartialCombine(c, a, b, p, q, x, n - 1);
      Distribute(p, At(a, n - 1), q, At(b, n - 1), x(n - 1));
    }
  }

  // ----- trimming -----

  /** Drops trailing zero coefficients. */
  function Trim(a: seq<int>): (t: seq<int>)
    ensures Trimmed(t) && |t| <= |a|
    ensures forall i: nat :: At(t, i) == At(a, i)
  {
    if |a| == 0 || a[|a| - 1] != 0 then a
    else
      var t := Trim(a[..|a| - 1]);
      assert forall i: nat :: At(a[..|a| - 1], i) == At(a, i);
      t
  }

  predicate Canonical(e: Lin)
  {
    Trimmed(e.a)
  }

  /** A canonical form is numeric exactly when it has no coefficients. */
  lemma NumericCanonical(e: Lin)
    requires Canonical(e)
    ensures IsNumeric(e) <==> e.a == []
  {
  }

  /** A numeric form takes its constant everywhere. */
  lemma {:induction false} NumericValue(e: Lin, x: Point)
    requires IsNumeric(e)
    ensures Value(e, x) == e.k
  {
    PartialPointwise(e.a, [], x, |e.a|);
    PartialPad([], x, |e.a|);
  }

  // ----- arithmetic on forms -----

  function NegSeq(a: seq<int>): (r: seq<int>)
    ensures |r| == |a| && forall i: nat :: At(r, i) == -At(a, i)
  {
    seq(|a|, i requires 0 <= i < |a| => -a[i])
  }

  /** The form `-e`. */
  function Neg(e: Lin): (r: Lin)
    ensures Canonical(e) ==> Canonical(r)
    ensures IsNumeric(e) <==> IsNumeric(r)
    ensures forall v :: Coef(r, v) == -Coef(e, v)
  {
    var r := Lin(-1 * e.k, NegSeq(e.a));
    assert forall i :: 0 <= i < |e.a| ==> r.a[i] == -e.a[i] by {
      forall i | 0 <= i < |e.a| ensures r.a[i] == -e.a[i] {
        assert At(r.a, i) == -At(e.a, i);
      }
    }
    r
  }

  /**
   * The form `-e - 1`: at integer points, `-e - 1 >= 0` holds exactly where
   * `e >= 0` fails.
   */
  function Complement(e: Lin): (r: Lin)
    ensures Canonical(e) ==> Canonical(r)
    ensures IsNumeric(e) <==> IsNumeric(r)
  {
    Lin(-1 - e.k, Neg(e).a)
  }

  /** The form `e + c`. */
  function Offset(e: Lin, c: int): Lin
  {
    Lin(e.k + c, e.a)
  }

  function Max(m: nat, n: nat): nat
  {
    if m < n then n else m
  }

  /** The form `p*e + q*f`. */
  function Combine(p: int, e: Lin, q: int, f: Lin): (r: Lin)
    ensures Canonical(r)
    ensures forall v :: Coef(r, v) == p * Coef(e, v) + q * Coef(f, v)
  {
    var n := Max(|e.a|, |f.a|);
    var c := seq(n, i requires 0 <= i < n => p * At(e.a, i) + q * At(f.a, i));
    assert forall i: nat :: At(c, i) == p * At(e.a, i) + q * At(f.a, i);
    Lin(p * e.k + q * f.k, Trim(c))
  }

  /** The form `e - f`. */
  function Sub(e: Lin, f: Lin): Lin
  {
    Combine(1, e, -1, f)
  }

  /** `e` with the term in `v` removed: the remainder of `e` divided by `v`. */
  function Without(e: Lin, v: Sym): (r: Lin)
    ensures Canonical(r)
    ensures Coef(r, v) == 0
    ensures forall w :: w != v ==> Coef(r, w) == Coef(e, w)
    ensures r.k == e.k
  {
    var c := seq(|e.a|, i requires 0 <= i < |e.a| => if i == v then 0 else e.a[i]);
    assert forall i: nat :: At(c, i) == (if i == v then 0 else At(e.a, i));
    Lin(e.k, Trim(c))
  }

  lemma {:induction false} ValueNeg(e: Lin, x: Point)
    ensures Value(Neg(e), x) == -Value(e, x)
  {
    PartialCombine(Neg(e).a, e.a, [], -1, 0, x, |e.a|);
  }

  lemma ValueComplement(e: Lin, x: Point)
    ensures Value(Complement(e), x) == -Value(e, x) - 1
  {
    ValueNeg(e, x);
  }

  /** The stored negation of the stored negation is the original form. */
  lemma ComplementTwice(e: Lin)
    ensures Complement(Complement(e)) == e
  {
    assert NegSeq(NegSeq(e.a)) == e.a;
  }

  /** At an integer point exactly one of `e >= 0` and `-e - 1 >= 0` holds. */
  lemma ComplementExcludes(e: Lin, x: Point)
    ensures Value(e, x) >= 0 <==> !(Value(Complement(e), x) >= 0)
  {
    ValueComplement(e, x);
  }

  lemma ValueOffset(e: Lin, c: int, x: Point)
    ensures Value(Offset(e, c), x) == Value(e, x) + c
  {
  }

  lemma Spread(p: int, k: int, u: int, q: int, l: int, w: int)
    ensures p * (k + u) + q * (l + w) == (p * k + q * l) + (p * u + q * w)
  {
  }

  lemma {:induction false} ValueCombine(p: int, e: Lin, q: int, f: Lin, x: Point)
    ensures Value(Combine(p, e, q, f), x) == p * Value(e, x) + q * Value(f, x)
  {
    var n := Max(|e.a|, |f.a|);
    var c := seq(n, i requires 0 <= i < n => p * At(e.a, i) + q * At(f.a, i));
    assert forall i: nat :: At(c, i) == p * At(e.a, i) + q * At(f.a, i);
    var r := Combine(p, e, q, f);
    assert r == Lin(p * e.k + q * f.k, Trim(c));
    var pe, pf := Partial(e.a, x, n), Partial(f.a, x, n);
    PartialPad(e.a, x, n);
    PartialPad(f.a, x, n);
    PartialCombine(c, e.a, f.a, p, q, x, n);
    PartialPointwise(r.a, c, x, n);
    PartialPad(r.a, x, n);
    Spread(p, e.k, pe, q, f.k, pf);
  }

  lemma ValueSub(e: Lin, f: Lin, x: Point)
    ensures Value(Sub(e, f), x) == Value(e, x) - Value(f, x)
  {
    ValueCombine(1, e, -1, f, x);
  }

  lemma {:induction false} PartialWithout(a: seq<int>, c: seq<int>, v: Sym, x: Point, n: nat)
    requires forall i: nat :: At(c, i) == (if i == v then 0 else At(a, i))
    ensures Partial(a, x, n) == (if v < n then At(a, v) * x(v) else 0) + Partial(c, x, n)
  {
    if n > 0 {
      PartialWithout(a, c, v, x, n - 1);
    }
  }

  /** A form is its term in `v` plus the rest. */
  lemma {:induction false} ValueWithout(e: Lin, v: Sym, x: Point)
    ensures Value(e, x) == Coef(e, v) * x(v) + Value(Without(e, v), x)
  {
    var r := Without(e, v);
    var c := seq(|e.a|, i requires 0 <= i < |e.a| => if i == v then 0 else e.a[i]);
    assert forall i: nat :: At(c, i) == (if i == v then 0 else At(e.a, i));
    assert r.a == Trim(c);
    PartialWithout(e.a, c, v, x, |e.a|);
    PartialPointwise(r.a, c, x, |e.a|);
    PartialPad(r.a, x, |e.a|);
  }

  // ----- integer content -----

  function Gcd(m: nat, n: nat): nat
    decreases n
  {
    if n == 0 then m else Gcd(n, m % n)
  }

  /** `g` divides `n`, with an explicit quotient. */
  predicate Divides(g: nat, n: int)
  {
    g > 0 && n % g == 0
  }

  lemma DivideExact(g: nat, n: int)
    requires Divides(g, n)
    ensures n == g * (n / g)
  {
  }

  lemma MulSign(g: int, d: int)
    requires g > 0
    ensures d >= 1 ==> g * d >= g
    ensures d <= -1 ==> g * d <= -g
  {
  }

  lemma MultipleDivides(g: nat, t: int)
    requires g > 0
    ensures Divides(g, g * t) && (g * t) / g == t
  {
    var q, r := (g * t) / g, (g * t) % g;
    assert g * t == g * q + r && 0 <= r < g;
    assert g * (t - q) == r;
    MulSign(g, t - q);
  }

  lemma DividesTrans(g: nat, h: nat, n: int)
    requires Divides(g, h) && Divides(h, n)
    ensures Divides(g, n)
  {
    DivideExact(g, h);
    DivideExact(h, n);
    var s, t := h / g, n / h;
    assert n == g * (s * t);
    MultipleDivides(g, s * t);
  }

  lemma DividesSum(g: nat, m: int, n: int)
    requires n != 0 && Divides(g, n) && Divides(g, m % n)
    ensures Divides(g, m)
  {
    DivideExact(g, n);
    DivideExact(g, m % n);
    var s, t := n / g, (m % n) / g;
    assert m == (m / n) * n + m % n;
    assert m == g * ((m / n) * s + t);
    MultipleDivides(g, (m / n) * s + t);
  }

  lemma DividesNeg(g: nat, n: int)
    requires Divides(g, n)
    ensures Divides(g, -n)
  {
    DivideExact(g, n);
    assert -n == g * -(n / g);
    MultipleDivides(g, -(n / g));
  }

  /** The greatest common divisor divides both arguments, and is zero only for two zeros. */
  lemma {:induction false} GcdDivides(m: nat, n: nat)
    ensures Gcd(m, n) == 0 <==> m == 0 && n == 0
    ensures Gcd(m, n) > 0 ==> Divides(Gcd(m, n), m) && Divides(Gcd(m, n), n)
    decreases n
  {
    if n != 0 {
      GcdDivides(n, m % n);
      DividesSum(Gcd(m, n), m, n);
    }
  }

  function Abs(n: int): nat
  {
    if n < 0 then -n else n
  }

  lemma DividesAbs(g: nat, n: int)
    ensures Divides(g, Abs(n)) <==> Divides(g, n)
  {
    if n < 0 && g > 0 {
      if Divides(g, n) {
        DividesNeg(g, n);
      }
      if Divides(g, -n) {
        DividesNeg(g, -n);
      }
    }
  }

  /** The greatest common divisor of the coefficients `a`. */
  function SeqContent(a: seq<int>): nat
  {
    if |a| == 0 then 0 else Gcd(SeqContent(a[..|a| - 1]), Abs(a[|a| - 1]))
  }

  lemma {:induction false} SeqContentDivides(a: seq<int>)
    ensures SeqContent(a) == 0 <==> forall i :: 0 <= i < |a| ==> a[i] == 0
    ensures SeqContent(a) > 0 ==> forall i :: 0 <= i < |a| ==> Divides(SeqContent(a), a[i])
  {
    if |a| > 0 {
      var p := a[..|a| - 1];
      SeqContentDivides(p);
      GcdDivides(SeqContent(p), Abs(a[|a| - 1]));
      var g := SeqContent(a);
      if g > 0 {
        DividesAbs(g, a[|a| - 1]);
        forall i | 0 <= i < |a| - 1
          ensures Divides(g, a[i])
        {
          assert p[i] == a[i];
          if SeqContent(p) > 0 {
            DividesTrans(g, SeqContent(p), a[i]);
          }
        }
      }
    }
  }

  /** The integer content of `e`: the greatest common divisor of all its coefficients. */
  function Content(e: Lin): nat
  {
    Gcd(Abs(e.k), SeqContent(e.a))
  }

  /** The content divides every coefficient, and vanishes only on the zero form. */
  lemma ContentDivides(e: Lin)
    ensures Content(e) == 0 <==> e.k == 0 && IsNumeric(e)
    ensures Content(e) > 0 ==> Divides(Content(e), e.k)
    ensures Content(e) > 0 ==> forall i :: 0 <= i < |e.a| ==> Divides(Content(e), e.a[i])
  {
    SeqContentDivides(e.a);
    GcdDivides(Abs(e.k), SeqContent(e.a));
    var g := Content(e);
    if g > 0 {
      DividesAbs(g, e.k);
      forall i | 0 <= i < |e.a|
        ensures Divides(g, e.a[i])
      {
        if SeqContent(e.a) > 0 {
          DividesTrans(g, SeqContent(e.a), e.a[i]);
        }
      }
    }
  }

  /** Every coefficient of `e` divided by `g`. */
  function DivideBy(e: Lin, g: nat): Lin
    requires g > 0
  {
    Lin(e.k / g, seq(|e.a|, i requires 0 <= i < |e.a| => e.a[i] / g))
  }

  lemma Factor(g: int, p: int, b: int, y: int)
    ensures g * p + (g * b) * y == g * (p + b * y)
  {
  }

  lemma {:induction false} PartialDivide(a: seq<int>, d: seq<int>, g: nat, x: Point, n: nat)
    requires g > 0 && n <= |a| && |d| == |a|
    requires forall i :: 0 <= i < |a| ==> a[i] == g * d[i]
    ensures Partial(a, x, n) == g * Partial(d, x, n)
  {
    if n > 0 {
      PartialDivide(a, d, g, x, n - 1);
      Factor(g, Partial(d, x, n - 1), d[n - 1], x(n - 1));
    }
  }

  /** Dividing by a common divisor divides the value. */
  lemma ValueDivide(e: Lin, g: nat, x: Point)
    requires g > 0 && Divides(g, e.k) && forall i :: 0 <= i < |e.a| ==> Divides(g, e.a[i])
    ensures Value(e, x) == g * Value(DivideBy(e, g), x)
  {
    var d := DivideBy(e, g);
    forall i | 0 <= i < |e.a|
      ensures e.a[i] == g * d.a[i]
    {
      DivideExact(g, e.a[i]);
    }
    DivideExact(g, e.k);
    PartialDivide(e.a, d.a, g, x, |e.a|);
    Factor(g, d.k, Partial(d.a, x, |e.a|), 1);
  }

  /** A positive factor keeps the sign of a value. */
  lemma PositiveFactor(g: int, w: int)
    requires g > 0
    ensures g * w >= 0 <==> w >= 0
    ensures g * w == 0 <==> w == 0
  {
    if w > 0 {
      assert g * w >= g * 1;
    } else if w < 0 {
      assert g * w <= g * -1;
    }
  }

  lemma {:induction false} DivideTrimmed(e: Lin, g: nat)
    requires g > 0 && Canonical(e) && forall i :: 0 <= i < |e.a| ==> Divides(g, e.a[i])
    ensures Canonical(DivideBy(e, g))
  {
    if |e.a| > 0 {
      var i := |e.a| - 1;
      DivideExact(g, e.a[i]);
      MulSign(g, e.a[i] / g);
    }
  }

  /** A form that is a single symbol with coefficient -1: a product `-1*v` for the algebra library. */
  predicate NegatedSymbol(e: Lin)
  {
    e.k == 0 && |e.a| > 0 && e.a[|e.a| - 1] == -1 && forall i :: 0 <= i < |e.a| - 1 ==> e.a[i] == 0
  }

  /** The trimmed form with the integer content divided out. */
  function Primitive(e: Lin): (r: Lin)
    ensures Canonical(r)
  {
    var t := Lin(e.k, Trim(e.a));
    var g := Content(t);
    if g == 0 then t
    else
      ContentDivides(t);
      DivideTrimmed(t, g);
      DivideBy(t, g)
  }

  /**
   * The canonical form the store keeps for `e >= 0` or, when `isEq`, for
   * `e = 0`: trimmed, the integer content divided out, and an equality that
   * is a negated symbol `-v` turned into `v`.
   */
  function Canon(e: Lin, isEq: bool): (r: Lin)
    ensures Canonical(r)
  {
    var p := Primitive(e);
    if isEq && NegatedSymbol(p) then Neg(p) else p
  }

  lemma {:induction false} ValuePrimitive(e: Lin, x: Point)
    ensures Value(e, x) >= 0 <==> Value(Primitive(e), x) >= 0
    ensures Value(e, x) == 0 <==> Value(Primitive(e), x) == 0
  {
    var t := Lin(e.k, Trim(e.a));
    PartialPointwise(t.a, e.a, x, |e.a|);
    PartialPad(t.a, x, |e.a|);
    assert Value(t, x) == Value(e, x);
    var g := Content(t);
    if g > 0 {
      ContentDivides(t);
      ValueDivide(t, g, x);
      PositiveFactor(g, Value(DivideBy(t, g), x));
    }
  }

  /** Interning keeps the meaning of the constraint. */
  lemma ValueCanon(e: Lin, isEq: bool, x: Point)
    ensures !isEq ==> (Value(Canon(e, isEq), x) >= 0 <==> Value(e, x) >= 0)
    ensures isEq ==> (Value(Canon(e, isEq), x) == 0 <==> Value(e, x) == 0)
  {
    ValuePrimitive(e, x);
    ValueNeg(Primitive(e), x);
  }

  /** A form whose content is one, such as every canonical inequality form, is its own primitive form. */
  lemma {:induction false} NumericPrimitive(e: Lin)
    ensures IsNumeric(Primitive(e)) <==> IsNumeric(e)
  {
    var t := Lin(e.k, Trim(e.a));
    assert forall i :: 0 <= i < |t.a| ==> t.a[i] == At(e.a, i);
    assert forall i :: 0 <= i < |e.a| ==> e.a[i] == At(t.a, i);
    var g := Content(t);
    if g > 0 {
      ContentDivides(t);
      var d := DivideBy(t, g);
      forall i | 0 <= i < |t.a|
        ensures t.a[i] == 0 <==> d.a[i] == 0
      {
        DivideExact(g, t.a[i]);
      }
    }
  }

  /** A numeric form keeps being numeric, and a non-numeric one non-numeric, once interned. */
  lemma NumericCanon(e: Lin, isEq: bool)
    ensures IsNumeric(Canon(e, isEq)) <==> IsNumeric(e)
  {
    NumericPrimitive(e);
  }

  /** The number of terms of `e`, its constant included when non-zero. */
  function TermCount(e: Lin): nat
  {
    (if e.k != 0 then 1 else 0) + NonZeros(e.a)
  }

  function NonZeros(a: seq<int>): (n: nat)
    ensures n <= |a|
  {
    if |a| == 0 then 0 else NonZeros(a[..|a| - 1]) + (if a[|a| - 1] != 0 then 1 else 0)
  }

  /** A form with no non-zero coefficient has at most its constant as a term. */
  lemma {:induction false} NonZerosNumeric(a: seq<int>)
    ensures NonZeros(a) == 0 <==> forall i :: 0 <= i < |a| ==> a[i] == 0
  {
    if |a| > 0 {
      NonZerosNumeric(a[..|a| - 1]);
      assert forall i :: 0 <= i < |a| - 1 ==> a[..|a| - 1][i] == a[i];
    }
  }
}
