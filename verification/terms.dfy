/**
 * The shape of a symbolic expression as the algebra library stores it:
 * numbers, symbols, integer powers, and n-ary products and sums.
 * Expressions are evaluated over real-valued assignments to the symbols.
 */
module Terms {
  import opened SignLattice

  /** Symbols are numbered. */
  type Sym = nat

  datatype Term =
    | Num(value: int)
    | Var(sym: Sym)
    | Pow(base: Term, exponent: nat)
    | Mul(factors: seq<Term>)
    | Add(terms: seq<Term>)

  /** The value of `e` when every symbol `s` takes the value `env(s)`. */
  function Eval(e: Term, env: Sym -> real): real
    decreases e, 0
  {
    match e
    case Num(v) => v as real
    case Var(s) => env(s)
    case Pow(b, n) => PowerOf(b, n, env)
    case Mul(fs) => ProductOf(fs, env)
    case Add(ts) => SumOf(ts, env)
  }

  /** The value of `b` multiplied by itself `n` times. */
  function PowerOf(b: Term, n: nat, env: Sym -> real): real
    decreases b, 1, n
  {
    if n == 0 then 1.0 else Eval(b, env) * PowerOf(b, n - 1, env)
  }

  /** A power evaluates to the power of its base's value. */
  lemma {:induction false} EvalPow(b: Term, n: nat, env: Sym -> real)
    ensures Eval(Pow(b, n), env) == Power(Eval(b, env), n)
  {
    var v := Eval(b, env);
    var k := 0;
    while k < n
      invariant k <= n && PowerOf(b, k, env) == Power(v, k)
    {
      k := k + 1;
    }
  }

  function ProductOf(fs: seq<Term>, env: Sym -> real): real
    decreases fs, 0
  {
    if |fs| == 0 then 1.0 else Eval(fs[0], env) * ProductOf(fs[1..], env)
  }

  function SumOf(ts: seq<Term>, env: Sym -> real): real
    decreases ts, 0
  {
    if |ts| == 0 then 0.0 else Eval(ts[0], env) + SumOf(ts[1..], env)
  }

  /** The expression `a - b`. */
  function Minus(a: Term, b: Term): Term
  {
    Add([a, Mul([Num(-1), b])])
  }

  /** The expression `a + b`. */
  function Plus(a: Term, b: Term): Term
  {
    Add([a, b])
  }

  lemma EvalMinus(a: Term, b: Term, env: Sym -> real)
    ensures Eval(Minus(a, b), env) == Eval(a, env) - Eval(b, env)
  {
    var nb := Mul([Num(-1), b]);
    assert [a, nb][1..] == [nb] && [nb][1..] == [];
    assert [Num(-1), b][1..] == [b] && [b][1..] == [];
    calc {
      Eval(nb, env);
      ProductOf([Num(-1), b], env);
      -1.0 * ProductOf([b], env);
      -1.0 * (Eval(b, env) * ProductOf([], env));
    }
    calc {
      Eval(Minus(a, b), env);
      SumOf([a, nb], env);
      Eval(a, env) + SumOf([nb], env);
      Eval(a, env) + (Eval(nb, env) + SumOf([], env));
    }
  }

  lemma EvalPlus(a: Term, b: Term, env: Sym -> real)
    ensures Eval(Plus(a, b), env) == Eval(a, env) + Eval(b, env)
  {
    assert [a, b][1..] == [b] && [b][1..] == [];
    calc {
      Eval(Plus(a, b), env);
      SumOf([a, b], env);
      Eval(a, env) + SumOf([b], env);
      Eval(a, env) + (Eval(b, env) + SumOf([], env));
    }
  }
}
