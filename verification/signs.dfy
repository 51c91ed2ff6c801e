/**
 * The sign lattice of the positivity tester: the bit-encoded SIGN enum,
 * the test result record, the numeric tolerance and the default
 * certificate degree.
 */
module SignLattice {
  import opened Wrappers

  /** What the tested system implies about the sign of an expression. */
  datatype Sign = Unknown | Zero | Gtz | Gez | Ltz | Lez | Absurd

  /** The byte that encodes each sign in the source's enum. */
  function Code(s: Sign): (b: bv8)
    ensures b <= 7 && b != 6
  {
    match s
    case Unknown => 0
    case Zero => 1
    case Gtz => 2
    case Gez => 3
    case Ltz => 4
    case Lez => 5
    case Absurd => 7
  }

  /** Reads a byte back as a sign; 6 and anything above 7 are not signs. */
  function Decode(b: bv8): (r: Option<Sign>)
    ensures r.Some? <==> (b <= 7 && b != 6)
  {
    if b == 0 then Some(Unknown)
    else if b == 1 then Some(Zero)
    else if b == 2 then Some(Gtz)
    else if b == 3 then Some(Gez)
    else if b == 4 then Some(Ltz)
    else if b == 5 then Some(Lez)
    else if b == 7 then Some(Absurd)
    else None
  }

  /** Decoding the code of a sign gives the sign back, and no two signs share a code. */
  lemma DecodeCode(s: Sign)
    ensures Decode(Code(s)) == Some(s)
  {
  }

  lemma CodeDecode(b: bv8)
    requires Decode(b).Some?
    ensures Code(Decode(b).value) == b
  {
  }

  /**
   * The weak signs are the union of the strict sign and ZERO; ABSURD holds
   * every sign bit and UNKNOWN none.
   */
  lemma SignBits()
    ensures Code(Gez) == Code(Gtz) | Code(Zero)
    ensures Code(Lez) == Code(Ltz) | Code(Zero)
    ensures Code(Absurd) & Code(Zero) == Code(Zero)
    ensures Code(Absurd) & Code(Gtz) == Code(Gtz)
    ensures Code(Absurd) & Code(Ltz) == Code(Ltz)
    ensures Code(Unknown) == 0
  {
  }

  /** A sign together with how far from zero the expression is known to be. */
  datatype TestResult = TestResult(sign: Sign, distance: real)

  /** Tolerance used when a distance read back from the solver is rounded. */
  const MAX_ERROR: real := 0.0000001

  /** Degree of the products of sources the tester builds by default. */
  const DEFAULT_DEGREE: nat := 2

  /** The highest product order the tester expands to for degree `d`. */
  function MaxOrder(d: nat): (m: nat)
    ensures m >= 1 && m >= d
    ensures d >= 1 ==> m == d
  {
    if d < 1 then 1 else d
  }

  /**
   * The claim a result makes about the value `v` of the tested expression
   * at a point satisfying the system. ABSURD claims the system has no such
   * point, so it holds nowhere.
   */
  predicate Holds(r: TestResult, v: real)
  {
    match r.sign
    case Unknown => true
    case Zero => v == 0.0
    case Gtz => v > 0.0 && v >= r.distance
    case Gez => v >= 0.0
    case Ltz => v < 0.0 && -v >= r.distance
    case Lez => v <= 0.0
    case Absurd => false
  }

  /** Strict results carry a positive distance. */
  predicate WellFormed(r: TestResult)
  {
    (r.sign == Gtz || r.sign == Ltz) ==> r.distance > 0.0
  }

  /** `b` raised to the natural power `n`. */
  function Power(b: real, n: nat): (p: real)
    ensures b > 0.0 ==> p > 0.0
    ensures b >= 0.0 ==> p >= 0.0
    ensures n >= 1 && b == 0.0 ==> p == 0.0
  {
    if n == 0 then 1.0 else b * Power(b, n - 1)
  }
}
