/**
 * The simplifier of one conjunction: the Fourier-Motzkin elimination step
 * and the helpers around it that consult the positiveness tester. The
 * tester is a function parameter (`Oracle`); the simplifier keeps the
 * system its tester was last built from (`sys`). Constraints are interned
 * in a `Store` that every operation receives.
 */
module Simplifiers {
  import opened Wrappers
  import S = SignLattice
  import opened Terms
  import opened Linear
  import opened ConstraintStore
  import opened Conjunctions

  // ----- compose and proved -----

  /** The least integer not below `r`. */
  function Ceil(r: real): (c: int)
    ensures r <= c as real < r + 1.0
  {
    -((-r).Floor)
  }

  /**
   * The constraint a tester verdict about `tested` lets one add: for
   * GTZ, `tested` minus the distance rounded up after the tolerance is
   * taken off; for LTZ the same of `-tested`; for LEZ `-tested`; for
   * ABSURD the false form -1; otherwise `tested` itself.
   */
  function Compose(tr: S.TestResult, tested: Lin): Lin
  {
    match tr.sign
    case Gtz => Offset(tested, -Ceil(tr.distance - S.MAX_ERROR))
    case Lez => Neg(tested)
    case Ltz => Offset(Neg(tested), -Ceil(tr.distance - S.MAX_ERROR))
    case Absurd => Constant(-1)
    case _ => tested
  }

  /** An integer at least the distance `d` is at least `d` rounded up after the tolerance is taken off. */
  lemma CeilBelow(v: int, d: real)
    requires v as real >= d
    ensures v >= Ceil(d - S.MAX_ERROR)
  {
  }

  /**
   * Where a verdict other than UNKNOWN and ABSURD holds for the value of
   * `tested`, the composed form is non-negative.
   */
  lemma ComposeSound(tr: S.TestResult, tested: Lin, x: Point)
    requires tr.sign !in {S.Unknown, S.Absurd}
    requires S.Holds(tr, Value(tested, x) as real)
    ensures Value(Compose(tr, tested), x) >= 0
  {
    ValueNeg(tested, x);
    match tr.sign {
      case Gtz =>
        CeilBelow(Value(tested, x), tr.distance);
      case Ltz =>
        CeilBelow(-Value(tested, x), tr.distance);
      case _ =>
    }
  }

  /**
   * The composed form of a GTZ verdict with a positive distance is at least
   * as strong as `tested >= 0`, and that of ABSURD holds nowhere.
   */
  lemma ComposeStrengthens(tr: S.TestResult, tested: Lin, x: Point)
    ensures tr.sign == S.Gtz && tr.distance > 0.0 && Value(Compose(tr, tested), x) >= 0 ==> Value(tested, x) >= 0
    ensures tr.sign == S.Gtz && tr.distance > S.MAX_ERROR && Value(Compose(tr, tested), x) >= 0 ==> Value(tested, x) >= 1
    ensures tr.sign == S.Absurd ==> Value(Compose(tr, tested), x) < 0
  {
    NumericValue(Constant(-1), x);
  }

  /** Whether a verdict establishes that the tested form is non-negative. */
  predicate Proved(tr: S.TestResult)
  {
    match tr.sign
    case Unknown => false
    case Lez => false
    case Ltz => false
    case _ => true
  }

  /** A verdict is proved exactly when every value it allows is non-negative. */
  lemma ProvedExactly(tr: S.TestResult)
    ensures Proved(tr) <==> forall v: real :: S.Holds(tr, v) ==> v >= 0.0
  {
    if !Proved(tr) {
      var v: real := if tr.distance >= 0.0 then -tr.distance - 1.0 else -1.0;
      assert S.Holds(tr, v) && v < 0.0;
    }
  }

  // ----- tester conditions -----

  /** The tester is sound and its strict verdicts carry a positive distance. */
  ghost predicate SoundTester(test: Oracle)
  {
    OracleSound(test) && forall sys, e {:trigger test(sys, e)} :: S.WellFormed(test(sys, e))
  }

  /** Every point of `c` satisfies all of `a`. */
  ghost predicate Implied(c: Conjunction, a: set<Constraint>)
  {
    forall x :: Sat(c, x) ==> AllSat(a, x)
  }

  /** Every point satisfying all of `a` satisfies all of `r`. */
  ghost predicate Stronger(a: set<Constraint>, r: set<Constraint>)
  {
    forall x :: AllSat(a, x) ==> AllSat(r, x)
  }

  lemma ImpliedUnion(c: Conjunction, a: set<Constraint>, b: set<Constraint>)
    requires Implied(c, a) && Implied(c, b)
    ensures Implied(c, a + b)
  {
  }

  lemma StrongerUnion(a: set<Constraint>, r: set<Constraint>, b: set<Constraint>, q: set<Constraint>)
    requires Stronger(a, r) && Stronger(b, q)
    ensures Stronger(a + b, r + q)
  {
    forall x | AllSat(a + b, x)
      ensures AllSat(r + q, x)
    {
      assert AllSat(a, x) && AllSat(b, x);
    }
  }

  /** `c` without the inequality `k`: the system its tester is asked about `k`. */
  function Other(c: Conjunction, k: Constraint): Conjunction
  {
    RemoveJoinSpec(c, {k}, {}).0
  }

  /** Every point of `c` is a point of the tester system of `c` without one of its inequalities. */
  lemma OtherHolds(c: Conjunction, k: Constraint, x: Point)
    requires WellFormed(c) && k in c.ineqs && Sat(c, x)
    ensures SystemHolds(TesterSystem(Other(c, k)), x)
  {
    RemoveJoinMeaning(c, {k}, {}, x);
    RemoveJoinWellFormed(c, {k}, {});
    TesterSystemMeaning(Other(c, k), x);
  }

  // ----- tightening steps -----

  /** ZERO or LEZ for an inequality against the rest of the system: the equality of its form replaces it. */
  lemma TightenEqualityStep(test: Oracle, c: Conjunction, k: Constraint, eqK: Constraint)
    requires SoundTester(test) && WellFormed(c) && k in c.ineqs
    requires test(TesterSystem(Other(c, k)), k.exp).sign in {S.Zero, S.Lez}
    requires forall x :: Satisfies(eqK, x) <==> HoldsAt(k.exp, true, x)
    ensures Implied(c, {eqK}) && Stronger({eqK}, {k})
  {
    assert !k.eq;
    forall x | Sat(c, x)
      ensures Satisfies(eqK, x)
    {
      OtherHolds(c, k, x);
      assert Satisfies(k, x);
    }
  }

  /** GTZ for an inequality against the rest of the system: the composed inequality replaces it and its re-interned copy. */
  lemma TightenStrictStep(test: Oracle, c: Conjunction, k: Constraint, tr: S.TestResult, newK: Constraint, sameK: Constraint)
    requires SoundTester(test) && WellFormed(c) && k in c.ineqs
    requires tr == test(TesterSystem(Other(c, k)), k.exp) && tr.sign == S.Gtz
    requires forall x :: Satisfies(newK, x) <==> HoldsAt(Compose(tr, k.exp), false, x)
    requires forall x :: Satisfies(sameK, x) <==> HoldsAt(k.exp, false, x)
    ensures Implied(c, {newK}) && Stronger({newK}, {k, sameK})
  {
    assert !k.eq;
    assert S.WellFormed(tr);
    forall x | Sat(c, x)
      ensures Satisfies(newK, x)
    {
      OtherHolds(c, k, x);
      ComposeSound(tr, k.exp, x);
    }
    forall x | AllSat({newK}, x)
      ensures AllSat({k, sameK}, x)
    {
      assert Satisfies(newK, x);
      ComposeStrengthens(tr, k.exp, x);
    }
  }

  /** An inequality proved non-negative by the rest of the system can be dropped. */
  lemma TightenDropStep(test: Oracle, c: Conjunction, k: Constraint)
    requires SoundTester(test) && WellFormed(c) && k in c.ineqs
    requires test(TesterSystem(Other(c, k)), k.exp).sign in {S.Gez, S.Gtz}
    ensures forall x :: Sat(Other(c, k), x) <==> Sat(c, x)
  {
    assert !k.eq;
    RemoveJoinWellFormed(c, {k}, {});
    forall x
      ensures Sat(Other(c, k), x) <==> Sat(c, x)
    {
      RemoveJoinMeaning(c, {k}, {}, x);
      if Sat(Other(c, k), x) {
        TesterSystemMeaning(Other(c, k), x);
        OracleNonNegative(test, TesterSystem(Other(c, k)), k.exp, x);
      }
    }
  }

  /** LTZ or ABSURD for an inequality against the rest of the system: the system has no point. */
  lemma TightenAbsurdStep(test: Oracle, c: Conjunction, k: Constraint)
    requires SoundTester(test) && WellFormed(c) && k in c.ineqs
    requires test(TesterSystem(Other(c, k)), k.exp).sign in {S.Ltz, S.Absurd}
    ensures forall x :: !Sat(c, x)
  {
    assert !k.eq;
    forall x | Sat(c, x)
      ensures false
    {
      OtherHolds(c, k, x);
    }
  }

  /**
   * The closing `removeJoin` of `tightening`: replacing constraints by
   * stronger ones the system implies keeps the meaning.
   */
  method Replace(c: Conjunction, toRemove: set<Constraint>, toJoin: set<Constraint>) returns (r: Conjunction, changed: bool)
    requires WellFormed(c) && c != Absurd
    ensures (r, changed) == RemoveJoinSpec(c, toRemove, toJoin)
    ensures WellFormed(r)
    ensures Implied(c, toJoin) && Stronger(toJoin, toRemove) ==> forall x :: Sat(r, x) <==> Sat(c, x)
  {
    RemoveJoinWellFormed(c, toRemove, toJoin);
    r, changed := RemoveJoin(c, toRemove, toJoin);
    if Implied(c, toJoin) && Stronger(toJoin, toRemove) {
      forall x
        ensures Sat(r, x) <==> Sat(c, x)
      {
        RemoveJoinMeaning(c, toRemove, toJoin, x);
      }
    }
  }

  /** How the scan of `tightening` ends. */
  datatype Tightened =
    | NoPoint
    | Dropped(k: Constraint)
    | Replaced(toRemove: set<Constraint>, toJoin: set<Constraint>)

  /** The tester's verdict on the inequality `k` against the rest of `c`. */
  function Verdict(test: Oracle, c: Conjunction, k: Constraint): S.TestResult
  {
    test(TesterSystem(Other(c, k)), k.exp)
  }

  /** The verdicts for which `tightening` replaces an inequality: ZERO, LEZ and GTZ. */
  predicate Tightens(tr: S.TestResult)
  {
    tr.sign in {S.Zero, S.Lez, S.Gtz}
  }

  /**
   * `q` is what `tightening` joins for the inequality `k` of verdict `tr`:
   * the equality of its form for ZERO or LEZ, the inequality of its
   * composed form for GTZ.
   */
  predicate JoinedFor(q: Constraint, k: Constraint, tr: S.TestResult)
  {
    if tr.sign == S.Gtz then Answers(q, Compose(tr, k.exp), false)
    else tr.sign in {S.Zero, S.Lez} && Answers(q, k.exp, true)
  }

  /** No verdict on an inequality of `done` stops the scan. */
  ghost predicate Passed(test: Oracle, c: Conjunction, done: set<Constraint>)
  {
    forall k :: k in done ==>
      Verdict(test, c, k).sign !in {S.Ltz, S.Absurd} && (c.vars == {} ==> Verdict(test, c, k).sign !in {S.Gez, S.Gtz})
  }

  /** Every inequality of `done` whose verdict tightens it is removed, and what replaces it is joined. */
  ghost predicate Collected(test: Oracle, c: Conjunction, done: set<Constraint>, toRemove: set<Constraint>, toJoin: set<Constraint>)
  {
    forall k {:trigger Tightens(Verdict(test, c, k))} :: k in done && Tightens(Verdict(test, c, k)) ==>
      k in toRemove && exists q :: q in toJoin && JoinedFor(q, k, Verdict(test, c, k))
  }

  /**
   * Everything removed is an inequality of `done` whose verdict tightens it
   * or the store's inequality for the form of one of verdict GTZ, and
   * everything joined is joined for an inequality of `done`.
   */
  ghost predicate Sourced(test: Oracle, c: Conjunction, done: set<Constraint>, toRemove: set<Constraint>, toJoin: set<Constraint>)
  {
    && (forall j :: j in toRemove ==>
          (j in done && Tightens(Verdict(test, c, j)))
          || exists k :: k in done && Verdict(test, c, k).sign == S.Gtz && Answers(j, k.exp, false))
    && (forall q :: q in toJoin ==> exists k :: k in done && JoinedFor(q, k, Verdict(test, c, k)))
  }

  /**
   * How the scan ends, in terms of the verdicts: NoPoint when some
   * inequality is LTZ or ABSURD; Dropped for a GEZ or GTZ inequality of a
   * system without variables; otherwise no verdict stopped the scan, and
   * the sets to remove and to join are those the verdicts call for.
   */
  ghost predicate ScanEnds(test: Oracle, c: Conjunction, o: Tightened)
  {
    match o
    case NoPoint => exists k :: k in c.ineqs && Verdict(test, c, k).sign in {S.Ltz, S.Absurd}
    case Dropped(k) => k in c.ineqs && c.vars == {} && Verdict(test, c, k).sign in {S.Gez, S.Gtz}
    case Replaced(toRemove, toJoin) =>
      Passed(test, c, c.ineqs) && Collected(test, c, c.ineqs, toRemove, toJoin) && Sourced(test, c, c.ineqs, toRemove, toJoin)
  }

  /** An inequality whose verdict does not tighten it leaves both sets as they are. */
  lemma CollectSkip(test: Oracle, c: Conjunction, done: set<Constraint>, toRemove: set<Constraint>, toJoin: set<Constraint>, k: Constraint)
    requires !Tightens(Verdict(test, c, k))
    requires Collected(test, c, done, toRemove, toJoin) && Sourced(test, c, done, toRemove, toJoin)
    ensures Collected(test, c, done + {k}, toRemove, toJoin) && Sourced(test, c, done + {k}, toRemove, toJoin)
  {
  }

  /** ZERO or LEZ: the inequality is removed and the equality of its form joined. */
  lemma CollectEquality(test: Oracle, c: Conjunction, done: set<Constraint>, toRemove: set<Constraint>, toJoin: set<Constraint>,
                        k: Constraint, eqK: Constraint)
    requires Verdict(test, c, k).sign in {S.Zero, S.Lez} && Answers(eqK, k.exp, true)
    requires Collected(test, c, done, toRemove, toJoin) && Sourced(test, c, done, toRemove, toJoin)
    ensures Collected(test, c, done + {k}, toRemove + {k}, toJoin + {eqK})
    ensures Sourced(test, c, done + {k}, toRemove + {k}, toJoin + {eqK})
  {
    CollectJoined(test, c, done, toRemove, toJoin, k, {k}, eqK);
    SourceJoined(test, c, done, toRemove, toJoin, k, {k}, eqK);
  }

  /** Removing `k` (and more) and joining `q` for it keeps every tightened inequality collected. */
  lemma CollectJoined(test: Oracle, c: Conjunction, done: set<Constraint>, toRemove: set<Constraint>, toJoin: set<Constraint>,
                      k: Constraint, more: set<Constraint>, q: Constraint)
    requires k in more && JoinedFor(q, k, Verdict(test, c, k))
    requires Collected(test, c, done, toRemove, toJoin)
    ensures Collected(test, c, done + {k}, toRemove + more, toJoin + {q})
  {
    forall m | m in done + {k} && Tightens(Verdict(test, c, m))
      ensures m in toRemove + more && exists q' :: q' in toJoin + {q} && JoinedFor(q', m, Verdict(test, c, m))
    {
      if m == k {
        assert q in toJoin + {q};
      } else {
        var q' :| q' in toJoin && JoinedFor(q', m, Verdict(test, c, m));
        assert q' in toJoin + {q};
      }
    }
  }

  /** What is removed and joined for `k`, whose verdict tightens it, comes from `k`. */
  lemma SourceJoined(test: Oracle, c: Conjunction, done: set<Constraint>, toRemove: set<Constraint>, toJoin: set<Constraint>,
                     k: Constraint, more: set<Constraint>, q: Constraint)
    requires Tightens(Verdict(test, c, k)) && JoinedFor(q, k, Verdict(test, c, k))
    requires forall j :: j in more && j != k ==> Verdict(test, c, k).sign == S.Gtz && Answers(j, k.exp, false)
    requires Sourced(test, c, done, toRemove, toJoin)
    ensures Sourced(test, c, done + {k}, toRemove + more, toJoin + {q})
  {
    forall j | j in toRemove + more
      ensures (j in done + {k} && Tightens(Verdict(test, c, j)))
              || exists m :: m in done + {k} && Verdict(test, c, m).sign == S.Gtz && Answers(j, m.exp, false)
    {
      if j == k {
      } else if j in more {
        assert k in done + {k};
      } else if !(j in done && Tightens(Verdict(test, c, j))) {
        var m :| m in done && Verdict(test, c, m).sign == S.Gtz && Answers(j, m.exp, false);
        assert m in done + {k};
      }
    }
    forall q' | q' in toJoin + {q}
      ensures exists m :: m in done + {k} && JoinedFor(q', m, Verdict(test, c, m))
    {
      if q' == q {
        assert k in done + {k};
      } else {
        var m :| m in done && JoinedFor(q', m, Verdict(test, c, m));
        assert m in done + {k};
      }
    }
  }

  /** GTZ: the inequality and the store's inequality of its form are removed, and the composed inequality joined. */
  lemma CollectStrict(test: Oracle, c: Conjunction, done: set<Constraint>, toRemove: set<Constraint>, toJoin: set<Constraint>,
                      k: Constraint, newK: Constraint, sameK: Constraint)
    requires Verdict(test, c, k).sign == S.Gtz
    requires Answers(newK, Compose(Verdict(test, c, k), k.exp), false) && Answers(sameK, k.exp, false)
    requires Collected(test, c, done, toRemove, toJoin) && Sourced(test, c, done, toRemove, toJoin)
    ensures Collected(test, c, done + {k}, toRemove + {k, sameK}, toJoin + {newK})
    ensures Sourced(test, c, done + {k}, toRemove + {k, sameK}, toJoin + {newK})
  {
    CollectJoined(test, c, done, toRemove, toJoin, k, {k, sameK}, newK);
    SourceJoined(test, c, done, toRemove, toJoin, k, {k, sameK}, newK);
  }

  /**
   * The state of the loop of `tightening` after the inequalities `done`:
   * none of them stopped the scan, the sets hold what their verdicts call
   * for and nothing else, and under a sound tester what is joined is implied
   * and stronger than what is removed.
   */
  ghost predicate Scanned(test: Oracle, c: Conjunction, done: set<Constraint>, toRemove: set<Constraint>, toJoin: set<Constraint>)
  {
    && Passed(test, c, done) && Collected(test, c, done, toRemove, toJoin) && Sourced(test, c, done, toRemove, toJoin)
    && (SoundTester(test) ==> Implied(c, toJoin) && Stronger(toJoin, toRemove))
  }

  /**
   * One iteration of the loop of `tightening`: the inequality `k` is tested
   * against the rest of `c`. The outcome is NoPoint or Dropped when the
   * scan stops at `k`, and otherwise the sets to remove and join with what
   * `k` calls for added.
   */
  method ScanOne(st: Store, test: Oracle, c: Conjunction, ghost done: set<Constraint>,
                 toRemove: set<Constraint>, toJoin: set<Constraint>, k: Constraint) returns (o: Tightened)
    requires st.Valid() && WellFormed(c) && k in c.ineqs
    requires Scanned(test, c, done, toRemove, toJoin)
    modifies st
    ensures st.Valid() && Extends(old(st.table), st.table)
    ensures o.NoPoint? ==> Verdict(test, c, k).sign in {S.Ltz, S.Absurd}
    ensures o.NoPoint? && SoundTester(test) ==> forall x :: !Sat(c, x)
    ensures o.Dropped? ==> o.k == k && c.vars == {} && Verdict(test, c, k).sign in {S.Gez, S.Gtz}
    ensures o.Replaced? ==> Scanned(test, c, done + {k}, o.toRemove, o.toJoin)
  {
    var other, _ := RemoveJoin(c, {k}, {});
    var tr := test(TesterSystem(other), k.exp);
    assert tr == Verdict(test, c, k);
    match tr.sign {
      case Absurd =>
        if SoundTester(test) {
          TightenAbsurdStep(test, c, k);
        }
        return NoPoint;
      case Ltz =>
        if SoundTester(test) {
          TightenAbsurdStep(test, c, k);
        }
        return NoPoint;
      case Zero =>
        var eqK := Intern(st, k.exp, true);
        o := Equated(test, c, done, toRemove, toJoin, k, eqK);
      case Lez =>
        var eqK := Intern(st, k.exp, true);
        o := Equated(test, c, done, toRemove, toJoin, k, eqK);
      case Gez =>
        if c.vars == {} {
          return Dropped(k);
        }
        CollectSkip(test, c, done, toRemove, toJoin, k);
        o := Replaced(toRemove, toJoin);
      case Gtz =>
        if c.vars == {} {
          return Dropped(k);
        }
        var newK := Intern(st, Compose(tr, k.exp), false);
        var sameK := Intern(st, k.exp, false);
        if SoundTester(test) {
          TightenStrictStep(test, c, k, tr, newK, sameK);
          ImpliedUnion(c, toJoin, {newK});
          StrongerUnion(toJoin, toRemove, {newK}, {k, sameK});
        }
        CollectStrict(test, c, done, toRemove, toJoin, k, newK, sameK);
        o := Replaced(toRemove + {k, sameK}, toJoin + {newK});
      case Unknown =>
        CollectSkip(test, c, done, toRemove, toJoin, k);
        o := Replaced(toRemove, toJoin);
    }
  }

  /** The ZERO and LEZ branch of `tightening`: the inequality gives way to the equality of its form. */
  method Equated(test: Oracle, c: Conjunction, ghost done: set<Constraint>,
                 toRemove: set<Constraint>, toJoin: set<Constraint>, k: Constraint, eqK: Constraint) returns (o: Tightened)
    requires WellFormed(c) && k in c.ineqs && Verdict(test, c, k).sign in {S.Zero, S.Lez} && Answers(eqK, k.exp, true)
    requires Scanned(test, c, done, toRemove, toJoin)
    ensures o == Replaced(toRemove + {k}, toJoin + {eqK})
    ensures Scanned(test, c, done + {k}, o.toRemove, o.toJoin)
  {
    if SoundTester(test) {
      EquatedSound(test, c, toRemove, toJoin, k, eqK);
    }
    CollectEquality(test, c, done, toRemove, toJoin, k, eqK);
    PassedStep(test, c, done, k);
    o := Replaced(toRemove + {k}, toJoin + {eqK});
  }

  /** An inequality whose verdict does not stop the scan keeps every verdict so far passing. */
  lemma PassedStep(test: Oracle, c: Conjunction, done: set<Constraint>, k: Constraint)
    requires Passed(test, c, done)
    requires Verdict(test, c, k).sign !in {S.Ltz, S.Absurd} && (c.vars == {} ==> Verdict(test, c, k).sign !in {S.Gez, S.Gtz})
    ensures Passed(test, c, done + {k})
  {
  }

  /** Under a sound tester, the equality joined for a ZERO or LEZ verdict is implied and stronger than what it replaces. */
  lemma EquatedSound(test: Oracle, c: Conjunction, toRemove: set<Constraint>, toJoin: set<Constraint>, k: Constraint, eqK: Constraint)
    requires SoundTester(test) && WellFormed(c) && k in c.ineqs
    requires Verdict(test, c, k).sign in {S.Zero, S.Lez} && Answers(eqK, k.exp, true)
    requires Implied(c, toJoin) && Stronger(toJoin, toRemove)
    ensures Implied(c, toJoin + {eqK}) && Stronger(toJoin + {eqK}, toRemove + {k})
  {
    forall x ensures Satisfies(eqK, x) <==> HoldsAt(k.exp, true, x) {
      AnswersMeaning(eqK, k.exp, true, x);
    }
    TightenEqualityStep(test, c, k, eqK);
    ImpliedUnion(c, toJoin, {eqK});
    StrongerUnion(toJoin, toRemove, {eqK}, {k});
  }

  /**
   * The loop of `tightening` over the inequalities of `c`, each tested
   * against the system without it. It stops at an LTZ or ABSURD verdict
   * (the system has no point) and, without variables, at a GEZ or GTZ
   * verdict (that inequality is to be dropped); otherwise it collects what
   * the verdicts call for removing and joining.
   */
  method ScanInequalities(st: Store, test: Oracle, c: Conjunction) returns (o: Tightened)
    requires st.Valid() && WellFormed(c)
    modifies st
    ensures st.Valid() && Extends(old(st.table), st.table)
    ensures ScanEnds(test, c, o)
    ensures o.NoPoint? && SoundTester(test) ==> forall x :: !Sat(c, x)
    ensures o.Dropped? ==> o.k in c.ineqs && Verdict(test, c, o.k).sign in {S.Gez, S.Gtz}
    ensures o.Replaced? && (o.toRemove != {} || o.toJoin != {}) ==> c.ineqs != {}
    ensures o.Replaced? && SoundTester(test) ==> Implied(c, o.toJoin) && Stronger(o.toJoin, o.toRemove)
  {
    var toRemove: set<Constraint>, toJoin: set<Constraint> := {}, {};
    var rest := c.ineqs;
    ghost var done: set<Constraint> := {};
    while rest != {}
      invariant rest <= c.ineqs && done == c.ineqs - rest
      invariant st.Valid() && Extends(old(st.table), st.table)
      invariant (toRemove != {} || toJoin != {}) ==> c.ineqs != {}
      invariant Scanned(test, c, done, toRemove, toJoin)
      decreases rest
    {
      var k :| k in rest;
      rest := rest - {k};
      var step := ScanOne(st, test, c, done, toRemove, toJoin, k);
      if !step.Replaced? {
        return step;
      }
      toRemove, toJoin := step.toRemove, step.toJoin;
      done := done + {k};
    }
    return Replaced(toRemove, toJoin);
  }

  // ----- getRoots -----

  /**
   * The size `getRoots` files a constraint under: the number of terms of a
   * sum, and 1 for a single term or a number.
   */
  function RootSize(e: Lin): (n: nat)
    ensures n >= 1 && n >= TermCount(e)
  {
    if TermCount(e) >= 2 then TermCount(e) else 1
  }

  /** The sentinel `getRoots` starts its minimum from. */
  const NO_SIZE: nat := 99999999

  /** The constraints of `all` of size `n`. */
  function Bucket(all: set<Constraint>, n: nat): (b: set<Constraint>)
    ensures b <= all
  {
    set k | k in all && RootSize(k.exp) == n
  }

  /** The constraints of `all` of size at most `n`. */
  function UpTo(all: set<Constraint>, n: int): (b: set<Constraint>)
    ensures b <= all
  {
    set k | k in all && RootSize(k.exp) <= n
  }

  /** The verdict `getRoots` takes as showing a constraint redundant, as written: GEZ, GTZ or ZERO, whatever its kind. */
  predicate RootImpliedAsWritten(k: Constraint, tr: S.TestResult)
  {
    tr.sign in {S.Gez, S.Gtz, S.Zero}
  }

  /**
   * The verdict that shows a constraint redundant: ZERO for an equality,
   * GEZ, GTZ or ZERO for an inequality.
   */
  predicate RootImplied(k: Constraint, tr: S.TestResult)
  {
    if k.eq then tr.sign == S.Zero else tr.sign in {S.Gez, S.Gtz, S.Zero}
  }

  /** A verdict taken as showing a constraint redundant makes it hold wherever the verdict holds. */
  lemma RootImpliedSound(k: Constraint, tr: S.TestResult, x: Point)
    requires RootImplied(k, tr) && S.Holds(tr, Value(k.exp, x) as real)
    ensures Satisfies(k, x)
  {
  }

  /**
   * As written, an equality `x0 + x1 = 0` tested GEZ against
   * `{x0 >= 0, x1 >= 0}` is dropped: the verdict is one a sound tester may
   * give, yet at the point (1, 0) the verdict holds and the equality fails,
   * so dropping it enlarges the system.
   */
  lemma RootImpliedAsWrittenDropsEquality()
    ensures var k := Constraint(Lin(0, [1, 1]), 2, true);
      var tr := S.TestResult(S.Gez, 0.0);
      var x: Point := v => if v == 0 then 1 else 0;
      && RootImpliedAsWritten(k, tr) && !RootImplied(k, tr)
      && (forall y: Point :: y(0) >= 0 && y(1) >= 0 ==> S.Holds(tr, Value(k.exp, y) as real))
      && x(0) >= 0 && x(1) >= 0 && S.Holds(tr, Value(k.exp, x) as real) && !Satisfies(k, x)
  {
    var k := Constraint(Lin(0, [1, 1]), 2, true);
    forall y: Point
      ensures Value(k.exp, y) == y(0) + y(1)
    {
      assert Partial(k.exp.a, y, 2) == y(0) + y(1);
    }
  }

  /** No constraint of `all` is smaller than `k`. */
  predicate Smallest(all: set<Constraint>, k: Constraint)
  {
    forall j :: j in all ==> RootSize(k.exp) <= RootSize(j.exp)
  }

  /** Every constraint of `before` of the smallest size (below the sentinel) is in `after`. */
  ghost predicate KeepsSmallest(before: set<Constraint>, after: set<Constraint>)
  {
    forall k :: k in before && RootSize(k.exp) < NO_SIZE && Smallest(before, k) ==> k in after
  }

  /** The constraints sit in the set of their kind. */
  predicate KindSeparated(c: Conjunction)
  {
    (forall k :: k in c.eqs ==> k.eq) && (forall k :: k in c.ineqs ==> !k.eq)
  }

  /** The constraints of `c`, of both kinds. */
  function Members(c: Conjunction): set<Constraint>
  {
    c.eqs + c.ineqs
  }

  /**
   * `s` is a system `getRoots` may have tested `k` against, given the
   * constraints `kept` in the end: kept constraints only, all of those
   * smaller than `k`, and none larger.
   */
  predicate TestedWith(s: Conjunction, kept: set<Constraint>, k: Constraint)
  {
    && KindSeparated(s)
    && Members(s) <= kept
    && (forall j :: j in kept && RootSize(j.exp) < RootSize(k.exp) ==> j in Members(s))
    && (forall j :: j in Members(s) ==> RootSize(j.exp) <= RootSize(k.exp))
  }

  /** `k` was dropped: tested against such a system, its verdict showed it redundant. */
  ghost predicate DroppedAt(test: Oracle, kept: set<Constraint>, k: Constraint)
  {
    exists s :: TestedWith(s, kept, k) && RootImplied(k, test(TesterSystem(s), k.exp))
  }

  /** `k` was kept: tested against such a system, its verdict was neither ABSURD nor one showing it redundant. */
  ghost predicate KeptAt(test: Oracle, kept: set<Constraint>, k: Constraint)
  {
    exists s :: TestedWith(s, kept, k)
      && test(TesterSystem(s), k.exp).sign != S.Absurd && !RootImplied(k, test(TesterSystem(s), k.exp))
  }

  /** Keeping more constraints, none smaller than those already tested, leaves every earlier verdict in place. */
  lemma VerdictsWiden(test: Oracle, kept: set<Constraint>, kept': set<Constraint>,
                      dropped: set<Constraint>, held: set<Constraint>, n: nat)
    requires kept <= kept' && forall j :: j in kept' - kept ==> RootSize(j.exp) >= n
    requires forall k :: k in dropped + held ==> RootSize(k.exp) <= n
    requires forall k {:trigger DroppedAt(test, kept, k)} :: k in dropped ==> DroppedAt(test, kept, k)
    requires forall k {:trigger KeptAt(test, kept, k)} :: k in held ==> KeptAt(test, kept, k)
    ensures forall k {:trigger DroppedAt(test, kept', k)} :: k in dropped ==> DroppedAt(test, kept', k)
    ensures forall k {:trigger KeptAt(test, kept', k)} :: k in held ==> KeptAt(test, kept', k)
  {
    forall k | k in dropped
      ensures DroppedAt(test, kept', k)
    {
      assert DroppedAt(test, kept, k);
      var s :| TestedWith(s, kept, k) && RootImplied(k, test(TesterSystem(s), k.exp));
      assert TestedWith(s, kept', k);
    }
    forall k | k in held
      ensures KeptAt(test, kept', k)
    {
      assert KeptAt(test, kept, k);
      var s :| TestedWith(s, kept, k)
        && test(TesterSystem(s), k.exp).sign != S.Absurd && !RootImplied(k, test(TesterSystem(s), k.exp));
      assert TestedWith(s, kept', k);
    }
  }

  /** Joining one constraint other than TRUE and FALSE adds exactly that constraint. */
  lemma JoinOne(c: Conjunction, k: Constraint)
    requires KindSeparated(c) && k != TrueC && k != FalseC
    ensures Members(RemoveJoinSpec(c, {}, {k}).0) == Members(c) + {k}
    ensures KindSeparated(RemoveJoinSpec(c, {}, {k}).0)
  {
    assert c != Absurd by {
      assert FalseC in Absurd.eqs && !FalseC.eq;
    }
    var none: set<Constraint> := {};
    assert OfKind(none, true) == {} && OfKind(none, false) == {};
    assert {k} - {TrueC} == {k};
  }

  /** The loops of `getRoots` that find the smallest and the largest size. */
  method SizeRange(all: set<Constraint>) returns (lo: nat, hi: nat)
    ensures lo <= NO_SIZE
    ensures all == {} ==> lo == NO_SIZE && hi == 0
    ensures forall k :: k in all ==> lo <= RootSize(k.exp) <= hi
    ensures lo < NO_SIZE ==> exists k :: k in all && RootSize(k.exp) == lo
  {
    lo, hi := NO_SIZE, 0;
    var rest := all;
    while rest != {}
      invariant rest <= all && lo <= NO_SIZE
      invariant rest == all ==> lo == NO_SIZE && hi == 0
      invariant forall k :: k in all - rest ==> lo <= RootSize(k.exp) <= hi
      invariant lo < NO_SIZE ==> exists k :: k in all - rest && RootSize(k.exp) == lo
      decreases rest
    {
      var k :| k in rest;
      var n := RootSize(k.exp);
      if n > hi {
        hi := n;
      }
      if n < lo {
        lo := n;
      }
      rest := rest - {k};
    }
  }

  /** A conjunction holds exactly where all its constraints do. */
  lemma SatMembers(c: Conjunction, x: Point)
    ensures Sat(c, x) <==> AllSat(Members(c), x)
  {
  }

  /** Under a sound tester, a constraint dropped against the constraints kept holds wherever they all hold. */
  lemma DroppedHolds(test: Oracle, kept: set<Constraint>, k: Constraint, x: Point)
    requires SoundTester(test) && DroppedAt(test, kept, k) && AllSat(kept, x)
    ensures Satisfies(k, x)
  {
    var s :| TestedWith(s, kept, k) && RootImplied(k, test(TesterSystem(s), k.exp));
    SatMembers(s, x);
    TesterSystemMeaning(s, x);
    RootImpliedSound(k, test(TesterSystem(s), k.exp), x);
  }

  /** Under a sound tester, an ABSURD verdict against a system leaves the system without a point. */
  lemma AbsurdHolds(test: Oracle, s: Conjunction, e: Lin, x: Point)
    requires SoundTester(test) && KindSeparated(s) && test(TesterSystem(s), e).sign == S.Absurd
    ensures !Sat(s, x)
  {
    TesterSystemMeaning(s, x);
  }

  /** Under a sound tester, the constraints dropped from `all` hold wherever those kept do. */
  lemma KeptMeaning(test: Oracle, all: set<Constraint>, kept: set<Constraint>, x: Point)
    requires SoundTester(test) && kept <= all
    requires forall k {:trigger DroppedAt(test, kept, k)} :: k in all - kept ==> DroppedAt(test, kept, k)
    ensures AllSat(kept, x) <==> AllSat(all, x)
  {
    if AllSat(kept, x) {
      forall k | k in all
        ensures Satisfies(k, x)
      {
        if k !in kept {
          DroppedHolds(test, kept, k, x);
        }
      }
    }
  }

  /**
   * The inner loop of `getRoots` over one bucket of constraints of size
   * `n`, all larger than those of `nc`: each is tested against the system
   * gathered so far; ABSURD stops the loop, a verdict showing it redundant
   * counts it as removed, any other verdict joins it. `kept` names the
   * constraints joined.
   */
  method RootsBucket(test: Oracle, nc: Conjunction, bucket: set<Constraint>, ghost n: nat)
    returns (nc': Conjunction, removed: nat, noPoint: bool, ghost kept: set<Constraint>)
    requires KindSeparated(nc) && FalseC !in bucket && TrueC !in bucket
    requires forall k :: k in bucket ==> RootSize(k.exp) == n
    requires forall j :: j in Members(nc) ==> RootSize(j.exp) < n
    ensures KindSeparated(nc') && kept <= bucket && Members(nc') == Members(nc) + kept
    ensures noPoint ==> exists k :: k in bucket && test(TesterSystem(nc'), k.exp).sign == S.Absurd
    ensures !noPoint ==> removed == |bucket - kept|
    ensures !noPoint ==> forall k {:trigger DroppedAt(test, Members(nc'), k)} :: k in bucket - kept ==> DroppedAt(test, Members(nc'), k)
    ensures !noPoint ==> forall k {:trigger KeptAt(test, Members(nc'), k)} :: k in kept ==> KeptAt(test, Members(nc'), k)
  {
    nc', removed, noPoint, kept := nc, 0, false, {};
    ghost var dropped: set<Constraint> := {};
    var rest := bucket;
    while rest != {}
      invariant Partition(bucket, rest, kept, dropped)
      invariant removed == |dropped|
      invariant Bucketed(test, nc, nc', kept, dropped)
      decreases rest
    {
      var k :| k in rest;
      PartitionStep(bucket, rest, kept, dropped, k);
      rest := rest - {k};
      var next, drop, stop := BucketStep(test, nc, nc', k, n, kept, dropped);
      if stop {
        PartitionEnd(bucket, rest, kept + {k}, dropped);
        return nc', removed, true, kept;
      } else if drop {
        dropped := dropped + {k};
        removed := removed + 1;
      } else {
        nc' := next;
        kept := kept + {k};
      }
    }
    PartitionEnd(bucket, {}, kept, dropped);
  }

  /**
   * One iteration of the inner loop of `getRoots`: `k` is tested against
   * `cur`, the system gathered so far. ABSURD stops the loop, a verdict
   * showing `k` redundant drops it, and otherwise `k` is joined.
   */
  method BucketStep(test: Oracle, base: Conjunction, cur: Conjunction, k: Constraint, ghost n: nat,
                    ghost kept: set<Constraint>, ghost dropped: set<Constraint>)
    returns (next: Conjunction, drop: bool, stop: bool)
    requires k != TrueC && k != FalseC && RootSize(k.exp) == n
    requires forall j :: j in Members(base) ==> RootSize(j.exp) < n
    requires forall j :: j in kept + dropped ==> RootSize(j.exp) == n
    requires Bucketed(test, base, cur, kept, dropped)
    ensures stop ==> test(TesterSystem(cur), k.exp).sign == S.Absurd
    ensures !stop && drop ==> Bucketed(test, base, cur, kept, dropped + {k})
    ensures !stop && !drop ==> Bucketed(test, base, next, kept + {k}, dropped)
  {
    next, drop, stop := cur, false, false;
    var tr := test(TesterSystem(cur), k.exp);
    if tr.sign == S.Absurd {
      stop := true;
    } else if RootImplied(k, tr) {
      assert TestedWith(cur, Members(cur), k);
      drop := true;
    } else {
      var changed;
      next, changed := RemoveJoin(cur, {}, {k});
      KeepOne(test, base, cur, k, kept, dropped, n);
    }
  }

  /**
   * The state of the inner loop of `getRoots`: `cur` holds the constraints
   * of `base` and those `kept`, and each constraint dropped or kept got its
   * verdict against a system of `cur`.
   */
  ghost predicate Bucketed(test: Oracle, base: Conjunction, cur: Conjunction, kept: set<Constraint>, dropped: set<Constraint>)
  {
    && KindSeparated(cur) && Members(cur) == Members(base) + kept
    && (forall j {:trigger DroppedAt(test, Members(cur), j)} :: j in dropped ==> DroppedAt(test, Members(cur), j))
    && (forall j {:trigger KeptAt(test, Members(cur), j)} :: j in kept ==> KeptAt(test, Members(cur), j))
  }

  /** `bucket` is split into the constraints still to test, those kept and those dropped. */
  predicate Partition(bucket: set<Constraint>, rest: set<Constraint>, kept: set<Constraint>, dropped: set<Constraint>)
  {
    rest + kept + dropped == bucket && rest !! kept && rest !! dropped && kept !! dropped
  }

  /** Moving one constraint still to test to the kept or to the dropped ones keeps the split. */
  lemma PartitionStep(bucket: set<Constraint>, rest: set<Constraint>, kept: set<Constraint>, dropped: set<Constraint>, k: Constraint)
    requires Partition(bucket, rest, kept, dropped) && k in rest
    ensures Partition(bucket, rest - {k}, kept + {k}, dropped)
    ensures Partition(bucket, rest - {k}, kept, dropped + {k}) && |dropped + {k}| == |dropped| + 1
  {
  }

  /** The kept constraints come from the bucket; once nothing is left to test, the dropped ones are the rest of it. */
  lemma PartitionEnd(bucket: set<Constraint>, rest: set<Constraint>, kept: set<Constraint>, dropped: set<Constraint>)
    requires Partition(bucket, rest, kept, dropped)
    ensures kept <= bucket
    ensures rest == {} ==> dropped == bucket - kept
  {
  }

  /**
   * Joining the constraint `k` of the bucket of size `n` whose verdict
   * against `prev` kept it: the earlier verdicts stay in place and `k` is
   * recorded as kept.
   */
  lemma KeepOne(test: Oracle, base: Conjunction, prev: Conjunction, k: Constraint,
                kept: set<Constraint>, dropped: set<Constraint>, n: nat)
    requires k != TrueC && k != FalseC && RootSize(k.exp) == n
    requires forall j :: j in Members(base) ==> RootSize(j.exp) < n
    requires forall j :: j in kept + dropped ==> RootSize(j.exp) == n
    requires test(TesterSystem(prev), k.exp).sign != S.Absurd && !RootImplied(k, test(TesterSystem(prev), k.exp))
    requires Bucketed(test, base, prev, kept, dropped)
    ensures Bucketed(test, base, RemoveJoinSpec(prev, {}, {k}).0, kept + {k}, dropped)
  {
    var next := RemoveJoinSpec(prev, {}, {k}).0;
    JoinOne(prev, k);
    VerdictsWiden(test, Members(prev), Members(next), dropped, kept, n);
    assert TestedWith(prev, Members(next), k);
  }

  /** The constraints up to size `n = m + 1` are those up to `m` and, apart from them, the bucket of size `n`. */
  lemma UpToStep(all: set<Constraint>, m: nat, n: nat)
    requires n == m + 1
    ensures UpTo(all, n) == UpTo(all, m) + Bucket(all, n)
    ensures UpTo(all, m) !! Bucket(all, n)
  {
  }

  /**
   * Offering the bucket of size `n = m + 1` to the constraints `before`
   * kept up to `m` leaves out those up to `m` left out before and the
   * bucket's own.
   */
  lemma CountStep(all: set<Constraint>, m: nat, n: nat, before: set<Constraint>, kept: set<Constraint>)
    requires n == m + 1 && before <= UpTo(all, m) && kept <= Bucket(all, n)
    ensures before + kept <= UpTo(all, n)
    ensures UpTo(all, n) - (before + kept) == (UpTo(all, m) - before) + (Bucket(all, n) - kept)
    ensures |UpTo(all, n) - (before + kept)| == |UpTo(all, m) - before| + |Bucket(all, n) - kept|
  {
    UpToStep(all, m, n);
    assert (UpTo(all, m) - before) !! (Bucket(all, n) - kept);
  }

  /**
   * The body of `getRoots`: the constraints of the smallest size form the
   * starting system, and the larger ones are offered to it bucket by
   * bucket in increasing size. Every constraint left out was shown
   * redundant by the constraints kept up to its size, every larger one
   * kept was not, and `removed` counts those left out.
   */
  method RootsScan(test: Oracle, c: Conjunction) returns (nc: Conjunction, removed: nat, noPoint: bool)
    ensures noPoint ==> AbsurdWithin(test, Members(c))
    ensures noPoint && SoundTester(test) ==> forall x :: !Sat(c, x)
    ensures !noPoint ==> KindSeparated(nc) && RootsKept(test, Members(c), Members(nc))
    ensures !noPoint ==> removed == |Members(c) - Members(nc)|
    ensures !noPoint && SoundTester(test) ==> forall x :: Sat(nc, x) <==> Sat(c, x)
  {
    var all := Members(c);
    ghost var lo, n;
    nc, removed, noPoint, lo, n := RootsBuckets(test, c);
    if noPoint {
      if SoundTester(test) {
        ghost var s, k :| AbsurdAgainst(test, all, s, k);
        ScanAbsurd(test, c, s, k);
      }
      return;
    }
    forall k | k in all && RootSize(k.exp) < NO_SIZE && Smallest(all, k)
      ensures k in Members(nc)
    {
      var j :| j in all && RootSize(j.exp) == lo;
    }
    forall k | k in Members(nc) && !Smallest(all, k)
      ensures RootSize(k.exp) > lo
    {
      var j :| j in all && RootSize(j.exp) < RootSize(k.exp);
    }
    if SoundTester(test) {
      forall x
        ensures Sat(nc, x) <==> Sat(c, x)
      {
        SatMembers(nc, x);
        SatMembers(c, x);
        KeptMeaning(test, all, Members(nc), x);
      }
    }
  }

  /**
   * What `getRoots` keeps of `all`: some of its constraints, among them all
   * of the smallest size; each one left out got a redundancy verdict
   * against kept ones including all smaller kept ones, and each larger one
   * kept got neither that nor ABSURD.
   */
  ghost predicate RootsKept(test: Oracle, all: set<Constraint>, kept: set<Constraint>)
  {
    && kept <= all && KeepsSmallest(all, kept)
    && (forall k {:trigger DroppedAt(test, kept, k)} :: k in all - kept ==> DroppedAt(test, kept, k))
    && (forall k {:trigger KeptAt(test, kept, k)} :: k in kept && !Smallest(all, k) ==> KeptAt(test, kept, k))
  }

  /**
   * Taking over the constraints kept by the scan: the conjunction stays
   * well formed and means what the kept constraints mean, and it changes
   * exactly when some constraint was left out.
   */
  lemma AdoptRoots(test: Oracle, c: Conjunction, nc: Conjunction, removed: nat)
    requires KindSeparated(nc) && RootsKept(test, Members(c), Members(nc))
    requires removed == |Members(c) - Members(nc)|
    ensures WellFormed(c.(eqs := nc.eqs, ineqs := nc.ineqs))
    ensures Members(c.(eqs := nc.eqs, ineqs := nc.ineqs)) == Members(nc)
    ensures forall x :: Sat(c.(eqs := nc.eqs, ineqs := nc.ineqs), x) <==> Sat(nc, x)
    ensures removed > 0 <==> Members(nc) != Members(c)
    ensures removed == 0 ==> RootsKept(test, Members(c), Members(c))
  {
    if removed == 0 {
      assert Members(c) - Members(nc) == {};
      assert Members(nc) == Members(c);
    } else {
      var k :| k in Members(c) - Members(nc);
    }
  }

  /** Constraint `k` of `all` got the verdict ABSURD against system `s` of constraints of `all`. */
  predicate AbsurdAgainst(test: Oracle, all: set<Constraint>, s: Conjunction, k: Constraint)
  {
    k in all && KindSeparated(s) && Members(s) <= all && test(TesterSystem(s), k.exp).sign == S.Absurd
  }

  /** Some constraint of `all` got the verdict ABSURD against a system of constraints of `all`. */
  ghost predicate AbsurdWithin(test: Oracle, all: set<Constraint>)
  {
    exists s, k :: AbsurdAgainst(test, all, s, k)
  }

  /**
   * What holds once the buckets of `all` up to size `n` have been offered:
   * `nc` holds those of the smallest size `lo` and those kept, every one
   * left out was shown redundant, every larger one kept was not, and
   * `removed` counts those left out.
   */
  ghost predicate ScannedUpTo(test: Oracle, all: set<Constraint>, nc: Conjunction, removed: nat, n: nat, lo: nat)
  {
    && 1 <= lo <= n
    && KindSeparated(nc) && Bucket(all, lo) <= Members(nc) <= UpTo(all, n)
    && removed == |UpTo(all, n) - Members(nc)|
    && (forall k {:trigger DroppedAt(test, Members(nc), k)} ::
          k in UpTo(all, n) - Members(nc) ==> DroppedAt(test, Members(nc), k))
    && (forall k {:trigger KeptAt(test, Members(nc), k)} ::
          k in Members(nc) && RootSize(k.exp) > lo ==> KeptAt(test, Members(nc), k))
  }

  /**
   * The loop of `getRoots` over the buckets of the constraints of `c` in
   * increasing size, starting from those of the smallest size `lo` under
   * the variables and parameters of `c`.
   */
  method RootsBuckets(test: Oracle, c: Conjunction) returns (nc: Conjunction, removed: nat, noPoint: bool, ghost lo: nat, ghost n: nat)
    ensures noPoint ==> AbsurdWithin(test, Members(c))
    ensures !noPoint ==> (forall k :: k in Members(c) ==> lo <= RootSize(k.exp)) && lo <= NO_SIZE
    ensures !noPoint && lo < NO_SIZE ==> exists k :: k in Members(c) && RootSize(k.exp) == lo
    ensures !noPoint ==> ScannedUpTo(test, Members(c), nc, removed, n, lo) && UpTo(Members(c), n) == Members(c)
  {
    var all := Members(c);
    var low, hi := SizeRange(all);
    lo := low;
    ScanStart(test, c, lo);
    nc, removed, noPoint, n := ScanFrom(test, all, Split(c.vars, c.pars, Bucket(all, low)), 0, low, hi, lo);
    if !noPoint {
      ScanEnd(all, hi, n);
    }
  }

  /** The buckets of sizes above `size` up to `hi` offered in turn, from the state reached at `size`. */
  method ScanFrom(test: Oracle, all: set<Constraint>, nc0: Conjunction, removed0: nat, size0: nat, hi: nat, ghost lo: nat)
    returns (nc: Conjunction, removed: nat, noPoint: bool, ghost n: nat)
    requires ScannedUpTo(test, all, nc0, removed0, size0, lo)
    ensures noPoint ==> AbsurdWithin(test, all)
    ensures !noPoint ==> ScannedUpTo(test, all, nc, removed, n, lo) && hi <= n
  {
    nc, removed, noPoint := nc0, removed0, false;
    var size := size0;
    while size < hi
      invariant ScannedUpTo(test, all, nc, removed, size, lo)
      decreases hi - size
    {
      nc, removed, noPoint, size := ScanBucket(test, all, nc, removed, size, lo);
      if noPoint {
        n := size;
        return;
      }
    }
    n := size;
  }

  /** Before any bucket is offered, the system holds the constraints of the smallest size and nothing was left out. */
  lemma ScanStart(test: Oracle, c: Conjunction, lo: nat)
    requires 1 <= lo && forall k :: k in Members(c) ==> lo <= RootSize(k.exp)
    ensures ScannedUpTo(test, Members(c), Split(c.vars, c.pars, Bucket(Members(c), lo)), 0, lo, lo)
  {
    assert UpTo(Members(c), lo) == Bucket(Members(c), lo);
  }

  /** Once the largest size is passed, every constraint has been offered. */
  lemma ScanEnd(all: set<Constraint>, hi: nat, n: nat)
    requires hi <= n && forall k :: k in all ==> RootSize(k.exp) <= hi
    ensures UpTo(all, n) == all
  {
  }

  /** One pass of `RootsBuckets`: with the sizes up to `m` done, the bucket of size `m + 1` is offered to the constraints kept so far. */
  method ScanBucket(test: Oracle, all: set<Constraint>, nc: Conjunction, removed: nat, m: nat, ghost lo: nat)
    returns (nc': Conjunction, removed': nat, noPoint: bool, n: nat)
    requires ScannedUpTo(test, all, nc, removed, m, lo)
    ensures n == m + 1
    ensures noPoint ==> AbsurdWithin(test, all)
    ensures !noPoint ==> ScannedUpTo(test, all, nc', removed', n, lo)
  {
    n := m + 1;
    var bucket := Bucket(all, n);
    assert RootSize(FalseC.exp) == 1 && RootSize(TrueC.exp) == 1;
    var found;
    ghost var kept;
    nc', found, noPoint, kept := RootsBucket(test, nc, bucket, n);
    if noPoint {
      ghost var k :| k in bucket && test(TesterSystem(nc'), k.exp).sign == S.Absurd;
      assert AbsurdAgainst(test, all, nc', k);
      return nc', removed, true, n;
    }
    CountStep(all, m, n, Members(nc), kept);
    ghost var held := set k | k in Members(nc) && RootSize(k.exp) > lo;
    assert forall j :: j in Members(nc') - Members(nc) ==> RootSize(j.exp) >= n;
    assert forall k :: k in UpTo(all, m) - Members(nc) ==> RootSize(k.exp) <= n;
    assert forall k :: k in held ==> RootSize(k.exp) <= n;
    VerdictsWiden(test, Members(nc), Members(nc'), UpTo(all, m) - Members(nc), held, n);
    removed' := removed + found;
  }

  /** Under a sound tester, an ABSURD verdict against a system of constraints of `c` leaves `c` without a point. */
  lemma ScanAbsurd(test: Oracle, c: Conjunction, s: Conjunction, k: Constraint)
    requires SoundTester(test) && KindSeparated(s) && Members(s) <= Members(c)
    requires test(TesterSystem(s), k.exp).sign == S.Absurd
    ensures forall x :: !Sat(c, x)
  {
    forall x | Sat(c, x)
      ensures false
    {
      SatMembers(c, x);
      SatMembers(s, x);
      AbsurdHolds(test, s, k.exp, x);
    }
  }

  // ----- selectTarget -----

  /** The degree `selectTarget` starts from, and records when there is no variable. */
  const NO_DEGREE: nat := 99999

  /**
   * What `selectTarget` ranks a variable by: the largest degree of a
   * constraint in it, the number of coefficients of it that are not numbers,
   * and the number of constraints it occurs in.
   */
  datatype Rank = Rank(degree: nat, nonNumeric: nat, bounds: nat)

  /** `a` comes strictly before `b` in the lexicographic order. */
  predicate Below(a: Rank, b: Rank)
  {
    || a.degree < b.degree
    || (a.degree == b.degree && a.nonNumeric < b.nonNumeric)
    || (a.degree == b.degree && a.nonNumeric == b.nonNumeric && a.bounds < b.bounds)
  }

  /** The constraints of `ineqs` that mention `s`. */
  function Bounding(s: Sym, ineqs: set<Constraint>): (b: set<Constraint>)
    ensures b <= ineqs
  {
    set k | k in ineqs && Mentions(k.exp, s)
  }

  /**
   * The rank of `s`. In a linear form a constraint mentioning `s` has
   * degree 1 in it, and its coefficient is a number of degree 0 in every
   * other variable.
   */
  function RankOf(s: Sym, ineqs: set<Constraint>): Rank
  {
    var n := |Bounding(s, ineqs)|;
    Rank(if n > 0 then 1 else 0, 0, n)
  }

  /** The constraints mentioning `s`, counted one constraint at a time. */
  method CountBounds(s: Sym, ineqs: set<Constraint>) returns (n: nat)
    ensures n == |Bounding(s, ineqs)|
  {
    n := 0;
    var rest := ineqs;
    while rest != {}
      invariant rest <= ineqs
      invariant n == |Bounding(s, ineqs - rest)|
      decreases rest
    {
      var k :| k in rest;
      if Mentions(k.exp, s) {
        assert Bounding(s, ineqs - (rest - {k})) == Bounding(s, ineqs - rest) + {k};
        n := n + 1;
      } else {
        assert Bounding(s, ineqs - (rest - {k})) == Bounding(s, ineqs - rest);
      }
      rest := rest - {k};
    }
    assert ineqs - rest == ineqs;
  }

  /**
   * `selectTarget` as written, over the variables in the order `order`: a
   * variable occurring in some constraint is rejected as soon as its running
   * degree reaches the best degree so far, so the later comparisons of
   * coefficients and constraint counts never take effect.
   */
  function SelectAsWritten(order: seq<Sym>, ineqs: set<Constraint>, best: Option<Sym>, degree: nat): Option<Sym>
    decreases |order|
  {
    if |order| == 0 then best
    else
      var r := RankOf(order[0], ineqs);
      if r.bounds > 0 && r.degree >= degree then SelectAsWritten(order[1..], ineqs, best, degree)
      else SelectAsWritten(order[1..], ineqs, Some(order[0]), r.degree)
  }

  /**
   * As written, with `x0` bounded twice and `x1` once, `x0` is chosen
   * although `x1` ranks strictly lower.
   */
  lemma SelectAsWrittenIgnoresBounds()
    ensures var ineqs := {Constraint(Lin(0, [1]), 2, false), Constraint(Lin(1, [1]), 3, false), Constraint(Lin(0, [0, 1]), 4, false)};
      SelectAsWritten([0, 1], ineqs, None, NO_DEGREE) == Some(0) && Below(RankOf(1, ineqs), RankOf(0, ineqs))
  {
    var a, b, c := Constraint(Lin(0, [1]), 2, false), Constraint(Lin(1, [1]), 3, false), Constraint(Lin(0, [0, 1]), 4, false);
    var ineqs := {a, b, c};
    assert Mentions(a.exp, 0) && Mentions(b.exp, 0) && !Mentions(c.exp, 0);
    assert !Mentions(a.exp, 1) && !Mentions(b.exp, 1) && Mentions(c.exp, 1);
    assert Bounding(0, ineqs) == {a, b};
    assert Bounding(1, ineqs) == {c};
  }

  // ----- Motzkin -----

  /** `x` with the value of `v` replaced by `t`. */
  function Assign(x: Point, v: Sym, t: int): (y: Point)
    ensures y(v) == t && forall w :: w != v ==> y(w) == x(w)
  {
    (w: Sym) => if w == v then t else x(w)
  }

  lemma {:induction false} PartialAssign(a: seq<int>, v: Sym, x: Point, t: int, n: nat)
    requires At(a, v) == 0
    ensures Partial(a, Assign(x, v, t), n) == Partial(a, x, n)
  {
    if n > 0 {
      PartialAssign(a, v, x, t, n - 1);
    }
  }

  /** A form without `v` takes the same value whatever `v` is. */
  lemma ValueAssign(e: Lin, v: Sym, x: Point, t: int)
    requires Coef(e, v) == 0
    ensures Value(e, Assign(x, v, t)) == Value(e, x)
  {
    PartialAssign(e.a, v, x, t, |e.a|);
  }

  /** Whether each constraint of `cs` holds does not depend on the value of `v`. */
  ghost predicate FreeOf(cs: set<Constraint>, v: Sym)
  {
    forall k, x, t {:trigger Satisfies(k, Assign(x, v, t))} :: k in cs ==> (Satisfies(k, x) <==> Satisfies(k, Assign(x, v, t)))
  }

  /** A constraint meaning a form without `v` does not depend on `v`. */
  lemma FreeConstraint(k: Constraint, e: Lin, isEq: bool, v: Sym)
    requires forall x :: Satisfies(k, x) <==> HoldsAt(e, isEq, x)
    requires Coef(e, v) == 0
    ensures FreeOf({k}, v)
  {
    forall x, t
      ensures Satisfies(k, x) <==> Satisfies(k, Assign(x, v, t))
    {
      ValueAssign(e, v, x, t);
    }
  }

  /** The sign the sign cache reports for `-q` turned into the sign of `q`. */
  function Mirror(s: S.Sign): S.Sign
  {
    match s
    case Gez => S.Lez
    case Gtz => S.Ltz
    case Lez => S.Gez
    case Ltz => S.Gtz
    case _ => s
  }

  /** A verdict about `-q` holds exactly where its mirror holds about `q`. */
  lemma MirrorHolds(tr: S.TestResult, v: real)
    ensures S.Holds(S.TestResult(Mirror(tr.sign), tr.distance), -v) <==> S.Holds(tr, v)
  {
  }

  /** Every cached sign is the tester's verdict on its form. */
  ghost predicate CacheFaithful(test: Oracle, sys: set<Lin>, cache: map<Lin, S.TestResult>)
  {
    forall p :: p in cache ==> cache[p] == test(sys, p)
  }

  /**
   * The sign of a coefficient in `Motzkin`: the cached sign of `q`, else the
   * mirror of the cached sign of `-q`, else the tester's verdict, which is
   * then cached.
   */
  method CachedSign(test: Oracle, sys: set<Lin>, cache: map<Lin, S.TestResult>, q: Lin)
    returns (res: S.TestResult, cache': map<Lin, S.TestResult>)
    requires CacheFaithful(test, sys, cache)
    ensures CacheFaithful(test, sys, cache')
    ensures q in cache ==> res == cache[q] && cache' == cache
    ensures OracleSound(test) ==> forall x :: SystemHolds(sys, x) ==> S.Holds(res, Value(q, x) as real)
  {
    if q in cache {
      res, cache' := cache[q], cache;
    } else if Neg(q) in cache {
      var r := cache[Neg(q)];
      res, cache' := S.TestResult(Mirror(r.sign), r.distance), cache;
      forall x | OracleSound(test) && SystemHolds(sys, x)
        ensures S.Holds(res, Value(q, x) as real)
      {
        assert S.Holds(test(sys, Neg(q)), Value(Neg(q), x) as real);
        ValueNeg(q, x);
        MirrorHolds(r, Value(Neg(q), x) as real);
      }
    } else {
      res := test(sys, q);
      cache' := cache[q := res];
    }
  }

  /** How the classification loop of `Motzkin` ends. */
  datatype Classified =
    | Refuted
    | Fork(q: Lin, res: S.TestResult)
    | Bounded(remaining: set<Constraint>, lower: set<Constraint>, upper: set<Constraint>, zero: set<Constraint>)

  /** Lower bounds have a positive coefficient of `v`, upper bounds a negative one. */
  predicate Signed(lower: set<Constraint>, upper: set<Constraint>, v: Sym)
  {
    (forall k :: k in lower ==> Coef(k.exp, v) > 0) && (forall k :: k in upper ==> Coef(k.exp, v) < 0)
  }

  /**
   * The classification loop of `Motzkin`: a constraint without `v` is kept
   * aside; otherwise the sign of its coefficient files it as a lower bound
   * (GTZ), an upper bound (LTZ) or in the zero set (ZERO); ABSURD refutes
   * the system and GEZ, LEZ or UNKNOWN stop the loop for a case split.
   */
  method Classify(test: Oracle, sys: set<Lin>, ineqs: set<Constraint>, v: Sym) returns (o: Classified)
    ensures o.Refuted? && OracleSound(test) ==> forall x :: !SystemHolds(sys, x)
    ensures o.Fork? ==> o.res.sign in {S.Gez, S.Lez, S.Unknown}
    ensures o.Fork? && OracleSound(test) ==> forall x :: SystemHolds(sys, x) ==> S.Holds(o.res, Value(o.q, x) as real)
    ensures o.Bounded? ==> o.remaining + o.lower + o.upper + o.zero == ineqs
    ensures o.Bounded? ==> forall k :: k in o.remaining ==> Coef(k.exp, v) == 0
    ensures o.Bounded? && OracleSound(test) ==> forall x :: SystemHolds(sys, x) ==> Signed(o.lower, o.upper, v) && o.zero == {}
  {
    var cache: map<Lin, S.TestResult> := map[];
    var remaining: set<Constraint>, lower: set<Constraint>, upper: set<Constraint>, zero: set<Constraint> := {}, {}, {}, {};
    var rest := ineqs;
    while rest != {}
      invariant rest <= ineqs
      invariant CacheFaithful(test, sys, cache)
      invariant remaining + lower + upper + zero == ineqs - rest
      invariant forall k :: k in remaining ==> Coef(k.exp, v) == 0
      invariant OracleSound(test) ==> forall x :: SystemHolds(sys, x) ==> Signed(lower, upper, v) && zero == {}
      decreases rest
    {
      var k :| k in rest;
      assert ineqs - (rest - {k}) == (ineqs - rest) + {k};
      rest := rest - {k};
      var coef := Coef(k.exp, v);
      if coef == 0 {
        remaining := remaining + {k};
        continue;
      }
      var q := Constant(coef);
      var res;
      res, cache := CachedSign(test, sys, cache, q);
      match res.sign {
        case Absurd =>
          return Refuted;
        case Gtz =>
          lower := lower + {k};
        case Ltz =>
          upper := upper + {k};
        case Zero =>
          zero := zero + {k};
        case _ =>
          return Fork(q, res);
      }
    }
    return Bounded(remaining, lower, upper, zero);
  }

  /** `s` is a variable of `c` that no other variable of `c` ranks below. */
  ghost predicate Least(s: Sym, c: Conjunction)
  {
    s in c.vars && forall w :: w in c.vars ==> !Below(RankOf(w, c.ineqs), RankOf(s, c.ineqs))
  }

  /** The combination of a lower and an upper bound in which `v` cancels: `loCoeff*upRem - upCoeff*loRem`. */
  function Combination(lo: Constraint, up: Constraint, v: Sym): (r: Lin)
    ensures Coef(r, v) == 0
  {
    Combine(Coef(lo.exp, v), Without(up.exp, v), -Coef(up.exp, v), Without(lo.exp, v))
  }

  lemma CrossTerms(a: int, b: int, u: int, l: int, t: int)
    requires a > 0 && b < 0 && u >= 0 && l >= 0
    ensures a * (u - b * t) + (-b) * (l - a * t) == a * u + (-b) * l >= 0
  {
  }

  /** Where a lower and an upper bound hold, their combination is non-negative. */
  lemma CombinationSound(lo: Constraint, up: Constraint, v: Sym, x: Point)
    requires Coef(lo.exp, v) > 0 && Coef(up.exp, v) < 0
    requires Value(lo.exp, x) >= 0 && Value(up.exp, x) >= 0
    ensures Value(Combination(lo, up, v), x) >= 0
  {
    var a, b := Coef(lo.exp, v), Coef(up.exp, v);
    ValueCombine(a, Without(up.exp, v), -b, Without(lo.exp, v), x);
    ValueWithout(lo.exp, v, x);
    ValueWithout(up.exp, v, x);
    CrossTerms(a, b, Value(up.exp, x), Value(lo.exp, x), x(v));
  }

  /** How the cross-combination loops of `Motzkin` end. */
  datatype Crossed = Contradiction | Combined(forms: set<Lin>)

  /** The combinations of every lower bound with every upper bound. */
  ghost function Combinations(lower: set<Constraint>, upper: set<Constraint>, v: Sym): set<Lin>
  {
    set lo, up | lo in lower && up in upper :: Combination(lo, up, v)
  }

  /** No combination mentions `v`. */
  lemma CombinationsFree(lower: set<Constraint>, upper: set<Constraint>, v: Sym)
    ensures forall e :: e in Combinations(lower, upper, v) ==> Coef(e, v) == 0
  {
  }

  /** A combination `Motzkin` leaves out: a non-negative number. */
  predicate Trivial(e: Lin)
  {
    IsNumeric(e) && e.k >= 0
  }

  /** A combination that refutes the system: a negative number. */
  predicate NegativeNumber(e: Lin)
  {
    IsNumeric(e) && e.k < 0
  }

  /**
   * What the cross-combination loops produce: a contradiction comes from a
   * combination that is a negative number; otherwise the forms are 1 and
   * combinations, and every combination is among them unless it is a
   * non-negative number.
   */
  ghost predicate CrossOutcome(lower: set<Constraint>, upper: set<Constraint>, v: Sym, o: Crossed)
  {
    match o
    case Contradiction =>
      exists e :: e in Combinations(lower, upper, v) && NegativeNumber(e)
    case Combined(forms) =>
      && Constant(1) in forms
      && forms <= {Constant(1)} + Combinations(lower, upper, v)
      && forall e :: e in Combinations(lower, upper, v) ==> e in forms || Trivial(e)
  }

  /** One lower bound against every upper bound. */
  method CrossOne(lo: Constraint, lower: set<Constraint>, upper: set<Constraint>, v: Sym, forms: set<Lin>)
    returns (forms': set<Lin>, negative: bool)
    requires lo in lower
    ensures negative ==> exists e :: e in Combinations(lower, upper, v) && NegativeNumber(e)
    ensures !negative ==> forms <= forms' <= forms + Combinations(lower, upper, v)
    ensures !negative ==> forall up :: up in upper ==> Combination(lo, up, v) in forms' || Trivial(Combination(lo, up, v))
  {
    forms', negative := forms, false;
    var rest := upper;
    while rest != {}
      invariant rest <= upper && forms <= forms' <= forms + Combinations(lower, upper, v)
      invariant forall up :: up in upper - rest ==> Combination(lo, up, v) in forms' || Trivial(Combination(lo, up, v))
      decreases rest
    {
      var up :| up in rest;
      rest := rest - {up};
      var newCstr := Combination(lo, up, v);
      assert newCstr in Combinations(lower, upper, v);
      if IsNumeric(newCstr) {
        if newCstr.k < 0 {
          return forms', true;
        }
        continue;
      }
      forms' := forms' + {newCstr};
    }
  }

  /** The cross-combination loops of `Motzkin`: every lower bound against every upper bound, starting from the form 1. */
  method CrossBounds(lower: set<Constraint>, upper: set<Constraint>, v: Sym) returns (o: Crossed)
    ensures CrossOutcome(lower, upper, v, o)
  {
    var forms: set<Lin> := {Constant(1)};
    var rest := lower;
    while rest != {}
      invariant rest <= lower && Constant(1) in forms
      invariant forms <= {Constant(1)} + Combinations(lower, upper, v)
      invariant forall lo, up :: lo in lower - rest && up in upper ==> Combination(lo, up, v) in forms || Trivial(Combination(lo, up, v))
      decreases rest
    {
      var lo :| lo in rest;
      rest := rest - {lo};
      var forms', negative := CrossOne(lo, lower, upper, v, forms);
      if negative {
        return Contradiction;
      }
      forms := forms';
    }
    forall e | e in Combinations(lower, upper, v)
      ensures e in forms || Trivial(e)
    {
      var lo, up :| lo in lower && up in upper && e == Combination(lo, up, v);
    }
    return Combined(forms);
  }

  /** At a point of the bounds with the coefficient signs of `Signed`, no contradiction is found and every form is non-negative. */
  lemma CrossOutcomeSound(lower: set<Constraint>, upper: set<Constraint>, v: Sym, o: Crossed, x: Point)
    requires CrossOutcome(lower, upper, v, o) && Signed(lower, upper, v)
    requires forall k :: k in lower + upper ==> !k.eq && Satisfies(k, x)
    ensures o.Combined? && forall f :: f in o.forms ==> Value(f, x) >= 0
  {
    if o.Contradiction? {
      var e :| e in Combinations(lower, upper, v) && NegativeNumber(e);
      var lo, up :| lo in lower && up in upper && e == Combination(lo, up, v);
      CombinationSound(lo, up, v, x);
      NumericValue(e, x);
    } else {
      forall f | f in o.forms
        ensures Value(f, x) >= 0
      {
        if f == Constant(1) {
          NumericValue(f, x);
        } else {
          assert f in Combinations(lower, upper, v);
          var lo, up :| lo in lower && up in upper && f == Combination(lo, up, v);
          CombinationSound(lo, up, v, x);
        }
      }
    }
  }

  /**
   * The zero-set rows of `Motzkin`: for each constraint whose coefficient
   * was found ZERO, the constraint with `v` set to 0 and both signs of the
   * coefficient are added.
   */
  method AddZeroRows(st: Store, zero: set<Constraint>, v: Sym, remaining: set<Constraint>) returns (remaining': set<Constraint>)
    requires st.Valid()
    modifies st
    ensures st.Valid() && Extends(old(st.table), st.table)
    ensures zero == {} ==> remaining' == remaining
    ensures remaining <= remaining'
    ensures (forall k :: k in remaining ==> !k.eq) ==> forall k :: k in remaining' ==> !k.eq
    ensures FreeOf(remaining, v) ==> FreeOf(remaining', v)
  {
    remaining' := remaining;
    var rest := zero;
    while rest != {}
      invariant rest <= zero && remaining <= remaining'
      invariant st.Valid() && Extends(old(st.table), st.table)
      invariant zero == {} ==> remaining' == remaining
      invariant (forall k :: k in remaining ==> !k.eq) ==> forall k :: k in remaining' ==> !k.eq
      invariant FreeOf(remaining, v) ==> FreeOf(remaining', v)
      decreases rest
    {
      var c :| c in rest;
      rest := rest - {c};
      var q := Constant(Coef(c.exp, v));
      var k1 := Intern(st, Without(c.exp, v), false);
      var k2 := Intern(st, q, false);
      var k3 := Intern(st, Neg(q), false);
      FreeConstraint(k1, Without(c.exp, v), false, v);
      FreeConstraint(k2, q, false, v);
      FreeConstraint(k3, Neg(q), false, v);
      remaining' := remaining' + {k1, k2, k3};
    }
  }

  /** The new constraints of `Motzkin` interned as inequalities and added to the kept ones. */
  method InternForms(st: Store, forms: set<Lin>, v: Sym, remaining: set<Constraint>) returns (remaining': set<Constraint>)
    requires st.Valid()
    modifies st
    ensures st.Valid() && Extends(old(st.table), st.table)
    ensures remaining <= remaining'
    ensures (forall k :: k in remaining ==> !k.eq) ==> forall k :: k in remaining' ==> !k.eq
    ensures FreeOf(remaining, v) && (forall f :: f in forms ==> Coef(f, v) == 0) ==> FreeOf(remaining', v)
    ensures forall x :: AllSat(remaining', x) <==> AllSat(remaining, x) && forall f :: f in forms ==> Value(f, x) >= 0
  {
    remaining' := remaining;
    var rest := forms;
    while rest != {}
      invariant rest <= forms && remaining <= remaining'
      invariant st.Valid() && Extends(old(st.table), st.table)
      invariant (forall k :: k in remaining ==> !k.eq) ==> forall k :: k in remaining' ==> !k.eq
      invariant FreeOf(remaining, v) && (forall f :: f in forms ==> Coef(f, v) == 0) ==> FreeOf(remaining', v)
      invariant forall x :: AllSat(remaining', x) <==> AllSat(remaining, x) && forall f :: f in forms - rest ==> Value(f, x) >= 0
      decreases rest
    {
      var f :| f in rest;
      rest := rest - {f};
      var k := Intern(st, f, false);
      if Coef(f, v) == 0 {
        FreeConstraint(k, f, false, v);
      }
      forall x
        ensures AllSat(remaining' + {k}, x) <==> AllSat(remaining', x) && Value(f, x) >= 0
      {
        assert Satisfies(k, x) <==> HoldsAt(f, false, x);
      }
      remaining' := remaining' + {k};
    }
  }

  /** How the elimination step ends. */
  datatype Step = Refute | Branch(q: Lin, res: S.TestResult) | Reduced(c: Conjunction)

  /**
   * The conjunction `d` replaces `c` with `v` eliminated: `v` is gone from
   * its variables, whether it holds does not depend on `v`, and, when the
   * tester can be trusted, every point of `c` is a point of `d`.
   */
  ghost predicate EliminatedFrom(c: Conjunction, d: Conjunction, v: Sym, trusted: bool)
  {
    && WellFormed(d) && v !in d.vars && d.vars <= c.vars && d.pars <= c.pars
    && (forall x, t :: Sat(d, x) <==> Sat(d, Assign(x, v, t)))
    && (trusted ==> forall x :: Sat(c, x) ==> Sat(d, x))
  }

  /** The system is kept aside, combined and rebuilt without `v`. */
  lemma ReducedMeaning(c: Conjunction, v: Sym, rem: set<Constraint>)
    requires FreeOf(rem, v) && forall k :: k in rem ==> !k.eq
    ensures EliminatedFrom(c, Normalized(c.vars - {v}, c.pars, {}, rem), v, false)
  {
    var d := Normalized(c.vars - {v}, c.pars, {}, rem);
    NormalizedShape(c.vars - {v}, c.pars, {}, rem);
    forall x, t
      ensures Sat(d, x) <==> Sat(d, Assign(x, v, t))
    {
      NormalizedMeaning(c.vars - {v}, c.pars, {}, rem, x);
      NormalizedMeaning(c.vars - {v}, c.pars, {}, rem, Assign(x, v, t));
      assert AllSat(rem, x) <==> AllSat(rem, Assign(x, v, t));
    }
  }

  /**
   * The end of the elimination step: the zero-set rows and the new
   * constraints are added to the constraints without `v`, and the
   * conjunction is rebuilt without `v`.
   */
  method Reduce(st: Store, c: Conjunction, v: Sym, remaining: set<Constraint>, zero: set<Constraint>, forms: set<Lin>)
    returns (d: Conjunction)
    requires st.Valid() && WellFormed(c) && c.eqs == {} && remaining <= c.ineqs
    requires forall k :: k in remaining ==> Coef(k.exp, v) == 0
    requires forall f :: f in forms ==> Coef(f, v) == 0
    modifies st
    ensures st.Valid() && Extends(old(st.table), st.table)
    ensures EliminatedFrom(c, d, v, false)
    ensures forall x :: Sat(c, x) && zero == {} && (forall f :: f in forms ==> Value(f, x) >= 0) ==> Sat(d, x)
  {
    assert FreeOf(remaining, v) by {
      forall k, x, t | k in remaining
        ensures Satisfies(k, x) <==> Satisfies(k, Assign(x, v, t))
      {
        ValueAssign(k.exp, v, x, t);
      }
    }
    var rem0 := AddZeroRows(st, zero, v, remaining);
    var rem := InternForms(st, forms, v, rem0);
    d := Construct(c.vars - {v}, c.pars, c.eqs, rem);
    ReducedMeaning(c, v, rem);
    forall x | Sat(c, x) && zero == {} && (forall f :: f in forms ==> Value(f, x) >= 0)
      ensures Sat(d, x)
    {
      assert AllSat(remaining, x);
      NormalizedMeaning(c.vars - {v}, c.pars, {}, rem, x);
    }
  }

  /**
   * The elimination step of `Motzkin` on the inequalities of `c` for the
   * variable `v`, with the tester built from `sys`.
   */
  method EliminateStep(st: Store, test: Oracle, sys: set<Lin>, c: Conjunction, v: Sym) returns (o: Step)
    requires st.Valid() && WellFormed(c) && c.eqs == {}
    modifies st
    ensures st.Valid() && Extends(old(st.table), st.table)
    ensures var trusted := OracleSound(test) && forall x :: Sat(c, x) ==> SystemHolds(sys, x);
      && (o.Refute? && trusted ==> forall x :: !Sat(c, x))
      && (o.Branch? ==> o.res.sign in {S.Gez, S.Lez, S.Unknown})
      && (o.Branch? && trusted ==> forall x :: Sat(c, x) ==> S.Holds(o.res, Value(o.q, x) as real))
      && (o.Reduced? ==> EliminatedFrom(c, o.c, v, trusted))
  {
    ghost var trusted := OracleSound(test) && forall x :: Sat(c, x) ==> SystemHolds(sys, x);
    assert c != Absurd;
    var cl := Classify(test, sys, c.ineqs, v);
    match cl {
      case Refuted =>
        return Refute;
      case Fork(q, res) =>
        return Branch(q, res);
      case Bounded(remaining, lower, upper, zero) =>
        var cr := CrossBounds(lower, upper, v);
        if trusted {
          forall x | Sat(c, x)
            ensures cr.Combined? && forall f :: f in cr.forms ==> Value(f, x) >= 0
          {
            assert SystemHolds(sys, x);
            CrossOutcomeSound(lower, upper, v, cr, x);
          }
        }
        if cr.Contradiction? {
          return Refute;
        }
        CombinationsFree(lower, upper, v);
        var d := Reduce(st, c, v, remaining, zero, cr.forms);
        if trusted {
          forall x | Sat(c, x)
            ensures Sat(d, x)
          {
            assert SystemHolds(sys, x);
          }
        }
        return Reduced(d);
    }
  }

  /** `c` is exactly the union of `c'` and the forks, each of which implies `c`. */
  ghost predicate SplitsInto(c: Conjunction, c': Conjunction, forks: seq<Conjunction>)
  {
    forall x :: Sat(c, x) <==> Sat(c', x) || exists i :: 0 <= i < |forks| && Sat(forks[i], x)
  }

  /** Some fork holds at `x`. */
  ghost predicate InSomeFork(forks: seq<Conjunction>, x: Point)
  {
    exists i :: 0 <= i < |forks| && Sat(forks[i], x)
  }

  /**
   * The forks of the case split of `Motzkin` on the sign of `q`: `c` with
   * `q - 1 >= 0` unless the sign is LEZ, and `c` with `-q - 1 >= 0` unless
   * it is GEZ.
   */
  method Forks(st: Store, c: Conjunction, q: Lin, res: S.TestResult) returns (forks: seq<Conjunction>)
    requires st.Valid() && res.sign in {S.Gez, S.Lez, S.Unknown}
    modifies st
    ensures st.Valid() && Extends(old(st.table), st.table)
    ensures 1 <= |forks| <= 2
    ensures forall x, i :: 0 <= i < |forks| && Sat(forks[i], x) ==> Sat(c, x)
    ensures forall x :: Sat(c, x) && Value(q, x) >= 1 && res.sign != S.Lez ==> InSomeFork(forks, x)
    ensures forall x :: Sat(c, x) && Value(q, x) <= -1 && res.sign != S.Gez ==> InSomeFork(forks, x)
  {
    if res.sign != S.Lez {
      var k1 := Intern(st, Offset(q, -1), false);
      forks := [AndConstraint(c, k1)];
      forall x | Sat(c, x) && Value(q, x) >= 1
        ensures Sat(forks[0], x)
      {
        ValueOffset(q, -1, x);
      }
    } else {
      forks := [];
    }
    if res.sign != S.Gez {
      var k3 := Intern(st, Complement(q), false);
      ghost var before := forks;
      forks := forks + [AndConstraint(c, k3)];
      forall x | Sat(c, x) && Value(q, x) <= -1
        ensures Sat(forks[|forks| - 1], x)
      {
        ValueComplement(q, x);
      }
      forall x | InSomeFork(before, x)
        ensures InSomeFork(forks, x)
      {
        var i :| 0 <= i < |before| && Sat(before[i], x);
        assert forks[i] == before[i];
      }
    }
  }

  /**
   * The case split of `Motzkin` on a coefficient `q` of unknown sign: the
   * forks of `Forks`, while `c` continues with `q = 0`. When the verdict
   * holds, the three parts cover `c`.
   */
  method SplitOn(st: Store, c: Conjunction, q: Lin, res: S.TestResult) returns (c': Conjunction, forks: seq<Conjunction>)
    requires st.Valid() && WellFormed(c) && res.sign in {S.Gez, S.Lez, S.Unknown}
    modifies st
    ensures st.Valid() && Extends(old(st.table), st.table)
    ensures WellFormed(c') && 1 <= |forks| <= 2
    ensures res.sign == S.Unknown || (forall x :: Sat(c, x) ==> S.Holds(res, Value(q, x) as real)) ==> SplitsInto(c, c', forks)
    ensures forall x :: Sat(c', x) ==> Sat(c, x)
    ensures forall x, i :: 0 <= i < |forks| && Sat(forks[i], x) ==> Sat(c, x)
  {
    forks := Forks(st, c, q, res);
    var kq := Intern(st, q, true);
    RemoveJoinWellFormed(c, {}, {kq});
    var changed;
    c', changed := RemoveJoin(c, {}, {kq});
    forall x
      ensures Sat(c', x) <==> Sat(c, x) && Value(q, x) == 0
    {
      JoinMeaning(c, {kq}, x);
    }
    if res.sign == S.Unknown || (forall x :: Sat(c, x) ==> S.Holds(res, Value(q, x) as real)) {
      forall x | Sat(c, x)
        ensures Sat(c', x) || InSomeFork(forks, x)
      {
      }
    }
  }

  // ----- the simplifier -----

  class Simplifier {
    /** The conjunction being simplified. */
    var conju: Conjunction
    /** The conjunctions handed back: forks and ABSURD. */
    var ret: seq<Conjunction>
    /** The variable chosen for elimination, none before the first choice. */
    var target: Option<Sym>
    var targetDegree: nat
    /** The system the positiveness tester was last built from; empty before the first build. */
    var sys: set<Lin>

    /** The conjunction keeps its constraints sorted by kind. */
    ghost predicate Valid()
      reads this
    {
      WellFormed(conju)
    }

    /** The tester's system holds at every point of the conjunction. */
    ghost predicate TesterFits()
      reads this
    {
      forall x :: Sat(conju, x) ==> SystemHolds(sys, x)
    }

    constructor (c: Conjunction)
      requires WellFormed(c)
      ensures Valid()
      ensures conju == c && ret == [] && target == None && targetDegree == 0 && sys == {}
    {
      conju := c;
      ret := [];
      target := None;
      targetDegree := 0;
      sys := {};
    }

    /** `returnAbsurd`: the conjunction becomes ABSURD and ABSURD is handed back. */
    method ReturnAbsurd()
      modifies this
      ensures conju == Absurd && ret == old(ret) + [Absurd]
      ensures target == old(target) && targetDegree == old(targetDegree) && sys == old(sys)
      ensures Valid() && forall x :: !Sat(conju, x)
    {
      conju := Absurd;
      ret := ret + [Absurd];
      forall x ensures !Sat(conju, x) {
        SatConstants(x);
      }
    }

    /** `build_tester`: the tester is built for the current conjunction. */
    method BuildTester()
      requires Valid()
      modifies this
      ensures Valid() && TesterFits()
      ensures sys == TesterSystem(conju)
      ensures conju == old(conju) && ret == old(ret) && target == old(target) && targetDegree == old(targetDegree)
    {
      sys := TesterSystem(conju);
      forall x | Sat(conju, x)
        ensures SystemHolds(sys, x)
      {
        TesterSystemMeaning(conju, x);
      }
    }

    /**
     * `tightening`: each inequality is tested against the rest of the
     * system. LTZ or ABSURD makes the system ABSURD; ZERO or LEZ turns it
     * into an equality; GTZ replaces it by its composed form, except that
     * without variables a GEZ or GTZ inequality is dropped and tightening
     * starts again. A system of size below 2 is left alone.
     */
    method Tightening(st: Store, test: Oracle) returns (r: bool, ghost o: Tightened)
      requires Valid() && st.Valid()
      modifies this, st
      decreases |conju.ineqs|, 2
      ensures Valid() && st.Valid() && Extends(old(st.table), st.table)
      ensures Size(old(conju)) < 2 ==> !r && conju == old(conju) && sys == old(sys)
      ensures Size(old(conju)) >= 2 ==> ScanEnds(test, old(conju), o)
      ensures Size(old(conju)) >= 2 && o.NoPoint? ==> !r && conju == Absurd && ret == old(ret) + [Absurd]
      ensures Size(old(conju)) >= 2 && o.Dropped? ==> r
      ensures Size(old(conju)) >= 2 && o.Replaced? ==> ret == old(ret) && sys == old(sys)
      ensures Size(old(conju)) >= 2 && o.Replaced? ==>
        (conju, r) == (if o.toRemove == {} && o.toJoin == {} then (old(conju), false)
                       else RemoveJoinSpec(old(conju), o.toRemove, o.toJoin))
      ensures ret == old(ret) || (ret == old(ret) + [Absurd] && conju == Absurd)
      ensures target == old(target) && targetDegree == old(targetDegree)
      ensures SoundTester(test) ==> forall x :: Sat(conju, x) <==> Sat(old(conju), x)
    {
      o := NoPoint;
      if Size(conju) < 2 {
        return false, o;
      }
      var outcome := ScanInequalities(st, test, conju);
      o := outcome;
      r := Conclude(st, test, outcome);
    }

    /** The end of `tightening`, once the scan is over: what its outcome calls for. */
    method Conclude(st: Store, test: Oracle, o: Tightened) returns (r: bool)
      requires Valid() && st.Valid()
      requires o.NoPoint? && SoundTester(test) ==> forall x :: !Sat(conju, x)
      requires o.Dropped? ==> o.k in conju.ineqs && Verdict(test, conju, o.k).sign in {S.Gez, S.Gtz}
      requires o.Replaced? && (o.toRemove != {} || o.toJoin != {}) ==> conju.ineqs != {}
      requires o.Replaced? && SoundTester(test) ==> Implied(conju, o.toJoin) && Stronger(o.toJoin, o.toRemove)
      modifies this, st
      decreases |conju.ineqs|, 1
      ensures Valid() && st.Valid() && Extends(old(st.table), st.table)
      ensures o.NoPoint? ==> !r && conju == Absurd && ret == old(ret) + [Absurd]
      ensures o.Dropped? ==> r
      ensures o.Replaced? ==> ret == old(ret) && sys == old(sys)
      ensures o.Replaced? ==>
        (conju, r) == (if o.toRemove == {} && o.toJoin == {} then (old(conju), false)
                       else RemoveJoinSpec(old(conju), o.toRemove, o.toJoin))
      ensures ret == old(ret) || (ret == old(ret) + [Absurd] && conju == Absurd)
      ensures target == old(target) && targetDegree == old(targetDegree)
      ensures SoundTester(test) ==> forall x :: Sat(conju, x) <==> Sat(old(conju), x)
    {
      match o {
        case NoPoint =>
          ReturnAbsurd();
          return false;
        case Dropped(k) =>
          r := DropAndRestart(st, test, k);
        case Replaced(toRemove, toJoin) =>
          if toJoin == {} && toRemove == {} {
            return false;
          }
          conju, r := Replace(conju, toRemove, toJoin);
      }
    }

    /**
     * `getRoots`: the constraints of the smallest size are kept, each larger
     * one is kept only when the tester cannot show it follows from those
     * kept so far, and the tester is rebuilt when something was dropped.
     * ABSURD from the tester makes the system ABSURD. The result says
     * whether the system changed.
     */
    method GetRoots(test: Oracle) returns (r: bool)
      requires Valid()
      modifies this
      ensures Valid()
      ensures target == old(target) && targetDegree == old(targetDegree)
      ensures ret == old(ret) || (ret == old(ret) + [Absurd] && conju == Absurd && r)
      ensures !r ==> conju == old(conju) && sys == old(sys)
      ensures r && ret == old(ret) ==> sys == TesterSystem(conju)
      ensures ret == old(ret) ==> conju.vars == old(conju).vars && conju.pars == old(conju).pars
      ensures r <==> ret != old(ret) || Members(conju) != Members(old(conju))
      ensures ret != old(ret) ==> AbsurdWithin(test, Members(old(conju)))
      ensures ret == old(ret) ==> RootsKept(test, Members(old(conju)), Members(conju))
      ensures SoundTester(test) ==> forall x :: Sat(conju, x) <==> Sat(old(conju), x)
    {
      var nc, removed, noPoint := RootsScan(test, conju);
      if noPoint {
        ReturnAbsurd();
        assert AbsurdWithin(test, Members(old(conju)));
        return true;
      }
      AdoptRoots(test, conju, nc, removed);
      if removed > 0 {
        conju := conju.(eqs := nc.eqs, ineqs := nc.ineqs);
        BuildTester();
        return true;
      }
      return false;
    }

    /**
     * `selectTarget`: the variable of least rank in the lexicographic order
     * of `Below`, the first one met among equals. Without variables no
     * target is chosen and the degree is left at its sentinel.
     */
    method SelectTarget()
      modifies this
      ensures conju == old(conju) && ret == old(ret) && sys == old(sys)
      ensures conju.vars == {} ==> target == None && targetDegree == NO_DEGREE
      ensures conju.vars != {} ==> target.Some? && Least(target.value, conju)
      ensures conju.vars != {} ==> targetDegree == RankOf(target.value, conju.ineqs).degree
    {
      var best: Option<Sym> := None;
      var bestRank := Rank(NO_DEGREE, NO_DEGREE, NO_DEGREE);
      var rest := conju.vars;
      while rest != {}
        invariant rest <= conju.vars
        invariant conju == old(conju) && ret == old(ret) && sys == old(sys)
        invariant best.None? <==> rest == conju.vars
        invariant best.None? ==> bestRank == Rank(NO_DEGREE, NO_DEGREE, NO_DEGREE)
        invariant best.Some? ==> best.value in conju.vars && bestRank == RankOf(best.value, conju.ineqs)
        invariant forall s :: s in conju.vars - rest ==> !Below(RankOf(s, conju.ineqs), bestRank)
        decreases rest
      {
        var s :| s in rest;
        rest := rest - {s};
        var n := CountBounds(s, conju.ineqs);
        var rank := Rank(if n > 0 then 1 else 0, 0, n);
        if Below(rank, bestRank) {
          best, bestRank := Some(s), rank;
        }
      }
      target := best;
      targetDegree := bestRank.degree;
    }

    /**
     * `Motzkin`: one Fourier-Motzkin step on the target variable, chosen
     * first when no target degree is recorded. The step ends in one of
     * three ways: ABSURD handed back; a case split on the sign of a
     * coefficient, the forks handed back and the conjunction continuing
     * with the coefficient zero; or the target eliminated.
     */
    method Motzkin(st: Store, test: Oracle)
      requires Valid() && st.Valid() && conju.eqs == {} && conju.vars != {}
      requires targetDegree == 0 || target.Some?
      modifies this, st
      ensures Valid() && st.Valid() && Extends(old(st.table), st.table)
      ensures target.Some? && sys == old(sys)
      ensures old(targetDegree) != 0 ==> target == old(target)
      ensures old(targetDegree) == 0 ==> Least(target.value, old(conju))
      ensures var trusted := SoundTester(test) && old(TesterFits());
        || (conju == Absurd && ret == old(ret) + [Absurd] && (trusted ==> forall x :: !Sat(old(conju), x)))
        || (ret == old(ret) && targetDegree == 0 && EliminatedFrom(old(conju), conju, target.value, trusted))
        || (|old(ret)| < |ret| <= |old(ret)| + 2 && ret[..|old(ret)|] == old(ret)
            && (forall x :: Sat(conju, x) ==> Sat(old(conju), x))
            && (trusted ==> SplitsInto(old(conju), conju, ret[|old(ret)|..])))
    {
      if targetDegree == 0 {
        SelectTarget();
      }
      var v := target.value;
      ghost var c0 := conju;
      var step := EliminateStep(st, test, sys, conju, v);
      match step {
        case Refute =>
          ReturnAbsurd();
        case Branch(q, res) =>
          var c', forks := SplitOn(st, conju, q, res);
          conju := c';
          ret := ret + forks;
          assert ret[|old(ret)|..] == forks;
        case Reduced(d) =>
          conju := d;
          targetDegree := 0;
      }
    }

    /** The GEZ/GTZ branch of `tightening` without variables: the inequality is erased, the tester rebuilt, and tightening restarts. */
    method DropAndRestart(st: Store, test: Oracle, k: Constraint) returns (r: bool)
      requires Valid() && st.Valid() && k in conju.ineqs
      requires SoundTester(test) ==> test(TesterSystem(Other(conju, k)), k.exp).sign in {S.Gez, S.Gtz}
      modifies this, st
      decreases |conju.ineqs|, 0
      ensures r
      ensures Valid() && st.Valid() && Extends(old(st.table), st.table)
      ensures ret == old(ret) || (ret == old(ret) + [Absurd] && conju == Absurd)
      ensures target == old(target) && targetDegree == old(targetDegree)
      ensures SoundTester(test) ==> forall x :: Sat(conju, x) <==> Sat(old(conju), x)
    {
      var c0 := conju;
      assert !k.eq;
      if SoundTester(test) {
        TightenDropStep(test, c0, k);
      }
      RemoveJoinWellFormed(c0, {k}, {});
      var changed;
      conju, changed := RemoveJoin(c0, {k}, {});
      assert conju.ineqs <= c0.ineqs - {k};
      BuildTester();
      var _, _ := Tightening(st, test);
      return true;
    }
  }
}
