/**
 * Conjunctions of interned constraints: the variables to eliminate, the
 * parameters to keep, and the sets of equalities and inequalities. A
 * conjunction is a value (the source copies it freely); the operations that
 * edit one in place return the edited value.
 */
module Conjunctions {
  import opened Wrappers
  import SignLattice
  import opened Terms
  import opened Linear
  import opened ConstraintStore

  datatype Conjunction = Conjunction(vars: set<Sym>, pars: set<Sym>, eqs: set<Constraint>, ineqs: set<Constraint>)

  /** The conjunction with no constraint. */
  const Obvious: Conjunction := Conjunction({}, {}, {}, {})

  /** The conjunction holding only FALSE, among its equalities. */
  const Absurd: Conjunction := Conjunction({}, {}, {FalseC}, {})

  /** Every constraint of `s` holds at `x`. */
  predicate AllSat(s: set<Constraint>, x: Point)
  {
    forall k :: k in s ==> Satisfies(k, x)
  }

  /** `x` satisfies the conjunction. */
  predicate Sat(c: Conjunction, x: Point)
  {
    AllSat(c.eqs, x) && AllSat(c.ineqs, x)
  }

  /** Equalities sit in `eqs` and inequalities in `ineqs`, except for the ABSURD marker. */
  predicate WellFormed(c: Conjunction)
  {
    c == Absurd || ((forall k :: k in c.eqs ==> k.eq) && (forall k :: k in c.ineqs ==> !k.eq))
  }

  /** Nothing satisfies ABSURD and everything satisfies OBVIOUS. */
  lemma SatConstants(x: Point)
    ensures !Sat(Absurd, x) && Sat(Obvious, x)
  {
    TrueAndFalse(x);
  }

  // ----- unused symbols -----

  /** Some constraint of `c` has a non-zero coefficient for `v`. */
  predicate Used(c: Conjunction, v: Sym)
  {
    exists k :: k in c.eqs + c.ineqs && Mentions(k.exp, v)
  }

  /** `c` without the variables and parameters none of its constraints mentions. */
  function Pruned(c: Conjunction): (r: Conjunction)
    ensures r.eqs == c.eqs && r.ineqs == c.ineqs
    ensures r.vars <= c.vars && r.pars <= c.pars
    ensures forall v :: v in c.vars + c.pars ==> (v in r.vars + r.pars <==> Used(c, v))
  {
    Conjunction((set v | v in c.vars && Used(c, v)), (set v | v in c.pars && Used(c, v)), c.eqs, c.ineqs)
  }

  /** Pruning twice prunes nothing more, and pruning keeps the meaning. */
  lemma PrunedIdempotent(c: Conjunction, x: Point)
    ensures Pruned(Pruned(c)) == Pruned(c)
    ensures Sat(Pruned(c), x) <==> Sat(c, x)
  {
  }

  /** The symbols of `syms` that some constraint of `c` mentions, found one symbol at a time. */
  method RemoveUnusedFrom(syms: set<Sym>, c: Conjunction) returns (kept: set<Sym>)
    ensures kept == set v | v in syms && Used(c, v)
  {
    kept := {};
    var rest := syms;
    while rest != {}
      invariant rest <= syms
      invariant kept == set v | v in syms - rest && Used(c, v)
      decreases rest
    {
      var v :| v in rest;
      var found := exists k :: k in c.eqs + c.ineqs && Mentions(k.exp, v);
      if found {
        kept := kept + {v};
      }
      rest := rest - {v};
    }
  }

  method RemoveUnused(c: Conjunction) returns (r: Conjunction)
    ensures r == Pruned(c)
  {
    var pars := RemoveUnusedFrom(c.pars, c);
    var vars := RemoveUnusedFrom(c.vars, c);
    r := Conjunction(vars, pars, c.eqs, c.ineqs);
  }

  // ----- construction -----

  /** Some inequality is held together with its negation. */
  predicate HasNegatedPair(ineqs: set<Constraint>)
  {
    exists k :: k in ineqs && Not(k) in ineqs
  }

  /** A constraint and its stored negation never hold together. */
  lemma NegatedPairExcludes(k: Constraint, x: Point)
    ensures !(Satisfies(k, x) && Satisfies(Not(k), x))
  {
    ValueComplement(k.exp, x);
  }

  /**
   * What the five-argument constructor builds: TRUE is dropped, FALSE makes
   * the conjunction ABSURD, no constraint makes it OBVIOUS, and an
   * inequality held with its negation makes it ABSURD; otherwise the unused
   * symbols are removed.
   */
  function Normalized(vars: set<Sym>, pars: set<Sym>, eqs: set<Constraint>, ineqs: set<Constraint>): Conjunction
  {
    var e, i := eqs - {TrueC}, ineqs - {TrueC};
    if FalseC in e || FalseC in i then Absurd
    else if e == {} && i == {} then Obvious
    else if HasNegatedPair(i) then Absurd
    else Pruned(Conjunction(vars, pars, e, i))
  }

  /** The constructed conjunction holds exactly where all the given constraints hold. */
  lemma NormalizedMeaning(vars: set<Sym>, pars: set<Sym>, eqs: set<Constraint>, ineqs: set<Constraint>, x: Point)
    ensures Sat(Normalized(vars, pars, eqs, ineqs), x) <==> AllSat(eqs + ineqs, x)
  {
    TrueAndFalse(x);
    var i := ineqs - {TrueC};
    if HasNegatedPair(i) {
      var k :| k in i && Not(k) in i;
      NegatedPairExcludes(k, x);
    }
  }

  /** The constructed conjunction is ABSURD, OBVIOUS, or keeps exactly the given constraints other than TRUE. */
  lemma NormalizedShape(vars: set<Sym>, pars: set<Sym>, eqs: set<Constraint>, ineqs: set<Constraint>)
    ensures var c := Normalized(vars, pars, eqs, ineqs);
      || (c == Absurd && (FalseC in eqs + ineqs || HasNegatedPair(ineqs - {TrueC})))
      || (c == Obvious && eqs + ineqs <= {TrueC})
      || (c.eqs == eqs - {TrueC} && c.ineqs == ineqs - {TrueC} && c.vars <= vars && c.pars <= pars
          && !HasNegatedPair(c.ineqs) && FalseC !in c.eqs + c.ineqs)
  {
  }

  /** Whether some inequality of `ineqs` is held together with its negation, found one inequality at a time. */
  method FindNegatedPair(ineqs: set<Constraint>) returns (found: bool)
    ensures found <==> HasNegatedPair(ineqs)
  {
    var rest := ineqs;
    while rest != {}
      invariant rest <= ineqs
      invariant forall k :: k in ineqs - rest ==> Not(k) !in ineqs
      decreases rest
    {
      var k :| k in rest;
      if Not(k) in ineqs {
        return true;
      }
      rest := rest - {k};
    }
    return false;
  }

  /**
   * The five-argument constructor. The source scans for a negated pair three
   * times in a row over the same set; the later scans repeat the first one's
   * outcome, so one scan is modelled.
   */
  method Construct(vars: set<Sym>, pars: set<Sym>, eqs: set<Constraint>, ineqs: set<Constraint>) returns (c: Conjunction)
    ensures c == Normalized(vars, pars, eqs, ineqs)
  {
    var e, i := eqs - {TrueC}, ineqs - {TrueC};
    if FalseC in e || FalseC in i {
      return Absurd;
    }
    if e == {} && i == {} {
      return Obvious;
    }
    c := RemoveUnused(Conjunction(vars, pars, e, i));
    var pair := FindNegatedPair(c.ineqs);
    if pair {
      c := Absurd;
    }
  }

  /** The four-argument constructor: the constraints are split by kind. */
  function Split(vars: set<Sym>, pars: set<Sym>, constraints: set<Constraint>): (c: Conjunction)
    ensures WellFormed(c) || FalseC in c.ineqs
    ensures forall x :: Sat(c, x) <==> AllSat(constraints, x)
  {
    Conjunction(vars, pars, (set k | k in constraints && k.eq), (set k | k in constraints && !k.eq))
  }

  /**
   * Whether the conjunction is ABSURD or holds an inequality of negative
   * identity together with its negation.
   */
  method HasInverseConstraints(c: Conjunction) returns (b: bool)
    ensures b <==> c == Absurd || (c != Obvious && exists k :: k in c.ineqs && k.id < 0 && Not(k) in c.ineqs)
  {
    if c == Absurd {
      return true;
    }
    if c == Obvious {
      return false;
    }
    var rest := c.ineqs;
    while rest != {}
      invariant rest <= c.ineqs
      invariant forall k :: k in c.ineqs - rest ==> !(k.id < 0 && Not(k) in c.ineqs)
      decreases rest
    {
      var k :| k in rest;
      if k.id < 0 && Not(k) in c.ineqs {
        return true;
      }
      rest := rest - {k};
    }
    return false;
  }

  /**
   * Among interned inequalities (non-zero identities), looking only at
   * negative identities finds a negated pair exactly when one exists.
   */
  lemma InversePairByNegativeId(ineqs: set<Constraint>)
    requires forall k :: k in ineqs ==> !k.eq && k.id != 0
    ensures HasNegatedPair(ineqs) <==> exists k :: k in ineqs && k.id < 0 && Not(k) in ineqs
  {
    if HasNegatedPair(ineqs) {
      var k :| k in ineqs && Not(k) in ineqs;
      if k.id > 0 {
        NotTwice(k);
        assert Not(k) in ineqs && Not(k).id < 0 && Not(Not(k)) in ineqs;
      }
    }
  }

  // ----- removeJoin -----

  /** The constraints of `s` that are equalities (`eq`) or inequalities (`!eq`). */
  function OfKind(s: set<Constraint>, eq: bool): (r: set<Constraint>)
    ensures r <= s && forall k :: k in s ==> (k in r <==> k.eq == eq)
  {
    set k | k in s && k.eq == eq
  }

  /**
   * What `removeJoin` computes: nothing on ABSURD; ABSURD and `true` when
   * FALSE is joined; otherwise the removed constraints are erased, the
   * joined ones other than TRUE inserted, an empty result becomes OBVIOUS,
   * and unused symbols are removed. The flag says whether an erase or an
   * insert took effect.
   */
  function RemoveJoinSpec(c: Conjunction, toRemove: set<Constraint>, toJoin: set<Constraint>): (Conjunction, bool)
  {
    if c == Absurd then (c, false)
    else if FalseC in toJoin then (Absurd, true)
    else
      var eqs, ineqs := c.eqs - OfKind(toRemove, true), c.ineqs - OfKind(toRemove, false);
      var joinEqs, joinIneqs := OfKind(toJoin - {TrueC}, true), OfKind(toJoin - {TrueC}, false);
      var changed := eqs != c.eqs || ineqs != c.ineqs || !(joinEqs <= eqs) || !(joinIneqs <= ineqs);
      var d := Conjunction(c.vars, c.pars, eqs + joinEqs, ineqs + joinIneqs);
      (Pruned(if d.eqs == {} && d.ineqs == {} then Obvious else d), changed)
  }

  /** The erasing loop of `removeJoin`: each constraint is erased from the set its kind selects. */
  method EraseAll(eqs: set<Constraint>, ineqs: set<Constraint>, toRemove: set<Constraint>)
    returns (eqs': set<Constraint>, ineqs': set<Constraint>, changed: bool)
    ensures eqs' == eqs - OfKind(toRemove, true) && ineqs' == ineqs - OfKind(toRemove, false)
    ensures changed == (eqs' != eqs || ineqs' != ineqs)
  {
    eqs', ineqs', changed := eqs, ineqs, false;
    var rest := toRemove;
    while rest != {}
      invariant rest <= toRemove
      invariant eqs' == eqs - OfKind(toRemove - rest, true)
      invariant ineqs' == ineqs - OfKind(toRemove - rest, false)
      invariant changed == (eqs' != eqs || ineqs' != ineqs)
      decreases rest
    {
      var k :| k in rest;
      if k.eq {
        changed := changed || k in eqs';
        eqs' := eqs' - {k};
      } else {
        changed := changed || k in ineqs';
        ineqs' := ineqs' - {k};
      }
      rest := rest - {k};
    }
  }

  /**
   * The joining loop of `removeJoin`: TRUE is skipped, FALSE stops the loop
   * (`absurd`), and every other constraint is inserted in the set its kind
   * selects.
   */
  method JoinAll(eqs: set<Constraint>, ineqs: set<Constraint>, toJoin: set<Constraint>)
    returns (eqs': set<Constraint>, ineqs': set<Constraint>, changed: bool, absurd: bool)
    ensures absurd <==> FalseC in toJoin
    ensures !absurd ==> eqs' == eqs + OfKind(toJoin - {TrueC}, true) && ineqs' == ineqs + OfKind(toJoin - {TrueC}, false)
    ensures !absurd ==> changed == (!(OfKind(toJoin - {TrueC}, true) <= eqs) || !(OfKind(toJoin - {TrueC}, false) <= ineqs))
  {
    eqs', ineqs', changed, absurd := eqs, ineqs, false, false;
    var rest := toJoin;
    while rest != {}
      invariant rest <= toJoin
      invariant FalseC in toJoin ==> FalseC in rest
      invariant eqs' == eqs + OfKind(toJoin - rest - {TrueC}, true)
      invariant ineqs' == ineqs + OfKind(toJoin - rest - {TrueC}, false)
      invariant changed == (!(eqs' <= eqs) || !(ineqs' <= ineqs))
      decreases rest
    {
      var k :| k in rest;
      if k == FalseC {
        return eqs', ineqs', true, true;
      }
      if k != TrueC {
        if k.eq {
          changed := changed || k !in eqs';
          eqs' := eqs' + {k};
        } else {
          changed := changed || k !in ineqs';
          ineqs' := ineqs' + {k};
        }
      }
      rest := rest - {k};
    }
  }

  method RemoveJoin(c: Conjunction, toRemove: set<Constraint>, toJoin: set<Constraint>) returns (r: Conjunction, changed: bool)
    ensures (r, changed) == RemoveJoinSpec(c, toRemove, toJoin)
  {
    if c == Absurd {
      return c, false;
    }
    var eqs, ineqs, removed := EraseAll(c.eqs, c.ineqs, toRemove);
    var eqs', ineqs', added, absurd := JoinAll(eqs, ineqs, toJoin);
    if absurd {
      return Absurd, true;
    }
    changed := removed || added;
    var d := Conjunction(c.vars, c.pars, eqs', ineqs');
    if eqs' == {} && ineqs' == {} {
      d := Obvious;
    }
    r := RemoveUnused(d);
  }

  /**
   * Apart from ABSURD, the result holds exactly where the kept constraints
   * and the joined ones hold; a constraint is erased only from the set its
   * kind selects.
   */
  lemma RemoveJoinMeaning(c: Conjunction, toRemove: set<Constraint>, toJoin: set<Constraint>, x: Point)
    requires c != Absurd
    ensures Sat(RemoveJoinSpec(c, toRemove, toJoin).0, x) <==>
      (AllSat(c.eqs - OfKind(toRemove, true), x)
        && AllSat(c.ineqs - OfKind(toRemove, false), x)
        && AllSat(toJoin, x))
    ensures WellFormed(c) ==>
      (Sat(RemoveJoinSpec(c, toRemove, toJoin).0, x) <==> AllSat((c.eqs + c.ineqs) - toRemove, x) && AllSat(toJoin, x))
  {
    SatConstants(x);
    TrueAndFalse(x);
  }

  /** Joining without removing conjoins: the result holds exactly where `c` and every joined constraint hold. */
  lemma JoinMeaning(c: Conjunction, toJoin: set<Constraint>, x: Point)
    ensures Sat(RemoveJoinSpec(c, {}, toJoin).0, x) <==> Sat(c, x) && AllSat(toJoin, x)
  {
    SatConstants(x);
    if c != Absurd {
      RemoveJoinMeaning(c, {}, toJoin, x);
      var none: set<Constraint> := {};
      assert OfKind(none, true) == {} && OfKind(none, false) == {};
    }
  }

  /** ABSURD is left alone; empty sets change nothing; an unchanged flag means unchanged constraint sets. */
  lemma RemoveJoinUnchanged(c: Conjunction, toRemove: set<Constraint>, toJoin: set<Constraint>)
    ensures c == Absurd ==> RemoveJoinSpec(c, toRemove, toJoin) == (c, false)
    ensures toRemove == {} && toJoin == {} ==> !RemoveJoinSpec(c, toRemove, toJoin).1
    ensures !RemoveJoinSpec(c, toRemove, toJoin).1 ==>
      RemoveJoinSpec(c, toRemove, toJoin).0.eqs == c.eqs && RemoveJoinSpec(c, toRemove, toJoin).0.ineqs == c.ineqs
  {
  }

  /** Joining FALSE gives ABSURD; when nothing is both removed and joined, the flag says exactly whether the constraint sets changed. */
  lemma RemoveJoinChanged(c: Conjunction, toRemove: set<Constraint>, toJoin: set<Constraint>)
    requires WellFormed(c) && c != Absurd
    ensures FalseC in toJoin ==> RemoveJoinSpec(c, toRemove, toJoin) == (Absurd, true)
    ensures toRemove !! toJoin ==>
      (RemoveJoinSpec(c, toRemove, toJoin).1 <==>
        (RemoveJoinSpec(c, toRemove, toJoin).0.eqs != c.eqs || RemoveJoinSpec(c, toRemove, toJoin).0.ineqs != c.ineqs))
  {
  }

  /** `removeJoin` sorts what it joins by kind, so a well-formed conjunction stays well formed. */
  lemma RemoveJoinWellFormed(c: Conjunction, toRemove: set<Constraint>, toJoin: set<Constraint>)
    requires WellFormed(c)
    ensures WellFormed(RemoveJoinSpec(c, toRemove, toJoin).0)
  {
  }

  // ----- operator& -----

  /** `a & b`: `b` with `a`'s symbols and constraints joined in. */
  function And(a: Conjunction, b: Conjunction): Conjunction
  {
    var out := Conjunction(b.vars + a.vars, b.pars + a.pars, b.eqs, b.ineqs);
    var (out1, _) := RemoveJoinSpec(out, {}, a.eqs);
    var (out2, _) := RemoveJoinSpec(out1, {}, a.ineqs);
    Pruned(out2)
  }

  /** The conjunction of two conjunctions holds exactly where both do. */
  lemma AndMeaning(a: Conjunction, b: Conjunction, x: Point)
    ensures Sat(And(a, b), x) <==> Sat(a, x) && Sat(b, x)
  {
    var out := Conjunction(b.vars + a.vars, b.pars + a.pars, b.eqs, b.ineqs);
    JoinMeaning(out, a.eqs, x);
    JoinMeaning(RemoveJoinSpec(out, {}, a.eqs).0, a.ineqs, x);
  }

  /** `a & k` for one constraint: FALSE gives ABSURD and TRUE leaves `a` as it is. */
  function AndConstraint(a: Conjunction, k: Constraint): (r: Conjunction)
    ensures forall x :: Sat(r, x) <==> Sat(a, x) && Satisfies(k, x)
    ensures k == FalseC ==> r == Absurd
    ensures k == TrueC ==> r == a
  {
    TrueAndFalseEverywhere();
    if k == FalseC then Absurd
    else if k == TrueC then a
    else if k.eq then a.(eqs := a.eqs + {k})
    else a.(ineqs := a.ineqs + {k})
  }

  lemma TrueAndFalseEverywhere()
    ensures forall x :: Satisfies(TrueC, x) && !Satisfies(FalseC, x)
  {
    forall x ensures Satisfies(TrueC, x) && !Satisfies(FalseC, x) {
      TrueAndFalse(x);
    }
  }

  /** `a & clauses`, the constraints added one at a time; FALSE among them gives ABSURD. */
  method AndSet(a: Conjunction, clauses: set<Constraint>) returns (r: Conjunction)
    ensures FalseC in clauses ==> r == Absurd
    ensures FalseC !in clauses ==> r.vars == a.vars && r.pars == a.pars
    ensures FalseC !in clauses ==> r.eqs == a.eqs + (set k | k in clauses && k != TrueC && k.eq)
    ensures FalseC !in clauses ==> r.ineqs == a.ineqs + (set k | k in clauses && k != TrueC && !k.eq)
    ensures forall x :: Sat(r, x) <==> Sat(a, x) && AllSat(clauses, x)
  {
    TrueAndFalseEverywhere();
    r := a;
    var rest := clauses;
    while rest != {}
      invariant rest <= clauses
      invariant FalseC in clauses ==> FalseC in rest
      invariant r.vars == a.vars && r.pars == a.pars
      invariant r.eqs == a.eqs + (set k | k in clauses - rest && k != TrueC && k.eq)
      invariant r.ineqs == a.ineqs + (set k | k in clauses - rest && k != TrueC && !k.eq)
      invariant forall x :: Sat(r, x) <==> Sat(a, x) && AllSat(clauses - rest, x)
      decreases rest
    {
      var k :| k in rest;
      if k == FalseC {
        return Absurd;
      }
      if k != TrueC {
        if k.eq {
          r := r.(eqs := r.eqs + {k});
        } else {
          r := r.(ineqs := r.ineqs + {k});
        }
      }
      rest := rest - {k};
    }
  }

  // ----- size and the tester system -----

  /** The number of inequalities the conjunction stands for: an equality counts twice. */
  function Size(c: Conjunction): nat
  {
    2 * |c.eqs| + |c.ineqs|
  }

  /** The forms `e` such that the conjunction is `e >= 0` for all of them. */
  function TesterSystem(c: Conjunction): (sys: set<Lin>)
    ensures c == Obvious ==> sys == {}
    ensures c == Absurd ==> sys == {Constant(-1)}
  {
    if c == Absurd then {Constant(-1)}
    else if c == Obvious then {}
    else (set k | k in c.ineqs :: k.exp) + (set k | k in c.eqs :: k.exp) + (set k | k in c.eqs :: Neg(k.exp))
  }

  /** Every form of the system is non-negative at `x`. */
  predicate SystemHolds(sys: set<Lin>, x: Point)
  {
    forall e :: e in sys ==> Value(e, x) >= 0
  }

  /** A well-formed conjunction holds exactly where its tester system is non-negative. */
  lemma TesterSystemMeaning(c: Conjunction, x: Point)
    requires WellFormed(c)
    ensures Sat(c, x) <==> SystemHolds(TesterSystem(c), x)
  {
    SatConstants(x);
    if c == Absurd {
      assert Constant(-1) in TesterSystem(c);
      NumericValue(Constant(-1), x);
    } else if c != Obvious {
      var sys := TesterSystem(c);
      if Sat(c, x) {
        forall e | e in sys
          ensures Value(e, x) >= 0
        {
          if k :| k in c.eqs && e == Neg(k.exp) {
            ValueNeg(k.exp, x);
          }
        }
      }
      if SystemHolds(sys, x) {
        forall k | k in c.eqs
          ensures Satisfies(k, x)
        {
          assert k.exp in sys && Neg(k.exp) in sys;
          ValueNeg(k.exp, x);
        }
        forall k | k in c.ineqs
          ensures Satisfies(k, x)
        {
          assert k.exp in sys;
        }
      }
    }
  }

  // ----- detectEqs and rebuild -----

  /** `Constraint::get` as the operations below rely on it: the store's answer, its meaning and its kind. */
  method Intern(st: Store, e: Lin, isEq: bool) returns (k: Constraint)
    requires st.Valid()
    modifies st
    ensures st.Valid() && Extends(old(st.table), st.table)
    ensures Answers(k, e, isEq)
    ensures !IsNumeric(e) ==> k.id in st.table && st.table[k.id] == k
    ensures forall x :: Satisfies(k, x) <==> HoldsAt(e, isEq, x)
    ensures k.eq ==> isEq
  {
    k := st.Get(e, isEq);
  }

  /** `-e` takes the opposite value of `e` at every point. */
  lemma ValueNegEverywhere(e: Lin)
    ensures forall x :: Value(Neg(e), x) == -Value(e, x)
  {
    forall x ensures Value(Neg(e), x) == -Value(e, x) {
      ValueNeg(e, x);
    }
  }

  /** One step of `detectEqs`: the inequality `k` and the one of its negated form give way to the equality of its form. */
  lemma DetectStep(c: Conjunction, r: Conjunction, k: Constraint, iC: Constraint, eqC: Constraint)
    requires WellFormed(c) && k in c.ineqs && iC in r.ineqs
    requires forall x :: Satisfies(iC, x) <==> HoldsAt(Neg(k.exp), false, x)
    requires forall x :: Satisfies(eqC, x) <==> HoldsAt(k.exp, true, x)
    requires forall x :: Sat(r, x) <==> Sat(c, x)
    ensures forall x :: Sat(r.(eqs := r.eqs + {eqC}, ineqs := r.ineqs - {iC, k}), x) <==> Sat(c, x)
  {
    ValueNegEverywhere(k.exp);
    assert !k.eq;
  }

  /** Every constraint of `s` is an entry of the store's table. */
  ghost predicate Stored(table: map<int, Constraint>, s: set<Constraint>)
  {
    forall k :: k in s ==> k.id in table && table[k.id] == k
  }

  /** The stored form of `-e >= 0` for the inequality `k`: the partner `detectEqs` looks up. */
  function Opposite(k: Constraint): Lin
  {
    Canon(Neg(k.exp), false)
  }

  /**
   * `k` and `j` give way to `q`: `j` is the inequality of the form opposite
   * to that of `k`, and `q` is the store's equality for the form of `k`.
   */
  predicate Merged(k: Constraint, j: Constraint, q: Constraint)
  {
    j.exp == Opposite(k) && Answers(q, k.exp, true)
  }

  /** Entries of a store remain entries when the store grows. */
  lemma StoredExtends(t: map<int, Constraint>, t': map<int, Constraint>, s: set<Constraint>)
    requires Stored(t, s) && Extends(t, t')
    ensures Stored(t', s)
  {
  }

  /** No inequality of `r` outside `rest` is left together with its partner. */
  ghost predicate Unpaired(r: Conjunction, rest: set<Constraint>)
  {
    forall k, j :: k in r.ineqs && k !in rest && j in r.ineqs ==> j.exp != Opposite(k)
  }

  /** Every inequality of `c` missing from `r` was merged, with another missing one, into an equality of `r`. */
  ghost predicate MergedAway(c: Conjunction, r: Conjunction)
  {
    forall k :: k in c.ineqs && k !in r.ineqs ==>
      exists j, q :: j in c.ineqs && j !in r.ineqs && q in r.eqs && (Merged(k, j, q) || Merged(j, k, q))
  }

  /** Every equality `r` adds to `c` is the merge of two inequalities of `c` missing from `r`. */
  ghost predicate FromMerges(c: Conjunction, r: Conjunction)
  {
    forall q :: q in r.eqs && q !in c.eqs ==>
      exists k, j :: k in c.ineqs && k !in r.ineqs && j in c.ineqs && j !in r.ineqs && Merged(k, j, q)
  }

  /** The store answers the opposite form of a stored inequality with the stored entry of its partner form. */
  lemma OppositeAnswer(table: map<int, Constraint>, nId: int, k: Constraint, iC: Constraint)
    requires WellKept(table, nId) && k.id in table && table[k.id] == k
    requires Answers(iC, Neg(k.exp), false)
    ensures iC.exp == Opposite(k) && !iC.eq
  {
    assert Entries(table, nId);
    assert !IsNumeric(k.exp);
  }

  /** Merging `k` and its partner `iC` into `eqC` keeps every removal and every addition accounted for. */
  lemma MergeAccounted(c: Conjunction, r: Conjunction, k: Constraint, iC: Constraint, eqC: Constraint)
    requires k in c.ineqs && iC in r.ineqs && r.ineqs <= c.ineqs && Merged(k, iC, eqC)
    requires MergedAway(c, r)
    ensures MergedAway(c, r.(eqs := r.eqs + {eqC}, ineqs := r.ineqs - {iC, k}))
  {
    var r' := r.(eqs := r.eqs + {eqC}, ineqs := r.ineqs - {iC, k});
    forall m | m in c.ineqs && m !in r'.ineqs
      ensures exists j, q :: j in c.ineqs && j !in r'.ineqs && q in r'.eqs && (Merged(m, j, q) || Merged(j, m, q))
    {
      if m == k {
        assert iC in c.ineqs && iC !in r'.ineqs && eqC in r'.eqs && Merged(k, iC, eqC);
      } else if m == iC {
        assert k in c.ineqs && k !in r'.ineqs && eqC in r'.eqs && Merged(k, iC, eqC);
      } else {
        var j, q :| j in c.ineqs && j !in r.ineqs && q in r.eqs && (Merged(m, j, q) || Merged(j, m, q));
        assert j !in r'.ineqs && q in r'.eqs;
      }
    }
  }

  /** The equality a merge adds comes from the two inequalities it removes. */
  lemma MergeSourced(c: Conjunction, r: Conjunction, k: Constraint, iC: Constraint, eqC: Constraint)
    requires k in c.ineqs && iC in r.ineqs && r.ineqs <= c.ineqs && Merged(k, iC, eqC)
    requires FromMerges(c, r)
    ensures FromMerges(c, r.(eqs := r.eqs + {eqC}, ineqs := r.ineqs - {iC, k}))
  {
    var r' := r.(eqs := r.eqs + {eqC}, ineqs := r.ineqs - {iC, k});
    forall q | q in r'.eqs && q !in c.eqs
      ensures exists m, j :: m in c.ineqs && m !in r'.ineqs && j in c.ineqs && j !in r'.ineqs && Merged(m, j, q)
    {
      if q == eqC {
        assert k in c.ineqs && k !in r'.ineqs && iC in c.ineqs && iC !in r'.ineqs && Merged(k, iC, eqC);
      } else {
        var m, j :| m in c.ineqs && m !in r.ineqs && j in c.ineqs && j !in r.ineqs && Merged(m, j, q);
        assert m !in r'.ineqs && j !in r'.ineqs;
      }
    }
  }

  /** When the stored partner of `k` is not among the inequalities of `r`, no inequality of `r` is. */
  lemma NoPartner(table: map<int, Constraint>, nId: int, r: Conjunction, rest: set<Constraint>, k: Constraint, iC: Constraint)
    requires WellKept(table, nId) && Stored(table, r.ineqs) && iC.id in table && table[iC.id] == iC
    requires iC.exp == Opposite(k) && !iC.eq && iC !in r.ineqs
    requires forall j :: j in r.ineqs ==> !j.eq
    requires Unpaired(r, rest + {k})
    ensures Unpaired(r, rest)
  {
    forall j | j in r.ineqs && j.exp == Opposite(k)
      ensures false
    {
      SameEntry(table, nId, iC, j);
    }
  }

  /** One iteration of `detectEqs`, for the inequality `k` the conjunction had on entry. */
  method DetectOne(st: Store, c: Conjunction, r: Conjunction, ghost stored: bool, ghost rest: set<Constraint>, k: Constraint)
    returns (r': Conjunction)
    requires st.Valid() && k in c.ineqs
    requires r.vars == c.vars && r.pars == c.pars && c.eqs <= r.eqs && r.ineqs <= c.ineqs
    requires WellFormed(c) ==> forall x :: Sat(r, x) <==> Sat(c, x)
    requires stored ==> WellFormed(c) && Stored(st.table, c.ineqs)
    requires stored ==> Unpaired(r, rest + {k}) && MergedAway(c, r) && FromMerges(c, r)
    modifies st
    ensures st.Valid() && Extends(old(st.table), st.table)
    ensures r'.vars == c.vars && r'.pars == c.pars && c.eqs <= r'.eqs && r'.ineqs <= r.ineqs
    ensures WellFormed(c) ==> forall x :: Sat(r', x) <==> Sat(c, x)
    ensures stored ==> Stored(st.table, c.ineqs)
    ensures stored ==> Unpaired(r', rest) && MergedAway(c, r') && FromMerges(c, r')
  {
    r' := r;
    ghost var t0 := st.table;
    var iC := Intern(st, Neg(k.exp), false);
    if stored {
      StoredExtends(t0, st.table, c.ineqs);
      OppositeAnswer(st.table, st.nId, k, iC);
    }
    if iC in r.ineqs {
      ghost var t1 := st.table;
      var eqC := Intern(st, k.exp, true);
      if WellFormed(c) {
        DetectStep(c, r, k, iC, eqC);
      }
      r' := r.(eqs := r.eqs + {eqC}, ineqs := r.ineqs - {iC, k});
      if stored {
        StoredExtends(t1, st.table, c.ineqs);
        MergeAccounted(c, r, k, iC, eqC);
        MergeSourced(c, r, k, iC, eqC);
      }
    } else if stored {
      NoPartner(st.table, st.nId, r, rest, k, iC);
    }
  }

  /**
   * `detectEqs`: an inequality held together with the stored inequality of
   * its opposite form gives way, with that partner, to the equality of its
   * form. The loop visits the inequalities the conjunction had on entry.
   * When the inequalities are entries of the store, no inequality is left
   * with its partner, every inequality that went was merged with another
   * one that went into an equality that is present, and every new equality
   * comes from such a merge.
   */
  method DetectEqs(st: Store, c: Conjunction) returns (r: Conjunction)
    requires st.Valid()
    modifies st
    ensures st.Valid() && Extends(old(st.table), st.table)
    ensures r.vars == c.vars && r.pars == c.pars
    ensures c.eqs <= r.eqs && r.ineqs <= c.ineqs
    ensures WellFormed(c) ==> forall x :: Sat(r, x) <==> Sat(c, x)
    ensures WellFormed(c) && Stored(old(st.table), c.ineqs) ==>
      Unpaired(r, {}) && MergedAway(c, r) && FromMerges(c, r)
  {
    ghost var stored := WellFormed(c) && Stored(st.table, c.ineqs);
    r := c;
    var rest := c.ineqs;
    while rest != {}
      invariant rest <= c.ineqs
      invariant st.Valid() && Extends(old(st.table), st.table)
      invariant r.vars == c.vars && r.pars == c.pars
      invariant c.eqs <= r.eqs && r.ineqs <= c.ineqs
      invariant WellFormed(c) ==> forall x :: Sat(r, x) <==> Sat(c, x)
      invariant stored ==> Stored(st.table, c.ineqs)
      invariant stored ==> Unpaired(r, rest) && MergedAway(c, r) && FromMerges(c, r)
      decreases rest
    {
      var k :| k in rest;
      rest := rest - {k};
      r := DetectOne(st, c, r, stored, rest, k);
    }
  }

  /** The form `-e` is in `sys` too: `e >= 0` and `-e >= 0` make the equality `e = 0`. */
  predicate Opposed(sys: set<Lin>, e: Lin)
  {
    Neg(e) in sys
  }

  /**
   * Each form of `done` is represented as the store answers for it: by an
   * equality when it is opposed in `sys`, by an inequality otherwise.
   */
  ghost predicate Represented(sys: set<Lin>, done: set<Lin>, eqs: set<Constraint>, ineqs: set<Constraint>)
  {
    && (forall e {:trigger Opposed(sys, e)} :: e in done && Opposed(sys, e) ==> exists k :: k in eqs && Answers(k, e, true))
    && (forall e {:trigger Opposed(sys, e)} :: e in done && !Opposed(sys, e) ==> exists k :: k in ineqs && Answers(k, e, false))
  }

  /** Each equality of `eqs` represents an opposed form of `sys`, and each inequality of `ineqs` another form. */
  ghost predicate Representing(sys: set<Lin>, eqs: set<Constraint>, ineqs: set<Constraint>)
  {
    && (forall k :: k in eqs ==> exists e {:trigger Answers(k, e, true)} :: e in sys && Opposed(sys, e) && Answers(k, e, true))
    && (forall k :: k in ineqs ==> exists e {:trigger Answers(k, e, false)} :: e in sys && !Opposed(sys, e) && Answers(k, e, false))
  }

  /** One step of `rebuild`: the store's answer for one more form joins the set of its kind. */
  lemma ClassifyStep(sys: set<Lin>, done: set<Lin>, eqs: set<Constraint>, ineqs: set<Constraint>, e: Lin, k: Constraint)
    requires Represented(sys, done, eqs, ineqs) && Representing(sys, eqs, ineqs) && e in sys
    requires Answers(k, e, Opposed(sys, e))
    ensures Opposed(sys, e) ==> Represented(sys, done + {e}, eqs + {k}, ineqs) && Representing(sys, eqs + {k}, ineqs)
    ensures !Opposed(sys, e) ==> Represented(sys, done + {e}, eqs, ineqs + {k}) && Representing(sys, eqs, ineqs + {k})
  {
  }

  /** A constraint representing a form of `sys` holds wherever `sys` is non-negative. */
  lemma RepresentedHolds(sys: set<Lin>, e: Lin, k: Constraint, x: Point)
    requires e in sys && Answers(k, e, Opposed(sys, e)) && SystemHolds(sys, x)
    ensures Satisfies(k, x)
  {
    AnswersMeaning(k, e, Opposed(sys, e), x);
    if Opposed(sys, e) {
      ValueNeg(e, x);
      assert Value(Neg(e), x) >= 0;
    }
  }

  /** A form represented by a constraint that holds is non-negative. */
  lemma RepresentingHolds(sys: set<Lin>, e: Lin, k: Constraint, x: Point)
    requires Answers(k, e, Opposed(sys, e)) && Satisfies(k, x)
    ensures Value(e, x) >= 0
  {
    AnswersMeaning(k, e, Opposed(sys, e), x);
  }

  /** Constraints representing only forms of `sys` hold wherever `sys` is non-negative. */
  lemma RepresentingMeaning(sys: set<Lin>, eqs: set<Constraint>, ineqs: set<Constraint>, x: Point)
    requires Representing(sys, eqs, ineqs) && SystemHolds(sys, x)
    ensures AllSat(eqs, x) && AllSat(ineqs, x)
  {
    forall k | k in eqs
      ensures Satisfies(k, x)
    {
      var e {:trigger Answers(k, e, true)} :| e in sys && Opposed(sys, e) && Answers(k, e, true);
      RepresentedHolds(sys, e, k, x);
    }
    forall k | k in ineqs
      ensures Satisfies(k, x)
    {
      var e {:trigger Answers(k, e, false)} :| e in sys && !Opposed(sys, e) && Answers(k, e, false);
      RepresentedHolds(sys, e, k, x);
    }
  }

  /** Where constraints representing every form of `sys` hold, `sys` is non-negative. */
  lemma RepresentedMeaning(sys: set<Lin>, eqs: set<Constraint>, ineqs: set<Constraint>, x: Point)
    requires Represented(sys, sys, eqs, ineqs) && AllSat(eqs, x) && AllSat(ineqs, x)
    ensures SystemHolds(sys, x)
  {
    forall e | e in sys
      ensures Value(e, x) >= 0
    {
      if Opposed(sys, e) {
        var k :| k in eqs && Answers(k, e, true);
        RepresentingHolds(sys, e, k, x);
      } else {
        var k :| k in ineqs && Answers(k, e, false);
        RepresentingHolds(sys, e, k, x);
      }
    }
  }

  /** Constraints representing exactly the forms of `sys` have the same solutions as `sys`. */
  lemma ClassifiedMeaning(sys: set<Lin>, r: Conjunction)
    requires Represented(sys, sys, r.eqs, r.ineqs) && Representing(sys, r.eqs, r.ineqs)
    ensures forall x :: Sat(r, x) <==> SystemHolds(sys, x)
  {
    forall x
      ensures Sat(r, x) <==> SystemHolds(sys, x)
    {
      if SystemHolds(sys, x) {
        RepresentingMeaning(sys, r.eqs, r.ineqs, x);
      }
      if Sat(r, x) {
        RepresentedMeaning(sys, r.eqs, r.ineqs, x);
      }
    }
  }

  /**
   * `rebuild`: the constraints are replaced by those of a system of forms
   * `e >= 0`; a form whose negation is also in the system becomes an
   * equality, any other an inequality, each as the store answers for it.
   */
  method Rebuild(st: Store, c: Conjunction, sys: set<Lin>) returns (r: Conjunction)
    requires st.Valid()
    modifies st
    ensures st.Valid() && Extends(old(st.table), st.table)
    ensures r.vars == c.vars && r.pars == c.pars
    ensures Represented(sys, sys, r.eqs, r.ineqs)
    ensures Representing(sys, r.eqs, r.ineqs)
    ensures forall x :: Sat(r, x) <==> SystemHolds(sys, x)
  {
    var eqs, ineqs := Classify(st, sys);
    r := Conjunction(c.vars, c.pars, eqs, ineqs);
    ClassifiedMeaning(sys, r);
  }

  /** The loop of `rebuild`: the store's answer for each form of `sys`, sorted by kind. */
  method Classify(st: Store, sys: set<Lin>) returns (eqs: set<Constraint>, ineqs: set<Constraint>)
    requires st.Valid()
    modifies st
    ensures st.Valid() && Extends(old(st.table), st.table)
    ensures Represented(sys, sys, eqs, ineqs)
    ensures Representing(sys, eqs, ineqs)
  {
    eqs, ineqs := {}, {};
    var rest := sys;
    ghost var done: set<Lin> := {};
    while rest != {}
      invariant rest <= sys && done == sys - rest
      invariant st.Valid() && Extends(old(st.table), st.table)
      invariant Represented(sys, done, eqs, ineqs) && Representing(sys, eqs, ineqs)
      decreases rest
    {
      var e :| e in rest;
      eqs, ineqs := ClassifyOne(st, sys, done, eqs, ineqs, e);
      rest := rest - {e};
      done := done + {e};
    }
  }

  /** One iteration of `rebuild`: the store's answer for `e` joins the set of its kind. */
  method ClassifyOne(st: Store, sys: set<Lin>, ghost done: set<Lin>, eqs: set<Constraint>, ineqs: set<Constraint>, e: Lin)
    returns (eqs': set<Constraint>, ineqs': set<Constraint>)
    requires st.Valid() && e in sys
    requires Represented(sys, done, eqs, ineqs) && Representing(sys, eqs, ineqs)
    modifies st
    ensures st.Valid() && Extends(old(st.table), st.table)
    ensures Represented(sys, done + {e}, eqs', ineqs') && Representing(sys, eqs', ineqs')
  {
    var k := Intern(st, e, Opposed(sys, e));
    ClassifyStep(sys, done, eqs, ineqs, e, k);
    if Opposed(sys, e) {
      eqs', ineqs' := eqs + {k}, ineqs;
    } else {
      eqs', ineqs' := eqs, ineqs + {k};
    }
  }

  // ----- implies -----

  /**
   * A positiveness tester built for a system of forms `e >= 0` and applied
   * to one form: the sign the system implies for that form.
   */
  type Oracle = (set<Lin>, Lin) -> SignLattice.TestResult

  /** The tester never claims a sign the system does not imply. */
  ghost predicate OracleSound(test: Oracle)
  {
    forall sys, e, x {:trigger SystemHolds(sys, x), test(sys, e)} ::
      SystemHolds(sys, x) ==> SignLattice.Holds(test(sys, e), Value(e, x) as real)
  }

  /** A sound tester's non-negative verdict holds at every point of the system. */
  lemma OracleNonNegative(test: Oracle, sys: set<Lin>, e: Lin, x: Point)
    requires OracleSound(test) && test(sys, e).sign in {SignLattice.Gez, SignLattice.Gtz, SignLattice.Zero}
    requires SystemHolds(sys, x)
    ensures Value(e, x) >= 0
  {
    assert SignLattice.Holds(test(sys, e), Value(e, x) as real);
  }

  /** A sound tester answers ABSURD only for a system with no point. */
  lemma OracleRefutes(test: Oracle, sys: set<Lin>, e: Lin, x: Point)
    requires OracleSound(test) && test(sys, e).sign == SignLattice.Absurd
    ensures !SystemHolds(sys, x)
  {
  }

  /**
   * The first step of `implies`: the equalities of the implying conjunction
   * discharge the same equalities and both inequalities of their form.
   */
  method DischargeByEqs(st: Store, a: Conjunction, oeqs: set<Constraint>, oineqs: set<Constraint>)
    returns (oeqs': set<Constraint>, oineqs': set<Constraint>)
    requires st.Valid()
    modifies st
    ensures st.Valid() && Extends(old(st.table), st.table)
    ensures oeqs' == oeqs - a.eqs && oineqs' <= oineqs
    ensures (forall k :: k in a.eqs ==> k.eq) ==>
      forall x :: Sat(a, x) && AllSat(oineqs', x) ==> AllSat(oineqs, x)
  {
    oeqs', oineqs' := oeqs, oineqs;
    var rest := a.eqs;
    while rest != {}
      invariant rest <= a.eqs
      invariant st.Valid() && Extends(old(st.table), st.table)
      invariant oeqs' == oeqs - (a.eqs - rest) && oineqs' <= oineqs
      invariant (forall k :: k in a.eqs ==> k.eq) ==>
        forall x :: Sat(a, x) && AllSat(oineqs', x) ==> AllSat(oineqs, x)
      decreases rest
    {
      var eq :| eq in rest;
      var pos := Intern(st, eq.exp, false);
      var neg := Intern(st, Neg(eq.exp), false);
      ValueNegEverywhere(eq.exp);
      oeqs', oineqs' := oeqs' - {eq}, oineqs' - {pos, neg};
      rest := rest - {eq};
    }
  }

  /** Replacing the equality `eq` by two inequalities that together imply it keeps the obligations covered. */
  lemma SplitStep(oeqs: set<Constraint>, rest: set<Constraint>, eq: Constraint, oineqs: set<Constraint>,
                  before: set<Constraint>, pos: Constraint, neg: Constraint)
    requires eq in rest && rest <= oeqs
    requires forall x :: AllSat(before, x) ==> AllSat(oeqs - rest, x) && AllSat(oineqs, x)
    requires forall x :: Satisfies(pos, x) && Satisfies(neg, x) ==> Satisfies(eq, x)
    ensures forall x :: AllSat(before + {pos, neg}, x) ==> AllSat(oeqs - (rest - {eq}), x) && AllSat(oineqs, x)
  {
    assert oeqs - (rest - {eq}) == (oeqs - rest) + {eq};
    forall x | AllSat(before + {pos, neg}, x)
      ensures AllSat(oeqs - (rest - {eq}), x) && AllSat(oineqs, x)
    {
      assert AllSat(before, x);
      assert Satisfies(pos, x) && Satisfies(neg, x);
    }
  }

  /** The second step of `implies`: each remaining equality becomes the two inequalities of its form and of its negation. */
  method SplitEqs(st: Store, oeqs: set<Constraint>, oineqs: set<Constraint>) returns (oineqs': set<Constraint>)
    requires st.Valid()
    modifies st
    ensures st.Valid() && Extends(old(st.table), st.table)
    ensures oineqs <= oineqs' && (oeqs == {} ==> oineqs' == oineqs)
    ensures forall k :: k in oineqs' - oineqs ==> !k.eq
    ensures forall x :: AllSat(oineqs', x) ==> AllSat(oeqs, x) && AllSat(oineqs, x)
  {
    oineqs' := oineqs;
    var rest := oeqs;
    while rest != {}
      invariant rest <= oeqs
      invariant st.Valid() && Extends(old(st.table), st.table)
      invariant oineqs <= oineqs' && (rest == oeqs ==> oineqs' == oineqs)
      invariant forall k :: k in oineqs' - oineqs ==> !k.eq
      invariant forall x :: AllSat(oineqs', x) ==> AllSat(oeqs - rest, x) && AllSat(oineqs, x)
      decreases rest
    {
      var eq :| eq in rest;
      var pos := Intern(st, eq.exp, false);
      var neg := Intern(st, Neg(eq.exp), false);
      ValueNegEverywhere(eq.exp);
      forall x | Satisfies(pos, x) && Satisfies(neg, x)
        ensures Satisfies(eq, x)
      {
      }
      SplitStep(oeqs, rest, eq, oineqs, oineqs', pos, neg);
      oineqs' := oineqs' + {pos, neg};
      rest := rest - {eq};
    }
  }

  /**
   * `a.implies(b)`: whether every point of `a` is a point of `b`. The
   * constraints of `b` that `a` holds are discharged, the others are handed
   * to `a`'s tester one at a time; a tester that finds `a`'s own system
   * ABSURD turns `a` into ABSURD. The answer is `false` whenever it cannot
   * be established, and `true` only when it holds for a sound tester.
   */
  method Implies(st: Store, a: Conjunction, b: Conjunction, test: Oracle) returns (r: bool, a': Conjunction)
    requires st.Valid()
    modifies st
    ensures st.Valid() && Extends(old(st.table), st.table)
    ensures a' == a || (a' == Absurd && !r)
    ensures b == Absurd ==> r == (a == Absurd) && a' == a
    ensures b != Absurd && b == Obvious ==> r && a' == a
    ensures b != Absurd && b != Obvious && a == Absurd ==> !r && a' == a
    ensures b != Absurd && a != Absurd && b.eqs <= a.eqs && b.ineqs <= a.ineqs ==> r
    ensures r && WellFormed(a) && !(b.vars + b.pars <= a.vars + a.pars) ==> forall x :: Sat(a, x) ==> Sat(b, x)
    ensures r && WellFormed(a) && WellFormed(b) && OracleSound(test) ==> forall x :: Sat(a, x) ==> Sat(b, x)
    ensures a' != a && WellFormed(a) && OracleSound(test) ==> forall x :: !Sat(a, x)
  {
    if b == Absurd {
      return a == Absurd, a;
    }
    if b == Obvious {
      SatConstants(Point0());
      return true, a;
    }
    if a == Absurd {
      return false, a;
    }
    var oeqs, kept := DischargeByEqs(st, a, b.eqs, b.ineqs);
    var split := SplitEqs(st, oeqs, kept);
    var oineqs := split - a.ineqs;
    ghost var obligations := oineqs;
    if WellFormed(a) {
      forall x | Sat(a, x) && AllSat(obligations, x)
        ensures Sat(b, x)
      {
        assert AllSat(split, x);
        assert AllSat(oeqs, x) && AllSat(kept, x);
      }
    }
    assert WellFormed(b) ==> forall k :: k in obligations ==> !k.eq;
    if oineqs == {} {
      return true, a;
    }
    if !(b.pars <= a.pars + a.vars) || !(b.vars <= a.pars + a.vars) {
      return false, a;
    }
    var sys := TesterSystem(a);
    while oineqs != {}
      invariant oineqs <= obligations
      invariant OracleSound(test) && WellFormed(a) ==>
        forall k, x :: k in obligations - oineqs && Sat(a, x) ==> Value(k.exp, x) >= 0
      decreases oineqs
    {
      var k :| k in oineqs;
      var res := test(sys, k.exp);
      if res.sign in {SignLattice.Gez, SignLattice.Gtz, SignLattice.Zero} {
        if OracleSound(test) && WellFormed(a) {
          forall x | Sat(a, x)
            ensures Value(k.exp, x) >= 0
          {
            TesterSystemMeaning(a, x);
            OracleNonNegative(test, sys, k.exp, x);
          }
        }
        oineqs := oineqs - {k};
      } else if res.sign == SignLattice.Absurd {
        if OracleSound(test) && WellFormed(a) {
          forall x
            ensures !Sat(a, x)
          {
            TesterSystemMeaning(a, x);
            OracleRefutes(test, sys, k.exp, x);
          }
        }
        return false, Absurd;
      } else {
        return false, a;
      }
    }
    return true, a;
  }

  /** The point where every symbol is zero. */
  function Point0(): Point
  {
    v => 0
  }

  // ----- degrees -----

  /**
   * The degree of `e`, as written: a power is measured by its base multiplied
   * by the exponent as a number, which has the degree of the base.
   */
  function DegreeAsWritten(e: Term, vars: set<Sym>, considerPars: bool): nat
    decreases e, 0
  {
    match e
    case Num(_) => 0
    case Var(s) => if considerPars || s in vars then 1 else 0
    case Pow(b, n) => if n == 0 then 0 else DegreeAsWritten(b, vars, considerPars)
    case Mul(fs) => SumDegreesAsWritten(fs, vars, considerPars)
    case Add(ts) => MaxDegreeAsWritten(ts, vars, considerPars)
  }

  function SumDegreesAsWritten(fs: seq<Term>, vars: set<Sym>, considerPars: bool): nat
    decreases fs, 0
  {
    if |fs| == 0 then 0
    else SumDegreesAsWritten(fs[..|fs| - 1], vars, considerPars) + DegreeAsWritten(fs[|fs| - 1], vars, considerPars)
  }

  function MaxDegreeAsWritten(ts: seq<Term>, vars: set<Sym>, considerPars: bool): nat
    decreases ts, 0
  {
    if |ts| == 0 then 0
    else MaxOf(MaxDegreeAsWritten(ts[..|ts| - 1], vars, considerPars), DegreeAsWritten(ts[|ts| - 1], vars, considerPars))
  }

  function MaxOf(m: nat, n: nat): nat
  {
    if m < n then n else m
  }

  /** As written, `x^2` has degree one while the same polynomial written `x*x` has degree two. */
  lemma PowerDegreeAsWritten()
    ensures DegreeAsWritten(Pow(Var(0), 2), {0}, true) == 1
    ensures DegreeAsWritten(Mul([Var(0), Var(0)]), {0}, true) == 2
  {
    assert [Var(0), Var(0)][..1] == [Var(0)];
    assert [Var(0)][..0] == [];
  }

  /**
   * The total degree of `e` in the symbols it counts: every symbol when
   * `considerPars`, otherwise only those of `vars`. A power counts its base's
   * degree once per factor.
   */
  function Degree(e: Term, vars: set<Sym>, considerPars: bool): nat
    decreases e, 0
  {
    match e
    case Num(_) => 0
    case Var(s) => if considerPars || s in vars then 1 else 0
    case Pow(b, n) => n * Degree(b, vars, considerPars)
    case Mul(fs) => SumDegrees(fs, vars, considerPars)
    case Add(ts) => MaxDegree(ts, vars, considerPars)
  }

  function SumDegrees(fs: seq<Term>, vars: set<Sym>, considerPars: bool): nat
    decreases fs, 0
  {
    if |fs| == 0 then 0
    else SumDegrees(fs[..|fs| - 1], vars, considerPars) + Degree(fs[|fs| - 1], vars, considerPars)
  }

  function MaxDegree(ts: seq<Term>, vars: set<Sym>, considerPars: bool): nat
    decreases ts, 0
  {
    if |ts| == 0 then 0
    else MaxOf(MaxDegree(ts[..|ts| - 1], vars, considerPars), Degree(ts[|ts| - 1], vars, considerPars))
  }

  /** `n` copies of `b`. */
  function Copies(b: Term, n: nat): (fs: seq<Term>)
    ensures |fs| == n && forall i :: 0 <= i < n ==> fs[i] == b
  {
    seq(n, _ => b)
  }

  /** A power has the degree of the product of as many copies of its base. */
  lemma {:induction false} PowerDegree(b: Term, n: nat, vars: set<Sym>, considerPars: bool)
    ensures Degree(Pow(b, n), vars, considerPars) == Degree(Mul(Copies(b, n)), vars, considerPars)
  {
    var d := Degree(b, vars, considerPars);
    var k := 0;
    while k < n
      invariant k <= n && SumDegrees(Copies(b, k), vars, considerPars) == k * d
    {
      assert Copies(b, k + 1)[..k] == Copies(b, k);
      assert SumDegrees(Copies(b, k + 1), vars, considerPars) == k * d + d;
      OneMore(k, d);
      k := k + 1;
    }
  }

  lemma OneMore(k: nat, d: nat)
    ensures (k + 1) * d == k * d + d
  {
  }

  /** Counting only the variables never gives more than counting every symbol. */
  lemma {:induction false} VarsDegreeBound(e: Term, vars: set<Sym>)
    ensures Degree(e, vars, false) <= Degree(e, vars, true)
    decreases e, 0
  {
    match e
    case Num(_) =>
    case Var(_) =>
    case Pow(b, n) =>
      VarsDegreeBound(b, vars);
      MulMonotone(n, Degree(b, vars, false), Degree(b, vars, true));
    case Mul(fs) => SumDegreesBound(fs, vars);
    case Add(ts) => MaxDegreeBound(ts, vars);
  }

  lemma MulMonotone(n: nat, p: nat, q: nat)
    requires p <= q
    ensures n * p <= n * q
  {
  }

  lemma {:induction false} SumDegreesBound(fs: seq<Term>, vars: set<Sym>)
    ensures SumDegrees(fs, vars, false) <= SumDegrees(fs, vars, true)
    decreases fs, 0
  {
    if |fs| > 0 {
      SumDegreesBound(fs[..|fs| - 1], vars);
      VarsDegreeBound(fs[|fs| - 1], vars);
    }
  }

  lemma {:induction false} MaxDegreeBound(ts: seq<Term>, vars: set<Sym>)
    ensures MaxDegree(ts, vars, false) <= MaxDegree(ts, vars, true)
    decreases ts, 0
  {
    if |ts| > 0 {
      MaxDegreeBound(ts[..|ts| - 1], vars);
      VarsDegreeBound(ts[|ts| - 1], vars);
    }
  }

  /** `polynomialDegree`, with the loops of the source over the operands of a product and of a sum. */
  method PolynomialDegree(e: Term, vars: set<Sym>, considerPars: bool) returns (d: nat)
    ensures d == Degree(e, vars, considerPars)
    decreases e
  {
    match e
    case Num(_) =>
      d := 0;
    case Var(s) =>
      d := if considerPars || s in vars then 1 else 0;
    case Pow(b, n) =>
      d := PolynomialDegree(b, vars, considerPars);
      d := n * d;
    case Mul(fs) =>
      d := 0;
      for i := 0 to |fs|
        invariant d == SumDegrees(fs[..i], vars, considerPars)
      {
        var di := PolynomialDegree(fs[i], vars, considerPars);
        assert fs[..i + 1][..i] == fs[..i];
        d := d + di;
      }
      assert fs[..|fs|] == fs;
    case Add(ts) =>
      d := 0;
      for i := 0 to |ts|
        invariant d == MaxDegree(ts[..i], vars, considerPars)
      {
        var di := PolynomialDegree(ts[i], vars, considerPars);
        assert ts[..i + 1][..i] == ts[..i];
        d := MaxOf(d, di);
      }
      assert ts[..|ts|] == ts;
  }

  /** `varsDegree`: the degree in the variables alone, never above the total degree. */
  method VarsDegree(c: Conjunction, e: Term) returns (d: nat)
    ensures d == Degree(e, c.vars, false) && d <= Degree(e, c.vars, true)
  {
    d := PolynomialDegree(e, c.vars, false);
    VarsDegreeBound(e, c.vars);
  }
}
