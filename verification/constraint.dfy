/**
 * The constraint store: every constraint `e >= 0` or `e = 0` of the run is
 * interned once, under an integer identity, in an append-only table. Numeric
 * constraints never enter the table: they are the shared TRUE (identity 1)
 * and FALSE (identity -1). A fresh inequality with identity k is stored
 * together with its negation `-e - 1 >= 0` under identity -k.
 */
module ConstraintStore {
  import opened Wrappers
  import opened Terms
  import opened Linear

  /** An interned constraint: `exp = 0` when `eq`, otherwise `exp >= 0`. */
  datatype Constraint = Constraint(exp: Lin, id: int, eq: bool)

  /** The constraint `0 >= 0`. */
  const TrueC: Constraint := Constraint(Lin(0, []), 1, false)

  /** The constraint `-1 >= 0`. */
  const FalseC: Constraint := Constraint(Lin(-1, []), -1, false)

  /** `e = 0` when `isEq`, otherwise `e >= 0`, holds at `x`. */
  predicate HoldsAt(e: Lin, isEq: bool, x: Point)
  {
    if isEq then Value(e, x) == 0 else Value(e, x) >= 0
  }

  predicate Satisfies(c: Constraint, x: Point)
  {
    HoldsAt(c.exp, c.eq, x)
  }

  lemma TrueAndFalse(x: Point)
    ensures Satisfies(TrueC, x) && !Satisfies(FalseC, x)
  {
    NumericValue(TrueC.exp, x);
    NumericValue(FalseC.exp, x);
  }

  /** The negation of an inequality as the store keeps it, under the negated identity. */
  function Not(c: Constraint): (n: Constraint)
    ensures n.id == -c.id && !n.eq
  {
    Constraint(Complement(c.exp), -c.id, false)
  }

  /** The negation of an inequality holds exactly where the inequality fails. */
  lemma NotExcludes(c: Constraint, x: Point)
    requires !c.eq
    ensures Satisfies(Not(c), x) <==> !Satisfies(c, x)
  {
    ComplementExcludes(c.exp, x);
  }

  /** Negating an inequality twice gives it back. */
  lemma NotTwice(c: Constraint)
    requires !c.eq
    ensures Not(Not(c)) == c
  {
    ComplementTwice(c.exp);
  }

  lemma EmptyNeg()
    ensures NegSeq([]) == []
  {
  }

  /** TRUE and FALSE are each other's negation. */
  lemma NotLiterals()
    ensures Not(TrueC) == FalseC && Not(FalseC) == TrueC
  {
    EmptyNeg();
  }

  /** A numeric constraint that holds: the store answers TRUE without interning it. */
  predicate ObviousForm(e: Lin, isEq: bool)
  {
    IsNumeric(e) && (if isEq then e.k == 0 else e.k >= 0)
  }

  /** A numeric constraint that fails: the store answers FALSE without interning it. */
  predicate AbsurdForm(e: Lin, isEq: bool)
  {
    IsNumeric(e) && (if isEq then e.k != 0 else e.k < 0)
  }

  /**
   * A numeric constraint is either obvious or absurd, never both, and it is
   * obvious exactly where (hence everywhere) it holds.
   */
  lemma NumericShortCircuit(e: Lin, isEq: bool, x: Point)
    requires IsNumeric(e)
    ensures ObviousForm(e, isEq) != AbsurdForm(e, isEq)
    ensures ObviousForm(e, isEq) <==> HoldsAt(e, isEq, x)
  {
    NumericValue(e, x);
  }

  /** A stored constraint answers a request for `p`: same kind, same form, or the opposite form for an equality. */
  predicate Matches(c: Constraint, p: Lin, isEq: bool)
  {
    c.eq == isEq && (c.exp == p || (isEq && c.exp == Neg(p)))
  }

  lemma NegTwice(e: Lin)
    ensures Neg(Neg(e)) == e
  {
    assert NegSeq(NegSeq(e.a)) == e.a;
  }

  /** Matching is symmetric between two stored constraints. */
  lemma MatchesSymmetric(c: Constraint, d: Constraint)
    requires Matches(c, d.exp, d.eq)
    ensures Matches(d, c.exp, c.eq)
  {
    NegTwice(d.exp);
  }

  /** No two entries of the table answer the same request. */
  ghost predicate Unique(table: map<int, Constraint>)
  {
    forall i, j :: i in table && j in table && Matches(table[i], table[j].exp, table[j].eq) ==> i == j
  }

  /** Every stored inequality has its negation stored under the negated identity. */
  ghost predicate Paired(table: map<int, Constraint>)
  {
    forall id :: id in table && !table[id].eq ==> -id in table && table[-id] == Not(table[id])
  }

  /** The entries of `t` are kept unchanged in `t'`. */
  ghost predicate Extends(t: map<int, Constraint>, t': map<int, Constraint>)
  {
    forall id :: id in t ==> id in t' && t'[id] == t[id]
  }

  /**
   * Every entry sits under its own identity, below the next identity and
   * above TRUE and FALSE, in canonical non-numeric form; equalities have
   * positive identities and no entry under the negated one.
   */
  ghost predicate Entries(table: map<int, Constraint>, nId: int)
  {
    forall id :: id in table ==>
      && table[id].id == id
      && 2 <= Abs(id) < nId
      && Canonical(table[id].exp)
      && !IsNumeric(table[id].exp)
      && (table[id].eq ==> id > 0 && -id !in table)
  }

  /** The invariant of the store's table and identity counter. */
  ghost predicate WellKept(table: map<int, Constraint>, nId: int)
  {
    nId >= 2 && Entries(table, nId) && Paired(table) && Unique(table)
  }

  /** `table` with `c` added, together with its negation when it is an inequality. */
  function Insert(table: map<int, Constraint>, c: Constraint): (t: map<int, Constraint>)
    ensures c.id in t && t[c.id] == c
  {
    (if c.eq then table else table[-c.id := Not(c)])[c.id := c]
  }

  /** A constraint no entry answers, which the store is about to add under the next identity. */
  ghost predicate Addable(table: map<int, Constraint>, nId: int, c: Constraint)
  {
    && c.id == nId
    && Canonical(c.exp)
    && !IsNumeric(c.exp)
    && (forall id :: id in table ==> !Matches(table[id], c.exp, c.eq))
  }

  /** Adding keeps every old entry. */
  lemma InsertExtends(table: map<int, Constraint>, nId: int, c: Constraint)
    requires Entries(table, nId) && c.id == nId
    ensures Extends(table, Insert(table, c))
  {
    var t := Insert(table, c);
    forall id | id in table
      ensures id in t && t[id] == table[id]
    {
      assert id != c.id && id != -c.id;
    }
  }

  /** Each entry of the enlarged table is well formed. */
  lemma InsertEntry(table: map<int, Constraint>, nId: int, c: Constraint, id: int)
    requires WellKept(table, nId) && Addable(table, nId, c)
    requires id in Insert(table, c)
    ensures var t := Insert(table, c);
      && t[id].id == id && 2 <= Abs(id) < nId + 1 && Canonical(t[id].exp) && !IsNumeric(t[id].exp)
      && (t[id].eq ==> id > 0 && -id !in t)
  {
    var t := Insert(table, c);
    assert Entries(table, nId);
    if id == c.id {
      assert -id !in table;
    } else if id in table {
      assert t[id] == table[id];
      assert -id != c.id && -id != -c.id;
      assert table[id].eq ==> -id !in table;
      assert -id in t ==> -id in table;
    } else {
      assert id == -c.id && t[id] == Not(c);
    }
  }

  lemma InsertEntries(table: map<int, Constraint>, nId: int, c: Constraint)
    requires WellKept(table, nId) && Addable(table, nId, c)
    ensures Entries(Insert(table, c), nId + 1)
  {
    forall id | id in Insert(table, c)
      ensures var t := Insert(table, c);
        && t[id].id == id && 2 <= Abs(id) < nId + 1 && Canonical(t[id].exp) && !IsNumeric(t[id].exp)
        && (t[id].eq ==> id > 0 && -id !in t)
    {
      InsertEntry(table, nId, c, id);
    }
  }

  lemma InsertPaired(table: map<int, Constraint>, nId: int, c: Constraint)
    requires WellKept(table, nId) && Addable(table, nId, c)
    ensures Paired(Insert(table, c))
  {
    var t := Insert(table, c);
    assert Paired(table) && Entries(table, nId);
    if !c.eq {
      NotTwice(c);
    }
    forall id | id in t && !t[id].eq
      ensures -id in t && t[-id] == Not(t[id])
    {
      if id in table {
        assert t[id] == table[id] && t[-id] == table[-id];
      }
    }
  }

  /** The negation of a constraint no entry answers is not answered by any entry either. */
  lemma NotUnanswered(table: map<int, Constraint>, nId: int, c: Constraint)
    requires WellKept(table, nId) && Addable(table, nId, c) && !c.eq
    ensures forall id :: id in table ==> !Matches(table[id], Not(c).exp, false)
  {
    assert Paired(table);
    forall id | id in table
      ensures !Matches(table[id], Not(c).exp, false)
    {
      if Matches(table[id], Not(c).exp, false) {
        NotTwice(table[id]);
        ComplementTwice(c.exp);
        assert table[-id] == Not(table[id]);
        assert Matches(table[-id], c.exp, c.eq);
      }
    }
  }

  lemma InsertUnique(table: map<int, Constraint>, nId: int, c: Constraint)
    requires WellKept(table, nId) && Addable(table, nId, c)
    ensures Unique(Insert(table, c))
  {
    var t := Insert(table, c);
    assert Unique(table) && Entries(table, nId);
    if !c.eq {
      NotUnanswered(table, nId, c);
    }
    forall i, j | i in t && j in t && Matches(t[i], t[j].exp, t[j].eq)
      ensures i == j
    {
      if i in table && j in table {
        assert t[i] == table[i] && t[j] == table[j];
      } else if i !in table && j !in table {
        assert t[i].exp.k != t[j].exp.k || i == j;
      } else if j in table {
        MatchesSymmetric(t[i], t[j]);
      }
    }
  }

  /** Adding a constraint no entry answers keeps the table well kept and its old entries unchanged. */
  lemma InsertKeeps(table: map<int, Constraint>, nId: int, c: Constraint)
    requires WellKept(table, nId) && Addable(table, nId, c)
    ensures WellKept(Insert(table, c), nId + 1) && Extends(table, Insert(table, c))
  {
    InsertExtends(table, nId, c);
    InsertEntries(table, nId, c);
    InsertPaired(table, nId, c);
    InsertUnique(table, nId, c);
  }

  /** A numeric request is answered by TRUE or FALSE, meaning what was asked. */
  lemma NumericMeaning(e: Lin, isEq: bool)
    requires IsNumeric(e)
    ensures forall x :: Satisfies(if ObviousForm(e, isEq) then TrueC else FalseC, x) <==> HoldsAt(e, isEq, x)
  {
    forall x ensures Satisfies(if ObviousForm(e, isEq) then TrueC else FalseC, x) <==> HoldsAt(e, isEq, x) {
      NumericShortCircuit(e, isEq, x);
      TrueAndFalse(x);
    }
  }

  /**
   * `c` is what the store answers to a request for `e >= 0` (or `e = 0`
   * when `isEq`): TRUE or FALSE for a numeric form, otherwise a constraint
   * of the requested kind whose form is the canonical one or, for an
   * equality, its negation.
   */
  predicate Answers(c: Constraint, e: Lin, isEq: bool)
  {
    if IsNumeric(e) then c == (if ObviousForm(e, isEq) then TrueC else FalseC)
    else Matches(c, Canon(e, isEq), isEq)
  }

  /** The store's answer means what was asked. */
  lemma AnswersMeaning(c: Constraint, e: Lin, isEq: bool, x: Point)
    requires Answers(c, e, isEq)
    ensures Satisfies(c, x) <==> HoldsAt(e, isEq, x)
  {
    if IsNumeric(e) {
      NumericMeaning(e, isEq);
    } else {
      MatchMeaning(c, e, isEq);
    }
  }

  /** Two table entries of the same kind and form are the same entry. */
  lemma SameEntry(table: map<int, Constraint>, nId: int, a: Constraint, b: Constraint)
    requires WellKept(table, nId)
    requires a.id in table && table[a.id] == a && b.id in table && table[b.id] == b
    requires a.eq == b.eq && a.exp == b.exp
    ensures a == b
  {
    assert Unique(table);
    assert Matches(table[a.id], table[b.id].exp, table[b.id].eq);
  }

  /** A constraint answering the canonical form of a request means what was asked. */
  lemma MatchMeaning(c: Constraint, e: Lin, isEq: bool)
    requires Matches(c, Canon(e, isEq), isEq)
    ensures forall x :: Satisfies(c, x) <==> HoldsAt(e, isEq, x)
  {
    forall x ensures Satisfies(c, x) <==> HoldsAt(e, isEq, x) {
      ValueCanon(e, isEq, x);
      ValueNeg(Canon(e, isEq), x);
    }
  }

  class Store {
    var table: map<int, Constraint>
    var nId: int

    ghost predicate Valid()
      reads this
    {
      WellKept(table, nId)
    }

    /** `c` is TRUE, FALSE or an entry of the table. */
    ghost predicate Registered(c: Constraint)
      reads this
    {
      c == TrueC || c == FalseC || (c.id in table && table[c.id] == c)
    }

    constructor ()
      ensures Valid() && table == map[] && nId == 2
    {
      table := map[];
      nId := 2;
    }

    /** The constraint with identity `id`. */
    function GetId(id: int): (c: Constraint)
      reads this
      requires Valid() && (id == 1 || id == -1 || id in table)
      ensures c.id == id && Registered(c)
    {
      assert Entries(table, nId);
      if id == TrueC.id then TrueC
      else if id == FalseC.id then FalseC
      else table[id]
    }

    /** The negation of a registered inequality, found under the negated identity. */
    function GetNot(c: Constraint): (n: Constraint)
      reads this
      requires Valid() && Registered(c) && !c.eq
      ensures n == Not(c) && Registered(n)
    {
      assert Paired(table);
      if c == TrueC then FalseC else if c == FalseC then TrueC else table[-c.id]
    }

    /**
     * Interns `e >= 0`, or `e = 0` when `isEq`. The answer means what was
     * asked at every integer point; numeric requests are answered by TRUE or
     * FALSE; an entry answering the canonical form is reused; otherwise a
     * fresh identity is allocated, and a fresh inequality brings its
     * negation along.
     */
    method Get(e: Lin, isEq: bool) returns (c: Constraint)
      requires Valid()
      modifies this
      ensures Valid() && Registered(c) && Extends(old(table), table) && nId >= old(nId)
      ensures forall x :: Satisfies(c, x) <==> HoldsAt(e, isEq, x)
      ensures c.eq ==> isEq
      ensures Answers(c, e, isEq)
      ensures IsNumeric(e) ==> table == old(table) && nId == old(nId)
      ensures IsNumeric(e) ==> c == (if ObviousForm(e, isEq) then TrueC else FalseC)
      ensures !IsNumeric(e) ==> c.id in table && Matches(c, Canon(e, isEq), isEq)
      ensures !IsNumeric(e) && (exists id :: id in old(table) && Matches(old(table)[id], Canon(e, isEq), isEq)) ==>
                table == old(table) && nId == old(nId)
      ensures !IsNumeric(e) && (forall id :: id in old(table) ==> !Matches(old(table)[id], Canon(e, isEq), isEq)) ==>
                && c == Constraint(Canon(e, isEq), old(nId), isEq)
                && nId == old(nId) + 1
                && table == Insert(old(table), c)
    {
      if IsNumeric(e) {
        NumericMeaning(e, isEq);
        NumericShortCircuit(e, isEq, e => 0);
      }
      if ObviousForm(e, isEq) {
        return TrueC;
      }
      if AbsurdForm(e, isEq) {
        return FalseC;
      }
      var p := Canon(e, isEq);
      NumericCanon(e, isEq);
      if id :| id in table && Matches(table[id], p, isEq) {
        c := table[id];
        MatchMeaning(c, e, isEq);
        return;
      }
      c := Constraint(p, nId, isEq);
      MatchMeaning(c, e, isEq);
      InsertKeeps(table, nId, c);
      table := Insert(table, c);
      nId := nId + 1;
    }

    /**
     * Interns a textual constraint: TRUE for empty text or `true`, FALSE for
     * `false`, and otherwise the relation it spells, which means at every
     * integer point what the text says. Bad input leaves the store as it was.
     */
    method GetText(buf: string, parse: string -> Option<Lin>) returns (r: Result<Constraint>)
      requires Valid()
      modifies this
      ensures Valid() && Extends(old(table), table) && nId >= old(nId)
      ensures r.Success? <==> ParseConstraint(buf, parse).Success?
      ensures r.Success? ==> Registered(r.value)
      ensures r.Success? ==> forall x :: Satisfies(r.value, x) <==> Means(ParseConstraint(buf, parse).value, x)
      ensures r.Failure? ==> table == old(table) && nId == old(nId)
    {
      var t := IsTrue(buf);
      if |buf| == 0 || t {
        forall x ensures Satisfies(TrueC, x) { TrueAndFalse(x); }
        return Success(TrueC);
      }
      var f := IsFalse(buf);
      if f {
        forall x ensures !Satisfies(FalseC, x) { TrueAndFalse(x); }
        return Success(FalseC);
      }
      match ParseConstraint(buf, parse)
      case Failure(msg) =>
        r := Failure(msg);
      case Success(Literal(b)) =>
        r := Success(if b then TrueC else FalseC);
        forall x ensures Satisfies(r.value, x) <==> b { TrueAndFalse(x); }
      case Success(Relation(e, isEq)) =>
        var c := Get(e, isEq);
        r := Success(c);
    }
  }

  // ----- textual constraints -----

  /** The lower-case form of an ASCII letter; other characters are kept. */
  function Lower(ch: char): char
  {
    if 'A' <= ch <= 'Z' then (ch as int + 32) as char else ch
  }

  function LowerString(s: string): (r: string)
    ensures |r| == |s| && forall i :: 0 <= i < |s| ==> r[i] == Lower(s[i])
  {
    seq(|s|, i requires 0 <= i < |s| => Lower(s[i]))
  }

  /** Each character matches either case exactly when its lower-case form matches. */
  lemma {:induction false} CaseInsensitive(s: string, lower: string, upper: string)
    requires |s| == |lower| == |upper|
    requires forall i :: 0 <= i < |s| ==> 'a' <= lower[i] <= 'z' && upper[i] as int == lower[i] as int - 32
    ensures (forall i :: 0 <= i < |s| ==> s[i] == lower[i] || s[i] == upper[i]) <==> LowerString(s) == lower
  {
    if forall i :: 0 <= i < |s| ==> s[i] == lower[i] || s[i] == upper[i] {
      assert forall i :: 0 <= i < |s| ==> LowerString(s)[i] == lower[i];
    }
    if LowerString(s) == lower {
      forall i | 0 <= i < |s|
        ensures s[i] == lower[i] || s[i] == upper[i]
      {
        assert Lower(s[i]) == lower[i];
      }
    }
  }

  /** Whether `s` is the text `true` in any mix of letter cases. */
  method IsTrue(s: string) returns (b: bool)
    ensures b <==> LowerString(s) == "true"
  {
    if |s| != 4 {
      return false;
    }
    var t1, t2 := "true", "TRUE";
    CaseInsensitive(s, t1, t2);
    var i := 0;
    while i < 4
      invariant 0 <= i <= 4
      invariant forall j :: 0 <= j < i ==> s[j] == t1[j] || s[j] == t2[j]
    {
      if s[i] != t1[i] && s[i] != t2[i] {
        return false;
      }
      i := i + 1;
    }
    return true;
  }

  /** Whether `s` is the text `false` in any mix of letter cases. */
  method IsFalse(s: string) returns (b: bool)
    ensures b <==> LowerString(s) == "false"
  {
    var f1, f2 := "false", "FALSE";
    if |s| != 5 {
      return false;
    }
    CaseInsensitive(s, f1, f2);
    var i := 0;
    while i < 5
      invariant 0 <= i <= 5
      invariant forall j :: 0 <= j < i ==> s[j] == f1[j] || s[j] == f2[j]
    {
      if s[i] != f1[i] && s[i] != f2[i] {
        return false;
      }
      i := i + 1;
    }
    return true;
  }

  predicate StartsWith(s: string, prefix: string)
  {
    |prefix| <= |s| && s[..|prefix|] == prefix
  }

  predicate IsRelationChar(ch: char)
  {
    ch == '>' || ch == '<' || ch == '='
  }

  /** The first position at or after `from` holding a relation character, or `|s|`. */
  function FindRelation(s: string, from: nat): (pos: nat)
    requires from <= |s|
    ensures from <= pos <= |s|
    ensures pos < |s| ==> IsRelationChar(s[pos])
    ensures forall i :: from <= i < pos ==> !IsRelationChar(s[i])
    decreases |s| - from
  {
    if from == |s| || IsRelationChar(s[from]) then from else FindRelation(s, from + 1)
  }

  /** The character after `pos`, or the terminating null character at the end of the text. */
  function CharAfter(s: string, pos: nat): char
  {
    if pos + 1 < |s| then s[pos + 1] else 0 as char
  }

  /** What a textual constraint stands for before interning. */
  datatype Parsed = Literal(value: bool) | Relation(exp: Lin, isEq: bool)

  predicate Means(p: Parsed, x: Point)
  {
    match p
    case Literal(b) => b
    case Relation(e, isEq) => HoldsAt(e, isEq, x)
  }

  /** The meaning of a relation symbol between two integers. */
  predicate Compare(op: string, u: int, w: int)
  {
    if op == ">=" then u >= w
    else if op == ">" then u > w
    else if op == "<=" then u <= w
    else if op == "<" then u < w
    else u == w
  }

  predicate IsOperator(op: string)
  {
    op == ">=" || op == ">" || op == "<=" || op == "<" || op == "=" || op == "=="
  }

  /**
   * The constraint for `lhs rel rhs`, where `rel` is the first character of
   * the relation symbol and `twoChars` says whether a `=` follows it. Strict
   * relations become non-strict ones on integers by moving one unit.
   */
  function Translate(rel: char, twoChars: bool, lhs: Lin, rhs: Lin): Parsed
  {
    if rel == '>' then
      if twoChars then Relation(Sub(lhs, rhs), false)
      else Relation(Offset(Sub(lhs, rhs), -1), false)
    else if rel == '<' then
      if twoChars then Relation(Sub(rhs, lhs), false)
      else Relation(Offset(Sub(rhs, lhs), -1), false)
    else Relation(Sub(lhs, rhs), true)
  }

  /** The translated constraint holds exactly where the relation holds between the two sides. */
  lemma TranslateMeaning(op: string, lhs: Lin, rhs: Lin, x: Point)
    requires IsOperator(op)
    ensures Means(Translate(op[0], |op| == 2, lhs, rhs), x) <==> Compare(op, Value(lhs, x), Value(rhs, x))
  {
    ValueSub(lhs, rhs, x);
    ValueSub(rhs, lhs, x);
    ValueOffset(Sub(lhs, rhs), -1, x);
    ValueOffset(Sub(rhs, lhs), -1, x);
  }

  /**
   * A textual constraint: empty or `true` is TRUE, `false` is FALSE,
   * `eq<expr>` and `ineq<expr>` are prefix forms, and otherwise the first
   * relation symbol splits the text into two sides. A side the parser
   * rejects, or text without a relation symbol, is bad input.
   */
  function ParseConstraint(buf: string, parse: string -> Option<Lin>): (r: Result<Parsed>)
    ensures |buf| == 0 || LowerString(buf) == "true" ==> r == Success(Literal(true))
    ensures LowerString(buf) == "false" ==> r == Success(Literal(false))
    ensures r.Success? && r.value.Literal? ==> |buf| == 0 || LowerString(buf) in {"true", "false"}
  {
    if |buf| == 0 || LowerString(buf) == "true" then Success(Literal(true))
    else if LowerString(buf) == "false" then Success(Literal(false))
    else if StartsWith(buf, "eq") then
      match parse(buf[2..])
      case None => Failure("bad input")
      case Some(x) => Success(Relation(x, true))
    else if StartsWith(buf, "ineq") then
      match parse(buf[4..])
      case None => Failure("bad input")
      case Some(x) => Success(Relation(x, false))
    else
      var pos := FindRelation(buf, 0);
      if pos == |buf| then Failure("no relation symbol")
      else
        var twoChars := CharAfter(buf, pos) == '=';
        var rhsText := if twoChars then buf[pos + 2..] else buf[pos + 1..];
        match (parse(buf[..pos]), parse(rhsText))
        case (Some(lhs), Some(rhs)) => Success(Translate(buf[pos], twoChars, lhs, rhs))
        case _ => Failure("bad input")
  }

  /** Text holding a relation symbol is neither `true` nor `false`. */
  lemma NotLiteralText(buf: string, pos: nat)
    requires pos < |buf| && IsRelationChar(buf[pos])
    ensures LowerString(buf) != "true" && LowerString(buf) != "false"
  {
    assert LowerString(buf)[pos] == buf[pos];
  }

  /** In `lhs op rhs` the first relation symbol is the operator, and the text splits back into its parts. */
  lemma {:induction false} SplitAtRelation(lhs: string, op: string, rhs: string)
    requires IsOperator(op)
    requires forall i :: 0 <= i < |lhs| ==> !IsRelationChar(lhs[i])
    requires |op| == 1 && |rhs| > 0 ==> rhs[0] != '='
    ensures var buf := lhs + op + rhs;
      && FindRelation(buf, 0) == |lhs| < |buf|
      && buf[|lhs|] == op[0]
      && (CharAfter(buf, |lhs|) == '=' <==> |op| == 2)
      && buf[..|lhs|] == lhs
      && (if |op| == 2 then buf[|lhs| + 2..] else buf[|lhs| + 1..]) == rhs
  {
    var buf := lhs + op + rhs;
    assert buf[|lhs|] == op[0];
    assert forall i :: 0 <= i < |lhs| ==> buf[i] == lhs[i];
    assert buf[..|lhs|] == lhs;
    if |op| == 2 {
      assert buf[|lhs| + 1] == op[1];
      assert buf[|lhs| + 2..] == rhs;
    } else {
      assert buf[|lhs| + 1..] == rhs;
      if |rhs| > 0 {
        assert buf[|lhs| + 1] == rhs[0];
      }
    }
  }

  /**
   * Text `lhs op rhs` whose left side holds no relation symbol is read as a
   * constraint that holds exactly where `lhs op rhs` does, at every integer
   * point.
   */
  lemma RelationMeaning(lhs: string, op: string, rhs: string, parse: string -> Option<Lin>, x: Point)
    requires IsOperator(op)
    requires forall i :: 0 <= i < |lhs| ==> !IsRelationChar(lhs[i])
    requires |op| == 1 && |rhs| > 0 ==> rhs[0] != '='
    requires !StartsWith(lhs + op + rhs, "eq") && !StartsWith(lhs + op + rhs, "ineq")
    requires parse(lhs).Some? && parse(rhs).Some?
    ensures ParseConstraint(lhs + op + rhs, parse).Success?
    ensures Means(ParseConstraint(lhs + op + rhs, parse).value, x)
        <==> Compare(op, Value(parse(lhs).value, x), Value(parse(rhs).value, x))
  {
    var buf := lhs + op + rhs;
    SplitAtRelation(lhs, op, rhs);
    NotLiteralText(buf, |lhs|);
    var l, r := parse(lhs).value, parse(rhs).value;
    assert parse(buf[..|lhs|]) == Some(l);
    assert parse(if CharAfter(buf, |lhs|) == '=' then buf[|lhs| + 2..] else buf[|lhs| + 1..]) == Some(r);
    assert ParseConstraint(buf, parse) == Success(Translate(op[0], |op| == 2, l, r));
    TranslateMeaning(op, parse(lhs).value, parse(rhs).value, x);
  }
}
