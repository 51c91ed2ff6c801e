# PFME quantifier elimination core, modelled in Dafny

PFME eliminates the existentially quantified variables of a disjunction of
conjunctions of polynomial constraints (`e = 0`, `e >= 0`) over the integers.
Variables are removed by Fourier–Motzkin elimination, which the source calls
`Motzkin`. The signs that decide each step come from a positivity tester.
This tester is a Schweighofer/Positivstellensatz certificate search. A
pre-pass of syntactic comparisons and a matrix of products of the source
inequalities feed a linear program. Around the tester sit four pieces:

- the interned constraint store (`Constraint`);
- the conjunction with its normalisation, `removeJoin`, `implies`, `&` and
  degree queries (`Conjunction`);
- the disjunction list with its reading, joining, duplicate and implicator
  pruning (`Disjunction`);
- the simplifier passes `tightening`, `getRoots`, `selectTarget` and
  `Motzkin` (`Simplifier`).

The model has nine modules, one per concern:

- `Wrappers` (`wrappers.dfy`): the Option and Result datatypes.
- `SignLattice` (`signs.dfy`): the `SIGN` enum with its byte encoding, the
  `testResult` record and what each sign means for a value, `MAX_ERROR`,
  and the certificate order.
- `Terms` (`terms.dfy`): polynomial expression trees (number, symbol, power,
  n-ary product and sum) with their real value. These are the shapes the
  algebra library hands to the tester and to `polynomialDegree`.
- `Linear` (`linear.dfy`): expanded integer linear forms `k + a0*x0 + a1*x1
  + ...`. This is the form constraint expressions take in the store and in
  elimination. The module also covers integer content, negation, and the
  stored complement `-e - 1`.
- `ConstraintStore` (`constraint.dfy`): the `Constraint` record, the
  TRUE/FALSE constants, and the `Store` class that interns constraints. The
  store's `get` by expression, by id and by text are modelled.
- `Conjunctions` (`conjunction.dfy`): the conjunction value, its
  constructors, `removeUnused`, `removeJoin`, `&`, `size`, `detectEqs`,
  `rebuild`, the tester system, `implies` and the degree queries.
- `Disjunctions` (`disjunction.dfy`): the `Disjunction` class over a list of
  conjunctions.
- `Schweighofer` (`schweighofer.dfy`): the tester's factorised-sign rules,
  its syntactic pre-pass, monomial gathering, and the construction of the
  product table (`expandSrcs`). It also covers the `Tester` class (sources,
  tables, `clear`, the pre-LP part of `test`).
- `Simplifiers` (`simplifier.dfy`): `compose`, `proved`, `tightening`,
  `getRoots`, `selectTarget`, `Motzkin` and the `Simplifier` class state.
  That state is the conjunction, the list of returned conjunctions, the
  target and its degree, and the system the tester was built from.

Points are integer assignments `Point = Sym -> int`. `Satisfies(k, x)` says
constraint `k` holds at `x`, and `Sat(c, x)` says every constraint of
conjunction `c` holds there. The linear-programming solver and the algebra
library are not modelled. So wherever the source asks the tester for a sign,
the model takes a function parameter `Oracle`. `OracleSound(test)` (equally
`SoundTester`) is the tester's promise: whenever every expression of the
tested system is non-negative at a point, the returned sign holds for the
tested expression at that point. The soundness results below are all stated
under that assumption. Where the source expands or parses with the algebra
library, the model takes the parse as a parameter too.

## Model

| member | source | states |
|---|---|---|
| SignLattice.Code | FM/Schweighofer.hpp:30-39 | each sign is encoded by the enum's byte; 6 and values above 7 are never produced |
| SignLattice.Decode | FM/Schweighofer.hpp:30-39 | a byte is a sign exactly when it is at most 7 and not 6 |
| SignLattice.DecodeCode | FM/Schweighofer.hpp:30-39 | decoding the code of a sign gives the sign back, so no two signs share a byte |
| SignLattice.CodeDecode | FM/Schweighofer.hpp:30-39 | encoding a decoded byte gives the byte back |
| SignLattice.SignBits | FM/Schweighofer.hpp:30-39 | GEZ is the bit union of GTZ and ZERO, LEZ that of LTZ and ZERO, ABSURD holds every sign bit, UNKNOWN is 0 |
| SignLattice.MaxOrder | FM/Schweighofer.cpp:12 | the certificate order is the requested degree, and at least 1 when 0 is requested |
| SignLattice.Power | FM/Schweighofer.cpp:241-272 | a power of a positive (non-negative) base is positive (non-negative); a positive power of 0 is 0 |
| Terms.EvalPow | FM/Schweighofer.cpp:241-272 | the value of `b^n` is the n-th power of the value of `b` |
| Linear.NumericValue | FM/Constraint.cpp:44-55 | a form without symbols has its constant as value at every point |
| Linear.Neg | FM/Constraint.cpp:36-40 | negation flips every coefficient, keeps canonical forms canonical and numeric forms numeric |
| Linear.ValueNeg | FM/Constraint.cpp:36-40 | the negated form has the negated value |
| Linear.Complement | FM/Constraint.cpp:64-69 | the stored negation `-e - 1` keeps canonical forms canonical and numeric forms numeric |
| Linear.ValueComplement | FM/Constraint.cpp:64-69 | the value of `-e - 1` is minus the value minus one |
| Linear.ComplementTwice | FM/Constraint.cpp:64-69 | complementing twice gives the form back |
| Linear.ComplementExcludes | FM/Constraint.cpp:64-69 | over the integers, `-e - 1 >= 0` holds exactly where `e >= 0` fails |
| Linear.Combine | FM/Simplifier.cpp:2183 | a linear combination has the combined coefficients and is canonical |
| Linear.ValueCombine | FM/Simplifier.cpp:2183 | the value of a linear combination is the same combination of the values |
| Linear.ValueSub | FM/Simplifier.cpp:1107 | the difference of two forms has the difference of their values |
| Linear.ValueOffset | FM/Simplifier.cpp:1107 | adding a constant adds it to the value |
| Linear.Without | FM/Simplifier.cpp:2212-2213 | substituting 0 for a symbol zeroes its coefficient and keeps the other coefficients and the constant |
| Linear.ValueWithout | FM/Simplifier.cpp:2175-2176 | a form splits into its coefficient of `v` times `v` plus the rest |
| Linear.ContentDivides | FM/Constraint.cpp:29-33 | the integer content is 0 only for the zero form and otherwise divides the constant and every coefficient |
| Linear.Primitive | FM/Constraint.cpp:29-33 | dividing out the integer content gives a canonical form |
| Linear.ValuePrimitive | FM/Constraint.cpp:29-33 | dividing out the content keeps where the form is `>= 0` and where it is `= 0` |
| Linear.NumericPrimitive | FM/Constraint.cpp:29-33 | dividing out the content keeps a form numeric or symbolic |
| Linear.Canon | FM/Constraint.cpp:29-40 | the stored form of an expression is canonical |
| Linear.ValueCanon | FM/Constraint.cpp:29-40 | the stored form means the same inequality (or equality) as the expression |
| Linear.NumericCanon | FM/Constraint.cpp:29-55 | the stored form is numeric exactly when the expression is |
| Linear.NonZerosNumeric | FM/Simplifier.cpp:1447-1462 | the number of non-zero coefficients is 0 exactly for a numeric form |
| ConstraintStore.Not | FM/Constraint.cpp:13-19 | the negation of a constraint is the one stored under the negated id, an inequality |
| ConstraintStore.NotExcludes | FM/Constraint.cpp:64-69 | an inequality's stored negation holds exactly where the inequality fails |
| ConstraintStore.NotTwice | FM/Constraint.cpp:64-69 | negating an inequality twice gives it back |
| ConstraintStore.NumericShortCircuit | FM/Constraint.cpp:180-190 | a numeric expression is either obvious or absurd, and obvious exactly when the constraint holds |
| ConstraintStore.NegTwice | FM/Constraint.cpp:57-62 | negating a form twice gives it back |
| ConstraintStore.MatchesSymmetric | FM/Constraint.cpp:57-62 | the store's match (equal, or for equalities equal up to sign) is symmetric |
| ConstraintStore.InsertKeeps | FM/Constraint.cpp:64-69 | inserting a new constraint (with its negation for an inequality) keeps the store invariant: ids match keys, ids below the counter, one entry per form, negations paired; old entries kept |
| ConstraintStore.NumericMeaning | FM/Constraint.cpp:44-55 | the TRUE/FALSE chosen for a numeric expression means the same as the constraint |
| ConstraintStore.MatchMeaning | FM/Constraint.cpp:57-62 | a stored constraint that matches the expression's stored form means the same as the expression |
| ConstraintStore.Store.constructor | FM/Constraint.cpp:399 | an empty store whose id counter starts at 2 |
| ConstraintStore.Store.GetId | FM/Constraint.cpp:13-19 | lookup by id gives the constraint carrying that id, registered in the store |
| ConstraintStore.Store.GetNot | FM/Constraint.cpp:13-19 | lookup by the negated id gives the stored negation |
| ConstraintStore.Store.Get | FM/Constraint.cpp:21-70 | the returned constraint means the requested one; numeric requests give TRUE/FALSE and leave the store alone; a match is reused; otherwise a new id is taken and the entry inserted |
| ConstraintStore.Store.GetText | FM/Constraint.cpp:72-165 | text that parses gives a registered constraint meaning what the text says; text that does not leaves the store unchanged |
| ConstraintStore.LowerString | FM/Constraint.cpp:200-223 | lower-casing keeps length and maps each character |
| ConstraintStore.CaseInsensitive | FM/Constraint.cpp:200-223 | matching each character against the lower or the upper spelling is comparing the lower-cased text |
| ConstraintStore.IsTrue | FM/Constraint.cpp:200-211 | the text is "true" in any mixture of cases |
| ConstraintStore.IsFalse | FM/Constraint.cpp:212-223 | the text is "false" in any mixture of cases |
| ConstraintStore.FindRelation | FM/Constraint.cpp:91-117 | the first relation character at or after the start, or the end |
| ConstraintStore.TranslateMeaning | FM/Constraint.cpp:136-162 | each operator (`<`, `<=`, `>`, `>=`, `=`, `==`) becomes a constraint meaning that comparison of the two sides |
| ConstraintStore.ParseConstraint | FM/Constraint.cpp:76-89 | empty or "true" text is TRUE, "false" text is FALSE, and no other text is a literal |
| ConstraintStore.NotLiteralText | FM/Constraint.cpp:91-117 | text holding a relation character is neither "true" nor "false" |
| ConstraintStore.SplitAtRelation | FM/Constraint.cpp:91-135 | `lhs op rhs` is split exactly at the operator, recognising its two-character form |
| ConstraintStore.RelationMeaning | FM/Constraint.cpp:72-165 | parsing `lhs op rhs` succeeds and means `lhs op rhs` |
| Conjunctions.SatConstants | FM/Conjunction.cpp:34-40 | ABSURD has no point and OBVIOUS every point |
| Conjunctions.Pruned | FM/Conjunction.cpp:364-393 | pruning keeps the constraints and exactly the variables and parameters that occur in them |
| Conjunctions.PrunedIdempotent | FM/Conjunction.cpp:364-393 | pruning twice is pruning once, and pruning keeps the points |
| Conjunctions.RemoveUnusedFrom | FM/Conjunction.cpp:364-393 | the loop keeps exactly the symbols some constraint uses |
| Conjunctions.RemoveUnused | FM/Conjunction.cpp:364-393 | `removeUnused` computes the pruned conjunction |
| Conjunctions.Normalized | FM/Conjunction.cpp:42-85 | defines the normalised conjunction: TRUE dropped, ABSURD for FALSE or an inverse pair, OBVIOUS when nothing is left, otherwise pruned (its properties are NormalizedMeaning and NormalizedShape) |
| Conjunctions.NegatedPairExcludes | FM/Conjunction.cpp:59-84 | an inequality and its stored negation never hold together |
| Conjunctions.NormalizedMeaning | FM/Conjunction.cpp:42-85 | the normalised conjunction holds exactly where all given constraints hold |
| Conjunctions.NormalizedShape | FM/Conjunction.cpp:42-85 | ABSURD only for FALSE or an inverse pair, OBVIOUS only when all are TRUE, otherwise the TRUE-free constraints with no inverse pair |
| Conjunctions.FindNegatedPair | FM/Conjunction.cpp:59-84 | the inverse-pair loop reports exactly whether an inequality and its negation are both present |
| Conjunctions.Construct | FM/Conjunction.cpp:42-85 | the 5-argument constructor computes the normalised conjunction |
| Conjunctions.Split | FM/Conjunction.cpp:87-95 | splitting a constraint set by kind gives a conjunction holding exactly where the set holds |
| Conjunctions.Intern | FM/Constraint.cpp:21-70 | `Constraint::get` through the store: the answer means the requested constraint, is an equality only when one was asked for, and is registered unless numeric |
| Conjunctions.HasInverseConstraints | FM/Conjunction.cpp:497-508 | true for ABSURD or when an inequality with negative id is present with its negation |
| Conjunctions.InversePairByNegativeId | FM/Conjunction.cpp:497-508 | looking only at negative ids finds every inverse pair |
| Conjunctions.OfKind | FM/Conjunction.cpp:456-495 | the equalities (or inequalities) of a set |
| Conjunctions.EraseAll | FM/Conjunction.cpp:462-468 | erasing removes each constraint from its kind's set and reports whether anything went |
| Conjunctions.JoinAll | FM/Conjunction.cpp:469-485 | joining FALSE is absurd; otherwise the non-TRUE constraints are added by kind and the change reported |
| Conjunctions.RemoveJoin | FM/Conjunction.cpp:456-495 | `removeJoin` computes its specification (erase, then join, ABSURD on FALSE) |
| Conjunctions.RemoveJoinMeaning | FM/Conjunction.cpp:456-495 | the result holds exactly where the kept constraints and the joined ones hold |
| Conjunctions.JoinMeaning | FM/Conjunction.cpp:456-495 | joining without removing is conjunction with the joined constraints |
| Conjunctions.RemoveJoinUnchanged | FM/Conjunction.cpp:456-495 | ABSURD is never changed, an empty request reports no change, and no reported change means the same constraints |
| Conjunctions.RemoveJoinChanged | FM/Conjunction.cpp:456-495 | joining FALSE gives ABSURD; with disjoint requests the flag is exactly whether the constraints changed |
| Conjunctions.RemoveJoinWellFormed | FM/Conjunction.cpp:456-495 | a well-formed conjunction stays well-formed |
| Conjunctions.AndMeaning | FM/Conjunction.cpp:402-417 | the conjunction of two conjunctions holds exactly where both hold |
| Conjunctions.And | FM/Conjunction.cpp:402-417 | defines `&`: the second operand joined with the first operand's equalities, then its inequalities, symbols merged and pruned (its meaning is AndMeaning) |
| Conjunctions.AndConstraint | FM/Conjunction.cpp:419-435 | adding one constraint holds where both hold; FALSE gives ABSURD, TRUE changes nothing |
| Conjunctions.AndSet | FM/Conjunction.cpp:437-454 | adding a set: FALSE gives ABSURD, otherwise the non-TRUE constraints are added by kind; meaning is conjunction |
| Conjunctions.Size | FM/Conjunction.hpp:86-88 | defines the size: each equality counts twice and each inequality once |
| Conjunctions.TesterSystem | FM/Conjunction.hpp:39-55 | OBVIOUS gives the empty system, ABSURD the system `{-1}` |
| Conjunctions.TesterSystemMeaning | FM/Conjunction.hpp:39-55 | a well-formed conjunction holds exactly where every expression of its tester system is non-negative |
| Conjunctions.DetectStep | FM/Conjunction.hpp:113-122 | turning an inequality and its opposite into an equality keeps the points |
| Conjunctions.OppositeAnswer | FM/Conjunction.hpp:115 | the store answers `-e >= 0` for a stored inequality with the stored entry of the opposite form |
| Conjunctions.MergeAccounted | FM/Conjunction.hpp:118-120 | after one merge, every inequality gone was merged with a gone partner into an equality that is present |
| Conjunctions.MergeSourced | FM/Conjunction.hpp:118-120 | after one merge, every new equality comes from two inequalities that are gone |
| Conjunctions.NoPartner | FM/Conjunction.hpp:116-117 | when the stored partner of an inequality is absent, no inequality of its opposite form is present |
| Conjunctions.DetectOne | FM/Conjunction.hpp:114-121 | one iteration keeps the points, only merges, and keeps every inequality already visited without its partner |
| Conjunctions.DetectEqs | FM/Conjunction.hpp:113-122 | `detectEqs` keeps the symbols and the points and only moves constraints from inequalities to equalities; when the inequalities are store entries, no inequality is left together with the stored inequality of its opposite form, every inequality that went was merged with such a partner into an equality now present, and every new equality comes from such a merge |
| Conjunctions.Rebuild | FM/Conjunction.hpp:64-73 | the rebuilt conjunction keeps the symbols; each form `e` of the system is represented by the store's equality for `e` when `-e` is also in the system and by its inequality otherwise; nothing else is added; it holds exactly where the system is non-negative |
| Conjunctions.Classify | FM/Conjunction.hpp:66-71 | the loop represents every form of the system by the store's constraint of the kind its opposite decides, and adds nothing else |
| Conjunctions.ClassifyOne | FM/Conjunction.hpp:67-70 | one form joins the equalities when its opposite is in the system, the inequalities otherwise |
| Conjunctions.ClassifyStep | FM/Conjunction.hpp:67-70 | adding the answer for one more form keeps both the representation and the absence of anything extra |
| Conjunctions.RepresentedMeaning | FM/Conjunction.hpp:64-73 | where constraints representing every form hold, the system is non-negative |
| Conjunctions.RepresentingMeaning | FM/Conjunction.hpp:64-73 | where the system is non-negative, every constraint representing one of its forms holds |
| Conjunctions.ClassifiedMeaning | FM/Conjunction.hpp:64-73 | constraints representing exactly the forms of the system have its points |
| Conjunctions.DischargeByEqs | FM/Conjunction.cpp:312-316 | own equalities discharge the other's equalities and the two inequalities they imply |
| Conjunctions.SplitStep | FM/Conjunction.cpp:318-321 | replacing an equality by its two inequalities loses no requirement |
| Conjunctions.SplitEqs | FM/Conjunction.cpp:318-323 | the remaining equalities become inequality pairs that together imply them |
| Conjunctions.Implies | FM/Conjunction.cpp:298-362 | the ABSURD/OBVIOUS cases; inclusion implies; a true answer means every point of this conjunction is a point of the other (under a sound tester); an ABSURD verdict means this conjunction had no point |
| Conjunctions.PolynomialDegree | FM/Conjunction.hpp:124-152 | the degree: 0 for numbers, 1 for counted symbols, exponent times base degree for powers, sums of factors, maxima of terms |
| Conjunctions.DegreeAsWritten | FM/Conjunction.hpp:124-152 | defines the degree as the source computes it, with `b^n` taken as the degree of `b` |
| Conjunctions.PowerDegreeAsWritten | FM/Conjunction.hpp:133-137 | as written, `x^2` gets degree 1 while `x*x` gets 2 |
| Conjunctions.Degree | FM/Conjunction.hpp:124-152 | defines the corrected degree, `b^n` as `n` times the degree of `b` (its properties are PowerDegree and VarsDegreeBound) |
| Conjunctions.PowerDegree | FM/Conjunction.hpp:133-137 | the degree of `b^n` is the degree of the product of n copies of `b` |
| Conjunctions.VarsDegreeBound | FM/Conjunction.hpp:154-156 | counting only variables never gives a larger degree than counting parameters too |
| Conjunctions.VarsDegree | FM/Conjunction.hpp:154-156 | `varsDegree` is the degree in the variables alone, at most the full degree |
| Disjunctions.Erase | FM/Disjunction.cpp:35 | erasing a position keeps the members before it and shifts those after |
| Disjunctions.EraseEmbeds | FM/Disjunction.cpp:25-49 | erasing a member keeps the list embedded in the original |
| Disjunctions.RelaxedMeaning | FM/Disjunction.cpp:25-49 | a list embedded with members turned ABSURD holds only where the original holds |
| Disjunctions.Add | FM/Disjunction.cpp:7-19 | appending-unless-present leaves the conjunction in the list |
| Disjunctions.Joined | FM/Disjunction.cpp:7-19 | defines `join`: each conjunction appended unless present (its properties are JoinedShape, JoinedMeaning, JoinedPresent and JoinedIdempotent) |
| Disjunctions.JoinedShape | FM/Disjunction.cpp:7-19 | join keeps the list as a prefix, adds exactly the joined conjunctions, and keeps a repetition-free list repetition-free |
| Disjunctions.JoinedMeaning | FM/Disjunction.cpp:7-19 | the joined list holds where the list or a joined conjunction holds |
| Disjunctions.JoinedPresent | FM/Disjunction.cpp:7-19 | joining conjunctions that are all present changes nothing |
| Disjunctions.JoinedIdempotent | FM/Disjunction.cpp:7-19 | joining the same conjunctions twice is joining once |
| Disjunctions.Compact | FM/Disjunction.cpp:63-71 | the compacted text has no blank and is no longer than the input |
| Disjunctions.CompactConcat | FM/Disjunction.cpp:63-71 | compacting distributes over concatenation |
| Disjunctions.CompactBlankFree | FM/Disjunction.cpp:63-71 | compacting blank-free text changes nothing |
| Disjunctions.CompactIdempotent | FM/Disjunction.cpp:63-71 | compacting twice is compacting once |
| Disjunctions.CompactText | FM/Disjunction.cpp:63-71 | the blank-skipping loop computes the compacted text |
| Disjunctions.FirstSemicolon | FM/Disjunction.cpp:77 | the first `;`, or the end when there is none |
| Disjunctions.ChunkEnd | FM/Disjunction.cpp:77-79 | a `;`-free chunk followed by `;` is cut exactly there |
| Disjunctions.ReadAsWritten | FM/Disjunction.cpp:77-98 | defines reading as written: each `;`-terminated chunk longer than 3 is appended, the rest pushed in front, with no repetition check |
| Disjunctions.ReadRepeats | FM/Disjunction.cpp:85-87 | as written, `abcd;abcd;` reads the same conjunction twice |
| Disjunctions.Read | FM/Disjunction.cpp:77-98 | defines reading with the repetition check as intended (its properties are ReadShape) |
| Disjunctions.ReadShape | FM/Disjunction.cpp:77-98 | reading keeps the list read so far, adds at most one conjunction per character, and repeats none |
| Disjunctions.Disjunction.constructor | FM/Disjunction.cpp:51-52 | a new disjunction is empty |
| Disjunctions.Disjunction.FromText | FM/Disjunction.cpp:54-58 | the list read from the compacted text, or OBVIOUS when the text holds no conjunction; never empty, no repetition |
| Disjunctions.Disjunction.Join | FM/Disjunction.cpp:7-19 | the list becomes the joined list |
| Disjunctions.Disjunction.JoinWith | FM/Disjunction.cpp:21-23 | joining another disjunction joins its list |
| Disjunctions.Disjunction.RemoveDuplicates | FM/Disjunction.cpp:105-131 | OBVIOUS makes the list OBVIOUS; otherwise ABSURD and repetitions go, keeping order and every other member, a list of only ABSURD keeps one ABSURD, and the copy of each member that survives is its last one |
| Disjunctions.Disjunction.RemoveImplicators | FM/Disjunction.cpp:25-49 | the list only shrinks, its members stay in order (some turned ABSURD), lists under two are untouched, and with a sound tester the list keeps its meaning |
| Disjunctions.Disjunction.EliminateVariables | FM/Disjunction.cpp:133-146 | when the scan finishes no member has variables; members without variables stay; every new member comes from eliminating a member with variables |
| Disjunctions.Removed | FM/Disjunction.cpp:137 | removing a conjunction erases every copy of it and keeps the rest |
| Disjunctions.EraseSettled | FM/Disjunction.cpp:105-131 | erasing after the settled prefix keeps it settled |
| Disjunctions.EraseAbsurd | FM/Disjunction.cpp:113-117 | erasing an ABSURD member loses no other member |
| Disjunctions.EraseCopy | FM/Disjunction.cpp:120-126 | erasing a member that occurs later loses no member |
| Disjunctions.LastCopy | FM/Disjunction.cpp:120-126 | every member has a last copy at or after its position |
| Disjunctions.EraseLast | FM/Disjunction.cpp:113-126 | erasing ABSURD, or a member copied later, keeps every last copy |
| Disjunctions.NoLaterCopy | FM/Disjunction.cpp:105-131 | in a repetition-free sublist holding every last copy, no member occurs later in the original |
| Disjunctions.LastSurvives | FM/Disjunction.cpp:105-131 | a repetition-free sublist holding every last copy holds only last copies |
| Disjunctions.TryDrop | FM/Disjunction.cpp:31-45 | one test erases the implying member or keeps it (possibly turned ABSURD); under a sound tester no point is lost |
| Disjunctions.PruningStep | FM/Disjunction.cpp:25-49 | each test of `removeImplicators` keeps the loop's invariant |
| Disjunctions.ReplaceMember | FM/Disjunction.cpp:33-39 | a member turned ABSURD by `implies` had no point, so the list keeps its points |
| Disjunctions.DropImplying | FM/Disjunction.cpp:33-43 | erasing a member that implies another member keeps the points of the list |
| Schweighofer.PowerRule | FM/Schweighofer.cpp:241-272 | the sign rule for `b^n` keeps results well-formed |
| Schweighofer.PowerRuleSound | FM/Schweighofer.cpp:241-272 | if the base's sign holds, the power's derived sign holds for `b^n` |
| Schweighofer.NegatedPowerRule | FM/Schweighofer.cpp:273-309 | the sign rule for `-b^n` keeps results well-formed |
| Schweighofer.NegatedPowerRuleSound | FM/Schweighofer.cpp:273-309 | if the base's sign holds, the derived sign holds for `-b^n` |
| Schweighofer.ProductFromSound | FM/Schweighofer.cpp:310-347 | the sign folded over the factors holds for the product of their values |
| Schweighofer.ProductSign | FM/Schweighofer.cpp:310-347 | the product loop computes the folded sign, which holds for every product of values the factor signs hold for |
| Schweighofer.NegatedPowerOf | FM/Schweighofer.cpp:273-276 | a recognised `-1 * b^n` has the negated value of `b^n` |
| Schweighofer.TestFactorized | FM/Schweighofer.cpp:239-350 | powers and negated powers use their rules, other non-products are UNKNOWN, and with sound sub-tests the result holds for the expression |
| Schweighofer.NumericTest | FM/Schweighofer.cpp:367-387 | a number's result holds for it; zero and positive numbers end the test, negative ones go on |
| Schweighofer.Scan | FM/Schweighofer.cpp:391-410 | the pre-pass flags GEZ (LEZ) exactly when some source differs from the expression by a number of that sign, and keeps the largest such distance |
| Schweighofer.ScanGez | FM/Schweighofer.cpp:395-400 | one source: the GEZ flag and the largest distance account for the sources seen, with this one |
| Schweighofer.ScanLez | FM/Schweighofer.cpp:402-409 | one source: the LEZ flag and the largest distance account for the sources seen, with this one, when both signs are tested |
| Schweighofer.DecideAsWritten | FM/Schweighofer.cpp:411-441 | as written, nothing found gives UNKNOWN, and both GEZ and LEZ at distance 0 end as GEZ |
| Schweighofer.Decide | FM/Schweighofer.cpp:411-441 | both GEZ and LEZ at distance 0 give ZERO; otherwise as written |
| Schweighofer.DecideSound | FM/Schweighofer.cpp:411-441 | both verdicts hold for the tested value whenever the scanned facts do; they differ only by ZERO against GEZ |
| Schweighofer.ScanMeaning | FM/Schweighofer.cpp:391-410 | where every source is non-negative, a GEZ (LEZ) flag means the expression is at least the distance (at most minus it) |
| Schweighofer.Coefficient | FM/Schweighofer.cpp:588-594 | the loop finds the single numeric factor of a product, or 1 |
| Schweighofer.MonomialSplit | FM/Schweighofer.cpp:588-600 | a product is its numeric factor times the remaining monomial |
| Schweighofer.GatherMonomials | FM/Schweighofer.cpp:574-611 | a number is the coefficient of `1`, a non-sum is one monomial, a non-empty sum has at least one |
| Schweighofer.TermSplit | FM/Schweighofer.cpp:583-602 | a simple term is its coefficient times its monomial |
| Schweighofer.GatherSum | FM/Schweighofer.cpp:604-607 | a sum of distinct monomials maps each to its coefficient, and nothing else |
| Schweighofer.NumberingAppend | FM/Schweighofer.cpp:631-669 | numbering a new monomial with the next row keeps the numbering consistent |
| Schweighofer.ColumnsNonNegative | FM/Schweighofer.cpp:619-671 | where the sources are non-negative, every generated product column is non-negative |
| Schweighofer.FoldSources | FM/Schweighofer.cpp:18-35 | a negative number among the sources makes the system absurd; otherwise the sources other than numbers are kept |
| Schweighofer.FoldSourcesAsWritten | FM/Schweighofer.cpp:18-35 | as written, the kept sources are among the given ones |
| Schweighofer.FoldSkipsNext | FM/Schweighofer.cpp:28-34 | as written, a non-negative number hides the negative number after it |
| Schweighofer.RowOf | FM/Schweighofer.cpp:631-669 | a monomial gets its existing row, or the next one, extending the numbering |
| Schweighofer.NumberMonomials | FM/Schweighofer.cpp:631-669 | every monomial of an expression gets a row and the column records its coefficients |
| Schweighofer.AddColumn | FM/Schweighofer.cpp:646-660 | a new product becomes the next column of the table |
| Schweighofer.AddProduct | FM/Schweighofer.cpp:646-660 | a new product of a source with a previous-order product is numbered and recorded |
| Schweighofer.ExpandPair | FM/Schweighofer.cpp:641-667 | one product: added unless known; `full` exactly when the column cap is passed |
| Schweighofer.ExpandSource | FM/Schweighofer.cpp:638-669 | all products of one source with the previous order are known unless the cap is hit |
| Schweighofer.ExpandDegree | FM/Schweighofer.cpp:633-669 | all products of the sources with the previous order are known unless the cap is hit |
| Schweighofer.ExpandNext | FM/Schweighofer.cpp:631-669 | one order of products keeps the staged table, or ends the expansion at the cap |
| Schweighofer.ExpandSrcs | FM/Schweighofer.cpp:619-671 | the table holds `1` and all products of sources up to the order, with consistent rows and columns |
| Schweighofer.EraseNumbers | FM/Schweighofer.cpp:18-35 | the corrected number-folding loop computes FoldSources |
| Schweighofer.Tester.constructor | FM/Schweighofer.cpp:10-45 | the order is the degree or 1; no sources or a negative number gives an empty tester, otherwise the product table of the folded sources |
| Schweighofer.Tester.Clear | FM/Schweighofer.cpp:716-724 | the tables are emptied |
| Schweighofer.Tester.Presolve | FM/Schweighofer.cpp:352-452 | numbers are decided by value; the pre-pass result holds wherever the sources are non-negative; a test goes on to the LP only when all its monomials are rows |
| Schweighofer.TablesNonNegative | FM/Schweighofer.cpp:619-671 | where the sources are non-negative, so is every expression of the table |
| Simplifiers.Ceil | FM/Simplifier.cpp:1107 | the ceiling is the least integer not below the value |
| Simplifiers.Compose | FM/Simplifier.cpp:1104-1120 | defines the composed form of a verdict (its properties are ComposeSound and ComposeStrengthens) |
| Simplifiers.CeilBelow | FM/Simplifier.cpp:1107 | an integer at least the distance is at least the rounded-down-by-tolerance ceiling |
| Simplifiers.ComposeSound | FM/Simplifier.cpp:1104-1120 | the composed expression is non-negative wherever the tested sign holds |
| Simplifiers.ComposeStrengthens | FM/Simplifier.cpp:1104-1120 | a GTZ composition implies the original, and `>= 1` beyond the tolerance; ABSURD composes to a negative constant |
| Simplifiers.ProvedExactly | FM/Simplifier.cpp:1122-1132 | `proved` holds exactly for the signs that guarantee a non-negative value |
| Simplifiers.Proved | FM/Simplifier.cpp:1122-1132 | defines `proved`: every sign but UNKNOWN, LEZ and LTZ (its meaning is ProvedExactly) |
| Simplifiers.ImpliedUnion | FM/Simplifier.cpp:1380-1441 | constraints implied by a conjunction stay implied together |
| Simplifiers.StrongerUnion | FM/Simplifier.cpp:1380-1441 | replacements stay stronger together |
| Simplifiers.OtherHolds | FM/Simplifier.cpp:1387-1392 | a point of the conjunction satisfies the tester system of the conjunction without one inequality |
| Simplifiers.TightenEqualityStep | FM/Simplifier.cpp:1404-1409 | ZERO/LEZ from the rest turns the inequality into an implied, stronger equality |
| Simplifiers.TightenStrictStep | FM/Simplifier.cpp:1419-1429 | GTZ from the rest gives an implied composed inequality stronger than the original |
| Simplifiers.TightenDropStep | FM/Simplifier.cpp:1410-1425 | GEZ/GTZ from the rest means dropping the inequality keeps the points |
| Simplifiers.TightenAbsurdStep | FM/Simplifier.cpp:1398-1403 | LTZ/ABSURD from the rest means the conjunction has no point |
| Simplifiers.Replace | FM/Simplifier.cpp:1436-1440 | replacing by implied, stronger constraints keeps the points |
| Simplifiers.CollectSkip | FM/Simplifier.cpp:1395-1433 | an inequality whose verdict does not tighten it changes neither set |
| Simplifiers.CollectEquality | FM/Simplifier.cpp:1404-1409 | ZERO or LEZ removes the inequality and joins the equality of its form, keeping both sets accounted for |
| Simplifiers.CollectStrict | FM/Simplifier.cpp:1419-1429 | GTZ removes the inequality and the store's inequality of its form and joins the composed one, keeping both sets accounted for |
| Simplifiers.Equated | FM/Simplifier.cpp:1404-1409 | the ZERO/LEZ step: the sets gain the inequality and its equality, stay accounted for, and stay implied and stronger under a sound tester |
| Simplifiers.ScanOne | FM/Simplifier.cpp:1387-1433 | one inequality's verdict ends the scan (no point, drop) or updates the sets as its verdict calls for |
| Simplifiers.ScanInequalities | FM/Simplifier.cpp:1385-1434 | the scan's outcome matches the verdicts of each inequality against the rest: no point only for an LTZ or ABSURD verdict, a drop only for a GEZ/GTZ verdict of a variable-free system, otherwise every inequality with a ZERO/LEZ/GTZ verdict is removed with its replacement joined, and nothing else is removed or joined; under a sound tester the replacements are implied and stronger |
| Simplifiers.RootSize | FM/Simplifier.cpp:1447-1462 | the size of a constraint is at least 1 and at least its number of terms |
| Simplifiers.Bucket | FM/Simplifier.cpp:1447-1462 | the constraints of one size |
| Simplifiers.UpTo | FM/Simplifier.cpp:1464-1466 | the constraints up to a size |
| Simplifiers.RootImpliedSound | FM/Simplifier.cpp:1481-1496 | a constraint dropped as implied (the corrected test) holds wherever the tester's sign holds |
| Simplifiers.RootImpliedAsWrittenDropsEquality | FM/Simplifier.cpp:1481-1496 | as written, an equality implied only as `>= 0` is dropped although it can fail |
| Simplifiers.RootImpliedAsWritten | FM/Simplifier.cpp:1488-1496 | defines the drop test as written: GEZ, GTZ or ZERO for every constraint |
| Simplifiers.RootImplied | FM/Simplifier.cpp:1488-1496 | defines the corrected drop test: ZERO for an equality (its soundness is RootImpliedSound) |
| Simplifiers.SizeRange | FM/Simplifier.cpp:1444-1462 | the least and largest size of the constraints, the least attained |
| Simplifiers.RootsBucket | FM/Simplifier.cpp:1479-1503 | one size bucket: ABSURD only on an ABSURD verdict against the system so far; otherwise every constraint left out got a redundancy verdict (ZERO for equalities, GEZ/GTZ/ZERO for inequalities) against the kept ones of smaller size and those of its size kept before it, every one kept got neither that nor ABSURD, and the count is the number left out |
| Simplifiers.RootsScan | FM/Simplifier.cpp:1443-1504 | ABSURD only on an ABSURD verdict against some system of the constraints; otherwise the kept constraints hold all of the smallest size, each one left out got a redundancy verdict against kept constraints including all smaller kept ones, each larger one kept did not, the count is the number left out, and under a sound tester the points are kept |
| Simplifiers.RootsBuckets | FM/Simplifier.cpp:1471-1504 | the loop over sizes: the smallest bucket starts the system and every bucket up to the largest size is accounted for |
| Simplifiers.ScanBucket | FM/Simplifier.cpp:1475-1504 | one pass over a bucket extends the account to that size or reports an ABSURD verdict |
| Simplifiers.ScanStart | FM/Simplifier.cpp:1471-1474 | before any bucket is offered, nothing is left out and the smallest bucket is kept |
| Simplifiers.ScanEnd | FM/Simplifier.cpp:1475 | past the largest size every constraint has been offered |
| Simplifiers.CountStep | FM/Simplifier.cpp:1474-1495 | the number left out up to a size is that before it plus the bucket's |
| Simplifiers.VerdictsWiden | FM/Simplifier.cpp:1480-1501 | verdicts recorded against the kept constraints stay valid when larger constraints are kept later |
| Simplifiers.BucketStep | FM/Simplifier.cpp:1480-1501 | one constraint of a bucket is left out, kept (joined as the only change), or stops the scan |
| Simplifiers.KeepOne | FM/Simplifier.cpp:1497-1501 | joining one kept constraint keeps the system kind-separated and adds exactly it |
| Simplifiers.DroppedHolds | FM/Simplifier.cpp:1488-1495 | under a sound tester, a constraint left out holds wherever the kept ones do |
| Simplifiers.AbsurdHolds | FM/Simplifier.cpp:1484-1487 | under a sound tester, an ABSURD verdict leaves the tested system without a point |
| Simplifiers.KeptMeaning | FM/Simplifier.cpp:1443-1515 | under a sound tester, the kept constraints hold exactly where all constraints hold |
| Simplifiers.ScanAbsurd | FM/Simplifier.cpp:1484-1487 | under a sound tester, an ABSURD verdict against constraints of the conjunction leaves it without a point |
| Simplifiers.Bounding | FM/Simplifier.cpp:2290-2295 | the inequalities that mention the symbol |
| Simplifiers.CountBounds | FM/Simplifier.cpp:2290-2295 | the loop counts the inequalities that mention the symbol |
| Simplifiers.SelectAsWrittenIgnoresBounds | FM/Simplifier.cpp:2305-2321 | as written, a variable with more bounds is picked over one with fewer |
| Simplifiers.SelectAsWritten | FM/Simplifier.cpp:2305-2321 | defines `selectTarget` as written, with the early break on degree |
| Simplifiers.Assign | FM/Simplifier.cpp:2212-2213 | the point with one symbol changed |
| Simplifiers.ValueAssign | FM/Simplifier.cpp:2047-2051 | a form without the symbol does not depend on it |
| Simplifiers.FreeConstraint | FM/Simplifier.cpp:2047-2051 | a constraint whose form lacks the symbol does not depend on it |
| Simplifiers.MirrorHolds | FM/Simplifier.cpp:2061-2081 | a sign mirrored as in the cache holds for the negated value exactly when the sign holds |
| Simplifiers.CachedSign | FM/Simplifier.cpp:2053-2086 | a cached sign is reused, the mirror of the negation's sign used, or the tester asked and stored; the cache stays faithful and the sign holds at the system's points |
| Simplifiers.Classify | FM/Simplifier.cpp:2046-2153 | ABSURD refutes the system; GEZ/LEZ/UNKNOWN forks; otherwise the inequalities split into free, lower, upper and zero bounds; under a sound tester the coefficient signs hold and nothing is zero |
| Simplifiers.Combination | FM/Simplifier.cpp:2175-2183 | the cross combination of a lower and an upper bound is free of the variable |
| Simplifiers.CombinationSound | FM/Simplifier.cpp:2175-2183 | where both bounds hold, their combination is non-negative |
| Simplifiers.CombinationsFree | FM/Simplifier.cpp:2172-2206 | every cross combination is free of the variable |
| Simplifiers.CrossOne | FM/Simplifier.cpp:2177-2204 | one lower bound against all upper bounds: a negative number is reported, or every non-trivial combination is collected |
| Simplifiers.CrossBounds | FM/Simplifier.cpp:2167-2206 | a negative numeric combination is reported, or `1` and every non-trivial combination is collected |
| Simplifiers.CrossOutcomeSound | FM/Simplifier.cpp:2167-2206 | where the bounds hold with the right coefficient signs, no contradiction is reported and every collected form is non-negative |
| Simplifiers.AddZeroRows | FM/Simplifier.cpp:2207-2227 | the zero-coefficient rows add only inequalities free of the variable |
| Simplifiers.InternForms | FM/Simplifier.cpp:2228-2231 | the collected forms become inequalities that hold exactly where the forms are non-negative |
| Simplifiers.ReducedMeaning | FM/Simplifier.cpp:2233-2242 | the reduced conjunction is well-formed, lacks the variable and does not depend on it |
| Simplifiers.Reduce | FM/Simplifier.cpp:2228-2244 | the variable is eliminated, and every point of the old system is a point of the new one |
| Simplifiers.EliminateStep | FM/Simplifier.cpp:2043-2244 | refutation means no point; a fork carries a sign that holds; a reduction eliminates the variable soundly |
| Simplifiers.Forks | FM/Simplifier.cpp:2106-2149 | one or two forks (`q >= 1`, `q <= -1`), each inside the conjunction, together covering its points with `q` non-zero on the permitted sides |
| Simplifiers.SplitOn | FM/Simplifier.cpp:2106-2149 | the conjunction with `q = 0` and the forks cover the old conjunction when the sign holds, and each lies inside it |
| Simplifiers.Simplifier.constructor | FM/Simplifier.cpp:989 | the simplifier starts on the conjunction with nothing returned and no target |
| Simplifiers.Simplifier.ReturnAbsurd | FM/Simplifier.cpp:37-44 | the conjunction becomes ABSURD and ABSURD is appended to the returned list |
| Simplifiers.Simplifier.BuildTester | FM/Simplifier.cpp:63-82 | the tester is built from the conjunction's system |
| Simplifiers.Simplifier.Tightening | FM/Simplifier.cpp:1380-1441 | systems under size 2 are untouched; otherwise the outcome matches the verdicts (as in ScanInequalities): no point returns ABSURD, a drop restarts, and otherwise the conjunction becomes `removeJoin` of exactly the collected sets, reporting whether it changed; with a sound tester the points are unchanged |
| Simplifiers.Simplifier.Conclude | FM/Simplifier.cpp:1398-1441 | the end of `tightening` for each outcome: ABSURD returned, drop and restart, or `removeJoin` of the collected sets |
| Simplifiers.Simplifier.DropAndRestart | FM/Simplifier.cpp:1410-1425 | dropping an implied inequality of a variable-free system and tightening again keeps the points |
| Simplifiers.Simplifier.GetRoots | FM/Simplifier.cpp:1443-1515 | the result is true exactly when ABSURD was returned or constraints were removed; ABSURD only on an ABSURD verdict; otherwise the symbols stay, all of the smallest size stay, each removed constraint got a redundancy verdict against kept ones including all smaller kept ones, each larger one kept did not, and under a sound tester the points are kept |
| Simplifiers.Simplifier.SelectTarget | FM/Simplifier.cpp:2282-2333 | no variable gives no target; otherwise a variable with no other ranking below it (fewest bounds among those of least degree) and its degree |
| Simplifiers.Simplifier.Motzkin | FM/Simplifier.cpp:2028-2280 | either ABSURD is returned and the old system had no point, or the target is eliminated soundly and independently of it, or one or two forks are returned that together with the remaining conjunction cover the old one |

## Left out

- The linear-programming part of the tester (GLPK) is not modelled. `Schweighofer.Tester.Presolve` stops where the LP would start, and the simplifier takes the tester as a function parameter. So `testPosAndNeg`'s effect on the LP part is not modelled either.
- The algebra library (GiNaC) is not modelled: expansion, `integer_content`, `quo`/`rem`, `subs` and parsing. Constraint expressions are expanded linear forms and parsing is a function parameter.
- Constraint expressions, and therefore Motzkin elimination, are linear in the model. So the lifting of `Motzkin` (`not_lifting`, `lifting_target_degree`) is not modelled, the degree buckets collapse into one, and the new maximum degree is always 0.
- Simplifiers.Simplifier.Motzkin: proves soundness (every old point survives) and independence from the eliminated variable, not exactness of the projection.
- Simplifiers.AddZeroRows: the zero-coefficient substitution `subs(subs(subs(e, v == 0), q == 0), -q == 0)` is approximated by the form without `v` together with `q >= 0` and `-q >= 0`. Under a sound tester no bound is classified as zero, so this path only matters for unsound testers.
- Simplifiers.Compose: the `(float)` cast of the distance is not modelled; distances are exact reals.
- Schweighofer: the numbers in expressions are integers; the distances a test returns, which the source keeps as `double`, are exact reals here, and `MAX_ERROR` is subtracted exactly in Compose, so floating-point rounding is not modelled; on integer numbers the `MAX_ERROR` band around zero used by the coefficient filters catches only zero, so those filters are modelled as tests against zero.
- ConstraintStore.Store.Get: the source tests obvious/absurd on the unexpanded expression and again after dividing the content. The model's forms are always expanded, so both checks coincide.
- The tester caching of `Conjunction` (the `tester` pointer) is not modelled; `TesterSystem` gives the system a tester would be built from.
- The conjunction's id counter and `Make` ids are not modelled; conjunctions are compared by content as in `operator==`.
- The three identical inverse-pair loops of the 5-argument constructor are modelled once (`FindNegatedPair`).
- Conjunctions.DetectEqs: FM/Conjunction.hpp:113-122 erases the current element and its partner from `ineqs` inside the range-for over `ineqs`, which is undefined behaviour in C++; the model visits each inequality present on entry once and checks its partner against the current set, which is what the loop evidently intends.
- Symbol lists (`Symbols`) are sets; their order is not modelled.
- Iteration order over `std::set` of constraint pointers is not modelled; the model picks any element.
- Disjunctions.Disjunction.FromText: the loop `for (; !in.eof(); in >> line)` at FM/Disjunction.cpp:63 drops a final token not followed by white space, and `>>` also splits at vertical tab and form feed; the model reads a whole text, keeps the final token, and splits only where IsBlank says, which keeps vertical tab and form feed inside tokens.
- Disjunctions.Disjunction.EliminateVariables: it takes the simplifier's run as a function and a `fuel` bound; whether the source's loop terminates is not modelled.
- `Conjunction(std::string&)` and `insert(string)` are reduced to the store's `GetText` and the parse parameter.
- `Simplifier::run`, `normalize`, `gaussian_replacement`, `eqs_affinize`, `eqs_pattern_matching`, `split_space` and `add_affine_planes` are not part of this model.
- The `SCRIPT_CONTROL` build variant (printing and exiting in `returnAbsurd`/`_returnAbsurd` and `Motzkin`) is not modelled. Without it, `_returnAbsurd` is `returnAbsurd`.
- Printing (`print`, `c_print`, `printResult`), debug output, `main.cpp`, `fme.py` and the converters are not part of this model.

## Findings

| source | as written | input that shows it | evidently intended | confidence | as-written member | corrected member |
|---|---|---|---|---|---|---|
| FM/Schweighofer.cpp:418-440 | when both GEZ and LEZ hold at distance 0, `result = ZERO` is overwritten by the following `if (gez)` branch with GEZ | sources `{x, -x}`, tested `x`: both differences are 0 | the syntactic pre-pass answers ZERO | not executed | Schweighofer.DecideAsWritten | Schweighofer.Decide |
| FM/Simplifier.cpp:2305-2321 | `varDegree >= degree` breaks before the equal-degree tie-breaks, which can never fire; among linear variables the last unbounded one, else the first bounded one, is picked | variables `x0`, `x1` with `x0 >= 0`, `x0 + 1 >= 0`, `x1 >= 0`: `x0` (two bounds) is picked over `x1` (one bound) | among variables of least degree, prefer fewest non-numeric coefficients, then fewest bounds | not executed | Simplifiers.SelectAsWrittenIgnoresBounds | Simplifiers.Simplifier.SelectTarget |
| FM/Disjunction.cpp:85-87 | the repetition check's `continue` only continues the inner loop, so a repeated conjunction is added again | text `abcd;abcd;` gives the same conjunction twice | a conjunction already read is not added | not executed | Disjunctions.ReadRepeats | Disjunctions.ReadShape |
| FM/Schweighofer.cpp:28-34 | after erasing a non-negative number, `i = ni` and the loop's `i++` skip the next source | sources `0, -1`: `-1` is never examined and the system is not found absurd | every numeric source is examined | not executed | Schweighofer.FoldSkipsNext | Schweighofer.EraseNumbers |
| FM/Simplifier.cpp:1481-1496 | `getRoots` tests equalities only for `e >= 0` (no negative test) and drops them on GEZ | `{x0 >= 0, x1 >= 0}` and the equality `x0 + x1 = 0`: GEZ holds, yet `x0 = 1, x1 = 0` breaks the equality | an equality is dropped only when it is implied as an equality (ZERO) | not executed | Simplifiers.RootImpliedAsWrittenDropsEquality | Simplifiers.RootImpliedSound |
| FM/Conjunction.hpp:133-137 | the degree of `b^n` is taken of `b * n`, which is the degree of `b` | `x^2` gets degree 1 while `x*x` gets 2 | the degree of `b^n` is `n` times that of `b` | not executed | Conjunctions.PowerDegreeAsWritten | Conjunctions.PowerDegree |
