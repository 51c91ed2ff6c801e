/**
 * Disjunctions: an ordered list of conjunctions, read from text, joined
 * without repetition, and pruned of duplicates and of members that imply
 * another member.
 */
module Disjunctions {
  import Linear
  import opened ConstraintStore
  import opened Conjunctions

  /** `x` satisfies some member of the list. */
  predicate Holds(cs: seq<Conjunction>, x: Linear.Point)
  {
    exists c :: c in cs && Sat(c, x)
  }

  /** No conjunction occurs twice. */
  predicate Distinct(cs: seq<Conjunction>)
  {
    forall k, l :: 0 <= k < l < |cs| ==> cs[k] != cs[l]
  }

  predicate AllWellFormed(cs: seq<Conjunction>)
  {
    forall c :: c in cs ==> WellFormed(c)
  }

  // ----- sublists -----

  /** `idx` picks, in increasing order, positions of a list of length `bound`. */
  predicate Increasing(idx: seq<nat>, bound: nat)
  {
    (forall k :: 0 <= k < |idx| ==> idx[k] < bound) && (forall k, l :: 0 <= k < l < |idx| ==> idx[k] < idx[l])
  }

  /** `r` is the members of `s` at the positions `idx`, each possibly turned into ABSURD when `relaxed`. */
  predicate Embeds(r: seq<Conjunction>, s: seq<Conjunction>, idx: seq<nat>, relaxed: bool)
  {
    |idx| == |r| && Increasing(idx, |s|)
    && forall k :: 0 <= k < |r| ==> r[k] == s[idx[k]] || (relaxed && r[k] == Absurd)
  }

  /** `r` keeps some of the members of `s`, in their order. */
  ghost predicate Sublist(r: seq<Conjunction>, s: seq<Conjunction>)
  {
    exists idx :: Embeds(r, s, idx, false)
  }

  function Identity(n: nat): (idx: seq<nat>)
    ensures |idx| == n && forall k :: 0 <= k < n ==> idx[k] == k
  {
    seq(n, k requires 0 <= k < n => k)
  }

  /** `s` without its member at position `p`. */
  function Erase<T>(s: seq<T>, p: nat): (r: seq<T>)
    requires p < |s|
    ensures |r| == |s| - 1
    ensures forall k :: 0 <= k < p ==> r[k] == s[k]
    ensures forall k :: p <= k < |r| ==> r[k] == s[k + 1]
  {
    s[..p] + s[p + 1..]
  }

  /** Erasing a member keeps a list embedded, by erasing its position. */
  lemma EraseEmbeds(r: seq<Conjunction>, s: seq<Conjunction>, idx: seq<nat>, relaxed: bool, p: nat)
    requires Embeds(r, s, idx, relaxed) && p < |r|
    ensures Embeds(Erase(r, p), s, Erase(idx, p), relaxed)
  {
  }

  /** A member embedded under relaxation holds nowhere unless it is the member it stands for. */
  lemma RelaxedMeaning(r: seq<Conjunction>, s: seq<Conjunction>, idx: seq<nat>, x: Linear.Point)
    requires Embeds(r, s, idx, true)
    ensures Holds(r, x) ==> Holds(s, x)
  {
    SatConstants(x);
    if Holds(r, x) {
      var c :| c in r && Sat(c, x);
      var k :| 0 <= k < |r| && r[k] == c;
      assert s[idx[k]] in s;
    }
  }

  // ----- join -----

  /** `cs` with `c` appended unless it already occurs. */
  function Add(cs: seq<Conjunction>, c: Conjunction): (r: seq<Conjunction>)
    ensures c in r
  {
    if c in cs then cs else cs + [c]
  }

  /** What `join` computes: each joined conjunction in turn is appended unless it already occurs. */
  function Joined(cs: seq<Conjunction>, others: seq<Conjunction>): seq<Conjunction>
  {
    if |others| == 0 then cs else Add(Joined(cs, others[..|others| - 1]), others[|others| - 1])
  }

  /**
   * Joining keeps the list as a prefix, adds exactly the joined
   * conjunctions, and repeats none when the list had no repetition.
   */
  lemma {:induction false} JoinedShape(cs: seq<Conjunction>, others: seq<Conjunction>)
    ensures |cs| <= |Joined(cs, others)| && Joined(cs, others)[..|cs|] == cs
    ensures forall c :: c in Joined(cs, others) <==> c in cs || c in others
    ensures Distinct(cs) ==> Distinct(Joined(cs, others))
  {
    if |others| > 0 {
      var init := others[..|others| - 1];
      JoinedShape(cs, init);
      assert others == init + [others[|others| - 1]];
    }
  }

  /** The joined list holds exactly where the list or one of the joined conjunctions holds. */
  lemma JoinedMeaning(cs: seq<Conjunction>, others: seq<Conjunction>, x: Linear.Point)
    ensures Holds(Joined(cs, others), x) <==> Holds(cs, x) || Holds(others, x)
  {
    JoinedShape(cs, others);
  }

  /** Joining conjunctions that all occur already changes nothing. */
  lemma {:induction false} JoinedPresent(cs: seq<Conjunction>, others: seq<Conjunction>)
    requires forall c :: c in others ==> c in cs
    ensures Joined(cs, others) == cs
  {
    if |others| > 0 {
      JoinedPresent(cs, others[..|others| - 1]);
      assert others[|others| - 1] in others;
    }
  }

  /** Joining the same conjunctions twice is joining them once. */
  lemma JoinedIdempotent(cs: seq<Conjunction>, others: seq<Conjunction>)
    ensures Joined(Joined(cs, others), others) == Joined(cs, others)
  {
    JoinedShape(cs, others);
    JoinedPresent(Joined(cs, others), others);
  }

  // ----- reading -----

  predicate IsBlank(ch: char)
  {
    ch == ' ' || ch == '\t' || ch == '\n' || ch == '\r'
  }

  /** `line` without blanks. */
  function Compact(line: string): (r: string)
    ensures |r| <= |line| && forall k :: 0 <= k < |r| ==> !IsBlank(r[k])
  {
    if |line| == 0 then []
    else Compact(line[..|line| - 1]) + (if IsBlank(line[|line| - 1]) then [] else [line[|line| - 1]])
  }

  /** Compacting distributes over concatenation and removes nothing from a blank-free text. */
  lemma {:induction false} CompactConcat(a: string, b: string)
    ensures Compact(a + b) == Compact(a) + Compact(b)
    decreases |b|
  {
    if |b| == 0 {
      assert a + b == a;
    } else {
      var init := b[..|b| - 1];
      assert (a + b)[..|a + b| - 1] == a + init;
      assert (a + b)[|a + b| - 1] == b[|b| - 1];
      CompactConcat(a, init);
    }
  }

  lemma {:induction false} CompactBlankFree(s: string)
    requires forall k :: 0 <= k < |s| ==> !IsBlank(s[k])
    ensures Compact(s) == s
  {
    if |s| > 0 {
      CompactBlankFree(s[..|s| - 1]);
    }
  }

  /** Compacting twice compacts once. */
  lemma CompactIdempotent(s: string)
    ensures Compact(Compact(s)) == Compact(s)
  {
    CompactBlankFree(Compact(s));
  }

  /** The blank-skipping loop of `read`. */
  method CompactText(line: string) returns (r: string)
    ensures r == Compact(line)
  {
    r := [];
    for i := 0 to |line|
      invariant r == Compact(line[..i])
    {
      assert line[..i + 1][..i] == line[..i];
      if !IsBlank(line[i]) {
        r := r + [line[i]];
      }
    }
    assert line[..|line|] == line;
  }

  /** The position of the first `;` of `s`, or `|s|` when there is none. */
  function FirstSemicolon(s: string): (pos: nat)
    ensures pos <= |s| && (pos < |s| ==> s[pos] == ';')
    ensures forall k :: 0 <= k < pos ==> s[k] != ';'
  {
    if |s| == 0 || s[0] == ';' then 0 else 1 + FirstSemicolon(s[1..])
  }

  /**
   * What `read` computes from a compacted buffer onto the list `acc`, as
   * written: every `;`-terminated chunk longer than three characters is
   * appended, and a final unterminated chunk of that length is put in
   * front, repeated or not.
   */
  function ReadAsWritten(buff: string, parse: string -> Conjunction, acc: seq<Conjunction>): seq<Conjunction>
    decreases |buff|
  {
    var s := FirstSemicolon(buff);
    if s < |buff| then
      ReadAsWritten(buff[s + 1..], parse, if s > 3 then acc + [parse(buff[..s])] else acc)
    else if |buff| > 3 then [parse(buff)] + acc
    else acc
  }

  /** The first `;` after a chunk free of them ends the chunk. */
  lemma {:induction false} ChunkEnd(chunk: string, rest: string)
    requires forall k :: 0 <= k < |chunk| ==> chunk[k] != ';'
    ensures FirstSemicolon(chunk + ";" + rest) == |chunk|
    ensures (chunk + ";" + rest)[..|chunk|] == chunk && (chunk + ";" + rest)[|chunk| + 1..] == rest
  {
    if |chunk| > 0 {
      ChunkEnd(chunk[1..], rest);
      assert (chunk + ";" + rest)[1..] == chunk[1..] + ";" + rest;
    }
  }

  /** As written, the same chunk twice gives the same conjunction twice. */
  lemma ReadRepeats(parse: string -> Conjunction)
    ensures ReadAsWritten("abcd;abcd;", parse, []) == [parse("abcd"), parse("abcd")]
    ensures !Distinct(ReadAsWritten("abcd;abcd;", parse, []))
  {
    var chunk := "abcd";
    ChunkEnd(chunk, chunk + ";");
    ChunkEnd(chunk, "");
    assert "abcd;abcd;" == chunk + ";" + (chunk + ";");
    assert chunk + ";" == chunk + ";" + "";
    assert FirstSemicolon("") == 0;
    var r := ReadAsWritten("abcd;abcd;", parse, []);
    assert r[0] == r[1];
  }

  /** `read` as its repetition check intends: a conjunction already in the list is not added again. */
  function Read(buff: string, parse: string -> Conjunction, acc: seq<Conjunction>): seq<Conjunction>
    decreases |buff|
  {
    var s := FirstSemicolon(buff);
    if s < |buff| then
      Read(buff[s + 1..], parse, if s > 3 && parse(buff[..s]) !in acc then acc + [parse(buff[..s])] else acc)
    else if |buff| > 3 && parse(buff) !in acc then [parse(buff)] + acc
    else acc
  }

  /** Reading keeps what was there, adds only parsed chunks, and repeats nothing. */
  lemma {:induction false} ReadShape(buff: string, parse: string -> Conjunction, acc: seq<Conjunction>)
    ensures forall c :: c in acc ==> c in Read(buff, parse, acc)
    ensures |Read(buff, parse, acc)| <= |acc| + |buff|
    ensures Distinct(acc) ==> Distinct(Read(buff, parse, acc))
    decreases |buff|
  {
    var s := FirstSemicolon(buff);
    if s < |buff| {
      var acc' := if s > 3 && parse(buff[..s]) !in acc then acc + [parse(buff[..s])] else acc;
      ReadShape(buff[s + 1..], parse, acc');
    }
  }

  // ----- the list -----

  class Disjunction {
    var conjs: seq<Conjunction>

    constructor ()
      ensures conjs == []
    {
      conjs := [];
    }

    /**
     * Reads the disjunction from `text`, the conjunctions parsed by `parse`;
     * a text with no conjunction gives OBVIOUS.
     */
    constructor FromText(text: string, parse: string -> Conjunction)
      ensures conjs == (if Read(Compact(text), parse, []) == [] then [Obvious] else Read(Compact(text), parse, []))
      ensures conjs != [] && Distinct(conjs)
    {
      var buff := CompactText(text);
      var read := ReadBuffer(buff, parse, []);
      ReadShape(buff, parse, []);
      if read == [] {
        read := [Obvious];
      }
      conjs := read;
    }

    /** The chunking loop of `read`. */
    static method ReadBuffer(buff: string, parse: string -> Conjunction, acc: seq<Conjunction>) returns (r: seq<Conjunction>)
      ensures r == Read(buff, parse, acc)
    {
      var rest := buff;
      r := acc;
      var s := FirstSemicolon(rest);
      while s < |rest|
        invariant s == FirstSemicolon(rest)
        invariant Read(rest, parse, r) == Read(buff, parse, acc)
        decreases |rest|
      {
        var chunk := rest[..s];
        rest := rest[s + 1..];
        if |chunk| > 3 {
          var nc := parse(chunk);
          if nc !in r {
            r := r + [nc];
          }
        }
        s := FirstSemicolon(rest);
      }
      if |rest| > 3 {
        var nc := parse(rest);
        if nc !in r {
          r := [nc] + r;
        }
      }
    }

    /** `join`: appends each conjunction of `others` that does not occur yet. */
    method Join(others: seq<Conjunction>)
      modifies this
      ensures conjs == Joined(old(conjs), others)
    {
      for i := 0 to |others|
        invariant conjs == Joined(old(conjs), others[..i])
      {
        assert others[..i + 1][..i] == others[..i];
        var insert := true;
        var k := 0;
        while k < |conjs|
          invariant 0 <= k <= |conjs|
          invariant insert <==> others[i] !in conjs[..k]
        {
          if conjs[k] == others[i] {
            insert := false;
            break;
          }
          k := k + 1;
        }
        if insert {
          assert conjs[..|conjs|] == conjs;
          conjs := conjs + [others[i]];
        }
      }
      assert others[..|others|] == others;
    }

    /** `join` of another disjunction. */
    method JoinWith(other: Disjunction)
      modifies this
      ensures conjs == Joined(old(conjs), old(other.conjs))
    {
      Join(other.conjs);
    }

    /**
     * `removeDuplicates`: an OBVIOUS member makes the list OBVIOUS; otherwise
     * ABSURD members and repetitions are erased, keeping the last copy,
     * except that a list of ABSURD alone keeps one ABSURD.
     */
    method RemoveDuplicates()
      modifies this
      ensures Obvious in old(conjs) ==> conjs == [Obvious]
      ensures Obvious !in old(conjs) ==> Sublist(conjs, old(conjs)) && Distinct(conjs)
      ensures Obvious !in old(conjs) ==> LastCopies(conjs, old(conjs))
      ensures Obvious !in old(conjs) ==>
        || (forall c :: c in conjs <==> c in old(conjs) && c != Absurd)
        || (conjs == [Absurd] && forall c :: c in old(conjs) ==> c == Absurd)
    {
      ghost var orig := conjs;
      var cs := conjs;
      ghost var idx := Identity(|cs|);
      var i := 0;
      while i < |cs|
        invariant 0 <= i <= |cs|
        invariant Tracked(cs, orig, idx)
        invariant Settled(cs, i) || (cs == [Absurd] && i == 1)
        decreases |cs| - i
      {
        if cs[i] == Obvious {
          assert orig[idx[i]] == Obvious;
          conjs := [Obvious];
          return;
        }
        if cs[i] == Absurd {
          if |cs| > 1 {
            EraseTracked(cs, orig, idx, i, i);
            cs, idx := Erase(cs, i), Erase(idx, i);
          } else {
            i := i + 1;
          }
          continue;
        }
        var inc;
        cs, idx, inc := EraseCopiesOf(cs, orig, idx, i);
        if inc {
          i := i + 1;
        }
      }
      conjs := cs;
      assert Embeds(cs, orig, idx, false);
      assert Distinct(cs);
      LastSurvives(cs, orig, idx);
    }

    /**
     * The inner loop of `removeDuplicates` for the member at `i`: each time a
     * later copy is met, the member at `i` is erased. `inc` says that none was.
     */
    static method EraseCopiesOf(cs: seq<Conjunction>, ghost orig: seq<Conjunction>, ghost idx: seq<nat>, i: nat)
      returns (cs': seq<Conjunction>, ghost idx': seq<nat>, inc: bool)
      requires i < |cs| && cs[i] != Obvious && cs[i] != Absurd
      requires Tracked(cs, orig, idx) && Settled(cs, i)
      ensures Tracked(cs', orig, idx') && Settled(cs', i)
      ensures inc ==> |cs'| == |cs| && cs'[i] != Obvious && cs'[i] != Absurd && forall k :: i < k < |cs'| ==> cs'[k] != cs'[i]
      ensures !inc ==> |cs'| < |cs|
    {
      cs', idx', inc := cs, idx, true;
      var ni := i + 1;
      while ni < |cs'|
        invariant i < ni <= |cs'|
        invariant if inc then |cs'| == |cs| else |cs'| < |cs|
        invariant Tracked(cs', orig, idx') && Settled(cs', i)
        invariant inc ==> cs'[i] != Obvious && cs'[i] != Absurd
        invariant inc ==> forall k :: i < k < ni ==> cs'[k] != cs'[i]
        decreases |cs'| - ni
      {
        if cs'[i] == cs'[ni] {
          EraseTracked(cs', orig, idx', i, ni);
          cs', idx' := Erase(cs', i), Erase(idx', i);
          inc := false;
        } else {
          ni := ni + 1;
        }
      }
    }

    /**
     * `removeImplicators`: of two members where one implies the other, the
     * implying one is erased; a member the tester finds ABSURD is replaced by
     * ABSURD. With a sound tester and well-formed members, the list keeps
     * its meaning.
     */
    method RemoveImplicators(st: Store, test: Oracle)
      requires st.Valid()
      modifies this, st
      ensures st.Valid() && Extends(old(st.table), st.table)
      ensures |old(conjs)| < 2 ==> conjs == old(conjs)
      ensures |conjs| <= |old(conjs)| && (old(conjs) != [] ==> conjs != [])
      ensures exists idx :: Embeds(conjs, old(conjs), idx, true)
      ensures AllWellFormed(old(conjs)) ==> AllWellFormed(conjs)
      ensures OracleSound(test) && AllWellFormed(old(conjs)) ==>
        forall x :: Holds(conjs, x) <==> Holds(old(conjs), x)
    {
      if |conjs| < 2 {
        assert Embeds(conjs, conjs, Identity(|conjs|), true);
        return;
      }
      ghost var orig := conjs;
      ghost var sound := OracleSound(test) && AllWellFormed(orig);
      var cs := conjs;
      ghost var idx := Identity(|cs|);
      var i := 0;
      while i < |cs|
        invariant 0 <= i <= |cs| && |cs| >= 1
        invariant st.Valid() && Extends(old(st.table), st.table)
        invariant Pruning(cs, orig, idx, sound)
        decreases |cs| - i
      {
        var j := i + 1;
        while j < |cs|
          invariant i < j <= |cs|
          invariant st.Valid() && Extends(old(st.table), st.table)
          invariant Pruning(cs, orig, idx, sound)
          decreases |cs|, |cs| - j
        {
          var cs', dropped := TryDrop(st, cs, j, i, test);
          PruningStep(cs, cs', orig, idx, sound, j, dropped);
          idx := if dropped then Erase(idx, j) else idx;
          cs := cs';
          if dropped {
            continue;
          }
          cs', dropped := TryDrop(st, cs, i, j, test);
          PruningStep(cs, cs', orig, idx, sound, i, dropped);
          idx := if dropped then Erase(idx, i) else idx;
          cs := cs';
          if dropped {
            j := i + 1;
            continue;
          }
          j := j + 1;
        }
        i := i + 1;
      }
      conjs := cs;
      forall x ensures Holds(cs, x) ==> Holds(orig, x) {
        RelaxedMeaning(cs, orig, idx, x);
      }
    }

    /**
     * `eliminateVariables`: a member with variables is removed, every copy of
     * it, and what `eliminate` (the simplifier's run) makes of it is appended;
     * the scan restarts after each such step. At most `fuel` steps are made;
     * `finished` says whether the scan went through.
     */
    method EliminateVariables(eliminate: Conjunction -> seq<Conjunction>, fuel: nat) returns (finished: bool)
      modifies this
      ensures finished ==> forall c :: c in conjs ==> c.vars == {}
      ensures forall c :: c in old(conjs) && c.vars == {} ==> c in conjs
      ensures forall c :: c in conjs ==> c in old(conjs) || exists d: Conjunction :: d.vars != {} && c in eliminate(d)
    {
      ghost var orig := conjs;
      var cs := conjs;
      var left := fuel;
      var k := 0;
      while k < |cs|
        invariant 0 <= k <= |cs|
        invariant forall l :: 0 <= l < k ==> cs[l].vars == {}
        invariant forall c :: c in orig && c.vars == {} ==> c in cs
        invariant forall c :: c in cs ==> c in orig || exists d: Conjunction :: d.vars != {} && c in eliminate(d)
        decreases left, |cs| - k
      {
        if cs[k].vars != {} {
          if left == 0 {
            conjs := cs;
            return false;
          }
          var nc := cs[k];
          cs := Removed(cs, nc) + eliminate(nc);
          left := left - 1;
          k := 0;
        } else {
          k := k + 1;
        }
      }
      conjs := cs;
      return true;
    }
  }

  /** `list::remove`: every copy of `c` is erased, the rest kept in order. */
  function Removed(cs: seq<Conjunction>, c: Conjunction): (r: seq<Conjunction>)
    ensures forall d :: d in r <==> d in cs && d != c
    ensures |r| <= |cs|
  {
    if |cs| == 0 then []
    else Removed(cs[..|cs| - 1], c) + (if cs[|cs| - 1] == c then [] else [cs[|cs| - 1]])
  }

  // ----- helpers of removeDuplicates -----

  /** The first `i` members are neither OBVIOUS nor ABSURD and occur nowhere after. */
  predicate Settled(cs: seq<Conjunction>, i: nat)
  {
    i <= |cs|
    && (forall k :: 0 <= k < i ==> cs[k] != Obvious && cs[k] != Absurd)
    && (forall k, l :: 0 <= k < i && k < l < |cs| ==> cs[k] != cs[l])
  }

  /** Every member of `orig` other than ABSURD is still in `cs`. */
  predicate Covers(cs: seq<Conjunction>, orig: seq<Conjunction>)
  {
    forall c :: c in orig && c != Absurd ==> c in cs
  }

  lemma EraseSettled(cs: seq<Conjunction>, i: nat, p: nat)
    requires i <= p < |cs| && Settled(cs, i)
    ensures Settled(Erase(cs, p), i)
  {
    var r := Erase(cs, p);
    forall k, l | 0 <= k < i && k < l < |r|
      ensures r[k] != r[l]
    {
      assert r[k] == cs[k];
      if l < p {
        assert r[l] == cs[l];
      } else {
        assert r[l] == cs[l + 1];
      }
    }
  }

  lemma EraseAbsurd(cs: seq<Conjunction>, orig: seq<Conjunction>, p: nat)
    requires p < |cs| && cs[p] == Absurd && Covers(cs, orig)
    ensures Covers(Erase(cs, p), orig)
  {
    forall c | c in orig && c != Absurd
      ensures c in Erase(cs, p)
    {
      var k :| 0 <= k < |cs| && cs[k] == c;
      if k < p {
        assert Erase(cs, p)[k] == c;
      } else {
        assert Erase(cs, p)[k - 1] == c;
      }
    }
  }

  /** Every position of `orig` holding the last copy of a member other than ABSURD is in `idx`. */
  ghost predicate KeepsLast(orig: seq<Conjunction>, idx: seq<nat>)
  {
    forall m {:trigger IsLast(orig, m)} :: IsLast(orig, m) ==> m in idx
  }

  /** Position `m` of `s` holds a member other than ABSURD that occurs nowhere after. */
  predicate IsLast(s: seq<Conjunction>, m: int)
  {
    0 <= m < |s| && s[m] != Absurd && s[m] !in s[m + 1..]
  }

  /** Each member of `r` other than ABSURD is, at its position `idx[k]` in `s`, the last copy of its value. */
  ghost predicate LastCopies(r: seq<Conjunction>, s: seq<Conjunction>)
  {
    exists idx :: Embeds(r, s, idx, false)
      && forall k :: 0 <= k < |r| && r[k] != Absurd ==> r[k] !in s[idx[k] + 1..]
  }

  /** Every member from position `p` on has a last copy at or after `p`. */
  lemma {:induction false} LastCopy(s: seq<Conjunction>, p: nat) returns (m: nat)
    requires p < |s|
    ensures p <= m < |s| && s[m] == s[p] && s[m] !in s[m + 1..]
    decreases |s| - p
  {
    if s[p] in s[p + 1..] {
      var j :| 0 <= j < |s[p + 1..]| && s[p + 1..][j] == s[p];
      m := LastCopy(s, p + 1 + j);
    } else {
      m := p;
    }
  }

  /** `cs` embeds in `orig` by `idx`, holds every member of `orig` but ABSURD, and keeps every last copy. */
  ghost predicate Tracked(cs: seq<Conjunction>, orig: seq<Conjunction>, idx: seq<nat>)
  {
    Embeds(cs, orig, idx, false) && Covers(cs, orig) && KeepsLast(orig, idx)
  }

  /**
   * Erasing the member at `p`, when it is ABSURD in a longer list or has a
   * later copy at `q`, keeps the tracking and what is settled before `p`.
   */
  lemma EraseTracked(cs: seq<Conjunction>, orig: seq<Conjunction>, idx: seq<nat>, p: nat, q: nat)
    requires Tracked(cs, orig, idx) && Settled(cs, p) && p <= q < |cs|
    requires if p == q then cs[p] == Absurd && |cs| > 1 else cs[p] == cs[q]
    ensures Tracked(Erase(cs, p), orig, Erase(idx, p)) && Settled(Erase(cs, p), p)
  {
    if p == q {
      EraseLast(cs, orig, idx, p);
      EraseAbsurd(cs, orig, p);
    } else {
      assert orig[idx[p] + 1..][idx[q] - idx[p] - 1] == cs[p];
      EraseLast(cs, orig, idx, p);
      EraseCopy(cs, orig, p, q);
    }
    EraseEmbeds(cs, orig, idx, false, p);
    EraseSettled(cs, p, p);
  }

  /** Erasing a position that holds ABSURD or a value copied later in `s` keeps every last copy. */
  lemma EraseLast(r: seq<Conjunction>, s: seq<Conjunction>, idx: seq<nat>, p: nat)
    requires Embeds(r, s, idx, false) && KeepsLast(s, idx) && p < |r|
    requires r[p] == Absurd || r[p] in s[idx[p] + 1..]
    ensures KeepsLast(s, Erase(idx, p))
  {
    forall m | IsLast(s, m)
      ensures m in Erase(idx, p)
    {
      var j :| 0 <= j < |idx| && idx[j] == m;
      if j < p {
        assert Erase(idx, p)[j] == m;
      } else if j > p {
        assert Erase(idx, p)[j - 1] == m;
      }
    }
  }

  /** A distinct sublist holding every last copy holds only last copies. */
  lemma LastSurvives(r: seq<Conjunction>, s: seq<Conjunction>, idx: seq<nat>)
    requires Embeds(r, s, idx, false) && Distinct(r) && KeepsLast(s, idx)
    ensures LastCopies(r, s)
  {
    forall k | 0 <= k < |r| && r[k] != Absurd
      ensures r[k] !in s[idx[k] + 1..]
    {
      NoLaterCopy(r, s, idx, k);
    }
  }

  lemma NoLaterCopy(r: seq<Conjunction>, s: seq<Conjunction>, idx: seq<nat>, k: nat)
    requires Embeds(r, s, idx, false) && Distinct(r) && KeepsLast(s, idx)
    requires k < |r| && r[k] != Absurd
    ensures r[k] !in s[idx[k] + 1..]
  {
    if r[k] in s[idx[k] + 1..] {
      var j :| 0 <= j < |s[idx[k] + 1..]| && s[idx[k] + 1..][j] == r[k];
      var m := LastCopy(s, idx[k] + 1 + j);
      assert IsLast(s, m);
    }
  }

  lemma EraseCopy(cs: seq<Conjunction>, orig: seq<Conjunction>, p: nat, q: nat)
    requires p < q < |cs| && cs[p] == cs[q] && Covers(cs, orig)
    ensures Covers(Erase(cs, p), orig)
  {
    forall c | c in orig && c != Absurd
      ensures c in Erase(cs, p)
    {
      var k :| 0 <= k < |cs| && cs[k] == c;
      var m := if k == p then q else k;
      if m < p {
        assert Erase(cs, p)[m] == c;
      } else {
        assert Erase(cs, p)[m - 1] == c;
      }
    }
  }

  // ----- helpers of removeImplicators -----

  /**
   * The state of `removeImplicators`: the members are those of `orig` in
   * order, some turned into ABSURD; well-formedness is kept; and, under a
   * sound tester, every point of `orig` is still a point of the list.
   */
  ghost predicate Pruning(cs: seq<Conjunction>, orig: seq<Conjunction>, idx: seq<nat>, sound: bool)
  {
    && Embeds(cs, orig, idx, true) && |cs| <= |orig|
    && (AllWellFormed(orig) ==> AllWellFormed(cs))
    && (sound ==> AllWellFormed(orig) && forall x :: Holds(orig, x) ==> Holds(cs, x))
  }

  /**
   * One test of `removeImplicators`: whether member `p` implies member `q`;
   * if so `p` is erased, otherwise it is kept, turned into ABSURD when the
   * tester found it so.
   */
  method TryDrop(st: Store, cs: seq<Conjunction>, p: nat, q: nat, test: Oracle) returns (cs': seq<Conjunction>, dropped: bool)
    requires st.Valid() && p < |cs| && q < |cs| && p != q
    modifies st
    ensures st.Valid() && Extends(old(st.table), st.table)
    ensures dropped ==> cs' == Erase(cs, p)
    ensures !dropped ==> |cs'| == |cs| && cs' == cs[p := cs'[p]] && (cs'[p] == cs[p] || cs'[p] == Absurd)
    ensures AllWellFormed(cs) ==> AllWellFormed(cs')
    ensures OracleSound(test) && AllWellFormed(cs) ==> forall x :: Holds(cs, x) ==> Holds(cs', x)
  {
    var r, c := Implies(st, cs[p], cs[q], test);
    ghost var sound := OracleSound(test) && AllWellFormed(cs);
    ReplaceMember(cs, p, c, sound);
    var replaced := cs[p := c];
    if r {
      DropImplying(replaced, p, q, sound);
      return Erase(replaced, p), true;
    }
    return replaced, false;
  }

  /** A test of `removeImplicators` keeps its state, with the position of an erased member erased. */
  lemma PruningStep(cs: seq<Conjunction>, cs': seq<Conjunction>, orig: seq<Conjunction>, idx: seq<nat>, sound: bool,
                    p: nat, dropped: bool)
    requires Pruning(cs, orig, idx, sound) && p < |cs|
    requires dropped ==> cs' == Erase(cs, p)
    requires !dropped ==> |cs'| == |cs| && cs' == cs[p := cs'[p]] && (cs'[p] == cs[p] || cs'[p] == Absurd)
    requires AllWellFormed(cs) ==> AllWellFormed(cs')
    requires sound && AllWellFormed(cs) ==> forall x :: Holds(cs, x) ==> Holds(cs', x)
    ensures Pruning(cs', orig, if dropped then Erase(idx, p) else idx, sound)
  {
    if dropped {
      EraseEmbeds(cs, orig, idx, true, p);
    }
  }

  /** Replacing a member by the result of `implies` on it keeps the points of the list. */
  lemma ReplaceMember(cs: seq<Conjunction>, p: nat, c: Conjunction, sound: bool)
    requires p < |cs|
    requires c == cs[p] || c == Absurd
    requires c != cs[p] && sound ==> forall x :: !Sat(cs[p], x)
    ensures forall x :: Holds(cs, x) && sound ==> Holds(cs[p := c], x)
  {
    forall x | Holds(cs, x) && sound
      ensures Holds(cs[p := c], x)
    {
      var d :| d in cs && Sat(d, x);
      var k :| 0 <= k < |cs| && cs[k] == d;
      if k != p {
        assert cs[p := c][k] == d;
      } else {
        assert cs[p := c][p] == d;
      }
    }
  }

  /** Erasing a member that implies another, distinct member keeps the points of the list. */
  lemma DropImplying(cs: seq<Conjunction>, p: nat, q: nat, sound: bool)
    requires p < |cs| && q < |cs| && p != q
    requires sound ==> forall x :: Sat(cs[p], x) ==> Sat(cs[q], x)
    ensures forall x :: Holds(cs, x) && sound ==> Holds(Erase(cs, p), x)
  {
    forall x | Holds(cs, x) && sound
      ensures Holds(Erase(cs, p), x)
    {
      var d :| d in cs && Sat(d, x);
      var k :| 0 <= k < |cs| && cs[k] == d;
      var m := if k == p then q else k;
      assert Sat(cs[m], x);
      if m < p {
        assert Erase(cs, p)[m] == cs[m];
      } else {
        assert Erase(cs, p)[m - 1] == cs[m];
      }
    }
  }
}
