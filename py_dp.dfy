/**
 * `SATSolver._dp_recursive` of main.py: unit simplification to a fixpoint
 * (a queue of unit literals, each of which drops the clauses it satisfies
 * and strips its complement from the others), then one round of
 * pure-literal removal over the variables 1..num_vars, then a split on the
 * variable of the first literal of the first clause, positive branch first.
 *
 * `DpSpec` is the procedure as a function.  Its `firstOnly` flag selects
 * how a branch strips the complement of the split literal: `true` is the
 * code as written (`list.remove`, first occurrence only), `false` removes
 * every occurrence and lets a branch with an emptied clause fail.  The
 * first is not sound (`AsWrittenUnsound`), though it still accepts every
 * satisfiable formula (`AsWrittenComplete`); the second decides
 * satisfiability (`DpSpecCorrect`).  `DpRecursive` implements both.
 */
module PyDp {
  import opened Cnf
  import opened DpCpp
  import opened PyPure

  datatype Option<T> = None | Some(value: T)

  /** The literals of the one-literal clauses, in order (`unit_clauses` at entry). */
  function InitialUnits(f: Formula): (r: seq<Literal>)
    ensures forall i :: 0 <= i < |r| ==> [r[i]] in f
  {
    if f == [] then []
    else
      var rest := InitialUnits(f[1..]);
      if |f[0]| == 1 then
        assert f[0] == [f[0][0]];
        [f[0][0]] + rest
      else rest
  }

  /** The one-literal clauses created while sweeping `f` with the unit literal `x`. */
  function NewUnits(f: Formula, x: Literal): seq<Literal>
  {
    if f == [] then []
    else
      var c := Without(f[0], -x);
      (if x !in f[0] && -x in f[0] && |c| == 1 then [c[0]] else []) + NewUnits(f[1..], x)
  }

  lemma {:induction false} SimplifyAppend(a: Formula, b: Formula, x: Literal)
    ensures Simplify(a + b, x) == Simplify(a, x) + Simplify(b, x)
  {
    if a != [] {
      assert (a + b)[0] == a[0] && (a + b)[1..] == a[1..] + b;
      SimplifyAppend(a[1..], b, x);
    } else {
      assert a + b == b;
    }
  }

  lemma {:induction false} NewUnitsAppend(a: Formula, b: Formula, x: Literal)
    ensures NewUnits(a + b, x) == NewUnits(a, x) + NewUnits(b, x)
  {
    if a != [] {
      assert (a + b)[0] == a[0] && (a + b)[1..] == a[1..] + b;
      NewUnitsAppend(a[1..], b, x);
    } else {
      assert a + b == b;
    }
  }

  lemma {:induction false} WithoutAbsent(c: Clause, x: Literal)
    requires x !in c
    ensures Without(c, x) == c
  {
    if c != [] {
      WithoutAbsent(c[1..], x);
      assert c == [c[0]] + c[1..];
    }
  }

  /** Sweeping with a literal whose variable does not occur changes nothing. */
  lemma {:induction false} SimplifyNoop(f: Formula, x: Literal)
    requires Var(x) !in Vars(f)
    ensures Simplify(f, x) == f && NewUnits(f, x) == []
  {
    if f != [] {
      VarsSplit(f);
      SimplifyNoop(f[1..], x);
      assert x !in f[0] && -x !in f[0];
      WithoutAbsent(f[0], -x);
    }
  }

  /** The variables of the head clause and of the tail are variables of the formula. */
  lemma VarsSplit(f: Formula)
    requires f != []
    ensures Vars(f[1..]) <= Vars(f)
    ensures forall l :: l in f[0] ==> Var(l) in Vars(f)
  {
    forall v | v in Vars(f[1..]) ensures v in Vars(f) {
      var c, l :| c in f[1..] && l in c && v == Var(l);
      assert c in f;
    }
    assert f[0] in f;
  }

  /** Each sweep loses at least one literal occurrence per unit clause it creates. */
  lemma {:induction false} NewUnitsBound(f: Formula, x: Literal)
    ensures Occurrences(Simplify(f, x)) + |NewUnits(f, x)| <= Occurrences(f)
  {
    if f != [] {
      NewUnitsBound(f[1..], x);
      if x !in f[0] {
        var r := Simplify(f, x);
        assert r[0] == Without(f[0], -x) && r[1..] == Simplify(f[1..], x);
      }
    }
  }

  /** Every unit the sweep reports is a one-literal clause of the swept formula. */
  lemma {:induction false} NewUnitsIn(f: Formula, x: Literal)
    ensures forall u :: u in NewUnits(f, x) ==> [u] in Simplify(f, x)
  {
    if f != [] {
      NewUnitsIn(f[1..], x);
      var c := Without(f[0], -x);
      if x !in f[0] && -x in f[0] && |c| == 1 {
        assert c == [c[0]];
        assert Simplify(f, x)[0] == c;
      }
    }
  }

  /**
   * The unit loop of `_dp_recursive`: sweep with the head of the queue,
   * fail if a clause empties, otherwise queue the new one-literal clauses
   * behind the rest.
   */
  function UnitPhase(f: Formula, q: seq<Literal>): (r: Option<Formula>)
    requires [] !in f
    ensures r.Some? ==> [] !in r.value && Occurrences(r.value) <= Occurrences(f)
    decreases Occurrences(f) + |q|
  {
    if q == [] then Some(f)
    else
      var g := Simplify(f, q[0]);
      if [] in g then None
      else
        NewUnitsBound(f, q[0]);
        UnitPhase(g, q[1..] + NewUnits(f, q[0]))
  }

  /** Every queued literal is still a unit clause, or its variable is gone. */
  ghost predicate Forced(f: Formula, q: seq<Literal>)
  {
    forall i :: 0 <= i < |q| ==> [q[i]] in f || Var(q[i]) !in Vars(f)
  }

  /** Sweeping with a unit clause's literal keeps satisfiability, and an emptied clause proves there is none. */
  lemma UnitStepEquisat(f: Formula, x: Literal)
    requires [x] in f
    ensures [] in Simplify(f, x) ==> !Satisfiable(f)
    ensures [] !in Simplify(f, x) ==> (Satisfiable(f) <==> Satisfiable(Simplify(f, x)))
  {
    var g := Simplify(f, x);
    if Satisfiable(f) {
      var a :| Satisfies(a, f);
      assert ClauseSat(a, [x]);
      LitTrueNotFalse(a, x);
      SimplifyKeeps(a, f, x);
      EmptyClauseUnsatIfIn(a, g);
    }
    if Satisfiable(g) {
      LiftBranch(f, x);
    }
  }

  lemma EmptyClauseUnsatIfIn(a: Assignment, g: Formula)
    requires Satisfies(a, g)
    ensures [] !in g
  {
    assert !ClauseSat(a, []);
  }

  lemma ForcedStep(f: Formula, q: seq<Literal>)
    requires q != [] && Forced(f, q) && [] !in Simplify(f, q[0])
    ensures Forced(Simplify(f, q[0]), q[1..] + NewUnits(f, q[0]))
  {
    var x := q[0];
    var g := Simplify(f, x);
    var q' := q[1..] + NewUnits(f, x);
    SimplifyDropsVar(f, x);
    NewUnitsIn(f, x);
    forall i | 0 <= i < |q'| ensures [q'[i]] in g || Var(q'[i]) !in Vars(g) {
      if i < |q| - 1 {
        var y := q[i + 1];
        assert q'[i] == y;
        if [y] in f && y != x && Var(y) != Var(x) {
          SimplifyKeepsClause(f, x, [y]);
          WithoutAbsent([y], -x);
        } else if [y] in f && y != x {
          assert y == -x;
          SimplifyKeepsClause(f, x, [y]);
          assert Without([y], -x) == [];
        }
      } else {
        assert q'[i] in NewUnits(f, x);
      }
    }
  }

  /** The unit loop keeps satisfiability both ways, and fails only on formulas without a model. */
  lemma {:induction false} UnitPhaseEquisat(f: Formula, q: seq<Literal>)
    requires [] !in f && Forced(f, q)
    ensures UnitPhase(f, q).None? ==> !Satisfiable(f)
    ensures UnitPhase(f, q).Some? ==> (Satisfiable(f) <==> Satisfiable(UnitPhase(f, q).value))
    decreases Occurrences(f) + |q|
  {
    if q != [] {
      var x := q[0];
      var g := Simplify(f, x);
      if [x] in f {
        UnitStepEquisat(f, x);
      } else {
        SimplifyNoop(f, x);
      }
      if [] !in g {
        NewUnitsBound(f, x);
        ForcedStep(f, q);
        UnitPhaseEquisat(g, q[1..] + NewUnits(f, x));
      }
    }
  }

  /** `list.remove(x)`: the first occurrence of `x` taken out. */
  function RemoveFirst(c: Clause, x: Literal): (r: Clause)
    ensures forall y :: y in r ==> y in c
    ensures forall y :: y in c && y != x ==> y in r
    ensures x in c ==> |r| == |c| - 1
    ensures x !in c ==> r == c
  {
    if c == [] then []
    else if c[0] == x then c[1..]
    else
      var r := [c[0]] + RemoveFirst(c[1..], x);
      assert c == [c[0]] + c[1..];
      r
  }

  /** A branch as written: the clauses without `l`, each with one `-l` removed. */
  function BranchFirst(f: Formula, l: Literal): (r: Formula)
    ensures Occurrences(r) <= Occurrences(f)
  {
    if f == [] then []
    else
      var rest := BranchFirst(f[1..], l);
      if l in f[0] then rest
      else
        var r := [RemoveFirst(f[0], -l)] + rest;
        assert r[0] == RemoveFirst(f[0], -l) && r[1..] == rest;
        r
  }

  function Branch(f: Formula, l: Literal, firstOnly: bool): Formula
  {
    if firstOnly then BranchFirst(f, l) else Simplify(f, l)
  }

  lemma {:induction false} BranchShrinks(f: Formula, l: Literal, firstOnly: bool)
    requires exists c :: c in f && (l in c || -l in c)
    ensures Occurrences(Branch(f, l, firstOnly)) < Occurrences(f)
  {
    if !firstOnly {
      SimplifyShrinks(f, l);
    } else if l in f[0] || -l in f[0] {
      if l in f[0] {
        OccurrencesPositive(f, f[0]);
      } else {
        var r := BranchFirst(f, l);
        assert r[0] == RemoveFirst(f[0], -l) && r[1..] == BranchFirst(f[1..], l);
      }
    } else {
      var c :| c in f && (l in c || -l in c);
      assert c in f[1..];
      BranchShrinks(f[1..], l, firstOnly);
      if l !in f[0] {
        var r := BranchFirst(f, l);
        assert r[0] == RemoveFirst(f[0], -l) && r[1..] == BranchFirst(f[1..], l);
      }
    }
  }

  /** A model in which `-l` is false (or `l` is 0) is a model of the branch as written. */
  lemma {:induction false} BranchFirstKeeps(a: Assignment, f: Formula, l: Literal)
    requires Satisfies(a, f) && (LitTrue(a, -l) ==> l == 0)
    ensures Satisfies(a, BranchFirst(f, l))
  {
    if f != [] {
      assert Satisfies(a, f[1..]) by {
        forall c | c in f[1..] ensures ClauseSat(a, c) { assert c in f; }
      }
      BranchFirstKeeps(a, f[1..], l);
      if l !in f[0] {
        var r := BranchFirst(f, l);
        assert r[0] == RemoveFirst(f[0], -l) && r[1..] == BranchFirst(f[1..], l);
        assert ClauseSat(a, f[0]);
        var m :| m in f[0] && LitTrue(a, m);
        assert m != -l;
        assert m in RemoveFirst(f[0], -l);
        forall c | c in r ensures ClauseSat(a, c) {
          if c != r[0] { assert c in r[1..]; }
        }
      }
    }
  }

  /** Every one-literal clause of `f` has its literal waiting in the queue `q`. */
  ghost predicate UnitsQueued(f: Formula, q: seq<Literal>)
  {
    forall c :: c in f && |c| == 1 ==> c[0] in q
  }

  /** No clause has exactly one literal. */
  ghost predicate NoUnits(f: Formula)
  {
    forall c :: c in f ==> |c| != 1
  }

  lemma InitialUnitsQueued(f: Formula)
    ensures UnitsQueued(f, InitialUnits(f))
  {
    forall c | c in f && |c| == 1 ensures c[0] in InitialUnits(f) {
      InitialUnitsHas(f, c);
    }
  }

  lemma {:induction false} InitialUnitsHas(f: Formula, c: Clause)
    requires c in f && |c| == 1
    ensures c[0] in InitialUnits(f)
  {
    if c != f[0] {
      InitialUnitsHas(f[1..], c);
    }
  }

  /** A one-literal clause after a sweep with `x` is a new unit, or an old queued one other than `x`. */
  lemma {:induction false} SweepUnits(f: Formula, x: Literal, q: seq<Literal>)
    requires UnitsQueued(f, q)
    ensures forall c :: c in Simplify(f, x) && |c| == 1 ==> c[0] in NewUnits(f, x) || (c[0] in q && c[0] != x)
  {
    if f != [] {
      assert forall c :: c in f[1..] ==> c in f;
      SweepUnits(f[1..], x, q);
      if x !in f[0] {
        var c := Without(f[0], -x);
        var r := Simplify(f, x);
        assert r[0] == c && r[1..] == Simplify(f[1..], x);
        if -x !in f[0] {
          WithoutAbsent(f[0], -x);
          assert f[0] in f;
          if |c| == 1 {
            assert c[0] in f[0];
          }
        }
      }
    }
  }

  lemma UnitsQueuedStep(f: Formula, q: seq<Literal>)
    requires q != [] && UnitsQueued(f, q)
    ensures UnitsQueued(Simplify(f, q[0]), q[1..] + NewUnits(f, q[0]))
  {
    SweepUnits(f, q[0], q);
    forall c | c in Simplify(f, q[0]) && |c| == 1 ensures c[0] in q[1..] + NewUnits(f, q[0]) {
      if c[0] !in NewUnits(f, q[0]) {
        InTail(q, c[0]);
      }
    }
  }

  lemma InTail(q: seq<Literal>, y: Literal)
    requires y in q && y != q[0]
    ensures y in q[1..]
  {
    var i :| 0 <= i < |q| && q[i] == y;
    assert q[1..][i - 1] == y;
  }

  /** The unit loop runs until no one-literal clause is left. */
  lemma {:induction false} UnitPhaseNoUnits(f: Formula, q: seq<Literal>)
    requires [] !in f && UnitsQueued(f, q)
    ensures UnitPhase(f, q).Some? ==> NoUnits(UnitPhase(f, q).value)
    decreases Occurrences(f) + |q|
  {
    if q != [] {
      var g := Simplify(f, q[0]);
      if [] !in g {
        NewUnitsBound(f, q[0]);
        UnitsQueuedStep(f, q);
        UnitPhaseNoUnits(g, q[1..] + NewUnits(f, q[0]));
      }
    }
  }

  /** The clause list after the unit loop, or None when a clause emptied. */
  function AfterUnits(f: Formula): (r: Option<Formula>)
    requires [] !in f
    ensures r.Some? ==> [] !in r.value && Occurrences(r.value) <= Occurrences(f)
  {
    UnitPhase(f, InitialUnits(f))
  }

  /** After the unit loop no clause has exactly one literal. */
  lemma AfterUnitsNoUnits(f: Formula)
    requires [] !in f
    ensures AfterUnits(f).Some? ==> NoUnits(AfterUnits(f).value)
  {
    InitialUnitsQueued(f);
    UnitPhaseNoUnits(f, InitialUnits(f));
  }

  lemma AfterUnitsEquisat(f: Formula)
    requires [] !in f
    ensures AfterUnits(f).None? ==> !Satisfiable(f)
    ensures AfterUnits(f).Some? ==> (Satisfiable(f) <==> Satisfiable(AfterUnits(f).value))
  {
    UnitPhaseEquisat(f, InitialUnits(f));
  }

  /** The clause list after the pure literals of 1..n are dropped. */
  function Reduced(g: Formula, n: int): (r: Formula)
    ensures [] !in g ==> [] !in r
    ensures Occurrences(r) <= Occurrences(g)
  {
    DropPure(g, PureLits(g, n))
  }

  /** The split variable: that of the first literal of the first clause. */
  function SplitVar(h: Formula): (v: Literal)
    requires h != [] && [] !in h
    ensures exists c :: c in h && (v in c || -v in c)
  {
    assert h[0] in h;
    var l := h[0][0];
    var v: Literal := Var(l);
    assert l in h[0] && (v == l || -v == l);
    v
  }

  /** The branch that sets the split variable true. */
  function TrueBranch(h: Formula, firstOnly: bool): (t: Formula)
    requires h != [] && [] !in h
    ensures Occurrences(t) < Occurrences(h)
  {
    BranchShrinks(h, SplitVar(h), firstOnly);
    Branch(h, SplitVar(h), firstOnly)
  }

  /** The branch that sets the split variable false. */
  function FalseBranch(h: Formula, firstOnly: bool): (e: Formula)
    requires h != [] && [] !in h
    ensures Occurrences(e) < Occurrences(h)
  {
    var v: Literal := SplitVar(h);
    assert exists c :: c in h && (-v in c || - -v in c);
    BranchShrinks(h, -v, firstOnly);
    Branch(h, -v, firstOnly)
  }

  /**
   * `_dp_recursive(cnf)` as a function of the clause list and `num_vars`.
   * A branch that contains an empty clause fails without a recursive call.
   */
  function DpSpec(f: Formula, n: int, firstOnly: bool): bool
    requires [] !in f
    decreases Occurrences(f)
  {
    match AfterUnits(f)
    case None => false
    case Some(g) =>
      var h := Reduced(g, n);
      if h == [] then true
      else
        var t := TrueBranch(h, firstOnly);
        var e := FalseBranch(h, firstOnly);
        ([] !in t && DpSpec(t, n, firstOnly)) || ([] !in e && DpSpec(e, n, firstOnly))
  }

  /** Splitting keeps satisfiability, with a branch holding an emptied clause counting as failed. */
  lemma SplitEquisat(h: Formula)
    requires h != [] && [] !in h
    ensures Satisfiable(h) <==>
              ([] !in TrueBranch(h, false) && Satisfiable(TrueBranch(h, false))) ||
              ([] !in FalseBranch(h, false) && Satisfiable(FalseBranch(h, false)))
  {
    var v: Literal := SplitVar(h);
    var t := Simplify(h, v);
    var e := Simplify(h, -v);
    assert TrueBranch(h, false) == t && FalseBranch(h, false) == e;
    if [] in t { EmptyClauseUnsat(t); }
    if [] in e { EmptyClauseUnsat(e); }
    SplitDecides(h, v);
  }

  /** Both directions of the equivalence, for one formula, given the answers on the branches. */
  lemma DpSpecStep(f: Formula, n: int)
    requires [] !in f
    requires AfterUnits(f).Some? && Reduced(AfterUnits(f).value, n) != []
    ensures var h := Reduced(AfterUnits(f).value, n);
      Satisfiable(f) <==>
        ([] !in TrueBranch(h, false) && Satisfiable(TrueBranch(h, false))) ||
        ([] !in FalseBranch(h, false) && Satisfiable(FalseBranch(h, false)))
  {
    AfterUnitsEquisat(f);
    var g := AfterUnits(f).value;
    PureEquisat(g, n);
    SplitEquisat(Reduced(g, n));
  }

  /** The end cases: an emptied clause in the unit loop, or nothing left after the pure literals. */
  lemma DpSpecBase(f: Formula, n: int)
    requires [] !in f
    requires AfterUnits(f).None? || Reduced(AfterUnits(f).value, n) == []
    ensures Satisfiable(f) <==> AfterUnits(f).Some?
  {
    AfterUnitsEquisat(f);
    if AfterUnits(f).Some? {
      var g := AfterUnits(f).value;
      PureEquisat(g, n);
      assert Satisfies(map[], Reduced(g, n));
    }
  }

  /** With every occurrence of the complement removed, the procedure decides satisfiability. */
  lemma {:induction false} DpSpecCorrect(f: Formula, n: int)
    requires [] !in f
    ensures DpSpec(f, n, false) <==> Satisfiable(f)
    decreases Occurrences(f)
  {
    if AfterUnits(f).None? || Reduced(AfterUnits(f).value, n) == [] {
      DpSpecBase(f, n);
    } else {
      var h := Reduced(AfterUnits(f).value, n);
      var t := TrueBranch(h, false);
      var e := FalseBranch(h, false);
      if [] !in t { DpSpecCorrect(t, n); }
      if [] !in e { DpSpecCorrect(e, n); }
      DpSpecStep(f, n);
    }
  }

  /** Removing one literal from clauses of two or more literals leaves none empty. */
  lemma {:induction false} BranchFirstNonEmpty(h: Formula, l: Literal)
    requires [] !in h && NoUnits(h)
    ensures [] !in BranchFirst(h, l)
  {
    if h != [] {
      assert h[0] in h;
      assert forall c :: c in h[1..] ==> c in h;
      BranchFirstNonEmpty(h[1..], l);
    }
  }

  /**
   * As written, a branch never holds an empty clause: the unit loop leaves
   * clauses of two or more literals, the pure-literal step only drops
   * clauses, and a branch removes one literal per clause.  So the guard
   * `[] !in t` in `DpSpec(f, n, true)` never fires, and `cnf[0][0]` is
   * always defined in the recursive calls.
   */
  lemma AsWrittenBranchesNonEmpty(f: Formula, n: int)
    requires [] !in f && AfterUnits(f).Some? && Reduced(AfterUnits(f).value, n) != []
    ensures [] !in TrueBranch(Reduced(AfterUnits(f).value, n), true)
    ensures [] !in FalseBranch(Reduced(AfterUnits(f).value, n), true)
  {
    AfterUnitsNoUnits(f);
    var h := Reduced(AfterUnits(f).value, n);
    var v: Literal := SplitVar(h);
    BranchFirstNonEmpty(h, v);
    BranchFirstNonEmpty(h, -v);
  }

  /** A satisfiable formula has a satisfiable branch as written, free of empty clauses. */
  lemma AsWrittenSplit(h: Formula)
    requires h != [] && [] !in h && Satisfiable(h)
    ensures ([] !in TrueBranch(h, true) && Satisfiable(TrueBranch(h, true))) ||
            ([] !in FalseBranch(h, true) && Satisfiable(FalseBranch(h, true)))
  {
    var v: Literal := SplitVar(h);
    var a :| Satisfies(a, h);
    LitTrueNotFalse(a, v);
    if !LitTrue(a, -v) || v == 0 {
      BranchFirstKeeps(a, h, v);
      EmptyClauseUnsatIfIn(a, BranchFirst(h, v));
    } else {
      assert - -v == v;
      BranchFirstKeeps(a, h, -v);
      EmptyClauseUnsatIfIn(a, BranchFirst(h, -v));
    }
  }

  /** What remains after the unit loop and the pure literals of a satisfiable formula is satisfiable. */
  lemma AsWrittenPrefix(f: Formula, n: int)
    requires [] !in f && Satisfiable(f)
    ensures AfterUnits(f).Some? && Satisfiable(Reduced(AfterUnits(f).value, n))
  {
    AfterUnitsEquisat(f);
    PureEquisat(AfterUnits(f).value, n);
  }

  /** Removing only the first occurrence still finds every satisfiable formula satisfiable. */
  lemma {:induction false} AsWrittenComplete(f: Formula, n: int)
    requires [] !in f && Satisfiable(f)
    ensures DpSpec(f, n, true)
    decreases Occurrences(f)
  {
    AsWrittenPrefix(f, n);
    var h := Reduced(AfterUnits(f).value, n);
    if h != [] {
      AsWrittenSplit(h);
      var t := TrueBranch(h, true);
      if [] !in t && Satisfiable(t) {
        AsWrittenComplete(t, n);
      } else {
        AsWrittenComplete(FalseBranch(h, true), n);
      }
    }
  }

  /** The unsatisfiable formula (1|2)(1|-2)(-1|-1|3)(-1|-3). */
  function UnsoundInput(): Formula
  {
    [[1, 2], [1, -2], [-1, -1, 3], [-1, -3]]
  }

  lemma UnsoundInputUnsat()
    ensures !Satisfiable(UnsoundInput())
  {
    var f := UnsoundInput();
    forall a: Assignment ensures !Satisfies(a, f) {
      assert f[0] in f && f[1] in f && f[2] in f && f[3] in f;
    }
  }

  /** Variables above `m` add no pure literal. */
  lemma {:induction false} PureLitsBeyond(f: Formula, m: int, n: int)
    requires 0 <= m <= n
    requires forall l :: l in Lits(f) ==> Var(l) <= m
    ensures PureLits(f, n) == PureLits(f, m)
    decreases n
  {
    if n > m {
      assert n !in Lits(f) && -n !in Lits(f);
      PureLitsBeyond(f, m, n - 1);
    }
  }

  /** Neither the unit loop nor the pure-literal step touches the input, for any `num_vars` of 3 or more. */
  lemma UnsoundInputPrefix(n: int)
    requires n >= 3
    ensures AfterUnits(UnsoundInput()) == Some(UnsoundInput())
    ensures Reduced(UnsoundInput(), n) == UnsoundInput()
  {
    var f := UnsoundInput();
    assert InitialUnits(f) == [];
    UnsoundInputPure();
    PureLitsBeyond(f, 3, n);
  }

  /** Each of the variables 1..3 occurs with both signs, and no other variable occurs. */
  lemma UnsoundInputPure()
    ensures PureLits(UnsoundInput(), 3) == []
    ensures forall l :: l in Lits(UnsoundInput()) ==> Var(l) <= 3
  {
    var f := UnsoundInput();
    assert 1 in Lits(f) && -1 in Lits(f) by { assert 1 in f[0] && -1 in f[2]; }
    assert 2 in Lits(f) && -2 in Lits(f) by { assert 2 in f[0] && -2 in f[1]; }
    assert 3 in Lits(f) && -3 in Lits(f) by { assert 3 in f[2] && -3 in f[3]; }
    forall l | l in Lits(f) ensures Var(l) <= 3 {
      var c :| c in f && l in c;
    }
  }

  /** The positive branch as written on variable 1 keeps one `-1` of the third clause. */
  lemma UnsoundBranch()
    ensures TrueBranch(UnsoundInput(), true) == [[-1, 3], [-3]]
  {
    var f := UnsoundInput();
    assert SplitVar(f) == 1;
    assert RemoveFirst([-1, -1, 3], -1) == [-1, 3];
    assert BranchFirst(f[3..], 1) == [[-3]];
    assert BranchFirst(f[2..], 1) == [[-1, 3], [-3]];
    assert BranchFirst(f[1..], 1) == [[-1, 3], [-3]];
  }

  /** Unit -3 turns [[-1, 3], [-3]] into [[-1]] and queues -1. */
  lemma UnsoundSweep()
    ensures Simplify([[-1, 3], [-3]], -3) == [[-1]]
    ensures NewUnits([[-1, 3], [-3]], -3) == [-1]
  {
    var t: Formula := [[-1, 3], [-3]];
    assert Without([3], 3) == [];
    assert Without([-1, 3], 3) == [-1];
    assert t[1..] == [[-3]] && t[1..][1..] == [];
    assert Simplify(t[1..], -3) == [];
    assert NewUnits(t[1..], -3) == [];
  }

  /** Unit -1 then empties the list. */
  lemma UnsoundUnits()
    ensures AfterUnits([[-1, 3], [-3]]) == Some([])
  {
    var t: Formula := [[-1, 3], [-3]];
    assert InitialUnits(t[1..]) == [-3];
    assert InitialUnits(t) == [-3];
    UnsoundSweep();
    assert Simplify([[-1]], -1) == [];
    assert NewUnits([[-1]], -1) == [];
    assert UnitPhase([], []) == Some([]);
    assert [-1][1..] + [] == [];
    assert UnitPhase([[-1]], [-1]) == Some([]);
    assert [-3][1..] + [-1] == [-1];
    assert UnitPhase(t, [-3]) == UnitPhase([[-1]], [-1]);
  }

  /** As written, the positive branch on variable 1 is accepted. */
  lemma UnsoundBranchAccepted(n: int)
    ensures DpSpec([[-1, 3], [-3]], n, true)
  {
    UnsoundUnits();
    assert Reduced([], n) == [];
  }

  /**
   * As written, `_dp_recursive` answers True on it, with `num_vars` 3 or
   * more: the positive branch on variable 1 keeps one `-1` of the third
   * clause, which unit propagation then uses as if variable 1 were false.
   */
  lemma AsWrittenUnsound(n: int)
    requires n >= 3
    ensures DpSpec(UnsoundInput(), n, true)
    ensures !Satisfiable(UnsoundInput())
  {
    UnsoundInputUnsat();
    UnsoundInputPrefix(n);
    UnsoundBranch();
    UnsoundBranchAccepted(n);
    DpSpecAcceptsTrueBranch(UnsoundInput(), n, true);
  }

  /** An accepted true branch makes the whole call accept. */
  lemma DpSpecAcceptsTrueBranch(f: Formula, n: int, firstOnly: bool)
    requires [] !in f && AfterUnits(f).Some? && Reduced(AfterUnits(f).value, n) != []
    requires [] !in TrueBranch(Reduced(AfterUnits(f).value, n), firstOnly)
    requires DpSpec(TrueBranch(Reduced(AfterUnits(f).value, n), firstOnly), n, firstOnly)
    ensures DpSpec(f, n, firstOnly)
  {
  }

  /** One sweep of the unit loop: `Simplify` and `NewUnits`, or false when a clause empties. */
  method Sweep(f: Formula, unitLit: Literal) returns (ok: bool, newCnf: Formula, added: seq<Literal>)
    requires [] !in f
    ensures ok <==> [] !in Simplify(f, unitLit)
    ensures ok ==> newCnf == Simplify(f, unitLit) && added == NewUnits(f, unitLit)
  {
    newCnf := [];
    added := [];
    var i := 0;
    while i < |f|
      invariant 0 <= i <= |f|
      invariant newCnf == Simplify(f[..i], unitLit) && added == NewUnits(f[..i], unitLit)
      invariant [] !in newCnf
    {
      var clause := f[i];
      SweepStep(f, i, unitLit);
      if unitLit in clause {
      } else if -unitLit in clause {
        var newClause := Without(clause, -unitLit);
        if newClause == [] {
          SweepConflict(f, i, unitLit);
          return false, newCnf, added;
        }
        newCnf := newCnf + [newClause];
        if |newClause| == 1 {
          added := added + [newClause[0]];
        }
      } else {
        WithoutAbsent(clause, -unitLit);
        newCnf := newCnf + [clause];
      }
      i := i + 1;
    }
    assert f[..i] == f;
    ok := true;
  }

  lemma SweepStep(f: Formula, i: int, x: Literal)
    requires 0 <= i < |f|
    ensures Simplify(f[..i + 1], x) == Simplify(f[..i], x) + Simplify([f[i]], x)
    ensures NewUnits(f[..i + 1], x) == NewUnits(f[..i], x) + NewUnits([f[i]], x)
    ensures Simplify([f[i]], x) == if x in f[i] then [] else [Without(f[i], -x)]
    ensures NewUnits([f[i]], x) ==
              if x !in f[i] && -x in f[i] && |Without(f[i], -x)| == 1 then [Without(f[i], -x)[0]] else []
  {
    assert f[..i + 1] == f[..i] + [f[i]];
    SimplifyAppend(f[..i], [f[i]], x);
    NewUnitsAppend(f[..i], [f[i]], x);
    assert [f[i]][1..] == [];
  }

  lemma SweepConflict(f: Formula, i: int, x: Literal)
    requires 0 <= i < |f| && x !in f[i] && Without(f[i], -x) == []
    ensures [] in Simplify(f, x)
  {
    SimplifyKeepsClause(f, x, f[i]);
  }

  /** The unit loop of `_dp_recursive`, run to the end of its queue. */
  method UnitLoop(cnf: Formula) returns (r: Option<Formula>)
    requires [] !in cnf
    ensures r == AfterUnits(cnf)
  {
    var f := cnf;
    var unitClauses := InitialUnits(f);
    while unitClauses != []
      invariant [] !in f
      invariant UnitPhase(f, unitClauses) == AfterUnits(cnf)
      decreases Occurrences(f) + |unitClauses|
    {
      var ok, newCnf, added := Sweep(f, unitClauses[0]);
      if !ok {
        return None;
      }
      NewUnitsBound(f, unitClauses[0]);
      f := newCnf;
      unitClauses := unitClauses[1..] + added;
    }
    return Some(f);
  }

  /** The keys of `literal_count`: every literal that occurs in `f`. */
  method LiteralTable(f: Formula) returns (seen: set<Literal>)
    ensures seen == Lits(f)
  {
    seen := {};
    var i := 0;
    while i < |f|
      invariant 0 <= i <= |f|
      invariant seen == Lits(f[..i])
    {
      var j := 0;
      while j < |f[i]|
        invariant 0 <= j <= |f[i]|
        invariant seen == Lits(f[..i]) + set k | 0 <= k < j :: f[i][k]
      {
        seen := seen + {f[i][j]};
        j := j + 1;
      }
      LitsStep(f, i);
      i := i + 1;
    }
    assert f[..i] == f;
  }

  lemma LitsStep(f: Formula, i: int)
    requires 0 <= i < |f|
    ensures Lits(f[..i + 1]) == Lits(f[..i]) + set k | 0 <= k < |f[i]| :: f[i][k]
  {
    assert f[..i + 1] == f[..i] + [f[i]];
    var row := set k | 0 <= k < |f[i]| :: f[i][k];
    forall l | l in f[i] ensures l in row {
      var k :| 0 <= k < |f[i]| && f[i][k] == l;
    }
    forall l | l in Lits(f[..i + 1]) ensures l in Lits(f[..i]) + row {
      var c :| c in f[..i + 1] && l in c;
      if c != f[i] {
        assert c in f[..i];
      }
    }
    forall l | l in Lits(f[..i]) + row ensures l in Lits(f[..i + 1]) {
      if l in row {
        assert f[i] in f[..i + 1] && l in f[i];
      } else {
        var c :| c in f[..i] && l in c;
        assert c in f[..i + 1];
      }
    }
  }

  /** The pure literals among the variables 1..numVars, given the literal table of `f`. */
  method PureLiterals(f: Formula, seen: set<Literal>, numVars: int) returns (ps: seq<Literal>)
    requires seen == Lits(f)
    ensures ps == PureLits(f, numVars)
  {
    ps := [];
    var last := if numVars < 0 then 0 else numVars;
    var v := 1;
    while v <= last
      invariant 1 <= v <= last + 1
      invariant ps == PureLits(f, v - 1)
    {
      PureLitsStep(f, v);
      var pos := v in seen;
      var neg := -v in seen;
      if pos && !neg {
        ps := ps + [v];
      } else if neg && !pos {
        ps := ps + [-v];
      }
      v := v + 1;
    }
    PureLitsNone(f, last, numVars);
  }

  lemma PureLitsStep(f: Formula, v: int)
    requires v >= 1
    ensures (v in Lits(f)) == (-v in Lits(f)) ==> PureLits(f, v) == PureLits(f, v - 1)
    ensures v in Lits(f) && -v !in Lits(f) ==> PureLits(f, v) == PureLits(f, v - 1) + [v]
    ensures -v in Lits(f) && v !in Lits(f) ==> PureLits(f, v) == PureLits(f, v - 1) + [-v]
  {
  }

  lemma PureLitsNone(f: Formula, m: int, n: int)
    requires m == n || (m == 0 && n < 0)
    ensures PureLits(f, m) == PureLits(f, n)
  {
  }

  /** Drops the clauses containing a pure literal, one literal at a time. */
  method DropPureLoop(g: Formula, ps: seq<Literal>) returns (f: Formula)
    ensures f == DropPure(g, ps)
  {
    f := g;
    var k := 0;
    while k < |ps|
      invariant 0 <= k <= |ps|
      invariant f == DropPure(g, ps[..k])
    {
      DropPureStep(g, ps[..k], ps[k]);
      assert ps[..k + 1] == ps[..k] + [ps[k]];
      f := DropPure(f, [ps[k]]);
      k := k + 1;
    }
    assert ps[..k] == ps;
  }

  /**
   * `_dp_recursive(cnf)`.  With `firstOnly` it is the code as written: a
   * branch drops only the first occurrence of the complement from each
   * clause, and (by `AsWrittenBranchesNonEmpty`) the guard on an emptied
   * branch never fires; without it every occurrence is dropped and a branch
   * holding an emptied clause fails, which decides satisfiability.
   */
  method DpRecursive(cnf: Formula, numVars: int, firstOnly: bool) returns (r: bool)
    requires [] !in cnf
    ensures r == DpSpec(cnf, numVars, firstOnly)
    ensures Satisfiable(cnf) ==> r
    ensures !firstOnly ==> (r <==> Satisfiable(cnf))
    decreases Occurrences(cnf)
  {
    if firstOnly {
      if Satisfiable(cnf) {
        AsWrittenComplete(cnf, numVars);
      }
    } else {
      DpSpecCorrect(cnf, numVars);
    }
    var afterUnits := UnitLoop(cnf);
    if afterUnits.None? {
      return false;
    }
    var g := afterUnits.value;
    var seen := LiteralTable(g);
    var pureLiterals := PureLiterals(g, seen, numVars);
    var f := DropPureLoop(g, pureLiterals);
    if f == [] {
      return true;
    }
    var newCnfTrue := TrueBranch(f, firstOnly);
    if [] !in newCnfTrue {
      r := DpRecursive(newCnfTrue, numVars, firstOnly);
      if r {
        return;
      }
    }
    var newCnfFalse := FalseBranch(f, firstOnly);
    if [] !in newCnfFalse {
      r := DpRecursive(newCnfFalse, numVars, firstOnly);
    } else {
      r := false;
    }
  }
}
