/**
 * Clauses read as sets of literals, the frozensets main.py's resolution
 * engine works on: their semantics, the resolvent of two clauses (the
 * correct one and the one main.py:137 computes), closure under resolution
 * up to subsumption, and the completeness of resolution: a set of clauses
 * without the empty clause that is closed under resolution has a model.
 */
module SetCnf {
  import opened Cnf

  /** A clause as the frozenset of its literals. */
  type SClause = set<Literal>
  type SFormula = set<SClause>

  predicate SClauseSat(a: Assignment, c: SClause)
  {
    exists l :: l in c && LitTrue(a, l)
  }

  predicate SSatisfies(a: Assignment, s: SFormula)
  {
    forall c :: c in s ==> SClauseSat(a, c)
  }

  ghost predicate SSatisfiable(s: SFormula)
  {
    exists a: Assignment :: SSatisfies(a, s)
  }

  /** No clause holds the literal 0, which a DIMACS clause never contains. */
  predicate NoZero(s: SFormula)
  {
    forall c :: c in s ==> 0 !in c
  }

  /** `frozenset(clause)`. */
  function SetOf(c: Clause): SClause
  {
    set l | l in c
  }

  /** `set(frozenset(clause) for clause in cnf)`. */
  function ToSets(f: Formula): SFormula
  {
    set c | c in f :: SetOf(c)
  }

  /** Reading the clauses as sets changes nothing about satisfaction. */
  lemma ToSetsSatisfies(a: Assignment, f: Formula)
    ensures Satisfies(a, f) <==> SSatisfies(a, ToSets(f))
  {
    if SSatisfies(a, ToSets(f)) {
      forall c | c in f ensures ClauseSat(a, c) {
        assert SetOf(c) in ToSets(f);
        var l :| l in SetOf(c) && LitTrue(a, l);
      }
    }
    if Satisfies(a, f) {
      forall s | s in ToSets(f) ensures SClauseSat(a, s) {
        var c :| c in f && s == SetOf(c);
        var l :| l in c && LitTrue(a, l);
        assert l in s;
      }
    }
  }

  lemma ToSetsSatisfiable(f: Formula)
    ensures Satisfiable(f) <==> SSatisfiable(ToSets(f))
  {
    if Satisfiable(f) {
      var a :| Satisfies(a, f);
      ToSetsSatisfies(a, f);
    }
    if SSatisfiable(ToSets(f)) {
      var a :| SSatisfies(a, ToSets(f));
      ToSetsSatisfies(a, f);
    }
  }

  /** Some clause of `s` is a subset of `r` (the subsumption filter). */
  predicate Subsumed(s: SFormula, r: SClause)
  {
    exists e :: e in s && e <= r
  }

  /** The resolvent of `ci` and `cj` on `lit`, with `lit` in `ci` and `-lit` in `cj`. */
  function Resolvent(ci: SClause, cj: SClause, lit: Literal): SClause
  {
    (ci - {lit}) + (cj - {-lit})
  }

  /**
   * The resolvent as main.py:137 computes it: both `lit` and `-lit` are
   * taken out of the whole union, so a clause that held both loses both.
   */
  function AsWrittenResolvent(ci: SClause, cj: SClause, lit: Literal): SClause
  {
    (ci + cj) - {lit, -lit}
  }

  function Resolve(ci: SClause, cj: SClause, lit: Literal, asWritten: bool): SClause
  {
    if asWritten then AsWrittenResolvent(ci, cj, lit) else Resolvent(ci, cj, lit)
  }

  /** Every model of both parents satisfies their resolvent. */
  lemma ResolventImplied(a: Assignment, ci: SClause, cj: SClause, lit: Literal)
    requires lit != 0 && lit in ci && -lit in cj
    requires SClauseSat(a, ci) && SClauseSat(a, cj)
    ensures SClauseSat(a, Resolvent(ci, cj, lit))
  {
    var x :| x in ci && LitTrue(a, x);
    var y :| y in cj && LitTrue(a, y);
    if x != lit {
      assert x in Resolvent(ci, cj, lit);
    } else {
      LitTrueNotFalse(a, lit);
      assert y in Resolvent(ci, cj, lit);
    }
  }

  /** The two resolvents differ only when a parent holds both polarities of the resolved variable. */
  lemma ResolventsAgree(ci: SClause, cj: SClause, lit: Literal)
    requires -lit !in ci && lit !in cj
    ensures AsWrittenResolvent(ci, cj, lit) == Resolvent(ci, cj, lit)
  {
  }

  /**
   * As written, the clauses {1} and {1, -1}, both true when variable 1 is
   * true, resolve on 1 to the empty clause, on which main.py:138-139
   * answers False.
   */
  lemma AsWrittenResolventUnsound()
    ensures SClauseSat(map[1 := true], {1}) && SClauseSat(map[1 := true], {1, -1})
    ensures AsWrittenResolvent({1}, {1, -1}, 1) == {}
    ensures Resolvent({1}, {1, -1}, 1) == {1}
  {
    assert LitTrue(map[1 := true], 1);
  }

  /** `r` is a resolvent of two clauses of `s`. */
  ghost predicate Derived(s: SFormula, r: SClause, asWritten: bool)
  {
    exists ci, cj, lit :: ci in s && cj in s && lit in ci && -lit in cj && r == Resolve(ci, cj, lit, asWritten)
  }

  /** A (correct) resolvent of a zero-free formula holds in every model of it. */
  lemma DerivedImplied(a: Assignment, s: SFormula, r: SClause)
    requires NoZero(s) && SSatisfies(a, s) && Derived(s, r, false)
    ensures SClauseSat(a, r)
  {
    var ci, cj, lit :| ci in s && cj in s && lit in ci && -lit in cj && r == Resolve(ci, cj, lit, false);
    ResolventImplied(a, ci, cj, lit);
  }

  /** Every resolvent of the pair on a clashing literal is subsumed by a clause of `s`. */
  predicate PairClosed(s: SFormula, ci: SClause, cj: SClause, asWritten: bool)
  {
    forall lit :: lit in ci && -lit in cj ==> Subsumed(s, Resolve(ci, cj, lit, asWritten))
  }

  /** `s` is closed under resolution up to subsumption. */
  ghost predicate Closed(s: SFormula, asWritten: bool)
  {
    forall ci, cj :: ci in s && cj in s && ci != cj ==> PairClosed(s, ci, cj, asWritten)
  }

  /** Resolving in the other order on the complementary literal gives the same clause. */
  lemma PairClosedSymmetric(s: SFormula, ci: SClause, cj: SClause, asWritten: bool)
    requires PairClosed(s, ci, cj, asWritten)
    ensures PairClosed(s, cj, ci, asWritten)
  {
    forall lit | lit in cj && -lit in ci ensures Subsumed(s, Resolve(cj, ci, lit, asWritten)) {
      assert --lit == lit;
      assert Resolve(cj, ci, lit, asWritten) == Resolve(ci, cj, -lit, asWritten);
    }
  }

  lemma NonEmptyHasMember(s: set<Literal>)
    requires s != {}
    ensures exists x :: x in s
  {
    if forall x :: x !in s {
      assert false;
    }
  }

  lemma SomeClause(s: SFormula)
    requires s != {}
    ensures exists c :: c in s
  {
    if forall c :: c !in s {
      assert false;
    }
  }

  // ----- completeness -----

  /** Every literal of `c` is on a variable of at most `k`. */
  predicate Below(c: SClause, k: nat)
  {
    forall l :: l in c ==> Var(l) <= k
  }

  /** `a` satisfies every clause of `s` whose variables are all at most `k`. */
  ghost predicate SatBelow(s: SFormula, k: nat, a: Assignment)
  {
    forall c :: c in s && Below(c, k) ==> SClauseSat(a, c)
  }

  /** Without 0 and the empty clause, no clause lies below variable 1. */
  lemma SatBelowZero(s: SFormula)
    requires NoZero(s) && {} !in s
    ensures SatBelow(s, 0, map[])
  {
    forall c | 0 !in c && Below(c, 0) ensures c == {} {
      assert forall l :: l in c ==> Var(l) <= 0;
      assert forall l :: l !in c;
    }
  }

  /** Setting variable k+1 leaves the clauses below k satisfied. */
  lemma KeepBelow(s: SFormula, k: nat, a: Assignment, c: SClause, x: bool)
    requires SatBelow(s, k, a) && c in s && Below(c, k)
    ensures SClauseSat(a[k + 1 := x], c)
  {
    var l :| l in c && LitTrue(a, l);
    assert LitTrue(a[k + 1 := x], l);
  }

  /**
   * A clause below k+1 that fails once variable k+1 is set to `x` holds the
   * literal of k+1 that `x` makes false, and not the other one.
   */
  lemma FalsifiedHolds(s: SFormula, k: nat, a: Assignment, c: SClause, x: bool)
    requires SatBelow(s, k, a) && c in s && Below(c, k + 1)
    requires !SClauseSat(a[k + 1 := x], c)
    ensures (if x then -(k + 1) else k + 1) in c
    ensures (if x then k + 1 else -(k + 1)) !in c
  {
    forall l | l in c && Var(l) <= k ensures !LitTrue(a, l) {
      assert !LitTrue(a[k + 1 := x], l);
    }
  }

  /**
   * The induction step of completeness: if setting variable k+1 to true
   * falsifies a clause below k+1, setting it to false falsifies none, since
   * the two clauses' resolvent on k+1 would be subsumed by a clause below k
   * that `a` falsifies.
   */
  lemma SatBelowStep(s: SFormula, k: nat, a: Assignment)
    requires NoZero(s) && Closed(s, false) && SatBelow(s, k, a)
    ensures SatBelow(s, k + 1, a[k + 1 := true]) || SatBelow(s, k + 1, a[k + 1 := false])
  {
    var v := k + 1;
    var a1 := a[v := true];
    var a0 := a[v := false];
    if !SatBelow(s, v, a1) {
      var c1 :| c1 in s && Below(c1, v) && !SClauseSat(a1, c1);
      FalsifiedHolds(s, k, a, c1, true);
      forall c | c in s && Below(c, v) ensures SClauseSat(a0, c) {
        if -v in c {
          assert LitTrue(a0, -v);
        } else if v !in c {
          assert Below(c, k);
          KeepBelow(s, k, a, c, false);
        } else {
          ResolveOnNext(s, k, a, c, c1);
        }
      }
    }
  }

  /**
   * A clause below k+1 holding k+1 but not -(k+1) holds once k+1 is set to
   * false, when some clause holding -(k+1) fails once it is set to true:
   * their resolvent on k+1 is subsumed by a clause below k, which `a`
   * satisfies through a literal of the first clause.
   */
  lemma ResolveOnNext(s: SFormula, k: nat, a: Assignment, c: SClause, c1: SClause)
    requires Closed(s, false) && SatBelow(s, k, a)
    requires c in s && Below(c, k + 1) && k + 1 in c && -(k + 1) !in c
    requires c1 in s && Below(c1, k + 1) && -(k + 1) in c1 && !SClauseSat(a[k + 1 := true], c1)
    ensures SClauseSat(a[k + 1 := false], c)
  {
    var v := k + 1;
    assert c != c1;
    assert PairClosed(s, c, c1, false);
    var e :| e in s && e <= Resolvent(c, c1, v);
    assert Below(e, k);
    var l :| l in e && LitTrue(a, l);
    assert l !in c1 by {
      assert LitTrue(a[v := true], l);
    }
    assert l in c && l != v;
    assert LitTrue(a[v := false], l);
  }

  /** Some assignment satisfies every clause below k. */
  lemma {:induction false} ExtendBelow(s: SFormula, k: nat)
    requires NoZero(s) && {} !in s && Closed(s, false)
    ensures exists a :: SatBelow(s, k, a)
    decreases k
  {
    if k == 0 {
      SatBelowZero(s);
    } else {
      ExtendBelow(s, k - 1);
      var a :| SatBelow(s, k - 1, a);
      SatBelowStep(s, k - 1, a);
      var a' := if SatBelow(s, k, a[k := true]) then a[k := true] else a[k := false];
      assert SatBelow(s, k, a');
    }
  }

  /** A clause mentions finitely many variables. */
  lemma {:induction false} ClauseBound(c: SClause)
    ensures exists k: nat :: Below(c, k)
    decreases |c|
  {
    if c == {} {
      assert Below(c, 0);
    } else {
      NonEmptyHasMember(c);
      var l :| l in c;
      ClauseBound(c - {l});
      var k :| Below(c - {l}, k);
      var k' := if Var(l) > k then Var(l) else k;
      assert Below(c, k');
    }
  }

  /** Every clause of `s` is below `k`. */
  predicate AllBelow(s: SFormula, k: nat)
  {
    forall c :: c in s ==> Below(c, k)
  }

  /** So does a set of clauses. */
  lemma {:induction false} FormulaBound(s: SFormula)
    ensures exists k: nat :: AllBelow(s, k)
    decreases |s|
  {
    if s == {} {
      assert AllBelow(s, 0);
    } else {
      SomeClause(s);
      var d :| d in s;
      FormulaBound(s - {d});
      var k :| AllBelow(s - {d}, k);
      ClauseBound(d);
      var j :| Below(d, j);
      var k' := if j > k then j else k;
      forall c | c in s ensures Below(c, k') {
        if c != d {
          assert c in s - {d};
        }
      }
      assert AllBelow(s, k');
    }
  }

  /**
   * Completeness of resolution: a zero-free set of clauses without the
   * empty clause that is closed under (correct) resolution up to subsumption
   * has a model.
   */
  lemma ClosedSatisfiable(s: SFormula)
    requires NoZero(s) && {} !in s && Closed(s, false)
    ensures SSatisfiable(s)
  {
    FormulaBound(s);
    var k :| AllBelow(s, k);
    ExtendBelow(s, k);
    var a :| SatBelow(s, k, a);
    assert SSatisfies(a, s);
  }

  /** The empty clause has no model. */
  lemma EmptyClauseUnsat(s: SFormula)
    requires {} in s
    ensures !SSatisfiable(s)
  {
    forall a ensures !SSatisfies(a, s) {
      assert !SClauseSat(a, {});
    }
  }

  /** A non-empty list of clauses gives a non-empty set. */
  lemma ToSetsNonEmpty(f: Formula)
    requires f != []
    ensures ToSets(f) != {}
  {
    assert SetOf(f[0]) in ToSets(f);
  }

  /** A list of pairwise distinct literals gives a set of the same size. */
  lemma {:induction false} DistinctSetOf(c: Clause)
    requires forall i, j :: 0 <= i < j < |c| ==> c[i] != c[j]
    ensures |SetOf(c)| == |c|
  {
    if c != [] {
      var init := c[..|c| - 1];
      DistinctSetOf(init);
      assert SetOf(c) == SetOf(init) + {c[|c| - 1]};
      assert c[|c| - 1] !in SetOf(init);
    }
  }
}
