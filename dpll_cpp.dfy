/**
 * The procedure of dpll.cpp.  Despite its name it never branches: it
 * assigns the literal of every one-literal clause whose variable is not yet
 * in the solution map, repeats that pass until nothing changes, and then
 * checks every clause against the map.  The solution map `solutie` is passed
 * by reference in the source; here it is an in/out value.
 */
module DpllCpp {
  import opened Cnf

  /** The clause has exactly one literal, on variable `v`. */
  predicate IsUnitOn(c: Clause, v: nat)
  {
    |c| == 1 && Var(c[0]) == v
  }

  /** What one visit of a clause does to the map. */
  function UnitStep(sol: Assignment, c: Clause): Assignment
  {
    if |c| == 1 && Var(c[0]) !in sol then sol[Var(c[0]) := c[0] > 0] else sol
  }

  /** The map after one pass of `unit_propagation` over the clauses, in order. */
  function UnitPass(cs: Formula, sol: Assignment): Assignment
  {
    if cs == [] then sol else UnitStep(UnitPass(cs[..|cs| - 1], sol), cs[|cs| - 1])
  }

  /**
   * A pass keeps every existing entry, and a variable it adds is fixed by
   * the FIRST one-literal clause on it; later ones are ignored.
   */
  lemma {:induction false} UnitPassFirstWins(cs: Formula, sol: Assignment, v: nat)
    ensures Extends(UnitPass(cs, sol), sol)
    ensures v !in sol ==>
              (v in UnitPass(cs, sol) <==> exists i :: 0 <= i < |cs| && IsUnitOn(cs[i], v))
    ensures v !in sol && v in UnitPass(cs, sol) ==>
              exists i :: 0 <= i < |cs| && IsUnitOn(cs[i], v) &&
                          UnitPass(cs, sol)[v] == (cs[i][0] > 0) &&
                          forall j :: 0 <= j < i ==> !IsUnitOn(cs[j], v)
  {
    if cs != [] {
      var n := |cs| - 1;
      var pre := cs[..n];
      UnitPassFirstWins(pre, sol, v);
      assert forall i :: 0 <= i < n ==> pre[i] == cs[i];
      var t := UnitPass(pre, sol);
      if v !in sol && v in UnitPass(cs, sol) && v !in t {
        assert IsUnitOn(cs[n], v);
        assert forall j :: 0 <= j < n ==> !IsUnitOn(pre[j], v);
      }
    }
  }

  /** After a pass, every one-literal clause's variable is in the map. */
  lemma {:induction false} UnitPassCoversUnits(cs: Formula, sol: Assignment)
    ensures forall c :: c in cs && |c| == 1 ==> Var(c[0]) in UnitPass(cs, sol)
  {
    if cs != [] {
      var n := |cs| - 1;
      UnitPassCoversUnits(cs[..n], sol);
      forall c | c in cs && |c| == 1 ensures Var(c[0]) in UnitPass(cs, sol) {
        if c != cs[n] {
          var i :| 0 <= i < |cs| && cs[i] == c;
          assert c == cs[..n][i];
        }
      }
    }
  }

  /** A pass over a map that already covers every one-literal clause changes nothing. */
  lemma {:induction false} UnitPassStable(cs: Formula, sol: Assignment)
    requires forall c :: c in cs && |c| == 1 ==> Var(c[0]) in sol
    ensures UnitPass(cs, sol) == sol
  {
    if cs != [] {
      var n := |cs| - 1;
      assert forall c :: c in cs[..n] ==> c in cs;
      UnitPassStable(cs[..n], sol);
    }
  }

  /** The pass is idempotent: the second pass of the fixpoint loop never changes the map. */
  lemma UnitPassIdempotent(cs: Formula, sol: Assignment)
    ensures UnitPass(cs, UnitPass(cs, sol)) == UnitPass(cs, sol)
  {
    UnitPassCoversUnits(cs, sol);
    UnitPassStable(cs, UnitPass(cs, sol));
  }

  /**
   * `unit_propagation(cnf, solutie)`: one pass; `changed` is true iff at
   * least one entry was added.
   */
  method UnitPropagation(clauses: Formula, sol: Assignment) returns (changed: bool, sol': Assignment)
    ensures sol' == UnitPass(clauses, sol)
    ensures Extends(sol', sol)
    ensures forall c :: c in clauses && |c| == 1 ==> Var(c[0]) in sol'
    ensures changed <==> sol'.Keys != sol.Keys
  {
    changed := false;
    sol' := sol;
    var i := 0;
    while i < |clauses|
      invariant 0 <= i <= |clauses|
      invariant sol' == UnitPass(clauses[..i], sol)
      invariant sol.Keys <= sol'.Keys
      invariant changed <==> sol'.Keys != sol.Keys
    {
      var clause := clauses[i];
      if |clause| == 1 {
        var literal := clause[0];
        if Var(literal) !in sol' {
          sol' := sol'[Var(literal) := literal > 0];
          changed := true;
        }
      }
      assert clauses[..i + 1][..i] == clauses[..i];
      i := i + 1;
    }
    assert clauses[..i] == clauses;
    UnitPassFirstWins(clauses, sol, 0);
    UnitPassCoversUnits(clauses, sol);
  }

  /**
   * `DPLL(cnf, solutie)`: runs `unit_propagation` until it reports no
   * change (at most twice, since the pass is idempotent), then answers
   * whether every clause has a literal made true by the map.
   */
  method Dpll(clauses: Formula, sol: Assignment) returns (sat: bool, sol': Assignment)
    ensures sol' == UnitPass(clauses, sol)
    ensures sat <==> Satisfies(sol', clauses)
  {
    var changed;
    changed, sol' := UnitPropagation(clauses, sol);
    ghost var calls := 1;
    while changed
      invariant 1 <= calls <= 2
      invariant sol' == UnitPass(clauses, sol)
      invariant calls == 2 ==> !changed
      decreases 2 - calls
    {
      UnitPassIdempotent(clauses, sol);
      changed, sol' := UnitPropagation(clauses, sol');
      calls := calls + 1;
    }
    var i := 0;
    while i < |clauses|
      invariant 0 <= i <= |clauses|
      invariant forall k :: 0 <= k < i ==> ClauseSat(sol', clauses[k])
    {
      var clause := clauses[i];
      var satisfied := false;
      var j := 0;
      while j < |clause|
        invariant 0 <= j <= |clause|
        invariant satisfied <==> exists k :: 0 <= k < j && LitTrue(sol', clause[k])
      {
        var literal := clause[j];
        if Var(literal) in sol' {
          if sol'[Var(literal)] == (literal > 0) {
            satisfied := true;
            break;
          }
        }
        j := j + 1;
      }
      if !satisfied {
        assert !ClauseSat(sol', clause);
        return false, sol';
      }
      ghost var k :| 0 <= k < |clause| && LitTrue(sol', clause[k]);
      assert clause[k] in clause;
      i := i + 1;
    }
    return true, sol';
  }

  /** The verdict `Dpll` gives, as a function of its inputs. */
  ghost predicate Verdict(cs: Formula, sol: Assignment)
  {
    Satisfies(UnitPass(cs, sol), cs)
  }

  /** Sound: a true verdict comes with a model (the map itself). */
  lemma VerdictSound(cs: Formula, sol: Assignment)
    requires Verdict(cs, sol)
    ensures Satisfiable(cs)
  {
  }

  /** Incomplete: a satisfiable clause with no forced literal gets the verdict false. */
  lemma VerdictIncomplete()
    ensures Satisfiable([[1, 2]]) && !Verdict([[1, 2]], map[])
  {
    assert Satisfies(map[1 := true], [[1, 2]]) by {
      assert LitTrue(map[1 := true], 1);
    }
    var cs: Formula := [[1, 2]];
    assert cs[..0] == [];
    assert UnitPass(cs[..0], map[]) == map[];
    assert UnitPass(cs, map[]) == map[];
    assert !ClauseSat(map[], [1, 2]);
  }

  /** Units {1} and {-1}: the first fixes variable 1 to true, the second is ignored. */
  lemma ContradictoryUnits()
    ensures UnitPass([[1], [-1]], map[]) == map[1 := true]
    ensures !Verdict([[1], [-1]], map[])
  {
    var cs: Formula := [[1], [-1]];
    assert cs[..1] == [[1]] && cs[..1][..0] == [];
    assert UnitPass(cs[..1], map[]) == map[1 := true];
    assert !ClauseSat(map[1 := true], [-1]);
  }
}
