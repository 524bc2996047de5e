/**
 * The DPLL side of main.py's `SATSolver`: the solver object with its
 * clause list, variable count, assignment, decision levels and trail, and
 * the operations `check_satisfiability`, `pure_literal_elimination`,
 * `unit_propagation_dpll`, `_select_variable`, `_dpll_recursive`, `dpll`
 * and `dp`.  Each state-changing method is proved against a function on
 * values (`Propagate`, `AssignFresh`, `Leveled`), and the semantic facts are
 * lemmas about those functions.
 */
module PySolver {
  import opened Cnf
  import opened SetCnf
  import opened PyPure
  import PyDp
  import opened PyResolution

  // ----- the pieces of one propagation round -----

  /** `[lit for lit in clause if abs(lit) not in assignment]`. */
  function UnassignedLits(c: Clause, a: Assignment): (r: seq<Literal>)
    ensures forall l :: l in r <==> l in c && Var(l) !in a
  {
    if c == [] then [] else (if Var(c[0]) !in a then [c[0]] else []) + UnassignedLits(c[1..], a)
  }

  /** The literals of `c` that `a` does not make false (the shortened clause). */
  function NotFalseLits(c: Clause, a: Assignment): (r: seq<Literal>)
    ensures forall l :: l in r <==> l in c && !LitFalse(a, l)
  {
    if c == [] then [] else (if !LitFalse(a, c[0]) then [c[0]] else []) + NotFalseLits(c[1..], a)
  }

  /**
   * The `unit_clauses` list of one round: for each clause not satisfied by
   * `a`, in order, its unassigned literal when it has exactly one.
   */
  function UnitsOf(cs: Formula, a: Assignment): seq<Literal>
  {
    if cs == [] then []
    else
      var c := cs[|cs| - 1];
      var u := UnassignedLits(c, a);
      UnitsOf(cs[..|cs| - 1], a) + (if !ClauseSat(a, c) && |u| == 1 then u else [])
  }

  /** The outcome of assigning literals in order: whether no conflict arose, the map, the variables added. */
  datatype Assigned = Assigned(ok: bool, a: Assignment, added: seq<int>)

  /**
   * The `for unit_lit in unit_clauses` loop: a literal whose variable holds
   * the other value is a conflict and stops; an unassigned one is assigned
   * and its variable appended.
   */
  function AssignUnits(us: seq<Literal>, a: Assignment): Assigned
  {
    if us == [] then Assigned(true, a, [])
    else
      var r := AssignUnits(us[..|us| - 1], a);
      var u := us[|us| - 1];
      if !r.ok then r
      else if Var(u) in r.a && r.a[Var(u)] != (u > 0) then Assigned(false, r.a, r.added)
      else if Var(u) !in r.a then Assigned(true, r.a[Var(u) := u > 0], r.added + [Var(u)])
      else r
  }

  /**
   * The `new_clauses` loop: satisfied clauses are dropped, the others lose
   * their false literals, and a clause left empty fails the round.
   */
  function Reduce(cs: Formula, a: Assignment): PyDp.Option<Formula>
  {
    if cs == [] then PyDp.Some([])
    else
      var r := Reduce(cs[..|cs| - 1], a);
      var c := cs[|cs| - 1];
      if r.None? then r
      else if ClauseSat(a, c) then r
      else if NotFalseLits(c, a) == [] then PyDp.None
      else PyDp.Some(r.value + [NotFalseLits(c, a)])
  }

  /** The unassigned variables that occur in `cs`: what propagation can still assign. */
  function Pending(cs: Formula, a: Assignment): set<int>
  {
    set l | l in Lits(cs) && Var(l) !in a :: Var(l) as int
  }

  /** Pairwise distinct entries. */
  predicate Distinct(s: seq<int>)
  {
    forall i, j :: 0 <= i < j < |s| ==> s[i] != s[j]
  }

  lemma {:induction false} UnassignedLitsShape(c: Clause, a: Assignment, u: Literal)
    requires UnassignedLits(c, a) == [u]
    ensures u in c && Var(u) !in a
    ensures forall l :: l in c && l != u ==> Var(l) in a
  {
    assert u in UnassignedLits(c, a);
  }

  /** Every unit of a round is unassigned and occurs in the formula. */
  lemma {:induction false} UnitsOfFacts(cs: Formula, a: Assignment)
    ensures forall u :: u in UnitsOf(cs, a) ==> Var(u) !in a && u in Lits(cs)
  {
    if cs != [] {
      var init := cs[..|cs| - 1];
      var c := cs[|cs| - 1];
      UnitsOfFacts(init, a);
      assert Lits(init) <= Lits(cs) by {
        assert forall x :: x in init ==> x in cs;
      }
      forall u | u in UnassignedLits(c, a) ensures u in Lits(cs) {
        assert c in cs;
      }
    }
  }

  /**
   * A model extending `a` makes every unit of the round true: the unit is
   * the only literal of an unsatisfied clause that `a` leaves open.
   */
  lemma {:induction false} UnitsOfForced(cs: Formula, a: Assignment, b: Assignment)
    requires Extends(b, a) && Satisfies(b, cs)
    ensures forall u :: u in UnitsOf(cs, a) ==> LitTrue(b, u)
  {
    if cs != [] {
      var init := cs[..|cs| - 1];
      var c := cs[|cs| - 1];
      assert forall x :: x in init ==> x in cs;
      UnitsOfForced(init, a, b);
      var us := UnassignedLits(c, a);
      if !ClauseSat(a, c) && |us| == 1 {
        var u := us[0];
        assert us == [u];
        UnassignedLitsShape(c, a, u);
        assert c in cs;
        assert forall m :: m in c && m != u ==> !LitTrue(b, m) by {
          assert forall m :: m in c ==> !LitTrue(a, m);
        }
        var l :| l in c && LitTrue(b, l);
      }
    }
  }

  /** Assigning extends the map by exactly the distinct, fresh variables it reports. */
  lemma {:induction false} AssignUnitsFacts(us: seq<Literal>, a: Assignment)
    ensures Extends(AssignUnits(us, a).a, a)
    ensures forall v :: v in AssignUnits(us, a).a <==> v in a || v in AssignUnits(us, a).added
    ensures forall v :: v in AssignUnits(us, a).added ==> v !in a && exists u :: u in us && Var(u) == v
    ensures Distinct(AssignUnits(us, a).added)
  {
    if us != [] {
      var init := us[..|us| - 1];
      AssignUnitsFacts(init, a);
      assert forall x :: x in init ==> x in us;
      assert us[|us| - 1] in us;
    }
  }

  /** A map that extends `a` and makes every literal of `us` true meets no conflict and extends the result. */
  lemma {:induction false} AssignUnitsForced(us: seq<Literal>, a: Assignment, b: Assignment)
    requires Extends(b, a) && forall u :: u in us ==> LitTrue(b, u)
    ensures AssignUnits(us, a).ok && Extends(b, AssignUnits(us, a).a)
  {
    if us != [] {
      var init := us[..|us| - 1];
      assert forall x :: x in init ==> x in us;
      AssignUnitsForced(init, a, b);
      assert LitTrue(b, us[|us| - 1]);
    }
  }

  /** The reduced clauses are non-empty, unsatisfied, entirely unassigned, and made of the input's literals. */
  lemma {:induction false} ReduceFacts(cs: Formula, a: Assignment)
    requires Reduce(cs, a).Some?
    ensures forall c :: c in Reduce(cs, a).value ==>
              c != [] && !ClauseSat(a, c) && forall l :: l in c ==> Var(l) !in a
    ensures Lits(Reduce(cs, a).value) <= Lits(cs)
  {
    if cs != [] {
      var init := cs[..|cs| - 1];
      var c := cs[|cs| - 1];
      assert forall x :: x in init ==> x in cs;
      ReduceFacts(init, a);
      var r := Reduce(cs, a).value;
      forall l | l in Lits(r) ensures l in Lits(cs) {
        var x :| x in r && l in x;
        if x !in Reduce(init, a).value {
          assert x == NotFalseLits(c, a) && c in cs;
        } else {
          assert l in Lits(init);
          var y :| y in init && l in y;
          assert y in cs;
        }
      }
    }
  }

  /** Whatever extends `a` and satisfies the reduced clauses satisfies the input. */
  lemma {:induction false} ReduceSound(cs: Formula, a: Assignment, b: Assignment)
    requires Reduce(cs, a).Some? && Extends(b, a) && Satisfies(b, Reduce(cs, a).value)
    ensures Satisfies(b, cs)
  {
    if cs != [] {
      var init := cs[..|cs| - 1];
      var c := cs[|cs| - 1];
      var r := Reduce(init, a);
      assert forall x :: x in r.value ==> x in Reduce(cs, a).value;
      ReduceSound(init, a, b);
      forall x | x in cs ensures ClauseSat(b, x) {
        if x != c {
          assert x in init;
        } else if ClauseSat(a, c) {
          var l :| l in c && LitTrue(a, l);
          assert LitTrue(b, l);
        } else {
          assert NotFalseLits(c, a) in Reduce(cs, a).value;
          var l :| l in NotFalseLits(c, a) && LitTrue(b, l);
        }
      }
    }
  }

  /** Whatever extends `a` and satisfies the input lets the round succeed and satisfies its result. */
  lemma {:induction false} ReduceComplete(cs: Formula, a: Assignment, b: Assignment)
    requires Extends(b, a) && Satisfies(b, cs)
    ensures Reduce(cs, a).Some? && Satisfies(b, Reduce(cs, a).value)
  {
    if cs != [] {
      var init := cs[..|cs| - 1];
      var c := cs[|cs| - 1];
      assert forall x :: x in init ==> x in cs;
      ReduceComplete(init, a, b);
      assert c in cs;
      if !ClauseSat(a, c) {
        var l :| l in c && LitTrue(b, l);
        assert !LitFalse(a, l);
        assert l in NotFalseLits(c, a);
      }
    }
  }

  /** The outcome of `unit_propagation_dpll`: success, the map, the variables added in order, the reduced clauses. */
  datatype Propagated = Propagated(ok: bool, a: Assignment, added: seq<int>, cs: Formula)

  lemma {:induction false} SubsetCard(x: set<int>, y: set<int>)
    requires x <= y
    ensures |x| <= |y|
    decreases x
  {
    if x != {} {
      NonEmptyHasMember(x);
      var e :| e in x;
      SubsetCard(x - {e}, y - {e});
    }
  }

  /** Fewer literals and more assigned variables, one of them pending before, leave fewer pending variables. */
  lemma PendingShrinks(cs: Formula, a: Assignment, cs': Formula, a': Assignment, u: Literal)
    requires Lits(cs') <= Lits(cs) && a.Keys <= a'.Keys
    requires u in Lits(cs) && Var(u) !in a && Var(u) in a'
    ensures |Pending(cs', a')| < |Pending(cs, a)|
  {
    var v := Var(u) as int;
    assert v in Pending(cs, a);
    SubsetCard(Pending(cs', a'), Pending(cs, a) - {v});
    assert Pending(cs, a) == (Pending(cs, a) - {v}) + {v};
  }

  /** A round that assigned something leaves fewer unassigned variables in the clauses. */
  lemma RoundShrinksFor(cs: Formula, a: Assignment, us: seq<Literal>, r: Assigned, cs': Formula)
    requires us == UnitsOf(cs, a) && r == AssignUnits(us, a)
    requires r.ok && r.added != [] && Reduce(cs, r.a) == PyDp.Some(cs')
    ensures |Pending(cs', r.a)| < |Pending(cs, a)|
  {
    UnitsOfFacts(cs, a);
    AssignUnitsFacts(us, a);
    ReduceFacts(cs, r.a);
    assert r.added[0] in r.added;
    var u :| u in us && Var(u) == r.added[0];
    PendingShrinks(cs, a, cs', r.a, u);
  }

  lemma RoundShrinks(cs: Formula, a: Assignment)
    requires AssignUnits(UnitsOf(cs, a), a).ok
    requires AssignUnits(UnitsOf(cs, a), a).added != []
    requires Reduce(cs, AssignUnits(UnitsOf(cs, a), a).a).Some?
    ensures |Pending(Reduce(cs, AssignUnits(UnitsOf(cs, a), a).a).value, AssignUnits(UnitsOf(cs, a), a).a)| < |Pending(cs, a)|
  {
    var us := UnitsOf(cs, a);
    var r := AssignUnits(us, a);
    RoundShrinksFor(cs, a, us, r, Reduce(cs, r.a).value);
  }

  /**
   * `unit_propagation_dpll`: rounds of collecting units, assigning them and
   * reducing the clauses, until a round assigns nothing (success) or meets
   * a conflict or an emptied clause (failure, the map keeping whatever was
   * assigned so far).
   */
  function Propagate(cs: Formula, a: Assignment): Propagated
    decreases |Pending(cs, a)|
  {
    var r := AssignUnits(UnitsOf(cs, a), a);
    if !r.ok then Propagated(false, r.a, r.added, cs)
    else
      var red := Reduce(cs, r.a);
      if red.None? then Propagated(false, r.a, r.added, cs)
      else if r.added == [] then Propagated(true, r.a, [], red.value)
      else
        RoundShrinks(cs, a);
        var p := Propagate(red.value, r.a);
        Propagated(p.ok, p.a, r.added + p.added, p.cs)
  }

  /**
   * Propagation only extends the map, by the distinct fresh variables it
   * reports; on success every remaining clause is non-empty and made only
   * of unassigned literals of the input.
   */
  lemma {:induction false} PropagateFacts(cs: Formula, a: Assignment)
    ensures Extends(Propagate(cs, a).a, a)
    ensures forall v :: v in Propagate(cs, a).a <==> v in a || v in Propagate(cs, a).added
    ensures forall v :: v in Propagate(cs, a).added ==> v !in a
    ensures Distinct(Propagate(cs, a).added)
    ensures Propagate(cs, a).ok ==>
              Lits(Propagate(cs, a).cs) <= Lits(cs) &&
              forall c :: c in Propagate(cs, a).cs ==> c != [] && forall l :: l in c ==> Var(l) !in Propagate(cs, a).a
    decreases |Pending(cs, a)|
  {
    var us := UnitsOf(cs, a);
    var r := AssignUnits(us, a);
    AssignUnitsFacts(us, a);
    if r.ok && Reduce(cs, r.a).Some? {
      var cs' := Reduce(cs, r.a).value;
      ReduceFacts(cs, r.a);
      if r.added != [] {
        RoundShrinks(cs, a);
        PropagateFacts(cs', r.a);
        var p := Propagate(cs', r.a);
        assert Propagate(cs, a).added == r.added + p.added;
        DistinctAppend(r.added, p.added);
      }
    }
  }

  /** Two duplicate-free lists with no common entry concatenate to a duplicate-free list. */
  lemma DistinctAppend(x: seq<int>, y: seq<int>)
    requires Distinct(x) && Distinct(y) && forall v :: v in x ==> v !in y
    ensures Distinct(x + y)
  {
    forall i, j | 0 <= i < j < |x + y| ensures (x + y)[i] != (x + y)[j] {
      if i < |x| <= j {
        assert (x + y)[i] in x && (x + y)[j] == y[j - |x|];
      }
    }
  }

  /** On success, no remaining clause is satisfied by the map (they have no assigned literal at all). */
  lemma PropagateUnsatisfied(cs: Formula, a: Assignment)
    requires Propagate(cs, a).ok
    ensures forall c :: c in Propagate(cs, a).cs ==> !ClauseSat(Propagate(cs, a).a, c)
  {
    PropagateFacts(cs, a);
  }

  /** Sound: a model of the reduced clauses that extends the new map is a model of the input. */
  lemma {:induction false} PropagateSound(cs: Formula, a: Assignment, b: Assignment)
    requires Propagate(cs, a).ok && Extends(b, Propagate(cs, a).a) && Satisfies(b, Propagate(cs, a).cs)
    ensures Satisfies(b, cs)
    decreases |Pending(cs, a)|
  {
    var us := UnitsOf(cs, a);
    var r := AssignUnits(us, a);
    var cs' := Reduce(cs, r.a).value;
    if r.added != [] {
      RoundShrinks(cs, a);
      PropagateSound(cs', r.a, b);
      PropagateFacts(cs', r.a);
    }
    ReduceSound(cs, r.a, b);
  }

  /**
   * Complete: every model of the input that extends the old map survives
   * propagation: no conflict, it extends the new map, and it satisfies the
   * reduced clauses.
   */
  lemma {:induction false} PropagateCompleteFor(cs: Formula, a: Assignment, b: Assignment)
    requires Extends(b, a) && Satisfies(b, cs)
    ensures Propagate(cs, a).ok && Extends(b, Propagate(cs, a).a) && Satisfies(b, Propagate(cs, a).cs)
    decreases |Pending(cs, a)|
  {
    var us := UnitsOf(cs, a);
    UnitsOfForced(cs, a, b);
    AssignUnitsForced(us, a, b);
    var r := AssignUnits(us, a);
    ReduceComplete(cs, r.a, b);
    if r.added != [] {
      RoundShrinks(cs, a);
      PropagateCompleteFor(Reduce(cs, r.a).value, r.a, b);
    }
  }

  /** A failed propagation refutes every extension of the old map. */
  lemma PropagateComplete(cs: Formula, a: Assignment)
    ensures forall b :: Extends(b, a) && Satisfies(b, cs) ==>
              Propagate(cs, a).ok && Extends(b, Propagate(cs, a).a) && Satisfies(b, Propagate(cs, a).cs)
  {
    forall b | Extends(b, a) && Satisfies(b, cs)
      ensures Propagate(cs, a).ok && Extends(b, Propagate(cs, a).a) && Satisfies(b, Propagate(cs, a).cs)
    {
      PropagateCompleteFor(cs, a, b);
    }
  }

  // ----- the other value-level pieces of the solver -----

  /**
   * The pure-literal assignment loop: each literal whose variable is still
   * unassigned is made true and its variable appended; the others are
   * skipped, so an existing value is never overwritten.
   */
  function AssignFresh(ls: seq<Literal>, a: Assignment): Assigned
  {
    if ls == [] then Assigned(true, a, [])
    else
      var r := AssignFresh(ls[..|ls| - 1], a);
      var l := ls[|ls| - 1];
      if Var(l) in r.a then r else Assigned(true, r.a[Var(l) := l > 0], r.added + [Var(l)])
  }

  /** One more literal of the `for lit in pure_literals` loop. */
  lemma AssignFreshNext(ls: seq<Literal>, a: Assignment, i: nat)
    requires i < |ls|
    ensures var r := AssignFresh(ls[..i], a);
            AssignFresh(ls[..i + 1], a) ==
              if Var(ls[i]) in r.a then r else Assigned(true, r.a[Var(ls[i]) := ls[i] > 0], r.added + [Var(ls[i])])
  {
    assert ls[..i + 1][..i] == ls[..i];
  }

  lemma {:induction false} AssignFreshFacts(ls: seq<Literal>, a: Assignment)
    ensures Extends(AssignFresh(ls, a).a, a)
    ensures forall v :: v in AssignFresh(ls, a).a <==> v in a || v in AssignFresh(ls, a).added
    ensures forall v :: v in AssignFresh(ls, a).added ==> v !in a
    ensures Distinct(AssignFresh(ls, a).added)
    ensures forall v :: v in AssignFresh(ls, a).a && v !in a ==>
              exists l :: l in ls && Var(l) == v && AssignFresh(ls, a).a[v] == (l > 0)
    ensures forall l :: l in ls ==> Var(l) in AssignFresh(ls, a).a
  {
    if ls != [] {
      var init := ls[..|ls| - 1];
      var l := ls[|ls| - 1];
      var r := AssignFresh(init, a);
      AssignFreshFacts(init, a);
      assert forall x :: x in init ==> x in ls;
      assert ls == init + [l];
      if Var(l) !in r.a {
        DistinctAppend(r.added, [Var(l)]);
      }
      forall v | v in AssignFresh(ls, a).a && v !in a
        ensures exists m :: m in ls && Var(m) == v && AssignFresh(ls, a).a[v] == (m > 0)
      {
        if Var(l) !in r.a && v == Var(l) {
          assert l in ls;
        } else {
          var m :| m in init && Var(m) == v && r.a[v] == (m > 0);
          assert m in ls;
        }
      }
    }
  }

  /** With one literal per variable, every literal whose variable was unassigned ends up true. */
  lemma {:induction false} AssignFreshTrue(ls: seq<Literal>, a: Assignment)
    requires forall i, j :: 0 <= i < j < |ls| ==> Var(ls[i]) != Var(ls[j])
    ensures forall l :: l in ls && Var(l) !in a ==> LitTrue(AssignFresh(ls, a).a, l)
  {
    if ls != [] {
      var init := ls[..|ls| - 1];
      var last := ls[|ls| - 1];
      var r := AssignFresh(init, a);
      AssignFreshTrue(init, a);
      AssignFreshFacts(init, a);
      assert forall k :: 0 <= k < |init| ==> Var(init[k]) != Var(last);
      assert Var(last) !in a ==> Var(last) !in r.a;
      forall l | l in ls && Var(l) !in a ensures LitTrue(AssignFresh(ls, a).a, l) {
        if l != last {
          var k :| 0 <= k < |ls| && ls[k] == l;
          assert init[k] == l;
        }
      }
    }
  }

  /** `level` after `level[var] = d` for each variable of `added`, in order. */
  function Leveled(level: map<int, int>, added: seq<int>, d: int): map<int, int>
  {
    if added == [] then level else Leveled(level, added[..|added| - 1], d)[added[|added| - 1] := d]
  }

  /** One more `level[var] = d`. */
  lemma LeveledSnoc(level: map<int, int>, x: seq<int>, v: int, d: int)
    ensures Leveled(level, x + [v], d) == Leveled(level, x, d)[v := d]
  {
    assert (x + [v])[..|x + [v]| - 1] == x;
  }

  lemma {:induction false} LeveledAppend(level: map<int, int>, x: seq<int>, y: seq<int>, d: int)
    ensures Leveled(Leveled(level, x, d), y, d) == Leveled(level, x + y, d)
  {
    if y != [] {
      LeveledAppend(level, x, y[..|y| - 1], d);
      assert (x + y)[..|x + y| - 1] == x + y[..|y| - 1];
      assert (x + y)[|x + y| - 1] == y[|y| - 1];
    } else {
      assert x + y == x;
    }
  }

  lemma {:induction false} LeveledKeys(level: map<int, int>, added: seq<int>, d: int)
    ensures forall v :: v in Leveled(level, added, d) <==> v in level || v in added
  {
    if added != [] {
      LeveledKeys(level, added[..|added| - 1], d);
      assert added == added[..|added| - 1] + [added[|added| - 1]];
    }
  }

  /**
   * The bookkeeping the solver keeps in step: the trail lists each
   * assigned variable exactly once, and `level` has an entry for exactly
   * the assigned variables.
   */
  predicate Synced(trail: seq<int>, a: Assignment, level: map<int, int>)
  {
    Distinct(trail) && (forall v :: v in trail ==> v in a) && (forall v :: v in a ==> v in trail) && level.Keys == a.Keys
  }

  /** In step, the trail is as long as the assignment. */
  lemma SyncedLength(trail: seq<int>, a: Assignment, level: map<int, int>)
    requires Synced(trail, a, level)
    ensures |trail| == |a|
  {
    DistinctSetOf(trail);
    assert SetOf(trail) == a.Keys;
  }

  /** Appending fresh, distinct variables that the map gains keeps the bookkeeping in step. */
  lemma SyncedAppend(trail: seq<int>, a: Assignment, level: map<int, int>, added: seq<int>, a': Assignment, d: int)
    requires Synced(trail, a, level) && Distinct(added)
    requires forall v :: v in added ==> v !in a
    requires forall v :: v in a' <==> v in a || v in added
    ensures Synced(trail + added, a', Leveled(level, added, d))
  {
    LeveledKeys(level, added, d);
    assert forall v :: v in trail + added <==> v in trail || v in added;
    forall v ensures v in Leveled(level, added, d).Keys <==> v in a'.Keys {
      assert v in level.Keys <==> v in a.Keys;
    }
    forall i, j | 0 <= i < j < |trail + added| ensures (trail + added)[i] != (trail + added)[j] {
      if i < |trail| <= j {
        assert (trail + added)[i] == trail[i];
        assert trail[i] in trail;
        assert (trail + added)[j] == added[j - |trail|];
      }
    }
  }

  /** `2.0 ** -n` as an exact rational. */
  function Weight(n: nat): (w: real)
    ensures 0.0 < w <= 1.0
  {
    if n == 0 then 1.0 else Weight(n - 1) / 2.0
  }

  /** The weight `w` counted once per literal of `c` on variable `v`. */
  function LitsScore(c: seq<Literal>, v: int, w: real): real
  {
    if c == [] then 0.0 else LitsScore(c[..|c| - 1], v, w) + (if Var(c[|c| - 1]) == v then w else 0.0)
  }

  /** The score `_select_variable` gives `v`: each occurrence weighs 2^-len(clause). */
  function Score(cs: Formula, v: int): real
  {
    if cs == [] then 0.0 else Score(cs[..|cs| - 1], v) + LitsScore(cs[|cs| - 1], v, Weight(|cs[|cs| - 1]|))
  }

  /** A score is positive exactly when the variable occurs. */
  lemma {:induction false} ScorePositive(cs: Formula, v: int)
    ensures Score(cs, v) >= 0.0
    ensures Score(cs, v) > 0.0 <==> exists c, l :: c in cs && l in c && Var(l) == v
  {
    if cs != [] {
      var init := cs[..|cs| - 1];
      var c := cs[|cs| - 1];
      ScorePositive(init, v);
      LitsScorePositive(c, v, Weight(|c|));
      assert forall x :: x in init ==> x in cs;
      if exists x, l :: x in cs && l in x && Var(l) == v {
        var x, l :| x in cs && l in x && Var(l) == v;
        if x != c {
          assert x in init;
        }
      }
    }
  }

  lemma {:induction false} LitsScorePositive(c: seq<Literal>, v: int, w: real)
    requires w > 0.0
    ensures LitsScore(c, v, w) >= 0.0
    ensures LitsScore(c, v, w) > 0.0 <==> exists l :: l in c && Var(l) == v
  {
    if c != [] {
      var init := c[..|c| - 1];
      LitsScorePositive(init, v, w);
      assert forall x :: x in init ==> x in c;
      assert c == init + [c[|c| - 1]];
    }
  }

  /** A score recorded in a dictionary that defaults to zero. */
  function Get(m: map<int, real>, v: int): real
  {
    if v in m then m[v] else 0.0
  }

  /** `[var for var in range(1, n + 1) if var not in assignment]`. */
  function UnassignedVars(n: int, a: Assignment): (r: seq<int>)
    ensures forall v :: v in r <==> 1 <= v <= n && v !in a
    decreases n
  {
    if n <= 0 then [] else UnassignedVars(n - 1, a) + (if n in a then [] else [n])
  }

  /** Assigning more variables, one of them in 1..n and unassigned before, shortens the list of unassigned variables. */
  lemma {:induction false} UnassignedShrinks(n: int, a: Assignment, a': Assignment, v: int)
    requires a.Keys <= a'.Keys
    ensures |UnassignedVars(n, a')| <= |UnassignedVars(n, a)|
    ensures 1 <= v <= n && v !in a && v in a' ==> |UnassignedVars(n, a')| < |UnassignedVars(n, a)|
    decreases n
  {
    if n > 0 {
      UnassignedShrinks(n - 1, a, a', v);
      if n in a {
        assert n in a';
      }
    }
  }

  /** Every model that extends `a` and satisfies `cs` satisfies `f0`: the search state answers for `f0`. */
  ghost predicate Sound(f0: Formula, a: Assignment, cs: Formula)
  {
    forall b :: Extends(b, a) && Satisfies(b, cs) ==> Satisfies(b, f0)
  }

  /** No extension of `a` satisfies `cs`. */
  ghost predicate NoModelFrom(a: Assignment, cs: Formula)
  {
    forall b :: Extends(b, a) ==> !Satisfies(b, cs)
  }

  /** `Extends` is transitive. */
  /** Being a prefix is transitive. */
  lemma PrefixTrans(x: seq<int>, y: seq<int>, z: seq<int>)
    requires x <= y && y <= z
    ensures x <= z
  {
    assert z[..|y|][..|x|] == z[..|x|];
  }

  lemma ExtendsTrans(c: Assignment, b: Assignment, a: Assignment)
    requires Extends(c, b) && Extends(b, a)
    ensures Extends(c, a)
  {
  }

  /** Successful propagation keeps the search state answering for `f0`. */
  lemma PropagateKeepsSound(f0: Formula, a: Assignment, cs: Formula)
    requires Sound(f0, a, cs) && Propagate(cs, a).ok
    ensures Sound(f0, Propagate(cs, a).a, Propagate(cs, a).cs)
  {
    var p := Propagate(cs, a);
    PropagateFacts(cs, a);
    forall b | Extends(b, p.a) && Satisfies(b, p.cs) ensures Satisfies(b, f0) {
      PropagateSound(cs, a, b);
      ExtendsTrans(b, p.a, a);
    }
  }

  /** A decision adds a unit clause on a fresh variable; the state still answers for `f0`. */
  lemma DecideKeepsSound(f0: Formula, a: Assignment, cs: Formula, v: int, value: bool)
    requires Sound(f0, a, cs) && v > 0 && v !in a
    ensures Sound(f0, a[v := value], cs + [[if value then v else -v]])
  {
    forall b | Extends(b, a[v := value]) && Satisfies(b, cs + [[if value then v else -v]]) ensures Satisfies(b, f0) {
      assert forall c :: c in cs ==> c in cs + [[if value then v else -v]];
    }
  }

  /**
   * Trying both values of a fresh variable covers every model: if neither
   * branch has one, the state before the decision has none.
   */
  lemma SplitRefutes(a: Assignment, cs: Formula, v: int)
    requires v > 0 && v !in a
    requires NoModelFrom(a[v := true], cs + [[v]]) && NoModelFrom(a[v := false], cs + [[-v]])
    ensures NoModelFrom(a, cs)
  {
    forall b | Extends(b, a) ensures !Satisfies(b, cs) {
      var value := if v in b then b[v] else true;
      var b' := b[v := value];
      var lit: Literal := if value then v else -v;
      assert Extends(b', b);
      assert Extends(b', a[v := value]);
      assert !Satisfies(b', cs + [[lit]]);
      assert ClauseSat(b', [lit]) by {
        assert LitTrue(b', lit);
      }
      assert !Satisfies(b', cs);
    }
  }

  /** Once a conflict is met, the later units change nothing: the loop has returned. */
  lemma {:induction false} AssignUnitsStuck(us: seq<Literal>, a: Assignment, k: nat)
    requires k <= |us| && !AssignUnits(us[..k], a).ok
    ensures AssignUnits(us, a) == AssignUnits(us[..k], a)
  {
    if k < |us| {
      var init := us[..|us| - 1];
      assert init[..k] == us[..k];
      AssignUnitsStuck(init, a, k);
    } else {
      assert us[..k] == us;
    }
  }

  /** Once a clause is emptied, the later clauses change nothing: the loop has returned. */
  lemma {:induction false} ReduceStuck(cs: Formula, a: Assignment, k: nat)
    requires k <= |cs| && Reduce(cs[..k], a).None?
    ensures Reduce(cs, a).None?
  {
    if k < |cs| {
      var init := cs[..|cs| - 1];
      assert init[..k] == cs[..k];
      ReduceStuck(init, a, k);
    } else {
      assert cs[..k] == cs;
    }
  }

  /** One more clause of the `new_clauses` loop. */
  lemma ReduceNext(cs: Formula, a: Assignment, i: nat)
    requires i < |cs|
    ensures var r := Reduce(cs[..i], a);
            Reduce(cs[..i + 1], a) ==
              if r.None? || ClauseSat(a, cs[i]) then r
              else if NotFalseLits(cs[i], a) == [] then PyDp.None
              else PyDp.Some(r.value + [NotFalseLits(cs[i], a)])
  {
    assert cs[..i + 1][..i] == cs[..i];
  }

  /** One more unit of the assignment loop. */
  lemma AssignUnitsNext(us: seq<Literal>, a: Assignment, i: nat)
    requires i < |us|
    ensures var r := AssignUnits(us[..i], a);
            var u := us[i];
            AssignUnits(us[..i + 1], a) ==
              if !r.ok then r
              else if Var(u) in r.a && r.a[Var(u)] != (u > 0) then Assigned(false, r.a, r.added)
              else if Var(u) !in r.a then Assigned(true, r.a[Var(u) := u > 0], r.added + [Var(u)])
              else r
  {
    assert us[..i + 1][..i] == us[..i];
  }

  /** One more clause of the `unit_clauses` loop. */
  lemma UnitsNext(cs: Formula, a: Assignment, i: nat)
    requires i < |cs|
    ensures UnitsOf(cs[..i + 1], a) ==
              UnitsOf(cs[..i], a) +
              (if !ClauseSat(a, cs[i]) && |UnassignedLits(cs[i], a)| == 1 then UnassignedLits(cs[i], a) else [])
  {
    assert cs[..i + 1][..i] == cs[..i];
  }

  /** Pure-literal elimination only assigns variables in 1..n and never changes an existing value. */
  lemma PureAssignedRange(f: Formula, n: int, a: Assignment)
    ensures Extends(AssignFresh(PureLits(f, n), a).a, a)
    ensures forall v :: v in AssignFresh(PureLits(f, n), a).a && v !in a ==> 1 <= v <= n
  {
    PureLitsSound(f, n);
    AssignFreshFacts(PureLits(f, n), a);
  }

  /** `p0` is what the loop will end with, given that `p` is what the rest of it computes after `added`. */
  predicate Continues(p0: Propagated, p: Propagated, added: seq<int>)
  {
    p0.ok == p.ok && p0.a == p.a && p0.added == added + p.added && (p.ok ==> p0.cs == p.cs)
  }

  /** Propagation keeps the trail, the levels and the assignment in step. */
  lemma PropagateSynced(trail: seq<int>, a: Assignment, level: map<int, int>, cs: Formula, d: int)
    requires Synced(trail, a, level)
    ensures Synced(trail + Propagate(cs, a).added, Propagate(cs, a).a, Leveled(level, Propagate(cs, a).added, d))
  {
    PropagateFacts(cs, a);
    SyncedAppend(trail, a, level, Propagate(cs, a).added, Propagate(cs, a).a, d);
  }

  /** One round of the loop, read off the definition of `Propagate`. */
  lemma ContinuesStep(p0: Propagated, cs: Formula, a: Assignment, added: seq<int>)
    requires Continues(p0, Propagate(cs, a), added)
    ensures var r := AssignUnits(UnitsOf(cs, a), a);
            var red := Reduce(cs, r.a);
            (!r.ok || red.None? ==> !p0.ok && p0.a == r.a && p0.added == added + r.added) &&
            (r.ok && red.Some? && r.added == [] ==> p0 == Propagated(true, r.a, added + r.added, red.value)) &&
            (r.ok && red.Some? && r.added != [] ==>
               Continues(p0, Propagate(red.value, r.a), added + r.added) &&
               |Pending(red.value, r.a)| < |Pending(cs, a)|)
  {
    var r := AssignUnits(UnitsOf(cs, a), a);
    var red := Reduce(cs, r.a);
    if r.ok && red.Some? {
      if r.added == [] {
        assert added + r.added == added;
      } else {
        RoundShrinks(cs, a);
        var p := Propagate(red.value, r.a);
        assert added + (r.added + p.added) == (added + r.added) + p.added;
      }
    }
  }

  lemma AppendAssoc(x: seq<int>, y: seq<int>, z: seq<int>)
    ensures x + y + z == x + (y + z)
  {
  }

  /** Propagation extends the map, and its clauses stay within the variables of the input. */
  lemma PropagateWithin(cs: Formula, a: Assignment, n: int)
    ensures Extends(Propagate(cs, a).a, a)
    ensures Propagate(cs, a).ok && WithinVars(cs, n) ==> WithinVars(Propagate(cs, a).cs, n)
  {
    PropagateFacts(cs, a);
    if Propagate(cs, a).ok && WithinVars(cs, n) {
      forall c, l | c in Propagate(cs, a).cs && l in c ensures 1 <= Var(l) <= n {
        assert l in Lits(Propagate(cs, a).cs);
        var c' :| c' in cs && l in c';
      }
    }
  }

  /**
   * When propagation succeeds with clauses left but every variable of 1..n
   * assigned, the clauses mention a variable outside 1..n, and the
   * assignment satisfies none of them.
   */
  lemma AllAssigned(cs: Formula, a: Assignment, n: int)
    requires Propagate(cs, a).ok && Propagate(cs, a).cs != []
    requires UnassignedVars(n, Propagate(cs, a).a) == []
    ensures !Satisfies(Propagate(cs, a).a, Propagate(cs, a).cs)
    ensures !WithinVars(cs, n)
  {
    var p := Propagate(cs, a);
    PropagateFacts(cs, a);
    var c := p.cs[0];
    assert c in p.cs;
    var l := c[0];
    assert l in c && Var(l) !in p.a;
    assert !ClauseSat(p.a, c);
    assert l in Lits(p.cs);
    var c' :| c' in cs && l in c';
    assert !(1 <= Var(l) <= n);
  }

  /** A unit clause on a variable of 1..n keeps the clauses within 1..n. */
  lemma WithinVarsDecide(cs: Formula, n: int, v: int)
    requires WithinVars(cs, n) && 1 <= v <= n
    ensures WithinVars(cs + [[v]], n) && WithinVars(cs + [[-v]], n)
  {
  }

  /**
   * Pure-literal elimination from an empty assignment sets up a search
   * that answers for `f`: models of what remains that extend the pure
   * assignment are models of `f`, and every model of `f` can be turned
   * into one of those.
   */
  lemma PureStart(f: Formula, n: int)
    ensures var ps := PureLits(f, n);
            Sound(f, AssignFresh(ps, map[]).a, DropPure(f, ps)) &&
            (WithinVars(f, n) ==> WithinVars(DropPure(f, ps), n)) &&
            (NoModelFrom(AssignFresh(ps, map[]).a, DropPure(f, ps)) ==> !Satisfiable(f))
  {
    var ps := PureLits(f, n);
    var a := AssignFresh(ps, map[]).a;
    var g := DropPure(f, ps);
    PureLitsSound(f, n);
    AssignFreshFacts(ps, map[]);
    AssignFreshTrue(ps, map[]);
    forall b | Extends(b, a) && Satisfies(b, g) ensures Satisfies(b, f) {
      forall c | c in f ensures ClauseSat(b, c) {
        if exists l :: l in ps && l in c {
          var l :| l in ps && l in c;
          assert LitTrue(b, l);
        } else {
          assert c in g;
        }
      }
    }
    forall b | Satisfies(b, f) ensures Extends(ApplyLits(b, ps), a) && Satisfies(ApplyLits(b, ps), g) {
      PureAdjust(b, f, ps);
      var b' := ApplyLits(b, ps);
      forall v | v in a ensures v in b' && b'[v] == a[v] {
        var l :| l in ps && Var(l) == v && a[v] == (l > 0);
        assert LitTrue(b', l);
      }
    }
  }

  /**
   * The solver object.  `clauses` and `numVars` are what the DIMACS loader
   * fills in; `assignment`, `level`, `trail` and `trailLim` are the search
   * state; `budget` stands for the wall clock: the calls of
   * `_dpll_recursive` that still start before the 60-second limit.
   */
  class SATSolver {
    var clauses: Formula
    var numVars: int
    var assignment: Assignment
    var level: map<int, int>
    var trail: seq<int>
    var trailLim: seq<int>
    var budget: nat

    /** The trail, the levels and the assignment are in step. */
    predicate Valid()
      reads this
    {
      Synced(trail, assignment, level)
    }

    /** A solver holding a loaded formula and an empty search state. */
    constructor(cs: Formula, n: int)
      ensures clauses == cs && numVars == n
      ensures assignment == map[] && level == map[] && trail == [] && trailLim == []
      ensures Valid()
    {
      clauses := cs;
      numVars := n;
      assignment := map[];
      level := map[];
      trail := [];
      trailLim := [];
      budget := 0;
    }

    /** `check_satisfiability`: every clause has a literal the assignment makes true. */
    method CheckSatisfiability() returns (sat: bool)
      ensures sat <==> Satisfies(assignment, clauses)
    {
      var i := 0;
      while i < |clauses|
        invariant 0 <= i <= |clauses|
        invariant forall k :: 0 <= k < i ==> ClauseSat(assignment, clauses[k])
      {
        var clause := clauses[i];
        var satisfied := false;
        var j := 0;
        while j < |clause|
          invariant 0 <= j <= |clause|
          invariant !satisfied
          invariant forall k :: 0 <= k < j ==> !LitTrue(assignment, clause[k])
        {
          var lit := clause[j];
          var v := Var(lit);
          if v in assignment && assignment[v] == (lit > 0) {
            satisfied := true;
            break;
          }
          j := j + 1;
        }
        if !satisfied {
          assert !ClauseSat(assignment, clauses[i]);
          return false;
        }
        assert clause[j] in clause;
        i := i + 1;
      }
      return true;
    }

    /**
     * `pure_literal_elimination`: the pure literals among the variables
     * 1..numVars are made true where their variable is still unassigned,
     * and every clause containing one of them is dropped.
     */
    method PureLiteralElimination()
      requires Valid()
      modifies this
      ensures Valid()
      ensures var ps := PureLits(old(clauses), old(numVars));
              var r := AssignFresh(ps, old(assignment));
              assignment == r.a && trail == old(trail) + r.added &&
              level == Leveled(old(level), r.added, |old(trailLim)|) &&
              clauses == DropPure(old(clauses), ps)
      ensures numVars == old(numVars) && trailLim == old(trailLim) && budget == old(budget)
      ensures Extends(assignment, old(assignment))
      ensures forall v :: v in assignment && v !in old(assignment) ==> 1 <= v <= numVars
      ensures forall c, l :: c in clauses && l in PureLits(old(clauses), numVars) ==> l !in c
    {
      var literalCount := PyDp.LiteralTable(clauses);
      var pureLiterals := PyDp.PureLiterals(clauses, literalCount, numVars);
      ghost var a0 := assignment;
      AssignFreshLits(pureLiterals);
      AssignFreshFacts(pureLiterals, a0);
      SyncedAppend(old(trail), a0, old(level), AssignFresh(pureLiterals, a0).added, assignment, |trailLim|);
      PureAssignedRange(clauses, numVars, a0);
      clauses := DropPure(clauses, pureLiterals);
    }

    /** The `for lit in pure_literals` loop: assign each literal whose variable is still unassigned. */
    method AssignFreshLits(ls: seq<Literal>)
      modifies `assignment, `level, `trail
      ensures assignment == AssignFresh(ls, old(assignment)).a
      ensures trail == old(trail) + AssignFresh(ls, old(assignment)).added
      ensures level == Leveled(old(level), AssignFresh(ls, old(assignment)).added, |trailLim|)
    {
      var i := 0;
      while i < |ls|
        invariant 0 <= i <= |ls|
        invariant assignment == AssignFresh(ls[..i], old(assignment)).a
        invariant trail == old(trail) + AssignFresh(ls[..i], old(assignment)).added
        invariant level == Leveled(old(level), AssignFresh(ls[..i], old(assignment)).added, |trailLim|)
      {
        var lit := ls[i];
        var v := Var(lit);
        AssignFreshNext(ls, old(assignment), i);
        if v !in assignment {
          LeveledSnoc(old(level), AssignFresh(ls[..i], old(assignment)).added, v, |trailLim|);
          assignment := assignment[v := lit > 0];
          level := level[v := if trailLim == [] then 0 else |trailLim|];
          trail := trail + [v];
        }
        i := i + 1;
      }
      assert ls[..i] == ls;
    }

    /** The first loop of a propagation round: the `unit_clauses` list. */
    method CollectUnits(cs: Formula) returns (units: seq<Literal>)
      ensures units == UnitsOf(cs, assignment)
    {
      units := [];
      var i := 0;
      while i < |cs|
        invariant 0 <= i <= |cs|
        invariant units == UnitsOf(cs[..i], assignment)
      {
        var clause := cs[i];
        UnitsNext(cs, assignment, i);
        if !ClauseSat(assignment, clause) {
          var unassignedLits := UnassignedLits(clause, assignment);
          if |unassignedLits| == 1 {
            units := units + [unassignedLits[0]];
          }
        }
        i := i + 1;
      }
      assert cs[..i] == cs;
    }

    /**
     * The second loop of a round: assign the units in order; `ok` is false
     * at the first unit whose variable holds the other value, and `updated`
     * tells whether anything was assigned.
     */
    method AssignUnitLits(units: seq<Literal>) returns (ok: bool, updated: bool)
      modifies `assignment, `level, `trail
      ensures var r := AssignUnits(units, old(assignment));
              ok == r.ok && assignment == r.a && trail == old(trail) + r.added &&
              level == Leveled(old(level), r.added, |trailLim|)
      ensures ok ==> (updated <==> AssignUnits(units, old(assignment)).added != [])
    {
      updated := false;
      var i := 0;
      while i < |units|
        invariant 0 <= i <= |units|
        invariant AssignUnits(units[..i], old(assignment)).ok
        invariant assignment == AssignUnits(units[..i], old(assignment)).a
        invariant trail == old(trail) + AssignUnits(units[..i], old(assignment)).added
        invariant level == Leveled(old(level), AssignUnits(units[..i], old(assignment)).added, |trailLim|)
        invariant updated <==> AssignUnits(units[..i], old(assignment)).added != []
      {
        var unitLit := units[i];
        var v := Var(unitLit);
        var value := unitLit > 0;
        AssignUnitsNext(units, old(assignment), i);
        if v in assignment && assignment[v] != value {
          AssignUnitsStuck(units, old(assignment), i + 1);
          return false, updated;
        }
        if v !in assignment {
          LeveledSnoc(old(level), AssignUnits(units[..i], old(assignment)).added, v, |trailLim|);
          assignment := assignment[v := value];
          level := level[v := if trailLim == [] then 0 else |trailLim|];
          trail := trail + [v];
          updated := true;
        }
        i := i + 1;
      }
      assert units[..i] == units;
      return true, updated;
    }

    /** The third loop of a round: drop satisfied clauses, shorten the others, fail on an emptied one. */
    method ReduceClauses(cs: Formula) returns (r: PyDp.Option<Formula>)
      ensures r == Reduce(cs, assignment)
    {
      var newClauses := [];
      var i := 0;
      while i < |cs|
        invariant 0 <= i <= |cs|
        invariant Reduce(cs[..i], assignment) == PyDp.Some(newClauses)
      {
        var clause := cs[i];
        ReduceNext(cs, assignment, i);
        if !ClauseSat(assignment, clause) {
          var newClause := NotFalseLits(clause, assignment);
          if newClause == [] {
            ReduceStuck(cs, assignment, i + 1);
            return PyDp.None;
          }
          newClauses := newClauses + [newClause];
        }
        i := i + 1;
      }
      assert cs[..i] == cs;
      return PyDp.Some(newClauses);
    }

    /** One pass of the `while updated` loop over the working copy `cs`. */
    method PropagationRound(cs: Formula) returns (ok: bool, updated: bool, next: Formula)
      modifies `assignment, `level, `trail
      ensures var r := AssignUnits(UnitsOf(cs, old(assignment)), old(assignment));
              assignment == r.a && trail == old(trail) + r.added &&
              level == Leveled(old(level), r.added, |trailLim|) &&
              ok == (r.ok && Reduce(cs, r.a).Some?) &&
              (ok ==> next == Reduce(cs, r.a).value && (updated <==> r.added != []))
    {
      var unitClauses := CollectUnits(cs);
      var noConflict;
      noConflict, updated := AssignUnitLits(unitClauses);
      if !noConflict {
        return false, updated, cs;
      }
      var newClauses := ReduceClauses(cs);
      if newClauses.None? {
        return false, updated, cs;
      }
      return true, updated, newClauses.value;
    }

    /**
     * The `while updated` loop of `unit_propagation_dpll` on the working
     * copy `cs0`; `cs` is the reduced copy when no round failed.
     */
    method PropagationLoop(cs0: Formula) returns (ok: bool, cs: Formula)
      modifies `assignment, `level, `trail
      ensures var p := Propagate(cs0, old(assignment));
              ok == p.ok && assignment == p.a && trail == old(trail) + p.added &&
              level == Leveled(old(level), p.added, |trailLim|) && (ok ==> cs == p.cs)
    {
      ghost var p0 := Propagate(cs0, assignment);
      ghost var added: seq<int> := [];
      cs := cs0;
      var updated := true;
      while updated
        invariant trail == old(trail) + added && level == Leveled(old(level), added, |trailLim|)
        invariant updated ==> Continues(p0, Propagate(cs, assignment), added)
        invariant !updated ==> p0 == Propagated(true, assignment, added, cs)
        decreases updated, |Pending(cs, assignment)|
      {
        ghost var a := assignment;
        ghost var r := AssignUnits(UnitsOf(cs, a), a);
        ContinuesStep(p0, cs, a, added);
        var roundOk;
        roundOk, updated, cs := PropagationRound(cs);
        LeveledAppend(old(level), added, r.added, |trailLim|);
        AppendAssoc(old(trail), added, r.added);
        added := added + r.added;
        if !roundOk {
          return false, cs;
        }
      }
      return true, cs;
    }

    /**
     * `unit_propagation_dpll`: the assignment, level and trail keep what was
     * assigned even when a round fails; the clause list is replaced only on
     * success.
     */
    method UnitPropagationDpll() returns (ok: bool)
      requires Valid()
      modifies this
      ensures Valid()
      ensures var p := Propagate(old(clauses), old(assignment));
              ok == p.ok && assignment == p.a && trail == old(trail) + p.added &&
              level == Leveled(old(level), p.added, |trailLim|) &&
              clauses == (if ok then p.cs else old(clauses))
      ensures numVars == old(numVars) && trailLim == old(trailLim) && budget == old(budget)
    {
      PropagateSynced(trail, assignment, level, clauses, |trailLim|);
      var clausesCopy;
      ok, clausesCopy := PropagationLoop(clauses);
      if ok {
        clauses := clausesCopy;
      }
    }

    /**
     * `_select_variable`: score each unassigned variable by 2^-len(clause)
     * per occurrence, then take the first variable of the list with the
     * highest score.
     */
    method SelectVariable(unassigned: seq<int>) returns (v: int)
      requires unassigned != []
      ensures v in unassigned
      ensures forall u :: u in unassigned ==> Score(clauses, u) <= Score(clauses, v)
      ensures exists k :: 0 <= k < |unassigned| && unassigned[k] == v &&
                          forall i :: 0 <= i < k ==> Score(clauses, unassigned[i]) < Score(clauses, v)
    {
      var varScores := ScoreTable(unassigned);
      v := unassigned[0];
      ghost var best := 0;
      var i := 1;
      while i < |unassigned|
        invariant 1 <= i <= |unassigned|
        invariant 0 <= best < i && unassigned[best] == v
        invariant forall k :: 0 <= k < i ==> Score(clauses, unassigned[k]) <= Score(clauses, v)
        invariant forall k :: 0 <= k < best ==> Score(clauses, unassigned[k]) < Score(clauses, v)
      {
        if Get(varScores, unassigned[i]) > Get(varScores, v) {
          v := unassigned[i];
          best := i;
        }
        i := i + 1;
      }
    }

    /** The `var_scores` loop of `_select_variable`. */
    method ScoreTable(unassigned: seq<int>) returns (varScores: map<int, real>)
      ensures forall u :: u in unassigned ==> Get(varScores, u) == Score(clauses, u)
    {
      varScores := map[];
      var i := 0;
      while i < |clauses|
        invariant 0 <= i <= |clauses|
        invariant forall u :: u in unassigned ==> Get(varScores, u) == Score(clauses[..i], u)
      {
        var clause := clauses[i];
        var w := Weight(|clause|);
        var j := 0;
        while j < |clause|
          invariant 0 <= j <= |clause|
          invariant forall u :: u in unassigned ==>
                      Get(varScores, u) == Score(clauses[..i], u) + LitsScore(clause[..j], u, w)
        {
          var x := Var(clauses[i][j]);
          assert clause[..j + 1][..j] == clause[..j];
          if x in unassigned {
            varScores := varScores[x := Get(varScores, x) + w];
          }
          j := j + 1;
        }
        assert clause[..j] == clause;
        assert clauses[..i + 1][..i] == clauses[..i];
        i := i + 1;
      }
      assert clauses[..i] == clauses;
    }

    /**
     * One decision of `_dpll_recursive`: assign `v`, give it the current
     * decision level, push it on the trail, open a new trail segment unless
     * the last one already ends here, and add the unit clause.
     */
    method Decide(v: int, value: bool)
      requires Valid() && v !in assignment
      modifies this
      ensures Valid()
      ensures assignment == old(assignment)[v := value]
      ensures level == old(level)[v := |old(trailLim)|]
      ensures trail == old(trail) + [v]
      ensures trailLim == if old(trailLim) == [] || old(trailLim)[|old(trailLim)| - 1] != |trail|
                          then old(trailLim) + [|trail|] else old(trailLim)
      ensures clauses == old(clauses) + [[if value then v else -v]]
      ensures numVars == old(numVars) && budget == old(budget)
    {
      assignment := assignment[v := value];
      level := level[v := if trailLim == [] then 0 else |trailLim|];
      trail := trail + [v];
      if trailLim == [] || trailLim[|trailLim| - 1] != |trail| {
        trailLim := trailLim + [|trail|];
      }
      var newUnit := [if value then v else -v];
      clauses := clauses + [newUnit];
      assert Leveled(old(level), [v], |old(trailLim)|) == level by {
        assert [v][..0] == [];
      }
      SyncedAppend(old(trail), old(assignment), old(level), [v], assignment, |old(trailLim)|);
    }

    /**
     * `_dpll_recursive`: out of time gives `Unknown`, a propagation
     * conflict `Unsat`, no clause left `Sat`, every variable of 1..numVars
     * assigned the verdict of `check_satisfiability`; otherwise the chosen
     * variable is tried true and then, from the restored state, false.
     * `f0` is the formula the search answers for.
     */
    method DpllRecursive(ghost f0: Formula) returns (r: Answer)
      requires Valid() && Sound(f0, assignment, clauses)
      modifies this
      ensures Valid() && numVars == old(numVars)
      ensures Extends(assignment, old(assignment)) && old(trail) <= trail
      ensures r == Sat ==> Satisfies(assignment, f0)
      ensures r == Unsat && WithinVars(old(clauses), numVars) ==> NoModelFrom(old(assignment), old(clauses))
      ensures r == Unknown ==> budget == 0
      ensures old(budget) == 0 ==> r == Unknown
      ensures old(budget) > 0 && !Propagate(old(clauses), old(assignment)).ok ==> r == Unsat
      ensures var p := Propagate(old(clauses), old(assignment));
              old(budget) > 0 && p.ok && p.cs == [] ==> r == Sat
      ensures var p := Propagate(old(clauses), old(assignment));
              old(budget) > 0 && p.ok && p.cs != [] && UnassignedVars(old(numVars), p.a) == [] ==> r == Unsat
      decreases |UnassignedVars(numVars, assignment)|, 2
    {
      if budget == 0 {
        return Unknown;
      }
      budget := budget - 1;
      ghost var a0 := assignment;
      ghost var cs0 := clauses;
      ghost var t0 := trail;
      PropagateComplete(cs0, a0);
      PropagateFacts(cs0, a0);
      var ok := UnitPropagationDpll();
      assert t0 <= trail;
      if !ok {
        return Unsat;
      }
      PropagateKeepsSound(f0, a0, cs0);
      PropagateWithin(cs0, a0, numVars);
      if clauses == [] {
        assert Extends(assignment, assignment);
        return Sat;
      }
      var unassignedVars := UnassignedVars(numVars, assignment);
      if unassignedVars == [] {
        AllAssigned(cs0, a0, numVars);
        var sat := CheckSatisfiability();
        return if sat then Sat else Unsat;
      }
      UnassignedShrinks(numVars, a0, assignment, 0);
      ghost var a1 := assignment;
      ghost var cs1 := clauses;
      ghost var t1 := trail;
      r := Branch(f0, unassignedVars);
      if r == Unsat && WithinVars(cs0, numVars) {
        assert NoModelFrom(a1, cs1);
      }
      ExtendsTrans(assignment, a1, a0);
      PrefixTrans(t0, t1, trail);
    }

    /**
     * The decision half of `_dpll_recursive`: pick a variable, try it true;
     * unless that succeeds, restore the saved assignment, levels, trail and
     * clauses (not `trailLim`) and try it false.
     */
    method Branch(ghost f0: Formula, unassignedVars: seq<int>) returns (r: Answer)
      requires Valid() && Sound(f0, assignment, clauses)
      requires unassignedVars == UnassignedVars(numVars, assignment) && unassignedVars != []
      modifies this
      ensures Valid() && numVars == old(numVars)
      ensures Extends(assignment, old(assignment)) && old(trail) <= trail
      ensures r == Sat ==> Satisfies(assignment, f0)
      ensures r == Unsat && WithinVars(old(clauses), numVars) ==> NoModelFrom(old(assignment), old(clauses))
      ensures r == Unknown ==> budget == 0
      ensures old(budget) == 0 ==> r == Unknown
      decreases |UnassignedVars(numVars, assignment)|, 1
    {
      var v := SelectVariable(unassignedVars);
      var savedAssignment := assignment;
      var savedLevel := level;
      var savedTrail := trail;
      var savedClauses := clauses;
      r := TryValue(f0, v, true);
      ExtendsTrans(assignment, savedAssignment[v := true], savedAssignment);
      if r == Sat {
        return;
      }
      ghost var first := r;
      Restore(savedAssignment, savedLevel, savedTrail, savedClauses);
      r := TryValue(f0, v, false);
      if r == Unsat && WithinVars(savedClauses, numVars) {
        assert first == Unsat;
        SplitRefutes(savedAssignment, savedClauses, v);
      }
      ExtendsTrans(assignment, savedAssignment[v := false], savedAssignment);
    }

    /** Put back the copies `_dpll_recursive` saved before its first decision; `trailLim` is not restored. */
    method Restore(savedAssignment: Assignment, savedLevel: map<int, int>, savedTrail: seq<int>, savedClauses: Formula)
      modifies this
      ensures assignment == savedAssignment && level == savedLevel && trail == savedTrail && clauses == savedClauses
      ensures numVars == old(numVars) && trailLim == old(trailLim) && budget == old(budget)
    {
      assignment := savedAssignment;
      level := savedLevel;
      trail := savedTrail;
      clauses := savedClauses;
    }

    /** Decide `v` with `value` and search on from there. */
    method TryValue(ghost f0: Formula, v: int, value: bool) returns (r: Answer)
      requires Valid() && Sound(f0, assignment, clauses)
      requires 1 <= v <= numVars && v !in assignment
      modifies this
      ensures Valid() && numVars == old(numVars)
      ensures Extends(assignment, old(assignment)[v := value]) && old(trail) + [v] <= trail
      ensures r == Sat ==> Satisfies(assignment, f0)
      ensures r == Unsat && WithinVars(old(clauses), numVars) ==>
                NoModelFrom(old(assignment)[v := value], old(clauses) + [[if value then v else -v]])
      ensures r == Unknown ==> budget == 0
      ensures old(budget) == 0 ==> r == Unknown
      decreases |UnassignedVars(numVars, assignment)|, 0
    {
      DecideKeepsSound(f0, assignment, clauses, v, value);
      ghost var a := assignment;
      ghost var cs := clauses;
      Decide(v, value);
      UnassignedShrinks(numVars, a, assignment, v);
      if WithinVars(cs, numVars) {
        WithinVarsDecide(cs, numVars, v);
      }
      r := DpllRecursive(f0);
    }

    /**
     * `dpll`: reset the search state, start the clock, eliminate pure
     * literals, search, and put the original clause list back.  A `Sat`
     * answer leaves a model of the formula in `assignment`; `Unsat` on a
     * formula over 1..numVars means there is none.
     */
    method Dpll(ticks: nat) returns (r: Answer)
      modifies this
      ensures clauses == old(clauses) && numVars == old(numVars) && Valid()
      ensures r == Sat ==> Satisfies(assignment, clauses)
      ensures r == Unsat && WithinVars(clauses, numVars) ==> !Satisfiable(clauses)
      ensures r == Unknown ==> budget == 0
      ensures ticks == 0 ==> r == Unknown
    {
      assignment := map[];
      level := map[];
      trail := [];
      trailLim := [];
      budget := ticks;
      var originalClauses := clauses;
      PureStart(originalClauses, numVars);
      PureLiteralElimination();
      r := DpllRecursive(originalClauses);
      clauses := originalClauses;
    }

    /**
     * `dp`: the splitting procedure, as written, on a copy of the clauses.
     * It answers True on every satisfiable formula, but also on some
     * unsatisfiable ones (`PyDp.AsWrittenUnsound`).
     */
    method Dp() returns (r: bool)
      requires [] !in clauses
      ensures r == PyDp.DpSpec(clauses, numVars, true)
      ensures Satisfiable(clauses) ==> r
    {
      r := PyDp.DpRecursive(clauses, numVars, true);
    }
  }
}
