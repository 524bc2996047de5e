/**
 * The bounded resolution engine of main.py (`resolution` and
 * `resolution_simplify`).  Clauses are frozensets of integer literals and
 * the working formula is a set of them.  Python's set iteration order is
 * not modelled: wherever the source walks a set, the model picks the next
 * element arbitrarily, so every proved property holds for every order.
 */
module PyResolution {
  import opened Cnf
  import opened SetCnf

  function Min(x: int, y: int): int
  {
    if x < y then x else y
  }

  /** A finite non-empty set of clauses has one of least length. */
  lemma {:induction false} ShortestExists(s: SFormula)
    requires s != {}
    ensures exists c :: c in s && forall d :: d in s ==> |c| <= |d|
  {
    var x :| x in s;
    var rest := s - {x};
    assert forall d :: d in s ==> d == x || d in rest;
    if rest == {} {
      assert forall d :: d in s ==> |x| <= |d|;
    } else {
      ShortestExists(rest);
      var c :| c in rest && forall d :: d in rest ==> |c| <= |d|;
      var m := if |x| < |c| then x else c;
      assert m in s && forall d :: d in s ==> |m| <= |d|;
    }
  }

  /**
   * `list(clauses)` followed by `sort(key=len)`: every clause once, by
   * non-decreasing length; ties come in whatever order the set yields.
   */
  method SortByLength(s: SFormula) returns (l: seq<SClause>)
    ensures forall c :: c in l <==> c in s
    ensures forall p, q :: 0 <= p < q < |l| ==> l[p] != l[q]
    ensures forall p, q :: 0 <= p < q < |l| ==> |l[p]| <= |l[q]|
  {
    l := [];
    var rest := s;
    while rest != {}
      invariant rest <= s
      invariant forall c :: c in l <==> c in s && c !in rest
      invariant forall p, q :: 0 <= p < q < |l| ==> l[p] != l[q]
      invariant forall p, q :: 0 <= p < q < |l| ==> |l[p]| <= |l[q]|
      invariant forall p, c :: 0 <= p < |l| && c in rest ==> |l[p]| <= |c|
      decreases |rest|
    {
      ShortestExists(rest);
      var c :| c in rest && forall d :: d in rest ==> |c| <= |d|;
      l := l + [c];
      rest := rest - {c};
    }
  }

  /** `ci` is a unit {l} and `cj` is {l, -l}, for a non-zero `l`. */
  predicate IsTautologyPartner(ci: SClause, cj: SClause)
  {
    exists l :: l in ci && ci == {l} && cj == {l, -l} && l != 0
  }

  /** As written, such a pair resolves to the empty clause on its only clashing literal. */
  lemma TautologyPartnerRefuted(ci: SClause, cj: SClause)
    requires IsTautologyPartner(ci, cj)
    ensures forall lit :: lit in ci ==> -lit in cj && AsWrittenResolvent(ci, cj, lit) == {}
  {
    var l :| l in ci && ci == {l} && cj == {l, -l} && l != 0;
    assert AsWrittenResolvent(ci, cj, l) == {};
  }

  datatype PairResult = Refuted | Added(resolvent: SClause) | Nothing(complete: bool)

  /**
   * The inner `for lit in ci` loop of main.py:131-147 for one pair: the
   * first clashing literal whose resolvent is empty refutes; a resolvent
   * longer than 20 literals or subsumed by a clause of `clauses` is passed
   * over; the first other one is added and ends the loop.  `complete` says
   * no resolvent was passed over for its length.
   */
  method ResolvePair(ci: SClause, cj: SClause, clauses: SFormula, asWritten: bool) returns (out: PairResult)
    ensures out == Refuted ==> exists lit :: lit in ci && -lit in cj && Resolve(ci, cj, lit, asWritten) == {}
    ensures out.Added? ==> exists lit :: lit in ci && -lit in cj && out.resolvent == Resolve(ci, cj, lit, asWritten)
    ensures out.Added? ==> out.resolvent != {} && |out.resolvent| <= 20 && !Subsumed(clauses, out.resolvent)
    ensures out.Nothing? && out.complete ==> PairClosed(clauses, ci, cj, asWritten)
    ensures asWritten && IsTautologyPartner(ci, cj) ==> out == Refuted
  {
    if asWritten && IsTautologyPartner(ci, cj) {
      TautologyPartnerRefuted(ci, cj);
    }
    var lits := ci;
    var complete := true;
    while lits != {}
      invariant lits <= ci
      invariant asWritten && IsTautologyPartner(ci, cj) ==> lits == ci
      invariant complete ==> forall lit :: lit in ci - lits && -lit in cj ==> Subsumed(clauses, Resolve(ci, cj, lit, asWritten))
      decreases |lits|
    {
      NonEmptyHasMember(lits);
      var lit :| lit in lits;
      lits := lits - {lit};
      if -lit in cj {
        var resolvent := Resolve(ci, cj, lit, asWritten);
        if resolvent == {} {
          return Refuted;
        }
        if |resolvent| > 20 {
          complete := false;
        } else if !Subsumed(clauses, resolvent) {
          // Not subsumed, so not a member of `clauses` either: the
          // source's membership test succeeds and the loop ends.
          return Added(resolvent);
        }
      }
    }
    return Nothing(complete);
  }

  /** From the pairs of a list holding every clause once to all pairs of distinct clauses. */
  lemma ListPairsClosed(s: SFormula, l: seq<SClause>, asWritten: bool)
    requires forall c :: c in l <==> c in s
    requires forall p, q :: 0 <= p < q < |l| ==> PairClosed(s, l[p], l[q], asWritten)
    ensures Closed(s, asWritten)
  {
    forall ci, cj | ci in s && cj in s && ci != cj ensures PairClosed(s, ci, cj, asWritten) {
      var p :| 0 <= p < |l| && l[p] == ci;
      var q :| 0 <= q < |l| && l[q] == cj;
      if q < p {
        PairClosedSymmetric(s, cj, ci, asWritten);
      }
    }
  }

  /** A pair of two clauses longer than 5 literals is skipped; any other goes to `ResolvePair`. */
  method VisitPair(ci: SClause, cj: SClause, clauses: SFormula, asWritten: bool) returns (out: PairResult)
    ensures out == Refuted ==> exists lit :: lit in ci && -lit in cj && Resolve(ci, cj, lit, asWritten) == {}
    ensures out.Added? ==> exists lit :: lit in ci && -lit in cj && out.resolvent == Resolve(ci, cj, lit, asWritten)
    ensures out.Added? ==> out.resolvent != {} && |out.resolvent| <= 20 && !Subsumed(clauses, out.resolvent)
    ensures out.Nothing? && out.complete ==> PairClosed(clauses, ci, cj, asWritten)
    ensures |ci| > 5 && |cj| > 5 ==> out.Nothing?
  {
    if |ci| > 5 && |cj| > 5 {
      out := Nothing(!exists lit :: lit in ci && -lit in cj);
    } else {
      out := ResolvePair(ci, cj, clauses, asWritten);
    }
  }

  /** Every member of `rs` is a new, non-empty resolvent of at most 20 literals. */
  ghost predicate GoodResolvents(clauses: SFormula, rs: SFormula, asWritten: bool)
  {
    forall r :: r in rs ==> Derived(clauses, r, asWritten) && r != {} && |r| <= 20 && !Subsumed(clauses, r)
  }

  /** Every pair (p, q) before (i, j) in the order of `combinations` is closed. */
  ghost predicate PairsBeforeClosed(s: SFormula, l: seq<SClause>, i: int, j: int, m: int, asWritten: bool)
    requires m <= |l|
  {
    forall p, q :: (0 <= p < i && p < q < m) || (0 <= p == i && i < q < j && q < m) ==>
      PairClosed(s, l[p], l[q], asWritten)
  }

  lemma GoodResolventsAdd(clauses: SFormula, rs: SFormula, r: SClause, ci: SClause, cj: SClause, asWritten: bool)
    requires GoodResolvents(clauses, rs, asWritten)
    requires ci in clauses && cj in clauses
    requires exists lit :: lit in ci && -lit in cj && r == Resolve(ci, cj, lit, asWritten)
    requires r != {} && |r| <= 20 && !Subsumed(clauses, r)
    ensures GoodResolvents(clauses, rs + {r}, asWritten)
  {
    var lit :| lit in ci && -lit in cj && r == Resolve(ci, cj, lit, asWritten);
    assert Derived(clauses, r, asWritten);
    forall x | x in rs + {r}
      ensures Derived(clauses, x, asWritten) && x != {} && |x| <= 20 && !Subsumed(clauses, x)
    {
      if x != r {
        assert x in rs;
      }
    }
  }

  lemma PairsBeforeClosedNext(s: SFormula, l: seq<SClause>, i: int, j: int, m: int, asWritten: bool)
    requires 0 <= i < j < m <= |l|
    requires PairsBeforeClosed(s, l, i, j, m, asWritten)
    requires PairClosed(s, l[i], l[j], asWritten)
    ensures PairsBeforeClosed(s, l, i, j + 1, m, asWritten)
  {
  }

  /**
   * The pairs (i, j), j = i+1 .. m-1, of the `combinations` loop, counting
   * them against `maxPairs`; `stop` is its `break`.
   */
  method PairsOfRow(clauses: SFormula, clauseList: seq<SClause>, i: nat, m: nat, maxPairs: int, asWritten: bool,
                    resolvents0: SFormula, complete0: bool, pairsChecked0: int)
    returns (refuted: bool, resolvents: SFormula, complete: bool, pairsChecked: int, stop: bool)
    requires i < m <= |clauseList|
    requires forall c :: c in clauseList ==> c in clauses
    requires GoodResolvents(clauses, resolvents0, asWritten)
    requires complete0 && resolvents0 == {} ==> PairsBeforeClosed(clauses, clauseList, i, i + 1, m, asWritten)
    ensures refuted ==> Derived(clauses, {}, asWritten)
    ensures GoodResolvents(clauses, resolvents, asWritten)
    ensures complete ==> complete0 && !stop
    ensures !refuted && complete && resolvents == {} ==> PairsBeforeClosed(clauses, clauseList, i + 1, i + 2, m, asWritten)
    ensures (forall c :: c in clauses ==> |c| > 5) ==> !refuted && resolvents == resolvents0
  {
    refuted, resolvents, complete, pairsChecked, stop := false, resolvents0, complete0, pairsChecked0, false;
    var j := i + 1;
    while j < m && !stop
      invariant i < j <= m
      invariant GoodResolvents(clauses, resolvents, asWritten)
      invariant complete ==> complete0 && !stop
      invariant complete && resolvents == {} ==> PairsBeforeClosed(clauses, clauseList, i, j, m, asWritten)
      invariant (forall c :: c in clauses ==> |c| > 5) ==> resolvents == resolvents0
    {
      pairsChecked := pairsChecked + 1;
      if pairsChecked > maxPairs {
        stop := true;
        complete := false;
      } else {
        var ci, cj := clauseList[i], clauseList[j];
        assert ci in clauses && cj in clauses;
        var out := VisitPair(ci, cj, clauses, asWritten);
        match out {
          case Refuted =>
            return true, resolvents, complete, pairsChecked, stop;
          case Added(r) =>
            GoodResolventsAdd(clauses, resolvents, r, ci, cj, asWritten);
            resolvents := resolvents + {r};
          case Nothing(pairComplete) =>
            if complete && pairComplete && resolvents == {} {
              PairsBeforeClosedNext(clauses, clauseList, i, j, m, asWritten);
            }
            complete := complete && pairComplete;
        }
      }
      j := j + 1;
    }
  }

  datatype RoundResult = EmptyResolvent | Resolvents(added: SFormula, complete: bool)

  /**
   * One pass of the `while True` body of main.py:122-147: the clauses
   * sorted by length, the pairs i < j below min(2000, n) in the order of
   * `combinations`, at most min(100000, n(n-1)/2) of them, a pair of two
   * clauses longer than 5 literals skipped.  `complete` says that no
   * clashing pair was left out (for the index bound, the pair budget or the
   * length limits).
   */
  method ResolutionRound(clauses: SFormula, asWritten: bool) returns (res: RoundResult)
    ensures res == EmptyResolvent ==> Derived(clauses, {}, asWritten)
    ensures res.Resolvents? ==> GoodResolvents(clauses, res.added, asWritten)
    ensures res.Resolvents? && res.added == {} && res.complete ==> Closed(clauses, asWritten)
    ensures (forall c :: c in clauses ==> |c| > 5) ==> res.Resolvents? && res.added == {}
  {
    var clauseList := SortByLength(clauses);
    var n := |clauseList|;
    var maxPairs := Min(100000, n * (n - 1) / 2);
    var m := Min(2000, n);
    var resolvents: SFormula := {};
    var complete := m == n;
    var pairsChecked := 0;
    var stop := false;
    var i := 0;
    while i < m && !stop
      invariant 0 <= i <= m <= n
      invariant GoodResolvents(clauses, resolvents, asWritten)
      invariant complete ==> m == n && !stop
      invariant complete && resolvents == {} ==> PairsBeforeClosed(clauses, clauseList, i, i + 1, m, asWritten)
      invariant (forall c :: c in clauses ==> |c| > 5) ==> resolvents == {}
    {
      var refuted;
      refuted, resolvents, complete, pairsChecked, stop :=
        PairsOfRow(clauses, clauseList, i, m, maxPairs, asWritten, resolvents, complete, pairsChecked);
      if refuted {
        return EmptyResolvent;
      }
      i := i + 1;
    }
    if complete && resolvents == {} {
      ListPairsClosed(clauses, clauseList, asWritten);
    }
    res := Resolvents(resolvents, complete);
  }

  // ----- resolution_simplify -----

  /** Every clause of `t` is a subset of a clause of `s`. */
  predicate Within(s: SFormula, t: SFormula)
  {
    forall c :: c in t ==> exists d :: d in s && c <= d
  }

  /** The literals that occur in `s`. */
  function LitsOf(s: SFormula): set<Literal>
  {
    set c, l | c in s && l in c :: l
  }

  ghost predicate ForwardAt(s: SFormula, t: SFormula, p: set<Literal>, a: Assignment)
  {
    SSatisfies(a, s) ==> SSatisfies(a, t) && forall l :: l in p ==> LitTrue(a, l)
  }

  /** Every model of `s` satisfies `t` and makes every literal of `p` true. */
  ghost predicate Forward(s: SFormula, t: SFormula, p: set<Literal>)
  {
    forall a :: ForwardAt(s, t, p, a)
  }

  ghost predicate BackwardAt(s: SFormula, t: SFormula, p: set<Literal>, b: Assignment)
  {
    SSatisfies(b, t) && (forall l :: l in p ==> LitTrue(b, l)) ==> SSatisfies(b, s)
  }

  /** A model of `t` that makes every literal of `p` true is a model of `s`. */
  ghost predicate Backward(s: SFormula, t: SFormula, p: set<Literal>)
  {
    forall b :: BackwardAt(s, t, p, b)
  }

  /** No clause of `t` mentions the variable of a literal of `p`. */
  predicate Untouched(t: SFormula, p: set<Literal>)
  {
    forall c, l :: c in t && l in p ==> l !in c && -l !in c
  }

  /** `p` holds no complementary pair. */
  predicate Consistent(p: set<Literal>)
  {
    forall l :: l in p && l != 0 ==> -l !in p
  }

  /** `b` with every literal of `p` made true. */
  ghost function Force(b: Assignment, p: set<Literal>): Assignment
  {
    map v: int | v in b.Keys + (set l | l in p :: Var(l) as int) ::
      if v != 0 && v in p then true else if -v in p then false else if v in b then b[v] else false
  }

  lemma ForceFacts(b: Assignment, p: set<Literal>)
    requires Consistent(p)
    ensures forall l :: l in p ==> LitTrue(Force(b, p), l)
    ensures forall l :: l !in p && -l !in p ==> (LitTrue(Force(b, p), l) <==> LitTrue(b, l))
  {
    var f := Force(b, p);
    forall l | l in p ensures LitTrue(f, l) {
      assert Var(l) as int in (set l | l in p :: Var(l) as int);
    }
    forall l | l !in p && -l !in p ensures LitTrue(f, l) <==> LitTrue(b, l) {
      if Var(l) in f && Var(l) !in b {
        var k :| k in p && Var(k) == Var(l);
        assert k == l || k == -l;
      }
    }
  }

  /** Forcing the literals of `p` keeps every model of a formula that does not mention them. */
  lemma ForceKeeps(b: Assignment, t: SFormula, p: set<Literal>)
    requires Consistent(p) && Untouched(t, p) && SSatisfies(b, t)
    ensures SSatisfies(Force(b, p), t)
    ensures forall l :: l in p ==> LitTrue(Force(b, p), l)
  {
    ForceFacts(b, p);
    forall c | c in t ensures SClauseSat(Force(b, p), c) {
      var l :| l in c && LitTrue(b, l);
      assert forall k :: k in p ==> k !in c && -k !in c;
      assert --l == l;
    }
  }

  lemma SingletonIs(c: SClause, w: Literal)
    requires |c| == 1 && w in c
    ensures c == {w}
  {
    assert |c - {w}| == 0;
  }

  /** `rem` is the clauses of `t` holding `u` or `-u`. */
  ghost predicate RemovedAll(t: SFormula, u: Literal, rem: SFormula)
  {
    forall c :: c in rem <==> c in t && (u in c || -u in c)
  }

  /** Every clause of `add` is a clause of `t` holding `-u` but not `u`, with `-u` taken out. */
  ghost predicate Shortened(t: SFormula, u: Literal, add: SFormula)
  {
    forall c :: c in add ==> exists d :: d in t && u !in d && -u in d && c == d - {-u}
  }

  /** Every clause of `t` holding `-u` but not `u` has its shortening in `add`. */
  ghost predicate ShortenedAll(t: SFormula, u: Literal, add: SFormula)
  {
    forall d :: d in t && u !in d && -u in d ==> d - {-u} in add
  }

  /** `nu` lists the literals of the unit clauses of `add`. */
  ghost predicate NewUnitsOf(add: SFormula, nu: seq<Literal>)
  {
    (forall k :: 0 <= k < |nu| ==> {nu[k]} in add) &&
    (forall c :: c in add && |c| == 1 ==> forall w :: w in c ==> w in nu) &&
    (nu == [] || add != {})
  }

  /** The outcome of one unit's pass without conflict; {-u} was not a clause. */
  ghost predicate UnitPassed(t: SFormula, u: Literal, rem: SFormula, add: SFormula, nu: seq<Literal>)
  {
    RemovedAll(t, u, rem) && Shortened(t, u, add) && ShortenedAll(t, u, add) && NewUnitsOf(add, nu) &&
    ({-u} !in t || u == 0)
  }

  lemma UnitSeenSkip(seen: SFormula, u: Literal, rem: SFormula, add: SFormula, nu: seq<Literal>, c: SClause)
    requires UnitPassed(seen, u, rem, add, nu) && u !in c && -u !in c
    ensures UnitPassed(seen + {c}, u, rem, add, nu)
  {
  }

  lemma UnitSeenRemove(seen: SFormula, u: Literal, rem: SFormula, add: SFormula, nu: seq<Literal>, c: SClause)
    requires UnitPassed(seen, u, rem, add, nu) && u in c
    ensures UnitPassed(seen + {c}, u, rem + {c}, add, nu)
  {
    assert c == {-u} ==> u == 0 by {
      if c == {-u} {
        assert u in {-u};
      }
    }
  }

  lemma UnitSeenShorten(seen: SFormula, u: Literal, rem: SFormula, add: SFormula, nu: seq<Literal>,
                        c: SClause, nu': seq<Literal>)
    requires UnitPassed(seen, u, rem, add, nu) && u !in c && -u in c && c - {-u} != {}
    requires NewUnitsOf(add + {c - {-u}}, nu')
    ensures UnitPassed(seen + {c}, u, rem + {c}, add + {c - {-u}}, nu')
  {
    assert c != {-u};
  }

  lemma NewUnitsAdd(add: SFormula, nu: seq<Literal>, d: SClause, w: Literal)
    requires NewUnitsOf(add, nu)
    ensures |d| != 1 ==> NewUnitsOf(add + {d}, nu)
    ensures d == {w} ==> NewUnitsOf(add + {d}, nu + [w])
  {
    if d == {w} {
      forall c, x | c in add + {d} && |c| == 1 && x in c ensures x in nu + [w] {
        if c == d {
          assert x == w;
        }
      }
    }
  }

  /**
   * The `for clause in simplified` loop of main.py:162-173 for one unit:
   * `conflict` when a clause shrinks to nothing (it was {-unit}); otherwise
   * the clauses to remove (those holding `unit` or `-unit`), the shortened
   * ones to add and the new unit literals to queue.
   */
  method ProcessUnit(t: SFormula, unit: Literal)
    returns (conflict: bool, toRemove: SFormula, toAdd: SFormula, newUnits: seq<Literal>)
    ensures conflict ==> {-unit} in t && unit != 0
    ensures !conflict ==> UnitPassed(t, unit, toRemove, toAdd, newUnits)
  {
    toRemove, toAdd, newUnits := {}, {}, [];
    var rest := t;
    while rest != {}
      invariant rest <= t
      invariant UnitPassed(t - rest, unit, toRemove, toAdd, newUnits)
      decreases |rest|
    {
      SomeClause(rest);
      var clause :| clause in rest;
      ghost var seen := t - rest;
      rest := rest - {clause};
      assert t - rest == seen + {clause};
      if unit in clause {
        UnitSeenRemove(seen, unit, toRemove, toAdd, newUnits, clause);
        toRemove := toRemove + {clause};
      } else if -unit in clause {
        var newClause := clause - {-unit};
        if newClause == {} {
          assert clause == {-unit};
          return true, toRemove, toAdd, newUnits;
        }
        var units := newUnits;
        if |newClause| == 1 {
          NonEmptyHasMember(newClause);
          var w :| w in newClause;
          SingletonIs(newClause, w);
          NewUnitsAdd(toAdd, newUnits, newClause, w);
          units := newUnits + [w];
        } else {
          NewUnitsAdd(toAdd, newUnits, newClause, 0);
        }
        UnitSeenShorten(seen, unit, toRemove, toAdd, newUnits, clause, units);
        toRemove := toRemove + {clause};
        toAdd := toAdd + {newClause};
        newUnits := units;
      } else {
        UnitSeenSkip(seen, unit, toRemove, toAdd, newUnits, clause);
      }
    }
    assert t - rest == t;
    conflict := false;
  }

  /** Every unit clause's literal is queued. */
  predicate UnitsQueued(t: SFormula, q: seq<Literal>)
  {
    forall c :: c in t && |c| == 1 ==> forall w :: w in c ==> w in q
  }

  lemma StepForward(s: SFormula, t: SFormula, p: set<Literal>, u: Literal, rem: SFormula, add: SFormula, nu: seq<Literal>)
    requires Forward(s, t, p) && Shortened(t, u, add)
    requires {u} in t || u in p
    ensures Forward(s, (t - rem) + add, p + {u})
  {
    forall a ensures ForwardAt(s, (t - rem) + add, p + {u}, a) {
      if SSatisfies(a, s) {
        assert ForwardAt(s, t, p, a);
        assert SClauseSat(a, {u}) || u in p;
        forall c | c in (t - rem) + add ensures SClauseSat(a, c) {
          if c in add {
            var d :| d in t && u !in d && -u in d && c == d - {-u};
            var l :| l in d && LitTrue(a, l);
            LitTrueNotFalse(a, u);
            assert l in c;
          }
        }
      }
    }
  }

  lemma StepBackward(s: SFormula, t: SFormula, p: set<Literal>, u: Literal, rem: SFormula, add: SFormula, nu: seq<Literal>)
    requires Backward(s, t, p) && RemovedAll(t, u, rem) && ShortenedAll(t, u, add)
    ensures Backward(s, (t - rem) + add, p + {u})
  {
    forall b ensures BackwardAt(s, (t - rem) + add, p + {u}, b) {
      if SSatisfies(b, (t - rem) + add) && (forall l :: l in p + {u} ==> LitTrue(b, l)) {
        forall c | c in t ensures SClauseSat(b, c) {
          if u in c {
            assert LitTrue(b, u);
          } else if -u in c {
            assert c - {-u} in add;
            var l :| l in c - {-u} && LitTrue(b, l);
          } else {
            assert c !in rem;
          }
        }
        assert BackwardAt(s, t, p, b);
      }
    }
  }

  lemma StepUntouched(t: SFormula, p: set<Literal>, u: Literal, rem: SFormula, add: SFormula, nu: seq<Literal>)
    requires Untouched(t, p) && RemovedAll(t, u, rem) && Shortened(t, u, add)
    ensures Untouched((t - rem) + add, p + {u})
  {
    forall c, l | c in (t - rem) + add && l in p + {u} ensures l !in c && -l !in c {
      if c in add {
        var d :| d in t && u !in d && -u in d && c == d - {-u};
      }
    }
  }

  lemma StepConsistent(t: SFormula, p: set<Literal>, u: Literal)
    requires Consistent(p) && Untouched(t, p)
    requires {u} in t || u in p
    ensures Consistent(p + {u})
  {
    if u !in p {
      assert forall l :: l in p ==> -l != u;
      assert u != 0 ==> -u !in p;
    }
  }

  lemma StepQueued(t: SFormula, p: set<Literal>, q: seq<Literal>, u: Literal, rem: SFormula, add: SFormula, nu: seq<Literal>)
    requires q != [] && q[0] == u
    requires forall x :: x in q ==> {x} in t || x in p
    requires RemovedAll(t, u, rem) && NewUnitsOf(add, nu) && ({-u} !in t || u == 0)
    ensures forall x :: x in q[1..] + nu ==> {x} in (t - rem) + add || x in p + {u}
  {
    forall x | x in q[1..] + nu ensures {x} in (t - rem) + add || x in p + {u} {
      if x in q[1..] {
        assert x in q;
        if x != u && x !in p {
          assert -u !in {x};
          assert {x} !in rem;
        }
      }
    }
  }

  lemma StepUnitsQueued(t: SFormula, q: seq<Literal>, u: Literal, rem: SFormula, add: SFormula, nu: seq<Literal>)
    requires q != [] && q[0] == u
    requires UnitsQueued(t, q) && RemovedAll(t, u, rem) && NewUnitsOf(add, nu)
    ensures UnitsQueued((t - rem) + add, q[1..] + nu)
  {
    forall c, w | c in (t - rem) + add && |c| == 1 && w in c ensures w in q[1..] + nu {
      SingletonIs(c, w);
      if c !in add {
        assert w in q && w != u;
        assert q == [q[0]] + q[1..];
      }
    }
  }

  lemma StepWithin(s: SFormula, t: SFormula, u: Literal, rem: SFormula, add: SFormula, nu: seq<Literal>)
    requires Within(s, t) && Shortened(t, u, add)
    ensures Within(s, (t - rem) + add)
  {
    forall c | c in (t - rem) + add ensures exists e :: e in s && c <= e {
      if c in add {
        var d :| d in t && u !in d && -u in d && c == d - {-u};
        var e :| e in s && d <= e;
      }
    }
  }

  /** A unit already handled meets no clause: nothing changes and nothing is queued. */
  lemma StepNothing(t: SFormula, p: set<Literal>, u: Literal, rem: SFormula, add: SFormula, nu: seq<Literal>)
    requires u in p && Untouched(t, p) && RemovedAll(t, u, rem) && Shortened(t, u, add) && NewUnitsOf(add, nu)
    ensures rem == {} && add == {} && nu == []
  {
    assert forall d :: d in t ==> -u !in d;
    assert add == {};
  }

  /** A new unit comes from the formula, so the set of handled literals grows within a finite set. */
  lemma StepMeasure(s: SFormula, t: SFormula, p: set<Literal>, u: Literal)
    requires u !in p && {u} in t && Within(s, t) && p <= LitsOf(s)
    ensures p + {u} <= LitsOf(s)
    ensures |LitsOf(s) - (p + {u})| < |LitsOf(s) - p|
  {
    var d :| d in s && {u} <= d;
    assert u in d;
    assert LitsOf(s) - (p + {u}) == (LitsOf(s) - p) - {u};
  }

  /** The invariant of the `while unit_clauses` loop, with `p` the units handled so far. */
  ghost predicate SimplifyInv(s: SFormula, t: SFormula, q: seq<Literal>, p: set<Literal>)
  {
    Within(s, t) && (forall x :: x in q ==> {x} in t || x in p) && UnitsQueued(t, q) &&
    Untouched(t, p) && Consistent(p) && p <= LitsOf(s) &&
    Forward(s, t, p) && Backward(s, t, p)
  }

  /** One unit's pass keeps the invariant, and either a new literal is handled or the queue shrinks. */
  lemma SimplifyStep(s: SFormula, t: SFormula, q: seq<Literal>, p: set<Literal>,
                     rem: SFormula, add: SFormula, nu: seq<Literal>)
    requires q != [] && SimplifyInv(s, t, q, p)
    requires UnitPassed(t, q[0], rem, add, nu)
    ensures SimplifyInv(s, (t - rem) + add, q[1..] + nu, p + {q[0]})
    ensures |LitsOf(s) - (p + {q[0]})| < |LitsOf(s) - p| ||
            (p + {q[0]} == p && |q[1..] + nu| < |q|)
  {
    var u := q[0];
    assert u in q;
    StepForward(s, t, p, u, rem, add, nu);
    StepBackward(s, t, p, u, rem, add, nu);
    StepUntouched(t, p, u, rem, add, nu);
    StepConsistent(t, p, u);
    StepQueued(t, p, q, u, rem, add, nu);
    StepUnitsQueued(t, q, u, rem, add, nu);
    StepWithin(s, t, u, rem, add, nu);
    if u in p {
      StepNothing(t, p, u, rem, add, nu);
    } else {
      StepMeasure(s, t, p, u);
    }
  }

  /** A unit and the clause of its complement cannot both hold. */
  lemma ConflictUnsat(s: SFormula, t: SFormula, q: seq<Literal>, p: set<Literal>)
    requires q != [] && SimplifyInv(s, t, q, p) && {-q[0]} in t && q[0] != 0
    ensures forall a :: !SSatisfies(a, s)
  {
    var u := q[0];
    assert u in q;
    assert {u} in t || u in p;
    assert Forward(s, t, p);
    forall a ensures !SSatisfies(a, s) {
      assert ForwardAt(s, t, p, a);
      ConflictAt(t, p, u, a);
    }
  }

  /** No assignment satisfies both {-u} and {u}, or {-u} while making `u` true. */
  lemma ConflictAt(t: SFormula, p: set<Literal>, u: Literal, a: Assignment)
    requires ({u} in t || u in p) && {-u} in t && u != 0
    ensures !(SSatisfies(a, t) && forall l :: l in p ==> LitTrue(a, l))
  {
    LitTrueNotFalse(a, u);
    assert SClauseSat(a, {-u}) ==> LitTrue(a, -u);
    assert SClauseSat(a, {u}) ==> LitTrue(a, u);
  }

  /**
   * What `resolution_simplify` promises: every model of `s` is a model of
   * `t`, `t` is satisfiable exactly when `s` is, and `t` is either
   * {frozenset()} or free of unit clauses with every clause part of a clause
   * of `s`.
   */
  ghost predicate SimplifiedFrom(s: SFormula, t: SFormula)
  {
    (forall a :: SSatisfies(a, s) ==> SSatisfies(a, t)) &&
    (SSatisfiable(t) <==> SSatisfiable(s)) &&
    (t == {{}} || (Within(s, t) && forall c :: c in t ==> |c| != 1))
  }

  /** A formula without models simplifies to {frozenset()}. */
  lemma ConflictEnd(s: SFormula, r: SFormula)
    requires forall a :: !SSatisfies(a, s)
    requires r == {{}}
    ensures SimplifiedFrom(s, r)
  {
    forall a ensures !SSatisfies(a, r) {
      assert {} in r && !SClauseSat(a, {});
    }
  }

  /** With the queue empty, the invariant gives the result's contract. */
  lemma SimplifyEnd(s: SFormula, t: SFormula, p: set<Literal>)
    requires SimplifyInv(s, t, [], p)
    ensures SimplifiedFrom(s, t)
  {
    if SSatisfiable(t) {
      var b :| SSatisfies(b, t);
      ForceKeeps(b, t, p);
      assert BackwardAt(s, t, p, Force(b, p));
    }
    forall a | SSatisfies(a, s) ensures SSatisfies(a, t) {
      assert ForwardAt(s, t, p, a);
    }
    forall c | c in t ensures |c| != 1 {
      if |c| == 1 {
        NonEmptyHasMember(c);
      }
    }
  }

  /**
   * One turn of the `while unit_clauses` loop: pop the first queued unit and
   * handle it; on a conflict the formula has no model.
   */
  method SimplifyUnit(ghost s: SFormula, t: SFormula, q: seq<Literal>, ghost p: set<Literal>)
    returns (conflict: bool, t': SFormula, q': seq<Literal>)
    requires q != [] && SimplifyInv(s, t, q, p)
    ensures conflict ==> forall a :: !SSatisfies(a, s)
    ensures !conflict ==> SimplifyInv(s, t', q', p + {q[0]})
    ensures !conflict ==> |LitsOf(s) - (p + {q[0]})| < |LitsOf(s) - p| ||
                          (p + {q[0]} == p && |q'| < |q|)
  {
    var unit := q[0];
    var toRemove, toAdd, newUnits;
    conflict, toRemove, toAdd, newUnits := ProcessUnit(t, unit);
    if conflict {
      ConflictUnsat(s, t, q, p);
      return true, t, q;
    }
    SimplifyStep(s, t, q, p, toRemove, toAdd, newUnits);
    t' := (t - toRemove) + toAdd;
    q' := q[1..] + newUnits;
  }

  /** The literals of the unit clauses, queued in some order (main.py:157). */
  method CollectUnits(clauses: SFormula) returns (queue: seq<Literal>)
    ensures forall w :: w in queue ==> {w} in clauses
    ensures UnitsQueued(clauses, queue)
  {
    queue := [];
    var rest := clauses;
    while rest != {}
      invariant rest <= clauses
      invariant forall w :: w in queue ==> {w} in clauses
      invariant UnitsQueued(clauses - rest, queue)
      decreases |rest|
    {
      SomeClause(rest);
      var c :| c in rest;
      rest := rest - {c};
      if |c| == 1 {
        NonEmptyHasMember(c);
        var w :| w in c;
        SingletonIs(c, w);
        queue := queue + [w];
      }
    }
    assert clauses - rest == clauses;
  }

  /** Before the first unit is handled the invariant holds with nothing handled. */
  lemma SimplifyStart(s: SFormula, q: seq<Literal>)
    requires forall w :: w in q ==> {w} in s
    requires UnitsQueued(s, q)
    ensures SimplifyInv(s, s, q, {})
  {
    forall a ensures ForwardAt(s, s, {}, a) {
    }
    forall b ensures BackwardAt(s, s, {}, b) {
    }
    forall c | c in s ensures exists e :: e in s && c <= e {
      assert c <= c;
    }
  }

  /**
   * `resolution_simplify` (main.py:155-175): unit propagation on the set.
   * Every model of the input is a model of the result and the result is
   * satisfiable exactly when the input is; {frozenset()} is returned when a
   * clause shrinks to nothing, and otherwise the result has no unit clause
   * left and every clause in it is part of an input clause.
   */
  method ResolutionSimplify(clauses: SFormula) returns (r: SFormula)
    ensures SimplifiedFrom(clauses, r)
  {
    var queue := CollectUnits(clauses);
    SimplifyStart(clauses, queue);
    var simplified := clauses;
    ghost var done: set<Literal> := {};
    while queue != []
      invariant SimplifyInv(clauses, simplified, queue, done)
      decreases |LitsOf(clauses) - done|, |queue|
    {
      var unit := queue[0];
      var conflict;
      conflict, simplified, queue := SimplifyUnit(clauses, simplified, queue, done);
      if conflict {
        r := {{}};
        ConflictEnd(clauses, r);
        return;
      }
      done := done + {unit};
    }
    SimplifyEnd(clauses, simplified, done);
    r := simplified;
  }

  // ----- resolution -----

  /** What `resolution` answers: True, False, or None when it gives up. */
  datatype Answer = Sat | Unsat | Unknown

  /** Adding correct resolvents keeps the models, and keeps 0 out. */
  lemma AddResolvents(clauses: SFormula, added: SFormula)
    requires NoZero(clauses) && GoodResolvents(clauses, added, false)
    ensures NoZero(clauses + added)
    ensures SSatisfiable(clauses + added) <==> SSatisfiable(clauses)
  {
    forall r | r in added ensures 0 !in r {
      var ci, cj, lit :| ci in clauses && cj in clauses && lit in ci && -lit in cj && r == Resolve(ci, cj, lit, false);
    }
    if SSatisfiable(clauses) {
      var a :| SSatisfies(a, clauses);
      forall r | r in added ensures SClauseSat(a, r) {
        DerivedImplied(a, clauses, r);
      }
      assert SSatisfies(a, clauses + added);
    }
    if SSatisfiable(clauses + added) {
      var a :| SSatisfies(a, clauses + added);
      assert SSatisfies(a, clauses);
    }
  }

  /** A simplified formula without the empty clause keeps 0 out. */
  lemma SimplifiedNoZero(s: SFormula, t: SFormula)
    requires NoZero(s) && SimplifiedFrom(s, t) && {} !in t
    ensures NoZero(t)
  {
    assert t != {{}};
    forall c | c in t ensures 0 !in c {
      var d :| d in s && c <= d;
    }
  }

  /** The iteration invariant of `resolution`: 0 stays out and satisfiability is kept. */
  ghost predicate Equisatisfiable(s0: SFormula, s: SFormula)
  {
    NoZero(s0) ==> NoZero(s) && (SSatisfiable(s) <==> SSatisfiable(s0))
  }

  /** Every clause of the (non-empty) input has more than 5 distinct literals. */
  predicate OnlyLongClauses(cnf: Formula)
  {
    cnf != [] && forall c :: c in cnf ==> |SetOf(c)| > 5
  }

  /**
   * One round of the `while True` loop of main.py:114-153 after its limit
   * checks: resolve, then add the resolvents and simplify.  `stop` with the
   * answer, or the next clause set.  Corrected, the answers are sound and
   * the next set is equisatisfiable with `s0`.
   */
  method ResolutionStep(ghost s0: SFormula, clauses: SFormula, asWritten: bool)
    returns (stop: bool, r: Answer, next: SFormula)
    requires {} !in clauses
    requires !asWritten ==> Equisatisfiable(s0, clauses)
    ensures stop && !asWritten && r == Unsat && NoZero(s0) ==> !SSatisfiable(s0)
    ensures stop && !asWritten && r == Sat && NoZero(s0) ==> SSatisfiable(s0)
    ensures !stop ==> {} !in next && (!asWritten ==> Equisatisfiable(s0, next))
    ensures asWritten && (forall c :: c in clauses ==> |c| > 5) ==> stop && r == Sat
  {
    next := clauses;
    var round := ResolutionRound(clauses, asWritten);
    match round {
      case EmptyResolvent =>
        if !asWritten && NoZero(s0) {
          forall a | SSatisfies(a, clauses) ensures SClauseSat(a, {}) {
            DerivedImplied(a, clauses, {});
          }
        }
        return true, Unsat, next;
      case Resolvents(added, complete) =>
        if added == {} {
          if asWritten || complete {
            if !asWritten && NoZero(s0) {
              ClosedSatisfiable(clauses);
            }
            return true, Sat, next;
          }
          return true, Unknown, next;
        }
        if !asWritten && NoZero(s0) {
          AddResolvents(clauses, added);
        }
        next := ResolutionSimplify(clauses + added);
        if {} in next {
          if !asWritten && NoZero(s0) {
            EmptyClauseUnsat(next);
          }
          return true, Unsat, next;
        }
        if !asWritten && NoZero(s0) {
          SimplifiedNoZero(clauses + added, next);
        }
        stop, r := false, Unknown;
    }
  }

  /**
   * `resolution(cnf)` (main.py:102-153), with the resolvent and the final
   * answer as written when `asWritten` holds and corrected otherwise.  The
   * clock is the parameter `deadline`: the iterations numbered up to it
   * start within the time limit, later ones find it exceeded.  Corrected,
   * False means unsatisfiable and True satisfiable (True is only answered
   * when the last round left no clashing pair out); as written, a formula
   * whose clauses all have more than 5 literals is answered True after one
   * round, whatever it is.
   */
  method ResolutionRun(cnf: Formula, deadline: nat, asWritten: bool) returns (r: Answer)
    ensures !asWritten && r == Unsat && NoZero(ToSets(cnf)) ==> !Satisfiable(cnf)
    ensures !asWritten && r == Sat && NoZero(ToSets(cnf)) ==> Satisfiable(cnf)
    ensures [] in cnf ==> r == Unsat
    ensures cnf == [] ==> r == Sat
    ensures asWritten && OnlyLongClauses(cnf) && 1 <= deadline && |ToSets(cnf)| <= 50000 ==> r == Sat
  {
    var clauses := ToSets(cnf);
    ToSetsSatisfiable(cnf);
    if {} in clauses {
      if NoZero(clauses) {
        EmptyClauseUnsat(clauses);
      }
      return Unsat;
    }
    if clauses == {} {
      assert cnf == [] by {
        if cnf != [] {
          ToSetsNonEmpty(cnf);
        }
      }
      assert SSatisfies(map[], clauses);
      return Sat;
    }
    assert [] in cnf ==> SetOf([]) in clauses;
    ghost var allLong := asWritten && OnlyLongClauses(cnf) && 1 <= deadline && |clauses| <= 50000;
    var iteration := 0;
    while true
      invariant 0 <= iteration <= 5000
      invariant {} !in clauses
      invariant !asWritten ==> Equisatisfiable(ToSets(cnf), clauses)
      invariant allLong ==> iteration == 0 && clauses == ToSets(cnf)
      decreases 5000 - iteration
    {
      iteration := iteration + 1;
      if iteration > deadline {
        return Unknown;
      }
      if iteration > 5000 || |clauses| > 50000 {
        return Unknown;
      }
      var stop;
      stop, r, clauses := ResolutionStep(ToSets(cnf), clauses, asWritten);
      if stop {
        return;
      }
    }
  }

  /** `resolution` as main.py writes it. */
  method ResolutionAsWritten(cnf: Formula, deadline: nat) returns (r: Answer)
    ensures [] in cnf ==> r == Unsat
    ensures cnf == [] ==> r == Sat
    ensures OnlyLongClauses(cnf) && 1 <= deadline && |ToSets(cnf)| <= 50000 ==> r == Sat
  {
    r := ResolutionRun(cnf, deadline, true);
  }

  /** `resolution` with the resolvent and the final True corrected: its answers are sound. */
  method Resolution(cnf: Formula, deadline: nat) returns (r: Answer)
    ensures r == Unsat && NoZero(ToSets(cnf)) ==> !Satisfiable(cnf)
    ensures r == Sat && NoZero(ToSets(cnf)) ==> Satisfiable(cnf)
    ensures [] in cnf ==> r == Unsat
    ensures cnf == [] ==> r == Sat
  {
    r := ResolutionRun(cnf, deadline, false);
  }

  // ----- a formula the skipped pairs misjudge -----

  /** Every clause of `g` with `l` appended. */
  function AppendAll(g: Formula, l: Literal): (r: Formula)
    ensures |r| == |g| && forall i :: 0 <= i < |g| ==> r[i] == g[i] + [l]
  {
    seq(|g|, i requires 0 <= i < |g| => g[i] + [l])
  }

  /** All 2^n clauses over the variables 1..n, each variable once with either sign, in order. */
  function Full(n: nat): Formula
  {
    if n == 0 then [[]]
    else
      var v: Literal := n;
      AppendAll(Full(n - 1), v) + AppendAll(Full(n - 1), -v)
  }

  function Pow2(n: nat): nat
  {
    if n == 0 then 1 else 2 * Pow2(n - 1)
  }

  /** `Full(n)` has 2^n clauses, at least one. */
  lemma {:induction false} FullLength(n: nat)
    ensures |Full(n)| == Pow2(n) && Pow2(n) >= 1
  {
    if n > 0 {
      FullLength(n - 1);
    }
  }

  /** Clause k of `Full(n)` is clause k of `Full(n - 1)` extended by `n`, and the second half by `-n`. */
  lemma FullAt(n: nat, k: nat)
    requires n > 0 && k < |Full(n - 1)|
    ensures |Full(n)| == 2 * |Full(n - 1)|
    ensures Full(n)[k] == Full(n - 1)[k] + [n as int]
    ensures Full(n)[|Full(n - 1)| + k] == Full(n - 1)[k] + [-(n as int)]
  {
    var g := Full(n - 1);
    var v: Literal := n;
    assert Full(n) == AppendAll(g, v) + AppendAll(g, -v);
  }

  /** Literal i of `c` is on variable i+1, for each of its `n` literals. */
  predicate Shaped(c: Clause, n: nat)
  {
    |c| == n && forall i :: 0 <= i < n ==> Var(c[i]) == i + 1
  }

  lemma ShapedAppend(c: Clause, n: nat, l: Literal)
    requires Shaped(c, n) && Var(l) == n + 1
    ensures Shaped(c + [l], n + 1)
  {
    assert forall i :: 0 <= i < n ==> (c + [l])[i] == c[i];
  }

  /** Every clause of `Full(n)` is shaped. */
  lemma {:induction false} FullShape(n: nat)
    ensures forall k :: 0 <= k < |Full(n)| ==> Shaped(Full(n)[k], n)
  {
    if n > 0 {
      FullShape(n - 1);
      var g := Full(n - 1);
      forall k | 0 <= k < |Full(n)| ensures Shaped(Full(n)[k], n) {
        var v: Literal := n;
        if k < |g| {
          FullAt(n, k);
          ShapedAppend(g[k], n - 1, v);
        } else {
          FullAt(n, k - |g|);
          ShapedAppend(g[k - |g|], n - 1, -v);
        }
      }
    }
  }

  /** A clause with one more literal holds iff the clause or the literal does. */
  lemma ClauseSatAppend(a: Assignment, c: Clause, l: Literal)
    ensures ClauseSat(a, c + [l]) <==> ClauseSat(a, c) || LitTrue(a, l)
  {
    assert forall m :: m in c + [l] <==> m in c || m == l;
  }

  /** A clause of `Full(n - 1)` that fails extends to a clause of `Full(n)` that fails. */
  lemma FullFalsifiedStep(a: Assignment, n: nat, k: nat)
    requires n > 0 && k < |Full(n - 1)| && !ClauseSat(a, Full(n - 1)[k])
    ensures exists j :: 0 <= j < |Full(n)| && !ClauseSat(a, Full(n)[j])
  {
    var g := Full(n - 1);
    var v: Literal := n;
    FullAt(n, k);
    var l: Literal := if v in a && a[v] then -v else v;
    var j := if v in a && a[v] then |g| + k else k;
    assert Full(n)[j] == g[k] + [l];
    ClauseSatAppend(a, g[k], l);
  }

  /** `Full(0)` is the empty clause alone, which no assignment satisfies. */
  lemma FullZero(a: Assignment)
    ensures |Full(0)| == 1 && !ClauseSat(a, Full(0)[0])
  {
    assert Full(0) == [[]];
  }

  /** Every assignment falsifies one clause of `Full(n)`: it is unsatisfiable. */
  lemma {:induction false} FullFalsified(a: Assignment, n: nat)
    ensures exists k :: 0 <= k < |Full(n)| && !ClauseSat(a, Full(n)[k])
  {
    if n == 0 {
      FullZero(a);
    } else {
      FullFalsified(a, n - 1);
      var k :| 0 <= k < |Full(n - 1)| && !ClauseSat(a, Full(n - 1)[k]);
      FullFalsifiedStep(a, n, k);
    }
  }

  /** Reading a list of clauses as a set never adds clauses. */
  lemma {:induction false} ToSetsCard(f: Formula)
    ensures |ToSets(f)| <= |f|
  {
    if f != [] {
      var init := f[..|f| - 1];
      ToSetsCard(init);
      assert ToSets(f) == ToSets(init) + {SetOf(f[|f| - 1])};
    }
  }

  /**
   * `Full(n)` for 6 <= n with 2^n <= 50000 (`Full(6)`: 64 clauses of 6
   * literals each): it has no model, yet every pair of its clauses is
   * skipped, so `ResolutionAsWritten` answers True on it.
   */
  lemma FullMisjudged(n: nat)
    requires 6 <= n && Pow2(n) <= 50000
    ensures OnlyLongClauses(Full(n)) && |ToSets(Full(n))| <= 50000 && NoZero(ToSets(Full(n)))
    ensures !Satisfiable(Full(n))
  {
    var f := Full(n);
    FullShape(n);
    FullLength(n);
    ToSetsCard(f);
    forall c | c in f ensures |SetOf(c)| > 5 && 0 !in c {
      var k :| 0 <= k < |f| && f[k] == c;
      DistinctSetOf(c);
    }
    forall a ensures !Satisfies(a, f) {
      FullFalsified(a, n);
      var k :| 0 <= k < |f| && !ClauseSat(a, f[k]);
      assert f[k] in f;
    }
  }
}
