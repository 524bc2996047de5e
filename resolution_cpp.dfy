/**
 * The procedure of resolution.cpp: unbounded resolution saturation over
 * clauses that are ordered sets of literal strings ("x" or "-x").  A pass
 * resolves every pair of clauses (i < j) on the first clashing literal of
 * the earlier clause, fails the moment a resolvent is empty, and otherwise
 * appends the resolvents it has not seen; a pass that appends nothing
 * answers true.
 */
module ResolutionCpp {

  type Clause = set<string>

  /** A literal string is negative when it starts with '-'. */
  predicate Negative(lit: string)
  {
    |lit| > 0 && lit[0] == '-'
  }

  /** The complement the source builds: strip one leading '-', or prepend one. */
  function Neg(lit: string): (r: string)
    ensures Negative(lit) ==> r == lit[1..] && |r| + 1 == |lit|
    ensures !Negative(lit) ==> Negative(r) && r[1..] == lit
  {
    if Negative(lit) then lit[1..] else "-" + lit
  }

  /** Literals of the shape a DIMACS reader produces: at most one leading '-'. */
  predicate WfLit(lit: string)
  {
    !(|lit| >= 2 && lit[0] == '-' && lit[1] == '-')
  }

  predicate WfClauses(cs: seq<Clause>)
  {
    forall c, lit :: c in cs && lit in c ==> WfLit(lit)
  }

  /** On well-formed literals the complement is an involution. */
  lemma NegInvolutive(lit: string)
    requires WfLit(lit)
    ensures Neg(Neg(lit)) == lit
  {
    if !Negative(lit) {
      assert ("-" + lit)[1..] == lit;
    }
  }

  /** With two leading '-' it is not: "--x" complements to "-x", which complements to "x". */
  lemma NegNotInvolutive()
    ensures Neg(Neg("--x")) == "x"
  {
    assert Neg("--x") == "-x";
  }

  /** Order of `std::set<std::string>`: lexicographic, a proper prefix first. */
  predicate StrLe(a: string, b: string)
  {
    a == [] || (b != [] && (a[0] < b[0] || (a[0] == b[0] && StrLe(a[1..], b[1..]))))
  }

  lemma {:induction false} StrLeTotal(a: string, b: string)
    ensures StrLe(a, b) || StrLe(b, a)
  {
    if a != [] && b != [] && a[0] == b[0] {
      StrLeTotal(a[1..], b[1..]);
    }
  }

  lemma {:induction false} StrLeAntisymmetric(a: string, b: string)
    requires StrLe(a, b) && StrLe(b, a)
    ensures a == b
  {
    if a != [] && b != [] {
      StrLeAntisymmetric(a[1..], b[1..]);
      assert a == [a[0]] + a[1..] && b == [b[0]] + b[1..];
    }
  }

  lemma {:induction false} StrLeTransitive(a: string, b: string, c: string)
    requires StrLe(a, b) && StrLe(b, c)
    ensures StrLe(a, c)
  {
    if a != [] && b != [] && c != [] && a[0] == b[0] && b[0] == c[0] {
      StrLeTransitive(a[1..], b[1..], c[1..]);
    }
  }

  predicate Least(lit: string, s: set<string>)
  {
    lit in s && forall x :: x in s ==> StrLe(lit, x)
  }

  /** Every non-empty set of strings has a least element, and only one. */
  lemma {:induction false} LeastExists(s: set<string>)
    requires s != {}
    ensures exists m :: Least(m, s)
    ensures forall m, n :: Least(m, s) && Least(n, s) ==> m == n
    decreases |s|
  {
    var x :| x in s;
    var rest := s - {x};
    if rest == {} {
      assert s == {x};
      assert Least(x, s) by { assert StrLe(x, x) by { StrLeTotal(x, x); } }
    } else {
      LeastExists(rest);
      var m :| Least(m, rest);
      StrLeTotal(m, x);
      if StrLe(m, x) {
        assert Least(m, s);
      } else {
        forall y | y in s ensures StrLe(x, y) {
          if y != x {
            StrLeTransitive(x, m, y);
          } else {
            StrLeTotal(x, x);
          }
        }
        assert Least(x, s);
      }
    }
    forall m, n | Least(m, s) && Least(n, s) ensures m == n {
      StrLeAntisymmetric(m, n);
    }
  }

  /** The literals of `c1` whose complement is in `c2`. */
  function Clashes(c1: Clause, c2: Clause): (r: set<string>)
    ensures forall lit :: lit in r <==> lit in c1 && Neg(lit) in c2
  {
    set lit | lit in c1 && Neg(lit) in c2
  }

  function Resolvent(c1: Clause, c2: Clause, lit: string): (r: Clause)
    ensures r <= c1 + c2
    ensures forall l :: l in r <==> (l in c1 && l != lit) || (l in c2 && l != Neg(lit))
  {
    (c1 - {lit}) + (c2 - {Neg(lit)})
  }

  /** `r` is the resolvent of `c1` and `c2` on the least clashing literal of `c1`. */
  ghost predicate ResolvesTo(c1: Clause, c2: Clause, r: Clause)
  {
    exists lit :: Least(lit, Clashes(c1, c2)) && r == Resolvent(c1, c2, lit)
  }

  /** `areEqual`: set equality, literal by literal. */
  function AreEqual(a: Clause, b: Clause): (r: bool)
    ensures r <==> forall l :: l in a <==> l in b
  {
    a == b
  }

  /**
   * `resolveClauses(c1, c2, resolvent)`: visits the literals of `c1` in set
   * order and resolves on the first one whose complement is in `c2`; when
   * there is none the out-parameter keeps its old value.
   */
  method ResolveClauses(c1: Clause, c2: Clause, resolvent: Clause) returns (ok: bool, resolvent': Clause)
    ensures ok <==> Clashes(c1, c2) != {}
    ensures ok ==> ResolvesTo(c1, c2, resolvent')
    ensures !ok ==> resolvent' == resolvent
  {
    var remaining := c1;
    while remaining != {}
      invariant remaining <= c1
      invariant forall x, y :: x in c1 - remaining && y in remaining ==> StrLe(x, y)
      invariant forall x :: x in c1 - remaining ==> Neg(x) !in c2
      decreases remaining
    {
      LeastExists(remaining);
      var lit :| lit in remaining && forall x :: x in remaining ==> StrLe(lit, x);
      var neg := Neg(lit);
      if neg in c2 {
        resolvent' := (c1 - {lit}) + (c2 - {neg});
        assert Least(lit, Clashes(c1, c2));
        return true, resolvent';
      }
      remaining := remaining - {lit};
    }
    assert Clashes(c1, c2) == {};
    return false, resolvent;
  }

  /** The membership scan of `resolutionSAT`: it does not stop at the first match. */
  method Contains(clauses: seq<Clause>, r: Clause) returns (found: bool)
    ensures found <==> r in clauses
  {
    found := false;
    var k := 0;
    while k < |clauses|
      invariant 0 <= k <= |clauses|
      invariant found <==> r in clauses[..k]
    {
      if AreEqual(clauses[k], r) {
        found := true;
      }
      assert clauses[..k + 1] == clauses[..k] + [clauses[k]];
      k := k + 1;
    }
    assert clauses[..k] == clauses;
  }

  // ---------------------------------------------------------------------
  // Meaning of a clause list: a set of true atoms; "-x" holds when x is not true.

  predicate LitHolds(t: set<string>, lit: string)
  {
    if Negative(lit) then lit[1..] !in t else lit in t
  }

  predicate ClauseHolds(t: set<string>, c: Clause)
  {
    exists lit :: lit in c && LitHolds(t, lit)
  }

  predicate Models(t: set<string>, cs: seq<Clause>)
  {
    forall c :: c in cs ==> ClauseHolds(t, c)
  }

  ghost predicate SatisfiableS(cs: seq<Clause>)
  {
    exists t :: Models(t, cs)
  }

  /** Every model of `cs` makes `c` true. */
  ghost predicate Entailed(cs: seq<Clause>, c: Clause)
  {
    forall t :: Models(t, cs) ==> ClauseHolds(t, c)
  }

  /** On a well-formed literal, the complement holds exactly when the literal does not. */
  lemma NegComplement(t: set<string>, lit: string)
    requires WfLit(lit)
    ensures LitHolds(t, Neg(lit)) <==> !LitHolds(t, lit)
  {
    if !Negative(lit) {
      assert Neg(lit)[1..] == lit;
    }
  }

  /** A resolvent is entailed by whatever entails both parents. */
  lemma ResolventEntailed(cs: seq<Clause>, c1: Clause, c2: Clause, lit: string)
    requires Entailed(cs, c1) && Entailed(cs, c2)
    requires lit in c1 && Neg(lit) in c2 && WfLit(lit)
    ensures Entailed(cs, Resolvent(c1, c2, lit))
  {
    forall t | Models(t, cs) ensures ClauseHolds(t, Resolvent(c1, c2, lit)) {
      NegComplement(t, lit);
      var l1 :| l1 in c1 && LitHolds(t, l1);
      var l2 :| l2 in c2 && LitHolds(t, l2);
      if l1 != lit {
        assert l1 in Resolvent(c1, c2, lit);
      } else {
        assert l2 in Resolvent(c1, c2, lit);
      }
    }
  }

  lemma EmptyEntailedUnsat(cs: seq<Clause>)
    requires Entailed(cs, {})
    ensures !SatisfiableS(cs)
  {
  }

  /** All clauses drawn from the literal universe `u`. */
  ghost function Subsets(u: set<string>): (r: set<Clause>)
    ensures forall x :: x in r <==> x <= u
    decreases |u|
  {
    if u == {} then
      assert forall x: Clause :: x <= u ==> x == {};
      {{}}
    else
      var e :| e in u;
      var p := Subsets(u - {e});
      SubsetsStep(u, e, p);
      p + set x | x in p :: x + {e}
  }

  lemma SubsetsStep(u: set<string>, e: string, p: set<Clause>)
    requires e in u
    requires forall x :: x in p <==> x <= u - {e}
    ensures forall x :: x in p + (set y | y in p :: y + {e}) <==> x <= u
  {
    forall x | x <= u ensures x in p + (set y | y in p :: y + {e}) {
      if e in x {
        assert x - {e} in p;
        assert x == (x - {e}) + {e};
      }
    }
  }

  /** The literals of a clause list. */
  ghost function Lits(cs: seq<Clause>): (r: set<string>)
    ensures forall c :: c in cs ==> c <= r
  {
    set c, lit | c in cs && lit in c :: lit
  }

  /** The facts a pair of clauses passes on to its resolvent. */
  lemma PairStep(input: seq<Clause>, c1: Clause, c2: Clause, r: Clause)
    requires c1 <= Lits(input) && c2 <= Lits(input)
    requires WfClauses(input) ==> Entailed(input, c1) && Entailed(input, c2)
    requires ResolvesTo(c1, c2, r)
    ensures r <= Lits(input)
    ensures WfClauses(input) ==> Entailed(input, r)
  {
    var lit :| Least(lit, Clashes(c1, c2)) && r == Resolvent(c1, c2, lit);
    if WfClauses(input) {
      assert lit in Lits(input);
      ResolventEntailed(input, c1, c2, lit);
    }
  }

  /** No pass of the saturation loop can add anything to `cs`. */
  ghost predicate Saturated(cs: seq<Clause>)
  {
    forall i, j, r {:trigger ResolvesTo(cs[i], cs[j], r)} :: 0 <= i < j < |cs| && ResolvesTo(cs[i], cs[j], r) ==> r != {} && r in cs
  }

  /**
   * Every pair (p, q) the pass has visited before (i, j) has a non-empty
   * resolvent, if any, in `cs` or among the new clauses `nc`.
   */
  ghost predicate Covered(cs: seq<Clause>, nc: seq<Clause>, i: int, j: int)
  {
    forall p, q, r {:trigger ResolvesTo(cs[p], cs[q], r)} :: 0 <= p < q < |cs| && (p < i || (p == i && q < j)) && ResolvesTo(cs[p], cs[q], r) ==>
      r != {} && (r in cs || r in nc)
  }

  /** Every clause of `cs` uses only literals of `u`, and (for well-formed input) follows from it. */
  ghost predicate Derived(input: seq<Clause>, u: set<string>, cs: seq<Clause>)
  {
    forall c :: c in cs ==> c <= u && (WfClauses(input) ==> Entailed(input, c))
  }

  lemma CoveredPair(cs: seq<Clause>, nc: seq<Clause>, i: int, j: int)
    requires 0 <= i < j < |cs| && Covered(cs, nc, i, j)
    requires forall r :: ResolvesTo(cs[i], cs[j], r) ==> r != {} && (r in cs || r in nc)
    ensures Covered(cs, nc, i, j + 1)
  {
    forall p, q, r | 0 <= p < q < |cs| && (p < i || (p == i && q < j + 1)) && ResolvesTo(cs[p], cs[q], r)
      ensures r != {} && (r in cs || r in nc)
    {
      if p == i && q == j {
      } else {
        assert p < i || (p == i && q < j);
      }
    }
  }

  lemma CoveredAppend(cs: seq<Clause>, nc: seq<Clause>, x: Clause, i: int, j: int)
    requires Covered(cs, nc, i, j)
    ensures Covered(cs, nc + [x], i, j)
  {
    forall p, q, r | 0 <= p < q < |cs| && (p < i || (p == i && q < j)) && ResolvesTo(cs[p], cs[q], r)
      ensures r != {} && (r in cs || r in nc + [x])
    {
      if r !in cs {
        assert r in nc;
      }
    }
  }

  lemma CoveredRow(cs: seq<Clause>, nc: seq<Clause>, i: int)
    requires 0 <= i < |cs| && Covered(cs, nc, i, |cs|)
    ensures Covered(cs, nc, i + 1, i + 2)
  {
    forall p, q, r | 0 <= p < q < |cs| && (p < i + 1 || (p == i + 1 && q < i + 2)) && ResolvesTo(cs[p], cs[q], r)
      ensures r != {} && (r in cs || r in nc)
    {
      assert p < i || (p == i && q < |cs|);
    }
  }

  lemma CoveredSaturated(cs: seq<Clause>)
    requires Covered(cs, [], |cs|, |cs|)
    ensures Saturated(cs)
  {
    forall i, j, r | 0 <= i < j < |cs| && ResolvesTo(cs[i], cs[j], r) ensures r != {} && r in cs {
      assert i < |cs|;
    }
  }

  /** The set of clauses of `cs` outside `Subsets(u)` shrinks when new clauses over `u` are appended. */
  lemma MeasureShrinks(u: set<string>, cs: seq<Clause>, nc: seq<Clause>)
    requires forall c :: c in cs ==> c <= u
    requires nc != [] && forall c :: c in nc ==> c !in cs && c <= u
    ensures (Subsets(u) - set c | c in cs + nc) < (Subsets(u) - set c | c in cs)
  {
    assert nc[0] in Subsets(u) - set c | c in cs;
    assert nc[0] in cs + nc;
  }

  /** What one visited pair contributes, in the three cases of the inner loop body. */
  lemma PairDone(input: seq<Clause>, u: set<string>, cs: seq<Clause>, nc: seq<Clause>, i: int, j: int,
                 ok: bool, r: Clause, nc': seq<Clause>)
    requires 0 <= i < j < |cs| && Covered(cs, nc, i, j)
    requires ok <==> Clashes(cs[i], cs[j]) != {}
    requires ok ==> ResolvesTo(cs[i], cs[j], r) && r != {}
    requires nc' == if ok && r !in cs then nc + [r] else nc
    ensures Covered(cs, nc', i, j + 1)
  {
    ResolvesToUnique(cs[i], cs[j]);
    if nc' != nc {
      CoveredAppend(cs, nc, r, i, j);
    }
    CoveredPair(cs, nc', i, j);
  }

  /**
   * `resolutionSAT(clauses)`: false means an empty resolvent was derived,
   * so (for well-formed literals) the input has no model; true means the
   * final clause list, which starts with the input, is saturated.
   */
  method ResolutionSat(input: seq<Clause>) returns (sat: bool, ghost final: seq<Clause>)
    ensures !sat && WfClauses(input) ==> !SatisfiableS(input)
    ensures sat ==> input <= final && Saturated(final)
    ensures sat ==> forall c :: c in final ==> c <= Lits(input)
    ensures sat && WfClauses(input) && {} !in input ==> SatisfiableS(input)
    ensures |input| <= 1 ==> sat
  {
    var clauses := input;
    ghost var u := Lits(input);
    assert Derived(input, u, clauses);
    while true
      invariant input <= clauses
      invariant Derived(input, u, clauses)
      invariant {} in clauses ==> {} in input
      invariant |input| <= 1 ==> clauses == input
      decreases Subsets(u) - set c | c in clauses
    {
      var newClauses: seq<Clause> := [];
      var i := 0;
      while i < |clauses|
        invariant 0 <= i <= |clauses|
        invariant Derived(input, u, newClauses)
        invariant forall c :: c in newClauses ==> c !in clauses
        invariant Covered(clauses, newClauses, i, i + 1)
        invariant {} !in newClauses
        invariant |clauses| <= 1 ==> newClauses == []
      {
        var j := i + 1;
        while j < |clauses|
          invariant i + 1 <= j <= |clauses|
          invariant Derived(input, u, newClauses)
          invariant forall c :: c in newClauses ==> c !in clauses
          invariant Covered(clauses, newClauses, i, j)
          invariant {} !in newClauses
          invariant |clauses| <= 1 ==> newClauses == []
        {
          var ok, resolvent := ResolveClauses(clauses[i], clauses[j], {});
          ghost var before := newClauses;
          if ok {
            PairStep(input, clauses[i], clauses[j], resolvent);
            if resolvent == {} {
              if WfClauses(input) {
                EmptyEntailedUnsat(input);
              }
              return false, clauses;
            }
            var present := Contains(clauses, resolvent);
            if !present {
              newClauses := newClauses + [resolvent];
            }
          }
          PairDone(input, u, clauses, before, i, j, ok, resolvent, newClauses);
          j := j + 1;
        }
        CoveredRow(clauses, newClauses, i);
        i := i + 1;
      }
      if newClauses == [] {
        CoveredSaturated(clauses);
        if WfClauses(input) && {} !in input {
          SaturatedInput(input, clauses);
        }
        return true, clauses;
      }
      MeasureShrinks(u, clauses, newClauses);
      clauses := clauses + newClauses;
    }
  }

  // ---------------------------------------------------------------------
  // Completeness: a saturated list without the empty clause has a model.

  /** The atom of a literal: the string without its leading '-'. */
  function Atom(lit: string): (r: string)
    ensures WfLit(lit) ==> !Negative(r)
  {
    if Negative(lit) then lit[1..] else lit
  }

  /** Two well-formed literals on the same atom are equal or complementary. */
  lemma SameAtom(l: string, m: string)
    requires WfLit(l) && WfLit(m) && Atom(l) == Atom(m)
    ensures l == m || m == Neg(l)
  {
    if Negative(l) && Negative(m) {
      assert l == [l[0]] + l[1..] && m == [m[0]] + m[1..];
    } else if !Negative(l) && Negative(m) {
      assert m == [m[0]] + m[1..];
    }
  }

  /** A literal holds exactly when its atom's truth matches its sign. */
  lemma HoldsByAtom(t: set<string>, lit: string)
    ensures LitHolds(t, lit) <==> (Atom(lit) in t) != Negative(lit)
  {
  }

  /** Every literal of `c` is on an atom of `d`. */
  predicate Over(c: Clause, d: set<string>)
  {
    forall l :: l in c ==> Atom(l) in d
  }

  /** A non-empty clause has a literal on some atom. */
  lemma OverNothing(c: Clause)
    requires c != {}
    ensures !Over(c, {})
  {
    var l :| l in c;
    assert Atom(l) !in {};
  }

  /** `t` makes true every clause of `cs` whose atoms all lie in `d`. */
  ghost predicate ModelsOver(t: set<string>, cs: seq<Clause>, d: set<string>)
  {
    forall c :: c in cs && Over(c, d) ==> ClauseHolds(t, c)
  }

  /** Changing the truth of atom `x` keeps every literal on another atom. */
  lemma OtherAtom(t: set<string>, x: string, lit: string)
    requires Atom(lit) != x
    ensures LitHolds(t + {x}, lit) == LitHolds(t, lit) == LitHolds(t - {x}, lit)
  {
    HoldsByAtom(t, lit);
    HoldsByAtom(t + {x}, lit);
    HoldsByAtom(t - {x}, lit);
  }

  /**
   * A clause holding atom `x` positively (and not negatively) holds once
   * `x` is made false, when a clause holding "-x" fails once `x` is made
   * true: either the two clash on another literal, which the first clause
   * then makes true, or their only resolvent is in the saturated list,
   * lies below `x`, and can only be made true through the first clause.
   */
  lemma ResolveOnAtom(cs: seq<Clause>, d: set<string>, t: set<string>, x: string, c: Clause, c1: Clause)
    requires WfClauses(cs) && Saturated(cs) && ModelsOver(t, cs, d - {x})
    requires !Negative(x) && x in c && Neg(x) !in c && c in cs && Over(c, d)
    requires c1 in cs && Over(c1, d) && Neg(x) in c1 && !ClauseHolds(t + {x}, c1)
    ensures ClauseHolds(t - {x}, c)
  {
    var t1 := t + {x};
    var t0 := t - {x};
    assert Neg(Neg(x)) == x by { NegInvolutive(x); }
    assert x !in c1 by { assert LitHolds(t1, x); }
    if y :| y in c && Neg(y) in c1 && y != x {
      assert WfLit(y) && WfLit(Neg(y));
      NegComplement(t1, y);
      assert !LitHolds(t1, Neg(y));
      assert Atom(y) != x by {
        if Atom(y) == x { SameAtom(x, y); }
      }
      OtherAtom(t, x, y);
    } else {
      var r := Resolvent(c, c1, x);
      var i :| 0 <= i < |cs| && cs[i] == c;
      var j :| 0 <= j < |cs| && cs[j] == c1;
      if i < j {
        assert Clashes(c, c1) == {x};
        assert Least(x, {x}) by { StrLeTotal(x, x); }
        assert ResolvesTo(cs[i], cs[j], r);
      } else {
        assert i != j;
        forall z | z in c1 && Neg(z) in c ensures z == Neg(x) {
          assert WfLit(z);
          NegInvolutive(z);
          assert Neg(z) == x;
        }
        assert Clashes(c1, c) == {Neg(x)};
        assert Least(Neg(x), {Neg(x)}) by { StrLeTotal(Neg(x), Neg(x)); }
        assert Resolvent(c1, c, Neg(x)) == r;
        assert ResolvesTo(cs[j], cs[i], r);
      }
      assert r in cs;
      forall l | l in r ensures Atom(l) in d - {x} {
        assert WfLit(l);
        if Atom(l) == x { SameAtom(x, l); }
      }
      var l :| l in r && LitHolds(t, l);
      assert Atom(l) != x by {
        assert WfLit(l);
        if Atom(l) == x { SameAtom(x, l); }
      }
      OtherAtom(t, x, l);
      assert l in c;
    }
  }

  /** One more atom: making it true or making it false keeps every clause over the decided atoms true. */
  lemma ModelsOverStep(cs: seq<Clause>, d: set<string>, t: set<string>, x: string)
    requires WfClauses(cs) && Saturated(cs) && x in d && !Negative(x) && ModelsOver(t, cs, d - {x})
    ensures ModelsOver(t + {x}, cs, d) || ModelsOver(t - {x}, cs, d)
  {
    if !ModelsOver(t + {x}, cs, d) {
      var c1 :| c1 in cs && Over(c1, d) && !ClauseHolds(t + {x}, c1);
      assert Neg(x) in c1 by {
        if forall l :: l in c1 ==> Atom(l) != x {
          assert Over(c1, d - {x});
          var l :| l in c1 && LitHolds(t, l);
          OtherAtom(t, x, l);
        } else {
          var l :| l in c1 && Atom(l) == x;
          SameAtom(x, l);
          assert l != x;
        }
      }
      forall c | c in cs && Over(c, d) ensures ClauseHolds(t - {x}, c) {
        if Neg(x) in c {
          assert LitHolds(t - {x}, Neg(x));
        } else if x in c {
          ResolveOnAtom(cs, d, t, x, c, c1);
        } else {
          forall l | l in c ensures Atom(l) in d - {x} {
            assert WfLit(l);
            if Atom(l) == x { SameAtom(x, l); }
          }
          var l :| l in c && LitHolds(t, l);
          assert Atom(l) != x;
          OtherAtom(t, x, l);
        }
      }
    }
  }

  /** Some choice of true atoms makes every clause over the atoms `d` true. */
  lemma {:induction false} ModelsOverExists(cs: seq<Clause>, d: set<string>)
    requires WfClauses(cs) && Saturated(cs) && {} !in cs
    requires forall x :: x in d ==> !Negative(x)
    ensures exists t :: ModelsOver(t, cs, d)
    decreases |d|
  {
    if d == {} {
      forall c | c in cs ensures !Over(c, d) {
        OverNothing(c);
      }
      assert ModelsOver({}, cs, d);
    } else {
      var x :| x in d;
      ModelsOverExists(cs, d - {x});
      var t :| ModelsOver(t, cs, d - {x});
      ModelsOverStep(cs, d, t, x);
    }
  }

  /**
   * Completeness of the C++ saturation: a saturated list of well-formed
   * clauses without the empty clause has a model.
   */
  lemma SaturatedSatisfiable(cs: seq<Clause>)
    requires WfClauses(cs) && Saturated(cs) && {} !in cs
    ensures SatisfiableS(cs)
  {
    var d := set c, l | c in cs && l in c :: Atom(l);
    ModelsOverExists(cs, d);
    var t :| ModelsOver(t, cs, d);
    assert Models(t, cs);
  }

  /**
   * A saturated list that starts with a well-formed input, adds only
   * clauses over the input's literals and holds no empty clause has a model,
   * and so has the input.
   */
  lemma SaturatedInput(input: seq<Clause>, final: seq<Clause>)
    requires WfClauses(input) && input <= final && Saturated(final) && {} !in final
    requires forall c :: c in final ==> c <= Lits(input)
    ensures SatisfiableS(input)
  {
    forall c, lit | c in final && lit in c ensures WfLit(lit) {
      assert lit in Lits(input);
      var c0 :| c0 in input && lit in c0;
    }
    SaturatedSatisfiable(final);
    var t :| Models(t, final);
    forall c | c in input ensures ClauseHolds(t, c) {
      var k :| 0 <= k < |input| && input[k] == c;
      assert final[k] == c;
    }
    assert Models(t, input);
  }

  /** A pair has at most one resolvent, and has one exactly when some literal clashes. */
  lemma ResolvesToUnique(c1: Clause, c2: Clause)
    ensures forall r, s :: ResolvesTo(c1, c2, r) && ResolvesTo(c1, c2, s) ==> r == s
    ensures Clashes(c1, c2) == {} ==> forall r :: !ResolvesTo(c1, c2, r)
  {
    if Clashes(c1, c2) != {} {
      LeastExists(Clashes(c1, c2));
    }
  }
}
