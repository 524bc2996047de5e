/**
 * The split-and-simplify decision procedure of dp.cpp: a formula is
 * satisfiable when it is empty, unsatisfiable when it has an empty clause,
 * and otherwise satisfiable iff one of the two formulas obtained by fixing
 * the first literal of the first non-empty clause is.  The procedure writes
 * its choices into a model map passed by reference; here that map is an
 * in/out value.  The global symbol table that turns input tokens into
 * literal ids is the class SymbolTable.
 */
module DpCpp {
  import opened Cnf

  /** `isSatisfied`: only the empty formula counts as solved. */
  function IsSatisfied(f: Formula): (r: bool)
    ensures r <==> f == []
    ensures r ==> forall a: Assignment :: Satisfies(a, f)
  {
    |f| == 0
  }

  /** `hasEmptyClause`: a scan for a clause with no literals. */
  function HasEmptyClause(f: Formula): (r: bool)
    ensures r <==> [] in f
  {
    if f == [] then false
    else if f[0] == [] then true
    else
      var r := HasEmptyClause(f[1..]);
      assert f == [f[0]] + f[1..];
      r
  }

  /** A formula with an empty clause has no model. */
  lemma EmptyClauseUnsat(f: Formula)
    requires HasEmptyClause(f)
    ensures !Satisfiable(f)
  {
    forall a: Assignment ensures !Satisfies(a, f) {
      assert !ClauseSat(a, []);
    }
  }

  /** The clause `c` with every occurrence of `x` taken out, order kept. */
  function Without(c: Clause, x: Literal): (r: Clause)
    ensures forall y :: y in r <==> y in c && y != x
    ensures |r| <= |c|
    ensures x in c ==> |r| < |c|
  {
    if c == [] then []
    else (if c[0] == x then [] else [c[0]]) + Without(c[1..], x)
  }

  /**
   * `simplify(F, l)`: drop the clauses that contain `l` and remove `-l`
   * from the others.
   */
  function Simplify(f: Formula, l: Literal): (r: Formula)
    ensures |r| <= |f|
    ensures forall c :: c in r ==> l !in c && -l !in c
    ensures Occurrences(r) <= Occurrences(f)
  {
    if f == [] then []
    else
      var rest := Simplify(f[1..], l);
      if l in f[0] then rest
      else
        var r := [Without(f[0], -l)] + rest;
        assert r[0] == Without(f[0], -l) && r[1..] == rest;
        r
  }

  /** `chooseLiteral`: scans the clauses in order and returns the first literal met. */
  function ChooseLiteral(f: Formula): Literal
  {
    if f == [] then 0
    else if f[0] == [] then ChooseLiteral(f[1..])
    else f[0][0]
  }

  /** `chooseLiteral` returns 0 when every clause is empty, else the first literal of the first non-empty clause. */
  lemma {:induction false} ChooseLiteralFirst(f: Formula)
    ensures (forall i :: 0 <= i < |f| ==> f[i] == []) ==> ChooseLiteral(f) == 0
    ensures (exists i :: 0 <= i < |f| && f[i] != []) ==>
              exists i :: 0 <= i < |f| && f[i] != [] && f[i][0] == ChooseLiteral(f) &&
                          forall j :: 0 <= j < i ==> f[j] == []
  {
    if f != [] && f[0] == [] {
      ChooseLiteralFirst(f[1..]);
      assert forall i :: 1 <= i < |f| ==> f[i] == f[1..][i - 1];
      if exists i :: 0 <= i < |f| && f[i] != [] {
        var k :| 0 <= k < |f[1..]| && f[1..][k] != [] && f[1..][k][0] == ChooseLiteral(f[1..]) &&
                 forall j :: 0 <= j < k ==> f[1..][j] == [];
        assert f[k + 1] != [] && forall j :: 0 <= j < k + 1 ==> f[j] == [];
      }
    }
  }

  lemma {:induction false} OccurrencesPositive(f: Formula, c: Clause)
    requires c in f && c != []
    ensures Occurrences(f) > 0
  {
    if f[0] != c {
      assert c in f[1..];
      OccurrencesPositive(f[1..], c);
    }
  }

  /** Every clause of `simplify(f, l)` is a clause of `f` without `l`, with `-l` removed. */
  lemma {:induction false} SimplifyFrom(f: Formula, l: Literal, c: Clause)
    requires c in Simplify(f, l)
    ensures exists d :: d in f && l !in d && c == Without(d, -l)
  {
    var rest := Simplify(f[1..], l);
    if c in rest {
      SimplifyFrom(f[1..], l, c);
      var d :| d in f[1..] && l !in d && c == Without(d, -l);
      assert d in f;
    }
  }

  /** Every clause of `f` without `l` survives in `simplify(f, l)`, shortened by `-l`. */
  lemma {:induction false} SimplifyKeepsClause(f: Formula, l: Literal, d: Clause)
    requires d in f && l !in d
    ensures Without(d, -l) in Simplify(f, l)
  {
    if d != f[0] {
      assert d in f[1..];
      SimplifyKeepsClause(f[1..], l, d);
    }
  }

  /** Simplifying on a literal whose variable occurs strictly shrinks the formula. */
  lemma {:induction false} SimplifyShrinks(f: Formula, l: Literal)
    requires exists c :: c in f && (l in c || -l in c)
    ensures Occurrences(Simplify(f, l)) < Occurrences(f)
  {
    var rest := Simplify(f[1..], l);
    if l in f[0] || -l in f[0] {
      if l !in f[0] {
        var r := [Without(f[0], -l)] + rest;
        assert r[0] == Without(f[0], -l) && r[1..] == rest;
      }
    } else {
      var c :| c in f && (l in c || -l in c);
      assert c in f[1..];
      SimplifyShrinks(f[1..], l);
      var r := [Without(f[0], -l)] + rest;
      assert r[0] == Without(f[0], -l) && r[1..] == rest;
    }
  }

  /** After `simplify(F, l)` the variable of `l` no longer occurs. */
  lemma SimplifyDropsVar(f: Formula, l: Literal)
    ensures Vars(Simplify(f, l)) <= Vars(f) - {Var(l)}
  {
    var r := Simplify(f, l);
    forall v | v in Vars(r) ensures v in Vars(f) && v != Var(l) {
      var c, x :| c in r && x in c && v == Var(x);
      SimplifyFrom(f, l, c);
      var d :| d in f && l !in d && c == Without(d, -l);
      assert x in d;
    }
  }

  /** A model of the simplified formula that makes `l` true is a model of `f`. */
  lemma SimplifyLifts(a: Assignment, f: Formula, l: Literal)
    requires LitTrue(a, l) && Satisfies(a, Simplify(f, l))
    ensures Satisfies(a, f)
  {
    forall d | d in f ensures ClauseSat(a, d) {
      if l !in d {
        var c := Without(d, -l);
        SimplifyKeepsClause(f, l, d);
        assert ClauseSat(a, c);
        var x :| x in c && LitTrue(a, x);
        assert x in d;
      }
    }
  }

  lemma WithoutKeepsSat(a: Assignment, d: Clause, m: Literal)
    requires ClauseSat(a, d) && m !in d && (LitTrue(a, -m) ==> m == 0)
    ensures ClauseSat(a, Without(d, -m))
  {
    var x :| x in d && LitTrue(a, x);
    assert x in Without(d, -m);
  }

  /** A model of `f` in which `-m` is not true is a model of `simplify(f, m)`. */
  lemma SimplifyKeeps(a: Assignment, f: Formula, m: Literal)
    requires Satisfies(a, f) && (LitTrue(a, -m) ==> m == 0)
    ensures Satisfies(a, Simplify(f, m))
  {
    var r := Simplify(f, m);
    forall c | c in r ensures ClauseSat(a, c) {
      SimplifyFrom(f, m, c);
      var d :| d in f && m !in d && c == Without(d, -m);
      WithoutKeepsSat(a, d, m);
    }
  }

  /** A model of a branch extends, on the chosen variable, to a model of the formula. */
  lemma LiftBranch(f: Formula, m: Literal)
    requires Satisfiable(Simplify(f, m))
    ensures Satisfiable(f)
  {
    var a :| Satisfies(a, Simplify(f, m));
    SimplifyDropsVar(f, m);
    SatisfiesIgnoresOtherVars(a, Simplify(f, m), Var(m), m > 0);
    SimplifyLifts(a[Var(m) := m > 0], f, m);
  }

  /** A model of the formula is a model of one of the two branches. */
  lemma SomeBranchKeeps(a: Assignment, f: Formula, l: Literal)
    requires Satisfies(a, f)
    ensures Satisfies(a, Simplify(f, l)) || Satisfies(a, Simplify(f, -l))
  {
    if LitTrue(a, l) {
      SimplifyKeeps(a, f, l);
    } else {
      SimplifyKeeps(a, f, -l);
    }
  }

  /** If neither branch has a model, neither has the formula. */
  lemma BothBranchesUnsat(f: Formula, l: Literal)
    requires !Satisfiable(Simplify(f, l)) && !Satisfiable(Simplify(f, -l))
    ensures !Satisfiable(f)
  {
    forall a: Assignment ensures !Satisfies(a, f) {
      if Satisfies(a, f) {
        SomeBranchKeeps(a, f, l);
      }
    }
  }

  /** A formula is satisfiable exactly when one of its two branches on `l` is. */
  lemma SplitDecides(f: Formula, l: Literal)
    ensures Satisfiable(f) <==> Satisfiable(Simplify(f, l)) || Satisfiable(Simplify(f, -l))
  {
    if Satisfiable(Simplify(f, l)) {
      LiftBranch(f, l);
    } else if Satisfiable(Simplify(f, -l)) {
      LiftBranch(f, -l);
    } else {
      BothBranchesUnsat(f, l);
    }
  }

  /** The verdicts of the two branches on `l` combine into the verdict on `f`. */
  lemma SplitVerdict(f: Formula, l: Literal, satTrue: bool, satFalse: bool)
    requires satTrue <==> Satisfiable(Simplify(f, l))
    requires satFalse <==> Satisfiable(Simplify(f, -l))
    ensures satTrue || satFalse <==> Satisfiable(f)
    ensures !satTrue && satFalse ==> l != 0
  {
    SplitDecides(f, l);
  }

  /** `model'` differs from `model` only by entries for variables in `vs`. */
  predicate WritesOnly(model: Assignment, model': Assignment, vs: set<nat>)
  {
    && model.Keys <= model'.Keys <= model.Keys + vs
    && forall v :: v in model && v !in vs ==> model'[v] == model[v]
  }

  lemma WritesOnlyTrans(m0: Assignment, m1: Assignment, m2: Assignment, vs: set<nat>)
    requires WritesOnly(m0, m1, vs) && WritesOnly(m1, m2, vs)
    ensures WritesOnly(m0, m2, vs)
  {
  }

  /** A branch on `m` writes `Var(m)` first and then only variables of `simplify(f, m)`. */
  lemma BranchFrame(f: Formula, m: Literal, b: bool, m0: Assignment, m': Assignment)
    requires Var(m) in Vars(f)
    requires WritesOnly(m0[Var(m) := b], m', Vars(Simplify(f, m)))
    ensures WritesOnly(m0, m', Vars(f)) && Var(m) in m' && m'[Var(m)] == b
  {
    SimplifyDropsVar(f, m);
  }

  /** The chosen literal occurs in a non-empty formula without empty clauses, so both branches shrink. */
  lemma ChoiceShrinks(f: Formula)
    requires f != [] && [] !in f
    ensures Var(ChooseLiteral(f)) in Vars(f)
    ensures Occurrences(Simplify(f, ChooseLiteral(f))) < Occurrences(f)
    ensures Occurrences(Simplify(f, -ChooseLiteral(f))) < Occurrences(f)
  {
    var l := ChooseLiteral(f);
    assert f[0] != [] && f[0] in f && l == f[0][0];
    assert l in f[0] && - -l == l;
    SimplifyShrinks(f, l);
    SimplifyShrinks(f, -l);
  }

  /**
   * One branch of `dp` on `literal`: the true branch (`positive`) sets the
   * variable to `literal > 0` and simplifies by `literal`, the false branch
   * sets it to the opposite and simplifies by `-literal`.
   */
  method DpBranch(formula: Formula, literal: Literal, positive: bool, model: Assignment)
    returns (sat: bool, model': Assignment)
    requires Var(literal) in Vars(formula)
    requires Occurrences(Simplify(formula, literal)) < Occurrences(formula)
    requires Occurrences(Simplify(formula, -literal)) < Occurrences(formula)
    ensures positive ==> (sat <==> Satisfiable(Simplify(formula, literal)))
    ensures !positive ==> (sat <==> Satisfiable(Simplify(formula, -literal)))
    ensures sat && (positive || literal != 0) ==> Satisfies(model', formula)
    ensures WritesOnly(model, model', Vars(formula))
    decreases Occurrences(formula), 0
  {
    var m := if positive then literal else -literal;
    var value := if positive then literal > 0 else !(literal > 0);
    assert Var(m) == Var(literal);
    sat, model' := Dp(Simplify(formula, m), model[Var(m) := value]);
    BranchFrame(formula, m, value, model, model');
    if sat && (positive || literal != 0) {
      SimplifyLifts(model', formula, m);
    }
  }

  /**
   * `dp(formula, model)`: true exactly when the formula is satisfiable; on
   * true, `model'` satisfies every input clause.  Only variables of the
   * formula are written.
   */
  method Dp(formula: Formula, model: Assignment) returns (sat: bool, model': Assignment)
    ensures sat <==> Satisfiable(formula)
    ensures sat ==> Satisfies(model', formula)
    ensures WritesOnly(model, model', Vars(formula))
    decreases Occurrences(formula), 1
  {
    if IsSatisfied(formula) {
      assert Satisfies(map[], formula);
      return true, model;
    }
    if HasEmptyClause(formula) {
      EmptyClauseUnsat(formula);
      return false, model;
    }
    var literal := ChooseLiteral(formula);
    ChoiceShrinks(formula);
    var satTrue, modelTrue := DpBranch(formula, literal, true, model);
    if satTrue {
      return true, modelTrue;
    }
    sat, model' := DpBranch(formula, literal, false, modelTrue);
    WritesOnlyTrans(model, modelTrue, model', Vars(formula));
    SplitVerdict(formula, literal, satTrue, sat);
  }

  /** `-x` names the negation of the symbol `x`. */
  predicate Negated(token: string)
  {
    |token| > 0 && token[0] == '-'
  }

  function Symbol(token: string): string
  {
    if Negated(token) then token[1..] else token
  }

  /**
   * The global symbol table of dp.cpp: `symbolToId`, `idToSymbol` and the
   * next fresh id `nextVarId`.
   */
  class SymbolTable {
    var symbolToId: map<string, int>
    var idToSymbol: map<int, string>
    var nextVarId: int

    /** The two maps are inverse bijections onto the ids 1..nextVarId-1 in use. */
    ghost predicate Valid()
      reads this
    {
      && nextVarId >= 1
      && (forall s :: s in symbolToId ==>
            1 <= symbolToId[s] < nextVarId &&
            symbolToId[s] in idToSymbol && idToSymbol[symbolToId[s]] == s)
      && (forall id :: id in idToSymbol ==>
            1 <= id < nextVarId &&
            idToSymbol[id] in symbolToId && symbolToId[idToSymbol[id]] == id)
    }

    constructor ()
      ensures Valid()
      ensures symbolToId == map[] && idToSymbol == map[] && nextVarId == 1
    {
      symbolToId := map[];
      idToSymbol := map[];
      nextVarId := 1;
    }

    /**
     * `getLiteralId(token)`: a known symbol keeps its id, a fresh one gets
     * `nextVarId`, which then increments; a leading `-` negates the id.
     */
    method GetLiteralId(token: string) returns (id: int)
      requires Valid()
      modifies this
      ensures Valid()
      ensures Symbol(token) in symbolToId
      ensures id == if Negated(token) then -symbolToId[Symbol(token)] else symbolToId[Symbol(token)]
      ensures id != 0 && Var(id) in idToSymbol && idToSymbol[Var(id)] == Symbol(token)
      ensures Symbol(token) in old(symbolToId) ==>
                symbolToId == old(symbolToId) && idToSymbol == old(idToSymbol) &&
                nextVarId == old(nextVarId)
      ensures Symbol(token) !in old(symbolToId) ==>
                symbolToId == old(symbolToId)[Symbol(token) := old(nextVarId)] &&
                idToSymbol == old(idToSymbol)[old(nextVarId) := Symbol(token)] &&
                nextVarId == old(nextVarId) + 1
    {
      var neg := false;
      var symbol := token;
      if |token| > 0 && token[0] == '-' {
        neg := true;
        symbol := token[1..];
      }
      if symbol !in symbolToId {
        symbolToId := symbolToId[symbol := nextVarId];
        idToSymbol := idToSymbol[nextVarId := symbol];
        nextVarId := nextVarId + 1;
      }
      var v := symbolToId[symbol];
      id := if neg then -v else v;
    }
  }
}
