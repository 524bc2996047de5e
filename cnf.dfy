/**
 * Shared CNF vocabulary for the integer-literal engines: a literal is a
 * signed integer whose absolute value is its variable and whose sign is its
 * polarity; a clause is a list of literals read as their disjunction; a
 * formula is a list of clauses read as their conjunction; an assignment is a
 * partial map from variables to truth values.
 */
module Cnf {

  type Literal = int
  type Clause = seq<Literal>
  type Formula = seq<Clause>
  type Assignment = map<int, bool>

  /** The variable of a literal (`abs(lit)` in the source). */
  function Var(l: Literal): nat
  {
    if l < 0 then -l else l
  }

  /** The variable is assigned and its value matches the literal's sign. */
  predicate LitTrue(a: Assignment, l: Literal)
  {
    Var(l) in a && a[Var(l)] == (l > 0)
  }

  /** The variable is assigned and its value contradicts the literal's sign. */
  predicate LitFalse(a: Assignment, l: Literal)
  {
    Var(l) in a && a[Var(l)] != (l > 0)
  }

  predicate ClauseSat(a: Assignment, c: Clause)
  {
    exists l :: l in c && LitTrue(a, l)
  }

  /** Every clause has a literal made true by `a`; unassigned literals never count. */
  predicate Satisfies(a: Assignment, f: Formula)
  {
    forall c :: c in f ==> ClauseSat(a, c)
  }

  ghost predicate Satisfiable(f: Formula)
  {
    exists a: Assignment :: Satisfies(a, f)
  }

  /** `b` keeps every entry of `a` and may add more. */
  predicate Extends(b: Assignment, a: Assignment)
  {
    a.Keys <= b.Keys && forall v :: v in a ==> b[v] == a[v]
  }

  /** The variables that occur in a formula. */
  function Vars(f: Formula): set<nat>
  {
    set c, l | c in f && l in c :: Var(l)
  }

  /** Total number of literal occurrences. */
  function Occurrences(f: Formula): nat
  {
    if f == [] then 0 else |f[0]| + Occurrences(f[1..])
  }

  /** Every literal names a variable in 1..n (the shape of a DIMACS formula). */
  predicate WithinVars(f: Formula, n: int)
  {
    forall c, l :: c in f && l in c ==> 1 <= Var(l) <= n
  }

  lemma LitTrueNotFalse(a: Assignment, l: Literal)
    ensures !(LitTrue(a, l) && LitFalse(a, l))
    ensures l != 0 ==> (LitTrue(a, -l) <==> LitFalse(a, l))
  {
  }

  /** A satisfied clause stays satisfied under any extension. */
  lemma ExtendsKeepsSatisfies(a: Assignment, b: Assignment, f: Formula)
    requires Extends(b, a) && Satisfies(a, f)
    ensures Satisfies(b, f)
  {
    forall c | c in f ensures ClauseSat(b, c) {
      var l :| l in c && LitTrue(a, l);
      assert LitTrue(b, l);
    }
  }

  /** Satisfaction only looks at the variables of the formula. */
  lemma SatisfiesIgnoresOtherVars(a: Assignment, f: Formula, v: nat, b: bool)
    requires Satisfies(a, f) && v !in Vars(f)
    ensures Satisfies(a[v := b], f)
  {
    forall c | c in f ensures ClauseSat(a[v := b], c) {
      var l :| l in c && LitTrue(a, l);
      assert Var(l) in Vars(f);
      assert LitTrue(a[v := b], l);
    }
  }
}
