/**
 * Pure-literal detection as main.py does it, twice over (in
 * `pure_literal_elimination` and inside `_dp_recursive`): collect the
 * literals that occur, walk the variables 1..num_vars in order and keep the
 * polarity of each variable that occurs with one sign only; then drop every
 * clause that contains one of the kept literals.
 */
module PyPure {
  import opened Cnf

  /** The literals that occur (the keys of `literal_count`). */
  function Lits(f: Formula): set<Literal>
  {
    set c, l | c in f && l in c :: l
  }

  /** The pure literals of `f` among the variables 1..n, by increasing variable. */
  function PureLits(f: Formula, n: int): seq<Literal>
    decreases n
  {
    if n <= 0 then []
    else
      var rest := PureLits(f, n - 1);
      var pos := n in Lits(f);
      var neg := -n in Lits(f);
      if pos == neg then rest else rest + [if pos then n else -n]
  }

  /**
   * Every reported literal occurs while its complement does not, its
   * variable is in 1..n, and the variables strictly increase.
   */
  lemma {:induction false} PureLitsSound(f: Formula, n: int)
    ensures forall l :: l in PureLits(f, n) ==> l in Lits(f) && -l !in Lits(f) && 1 <= Var(l) <= n
    ensures forall i, j :: 0 <= i < j < |PureLits(f, n)| ==> Var(PureLits(f, n)[i]) < Var(PureLits(f, n)[j])
    decreases n
  {
    if n > 0 {
      PureLitsSound(f, n - 1);
    }
  }

  /** Every variable of 1..n that occurs with one polarity only is reported. */
  lemma {:induction false} PureLitsComplete(f: Formula, n: int, v: int)
    requires 1 <= v <= n
    requires (v in Lits(f)) != (-v in Lits(f))
    ensures (if v in Lits(f) then v else -v) in PureLits(f, n)
    decreases n
  {
    if v < n {
      PureLitsComplete(f, n - 1, v);
    }
  }

  /** The clauses of `f` that contain none of `ps`, in order. */
  function DropPure(f: Formula, ps: seq<Literal>): (r: Formula)
    ensures forall c :: c in r <==> c in f && forall l :: l in ps ==> l !in c
    ensures Occurrences(r) <= Occurrences(f)
    ensures ps == [] ==> r == f
  {
    if f == [] then []
    else
      var rest := DropPure(f[1..], ps);
      if exists l :: l in ps && l in f[0] then rest
      else
        var r := [f[0]] + rest;
        assert r[0] == f[0] && r[1..] == rest;
        r
  }

  /** Filtering one pure literal at a time, as `_dp_recursive` does, gives the same list. */
  lemma {:induction false} DropPureStep(f: Formula, ps: seq<Literal>, l: Literal)
    ensures DropPure(DropPure(f, ps), [l]) == DropPure(f, ps + [l])
  {
    if f != [] {
      DropPureStep(f[1..], ps, l);
      var rest := DropPure(f[1..], ps);
      if exists m :: m in ps && m in f[0] {
        var m :| m in ps && m in f[0];
        assert m in ps + [l];
      } else if l in f[0] {
        assert DropPure([f[0]] + rest, [l]) == DropPure(rest, [l]) by {
          assert ([f[0]] + rest)[1..] == rest;
        }
      } else {
        assert DropPure([f[0]] + rest, [l]) == [f[0]] + DropPure(rest, [l]) by {
          assert ([f[0]] + rest)[1..] == rest;
        }
      }
    }
  }

  /** `b` with each literal of `ls` made true, later ones last. */
  function ApplyLits(b: Assignment, ls: seq<Literal>): Assignment
  {
    if ls == [] then b else ApplyLits(b, ls[..|ls| - 1])[Var(ls[|ls| - 1]) := ls[|ls| - 1] > 0]
  }

  /** With no complementary pair among `ls`, every literal of `ls` ends up true and other variables keep their value. */
  lemma {:induction false} ApplyLitsFacts(b: Assignment, ls: seq<Literal>)
    requires forall l :: l in ls ==> -l !in ls
    ensures forall l :: l in ls ==> LitTrue(ApplyLits(b, ls), l)
    ensures forall v :: (forall l :: l in ls ==> Var(l) != v) ==>
              (v in ApplyLits(b, ls) <==> v in b) && (v in b ==> ApplyLits(b, ls)[v] == b[v])
  {
    if ls != [] {
      var init := ls[..|ls| - 1];
      var last := ls[|ls| - 1];
      assert forall l :: l in init ==> l in ls;
      ApplyLitsFacts(b, init);
      assert ls == init + [last];
      assert last in ls && -last !in ls;
      forall l | l in ls ensures LitTrue(ApplyLits(b, ls), l) {
        if l != last {
          assert l != -last;
          assert Var(l) != Var(last);
          assert l in init;
        }
      }
    }
  }

  /**
   * Dropping clauses that contain pure literals keeps satisfiability: a
   * model of what remains, with the pure literals made true, is a model of
   * the whole formula.
   */
  lemma PureLift(b: Assignment, f: Formula, ps: seq<Literal>)
    requires forall l :: l in ps ==> l in Lits(f) && -l !in Lits(f)
    requires Satisfies(b, DropPure(f, ps))
    ensures Satisfies(ApplyLits(b, ps), f)
    ensures forall l :: l in ps ==> LitTrue(ApplyLits(b, ps), l)
  {
    var b' := ApplyLits(b, ps);
    ApplyLitsFacts(b, ps);
    forall c | c in f ensures ClauseSat(b', c) {
      if exists l :: l in ps && l in c {
        var l :| l in ps && l in c;
        assert LitTrue(b', l);
      } else {
        assert c in DropPure(f, ps);
        var m :| m in c && LitTrue(b, m);
        forall l | l in ps ensures Var(l) != Var(m) {
          assert m in Lits(f);
          assert m != l && m != -l;
        }
        assert LitTrue(b', m);
      }
    }
  }

  /** A model of `f` with the pure literals made true is still a model of `f`. */
  lemma PureAdjust(b: Assignment, f: Formula, ps: seq<Literal>)
    requires forall l :: l in ps ==> l in Lits(f) && -l !in Lits(f)
    requires Satisfies(b, f)
    ensures Satisfies(ApplyLits(b, ps), f)
    ensures forall l :: l in ps ==> LitTrue(ApplyLits(b, ps), l)
  {
    PureLift(b, f, ps);
  }

  /** The pure-literal step of `_dp_recursive` keeps satisfiability, both ways. */
  lemma PureEquisat(f: Formula, n: int)
    ensures Satisfiable(f) <==> Satisfiable(DropPure(f, PureLits(f, n)))
  {
    var ps := PureLits(f, n);
    PureLitsSound(f, n);
    if Satisfiable(DropPure(f, ps)) {
      var b :| Satisfies(b, DropPure(f, ps));
      PureLift(b, f, ps);
    }
    if Satisfiable(f) {
      var b :| Satisfies(b, f);
      assert Satisfies(b, DropPure(f, ps));
    }
  }
}
