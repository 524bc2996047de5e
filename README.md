# SAT procedures, modelled in Dafny

This project models the four propositional SAT procedures of the repository
and proves what each of them promises.

- **`main.py`, class `SATSolver`.** It has three engines:
  - bounded resolution over frozenset clauses (`resolution`, `resolution_simplify`);
  - DP-style splitting (`dp`, `_dp_recursive`);
  - a stateful DPLL search (`dpll`, `_dpll_recursive`) over the fields `clauses`, `num_vars`, `assignment`, `level`, `trail` and `trail_lim`, together with `check_satisfiability`, `pure_literal_elimination`, `unit_propagation_dpll` and `_select_variable`.
- **`dp.cpp`.** A split-and-simplify decision procedure that records a model in a map, plus the global symbol table of `getLiteralId`.
- **`dpll.cpp`.** A unit-assign-then-check procedure. It never branches, so it is sound but incomplete.
- **`resolution.cpp`.** Unbounded resolution saturation over clauses that are `set<string>`.

Literals are non-zero integers. A clause is a sequence of literals, or a set for the resolution engines. An assignment is a `map<int, bool>` from variables to values.

Module `Cnf` holds the shared meaning:
- a literal is true, false or unassigned under a partial assignment;
- a clause holds when one of its literals is true;
- a formula is satisfiable when some assignment satisfies all its clauses.

Every verdict is proved against that meaning, with three exceptions that the code itself forces:
- `dp` as written (main.py:177-227) is proved to accept every satisfiable formula, but it also accepts some unsatisfiable ones (see Findings);
- `resolution` as written (main.py:102-153) can answer either way wrongly (see Findings);
- `resolutionSAT` (resolution.cpp:34-54) answers true on an input holding the empty clause when no pair of clauses clashes, so its true verdict means satisfiable only for inputs without the empty clause.

How each kind of code is modelled:
- **Code that changes state is imperative Dafny.**
  - The `SATSolver` object is a Dafny class with the source's fields. Its methods carry `modifies` clauses and loops with invariants.
  - The C++ reference parameters (`model`, `solutie`, `resolvent`) are in/out values of methods.
  - `getLiteralId`'s globals are the fields of a `SymbolTable` class.
- **Each method is proved against a function on values.** Examples are `Propagate` for `unit_propagation_dpll`, `UnitPass` for `unit_propagation`, `DpSpec` for `_dp_recursive` and `PureLits`/`DropPure` for pure-literal elimination.
- **The semantics are lemmas about those functions.** They cover soundness, completeness, equisatisfiability, idempotence and termination measures.

Where the code and the written design disagree, the model follows the code:
- `_dpll_recursive`, once every variable is assigned, checks the working clause list `self.clauses` (main.py:256-258), not the original clauses. By then `unit_propagation_dpll` has replaced that list with its reduced list (main.py:89-99), which drops every satisfied clause, the decision unit clauses included, and keeps only unassigned literals. So with every variable of 1..num_vars assigned, a clause can remain only if it mentions a variable outside that range, and then the check answers False.
- Decision levels are kept as the code keeps them. `trail_lim` is never restored on backtrack (main.py:267-268, 282-283), and the model proves only the trail/assignment/level sync that the code does maintain.

## Model

| member | source | states |
|---|---|---|
| Cnf.LitTrueNotFalse | main.py:38-39 | A literal is never both true and false, and `-l` is true exactly when `l` is false |
| DpCpp.IsSatisfied | dp.cpp:53-55 | True iff the formula has no clauses; then every assignment satisfies it |
| DpCpp.HasEmptyClause | dp.cpp:57-61 | True iff some clause is empty |
| DpCpp.EmptyClauseUnsat | dp.cpp:57-61 | A formula with an empty clause has no model |
| DpCpp.Without | dp.cpp:67-71 | The clause with every copy of one literal removed, and nothing else removed |
| DpCpp.Simplify | dp.cpp:63-75 | The result is no longer than the input, mentions neither `l` nor `-l`, and has no more literal occurrences |
| DpCpp.ChooseLiteralFirst | dp.cpp:77-82 | The chosen literal is 0 when every clause is empty, and otherwise the first literal of the first non-empty clause |
| DpCpp.SimplifyFrom | dp.cpp:63-75 | Every clause of `simplify(F, l)` is a clause of F without `l`, with `-l` removed |
| DpCpp.SimplifyKeepsClause | dp.cpp:63-75 | Every clause of F without `l` appears, shortened, in `simplify(F, l)` |
| DpCpp.SimplifyShrinks | dp.cpp:63-75 | When `l` or `-l` occurs, the total number of literal occurrences strictly decreases |
| DpCpp.SimplifyDropsVar | dp.cpp:63-75 | The variable of `l` disappears from the formula |
| DpCpp.SimplifyLifts | dp.cpp:94-95 | A model of `simplify(F, l)` that makes `l` true is a model of F |
| DpCpp.SimplifyKeeps | dp.cpp:63-75 | A model of F that does not make `l` false is a model of `simplify(F, l)` |
| DpCpp.SplitDecides | dp.cpp:93-98 | F is satisfiable iff one of the two branches on `l` and `-l` is |
| DpCpp.ChoiceShrinks | dp.cpp:93-98 | The chosen literal's variable occurs in F, and both branches have fewer occurrences (the termination measure) |
| DpCpp.BranchFrame | dp.cpp:94-97 | The model is written only at the formula's variables, and the branch variable holds the branch's polarity |
| DpCpp.DpBranch | dp.cpp:94-98 | One branch of `dp`: its verdict is the branch formula's satisfiability, and on success the model satisfies the formula |
| DpCpp.Dp | dp.cpp:90-99 | `dp` returns true iff the formula is satisfiable; then `model` satisfies every clause; only the formula's variables are written |
| DpCpp.SymbolTable.constructor | dp.cpp:19-21 | Both maps are empty and `nextVarId` is 1 |
| DpCpp.SymbolTable.GetLiteralId | dp.cpp:37-51 | The same symbol keeps its id, and a fresh symbol gets `nextVarId`, which then increments. `-s` gives the negated id. Ids are non-zero, and `idToSymbol` inverts `symbolToId` |
| DpllCpp.UnitPassFirstWins | dpll.cpp:70-82 | A pass keeps every existing entry, adds exactly the variables of one-literal clauses, and fixes each to the first such clause's polarity |
| DpllCpp.UnitPassCoversUnits | dpll.cpp:72-79 | After a pass, every one-literal clause's variable is in the map |
| DpllCpp.UnitPassStable | dpll.cpp:72-79 | A pass over a map that already covers every unit clause changes nothing |
| DpllCpp.UnitPassIdempotent | dpll.cpp:85 | A second pass never changes the map, so the fixpoint loop runs at most twice |
| DpllCpp.UnitPropagation | dpll.cpp:70-82 | The map only grows, every unit clause's variable ends up assigned, and the result is true iff an entry was added |
| DpllCpp.Dpll | dpll.cpp:84-103 | The map after propagation is one pass's result, and the verdict is true iff that map satisfies every clause |
| DpllCpp.VerdictSound | dpll.cpp:84-103 | A true verdict implies the clauses are satisfiable (a direct consequence of `DpllCpp.Dpll`'s ensures: the map it returns is the witness) |
| DpllCpp.VerdictIncomplete | dpll.cpp:84-103 | The satisfiable `[[1, 2]]` gets the verdict false: there is no branching |
| DpllCpp.ContradictoryUnits | dpll.cpp:72-98 | For units {1} and {-1}, the first fixes variable 1 to true, the second is ignored, and the verdict is false |
| ResolutionCpp.Neg | resolution.cpp:23 | The complement strips a leading `-`, or adds one |
| ResolutionCpp.NegInvolutive | resolution.cpp:23 | On a well-formed literal, complementing twice gives the literal back |
| ResolutionCpp.NegNotInvolutive | resolution.cpp:23 | On `"--x"` it does not: the complement of the complement is `"x"` |
| ResolutionCpp.LeastExists | resolution.cpp:22 | A non-empty set of strings has exactly one least element in `std::set` order |
| ResolutionCpp.Clashes | resolution.cpp:22-24 | The literals of `c1` whose complement is in `c2` |
| ResolutionCpp.Resolvent | resolution.cpp:25-27 | `(c1 - {lit}) ∪ (c2 - {neg})`, literal by literal |
| ResolutionCpp.AreEqual | resolution.cpp:17-19 | Set equality |
| ResolutionCpp.ResolveClauses | resolution.cpp:21-32 | True iff some literal of `c1` clashes with `c2`. The resolvent is taken on the least clashing literal, and on false the out-parameter is untouched |
| ResolutionCpp.ResolvesToUnique | resolution.cpp:21-32 | A pair has at most one resolvent, and none when nothing clashes |
| ResolutionCpp.Contains | resolution.cpp:42-44 | The scan finds `r` iff it is in the list |
| ResolutionCpp.ResolventEntailed | resolution.cpp:25-27 | The resolvent of two entailed clauses on a well-formed literal is entailed |
| ResolutionCpp.EmptyEntailedUnsat | resolution.cpp:41 | Entailing the empty clause means there is no model |
| ResolutionCpp.CoveredSaturated | resolution.cpp:37-50 | Once every pair has been visited, every resolvent is non-empty and already present |
| ResolutionCpp.MeasureShrinks | resolution.cpp:50-51 | Appending unseen clauses over the input's literals shrinks the set of clauses still missing (the termination measure) |
| ResolutionCpp.ResolutionSat | resolution.cpp:34-54 | For well-formed literals, false means unsatisfiable, and true on an input without the empty clause means satisfiable. True also means the final list extends the input, is saturated and uses only the input's literals. An input of at most one clause is answered true, since no pair is visited |
| ResolutionCpp.SaturatedSatisfiable | resolution.cpp:34-54 | Completeness of the saturation: a saturated list of well-formed clauses without the empty clause has a model (resolving on one clashing literal loses only tautologies) |
| ResolutionCpp.SaturatedInput | resolution.cpp:50 | When the loop stops with nothing new, the input, a prefix of the saturated list over the input's literals, has a model |
| ResolutionCpp.ModelsOverStep | resolution.cpp:37-49 | The induction step of completeness: one more atom can be made true or false so that every clause over the decided atoms still holds |
| PyPure.PureLitsSound | main.py:51-57 | Each reported literal occurs while its complement does not, its variable is in 1..num_vars, and the variables increase |
| PyPure.PureLitsComplete | main.py:51-57 | Every variable of 1..num_vars that occurs with one polarity only is reported |
| PyPure.DropPure | main.py:64-65 | The kept clauses are exactly those containing no pure literal |
| PyPure.DropPureStep | main.py:212-213 | Filtering one pure literal at a time gives the same list as filtering them all at once |
| PyPure.PureLift | main.py:64-65 | A model of the kept clauses, with the pure literals made true, is a model of the whole formula |
| PyPure.PureEquisat | main.py:202-213 | Dropping the pure clauses keeps satisfiability, both ways |
| PyDp.InitialUnits | main.py:182 | Every queued literal is the literal of a unit clause |
| PyDp.UnitPhase | main.py:183-201 | On success no clause is empty and no literal occurrence is added |
| PyDp.UnitStepEquisat | main.py:184-201 | Processing a unit: an emptied clause means unsatisfiable, and otherwise satisfiability is kept |
| PyDp.UnitPhaseEquisat | main.py:183-201 | The unit loop returning False means unsatisfiable, and otherwise it keeps satisfiability |
| PyDp.UnitPhaseNoUnits | main.py:183-201 | After the unit loop, no unit clause is left |
| PyDp.AfterUnitsEquisat | main.py:182-201 | The same facts for the whole unit phase, starting from the initial queue |
| PyDp.RemoveFirst | main.py:220 | `clause.remove(x)` drops one occurrence of `x` and keeps every other literal |
| PyDp.SplitVar | main.py:216 | The split variable occurs in the formula |
| PyDp.TrueBranch | main.py:217-220 | The branch has fewer literal occurrences than the formula |
| PyDp.FalseBranch | main.py:223-226 | The branch has fewer literal occurrences than the formula |
| PyDp.BranchShrinks | main.py:216-226 | Each branch strictly decreases the literal occurrences (the termination measure) |
| PyDp.SplitEquisat | main.py:216-227 | Corrected branches: the formula is satisfiable iff one branch is |
| PyDp.DpSpecCorrect | main.py:181-227 | With every complement removed, the procedure answers True iff the formula is satisfiable |
| PyDp.AsWrittenComplete | main.py:181-227 | As written, a satisfiable formula is answered True |
| PyDp.AsWrittenUnsound | main.py:217-221 | As written, the unsatisfiable `(1∨2)(1∨¬2)(¬1∨¬1∨3)(¬1∨¬3)` is answered True |
| PyDp.Sweep | main.py:187-200 | One unit's sweep fails iff a clause empties; otherwise it gives the simplified list and the new units |
| PyDp.UnitLoop | main.py:182-201 | The `while unit_clauses` loop computes the unit phase |
| PyDp.LiteralTable | main.py:202-205 | The keys of `literal_count` are exactly the literals that occur |
| PyDp.PureLiterals | main.py:206-211 | The pure list is the pure literals of 1..num_vars, in order |
| PyDp.DropPureLoop | main.py:212-213 | The filtering loop drops exactly the clauses holding a pure literal |
| PyDp.DpRecursive | main.py:181-227 | `_dp_recursive` in both modes: the answer is `DpSpec` of the input; every satisfiable input is answered True; with every complement occurrence removed (the corrected mode) True iff the clauses are satisfiable |
| PySolver.UnassignedLits | main.py:76 | Exactly the clause's literals whose variable is unassigned |
| PySolver.NotFalseLits | main.py:93-94 | Exactly the clause's literals that are not false |
| PySolver.UnassignedLitsShape | main.py:76-78 | A unit found this way is unassigned, and every other literal of its clause is assigned |
| PySolver.UnitsOfFacts | main.py:72-78 | Each collected unit literal is unassigned and occurs in the clauses |
| PySolver.UnitsOfForced | main.py:72-78 | Every model that extends the assignment makes each collected unit true |
| PySolver.AssignUnitsFacts | main.py:79-88 | Assigning units only extends the assignment. Exactly the new variables are appended, each once, and each comes from a unit |
| PySolver.AssignUnitsForced | main.py:79-88 | When some extension makes every unit true, there is no conflict and the result is extended by it |
| PySolver.ReduceFacts | main.py:89-98 | Every kept clause is unsatisfied, non-empty and made of unassigned literals, and no literal is new |
| PySolver.ReduceSound | main.py:89-98 | A model of the reduced clauses that extends the assignment satisfies the original clauses |
| PySolver.ReduceComplete | main.py:89-98 | A model of the clauses that extends the assignment gives no empty clause and satisfies the reduced ones |
| PySolver.PropagateFacts | main.py:67-100 | Propagation only extends the assignment and never flips a value. The trail additions are exactly the new variables, each once, and on success every kept clause is non-empty, unsatisfied and unassigned |
| PySolver.PropagateSound | main.py:67-100 | On success, a model of the remaining clauses that extends the new assignment satisfies the input clauses |
| PySolver.PropagateComplete | main.py:67-100 | A model that extends the old assignment means no conflict is reported, and it still extends the new assignment and satisfies the remaining clauses |
| PySolver.PropagateUnsatisfied | main.py:89-98 | On success, no remaining clause is already satisfied |
| PySolver.AssignFreshFacts | main.py:58-63 | Pure literals only extend the assignment, never overwrite it, and each new variable is appended to the trail once |
| PySolver.AssignFreshTrue | main.py:58-61 | Each pure literal whose variable was unassigned is made true |
| PySolver.LeveledKeys | main.py:62 | `level` gets an entry for exactly the newly assigned variables |
| PySolver.SyncedLength | main.py:63 | With the trail in sync, `len(trail) == len(assignment)` (a direct consequence of the definition of the sync) |
| PySolver.SyncedAppend | main.py:84-87 | Appending the new variables to the trail and the levels keeps the sync |
| PySolver.Weight | main.py:295 | A clause's weight `2^-len` lies in (0, 1] (a direct bound on the definition, used by `ScorePositive`) |
| PySolver.ScorePositive | main.py:290-296 | A variable's score is non-negative, and positive iff it occurs in the clauses |
| PySolver.UnassignedVars | main.py:256 | Exactly the variables of 1..num_vars not in the assignment |
| PySolver.UnassignedShrinks | main.py:256 | Assigning a variable of 1..num_vars shrinks that list (the termination measure) |
| PySolver.PropagateKeepsSound | main.py:252 | Propagation keeps the search invariant: models of the working clauses that extend the assignment are models of the original formula |
| PySolver.DecideKeepsSound | main.py:264-270 | A decision and its unit clause keep that invariant |
| PySolver.SplitRefutes | main.py:259-287 | If neither decision value has a model, the state before the decision has none |
| PySolver.AllAssigned | main.py:256-258 | With every variable assigned and clauses left, `check_satisfiability` fails, and the clauses mention a variable outside 1..num_vars |
| PySolver.PureStart | main.py:239 | Pure-literal elimination sets up the search invariant, keeps the clauses within 1..num_vars, and a refutation of its result refutes the formula |
| PySolver.SATSolver.constructor | main.py:9-18 | A solver holding the loaded clauses and variable count, with an empty search state |
| PySolver.SATSolver.CheckSatisfiability | main.py:34-44 | True iff every clause has a literal assigned with matching sign |
| PySolver.SATSolver.PureLiteralElimination | main.py:46-65 | The state becomes `AssignFresh`/`Leveled`/`DropPure` of the pure literals of 1..num_vars. The assignment is only extended and the sync kept, new variables lie in 1..num_vars, and no remaining clause holds a pure literal |
| PySolver.SATSolver.CollectUnits | main.py:72-78 | The unit literals of one round, in clause order |
| PySolver.SATSolver.AssignUnitLits | main.py:79-88 | The units' assignment loop, matching `AssignUnits` |
| PySolver.SATSolver.ReduceClauses | main.py:89-98 | The clause rebuilding loop, matching `Reduce` |
| PySolver.SATSolver.UnitPropagationDpll | main.py:67-100 | The new state is `Propagate` of the old one. `clauses` is replaced only on success, the trail grows by the new variables, and the sync is kept |
| PySolver.SATSolver.SelectVariable | main.py:289-296 | The chosen variable is unassigned, has the highest score, and is the first with that score |
| PySolver.SATSolver.Decide | main.py:264-270 | Assign, record the level, extend the trail, apply the `trail_lim` rule and add the unit clause. The sync is kept |
| PySolver.SATSolver.DpllRecursive | main.py:248-287 | The assignment only grows and the entry trail stays a prefix of the trail. True comes with a model of the original formula. False refutes every extension of the entry state (clauses within 1..num_vars). None only when the clock has run out. The early verdicts: conflict gives False, no clauses gives True, all assigned gives False |
| PySolver.SATSolver.Branch | main.py:259-287 | Save the state, try True, restore the saved state (through `Restore`), and try False. The assignment only grows from the entry state and the entry trail stays a prefix; True comes with a model, False refutes every extension of the entry state |
| PySolver.SATSolver.Restore | main.py:274-277 | `assignment`, `level`, `trail` and `clauses` become exactly the saved copies; `trail_lim`, `num_vars` and the budget are unchanged |
| PySolver.SATSolver.TryValue | main.py:264-287 | After deciding `var` with one value, the assignment extends the entry assignment with that value and the trail starts with the entry trail plus `var`; True comes with a model, False refutes that extension |
| PySolver.SATSolver.Dpll | main.py:229-246 | The state is reset, and the clauses are restored afterwards. True gives a model, and False means unsatisfiable (clauses within 1..num_vars). None only on timeout |
| PySolver.SATSolver.Dp | main.py:177-179 | `dp` as written: its answer is `DpSpec` in the first-occurrence mode, and every satisfiable formula is answered True; on some unsatisfiable formulas it answers True as well (`PyDp.AsWrittenUnsound`) |
| SetCnf.ToSetsSatisfiable | main.py:103 | Reading the clauses as frozensets keeps satisfiability |
| SetCnf.ResolventImplied | main.py:137 | A model of both parents satisfies their correct resolvent |
| SetCnf.ResolventsAgree | main.py:137 | The source's resolvent equals the correct one unless a parent holds both polarities |
| SetCnf.AsWrittenResolventUnsound | main.py:137-139 | The satisfiable {1}, {1,-1} resolve, as written, to the empty clause |
| SetCnf.ClosedSatisfiable | main.py:148-149 | A zero-free clause set without the empty clause that is closed under resolution up to subsumption has a model |
| SetCnf.EmptyClauseUnsat | main.py:109-110 | A set holding the empty clause has no model |
| PyResolution.SortByLength | main.py:122-124 | Every clause once, by non-decreasing length |
| PyResolution.TautologyPartnerRefuted | main.py:135-139 | As written, a unit {l} and {l,-l} resolve to the empty clause |
| PyResolution.ResolvePair | main.py:135-147 | An empty resolvent refutes, and an added one is new, non-empty, at most 20 long and not subsumed. A pair with nothing passed over is closed |
| PyResolution.VisitPair | main.py:132-147 | A pair of two clauses longer than 5 is skipped, and any other is resolved |
| PyResolution.PairsOfRow | main.py:128-147 | The `combinations` pairs of one row under the pair budget keep the resolvents good and the visited pairs closed |
| PyResolution.ResolutionRound | main.py:122-147 | An empty resolvent is derived or the resolvents are good. A complete round adding nothing means the set is closed, and an all-long set adds nothing |
| PyResolution.ProcessUnit | main.py:159-174 | One unit's pass: a conflict means `{-unit}` is present, and otherwise it gives exactly the clauses to remove, those to add and the new units |
| PyResolution.ConflictUnsat | main.py:166-169 | A conflict means the input has no model |
| PyResolution.SimplifyUnit | main.py:158-174 | One turn of the unit loop keeps the invariant and decreases the measure |
| PyResolution.CollectUnits | main.py:156 | The initial queue holds exactly the literals of the unit clauses |
| PyResolution.SimplifyEnd | main.py:158-175 | At the empty queue, the result keeps the models and satisfiability, has no unit clause, and each clause is part of an input clause |
| PyResolution.ResolutionSimplify | main.py:155-175 | It returns `{frozenset()}` only for an unsatisfiable input. Otherwise the result is equisatisfiable, has no unit clause, and each clause is part of an input clause |
| PyResolution.AddResolvents | main.py:150 | Adding correct resolvents keeps satisfiability |
| PyResolution.ResolutionStep | main.py:122-153 | Corrected, a round's False is sound, its True is sound, and the next set is equisatisfiable. As written, an all-long set is answered True |
| PyResolution.ResolutionRun | main.py:102-153 | An empty clause gives False, an empty input gives True, and the corrected verdicts are sound. As written, all-long input gives True |
| PyResolution.ResolutionAsWritten | main.py:102-153 | `resolution` as written: empty clause gives False, empty input gives True, all-long input gives True |
| PyResolution.Resolution | main.py:102-153 | Corrected `resolution`: False means unsatisfiable and True means satisfiable. None comes when a budget runs out, or when the last round skipped a clashing pair |
| PyResolution.FullMisjudged | main.py:133-149 | for 6 <= n with 2^n <= 50000, `Full(n)` (every sign pattern over variables 1..n; `Full(6)` has 64 clauses) has no model, stays within the clause budget and has no literal 0, yet all its clauses are longer than 5 literals, so the as-written procedure answers True on it |

## Left out

- The DIMACS and text readers (`load_cnf`, `incarca_din_fisier`, `readCNFFile`, `readFormulasFromFolder`) are file I/O. The model starts from the parsed clause lists; `SATSolver.constructor` takes them as arguments.
- The benchmark driver, the menus, every C++ `main`, `printModel` and the memory reports are I/O only. The `print` calls on timeout and error are left out too.
- Wall clocks (main.py:107, 115-117, 235, 249-251) are abstract budgets.
  - For `resolution`, the parameter `deadline` counts the rounds that start in time.
  - For DPLL, the field `budget` counts the `_dpll_recursive` calls that start in time.
  - A run out of budget answers `Unknown`, the source's None.
- Exceptions are not modelled. This covers the `except` branch of `dpll` (main.py:243-246) and a `RecursionError` on deep formulas.
- `self.unit_clauses` and `num_clauses` are written but never read, so they are not fields of the model.
- Python set iteration order is not modelled (main.py:122-124, 159). Each loop over a set picks its next element arbitrarily, and every property holds for every order.
- PySolver.SATSolver.SelectVariable: the `2.0 ** -len(clause)` scores are exact reals. The float sums can differ in the last bits and then break a tie differently.
- PySolver.SATSolver.DpllRecursive: the False verdict is proved a refutation only when the working clauses mention only variables 1..num_vars.
  - Otherwise the code can reach `check_satisfiability` with clauses left, and it then always answers False.
  - PySolver.AllAssigned shows this path exists only for such out-of-range clauses.
- PySolver.SATSolver.Dpll: the False verdict means unsatisfiable only for clauses within 1..num_vars, for the same reason.
- PySolver.SATSolver.Dp: requires that no clause is empty. The loader never produces one, and the source would crash on `cnf[0][0]` if the first clause were empty. It runs the code as written, so False is proved to mean unsatisfiable only for the corrected mode of `PyDp.DpRecursive`.
- PyDp.DpRecursive: requires that no clause is empty, for the same reason. In the as-written `firstOnly` mode only completeness is proved (see Findings); the guard on an emptied branch never fires in that mode (`PyDp.AsWrittenBranchesNonEmpty`).
- ResolutionCpp.ResolutionSat: false means unsatisfiable only for well-formed literals. On a string like `"--x"` the complement is not an involution.
- ResolutionCpp.ResolutionSat: true means satisfiable only when no input clause is empty. On `[{}]` no pair is visited and the answer is true. `readCNFFile` drops empty clauses (resolution.cpp:70), so the program never passes one.
- DpCpp.SymbolTable.GetLiteralId: an empty token is read as a positive symbol, as in C++, where `token[0]` of an empty string is the null character. The reader never produces one.
- The `frozenset() in clauses` check inside the limit branch of `resolution` (main.py:118-119) is dead code. The set never holds the empty clause there, because the loop returns False as soon as one appears.

## Findings

| source | as written | input that shows it | evidently intended | confidence | as-written member | corrected member |
|---|---|---|---|---|---|---|
| main.py:217-226 | `clause.remove(-split_var)` deletes only the first occurrence of the complement, so a clause holding it twice keeps one copy in the branch | `[[1,2],[1,-2],[-1,-1,3],[-1,-3]]` with num_vars ≥ 3 is unsatisfiable, yet `_dp_recursive` answers True | remove every occurrence, so each branch is the formula under that value | not executed | PyDp.AsWrittenUnsound | PyDp.DpSpecCorrect |
| main.py:137 | the resolvent is `(ci ∪ cj) − {lit, −lit}`, which also drops `−lit` from `ci` and `lit` from `cj` | `[[1],[1,-1]]` is satisfiable, yet {1} and {1,-1} resolve to the empty clause and `resolution` answers False | `(ci − {lit}) ∪ (cj − {−lit})` | not executed | SetCnf.AsWrittenResolventUnsound | SetCnf.ResolventImplied |
| main.py:133-149 | pairs of two clauses longer than 5 literals are skipped, yet a round that adds nothing answers True | `Full(6)`, the 64 clauses over variables 1..6 with every sign pattern, is unsatisfiable, yet `resolution` answers True after one round | answer True only when no clashing pair was skipped, and otherwise give up (None) | not executed | PyResolution.FullMisjudged | PyResolution.Resolution |
