# condensate: a DPLL solver, a Tseitin encoder and a DIMACS splitter in Dafny

This project models the three sequential components of the condensate
propositional-logic toolkit and proves properties of them.

- **The SAT solver** (`sat.js`, class `sat`), in module `Sat` (`sat.dfy`).
  The class `Sat.Solver` holds the clause database `dimacs`, the watch
  index `watchTwo` and the recorded `solutions`, and its methods update them
  in place as the JavaScript object does. Literals are nonzero `int`s and
  `-v` is the negation of `v`. An assignment is a `map<int, Reason>` from each
  true literal to why it holds:
  - `Given`: a unit clause of the input;
  - `Assumption`: a branching decision;
  - `ByClause(c)`: the stored clause `c` forced it.

  Propagation (`makeAssignments`) is a first-in first-out worklist over the
  watch index. It learns one resolvent per conflict between two forced
  literals. The search (`dpllRec`) branches chronologically and can
  enumerate solutions up to a cap.

  The search is proved correct against models: sets of literals that hold
  no literal with its negation, decide every variable and satisfy every
  clause. Every solution `dpll` records satisfies every nonempty input
  clause. A contradiction, when solutions are not enumerated, means the
  nonempty input clauses have no model; when they are enumerated, it means
  every such model makes some recorded solution true. Learning keeps every model, since a learned clause
  is the resolvent of two clauses that clash on the conflict literal.
  Propagation keeps the two-watched-literal invariant: every kept clause
  is satisfied or watched on two literals that are not false.
- **The formula IR, negation and the Tseitin encoder** (`logic.js`), in
  module `Logic` (`logic.dfy`). A `Formula` is one of:
  - `Var(name)`: a variable;
  - `Not(arg)`: the NOT node, which always has exactly one argument;
  - `Node(op, args)`: any of the six connectives.

  The JavaScript constructors `and()` … `nor()` are `Node(op, args)`. The
  shape tests `isOp`, `isVar`, `isNotVar`, `varOrNegVar` and `isOr` are
  `IsOp`, `IsVar`, `IsNotVar`, `IsLiteral` and `IsOr`. Formulas are evaluated
  by `Eval`, the evaluator of logic_tests.js:129-153, in which XOR and EQ are
  the parity of the number of true arguments.

  The encoder is written twice:
  - as pure functions of the formula and the gensym counter (`EncodeAnds`,
    `EncodeOrs`, `EncodeArgs`, `EncodeArg`), and the lemmas are about these;
  - as the class `TseitinEncoder`, whose methods append to `clauses` and
    bump `gensymId` as the source does, each proved to compute the
    corresponding function.
- **The DIMACS clause splitter** (`splitClauses` in `dimacs.js`), in module
  `Dimacs` (`dimacs.dfy`). Its two-index loop is proved equal to a
  recursive definition `Split`. That definition is proved to be the inverse
  of writing each clause followed by its `0` terminator.

Three behaviours of the code look unintended; the model keeps them as
written:
- `simplify` silently drops a clause of length 0. It does not report it as
  a contradiction.
- `addNewClause` discards the pair of non-falsified literals it computes
  (sat.js:255-258). A learned clause is watched on its first two literals.
- A learned clause of fewer than two literals is only logged, never
  applied.

The random pick among the candidate literals (`chooseRandomArrayElement`)
is a nondeterministic choice, `Sat.ChooseCandidate`, of any candidate.

## Model

| member | source | states |
|---|---|---|
| `Sat.AddWatch` | sat.js:10-16 | `mapOfSetsAdd`: after the call the id is in the set under the key, a missing key is created, and no set loses an element. Sets under other keys are unchanged, nothing else is added, and sets stay free of repeats. |
| `Sat.ChooseCandidate` | sat.js:18-20 | The decision literal is one of the candidates. Which one is left open. |
| `Sat.UpToTwo` | sat.js:288-305 | `satisfied` exactly when some literal of the clause is true. Otherwise at most two clause literals that are neither true nor false come back. When fewer than two come back, every other literal of the clause is false. |
| `Sat.UnitScan` | sat.js:197-198 | A scan that returns one literal `p` makes the clause unit: `p` is unassigned and every other literal is false. |
| `Sat.Solver.UpToTwoUnsatisfiedLits` | sat.js:288-305 | The two scanning loops compute `UpToTwo`, stopping at the first two literals that are not false. |
| `Sat.InitialUnitsMeaning` | sat.js:94-103 | `processInitialAssignments` reports a contradiction exactly when the units hold some `v` and `-v`. Otherwise it returns the units without repeats, in order of first occurrence. |
| `Sat.Solver.ProcessInitialAssignments` | sat.js:94-103 | The loop computes the scan `InitialUnits`, stopping at the first literal whose negation was kept. |
| `Sat.LongClauses` | sat.js:64-65 | Every kept clause has at least two literals and comes from the input, and every input clause of two literals or more is kept. |
| `Sat.Units` | sat.js:66-70 | Every literal taken comes from a unit clause of the input, and every unit clause contributes its literal. |
| `Sat.UnitsOver` | sat.js:66-72 | The deduplicated units hold no literal together with its negation, so they can start a propagation pass. |
| `Sat.WatchIndexSound` | sat.js:105-112 | Every id in the built index names a stored clause whose first or second literal is the key, and no set repeats an id. |
| `Sat.WatchIndexComplete` | sat.js:105-112 | Every stored clause is watched on its first and on its second literal. |
| `Sat.Solver.BuildWatchTwo` | sat.js:105-112 | The loop over clause ids builds `WatchIndex(dimacs)`. |
| `Sat.WatchInvStart` | sat.js:105-112 | The built index sets up the two-watched-literal invariant: with nothing assigned, every clause is watched on two of its positions. |
| `Sat.WatchInvSettled` | sat.js:182-220 | The invariant is the fixpoint propagation reaches: no clause it covers is falsified or unit; each is satisfied or has two literals that are not false. |
| `Sat.WatchInvSolved` | sat.js:121-129 | Under a total assignment the invariant means every clause it covers holds. |
| `Sat.WatchInvMono` | sat.js:240-269 | Learning a clause and rewatching keep the invariant of an earlier assignment: watches only grow and the input clauses keep their ids. |
| `Sat.Candidates` | sat.js:272-286 | At most four candidates. |
| `Sat.CandidatesMeaning` | sat.js:272-286 | Every candidate is a literal of a stored clause that is neither true nor false. There is none exactly when every literal of every stored clause is assigned one way or the other. |
| `Sat.NoCandidates` | sat.js:119-121 | An empty candidate list means the assignment is total on the stored clauses. |
| `Sat.CandidatesDistinct` | sat.js:278-281 | No two candidates share a variable. |
| `Sat.Solver.DecisionVariableHeuristic` | sat.js:272-286 | The nested loop with its early return at four computes `Candidates` over the clauses in storage order. |
| `Sat.ScanClause` | sat.js:277-285 | The inner loop over one clause: either it ends with fewer than four candidates taken from the whole clause, or it stops right after the literal that makes four. |
| `Sat.Resolvent` | sat.js:232-237 | The learned clause has no repeats and holds exactly the literals of the two clauses other than the conflict literal and its negation. |
| `Sat.Resolve` | sat.js:232-237 | The set-building loop of `analyzeConflict` computes `Resolvent`. |
| `Sat.ResolventEntailed` | sat.js:232-237 | The learned clause holds in every model of the stored clauses when the two clauses it comes from clash on the conflict literal. |
| `Sat.EntailedKept` | sat.js:253-254 | Storing a clause that every model already satisfies loses no model. |
| `Sat.Solver.AddNewClause` | sat.js:249-269 | A clause of two literals or more is appended at index `|dimacs|`. Unless it is already satisfied under the outer assignment, it is watched on its first two literals. A shorter clause changes nothing. Watch sets only grow, and the database stays valid. Appending a clause every model satisfies loses no model. |
| `Sat.Solver.FirstTwoDistinct` | sat.js:259-265 | The loop that collects watch literals picks the first two literals of a clause without repeats. |
| `Sat.Solver.AnalyzeConflict` | sat.js:224-247 | When learning is on and the earlier reason is a clause, the resolvent is learned if it has two literals or more. Otherwise neither the clauses nor the watches change. When the two clauses clash on the conflict literal, no model of the stored clauses is lost. |
| `Sat.Solver.Simplify` | sat.js:62-92 | Complementary units give a contradiction. A contradiction, from the units or from propagating them, means the nonempty input clauses have no model. On success the stored clauses are exactly the input clauses of two literals or more, in order, and the assignment is the propagation of the deduplicated units as `Given`. It holds every unit literal, every model of the nonempty input clauses makes it true and is a model of the stored clauses, and the watch invariant holds. |
| `Sat.SimplifyComplete` | sat.js:64-92 | Dropping the unit and empty clauses loses no model of the nonempty input clauses. Every such model makes the unit literals true, and so makes true everything propagation derives from them over the long clauses. |
| `Sat.ComplementaryUnitsRefute` | sat.js:66-72 | Unit clauses on a literal and on its negation: the nonempty input clauses have no model. |
| `Sat.PropagationRefutes` | sat.js:85-91 | Propagating the units over the long clauses fails: the nonempty input clauses have no model. |
| `Sat.NonEmpty` | sat.js:64-70 | The clauses `simplify` looks at are exactly the nonempty input clauses. |
| `Sat.InputSatisfied` | sat.js:64-70 | An assignment that holds every unit literal and satisfies every long clause satisfies every nonempty input clause. |
| `Sat.Solver.PropagateGiven` | sat.js:82-92 | Builds the watch index, then propagates the units from the empty assignment. On success the clauses are unchanged, the result extends nothing but the units and the literals they force, every model that makes the units true makes it true, and the watch invariant holds. A contradiction means no model of the long clauses makes the units true. |
| `Sat.Solver.MakeAssignment` | sat.js:155-156 | Propagating one literal: on success the literal holds with its reason, every other new literal is forced by a stored clause, and every model that makes the start true makes the result true. A conflict means no model of the clauses makes the start true. |
| `Sat.Solver.MakeAssignments` | sat.js:158-221 | On success the clauses are unchanged, and the result keeps every entry of the input, never holds `v` and `-v`, and holds each starting literal with the starting reason. Every other new literal has the clause that forced it as its reason. Every model that makes the start true makes the result true, and the watch invariant, when it held before, holds again. A conflict means no model makes the start true. Watch sets only grow, at most one clause is learned, and no model is lost. |
| `Sat.Solver.QueueStart` | sat.js:160-164 | Each starting literal is queued, in order, with the starting reason, and exactly the starting literals are seen. |
| `Sat.Solver.PassTurn` | sat.js:167-220 | One turn: the literal taken off the queue is assigned with its reason. Without a conflict the pass invariant and the watch invariant of the pass are kept and the termination measure drops. A conflict means no model makes the start true. |
| `Sat.PassWatchTurn` | sat.js:176-220 | Assigning a literal and repairing every clause watched on its negation keeps the watch invariant of the pass. |
| `Sat.PopStep` | sat.js:168-176 | The literal taken off the queue is neither true nor false yet, as the two assertions demand, and the pass invariant survives assigning it. |
| `Sat.PushStep` | sat.js:215-216 | Queueing a literal forced by a stored clause keeps the pass invariant. |
| `Sat.Solver.PropagateWatched` | sat.js:178-220 | Visiting the clauses watching `-lit` keeps the pass invariant and never increases the termination measure. Without a conflict the new watch index is exactly the old one with each visited clause rewatched on its two open literals, in order, and every visited clause is repaired: satisfied, holding a seen literal, or watched on two literals that are not false. A conflict means no model makes the start true. |
| `Sat.Solver.VisitClause` | sat.js:182-220 | A conflict is reported exactly when the watched clause has no literal left that is not false, or when its one such literal is the negation of a literal already seen in this pass, and then no model makes the start true. Otherwise the clause is rewatched exactly when two of its literals are open, and it is repaired. |
| `Sat.EmptyScanRefutes` | sat.js:190-196 | A visited clause with every literal false: no model makes the start of the pass true. |
| `Sat.RewatchRepairs` | sat.js:217-220 | A clause with two open literals, once rewatched, is watched on two literals that are not false. |
| `Sat.Solver.VisitUnit` | sat.js:197-216 | The forced literal is skipped if seen. If its negation was seen, that is a conflict, after learning, and no model makes the start true. Otherwise it is queued with its clause as the reason, and the clause then holds a seen literal. |
| `Sat.Solver.UnitClash` | sat.js:204-214 | Learning from the two clauses that force `plit` and `-plit` keeps every model, and no model makes the start of the pass true. |
| `Sat.SeenClash` | sat.js:204-214 | A clause unit on `plit` while `-plit` was seen: no model makes the start true, and when a clause forced `-plit` the two clauses clash on it. |
| `Sat.UnitPush` | sat.js:215-216 | Queueing the forced literal keeps the pass invariant, shrinks the termination measure and makes the clause hold a seen literal. |
| `Sat.ClauseForces` | sat.js:197-216 | A clause whose other literals are all false makes its last literal true in every model that makes the assignment true. |
| `Sat.FalsifiedRefutes` | sat.js:190-196 | A stored clause with every literal false under an implied assignment: no model makes the start true. |
| `Sat.ClashRefutes` | sat.js:204-214 | A clause forcing a literal whose negation is implied: no model makes the start true. |
| `Sat.Solver.Rewatch` | sat.js:217-220 | A clause with two open literals is also watched on both of them. |
| `Sat.Solver.RecordAssignment` | sat.js:313-317 | The assignment is appended exactly when the cap is unset or not yet reached. |
| `Sat.Solver.Found` | sat.js:121-135 | The full assignment is appended to `solutions` exactly when the cap allows it, and it satisfies every long input clause. The search reports a contradiction exactly when `continueSearching` holds, and the count never exceeds the cap. A contradiction means the assignment was recorded, so every model that makes it true makes a new solution true. |
| `Sat.Solver.DpllRec` | sat.js:117-152 | Every recorded solution extends the assignment searched from, is consistent, assigns every literal of the stored clauses and satisfies every long input clause. `solutions.length` never exceeds `maxNumberAssignments`. `satisfied` means `continueSearching` is false. Without enumeration a contradiction records nothing and means no model of the clauses makes the assignment true. With enumeration a contradiction means every model of the clauses that makes the assignment true makes some newly recorded solution true. |
| `Sat.Solver.Decide` | sat.js:140-152 | One branch: propagate the decision as an assumption, then search on from the extended assignment. Recorded solutions satisfy the long input clauses. A contradiction means, without enumeration, that no model makes the assignment and the decision true and, with enumeration, that every such model makes a newly recorded solution true. |
| `Sat.RefutedSplit` | sat.js:140-152 | Both decisions on a literal refuted: the assignment they extend is refuted, since every model decides that literal. |
| `Sat.RefutedBack` | sat.js:140-152 | Refuting what propagation implied refutes the start of the propagation. |
| `Sat.CoveredSplit` | sat.js:140-152 | If the recorded solutions cover the models of both decisions on a literal, the later ones over the clauses after learning in the first branch, they cover every model of the assignment both decisions extend. |
| `Sat.CoveredBack` | sat.js:140-152 | Solutions covering the models of what propagation implied cover the models of the start of the propagation. |
| `Sat.BranchesJoin` | sat.js:140-152 | Joining the two branches of a decision: solutions of either branch are solutions of the assignment, a contradiction without enumeration records nothing and refutes it, and a contradiction with enumeration covers its models. |
| `Sat.Solver.Dpll` | sat.js:114-115 | The search starts from the assignment `simplify` produced. Every new solution satisfies every nonempty input clause. Without enumeration a contradiction means the nonempty input clauses have no model. With enumeration a contradiction means every such model makes some newly recorded solution true. |
| `Sat.Solver.constructor` | sat.js:43-49 | A new solver enumerates nothing, has no cap, learns clauses and has no solutions. |
| `Logic.Dual` | logic.js:53-64 | `not` swaps AND/NAND, OR/NOR and XOR/EQ, and the dual connective is the negation of the original on every argument list. |
| `Logic.Negate` | logic.js:49-65 | `not(x)` has the opposite value of `x` under every valuation. It wraps `x` in a NOT node exactly when `x` is a variable. It maps a connective node to its dual over the same arguments, and a literal to a literal over the same variable. |
| `Logic.NegateNegate` | logic.js:49-52 | `not(not(x)) == x` structurally, exactly when `x` is not a NOT over an operator node. |
| `Logic.DisjunctsShape` | logic.js:145-156 | No term `deep_or` returns is an OR, and its terms of an encodable formula are encodable. |
| `Logic.DisjunctsEval` | logic.js:145-156 | A formula is true exactly when one of the terms `deep_or` returns is true. |
| `Logic.PushAll` | logic.js:153-154 | Pushing the arguments of an OR term adds their disjuncts after those already on the stack, and their sizes to its size. |
| `Logic.TseitinEncoder.DeepOr` | logic.js:145-156 | The stack loop followed by `reverse` returns the maximal non-OR subterms, left to right, and `[x]` when `x` is not an OR. |
| `Logic.GensymName` | logic.js:119-120 | A gensym name always contains `*`, so it never equals a user name without one. |
| `Logic.GensymNameInjective` | logic.js:119-120 | Two gensym names are equal only when their prefixes and counters are. |
| `Logic.FreshSplit` | logic.js:72-73 | Names made while the counter runs over two successive stretches are disjoint, so gensym names within one encoder are pairwise distinct. |
| `Logic.TseitinEncoder.Gensym` | logic.js:119-120 | The counter goes up by one and the name is `prefix*counter`. |
| `Logic.OrTemplate` | logic.js:126-131 | `tseitin_or` adds exactly `1 + n` clauses for `n` arguments. |
| `Logic.OrTemplateMeaning` | logic.js:126-131 | The clauses of `tseitin_or` hold exactly when `g` is the OR of its arguments. |
| `Logic.AndTemplate` | logic.js:136-141 | `tseitin_and` adds exactly `1 + n` clauses for `n` arguments. |
| `Logic.AndTemplateMeaning` | logic.js:136-141 | The clauses of `tseitin_and` hold exactly when `g` is the AND of its arguments. |
| `Logic.TseitinEncoder.TseitinOr` | logic.js:126-131 | Takes one fresh `or*k` name and appends the OR template for it. |
| `Logic.TseitinEncoder.TseitinAnd` | logic.js:136-141 | Takes one fresh `and*k` name and appends the AND template for it. |
| `Logic.EncodeArg` | logic.js:101-117 | `tseitin_arg` always returns a literal. It makes no fresh variable exactly when its argument is already a literal. |
| `Logic.EncodeArgs` | logic.js:98-99 | `tseitin_args` returns one literal per argument. |
| `Logic.EncodeOrs` | logic.js:92-96 | The clause of a non-AND subformula has one literal per term of `deep_or`. |
| `Logic.TseitinEncoder.TseitinArg` | logic.js:101-117 | Computes `EncodeArg`: the literal, the defining clauses appended to `clauses`, and the new counter. |
| `Logic.TseitinEncoder.TseitinArgs` | logic.js:98-99 | Computes `EncodeArgs`, encoding the arguments left to right. |
| `Logic.TseitinEncoder.TseitinOrs` | logic.js:92-96 | Computes `EncodeOrs`: a literal is its own clause, and anything else goes through `deep_or`. |
| `Logic.TseitinEncoder.TseitinAnds` | logic.js:80-87 | Computes `EncodeAnds`: AND nodes are entered, and every other subformula appends its definitions and then its own clause. |
| `Logic.TseitinEncoder.AddClause` | logic.js:89-90 | Appends one clause and leaves the counter alone. |
| `Logic.TseitinEncoder.Encode` | logic.js:75-77 | Encoding appends `EncodeAnds` of the formula from the current counter. |
| `Logic.TseitinEncoder.constructor` | logic.js:71-73 | A new encoder has no clauses and counter 0. |
| `Logic.Tseitin` | logic.js:67-68 | `tseitin(x)` is the clause list of a fresh encoder. |
| `Logic.TseitinNames` | logic.js:101-103 | Every emitted clause holds only variables or NOTs of variables. When no user name contains `*`, their names are user names or names gensym made in this run. |
| `Logic.TseitinSound` | logic.js:80-99 | Every valuation that satisfies the emitted CNF satisfies the formula. |
| `Logic.TseitinModels` | logic_tests.js:213-222 | A valuation satisfies the formula exactly when some valuation that agrees with it on every user name satisfies the emitted CNF. |
| `Logic.Passthrough` | logic.js:80-96 | An AND of ORs of literals is emitted clause for clause, with no fresh variable. |
| `Logic.ExampleOrsOfVariables` | logic.js:188-191 | `and(or(a,b), or(b,c,or(d,e)))` gives `[[a,b],[b,c,d,e]]`. |
| `Logic.ExampleOrsOfLiterals` | logic.js:193-197 | The same with some literals negated gives `[[¬a,b],[b,¬c,d,¬e]]`. |
| `Logic.ExampleLiterals` | logic.js:199-202 | `and(not(a), b)` gives `[[¬a],[b]]`. |
| `Logic.ExampleFreshVariables` | logic.js:207-208 | `or(and(a,b), and(c,d))` defines `and*1` and `and*2`, each by its three clauses placed before the clause `[and*1, and*2]` that uses them. |
| `Dimacs.Split` | dimacs.js:24-34 | There are no more clauses than integers, and no clause exactly when the input is empty. |
| `Dimacs.NextZero` | dimacs.js:28-30 | The inner loop stops at the first `0` after the clause start, or at the end of the input. |
| `Dimacs.SplitShape` | dimacs.js:28-31 | Every clause is non-empty, and only its first element can be `0`. |
| `Dimacs.TerminatedSplit` | dimacs.js:27-33 | Writing each clause followed by `0` gives back the input, plus one `0` when the last clause had no terminator. |
| `Dimacs.SplitTerminated` | dimacs.js:24-34 | Splitting clauses written in the wire format gives them back exactly. |
| `Dimacs.SplitClauses` | dimacs.js:24-34 | The two-index loop computes `Split`, and each clause is the slice up to the next terminator. |

## Left out

- `readDimacs` (dimacs.js:7-22) reads a file through a callback, filters lines and uses `parseInt`, which can give NaN. It is I/O, and `SplitClauses` takes the integer list it would produce.
- randomCNF.js, and sat_test.js and logic_tests.js as drivers, are left out. They rely on `Math.random`, timing and console output. Only their expected results are used, as the example lemmas and `Eval`.
- The `verbose` flag, `indent`, the `stats` counters, `initializeStats`, `printClauses` and the self-running tests of logic.js:160-217 are logging only.
- The `immutable` map is a Dafny `map` value. Sharing between search branches comes for free because it is a value.
- The encoders for XOR, EQ, NOR and NAND are called at logic.js:110-117 but not defined. A NOT over an operator node makes `tseitin_arg` return undefined. The encoder therefore requires `Encodable`: AND, OR, variables and NOT over a variable.
- `clausesToDimacs`, the mapping of symbolic clauses to numbers, is not part of this model.
- logic_tests.js:55-61 expects gensym names like `AND1`, which logic.js:120 does not produce. The model proves the `and*1` names of logic.js.
- `Logic.TseitinModels`: the names the encoder makes up contain `*`. The lemma requires the user's names to contain none, so the two cannot clash.
- In `analyzeConflict`, an earlier reason that is the string `'given'` or `'assumption'` would become a set of its characters. The model learns nothing in that case (`Sat.Solver.AnalyzeConflict`).
- Clause ids are string keys in `buildWatchTwo` and numbers in `addNewClause`. The model uses `nat` for both.
- `Sat.Solver.AddNewClause`: a learned clause already satisfied under the outer assignment is watched in the source under the characters of the string `'satisfied'`. The model watches it under no literal, since such keys match no literal.
- The assertions of `makeAssignments` (sat.js:174-175) and of `buildWatchTwo` (sat.js:109) are preconditions and invariants proved to hold, not run-time checks.
- `Sat.Solver.MakeAssignments`: the new watch index is stated turn by turn (`Sat.Solver.PropagateWatched` gives it as a function of the index before the turn), not as one function of the whole pass. Its watch-invariant result is stated only when the caller asks for it through a ghost flag: `dpllRec` and `simplify` do, and the invariant covers only the clauses `simplify` kept.
- `Sat.Solver.DpllRec`: the recursion depth parameter only indents log lines and is dropped.
- `Sat.Solver.constructor`: clauses holding the literal `0` are excluded. `0` is the DIMACS terminator, not a variable, and it has no negation distinct from itself: in JavaScript `0` and `-0` are the same `Map` key, so such a literal would be both true and false. `splitClauses` can still yield one, as the first element of a clause after a doubled terminator (`Dimacs.SplitShape`); handing that to `new sat` is outside the model.
- Termination of propagation and search is proved over the literals of the input clauses and their negations (a ghost `universe`). Learned clauses stay inside it.
