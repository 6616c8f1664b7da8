# Verification models for the PCE sampler

These Dafny modules model the reasoning core of the Probabilistic Consistency Engine, an MC-SAT sampler for Markov
logic written in C, and prove what it keeps, computes and preserves. `dafny verify dfyconfig.toml` checks everything.

**The search engine** (`ClauseLists`, `ListPool`, `SearchModel`, `SearchInvariant`, `SampTables`, `FlipCost`,
`WalkSat`, `SampleSat`, `Mcmc`). A search moves ground clauses between intrusive lists: live, sat, unsat, and one
watched list per literal. `ClauseLists` proves the list operations at the level of links, head, tail and length;
`ListPool` holds all lists of a table and proves that they stay acyclic and disjoint. `SearchModel` states one run as
a value: the assignment, the lists, and the clauses the source drops with a "no model exists" message. Its invariant
`Inv` says that

- every list means what it should (`ListsOk`: watched clauses contain the watched literal and it is true, sat clauses
  have a fixed true literal, unsat clauses are falsified, dropped clauses are falsified by fixed values);
- evidence is untouched (`KeepsEvidence`);
- every fixed value is forced, that is, holds in every model of the clauses and the evidence (`Sound`);
- no clause is lost or duplicated (`Conserved`).

`SearchInvariant` proves that all steps keep it and that draining the live list ends. `WalkSat`, `SampleSat` and
`Mcmc` are the methods on the heap; each is proved to make exactly the step that the value model makes. The result is
the safety theorem of MC-SAT, `Mcmc.McSatInternal`: when the first search reports success, the hard rules are
satisfied after every round, accepted or restored, if and only if the hard rules and the evidence have a model.

**The compiler** (`Cnf`, `Builtins`, `Grounding`, `Enumeration`, `LogWeight`, `GroundTables`, `AtomMatching`).
Formulas become conjunctive normal form by two mutually recursive translations, rules are instantiated over all
completions of a substitution and simplified against the evidence. The result is `GroundTables.AddCnf`: adding a
weighted quantified formula changes the total weight of every world by the weight of the formula, up to a constant
and to an exactly stated error. `CompiledRules` joins compiler and sampler over one table: `CompiledRules.Sample` says
that after a first search with success every assignment of an MC-SAT run makes every hard formula that `add_cnf` has
stored true, if some world that agrees with the evidence satisfies all hard rules, and that none satisfies them
otherwise.

**The structures underneath** (`Gcd`, `StrideSearch`, `AtomDecoding`, `HashTables`, `HashMap`, `Sfmt`, `Randomness`).
Binary gcd and the coprime stride search, mixed-radix decoding of atom numbers, the open-addressing hash map with
tombstones against a plain map over whole runs, and block generation of random words against the plain recurrence.

## How the source is represented

- Random draws are oracles: `choose()` appears as a boolean argument or an arbitrary function, `genrand_uint(n)` as
  any number below n. Every statement holds for all draws. The clock is the arbitrary number of rounds.
- Mode: eager inference, each rule with clauses in play fixed true, which is what `mc_sat_internal` sets up. No atom
  is undefined, and none carries a unit-propagation flag when a search starts.
- Clause objects carry a `link` field and are shared by the lists as in the source. Assignments are two arrays with a
  pointer to the current one.
- Where the source would read a stale stack slot (`choose_clause_var` with no candidate), the model returns
  `EmptyStack`. `SampleSat.StuckMeansNoModel` shows that this takes an unsatisfiable problem, so it never happens in a
  round.
- A record pointer of the hash map is the index of its slot, and `j & mask` is written as one step around the ring.
- Weights are reals, and `Hard` stands for `DBL_MAX`.

## Where the code falls short of what one would expect

Each of these is stated exactly, with an input that shows it.

- A first search can report success although the hard rules have no model: the contradicting clause is dropped, and
  the unsat list ends up empty (`Mcmc.FirstSearchReportsSuccess`). After a reported success the hard rules hold iff
  they have a model, and that is iff no clause was dropped with the message (`Mcmc.FirstSearchResult`).
- A ground clause that the evidence falsifies simplifies to the empty clause and is dropped as if it were true, so
  the weight of the formula is not preserved (`LogWeight.EmptyClauseBreaksPreservation`). `LogWeight.LogWeightExact`
  gives the error. `LogWeight.PreservedUpToConstantIff` and `GroundTables.AddCnf` say when the weight is preserved up
  to some constant, and `LogWeight.HardExact` at which groundings a hard formula loses its force.
- `match_atom_in_rule_atom` takes INT32_MIN for an unset variable, so an atom with that argument can match wrongly
  (`AtomMatching.MarkIsOverwritten`, `AtomMatching.RightForAllIff`).
- The overflow test of TIMES misses factors of different sign, and the negation in TIMES and MINUS overflows for
  INT32_MIN (`Builtins.ArithmeticFails`, `Builtins.TimesIsExact`, `Builtins.MinusIsExact`).
- The flip cost counts a clause with both literals of the atom as broken (`FlipCost.TautologyIsOvercounted`,
  `FlipCost.FlipCostBound`).
- `hmap_get` does not take back the count of a tombstone it reuses (`HashMap.ReusedTombstone`). The invariant
  `IntMap.Counted` says that `ndeleted` is the number of tombstones plus that of reuses since the last cleanup.

## Model

| member | source | states |
|---|---|---|
| ClauseLists.ClauseList.constructor | src/clause_list.c:18-25 | a new list is empty behind a fresh sentinel |
| ClauseLists.ClauseList.Empty | src/clause_list.c:42-46 | the list becomes empty, whatever its members' links are |
| ClauseLists.ClauseList.Insert | src/clause_list.c:48-59 | behind node k: the members become the first k, the clause, the others, and the chain stays acyclic with right tail and length |
| ClauseLists.ClauseList.Pop | src/clause_list.c:61-73 | exactly the member behind node k is unlinked and returned with a null link |
| ClauseLists.ClauseList.ConcatTo | src/clause_list.c:75-88 | the members move behind those of the other list, in order, and this list is empty |
| ClauseLists.ClauseList.Nth | src/clause_list.c:90-98 | walking the links from the sentinel ends at the drawn member |
| ListPool.Pool.Concat | src/clause_list.c:75-88 | concatenation inside the table keeps all lists valid and pairwise disjoint and changes only the two |
| TruthValues.CountUnfixedUpdate | src/walksat.c:162-167 | changing one atom changes the number of unfixed atoms by exactly that atom's change |
| TruthValues.CountUnfixedPositive | src/walksat.c:409-410 | the count is positive iff some atom is unfixed |
| WalkSat.GetFixableLiteral | src/walksat.c:29-70 | -2 iff all literals are fixed false and the rule fixed true; an index iff a literal is fixed true or the only one left; -1 with two open literals |
| WalkSat.GetTrueLiteral | src/walksat.c:75-87 | the first true literal, behind the last one for a false rule, or -1 |
| WalkSat.LinkPropagate | src/walksat.c:99-117 | the clauses watched by a literal that became false and all unsat clauses go back to live; the two assertions of the source are the preconditions |
| WalkSat.UpdateAtomTval | src/walksat.c:127-205 | exactly the value-level update; -1 iff the atom is fixed to the other truth value; the count of unfixed atoms stays right |
| WalkSat.InsertLiveClause | src/walksat.c:249-307 | exactly the value-level insertion; a single literal that is not fixed false ends fixed true with the clause on the sat list, and a clause with a fixed true or two open literals changes no value |
| WalkSat.ScanLiveClauses | src/walksat.c:376-383 | terminates, keeps the invariant, and computes the value-level drain of the live list |
| WalkSat.InitLiveClauses | src/walksat.c:351-374 | for any rule values: all lists empty but live, which holds the clauses of the true rules in order |
| SampTables.LiveClausesInOrder | src/walksat.c:366-373 | the clauses of the true rules come rule by rule |
| WalkSat.InitRandomAssignment | src/walksat.c:385-400 | exactly the given coin tosses on the atoms that are not fixed |
| WalkSat.FlipUnfixedVariable | src/walksat.c:223-240 | the invariant is kept and the live list drained; an unfixed atom takes the opposite value, and besides only unit propagation fixes atoms |
| WalkSat.CostFlipUnfixedVariable | src/walksat.c:558-607 | walking the two lists by their links counts the critical watched clauses minus the unsat clauses with the other literal |
| WalkSat.ChooseClauseVar | src/walksat.c:629-679 | an unfixed literal, in the greedy branch one of least cost; the stack is empty iff no literal is unfixed |
| SearchModel.Classify | src/walksat.c:21-70 | fixed unsat iff every literal is fixed false; open iff none is fixed true and two are not fixed false |
| SearchModel.AllConcat | src/clause_list.c:75-88 | concatenation keeps the collection of all clauses in all lists |
| SearchInvariant.UpdateKeeps | src/walksat.c:127-205 | setting an unfixed atom keeps the whole invariant, with clauses waiting in live or in hand |
| SearchInvariant.InvWatched | src/walksat.c:104-110 | the assertions of link_propagate hold whenever the invariant does |
| SearchInvariant.OnlyOpenIsForced | src/walksat.c:56-69 | soundness of unit propagation: a literal left alone holds in every model of clauses and evidence |
| SearchInvariant.FixedFalsifiedRefutes | src/walksat.c:258-262 | a clause that is fixed unsat refutes every model: the message is true when it is given |
| SearchInvariant.UpdateExact | src/walksat.c:127-205 | an atom that is not fixed takes the value, a fixed one is left alone; lists change only with the truth value: live takes the clauses watched by the literal that became false, then the unsat ones |
| SearchInvariant.FourClasses | src/walksat.c:29-70 | every clause is fixed unsat, has a fixed true literal, a single open one, or two open ones |
| SearchInvariant.InsertExact | src/walksat.c:249-307 | without propagation no value changes: a fixed unsat clause is dropped, one with a fixed true literal goes to the sat list, one with two open literals to the list of its first true literal, or to the unsat list if it has none |
| SearchInvariant.InsertPropagates | src/walksat.c:294-305 | a single open literal is fixed true, its clause goes to the sat list, and the clauses its negation watched go back to live if it was false |
| SearchInvariant.InsertKeeps | src/walksat.c:249-307 | whichever list takes the clause, the whole invariant is kept, conservation of clauses included |
| SearchInvariant.ScanStepKeeps | src/walksat.c:376-383 | popping a live clause and inserting it keeps the invariant |
| SearchInvariant.ScanStepProgress | src/walksat.c:376-383 | each turn fixes an atom, or leaves all values alone and shortens the live list, although propagation refills it |
| SearchInvariant.ScanOnlyFixes | src/walksat.c:376-383 | draining the live list changes a value only by fixing an unfixed atom |
| SearchInvariant.WhereIs | src/tables.c:2093-2160 | with live empty, every clause is on the sat, unsat or a watched list, or was dropped |
| SearchInvariant.UnsatListExact | src/tables.c:2106-2115 | with live empty, the falsified clauses are exactly the unsat list and the dropped ones |
| SearchInvariant.UnsatListExclusive | src/tables.c:2106-2115 | with live empty, a clause that occurs once in the problem is on the unsat list iff it is falsified and was not dropped |
| SearchInvariant.UnsatClauseIsOpen | src/walksat.c:629-679 | a falsified clause of a satisfiable problem keeps an unfixed literal |
| SearchInvariant.NothingRejected | src/walksat.c:258-262 | a satisfiable problem never loses a clause, at any point of a run |
| SearchInvariant.RandomizeExact | src/walksat.c:385-400 | randomisation gives the unfixed atoms their tosses and leaves all others alone |
| SearchInvariant.FlipFlips | src/walksat.c:223-240 | a flip gives an unfixed atom the opposite value, on top of which unit propagation may only fix atoms |
| SearchInvariant.StartTosses | src/samplesat.c:44-77 | at the start of a search every unfixed atom has the value of its toss, and what propagation fixed before the tosses stays |
| SearchInvariant.InitialInv | src/samplesat.c:44-77 | the state that init_live_clauses leaves satisfies the invariant |
| FlipCost.FlipCostExact | src/walksat.c:558-607 | the cost is the true change in the number of falsified clauses plus the number of critical watched clauses with both literals of the atom |
| FlipCost.FlipCostBound | src/walksat.c:558-607 | the cost is never below the true change, and equal to it iff no watched clause depends on both literals, in particular when no clause has both |
| FlipCost.WatchesTautology | src/walksat.c:249-307 | a search on one clause with an atom and its negation puts it on the watched list of the true literal |
| FlipCost.TautologyIsOvercounted | src/walksat.c:577-591 | in that state the cost of a flip is 1 although nothing is falsified |
| Gcd.Gcd32 | src/gcd.c:12-40 | shifts and subtraction give a common divisor that every common divisor divides, bounded by both inputs |
| Gcd.GcdUnique | src/gcd.c:12-40 | there is only one such number |
| StrideSearch.PlacesDiffer | src/walksat.c:421-427 | with a coprime stride the first n places are pairwise different, so the assertion in the loop never fails |
| StrideSearch.PlaceEquation | src/walksat.c:421-427 | i strides with the jumps back to the start are i times the stride, up to whole rounds |
| StrideSearch.WalkReachesAll | src/walksat.c:421-428 | the walk reaches every atom within n places |
| StrideSearch.ChooseStride | src/walksat.c:417-419 | the largest number up to the draw that is coprime to the number of atoms |
| StrideSearch.Walk | src/walksat.c:421-428 | terminates with the first unfixed atom on the walk |
| StrideSearch.ChooseUnfixedVariable | src/walksat.c:402-429 | -1 iff no atom is unfixed, otherwise the first unfixed atom on a walk with a stride coprime to the number of atoms |
| SampleSat.InitSampleSat | src/samplesat.c:44-77 | propagation, tosses and a second drain: the value-level start of a search |
| SampleSat.SampleSatBody | src/samplesat.c:89-151 | annealing flips an unfixed atom iff it costs nothing or the draw accepts; otherwise an admissible atom of an unsat clause is flipped |
| SampleSat.StepFlips | src/samplesat.c:89-151 | a step changes nothing or flips one unfixed atom, in the WalkSAT branch one of an unsat clause, followed by unit propagation |
| SampleSat.StuckMeansNoModel | src/walksat.c:675-676 | no candidate for a flip means that no model exists |
| SampleSat.UnfixAssignmentArray | src/samplesat.c:157-166 | only the propagation flags go, and the unfixed atoms are recounted |
| SampleSat.FinishedSearch | src/samplesat.c:190-203 | after a search: evidence kept, all other atoms unfixed, the unsatisfied clauses are the unsat list and the dropped ones, and anything dropped means no model |
| SampleSat.FlipUntilSatisfied | src/samplesat.c:182-188 | a chain of steps, each from a state with an unsat clause, that ends without one or after all flips |
| SampleSat.FlipWithExtra | src/samplesat.c:240-253 | a chain of steps in which exactly the used extra flips start without unsat clauses |
| SampleSat.FirstSampleSat | src/samplesat.c:171-204 | a run from the start state in which every flip leaves a state with an unsat clause, and its result for every return value: success iff the run ends without unsat clauses, failure only after all flips, an empty candidate stack only at an unsat clause without unfixed literals |
| SampleSat.SampleSat | src/samplesat.c:229-270 | the result of a finished search, with the last state of the run; the first part of the run makes at most maxFlips flips, at most maxExtraFlips of them from states without unsat clauses, the second starts without unsat clauses and makes fewer flips than there are extra flips left, or none |
| Mcmc.EvalClause | src/utils.c:323-330 | -1 iff the clause is not satisfied, otherwise the index of the first true literal |
| Mcmc.EvalRuleInst | src/utils.c:333-341 | -1 iff all clauses are satisfied, otherwise the first clause that is not |
| Mcmc.InitRuleInstances | src/mcmc.c:95-105 | exactly the hard rules are live |
| Mcmc.RestoreSatDeadRuleInstances | src/mcmc.c:118-131 | exactly the rules satisfied by the assignment are live |
| Mcmc.KillRuleInstances | src/mcmc.c:76-90 | exactly the live rules that are hard or survive their draw stay live |
| Mcmc.ResetSampleSat | src/mcmc.c:165-194 | live are exactly the satisfied rules that are hard or survive |
| Mcmc.CopyAssignmentArray | src/utils.c:344-350 | the other array becomes current with the same contents, the old one is the backup |
| Mcmc.RestoreAssignmentArray | src/utils.c:353-363 | the backup is current again and its unfixed atoms are recounted |
| Mcmc.RoundIsConsistent | src/mcmc.c:165-194 | the clauses selected for a round always have a model, the current assignment |
| Mcmc.Round | src/mcmc.c:458-480 | no clause is dropped and no search gets stuck; accepted iff the search ends without unsat clauses, in the assignment it found; evidence and satisfied hard rules are kept, on acceptance all selected rules hold, otherwise the assignment is the old one; the search keeps within its two budgets |
| Mcmc.EvidenceStays | src/mcmc.c:432-480 | evidence keeps its values along every run, all other atoms end every round unfixed |
| Mcmc.HardRulesStay | src/mcmc.c:432-480 | a hard rule satisfied once is satisfied for the rest of the run |
| Mcmc.FirstSearchResult | src/samplesat.c:171-204 | after a first search with empty unsat list the hard rules are satisfied iff they have a model with the evidence, and iff no clause was dropped |
| Mcmc.SafeExactlyWhenSatisfiable | src/mcmc.c:424-480 | along every run: hard rules satisfied at every point iff satisfiable at all |
| Mcmc.McSatInternal | src/mcmc.c:390-480 | for every outcome a first search on the hard rules has taken place, within its flips and with the result that its last state gives; after success the run starts in the assignment found and every two consecutive assignments are linked by a round with all that holds of it; hard rules hold in all of them iff they can |
| Mcmc.UnsatisfiableStartGoesUnnoticed | src/walksat.c:258-262 | a concrete problem without model whose search starts with an empty unsat list, for all tosses |
| Mcmc.FirstSearchReportsSuccess | src/samplesat.c:171-204 | on that problem first_sample_sat returns 0, for all draws and any number of flips |
| Cnf.ProductTrue | src/cnf.c:267-311 | the product of two clause forms means their disjunction |
| Cnf.ProductShape | src/cnf.c:275-301 | exactly n1 * n2 clauses, none empty, over exactly the atoms of both |
| Cnf.ProductAt | src/cnf.c:287-301 | clause i of one form joined with clause j of the other stands in row i, column j |
| Cnf.ComputeProduct | src/cnf.c:267-311 | the loops fill the array with exactly the product |
| Cnf.ComputeUnion | src/cnf.c:317-340 | the loops give one form behind the other |
| Cnf.CnfExists | src/cnf.c:240-257 | NULL iff some atom could not be resolved, in both polarities |
| Cnf.Connectives | src/cnf.c:344-428 | the six connectives by their laws: negation and conjunction by truth tables, the others in terms of these |
| Cnf.CnfCorrect | src/cnf.c:344-428 | cnf_pos is true iff the formula is, cnf_neg iff it is not, for all six connectives and every valuation |
| Cnf.CnfShape | src/cnf.c:344-428 | either polarity has no empty clause, exactly the atoms of the formula, and at most Bound(height) clauses |
| Cnf.BoundIsPower | src/cnf.c:366-379 | Bound(h) is 4^(2^h - 1) |
| Cnf.SameVariables | src/cnf.c:448-535 | the clauses mention exactly the variables of the formula, so no variable is renumbered |
| Builtins.PlusIsExact | src/utils.c:389-397 | PLUS is the exact relation on all 32-bit operands |
| Builtins.ComparisonsAreExact | src/utils.c:365-387 | EQ, NEQ, LT, LE, GT and GE are the exact relations on all 32-bit operands |
| Builtins.WrongArity | src/utils.c:441-470 | a wrong number of arguments is answered with true |
| Builtins.MinusIsExact | src/utils.c:399-401 | MINUS is the exact relation for every result iff the second operand is not INT32_MIN |
| Builtins.TimesIsExact | src/utils.c:403-411 | TIMES is the exact relation for every result iff a product of mixed signs is not below INT32_MIN and not both factors are INT32_MIN |
| Builtins.ArithmeticFails | src/utils.c:399-411 | operands for which TIMES and MINUS give the wrong answer |
| Builtins.DivisionIsExact | src/utils.c:413-419 | DIV and REM together are truncating division: a smaller remainder with the sign of the dividend |
| Grounding.SimplifyExact | src/ground.c:296-332 | a dropped clause is true, a kept one has the truth value of the substituted clause, in every world that agrees with the evidence |
| Grounding.SimplifyNone | src/ground.c:302-311 | NULL iff some direct literal is true |
| Grounding.SimplifyKeeps | src/ground.c:300-332 | what is left of a clause are exactly the ground literals of atoms that are neither builtin nor observable |
| Grounding.KeptMembers | src/ground.c:338-349 | kept are exactly the simplified clauses that have a literal left |
| Grounding.KeptExact | src/ground.c:334-360 | the substituted rule is true iff all kept clauses are and none was dropped as empty |
| GroundTables.GroundTable.AddInternalAtom | src/ground.c:1631-1704 | an atom is interned once; evidence, old atoms, their values and the meaning of all instances stay |
| GroundTables.GroundTable.AssertAtom | src/input.c:858-887 | an atom of an observable predicate joins the evidence, and neither the other evidence nor the meaning of the instances changes; any other is refused with -1 |
| GroundTables.DirectLiteralTval | src/ground.c:215-262 | the value of a direct literal under builtins and the closed world |
| GroundTables.RuleClauseToSampClause | src/ground.c:296-332 | the literals, read back, are exactly the simplified clause; only the atoms up to the first true direct literal are interned |
| GroundTables.TouchedExact | src/ground.c:296-332 | interned are exactly the atoms of indirect literals with no true direct literal before them |
| GroundTables.SampRuleToRuleInstance | src/ground.c:334-360 | the clauses, read back, are exactly the kept ones |
| GroundTables.SubstitRule | src/ground.c:470-540 | one instance unless nothing is kept; exactly the atoms met are interned, in order, and nothing else changes |
| GroundTables.AllRuleInstancesRec | src/ground.c:549-581 | one instance per completion in order, exactly the atoms met are interned, and the buffer is restored by backtracking |
| GroundTables.AllRuleInstances | src/ground.c:583-592 | the instances of all groundings |
| GroundTables.SpelledTrue | src/cnf.c:705-742 | without builtins, the unsimplified clauses are true in a world iff the clauses of the rule are |
| GroundTables.AddGround | src/cnf.c:703-742 | a formula without variables becomes one instance with all its literals, and exactly their atoms are interned |
| GroundTables.AddCnf | src/cnf.c:643-832 | quantified: the weight of every agreeing world grows by the formula's weight minus a constant plus the stated error, which vanishes in all of them iff every grounding with a dropped false clause and an instance is refuted by its other clauses; the weight grows by the formula's weight up to some constant iff that error is the same in all agreeing worlds; as a hard formula it demands its truth at every grounding up to the same error. Without variables: both exactly. Nothing happens for negligible weights, unresolved atoms and unused variables |
| Enumeration.CompletionsExact | src/ground.c:549-581 | the enumeration reaches exactly the completions of a partial substitution over the sorts |
| Enumeration.CompletionsDistinct | src/ground.c:566-579 | over duplicate-free sorts none is reached twice |
| Enumeration.CompletionsOrdered | src/ground.c:549-581 | they come in lexicographic order of the positions in the sorts, the last variable running fastest |
| Enumeration.SortElements | src/tables.h:126-143 | a sort contains exactly the listed values, or the integers from its lower bound on |
| Enumeration.SortOrder | src/tables.h:126-143 | its elements come as listed or increasing; a subrange is duplicate-free, a list iff it has no value twice |
| GroundTables.GroundingsExact | src/cnf.c:745-817 | the groundings of a formula are exactly the ways to give each of its variables an element of its sort |
| LogWeight.CompileNothing | src/cnf.c:655-668 | nothing is compiled iff the weight is negligible or an atom is unresolved |
| LogWeight.LogWeightExact | src/cnf.c:655-664 | formula weight is instance weight plus a constant minus the weight of the instances that are satisfied only because a false clause was dropped, negative weights included |
| LogWeight.PreservedIff | src/mcmc.c:137-159 | in an agreeing world the two weights differ by the constant of the evidence alone iff no instance with a dropped false clause has all its kept clauses true there |
| LogWeight.PreservedUpToConstantIff | src/mcmc.c:137-159 | the two weights differ by one constant, whichever, in all agreeing worlds iff the miscounted weight is the same in all of them |
| LogWeight.SameDifferenceIff | src/mcmc.c:137-159 | the differences in two agreeing worlds are equal iff the same weight is miscounted in both |
| LogWeight.LogWeightPreserved | src/mcmc.c:137-159 | without empty ground clauses the difference of the two weights is the same for all worlds that agree with the evidence |
| LogWeight.HardExact | src/ground.c:334-360 | for hard formulas: all instances hold iff the formula (for a negative weight its negation) holds at every grounding, except where a false clause was dropped and all kept clauses are true |
| LogWeight.EmptyClauseBreaksPreservation | src/ground.c:342-347 | a quantified formula and two worlds that agree with the evidence: the formula weight is 0 in both, the instance weight 0 in one and 1 in the other |
| GroundTables.ExampleGroundings | src/ground.c:566-579 | the groundings of that example are those add_cnf enumerates for one variable over a sort with one element |
| CompiledRules.RuleInWorld | src/utils.c:333-341 | a stored instance is satisfied by an assignment iff its clauses, read back, are true in the world of the assignment |
| CompiledRules.ModelIff | src/samplesat.c:171-204 | the hard clauses of the sampler have a model that keeps the fixed values iff some world agrees with the evidence and satisfies all hard instances |
| CompiledRules.AddedIsCompiled | src/cnf.c:643-832 | the instances of a hard formula stay together, whatever is added later |
| CompiledRules.FormulaHolds | src/ground.c:334-360 | a world that satisfies all hard instances makes each stored hard formula true at every grounding without an unnoticed false clause |
| CompiledRules.GroundFormulaHolds | src/cnf.c:703-742 | such a world makes each stored hard formula without variables true |
| CompiledRules.Sample | src/mcmc.c:390-480 | after a first search with success: the hard rules hold in every assignment of the run iff some agreeing world satisfies them, and then every stored hard formula is true in all of them; for every outcome the first search has taken place, and the rounds are those of Mcmc.McSatInternal |
| AtomMatching.MatchAtomInRuleAtom | src/ground.c:1506-1545 | the loop accepts iff constants agree and later occurrences repeat the value, and the buffer holds the last values |
| AtomMatching.MatchIsExact | src/ground.c:1506-1545 | for one rule atom the answer is right iff it is not an acceptance in which an INT32_MIN argument precedes another value of its variable |
| AtomMatching.RightForAllIff | src/ground.c:1506-1545 | for all rule atoms of the predicate the answer is right iff no INT32_MIN argument of the ground atom has another value behind it |
| AtomMatching.MarkIsOverwritten | src/ground.c:1533-1540 | a concrete atom for which the answer is wrong |
| AtomMatching.LeastMatch | src/ground.c:267-279 | substituting the buffer gives the ground atom back, and every matching substitution agrees with the buffer |
| AtomDecoding.DigitsOfNumber | src/walksat.c:512-515 | the digits of a number are in range and give the number back |
| AtomDecoding.NumberOfDigits | src/walksat.c:512-515 | every digit string is the digits of its number |
| AtomDecoding.DigitWeight | src/walksat.c:512-515 | one more in digit i adds the number of digit strings before it: the first argument is the least significant digit |
| AtomDecoding.ZeroDigits | src/walksat.c:512-515 | number 0 has only digits 0 |
| AtomDecoding.DecodeAtom | src/walksat.c:478-529 | prefix sums, then successive division: the atom that the number denotes |
| AtomDecoding.DenotesOne | src/walksat.c:484-494 | a number denotes at most one atom |
| AtomDecoding.DenotesWellSorted | src/walksat.c:512-527 | what a number denotes is well sorted |
| AtomDecoding.EachAtomOnce | src/walksat.c:451-458 | over duplicate-free sorts each well-sorted atom has exactly one number below the total |
| HashTables.SomeEmpty | src/hash_map.c:244 | fewer records and tombstones than slots leave an empty slot, which ends every probe loop |
| HashTables.SizeOfMap | src/hash_map.c:213-233 | the number of records is the number of keys |
| HashTables.HomeExact | src/hash_map.c:194 | the first slot of a search is what whole rounds of the ring leave of the hash |
| HashTables.AbsentAtGap | src/hash_map.c:187-205 | a search that arrives at an empty slot has proved the key absent, tombstones or not |
| HashTables.Recorded | src/hash_map.c:269-274 | a record in a free slot on its probe path adds exactly its key |
| HashTables.Unrecorded | src/hash_map.c:286-288 | marking a record deleted removes exactly its key and keeps all others findable |
| HashMap.IntMap.constructor | src/hash_map.c:17-50 | an empty map with 3n/5 and n/5 as thresholds |
| HashMap.Thresholds | src/hash_map.c:47-50 | the thresholds are 0.6 and 0.2 of the size, rounded down |
| HashMap.IntMap.Find | src/hash_map.c:187-205 | the record of the key, NULL iff the key is absent; the probe loop ends |
| HashMap.IntMap.Lookup | src/hash_map.c:246-264 | both probe loops end; the record of the key, otherwise the first free slot that a search for the key looks at |
| HashMap.IntMap.Get | src/hash_map.c:239-277 | exactly the key is added with value -1 if it was absent, and nothing at all changes if it was there; the table doubles iff a new key meets the threshold; out of memory iff that makes it too large |
| HashMap.IntMap.GetClean | src/hash_map.c:213-233 | after an extension the absent key gets a record |
| HashMap.CleanCopy | src/hash_map.c:93-106 | the record becomes findable in the new table, and no other changes |
| HashMap.IntMap.Cleanup | src/hash_map.c:112-134 | the same map without tombstones |
| HashMap.IntMap.Extend | src/hash_map.c:140-171 | the same map in twice the slots, with new thresholds |
| HashMap.IntMap.Erase | src/hash_map.c:283-292 | exactly the key of the record goes; the table is cleaned iff there are too many tombstones |
| HashMap.IntMap.Reset | src/hash_map.c:299-312 | all slots are empty and the counters 0, in a table of the same size |
| HashMap.IntMap.AddRecord | src/hash_map.c:269-274 | the new record in a free slot; a reused tombstone stays counted in ndeleted |
| HashMap.ReusedTombstone | src/hash_map.c:258-274 | get, erase and get of one key leave ndeleted at 1 without any tombstone, for every hash function |
| HashMap.Run | src/hash_map.c:187-312 | every run of operations answers as a plain partial map, for every hash function, and is cut short only by a get of a new key in a table that is full and cannot double |
| Sfmt.ExtendWindow | src/SFMT.c:278-295 | generation from a later state continues the same sequence |
| Sfmt.WordAt | src/SFMT.c:278-295 | every generated word is the recursion of the words n, n - pos1, 2 and 1 places before it |
| Sfmt.LanesOfWord | src/SFMT.c:440-453 | the four lanes make up the 128-bit word |
| Sfmt.FourWords | src/SFMT.c:440-453 | four 32-bit words in a row are one generated word, the first lane first |
| Sfmt.GenRandAll | src/SFMT.c:278-295 | the in-place loops leave the next n words of the recurrence |
| Sfmt.GenRandArray | src/SFMT.c:304-334 | any size from n on: the array is the next words of the recurrence, the state its last n |
| Sfmt.Generator.GenRand32 | src/SFMT.c:440-453 | delivers the next word of the seed's stream |
| Sfmt.Generator.FillArray32 | src/SFMT.c:518-528 | delivers the same words as repeated calls of gen_rand32 and leaves the generator behind them |

## Left out

- Lazy inference (activate_atom, activate_rules, the smart_ grounding functions, the lazy branch of sample_sat_body): it adds atoms and clauses during a scan.
- gibbs_sample, perturb_assignment and the sample counts of update_pmodel: not part of this model.
- mw_sat and soft rules in a search: rules with clauses in play are fixed true in MC-SAT.
- WalkSat.InsertLiveClause: asks for a rule that is fixed true, so the branches that fix or watch a soft rule are not modelled.
- WalkSat.ChooseClauseVar: the rule of the clause is never a candidate for the same reason; the read of an unwritten stack slot is the result EmptyStack, and the sentinel INT32_MAX of the least cost is the test for an empty stack.
- SampleSat.SampleSatBody: the lazy choice of an atom is not modelled, and EmptyStack ends the step as Stuck.
- SampleSat.FirstSampleSat: a search that would read the unwritten slot ends as StackEmpty, which needs an unsatisfiable problem.
- SampleSat.SampleSat: an empty candidate stack ends the search as Stuck, which needs an unsatisfiable problem.
- Mcmc.McSatInternal: Gibbs steps, perturbation and sample counts are not modelled.
- Atoms that are undefined, and propagation flags before a search starts: excluded by the preconditions of the searches.
- Probabilities: draws are arbitrary, so nothing is said about distributions or about exp and the temperature.
- Lengths and costs beyond 32 bits: lists, clause counts and the products in clausification are unbounded here.
- Shared text buffers (atom_buffer, clause_buffer, rule_buffer), freeing, and copying of literals in cnf_product: results are values.
- LogWeight.LogWeightExact: weights are reals, DBL_MAX being one of them; that sat_clause_weight returns DBL_MAX itself once a hard instance is satisfied is not modelled, and LogWeight.HardExact takes its place.
- GroundTables.AddCnf: without variables the formula must be free of builtins, for which the source indexes the predicate table outside its bounds.
- CompiledRules.Sample: grounder and sampler read one struct in the source; here two tables are related by SameTables.
- Builtins.TimesIsExact: signed overflow is undefined in C and wraps around here, also in MINUS.
- Builtins.DivisionIsExact: INT32_MIN divided by -1, undefined in C for DIV and REM, is computed exactly.
- Sort inference in atom_to_rule_literal: a leaf holds the resolved atom, or None for the reported errors.
- hash_map.c: hmap_remove_random and copy_hmap are not modelled, and neither is the identity of the jenkins hash, which is an arbitrary function.
- array_hash_map.c: atom interning is a finite map in GroundTables.
- Sfmt.GenRandAll: the recursion on 128-bit words with its shifts and masks is a parameter, as are the block size and the pick-up position; 64-bit generation, seeding and the vector variants are not part of this model.
- Parsing, printing, servers, options, timeouts, threads, weight learning.
