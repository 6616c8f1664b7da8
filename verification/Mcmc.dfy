/** The MC-SAT loop (src/mcmc.c:85-194, src/mcmc.c:382-499), without Gibbs steps. */
module Mcmc {
  import opened TruthValues
  import opened ClauseLists
  import opened SearchModel
  import opened SearchInvariant
  import opened SampTables
  import opened SampleSat

  // ----- rule instances under an assignment -----

  ghost predicate RuleInRange(r: RuleInst, n: nat) {
    forall c :: c in r.conjunct ==> ClauseInRange(c, n)
  }

  /** All clauses of the rule instance are satisfied. */
  ghost predicate RuleSatisfied(a: Assignment, r: RuleInst)
    requires RuleInRange(r, |a|)
  {
    forall c :: c in r.conjunct ==> Satisfied(a, c)
  }

  /** eval_clause: the position of the first true literal, or -1. */
  method EvalClause(a: array<TruthValue>, clause: Clause) returns (r: int)
    requires ClauseInRange(clause, a.Length)
    ensures r == -1 <==> !Satisfied(a[..], clause)
    ensures r != -1 ==> 0 <= r && FirstTrueAt(a[..], clause, r)
  {
    for i := 0 to |clause.lits|
      invariant forall k :: 0 <= k < i ==> !TrueLit(a[..], clause.lits[k])
    {
      if AssignedTrueLit(a, clause.lits[i]) {
        return i;
      }
    }
    return -1;
  }

  /** eval_rule_inst: -1 when satisfied, otherwise the position of the first clause that is not. */
  method EvalRuleInst(a: array<TruthValue>, rinst: RuleInst) returns (r: int)
    requires RuleInRange(rinst, a.Length)
    ensures r == -1 <==> RuleSatisfied(a[..], rinst)
    ensures r != -1 ==> 0 <= r < |rinst.conjunct| && !Satisfied(a[..], rinst.conjunct[r])
    ensures r != -1 ==> forall k :: 0 <= k < r ==> Satisfied(a[..], rinst.conjunct[k])
  {
    for i := 0 to |rinst.conjunct|
      invariant forall k :: 0 <= k < i ==> Satisfied(a[..], rinst.conjunct[k])
    {
      var value := EvalClause(a, rinst.conjunct[i]);
      if value == -1 {
        return i;
      }
    }
    return -1;
  }

  // ----- choosing the live rules -----

  /** init_rule_instances: hard rules live, soft rules dead. */
  method InitRuleInstances(t: SampTable)
    requires t.Valid()
    modifies t.ruleAssignment
    ensures t.Valid() && t.RulesDecided()
    ensures forall i :: 0 <= i < |t.rules| ==> (t.ruleAssignment[i] == UpTrue <==> t.rules[i].weight == Hard)
  {
    for i := 0 to |t.rules|
      invariant t.Valid()
      invariant forall k :: 0 <= k < i ==> t.ruleAssignment[k] == if t.rules[k].weight == Hard then UpTrue else UpFalse
    {
      t.ruleAssignment[i] := if t.rules[i].weight == Hard then UpTrue else UpFalse;
    }
  }

  /** restore_sat_dead_rule_instances: live exactly when satisfied by the assignment. */
  method RestoreSatDeadRuleInstances(t: SampTable)
    requires t.Valid()
    modifies t.ruleAssignment
    ensures t.Valid() && t.RulesDecided()
    ensures forall i :: 0 <= i < |t.rules| ==> RuleInRange(t.rules[i], t.numVars)
    ensures forall i :: 0 <= i < |t.rules| ==>
              (t.ruleAssignment[i] == UpTrue <==> RuleSatisfied(t.assignment[..], t.rules[i]))
  {
    hide CountUnfixed, NoUndef, RuleSatisfied;
    for i := 0 to |t.rules|
      invariant t.Valid()
      invariant forall k :: 0 <= k < i ==> RuleInRange(t.rules[k], t.numVars)
      invariant forall k :: 0 <= k < i ==>
                  t.ruleAssignment[k] == if RuleSatisfied(t.assignment[..], t.rules[k]) then UpTrue else UpFalse
    {
      var unsat := EvalRuleInst(t.assignment, t.rules[i]);
      t.ruleAssignment[i] := if unsat == -1 then UpTrue else UpFalse;
    }
  }

  /** kill_rule_instances: a live soft rule whose draw fails dies, everything else stays. */
  method KillRuleInstances(t: SampTable, survives: nat -> bool)
    requires t.Valid() && t.RulesDecided()
    modifies t.ruleAssignment
    ensures t.Valid() && t.RulesDecided()
    ensures forall i :: 0 <= i < |t.rules| ==>
              (t.ruleAssignment[i] == UpTrue
               <==> old(t.ruleAssignment[i]) == UpTrue && (t.rules[i].weight == Hard || survives(i)))
  {
    for i := 0 to |t.rules|
      invariant t.Valid() && t.RulesDecided()
      invariant forall k :: i <= k < |t.rules| ==> t.ruleAssignment[k] == old(t.ruleAssignment[k])
      invariant forall k :: 0 <= k < i ==>
                  (t.ruleAssignment[k] == UpTrue
                   <==> old(t.ruleAssignment[k]) == UpTrue && (t.rules[k].weight == Hard || survives(k)))
    {
      if !AssignedTrue(t.ruleAssignment[i]) {
        continue;
      }
      if !(t.rules[i].weight == Hard || survives(i)) {
        t.ruleAssignment[i] := UpFalse;
      }
    }
  }

  ghost predicate Holding(r: RuleInst, a: Assignment) {
    RuleInRange(r, |a|) && RuleSatisfied(a, r)
  }

  /** The live rules of a round: exactly the satisfied ones that are hard or survive their draw. */
  ghost predicate Selected(rules: seq<RuleInst>, live: seq<TruthValue>, a: Assignment, survives: nat -> bool) {
    && |live| == |rules|
    && forall i :: 0 <= i < |rules| ==>
         (AssignedTrue(live[i]) <==> Holding(rules[i], a) && (rules[i].weight == Hard || survives(i)))
  }

  /** reset_sample_sat */
  method ResetSampleSat(t: SampTable, survives: nat -> bool)
    requires t.Valid()
    modifies t.ruleAssignment
    ensures t.Valid() && t.RulesDecided()
    ensures Selected(t.rules, t.ruleAssignment[..], t.assignment[..], survives)
  {
    RestoreSatDeadRuleInstances(t);
    KillRuleInstances(t, survives);
  }

  // ----- the backup of the assignment -----

  /** copy_assignment_array: the other array becomes current, with the same contents. */
  method CopyAssignmentArray(t: SampTable)
    requires t.Valid()
    modifies t`assignmentIndex, t`assignment, t.assignments[1 - t.assignmentIndex]
    ensures t.Valid()
    ensures t.assignmentIndex == 1 - old(t.assignmentIndex)
    ensures t.assignment[..] == old(t.assignment[..])
    ensures t.assignments[1 - t.assignmentIndex][..] == old(t.assignment[..])
  {
    var backup := t.assignment;
    ghost var a := backup[..];
    t.assignmentIndex := 1 - t.assignmentIndex;
    t.assignment := t.assignments[t.assignmentIndex];
    for i := 0 to t.numVars
      invariant t.assignment[..i] == a[..i]
      invariant backup[..] == a
      modifies t.assignment
    {
      t.assignment[i] := backup[i];
    }
    assert t.assignment[..] == a;
  }

  /** restore_assignment_array: back to the other array, and the unfixed atoms are counted again. */
  method RestoreAssignmentArray(t: SampTable)
    requires t.Valid() && NoUndef(t.assignments[1 - t.assignmentIndex][..])
    modifies t`assignmentIndex, t`assignment, t`numUnfixedVars
    ensures t.Valid()
    ensures t.assignmentIndex == 1 - old(t.assignmentIndex)
    ensures t.assignment[..] == old(t.assignments[1 - t.assignmentIndex][..])
  {
    t.assignmentIndex := 1 - t.assignmentIndex;
    t.assignment := t.assignments[t.assignmentIndex];
    ghost var a := t.assignment[..];
    t.numUnfixedVars := 0;
    for i := 0 to t.numVars
      invariant t.numUnfixedVars == CountUnfixed(a[..i])
      modifies t`numUnfixedVars
    {
      assert a[..i + 1][..i] == a[..i];
      if UnfixedTval(t.assignment[i]) {
        t.numUnfixedVars := t.numUnfixedVars + 1;
      }
    }
    assert a[..t.numVars] == a;
  }

  // ----- one round -----

  function TruthOf(a: Assignment): Interpretation {
    seq(|a|, i requires 0 <= i < |a| => AssignedTrue(a[i]))
  }

  /** An assignment that satisfies the clauses of a search started from it is a model of that search. */
  lemma CurrentIsModel(p: Problem)
    requires WellFormed(p) && forall c :: c in p.clauses ==> Satisfied(p.evidence, c)
    ensures IsModel(p, TruthOf(p.evidence))
  {
  }

  /** Every live rule is satisfied once every clause of the search is. */
  lemma LiveRulesSatisfied(rules: seq<RuleInst>, live: seq<TruthValue>, a: Assignment, i: nat)
    requires |live| == |rules| && i < |rules| && AssignedTrue(live[i])
    requires forall c :: c in LiveClauses(rules, live) ==> ClauseInRange(c, |a|) && Satisfied(a, c)
    ensures RuleInRange(rules[i], |a|) && RuleSatisfied(a, rules[i])
  {
    forall c | c in rules[i].conjunct ensures ClauseInRange(c, |a|) && Satisfied(a, c) {
      LiveClausesMember(rules, live, c);
    }
  }

  lemma LiveClausesSatisfied(rules: seq<RuleInst>, live: seq<TruthValue>, a: Assignment)
    requires |live| == |rules|
    requires forall i :: 0 <= i < |rules| && AssignedTrue(live[i]) ==>
               RuleInRange(rules[i], |a|) && RuleSatisfied(a, rules[i])
    ensures forall c :: c in LiveClauses(rules, live) ==> ClauseInRange(c, |a|) && Satisfied(a, c)
  {
  }

  ghost predicate HardKept(rules: seq<RuleInst>, before: Assignment, after: Assignment) {
    forall i :: 0 <= i < |rules| && rules[i].weight == Hard && Holding(rules[i], before) ==> Holding(rules[i], after)
  }

  /** The start of a round: reset_sample_sat, then copy_assignment_array. */
  method SelectAndBackUp(t: SampTable, survives: nat -> bool)
    requires t.Valid()
    modifies t`assignmentIndex, t`assignment, t.assignments, t.ruleAssignment
    ensures t.Valid() && t.RulesDecided()
    ensures t.assignment[..] == old(t.assignment[..]) == t.assignments[1 - t.assignmentIndex][..]
    ensures Selected(t.rules, t.ruleAssignment[..], t.assignment[..], survives)
  {
    ResetSampleSat(t, survives);
    CopyAssignmentArray(t);
  }

  /** The end of a round: without a model the backup becomes current again. */
  method AcceptOrRestore(t: SampTable) returns (accepted: bool)
    requires t.Valid() && NoUndef(t.assignments[1 - t.assignmentIndex][..])
    modifies t`assignmentIndex, t`assignment, t`numUnfixedVars
    ensures t.Valid()
    ensures accepted <==> t.pool.view[UNSAT] == []
    ensures t.assignment[..]
         == if accepted then old(t.assignment[..]) else old(t.assignments[1 - t.assignmentIndex][..])
  {
    assert t.pool.lists[UNSAT].Contents() == t.pool.view[UNSAT];
    if t.pool.lists[UNSAT].length > 0 {
      RestoreAssignmentArray(t);
      return false;
    }
    return true;
  }

  /** The search of a round cannot get stuck or drop a clause: the assignment it starts from is a model. */
  lemma RoundIsConsistent(p: Problem, rules: seq<RuleInst>, live: seq<TruthValue>, survives: nat -> bool)
    requires WellFormed(p) && Selected(rules, live, p.evidence, survives) && p.clauses == LiveClauses(rules, live)
    ensures !NoModel(p)
  {
    LiveClausesSatisfied(rules, live, p.evidence);
    CurrentIsModel(p);
  }

  /** A search that ends with no clause unsatisfied and none rejected satisfies every live rule. */
  lemma RoundResult(p: Problem, rules: seq<RuleInst>, live: seq<TruthValue>, survives: nat -> bool, a: Assignment)
    requires Selected(rules, live, p.evidence, survives) && p.clauses == LiveClauses(rules, live)
    requires Result(p, a, [], [])
    ensures forall i :: 0 <= i < |rules| && AssignedTrue(live[i]) ==> Holding(rules[i], a)
    ensures HardKept(rules, p.evidence, a)
  {
    forall i | 0 <= i < |rules| && AssignedTrue(live[i]) ensures Holding(rules[i], a) {
      LiveRulesSatisfied(rules, live, a, i);
    }
  }

  /** What one round does to the assignment, whatever the draws. */
  ghost predicate RoundStep(rules: seq<RuleInst>, before: Assignment, after: Assignment, live: seq<TruthValue>,
                            survives: nat -> bool, accepted: bool) {
    && Selected(rules, live, before, survives)
    && KeepsDb(before, after)
    && HardKept(rules, before, after)
    && (accepted ==> forall i :: 0 <= i < |rules| && AssignedTrue(live[i]) ==> Holding(rules[i], after))
    && (!accepted ==> after == before)
  }

  /** A problem with a model loses no clause. */
  lemma NothingDropped(p: Problem, a: Assignment, unsat: seq<Clause>, rejected: seq<Clause>)
    requires Result(p, a, unsat, rejected) && !NoModel(p)
    ensures rejected == [] && KeepsDb(p.evidence, a)
  {
  }

  /** One round with its search: the clauses of the selected rules from the assignment before, none of them dropped,
      and accepted iff the search ends without an unsat clause, in the assignment found. */
  ghost predicate RoundRun(rules: seq<RuleInst>, before: Assignment, after: Assignment, live: seq<TruthValue>,
                           survives: nat -> bool, accepted: bool, run: seq<Search>) {
    && RoundStep(rules, before, after, live, survives, accepted)
    && (exists heads ::
          SearchRun(Problem(|before|, |rules|, LiveClauses(rules, live), before), true, heads, run))
    && |run| > 0 && run[|run| - 1].rejected == []
    && (accepted <==> !LeavesUnsat(run))
    && (accepted ==> EndsWith(run, after, [], []))
  }

  lemma StepOfRound(p: Problem, rules: seq<RuleInst>, live: seq<TruthValue>, survives: nat -> bool, found: Assignment,
                    unsat: seq<Clause>, accepted: bool)
    requires Selected(rules, live, p.evidence, survives) && p.clauses == LiveClauses(rules, live)
    requires Result(p, found, unsat, []) && NoneByPropagation(p.evidence) && NoUndef(p.evidence)
    requires accepted <==> unsat == []
    ensures NoneByPropagation(found)
    ensures RoundStep(rules, p.evidence, if accepted then found else p.evidence, live, survives, accepted)
  {
    if accepted {
      RoundResult(p, rules, live, survives, found);
    }
  }

  /** What a search from a satisfied selection of rules makes of the round. */
  lemma FinishedRound(p: Problem, rules: seq<RuleInst>, live: seq<TruthValue>, survives: nat -> bool, found: Assignment,
                      unsat: seq<Clause>, rejected: seq<Clause>)
    requires NoneByPropagation(p.evidence) && NoUndef(p.evidence) && Selected(rules, live, p.evidence, survives)
    requires p == Problem(|p.evidence|, |rules|, LiveClauses(rules, live), p.evidence)
    requires Result(p, found, unsat, rejected)
    ensures rejected == [] && NoneByPropagation(found)
    ensures RoundStep(rules, p.evidence, if unsat == [] then found else p.evidence, live, survives, unsat == [])
  {
    assert WellFormed(p);
    hide Result, Selected, RoundStep, NoneByPropagation, NoUndef, LiveClauses;
    RoundIsConsistent(p, rules, live, survives);
    NothingDropped(p, found, unsat, rejected);
    StepOfRound(p, rules, live, survives, found, unsat, unsat == []);
  }

  lemma RoundOfRun(rules: seq<RuleInst>, before: Assignment, after: Assignment, live: seq<TruthValue>,
                   survives: nat -> bool, accepted: bool, run: seq<Search>, found: Assignment, unsat: seq<Clause>)
    requires RoundStep(rules, before, after, live, survives, accepted)
    requires exists heads ::
               SearchRun(Problem(|before|, |rules|, LiveClauses(rules, live), before), true, heads, run)
    requires EndsWith(run, found, unsat, []) && (accepted <==> unsat == []) && (accepted ==> after == found)
    ensures RoundRun(rules, before, after, live, survives, accepted, run)
  {
    hide RoundStep, SearchRun, LiveClauses;
  }

  /** One round of mc_sat_internal: no clause is dropped, and the search never runs out of candidates. */
  method Round(t: SampTable, survives: nat -> bool, maxFlips: nat, maxExtraFlips: nat)
    returns (accepted: bool, ghost run: seq<Search>, ghost first: nat)
    requires t.Valid() && t.numVars <= MAX_VARIABLES && NoneByPropagation(t.assignment[..])
    modifies t, t.assignments, t.ruleAssignment, t.pool.repr
    ensures t.Valid() && NoneByPropagation(t.assignment[..]) && t.rejected == []
    ensures RoundRun(t.rules, old(t.assignment[..]), t.assignment[..], t.ruleAssignment[..], survives, accepted, run)
    ensures WithinBudget(run, first, maxFlips, maxExtraFlips, true)
  {
    hide Result, Selected, SearchRun, EndsWith, RoundStep, RoundRun, NoneByPropagation, NoUndef, LiveClauses,
      WithinBudget;
    SelectAndBackUp(t, survives);
    ghost var before, live := t.assignment[..], t.ruleAssignment[..];
    ghost var p := t.Given();
    var step;
    step, run, first := SampleSat.SampleSat(t, maxFlips, maxExtraFlips, true);
    RoundIsConsistent(p, t.rules, live, survives);
    FinishedRound(p, t.rules, live, survives, t.assignment[..], t.pool.view[UNSAT], t.rejected);
    ghost var found := t.assignment[..];
    accepted := AcceptOrRestore(t);
    RoundOfRun(t.rules, before, t.assignment[..], live, survives, accepted, run, found, t.pool.view[UNSAT]);
  }

  // ----- whole runs -----

  /** Marks exactly the hard rules, as init_rule_instances does. */
  function HardOnly(rules: seq<RuleInst>): seq<TruthValue> {
    seq(|rules|, i requires 0 <= i < |rules| => if rules[i].weight == Hard then UpTrue else UpFalse)
  }

  /** The hard rules together with the evidence in a. */
  function HardProblem(rules: seq<RuleInst>, a: Assignment): Problem {
    Problem(|a|, |rules|, LiveClauses(rules, HardOnly(rules)), a)
  }

  ghost predicate HardSatisfied(rules: seq<RuleInst>, a: Assignment) {
    forall i :: 0 <= i < |rules| && rules[i].weight == Hard ==> Holding(rules[i], a)
  }

  /** An assignment that keeps the evidence and satisfies every hard rule is a model of the hard rules. */
  lemma HardSatisfiedIsModel(rules: seq<RuleInst>, before: Assignment, a: Assignment)
    requires WellFormed(HardProblem(rules, before)) && KeepsDb(before, a) && NoneByPropagation(before)
    requires HardSatisfied(rules, a)
    ensures IsModel(HardProblem(rules, before), TruthOf(a))
  {
    LiveClausesSatisfied(rules, HardOnly(rules), a);
    forall c | c in HardProblem(rules, before).clauses ensures HoldsClause(TruthOf(a), c) {
      var i :| 0 <= i < |c.lits| && TrueLit(a, c.lits[i]);
      assert Holds(TruthOf(a), c.lits[i]);
    }
  }

  /** What a finished first search says about the hard rules: they are satisfied exactly when they can be, and that is
      exactly when no clause was dropped with the message that no model exists. */
  lemma FirstSearchResult(rules: seq<RuleInst>, before: Assignment, a: Assignment, rejected: seq<Clause>)
    requires NoneByPropagation(before) && Result(HardProblem(rules, before), a, [], rejected)
    ensures HardSatisfied(rules, a) <==> !NoModel(HardProblem(rules, before))
    ensures HardSatisfied(rules, a) <==> rejected == []
  {
    if HardSatisfied(rules, a) {
      HardSatisfiedIsModel(rules, before, a);
    }
    if rejected == [] {
      forall i | 0 <= i < |rules| && rules[i].weight == Hard ensures Holding(rules[i], a) {
        LiveRulesSatisfied(rules, HardOnly(rules), a, i);
      }
    }
  }

  /** The draws and the search of one round; first is the length of the first part of the search. */
  datatype RoundTrace =
    RoundTrace(live: seq<TruthValue>, survives: nat -> bool, accepted: bool, run: seq<Search>, first: nat)

  ghost predicate ByRound(rules: seq<RuleInst>, before: Assignment, after: Assignment, r: RoundTrace) {
    RoundRun(rules, before, after, r.live, r.survives, r.accepted, r.run)
  }

  /** A run as the assignments after initialisation and after every round, accepted or restored. */
  ghost predicate Run(rules: seq<RuleInst>, before: Assignment, history: seq<Assignment>, rounds: seq<RoundTrace>) {
    && |history| == |rounds| + 1
    && KeepsDb(before, history[0])
    && forall k :: 0 < k < |history| ==> ByRound(rules, history[k - 1], history[k], rounds[k - 1])
  }

  /** Every search keeps within its numbers of flips, and ends before only without unsat clauses. */
  ghost predicate AllWithinBudget(rounds: seq<RoundTrace>, maxFlips: nat, maxExtraFlips: nat) {
    forall k :: 0 <= k < |rounds| ==> WithinBudget(rounds[k].run, rounds[k].first, maxFlips, maxExtraFlips, true)
  }

  lemma RoundKeeps(rules: seq<RuleInst>, before: Assignment, after: Assignment, r: RoundTrace)
    requires ByRound(rules, before, after, r)
    ensures KeepsDb(before, after) && HardKept(rules, before, after)
  {
    hide Selected, SearchRun, EndsWith, KeepsDb, HardKept;
  }

  /** Evidence stays for the whole run. */
  lemma {:induction false} EvidenceStays(rules: seq<RuleInst>, before: Assignment, history: seq<Assignment>,
                                         rounds: seq<RoundTrace>, k: nat)
    requires Run(rules, before, history, rounds) && k < |history|
    ensures KeepsDb(before, history[k])
  {
    hide ByRound;
    if k > 0 {
      EvidenceStays(rules, before, history, rounds, k - 1);
      RoundKeeps(rules, history[k - 1], history[k], rounds[k - 1]);
    }
  }

  /** A hard rule that holds once holds for the rest of the run. */
  lemma {:induction false} HardRulesStay(rules: seq<RuleInst>, before: Assignment, history: seq<Assignment>,
                                         rounds: seq<RoundTrace>, j: nat, k: nat)
    requires Run(rules, before, history, rounds) && j <= k < |history|
    ensures HardKept(rules, history[j], history[k])
  {
    hide ByRound, RuleSatisfied, KeepsDb;
    if j < k {
      HardRulesStay(rules, before, history, rounds, j, k - 1);
      RoundKeeps(rules, history[k - 1], history[k], rounds[k - 1]);
    }
  }

  /** The safety theorem of MC-SAT: with satisfiable hard rules every assignment of the run satisfies all of them,
      and otherwise none does. */
  lemma SafeExactlyWhenSatisfiable(rules: seq<RuleInst>, before: Assignment, history: seq<Assignment>,
                                   rounds: seq<RoundTrace>)
    requires WellFormed(HardProblem(rules, before)) && NoneByPropagation(before) && Run(rules, before, history, rounds)
    requires HardSatisfied(rules, history[0]) <==> !NoModel(HardProblem(rules, before))
    ensures forall k :: 0 <= k < |history| ==>
              (HardSatisfied(rules, history[k]) <==> !NoModel(HardProblem(rules, before)))
  {
    forall k | 0 <= k < |history|
      ensures HardSatisfied(rules, history[k]) <==> !NoModel(HardProblem(rules, before))
    {
      HardRulesStay(rules, before, history, rounds, 0, k);
      EvidenceStays(rules, before, history, rounds, k);
      if HardSatisfied(rules, history[k]) {
        HardSatisfiedIsModel(rules, before, history[k]);
      }
    }
  }

  lemma RunGrows(rules: seq<RuleInst>, before: Assignment, history: seq<Assignment>, rounds: seq<RoundTrace>,
                 a: Assignment, r: RoundTrace)
    requires Run(rules, before, history, rounds) && ByRound(rules, history[|history| - 1], a, r)
    ensures Run(rules, before, history + [a], rounds + [r])
  {
    hide ByRound;
  }

  /** The rounds of mc_sat_internal; the clock decides how many are attempted. */
  method Rounds(t: SampTable, attempts: nat, maxFlips: nat, maxExtraFlips: nat, ghost before: Assignment)
    returns (ghost history: seq<Assignment>, ghost rounds: seq<RoundTrace>)
    requires t.Valid() && t.numVars <= MAX_VARIABLES && NoneByPropagation(t.assignment[..])
    requires KeepsDb(before, t.assignment[..])
    modifies t, t.assignments, t.ruleAssignment, t.pool.repr
    ensures t.Valid() && NoneByPropagation(t.assignment[..])
    ensures Run(t.rules, before, history, rounds) && |rounds| == attempts && |history| == attempts + 1
    ensures history[0] == old(t.assignment[..]) && history[attempts] == t.assignment[..]
    ensures AllWithinBudget(rounds, maxFlips, maxExtraFlips)
  {
    history, rounds := [t.assignment[..]], [];
    for i := 0 to attempts
      invariant t.Valid() && NoneByPropagation(t.assignment[..])
      invariant |rounds| == i && |history| == i + 1 && Run(t.rules, before, history, rounds)
      invariant history[0] == old(t.assignment[..]) && history[i] == t.assignment[..]
      invariant AllWithinBudget(rounds, maxFlips, maxExtraFlips)
    {
      hide RoundRun, Run, WithinBudget;
      var survives: nat -> bool := *;
      var accepted, run, first := Round(t, survives, maxFlips, maxExtraFlips);
      ghost var r := RoundTrace(t.ruleAssignment[..], survives, accepted, run, first);
      RunGrows(t.rules, before, history, rounds, t.assignment[..], r);
      history, rounds := history + [t.assignment[..]], rounds + [r];
    }
  }

  lemma AfterFirstSearch(rules: seq<RuleInst>, before: Assignment, a: Assignment, rejected: seq<Clause>)
    requires NoneByPropagation(before) && NoUndef(before) && Result(HardProblem(rules, before), a, [], rejected)
    ensures WellFormed(HardProblem(rules, before)) && KeepsDb(before, a) && NoneByPropagation(a)
    ensures HardSatisfied(rules, a) <==> !NoModel(HardProblem(rules, before))
  {
    FirstSearchResult(rules, before, a, rejected);
  }

  /** mc_sat_internal without Gibbs steps. A first search on the hard rules takes place in any case; its last state is
      where the rounds start, and unless it succeeds no round takes place. */
  method McSatInternal(t: SampTable, attempts: nat, maxFlips: nat, maxExtraFlips: nat)
    returns (first: Outcome, ghost run: seq<Search>, ghost history: seq<Assignment>, ghost rounds: seq<RoundTrace>)
    requires t.Valid() && t.numVars <= MAX_VARIABLES && NoneByPropagation(t.assignment[..])
    modifies t, t.assignments, t.ruleAssignment, t.pool.repr
    ensures t.Valid()
    ensures WellFormed(HardProblem(t.rules, old(t.assignment[..])))
    ensures FirstSearch(HardProblem(t.rules, old(t.assignment[..])), maxFlips, first, run)
    ensures first == StackEmpty ==> NoModel(HardProblem(t.rules, old(t.assignment[..])))
    ensures first == Failure ==> EndsWith(run, t.assignment[..], t.pool.view[UNSAT], t.rejected)
    ensures first != Success ==> history == [] && rounds == []
    ensures first == Success ==> Run(t.rules, old(t.assignment[..]), history, rounds) && |rounds| == attempts
    ensures first == Success ==> |history| == attempts + 1 && history[attempts] == t.assignment[..]
    ensures first == Success ==> |run| > 0 && EndsWith(run, history[0], [], run[|run| - 1].rejected)
    ensures first == Success ==> AllWithinBudget(rounds, maxFlips, maxExtraFlips)
    ensures first == Success ==> forall k :: 0 <= k < |history| ==>
              (HardSatisfied(t.rules, history[k]) <==> !NoModel(HardProblem(t.rules, old(t.assignment[..]))))
  {
    hide Result, Run, HardSatisfied, FirstSearch, AllWithinBudget;
    ghost var before := t.assignment[..];
    history, rounds := [], [];
    InitRuleInstances(t);
    assert t.ruleAssignment[..] == HardOnly(t.rules);
    first, run := FirstSampleSat(t, maxFlips);
    if first == Success {
      AfterFirstSearch(t.rules, before, t.assignment[..], t.rejected);
      history, rounds := Rounds(t, attempts, maxFlips, maxExtraFlips, before);
      SafeExactlyWhenSatisfiable(t.rules, before, history, rounds);
    }
  }

  lemma FixedFalsifiedRefutesAll(p: Problem, s: Search, c: Clause)
    requires WellFormed(p) && Shape(p, s) && Sound(p, s) && c in p.clauses && FixedFalsified(s.a, c)
    ensures NoModel(p)
  {
  }

  // ----- an unsatisfiable start that goes unnoticed -----

  lemma {:induction false} NothingToToss(p: Problem, s: Search, heads: nat -> bool, k: nat)
    requires Inv(p, s, multiset{}) && k <= p.n && forall v :: 0 <= v < |s.a| ==> FixedTval(s.a[v])
    ensures Randomize(p, s, heads, k) == s
  {
    hide Inv, Toss;
    InvLength(p, s);
    if k > 0 {
      NothingToToss(p, s, heads, k - 1);
      TossIs(p, s, k - 1, heads(k - 1));
    }
  }

  /** A hard unit clause on an atom that the evidence makes false is dropped, whatever the tosses: the search starts
      with an empty unsat list although no model exists. */
  lemma UnsatisfiableStartGoesUnnoticed(p: Problem, c: Clause, heads: nat -> bool)
    requires p == Problem(1, 1, [c], [DbFalse]) && c.lits == [PosLit(0)]
    ensures WellFormed(p) && NoModel(p)
    ensures Start(p, true, heads).lists[UNSAT] == [] && Start(p, true, heads).rejected == [c]
  {
    InitialInv(p);
    var s := Initial(p);
    assert FixedFalsified(s.a, c);
    FixedFalsifiedRefutesAll(p, s, c);
    assert ScanStep(s) == PopLive(s).(rejected := [c]);
    ScanStepKeeps(p, s);
    var drained := ScanStep(s);
    assert Scan(p, s) == Scan(p, drained) == drained;
    NothingToToss(p, drained, heads, 1);
    assert Start(p, true, heads) == drained;
  }

  lemma {:induction false} SettledCounts(run: seq<Search>, k: nat)
    requires 0 < k <= |run| && UNSAT < |run[0].lists| && run[0].lists[UNSAT] == []
    ensures Settled(run, k) > 0
  {
    if k > 1 {
      SettledCounts(run, k - 1);
    } else {
      assert Settled(run, 1) == Settled(run, 0) + 1;
    }
  }

  /** A run that may not leave a state without unsat clauses stays in such a first state. */
  lemma SettledRunEnds(run: seq<Search>)
    requires |run| > 0 && UNSAT < |run[0].lists| && run[0].lists[UNSAT] == []
    requires Settled(run, |run| - 1) == 0
    ensures |run| == 1
  {
    if |run| > 1 {
      SettledCounts(run, |run| - 1);
    }
  }

  /** On this problem first_sample_sat returns 0, for all draws and any number of flips, although no model exists. */
  method FirstSearchReportsSuccess(t: SampTable, c: Clause, maxFlips: nat) returns (r: Outcome)
    requires t.Valid() && t.numVars <= MAX_VARIABLES && t.RulesDecided()
    requires t.Given() == Problem(1, 1, [c], [DbFalse]) && c.lits == [PosLit(0)]
    modifies t, t.assignment, t.pool.repr
    ensures r == Success && WellFormed(old(t.Given())) && NoModel(old(t.Given()))
  {
    hide Result, Trace;
    ghost var p := t.Given();
    ghost var run;
    assert NoneByPropagation(p.evidence);
    r, run := FirstSampleSat(t, maxFlips);
    ghost var heads :| SearchRun(p, true, heads, run);
    UnsatisfiableStartGoesUnnoticed(p, c, heads);
    TraceEnds(p, run, Start(p, true, heads), run[|run| - 1]);
    SettledRunEnds(run);
  }
}
