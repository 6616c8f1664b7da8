/** From formulas to samples: what the compiler put into the tables is what every assignment of an MC-SAT run
    satisfies (src/cnf.c:643-832, src/mcmc.c:390-480). */
module CompiledRules {
  import opened Basics
  import opened TruthValues
  import opened ClauseLists
  import opened SampTables
  import opened GroundTables
  import G = Grounding
  import L = LogWeight
  import Cnf
  import Mcmc
  import S = SampleSat
  import M = SearchModel

  // ----- one table, two views -----

  /** max is the number that marks a hard rule, DBL_MAX in the source. */
  function WeightOf(weight: real, max: real): Weight {
    if weight == max then Hard else Soft(weight)
  }

  ghost predicate SameClauses(conjunct: seq<Clause>, clauses: seq<seq<Literal>>) {
    |conjunct| == |clauses| && forall k :: 0 <= k < |clauses| ==> conjunct[k].lits == clauses[k]
  }

  /** The rule instances of the search are those that the grounder stored. */
  ghost predicate Stored(rules: seq<RuleInst>, ruleInsts: seq<GroundRule>, max: real) {
    && |rules| == |ruleInsts|
    && forall i :: 0 <= i < |rules| ==>
         rules[i].weight == WeightOf(ruleInsts[i].weight, max) && SameClauses(rules[i].conjunct, ruleInsts[i].clauses)
  }

  /** The world of an assignment: atoms without an entry in the table are false. */
  ghost function WorldIn(atoms: seq<G.GroundAtom>, a: Assignment): G.World
    requires |a| == |atoms|
  {
    (g: G.GroundAtom) => exists v :: 0 <= v < |atoms| && atoms[v] == g && AssignedTrue(a[v])
  }

  ghost predicate Matches(atoms: seq<G.GroundAtom>, m: M.Interpretation, w: G.World) {
    |m| == |atoms| && forall v :: 0 <= v < |atoms| ==> w(atoms[v]) == m[v]
  }

  lemma WorldMatches(atoms: seq<G.GroundAtom>, a: Assignment)
    requires |a| == |atoms| && Distinct(atoms)
    ensures Matches(atoms, Mcmc.TruthOf(a), WorldIn(atoms, a))
  {
  }

  // ----- clauses and rules in both views -----

  lemma ClauseInWorld(atoms: seq<G.GroundAtom>, m: M.Interpretation, w: G.World, c: Clause, lits: seq<Literal>)
    requires Matches(atoms, m, w) && ClauseOk(atoms, lits) && c.lits == lits
    ensures M.ClauseInRange(c, |atoms|)
    ensures M.HoldsClause(m, c) <==> G.GroundClauseTrue(w, DecodeClause(atoms, lits))
  {
    assert forall i :: 0 <= i < |lits| ==> InRange(lits[i], |atoms|);
    var g := DecodeClause(atoms, lits);
    forall i | 0 <= i < |lits| ensures M.Holds(m, lits[i]) <==> w(g[i].atom) != g[i].neg {
      assert g[i] == Decode(atoms, lits[i]);
    }
  }

  lemma SatisfiedAsModel(a: Assignment, c: Clause)
    requires NoUndef(a) && M.ClauseInRange(c, |a|)
    ensures M.Satisfied(a, c) <==> M.HoldsClause(Mcmc.TruthOf(a), c)
  {
    forall i | 0 <= i < |c.lits| ensures TrueLit(a, c.lits[i]) <==> M.Holds(Mcmc.TruthOf(a), c.lits[i]) {
    }
  }

  /** A rule instance holds under an assignment iff its decoded clauses are true in the world of the assignment. */
  lemma RuleInWorld(atoms: seq<G.GroundAtom>, a: Assignment, r: RuleInst, clauses: seq<seq<Literal>>)
    requires |a| == |atoms| && Distinct(atoms) && NoUndef(a)
    requires ClausesOk(atoms, clauses) && SameClauses(r.conjunct, clauses)
    ensures Mcmc.Holding(r, a) <==> G.AllTrue(WorldIn(atoms, a), DecodeClauses(atoms, clauses))
  {
    var w, cs := WorldIn(atoms, a), DecodeClauses(atoms, clauses);
    WorldMatches(atoms, a);
    hide M.Satisfied, M.HoldsClause, G.GroundClauseTrue, WorldIn;
    forall k | 0 <= k < |clauses|
      ensures M.ClauseInRange(r.conjunct[k], |a|) && (M.Satisfied(a, r.conjunct[k]) <==> G.GroundClauseTrue(w, cs[k]))
    {
      ClauseInWorld(atoms, Mcmc.TruthOf(a), w, r.conjunct[k], clauses[k]);
      SatisfiedAsModel(a, r.conjunct[k]);
    }
  }

  // ----- hard rules as a theory -----

  /** All instances marked as hard are satisfied in the world. */
  ghost predicate HardHold(instances: seq<L.Instance>, w: G.World, max: real) {
    forall i :: 0 <= i < |instances| && instances[i].weight == max ==> G.AllTrue(w, instances[i].clauses)
  }

  ghost predicate HasHardWorld(evidence: G.Evidence, instances: seq<L.Instance>, max: real) {
    exists w :: G.Agrees(w, evidence) && HardHold(instances, w, max)
  }

  lemma HardInWorld(atoms: seq<G.GroundAtom>, ruleInsts: seq<GroundRule>, rules: seq<RuleInst>, max: real,
                    a: Assignment)
    requires |a| == |atoms| && Distinct(atoms) && NoUndef(a)
    requires RulesOk(atoms, ruleInsts) && Stored(rules, ruleInsts, max)
    ensures Mcmc.HardSatisfied(rules, a) <==> HardHold(DecodeRules(atoms, ruleInsts), WorldIn(atoms, a), max)
  {
    var instances := DecodeRules(atoms, ruleInsts);
    hide Mcmc.Holding, G.AllTrue, WorldIn;
    forall i | 0 <= i < |rules|
      ensures Mcmc.Holding(rules[i], a) <==> G.AllTrue(WorldIn(atoms, a), instances[i].clauses)
    {
      RuleInWorld(atoms, a, rules[i], ruleInsts[i].clauses);
    }
  }

  /** The evidence is what the fixed atoms of the table say, and it stays so while they keep their values. */
  lemma WorldAgrees(atoms: seq<G.GroundAtom>, active: seq<bool>, before: Assignment, a: Assignment)
    requires |active| == |before| == |atoms| && Distinct(atoms) && FixedByEvidence(atoms, active, before)
    requires S.KeepsDb(before, a)
    ensures G.Agrees(WorldIn(atoms, a), Asserted(atoms, active, before))
  {
    var w, evidence := WorldIn(atoms, a), Asserted(atoms, active, before);
    forall g: G.GroundAtom | g.pred <= 0 ensures w(g) <==> g in evidence {
      if v :| 0 <= v < |atoms| && atoms[v] == g && AssignedTrue(a[v]) {
        assert before[v] == DbTrue && active[v];
      }
    }
  }

  ghost function WorldOfModel(atoms: seq<G.GroundAtom>, m: M.Interpretation, evidence: G.Evidence): G.World
    requires |m| == |atoms|
  {
    (g: G.GroundAtom) => if g.pred <= 0 then g in evidence else exists v :: 0 <= v < |atoms| && atoms[v] == g && m[v]
  }

  lemma ModelMatches(atoms: seq<G.GroundAtom>, active: seq<bool>, before: Assignment, m: M.Interpretation)
    requires |active| == |before| == |atoms| && Distinct(atoms) && FixedByEvidence(atoms, active, before)
    requires M.Agrees(m, before)
    ensures var evidence := Asserted(atoms, active, before);
      Matches(atoms, m, WorldOfModel(atoms, m, evidence)) && G.Agrees(WorldOfModel(atoms, m, evidence), evidence)
  {
  }

  /** Clause by clause the two views agree. */
  lemma ClausesMatch(atoms: seq<G.GroundAtom>, ruleInsts: seq<GroundRule>, rules: seq<RuleInst>, max: real,
                     m: M.Interpretation, w: G.World, i: nat)
    requires RulesOk(atoms, ruleInsts) && Stored(rules, ruleInsts, max) && Matches(atoms, m, w) && i < |rules|
    ensures forall c :: c in rules[i].conjunct ==> M.ClauseInRange(c, |m|)
    ensures G.AllTrue(w, DecodeRules(atoms, ruleInsts)[i].clauses)
       <==> forall c :: c in rules[i].conjunct ==> M.HoldsClause(m, c)
  {
    var conjunct, clauses := rules[i].conjunct, DecodeRules(atoms, ruleInsts)[i].clauses;
    hide M.HoldsClause, G.GroundClauseTrue, Matches;
    assert |m| == |atoms|;
    forall k | 0 <= k < |conjunct|
      ensures M.ClauseInRange(conjunct[k], |m|)
      ensures M.HoldsClause(m, conjunct[k]) <==> G.GroundClauseTrue(w, clauses[k])
    {
      ClauseInWorld(atoms, m, w, conjunct[k], ruleInsts[i].clauses[k]);
    }
    assert forall k :: 0 <= k < |conjunct| ==> conjunct[k] in conjunct;
  }

  /** A model and a world that match agree on the hard rules. */
  lemma ModelHolds(atoms: seq<G.GroundAtom>, ruleInsts: seq<GroundRule>, rules: seq<RuleInst>, max: real,
                   before: Assignment, m: M.Interpretation, w: G.World)
    requires |before| == |atoms| && RulesOk(atoms, ruleInsts) && Stored(rules, ruleInsts, max) && Matches(atoms, m, w)
    requires M.WellFormed(Mcmc.HardProblem(rules, before))
    ensures (forall c :: c in Mcmc.HardProblem(rules, before).clauses ==> M.HoldsClause(m, c))
       <==> HardHold(DecodeRules(atoms, ruleInsts), w, max)
  {
    var p, instances, live := Mcmc.HardProblem(rules, before), DecodeRules(atoms, ruleInsts), Mcmc.HardOnly(rules);
    assert |m| == p.n && |instances| == |rules|;
    assert forall i :: 0 <= i < |rules| ==> (AssignedTrue(live[i]) <==> instances[i].weight == max);
    hide M.HoldsClause, G.AllTrue, Matches, RulesOk, DecodeRules, Stored, LiveClauses;
    if HardHold(instances, w, max) {
      forall c | c in p.clauses ensures M.HoldsClause(m, c) {
        LiveClausesMember(rules, live, c);
        var i :| 0 <= i < |rules| && AssignedTrue(live[i]) && c in rules[i].conjunct;
        ClausesMatch(atoms, ruleInsts, rules, max, m, w, i);
      }
    }
    if forall c :: c in p.clauses ==> M.HoldsClause(m, c) {
      forall i | 0 <= i < |instances| && instances[i].weight == max ensures G.AllTrue(w, instances[i].clauses) {
        forall c | c in rules[i].conjunct ensures c in p.clauses {
          LiveClausesMember(rules, live, c);
        }
        ClausesMatch(atoms, ruleInsts, rules, max, m, w, i);
      }
    }
  }

  /** The hard clauses have a model that keeps the evidence iff some world agrees with the evidence and satisfies all
      hard instances. */
  lemma ModelIff(atoms: seq<G.GroundAtom>, active: seq<bool>, ruleInsts: seq<GroundRule>, rules: seq<RuleInst>,
                 max: real, before: Assignment)
    requires |active| == |before| == |atoms| && Distinct(atoms) && FixedByEvidence(atoms, active, before)
    requires RulesOk(atoms, ruleInsts) && Stored(rules, ruleInsts, max)
    requires M.WellFormed(Mcmc.HardProblem(rules, before))
    ensures !S.NoModel(Mcmc.HardProblem(rules, before))
       <==> HasHardWorld(Asserted(atoms, active, before), DecodeRules(atoms, ruleInsts), max)
  {
    var p, evidence := Mcmc.HardProblem(rules, before), Asserted(atoms, active, before);
    if !S.NoModel(p) {
      var m :| M.IsModel(p, m);
      var w := WorldOfModel(atoms, m, evidence);
      ModelMatches(atoms, active, before, m);
      ModelHolds(atoms, ruleInsts, rules, max, before, m, w);
    }
    if w :| G.Agrees(w, evidence) && HardHold(DecodeRules(atoms, ruleInsts), w, max) {
      var m := seq(|atoms|, v requires 0 <= v < |atoms| => w(atoms[v]));
      assert M.Agrees(m, before);
      ModelHolds(atoms, ruleInsts, rules, max, before, m, w);
      assert M.IsModel(p, m);
    }
  }

  // ----- what the samples satisfy -----

  /** add_cnf has stored the hard formula f: its instances stand together somewhere among all instances. */
  ghost predicate Compiled(instances: seq<L.Instance>, evidence: G.Evidence, f: Cnf.Formula, cnf: Cnf.ClauseForm,
                           subs: seq<G.Substitution>, max: real, at: nat)
    requires Cnf.Resolved(f)
  {
    && L.Compile(f, max) == Some((max, cnf))
    && var added := L.Instances(evidence, max, cnf, subs);
       at + |added| <= |instances| && instances[at..at + |added|] == added
  }

  /** What GroundTables.AddCnf leaves for a hard formula with variables, and what later formulas do not disturb. */
  lemma AddedIsCompiled(before: seq<L.Instance>, later: seq<L.Instance>, evidence: G.Evidence, f: Cnf.Formula,
                        cnf: Cnf.ClauseForm, subs: seq<G.Substitution>, max: real)
    requires Cnf.Resolved(f) && L.Compile(f, max) == Some((max, cnf))
    ensures Compiled(before + L.Instances(evidence, max, cnf, subs) + later, evidence, f, cnf, subs, max, |before|)
  {
    var added := L.Instances(evidence, max, cnf, subs);
    hide L.Instances, L.Compile;
    assert (before + added + later)[|before|..|before| + |added|] == added;
  }

  /** The formula holds in the world at every grounding without an unnoticed false clause. */
  ghost predicate HoldsAtGroundings(evidence: G.Evidence, f: Cnf.Formula, cnf: Cnf.ClauseForm,
                                    subs: seq<G.Substitution>, w: G.World)
    requires Cnf.Resolved(f)
  {
    forall i :: 0 <= i < |subs| ==> Cnf.Eval(f, G.Val(w, subs[i])) || L.Unnoticed(evidence, cnf, subs[i], w)
  }

  lemma {:induction false} InstanceWeights(evidence: G.Evidence, max: real, cnf: Cnf.ClauseForm,
                                           subs: seq<G.Substitution>)
    ensures forall i :: 0 <= i < |L.Instances(evidence, max, cnf, subs)| ==>
              L.Instances(evidence, max, cnf, subs)[i].weight == max
  {
    if subs != [] {
      InstanceWeights(evidence, max, cnf, subs[..|subs| - 1]);
    }
  }

  /** A world that satisfies all hard instances makes every stored hard formula true. */
  lemma FormulaHolds(instances: seq<L.Instance>, evidence: G.Evidence, f: Cnf.Formula, cnf: Cnf.ClauseForm,
                     subs: seq<G.Substitution>, max: real, at: nat, w: G.World)
    requires Cnf.Resolved(f) && Compiled(instances, evidence, f, cnf, subs, max, at)
    requires G.Agrees(w, evidence) && HardHold(instances, w, max)
    ensures HoldsAtGroundings(evidence, f, cnf, subs, w)
  {
    var added := L.Instances(evidence, max, cnf, subs);
    InstanceWeights(evidence, max, cnf, subs);
    hide G.AllTrue, G.Agrees;
    forall i | 0 <= i < |added| ensures G.AllTrue(w, added[i].clauses) {
      assert added[i] == instances[at..at + |added|][i] == instances[at + i];
    }
    assert max > 0.0;
    L.HardExact(evidence, f, max, max, cnf, subs, w);
  }

  /** add_cnf has stored the hard formula f without variables, as one instance. */
  ghost predicate CompiledGround(instances: seq<L.Instance>, f: Cnf.Formula, cnf: Cnf.ClauseForm, max: real, at: nat)
    requires Cnf.Resolved(f)
  {
    && BuiltinFree(f) && L.Compile(f, max) == Some((max, cnf))
    && at < |instances| && instances[at] == L.Instance(max, Spelled(cnf))
  }

  lemma GroundFormulaHolds(instances: seq<L.Instance>, f: Cnf.Formula, cnf: Cnf.ClauseForm, max: real, at: nat,
                           w: G.World)
    requires Cnf.Resolved(f) && CompiledGround(instances, f, cnf, max, at) && HardHold(instances, w, max)
    ensures Cnf.Eval(f, G.Val(w, []))
  {
    assert max > 0.0;
    Cnf.CnfShape(f);
    Cnf.CnfCorrect(f, G.Val(w, []));
    hide Spelled;
    SpelledTrue(cnf, w);
  }

  /** The tables of grounder and sampler are the same. */
  ghost predicate SameTables(g: GroundTable, t: SampTable, max: real)
    reads g, t, t.assignment
    requires g.Valid()
  {
    t.numVars == |g.atoms| && t.assignment[..] == g.assignment && Stored(t.rules, g.ruleInsts, max)
  }

  /** Some world agrees with the evidence and satisfies every hard rule. */
  ghost predicate Satisfiable(g: GroundTable, max: real)
    reads g
    requires g.Valid()
  {
    HasHardWorld(g.Known(), g.Meaning(), max)
  }

  lemma DistinctAtoms(g: GroundTable)
    requires g.Valid()
    ensures Distinct(g.atoms)
  {
  }

  /** Before a run atoms are fixed by evidence only. */
  lemma FixedIsNotPropagated(g: GroundTable)
    requires g.Valid()
    ensures S.NoneByPropagation(g.assignment)
  {
  }

  lemma SatisfiableIff(g: GroundTable, rules: seq<RuleInst>, max: real)
    requires g.Valid() && Stored(rules, g.ruleInsts, max) && M.WellFormed(Mcmc.HardProblem(rules, g.assignment))
    ensures Satisfiable(g, max) <==> !S.NoModel(Mcmc.HardProblem(rules, g.assignment))
  {
    hide Asserted, DecodeRules, HasHardWorld, S.NoModel;
    DistinctAtoms(g);
    ModelIff(g.atoms, g.active, g.ruleInsts, rules, max, g.assignment);
  }

  /** Under the assignment every stored hard formula is true at each of its groundings, except where a false clause
      was dropped unnoticed. */
  ghost predicate FormulasHold(g: GroundTable, max: real, a: Assignment)
    reads g
    requires g.Valid() && |a| == |g.atoms|
  {
    forall f, cnf, subs, at: nat :: Cnf.Resolved(f) && Compiled(g.Meaning(), g.Known(), f, cnf, subs, max, at) ==>
      HoldsAtGroundings(g.Known(), f, cnf, subs, WorldIn(g.atoms, a))
  }

  /** Likewise for the stored hard formulas without variables, and without exception. */
  ghost predicate GroundFormulasHold(g: GroundTable, max: real, a: Assignment)
    reads g
    requires g.Valid() && |a| == |g.atoms|
  {
    forall f, cnf, at: nat :: Cnf.Resolved(f) && CompiledGround(g.Meaning(), f, cnf, max, at) ==>
      Cnf.Eval(f, G.Val(WorldIn(g.atoms, a), []))
  }

  lemma SampleSatisfies(g: GroundTable, rules: seq<RuleInst>, max: real, a: Assignment)
    requires g.Valid() && Stored(rules, g.ruleInsts, max) && S.KeepsDb(g.assignment, a) && NoUndef(a)
    requires Mcmc.HardSatisfied(rules, a)
    ensures FormulasHold(g, max, a) && GroundFormulasHold(g, max, a)
  {
    DistinctAtoms(g);
    WorldAgrees(g.atoms, g.active, g.assignment, a);
    HardInWorld(g.atoms, g.ruleInsts, rules, max, a);
    hide HoldsAtGroundings, Compiled, CompiledGround, HardHold, G.Agrees;
    forall f, cnf, subs, at: nat | Cnf.Resolved(f) && Compiled(g.Meaning(), g.Known(), f, cnf, subs, max, at)
      ensures HoldsAtGroundings(g.Known(), f, cnf, subs, WorldIn(g.atoms, a))
    {
      FormulaHolds(g.Meaning(), g.Known(), f, cnf, subs, max, at, WorldIn(g.atoms, a));
    }
    forall f, cnf, at: nat | Cnf.Resolved(f) && CompiledGround(g.Meaning(), f, cnf, max, at)
      ensures Cnf.Eval(f, G.Val(WorldIn(g.atoms, a), []))
    {
      GroundFormulaHolds(g.Meaning(), f, cnf, max, at, WorldIn(g.atoms, a));
    }
  }

  lemma KeptIsDefined(before: Assignment, a: Assignment)
    requires S.KeepsDb(before, a)
    ensures |a| == |before| && NoUndef(a)
  {
  }

  /** Compiler and sampler together: when the first search succeeds and the hard rules are satisfiable, every assignment
      of the run, from the first to the last, makes every stored hard formula true at its groundings. When they are not
      satisfiable, no assignment satisfies all hard rules. */
  method Sample(g: GroundTable, t: SampTable, max: real, attempts: nat, maxFlips: nat, maxExtraFlips: nat)
    returns (first: S.Outcome, ghost run: seq<M.Search>, ghost history: seq<Assignment>,
             ghost rounds: seq<Mcmc.RoundTrace>)
    requires g.Valid() && t.Valid() && SameTables(g, t, max) && t.numVars <= MAX_VARIABLES
    requires g !in t.pool.repr
    modifies t, t.assignments, t.ruleAssignment, t.pool.repr
    ensures g.Valid() && t.Valid()
    ensures S.FirstSearch(Mcmc.HardProblem(t.rules, g.assignment), maxFlips, first, run)
    ensures first == S.StackEmpty ==> !Satisfiable(g, max)
    ensures first == S.Failure ==> S.EndsWith(run, t.assignment[..], t.pool.view[M.UNSAT], t.rejected)
    ensures first != S.Success ==> history == []
    ensures first == S.Success ==>
              |run| > 0 && |history| > 0 && S.EndsWith(run, history[0], [], run[|run| - 1].rejected)
    ensures first == S.Success ==> |history| == attempts + 1 && history[attempts] == t.assignment[..]
    ensures first == S.Success ==>
              Mcmc.Run(t.rules, g.assignment, history, rounds) && Mcmc.AllWithinBudget(rounds, maxFlips, maxExtraFlips)
    ensures first == S.Success ==> forall k :: 0 <= k < |history| ==>
              && S.KeepsDb(g.assignment, history[k]) && |history[k]| == |g.atoms|
              && (Mcmc.HardSatisfied(t.rules, history[k]) <==> Satisfiable(g, max))
              && (Satisfiable(g, max) ==> FormulasHold(g, max, history[k]) && GroundFormulasHold(g, max, history[k]))
  {
    hide Mcmc.Run, Mcmc.HardSatisfied, S.NoModel, S.KeepsDb, FormulasHold, GroundFormulasHold, Satisfiable,
      DecodeRules, Asserted, CountUnfixed, Stored, S.FirstSearch, S.EndsWith, Mcmc.AllWithinBudget;
    ghost var before := t.assignment[..];
    FixedIsNotPropagated(g);
    first, run, history, rounds := Mcmc.McSatInternal(t, attempts, maxFlips, maxExtraFlips);
    SatisfiableIff(g, t.rules, max);
    if first == S.Success {
      forall k | 0 <= k < |history|
        ensures S.KeepsDb(before, history[k]) && |history[k]| == |g.atoms|
        ensures Satisfiable(g, max) ==> FormulasHold(g, max, history[k]) && GroundFormulasHold(g, max, history[k])
      {
        Mcmc.EvidenceStays(t.rules, before, history, rounds, k);
        KeptIsDefined(before, history[k]);
        if Satisfiable(g, max) {
          SampleSatisfies(g, t.rules, max, history[k]);
        }
      }
    }
  }
}
