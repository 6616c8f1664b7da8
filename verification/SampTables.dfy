/** The atom table and the rule instance table of a sampler (src/tables.h:214-275). */
module SampTables {
  import opened Basics
  import opened TruthValues
  import opened ClauseLists
  import opened ListPool
  import opened SearchModel

  /** INT32_MAX >> 1 (src/tables.h:67). */
  const MAX_VARIABLES: nat := 0x3fff_ffff

  /** DBL_MAX marks a hard rule instance. */
  datatype Weight = Hard | Soft(value: real)

  datatype RuleInst = RuleInst(weight: Weight, conjunct: seq<Clause>)

  /** The clauses of the rule instances chosen by live, in the order in which they are inserted. */
  function LiveClauses(rules: seq<RuleInst>, live: seq<TruthValue>): seq<Clause>
    requires |live| == |rules|
  {
    if rules == [] then []
    else
      var k := |rules| - 1;
      LiveClauses(rules[..k], live[..k]) + if AssignedTrue(live[k]) then rules[k].conjunct else []
  }

  lemma {:induction false} LiveClausesMember(rules: seq<RuleInst>, live: seq<TruthValue>, c: Clause)
    requires |live| == |rules|
    ensures c in LiveClauses(rules, live)
       <==> exists i :: 0 <= i < |rules| && AssignedTrue(live[i]) && c in rules[i].conjunct
  {
    if rules != [] {
      var k := |rules| - 1;
      LiveClausesMember(rules[..k], live[..k], c);
      if c in LiveClauses(rules[..k], live[..k]) {
        var i :| 0 <= i < k && AssignedTrue(live[..k][i]) && c in rules[..k][i].conjunct;
        assert AssignedTrue(live[i]) && c in rules[i].conjunct;
      }
      if i :| 0 <= i < |rules| && AssignedTrue(live[i]) && c in rules[i].conjunct {
        if i < k {
          assert AssignedTrue(live[..k][i]) && c in rules[..k][i].conjunct;
        }
      }
    }
  }

  /** The clauses come rule by rule. */
  lemma {:induction false} LiveClausesInOrder(rules: seq<RuleInst>, live: seq<TruthValue>, k: nat)
    requires |live| == |rules| && k < |rules|
    ensures LiveClauses(rules[..k + 1], live[..k + 1])
         == LiveClauses(rules[..k], live[..k]) + if AssignedTrue(live[k]) then rules[k].conjunct else []
    ensures LiveClauses(rules[..k], live[..k]) <= LiveClauses(rules, live)
    decreases |rules|
  {
    assert rules[..k + 1][..k] == rules[..k] && live[..k + 1][..k] == live[..k];
    var n := |rules| - 1;
    if k < n {
      assert rules[..n][..k] == rules[..k] && live[..n][..k] == live[..k];
      LiveClausesInOrder(rules[..n], live[..n], k);
    }
  }

  class SampTable {
    const numVars: nat
    const rules: seq<RuleInst>
    /** assignments[2] and the pointer to the current one. */
    const assignments: seq<array<TruthValue>>
    var assignmentIndex: nat
    var assignment: array<TruthValue>
    var numUnfixedVars: nat
    /** Live (v_up_true) or dead (v_up_false) rule instances. */
    const ruleAssignment: array<TruthValue>
    const pool: Pool
    /** Clauses the source drops with the message that no model exists. */
    ghost var rejected: seq<Clause>

    /** Every clause is one object, owned by the pool, and knows its rule. */
    ghost predicate RulesOk()
    {
      && (forall i, c :: 0 <= i < |rules| && c in rules[i].conjunct ==>
            c in pool.clauses && ClauseInRange(c, numVars) && c.ruleIndex == i)
      && forall i :: 0 <= i < |rules| ==> Distinct(rules[i].conjunct)
    }

    ghost predicate Valid()
      reads this, assignments, ruleAssignment, pool, pool.repr
    {
      && |assignments| == 2 && assignments[0] != assignments[1]
      && assignments[0].Length == assignments[1].Length == numVars
      && ruleAssignment.Length == |rules|
      && ruleAssignment != assignment && ruleAssignment != assignments[0] && ruleAssignment != assignments[1]
      && assignmentIndex < 2 && assignment == assignments[assignmentIndex]
      && numUnfixedVars == CountUnfixed(assignment[..])
      && NoUndef(assignment[..])
      && this !in pool.repr && ruleAssignment !in pool.repr
      && assignments[0] !in pool.repr && assignments[1] !in pool.repr
      && pool.Valid()
      && |pool.lists| == 3 + 2 * numVars + |rules|
      && RulesOk()
    }

    /** A table over the given rule instances, every soft or hard rule dead until it is selected. */
    constructor (numVars: nat, rules: seq<RuleInst>, evidence: seq<TruthValue>)
      requires |evidence| == numVars && NoUndef(evidence)
      requires forall i, c :: 0 <= i < |rules| && c in rules[i].conjunct ==>
                 ClauseInRange(c, numVars) && c.ruleIndex == i
      requires forall i :: 0 <= i < |rules| ==> Distinct(rules[i].conjunct)
      ensures Valid() && this.numVars == numVars && this.rules == rules && assignment[..] == evidence
      ensures rejected == [] && forall i :: 0 <= i < |pool.view| ==> pool.view[i] == []
      ensures forall i :: 0 <= i < |rules| ==> ruleAssignment[i] == UpFalse
    {
      hide CountUnfixed, ClauseInRange, Distinct;
      var first := new TruthValue[numVars](i requires 0 <= i < numVars => evidence[i]);
      var second := new TruthValue[numVars](i requires 0 <= i < numVars => evidence[i]);
      assert first[..] == evidence;
      this.numVars := numVars;
      this.rules := rules;
      assignments := [first, second];
      assignmentIndex := 0;
      assignment := first;
      numUnfixedVars := CountUnfixed(evidence);
      ruleAssignment := new TruthValue[|rules|](_ => UpFalse);
      ghost var clauses := set i, c | 0 <= i < |rules| && c in rules[i].conjunct :: c;
      pool := new Pool(3 + 2 * numVars + |rules|, clauses);
      rejected := [];
    }

    ghost function S(): Search
      reads this, assignment, pool
    {
      Search(assignment[..], pool.view, rejected)
    }

    /** The problem that a run started now works on. */
    ghost function Given(): Problem
      reads this, assignment, ruleAssignment
      requires ruleAssignment.Length == |rules|
    {
      Problem(numVars, |rules|, LiveClauses(rules, ruleAssignment[..]), assignment[..])
    }

    /** Every rule is live or dead, as MC-SAT leaves them before each search. */
    ghost predicate RulesDecided()
      reads ruleAssignment
    {
      forall i :: 0 <= i < ruleAssignment.Length ==> ruleAssignment[i] == UpTrue || ruleAssignment[i] == UpFalse
    }

    /** Every rule with a clause in play is fixed true: the mode of MC-SAT. */
    ghost predicate LiveRules(clauses: seq<Clause>)
      reads ruleAssignment
    {
      forall c :: c in clauses ==>
        c in pool.clauses && c.ruleIndex < ruleAssignment.Length && ruleAssignment[c.ruleIndex] == UpTrue
    }

    /** The table is in a run on problem p, between two steps. */
    ghost predicate RunsOn(p: Problem)
      reads this, assignments, ruleAssignment, pool, pool.repr
    {
      && Valid()
      && p.n == numVars && p.numRules == |rules|
      && Inv(p, S(), multiset{})
      && LiveRules(p.clauses)
    }
  }
}
