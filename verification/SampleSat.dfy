/** SampleSAT: initialisation, one step, and the two search routines (src/samplesat.c). */
module SampleSat {
  import opened TruthValues
  import opened ClauseLists
  import opened SearchModel
  import opened SearchInvariant
  import opened SampTables
  import opened FlipCost
  import opened StrideSearch
  import opened Randomness
  import WalkSat

  /** init_sample_sat; heads are the coin tosses of the randomisation. */
  method InitSampleSat(t: SampTable, randomize: bool, heads: nat -> bool, ghost p: Problem)
    requires t.Valid() && t.numVars <= MAX_VARIABLES
    requires p == t.Given() && t.RulesDecided()
    modifies t, t.assignment, t.pool.repr
    ensures t.RunsOn(p) && t.assignment == old(t.assignment) && t.assignmentIndex == old(t.assignmentIndex)
    ensures t.S() == Start(p, randomize, heads)
  {
    WalkSat.InitLiveClauses(t, p);
    WalkSat.ScanLiveClauses(t, p);
    if randomize {
      WalkSat.InitRandomAssignment(t, heads, p);
    }
    WalkSat.ScanLiveClauses(t, p);
  }

  /** A step ends normally, or in choose_clause_var with an empty stack. */
  datatype StepResult = Done | Stuck

  ghost predicate NoModel(p: Problem)
    requires WellFormed(p)
  {
    forall m: Interpretation :: !IsModel(p, m)
  }

  // ----- one step of the search -----

  /** Simulated annealing: an unfixed atom is flipped if the flip does not cost or if the draw accepts the cost. */
  ghost predicate Anneals(p: Problem, s: Search, next: Search, accept: bool)
    requires Inv(p, s, multiset{})
  {
    if CountUnfixed(s.a) == 0 then next == s
    else exists v :: 0 <= v < p.n && UnfixedTval(s.a[v])
                     && next == if DCost(s, v) <= 0 || accept then Flip(p, s, v) else s
  }

  /** WalkSAT: an admissible atom of a clause on the unsat list is flipped. */
  ghost predicate Walks(p: Problem, s: Search, next: Search, greedy: bool)
    requires Inv(p, s, multiset{})
  {
    exists c, k: nat :: c in s.lists[UNSAT] && ClauseInRange(c, p.n) && WalkSat.Admissible(s, c, k, greedy)
                   && next == Flip(p, s, VarOf(c.lits[k]))
  }

  /** The draws of one step: annealing or WalkSAT, acceptance of a costly flip, random or greedy choice. */
  datatype Draws = Draws(anneal: bool, accept: bool, greedy: bool)

  ghost predicate Steps(p: Problem, s: Search, next: Search, draws: Draws)
    requires Inv(p, s, multiset{})
  {
    if s.lists[UNSAT] == [] || draws.anneal then Anneals(p, s, next, draws.accept) else Walks(p, s, next, draws.greedy)
  }

  /** The simulated annealing branch of sample_sat_body. */
  method AnnealStep(t: SampTable, accept: bool, ghost p: Problem)
    requires t.RunsOn(p) && t.S().lists[LIVE] == [] && t.numVars <= MAX_VARIABLES
    modifies t, t.assignment, t.pool.repr
    ensures t.RunsOn(p) && t.assignment == old(t.assignment) && t.assignmentIndex == old(t.assignmentIndex)
    ensures t.S().lists[LIVE] == []
    ensures Anneals(p, old(t.S()), t.S(), accept)
  {
    hide Inv, DCost;
    CountUnfixedPositive(t.assignment[..]);
    var v, _, _ := ChooseUnfixedVariable(t.assignment, t.numUnfixedVars);
    if v == -1 || !UnfixedTval(t.assignment[v]) {
      return;
    }
    assert UnfixedTval(t.S().a[v]);
    var dcost := WalkSat.CostFlipUnfixedVariable(t, v, p);
    if dcost <= 0 {
      WalkSat.FlipUnfixedVariable(t, v, p);
    } else if accept {
      WalkSat.FlipUnfixedVariable(t, v, p);
    }
  }

  lemma UnsatMember(p: Problem, s: Search, c: Clause)
    requires Inv(p, s, multiset{}) && UNSAT < |s.lists| && c in s.lists[UNSAT]
    ensures |s.a| == p.n && c in p.clauses && ClauseInRange(c, p.n) && Falsified(s.a, c)
  {
    MemberOfSome(s.lists, |s.lists|, c);
    assert c in All(s.lists);
    assert c in multiset(p.clauses);
  }

  /** choose_clause_var finds no candidate only when no model exists. */
  lemma StuckMeansNoModel(p: Problem, s: Search, c: Clause)
    requires Inv(p, s, multiset{}) && c in p.clauses && ClauseInRange(c, |s.a|) && Falsified(s.a, c)
    requires forall k :: 0 <= k < |c.lits| ==> !WalkSat.OpenAt(s.a, c, k)
    ensures NoModel(p)
  {
    forall m: Interpretation ensures !IsModel(p, m) {
      if IsModel(p, m) {
        UnsatClauseIsOpen(p, s, c, m);
        var k :| 0 <= k < |c.lits| && UnfixedTval(s.a[VarOf(c.lits[k])]);
        assert WalkSat.OpenAt(s.a, c, k);
      }
    }
  }

  /** A clause on the unsat list has no candidate for a flip: choose_clause_var would read a slot it has not written. */
  ghost predicate Stranded(s: Search) {
    UNSAT < |s.lists| && exists c :: c in s.lists[UNSAT] && ClauseInRange(c, |s.a|)
                                     && forall k :: 0 <= k < |c.lits| ==> !WalkSat.OpenAt(s.a, c, k)
  }

  /** The WalkSAT branch of sample_sat_body. */
  method WalkStep(t: SampTable, greedy: bool, ghost p: Problem) returns (r: StepResult)
    requires t.RunsOn(p) && t.S().lists[LIVE] == [] && t.pool.lists[UNSAT].length > 0
    modifies t, t.assignment, t.pool.repr
    ensures t.RunsOn(p) && t.assignment == old(t.assignment) && t.assignmentIndex == old(t.assignmentIndex)
    ensures t.S().lists[LIVE] == []
    ensures r == Done ==> Walks(p, old(t.S()), t.S(), greedy)
    ensures r == Stuck ==> NoModel(p) && Stranded(t.S()) && t.S() == old(t.S())
  {
    hide Inv, DCost, CountUnfixed, NoUndef, t.RulesOk;
    assert t.pool.lists[UNSAT].Contents() == t.pool.view[UNSAT];
    var idx := GenrandUint(t.pool.lists[UNSAT].length);
    var clause := t.pool.lists[UNSAT].Nth(idx);
    UnsatMember(p, t.S(), clause);
    var choice := WalkSat.ChooseClauseVar(t, clause, greedy, p);
    match choice
    case EmptyStack =>
      StuckMeansNoModel(p, t.S(), clause);
      return Stuck;
    case Chosen(i) =>
      WalkSat.FlipUnfixedVariable(t, VarOf(clause.lits[i]), p);
      return Done;
  }

  /** sample_sat_body */
  method SampleSatBody(t: SampTable, draws: Draws, ghost p: Problem) returns (r: StepResult)
    requires t.RunsOn(p) && t.S().lists[LIVE] == [] && t.numVars <= MAX_VARIABLES
    modifies t, t.assignment, t.pool.repr
    ensures t.RunsOn(p) && t.assignment == old(t.assignment) && t.assignmentIndex == old(t.assignmentIndex)
    ensures t.S().lists[LIVE] == []
    ensures r == Done ==> Steps(p, old(t.S()), t.S(), draws)
    ensures r == Stuck ==> NoModel(p) && Stranded(t.S()) && t.S() == old(t.S())
  {
    hide Inv;
    assert t.pool.lists[UNSAT].Contents() == t.pool.view[UNSAT];
    if t.pool.lists[UNSAT].length == 0 || draws.anneal {
      AnnealStep(t, draws.accept, p);
      return Done;
    } else {
      r := WalkStep(t, draws.greedy, p);
    }
  }

  /** A step changes nothing, or flips one unfixed atom and lets unit propagation follow. In the WalkSAT branch it is an
      atom of an unsat clause. */
  lemma StepFlips(p: Problem, s: Search, next: Search, draws: Draws)
    requires Inv(p, s, multiset{}) && Steps(p, s, next, draws)
    ensures next == s || exists v :: 0 <= v < |s.a| && UnfixedTval(s.a[v]) && OnlyFixes(FlippedTo(s.a, v), next.a)
    ensures s.lists[UNSAT] != [] && !draws.anneal ==>
              exists c, k: nat :: c in s.lists[UNSAT] && ClauseInRange(c, |s.a|) && k < |c.lits|
                && WalkSat.OpenAt(s.a, c, k) && OnlyFixes(FlippedTo(s.a, VarOf(c.lits[k])), next.a)
  {
    if s.lists[UNSAT] == [] || draws.anneal {
      if next != s {
        var v :| 0 <= v < p.n && UnfixedTval(s.a[v])
                 && next == if DCost(s, v) <= 0 || draws.accept then Flip(p, s, v) else s;
        FlipFlips(p, s, v);
      }
    } else {
      var c, k: nat :| c in s.lists[UNSAT] && ClauseInRange(c, p.n) && WalkSat.Admissible(s, c, k, draws.greedy)
                       && next == Flip(p, s, VarOf(c.lits[k]));
      FlipFlips(p, s, VarOf(c.lits[k]));
    }
  }

  // ----- the end of a search -----

  function UnfixAll(a: Assignment): Assignment {
    seq(|a|, i requires 0 <= i < |a| => UnfixTval(a[i]))
  }

  /** unfix_assignment_array */
  method UnfixAssignmentArray(t: SampTable)
    requires t.Valid()
    modifies t`numUnfixedVars, t.assignment
    ensures t.Valid()
    ensures t.assignment[..] == UnfixAll(old(t.assignment[..]))
    ensures t.pool.view == old(t.pool.view)
  {
    hide t.pool.Valid, t.RulesOk, UnfixedTval;
    ghost var a := t.assignment[..];
    t.numUnfixedVars := 0;
    for i := 0 to t.numVars
      invariant forall k :: 0 <= k < i ==> t.assignment[k] == UnfixTval(a[k])
      invariant forall k :: i <= k < t.numVars ==> t.assignment[k] == a[k]
      invariant t.numUnfixedVars == CountUnfixed(UnfixAll(a)[..i])
    {
      assert t.assignment[i] == a[i];
      assert UnfixAll(a)[..i + 1][..i] == UnfixAll(a)[..i];
      t.assignment[i] := UnfixTval(t.assignment[i]);
      if UnfixedTval(t.assignment[i]) {
        t.numUnfixedVars := t.numUnfixedVars + 1;
      }
    }
    assert UnfixAll(a)[..t.numVars] == UnfixAll(a);
    assert t.assignment[..] == UnfixAll(a);
    assert NoUndef(UnfixAll(a));
  }

  /** Atoms of the evidence keep their value, all others end up unfixed. */
  ghost predicate KeepsDb(before: Assignment, after: Assignment) {
    && |after| == |before|
    && forall v :: 0 <= v < |before| ==> if DbTval(before[v]) then after[v] == before[v] else UnfixedTval(after[v])
  }

  ghost predicate NoneByPropagation(a: Assignment) {
    forall v :: 0 <= v < |a| ==> !UpTval(a[v])
  }

  /** What a finished search has established about its final assignment a. */
  ghost predicate Result(p: Problem, a: Assignment, unsat: seq<Clause>, rejected: seq<Clause>) {
    && WellFormed(p)
    && KeepsDb(p.evidence, a)
    && (forall c :: c in p.clauses ==> ClauseInRange(c, |a|) && (!Satisfied(a, c) <==> c in unsat || c in rejected))
    && (forall c :: c in unsat ==> c in p.clauses)
    && (forall c :: c in rejected ==> c in p.clauses)
    && (rejected != [] ==> NoModel(p))
  }

  lemma UnfixKeepsTruth(a: Assignment, c: Clause)
    requires ClauseInRange(c, |a|)
    ensures Satisfied(UnfixAll(a), c) <==> Satisfied(a, c)
  {
  }

  lemma FinishedSearch(p: Problem, s: Search)
    requires Inv(p, s, multiset{}) && s.lists[LIVE] == [] && NoneByPropagation(p.evidence)
    ensures Result(p, UnfixAll(s.a), s.lists[UNSAT], s.rejected)
  {
    var a := UnfixAll(s.a);
    forall c | c in p.clauses
      ensures ClauseInRange(c, |a|) && (!Satisfied(a, c) <==> c in s.lists[UNSAT] || c in s.rejected)
    {
      UnsatListExact(p, s, c);
      UnfixKeepsTruth(s.a, c);
    }
    forall c | c in s.lists[UNSAT] ensures c in p.clauses {
      UnsatMember(p, s, c);
    }
    forall c | c in s.rejected ensures c in p.clauses {
      assert c in multiset(s.rejected);
      assert c in multiset(p.clauses);
    }
    if s.rejected != [] {
      forall m: Interpretation ensures !IsModel(p, m) {
        if IsModel(p, m) {
          NothingRejected(p, s, m, multiset{});
        }
      }
    }
  }

  /** The end of both searches: the flags of unit propagation are removed, the lists stay as they are. */
  method Finish(t: SampTable, ghost p: Problem)
    requires t.RunsOn(p) && t.S().lists[LIVE] == [] && NoneByPropagation(p.evidence)
    modifies t, t.assignment
    ensures t.Valid() && t.assignment == old(t.assignment) && t.assignmentIndex == old(t.assignmentIndex)
    ensures Result(p, t.assignment[..], t.pool.view[UNSAT], t.rejected)
    ensures t.assignment[..] == UnfixAll(old(t.S()).a)
    ensures t.pool.view == old(t.pool.view) && t.rejected == old(t.rejected)
  {
    hide Result;
    FinishedSearch(p, t.S());
    hide Inv;
    UnfixAssignmentArray(t);
  }

  // ----- the two searches -----

  datatype Outcome = Success | Failure | StackEmpty

  ghost predicate StepsSomehow(p: Problem, s: Search, next: Search) {
    Inv(p, s, multiset{}) && exists draws :: Steps(p, s, next, draws)
  }

  /** A run of the search: the states between its steps. */
  ghost predicate Trace(p: Problem, xs: seq<Search>, first: Search, last: Search) {
    && |xs| > 0 && xs[0] == first && xs[|xs| - 1] == last
    && forall i :: 0 <= i < |xs| - 1 ==> StepsSomehow(p, xs[i], xs[i + 1])
  }

  lemma TraceStep(p: Problem, xs: seq<Search>, first: Search, last: Search, next: Search, draws: Draws)
    requires Trace(p, xs, first, last) && Inv(p, last, multiset{}) && Steps(p, last, next, draws)
    ensures Trace(p, xs + [next], first, next)
  {
    hide Inv, Steps;
    var ys := xs + [next];
    forall i | 0 <= i < |ys| - 1 ensures StepsSomehow(p, ys[i], ys[i + 1]) {
      if i < |xs| - 1 {
        assert StepsSomehow(p, xs[i], xs[i + 1]);
      }
    }
  }

  /** How many of the first k states of a run have an empty unsat list. */
  function Settled(xs: seq<Search>, k: nat): nat
    requires k <= |xs|
  {
    if k == 0 then 0
    else Settled(xs, k - 1) + if UNSAT < |xs[k - 1].lists| && xs[k - 1].lists[UNSAT] == [] then 1 else 0
  }

  lemma {:induction false} SettledAppend(xs: seq<Search>, next: Search, k: nat)
    requires k <= |xs|
    ensures Settled(xs + [next], k) == Settled(xs, k)
  {
    if k > 0 {
      SettledAppend(xs, next, k - 1);
    }
  }

  lemma TraceStart(p: Problem, s: Search)
    ensures Trace(p, [s], s, s)
  {
  }

  lemma TraceEnds(p: Problem, xs: seq<Search>, first: Search, last: Search)
    requires Trace(p, xs, first, last)
    ensures |xs| > 0 && xs[0] == first && xs[|xs| - 1] == last
  {
  }

  /** choose() for one step; sa_probability = 1 forces the annealing branch. */
  method AnyDraws(annealing: bool) returns (draws: Draws)
    ensures annealing ==> draws.anneal
  {
    var anneal: bool, accept: bool, greedy: bool := *, *, *;
    return Draws(annealing || anneal, accept, greedy);
  }

  /** One more step of a run, with any draws. */
  method OneMore(t: SampTable, annealing: bool, ghost run: seq<Search>, ghost first: Search, ghost p: Problem)
    returns (r: StepResult, ghost longer: seq<Search>)
    requires t.RunsOn(p) && t.S().lists[LIVE] == [] && t.numVars <= MAX_VARIABLES && Trace(p, run, first, t.S())
    modifies t, t.assignment, t.pool.repr
    ensures t.RunsOn(p) && t.assignment == old(t.assignment) && t.assignmentIndex == old(t.assignmentIndex)
    ensures t.S().lists[LIVE] == [] && Trace(p, longer, first, t.S())
    ensures r == Stuck ==> NoModel(p) && Stranded(t.S()) && t.S() == old(t.S()) && longer == run
    ensures |run| > 0 && run[|run| - 1] == old(t.S())
    ensures r == Done ==> longer == run + [t.S()] && Settled(longer, |run|) == Settled(run, |run|)
  {
    hide Inv, Steps, Trace;
    ghost var s := t.S();
    TraceEnds(p, run, first, s);
    var draws := AnyDraws(annealing);
    r := SampleSatBody(t, draws, p);
    longer := run;
    if r == Done {
      TraceStep(p, run, first, s, t.S(), draws);
      SettledAppend(run, t.S(), |run|);
      longer := run + [t.S()];
    }
  }

  /** The flips of first_sample_sat: they go on while a clause is unsatisfied, at most maxFlips times. */
  method FlipUntilSatisfied(t: SampTable, maxFlips: nat, ghost p: Problem)
    returns (r: StepResult, ghost run: seq<Search>)
    requires t.RunsOn(p) && t.S().lists[LIVE] == [] && t.numVars <= MAX_VARIABLES
    modifies t, t.assignment, t.pool.repr
    ensures t.RunsOn(p) && t.assignment == old(t.assignment) && t.assignmentIndex == old(t.assignmentIndex)
    ensures t.S().lists[LIVE] == []
    ensures r == Stuck ==> NoModel(p) && Stranded(t.S())
    ensures Trace(p, run, old(t.S()), t.S()) && |run| <= maxFlips + 1 && Settled(run, |run| - 1) == 0
    ensures r == Done ==> t.S().lists[UNSAT] == [] || |run| == maxFlips + 1
  {
    hide Inv, Steps, Trace;
    run := [t.S()];
    TraceStart(p, t.S());
    var numFlips := maxFlips;
    while t.pool.lists[UNSAT].length > 0 && numFlips > 0
      invariant t.RunsOn(p) && t.assignment == old(t.assignment) && t.assignmentIndex == old(t.assignmentIndex)
      invariant t.S().lists[LIVE] == []
      invariant Trace(p, run, old(t.S()), t.S()) && |run| == maxFlips - numFlips + 1 && Settled(run, |run| - 1) == 0
      decreases numFlips
    {
      assert t.pool.lists[UNSAT].Contents() == t.pool.view[UNSAT];
      var step;
      step, run := OneMore(t, false, run, old(t.S()), p);
      if step == Stuck {
        return Stuck, run;
      }
      numFlips := numFlips - 1;
    }
    assert t.pool.lists[UNSAT].Contents() == t.pool.view[UNSAT];
    return Done, run;
  }

  /** The flips of sample_sat before a model is settled on: maxFlips in all, of which maxExtraFlips may start from a
      state without unsatisfied clauses. */
  method FlipWithExtra(t: SampTable, maxFlips: nat, maxExtraFlips: nat, ghost p: Problem)
    returns (r: StepResult, extra: nat, ghost run: seq<Search>)
    requires t.RunsOn(p) && t.S().lists[LIVE] == [] && t.numVars <= MAX_VARIABLES
    modifies t, t.assignment, t.pool.repr
    ensures t.RunsOn(p) && t.assignment == old(t.assignment) && t.assignmentIndex == old(t.assignmentIndex)
    ensures t.S().lists[LIVE] == []
    ensures r == Stuck ==> NoModel(p) && Stranded(t.S())
    ensures Trace(p, run, old(t.S()), t.S()) && |run| <= maxFlips + 1
    ensures Settled(run, |run| - 1) <= maxExtraFlips
    ensures extra <= maxExtraFlips && (r == Done ==> extra + Settled(run, |run| - 1) == maxExtraFlips)
    ensures r == Done ==> |run| == maxFlips + 1 || (t.S().lists[UNSAT] == [] && extra == 0)
  {
    hide Inv, Steps, Trace;
    run := [t.S()];
    TraceStart(p, t.S());
    var numFlips := maxFlips;
    extra := maxExtraFlips;
    while numFlips > 0
      invariant t.RunsOn(p) && t.assignment == old(t.assignment) && t.assignmentIndex == old(t.assignmentIndex)
      invariant t.S().lists[LIVE] == []
      invariant Trace(p, run, old(t.S()), t.S()) && |run| == maxFlips - numFlips + 1
      invariant extra + Settled(run, |run| - 1) == maxExtraFlips
    {
      assert t.pool.lists[UNSAT].Contents() == t.pool.view[UNSAT];
      if t.pool.lists[UNSAT].length == 0 {
        if extra > 0 {
          extra := extra - 1;
        } else {
          break;
        }
      }
      var step;
      step, run := OneMore(t, false, run, old(t.S()), p);
      if step == Stuck {
        return Stuck, extra, run;
      }
      numFlips := numFlips - 1;
    }
    return Done, extra, run;
  }

  /** The walk to neighbouring models at low temperature. */
  method WalkAround(t: SampTable, flips: nat, ghost p: Problem) returns (r: StepResult, ghost run: seq<Search>)
    requires t.RunsOn(p) && t.S().lists[LIVE] == [] && t.numVars <= MAX_VARIABLES
    modifies t, t.assignment, t.pool.repr
    ensures t.RunsOn(p) && t.assignment == old(t.assignment) && t.assignmentIndex == old(t.assignmentIndex)
    ensures t.S().lists[LIVE] == []
    ensures r == Stuck ==> NoModel(p) && Stranded(t.S())
    ensures Trace(p, run, old(t.S()), t.S()) && |run| <= flips + 1 && (r == Done ==> |run| == flips + 1)
  {
    hide Inv, Steps, Trace;
    run := [t.S()];
    TraceStart(p, t.S());
    var numFlips := flips;
    while numFlips > 0
      invariant t.RunsOn(p) && t.assignment == old(t.assignment) && t.assignmentIndex == old(t.assignmentIndex)
      invariant t.S().lists[LIVE] == []
      invariant Trace(p, run, old(t.S()), t.S()) && |run| == flips - numFlips + 1
    {
      var step;
      step, run := OneMore(t, true, run, old(t.S()), p);
      if step == Stuck {
        return Stuck, run;
      }
      numFlips := numFlips - 1;
    }
    return Done, run;
  }

  lemma TraceAppend(p: Problem, xs: seq<Search>, first: Search, mid: Search, ys: seq<Search>, last: Search)
    requires Trace(p, xs, first, mid) && Trace(p, ys, mid, last)
    ensures Trace(p, xs + ys[1..], first, last)
  {
  }

  /** How sample_sat spends its flips. The first loop makes the given number of them, at most maxFlips, of which those
      from a state without unsat clauses count as extra flips. It ends with all flips used, or without unsat clauses and
      without extra flips. The second loop starts without unsat clauses and makes fewer flips than there are extra flips
      left, or none. */
  ghost predicate WithinBudget(run: seq<Search>, first: nat, maxFlips: nat, maxExtraFlips: nat, done: bool) {
    && first < |run| && first <= maxFlips && Settled(run, first) <= maxExtraFlips
    && (|run| - 1 > first ==> |run| - 1 - first < maxExtraFlips - Settled(run, first))
    && (|run| - 1 > first ==> UNSAT < |run[first].lists| && run[first].lists[UNSAT] == [])
    && (done && first < maxFlips ==>
          UNSAT < |run[first].lists| && run[first].lists[UNSAT] == [] && Settled(run, first) == maxExtraFlips)
  }

  lemma {:induction false} SettledPrefix(xs: seq<Search>, ys: seq<Search>, k: nat)
    requires k <= |xs|
    ensures Settled(xs + ys, k) == Settled(xs, k)
  {
    if k > 0 {
      SettledPrefix(xs, ys, k - 1);
    }
  }

  /** The two loops of sample_sat: the second one only when no clause is unsatisfied, for at most the extra flips
      that are left. */
  method FlipAndWalk(t: SampTable, maxFlips: nat, maxExtraFlips: nat, ghost p: Problem)
    returns (r: StepResult, ghost run: seq<Search>, ghost first: nat)
    requires t.RunsOn(p) && t.S().lists[LIVE] == [] && t.numVars <= MAX_VARIABLES
    modifies t, t.assignment, t.pool.repr
    ensures t.RunsOn(p) && t.assignment == old(t.assignment) && t.assignmentIndex == old(t.assignmentIndex)
    ensures t.S().lists[LIVE] == []
    ensures r == Stuck ==> NoModel(p) && Stranded(t.S())
    ensures Trace(p, run, old(t.S()), t.S()) && WithinBudget(run, first, maxFlips, maxExtraFlips, r == Done)
  {
    hide Inv, Steps, Trace;
    var extra;
    r, extra, run := FlipWithExtra(t, maxFlips, maxExtraFlips, p);
    TraceEnds(p, run, old(t.S()), t.S());
    first := |run| - 1;
    if r == Done && t.pool.lists[UNSAT].length == 0 {
      assert t.pool.lists[UNSAT].Contents() == t.pool.view[UNSAT];
      ghost var before := run;
      var flips := GenrandUint(extra);
      ghost var rest;
      ghost var mid := t.S();
      r, rest := WalkAround(t, flips, p);
      TraceAppend(p, run, old(t.S()), mid, rest, t.S());
      TraceEnds(p, rest, mid, t.S());
      run := run + rest[1..];
      SettledPrefix(before, rest[1..], first);
    }
  }

  /** The assignment, the unsat list and the dropped clauses are those of the last state, with the flags of unit
      propagation removed. */
  ghost predicate EndsWith(run: seq<Search>, a: Assignment, unsat: seq<Clause>, rejected: seq<Clause>) {
    && |run| > 0
    && var last := run[|run| - 1];
    && UNSAT < |last.lists| && a == UnfixAll(last.a) && unsat == last.lists[UNSAT] && rejected == last.rejected
  }

  ghost predicate LeavesUnsat(run: seq<Search>) {
    |run| > 0 && UNSAT < |run[|run| - 1].lists| && run[|run| - 1].lists[UNSAT] != []
  }

  /** A run that starts as init_sample_sat leaves the table. */
  ghost predicate SearchRun(p: Problem, randomize: bool, heads: nat -> bool, run: seq<Search>) {
    WellFormed(p) && |run| > 0 && Trace(p, run, Start(p, randomize, heads), run[|run| - 1])
  }

  lemma IsSearchRun(p: Problem, randomize: bool, heads: nat -> bool, run: seq<Search>, last: Search)
    requires WellFormed(p) && Trace(p, run, Start(p, randomize, heads), last)
    ensures SearchRun(p, randomize, heads, run) && run[|run| - 1] == last
  {
  }

  lemma GivenIsWellFormed(t: SampTable)
    requires t.Valid() && t.RulesDecided()
    ensures WellFormed(t.Given())
  {
    WalkSat.LiveClausesOk(t);
  }

  method AnyTosses() returns (heads: nat -> bool)
  {
    heads := *;
  }

  /** What a first search does: a run from the start state in which every flip starts with an unsat clause, up to a
      state without one, or until the flips are used up, or until an unsat clause has no candidate for a flip. */
  ghost predicate FirstSearch(p: Problem, maxFlips: nat, r: Outcome, run: seq<Search>) {
    && (exists heads :: SearchRun(p, true, heads, run))
    && 0 < |run| <= maxFlips + 1 && Settled(run, |run| - 1) == 0
    && (r == Success <==> !LeavesUnsat(run))
    && (r == Failure ==> |run| == maxFlips + 1)
    && (r == StackEmpty ==> Stranded(run[|run| - 1]))
  }

  lemma StrandedLeavesUnsat(run: seq<Search>)
    requires |run| > 0 && Stranded(run[|run| - 1])
    ensures LeavesUnsat(run)
  {
  }

  lemma IsFirstSearch(p: Problem, maxFlips: nat, heads: nat -> bool, r: Outcome, run: seq<Search>)
    ensures SearchRun(p, true, heads, run) && 0 < |run| <= maxFlips + 1 && Settled(run, |run| - 1) == 0
         && (r == Success <==> !LeavesUnsat(run)) && (r == Failure ==> |run| == maxFlips + 1)
         && (r == StackEmpty ==> Stranded(run[|run| - 1]))
        ==> FirstSearch(p, maxFlips, r, run)
  {
    hide SearchRun, LeavesUnsat, Stranded;
  }

  /** first_sample_sat: all draws, any number of flips. Success is the return value 0, Failure is -1. Every flip starts
      with an unsat clause, and a failure has used up all flips. */
  method FirstSampleSat(t: SampTable, maxFlips: nat) returns (r: Outcome, ghost run: seq<Search>)
    requires t.Valid() && t.numVars <= MAX_VARIABLES && t.RulesDecided() && NoneByPropagation(t.assignment[..])
    modifies t, t.assignment, t.pool.repr
    ensures t.Valid() && t.assignment == old(t.assignment) && t.assignmentIndex == old(t.assignmentIndex)
    ensures WellFormed(old(t.Given()))
    ensures FirstSearch(old(t.Given()), maxFlips, r, run)
    ensures r == StackEmpty ==> NoModel(old(t.Given()))
    ensures r != StackEmpty ==> Result(old(t.Given()), t.assignment[..], t.pool.view[UNSAT], t.rejected)
    ensures r == Failure <==> r != StackEmpty && t.pool.view[UNSAT] != []
    ensures r != StackEmpty ==> EndsWith(run, t.assignment[..], t.pool.view[UNSAT], t.rejected)
  {
    hide Result, Trace, Steps, Start, Inv, UnfixAll, Stranded, FirstSearch;
    ghost var p := t.Given();
    GivenIsWellFormed(t);
    var heads := AnyTosses();
    InitSampleSat(t, true, heads, p);
    var step;
    step, run := FlipUntilSatisfied(t, maxFlips, p);
    IsSearchRun(p, true, heads, run, t.S());
    if step == Stuck {
      StrandedLeavesUnsat(run);
      IsFirstSearch(p, maxFlips, heads, StackEmpty, run);
      return StackEmpty, run;
    }
    Finish(t, p);
    assert t.pool.lists[UNSAT].Contents() == t.pool.view[UNSAT];
    r := if t.pool.lists[UNSAT].length > 0 then Failure else Success;
    IsFirstSearch(p, maxFlips, heads, r, run);
  }

  /** sample_sat: flips until the unsat list is empty and the extra flips are used up, then walks on. */
  method SampleSat(t: SampTable, maxFlips: nat, maxExtraFlips: nat, randomize: bool)
    returns (r: StepResult, ghost run: seq<Search>, ghost first: nat)
    requires t.Valid() && t.numVars <= MAX_VARIABLES && t.RulesDecided() && NoneByPropagation(t.assignment[..])
    modifies t, t.assignment, t.pool.repr
    ensures t.Valid() && t.assignment == old(t.assignment) && t.assignmentIndex == old(t.assignmentIndex)
    ensures WellFormed(old(t.Given()))
    ensures r == Stuck ==> NoModel(old(t.Given())) && |run| > 0 && Stranded(run[|run| - 1])
    ensures r == Done ==> Result(old(t.Given()), t.assignment[..], t.pool.view[UNSAT], t.rejected)
    ensures exists heads :: SearchRun(old(t.Given()), randomize, heads, run)
    ensures WithinBudget(run, first, maxFlips, maxExtraFlips, r == Done)
    ensures r == Done ==> EndsWith(run, t.assignment[..], t.pool.view[UNSAT], t.rejected)
  {
    hide Result, Trace, Steps, Start, Inv, UnfixAll;
    ghost var p := t.Given();
    GivenIsWellFormed(t);
    var heads := AnyTosses();
    InitSampleSat(t, randomize, heads, p);
    r, run, first := FlipAndWalk(t, maxFlips, maxExtraFlips, p);
    IsSearchRun(p, randomize, heads, run, t.S());
    if r == Done {
      Finish(t, p);
    }
  }
}
