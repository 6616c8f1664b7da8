/** The WalkSAT engine on the heap (src/walksat.c). */
module WalkSat {
  import opened TruthValues
  import opened ClauseLists
  import opened SearchModel
  import opened SearchInvariant
  import opened FlipCost
  import opened Randomness
  import opened SampTables

  ghost predicate AllInRange(lits: seq<Literal>, n: nat) {
    forall k :: 0 <= k < |lits| ==> InRange(lits[k], n)
  }

  /** The first loop of get_fixable_literal. */
  method FindFixedTrue(a: array<TruthValue>, lits: seq<Literal>) returns (i: nat)
    requires AllInRange(lits, a.Length)
    ensures i == FirstFixedTrue(a[..], lits, 0)
  {
    i := 0;
    while i < |lits| && !AssignedFixedTrueLit(a, lits[i])
      invariant i <= |lits| && FirstFixedTrue(a[..], lits, 0) == FirstFixedTrue(a[..], lits, i)
    {
      i := i + 1;
    }
  }

  /** Its second and third loop. */
  method FindNotFixedFalse(a: array<TruthValue>, lits: seq<Literal>, from: nat) returns (i: nat)
    requires AllInRange(lits, a.Length) && from <= |lits|
    ensures i == FirstNotFixedFalse(a[..], lits, from)
  {
    i := from;
    while i < |lits| && AssignedFixedFalseLit(a, lits[i])
      invariant from <= i <= |lits| && FirstNotFixedFalse(a[..], lits, from) == FirstNotFixedFalse(a[..], lits, i)
    {
      i := i + 1;
    }
  }

  /** get_fixable_literal. The result -2 means fixed unsat, -1 not fixable, |lits| that the rule
      itself is the only literal left to fix. */
  method GetFixableLiteral(a: array<TruthValue>, ruleAssignment: array<TruthValue>, clause: Clause) returns (r: int)
    requires ClauseInRange(clause, a.Length) && clause.ruleIndex < ruleAssignment.Length
    ensures r == -2 <==> Classify(a[..], clause).FixedUnsat? && AssignedFixedTrue(ruleAssignment[clause.ruleIndex])
    ensures r == |clause.lits|
      <==> Classify(a[..], clause).FixedUnsat? && !AssignedFixedTrue(ruleAssignment[clause.ruleIndex])
    ensures 0 <= r < |clause.lits|
      <==> Classify(a[..], clause).Fixable?
           && (FixedSatisfied(a[..], clause) || FixedTval(ruleAssignment[clause.ruleIndex]))
    ensures 0 <= r < |clause.lits| ==> Classify(a[..], clause) == Fixable(r)
    ensures -2 <= r <= |clause.lits|
  {
    var lits, n := clause.lits, |clause.lits|;
    var i := FindFixedTrue(a, lits);
    if i < n {
      return i;
    }
    i := FindNotFixedFalse(a, lits, 0);
    if i == n {
      return if AssignedFixedTrue(ruleAssignment[clause.ruleIndex]) then -2 else n;
    }
    var j := FindNotFixedFalse(a, lits, i + 1);
    if j < n {
      return -1;
    } else if !FixedTval(ruleAssignment[clause.ruleIndex]) {
      return -1;
    } else {
      return i;
    }
  }

  /** get_true_literal. A false rule counts as a true literal behind the last one. */
  method GetTrueLiteral(a: array<TruthValue>, ruleAssignment: array<TruthValue>, clause: Clause) returns (r: int)
    requires ClauseInRange(clause, a.Length) && clause.ruleIndex < ruleAssignment.Length
    ensures r == var i := FirstTrue(a[..], clause.lits, 0);
                 if i < |clause.lits| then i
                 else if AssignedFalse(ruleAssignment[clause.ruleIndex]) then |clause.lits| else -1
  {
    var i := 0;
    while i < |clause.lits|
      invariant 0 <= i <= |clause.lits|
      invariant FirstTrue(a[..], clause.lits, 0) == FirstTrue(a[..], clause.lits, i)
    {
      if AssignedTrueLit(a, clause.lits[i]) {
        return i;
      }
      i := i + 1;
    }
    return if AssignedFalse(ruleAssignment[clause.ruleIndex]) then |clause.lits| else -1;
  }

  /** link_propagate: the two preconditions are the assertions of the source. */
  method LinkPropagate(t: SampTable, lit: Literal)
    requires t.Valid() && InRange(lit, t.numVars)
    requires FalseLit(t.assignment[..], lit)
    requires t.pool.view[Watched(Not(lit))] == []
    modifies t.pool.repr
    ensures t.Valid() && t.S() == SearchModel.LinkPropagate(old(t.S()), lit)
  {
    t.pool.Concat(Watched(lit), LIVE);
    t.pool.Concat(UNSAT, LIVE);
  }

  /** Stores a value and keeps the count of unfixed atoms. */
  method StoreUnfixedAtom(t: SampTable, v: nat, tval: TruthValue)
    requires t.Valid() && v < t.numVars && UnfixedTval(t.assignment[v]) && tval != Undef
    modifies t`numUnfixedVars, t.assignment
    ensures t.Valid()
    ensures t.assignment[..] == old(t.assignment[..])[v := tval]
    ensures t.pool.view == old(t.pool.view)
  {
    ghost var a := t.assignment[..];
    CountUnfixedUpdate(a, v, tval);
    t.assignment[v] := tval;
    assert t.assignment[..] == a[v := tval];
    if FixedTval(tval) {
      t.numUnfixedVars := t.numUnfixedVars - 1;
    }
  }

  /** The part of update_atom_tval that changes an unfixed atom. */
  method SetUnfixedAtom(t: SampTable, v: nat, tval: TruthValue)
    requires t.Valid() && v < t.numVars && UnfixedTval(t.assignment[v]) && tval != Undef
    requires t.pool.view[Watched(if AssignedTrue(tval) then PosLit(v) else NegLit(v))] == []
          || t.assignment[v] == UnfixTval(tval)
    modifies t, t.assignment, t.pool.repr
    ensures t.Valid() && t.assignment == old(t.assignment) && t.assignmentIndex == old(t.assignmentIndex)
    ensures t.S() == UpdateAtom(old(t.S()), v, tval)
  {
    var oldTval := t.assignment[v];
    StoreUnfixedAtom(t, v, tval);
    if oldTval != UnfixTval(tval) {
      LinkPropagate(t, if AssignedTrue(tval) then NegLit(v) else PosLit(v));
    }
  }

  /** update_atom_tval in eager mode. An atom that is already fixed is left alone; -1 reports a conflict. */
  method UpdateAtomTval(t: SampTable, v: nat, tval: TruthValue) returns (r: int)
    requires t.Valid() && v < t.numVars && WatchedAreTrue(t.S())
    requires tval != Undef && !DbTval(tval)
    modifies t, t.assignment, t.pool.repr
    ensures t.Valid() && t.assignment == old(t.assignment) && t.assignmentIndex == old(t.assignmentIndex)
    ensures t.S() == UpdateAtom(old(t.S()), v, tval)
    ensures r == -1 <==> !UnfixedTval(old(t.assignment[v])) && AssignedTrue(old(t.assignment[v])) != AssignedTrue(tval)
    ensures r == -1 || r == 0
  {
    var oldTval := t.assignment[v];
    if !UnfixedTval(oldTval) {
      if (AssignedTrue(oldTval) && AssignedFalse(tval)) || (AssignedFalse(oldTval) && AssignedTrue(tval)) {
        return -1;
      } else {
        return 0;
      }
    }
    SetUnfixedAtom(t, v, tval);
    return 0;
  }

  /** clause_list_insert_head on one of the lists of the table. */
  method PushClause(t: SampTable, i: nat, clause: Clause)
    requires t.Valid() && i < |t.pool.view|
    requires clause in t.pool.clauses && NotListed(t.pool.view, clause)
    modifies t.pool.repr
    ensures t.Valid() && t.S() == Push(old(t.S()), i, clause)
  {
    t.pool.InsertHead(i, clause);
  }

  /** The unit propagation branch of insert_live_clause; its last assertion is the one of the source. */
  method FixAndStore(t: SampTable, clause: Clause, fixable: nat)
    requires t.Valid() && WatchedAreTrue(t.S())
    requires clause in t.pool.clauses && NotListed(t.pool.view, clause) && ClauseInRange(clause, t.numVars)
    requires Classify(t.assignment[..], clause) == Fixable(fixable)
    modifies t, t.assignment, t.pool.repr
    ensures t.Valid() && t.assignment == old(t.assignment) && t.assignmentIndex == old(t.assignmentIndex)
    ensures t.S() == InsertLive(old(t.S()), clause)
  {
    var lit := clause.lits[fixable];
    if UnfixedTval(t.assignment[VarOf(lit)]) {
      UpdateKeepsAway(t.S(), VarOf(lit), if IsPos(lit) then UpTrue else UpFalse, clause);
      var r := UpdateAtomTval(t, VarOf(lit), if IsPos(lit) then UpTrue else UpFalse);
      assert r == 0;  // unit propagation never assigns a conflicting value
    }
    assert AssignedFixedTrueLit(t.assignment, lit);
    PushClause(t, SAT, clause);
  }

  /** The branch of insert_live_clause for a clause with at least two unfixed literals. */
  method StoreOpen(t: SampTable, clause: Clause)
    requires t.Valid()
    requires clause in t.pool.clauses && NotListed(t.pool.view, clause) && ClauseInRange(clause, t.numVars)
    requires clause.ruleIndex < |t.rules| && t.ruleAssignment[clause.ruleIndex] == UpTrue
    requires Classify(t.assignment[..], clause).Open?
    modifies t.pool.repr
    ensures t.Valid() && t.S() == InsertLive(old(t.S()), clause)
  {
    var i := GetTrueLiteral(t.assignment, t.ruleAssignment, clause);
    if i < 0 {
      PushClause(t, UNSAT, clause);
    } else if i == |clause.lits| {
      assert false;  // the rule is fixed true
    } else {
      PushClause(t, Watched(clause.lits[i]), clause);
    }
  }

  lemma OnlyOpenIsTrue(a: Assignment, c: Clause, i: nat)
    requires ClauseInRange(c, |a|) && i < |c.lits| && OnlyOpen(a, c, i) && FixedSatisfied(a, c)
    ensures FixedTrueLit(a, c.lits[i])
  {
  }

  /** Propagation fixes a single open literal; a satisfied clause and one with two open literals change no value. */
  lemma Inserted(s: Search, c: Clause)
    requires ClauseInRange(c, |s.a|) && 3 + 2 * |s.a| <= |s.lists| && NoUndef(s.a)
    ensures FixedFalsified(s.a, c) ==> InsertLive(s, c) == s.(rejected := s.rejected + [c])
    ensures forall i :: 0 <= i < |c.lits| && OnlyOpen(s.a, c, i) ==>
              FixedTrueLit(InsertLive(s, c).a, c.lits[i]) && c in InsertLive(s, c).lists[SAT]
    ensures FixedSatisfied(s.a, c) || TwoOpen(s.a, c) ==> InsertLive(s, c).a == s.a
  {
    hide InsertLive, Classify, OnlyOpen, TwoOpen, FixedTrueLit, FixedSatisfied, FixedFalsified, Falsified, FirstTrueAt;
    InsertExact(s, c);
    forall i | 0 <= i < |c.lits| && OnlyOpen(s.a, c, i)
      ensures FixedTrueLit(InsertLive(s, c).a, c.lits[i]) && c in InsertLive(s, c).lists[SAT]
    {
      if FixedSatisfied(s.a, c) {
        OnlyOpenIsTrue(s.a, c, i);
      } else {
        InsertPropagates(s, c, i);
      }
    }
  }

  /** insert_live_clause for the clause in hand, whose rule is fixed true. */
  method InsertLiveClause(t: SampTable, clause: Clause)
    requires t.Valid() && WatchedAreTrue(t.S())
    requires clause in t.pool.clauses && NotListed(t.pool.view, clause) && ClauseInRange(clause, t.numVars)
    requires clause.ruleIndex < |t.rules| && t.ruleAssignment[clause.ruleIndex] == UpTrue
    modifies t, t.assignment, t.pool.repr
    ensures t.Valid() && t.assignment == old(t.assignment) && t.assignmentIndex == old(t.assignmentIndex)
    ensures t.S() == InsertLive(old(t.S()), clause)
    ensures forall i :: 0 <= i < |clause.lits| && OnlyOpen(old(t.assignment[..]), clause, i) ==>
              FixedTrueLit(t.assignment[..], clause.lits[i]) && clause in t.pool.view[SAT]
    ensures FixedSatisfied(old(t.assignment[..]), clause) || TwoOpen(old(t.assignment[..]), clause) ==>
              t.assignment[..] == old(t.assignment[..])
  {
    hide InsertLive, OnlyOpen, FixedSatisfied, TwoOpen, Classify, CountUnfixed;
    Inserted(t.S(), clause);
    var fixable := GetFixableLiteral(t.assignment, t.ruleAssignment, clause);
    if fixable == -2 {
      t.rejected := t.rejected + [clause];
    } else if fixable == -1 {
      StoreOpen(t, clause);
    } else if fixable == |clause.lits| {
      assert false;  // the rule is fixed true
    } else {
      FixAndStore(t, clause, fixable);
    }
  }

  /** One turn of the loop of scan_live_clauses. */
  method ScanOne(t: SampTable)
    requires t.Valid() && WatchedAreTrue(t.S()) && t.pool.view[LIVE] != []
    requires var c := t.pool.view[LIVE][0];
      ClauseInRange(c, t.numVars) && c.ruleIndex < |t.rules| && t.ruleAssignment[c.ruleIndex] == UpTrue
    modifies t, t.assignment, t.pool.repr
    ensures t.Valid() && t.assignment == old(t.assignment) && t.assignmentIndex == old(t.assignmentIndex)
    ensures t.S() == ScanStep(old(t.S()))
  {
    var clause := t.pool.PopHead(LIVE);
    InsertLiveClause(t, clause);
  }

  /** scan_live_clauses */
  method ScanLiveClauses(t: SampTable, ghost p: Problem)
    requires t.RunsOn(p)
    modifies t, t.assignment, t.pool.repr
    ensures t.RunsOn(p) && t.assignment == old(t.assignment) && t.assignmentIndex == old(t.assignmentIndex)
    ensures t.S() == Scan(p, old(t.S()))
  {
    hide Inv;
    while t.pool.lists[LIVE].length > 0
      invariant t.RunsOn(p) && t.assignment == old(t.assignment) && t.assignmentIndex == old(t.assignmentIndex)
      invariant Scan(p, t.S()) == Scan(p, old(t.S()))
      decreases CountUnfixed(t.S().a), |t.S().lists[LIVE]|
    {
      assert t.pool.lists[LIVE].Contents() == t.pool.view[LIVE];
      ghost var s := t.S();
      ReadyToScan(p, s);
      ScanStepKeeps(p, s);
      ScanStepProgress(p, s);
      assert t.ruleAssignment != t.assignment && t.ruleAssignment !in t.pool.repr;
      ScanOne(t);
    }
    assert t.pool.lists[LIVE].Contents() == t.pool.view[LIVE];
  }

  /** update_atom_tval with a value that is not fixed, in the middle of a run. */
  method SetAtom(t: SampTable, v: nat, tval: TruthValue, ghost p: Problem)
    requires t.RunsOn(p) && v < t.numVars && UnfixedTval(tval)
    modifies t, t.assignment, t.pool.repr
    ensures t.RunsOn(p) && t.assignment == old(t.assignment) && t.assignmentIndex == old(t.assignmentIndex)
    ensures t.S() == UpdateAtom(old(t.S()), v, tval)
  {
    hide Inv;
    ghost var s := t.S();
    ReadyToScan(p, s);
    UpdateOrNotKeeps(p, s, v, tval);
    assert t.ruleAssignment != t.assignment && t.ruleAssignment !in t.pool.repr;
    var _ := UpdateAtomTval(t, v, tval);
  }

  /** flip_unfixed_variable */
  method FlipUnfixedVariable(t: SampTable, v: nat, ghost p: Problem)
    requires t.RunsOn(p) && v < t.numVars
    modifies t, t.assignment, t.pool.repr
    ensures t.RunsOn(p) && t.assignment == old(t.assignment) && t.assignmentIndex == old(t.assignmentIndex)
    ensures t.S() == Flip(p, old(t.S()), v)
    ensures UnfixedTval(old(t.assignment[v])) ==>
              OnlyFixes(old(t.assignment[..])[v := if AssignedTrue(old(t.assignment[v])) then False else True],
                        t.assignment[..])
  {
    FlipFlips(p, t.S(), v);
    hide OnlyFixes, Flip;
    SetAtom(t, v, if AssignedTrue(t.assignment[v]) then False else True, p);
    ScanLiveClauses(t, p);
  }

  /** init_random_assignment; heads are the draws below 0.5. */
  method InitRandomAssignment(t: SampTable, heads: nat -> bool, ghost p: Problem)
    requires t.RunsOn(p)
    modifies t, t.assignment, t.pool.repr
    ensures t.RunsOn(p) && t.assignment == old(t.assignment) && t.assignmentIndex == old(t.assignmentIndex)
    ensures t.S() == Randomize(p, old(t.S()), heads, t.numVars)
  {
    hide Inv, Toss;
    ghost var s := t.S();
    for i := 0 to t.numVars
      invariant t.RunsOn(p) && t.assignment == old(t.assignment) && t.assignmentIndex == old(t.assignmentIndex)
      invariant t.S() == Randomize(p, s, heads, i)
    {
      TossIs(p, t.S(), i, heads(i));
      if !DbTval(t.assignment[i]) && !FixedTval(t.assignment[i]) {
        SetAtom(t, i, if heads(i) then False else True, p);
      }
    }
  }

  method EmptyLists(t: SampTable)
    requires t.Valid()
    modifies t.pool.repr
    ensures t.Valid()
    ensures forall i :: 0 <= i < |t.pool.view| ==> t.pool.view[i] == []
  {
    for i := 0 to t.numVars
      invariant t.Valid()
      invariant forall k :: 3 <= k < 3 + 2 * i ==> t.pool.view[k] == []
    {
      t.pool.Empty(Watched(PosLit(i)));
      t.pool.Empty(Watched(NegLit(i)));
    }
    for i := 0 to |t.rules|
      invariant t.Valid()
      invariant forall k :: 3 <= k < 3 + 2 * t.numVars + i ==> t.pool.view[k] == []
    {
      t.pool.Empty(RuleWatched(t.numVars, i));
    }
    t.pool.Empty(SAT);
    t.pool.Empty(UNSAT);
    t.pool.Empty(LIVE);
  }

  /** Appends the clauses of rule i to the live list. */
  method InsertRule(t: SampTable, i: nat)
    requires t.Valid() && i < |t.rules|
    requires forall k :: 0 < k < |t.pool.view| ==> t.pool.view[k] == []
    requires forall c :: c in t.pool.view[LIVE] ==> c.ruleIndex != i
    modifies t.pool.repr
    ensures t.Valid()
    ensures t.pool.view == old(t.pool.view)[LIVE := old(t.pool.view)[LIVE] + t.rules[i].conjunct]
  {
    var conjunct := t.rules[i].conjunct;
    ghost var front := t.pool.view[LIVE];
    assert front + conjunct[..0] == front;
    for j := 0 to |conjunct|
      invariant t.Valid()
      invariant t.pool.view == old(t.pool.view)[LIVE := old(t.pool.view)[LIVE] + conjunct[..j]]
    {
      assert conjunct[j] !in conjunct[..j];
      assert front + conjunct[..j + 1] == (front + conjunct[..j]) + [conjunct[j]];
      t.pool.InsertTail(LIVE, conjunct[j]);
    }
    assert conjunct[..|conjunct|] == conjunct;
  }

  method InsertLiveRules(t: SampTable)
    requires t.Valid()
    requires forall k :: 0 <= k < |t.pool.view| ==> t.pool.view[k] == []
    modifies t.pool.repr
    ensures t.Valid()
    ensures t.pool.view == old(t.pool.view)[LIVE := LiveClauses(t.rules, t.ruleAssignment[..])]
  {
    ghost var live := t.ruleAssignment[..];
    for i := 0 to |t.rules|
      invariant t.Valid()
      invariant t.pool.view == old(t.pool.view)[LIVE := LiveClauses(t.rules[..i], live[..i])]
    {
      assert t.rules[..i + 1][..i] == t.rules[..i] && live[..i + 1][..i] == live[..i];
      if AssignedTrue(t.ruleAssignment[i]) {
        forall c | c in t.pool.view[LIVE] ensures c.ruleIndex != i {
          LiveClausesMember(t.rules[..i], live[..i], c);
        }
        InsertRule(t, i);
      } else {
        assert LiveClauses(t.rules[..i + 1], live[..i + 1]) == LiveClauses(t.rules[..i], live[..i]);
      }
    }
    assert t.rules[..|t.rules|] == t.rules && live[..|live|] == live;
  }

  lemma LiveClausesOk(t: SampTable)
    requires t.RulesOk() && t.ruleAssignment.Length == |t.rules|
    requires forall i :: 0 <= i < |t.rules| ==> t.ruleAssignment[i] == UpTrue || t.ruleAssignment[i] == UpFalse
    ensures t.LiveRules(LiveClauses(t.rules, t.ruleAssignment[..]))
    ensures forall c :: c in LiveClauses(t.rules, t.ruleAssignment[..]) ==> ClauseInRange(c, t.numVars)
  {
    forall c | c in LiveClauses(t.rules, t.ruleAssignment[..])
      ensures c in t.pool.clauses && ClauseInRange(c, t.numVars)
      ensures c.ruleIndex < |t.rules| && t.ruleAssignment[c.ruleIndex] == UpTrue
    {
      LiveClausesMember(t.rules, t.ruleAssignment[..], c);
    }
  }

  lemma InitialIs(p: Problem, view: seq<seq<Clause>>)
    requires |view| == 3 + 2 * p.n + p.numRules && view[LIVE] == p.clauses
    requires forall k :: 0 < k < |view| ==> view[k] == []
    ensures Initial(p) == Search(p.evidence, view, [])
  {
  }

  lemma StartsRun(t: SampTable, p: Problem)
    requires t.Valid() && t.RulesDecided() && p == t.Given() && t.S() == Initial(p)
    ensures t.RunsOn(p)
  {
    hide Inv, Initial;
    LiveClausesOk(t);
    InitialInv(p);
  }

  /** init_live_clauses: empties every list, then puts the clauses of the live rules on the live list. */
  method InitLiveClauses(t: SampTable, ghost p: Problem)
    requires t.Valid()
    requires p == t.Given()
    modifies t, t.pool.repr
    ensures t.Valid() && t.assignment == old(t.assignment) && t.assignmentIndex == old(t.assignmentIndex)
    ensures t.S() == Initial(p)
    ensures old(t.RulesDecided()) ==> t.RunsOn(p)
  {
    hide Inv, Initial, CountUnfixed, NoUndef, LiveClauses, t.RulesOk;
    EmptyLists(t);
    InsertLiveRules(t);
    InitialIs(p, t.pool.view);
    t.rejected := [];
    if t.RulesDecided() {
      StartsRun(t, p);
    }
  }

  // ----- choosing what to flip -----

  /** The first loop of cost_flip_unfixed_variable: walks the links from the sentinel to tail. */
  method CountCritical(list: ClauseList, a: array<TruthValue>, lit: Literal) returns (count: int)
    requires list.Valid() && InRange(lit, a.Length)
    requires forall c :: c in list.Contents() ==> ClauseInRange(c, a.Length)
    ensures count == Count(list.Contents(), CriticalIn(a[..], lit))
  {
    count := 0;
    var ptr := list.head;
    ghost var k := 0;
    ghost var xs := list.Contents();
    while ptr != list.tail
      invariant 0 <= k <= list.length && ptr == list.nodes[k]
      invariant count == Count(xs[..k], CriticalIn(a[..], lit))
      decreases list.length - k
    {
      assert k != list.length && ptr.link == list.nodes[k + 1] == xs[k];
      var cls := ptr.link;
      assert cls in xs;
      var i := 0;
      while i < |cls.lits| && (cls.lits[i] == lit || AssignedFalseLit(a, cls.lits[i]))
        invariant 0 <= i <= |cls.lits|
        invariant forall j :: 0 <= j < i ==> cls.lits[j] == lit || FalseLit(a[..], cls.lits[j])
      {
        i := i + 1;
      }
      if i == |cls.lits| {
        count := count + 1;
      }
      assert xs[..k + 1][..k] == xs[..k];
      ptr := ptr.link;
      k := k + 1;
    }
    assert xs[..k] == xs;
  }

  /** The second loop: clauses of the unsat list that hold nlit; the assertion is the one of the source. */
  method CountHaving(list: ClauseList, plit: Literal, nlit: Literal) returns (count: int)
    requires list.Valid()
    requires forall c :: c in list.Contents() ==> plit !in c.lits
    ensures count == Count(list.Contents(), Having(nlit))
  {
    count := 0;
    var ptr := list.head;
    ghost var k := 0;
    ghost var xs := list.Contents();
    while ptr != list.tail
      invariant 0 <= k <= list.length && ptr == list.nodes[k]
      invariant count == Count(xs[..k], Having(nlit))
      decreases list.length - k
    {
      assert k != list.length && ptr.link == list.nodes[k + 1] == xs[k];
      var cls := ptr.link;
      assert cls in xs;
      var i := 0;
      while i < |cls.lits| && cls.lits[i] != nlit
        invariant 0 <= i <= |cls.lits|
        invariant nlit !in cls.lits[..i]
      {
        assert cls.lits[i] != plit;
        i := i + 1;
      }
      assert cls.lits[..|cls.lits|] == cls.lits;
      if i < |cls.lits| {
        count := count + 1;
      }
      assert xs[..k + 1][..k] == xs[..k];
      ptr := ptr.link;
      k := k + 1;
    }
    assert xs[..k] == xs;
  }

  lemma CostReady(p: Problem, s: Search, v: nat)
    requires Inv(p, s, multiset{}) && v < p.n
    ensures |s.a| == p.n && |s.lists| == 3 + 2 * p.n + p.numRules
    ensures forall c :: c in s.lists[Watched(Current(s.a, v))] ==> ClauseInRange(c, p.n)
    ensures forall c :: c in s.lists[UNSAT] ==> Current(s.a, v) !in c.lits
  {
    var lit := Current(s.a, v);
    forall c | c in s.lists[Watched(lit)] ensures ClauseInRange(c, p.n) {
      ListedIsGiven(p, s, Watched(lit), c);
    }
    forall c | c in s.lists[UNSAT] ensures lit !in c.lits {
      assert Falsified(s.a, c);
    }
  }

  /** cost_flip_unfixed_variable */
  method CostFlipUnfixedVariable(t: SampTable, v: nat, ghost p: Problem) returns (dcost: int)
    requires t.RunsOn(p) && v < t.numVars
    ensures dcost == DCost(t.S(), v)
  {
    hide Inv;
    ghost var s := t.S();
    var plit := if AssignedTrue(t.assignment[v]) then PosLit(v) else NegLit(v);
    var nlit := if AssignedTrue(t.assignment[v]) then NegLit(v) else PosLit(v);
    CostReady(p, s, v);
    assert t.pool.lists[Watched(plit)].Contents() == s.lists[Watched(plit)];
    assert t.pool.lists[UNSAT].Contents() == s.lists[UNSAT];
    var broken := CountCritical(t.pool.lists[Watched(plit)], t.assignment, plit);
    var repaired := CountHaving(t.pool.lists[UNSAT], plit, nlit);
    dcost := broken - repaired;
  }

  /** The candidate literal, or EmptyStack when choose_clause_var would read a slot of its stack that
      this call has not written. */
  datatype Choice = Chosen(index: nat) | EmptyStack

  ghost predicate OpenAt(a: Assignment, c: Clause, i: nat)
    requires ClauseInRange(c, |a|) && i < |c.lits|
  {
    UnfixedTval(a[VarOf(c.lits[i])])
  }

  /** The random branch of choose_clause_var: all positions of unfixed literals, in order. */
  method OpenPositions(a: array<TruthValue>, clause: Clause) returns (stack: seq<nat>)
    requires ClauseInRange(clause, a.Length)
    ensures forall i :: i in stack <==> 0 <= i < |clause.lits| && OpenAt(a[..], clause, i)
  {
    stack := [];
    for i := 0 to |clause.lits|
      invariant forall k :: k in stack <==> 0 <= k < i && OpenAt(a[..], clause, k)
    {
      if UnfixedTval(a[VarOf(clause.lits[i])]) {
        stack := stack + [i];
      }
    }
  }

  /** The cost of flipping the atom of the k-th literal. */
  ghost function FlipCostAt(s: Search, c: Clause, k: nat): int
    requires ClauseInRange(c, |s.a|) && 3 + 2 * |s.a| <= |s.lists| && k < |c.lits|
  {
    DCost(s, VarOf(c.lits[k]))
  }

  /** stack holds exactly the open positions below i of cost dcost, and no open position below i is cheaper. */
  ghost predicate Cheapest(s: Search, c: Clause, i: nat, stack: seq<nat>, dcost: int)
    requires ClauseInRange(c, |s.a|) && 3 + 2 * |s.a| <= |s.lists| && i <= |c.lits|
  {
    && (forall k :: k in stack <==> 0 <= k < i && OpenAt(s.a, c, k) && FlipCostAt(s, c, k) == dcost)
    && forall k :: 0 <= k < i && OpenAt(s.a, c, k) ==> stack != [] && dcost <= FlipCostAt(s, c, k)
  }

  lemma CheapestStep(s: Search, c: Clause, i: nat, stack: seq<nat>, dcost: int)
    requires ClauseInRange(c, |s.a|) && 3 + 2 * |s.a| <= |s.lists| && i < |c.lits|
    requires Cheapest(s, c, i, stack, dcost)
    ensures !OpenAt(s.a, c, i) ==> Cheapest(s, c, i + 1, stack, dcost)
    ensures OpenAt(s.a, c, i) && (stack == [] || dcost > FlipCostAt(s, c, i)) ==>
              Cheapest(s, c, i + 1, [i], FlipCostAt(s, c, i))
    ensures OpenAt(s.a, c, i) && stack != [] && dcost == FlipCostAt(s, c, i) ==>
              Cheapest(s, c, i + 1, stack + [i], dcost)
    ensures OpenAt(s.a, c, i) && stack != [] && dcost < FlipCostAt(s, c, i) ==> Cheapest(s, c, i + 1, stack, dcost)
  {
  }

  lemma NothingYet(s: Search, c: Clause, dcost: int)
    requires ClauseInRange(c, |s.a|) && 3 + 2 * |s.a| <= |s.lists|
    ensures Cheapest(s, c, 0, [], dcost)
  {
  }

  /** The greedy branch of choose_clause_var: the positions of unfixed literals whose flip costs least. */
  method CheapestPositions(t: SampTable, clause: Clause, ghost p: Problem) returns (stack: seq<nat>, dcost: int)
    requires t.RunsOn(p) && ClauseInRange(clause, t.numVars)
    ensures Cheapest(t.S(), clause, |clause.lits|, stack, dcost)
  {
    hide Inv, DCost, Cheapest;
    stack := [];
    dcost := 0x7fff_ffff;  // INT32_MAX: above every cost while the stack is empty
    ghost var s := t.S();
    NothingYet(s, clause, dcost);
    for i := 0 to |clause.lits|
      invariant Cheapest(s, clause, i, stack, dcost)
    {
      CheapestStep(s, clause, i, stack, dcost);
      if UnfixedTval(t.assignment[VarOf(clause.lits[i])]) {
        var vcost := CostFlipUnfixedVariable(t, VarOf(clause.lits[i]), p);
        assert vcost == FlipCostAt(s, clause, i) && [] + [i] == [i];
        if stack == [] || dcost >= vcost {
          if stack == [] || dcost > vcost {
            dcost := vcost;
            stack := [];
          }
          stack := stack + [i];
        }
      }
    }
  }

  /** Position k of the clause is an admissible choice: unfixed, and in the greedy branch as cheap as any. */
  ghost predicate Admissible(s: Search, c: Clause, k: nat, greedy: bool)
    requires ClauseInRange(c, |s.a|) && 3 + 2 * |s.a| <= |s.lists|
  {
    && k < |c.lits| && OpenAt(s.a, c, k)
    && (greedy ==> forall j :: 0 <= j < |c.lits| && OpenAt(s.a, c, j) ==>
          DCost(s, VarOf(c.lits[k])) <= DCost(s, VarOf(c.lits[j])))
  }

  /** choose_clause_var for a clause whose rule is fixed true, so that the rule itself is no candidate. greedy tells
      which branch the first draw takes. */
  method ChooseClauseVar(t: SampTable, clause: Clause, greedy: bool, ghost p: Problem) returns (r: Choice)
    requires t.RunsOn(p) && ClauseInRange(clause, t.numVars)
    ensures r.Chosen? ==> Admissible(t.S(), clause, r.index, greedy)
    ensures r.EmptyStack? <==> forall k :: 0 <= k < |clause.lits| ==> !OpenAt(t.assignment[..], clause, k)
  {
    var stack;
    if !greedy {
      stack := OpenPositions(t.assignment, clause);
      assert forall k :: 0 <= k < |clause.lits| && OpenAt(t.assignment[..], clause, k) ==> k in stack;
    } else {
      var dcost;
      stack, dcost := CheapestPositions(t, clause, p);
    }
    var sidx := GenrandUint(|stack|);
    if stack == [] {
      return EmptyStack;
    }
    assert stack[sidx] in stack;
    return Chosen(stack[sidx]);
  }
}
