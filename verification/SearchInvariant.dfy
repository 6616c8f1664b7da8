/** The steps of a SampleSAT run keep its invariant, and what the invariant says once the live list
    is empty (src/walksat.c:99-383). */
module SearchInvariant {
  import opened TruthValues
  import opened ClauseLists
  import opened SearchModel

  // ----- one atom changes -----

  /** Literals of other atoms keep their value. */
  lemma OtherLit(a: Assignment, v: nat, t: TruthValue, l: Literal)
    requires v < |a| && InRange(l, |a|) && VarOf(l) != v
    ensures TrueLit(a[v := t], l) == TrueLit(a, l)
    ensures FalseLit(a[v := t], l) == FalseLit(a, l)
    ensures FixedTrueLit(a[v := t], l) == FixedTrueLit(a, l)
    ensures FixedFalseLit(a[v := t], l) == FixedFalseLit(a, l)
  {
  }

  /** A clause with a fixed true literal keeps it when an unfixed atom changes. */
  lemma FixedSatisfiedKept(a: Assignment, v: nat, t: TruthValue, xs: seq<Clause>)
    requires v < |a| && UnfixedTval(a[v]) && AllFixedSatisfied(a, xs)
    ensures AllFixedSatisfied(a[v := t], xs)
  {
  }

  lemma FixedFalsifiedKept(a: Assignment, v: nat, t: TruthValue, xs: seq<Clause>)
    requires v < |a| && UnfixedTval(a[v]) && AllFixedFalsified(a, xs)
    ensures AllFixedFalsified(a[v := t], xs)
  {
  }

  /** A new value that keeps the truth value of the atom changes the truth of no literal. */
  lemma SameTruth(a: Assignment, v: nat, t: TruthValue, l: Literal)
    requires v < |a| && a[v] == UnfixTval(t) && InRange(l, |a|)
    ensures TrueLit(a[v := t], l) == TrueLit(a, l)
    ensures FalseLit(a[v := t], l) == FalseLit(a, l)
  {
  }

  /** update_atom_tval on an unfixed atom keeps the meaning of the lists, also while clauses wait in live. */
  lemma UpdateKeepsLists(p: Problem, s: Search, v: nat, t: TruthValue)
    requires Shape(p, s) && ListsOk(p, s) && v < p.n && UnfixedTval(s.a[v]) && t != Undef
    ensures Shape(p, UpdateAtom(s, v, t)) && ListsOk(p, UpdateAtom(s, v, t))
  {
    var s' := UpdateAtom(s, v, t);
    FixedSatisfiedKept(s.a, v, t, s.lists[SAT]);
    FixedFalsifiedKept(s.a, v, t, s.rejected);
    if s.a[v] == UnfixTval(t) {
      forall l: Literal | InRange(l, p.n) ensures AllWatched(s'.a, l, s'.lists[Watched(l)]) {
        assert AllWatched(s.a, l, s.lists[Watched(l)]);
        SameTruth(s.a, v, t, l);
      }
      forall c | c in s.lists[UNSAT] ensures ClauseInRange(c, |s'.a|) && Falsified(s'.a, c) {
        forall i | 0 <= i < |c.lits| ensures FalseLit(s'.a, c.lits[i]) {
          SameTruth(s.a, v, t, c.lits[i]);
        }
      }
    } else {
      var gone := if AssignedTrue(t) then NegLit(v) else PosLit(v);
      forall l: Literal | InRange(l, p.n) ensures AllWatched(s'.a, l, s'.lists[Watched(l)]) {
        assert AllWatched(s.a, l, s.lists[Watched(l)]);
        if l == gone {
          assert s'.lists[Watched(l)] == [];
        } else {
          assert s'.lists[Watched(l)] == s.lists[Watched(l)];
          if VarOf(l) != v {
            OtherLit(s.a, v, t, l);
          }
        }
      }
    }
  }

  ghost predicate NotListed(lists: seq<seq<Clause>>, c: Clause) {
    forall j :: 0 <= j < |lists| ==> c !in lists[j]
  }

  /** A clause in hand stays out of all lists while an atom changes. */
  lemma UpdateKeepsAway(s: Search, v: nat, t: TruthValue, c: Clause)
    requires v < |s.a| && 3 + 2 * |s.a| <= |s.lists| && NotListed(s.lists, c)
    ensures NotListed(UpdateAtom(s, v, t).lists, c)
  {
  }

  /** The assertion of link_propagate: a literal that is not true has an empty watched list. */
  ghost predicate WatchedAreTrue(s: Search) {
    && 3 + 2 * |s.a| <= |s.lists|
    && forall l: Literal :: InRange(l, |s.a|) && !TrueLit(s.a, l) ==> s.lists[Watched(l)] == []
  }

  lemma WatchedIsTrue(xs: seq<Clause>, l: Literal, a: Assignment)
    requires InRange(l, |a|) && AllWatched(a, l, xs)
    ensures xs != [] ==> TrueLit(a, l)
  {
    if xs != [] {
      assert xs[0] in xs;
    }
  }

  lemma InvWatched(p: Problem, s: Search)
    requires Shape(p, s) && ListsOk(p, s)
    ensures WatchedAreTrue(s)
  {
    forall l: Literal | InRange(l, |s.a|) && !TrueLit(s.a, l) ensures s.lists[Watched(l)] == [] {
      assert AllWatched(s.a, l, s.lists[Watched(l)]);
      WatchedIsTrue(s.lists[Watched(l)], l, s.a);
    }
  }

  lemma UpdateKeepsEvidence(p: Problem, s: Search, v: nat, t: TruthValue)
    requires Shape(p, s) && KeepsEvidence(p, s) && v < p.n && UnfixedTval(s.a[v])
    requires t != Undef && !DbTval(t)
    ensures Shape(p, UpdateAtom(s, v, t)) && KeepsEvidence(p, UpdateAtom(s, v, t))
  {
  }

  lemma UpdateKeepsSound(p: Problem, s: Search, v: nat, t: TruthValue)
    requires WellFormed(p) && Shape(p, s) && Sound(p, s) && v < p.n && UnfixedTval(s.a[v])
    requires FixedTval(t) ==> forall m :: IsModel(p, m) ==> m[v] == AssignedTrue(t)
    ensures Sound(p, UpdateAtom(s, v, t))
  {
  }

  lemma LinkConserves(p: Problem, s: Search, lit: Literal, hand: multiset<Clause>)
    requires Watched(lit) < |s.lists| && Conserved(p, s, hand)
    ensures Conserved(p, LinkPropagate(s, lit), hand)
  {
    AllConcat(s.lists, Watched(lit), LIVE);
    AllConcat(Concat(s.lists, Watched(lit), LIVE), UNSAT, LIVE);
  }

  /** update_atom_tval on an unfixed atom keeps the invariant; a value it fixes must be forced. */
  lemma UpdateKeeps(p: Problem, s: Search, v: nat, t: TruthValue, hand: multiset<Clause>)
    requires Inv(p, s, hand) && v < p.n && UnfixedTval(s.a[v])
    requires t != Undef && !DbTval(t)
    requires FixedTval(t) ==> forall m :: IsModel(p, m) ==> m[v] == AssignedTrue(t)
    ensures Inv(p, UpdateAtom(s, v, t), hand)
  {
    UpdateKeepsLists(p, s, v, t);
    UpdateKeepsEvidence(p, s, v, t);
    UpdateKeepsSound(p, s, v, t);
    if s.a[v] != UnfixTval(t) {
      LinkConserves(p, s.(a := s.a[v := t]), if AssignedTrue(t) then NegLit(v) else PosLit(v), hand);
    }
  }

  /** update_atom_tval with a value that is not fixed may be called on any atom. */
  lemma UpdateOrNotKeeps(p: Problem, s: Search, v: nat, t: TruthValue)
    requires Inv(p, s, multiset{}) && v < p.n && UnfixedTval(t)
    ensures Inv(p, UpdateAtom(s, v, t), multiset{})
  {
    if UnfixedTval(s.a[v]) {
      UpdateKeeps(p, s, v, t, multiset{});
    }
  }

  // ----- what an update does, list by list -----

  /** The lists after link_propagate: live takes the clauses watched by lit, then the unsatisfied ones. */
  ghost function Relinked(lists: seq<seq<Clause>>, lit: Literal): seq<seq<Clause>>
    requires Watched(lit) < |lists|
  {
    lists[LIVE := lists[LIVE] + lists[Watched(lit)] + lists[UNSAT]][Watched(lit) := []][UNSAT := []]
  }

  lemma LinkExact(s: Search, lit: Literal)
    requires Watched(lit) < |s.lists|
    ensures SearchModel.LinkPropagate(s, lit) == Search(s.a, Relinked(s.lists, lit), s.rejected)
  {
  }

  /** update_atom_tval stores the value in an atom that is not fixed. Lists change only with its truth value, and then
      only those of the literal that became false. */
  lemma UpdateExact(s: Search, v: nat, t: TruthValue)
    requires v < |s.a| && 3 + 2 * |s.a| <= |s.lists| && t != Undef
    ensures UnfixedTval(s.a[v]) ==> UpdateAtom(s, v, t).a == s.a[v := t]
    ensures UnfixedTval(s.a[v]) && AssignedTrue(t) == AssignedTrue(s.a[v]) && !DbTval(t) ==>
              UpdateAtom(s, v, t).lists == s.lists
    ensures UnfixedTval(s.a[v]) && AssignedTrue(t) != AssignedTrue(s.a[v]) ==>
              UpdateAtom(s, v, t).lists == Relinked(s.lists, if AssignedTrue(t) then NegLit(v) else PosLit(v))
    ensures FixedTval(s.a[v]) ==> UpdateAtom(s, v, t) == s
    ensures UpdateAtom(s, v, t).rejected == s.rejected
  {
    LinkExact(s.(a := s.a[v := t]), if AssignedTrue(t) then NegLit(v) else PosLit(v));
  }

  // ----- one clause leaves the live list -----

  /** Position i holds the first true literal. */
  ghost predicate FirstTrueAt(a: Assignment, c: Clause, i: nat)
    requires ClauseInRange(c, |a|)
  {
    i < |c.lits| && TrueLit(a, c.lits[i]) && forall k :: 0 <= k < i ==> !TrueLit(a, c.lits[k])
  }

  /** Without undefined atoms a literal that is not true is false. */
  lemma NotTrueIsFalse(a: Assignment, c: Clause)
    requires NoUndef(a) && ClauseInRange(c, |a|)
    ensures Satisfied(a, c) <==> !Falsified(a, c)
  {
  }

  lemma FixedTrueIsNotFalse(a: Assignment, c: Clause)
    requires ClauseInRange(c, |a|) && FixedSatisfied(a, c)
    ensures !FixedFalsified(a, c)
  {
  }

  /** The four classes of a clause without undefined atoms. */
  lemma FourClasses(a: Assignment, c: Clause)
    requires ClauseInRange(c, |a|) && NoUndef(a)
    ensures FixedFalsified(a, c) || FixedSatisfied(a, c) || TwoOpen(a, c)
         || exists i :: 0 <= i < |c.lits| && OnlyOpen(a, c, i)
  {
    if !FixedFalsified(a, c) && !TwoOpen(a, c) {
      var i :| 0 <= i < |c.lits| && !FixedFalseLit(a, c.lits[i]);
      assert OnlyOpen(a, c, i);
    }
  }

  /** A clause that needs no propagation changes no value: it is dropped, or goes to the head of one list. */
  lemma InsertExact(s: Search, c: Clause)
    requires ClauseInRange(c, |s.a|) && 3 + 2 * |s.a| <= |s.lists| && NoUndef(s.a)
    ensures FixedFalsified(s.a, c) ==> InsertLive(s, c) == s.(rejected := s.rejected + [c])
    ensures FixedSatisfied(s.a, c) ==> InsertLive(s, c) == s.(lists := s.lists[SAT := [c] + s.lists[SAT]])
    ensures !FixedSatisfied(s.a, c) && TwoOpen(s.a, c) && Falsified(s.a, c) ==>
              InsertLive(s, c) == s.(lists := s.lists[UNSAT := [c] + s.lists[UNSAT]])
    ensures !FixedSatisfied(s.a, c) && TwoOpen(s.a, c) && !Falsified(s.a, c) ==>
              exists i: nat :: FirstTrueAt(s.a, c, i)
                && InsertLive(s, c) == s.(lists := s.lists[3 + c.lits[i] := [c] + s.lists[3 + c.lits[i]]])
  {
    hide FirstFixedTrue, FirstNotFixedFalse, FirstTrue, FixedFalseLit;
    var r := Classify(s.a, c);
    hide Classify;
    if !FixedSatisfied(s.a, c) && TwoOpen(s.a, c) {
      assert r.Open?;
      NotTrueIsFalse(s.a, c);
      var i := FirstTrue(s.a, c.lits, 0);
      assert i < |c.lits| ==> FirstTrueAt(s.a, c, i);
    } else if FixedSatisfied(s.a, c) {
      FixedTrueIsNotFalse(s.a, c);
      assert !UnfixedTval(s.a[VarOf(c.lits[r.lit])]);
    }
  }

  /** Unit propagation takes place: a single open literal is fixed true, and the clause is satisfied for good. */
  lemma InsertPropagates(s: Search, c: Clause, i: nat)
    requires ClauseInRange(c, |s.a|) && 3 + 2 * |s.a| <= |s.lists| && NoUndef(s.a)
    requires i < |c.lits| && OnlyOpen(s.a, c, i) && !FixedSatisfied(s.a, c)
    ensures var r, l := InsertLive(s, c), c.lits[i];
      && r.a == s.a[VarOf(l) := if IsPos(l) then UpTrue else UpFalse] && FixedTrueLit(r.a, l)
      && r.lists == (if TrueLit(s.a, l) then s.lists else Relinked(s.lists, Not(l)))[SAT := [c] + s.lists[SAT]]
      && r.rejected == s.rejected
  {
  }

  /** Unit propagation is sound: when all other literals are fixed false, every model makes this one true. */
  lemma OnlyOpenIsForced(p: Problem, s: Search, c: Clause, i: nat)
    requires WellFormed(p) && Shape(p, s) && Sound(p, s)
    requires c in p.clauses && i < |c.lits| && OnlyOpen(s.a, c, i)
    ensures forall m :: IsModel(p, m) ==> Holds(m, c.lits[i])
  {
  }

  /** The message "no model exists" is true: a clause that is fixed unsat refutes every model. */
  lemma FixedFalsifiedRefutes(p: Problem, s: Search, c: Clause, m: Interpretation)
    requires WellFormed(p) && Shape(p, s) && Sound(p, s)
    requires c in p.clauses && FixedFalsified(s.a, c)
    ensures !IsModel(p, m)
  {
  }

  lemma PushConserves(p: Problem, s: Search, i: nat, c: Clause, hand: multiset<Clause>)
    requires i < |s.lists| && Conserved(p, s, hand + multiset{c})
    ensures Conserved(p, Push(s, i, c), hand)
  {
    AllUpdate(s.lists, i, [c] + s.lists[i]);
    assert multiset([c] + s.lists[i]) == multiset{c} + multiset(s.lists[i]);
    assert All(s.lists) + multiset([c] + s.lists[i]) == (All(s.lists) + multiset{c}) + multiset(s.lists[i]);
    Cancel(All(Push(s, i, c).lists), All(s.lists) + multiset{c}, multiset(s.lists[i]));
  }

  lemma RejectConserves(p: Problem, s: Search, c: Clause, hand: multiset<Clause>)
    requires Conserved(p, s, hand + multiset{c})
    ensures Conserved(p, s.(rejected := s.rejected + [c]), hand)
  {
  }

  lemma PopConserves(p: Problem, s: Search)
    requires LIVE < |s.lists| && s.lists[LIVE] != [] && Conserved(p, s, multiset{})
    ensures Conserved(p, PopLive(s), multiset{s.lists[LIVE][0]})
  {
    var live := s.lists[LIVE];
    AllUpdate(s.lists, LIVE, live[1..]);
    assert live == [live[0]] + live[1..];
    assert multiset(live) == multiset{live[0]} + multiset(live[1..]);
    assert (All(PopLive(s).lists) + multiset{live[0]}) + multiset(live[1..]) == All(s.lists) + multiset(live[1..]);
    Cancel(All(PopLive(s).lists) + multiset{live[0]}, All(s.lists), multiset(live[1..]));
  }

  lemma PushFixedSatisfied(p: Problem, s: Search, c: Clause, hand: multiset<Clause>)
    requires Inv(p, s, hand + multiset{c}) && c in p.clauses && FixedSatisfied(s.a, c)
    ensures Inv(p, Push(s, SAT, c), hand)
  {
    PushConserves(p, s, SAT, c, hand);
  }

  lemma PushWatched(p: Problem, s: Search, c: Clause, l: Literal, hand: multiset<Clause>)
    requires Inv(p, s, hand + multiset{c}) && c in p.clauses
    requires l in c.lits && InRange(l, p.n) && TrueLit(s.a, l)
    ensures Inv(p, Push(s, Watched(l), c), hand)
  {
    PushConserves(p, s, Watched(l), c, hand);
    var s' := Push(s, Watched(l), c);
    forall k: Literal | InRange(k, p.n) ensures AllWatched(s'.a, k, s'.lists[Watched(k)]) {
      assert AllWatched(s.a, k, s.lists[Watched(k)]);
    }
  }

  lemma PushFalsified(p: Problem, s: Search, c: Clause, hand: multiset<Clause>)
    requires Inv(p, s, hand + multiset{c}) && c in p.clauses && Falsified(s.a, c)
    ensures Inv(p, Push(s, UNSAT, c), hand)
  {
    PushConserves(p, s, UNSAT, c, hand);
  }

  /** insert_live_clause keeps the invariant: whichever list takes the clause, propagation included. */
  lemma InsertKeeps(p: Problem, s: Search, c: Clause, hand: multiset<Clause>)
    requires Inv(p, s, hand + multiset{c}) && c in p.clauses
    ensures Inv(p, InsertLive(s, c), hand)
  {
    match Classify(s.a, c)
    case FixedUnsat =>
      RejectConserves(p, s, c, hand);
    case Open =>
      var i := FirstTrue(s.a, c.lits, 0);
      if i < |c.lits| {
        PushWatched(p, s, c, c.lits[i], hand);
      } else {
        NotTrueIsFalse(s.a, c);
        PushFalsified(p, s, c, hand);
      }
    case Fixable(i) =>
      var l := c.lits[i];
      if UnfixedTval(s.a[VarOf(l)]) {
        OnlyOpenIsForced(p, s, c, i);
        UpdateKeeps(p, s, VarOf(l), if IsPos(l) then UpTrue else UpFalse, hand + multiset{c});
        assert FixedTrueLit(FixTrue(s, l).a, l);
        PushFixedSatisfied(p, FixTrue(s, l), c, hand);
      } else {
        assert FixedTrueLit(s.a, l);
        PushFixedSatisfied(p, s, c, hand);
      }
  }

  // ----- draining the live list -----

  lemma PopKeeps(p: Problem, s: Search)
    requires Inv(p, s, multiset{}) && s.lists[LIVE] != []
    ensures s.lists[LIVE][0] in p.clauses
    ensures Inv(p, PopLive(s), multiset{s.lists[LIVE][0]})
  {
    PopConserves(p, s);
    var c := s.lists[LIVE][0];
    assert c in multiset(p.clauses);
    var s' := PopLive(s);
    forall l: Literal | InRange(l, p.n) ensures AllWatched(s'.a, l, s'.lists[Watched(l)]) {
      assert s'.lists[Watched(l)] == s.lists[Watched(l)];
    }
  }

  lemma ReadyToScan(p: Problem, s: Search)
    requires Inv(p, s, multiset{})
    ensures WatchedAreTrue(s) && |s.a| == p.n && LIVE < |s.lists|
    ensures s.lists[LIVE] != [] ==> s.lists[LIVE][0] in p.clauses && ClauseInRange(s.lists[LIVE][0], p.n)
  {
    InvWatched(p, s);
    if s.lists[LIVE] != [] {
      PopKeeps(p, s);
    }
  }

  function ScanStep(s: Search): Search
    requires LIVE < |s.lists| && s.lists[LIVE] != []
    requires ClauseInRange(s.lists[LIVE][0], |s.a|) && 3 + 2 * |s.a| <= |s.lists|
  {
    InsertLive(PopLive(s), s.lists[LIVE][0])
  }

  lemma ScanStepKeeps(p: Problem, s: Search)
    requires Inv(p, s, multiset{}) && s.lists[LIVE] != []
    ensures s.lists[LIVE][0] in p.clauses
    ensures Inv(p, ScanStep(s), multiset{})
  {
    PopKeeps(p, s);
    assert multiset{} + multiset{s.lists[LIVE][0]} == multiset{s.lists[LIVE][0]};
    InsertKeeps(p, PopLive(s), s.lists[LIVE][0], multiset{});
  }

  /** Propagation may refill the live list, but only by fixing an atom. */
  lemma ScanStepProgress(p: Problem, s: Search)
    requires Inv(p, s, multiset{}) && s.lists[LIVE] != [] && s.lists[LIVE][0] in p.clauses
    ensures CountUnfixed(ScanStep(s).a) < CountUnfixed(s.a)
         || (ScanStep(s).a == s.a && |ScanStep(s).lists[LIVE]| < |s.lists[LIVE]|)
  {
    hide ListsOk, KeepsEvidence, Sound, Conserved, FirstFixedTrue, FirstNotFixedFalse, FirstTrue;
    var c := s.lists[LIVE][0];
    match Classify(s.a, c)
    case FixedUnsat =>
    case Open =>
    case Fixable(i) =>
      var l := c.lits[i];
      CountUnfixedUpdate(s.a, VarOf(l), if IsPos(l) then UpTrue else UpFalse);
  }

  /** scan_live_clauses as a function: it ends because every step fixes an atom or shortens the list. */
  ghost function Scan(p: Problem, s: Search): (r: Search)
    requires Inv(p, s, multiset{})
    ensures Inv(p, r, multiset{}) && r.lists[LIVE] == []
    decreases CountUnfixed(s.a), |s.lists[LIVE]|
  {
    if s.lists[LIVE] == [] then s
    else
      ScanStepKeeps(p, s);
      ScanStepProgress(p, s);
      Scan(p, ScanStep(s))
  }

  /** Values change only where unit propagation fixes an unfixed atom. */
  ghost predicate OnlyFixes(a: Assignment, b: Assignment) {
    && |b| == |a|
    && forall v :: 0 <= v < |a| ==> b[v] == a[v] || (UnfixedTval(a[v]) && UpTval(b[v]))
  }

  lemma InsertOnlyFixes(s: Search, c: Clause)
    requires ClauseInRange(c, |s.a|) && 3 + 2 * |s.a| <= |s.lists|
    ensures OnlyFixes(s.a, InsertLive(s, c).a)
  {
    hide Classify, FirstTrue;
  }

  /** Draining the live list flips no atom. */
  lemma {:induction false} ScanOnlyFixes(p: Problem, s: Search)
    requires Inv(p, s, multiset{})
    ensures OnlyFixes(s.a, Scan(p, s).a)
    decreases CountUnfixed(s.a), |s.lists[LIVE]|
  {
    hide Inv, InsertLive;
    ReadyToScan(p, s);
    if s.lists[LIVE] != [] {
      ScanStepKeeps(p, s);
      ScanStepProgress(p, s);
      InsertOnlyFixes(PopLive(s), s.lists[LIVE][0]);
      ScanOnlyFixes(p, ScanStep(s));
    }
  }

  // ----- what the invariant says -----

  lemma WhereIs(p: Problem, s: Search, c: Clause)
    requires Inv(p, s, multiset{}) && s.lists[LIVE] == [] && c in p.clauses
    ensures c in s.lists[SAT] || c in s.lists[UNSAT] || c in s.rejected
         || exists l: Literal :: InRange(l, p.n) && c in s.lists[Watched(l)]
  {
    assert c in multiset(p.clauses);
    if c !in s.rejected {
      forall j | 3 + 2 * p.n <= j < |s.lists| ensures s.lists[j] == [] {
        assert s.lists[RuleWatched(p.n, j - 3 - 2 * p.n)] == [];
      }
      MemberOfSome(s.lists, |s.lists|, c);
      var i :| 0 <= i < |s.lists| && c in s.lists[i];
      if i >= 3 {
        assert InRange(i - 3, p.n) && Watched(i - 3) == i;
      }
    }
  }

  /** With the live list empty, the falsified clauses are exactly those on the unsat list and the rejected ones. */
  lemma UnsatListExact(p: Problem, s: Search, c: Clause)
    requires Inv(p, s, multiset{}) && s.lists[LIVE] == [] && c in p.clauses
    ensures !Satisfied(s.a, c) <==> c in s.lists[UNSAT] || c in s.rejected
  {
    NotTrueIsFalse(s.a, c);
    if c in s.rejected {
      assert FixedFalsified(s.a, c);
      forall i | 0 <= i < |c.lits| ensures FalseLit(s.a, c.lits[i]) {
        assert FixedFalseLit(s.a, c.lits[i]);
      }
    } else if c !in s.lists[UNSAT] {
      WhereIs(p, s, c);
      if c in s.lists[SAT] {
        assert FixedSatisfied(s.a, c);
        var i :| 0 <= i < |c.lits| && FixedTrueLit(s.a, c.lits[i]);
        assert TrueLit(s.a, c.lits[i]);
      } else {
        var l: Literal :| InRange(l, p.n) && c in s.lists[Watched(l)];
        assert AllWatched(s.a, l, s.lists[Watched(l)]);
        var i :| 0 <= i < |c.lits| && c.lits[i] == l;
        assert TrueLit(s.a, c.lits[i]);
      }
    }
  }

  /** A clause given once is on the unsat list iff it is falsified and was not rejected. */
  lemma UnsatListExclusive(p: Problem, s: Search, c: Clause)
    requires Inv(p, s, multiset{}) && s.lists[LIVE] == [] && multiset(p.clauses)[c] == 1
    ensures c in s.lists[UNSAT] <==> !Satisfied(s.a, c) && c !in s.rejected
  {
    assert c in multiset(p.clauses);
    UnsatListExact(p, s, c);
    if c in s.lists[UNSAT] {
      MemberOfSome(s.lists, |s.lists|, c);
      assert All(s.lists)[c] >= 1 && (All(s.lists) + multiset(s.rejected) + multiset{})[c] == 1;
      assert multiset(s.rejected)[c] == 0;
    }
  }

  /** A falsified clause keeps an unfixed literal as long as the problem has a model. */
  lemma UnsatClauseIsOpen(p: Problem, s: Search, c: Clause, m: Interpretation)
    requires WellFormed(p) && Shape(p, s) && Sound(p, s) && IsModel(p, m)
    requires c in p.clauses && Falsified(s.a, c)
    ensures exists i :: 0 <= i < |c.lits| && UnfixedTval(s.a[VarOf(c.lits[i])])
  {
  }

  /** A satisfiable problem rejects nothing. */
  lemma NothingRejected(p: Problem, s: Search, m: Interpretation, hand: multiset<Clause>)
    requires Inv(p, s, hand) && IsModel(p, m)
    ensures s.rejected == []
  {
    if s.rejected != [] {
      var c := s.rejected[0];
      assert c in multiset(s.rejected);
      assert c in multiset(p.clauses);
      FixedFalsifiedRefutes(p, s, c, m);
    }
  }

  // ----- starting a run and flipping -----

  /** The state init_live_clauses leaves: everything waits in live. */
  ghost function Initial(p: Problem): Search {
    Search(p.evidence, seq(3 + 2 * p.n + p.numRules, i => if i == LIVE then p.clauses else []), [])
  }

  lemma {:induction false} MembersOfFirst(lists: seq<seq<Clause>>, k: nat)
    requires 0 < k <= |lists| && forall i :: 0 < i < |lists| ==> lists[i] == []
    ensures Members(lists, k) == multiset(lists[0])
  {
    if k == 1 {
      assert Members(lists, 1) == Members(lists, 0) + multiset(lists[0]);
    } else {
      MembersOfFirst(lists, k - 1);
    }
  }

  lemma InitialInv(p: Problem)
    requires WellFormed(p)
    ensures Inv(p, Initial(p), multiset{})
  {
    var s := Initial(p);
    MembersOfFirst(s.lists, |s.lists|);
    assert forall m :: IsModel(p, m) ==> Agrees(m, s.a);
  }

  /** flip_unfixed_variable as a function. */
  ghost function Flip(p: Problem, s: Search, v: nat): (r: Search)
    requires Inv(p, s, multiset{}) && v < p.n
    ensures Inv(p, r, multiset{}) && r.lists[LIVE] == []
  {
    var t := if AssignedTrue(s.a[v]) then False else True;
    UpdateOrNotKeeps(p, s, v, t);
    Scan(p, UpdateAtom(s, v, t))
  }

  function FlippedTo(a: Assignment, v: nat): Assignment
    requires v < |a|
  {
    a[v := if AssignedTrue(a[v]) then False else True]
  }

  /** A flip gives an unfixed atom the opposite value. Besides, it changes only what unit propagation then fixes. */
  lemma FlipFlips(p: Problem, s: Search, v: nat)
    requires Inv(p, s, multiset{}) && v < p.n
    ensures v < |s.a|
    ensures UnfixedTval(s.a[v]) ==>
              && AssignedTrue(FlippedTo(s.a, v)[v]) != AssignedTrue(s.a[v])
              && OnlyFixes(FlippedTo(s.a, v), Flip(p, s, v).a)
    ensures FixedTval(s.a[v]) ==> OnlyFixes(s.a, Flip(p, s, v).a)
  {
    hide Scan;
    var t := if AssignedTrue(s.a[v]) then False else True;
    UpdateOrNotKeeps(p, s, v, t);
    UpdateExact(s, v, t);
    ScanOnlyFixes(p, UpdateAtom(s, v, t));
  }

  /** One coin toss of init_random_assignment: heads makes an unfixed atom false. */
  ghost function Toss(p: Problem, s: Search, v: nat, heads: bool): (r: Search)
    requires Inv(p, s, multiset{}) && v < p.n
    ensures Inv(p, r, multiset{})
    ensures r.a == if UnfixedTval(s.a[v]) then s.a[v := if heads then False else True] else s.a
  {
    var t := if heads then False else True;
    UpdateOrNotKeeps(p, s, v, t);
    if FixedTval(s.a[v]) then s else UpdateAtom(s, v, t)
  }

  lemma TossIs(p: Problem, s: Search, v: nat, heads: bool)
    requires Inv(p, s, multiset{}) && v < p.n
    ensures v < |s.a| && 3 + 2 * |s.a| <= |s.lists|
    ensures Toss(p, s, v, heads) == if FixedTval(s.a[v]) then s else UpdateAtom(s, v, if heads then False else True)
  {
  }

  /** init_random_assignment on the first k atoms. */
  ghost function Randomize(p: Problem, s: Search, heads: nat -> bool, k: nat): (r: Search)
    requires Inv(p, s, multiset{}) && k <= p.n
    ensures Inv(p, r, multiset{})
  {
    if k == 0 then s else Toss(p, Randomize(p, s, heads, k - 1), k - 1, heads(k - 1))
  }

  /** Exactly the unfixed atoms among the first k have the value of their toss, all others the one they had. */
  ghost predicate Tossed(a: Assignment, r: Assignment, heads: nat -> bool, k: nat) {
    && |r| == |a|
    && forall v :: 0 <= v < |a| ==>
         r[v] == if v < k && UnfixedTval(a[v]) then (if heads(v) then False else True) else a[v]
  }

  lemma TossedNext(a: Assignment, b: Assignment, heads: nat -> bool, k: nat)
    requires k < |a| && Tossed(a, b, heads, k)
    ensures Tossed(a, if UnfixedTval(b[k]) then b[k := if heads(k) then False else True] else b, heads, k + 1)
  {
  }

  lemma InvLength(p: Problem, s: Search)
    requires Inv(p, s, multiset{})
    ensures |s.a| == p.n
  {
  }

  lemma NothingTossed(a: Assignment, heads: nat -> bool)
    ensures Tossed(a, a, heads, 0)
  {
  }

  /** The randomised assignment: the atoms that unit propagation and evidence left open have tossed values. */
  lemma {:induction false} RandomizeExact(p: Problem, s: Search, heads: nat -> bool, k: nat)
    requires Inv(p, s, multiset{}) && k <= p.n
    ensures Tossed(s.a, Randomize(p, s, heads, k).a, heads, k)
  {
    hide Inv, Toss, Tossed;
    InvLength(p, s);
    if k > 0 {
      RandomizeExact(p, s, heads, k - 1);
      var before := Randomize(p, s, heads, k - 1);
      TossedNext(s.a, before.a, heads, k - 1);
    } else {
      NothingTossed(s.a, heads);
    }
  }

  /** init_sample_sat as a function. */
  ghost function Start(p: Problem, randomize: bool, heads: nat -> bool): (r: Search)
    requires WellFormed(p)
    ensures Inv(p, r, multiset{}) && r.lists[LIVE] == []
  {
    InitialInv(p);
    var propagated := Scan(p, Initial(p));
    Scan(p, if randomize then Randomize(p, propagated, heads, p.n) else propagated)
  }

  lemma FixTossFix(e: Assignment, first: Assignment, tossed: Assignment, a: Assignment, randomize: bool,
                   heads: nat -> bool)
    requires OnlyFixes(e, first) && OnlyFixes(tossed, a)
    requires if randomize then Tossed(first, tossed, heads, |e|) else tossed == first
    ensures |first| == |a| == |e|
    ensures forall v :: 0 <= v < |e| && UnfixedTval(a[v]) ==>
              a[v] == if randomize then (if heads(v) then False else True) else e[v]
    ensures forall v :: 0 <= v < |e| && FixedTval(first[v]) ==> a[v] == first[v]
  {
  }

  /** An atom that the start of a search leaves unfixed has the value of its toss, or without randomisation that of the
      evidence. What propagation fixes before the tosses stays. */
  lemma StartTosses(p: Problem, randomize: bool, heads: nat -> bool)
    requires WellFormed(p)
    ensures Inv(p, Initial(p), multiset{})
    ensures var a, first := Start(p, randomize, heads).a, Scan(p, Initial(p)).a;
      && |a| == |first| == p.n
      && (forall v :: 0 <= v < p.n && UnfixedTval(a[v]) ==>
            a[v] == if randomize then (if heads(v) then False else True) else p.evidence[v])
      && (forall v :: 0 <= v < p.n && FixedTval(first[v]) ==> a[v] == first[v])
  {
    InitialInv(p);
    var first := Scan(p, Initial(p));
    RandomizeExact(p, first, heads, p.n);
    hide Inv, Scan, Randomize, OnlyFixes, Tossed;
    var tossed := if randomize then Randomize(p, first, heads, p.n) else first;
    ScanOnlyFixes(p, Initial(p));
    ScanOnlyFixes(p, tossed);
    FixTossFix(p.evidence, first.a, tossed.a, Scan(p, tossed).a, randomize, heads);
  }
}
