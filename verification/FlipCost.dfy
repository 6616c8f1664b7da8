/** The cost estimate of a flip against the true change in the number of falsified clauses
    (src/walksat.c:558-607). */
module FlipCost {
  import opened TruthValues
  import opened ClauseLists
  import opened SearchModel
  import opened SearchInvariant

  ghost function Count(xs: seq<Clause>, f: Clause -> bool): nat {
    if xs == [] then 0 else Count(xs[..|xs| - 1], f) + if f(xs[|xs| - 1]) then 1 else 0
  }

  lemma {:induction false} CountAppend(xs: seq<Clause>, ys: seq<Clause>, f: Clause -> bool)
    ensures Count(xs + ys, f) == Count(xs, f) + Count(ys, f)
  {
    if ys == [] {
      assert xs + ys == xs;
    } else {
      assert (xs + ys)[..|xs + ys| - 1] == xs + ys[..|ys| - 1];
      CountAppend(xs, ys[..|ys| - 1], f);
    }
  }

  /** f splits into g and h on xs. */
  lemma {:induction false} CountSplit(xs: seq<Clause>, f: Clause -> bool, g: Clause -> bool, h: Clause -> bool)
    requires forall c :: c in xs ==> (f(c) <==> g(c) || h(c)) && !(g(c) && h(c))
    ensures Count(xs, f) == Count(xs, g) + Count(xs, h)
  {
    if xs != [] {
      assert xs[|xs| - 1] in xs;
      CountSplit(xs[..|xs| - 1], f, g, h);
    }
  }

  lemma {:induction false} CountSame(xs: seq<Clause>, f: Clause -> bool, g: Clause -> bool)
    requires forall c :: c in xs ==> f(c) == g(c)
    ensures Count(xs, f) == Count(xs, g)
  {
    if xs != [] {
      assert xs[|xs| - 1] in xs;
      CountSame(xs[..|xs| - 1], f, g);
    }
  }

  lemma {:induction false} CountZero(xs: seq<Clause>, f: Clause -> bool)
    ensures Count(xs, f) == 0 <==> forall c :: c in xs ==> !f(c)
  {
    if xs != [] {
      CountZero(xs[..|xs| - 1], f);
      assert xs == xs[..|xs| - 1] + [xs[|xs| - 1]];
    }
  }

  /** The count does not depend on the order. */
  lemma {:induction false} CountPermutation(xs: seq<Clause>, ys: seq<Clause>, f: Clause -> bool)
    requires multiset(xs) == multiset(ys)
    ensures Count(xs, f) == Count(ys, f)
    decreases |xs|
  {
    assert |multiset(xs)| == |xs| && |multiset(ys)| == |ys|;
    if xs != [] {
      var n := |xs| - 1;
      var c := xs[n];
      assert xs == xs[..n] + [c];
      assert c in multiset(ys);
      var k :| 0 <= k < |ys| && ys[k] == c;
      var rest := ys[..k] + ys[k + 1..];
      assert ys == ys[..k] + [c] + ys[k + 1..];
      assert multiset(rest) == multiset(ys) - multiset{c};
      assert multiset(xs[..n]) == multiset(xs) - multiset{c};
      CountPermutation(xs[..n], rest, f);
      CountAppend(ys[..k], ys[k + 1..], f);
      CountAppend(ys[..k], [c], f);
      CountAppend(ys[..k] + [c], ys[k + 1..], f);
    }
  }

  // ----- the classes of clauses the estimate looks at -----

  ghost function FalsifiedIn(a: Assignment): Clause -> bool {
    (c: Clause) => ClauseInRange(c, |a|) && Falsified(a, c)
  }

  /** Every literal of c is lit or false: the test of the first loop of cost_flip_unfixed_variable. */
  ghost predicate Critical(a: Assignment, lit: Literal, c: Clause) {
    forall i :: 0 <= i < |c.lits| ==> c.lits[i] == lit || (InRange(c.lits[i], |a|) && FalseLit(a, c.lits[i]))
  }

  ghost function CriticalIn(a: Assignment, lit: Literal): Clause -> bool {
    (c: Clause) => Critical(a, lit, c)
  }

  ghost function Having(lit: Literal): Clause -> bool {
    (c: Clause) => lit in c.lits
  }

  /** Critical for lit although it also holds the negation of lit. */
  ghost function CriticalBothIn(a: Assignment, lit: Literal): Clause -> bool {
    (c: Clause) => Critical(a, lit, c) && Not(lit) in c.lits
  }

  /** The literal of v that is true in a. */
  function Current(a: Assignment, v: nat): Literal
    requires v < |a|
  {
    if AssignedTrue(a[v]) then PosLit(v) else NegLit(v)
  }

  /** What cost_flip_unfixed_variable computes. */
  ghost function DCost(s: Search, v: nat): int
    requires v < |s.a| && 3 + 2 * |s.a| <= |s.lists|
  {
    var lit := Current(s.a, v);
    Count(s.lists[Watched(lit)], CriticalIn(s.a, lit)) - Count(s.lists[UNSAT], Having(Not(lit)))
  }

  // ----- what a flip does to one clause -----

  /** Only clauses watched by the current literal or on the unsat list can change. */
  lemma SettledElsewhere(p: Problem, s: Search, v: nat, c: Clause)
    requires Inv(p, s, multiset{}) && v < p.n && UnfixedTval(s.a[v]) && c in p.clauses
    requires c in s.lists[SAT] || c in s.rejected
          || exists l: Literal :: InRange(l, p.n) && l != Current(s.a, v) && c in s.lists[Watched(l)]
    ensures FalsifiedIn(s.a)(c) == FalsifiedIn(FlippedTo(s.a, v))(c)
  {
  }

  lemma WatchedByCurrent(p: Problem, s: Search, v: nat, c: Clause)
    requires Inv(p, s, multiset{}) && v < p.n && UnfixedTval(s.a[v])
    requires ClauseInRange(c, p.n) && c in s.lists[Watched(Current(s.a, v))]
    ensures var lit := Current(s.a, v);
      && !FalsifiedIn(s.a)(c)
      && (CriticalIn(s.a, lit)(c) <==> FalsifiedIn(FlippedTo(s.a, v))(c) || CriticalBothIn(s.a, lit)(c))
      && !(FalsifiedIn(FlippedTo(s.a, v))(c) && CriticalBothIn(s.a, lit)(c))
  {
    var lit, a' := Current(s.a, v), FlippedTo(s.a, v);
    assert AllWatched(s.a, lit, s.lists[Watched(lit)]);
    var k :| 0 <= k < |c.lits| && c.lits[k] == lit;
    forall i | 0 <= i < |c.lits|
      ensures FalseLit(a', c.lits[i]) <==> c.lits[i] == lit || (FalseLit(s.a, c.lits[i]) && c.lits[i] != Not(lit))
    {
      if VarOf(c.lits[i]) != v {
        OtherLit(s.a, v, a'[v], c.lits[i]);
      }
    }
  }

  lemma OnUnsatList(p: Problem, s: Search, v: nat, c: Clause)
    requires Inv(p, s, multiset{}) && v < p.n && UnfixedTval(s.a[v])
    requires ClauseInRange(c, p.n) && c in s.lists[UNSAT]
    ensures var lit := Current(s.a, v);
      && lit !in c.lits
      && FalsifiedIn(s.a)(c)
      && (FalsifiedIn(FlippedTo(s.a, v))(c) <==> !Having(Not(lit))(c))
  {
    var lit, a' := Current(s.a, v), FlippedTo(s.a, v);
    assert Falsified(s.a, c);
    forall i | 0 <= i < |c.lits| ensures FalseLit(a', c.lits[i]) <==> c.lits[i] != Not(lit) {
      assert FalseLit(s.a, c.lits[i]);
      if VarOf(c.lits[i]) != v {
        OtherLit(s.a, v, a'[v], c.lits[i]);
      }
    }
  }

  // ----- adding up over the lists -----

  ghost function Flatten(lists: seq<seq<Clause>>, k: nat): seq<Clause>
    requires k <= |lists|
  {
    if k == 0 then [] else Flatten(lists, k - 1) + lists[k - 1]
  }

  lemma {:induction false} FlattenMembers(lists: seq<seq<Clause>>, k: nat)
    requires k <= |lists|
    ensures multiset(Flatten(lists, k)) == Members(lists, k)
  {
    if k > 0 {
      FlattenMembers(lists, k - 1);
    }
  }

  /** The change on one list. */
  ghost function Change(s: Search, v: nat, xs: seq<Clause>): int
    requires v < |s.a|
  {
    Count(xs, FalsifiedIn(FlippedTo(s.a, v))) - Count(xs, FalsifiedIn(s.a))
  }

  lemma ChangeElsewhere(p: Problem, s: Search, v: nat, i: nat)
    requires Inv(p, s, multiset{}) && s.lists[LIVE] == [] && v < p.n && UnfixedTval(s.a[v])
    requires i < |s.lists| && i != UNSAT && i != Watched(Current(s.a, v))
    ensures Change(s, v, s.lists[i]) == 0
  {
    var xs := s.lists[i];
    if i >= 3 + 2 * p.n {
      assert s.lists[RuleWatched(p.n, i - 3 - 2 * p.n)] == [];
    } else {
      forall c | c in xs ensures FalsifiedIn(s.a)(c) == FalsifiedIn(FlippedTo(s.a, v))(c) {
        MemberOfSome(s.lists, |s.lists|, c);
        assert c in All(s.lists);
        assert c in multiset(p.clauses);
        assert i >= 3 ==> InRange(i - 3, p.n) && Watched(i - 3) == i;
        SettledElsewhere(p, s, v, c);
      }
      CountSame(xs, FalsifiedIn(s.a), FalsifiedIn(FlippedTo(s.a, v)));
    }
  }

  lemma ChangeRejected(p: Problem, s: Search, v: nat)
    requires Inv(p, s, multiset{}) && v < p.n && UnfixedTval(s.a[v])
    ensures Change(s, v, s.rejected) == 0
  {
    forall c | c in s.rejected ensures FalsifiedIn(s.a)(c) == FalsifiedIn(FlippedTo(s.a, v))(c) {
      assert c in multiset(s.rejected);
      assert c in multiset(p.clauses);
      SettledElsewhere(p, s, v, c);
    }
    CountSame(s.rejected, FalsifiedIn(s.a), FalsifiedIn(FlippedTo(s.a, v)));
  }

  lemma ListedIsGiven(p: Problem, s: Search, i: nat, c: Clause)
    requires Inv(p, s, multiset{}) && i < |s.lists| && c in s.lists[i]
    ensures c in p.clauses
  {
    MemberOfSome(s.lists, |s.lists|, c);
    assert c in All(s.lists);
    assert c in multiset(p.clauses);
  }

  lemma ChangeWatched(p: Problem, s: Search, v: nat)
    requires Inv(p, s, multiset{}) && v < p.n && UnfixedTval(s.a[v])
    ensures var lit := Current(s.a, v); var xs := s.lists[Watched(lit)];
      Change(s, v, xs) == Count(xs, CriticalIn(s.a, lit)) - Count(xs, CriticalBothIn(s.a, lit))
  {
    var lit := Current(s.a, v);
    var xs := s.lists[Watched(lit)];
    forall c | c in xs ensures c in p.clauses {
      ListedIsGiven(p, s, Watched(lit), c);
    }
    forall c | c in xs
      ensures !FalsifiedIn(s.a)(c)
      ensures CriticalIn(s.a, lit)(c) <==> FalsifiedIn(FlippedTo(s.a, v))(c) || CriticalBothIn(s.a, lit)(c)
      ensures !(FalsifiedIn(FlippedTo(s.a, v))(c) && CriticalBothIn(s.a, lit)(c))
    {
      WatchedByCurrent(p, s, v, c);
    }
    CountZero(xs, FalsifiedIn(s.a));
    CountSplit(xs, CriticalIn(s.a, lit), FalsifiedIn(FlippedTo(s.a, v)), CriticalBothIn(s.a, lit));
  }

  lemma ChangeUnsat(p: Problem, s: Search, v: nat)
    requires Inv(p, s, multiset{}) && v < p.n && UnfixedTval(s.a[v])
    ensures Change(s, v, s.lists[UNSAT]) == 0 - Count(s.lists[UNSAT], Having(Not(Current(s.a, v))))
  {
    var xs, lit := s.lists[UNSAT], Current(s.a, v);
    forall c | c in xs
      ensures FalsifiedIn(s.a)(c) && (FalsifiedIn(FlippedTo(s.a, v))(c) <==> !Having(Not(lit))(c))
    {
      ListedIsGiven(p, s, UNSAT, c);
      OnUnsatList(p, s, v, c);
    }
    CountSplit(xs, FalsifiedIn(s.a), FalsifiedIn(FlippedTo(s.a, v)), Having(Not(lit)));
  }

  lemma EmptyChange(s: Search, v: nat)
    requires v < |s.a|
    ensures Change(s, v, []) == 0
  {
  }

  lemma ChangeAppend(s: Search, v: nat, xs: seq<Clause>, ys: seq<Clause>)
    requires v < |s.a|
    ensures Change(s, v, xs + ys) == Change(s, v, xs) + Change(s, v, ys)
  {
    CountAppend(xs, ys, FalsifiedIn(s.a));
    CountAppend(xs, ys, FalsifiedIn(FlippedTo(s.a, v)));
  }

  /** Only two lists contribute to the change of the first k. */
  lemma {:induction false} ChangeOfAll(s: Search, v: nat, w: nat, k: nat)
    requires v < |s.a| && k <= |s.lists| && w < |s.lists| && UNSAT < |s.lists| && w != UNSAT
    requires forall i :: 0 <= i < |s.lists| && i != UNSAT && i != w ==> Change(s, v, s.lists[i]) == 0
    ensures Change(s, v, Flatten(s.lists, k))
         == (if w < k then Change(s, v, s.lists[w]) else 0) + (if UNSAT < k then Change(s, v, s.lists[UNSAT]) else 0)
  {
    hide Change;
    if k == 0 {
      EmptyChange(s, v);
    } else {
      ChangeOfAll(s, v, w, k - 1);
      ChangeAppend(s, v, Flatten(s.lists, k - 1), s.lists[k - 1]);
    }
  }

  /** The estimate is the true change plus the clauses of the watched list that hold both literals of v
      and have no other true one. */
  lemma FlipCostExact(p: Problem, s: Search, v: nat)
    requires Inv(p, s, multiset{}) && s.lists[LIVE] == [] && v < p.n && UnfixedTval(s.a[v])
    ensures var lit := Current(s.a, v);
      DCost(s, v) == Change(s, v, p.clauses) + Count(s.lists[Watched(lit)], CriticalBothIn(s.a, lit))
  {
    var n := |s.lists|;
    FlattenMembers(s.lists, n);
    var listed := Flatten(s.lists, n);
    hide Falsified, FixedFalsified, Satisfied;
    assert multiset(listed + s.rejected) == multiset(p.clauses);
    CountPermutation(listed + s.rejected, p.clauses, FalsifiedIn(s.a));
    CountPermutation(listed + s.rejected, p.clauses, FalsifiedIn(FlippedTo(s.a, v)));
    ChangeAppend(s, v, listed, s.rejected);
    forall i | 0 <= i < n && i != UNSAT && i != Watched(Current(s.a, v)) ensures Change(s, v, s.lists[i]) == 0 {
      ChangeElsewhere(p, s, v, i);
    }
    ChangeOfAll(s, v, Watched(Current(s.a, v)), n);
    ChangeRejected(p, s, v);
    ChangeWatched(p, s, v);
    ChangeUnsat(p, s, v);
  }

  /** The estimate is never below the true change. It is exact iff no clause of the watched list depends on both
      literals of v, in particular when no clause holds both. */
  lemma FlipCostBound(p: Problem, s: Search, v: nat)
    requires Inv(p, s, multiset{}) && s.lists[LIVE] == [] && v < p.n && UnfixedTval(s.a[v])
    ensures DCost(s, v) >= Change(s, v, p.clauses)
    ensures DCost(s, v) == Change(s, v, p.clauses)
       <==> var lit := Current(s.a, v); forall c :: c in s.lists[Watched(lit)] ==> !CriticalBothIn(s.a, lit)(c)
    ensures (forall c :: c in p.clauses ==> !(PosLit(v) in c.lits && NegLit(v) in c.lits))
        ==> DCost(s, v) == Change(s, v, p.clauses)
  {
    hide Change, DCost;
    FlipCostExact(p, s, v);
    var lit := Current(s.a, v);
    var xs := s.lists[Watched(lit)];
    CountZero(xs, CriticalBothIn(s.a, lit));
    assert AllWatched(s.a, lit, xs);
    forall c | c in xs ensures c in p.clauses && lit in c.lits {
      ListedIsGiven(p, s, Watched(lit), c);
    }
  }

  lemma TautologyStep(s: Search, c: Clause)
    requires s == Search([True], [[c], [], [], [], [], []], []) && c.lits == [PosLit(0), NegLit(0)]
    requires ClauseInRange(c, 1)
    ensures ScanStep(s) == Search([True], [[], [], [], [c], [], []], [])
  {
    assert c.lits[0] == 0 && c.lits[1] == 1;
    assert !FixedFalseLit(s.a, c.lits[0]) && !FixedFalseLit(s.a, c.lits[1]);
    assert TrueLit(s.a, c.lits[0]);
    assert Classify(s.a, c).Open? && FirstTrue(s.a, c.lits, 0) == 0;
    var nothing: seq<Clause> := [];
    assert [c][1..] == nothing && [c] + nothing == [c];
    assert PopLive(s).lists == [nothing, [], [], [], [], []];
  }

  /** A run on one clause that holds an atom and its negation puts it on the watched list of the true literal. */
  lemma WatchesTautology(p: Problem, c: Clause)
    requires p == Problem(1, 1, [c], [True]) && c.lits == [PosLit(0), NegLit(0)]
    ensures Inv(p, Initial(p), multiset{})
    ensures Scan(p, Initial(p)) == Search([True], [[], [], [], [c], [], []], [])
  {
    assert c.lits[0] == 0 && c.lits[1] == 1;
    InitialInv(p);
    var s := Initial(p);
    hide Inv;
    assert s.lists == [[c], [], [], [], [], []];
    ScanStepKeeps(p, s);
    TautologyStep(s, c);
    assert Scan(p, s) == Scan(p, ScanStep(s));
  }

  lemma CountOne(c: Clause, f: Clause -> bool)
    ensures Count([c], f) == if f(c) then 1 else 0
  {
    var nothing: seq<Clause> := [];
    assert [c][..0] == nothing;
  }

  /** A state for which the cost is too high: flipping the atom falsifies nothing, but the cost is 1. */
  lemma TautologyIsOvercounted(s: Search, c: Clause)
    requires s == Search([True], [[], [], [], [c], [], []], []) && c.lits == [PosLit(0), NegLit(0)]
    ensures DCost(s, 0) == 1 && Change(s, 0, [c]) == 0
  {
    var lit := PosLit(0);
    assert c.lits[0] == lit && c.lits[1] == Not(lit);
    assert CriticalIn(s.a, lit)(c);
    assert TrueLit(s.a, c.lits[0]) && TrueLit(FlippedTo(s.a, 0), c.lits[1]);
    assert !FalsifiedIn(s.a)(c) && !FalsifiedIn(FlippedTo(s.a, 0))(c);
    CountOne(c, CriticalIn(s.a, lit));
    CountOne(c, FalsifiedIn(s.a));
    CountOne(c, FalsifiedIn(FlippedTo(s.a, 0)));
  }
}
