/** The state of one SampleSAT run as a value, the steps that change it, and the invariant of the
    run (src/walksat.c:29-205, src/walksat.c:249-307, src/walksat.c:376-383). The methods of module
    WalkSat are proved to make exactly these steps on the heap. */
module SearchModel {
  import opened TruthValues
  import opened ClauseLists

  // Positions of the lists of the rule instance table in the pool.
  const LIVE: nat := 0
  const SAT: nat := 1
  const UNSAT: nat := 2

  function Watched(l: Literal): nat { 3 + l }

  function RuleWatched(n: nat, rule: nat): nat { 3 + 2 * n + rule }

  /** a is the current assignment, lists the clause lists, and rejected the clauses for which the
      source reports a fixed unsat clause and which it puts back into no list. */
  datatype Search = Search(a: Assignment, lists: seq<seq<Clause>>, rejected: seq<Clause>)

  /** One run works on n atoms and on these clauses; evidence is the assignment the run starts from. */
  datatype Problem = Problem(n: nat, numRules: nat, clauses: seq<Clause>, evidence: Assignment)

  // ----- clauses under an assignment -----

  ghost predicate ClauseInRange(c: Clause, n: nat) {
    forall i :: 0 <= i < |c.lits| ==> InRange(c.lits[i], n)
  }

  ghost predicate Satisfied(a: Assignment, c: Clause)
    requires ClauseInRange(c, |a|)
  {
    exists i :: 0 <= i < |c.lits| && TrueLit(a, c.lits[i])
  }

  ghost predicate FixedSatisfied(a: Assignment, c: Clause)
    requires ClauseInRange(c, |a|)
  {
    exists i :: 0 <= i < |c.lits| && FixedTrueLit(a, c.lits[i])
  }

  ghost predicate Falsified(a: Assignment, c: Clause)
    requires ClauseInRange(c, |a|)
  {
    forall i :: 0 <= i < |c.lits| ==> FalseLit(a, c.lits[i])
  }

  ghost predicate FixedFalsified(a: Assignment, c: Clause)
    requires ClauseInRange(c, |a|)
  {
    forall i :: 0 <= i < |c.lits| ==> FixedFalseLit(a, c.lits[i])
  }

  // ----- classification of a clause -----

  datatype Class =
    | FixedUnsat
    | Fixable(lit: nat)  // position of a fixed true literal or of the only literal not fixed false
    | Open               // at least two literals are not fixed, none is fixed true

  /** The position of the first fixed true literal from i on, or |lits|. */
  function FirstFixedTrue(a: Assignment, lits: seq<Literal>, i: nat): (r: nat)
    requires i <= |lits| && forall k :: 0 <= k < |lits| ==> InRange(lits[k], |a|)
    ensures i <= r <= |lits|
    ensures r < |lits| ==> FixedTrueLit(a, lits[r])
    ensures forall k :: i <= k < r ==> !FixedTrueLit(a, lits[k])
    decreases |lits| - i
  {
    if i == |lits| || FixedTrueLit(a, lits[i]) then i else FirstFixedTrue(a, lits, i + 1)
  }

  /** The position of the first literal from i on that is not fixed false, or |lits|. */
  function FirstNotFixedFalse(a: Assignment, lits: seq<Literal>, i: nat): (r: nat)
    requires i <= |lits| && forall k :: 0 <= k < |lits| ==> InRange(lits[k], |a|)
    ensures i <= r <= |lits|
    ensures r < |lits| ==> !FixedFalseLit(a, lits[r])
    ensures forall k :: i <= k < r ==> FixedFalseLit(a, lits[k])
    decreases |lits| - i
  {
    if i == |lits| || !FixedFalseLit(a, lits[i]) then i else FirstNotFixedFalse(a, lits, i + 1)
  }

  /** The position of the first true literal from i on, or |lits|. */
  function FirstTrue(a: Assignment, lits: seq<Literal>, i: nat): (r: nat)
    requires i <= |lits| && forall k :: 0 <= k < |lits| ==> InRange(lits[k], |a|)
    ensures i <= r <= |lits|
    ensures r < |lits| ==> TrueLit(a, lits[r])
    ensures forall k :: i <= k < r ==> !TrueLit(a, lits[k])
    decreases |lits| - i
  {
    if i == |lits| || TrueLit(a, lits[i]) then i else FirstTrue(a, lits, i + 1)
  }

  /** Every literal but the i-th is fixed false. */
  ghost predicate OnlyOpen(a: Assignment, c: Clause, i: nat)
    requires ClauseInRange(c, |a|) && i < |c.lits|
  {
    !FixedFalseLit(a, c.lits[i]) && forall k :: 0 <= k < |c.lits| && k != i ==> FixedFalseLit(a, c.lits[k])
  }

  ghost predicate TwoOpen(a: Assignment, c: Clause)
    requires ClauseInRange(c, |a|)
  {
    exists i, j :: 0 <= i < j < |c.lits| && !FixedFalseLit(a, c.lits[i]) && !FixedFalseLit(a, c.lits[j])
  }

  /** What get_fixable_literal finds when the rule of the clause is fixed true. */
  function Classify(a: Assignment, c: Clause): (r: Class)
    requires ClauseInRange(c, |a|)
    ensures r.FixedUnsat? <==> FixedFalsified(a, c)
    ensures r.Fixable? ==> r.lit < |c.lits| && (FixedTrueLit(a, c.lits[r.lit]) || OnlyOpen(a, c, r.lit))
    ensures FixedSatisfied(a, c) ==> r.Fixable? && FixedTrueLit(a, c.lits[r.lit])
    ensures r.Open? <==> !FixedSatisfied(a, c) && TwoOpen(a, c)
  {
    var t := FirstFixedTrue(a, c.lits, 0);
    if t < |c.lits| then Fixable(t)
    else
      var i := FirstNotFixedFalse(a, c.lits, 0);
      if i == |c.lits| then FixedUnsat
      else
        var j := FirstNotFixedFalse(a, c.lits, i + 1);
        if j < |c.lits| then Open else Fixable(i)
  }

  // ----- steps -----

  ghost predicate Shape(p: Problem, s: Search) {
    && |s.a| == p.n
    && |s.lists| == 3 + 2 * p.n + p.numRules
    && NoUndef(s.a)
  }

  /** clause_list_concat on the lists of a state. */
  function Concat(lists: seq<seq<Clause>>, src: nat, dst: nat): seq<seq<Clause>>
    requires src < |lists| && dst < |lists|
  {
    lists[dst := lists[dst] + lists[src]][src := []]
  }

  /** link_propagate: lit has just become false. */
  function LinkPropagate(s: Search, lit: Literal): Search
    requires Watched(lit) < |s.lists|
  {
    s.(lists := Concat(Concat(s.lists, Watched(lit), LIVE), UNSAT, LIVE))
  }

  /** update_atom_tval: a fixed atom is left alone. */
  function UpdateAtom(s: Search, v: nat, tval: TruthValue): Search
    requires v < |s.a| && 3 + 2 * |s.a| <= |s.lists|
  {
    var was := s.a[v];
    if !UnfixedTval(was) then s
    else
      var s' := s.(a := s.a[v := tval]);
      if was == UnfixTval(tval) then s'
      else LinkPropagate(s', if AssignedTrue(tval) then NegLit(v) else PosLit(v))
  }

  function FixTrue(s: Search, lit: Literal): Search
    requires InRange(lit, |s.a|) && 3 + 2 * |s.a| <= |s.lists|
  {
    UpdateAtom(s, VarOf(lit), if IsPos(lit) then UpTrue else UpFalse)
  }

  function Push(s: Search, i: nat, c: Clause): Search
    requires i < |s.lists|
  {
    s.(lists := s.lists[i := [c] + s.lists[i]])
  }

  function PopLive(s: Search): Search
    requires LIVE < |s.lists| && s.lists[LIVE] != []
  {
    s.(lists := s.lists[LIVE := s.lists[LIVE][1..]])
  }

  /** insert_live_clause for a clause that was just taken off the live list. */
  function InsertLive(s: Search, c: Clause): (r: Search)
    requires ClauseInRange(c, |s.a|) && 3 + 2 * |s.a| <= |s.lists|
    ensures |r.a| == |s.a| && |r.lists| == |s.lists|
  {
    match Classify(s.a, c)
    case FixedUnsat => s.(rejected := s.rejected + [c])
    case Open =>
      var i := FirstTrue(s.a, c.lits, 0);
      if i < |c.lits| then Push(s, Watched(c.lits[i]), c) else Push(s, UNSAT, c)
    case Fixable(i) =>
      Push(if UnfixedTval(s.a[VarOf(c.lits[i])]) then FixTrue(s, c.lits[i]) else s, SAT, c)
  }

  // ----- where the clauses are -----

  /** All members of the first k lists. */
  ghost function Members(lists: seq<seq<Clause>>, k: nat): multiset<Clause>
    requires k <= |lists|
  {
    if k == 0 then multiset{} else Members(lists, k - 1) + multiset(lists[k - 1])
  }

  ghost function All(lists: seq<seq<Clause>>): multiset<Clause> {
    Members(lists, |lists|)
  }

  /** Lists outside the prefix do not matter. */
  lemma {:induction false} MembersSame(lists: seq<seq<Clause>>, i: nat, xs: seq<Clause>, k: nat)
    requires k <= i < |lists|
    ensures Members(lists[i := xs], k) == Members(lists, k)
  {
    if k > 0 {
      MembersSame(lists, i, xs, k - 1);
    }
  }

  lemma AddToBoth(a: multiset<Clause>, x: multiset<Clause>, b: multiset<Clause>, y: multiset<Clause>,
                  more: multiset<Clause>)
    requires a + x == b + y
    ensures (a + more) + x == (b + more) + y
  {
    assert (a + more) + x == (a + x) + more;
    assert (b + more) + y == (b + y) + more;
  }

  lemma {:induction false} MembersUpdate(lists: seq<seq<Clause>>, i: nat, xs: seq<Clause>, k: nat)
    requires i < k <= |lists|
    ensures Members(lists[i := xs], k) + multiset(lists[i]) == Members(lists, k) + multiset(xs)
  {
    if k - 1 == i {
      MembersSame(lists, i, xs, i);
    } else {
      MembersUpdate(lists, i, xs, k - 1);
      AddToBoth(Members(lists[i := xs], k - 1), multiset(lists[i]), Members(lists, k - 1), multiset(xs),
                multiset(lists[k - 1]));
    }
  }

  /** Replacing one list changes the collection by exactly that list. */
  lemma AllUpdate(lists: seq<seq<Clause>>, i: nat, xs: seq<Clause>)
    requires i < |lists|
    ensures All(lists[i := xs]) + multiset(lists[i]) == All(lists) + multiset(xs)
  {
    MembersUpdate(lists, i, xs, |lists|);
  }

  lemma {:induction false} MemberOfSome(lists: seq<seq<Clause>>, k: nat, c: Clause)
    requires k <= |lists|
    ensures c in Members(lists, k) <==> exists i :: 0 <= i < k && c in lists[i]
  {
    if k > 0 {
      MemberOfSome(lists, k - 1, c);
    }
  }

  lemma Cancel(a: multiset<Clause>, b: multiset<Clause>, c: multiset<Clause>)
    requires a + c == b + c
    ensures a == b
  {
    assert a == (a + c) - c;
    assert b == (b + c) - c;
  }

  /** Concatenation loses and invents nothing. */
  lemma AllConcat(lists: seq<seq<Clause>>, src: nat, dst: nat)
    requires src < |lists| && dst < |lists| && src != dst
    ensures All(Concat(lists, src, dst)) == All(lists)
  {
    var mid := lists[dst := lists[dst] + lists[src]];
    AllUpdate(lists, dst, lists[dst] + lists[src]);
    AllUpdate(mid, src, []);
    assert mid[src] == lists[src];
    assert multiset(lists[dst] + lists[src]) == multiset(lists[dst]) + multiset(lists[src]);
    assert All(mid) + multiset(lists[dst]) == (All(lists) + multiset(lists[src])) + multiset(lists[dst]);
    Cancel(All(mid), All(lists) + multiset(lists[src]), multiset(lists[dst]));
    var empty: seq<Clause> := [];
    assert All(mid[src := empty]) + multiset(lists[src]) == All(mid) + multiset(empty) == All(mid);
    Cancel(All(mid[src := empty]), All(lists), multiset(lists[src]));
  }

  // ----- the invariant -----

  ghost predicate AllWatched(a: Assignment, l: Literal, xs: seq<Clause>)
    requires InRange(l, |a|)
  {
    forall c :: c in xs ==> l in c.lits && TrueLit(a, l)
  }

  ghost predicate AllFixedSatisfied(a: Assignment, xs: seq<Clause>) {
    forall c :: c in xs ==> ClauseInRange(c, |a|) && FixedSatisfied(a, c)
  }

  ghost predicate AllFalsified(a: Assignment, xs: seq<Clause>) {
    forall c :: c in xs ==> ClauseInRange(c, |a|) && Falsified(a, c)
  }

  ghost predicate AllFixedFalsified(a: Assignment, xs: seq<Clause>) {
    forall c :: c in xs ==> ClauseInRange(c, |a|) && FixedFalsified(a, c)
  }

  /** The meaning of the lists: the property that valid_rule_inst_table checks, with its sat list
      part in force. */
  ghost predicate ListsOk(p: Problem, s: Search)
    requires Shape(p, s)
  {
    && (forall l: Literal :: InRange(l, p.n) ==> AllWatched(s.a, l, s.lists[Watched(l)]))
    && AllFixedSatisfied(s.a, s.lists[SAT])
    && AllFalsified(s.a, s.lists[UNSAT])
    && AllFixedFalsified(s.a, s.rejected)
    && forall r :: 0 <= r < p.numRules ==> s.lists[RuleWatched(p.n, r)] == []
  }

  /** Values fixed before the run stay; the run itself fixes atoms only by unit propagation. */
  ghost predicate KeepsEvidence(p: Problem, s: Search)
    requires Shape(p, s)
  {
    && |p.evidence| == p.n
    && forall v :: 0 <= v < p.n ==>
         if FixedTval(p.evidence[v]) then s.a[v] == p.evidence[v] else !DbTval(s.a[v])
  }

  type Interpretation = seq<bool>

  ghost predicate Holds(m: Interpretation, l: Literal)
    requires InRange(l, |m|)
  {
    m[VarOf(l)] == IsPos(l)
  }

  ghost predicate HoldsClause(m: Interpretation, c: Clause)
    requires ClauseInRange(c, |m|)
  {
    exists i :: 0 <= i < |c.lits| && Holds(m, c.lits[i])
  }

  /** m has every value that is fixed in a. */
  ghost predicate Agrees(m: Interpretation, a: Assignment) {
    && |m| == |a|
    && forall v :: 0 <= v < |a| && FixedTval(a[v]) ==> m[v] == AssignedTrue(a[v])
  }

  ghost predicate WellFormed(p: Problem) {
    && |p.evidence| == p.n
    && NoUndef(p.evidence)
    && forall c :: c in p.clauses ==> ClauseInRange(c, p.n)
  }

  /** m satisfies the clauses of the run and agrees with the evidence. */
  ghost predicate IsModel(p: Problem, m: Interpretation)
    requires WellFormed(p)
  {
    && Agrees(m, p.evidence)
    && forall c :: c in p.clauses ==> HoldsClause(m, c)
  }

  /** Every fixed value is forced: all models have it. */
  ghost predicate Sound(p: Problem, s: Search)
    requires WellFormed(p)
  {
    forall m: Interpretation :: IsModel(p, m) ==> Agrees(m, s.a)
  }

  /** The clauses of the run are in the lists, among the rejected ones, or in hand, each as often as inserted. */
  ghost predicate Conserved(p: Problem, s: Search, hand: multiset<Clause>) {
    All(s.lists) + multiset(s.rejected) + hand == multiset(p.clauses)
  }

  ghost predicate Inv(p: Problem, s: Search, hand: multiset<Clause>) {
    && WellFormed(p)
    && Shape(p, s)
    && ListsOk(p, s)
    && KeepsEvidence(p, s)
    && Sound(p, s)
    && Conserved(p, s, hand)
  }
}
