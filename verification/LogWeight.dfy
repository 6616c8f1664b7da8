/** The compiler from weighted quantified formulas to weighted ground rule instances preserves log-weight up to a
    constant (src/cnf.c:643-668, src/cnf.c:745-817, src/ground.c:334-360, src/ground.c:583-592, src/mcmc.c:137-159). */
module LogWeight {
  import opened Basics
  import opened Cnf
  import opened Grounding
  import opened Enumeration

  /** A rule instance with finite weight and the atoms of its literals spelled out. */
  datatype Instance = Instance(weight: real, clauses: seq<GroundClause>)

  /** The total weight of the satisfied instances: sat_clause_weight. */
  ghost function SatWeight(instances: seq<Instance>, w: World): real {
    if instances == [] then 0.0
    else
      var last := instances[|instances| - 1];
      SatWeight(instances[..|instances| - 1], w) + if AllTrue(w, last.clauses) then last.weight else 0.0
  }

  /** substit_rule on one substitution: an instance unless every clause is dropped. */
  function InstanceOf(evidence: Evidence, weight: real, cnf: ClauseForm, s: Substitution): seq<Instance> {
    var kept := Kept(evidence, cnf, s);
    if kept == [] then [] else [Instance(weight, kept)]
  }

  /** The instances of a rule, one substitution after the other. */
  function Instances(evidence: Evidence, weight: real, cnf: ClauseForm, subs: seq<Substitution>): seq<Instance> {
    if subs == [] then []
    else
      var k := |subs| - 1;
      Instances(evidence, weight, cnf, subs[..k]) + InstanceOf(evidence, weight, cnf, subs[k])
  }

  /** The sign handling at the top of add_cnf: weights below 1e-8 in absolute value add nothing, a negative weight
      is negated together with the formula. NULL from the clausifier adds nothing either. */
  function Compile(f: Formula, weight: real): Option<(real, ClauseForm)> {
    if -0.00000001 < weight < 0.00000001 then None
    else if weight < 0.0 then
      var cnf := CnfNeg(f);
      if cnf.None? then None else Some((-weight, cnf.value))
    else
      var cnf := CnfPos(f);
      if cnf.None? then None else Some((weight, cnf.value))
  }

  /** The weighted count of true groundings that the formula itself defines. */
  ghost function FormulaWeight(f: Formula, weight: real, subs: seq<Substitution>, w: World): real
    requires Resolved(f)
  {
    if subs == [] then 0.0
    else
      var k := |subs| - 1;
      FormulaWeight(f, weight, subs[..k], w) + if Eval(f, Val(w, subs[k])) then weight else 0.0
  }

  /** What one grounding adds to the constant, whatever the world: the weight itself when it is negative, and its
      absolute value when every clause of the grounding is true under the evidence alone. */
  ghost function Offset(evidence: Evidence, weight: real, cnf: ClauseForm, s: Substitution): real {
    (if weight < 0.0 then weight else 0.0)
    + if Kept(evidence, cnf, s) != [] || HasEmpty(evidence, cnf, s) then 0.0
      else if weight < 0.0 then -weight else weight
  }

  ghost function TotalOffset(evidence: Evidence, weight: real, cnf: ClauseForm, subs: seq<Substitution>): real {
    if subs == [] then 0.0
    else
      var k := |subs| - 1;
      TotalOffset(evidence, weight, cnf, subs[..k]) + Offset(evidence, weight, cnf, subs[k])
  }

  /** Taken for satisfied although a clause of the grounding is false under the evidence. */
  ghost predicate Unnoticed(evidence: Evidence, cnf: ClauseForm, s: Substitution, w: World) {
    HasEmpty(evidence, cnf, s) && AllTrue(w, Kept(evidence, cnf, s))
  }

  /** An instance was built for such a grounding, and its weight is counted. */
  ghost predicate Miscounted(evidence: Evidence, cnf: ClauseForm, s: Substitution, w: World) {
    Kept(evidence, cnf, s) != [] && Unnoticed(evidence, cnf, s, w)
  }

  ghost function MiscountedWeight(evidence: Evidence, abs: real, cnf: ClauseForm, subs: seq<Substitution>,
                                  w: World): real
  {
    if subs == [] then 0.0
    else
      var k := |subs| - 1;
      MiscountedWeight(evidence, abs, cnf, subs[..k], w) + if Miscounted(evidence, cnf, subs[k], w) then abs else 0.0
  }

  ghost predicate NoEmpty(evidence: Evidence, cnf: ClauseForm, subs: seq<Substitution>) {
    forall i :: 0 <= i < |subs| ==> !HasEmpty(evidence, cnf, subs[i])
  }

  ghost predicate NoneMiscounted(evidence: Evidence, cnf: ClauseForm, subs: seq<Substitution>, w: World) {
    forall i :: 0 <= i < |subs| ==> !Miscounted(evidence, cnf, subs[i], w)
  }

  /** No world that agrees with the evidence satisfies what is left of the grounding. */
  ghost predicate Refuted(evidence: Evidence, cnf: ClauseForm, s: Substitution) {
    forall w: World :: Agrees(w, evidence) ==> !AllTrue(w, Kept(evidence, cnf, s))
  }

  /** Dropping a false clause does no harm where nothing is left, or where the rest cannot all be true anyway. */
  ghost predicate HarmlesslyDropped(evidence: Evidence, cnf: ClauseForm, subs: seq<Substitution>) {
    forall i :: 0 <= i < |subs| && HasEmpty(evidence, cnf, subs[i]) && Kept(evidence, cnf, subs[i]) != [] ==>
      Refuted(evidence, cnf, subs[i])
  }

  /** The same weight is miscounted in all worlds that agree with the evidence. */
  ghost predicate MiscountConstant(evidence: Evidence, abs: real, cnf: ClauseForm, subs: seq<Substitution>) {
    forall w: World, w': World :: Agrees(w, evidence) && Agrees(w', evidence) ==>
      MiscountedWeight(evidence, abs, cnf, subs, w) == MiscountedWeight(evidence, abs, cnf, subs, w')
  }

  /** The formula and the instances differ by c in all these worlds. */
  ghost predicate DiffersBy(evidence: Evidence, f: Formula, weight: real, subs: seq<Substitution>,
                            instances: seq<Instance>, c: real)
    requires Resolved(f)
  {
    forall w: World :: Agrees(w, evidence) ==> FormulaWeight(f, weight, subs, w) == SatWeight(instances, w) + c
  }

  ghost predicate Preserved(evidence: Evidence, f: Formula, weight: real, subs: seq<Substitution>,
                            instances: seq<Instance>)
    requires Resolved(f)
  {
    exists c :: DiffersBy(evidence, f, weight, subs, instances, c)
  }

  /** Every instance is satisfied, which is what hard rules ask for. */
  ghost predicate AllHold(instances: seq<Instance>, w: World) {
    forall i :: 0 <= i < |instances| ==> AllTrue(w, instances[i].clauses)
  }

  lemma {:induction false} SatWeightAppend(instances: seq<Instance>, more: seq<Instance>, w: World)
    ensures SatWeight(instances + more, w) == SatWeight(instances, w) + SatWeight(more, w)
  {
    if more == [] {
      assert instances + more == instances;
    } else {
      assert (instances + more)[..|instances + more| - 1] == instances + more[..|more| - 1];
      SatWeightAppend(instances, more[..|more| - 1], w);
    }
  }

  /** One grounding: its share of the formula weight is its share of the instance weight, plus the offset, minus
      the miscount. */
  lemma OneGrounding(evidence: Evidence, f: Formula, weight: real, abs: real, cnf: ClauseForm, s: Substitution,
                     w: World)
    requires Resolved(f) && Compile(f, weight) == Some((abs, cnf)) && Agrees(w, evidence)
    ensures (if Eval(f, Val(w, s)) then weight else 0.0)
         == SatWeight(InstanceOf(evidence, abs, cnf, s), w) + Offset(evidence, weight, cnf, s)
            - (if Miscounted(evidence, cnf, s, w) then abs else 0.0)
  {
    CnfCorrect(f, Val(w, s));
    KeptExact(evidence, cnf, s, w);
    assert Kept(evidence, cnf, s) == [] ==> AllTrue(w, Kept(evidence, cnf, s));
  }

  /** For every formula, weight, evidence and world: the two weights differ by a constant and by the weight of the
      miscounted groundings, and by nothing else. */
  lemma {:induction false} LogWeightExact(evidence: Evidence, f: Formula, weight: real, abs: real, cnf: ClauseForm,
                                          subs: seq<Substitution>, w: World)
    requires Resolved(f) && Compile(f, weight) == Some((abs, cnf)) && Agrees(w, evidence)
    ensures FormulaWeight(f, weight, subs, w)
         == SatWeight(Instances(evidence, abs, cnf, subs), w) + TotalOffset(evidence, weight, cnf, subs)
            - MiscountedWeight(evidence, abs, cnf, subs, w)
  {
    hide Compile, Offset, Miscounted, InstanceOf, Agrees;
    if subs != [] {
      var k := |subs| - 1;
      LogWeightExact(evidence, f, weight, abs, cnf, subs[..k], w);
      OneGrounding(evidence, f, weight, abs, cnf, subs[k], w);
      SatWeightAppend(Instances(evidence, abs, cnf, subs[..k]), InstanceOf(evidence, abs, cnf, subs[k]), w);
    }
  }

  lemma {:induction false} NothingMiscounted(evidence: Evidence, abs: real, cnf: ClauseForm,
                                             subs: seq<Substitution>, w: World)
    requires NoEmpty(evidence, cnf, subs)
    ensures MiscountedWeight(evidence, abs, cnf, subs, w) == 0.0
  {
    if subs != [] {
      NothingMiscounted(evidence, abs, cnf, subs[..|subs| - 1], w);
    }
  }

  /** When no ground clause simplifies to the empty clause, the difference is the same for every world. */
  lemma LogWeightPreserved(evidence: Evidence, f: Formula, weight: real, abs: real, cnf: ClauseForm,
                           subs: seq<Substitution>, w: World, w': World)
    requires Resolved(f) && Compile(f, weight) == Some((abs, cnf)) && Agrees(w, evidence) && Agrees(w', evidence)
    requires NoEmpty(evidence, cnf, subs)
    ensures FormulaWeight(f, weight, subs, w) - SatWeight(Instances(evidence, abs, cnf, subs), w)
         == FormulaWeight(f, weight, subs, w') - SatWeight(Instances(evidence, abs, cnf, subs), w')
  {
    hide Compile, Agrees, NoEmpty;
    LogWeightExact(evidence, f, weight, abs, cnf, subs, w);
    LogWeightExact(evidence, f, weight, abs, cnf, subs, w');
    NothingMiscounted(evidence, abs, cnf, subs, w);
    NothingMiscounted(evidence, abs, cnf, subs, w');
  }

  lemma {:induction false} MiscountedZero(evidence: Evidence, abs: real, cnf: ClauseForm,
                                          subs: seq<Substitution>, w: World)
    requires abs > 0.0
    ensures MiscountedWeight(evidence, abs, cnf, subs, w) >= 0.0
    ensures MiscountedWeight(evidence, abs, cnf, subs, w) == 0.0 <==> NoneMiscounted(evidence, cnf, subs, w)
  {
    hide Miscounted;
    if subs != [] {
      var k := |subs| - 1;
      MiscountedZero(evidence, abs, cnf, subs[..k], w);
      assert NoneMiscounted(evidence, cnf, subs, w)
        <==> NoneMiscounted(evidence, cnf, subs[..k], w) && !Miscounted(evidence, cnf, subs[k], w) by {
        assert forall i :: 0 <= i < k ==> subs[..k][i] == subs[i];
      }
    }
  }

  /** In a world that agrees with the evidence the weights differ by the constant alone iff no grounding is miscounted
      there. */
  lemma PreservedIff(evidence: Evidence, f: Formula, weight: real, abs: real, cnf: ClauseForm, subs: seq<Substitution>,
                     w: World)
    requires Resolved(f) && Compile(f, weight) == Some((abs, cnf)) && Agrees(w, evidence)
    ensures FormulaWeight(f, weight, subs, w)
         == SatWeight(Instances(evidence, abs, cnf, subs), w) + TotalOffset(evidence, weight, cnf, subs)
       <==> NoneMiscounted(evidence, cnf, subs, w)
  {
    LogWeightExact(evidence, f, weight, abs, cnf, subs, w);
    MiscountedZero(evidence, abs, cnf, subs, w);
  }

  /** The differences in two such worlds are equal iff the same weight is miscounted in both. */
  lemma SameDifferenceIff(evidence: Evidence, f: Formula, weight: real, abs: real, cnf: ClauseForm,
                          subs: seq<Substitution>, w: World, w': World)
    requires Resolved(f) && Compile(f, weight) == Some((abs, cnf)) && Agrees(w, evidence) && Agrees(w', evidence)
    ensures FormulaWeight(f, weight, subs, w) - SatWeight(Instances(evidence, abs, cnf, subs), w)
         == FormulaWeight(f, weight, subs, w') - SatWeight(Instances(evidence, abs, cnf, subs), w')
       <==> MiscountedWeight(evidence, abs, cnf, subs, w) == MiscountedWeight(evidence, abs, cnf, subs, w')
  {
    hide Compile, Agrees;
    LogWeightExact(evidence, f, weight, abs, cnf, subs, w);
    LogWeightExact(evidence, f, weight, abs, cnf, subs, w');
  }

  /** The world in which exactly the evidence holds. */
  ghost function WorldOf(evidence: Evidence): World {
    (g: GroundAtom) => g in evidence
  }

  lemma AgreesWithItself(evidence: Evidence)
    ensures Agrees(WorldOf(evidence), evidence)
  {
  }

  /** The weight of the formula is preserved up to some constant iff the miscounted weight does not depend on the
      world. */
  lemma PreservedUpToConstantIff(evidence: Evidence, f: Formula, weight: real, abs: real, cnf: ClauseForm,
                                 subs: seq<Substitution>)
    requires Resolved(f) && Compile(f, weight) == Some((abs, cnf))
    ensures Preserved(evidence, f, weight, subs, Instances(evidence, abs, cnf, subs))
       <==> MiscountConstant(evidence, abs, cnf, subs)
  {
    hide Compile, Agrees;
    var instances := Instances(evidence, abs, cnf, subs);
    if Preserved(evidence, f, weight, subs, instances) {
      var c :| DiffersBy(evidence, f, weight, subs, instances, c);
      forall w: World, w': World | Agrees(w, evidence) && Agrees(w', evidence)
        ensures MiscountedWeight(evidence, abs, cnf, subs, w) == MiscountedWeight(evidence, abs, cnf, subs, w')
      {
        SameDifferenceIff(evidence, f, weight, abs, cnf, subs, w, w');
      }
    }
    if MiscountConstant(evidence, abs, cnf, subs) {
      var w0 := WorldOf(evidence);
      AgreesWithItself(evidence);
      var c := FormulaWeight(f, weight, subs, w0) - SatWeight(instances, w0);
      forall w: World | Agrees(w, evidence)
        ensures FormulaWeight(f, weight, subs, w) == SatWeight(instances, w) + c
      {
        SameDifferenceIff(evidence, f, weight, abs, cnf, subs, w, w0);
      }
      assert DiffersBy(evidence, f, weight, subs, instances, c);
    }
  }

  lemma NeverMiscounted(evidence: Evidence, cnf: ClauseForm, subs: seq<Substitution>)
    ensures (forall w: World :: Agrees(w, evidence) ==> NoneMiscounted(evidence, cnf, subs, w))
       <==> HarmlesslyDropped(evidence, cnf, subs)
  {
    hide Agrees, AllTrue, HasEmpty, Kept;
    if HarmlesslyDropped(evidence, cnf, subs) {
      forall w: World | Agrees(w, evidence) ensures NoneMiscounted(evidence, cnf, subs, w) {
        assert forall i :: 0 <= i < |subs| && HasEmpty(evidence, cnf, subs[i]) && Kept(evidence, cnf, subs[i]) != [] ==>
          Refuted(evidence, cnf, subs[i]);
      }
    }
    if forall w: World :: Agrees(w, evidence) ==> NoneMiscounted(evidence, cnf, subs, w) {
      forall i, w: World | 0 <= i < |subs| && HasEmpty(evidence, cnf, subs[i]) && Kept(evidence, cnf, subs[i]) != []
                           && Agrees(w, evidence)
        ensures !AllTrue(w, Kept(evidence, cnf, subs[i]))
      {
        assert NoneMiscounted(evidence, cnf, subs, w) && !Miscounted(evidence, cnf, subs[i], w);
      }
    }
  }

  lemma HardGrounding(evidence: Evidence, f: Formula, weight: real, abs: real, cnf: ClauseForm, s: Substitution,
                      w: World)
    requires Resolved(f) && Compile(f, weight) == Some((abs, cnf)) && Agrees(w, evidence)
    ensures AllHold(InstanceOf(evidence, abs, cnf, s), w)
       <==> Eval(f, Val(w, s)) != (weight < 0.0) || Unnoticed(evidence, cnf, s, w)
  {
    CnfCorrect(f, Val(w, s));
    KeptExact(evidence, cnf, s, w);
    hide Kept, HasEmpty, Agrees;
    var kept := Kept(evidence, cnf, s);
    assert [Instance(abs, kept)][0].clauses == kept;
  }

  lemma AllHoldAppend(xs: seq<Instance>, ys: seq<Instance>, w: World)
    ensures AllHold(xs + ys, w) <==> AllHold(xs, w) && AllHold(ys, w)
  {
    assert forall i :: 0 <= i < |xs| ==> (xs + ys)[i] == xs[i];
    assert forall i :: 0 <= i < |ys| ==> (xs + ys)[|xs| + i] == ys[i];
  }

  /** Hard formulas: all instances hold iff the formula, or its negation for a negative weight, holds at every
      grounding, except where a grounding with a dropped false clause is taken for satisfied. */
  lemma {:induction false} HardExact(evidence: Evidence, f: Formula, weight: real, abs: real, cnf: ClauseForm,
                                     subs: seq<Substitution>, w: World)
    requires Resolved(f) && Compile(f, weight) == Some((abs, cnf)) && Agrees(w, evidence)
    ensures AllHold(Instances(evidence, abs, cnf, subs), w)
       <==> forall i :: 0 <= i < |subs| ==>
              Eval(f, Val(w, subs[i])) != (weight < 0.0) || Unnoticed(evidence, cnf, subs[i], w)
  {
    hide Compile, Agrees, Unnoticed, InstanceOf, AllTrue, Eval;
    if subs != [] {
      var k := |subs| - 1;
      var front := subs[..k];
      assert forall i :: 0 <= i < k ==> front[i] == subs[i];
      HardExact(evidence, f, weight, abs, cnf, front, w);
      HardGrounding(evidence, f, weight, abs, cnf, subs[k], w);
      AllHoldAppend(Instances(evidence, abs, cnf, front), InstanceOf(evidence, abs, cnf, subs[k]), w);
    }
  }

  /** add_cnf adds nothing exactly for negligible weights and for formulas with an unresolved atom. */
  lemma CompileNothing(f: Formula, weight: real)
    ensures Compile(f, weight).None? <==> -0.00000001 < weight < 0.00000001 || !Resolved(f)
  {
    CnfExists(f);
  }

  // The hypothesis of LogWeightPreserved is needed: q(x) and p(x) for all x of a sort with one element, where q is
  // observable and asserted of nothing.

  const OBSERVED := RuleAtom(-1, NoBuiltin, [Variable(0)])
  const HIDDEN := RuleAtom(1, NoBuiltin, [Variable(0)])
  const BOTH := And(Leaf(Some(OBSERVED)), Leaf(Some(HIDDEN)))
  const BOTH_CNF: ClauseForm := [[RuleLit(false, OBSERVED)], [RuleLit(false, HIDDEN)]]
  const GROUNDINGS: seq<Substitution> := Completions([Subrange(0, 1)], [UNSET], 0)
  const LEFT_OVER := [GroundLit(false, GroundAtom(1, [0]))]

  lemma OneGroundingOnly()
    ensures GROUNDINGS == [[0]]
  {
    var sorts := [Subrange(0, 1)];
    var none: seq<seq<int>> := [];
    assert [UNSET][0 := 0] == [0];
    assert Completions(sorts, [0], 1) == [[0]];
    assert Branches(sorts, [UNSET], 0, 0) == none;
    assert Branches(sorts, [UNSET], 0, 1) == none + [[0]] == [[0]];
  }

  /** The clause of q is empty and dropped, and the one of p is left. */
  lemma BothGrounded(s: Substitution)
    requires s == [0]
    ensures CnfPos(BOTH) == Some(BOTH_CNF)
    ensures HasEmpty({}, BOTH_CNF, s) && Kept({}, BOTH_CNF, s) == [LEFT_OVER]
  {
    var cp, cq := BOTH_CNF[0], BOTH_CNF[1];
    assert CnfPos(BOTH.f) == Some([cp]) && CnfPos(BOTH.g) == Some([cq]) && [cp] + [cq] == BOTH_CNF;
    assert cp[..0] == [] && cq[..0] == [] && ArgValues([Variable(0)], s) == [0];
    var none: GroundClause := [];
    assert none + LEFT_OVER == LEFT_OVER;
    assert Simplify({}, cp, s) == Some(none);
    assert Simplify({}, cq, s) == Some(none + LEFT_OVER);
    assert BOTH_CNF[..1] == [cp];
    var nothing: ClauseForm := [];
    assert [cp][..0] == nothing;
    assert Kept({}, [cp], s) == [];
  }

  /** The weights in a world where p(0) is true or not, and nothing else is. */
  lemma BothWeights(w: World, truth: bool, subs: seq<Substitution>)
    requires subs == [[0]] && forall g :: w(g) <==> truth && g == GroundAtom(1, [0])
    ensures FormulaWeight(BOTH, 1.0, subs, w) == 0.0
    ensures SatWeight(Instances({}, 1.0, BOTH_CNF, subs), w) == if truth then 1.0 else 0.0
  {
    BothGrounded(subs[0]);
    assert subs[..0] == [];
    assert !AtomTrue(w, OBSERVED, subs[0]);
    assert !Eval(BOTH.f, Val(w, subs[0]));
    var instance := Instance(1.0, [LEFT_OVER]);
    assert Instances({}, 1.0, BOTH_CNF, subs[..0]) + InstanceOf({}, 1.0, BOTH_CNF, subs[0]) == [instance];
    assert [instance][..0] == [];
    assert GroundClauseTrue(w, LEFT_OVER) <==> truth by {
      assert LEFT_OVER[0] == GroundLit(false, GroundAtom(1, [0]));
    }
    assert [LEFT_OVER][0] == LEFT_OVER;
  }

  /** The formula is false at its only grounding in both worlds, but the instance that is left is satisfied in one. */
  lemma EmptyClauseBreaksPreservation(w0: World, w1: World)
    requires (forall g :: !w0(g)) && (forall g :: w1(g) <==> g == GroundAtom(1, [0]))
    ensures Compile(BOTH, 1.0) == Some((1.0, BOTH_CNF)) && Agrees(w0, {}) && Agrees(w1, {})
    ensures FormulaWeight(BOTH, 1.0, GROUNDINGS, w0) == FormulaWeight(BOTH, 1.0, GROUNDINGS, w1) == 0.0
    ensures SatWeight(Instances({}, 1.0, BOTH_CNF, GROUNDINGS), w0) == 0.0
    ensures SatWeight(Instances({}, 1.0, BOTH_CNF, GROUNDINGS), w1) == 1.0
  {
    OneGroundingOnly();
    BothGrounded([0]);
    BothWeights(w0, false, GROUNDINGS);
    BothWeights(w1, true, GROUNDINGS);
  }
}
