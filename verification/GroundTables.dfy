/** The grounder on its tables: interning of atoms, simplification into clauses of literals, enumeration with
    backtracking, and add_cnf (src/ground.c:215-360, src/ground.c:470-592, src/ground.c:1631-1704,
    src/cnf.c:643-832). */
module GroundTables {
  import opened Basics
  import opened TruthValues
  import opened Builtins
  import opened Cnf
  import opened Grounding
  import opened Enumeration
  import opened LogWeight

  /** A rule instance as the table stores it: clauses of literals 2x and 2x + 1. */
  datatype GroundRule = GroundRule(weight: real, clauses: seq<seq<Literal>>)

  // ----- reading literals back -----

  function Decode(atoms: seq<GroundAtom>, l: Literal): GroundLit
    requires InRange(l, |atoms|)
  {
    GroundLit(!IsPos(l), atoms[VarOf(l)])
  }

  ghost predicate ClauseOk(atoms: seq<GroundAtom>, lits: seq<Literal>) {
    forall i :: 0 <= i < |lits| ==> InRange(lits[i], |atoms|)
  }

  ghost predicate ClausesOk(atoms: seq<GroundAtom>, cs: seq<seq<Literal>>) {
    forall j :: 0 <= j < |cs| ==> ClauseOk(atoms, cs[j])
  }

  ghost function DecodeClause(atoms: seq<GroundAtom>, lits: seq<Literal>): GroundClause
    requires ClauseOk(atoms, lits)
  {
    seq(|lits|, i requires 0 <= i < |lits| => Decode(atoms, lits[i]))
  }

  ghost function DecodeClauses(atoms: seq<GroundAtom>, cs: seq<seq<Literal>>): seq<GroundClause>
    requires ClausesOk(atoms, cs)
  {
    seq(|cs|, j requires 0 <= j < |cs| => DecodeClause(atoms, cs[j]))
  }

  ghost predicate RulesOk(atoms: seq<GroundAtom>, rules: seq<GroundRule>) {
    forall k :: 0 <= k < |rules| ==> ClausesOk(atoms, rules[k].clauses)
  }

  ghost function DecodeRules(atoms: seq<GroundAtom>, rules: seq<GroundRule>): seq<Instance>
    requires RulesOk(atoms, rules)
  {
    seq(|rules|, k requires 0 <= k < |rules| => Instance(rules[k].weight, DecodeClauses(atoms, rules[k].clauses)))
  }

  /** New atoms at the end of the table change the meaning of no clause. */
  lemma DecodeGrows(atoms: seq<GroundAtom>, more: seq<GroundAtom>, cs: seq<seq<Literal>>)
    requires ClausesOk(atoms, cs) && atoms <= more
    ensures ClausesOk(more, cs) && DecodeClauses(more, cs) == DecodeClauses(atoms, cs)
  {
    forall j | 0 <= j < |cs| ensures ClauseOk(more, cs[j]) && DecodeClause(more, cs[j]) == DecodeClause(atoms, cs[j]) {
      assert ClauseOk(atoms, cs[j]);
    }
  }

  lemma RulesGrow(atoms: seq<GroundAtom>, more: seq<GroundAtom>, rules: seq<GroundRule>)
    requires RulesOk(atoms, rules) && atoms <= more
    ensures RulesOk(more, rules) && DecodeRules(more, rules) == DecodeRules(atoms, rules)
  {
    forall k | 0 <= k < |rules|
      ensures ClausesOk(more, rules[k].clauses)
      ensures DecodeClauses(more, rules[k].clauses) == DecodeClauses(atoms, rules[k].clauses)
    {
      DecodeGrows(atoms, more, rules[k].clauses);
    }
  }

  /** Interning adds an atom once. */
  function Intern(atoms: seq<GroundAtom>, g: GroundAtom): seq<GroundAtom> {
    if g in atoms then atoms else atoms + [g]
  }

  ghost function Asserted(atoms: seq<GroundAtom>, active: seq<bool>, assignment: seq<TruthValue>): Evidence
    requires |atoms| == |active| == |assignment|
  {
    set i | 0 <= i < |atoms| && atoms[i].pred <= 0 && active[i] && AssignedTrue(assignment[i]) :: atoms[i]
  }

  /** Observable atoms are fixed by assertion or by the closed world, all others are not fixed. */
  ghost predicate FixedByEvidence(atoms: seq<GroundAtom>, active: seq<bool>, assignment: seq<TruthValue>)
    requires |atoms| == |active| == |assignment|
  {
    forall i :: 0 <= i < |atoms| ==>
      if atoms[i].pred <= 0 then (assignment[i] == DbTrue && active[i]) || assignment[i] == DbFalse
      else UnfixedTval(assignment[i])
  }

  /** The new row is not asserted, and it is fixed only by the closed world. */
  lemma NewRow(atoms: seq<GroundAtom>, active: seq<bool>, assignment: seq<TruthValue>, g: GroundAtom, v: TruthValue)
    requires |atoms| == |active| == |assignment|
    ensures Asserted(atoms + [g], active + [false], assignment + [v]) == Asserted(atoms, active, assignment)
    ensures FixedByEvidence(atoms, active, assignment) && (if g.pred <= 0 then v == DbFalse else UnfixedTval(v)) ==>
              FixedByEvidence(atoms + [g], active + [false], assignment + [v])
    ensures CountUnfixed(assignment + [v]) == CountUnfixed(assignment) + if UnfixedTval(v) then 1 else 0
  {
    assert (assignment + [v])[..|assignment|] == assignment;
    forall x | x in Asserted(atoms, active, assignment)
      ensures x in Asserted(atoms + [g], active + [false], assignment + [v])
    {
      var i :| 0 <= i < |atoms| && atoms[i].pred <= 0 && active[i] && AssignedTrue(assignment[i]) && x == atoms[i];
      assert (atoms + [g])[i] == x;
    }
  }

  lemma AssertedMore(atoms: seq<GroundAtom>, active: seq<bool>, assignment: seq<TruthValue>, index: nat)
    requires |atoms| == |active| == |assignment| && index < |atoms| && atoms[index].pred <= 0
    requires FixedByEvidence(atoms, active, assignment)
    ensures !UnfixedTval(assignment[index])
    ensures FixedByEvidence(atoms, active[index := true], assignment[index := DbTrue])
    ensures Asserted(atoms, active[index := true], assignment[index := DbTrue])
         == Asserted(atoms, active, assignment) + {atoms[index]}
  {
    var more := Asserted(atoms, active[index := true], assignment[index := DbTrue]);
    forall x | x in Asserted(atoms, active, assignment) ensures x in more {
      var i :| 0 <= i < |atoms| && atoms[i].pred <= 0 && active[i] && AssignedTrue(assignment[i]) && x == atoms[i];
      assert active[index := true][i] && AssignedTrue(assignment[index := DbTrue][i]);
    }
    assert active[index := true][index] && AssignedTrue(assignment[index := DbTrue][index]);
  }

  lemma SameCount(assignment: seq<TruthValue>, index: nat)
    requires index < |assignment| && !UnfixedTval(assignment[index])
    ensures CountUnfixed(assignment[index := DbTrue]) == CountUnfixed(assignment)
  {
    CountUnfixedUpdate(assignment, index, DbTrue);
  }

  class GroundTable {
    var atoms: seq<GroundAtom>
    var atomIndex: map<GroundAtom, nat>
    var active: seq<bool>
    var assignment: seq<TruthValue>
    var numUnfixedVars: nat
    var ruleInsts: seq<GroundRule>

    /** The hash map inverts the atom array. */
    ghost predicate Rows()
      reads this
    {
      && |active| == |assignment| == |atoms|
      && (forall g :: g in atomIndex ==> atomIndex[g] < |atoms| && atoms[atomIndex[g]] == g)
      && (forall i :: 0 <= i < |atoms| ==> atoms[i] in atomIndex && atomIndex[atoms[i]] == i)
    }

    /** Besides, exactly the observable atoms are fixed, the count of unfixed atoms is right and the stored literals are
        in range. */
    ghost predicate Valid()
      reads this
    {
      && Rows()
      && FixedByEvidence(atoms, active, assignment)
      && numUnfixedVars == CountUnfixed(assignment)
      && RulesOk(atoms, ruleInsts)
    }

    /** The asserted atoms. */
    ghost function Known(): Evidence
      reads this
      requires Valid()
    {
      Asserted(atoms, active, assignment)
    }

    /** The stored instances with their atoms spelled out. */
    ghost function Meaning(): seq<Instance>
      reads this
      requires Valid()
    {
      DecodeRules(atoms, ruleInsts)
    }

    /** Nothing but new atoms at the end: values, evidence and instances of the old ones stay. */
    twostate predicate OnlyGrows()
      reads this
    {
      && old(atoms) <= atoms && old(assignment) <= assignment && old(active) <= active
      && ruleInsts == old(ruleInsts)
    }

    constructor ()
      ensures Valid() && atoms == [] && ruleInsts == []
    {
      atoms, atomIndex, active, assignment, numUnfixedVars, ruleInsts := [], map[], [], [], 0, [];
    }

    /** The new row of the atom table. */
    method Append(g: GroundAtom) returns (index: nat)
      requires Valid() && g !in atomIndex
      modifies this`atoms, this`atomIndex, this`active, this`assignment
      ensures Rows() && FixedByEvidence(atoms, active, assignment) && OnlyGrows()
      ensures atoms == old(atoms) + [g] && index == |old(atoms)|
      ensures assignment == old(assignment) + [if g.pred <= 0 then DbFalse else False]
      ensures Asserted(atoms, active, assignment) == old(Known())
      ensures RulesOk(atoms, ruleInsts) && DecodeRules(atoms, ruleInsts) == old(Meaning())
      ensures CountUnfixed(assignment) == old(CountUnfixed(assignment)) + if g.pred <= 0 then 0 else 1
    {
      hide Asserted, RulesOk, DecodeRules, FixedByEvidence, CountUnfixed;
      var v := if g.pred <= 0 then DbFalse else False;
      NewRow(atoms, active, assignment, g, v);
      RulesGrow(atoms, atoms + [g], ruleInsts);
      index := |atoms|;
      assert g !in atoms;
      atoms := atoms + [g];
      atomIndex := atomIndex[g := index];
      active := active + [false];
      assignment := assignment + [v];
    }

    /** add_internal_atom: an observable atom starts false by the closed world, any other one false and unfixed. */
    method AddInternalAtom(g: GroundAtom) returns (index: nat)
      requires Valid()
      modifies this
      ensures Valid() && OnlyGrows()
      ensures atoms == Intern(old(atoms), g) && index < |atoms| && atoms[index] == g
      ensures Known() == old(Known()) && Meaning() == old(Meaning())
      ensures |atoms| > |old(atoms)| ==> assignment[index] == if g.pred <= 0 then DbFalse else False
    {
      hide Asserted, RulesOk, DecodeRules, CountUnfixed, FixedByEvidence;
      if g in atomIndex {
        assert g in atoms;
        return atomIndex[g];
      }
      assert g !in atoms;
      index := Append(g);
      if g.pred > 0 {
        numUnfixedVars := numUnfixedVars + 1;
      }
    }

    /** assert_atom: an atom of an observable predicate becomes part of the evidence, any other one is refused. */
    method AssertAtom(g: GroundAtom) returns (index: int)
      requires Valid()
      modifies this
      ensures Valid() && Meaning() == old(Meaning())
      ensures if g.pred >= 0 then index == -1 && atoms == old(atoms) && Known() == old(Known())
              else atoms == Intern(old(atoms), g) && 0 <= index < |atoms| && atoms[index] == g
                   && Known() == old(Known()) + {g}
    {
      hide CountUnfixed, RulesOk, DecodeRules, Asserted, FixedByEvidence;
      if g.pred >= 0 {
        return -1;
      }
      index := AddInternalAtom(g);
      AssertedMore(atoms, active, assignment, index);
      SameCount(assignment, index);
      assignment := assignment[index := DbTrue];
      active := active[index := true];
    }
  }

  // ----- what a clause touches -----

  /** The atoms rule_clause_to_samp_clause interns: those of the indirect literals before the first true direct one. */
  function Touched(evidence: Evidence, c: RuleClause, s: Substitution): seq<GroundAtom> {
    if c == [] then []
    else
      var front, l := c[..|c| - 1], c[|c| - 1];
      Touched(evidence, front, s)
      + if Simplify(evidence, front, s).Some? && !Direct(l.atom) then [ToGround(l.atom, s)] else []
  }

  /** g belongs to literal i, whose atom is neither builtin nor observable, and no literal before it is direct and
      true. */
  ghost predicate TouchedAt(evidence: Evidence, c: RuleClause, s: Substitution, g: GroundAtom, i: nat) {
    && i < |c| && c[i].atom.builtinop == NoBuiltin && c[i].atom.pred > 0 && g == ToGround(c[i].atom, s)
    && forall k :: 0 <= k < i && Direct(c[k].atom) ==> DirectValue(evidence, c[k].atom, s) == c[k].neg
  }

  lemma {:induction false} TouchedExact(evidence: Evidence, c: RuleClause, s: Substitution, g: GroundAtom)
    ensures g in Touched(evidence, c, s) <==> exists i: nat :: TouchedAt(evidence, c, s, g, i)
  {
    if c != [] {
      var n := |c| - 1;
      TouchedExact(evidence, c[..n], s, g);
      SimplifyNone(evidence, c[..n], s);
      assert forall i :: 0 <= i < n ==> c[..n][i] == c[i];
      assert TouchedAt(evidence, c, s, g, n) <==>
        Simplify(evidence, c[..n], s).Some? && !Direct(c[n].atom) && g == ToGround(c[n].atom, s);
      assert forall i: nat :: i < n ==> (TouchedAt(evidence, c, s, g, i) <==> TouchedAt(evidence, c[..n], s, g, i));
      assert forall i: nat :: TouchedAt(evidence, c[..n], s, g, i) ==> i < n;
    }
  }

  function InternAll(atoms: seq<GroundAtom>, gs: seq<GroundAtom>): seq<GroundAtom> {
    if gs == [] then atoms else Intern(InternAll(atoms, gs[..|gs| - 1]), gs[|gs| - 1])
  }

  /** Nothing behind the first true direct literal is looked at. */
  lemma {:induction false} StopsAt(evidence: Evidence, c: RuleClause, s: Substitution, i: nat)
    requires i <= |c| && Simplify(evidence, c[..i], s).None?
    ensures Simplify(evidence, c, s).None? && Touched(evidence, c, s) == Touched(evidence, c[..i], s)
  {
    if i < |c| {
      var k := |c| - 1;
      assert c[..k][..i] == c[..i];
      StopsAt(evidence, c[..k], s, i);
    } else {
      assert c[..i] == c;
    }
  }

  /** What the i-th literal adds. */
  lemma OneLiteral(evidence: Evidence, c: RuleClause, s: Substitution, i: nat)
    requires i < |c| && Simplify(evidence, c[..i], s).Some?
    ensures Direct(c[i].atom) ==> Touched(evidence, c[..i + 1], s) == Touched(evidence, c[..i], s)
    ensures Direct(c[i].atom) ==>
              Simplify(evidence, c[..i + 1], s)
              == if DirectValue(evidence, c[i].atom, s) != c[i].neg then None else Simplify(evidence, c[..i], s)
    ensures !Direct(c[i].atom) ==>
              && Touched(evidence, c[..i + 1], s) == Touched(evidence, c[..i], s) + [ToGround(c[i].atom, s)]
              && Simplify(evidence, c[..i + 1], s)
                 == Some(Simplify(evidence, c[..i], s).value + [GroundLit(c[i].neg, ToGround(c[i].atom, s))])
  {
    assert c[..i + 1][..i] == c[..i];
  }

  lemma InternAllLast(atoms: seq<GroundAtom>, gs: seq<GroundAtom>, g: GroundAtom)
    ensures InternAll(atoms, gs + [g]) == Intern(InternAll(atoms, gs), g)
  {
  }

  lemma NothingRead(evidence: Evidence, atoms: seq<GroundAtom>, c: RuleClause, s: Substitution)
    ensures InternAll(atoms, Touched(evidence, c[..0], s)) == atoms
    ensures Simplify(evidence, c[..0], s) == Some([]) && DecodeClause(atoms, []) == []
  {
  }

  // ----- the grounder -----

  /** get_rule_literal_tval on a direct literal. */
  method DirectLiteralTval(t: GroundTable, l: RuleLit, s: Substitution) returns (truth: bool)
    requires t.Valid() && Direct(l.atom)
    ensures truth == (DirectValue(t.Known(), l.atom, s) != l.neg)
  {
    var value;
    if l.atom.builtinop != NoBuiltin {
      value := CallBuiltin(l.atom.builtinop, ArgValues(l.atom.args, s));
    } else {
      var g := ToGround(l.atom, s);
      if g !in t.atomIndex || !t.active[t.atomIndex[g]] {
        value := false;  // the default value of every predicate
      } else {
        value := AssignedTrue(t.assignment[t.atomIndex[g]]);
      }
      assert g in t.Known() <==> value;
    }
    return value != l.neg;
  }

  /** rule_lit_to_samp_lit for an indirect literal, behind the literals collected so far. */
  method PushLiteral(t: GroundTable, buffer: seq<Literal>, l: RuleLit, s: Substitution) returns (r: seq<Literal>)
    requires t.Valid() && ClauseOk(t.atoms, buffer)
    modifies t
    ensures t.Valid() && t.OnlyGrows() && t.Known() == old(t.Known()) && t.Meaning() == old(t.Meaning())
    ensures t.atoms == Intern(old(t.atoms), ToGround(l.atom, s))
    ensures ClauseOk(t.atoms, r)
    ensures DecodeClause(t.atoms, r) == old(DecodeClause(t.atoms, buffer)) + [GroundLit(l.neg, ToGround(l.atom, s))]
  {
    var index := t.AddInternalAtom(ToGround(l.atom, s));
    r := buffer + [if l.neg then NegLit(index) else PosLit(index)];
  }

  /** rule_clause_to_samp_clause: NULL is None. */
  method RuleClauseToSampClause(t: GroundTable, c: RuleClause, s: Substitution) returns (r: Option<seq<Literal>>)
    requires t.Valid()
    modifies t
    ensures t.Valid() && t.OnlyGrows() && t.Known() == old(t.Known()) && t.Meaning() == old(t.Meaning())
    ensures t.atoms == InternAll(old(t.atoms), Touched(old(t.Known()), c, s))
    ensures r.None? <==> Simplify(old(t.Known()), c, s).None?
    ensures r.Some? ==>
              ClauseOk(t.atoms, r.value) && Some(DecodeClause(t.atoms, r.value)) == Simplify(old(t.Known()), c, s)
  {
    hide Simplify, Touched, InternAll, Intern, DecodeClause, RulesOk, DecodeRules, Asserted, Direct, ToGround;
    ghost var evidence := t.Known();
    var buffer: seq<Literal> := [];
    NothingRead(evidence, t.atoms, c, s);
    assert c[..|c|] == c;
    for i := 0 to |c|
      invariant t.Valid() && t.OnlyGrows() && t.Known() == evidence && t.Meaning() == old(t.Meaning())
      invariant t.atoms == InternAll(old(t.atoms), Touched(evidence, c[..i], s))
      invariant ClauseOk(t.atoms, buffer) && Some(DecodeClause(t.atoms, buffer)) == Simplify(evidence, c[..i], s)
    {
      OneLiteral(evidence, c, s, i);
      if Direct(c[i].atom) {
        var truth := DirectLiteralTval(t, c[i], s);
        if truth {
          StopsAt(evidence, c, s, i + 1);
          return None;
        }
      } else {
        InternAllLast(old(t.atoms), Touched(evidence, c[..i], s), ToGround(c[i].atom, s));
        buffer := PushLiteral(t, buffer, c[i], s);
      }
    }
    return Some(buffer);
  }

  function TouchedByRule(evidence: Evidence, cnf: ClauseForm, s: Substitution): seq<GroundAtom> {
    if cnf == [] then []
    else TouchedByRule(evidence, cnf[..|cnf| - 1], s) + Touched(evidence, cnf[|cnf| - 1], s)
  }

  lemma {:induction false} InternAllAppend(atoms: seq<GroundAtom>, gs: seq<GroundAtom>, hs: seq<GroundAtom>)
    ensures InternAll(atoms, gs + hs) == InternAll(InternAll(atoms, gs), hs)
  {
    if hs == [] {
      assert gs + hs == gs;
    } else {
      var k := |hs| - 1;
      InternAllAppend(atoms, gs, hs[..k]);
      assert gs + hs == (gs + hs[..k]) + [hs[k]];
      InternAllLast(atoms, gs + hs[..k], hs[k]);
    }
  }

  /** One turn of the loop of samp_rule_to_rule_instance. */
  method AddClause(t: GroundTable, kept: seq<seq<Literal>>, c: RuleClause, s: Substitution)
    returns (r: seq<seq<Literal>>)
    requires t.Valid() && ClausesOk(t.atoms, kept)
    modifies t
    ensures t.Valid() && t.OnlyGrows() && t.Known() == old(t.Known()) && t.Meaning() == old(t.Meaning())
    ensures t.atoms == InternAll(old(t.atoms), Touched(old(t.Known()), c, s))
    ensures ClausesOk(t.atoms, r)
    ensures DecodeClauses(t.atoms, r) == old(DecodeClauses(t.atoms, kept))
              + var g := Simplify(old(t.Known()), c, s); if g.Some? && g.value != [] then [g.value] else []
  {
    ghost var before := t.atoms;
    var clause := RuleClauseToSampClause(t, c, s);
    DecodeGrows(before, t.atoms, kept);
    r := kept;
    if clause.Some? {
      if |clause.value| > 0 {
        r := r + [clause.value];
        assert DecodeClauses(t.atoms, r) == DecodeClauses(t.atoms, kept) + [DecodeClause(t.atoms, clause.value)];
      }
    }
  }

  /** samp_rule_to_rule_instance: the kept clauses; an empty result is NULL. */
  method SampRuleToRuleInstance(t: GroundTable, cnf: ClauseForm, s: Substitution) returns (kept: seq<seq<Literal>>)
    requires t.Valid()
    modifies t
    ensures t.Valid() && t.OnlyGrows() && t.Known() == old(t.Known()) && t.Meaning() == old(t.Meaning())
    ensures t.atoms == InternAll(old(t.atoms), TouchedByRule(old(t.Known()), cnf, s))
    ensures ClausesOk(t.atoms, kept) && DecodeClauses(t.atoms, kept) == Kept(old(t.Known()), cnf, s)
  {
    ghost var evidence := t.Known();
    kept := [];
    assert cnf[..0] == [] && DecodeClauses(t.atoms, kept) == [];
    for i := 0 to |cnf|
      invariant t.Valid() && t.OnlyGrows() && t.Known() == evidence && t.Meaning() == old(t.Meaning())
      invariant t.atoms == InternAll(old(t.atoms), TouchedByRule(evidence, cnf[..i], s))
      invariant ClausesOk(t.atoms, kept) && DecodeClauses(t.atoms, kept) == Kept(evidence, cnf[..i], s)
    {
      assert cnf[..i + 1][..i] == cnf[..i];
      InternAllAppend(old(t.atoms), TouchedByRule(evidence, cnf[..i], s), Touched(evidence, cnf[i], s));
      kept := AddClause(t, kept, cnf[i], s);
    }
    assert cnf[..|cnf|] == cnf;
  }

  /** add_internal_rule_instance: duplicates are allowed. */
  method AddInstance(t: GroundTable, weight: real, conjunct: seq<seq<Literal>>)
    requires t.Valid() && ClausesOk(t.atoms, conjunct)
    modifies t`ruleInsts
    ensures t.Valid() && t.Known() == old(t.Known())
    ensures t.Meaning() == old(t.Meaning()) + [Instance(weight, DecodeClauses(t.atoms, conjunct))]
  {
    ghost var before := t.ruleInsts;
    t.ruleInsts := t.ruleInsts + [GroundRule(weight, conjunct)];
    assert DecodeRules(t.atoms, t.ruleInsts)
        == DecodeRules(t.atoms, before) + [Instance(weight, DecodeClauses(t.atoms, conjunct))];
  }

  /** The atoms of several substitutions, in the order in which they are met. */
  function TouchedBySubs(evidence: Evidence, cnf: ClauseForm, subs: seq<Substitution>): seq<GroundAtom> {
    if subs == [] then []
    else
      var k := |subs| - 1;
      TouchedBySubs(evidence, cnf, subs[..k]) + TouchedByRule(evidence, cnf, subs[k])
  }

  lemma {:induction false} TouchedAppend(evidence: Evidence, cnf: ClauseForm, xs: seq<Substitution>,
                                         ys: seq<Substitution>)
    ensures TouchedBySubs(evidence, cnf, xs + ys) == TouchedBySubs(evidence, cnf, xs) + TouchedBySubs(evidence, cnf, ys)
  {
    hide TouchedByRule;
    if ys == [] {
      assert xs + ys == xs;
    } else {
      var k, front := |ys| - 1, ys[..|ys| - 1];
      assert (xs + ys)[..|xs| + k] == xs + front && (xs + ys)[|xs| + k] == ys[k];
      TouchedAppend(evidence, cnf, xs, front);
    }
  }

  /** The table after grounding the rule under the substitutions: these atoms are interned and nothing else. */
  ghost function Interned(atoms: seq<GroundAtom>, evidence: Evidence, cnf: ClauseForm, subs: seq<Substitution>)
    : seq<GroundAtom>
  {
    InternAll(atoms, TouchedBySubs(evidence, cnf, subs))
  }

  lemma InternedAppend(atoms: seq<GroundAtom>, evidence: Evidence, cnf: ClauseForm, xs: seq<Substitution>,
                       ys: seq<Substitution>)
    ensures Interned(atoms, evidence, cnf, xs + ys)
         == Interned(Interned(atoms, evidence, cnf, xs), evidence, cnf, ys)
  {
    TouchedAppend(evidence, cnf, xs, ys);
    InternAllAppend(atoms, TouchedBySubs(evidence, cnf, xs), TouchedBySubs(evidence, cnf, ys));
  }

  /** substit_rule in eager mode: adds the instance unless nothing of it is left. */
  method SubstitRule(t: GroundTable, weight: real, cnf: ClauseForm, s: Substitution)
    requires t.Valid()
    modifies t
    ensures t.Valid() && t.Known() == old(t.Known()) && old(t.atoms) <= t.atoms
    ensures t.atoms == InternAll(old(t.atoms), TouchedByRule(old(t.Known()), cnf, s))
    ensures t.Meaning() == old(t.Meaning()) + InstanceOf(old(t.Known()), weight, cnf, s)
  {
    var kept := SampRuleToRuleInstance(t, cnf, s);
    if |kept| == 0 {
      return;
    }
    AddInstance(t, weight, kept);
  }

  lemma {:induction false} InstancesAppend(evidence: Evidence, weight: real, cnf: ClauseForm,
                                           xs: seq<Substitution>, ys: seq<Substitution>)
    ensures Instances(evidence, weight, cnf, xs + ys)
         == Instances(evidence, weight, cnf, xs) + Instances(evidence, weight, cnf, ys)
  {
    hide InstanceOf;
    if ys == [] {
      assert xs + ys == xs;
    } else {
      var k, front := |ys| - 1, ys[..|ys| - 1];
      assert (xs + ys)[..|xs| + k] == xs + front && (xs + ys)[|xs| + k] == ys[k];
      InstancesAppend(evidence, weight, cnf, xs, front);
      var x, y, last := Instances(evidence, weight, cnf, xs), Instances(evidence, weight, cnf, front),
                        InstanceOf(evidence, weight, cnf, ys[k]);
      assert (x + y) + last == x + (y + last);
    }
  }

  lemma OneInstance(evidence: Evidence, weight: real, cnf: ClauseForm, s: Substitution)
    ensures Instances(evidence, weight, cnf, [s]) == InstanceOf(evidence, weight, cnf, s)
    ensures TouchedBySubs(evidence, cnf, [s]) == TouchedByRule(evidence, cnf, s)
  {
    assert TouchedBySubs(evidence, cnf, [s][..0]) == [];
  }

  /** all_rule_instances_rec: one instance for each completion, in order; the buffer is as before. */
  method AllRuleInstancesRec(t: GroundTable, weight: real, cnf: ClauseForm, sorts: seq<Sort>,
                             buffer: array<int>, v: nat)
    requires t.Valid() && v <= |sorts| < buffer.Length && buffer[|sorts|] == UNSET
    modifies t, buffer
    ensures t.Valid() && t.Known() == old(t.Known()) && old(t.atoms) <= t.atoms
    ensures t.Meaning()
         == old(t.Meaning()) + Instances(old(t.Known()), weight, cnf, Completions(sorts, old(buffer[..|sorts|]), v))
    ensures t.atoms == Interned(old(t.atoms), old(t.Known()), cnf, Completions(sorts, old(buffer[..|sorts|]), v))
    ensures buffer[..] == old(buffer[..])
    decreases |sorts| - v, 2
  {
    hide Instances;
    if v == |sorts| {
      ghost var partial := buffer[..|sorts|];
      buffer[v] := UNSET;
      assert buffer[..|sorts|] == partial;
      OneInstance(t.Known(), weight, cnf, partial);
      SubstitRule(t, weight, cnf, buffer[..|sorts|]);
    } else if buffer[v] != UNSET {
      AllRuleInstancesRec(t, weight, cnf, sorts, buffer, v + 1);
    } else {
      AllElements(t, weight, cnf, sorts, buffer, v);
    }
  }

  lemma NoBranches(evidence: Evidence, weight: real, cnf: ClauseForm, sorts: seq<Sort>, partial: seq<int>, v: nat)
    requires |partial| == |sorts| && v < |sorts|
    ensures Instances(evidence, weight, cnf, Branches(sorts, partial, v, 0)) == []
    ensures forall atoms :: Interned(atoms, evidence, cnf, Branches(sorts, partial, v, 0)) == atoms
  {
  }

  lemma NextBranch(atoms: seq<GroundAtom>, evidence: Evidence, weight: real, cnf: ClauseForm, sorts: seq<Sort>,
                   partial: seq<int>, v: nat, i: nat)
    requires |partial| == |sorts| && v < |sorts| && i < Cardinality(sorts[v])
    ensures Instances(evidence, weight, cnf, Branches(sorts, partial, v, i + 1))
         == Instances(evidence, weight, cnf, Branches(sorts, partial, v, i))
            + Instances(evidence, weight, cnf, Completions(sorts, partial[v := Element(sorts[v], i)], v + 1))
    ensures Interned(atoms, evidence, cnf, Branches(sorts, partial, v, i + 1))
         == Interned(Interned(atoms, evidence, cnf, Branches(sorts, partial, v, i)), evidence, cnf,
                     Completions(sorts, partial[v := Element(sorts[v], i)], v + 1))
  {
    InternedAppend(atoms, evidence, cnf, Branches(sorts, partial, v, i),
                   Completions(sorts, partial[v := Element(sorts[v], i)], v + 1));
    InstancesAppend(evidence, weight, cnf, Branches(sorts, partial, v, i),
                    Completions(sorts, partial[v := Element(sorts[v], i)], v + 1));
  }

  /** The loop of all_rule_instances_rec over the elements of the sort of variable v. */
  method AllElements(t: GroundTable, weight: real, cnf: ClauseForm, sorts: seq<Sort>, buffer: array<int>, v: nat)
    requires t.Valid() && v < |sorts| < buffer.Length && buffer[|sorts|] == UNSET && buffer[v] == UNSET
    modifies t, buffer
    ensures t.Valid() && t.Known() == old(t.Known()) && old(t.atoms) <= t.atoms
    ensures t.Meaning() == old(t.Meaning())
              + Instances(old(t.Known()), weight, cnf,
                          Branches(sorts, old(buffer[..|sorts|]), v, Cardinality(sorts[v])))
    ensures t.atoms == Interned(old(t.atoms), old(t.Known()), cnf,
                                Branches(sorts, old(buffer[..|sorts|]), v, Cardinality(sorts[v])))
    ensures buffer[..] == old(buffer[..])
    decreases |sorts| - v, 1
  {
    hide Instances, Branches, Completions, Interned;
    ghost var evidence, partial := t.Known(), buffer[..|sorts|];
    NoBranches(evidence, weight, cnf, sorts, partial, v);
    for i := 0 to Cardinality(sorts[v])
      invariant t.Valid() && t.Known() == evidence && old(t.atoms) <= t.atoms
      invariant t.Meaning() == old(t.Meaning()) + Instances(evidence, weight, cnf, Branches(sorts, partial, v, i))
      invariant t.atoms == Interned(old(t.atoms), evidence, cnf, Branches(sorts, partial, v, i))
      invariant buffer[..] == old(buffer[..])
    {
      assert buffer[..|sorts|] == partial;
      NextBranch(old(t.atoms), evidence, weight, cnf, sorts, partial, v, i);
      OneElement(t, weight, cnf, sorts, buffer, v, i);
    }
  }

  /** One turn of the loop over the elements of a sort: set the variable, recurse, unset it. */
  method OneElement(t: GroundTable, weight: real, cnf: ClauseForm, sorts: seq<Sort>, buffer: array<int>, v: nat, i: nat)
    requires t.Valid() && v < |sorts| < buffer.Length && buffer[|sorts|] == UNSET && buffer[v] == UNSET
    requires i < Cardinality(sorts[v])
    modifies t, buffer
    ensures t.Valid() && t.Known() == old(t.Known()) && old(t.atoms) <= t.atoms
    ensures t.Meaning() == old(t.Meaning())
              + Instances(old(t.Known()), weight, cnf,
                          Completions(sorts, old(buffer[..|sorts|])[v := Element(sorts[v], i)], v + 1))
    ensures t.atoms == Interned(old(t.atoms), old(t.Known()), cnf,
                                Completions(sorts, old(buffer[..|sorts|])[v := Element(sorts[v], i)], v + 1))
    ensures buffer[..] == old(buffer[..])
    decreases |sorts| - v, 0
  {
    ghost var partial := buffer[..|sorts|];
    buffer[v] := Element(sorts[v], i);
    assert buffer[..|sorts|] == partial[v := Element(sorts[v], i)];
    AllRuleInstancesRec(t, weight, cnf, sorts, buffer, v + 1);
    buffer[v] := UNSET;  // backtrack
  }

  /** all_rule_instances */
  method AllRuleInstances(t: GroundTable, weight: real, cnf: ClauseForm, sorts: seq<Sort>)
    requires t.Valid()
    modifies t
    ensures t.Valid() && t.Known() == old(t.Known()) && old(t.atoms) <= t.atoms
    ensures t.Meaning()
         == old(t.Meaning()) + Instances(old(t.Known()), weight, cnf, Completions(sorts, seq(|sorts|, _ => UNSET), 0))
    ensures t.atoms == Interned(old(t.atoms), old(t.Known()), cnf, Completions(sorts, seq(|sorts|, _ => UNSET), 0))
  {
    var buffer := new int[|sorts| + 1](_ => UNSET);
    assert buffer[..|sorts|] == seq(|sorts|, _ => UNSET);
    AllRuleInstancesRec(t, weight, cnf, sorts, buffer, 0);
  }

  /** What add_cnf must do to the weight of every world: add the weight of the formula, up to a constant and to the
      groundings with a clause that the evidence falsifies. */
  ghost predicate AddsWeight(evidence: Evidence, f: Formula, weight: real, abs: real, cnf: ClauseForm,
                             subs: seq<Substitution>, before: seq<Instance>, after: seq<Instance>)
    requires Resolved(f)
  {
    forall w: World :: Agrees(w, evidence) ==>
      SatWeight(after, w)
      == SatWeight(before, w) + FormulaWeight(f, weight, subs, w) - TotalOffset(evidence, weight, cnf, subs)
         + MiscountedWeight(evidence, abs, cnf, subs, w)
  }

  lemma InstancesAddWeight(evidence: Evidence, f: Formula, weight: real, abs: real, cnf: ClauseForm,
                           subs: seq<Substitution>, before: seq<Instance>)
    requires Resolved(f) && Compile(f, weight) == Some((abs, cnf))
    ensures AddsWeight(evidence, f, weight, abs, cnf, subs, before, before + Instances(evidence, abs, cnf, subs))
  {
    forall w: World | Agrees(w, evidence)
      ensures SatWeight(before + Instances(evidence, abs, cnf, subs), w)
           == SatWeight(before, w) + FormulaWeight(f, weight, subs, w) - TotalOffset(evidence, weight, cnf, subs)
              + MiscountedWeight(evidence, abs, cnf, subs, w)
    {
      LogWeightExact(evidence, f, weight, abs, cnf, subs, w);
      SatWeightAppend(before, Instances(evidence, abs, cnf, subs), w);
    }
  }

  function KnownSorts(sorts: seq<Option<Sort>>): seq<Sort>
    requires None !in sorts
  {
    seq(|sorts|, i requires 0 <= i < |sorts| => assert sorts[i] in sorts; sorts[i].value)
  }

  /** All groundings of the variables of a formula. */
  function Groundings(sorts: seq<Option<Sort>>): seq<Substitution>
    requires None !in sorts
  {
    Completions(KnownSorts(sorts), seq(|sorts|, _ => UNSET), 0)
  }

  /** The groundings are exactly the ways to give every variable an element of its sort. */
  lemma GroundingsExact(sorts: seq<Option<Sort>>, full: Substitution)
    requires None !in sorts
    ensures full in Groundings(sorts)
       <==> |full| == |sorts| && forall i :: 0 <= i < |sorts| && sorts[i].Some? ==> Contains(sorts[i].value, full[i])
  {
    CompletionsExact(KnownSorts(sorts), seq(|sorts|, _ => UNSET), 0, full);
    assert forall i :: 0 <= i < |sorts| ==> sorts[i] in sorts;
  }

  /** The weight of the formula is added with the constant of TotalOffset and no error. */
  ghost predicate AddsExactly(evidence: Evidence, f: Formula, weight: real, cnf: ClauseForm, subs: seq<Substitution>,
                              before: seq<Instance>, after: seq<Instance>)
    requires Resolved(f)
  {
    forall w: World :: Agrees(w, evidence) ==>
      SatWeight(after, w)
      == SatWeight(before, w) + FormulaWeight(f, weight, subs, w) - TotalOffset(evidence, weight, cnf, subs)
  }

  /** What a hard formula asks of a world: the formula, or its negation for a negative weight, at every grounding,
      except for the groundings that a dropped clause makes look satisfied. */
  ghost predicate AddsHard(evidence: Evidence, f: Formula, weight: real, cnf: ClauseForm, subs: seq<Substitution>,
                           before: seq<Instance>, after: seq<Instance>)
    requires Resolved(f)
  {
    forall w: World :: Agrees(w, evidence) ==>
      (AllHold(after, w)
       <==> AllHold(before, w)
            && forall i :: 0 <= i < |subs| ==>
                 Eval(f, Val(w, subs[i])) != (weight < 0.0) || Unnoticed(evidence, cnf, subs[i], w))
  }

  lemma AddsExactlyIff(evidence: Evidence, f: Formula, weight: real, abs: real, cnf: ClauseForm,
                       subs: seq<Substitution>, before: seq<Instance>)
    requires Resolved(f) && Compile(f, weight) == Some((abs, cnf))
    ensures AddsExactly(evidence, f, weight, cnf, subs, before, before + Instances(evidence, abs, cnf, subs))
       <==> HarmlesslyDropped(evidence, cnf, subs)
  {
    var added := Instances(evidence, abs, cnf, subs);
    NeverMiscounted(evidence, cnf, subs);
    forall w: World | Agrees(w, evidence)
      ensures SatWeight(before + added, w)
           == SatWeight(before, w) + FormulaWeight(f, weight, subs, w) - TotalOffset(evidence, weight, cnf, subs)
         <==> NoneMiscounted(evidence, cnf, subs, w)
    {
      PreservedIff(evidence, f, weight, abs, cnf, subs, w);
      SatWeightAppend(before, added, w);
    }
  }

  ghost predicate AddsAndShifts(evidence: Evidence, f: Formula, weight: real, subs: seq<Substitution>,
                                before: seq<Instance>, after: seq<Instance>, c: real)
    requires Resolved(f)
  {
    forall w: World :: Agrees(w, evidence) ==>
      SatWeight(before, w) + FormulaWeight(f, weight, subs, w) == SatWeight(after, w) + c
  }

  /** Up to some constant, the same for all worlds that agree with the evidence, the weight of the formula is added. */
  ghost predicate AddsUpToConstant(evidence: Evidence, f: Formula, weight: real, subs: seq<Substitution>,
                                   before: seq<Instance>, after: seq<Instance>)
    requires Resolved(f)
  {
    exists c :: AddsAndShifts(evidence, f, weight, subs, before, after, c)
  }

  lemma AddsUpToConstantIff(evidence: Evidence, f: Formula, weight: real, abs: real, cnf: ClauseForm,
                            subs: seq<Substitution>, before: seq<Instance>)
    requires Resolved(f) && Compile(f, weight) == Some((abs, cnf))
    ensures AddsUpToConstant(evidence, f, weight, subs, before, before + Instances(evidence, abs, cnf, subs))
       <==> MiscountConstant(evidence, abs, cnf, subs)
  {
    hide Agrees, Compile, MiscountConstant;
    var added := Instances(evidence, abs, cnf, subs);
    PreservedUpToConstantIff(evidence, f, weight, abs, cnf, subs);
    forall c: real
      ensures AddsAndShifts(evidence, f, weight, subs, before, before + added, c)
         <==> DiffersBy(evidence, f, weight, subs, added, c)
    {
      forall w: World ensures SatWeight(before + added, w) == SatWeight(before, w) + SatWeight(added, w) {
        SatWeightAppend(before, added, w);
      }
    }
  }

  lemma InstancesAddHard(evidence: Evidence, f: Formula, weight: real, abs: real, cnf: ClauseForm,
                         subs: seq<Substitution>, before: seq<Instance>)
    requires Resolved(f) && Compile(f, weight) == Some((abs, cnf))
    ensures AddsHard(evidence, f, weight, cnf, subs, before, before + Instances(evidence, abs, cnf, subs))
  {
    hide AllHold, Unnoticed, Eval, Agrees, Compile;
    forall w: World | Agrees(w, evidence)
      ensures AllHold(before + Instances(evidence, abs, cnf, subs), w)
         <==> AllHold(before, w)
              && forall i :: 0 <= i < |subs| ==>
                   Eval(f, Val(w, subs[i])) != (weight < 0.0) || Unnoticed(evidence, cnf, subs[i], w)
    {
      HardExact(evidence, f, weight, abs, cnf, subs, w);
      AllHoldAppend(before, Instances(evidence, abs, cnf, subs), w);
    }
  }

  // ----- formulas without variables -----

  function SpelledClause(c: RuleClause): GroundClause {
    seq(|c|, i requires 0 <= i < |c| => GroundLit(c[i].neg, ToGround(c[i].atom, [])))
  }

  /** The clauses as they stand, no literal left out. */
  function Spelled(cnf: ClauseForm): seq<GroundClause> {
    seq(|cnf|, i requires 0 <= i < |cnf| => SpelledClause(cnf[i]))
  }

  ghost predicate BuiltinFree(f: Formula)
    requires Resolved(f)
  {
    forall a :: a in Atoms(f) ==> a.builtinop == NoBuiltin
  }

  lemma SpelledTrue(cnf: ClauseForm, w: World)
    requires forall a :: a in AtomsOf(cnf) ==> a.builtinop == NoBuiltin
    ensures AllTrue(w, Spelled(cnf)) <==> FormTrue(cnf, Val(w, []))
  {
    forall i | 0 <= i < |cnf|
      ensures GroundClauseTrue(w, Spelled(cnf)[i]) <==> ClauseTrue(cnf[i], Val(w, []))
    {
      forall k | 0 <= k < |cnf[i]|
        ensures LitTrue(cnf[i][k], Val(w, [])) <==> w(SpelledClause(cnf[i])[k].atom) != SpelledClause(cnf[i])[k].neg
      {
        assert cnf[i][k].atom in AtomsOf(cnf);
      }
    }
  }

  /** A formula without variables adds its weight exactly, up to the weight itself when that is negative, and asks for
      exactly its truth when it is hard. */
  ghost predicate AddsGround(f: Formula, weight: real, before: seq<Instance>, after: seq<Instance>)
    requires Resolved(f)
  {
    forall w: World ::
      && SatWeight(after, w)
         == SatWeight(before, w)
            + (if Eval(f, Val(w, [])) then weight else 0.0) - (if weight < 0.0 then weight else 0.0)
      && (AllHold(after, w) <==> AllHold(before, w) && Eval(f, Val(w, [])) != (weight < 0.0))
  }

  lemma SpelledAdds(f: Formula, weight: real, abs: real, cnf: ClauseForm, before: seq<Instance>)
    requires Resolved(f) && BuiltinFree(f) && Compile(f, weight) == Some((abs, cnf))
    ensures AddsGround(f, weight, before, before + [Instance(abs, Spelled(cnf))])
  {
    CnfShape(f);
    var added := [Instance(abs, Spelled(cnf))];
    forall w: World
      ensures SatWeight(before + added, w)
           == SatWeight(before, w)
              + (if Eval(f, Val(w, [])) then weight else 0.0) - (if weight < 0.0 then weight else 0.0)
      ensures AllHold(before + added, w) <==> AllHold(before, w) && Eval(f, Val(w, [])) != (weight < 0.0)
    {
      CnfCorrect(f, Val(w, []));
      SpelledTrue(cnf, w);
      assert added[..0] == [] && added[0].clauses == Spelled(cnf);
      SatWeightAppend(before, added, w);
      AllHoldAppend(before, added, w);
    }
  }

  ghost function AtomsIn(c: GroundClause): seq<GroundAtom> {
    seq(|c|, i requires 0 <= i < |c| => c[i].atom)
  }

  ghost function AtomsInAll(cs: seq<GroundClause>): seq<GroundAtom> {
    if cs == [] then [] else AtomsInAll(cs[..|cs| - 1]) + AtomsIn(cs[|cs| - 1])
  }

  lemma NothingSpelled(atoms: seq<GroundAtom>, c: RuleClause)
    ensures DecodeClause(atoms, []) == SpelledClause(c[..0])
    ensures InternAll(atoms, AtomsIn(SpelledClause(c[..0]))) == atoms
  {
  }

  lemma NextSpelled(c: RuleClause, j: nat)
    requires j < |c|
    ensures SpelledClause(c[..j + 1]) == SpelledClause(c[..j]) + [GroundLit(c[j].neg, ToGround(c[j].atom, []))]
    ensures AtomsIn(SpelledClause(c[..j + 1])) == AtomsIn(SpelledClause(c[..j])) + [ToGround(c[j].atom, [])]
  {
  }

  /** The loop of add_cnf over the literals of a clause without variables: direct atoms are interned like all others. */
  method SpellClause(t: GroundTable, c: RuleClause) returns (lits: seq<Literal>)
    requires t.Valid()
    modifies t
    ensures t.Valid() && t.OnlyGrows() && t.Known() == old(t.Known()) && t.Meaning() == old(t.Meaning())
    ensures ClauseOk(t.atoms, lits) && DecodeClause(t.atoms, lits) == SpelledClause(c)
    ensures t.atoms == InternAll(old(t.atoms), AtomsIn(SpelledClause(c)))
  {
    hide InternAll, AtomsIn, Intern, DecodeClause, RulesOk, DecodeRules, Asserted, ToGround, SpelledClause;
    lits := [];
    NothingSpelled(t.atoms, c);
    for j := 0 to |c|
      invariant t.Valid() && t.OnlyGrows() && t.Known() == old(t.Known()) && t.Meaning() == old(t.Meaning())
      invariant ClauseOk(t.atoms, lits) && DecodeClause(t.atoms, lits) == SpelledClause(c[..j])
      invariant t.atoms == InternAll(old(t.atoms), AtomsIn(SpelledClause(c[..j])))
    {
      NextSpelled(c, j);
      InternAllLast(old(t.atoms), AtomsIn(SpelledClause(c[..j])), ToGround(c[j].atom, []));
      lits := PushLiteral(t, lits, c[j], []);
    }
    assert c[..|c|] == c;
  }

  lemma AppendSpelled(before: seq<GroundAtom>, atoms: seq<GroundAtom>, conjunct: seq<seq<Literal>>, lits: seq<Literal>,
                      cnf: ClauseForm, i: nat)
    requires i < |cnf| && before <= atoms
    requires ClausesOk(before, conjunct) && DecodeClauses(before, conjunct) == Spelled(cnf[..i])
    requires ClauseOk(atoms, lits) && DecodeClause(atoms, lits) == SpelledClause(cnf[i])
    ensures ClausesOk(atoms, conjunct + [lits]) && DecodeClauses(atoms, conjunct + [lits]) == Spelled(cnf[..i + 1])
    ensures AtomsInAll(Spelled(cnf[..i + 1])) == AtomsInAll(Spelled(cnf[..i])) + AtomsIn(SpelledClause(cnf[i]))
  {
    DecodeGrows(before, atoms, conjunct);
    assert DecodeClauses(atoms, conjunct + [lits]) == DecodeClauses(atoms, conjunct) + [SpelledClause(cnf[i])];
    assert Spelled(cnf[..i + 1]) == Spelled(cnf[..i]) + [SpelledClause(cnf[i])];
    assert Spelled(cnf[..i + 1])[..i] == Spelled(cnf[..i]);
  }

  lemma NothingSpelledYet(atoms: seq<GroundAtom>, cnf: ClauseForm)
    ensures DecodeClauses(atoms, []) == Spelled(cnf[..0]) && InternAll(atoms, AtomsInAll(Spelled(cnf[..0]))) == atoms
  {
  }

  /** The branch of add_cnf for a formula without variables: one instance, nothing simplified. */
  method AddGround(t: GroundTable, weight: real, cnf: ClauseForm)
    requires t.Valid()
    modifies t
    ensures t.Valid() && t.Known() == old(t.Known()) && old(t.atoms) <= t.atoms
    ensures t.Meaning() == old(t.Meaning()) + [Instance(weight, Spelled(cnf))]
    ensures t.atoms == InternAll(old(t.atoms), AtomsInAll(Spelled(cnf)))
  {
    NothingSpelledYet(t.atoms, cnf);
    hide InternAll, AtomsIn, AtomsInAll, Spelled, SpelledClause, DecodeClause, DecodeRules, RulesOk, Asserted;
    var conjunct: seq<seq<Literal>> := [];
    for i := 0 to |cnf|
      invariant t.Valid() && t.OnlyGrows() && t.Known() == old(t.Known()) && t.Meaning() == old(t.Meaning())
      invariant ClausesOk(t.atoms, conjunct) && DecodeClauses(t.atoms, conjunct) == Spelled(cnf[..i])
      invariant t.atoms == InternAll(old(t.atoms), AtomsInAll(Spelled(cnf[..i])))
    {
      ghost var before := t.atoms;
      InternAllAppend(old(t.atoms), AtomsInAll(Spelled(cnf[..i])), AtomsIn(SpelledClause(cnf[i])));
      var lits := SpellClause(t, cnf[i]);
      AppendSpelled(before, t.atoms, conjunct, lits, cnf, i);
      conjunct := conjunct + [lits];
    }
    assert cnf[..|cnf|] == cnf;
    AddInstance(t, weight, conjunct);
  }

  // ----- the whole of add_cnf -----

  /** add_cnf in eager mode. A variable gets its sort from an atom of a predicate. One that occurs in no atom, or in
      builtins only, has none: the source reports it as unused and adds nothing. Without variables a builtin atom would
      be looked up in the predicate table, outside its bounds. */
  method AddCnf(t: GroundTable, f: Formula, weight: real, sorts: seq<Option<Sort>>)
    requires t.Valid()
    requires sorts == [] && Resolved(f) ==> BuiltinFree(f)
    modifies t
    ensures t.Valid() && t.Known() == old(t.Known()) && old(t.atoms) <= t.atoms
    ensures !Resolved(f) || -0.00000001 < weight < 0.00000001 || None in sorts ==>
              t.Meaning() == old(t.Meaning()) && t.atoms == old(t.atoms)
    ensures Compile(f, weight).Some? && sorts == [] ==>
              var (abs, cnf) := Compile(f, weight).value;
              && Resolved(f)
              && t.Meaning() == old(t.Meaning()) + [Instance(abs, Spelled(cnf))]
              && t.atoms == InternAll(old(t.atoms), AtomsInAll(Spelled(cnf)))
              && AddsGround(f, weight, old(t.Meaning()), t.Meaning())
    ensures Compile(f, weight).Some? && sorts != [] && None !in sorts ==>
              var (abs, cnf) := Compile(f, weight).value;
              var (evidence, subs, before) := (old(t.Known()), Groundings(sorts), old(t.Meaning()));
              && t.Meaning() == before + Instances(evidence, abs, cnf, subs)
              && t.atoms == Interned(old(t.atoms), evidence, cnf, subs)
              && Resolved(f)
              && AddsWeight(evidence, f, weight, abs, cnf, subs, before, t.Meaning())
              && (AddsUpToConstant(evidence, f, weight, subs, before, t.Meaning())
                  <==> MiscountConstant(evidence, abs, cnf, subs))
              && (AddsExactly(evidence, f, weight, cnf, subs, before, t.Meaning())
                  <==> HarmlesslyDropped(evidence, cnf, subs))
              && AddsHard(evidence, f, weight, cnf, subs, before, t.Meaning())
  {
    hide AddsWeight, AddsGround, AddsExactly, AddsUpToConstant, AddsHard, HarmlesslyDropped, MiscountConstant, Spelled,
      InternAll, Interned;
    CompileNothing(f, weight);
    var compiled := Compile(f, weight);
    if compiled.None? {
      return;
    }
    var abs, cnf := compiled.value.0, compiled.value.1;
    hide Compile;
    if sorts == [] {
      SpelledAdds(f, weight, abs, cnf, t.Meaning());
      AddGround(t, abs, cnf);
      return;
    }
    if None in sorts {
      return;
    }
    InstancesAddWeight(t.Known(), f, weight, abs, cnf, Groundings(sorts), t.Meaning());
    AddsUpToConstantIff(t.Known(), f, weight, abs, cnf, Groundings(sorts), t.Meaning());
    AddsExactlyIff(t.Known(), f, weight, abs, cnf, Groundings(sorts), t.Meaning());
    InstancesAddHard(t.Known(), f, weight, abs, cnf, Groundings(sorts), t.Meaning());
    AllRuleInstances(t, abs, cnf, KnownSorts(sorts));
  }

  /** The groundings of the example in LogWeight are those of one variable over a sort with one element. */
  lemma ExampleGroundings()
    ensures Groundings([Some(Subrange(0, 1))]) == GROUNDINGS
  {
    assert KnownSorts([Some(Subrange(0, 1))]) == [Subrange(0, 1)];
    assert seq(1, _ => UNSET) == [UNSET];
  }
}
