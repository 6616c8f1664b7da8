/** Instantiation of quantified rules and simplification against the evidence
    (src/ground.c:205-360, src/ground.c:549-592, src/ground.c:1631-1704). */
module Grounding {
  import opened Basics
  import opened Builtins
  import opened Cnf

  // ----- ground atoms and worlds -----

  datatype GroundAtom = GroundAtom(pred: int, args: seq<int>)

  type Substitution = seq<int>

  /** The value of an argument; indices of variables always lie inside the substitution. */
  function ArgValue(arg: RuleArg, s: Substitution): int {
    match arg
    case Constant(v) => v
    case Integer(v) => v
    case Variable(i) => if i < |s| then s[i] else 0
  }

  function ArgValues(args: seq<RuleArg>, s: Substitution): seq<int> {
    seq(|args|, i requires 0 <= i < |args| => ArgValue(args[i], s))
  }

  /** rule_atom_to_samp_atom */
  function ToGround(a: RuleAtom, s: Substitution): GroundAtom {
    GroundAtom(a.pred, ArgValues(a.args, s))
  }

  /** rule_atom_is_direct */
  predicate Direct(a: RuleAtom) {
    a.builtinop != NoBuiltin || a.pred <= 0
  }

  type World = GroundAtom -> bool

  type Evidence = set<GroundAtom>

  /** Closed world: an atom of an observable predicate is true exactly when it was asserted. */
  ghost predicate Agrees(w: World, evidence: Evidence) {
    forall g: GroundAtom :: g.pred <= 0 ==> (w(g) <==> g in evidence)
  }

  predicate AtomTrue(w: World, a: RuleAtom, s: Substitution) {
    if a.builtinop != NoBuiltin then CallBuiltin(a.builtinop, ArgValues(a.args, s)) else w(ToGround(a, s))
  }

  /** The valuation of rule atoms that a world and a substitution give. */
  ghost function Val(w: World, s: Substitution): Valuation {
    (a: RuleAtom) => AtomTrue(w, a, s)
  }

  /** A literal of a ground clause, by its atom. */
  datatype GroundLit = GroundLit(neg: bool, atom: GroundAtom)

  type GroundClause = seq<GroundLit>

  ghost predicate GroundClauseTrue(w: World, c: GroundClause) {
    exists i :: 0 <= i < |c| && w(c[i].atom) != c[i].neg
  }

  ghost predicate AllTrue(w: World, cs: seq<GroundClause>) {
    forall i :: 0 <= i < |cs| ==> GroundClauseTrue(w, cs[i])
  }

  // ----- simplification of a clause -----

  /** The value of a direct atom: get_rule_atom_tval. */
  predicate DirectValue(evidence: Evidence, a: RuleAtom, s: Substitution)
    requires Direct(a)
  {
    if a.builtinop != NoBuiltin then CallBuiltin(a.builtinop, ArgValues(a.args, s)) else ToGround(a, s) in evidence
  }

  /** rule_clause_to_samp_clause: None when a direct literal is true, else the indirect literals in order. */
  function Simplify(evidence: Evidence, c: RuleClause, s: Substitution): Option<GroundClause> {
    if c == [] then Some([])
    else
      var front := Simplify(evidence, c[..|c| - 1], s);
      var l := c[|c| - 1];
      if front.None? then None
      else if !Direct(l.atom) then Some(front.value + [GroundLit(l.neg, ToGround(l.atom, s))])
      else if DirectValue(evidence, l.atom, s) != l.neg then None
      else front
  }

  lemma GroundAppend(w: World, c: GroundClause, l: GroundLit)
    ensures GroundClauseTrue(w, c + [l]) <==> GroundClauseTrue(w, c) || w(l.atom) != l.neg
  {
    if i :| 0 <= i < |c| && w(c[i].atom) != c[i].neg {
      assert (c + [l])[i] == c[i];
    }
    assert (c + [l])[|c|] == l;
  }

  /** The simplification is exact: a dropped clause is true, a kept one has the truth value of the substituted clause,
      in every world that agrees with the evidence. */
  lemma {:induction false} SimplifyExact(evidence: Evidence, c: RuleClause, s: Substitution, w: World)
    requires Agrees(w, evidence)
    ensures match Simplify(evidence, c, s)
            case None => ClauseTrue(c, Val(w, s))
            case Some(g) => GroundClauseTrue(w, g) <==> ClauseTrue(c, Val(w, s))
  {
    if c != [] {
      var k := |c| - 1;
      SimplifyExact(evidence, c[..k], s, w);
      assert c == c[..k] + [c[k]];
      ClauseTrueAppend(c[..k], [c[k]], Val(w, s));
      assert ClauseTrue([c[k]], Val(w, s)) <==> LitTrue(c[k], Val(w, s)) by {
        assert [c[k]][0] == c[k];
      }
      if Simplify(evidence, c[..k], s).Some? {
        GroundAppend(w, Simplify(evidence, c[..k], s).value, GroundLit(c[k].neg, ToGround(c[k].atom, s)));
      }
    }
  }

  /** NULL is returned exactly when some direct literal is true. */
  lemma {:induction false} SimplifyNone(evidence: Evidence, c: RuleClause, s: Substitution)
    ensures Simplify(evidence, c, s).None?
       <==> exists i :: 0 <= i < |c| && Direct(c[i].atom) && DirectValue(evidence, c[i].atom, s) != c[i].neg
  {
    if c != [] {
      var k := |c| - 1;
      SimplifyNone(evidence, c[..k], s);
      if i :| 0 <= i < k && Direct(c[..k][i].atom) && DirectValue(evidence, c[..k][i].atom, s) != c[..k][i].neg {
        assert c[i] == c[..k][i];
      }
      if i :| 0 <= i < |c| && Direct(c[i].atom) && DirectValue(evidence, c[i].atom, s) != c[i].neg {
        assert i < k ==> c[..k][i] == c[i];
      }
    }
  }

  /** What is left are the literals of the atoms that are neither builtin nor observable. */
  lemma {:induction false} SimplifyKeeps(evidence: Evidence, c: RuleClause, s: Substitution, l: GroundLit)
    requires Simplify(evidence, c, s).Some?
    ensures l in Simplify(evidence, c, s).value
       <==> exists i :: 0 <= i < |c| && c[i].atom.builtinop == NoBuiltin && c[i].atom.pred > 0
                        && l == GroundLit(c[i].neg, ToGround(c[i].atom, s))
  {
    if c != [] {
      var k := |c| - 1;
      SimplifyKeeps(evidence, c[..k], s, l);
      if i :| 0 <= i < k && c[..k][i].atom.builtinop == NoBuiltin && c[..k][i].atom.pred > 0
              && l == GroundLit(c[..k][i].neg, ToGround(c[..k][i].atom, s)) {
        assert c[i] == c[..k][i];
      }
      if i :| 0 <= i < |c| && c[i].atom.builtinop == NoBuiltin && c[i].atom.pred > 0
              && l == GroundLit(c[i].neg, ToGround(c[i].atom, s)) {
        assert i < k ==> c[..k][i] == c[i];
      }
    }
  }

  // ----- simplification of a rule -----

  /** samp_rule_to_rule_instance keeps the clauses that are neither true nor empty. */
  function Kept(evidence: Evidence, cnf: ClauseForm, s: Substitution): seq<GroundClause> {
    if cnf == [] then []
    else
      var c := Simplify(evidence, cnf[|cnf| - 1], s);
      Kept(evidence, cnf[..|cnf| - 1], s) + if c.Some? && c.value != [] then [c.value] else []
  }

  ghost predicate SimplifiesTo(evidence: Evidence, c: RuleClause, s: Substitution, g: GroundClause) {
    Simplify(evidence, c, s) == Some(g)
  }

  /** Kept are the simplified clauses that have a literal left. */
  lemma {:induction false} KeptMembers(evidence: Evidence, cnf: ClauseForm, s: Substitution, g: GroundClause)
    ensures g in Kept(evidence, cnf, s)
       <==> g != [] && exists i :: 0 <= i < |cnf| && SimplifiesTo(evidence, cnf[i], s, g)
  {
    if cnf != [] {
      var k := |cnf| - 1;
      var front, last := cnf[..k], Simplify(evidence, cnf[k], s);
      KeptMembers(evidence, front, s, g);
      assert g in Kept(evidence, cnf, s) <==> g in Kept(evidence, front, s) || (g != [] && last == Some(g));
      assert last == Some(g) <==> SimplifiesTo(evidence, cnf[k], s, g);
      hide Kept, SimplifiesTo;
      assert forall i :: 0 <= i < k ==> front[i] == cnf[i];
    }
  }

  /** Some clause is false under the evidence alone. The source drops it like a true one. */
  ghost predicate HasEmpty(evidence: Evidence, cnf: ClauseForm, s: Substitution) {
    exists i :: 0 <= i < |cnf| && Simplify(evidence, cnf[i], s) == Some([])
  }

  lemma AllTrueAppend(w: World, cs: seq<GroundClause>, ds: seq<GroundClause>)
    ensures AllTrue(w, cs + ds) <==> AllTrue(w, cs) && AllTrue(w, ds)
  {
    assert forall i :: 0 <= i < |cs| ==> (cs + ds)[i] == cs[i];
    assert forall i :: 0 <= i < |ds| ==> (cs + ds)[|cs| + i] == ds[i];
  }

  lemma HasEmptyAppend(evidence: Evidence, front: ClauseForm, last: RuleClause, s: Substitution)
    ensures HasEmpty(evidence, front + [last], s)
       <==> HasEmpty(evidence, front, s) || Simplify(evidence, last, s) == Some([])
  {
    if i :| 0 <= i < |front| && Simplify(evidence, front[i], s) == Some([]) {
      assert (front + [last])[i] == front[i];
    }
    assert (front + [last])[|front|] == last;
    if i :| 0 <= i < |front + [last]| && Simplify(evidence, (front + [last])[i], s) == Some([]) {
      assert i < |front| ==> front[i] == (front + [last])[i];
    }
  }

  /** The exact meaning of a rule instance: the substituted rule is true iff all kept clauses are and no clause was
      dropped as empty. */
  lemma {:induction false} KeptExact(evidence: Evidence, cnf: ClauseForm, s: Substitution, w: World)
    requires Agrees(w, evidence)
    ensures FormTrue(cnf, Val(w, s)) <==> AllTrue(w, Kept(evidence, cnf, s)) && !HasEmpty(evidence, cnf, s)
  {
    if cnf != [] {
      var k := |cnf| - 1;
      var front, last := cnf[..k], cnf[k];
      KeptExact(evidence, front, s, w);
      SimplifyExact(evidence, last, s, w);
      assert cnf == front + [last];
      FormTrueAppend(front, [last], Val(w, s));
      HasEmptyAppend(evidence, front, last, s);
      var c := Simplify(evidence, last, s);
      assert FormTrue([last], Val(w, s)) <==> ClauseTrue(last, Val(w, s)) by {
        assert [last][0] == last;
      }
      if c.Some? && c.value != [] {
        AllTrueAppend(w, Kept(evidence, front, s), [c.value]);
        assert AllTrue(w, [c.value]) <==> GroundClauseTrue(w, c.value) by {
          assert [c.value][0] == c.value;
        }
      } else {
        assert Kept(evidence, cnf, s) == Kept(evidence, front, s);
      }
    }
  }
}
