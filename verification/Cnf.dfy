/** Clausification of nested formulas (src/cnf.c:240-428). */
module Cnf {
  import opened Basics

  /** An argument of a rule atom (src/tables.h:283-298). */
  datatype RuleArg = Constant(value: int) | Variable(index: nat) | Integer(value: int)

  datatype Builtin = NoBuiltin | EQ | NEQ | LT | LE | GT | GE | PLUS | MINUS | TIMES | DIV | REM

  /** pred <= 0 is a direct (observable) predicate, pred > 0 an indirect one. */
  datatype RuleAtom = RuleAtom(pred: int, builtinop: Builtin, args: seq<RuleArg>)

  datatype RuleLit = RuleLit(neg: bool, atom: RuleAtom)

  type RuleClause = seq<RuleLit>

  type ClauseForm = seq<RuleClause>

  /** A leaf holds what atom_to_rule_literal makes of the parsed atom: None for an undeclared predicate,
      a wrong number of arguments or an ill-sorted argument. */
  datatype Formula =
    | Leaf(resolved: Option<RuleAtom>)
    | Not(f: Formula)
    | Or(f: Formula, g: Formula)
    | And(f: Formula, g: Formula)
    | Implies(f: Formula, g: Formula)
    | Xor(f: Formula, g: Formula)
    | Iff(f: Formula, g: Formula)

  function Max(a: nat, b: nat): nat {
    if a >= b then a else b
  }

  /** Nesting depth of connectives. */
  function Height(f: Formula): nat {
    match f
    case Leaf(_) => 0
    case Not(g) => Height(g) + 1
    case Or(g, h) => Max(Height(g), Height(h)) + 1
    case And(g, h) => Max(Height(g), Height(h)) + 1
    case Implies(g, h) => Max(Height(g), Height(h)) + 1
    case Xor(g, h) => Max(Height(g), Height(h)) + 1
    case Iff(g, h) => Max(Height(g), Height(h)) + 1
  }

  // ----- meaning -----

  type Valuation = RuleAtom -> bool

  predicate Resolved(f: Formula) {
    match f
    case Leaf(a) => a.Some?
    case Not(g) => Resolved(g)
    case Or(g, h) => Resolved(g) && Resolved(h)
    case And(g, h) => Resolved(g) && Resolved(h)
    case Implies(g, h) => Resolved(g) && Resolved(h)
    case Xor(g, h) => Resolved(g) && Resolved(h)
    case Iff(g, h) => Resolved(g) && Resolved(h)
  }

  predicate Eval(f: Formula, v: Valuation)
    requires Resolved(f)
  {
    match f
    case Leaf(a) => v(a.value)
    case Not(g) => !Eval(g, v)
    case Or(g, h) => Eval(g, v) || Eval(h, v)
    case And(g, h) => Eval(g, v) && Eval(h, v)
    case Implies(g, h) => Eval(g, v) ==> Eval(h, v)
    case Xor(g, h) => Eval(g, v) != Eval(h, v)
    case Iff(g, h) => Eval(g, v) == Eval(h, v)
  }

  /** The connectives in terms of negation and conjunction, and these in terms of the truth of their arguments. */
  lemma Connectives(f: Formula, g: Formula, v: Valuation)
    requires Resolved(f) && Resolved(g)
    ensures Eval(And(f, g), v) <==> {Eval(f, v), Eval(g, v)} == {true}
    ensures {Eval(Not(f), v), Eval(f, v)} == {false, true}
    ensures Eval(Or(f, g), v) == Eval(Not(And(Not(f), Not(g))), v)
    ensures Eval(Implies(f, g), v) == Eval(Not(And(f, Not(g))), v)
    ensures Eval(Iff(f, g), v) == Eval(And(Implies(f, g), Implies(g, f)), v)
    ensures Eval(Xor(f, g), v) == Eval(Or(And(f, Not(g)), And(Not(f), g)), v)
  {
    assert Eval(f, v) in {Eval(f, v), Eval(g, v)} && Eval(g, v) in {Eval(f, v), Eval(g, v)};
    assert Eval(And(Not(f), Not(g)), v) <==> !Eval(f, v) && !Eval(g, v);
  }

  predicate LitTrue(l: RuleLit, v: Valuation) {
    v(l.atom) != l.neg
  }

  ghost predicate ClauseTrue(c: RuleClause, v: Valuation) {
    exists i :: 0 <= i < |c| && LitTrue(c[i], v)
  }

  ghost predicate FormTrue(cnf: ClauseForm, v: Valuation) {
    forall i :: 0 <= i < |cnf| ==> ClauseTrue(cnf[i], v)
  }

  // ----- product and union -----

  /** c joined with every clause of d, in the order of d. */
  function Distribute(c: RuleClause, d: ClauseForm): (r: ClauseForm)
    ensures |r| == |d|
  {
    seq(|d|, j requires 0 <= j < |d| => c + d[j])
  }

  /** The product of two clause forms, row by row. */
  function Product(c: ClauseForm, d: ClauseForm): ClauseForm {
    if c == [] then [] else Product(c[..|c| - 1], d) + Distribute(c[|c| - 1], d)
  }

  /** NULL on either side gives NULL. */
  function CnfProduct(c: Option<ClauseForm>, d: Option<ClauseForm>): Option<ClauseForm> {
    if c.None? || d.None? then None else Some(Product(c.value, d.value))
  }

  function CnfUnion(c: Option<ClauseForm>, d: Option<ClauseForm>): Option<ClauseForm> {
    if c.None? || d.None? then None else Some(c.value + d.value)
  }

  function CnfLiteral(a: Option<RuleAtom>, neg: bool): Option<ClauseForm> {
    if a.None? then None else Some([[RuleLit(neg, a.value)]])
  }

  function CnfPos(f: Formula): Option<ClauseForm> {
    match f
    case Leaf(a) => CnfLiteral(a, false)
    case Not(g) => CnfNeg(g)
    case Or(g, h) => CnfProduct(CnfPos(g), CnfPos(h))
    case Implies(g, h) => CnfProduct(CnfNeg(g), CnfPos(h))
    case And(g, h) => CnfUnion(CnfPos(g), CnfPos(h))
    case Xor(g, h) => CnfProduct(CnfUnion(CnfPos(g), CnfNeg(h)), CnfUnion(CnfNeg(g), CnfPos(h)))
    case Iff(g, h) => CnfUnion(CnfProduct(CnfPos(g), CnfNeg(h)), CnfProduct(CnfNeg(g), CnfPos(h)))
  }

  function CnfNeg(f: Formula): Option<ClauseForm> {
    match f
    case Leaf(a) => CnfLiteral(a, true)
    case Not(g) => CnfPos(g)
    case Or(g, h) => CnfUnion(CnfNeg(g), CnfNeg(h))
    case Implies(g, h) => CnfUnion(CnfPos(g), CnfNeg(h))
    case And(g, h) => CnfProduct(CnfNeg(g), CnfNeg(h))
    case Xor(g, h) => CnfUnion(CnfProduct(CnfNeg(g), CnfPos(h)), CnfProduct(CnfPos(g), CnfNeg(h)))
    case Iff(g, h) => CnfUnion(CnfProduct(CnfPos(g), CnfPos(h)), CnfProduct(CnfNeg(g), CnfNeg(h)))
  }

  // ----- the meaning is preserved -----

  lemma ClauseTrueAppend(c: RuleClause, d: RuleClause, v: Valuation)
    ensures ClauseTrue(c + d, v) <==> ClauseTrue(c, v) || ClauseTrue(d, v)
  {
    if i :| 0 <= i < |c| && LitTrue(c[i], v) {
      assert LitTrue((c + d)[i], v);
    }
    if i :| 0 <= i < |d| && LitTrue(d[i], v) {
      assert LitTrue((c + d)[|c| + i], v);
    }
  }

  lemma FormTrueAppend(c: ClauseForm, d: ClauseForm, v: Valuation)
    ensures FormTrue(c + d, v) <==> FormTrue(c, v) && FormTrue(d, v)
  {
    assert forall i :: 0 <= i < |c| ==> (c + d)[i] == c[i];
    assert forall i :: 0 <= i < |d| ==> (c + d)[|c| + i] == d[i];
  }

  lemma DistributeTrue(c: RuleClause, d: ClauseForm, v: Valuation)
    ensures FormTrue(Distribute(c, d), v) <==> ClauseTrue(c, v) || FormTrue(d, v)
  {
    forall j | 0 <= j < |d| ensures ClauseTrue(Distribute(c, d)[j], v) <==> ClauseTrue(c, v) || ClauseTrue(d[j], v) {
      ClauseTrueAppend(c, d[j], v);
    }
  }

  /** The product is the disjunction. */
  lemma {:induction false} ProductTrue(c: ClauseForm, d: ClauseForm, v: Valuation)
    ensures FormTrue(Product(c, d), v) <==> FormTrue(c, v) || FormTrue(d, v)
  {
    if c != [] {
      var k := |c| - 1;
      ProductTrue(c[..k], d, v);
      DistributeTrue(c[k], d, v);
      FormTrueAppend(Product(c[..k], d), Distribute(c[k], d), v);
      FormTrueAppend(c[..k], [c[k]], v);
      assert c == c[..k] + [c[k]];
    }
  }

  lemma LiteralTrue(a: RuleAtom, neg: bool, v: Valuation)
    ensures FormTrue([[RuleLit(neg, a)]], v) <==> v(a) != neg
  {
    assert [[RuleLit(neg, a)]][0][0] == RuleLit(neg, a);
  }

  /** Clausification fails exactly when some atom of the formula could not be resolved, in both polarities. */
  lemma {:induction false} CnfExists(f: Formula)
    ensures CnfPos(f).Some? <==> Resolved(f)
    ensures CnfNeg(f).Some? <==> Resolved(f)
  {
    match f
    case Leaf(a) =>
    case Not(g) => CnfExists(g);
    case Or(g, h) => CnfExists(g); CnfExists(h);
    case And(g, h) => CnfExists(g); CnfExists(h);
    case Implies(g, h) => CnfExists(g); CnfExists(h);
    case Xor(g, h) => CnfExists(g); CnfExists(h);
    case Iff(g, h) => CnfExists(g); CnfExists(h);
  }

  lemma XorParts(gp: ClauseForm, gn: ClauseForm, hp: ClauseForm, hn: ClauseForm, v: Valuation)
    ensures FormTrue(Product(gp + hn, gn + hp), v) <==> FormTrue(gp + hn, v) || FormTrue(gn + hp, v)
    ensures FormTrue(Product(gn, hp) + Product(gp, hn), v)
       <==> FormTrue(Product(gn, hp), v) && FormTrue(Product(gp, hn), v)
  {
    ProductTrue(gp + hn, gn + hp, v);
    FormTrueAppend(Product(gn, hp), Product(gp, hn), v);
  }

  lemma IffParts(gp: ClauseForm, gn: ClauseForm, hp: ClauseForm, hn: ClauseForm, v: Valuation)
    ensures FormTrue(Product(gp, hn) + Product(gn, hp), v)
       <==> FormTrue(Product(gp, hn), v) && FormTrue(Product(gn, hp), v)
    ensures FormTrue(Product(gp, hp) + Product(gn, hn), v)
       <==> FormTrue(Product(gp, hp), v) && FormTrue(Product(gn, hn), v)
  {
    FormTrueAppend(Product(gp, hn), Product(gn, hp), v);
    FormTrueAppend(Product(gp, hp), Product(gn, hn), v);
  }

  /** cnf_pos means the formula and cnf_neg its negation, under every valuation. */
  lemma {:induction false} CnfCorrect(f: Formula, v: Valuation)
    requires Resolved(f)
    ensures CnfPos(f).Some? && (FormTrue(CnfPos(f).value, v) <==> Eval(f, v))
    ensures CnfNeg(f).Some? && (FormTrue(CnfNeg(f).value, v) <==> !Eval(f, v))
    decreases Height(f), 0
  {
    hide FormTrue, Product;
    match f
    case Leaf(a) =>
      LiteralTrue(a.value, false, v);
      LiteralTrue(a.value, true, v);
    case Not(g) =>
      CnfCorrect(g, v);
    case Or(g, h) =>
      BothCorrect(g, h, v);
    case And(g, h) =>
      BothCorrect(g, h, v);
    case Implies(g, h) =>
      BothCorrect(g, h, v);
    case Xor(g, h) =>
      BothCorrect(g, h, v);
      XorParts(CnfPos(g).value, CnfNeg(g).value, CnfPos(h).value, CnfNeg(h).value, v);
    case Iff(g, h) =>
      BothCorrect(g, h, v);
      IffParts(CnfPos(g).value, CnfNeg(g).value, CnfPos(h).value, CnfNeg(h).value, v);
  }

  /** The two arguments of a connective, with every product and union the two polarities can form from them. */
  lemma {:induction false} BothCorrect(g: Formula, h: Formula, v: Valuation)
    requires Resolved(g) && Resolved(h)
    ensures CnfPos(g).Some? && CnfNeg(g).Some? && CnfPos(h).Some? && CnfNeg(h).Some?
    ensures FormTrue(CnfPos(g).value, v) == Eval(g, v) == !FormTrue(CnfNeg(g).value, v)
    ensures FormTrue(CnfPos(h).value, v) == Eval(h, v) == !FormTrue(CnfNeg(h).value, v)
    ensures FormTrue(Product(CnfPos(g).value, CnfPos(h).value), v) == (Eval(g, v) || Eval(h, v))
    ensures FormTrue(Product(CnfPos(g).value, CnfNeg(h).value), v) == (Eval(g, v) || !Eval(h, v))
    ensures FormTrue(Product(CnfNeg(g).value, CnfPos(h).value), v) == (!Eval(g, v) || Eval(h, v))
    ensures FormTrue(Product(CnfNeg(g).value, CnfNeg(h).value), v) == (!Eval(g, v) || !Eval(h, v))
    ensures FormTrue(CnfPos(g).value + CnfPos(h).value, v) == (Eval(g, v) && Eval(h, v))
    ensures FormTrue(CnfPos(g).value + CnfNeg(h).value, v) == (Eval(g, v) && !Eval(h, v))
    ensures FormTrue(CnfNeg(g).value + CnfPos(h).value, v) == (!Eval(g, v) && Eval(h, v))
    ensures FormTrue(CnfNeg(g).value + CnfNeg(h).value, v) == (!Eval(g, v) && !Eval(h, v))
    decreases Max(Height(g), Height(h)), 1
  {
    CnfCorrect(g, v);
    CnfCorrect(h, v);
    var gp, gn, hp, hn := CnfPos(g).value, CnfNeg(g).value, CnfPos(h).value, CnfNeg(h).value;
    ProductTrue(gp, hp, v); ProductTrue(gp, hn, v); ProductTrue(gn, hp, v); ProductTrue(gn, hn, v);
    FormTrueAppend(gp, hp, v); FormTrueAppend(gp, hn, v); FormTrueAppend(gn, hp, v); FormTrueAppend(gn, hn, v);
  }

  // ----- size and atoms -----

  ghost function AtomsOfClause(c: RuleClause): set<RuleAtom> {
    set i | 0 <= i < |c| :: c[i].atom
  }

  ghost function AtomsOf(cnf: ClauseForm): set<RuleAtom> {
    set i, k | 0 <= i < |cnf| && 0 <= k < |cnf[i]| :: cnf[i][k].atom
  }

  ghost function Atoms(f: Formula): set<RuleAtom>
    requires Resolved(f)
  {
    match f
    case Leaf(a) => {a.value}
    case Not(g) => Atoms(g)
    case Or(g, h) => Atoms(g) + Atoms(h)
    case And(g, h) => Atoms(g) + Atoms(h)
    case Implies(g, h) => Atoms(g) + Atoms(h)
    case Xor(g, h) => Atoms(g) + Atoms(h)
    case Iff(g, h) => Atoms(g) + Atoms(h)
  }

  /** At least one clause, and no empty clause. */
  ghost predicate Proper(cnf: ClauseForm) {
    |cnf| > 0 && forall i :: 0 <= i < |cnf| ==> cnf[i] != []
  }

  lemma AtomsOfAppend(c: ClauseForm, d: ClauseForm)
    ensures AtomsOf(c + d) == AtomsOf(c) + AtomsOf(d)
  {
    assert forall i :: 0 <= i < |c| ==> (c + d)[i] == c[i];
    assert forall i :: 0 <= i < |d| ==> (c + d)[|c| + i] == d[i];
  }

  lemma AtomsOfDistribute(c: RuleClause, d: ClauseForm)
    requires d != []
    ensures AtomsOf(Distribute(c, d)) == AtomsOfClause(c) + AtomsOf(d)
  {
    var r := Distribute(c, d);
    forall k | 0 <= k < |c| ensures c[k].atom in AtomsOf(r) {
      assert r[0][k] == c[k];
    }
    forall j, k | 0 <= j < |d| && 0 <= k < |d[j]| ensures d[j][k].atom in AtomsOf(r) {
      assert r[j][|c| + k] == d[j][k];
    }
  }

  lemma AtomsOfSingle(c: RuleClause)
    ensures AtomsOf([c]) == AtomsOfClause(c)
  {
    assert [c][0] == c;
  }

  /** The product has exactly |c| * |d| clauses, none empty, over exactly the atoms of both sides. */
  lemma {:induction false} ProductShape(c: ClauseForm, d: ClauseForm)
    ensures |Product(c, d)| == |c| * |d|
    ensures Proper(c) && Proper(d) ==> Proper(Product(c, d)) && AtomsOf(Product(c, d)) == AtomsOf(c) + AtomsOf(d)
  {
    if c != [] {
      var k := |c| - 1;
      ProductShape(c[..k], d);
      assert |c| * |d| == k * |d| + |d|;
      if Proper(c) && Proper(d) {
        assert c == c[..k] + [c[k]];
        AtomsOfAppend(c[..k], [c[k]]);
        AtomsOfSingle(c[k]);
        AtomsOfDistribute(c[k], d);
        AtomsOfAppend(Product(c[..k], d), Distribute(c[k], d));
      }
    }
  }

  /** Row by row: clause i of one form joined with clause j of the other. */
  lemma {:induction false} ProductAt(c: ClauseForm, d: ClauseForm, i: nat, j: nat)
    requires i < |c| && j < |d|
    ensures i * |d| + j < |Product(c, d)| && Product(c, d)[i * |d| + j] == c[i] + d[j]
  {
    var k := |c| - 1;
    ProductShape(c[..k], d);
    ProductShape(c, d);
    if i < k {
      ProductAt(c[..k], d, i, j);
    }
  }

  /** 4^(2^h - 1) by its recurrence; BoundIsPower ties it to the power. */
  function Bound(h: nat): nat {
    if h == 0 then 1 else 4 * (Bound(h - 1) * Bound(h - 1))
  }

  function Power(b: nat, e: nat): nat {
    if e == 0 then 1 else b * Power(b, e - 1)
  }

  lemma Associative(a: nat, b: nat, c: nat)
    ensures a * (b * c) == (a * b) * c
  {
  }

  lemma {:induction false} PowerAdd(b: nat, d: nat, e: nat)
    ensures Power(b, d + e) == Power(b, d) * Power(b, e)
  {
    if d > 0 {
      PowerAdd(b, d - 1, e);
      Associative(b, Power(b, d - 1), Power(b, e));
    }
  }

  lemma {:induction false} BoundIsPower(h: nat)
    ensures Power(2, h) > 0 && Bound(h) == Power(4, Power(2, h) - 1)
  {
    if h > 0 {
      BoundIsPower(h - 1);
      var e := Power(2, h - 1) - 1;
      assert Power(2, h) - 1 == 1 + (e + e);
      PowerAdd(4, 1, e + e);
      PowerAdd(4, e, e);
      assert Power(4, 1) == 4 * Power(4, 0);
    }
  }

  lemma MultiplyMonotone(a: nat, b: nat, c: nat, d: nat)
    requires a <= c && b <= d
    ensures a * b <= c * d
  {
    assert a * b <= c * b;
    assert c * b <= c * d;
  }

  lemma {:induction false} BoundMonotone(g: nat, h: nat)
    requires g <= h
    ensures 1 <= Bound(g) <= Bound(h)
  {
    if g < h {
      BoundMonotone(g, h - 1);
      MultiplyMonotone(1, Bound(h - 1), Bound(h - 1), Bound(h - 1));
    } else if h > 0 {
      BoundMonotone(h - 1, h - 1);
      MultiplyMonotone(1, 1, Bound(h - 1), Bound(h - 1));
    }
  }

  lemma DoubleSquared(n: nat)
    ensures (2 * n) * (2 * n) == 4 * (n * n)
  {
  }

  ghost predicate Fits(c: ClauseForm, atoms: set<RuleAtom>, bound: nat) {
    Proper(c) && AtomsOf(c) == atoms && |c| <= bound
  }

  lemma LiteralFits(a: RuleAtom, neg: bool)
    ensures Fits([[RuleLit(neg, a)]], {a}, 1)
  {
    var c := [RuleLit(neg, a)];
    AtomsOfSingle(c);
    assert c[0].atom == a;
    assert AtomsOfClause(c) == {a};
  }

  lemma UnionFits(c: ClauseForm, d: ClauseForm, a: set<RuleAtom>, b: set<RuleAtom>, n: nat, m: nat)
    requires Fits(c, a, n) && Fits(d, b, n) && 2 * n <= m
    ensures Fits(c + d, a + b, m)
  {
    AtomsOfAppend(c, d);
    assert forall i :: 0 <= i < |c + d| ==> (c + d)[i] == if i < |c| then c[i] else d[i - |c|];
  }

  lemma ProductFits(c: ClauseForm, d: ClauseForm, a: set<RuleAtom>, b: set<RuleAtom>, n: nat, m: nat)
    requires Fits(c, a, n) && Fits(d, b, n) && n * n <= m
    ensures Fits(Product(c, d), a + b, m)
  {
    ProductShape(c, d);
    MultiplyMonotone(|c|, |d|, n, n);
  }

  ghost predicate ArgumentFits(g: Formula, n: nat)
    requires Resolved(g)
  {
    && CnfPos(g).Some? && Fits(CnfPos(g).value, Atoms(g), n)
    && CnfNeg(g).Some? && Fits(CnfNeg(g).value, Atoms(g), n)
  }

  ghost predicate BothFit(g: Formula, h: Formula, n: nat) {
    Resolved(g) && Resolved(h) && ArgumentFits(g, n) && ArgumentFits(h, n) && n > 0
  }

  /** OR, AND and IMPLIES form one product in one polarity and one union in the other. */
  lemma SimpleShape(g: Formula, h: Formula, n: nat)
    requires BothFit(g, h, n)
    ensures ArgumentFits(Or(g, h), 4 * (n * n))
    ensures ArgumentFits(And(g, h), 4 * (n * n))
    ensures ArgumentFits(Implies(g, h), 4 * (n * n))
  {
    hide Fits, Product;
    var a, b := Atoms(g), Atoms(h);
    var gp, gn, hp, hn, m := CnfPos(g).value, CnfNeg(g).value, CnfPos(h).value, CnfNeg(h).value, 4 * (n * n);
    MultiplyMonotone(1, n, n, n);
    UnionFits(gp, hp, a, b, n, m); UnionFits(gp, hn, a, b, n, m); UnionFits(gn, hn, a, b, n, m);
    ProductFits(gp, hp, a, b, n, m); ProductFits(gn, hp, a, b, n, m); ProductFits(gn, hn, a, b, n, m);
  }

  /** XOR forms a product of two unions, the largest of all combinations, or a union of two products. */
  lemma XorShape(g: Formula, h: Formula, n: nat)
    requires BothFit(g, h, n)
    ensures ArgumentFits(Xor(g, h), 4 * (n * n))
  {
    hide Fits, Product;
    var a, b := Atoms(g), Atoms(h);
    var gp, gn, hp, hn := CnfPos(g).value, CnfNeg(g).value, CnfPos(h).value, CnfNeg(h).value;
    assert (a + b) + (a + b) == a + b;
    DoubleSquared(n);
    UnionFits(gp, hn, a, b, n, 2 * n); UnionFits(gn, hp, a, b, n, 2 * n);
    ProductFits(gp + hn, gn + hp, a + b, a + b, 2 * n, 4 * (n * n));
    ProductFits(gn, hp, a, b, n, n * n); ProductFits(gp, hn, a, b, n, n * n);
    UnionFits(Product(gn, hp), Product(gp, hn), a + b, a + b, n * n, 4 * (n * n));
  }

  lemma IffShape(g: Formula, h: Formula, n: nat)
    requires BothFit(g, h, n)
    ensures ArgumentFits(Iff(g, h), 4 * (n * n))
  {
    hide Fits, Product;
    var a, b, m := Atoms(g), Atoms(h), n * n;
    var gp, gn, hp, hn := CnfPos(g).value, CnfNeg(g).value, CnfPos(h).value, CnfNeg(h).value;
    assert (a + b) + (a + b) == a + b;
    ProductFits(gp, hp, a, b, n, m); ProductFits(gp, hn, a, b, n, m);
    ProductFits(gn, hp, a, b, n, m); ProductFits(gn, hn, a, b, n, m);
    UnionFits(Product(gp, hn), Product(gn, hp), a + b, a + b, m, 4 * m);
    UnionFits(Product(gp, hp), Product(gn, hn), a + b, a + b, m, 4 * m);
  }

  lemma BoundStep(h: nat)
    ensures Bound(h + 1) == 4 * (Bound(h) * Bound(h)) && Bound(h) > 0
  {
    BoundMonotone(h, h);
  }

  ghost predicate AllConnectivesFit(g: Formula, h: Formula, k: nat) {
    && Resolved(g) && Resolved(h)
    && ArgumentFits(Or(g, h), k) && ArgumentFits(And(g, h), k) && ArgumentFits(Implies(g, h), k)
    && ArgumentFits(Xor(g, h), k) && ArgumentFits(Iff(g, h), k)
  }

  lemma BothWiden(g: Formula, h: Formula)
    requires Resolved(g) && Resolved(h) && ArgumentFits(g, Bound(Height(g))) && ArgumentFits(h, Bound(Height(h)))
    ensures BothFit(g, h, Bound(Max(Height(g), Height(h))))
  {
    BoundMonotone(Height(g), Max(Height(g), Height(h)));
    BoundMonotone(Height(h), Max(Height(g), Height(h)));
  }

  lemma ConnectiveShape(g: Formula, h: Formula, n: nat)
    requires BothFit(g, h, n)
    ensures AllConnectivesFit(g, h, 4 * (n * n))
  {
    assert Resolved(g) && Resolved(h);
    hide BothFit, ArgumentFits;
    SimpleShape(g, h, n);
    XorShape(g, h, n);
    IffShape(g, h, n);
  }

  /** In either polarity: no empty clause, exactly the atoms of the formula, and at most 4^(2^h - 1) clauses. */
  lemma {:induction false} CnfShape(f: Formula)
    requires Resolved(f)
    ensures ArgumentFits(f, Bound(Height(f)))
    decreases Height(f), 0
  {
    match f
    case Leaf(a) =>
      LiteralFits(a.value, false);
      LiteralFits(a.value, true);
    case Not(g) =>
      CnfShape(g);
      BoundMonotone(Height(g), Height(f));
    case Or(g, h) => ShapeOfBoth(g, h);
    case And(g, h) => ShapeOfBoth(g, h);
    case Implies(g, h) => ShapeOfBoth(g, h);
    case Xor(g, h) => ShapeOfBoth(g, h);
    case Iff(g, h) => ShapeOfBoth(g, h);
  }

  lemma {:induction false} ShapeOfBoth(g: Formula, h: Formula)
    requires Resolved(g) && Resolved(h)
    ensures AllConnectivesFit(g, h, Bound(Max(Height(g), Height(h)) + 1))
    decreases Max(Height(g), Height(h)), 1
  {
    CnfShape(g);
    CnfShape(h);
    BothWiden(g, h);
    BoundStep(Max(Height(g), Height(h)));
    ConnectiveShape(g, h, Bound(Max(Height(g), Height(h))));
  }

  /** Some literal has the i-th quantified variable as an argument. */
  ghost predicate Mentions(cnf: ClauseForm, i: nat) {
    exists j, k :: 0 <= j < |cnf| && 0 <= k < |cnf[j]| && Variable(i) in cnf[j][k].atom.args
  }

  ghost predicate FormulaMentions(f: Formula, i: nat)
    requires Resolved(f)
  {
    exists a :: a in Atoms(f) && Variable(i) in a.args
  }

  lemma MentionsByAtoms(cnf: ClauseForm, i: nat)
    ensures Mentions(cnf, i) <==> exists a :: a in AtomsOf(cnf) && Variable(i) in a.args
  {
    if j, k :| 0 <= j < |cnf| && 0 <= k < |cnf[j]| && Variable(i) in cnf[j][k].atom.args {
      assert cnf[j][k].atom in AtomsOf(cnf);
    }
  }

  /** The rule made from a formula mentions the same variables, so set_fmla_rule_variables renumbers none of them. */
  lemma SameVariables(f: Formula, i: nat)
    requires Resolved(f)
    ensures CnfPos(f).Some? && (Mentions(CnfPos(f).value, i) <==> FormulaMentions(f, i))
    ensures CnfNeg(f).Some? && (Mentions(CnfNeg(f).value, i) <==> FormulaMentions(f, i))
  {
    CnfShape(f);
    MentionsByAtoms(CnfPos(f).value, i);
    MentionsByAtoms(CnfNeg(f).value, i);
  }

  // ----- the loops that build products and unions -----

  /** The inner loops of cnf_product: one conjunct from two clauses. */
  method JoinClauses(c: RuleClause, d: RuleClause) returns (conjunct: RuleClause)
    ensures conjunct == c + d
  {
    var len1, len2 := |c|, |d|;
    var buffer := new RuleLit[len1 + len2](_ => RuleLit(false, RuleAtom(0, NoBuiltin, [])));
    for ii := 0 to len1
      invariant buffer[..ii] == c[..ii]
    {
      buffer[ii] := c[ii];
    }
    for jj := 0 to len2
      invariant buffer[..len1 + jj] == c + d[..jj]
    {
      buffer[len1 + jj] := d[jj];
    }
    conjunct := buffer[..];
    assert buffer[..] == buffer[..len1 + len2];
  }

  lemma RowFits(i: nat, n: nat, m: nat)
    requires i < n
    ensures i * m + m == (i + 1) * m <= n * m
  {
    MultiplyMonotone(i + 1, m, n, m);
  }

  lemma ProductStart(c: ClauseForm, d: ClauseForm)
    ensures Product(c[..0], d) == []
  {
  }

  lemma ProductNext(c: ClauseForm, d: ClauseForm, i: nat)
    requires i < |c|
    ensures Product(c[..i + 1], d) == Product(c[..i], d) + Distribute(c[i], d)
  {
    assert c[..i + 1][..i] == c[..i];
  }

  /** cnf_product: fills an array of exactly n1 * n2 clauses. */
  method ComputeProduct(c: ClauseForm, d: ClauseForm) returns (r: ClauseForm)
    ensures r == Product(c, d)
  {
    hide Product;
    ProductStart(c, d);
    var product := new RuleClause[|c| * |d|](_ => []);
    var idx := 0;
    for i := 0 to |c|
      invariant idx == i * |d| <= |c| * |d|
      invariant product[..idx] == Product(c[..i], d)
    {
      ghost var row := Distribute(c[i], d);
      RowFits(i, |c|, |d|);
      for j := 0 to |d|
        invariant idx == i * |d| + j
        invariant product[..idx] == Product(c[..i], d) + row[..j]
      {
        product[idx] := JoinClauses(c[i], d[j]);
        assert product[..idx + 1] == product[..idx] + [row[j]];
        idx := idx + 1;
      }
      ProductNext(c, d, i);
      assert row[..|d|] == row;
    }
    assert c[..|c|] == c;
    r := product[..idx];
  }

  /** cnf_union: copies both forms behind each other. */
  method ComputeUnion(c: ClauseForm, d: ClauseForm) returns (r: ClauseForm)
    ensures r == c + d
  {
    var union := new RuleClause[|c| + |d|](_ => []);
    for i := 0 to |c|
      invariant union[..i] == c[..i]
    {
      union[i] := c[i];
    }
    for i := 0 to |d|
      invariant union[..|c| + i] == c + d[..i]
    {
      union[|c| + i] := d[i];
    }
    r := union[..];
    assert union[..] == union[..|c| + |d|];
  }
}
