/** Truth values, literals and assignments of the atom table
    (src/tables.h:41-120, src/utils.h:72-152, src/utils.c:79-106). */
module TruthValues {

  datatype TruthValue = Undef | False | True | UpFalse | UpTrue | DbFalse | DbTrue

  predicate AssignedTrue(v: TruthValue) {
    v == True || v == DbTrue || v == UpTrue
  }

  predicate AssignedFalse(v: TruthValue) {
    v == False || v == DbFalse || v == UpFalse
  }

  predicate AssignedFixedTrue(v: TruthValue) {
    v == DbTrue || v == UpTrue
  }

  predicate DbTval(v: TruthValue) {
    v == DbTrue || v == DbFalse
  }

  predicate UpTval(v: TruthValue) {
    v == UpTrue || v == UpFalse
  }

  predicate FixedTval(v: TruthValue) {
    v == DbTrue || v == DbFalse || v == UpTrue || v == UpFalse
  }

  predicate UnfixedTval(v: TruthValue) {
    v == True || v == False
  }

  /** Drops the flag left by unit propagation and keeps the truth value. */
  function UnfixTval(v: TruthValue): TruthValue {
    if v == UpTrue then True
    else if v == UpFalse then False
    else v
  }

  /** Literal 2x is atom x, literal 2x+1 its negation. */
  type Literal = nat

  function PosLit(x: nat): Literal { 2 * x }

  function NegLit(x: nat): Literal { 2 * x + 1 }

  function VarOf(l: Literal): nat { l / 2 }

  predicate IsPos(l: Literal) { l % 2 == 0 }

  function Not(l: Literal): Literal {
    if l % 2 == 0 then l + 1 else l - 1
  }

  type Assignment = seq<TruthValue>

  predicate InRange(l: Literal, n: nat) { VarOf(l) < n }

  predicate TrueLit(a: Assignment, l: Literal)
    requires InRange(l, |a|)
  {
    if IsPos(l) then AssignedTrue(a[VarOf(l)]) else AssignedFalse(a[VarOf(l)])
  }

  predicate FalseLit(a: Assignment, l: Literal)
    requires InRange(l, |a|)
  {
    if IsPos(l) then AssignedFalse(a[VarOf(l)]) else AssignedTrue(a[VarOf(l)])
  }

  predicate FixedTrueLit(a: Assignment, l: Literal)
    requires InRange(l, |a|)
  {
    FixedTval(a[VarOf(l)]) && TrueLit(a, l)
  }

  predicate FixedFalseLit(a: Assignment, l: Literal)
    requires InRange(l, |a|)
  {
    FixedTval(a[VarOf(l)]) && FalseLit(a, l)
  }

  // The same tests on an assignment array.

  predicate AssignedTrueLit(a: array<TruthValue>, l: Literal): (r: bool)
    requires InRange(l, a.Length)
    reads a
    ensures r == TrueLit(a[..], l)
  {
    if IsPos(l) then AssignedTrue(a[VarOf(l)]) else AssignedFalse(a[VarOf(l)])
  }

  predicate AssignedFalseLit(a: array<TruthValue>, l: Literal): (r: bool)
    requires InRange(l, a.Length)
    reads a
    ensures r == FalseLit(a[..], l)
  {
    if IsPos(l) then AssignedFalse(a[VarOf(l)]) else AssignedTrue(a[VarOf(l)])
  }

  predicate AssignedFixedTrueLit(a: array<TruthValue>, l: Literal): (r: bool)
    requires InRange(l, a.Length)
    reads a
    ensures r == FixedTrueLit(a[..], l)
  {
    FixedTval(a[VarOf(l)]) && AssignedTrueLit(a, l)
  }

  predicate AssignedFixedFalseLit(a: array<TruthValue>, l: Literal): (r: bool)
    requires InRange(l, a.Length)
    reads a
    ensures r == FixedFalseLit(a[..], l)
  {
    FixedTval(a[VarOf(l)]) && AssignedFalseLit(a, l)
  }

  ghost predicate NoUndef(a: Assignment) {
    forall v :: 0 <= v < |a| ==> a[v] != Undef
  }

  /** The number of atoms whose value is not fixed, the meaning of num_unfixed_vars. */
  function CountUnfixed(a: Assignment): nat {
    if a == [] then 0
    else CountUnfixed(a[..|a| - 1]) + if UnfixedTval(a[|a| - 1]) then 1 else 0
  }

  /** Changing one entry moves the count by exactly the change of that entry. */
  lemma {:induction false} CountUnfixedUpdate(a: Assignment, v: nat, t: TruthValue)
    requires v < |a|
    ensures CountUnfixed(a[v := t]) + (if UnfixedTval(a[v]) then 1 else 0)
         == CountUnfixed(a) + (if UnfixedTval(t) then 1 else 0)
  {
    var n := |a| - 1;
    if v == n {
      assert a[v := t][..n] == a[..n];
    } else {
      assert a[v := t][..n] == a[..n][v := t];
      CountUnfixedUpdate(a[..n], v, t);
    }
  }

  /** An unfixed atom exists exactly when the count is positive. */
  lemma {:induction false} CountUnfixedPositive(a: Assignment)
    ensures CountUnfixed(a) > 0 <==> exists v :: 0 <= v < |a| && UnfixedTval(a[v])
  {
    if a != [] {
      var n := |a| - 1;
      CountUnfixedPositive(a[..n]);
      if v :| 0 <= v < |a| && UnfixedTval(a[v]) {
        assert v < n ==> a[..n][v] == a[v];
      }
      if v :| 0 <= v < |a[..n]| && UnfixedTval(a[..n][v]) {
        assert a[v] == a[..n][v];
      }
    }
  }
}
