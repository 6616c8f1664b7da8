/** Matching a ground atom against a rule atom (src/ground.c:1506-1545). */
module AtomMatching {
  import opened Cnf
  import opened Grounding
  import opened Enumeration

  /** The variables of the atom fit the buffer, which is assumed to be large enough. */
  ghost predicate FitsBuffer(a: RuleAtom, size: nat) {
    forall i :: 0 <= i < |a.args| && a.args[i].Variable? ==> a.args[i].index < size
  }

  /** Some substitution of the buffer's size maps the rule atom to the ground atom. */
  ghost predicate Matches(g: GroundAtom, a: RuleAtom, size: nat) {
    exists s: Substitution :: |s| == size && ToGround(a, s) == g
  }

  /** What the loop tests on the first n arguments: constants agree, and a later occurrence of a variable agrees with
      an earlier one, unless the earlier value is the mark for an unset variable. */
  ghost predicate Accepts(g: GroundAtom, a: RuleAtom, n: nat)
    requires n <= |a.args| == |g.args|
  {
    && (forall i :: 0 <= i < n && !a.args[i].Variable? ==> g.args[i] == a.args[i].value)
    && forall i, j :: 0 <= i < j < n && a.args[i].Variable? && a.args[i] == a.args[j] ==>
         g.args[i] == g.args[j] || g.args[i] == UNSET
  }

  /** The value the buffer holds for variable v after n arguments: that of its last occurrence. */
  ghost predicate Holds(g: GroundAtom, a: RuleAtom, n: nat, v: nat, x: int)
    requires n <= |a.args| == |g.args|
  {
    && (forall i :: 0 <= i < n && a.args[i] == Variable(v) ==> g.args[i] == x || g.args[i] == UNSET)
    && (x == UNSET || exists i :: 0 <= i < n && a.args[i] == Variable(v) && g.args[i] == x)
  }

  /** An unset mark followed by a real value of the same variable: the one case the loop gets wrong. */
  ghost predicate MarkBeforeValue(g: GroundAtom, a: RuleAtom)
    requires |a.args| == |g.args|
  {
    exists i, j :: 0 <= i < j < |a.args| && a.args[i].Variable? && a.args[i] == a.args[j]
                   && g.args[i] == UNSET && g.args[j] != UNSET
  }

  /** match_atom_in_rule_atom */
  method MatchAtomInRuleAtom(g: GroundAtom, a: RuleAtom, buffer: array<int>) returns (r: bool)
    requires |a.args| == |g.args| && FitsBuffer(a, buffer.Length)
    modifies buffer
    ensures r <==> g.pred == a.pred && Accepts(g, a, |a.args|)
    ensures r ==> forall v :: 0 <= v < buffer.Length ==> Holds(g, a, |a.args|, v, buffer[v])
  {
    if g.pred != a.pred {
      return false;
    }
    for i := 0 to buffer.Length
      invariant forall v :: 0 <= v < i ==> buffer[v] == UNSET
    {
      buffer[i] := UNSET;
    }
    for i := 0 to |a.args|
      invariant Accepts(g, a, i)
      invariant forall v :: 0 <= v < buffer.Length ==> Holds(g, a, i, v, buffer[v])
    {
      match a.args[i]
      case Variable(v) =>
        if buffer[v] == UNSET {
          buffer[v] := g.args[i];
        } else if buffer[v] != g.args[i] {
          return false;
        }
      case _ =>
        if g.args[i] != a.args[i].value {
          return false;
        }
    }
    return true;
  }

  lemma MatchingValues(g: GroundAtom, a: RuleAtom, s: Substitution)
    requires ToGround(a, s) == g
    ensures |a.args| == |g.args| && forall i :: 0 <= i < |a.args| ==> g.args[i] == ArgValue(a.args[i], s)
  {
  }

  ghost function ValueOf(g: GroundAtom, a: RuleAtom, v: nat): int
    requires |a.args| == |g.args|
  {
    if i :| 0 <= i < |a.args| && a.args[i] == Variable(v) then g.args[i] else UNSET
  }

  lemma ReadBack(g: GroundAtom, a: RuleAtom, s: Substitution)
    requires |a.args| == |g.args| && FitsBuffer(a, |s|) && g.pred == a.pred && Accepts(g, a, |a.args|)
    requires forall v, i :: 0 <= v < |s| && 0 <= i < |a.args| && a.args[i] == Variable(v) ==> s[v] == g.args[i]
    ensures ToGround(a, s) == g
  {
  }

  /** The test is right exactly when no unset mark precedes a real value of the same variable. In particular it is
      right for every atom without the mark among its arguments. */
  lemma MatchIsExact(g: GroundAtom, a: RuleAtom, size: nat)
    requires |a.args| == |g.args| && FitsBuffer(a, size) && g.pred == a.pred
    ensures (Accepts(g, a, |a.args|) <==> Matches(g, a, size)) <==> !(Accepts(g, a, |a.args|) && MarkBeforeValue(g, a))
  {
    if Matches(g, a, size) {
      var s: Substitution :| |s| == size && ToGround(a, s) == g;
      MatchingValues(g, a, s);
    }
    if Accepts(g, a, |a.args|) && !MarkBeforeValue(g, a) {
      var s := seq(size, v requires 0 <= v => ValueOf(g, a, v));
      ReadBack(g, a, s);
    }
  }

  /** An INT32_MIN argument with another value behind it. */
  ghost predicate MarkBefore(g: GroundAtom) {
    exists i, j :: 0 <= i < j < |g.args| && g.args[i] == UNSET && g.args[j] != UNSET
  }

  /** The test is right for a rule atom whose variables fit. */
  ghost predicate RightFor(g: GroundAtom, a: RuleAtom, size: nat) {
    g.pred == a.pred && |a.args| == |g.args| && FitsBuffer(a, size) ==>
      (Accepts(g, a, |a.args|) <==> Matches(g, a, size))
  }

  /** One variable at both places and the right constants elsewhere. */
  lemma WrongAtom(g: GroundAtom, size: nat, i: nat, j: nat)
    requires size > 0 && i < j < |g.args| && g.args[i] == UNSET && g.args[j] != UNSET
    ensures exists a :: !RightFor(g, a, size)
  {
    var args := seq(|g.args|, k requires 0 <= k < |g.args| =>
                      if k == i || k == j then Variable(0) else Constant(g.args[k]));
    var a := RuleAtom(g.pred, NoBuiltin, args);
    assert a.args[i] == a.args[j] == Variable(0);
    assert Accepts(g, a, |a.args|) && MarkBeforeValue(g, a);
    MatchIsExact(g, a, size);
    assert !RightFor(g, a, size);
  }

  /** For all rule atoms of its predicate the test is right for a ground atom iff no INT32_MIN argument has another
      value behind it. */
  lemma RightForAllIff(g: GroundAtom, size: nat)
    requires size > 0
    ensures (forall a :: RightFor(g, a, size)) <==> !MarkBefore(g)
  {
    if i, j :| 0 <= i < j < |g.args| && g.args[i] == UNSET && g.args[j] != UNSET {
      WrongAtom(g, size, i, j);
    } else {
      forall a ensures RightFor(g, a, size) {
        if g.pred == a.pred && |a.args| == |g.args| && FitsBuffer(a, size) {
          MatchIsExact(g, a, size);
        }
      }
    }
  }

  /** An input for which the test is wrong: the mark as first and another value as second argument are taken for one
      variable. */
  lemma MarkIsOverwritten(size: nat)
    requires size > 0
    ensures var a := RuleAtom(1, NoBuiltin, [Variable(0), Variable(0)]);
      var g := GroundAtom(1, [UNSET, 5]);
      FitsBuffer(a, size) && Accepts(g, a, 2) && !Matches(g, a, size)
  {
    var a, g := RuleAtom(1, NoBuiltin, [Variable(0), Variable(0)]), GroundAtom(1, [UNSET, 5]);
    forall s: Substitution | |s| == size ensures ToGround(a, s) != g {
      assert ToGround(a, s).args[0] == ToGround(a, s).args[1];
    }
  }

  /** The buffer a successful match leaves is the least matching substitution: it gives the ground atom back, and every
      other match agrees with it wherever it is set. */
  lemma LeastMatch(g: GroundAtom, a: RuleAtom, b: Substitution, s: Substitution)
    requires |a.args| == |g.args| && FitsBuffer(a, |b|) && g.pred == a.pred
    requires Accepts(g, a, |a.args|) && forall v :: 0 <= v < |b| ==> Holds(g, a, |a.args|, v, b[v])
    requires |s| == |b| && ToGround(a, s) == g
    ensures ToGround(a, b) == g
    ensures forall v :: 0 <= v < |b| && b[v] != UNSET ==> s[v] == b[v]
  {
    MatchingValues(g, a, s);
    forall v, i | 0 <= v < |b| && 0 <= i < |a.args| && a.args[i] == Variable(v) ensures b[v] == g.args[i] {
      assert Holds(g, a, |a.args|, v, b[v]);
    }
    ReadBack(g, a, b);
  }
}
