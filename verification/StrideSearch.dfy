/** The search for an unfixed atom by a stride that is coprime to the number of atoms
    (src/walksat.c:402-429). */
module StrideSearch {
  import opened TruthValues
  import opened Gcd
  import opened Randomness

  /** The place after i strides of length d around a circle of n atoms. */
  function Place(start: nat, d: nat, n: nat, i: nat): (y: nat)
    requires start < n && d < n
    ensures y < n
  {
    if i == 0 then start
    else
      var y := Place(start, d, n, i - 1) + d;
      if y >= n then y - n else y
  }

  /** How often the walk has passed the end of the circle. */
  ghost function Rounds(start: nat, d: nat, n: nat, i: nat): nat
    requires start < n && d < n
  {
    if i == 0 then 0
    else Rounds(start, d, n, i - 1) + if Place(start, d, n, i - 1) + d >= n then 1 else 0
  }

  lemma OneMore(x: nat, i: nat)
    ensures (i + 1) * x == i * x + x && x * (i + 1) == x * i + x
  {
  }

  lemma {:induction false} PlaceEquation(start: nat, d: nat, n: nat, i: nat)
    requires start < n && d < n
    ensures Place(start, d, n, i) + n * Rounds(start, d, n, i) == start + i * d
  {
    if i > 0 {
      PlaceEquation(start, d, n, i - 1);
      OneMore(d, i - 1);
      OneMore(n, Rounds(start, d, n, i - 1));
    }
  }

  lemma {:induction false} RoundsMonotone(start: nat, d: nat, n: nat, i: nat, j: nat)
    requires start < n && d < n && i <= j
    ensures Rounds(start, d, n, i) <= Rounds(start, d, n, j)
  {
    if i < j {
      RoundsMonotone(start, d, n, i, j - 1);
    }
  }

  lemma FactorMonotone(j: nat, x: nat, y: nat)
    requires j > 0 && x < y
    ensures j * x < j * y
  {
    assert j * y == j * x + j * (y - x);
  }

  lemma CancelFactor(j: nat, x: nat, y: nat)
    requires j > 0 && j * x == j * y
    ensures x == y
  {
    if x < y {
      FactorMonotone(j, x, y);
    } else if y < x {
      FactorMonotone(j, y, x);
    }
  }

  /** Fewer than n strides coprime to n never add up to full circles. */
  lemma {:induction false} NoEarlyMultiple(d: nat, n: nat, j: nat)
    requires IsGcd(1, d, n) && 0 < j < n
    ensures !Divides(n, j * d)
    decreases j
  {
    if Divides(n, j * d) {
      var q, r := n / j, n % j;
      assert n == j * q + r;
      if r == 0 {
        // n = j * q and j * d = n * s give d = q * s: q is a common divisor
        var s: nat :| Quotient(n, s, j * d);
        assert j * d == j * (q * s);
        assert Quotient(q, s, d) by { CancelFactor(j, d, q * s); }
        assert Quotient(q, j, n);
        assert CommonDivisor(q, d, n);
        DividesBound(q, 1);
      } else {
        // n divides n * d and q * (j * d), hence also (n % j) * d
        DividesSelf(n);
        DividesProduct(n, n, d);
        DividesProduct(n, j * d, q);
        assert n * d == (j * d) * q + r * d;
        DividesDifference(n, n * d, (j * d) * q);
        NoEarlyMultiple(d, n, r);
      }
    }
  }

  /** The first n places are pairwise different. */
  lemma PlacesDiffer(start: nat, d: nat, n: nat, i: nat, j: nat)
    requires start < n && d < n && IsGcd(1, d, n) && i < j < n
    ensures Place(start, d, n, i) != Place(start, d, n, j)
  {
    if Place(start, d, n, i) == Place(start, d, n, j) {
      PlaceEquation(start, d, n, i);
      PlaceEquation(start, d, n, j);
      RoundsMonotone(start, d, n, i, j);
      var laps := Rounds(start, d, n, j) - Rounds(start, d, n, i);
      assert (j - i) * d == n * laps;
      assert Quotient(n, laps, (j - i) * d);
      NoEarlyMultiple(d, n, j - i);
    }
  }

  ghost function Visited(start: nat, d: nat, n: nat, k: nat): set<nat>
    requires start < n && d < n
  {
    set i | 0 <= i < k :: Place(start, d, n, i)
  }

  lemma {:induction false} VisitedSize(start: nat, d: nat, n: nat, k: nat)
    requires start < n && d < n && IsGcd(1, d, n) && k <= n
    ensures |Visited(start, d, n, k)| == k
  {
    if k > 0 {
      VisitedSize(start, d, n, k - 1);
      var last := Place(start, d, n, k - 1);
      if last in Visited(start, d, n, k - 1) {
        var i :| 0 <= i < k - 1 && Place(start, d, n, i) == last;
        PlacesDiffer(start, d, n, i, k - 1);
      }
      assert Visited(start, d, n, k) == Visited(start, d, n, k - 1) + {last};
    }
  }

  ghost function Below(n: nat): (s: set<nat>)
    ensures |s| == n
    ensures forall i: nat :: i in s <==> i < n
  {
    if n == 0 then {} else Below(n - 1) + {n - 1}
  }

  lemma SubsetOfEqualSize(s: set<nat>, t: set<nat>)
    requires s <= t && |s| == |t|
    ensures s == t
  {
    assert |t - s| == 0;
  }

  /** The walk reaches every atom within its first n places. */
  lemma WalkReachesAll(start: nat, d: nat, n: nat, u: nat)
    requires start < n && d < n && IsGcd(1, d, n) && u < n
    ensures exists i :: 0 <= i < n && Place(start, d, n, i) == u
  {
    VisitedSize(start, d, n, n);
    assert Visited(start, d, n, n) <= Below(n);
    SubsetOfEqualSize(Visited(start, d, n, n), Below(n));
    assert u in Visited(start, d, n, n);
  }

  /** Steps down from the draw to the first number coprime to n; 1 stops it at the latest. */
  method ChooseStride(n: nat, draw: nat) returns (d: nat)
    requires 0 < draw < n <= UINT32_MAX
    ensures 0 < d <= draw && IsGcd(1, d, n)
    ensures forall e :: d < e <= draw ==> !IsGcd(1, e, n)
  {
    hide IsGcd;
    d := draw;
    var g := Gcd32(d, n);
    while g != 1
      invariant 0 < d <= draw && IsGcd(g, d, n) && g <= d
      invariant forall e :: d < e <= draw ==> !IsGcd(1, e, n)
      decreases d
    {
      if IsGcd(1, d, n) {
        GcdUnique(g, 1, d, n);
      }
      d := d - 1;
      g := Gcd32(d, n);
    }
  }

  /** y is the first unfixed place of a walk from start, at the start itself or by strides coprime to n. */
  ghost predicate FirstOnWalk(a: Assignment, start: nat, d: nat, y: int) {
    && start < |a| && d < |a|
    && (UnfixedTval(a[start]) || IsGcd(1, d, |a|))
    && exists i: nat :: i < |a| && y == Place(start, d, |a|, i) && UnfixedTval(a[y])
         && forall k: nat :: k < i ==> !UnfixedTval(a[Place(start, d, |a|, k)])
  }

  /** The do loop. u is some unfixed atom, which the walk cannot miss. */
  method Walk(assignment: array<TruthValue>, start: nat, d: nat, ghost u: nat) returns (y: nat, ghost i: nat)
    requires start < assignment.Length <= UINT32_MAX / 2 && u < assignment.Length
    requires 0 < d < assignment.Length && IsGcd(1, d, assignment.Length)
    requires !UnfixedTval(assignment[start]) && UnfixedTval(assignment[u])
    ensures y < assignment.Length && UnfixedTval(assignment[y])
    ensures 0 < i < assignment.Length && y == Place(start, d, assignment.Length, i)
    ensures forall k: nat :: k < i ==> !UnfixedTval(assignment[Place(start, d, assignment.Length, k)])
  {
    var n := assignment.Length;
    WalkReachesAll(start, d, n, u);
    ghost var last :| 0 <= last < n && Place(start, d, n, last) == u;
    i := 0;
    y := start;
    while true
      invariant 0 <= i < last && y == Place(start, d, n, i)
      invariant forall k :: 0 <= k <= i ==> !UnfixedTval(assignment[Place(start, d, n, k)])
      decreases last - i
    {
      y := y + d;
      if y >= n {
        y := y - n;
      }
      i := i + 1;
      PlacesDiffer(start, d, n, 0, i);
      assert start != y;
      if UnfixedTval(assignment[y]) {
        return;
      }
    }
  }

  /** choose_unfixed_variable: -1 only when no atom is unfixed, otherwise the first unfixed atom on the walk that the
      draws determine. */
  method ChooseUnfixedVariable(assignment: array<TruthValue>, numUnfixedVars: nat)
    returns (v: int, ghost start: nat, ghost d: nat)
    requires assignment.Length <= UINT32_MAX / 2
    requires numUnfixedVars == CountUnfixed(assignment[..])
    ensures v == -1 <==> forall u :: 0 <= u < assignment.Length ==> !UnfixedTval(assignment[u])
    ensures v != -1 ==> 0 <= v < assignment.Length && UnfixedTval(assignment[v])
    ensures v != -1 ==> FirstOnWalk(assignment[..], start, d, v)
  {
    var n := assignment.Length;
    CountUnfixedPositive(assignment[..]);
    start, d := 0, 0;
    if numUnfixedVars == 0 {
      return -1, start, d;
    }
    ghost var u :| 0 <= u < |assignment[..]| && UnfixedTval(assignment[..][u]);
    assert UnfixedTval(assignment[u]);
    var first := GenrandUint(n);
    start := first;
    if UnfixedTval(assignment[first]) {
      assert Place(first, d, n, 0) == first;
      return first, start, d;
    }
    var draw := GenrandUint(n - 1);
    var stride := ChooseStride(n, 1 + draw);
    d := stride;
    ghost var i;
    v, i := Walk(assignment, first, stride, u);
    assert forall k: nat :: k < i ==> !UnfixedTval(assignment[..][Place(first, stride, n, k)]);
  }
}
