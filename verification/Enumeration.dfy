/** The completions of a partial substitution over the sorts of its variables (src/ground.c:549-592). */
module Enumeration {
  import opened Basics

  /** INT32_MIN marks a variable that is not set (src/tables.h:312-316). */
  const UNSET: int := -0x8000_0000

  /** A sort entry: constants, a sparse set of integers, or a subrange (src/tables.h:126-143). */
  datatype Sort = Constants(constants: seq<int>) | Sparse(ints: seq<int>) | Subrange(lower: int, size: nat)

  function Cardinality(sort: Sort): nat {
    match sort
    case Constants(cs) => |cs|
    case Sparse(ints) => |ints|
    case Subrange(_, n) => n
  }

  /** get_sort_const */
  function Element(sort: Sort, i: nat): int
    requires i < Cardinality(sort)
  {
    match sort
    case Constants(cs) => cs[i]
    case Sparse(ints) => ints[i]
    case Subrange(lower, _) => lower + i
  }

  ghost predicate Contains(sort: Sort, x: int) {
    exists i :: 0 <= i < Cardinality(sort) && Element(sort, i) == x
  }

  /** No element is listed twice. */
  ghost predicate DuplicateFree(sort: Sort) {
    forall i, j :: 0 <= i < j < Cardinality(sort) ==> Element(sort, i) != Element(sort, j)
  }

  /** What a sort contains: the listed values, or the integers of the subrange. */
  lemma SortElements(sort: Sort, x: int)
    ensures match sort
            case Constants(cs) => Contains(sort, x) <==> x in cs
            case Sparse(ints) => Contains(sort, x) <==> x in ints
            case Subrange(lower, n) => Contains(sort, x) <==> lower <= x < lower + n
  {
    match sort
    case Constants(cs) =>
      assert forall i :: 0 <= i < |cs| ==> Element(sort, i) == cs[i];
    case Sparse(ints) =>
      assert forall i :: 0 <= i < |ints| ==> Element(sort, i) == ints[i];
    case Subrange(lower, n) =>
      if lower <= x < lower + n {
        assert Element(sort, x - lower) == x;
      }
  }

  /** The order of the elements: as listed, or increasing. A subrange lists no element twice. */
  lemma SortOrder(sort: Sort)
    ensures sort.Subrange? ==> Cardinality(sort) == sort.size && DuplicateFree(sort)
    ensures sort.Subrange? ==> forall i, j :: 0 <= i < j < sort.size ==> Element(sort, i) < Element(sort, j)
    ensures !sort.Subrange? ==>
              var xs := if sort.Constants? then sort.constants else sort.ints;
              && |xs| == Cardinality(sort) && (DuplicateFree(sort) <==> Distinct(xs))
              && forall i :: 0 <= i < |xs| ==> Element(sort, i) == xs[i]
  {
    if !sort.Subrange? {
      var xs := if sort.Constants? then sort.constants else sort.ints;
      assert forall i :: 0 <= i < |xs| ==> Element(sort, i) == xs[i];
      if DuplicateFree(sort) {
        forall i, j | 0 <= i < j < |xs| ensures xs[i] != xs[j] {
          assert Element(sort, i) != Element(sort, j);
        }
      }
    }
  }

  /** all_rule_instances_rec from variable v on: the substitutions that reach substit_rule, in order. */
  function Completions(sorts: seq<Sort>, partial: seq<int>, v: nat): seq<seq<int>>
    requires |partial| == |sorts| && v <= |sorts|
    decreases |sorts| - v, 1
  {
    if v == |sorts| then [partial]
    else if partial[v] != UNSET then Completions(sorts, partial, v + 1)
    else Branches(sorts, partial, v, Cardinality(sorts[v]))
  }

  /** The first n turns of the loop over the elements of the sort of variable v. */
  function Branches(sorts: seq<Sort>, partial: seq<int>, v: nat, n: nat): seq<seq<int>>
    requires |partial| == |sorts| && v < |sorts| && n <= Cardinality(sorts[v])
    decreases |sorts| - v, 0, n
  {
    if n == 0 then []
    else Branches(sorts, partial, v, n - 1) + Completions(sorts, partial[v := Element(sorts[v], n - 1)], v + 1)
  }

  /** full agrees with partial below v and wherever partial is set, and takes the other values from the sorts. */
  ghost predicate Completes(sorts: seq<Sort>, partial: seq<int>, v: nat, full: seq<int>)
    requires |partial| == |sorts|
  {
    && |full| == |sorts|
    && forall i :: 0 <= i < |sorts| ==>
         if i < v || partial[i] != UNSET then full[i] == partial[i] else Contains(sorts[i], full[i])
  }

  /** Exactly the completions are reached. */
  lemma {:induction false} CompletionsExact(sorts: seq<Sort>, partial: seq<int>, v: nat, full: seq<int>)
    requires |partial| == |sorts| && v <= |sorts|
    ensures full in Completions(sorts, partial, v) <==> Completes(sorts, partial, v, full)
    decreases |sorts| - v, 1
  {
    if v == |sorts| {
      assert Completes(sorts, partial, v, full) ==> full == partial;
    } else if partial[v] != UNSET {
      CompletionsExact(sorts, partial, v + 1, full);
    } else {
      var n := Cardinality(sorts[v]);
      BranchesExact(sorts, partial, v, n, full);
      if Completes(sorts, partial, v, full) {
        var i :| 0 <= i < n && Element(sorts[v], i) == full[v];
        assert Completes(sorts, partial[v := Element(sorts[v], i)], v + 1, full);
      }
    }
  }

  lemma {:induction false} BranchesExact(sorts: seq<Sort>, partial: seq<int>, v: nat, n: nat, full: seq<int>)
    requires |partial| == |sorts| && v < |sorts| && n <= Cardinality(sorts[v])
    ensures full in Branches(sorts, partial, v, n)
       <==> exists i :: 0 <= i < n && Completes(sorts, partial[v := Element(sorts[v], i)], v + 1, full)
    decreases |sorts| - v, 0, n
  {
    if n > 0 {
      BranchesExact(sorts, partial, v, n - 1, full);
      CompletionsExact(sorts, partial[v := Element(sorts[v], n - 1)], v + 1, full);
    }
  }

  /** s and t agree up to a variable, and there the element of s comes earlier in the sort than that of t. */
  ghost predicate Precedes(sorts: seq<Sort>, s: seq<int>, t: seq<int>) {
    && |s| == |t| == |sorts|
    && exists v, i, j :: 0 <= v < |sorts| && s[..v] == t[..v] && 0 <= i < j < Cardinality(sorts[v])
                         && Element(sorts[v], i) == s[v] && Element(sorts[v], j) == t[v]
  }

  /** The completions come in lexicographic order, the last variable running fastest. */
  lemma {:induction false} CompletionsOrdered(sorts: seq<Sort>, partial: seq<int>, v: nat, i: nat, j: nat)
    requires |partial| == |sorts| && v <= |sorts| && i < j < |Completions(sorts, partial, v)|
    ensures Precedes(sorts, Completions(sorts, partial, v)[i], Completions(sorts, partial, v)[j])
    decreases |sorts| - v, 1
  {
    if v < |sorts| {
      if partial[v] != UNSET {
        CompletionsOrdered(sorts, partial, v + 1, i, j);
      } else {
        BranchesOrdered(sorts, partial, v, Cardinality(sorts[v]), i, j);
      }
    }
  }

  lemma {:induction false} BranchesOrdered(sorts: seq<Sort>, partial: seq<int>, v: nat, n: nat, i: nat, j: nat)
    requires |partial| == |sorts| && v < |sorts| && n <= Cardinality(sorts[v])
    requires i < j < |Branches(sorts, partial, v, n)|
    ensures Precedes(sorts, Branches(sorts, partial, v, n)[i], Branches(sorts, partial, v, n)[j])
    decreases |sorts| - v, 0, n
  {
    var last := partial[v := Element(sorts[v], n - 1)];
    var before, now := Branches(sorts, partial, v, n - 1), Completions(sorts, last, v + 1);
    if j < |before| {
      BranchesOrdered(sorts, partial, v, n - 1, i, j);
    } else if i >= |before| {
      CompletionsOrdered(sorts, last, v + 1, i - |before|, j - |before|);
    } else {
      var s, t := before[i], now[j - |before|];
      BranchesExact(sorts, partial, v, n - 1, s);
      CompletionsExact(sorts, last, v + 1, t);
      var x :| 0 <= x < n - 1 && Completes(sorts, partial[v := Element(sorts[v], x)], v + 1, s);
      assert s[..v] == partial[..v] == t[..v];
      assert Element(sorts[v], x) == s[v] && Element(sorts[v], n - 1) == t[v];
    }
  }

  lemma DistinctAppend<T>(s: seq<T>, t: seq<T>)
    requires Distinct(s) && Distinct(t) && forall x :: x in s ==> x !in t
    ensures Distinct(s + t)
  {
    assert forall i :: 0 <= i < |s| ==> (s + t)[i] in s;
    assert forall i :: |s| <= i < |s + t| ==> (s + t)[i] == t[i - |s|];
  }

  /** Over duplicate-free sorts each completion is reached exactly once. */
  lemma {:induction false} CompletionsDistinct(sorts: seq<Sort>, partial: seq<int>, v: nat)
    requires |partial| == |sorts| && v <= |sorts|
    requires forall i :: 0 <= i < |sorts| ==> DuplicateFree(sorts[i])
    ensures Distinct(Completions(sorts, partial, v))
    decreases |sorts| - v, 1
  {
    if v < |sorts| {
      if partial[v] != UNSET {
        CompletionsDistinct(sorts, partial, v + 1);
      } else {
        BranchesDistinct(sorts, partial, v, Cardinality(sorts[v]));
      }
    }
  }

  lemma {:induction false} BranchesDistinct(sorts: seq<Sort>, partial: seq<int>, v: nat, n: nat)
    requires |partial| == |sorts| && v < |sorts| && n <= Cardinality(sorts[v])
    requires forall i :: 0 <= i < |sorts| ==> DuplicateFree(sorts[i])
    ensures Distinct(Branches(sorts, partial, v, n))
    decreases |sorts| - v, 0, n
  {
    if n > 0 {
      var last := partial[v := Element(sorts[v], n - 1)];
      var before, now := Branches(sorts, partial, v, n - 1), Completions(sorts, last, v + 1);
      BranchesDistinct(sorts, partial, v, n - 1);
      CompletionsDistinct(sorts, last, v + 1);
      forall full | full in before ensures full !in now {
        BranchesExact(sorts, partial, v, n - 1, full);
        var i :| 0 <= i < n - 1 && Completes(sorts, partial[v := Element(sorts[v], i)], v + 1, full);
        CompletionsExact(sorts, last, v + 1, full);
        assert full[v] == Element(sorts[v], i);
      }
      DistinctAppend(before, now);
    }
  }
}
