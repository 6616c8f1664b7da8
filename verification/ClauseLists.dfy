/** Intrusive singly linked clause lists (src/clause_list.c, src/clause_list.h:13-58),
    at the level of the link, head, tail and length fields. */
module ClauseLists {
  import opened Basics
  import opened TruthValues

  /** A ground clause; link threads it into at most one list (src/tables.h:234-243). */
  class Clause {
    const lits: seq<Literal>
    const ruleIndex: nat
    var link: Clause?

    constructor (lits: seq<Literal>, ruleIndex: nat)
      ensures this.lits == lits && this.ruleIndex == ruleIndex && link == null
    {
      this.lits := lits;
      this.ruleIndex := ruleIndex;
      link := null;
    }
  }

  // ----- chains as sequences -----

  function InsertAt<T>(s: seq<T>, k: nat, x: T): seq<T>
    requires k <= |s|
  {
    s[..k] + [x] + s[k..]
  }

  function RemoveAt<T>(s: seq<T>, k: nat): seq<T>
    requires k < |s|
  {
    s[..k] + s[k + 1..]
  }

  lemma InsertedChain<T>(s: seq<T>, k: nat, x: T)
    requires Distinct(s) && 0 < k <= |s| && x !in s
    ensures var r := InsertAt(s, k, x);
      && |r| == |s| + 1 && Distinct(r) && r[k] == x && r[1..] == InsertAt(s[1..], k - 1, x)
      && (forall i :: 0 <= i < k ==> r[i] == s[i]) && (forall i :: k < i <= |s| ==> r[i] == s[i - 1])
  {
  }

  lemma RemovedChain<T>(s: seq<T>, k: nat)
    requires Distinct(s) && 0 < k < |s|
    ensures var r := RemoveAt(s, k);
      && |r| == |s| - 1 && Distinct(r) && r[1..] == RemoveAt(s[1..], k - 1)
      && (forall i :: 0 <= i < k ==> r[i] == s[i]) && (forall i :: k <= i < |r| ==> r[i] == s[i + 1])
  {
  }

  /** Two chains with no common node join into one once the second sentinel is skipped. */
  function Join<T>(s: seq<T>, t: seq<T>): seq<T>
    requires |t| > 0
  {
    s + t[1..]
  }

  lemma JoinedChain<T>(s: seq<T>, t: seq<T>)
    requires Distinct(s) && Distinct(t) && |s| > 0 && |t| > 0
    requires forall x :: x in t ==> x !in s
    ensures var r := Join(s, t);
      && |r| == |s| + |t| - 1 && Distinct(r) && r[1..] == s[1..] + t[1..]
      && (forall i :: 0 <= i < |s| ==> r[i] == s[i]) && (forall i :: |s| <= i < |r| ==> r[i] == t[i - |s| + 1])
  {
    var u := Join(s, t);
    forall i, j | 0 <= i < j < |u| ensures u[i] != u[j] {
      if j >= |s| {
        assert u[j] == t[j - |s| + 1];
        assert if i >= |s| then u[i] == t[i - |s| + 1] else u[i] in s;
      }
    }
  }

  /** Each node links to the next. */
  ghost predicate Linked(s: seq<Clause>)
    reads s
  {
    forall i :: 0 <= i < |s| - 1 ==> s[i].link == s[i + 1]
  }

  lemma OneNode(x: Clause)
    ensures Distinct([x]) && Linked([x])
  {
  }

  lemma LinkedInsert(s: seq<Clause>, k: nat, x: Clause)
    requires 0 < k <= |s| && s[k - 1].link == x && (k < |s| ==> x.link == s[k])
    requires forall i :: 0 <= i < |s| - 1 && i != k - 1 ==> s[i].link == s[i + 1]
    ensures Linked(InsertAt(s, k, x))
  {
  }

  lemma LinkedRemove(s: seq<Clause>, k: nat)
    requires 0 < k < |s| && (k + 1 < |s| ==> s[k - 1].link == s[k + 1])
    requires forall i :: 0 <= i < |s| - 1 && i != k - 1 && i != k ==> s[i].link == s[i + 1]
    ensures Linked(RemoveAt(s, k))
  {
  }

  lemma LinkedJoin(s: seq<Clause>, t: seq<Clause>)
    requires |s| > 0 && |t| > 0 && (|t| > 1 ==> s[|s| - 1].link == t[1])
    requires forall i :: 0 <= i < |s| - 1 ==> s[i].link == s[i + 1]
    requires forall i :: 0 < i < |t| - 1 ==> t[i].link == t[i + 1]
    ensures Linked(Join(s, t))
  {
  }

  /** The sentinel head is never a member. The ghost field nodes is the sentinel followed by the members. */
  class ClauseList {
    const head: Clause
    var tail: Clause
    var length: nat
    ghost var nodes: seq<Clause>

    ghost function Contents(): seq<Clause>
      reads this
      requires |nodes| > 0
    {
      nodes[1..]
    }

    /** Acyclic chain from the sentinel to tail, with the right length. */
    ghost predicate Valid()
      reads this, nodes
    {
      && |nodes| == length + 1
      && nodes[0] == head
      && tail == nodes[length]
      && tail.link == null
      && Linked(nodes)
      && Distinct(nodes)
    }

    /** init_clause_list */
    constructor ()
      ensures Valid() && Contents() == [] && fresh(head)
    {
      var sentinel := new Clause([], 0);
      head := sentinel;
      tail := sentinel;
      length := 0;
      nodes := [sentinel];
    }

    /** empty_clause_list: the old members keep their stale links. */
    method Empty()
      requires Valid()
      modifies this, head
      ensures Valid() && Contents() == []
    {
      head.link := null;
      tail := head;
      length := 0;
      nodes := [head];
    }

    /** clause_list_insert: puts clause behind ptr, the k-th node. */
    method Insert(clause: Clause, ptr: Clause, ghost k: nat)
      requires Valid() && k <= length && ptr == nodes[k]
      requires clause !in nodes
      modifies this, clause, ptr
      ensures Valid()
      ensures nodes == InsertAt(old(nodes), k + 1, clause)
      ensures Contents() == InsertAt(old(Contents()), k, clause)
    {
      ghost var was := nodes;
      assert forall i :: 0 <= i < |was| && i != k ==> was[i] != ptr;
      InsertedChain(was, k + 1, clause);
      hide Distinct, InsertAt;
      clause.link := ptr.link;
      ptr.link := clause;
      if tail == ptr {
        tail := clause;
      }
      length := length + 1;
      LinkedInsert(was, k + 1, clause);
      nodes := InsertAt(was, k + 1, clause);
    }

    /** clause_list_insert_head */
    method InsertHead(clause: Clause)
      requires Valid() && clause !in nodes
      modifies this, clause, head
      ensures Valid()
      ensures Contents() == [clause] + old(Contents())
    {
      Insert(clause, head, 0);
    }

    /** clause_list_insert_tail */
    method InsertTail(clause: Clause)
      requires Valid() && clause !in nodes
      modifies this, clause, tail
      ensures Valid()
      ensures Contents() == old(Contents()) + [clause]
    {
      Insert(clause, tail, length);
    }

    /** clause_list_pop: unlinks the clause behind ptr, the k-th node. */
    method Pop(ptr: Clause, ghost k: nat) returns (clause: Clause)
      requires Valid() && k < length && ptr == nodes[k]
      modifies this, ptr, nodes[k + 1]
      ensures Valid()
      ensures clause == old(nodes[k + 1]) && clause.link == null
      ensures nodes == RemoveAt(old(nodes), k + 1)
      ensures Contents() == RemoveAt(old(Contents()), k)
    {
      ghost var was := nodes;
      assert forall i :: 0 <= i < |was| && i != k ==> was[i] != ptr;
      assert forall i :: 0 <= i < |was| && i != k + 1 ==> was[i] != was[k + 1];
      RemovedChain(was, k + 1);
      hide Distinct, RemoveAt;
      assert ptr.link == was[k + 1];
      clause := ptr.link;
      if tail == clause {
        tail := ptr;
      }
      ptr.link := clause.link;
      clause.link := null;
      length := length - 1;
      LinkedRemove(was, k + 1);
      nodes := RemoveAt(was, k + 1);
    }

    /** clause_list_pop_head */
    method PopHead() returns (clause: Clause)
      requires Valid() && length > 0
      modifies this, head, nodes[1]
      ensures Valid()
      ensures clause == old(Contents())[0] && clause.link == null
      ensures Contents() == old(Contents())[1..]
    {
      clause := Pop(head, 0);
    }

    /** clause_list_concat: appends this list to dst and leaves this one empty. */
    method ConcatTo(dst: ClauseList)
      requires Valid() && dst.Valid()
      requires this != dst
      requires forall c :: c in nodes ==> c !in dst.nodes
      modifies this, head, dst, dst.tail
      ensures Valid() && dst.Valid()
      ensures Contents() == []
      ensures dst.Contents() == old(dst.Contents() + Contents())
    {
      ghost var front, back, last := dst.nodes, nodes, dst.tail;
      JoinedChain(front, back);
      assert forall i :: 0 <= i < |front| - 1 ==> front[i] != last && front[i] !in back;
      assert last in front && forall i :: 0 < i < |back| ==> back[i] != head && back[i] !in front;
      hide Distinct, Join;
      dst.tail.link := head.link;
      if length != 0 {
        dst.tail := tail;
      }
      dst.length := dst.length + length;
      head.link := null;
      tail := head;
      length := 0;
      LinkedJoin(front, back);
      dst.nodes := Join(front, back);
      nodes := [head];
      OneNode(head);
    }

    /** choose_random_clause: idx is the drawn position. */
    method Nth(idx: nat) returns (clause: Clause)
      requires Valid() && idx < length
      ensures clause == Contents()[idx]
    {
      var ptr := head;
      var i := idx;
      while i > 0
        invariant 0 <= i <= idx
        invariant ptr == nodes[idx - i]
      {
        ptr := ptr.link;
        i := i - 1;
      }
      assert ptr.link == nodes[idx + 1];
      clause := ptr.link;
    }
  }
}
