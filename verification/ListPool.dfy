/** The clause lists of the rule instance table side by side (src/tables.h:265-274).
    The pool owns every list header, every sentinel and every clause. Its operations are those of
    src/clause_list.c on one or two lists; what they prove is that the whole collection stays a
    collection of acyclic chains that share no clause. */
module ListPool {
  import opened Basics
  import opened ClauseLists

  ghost predicate NoShared(view: seq<seq<Clause>>) {
    forall i, j, c :: 0 <= i < |view| && 0 <= j < |view| && c in view[i] && c in view[j] ==> i == j
  }

  class Pool {
    const lists: seq<ClauseList>
    ghost const clauses: set<Clause>
    ghost const repr: set<object>
    /** The members of every list. */
    ghost var view: seq<seq<Clause>>

    ghost predicate Owned()
      reads this, repr
    {
      && this in repr
      && clauses <= repr
      && |view| == |lists|
      && (forall i :: 0 <= i < |lists| ==> lists[i] in repr && lists[i].head in repr)
      && (forall i :: 0 <= i < |lists| ==> lists[i].head !in clauses)
      && (forall i, j :: 0 <= i < j < |lists| ==> lists[i] != lists[j] && lists[i].head != lists[j].head)
      && (forall i, c :: 0 <= i < |lists| && c in view[i] ==> c in clauses)
      && (forall i :: 0 <= i < |lists| ==>
            |lists[i].nodes| > 0 && lists[i].nodes[0] == lists[i].head && lists[i].Contents() == view[i])
    }

    /** No clause is in two lists. */
    ghost predicate Disjoint()
      reads this
    {
      NoShared(view)
    }

    ghost predicate Valid()
      reads this, repr
    {
      && Owned()
      && Disjoint()
      && forall i :: 0 <= i < |lists| ==> lists[i].Valid()
    }

    /** init_clause_list for every list of the table. */
    constructor (size: nat, ghost clauses: set<Clause>)
      ensures Valid() && |lists| == size && this.clauses == clauses
      ensures view == seq(size, _ => []) && fresh(repr - clauses)
    {
      var made: seq<ClauseList> := [];
      ghost var objects: set<object> := {};
      while |made| < size
        invariant |made| <= size && fresh(objects)
        invariant forall i :: 0 <= i < |made| ==> made[i] in objects && made[i].head in objects
        invariant forall i :: 0 <= i < |made| ==> made[i].Valid() && made[i].nodes == [made[i].head]
        invariant forall i, j :: 0 <= i < j < |made| ==> made[i] != made[j] && made[i].head != made[j].head
      {
        var list := new ClauseList();
        assert list.nodes == [list.head] + list.Contents();
        made, objects := made + [list], objects + {list, list.head};
      }
      lists := made;
      this.clauses := clauses;
      repr := clauses + objects + {this};
      view := seq(size, _ => []);
    }

    /** A list shares neither header nor node with another one. */
    lemma Apart(i: nat, j: nat)
      requires Owned() && Disjoint() && i < |lists| && j < |lists| && i != j
      ensures lists[i] != lists[j]
      ensures forall c :: c in lists[i].nodes ==> c !in lists[j].nodes
    {
      assert forall c :: c in lists[j].nodes ==> c == lists[j].head || c in lists[j].Contents();
      assert forall c :: c in lists[i].nodes ==> c == lists[i].head || c in lists[i].Contents();
      forall c | c in lists[i].nodes ensures c !in lists[j].nodes {
        assert c == lists[i].head || c in view[i];
      }
    }

    lemma ApartFromAll(i: nat)
      requires Owned() && Disjoint() && i < |lists|
      ensures forall j :: 0 <= j < |lists| && j != i ==> lists[i] != lists[j]
      ensures forall j, c :: 0 <= j < |lists| && j != i && c in lists[i].nodes ==> c !in lists[j].nodes
    {
      forall j | 0 <= j < |lists| && j != i
        ensures lists[i] != lists[j]
        ensures forall c :: c in lists[i].nodes ==> c !in lists[j].nodes
      {
        Apart(i, j);
      }
    }

    /** The members of a list after its view was replaced still come from the pool and are nowhere else. */
    lemma ViewUpdate(i: nat, xs: seq<Clause>)
      requires i < |view| && Disjoint()
      requires forall c, j :: c in xs && 0 <= j < |view| && j != i ==> c !in view[j]
      ensures NoShared(view[i := xs])
    {
    }

    lemma PoppedIsGone(i: nat)
      requires Owned() && Disjoint() && i < |lists| && view[i] != [] && lists[i].Valid()
      ensures view[i][0] !in view[i][1..]
      ensures forall j :: 0 <= j < |view| && j != i ==> view[i][0] !in view[j]
    {
    }

    method Empty(i: nat)
      requires Valid() && i < |lists|
      modifies repr
      ensures Valid() && view == old(view)[i := []]
    {
      ApartFromAll(i);
      ViewUpdate(i, []);
      hide NoShared, Distinct, Linked;
      lists[i].Empty();
      view := view[i := []];
    }

    /** clause_list_insert_head of a clause that is in no list. */
    method InsertHead(i: nat, clause: Clause)
      requires Valid() && i < |lists|
      requires clause in clauses && forall j :: 0 <= j < |view| ==> clause !in view[j]
      modifies repr
      ensures Valid() && view == old(view)[i := [clause] + old(view)[i]]
    {
      ApartFromAll(i);
      assert forall j :: 0 <= j < |lists| ==> clause !in lists[j].nodes;
      ghost var xs := [clause] + view[i];
      ViewUpdate(i, xs);
      hide NoShared, Distinct, Linked;
      lists[i].InsertHead(clause);
      view := view[i := xs];
    }

    /** clause_list_insert_tail of a clause that is in no list. */
    method InsertTail(i: nat, clause: Clause)
      requires Valid() && i < |lists|
      requires clause in clauses && forall j :: 0 <= j < |view| ==> clause !in view[j]
      modifies repr
      ensures Valid() && view == old(view)[i := old(view)[i] + [clause]]
    {
      ApartFromAll(i);
      assert forall j :: 0 <= j < |lists| ==> clause !in lists[j].nodes;
      ghost var xs := view[i] + [clause];
      ViewUpdate(i, xs);
      assert lists[i].tail in lists[i].nodes;
      hide NoShared, Distinct, Linked;
      lists[i].InsertTail(clause);
      view := view[i := xs];
    }

    /** clause_list_pop_head: the popped clause is then in no list. */
    method PopHead(i: nat) returns (clause: Clause)
      requires Valid() && i < |lists| && view[i] != []
      modifies repr
      ensures Valid()
      ensures clause == old(view)[i][0] && view == old(view)[i := old(view)[i][1..]]
      ensures clause in clauses && forall j :: 0 <= j < |view| ==> clause !in view[j]
    {
      ApartFromAll(i);
      ghost var xs := view[i][1..];
      assert view[i][0] in view[i];
      assert lists[i].nodes[1] in lists[i].nodes;
      ViewUpdate(i, xs);
      PoppedIsGone(i);
      hide NoShared, Distinct, Linked;
      clause := lists[i].PopHead();
      view := view[i := xs];
    }

    /** clause_list_concat: moves every clause of src behind those of dst. */
    method Concat(src: nat, dst: nat)
      requires Valid() && src < |lists| && dst < |lists| && src != dst
      modifies repr
      ensures Valid()
      ensures view == old(view)[dst := old(view)[dst] + old(view)[src]][src := []]
    {
      ApartFromAll(src);
      ApartFromAll(dst);
      ghost var xs := view[dst] + view[src];
      assert NoShared(view[dst := xs][src := []]);
      hide NoShared, Distinct, Linked;
      assert lists[src].head in lists[src].nodes && lists[dst].tail in lists[dst].nodes;
      lists[src].ConcatTo(lists[dst]);
      view := view[dst := xs][src := []];
    }
  }
}
