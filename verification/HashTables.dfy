/** What the slots of an open-addressing table mean: probe paths, tombstones and the map they hold
    (src/hash_map.c:83-106, src/hash_map.c:187-277). */
module HashTables {

  const DELETED_KEY: int := -0x8000_0000
  const EMPTY_KEY: int := -0x8000_0000 + 1

  datatype Slot = Slot(key: int, val: int, hash: nat)

  type Slots = seq<Slot>

  predicate GoodKey(d: Slot) {
    d.key != EMPTY_KEY && d.key != DELETED_KEY
  }

  // ----- the ring of slots -----

  /** j++; j &= mask, for a size that is a power of two. */
  function Step(j: nat, n: nat): nat
    requires j < n
  {
    if j + 1 == n then 0 else j + 1
  }

  /** jhash & mask: the first slot a search looks at. */
  function Home(h: nat, n: nat): (j: nat)
    requires n > 0
    ensures j < n
  {
    h % n
  }

  /** The low bits of the hash: what whole rounds of the ring leave. */
  lemma HomeExact(h: nat, n: nat)
    requires n > 0
    ensures n * (h / n) + Home(h, n) == h
  {
  }

  /** The slot of probe t. */
  function Probe(start: nat, t: nat, n: nat): (j: nat)
    requires start < n && t < n
    ensures j < n
  {
    if start + t < n then start + t else start + t - n
  }

  /** The probe that reaches slot i. */
  function Distance(start: nat, i: nat, n: nat): (t: nat)
    requires start < n && i < n
    ensures t < n && Probe(start, t, n) == i
    ensures forall u :: 0 <= u < n && Probe(start, u, n) == i ==> u == t
  {
    if i >= start then i - start else i + n - start
  }

  // ----- the invariant -----

  /** No probe before t ends a search. */
  ghost predicate NoGap(d: Slots, start: nat, t: nat)
    requires start < |d| && t <= |d|
  {
    forall u :: 0 <= u < t ==> d[Probe(start, u, |d|)].key != EMPTY_KEY
  }

  ghost predicate Reachable(d: Slots, i: nat)
    requires i < |d|
  {
    var start := Home(d[i].hash, |d|);
    NoGap(d, start, Distance(start, i, |d|))
  }

  /** Every record is stored under its hash where a search for it arrives. */
  ghost predicate Placed(jhash: int -> nat, d: Slots) {
    forall i :: 0 <= i < |d| && GoodKey(d[i]) ==> d[i].key >= 0 && d[i].hash == jhash(d[i].key) && Reachable(d, i)
  }

  ghost predicate DistinctKeys(d: Slots) {
    forall i, j :: 0 <= i < |d| && 0 <= j < |d| && GoodKey(d[i]) && GoodKey(d[j]) && d[i].key == d[j].key ==> i == j
  }

  ghost function Records(d: Slots): set<nat> {
    set i: nat | 0 <= i < |d| && GoodKey(d[i])
  }

  ghost function Tombstones(d: Slots): set<nat> {
    set i: nat | 0 <= i < |d| && d[i].key == DELETED_KEY
  }

  ghost predicate AllEmpty(d: Slots) {
    forall i :: 0 <= i < |d| ==> d[i].key == EMPTY_KEY
  }

  ghost predicate Stores(d: Slots, k: int) {
    exists i :: 0 <= i < |d| && GoodKey(d[i]) && d[i].key == k
  }

  /** The slots hold exactly the partial map m. */
  ghost predicate Represents(d: Slots, m: map<int, int>) {
    && DistinctKeys(d)
    && (forall i :: 0 <= i < |d| && GoodKey(d[i]) ==> d[i].key in m && m[d[i].key] == d[i].val)
    && (forall k :: k in m ==> Stores(d, k))
  }

  // ----- counting -----

  lemma {:induction false} RangeSize(s: set<nat>, n: nat)
    requires forall i: nat :: i in s <==> i < n
    ensures |s| == n
  {
    if n == 0 {
      assert s == {};
    } else {
      RangeSize(s - {n - 1}, n - 1);
    }
  }

  /** Fewer records and tombstones than slots leave an empty slot. */
  lemma SomeEmpty(d: Slots)
    requires |Records(d)| + |Tombstones(d)| < |d|
    ensures exists e :: 0 <= e < |d| && d[e].key == EMPTY_KEY
  {
    if forall e :: 0 <= e < |d| ==> d[e].key != EMPTY_KEY {
      var used := Records(d) + Tombstones(d);
      assert forall i: nat :: i in used <==> i < |d|;
      RangeSize(used, |d|);
    }
  }

  ghost function KeysOf(d: Slots, records: set<nat>): set<int> {
    set i | i in records && i < |d| :: d[i].key
  }

  /** As many keys as records. */
  lemma {:induction false} KeysAreRecords(d: Slots, records: set<nat>)
    requires DistinctKeys(d) && records <= Records(d)
    ensures |KeysOf(d, records)| == |records|
    decreases |records|
  {
    if records == {} {
      assert KeysOf(d, records) == {};
    } else {
      var i :| i in records;
      KeysAreRecords(d, records - {i});
      assert KeysOf(d, records) == KeysOf(d, records - {i}) + {d[i].key};
    }
  }

  /** The number of records is the number of keys of the map. */
  lemma SizeOfMap(d: Slots, m: map<int, int>)
    requires Represents(d, m)
    ensures |m| == |Records(d)|
  {
    KeysAreRecords(d, Records(d));
    forall k | k in m.Keys ensures k in KeysOf(d, Records(d)) {
      assert Stores(d, k);
    }
    assert m.Keys == KeysOf(d, Records(d));
  }

  // ----- searching -----

  /** No record in the first t slots a search looks at has the key, and none of these slots is empty. */
  ghost predicate Passed(d: Slots, start: nat, t: nat, k: int)
    requires start < |d| && t <= |d|
  {
    && NoGap(d, start, t)
    && forall u :: 0 <= u < t ==> GoodKey(d[Probe(start, u, |d|)]) ==> d[Probe(start, u, |d|)].key != k
  }

  lemma SearchStarts(d: Slots, start: nat, e: nat, k: int)
    requires start < |d| && e < |d|
    ensures Probe(start, 0, |d|) == start && Passed(d, start, 0, k)
  {
  }

  /** One probe more; an empty slot e ahead bounds the search. */
  lemma PassOne(d: Slots, start: nat, t: nat, k: int, e: nat)
    requires start < |d| && e < |d| && d[e].key == EMPTY_KEY && t <= Distance(start, e, |d|) && Passed(d, start, t, k)
    requires var s := d[Probe(start, t, |d|)]; s.key != EMPTY_KEY && (GoodKey(s) ==> s.key != k)
    ensures t < Distance(start, e, |d|) && Passed(d, start, t + 1, k)
    ensures Probe(start, t + 1, |d|) == Step(Probe(start, t, |d|), |d|)
  {
  }

  lemma PassedNoGap(d: Slots, start: nat, t: nat, k: int)
    requires start < |d| && t <= |d| && Passed(d, start, t, k)
    ensures NoGap(d, start, t)
  {
  }

  ghost predicate Occupied(d: Slots, start: nat, t: nat)
    requires start < |d| && t <= |d|
  {
    forall u :: 0 <= u < t ==> GoodKey(d[Probe(start, u, |d|)])
  }

  /** Slot j is the first one without a record that a search from start on looks at. */
  ghost predicate FirstFree(d: Slots, start: nat, j: nat)
    requires start < |d| && j < |d|
  {
    !GoodKey(d[j]) && Occupied(d, start, Distance(start, j, |d|))
  }

  lemma OccupiedNext(d: Slots, start: nat, t: nat)
    requires start < |d| && t < |d|
    ensures Occupied(d, start, 0)
    ensures Occupied(d, start, t) && GoodKey(d[Probe(start, t, |d|)]) ==> Occupied(d, start, t + 1)
    ensures Occupied(d, start, t) && !GoodKey(d[Probe(start, t, |d|)]) ==> FirstFree(d, start, Probe(start, t, |d|))
  {
  }

  lemma FirstFreeNoGap(d: Slots, start: nat, j: nat)
    requires start < |d| && j < |d| && FirstFree(d, start, j)
    ensures NoGap(d, start, Distance(start, j, |d|))
  {
  }

  /** A free slot at the start is the first one. */
  lemma HomeIsFree(d: Slots, start: nat, j: nat)
    requires start < |d| && j < |d| && FirstFree(d, start, j) && !GoodKey(d[start])
    ensures j == start
  {
    assert Probe(start, 0, |d|) == start;
  }

  /** A search that arrives at an empty slot has proved the key absent. */
  lemma AbsentAtGap(jhash: int -> nat, d: Slots, t: nat, k: int)
    requires t < |d| && Placed(jhash, d) && Passed(d, Home(jhash(k), |d|), t, k)
    requires d[Probe(Home(jhash(k), |d|), t, |d|)].key == EMPTY_KEY
    ensures !Stores(d, k)
  {
  }

  /** What the test of a probe means: a record matches in hash and key exactly when it is the record of the key. */
  lemma ProbeTest(jhash: int -> nat, d: Slots, m: map<int, int>, j: nat, k: int)
    requires j < |d| && Placed(jhash, d) && Represents(d, m) && GoodKey(d[j])
    ensures d[j].key == k ==> d[j].hash == jhash(k) && k in m && m[k] == d[j].val
  {
  }

  lemma NotStored(d: Slots, m: map<int, int>, k: int)
    requires Represents(d, m) && !Stores(d, k)
    ensures k !in m
  {
  }

  // ----- updates of one slot -----

  /** Overwriting a slot with a non-empty one opens no gap. */
  lemma StillPlaced(jhash: int -> nat, d: Slots, i: nat, s: Slot)
    requires i < |d| && Placed(jhash, d) && s.key != EMPTY_KEY
    requires GoodKey(s) ==>
               && s.key >= 0 && s.hash == jhash(s.key)
               && NoGap(d, Home(s.hash, |d|), Distance(Home(s.hash, |d|), i, |d|))
    ensures Placed(jhash, d[i := s])
  {
  }

  lemma Kept(d: Slots, i: nat, s: Slot, k: int)
    requires i < |d| && Stores(d, k) && d[i].key != k
    ensures Stores(d[i := s], k)
  {
    var j: nat :| 0 <= j < |d| && GoodKey(d[j]) && d[j].key == k;
    assert GoodKey(d[i := s][j]);
  }

  /** A record with a new key in a slot without one. */
  lemma Inserted(d: Slots, m: map<int, int>, i: nat, s: Slot)
    requires i < |d| && Represents(d, m) && !GoodKey(d[i]) && GoodKey(s) && s.key !in m
    ensures Represents(d[i := s], m[s.key := s.val])
    ensures Records(d[i := s]) == Records(d) + {i} && i !in Records(d)
    ensures Tombstones(d[i := s]) == Tombstones(d) - {i}
  {
    var after := d[i := s];
    forall k | k in m[s.key := s.val] ensures Stores(after, k) {
      if k == s.key {
        assert GoodKey(after[i]);
      } else {
        Kept(d, i, s, k);
      }
    }
  }

  /** Storing a record in a free slot that a search for its key passes by. */
  lemma Recorded(jhash: int -> nat, d: Slots, m: map<int, int>, t: nat, k: int, v: int)
    requires t < |d| && Placed(jhash, d) && Represents(d, m) && k >= 0 && k !in m
    requires NoGap(d, Home(jhash(k), |d|), t) && !GoodKey(d[Probe(Home(jhash(k), |d|), t, |d|)])
    ensures var i := Probe(Home(jhash(k), |d|), t, |d|);
      var after := d[i := Slot(k, v, jhash(k))];
      && Placed(jhash, after) && Represents(after, m[k := v])
      && |Records(after)| == |Records(d)| + 1
      && |Tombstones(after)| + (if d[i].key == DELETED_KEY then 1 else 0) == |Tombstones(d)|
  {
    var i, s := Probe(Home(jhash(k), |d|), t, |d|), Slot(k, v, jhash(k));
    StillPlaced(jhash, d, i, s);
    Inserted(d, m, i, s);
    assert i in Tombstones(d) <==> d[i].key == DELETED_KEY;
  }

  lemma {:induction false} SubsetSize(a: set<nat>, b: set<nat>)
    requires a <= b
    ensures |a| <= |b|
  {
    assert b == a + (b - a);
  }

  /** A record marked deleted. */
  lemma Erased(d: Slots, m: map<int, int>, i: nat)
    requires i < |d| && Represents(d, m) && GoodKey(d[i])
    ensures var after := d[i := d[i].(key := DELETED_KEY)];
      && Represents(after, m - {d[i].key})
      && Records(after) == Records(d) - {i} && i in Records(d)
      && Tombstones(after) == Tombstones(d) + {i}
  {
    var s := d[i].(key := DELETED_KEY);
    forall k | k in m - {d[i].key} ensures Stores(d[i := s], k) {
      Kept(d, i, s, k);
    }
  }

  /** Marking a record deleted closes no search. */
  lemma Unrecorded(jhash: int -> nat, d: Slots, m: map<int, int>, i: nat)
    requires i < |d| && Placed(jhash, d) && Represents(d, m) && GoodKey(d[i])
    ensures var after := d[i := d[i].(key := DELETED_KEY)];
      && Placed(jhash, after) && Represents(after, m - {d[i].key})
      && |Records(d)| == |Records(after)| + 1 && |Tombstones(after)| == |Tombstones(d)| + 1
  {
    Erased(d, m, i);
    StillPlaced(jhash, d, i, d[i].(key := DELETED_KEY));
  }

  /** A record with another value. */
  lemma Revalued(d: Slots, m: map<int, int>, i: nat, v: int)
    requires i < |d| && Represents(d, m) && GoodKey(d[i])
    ensures var after := d[i := d[i].(val := v)];
      && Represents(after, m[d[i].key := v])
      && Records(after) == Records(d) && Tombstones(after) == Tombstones(d)
  {
    var s, after := d[i].(val := v), m[d[i].key := v];
    forall k | k in after ensures Stores(d[i := s], k) {
      if k == d[i].key {
        assert GoodKey(d[i := s][i]);
      } else {
        Kept(d, i, s, k);
      }
    }
  }

  // ----- copying a table slot by slot -----

  /** One more slot of the old table: a record adds its key, anything else adds nothing. */
  lemma NextSlot(d: Slots, j: nat, m: map<int, int>)
    requires j < |d| && DistinctKeys(d) && Represents(d[..j], m)
    ensures var after := if GoodKey(d[j]) then m[d[j].key := d[j].val] else m;
      && Represents(d[..j + 1], after) && (GoodKey(d[j]) ==> d[j].key !in m)
  {
    var front, more := d[..j], d[..j + 1];
    var after := if GoodKey(d[j]) then m[d[j].key := d[j].val] else m;
    assert forall i :: 0 <= i < j ==> more[i] == front[i] == d[i];
    assert GoodKey(d[j]) ==> !Stores(front, d[j].key);
    forall k | k in after ensures Stores(more, k) {
      if k in m {
        var i :| 0 <= i < |front| && GoodKey(front[i]) && front[i].key == k;
        assert GoodKey(more[i]) && more[i].key == k;
      } else {
        assert GoodKey(more[j]) && more[j].key == k;
      }
    }
  }

  /** Slots determine the map. */
  lemma SameMap(d: Slots, m1: map<int, int>, m2: map<int, int>)
    requires Represents(d, m1) && Represents(d, m2)
    ensures m1 == m2
  {
    forall k | k in m1 || k in m2 ensures k in m1 && k in m2 && m1[k] == m2[k] {
      assert Stores(d, k);
    }
  }

  /** No prefix holds more records than the whole. */
  lemma PrefixRecords(d: Slots, j: nat, m: map<int, int>)
    requires j <= |d| && Represents(d[..j], m)
    ensures |m| <= |Records(d)|
  {
    SizeOfMap(d[..j], m);
    SubsetSize(Records(d[..j]), Records(d));
  }
}
