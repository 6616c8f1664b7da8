/** The tombstoned open-addressing hash map from non-negative integers (src/hash_map.c, src/hash_map.h:19-46). A
    record pointer is the index of its slot, and the hash function is arbitrary. */
module HashMap {
  import opened Basics
  import opened HashTables

  const DEFAULT_SIZE: nat := 32
  const MAX_SIZE: nat := 0xffff_ffff / 8

  predicate PowerOfTwo(n: nat) {
    n == 1 || (n > 1 && n % 2 == 0 && PowerOfTwo(n / 2))
  }

  /** The ratios 0.6 and 0.2 of the source. */
  function ResizeAt(n: nat): nat {
    3 * n / 5
  }

  function CleanupAt(n: nat): nat {
    n / 5
  }

  /** 0.6 and 0.2 of the size, rounded down. */
  lemma Thresholds(n: nat)
    ensures 5 * ResizeAt(n) <= 3 * n < 5 * (ResizeAt(n) + 1)
    ensures 5 * CleanupAt(n) <= n < 5 * (CleanupAt(n) + 1)
  {
  }

  lemma Doubled(n: nat)
    requires PowerOfTwo(n)
    ensures PowerOfTwo(2 * n) && ResizeAt(n) + 1 <= ResizeAt(2 * n)
  {
  }

  /** hmap_clean_copy: the record goes into the first empty slot from its hash on. */
  method CleanCopy(jhash: int -> nat, tmp: array<Slot>, s: Slot, ghost m: map<int, int>)
    requires Placed(jhash, tmp[..]) && Represents(tmp[..], m) && |Records(tmp[..])| < tmp.Length
    requires Tombstones(tmp[..]) == {} && GoodKey(s) && s.key >= 0 && s.hash == jhash(s.key) && s.key !in m
    modifies tmp
    ensures Placed(jhash, tmp[..]) && Represents(tmp[..], m[s.key := s.val])
    ensures |Records(tmp[..])| == old(|Records(tmp[..])|) + 1 && Tombstones(tmp[..]) == {}
  {
    hide Home, Passed, Distance, Probe, Step, Reachable, Placed, Represents, NoGap, Records, Tombstones;
    ghost var d := tmp[..];
    ghost var start, t := Home(s.hash, tmp.Length), 0;
    var j: nat := Home(s.hash, tmp.Length);
    SomeEmpty(d);
    ghost var e: nat :| e < tmp.Length && d[e].key == EMPTY_KEY;
    SearchStarts(d, start, e, EMPTY_KEY);
    while tmp[j].key != EMPTY_KEY
      invariant t <= Distance(start, e, |d|) && j == Probe(start, t, |d|) && Passed(d, start, t, EMPTY_KEY)
      invariant tmp[..] == d
      decreases Distance(start, e, |d|) - t
    {
      PassOne(d, start, t, EMPTY_KEY, e);
      j, t := Step(j, tmp.Length), t + 1;
    }
    PassedNoGap(d, start, t, EMPTY_KEY);
    Recorded(jhash, d, m, t, s.key, s.val);
    tmp[j] := s;
    assert tmp[..] == d[j := Slot(s.key, s.val, jhash(s.key))];
  }

  lemma NothingStored(d: Slots)
    requires forall i :: 0 <= i < |d| ==> d[i].key == EMPTY_KEY
    ensures Represents(d, map[]) && Records(d) == {} && Tombstones(d) == {}
    ensures forall jhash :: Placed(jhash, d)
  {
  }

  /** The loop shared by hmap_cleanup and hmap_extend: the records move to an empty table, the tombstones do not. */
  method CopyRecords(jhash: int -> nat, from: array<Slot>, tmp: array<Slot>, ghost m: map<int, int>)
    requires Placed(jhash, from[..]) && Represents(from[..], m) && |Records(from[..])| < tmp.Length && from != tmp
    requires forall i :: 0 <= i < tmp.Length ==> tmp[i].key == EMPTY_KEY
    modifies tmp
    ensures Placed(jhash, tmp[..]) && Represents(tmp[..], m)
    ensures |Records(tmp[..])| == |Records(from[..])| && Tombstones(tmp[..]) == {}
  {
    ghost var d, moved := from[..], map[];
    NothingStored(tmp[..]);
    NothingStored(d[..0]);
    assert forall i :: 0 <= i < |d| && GoodKey(d[i]) ==> d[i].key >= 0 && d[i].hash == jhash(d[i].key);
    hide Placed, Represents, Records, Tombstones;
    for j := 0 to from.Length
      invariant from[..] == d && Represents(d[..j], moved)
      invariant Placed(jhash, tmp[..]) && Represents(tmp[..], moved) && Tombstones(tmp[..]) == {}
    {
      NextSlot(d, j, moved);
      if GoodKey(from[j]) {
        PrefixRecords(d, j, moved);
        SizeOfMap(tmp[..], moved);
        CleanCopy(jhash, tmp, from[j], moved);
        moved := moved[d[j].key := d[j].val];
      }
    }
    assert d[..|d|] == d;
    SameMap(d, moved, m);
    SizeOfMap(tmp[..], m);
    SizeOfMap(d, m);
  }

  class IntMap {
    const jhash: int -> nat
    var data: array<Slot>
    var size: nat
    var nelems: nat
    var ndeleted: nat
    var resizeThreshold: nat
    var cleanupThreshold: nat
    ghost var contents: map<int, int>
    /** How many tombstones hmap_get has reused since the last cleanup. */
    ghost var reused: nat

    /** The slots hold the map, and one of them is empty. */
    ghost predicate Stored()
      reads this, data
    {
      && data.Length == size
      && Placed(jhash, data[..]) && Represents(data[..], contents)
      && |Records(data[..])| + |Tombstones(data[..])| < size
    }

    /** The counters and thresholds. hmap_get does not take back the count of a tombstone it reuses, so ndeleted is the
        number of tombstones iff none was reused since the last cleanup. */
    ghost predicate Counted()
      reads this, data
    {
      && |Records(data[..])| == nelems && |Tombstones(data[..])| + reused == ndeleted
      && PowerOfTwo(size) && size < MAX_SIZE
      && resizeThreshold == ResizeAt(size) && cleanupThreshold == CleanupAt(size)
      && nelems + ndeleted <= resizeThreshold < size && ndeleted <= cleanupThreshold
    }

    ghost predicate Valid()
      reads this, data
    {
      Stored() && Counted()
    }

    /** init_hmap: n is a power of two, or zero for the default size. A size that is too large ends the program. */
    constructor (jhash: int -> nat, n: nat)
      requires n == 0 || PowerOfTwo(n)
      requires n < MAX_SIZE
      ensures Valid() && contents == map[] && this.jhash == jhash && fresh(data)
      ensures size == (if n == 0 then DEFAULT_SIZE else n) && nelems == ndeleted == reused == 0
      ensures AllEmpty(data[..])
    {
      var m := if n == 0 then DEFAULT_SIZE else n;
      assert PowerOfTwo(32) by {
        assert PowerOfTwo(4) && PowerOfTwo(8) && PowerOfTwo(16);
      }
      this.jhash := jhash;
      data := new Slot[m](i => Slot(EMPTY_KEY, 0, 0));
      size, nelems, ndeleted := m, 0, 0;
      resizeThreshold, cleanupThreshold := ResizeAt(m), CleanupAt(m);
      contents, reused := map[], 0;
      new;
      NothingStored(data[..]);
    }

    /** hmap_find: the slot of the key, or None exactly when the key is absent. */
    method Find(k: int) returns (r: Option<nat>)
      requires Stored()
      ensures r.None? <==> k !in contents
      ensures r.Some? ==>
                && r.value < data.Length && GoodKey(data[r.value])
                && data[r.value].key == k && data[r.value].val == contents[k]
    {
      hide Home, Passed, Distance, Probe, Step, NoGap, Placed, Represents, Stores, Records, Tombstones;
      ghost var d := data[..];
      var h := jhash(k);
      ghost var start, t := Home(h, size), 0;
      var j: nat := Home(h, size);
      SomeEmpty(d);
      ghost var e: nat :| e < size && d[e].key == EMPTY_KEY;
      SearchStarts(d, start, e, k);
      while true
        invariant t <= Distance(start, e, size) && j == Probe(start, t, size) && Passed(d, start, t, k)
        decreases Distance(start, e, size) - t
      {
        if data[j].key == EMPTY_KEY {
          AbsentAtGap(jhash, d, t, k);
          NotStored(d, contents, k);
          return None;
        }
        if GoodKey(data[j]) {
          ProbeTest(jhash, d, contents, j, k);
        }
        if data[j].key != DELETED_KEY && h == data[j].hash && data[j].key == k {
          return Some(j);
        }
        PassOne(d, start, t, k, e);
        j, t := Step(j, size), t + 1;
      }
    }

    /** hmap_get_clean: the key goes into the first free slot after hmap_extend, which left no tombstone. */
    method GetClean(k: int) returns (r: nat)
      requires Stored() && k >= 0 && k !in contents
      modifies this`nelems, this`contents, data
      ensures Placed(jhash, data[..]) && Represents(data[..], contents)
      ensures contents == old(contents)[k := -1] && nelems == old(nelems) + 1
      ensures |Records(data[..])| == old(|Records(data[..])|) + 1
      ensures |Tombstones(data[..])| <= old(|Tombstones(data[..])|)
      ensures r < size && data[r].key == k && data[r].val == -1
    {
      hide Home, Passed, Distance, Probe, Step, Reachable, Placed, Represents, NoGap, Records, Tombstones;
      ghost var d := data[..];
      ghost var start, t := Home(jhash(k), size), 0;
      r := Home(jhash(k), size);
      SomeEmpty(d);
      ghost var e: nat :| e < size && d[e].key == EMPTY_KEY;
      SearchStarts(d, start, e, EMPTY_KEY);
      while GoodKey(data[r])
        invariant t <= Distance(start, e, size) && r == Probe(start, t, size) && Passed(d, start, t, EMPTY_KEY)
        invariant data[..] == d && contents == old(contents) && nelems == old(nelems)
        decreases Distance(start, e, size) - t
      {
        PassOne(d, start, t, EMPTY_KEY, e);
        r, t := Step(r, size), t + 1;
      }
      PassedNoGap(d, start, t, EMPTY_KEY);
      Recorded(jhash, d, contents, t, k, -1);
      nelems := nelems + 1;
      data[r] := Slot(k, -1, jhash(k));
      contents := contents[k := -1];
      assert data[..] == d[r := Slot(k, -1, jhash(k))];
    }

    /** hmap_cleanup: the tombstones go, the map stays. */
    method Cleanup()
      requires Placed(jhash, data[..]) && Represents(data[..], contents) && data.Length == size
      requires |Records(data[..])| < size
      modifies this`data, this`ndeleted, this`reused
      ensures fresh(data) && data.Length == size && ndeleted == reused == 0
      ensures Placed(jhash, data[..]) && Represents(data[..], contents)
      ensures |Records(data[..])| == old(|Records(data[..])|) && Tombstones(data[..]) == {}
    {
      var tmp := new Slot[size](i => Slot(EMPTY_KEY, 0, 0));
      CopyRecords(jhash, data, tmp, contents);
      data, ndeleted, reused := tmp, 0, 0;
    }

    /** hmap_extend: as cleanup, into a table twice as large. */
    method Extend()
      requires Placed(jhash, data[..]) && Represents(data[..], contents) && data.Length == size
      requires |Records(data[..])| < size && 2 * size < MAX_SIZE
      modifies this`data, this`size, this`ndeleted, this`reused, this`resizeThreshold, this`cleanupThreshold
      ensures fresh(data) && data.Length == size == 2 * old(size) && ndeleted == reused == 0
      ensures resizeThreshold == ResizeAt(size) && cleanupThreshold == CleanupAt(size)
      ensures Placed(jhash, data[..]) && Represents(data[..], contents)
      ensures |Records(data[..])| == old(|Records(data[..])|) && Tombstones(data[..]) == {}
    {
      hide Placed, Represents, Records, Tombstones;
      var n2 := 2 * size;
      var tmp := new Slot[n2](i => Slot(EMPTY_KEY, 0, 0));
      CopyRecords(jhash, data, tmp, contents);
      data, size, ndeleted, reused := tmp, n2, 0, 0;
      resizeThreshold, cleanupThreshold := ResizeAt(n2), CleanupAt(n2);
    }

    /** Out of memory in hmap_get: a new key needs a larger table than allowed. */
    ghost predicate Full(k: int)
      reads this
    {
      k !in contents && nelems + ndeleted >= resizeThreshold && 2 * size >= MAX_SIZE
    }

    /** The new record of hmap_get when the table is not extended. */
    method AddRecord(k: int, j: nat)
      requires Valid() && k >= 0 && k !in contents && nelems + ndeleted < resizeThreshold
      requires j < size && FirstFree(data[..], Home(jhash(k), size), j)
      modifies this`nelems, this`contents, this`reused, data
      ensures Valid() && contents == old(contents)[k := -1] && nelems == old(nelems) + 1
      ensures data[..] == old(data[..])[j := Slot(k, -1, jhash(k))]
      ensures reused == old(reused) + if old(data[j].key) == DELETED_KEY then 1 else 0
    {
      hide Home, Distance, Probe, NoGap, Placed, Represents, Records, Tombstones, PowerOfTwo;
      ghost var d := data[..];
      FirstFreeNoGap(d, Home(jhash(k), size), j);
      Recorded(jhash, d, contents, Distance(Home(jhash(k), size), j, size), k, -1);
      reused := reused + if d[j].key == DELETED_KEY then 1 else 0;
      data[j] := Slot(k, -1, jhash(k));
      nelems := nelems + 1;
      contents := contents[k := -1];
      assert data[..] == d[j := Slot(k, -1, jhash(k))];
    }

    /** The two probe loops of hmap_get: to the first free slot, then on to the first empty one. The key's record if
        it has one, otherwise the slot where a new record may go. */
    method Lookup(k: int) returns (found: bool, j: nat)
      requires Stored() && k >= 0
      ensures j < size && (found <==> k in contents)
      ensures found ==> data[j].key == k && data[j].val == contents[k]
      ensures !found ==>
                !GoodKey(data[j]) && FirstFree(data[..], Home(jhash(k), size), j)
    {
      hide Home, Passed, Occupied, FirstFree, Distance, Probe, Step, NoGap, Placed, Represents, Stores, Records,
        Tombstones;
      ghost var d := data[..];
      var h := jhash(k);
      ghost var start, t := Home(h, size), 0;
      j := Home(h, size);
      SomeEmpty(d);
      ghost var e: nat :| e < size && d[e].key == EMPTY_KEY;
      SearchStarts(d, start, e, k);
      OccupiedNext(d, start, 0);
      while GoodKey(data[j])
        invariant t <= Distance(start, e, size) && j == Probe(start, t, size) && Passed(d, start, t, k)
        invariant Occupied(d, start, t)
        decreases Distance(start, e, size) - t
      {
        OccupiedNext(d, start, t);
        ProbeTest(jhash, d, contents, j, k);
        if h == data[j].hash && data[j].key == k {
          return true, j;
        }
        PassOne(d, start, t, k, e);
        j, t := Step(j, size), t + 1;
      }
      var aux := j;
      OccupiedNext(d, start, t);
      while data[j].key != EMPTY_KEY
        invariant t <= Distance(start, e, size) && j == Probe(start, t, size) && Passed(d, start, t, k)
        invariant GoodKey(data[j]) ==> data[j].key != k
        decreases Distance(start, e, size) - t
      {
        PassOne(d, start, t, k, e);
        j, t := Step(j, size), t + 1;
        if GoodKey(data[j]) {
          ProbeTest(jhash, d, contents, j, k);
        }
        if h == data[j].hash && data[j].key == k {
          return true, j;
        }
      }
      AbsentAtGap(jhash, d, t, k);
      NotStored(d, contents, k);
      return false, aux;
    }

    /** hmap_get: the record of the key, made with value -1 if there was none; None when the program stops for lack
        of memory. */
    method Get(k: int) returns (r: Option<nat>)
      requires Valid() && k >= 0
      modifies this, data
      ensures Valid() && (data == old(data) || fresh(data))
      ensures r.None? <==> old(Full(k))
      ensures r.None? ==> contents == old(contents) && Full(k)
      ensures k !in old(contents) && old(nelems + ndeleted < resizeThreshold) ==>
                && r.Some? && data == old(data) && r.value < data.Length == size == old(size)
                && FirstFree(old(data[..]), Home(jhash(k), size), r.value)
                && data[..] == old(data[..])[r.value := Slot(k, -1, jhash(k))]
                && nelems == old(nelems) + 1 && ndeleted == old(ndeleted)
                && reused == old(reused) + if old(data[..])[r.value].key == DELETED_KEY then 1 else 0
      ensures k in old(contents) ==>
                && data == old(data) && data[..] == old(data[..]) && size == old(size)
                && nelems == old(nelems) && ndeleted == old(ndeleted) && reused == old(reused)
      ensures r.Some? && k !in old(contents) && old(nelems + ndeleted >= resizeThreshold) ==>
                size == 2 * old(size) && ndeleted == reused == 0
      ensures r.Some? ==> contents == if k in old(contents) then old(contents) else old(contents)[k := -1]
      ensures r.Some? ==>
                && r.value < data.Length && GoodKey(data[r.value])
                && data[r.value].key == k && data[r.value].val == contents[k]
    {
      hide Home, FirstFree, Distance, Probe, NoGap, Placed, Represents, Records, Tombstones, PowerOfTwo;
      var found, j := Lookup(k);
      if found {
        return Some(j);
      }
      if nelems + ndeleted >= resizeThreshold {
        if 2 * size >= MAX_SIZE {
          return None;
        }
        Doubled(size);
        Extend();
        j := GetClean(k);
      } else {
        AddRecord(k, j);
      }
      return Some(j);
    }

    /** The assignment to the key in hmap_erase. */
    method MarkDeleted(r: nat)
      requires Placed(jhash, data[..]) && Represents(data[..], contents) && r < data.Length && GoodKey(data[r])
      modifies this`contents, data
      ensures Placed(jhash, data[..]) && Represents(data[..], contents)
      ensures contents == old(contents) - {old(data[r].key)}
      ensures |Records(data[..])| + 1 == old(|Records(data[..])|)
      ensures |Tombstones(data[..])| == old(|Tombstones(data[..])|) + 1
      ensures data[..] == old(data[..])[r := old(data[r]).(key := DELETED_KEY)]
    {
      ghost var d := data[..];
      Unrecorded(jhash, d, contents, r);
      hide Placed, Represents, Records, Tombstones;
      contents := contents - {d[r].key};
      data[r] := data[r].(key := DELETED_KEY);
      assert data[..] == d[r := d[r].(key := DELETED_KEY)];
    }

    /** hmap_erase on a record: its key goes and no other; a table with too many tombstones is cleaned. */
    method Erase(r: nat)
      requires Valid() && r < data.Length && GoodKey(data[r])
      modifies this, data
      ensures Valid() && (data == old(data) || fresh(data))
      ensures contents == old(contents) - {old(data[r].key)}
      ensures old(ndeleted) < CleanupAt(old(size)) ==>
                && data == old(data) && data[..] == old(data[..])[r := old(data[r]).(key := DELETED_KEY)]
                && size == old(size) && nelems == old(nelems) - 1 && ndeleted == old(ndeleted) + 1
                && reused == old(reused)
      ensures old(ndeleted) >= CleanupAt(old(size)) ==>
                size == old(size) && nelems == old(nelems) - 1 && ndeleted == reused == 0 && Tombstones(data[..]) == {}
    {
      hide Placed, Represents, Records, Tombstones, PowerOfTwo, ResizeAt, CleanupAt;
      MarkDeleted(r);
      nelems := nelems - 1;
      ndeleted := ndeleted + 1;
      if ndeleted > cleanupThreshold {
        Cleanup();
      }
    }

    /** A client's assignment to the val field of a record. */
    method SetVal(r: nat, v: int)
      requires Valid() && r < data.Length && GoodKey(data[r])
      modifies this`contents, data
      ensures Valid() && contents == old(contents)[old(data[r].key) := v] && data == old(data)
    {
      ghost var d := data[..];
      Revalued(d, contents, r, v);
      StillPlaced(jhash, d, r, d[r].(val := v));
      contents := contents[data[r].key := v];
      data[r] := data[r].(val := v);
      assert data[..] == d[r := d[r].(val := v)];
    }

    /** hmap_reset: the empty map. */
    method Reset()
      requires Valid()
      modifies this, data
      ensures Valid() && data == old(data) && contents == map[]
      ensures AllEmpty(data[..]) && size == old(size) && nelems == ndeleted == reused == 0
    {
      for i := 0 to size
        invariant data.Length == size
        invariant forall j :: 0 <= j < i ==> data[j].key == EMPTY_KEY
        modifies data
      {
        data[i] := data[i].(key := EMPTY_KEY);
      }
      nelems, ndeleted, contents, reused := 0, 0, map[], 0;
      NothingStored(data[..]);
    }
  }

  // ----- whole runs -----

  /** What a client does: Store writes the val field of the record found, Erase passes the record found to
      hmap_erase. */
  datatype Operation = Find(k: int) | Get(key: nat) | Store(k: int, v: int) | Erase(k: int) | Reset

  function Effect(m: map<int, int>, op: Operation): map<int, int> {
    match op
    case Find(_) => m
    case Get(k) => if k in m then m else m[k := -1]
    case Store(k, v) => if k in m then m[k := v] else m
    case Erase(k) => m - {k}
    case Reset => map[]
  }

  /** What the client reads: the val field of the record, where the operation looks one up. */
  function Answer(m: map<int, int>, op: Operation): Option<int> {
    if op.Reset? then None
    else if op.Get? then Some(if op.key in m then m[op.key] else -1)
    else if op.k in m then Some(m[op.k]) else None
  }

  function After(ops: seq<Operation>): map<int, int> {
    if ops == [] then map[] else Effect(After(ops[..|ops| - 1]), ops[|ops| - 1])
  }

  lemma AfterNext(ops: seq<Operation>, i: nat)
    requires i < |ops|
    ensures After(ops[..i + 1]) == Effect(After(ops[..i]), ops[i])
  {
    assert ops[..i + 1][..i] == ops[..i];
  }

  /** Every answer so far is the one of the plain map. */
  ghost predicate Answered(ops: seq<Operation>, answers: seq<Option<int>>) {
    |answers| <= |ops| && forall i :: 0 <= i < |answers| ==> answers[i] == Answer(After(ops[..i]), ops[i])
  }

  lemma AnsweredNext(ops: seq<Operation>, answers: seq<Option<int>>, answer: Option<int>)
    requires Answered(ops, answers) && |answers| < |ops|
    requires answer == Answer(After(ops[..|answers|]), ops[|answers|])
    ensures Answered(ops, answers + [answer])
  {
  }

  lemma RunStart(ops: seq<Operation>)
    ensures After(ops[..0]) == map[] && Answered(ops, [])
  {
  }

  /** One operation on the table; full reports that the program stopped for lack of memory. */
  method Perform(h: IntMap, op: Operation) returns (answer: Option<int>, full: bool)
    requires h.Valid()
    modifies h, h.data
    ensures h.Valid() && (h.data == old(h.data) || fresh(h.data))
    ensures full ==> op.Get? && h.Full(op.key) && h.contents == old(h.contents)
    ensures !full ==> h.contents == Effect(old(h.contents), op) && answer == Answer(old(h.contents), op)
  {
    hide Placed, Represents, Records, Tombstones, PowerOfTwo, ResizeAt, CleanupAt;
    answer, full := None, false;
    match op {
      case Reset =>
        h.Reset();
      case Get(k) =>
        var r := h.Get(k);
        if r.None? {
          full := true;
        } else {
          answer := Some(h.data[r.value].val);
        }
      case Find(k) =>
        var r := h.Find(k);
        if r.Some? {
          answer := Some(h.data[r.value].val);
        }
      case Store(k, v) =>
        var r := h.Find(k);
        if r.Some? {
          answer := Some(h.data[r.value].val);
          h.SetVal(r.value, v);
        }
      case Erase(k) =>
        var r := h.Find(k);
        if r.Some? {
          answer := Some(h.data[r.value].val);
          h.Erase(r.value);
        } else {
          assert h.contents - {k} == h.contents;
        }
    }
  }

  /** Every run from an empty table, with any hash function and any admissible initial size, answers each operation
      as the plain partial map does, through every cleanup and doubling. It is cut short only when a new key would
      need more memory than allowed. */
  method Run(jhash: int -> nat, n: nat, ops: seq<Operation>) returns (h: IntMap, answers: seq<Option<int>>)
    requires (n == 0 || PowerOfTwo(n)) && n < MAX_SIZE
    ensures Answered(ops, answers)
    ensures h.Valid() && h.contents == After(ops[..|answers|]) && h.nelems == |h.contents|
    ensures |answers| < |ops| ==> var op := ops[|answers|]; op.Get? && h.Full(op.key)
  {
    hide Placed, Represents, Records, Tombstones, PowerOfTwo, ResizeAt, CleanupAt, AllEmpty, After, Effect, Answer,
      Answered;
    h := new IntMap(jhash, n);
    answers := [];
    RunStart(ops);
    while |answers| < |ops|
      invariant |answers| <= |ops| && Answered(ops, answers)
      invariant h.Valid() && h.contents == After(ops[..|answers|]) && fresh(h) && fresh(h.data)
      decreases |ops| - |answers|
    {
      var i := |answers|;
      var answer, full := Perform(h, ops[i]);
      if full { break; }
      AfterNext(ops, i);
      AnsweredNext(ops, answers, answer);
      answers := answers + [answer];
    }
    SizeOfMap(h.data[..], h.contents);
  }

  /** A reused tombstone stays counted: get, erase and get again of one key leave ndeleted at 1 without a tombstone. */
  method ReusedTombstone(jhash: int -> nat) returns (h: IntMap)
    ensures h.Valid() && h.contents == map[0 := -1]
    ensures h.ndeleted == 1 && Tombstones(h.data[..]) == {}
  {
    hide Home, FirstFree, Occupied, Distance, Probe, NoGap, Placed, Represents, Records, Tombstones, PowerOfTwo;
    h := new IntMap(jhash, 0);
    assert h.resizeThreshold == 19 && h.cleanupThreshold == 6;
    ghost var home, empty := Home(jhash(0), h.size), h.data[..];
    var r := h.Get(0);
    assert empty[home].key == EMPTY_KEY;
    HomeIsFree(empty, home, r.value);
    h.Erase(r.value);
    ghost var erased := h.data[..];
    r := h.Get(0);
    HomeIsFree(erased, home, r.value);
  }
}
