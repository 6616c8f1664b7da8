/** Block generation of the SFMT generator against its plain recurrence (src/SFMT.c:278-334, src/SFMT.c:440-453,
    src/SFMT.c:518-528). The block size n, the pick-up position pos1 and the recursion on 128-bit words
    are parameters. */
module Sfmt {

  /** Four 32-bit words. */
  datatype W128 = W128(u0: bv32, u1: bv32, u2: bv32, u3: bv32)

  type Recursion = (W128, W128, W128, W128) -> W128

  function Lane(w: W128, k: nat): bv32
    requires k < 4
  {
    if k == 0 then w.u0 else if k == 1 then w.u1 else if k == 2 then w.u2 else w.u3
  }

  /** The lanes make up the word, the first one first. */
  lemma LanesOfWord(w: W128)
    ensures W128(Lane(w, 0), Lane(w, 1), Lane(w, 2), Lane(w, 3)) == w
  {
  }

  datatype Parameters = Parameters(n: nat, pos1: nat, rec: Recursion)

  ghost predicate Good(p: Parameters) {
    2 <= p.n && 0 < p.pos1 < p.n
  }

  // ----- the plain recurrence -----

  /** The next word after s: rec(x[i-n], x[i-n+pos1], x[i-2], x[i-1]). */
  function Next(p: Parameters, s: seq<W128>): W128
    requires Good(p) && |s| >= p.n
  {
    var i := |s|;
    p.rec(s[i - p.n], s[i - p.n + p.pos1], s[i - 2], s[i - 1])
  }

  /** s continued by k words. */
  function Extend(p: Parameters, s: seq<W128>, k: nat): (r: seq<W128>)
    requires Good(p) && |s| >= p.n
    ensures |r| == |s| + k
  {
    if k == 0 then s
    else
      var front := Extend(p, s, k - 1);
      front + [Next(p, front)]
  }

  /** The n words from position m on: a state of the generator. */
  function Window(p: Parameters, s: seq<W128>, m: nat): seq<W128>
    requires Good(p) && |s| == p.n
  {
    Extend(p, s, m)[m..]
  }

  /** Words once produced stay. */
  lemma {:induction false} ExtendPrefix(p: Parameters, s: seq<W128>, j: nat, k: nat)
    requires Good(p) && |s| >= p.n && j <= k
    ensures Extend(p, s, k)[..|s| + j] == Extend(p, s, j)
  {
    if j < k {
      ExtendPrefix(p, s, j, k - 1);
      assert Extend(p, s, k)[..|s| + j] == Extend(p, s, k - 1)[..|s| + j];
    }
  }

  lemma SeedStays(p: Parameters, s: seq<W128>, k: nat)
    requires Good(p) && |s| >= p.n
    ensures Extend(p, s, k)[..|s|] == s
  {
  }

  lemma ExtendUnroll(p: Parameters, s: seq<W128>, k: nat)
    requires Good(p) && |s| >= p.n && k > 0
    ensures Extend(p, s, k) == Extend(p, s, k - 1) + [Next(p, Extend(p, s, k - 1))]
  {
  }

  /** One step of generation, seen from position m on. */
  lemma StepBehind(p: Parameters, s: seq<W128>, m: nat, k: nat)
    requires Good(p) && |s| == p.n && k > 0
    ensures var tail := Extend(p, s, m + k - 1)[m..];
      Extend(p, s, m + k)[m..] == tail + [Next(p, tail)]
  {
  }

  /** Generation from a window continues the same sequence. */
  lemma {:induction false} ExtendWindow(p: Parameters, s: seq<W128>, m: nat, k: nat)
    requires Good(p) && |s| == p.n
    ensures Extend(p, Window(p, s, m), k) == Extend(p, s, m + k)[m..]
  {
    var w := Window(p, s, m);
    if k == 0 {
    } else {
      hide Next, Extend, Window;
      ExtendWindow(p, s, m, k - 1);
      ExtendUnroll(p, w, k);
      StepBehind(p, s, m, k);
    }
  }

  lemma WindowCompose(p: Parameters, s: seq<W128>, m: nat, k: nat)
    requires Good(p) && |s| == p.n
    ensures Window(p, Window(p, s, m), k) == Window(p, s, m + k)
  {
    ExtendWindow(p, s, m, k);
    var x := Extend(p, s, m + k);
    assert x[m..][k..] == x[m + k..];
  }

  /** Every word of a continued sequence satisfies the recurrence. */
  lemma WordAt(p: Parameters, s: seq<W128>, i: nat, k: nat)
    requires Good(p) && |s| == p.n && i < k
    ensures var x := Extend(p, s, k);
      x[p.n + i] == p.rec(x[i], x[i + p.pos1], x[p.n + i - 2], x[p.n + i - 1])
  {
  }

  // ----- the block loops -----

  /** Entries below i are new words of the sequence x, the others still old ones, and r1, r2 point to the last two. */
  ghost predicate InPlace(p: Parameters, x: seq<W128>, now: seq<W128>, i: nat, r1: nat, r2: nat)
    requires Good(p)
  {
    && |now| == p.n && |x| == 2 * p.n && i <= p.n
    && (forall k :: 0 <= k < i ==> now[k] == x[p.n + k])
    && (forall k :: i <= k < p.n ==> now[k] == x[k])
    && r1 == (if i < 2 then p.n + i - 2 else i - 2)
    && r2 == (if i < 1 then p.n - 1 else i - 1)
  }

  lemma InPlaceOperands(p: Parameters, x: seq<W128>, now: seq<W128>, i: nat, r1: nat, r2: nat)
    requires Good(p) && InPlace(p, x, now, i, r1, r2) && i < p.n
    ensures r1 < p.n && r2 < p.n
    ensures now[i] == x[i] && now[r1] == x[p.n + i - 2] && now[r2] == x[p.n + i - 1]
    ensures (if i < p.n - p.pos1 then now[i + p.pos1] else now[i + p.pos1 - p.n]) == x[i + p.pos1]
  {
  }

  lemma InPlaceStore(p: Parameters, x: seq<W128>, now: seq<W128>, i: nat, r1: nat, r2: nat)
    requires Good(p) && InPlace(p, x, now, i, r1, r2) && i < p.n
    ensures InPlace(p, x, now[i := x[p.n + i]], i + 1, r2, i)
  {
  }

  lemma InPlaceStep(p: Parameters, s: seq<W128>, now: seq<W128>, i: nat, r1: nat, r2: nat)
    requires Good(p) && |s| == p.n && InPlace(p, Extend(p, s, p.n), now, i, r1, r2) && i < p.n
    ensures r1 < p.n && r2 < p.n
    ensures var b := if i < p.n - p.pos1 then now[i + p.pos1] else now[i + p.pos1 - p.n];
      InPlace(p, Extend(p, s, p.n), now[i := p.rec(now[i], b, now[r1], now[r2])], i + 1, r2, i)
  {
    WordAt(p, s, i, p.n);
    InPlaceOperands(p, Extend(p, s, p.n), now, i, r1, r2);
    InPlaceStore(p, Extend(p, s, p.n), now, i, r1, r2);
    hide Extend;
  }

  /** gen_rand_all: the state is replaced in place by the next n words. r1 and r2 are the positions of the last two. */
  method GenRandAll(p: Parameters, sfmt: array<W128>)
    requires Good(p) && sfmt.Length == p.n
    modifies sfmt
    ensures sfmt[..] == Window(p, old(sfmt[..]), p.n)
  {
    ghost var s := sfmt[..];
    ghost var x := Extend(p, s, p.n);
    var r1: nat, r2: nat, i: nat := p.n - 2, p.n - 1, 0;
    SeedStays(p, s, p.n);
    while i < p.n - p.pos1
      invariant 0 <= i <= p.n - p.pos1
      invariant InPlace(p, x, sfmt[..], i, r1, r2)
    {
      InPlaceStep(p, s, sfmt[..], i, r1, r2);
      ghost var now := sfmt[..];
      sfmt[i] := p.rec(sfmt[i], sfmt[i + p.pos1], sfmt[r1], sfmt[r2]);
      assert sfmt[..] == now[i := sfmt[i]];
      r1, r2, i := r2, i, i + 1;
    }
    while i < p.n
      invariant p.n - p.pos1 <= i <= p.n
      invariant InPlace(p, x, sfmt[..], i, r1, r2)
    {
      InPlaceStep(p, s, sfmt[..], i, r1, r2);
      ghost var now := sfmt[..];
      sfmt[i] := p.rec(sfmt[i], sfmt[i + p.pos1 - p.n], sfmt[r1], sfmt[r2]);
      assert sfmt[..] == now[i := sfmt[i]];
      r1, r2, i := r2, i, i + 1;
    }
    assert sfmt[..] == x[p.n..];
  }

  /** The first i entries of the array are the next words of x, and r1, r2 are the last two words. */
  ghost predicate Filled(p: Parameters, x: seq<W128>, now: seq<W128>, i: nat, r1: W128, r2: W128)
    requires Good(p)
  {
    && |x| == p.n + |now| && i <= |now|
    && (forall k :: 0 <= k < i ==> now[k] == x[p.n + k])
    && r1 == x[p.n + i - 2] && r2 == x[p.n + i - 1]
  }

  lemma FilledStart(p: Parameters, x: seq<W128>, s: seq<W128>, now: seq<W128>)
    requires Good(p) && |s| == p.n && |x| == p.n + |now| && x[..p.n] == s
    ensures Filled(p, x, now, 0, s[p.n - 2], s[p.n - 1])
  {
  }

  lemma FilledBy(p: Parameters, x: seq<W128>, s: seq<W128>, now: seq<W128>, i: nat, r1: W128, r2: W128)
    requires Good(p) && |s| == p.n && Filled(p, x, now, i, r1, r2) && i < |now| && x[..p.n] == s
    requires x[p.n + i] == p.rec(x[i], x[i + p.pos1], x[p.n + i - 2], x[p.n + i - 1])
    ensures var a := if i < p.n then s[i] else now[i - p.n];
      var b := if i < p.n - p.pos1 then s[i + p.pos1] else now[i + p.pos1 - p.n];
      var r := p.rec(a, b, r1, r2);
      Filled(p, x, now[i := r], i + 1, r2, r)
  {
  }

  /** The operands of the next word: the seed while the array does not reach back far enough, then the array. */
  lemma FilledStep(p: Parameters, s: seq<W128>, now: seq<W128>, i: nat, r1: W128, r2: W128)
    requires Good(p) && |s| == p.n && Filled(p, Extend(p, s, |now|), now, i, r1, r2) && i < |now|
    ensures var a := if i < p.n then s[i] else now[i - p.n];
      var b := if i < p.n - p.pos1 then s[i + p.pos1] else now[i + p.pos1 - p.n];
      var r := p.rec(a, b, r1, r2);
      Filled(p, Extend(p, s, |now|), now[i := r], i + 1, r2, r)
  {
    WordAt(p, s, i, |now|);
    SeedStays(p, s, |now|);
    hide Extend;
    FilledBy(p, Extend(p, s, |now|), s, now, i, r1, r2);
  }

  /** The first loop of gen_rand_array, which reads the seed only. */
  method FillFromSeed(p: Parameters, sfmt: array<W128>, arr: array<W128>) returns (i: nat, r1: W128, r2: W128)
    requires Good(p) && sfmt.Length == p.n && arr != sfmt && arr.Length >= p.n
    modifies arr
    ensures i == p.n - p.pos1
    ensures Filled(p, Extend(p, sfmt[..], arr.Length), arr[..], i, r1, r2)
  {
    ghost var s := sfmt[..];
    ghost var x := Extend(p, s, arr.Length);
    r1, r2, i := sfmt[p.n - 2], sfmt[p.n - 1], 0;
    SeedStays(p, s, arr.Length);
    hide Extend, Filled;
    FilledStart(p, x, s, arr[..]);
    while i < p.n - p.pos1
      invariant i <= p.n - p.pos1
      invariant Filled(p, x, arr[..], i, r1, r2)
    {
      FilledStep(p, s, arr[..], i, r1, r2);
      ghost var now := arr[..];
      arr[i] := p.rec(sfmt[i], sfmt[i + p.pos1], r1, r2);
      assert arr[..] == now[i := arr[i]];
      r1, r2, i := r2, arr[i], i + 1;
    }
  }

  /** The second loop, which reads the seed and the array. */
  method FillFromBoth(p: Parameters, sfmt: array<W128>, arr: array<W128>, i0: nat, r10: W128, r20: W128)
    returns (i: nat, r1: W128, r2: W128)
    requires Good(p) && sfmt.Length == p.n && arr != sfmt && arr.Length >= p.n && i0 == p.n - p.pos1
    requires Filled(p, Extend(p, sfmt[..], arr.Length), arr[..], i0, r10, r20)
    modifies arr
    ensures i == p.n
    ensures Filled(p, Extend(p, sfmt[..], arr.Length), arr[..], i, r1, r2)
  {
    hide Extend, Filled;
    ghost var s := sfmt[..];
    i, r1, r2 := i0, r10, r20;
    while i < p.n
      invariant p.n - p.pos1 <= i <= p.n
      invariant Filled(p, Extend(p, s, arr.Length), arr[..], i, r1, r2)
    {
      FilledStep(p, s, arr[..], i, r1, r2);
      ghost var now := arr[..];
      arr[i] := p.rec(sfmt[i], arr[i + p.pos1 - p.n], r1, r2);
      assert arr[..] == now[i := arr[i]];
      r1, r2, i := r2, arr[i], i + 1;
    }
  }

  /** The third loop, which reads the array only. */
  method FillFromArray(p: Parameters, ghost s: seq<W128>, arr: array<W128>, i0: nat, r10: W128, r20: W128)
    returns (i: nat, r1: W128, r2: W128)
    requires Good(p) && |s| == p.n && arr.Length >= p.n && i0 == p.n
    requires Filled(p, Extend(p, s, arr.Length), arr[..], i0, r10, r20)
    modifies arr
    ensures i == if arr.Length < 2 * p.n then p.n else arr.Length - p.n
    ensures Filled(p, Extend(p, s, arr.Length), arr[..], i, r1, r2)
  {
    hide Extend, Filled;
    i, r1, r2 := i0, r10, r20;
    while i < arr.Length - p.n
      invariant p.n <= i && (i <= arr.Length - p.n || i == p.n)
      invariant Filled(p, Extend(p, s, arr.Length), arr[..], i, r1, r2)
    {
      FilledStep(p, s, arr[..], i, r1, r2);
      ghost var now := arr[..];
      arr[i] := p.rec(arr[i - p.n], arr[i + p.pos1 - p.n], r1, r2);
      assert arr[..] == now[i := arr[i]];
      r1, r2, i := r2, arr[i], i + 1;
    }
  }

  /** The fourth loop of gen_rand_array: words already generated that stay in the state. */
  method CopyBack(p: Parameters, sfmt: array<W128>, arr: array<W128>) returns (j: nat)
    requires Good(p) && sfmt.Length == p.n && arr != sfmt && arr.Length >= p.n
    modifies sfmt
    ensures j == if arr.Length < 2 * p.n then 2 * p.n - arr.Length else 0
    ensures forall k :: 0 <= k < j ==> sfmt[k] == arr[k + arr.Length - p.n]
  {
    var size := arr.Length;
    j := 0;
    while j < 2 * p.n - size
      invariant j <= p.n && (j <= 2 * p.n - size || j == 0)
      invariant forall k :: 0 <= k < j ==> sfmt[k] == arr[k + size - p.n]
    {
      sfmt[j] := arr[j + size - p.n];
      j := j + 1;
    }
  }

  /** The last loop: the remaining words go to the array and to the state. */
  method FillRest(p: Parameters, sfmt: array<W128>, arr: array<W128>, ghost s: seq<W128>,
                  i0: nat, j0: nat, r10: W128, r20: W128)
    requires Good(p) && |s| == sfmt.Length == p.n && arr != sfmt && arr.Length >= p.n
    requires p.n <= i0 <= arr.Length && j0 == i0 - (arr.Length - p.n)
    requires Filled(p, Extend(p, s, arr.Length), arr[..], i0, r10, r20)
    requires forall k :: 0 <= k < j0 ==> sfmt[k] == arr[k + arr.Length - p.n]
    modifies sfmt, arr
    ensures forall k :: 0 <= k < arr.Length ==> arr[k] == Extend(p, s, arr.Length)[p.n + k]
    ensures forall k :: 0 <= k < p.n ==> sfmt[k] == Extend(p, s, arr.Length)[arr.Length + k]
  {
    hide Extend;
    var i, j, r1, r2 := i0, j0, r10, r20;
    while i < arr.Length
      invariant p.n <= i <= arr.Length && j == i - (arr.Length - p.n)
      invariant Filled(p, Extend(p, s, arr.Length), arr[..], i, r1, r2)
      invariant forall k :: 0 <= k < j ==> sfmt[k] == arr[k + arr.Length - p.n]
    {
      FilledStep(p, s, arr[..], i, r1, r2);
      ghost var now := arr[..];
      arr[i] := p.rec(arr[i - p.n], arr[i + p.pos1 - p.n], r1, r2);
      assert arr[..] == now[i := arr[i]];
      r1, r2 := r2, arr[i];
      sfmt[j] := arr[i];
      i, j := i + 1, j + 1;
    }
  }

  /** gen_rand_array: size words go to the array, and the last n of them become the state. */
  method GenRandArray(p: Parameters, sfmt: array<W128>, arr: array<W128>)
    requires Good(p) && sfmt.Length == p.n && arr != sfmt && arr.Length >= p.n
    modifies sfmt, arr
    ensures arr[..] == Extend(p, old(sfmt[..]), arr.Length)[p.n..]
    ensures sfmt[..] == Window(p, old(sfmt[..]), arr.Length)
  {
    var size := arr.Length;
    ghost var s := sfmt[..];
    ghost var x := Extend(p, s, size);
    var i, r1, r2 := FillFromSeed(p, sfmt, arr);
    i, r1, r2 := FillFromBoth(p, sfmt, arr, i, r1, r2);
    i, r1, r2 := FillFromArray(p, s, arr, i, r1, r2);
    hide Extend;
    var j := CopyBack(p, sfmt, arr);
    FillRest(p, sfmt, arr, s, i, j, r1, r2);
    assert sfmt[..] == x[size..];
    assert arr[..] == x[p.n..];
  }

  // ----- the stream of 32-bit words -----

  /** The t-th 32-bit word delivered after the seed s. */
  function Word(p: Parameters, s: seq<W128>, t: nat): bv32
    requires Good(p) && |s| == p.n
  {
    Lane(Extend(p, s, t / 4 + 1)[p.n + t / 4], t % 4)
  }

  /** Four words in a row are one word of the recurrence, the first lane first. */
  lemma FourWords(p: Parameters, s: seq<W128>, q: nat)
    requires Good(p) && |s| == p.n
    ensures W128(Word(p, s, 4 * q), Word(p, s, 4 * q + 1), Word(p, s, 4 * q + 2), Word(p, s, 4 * q + 3))
         == Extend(p, s, q + 1)[p.n + q]
  {
    assert (4 * q) / 4 == (4 * q + 1) / 4 == (4 * q + 2) / 4 == (4 * q + 3) / 4 == q;
  }

  lemma SamePrefix(x: seq<W128>, y: seq<W128>, i: nat)
    requires i < |y| <= |x| && x[..|y|] == y
    ensures x[i] == y[i]
  {
  }

  /** The word at position idx of the window at offset is the one due after delivered words. */
  lemma DeliveredWord(p: Parameters, s: seq<W128>, offset: nat, idx: nat, delivered: nat)
    requires Good(p) && |s| == p.n && idx < 4 * p.n && delivered + 4 * p.n == 4 * offset + idx
    ensures Lane(Window(p, s, offset)[idx / 4], idx % 4) == Word(p, s, delivered)
  {
    hide Extend, Lane;
    assert offset + idx / 4 == p.n + delivered / 4 && idx % 4 == delivered % 4;
    ExtendPrefix(p, s, delivered / 4 + 1, offset);
    SamePrefix(Extend(p, s, offset), Extend(p, s, delivered / 4 + 1), p.n + delivered / 4);
  }

  lemma ArrayWord(p: Parameters, s: seq<W128>, offset: nat, size: nat, t: nat)
    requires Good(p) && |s| == p.n && t < 4 * size
    ensures Lane(Extend(p, Window(p, s, offset), size)[p.n + t / 4], t % 4) == Word(p, s, 4 * offset + t)
  {
    hide Extend, Lane;
    var q := offset + t / 4;
    assert (4 * offset + t) / 4 == q && (4 * offset + t) % 4 == t % 4;
    ExtendWindow(p, s, offset, size);
    ExtendPrefix(p, s, q + 1, offset + size);
    SamePrefix(Extend(p, s, offset + size), Extend(p, s, q + 1), p.n + q);
    assert Extend(p, s, offset + size)[offset..][p.n + t / 4] == Extend(p, s, offset + size)[p.n + q];
  }

  /** The words of a filled array are the ones due. */
  lemma ArrayWords(p: Parameters, s: seq<W128>, offset: nat, words: seq<W128>)
    requires Good(p) && |s| == p.n && words == Extend(p, Window(p, s, offset), |words|)[p.n..]
    ensures forall t :: 0 <= t < 4 * |words| ==> Lane(words[t / 4], t % 4) == Word(p, s, 4 * offset + t)
  {
    hide Word, Lane;
    forall t | 0 <= t < 4 * |words| ensures Lane(words[t / 4], t % 4) == Word(p, s, 4 * offset + t) {
      ArrayWord(p, s, offset, |words|, t);
    }
  }

  class Generator {
    const p: Parameters
    const sfmt: array<W128>
    /** Position in the state, in 32-bit words. */
    var idx: nat
    ghost const seed: seq<W128>
    /** The state is the window of the seed's sequence at this position. */
    ghost var offset: nat
    /** The number of words delivered so far. */
    ghost var delivered: nat

    ghost predicate Valid()
      reads this, sfmt
    {
      && Good(p) && sfmt.Length == p.n == |seed|
      && idx <= 4 * p.n
      && sfmt[..] == Window(p, seed, offset)
      && delivered + 4 * p.n == 4 * offset + idx
    }

    /** After initialisation the whole state counts as used. */
    constructor (p: Parameters, state: seq<W128>)
      requires Good(p) && |state| == p.n
      ensures Valid() && fresh(sfmt) && this.p == p && seed == state && delivered == 0 && idx == 4 * p.n
    {
      this.p := p;
      sfmt := new W128[p.n](i requires 0 <= i < p.n => state[i]);
      seed := state;
      idx := 4 * p.n;
      offset, delivered := 0, 0;
      new;
      assert sfmt[..] == state;
    }

    /** gen_rand32 delivers the next word. */
    method GenRand32() returns (r: bv32)
      requires Valid()
      modifies this, sfmt
      ensures Valid() && delivered == old(delivered) + 1
      ensures r == Word(p, seed, old(delivered))
    {
      hide Word, Lane, Window, Extend;
      if idx >= 4 * p.n {
        WindowCompose(p, seed, offset, p.n);
        GenRandAll(p, sfmt);
        offset := offset + p.n;
        idx := 0;
      }
      DeliveredWord(p, seed, offset, idx, delivered);
      assert sfmt[idx / 4] == sfmt[..][idx / 4];
      r := Lane(sfmt[idx / 4], idx % 4);
      idx := idx + 1;
      delivered := delivered + 1;
    }

    /** fill_array32 delivers 4 words for each array entry, the same that gen_rand32 would. */
    method FillArray32(arr: array<W128>)
      requires Valid() && idx == 4 * p.n && arr.Length >= p.n && arr != sfmt
      modifies this, sfmt, arr
      ensures Valid() && idx == 4 * p.n && delivered == old(delivered) + 4 * arr.Length
      ensures forall t :: 0 <= t < 4 * arr.Length ==> Lane(arr[t / 4], t % 4) == Word(p, seed, old(delivered) + t)
    {
      hide Word, Lane, Window, Extend;
      WindowCompose(p, seed, offset, arr.Length);
      GenRandArray(p, sfmt, arr);
      ArrayWords(p, seed, offset, arr[..]);
      assert forall i :: 0 <= i < arr.Length ==> arr[i] == arr[..][i];
      offset := offset + arr.Length;
      delivered := delivered + 4 * arr.Length;
      idx := 4 * p.n;
    }
  }
}
