/** From a random number to a ground atom (src/walksat.c:434-458, src/walksat.c:473-529). */
module AtomDecoding {
  import opened Enumeration

  /** The sorts of the arguments of an indirect predicate. */
  type Signature = seq<Sort>

  /** pred_cardinality: the number of ground atoms of a predicate. */
  function PredCardinality(sig: Signature): nat {
    if sig == [] then 1 else Cardinality(sig[0]) * PredCardinality(sig[1..])
  }

  /** The number of ground atoms of the first k predicates. */
  function Prefix(preds: seq<Signature>, k: nat): nat
    requires k <= |preds|
  {
    if k == 0 then 0 else Prefix(preds, k - 1) + PredCardinality(preds[k - 1])
  }

  /** all_atoms_cardinality */
  function AllCardinality(preds: seq<Signature>): nat {
    Prefix(preds, |preds|)
  }

  // ----- mixed radix -----

  ghost predicate IsDigits(sig: Signature, ds: seq<nat>) {
    |ds| == |sig| && forall i :: 0 <= i < |sig| ==> ds[i] < Cardinality(sig[i])
  }

  /** Little-endian: the first argument is the least significant digit. */
  function Number(sig: Signature, ds: seq<nat>): nat
    requires |ds| == |sig|
  {
    if sig == [] then 0 else ds[0] + Cardinality(sig[0]) * Number(sig[1..], ds[1..])
  }

  lemma QuotientRemainder(n: nat, c: nat)
    requires c > 0
    ensures n == n % c + c * (n / c) && n % c < c
  {
  }

  lemma QuotientBound(n: nat, c: nat, p: nat)
    requires c > 0 && n / c >= p
    ensures n >= c * p
  {
    QuotientRemainder(n, c);
    assert c * (n / c) >= c * p;
  }

  lemma FirstDigit(sig: Signature, n: nat)
    requires sig != [] && n < PredCardinality(sig)
    ensures Cardinality(sig[0]) > 0 && n / Cardinality(sig[0]) < PredCardinality(sig[1..])
  {
    var c, p := Cardinality(sig[0]), PredCardinality(sig[1..]);
    assert c == 0 ==> c * p == 0;
    if c > 0 && n / c >= p {
      QuotientBound(n, c, p);
    }
  }

  function Digits(sig: Signature, n: nat): seq<nat>
    requires n < PredCardinality(sig)
  {
    if sig == [] then []
    else
      FirstDigit(sig, n);
      [n % Cardinality(sig[0])] + Digits(sig[1..], n / Cardinality(sig[0]))
  }

  lemma MultipleGap(c: nat, x: nat, y: nat)
    requires x < y
    ensures c * x + c <= c * y
  {
    assert c * (x + 1) == c * x + c;
    assert c * (x + 1) <= c * y;
  }

  lemma DivideBack(d: nat, c: nat, q: nat)
    requires d < c
    ensures (d + c * q) % c == d && (d + c * q) / c == q
  {
    var n := d + c * q;
    assert n == c * (n / c) + n % c;
    if n / c < q {
      MultipleGap(c, n / c, q);
    } else if n / c > q {
      MultipleGap(c, q, n / c);
    }
  }

  /** Numbers below the cardinality and digit strings correspond one to one: there and back. */
  lemma {:induction false} DigitsOfNumber(sig: Signature, n: nat)
    requires n < PredCardinality(sig)
    ensures IsDigits(sig, Digits(sig, n)) && Number(sig, Digits(sig, n)) == n
  {
    if sig != [] {
      FirstDigit(sig, n);
      var c := Cardinality(sig[0]);
      DigitsOfNumber(sig[1..], n / c);
      var ds := Digits(sig, n);
      assert ds[1..] == Digits(sig[1..], n / c);
      QuotientRemainder(n, c);
      hide Digits;
      forall i | 0 <= i < |sig| ensures ds[i] < Cardinality(sig[i]) {
        if i > 0 {
          assert ds[i] == ds[1..][i - 1] && sig[i] == sig[1..][i - 1];
        }
      }
    }
  }

  /** ... and back and there. */
  lemma {:induction false} NumberOfDigits(sig: Signature, ds: seq<nat>)
    requires IsDigits(sig, ds)
    ensures Number(sig, ds) < PredCardinality(sig) && Digits(sig, Number(sig, ds)) == ds
  {
    if sig != [] {
      var c, q, p := Cardinality(sig[0]), Number(sig[1..], ds[1..]), PredCardinality(sig[1..]);
      forall i | 0 <= i < |sig| - 1 ensures ds[1..][i] < Cardinality(sig[1..][i]) {
        assert ds[1..][i] == ds[i + 1];
      }
      NumberOfDigits(sig[1..], ds[1..]);
      MultipleGap(c, q, p);
      DivideBack(ds[0], c, q);
      assert ds == [ds[0]] + ds[1..];
    }
  }

  lemma Scale(c: nat, x: int, y: int, d: int, p: nat)
    requires x - y == d * p
    ensures c * x - c * y == d * (c * p)
  {
    assert c * x - c * y == c * (d * p) == (c * d) * p == (d * c) * p == d * (c * p);
  }

  /** The weight of digit i is the number of digit strings before it: the first argument is the least significant. */
  lemma {:induction false} DigitWeight(sig: Signature, ds: seq<nat>, i: nat, d: nat)
    requires |ds| == |sig| && i < |sig|
    ensures Number(sig, ds[i := d]) - Number(sig, ds) == (d - ds[i]) * PredCardinality(sig[..i])
  {
    if i == 0 {
      assert ds[i := d][1..] == ds[1..];
    } else {
      assert ds[i := d][1..] == ds[1..][i - 1 := d] && sig[..i][1..] == sig[1..][..i - 1];
      DigitWeight(sig[1..], ds[1..], i - 1, d);
      Scale(Cardinality(sig[0]), Number(sig[1..], ds[1..][i - 1 := d]), Number(sig[1..], ds[1..]), d - ds[i],
            PredCardinality(sig[..i][1..]));
    }
  }

  lemma {:induction false} ZeroDigits(sig: Signature, ds: seq<nat>)
    requires |ds| == |sig| && forall i :: 0 <= i < |ds| ==> ds[i] == 0
    ensures Number(sig, ds) == 0
  {
    if sig != [] {
      ZeroDigits(sig[1..], ds[1..]);
    }
  }

  // ----- ground atoms -----

  /** A ground atom of predicate pred, counted from 0; the arguments are elements of the sorts. */
  datatype Atom = Atom(pred: nat, args: seq<int>)

  ghost predicate WellSorted(preds: seq<Signature>, atom: Atom) {
    && atom.pred < |preds|
    && |atom.args| == |preds[atom.pred]|
    && forall i :: 0 <= i < |atom.args| ==> Contains(preds[atom.pred][i], atom.args[i])
  }

  function Elements(sig: Signature, ds: seq<nat>): seq<int>
    requires |ds| == |sig| && forall i :: 0 <= i < |sig| ==> ds[i] < Cardinality(sig[i])
  {
    seq(|sig|, i requires 0 <= i < |sig| => Element(sig[i], ds[i]))
  }

  /** Number n denotes this atom: n lies in the range of its predicate, and the rest of n gives its arguments. */
  ghost predicate Denotes(preds: seq<Signature>, n: nat, atom: Atom) {
    && atom.pred < |preds|
    && Prefix(preds, atom.pred) <= n < Prefix(preds, atom.pred + 1)
    && var ds := Digits(preds[atom.pred], n - Prefix(preds, atom.pred));
       IsDigits(preds[atom.pred], ds) && atom.args == Elements(preds[atom.pred], ds)
  }

  lemma {:induction false} PrefixMonotone(preds: seq<Signature>, j: nat, k: nat)
    requires j <= k <= |preds|
    ensures Prefix(preds, j) <= Prefix(preds, k)
  {
    if j < k {
      PrefixMonotone(preds, j, k - 1);
    }
  }

  /** A number denotes at most one atom. */
  lemma DenotesOne(preds: seq<Signature>, n: nat, a: Atom, b: Atom)
    requires Denotes(preds, n, a) && Denotes(preds, n, b)
    ensures a == b
  {
    if a.pred < b.pred {
      PrefixMonotone(preds, a.pred + 1, b.pred);
    } else if b.pred < a.pred {
      PrefixMonotone(preds, b.pred + 1, a.pred);
    }
  }

  lemma {:induction false} Positions(sig: Signature, args: seq<int>) returns (ds: seq<nat>)
    requires |args| == |sig| && forall i :: 0 <= i < |sig| ==> Contains(sig[i], args[i])
    ensures IsDigits(sig, ds) && Elements(sig, ds) == args
  {
    if sig == [] {
      ds := [];
    } else {
      var k := |sig| - 1;
      var front := Positions(sig[..k], args[..k]);
      var i :| 0 <= i < Cardinality(sig[k]) && Element(sig[k], i) == args[k];
      ds := front + [i];
      assert forall j :: 0 <= j < k ==> Elements(sig[..k], front)[j] == args[j];
    }
  }

  /** Over duplicate-free sorts each well-sorted ground atom is denoted by exactly one number below the total. */
  lemma EachAtomOnce(preds: seq<Signature>, atom: Atom) returns (n: nat)
    requires WellSorted(preds, atom)
    requires forall p, i :: 0 <= p < |preds| && 0 <= i < |preds[p]| ==> DuplicateFree(preds[p][i])
    ensures n < AllCardinality(preds) && Denotes(preds, n, atom)
    ensures forall m: nat :: Denotes(preds, m, atom) ==> m == n
  {
    var sig := preds[atom.pred];
    var ds := Positions(sig, atom.args);
    NumberOfDigits(sig, ds);
    n := Prefix(preds, atom.pred) + Number(sig, ds);
    PrefixMonotone(preds, atom.pred + 1, |preds|);
    assert atom.args == Elements(sig, ds);
    forall m: nat | Denotes(preds, m, atom) ensures m == n {
      var es := Digits(sig, m - Prefix(preds, atom.pred));
      DigitsOfNumber(sig, m - Prefix(preds, atom.pred));
      forall i | 0 <= i < |sig| ensures es[i] == ds[i] {
        assert Element(sig[i], es[i]) == atom.args[i] == Element(sig[i], ds[i]);
        assert DuplicateFree(sig[i]);
      }
      assert es == ds;
    }
  }

  /** What the decoding denotes is well sorted. */
  lemma DenotesWellSorted(preds: seq<Signature>, n: nat, atom: Atom)
    requires Denotes(preds, n, atom)
    ensures WellSorted(preds, atom) && n < AllCardinality(preds)
  {
    var sig := preds[atom.pred];
    var ds := Digits(sig, n - Prefix(preds, atom.pred));
    forall i | 0 <= i < |sig| ensures Contains(sig[i], atom.args[i]) {
      assert Element(sig[i], ds[i]) == atom.args[i];
    }
    PrefixMonotone(preds, atom.pred + 1, |preds|);
  }

  /** One division: the remainder is the digit due, the quotient is left for the digits behind it. */
  lemma TakeDigit(sig: Signature, ds: seq<nat>, i: nat, n: nat)
    requires i < |sig| == |ds| && n < PredCardinality(sig[i..]) && ds[i..] == Digits(sig[i..], n)
    ensures var c := Cardinality(sig[i]);
      && c > 0 && n % c == ds[i]
      && n / c < PredCardinality(sig[i + 1..]) && ds[i + 1..] == Digits(sig[i + 1..], n / c)
  {
    FirstDigit(sig[i..], n);
    assert sig[i..][1..] == sig[i + 1..] && ds[i..][1..] == ds[i + 1..];
    assert ds[i..][0] == ds[i];
  }

  /** Successive division. */
  method DecodeArguments(sig: Signature, n: nat) returns (args: seq<int>)
    requires n < PredCardinality(sig)
    ensures IsDigits(sig, Digits(sig, n)) && args == Elements(sig, Digits(sig, n))
  {
    hide Digits, PredCardinality, Cardinality;
    DigitsOfNumber(sig, n);
    ghost var ds := Digits(sig, n);
    var anum: nat := n;
    args := [];
    assert sig[0..] == sig && ds[0..] == ds;
    for i := 0 to |sig|
      invariant anum < PredCardinality(sig[i..]) && ds[i..] == Digits(sig[i..], anum)
      invariant args == Elements(sig, ds)[..i]
    {
      TakeDigit(sig, ds, i, anum);
      var card := Cardinality(sig[i]);
      args := args + [Element(sig[i], anum % card)];
      anum := anum / card;
    }
    assert Elements(sig, ds)[..|sig|] == Elements(sig, ds);
  }

  /** The decoding part of choose_random_atom. */
  method DecodeAtom(preds: seq<Signature>, atomNum: nat) returns (atom: Atom)
    requires atomNum < AllCardinality(preds) <= 0x7fff_ffff
    ensures Denotes(preds, atomNum, atom)
  {
    var pred, acard := 0, 0;
    while acard + PredCardinality(preds[pred]) <= atomNum
      invariant pred < |preds| && acard == Prefix(preds, pred) <= atomNum
      decreases |preds| - pred
    {
      acard := acard + PredCardinality(preds[pred]);
      pred := pred + 1;
    }
    var args := DecodeArguments(preds[pred], atomNum - acard);
    return Atom(pred, args);
  }
}
