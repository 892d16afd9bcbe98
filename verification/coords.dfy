/**
 The board of an order-`order`, `dims`-dimensional game is a hypercube of
 order^dims cells. A move is a single integer in [0, order^dims); this module
 turns it into one index per axis (the mixed-radix digit extraction `step`
 performs) and back (the row-major position the flattened board uses).
 */
module Coords {

  /** b^e: the number of cells of an order-b board with e axes. */
  function Pow(b: nat, e: nat): nat
  {
    if e == 0 then 1 else b * Pow(b, e - 1)
  }

  lemma {:induction false} PowAtLeastOne(b: nat, e: nat)
    requires b >= 1
    ensures Pow(b, e) >= 1
  {
    if e > 0 {
      PowAtLeastOne(b, e - 1);
    }
  }

  lemma {:induction false} PowMonotone(b: nat, e: nat)
    requires b >= 2 && e >= 1
    ensures Pow(b, e) >= b
  {
    if e > 1 {
      PowMonotone(b, e - 1);
    }
  }

  /** A coordinate of the board: one index per axis, each in [0, order). */
  predicate ValidCoord(order: nat, dims: nat, c: seq<int>)
  {
    |c| == dims && forall j :: 0 <= j < |c| ==> 0 <= c[j] < order
  }

  /** Row-major position of a coordinate: axis 0 varies slowest, the last axis fastest. */
  function Encode(order: nat, c: seq<int>): int
  {
    if c == [] then 0 else Encode(order, c[..|c| - 1]) * order + c[|c| - 1]
  }

  /** Base-`b` digits of `m`, least significant first, stopping as soon as the quotient reaches 0. */
  function Digits(m: nat, b: nat): (ds: seq<int>)
    requires b >= 2
    ensures forall i :: 0 <= i < |ds| ==> 0 <= ds[i] < b
    ensures m == 0 <==> ds == []
    decreases m
  {
    if m == 0 then [] else [m % b] + Digits(m / b, b)
  }

  /** Zero digits for the higher axes the extraction did not reach. */
  function Pad(ds: seq<int>, dims: nat): seq<int>
  {
    if |ds| < dims then ds + Zeros(dims - |ds|) else ds
  }

  function Zeros(n: nat): seq<int>
  {
    seq(n, _ => 0)
  }

  /** The same elements in the opposite order. */
  function Reverse<T>(s: seq<T>): (r: seq<T>)
    ensures |r| == |s|
    ensures forall i :: 0 <= i < |s| ==> r[i] == s[|s| - 1 - i]
  {
    if s == [] then [] else Reverse(s[1..]) + [s[0]]
  }

  /**
   The coordinate `step` computes for `move`: digits least significant first,
   padded with zeros up to `dims` axes, then reversed so that index 0 is the
   slowest-varying axis.
   */
  function Decode(order: nat, dims: nat, move: nat): (c: seq<int>)
    requires order >= 2
    ensures move < Pow(order, dims) ==> ValidCoord(order, dims, c)
  {
    DigitsFit(move, order, dims);
    Reverse(Pad(Digits(move, order), dims))
  }

  /** The value of a digit sequence read least significant first. */
  function Lsb(b: nat, ds: seq<int>): int
  {
    if ds == [] then 0 else ds[0] + b * Lsb(b, ds[1..])
  }

  lemma {:induction false} DigitsFit(m: nat, b: nat, dims: nat)
    requires b >= 2
    ensures m < Pow(b, dims) ==> |Digits(m, b)| <= dims
    decreases dims
  {
    if m > 0 && m < Pow(b, dims) {
      assert dims > 0;
      DivBelow(m, b, Pow(b, dims - 1));
      DigitsFit(m / b, b, dims - 1);
    }
  }

  lemma {:induction false} LsbDigits(m: nat, b: nat)
    requires b >= 2
    ensures Lsb(b, Digits(m, b)) == m
    decreases m
  {
    if m > 0 {
      var ds := Digits(m, b);
      var q := m / b;
      DivShrinks(m, b);
      assert ds[1..] == Digits(q, b);
      LsbDigits(q, b);
      assert ds[0] == m % b;
      assert Lsb(b, ds) == ds[0] + b * Lsb(b, ds[1..]);
      assert m == b * q + m % b;
    }
  }

  lemma {:induction false} LsbZeros(b: nat, n: nat)
    ensures Lsb(b, Zeros(n)) == 0
  {
    if n > 0 {
      assert Zeros(n)[1..] == Zeros(n - 1);
      LsbZeros(b, n - 1);
    }
  }

  lemma {:induction false} LsbPadded(b: nat, ds: seq<int>, n: nat)
    ensures Lsb(b, ds + Zeros(n)) == Lsb(b, ds)
  {
    if ds == [] {
      assert ds + Zeros(n) == Zeros(n);
      LsbZeros(b, n);
    } else {
      assert (ds + Zeros(n))[1..] == ds[1..] + Zeros(n);
      LsbPadded(b, ds[1..], n);
    }
  }

  lemma {:induction false} EncodeReverse(b: nat, ds: seq<int>)
    ensures Encode(b, Reverse(ds)) == Lsb(b, ds)
  {
    if ds != [] {
      var r := Reverse(ds);
      assert r == Reverse(ds[1..]) + [ds[0]];
      assert r[..|r| - 1] == Reverse(ds[1..]);
      EncodeReverse(b, ds[1..]);
    }
  }

  /** Row-major encoding stays inside the board. */
  lemma {:induction false} EncodeBound(order: nat, c: seq<int>)
    requires ValidCoord(order, |c|, c)
    ensures 0 <= Encode(order, c) < Pow(order, |c|)
  {
    if c != [] {
      var p := c[..|c| - 1];
      var last := c[|c| - 1];
      assert ValidCoord(order, |p|, p);
      EncodeBound(order, p);
      BoundStep(Encode(order, p), last, Pow(order, |p|), order);
    }
  }

  /** One row-major step: e < q and d < b give e * b + d < b * q. */
  lemma BoundStep(e: int, d: int, q: int, b: int)
    requires 0 <= e < q && 0 <= d < b
    ensures 0 <= e * b + d < b * q
  {
    MulNonneg(q - 1 - e, b);
    MulNonneg(e, b);
    assert (q - 1 - e) * b == q * b - e * b - b;
  }

  lemma DivModUnique(q1: int, r1: int, q2: int, r2: int, b: int)
    requires b > 0 && 0 <= r1 < b && 0 <= r2 < b
    requires q1 * b + r1 == q2 * b + r2
    ensures q1 == q2 && r1 == r2
  {
    if q1 < q2 {
      MulNonneg(q2 - q1 - 1, b);
    } else if q2 < q1 {
      MulNonneg(q1 - q2 - 1, b);
    }
  }

  lemma MulNonneg(x: int, y: int)
    requires x >= 0 && y >= 0
    ensures x * y >= 0
  {
  }

  lemma DivShrinks(m: nat, b: nat)
    requires m > 0 && b >= 2
    ensures m / b < m
  {
    var q := m / b;
    MulNonneg(b - 2, q);
    assert b * q == 2 * q + (b - 2) * q;
  }

  lemma DivBelow(m: nat, b: nat, p: nat)
    requires b > 0 && m < b * p
    ensures m / b < p
  {
    var q := m / b;
    assert b * q <= m;
    if q >= p {
      MulNonneg(b, q - p);
    }
  }

  /** Distinct coordinates of the board have distinct row-major positions. */
  lemma {:induction false} EncodeInjective(order: nat, c1: seq<int>, c2: seq<int>)
    requires order >= 1
    requires ValidCoord(order, |c1|, c1) && ValidCoord(order, |c1|, c2)
    requires Encode(order, c1) == Encode(order, c2)
    ensures c1 == c2
  {
    if c1 != [] {
      var n := |c1|;
      EncodeBound(order, c1[..n - 1]);
      EncodeBound(order, c2[..n - 1]);
      DivModUnique(Encode(order, c1[..n - 1]), c1[n - 1], Encode(order, c2[..n - 1]), c2[n - 1], order);
      EncodeInjective(order, c1[..n - 1], c2[..n - 1]);
      assert c1 == c1[..n - 1] + [c1[n - 1]];
      assert c2 == c2[..n - 1] + [c2[n - 1]];
    }
  }

  /** Decoding a move and re-encoding it row-major gives the move back. */
  lemma EncodeDecode(order: nat, dims: nat, move: nat)
    requires order >= 2 && move < Pow(order, dims)
    ensures ValidCoord(order, dims, Decode(order, dims, move))
    ensures Encode(order, Decode(order, dims, move)) == move
  {
    var ds := Digits(move, order);
    DigitsFit(move, order, dims);
    EncodeReverse(order, Pad(ds, dims));
    if |ds| < dims {
      LsbPadded(order, ds, dims - |ds|);
    }
    LsbDigits(move, order);
  }

  /** Every coordinate of the board is the decoding of its row-major position. */
  lemma DecodeEncode(order: nat, c: seq<int>)
    requires order >= 2 && ValidCoord(order, |c|, c)
    ensures 0 <= Encode(order, c) < Pow(order, |c|)
    ensures Decode(order, |c|, Encode(order, c)) == c
  {
    EncodeBound(order, c);
    var m := Encode(order, c);
    EncodeDecode(order, |c|, m);
    EncodeInjective(order, Decode(order, |c|, m), c);
  }

  /** Distinct moves address distinct cells. */
  lemma DecodeInjective(order: nat, dims: nat, m1: nat, m2: nat)
    requires order >= 2 && m1 < Pow(order, dims) && m2 < Pow(order, dims)
    requires Decode(order, dims, m1) == Decode(order, dims, m2)
    ensures m1 == m2
  {
    EncodeDecode(order, dims, m1);
    EncodeDecode(order, dims, m2);
  }
}
