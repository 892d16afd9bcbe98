/**
 Enumeration of the winning lines of an order-k, n-dimensional board.

 `get_lines` builds k + 2 index rows (forward 0..k-1, backward k-1..0, and one
 constant row per index i), picks one row per axis by broadcasting, and keeps
 a pick only when its first non-constant axis runs forward. Here the same
 construction is an explicit enumeration: `Choices` lists every pick in the
 broadcast's row-major order, `Canonical` is the mask, and `LineOf` turns a
 pick into the k coordinates it indexes.
 */
module Lines {
  import opened Coords

  /** What one axis does along a line: run forward, run backward, or stay at index i. */
  datatype AxisChoice = Fwd | Bwd | Const(i: nat)

  predicate ValidChoice(k: nat, a: AxisChoice)
  {
    a.Const? ==> a.i < k
  }

  predicate ValidChoices(k: nat, c: seq<AxisChoice>)
  {
    forall j :: 0 <= j < |c| ==> ValidChoice(k, c[j])
  }

  predicate Distinct<T(==)>(s: seq<T>)
  {
    forall a, b :: 0 <= a < b < |s| ==> s[a] != s[b]
  }

  /** The k + 2 stacked index rows: row 0 runs forward, row 1 backward, row 2 + i is constantly i. */
  function Rows(k: nat): seq<AxisChoice>
  {
    [Fwd, Bwd] + ConstRows(0, k)
  }

  function ConstRows(lo: nat, hi: nat): seq<AxisChoice>
    decreases hi - lo
  {
    if lo >= hi then [] else [Const(lo)] + ConstRows(lo + 1, hi)
  }

  /** Index on one axis at step t of a line. */
  function AxisIndex(k: nat, a: AxisChoice, t: int): int
  {
    match a
    case Fwd => t
    case Bwd => k - 1 - t
    case Const(i) => i
  }

  /** How one axis changes from one cell of a line to the next. */
  function Direction(a: AxisChoice): int
  {
    match a
    case Fwd => 1
    case Bwd => -1
    case Const(_) => 0
  }

  /** Swaps forward and backward axes: the same cells traversed the other way. */
  function Flip(c: seq<AxisChoice>): seq<AxisChoice>
  {
    seq(|c|, j requires 0 <= j < |c| => match c[j] case Fwd => Bwd case Bwd => Fwd case Const(i) => Const(i))
  }

  /** The k cells a pick of one row per axis indexes, in traversal order. */
  function LineOf(k: nat, c: seq<AxisChoice>): seq<seq<int>>
  {
    seq(k, t => seq(|c|, j requires 0 <= j < |c| => AxisIndex(k, c[j], t)))
  }

  function Prefix(a: AxisChoice, rest: seq<seq<AxisChoice>>): seq<seq<AxisChoice>>
  {
    seq(|rest|, m requires 0 <= m < |rest| => [a] + rest[m])
  }

  function Extend(rows: seq<AxisChoice>, rest: seq<seq<AxisChoice>>): seq<seq<AxisChoice>>
  {
    if rows == [] then [] else Prefix(rows[0], rest) + Extend(rows[1..], rest)
  }

  /** Every pick of one row per axis for n axes, axis 0 varying slowest (the broadcast's order). */
  function Choices(k: nat, n: nat): seq<seq<AxisChoice>>
  {
    if n == 0 then [[]] else Extend(Rows(k), Choices(k, n - 1))
  }

  /** The mask: some axis runs forward and every axis before it is constant. */
  predicate Canonical(c: seq<AxisChoice>)
  {
    exists i :: 0 <= i < |c| && c[i] == Fwd && forall j :: 0 <= j < i ==> c[j].Const?
  }

  /** The picks the mask keeps, in their original order. */
  function Kept(cs: seq<seq<AxisChoice>>): seq<seq<AxisChoice>>
  {
    if cs == [] then []
    else if Canonical(cs[0]) then [cs[0]] + Kept(cs[1..])
    else Kept(cs[1..])
  }

  /** The mask filter keeps exactly the canonical picks, and keeps them distinct. */
  lemma {:induction false} KeptMembers(cs: seq<seq<AxisChoice>>)
    ensures forall c :: c in Kept(cs) <==> c in cs && Canonical(c)
    ensures Distinct(cs) ==> Distinct(Kept(cs))
  {
    if cs != [] {
      KeptMembers(cs[1..]);
      assert cs == [cs[0]] + cs[1..];
      assert Distinct(cs) ==> Distinct(cs[1..]);
      assert Distinct(cs) ==> cs[0] !in cs[1..];
    }
  }

  /** A line of the board: k cells, each inside [0, k)^n. */
  predicate OnBoard(n: nat, k: nat, line: seq<seq<int>>)
  {
    |line| == k && forall t :: 0 <= t < |line| ==> ValidCoord(k, n, line[t])
  }

  /** All winning lines of an order-k board with n axes, as `board[index][mask]` lists them. */
  function GetLines(n: nat, k: nat): (lines: seq<seq<seq<int>>>)
    ensures forall m :: 0 <= m < |lines| ==> OnBoard(n, k, lines[m])
  {
    var cs := Kept(Choices(k, n));
    ChoicesShape(k, n);
    KeptMembers(Choices(k, n));
    forall m | 0 <= m < |cs|
      ensures OnBoard(n, k, LineOf(k, cs[m]))
    {
      assert cs[m] in cs;
      LineOfOnBoard(k, cs[m]);
    }
    seq(|cs|, m requires 0 <= m < |cs| => LineOf(k, cs[m]))
  }

  lemma LineOfOnBoard(k: nat, c: seq<AxisChoice>)
    requires ValidChoices(k, c)
    ensures OnBoard(|c|, k, LineOf(k, c))
  {
    var line := LineOf(k, c);
    forall t | 0 <= t < k
      ensures ValidCoord(k, |c|, line[t])
    {
      forall j | 0 <= j < |c|
        ensures 0 <= line[t][j] < k
      {
        assert ValidChoice(k, c[j]);
      }
    }
  }

  // ---------------------------------------------------------------------------
  // The pick enumeration

  lemma RowsMembership(k: nat, a: AxisChoice)
    ensures a in Rows(k) <==> ValidChoice(k, a)
  {
    ConstRowsMembership(0, k, a);
  }

  lemma {:induction false} ConstRowsMembership(lo: nat, hi: nat, a: AxisChoice)
    ensures a in ConstRows(lo, hi) <==> a.Const? && lo <= a.i < hi
    decreases hi - lo
  {
    if lo < hi {
      ConstRowsMembership(lo + 1, hi, a);
    }
  }

  lemma {:induction false} ConstRowsShape(lo: nat, hi: nat)
    ensures |ConstRows(lo, hi)| == if lo <= hi then hi - lo else 0
    ensures Distinct(ConstRows(lo, hi))
    ensures forall j :: 0 <= j < |ConstRows(lo, hi)| ==> ConstRows(lo, hi)[j].Const?
    decreases hi - lo
  {
    if lo < hi {
      ConstRowsShape(lo + 1, hi);
      ConstRowsMembership(lo + 1, hi, Const(lo));
    }
  }

  lemma PrefixMembership(a: AxisChoice, rest: seq<seq<AxisChoice>>, c: seq<AxisChoice>)
    ensures c in Prefix(a, rest) <==> |c| > 0 && c[0] == a && c[1..] in rest
  {
    var p := Prefix(a, rest);
    if c in p {
      var m :| 0 <= m < |p| && p[m] == c;
      assert c[1..] == rest[m];
    }
    if |c| > 0 && c[0] == a && c[1..] in rest {
      var m :| 0 <= m < |rest| && rest[m] == c[1..];
      assert p[m] == c;
    }
  }

  lemma {:induction false} ExtendMembership(rows: seq<AxisChoice>, rest: seq<seq<AxisChoice>>, c: seq<AxisChoice>)
    ensures c in Extend(rows, rest) <==> |c| > 0 && c[0] in rows && c[1..] in rest
  {
    if rows != [] {
      PrefixMembership(rows[0], rest, c);
      ExtendMembership(rows[1..], rest, c);
      assert rows == [rows[0]] + rows[1..];
    }
  }

  lemma DistinctAppend<T>(a: seq<T>, b: seq<T>)
    requires Distinct(a) && Distinct(b)
    requires forall x :: x in a ==> x !in b
    ensures Distinct(a + b)
  {
    var s := a + b;
    forall i, j | 0 <= i < j < |s|
      ensures s[i] != s[j]
    {
      if i < |a| && j >= |a| {
        assert s[i] in a;
        assert s[j] == b[j - |a|];
      }
    }
  }

  lemma PrefixDistinct(a: AxisChoice, rest: seq<seq<AxisChoice>>)
    requires Distinct(rest)
    ensures Distinct(Prefix(a, rest))
  {
    var p := Prefix(a, rest);
    forall i, j | 0 <= i < j < |p|
      ensures p[i] != p[j]
    {
      assert p[i][1..] == rest[i];
      assert p[j][1..] == rest[j];
    }
  }

  lemma {:induction false} ExtendDistinct(rows: seq<AxisChoice>, rest: seq<seq<AxisChoice>>)
    requires Distinct(rows) && Distinct(rest)
    ensures Distinct(Extend(rows, rest))
  {
    if rows != [] {
      ExtendDistinct(rows[1..], rest);
      PrefixDistinct(rows[0], rest);
      forall x | x in Prefix(rows[0], rest)
        ensures x !in Extend(rows[1..], rest)
      {
        PrefixMembership(rows[0], rest, x);
        ExtendMembership(rows[1..], rest, x);
      }
      DistinctAppend(Prefix(rows[0], rest), Extend(rows[1..], rest));
    }
  }

  lemma {:induction false} ExtendLength(rows: seq<AxisChoice>, rest: seq<seq<AxisChoice>>)
    ensures |Extend(rows, rest)| == |rows| * |rest|
  {
    if rows != [] {
      ExtendLength(rows[1..], rest);
      MulSucc(|rows|, |rest|);
    }
  }

  lemma ValidChoicesCons(k: nat, c: seq<AxisChoice>)
    requires |c| > 0
    ensures ValidChoices(k, c) <==> ValidChoice(k, c[0]) && ValidChoices(k, c[1..])
  {
    if ValidChoice(k, c[0]) && ValidChoices(k, c[1..]) {
      forall j | 0 <= j < |c|
        ensures ValidChoice(k, c[j])
      {
        if j > 0 {
          assert c[j] == c[1..][j - 1];
        }
      }
    }
  }

  lemma {:induction false} ChoicesMembers(k: nat, n: nat)
    ensures forall c :: c in Choices(k, n) <==> |c| == n && ValidChoices(k, c)
  {
    if n == 0 {
      forall c | |c| == 0
        ensures c in Choices(k, n)
      {
        assert c == [];
      }
    } else {
      var rest := Choices(k, n - 1);
      ChoicesMembers(k, n - 1);
      forall c
        ensures c in Choices(k, n) <==> |c| == n && ValidChoices(k, c)
      {
        ExtendMembership(Rows(k), rest, c);
        if |c| > 0 {
          RowsMembership(k, c[0]);
          ValidChoicesCons(k, c);
        }
      }
    }
  }

  lemma RowsDistinct(k: nat)
    ensures Distinct(Rows(k))
  {
    ConstRowsShape(0, k);
    ConstRowsMembership(0, k, Fwd);
    ConstRowsMembership(0, k, Bwd);
  }

  lemma {:induction false} ChoicesDistinct(k: nat, n: nat)
    ensures Distinct(Choices(k, n))
  {
    if n > 0 {
      ChoicesDistinct(k, n - 1);
      RowsDistinct(k);
      ExtendDistinct(Rows(k), Choices(k, n - 1));
    }
  }

  lemma {:induction false} ChoicesLength(k: nat, n: nat)
    ensures |Choices(k, n)| == Pow(k + 2, n)
  {
    if n > 0 {
      ChoicesLength(k, n - 1);
      ConstRowsShape(0, k);
      ExtendLength(Rows(k), Choices(k, n - 1));
    }
  }

  /** The picks are exactly the valid per-axis choices, each listed once, (k + 2)^n of them. */
  lemma ChoicesShape(k: nat, n: nat)
    ensures forall c :: c in Choices(k, n) <==> |c| == n && ValidChoices(k, c)
    ensures Distinct(Choices(k, n))
    ensures |Choices(k, n)| == Pow(k + 2, n)
  {
    ChoicesMembers(k, n);
    ChoicesDistinct(k, n);
    ChoicesLength(k, n);
  }

  // ---------------------------------------------------------------------------
  // The mask

  lemma CanonicalCons(a: AxisChoice, c: seq<AxisChoice>)
    ensures a == Fwd ==> Canonical([a] + c)
    ensures a == Bwd ==> !Canonical([a] + c)
    ensures a.Const? ==> (Canonical([a] + c) <==> Canonical(c))
  {
    var s := [a] + c;
    if !a.Const? {
      assert FirstMoving(s, 0);
      CanonicalIffFirstMovingForward(s, 0);
    } else {
      if Canonical(c) {
        var i :| 0 <= i < |c| && c[i] == Fwd && forall j :: 0 <= j < i ==> c[j].Const?;
        assert s[i + 1] == Fwd;
        assert forall j :: 0 <= j < i + 1 ==> s[j].Const? by {
          forall j | 0 <= j < i + 1
            ensures s[j].Const?
          {
            if j > 0 {
              assert s[j] == c[j - 1];
            }
          }
        }
      }
      if Canonical(s) {
        var i :| 0 <= i < |s| && s[i] == Fwd && forall j :: 0 <= j < i ==> s[j].Const?;
        assert c[i - 1] == Fwd;
        assert forall j :: 0 <= j < i - 1 ==> c[j].Const? by {
          forall j | 0 <= j < i - 1
            ensures c[j].Const?
          {
            assert c[j] == s[j + 1];
          }
        }
      }
    }
  }

  lemma {:induction false} KeptAppend(a: seq<seq<AxisChoice>>, b: seq<seq<AxisChoice>>)
    ensures Kept(a + b) == Kept(a) + Kept(b)
  {
    if a != [] {
      assert (a + b)[1..] == a[1..] + b;
      KeptAppend(a[1..], b);
    } else {
      assert a + b == b;
    }
  }

  lemma {:induction false} KeptPrefix(a: AxisChoice, rest: seq<seq<AxisChoice>>)
    ensures a == Fwd ==> |Kept(Prefix(a, rest))| == |rest|
    ensures a == Bwd ==> |Kept(Prefix(a, rest))| == 0
    ensures a.Const? ==> |Kept(Prefix(a, rest))| == |Kept(rest)|
  {
    if rest != [] {
      var p := Prefix(a, rest);
      assert p[1..] == Prefix(a, rest[1..]);
      KeptPrefix(a, rest[1..]);
      CanonicalCons(a, rest[0]);
    }
  }

  lemma {:induction false} KeptConstRows(lo: nat, hi: nat, rest: seq<seq<AxisChoice>>)
    ensures |Kept(Extend(ConstRows(lo, hi), rest))| == |ConstRows(lo, hi)| * |Kept(rest)|
    decreases hi - lo
  {
    if lo < hi {
      var rows := ConstRows(lo, hi);
      var tail := ConstRows(lo + 1, hi);
      assert rows == [Const(lo)] + tail;
      assert rows[0] == Const(lo) && rows[1..] == tail;
      assert Extend(rows, rest) == Prefix(Const(lo), rest) + Extend(tail, rest);
      KeptConstRows(lo + 1, hi, rest);
      KeptAppend(Prefix(Const(lo), rest), Extend(tail, rest));
      KeptPrefix(Const(lo), rest);
      MulSucc(|rows|, |Kept(rest)|);
    }
  }

  /** Picks for n + 1 axes: the forward block, the backward block, then one block per constant row. */
  lemma ChoicesSplit(k: nat, n: nat)
    ensures var rest := Choices(k, n);
      Choices(k, n + 1) == Prefix(Fwd, rest) + (Prefix(Bwd, rest) + Extend(ConstRows(0, k), rest))
  {
    var rows := Rows(k);
    var rest := Choices(k, n);
    assert rows[0] == Fwd && rows[1..][0] == Bwd;
    assert rows[1..][1..] == ConstRows(0, k);
    assert Choices(k, n + 1) == Extend(rows, rest);
    assert Extend(rows, rest) == Prefix(Fwd, rest) + Extend(rows[1..], rest);
    assert Extend(rows[1..], rest) == Prefix(Bwd, rest) + Extend(ConstRows(0, k), rest);
  }

  /** Only the forward block survives whole; each constant block keeps what the mask keeps of n axes. */
  lemma KeptStep(k: nat, n: nat)
    ensures |Kept(Choices(k, n + 1))| == Pow(k + 2, n) + k * |Kept(Choices(k, n))|
  {
    var rest := Choices(k, n);
    var fwd := Prefix(Fwd, rest);
    var bwd := Prefix(Bwd, rest);
    var consts := Extend(ConstRows(0, k), rest);
    ChoicesSplit(k, n);
    ChoicesShape(k, n);
    KeptAppend(fwd, bwd + consts);
    KeptAppend(bwd, consts);
    KeptPrefix(Fwd, rest);
    KeptPrefix(Bwd, rest);
    KeptConstRows(0, k, rest);
    ConstRowsShape(0, k);
  }

  /** The mask keeps ((k + 2)^n - k^n) / 2 of the picks. */
  lemma {:induction false} KeptCount(k: nat, n: nat)
    ensures 2 * |Kept(Choices(k, n))| == Pow(k + 2, n) - Pow(k, n)
  {
    if n == 0 {
      assert !Canonical([]);
      assert Choices(k, 0) == [[]];
    } else {
      KeptCount(k, n - 1);
      KeptStep(k, n - 1);
      CountStep(k, Pow(k + 2, n - 1), Pow(k, n - 1), |Kept(Choices(k, n - 1))|);
    }
  }

  lemma MulSucc(a: int, b: int)
    requires a >= 1
    ensures a * b == b + (a - 1) * b
  {
  }

  lemma CountStep(k: int, p: int, q: int, kept: int)
    requires 2 * kept == p - q
    ensures 2 * (p + k * kept) == (k + 2) * p - k * q
  {
    assert k * (2 * kept) == k * p - k * q;
  }

  /** There are ((k + 2)^n - k^n) / 2 winning lines. */
  lemma LineCount(n: nat, k: nat)
    ensures 2 * |GetLines(n, k)| == Pow(k + 2, n) - Pow(k, n)
  {
    KeptCount(k, n);
  }

  /** The classic counts: 8 lines on the 3 x 3 board, 49 on the 3 x 3 x 3 cube. */
  lemma LineCountInstances()
    ensures |GetLines(2, 3)| == 8
    ensures |GetLines(3, 3)| == 49
  {
    LineCount(2, 3);
    LineCount(3, 3);
    assert Pow(5, 3) == 125 && Pow(3, 3) == 27;
  }

  // ---------------------------------------------------------------------------
  // Geometry of the lines

  /** The k cells s, s + v, ..., s + (k - 1) v. */
  function Walk(s: seq<int>, v: seq<int>, k: nat): seq<seq<int>>
    requires |s| == |v|
  {
    seq(k, t => seq(|s|, j requires 0 <= j < |s| => s[j] + t * v[j]))
  }

  /** Every component of the step is -1, 0 or +1. */
  predicate UnitStep(v: seq<int>)
  {
    forall j :: 0 <= j < |v| ==> -1 <= v[j] <= 1
  }

  /** The representative of the pair {v, -v}: its first non-zero component is +1. */
  predicate CanonicalStep(v: seq<int>)
  {
    exists i :: 0 <= i < |v| && v[i] == 1 && forall j :: 0 <= j < i ==> v[j] == 0
  }

  function StepOf(c: seq<AxisChoice>): seq<int>
  {
    seq(|c|, j requires 0 <= j < |c| => Direction(c[j]))
  }

  function StartOf(k: nat, c: seq<AxisChoice>): seq<int>
  {
    seq(|c|, j requires 0 <= j < |c| => AxisIndex(k, c[j], 0))
  }

  lemma LineOfIsWalk(k: nat, c: seq<AxisChoice>)
    requires Canonical(c)
    ensures UnitStep(StepOf(c)) && CanonicalStep(StepOf(c))
    ensures LineOf(k, c) == Walk(StartOf(k, c), StepOf(c), k)
  {
    var i :| 0 <= i < |c| && c[i] == Fwd && forall j :: 0 <= j < i ==> c[j].Const?;
    assert StepOf(c)[i] == 1;
    var line := LineOf(k, c);
    var w := Walk(StartOf(k, c), StepOf(c), k);
    forall t | 0 <= t < k
      ensures line[t] == w[t]
    {
      forall j | 0 <= j < |c|
        ensures line[t][j] == w[t][j]
      {
        AxisIndexStep(k, c[j], t);
      }
    }
  }

  lemma AxisIndexStep(k: nat, a: AxisChoice, t: int)
    ensures AxisIndex(k, a, t) == AxisIndex(k, a, 0) + t * Direction(a)
  {
  }

  lemma MemberOfKept(k: nat, n: nat, m: nat)
    requires m < |Kept(Choices(k, n))|
    ensures var c := Kept(Choices(k, n))[m];
      c in Choices(k, n) && Canonical(c) && |c| == n && ValidChoices(k, c)
  {
    var cs := Kept(Choices(k, n));
    KeptMembers(Choices(k, n));
    assert cs[m] in cs;
    ChoicesShape(k, n);
  }

  /**
   Every enumerated line is a walk of k cells from some start along a step in
   {-1, 0, +1}^n whose first non-zero component is +1; consecutive cells
   therefore differ by that one fixed step.
   */
  lemma LinesAreWalks(n: nat, k: nat, line: seq<seq<int>>)
    requires line in GetLines(n, k)
    ensures exists s: seq<int>, v: seq<int> :: |s| == n && |v| == n && UnitStep(v) && CanonicalStep(v) && line == Walk(s, v, k)
  {
    var cs := Kept(Choices(k, n));
    var m :| 0 <= m < |cs| && line == LineOf(k, cs[m]);
    MemberOfKept(k, n, m);
    LineOfIsWalk(k, cs[m]);
    assert line == Walk(StartOf(k, cs[m]), StepOf(cs[m]), k);
  }

  /** The pick that walks from s along v; axes that do not move stay at their start index. */
  function ChoiceFor(s: int, v: int): AxisChoice
  {
    if v == 1 then Fwd else if v == -1 then Bwd else Const(if s < 0 then 0 else s)
  }

  /**
   Completeness: every walk of k cells along a canonical unit step that stays
   inside the board is one of the enumerated lines.
   */
  lemma WalksAreLines(n: nat, k: nat, s: seq<int>, v: seq<int>)
    requires k >= 1 && |s| == n && |v| == n
    requires UnitStep(v) && CanonicalStep(v)
    requires forall t :: 0 <= t < k ==> ValidCoord(k, n, Walk(s, v, k)[t])
    ensures Walk(s, v, k) in GetLines(n, k)
  {
    var w := Walk(s, v, k);
    var c := seq(n, j requires 0 <= j < n => ChoiceFor(s[j], v[j]));
    forall j | 0 <= j < n
      ensures ValidChoice(k, c[j])
      ensures forall t :: 0 <= t < k ==> AxisIndex(k, c[j], t) == s[j] + t * v[j]
    {
      assert 0 <= w[0][j] < k && 0 <= w[k - 1][j] < k;
      assert w[0][j] == s[j];
      assert w[k - 1][j] == s[j] + (k - 1) * v[j];
      if v[j] == 1 {
        assert s[j] == 0;
      } else if v[j] == -1 {
        assert s[j] == k - 1;
      } else {
        assert v[j] == 0;
      }
    }
    forall t | 0 <= t < k
      ensures LineOf(k, c)[t] == w[t]
    {
      forall j | 0 <= j < n
        ensures LineOf(k, c)[t][j] == w[t][j]
      {
        assert AxisIndex(k, c[j], t) == s[j] + t * v[j];
      }
    }
    assert LineOf(k, c) == w;
    var i :| 0 <= i < |v| && v[i] == 1 && forall j :: 0 <= j < i ==> v[j] == 0;
    assert c[i] == Fwd;
    assert Canonical(c);
    ChoicesShape(k, n);
    KeptMembers(Choices(k, n));
    var cs := Kept(Choices(k, n));
    assert c in cs;
    var m :| 0 <= m < |cs| && cs[m] == c;
    assert GetLines(n, k)[m] == w;
  }

  /** With at least two cells per line, a line determines the pick that produced it. */
  lemma LineOfInjective(k: nat, c1: seq<AxisChoice>, c2: seq<AxisChoice>)
    requires k >= 2 && |c1| == |c2|
    requires ValidChoices(k, c1) && ValidChoices(k, c2)
    requires LineOf(k, c1) == LineOf(k, c2)
    ensures c1 == c2
  {
    var line := LineOf(k, c1);
    forall j | 0 <= j < |c1|
      ensures c1[j] == c2[j]
    {
      assert line[0][j] == AxisIndex(k, c1[j], 0) == AxisIndex(k, c2[j], 0);
      assert line[1][j] == AxisIndex(k, c1[j], 1) == AxisIndex(k, c2[j], 1);
    }
  }

  /** No line is listed twice. */
  lemma LinesDistinct(n: nat, k: nat)
    requires k >= 2
    ensures Distinct(GetLines(n, k))
  {
    var cs := Kept(Choices(k, n));
    ChoicesShape(k, n);
    KeptMembers(Choices(k, n));
    var lines := GetLines(n, k);
    forall a, b | 0 <= a < b < |lines|
      ensures lines[a] != lines[b]
    {
      MemberOfKept(k, n, a);
      MemberOfKept(k, n, b);
      if lines[a] == lines[b] {
        LineOfInjective(k, cs[a], cs[b]);
      }
    }
  }

  /** The k cells of every line are pairwise distinct. */
  lemma LineCellsDistinct(n: nat, k: nat, line: seq<seq<int>>)
    requires line in GetLines(n, k)
    ensures Distinct(line)
  {
    var cs := Kept(Choices(k, n));
    var m :| 0 <= m < |cs| && line == LineOf(k, cs[m]);
    MemberOfKept(k, n, m);
    var c := cs[m];
    var i :| 0 <= i < |c| && c[i] == Fwd && forall j :: 0 <= j < i ==> c[j].Const?;
    forall a, b | 0 <= a < b < |line|
      ensures line[a] != line[b]
    {
      assert line[a][i] == a && line[b][i] == b;
    }
  }

  lemma ReverseLineOf(k: nat, c: seq<AxisChoice>)
    ensures Reverse(LineOf(k, c)) == LineOf(k, Flip(c))
  {
    var r := Reverse(LineOf(k, c));
    var f := LineOf(k, Flip(c));
    forall t | 0 <= t < k
      ensures r[t] == f[t]
    {
      assert r[t] == LineOf(k, c)[k - 1 - t];
    }
  }

  /** An axis that moves, with every axis before it constant. */
  predicate FirstMoving(c: seq<AxisChoice>, i: int)
  {
    0 <= i < |c| && !c[i].Const? && forall j :: 0 <= j < i ==> c[j].Const?
  }

  lemma FirstMovingExists(c: seq<AxisChoice>, j0: int)
    requires 0 <= j0 < |c| && !c[j0].Const?
    ensures exists i :: FirstMoving(c, i)
    decreases j0
  {
    if !FirstMoving(c, j0) {
      var j :| 0 <= j < j0 && !c[j].Const?;
      FirstMovingExists(c, j);
    }
  }

  lemma FirstMovingUnique(c: seq<AxisChoice>, i1: int, i2: int)
    requires FirstMoving(c, i1) && FirstMoving(c, i2)
    ensures i1 == i2
  {
  }

  /** The mask in other words: the first axis that moves runs forward. */
  lemma CanonicalIffFirstMovingForward(c: seq<AxisChoice>, i: int)
    requires FirstMoving(c, i)
    ensures Canonical(c) <==> c[i] == Fwd
  {
    if Canonical(c) {
      var i' :| 0 <= i' < |c| && c[i'] == Fwd && forall j :: 0 <= j < i' ==> c[j].Const?;
      assert FirstMoving(c, i');
      FirstMovingUnique(c, i, i');
    }
  }

  /** Of a pick and its reversal, exactly one passes the mask, as long as some axis moves. */
  lemma FlipCanonical(c: seq<AxisChoice>, j0: int)
    requires 0 <= j0 < |c| && !c[j0].Const?
    ensures Canonical(c) != Canonical(Flip(c))
  {
    FirstMovingExists(c, j0);
    var i :| FirstMoving(c, i);
    var f := Flip(c);
    assert FirstMoving(f, i);
    CanonicalIffFirstMovingForward(c, i);
    CanonicalIffFirstMovingForward(f, i);
  }

  /** A line on the board is enumerated exactly when its pick passes the mask. */
  lemma LineOfEnumeratedIff(n: nat, k: nat, c: seq<AxisChoice>)
    requires k >= 2 && |c| == n && ValidChoices(k, c)
    ensures LineOf(k, c) in GetLines(n, k) <==> Canonical(c)
  {
    ChoicesShape(k, n);
    KeptMembers(Choices(k, n));
    var cs := Kept(Choices(k, n));
    if Canonical(c) {
      assert c in cs;
      var m :| 0 <= m < |cs| && cs[m] == c;
      assert GetLines(n, k)[m] == LineOf(k, c);
    }
    if LineOf(k, c) in GetLines(n, k) {
      var m :| 0 <= m < |cs| && GetLines(n, k)[m] == LineOf(k, c);
      MemberOfKept(k, n, m);
      LineOfInjective(k, cs[m], c);
    }
  }

  /**
   Every straight line through the board (a pick in which some axis moves)
   appears in exactly one of its two traversal directions.
   */
  lemma EachLineOnce(n: nat, k: nat, c: seq<AxisChoice>, j0: int)
    requires k >= 2 && |c| == n && ValidChoices(k, c)
    requires 0 <= j0 < n && !c[j0].Const?
    ensures (LineOf(k, c) in GetLines(n, k)) != (Reverse(LineOf(k, c)) in GetLines(n, k))
  {
    ReverseLineOf(k, c);
    FlipCanonical(c, j0);
    LineOfEnumeratedIff(n, k, c);
    assert ValidChoices(k, Flip(c)) by {
      forall j | 0 <= j < |c|
        ensures ValidChoice(k, Flip(c)[j])
      {
        assert ValidChoice(k, c[j]);
      }
    }
    LineOfEnumeratedIff(n, k, Flip(c));
  }

  /** No enumerated line is also enumerated backwards, and no pick without a moving axis is kept. */
  lemma NoReversedDuplicates(n: nat, k: nat, line: seq<seq<int>>)
    requires k >= 2 && line in GetLines(n, k)
    ensures Reverse(line) !in GetLines(n, k)
  {
    var cs := Kept(Choices(k, n));
    var m :| 0 <= m < |cs| && line == LineOf(k, cs[m]);
    MemberOfKept(k, n, m);
    var c := cs[m];
    var i :| 0 <= i < |c| && c[i] == Fwd && forall j :: 0 <= j < i ==> c[j].Const?;
    EachLineOnce(n, k, c, i);
  }
}
