/** Rewrites of integer block diagrams that keep their meaning, all wrap-around included. */
module NativeLaws {
  import opened Basics
  import opened WrappedIntegers
  import opened NativeBlocks

  /** Every output fits its type, and is the exact value whenever that fits, however often
      partial sums overflowed. */
  lemma OutputIsExactWhenItFits(g: Matrix, u: Matrix, y: Matrix, k: nat, bits: Width)
    requires GainOf(g, u, y, bits) && k < |y.data|
    ensures Fits(y.data[k], bits)
    ensures y.data[k] == Exact(g, u, k) <==> Fits(Exact(g, u, k), bits)
  {
    WrapInRange(Exact(g, u, k), bits);
  }

  /** A gain has one output for each input. */
  lemma GainIsAFunction(g: Matrix, u: Matrix, y: Matrix, y': Matrix, bits: Width)
    requires GainOf(g, u, y, bits) && GainOf(g, u, y', bits)
    ensures y == y'
  {
    assert y.data == y'.data;
  }

  // ------------------------------------------------------------------ sums of products

  /** b * (a * u), the outer sum over `n` and the inner over `m` terms. */
  function Nested(b: Matrix, a: Matrix, u: Matrix, j: nat, l: nat, n: nat, m: nat): int
    requires Good(b) && Good(a) && Good(u) && j < b.rows && l < u.cols
    requires n <= b.cols && n <= a.rows && m <= a.cols && m <= u.rows
  {
    if n == 0 then 0 else Nested(b, a, u, j, l, n - 1, m) + At(b, j, n - 1) * Dot(a, u, n - 1, l, m)
  }

  lemma {:induction false} NestedStep(b: Matrix, a: Matrix, u: Matrix, j: nat, l: nat, n: nat, m: nat)
    requires Good(b) && Good(a) && Good(u) && j < b.rows && l < u.cols
    requires n <= b.cols && n <= a.rows && m < a.cols && m < u.rows
    ensures Nested(b, a, u, j, l, n, m + 1) == Nested(b, a, u, j, l, n, m) + Dot(b, a, j, m, n) * At(u, m, l)
  {
    hide At;
    if n == 0 {
    } else {
      NestedStep(b, a, u, j, l, n - 1, m);
      var x, d, p, q := At(b, j, n - 1), Dot(a, u, n - 1, l, m), At(a, n - 1, m), At(u, m, l);
      assert x * (d + p * q) == x * d + (x * p) * q by {
        Distribute(x, d, p, q);
      }
      var before := Dot(b, a, j, m, n - 1);
      assert (before + x * p) * q == before * q + (x * p) * q;
    }
  }

  lemma Distribute(x: int, d: int, p: int, q: int)
    ensures x * (d + p * q) == x * d + (x * p) * q
  {
    assert x * (d + p * q) == x * d + x * (p * q);
    assert x * (p * q) == (x * p) * q;
  }

  lemma {:induction false} NestedOfNothing(b: Matrix, a: Matrix, u: Matrix, j: nat, l: nat, n: nat)
    requires Good(b) && Good(a) && Good(u) && j < b.rows && l < u.cols && n <= b.cols && n <= a.rows
    ensures Nested(b, a, u, j, l, n, 0) == 0
  {
    if n == 0 {
    } else {
      NestedOfNothing(b, a, u, j, l, n - 1);
    }
  }

  /** `v` is congruent to a * u in column `l`: b * v is congruent to b * (a * u). */
  lemma {:induction false} OuterIsNested(b: Matrix, a: Matrix, u: Matrix, v: Matrix, j: nat, l: nat, n: nat, m: nat, bits: Width)
    requires Good(b) && Good(a) && Good(u) && Good(v) && j < b.rows && l < u.cols == v.cols
    requires n <= b.cols && n <= a.rows == v.rows && m <= a.cols && m <= u.rows
    requires forall i :: 0 <= i < n ==> At(v, i, l) == Wrap(Dot(a, u, i, l, m), bits)
    ensures Wrap(Dot(b, v, j, l, n), bits) == Wrap(Nested(b, a, u, j, l, n, m), bits)
  {
    hide At, Wrap;
    if n == 0 {
    } else {
      OuterIsNested(b, a, u, v, j, l, n - 1, m, bits);
      var x, d := At(b, j, n - 1), Dot(a, u, n - 1, l, m);
      assert At(v, n - 1, l) == Wrap(d, bits);
      WrapMul(d, x, bits);
      WrapSum(Dot(b, v, j, l, n - 1), Nested(b, a, u, j, l, n - 1, m), x * At(v, n - 1, l), x * d, bits);
    }
  }

  /** `c` is congruent to b * a in row `j`: c * u is congruent to b * (a * u). */
  lemma {:induction false} InnerIsNested(b: Matrix, a: Matrix, c: Matrix, u: Matrix, j: nat, l: nat, n: nat, m: nat, bits: Width)
    requires Good(b) && Good(a) && Good(c) && Good(u) && j < b.rows == c.rows && l < u.cols
    requires n <= b.cols && n <= a.rows && m <= a.cols == c.cols && m <= u.rows
    requires forall t :: 0 <= t < m ==> At(c, j, t) == Wrap(Dot(b, a, j, t, n), bits)
    ensures Wrap(Dot(c, u, j, l, m), bits) == Wrap(Nested(b, a, u, j, l, n, m), bits)
  {
    hide At, Wrap;
    if m == 0 {
      NestedOfNothing(b, a, u, j, l, n);
    } else {
      InnerIsNested(b, a, c, u, j, l, n, m - 1, bits);
      NestedStep(b, a, u, j, l, n, m - 1);
      var d, x := Dot(b, a, j, m - 1, n), At(u, m - 1, l);
      assert At(c, j, m - 1) == Wrap(d, bits);
      WrapMul(d, x, bits);
      WrapSum(Dot(c, u, j, l, m - 1), Nested(b, a, u, j, l, n, m - 1), At(c, j, m - 1) * x, d * x, bits);
    }
  }

  /** Scaling either factor by `s`, wrapped entry by entry, scales the product. */
  lemma {:induction false} ScaledDot(s: int, g: Matrix, u: Matrix, g': Matrix, u': Matrix, j: nat, l: nat, n: nat, bits: Width)
    requires Good(g) && Good(u) && Good(g') && Good(u') && j < g.rows && l < u.cols && n <= g.cols && n <= u.rows
    requires g'.rows == g.rows && g'.cols == g.cols && u'.rows == u.rows && u'.cols == u.cols
    requires || (g' == g && forall i :: 0 <= i < n ==> At(u', i, l) == Wrap(s * At(u, i, l), bits))
             || (u' == u && forall i :: 0 <= i < n ==> At(g', j, i) == Wrap(s * At(g, j, i), bits))
    ensures Wrap(Dot(g', u', j, l, n), bits) == Wrap(s * Dot(g, u, j, l, n), bits)
  {
    hide At, Wrap;
    if n == 0 {
    } else {
      ScaledDot(s, g, u, g', u', j, l, n - 1, bits);
      var x, y, d := At(g, j, n - 1), At(u, n - 1, l), Dot(g, u, j, l, n - 1);
      var p := At(g', j, n - 1) * At(u', n - 1, l);
      assert p == Wrap(s * x, bits) * y || p == x * Wrap(s * y, bits);
      ScaledTerm(s, x, y, p, bits);
      WrapSum(Dot(g', u', j, l, n - 1), s * d, p, s * (x * y), bits);
      MulAdd(s, d, x * y);
    }
  }

  lemma MulAdd(s: int, d: int, e: int)
    ensures s * (d + e) == s * d + s * e
  {
  }

  lemma ScaledTerm(s: int, x: int, y: int, p: int, bits: Width)
    requires (p == Wrap(s * x, bits) * y || p == x * Wrap(s * y, bits))
    ensures Wrap(p, bits) == Wrap(s * (x * y), bits)
  {
    hide Wrap;
    WrapMul(s * x, y, bits);
    WrapMul(s * y, x, bits);
    Reorder(s, x, y);
  }

  lemma Reorder(s: int, x: int, y: int)
    ensures (s * x) * y == s * (x * y) == (s * y) * x == x * (s * y)
  {
  }

  // ------------------------------------------------------------------- cascaded gains

  /** The block's own product of two gains. */
  ghost predicate ProductOf(b: Matrix, a: Matrix, c: Matrix, bits: Width)
  {
    if IsScalar(a) then GainOf(a, b, c, bits) else GainOf(b, a, c, bits)
  }

  /** Where rows and columns meet, an entry is an inner product, also for a 1 by 1 gain. */
  lemma ExactIsDot(g: Matrix, u: Matrix, k: nat) returns (j: nat, l: nat)
    requires Compatible(g, u) && u.rows == g.cols && k < g.rows * u.cols
    ensures j < g.rows && l < u.cols && k == j + l * g.rows
    ensures OutRows(g, u) == g.rows && Exact(g, u, k) == Dot(g, u, j, l, g.cols)
  {
    RowAndColumn(k, g.rows, u.cols);
    j, l := k % g.rows, k / g.rows;
    if IsScalar(g) {
      OneByOne(g);
      assert Dot(g, u, 0, l, 1) == At(g, 0, 0) * At(u, 0, l);
    }
  }

  lemma OneByOne(g: Matrix)
    requires Good(g) && IsScalar(g)
    ensures g.rows == 1 && g.cols == 1 && |g.data| == 1
  {
    if g.rows > 1 {
      MulMono(2, g.rows, g.cols);
    } else if g.cols > 1 {
      MulMono(2, g.cols, g.rows);
    }
  }

  lemma EntryAt(g: Matrix, u: Matrix, y: Matrix, j: nat, l: nat, bits: Width)
    requires GainOf(g, u, y, bits) && u.rows == g.cols && j < y.rows && l < y.cols
    ensures y.rows == g.rows && At(y, j, l) == Wrap(Dot(g, u, j, l, g.cols), bits)
  {
    hide Dot, Wrap;
    if IsScalar(g) {
      OneByOne(g);
    }
    FlatIndex(j, g.rows, l, u.cols);
    var j', l' := ExactIsDot(g, u, j + l * g.rows);
    FlatIndex(j', g.rows, l', u.cols);
  }

  lemma ScalarEntryAt(g: Matrix, u: Matrix, y: Matrix, i: nat, l: nat, bits: Width)
    requires GainOf(g, u, y, bits) && IsScalar(g) && i < y.rows && l < y.cols
    ensures |g.data| == 1 && y.rows == u.rows && At(y, i, l) == Wrap(g.data[0] * At(u, i, l), bits)
  {
    FlatIndex(i, u.rows, l, u.cols);
  }

  lemma CascadeOfMatrices(a: Matrix, b: Matrix, c: Matrix, u: Matrix, v: Matrix, w: Matrix, bits: Width)
    requires GainOf(a, u, v, bits) && GainOf(b, v, w, bits) && GainOf(b, a, c, bits)
    requires !IsScalar(a) && !IsScalar(b)
    ensures GainOf(c, u, w, bits)
  {
    hide Wrap, Exact, Dot, At;
    forall k | 0 <= k < |w.data|
      ensures w.data[k] == Wrap(Exact(c, u, k), bits)
    {
      var j, l := ExactIsDot(b, v, k);
      var j', l' := ExactIsDot(c, u, k);
      FlatIndex(j, b.rows, l, v.cols);
      FlatIndex(j', c.rows, l', u.cols);
      forall i | 0 <= i < b.cols
        ensures At(v, i, l) == Wrap(Dot(a, u, i, l, a.cols), bits)
      {
        EntryAt(a, u, v, i, l, bits);
      }
      forall t | 0 <= t < a.cols
        ensures At(c, j, t) == Wrap(Dot(b, a, j, t, b.cols), bits)
      {
        EntryAt(b, a, c, j, t, bits);
      }
      OuterIsNested(b, a, u, v, j, l, b.cols, a.cols, bits);
      InnerIsNested(b, a, c, u, j, l, b.cols, a.cols, bits);
    }
    if IsScalar(c) {
      OneByOne(c);
    }
  }

  lemma ScalarThenMatrix(a: Matrix, b: Matrix, c: Matrix, u: Matrix, v: Matrix, w: Matrix, bits: Width)
    requires GainOf(a, u, v, bits) && GainOf(b, v, w, bits) && GainOf(a, b, c, bits)
    requires IsScalar(a) && !IsScalar(b)
    ensures GainOf(c, u, w, bits)
  {
    hide Wrap, Exact, Dot, At;
    forall k | 0 <= k < |w.data|
      ensures w.data[k] == Wrap(Exact(c, u, k), bits)
    {
      var j, l := ExactIsDot(b, v, k);
      var j', l' := ExactIsDot(c, u, k);
      FlatIndex(j, b.rows, l, v.cols);
      FlatIndex(j', c.rows, l', u.cols);
      OneByOne(a);
      forall i | 0 <= i < b.cols
        ensures At(v, i, l) == Wrap(a.data[0] * At(u, i, l), bits)
        ensures At(c, j, i) == Wrap(a.data[0] * At(b, j, i), bits)
      {
        ScalarEntryAt(a, u, v, i, l, bits);
        ScalarEntryAt(a, b, c, j, i, bits);
      }
      ScaledDot(a.data[0], b, u, b, v, j, l, b.cols, bits);
      ScaledDot(a.data[0], b, u, c, u, j, l, b.cols, bits);
    }
  }

  lemma MatrixThenScalar(a: Matrix, b: Matrix, c: Matrix, u: Matrix, v: Matrix, w: Matrix, bits: Width)
    requires GainOf(a, u, v, bits) && GainOf(b, v, w, bits) && GainOf(b, a, c, bits)
    requires !IsScalar(a) && IsScalar(b)
    ensures GainOf(c, u, w, bits)
  {
    hide Wrap, Dot, At;
    OneByOne(b);
    forall k | 0 <= k < |w.data|
      ensures w.data[k] == Wrap(Exact(c, u, k), bits)
    {
      hide Exact;
      var j, l := ExactIsDot(a, u, k);
      var j', l' := ExactIsDot(c, u, k);
      FlatIndex(j, a.rows, l, u.cols);
      FlatIndex(j', c.rows, l', u.cols);
      forall i | 0 <= i < a.cols
        ensures At(c, j, i) == Wrap(b.data[0] * At(a, j, i), bits)
      {
        ScalarEntryAt(b, a, c, j, i, bits);
      }
      ScaledDot(b.data[0], a, u, c, u, j, l, a.cols, bits);
      ExactOfScalar(b, v, k);
      WrapMul(Dot(a, u, j, l, a.cols), b.data[0], bits);
    }
  }

  lemma ThreeFactors(x: int, y: int, z: int, bits: Width)
    ensures Wrap(y * Wrap(x * z, bits), bits) == Wrap(Wrap(x * y, bits) * z, bits)
  {
    hide Wrap;
    WrapMul(x * z, y, bits);
    WrapMul(x * y, z, bits);
    Reorder(x, y, z);
  }

  lemma ScalarThenScalar(a: Matrix, b: Matrix, c: Matrix, u: Matrix, v: Matrix, w: Matrix, bits: Width)
    requires GainOf(a, u, v, bits) && GainOf(b, v, w, bits) && GainOf(a, b, c, bits)
    requires IsScalar(a) && IsScalar(b)
    ensures GainOf(c, u, w, bits)
  {
    hide Wrap, Exact;
    OneByOne(a);
    OneByOne(b);
    forall k | 0 <= k < |w.data|
      ensures w.data[k] == Wrap(Exact(c, u, k), bits)
    {
      ExactOfScalar(a, u, k);
      ExactOfScalar(b, v, k);
      ExactOfScalar(a, b, 0);
      ExactOfScalar(c, u, k);
      ThreeFactors(a.data[0], b.data[0], u.data[k], bits);
    }
  }

  /** Two gains in a row are one gain, whose matrix the block itself computes from them: it
      puts out the same matrix `w`, and nothing else. */
  lemma CascadeComposes(a: Matrix, b: Matrix, c: Matrix, u: Matrix, v: Matrix, w: Matrix, bits: Width)
    requires GainOf(a, u, v, bits) && GainOf(b, v, w, bits) && ProductOf(b, a, c, bits)
    ensures forall y :: GainOf(c, u, y, bits) <==> y == w
  {
    CascadeIsAGain(a, b, c, u, v, w, bits);
    forall y | GainOf(c, u, y, bits)
      ensures y == w
    {
      GainIsAFunction(c, u, w, y, bits);
    }
  }

  lemma CascadeIsAGain(a: Matrix, b: Matrix, c: Matrix, u: Matrix, v: Matrix, w: Matrix, bits: Width)
    requires GainOf(a, u, v, bits) && GainOf(b, v, w, bits) && ProductOf(b, a, c, bits)
    ensures GainOf(c, u, w, bits)
  {
    hide GainOf;
    if IsScalar(a) && IsScalar(b) {
      ScalarThenScalar(a, b, c, u, v, w, bits);
    } else if IsScalar(a) {
      ScalarThenMatrix(a, b, c, u, v, w, bits);
    } else if IsScalar(b) {
      MatrixThenScalar(a, b, c, u, v, w, bits);
    } else {
      CascadeOfMatrices(a, b, c, u, v, w, bits);
    }
  }

  // ------------------------------------------------------------- gains and summations

  /** The signed sum over `p` ports of the exact gain outputs at flat position `k`. */
  function GainSum(g: Matrix, us: seq<Matrix>, ipar: seq<int>, k: nat, p: nat): int
    requires p <= |us| && p <= |ipar|
    requires forall i :: 0 <= i < p ==> Compatible(g, us[i]) && k < OutRows(g, us[i]) * us[i].cols
  {
    if p == 0 then 0
    else GainSum(g, us, ipar, k, p - 1) + if ipar[p - 1] > 0 then Exact(g, us[p - 1], k) else -Exact(g, us[p - 1], k)
  }

  /** Summing the gains' outputs, wrapped, is congruent to their exact signed sum. */
  lemma {:induction false} SumOfGains(g: Matrix, us: seq<Matrix>, ys: seq<Matrix>, ipar: seq<int>, k: nat, p: nat, bits: Width)
    requires p <= |us| == |ys| && p <= |ipar|
    requires forall i :: 0 <= i < p ==> GainOf(g, us[i], ys[i], bits) && k < |ys[i].data|
    requires forall i :: 0 <= i < p ==> Compatible(g, us[i]) && k < OutRows(g, us[i]) * us[i].cols
    ensures Wrap(SignedSum(ys, ipar, k, p), bits) == Wrap(GainSum(g, us, ipar, k, p), bits)
  {
    hide Wrap, Exact;
    if p == 0 {
    } else {
      SumOfGains(g, us, ys, ipar, k, p - 1, bits);
      var e := Exact(g, us[p - 1], k);
      assert ys[p - 1].data[k] == Wrap(e, bits);
      WrapTwice(e, bits);
      WrapSum(SignedSum(ys, ipar, k, p - 1), GainSum(g, us, ipar, k, p - 1), ys[p - 1].data[k], e, bits);
    }
  }

  /** Row `j` of the gain against column `l` of the exact signed sum of `p` ports. */
  function DotSum(g: Matrix, us: seq<Matrix>, ipar: seq<int>, cols: nat, j: nat, l: nat, n: nat, p: nat): int
    requires Good(g) && Ports(us, g.cols, cols) && p <= |us| && p <= |ipar| && n <= g.cols && j < g.rows && l < cols
  {
    if n == 0 then 0
    else
      FlatIndex(n - 1, g.cols, l, cols);
      DotSum(g, us, ipar, cols, j, l, n - 1, p)
      + At(g, j, n - 1) * SignedSum(us, ipar, (n - 1) + l * g.cols, p)
  }

  lemma {:induction false} DotSumStep(g: Matrix, us: seq<Matrix>, ipar: seq<int>, cols: nat, j: nat, l: nat, n: nat, p: nat)
    requires Good(g) && Ports(us, g.cols, cols) && p < |us| && p < |ipar| && n <= g.cols && j < g.rows && l < cols
    ensures DotSum(g, us, ipar, cols, j, l, n, p + 1)
         == DotSum(g, us, ipar, cols, j, l, n, p)
            + if ipar[p] > 0 then Dot(g, us[p], j, l, n) else -Dot(g, us[p], j, l, n)
  {
    if n == 0 {
    } else {
      DotSumStep(g, us, ipar, cols, j, l, n - 1, p);
      FlatIndex(n - 1, g.cols, l, cols);
      var at := (n - 1) + l * g.cols;
      assert At(us[p], n - 1, l) == us[p].data[at];
      MulAdd(At(g, j, n - 1), SignedSum(us, ipar, at, p), us[p].data[at]);
      MulAdd(At(g, j, n - 1), SignedSum(us, ipar, at, p), -us[p].data[at]);
      MulNeg(At(g, j, n - 1), us[p].data[at]);
    }
  }

  lemma MulNeg(x: int, y: int)
    ensures x * -y == -(x * y)
  {
  }

  lemma {:induction false} DotSumOfNothing(g: Matrix, us: seq<Matrix>, ipar: seq<int>, cols: nat, j: nat, l: nat, n: nat)
    requires Good(g) && Ports(us, g.cols, cols) && n <= g.cols && j < g.rows && l < cols
    ensures DotSum(g, us, ipar, cols, j, l, n, 0) == 0
  {
    if n == 0 {
    } else {
      DotSumOfNothing(g, us, ipar, cols, j, l, n - 1);
    }
  }

  lemma {:induction false} DotSumIsGainSum(g: Matrix, us: seq<Matrix>, ipar: seq<int>, cols: nat, j: nat, l: nat, p: nat)
    requires Good(g) && !IsScalar(g) && Ports(us, g.cols, cols) && p <= |us| && p <= |ipar| && j < g.rows && l < cols
    ensures j + l * g.rows < g.rows * cols
    ensures GainSum(g, us, ipar, j + l * g.rows, p) == DotSum(g, us, ipar, cols, j, l, g.cols, p)
  {
    hide Exact, DotSum, Dot;
    FlatIndex(j, g.rows, l, cols);
    if p == 0 {
      DotSumOfNothing(g, us, ipar, cols, j, l, g.cols);
    } else {
      DotSumIsGainSum(g, us, ipar, cols, j, l, p - 1);
      DotSumStep(g, us, ipar, cols, j, l, g.cols, p - 1);
      ExactAt(g, us[p - 1], j, l);
    }
  }

  /** The gain of the wrapped sum is congruent to the gain of the exact sum. */
  lemma {:induction false} DotOfSum(g: Matrix, us: seq<Matrix>, ipar: seq<int>, s: Matrix, j: nat, l: nat, n: nat, bits: Width)
    requires Good(g) && SumOf(us, ipar, s, bits) && s.rows == g.cols && n <= g.cols && j < g.rows && l < s.cols
    ensures Wrap(Dot(g, s, j, l, n), bits) == Wrap(DotSum(g, us, ipar, s.cols, j, l, n, |us|), bits)
  {
    hide Wrap;
    if n == 0 {
    } else {
      DotOfSum(g, us, ipar, s, j, l, n - 1, bits);
      FlatIndex(n - 1, g.cols, l, s.cols);
      var e := SignedSum(us, ipar, (n - 1) + l * g.cols, |us|);
      assert At(s, n - 1, l) == Wrap(e, bits);
      WrapMul(e, At(g, j, n - 1), bits);
      WrapSum(Dot(g, s, j, l, n - 1), DotSum(g, us, ipar, s.cols, j, l, n - 1, |us|),
              At(g, j, n - 1) * At(s, n - 1, l), At(g, j, n - 1) * e, bits);
    }
  }

  lemma {:induction false} ScaledSum(g: Matrix, us: seq<Matrix>, ipar: seq<int>, k: nat, p: nat)
    requires Good(g) && IsScalar(g) && p <= |us| && p <= |ipar|
    requires forall i :: 0 <= i < p ==> Good(us[i]) && k < us[i].rows * us[i].cols
    ensures |g.data| == 1 && GainSum(g, us, ipar, k, p) == g.data[0] * SignedSum(us, ipar, k, p)
  {
    hide Exact;
    if p == 0 {
    } else {
      ScaledSum(g, us, ipar, k, p - 1);
      ExactOfScalar(g, us[p - 1], k);
      MulAdd(g.data[0], SignedSum(us, ipar, k, p - 1), us[p - 1].data[k]);
      MulAdd(g.data[0], SignedSum(us, ipar, k, p - 1), -us[p - 1].data[k]);
      MulNeg(g.data[0], us[p - 1].data[k]);
    }
  }

  lemma PortsFit(g: Matrix, us: seq<Matrix>, ipar: seq<int>, s: Matrix, k: nat, bits: Width)
    requires SumOf(us, ipar, s, bits) && Compatible(g, s) && k < OutRows(g, s) * s.cols
    ensures forall i :: 0 <= i < |us| ==> Compatible(g, us[i]) && k < OutRows(g, us[i]) * us[i].cols
  {
    hide Wrap, SignedSum;
  }

  lemma ScalarGainOfSum(g: Matrix, us: seq<Matrix>, ipar: seq<int>, s: Matrix, k: nat, bits: Width)
    requires SumOf(us, ipar, s, bits) && Compatible(g, s) && IsScalar(g) && k < OutRows(g, s) * s.cols
    requires forall i :: 0 <= i < |us| ==> Compatible(g, us[i]) && k < OutRows(g, us[i]) * us[i].cols
    ensures Wrap(Exact(g, s, k), bits) == Wrap(GainSum(g, us, ipar, k, |us|), bits)
  {
    hide *;
    ScalarPorts(g, us, ipar, s, k, bits);
    ScaledSum(g, us, ipar, k, |us|);
    ExactOfScalar(g, s, k);
    WrapMul(SignedSum(us, ipar, k, |us|), g.data[0], bits);
  }

  lemma ScalarPorts(g: Matrix, us: seq<Matrix>, ipar: seq<int>, s: Matrix, k: nat, bits: Width)
    requires SumOf(us, ipar, s, bits) && Compatible(g, s) && IsScalar(g) && k < OutRows(g, s) * s.cols
    ensures Good(g) && |us| <= |ipar| && k < |s.data|
    ensures forall i :: 0 <= i < |us| ==> Good(us[i]) && k < us[i].rows * us[i].cols && k < |us[i].data|
    ensures s.data[k] == Wrap(SignedSum(us, ipar, k, |us|), bits)
  {
    hide Wrap, SignedSum;
  }

  lemma MatrixGainOfSum(g: Matrix, us: seq<Matrix>, ipar: seq<int>, s: Matrix, k: nat, bits: Width)
    requires SumOf(us, ipar, s, bits) && Compatible(g, s) && !IsScalar(g) && k < OutRows(g, s) * s.cols
    requires forall i :: 0 <= i < |us| ==> Compatible(g, us[i]) && k < OutRows(g, us[i]) * us[i].cols
    ensures Wrap(Exact(g, s, k), bits) == Wrap(GainSum(g, us, ipar, k, |us|), bits)
  {
    hide Wrap, GainSum, Dot, DotSum, Exact, SignedSum;
    var j, l := ExactIsDot(g, s, k);
    DotOfSum(g, us, ipar, s, j, l, g.cols, bits);
    DotSumIsGainSum(g, us, ipar, s.cols, j, l, |us|);
  }

  /** The gain of a wrapped sum is congruent to the exact signed sum of the gains. */
  lemma GainOfSum(g: Matrix, us: seq<Matrix>, ipar: seq<int>, s: Matrix, k: nat, bits: Width)
    requires SumOf(us, ipar, s, bits) && Compatible(g, s) && k < OutRows(g, s) * s.cols
    requires forall i :: 0 <= i < |us| ==> Compatible(g, us[i]) && k < OutRows(g, us[i]) * us[i].cols
    ensures Wrap(Exact(g, s, k), bits) == Wrap(GainSum(g, us, ipar, k, |us|), bits)
  {
    hide *;
    if IsScalar(g) {
      ScalarGainOfSum(g, us, ipar, s, k, bits);
    } else {
      MatrixGainOfSum(g, us, ipar, s, k, bits);
    }
  }

  /** A gain after a summation is a summation of gains. */
  lemma GainDistributesOverSum(g: Matrix, us: seq<Matrix>, ys: seq<Matrix>, ipar: seq<int>, s: Matrix, y: Matrix, bits: Width)
    requires SumOf(us, ipar, s, bits) && GainOf(g, s, y, bits)
    requires |ys| == |us| && forall i :: 0 <= i < |us| ==> GainOf(g, us[i], ys[i], bits)
    ensures SumOf(ys, ipar, y, bits)
  {
    hide Wrap, Exact, GainSum, SignedSum;
    forall k | 0 <= k < |y.data|
      ensures y.data[k] == Wrap(SignedSum(ys, ipar, k, |ys|), bits)
    {
      PortsFit(g, us, ipar, s, k, bits);
      GainOfSum(g, us, ipar, s, k, bits);
      SumOfGains(g, us, ys, ipar, k, |us|, bits);
    }
  }

  // -------------------------------------------------------------- what the blocks compute

  /** One element is its own sum, and the elements of two parts add up. */
  lemma {:induction false} ElementSumAddsUp(a: seq<int>, b: seq<int>)
    ensures ElementSum(a + b, |a + b|) == ElementSum(a, |a|) + ElementSum(b, |b|)
    ensures |a| == 1 ==> ElementSum(a, 1) == a[0]
    decreases |b|
  {
    if b == [] {
      assert a + b == a;
    } else {
      var init := b[..|b| - 1];
      ElementSumAddsUp(a, init);
      ElementSumOfPrefix(a + b, |a + init|);
      ElementSumOfPrefix(b, |init|);
      assert (a + b)[..|a + init|] == a + init;
    }
  }

  lemma {:induction false} ElementSumOfPrefix(data: seq<int>, n: nat)
    requires n <= |data|
    ensures ElementSum(data, n) == ElementSum(data[..n], n)
  {
    PrefixAgrees(data, data[..n], n);
  }

  lemma {:induction false} PrefixAgrees(a: seq<int>, b: seq<int>, n: nat)
    requires n <= |a| && n <= |b| && forall i :: 0 <= i < n ==> a[i] == b[i]
    ensures ElementSum(a, n) == ElementSum(b, n)
  {
    if n == 0 {
    } else {
      PrefixAgrees(a, b, n - 1);
    }
  }

  /** A port is added where its sign is positive and subtracted otherwise, and the sums over
      two groups of ports add up. */
  lemma {:induction false} SignedSumAddsUp(us: seq<Matrix>, vs: seq<Matrix>, ip: seq<int>, iq: seq<int>, k: nat)
    requires |us| == |ip| && |vs| == |iq|
    requires forall i :: 0 <= i < |us| ==> k < |us[i].data|
    requires forall i :: 0 <= i < |vs| ==> k < |vs[i].data|
    ensures SignedSum(us + vs, ip + iq, k, |us + vs|) == SignedSum(us, ip, k, |us|) + SignedSum(vs, iq, k, |vs|)
    ensures |us| == 1 ==> SignedSum(us, ip, k, 1) == if ip[0] > 0 then us[0].data[k] else -us[0].data[k]
    decreases |vs|
  {
    if vs == [] {
      assert us + vs == us && ip + iq == ip;
    } else {
      var n := |vs| - 1;
      SignedSumAddsUp(us, vs[..n], ip, iq[..n], k);
      PortsAgree(us + vs, us + vs[..n], ip + iq, ip + iq[..n], k, |us| + n);
      PortsAgree(vs, vs[..n], iq, iq[..n], k, n);
    }
  }

  lemma {:induction false} PortsAgree(us: seq<Matrix>, vs: seq<Matrix>, ip: seq<int>, iq: seq<int>, k: nat, n: nat)
    requires n <= |us| && n <= |vs| && n <= |ip| && n <= |iq|
    requires forall i :: 0 <= i < n ==> us[i] == vs[i] && ip[i] == iq[i] && k < |us[i].data|
    ensures SignedSum(us, ip, k, n) == SignedSum(vs, iq, k, n)
  {
    if n == 0 {
    } else {
      PortsAgree(us, vs, ip, iq, k, n - 1);
    }
  }

  /** A column that is 1 in row `i` and 0 elsewhere. */
  function UnitColumn(rows: nat, i: nat): (u: Matrix)
    requires i < rows
    ensures Good(u)
  {
    Matrix(rows, 1, seq(rows, k => if k == i then 1 else 0))
  }

  lemma {:induction false} UnitPicksEntry(g: Matrix, i: nat, j: nat, n: nat)
    requires Good(g) && i < g.cols && j < g.rows && n <= g.cols
    ensures Dot(g, UnitColumn(g.cols, i), j, 0, n) == if i < n then At(g, j, i) else 0
  {
    var u := UnitColumn(g.cols, i);
    if n == 0 {
    } else {
      UnitPicksEntry(g, i, j, n - 1);
      FlatIndex(n - 1, u.rows, 0, u.cols);
      assert At(u, n - 1, 0) == if n - 1 == i then 1 else 0;
    }
  }

  /** A matrix gain puts out its own column `i` for the unit column `i`: with sums kept, this
      is all there is to know of it. */
  lemma GainOfUnitIsColumn(g: Matrix, y: Matrix, i: nat, j: nat, bits: Width)
    requires Good(g) && !IsScalar(g) && i < g.cols && j < g.rows
    requires GainOf(g, UnitColumn(g.cols, i), y, bits)
    ensures y.rows == g.rows && y.cols == 1 && |y.data| == g.rows
    ensures i * g.rows + j < |g.data| && y.data[j] == Wrap(g.data[i * g.rows + j], bits)
  {
    hide Dot, Wrap;
    var u := UnitColumn(g.cols, i);
    UnitPicksEntry(g, i, j, g.cols);
    FlatIndex(j, g.rows, 0, u.cols);
    FlatIndex(j, g.rows, i, g.cols);
    ExactAt(g, u, j, 0);
  }

  lemma {:induction false} ElementsOfScaled(g: Matrix, u: Matrix, y: Matrix, n: nat, bits: Width)
    requires GainOf(g, u, y, bits) && IsScalar(g) && |g.data| == 1 && |u.data| == |y.data| && n <= |y.data|
    ensures Wrap(ElementSum(y.data, n), bits) == Wrap(g.data[0] * ElementSum(u.data, n), bits)
  {
    hide Wrap, Exact;
    if n == 0 {
    } else {
      ElementsOfScaled(g, u, y, n - 1, bits);
      ExactOfScalar(g, u, n - 1);
      var e := g.data[0] * u.data[n - 1];
      WrapTwice(e, bits);
      WrapSum(ElementSum(y.data, n - 1), g.data[0] * ElementSum(u.data, n - 1), y.data[n - 1], e, bits);
      MulAdd(g.data[0], ElementSum(u.data, n - 1), u.data[n - 1]);
    }
  }

  /** A scalar gain also commutes with the sum over the elements of a single port. */
  lemma ScalarGainOfElementSum(g: Matrix, u: Matrix, y: Matrix, bits: Width)
    requires GainOf(g, u, y, bits) && IsScalar(g)
    ensures |g.data| == 1 && |u.data| == |y.data|
    ensures Wrap(ElementSum(y.data, |y.data|), bits) == Wrap(g.data[0] * Wrap(ElementSum(u.data, |u.data|), bits), bits)
  {
    hide Wrap, Exact, ElementSum;
    OneByOne(g);
    ElementsOfScaled(g, u, y, |y.data|, bits);
    WrapMul(ElementSum(u.data, |u.data|), g.data[0], bits);
  }
}
