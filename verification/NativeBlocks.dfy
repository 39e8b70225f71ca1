/** The native-integer gain and summation blocks: column-major matrices of wrapped integers. */
module NativeBlocks {
  import opened Basics
  import opened WrappedIntegers

  datatype Matrix = Matrix(rows: nat, cols: nat, data: seq<int>)

  predicate Good(m: Matrix) {
    m.rows > 0 && m.cols > 0 && |m.data| == m.rows * m.cols
  }

  lemma FlatIndex(r: nat, rows: nat, c: nat, cols: nat)
    requires r < rows && c < cols
    ensures r + c * rows < rows * cols
    ensures (r + c * rows) % rows == r && (r + c * rows) / rows == c
  {
    MulMono(c + 1, cols, rows);
    DivModUnique(r + c * rows, c, r, rows);
  }

  lemma RowAndColumn(k: nat, rows: nat, cols: nat)
    requires k < rows * cols && rows > 0
    ensures k % rows < rows && k / rows < cols && k == k % rows + (k / rows) * rows
  {
    DivModBounds(k, cols, rows);
  }

  function At(m: Matrix, r: nat, c: nat): int
    requires Good(m) && r < m.rows && c < m.cols
  {
    FlatIndex(r, m.rows, c, m.cols);
    m.data[r + c * m.rows]
  }

  /** The first `n` terms of an entry of the exact product, over the unbounded integers. */
  function Dot(g: Matrix, u: Matrix, j: nat, l: nat, n: nat): int
    requires Good(g) && Good(u) && j < g.rows && l < u.cols && n <= g.cols && n <= u.rows
  {
    if n == 0 then 0 else Dot(g, u, j, l, n - 1) + At(g, j, n - 1) * At(u, n - 1, l)
  }

  predicate IsScalar(g: Matrix) {
    g.rows * g.cols == 1
  }

  /** The sizes a gain block is wired with. */
  predicate Compatible(g: Matrix, u: Matrix) {
    Good(g) && Good(u) && (IsScalar(g) || u.rows == g.cols)
  }

  function OutRows(g: Matrix, u: Matrix): nat {
    if IsScalar(g) then u.rows else g.rows
  }

  /** Entry `k` of the exact product (of the exact multiple, for a scalar gain). */
  function Exact(g: Matrix, u: Matrix, k: nat): int
    requires Compatible(g, u) && k < OutRows(g, u) * u.cols
  {
    if IsScalar(g) then
      g.data[0] * u.data[k]
    else
      RowAndColumn(k, g.rows, u.cols);
      Dot(g, u, k % g.rows, k / g.rows, g.cols)
  }

  lemma ExactAt(g: Matrix, u: Matrix, j: nat, l: nat)
    requires Compatible(g, u) && !IsScalar(g) && j < g.rows && l < u.cols
    ensures j + l * g.rows < g.rows * u.cols
    ensures Exact(g, u, j + l * g.rows) == Dot(g, u, j, l, g.cols)
  {
    hide Dot;
    FlatIndex(j, g.rows, l, u.cols);
  }

  /** `y` is what the gain block with matrix `g` puts out for `u`. */
  ghost predicate GainOf(g: Matrix, u: Matrix, y: Matrix, bits: Width)
  {
    && Compatible(g, u) && Good(y) && y.rows == OutRows(g, u) && y.cols == u.cols
    && forall k :: 0 <= k < |y.data| ==> y.data[k] == Wrap(Exact(g, u, k), bits)
  }

  /** The inner loop: one entry of the output, wrapped after every operation. */
  method Accumulate(opar: seq<int>, mo: nat, no: nat, u: seq<int>, mu: nat, ny: nat, j: nat, l: nat, bits: Width)
    returns (D: int)
    requires Good(Matrix(mo, no, opar)) && Good(Matrix(mu, ny, u)) && no == mu && j < mo && l < ny
    ensures D == Wrap(Dot(Matrix(mo, no, opar), Matrix(mu, ny, u), j, l, mu), bits)
  {
    ghost var G, U := Matrix(mo, no, opar), Matrix(mu, ny, u);
    D := 0;
    WrapInRange(0, bits);
    for i := 0 to mu
      invariant D == Wrap(Dot(G, U, j, l, i), bits)
    {
      hide Wrap;
      FlatIndex(j, mo, i, no);
      FlatIndex(i, mu, l, ny);
      var ji := j + i * mo;
      var il := i + l * mu;
      var C := Wrap(opar[ji] * u[il], bits);
      WrapAccumulate(Dot(G, U, j, l, i), opar[ji] * u[il], bits);
      assert At(G, j, i) == opar[ji] && At(U, i, l) == u[il];
      D := Wrap(D + C, bits);
    }
  }

  lemma WrapAccumulate(d: int, c: int, bits: Width)
    ensures Wrap(Wrap(d, bits) + Wrap(c, bits), bits) == Wrap(d + c, bits)
  {
    WrapAdd(d, Wrap(c, bits), bits);
    WrapAdd(d, c, bits);
  }

  lemma WrapTwice(x: int, bits: Width)
    ensures Wrap(Wrap(x, bits), bits) == Wrap(x, bits)
  {
    WrapInRange(x, bits);
    WrapInRange(Wrap(x, bits), bits);
  }

  /** The first `n` outputs are done. */
  ghost predicate FilledUpTo(g: Matrix, u: Matrix, y: seq<int>, n: nat, bits: Width) {
    && Compatible(g, u) && |y| == OutRows(g, u) * u.cols && n <= |y|
    && forall k :: 0 <= k < n ==> y[k] == Wrap(Exact(g, u, k), bits)
  }

  lemma FillOne(g: Matrix, u: Matrix, y: seq<int>, n: nat, v: int, bits: Width)
    requires FilledUpTo(g, u, y, n, bits) && n < |y| && v == Wrap(Exact(g, u, n), bits)
    ensures FilledUpTo(g, u, y[n := v], n + 1, bits)
  {
    hide Exact, Wrap;
  }

  lemma FilledIsGain(g: Matrix, u: Matrix, y: seq<int>, bits: Width)
    requires FilledUpTo(g, u, y, |y|, bits)
    ensures GainOf(g, u, Matrix(OutRows(g, u), u.cols, y), bits)
  {
    hide Exact, Wrap;
  }

  /** The gain block on its port buffers: a scalar gain in one loop, a matrix column by column. */
  method GainBlock(opar: seq<int>, mo: nat, no: nat, u: seq<int>, mu: nat, y: array<int>, my: nat, ny: nat, bits: Width)
    requires Compatible(Matrix(mo, no, opar), Matrix(mu, ny, u))
    requires my == OutRows(Matrix(mo, no, opar), Matrix(mu, ny, u)) && y.Length == my * ny
    modifies y
    ensures GainOf(Matrix(mo, no, opar), Matrix(mu, ny, u), Matrix(my, ny, y[..]), bits)
  {
    hide FilledUpTo, GainOf;
    if mo * no == 1 {
      ScaleAll(opar, mo, no, u, mu, y, ny, bits);
    } else {
      MultiplyColumns(opar, mo, no, u, mu, y, my, ny, bits);
    }
    FilledIsGain(Matrix(mo, no, opar), Matrix(mu, ny, u), y[..], bits);
  }

  method ScaleAll(opar: seq<int>, mo: nat, no: nat, u: seq<int>, mu: nat, y: array<int>, ny: nat, bits: Width)
    requires Compatible(Matrix(mo, no, opar), Matrix(mu, ny, u)) && IsScalar(Matrix(mo, no, opar))
    requires y.Length == mu * ny
    modifies y
    ensures FilledUpTo(Matrix(mo, no, opar), Matrix(mu, ny, u), y[..], y.Length, bits)
  {
    hide Wrap, Exact;
    ghost var G, U := Matrix(mo, no, opar), Matrix(mu, ny, u);
    for i := 0 to ny * mu
      invariant FilledUpTo(G, U, y[..], i, bits)
    {
      hide FilledUpTo;
      ExactOfScalar(G, U, i);
      FillOne(G, U, y[..], i, Wrap(opar[0] * u[i], bits), bits);
      ghost var before := y[..];
      y[i] := Wrap(opar[0] * u[i], bits);
      assert y[..] == before[i := y[i]];
    }
  }

  method MultiplyColumns(opar: seq<int>, mo: nat, no: nat, u: seq<int>, mu: nat, y: array<int>, my: nat, ny: nat, bits: Width)
    requires Compatible(Matrix(mo, no, opar), Matrix(mu, ny, u)) && !IsScalar(Matrix(mo, no, opar))
    requires my == mo && y.Length == my * ny
    modifies y
    ensures FilledUpTo(Matrix(mo, no, opar), Matrix(mu, ny, u), y[..], y.Length, bits)
  {
    hide Wrap, Exact, Dot;
    ghost var G, U := Matrix(mo, no, opar), Matrix(mu, ny, u);
    for l := 0 to ny
      invariant FilledUpTo(G, U, y[..], l * my, bits)
    {
      hide FilledUpTo;
      MulMono(l + 1, ny, my);
      for j := 0 to my
        invariant FilledUpTo(G, U, y[..], j + l * my, bits)
      {
        ExactAt(G, U, j, l);
        var D := Accumulate(opar, mo, no, u, mu, ny, j, l, bits);
        var jl := j + l * my;
        WrapTwice(Exact(G, U, jl), bits);
        FillOne(G, U, y[..], jl, Wrap(D, bits), bits);
        ghost var before := y[..];
        y[jl] := Wrap(D, bits);
        assert y[..] == before[jl := y[jl]];
      }
    }
  }

  lemma ExactOfScalar(g: Matrix, u: Matrix, k: nat)
    requires Compatible(g, u) && IsScalar(g) && k < OutRows(g, u) * u.cols
    ensures |g.data| == 1 && k < |u.data| && Exact(g, u, k) == g.data[0] * u.data[k]
  {
  }

  // ------------------------------------------------------------------- the summation

  /** The input ports: matrices of one size. */
  ghost predicate Ports(us: seq<Matrix>, rows: nat, cols: nat) {
    forall i :: 0 <= i < |us| ==> Good(us[i]) && us[i].rows == rows && us[i].cols == cols
  }

  /** The exact signed sum of the first `n` ports at flat position `k`. */
  function SignedSum(us: seq<Matrix>, ipar: seq<int>, k: nat, n: nat): int
    requires n <= |us| && n <= |ipar| && forall i :: 0 <= i < n ==> k < |us[i].data|
  {
    if n == 0 then 0
    else SignedSum(us, ipar, k, n - 1) + if ipar[n - 1] > 0 then us[n - 1].data[k] else -us[n - 1].data[k]
  }

  function ElementSum(data: seq<int>, n: nat): int
    requires n <= |data|
  {
    if n == 0 then 0 else ElementSum(data, n - 1) + data[n - 1]
  }

  /** `y` is what the summation block puts out for several ports. */
  ghost predicate SumOf(us: seq<Matrix>, ipar: seq<int>, y: Matrix, bits: Width)
  {
    && |us| != 1 && |us| <= |ipar| && Good(y) && Ports(us, y.rows, y.cols)
    && forall k :: 0 <= k < |y.data| ==> y.data[k] == Wrap(SignedSum(us, ipar, k, |us|), bits)
  }

  lemma WrapPlusMinus(s: int, u: int, bits: Width)
    ensures Wrap(Wrap(s, bits) + u, bits) == Wrap(s + u, bits) && Wrap(Wrap(s, bits) - u, bits) == Wrap(s - u, bits)
  {
    WrapAdd(s, u, bits);
    WrapAdd(s, -u, bits);
  }

  method SummationBlock(us: seq<Matrix>, ipar: seq<int>, y: array<int>, nu: nat, mu: nat, bits: Width)
    requires nu > 0 && mu > 0 && Ports(us, nu, mu)
    requires |us| != 1 ==> |us| <= |ipar| && y.Length == nu * mu
    requires |us| == 1 ==> y.Length == 1
    modifies y
    ensures |us| == 1 ==> y[0] == Wrap(ElementSum(us[0].data, |us[0].data|), bits)
    ensures |us| == 1 && nu * mu == 1 ==> y[0] == Wrap(us[0].data[0], bits)
    ensures |us| != 1 ==> SumOf(us, ipar, Matrix(nu, mu, y[..]), bits)
  {
    hide Wrap;
    WrapInRange(0, bits);
    if |us| == 1 {
      y[0] := 0;
      var u := us[0].data;
      for j := 0 to nu * mu
        invariant y[0] == Wrap(ElementSum(u, j), bits)
      {
        WrapPlusMinus(ElementSum(u, j), u[j], bits);
        y[0] := Wrap(y[0] + u[j], bits);
      }
    } else {
      for j := 0 to nu * mu
        invariant forall i :: 0 <= i < j ==> y[i] == Wrap(SignedSum(us, ipar, i, |us|), bits)
      {
        y[j] := 0;
        for k := 0 to |us|
          invariant forall i :: 0 <= i < j ==> y[i] == Wrap(SignedSum(us, ipar, i, |us|), bits)
          invariant y[j] == Wrap(SignedSum(us, ipar, j, k), bits)
        {
          var u := us[k].data;
          WrapPlusMinus(SignedSum(us, ipar, j, k), u[j], bits);
          if ipar[k] > 0 {
            y[j] := Wrap(y[j] + u[j], bits);
          } else {
            y[j] := Wrap(y[j] - u[j], bits);
          }
        }
      }
    }
  }
}
