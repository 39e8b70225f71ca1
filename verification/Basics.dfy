/** Small facts and types the models share. */
module Basics {

  datatype Option<+T> = None | Some(value: T)

  function Min(a: nat, b: nat): nat {
    if a < b then a else b
  }

  function Spaces(n: nat): string {
    seq(n, _ => ' ')
  }

  /** `front` written over the beginning of `s`. */
  function Overlay<T>(s: seq<T>, front: seq<T>): (r: seq<T>)
    requires |front| <= |s|
    ensures |r| == |s| && forall k :: 0 <= k < |r| ==> r[k] == if k < |front| then front[k] else s[k]
  {
    front + s[|front|..]
  }

  lemma MulMono(a: int, b: int, c: int)
    requires a <= b && 0 <= c
    ensures a * c <= b * c
  {
  }

  lemma DivModUnique(x: nat, q: nat, r: nat, n: nat)
    requires x == q * n + r && r < n
    ensures x / n == q && x % n == r
  {
    var q', r' := x / n, x % n;
    assert x == q' * n + r';
    if q' < q {
      MulMono(q' + 1, q, n);
    } else if q < q' {
      MulMono(q + 1, q', n);
    }
  }

  lemma DivModBounds(x: nat, m: nat, n: nat)
    requires n > 0 && x < m * n
    ensures x / n < m && x % n < n && x == (x / n) * n + x % n
  {
    var q := x / n;
    if m <= q {
      MulMono(m, q, n);
    }
  }
}
