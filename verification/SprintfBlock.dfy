/** The fixed-width field formatter. The text a format and its parameter produce is taken as
    given; what is modelled is how the fields are cut, padded and put together. */
module SprintfBlock {
  import opened Basics

  const TYPE_INT := 3
  const TYPE_UNSIGNED := 6
  const TYPE_INT8 := 5
  const TYPE_DOUBLE := 1
  const TYPE_STRING := -1

  predicate KnownType(t: int) {
    t == TYPE_INT || t == TYPE_UNSIGNED || t == TYPE_INT8 || t == TYPE_DOUBLE || t == TYPE_STRING
  }

  /** A field: its width, its type, and what it renders given a parameter (a string field
      ignores it). */
  datatype Field = Field(width: nat, fieldType: int, render: int -> string)

  /** Text cut or padded with spaces to a width. */
  function Fit(text: string, width: nat): string {
    if |text| >= width then text[..width] else text + Spaces(width - |text|)
  }

  /** What a field shows; a field of unknown type prints nothing. */
  function Shown(f: Field, parameter: int): (r: string)
    ensures |r| == f.width
  {
    Fit(if KnownType(f.fieldType) then f.render(parameter) else "", f.width)
  }

  /** What stands in column `k` of a field: for the types of int (3), unsigned (6), int8 (5),
      double (1) and string (-1) the text as far as it reaches, and spaces otherwise. */
  function ColumnOf(f: Field, parameter: int, k: nat): char {
    if f.fieldType in {3, 6, 5, 1, -1} && k < |f.render(parameter)| then f.render(parameter)[k] else ' '
  }

  /** A field is read column by column. */
  lemma ShownAt(f: Field, parameter: int, k: nat)
    requires k < f.width
    ensures Shown(f, parameter)[k] == ColumnOf(f, parameter, k)
  {
  }

  /** A buffer shows a field at column `at`, character by character. */
  ghost predicate Shows(buf: string, at: nat, f: Field, parameter: int) {
    at + f.width <= |buf| && forall k :: at <= k < at + f.width ==> buf[k] == ColumnOf(f, parameter, k - at)
  }

  lemma ShowsWhatIsShown(buf: string, at: nat, f: Field, parameter: int)
    requires at + f.width <= |buf| && buf[at..at + f.width] == Shown(f, parameter)
    ensures Shows(buf, at, f, parameter)
  {
    hide Shown, ColumnOf;
    forall k | at <= k < at + f.width
      ensures buf[k] == ColumnOf(f, parameter, k - at)
    {
      ShownAt(f, parameter, k - at);
      assert buf[k] == buf[at..at + f.width][k - at];
    }
  }

  // ----------------------------------------------------------------------- the bounded print

  /** _snprintf: at most `size` characters, a terminator only if there is room for it, and a
      negative result when the text is cut. */
  method Snprintf(dst: array<char>, at: nat, size: nat, text: string) returns (n: int)
    requires at + size <= dst.Length
    modifies dst
    ensures n == if |text| <= size then |text| else -1
    ensures forall k :: 0 <= k < dst.Length && !(at <= k < at + size) ==> dst[k] == old(dst[k])
    ensures forall k :: 0 <= k < |text| && k < size ==> dst[at + k] == text[k]
    ensures |text| < size ==> dst[at + |text|] == '\0'
    ensures forall k :: at + |text| < k < at + size ==> dst[k] == old(dst[k])
  {
    var m := if |text| <= size then |text| else size;
    forall k | 0 <= k < m {
      dst[at + k] := text[k];
    }
    if m < size {
      dst[at + m] := '\0';
    }
    n := if |text| <= size then |text| else -1;
  }

  /** spf_generic: one field at offset `at`. */
  method Generic(dst: array<char>, at: nat, field: Field, parameter: int)
    requires at + field.width <= dst.Length
    modifies dst
    ensures forall k :: 0 <= k < dst.Length && !(at <= k < at + field.width) ==> dst[k] == old(dst[k])
    ensures dst[at..at + field.width] == Shown(field, parameter)
    ensures Shows(dst[..], at, field, parameter)
  {
    var n := 0;
    ghost var text := "";
    if KnownType(field.fieldType) {
      n := Snprintf(dst, at, field.width, field.render(parameter));
      text := field.render(parameter);
    }
    if n >= 0 && n < field.width {
      forall k | n <= k < field.width {
        dst[at + k] := ' ';
      }
    }
    assert dst[at..at + field.width] == Fit(text, field.width);
    assert dst[..][at..at + field.width] == dst[at..at + field.width];
    ShowsWhatIsShown(dst[..], at, field, parameter);
  }

  // ------------------------------------------------------------------------ the whole line

  function Width(fields: seq<Field>, n: nat): nat
    requires n <= |fields|
  {
    if n == 0 then 0 else Width(fields, n - 1) + fields[n - 1].width
  }

  /** How many of the first `n` fields take a parameter. */
  function Parameters(fields: seq<Field>, n: nat): nat
    requires n <= |fields|
  {
    if n == 0 then 0 else Parameters(fields, n - 1) + if fields[n - 1].fieldType == TYPE_STRING then 0 else 1
  }

  /** The text of the first `n` fields, each taking the next parameter if it takes one. */
  function Line(fields: seq<Field>, params: seq<int>, n: nat): string
    requires n <= |fields| && Parameters(fields, n) <= |params|
  {
    if n == 0 then ""
    else
      var j := Parameters(fields, n - 1);
      var f := fields[n - 1];
      Line(fields, params, n - 1) + Shown(f, if f.fieldType == TYPE_STRING then 0 else params[j])
  }

  /** `n` is the longest prefix of fields whose total width stays below the buffer size. */
  ghost predicate LongestFit(fields: seq<Field>, size: nat, n: nat) {
    && n <= |fields| && Width(fields, n) < size
    && forall m :: n < m <= |fields| ==> Width(fields, m) >= size
  }

  lemma {:induction false} WidthMono(fields: seq<Field>, m: nat, n: nat)
    requires m <= n <= |fields|
    ensures Width(fields, m) <= Width(fields, n)
    decreases n
  {
    if m == n {
    } else {
      WidthMono(fields, m, n - 1);
    }
  }

  lemma {:induction false} LineLength(fields: seq<Field>, params: seq<int>, n: nat)
    requires n <= |fields| && Parameters(fields, n) <= |params|
    ensures |Line(fields, params, n)| == Width(fields, n)
  {
    if n == 0 {
    } else {
      LineLength(fields, params, n - 1);
    }
  }

  /** Every field stands at its own columns, and a field that takes a parameter takes the
      one numbered by the parameter-taking fields before it. */
  lemma {:induction false} FieldAt(fields: seq<Field>, params: seq<int>, n: nat, m: nat)
    requires m < n <= |fields| && Parameters(fields, n) <= |params|
    ensures Width(fields, m) + fields[m].width <= |Line(fields, params, n)|
    ensures fields[m].fieldType != TYPE_STRING ==> Parameters(fields, m) < |params|
    ensures Line(fields, params, n)[Width(fields, m)..Width(fields, m) + fields[m].width]
         == Shown(fields[m], if fields[m].fieldType == TYPE_STRING then 0 else params[Parameters(fields, m)])
    decreases n
  {
    hide Shown;
    LineLength(fields, params, n);
    LineLength(fields, params, n - 1);
    var init := Line(fields, params, n - 1);
    if m == n - 1 {
    } else {
      FieldAt(fields, params, n - 1, m);
      var lo, hi := Width(fields, m), Width(fields, m) + fields[m].width;
      assert Line(fields, params, n)[..|init|] == init;
      assert Line(fields, params, n)[lo..hi] == init[lo..hi];
    }
  }

  /** The parameter that field `m` of a line is given. */
  function ParameterOf(fields: seq<Field>, params: seq<int>, m: nat): int
    requires m < |fields|
  {
    if fields[m].fieldType == TYPE_STRING || |params| <= Parameters(fields, m) then 0 else params[Parameters(fields, m)]
  }

  /** The parameter-taking fields before a field are those that are not strings. */
  lemma {:induction false} ParametersCount(fields: seq<Field>, n: nat)
    requires n <= |fields|
    ensures Parameters(fields, n) == |set i | 0 <= i < n && fields[i].fieldType != -1|
  {
    if n == 0 {
    } else {
      ParametersCount(fields, n - 1);
      var before := set i | 0 <= i < n - 1 && fields[i].fieldType != -1;
      var now := set i | 0 <= i < n && fields[i].fieldType != -1;
      if fields[n - 1].fieldType == -1 {
        assert now == before;
      } else {
        assert now == before + {n - 1};
        assert n - 1 !in before;
      }
    }
  }

  /** spf_build: the longest prefix of fields that fits, a terminator right after it, and
      the rest of the buffer as it was. */
  method Build(dst: array<char>, fields: seq<Field>, params: seq<int>) returns (ghost n: nat)
    requires dst.Length >= 1 && Parameters(fields, |fields|) <= |params|
    modifies dst
    ensures LongestFit(fields, dst.Length, n) && Parameters(fields, n) <= |params|
    ensures dst[..Width(fields, n)] == Line(fields, params, n)
    ensures forall m :: 0 <= m < n ==> Shows(dst[..], Width(fields, m), fields[m], ParameterOf(fields, params, m))
    ensures dst[Width(fields, n)] == '\0'
    ensures forall k :: Width(fields, n) < k < dst.Length ==> dst[k] == old(dst[k])
  {
    hide Shown;
    var i, j, cur := 0, 0, 0;
    while i < |fields|
      invariant i <= |fields| && j == Parameters(fields, i) <= |params| && cur == Width(fields, i) < dst.Length
      invariant dst[..cur] == Line(fields, params, i)
      invariant forall k :: cur <= k < dst.Length ==> dst[k] == old(dst[k])
    {
      ParametersMono(fields, i + 1);
      if cur + fields[i].width >= dst.Length {
        break;
      }
      var isString := fields[i].fieldType == TYPE_STRING;
      var parameter := 0;
      if !isString {
        parameter := params[j];
      }
      ghost var before := dst[..cur];
      Generic(dst, cur, fields[i], parameter);
      assert dst[..cur + fields[i].width] == dst[..cur] + dst[cur..cur + fields[i].width];
      assert dst[..cur] == before;
      if !isString {
        j := j + 1;
      }
      cur := cur + fields[i].width;
      i := i + 1;
    }
    n := i;
    forall m | n < m <= |fields|
      ensures Width(fields, m) >= dst.Length
    {
      WidthMono(fields, n + 1, m);
    }
    ghost var before := dst[..cur];
    // the C code guards against a cursor past the buffer; it is always inside
    dst[cur] := '\0';
    assert dst[..cur] == before;
    ReadColumns(dst[..], fields, params, n);
  }

  lemma ReadColumns(buf: string, fields: seq<Field>, params: seq<int>, n: nat)
    requires n <= |fields| && Parameters(fields, n) <= |params|
    requires Width(fields, n) <= |buf| && buf[..Width(fields, n)] == Line(fields, params, n)
    ensures forall m :: 0 <= m < n ==> Shows(buf, Width(fields, m), fields[m], ParameterOf(fields, params, m))
  {
    hide Shown, Shows, Line, Width, Parameters;
    forall m | 0 <= m < n
      ensures Shows(buf, Width(fields, m), fields[m], ParameterOf(fields, params, m))
    {
      FieldAt(fields, params, n, m);
      var lo, hi := Width(fields, m), Width(fields, m) + fields[m].width;
      assert buf[lo..hi] == Line(fields, params, n)[lo..hi];
      ShowsWhatIsShown(buf, lo, fields[m], ParameterOf(fields, params, m));
    }
  }

  lemma {:induction false} ParametersMono(fields: seq<Field>, n: nat)
    requires n <= |fields|
    ensures Parameters(fields, n) <= Parameters(fields, |fields|)
    decreases |fields| - n
  {
    if n == |fields| {
    } else {
      ParametersMono(fields, n + 1);
    }
  }
}
