/** What the multiplexer prints, against the cartesian product of the value lists. */
module ConfLines {
  import opened Basics
  import opened ConfSyntax

  /** The lines the recursive printer emits for `vars`, all starting with `prefix`. */
  function Lines(vars: seq<Variable>, prefix: string): seq<string>
    requires |vars| > 0
    decreases |vars|, |vars[0].conf| + 1
  {
    LinesOver(vars, vars[0].conf, prefix)
  }

  /** The same with only the values `conf` of the first variable still to come. */
  function LinesOver(vars: seq<Variable>, conf: seq<string>, prefix: string): seq<string>
    requires |vars| > 0
    decreases |vars|, |conf|
  {
    if conf == [] then []
    else
      var mystring := prefix + vars[0].name + "_" + conf[0];
      (if |vars| == 1 then [mystring] else Lines(vars[1..], mystring + "_")) + LinesOver(vars, conf[1..], prefix)
  }

  // ------------------------------------------------------------------- the odometer

  ghost predicate HaveValues(vars: seq<Variable>) {
    forall k :: 0 <= k < |vars| ==> |vars[k].conf| > 0
  }

  function Count(vars: seq<Variable>): nat {
    if vars == [] then 1 else |vars[0].conf| * Count(vars[1..])
  }

  lemma {:induction false} CountIsPositive(vars: seq<Variable>)
    requires HaveValues(vars)
    ensures Count(vars) > 0
  {
    if vars == [] {
    } else {
      CountIsPositive(vars[1..]);
      assert 0 < |vars[0].conf| * Count(vars[1..]);
    }
  }

  /** `k` read in the mixed radix of the value counts, last variable fastest. */
  ghost function Picks(vars: seq<Variable>, k: nat): (r: seq<string>)
    requires HaveValues(vars) && k < Count(vars)
    ensures |r| == |vars|
    decreases |vars|
  {
    if vars == [] then []
    else
      CountIsPositive(vars[1..]);
      DivModBounds(k, |vars[0].conf|, Count(vars[1..]));
      [vars[0].conf[k / Count(vars[1..])]] + Picks(vars[1..], k % Count(vars[1..]))
  }

  lemma PicksSplit(vars: seq<Variable>, k: nat) returns (q: nat, r: nat)
    requires |vars| > 0 && HaveValues(vars) && k < Count(vars)
    ensures q < |vars[0].conf| && r < Count(vars[1..]) && k == q * Count(vars[1..]) + r
    ensures Picks(vars, k) == [vars[0].conf[q]] + Picks(vars[1..], r)
  {
    CountIsPositive(vars[1..]);
    DivModBounds(k, |vars[0].conf|, Count(vars[1..]));
    q, r := k / Count(vars[1..]), k % Count(vars[1..]);
  }

  /** The line for one choice of values. */
  function Line(vars: seq<Variable>, picks: seq<string>): string
    requires |vars| == |picks| > 0
  {
    vars[0].name + "_" + picks[0] + if |vars| == 1 then "" else "_" + Line(vars[1..], picks[1..])
  }

  lemma InRange(n: nat, c: nat, q: nat, r: nat)
    requires q < n && r < c
    ensures q * c + r < n * c
  {
    MulMono(q + 1, n, c);
  }

  lemma {:induction false} LinesOverLength(vars: seq<Variable>, conf: seq<string>, prefix: string)
    requires |vars| > 0
    ensures |LinesOver(vars, conf, prefix)| == |conf| * Count(vars[1..])
    decreases |vars|, |conf|
  {
    if conf == [] {
    } else {
      assert |conf| * Count(vars[1..]) == Count(vars[1..]) + |conf[1..]| * Count(vars[1..]);
      LinesOverLength(vars, conf[1..], prefix);
      if |vars| > 1 {
        LinesOverLength(vars[1..], vars[1].conf, prefix + vars[0].name + "_" + conf[0] + "_");
      }
    }
  }

  /** Within the lines of the first variable's values, those of value `q` form block `q`. */
  lemma {:induction false} LinesOverAt(vars: seq<Variable>, conf: seq<string>, prefix: string, q: nat, r: nat)
    requires |vars| > 0 && HaveValues(vars[1..]) && q < |conf| && r < Count(vars[1..])
    ensures q * Count(vars[1..]) + r < |LinesOver(vars, conf, prefix)|
    ensures LinesOver(vars, conf, prefix)[q * Count(vars[1..]) + r]
         == prefix + Line(vars, [conf[q]] + Picks(vars[1..], r))
    decreases |vars|, |conf|
  {
    hide Picks, Line, Count, Lines, LinesOver, Block;
    var c := Count(vars[1..]);
    var start := prefix + vars[0].name + "_" + conf[0];
    LinesOverUnfold(vars, conf, prefix);
    BlockAt(vars, start, r);
    OneBlockOn(q, c, r);
    if q == 0 {
      LineUnfold(vars, prefix, conf[0], Picks(vars[1..], r));
    } else {
      LinesOverAt(vars, conf[1..], prefix, q - 1, r);
    }
  }

  lemma LinesOverUnfold(vars: seq<Variable>, conf: seq<string>, prefix: string)
    requires |vars| > 0 && conf != []
    ensures LinesOver(vars, conf, prefix)
         == Block(vars, prefix + vars[0].name + "_" + conf[0]) + LinesOver(vars, conf[1..], prefix)
  {
  }

  lemma OneBlockOn(q: nat, c: nat, r: nat)
    ensures q == 0 ==> q * c + r == r
    ensures q > 0 ==> q * c + r == c + ((q - 1) * c + r)
  {
  }

  function Block(vars: seq<Variable>, start: string): seq<string>
    requires |vars| > 0
  {
    if |vars| == 1 then [start] else Lines(vars[1..], start + "_")
  }

  lemma LineUnfold(vars: seq<Variable>, prefix: string, first: string, rest: seq<string>)
    requires |vars| == |rest| + 1
    ensures prefix + Line(vars, [first] + rest)
         == prefix + vars[0].name + "_" + first + if |vars| == 1 then "" else "_" + Line(vars[1..], rest)
  {
    assert ([first] + rest)[1..] == rest;
  }

  lemma {:induction false} BlockAt(vars: seq<Variable>, start: string, r: nat)
    requires |vars| > 0 && HaveValues(vars[1..]) && r < Count(vars[1..])
    ensures |Block(vars, start)| == Count(vars[1..])
    ensures Block(vars, start)[r]
         == start + if |vars| == 1 then "" else "_" + Line(vars[1..], Picks(vars[1..], r))
    decreases |vars|, 0
  {
    if |vars| > 1 {
      LinesAt(vars[1..], start + "_", r);
    }
  }

  lemma {:induction false} LinesAt(vars: seq<Variable>, prefix: string, k: nat)
    requires |vars| > 0 && HaveValues(vars) && k < Count(vars)
    ensures |Lines(vars, prefix)| == Count(vars)
    ensures Lines(vars, prefix)[k] == prefix + Line(vars, Picks(vars, k))
    decreases |vars|, |vars[0].conf| + 1
  {
    hide Picks, Line;
    LinesOverLength(vars, vars[0].conf, prefix);
    var q, r := PicksSplit(vars, k);
    LinesOverAt(vars, vars[0].conf, prefix, q, r);
  }

  /** Line `k` is that of the `k`-th odometer position; there are as many lines as choices. */
  lemma LinesAreTheOdometer(vars: seq<Variable>, k: nat)
    requires |vars| > 0 && HaveValues(vars) && k < Count(vars)
    ensures |Lines(vars, "")| == Count(vars)
    ensures Lines(vars, "")[k] == Line(vars, Picks(vars, k))
  {
    LinesAt(vars, "", k);
    assert "" + Line(vars, Picks(vars, k)) == Line(vars, Picks(vars, k));
  }

  /** The example in the program's own description. */
  lemma ExampleLines()
    ensures ParseCommandLine(["VAR1=a,b", "VAR2=c"]) == [Variable("VAR1", ["a", "b"]), Variable("VAR2", ["c"])]
    ensures Lines(ParseCommandLine(["VAR1=a,b", "VAR2=c"]), "") == ["VAR1_a_VAR2_c", "VAR1_b_VAR2_c"]
  {
    hide ParseArgument, Lines, LinesOver, Picks, Split, Count, Line;
    var v, w := Variable("VAR1", ["a", "b"]), Variable("VAR2", ["c"]);
    var vars := [v, w];
    assert ParseArgument(["VAR1=a,b", "VAR2=c"][0]) == Some(v) by {
      assert Join(["a"] + ["b"], ',') == "a" + "," + "b";
      ParseArgumentIffFormat("VAR1=a,b", v);
    }
    assert ParseArgument(["VAR1=a,b", "VAR2=c"][1]) == Some(w) by {
      ParseArgumentIffFormat("VAR2=c", w);
    }
    PositionsOfTwo(v, w, "a", "b", "c");
    LinesAreTheOdometer(vars, 0);
    LinesAreTheOdometer(vars, 1);
    assert ParseCommandLine(["VAR1=a,b", "VAR2=c"]) == vars;
    LineOfTwo(v, w, "a", "c");
    LineOfTwo(v, w, "b", "c");
    assert "VAR1" + "_" + "a" + "_" + "VAR2" + "_" + "c" == "VAR1_a_VAR2_c";
    assert "VAR1" + "_" + "b" + "_" + "VAR2" + "_" + "c" == "VAR1_b_VAR2_c";
  }

  lemma LineOfTwo(v: Variable, w: Variable, a: string, c: string)
    ensures Line([v, w], [a, c]) == v.name + "_" + a + "_" + w.name + "_" + c
  {
    assert [v, w][1..] == [w] && [a, c][1..] == [c];
    assert Line([w], [c]) == w.name + "_" + c;
  }

  lemma PositionsOfTwo(v: Variable, w: Variable, a: string, b: string, c: string)
    requires v.conf == [a, b] && w.conf == [c]
    ensures Count([v, w]) == 2 && Picks([v, w], 0) == [a, c] && Picks([v, w], 1) == [b, c]
  {
    var vars := [v, w];
    assert vars[1..] == [w] && [w][1..] == [];
    assert Count([w]) == 1;
    assert Picks([w], 0) == [c];
  }

  // ------------------------------------------------------------- the cartesian product

  ghost predicate Chosen(vars: seq<Variable>, picks: seq<string>) {
    |picks| == |vars| && forall k :: 0 <= k < |vars| ==> picks[k] in vars[k].conf
  }

  /** Position `q * c + r` of the odometer picks value `q` first and then position `r`. */
  lemma PicksUnfold(vars: seq<Variable>, q: nat, r: nat) returns (k: nat)
    requires |vars| > 0 && HaveValues(vars) && q < |vars[0].conf| && r < Count(vars[1..])
    ensures k == q * Count(vars[1..]) + r && k < Count(vars)
    ensures Picks(vars, k) == [vars[0].conf[q]] + Picks(vars[1..], r)
  {
    var c := Count(vars[1..]);
    k := q * c + r;
    InRange(|vars[0].conf|, c, q, r);
    DivModUnique(k, q, r, c);
    var q', r' := k / c, k % c;
    assert q' == q && r' == r;
  }

  lemma {:induction false} PicksAreChosen(vars: seq<Variable>, k: nat)
    requires HaveValues(vars) && k < Count(vars)
    ensures Chosen(vars, Picks(vars, k))
  {
    hide Picks, Count;
    if vars == [] {
    } else {
      var q, r := PicksSplit(vars, k);
      PicksAreChosen(vars[1..], r);
    }
  }

  lemma {:induction false} ChosenHasPosition(vars: seq<Variable>, picks: seq<string>) returns (k: nat)
    requires HaveValues(vars) && Chosen(vars, picks)
    ensures k < Count(vars) && Picks(vars, k) == picks
  {
    if vars == [] {
      k := 0;
    } else {
      assert Chosen(vars[1..], picks[1..]);
      var r := ChosenHasPosition(vars[1..], picks[1..]);
      var q :| 0 <= q < |vars[0].conf| && vars[0].conf[q] == picks[0];
      k := PicksUnfold(vars, q, r);
    }
  }

  /** The printed lines are those of the cartesian product of the value lists, no others. */
  lemma LinesAreTheProduct(vars: seq<Variable>, line: string)
    requires |vars| > 0 && HaveValues(vars)
    ensures line in Lines(vars, "") <==> exists picks :: Chosen(vars, picks) && line == Line(vars, picks)
  {
    hide Lines, Line, Picks, Count;
    if line in Lines(vars, "") {
      CountIsPositive(vars);
      LinesAreTheOdometer(vars, 0);
      var k :| 0 <= k < |Lines(vars, "")| && Lines(vars, "")[k] == line;
      LinesAreTheOdometer(vars, k);
      PicksAreChosen(vars, k);
    }
    forall picks | Chosen(vars, picks) && line == Line(vars, picks)
      ensures line in Lines(vars, "")
    {
      var k := ChosenHasPosition(vars, picks);
      LinesAreTheOdometer(vars, k);
    }
  }

  // ---------------------------------------------------------------- distinct lines

  function Fields(vars: seq<Variable>, picks: seq<string>): (r: seq<string>)
    requires |vars| == |picks|
    ensures |r| == 2 * |vars|
  {
    if vars == [] then [] else [vars[0].name, picks[0]] + Fields(vars[1..], picks[1..])
  }

  lemma {:induction false} LineIsJoin(vars: seq<Variable>, picks: seq<string>)
    requires |vars| == |picks| > 0
    ensures Line(vars, picks) == Join(Fields(vars, picks), '_')
  {
    var fs := Fields(vars, picks);
    assert fs[1..][0] == picks[0];
    if |vars| == 1 {
    } else {
      LineIsJoin(vars[1..], picks[1..]);
      assert fs[1..][1..] == Fields(vars[1..], picks[1..]);
    }
  }

  lemma {:induction false} FieldsAreFree(vars: seq<Variable>, picks: seq<string>)
    requires AllWellFormed(vars) && Chosen(vars, picks)
    ensures Free(Fields(vars, picks), '_')
  {
    if vars == [] {
    } else {
      FieldsAreFree(vars[1..], picks[1..]);
      AlnumIsFree(vars[0].name, '_');
      AlnumIsFree(picks[0], '_');
    }
  }

  lemma {:induction false} FieldsAreInjective(vars: seq<Variable>, p: seq<string>, q: seq<string>)
    requires |vars| == |p| == |q| && Fields(vars, p) == Fields(vars, q)
    ensures p == q
  {
    if vars == [] {
    } else {
      assert Fields(vars, p)[1] == p[0] && Fields(vars, q)[1] == q[0];
      assert Fields(vars, p)[2..] == Fields(vars[1..], p[1..]);
      assert Fields(vars, q)[2..] == Fields(vars[1..], q[1..]);
      FieldsAreInjective(vars[1..], p[1..], q[1..]);
      assert p == [p[0]] + p[1..] && q == [q[0]] + q[1..];
    }
  }

  /** A line determines the values it was made of. */
  lemma LineIsInjective(vars: seq<Variable>, p: seq<string>, q: seq<string>)
    requires |vars| > 0 && AllWellFormed(vars) && Chosen(vars, p) && Chosen(vars, q)
    requires Line(vars, p) == Line(vars, q)
    ensures p == q
  {
    LineIsJoin(vars, p);
    LineIsJoin(vars, q);
    FieldsAreFree(vars, p);
    FieldsAreFree(vars, q);
    SplitJoin(Fields(vars, p), '_');
    SplitJoin(Fields(vars, q), '_');
    FieldsAreInjective(vars, p, q);
  }

  ghost predicate Distinct(ss: seq<string>) {
    forall i, j :: 0 <= i < j < |ss| ==> ss[i] != ss[j]
  }

  ghost predicate DistinctValues(vars: seq<Variable>) {
    forall k :: 0 <= k < |vars| ==> Distinct(vars[k].conf)
  }

  lemma {:induction false} DistinctPicks(vars: seq<Variable>, i: nat, j: nat)
    requires HaveValues(vars) && DistinctValues(vars) && i < Count(vars) && j < Count(vars)
    requires Picks(vars, i) == Picks(vars, j)
    ensures i == j
  {
    hide Picks;
    if vars == [] {
    } else {
      var qi, ri := PicksSplit(vars, i);
      var qj, rj := PicksSplit(vars, j);
      SameHeadAndTail(vars[0].conf[qi], Picks(vars[1..], ri), vars[0].conf[qj], Picks(vars[1..], rj));
      DistinctPicks(vars[1..], ri, rj);
      assert Distinct(vars[0].conf);
      assert qi == qj;
    }
  }

  lemma SameHeadAndTail(x: string, xs: seq<string>, y: string, ys: seq<string>)
    requires [x] + xs == [y] + ys
    ensures x == y && xs == ys
  {
    assert ([x] + xs)[0] == ([y] + ys)[0];
    assert ([x] + xs)[1..] == xs && ([y] + ys)[1..] == ys;
  }

  lemma {:induction false} RepeatedPicks(vars: seq<Variable>) returns (i: nat, j: nat)
    requires HaveValues(vars) && !DistinctValues(vars)
    ensures i < j < Count(vars) && Picks(vars, i) == Picks(vars, j)
  {
    hide Picks, Count;
    var c := Count(vars[1..]);
    CountIsPositive(vars[1..]);
    if Distinct(vars[0].conf) {
      assert !DistinctValues(vars[1..]) by {
        var k :| 0 <= k < |vars| && !Distinct(vars[k].conf);
        assert vars[1..][k - 1] == vars[k];
      }
      i, j := RepeatedPicks(vars[1..]);
      i := PicksUnfold(vars, 0, i);
      j := PicksUnfold(vars, 0, j);
    } else {
      var a, b :| 0 <= a < b < |vars[0].conf| && vars[0].conf[a] == vars[0].conf[b];
      MulMono(a + 1, b, c);
      i := PicksUnfold(vars, a, 0);
      j := PicksUnfold(vars, b, 0);
    }
  }

  lemma EqualLinesArePositions(vars: seq<Variable>, i: nat, j: nat)
    requires |vars| > 0 && AllWellFormed(vars) && i < Count(vars) && j < Count(vars)
    ensures i < |Lines(vars, "")| && j < |Lines(vars, "")|
    ensures Lines(vars, "")[i] == Lines(vars, "")[j] <==> Picks(vars, i) == Picks(vars, j)
  {
    hide Lines, Line, Picks, Count;
    LinesAreTheOdometer(vars, i);
    LinesAreTheOdometer(vars, j);
    PicksAreChosen(vars, i);
    PicksAreChosen(vars, j);
    if Line(vars, Picks(vars, i)) == Line(vars, Picks(vars, j)) {
      LineIsInjective(vars, Picks(vars, i), Picks(vars, j));
    }
  }

  /** No line is printed twice exactly when no variable lists a value twice. */
  lemma LinesAreDistinctIff(vars: seq<Variable>)
    requires |vars| > 0 && AllWellFormed(vars)
    ensures Distinct(Lines(vars, "")) <==> DistinctValues(vars)
  {
    hide Lines, Picks, Count;
    var lines := Lines(vars, "");
    CountIsPositive(vars);
    LinesAreTheOdometer(vars, 0);
    if DistinctValues(vars) {
      forall i, j | 0 <= i < j < |lines|
        ensures lines[i] != lines[j]
      {
        EqualLinesArePositions(vars, i, j);
        if Picks(vars, i) == Picks(vars, j) {
          DistinctPicks(vars, i, j);
        }
      }
    } else {
      var i, j := RepeatedPicks(vars);
      EqualLinesArePositions(vars, i, j);
    }
  }

  // ------------------------------------------------------------------ how long a line is

  function Longest(ss: seq<string>): nat {
    if ss == [] then 0
    else
      var m := Longest(ss[..|ss| - 1]);
      if m < |ss[|ss| - 1]| then |ss[|ss| - 1]| else m
  }

  lemma {:induction false} LongestIsMaximum(ss: seq<string>)
    ensures forall k :: 0 <= k < |ss| ==> |ss[k]| <= Longest(ss)
    ensures ss != [] ==> exists k :: 0 <= k < |ss| && |ss[k]| == Longest(ss)
  {
    if ss == [] {
    } else {
      var init := ss[..|ss| - 1];
      LongestIsMaximum(init);
      assert forall k :: 0 <= k < |init| ==> init[k] == ss[k];
    }
  }

  function LongestLine(vars: seq<Variable>): nat
    requires |vars| > 0
  {
    |vars[0].name| + 1 + Longest(vars[0].conf) + if |vars| == 1 then 0 else 1 + LongestLine(vars[1..])
  }

  lemma {:induction false} NoLineIsLonger(vars: seq<Variable>, picks: seq<string>)
    requires |vars| > 0 && Chosen(vars, picks)
    ensures |Line(vars, picks)| <= LongestLine(vars)
    decreases |vars|
  {
    LongestIsMaximum(vars[0].conf);
    assert picks[0] in vars[0].conf;
    if |vars| == 1 {
    } else {
      assert Chosen(vars[1..], picks[1..]);
      NoLineIsLonger(vars[1..], picks[1..]);
    }
  }

  lemma {:induction false} SomeLineIsLongest(vars: seq<Variable>) returns (picks: seq<string>)
    requires |vars| > 0 && HaveValues(vars)
    ensures Chosen(vars, picks) && |Line(vars, picks)| == LongestLine(vars)
    decreases |vars|
  {
    LongestIsMaximum(vars[0].conf);
    var k :| 0 <= k < |vars[0].conf| && |vars[0].conf[k]| == Longest(vars[0].conf);
    picks := [vars[0].conf[k]];
    if |vars| == 1 {
    } else {
      var rest := SomeLineIsLongest(vars[1..]);
      picks := picks + rest;
      assert picks[1..] == rest;
    }
  }

  /** The longest line is as short as every line is. */
  lemma LinesFitIff(vars: seq<Variable>, room: nat)
    requires |vars| > 0 && HaveValues(vars)
    ensures LongestLine(vars) < room <==> forall picks :: Chosen(vars, picks) ==> |Line(vars, picks)| < room
  {
    var longest := SomeLineIsLongest(vars);
    forall picks | Chosen(vars, picks)
      ensures |Line(vars, picks)| <= LongestLine(vars)
    {
      NoLineIsLonger(vars, picks);
    }
  }
}
