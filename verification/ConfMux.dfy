/** The multiplexer program: arguments cut in place into strings, then printed recursively. */
module ConfMux {
  import opened CStrings
  import opened Basics
  import opened Bytes
  import opened ConfSyntax
  import opened ConfLines

  const MAX_VARS := 100
  const MAX_CONF := 10
  const MAX_STRING := 200

  /** A parsed variable as pointers into its argument; the name pointer is the argument. */
  datatype VariableRef = VariableRef(argument: array<char>, conf: seq<nat>)

  ghost predicate Denotes(r: VariableRef, v: Variable)
    reads r.argument
  {
    && HoldsString(r.argument, 0, v.name)
    && |r.conf| == |v.conf|
    && forall k :: 0 <= k < |v.conf| ==> HoldsString(r.argument, r.conf[k], v.conf[k])
  }

  // --------------------------------------------------------------------- one argument

  lemma {:induction false} SplitKeepsCharacters(s: string, sep: char, k: nat)
    requires k < |s| && s[k] != sep
    ensures exists i :: 0 <= i < |Split(s, sep)| && s[k] in Split(s, sep)[i]
    decreases |s|
  {
    var parts := Split(s, sep);
    if sep !in s {
      assert s[k] in parts[0];
    } else {
      var m := IndexOf(s, sep);
      if k < m {
        assert s[k] == parts[0][k];
      } else {
        SplitKeepsCharacters(s[m + 1..], sep, k - m - 1);
        var i :| 0 <= i < |Split(s[m + 1..], sep)| && s[k] in Split(s[m + 1..], sep)[i];
        assert parts[i + 1] == Split(s[m + 1..], sep)[i];
      }
    }
  }

  lemma BadCharacterRejects(s: string, k: nat)
    requires k < |s| && !IsAlnum(s[k]) && s[k] != ','
    ensures !AcceptedValues(Split(s, ','))
  {
    SplitKeepsCharacters(s, ',', k);
  }

  /** The first loop: cuts the argument at its `=`, which must not end it. */
  method CutName(argument: array<char>, ghost s: string) returns (ok: bool, j: nat)
    requires CString(argument) && Text(argument) == s
    modifies argument
    ensures ok ==> 0 < j < |s| == argument.Length - 1 && j - 1 == AlnumPrefix(s) && s[j - 1] == '='
    ensures ok ==> argument[j - 1] == '\0' && forall k :: 0 <= k < argument.Length && k != j - 1 ==> argument[k] == old(argument[k])
    ensures !ok ==> ParseArgument(s) == None
  {
    j := 0;
    ok := false;
    var more := true;
    while more
      invariant !ok ==> j <= |s| && forall k :: 0 <= k < j ==> IsAlnum(s[k])
      invariant !ok ==> argument[..] == old(argument[..]) && (more || j == |s|)
      invariant ok ==> 0 < j <= |s| && s[j - 1] == '=' && forall k :: 0 <= k < j - 1 ==> IsAlnum(s[k])
      invariant ok ==> !more && argument[j - 1] == '\0'
      invariant ok ==> forall k :: 0 <= k < argument.Length && k != j - 1 ==> argument[k] == old(argument[k])
      decreases more, |s| - j
    {
      if IsAlnum(argument[j]) {
        j := j + 1;
      } else if argument[j] == '=' {
        argument[j] := '\0';
        j := j + 1;
        ok := true;
      } else {
        NoName(s, j);
        return false, j;
      }
      more := argument[j] != '\0' && !ok;
    }
    if ok {
      AlnumPrefixIsUnique(s, j - 1);
    }
    if argument[j] == '\0' {
      NoValue(s, j, ok);
      ok := false;
    }
  }

  lemma NoName(s: string, j: nat)
    requires j <= |s| && forall k :: 0 <= k < j ==> IsAlnum(s[k])
    requires j < |s| ==> !IsAlnum(s[j]) && s[j] != '='
    ensures ParseArgument(s) == None
  {
    if j < |s| {
      AlnumPrefixIsUnique(s, j);
    }
  }

  lemma NoValue(s: string, j: nat, cut: bool)
    requires j == |s|
    requires if cut then j > 0 && AlnumPrefix(s) == j - 1 else forall k :: 0 <= k < j ==> IsAlnum(s[k])
    ensures ParseArgument(s) == None
  {
    if cut {
      assert s[j..] == "";
    } else {
      NoName(s, j);
    }
  }

  /** The values cut so far, all before offset `limit`. */
  ghost predicate Cut(a: array<char>, conf: seq<nat>, values: seq<string>, limit: nat)
    reads a
  {
    && |conf| == |values|
    && (forall k :: 0 <= k < |conf| ==> HoldsString(a, conf[k], values[k]) && conf[k] + |values[k]| < limit)
    && forall k :: 0 <= k < |conf| ==> AllAlnum(values[k])
  }

  lemma NothingCut(a: array<char>, limit: nat)
    ensures Cut(a, [], [], limit)
  {
  }

  lemma CutIsAccepted(a: array<char>, conf: seq<nat>, values: seq<string>, limit: nat, last: string)
    requires AllAlnum(last)
    requires if last == "" then Cut(a, conf, values, limit) else Cut(a, conf, values + [last], limit + |last| + 1)
    ensures AcceptedValues(values + [last]) <==> last != ""
    ensures last != "" ==> |conf| == |values| + 1
    ensures last != "" ==> forall k :: 0 <= k < |conf| ==> HoldsString(a, conf[k], (values + [last])[k])
  {
    if last != "" {
      forall k | 0 <= k < |values|
        ensures AllAlnum(values[k])
      {
        assert values[k] == (values + [last])[k];
      }
    }
  }

  lemma CutMore(a: array<char>, conf: seq<nat>, values: seq<string>, c: nat, v: string)
    requires Cut(a, conf, values, c) && HoldsString(a, c, v) && AllAlnum(v)
    ensures Cut(a, conf + [c], values + [v], c + |v| + 1)
  {
  }

  /** Ends the value `v` at offset `j` with a terminator. */
  method EndValue(argument: array<char>, ghost c: nat, j: nat, ghost conf: seq<nat>, ghost values: seq<string>, ghost v: string)
    requires c + |v| == j < argument.Length && AllAlnum(v)
    requires forall k :: 0 <= k < |v| ==> argument[c + k] == v[k]
    requires Cut(argument, conf, values, c)
    modifies argument
    ensures argument[j] == '\0' && forall k :: 0 <= k < argument.Length && k != j ==> argument[k] == old(argument[k])
    ensures Cut(argument, conf + [c], values + [v], j + 1)
  {
    argument[j] := '\0';
    forall k | 0 <= k < |conf|
      ensures HoldsString(argument, conf[k], values[k])
    {
      assert old(HoldsString(argument, conf[k], values[k]));
    }
    CutMore(argument, conf, values, c, v);
  }

  /** The second loop: cuts the rest at its commas into values, the last not empty. */
  method CutValues(argument: array<char>, start: nat, ghost s: string) returns (ok: bool, conf: seq<nat>)
    requires 0 < start < |s| == argument.Length - 1 && '\0' !in s
    requires forall k :: start <= k < |s| ==> argument[k] == s[k]
    requires argument[|s|] == '\0'
    modifies argument
    ensures forall k :: 0 <= k < start ==> argument[k] == old(argument[k])
    ensures ok <==> AcceptedValues(Split(s[start..], ','))
    ensures ok ==> |conf| == |Split(s[start..], ',')|
    ensures ok ==> forall k :: 0 <= k < |conf| ==> HoldsString(argument, conf[k], Split(s[start..], ',')[k])
  {
    hide Split, Cut, AcceptedValues, IsAlnum;
    conf := [];
    ghost var values: seq<string> := [];
    NothingCut(argument, start);
    var c, j := start, start;
    var more := true;
    while more
      invariant start <= c <= j <= |s| && (more <==> j < |s|)
      invariant forall k :: 0 <= k < start ==> argument[k] == old(argument[k])
      invariant forall k :: c <= k < |s| ==> argument[k] == s[k]
      invariant argument[|s|] == '\0'
      invariant forall k :: c <= k < j ==> IsAlnum(s[k])
      invariant Cut(argument, conf, values, c)
      invariant Split(s[start..], ',') == values + Split(s[c..], ',')
      decreases |s| - j
    {
      if IsAlnum(argument[j]) {
        j := j + 1;
      } else if argument[j] == ',' {
        EndValue(argument, c, j, conf, values, s[c..j]);
        CutAtComma(s, c, j);
        conf, values := conf + [c], values + [s[c..j]];
        j := j + 1;
        c := j;
      } else {
        assert s[start..][j - start] == s[j];
        BadCharacterRejects(s[start..], j - start);
        return false, conf;
      }
      more := argument[j] != '\0';
    }
    LastValue(s[c..]);
    ok := j - c > 0;
    if ok {
      assert HoldsString(argument, c, s[c..]);
      CutMore(argument, conf, values, c, s[c..]);
      conf := conf + [c];
    }
    CutIsAccepted(argument, conf, values, c, s[c..]);
  }

  lemma CutAtComma(s: string, c: nat, j: nat)
    requires c <= j < |s| && s[j] == ',' && forall k :: c <= k < j ==> IsAlnum(s[k])
    ensures Split(s[c..], ',') == [s[c..j]] + Split(s[j + 1..], ',')
  {
    assert s[c..] == s[c..j] + [','] + s[j + 1..];
    SplitStep(s[c..j], ',', s[j + 1..]);
  }

  lemma LastValue(t: string)
    requires AllAlnum(t)
    ensures Split(t, ',') == [t]
  {
    AlnumIsFree(t, ',');
  }

  /** One argument: accepted or not, and if so the pointers spell the variable. */
  method CutArgument(argument: array<char>, ghost s: string) returns (ok: bool, r: VariableRef)
    requires CString(argument) && Text(argument) == s
    modifies argument
    ensures ok <==> ParseArgument(s).Some?
    ensures r.argument == argument
    ensures ok ==> Denotes(r, ParseArgument(s).value)
  {
    hide Split, AlnumPrefix, AcceptedValues;
    var j, conf;
    conf := [];
    ok, j := CutName(argument, s);
    if ok {
      ok, conf := CutValues(argument, j, s);
      assert HoldsString(argument, 0, s[..j - 1]);
    }
    r := VariableRef(argument, conf);
  }

  // ----------------------------------------------------------------------- the program

  ghost predicate AllDenote(rs: seq<VariableRef>, vars: seq<Variable>)
    reads set r | r in rs :: r.argument
  {
    |rs| == |vars| && forall k :: 0 <= k < |vars| ==> Denotes(rs[k], vars[k])
  }

  /** The table has room for the variables and all their values. */
  ghost predicate TableFits(vars: seq<Variable>) {
    |vars| <= MAX_VARS && forall k :: 0 <= k < |vars| ==> |vars[k].conf| <= MAX_CONF
  }

  class Mux {
    var variables: seq<VariableRef>

    constructor ()
      ensures variables == []
    {
      variables := [];
    }

    /** argv without the program name; `texts` is what the arguments spell on entry. `fits`
        tells whether every write to the table is inside it. */
    method ParseArguments(argv: seq<array<char>>, ghost texts: seq<string>) returns (ghost fits: bool)
      requires variables == []
      requires |texts| == |argv| && forall k :: 0 <= k < |argv| ==> CString(argv[k]) && Text(argv[k]) == texts[k]
      requires forall i, j :: 0 <= i < j < |argv| ==> argv[i] != argv[j]
      modifies this, argv
      ensures AllDenote(variables, ParseCommandLine(texts))
      ensures ParseCommandLine(texts) != [] ==> (fits <==> TableFits(ParseCommandLine(texts)))
    {
      hide ParseArgument, HoldsString;
      fits := true;
      for i := 0 to |argv|
        invariant |variables| == i
        invariant fits <==> i <= MAX_VARS && forall k :: 0 <= k < i ==> |variables[k].conf| <= MAX_CONF
        invariant forall k :: 0 <= k < i ==> ParseArgument(texts[k]).Some?
        invariant forall k :: 0 <= k < i ==> variables[k].argument == argv[k]
        invariant forall k :: 0 <= k < i ==> Denotes(variables[k], ParseArgument(texts[k]).value)
        invariant forall k :: i <= k < |argv| ==> CString(argv[k]) && Text(argv[k]) == texts[k]
      {
        var ok, r := CutArgument(argv[i], texts[i]);
        if !ok {
          variables := [];
          return;
        }
        fits := fits && i < MAX_VARS && |r.conf| <= MAX_CONF;
        ghost var before := variables;
        variables := variables + [r];
        assert variables[i] == r && forall k :: 0 <= k < i ==> variables[k] == before[k];
      }
    }

    /** All lines for the variables from `n` on, each starting with `s`. `fits` tells whether
        every string written to a `mystring` buffer, with its terminator, is inside it. */
    method PrintPermutations(n: nat, s: string, ghost vars: seq<Variable>) returns (output: seq<string>, ghost fits: bool)
      requires n < |variables| && AllDenote(variables, vars) && HaveValues(vars)
      ensures output == Lines(vars[n..], s)
      ensures fits <==> |s| + LongestLine(vars[n..]) < MAX_STRING
      decreases |variables| - n
    {
      hide Lines, LinesOver, HoldsString, LongestLine, Longest;
      output, fits := [], true;
      LinesOverEnds(vars, n, s);
      ghost var conf := vars[n].conf;
      ghost var others := |s| + |vars[n].name| + 1 + Below(vars, n);
      var r := variables[n];
      for i := 0 to |r.conf|
        invariant output + LinesOver(vars[n..], conf[i..], s) == Lines(vars[n..], s)
        invariant fits <==> forall k :: 0 <= k < i ==> others + |conf[k]| < MAX_STRING
      {
        var name := ReadString(r.argument, 0, vars[n].name);
        var value := ReadString(r.argument, r.conf[i], conf[i]);
        var mystring := s + name + "_" + value;
        fits := fits && |mystring| < MAX_STRING;
        var block := [mystring];
        if n + 1 < |variables| {
          ghost var inner;
          block, inner := PrintPermutations(n + 1, mystring + "_", vars);
          fits := fits && |mystring + "_"| < MAX_STRING && inner;
        }
        LinesOverStep(vars, n, i, s, block);
        ConcatAssoc(output, block, LinesOver(vars[n..], conf[i + 1..], s));
        output := output + block;
      }
      LongestUnfold(vars, n, others - Below(vars, n));
    }

    /** The whole program on fresh state: its standard output and exit code. `fits` tells
        whether all its writes are inside its arrays. */
    method Run(argv: seq<array<char>>, ghost texts: seq<string>) returns (output: seq<string>, code: int, ghost fits: bool)
      requires variables == []
      requires |texts| == |argv| && forall k :: 0 <= k < |argv| ==> CString(argv[k]) && Text(argv[k]) == texts[k]
      requires forall i, j :: 0 <= i < j < |argv| ==> argv[i] != argv[j]
      modifies this, argv
      ensures var vars := ParseCommandLine(texts);
              if vars == [] then output == [] && code == 1 else output == Lines(vars, "") && code == 0
      ensures var vars := ParseCommandLine(texts);
              vars != [] ==>
                (fits <==> TableFits(vars) && forall picks :: Chosen(vars, picks) ==> |Line(vars, picks)| < MAX_STRING)
    {
      hide Lines, Line, LongestLine, ParseCommandLine;
      fits := ParseArguments(argv, texts);
      ghost var vars := ParseCommandLine(texts);
      CommandLineIsWellFormed(texts);
      if |variables| != 0 {
        ghost var short;
        output, short := PrintPermutations(0, "", vars);
        assert vars[0..] == vars;
        LinesFitIff(vars, MAX_STRING);
        fits := fits && short;
        code := 0;
      } else {
        output, code := [], 1;
      }
    }
  }

  /** How much the variables after `n` add to the longest line. */
  ghost function Below(vars: seq<Variable>, n: nat): nat
    requires n < |vars|
  {
    if n + 1 < |vars| then 1 + LongestLine(vars[n + 1..]) else 0
  }

  lemma LongestUnfold(vars: seq<Variable>, n: nat, before: nat)
    requires n < |vars| && vars[n].conf != []
    requires before >= |vars[n].name| + 1
    ensures before + Longest(vars[n].conf) + Below(vars, n) < MAX_STRING
       <==> forall k :: 0 <= k < |vars[n].conf| ==> before + Below(vars, n) + |vars[n].conf[k]| < MAX_STRING
    ensures LongestLine(vars[n..]) == |vars[n].name| + 1 + Longest(vars[n].conf) + Below(vars, n)
  {
    LongestIsMaximum(vars[n].conf);
    assert vars[n..][1..] == vars[n + 1..];
  }

  lemma LinesOverEnds(vars: seq<Variable>, n: nat, s: string)
    requires n < |vars|
    ensures Lines(vars[n..], s) == LinesOver(vars[n..], vars[n].conf[0..], s)
    ensures LinesOver(vars[n..], vars[n].conf[|vars[n].conf|..], s) == []
  {
    assert vars[n].conf[0..] == vars[n].conf;
  }

  lemma LinesOverStep(vars: seq<Variable>, n: nat, i: nat, s: string, block: seq<string>)
    requires n < |vars| && i < |vars[n].conf|
    requires var mystring := s + vars[n].name + "_" + vars[n].conf[i];
             block == if n + 1 < |vars| then Lines(vars[n + 1..], mystring + "_") else [mystring]
    ensures LinesOver(vars[n..], vars[n].conf[i..], s) == block + LinesOver(vars[n..], vars[n].conf[i + 1..], s)
  {
    assert vars[n..][1..] == vars[n + 1..];
    assert vars[n].conf[i..][1..] == vars[n].conf[i + 1..];
  }
}
