/** The two demultiplexers, which rewrite a printed line in place, and the round trip back
    through the multiplexer. */
module ConfDemux {
  import opened CStrings
  import opened Basics
  import opened ConfSyntax
  import opened ConfLines

  function Underscores(s: string): nat {
    if s == "" then 0 else Underscores(s[..|s| - 1]) + if s[|s| - 1] == '_' then 1 else 0
  }

  predicate Odd(n: nat) {
    n % 2 == 1
  }

  function DemuxChar(s: string, i: nat, seen: nat): char
    requires i < |s|
  {
    if s[i] != '_' then s[i] else if Odd(seen + Underscores(s[..i])) then ' ' else '='
  }

  function BlankChar(s: string, i: nat, seen: nat): char
    requires i < |s|
  {
    if s[i] != '_' && Odd(seen + Underscores(s[..i])) then s[i] else ' '
  }

  /** `s` with every other underscore an equals sign, the rest spaces, `seen` underscores
      having gone before. */
  function DemuxFrom(s: string, seen: nat): string {
    seq(|s|, i requires 0 <= i < |s| => DemuxChar(s, i, seen))
  }

  /** `s` with everything blanked but what stands after an odd number of underscores. */
  function BlankFrom(s: string, seen: nat): string {
    seq(|s|, i requires 0 <= i < |s| => BlankChar(s, i, seen))
  }

  datatype DemuxState = EQUAL | SPACE

  /** confparser_demux: the text of a non-empty argument, rewritten in place. */
  method Demux(argument: array<char>)
    requires CString(argument) && Text(argument) != ""
    modifies argument
    ensures CString(argument) && Text(argument) == DemuxFrom(old(Text(argument)), 0)
  {
    ghost var s := Text(argument);
    var c, state, more := 0, EQUAL, true;
    while more
      invariant c <= argument.Length - 1 == |s|
      invariant more <==> c < |s|
      invariant state == if Odd(Underscores(s[..c])) then SPACE else EQUAL
      invariant forall k :: 0 <= k < c ==> argument[k] == DemuxChar(s, k, 0)
      invariant forall k :: c <= k < |s| ==> argument[k] == s[k]
      invariant CString(argument)
      decreases |s| - c
    {
      assert s[..c + 1][..c] == s[..c];
      if argument[c] == '_' {
        if state == EQUAL {
          argument[c], state := '=', SPACE;
        } else {
          argument[c], state := ' ', EQUAL;
        }
      }
      c := c + 1;
      more := argument[c] != '\0';
    }
  }

  datatype BlankState = IGNORE | PRINT

  /** confparser_demux2: all but the values of a non-empty argument, blanked in place. */
  method Blank(argument: array<char>)
    requires CString(argument) && Text(argument) != ""
    modifies argument
    ensures CString(argument) && Text(argument) == BlankFrom(old(Text(argument)), 0)
  {
    ghost var s := Text(argument);
    var c, state, more := 0, IGNORE, true;
    while more
      invariant c <= argument.Length - 1 == |s|
      invariant more <==> c < |s|
      invariant state == if Odd(Underscores(s[..c])) then PRINT else IGNORE
      invariant forall k :: 0 <= k < c ==> argument[k] == BlankChar(s, k, 0)
      invariant forall k :: c <= k < |s| ==> argument[k] == s[k]
      invariant CString(argument)
      decreases |s| - c
    {
      assert s[..c + 1][..c] == s[..c];
      var prevstate := state;
      if argument[c] == '_' {
        if state == IGNORE {
          state := PRINT;
        } else {
          prevstate, state := IGNORE, IGNORE;
        }
      }
      if prevstate == IGNORE {
        argument[c] := ' ';
      }
      c := c + 1;
      more := argument[c] != '\0';
    }
  }

  // ----------------------------------------------------------- what a line demuxes to

  lemma {:induction false} UnderscoresAppend(a: string, b: string)
    ensures Underscores(a + b) == Underscores(a) + Underscores(b)
  {
    if b == "" {
      assert a + b == a;
    } else {
      UnderscoresAppend(a, b[..|b| - 1]);
      assert (a + b)[..|a + b| - 1] == a + b[..|b| - 1];
    }
  }

  lemma DemuxAppend(a: string, b: string, seen: nat)
    ensures DemuxFrom(a + b, seen) == DemuxFrom(a, seen) + DemuxFrom(b, seen + Underscores(a))
  {
    hide Underscores;
    var s, later := a + b, DemuxFrom(b, seen + Underscores(a));
    forall i | 0 <= i < |s|
      ensures DemuxFrom(s, seen)[i] == (DemuxFrom(a, seen) + later)[i]
    {
      if i < |a| {
        assert s[..i] == a[..i];
      } else {
        UnderscoresAppend(a, b[..i - |a|]);
        assert s[..i] == a + b[..i - |a|];
      }
    }
  }

  lemma BlankAppend(a: string, b: string, seen: nat)
    ensures BlankFrom(a + b, seen) == BlankFrom(a, seen) + BlankFrom(b, seen + Underscores(a))
  {
    hide Underscores;
    var s, later := a + b, BlankFrom(b, seen + Underscores(a));
    forall i | 0 <= i < |s|
      ensures BlankFrom(s, seen)[i] == (BlankFrom(a, seen) + later)[i]
    {
      if i < |a| {
        assert s[..i] == a[..i];
      } else {
        UnderscoresAppend(a, b[..i - |a|]);
        assert s[..i] == a + b[..i - |a|];
      }
    }
  }

  lemma {:induction false} PlainText(s: string, seen: nat)
    requires '_' !in s
    ensures Underscores(s) == 0
    ensures DemuxFrom(s, seen) == s
    ensures BlankFrom(s, seen) == if Odd(seen) then s else Spaces(|s|)
  {
    PlainCount(s);
    forall i | 0 <= i < |s|
      ensures Underscores(s[..i]) == 0
    {
      PlainCount(s[..i]);
    }
  }

  lemma {:induction false} PlainCount(s: string)
    requires '_' !in s
    ensures Underscores(s) == 0
  {
    if s == "" {
    } else {
      PlainCount(s[..|s| - 1]);
    }
  }

  lemma OneUnderscore(seen: nat)
    ensures Underscores("_") == 1
    ensures DemuxFrom("_", seen) == if Odd(seen) then " " else "="
    ensures BlankFrom("_", seen) == " "
  {
    assert "_"[..0] == "";
  }

  /** `name=value` words separated by spaces. */
  function Words(vars: seq<Variable>, picks: seq<string>): (r: seq<string>)
    requires |vars| == |picks|
    ensures |r| == |vars|
  {
    if vars == [] then [] else [vars[0].name + "=" + picks[0]] + Words(vars[1..], picks[1..])
  }

  /** The values at their own places, everything else blank. */
  function ValuesInPlace(vars: seq<Variable>, picks: seq<string>): string
    requires |vars| == |picks| > 0
  {
    Spaces(|vars[0].name|) + " " + picks[0]
    + if |vars| == 1 then "" else " " + ValuesInPlace(vars[1..], picks[1..])
  }

  lemma HeadUnderscores(name: string, pick: string)
    requires '_' !in name && '_' !in pick
    ensures Underscores(name + "_") == Underscores(name + "_" + pick) == 1
  {
    hide Underscores;
    PlainText(name, 0);
    PlainText(pick, 0);
    OneUnderscore(0);
    UnderscoresAppend(name, "_");
    UnderscoresAppend(name + "_", pick);
  }

  lemma HeadDemux(name: string, pick: string, seen: nat)
    requires '_' !in name && '_' !in pick && !Odd(seen)
    ensures DemuxFrom(name + "_" + pick, seen) == name + "=" + pick
  {
    hide Underscores, DemuxFrom, BlankFrom;
    HeadUnderscores(name, pick);
    PlainText(name, seen);
    PlainText(pick, seen + 1);
    OneUnderscore(seen);
    DemuxAppend(name, "_", seen);
    DemuxAppend(name + "_", pick, seen);
  }

  lemma HeadBlank(name: string, pick: string, seen: nat)
    requires '_' !in name && '_' !in pick && !Odd(seen)
    ensures BlankFrom(name + "_" + pick, seen) == Spaces(|name|) + " " + pick
  {
    hide Underscores, DemuxFrom, BlankFrom, Spaces;
    HeadUnderscores(name, pick);
    PlainText(name, seen);
    PlainText(pick, seen + 1);
    OneUnderscore(seen);
    BlankAppend(name, "_", seen);
    BlankAppend(name + "_", pick, seen);
  }

  lemma {:induction false} LineDemux(vars: seq<Variable>, picks: seq<string>, seen: nat)
    requires |vars| > 0 && AllWellFormed(vars) && Chosen(vars, picks) && !Odd(seen)
    ensures DemuxFrom(Line(vars, picks), seen) == Join(Words(vars, picks), ' ')
    ensures BlankFrom(Line(vars, picks), seen) == ValuesInPlace(vars, picks)
    decreases |vars|
  {
    hide Underscores, DemuxFrom, BlankFrom, Spaces;
    AlnumIsFree(vars[0].name, '_');
    AlnumIsFree(picks[0], '_');
    var head := vars[0].name + "_" + picks[0];
    HeadUnderscores(vars[0].name, picks[0]);
    HeadDemux(vars[0].name, picks[0], seen);
    HeadBlank(vars[0].name, picks[0], seen);
    if |vars| == 1 {
      assert Line(vars, picks) == head;
    } else {
      var rest := Line(vars[1..], picks[1..]);
      LineDemux(vars[1..], picks[1..], seen + 2);
      OneUnderscore(seen + 1);
      UnderscoresAppend(head, "_");
      DemuxAppend(head, "_", seen);
      DemuxAppend(head + "_", rest, seen);
      BlankAppend(head, "_", seen);
      BlankAppend(head + "_", rest, seen);
      assert Line(vars, picks) == head + "_" + rest;
    }
  }

  /** A printed line demuxes to `name=value` words, and blanks to its values in place. */
  lemma PrintedLineDemuxes(vars: seq<Variable>, picks: seq<string>)
    requires |vars| > 0 && AllWellFormed(vars) && Chosen(vars, picks)
    ensures DemuxFrom(Line(vars, picks), 0) == Join(Words(vars, picks), ' ')
    ensures Split(DemuxFrom(Line(vars, picks), 0), ' ') == Words(vars, picks)
    ensures BlankFrom(Line(vars, picks), 0) == ValuesInPlace(vars, picks)
  {
    hide DemuxFrom, BlankFrom, Join, Split;
    LineDemux(vars, picks, 0);
    WordsAreFree(vars, picks);
    SplitJoin(Words(vars, picks), ' ');
  }

  lemma {:induction false} WordsAreFree(vars: seq<Variable>, picks: seq<string>)
    requires AllWellFormed(vars) && Chosen(vars, picks)
    ensures Free(Words(vars, picks), ' ')
    decreases |vars|
  {
    if vars == [] {
    } else {
      WordsAreFree(vars[1..], picks[1..]);
      AlnumIsFree(vars[0].name, ' ');
      AlnumIsFree(picks[0], ' ');
    }
  }

  // ------------------------------------------------------------ back to the multiplexer

  /** The same variables, each with the one chosen value. */
  function Singles(vars: seq<Variable>, picks: seq<string>): (r: seq<Variable>)
    requires |vars| == |picks|
    ensures |r| == |vars|
    ensures forall k :: 0 <= k < |r| ==> r[k] == Variable(vars[k].name, [picks[k]])
  {
    seq(|vars|, k requires 0 <= k < |vars| && |vars| == |picks| => Variable(vars[k].name, [picks[k]]))
  }

  lemma {:induction false} WordAt(vars: seq<Variable>, picks: seq<string>, k: nat)
    requires |vars| == |picks| && k < |vars|
    ensures Words(vars, picks)[k] == vars[k].name + "=" + picks[k]
    decreases |vars|
  {
    if k == 0 {
    } else {
      WordAt(vars[1..], picks[1..], k - 1);
    }
  }

  /** A demuxed word is accepted again exactly when its value is not empty. */
  lemma WordParsesIff(name: string, pick: string)
    requires AllAlnum(name) && AllAlnum(pick)
    ensures ParseArgument(name + "=" + pick) == if pick == "" then None else Some(Variable(name, [pick]))
  {
    var s := name + "=" + pick;
    forall j | 0 <= j < |name|
      ensures IsAlnum(s[j])
    {
      assert s[j] == name[j];
    }
    AlnumPrefixIsUnique(s, |name|);
    assert s[..|name|] == name && s[|name| + 1..] == pick;
    AlnumIsFree(pick, ',');
    assert Split(pick, ',') == [pick];
  }

  lemma WordsParseIff(vars: seq<Variable>, picks: seq<string>)
    requires |vars| > 0 && AllWellFormed(vars) && Chosen(vars, picks)
    ensures ParseCommandLine(Words(vars, picks)) == if "" in picks then [] else Singles(vars, picks)
  {
    hide ParseArgument, Words;
    var words := Words(vars, picks);
    forall k | 0 <= k < |vars|
      ensures ParseArgument(words[k]) == if picks[k] == "" then None else Some(Singles(vars, picks)[k])
    {
      WordAt(vars, picks, k);
      WordParsesIff(vars[k].name, picks[k]);
    }
    if "" in picks {
      var k :| 0 <= k < |picks| && picks[k] == "";
      assert ParseArgument(words[k]).None?;
    }
  }

  lemma {:induction false} SinglesPrintOneLine(vars: seq<Variable>, picks: seq<string>, prefix: string)
    requires |vars| == |picks| > 0
    ensures Lines(Singles(vars, picks), prefix) == [prefix + Line(vars, picks)]
    decreases |vars|
  {
    var singles := Singles(vars, picks);
    var start := prefix + vars[0].name + "_" + picks[0];
    var conf := singles[0].conf;
    assert conf[1..] == [] && LinesOver(singles, conf[1..], prefix) == [];
    assert Lines(singles, prefix) == Block(singles, start) + [];
    LineUnfold(vars, prefix, picks[0], picks[1..]);
    assert picks == [picks[0]] + picks[1..];
    assert Lines(singles, prefix) == Block(singles, start);
    if |vars| > 1 {
      SinglesPrintOneLine(vars[1..], picks[1..], start + "_");
      assert singles[1..] == Singles(vars[1..], picks[1..]);
      var rest := Line(vars[1..], picks[1..]);
      assert (start + "_") + rest == start + ("_" + rest);
    } else {
      assert start + "" == start;
    }
  }

  /** Demuxing a line and feeding the words back prints exactly that line - if and only if
      no value in it is empty; an empty one makes the multiplexer reject the words. */
  lemma RoundTripIff(vars: seq<Variable>, picks: seq<string>)
    requires |vars| > 0 && AllWellFormed(vars) && Chosen(vars, picks)
    ensures var again := ParseCommandLine(Split(DemuxFrom(Line(vars, picks), 0), ' '));
            if "" in picks then again == [] else |again| > 0 && Lines(again, "") == [Line(vars, picks)]
  {
    PrintedLineDemuxes(vars, picks);
    WordsParseIff(vars, picks);
    SinglesPrintOneLine(vars, picks, "");
    assert "" + Line(vars, picks) == Line(vars, picks);
  }

  /** The multiplexer accepts a first empty value, and prints a line that does not come back. */
  lemma EmptyValueDoesNotComeBack()
    ensures var vars := ParseCommandLine(["A=,b"]);
            && vars == [Variable("A", ["", "b"])] && Line(vars, [""]) in Lines(vars, "")
            && ParseCommandLine(Split(DemuxFrom(Line(vars, [""]), 0), ' ')) == []
  {
    hide ParseArgument, Lines, Line, Split, DemuxFrom;
    var v := Variable("A", ["", "b"]);
    assert ParseArgument(["A=,b"][0]) == Some(v) by {
      assert Join([""] + ["b"], ',') == "" + "," + "b";
      ParseArgumentIffFormat("A=,b", v);
    }
    CommandLineIsWellFormed(["A=,b"]);
    assert ParseCommandLine(["A=,b"]) == [v];
    assert Chosen([v], [""]);
    LinesAreTheProduct([v], Line([v], [""]));
    RoundTripIff([v], [""]);
  }

  /** For every accepted argument list without empty values, every printed line comes back
      as itself. */
  lemma RoundTrip(args: seq<string>, line: string)
    requires ParseCommandLine(args) != []
    requires forall v, k :: v in ParseCommandLine(args) && 0 <= k < |v.conf| ==> v.conf[k] != ""
    requires line in Lines(ParseCommandLine(args), "")
    ensures var again := ParseCommandLine(Split(DemuxFrom(line, 0), ' '));
            |again| > 0 && Lines(again, "") == [line]
  {
    hide Lines, Line, Split, DemuxFrom, ParseCommandLine;
    var vars := ParseCommandLine(args);
    CommandLineIsWellFormed(args);
    LinesAreTheProduct(vars, line);
    var picks :| Chosen(vars, picks) && line == Line(vars, picks);
    forall k | 0 <= k < |picks|
      ensures picks[k] != ""
    {
      assert vars[k] in vars;
    }
    RoundTripIff(vars, picks);
  }
}
