/** The two spellings of a test configuration: command-line arguments `NAME=v1,v2` and
    multiplexed lines `NAME_v1_...`. */
module ConfSyntax {

  import opened Basics

  // ------------------------------------------------------------------ split and join

  function IndexOf(s: string, c: char): (k: nat)
    requires c in s
    ensures k < |s| && s[k] == c && forall j :: 0 <= j < k ==> s[j] != c
  {
    if s[0] == c then 0
    else
      var k := IndexOf(s[1..], c);
      k + 1
  }

  function Split(s: string, sep: char): (r: seq<string>)
    ensures |r| > 0
    decreases |s|
  {
    if sep !in s then [s]
    else
      var k := IndexOf(s, sep);
      [s[..k]] + Split(s[k + 1..], sep)
  }

  function Join(ss: seq<string>, sep: char): string
    requires |ss| > 0
  {
    if |ss| == 1 then ss[0] else ss[0] + [sep] + Join(ss[1..], sep)
  }

  ghost predicate Free(ss: seq<string>, sep: char) {
    forall k :: 0 <= k < |ss| ==> sep !in ss[k]
  }

  lemma IndexIsUnique(s: string, c: char, k: nat)
    requires k < |s| && s[k] == c && forall j :: 0 <= j < k ==> s[j] != c
    ensures IndexOf(s, c) == k
  {
  }

  lemma SplitStep(piece: string, sep: char, rest: string)
    requires sep !in piece
    ensures Split(piece + [sep] + rest, sep) == [piece] + Split(rest, sep)
  {
    var s := piece + [sep] + rest;
    assert s[|piece|] == sep && s[..|piece|] == piece && s[|piece| + 1..] == rest;
    IndexIsUnique(s, sep, |piece|);
  }

  lemma JoinStep(piece: string, sep: char, rest: seq<string>)
    ensures Join([piece] + rest, sep) == if rest == [] then piece else piece + [sep] + Join(rest, sep)
    ensures [piece] + [] == [piece]
  {
  }

  lemma {:induction false} SplitJoin(ss: seq<string>, sep: char)
    requires |ss| > 0 && Free(ss, sep)
    ensures Split(Join(ss, sep), sep) == ss
  {
    hide IndexOf;
    if |ss| == 1 {
    } else {
      SplitJoin(ss[1..], sep);
      SplitStep(ss[0], sep, Join(ss[1..], sep));
    }
  }

  lemma {:induction false} JoinSplit(s: string, sep: char)
    ensures Join(Split(s, sep), sep) == s
    ensures Free(Split(s, sep), sep)
    decreases |s|
  {
    hide Join;
    if sep !in s {
      JoinStep(s, sep, []);
    } else {
      var k := IndexOf(s, sep);
      JoinSplit(s[k + 1..], sep);
      JoinStep(s[..k], sep, Split(s[k + 1..], sep));
      assert s == s[..k] + [sep] + s[k + 1..];
    }
  }

  // ------------------------------------------------------------------------ arguments

  predicate IsAlnum(c: char) {
    '0' <= c <= '9' || 'A' <= c <= 'Z' || 'a' <= c <= 'z'
  }

  predicate AllAlnum(s: string) {
    forall k :: 0 <= k < |s| ==> IsAlnum(s[k])
  }

  datatype Variable = Variable(name: string, conf: seq<string>)

  predicate AcceptedValues(conf: seq<string>) {
    |conf| > 0 && conf[|conf| - 1] != "" && forall k :: 0 <= k < |conf| ==> AllAlnum(conf[k])
  }

  /** What the parser accepts: the name and all values but the last may be empty. */
  predicate WellFormed(v: Variable) {
    AllAlnum(v.name) && AcceptedValues(v.conf)
  }

  function Format(v: Variable): string
    requires |v.conf| > 0
  {
    v.name + "=" + Join(v.conf, ',')
  }

  function AlnumPrefix(s: string): (k: nat)
    ensures k <= |s| && (forall j :: 0 <= j < k ==> IsAlnum(s[j])) && (k < |s| ==> !IsAlnum(s[k]))
  {
    if s == "" || !IsAlnum(s[0]) then 0 else 1 + AlnumPrefix(s[1..])
  }

  lemma AlnumPrefixIsUnique(s: string, n: nat)
    requires n < |s| && !IsAlnum(s[n]) && forall j :: 0 <= j < n ==> IsAlnum(s[j])
    ensures AlnumPrefix(s) == n
  {
  }

  function ParseArgument(s: string): Option<Variable> {
    var k := AlnumPrefix(s);
    if k < |s| && s[k] == '=' && AcceptedValues(Split(s[k + 1..], ','))
    then Some(Variable(s[..k], Split(s[k + 1..], ',')))
    else None
  }

  lemma FormatSplits(v: Variable)
    requires WellFormed(v)
    ensures AlnumPrefix(Format(v)) == |v.name|
    ensures Format(v)[|v.name|] == '=' && Format(v)[..|v.name|] == v.name
    ensures Split(Format(v)[|v.name| + 1..], ',') == v.conf
  {
    hide Split, Join, AlnumPrefix;
    var s, n := Format(v), |v.name|;
    var values := Join(v.conf, ',');
    assert s[..n] == v.name && s[n + 1..] == values;
    forall j | 0 <= j < n
      ensures IsAlnum(s[j])
    {
      assert s[j] == v.name[j];
    }
    AlnumPrefixIsUnique(s, n);
    forall i | 0 <= i < |v.conf|
      ensures ',' !in v.conf[i]
    {
      AlnumIsFree(v.conf[i], ',');
    }
    SplitJoin(v.conf, ',');
  }

  /** The parser accepts exactly the well-formed arguments, and means what they spell. */
  lemma ParseArgumentIffFormat(s: string, v: Variable)
    ensures ParseArgument(s) == Some(v) <==> WellFormed(v) && s == Format(v)
  {
    hide Split, Join, AlnumPrefix;
    var k := AlnumPrefix(s);
    if ParseArgument(s) == Some(v) {
      JoinSplit(s[k + 1..], ',');
      assert s == s[..k] + "=" + s[k + 1..];
    }
    if WellFormed(v) && s == Format(v) {
      FormatSplits(v);
    }
  }

  /** A variable may have no name. */
  lemma EmptyNameIsAccepted()
    ensures ParseArgument("=b") == Some(Variable("", ["b"]))
  {
    ParseArgumentIffFormat("=b", Variable("", ["b"]));
  }

  lemma AlnumIsFree(s: string, c: char)
    requires AllAlnum(s) && !IsAlnum(c)
    ensures c !in s
  {
  }

  /** All arguments parsed; none of them kept when one is rejected. */
  function ParseCommandLine(args: seq<string>): seq<Variable> {
    if forall k :: 0 <= k < |args| ==> ParseArgument(args[k]).Some?
    then seq(|args|, k requires 0 <= k < |args| && ParseArgument(args[k]).Some? => ParseArgument(args[k]).value)
    else []
  }

  ghost predicate AllWellFormed(vars: seq<Variable>) {
    forall k :: 0 <= k < |vars| ==> WellFormed(vars[k])
  }

  lemma CommandLineIsWellFormed(args: seq<string>)
    ensures AllWellFormed(ParseCommandLine(args))
  {
    var vars := ParseCommandLine(args);
    forall k | 0 <= k < |vars|
      ensures WellFormed(vars[k])
    {
      ParseArgumentIffFormat(args[k], vars[k]);
    }
  }
}
