/** The two-line display buffer of the dsPIC demo, against a terminal that lays text out in
    rows of sixteen. */
module LcdBuffer {
  import opened Basics
  import opened Bytes

  const WIDTH := 16
  const SIZE := 32

  // ------------------------------------------------------------------------- the terminal

  /** A row of text; a closed one takes no more characters. */
  datatype Row = Row(text: string, closed: bool)

  /** How many characters of `t` go into a row with `room` places: up to a newline. */
  function RowLength(t: string, room: nat): (k: nat)
    ensures k <= room && k <= |t| && (k < room && k < |t| ==> t[k] == '\n')
    ensures forall i :: 0 <= i < k ==> t[i] != '\n'
  {
    if room == 0 || t == "" || t[0] == '\n' then 0 else 1 + RowLength(t[1..], room - 1)
  }

  /** The layout of a text: rows end at a newline or when full. A newline right after a full
      row makes an empty row of its own. */
  function Rows(t: string): seq<Row>
    decreases |t|
  {
    if t == "" then []
    else
      var k := RowLength(t, WIDTH);
      if k == WIDTH then [Row(t[..k], true)] + Rows(t[k..])
      else if k < |t| then [Row(t[..k], true)] + Rows(t[k + 1..])
      else [Row(t, false)]
  }

  function Texts(rows: seq<Row>): seq<string> {
    if rows == [] then [] else [rows[0].text] + Texts(rows[1..])
  }

  function WithoutNewlines(t: string): string {
    if t == "" then "" else (if t[0] == '\n' then "" else [t[0]]) + WithoutNewlines(t[1..])
  }

  lemma {:induction false} WithoutNewlinesAppend(a: string, b: string)
    ensures WithoutNewlines(a + b) == WithoutNewlines(a) + WithoutNewlines(b)
    ensures '\n' !in a ==> WithoutNewlines(a) == a
  {
    if a == "" {
      assert a + b == b;
    } else {
      assert (a + b)[1..] == a[1..] + b;
      WithoutNewlinesAppend(a[1..], b);
      ConcatAssoc(if a[0] == '\n' then "" else [a[0]], WithoutNewlines(a[1..]), WithoutNewlines(b));
      assert a == [a[0]] + a[1..];
    }
  }

  /** The rows from `head` on, whatever ends it. */
  lemma RowsUnfold(t: string)
    requires t != ""
    ensures var k := RowLength(t, WIDTH);
            && '\n' !in t[..k]
            && Rows(t) == if k == WIDTH then [Row(t[..k], true)] + Rows(t[k..])
                          else if k < |t| then [Row(t[..k], true)] + Rows(t[k + 1..])
                          else [Row(t, false)]
  {
  }

  /** Read row after row, the rows spell the text, but for its newlines. */
  lemma {:induction false} RowsSpellText(t: string)
    ensures Concat(Texts(Rows(t))) == WithoutNewlines(t)
    decreases |t|
  {
    hide RowLength, WithoutNewlines, Concat, Texts, Rows;
    if t == "" {
      NoText();
    } else {
      RowsUnfold(t);
      var k := RowLength(t, WIDTH);
      var head := t[..k];
      assert t == head + t[k..];
      WithoutNewlinesAppend(head, t[k..]);
      if k == WIDTH {
        RowsSpellText(t[k..]);
        TextsStep(Row(head, true), Rows(t[k..]));
      } else if k < |t| {
        RowsSpellText(t[k + 1..]);
        TextsStep(Row(head, true), Rows(t[k + 1..]));
        assert t[k..] == "\n" + t[k + 1..];
        WithoutNewlinesAppend("\n", t[k + 1..]);
        LoneNewline();
      } else {
        assert head == t;
        TextsStep(Row(t, false), []);
        NoText();
        assert t + "" == t;
      }
    }
  }

  lemma NoText()
    ensures Rows("") == [] && Texts([]) == [] && Concat<char>([]) == "" && WithoutNewlines("") == ""
  {
  }

  lemma LoneNewline()
    ensures WithoutNewlines("\n") == ""
  {
    assert "\n"[1..] == "";
  }

  lemma TextsStep(r: Row, rows: seq<Row>)
    ensures Concat(Texts([r] + rows)) == r.text + Concat(Texts(rows))
    ensures [r] + [] == [r]
  {
    assert ([r] + rows)[1..] == rows;
    var ts := Texts(rows);
    assert ([r.text] + ts)[1..] == ts;
  }

  /** A newline right after a full row leaves a blank row below it. */
  lemma NewlineAfterFullRow(row: string)
    requires |row| == 16 && '\n' !in row
    ensures Display(row + "\n") == row + Spaces(16)
  {
    var t := row + "\n";
    RowLengthIsUnique(t, WIDTH, 16);
    assert t[..16] == row && t[16..] == "\n";
    RowLengthIsUnique("\n", WIDTH, 0);
    assert "\n"[..0] == "" && "\n"[1..] == "";
    assert Rows("\n") == [Row("", true)];
    assert Rows(t) == [Row(row, true)] + [Row("", true)];
    assert row + Spaces(0) == row && "" + Spaces(16) == Spaces(16);
  }

  /** Two short lines stand at the left of the two rows. */
  lemma TwoShortLines(a: string, b: string)
    requires |a| < 16 && 0 < |b| < 16 && '\n' !in a && '\n' !in b
    ensures Display(a + "\n" + b) == (a + Spaces(16 - |a|)) + (b + Spaces(16 - |b|))
  {
    var t := a + "\n" + b;
    RowLengthIsUnique(t, WIDTH, |a|);
    assert t[..|a|] == a && t[|a| + 1..] == b;
    RowLengthIsUnique(b, WIDTH, |b|);
    assert Rows(b) == [Row(b, false)];
    assert Rows(t) == [Row(a, true)] + [Row(b, false)];
  }

  function Pad(r: Row): string {
    if |r.text| <= WIDTH then r.text + Spaces(WIDTH - |r.text|) else r.text
  }

  /** The display before any text: two rows of zero bytes. */
  function Blank(): string {
    seq(WIDTH, _ => '\0')
  }

  function RowFromEnd(rows: seq<Row>, k: nat): string {
    if k < |rows| then Pad(rows[|rows| - 1 - k]) else Blank()
  }

  /** The last two rows. */
  function Display(t: string): string {
    RowFromEnd(Rows(t), 1) + RowFromEnd(Rows(t), 0)
  }

  predicate IsOpen(rows: seq<Row>) {
    rows != [] && !rows[|rows| - 1].closed
  }

  /** Where the next character goes; 0 when it needs a new row. */
  function Position(t: string): nat {
    var rows := Rows(t);
    if IsOpen(rows) then WIDTH + |rows[|rows| - 1].text| else 0
  }

  /** The layout after one more character. */
  function Extended(rows: seq<Row>, c: char): seq<Row> {
    if !IsOpen(rows) then rows + [if c == '\n' then Row("", true) else Row([c], false)]
    else
      var n := |rows| - 1;
      var text := rows[n].text;
      rows[..n] + [if c == '\n' then Row(text, true) else Row(text + [c], |text| + 1 == WIDTH)]
  }

  lemma {:induction false} RowLengthIsUnique(t: string, room: nat, k: nat)
    requires k <= room && k <= |t| && (forall i :: 0 <= i < k ==> t[i] != '\n')
    requires k == room || k == |t| || t[k] == '\n'
    ensures RowLength(t, room) == k
  {
    if k == 0 {
    } else {
      RowLengthIsUnique(t[1..], room - 1, k - 1);
    }
  }

  /** Text arriving one character at a time is laid out like text as a whole. */
  lemma {:induction false} RowsExtend(t: string, c: char)
    ensures Rows(t + [c]) == Extended(Rows(t), c)
    decreases |t|
  {
    hide RowLength;
    var s := t + [c];
    if t == "" {
      RowLengthIsUnique(s, WIDTH, if c == '\n' then 0 else 1);
      assert s[..0] == "" && s[1..] == "";
    } else {
      var k := RowLength(t, WIDTH);
      if k < WIDTH && k == |t| {
        RowLengthIsUnique(s, WIDTH, if c == '\n' then k else k + 1);
        assert s[..k] == t && s[k + 1..] == "";
        assert s[..k + 1] == s;
        assert [Row(t, false)][..0] == [];
      } else {
        RowLengthIsUnique(s, WIDTH, k);
        var used := if k == WIDTH then k else k + 1;
        assert s[..k] == t[..k] && s[used..] == t[used..] + [c];
        RowsExtend(t[used..], c);
        ExtendedTail(Row(t[..k], true), Rows(t[used..]), c);
      }
    }
  }

  lemma ExtendedTail(first: Row, rows: seq<Row>, c: char)
    requires first.closed
    ensures Extended([first] + rows, c) == [first] + Extended(rows, c)
  {
    if IsOpen(rows) {
      assert ([first] + rows)[..|rows|] == [first] + rows[..|rows| - 1];
    } else {
      assert !IsOpen([first] + rows);
    }
  }

  lemma {:induction false} RowsFit(t: string)
    ensures forall i :: 0 <= i < |Rows(t)| ==> |Rows(t)[i].text| <= WIDTH && (|Rows(t)[i].text| < WIDTH || Rows(t)[i].closed)
    decreases |t|
  {
    hide RowLength;
    if t == "" {
    } else {
      var k := RowLength(t, WIDTH);
      RowsFit(if k == WIDTH || k == |t| then t[k..] else t[k + 1..]);
    }
  }

  /** The position is 0 or in the second row. */
  lemma PositionIsInSecondRow(t: string)
    ensures Position(t) == 0 || 16 <= Position(t) <= 31
  {
    hide Rows;
    RowsFit(t);
  }

  /** Scrolling by one row. */
  function Scrolled(buf: string): string
    requires |buf| == SIZE
  {
    buf[16..] + Spaces(16)
  }

  /** The buffer once the row to write in is there, and where to write. */
  function Ready(t: string): (r: (string, nat))
    ensures |r.0| == SIZE && 16 <= r.1 <= 31
  {
    DisplaySize(t);
    PositionIsInSecondRow(t);
    if Position(t) == 0 then (Scrolled(Display(t)), 16) else (Display(t), Position(t))
  }

  lemma DisplaySize(t: string)
    ensures |Display(t)| == SIZE && |RowFromEnd(Rows(t), 0)| == |RowFromEnd(Rows(t), 1)| == WIDTH
  {
    hide Rows;
    RowsFit(t);
  }

  /** How the two displayed rows move: a new row scrolls them, an open one stays in place. */
  lemma RowsMove(t: string, c: char)
    ensures var rows' := Rows(t + [c]);
            if Position(t) == 0
            then RowFromEnd(rows', 1) == RowFromEnd(Rows(t), 0)
                 && RowFromEnd(rows', 0) == if c == '\n' then Spaces(16) else [c] + Spaces(15)
            else RowFromEnd(rows', 1) == RowFromEnd(Rows(t), 1)
  {
    hide Rows;
    RowsExtend(t, c);
    RowsFit(t);
    assert "" + Spaces(16) == Spaces(16);
  }

  /** The old second row, when there is room in it. */
  lemma OpenRow(t: string, c: char)
    requires Position(t) != 0
    ensures var k := Position(t) - 16; var row := RowFromEnd(Rows(t), 0);
            && k < 16 && |row| == 16
            && RowFromEnd(Rows(t + [c]), 0) == if c == '\n' then row[..k] + Spaces(16 - k) else row[k := c]
  {
    hide Rows;
    RowsExtend(t, c);
    RowsFit(t);
    var rows := Rows(t);
    var text := rows[|rows| - 1].text;
    OverwritePad(text, c);
    assert (text + Spaces(16 - |text|))[..|text|] == text;
  }

  /** Where the next character goes then. */
  lemma PositionMoves(t: string, c: char)
    ensures var pos := if Position(t) == 0 then 16 else Position(t);
            Position(t + [c]) == if c == '\n' then 0 else (pos + 1) % 32
  {
    hide Rows;
    RowsExtend(t, c);
    RowsFit(t);
  }

  /** What one more character does to the two displayed rows. */
  lemma DisplayExtends(t: string, c: char)
    ensures var (buf, pos) := Ready(t);
            && Display(t + [c]) == (if c == '\n' then buf[..pos] + Spaces(32 - pos) else buf[pos := c])
            && Position(t + [c]) == if c == '\n' then 0 else (pos + 1) % 32
  {
    hide Rows, RowFromEnd, Position;
    DisplaySize(t);
    PositionMoves(t, c);
    PositionIsInSecondRow(t);
    RowsMove(t, c);
    if Position(t) == 0 {
      assert Display(t)[16..] == RowFromEnd(Rows(t), 0);
      assert Spaces(16)[0 := c] == [c] + Spaces(15);
    } else {
      OpenRow(t, c);
      var first, second, k := RowFromEnd(Rows(t), 1), RowFromEnd(Rows(t), 0), Position(t) - 16;
      assert Display(t) == first + second;
      if c == '\n' {
        ConcatAssoc(first, second[..k], Spaces(16 - k));
        assert (first + second)[..16 + k] == first + second[..k];
      }
    }
  }

  lemma OverwritePad(text: string, c: char)
    requires |text| < WIDTH
    ensures (text + Spaces(16 - |text|))[|text| := c] == text + [c] + Spaces(15 - |text|)
  {
  }

  // ------------------------------------------------------------------------- the buffer

  class Lcd {
    const lcdBuf: array<char>
    var lcdPos: nat
    ghost var fed: string  // all text ever put

    /** The buffer shows the last two rows of all text, and the position is theirs. */
    ghost predicate Valid()
      reads this, lcdBuf
    {
      lcdBuf.Length == SIZE && lcdBuf[..] == Display(fed) && lcdPos == Position(fed)
    }

    constructor ()
      ensures Valid() && fresh(lcdBuf) && fed == ""
    {
      lcdBuf := new char[SIZE](_ => '\0');
      lcdPos, fed := 0, "";
    }

    /** One turn of the loop: scroll, then a newline or a character. */
    method Put(c: char)
      requires Valid()
      modifies this, lcdBuf
      ensures Valid() && fed == old(fed) + [c]
    {
      hide Display, Position, Ready;
      DisplayExtends(fed, c);
      PositionIsInSecondRow(fed);
      UnfoldReady(fed);
      if lcdPos == 0 {
        forall k | 0 <= k < 16 {
          lcdBuf[k] := lcdBuf[16 + k];
        }
        forall k | 0 <= k < 16 {
          lcdBuf[16 + k] := ' ';
        }
        lcdPos := 16;
        assert lcdBuf[..] == Scrolled(Display(fed));
      }
      ghost var buf := lcdBuf[..];
      assert buf == Ready(fed).0 && lcdPos == Ready(fed).1;
      if c == '\n' {
        forall k | lcdPos <= k < 32 {
          lcdBuf[k] := ' ';
        }
        assert lcdBuf[..] == buf[..lcdPos] + Spaces(32 - lcdPos);
        lcdPos := 31;
      } else {
        lcdBuf[lcdPos] := c;
      }
      lcdPos := (lcdPos + 1) % 32;
      fed := fed + [c];
    }

    method LcdPuts(ch: string)
      requires Valid() && '\0' !in ch
      modifies this, lcdBuf
      ensures Valid() && fed == old(fed) + ch
      ensures lcdPos == 0 || 16 <= lcdPos <= 31
    {
      hide Display, Position;
      for i := 0 to |ch|
        invariant Valid() && fed == old(fed) + ch[..i]
      {
        Put(ch[i]);
        assert old(fed) + ch[..i] + [ch[i]] == old(fed) + ch[..i + 1];
      }
      assert ch[..|ch|] == ch;
      PositionIsInSecondRow(fed);
    }
  }

  lemma UnfoldReady(t: string)
    ensures |Display(t)| == SIZE
    ensures Ready(t) == if Position(t) == 0 then (Scrolled(Display(t)), 16) else (Display(t), Position(t))
  {
    DisplaySize(t);
  }
}
