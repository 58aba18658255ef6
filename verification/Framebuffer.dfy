/** The 80x25 text screen and its hardware cursor, a position held in two byte registers. */
module Framebuffer {
  import opened Bytes

  const BUFFER_WIDTH := 80
  const BUFFER_HEIGHT := 25
  const NEWLINE: byte := 0x0A

  /** Characters on the screen and the cursor as a linear position. */
  datatype View = View(cells: seq<byte>, pos: nat) {
    ghost predicate Valid() {
      |cells| == 2000 && pos < 2000
    }
  }

  function Right(pos: nat): nat {
    if pos + 1 < 2000 then pos + 1 else 1999
  }

  function Left(pos: nat): nat {
    if pos > 0 then pos - 1 else 0
  }

  /** The start of the next row; on the last row, its start. */
  function NextLine(pos: nat): nat {
    if pos / 80 < 24 then (pos / 80 + 1) * 80 else pos / 80 * 80
  }

  /** Down one row and to its first column. */
  lemma NextLineBegins(pos: nat)
    ensures pos < 1920 <==> pos / 80 < 24
    ensures pos < 1920 ==> (pos + 80) / 80 * 80 == NextLine(pos)
    ensures pos >= 1920 ==> pos / 80 * 80 == NextLine(pos)
  {
  }

  function Put(v: View, c: byte): (r: View)
    requires v.Valid()
    ensures r.Valid()
  {
    if c == NEWLINE then v.(pos := NextLine(v.pos))
    else View(v.cells[v.pos := c], Right(v.pos))
  }

  function PutAll(v: View, s: seq<byte>): (r: View)
    requires v.Valid()
    ensures r.Valid()
  {
    if s == [] then v
    else Put(PutAll(v, s[..|s| - 1]), s[|s| - 1])
  }

  /** Text without line breaks that fits before the last cell appears as it is, and nothing else changes. */
  lemma {:induction false} TextAppears(v: View, s: seq<byte>)
    requires v.Valid() && v.pos + |s| < 2000 && NEWLINE !in s
    ensures PutAll(v, s).pos == v.pos + |s|
    ensures PutAll(v, s).cells == v.cells[..v.pos] + s + v.cells[v.pos + |s|..]
  {
    if s != [] {
      var front := s[..|s| - 1];
      TextAppears(v, front);
      assert s == front + [s[|s| - 1]];
    } else {
      assert v.cells == v.cells[..v.pos] + [] + v.cells[v.pos..];
    }
  }

  /** A line feed writes nothing and goes to the start of the next row; on the last row, to the start of that row. */
  lemma LineFeed(v: View)
    requires v.Valid()
    ensures
      var r := Put(v, 0x0A);
      && r.cells == v.cells && r.pos % 80 == 0
      && (v.pos < 1920 ==> v.pos < r.pos <= v.pos + 80)
      && (v.pos >= 1920 ==> r.pos == 1920)
  {
  }

  /** Any other character takes the cell at the cursor, which goes one on and stops at the last cell. */
  lemma PutOneChar(v: View, c: byte)
    requires v.Valid() && c != 0x0A
    ensures
      var r := Put(v, c);
      && r.cells == v.cells[v.pos := c]
      && r.pos == if v.pos < 1999 then v.pos + 1 else 1999
  {
  }

  /** Text in two parts is printed one after the other. */
  lemma {:induction false} PutAllSplit(v: View, a: seq<byte>, b: seq<byte>)
    requires v.Valid()
    ensures PutAll(v, a + b) == PutAll(PutAll(v, a), b)
  {
    if b == [] {
      assert a + b == a;
    } else {
      PutAllSplit(v, a, b[..|b| - 1]);
      assert (a + b)[..|a + b| - 1] == a + b[..|b| - 1];
    }
  }

  // ---- text of several lines ----

  /** The lines, with a line feed between any two. */
  function TextOf(lines: seq<seq<byte>>): seq<byte> {
    if lines == [] then []
    else if |lines| == 1 then lines[0]
    else TextOf(lines[..|lines| - 1]) + [0x0A] + lines[|lines| - 1]
  }

  /** Each line starts in its own row: the first at pos, any other in column 0 below the end of the one before. */
  ghost predicate Starts(lines: seq<seq<byte>>, starts: seq<nat>, pos: nat) {
    && |starts| == |lines|
    && (lines != [] ==> starts[0] == pos)
    && (forall i :: 0 < i < |lines| ==>
          && starts[i] % 80 == 0
          && starts[i - 1] + |lines[i - 1]| < starts[i] <= starts[i - 1] + |lines[i - 1]| + 80)
    && (forall i :: 0 <= i < |lines| ==>
          && starts[i] + |lines[i]| < 2000 && (i < |lines| - 1 ==> starts[i] + |lines[i]| < 1920)
          && NEWLINE !in lines[i])
  }

  /** Every line is there from where it starts. */
  ghost predicate Stand(cells: seq<byte>, lines: seq<seq<byte>>, starts: seq<nat>) {
    && |cells| == 2000 && |starts| == |lines|
    && forall i :: 0 <= i < |lines| ==>
                     starts[i] + |lines[i]| < 2000 && cells[starts[i]..starts[i] + |lines[i]|] == lines[i]
  }

  /** No line reaches over the cell. */
  ghost predicate Outside(c: nat, lines: seq<seq<byte>>, starts: seq<nat>)
    requires |starts| == |lines|
  {
    forall i :: 0 <= i < |lines| ==> !(starts[i] <= c < starts[i] + |lines[i]|)
  }

  lemma OneRow(p: nat, a: nat, b: nat)
    requires a % 80 == 0 && b % 80 == 0 && p < a <= p + 80 && p < b <= p + 80
    ensures a == b
  {
  }

  lemma PutAllOfOne(v: View, c: byte)
    requires v.Valid()
    ensures PutAll(v, [c]) == Put(v, c)
  {
    assert [c][..0] == [];
  }

  /** A line feed and a line. */
  lemma NextLineAppears(v: View, line: seq<byte>, start: nat)
    requires v.Valid() && v.pos < 1920 && start % 80 == 0 && v.pos < start <= v.pos + 80
    requires start + |line| < 2000 && NEWLINE !in line
    ensures
      var r := PutAll(v, [0x0A] + line);
      && r.pos == start + |line|
      && r.cells == v.cells[..start] + line + v.cells[start + |line|..]
  {
    hide PutAll, Put;
    LineFeed(v);
    OneRow(v.pos, start, Put(v, 0x0A).pos);
    PutAllSplit(v, [0x0A], line);
    PutAllOfOne(v, 0x0A);
    TextAppears(Put(v, 0x0A), line);
  }

  lemma {:induction false} StartsGrow(lines: seq<seq<byte>>, starts: seq<nat>, pos: nat, i: nat, j: nat)
    requires Starts(lines, starts, pos) && i < j < |lines|
    ensures starts[i] + |lines[i]| < starts[j]
    decreases j
  {
    if i < j - 1 {
      StartsGrow(lines, starts, pos, i, j - 1);
    }
  }

  /** The last line changes none of the lines before. */
  lemma LinesKept(m: seq<byte>, r: seq<byte>, lines: seq<seq<byte>>, starts: seq<nat>, pos: nat)
    requires |lines| > 1 && Starts(lines, starts, pos)
    requires Stand(m, lines[..|lines| - 1], starts[..|lines| - 1])
    requires
      var last := |lines| - 1;
      r == m[..starts[last]] + lines[last] + m[starts[last] + |lines[last]|..]
    ensures Stand(r, lines, starts)
  {
    var last := |lines| - 1;
    forall i | 0 <= i < last
      ensures r[starts[i]..starts[i] + |lines[i]|] == lines[i]
    {
      StartsGrow(lines, starts, pos, i, last);
      assert m[starts[..last][i]..starts[..last][i] + |lines[..last][i]|] == lines[..last][i];
      assert r[starts[i]..starts[i] + |lines[i]|] == m[starts[i]..starts[i] + |lines[i]|];
    }
  }

  lemma OutsideFront(c: nat, lines: seq<seq<byte>>, starts: seq<nat>)
    requires |starts| == |lines| > 0 && Outside(c, lines, starts)
    ensures Outside(c, lines[..|lines| - 1], starts[..|lines| - 1])
  {
    var front, before := lines[..|lines| - 1], starts[..|lines| - 1];
    forall i | 0 <= i < |front|
      ensures !(before[i] <= c < before[i] + |front[i]|)
    {
      assert !(starts[i] <= c < starts[i] + |lines[i]|);
    }
  }

  lemma StartsFront(lines: seq<seq<byte>>, starts: seq<nat>, pos: nat)
    requires Starts(lines, starts, pos) && |lines| > 1
    ensures Starts(lines[..|lines| - 1], starts[..|lines| - 1], pos)
  {
  }

  lemma OutsideLast(c: nat, lines: seq<seq<byte>>, starts: seq<nat>)
    requires |starts| == |lines| > 0 && Outside(c, lines, starts)
    ensures !(starts[|lines| - 1] <= c < starts[|lines| - 1] + |lines[|lines| - 1]|)
  {
  }

  /** While the rows suffice every line stands where it starts, and no other cell changes. */
  lemma {:induction false} LinesAppear(v: View, lines: seq<seq<byte>>, starts: seq<nat>)
    requires v.Valid() && lines != [] && Starts(lines, starts, v.pos)
    ensures
      var r, last := PutAll(v, TextOf(lines)), |lines| - 1;
      && r.pos == starts[last] + |lines[last]|
      && Stand(r.cells, lines, starts)
      && forall c :: 0 <= c < 2000 && Outside(c, lines, starts) ==> r.cells[c] == v.cells[c]
  {
    hide PutAll, Put;
    var last := |lines| - 1;
    if last == 0 {
      TextAppears(v, lines[0]);
    } else {
      hide Stand, Outside;
      var front, before := lines[..last], starts[..last];
      StartsFront(lines, starts, v.pos);
      LinesAppear(v, front, before);
      var m := PutAll(v, TextOf(front));
      assert TextOf(lines) == TextOf(front) + ([0x0A] + lines[last]);
      PutAllSplit(v, TextOf(front), [0x0A] + lines[last]);
      NextLineAppears(m, lines[last], starts[last]);
      var r := PutAll(v, TextOf(lines));
      LinesKept(m.cells, r.cells, lines, starts, v.pos);
      forall c | 0 <= c < 2000 && Outside(c, lines, starts)
        ensures r.cells[c] == v.cells[c]
      {
        OutsideFront(c, lines, starts);
        OutsideLast(c, lines, starts);
      }
    }
  }

  // ---- the hardware ----

  class Screen {
    var cursorLow: byte
    var cursorHigh: byte
    const cells: array<byte>

    ghost predicate Shape() {
      cells.Length == 2000
    }

    ghost function Cursor(): nat
      reads this
    {
      cursorHigh as int * 0x100 + cursorLow
    }

    ghost predicate Valid()
      reads this
    {
      Shape() && Cursor() < 2000
    }

    ghost function ViewOf(): (v: View)
      requires Valid()
      reads this, cells
      ensures v.Valid()
    {
      View(cells[..], Cursor())
    }

    constructor ()
      ensures Valid() && fresh(cells) && ViewOf() == View(Zeros(2000), 0)
    {
      cursorLow, cursorHigh := 0, 0;
      cells := new byte[2000](_ => 0);
    }

    /** framebuffer_set_cursor */
    method SetCursor(r: byte, c: byte)
      modifies this
      ensures Cursor() == r as int * 80 + c
      ensures cursorLow == (r as int * 80 + c) % 0x100 && cursorHigh == (r as int * 80 + c) / 0x100
    {
      var curPos: half := r as int * BUFFER_WIDTH + c;
      cursorLow := curPos % 0x100;
      cursorHigh := curPos / 0x100 % 0x100;
    }

    /** framebuffer_get_cursor */
    method GetCursor() returns (pos: half)
      ensures pos == Cursor()
    {
      pos := cursorLow as int + cursorHigh as int * 0x100;
    }

    method GetRow() returns (row: byte)
      ensures row == Cursor() / 80 % 0x100
    {
      var pos := GetCursor();
      row := pos / BUFFER_WIDTH % 0x100;
    }

    method GetCol() returns (col: byte)
      ensures col == Cursor() % 80
    {
      var pos := GetCursor();
      col := pos % BUFFER_WIDTH;
    }

    /** framebuffer_write, without the colour byte: it does not check its bounds. */
    method WriteAt(row: byte, col: byte, c: byte)
      requires Shape() && row as int * 80 + col < 2000
      modifies cells
      ensures cells[..] == old(cells[..])[row as int * 80 + col := c]
    {
      cells[row as int * 80 + col] := c;
    }

    /** framebuffer_write_curCursor never leaves the screen. */
    method WriteAtCursor(c: byte)
      requires Valid()
      modifies cells
      ensures Valid() && ViewOf() == View(old(cells[..])[Cursor() := c], Cursor())
    {
      var row := GetRow();
      var col := GetCol();
      WriteAt(row, col, c);
    }

    method MoveUp()
      requires Valid()
      modifies this
      ensures Cursor() == if old(Cursor()) >= 80 then old(Cursor()) - 80 else old(Cursor())
    {
      var row := GetRow();
      if row > 0 {
        var col := GetCol();
        assert row as int * 80 + col == Cursor() >= 80;
        SetCursor(row - 1, col);
      }
    }

    method MoveDown()
      requires Valid()
      modifies this
      ensures Cursor() == if old(Cursor()) < 1920 then old(Cursor()) + 80 else old(Cursor())
    {
      var row := GetRow();
      if row < BUFFER_HEIGHT - 1 {
        var col := GetCol();
        assert row as int * 80 + col == Cursor() < 1920;
        SetCursor(row + 1, col);
      }
    }

    method MoveMostLeft()
      requires Valid()
      modifies this
      ensures Cursor() == old(Cursor()) / 80 * 80
    {
      var row := GetRow();
      SetCursor(row, 0);
    }

    method MoveMostRight()
      requires Valid()
      modifies this
      ensures Cursor() == old(Cursor()) / 80 * 80 + 79
    {
      var row := GetRow();
      SetCursor(row, BUFFER_WIDTH - 1);
    }

    /** Left is one cell back on the linear position, and stops at the first cell. */
    method MoveLeft()
      requires Valid()
      modifies this
      ensures Valid() && Cursor() == Left(old(Cursor()))
      ensures Cursor() == if old(Cursor()) > 0 then old(Cursor()) - 1 else 0
    {
      var col := GetCol();
      var row := GetRow();
      assert row as int * 80 + col == Cursor() < 2000;
      if col > 0 {
        SetCursor(row, col - 1);
      } else if row > 0 {
        MoveMostRight();
        MoveUp();
      }
    }

    /** Right is one cell on, and stops at the last cell. */
    method MoveRight()
      requires Valid()
      modifies this
      ensures Valid() && Cursor() == Right(old(Cursor()))
      ensures Cursor() == if old(Cursor()) < 1999 then old(Cursor()) + 1 else 1999
    {
      var col := GetCol();
      var row := GetRow();
      assert row as int * 80 + col == Cursor() < 2000;
      if col < BUFFER_WIDTH - 1 {
        SetCursor(row, col + 1);
      } else if row < BUFFER_HEIGHT - 1 {
        MoveMostLeft();
        MoveDown();
      }
    }

    /** putchar */
    method PutChar(c: byte)
      requires Valid()
      modifies this, cells
      ensures Valid() && ViewOf() == Put(old(ViewOf()), c)
    {
      hide NextLine;
      NextLineBegins(Cursor());
      if c == NEWLINE {
        MoveDown();
        MoveMostLeft();
      } else {
        WriteAtCursor(c);
        MoveRight();
      }
    }

    /** puts: the length is compared as a signed number. */
    method Puts(str: array<byte>, len: word)
      requires Valid() && str != cells
      requires len < 0x8000_0000 ==> len <= str.Length
      modifies this, cells
      ensures Valid()
      ensures ViewOf() == if len < 0x8000_0000 then PutAll(old(ViewOf()), str[..len]) else old(ViewOf())
    {
      if len >= 0x8000_0000 {
        return;
      }
      for i := 0 to len
        invariant Valid() && str[..] == old(str[..])
        invariant ViewOf() == PutAll(old(ViewOf()), str[..i])
      {
        PutChar(str[i]);
        assert str[..i + 1][..i] == str[..i];
      }
    }
  }
}
