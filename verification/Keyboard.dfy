/** The keyboard interrupt handler as a line editor, and the line it delivers. */
module Keyboard {
  import opened Bytes
  import opened StdMem
  import opened Framebuffer
  import Tokenizer

  const BACKSPACE: byte := 0x08
  const SPACE: byte := 0x20
  const KEYBOARD_BUFFER_SIZE := 256
  const CODES_00: seq<byte> :=
    [0, 0x1B, 0x31, 0x32, 0x33, 0x34, 0x35, 0x36, 0x37, 0x38, 0x39, 0x30, 0x2D, 0x3D, 0x08, 0x09]
  const CODES_10: seq<byte> :=
    [0x71, 0x77, 0x65, 0x72, 0x74, 0x79, 0x75, 0x69, 0x6F, 0x70, 0x5B, 0x5D, 0x0A, 0, 0x61, 0x73]
  const CODES_20: seq<byte> :=
    [0x64, 0x66, 0x67, 0x68, 0x6A, 0x6B, 0x6C, 0x3B, 0x27, 0x60, 0, 0x5C, 0x7A, 0x78, 0x63, 0x76]
  const CODES_30: seq<byte> :=
    [0x62, 0x6E, 0x6D, 0x2C, 0x2E, 0x2F, 0, 0x2A, 0, 0x20, 0, 0, 0, 0, 0, 0]
  const CODES_40: seq<byte> :=
    [0, 0, 0, 0, 0, 0, 0, 0, 0, 0, 0x2D, 0, 0, 0, 0x2B, 0]

  /** keyboard_scancode_1_to_ascii_map: scancode set 1, sixteen codes a row; what is not listed maps to 0. */
  const SCANCODES: seq<byte> := CODES_00 + CODES_10 + CODES_20 + CODES_30 + CODES_40

  function Ascii(scancode: byte): byte {
    if scancode < |SCANCODES| then SCANCODES[scancode] else 0
  }

  /** keyboard_state with the screen it echoes to. */
  datatype Editor = Editor(on: bool, index: byte, buffer: seq<byte>, view: View) {
    ghost predicate Valid() {
      |buffer| == 256 && view.Valid()
    }
  }

  /** One interrupt. */
  function KeyStep(e: Editor, scancode: byte): (r: Editor)
    requires e.Valid()
    ensures r.Valid()
  {
    var c, pos, cells := Ascii(scancode), e.view.pos, e.view.cells;
    if !e.on then e.(index := 0)
    else if c == 0 then e
    else if c == NEWLINE then
      Editor(false, e.index, e.buffer[e.index := NEWLINE],
             if pos / 80 < 24 then View(cells[NextLine(pos) := SPACE], NextLine(pos)) else e.view)
    else if c == BACKSPACE then
      if e.index == 0 then Editor(true, 0, e.buffer[0 := 0], View(cells[pos := SPACE], pos))
      else if pos > 0 then
        Editor(true, e.index - 1, e.buffer[e.index := 0], View(cells[pos := 0][Left(pos) := SPACE], Left(pos)))
      else e
    else
      Editor(true, (e.index as int + 1) % 0x100, e.buffer[e.index := c],
             View(cells[pos := c][Right(pos) := SPACE], Right(pos)))
  }

  function Keys(e: Editor, ks: seq<byte>): (r: Editor)
    requires e.Valid()
    ensures r.Valid()
  {
    if ks == [] then e else KeyStep(Keys(e, ks[..|ks| - 1]), ks[|ks| - 1])
  }

  // ---- what a line editor should do ----

  /** A character is appended, backspace drops the last one, unmapped keys do nothing. */
  function Edit(line: seq<byte>, c: byte): seq<byte> {
    if c == 0 || c == NEWLINE then line
    else if c == BACKSPACE then if line == [] then [] else line[..|line| - 1]
    else line + [c]
  }

  function Typed(ks: seq<byte>): seq<byte> {
    if ks == [] then [] else Edit(Typed(ks[..|ks| - 1]), Ascii(ks[|ks| - 1]))
  }

  lemma Rows(a: seq<byte>, b: seq<byte>, c: seq<byte>, d: seq<byte>, e: seq<byte>)
    requires |a| == |b| == |c| == |d| == |e| == 16
    ensures
      var s := a + b + c + d + e;
      && |s| == 80
      && (forall i :: 0 <= i < 16 ==> s[i] == a[i])
      && (forall i :: 16 <= i < 32 ==> s[i] == b[i - 16])
      && (forall i :: 32 <= i < 48 ==> s[i] == c[i - 32])
      && (forall i :: 48 <= i < 64 ==> s[i] == d[i - 48])
      && (forall i :: 64 <= i < 80 ==> s[i] == e[i - 64])
  {
  }

  /** A row of the map. */
  lemma CodesOfRow(scancode: byte)
    ensures scancode < 0x10 ==> Ascii(scancode) == CODES_00[scancode]
    ensures 0x10 <= scancode < 0x20 ==> Ascii(scancode) == CODES_10[scancode - 0x10]
    ensures 0x20 <= scancode < 0x30 ==> Ascii(scancode) == CODES_20[scancode - 0x20]
    ensures 0x30 <= scancode < 0x40 ==> Ascii(scancode) == CODES_30[scancode - 0x30]
    ensures 0x40 <= scancode < 0x50 ==> Ascii(scancode) == CODES_40[scancode - 0x40]
    ensures scancode >= 0x50 ==> Ascii(scancode) == 0
  {
    Rows(CODES_00, CODES_10, CODES_20, CODES_30, CODES_40);
  }

  /** The rows of the map in characters. */
  lemma CodesInCharacters()
    ensures CODES_00 ==
            [0, 0x1b, '1' as int, '2' as int, '3' as int, '4' as int, '5' as int, '6' as int, '7' as int,
             '8' as int, '9' as int, '0' as int, '-' as int, '=' as int, 8, 9]
    ensures CODES_10 ==
            ['q' as int, 'w' as int, 'e' as int, 'r' as int, 't' as int, 'y' as int, 'u' as int, 'i' as int,
             'o' as int, 'p' as int, '[' as int, ']' as int, 0xa, 0, 'a' as int, 's' as int]
    ensures CODES_20 ==
            ['d' as int, 'f' as int, 'g' as int, 'h' as int, 'j' as int, 'k' as int, 'l' as int, ';' as int,
             '\'' as int, '`' as int, 0, '\\' as int, 'z' as int, 'x' as int, 'c' as int, 'v' as int]
    ensures CODES_30 ==
            ['b' as int, 'n' as int, 'm' as int, ',' as int, '.' as int, '/' as int, 0, '*' as int, 0,
             ' ' as int, 0, 0, 0, 0, 0, 0]
    ensures CODES_40 ==
            [0, 0, 0, 0, 0, 0, 0, 0, 0, 0, '-' as int, 0, 0, 0, '+' as int, 0]
  {
  }

  /** The keys "l", "s", Enter, backspace and space. */
  lemma SomeKeys()
    ensures Ascii(0x26) == 'l' as int && Ascii(0x1F) == 's' as int
    ensures Ascii(0x1C) == 0x0A && Ascii(0x0E) == 0x08 && Ascii(0x39) == 0x20
  {
    CodesOfRow(0x26);
    CodesOfRow(0x1F);
    CodesOfRow(0x1C);
    CodesOfRow(0x0E);
    CodesOfRow(0x39);
  }

  /** What a line editor promises for each kind of key. */
  lemma TypedLaws(ks: seq<byte>, k: byte, back: byte)
    requires Ascii(back) == 0x08
    ensures Typed([]) == []
    ensures Ascii(k) != 0 && Ascii(k) != 0x08 && Ascii(k) != 0x0A ==>
              Typed(ks + [k]) == Typed(ks) + [Ascii(k)] && Typed(ks + [k] + [back]) == Typed(ks)
    ensures Ascii(k) == 0 ==> Typed(ks + [k]) == Typed(ks)
    ensures Typed(ks) == [] ==> Typed(ks + [back]) == []
  {
    hide Ascii;
    assert (ks + [k])[..|ks|] == ks && (ks + [back])[..|ks|] == ks;
    assert (ks + [k] + [back])[..|ks| + 1] == ks + [k];
  }

  /** No Enter yet, and at no moment more than 255 characters. */
  ghost predicate OneLine(ks: seq<byte>) {
    && (forall i :: 0 <= i < |ks| ==> Ascii(ks[i]) != NEWLINE)
    && (forall i :: 0 <= i <= |ks| ==> |Typed(ks[..i])| <= 255)
  }

  /**
    * The line lies before the index. The slot at the index may still hold the
    * character dropped last; every later slot is zero. The cursor is at least
    * as far from the screen's start as the index.
    */
  ghost predicate Editing(e: Editor, line: seq<byte>) {
    && e.Valid() && e.on && |line| <= 255 && e.index == |line| && e.view.pos >= |line|
    && e.buffer[..|line|] == line
    && (forall j :: |line| < j < 256 ==> e.buffer[j] == 0)
    && NEWLINE !in line && 0 !in line
  }

  lemma EditingStep(e: Editor, line: seq<byte>, k: byte)
    requires Editing(e, line) && Ascii(k) != NEWLINE && |Edit(line, Ascii(k))| <= 255
    ensures Editing(KeyStep(e, k), Edit(line, Ascii(k)))
  {
  }

  lemma {:induction false} EditorRefinesLine(e: Editor, ks: seq<byte>)
    requires Editing(e, []) && OneLine(ks)
    ensures Editing(Keys(e, ks), Typed(ks))
  {
    if ks != [] {
      var front := ks[..|ks| - 1];
      assert forall i :: 0 <= i <= |front| ==> ks[..i] == front[..i];
      EditorRefinesLine(e, front);
      assert ks[..|ks|] == ks;
      EditingStep(Keys(e, front), Typed(front), ks[|ks| - 1]);
    }
  }

  /**
    * Wherever on the screen a line begins and whatever was typed since, the guard
    * on the cursor never blocks the deletion of a pending character.
    */
  lemma {:induction false} BackspaceIsNeverBlocked(e: Editor, ks: seq<byte>, k: byte)
    requires Editing(e, []) && OneLine(ks) && Typed(ks) != [] && Ascii(k) == BACKSPACE
    ensures Keys(e, ks).view.pos > 0
    ensures Editing(Keys(e, ks + [k]), Typed(ks)[..|Typed(ks)| - 1])
  {
    EditorRefinesLine(e, ks);
    assert (ks + [k])[..|ks|] == ks;
    EditingStep(Keys(e, ks), Typed(ks), k);
  }

  /** Keys after Enter change nothing in the buffer. */
  lemma {:induction false} StrayKeys(e: Editor, ks: seq<byte>)
    requires e.Valid() && !e.on
    ensures !Keys(e, ks).on && Keys(e, ks).buffer == e.buffer && Keys(e, ks).view == e.view
  {
    if ks != [] {
      StrayKeys(e, ks[..|ks| - 1]);
    }
  }

  lemma {:induction false} KeysSplit(e: Editor, a: seq<byte>, b: seq<byte>)
    requires e.Valid()
    ensures Keys(e, a + b) == Keys(Keys(e, a), b)
  {
    hide KeyStep;
    if b == [] {
      assert a + b == a;
    } else {
      KeysSplit(e, a, b[..|b| - 1]);
      assert (a + b)[..|a + b| - 1] == a + b[..|b| - 1];
    }
  }

  /**
    * For every key sequence whose line never exceeds 255 characters, the buffer
    * after Enter is the edited line, a line feed, and zeros: what the tokenizer expects.
    */
  lemma LineIsDelivered(e: Editor, ks: seq<byte>, enter: byte, stray: seq<byte>)
    requires Editing(e, []) && OneLine(ks) && Ascii(enter) == NEWLINE
    ensures !Keys(e, ks + [enter] + stray).on
    ensures Tokenizer.Delivered(Keys(e, ks + [enter] + stray).buffer, Typed(ks))
  {
    EditorRefinesLine(e, ks);
    KeysSplit(e, ks + [enter], stray);
    var before := Keys(e, ks);
    var after := KeyStep(before, enter);
    assert (ks + [enter])[..|ks|] == ks;
    assert Keys(e, ks + [enter]) == after;
    StrayKeys(after, stray);
    var line := Typed(ks);
    assert after.buffer == line + [NEWLINE] + Zeros(255 - |line|);
  }

  // ---- a session ----

  /** One line of a session: keys before input is switched on, the screen then, the line, Enter, keys after it. */
  datatype LineInput = LineInput(idle: seq<byte>, screen: View, keys: seq<byte>, enter: byte, stray: seq<byte>)
  {
    ghost predicate Valid() {
      screen.Valid() && OneLine(keys) && Ascii(enter) == NEWLINE
    }
  }

  /** Input is off, and the buffer was fetched. */
  ghost predicate Waiting(e: Editor) {
    e.Valid() && !e.on && e.index == 0 && e.buffer == Zeros(256)
  }

  /** keyboard_state_activate */
  function Activated(e: Editor): Editor {
    e.(on := true)
  }

  /** What get_keyboard_buffer leaves. */
  function Fetched(e: Editor): Editor {
    e.(index := 0, buffer := Zeros(256))
  }

  /** The editor when the line is fetched; others may write to the screen before input is switched on. */
  function AfterLine(e: Editor, input: LineInput): (r: Editor)
    requires e.Valid() && input.screen.Valid()
    ensures r.Valid()
  {
    Keys(Activated(Keys(e, input.idle).(view := input.screen)), input.keys + [input.enter] + input.stray)
  }

  /** The buffers handed over, line by line. */
  ghost function Session(e: Editor, inputs: seq<LineInput>): (buffers: seq<seq<byte>>)
    requires e.Valid() && forall i :: 0 <= i < |inputs| ==> inputs[i].Valid()
    ensures |buffers| == |inputs|
    decreases |inputs|
  {
    if inputs == [] then []
    else
      assert inputs[0].Valid();
      var after := AfterLine(e, inputs[0]);
      [after.buffer] + Session(Fetched(after), inputs[1..])
  }

  lemma {:induction false} IdleKeys(e: Editor, ks: seq<byte>)
    requires Waiting(e)
    ensures Keys(e, ks) == e
  {
    if ks != [] {
      IdleKeys(e, ks[..|ks| - 1]);
    }
  }

  lemma LineOfSession(e: Editor, input: LineInput)
    requires Waiting(e) && input.Valid()
    ensures Tokenizer.Delivered(AfterLine(e, input).buffer, Typed(input.keys))
    ensures Waiting(Fetched(AfterLine(e, input)))
  {
    hide OneLine, Ascii, Typed;
    IdleKeys(e, input.idle);
    var start := Activated(e.(view := input.screen));
    LineIsDelivered(start, input.keys, input.enter, input.stray);
  }

  /**
    * Over any number of lines every buffer handed over is the line as edited, a
    * line feed and zeros: no line leaves anything behind for the next.
    */
  lemma {:induction false} SessionDelivers(e: Editor, inputs: seq<LineInput>)
    requires Waiting(e) && forall i :: 0 <= i < |inputs| ==> inputs[i].Valid()
    ensures forall i :: 0 <= i < |inputs| ==> Tokenizer.Delivered(Session(e, inputs)[i], Typed(inputs[i].keys))
    decreases |inputs|
  {
    hide AfterLine, OneLine, Ascii, Typed;
    if inputs != [] {
      LineOfSession(e, inputs[0]);
      SessionDelivers(Fetched(AfterLine(e, inputs[0])), inputs[1..]);
    }
  }

  /** With a 256th character the 8-bit index wraps, and Enter then replaces the first character. */
  lemma FullLineWraps(e: Editor, line: seq<byte>, k: byte, enter: byte)
    requires Editing(e, line) && |line| == 255 && |Edit(line, Ascii(k))| == 256 && Ascii(enter) == NEWLINE
    ensures KeyStep(e, k).index == 0
    ensures KeyStep(KeyStep(e, k), enter).buffer == [NEWLINE] + line[1..] + [Ascii(k)]
  {
    var r := KeyStep(KeyStep(e, k), enter).buffer;
    assert r == e.buffer[255 := Ascii(k)][0 := NEWLINE];
  }

  // ---- the echo ----

  /** The line as typed stands on the screen from cell p on, with the cursor behind it. */
  ghost predicate Echoed(e: Editor, line: seq<byte>, p: nat) {
    e.Valid() && p + |line| < 2000 && e.view.pos == p + |line| && e.view.cells[p..p + |line|] == line
  }

  lemma AppendedCells(cells: seq<byte>, line: seq<byte>, p: nat, c: byte)
    requires p + |line| + 1 < |cells| && cells[p..p + |line|] == line
    ensures cells[p + |line| := c][p + |line| + 1 := SPACE][p..p + |line| + 1] == line + [c]
  {
    var after := cells[p + |line| := c][p + |line| + 1 := SPACE];
    assert after[p..p + |line|] == cells[p..p + |line|];
  }

  lemma ErasedCells(cells: seq<byte>, line: seq<byte>, p: nat)
    requires line != [] && p + |line| < |cells| && cells[p..p + |line|] == line
    ensures cells[p + |line| := 0][p + |line| - 1 := SPACE][p..p + |line| - 1] == line[..|line| - 1]
  {
    var after := cells[p + |line| := 0][p + |line| - 1 := SPACE];
    forall i | 0 <= i < |line| - 1
      ensures after[p + i] == line[i]
    {
      assert cells[p..p + |line|][i] == cells[p + i];
    }
  }

  lemma EchoStep(e: Editor, line: seq<byte>, k: byte, p: nat)
    requires Editing(e, line) && Echoed(e, line, p)
    requires Ascii(k) != NEWLINE && |Edit(line, Ascii(k))| <= 255 && p + |Edit(line, Ascii(k))| < 2000
    ensures Echoed(KeyStep(e, k), Edit(line, Ascii(k)), p)
  {
    hide Ascii;
    var c := Ascii(k);
    if c != 0 && c != BACKSPACE {
      AppendedCells(e.view.cells, line, p, c);
    } else if c == BACKSPACE && line != [] {
      ErasedCells(e.view.cells, line, p);
    }
  }

  /** While the line never runs into the last cell, the echo follows it. */
  lemma {:induction false} EchoFollowsLine(e: Editor, ks: seq<byte>, p: nat)
    requires Editing(e, []) && e.view.pos == p && OneLine(ks)
    requires forall i :: 0 <= i <= |ks| ==> p + |Typed(ks[..i])| < 2000
    ensures Echoed(Keys(e, ks), Typed(ks), p)
  {
    if ks != [] {
      var front := ks[..|ks| - 1];
      assert forall i :: 0 <= i <= |front| ==> ks[..i] == front[..i];
      assert ks[..|ks|] == ks;
      EchoFollowsLine(e, front, p);
      EditorRefinesLine(e, front);
      EchoStep(Keys(e, front), Typed(front), ks[|ks| - 1], p);
    }
  }

  /** The longest the line has been. */
  function Reach(ks: seq<byte>): (n: nat)
    ensures |Typed(ks)| <= n
  {
    if ks == [] then 0
    else if |Typed(ks)| > Reach(ks[..|ks| - 1]) then |Typed(ks)| else Reach(ks[..|ks| - 1])
  }

  /** Some key of the map was struck. */
  function Struck(ks: seq<byte>): bool {
    ks != [] && (Struck(ks[..|ks| - 1]) || Ascii(ks[|ks| - 1]) != 0)
  }

  /** The screen as above, for any line typed so far. */
  ghost predicate OnScreen(v: View, line: seq<byte>, p: nat, start: seq<byte>, reach: nat, struck: bool) {
    && v.Valid() && |start| == 2000 && |line| <= reach && p + reach < 2000 && v.pos == p + |line|
    && (!struck ==> v.cells == start && line == [] && reach == 0)
    && (struck ==> forall c :: 0 <= c < 2000 ==>
          v.cells[c] == if p <= c < p + |line| then line[c - p]
                        else if c == p + |line| then 0x20
                        else if p + |line| < c <= p + reach then 0
                        else start[c])
  }

  lemma KeyOnScreen(e: Editor, line: seq<byte>, k: byte, p: nat, start: seq<byte>, reach: nat, struck: bool)
    requires Editing(e, line) && OnScreen(e.view, line, p, start, reach, struck)
    requires Ascii(k) != NEWLINE && p + |Edit(line, Ascii(k))| < 2000
    ensures
      var line' := Edit(line, Ascii(k));
      OnScreen(KeyStep(e, k).view, line', p, start, if |line'| > reach then |line'| else reach, struck || Ascii(k) != 0)
  {
    hide Ascii;
  }

  lemma {:induction false} KeysOnScreen(e: Editor, ks: seq<byte>, p: nat)
    requires Editing(e, []) && e.view.pos == p && OneLine(ks) && p + Reach(ks) < 2000
    ensures OnScreen(Keys(e, ks).view, Typed(ks), p, e.view.cells, Reach(ks), Struck(ks))
  {
    if ks != [] {
      var front, k := ks[..|ks| - 1], ks[|ks| - 1];
      assert forall i :: 0 <= i <= |front| ==> ks[..i] == front[..i];
      assert ks[..|ks|] == ks;
      assert Ascii(k) != NEWLINE;
      hide KeyStep, Ascii, OnScreen, Edit;
      KeysOnScreen(e, front, p);
      EditorRefinesLine(e, front);
      KeyOnScreen(Keys(e, front), Typed(front), k, p, e.view.cells, Reach(front), Struck(front));
    }
  }

  /**
    * The whole screen while a line is typed from cell p on: the line, a space
    * under the cursor, zeros as far as the line once reached, and all else as before.
    */
  lemma {:induction false} ScreenWhileTyping(e: Editor, ks: seq<byte>, p: nat)
    requires Editing(e, []) && e.view.pos == p && OneLine(ks) && p + Reach(ks) < 2000
    ensures
      var r, line := Keys(e, ks).view, Typed(ks);
      && r.pos == p + |line|
      && (!Struck(ks) ==> r.cells == e.view.cells)
      && (Struck(ks) ==> forall c :: 0 <= c < 2000 ==>
            r.cells[c] == if p <= c < p + |line| then line[c - p]
                          else if c == p + |line| then 0x20
                          else if p + |line| < c <= p + Reach(ks) then 0
                          else e.view.cells[c])
  {
    hide KeyStep, Ascii, Typed, OneLine, Keys;
    KeysOnScreen(e, ks, p);
  }

  /** What else the buffer holds while a line is typed: the character dropped last, until another key is struck. */
  function Leftover(ks: seq<byte>): byte {
    if ks == [] then 0
    else
      var front, c := ks[..|ks| - 1], Ascii(ks[|ks| - 1]);
      if c == 0 then Leftover(front)
      else if c == BACKSPACE && Typed(front) != [] then Typed(front)[|Typed(front)| - 1]
      else 0
  }

  lemma SlotAfterKey(e: Editor, line: seq<byte>, k: byte)
    requires Editing(e, line) && Ascii(k) != NEWLINE && |Edit(line, Ascii(k))| <= 255
    ensures
      KeyStep(e, k).buffer[|Edit(line, Ascii(k))|] ==
      if Ascii(k) == 0 then e.buffer[|line|]
      else if Ascii(k) == BACKSPACE && line != [] then line[|line| - 1]
      else 0
  {
    hide Ascii;
  }

  lemma {:induction false} SlotWhileTyping(e: Editor, ks: seq<byte>)
    requires Editing(e, []) && e.buffer == Zeros(256) && OneLine(ks)
    ensures |Typed(ks)| <= 255 && Keys(e, ks).buffer[|Typed(ks)|] == Leftover(ks)
  {
    EditorRefinesLine(e, ks);
    if ks != [] {
      var front, k := ks[..|ks| - 1], ks[|ks| - 1];
      assert forall i :: 0 <= i <= |front| ==> ks[..i] == front[..i];
      assert Ascii(k) != NEWLINE;
      SlotWhileTyping(e, front);
      EditorRefinesLine(e, front);
      hide KeyStep, Ascii, Edit;
      SlotAfterKey(Keys(e, front), Typed(front), k);
    }
  }

  lemma {:induction false} BufferWhileTyping(e: Editor, ks: seq<byte>)
    requires Editing(e, []) && e.buffer == Zeros(256) && OneLine(ks)
    ensures |Typed(ks)| <= 255
    ensures Keys(e, ks).buffer == Typed(ks) + [Leftover(ks)] + Zeros(255 - |Typed(ks)|)
  {
    hide Keys, Typed, Leftover, Ascii, OneLine;
    EditorRefinesLine(e, ks);
    SlotWhileTyping(e, ks);
  }

  // ---- Enter on the screen ----

  /**
    * Enter puts a space at the start of the next row and leaves the cursor there;
    * on the last row it changes nothing on the screen.
    */
  lemma EnterOnScreen(e: Editor, enter: byte)
    requires e.Valid() && e.on && Ascii(enter) == 0x0A
    ensures
      var v, r := e.view, KeyStep(e, enter).view;
      && !KeyStep(e, enter).on
      && (v.pos < 1920 ==> r.pos % 80 == 0 && v.pos < r.pos <= v.pos + 80 && r.cells == v.cells[r.pos := 0x20])
      && (v.pos >= 1920 ==> r == v)
  {
    hide Ascii;
  }

  lemma KeysOneMore(e: Editor, ks: seq<byte>, k: byte)
    requires e.Valid()
    ensures Keys(e, ks + [k]) == KeyStep(Keys(e, ks), k)
  {
    assert (ks + [k])[..|ks|] == ks;
  }

  /**
    * After Enter the line still stands, and what is printed next stands in a row
    * of its own below it.
    */
  lemma {:induction false} NextOutputHasItsOwnRow(e: Editor, ks: seq<byte>, enter: byte, stray: seq<byte>, p: nat,
                                                  text: seq<byte>)
    requires Editing(e, []) && e.view.pos == p && OneLine(ks) && Ascii(enter) == NEWLINE
    requires (forall i :: 0 <= i <= |ks| ==> p + |Typed(ks[..i])| < 2000) && p + |Typed(ks)| < 1920
    requires NEWLINE !in text && p + |Typed(ks)| + 80 + |text| < 2000
    ensures
      var line, v := Typed(ks), Keys(e, ks + [enter] + stray).view;
      var r := PutAll(v, text);
      && v.pos % 80 == 0 && p + |line| < v.pos <= p + |line| + 80
      && r.cells[p..p + |line|] == line && v.cells[p..p + |line|] == line
      && r.cells[v.pos..v.pos + |text|] == text && r.pos == v.pos + |text|
  {
    hide Ascii, KeyStep, PutAll, Typed, OneLine;
    EchoFollowsLine(e, ks, p);
    EditorRefinesLine(e, ks);
    KeysSplit(e, ks + [enter], stray);
    KeysOneMore(e, ks, enter);
    var before := Keys(e, ks);
    EnterOnScreen(before, enter);
    StrayKeys(KeyStep(before, enter), stray);
    var line, v := Typed(ks), Keys(e, ks + [enter] + stray).view;
    assert v.cells[p..p + |line|] == before.view.cells[p..p + |line|];
    TextAppears(v, text);
    assert PutAll(v, text).cells[p..p + |line|] == v.cells[p..p + |line|];
  }

  // ---- the driver ----

  class KeyboardDriver {
    const screen: Screen
    const buffer: array<byte>
    var inputOn: bool
    var index: byte

    ghost predicate Valid()
      reads this, screen
    {
      buffer.Length == 256 && screen.Valid() && buffer != screen.cells
    }

    ghost function State(): Editor
      requires Valid()
      reads this, screen, buffer, screen.cells
    {
      Editor(inputOn, index, buffer[..], screen.ViewOf())
    }

    constructor (s: Screen)
      requires s.Valid()
      ensures Valid() && screen == s && fresh(buffer)
      ensures State() == Editor(false, 0, Zeros(256), s.ViewOf())
    {
      screen := s;
      inputOn, index := false, 0;
      buffer := new byte[256](_ => 0);
    }

    /** keyboard_state_activate: a buffer that was fetched before is ready for a new line. */
    method Activate()
      requires Valid()
      modifies this`inputOn
      ensures Valid() && State() == old(State()).(on := true)
      ensures old(index) == 0 && old(buffer[..]) == Zeros(256) ==> Editing(State(), [])
    {
      inputOn := true;
    }

    method Deactivate()
      requires Valid()
      modifies this`inputOn
      ensures Valid() && State() == old(State()).(on := false)
    {
      inputOn := false;
    }

    /** get_keyboard_buffer */
    method GetBuffer(buf: array<byte>)
      requires Valid() && buf.Length >= 256 && buf != buffer && buf != screen.cells
      modifies this`index, buffer, buf
      ensures Valid() && buf[..] == Patch(old(buf[..]), 0, old(buffer[..]))
      ensures State() == old(State()).(index := 0, buffer := Zeros(256))
    {
      MemCpy(buf, 0, buffer, 0, KEYBOARD_BUFFER_SIZE);
      assert old(buffer[0..256]) == old(buffer[..]);
      index := 0;
      MemSet(buffer, 0, 0, KEYBOARD_BUFFER_SIZE);
      assert buffer[..] == Zeros(256);
    }

    /** The Enter branch. */
    method FinishLine()
      requires Valid() && inputOn
      modifies this, screen, buffer, screen.cells
      ensures Valid()
      ensures forall k :: Ascii(k) == NEWLINE ==> State() == KeyStep(old(State()), k)
    {
      hide Ascii, NextLine;
      buffer[index] := NEWLINE;
      Deactivate();
      var row := screen.GetRow();
      NextLineBegins(screen.Cursor());
      if row < BUFFER_HEIGHT - 1 {
        ghost var pos := screen.Cursor();
        screen.MoveDown();
        screen.MoveMostLeft();
        assert screen.Cursor() == NextLine(pos);
        screen.WriteAtCursor(SPACE);
      }
    }

    /** The branch for every other mapped character; the index is eight bits wide. */
    method Append(c: byte)
      requires Valid() && inputOn && c != 0 && c != NEWLINE && c != BACKSPACE
      modifies this`index, screen, buffer, screen.cells
      ensures Valid()
      ensures forall k :: Ascii(k) == c ==> State() == KeyStep(old(State()), k)
    {
      hide Ascii;
      buffer[index] := c;
      index := (index as int + 1) % 0x100;
      screen.WriteAtCursor(c);
      screen.MoveRight();
      screen.WriteAtCursor(SPACE);
    }

    /** The backspace branch: the slot at the index is cleared, not the one before it. */
    method EraseLast()
      requires Valid() && inputOn
      modifies this`index, screen, buffer, screen.cells
      ensures Valid()
      ensures forall k :: Ascii(k) == BACKSPACE ==> State() == KeyStep(old(State()), k)
    {
      hide Ascii;
      var row := screen.GetRow();
      var col := screen.GetCol();
      if index == 0 {
        buffer[index] := 0;
        screen.WriteAtCursor(SPACE);
      } else if row > 0 || col > 0 {
        buffer[index] := 0;
        index := index - 1;
        screen.WriteAtCursor(0);
        screen.MoveLeft();
        screen.WriteAtCursor(SPACE);
      }
    }

    /** keyboard_isr; the scancode is what the data port holds. */
    method Isr(scancode: byte)
      requires Valid()
      modifies this, screen, buffer, screen.cells
      ensures Valid() && State() == KeyStep(old(State()), scancode)
      ensures !old(inputOn) ==>
                !inputOn && index == 0 && buffer[..] == old(buffer[..]) && screen.ViewOf() == old(screen.ViewOf())
    {
      hide Ascii;
      if !inputOn {
        index := 0;
        return;
      }
      var mapped := Ascii(scancode);
      if mapped == NEWLINE {
        FinishLine();
      } else if mapped == BACKSPACE {
        EraseLast();
      } else if mapped != 0 {
        Append(mapped);
      }
    }
  }
}
