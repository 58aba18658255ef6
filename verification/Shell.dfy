/** The console at work: the shell's prompt, the line it reads by system call, and the words it takes from it. */
module Shell {
  import opened Bytes
  import opened StdMem
  import opened DiskImage
  import opened Framebuffer
  import opened Keyboard
  import opened Tokenizer

  /** One turn of the shell: keys before input is switched on, the prompt, the line, Enter, keys after it. */
  datatype Turn = Turn(idle: seq<byte>, prompt: seq<byte>, keys: seq<byte>, enter: byte, stray: seq<byte>)
  {
    ghost predicate Valid() {
      |prompt| < 0x8000_0000 && OneLine(keys) && Ascii(enter) == Framebuffer.NEWLINE
    }

    /** All keys that arrive while the system call waits. */
    function Pressed(): seq<byte> {
      keys + [enter] + stray
    }
  }

  /** The turn as a line of a session, from the editor it starts in. */
  function InputOf(e: Editor, t: Turn): (input: LineInput)
    requires e.Valid()
    ensures input.screen.Valid()
  {
    LineInput(t.idle, PutAll(Keys(e, t.idle).view, t.prompt), t.keys, t.enter, t.stray)
  }

  /** What the shell takes from a line; it refuses a line of more than three words. */
  datatype Command = Command(name: seq<byte>, argument1: seq<byte>, argument2: seq<byte>, accepted: bool)

  function WordAt(w: seq<seq<byte>>, n: nat): seq<byte> {
    if n < |w| then w[n] else []
  }

  ghost predicate IsCommandOf(c: Command, line: seq<byte>) {
    var w := Words(line);
    c == Command(WordAt(w, 0), WordAt(w, 1), WordAt(w, 2), |w| <= 3)
  }

  /** The keyboard interrupts for these keys. */
  method Press(kb: KeyboardDriver, ks: seq<byte>)
    requires kb.Valid()
    modifies kb, kb.screen, kb.buffer, kb.screen.cells
    ensures kb.Valid() && kb.State() == Keys(old(kb.State()), ks)
  {
    hide KeyStep;
    for i := 0 to |ks|
      invariant kb.Valid() && kb.State() == Keys(old(kb.State()), ks[..i])
    {
      assert ks[..i + 1][..i] == ks[..i];
      kb.Isr(ks[i]);
    }
    assert ks[..|ks|] == ks;
  }

  /** System call 5: text for the screen. */
  method Print(kb: KeyboardDriver, text: seq<byte>)
    requires kb.Valid() && |text| < 0x8000_0000
    modifies kb.screen, kb.screen.cells
    ensures kb.Valid()
    ensures kb.State() == old(kb.State()).(view := PutAll(old(kb.State()).view, text))
  {
    var str := ToArray(text);
    kb.screen.Puts(str, |text|);
    assert str[..|text|] == text;
  }

  /** System call 4: switch input on, wait for Enter, and hand the line over. */
  method ReadLine(kb: KeyboardDriver, target: array<byte>, t: Turn)
    requires kb.Valid() && t.Valid() && Waiting(kb.State())
    requires target.Length == 256 && target != kb.buffer && target != kb.screen.cells
    modifies kb, kb.screen, kb.buffer, kb.screen.cells, target
    ensures kb.Valid() && Waiting(kb.State())
    ensures kb.State() == Fetched(Keys(Activated(old(kb.State())), t.Pressed()))
    ensures target[..] == Keys(Activated(old(kb.State())), t.Pressed()).buffer
    ensures Delivered(target[..], Typed(t.keys))
  {
    hide Ascii, KeyStep, OneLine, Typed, Keys;
    kb.Activate();
    LineIsDelivered(kb.State(), t.keys, t.enter, t.stray);
    Press(kb, t.Pressed());
    kb.Deactivate();
    var buf := ToArray(Zeros(256));
    kb.GetBuffer(buf);
    MemCpy(target, 0, buf, 0, 256);
    assert buf[0..256] == buf[..];
  }

  /** get_word and length: the n-th word of the line in the buffer. */
  method TakeWord(buf: array<byte>, n: nat, ghost line: seq<byte>) returns (word: seq<byte>)
    requires Delivered(buf[..], line)
    ensures word == WordAt(Words(line), n)
    ensures n < |Words(line)| ==> word == Words(line)[n]
    ensures n >= |Words(line)| ==> word == []
  {
    hide Words, RunLength;
    var start := GetWord(buf, n, line);
    var length := Length(buf, start, line);
    AtWord(line, n, start);
    word := buf[start..start + length];
    assert buf[..][..|line|] == line;
  }

  /** The words the shell takes, and its test that a fourth one is missing. */
  method TakeCommand(buf: array<byte>, ghost line: seq<byte>) returns (c: Command)
    requires Delivered(buf[..], line)
    ensures IsCommandOf(c, line)
    ensures
      var w := Words(line);
      && (|w| > 0 ==> c.name == w[0]) && (|w| == 0 ==> c.name == [])
      && (|w| > 1 ==> c.argument1 == w[1]) && (|w| <= 1 ==> c.argument1 == [])
      && (|w| > 2 ==> c.argument2 == w[2]) && (|w| <= 2 ==> c.argument2 == [])
      && (c.accepted <==> |w| <= 3)
  {
    hide Words, RunLength;
    var name := TakeWord(buf, 0, line);
    var argument1 := TakeWord(buf, 1, line);
    var argument2 := TakeWord(buf, 2, line);
    var fourth := GetWord(buf, 3, line);
    AtWord(line, 3, fourth);
    assert fourth < |line| ==> buf[fourth] == line[fourth] && line[fourth] in line;
    c := Command(name, argument1, argument2, buf[fourth] == Tokenizer.NEWLINE);
  }

  /** One turn: the prompt appears, a line is read, and its words are taken. */
  method TakeTurn(kb: KeyboardDriver, keyboardBuf: array<byte>, t: Turn) returns (c: Command)
    requires kb.Valid() && t.Valid() && Waiting(kb.State())
    requires keyboardBuf.Length == 256 && keyboardBuf != kb.buffer && keyboardBuf != kb.screen.cells
    modifies kb, kb.screen, kb.buffer, kb.screen.cells, keyboardBuf
    ensures kb.Valid() && Waiting(kb.State())
    ensures kb.State() == Fetched(AfterLine(old(kb.State()), InputOf(old(kb.State()), t)))
    ensures kb.State().view ==
            Keys(old(kb.State()).(on := true, view := PutAll(old(kb.State()).view, t.prompt)),
                 t.keys + [t.enter] + t.stray).view
    ensures IsCommandOf(c, Typed(t.keys))
  {
    hide OneLine, Ascii, Typed, Keys, PutAll, IsCommandOf, Delivered;
    MemSet(keyboardBuf, 0, 0, 256);
    Press(kb, t.idle);
    IdleKeys(old(kb.State()), t.idle);
    Print(kb, t.prompt);
    ReadLine(kb, keyboardBuf, t);
    c := TakeCommand(keyboardBuf, Typed(t.keys));
  }

  /** Any number of turns: each takes the words of its own line as edited. */
  method RunShell(kb: KeyboardDriver, keyboardBuf: array<byte>, turns: seq<Turn>) returns (commands: seq<Command>)
    requires kb.Valid() && Waiting(kb.State()) && forall i :: 0 <= i < |turns| ==> turns[i].Valid()
    requires keyboardBuf.Length == 256 && keyboardBuf != kb.buffer && keyboardBuf != kb.screen.cells
    modifies kb, kb.screen, kb.buffer, kb.screen.cells, keyboardBuf
    ensures kb.Valid() && Waiting(kb.State())
    ensures |commands| == |turns|
    ensures forall i :: 0 <= i < |turns| ==> IsCommandOf(commands[i], Typed(turns[i].keys))
  {
    hide OneLine, Ascii, Typed, IsCommandOf, AfterLine;
    commands := [];
    for i := 0 to |turns|
      invariant kb.Valid() && Waiting(kb.State()) && |commands| == i
      invariant forall j :: 0 <= j < i ==> IsCommandOf(commands[j], Typed(turns[j].keys))
    {
      var c := TakeTurn(kb, keyboardBuf, turns[i]);
      commands := commands + [c];
    }
  }
}
