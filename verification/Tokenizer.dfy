/** The shell's tokenizer: get_word and length on a delivered line. */
module Tokenizer {
  import opened Bytes

  const NEWLINE: byte := 0x0A
  const BUFFER_SIZE := 256

  predicate IsBlank(c: byte) {
    c == 0x20 || c == 0
  }

  /** How many leading bytes are not blank. */
  function RunLength(s: seq<byte>): (n: nat)
    ensures n <= |s|
    ensures forall i :: 0 <= i < n ==> !IsBlank(s[i])
    ensures n < |s| ==> IsBlank(s[n])
  {
    if s == [] || IsBlank(s[0]) then 0 else 1 + RunLength(s[1..])
  }

  /** The words of a line: its maximal runs of non-blank bytes. */
  function Words(s: seq<byte>): (w: seq<seq<byte>>)
    decreases |s|
  {
    if s == [] then []
    else if IsBlank(s[0]) then Words(s[1..])
    else [s[..RunLength(s)]] + Words(s[RunLength(s)..])
  }

  /** All but the first n, or nothing. */
  function Drop<T>(s: seq<T>, n: nat): seq<T> {
    if n <= |s| then s[n..] else []
  }

  /** A line as the keyboard delivers it: the typed bytes, a line feed, zeros. */
  ghost predicate Delivered(buffer: seq<byte>, line: seq<byte>) {
    && |buffer| == BUFFER_SIZE && |line| < BUFFER_SIZE && NEWLINE !in line
    && buffer == line + [NEWLINE] + Zeros(255 - |line|)
  }

  /** From the q-th byte on there are the words from the n-th on, and q is where the first of them starts. */
  ghost predicate PointsAt(line: seq<byte>, n: nat, q: nat) {
    && q <= |line| && Words(line[q..]) == Drop(Words(line), n)
    && (q < |line| ==> !IsBlank(line[q]))
    && (0 < q < |line| ==> IsBlank(line[q - 1]))
  }

  lemma RunOfNothing()
    ensures RunLength([]) == 0
  {
  }

  lemma WordsBegin(s: seq<byte>)
    ensures s == [] ==> Words(s) == []
    ensures s != [] && IsBlank(s[0]) ==> Words(s) == Words(s[1..])
    ensures s != [] && !IsBlank(s[0]) ==>
              RunLength(s) > 0 && Words(s) == [s[..RunLength(s)]] + Words(s[RunLength(s)..])
  {
  }

  /** The run at that place is the n-th word; without an n-th word it is the line feed. */
  lemma AtWord(line: seq<byte>, n: nat, q: nat)
    requires PointsAt(line, n, q)
    ensures n < |Words(line)| <==> q < |line|
    ensures RunLength(line[q..]) == if n < |Words(line)| then |Words(line)[n]| else 0
    ensures n < |Words(line)| ==> line[q..q + |Words(line)[n]|] == Words(line)[n]
  {
    hide Words, RunLength, IsBlank;
    var rest := line[q..];
    WordsBegin(rest);
    RunOfNothing();
    if q < |line| {
      assert rest[0] == line[q];
      assert Words(rest)[0] == rest[..RunLength(rest)];
      assert line[q..q + RunLength(rest)] == rest[..RunLength(rest)];
    } else {
      assert rest == [];
    }
  }

  lemma WordsAhead(s: seq<byte>)
    ensures s != [] && IsBlank(s[0]) ==> Words(s) == Words(s[1..])
    ensures s != [] && !IsBlank(s[0]) ==> RunLength(s) > 0 && |Words(s)| == 1 + |Words(s[RunLength(s)..])|
  {
  }

  lemma {:induction false} RunContinues(s: seq<byte>, i: nat)
    requires i < RunLength(s)
    ensures !IsBlank(s[i]) && RunLength(s[i..]) == RunLength(s) - i
    ensures s[i..][RunLength(s[i..])..] == s[RunLength(s)..]
    decreases i
  {
    if i == 0 {
      assert s[0..] == s;
    } else {
      RunContinues(s[1..], i - 1);
      assert s[1..][i - 1..] == s[i..];
    }
  }

  /** Leaving out leading bytes never makes more words. */
  lemma {:induction false} FewerWords(s: seq<byte>, i: nat)
    requires i <= |s|
    ensures |Words(s[i..])| <= |Words(s)|
    decreases |s|
  {
    hide Words, RunLength, IsBlank;
    WordsAhead(s);
    if i == 0 {
      assert s[0..] == s;
    } else if IsBlank(s[0]) {
      FewerWords(s[1..], i - 1);
      assert s[1..][i - 1..] == s[i..];
    } else if i < RunLength(s) {
      RunContinues(s, i);
      WordsAhead(s[i..]);
    } else {
      FewerWords(s[RunLength(s)..], i - RunLength(s));
      assert s[RunLength(s)..][i - RunLength(s)..] == s[i..];
    }
  }

  lemma LaterPlace(line: seq<byte>, q: nat, q': nat)
    requires q < q' <= |line| && !IsBlank(line[q]) && (q' < |line| ==> IsBlank(line[q' - 1]))
    ensures |Words(line[q'..])| < |Words(line[q..])|
  {
    hide Words, RunLength, IsBlank;
    var rest := line[q..];
    var n := RunLength(rest);
    WordsAhead(rest);
    assert q' < |line| ==> rest[q' - 1 - q] == line[q' - 1];
    FewerWords(rest[n..], q' - q - n);
    assert rest[n..][q' - q - n..] == line[q'..];
  }

  /** There is only one such place, even if the line holds the same word several times. */
  lemma {:induction false} OnlyOnePlace(line: seq<byte>, n: nat, q: nat, q': nat)
    requires PointsAt(line, n, q) && PointsAt(line, n, q')
    ensures q == q'
  {
    if q < q' {
      LaterPlace(line, q, q');
    } else if q' < q {
      LaterPlace(line, q', q);
    }
  }

  lemma RunStops(a: seq<byte>, blank: byte, b: seq<byte>)
    requires blank == 0x20 || blank == 0
    ensures RunLength(a + [blank] + b) == RunLength(a)
  {
    if a != [] && !IsBlank(a[0]) {
      RunStops(a[1..], blank, b);
      assert (a + [blank] + b)[1..] == a[1..] + [blank] + b;
    }
  }

  lemma BlankIs(blank: byte)
    requires blank == 0x20 || blank == 0
    ensures IsBlank(blank)
  {
  }

  lemma SplitBehind(a: seq<byte>, blank: byte, b: seq<byte>, n: nat)
    requires n <= |a|
    ensures (a + [blank] + b)[n..] == a[n..] + [blank] + b && (a + [blank] + b)[..n] == a[..n]
  {
  }

  /** A space or a zero byte separates words, and nothing else does: a run without either is one word. */
  lemma {:induction false} BlankSeparates(a: seq<byte>, blank: byte, b: seq<byte>)
    requires blank == 0x20 || blank == 0
    ensures Words(a + [blank] + b) == Words(a) + Words(b)
    decreases |a|
  {
    hide Words, RunLength, IsBlank;
    WordsBegin(a);
    WordsBegin(a + [blank] + b);
    RunStops(a, blank, b);
    BlankIs(blank);
    if a == [] {
      assert (a + [blank] + b)[1..] == b;
    } else if IsBlank(a[0]) {
      BlankSeparates(a[1..], blank, b);
      assert (a + [blank] + b)[1..] == a[1..] + [blank] + b;
    } else {
      var n := RunLength(a);
      BlankSeparates(a[n..], blank, b);
      SplitBehind(a, blank, b, n);
    }
  }

  lemma {:induction false} WholeRun(s: seq<byte>)
    requires 0x20 !in s && 0 !in s
    ensures RunLength(s) == |s|
  {
    if s != [] {
      WholeRun(s[1..]);
    }
  }

  lemma OneWord(s: seq<byte>)
    requires s != [] && 0x20 !in s && 0 !in s
    ensures Words(s) == [s]
  {
    WholeRun(s);
    assert s[0] in s && s[..|s|] == s && Words(s[|s|..]) == [];
  }

  /** The first inner loop of get_word. */
  method SkipBlanks(buf: array<byte>, start: nat, ghost line: seq<byte>) returns (temp: nat)
    requires Delivered(buf[..], line) && start <= |line|
    ensures start <= temp <= |line| && (temp < |line| ==> !IsBlank(line[temp]))
    ensures temp > start ==> IsBlank(line[temp - 1])
    ensures Words(line[temp..]) == Words(line[start..])
  {
    temp := start;
    while IsBlank(buf[temp])
      invariant start <= temp <= |line|
      invariant temp > start ==> IsBlank(line[temp - 1])
      invariant Words(line[temp..]) == Words(line[start..])
      decreases |line| - temp
    {
      assert line[temp..][1..] == line[temp + 1..];
      temp := temp + 1;
    }
  }

  /** The second inner loop of get_word. */
  method SkipWord(buf: array<byte>, start: nat, ghost line: seq<byte>) returns (temp: nat)
    requires Delivered(buf[..], line) && start <= |line| && (start < |line| ==> !IsBlank(line[start]))
    ensures start <= temp <= |line| && (temp < |line| ==> IsBlank(line[temp]))
    ensures Words(line[temp..]) == Drop(Words(line[start..]), 1)
  {
    temp := start;
    ghost var rest := line[start..];
    while buf[temp] != NEWLINE && !IsBlank(buf[temp])
      invariant start <= temp <= start + RunLength(rest)
      decreases |line| - temp
    {
      temp := temp + 1;
    }
    assert temp == start + RunLength(rest);
    assert line[temp..] == rest[RunLength(rest)..];
  }

  /** get_word on a delivered line: the start of the num-th word, or the line feed. */
  method GetWord(buf: array<byte>, num: nat, ghost line: seq<byte>) returns (temp: nat)
    requires Delivered(buf[..], line)
    ensures PointsAt(line, num, temp)
    ensures RunLength(line[temp..]) == if num < |Words(line)| then |Words(line)[num]| else 0
  {
    hide Words, RunLength, Delivered;
    temp := 0;
    var wordCount := 0;
    assert line[0..] == line;
    while true
      invariant 0 <= wordCount <= num && temp <= |line|
      invariant Words(line[temp..]) == Drop(Words(line), wordCount)
      invariant temp == 0 || temp == |line| || IsBlank(line[temp])
      decreases num - wordCount
    {
      temp := SkipBlanks(buf, temp, line);
      if wordCount == num {
        AtWord(line, num, temp);
        return;
      }
      temp := SkipWord(buf, temp, line);
      wordCount := wordCount + 1;
    }
  }

  /** length: the non-blank bytes up to the next blank or line feed. */
  method Length(buf: array<byte>, text: nat, ghost line: seq<byte>) returns (i: nat)
    requires Delivered(buf[..], line) && text <= |line|
    ensures i == RunLength(line[text..])
  {
    i := 0;
    ghost var rest := line[text..];
    var p := text;
    while buf[p] != NEWLINE && !IsBlank(buf[p])
      invariant p == text + i && i <= RunLength(rest)
      decreases |line| - p
    {
      p := p + 1;
      i := i + 1;
    }
  }

  /** Joining the words loses only blanks: every non-blank byte of the line is in a word, in order. */
  function Join(w: seq<seq<byte>>): seq<byte> {
    if w == [] then [] else w[0] + Join(w[1..])
  }

  function WithoutBlanks(s: seq<byte>): seq<byte> {
    if s == [] then [] else (if IsBlank(s[0]) then [] else [s[0]]) + WithoutBlanks(s[1..])
  }

  lemma {:induction false} RunHasNoBlanks(s: seq<byte>, n: nat)
    requires n <= RunLength(s)
    ensures WithoutBlanks(s) == s[..n] + WithoutBlanks(s[n..])
    decreases n
  {
    if n > 0 {
      RunHasNoBlanks(s[1..], n - 1);
      assert s[..n] == [s[0]] + s[1..][..n - 1];
      assert s[n..] == s[1..][n - 1..];
    }
  }

  lemma {:induction false} WordsKeepEverything(s: seq<byte>)
    ensures Join(Words(s)) == WithoutBlanks(s)
    ensures forall i :: 0 <= i < |Words(s)| ==> Words(s)[i] != [] && forall c :: c in Words(s)[i] ==> !IsBlank(c)
    decreases |s|
  {
    if s != [] {
      if IsBlank(s[0]) {
        WordsKeepEverything(s[1..]);
      } else {
        var n := RunLength(s);
        WordsKeepEverything(s[n..]);
        RunHasNoBlanks(s, n);
        assert Words(s)[1..] == Words(s[n..]);
      }
    }
  }
}
