/** get_dir_path: the text of a directory's path, found by following back-links. */
module PathPrinter {
  import opened Bytes
  import opened Layout
  import opened StdMem
  import opened DiskImage
  import opened Volume
  import opened FatDriver

  const SLASH: byte := 0x2F
  /** "root" */
  const ROOT_TEXT: seq<byte> := [0x72, 0x6F, 0x6F, 0x74]

  /** The non-zero bytes, in order. */
  function Squeeze(s: seq<byte>): (r: seq<byte>)
    ensures |r| <= |s|
  {
    if s == [] then []
    else Squeeze(s[..|s| - 1]) + if s[|s| - 1] == 0 then [] else [s[|s| - 1]]
  }

  lemma SqueezeNone(s: seq<byte>)
    ensures Squeeze(s[..0]) == []
  {
  }

  lemma SqueezeAppend(s: seq<byte>, b: byte)
    ensures Squeeze(s + [b]) == Squeeze(s) + if b == 0 then [] else [b]
  {
    assert (s + [b])[..|s|] == s;
  }

  /** The non-zero bytes of two strings are those of the one and then of the other. */
  lemma {:induction false} SqueezeSplit(a: seq<byte>, b: seq<byte>)
    ensures Squeeze(a + b) == Squeeze(a) + Squeeze(b)
  {
    if b == [] {
      assert a + b == a;
    } else {
      SqueezeSplit(a, b[..|b| - 1]);
      assert (a + b)[..|a + b| - 1] == a + b[..|b| - 1];
    }
  }

  lemma {:induction false} SqueezeKeepsNonZero(s: seq<byte>)
    ensures 0 !in Squeeze(s)
    ensures 0 !in s ==> Squeeze(s) == s
    ensures (forall i :: 0 <= i < |s| ==> s[i] == 0) ==> Squeeze(s) == []
  {
    if s != [] {
      SqueezeKeepsNonZero(s[..|s| - 1]);
      assert s == s[..|s| - 1] + [s[|s| - 1]];
    }
  }

  // ---- what the path should be ----

  /** "root", then "/" and a name for each directory on the way down. names[0] is the directory itself. */
  function PathOf(names: seq<Name>): seq<byte> {
    if names == [] then ROOT_TEXT
    else PathOf(names[1..]) + [SLASH] + Squeeze(names[0])
  }

  /** The names from directory d up to, but without, the root. */
  ghost function Ancestors(img: Image, s: Store, d: word): (names: seq<Name>)
    requires Inv(img, s) && d in s.depth
    ensures |names| == s.depth[d]
    decreases s.depth[d]
  {
    HeaderOfDirectory(img, s, d);
    if d == ROOT_CLUSTER then []
    else [s.owner[d].name] + Ancestors(img, s, s.owner[d].parent)
  }

  // ---- what the loops print ----

  /** The byte behind the i-th name in the scratch buffer. */
  function Ninth(names: seq<Name>, i: nat): byte {
    if i + 1 < |names| then names[i + 1][0] else 0
  }

  /** The buffer up to k after the names from the top down to the i-th were printed. */
  function Printed(names: seq<Name>, i: nat): (text: seq<byte>)
    requires i <= |names|
    ensures |text| >= 5
    decreases |names| - i
  {
    if i == |names| then ROOT_TEXT + [SLASH]
    else
      var t := Printed(names, i + 1) + Squeeze(names[i] + [Ninth(names, i)]);
      (if i != |names| - 1 then t[..|t| - 1] else t) + [SLASH]
  }

  /** The final text: the last "/" becomes the terminator. */
  function PathText(names: seq<Name>): seq<byte> {
    var t := Printed(names, 0);
    t[..|t| - 1]
  }

  /** Names above the printed ones that start with a zero byte: each costs one character. */
  function Lost(names: seq<Name>, i: nat): nat
    decreases |names| - i
  {
    if i + 1 >= |names| then 0
    else (if names[i + 1][0] == 0 then 1 else 0) + Lost(names, i + 1)
  }

  lemma {:induction false} PrintedLength(names: seq<Name>, i: nat)
    requires i <= |names|
    ensures |Printed(names, i)| + Lost(names, i) == |PathOf(names[i..])| + 1
    decreases |names| - i
  {
    if i < |names| {
      PrintedLength(names, i + 1);
      assert names[i..][1..] == names[i + 1..];
      SqueezeAppend(names[i], Ninth(names, i));
    }
  }

  lemma {:induction false} PrintedExactly(names: seq<Name>, i: nat)
    requires i <= |names| && Lost(names, i) == 0
    ensures Printed(names, i) == PathOf(names[i..]) + [SLASH]
    decreases |names| - i
  {
    if i < |names| {
      PrintedExactly(names, i + 1);
      assert names[i..][1..] == names[i + 1..];
      SqueezeAppend(names[i], Ninth(names, i));
    }
  }

  lemma {:induction false} NothingLostIff(names: seq<Name>, i: nat)
    ensures Lost(names, i) == 0 <==> forall t :: i < t < |names| ==> names[t][0] != 0
    decreases |names| - i
  {
    if i + 1 < |names| {
      NothingLostIff(names, i + 1);
    }
  }

  /** The printed path is right exactly when no directory above the given one has a name starting with a zero byte. */
  lemma {:induction false} PathIsRightIff(names: seq<Name>)
    ensures PathText(names) == PathOf(names) <==> forall t :: 0 < t < |names| ==> names[t][0] != 0
  {
    assert names[0..] == names;
    PrintedLength(names, 0);
    NothingLostIff(names, 0);
    if Lost(names, 0) == 0 {
      PrintedExactly(names, 0);
    }
  }

  /** A zero byte and "b" */
  const ZERO_B: Name := [0, 0x62, 0, 0, 0, 0, 0, 0]

  /** With such a name between the root and the given directory, the printed path is one character short. */
  lemma ZeroByteLosesCharacter(name: Name)
    ensures |PathText([name, ZERO_B])| == |PathOf([name, ZERO_B])| - 1
  {
    PrintedLength([name, ZERO_B], 0);
    assert [name, ZERO_B][0..] == [name, ZERO_B];
    assert Lost([name, ZERO_B], 0) == 1;
  }

  lemma OneLetter(c: byte)
    requires c != 0
    ensures Squeeze([c, 0, 0, 0, 0, 0, 0, 0]) == [c]
  {
    SqueezeSplit([c], [0, 0, 0, 0, 0, 0, 0]);
    SqueezeKeepsNonZero([c]);
    SqueezeKeepsNonZero([0, 0, 0, 0, 0, 0, 0]);
    assert [c] + [0, 0, 0, 0, 0, 0, 0] == [c, 0, 0, 0, 0, 0, 0, 0];
  }

  /** The path of "b" in "a", byte by byte. */
  lemma PathOfTwo()
    ensures
      var a: Name, b: Name := ['a' as int, 0, 0, 0, 0, 0, 0, 0], ['b' as int, 0, 0, 0, 0, 0, 0, 0];
      PathText([b, a]) ==
      ['r' as int, 'o' as int, 'o' as int, 't' as int, '/' as int, 'a' as int, '/' as int, 'b' as int]
  {
    var a: Name, b: Name := ['a' as int, 0, 0, 0, 0, 0, 0, 0], ['b' as int, 0, 0, 0, 0, 0, 0, 0];
    PathIsRightIff([b, a]);
    OneLetter('a' as int);
    OneLetter('b' as int);
    hide Squeeze, PathText;
    assert [b, a][1..] == [a] && [a][1..] == [];
    assert PathOf([]) == ROOT_TEXT;
    assert PathOf([a]) == ROOT_TEXT + [SLASH] + ['a' as int];
  }

  // ---- the loops ----

  /** The scratch buffer: the names, eight bytes each, then zeros. */
  ghost predicate Holds(path: seq<byte>, names: seq<Name>) {
    && |path| == 256 && |names| <= 32
    && (forall i :: 0 <= i < |names| ==> path[8 * i..8 * i + 8] == names[i])
    && (forall c :: 8 * |names| <= c < 256 ==> path[c] == 0)
  }

  lemma HoldsMore(path: seq<byte>, names: seq<Name>, name: Name)
    requires Holds(path, names) && |names| < 32
    ensures Holds(Patch(path, 8 * |names|, name), names + [name])
  {
    var path', n := Patch(path, 8 * |names|, name), |names|;
    forall i | 0 <= i < n
      ensures path'[8 * i..8 * i + 8] == names[i]
    {
      assert path'[8 * i..8 * i + 8] == path[8 * i..8 * i + 8];
    }
    assert path'[8 * n..8 * n + 8] == name;
  }

  lemma NineBytes(path: seq<byte>, names: seq<Name>, i: nat)
    requires Holds(path, names) && i < |names| <= 31
    ensures path[8 * i..8 * i + 9] == names[i] + [Ninth(names, i)]
  {
    assert path[8 * i..8 * i + 9] == path[8 * i..8 * i + 8] + [path[8 * i + 8]];
    if i + 1 < |names| {
      assert path[8 * (i + 1)..8 * (i + 1) + 8][0] == path[8 * (i + 1)];
    }
  }

  /** Copies the non-zero bytes of the nine from 8 * i on. */
  method CopyName(buffer: array<byte>, start: nat, path: array<byte>, i: nat, ghost names: seq<Name>) returns (k: nat)
    requires buffer != path && start + 9 <= buffer.Length
    requires Holds(path[..], names) && i < |names| <= 31
    modifies buffer
    ensures k == start + |Squeeze(names[i] + [Ninth(names, i)])|
    ensures buffer[..k] == old(buffer[..start]) + Squeeze(names[i] + [Ninth(names, i)])
  {
    hide Squeeze;
    ghost var nine := path[8 * i..8 * i + 9];
    NineBytes(path[..], names, i);
    SqueezeNone(nine);
    k := start;
    for j := 0 to 9
      invariant k == start + |Squeeze(nine[..j])|
      invariant buffer[..k] == old(buffer[..start]) + Squeeze(nine[..j])
    {
      var b := path[i * 8 + j];
      assert b == nine[j] && nine[..j + 1] == nine[..j] + [nine[j]];
      SqueezeAppend(nine[..j], nine[j]);
      if b != 0 {
        buffer[k] := b;
        k := k + 1;
      }
    }
    assert nine[..9] == nine;
  }

  lemma TextStart(names: seq<Name>)
    ensures Printed(names, |names|) == ROOT_TEXT + [SLASH]
  {
  }

  lemma TextStep(names: seq<Name>, i: nat)
    requires i < |names|
    ensures
      var t := Printed(names, i + 1) + Squeeze(names[i] + [Ninth(names, i)]);
      && |Squeeze(names[i] + [Ninth(names, i)])| <= 8 + (if i != |names| - 1 then 1 else 0)
      && Printed(names, i) == (if i != |names| - 1 then t[..|t| - 1] else t) + [SLASH]
  {
    SqueezeAppend(names[i], Ninth(names, i));
  }

  /** The printing loop, from the top directory down. */
  method PrintNames(buffer: array<byte>, path: array<byte>, depth: nat, ghost names: seq<Name>)
    requires buffer != path && Holds(path[..], names) && |names| == depth <= 31
    requires 5 + 9 * depth <= buffer.Length && buffer[..5] == ROOT_TEXT + [SLASH]
    modifies buffer
    ensures |PathText(names)| < buffer.Length
    ensures buffer[..|PathText(names)|] == PathText(names) && buffer[|PathText(names)|] == 0
  {
    hide Printed, Squeeze, Holds;
    TextStart(names);
    var k := 5;
    for i := depth downto 0
      invariant k == |Printed(names, i)| <= 5 + 9 * (depth - i)
      invariant buffer[..k] == Printed(names, i)
      invariant path[..] == old(path[..])
    {
      TextStep(names, i);
      k := CopyName(buffer, k, path, i, names);
      if i != depth - 1 {
        k := k - 1;
      }
      buffer[k] := SLASH;
      k := k + 1;
    }
    k := k - 1;
    buffer[k] := 0;
  }

  /** One step of the walk: the directory's name goes to the scratch buffer, and the walk to its parent. */
  method CollectName(driver: Driver, path: array<byte>, depth: nat, d: word) returns (parent: word)
    requires driver.Shape() && d < 2048 && path != driver.disk.image && 8 * depth + 8 <= path.Length
    modifies path
    ensures path[..] == Patch(old(path[..]), 8 * depth, TableOf(driver.Clusters(), d)[0].name)
    ensures parent == TableOf(driver.Clusters(), d)[0].ClusterNumber()
  {
    hide TableOf, Slices;
    var directory := driver.ReadTable(d);
    var name := ToArray(directory[0].name);
    MemMove(path, 8 * depth, name, 0, 8);
    assert name[0..8] == name[..];
    parent := directory[0].ClusterNumber();
  }

  lemma EmptyScratch()
    ensures Holds(Zeros(256), [])
  {
  }

  /** get_dir_path: at most 31 directories fit the scratch buffer. */
  method GetDirPath(driver: Driver, buffer: array<byte>, d: word)
    requires driver.Valid() && d in driver.store.depth && driver.store.depth[d] <= 31
    requires buffer != driver.disk.image && 5 + 9 * driver.store.depth[d] <= buffer.Length
    modifies buffer
    ensures
      var text := PathText(Ancestors(driver.Clusters(), driver.store, d));
      |text| < buffer.Length && buffer[..|text|] == text && buffer[|text|] == 0
  {
    hide Inv, Slices, TableOf, Holds;
    ghost var img, s, names := driver.Clusters(), driver.store, Ancestors(driver.Clusters(), driver.store, d);
    var path := ToArray(Zeros(256));
    EmptyScratch();
    var depth := 0;
    var text := ToArray(ROOT_TEXT + [SLASH]);
    MemCpy(buffer, 0, text, 0, 5);
    var cluster := d;
    while cluster != ROOT_CLUSTER
      invariant driver.Valid() && driver.Clusters() == img && driver.store == s
      invariant fresh(path) && path.Length == 256
      invariant cluster in s.depth && depth + s.depth[cluster] == |names|
      invariant names[depth..] == Ancestors(img, s, cluster)
      invariant Holds(path[..], names[..depth])
      invariant buffer[..5] == ROOT_TEXT + [SLASH]
      decreases s.depth[cluster]
    {
      HeaderOfDirectory(img, s, cluster);
      HoldsMore(path[..], names[..depth], s.owner[cluster].name);
      assert names[..depth + 1] == names[..depth] + [names[depth..][0]];
      assert names[depth + 1..] == names[depth..][1..];
      cluster := CollectName(driver, path, depth, cluster);
      depth := depth + 1;
    }
    assert names[..depth] == names;
    PrintNames(buffer, path, depth, names);
  }
}
