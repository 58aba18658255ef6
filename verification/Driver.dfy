/** The driver: the cached file allocation table and directory table over the disk image. */
module FatDriver {
  import opened Bytes
  import opened Layout
  import opened StdMem
  import opened DiskImage
  import opened Allocation
  import opened IndexFile
  import opened Volume
  import opened WriteEffects
  import opened WriteInvariant
  import opened DeleteEffects
  import opened DiskBytes
  import opened FileStore
  import opened Creation
  import opened Uniqueness

  /** get_empty_cluster's failure value: -1 as a 32-bit number. */
  const NO_CLUSTER: word := 0xFFFF_FFFF

  // ---- what a lookup meets ----

  /** The back-link and name in slot 0 of a live directory. */
  lemma HeaderOfDirectory(img: Image, s: Store, d: word)
    requires Inv(img, s) && d in s.depth
    ensures d < 512
    ensures IsParent(s, d, TableOf(img, d)[0].ClusterNumber())
    ensures d != ROOT_CLUSTER ==> TableOf(img, d)[0].name == s.owner[d].name
  {
    hide TableOf, SIGNATURE, Entries, Chains, Partition;
    if d != ROOT_CLUSTER {
      DirectoryItem(img, s, d);
      assert HeaderOf(TableOf(img, d)[0], s.owner[d]);
    }
  }

  lemma NotLive(img: Image, s: Store, d: word)
    requires Inv(img, s) && d < 2048 && TableOf(img, d)[0].attribute != ATTR_SUBDIRECTORY
    ensures d !in s.depth
  {
  }

  /** The entry a lookup of a live key finds. */
  lemma LiveEntry(img: Image, s: Store, k: Key)
    requires Inv(img, s) && k in s.items && Findable(img, s, k)
    ensures k.parent < 512
    ensures
      var t, it := TableOf(img, k.parent), s.items[k];
      var i := Lookup(t, k.name, k.ext, 1);
      && i < 64 && it.chain != [] && it.chain[0] < 512
      && (t[i].attribute == ATTR_SUBDIRECTORY <==> it.isDir)
      && t[i].ClusterNumber() == it.chain[0]
      && (it.isDir ==> it.chain == [it.chain[0]])
  {
    LookupFinds(img, s, k);
    hide TableOf, SIGNATURE, Headers, Lookup;
    assert EntryOf(TableOf(img, k.parent)[s.items[k].slot], k, s.items[k]);
    assert IsChain(FatOf(img), s.items[k].chain);
    assert s.items[k].isDir ==> DirItem(s, k, s.items[k]);
  }

  /** What a lookup tells about the simple store. */
  lemma LookupLive(img: Image, s: Store, k: Key)
    requires Inv(img, s) && k.parent < 2048 && k.parent in s.depth
    ensures ChainsInMap(s)
    ensures
      var t := TableOf(img, k.parent);
      var i := Lookup(t, k.name, k.ext, 1);
      && (Findable(img, s, k) ==> (i < 64 <==> k in s.items))
      && (Findable(img, s, k) && k in s.items ==>
            && t[i].ClusterNumber() == s.items[k].chain[0]
            && (t[i].attribute == ATTR_SUBDIRECTORY <==> s.items[k].isDir))
      && (!Findable(img, s, k) ==> i < 64 && t[i] == ZERO_ENTRY)
  {
    InvChainsInMap(img, s);
    if Findable(img, s, k) {
      LookupFinds(img, s, k);
      if k in s.items {
        LiveEntry(img, s, k);
      }
    } else {
      ZeroKeyMeetsFreeSlot(img, s, k);
    }
  }

  lemma FoundIsLive(img: Image, s: Store, k: Key)
    requires Inv(img, s) && k.parent < 2048 && DeleteCode(img, k) == D_SUCCESS
    requires k.parent in s.depth ==> Findable(img, s, k)
    requires k.parent in s.depth || TableOf(img, k.parent)[0].attribute != ATTR_SUBDIRECTORY
    ensures k.parent in s.depth && k in s.items
  {
    DeleteCodeIff(img, s, k);
  }

  /** The entry loop of read, read_directory and delete. */
  method FindEntry(t: array<DirEntry>, name: Name, ext: Ext) returns (i: nat)
    requires t.Length == 64
    ensures i == Lookup(t[..], name, ext, 1)
  {
    i := 1;
    while i < TABLE_LENGTH && !(t[i].name == name && t[i].ext == ext)
      invariant 1 <= i <= 64
      invariant Lookup(t[..], name, ext, 1) == Lookup(t[..], name, ext, i)
    {
      i := i + 1;
    }
  }

  // ---- read ----

  /** The int the size is converted to cannot be reduced by a cluster. */
  predicate SizeOverflows(size: word) {
    0x8000_0000 <= size < 0x8000_0800
  }

  /** The entry a read of k meets is not a directory's: a file, or a free slot. */
  ghost predicate MeetsFile(img: Image, s: Store, k: Key) {
    k.parent in s.depth && (Findable(img, s, k) ==> k in s.items && !s.items[k].isDir)
  }

  /** What a caller of read owes. */
  ghost predicate Readable(img: Image, s: Store, k: Key, size: word) {
    && (MeetsFile(img, s, k) ==> !SizeOverflows(size))
    && (k.parent in s.depth && !Findable(img, s, k) ==> Signed(size) < 4096)
  }

  /** The code and the buffer after a walk over the data, up to its end or not. */
  ghost predicate Copied(data: seq<byte>, ends: bool, n: int, before: seq<byte>, code: int, after: seq<byte>)
    requires n <= |before|
  {
    if ends && n >= |data| then
      code == R_SUCCESS && after == if n == |data| then Patch(before, 0, data) else Patch(before, 0, data + [0xFF])
    else
      code == R_NOT_ENOUGH_BUFFER && WholePart(n) <= |data| && after == Patch(before, 0, data[..WholePart(n)])
  }

  /** The code and the buffer after read: those of the simple store, unless a free slot is met first. */
  ghost predicate ReadResult(img: Image, s: Store, k: Key, n: int, before: seq<byte>, code: int, after: seq<byte>)
    requires n <= |before| && ChainsInMap(s)
  {
    if k.parent !in s.depth then code == R_UNKNOWN && after == before
    else if Findable(img, s, k) then
      var m := Contents(img, s);
      code == ReadCode(m, k, n) && after == ReadBytes(m, k, n, before)
    else code == R_NOT_ENOUGH_BUFFER && n < 4096 && after == Patch(before, 0, img[0][..WholePart(n)])
  }

  /**
    * The result of read, byte by byte. A file that fits is in the buffer, with one
    * 0xFF behind it exactly if there is room; of a longer one the whole clusters
    * that fit are there; all other bytes are as before, and sizes of 2^31 and more
    * are too short for any file.
    */
  lemma {:induction false} ReadMeans(img: Image, s: Store, k: Key, size: word, before: seq<byte>, code: int,
                                     after: seq<byte>)
    requires Signed(size) <= |before| && ChainsInMap(s) && k.parent in s.depth && Findable(img, s, k)
    requires ReadResult(img, s, k, Signed(size), before, code, after)
    ensures
      var m := Contents(img, s);
      && |after| == |before|
      && (code == 3 <==> k !in m) && (code == 1 <==> k in m && m[k].Directory?)
      && (code == 0 <==> k in m && m[k].File? && |m[k].data| <= size < 0x8000_0000)
      && (code == 0 || code == 1 || code == 2 || code == 3)
      && (code == 1 || code == 3 || size >= 0x8000_0000 ==> after == before)
      && (code == 0 ==>
            var data := m[k].data;
            && after[..|data|] == data
            && forall j :: |data| <= j < |before| ==> after[j] == if j == |data| < size then 0xFF else before[j])
      && (code == 2 && size < 0x8000_0000 ==>
            forall j :: 0 <= j < |before| ==>
                          after[j] == if j / 2048 < size / 2048 then m[k].data[j] else before[j])
  {
    hide Findable, ContentOf;
  }

  /** Read of a parent that is no directory, and of a key that meets a free slot first. */
  lemma ReadElsewhere(img: Image, s: Store, k: Key, size: word, before: seq<byte>, code: int, after: seq<byte>)
    requires Signed(size) <= |before| && ChainsInMap(s)
    requires ReadResult(img, s, k, Signed(size), before, code, after)
    ensures k.parent !in s.depth ==> code == -1 && after == before
    ensures k.parent in s.depth && !Findable(img, s, k) ==>
              && code == 2 && |after| == |before|
              && forall j :: 0 <= j < |before| ==>
                               after[j] == if j < 2048 <= size < 0x8000_0000 then img[0][j] else before[j]
  {
    hide Findable, ContentOf;
  }

  /** The links lead along the chain, and then to the end, or the size runs out before the next cluster. */
  ghost predicate Bounded(fat: Fat, chain: seq<word>, size: int) {
    && chain != [] && InMap(chain)
    && (forall i :: 0 <= i < |chain| - 1 ==> fat[chain[i]] == chain[i + 1])
    && (fat[chain[|chain| - 1]] == END_OF_FILE || size < 2048 * (|chain| + 1))
  }

  /** The clusters a read of k walks along. */
  ghost function WalkOf(img: Image, s: Store, k: Key): seq<word> {
    if Findable(img, s, k) && k in s.items then s.items[k].chain else [0]
  }

  lemma NothingToRead(img: Image, s: Store, k: Key, size: word, before: seq<byte>)
    requires Inv(img, s) && k.parent < 2048 && TableOf(img, k.parent)[0].attribute != ATTR_SUBDIRECTORY
    requires Signed(size) <= |before|
    ensures ChainsInMap(s) && ReadResult(img, s, k, Signed(size), before, R_UNKNOWN, before)
  {
    InvChainsInMap(img, s);
    NotLive(img, s, k.parent);
  }

  /** A walk from this entry, within bounds, for a file or from a free slot. */
  ghost predicate WalkStarts(img: Image, s: Store, k: Key, n: int, e: DirEntry) {
    var chain := WalkOf(img, s, k);
    && Bounded(FatOf(img), chain, n) && e.ClusterNumber() == chain[0]
    && (Findable(img, s, k) <==> FatOf(img)[chain[|chain| - 1]] == END_OF_FILE)
    && (if Findable(img, s, k) then k in s.items && !s.items[k].isDir else n < 4096)
  }

  lemma StartedWalk(img: Image, s: Store, k: Key, n: int, e: DirEntry)
    requires WalkStarts(img, s, k, n, e)
    ensures
      var chain := WalkOf(img, s, k);
      && chain != [] && InMap(chain) && Bounded(FatOf(img), chain, n) && e.ClusterNumber() == chain[0]
      && (Findable(img, s, k) <==> FatOf(img)[chain[|chain| - 1]] == END_OF_FILE)
  {
    hide Findable, FatOf;
  }

  /** What the walk copies is the result. */
  lemma WalkIsResult(img: Image, s: Store, k: Key, n: int, e: DirEntry, before: seq<byte>, code: int, after: seq<byte>)
    requires ChainsInMap(s) && k.parent in s.depth && n <= |before| && WalkStarts(img, s, k, n, e)
    requires Copied(ChainData(img, WalkOf(img, s, k)), Findable(img, s, k), n, before, code, after)
    ensures ReadResult(img, s, k, n, before, code, after)
  {
    hide Findable, Patch, FatOf;
    if !Findable(img, s, k) {
      assert ChainData(img, [0]) == img[0] by {
        assert ChainData(img, [0][..0]) == [];
      }
    }
  }

  lemma ChainIsBounded(fat: Fat, chain: seq<word>, size: int)
    requires IsChain(fat, chain)
    ensures Bounded(fat, chain, size) && fat[chain[|chain| - 1]] == END_OF_FILE
  {
  }

  lemma WalkIsBounded(img: Image, s: Store, k: Key, size: int)
    requires Inv(img, s) && k.parent in s.depth && (Findable(img, s, k) ==> k in s.items)
    requires Findable(img, s, k) || size < 4096
    ensures
      var chain := WalkOf(img, s, k);
      && Bounded(FatOf(img), chain, size)
      && (Findable(img, s, k) <==> FatOf(img)[chain[|chain| - 1]] == END_OF_FILE)
  {
    hide TableOf, SIGNATURE, DirsMatch, Findable, FatOf;
    if Findable(img, s, k) {
      ChainIsBounded(FatOf(img), s.items[k].chain, size);
    }
  }

  /** What ends a read before the walk, by the entry the lookup meets, or that it may start the walk. */
  lemma ReadAt(img: Image, s: Store, k: Key, size: word, before: seq<byte>)
    requires Inv(img, s) && k.parent < 2048 && k.parent in s.depth && Readable(img, s, k, size)
    requires Signed(size) <= |before|
    ensures ChainsInMap(s)
    ensures
      var t := TableOf(img, k.parent);
      var i := Lookup(t, k.name, k.ext, 1);
      if i == 64 then ReadResult(img, s, k, Signed(size), before, R_NOT_FOUND, before)
      else if t[i].attribute == ATTR_SUBDIRECTORY then ReadResult(img, s, k, Signed(size), before, R_NOT_A_FILE, before)
      else !SizeOverflows(size) && WalkStarts(img, s, k, Signed(size), t[i])
  {
    hide TableOf, FatOf, Inv, Lookup, Findable, Bounded;
    LookupLive(img, s, k);
    if MeetsFile(img, s, k) {
      WalkIsBounded(img, s, k, Signed(size));
    }
  }

  lemma NothingRead(before: seq<byte>, data: seq<byte>)
    ensures Patch(before, 0, data[..0]) == before
  {
  }

  /** One more cluster read extends the part of the file in the buffer. */
  lemma NextFragment(img: Image, chain: seq<word>, f: nat, before: seq<byte>)
    requires InMap(chain) && f < |chain| && 2048 * (f + 1) <= |before|
    ensures Patch(Patch(before, 0, ChainData(img, chain)[..2048 * f]), 2048 * f, img[chain[f]])
         == Patch(before, 0, ChainData(img, chain)[..2048 * (f + 1)])
  {
    var data := ChainData(img, chain);
    ChainDataAt(img, chain, f);
    PatchSplit(before, 0, data[..2048 * f], data[2048 * f..2048 * (f + 1)]);
    assert data[..2048 * f] + data[2048 * f..2048 * (f + 1)] == data[..2048 * (f + 1)];
  }

  lemma LastByte(before: seq<byte>, data: seq<byte>)
    requires |data| < |before|
    ensures Patch(Patch(before, 0, data), |data|, seq(1, _ => 0xFF)) == Patch(before, 0, data + [0xFF])
  {
    PatchSplit(before, 0, data, [0xFF]);
    assert seq(1, _ => 0xFF) == [0xFF];
  }

  /** What a directory's table in a buffer lists. */
  lemma ListedInBuffer(img: Image, s: Store, d: word, buf: seq<byte>)
    requires Inv(img, s) && d in s.depth && d < 2048 && 2048 <= |buf| && buf[..2048] == img[d]
    ensures forall name: Name, ext: Ext :: Key(d, name, ext) in s.items <==>
              exists i :: 1 <= i < 64 && buf[32 * i..32 * i + 11] == name + ext && buf[32 * i + 13] != 0
  {
    hide TableOf, FatOf, SIGNATURE, FatMatches, DirsMatch;
    var c := img[d];
    forall name: Name, ext: Ext
      ensures Key(d, name, ext) in s.items <==>
                exists i :: 1 <= i < 64 && buf[32 * i..32 * i + 11] == name + ext && buf[32 * i + 13] != 0
    {
      LiveInBytes(img, s, Key(d, name, ext));
      forall i | 1 <= i < 64
        ensures buf[32 * i..32 * i + 11] == c[32 * i..32 * i + 11] && buf[32 * i + 13] == c[32 * i + 13]
      {
        assert buf[..2048][32 * i..32 * i + 11] == buf[32 * i..32 * i + 11];
      }
    }
  }

  // ---- write ----

  /** The codes of write, as far as the store tells them. */
  lemma WriteCodes(img: Image, s: Store, k: Key, size: nat)
    requires Inv(img, s) && k.parent < 2048
    requires k.parent in s.depth || TableOf(img, k.parent)[0].attribute != ATTR_SUBDIRECTORY
    ensures k.parent !in s.depth ==> WriteCode(img, k, size) == 2
    ensures k.parent in s.depth ==> (WriteCode(img, k, size) == 1 <==> k in s.items)
    ensures k.parent in s.depth ==>
              WriteCode(img, k, size) == 0 || WriteCode(img, k, size) == 1 || WriteCode(img, k, size) == -1
  {
    hide TableOf, FatOf, SIGNATURE, FreeFrom, FreeSlot, FatMatches, DirsMatch, Duplicate;
    if k.parent in s.depth {
      DuplicateIffLive(img, s, k);
      LiveParent(img, s, k.parent);
    }
  }

  lemma AddedItem(s: Store, k: Key, it: Item)
    requires k.parent in s.depth && it.chain != []
    ensures k in AddItem(s, k, it).items && AddItem(s, k, it).items[k] == it
  {
  }

  lemma SucceedsInDirectory(img: Image, s: Store, k: Key, size: nat)
    requires k.parent < 2048 && WriteCode(img, k, size) == W_SUCCESS
    requires k.parent in s.depth || TableOf(img, k.parent)[0].attribute != ATTR_SUBDIRECTORY
    ensures k.parent in s.depth && FreeSlot(TableOf(img, k.parent), 1) < 64
  {
    hide TableOf, FatOf, FreeFrom, FreeSlot;
  }

  lemma FirstStep(before: Fat, img: Image, free: seq<word>, data: seq<byte>)
    requires free != [] && InMap(free) && 2048 <= |data|
    ensures Link(before, free[..1]) == before[free[0] := END_OF_FILE]
    ensures PutChain(img, free[..1], data) == img[free[0] := data[0..2048]]
  {
    LinkGrows(before, free, 1);
    assert PutChain(img, free[..1][..0], data) == img;
  }

  lemma NextStep(before: Fat, img: Image, free: seq<word>, j: nat, data: seq<byte>)
    requires 1 <= j < |free| && InMap(free) && 2048 * (j + 1) <= |data|
    ensures Link(before, free[..j + 1]) == Link(before, free[..j])[free[j] := END_OF_FILE][free[j - 1] := free[j]]
    ensures PutChain(img, free[..j + 1], data)
         == PutChain(img, free[..j], data)[free[j] := data[2048 * j..2048 * (j + 1)]]
  {
    LinkGrows(before, free, j + 1);
    assert free[..j + 1][..j] == free[..j];
  }

  /** The duplicate check of write: entries in use only. */
  method FindDuplicate(t: array<DirEntry>, name: Name, ext: Ext) returns (found: bool)
    requires t.Length == 64
    ensures found == Duplicate(t[..], name, ext)
  {
    for i := 1 to TABLE_LENGTH
      invariant forall j :: 1 <= j < i ==> !(Matches(t[j], name, ext) && t[j].undelete != 0)
    {
      var current := t[i];
      if current.ext == ext && current.name == name && current.undelete != 0 {
        assert Matches(t[..][i], name, ext);
        return true;
      }
    }
    return false;
  }

  /** The space check of write: it counts from cluster 2, and only as far as needed. */
  method CountFree(fat: array<word>, needed: nat) returns (available: nat)
    requires fat.Length == 512
    ensures available < needed <==> |FreeFrom(fat[..], 2)| < needed
    ensures available <= needed
  {
    available := 0;
    var i := 2;
    while i < CLUSTER_MAP_SIZE && available < needed
      invariant 2 <= i <= 512 && available <= needed
      invariant available + |FreeFrom(fat[..], i)| == |FreeFrom(fat[..], 2)|
    {
      if fat[i] == EMPTY_ENTRY {
        available := available + 1;
      }
      i := i + 1;
    }
  }

  /** The first slot whose undelete byte is clear, or -1. */
  method FindFreeEntry(t: array<DirEntry>) returns (entryNum: int)
    requires t.Length == 64
    ensures entryNum == if FreeSlot(t[..], 1) == 64 then -1 else FreeSlot(t[..], 1)
  {
    entryNum := -1;
    var i := 1;
    while i < TABLE_LENGTH && entryNum == -1
      invariant 1 <= i <= 64
      invariant entryNum == -1 ==> FreeSlot(t[..], 1) == FreeSlot(t[..], i)
      invariant entryNum != -1 ==> entryNum == FreeSlot(t[..], 1) < 64
    {
      if t[i].undelete == 0 {
        entryNum := i;
      }
      i := i + 1;
    }
  }

  // ---- delete ----

  /** The codes of delete. */
  lemma DeleteCodes(img: Image, s: Store, k: Key)
    requires Inv(img, s) && k.parent < 2048
    requires k.parent in s.depth || TableOf(img, k.parent)[0].attribute != ATTR_SUBDIRECTORY
    requires k.parent in s.depth ==> Findable(img, s, k)
    ensures DeleteCode(img, k) == if k.parent !in s.depth then -1 else if k in s.items then 0 else 1
  {
    hide TableOf, FatOf, SIGNATURE, FatMatches, DirsMatch, Findable, Lookup;
    if k.parent in s.depth {
      DeleteCodeIff(img, s, k);
    }
  }

  lemma ChainAfterIndex(img: Image, s: Store, k: Key, stack: Stack)
    requires Inv(img, s) && k in s.items && Count(img) <= CLUSTER_MAP_SIZE
    ensures IsChain(FatOf(DeleteIndex(img, k, stack)), s.items[k].chain)
  {
    hide TableOf, SIGNATURE, DirsMatch, DeleteIndex, FatOf;
    DeleteIndexFrame(img, k, stack);
    assert IsChain(FatOf(img), s.items[k].chain);
  }

  /** From the j-th cluster the map still leads to the next one. */
  lemma WalkStep(fat: Fat, chain: seq<word>, j: nat)
    requires IsChain(fat, chain) && j < |chain|
    ensures Unlink(fat, chain[..j])[chain[j]] == Next(chain, j)
    ensures Next(chain, j) == END_OF_FILE <==> j == |chain| - 1
  {
  }

  lemma ClearStep(fat: Fat, img: Image, chain: seq<word>, j: nat)
    requires InMap(chain) && j < |chain|
    ensures Unlink(fat, chain[..j + 1]) == Unlink(fat, chain[..j])[chain[j] := EMPTY_ENTRY]
    ensures ClearChain(img, chain[..j + 1]) == ClearChain(img, chain[..j])[chain[j] := ZERO_CLUSTER]
  {
    assert chain[..j + 1] == chain[..j] + [chain[j]];
  }

  // ---- index ----

  /** The loop of init_index_file. */
  method ReserveIndex(fat: array<word>)
    requires fat.Length == 512
    modifies fat
    ensures fat[..] == WithIndex(old(fat[..]))
  {
    fat[INDEX_CLUSTER] := 0;
    for i := 1 to INDEX_CLUSTERS
      invariant forall c :: 0 <= c < 512 ==>
                              fat[c] == if c == 3 then 0 else if 3 < c < 3 + i then END_OF_FILE else old(fat[c])
    {
      fat[INDEX_CLUSTER + i] := END_OF_FILE;
    }
  }

  lemma ParentsGrow(s: seq<Key>, n: nat, name: Name, ext: Ext)
    requires 0 < n <= |s|
    ensures |Parents(s[..n], name, ext)| <= |Parents(s, name, ext)|
    ensures s[..n][..n - 1] == s[..n - 1]
    decreases |s| - n
  {
    if n < |s| {
      ParentsGrow(s, n + 1, name, ext);
      assert s[..n + 1][..n] == s[..n];
    } else {
      assert s[..n] == s;
    }
  }

  lemma ParentsOfNone(s: seq<Key>, name: Name, ext: Ext)
    ensures Parents(s[..0], name, ext) == []
  {
  }

  lemma ParentsStep(s: seq<Key>, i: nat, name: Name, ext: Ext)
    requires i < |s|
    ensures Parents(s[..i + 1], name, ext)
         == Parents(s[..i], name, ext) + if s[i].name == name && s[i].ext == ext then [s[i].parent] else []
  {
    assert s[..i + 1][..i] == s[..i];
  }

  /** The search loop of search_index over the first n records. */
  method CollectParents(table: array<Key>, n: nat, buffer: array<word>, name: Name, ext: Ext) returns (found: nat)
    requires n <= table.Length && |Parents(table[..n], name, ext)| <= buffer.Length
    modifies buffer
    ensures found == |Parents(table[..n], name, ext)|
    ensures buffer[..found] == Parents(table[..n], name, ext)
    ensures buffer[found..] == old(buffer[..])[found..]
  {
    hide Parents;
    ghost var s := table[..n];
    ParentsOfNone(s, name, ext);
    found := 0;
    for i := 0 to n
      invariant found == |Parents(s[..i], name, ext)| <= buffer.Length
      invariant buffer[..found] == Parents(s[..i], name, ext)
      invariant buffer[found..] == old(buffer[..])[found..]
    {
      var entry := table[i];
      ParentsGrow(s, i + 1, name, ext);
      ParentsStep(s, i, name, ext);
      if entry.name == name && entry.ext == ext {
        buffer[found] := entry.parent;
        found := found + 1;
      }
    }
    assert s[..n] == s;
  }

  method CloseGap(table: array<Key>, first: nat, n: nat)
    requires table.Length == 512 && first < n <= 512
    modifies table
    ensures table[..] == ShiftDown(old(table[..]), first, n)
  {
    var i := first;
    while i < n - 1
      invariant first <= i < n
      invariant table[..] == ShiftDown(old(table[..]), first, i + 1)
    {
      table[i] := table[i + 1];
      i := i + 1;
    }
  }

  lemma FoundAt(r: Records, i: nat, n: nat, k: Key)
    requires i <= n <= 512 && k !in r[..i] && (i < n ==> r[i] == k)
    ensures i < n <==> k in r[..n]
    ensures i < n ==> Find(r[..n], k) == i
  {
    if i < n {
      assert r[..n][i] == k;
    }
  }

  /** The search and shift loops of delete_index over the first n records. */
  method RemoveFirst(table: array<Key>, n: nat, k: Key) returns (found: bool)
    requires table.Length == 512 && n <= 512
    modifies table
    ensures found == (k in old(table[..n]))
    ensures found ==> table[..] == ShiftDown(old(table[..]), Find(old(table[..n]), k), n)
    ensures !found ==> table[..] == old(table[..])
  {
    var i := 0;
    while i < n && table[i] != k
      invariant 0 <= i <= n
      invariant k !in table[..i]
    {
      i := i + 1;
    }
    FoundAt(table[..], i, n, k);
    assert table[..][..n] == table[..n] && table[..][..i] == table[..i];
    found := i < n;
    if found {
      CloseGap(table, i, n);
    }
  }

  // ---- initialisation ----

  lemma FirstBlock(before: seq<byte>, block: seq<byte>)
    requires |before| == 4 * 1024 * 1024 && |block| == 512
    ensures Slices(Patch(before, 0, block)) == Slices(before)[0 := block + Slices(before)[0][512..]]
  {
    var after := Patch(before, 0, block);
    assert after[0..2048] == block + before[0..2048][512..];
    forall c | 1 <= c < 2048
      ensures after[2048 * c..2048 * c + 2048] == before[2048 * c..2048 * c + 2048]
    {
    }
  }

  lemma NewImage(img: Image, img': Image)
    requires img' == img[1 := EncodeFat(BlankFat())][0 := SIGNATURE + img[0][512..]][2 := EncodeTable(RootTable())]
                     [1 := EncodeFat(NewFat())]
    ensures img' == CreatedImage(img)
  {
    hide EncodeFat, EncodeTable, SIGNATURE;
  }

  // ---- the driver ----

  class Driver {
    const disk: Disk
    /** driver_state.fat_table.cluster_map */
    const fat: array<word>
    /** driver_state.dir_table_buf.table */
    const dirTable: array<DirEntry>
    /** What the image means. */
    ghost var store: Store

    ghost predicate Shape() {
      disk.Valid() && fat.Length == 512 && dirTable.Length == 64
    }

    ghost function Clusters(): Image
      requires Shape()
      reads disk.image
    {
      disk.Clusters()
    }

    /** The cache holds what cluster 1 holds. */
    ghost predicate Coherent()
      requires Shape()
      reads disk.image, fat
    {
      fat[..] == FatOf(Clusters())
    }

    ghost predicate Valid()
      reads this, disk.image, fat
    {
      Shape() && Coherent() && Inv(Clusters(), store)
    }

    /** The simple store the driver implements. */
    ghost function Files(): map<Key, Content>
      requires Valid()
      reads this, disk.image, fat
    {
      InvChainsInMap(Clusters(), store);
      Contents(Clusters(), store)
    }

    /** Globals start zeroed. */
    constructor (d: Disk)
      requires d.Valid()
      ensures Shape() && disk == d && fresh(fat) && fresh(dirTable)
      ensures fat[..] == seq(512, _ => 0) && dirTable[..] == seq(64, _ => ZERO_ENTRY)
    {
      disk := d;
      fat := new word[512](_ => 0);
      dirTable := new DirEntry[64](_ => ZERO_ENTRY);
      store := EMPTY_STORE;
    }

    // ---- clusters as packed structures ----

    method ReadCluster(c: word) returns (raw: array<byte>)
      requires Shape() && c < 2048
      ensures fresh(raw) && raw[..] == Clusters()[c]
    {
      raw := new byte[2048];
      disk.ReadClusters(raw, 0, c, 1);
      assert Joined(Clusters(), c, 1) == Joined(Clusters(), c, 0) + Clusters()[c];
    }

    method WriteCluster(data: Cluster, c: word)
      requires Shape() && c < 2048
      modifies disk.image
      ensures Clusters() == old(Clusters())[c := data]
    {
      var raw := ToArray(data);
      disk.WriteClusters(raw, 0, c, 1);
      PutOne(old(Clusters()), c, data);
      assert raw[0..2048] == data;
    }

    /** read_clusters(&driver_state.fat_table, FAT_CLUSTER_NUMBER, 1) */
    method LoadFat()
      requires Shape()
      modifies fat
      ensures Coherent()
    {
      var raw := ReadCluster(FAT_CLUSTER);
      var links := DecodeFat(raw[..]);
      forall i | 0 <= i < 512 {
        fat[i] := links[i];
      }
    }

    method StoreFat()
      requires Shape()
      modifies disk.image
      ensures Clusters() == old(Clusters())[1 := EncodeFat(fat[..])]
      ensures Coherent()
    {
      WriteCluster(EncodeFat(fat[..]), FAT_CLUSTER);
      FatRoundTrip(fat[..]);
    }

    /** read_clusters(&driver_state.dir_table_buf, c, 1) */
    method LoadTable(c: word)
      requires Shape() && c < 2048
      modifies dirTable
      ensures dirTable[..] == TableOf(Clusters(), c)
    {
      var raw := ReadCluster(c);
      var t := DecodeTable(raw[..]);
      forall i | 0 <= i < 64 {
        dirTable[i] := t[i];
      }
    }

    /** A local struct FAT32DirectoryTable, filled from a cluster. */
    method ReadTable(c: word) returns (table: array<DirEntry>)
      requires Shape() && c < 2048
      ensures fresh(table) && table[..] == TableOf(Clusters(), c)
    {
      var raw := ReadCluster(c);
      var t := DecodeTable(raw[..]);
      table := new DirEntry[64](i requires 0 <= i < 64 => t[i]);
    }

    method StoreTable(c: word)
      requires Shape() && c < 2048
      modifies disk.image
      ensures Clusters() == old(Clusters())[c := EncodeTable(dirTable[..])]
    {
      WriteCluster(EncodeTable(dirTable[..]), c);
    }

    /** A local struct IndexTable, filled from the three index clusters. */
    method ReadIndex(stack: Stack) returns (table: array<Key>)
      requires Shape()
      ensures fresh(table) && table[..] == LoadIndex(Clusters(), stack)
    {
      var raw := ToArray(Zeros(6144) + stack);
      disk.ReadClusters(raw, 0, INDEX_CLUSTER, 3);
      assert raw[..] == Joined(Clusters(), 3, 3) + stack;
      var r := DecodeIndex(raw[..]);
      table := new Key[512](i requires 0 <= i < 512 => r[i]);
    }

    method WriteIndex(table: array<Key>)
      requires Shape() && table.Length == 512
      modifies disk.image
      ensures Clusters() == SaveIndex(old(Clusters()), table[..])
    {
      var raw := ToArray(EncodeIndex(table[..]));
      disk.WriteClusters(raw, 0, INDEX_CLUSTER, 3);
    }

    // ---- initialisation ----

    method IsEmpty() returns (empty: bool)
      requires Shape()
      ensures empty == IsEmptyStorage(Clusters())
      ensures empty <==> disk.image[..512] != SIGNATURE
    {
      var temp := new byte[512];
      disk.ReadBlocks(temp, 0, 0, 1);
      assert temp[..] == disk.image[0..512];
      assert Clusters()[0] == disk.image[..][0..2048];
      assert Clusters()[0][..512] == disk.image[0..512];
      var signature := ToArray(SIGNATURE);
      assert |SIGNATURE| == 512;
      var r := MemCmp(signature, 0, temp, 0, 512);
      assert signature[0..512] == SIGNATURE && temp[0..512] == temp[..];
      empty := r != 0;
    }

    /** create_fat32: the blank map, then the signature in the first block only. */
    method CreateFat32()
      requires Shape()
      modifies disk.image
      ensures Clusters() == old(Clusters())[1 := EncodeFat(BlankFat())][0 := SIGNATURE + old(Clusters())[0][512..]]
    {
      WriteCluster(EncodeFat(BlankFat()), FAT_CLUSTER);
      ghost var before := disk.image[..];
      var signature := ToArray(SIGNATURE);
      assert |SIGNATURE| == 512;
      disk.WriteBlocks(signature, 0, 0, 1);
      assert signature[0..512] == SIGNATURE;
      FirstBlock(before, SIGNATURE);
    }

    method InitializeRoot()
      requires Shape()
      modifies disk.image
      ensures Clusters() == old(Clusters())[2 := EncodeTable(RootTable())]
    {
      WriteCluster(EncodeTable(RootTable()), ROOT_CLUSTER);
    }

    method InitIndexFile()
      requires Shape()
      modifies disk.image, fat
      ensures Coherent()
      ensures Clusters() == old(Clusters())[1 := EncodeFat(WithIndex(FatOf(old(Clusters()))))]
    {
      LoadFat();
      ReserveIndex(fat);
      StoreFat();
    }

    /**
      * A medium without the signature becomes an empty file system; otherwise
      * the table is cached and s, what the image means, carries on.
      */
    method Initialize(ghost s: Store)
      requires Shape() && (IsEmptyStorage(Clusters()) || Inv(Clusters(), s))
      modifies this, disk.image, fat
      ensures Valid()
      ensures old(IsEmptyStorage(Clusters())) ==> Clusters() == CreatedImage(old(Clusters())) && store == EMPTY_STORE
      ensures !old(IsEmptyStorage(Clusters())) ==> Clusters() == old(Clusters()) && store == s
    {
      var empty := IsEmpty();
      if empty {
        ghost var img := Clusters();
        CreateFat32();
        FatRoundTrip(BlankFat());
        InitializeRoot();
        InitIndexFile();
        NewImage(img, Clusters());
        CreatedIsEmpty(img);
        store := EMPTY_STORE;
      } else {
        LoadFat();
        store := s;
      }
    }

    // ---- index ----

    /** insert_index */
    method InsertRecord(k: Key, stack: Stack)
      requires Shape() && Count(Clusters()) < CLUSTER_MAP_SIZE
      modifies disk.image, fat
      ensures Clusters() == InsertIndex(old(Clusters()), k, stack)
      ensures Coherent()
    {
      LoadFat();
      var table := ReadIndex(stack);
      var insertIdx := fat[INDEX_CLUSTER];
      table[insertIdx] := k;
      fat[INDEX_CLUSTER] := fat[INDEX_CLUSTER] + 1;
      WriteIndex(table);
      StoreFat();
    }

    /** search_index: the parents of the matching records, in order. */
    method SearchIndex(buffer: array<word>, name: Name, ext: Ext, stack: Stack) returns (found: nat)
      requires Valid() && buffer != fat
      requires Count(Clusters()) <= CLUSTER_MAP_SIZE
      requires |Parents(LoadIndex(Clusters(), stack)[..Count(Clusters())], name, ext)| <= buffer.Length
      modifies fat, buffer
      ensures Valid()
      ensures
        var records := LoadIndex(Clusters(), stack)[..Count(Clusters())];
        && found == |Parents(records, name, ext)|
        && buffer[..found] == Parents(records, name, ext)
        && buffer[found..] == old(buffer[..])[found..]
    {
      hide LoadIndex, Inv, Slices;
      LoadFat();
      var table := ReadIndex(stack);
      assert table[..fat[INDEX_CLUSTER]] == table[..][..fat[INDEX_CLUSTER]];
      found := CollectParents(table, fat[INDEX_CLUSTER], buffer, name, ext);
    }

    /** delete_index: the first matching record goes, the later ones move down. */
    method DeleteRecord(k: Key, stack: Stack)
      requires Shape() && Count(Clusters()) <= CLUSTER_MAP_SIZE
      modifies disk.image, fat
      ensures Clusters() == DeleteIndex(old(Clusters()), k, stack)
      ensures Coherent()
    {
      hide EncodeFat, DecodeFat, EncodeIndex, DecodeIndex, Joined, PutClusters, ShiftDown, Find, Slices;
      LoadFat();
      var table := ReadIndex(stack);
      var found := RemoveFirst(table, fat[INDEX_CLUSTER], k);
      if !found {
        return;
      }
      fat[INDEX_CLUSTER] := fat[INDEX_CLUSTER] - 1;
      WriteIndex(table);
      StoreFat();
    }

    // ---- write ----

    /** The caller's handle: a live directory, or a cluster that does not look like a directory. */
    ghost predicate Handle(p: word)
      requires Shape()
      reads this, disk.image
    {
      p < 2048 && (p in store.depth || TableOf(Clusters(), p)[0].attribute != ATTR_SUBDIRECTORY)
    }

    /** get_empty_cluster: the least free data cluster, marked as the end of a chain. */
    method GetEmptyCluster() returns (c: word)
      requires Shape()
      modifies fat
      ensures FreeFrom(old(fat[..]), FIRST_DATA_CLUSTER) == [] ==> c == NO_CLUSTER && fat[..] == old(fat[..])
      ensures FreeFrom(old(fat[..]), FIRST_DATA_CLUSTER) != [] ==>
                c == FreeFrom(old(fat[..]), FIRST_DATA_CLUSTER)[0] && fat[..] == old(fat[..])[c := END_OF_FILE]
    {
      for i := FIRST_DATA_CLUSTER to CLUSTER_MAP_SIZE
        invariant fat[..] == old(fat[..])
        invariant FreeFrom(old(fat[..]), i) == FreeFrom(old(fat[..]), FIRST_DATA_CLUSTER)
      {
        if fat[i] == EMPTY_ENTRY {
          fat[i] := END_OF_FILE;
          return i;
        }
      }
      return NO_CLUSTER;
    }

    /** write_clusters(buf + CLUSTER_SIZE * j, c, 1) */
    method WriteChunk(buf: array<byte>, j: nat, c: word)
      requires Shape() && buf != disk.image && 2048 * (j + 1) <= buf.Length && c < 2048
      modifies disk.image
      ensures Clusters() == old(Clusters())[c := buf[..][2048 * j..2048 * (j + 1)]]
    {
      disk.WriteClusters(buf, 2048 * j, c, 1);
      assert buf[2048 * j..2048 * j + 2048] == buf[..][2048 * j..2048 * (j + 1)];
      PutOne(old(Clusters()), c, buf[..][2048 * j..2048 * (j + 1)]);
    }

    /** The file branch of write: data and links, one cluster at a time. */
    method WriteFile(buf: array<byte>, first: word, needed: nat, ghost before: Fat)
      requires Shape() && buf != disk.image && 2048 * needed <= buf.Length
      requires 1 <= needed <= |FreeFrom(before, FIRST_DATA_CLUSTER)|
      requires first == FreeFrom(before, FIRST_DATA_CLUSTER)[0] && fat[..] == before[first := END_OF_FILE]
      modifies disk.image, fat
      ensures fat[..] == Link(before, FreeFrom(before, FIRST_DATA_CLUSTER)[..needed])
      ensures Clusters() == PutChain(old(Clusters()), FreeFrom(before, FIRST_DATA_CLUSTER)[..needed], buf[..])
    {
      hide FreeFrom, Slices;
      ghost var free, img := FreeFrom(before, FIRST_DATA_CLUSTER), Clusters();
      WriteChunk(buf, 0, first);
      FirstStep(before, img, free, buf[..]);
      var cluster := first;
      for j := 1 to needed
        invariant cluster == free[j - 1]
        invariant fat[..] == Link(before, free[..j])
        invariant Clusters() == PutChain(img, free[..j], buf[..])
      {
        LinkLeavesRest(before, j);
        var next := GetEmptyCluster();
        fat[cluster] := next;
        WriteChunk(buf, j, next);
        NextStep(before, img, free, j, buf[..]);
        cluster := next;
      }
    }

    method Stage(k: Key, buf: array<byte>, size: word, slot: nat)
      requires Shape() && Coherent() && buf != disk.image && 2048 * Needed(size) <= buf.Length
      requires k.parent < 2048 && Allocatable(Clusters(), size)
      requires dirTable[..] == TableOf(Clusters(), k.parent) && slot == FreeSlot(dirTable[..], 1) < 64
      modifies disk.image, fat, dirTable
      ensures Clusters() == StageWrite(old(Clusters()), k, buf[..], size)
    {
      hide FreeFrom, Slices, TableOf, FreeSlot, EncodeTable, EncodeFat, InitTable, PutChain, FatOf;
      ghost var img, before := Clusters(), FatOf(Clusters());
      assert |NewChain(img, size)| == Taken(size);
      var cluster := GetEmptyCluster();
      assert cluster == NewChain(img, size)[0];
      var entry := DirEntry(k.name, k.ext, 0, 0, 1, Zeros(6), cluster / 0x1_0000, Zeros(4), cluster % 0x1_0000, 0);
      dirTable[0] := dirTable[0].(userAttribute := UATTR_NOT_EMPTY);
      if size == 0 {
        dirTable[slot] := entry.(attribute := ATTR_SUBDIRECTORY);
        WriteCluster(EncodeTable(InitTable(k.name, k.parent)), cluster);
        StoreTable(k.parent);
        StoreFat();
      } else {
        dirTable[slot] := entry;
        WriteFile(buf, cluster, Needed(size), before);
        StoreTable(k.parent);
        StoreFat();
      }
    }

    /** The last part of a write that passed every check. */
    method Commit(k: Key, buf: array<byte>, size: word, slot: nat, stack: Stack)
      requires Shape() && Coherent() && buf != disk.image && 2048 * Needed(size) <= buf.Length
      requires Writable(Clusters(), store, k, size)
      requires dirTable[..] == TableOf(Clusters(), k.parent) && slot == FreeSlot(dirTable[..], 1)
      modifies disk.image, fat, dirTable
      ensures Coherent()
      ensures OrdinaryParent(old(Clusters()), k, size)
      ensures Clusters() == WriteImage(old(Clusters()), k, buf[..], size, stack)
    {
      hide FatOf, TableOf, FreeFrom, FreeSlot, StageWrite, InsertIndex, Inv, Slices, NewChain, NewItem, WriteCode,
        Allocatable, ParentTable, Link;
      ghost var img := Clusters();
      NewItemFacts(img, store, k, size);
      StageEffect(img, k, buf[..], size);
      Stage(k, buf, size, slot);
      InsertRecord(k, stack);
    }

    /** The first part of write: load the tables and check the request against them. */
    method CheckWrite(k: Key, size: word) returns (code: int, entryNum: int)
      requires Shape() && k.parent < 2048
      modifies fat, dirTable
      ensures Coherent() && dirTable[..] == TableOf(Clusters(), k.parent)
      ensures code == WriteCode(Clusters(), k, size)
      ensures code == W_SUCCESS ==> entryNum == FreeSlot(dirTable[..], 1)
    {
      hide FreeFrom, TableOf, FatOf, FreeSlot, Duplicate, Slices;
      entryNum := -1;
      LoadTable(k.parent);
      LoadFat();
      if dirTable[0].attribute != ATTR_SUBDIRECTORY {
        return W_INVALID_PARENT, entryNum;
      }
      var duplicate := FindDuplicate(dirTable, k.name, k.ext);
      if duplicate {
        return W_ALREADY_EXIST, entryNum;
      }
      var needed := Needed(size);
      var available := CountFree(fat, needed);
      if available < needed {
        return W_UNKNOWN, entryNum;
      }
      entryNum := FindFreeEntry(dirTable);
      if entryNum == -1 {
        return W_UNKNOWN, entryNum;
      }
      return W_SUCCESS, entryNum;
    }

    /** write: 0 success, 1 already exists, 2 invalid parent, -1 no space or no slot. */
    method Write(k: Key, buf: array<byte>, size: word, stack: Stack) returns (code: int)
      requires Valid() && buf != disk.image && 2048 * Needed(size) <= buf.Length
      requires Handle(k.parent)
      requires WriteCode(Clusters(), k, size) == W_SUCCESS ==>
                 Allocatable(Clusters(), size) && Count(Clusters()) < CLUSTER_MAP_SIZE
      modifies this, disk.image, fat, dirTable
      ensures Valid()
      ensures code == WriteCode(old(Clusters()), k, size)
      ensures code != W_SUCCESS ==> Clusters() == old(Clusters()) && store == old(store)
      ensures code == W_SUCCESS ==>
                && Writable(old(Clusters()), old(store), k, size)
                && OrdinaryParent(old(Clusters()), k, size)
                && Clusters() == WriteImage(old(Clusters()), k, buf[..], size, stack)
                && store == AddItem(old(store), k, NewItem(old(Clusters()), k, size))
                && k !in old(store).items
                && Files() == old(Files())[k := if size == 0 then Directory(NewChain(old(Clusters()), size)[0])
                              else File(buf[..2048 * Needed(size)])]
      ensures k.parent !in old(store).depth ==> code == 2
      ensures k.parent in old(store).depth ==>
                (code == 1 <==> k in old(store).items) && (code == 0 || code == 1 || code == -1)
      ensures code == 0 ==>
                && k in store.items && store.items[k].chain != [] && 1 <= store.items[k].slot < 64
                && var before, after := old(Clusters())[k.parent], Clusters()[k.parent];
                var slot, c := store.items[k].slot, store.items[k].chain[0];
                && after[12] == 0xAA
                && after[32 * slot..32 * slot + 32] ==
                   k.name + k.ext + [if size == 0 then 0x10 else 0, 0, 1]
                   + Zeros(6) + [c / 0x1_0000 % 0x100, c / 0x100_0000]
                   + Zeros(4) + [c % 0x100, c / 0x100 % 0x100] + Zeros(4)
                && forall n :: 0 <= n < 2048 && n != 12 && !(32 * slot <= n < 32 * slot + 32) ==> after[n] == before[n]
    {
      hide FreeFrom, TableOf, FatOf, FreeSlot, Inv, AddItem, NewChain, Count, WriteImage, Slices, WriteCode,
        Matches, Contents;
      WriteCodes(Clusters(), store, k, size);
      var entryNum;
      code, entryNum := CheckWrite(k, size);
      if code != W_SUCCESS {
        return;
      }
      SucceedsInDirectory(Clusters(), store, k, size);
      ghost var img := Clusters();
      Commit(k, buf, size, entryNum, stack);
      WriteKeepsInvariant(img, store, k, buf[..], size, stack);
      WriteRefines(img, store, k, buf[..], size, stack);
      store := AddItem(store, k, NewItem(img, k, size));
      AddedItem(old(store), k, NewItem(img, k, size));
      WrittenParent(img, k, buf[..], size, stack);
    }

    // ---- delete ----

    /** The first part of delete: load the tables and find the entry. */
    method CheckDelete(k: Key) returns (code: int, i: nat)
      requires Shape() && k.parent < 2048
      modifies fat, dirTable
      ensures Coherent() && dirTable[..] == TableOf(Clusters(), k.parent)
      ensures code == DeleteCode(Clusters(), k)
      ensures code == D_SUCCESS ==> i == Lookup(dirTable[..], k.name, k.ext, 1)
    {
      hide TableOf, FatOf, Lookup, Slices;
      i := 64;
      LoadTable(k.parent);
      LoadFat();
      if dirTable[0].attribute != ATTR_SUBDIRECTORY {
        return D_UNKNOWN, i;
      }
      i := FindEntry(dirTable, k.name, k.ext);
      if i == TABLE_LENGTH {
        return D_NOT_FOUND, i;
      }
      var current := dirTable[i];
      if current.attribute == ATTR_SUBDIRECTORY && current.userAttribute == UATTR_NOT_EMPTY {
        return D_NOT_EMPTY, i;
      }
      return D_SUCCESS, i;
    }

    method ReleaseDirectory(parent: word, i: nat, cluster: word)
      requires Shape() && parent < 2048 && 1 <= i < 64 && cluster < 512
      modifies disk.image, fat, dirTable
      ensures Coherent()
      ensures Clusters() == StoreTables(ClearChain(old(Clusters()), [cluster]), parent,
                                        old(dirTable[..])[i := ResetEntry(old(dirTable[i]))],
                                        Unlink(old(fat[..]), [cluster]))
    {
      hide Slices, EncodeTable, EncodeFat, FatOf, ResetEntry;
      fat[cluster] := EMPTY_ENTRY;
      dirTable[i] := ResetEntry(dirTable[i]);
      WriteCluster(ZERO_CLUSTER, cluster);
      StoreTable(parent);
      StoreFat();
      assert fat[..] == Unlink(old(fat[..]), [cluster]);
      assert old(Clusters())[cluster := ZERO_CLUSTER] == ClearChain(old(Clusters()), [cluster]);
    }

    /** The walk of delete: every cluster of the chain is zeroed and its link cleared. */
    method ReleaseChain(i: nat, first: word, ghost chain: seq<word>)
      requires Shape() && 1 <= i < 64
      requires IsChain(fat[..], chain) && first == chain[0]
      modifies disk.image, fat, dirTable
      ensures Clusters() == ClearChain(old(Clusters()), chain)
      ensures fat[..] == Unlink(old(fat[..]), chain)
      ensures dirTable[..] == old(dirTable[..])[i := ResetEntry(old(dirTable[i]))]
    {
      hide Slices;
      ghost var links, img, j := fat[..], Clusters(), 0;
      var cluster := first;
      while fat[cluster] != END_OF_FILE
        invariant 0 <= j < |chain| && cluster == chain[j]
        invariant fat[..] == Unlink(links, chain[..j])
        invariant Clusters() == ClearChain(img, chain[..j])
        invariant dirTable[..] == old(dirTable[..])
               || dirTable[..] == old(dirTable[..])[i := ResetEntry(old(dirTable[i]))]
        decreases |chain| - j
      {
        WalkStep(links, chain, j);
        ClearStep(links, img, chain, j);
        var temp := cluster;
        dirTable[i] := ResetEntry(dirTable[i]);
        WriteCluster(ZERO_CLUSTER, cluster);
        cluster := fat[temp];
        fat[temp] := EMPTY_ENTRY;
        j := j + 1;
      }
      WalkStep(links, chain, j);
      ClearStep(links, img, chain, j);
      assert chain[..j + 1] == chain;
      if fat[cluster] == END_OF_FILE {
        fat[cluster] := EMPTY_ENTRY;
        dirTable[i] := ResetEntry(dirTable[i]);
        WriteCluster(ZERO_CLUSTER, cluster);
        fat[cluster] := EMPTY_ENTRY;
      }
    }

    method ReleaseFile(parent: word, i: nat, first: word, ghost chain: seq<word>)
      requires Shape() && parent < 2048 && 1 <= i < 64
      requires IsChain(fat[..], chain) && first == chain[0]
      modifies disk.image, fat, dirTable
      ensures Coherent()
      ensures Clusters() == StoreTables(ClearChain(old(Clusters()), chain), parent,
                                        old(dirTable[..])[i := ResetEntry(old(dirTable[i]))],
                                        Unlink(old(fat[..]), chain))
    {
      ReleaseChain(i, first, chain);
      hide Slices, EncodeTable, EncodeFat, FatOf, ResetEntry, Unlink, ClearChain;
      StoreTable(parent);
      StoreFat();
    }

    /** The last part of delete: the index record, the clusters, the entry and the links. */
    method CommitDelete(k: Key, i: nat, stack: Stack)
      requires Shape() && Coherent() && Deletable(Clusters(), store, k) && DeleteCode(Clusters(), k) == D_SUCCESS
      requires dirTable[..] == TableOf(Clusters(), k.parent) && i == Lookup(dirTable[..], k.name, k.ext, 1)
      modifies disk.image, fat, dirTable
      ensures Coherent()
      ensures Clusters() == DeleteImage(old(Clusters()), k, stack)
    {
      hide TableOf, FatOf, Inv, Slices, Lookup, DeletedChain, Count, DeleteIndex, DeleteCode, ClearChain, Unlink,
        StoreTables, ResetEntry;
      ghost var img, chain := Clusters(), store.items[k].chain;
      DeletedItem(img, store, k);
      LiveEntry(img, store, k);
      ChainAfterIndex(img, store, k, stack);
      var current := dirTable[i];
      DeleteRecord(k, stack);
      if current.attribute == ATTR_SUBDIRECTORY {
        ReleaseDirectory(k.parent, i, current.ClusterNumber());
      } else {
        ReleaseFile(k.parent, i, current.ClusterNumber(), chain);
      }
    }

    /** delete: 0 success, 1 not found, 2 directory marked not empty, -1 invalid parent. */
    method Delete(k: Key, stack: Stack) returns (code: int)
      requires Valid() && Handle(k.parent) && Count(Clusters()) <= CLUSTER_MAP_SIZE
      requires k.parent in store.depth ==> Findable(Clusters(), store, k)
      modifies this, disk.image, fat, dirTable
      ensures Coherent()
      ensures code == DeleteCode(old(Clusters()), k)
      ensures code != D_SUCCESS ==> Clusters() == old(Clusters()) && store == old(store)
      ensures code == D_SUCCESS ==>
                && Deletable(old(Clusters()), old(store), k)
                && old(store).items[k].chain != []
                && Clusters() == DeleteImage(old(Clusters()), k, stack)
                && store == RemoveItem(old(store), k)
      ensures Valid() <==> code == D_SUCCESS ==> Removable(old(store), k)
      ensures code == D_SUCCESS && Removable(old(store), k) ==> Files() == old(Files()) - {k}
      ensures code == if k.parent !in old(store).depth then -1 else if k in old(store).items then 0 else 1
      ensures code == 0 ==>
                && k in old(store).items && 1 <= old(store).items[k].slot < 64
                && var before, after := old(Clusters())[k.parent], Clusters()[k.parent];
                var slot := old(store).items[k].slot;
                forall n :: 0 <= n < 2048 ==> after[n] == if 32 * slot <= n < 32 * slot + 32 then 0 else before[n]
    {
      hide TableOf, FatOf, Inv, Slices, Lookup, DeletedChain, RemoveItem, Count, Contents, DeleteImage, DeleteCode;
      DeleteCodes(Clusters(), store, k);
      var i;
      code, i := CheckDelete(k);
      if code != D_SUCCESS {
        return;
      }
      ghost var img := Clusters();
      FoundIsLive(img, store, k);
      CommitDelete(k, i, stack);
      DeleteKeepsInvariantIff(img, store, k, stack);
      DeleteRefines(img, store, k, stack);
      DeletedParent(img, store, k, stack);
      store := RemoveItem(store, k);
    }

    // ---- read ----

    /** read_clusters(buf + CLUSTER_SIZE * f, c, 1) */
    method ReadFragment(buf: array<byte>, f: nat, c: word)
      requires Shape() && buf != disk.image && c < 2048 && 2048 * (f + 1) <= buf.Length
      modifies buf
      ensures buf[..] == Patch(old(buf[..]), 2048 * f, Clusters()[c])
    {
      disk.ReadClusters(buf, 2048 * f, c, 1);
      assert Joined(Clusters(), c, 1) == Joined(Clusters(), c, 0) + Clusters()[c];
    }

    /** The walk of read. */
    method ReadChain(first: word, buf: array<byte>, size: word, ghost chain: seq<word>) returns (code: int)
      requires Shape() && buf != disk.image && Signed(size) <= buf.Length && !SizeOverflows(size)
      requires Bounded(fat[..], chain, Signed(size)) && first == chain[0]
      modifies buf
      ensures fat[..] == old(fat[..]) && Clusters() == old(Clusters())
      ensures Copied(ChainData(Clusters(), chain), fat[chain[|chain| - 1]] == END_OF_FILE, Signed(size), old(buf[..]),
                     code, buf[..])
    {
      hide Slices, ChainData, Joined, Patch;
      ghost var data, before := ChainData(Clusters(), chain), buf[..];
      NothingRead(before, data);
      var cluster := first;
      var bufferSize := Signed(size);
      var fragment := 0;
      while cluster != END_OF_FILE
        invariant 0 <= fragment <= |chain|
        invariant cluster == if fragment < |chain| then chain[fragment] else fat[chain[|chain| - 1]]
        invariant bufferSize == Signed(size) - 2048 * fragment && (fragment > 0 ==> bufferSize >= 0)
        invariant fat[..] == old(fat[..]) && Clusters() == old(Clusters())
        invariant buf[..] == Patch(before, 0, data[..2048 * fragment])
        decreases |chain| - fragment
      {
        bufferSize := bufferSize - CLUSTER_SIZE;
        if bufferSize < 0 {
          assert WholePart(Signed(size)) == 2048 * fragment;
          return R_NOT_ENOUGH_BUFFER;
        }
        NextFragment(Clusters(), chain, fragment, before);
        ReadFragment(buf, fragment, cluster);
        cluster := fat[cluster];
        fragment := fragment + 1;
      }
      assert data[..2048 * fragment] == data;
      if bufferSize != 0 {
        MemSet(buf, CLUSTER_SIZE * fragment, 0xFF, 1);
        LastByte(before, data);
      }
      return R_SUCCESS;
    }

    /**
      * read: the file's clusters, as many whole ones as fit the buffer. A key
      * that meets a free slot first is read from cluster 0, which no buffer of
      * less than two clusters gets to the end of.
      */
    method Read(k: Key, buf: array<byte>, size: word) returns (code: int)
      requires Valid() && Handle(k.parent) && Readable(Clusters(), store, k, size)
      requires buf != disk.image && Signed(size) <= buf.Length
      modifies dirTable, buf
      ensures Valid() && store == old(store) && Clusters() == old(Clusters())
      ensures ReadResult(Clusters(), store, k, Signed(size), old(buf[..]), code, buf[..])
    {
      hide Inv, TableOf, Lookup, Slices, FatOf, Findable, FreeSlot, Patch, ReadResult, Copied, Bounded, Contents,
        WalkStarts;
      LoadTable(k.parent);
      if dirTable[0].attribute != ATTR_SUBDIRECTORY {
        NothingToRead(Clusters(), store, k, size, buf[..]);
        return R_UNKNOWN;
      }
      var i := FindEntry(dirTable, k.name, k.ext);
      ReadAt(Clusters(), store, k, size, buf[..]);
      if i == TABLE_LENGTH {
        return R_NOT_FOUND;
      }
      var current := dirTable[i];
      if current.attribute == ATTR_SUBDIRECTORY {
        return R_NOT_A_FILE;
      }
      ghost var img := Clusters();
      StartedWalk(img, store, k, Signed(size), current);
      code := ReadChain(current.ClusterNumber(), buf, size, WalkOf(img, store, k));
      WalkIsResult(img, store, k, Signed(size), current, old(buf[..]), code, buf[..]);
    }

    /** read_directory: the directory's table, as it lies on the disk. */
    method ReadDirectory(k: Key, buf: array<byte>) returns (code: int)
      requires Valid() && Handle(k.parent)
      requires buf != disk.image && 2048 <= buf.Length
      modifies dirTable, buf
      ensures Valid() && store == old(store) && Clusters() == old(Clusters())
      ensures code == RD_SUCCESS ==>
                && k in Files() && Files()[k].Directory?
                && Files()[k].cluster in store.depth && Files()[k].cluster < 2048
                && buf[..] == Patch(old(buf[..]), 0, Clusters()[Files()[k].cluster])
      ensures k.parent !in store.depth ==> code == -1
      ensures k.parent in store.depth && Findable(Clusters(), store, k) ==>
                code == if k !in Files() then 2 else if Files()[k].Directory? then 0 else 1
      ensures k.parent in store.depth && !Findable(Clusters(), store, k) ==> code == 1
      ensures code == 0 ==>
                && k in store.items && store.items[k].chain != []
                && forall name: Name, ext: Ext :: Key(store.items[k].chain[0], name, ext) in store.items <==>
                     exists i :: 1 <= i < 64 && buf[32 * i..32 * i + 11] == name + ext && buf[32 * i + 13] != 0
      ensures code != RD_SUCCESS ==> buf[..] == old(buf[..])
    {
      hide Inv, TableOf, Lookup, Slices, FatOf;
      LoadTable(k.parent);
      if dirTable[0].attribute != ATTR_SUBDIRECTORY {
        NotLive(Clusters(), store, k.parent);
        return RD_UNKNOWN;
      }
      var i := FindEntry(dirTable, k.name, k.ext);
      LookupLive(Clusters(), store, k);
      if i == TABLE_LENGTH {
        return RD_NOT_FOUND;
      }
      var current := dirTable[i];
      if current.attribute != ATTR_SUBDIRECTORY {
        return RD_NOT_A_FOLDER;
      }
      assert Findable(Clusters(), store, k);
      LiveDirectory(Clusters(), store, k);
      ReadFragment(buf, 0, current.ClusterNumber());
      ListedInBuffer(Clusters(), store, current.ClusterNumber(), buf[..]);
      return RD_SUCCESS;
    }

    /** move_to_child_directory: the cluster of the entry with extension "dir", or 0. */
    method MoveToChild(parent: word, name: Name) returns (cluster: word)
      requires Valid() && parent in store.depth && parent < 2048
      ensures
        var k := Key(parent, name, DIR_EXT);
        && (k !in store.items ==> cluster == 0)
        && (k in store.items ==> store.items[k].chain != [] && cluster == store.items[k].chain[0])
    {
      hide Inv, TableOf, Lookup, Slices, FatOf;
      var directory := ReadTable(parent);
      var i := FindEntry(directory, name, DIR_EXT);
      assert DIR_EXT[0] != Zeros(3)[0];
      LookupLive(Clusters(), store, Key(parent, name, DIR_EXT));
      if i == TABLE_LENGTH {
        return 0;
      }
      return directory[i].ClusterNumber();
    }

    /** move_to_parent_directory: the directory that holds the entry; the root is its own parent. */
    method MoveToParent(d: word) returns (cluster: word)
      requires Valid() && d in store.depth && d < 2048
      ensures IsParent(store, d, cluster)
    {
      hide Inv, TableOf, Slices, FatOf;
      var directory := ReadTable(d);
      HeaderOfDirectory(Clusters(), store, d);
      return directory[0].ClusterNumber();
    }
  }
}
