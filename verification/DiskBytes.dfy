/** What writes and deletes leave on the disk, byte by byte. */
module DiskBytes {
  import opened Bytes
  import opened Layout
  import opened DiskImage
  import opened Allocation
  import opened IndexFile
  import opened Volume
  import opened WriteEffects
  import opened WriteInvariant
  import opened DeleteEffects
  import opened Creation

  // ---- an entry in its table ----

  lemma FlagByte(c: Cluster)
    ensures DecodeTable(c)[0].userAttribute == c[12]
  {
  }

  lemma HeaderByte(c: Cluster, c': Cluster, n: nat)
    requires n < 32 && n != 12
    requires DecodeTable(c')[0] == DecodeTable(c)[0].(userAttribute := DecodeTable(c')[0].userAttribute)
    ensures c'[n] == c[n]
  {
    SlotBytes(c, 0);
    SlotBytes(c', 0);
    hide DecodeTable;
    assert c[0..32][n] == c'[0..32][n];
  }

  /** What an entry added to a table changes in its cluster: byte 12, and the 32 bytes of the entry. */
  lemma EntryAdded(c: Cluster, c': Cluster, slot: nat, e: DirEntry)
    requires 1 <= slot < 64 && DecodeTable(c') == WithEntry(DecodeTable(c), slot, e)
    ensures c'[12] == 0xAA
    ensures forall n :: 0 <= n < 2048 && n != 12 && !(32 * slot <= n < 32 * slot + 32) ==> c'[n] == c[n]
  {
    hide DecodeTable;
    forall n | 0 <= n < 2048 && n != 12 && !(32 * slot <= n < 32 * slot + 32)
      ensures c'[n] == c[n]
    {
      if n < 32 {
        HeaderByte(c, c', n);
      } else {
        SameByte(c, c', n);
      }
    }
    FlagByte(c');
  }

  lemma HalfOf(c: word)
    ensures c / 0x1_0000 % 0x100 == (c / 0x1_0000) % 0x100 && c / 0x100_0000 == (c / 0x1_0000) / 0x100
    ensures c % 0x100 == (c % 0x1_0000) % 0x100 && c / 0x100 % 0x100 == (c % 0x1_0000) / 0x100
  {
    var lo, hi := c % 0x1_0000, c / 0x1_0000;
    Divided(lo / 0x100, lo % 0x100, hi);
    Divided(hi / 0x100, hi % 0x100, 0);
    assert c == lo % 0x100 + 0x100 * (lo / 0x100 + 0x100 * hi);
  }

  lemma NewEntryBytes(c: Cluster, slot: nat, k: Key, isDir: bool, first: word)
    requires slot < 64 && DecodeTable(c)[slot] == EntryFor(k, isDir, first)
    ensures c[32 * slot..32 * slot + 32] ==
            k.name + k.ext + [if isDir then 0x10 else 0, 0, 1]
            + Zeros(6) + [first / 0x1_0000 % 0x100, first / 0x100_0000]
            + Zeros(4) + [first % 0x100, first / 0x100 % 0x100] + Zeros(4)
  {
    SlotBytes(c, slot);
    HalfOf(first);
    hide DecodeTable;
  }

  lemma UndeleteByte(c: Cluster, i: nat)
    requires i < 64
    ensures DecodeTable(c)[i].undelete == c[32 * i + 13]
  {
    EntryFields(c, i);
  }

  /** The slot a write takes, told from the bytes: the first whose byte 13 is zero. */
  lemma FirstFreeBytes(c: Cluster)
    ensures
      var slot := FreeSlot(DecodeTable(c), 1);
      && (slot < 64 ==> c[32 * slot + 13] == 0)
      && forall i :: 1 <= i < slot ==> c[32 * i + 13] != 0
  {
    hide DecodeTable;
    var slot := FreeSlot(DecodeTable(c), 1);
    forall i | 1 <= i < slot
      ensures c[32 * i + 13] != 0
    {
      UndeleteByte(c, i);
    }
    if slot < 64 {
      UndeleteByte(c, slot);
    }
  }

  // ---- a write ----

  /**
    * The cluster of the parent after a write: byte 12, the user attribute of slot
    * 0, is 0xAA; the first slot whose byte 13 was zero holds the entry; every
    * other byte is as before.
    */
  lemma {:induction false} WrittenParent(img: Image, k: Key, data: seq<byte>, size: nat, stack: Stack)
    requires k.parent < 2048 && Allocatable(img, size) && 2048 * Needed(size) <= |data|
    requires FreeSlot(TableOf(img, k.parent), 1) < 64
    requires OrdinaryParent(img, k, size) && Count(img) < CLUSTER_MAP_SIZE
    ensures
      var before, after := img[k.parent], WriteImage(img, k, data, size, stack)[k.parent];
      var slot, c := NewItem(img, k, size).slot, NewItem(img, k, size).chain[0];
      && 1 <= slot < 64
      && before[32 * slot + 13] == 0 && (forall i :: 1 <= i < slot ==> before[32 * i + 13] != 0)
      && after[12] == 0xAA
      && after[32 * slot..32 * slot + 32] ==
         k.name + k.ext + [if size == 0 then 0x10 else 0, 0, 1]
         + Zeros(6) + [c / 0x1_0000 % 0x100, c / 0x100_0000]
         + Zeros(4) + [c % 0x100, c / 0x100 % 0x100] + Zeros(4)
      && forall n :: 0 <= n < 2048 && n != 12 && !(32 * slot <= n < 32 * slot + 32) ==> after[n] == before[n]
  {
    hide WriteImage, FatOf, FreeSlot, FreeFrom, Link, DecodeTable, NewChain, EntryFor;
    WriteEffect(img, k, data, size, stack);
    var before, after := img[k.parent], WriteImage(img, k, data, size, stack)[k.parent];
    var it := NewItem(img, k, size);
    FirstFreeBytes(before);
    EntryAdded(before, after, it.slot, EntryFor(k, it.isDir, it.chain[0]));
    NewEntryBytes(after, it.slot, k, it.isDir, it.chain[0]);
  }

  lemma ZeroSlotBytes(c: Cluster, i: nat)
    requires i < 64 && DecodeTable(c)[i] == ZERO_ENTRY
    ensures c[32 * i..32 * i + 32] == Zeros(32)
  {
    SlotBytes(c, i);
    hide DecodeTable;
  }

  lemma RestIsZero(c: Cluster)
    requires forall i :: 1 <= i < 64 ==> DecodeTable(c)[i] == ZERO_ENTRY
    ensures c[32..] == Zeros(2016)
  {
    hide DecodeTable;
    forall n | 32 <= n < 2048
      ensures c[n] == 0
    {
      ZeroSlotBytes(c, n / 32);
      assert c[32 * (n / 32)..32 * (n / 32) + 32][n % 32] == c[32 * (n / 32) + n % 32];
    }
  }

  /** The cluster of a new directory: slot 0 with its name, the mark and the link to its parent, and zeros. */
  lemma {:induction false} NewDirectoryBytes(c: Cluster, name: Name, parent: word)
    requires DecodeTable(c) == InitTable(name, parent)
    ensures c == name + Zeros(3) + [0x10, 0, 0]
                 + Zeros(6) + [parent / 0x1_0000 % 0x100, parent / 0x100_0000]
                 + Zeros(4) + [parent % 0x100, parent / 0x100 % 0x100] + Zeros(4) + Zeros(2016)
  {
    SlotBytes(c, 0);
    HalfOf(parent);
    RestIsZero(c);
    hide DecodeTable;
    assert c == c[0..32] + c[32..];
  }

  /** The cluster of a directory just written. */
  lemma WrittenDirectory(img: Image, k: Key, data: seq<byte>, size: nat, stack: Stack)
    requires k.parent < 2048 && Allocatable(img, size) && 2048 * Needed(size) <= |data|
    requires FreeSlot(TableOf(img, k.parent), 1) < 64
    requires OrdinaryParent(img, k, size) && Count(img) < CLUSTER_MAP_SIZE
    ensures size == 0 ==>
              WriteImage(img, k, data, size, stack)[NewItem(img, k, size).chain[0]] ==
              k.name + Zeros(3) + [0x10, 0, 0]
              + Zeros(6) + [k.parent / 0x1_0000 % 0x100, k.parent / 0x100_0000]
              + Zeros(4) + [k.parent % 0x100, k.parent / 0x100 % 0x100] + Zeros(4) + Zeros(2016)
  {
    hide WriteImage, FatOf, FreeSlot, FreeFrom, Link, DecodeTable, NewChain, InitTable;
    WriteEffect(img, k, data, size, stack);
    if size == 0 {
      NewDirectoryBytes(WriteImage(img, k, data, size, stack)[NewItem(img, k, size).chain[0]], k.name, k.parent);
    }
  }

  // ---- a new file system ----

  lemma ZeroLink(c: Cluster, n: nat)
    requires 24 <= n < 2048 && c[4 * (n / 4)..4 * (n / 4) + 4] == EncodeWord(NewFat()[n / 4])
    ensures c[n] == 0
  {
    assert c[4 * (n / 4)..4 * (n / 4) + 4][n % 4] == c[n];
    assert NewFat()[n / 4] == 0;
  }

  lemma ReservedLinks()
    ensures
      var fat := NewFat();
      && EncodeWord(fat[0]) == [0xF0, 0xFF, 0xFF, 0x0F]
      && EncodeWord(fat[1]) == [0xFF, 0xFF, 0xFF, 0x0F] && fat[1] == fat[2] == fat[4] == fat[5]
      && EncodeWord(fat[3]) == [0, 0, 0, 0]
  {
    WordBytes(0x0FFF_FFF0);
    WordBytes(0x0FFF_FFFF);
    WordBytes(0);
    hide EncodeWord;
  }

  lemma LinksInOrder(c: Cluster)
    ensures c[..24] == c[0..4] + c[4..8] + c[8..12] + c[12..16] + c[16..20] + c[20..24]
  {
  }

  /** The signature in characters: five lines, zeros, and "Ok". */
  lemma SignatureInCharacters()
    ensures |SIGNATURE| == 512
    ensures SIGNATURE == SIGNATURE_0 + SIGNATURE_1 + SIGNATURE_2 + SIGNATURE_3 + SIGNATURE_4
                         + Zeros(430) + ['O' as int, 'k' as int]
    ensures SIGNATURE_0 ==
            ['S' as int, 't' as int, 'r' as int, 'e' as int, 's' as int, 's' as int, ' ' as int, 'T' as int,
             'u' as int, 'b' as int, 'e' as int, 's' as int, ' ' as int, ' ' as int, ' ' as int, ' ' as int]
    ensures SIGNATURE_1 ==
            ['|' as int, '|' as int, ' ' as int, 'D' as int, 'E' as int, 'D' as int, ' ' as int, 'O' as int,
             'S' as int, ' ' as int, '|' as int, '|' as int, ' ' as int, ' ' as int, ' ' as int, ' ' as int]
    ensures SIGNATURE_2 ==
            ['|' as int, '|' as int, ' ' as int, 'I' as int, 'S' as int, ' ' as int, 'D' as int, 'E' as int,
             'D' as int, ' ' as int, '|' as int, '|' as int, ' ' as int, ' ' as int, ' ' as int, ' ' as int]
    ensures SIGNATURE_3 ==
            ['M' as int, 'a' as int, 'd' as int, 'e' as int, ' ' as int, 'w' as int, 'i' as int, 't' as int,
             'h' as int, ' ' as int, 'P' as int, 'a' as int, 'i' as int, 'n' as int, ' ' as int, ' ' as int]
    ensures SIGNATURE_4 ==
            ['-' as int, '-' as int, '-' as int, '-' as int, '-' as int, '-' as int, '-' as int, '-' as int,
             '-' as int, '-' as int, '-' as int, '<' as int, '/' as int, '3' as int, ' ' as int, '\n' as int]
  {
  }

  lemma FirstLinks(c: Cluster)
    requires c == EncodeFat(NewFat())
    ensures c[..24] == [0xF0, 0xFF, 0xFF, 0x0F] + [0xFF, 0xFF, 0xFF, 0x0F] + [0xFF, 0xFF, 0xFF, 0x0F]
                       + [0, 0, 0, 0] + [0xFF, 0xFF, 0xFF, 0x0F] + [0xFF, 0xFF, 0xFF, 0x0F]
  {
    hide EncodeFat, NewFat, EncodeWord;
    ReservedLinks();
    EncodedLink(NewFat(), 0);
    EncodedLink(NewFat(), 1);
    EncodedLink(NewFat(), 2);
    EncodedLink(NewFat(), 3);
    EncodedLink(NewFat(), 4);
    EncodedLink(NewFat(), 5);
    LinksInOrder(c);
  }

  lemma OtherLinks(c: Cluster)
    requires c == EncodeFat(NewFat())
    ensures forall n :: 24 <= n < 2048 ==> c[n] == 0
  {
    hide EncodeFat, NewFat, EncodeWord;
    forall n | 24 <= n < 2048
      ensures c[n] == 0
    {
      EncodedLink(NewFat(), n / 4);
      ZeroLink(c, n);
    }
  }

  /** Cluster 1 of a new file system: five reserved links and the index count 0. */
  lemma NewLinks(img: Image)
    ensures
      var c := CreatedImage(img)[1];
      && c[..24] == [0xF0, 0xFF, 0xFF, 0x0F] + [0xFF, 0xFF, 0xFF, 0x0F] + [0xFF, 0xFF, 0xFF, 0x0F]
                    + [0, 0, 0, 0] + [0xFF, 0xFF, 0xFF, 0x0F] + [0xFF, 0xFF, 0xFF, 0x0F]
      && forall n :: 24 <= n < 2048 ==> c[n] == 0
  {
    var c := CreatedImage(img)[1];
    assert c == EncodeFat(NewFat());
    hide EncodeFat, CreatedImage, NewFat, SIGNATURE;
    FirstLinks(c);
    OtherLinks(c);
  }

  lemma RootHeader()
    ensures RootTable()[0] == DirEntry(['r' as int, 'o' as int, 'o' as int, 't' as int, 0, 0, 0, 0],
                                       ['d' as int, 'i' as int, 'r' as int], 0x10, 0, 0, Zeros(6), 0, Zeros(4), 2, 0)
    ensures forall i :: 1 <= i < 64 ==> RootTable()[i] == ZERO_ENTRY
  {
  }

  lemma RootBytes(c: Cluster)
    requires DecodeTable(c) == RootTable()
    ensures c[..32] ==
                    ['r' as int, 'o' as int, 'o' as int, 't' as int, 0, 0, 0, 0] + ['d' as int, 'i' as int, 'r' as int]
                       + [0x10, 0, 0] + Zeros(6) + [0, 0] + Zeros(4) + [2, 0] + Zeros(4)
    ensures forall n :: 32 <= n < 2048 ==> c[n] == 0
  {
    hide DecodeTable, RootTable;
    RootHeader();
    SlotBytes(c, 0);
    RestIsZero(c);
    assert c[..32] == c[0..32];
    forall n | 32 <= n < 2048
      ensures c[n] == 0
    {
      assert c[n] == c[32..][n - 32];
    }
  }

  /** Cluster 2 of a new file system: the root directory, its own parent. */
  lemma NewRoot(img: Image)
    ensures
      var c := CreatedImage(img)[2];
      && c[..32] ==
                    ['r' as int, 'o' as int, 'o' as int, 't' as int, 0, 0, 0, 0] + ['d' as int, 'i' as int, 'r' as int]
                    + [0x10, 0, 0] + Zeros(6) + [0, 0] + Zeros(4) + [2, 0] + Zeros(4)
      && forall n :: 32 <= n < 2048 ==> c[n] == 0
  {
    hide CreatedImage, DecodeTable, RootTable, FatOf, NewFat, SIGNATURE;
    CreatedParts(img);
    RootBytes(CreatedImage(img)[2]);
  }

  // ---- a delete ----

  lemma EntryCleared(c: Cluster, c': Cluster, slot: nat)
    requires slot < 64 && DecodeTable(c') == DecodeTable(c)[slot := ZERO_ENTRY]
    ensures forall n :: 0 <= n < 2048 ==> c'[n] == if 32 * slot <= n < 32 * slot + 32 then 0 else c[n]
  {
    hide DecodeTable;
    ZeroSlotBytes(c', slot);
    var b := c'[32 * slot..32 * slot + 32];
    forall n | 0 <= n < 2048
      ensures c'[n] == if 32 * slot <= n < 32 * slot + 32 then 0 else c[n]
    {
      if 32 * slot <= n < 32 * slot + 32 {
        assert b[n - 32 * slot] == c'[n];
      } else {
        SameByte(c, c', n);
      }
    }
  }

  /** The cluster of the parent after a delete: the 32 bytes of the entry are zero, every other byte is as before. */
  lemma {:induction false} DeletedParent(img: Image, s: Store, k: Key, stack: Stack)
    requires Deletable(img, s, k)
    ensures DeleteCode(img, k) == D_SUCCESS
    ensures
      var before, after, slot := img[k.parent], DeleteImage(img, k, stack)[k.parent], s.items[k].slot;
      && 1 <= slot < 64
      && forall n :: 0 <= n < 2048 ==> after[n] == if 32 * slot <= n < 32 * slot + 32 then 0 else before[n]
  {
    hide Inv, DeleteImage, DeleteCode, DecodeTable, Findable, FatOf, Count, FreeSlot, DeletedChain;
    DeletedTables(img, s, k, stack);
    DeletableFacts(img, s, k);
    EntryCleared(img[k.parent], DeleteImage(img, k, stack)[k.parent], s.items[k].slot);
  }

  // ---- a directory, read ----

  lemma SlotMatches(c: Cluster, i: nat, name: Name, ext: Ext)
    requires i < 64
    ensures
      var e := DecodeTable(c)[i];
      c[32 * i..32 * i + 11] == name + ext && c[32 * i + 13] != 0 <==> Matches(e, name, ext) && e.undelete != 0
  {
    EntryFields(c, i);
    hide DecodeTable;
    var b := c[32 * i..32 * i + 32];
    assert c[32 * i..32 * i + 11] == b[..11] && c[32 * i + 13] == b[13];
    assert b[..11] == b[..8] + b[8..11];
    assert b[..11][..8] == b[..8] && b[..11][8..] == b[8..11];
    assert (name + ext)[..8] == name && (name + ext)[8..] == ext;
  }

  /** A key is live exactly when its 11 bytes begin a slot from 1 on whose byte 13 is not zero. */
  lemma {:induction false} LiveInBytes(img: Image, s: Store, k: Key)
    requires DirsMatch(img, s) && k.parent in s.depth
    ensures
      var c := img[k.parent];
      k in s.items <==> exists i :: 1 <= i < 64 && c[32 * i..32 * i + 11] == k.name + k.ext && c[32 * i + 13] != 0
  {
    DuplicateIffLive(img, s, k);
    hide DirsMatch, Entries, Headers, Tree, DecodeTable;
    var c := img[k.parent];
    if k in s.items {
      var t := TableOf(img, k.parent);
      var i :| 1 <= i < 64 && Matches(t[i], k.name, k.ext) && t[i].undelete != 0;
      SlotMatches(c, i, k.name, k.ext);
      assert c[32 * i..32 * i + 11] == k.name + k.ext && c[32 * i + 13] != 0;
    }
    if i :| 1 <= i < 64 && c[32 * i..32 * i + 11] == k.name + k.ext && c[32 * i + 13] != 0 {
      SlotMatches(c, i, k.name, k.ext);
      assert Matches(TableOf(img, k.parent)[i], k.name, k.ext);
    }
  }
}
