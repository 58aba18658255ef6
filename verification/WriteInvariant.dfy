/** A successful write keeps the invariant and adds exactly one item. */
module WriteInvariant {
  import opened Bytes
  import opened Layout
  import opened DiskImage
  import opened Allocation
  import opened IndexFile
  import opened Volume
  import opened WriteEffects

  /** The map before and after: a new chain of formerly free clusters, and a new count. */
  ghost predicate FatAfterWrite(fat: Fat, fat': Fat, chain: seq<word>) {
    && IsChain(fat', chain)
    && (forall c :: c in chain ==> FIRST_DATA_CLUSTER <= c < 512 && fat[c] == EMPTY_ENTRY)
    && (forall c :: 0 <= c < 512 && c != INDEX_CLUSTER && c !in chain ==> fat'[c] == fat[c])
  }

  lemma FreshClusters(fat: Fat, fat': Fat, s: Store, chain: seq<word>)
    requires Partition(fat, s) && FatAfterWrite(fat, fat', chain)
    ensures forall c :: c in chain ==> c !in s.owner
  {
  }

  lemma AddKeepsPartition(fat: Fat, fat': Fat, s: Store, k: Key, it: Item)
    requires Partition(fat, s) && k.parent in s.depth && FatAfterWrite(fat, fat', it.chain)
    ensures Partition(fat', AddItem(s, k, it))
  {
    forall c | c in it.chain
      ensures fat'[c] != EMPTY_ENTRY
    {
      var i :| 0 <= i < |it.chain| && it.chain[i] == c;
      assert fat'[it.chain[i]] == Next(it.chain, i);
    }
  }

  lemma OldChainKept(fat: Fat, fat': Fat, chain: seq<word>, taken: seq<word>)
    requires IsChain(fat, chain)
    requires forall c :: c in chain ==> c !in taken
    requires forall c :: 0 <= c < 512 && c != INDEX_CLUSTER && c !in taken ==> fat'[c] == fat[c]
    ensures IsChain(fat', chain)
  {
    forall i | 0 <= i < |chain|
      ensures fat'[chain[i]] == Next(chain, i)
    {
      assert chain[i] in chain;
    }
  }

  lemma AddKeepsChains(fat: Fat, fat': Fat, s: Store, k: Key, it: Item)
    requires Chains(fat, s) && Owners(s) && k !in s.items && k.parent in s.depth
    requires FatAfterWrite(fat, fat', it.chain)
    requires forall c :: c in it.chain ==> c !in s.owner
    ensures Chains(fat', AddItem(s, k, it))
  {
    var s' := AddItem(s, k, it);
    forall k' | k' in s'.items
      ensures IsChain(fat', s'.items[k'].chain)
    {
      if k' != k {
        var chain := s.items[k'].chain;
        assert IsChain(fat, chain);
        assert forall c :: c in chain ==> Owns(s, k', c);
        OldChainKept(fat, fat', chain, it.chain);
      }
    }
  }

  lemma AddKeepsOwners(s: Store, k: Key, it: Item)
    requires Owners(s) && k !in s.items && k.parent in s.depth && it.chain != []
    requires forall c :: c in it.chain ==> c !in s.owner
    ensures Owners(AddItem(s, k, it))
  {
    var s' := AddItem(s, k, it);
    forall k', c | k' in s'.items && c in s'.items[k'].chain
      ensures Owns(s', k', c)
    {
      if k' != k {
        assert Owns(s, k', c);
      }
    }
  }

  lemma AddKeepsFat(fat: Fat, fat': Fat, s: Store, k: Key, it: Item)
    requires FatMatches(fat, s) && k !in s.items && k.parent in s.depth
    requires FatAfterWrite(fat, fat', it.chain)
    ensures FatMatches(fat', AddItem(s, k, it))
  {
    FreshClusters(fat, fat', s, it.chain);
    AddKeepsChains(fat, fat', s, k, it);
    AddKeepsOwners(s, k, it);
    AddKeepsPartition(fat, fat', s, k, it);
  }

  lemma AddKeepsDirs(s: Store, k: Key, it: Item)
    requires DirsAreItems(s) && k !in s.items && k.parent in s.depth && it.chain != []
    requires forall c :: c in it.chain ==> c !in s.owner
    ensures DirsAreItems(AddItem(s, k, it))
  {
    var s' := AddItem(s, k, it);
    assert it.chain[0] in it.chain;
    forall d | d in s'.depth && d != ROOT_CLUSTER
      ensures OwnedByDir(s', d)
    {
      assert d in s.depth ==> OwnedByDir(s, d) && s'.owner[d] == s.owner[d];
    }
  }

  lemma AddKeepsTree(s: Store, k: Key, it: Item)
    requires Owners(s) && Tree(s) && DirsInMap(s)
    requires k !in s.items && k.parent in s.depth && 1 <= it.slot < 64
    requires it.chain != [] && (it.isDir ==> |it.chain| == 1)
    requires forall c :: c in it.chain ==> FIRST_DATA_CLUSTER <= c < 512 && c !in s.owner
    ensures Tree(AddItem(s, k, it)) && DirsInMap(AddItem(s, k, it))
  {
    var s' := AddItem(s, k, it);
    assert it.chain[0] in it.chain;
    assert it.chain[0] in s.depth ==> OwnedByDir(s, it.chain[0]);
    AddKeepsDirs(s, k, it);
    assert ItemsLieInDirs(s');
    forall k' | k' in s'.items && s'.items[k'].isDir
      ensures DirItem(s', k', s'.items[k'])
    {
      assert k' != k ==> DirItem(s, k', s.items[k']);
    }
  }

  /** The slots of one directory after the write. */
  lemma AddKeepsSlots(t: Table, t': Table, s: Store, k: Key, it: Item, d: word, i: nat)
    requires k !in s.items && k.parent in s.depth && 1 <= it.slot < 64 && it.chain != [] && 1 <= i < 64
    requires SlotExplained(t[i], d, i, s)
    requires if d == k.parent then t' == WithEntry(t, it.slot, EntryFor(k, it.isDir, it.chain[0])) else t' == t
    ensures SlotExplained(t'[i], d, i, AddItem(s, k, it))
  {
    var s' := AddItem(s, k, it);
    if d == k.parent && i == it.slot {
      assert Key(d, t'[i].name, t'[i].ext) == k;
      assert s'.items[k].slot == i;
    } else {
      assert t'[i] == t[i];
    }
  }

  ghost predicate TablesAfterWrite(img: Image, img': Image, s: Store, k: Key, it: Item)
    requires DirsInMap(s) && k.parent in s.depth && 1 <= it.slot < 64 && it.chain != [] && it.chain[0] < 512
  {
    && TableOf(img', k.parent) == WithEntry(TableOf(img, k.parent), it.slot, EntryFor(k, it.isDir, it.chain[0]))
    && (forall d :: d in s.depth && d != k.parent ==> TableOf(img', d) == TableOf(img, d))
    && (it.isDir ==> TableOf(img', it.chain[0]) == InitTable(k.name, k.parent))
  }

  lemma AddKeepsItemEntry(img: Image, img': Image, s: Store, k: Key, it: Item, k': Key)
    requires DirsInMap(s) && Tree(s) && Entries(img, s) && k !in s.items && k.parent in s.depth && 1 <= it.slot < 64
    requires it.chain != [] && it.chain[0] < 512
    requires TableOf(img, k.parent)[it.slot] == ZERO_ENTRY
    requires TablesAfterWrite(img, img', s, k, it)
    requires k' in s.items || k' == k
    ensures EntryOf(TableOf(img', k'.parent)[AddItem(s, k, it).items[k'].slot], k', AddItem(s, k, it).items[k'])
  {
    hide TableOf, InitTable, SlotExplained;
    if k' != k {
      assert EntryOf(TableOf(img, k'.parent)[s.items[k'].slot], k', s.items[k']);
    }
  }

  lemma AddKeepsSlot(img: Image, img': Image, s: Store, k: Key, it: Item, d: word, i: nat)
    requires DirsInMap(s) && Tree(s) && Entries(img, s) && k !in s.items && k.parent in s.depth && 1 <= it.slot < 64
    requires it.chain != [] && it.chain[0] < 512
    requires TablesAfterWrite(img, img', s, k, it)
    requires d in AddItem(s, k, it).depth && 1 <= i < 64 && d < 512
    ensures SlotExplained(TableOf(img', d)[i], d, i, AddItem(s, k, it))
  {
    if d in s.depth {
      assert SlotExplained(TableOf(img, d)[i], d, i, s);
      AddKeepsSlots(TableOf(img, d), TableOf(img', d), s, k, it, d, i);
    }
  }

  lemma AddKeepsEntries(img: Image, img': Image, s: Store, k: Key, it: Item)
    requires DirsInMap(s) && Tree(s) && Entries(img, s) && k !in s.items && k.parent in s.depth && 1 <= it.slot < 64
    requires it.chain != [] && it.chain[0] < 512 && it.chain[0] !in s.depth
    requires TableOf(img, k.parent)[it.slot] == ZERO_ENTRY
    requires TablesAfterWrite(img, img', s, k, it)
    requires Tree(AddItem(s, k, it)) && DirsInMap(AddItem(s, k, it))
    ensures Entries(img', AddItem(s, k, it))
  {
    var s' := AddItem(s, k, it);
    forall k' | k' in s'.items
      ensures EntryOf(TableOf(img', k'.parent)[s'.items[k'].slot], k', s'.items[k'])
    {
      AddKeepsItemEntry(img, img', s, k, it, k');
    }
    forall d, i | d in s'.depth && 1 <= i < 64
      ensures SlotExplained(TableOf(img', d)[i], d, i, s')
    {
      AddKeepsSlot(img, img', s, k, it, d, i);
    }
  }

  lemma InitHeader(k: Key)
    ensures HeaderOf(InitTable(k.name, k.parent)[0], k)
    ensures InitTable(k.name, k.parent)[0].attribute == ATTR_SUBDIRECTORY
  {
  }

  lemma HeaderKept(t: Table, slot: nat, e: DirEntry)
    requires 1 <= slot < 64
    ensures WithEntry(t, slot, e)[0].attribute == t[0].attribute
    ensures WithEntry(t, slot, e)[0].name == t[0].name
    ensures WithEntry(t, slot, e)[0].ClusterNumber() == t[0].ClusterNumber()
  {
  }

  lemma AddKeepsHeaders(img: Image, img': Image, s: Store, k: Key, it: Item)
    requires DirsInMap(s) && Tree(s) && Headers(img, s) && k !in s.items && k.parent in s.depth && 1 <= it.slot < 64
    requires it.chain != [] && it.chain[0] < 512 && it.chain[0] !in s.depth
    requires TablesAfterWrite(img, img', s, k, it)
    requires DirsInMap(AddItem(s, k, it))
    ensures Headers(img', AddItem(s, k, it))
  {
    hide TableOf, InitTable, WithEntry, EntryFor, DirEntry.ClusterNumber, DirsAreItems;
    InitHeader(k);
    HeaderKept(TableOf(img, k.parent), it.slot, EntryFor(k, it.isDir, it.chain[0]));
    var s' := AddItem(s, k, it);
    forall k' | k' in s'.items && s'.items[k'].isDir && s'.items[k'].chain != [] && s'.items[k'].chain[0] in s'.depth
      ensures HeaderOf(TableOf(img', s'.items[k'].chain[0])[0], k')
    {
      if k' != k {
        assert DirItem(s, k', s.items[k']);
        assert HeaderOf(TableOf(img, s.items[k'].chain[0])[0], k');
      }
    }
  }

  // ---- the write itself ----

  /** In a live directory the duplicate check decides whether the key is live. */
  lemma DuplicateIffLive(img: Image, s: Store, k: Key)
    requires DirsMatch(img, s) && k.parent in s.depth
    ensures Duplicate(TableOf(img, k.parent), k.name, k.ext) <==> k in s.items
  {
    hide TableOf, Headers;
    var t := TableOf(img, k.parent);
    if k in s.items {
      var i := s.items[k].slot;
      assert EntryOf(t[i], k, s.items[k]);
      assert Matches(t[i], k.name, k.ext) && t[i].undelete != 0;
    }
    if i :| 1 <= i < 64 && Matches(t[i], k.name, k.ext) && t[i].undelete != 0 {
      assert SlotExplained(t[i], k.parent, i, s);
      assert Key(k.parent, t[i].name, t[i].ext) == k;
    }
  }

  lemma LiveParent(img: Image, s: Store, d: word)
    requires Inv(img, s) && d in s.depth
    ensures d == ROOT_CLUSTER || (FIRST_DATA_CLUSTER <= d < 512 && d in s.owner && FatOf(img)[d] != EMPTY_ENTRY)
    ensures TableOf(img, d)[0].attribute == ATTR_SUBDIRECTORY
  {
    hide TableOf, SIGNATURE, Entries, FatOf, Chains, Owners;
    assert d != ROOT_CLUSTER ==> OwnedByDir(s, d);
  }

  lemma LiveParentIsOrdinary(img: Image, s: Store, k: Key, size: nat)
    requires Inv(img, s) && k.parent in s.depth && Allocatable(img, size)
    ensures OrdinaryParent(img, k, size)
  {
    LiveParent(img, s, k.parent);
    NewChainFacts(img, size);
  }

  /** A write that is meant to succeed: live parent, new name, room in the table and on the disk. */
  ghost predicate Writable(img: Image, s: Store, k: Key, size: nat) {
    && Inv(img, s) && k.parent in s.depth && k.parent < 2048
    && WriteCode(img, k, size) == W_SUCCESS && FreeSlot(TableOf(img, k.parent), 1) < 64
    && Allocatable(img, size) && Count(img) < CLUSTER_MAP_SIZE
  }

  lemma NewItemFacts(img: Image, s: Store, k: Key, size: nat)
    requires Writable(img, s, k, size)
    ensures
      var it := NewItem(img, k, size);
      && k !in s.items && OrdinaryParent(img, k, size)
      && 1 <= it.slot < 64 && TableOf(img, k.parent)[it.slot] == ZERO_ENTRY
      && (it.isDir ==> |it.chain| == 1)
      && (forall c :: c in it.chain ==> FIRST_DATA_CLUSTER <= c < 512 && FatOf(img)[c] == EMPTY_ENTRY && c !in s.owner)
      && it.chain[0] !in s.depth
  {
    hide TableOf, FreeFrom, SIGNATURE, Chains, Owners, Entries, Headers, Link, IsChain, Matches;
    var it := NewItem(img, k, size);
    DuplicateIffLive(img, s, k);
    LiveParentIsOrdinary(img, s, k, size);
    UsedSlot(img, s, k.parent, it.slot);
    NewChainFacts(img, size);
    assert it.chain[0] in it.chain;
    assert it.chain[0] in s.depth ==> OwnedByDir(s, it.chain[0]);
  }

  lemma WrittenTables(img: Image, s: Store, k: Key, data: seq<byte>, size: nat, stack: Stack)
    requires Writable(img, s, k, size) && 2048 * Needed(size) <= |data|
    requires OrdinaryParent(img, k, size)
    requires NewItem(img, k, size).chain[0] !in s.depth
    requires forall c :: c in NewItem(img, k, size).chain ==> c !in s.owner
    ensures TablesAfterWrite(img, WriteImage(img, k, data, size, stack), s, k, NewItem(img, k, size))
  {
    hide WriteImage, DecodeTable, EncodeTable, FreeFrom, SIGNATURE, Chains, Owners, Entries, Headers, Link,
      InitTable, EntryFor, WithEntry;
    var img', it := WriteImage(img, k, data, size, stack), NewItem(img, k, size);
    WriteEffect(img, k, data, size, stack);
    forall d | d in s.depth && d != k.parent
      ensures TableOf(img', d) == TableOf(img, d)
    {
      LiveParent(img, s, d);
      assert img'[d] == img[d];
    }
  }

  lemma WrittenFat(img: Image, s: Store, k: Key, data: seq<byte>, size: nat, stack: Stack)
    requires Writable(img, s, k, size) && 2048 * Needed(size) <= |data|
    requires OrdinaryParent(img, k, size)
    ensures FatAfterWrite(FatOf(img), FatOf(WriteImage(img, k, data, size, stack)), NewChain(img, size))
    ensures WriteImage(img, k, data, size, stack)[0] == img[0]
  {
    hide WriteImage, TableOf, FreeFrom, SIGNATURE, Inv, Link, FatOf, NewChain, ParentTable;
    WriteEffect(img, k, data, size, stack);
    NewChainFacts(img, size);
  }

  /** A successful write keeps the invariant and adds exactly the one item. */
  lemma WriteKeepsInvariant(img: Image, s: Store, k: Key, data: seq<byte>, size: nat, stack: Stack)
    requires Writable(img, s, k, size) && 2048 * Needed(size) <= |data|
    ensures OrdinaryParent(img, k, size) && k !in s.items
    ensures Inv(WriteImage(img, k, data, size, stack), AddItem(s, k, NewItem(img, k, size)))
  {
    NewItemFacts(img, s, k, size);
    hide WriteImage, TableOf, FreeFrom, SIGNATURE, Link, FatOf, NewChain, ParentTable, TablesAfterWrite,
      Chains, Owners, Partition, Reserved, Entries, Headers, FatAfterWrite, Matches, FreeSlot;
    var img', it := WriteImage(img, k, data, size, stack), NewItem(img, k, size);
    WrittenTables(img, s, k, data, size, stack);
    AddKeepsTree(s, k, it);
    AddKeepsEntries(img, img', s, k, it);
    AddKeepsHeaders(img, img', s, k, it);
    WrittenFat(img, s, k, data, size, stack);
    AddKeepsFat(FatOf(img), FatOf(img'), s, k, it);
  }
}
