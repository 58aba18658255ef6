/** What a completed delete does to an image, and when it keeps the invariant. */
module DeleteEffects {
  import opened Bytes
  import opened Layout
  import opened DiskImage
  import opened Allocation
  import opened IndexFile
  import opened Volume
  import opened WriteEffects
  import opened WriteInvariant

  const D_SUCCESS := 0
  const D_NOT_FOUND := 1
  const D_NOT_EMPTY := 2
  const D_UNKNOWN := -1

  /** The clusters reached from c along links that increase. */
  function Walk(fat: Fat, c: word): (chain: seq<word>)
    ensures InMap(chain)
    decreases 512 - c
  {
    if c >= 512 then []
    else if c < fat[c] < 512 then [c] + Walk(fat, fat[c])
    else [c]
  }

  lemma {:induction false} WalkFollowsChain(fat: Fat, chain: seq<word>, i: nat)
    requires IsChain(fat, chain) && i < |chain|
    ensures Walk(fat, chain[i]) == chain[i..]
    decreases |chain| - i
  {
    assert fat[chain[i]] == Next(chain, i);
    if i + 1 < |chain| {
      WalkFollowsChain(fat, chain, i + 1);
    }
  }

  /** The return code of delete. */
  function DeleteCode(img: Image, k: Key): int
    requires k.parent < 2048
  {
    var t := TableOf(img, k.parent);
    var i := Lookup(t, k.name, k.ext, 1);
    if t[0].attribute != ATTR_SUBDIRECTORY then D_UNKNOWN
    else if i == 64 then D_NOT_FOUND
    else if t[i].attribute == ATTR_SUBDIRECTORY && t[i].userAttribute == UATTR_NOT_EMPTY then D_NOT_EMPTY
    else D_SUCCESS
  }

  /** reset_entry leaves the user attribute and the times alone. */
  function ResetEntry(e: DirEntry): DirEntry {
    e.(name := Zeros(8), ext := Zeros(3), attribute := 0, undelete := 0, filesize := 0,
       clusterHigh := 0, clusterLow := 0)
  }

  function ClearChain(img: Image, chain: seq<word>): Image {
    seq(2048, c requires 0 <= c < 2048 => if c in chain then ZERO_CLUSTER else img[c])
  }

  function DeletedChain(img: Image, k: Key): (chain: seq<word>)
    requires k.parent < 2048 && DeleteCode(img, k) == D_SUCCESS
    ensures InMap(chain)
  {
    var t := TableOf(img, k.parent);
    Walk(FatOf(img), t[Lookup(t, k.name, k.ext, 1)].ClusterNumber())
  }

  function ClearedTable(img: Image, k: Key): Table
    requires k.parent < 2048 && DeleteCode(img, k) == D_SUCCESS
  {
    var t := TableOf(img, k.parent);
    var i := Lookup(t, k.name, k.ext, 1);
    t[i := ResetEntry(t[i])]
  }

  function DeleteImage(img: Image, k: Key, stack: Stack): Image
    requires k.parent < 2048 && DeleteCode(img, k) == D_SUCCESS && Count(img) <= CLUSTER_MAP_SIZE
  {
    var img1 := DeleteIndex(img, k, stack);
    var chain := DeletedChain(img, k);
    StoreTables(ClearChain(img1, chain), k.parent, ClearedTable(img, k), Unlink(FatOf(img1), chain))
  }

  /** Whatever the index holds, delete_index touches only it and its count. */
  lemma DeleteIndexFrame(img: Image, k: Key, stack: Stack)
    requires Count(img) <= CLUSTER_MAP_SIZE
    ensures forall c :: c == 0 || c == 2 || 6 <= c < 2048 ==> DeleteIndex(img, k, stack)[c] == img[c]
    ensures var fat := FatOf(DeleteIndex(img, k, stack)); fat == FatOf(img)[INDEX_CLUSTER := fat[INDEX_CLUSTER]]
  {
    var n, r := Count(img), LoadIndex(img, stack);
    if k in r[..n] {
      var fat: Fat := FatOf(img)[INDEX_CLUSTER := n - 1];
      Elsewhere(img, ShiftDown(r, Find(r[..n], k), n), fat);
    }
  }

  /** The whole effect of a successful delete on the image. */
  lemma DeleteEffect(img: Image, k: Key, stack: Stack)
    requires k.parent < 2048 && DeleteCode(img, k) == D_SUCCESS && Count(img) <= CLUSTER_MAP_SIZE
    requires (k.parent == ROOT_CLUSTER || FIRST_DATA_CLUSTER <= k.parent < 512) && k.parent !in DeletedChain(img, k)
    ensures
      var img', chain := DeleteImage(img, k, stack), DeletedChain(img, k);
      && FatOf(img') == Unlink(FatOf(DeleteIndex(img, k, stack)), chain)
      && TableOf(img', k.parent) == ClearedTable(img, k)
      && (forall c :: (c == 0 || c == 2 || 6 <= c < 2048) && c != k.parent && c !in chain ==> img'[c] == img[c])
      && (forall c :: c in chain && c != 1 ==> img'[c] == ZERO_CLUSTER)
  {
    hide TableOf, FatOf, DeletedChain, ClearedTable, DeleteIndex, StoreTables, DeleteCode, Unlink;
    var img1, chain := DeleteIndex(img, k, stack), DeletedChain(img, k);
    DeleteIndexFrame(img, k, stack);
    StoredTables(ClearChain(img1, chain), k.parent, ClearedTable(img, k), Unlink(FatOf(img1), chain));
  }

  // ---- the invariant ----

  /** The map before and after: one chain released, perhaps a new count. */
  ghost predicate FatAfterDelete(fat: Fat, fat': Fat, chain: seq<word>) {
    forall c :: 0 <= c < 512 && c != INDEX_CLUSTER ==> fat'[c] == if c in chain then EMPTY_ENTRY else fat[c]
  }

  lemma RemoveKeepsPartition(fat: Fat, fat': Fat, s: Store, k: Key)
    requires Partition(fat, s) && k in s.items && s.items[k].chain != [] && FatAfterDelete(fat, fat', s.items[k].chain)
    ensures Partition(fat', RemoveItem(s, k))
  {
  }

  lemma RemoveKeepsOwners(s: Store, k: Key)
    requires Owners(s) && k in s.items && s.items[k].chain != []
    ensures Owners(RemoveItem(s, k))
  {
    var s' := RemoveItem(s, k);
    forall k', c | k' in s'.items && c in s'.items[k'].chain
      ensures Owns(s', k', c)
    {
      assert Owns(s, k', c);
      assert c in s.items[k].chain ==> Owns(s, k, c);
    }
    forall c | c in s'.owner
      ensures s'.owner[c] in s'.items && c in s'.items[s'.owner[c]].chain
    {
      assert s.owner[c] != k;
    }
  }

  lemma RemoveKeepsChains(fat: Fat, fat': Fat, s: Store, k: Key)
    requires Chains(fat, s) && Owners(s) && k in s.items && s.items[k].chain != []
    requires FatAfterDelete(fat, fat', s.items[k].chain)
    ensures Chains(fat', RemoveItem(s, k))
  {
    var s' := RemoveItem(s, k);
    forall k' | k' in s'.items
      ensures IsChain(fat', s'.items[k'].chain)
    {
      assert IsChain(fat, s.items[k'].chain);
      forall c | c in s.items[k'].chain
        ensures c !in s.items[k].chain
      {
        assert Owns(s, k', c);
        assert c in s.items[k].chain ==> Owns(s, k, c);
      }
      OldChainKept(fat, fat', s.items[k'].chain, s.items[k].chain);
    }
  }

  lemma RemoveKeepsFat(fat: Fat, fat': Fat, s: Store, k: Key)
    requires FatMatches(fat, s) && k in s.items && FatAfterDelete(fat, fat', s.items[k].chain)
    ensures IsChain(fat, s.items[k].chain)
    ensures FatMatches(fat', RemoveItem(s, k))
  {
    assert IsChain(fat, s.items[k].chain);
    assert forall c :: c in s.items[k].chain ==> FIRST_DATA_CLUSTER <= c;
    RemoveKeepsChains(fat, fat', s, k);
    RemoveKeepsOwners(s, k);
    RemoveKeepsPartition(fat, fat', s, k);
  }

  /** Either a file, or a directory that no live entry names as its parent. */
  ghost predicate Removable(s: Store, k: Key)
    requires k in s.items
  {
    s.items[k].isDir && s.items[k].chain != [] ==> s.IsEmptyDirectory(s.items[k].chain[0])
  }

  lemma RemoveKeepsDirs(s: Store, k: Key)
    requires Owners(s) && DirsAreItems(s) && k in s.items && s.items[k].chain != []
    requires s.items[k].isDir ==> |s.items[k].chain| == 1
    ensures DirsAreItems(RemoveItem(s, k))
  {
    var s', it := RemoveItem(s, k), s.items[k];
    forall d | d in s'.depth && d != ROOT_CLUSTER
      ensures OwnedByDir(s', d)
    {
      assert OwnedByDir(s, d);
      assert d in it.chain ==> Owns(s, k, d);
    }
  }

  lemma RemoveKeepsDirItem(s: Store, k: Key, k': Key)
    requires Owners(s) && Tree(s) && k in s.items && s.items[k].chain != [] && Removable(s, k)
    requires k' in s.items && k' != k && s.items[k'].isDir && k'.parent in RemoveItem(s, k).depth
    ensures DirItem(RemoveItem(s, k), k', s.items[k'])
  {
    assert DirItem(s, k', s.items[k']);
    var it, c := s.items[k], s.items[k'].chain[0];
    assert c in s.items[k'].chain && it.chain[0] in it.chain;
    assert Owns(s, k', c) && Owns(s, k, it.chain[0]);
  }

  lemma RemoveKeepsTree(s: Store, k: Key)
    requires Owners(s) && Tree(s) && k in s.items && s.items[k].chain != []
    requires Removable(s, k) && ROOT_CLUSTER !in s.owner
    ensures Tree(RemoveItem(s, k))
  {
    var s', it := RemoveItem(s, k), s.items[k];
    assert it.isDir ==> DirItem(s, k, it);
    assert it.chain[0] in it.chain;
    assert Owns(s, k, it.chain[0]);
    RemoveKeepsDirs(s, k);
    forall k' | k' in s'.items && s'.items[k'].isDir
      ensures DirItem(s', k', s'.items[k'])
    {
      RemoveKeepsDirItem(s, k, k');
    }
  }

  /** The tree survives exactly when the removed item is a file or an empty directory. */
  lemma {:induction false} RemoveKeepsTreeIff(s: Store, k: Key)
    requires Owners(s) && Tree(s) && DirsInMap(s) && k in s.items && s.items[k].chain != []
    requires ROOT_CLUSTER !in s.owner
    ensures Tree(RemoveItem(s, k)) <==> Removable(s, k)
    ensures DirsInMap(RemoveItem(s, k))
  {
    var s', it := RemoveItem(s, k), s.items[k];
    assert it.chain[0] in it.chain;
    assert Owns(s, k, it.chain[0]);
    if Removable(s, k) {
      RemoveKeepsTree(s, k);
    } else {
      var child :| child in s.items && child.parent == it.chain[0];
      assert DirItem(s, k, it);
      assert child in s'.items && child.parent !in s'.depth;
    }
  }

  ghost predicate TablesAfterDelete(img: Image, img': Image, s: Store, k: Key)
    requires DirsInMap(s) && k.parent in s.depth && k in s.items && 1 <= s.items[k].slot < 64 && s.items[k].chain != []
  {
    && TableOf(img', k.parent) == TableOf(img, k.parent)[s.items[k].slot := ZERO_ENTRY]
    && forall d :: d in RemoveItem(s, k).depth && d != k.parent ==> TableOf(img', d) == TableOf(img, d)
  }

  lemma RemoveKeepsItemEntry(img: Image, img': Image, s: Store, k: Key, k': Key)
    requires DirsInMap(s) && Tree(s) && Entries(img, s) && k in s.items && s.items[k].chain != []
    requires TablesAfterDelete(img, img', s, k)
    requires k' in s.items && k' != k && k'.parent in RemoveItem(s, k).depth
    ensures EntryOf(TableOf(img', k'.parent)[s.items[k'].slot], k', s.items[k'])
  {
    hide TableOf, SlotExplained, DirsAreItems;
    assert EntryOf(TableOf(img, k'.parent)[s.items[k'].slot], k', s.items[k']);
    assert EntryOf(TableOf(img, k.parent)[s.items[k].slot], k, s.items[k]);
  }

  lemma RemoveKeepsSlot(img: Image, img': Image, s: Store, k: Key, d: word, i: nat)
    requires DirsInMap(s) && Tree(s) && Entries(img, s) && k in s.items && s.items[k].chain != []
    requires TablesAfterDelete(img, img', s, k)
    requires d in RemoveItem(s, k).depth && 1 <= i < 64 && d < 512
    ensures SlotExplained(TableOf(img', d)[i], d, i, RemoveItem(s, k))
  {
    hide TableOf, EntryFor, DirsAreItems;
    assert d in s.depth;
    assert SlotExplained(TableOf(img, d)[i], d, i, s);
  }

  lemma RemoveKeepsEntries(img: Image, img': Image, s: Store, k: Key)
    requires DirsInMap(s) && Tree(s) && Entries(img, s) && k in s.items && s.items[k].chain != []
    requires TablesAfterDelete(img, img', s, k)
    requires Tree(RemoveItem(s, k)) && DirsInMap(RemoveItem(s, k))
    ensures Entries(img', RemoveItem(s, k))
  {
    hide TableOf, EntryFor;
    var s' := RemoveItem(s, k);
    forall k' | k' in s'.items
      ensures EntryOf(TableOf(img', k'.parent)[s'.items[k'].slot], k', s'.items[k'])
    {
      RemoveKeepsItemEntry(img, img', s, k, k');
    }
    forall d, i | d in s'.depth && 1 <= i < 64
      ensures SlotExplained(TableOf(img', d)[i], d, i, s')
    {
      RemoveKeepsSlot(img, img', s, k, d, i);
    }
  }

  lemma RemoveKeepsHeaders(img: Image, img': Image, s: Store, k: Key)
    requires DirsInMap(s) && Tree(s) && Headers(img, s) && k in s.items && s.items[k].chain != []
    requires TablesAfterDelete(img, img', s, k)
    requires Tree(RemoveItem(s, k)) && DirsInMap(RemoveItem(s, k))
    ensures Headers(img', RemoveItem(s, k))
  {
    hide TableOf, EntryFor, DirEntry.ClusterNumber, DirsAreItems;
    var s' := RemoveItem(s, k);
    forall d | d in s'.depth
      ensures TableOf(img', d)[0] == TableOf(img, d)[0]
    {
    }
    forall k' | k' in s'.items && s'.items[k'].isDir && s'.items[k'].chain != [] && s'.items[k'].chain[0] in s'.depth
      ensures HeaderOf(TableOf(img', s'.items[k'].chain[0])[0], k')
    {
      assert DirItem(s', k', s'.items[k']) && DirItem(s, k', s.items[k']);
      assert HeaderOf(TableOf(img, s.items[k'].chain[0])[0], k');
    }
  }

  // ---- the delete itself ----

  /** A reset entry is a zero entry: writes never set what reset_entry leaves. */
  lemma ResetIsZero(k: Key, isDir: bool, cluster: word)
    ensures ResetEntry(EntryFor(k, isDir, cluster)) == ZERO_ENTRY
  {
  }

  /**
    * In a live directory, delete finds exactly the live keys. It never reports
    * a directory as not empty: the flag it tests is set in another entry.
    */
  lemma {:induction false} DeleteCodeIff(img: Image, s: Store, k: Key)
    requires Inv(img, s) && k.parent in s.depth && Findable(img, s, k)
    ensures DeleteCode(img, k) == if k in s.items then D_SUCCESS else D_NOT_FOUND
  {
    LookupFinds(img, s, k);
    assert k in s.items ==> EntryOf(TableOf(img, k.parent)[s.items[k].slot], k, s.items[k]);
  }

  ghost predicate Deletable(img: Image, s: Store, k: Key) {
    Inv(img, s) && k in s.items && Findable(img, s, k) && Count(img) <= CLUSTER_MAP_SIZE
  }

  lemma DeletedItem(img: Image, s: Store, k: Key)
    requires Deletable(img, s, k)
    ensures DeleteCode(img, k) == D_SUCCESS
    ensures DeletedChain(img, k) == s.items[k].chain && IsChain(FatOf(img), s.items[k].chain)
    ensures ClearedTable(img, k) == TableOf(img, k.parent)[s.items[k].slot := ZERO_ENTRY]
  {
    var it := s.items[k];
    DeleteCodeIff(img, s, k);
    LookupFinds(img, s, k);
    assert EntryOf(TableOf(img, k.parent)[it.slot], k, it);
    assert IsChain(FatOf(img), it.chain);
    WalkFollowsChain(FatOf(img), it.chain, 0);
    ResetIsZero(k, it.isDir, it.chain[0]);
    assert TableOf(img, k.parent)[it.slot].ClusterNumber() == it.chain[0];
    assert it.chain[0..] == it.chain;
  }

  /** A directory's own cluster is in nobody else's chain, nor in that of an entry it holds. */
  lemma DirectoryNotInChain(img: Image, s: Store, d: word, k: Key)
    requires Inv(img, s) && d in s.depth && k in s.items && d in s.items[k].chain
    ensures s.items[k].isDir && s.items[k].chain == [d] && d != k.parent && d != ROOT_CLUSTER
  {
    hide TableOf, FatOf, Entries, Headers, Chains, SIGNATURE;
    assert Owns(s, k, d);
    assert OwnedByDir(s, d);
    assert DirItem(s, k, s.items[k]);
  }

  lemma ParentSurvives(img: Image, s: Store, k: Key)
    requires Deletable(img, s, k)
    ensures DeleteCode(img, k) == D_SUCCESS && DeletedChain(img, k) == s.items[k].chain && s.items[k].chain != []
    ensures k.parent in s.depth && (k.parent == ROOT_CLUSTER || FIRST_DATA_CLUSTER <= k.parent < 512)
    ensures k.parent !in s.items[k].chain
  {
    DeletedItem(img, s, k);
    LiveParent(img, s, k.parent);
    if k.parent in s.items[k].chain {
      DirectoryNotInChain(img, s, k.parent, k);
    }
  }

  lemma UnlinkAfter(fat: Fat, fat1: Fat, chain: seq<word>)
    requires fat1 == fat[INDEX_CLUSTER := fat1[INDEX_CLUSTER]]
    ensures FatAfterDelete(fat, Unlink(fat1, chain), chain)
  {
  }

  lemma OwnedAreData(fat: Fat, s: Store, k: Key)
    requires FatMatches(fat, s) && k in s.items
    ensures forall c :: c in s.items[k].chain ==> FIRST_DATA_CLUSTER <= c < 512
  {
    assert forall c :: c in s.items[k].chain ==> Owns(s, k, c);
  }

  /** What a live entry has to do with the delete of it. */
  lemma DeletableFacts(img: Image, s: Store, k: Key)
    requires Deletable(img, s, k)
    ensures k.parent == ROOT_CLUSTER || FIRST_DATA_CLUSTER <= k.parent < 512
    ensures Count(img) <= CLUSTER_MAP_SIZE && DeleteCode(img, k) == D_SUCCESS && 1 <= s.items[k].slot < 64
    ensures DeletedChain(img, k) == s.items[k].chain && k.parent !in s.items[k].chain
    ensures ClearedTable(img, k) == TableOf(img, k.parent)[s.items[k].slot := ZERO_ENTRY]
    ensures forall c :: c in s.items[k].chain ==> FIRST_DATA_CLUSTER <= c < 512
  {
    hide TableOf, FatOf, ClearedTable, DeletedChain, Findable, DeleteCode, Entries, Headers, SIGNATURE;
    DeletedItem(img, s, k);
    ParentSurvives(img, s, k);
    OwnedAreData(FatOf(img), s, k);
  }

  lemma DeletedFat(img: Image, s: Store, k: Key, stack: Stack)
    requires Deletable(img, s, k)
    ensures DeleteCode(img, k) == D_SUCCESS
    ensures FatAfterDelete(FatOf(img), FatOf(DeleteImage(img, k, stack)), s.items[k].chain)
    ensures DeleteImage(img, k, stack)[0] == img[0]
  {
    ParentSurvives(img, s, k);
    OwnedAreData(FatOf(img), s, k);
    hide Inv, TableOf, FatOf, ClearedTable, DeletedChain, DeleteIndex, DeleteCode, DeleteImage, Unlink;
    DeleteEffect(img, k, stack);
    DeleteIndexFrame(img, k, stack);
    UnlinkAfter(FatOf(img), FatOf(DeleteIndex(img, k, stack)), s.items[k].chain);
  }

  lemma DeletedTables(img: Image, s: Store, k: Key, stack: Stack)
    requires Deletable(img, s, k)
    ensures DeleteCode(img, k) == D_SUCCESS
    ensures s.items[k].chain != []
    ensures TablesAfterDelete(img, DeleteImage(img, k, stack), s, k)
  {
    ParentSurvives(img, s, k);
    DeletedItem(img, s, k);
    hide DeleteImage, DecodeTable, EncodeTable, FatOf, ClearedTable, DeletedChain, DeleteIndex, DeleteCode,
      Entries, Headers, Chains, SIGNATURE;
    var img', chain := DeleteImage(img, k, stack), s.items[k].chain;
    DeleteEffect(img, k, stack);
    forall d | d in RemoveItem(s, k).depth && d != k.parent
      ensures TableOf(img', d) == TableOf(img, d)
    {
      LiveParent(img, s, d);
      if d in chain {
        DirectoryNotInChain(img, s, d, k);
      }
      assert img'[d] == img[d];
    }
  }

  /**
    * A successful delete removes exactly the one item, and keeps the invariant
    * exactly when it is a file or a directory without live entries.
    */
  lemma DeleteKeepsInvariantIff(img: Image, s: Store, k: Key, stack: Stack)
    requires Deletable(img, s, k)
    ensures DeleteCode(img, k) == D_SUCCESS
    ensures s.items[k].chain != []
    ensures Inv(DeleteImage(img, k, stack), RemoveItem(s, k)) <==> Removable(s, k)
  {
    DeletedTables(img, s, k, stack);
    DeletedFat(img, s, k, stack);
    var img' := DeleteImage(img, k, stack);
    hide DeleteImage, TableOf, FatOf, TablesAfterDelete, FatAfterDelete, DeleteCode, Entries, Headers, Chains,
      SIGNATURE;
    RemoveKeepsFat(FatOf(img), FatOf(img'), s, k);
    RemoveKeepsTreeIff(s, k);
    if Removable(s, k) {
      RemoveKeepsEntries(img, img', s, k);
      RemoveKeepsHeaders(img, img', s, k);
    }
  }
}
