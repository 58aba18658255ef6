/**
  * The store is a function of the image: at most one store satisfies the
  * invariant. So "some store satisfies it" is a statement about the disk
  * alone, and deleting a non-empty directory falsifies it.
  */
module Uniqueness {
  import opened Bytes
  import opened Layout
  import opened DiskImage
  import opened Allocation
  import opened IndexFile
  import opened Volume
  import opened DeleteEffects

  lemma EntryDeterminesItem(e: DirEntry, k: Key, it: Item, it': Item)
    requires EntryOf(e, k, it) && EntryOf(e, k, it')
    ensures it.isDir == it'.isDir && it.chain[0] == it'.chain[0]
  {
    assert e.ClusterNumber() == it.chain[0] && e.ClusterNumber() == it'.chain[0];
  }

  /** A live entry of one store, seen from another store that knows the directory. */
  lemma SharedEntry(img: Image, img': Image, s: Store, s': Store, k: Key)
    requires DirsMatch(img, s) && DirsMatch(img', s') && k in s.items && k.parent in s'.depth
    requires TableOf(img', k.parent)[s.items[k].slot] == TableOf(img, k.parent)[s.items[k].slot]
    ensures k in s'.items && s'.items[k].slot == s.items[k].slot && s'.items[k].isDir == s.items[k].isDir
    ensures s.items[k].chain != [] && s'.items[k].chain != [] && s'.items[k].chain[0] == s.items[k].chain[0]
  {
    hide TableOf, Headers;
    var i := s.items[k].slot;
    var e := TableOf(img, k.parent)[i];
    assert EntryOf(e, k, s.items[k]);
    assert SlotExplained(TableOf(img', k.parent)[i], k.parent, i, s');
    assert EntryOf(TableOf(img', k.parent)[i], k, s'.items[k]);
    EntryDeterminesItem(e, k, s.items[k], s'.items[k]);
  }

  /** The item behind a live directory. */
  lemma DirectoryItem(img: Image, s: Store, d: word)
    requires Inv(img, s) && d in s.depth && d != ROOT_CLUSTER
    ensures d in s.owner && s.owner[d] in s.items && s.items[s.owner[d]].isDir
    ensures s.items[s.owner[d]].chain == [d] && s.owner[d].parent in s.depth
    ensures s.depth[d] == s.depth[s.owner[d].parent] + 1
  {
    hide TableOf, SIGNATURE, Entries, Headers, FatOf, Chains, Partition;
    assert OwnedByDir(s, d);
    assert DirItem(s, s.owner[d], s.items[s.owner[d]]);
  }

  lemma {:induction false} SameDirectories(img: Image, s: Store, s': Store, d: word)
    requires Inv(img, s) && Inv(img, s') && d in s.depth
    ensures d in s'.depth && s'.depth[d] == s.depth[d]
    decreases s.depth[d]
  {
    hide TableOf, SIGNATURE, Entries, Headers, FatOf, Chains, Partition;
    if d != ROOT_CLUSTER {
      DirectoryItem(img, s, d);
      var k := s.owner[d];
      SameDirectories(img, s, s', k.parent);
      SharedEntry(img, img, s, s', k);
      assert DirItem(s', k, s'.items[k]);
    }
  }

  lemma SameChain(fat: Fat, chain: seq<word>, chain': seq<word>)
    requires IsChain(fat, chain) && IsChain(fat, chain') && chain[0] == chain'[0]
    ensures chain == chain'
  {
    WalkFollowsChain(fat, chain, 0);
    WalkFollowsChain(fat, chain', 0);
    assert chain[0..] == chain && chain'[0..] == chain';
  }

  lemma SameItem(img: Image, s: Store, s': Store, k: Key)
    requires Inv(img, s) && Inv(img, s') && k in s.items
    ensures k in s'.items && s'.items[k] == s.items[k]
  {
    SameDirectories(img, s, s', k.parent);
    SharedEntry(img, img, s, s', k);
    SameChain(FatOf(img), s.items[k].chain, s'.items[k].chain);
  }

  lemma SameOwner(img: Image, s: Store, s': Store, c: word)
    requires Inv(img, s) && Inv(img, s') && c in s.owner
    ensures c in s'.owner && s'.owner[c] == s.owner[c]
  {
    hide TableOf, SIGNATURE, Entries, Headers, FatOf, Chains;
    var k := s.owner[c];
    SameItem(img, s, s', k);
    assert Owns(s', k, c);
  }

  /** No image has two meanings. */
  lemma {:induction false} StoreIsUnique(img: Image, s: Store, s': Store)
    requires Inv(img, s) && Inv(img, s')
    ensures s == s'
  {
    hide Inv;
    forall k | k in s.items || k in s'.items
      ensures k in s.items && k in s'.items && s.items[k] == s'.items[k]
    {
      if k in s.items {
        SameItem(img, s, s', k);
      } else {
        SameItem(img, s', s, k);
      }
    }
    assert s.items == s'.items;
    forall c | c in s.owner || c in s'.owner
      ensures c in s.owner && c in s'.owner && s.owner[c] == s'.owner[c]
    {
      if c in s.owner {
        SameOwner(img, s, s', c);
      } else {
        SameOwner(img, s', s, c);
      }
    }
    assert s.owner == s'.owner;
    forall d | d in s.depth || d in s'.depth
      ensures d in s.depth && d in s'.depth && s.depth[d] == s'.depth[d]
    {
      if d in s.depth {
        SameDirectories(img, s, s', d);
      } else {
        SameDirectories(img, s', s, d);
      }
    }
    assert s.depth == s'.depth;
  }

  // ---- deleting a directory that is not empty ----

  /** img' is img after the live directory k was deleted, and s' is some store of img'. */
  ghost predicate AfterDelete(img: Image, s: Store, k: Key, img': Image, s': Store) {
    && Inv(img, s) && Inv(img', s')
    && k in s.items && s.items[k].isDir && DirItem(s, k, s.items[k]) && k.parent !in s.items[k].chain
    && TablesAfterDelete(img, img', s, k)
    && FatAfterDelete(FatOf(img), FatOf(img'), s.items[k].chain)
  }

  lemma UsedEntry(e: DirEntry, k: Key, it: Item)
    requires EntryOf(e, k, it)
    ensures e != ZERO_ENTRY && e.name == k.name && e.ext == k.ext
  {
  }

  lemma SlotWasThere(img: Image, s: Store, k: Key, img': Image, s': Store, k': Key)
    requires AfterDelete(img, s, k, img', s') && k' in s'.items
    requires k'.parent in s.depth && k'.parent !in s.items[k].chain
    ensures k' != k
    ensures TableOf(img', k'.parent)[s'.items[k'].slot] == TableOf(img, k'.parent)[s'.items[k'].slot]
  {
    hide TableOf, SIGNATURE, Headers, FatMatches, FatAfterDelete, FatOf, EntryFor, DirsAreItems;
    var i := s'.items[k'].slot;
    var e := TableOf(img', k'.parent)[i];
    assert EntryOf(e, k', s'.items[k']);
    UsedEntry(e, k', s'.items[k']);
    assert k'.parent == k.parent ==> i != s.items[k].slot;
    assert e == TableOf(img, k'.parent)[i];
    assert SlotExplained(e, k'.parent, i, s);
  }

  /** An entry some store of the later image explains was an entry before. */
  lemma NoNewItem(img: Image, s: Store, k: Key, img': Image, s': Store, k': Key)
    requires AfterDelete(img, s, k, img', s') && k' in s'.items
    requires k'.parent in s.depth && k'.parent !in s.items[k].chain
    ensures k' in s.items && k' != k && s.items[k'].isDir == s'.items[k'].isDir
    ensures s.items[k'].chain != [] && s'.items[k'].chain != [] && s.items[k'].chain[0] == s'.items[k'].chain[0]
  {
    SlotWasThere(img, s, k, img', s', k');
    hide TableOf, SIGNATURE, Entries, Headers, FatMatches, TablesAfterDelete, FatAfterDelete;
    SharedEntry(img', img, s', s, k');
  }

  lemma OtherDirectory(img: Image, s: Store, k: Key, k': Key)
    requires Inv(img, s) && k in s.items && k' in s.items && k' != k && s.items[k'].isDir && s.items[k'].chain != []
    ensures s.items[k'].chain[0] in s.depth && s.items[k'].chain[0] !in s.items[k].chain
  {
    hide TableOf, SIGNATURE, Entries, Headers, FatOf, Chains;
    var d := s.items[k'].chain[0];
    assert DirItem(s, k', s.items[k']);
    assert Owns(s, k', d);
    assert d in s.items[k].chain ==> Owns(s, k, d);
  }

  lemma RootIsFree(img: Image, s: Store, k: Key)
    requires Inv(img, s) && k in s.items
    ensures ROOT_CLUSTER in s.depth && ROOT_CLUSTER !in s.items[k].chain
  {
    hide TableOf, SIGNATURE, Entries, Headers, FatOf, Chains;
    assert ROOT_CLUSTER in s.items[k].chain ==> Owns(s, k, ROOT_CLUSTER);
  }

  /** Any store of the later image knows only old directories, and not the deleted one. */
  lemma {:induction false} NoNewDirectories(img: Image, s: Store, k: Key, img': Image, s': Store, d: word)
    requires AfterDelete(img, s, k, img', s') && d in s'.depth
    ensures d in s.depth && d !in s.items[k].chain
    decreases s'.depth[d]
  {
    hide Inv, DirItem, TablesAfterDelete, FatAfterDelete;
    if d == ROOT_CLUSTER {
      RootIsFree(img, s, k);
    } else {
      DirectoryItem(img', s', d);
      var k' := s'.owner[d];
      NoNewDirectories(img, s, k, img', s', k'.parent);
      NoNewItem(img, s, k, img', s', k');
      OtherDirectory(img, s, k, k');
    }
  }

  lemma ItemLiesInDir(img: Image, s: Store, k: Key)
    requires Inv(img, s) && k in s.items
    ensures k.parent in s.depth
  {
  }

  lemma ChainsAfter(img: Image, s: Store, k: Key, img': Image, s': Store)
    requires AfterDelete(img, s, k, img', s')
    ensures s.items[k].chain != [] && Chains(FatOf(img'), RemoveItem(s, k)) && Chains(FatOf(img'), s')
  {
    hide TableOf, SIGNATURE, DirsMatch, TablesAfterDelete, FatAfterDelete, FatOf, Chains, Owners, Partition, Reserved;
    RemoveKeepsChains(FatOf(img), FatOf(img'), s, k);
  }

  lemma SurvivingChain(fat: Fat, s: Store, s': Store, k: Key)
    requires Chains(fat, s) && Chains(fat, s') && k in s.items && k in s'.items
    requires s.items[k].chain != [] && s'.items[k].chain != [] && s.items[k].chain[0] == s'.items[k].chain[0]
    ensures s.items[k].chain == s'.items[k].chain
  {
    SameChain(fat, s.items[k].chain, s'.items[k].chain);
  }

  /** The chain of a surviving item is the same in both stores. */
  lemma ChainSurvives(img: Image, s: Store, k: Key, img': Image, s': Store, k': Key)
    requires AfterDelete(img, s, k, img', s') && k' in s'.items
    ensures k' in s.items && k' != k && s.items[k'].chain == s'.items[k'].chain
    ensures k'.parent !in s.items[k].chain
  {
    hide Inv, TablesAfterDelete, FatAfterDelete, FatOf, Chains, DirItem;
    ItemLiesInDir(img', s', k');
    NoNewDirectories(img, s, k, img', s', k'.parent);
    NoNewItem(img, s, k, img', s', k');
    ChainsAfter(img, s, k, img', s');
    SurvivingChain(FatOf(img'), RemoveItem(s, k), s', k');
  }

  lemma InUse(img: Image, s: Store, k: Key)
    requires Inv(img, s) && k in s.items
    ensures s.items[k].chain != [] && FIRST_DATA_CLUSTER <= s.items[k].chain[0] < 512
    ensures s.items[k].chain[0] in s.items[k].chain && FatOf(img)[s.items[k].chain[0]] != EMPTY_ENTRY
  {
    assert IsChain(FatOf(img), s.items[k].chain);
    assert Owns(s, k, s.items[k].chain[0]);
  }

  lemma StillInUse(img: Image, s: Store, k: Key, img': Image, s': Store, child: Key)
    requires AfterDelete(img, s, k, img', s') && child in s.items && child != k
    requires s.items[child].chain != []
    ensures
      var e := s.items[child].chain[0];
      e in s'.owner && s'.owner[e] in s'.items && e in s'.items[s'.owner[e]].chain
  {
    InUse(img, s, child);
    hide TableOf, SIGNATURE, DirsMatch, TablesAfterDelete, FatOf, Chains;
    var e := s.items[child].chain[0];
    assert Owns(s, child, e);
    assert e in s.items[k].chain ==> Owns(s, k, e);
  }

  /**
    * If the later image has a store, then no live entry named the deleted
    * directory as its parent: its first cluster would be in use without an owner.
    */
  lemma NobodyOrphaned(img: Image, s: Store, k: Key, img': Image, s': Store, child: Key)
    requires AfterDelete(img, s, k, img', s') && child in s.items
    ensures child.parent !in s.items[k].chain
  {
    if child != k {
      InUse(img, s, child);
      var e := s.items[child].chain[0];
      StillInUse(img, s, k, img', s', child);
      var y := s'.owner[e];
      ChainSurvives(img, s, k, img', s', y);
      ChainsDisjoint(s, y, child, e);
    }
  }

  lemma DeletedDirectory(img: Image, s: Store, k: Key, stack: Stack, s': Store)
    requires Deletable(img, s, k) && s.items[k].isDir && DeleteCode(img, k) == D_SUCCESS
    requires Inv(DeleteImage(img, k, stack), s')
    ensures AfterDelete(img, s, k, DeleteImage(img, k, stack), s')
  {
    ParentSurvives(img, s, k);
    DeletedTables(img, s, k, stack);
    DeletedFat(img, s, k, stack);
    assert DirItem(s, k, s.items[k]);
  }

  /**
    * After a successful delete the image still has a meaning exactly when the
    * deleted entry was a file or an empty directory: the return code never
    * protects a non-empty one.
    */
  lemma MeaningSurvivesDeleteIff(img: Image, s: Store, k: Key, stack: Stack)
    requires Deletable(img, s, k)
    ensures DeleteCode(img, k) == D_SUCCESS
    ensures (exists s' :: Inv(DeleteImage(img, k, stack), s')) <==> Removable(s, k)
  {
    DeleteKeepsInvariantIff(img, s, k, stack);
    if s' :| Inv(DeleteImage(img, k, stack), s') {
      if s.items[k].isDir {
        DeletedDirectory(img, s, k, stack, s');
        forall child | child in s.items
          ensures child.parent != s.items[k].chain[0]
        {
          NobodyOrphaned(img, s, k, DeleteImage(img, k, stack), s', child);
        }
      }
    }
  }
}
