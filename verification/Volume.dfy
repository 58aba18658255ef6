/**
  * What an image means: live files and directories, who owns which cluster,
  * and how deep each directory lies. The predicates below together are the
  * invariant that every completed driver operation keeps.
  */
module Volume {
  import opened Bytes
  import opened Layout
  import opened DiskImage
  import opened Allocation
  import opened IndexFile

  /** A live entry: its slot in the parent's table and its clusters. */
  datatype Item = Item(slot: nat, isDir: bool, chain: seq<word>)

  datatype Store = Store(items: map<Key, Item>, owner: map<word, Key>, depth: map<word, nat>)
  {
    ghost predicate IsEmptyDirectory(d: word) {
      forall k :: k in items ==> k.parent != d
    }
  }

  const EMPTY_STORE := Store(map[], map[], map[ROOT_CLUSTER := 0])

  function AddItem(s: Store, k: Key, it: Item): Store
    requires k.parent in s.depth && it.chain != []
  {
    Store(s.items[k := it],
          s.owner + (map c | c in it.chain :: k),
          if it.isDir then s.depth[it.chain[0] := s.depth[k.parent] + 1] else s.depth)
  }

  function RemoveItem(s: Store, k: Key): Store
    requires k in s.items && s.items[k].chain != []
  {
    var it := s.items[k];
    Store(s.items - {k},
          s.owner - (set c | c in it.chain),
          if it.isDir then s.depth - {it.chain[0]} else s.depth)
  }

  // ---- directory tables ----

  function TableOf(img: Image, c: word): Table
    requires c < 2048
  {
    DecodeTable(img[c])
  }

  function EntryFor(k: Key, isDir: bool, cluster: word): DirEntry {
    DirEntry(k.name, k.ext, if isDir then ATTR_SUBDIRECTORY else 0, 0, 1,
             Zeros(6), cluster / 0x1_0000, Zeros(4), cluster % 0x1_0000, 0)
  }

  /** init_directory_table on a zeroed table. */
  function InitTable(name: Name, parent: word): Table {
    seq(64, i => if i == 0
      then DirEntry(name, Zeros(3), ATTR_SUBDIRECTORY, 0, 0,
                    Zeros(6), parent / 0x1_0000, Zeros(4), parent % 0x1_0000, 0)
      else ZERO_ENTRY)
  }

  predicate Matches(e: DirEntry, name: Name, ext: Ext) {
    e.name == name && e.ext == ext
  }

  /** The first slot from i up with this name and extension, or 64. The undelete byte is not looked at. */
  function Lookup(t: Table, name: Name, ext: Ext, i: nat): (slot: nat)
    requires i <= 64
    ensures i <= slot <= 64
    ensures slot < 64 ==> Matches(t[slot], name, ext)
    ensures forall j :: i <= j < slot ==> !Matches(t[j], name, ext)
    decreases 64 - i
  {
    if i == 64 then 64
    else if Matches(t[i], name, ext) then i
    else Lookup(t, name, ext, i + 1)
  }

  /** The first slot from i up whose undelete byte is clear, or 64. */
  function FreeSlot(t: Table, i: nat): (slot: nat)
    requires i <= 64
    ensures i <= slot <= 64
    ensures slot < 64 ==> t[slot].undelete == 0
    ensures forall j :: i <= j < slot ==> t[j].undelete != 0
    decreases 64 - i
  {
    if i == 64 then 64
    else if t[i].undelete == 0 then i
    else FreeSlot(t, i + 1)
  }

  // ---- the invariant, part by part ----

  /** A name and extension of zero bytes only match every free slot. */
  predicate Nameable(k: Key) {
    k.name != Zeros(8) || k.ext != Zeros(3)
  }

  /** The slot of a live key, or 64. */
  ghost function SlotOf(s: Store, k: Key): nat {
    if k in s.items then s.items[k].slot else 64
  }

  /** No free slot that would match comes before the entry of the key. */
  ghost predicate Findable(img: Image, s: Store, k: Key) {
    k.parent < 2048 && (Nameable(k) || SlotOf(s, k) <= FreeSlot(TableOf(img, k.parent), 1))
  }

  /** Entries that are never allocated. Entry 3 is the index count. */
  ghost predicate Reserved(fat: Fat) {
    && fat[0] == CLUSTER_0_VALUE && fat[1] == CLUSTER_1_VALUE && fat[2] == END_OF_FILE
    && fat[4] == END_OF_FILE && fat[5] == END_OF_FILE && fat[6] == EMPTY_ENTRY && fat[7] == EMPTY_ENTRY
  }

  ghost predicate Chains(fat: Fat, s: Store) {
    forall k :: k in s.items ==> IsChain(fat, s.items[k].chain)
  }

  ghost predicate Owns(s: Store, k: Key, c: word) {
    c in s.owner && s.owner[c] == k
  }

  /** Chains are pairwise disjoint: a cluster has the one owner in whose chain it is. */
  ghost predicate Owners(s: Store) {
    && (forall k, c :: k in s.items && c in s.items[k].chain ==> Owns(s, k, c))
    && (forall c :: c in s.owner ==> s.owner[c] in s.items && c in s.items[s.owner[c]].chain)
  }

  /** Exactly the owned clusters are in use. */
  ghost predicate Partition(fat: Fat, s: Store) {
    && (forall c :: c in s.owner ==> FIRST_DATA_CLUSTER <= c < 512)
    && (forall c: word :: FIRST_DATA_CLUSTER <= c < 512 ==> (fat[c] != EMPTY_ENTRY <==> c in s.owner))
  }

  ghost predicate OwnedByDir(s: Store, d: word) {
    d in s.owner && s.owner[d] in s.items && s.items[s.owner[d]].isDir
  }

  ghost predicate DirsAreItems(s: Store) {
    forall d {:trigger OwnedByDir(s, d)} :: d in s.depth && d != ROOT_CLUSTER ==> OwnedByDir(s, d)
  }

  /** p holds the entry of directory d, one level up; the root is its own parent. */
  ghost predicate IsParent(s: Store, d: word, p: word)
    requires d in s.depth
  {
    if d == ROOT_CLUSTER then p == ROOT_CLUSTER
    else d in s.owner && p == s.owner[d].parent && p in s.depth && s.depth[d] == s.depth[p] + 1
  }

  ghost predicate ItemsLieInDirs(s: Store) {
    forall k :: k in s.items ==> k.parent in s.depth && 1 <= s.items[k].slot < 64
  }

  ghost predicate DirItem(s: Store, k: Key, it: Item)
    requires k.parent in s.depth
  {
    |it.chain| == 1 && it.chain[0] in s.depth && s.depth[it.chain[0]] == s.depth[k.parent] + 1
  }

  /** Every directory but the root is an item one deeper than its parent directory. */
  ghost predicate Tree(s: Store) {
    && ROOT_CLUSTER in s.depth && s.depth[ROOT_CLUSTER] == 0
    && DirsAreItems(s)
    && ItemsLieInDirs(s)
    && (forall k {:trigger DirItem(s, k, s.items[k])} :: k in s.items && s.items[k].isDir ==> DirItem(s, k, s.items[k]))
  }

  ghost predicate DirsInMap(s: Store) {
    forall d :: d in s.depth ==> d < 512
  }

  ghost predicate EntryOf(e: DirEntry, k: Key, it: Item) {
    it.chain != [] && e == EntryFor(k, it.isDir, it.chain[0])
  }

  ghost predicate SlotExplained(e: DirEntry, d: word, i: nat, s: Store) {
    e == ZERO_ENTRY || (Key(d, e.name, e.ext) in s.items && s.items[Key(d, e.name, e.ext)].slot == i)
  }

  /** Slots 1..63 of the live directories hold exactly the items, and zeros elsewhere. */
  ghost predicate Entries(img: Image, s: Store)
    requires DirsInMap(s) && Tree(s)
  {
    && (forall k {:trigger EntryOf(TableOf(img, k.parent)[s.items[k].slot], k, s.items[k])} ::
          k in s.items ==> EntryOf(TableOf(img, k.parent)[s.items[k].slot], k, s.items[k]))
    && (forall d, i {:trigger SlotExplained(TableOf(img, d)[i], d, i, s)} ::
          d in s.depth && 1 <= i < 64 ==> SlotExplained(TableOf(img, d)[i], d, i, s))
  }

  ghost predicate HeaderOf(e: DirEntry, k: Key) {
    e.name == k.name && e.ClusterNumber() == k.parent
  }

  /** Slot 0 marks a directory, names it and links back to its parent. */
  ghost predicate Headers(img: Image, s: Store)
    requires DirsInMap(s)
  {
    && (forall d :: d in s.depth ==> TableOf(img, d)[0].attribute == ATTR_SUBDIRECTORY)
    && (ROOT_CLUSTER in s.depth ==> TableOf(img, ROOT_CLUSTER)[0].ClusterNumber() == ROOT_CLUSTER)
    && (forall k {:trigger HeaderOf(TableOf(img, s.items[k].chain[0])[0], k)} ::
          k in s.items && s.items[k].isDir && s.items[k].chain != [] && s.items[k].chain[0] in s.depth ==>
            HeaderOf(TableOf(img, s.items[k].chain[0])[0], k))
  }

  ghost predicate FatMatches(fat: Fat, s: Store) {
    Reserved(fat) && Chains(fat, s) && Owners(s) && Partition(fat, s)
  }

  ghost predicate DirsMatch(img: Image, s: Store) {
    DirsInMap(s) && Tree(s) && Entries(img, s) && Headers(img, s)
  }

  /** fs_signature: five lines of text, zeros, and "Ok" at the end. */
  const SIGNATURE_0: seq<byte> :=
    [0x53, 0x74, 0x72, 0x65, 0x73, 0x73, 0x20, 0x54, 0x75, 0x62, 0x65, 0x73, 0x20, 0x20, 0x20, 0x20]
  const SIGNATURE_1: seq<byte> :=
    [0x7C, 0x7C, 0x20, 0x44, 0x45, 0x44, 0x20, 0x4F, 0x53, 0x20, 0x7C, 0x7C, 0x20, 0x20, 0x20, 0x20]
  const SIGNATURE_2: seq<byte> :=
    [0x7C, 0x7C, 0x20, 0x49, 0x53, 0x20, 0x44, 0x45, 0x44, 0x20, 0x7C, 0x7C, 0x20, 0x20, 0x20, 0x20]
  const SIGNATURE_3: seq<byte> :=
    [0x4D, 0x61, 0x64, 0x65, 0x20, 0x77, 0x69, 0x74, 0x68, 0x20, 0x50, 0x61, 0x69, 0x6E, 0x20, 0x20]
  const SIGNATURE_4: seq<byte> :=
    [0x2D, 0x2D, 0x2D, 0x2D, 0x2D, 0x2D, 0x2D, 0x2D, 0x2D, 0x2D, 0x2D, 0x3C, 0x2F, 0x33, 0x20, 0x0A]

  const SIGNATURE: seq<byte> :=
    SIGNATURE_0 + SIGNATURE_1 + SIGNATURE_2 + SIGNATURE_3 + SIGNATURE_4 + Zeros(430) + [0x4F, 0x6B]

  ghost predicate Inv(img: Image, s: Store) {
    && img[0][..512] == SIGNATURE
    && FatMatches(FatOf(img), s)
    && DirsMatch(img, s)
  }

  // ---- consequences ----

  /** A lookup in a live directory stops at the entry of the key or at a free slot. */
  lemma LookupStops(img: Image, s: Store, k: Key)
    requires DirsMatch(img, s) && k.parent in s.depth
    ensures
      var t := TableOf(img, k.parent);
      var i := Lookup(t, k.name, k.ext, 1);
      && i <= SlotOf(s, k)
      && (i == SlotOf(s, k) || (i < 64 && t[i] == ZERO_ENTRY))
      && (k in s.items ==> SlotOf(s, k) < 64 && t[SlotOf(s, k)] != ZERO_ENTRY)
  {
    hide TableOf, Headers;
    var t := TableOf(img, k.parent);
    var i := Lookup(t, k.name, k.ext, 1);
    if i < 64 && t[i] != ZERO_ENTRY {
      assert SlotExplained(t[i], k.parent, i, s);
      assert Key(k.parent, t[i].name, t[i].ext) == k;
    }
    if k in s.items {
      assert EntryOf(t[s.items[k].slot], k, s.items[k]);
      assert Matches(t[s.items[k].slot], k.name, k.ext);
    }
  }

  /** A slot of a live directory is in use exactly when it is not all zero. */
  lemma UsedSlot(img: Image, s: Store, d: word, i: nat)
    requires DirsMatch(img, s) && d in s.depth && 1 <= i < 64
    ensures TableOf(img, d)[i].undelete == 0 <==> TableOf(img, d)[i] == ZERO_ENTRY
  {
    var e := TableOf(img, d)[i];
    assert SlotExplained(e, d, i, s);
    if e != ZERO_ENTRY {
      var k := Key(d, e.name, e.ext);
      assert EntryOf(e, k, s.items[k]);
    }
  }

  lemma FreeSlotIsZero(img: Image, s: Store, d: word)
    requires DirsMatch(img, s) && d in s.depth && FreeSlot(TableOf(img, d), 1) < 64
    ensures TableOf(img, d)[FreeSlot(TableOf(img, d), 1)] == ZERO_ENTRY
  {
    UsedSlot(img, s, d, FreeSlot(TableOf(img, d), 1));
  }

  /**
    * A lookup in a live directory finds a key exactly when it is live, at its
    * slot, unless it meets a free slot first: exactly that goes wrong.
    */
  lemma LookupFindsIff(img: Image, s: Store, k: Key)
    requires DirsMatch(img, s) && k.parent in s.depth
    ensures Lookup(TableOf(img, k.parent), k.name, k.ext, 1) == SlotOf(s, k) <==> Findable(img, s, k)
  {
    LookupStops(img, s, k);
    var t := TableOf(img, k.parent);
    var i, free := Lookup(t, k.name, k.ext, 1), FreeSlot(t, 1);
    if free < 64 {
      FreeSlotIsZero(img, s, k.parent);
    }
    if k in s.items {
      UsedSlot(img, s, k.parent, s.items[k].slot);
    }
    hide TableOf, Entries, Headers, Tree;
    if !Nameable(k) && free < 64 {
      assert Matches(t[free], k.name, k.ext);
    }
  }

  lemma LookupFinds(img: Image, s: Store, k: Key)
    requires DirsMatch(img, s) && k.parent in s.depth && Findable(img, s, k)
    ensures Lookup(TableOf(img, k.parent), k.name, k.ext, 1) == SlotOf(s, k)
  {
    LookupFindsIff(img, s, k);
  }

  /** Ownership as counting: in clusters 8..511, free plus owned is always 504. */
  lemma FreePlusOwned(fat: Fat, s: Store)
    requires Partition(fat, s)
    ensures |FreeFrom(fat, FIRST_DATA_CLUSTER)| + |s.owner.Keys| == 504
  {
    FreePlusUsed(fat, FIRST_DATA_CLUSTER);
    assert UsedFrom(fat, FIRST_DATA_CLUSTER) == s.owner.Keys;
  }

  /** No two live entries share a cluster. */
  lemma ChainsDisjoint(s: Store, k: Key, k': Key, c: word)
    requires Owners(s) && k in s.items && k' in s.items
    requires c in s.items[k].chain && c in s.items[k'].chain
    ensures k == k'
  {
    assert Owns(s, k, c) && Owns(s, k', c);
  }
}
