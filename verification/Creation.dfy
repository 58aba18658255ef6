/** The image a new file system leaves, and what the space check misses. */
module Creation {
  import opened Bytes
  import opened Layout
  import opened DiskImage
  import opened Allocation
  import opened IndexFile
  import opened Volume
  import opened WriteEffects
  import opened WriteInvariant

  /** "root" and "dir" */
  const ROOT_NAME: Name := [0x72, 0x6F, 0x6F, 0x74, 0, 0, 0, 0]
  const DIR_EXT: Ext := [0x64, 0x69, 0x72]

  /** The table create_fat32 stores: three reserved entries. */
  function BlankFat(): Fat {
    seq<word>(512, _ => 0)[0 := CLUSTER_0_VALUE][1 := CLUSTER_1_VALUE][2 := END_OF_FILE]
  }

  function WithIndex(fat: Fat): Fat {
    fat[INDEX_CLUSTER := 0][4 := END_OF_FILE][5 := END_OF_FILE]
  }

  /** The table after init_index_file: count 0, and two further reserved clusters. */
  function NewFat(): Fat {
    WithIndex(BlankFat())
  }

  function RootTable(): Table {
    var t := InitTable(ROOT_NAME, ROOT_CLUSTER);
    t[0 := t[0].(ext := DIR_EXT)]
  }

  /** Clusters 0 to 2 are written; the rest of the medium keeps what it held. */
  function CreatedImage(img: Image): Image {
    img[0 := SIGNATURE + img[0][512..]][1 := EncodeFat(NewFat())][2 := EncodeTable(RootTable())]
  }

  /** is_empty_storage */
  predicate IsEmptyStorage(img: Image) {
    img[0][..512] != SIGNATURE
  }

  lemma CreatedParts(img: Image)
    ensures FatOf(CreatedImage(img)) == NewFat()
    ensures TableOf(CreatedImage(img), ROOT_CLUSTER) == RootTable()
    ensures CreatedImage(img)[0][..512] == SIGNATURE
  {
    FatRoundTrip(NewFat());
    TableRoundTrip(RootTable());
    hide EncodeFat, DecodeFat, EncodeTable, DecodeTable;
    assert |SIGNATURE| == 512;
    assert (SIGNATURE + img[0][512..])[..512] == SIGNATURE;
  }

  lemma NewFatMatches()
    ensures FatMatches(NewFat(), EMPTY_STORE) && NewFat()[INDEX_CLUSTER] == 0
  {
  }

  lemma NewRootMatches(img: Image)
    requires TableOf(img, 2) == RootTable()
    ensures DirsMatch(img, EMPTY_STORE)
  {
    hide TableOf;
  }

  /** Whatever was on the medium, a new file system is empty and fully free. */
  lemma CreatedIsEmpty(img: Image)
    ensures !IsEmptyStorage(CreatedImage(img))
    ensures Inv(CreatedImage(img), EMPTY_STORE)
    ensures IndexAgrees(CreatedImage(img), {})
    ensures |FreeFrom(FatOf(CreatedImage(img)), FIRST_DATA_CLUSTER)| == 504
  {
    CreatedParts(img);
    hide CreatedImage, SIGNATURE, TableOf, FatOf, FreeFrom, Persisted, RootTable;
    NewFatMatches();
    NewRootMatches(CreatedImage(img));
    FreePlusOwned(NewFat(), EMPTY_STORE);
    assert EMPTY_STORE.owner.Keys == {};
  }

  // ---- the space check ----

  function FreeBetween(fat: Fat, i: nat, j: nat): (free: seq<word>)
    requires i <= j <= 512
    decreases j - i
  {
    if i == j then []
    else (if fat[i] == EMPTY_ENTRY then [i] else []) + FreeBetween(fat, i + 1, j)
  }

  lemma {:induction false} FreeSplit(fat: Fat, i: nat, j: nat)
    requires i <= j <= 512
    ensures |FreeFrom(fat, i)| == |FreeFrom(fat, j)| + |FreeBetween(fat, i, j)|
    decreases j - i
  {
    if i < j {
      FreeSplit(fat, i + 1, j);
    }
  }

  /**
    * The space check counts clusters the allocator never hands out: always 6
    * and 7, and cluster 3 while the index is empty.
    */
  lemma SpaceCheckOvercounts(img: Image, s: Store)
    requires Inv(img, s)
    ensures |FreeFrom(FatOf(img), 2)|
         == |FreeFrom(FatOf(img), FIRST_DATA_CLUSTER)| + 2 + (if Count(img) == 0 then 1 else 0)
  {
    hide TableOf, SIGNATURE, DirsMatch, Chains, Partition, Owners, FreeFrom, DecodeFat;
    var fat := FatOf(img);
    FreeSplit(fat, 2, 8);
    assert FreeBetween(fat, 8, 8) == [];
    assert FreeBetween(fat, 7, 8) == [7];
    assert FreeBetween(fat, 6, 8) == [6, 7];
    assert FreeBetween(fat, 5, 8) == [6, 7];
    assert FreeBetween(fat, 4, 8) == [6, 7];
  }

  /**
    * So a write passes every check and then fails to allocate exactly when the
    * data clusters run short by no more than that; it never reports a shortage
    * while enough data clusters are free.
    */
  lemma AllocatorFailsIff(img: Image, s: Store, k: Key, size: nat)
    requires Inv(img, s) && k.parent in s.depth && k !in s.items
    requires FreeSlot(TableOf(img, k.parent), 1) < 64
    ensures
      var free := |FreeFrom(FatOf(img), FIRST_DATA_CLUSTER)|;
      && (WriteCode(img, k, size) == W_SUCCESS && !Allocatable(img, size) <==>
          free < Taken(size) && Needed(size) <= free + 2 + (if Count(img) == 0 then 1 else 0))
      && (Allocatable(img, size) ==> WriteCode(img, k, size) == W_SUCCESS)
  {
    hide TableOf, FatOf, SIGNATURE, FreeFrom, FreeSlot, Count, FatMatches, DirsMatch, Duplicate;
    DuplicateIffLive(img, s, k);
    SpaceCheckOvercounts(img, s);
    LiveParent(img, s, k.parent);
  }

  lemma RootHasRoom()
    ensures FreeSlot(RootTable(), 1) == 1
  {
    assert RootTable()[1].undelete == 0;
  }

  /** On a new file system a file of 505 clusters passes the check, though only 504 exist. */
  lemma {:induction false} OversizedFilePasses(img: Image, k: Key)
    requires k.parent == ROOT_CLUSTER
    ensures WriteCode(CreatedImage(img), k, 505 * 2048) == W_SUCCESS
    ensures !Allocatable(CreatedImage(img), 505 * 2048)
  {
    hide CreatedImage, SIGNATURE, Inv, FatOf, TableOf, FreeFrom, InitTable, IsEmptyStorage, IndexAgrees;
    CreatedIsEmpty(img);
    CreatedParts(img);
    RootHasRoom();
    AllocatorFailsIff(CreatedImage(img), EMPTY_STORE, k, 505 * 2048);
    assert NewFat()[INDEX_CLUSTER] == 0;
  }

  /**
    * Where a lookup goes wrong it meets a free slot: an entry that is not a
    * directory, whose cluster 0 is linked to a number outside the map.
    */
  lemma ZeroKeyMeetsFreeSlot(img: Image, s: Store, k: Key)
    requires Inv(img, s) && k.parent in s.depth && !Findable(img, s, k)
    ensures k.parent < 512 && !Nameable(k)
    ensures
      var slot := Lookup(TableOf(img, k.parent), k.name, k.ext, 1);
      && slot < 64 && TableOf(img, k.parent)[slot] == ZERO_ENTRY
      && FatOf(img)[TableOf(img, k.parent)[slot].ClusterNumber()] == CLUSTER_0_VALUE >= 512
  {
    hide TableOf, FatOf, SIGNATURE, Entries, Headers, Tree, Chains, Owners, Partition;
    LookupStops(img, s, k);
    LookupFindsIff(img, s, k);
  }
}
