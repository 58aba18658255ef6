/** What a completed write does to an image, and that it keeps the invariant. */
module WriteEffects {
  import opened Bytes
  import opened Layout
  import opened DiskImage
  import opened Allocation
  import opened IndexFile
  import opened Volume

  const W_SUCCESS := 0
  const W_ALREADY_EXIST := 1
  const W_INVALID_PARENT := 2
  const W_UNKNOWN := -1

  /** Clusters that hold size bytes. */
  function Needed(size: nat): (n: nat)
    ensures 2048 * n >= size
    ensures n > 0 ==> 2048 * (n - 1) < size
    ensures n == 0 <==> size == 0
  {
    if size % 2048 == 0 then size / 2048 else size / 2048 + 1
  }

  /** Clusters a write takes: a directory, of size 0, takes one. */
  function Taken(size: nat): (n: nat)
    ensures n > 0
  {
    if size == 0 then 1 else Needed(size)
  }

  /** An entry in use with this name and extension. */
  predicate Duplicate(t: Table, name: Name, ext: Ext) {
    exists i :: 1 <= i < 64 && Matches(t[i], name, ext) && t[i].undelete != 0
  }

  /** The return code of write. The space check counts free clusters from 2 up. */
  function WriteCode(img: Image, k: Key, size: nat): int
    requires k.parent < 2048
  {
    var t := TableOf(img, k.parent);
    if t[0].attribute != ATTR_SUBDIRECTORY then W_INVALID_PARENT
    else if Duplicate(t, k.name, k.ext) then W_ALREADY_EXIST
    else if |FreeFrom(FatOf(img), 2)| < Needed(size) then W_UNKNOWN
    else if FreeSlot(t, 1) == 64 then W_UNKNOWN
    else W_SUCCESS
  }

  /** Every allocator call a successful write makes finds a cluster. */
  predicate Allocatable(img: Image, size: nat) {
    Taken(size) <= |FreeFrom(FatOf(img), FIRST_DATA_CLUSTER)|
  }

  /** The image with consecutive chunks of data in the clusters of a chain. */
  function PutChain(img: Image, chain: seq<word>, data: seq<byte>): Image
    requires InMap(chain) && 2048 * |chain| <= |data|
  {
    var n := |chain|;
    if n == 0 then img
    else PutChain(img, chain[..n - 1], data)[chain[n - 1] := data[2048 * (n - 1)..2048 * n]]
  }

  lemma {:induction false} PutChainAt(img: Image, chain: seq<word>, data: seq<byte>, i: nat)
    requires InMap(chain) && Increasing(chain) && 2048 * |chain| <= |data| && i < |chain|
    ensures PutChain(img, chain, data)[chain[i]] == data[2048 * i..2048 * (i + 1)]
  {
    var n := |chain|;
    if i < n - 1 {
      PutChainAt(img, chain[..n - 1], data, i);
      assert chain[i] < chain[n - 1];
    }
  }

  lemma {:induction false} PutChainElsewhere(img: Image, chain: seq<word>, data: seq<byte>, c: nat)
    requires InMap(chain) && 2048 * |chain| <= |data| && c < 2048 && c !in chain
    ensures PutChain(img, chain, data)[c] == img[c]
  {
    var n := |chain|;
    if n > 0 {
      assert chain[n - 1] in chain;
      PutChainElsewhere(img, chain[..n - 1], data, c);
    }
  }

  function NewChain(img: Image, size: nat): (chain: seq<word>)
    requires Allocatable(img, size)
    ensures |chain| == Taken(size) && InMap(chain)
  {
    FreeFrom(FatOf(img), FIRST_DATA_CLUSTER)[..Taken(size)]
  }

  /** The parent's table afterwards: flagged in slot 0, with the new entry. */
  function WithEntry(t: Table, slot: nat, e: DirEntry): Table
    requires 1 <= slot < 64
  {
    t[0 := t[0].(userAttribute := UATTR_NOT_EMPTY)][slot := e]
  }

  function NewItem(img: Image, k: Key, size: nat): Item
    requires k.parent < 2048 && Allocatable(img, size)
  {
    Item(FreeSlot(TableOf(img, k.parent), 1), size == 0, NewChain(img, size))
  }

  /** The contents of the new clusters. */
  function StageContents(img: Image, k: Key, data: seq<byte>, size: nat): Image
    requires Allocatable(img, size) && 2048 * Needed(size) <= |data|
  {
    var chain := NewChain(img, size);
    if size == 0 then img[chain[0] := EncodeTable(InitTable(k.name, k.parent))]
    else PutChain(img, chain, data)
  }

  /** Storing the parent's table and then the file allocation table. */
  function StoreTables(img: Image, parent: word, t: Table, fat: Fat): Image
    requires parent < 2048
  {
    img[parent := EncodeTable(t)][1 := EncodeFat(fat)]
  }

  lemma StoredTables(img: Image, parent: word, t: Table, fat: Fat)
    requires 1 != parent < 2048
    ensures
      var img' := StoreTables(img, parent, t, fat);
      && FatOf(img') == fat
      && TableOf(img', parent) == t
      && forall c :: 0 <= c < 2048 && c != 1 && c != parent ==> img'[c] == img[c]
  {
    FatRoundTrip(fat);
    TableRoundTrip(t);
  }

  function ParentTable(img: Image, k: Key, size: nat): Table
    requires k.parent < 2048 && Allocatable(img, size) && FreeSlot(TableOf(img, k.parent), 1) < 64
  {
    var it := NewItem(img, k, size);
    WithEntry(TableOf(img, k.parent), it.slot, EntryFor(k, it.isDir, it.chain[0]))
  }

  /** The image before the index is touched. */
  function StageWrite(img: Image, k: Key, data: seq<byte>, size: nat): Image
    requires k.parent < 2048 && Allocatable(img, size) && 2048 * Needed(size) <= |data|
    requires FreeSlot(TableOf(img, k.parent), 1) < 64
  {
    StoreTables(StageContents(img, k, data, size), k.parent, ParentTable(img, k, size),
                Link(FatOf(img), NewChain(img, size)))
  }

  /** A parent whose cluster is neither reserved nor handed out by this write. */
  predicate OrdinaryParent(img: Image, k: Key, size: nat)
    requires Allocatable(img, size)
  {
    (k.parent == ROOT_CLUSTER || FIRST_DATA_CLUSTER <= k.parent < 512) && k.parent !in NewChain(img, size)
  }

  lemma NewChainFacts(img: Image, size: nat)
    requires Allocatable(img, size)
    ensures
      var chain, fat := NewChain(img, size), FatOf(img);
      && IsChain(Link(fat, chain), chain)
      && (forall c :: 0 <= c < 512 && c !in chain ==> Link(fat, chain)[c] == fat[c])
      && (forall c :: c in chain ==> FIRST_DATA_CLUSTER <= c < 512 && fat[c] == EMPTY_ENTRY)
  {
    FirstFit(FatOf(img), Taken(size));
  }

  lemma StageEffect(img: Image, k: Key, data: seq<byte>, size: nat)
    requires k.parent < 2048 && Allocatable(img, size) && 2048 * Needed(size) <= |data|
    requires FreeSlot(TableOf(img, k.parent), 1) < 64 && OrdinaryParent(img, k, size)
    ensures
      var img', chain := StageWrite(img, k, data, size), NewChain(img, size);
      && FatOf(img') == Link(FatOf(img), chain)
      && Count(img') == Count(img)
      && TableOf(img', k.parent) == ParentTable(img, k, size)
      && (forall c :: 0 <= c < 2048 && c != 1 && c != k.parent ==> img'[c] == StageContents(img, k, data, size)[c])
  {
    NewChainFacts(img, size);
    StoredTables(StageContents(img, k, data, size), k.parent, ParentTable(img, k, size),
                 Link(FatOf(img), NewChain(img, size)));
    assert INDEX_CLUSTER !in NewChain(img, size);
  }

  function WriteImage(img: Image, k: Key, data: seq<byte>, size: nat, stack: Stack): Image
    requires k.parent < 2048 && Allocatable(img, size) && 2048 * Needed(size) <= |data|
    requires FreeSlot(TableOf(img, k.parent), 1) < 64
    requires OrdinaryParent(img, k, size) && Count(img) < CLUSTER_MAP_SIZE
  {
    StageEffect(img, k, data, size);
    InsertIndex(StageWrite(img, k, data, size), k, stack)
  }

  lemma {:induction false} ContentsEffect(img: Image, k: Key, data: seq<byte>, size: nat)
    requires Allocatable(img, size) && 2048 * Needed(size) <= |data|
    ensures
      var chain, img' := NewChain(img, size), StageContents(img, k, data, size);
      && (forall c :: 0 <= c < 2048 && c !in chain ==> img'[c] == img[c])
      && (size == 0 ==> img'[chain[0]] == EncodeTable(InitTable(k.name, k.parent)))
      && (size != 0 ==> forall i :: 0 <= i < |chain| ==> img'[chain[i]] == data[2048 * i..2048 * (i + 1)])
  {
    var chain := NewChain(img, size);
    if size != 0 {
      NewChainFacts(img, size);
      forall i | 0 <= i < |chain|
        ensures PutChain(img, chain, data)[chain[i]] == data[2048 * i..2048 * (i + 1)]
      {
        PutChainAt(img, chain, data, i);
      }
      forall c | 0 <= c < 2048 && c !in chain
        ensures PutChain(img, chain, data)[c] == img[c]
      {
        PutChainElsewhere(img, chain, data, c);
      }
    }
  }

  lemma WriteTablesEffect(img: Image, k: Key, data: seq<byte>, size: nat, stack: Stack)
    requires k.parent < 2048 && Allocatable(img, size) && 2048 * Needed(size) <= |data|
    requires FreeSlot(TableOf(img, k.parent), 1) < 64
    requires OrdinaryParent(img, k, size) && Count(img) < CLUSTER_MAP_SIZE
    ensures
      var img' := WriteImage(img, k, data, size, stack);
      && FatOf(img') == Link(FatOf(img), NewChain(img, size))[INDEX_CLUSTER := Count(img) + 1]
      && TableOf(img', k.parent) == ParentTable(img, k, size)
      && forall c :: (c == 0 || c == 2 || 6 <= c < 2048) && c != k.parent ==>
                       img'[c] == StageContents(img, k, data, size)[c]
  {
    hide StageWrite, StageContents, ParentTable, NewChain, EncodeFat, DecodeFat, EncodeTable, DecodeTable,
      InsertIndex, Link, FreeFrom;
    StageEffect(img, k, data, size);
    InsertedRecord(StageWrite(img, k, data, size), k, stack);
  }

  /** The whole effect of a successful write on the image. */
  lemma {:induction false} WriteEffect(img: Image, k: Key, data: seq<byte>, size: nat, stack: Stack)
    requires k.parent < 2048 && Allocatable(img, size) && 2048 * Needed(size) <= |data|
    requires FreeSlot(TableOf(img, k.parent), 1) < 64
    requires OrdinaryParent(img, k, size) && Count(img) < CLUSTER_MAP_SIZE
    ensures
      var img', chain := WriteImage(img, k, data, size, stack), NewChain(img, size);
      && FatOf(img') == Link(FatOf(img), chain)[INDEX_CLUSTER := Count(img) + 1]
      && TableOf(img', k.parent) == ParentTable(img, k, size)
      && (forall c :: (c == 0 || c == 2 || 6 <= c < 2048) && c != k.parent && c !in chain ==> img'[c] == img[c])
      && (size == 0 ==> TableOf(img', chain[0]) == InitTable(k.name, k.parent))
      && (size != 0 ==> forall i :: 0 <= i < |chain| ==> img'[chain[i]] == data[2048 * i..2048 * (i + 1)])
  {
    WriteTablesEffect(img, k, data, size, stack);
    ContentsEffect(img, k, data, size);
    NewChainFacts(img, size);
    TableRoundTrip(InitTable(k.name, k.parent));
    var img', chain := WriteImage(img, k, data, size, stack), NewChain(img, size);
    var contents := StageContents(img, k, data, size);
    forall i | 0 <= i < |chain|
      ensures img'[chain[i]] == contents[chain[i]]
    {
      assert chain[i] in chain;
    }
  }
}
