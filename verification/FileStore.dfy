/**
  * The driver as a simple store: a map from (parent, name, ext) to file bytes
  * or a directory. One step refines one map update, for every state; the
  * theorems about runs follow by induction over the operations.
  */
module FileStore {
  import opened Bytes
  import opened Layout
  import opened StdMem
  import opened DiskImage
  import opened Allocation
  import opened IndexFile
  import opened Volume
  import opened WriteEffects
  import opened WriteInvariant
  import opened DeleteEffects

  datatype Content = File(data: seq<byte>) | Directory(cluster: word)

  /** The clusters of a chain, one after the other. */
  function ChainData(img: Image, chain: seq<word>): (data: seq<byte>)
    requires InMap(chain)
    ensures |data| == 2048 * |chain|
  {
    var n := |chain|;
    if n == 0 then [] else ChainData(img, chain[..n - 1]) + img[chain[n - 1]]
  }

  lemma {:induction false} ChainDataDependsOn(img: Image, img': Image, chain: seq<word>)
    requires InMap(chain)
    requires forall c :: c in chain ==> img'[c] == img[c]
    ensures ChainData(img', chain) == ChainData(img, chain)
  {
    var n := |chain|;
    if n > 0 {
      assert chain[n - 1] in chain;
      ChainDataDependsOn(img, img', chain[..n - 1]);
    }
  }

  lemma {:induction false} ChainDataIs(img: Image, chain: seq<word>, data: seq<byte>)
    requires InMap(chain) && 2048 * |chain| <= |data|
    requires forall i :: 0 <= i < |chain| ==> img[chain[i]] == data[2048 * i..2048 * (i + 1)]
    ensures ChainData(img, chain) == data[..2048 * |chain|]
  {
    var n := |chain|;
    if n > 0 {
      ChainDataIs(img, chain[..n - 1], data);
      assert data[..2048 * (n - 1)] + data[2048 * (n - 1)..2048 * n] == data[..2048 * n];
    }
  }

  /** The i-th cluster of the data. */
  lemma {:induction false} ChainDataAt(img: Image, chain: seq<word>, i: nat)
    requires InMap(chain) && i < |chain|
    ensures ChainData(img, chain)[2048 * i..2048 * (i + 1)] == img[chain[i]]
  {
    var n := |chain|;
    if i < n - 1 {
      ChainDataAt(img, chain[..n - 1], i);
    }
  }

  ghost function ContentOf(img: Image, it: Item): Content
    requires it.chain != [] && InMap(it.chain)
  {
    if it.isDir then Directory(it.chain[0]) else File(ChainData(img, it.chain))
  }

  ghost predicate ChainsInMap(s: Store) {
    forall k :: k in s.items ==> s.items[k].chain != [] && InMap(s.items[k].chain)
  }

  /** The simple store an image stands for. */
  ghost function Contents(img: Image, s: Store): map<Key, Content>
    requires ChainsInMap(s)
  {
    map k | k in s.items :: ContentOf(img, s.items[k])
  }

  lemma InvChainsInMap(img: Image, s: Store)
    requires Inv(img, s)
    ensures ChainsInMap(s)
  {
    forall k | k in s.items
      ensures s.items[k].chain != [] && InMap(s.items[k].chain)
    {
      assert IsChain(FatOf(img), s.items[k].chain);
    }
  }

  /** No cluster of a live file holds a directory table. */
  lemma FileClustersAreNotDirectories(img: Image, s: Store, k: Key, c: word)
    requires Inv(img, s) && k in s.items && !s.items[k].isDir && c in s.items[k].chain
    ensures c !in s.depth && FIRST_DATA_CLUSTER <= c < 512 && c in s.owner && s.owner[c] == k
  {
    assert Owns(s, k, c);
    if c in s.depth {
      DirectoryNotInChain(img, s, c, k);
    }
  }

  /** The cluster of a live directory. */
  lemma LiveDirectory(img: Image, s: Store, k: Key)
    requires Inv(img, s) && k in s.items && s.items[k].isDir
    ensures s.items[k].chain != [] && s.items[k].chain[0] in s.depth && s.items[k].chain[0] < 512
  {
    hide TableOf, SIGNATURE, FatMatches, Headers, Entries;
    assert DirItem(s, k, s.items[k]);
  }

  // ---- one write ----

  function Padded(data: seq<byte>, size: nat): seq<byte>
    requires 2048 * Needed(size) <= |data|
  {
    data[..2048 * Needed(size)]
  }

  lemma WriteKeepsOthers(img: Image, s: Store, k: Key, data: seq<byte>, size: nat, stack: Stack, k': Key)
    requires Writable(img, s, k, size) && 2048 * Needed(size) <= |data|
    requires OrdinaryParent(img, k, size) && ChainsInMap(s)
    requires k' in s.items
    ensures ContentOf(WriteImage(img, k, data, size, stack), s.items[k']) == ContentOf(img, s.items[k'])
  {
    hide WriteImage, TableOf, FatOf, NewChain, ParentTable, Link, Inv, Allocatable, WriteCode, FreeSlot, OrdinaryParent;
    var img', it, chain := WriteImage(img, k, data, size, stack), s.items[k'], NewChain(img, size);
    NewItemFacts(img, s, k, size);
    WriteEffect(img, k, data, size, stack);
    if !it.isDir {
      forall c | c in it.chain
        ensures img'[c] == img[c]
      {
        FileClustersAreNotDirectories(img, s, k', c);
      }
      ChainDataDependsOn(img, img', it.chain);
    }
  }

  lemma WrittenContent(img: Image, s: Store, k: Key, data: seq<byte>, size: nat, stack: Stack)
    requires Writable(img, s, k, size) && 2048 * Needed(size) <= |data|
    requires OrdinaryParent(img, k, size)
    ensures ContentOf(WriteImage(img, k, data, size, stack), NewItem(img, k, size))
         == if size == 0 then Directory(NewChain(img, size)[0]) else File(Padded(data, size))
  {
    WriteEffect(img, k, data, size, stack);
    hide WriteImage, TableOf, FatOf, NewChain, ParentTable, Link, FreeFrom, Writable;
    if size != 0 {
      ChainDataIs(WriteImage(img, k, data, size, stack), NewChain(img, size), data);
    }
  }

  lemma ContentsAdded(img: Image, img': Image, s: Store, k: Key, it: Item)
    requires ChainsInMap(s) && k !in s.items && k.parent in s.depth && it.chain != [] && InMap(it.chain)
    requires forall k' :: k' in s.items ==> ContentOf(img', s.items[k']) == ContentOf(img, s.items[k'])
    ensures ChainsInMap(AddItem(s, k, it))
    ensures Contents(img', AddItem(s, k, it)) == Contents(img, s)[k := ContentOf(img', it)]
  {
    hide ContentOf;
  }

  lemma ContentsRemoved(img: Image, img': Image, s: Store, k: Key)
    requires ChainsInMap(s) && k in s.items
    requires forall k' :: k' in s.items && k' != k ==> ContentOf(img', s.items[k']) == ContentOf(img, s.items[k'])
    ensures ChainsInMap(RemoveItem(s, k))
    ensures Contents(img', RemoveItem(s, k)) == Contents(img, s) - {k}
  {
    hide ContentOf;
  }

  /** A successful write is one map update: the padded bytes, or a new directory, under the new key. */
  lemma WriteRefines(img: Image, s: Store, k: Key, data: seq<byte>, size: nat, stack: Stack)
    requires Writable(img, s, k, size) && 2048 * Needed(size) <= |data|
    ensures OrdinaryParent(img, k, size) && ChainsInMap(s) && k !in s.items
    ensures
      var img', s' := WriteImage(img, k, data, size, stack), AddItem(s, k, NewItem(img, k, size));
      && ChainsInMap(s')
      && Contents(img', s') == Contents(img, s)[k :=
                               if size == 0 then Directory(NewChain(img, size)[0]) else File(Padded(data, size))]
  {
    NewItemFacts(img, s, k, size);
    InvChainsInMap(img, s);
    WrittenContent(img, s, k, data, size, stack);
    var img', it := WriteImage(img, k, data, size, stack), NewItem(img, k, size);
    assert it.chain != [] && InMap(it.chain);
    hide WriteImage, Inv, NewItem, NewChain, ContentOf, WriteCode, Allocatable, OrdinaryParent;
    forall k' | k' in s.items
      ensures ContentOf(img', s.items[k']) == ContentOf(img, s.items[k'])
    {
      WriteKeepsOthers(img, s, k, data, size, stack, k');
    }
    ContentsAdded(img, img', s, k, it);
  }

  // ---- one delete ----

  lemma DeleteKeepsOthers(img: Image, s: Store, k: Key, stack: Stack, k': Key)
    requires Deletable(img, s, k) && ChainsInMap(s)
    requires k' in s.items && k' != k
    ensures DeleteCode(img, k) == D_SUCCESS
    ensures ContentOf(DeleteImage(img, k, stack), s.items[k']) == ContentOf(img, s.items[k'])
  {
    hide DeleteImage, DeletedChain, TableOf, FatOf, ClearedTable, DeleteIndex, DeleteCode, SIGNATURE, Chains,
      Entries, Headers, Tree, Findable, Unlink;
    var it := s.items[k'];
    ParentSurvives(img, s, k);
    DeleteEffect(img, k, stack);
    if !it.isDir {
      forall c | c in it.chain
        ensures DeleteImage(img, k, stack)[c] == img[c]
      {
        FileClustersAreNotDirectories(img, s, k', c);
        assert c in s.items[k].chain ==> Owns(s, k, c);
      }
      ChainDataDependsOn(img, DeleteImage(img, k, stack), it.chain);
    }
  }

  lemma ZeroedChain(img: Image, s: Store, k: Key, stack: Stack)
    requires Deletable(img, s, k)
    ensures DeleteCode(img, k) == D_SUCCESS
    ensures forall c :: c in s.items[k].chain ==> c < 2048 && DeleteImage(img, k, stack)[c] == ZERO_CLUSTER
  {
    ParentSurvives(img, s, k);
    OwnedAreData(FatOf(img), s, k);
    hide DeleteImage, Inv, DeleteCode, DeletedChain, ClearedTable, TableOf, FatOf, Unlink;
    DeleteEffect(img, k, stack);
  }

  /** A successful delete is one map removal, and zeroes every cluster the entry used. */
  lemma DeleteRefines(img: Image, s: Store, k: Key, stack: Stack)
    requires Deletable(img, s, k)
    ensures DeleteCode(img, k) == D_SUCCESS && ChainsInMap(s) && ChainsInMap(RemoveItem(s, k))
    ensures Contents(DeleteImage(img, k, stack), RemoveItem(s, k)) == Contents(img, s) - {k}
    ensures forall c :: c in s.items[k].chain ==> c < 2048 && DeleteImage(img, k, stack)[c] == ZERO_CLUSTER
  {
    InvChainsInMap(img, s);
    ZeroedChain(img, s, k, stack);
    hide DeleteImage, Inv, ContentOf, DeleteCode;
    forall k' | k' in s.items && k' != k
      ensures ContentOf(DeleteImage(img, k, stack), s.items[k']) == ContentOf(img, s.items[k'])
    {
      DeleteKeepsOthers(img, s, k, stack, k');
    }
    ContentsRemoved(img, DeleteImage(img, k, stack), s, k);
  }

  // ---- reads, told from the simple store ----

  const R_SUCCESS := 0
  const R_NOT_A_FILE := 1
  const R_NOT_ENOUGH_BUFFER := 2
  const R_NOT_FOUND := 3
  const R_UNKNOWN := -1

  /** The buffer size as read sees it: an int. */
  function Signed(size: word): int {
    if size < 0x8000_0000 then size else size - 0x1_0000_0000
  }

  /** Bytes of the whole clusters that fit. */
  function WholePart(size: int): (n: nat)
    ensures size >= 0 ==> n <= size < n + 2048
    ensures n % 2048 == 0
  {
    if size < 0 then 0 else size / 2048 * 2048
  }

  /** The return code of read in a live directory. */
  function ReadCode(m: map<Key, Content>, k: Key, size: int): int {
    if k !in m then R_NOT_FOUND
    else
      match m[k]
      case Directory(_) => R_NOT_A_FILE
      case File(data) => if size < |data| then R_NOT_ENOUGH_BUFFER else R_SUCCESS
  }

  /**
    * The buffer after read: the whole clusters that fit, and one 0xFF byte
    * behind the file exactly when the buffer is longer than the file.
    */
  function ReadBytes(m: map<Key, Content>, k: Key, size: int, buf: seq<byte>): seq<byte>
    requires size <= |buf|
  {
    if k !in m || m[k].Directory? then buf
    else
      var data := m[k].data;
      if size < |data| then Patch(buf, 0, data[..WholePart(size)])
      else if size == |data| then Patch(buf, 0, data)
      else Patch(buf, 0, data + [0xFF])
  }

  /** A short buffer receives nothing beyond its size, and a negative size nothing at all. */
  lemma ReadStaysInside(m: map<Key, Content>, k: Key, size: int, buf: seq<byte>)
    requires size <= |buf|
    ensures |ReadBytes(m, k, size, buf)| == |buf|
    ensures size >= 0 ==> ReadBytes(m, k, size, buf)[size..] == buf[size..]
    ensures size < 0 ==> ReadBytes(m, k, size, buf) == buf
  {
  }

  const RD_SUCCESS := 0
  const RD_NOT_A_FOLDER := 1
  const RD_NOT_FOUND := 2
  const RD_UNKNOWN := -1

  /** A directory's table lists exactly its live entries; its free slots look like an all-zero name. */
  lemma TableListsChildren(img: Image, s: Store, k: Key)
    requires Inv(img, s) && k.parent in s.depth && k.parent < 2048
    ensures (exists i :: 1 <= i < 64 && Matches(TableOf(img, k.parent)[i], k.name, k.ext))
       <==> k in s.items || (!Nameable(k) && FreeSlot(TableOf(img, k.parent), 1) < 64)
  {
    hide TableOf, FatMatches, SIGNATURE, Headers, Entries, Tree, Lookup, FreeSlot;
    var t := TableOf(img, k.parent);
    var i, free := Lookup(t, k.name, k.ext, 1), FreeSlot(t, 1);
    LookupFindsIff(img, s, k);
    LookupStops(img, s, k);
    if free < 64 {
      FreeSlotIsZero(img, s, k.parent);
    }
    assert i < 64 ==> Matches(t[i], k.name, k.ext);
    assert !Nameable(k) && free < 64 ==> Matches(t[free], k.name, k.ext);
  }
}
