/** The index agrees with the tree across writes and deletes, and a delete undoes a write. */
module Agreement {
  import opened Bytes
  import opened Layout
  import opened DiskImage
  import opened Allocation
  import opened IndexFile
  import opened Volume
  import opened WriteEffects
  import opened WriteInvariant
  import opened DeleteEffects
  import opened Runs

  /** Under agreement the count is the number of live entries. */
  lemma {:induction false} DistinctCount(s: seq<Key>, keys: set<Key>)
    requires Lists(s, keys)
    ensures |s| == |keys|
  {
    if s == [] {
      assert keys == {};
    } else {
      var front, k := s[..|s| - 1], s[|s| - 1];
      assert s == front + [k];
      assert forall x :: x in front <==> x in keys - {k};
      DistinctCount(front, keys - {k});
    }
  }

  lemma CountIsLiveEntries(img: Image, keys: set<Key>)
    requires IndexAgrees(img, keys)
    ensures Count(img) == |keys|
  {
    hide LoadIndex, Count, Lists;
    DistinctCount(LoadIndex(img, Zeros(1536))[..Count(img)], keys);
  }

  /** Neither the contents nor the tables touch the index clusters. */
  lemma StageKeepsIndex(img: Image, k: Key, data: seq<byte>, size: nat)
    requires k.parent < 2048 && Allocatable(img, size) && 2048 * Needed(size) <= |data|
    requires FreeSlot(TableOf(img, k.parent), 1) < 64 && OrdinaryParent(img, k, size)
    ensures Persisted(StageWrite(img, k, data, size)) == Persisted(img)
    ensures Count(StageWrite(img, k, data, size)) == Count(img)
  {
    StageEffect(img, k, data, size);
    ContentsEffect(img, k, data, size);
    NewChainFacts(img, size);
    hide StageWrite, StageContents, NewChain, FatOf, TableOf, ParentTable, Persisted;
    JoinedDependsOn(img, StageWrite(img, k, data, size));
  }

  lemma AgreementDependsOn(img: Image, img': Image, keys: set<Key>)
    requires Persisted(img') == Persisted(img) && Count(img') == Count(img)
    ensures IndexAgrees(img', keys) <==> IndexAgrees(img, keys)
  {
    hide IndexAgrees, Lists, Persisted, Count;
    AgreesIff(img, keys);
    AgreesIff(img', keys);
  }

  /** A write keeps the agreement exactly when fewer than 409 entries exist. */
  lemma WriteKeepsIndexIff(img: Image, s: Store, k: Key, data: seq<byte>, size: nat, stack: Stack)
    requires Writable(img, s, k, size) && 2048 * Needed(size) <= |data|
    requires IndexAgrees(img, s.items.Keys)
    ensures OrdinaryParent(img, k, size)
    ensures IndexAgrees(WriteImage(img, k, data, size, stack), s.items.Keys + {k}) <==> Count(img) < PERSISTED_RECORDS
  {
    NewItemFacts(img, s, k, size);
    hide Inv, StageWrite, NewItem, NewChain, TableOf, FatOf, InsertIndex, Persisted, IndexAgrees, Count;
    StageKeepsIndex(img, k, data, size);
    AgreementDependsOn(img, StageWrite(img, k, data, size), s.items.Keys);
    InsertKeepsAgreementIff(StageWrite(img, k, data, size), s.items.Keys, k, stack);
  }

  lemma UnlinkOthers(fat: Fat, chain: seq<word>, c: word)
    requires c < 512 && c !in chain
    ensures Unlink(fat, chain)[c] == fat[c]
  {
  }

  lemma DeleteTablesKeepIndex(img: Image, parent: word, t: Table, chain: seq<word>)
    requires (parent == ROOT_CLUSTER || FIRST_DATA_CLUSTER <= parent < 512)
    requires forall c :: c in chain ==> FIRST_DATA_CLUSTER <= c < 512
    ensures
      var img' := StoreTables(ClearChain(img, chain), parent, t, Unlink(FatOf(img), chain));
      Persisted(img') == Persisted(img) && Count(img') == Count(img)
  {
    hide FatOf, Persisted, Unlink;
    var img' := StoreTables(ClearChain(img, chain), parent, t, Unlink(FatOf(img), chain));
    StoredTables(ClearChain(img, chain), parent, t, Unlink(FatOf(img), chain));
    JoinedDependsOn(img, img');
    UnlinkOthers(FatOf(img), chain, INDEX_CLUSTER);
  }

  /** A delete always keeps the agreement. */
  lemma DeleteKeepsIndex(img: Image, s: Store, k: Key, stack: Stack)
    requires Deletable(img, s, k) && IndexAgrees(img, s.items.Keys)
    ensures DeleteCode(img, k) == D_SUCCESS
    ensures IndexAgrees(DeleteImage(img, k, stack), s.items.Keys - {k})
  {
    ParentSurvives(img, s, k);
    OwnedAreData(FatOf(img), s, k);
    hide Inv, DeleteCode, TableOf, FatOf, DeleteIndex, Persisted, ClearedTable, DeletedChain, StoreTables,
      ClearChain, Unlink, Count, IndexAgrees;
    var img1 := DeleteIndex(img, k, stack);
    DeleteTablesKeepIndex(img1, k.parent, ClearedTable(img, k), DeletedChain(img, k));
    AgreementDependsOn(img1, DeleteImage(img, k, stack), s.items.Keys - {k});
    DeleteKeepsAgreement(img, s.items.Keys, k, stack);
  }

  ghost predicate Agrees(st: State) {
    Ok(st) && IndexAgrees(st.img, st.s.items.Keys)
  }

  /** Every successful write of the run happens with fewer than 409 entries in place. */
  ghost predicate IndexRoom(st: State, ops: seq<Op>)
    requires LegalRun(st, ops)
    decreases |ops|
  {
    ops != [] ==>
      && (ops[0].Write? && Code(st.img, ops[0]) == W_SUCCESS ==> Count(st.img) < PERSISTED_RECORDS)
      && IndexRoom(Step(st, ops[0]), ops[1..])
  }

  lemma AddKeys(s: Store, k: Key, it: Item)
    requires k.parent in s.depth && it.chain != []
    ensures AddItem(s, k, it).items.Keys == s.items.Keys + {k}
  {
  }

  lemma RemoveKeys(s: Store, k: Key)
    requires k in s.items && s.items[k].chain != []
    ensures RemoveItem(s, k).items.Keys == s.items.Keys - {k}
  {
  }

  lemma StepKeepsAgreementIff(st: State, op: Op)
    requires LegalIn(st, op) && Agrees(st)
    ensures Agrees(Step(st, op)) <==> op.Write? && Code(st.img, op) == W_SUCCESS ==> Count(st.img) < PERSISTED_RECORDS
  {
    StepKeepsInvariant(st, op);
    if Code(st.img, op) == 0 {
      match op
      case Write(k, data, size, stack) =>
        hide WriteImage, Inv, WriteCode, TableOf, FatOf, NewItem, IndexAgrees, NewChain, FreeFrom;
        WriteKeepsIndexIff(st.img, st.s, k, data, size, stack);
        assert Step(st, op) == WriteStep(st, k, data, size, stack);
        AddKeys(st.s, k, NewItem(st.img, k, size));
      case Delete(k, stack) =>
        DeleteCodeIff(st.img, st.s, k);
        hide DeleteImage, Inv, DeleteCode, TableOf, FatOf, IndexAgrees;
        DeleteKeepsIndex(st.img, st.s, k, stack);
        assert Step(st, op) == DeleteStep(st, k, stack);
        RemoveKeys(st.s, k);
    }
  }

  /** In every state of such a run the index lists exactly the live entries, each once. */
  lemma {:induction false} RunKeepsAgreement(st: State, ops: seq<Op>)
    requires Agrees(st) && LegalRun(st, ops) && IndexRoom(st, ops)
    ensures Agrees(Run(st, ops))
    decreases |ops|
  {
    hide Agrees, LegalIn, Step, Code;
    if ops != [] {
      StepKeepsAgreementIff(st, ops[0]);
      RunKeepsAgreement(Step(st, ops[0]), ops[1..]);
    }
  }

  /** Index and tree agree in every state of the run. */
  ghost predicate AlwaysAgrees(st: State, ops: seq<Op>)
    requires LegalRun(st, ops)
    decreases |ops|
  {
    Agrees(st) && (ops != [] ==> AlwaysAgrees(Step(st, ops[0]), ops[1..]))
  }

  /** They agree all along exactly in the runs whose successful writes find fewer than 409 entries. */
  lemma {:induction false} AlwaysAgreesIff(st: State, ops: seq<Op>)
    requires Agrees(st) && LegalRun(st, ops)
    ensures AlwaysAgrees(st, ops) <==> IndexRoom(st, ops)
    decreases |ops|
  {
    hide Agrees, LegalIn, Step, Code;
    if ops != [] {
      StepKeepsAgreementIff(st, ops[0]);
      if Agrees(Step(st, ops[0])) {
        AlwaysAgreesIff(Step(st, ops[0]), ops[1..]);
      }
    }
  }

  /** Searching after any such run names exactly the directories with such an entry, whatever the stack holds. */
  lemma {:induction false} SearchAfterRun(st: State, ops: seq<Op>, stack: Stack, name: Name, ext: Ext)
    requires Agrees(st) && LegalRun(st, ops) && IndexRoom(st, ops)
    ensures Ok(Run(st, ops)) && Count(Run(st, ops).img) <= CLUSTER_MAP_SIZE
    ensures
      var st' := Run(st, ops);
      var found := Parents(LoadIndex(st'.img, stack)[..Count(st'.img)], name, ext);
      Distinct(found) && forall p :: p in found <==> Key(p, name, ext) in Files(st')
  {
    RunKeepsAgreement(st, ops);
    var st' := Run(st, ops);
    hide Inv, LegalRun, Run, IndexRoom, LoadIndex, Count, Parents;
    SearchFindsAll(st'.img, st'.s.items.Keys, stack, name, ext);
  }

  // ---- delete undoes write ----

  lemma RemoveUndoesAdd(s: Store, k: Key, it: Item)
    requires k !in s.items && k.parent in s.depth && it.chain != []
    requires it.chain[0] !in s.depth && forall c :: c in it.chain ==> c !in s.owner
    ensures RemoveItem(AddItem(s, k, it), k) == s
  {
    assert it.chain[0] in it.chain;
    var s' := RemoveItem(AddItem(s, k, it), k);
    assert s'.items == s.items;
    assert s'.owner == s.owner;
    assert s'.depth == s.depth;
  }

  lemma LinkThenUnlink(fat: Fat, chain: seq<word>, n: word)
    requires InMap(chain) && Increasing(chain) && INDEX_CLUSTER !in chain && fat[INDEX_CLUSTER] == n < 0xFFFF_FFFF
    requires forall i :: 0 <= i < |chain| ==> fat[chain[i]] == EMPTY_ENTRY
    ensures Unlink(Link(fat, chain)[INDEX_CLUSTER := n + 1][INDEX_CLUSTER := n], chain) == fat
  {
    LinkAt(fat, chain);
    UnlinkLink(fat, chain);
    assert Link(fat, chain)[INDEX_CLUSTER := n + 1][INDEX_CLUSTER := n] == Link(fat, chain);
  }

  lemma DeletedAgain(img: Image, w: Image, keys: set<Key>, k: Key, stack: Stack)
    requires IndexAgrees(img, keys) && k !in keys
    requires Count(w) == Count(img) + 1 <= PERSISTED_RECORDS && Listed(w) == Listed(img) + [k]
    ensures FatOf(DeleteIndex(w, k, stack)) == FatOf(w)[INDEX_CLUSTER := Count(img)]
    ensures Listed(DeleteIndex(w, k, stack)) == Listed(img)
  {
    hide DeleteIndex, FatOf, Listed, IndexAgrees;
    AgreesIff(img, keys);
    RemovedListed(w, k, stack);
    WithoutAppend(Listed(img), k);
  }

  /** The record a write leaves: the last one. */
  lemma WrittenRecord(img: Image, s: Store, k: Key, data: seq<byte>, size: nat, stack: Stack)
    requires Writable(img, s, k, size) && 2048 * Needed(size) <= |data|
    requires OrdinaryParent(img, k, size)
    requires Count(img) < PERSISTED_RECORDS
    ensures Listed(WriteImage(img, k, data, size, stack)) == Listed(img) + [k]
  {
    hide Inv, StageWrite, NewItem, NewChain, TableOf, FatOf, InsertIndex, Persisted, Count, FreeSlot, FreeFrom;
    var stage := StageWrite(img, k, data, size);
    StageKeepsIndex(img, k, data, size);
    InsertedRecord(stage, k, stack);
    assert Listed(stage) == Listed(img);
  }

  /** What an image after write and delete of the same key has in common with the one before. */
  ghost predicate Undone(img: Image, img': Image, parent: word, chain: seq<word>)
    requires parent < 2048
  {
    && img'[FAT_CLUSTER] == img[FAT_CLUSTER]
    && Listed(img') == Listed(img)
    && img'[parent][32..] == img[parent][32..]
    && forall c :: c in chain ==> c < 2048 && img'[c] == ZERO_CLUSTER
  }

  lemma SameFatBytes(img: Image, img': Image)
    requires FatOf(img') == FatOf(img)
    ensures img'[FAT_CLUSTER] == img[FAT_CLUSTER]
  {
    hide EncodeFat, DecodeFat;
    FatBytesRoundTrip(img[1]);
    FatBytesRoundTrip(img'[1]);
  }

  lemma SameSlotBytes(c: Cluster, c': Cluster)
    requires DecodeTable(c')[1..] == DecodeTable(c)[1..]
    ensures c'[32..] == c[32..]
  {
    forall j | 32 <= j < 2048
      ensures c'[j] == c[j]
    {
      hide EncodeEntry, DecodeTable;
      TableByte(c, j);
      TableByte(c', j);
      assert DecodeTable(c')[1..][j / 32 - 1] == DecodeTable(c)[1..][j / 32 - 1];
    }
  }

  /** A free slot and a chain of free clusters. */
  ghost predicate Fresh(img: Image, k: Key, it: Item) {
    && k.parent < 2048 && 1 <= it.slot < 64 && TableOf(img, k.parent)[it.slot] == ZERO_ENTRY
    && it.chain != [] && InMap(it.chain) && Increasing(it.chain)
    && forall c :: c in it.chain ==> FIRST_DATA_CLUSTER <= c < 512 && FatOf(img)[c] == EMPTY_ENTRY
  }

  /** The written image, as far as undoing is concerned. */
  ghost predicate Wrote(img: Image, w: Image, k: Key, it: Item)
    requires Fresh(img, k, it)
  {
    && Count(img) < PERSISTED_RECORDS
    && FatOf(w) == Link(FatOf(img), it.chain)[INDEX_CLUSTER := Count(img) + 1]
    && TableOf(w, k.parent) == WithEntry(TableOf(img, k.parent), it.slot, EntryFor(k, it.isDir, it.chain[0]))
    && Listed(w) == Listed(img) + [k]
  }

  lemma NewItemIsFresh(img: Image, s: Store, k: Key, size: nat)
    requires Writable(img, s, k, size)
    ensures Fresh(img, k, NewItem(img, k, size))
  {
    hide Inv, TableOf, FatOf, Link, WriteCode, FreeSlot, FreeFrom;
    NewItemFacts(img, s, k, size);
    NewChainFacts(img, size);
  }

  lemma WriteWrote(img: Image, s: Store, k: Key, data: seq<byte>, size: nat, stack: Stack)
    requires Writable(img, s, k, size) && 2048 * Needed(size) <= |data|
    requires OrdinaryParent(img, k, size) && Count(img) < PERSISTED_RECORDS
    requires Fresh(img, k, NewItem(img, k, size))
    ensures Wrote(img, WriteImage(img, k, data, size, stack), k, NewItem(img, k, size))
  {
    WriteEffect(img, k, data, size, stack);
    WrittenRecord(img, s, k, data, size, stack);
    hide Inv, WriteImage, Listed, Link, EntryFor, WithEntry, Fresh;
  }

  /** The slots before a new entry are in use: it can be found again, even if its name is all zero. */
  lemma WrittenSlotComesFirst(t: Table, e: DirEntry)
    requires FreeSlot(t, 1) < 64 && e.undelete != 0
    ensures FreeSlot(t, 1) <= FreeSlot(WithEntry(t, FreeSlot(t, 1), e), 1)
  {
    assert forall j :: 1 <= j <= FreeSlot(t, 1) ==> WithEntry(t, FreeSlot(t, 1), e)[j].undelete != 0;
  }

  lemma WrittenIsFindable(img: Image, s: Store, k: Key, data: seq<byte>, size: nat, stack: Stack)
    requires Writable(img, s, k, size) && 2048 * Needed(size) <= |data|
    requires OrdinaryParent(img, k, size)
    ensures Findable(WriteImage(img, k, data, size, stack), AddItem(s, k, NewItem(img, k, size)), k)
    ensures Count(WriteImage(img, k, data, size, stack)) == Count(img) + 1
  {
    hide Inv, WriteImage, TableOf, FatOf, FreeFrom, FreeSlot, WriteCode, WithEntry, NewChain, Link;
    WriteEffect(img, k, data, size, stack);
    var it := NewItem(img, k, size);
    WrittenSlotComesFirst(TableOf(img, k.parent), EntryFor(k, it.isDir, it.chain[0]));
  }

  lemma UndoTable(t: Table, slot: nat, e: DirEntry)
    requires 1 <= slot < 64 && t[slot] == ZERO_ENTRY
    ensures WithEntry(t, slot, e)[slot := ZERO_ENTRY][1..] == t[1..]
  {
  }

  lemma UndoFat(img: Image, w: Image, keys: set<Key>, k: Key, it: Item, stack: Stack)
    requires IndexAgrees(img, keys) && k !in keys && Fresh(img, k, it) && Wrote(img, w, k, it)
    ensures Count(w) == Count(img) + 1
    ensures Unlink(FatOf(DeleteIndex(w, k, stack)), it.chain) == FatOf(img)
    ensures Listed(DeleteIndex(w, k, stack)) == Listed(img)
  {
    hide IndexAgrees;
    LinkThenUnlink(FatOf(img), it.chain, Count(img));
    hide TableOf, FatOf, Unlink, Link, DeleteIndex, Listed, EntryFor, WithEntry;
    DeletedAgain(img, w, keys, k, stack);
  }

  /** The parts of the image after a delete of a live entry. */
  ghost predicate Deleted(w: Image, d: Image, k: Key, it: Item, stack: Stack) {
    && k.parent < 2048 && 1 <= it.slot < 64 && Count(w) <= CLUSTER_MAP_SIZE
    && FatOf(d) == Unlink(FatOf(DeleteIndex(w, k, stack)), it.chain)
    && TableOf(d, k.parent) == TableOf(w, k.parent)[it.slot := ZERO_ENTRY]
    && Listed(d) == Listed(DeleteIndex(w, k, stack))
    && forall c :: c in it.chain ==> c < 2048 && d[c] == ZERO_CLUSTER
  }

  /** The tables stored after the index was updated leave its records alone. */
  lemma DeletedListed(w: Image, k: Key, stack: Stack)
    requires k.parent < 2048 && DeleteCode(w, k) == D_SUCCESS && Count(w) <= CLUSTER_MAP_SIZE
    requires (k.parent == ROOT_CLUSTER || FIRST_DATA_CLUSTER <= k.parent < 512)
    requires forall c :: c in DeletedChain(w, k) ==> FIRST_DATA_CLUSTER <= c < 512
    ensures Listed(DeleteImage(w, k, stack)) == Listed(DeleteIndex(w, k, stack))
  {
    hide DeletedChain, ClearedTable, TableOf, FatOf, DeleteIndex, StoreTables, ClearChain, Unlink, DeleteCode,
      Persisted;
    DeleteTablesKeepIndex(DeleteIndex(w, k, stack), k.parent, ClearedTable(w, k), DeletedChain(w, k));
  }

  lemma DeletedParts(w: Image, s: Store, k: Key, stack: Stack)
    requires Deletable(w, s, k)
    ensures DeleteCode(w, k) == D_SUCCESS
    ensures Deleted(w, DeleteImage(w, k, stack), k, s.items[k], stack)
  {
    hide Deletable, TableOf, FatOf, Unlink, DeleteIndex, Listed, DeleteImage, DeleteCode, ClearedTable, DeletedChain;
    DeletableFacts(w, s, k);
    DeleteEffect(w, k, stack);
    DeletedListed(w, k, stack);
  }

  /** The delete, given what the write left. */
  lemma UndoFrom(img: Image, w: Image, d: Image, keys: set<Key>, k: Key, it: Item, stack: Stack)
    requires IndexAgrees(img, keys) && k !in keys && Fresh(img, k, it) && Wrote(img, w, k, it)
    requires Deleted(w, d, k, it, stack)
    ensures Undone(img, d, k.parent, it.chain)
  {
    hide IndexAgrees, FatOf, Unlink, Link, DeleteIndex, Listed, WithEntry, EntryFor, DecodeTable;
    UndoFat(img, w, keys, k, it, stack);
    UndoTable(TableOf(img, k.parent), it.slot, EntryFor(k, it.isDir, it.chain[0]));
    SameFatBytes(img, d);
    SameSlotBytes(img[k.parent], d[k.parent]);
  }

  lemma WrittenIsDeletable(img: Image, s: Store, k: Key, data: seq<byte>, size: nat, stack: Stack)
    requires Writable(img, s, k, size) && 2048 * Needed(size) <= |data|
    ensures OrdinaryParent(img, k, size) && k !in s.items
    ensures
      var w, s' := WriteImage(img, k, data, size, stack), AddItem(s, k, NewItem(img, k, size));
      Deletable(w, s', k) && DeleteCode(w, k) == D_SUCCESS && RemoveItem(s', k) == s
  {
    hide WriteImage, DeleteCode, Findable, TableOf, FatOf, WriteCode, RemoveItem;
    WriteKeepsInvariant(img, s, k, data, size, stack);
    NewItemFacts(img, s, k, size);
    WrittenIsFindable(img, s, k, data, size, stack);
    RemoveUndoesAdd(s, k, NewItem(img, k, size));
    hide Inv;
    DeletableFacts(WriteImage(img, k, data, size, stack), AddItem(s, k, NewItem(img, k, size)), k);
  }

  lemma UndoBelowLimit(img: Image, s: Store, k: Key, data: seq<byte>, size: nat, stack: Stack, stack': Stack)
    requires Writable(img, s, k, size) && 2048 * Needed(size) <= |data|
    requires IndexAgrees(img, s.items.Keys) && Count(img) < PERSISTED_RECORDS
    ensures OrdinaryParent(img, k, size) && k !in s.items
    ensures
      var w, s' := WriteImage(img, k, data, size, stack), AddItem(s, k, NewItem(img, k, size));
      && Deletable(w, s', k) && DeleteCode(w, k) == D_SUCCESS
      && Undone(img, DeleteImage(w, k, stack'), k.parent, NewChain(img, size))
  {
    hide IndexAgrees, WriteImage, DeleteImage, DeleteCode, Wrote, Undone, Findable, Fresh, Deleted, Inv, TableOf, FatOf,
      WriteCode;
    WrittenIsDeletable(img, s, k, data, size, stack);
    NewItemIsFresh(img, s, k, size);
    WriteWrote(img, s, k, data, size, stack);
    var w, it := WriteImage(img, k, data, size, stack), NewItem(img, k, size);
    DeletedParts(w, AddItem(s, k, it), k, stack');
    UndoFrom(img, w, DeleteImage(w, k, stack'), s.items.Keys, k, it, stack');
  }

  /** A record that is not stored is missed by delete_index when the stack holds another byte for it. */
  lemma RecordIsMissed(w: Image, k: Key) returns (stack: Stack)
    requires Count(w) == PERSISTED_RECORDS + 1 && k !in Listed(w)
    ensures DeleteIndex(w, k, stack) == w
  {
    hide LoadIndex, Persisted, FatOf, EncodeRecord;
    var n := PERSISTED_RECORDS + 1;
    stack := StackWith(n, if EncodeRecord(k)[14] == 0 then 1 else 0);
    LastRecordIsStack(w, n, if EncodeRecord(k)[14] == 0 then 1 else 0);
    LoadedPrefix(w, stack, PERSISTED_RECORDS);
    var r := LoadIndex(w, stack);
    assert r[..n] == r[..409] + [r[409]];
    assert Persisted(w)[..409] == Persisted(w);
  }

  /** The count and the records after a write at the limit. */
  lemma WrittenAtLimit(img: Image, s: Store, k: Key, data: seq<byte>, size: nat, stack: Stack)
    requires Writable(img, s, k, size) && 2048 * Needed(size) <= |data|
    requires OrdinaryParent(img, k, size)
    requires Count(img) == PERSISTED_RECORDS
    ensures Count(WriteImage(img, k, data, size, stack)) == PERSISTED_RECORDS + 1
    ensures Listed(WriteImage(img, k, data, size, stack)) == Listed(img)
  {
    hide Inv, StageWrite, NewItem, NewChain, TableOf, FatOf, InsertIndex, Persisted, FreeSlot, FreeFrom, LoadIndex;
    var stage := StageWrite(img, k, data, size);
    StageKeepsIndex(img, k, data, size);
    InsertedRecord(stage, k, stack);
    LoadedPrefix(stage, stack, PERSISTED_RECORDS);
    assert (LoadIndex(stage, stack)[..409] + [k])[..409] == LoadIndex(stage, stack)[..409];
  }

  lemma SameCount(img: Image, img': Image)
    ensures img'[FAT_CLUSTER] == img[FAT_CLUSTER] ==> Count(img') == Count(img)
  {
  }

  lemma MissedCount(img: Image, w: Image, s: Store, k: Key, stack: Stack)
    requires Deletable(w, s, k) && DeleteIndex(w, k, stack) == w && Count(w) != Count(img)
    ensures DeleteCode(w, k) == D_SUCCESS && k.parent < 2048
    ensures !Undone(img, DeleteImage(w, k, stack), k.parent, s.items[k].chain)
  {
    hide Inv, Findable, TableOf, FatOf, DeleteIndex, Listed, DeleteImage, DeleteCode, ClearedTable, DeletedChain;
    DeletableFacts(w, s, k);
    DeletedParts(w, s, k, stack);
    UnlinkOthers(FatOf(w), s.items[k].chain, INDEX_CLUSTER);
    assert Count(DeleteImage(w, k, stack)) == Count(w);
    SameCount(img, DeleteImage(w, k, stack));
  }

  lemma UndoFailsAtLimit(img: Image, s: Store, k: Key, data: seq<byte>, size: nat, stack: Stack)
    returns (stack': Stack)
    requires Writable(img, s, k, size) && 2048 * Needed(size) <= |data|
    requires IndexAgrees(img, s.items.Keys) && Count(img) == PERSISTED_RECORDS
    ensures OrdinaryParent(img, k, size) && k !in s.items
    ensures
      var w, s' := WriteImage(img, k, data, size, stack), AddItem(s, k, NewItem(img, k, size));
      && Deletable(w, s', k) && DeleteCode(w, k) == D_SUCCESS
      && !Undone(img, DeleteImage(w, k, stack'), k.parent, NewChain(img, size))
  {
    hide IndexAgrees, WriteImage, DeleteImage, DeleteCode, Undone, Findable, TableOf, FatOf, WriteCode, DeleteIndex;
    WrittenIsDeletable(img, s, k, data, size, stack);
    WrittenAtLimit(img, s, k, data, size, stack);
    hide Inv, Listed;
    AgreesIff(img, s.items.Keys);
    var w := WriteImage(img, k, data, size, stack);
    stack' := RecordIsMissed(w, k);
    MissedCount(img, w, AddItem(s, k, NewItem(img, k, size)), k, stack');
  }

  /**
    * Writing a fresh key and deleting it again restores the simple store. While
    * index and tree agree it restores, whatever the stack holds, the file
    * allocation table with the index count byte for byte, the index records and
    * the slots of the parent directory byte for byte, and zeroes the clusters
    * used in between, exactly if fewer than 409 entries were in place.
    */
  lemma {:induction false} DeleteUndoesWriteIff(img: Image, s: Store, k: Key, data: seq<byte>, size: nat, stack: Stack)
    requires Writable(img, s, k, size) && 2048 * Needed(size) <= |data|
    requires IndexAgrees(img, s.items.Keys)
    ensures OrdinaryParent(img, k, size) && k !in s.items
    ensures
      var w, s' := WriteImage(img, k, data, size, stack), AddItem(s, k, NewItem(img, k, size));
      && Deletable(w, s', k) && DeleteCode(w, k) == D_SUCCESS && RemoveItem(s', k) == s
      && ((forall stack' :: Undone(img, DeleteImage(w, k, stack'), k.parent, NewChain(img, size)))
          <==> Count(img) < PERSISTED_RECORDS)
  {
    hide IndexAgrees, WriteImage, DeleteImage, DeleteCode, Undone, TableOf, FatOf, WriteCode, Inv, Findable, RemoveItem,
      Listed;
    WrittenIsDeletable(img, s, k, data, size, stack);
    AgreesIff(img, s.items.Keys);
    var w := WriteImage(img, k, data, size, stack);
    if Count(img) < PERSISTED_RECORDS {
      forall stack': Stack
        ensures Undone(img, DeleteImage(w, k, stack'), k.parent, NewChain(img, size))
      {
        UndoBelowLimit(img, s, k, data, size, stack, stack');
      }
    } else {
      var stack' := UndoFailsAtLimit(img, s, k, data, size, stack);
    }
  }
}
