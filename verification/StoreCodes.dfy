/**
  * The return codes as a function of the simple store alone: how full a
  * directory is and how many clusters are free can be told from the map.
  */
module StoreCodes {
  import opened Bytes
  import opened Layout
  import opened DiskImage
  import opened Allocation
  import opened IndexFile
  import opened Volume
  import opened WriteEffects
  import opened WriteInvariant
  import opened DeleteEffects
  import opened FileStore
  import opened Runs
  import opened Creation
  import opened Agreement
  import opened Uniqueness

  lemma {:induction false} InjectiveCardinality<T, U>(f: map<T, U>)
    requires forall x, y :: x in f && y in f && f[x] == f[y] ==> x == y
    ensures |f.Keys| == |f.Values|
  {
    if f == map[] {
      assert f.Values == {};
    } else {
      var x :| x in f;
      var g := f - {x};
      InjectiveCardinality(g);
      assert f.Keys == g.Keys + {x};
      assert f.Values == g.Values + {f[x]};
    }
  }

  // ---- the slots of a directory ----

  /** The live entries of a directory. */
  ghost function Children(m: Model, d: word): set<Key> {
    set k | k in m && k.parent == d
  }

  ghost function Slots(s: Store, d: word): map<Key, nat> {
    map k | k in s.items && k.parent == d :: s.items[k].slot
  }

  /** The numbers from 1 below n. */
  ghost function Places(n: nat): (p: set<nat>)
    requires n > 0
    ensures |p| == n - 1
    ensures forall i :: i in p <==> 1 <= i < n
  {
    if n == 1 then {} else Places(n - 1) + {n - 1}
  }

  lemma SubsetOfSameSize<T>(a: set<T>, b: set<T>)
    requires a <= b
    ensures |a| <= |b|
    ensures |a| == |b| <==> a == b
  {
    assert b == a + (b - a);
  }

  lemma SlotsDiffer(img: Image, s: Store, k: Key, k': Key)
    requires DirsMatch(img, s) && k in s.items && k' in s.items
    requires k.parent == k'.parent && s.items[k].slot == s.items[k'].slot
    ensures k == k'
  {
    hide TableOf, Headers;
    var e := TableOf(img, k.parent)[s.items[k].slot];
    assert EntryOf(e, k, s.items[k]) && EntryOf(e, k', s.items[k']);
  }

  /** A slot holds a live entry exactly when it is in use. */
  lemma UsedByEntry(img: Image, s: Store, d: word, i: nat)
    requires DirsMatch(img, s) && d in s.depth && 1 <= i < 64
    ensures i in Slots(s, d).Values <==> TableOf(img, d)[i].undelete != 0
  {
    hide TableOf, Headers;
    var e := TableOf(img, d)[i];
    assert SlotExplained(e, d, i, s);
    var k := Key(d, e.name, e.ext);
    UsedSlot(img, s, d, i);
    if e != ZERO_ENTRY {
      assert Slots(s, d)[k] == i;
    }
    if i in Slots(s, d).Values {
      var k' :| k' in Slots(s, d) && Slots(s, d)[k'] == i;
      assert EntryOf(e, k', s.items[k']);
    }
  }

  lemma SlotsCount(img: Image, s: Store, d: word)
    requires DirsMatch(img, s)
    ensures |Slots(s, d).Keys| == |Slots(s, d).Values|
    ensures Slots(s, d).Values <= Places(64)
  {
    hide TableOf, Headers, Entries;
    var slots := Slots(s, d);
    forall k, k' | k in slots && k' in slots && slots[k] == slots[k']
      ensures k == k'
    {
      SlotsDiffer(img, s, k, k');
    }
    InjectiveCardinality(slots);
  }

  lemma FullIffAllUsed(img: Image, s: Store, d: word)
    requires DirsMatch(img, s) && d in s.depth && Slots(s, d).Values <= Places(64)
    ensures FreeSlot(TableOf(img, d), 1) == 64 <==> Slots(s, d).Values == Places(64)
  {
    hide TableOf, Headers, Entries, Tree, Slots, SlotExplained, EntryOf, FreeSlot;
    var t, used := TableOf(img, d), Slots(s, d).Values;
    forall i | 1 <= i < 64
      ensures i in used <==> t[i].undelete != 0
    {
      UsedByEntry(img, s, d, i);
    }
    assert FreeSlot(t, 1) < 64 ==> FreeSlot(t, 1) in Places(64);
  }

  /** A live directory has no free slot exactly when 63 live entries name it as parent. */
  lemma {:induction false} DirectoryFullIff(st: State, d: word)
    requires Ok(st) && d in st.s.depth
    ensures d < 2048
    ensures |Children(Files(st), d)| <= 63
    ensures FreeSlot(TableOf(st.img, d), 1) == 64 <==> |Children(Files(st), d)| == 63
  {
    hide TableOf, FatMatches, SIGNATURE, Tree, Headers, Entries, ContentOf, FreeSlot, ChainsInMap;
    SlotsCount(st.img, st.s, d);
    FullIffAllUsed(st.img, st.s, d);
    SubsetOfSameSize(Slots(st.s, d).Values, Places(64));
    assert Slots(st.s, d).Keys == Children(Files(st), d);
  }

  // ---- the clusters of all contents ----

  function ClustersOf(c: Content): nat {
    if c.Directory? then 1 else |c.data| / 2048
  }

  /** One element for each cluster of each content. */
  ghost function Blocks(m: Model): set<(Key, nat)> {
    set k, i: nat | k in m && i < ClustersOf(m[k]) :: (k, i)
  }

  lemma ContentClusters(st: State, k: Key)
    requires Ok(st) && k in st.s.items
    ensures ClustersOf(Files(st)[k]) == |st.s.items[k].chain|
  {
    InvChainsInMap(st.img, st.s);
    hide TableOf, FatMatches, SIGNATURE, Headers, Entries;
    assert st.s.items[k].isDir ==> DirItem(st.s, k, st.s.items[k]);
  }

  /** Where each cluster of each content lies. */
  ghost function Locations(s: Store): map<(Key, nat), word> {
    map k, i: nat | k in s.items && i < |s.items[k].chain| :: (k, i) := s.items[k].chain[i]
  }

  lemma LocationsDiffer(fat: Fat, s: Store, p: (Key, nat), q: (Key, nat))
    requires Chains(fat, s) && Owners(s) && p in Locations(s) && q in Locations(s)
    requires Locations(s)[p] == Locations(s)[q]
    ensures p == q
  {
    ChainsDisjoint(s, p.0, q.0, Locations(s)[p]);
    assert IsChain(fat, s.items[p.0].chain);
  }

  lemma LocatedBlocks(st: State)
    requires Ok(st)
    ensures Locations(st.s).Keys == Blocks(Files(st))
  {
    hide Inv, ContentOf, ClustersOf, ChainsInMap;
    forall k | k in st.s.items
      ensures ClustersOf(Files(st)[k]) == |st.s.items[k].chain|
    {
      ContentClusters(st, k);
    }
    assert Files(st).Keys == st.s.items.Keys;
  }

  lemma LocationsAreOwned(s: Store)
    requires Owners(s)
    ensures Locations(s).Values == s.owner.Keys
  {
    forall c | c in s.owner
      ensures c in Locations(s).Values
    {
      var k := s.owner[c];
      var i: nat :| i < |s.items[k].chain| && s.items[k].chain[i] == c;
      assert Locations(s)[(k, i)] == c;
    }
    forall p | p in Locations(s)
      ensures Locations(s)[p] in s.owner
    {
      assert Owns(s, p.0, Locations(s)[p]);
    }
  }

  /** The free data clusters are those of 504 that no content takes. */
  lemma {:induction false} FreeClustersFromStore(st: State)
    requires Ok(st)
    ensures |FreeFrom(FatOf(st.img), FIRST_DATA_CLUSTER)| == 504 - |Blocks(Files(st))|
  {
    hide TableOf, SIGNATURE, DirsMatch, FatOf, FreeFrom, Chains, Owners, Files, Blocks, Locations;
    var at := Locations(st.s);
    forall p, q | p in at && q in at && at[p] == at[q]
      ensures p == q
    {
      LocationsDiffer(FatOf(st.img), st.s, p, q);
    }
    InjectiveCardinality(at);
    LocationsAreOwned(st.s);
    FreePlusOwned(FatOf(st.img), st.s);
    LocatedBlocks(st);
  }

  // ---- the codes ----

  /** The space check of write, told from the map; noRecords says that the index count is 0. */
  ghost predicate SeemsToFit(m: Model, size: nat, noRecords: bool) {
    Needed(size) <= 506 - |Blocks(m)| + (if noRecords then 1 else 0)
  }

  /** The clusters of the request fit into what the contents leave of 504. */
  ghost predicate Fits(m: Model, size: nat) {
    |Blocks(m)| + Taken(size) <= 504
  }

  /** What any write in a live directory reports, legal or not. */
  lemma {:induction false} WriteCodeFromStore(st: State, k: Key, size: nat)
    requires Ok(st) && k.parent in st.s.depth
    ensures k.parent < 2048
    ensures WriteCode(st.img, k, size) ==
            if k in Files(st) then 1
            else if |Children(Files(st), k.parent)| < 63 && SeemsToFit(Files(st), size, Count(st.img) == 0)
            then 0
            else -1
  {
    hide TableOf, FatOf, FatMatches, SIGNATURE, DirsMatch, FreeFrom, FreeSlot, Duplicate, Count, Blocks, Children,
      ContentOf;
    DuplicateIffLive(st.img, st.s, k);
    LiveParent(st.img, st.s, k.parent);
    SpaceCheckOvercounts(st.img, st.s);
    FreeClustersFromStore(st);
    DirectoryFullIff(st, k.parent);
  }

  /** A write finds all its clusters exactly when the contents leave enough of 504. */
  lemma AllocatableFromStore(st: State, size: nat)
    requires Ok(st)
    ensures Allocatable(st.img, size) <==> Fits(Files(st), size)
  {
    hide Inv, FatOf, FreeFrom, Files, Blocks;
    FreeClustersFromStore(st);
  }

  /** The code of a legal request is a function of the map. */
  ghost function ModelCode(m: Model, op: Op): int {
    match op
    case Write(k, _, size, _) =>
      if k in m then 1
      else if Fits(m, size) && |Children(m, k.parent)| < 63 then 0
      else -1
    case Delete(k, _) => if k in m then 0 else 1
  }

  lemma DeleteCodeFromStore(st: State, k: Key)
    requires Ok(st) && k.parent in st.s.depth && Findable(st.img, st.s, k)
    ensures DeleteCode(st.img, k) == if k in Files(st) then 0 else 1
  {
    hide TableOf, FatOf, FatMatches, SIGNATURE, DirsMatch, DeleteCode, Findable, ContentOf;
    DeleteCodeIff(st.img, st.s, k);
  }

  /** Every legal request reports what the map says. */
  lemma {:induction false} CodesFromStore(st: State, op: Op)
    requires LegalIn(st, op)
    ensures Code(st.img, op) == ModelCode(Files(st), op)
  {
    hide Inv, WriteCode, DeleteCode, Allocatable, Findable, Count, Files, Blocks, Children;
    match op
    case Write(k, _, size, _) =>
      WriteCodeFromStore(st, k, size);
      AllocatableFromStore(st, size);
    case Delete(k, _) =>
      DeleteCodeFromStore(st, k);
  }

  // ---- what callers owe ----

  /** The root, or a directory of the map. */
  ghost predicate LiveHandle(m: Model, d: word) {
    d == ROOT_CLUSTER || exists k :: k in m && m[k] == Directory(d)
  }

  lemma LiveHandleIff(st: State, d: word)
    requires Ok(st)
    ensures LiveHandle(Files(st), d) <==> d in st.s.depth
    ensures d in st.s.depth ==> d < 2048
  {
    InvChainsInMap(st.img, st.s);
    hide TableOf, FatOf, FatMatches, SIGNATURE, Headers, Entries;
    if d in st.s.depth && d != ROOT_CLUSTER {
      DirectoryItem(st.img, st.s, d);
      assert Files(st)[st.s.owner[d]] == Directory(d);
    }
    if k :| k in Files(st) && Files(st)[k] == Directory(d) {
      LiveDirectory(st.img, st.s, k);
    }
  }

  /**
    * What callers owe, told from the map: a live parent; for a write whole
    * clusters of data, and that it fits if it seems to; for a delete a name that
    * is not all zero, and an empty directory if it is one.
    */
  ghost predicate ModelLegal(m: Model, op: Op) {
    && LiveHandle(m, op.key.parent)
    && match op
       case Write(k, data, size, _) =>
         && 2048 * Needed(size) <= |data|
         && (k !in m && SeemsToFit(m, size, m == map[]) && |Children(m, k.parent)| < 63 ==> Fits(m, size))
       case Delete(k, _) =>
         && Nameable(k)
         && (k in m && m[k].Directory? ==> Children(m, m[k].cluster) == {})
  }

  lemma NoRecordsIffEmpty(st: State)
    requires Agrees(st)
    ensures Count(st.img) == 0 <==> Files(st) == map[]
    ensures Count(st.img) <= PERSISTED_RECORDS
  {
    hide Inv, IndexAgrees, Count, ContentOf;
    CountIsLiveEntries(st.img, st.s.items.Keys);
    AgreesIff(st.img, st.s.items.Keys);
    assert Files(st).Keys == st.s.items.Keys;
  }

  lemma RemovableFromStore(st: State, k: Key)
    requires Ok(st) && k in st.s.items
    ensures k in Files(st)
    ensures Removable(st.s, k) <==> (Files(st)[k].Directory? ==> Children(Files(st), Files(st)[k].cluster) == {})
  {
    InvChainsInMap(st.img, st.s);
    hide Inv, ChainData;
    var d := st.s.items[k].chain[0];
    if st.s.items[k].isDir {
      assert Children(Files(st), d) == (set c | c in st.s.items && c.parent == d);
      assert forall c :: c in st.s.items && c.parent == d ==> c in Children(Files(st), d);
    }
  }

  lemma SameKeys(st: State)
    requires Ok(st)
    ensures Files(st).Keys == st.s.items.Keys
  {
    hide Inv, ContentOf;
  }

  /** While index and tree agree, the map tells which requests are legal. */
  lemma {:induction false} LegalFromStoreIff(st: State, op: Op)
    requires Agrees(st)
    ensures ModelLegal(Files(st), op) ==> LegalIn(st, op)
    ensures LegalIn(st, op) && (op.Delete? ==> Nameable(op.key)) ==> ModelLegal(Files(st), op)
  {
    hide Inv, IndexAgrees, WriteCode, Allocatable, Count, Files, Blocks, Children, FreeSlot, TableOf, Removable,
      LiveHandle, SeemsToFit, Fits;
    NoRecordsIffEmpty(st);
    LiveHandleIff(st, op.key.parent);
    if op.key.parent in st.s.depth {
      match op
      case Write(k, _, size, _) =>
        WriteCodeFromStore(st, k, size);
        AllocatableFromStore(st, size);
      case Delete(k, _) =>
        SameKeys(st);
        if k in st.s.items {
          RemovableFromStore(st, k);
        }
    }
  }

  // ---- runs of the simple store ----

  /** What the requests of a run report. */
  ghost function RunCodes(st: State, ops: seq<Op>): seq<int>
    requires LegalRun(st, ops)
    decreases |ops|
  {
    if ops == [] then [] else [Code(st.img, ops[0])] + RunCodes(Step(st, ops[0]), ops[1..])
  }

  /** The clusters the allocator would hand out first, request by request. */
  ghost function Handles(st: State, ops: seq<Op>): (h: seq<word>)
    requires LegalRun(st, ops)
    ensures |h| == |ops|
    decreases |ops|
  {
    if ops == [] then [] else [FirstFree(st.img)] + Handles(Step(st, ops[0]), ops[1..])
  }

  ghost predicate WholeClusters(ops: seq<Op>) {
    forall i :: 0 <= i < |ops| && ops[i].Write? ==> 2048 * Needed(ops[i].size) <= |ops[i].data|
  }

  lemma {:induction false} LegalRunIsWhole(st: State, ops: seq<Op>)
    requires LegalRun(st, ops)
    ensures WholeClusters(ops)
    decreases |ops|
  {
    hide Inv, Step, WriteCode, Needed, Findable, Allocatable;
    if ops != [] {
      LegalRunIsWhole(Step(st, ops[0]), ops[1..]);
      assert ops == [ops[0]] + ops[1..];
    }
  }

  /** A run of the simple store: its codes, and the map at the end. */
  ghost function ModelRun(m: Model, ops: seq<Op>, handles: seq<word>): (seq<int>, Model)
    requires WholeClusters(ops) && |handles| == |ops|
    decreases |ops|
  {
    if ops == [] then ([], m)
    else
      var code := ModelCode(m, ops[0]);
      var (codes, m') := ModelRun(ModelStep(m, ops[0], code == 0, handles[0]), ops[1..], handles[1..]);
      ([code] + codes, m')
  }

  lemma StepRefinesModel(st: State, op: Op)
    requires LegalIn(st, op)
    ensures Ok(Step(st, op))
    ensures
      var code := ModelCode(Files(st), op);
      Code(st.img, op) == code && Files(Step(st, op)) == ModelStep(Files(st), op, code == 0, FirstFree(st.img))
  {
    hide Inv, Code, ModelCode, ModelStep, Step, Files, Legal;
    StepRefines(st, op);
    CodesFromStore(st, op);
  }

  /**
    * The driver is the simple store: over every legal run it reports the codes,
    * and ends with the contents, of the map's own run. This does not need the
    * index: it holds on after the index has lost entries.
    */
  lemma {:induction false} RunRefinesModel(st: State, ops: seq<Op>)
    requires Ok(st) && LegalRun(st, ops)
    ensures Ok(Run(st, ops)) && WholeClusters(ops)
    ensures (RunCodes(st, ops), Files(Run(st, ops))) == ModelRun(Files(st), ops, Handles(st, ops))
    decreases |ops|
  {
    hide Inv, Code, ModelCode, ModelStep, Step, Files, Legal;
    RunKeepsInvariant(st, ops);
    LegalRunIsWhole(st, ops);
    if ops != [] {
      StepRefinesModel(st, ops[0]);
      LegalRunIsWhole(Step(st, ops[0]), ops[1..]);
      assert Handles(st, ops)[1..] == Handles(Step(st, ops[0]), ops[1..]);
      RunRefinesModel(Step(st, ops[0]), ops[1..]);
    }
  }
}
