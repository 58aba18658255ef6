/** Whole runs of the driver: any sequence of writes and deletes from any state that satisfies the invariant. */
module Runs {
  import opened Bytes
  import opened Layout
  import opened DiskImage
  import opened Allocation
  import opened IndexFile
  import opened Volume
  import opened WriteEffects
  import opened WriteInvariant
  import opened DeleteEffects
  import opened FileStore

  /** One request, with the stack contents its index access happens to see. */
  datatype Op =
    | Write(key: Key, data: seq<byte>, size: nat, stack: Stack)
    | Delete(key: Key, stack: Stack)

  /**
    * What callers owe: a live parent directory, whole clusters of data, room for
    * every allocator call of a write that passes the space check, room in the
    * index table, no delete that meets a free slot first, and no delete of a
    * non-empty directory.
    */
  ghost predicate Legal(img: Image, s: Store, op: Op) {
    && op.key.parent in s.depth && op.key.parent < 2048
    && match op
       case Write(k, data, size, _) =>
         && 2048 * Needed(size) <= |data|
         && (WriteCode(img, k, size) == W_SUCCESS ==> Allocatable(img, size) && Count(img) < CLUSTER_MAP_SIZE)
       case Delete(k, _) =>
         && Findable(img, s, k) && Count(img) <= CLUSTER_MAP_SIZE
         && (k in s.items ==> Removable(s, k))
  }

  function Code(img: Image, op: Op): int
    requires op.key.parent < 2048
  {
    match op
    case Write(k, _, size, _) => WriteCode(img, k, size)
    case Delete(k, _) => DeleteCode(img, k)
  }

  datatype State = State(img: Image, s: Store)

  ghost predicate Ok(st: State) {
    Inv(st.img, st.s)
  }

  ghost predicate LegalIn(st: State, op: Op) {
    Ok(st) && Legal(st.img, st.s, op)
  }

  ghost function WriteStep(st: State, k: Key, data: seq<byte>, size: nat, stack: Stack): State
    requires Writable(st.img, st.s, k, size) && 2048 * Needed(size) <= |data|
  {
    LiveParentIsOrdinary(st.img, st.s, k, size);
    State(WriteImage(st.img, k, data, size, stack), AddItem(st.s, k, NewItem(st.img, k, size)))
  }

  ghost function DeleteStep(st: State, k: Key, stack: Stack): State
    requires Inv(st.img, st.s) && k.parent in st.s.depth && Findable(st.img, st.s, k)
    requires DeleteCode(st.img, k) == D_SUCCESS && Count(st.img) <= CLUSTER_MAP_SIZE
  {
    DeleteCodeIff(st.img, st.s, k);
    InvChainsInMap(st.img, st.s);
    State(DeleteImage(st.img, k, stack), RemoveItem(st.s, k))
  }

  ghost function Step(st: State, op: Op): State
    requires LegalIn(st, op)
  {
    if Code(st.img, op) != 0 then st
    else
      match op
      case Write(k, data, size, stack) => WriteStep(st, k, data, size, stack)
      case Delete(k, stack) => DeleteStep(st, k, stack)
  }

  lemma StepKeepsInvariant(st: State, op: Op)
    requires LegalIn(st, op)
    ensures Ok(Step(st, op))
  {
    hide Inv, WriteImage, DeleteImage, DeleteCode, Allocatable, TableOf, AddItem, RemoveItem, Removable, NewItem, Count;
    if Code(st.img, op) == 0 {
      match op
      case Write(k, data, size, stack) =>
        WriteKeepsInvariant(st.img, st.s, k, data, size, stack);
      case Delete(k, stack) =>
        DeleteCodeIff(st.img, st.s, k);
        DeleteKeepsInvariantIff(st.img, st.s, k, stack);
    }
  }

  // ---- the simple store ----

  type Model = map<Key, Content>

  /** The simple store a state stands for. */
  ghost function Files(st: State): Model
    requires Ok(st)
  {
    InvChainsInMap(st.img, st.s);
    Contents(st.img, st.s)
  }

  /** The same request on the simple store; c is the cluster a new directory got. */
  function ModelStep(m: Model, op: Op, ok: bool, c: word): Model
    requires op.Write? ==> 2048 * Needed(op.size) <= |op.data|
  {
    if !ok then m
    else
      match op
      case Write(k, data, size, _) => m[k := if size == 0 then Directory(c) else File(Padded(data, size))]
      case Delete(k, _) => m - {k}
  }

  /** The first cluster the allocator hands out. */
  function FirstFree(img: Image): word {
    var free := FreeFrom(FatOf(img), FIRST_DATA_CLUSTER);
    if free == [] then 0 else free[0]
  }

  lemma WriteStepRefines(st: State, op: Op)
    requires LegalIn(st, op) && op.Write? && Code(st.img, op) == 0
    requires Ok(Step(st, op))
    ensures Files(Step(st, op)) == ModelStep(Files(st), op, true, FirstFree(st.img))
  {
    var Write(k, data, size, stack) := op;
    assert Writable(st.img, st.s, k, size);
    WriteRefines(st.img, st.s, k, data, size, stack);
    assert NewChain(st.img, size)[0] == FirstFree(st.img);
    hide WriteImage, Inv, ContentOf, WriteCode, TableOf, AddItem, Contents, NewItem, FirstFree, NewChain, FatOf,
      Allocatable, ChainsInMap, Padded;
    assert Step(st, op) == WriteStep(st, k, data, size, stack);
  }

  lemma DeleteStepRefines(st: State, op: Op)
    requires LegalIn(st, op) && op.Delete? && Code(st.img, op) == 0
    requires Ok(Step(st, op))
    ensures Files(Step(st, op)) == ModelStep(Files(st), op, true, FirstFree(st.img))
  {
    var Delete(k, stack) := op;
    DeleteCodeIff(st.img, st.s, k);
    DeleteRefines(st.img, st.s, k, stack);
    hide DeleteImage, Inv, ContentOf, DeleteCode, TableOf, RemoveItem, Contents, FirstFree, Count, ChainsInMap;
    assert Step(st, op) == DeleteStep(st, k, stack);
  }

  /** Every request that reports anything but success leaves the whole image as it was. */
  lemma FailedStep(st: State, op: Op)
    requires LegalIn(st, op) && Code(st.img, op) != 0
    ensures Step(st, op) == st
    ensures ModelStep(Files(st), op, false, FirstFree(st.img)) == Files(st)
  {
    hide Inv, Code, FirstFree, Contents;
  }

  /** One request refines one step of the simple store. */
  lemma StepRefines(st: State, op: Op)
    requires LegalIn(st, op)
    ensures Ok(Step(st, op))
    ensures Files(Step(st, op)) == ModelStep(Files(st), op, Code(st.img, op) == 0, FirstFree(st.img))
  {
    StepKeepsInvariant(st, op);
    hide Ok, Code, FirstFree, WriteStep, DeleteStep, Files, ModelStep;
    if Code(st.img, op) == 0 {
      match op
      case Write(_, _, _, _) => WriteStepRefines(st, op);
      case Delete(_, _) => DeleteStepRefines(st, op);
    } else {
      FailedStep(st, op);
    }
  }

  lemma OwnedOrRoot(st: State, k: Key, size: nat, d: word)
    requires Writable(st.img, st.s, k, size) && d in st.s.depth
    ensures d !in NewChain(st.img, size)
  {
    hide FatOf, FreeFrom, TableOf, SIGNATURE, Chains, Entries, Headers, WriteCode, FreeSlot;
    NewChainFacts(st.img, size);
    LiveParent(st.img, st.s, d);
  }

  lemma WriteKeepsTable(st: State, op: Op, d: word)
    requires LegalIn(st, op) && op.Write? && Code(st.img, op) == 0 && d in st.s.depth && d != op.key.parent && d < 2048
    ensures Step(st, op).img[d] == st.img[d]
  {
    hide Inv, TableOf, FatOf, FreeSlot, WriteImage, InitTable, Link, ParentTable, AddItem, FreeFrom;
    var Write(k, data, size, stack) := op;
    NewItemFacts(st.img, st.s, k, size);
    WriteEffect(st.img, k, data, size, stack);
    LiveParent(st.img, st.s, d);
    assert Step(st, op) == WriteStep(st, k, data, size, stack);
    OwnedOrRoot(st, k, size, d);
  }

  lemma DeleteKeepsTable(st: State, op: Op, d: word)
    requires LegalIn(st, op) && op.Delete? && Code(st.img, op) == 0
    requires d in st.s.depth && d in Step(st, op).s.depth && d != op.key.parent && d < 2048
    ensures Step(st, op).img[d] == st.img[d]
  {
    hide Inv, TableOf, FatOf, DeleteImage, DeleteCode, DeletedChain, ClearedTable, Unlink, DeleteIndex;
    var Delete(k, stack) := op;
    DeleteCodeIff(st.img, st.s, k);
    ParentSurvives(st.img, st.s, k);
    DeleteEffect(st.img, k, stack);
    LiveParent(st.img, st.s, d);
    if d in st.s.items[k].chain {
      DirectoryNotInChain(st.img, st.s, d, k);
    }
    assert Step(st, op) == DeleteStep(st, k, stack);
  }

  /** A request leaves the table of every other surviving directory byte for byte. */
  lemma StepKeepsOtherTables(st: State, op: Op, d: word)
    requires LegalIn(st, op) && d in st.s.depth && d in Step(st, op).s.depth && d != op.key.parent
    ensures d < 2048 && Step(st, op).img[d] == st.img[d]
  {
    hide Inv, Step, Code, WriteCode, Findable, Removable, TableOf, FatOf;
    LiveParent(st.img, st.s, d);
    if Code(st.img, op) != 0 {
      FailedStep(st, op);
    } else {
      match op
      case Write(_, _, _, _) => WriteKeepsTable(st, op, d);
      case Delete(_, _) => DeleteKeepsTable(st, op, d);
    }
  }

  // ---- runs ----

  ghost predicate LegalRun(st: State, ops: seq<Op>)
    decreases |ops|
  {
    ops != [] ==> LegalIn(st, ops[0]) && LegalRun(Step(st, ops[0]), ops[1..])
  }

  ghost function Run(st: State, ops: seq<Op>): State
    requires LegalRun(st, ops)
    decreases |ops|
  {
    if ops == [] then st else Run(Step(st, ops[0]), ops[1..])
  }

  /** Every state of every legal run satisfies the invariant. */
  lemma {:induction false} RunKeepsInvariant(st: State, ops: seq<Op>)
    requires Ok(st) && LegalRun(st, ops)
    ensures Ok(Run(st, ops))
    decreases |ops|
  {
    hide Ok, LegalIn, Step;
    if ops != [] {
      StepKeepsInvariant(st, ops[0]);
      RunKeepsInvariant(Step(st, ops[0]), ops[1..]);
    }
  }

  /** One more request at the end of a run. */
  lemma {:induction false} RunAppend(st: State, ops: seq<Op>, op: Op)
    requires LegalRun(st, ops) && LegalIn(Run(st, ops), op)
    ensures LegalRun(st, ops + [op])
    ensures Run(st, ops + [op]) == Step(Run(st, ops), op)
    decreases |ops|
  {
    hide LegalIn, Step;
    if ops == [] {
      assert [op][1..] == [];
      assert LegalRun(Step(st, op), []) && Run(Step(st, op), []) == Step(st, op);
      assert [] + [op] == [op];
    } else {
      assert (ops + [op])[1..] == ops[1..] + [op];
      RunAppend(Step(st, ops[0]), ops[1..], op);
    }
  }

  ghost predicate Untouched(k: Key, ops: seq<Op>) {
    forall i :: 0 <= i < |ops| ==> ops[i].key != k
  }

  /** The same key with the same content, or absent, in both. */
  ghost predicate SameAt(m: Model, m': Model, k: Key) {
    (k in m <==> k in m') && (k in m ==> m'[k] == m[k])
  }

  /** What no request of a run names keeps its content through the run. */
  lemma {:induction false} RunKeepsOthers(st: State, ops: seq<Op>, k: Key)
    requires Ok(st) && LegalRun(st, ops) && Untouched(k, ops)
    ensures Ok(Run(st, ops))
    ensures SameAt(Files(st), Files(Run(st, ops)), k)
    decreases |ops|
  {
    hide Ok, LegalIn, Step, Files;
    RunKeepsInvariant(st, ops);
    if ops != [] {
      StepRefines(st, ops[0]);
      assert ops[0].key != k;
      assert Untouched(k, ops[1..]);
      RunKeepsOthers(Step(st, ops[0]), ops[1..], k);
    }
  }

  /** Directory d is live at every moment of the run. */
  ghost predicate StaysLive(st: State, ops: seq<Op>, d: word)
    requires LegalRun(st, ops)
    decreases |ops|
  {
    d in st.s.depth && (ops != [] ==> StaysLive(Step(st, ops[0]), ops[1..], d))
  }

  ghost predicate NeverParent(d: word, ops: seq<Op>) {
    forall i :: 0 <= i < |ops| ==> ops[i].key.parent != d
  }

  lemma DepthInMap(st: State, d: word)
    requires Ok(st) && d in st.s.depth
    ensures d < 512
  {
  }

  /** A directory that stays live and that no request names as parent keeps its table byte for byte. */
  lemma {:induction false} RunKeepsOtherTables(st: State, ops: seq<Op>, d: word)
    requires Ok(st) && LegalRun(st, ops) && StaysLive(st, ops, d) && NeverParent(d, ops)
    ensures d < 2048 && Run(st, ops).img[d] == st.img[d]
    decreases |ops|
  {
    hide Inv, LegalIn, Step;
    if ops == [] {
      DepthInMap(st, d);
    } else {
      assert NeverParent(d, ops[1..]);
      assert ops[0].key.parent != d;
      StepKeepsInvariant(st, ops[0]);
      RunKeepsOtherTables(Step(st, ops[0]), ops[1..], d);
      StepKeepsOtherTables(st, ops[0], d);
    }
  }

  /** A live directory entry, as the simple store tells it. */
  ghost predicate HoldsDirectory(st: State, k: Key, d: word)
    requires Ok(st)
  {
    k in Files(st) && Files(st)[k] == Directory(d)
  }

  lemma HeldDirectoryIsLive(st: State, k: Key, d: word)
    requires Ok(st) && HoldsDirectory(st, k, d)
    ensures d in st.s.depth
  {
    InvChainsInMap(st.img, st.s);
    hide Inv;
    LiveDirectory(st.img, st.s, k);
  }

  lemma StepKeepsDirectory(st: State, op: Op, k: Key, d: word)
    requires LegalIn(st, op) && HoldsDirectory(st, k, d) && op.key != k
    ensures Ok(Step(st, op)) && HoldsDirectory(Step(st, op), k, d)
  {
    hide Inv, Legal, Step, Files, Code;
    StepRefines(st, op);
  }

  lemma {:induction false} UnnamedStaysLive(st: State, ops: seq<Op>, k: Key, d: word)
    requires Ok(st) && LegalRun(st, ops) && HoldsDirectory(st, k, d) && Untouched(k, ops)
    ensures StaysLive(st, ops, d)
    decreases |ops|
  {
    hide Ok, LegalIn, Step, HoldsDirectory;
    HeldDirectoryIsLive(st, k, d);
    if ops != [] {
      assert ops[0].key != k;
      assert Untouched(k, ops[1..]);
      StepKeepsDirectory(st, ops[0], k, d);
      UnnamedStaysLive(Step(st, ops[0]), ops[1..], k, d);
    }
  }

  /**
    * So a directory that no request of a run names, neither itself nor as a
    * parent, is still there with the same table: reading it gives the same.
    */
  lemma {:induction false} UnnamedDirectoryKeepsTable(st: State, ops: seq<Op>, k: Key, d: word)
    requires Ok(st) && LegalRun(st, ops) && HoldsDirectory(st, k, d) && Untouched(k, ops) && NeverParent(d, ops)
    ensures Ok(Run(st, ops)) && HoldsDirectory(Run(st, ops), k, d)
    ensures d < 2048 && Run(st, ops).img[d] == st.img[d]
  {
    hide Inv, Files, StaysLive;
    RunKeepsOthers(st, ops, k);
    UnnamedStaysLive(st, ops, k, d);
    RunKeepsOtherTables(st, ops, d);
  }

  /** A file write that succeeds in this state. */
  ghost predicate WritesFile(st: State, op: Op) {
    LegalIn(st, op) && op.Write? && 0 < op.size && 2048 * Needed(op.size) <= |op.data| && Code(st.img, op) == W_SUCCESS
  }

  /**
    * Round trip: after a successful file write, and any further writes and
    * deletes of other keys, the file holds the written bytes, in whole clusters.
    */
  lemma {:induction false} RoundTrip(st: State, op: Op, ops: seq<Op>)
    requires WritesFile(st, op) && LegalRun(st, [op] + ops) && Untouched(op.key, ops)
    ensures Ok(Run(st, [op] + ops))
    ensures
      var m := Files(Run(st, [op] + ops));
      op.key in m && m[op.key] == File(Padded(op.data, op.size))
  {
    hide Ok, LegalIn, Step, Files, Inv, Legal, Code;
    assert ([op] + ops)[1..] == ops;
    StepRefines(st, op);
    RunKeepsOthers(Step(st, op), ops, op.key);
  }

  /** A read of k with a buffer of the given size succeeds and starts with the given bytes. */
  ghost predicate ReadsBack(m: Model, k: Key, bytes: seq<byte>, size: nat, buf: seq<byte>) {
    && size <= |buf|
    && ReadCode(m, k, size) == R_SUCCESS
    && bytes <= ReadBytes(m, k, size, buf)
  }

  lemma ReadGives(m: Model, k: Key, data: seq<byte>, n: nat, size: nat, buf: seq<byte>)
    requires 2048 * Needed(n) <= |data| && k in m && m[k] == File(Padded(data, n))
    requires 2048 * Needed(n) <= size <= |buf|
    ensures ReadsBack(m, k, data[..n], size, buf)
  {
    hide Needed;
    var whole := Padded(data, n);
    assert data[..n] <= whole;
    if size == |whole| {
      assert ReadBytes(m, k, size, buf) == buf[..0] + whole + buf[|whole|..];
    } else {
      assert ReadBytes(m, k, size, buf) == buf[..0] + (whole + [0xFF]) + buf[|whole| + 1..];
    }
  }

  /** So a read with a large enough buffer returns the written bytes, whatever the buffer held. */
  lemma {:induction false} WrittenBytesReadBack(st: State, op: Op, ops: seq<Op>, size: nat, buf: seq<byte>)
    requires WritesFile(st, op) && LegalRun(st, [op] + ops) && Untouched(op.key, ops)
    requires 2048 * Needed(op.size) <= size <= |buf|
    ensures Ok(Run(st, [op] + ops))
    ensures ReadsBack(Files(Run(st, [op] + ops)), op.key, op.data[..op.size], size, buf)
  {
    hide Ok, LegalIn, Step, Files, Inv, Legal, Code, Run, LegalRun, ReadsBack;
    RoundTrip(st, op, ops);
    ReadGives(Files(Run(st, [op] + ops)), op.key, op.data, op.size, size, buf);
  }
}
