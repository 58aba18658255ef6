/**
  * A run that shows what delete does not refuse: on any medium make directory
  * "a", make directory "b" in it, and delete "a".
  */
module Counterexample {
  import opened Bytes
  import opened Layout
  import opened DiskImage
  import opened Allocation
  import opened IndexFile
  import opened Volume
  import opened WriteEffects
  import opened WriteInvariant
  import opened DeleteEffects
  import opened Uniqueness
  import opened Runs
  import opened Creation
  import opened Ownership

  /** Room for one more directory in a live directory. */
  ghost predicate CanMake(st: State, op: Op) {
    && Ok(st) && op.Write? && op.size == 0 && op.key.parent in st.s.depth && op.key.parent < 2048
    && op.key !in st.s.items
    && FreeSlot(TableOf(st.img, op.key.parent), 1) < 64
    && FreeFrom(FatOf(st.img), FIRST_DATA_CLUSTER) != [] && Count(st.img) < CLUSTER_MAP_SIZE
  }

  lemma MakeIsLegal(st: State, op: Op)
    requires CanMake(st, op)
    ensures LegalIn(st, op) && Code(st.img, op) == W_SUCCESS
    ensures Writable(st.img, st.s, op.key, 0)
  {
    hide Inv, FatOf, TableOf, FreeFrom, FreeSlot, WriteCode, Count;
    AllocatorFailsIff(st.img, st.s, op.key, op.size);
  }

  /** The new item: a directory on the least free cluster. */
  ghost predicate Made(st: State, op: Op, st': State, c: word) {
    && Ok(st') && c < 512
    && op.key.parent in st.s.depth && op.key.parent < 2048
    && st'.s == AddItem(st.s, op.key, Item(FreeSlot(TableOf(st.img, op.key.parent), 1), true, [c]))
    && TableOf(st'.img, c) == InitTable(op.key.name, op.key.parent)
    && Count(st'.img) == Count(st.img) + 1
    && forall d :: FIRST_DATA_CLUSTER <= d < 512 && d != c ==> FatOf(st'.img)[d] == FatOf(st.img)[d]
  }

  lemma MadeImage(img: Image, s: Store, k: Key, data: seq<byte>, stack: Stack, c: word)
    requires Writable(img, s, k, 0) && OrdinaryParent(img, k, 0) && NewChain(img, 0) == [c]
    ensures
      var w := WriteImage(img, k, data, 0, stack);
      && c < 512
      && TableOf(w, c) == InitTable(k.name, k.parent)
      && Count(w) == Count(img) + 1
      && forall d :: FIRST_DATA_CLUSTER <= d < 512 && d != c ==> FatOf(w)[d] == FatOf(img)[d]
  {
    hide Inv, TableOf, FatOf, FreeSlot, WriteCode, WriteImage, InitTable, NewChain, Link, ParentTable;
    WriteEffect(img, k, data, 0, stack);
    NewChainFacts(img, 0);
  }

  lemma StepIsWrite(st: State, op: Op)
    requires LegalIn(st, op) && op.Write? && op.size == 0 && Code(st.img, op) == W_SUCCESS
    ensures Writable(st.img, st.s, op.key, 0) && OrdinaryParent(st.img, op.key, 0) && NewChain(st.img, 0) != []
    ensures
      var slot := FreeSlot(TableOf(st.img, op.key.parent), 1);
      Step(st, op) == State(WriteImage(st.img, op.key, op.data, 0, op.stack),
                            AddItem(st.s, op.key, Item(slot, true, NewChain(st.img, 0))))
  {
    hide Inv, FatOf, TableOf, FreeFrom, FreeSlot, WriteImage, AddItem, Count;
    assert Writable(st.img, st.s, op.key, 0);
    LiveParentIsOrdinary(st.img, st.s, op.key, 0);
    assert Step(st, op) == WriteStep(st, op.key, op.data, 0, op.stack);
  }

  lemma TakesFirst(img: Image, c: word)
    requires FreeFrom(FatOf(img), FIRST_DATA_CLUSTER) != [] && FirstFree(img) == c
    ensures Allocatable(img, 0) && NewChain(img, 0) == [c]
  {
    hide FatOf, FreeFrom;
  }

  lemma DirectoryIsMade(st: State, op: Op, c: word)
    requires CanMake(st, op) && FirstFree(st.img) == c
    ensures LegalIn(st, op)
    ensures Made(st, op, Step(st, op), c)
  {
    hide Inv, FatOf, TableOf, FreeFrom, FreeSlot, WriteCode, WriteImage, AddItem, InitTable, Allocatable, NewChain,
      Count,
      FirstFree, Step, LegalIn, Writable, Code;
    MakeIsLegal(st, op);
    TakesFirst(st.img, c);
    StepKeepsInvariant(st, op);
    StepIsWrite(st, op);
    MadeImage(st.img, st.s, op.key, op.data, op.stack, c);
  }

  const NAME_A: Name := [0x61, 0, 0, 0, 0, 0, 0, 0]
  const NAME_B: Name := [0x62, 0, 0, 0, 0, 0, 0, 0]

  /** Make directory "a" in the root. */
  function MakeA(stack: Stack): Op {
    Op.Write(Key(ROOT_CLUSTER, NAME_A, DIR_EXT), [], 0, stack)
  }

  /** Make directory "b" in the directory at cluster 8, the least free one. */
  function MakeB(stack: Stack): Op {
    Op.Write(Key(FIRST_DATA_CLUSTER, NAME_B, DIR_EXT), [], 0, stack)
  }

  lemma NamesDiffer()
    ensures NAME_A != NAME_B && NAME_A != Zeros(8) && NAME_B != Zeros(8)
  {
    assert NAME_A[0] != NAME_B[0] && NAME_A[0] != Zeros(8)[0] && NAME_B[0] != Zeros(8)[0];
  }

  lemma FreeAt(fat: Fat, c: word)
    requires FIRST_DATA_CLUSTER <= c < 512 && fat[c] == EMPTY_ENTRY
    ensures FreeFrom(fat, FIRST_DATA_CLUSTER) != []
  {
    FreeIsComplete(fat, FIRST_DATA_CLUSTER);
  }

  lemma NewFatFacts()
    ensures NewFat()[INDEX_CLUSTER] == 0
    ensures forall c :: FIRST_DATA_CLUSTER <= c < 512 ==> NewFat()[c] == EMPTY_ENTRY
    ensures FreeFrom(NewFat(), FIRST_DATA_CLUSTER) != []
    ensures FreeFrom(NewFat(), FIRST_DATA_CLUSTER)[0] == FIRST_DATA_CLUSTER
  {
  }

  lemma StartCanMakeA(img: Image, stack: Stack)
    ensures CanMake(Start(img), MakeA(stack))
    ensures FirstFree(Start(img).img) == FIRST_DATA_CLUSTER
  {
    hide CreatedImage, Inv, IndexAgrees, TableOf, FatOf, RootTable, SIGNATURE, NewFat, FreeFrom, FreeSlot;
    CreatedIsEmpty(img);
    CreatedParts(img);
    RootHasRoom();
    NewFatFacts();
    NamesDiffer();
  }

  lemma NewTableHasRoom(name: Name, parent: word)
    ensures FreeSlot(InitTable(name, parent), 1) == 1
  {
    assert InitTable(name, parent)[1] == ZERO_ENTRY;
  }

  lemma ThenCanMakeB(img: Image, stack: Stack, st: State)
    requires Made(Start(img), MakeA(stack), st, FIRST_DATA_CLUSTER)
    ensures CanMake(st, MakeB(stack))
  {
    hide CreatedImage, Inv, TableOf, FatOf, SIGNATURE, InitTable, FreeFrom, FreeSlot, NewFat;
    CreatedParts(img);
    NewFatFacts();
    NamesDiffer();
    NewTableHasRoom(NAME_A, ROOT_CLUSTER);
    FreeAt(FatOf(st.img), 9);
  }

  /** Two requests in a row. */
  lemma RunOfTwo(st: State, a: Op, b: Op)
    requires LegalIn(st, a) && LegalIn(Step(st, a), b)
    ensures LegalRun(st, [a, b]) && Run(st, [a, b]) == Step(Step(st, a), b)
  {
    hide LegalIn, Step;
    var st1 := Step(st, a);
    var st2 := Step(st1, b);
    assert LegalRun(st2, []) && Run(st2, []) == st2;
    assert [b][1..] == [];
    assert LegalRun(st1, [b]) && Run(st1, [b]) == st2;
    assert [a, b][1..] == [b];
  }

  /** The state in which "a" holds "b". */
  lemma AHoldsB(img: Image, stack: Stack)
    ensures LegalRun(Start(img), [MakeA(stack), MakeB(stack)])
    ensures
      var st, a, b := Run(Start(img), [MakeA(stack), MakeB(stack)]), MakeA(stack).key, MakeB(stack).key;
      && Ok(st) && a in st.s.items && b in st.s.items
      && st.s.items[a].isDir && st.s.items[a].chain == [b.parent]
      && Count(st.img) == 2
  {
    hide CanMake, Inv, FatOf, TableOf, FirstFree, LegalIn, Step, LegalRun, Run, FreeSlot, NewFat, CreatedImage,
      FreeFrom;
    var a, b := MakeA(stack), MakeB(stack);
    NamesDiffer();
    StartCanMakeA(img, stack);
    CreatedParts(img);
    NewFatFacts();
    DirectoryIsMade(Start(img), a, FIRST_DATA_CLUSTER);
    var st1 := Step(Start(img), a);
    ThenCanMakeB(img, stack, st1);
    DirectoryIsMade(st1, b, FirstFree(st1.img));
    RunOfTwo(Start(img), a, b);
  }

  lemma AIsDeletable(st: State, stack: Stack)
    requires Ok(st) && MakeA(stack).key in st.s.items && Count(st.img) == 2
    ensures Deletable(st.img, st.s, MakeA(stack).key)
  {
    hide Inv, Count, FreeSlot, TableOf;
    NamesDiffer();
  }

  /** The delete reports success, and no store describes the image it leaves. */
  lemma {:induction false} NonEmptyDirectoryIsDeleted(img: Image, stack: Stack)
    ensures LegalRun(Start(img), [MakeA(stack), MakeB(stack)])
    ensures
      var st, k := Run(Start(img), [MakeA(stack), MakeB(stack)]), MakeA(stack).key;
      && Deletable(st.img, st.s, k)
      && DeleteCode(st.img, k) == D_SUCCESS
      && !exists s' :: Inv(DeleteImage(st.img, k, stack), s')
  {
    hide Start, Inv, DeleteCode, DeleteImage, LegalRun, Run, Count, Deletable, MakeA, MakeB;
    AHoldsB(img, stack);
    var st, k := Run(Start(img), [MakeA(stack), MakeB(stack)]), MakeA(stack).key;
    AIsDeletable(st, stack);
    MeaningSurvivesDeleteIff(st.img, st.s, k, stack);
    assert MakeB(stack).key in st.s.items;
  }
}
