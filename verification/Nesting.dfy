/**
  * Runs that nest directories: on any medium a directory can be made in the one
  * made last, under any names, up to 504 times. Such runs reach the index limit,
  * the depth limit of get_dir_path and the paths it prints wrongly.
  */
module Nesting {
  import opened Bytes
  import opened Layout
  import opened DiskImage
  import opened Allocation
  import opened IndexFile
  import opened Volume
  import opened WriteEffects
  import opened WriteInvariant
  import opened DeleteEffects
  import opened Runs
  import opened Agreement
  import opened Creation
  import opened Ownership
  import opened Counterexample
  import opened FatDriver
  import opened PathPrinter

  /** Where the n-th nested directory lies: the clusters are taken in order. */
  function Deepest(n: nat): (d: word)
    requires n <= 504
    ensures d < 512
  {
    if n == 0 then ROOT_CLUSTER else 7 + n
  }

  function MakeIn(d: word, name: Name, stack: Stack): Op {
    Op.Write(Key(d, name, DIR_EXT), [], 0, stack)
  }

  /** Make the named directories, each in the one made before; names[0] is the deepest. */
  function Nest(names: seq<Name>, stack: Stack): (ops: seq<Op>)
    requires |names| <= 504
    ensures |ops| == |names|
  {
    if names == [] then []
    else Nest(names[1..], stack) + [MakeIn(Deepest(|names| - 1), names[0], stack)]
  }

  /** Exactly the data clusters from c on are free. */
  ghost predicate OnlyFreeFrom(fat: Fat, c: nat) {
    forall d :: FIRST_DATA_CLUSTER <= d < 512 ==> (fat[d] == EMPTY_ENTRY <==> c <= d)
  }

  /** The names are nested: the deepest directory is empty, and nothing lies beyond its cluster. */
  ghost predicate Nested(st: State, names: seq<Name>) {
    && |names| <= 504 && Ok(st) && Count(st.img) == |names|
    && Deepest(|names|) in st.s.depth && st.s.depth[Deepest(|names|)] == |names|
    && (forall k :: k in st.s.items ==> k.parent < Deepest(|names|))
    && FreeSlot(TableOf(st.img, Deepest(|names|)), 1) == 1
    && OnlyFreeFrom(FatOf(st.img), 8 + |names|)
    && Ancestors(st.img, st.s, Deepest(|names|)) == names
  }

  lemma LeastFree(img: Image, c: word)
    requires FIRST_DATA_CLUSTER <= c < 512 && OnlyFreeFrom(FatOf(img), c)
    ensures FreeFrom(FatOf(img), FIRST_DATA_CLUSTER) != [] && FirstFree(img) == c
  {
    hide FatOf, FreeFrom;
    FreeIsComplete(FatOf(img), FIRST_DATA_CLUSTER);
    assert c in FreeFrom(FatOf(img), FIRST_DATA_CLUSTER);
  }

  lemma StartIsNested(img: Image)
    ensures Nested(Start(img), [])
  {
    hide CreatedImage, Inv, FatOf, TableOf, FreeFrom, FreeSlot, NewFat, IndexAgrees;
    CreatedIsEmpty(img);
    CreatedParts(img);
    RootHasRoom();
    NewFatFacts();
  }

  lemma CanNest(st: State, names: seq<Name>, name: Name, stack: Stack)
    requires Nested(st, names) && |names| < 504
    ensures CanMake(st, MakeIn(Deepest(|names|), name, stack))
    ensures FirstFree(st.img) == Deepest(|names| + 1)
  {
    hide Inv, FatOf, TableOf, FreeFrom, FreeSlot, Ancestors, Count, FirstFree;
    LeastFree(st.img, Deepest(|names| + 1));
  }

  /** The way up from an old directory stays as it was when an item is added. */
  lemma {:induction false} SameAncestors(st: State, st': State, k: Key, it: Item, d: word)
    requires Ok(st) && Ok(st') && k.parent in st.s.depth && it.chain != [] && st'.s == AddItem(st.s, k, it)
    requires d in st.s.depth && d in st'.s.depth && st'.s.depth[d] == st.s.depth[d]
    requires forall c :: c in it.chain ==> c !in st.s.owner && c !in st.s.depth
    ensures Ancestors(st'.img, st'.s, d) == Ancestors(st.img, st.s, d)
    decreases st.s.depth[d]
  {
    hide Inv, TableOf;
    HeaderOfDirectory(st.img, st.s, d);
    HeaderOfDirectory(st'.img, st'.s, d);
    if d != ROOT_CLUSTER {
      assert d !in it.chain;
      SameAncestors(st, st', k, it, st.s.owner[d].parent);
    }
  }

  lemma FreeIsUnknown(st: State, c: word)
    requires Ok(st) && FIRST_DATA_CLUSTER <= c < 512 && FatOf(st.img)[c] == EMPTY_ENTRY
    ensures c !in st.s.owner && c !in st.s.depth
  {
    hide TableOf, SIGNATURE, Entries, Headers, FatOf, Chains, Owners;
    assert c in st.s.depth ==> OwnedByDir(st.s, c);
  }

  lemma OwnedIsUsed(st: State, c: word)
    requires Ok(st) && c in st.s.owner
    ensures FIRST_DATA_CLUSTER <= c < 512 && FatOf(st.img)[c] != EMPTY_ENTRY
  {
    hide TableOf, SIGNATURE, DirsMatch, FatOf, Chains, Owners;
  }

  /** One more directory. */
  lemma NestedMore(st: State, names: seq<Name>, name: Name, stack: Stack, st': State)
    requires Nested(st, names) && |names| < 504
    requires Made(st, MakeIn(Deepest(|names|), name, stack), st', Deepest(|names| + 1))
    ensures Nested(st', [name] + names)
  {
    hide Inv, FatOf, TableOf, FreeSlot, InitTable, Count;
    var n, c := |names|, Deepest(|names| + 1);
    var k := Key(Deepest(n), name, DIR_EXT);
    NewTableHasRoom(name, k.parent);
    FreeIsUnknown(st, c);
    OwnedIsUsed(st', c);
    SameAncestors(st, st', k, Item(FreeSlot(TableOf(st.img, k.parent), 1), true, [c]), Deepest(n));
  }

  lemma EmptyRun(st: State)
    ensures LegalRun(st, []) && Run(st, []) == st
  {
  }

  /** Any names can be nested on any medium; the way up from the deepest directory then gives them. */
  lemma {:induction false} NestReaches(img: Image, names: seq<Name>, stack: Stack)
    requires |names| <= 504
    ensures LegalRun(Start(img), Nest(names, stack))
    ensures Nested(Run(Start(img), Nest(names, stack)), names)
  {
    hide Start, LegalRun, Run, LegalIn, Step, Nested, CanMake, Made, FirstFree;
    if names == [] {
      StartIsNested(img);
      EmptyRun(Start(img));
    } else {
      var rest, op := names[1..], MakeIn(Deepest(|names| - 1), names[0], stack);
      NestReaches(img, rest, stack);
      var st := Run(Start(img), Nest(rest, stack));
      CanNest(st, rest, names[0], stack);
      DirectoryIsMade(st, op, FirstFree(st.img));
      NestedMore(st, rest, names[0], stack, Step(st, op));
      RunAppend(Start(img), Nest(rest, stack), op);
      assert [names[0]] + rest == names;
    }
  }

  // ---- the index ----

  lemma NestedCount(st: State, names: seq<Name>)
    requires Nested(st, names)
    ensures Count(st.img) == |names|
  {
  }

  lemma NestedStep(img: Image, names: seq<Name>, stack: Stack)
    requires 0 < |names| <= PERSISTED_RECORDS
    requires LegalRun(Start(img), Nest(names[1..], stack)) && Agrees(Run(Start(img), Nest(names[1..], stack)))
    ensures LegalRun(Start(img), Nest(names, stack)) && Agrees(Run(Start(img), Nest(names, stack)))
  {
    hide Start, LegalRun, Run, LegalIn, Step, Agrees, CanMake, Made, FirstFree, Code;
    var rest, op := names[1..], MakeIn(Deepest(|names| - 1), names[0], stack);
    NestReaches(img, rest, stack);
    var st := Run(Start(img), Nest(rest, stack));
    NestedCount(st, rest);
    CanNest(st, rest, names[0], stack);
    DirectoryIsMade(st, op, FirstFree(st.img));
    StepKeepsAgreementIff(st, op);
    RunAppend(Start(img), Nest(rest, stack), op);
  }

  /** After n nested directories index and tree agree exactly if n is at most 409. */
  lemma {:induction false} NestAgreesIff(img: Image, names: seq<Name>, stack: Stack)
    requires |names| <= 504
    ensures LegalRun(Start(img), Nest(names, stack))
    ensures
      var st := Run(Start(img), Nest(names, stack));
      Ok(st) && (Agrees(st) <==> |names| <= PERSISTED_RECORDS)
  {
    hide Start, LegalRun, Run, LegalIn, Step, Inv, IndexAgrees, Ancestors, FatOf, TableOf, FreeSlot, Code;
    NestReaches(img, names, stack);
    var st := Run(Start(img), Nest(names, stack));
    if |names| > PERSISTED_RECORDS {
      AgreesIff(st.img, st.s.items.Keys);
    } else if names == [] {
      StartIsOk(img);
      EmptyRun(Start(img));
    } else {
      NestAgreesIff(img, names[1..], stack);
      NestedStep(img, names, stack);
    }
  }

  /** 410 legal requests on any medium, after which the index has lost the tree. */
  lemma {:induction false} IndexIsLost(img: Image, stack: Stack)
    ensures
      var ops := Nest(seq(410, _ => NAME_A), stack);
      && |ops| == 410 && LegalRun(Start(img), ops)
      && Ok(Run(Start(img), ops)) && !Agrees(Run(Start(img), ops))
  {
    hide Start, LegalRun, Run, Agrees, Nest;
    NestAgreesIff(img, seq(410, _ => NAME_A), stack);
  }

  /** Some stack lets a delete leave traces of the directory just made. */
  ghost predicate UndoFails(st: State, k: Key, stack: Stack) {
    && Writable(st.img, st.s, k, 0) && OrdinaryParent(st.img, k, 0)
    && var w := WriteImage(st.img, k, [], 0, stack);
    && DeleteCode(w, k) == D_SUCCESS && Count(w) <= CLUSTER_MAP_SIZE
    && exists stack' :: !Undone(st.img, DeleteImage(w, k, stack'), k.parent, NewChain(st.img, 0))
  }

  lemma FailsToUndo(st: State, k: Key, stack: Stack)
    requires Agrees(st) && Count(st.img) == PERSISTED_RECORDS && Writable(st.img, st.s, k, 0)
    ensures UndoFails(st, k, stack)
  {
    hide Inv, IndexAgrees, WriteCode, Allocatable, Findable, WriteImage, DeleteImage, DeleteCode, Undone, NewChain,
      TableOf, FatOf;
    DeleteUndoesWriteIff(st.img, st.s, k, [], 0, stack);
  }

  /** 409 legal requests on any medium, after which a delete need not undo the making of a directory. */
  lemma {:induction false} UndoIsLost(img: Image, stack: Stack)
    ensures
      var ops, k := Nest(seq(409, _ => NAME_A), stack), Key(Deepest(409), NAME_A, DIR_EXT);
      && LegalRun(Start(img), ops)
      && Agrees(Run(Start(img), ops)) && UndoFails(Run(Start(img), ops), k, stack)
  {
    hide Start, LegalRun, Run, Agrees, Nest, Nested, CanMake, UndoFails;
    var names := seq(409, _ => NAME_A);
    NestReaches(img, names, stack);
    NestAgreesIff(img, names, stack);
    var st := Run(Start(img), Nest(names, stack));
    NestedCount(st, names);
    CanNest(st, names, NAME_A, stack);
    MakeIsLegal(st, MakeIn(Deepest(409), NAME_A, stack));
    FailsToUndo(st, Key(Deepest(409), NAME_A, DIR_EXT), stack);
  }

  // ---- paths ----

  /**
    * For any names there is a run that makes them the path of a directory, and it
    * is printed wrongly exactly when a name above the deepest starts with a zero byte.
    */
  lemma {:induction false} NestedPathIsRightIff(img: Image, names: seq<Name>, stack: Stack)
    requires |names| <= 504
    ensures LegalRun(Start(img), Nest(names, stack))
    ensures
      var st, d := Run(Start(img), Nest(names, stack)), Deepest(|names|);
      && Ok(st) && d in st.s.depth
      && Ancestors(st.img, st.s, d) == names
      && (PathText(Ancestors(st.img, st.s, d)) == PathOf(names) <==> forall t :: 0 < t < |names| ==> names[t][0] != 0)
  {
    hide Start, LegalRun, Run, Inv, TableOf, FatOf, PathText, PathOf;
    NestReaches(img, names, stack);
    PathIsRightIff(names);
  }

  /** Two requests on any medium make "a" in a directory named by a zero byte and "b"; its path is printed wrongly. */
  lemma PathIsPrintedWrongly(img: Image, stack: Stack)
    ensures
      var names: seq<Name> := [NAME_A, ZERO_B];
      && LegalRun(Start(img), Nest(names, stack))
      && var st := Run(Start(img), Nest(names, stack));
      && Ok(st) && Deepest(2) in st.s.depth
      && PathText(Ancestors(st.img, st.s, Deepest(2))) != PathOf(Ancestors(st.img, st.s, Deepest(2)))
  {
    hide Start, LegalRun, Run, Inv, Nest, PathText, PathOf;
    var names: seq<Name> := [NAME_A, ZERO_B];
    NestedPathIsRightIff(img, names, stack);
    assert names[1][0] == 0;
  }

  /** Bytes of the scratch buffer that get_dir_path looks at for a directory of this depth. */
  function ScratchIndex(i: nat, j: nat): nat {
    8 * i + j
  }

  ghost predicate ScratchFits(depth: nat) {
    forall i, j :: 0 <= i < depth && 0 <= j <= 8 ==> ScratchIndex(i, j) < 256
  }

  lemma ScratchFitsIff(depth: nat)
    ensures ScratchFits(depth) <==> depth <= 31
  {
    if depth > 31 {
      assert ScratchIndex(31, 8) == 256;
    }
  }

  /** The scratch buffer is large enough exactly up to depth 31, and every depth up to 504 is reached. */
  lemma {:induction false} DepthReachedIff(img: Image, names: seq<Name>, stack: Stack)
    requires |names| <= 504
    ensures LegalRun(Start(img), Nest(names, stack))
    ensures
      var st, d := Run(Start(img), Nest(names, stack)), Deepest(|names|);
      && Ok(st) && d in st.s.depth && st.s.depth[d] == |names|
      && (ScratchFits(st.s.depth[d]) <==> |names| <= 31)
  {
    hide Start, LegalRun, Run, Inv, TableOf, FatOf, Ancestors, ScratchFits;
    NestReaches(img, names, stack);
    ScratchFitsIff(|names|);
  }

  // ---- all-zero keys ----

  /** Delete takes a free slot for a file. */
  lemma UnfindablePasses(img: Image, s: Store, k: Key)
    requires Inv(img, s) && k.parent in s.depth && !Findable(img, s, k)
    ensures k.parent < 512 && DeleteCode(img, k) == D_SUCCESS
  {
    hide TableOf, FatOf, Inv, Lookup, Findable, Nameable, DirEntry.ClusterNumber;
    ZeroKeyMeetsFreeSlot(img, s, k);
    LiveParent(img, s, k.parent);
    assert ZERO_ENTRY.attribute != ATTR_SUBDIRECTORY;
  }

  /**
    * On a new file system the all-zero name is no entry of the root; still a
    * lookup meets a free slot for it, and delete takes that for a file.
    */
  lemma {:induction false} ZeroKeyIsMistaken(img: Image)
    ensures
      var img0, k := CreatedImage(img), Key(ROOT_CLUSTER, Zeros(8), Zeros(3));
      && Inv(img0, EMPTY_STORE) && k !in EMPTY_STORE.items
      && !Findable(img0, EMPTY_STORE, k)
      && DeleteCode(img0, k) == D_SUCCESS
  {
    hide CreatedImage, Inv, FatOf, TableOf, FreeFrom, FreeSlot, DeleteCode;
    StartFacts(img);
    UnfindablePasses(CreatedImage(img), EMPTY_STORE, Key(ROOT_CLUSTER, Zeros(8), Zeros(3)));
  }
}
