/**
  * The mark of a directory that is not empty. Write sets it in slot 0 of the
  * directory's own table; delete tests the entry in the table above, where it is
  * never set.
  */
module Marks {
  import opened Layout
  import opened DiskImage
  import opened IndexFile
  import opened Volume
  import opened WriteEffects
  import opened WriteInvariant
  import opened DeleteEffects
  import opened DiskBytes
  import opened Runs
  import opened Creation
  import opened Ownership

  /** Every directory with a live entry has 0xAA at byte 12 of its own table. */
  ghost predicate Marked(st: State) {
    forall k :: k in st.s.items ==> k.parent < 2048 && st.img[k.parent][12] == 0xAA
  }

  lemma ItemParents(st: State, k: Key)
    requires Ok(st) && k in st.s.items
    ensures k.parent in st.s.depth && k.parent < 512
  {
  }

  lemma WriteMarks(st: State, op: Op)
    requires LegalIn(st, op) && op.Write? && Code(st.img, op) == 0
    ensures Step(st, op).img[op.key.parent][12] == 0xAA
    ensures forall k :: k in Step(st, op).s.items ==> k in st.s.items || k == op.key
  {
    hide Inv, WriteImage, NewItem, FreeSlot, TableOf, FatOf;
    var Write(k, data, size, stack) := op;
    assert Writable(st.img, st.s, k, size);
    LiveParentIsOrdinary(st.img, st.s, k, size);
    WrittenParent(st.img, k, data, size, stack);
    assert Step(st, op) == WriteStep(st, k, data, size, stack);
  }

  lemma DeleteKeepsMark(st: State, op: Op)
    requires LegalIn(st, op) && op.Delete? && Code(st.img, op) == 0
    ensures Step(st, op).img[op.key.parent][12] == st.img[op.key.parent][12]
    ensures forall k :: k in Step(st, op).s.items ==> k in st.s.items
  {
    hide Inv, DeleteImage, DeleteCode, TableOf, FatOf, Findable;
    var Delete(k, stack) := op;
    DeleteCodeIff(st.img, st.s, k);
    DeletedParent(st.img, st.s, k, stack);
    assert Step(st, op) == DeleteStep(st, k, stack);
  }

  lemma OtherItem(st: State, op: Op, k: Key)
    requires LegalIn(st, op) && Code(st.img, op) == 0 && k in Step(st, op).s.items && k != op.key
    ensures k in st.s.items
  {
    hide Inv, Step, Code, Legal;
    if op.Write? {
      WriteMarks(st, op);
    } else {
      DeleteKeepsMark(st, op);
    }
  }

  lemma StepKeepsMarks(st: State, op: Op)
    requires LegalIn(st, op) && Marked(st)
    ensures Marked(Step(st, op))
  {
    hide Inv, Code, Step, WriteCode, Findable, Removable;
    StepKeepsInvariant(st, op);
    var st' := Step(st, op);
    if Code(st.img, op) != 0 {
      FailedStep(st, op);
    } else {
      if op.Write? {
        WriteMarks(st, op);
      } else {
        DeleteKeepsMark(st, op);
      }
      forall k | k in st'.s.items
        ensures k.parent < 2048 && st'.img[k.parent][12] == 0xAA
      {
        ItemParents(st', k);
        if k.parent != op.key.parent {
          OtherItem(st, op, k);
          ItemParents(st, k);
          StepKeepsOtherTables(st, op, k.parent);
        }
      }
    }
  }

  lemma {:induction false} RunKeepsMarks(st: State, ops: seq<Op>)
    requires LegalRun(st, ops) && Marked(st)
    ensures Marked(Run(st, ops))
    decreases |ops|
  {
    hide LegalIn, Step, Marked;
    if ops != [] {
      StepKeepsMarks(st, ops[0]);
      RunKeepsMarks(Step(st, ops[0]), ops[1..]);
    }
  }

  /** In every state reached from creation, a directory with a live entry carries the mark in its own slot 0. */
  lemma {:induction false} ReachableIsMarked(img: Image, ops: seq<Op>, k: Key)
    requires LegalRun(Start(img), ops) && k in Run(Start(img), ops).s.items
    ensures k.parent < 2048 && Run(Start(img), ops).img[k.parent][12] == 0xAA
  {
    hide LegalRun, Run, CreatedImage;
    RunKeepsMarks(Start(img), ops);
  }

  /** The byte delete tests, in the entry of the table above, is zero for every live entry. */
  lemma TestedMarkIsClear(img: Image, s: Store, k: Key)
    requires Inv(img, s) && k in s.items
    ensures k.parent < 2048 && 1 <= s.items[k].slot < 64
    ensures img[k.parent][32 * s.items[k].slot + 12] == 0
  {
    EntryFields(img[k.parent], s.items[k].slot);
    assert EntryOf(TableOf(img, k.parent)[s.items[k].slot], k, s.items[k]);
  }
}
