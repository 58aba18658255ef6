/** The requests of programs, one after the other, on the driver. */
module Requests {
  import opened DiskImage
  import opened Allocation
  import opened IndexFile
  import opened Volume
  import opened WriteEffects
  import opened DeleteEffects
  import opened FileStore
  import opened Runs
  import opened StoreCodes
  import opened FatDriver

  /** What the driver's disk holds and what it means. */
  ghost function StateOf(d: Driver): State
    requires d.Valid()
    reads d, d.disk.image, d.fat
  {
    State(d.Clusters(), d.store)
  }

  /** Request sizes are 32 bits wide. */
  predicate WordSizes(ops: seq<Op>) {
    forall i :: 0 <= i < |ops| && ops[i].Write? ==> ops[i].size < 0x1_0000_0000
  }

  /** The write and delete cases of the system call. */
  method Request(d: Driver, op: Op) returns (code: int)
    requires d.Valid() && LegalIn(StateOf(d), op) && (op.Write? ==> op.size < 0x1_0000_0000)
    modifies d, d.disk.image, d.fat, d.dirTable
    ensures d.Valid()
    ensures code == Code(old(d.Clusters()), op)
    ensures StateOf(d) == Step(old(StateOf(d)), op)
  {
    hide Inv, FatOf, TableOf, WriteImage, DeleteImage, AddItem, RemoveItem, NewItem, Count, Contents, FreeFrom,
      FreeSlot, Findable;
    match op
    case Write(k, data, size, stack) =>
      var buf := ToArray(data);
      code := d.Write(k, buf, size, stack);
    case Delete(k, stack) =>
      code := d.Delete(k, stack);
  }

  lemma FirstRequest(st: State, ops: seq<Op>)
    requires LegalRun(st, ops) && ops != []
    ensures LegalIn(st, ops[0]) && LegalRun(Step(st, ops[0]), ops[1..])
    ensures RunCodes(st, ops) == [Code(st.img, ops[0])] + RunCodes(Step(st, ops[0]), ops[1..])
    ensures Run(st, ops) == Run(Step(st, ops[0]), ops[1..])
  {
    hide LegalIn, Step, Code;
  }

  lemma NoRequests(st: State, ops: seq<Op>)
    requires LegalRun(st, ops) && ops == []
    ensures RunCodes(st, ops) == [] && Run(st, ops) == st
  {
  }

  /**
    * Every legal sequence of requests reports, and leaves on the disk, what the
    * run of its states says, and that is what the plain map says.
    */
  method Execute(d: Driver, ops: seq<Op>) returns (codes: seq<int>)
    requires d.Valid() && LegalRun(StateOf(d), ops) && WordSizes(ops)
    modifies d, d.disk.image, d.fat, d.dirTable
    ensures d.Valid()
    ensures codes == RunCodes(old(StateOf(d)), ops)
    ensures StateOf(d) == Run(old(StateOf(d)), ops)
    ensures WholeClusters(ops)
    ensures (codes, d.Files()) == ModelRun(old(d.Files()), ops, Handles(old(StateOf(d)), ops))
  {
    hide LegalIn, LegalRun, Step, Run, RunCodes, Inv, Code, FatOf, ModelRun, Handles, Contents, WholeClusters;
    ghost var start := StateOf(d);
    codes := [];
    assert ops[0..] == ops;
    for i := 0 to |ops|
      invariant d.Valid() && LegalRun(StateOf(d), ops[i..])
      invariant codes + RunCodes(StateOf(d), ops[i..]) == RunCodes(start, ops)
      invariant Run(StateOf(d), ops[i..]) == Run(start, ops)
    {
      assert ops[i..][0] == ops[i] && ops[i..][1..] == ops[i + 1..];
      FirstRequest(StateOf(d), ops[i..]);
      var code := Request(d, ops[i]);
      codes := codes + [code];
    }
    NoRequests(StateOf(d), ops[|ops|..]);
    RunRefinesModel(start, ops);
  }
}
