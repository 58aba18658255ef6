/** What holds in every state that legal requests reach from a new file system. */
module Ownership {
  import opened Bytes
  import opened Layout
  import opened DiskImage
  import opened Allocation
  import opened IndexFile
  import opened Volume
  import opened WriteEffects
  import opened Runs
  import opened Agreement
  import opened StoreCodes
  import opened Creation

  ghost function Start(img: Image): State {
    State(CreatedImage(img), EMPTY_STORE)
  }

  lemma StartIsOk(img: Image)
    ensures Agrees(Start(img)) && Files(Start(img)) == map[]
  {
    hide CreatedImage, Inv, IndexAgrees;
    CreatedIsEmpty(img);
    assert EMPTY_STORE.items.Keys == {};
  }

  /** The clusters of all live entries together. */
  ghost function OwnedClusters(s: Store): set<word> {
    set k, c | k in s.items && c in s.items[k].chain :: c
  }

  /** Used data clusters are exactly the disjoint union of the live chains. */
  ghost predicate Partitioned(fat: Fat, s: Store) {
    && (forall c: word :: FIRST_DATA_CLUSTER <= c < 512 ==> (fat[c] != EMPTY_ENTRY <==> c in OwnedClusters(s)))
    && (forall k, k', c :: k in s.items && k' in s.items && c in s.items[k].chain && c in s.items[k'].chain ==> k == k')
    && (forall c :: c in OwnedClusters(s) ==> FIRST_DATA_CLUSTER <= c < 512)
    && |FreeFrom(fat, FIRST_DATA_CLUSTER)| + |OwnedClusters(s)| == 504
  }

  lemma {:induction false} InvariantPartitions(img: Image, s: Store)
    requires Inv(img, s)
    ensures Partitioned(FatOf(img), s) && Reserved(FatOf(img))
  {
    hide TableOf, SIGNATURE, DirsMatch, Chains, FatOf, FreeFrom;
    assert OwnedClusters(s) == s.owner.Keys by {
      forall c | c in s.owner
        ensures c in OwnedClusters(s)
      {
        assert s.owner[c] in s.items && c in s.items[s.owner[c]].chain;
      }
      forall c | c in OwnedClusters(s)
        ensures c in s.owner
      {
        var k :| k in s.items && c in s.items[k].chain;
        assert Owns(s, k, c);
      }
    }
    FreePlusOwned(FatOf(img), s);
    forall k, k', c | k in s.items && k' in s.items && c in s.items[k].chain && c in s.items[k'].chain
      ensures k == k'
    {
      ChainsDisjoint(s, k, k', c);
    }
  }

  /**
    * In every reachable state the used clusters of 8..511 are partitioned among
    * the live entries, free plus owned is 504, and the reserved entries are as created.
    */
  lemma {:induction false} ReachableIsPartitioned(img: Image, ops: seq<Op>)
    requires LegalRun(Start(img), ops)
    ensures
      var st := Run(Start(img), ops);
      Ok(st) && Partitioned(FatOf(st.img), st.s) && Reserved(FatOf(st.img))
  {
    StartIsOk(img);
    hide Start, Partitioned, LegalRun, FatOf, IndexAgrees, Reserved;
    RunKeepsInvariant(Start(img), ops);
    var st := Run(Start(img), ops);
    InvariantPartitions(st.img, st.s);
  }

  lemma CountIsSize(st: State)
    requires Agrees(st)
    ensures Count(st.img) == |Files(st)|
  {
    hide IndexAgrees, Inv, Count;
    CountIsLiveEntries(st.img, st.s.items.Keys);
    assert Files(st).Keys == st.s.items.Keys;
  }

  /** From creation on, while fewer than 409 entries exist at each write, index and tree agree. */
  lemma {:induction false} ReachableAgrees(img: Image, ops: seq<Op>)
    requires LegalRun(Start(img), ops) && IndexRoom(Start(img), ops)
    ensures Agrees(Run(Start(img), ops))
    ensures Count(Run(Start(img), ops).img) == |Files(Run(Start(img), ops))|
  {
    hide Start, LegalRun, IndexRoom, IndexAgrees, Inv, Run;
    StartIsOk(img);
    RunKeepsAgreement(Start(img), ops);
    CountIsSize(Run(Start(img), ops));
  }

  /** From creation on, the driver reports and keeps what the plain map does, starting from the empty map. */
  lemma {:induction false} ReachableRefinesModel(img: Image, ops: seq<Op>)
    requires LegalRun(Start(img), ops)
    ensures Ok(Run(Start(img), ops)) && WholeClusters(ops)
    ensures (RunCodes(Start(img), ops), Files(Run(Start(img), ops)))
         == ModelRun(map[], ops, Handles(Start(img), ops))
  {
    hide Start, LegalRun, IndexAgrees, Inv, Run, Files, RunCodes, ModelRun, Handles, WholeClusters;
    StartIsOk(img);
    RunRefinesModel(Start(img), ops);
  }

  // ---- requests on a new file system ----

  lemma StartFacts(img: Image)
    ensures
      var img0 := CreatedImage(img);
      && Inv(img0, EMPTY_STORE) && Count(img0) == 0
      && |FreeFrom(FatOf(img0), FIRST_DATA_CLUSTER)| == 504
      && FreeSlot(TableOf(img0, ROOT_CLUSTER), 1) == 1
  {
    assert NewFat()[INDEX_CLUSTER] == 0;
    hide CreatedImage, Inv, FatOf, TableOf, FreeFrom, FreeSlot, NewFat, RootTable, IsEmptyStorage, IndexAgrees;
    CreatedIsEmpty(img);
    CreatedParts(img);
    RootHasRoom();
  }

  /** The first write, of a directory or of a file of at most 504 clusters, is legal and succeeds. */
  lemma {:induction false} FirstWriteSucceeds(img: Image, op: Op)
    requires op.Write? && op.key.parent == ROOT_CLUSTER
    requires Needed(op.size) <= 504 && 2048 * Needed(op.size) <= |op.data|
    ensures LegalIn(Start(img), op) && Code(CreatedImage(img), op) == W_SUCCESS
  {
    StartFacts(img);
    hide Inv, FatOf, TableOf, FreeFrom, FreeSlot, WriteCode, CreatedImage, Count;
    AllocatorFailsIff(CreatedImage(img), EMPTY_STORE, op.key, op.size);
  }
}
