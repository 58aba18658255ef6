/** Free clusters, first-fit allocation and cluster chains, on FAT values. */
module Allocation {
  import opened Bytes
  import opened Layout

  // ---- free clusters ----

  /** The free clusters from i up, in increasing order. */
  function FreeFrom(fat: Fat, i: nat): (free: seq<word>)
    ensures forall j :: 0 <= j < |free| ==> i <= free[j] < 512 && fat[free[j]] == EMPTY_ENTRY
    decreases 512 - i
  {
    if i >= 512 then []
    else if fat[i] == EMPTY_ENTRY then [i] + FreeFrom(fat, i + 1)
    else FreeFrom(fat, i + 1)
  }

  ghost predicate Increasing(s: seq<word>) {
    forall i, j :: 0 <= i < j < |s| ==> s[i] < s[j]
  }

  lemma {:induction false} FreeIsComplete(fat: Fat, i: nat)
    ensures Increasing(FreeFrom(fat, i))
    ensures forall c :: i <= c < 512 && fat[c] == EMPTY_ENTRY ==> c in FreeFrom(fat, i)
    decreases 512 - i
  {
    if i < 512 {
      FreeIsComplete(fat, i + 1);
      var free, rest := FreeFrom(fat, i), FreeFrom(fat, i + 1);
      assert free == if fat[i] == EMPTY_ENTRY then [i] + rest else rest;
      hide FreeFrom;
      forall c | i <= c < 512 && fat[c] == EMPTY_ENTRY
        ensures c in free
      {
        if c == i {
          assert free[0] == i;
        } else {
          assert c in rest;
        }
      }
    }
  }

  /** Only which clusters are free matters, not where the others link to. */
  lemma {:induction false} FreeDependsOnEmptiness(fat: Fat, fat': Fat, i: nat)
    requires forall c :: i <= c < 512 ==> (fat[c] == EMPTY_ENTRY <==> fat'[c] == EMPTY_ENTRY)
    ensures FreeFrom(fat, i) == FreeFrom(fat', i)
    decreases 512 - i
  {
    if i < 512 {
      FreeDependsOnEmptiness(fat, fat', i + 1);
    }
  }

  /** Taking the first free cluster leaves the others, in order. */
  lemma {:induction false} TakeFirst(fat: Fat, i: nat, v: word)
    requires FreeFrom(fat, i) != [] && v != EMPTY_ENTRY
    ensures FreeFrom(fat[FreeFrom(fat, i)[0] := v], i) == FreeFrom(fat, i)[1..]
    decreases 512 - i
  {
    var c := FreeFrom(fat, i)[0];
    if fat[i] == EMPTY_ENTRY {
      FreeDependsOnEmptiness(fat, fat[c := v], i + 1);
    } else {
      TakeFirst(fat, i + 1, v);
    }
  }

  // ---- chains ----

  /** The FAT value of the i-th cluster of a chain. */
  function Next(chain: seq<word>, i: nat): word
    requires i < |chain|
  {
    if i + 1 < |chain| then chain[i + 1] else END_OF_FILE
  }

  /** A chain of data clusters, linked in strictly increasing order. */
  ghost predicate IsChain(fat: Fat, chain: seq<word>) {
    && 0 < |chain|
    && Increasing(chain)
    && (forall i :: 0 <= i < |chain| ==> FIRST_DATA_CLUSTER <= chain[i] < 512)
    && (forall i {:trigger fat[chain[i]]} :: 0 <= i < |chain| ==> fat[chain[i]] == Next(chain, i))
  }

  ghost predicate InMap(chain: seq<word>) {
    forall i :: 0 <= i < |chain| ==> chain[i] < 512
  }

  /**
    * The map after the allocation loop: each further cluster is marked as the
    * end first and then linked from its predecessor.
    */
  function Link(fat: Fat, chain: seq<word>): Fat
    requires forall i :: 0 <= i < |chain| ==> chain[i] < 512
  {
    var n := |chain|;
    if n == 0 then fat
    else if n == 1 then fat[chain[0] := END_OF_FILE]
    else Link(fat, chain[..n - 1])[chain[n - 1] := END_OF_FILE][chain[n - 2] := chain[n - 1]]
  }

  /** The map after every cluster of the chain was released. */
  function Unlink(fat: Fat, chain: seq<word>): (r: Fat) {
    seq(512, c requires 0 <= c < 512 => if c in chain then EMPTY_ENTRY else fat[c])
  }

  lemma {:induction false} LinkAtIndex(fat: Fat, chain: seq<word>, i: nat)
    requires InMap(chain) && Increasing(chain) && i < |chain|
    ensures Link(fat, chain)[chain[i]] == Next(chain, i)
  {
    var n := |chain|;
    if n >= 2 && i < n - 2 {
      var front := chain[..n - 1];
      LinkAtIndex(fat, front, i);
      assert chain[i] < chain[n - 2] < chain[n - 1];
    }
  }

  lemma {:induction false} LinkElsewhere(fat: Fat, chain: seq<word>, c: word)
    requires InMap(chain) && c < 512 && c !in chain
    ensures Link(fat, chain)[c] == fat[c]
  {
    var n := |chain|;
    if n >= 2 {
      assert chain[n - 1] in chain && chain[n - 2] in chain;
      LinkElsewhere(fat, chain[..n - 1], c);
    }
  }

  lemma {:induction false} LinkAt(fat: Fat, chain: seq<word>)
    requires InMap(chain) && Increasing(chain)
    ensures forall i :: 0 <= i < |chain| ==> Link(fat, chain)[chain[i]] == Next(chain, i)
    ensures forall i :: 0 <= i < |chain| ==>
                          Link(fat, chain)[chain[i]] == if i + 1 < |chain| then chain[i + 1] else 0x0FFF_FFFF
    ensures forall c :: 0 <= c < 512 && c !in chain ==> Link(fat, chain)[c] == fat[c]
  {
    forall i | 0 <= i < |chain|
      ensures Link(fat, chain)[chain[i]] == Next(chain, i)
    {
      LinkAtIndex(fat, chain, i);
    }
    forall c | 0 <= c < 512 && c !in chain
      ensures Link(fat, chain)[c] == fat[c]
    {
      LinkElsewhere(fat, chain, c);
    }
  }

  lemma PrefixIsLeast(free: seq<word>, n: nat, c: word)
    requires Increasing(free) && 0 < n <= |free| && c in free && c !in free[..n]
    ensures free[n - 1] < c
  {
    assert free == free[..n] + free[n..];
  }

  /** How one more cluster extends the links. */
  lemma LinkGrows(fat: Fat, free: seq<word>, n: nat)
    requires 1 <= n <= |free| && InMap(free)
    ensures n == 1 ==> Link(fat, free[..n - 1]) == fat
    ensures n == 1 ==> Link(fat, free[..n]) == fat[free[0] := END_OF_FILE]
    ensures n > 1 ==>
              Link(fat, free[..n]) == Link(fat, free[..n - 1])[free[n - 1] := END_OF_FILE][free[n - 2] := free[n - 1]]
  {
    assert free[..n][..n - 1] == free[..n - 1];
  }

  lemma AllocateStep(before: Fat, free: seq<word>, n: nat)
    requires 0 < n <= |free| && Increasing(free) && InMap(free)
    requires FreeFrom(before, FIRST_DATA_CLUSTER) == free[n - 1..]
    requires n >= 2 ==> before[free[n - 2]] != EMPTY_ENTRY
    ensures
      var taken := before[free[n - 1] := END_OF_FILE];
      && FreeFrom(taken, FIRST_DATA_CLUSTER) == free[n..]
      && (n >= 2 ==> FreeFrom(taken[free[n - 2] := free[n - 1]], FIRST_DATA_CLUSTER) == free[n..])
  {
    TakeFirst(before, FIRST_DATA_CLUSTER, END_OF_FILE);
    var taken := before[free[n - 1] := END_OF_FILE];
    assert free[n - 1..][1..] == free[n..];
    if n >= 2 {
      assert free[n - 2] < free[n - 1];
      assert free[n - 1] in FreeFrom(before, FIRST_DATA_CLUSTER);
      FreeDependsOnEmptiness(taken, taken[free[n - 2] := free[n - 1]], FIRST_DATA_CLUSTER);
    }
  }

  /** One step of the allocation loop. */
  lemma LinkLast(fat: Fat, n: nat)
    requires 0 < n <= |FreeFrom(fat, FIRST_DATA_CLUSTER)|
    requires FreeFrom(Link(fat, FreeFrom(fat, FIRST_DATA_CLUSTER)[..n - 1]), FIRST_DATA_CLUSTER)
          == FreeFrom(fat, FIRST_DATA_CLUSTER)[n - 1..]
    ensures FreeFrom(Link(fat, FreeFrom(fat, FIRST_DATA_CLUSTER)[..n]), FIRST_DATA_CLUSTER)
         == FreeFrom(fat, FIRST_DATA_CLUSTER)[n..]
  {
    hide FreeFrom, Link;
    var free := FreeFrom(fat, FIRST_DATA_CLUSTER);
    FreeIsComplete(fat, FIRST_DATA_CLUSTER);
    LinkGrows(fat, free, n);
    if n >= 2 {
      LinkAtIndex(fat, free[..n - 1], n - 2);
    }
    AllocateStep(Link(fat, free[..n - 1]), free, n);
  }

  lemma {:induction false} LinkLeavesRest(fat: Fat, n: nat)
    requires n <= |FreeFrom(fat, FIRST_DATA_CLUSTER)|
    ensures FreeFrom(Link(fat, FreeFrom(fat, FIRST_DATA_CLUSTER)[..n]), FIRST_DATA_CLUSTER)
         == FreeFrom(fat, FIRST_DATA_CLUSTER)[n..]
  {
    var free := FreeFrom(fat, FIRST_DATA_CLUSTER);
    if n > 0 {
      LinkLeavesRest(fat, n - 1);
      LinkLast(fat, n);
    }
  }

  /** Allocating n clusters takes the n least free ones, and exactly those. */
  lemma {:induction false} FirstFit(fat: Fat, n: nat)
    requires 0 < n <= |FreeFrom(fat, FIRST_DATA_CLUSTER)|
    ensures
      var chain := FreeFrom(fat, FIRST_DATA_CLUSTER)[..n];
      && IsChain(Link(fat, chain), chain)
      && (forall c :: FIRST_DATA_CLUSTER <= c < 512 && fat[c] == EMPTY_ENTRY && c !in chain ==> chain[n - 1] < c)
      && (forall c :: 0 <= c < 512 && c !in chain ==> Link(fat, chain)[c] == fat[c])
      && FreeFrom(Link(fat, chain), FIRST_DATA_CLUSTER) == FreeFrom(fat, FIRST_DATA_CLUSTER)[n..]
  {
    hide FreeFrom, Link;
    var chain := FreeFrom(fat, FIRST_DATA_CLUSTER)[..n];
    FreeIsComplete(fat, FIRST_DATA_CLUSTER);
    LinkAt(fat, chain);
    forall c | FIRST_DATA_CLUSTER <= c < 512 && fat[c] == EMPTY_ENTRY && c !in chain
      ensures chain[n - 1] < c
    {
      PrefixIsLeast(FreeFrom(fat, FIRST_DATA_CLUSTER), n, c);
    }
    LinkLeavesRest(fat, n);
  }

  /** Releasing what was just allocated restores the map. */
  lemma UnlinkLink(fat: Fat, chain: seq<word>)
    requires InMap(chain) && Increasing(chain)
    requires forall i :: 0 <= i < |chain| ==> fat[chain[i]] == EMPTY_ENTRY
    ensures Unlink(Link(fat, chain), chain) == fat
  {
    LinkAt(fat, chain);
  }

  /** Clusters from i up that are in use. */
  ghost function UsedFrom(fat: Fat, i: nat): (used: set<word>) {
    set c: word | i <= c < 512 && fat[c] != EMPTY_ENTRY
  }

  /** Every cluster from i up is either free or used: nothing leaks. */
  lemma {:induction false} FreePlusUsed(fat: Fat, i: nat)
    requires i <= 512
    ensures |FreeFrom(fat, i)| + |UsedFrom(fat, i)| == 512 - i
    decreases 512 - i
  {
    if i < 512 {
      FreePlusUsed(fat, i + 1);
      if fat[i] == EMPTY_ENTRY {
        assert UsedFrom(fat, i) == UsedFrom(fat, i + 1);
      } else {
        assert UsedFrom(fat, i) == UsedFrom(fat, i + 1) + {i};
      }
    } else {
      assert UsedFrom(fat, i) == {};
    }
  }
}
