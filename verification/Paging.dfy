/** The user page-frame allocator: 4 MiB frames handed out upwards, mapped in one page directory. */
module Paging {
  import opened Bytes

  const PAGE_FRAME_SIZE := 0x40_0000
  const MEMORY_SIZE := 128 * 1024 * 1024
  const KERNEL_SLOT := 0x300

  /** The eight flag bits of a directory entry, in order. */
  datatype Flags = Flags(present: bool, write: bool, user: bool, writeThrough: bool,
                         cacheDisable: bool, accessed: bool, dirty: bool, large: bool)

  /** A directory entry: the flags, the 10-bit frame number, and the bits never written. */
  datatype Entry = Entry(flags: Flags, frame: nat, rest: half)

  const NO_ENTRY := Entry(Flags(false, false, false, false, false, false, false, false), 0, 0)
  const KERNEL_ENTRY := Entry(Flags(true, true, false, false, false, false, false, true), 0, 0)
  /** What the allocator passes: present, writable, for the user, 4 MiB. */
  const USER_FLAGS := Flags(true, true, true, false, false, false, false, true)

  /** Bits 22 to 31 of an address: the directory slot, or the frame. */
  function High(address: word): (n: nat)
    ensures n < 1024
  {
    address / 0x40_0000 % 0x400
  }

  datatype Pages = Pages(last: word, table: seq<Entry>) {
    ghost predicate Valid() {
      |table| == 1024 && 0x40_0000 <= last <= 31 * 0x40_0000 && last % 0x40_0000 == 0
    }

    /** Frames handed out so far. */
    function Used(): int {
      last / 0x40_0000 - 1
    }
  }

  /** After boot: only the kernel's slot is present (slot 0 was cleared), and every frame is left. */
  function Boot(): Pages {
    Pages(0x40_0000, seq(1024, i => if i == 0x300 then KERNEL_ENTRY else NO_ENTRY))
  }

  function Mapped(e: Entry, physical: word, flags: Flags): Entry {
    Entry(flags, High(physical), e.rest)
  }

  function Allocate(p: Pages, address: word): (r: (int, Pages))
    requires p.Valid()
    ensures r.1.Valid()
  {
    if p.last as int + 0x40_0000 >= MEMORY_SIZE then (-1, p)
    else
      var i := High(address);
      (0, Pages(p.last as int + 0x40_0000, p.table[i := Mapped(p.table[i], p.last, USER_FLAGS)]))
  }

  /** The state after a sequence of calls. */
  function AllocateAll(p: Pages, calls: seq<word>): (r: Pages)
    requires p.Valid()
    ensures r.Valid()
  {
    if calls == [] then p
    else Allocate(AllocateAll(p, calls[..|calls| - 1]), calls[|calls| - 1]).1
  }

  /** Present user slots name pairwise distinct frames already handed out, never the kernel's frame 0. */
  ghost predicate Isolated(p: Pages) {
    && p.Valid()
    && (forall i :: 0 <= i < 1024 && i != KERNEL_SLOT && p.table[i].flags.present ==> 1 <= p.table[i].frame <= p.Used())
    && (forall i, j | 0 <= i < j < 1024 && i != KERNEL_SLOT && j != KERNEL_SLOT ::
          p.table[i].flags.present && p.table[j].flags.present ==> p.table[i].frame != p.table[j].frame)
  }

  ghost predicate KernelMapped(p: Pages)
    requires p.Valid()
  {
    p.table[KERNEL_SLOT] == KERNEL_ENTRY
  }

  /** One call: success exactly while frames are left, one slot changes, and exhausted calls change nothing. */
  lemma AllocateEffect(p: Pages, address: word)
    requires p.Valid()
    ensures
      var (code, p') := Allocate(p, address);
      && (code == 0 <==> p.Used() < 30)
      && (code != 0 ==> code == -1 && p' == p)
      && (code == 0 ==>
            && p'.Used() == p.Used() + 1
            && p'.table[High(address)].flags.present && p'.table[High(address)].frame == p.Used() + 1
            && forall i :: 0 <= i < 1024 && i != High(address) ==> p'.table[i] == p.table[i])
  {
  }

  /** The slot of an address is the 4 MiB page it lies in; the kernel's is the page at 3 GiB. */
  lemma SlotOfAddress(address: word)
    ensures High(address) * 0x40_0000 <= address < (High(address) + 1) * 0x40_0000
    ensures High(0xC000_0000) == KERNEL_SLOT
  {
  }

  /** A successful call makes its slot a present, writable 4 MiB page for the user, and leaves the other bits. */
  lemma AllocatedEntry(p: Pages, address: word)
    requires p.Valid() && Allocate(p, address).0 == 0
    ensures
      var e := Allocate(p, address).1.table[High(address)];
      && e.flags.present && e.flags.write && e.flags.user && e.flags.large
      && !e.flags.writeThrough && !e.flags.cacheDisable && !e.flags.accessed && !e.flags.dirty
      && e.frame * 0x40_0000 == p.last && e.rest == p.table[High(address)].rest
      && Allocate(p, address).1.last == p.last + 0x40_0000
  {
  }

  /** After boot the kernel's slot alone is present, with frame 0, writable and not for the user. */
  lemma BootMapsKernel()
    ensures Boot().Valid() && Boot().last == 0x40_0000
    ensures forall i :: 0 <= i < 1024 ==> (Boot().table[i].flags.present <==> i == 0x300)
    ensures
      var e := Boot().table[0x300];
      e.frame == 0 && e.flags.write && e.flags.large && !e.flags.user
  {
  }

  lemma AllocateKeepsIsolation(p: Pages, address: word)
    requires Isolated(p)
    ensures Isolated(Allocate(p, address).1)
  {
    AllocateEffect(p, address);
  }

  /** Over any calls from boot on, exactly the first 30 succeed, and user slots stay isolated. */
  lemma {:induction false} RunsIsolate(calls: seq<word>)
    ensures Boot().Valid()
    ensures
      var p := AllocateAll(Boot(), calls);
      Isolated(p) && p.Used() == (if |calls| < 30 then |calls| else 30)
  {
    if calls != [] {
      var front := calls[..|calls| - 1];
      RunsIsolate(front);
      AllocateKeepsIsolation(AllocateAll(Boot(), front), calls[|calls| - 1]);
      AllocateEffect(AllocateAll(Boot(), front), calls[|calls| - 1]);
    }
  }

  /** The n-th call succeeds exactly when n < 30, and then maps its slot to frame n + 1. */
  lemma CallGetsOwnFrame(calls: seq<word>, n: nat)
    requires n < |calls|
    ensures Boot().Valid()
    ensures
      var (code, p) := Allocate(AllocateAll(Boot(), calls[..n]), calls[n]);
      && code == (if n < 30 then 0 else -1)
      && (n < 30 ==> p.table[High(calls[n])].flags.present && p.table[High(calls[n])].frame == n + 1)
  {
    RunsIsolate(calls[..n]);
    AllocateEffect(AllocateAll(Boot(), calls[..n]), calls[n]);
  }

  /** What is mapped in the kernel's slot later is never the kernel's entry again: frame 0 is not handed out. */
  lemma {:induction false} KernelFrameNeverReturns(calls: seq<word>)
    ensures Boot().Valid()
    ensures
      var e := AllocateAll(Boot(), calls).table[KERNEL_SLOT];
      e == KERNEL_ENTRY || (e.flags.present && e.frame >= 1)
  {
    if calls != [] {
      var front := calls[..|calls| - 1];
      KernelFrameNeverReturns(front);
      RunsIsolate(front);
      AllocateEffect(AllocateAll(Boot(), front), calls[|calls| - 1]);
    }
  }

  /** The kernel's mapping survives exactly the runs in which no successful call names its slot. */
  lemma {:induction false} KernelSurvivesIff(calls: seq<word>)
    ensures Boot().Valid()
    ensures KernelMapped(AllocateAll(Boot(), calls))
       <==> forall n :: 0 <= n < |calls| && n < 30 ==> High(calls[n]) != KERNEL_SLOT
  {
    if calls != [] {
      var m := |calls| - 1;
      var front := calls[..m];
      KernelSurvivesIff(front);
      RunsIsolate(front);
      var p := AllocateAll(Boot(), front);
      AllocateEffect(p, calls[m]);
      assert forall n :: 0 <= n < m ==> front[n] == calls[n];
      KernelFrameNeverReturns(front);
    }
  }

  class PageDriver {
    /** page_driver_state.last_available_physical_addr */
    var last: word
    /** _paging_kernel_page_directory.table */
    const table: array<Entry>

    ghost predicate Valid()
      reads this, table
    {
      table.Length == 1024 && Pages(last, table[..]).Valid()
    }

    ghost function State(): Pages
      requires Valid()
      reads this, table
    {
      Pages(last, table[..])
    }

    /** The directory after the loader cleared slot 0. */
    constructor ()
      ensures Valid() && State() == Boot() && fresh(table)
    {
      last := 0x40_0000;
      table := new Entry[1024](i => if i == 0x300 then KERNEL_ENTRY else NO_ENTRY);
    }

    /** update_page_directory_entry */
    method UpdateEntry(physical: word, address: word, flags: Flags)
      requires table.Length == 1024
      modifies table
      ensures table[..] == old(table[..])[High(address) := Mapped(old(table[High(address)]), physical, flags)]
    {
      var pageIndex := address / 0x40_0000 % 0x400;
      table[pageIndex] := table[pageIndex].(flags := flags);
      table[pageIndex] := table[pageIndex].(frame := physical / 0x40_0000 % 0x400);
    }

    /** allocate_single_user_page_frame */
    method AllocateUserFrame(address: word) returns (code: int)
      requires Valid()
      modifies this, table
      ensures Valid() && (code, State()) == Allocate(old(State()), address)
    {
      var next := last as int + PAGE_FRAME_SIZE;
      if next >= MEMORY_SIZE {
        return -1;
      }
      var physical := last;
      last := next;
      UpdateEntry(physical, address, USER_FLAGS);
      return 0;
    }
  }
}
