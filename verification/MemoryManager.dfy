/** The JIT section allocator: reserves one mapping for three groups, hands out sections,
    applies permissions and releases everything. */
module MemoryManager {
  import opened Alignment
  import opened MemoryModel
  import opened HeapModel
  import opened HeapSteps
  import opened Isolation
  import opened ManagerModel
  import opened Reservation

  datatype Mapping = MapError | Mapped(block: Block)

  /** The operating system behind the manager: which blocks are mapped and which permission
      each page has.  Its answers are arbitrary within the MemoryMapper contract. */
  class MemoryMapper {
    const pageSize: nat
    var mapped: seq<Block>
    var perms: PagePerms

    constructor (pageSize: nat)
      requires pageSize > 0
      ensures this.pageSize == pageSize && mapped == []
    {
      this.pageSize, mapped := pageSize, [];
      perms := (a: nat) => ReadWrite;
    }

    /** Maps at least the requested bytes somewhere new, readable and writable, or fails. */
    method AllocateMappedMemory(numBytes: nat) returns (r: Mapping)
      requires pageSize > 0
      modifies this
      ensures r.MapError? ==> mapped == old(mapped) && perms == old(perms)
      ensures r.Mapped? ==>
                && NewBlock(pageSize, old(mapped), numBytes, r.block) && mapped == old(mapped) + [r.block]
                && perms == Protect(pageSize, old(perms), r.block, ReadWrite)
    {
      if * {
        return MapError;
      }
      if base: nat, size: nat
        :| base < WORD && size <= WORD && NewBlock(pageSize, mapped, numBytes, Block(base, size))
      {
        mapped := mapped + [Block(base, size)];
        perms := Protect(pageSize, perms, Block(base, size), ReadWrite);
        return Mapped(Block(base, size));
      }
      return MapError;
    }

    /** Changes every page that the block touches, or fails, possibly after changing some. */
    method ProtectMappedMemory(block: Block, x: Perm) returns (ok: bool)
      modifies this`perms
      ensures ok ==> perms == Protect(pageSize, old(perms), block, x)
      ensures forall a: nat :: !OnPage(pageSize, a, block) ==> perms(a) == old(perms(a))
    {
      if * {
        perms := Protect(pageSize, perms, block, x);
        return true;
      }
      if * {
        perms := Protect(pageSize, perms, block, x);
      }
      return false;
    }

    method ReleaseMappedMemory(block: Block)
      requires block in mapped
      modifies this`mapped
      ensures multiset(mapped) == multiset(old(mapped)) - multiset{block}
    {
      var i: nat :| i < |mapped| && mapped[i] == block;
      assert mapped == mapped[..i] + [block] + mapped[i + 1..];
      mapped := mapped[..i] + mapped[i + 1..];
    }
  }

  /** One group of the manager; the ghost fields log what its memory is used for. */
  class MemoryGroup {
    var pendingMem: seq<Block>
    var freeMem: seq<FreeMemBlock>
    var allocatedMem: seq<Block>
    ghost var live: seq<Section>
    ghost var regions: seq<Block>

    constructor ()
      ensures State() == Group([], [], [], []) && allocatedMem == []
    {
      pendingMem, freeMem, allocatedMem, live, regions := [], [], [], [], [];
    }

    ghost function State(): Group
      reads this
    {
      Group(pendingMem, freeMem, live, regions)
    }
  }

  class Manager {
    const mapper: MemoryMapper
    const codeMem: MemoryGroup
    const roDataMem: MemoryGroup
    const rwDataMem: MemoryGroup

    constructor (mapper: MemoryMapper)
      requires PowerOfTwo(mapper.pageSize) && STUB_ALIGN <= mapper.pageSize && mapper.mapped == []
      ensures Valid() && this.mapper == mapper && forall purpose :: Isolated(purpose)
      ensures Snapshot() == EMPTY_HEAP
      ensures fresh(codeMem) && fresh(roDataMem) && fresh(rwDataMem)
    {
      this.mapper := mapper;
      codeMem := new MemoryGroup();
      roDataMem := new MemoryGroup();
      rwDataMem := new MemoryGroup();
      new;
      EmptyHeap(PageSize(), mapper.perms);
      assert Snapshot() == EMPTY_HEAP;
    }

    function GroupFor(purpose: Purpose): MemoryGroup {
      match purpose
      case Code => codeMem
      case ROData => roDataMem
      case RWData => rwDataMem
    }

    ghost function Snapshot(): Heap
      reads mapper, codeMem, roDataMem, rwDataMem
    {
      Heap([codeMem.State(), roDataMem.State(), rwDataMem.State()], mapper.mapped)
    }

    function PageSize(): nat {
      mapper.pageSize
    }

    ghost predicate Separate() {
      codeMem != roDataMem && codeMem != rwDataMem && roDataMem != rwDataMem
      && PowerOfTwo(PageSize()) && STUB_ALIGN <= PageSize()
    }

    /** What holds in every reachable state, also after a finalization that failed. */
    ghost predicate Valid()
      reads mapper, codeMem, roDataMem, rwDataMem
    {
      && Separate() && HeapOk(PageSize(), Snapshot()) && HeapGuarded(PageSize(), Snapshot(), mapper.perms)
      && codeMem.allocatedMem == mapper.mapped && roDataMem.allocatedMem == [] && rwDataMem.allocatedMem == []
    }

    /** The group's memory that is not finalized is writable, and shares no page with any that
        is.  A successful finalization establishes this for Code and ROData; only a failed one
        can take it away. */
    ghost predicate Isolated(purpose: Purpose)
      requires Separate()
      reads mapper, codeMem, roDataMem, rwDataMem
    {
      Index(purpose) in IsolatedGroups()
    }

    ghost function IsolatedGroups(): set<nat>
      requires Separate()
      reads mapper, codeMem, roDataMem, rwDataMem
    {
      Isolation.IsolatedGroups(PageSize(), Snapshot(), mapper.perms)
    }

    // ----- sections

    /** Looks for the first free block that is large enough and carves the section from it.
        Arithmetic is on words; both invariants are kept whenever the required space does not
        overflow. */
    method AllocateSection(purpose: Purpose, size: nat, alignment: nat) returns (addr: Address)
      requires Valid()
      requires alignment == 0 || PowerOfTwo(alignment)
      requires size < WORD && alignment < WORD
      modifies GroupFor(purpose)
      ensures Answered(PageSize(), old(Snapshot()), Snapshot(), Index(purpose), size, EffectiveAlign(alignment), addr)
      ensures addr.Null? || InWord(size, EffectiveAlign(alignment)) ==>
                Valid() && old(IsolatedGroups()) <= IsolatedGroups()
      ensures ServedAligned(old(GroupFor(purpose).freeMem), GroupFor(purpose).freeMem, size, alignment, addr)
      ensures addr.Addr? ==> SharesRange(old(GroupFor(purpose).State()), GroupFor(purpose).State())
      ensures GroupFor(purpose).allocatedMem == old(GroupFor(purpose).allocatedMem)
    {
      var align := if alignment == 0 then STUB_ALIGN else alignment;
      EightIsPower();
      PowersDivide(1, align);
      ghost var h := Snapshot();
      addr := AllocateAligned(purpose, size, align);
      AlignedAnswers(PageSize(), h, Snapshot(), Index(purpose), size, alignment, addr);
    }

    method AllocateAligned(purpose: Purpose, size: nat, align: nat) returns (addr: Address)
      requires Valid() && PowerOfTwo(align) && align > 0
      requires size < WORD && align < WORD
      modifies GroupFor(purpose)
      ensures Answered(PageSize(), old(Snapshot()), Snapshot(), Index(purpose), size, align, addr)
      ensures addr.Null? || InWord(size, align) ==> Valid() && old(IsolatedGroups()) <= IsolatedGroups()
      ensures GroupFor(purpose).allocatedMem == old(GroupFor(purpose).allocatedMem)
    {
      PowersDivide(1, PageSize());
      ghost var h := Snapshot();
      FreeIsOk(PageSize(), h, Index(purpose));
      addr := CarveFirst(GroupFor(purpose), size, align);
      assert Snapshot() == Heap(h.groups[Index(purpose) := GroupFor(purpose).State()], h.mapped);
      CarvingAnswers(PageSize(), h, Index(purpose), GroupFor(purpose).State(), size, align, addr, mapper.perms);
    }

    /** Carves the section from the first free block that is large enough. */
    method CarveFirst(memGroup: MemoryGroup, size: nat, align: nat) returns (addr: Address)
      requires align > 0 && FreeOk(memGroup.State()) && PendingOk(memGroup.State())
      modifies memGroup
      ensures memGroup.allocatedMem == old(memGroup.allocatedMem)
      ensures CarvedOrNot(old(memGroup.State()), memGroup.State(), size, align, addr)
    {
      var required := RequiredSpace(size, align);
      for i := 0 to |memGroup.freeMem|
        invariant memGroup.State() == old(memGroup.State()) && memGroup.allocatedMem == old(memGroup.allocatedMem)
        invariant i > 0 ==> memGroup.freeMem[0].free.size < required
      {
        if memGroup.freeMem[i].free.size >= required {
          assert i == 0;
          var a := CarveBlock(memGroup, i, size, align);
          return Addr(a);
        }
      }
      return Null;
    }

    method CarveBlock(memGroup: MemoryGroup, i: nat, size: nat, align: nat) returns (addr: nat)
      requires align > 0 && i < |memGroup.freeMem| && PrefixOk(memGroup.State(), i)
      modifies memGroup
      ensures memGroup.State() == CarvedOnWords(old(memGroup.State()), i, size, align)
      ensures addr == Wrap(RoundUp(old(memGroup.freeMem[i].free.base), align))
      ensures memGroup.allocatedMem == old(memGroup.allocatedMem)
    {
      var fb := memGroup.freeMem[i];
      addr := Wrap(RoundUp(fb.free.base, align));
      var section := Block(addr, size);
      var prefix := AddPending(memGroup, fb.pendingPrefix, section);
      memGroup.freeMem := memGroup.freeMem[i := FreeMemBlock(RestOnWords(fb.free, section), prefix)];
      memGroup.live := memGroup.live + [Section(section, align, false)];
    }

    /** Makes the section a pending range, or extends the range before it. */
    method AddPending(memGroup: MemoryGroup, before: Prefix, section: Block) returns (prefix: Prefix)
      requires before.At? ==> before.index < |memGroup.pendingMem|
      modifies memGroup`pendingMem
      ensures prefix == if before.At? then before else At(|old(memGroup.pendingMem)|)
      ensures memGroup.pendingMem == PendingOnWords(old(memGroup.pendingMem), before, section)
    {
      if before.NoPrefix? {
        memGroup.pendingMem := memGroup.pendingMem + [section];
        return At(|memGroup.pendingMem| - 1);
      }
      var pendingMB := memGroup.pendingMem[before.index];
      var grown := Block(pendingMB.base, Wrap(section.End() - pendingMB.base));
      memGroup.pendingMem := memGroup.pendingMem[before.index := grown];
      return before;
    }

    // ----- reservations

    predicate HasSpace(memGroup: MemoryGroup, size: nat)
      reads memGroup
    {
      exists i :: 0 <= i < |memGroup.freeMem| && memGroup.freeMem[i].free.size >= size
    }

    /** Reserves memory for announced sections.  `Outcome` says what it does in each case. */
    method ReserveAllocationSpace(codeSize: nat, codeAlign: nat, roDataSize: nat, roDataAlign: nat,
                                  rwDataSize: nat, rwDataAlign: nat)
      returns (r: Reserved)
      requires Valid()
      requires PowerOfTwo(codeAlign) && PowerOfTwo(roDataAlign) && PowerOfTwo(rwDataAlign)
      requires Addressable(PageSize(), [codeSize, roDataSize, rwDataSize], [codeAlign, roDataAlign, rwDataAlign])
      modifies mapper, codeMem, roDataMem, rwDataMem
      ensures Valid() && old(IsolatedGroups()) <= IsolatedGroups()
      ensures Outcome(PageSize(), old(Snapshot()), Snapshot(), [codeSize, roDataSize, rwDataSize],
                      [codeAlign, roDataAlign, rwDataAlign], r)
      ensures r.Reused? <==> !(codeSize == 0 && roDataSize == 0 && rwDataSize == 0)
                             && AllLargeEnough(old(Snapshot()), [codeSize, roDataSize, rwDataSize],
                                               [codeAlign, roDataAlign, rwDataAlign])
      ensures r.Fresh? ==> AllFilled(PageSize(), Snapshot(), [codeSize, roDataSize, rwDataSize],
                                     [codeAlign, roDataAlign, rwDataAlign], r.base)
      ensures r.Nothing? || r.Reused? ==> mapper.perms == old(mapper.perms)
      ensures r.Aborted? ==> codeMem.freeMem == [] && roDataMem.freeMem == [] && rwDataMem.freeMem == []
    {
      if codeSize == 0 && roDataSize == 0 && rwDataSize == 0 {
        return Nothing;
      }
      ghost var h := Snapshot();
      r := Reserve([codeSize, roDataSize, rwDataSize], [codeAlign, roDataAlign, rwDataAlign]);
      OutcomeMeans(PageSize(), h, Snapshot(), [codeSize, roDataSize, rwDataSize],
                   [codeAlign, roDataAlign, rwDataAlign], r);
    }

    /** Reuses old free memory if every group has the required size, and else maps more. */
    method Reserve(sizes: seq<nat>, aligns: seq<nat>) returns (r: Reserved)
      requires Valid() && Addressable(PageSize(), sizes, aligns) && sizes != [0, 0, 0]
      requires forall k :: 0 <= k < 3 ==> PowerOfTwo(aligns[k])
      modifies mapper, codeMem, roDataMem, rwDataMem
      ensures Valid() && old(IsolatedGroups()) <= IsolatedGroups()
      ensures Outcome(PageSize(), old(Snapshot()), Snapshot(), sizes, aligns, r)
      ensures r.Nothing? || r.Reused? ==> mapper.perms == old(mapper.perms)
    {
      var required := RequiredFor(sizes, aligns);
      var space := AllHaveSpace(required);
      if space {
        return Reused;
      }
      var pages := WholePages(sizes, aligns, required);
      PagesAreSplittable(PageSize(), sizes, aligns);
      r := ReserveFresh(sizes, aligns, pages);
    }

    method AllHaveSpace(required: seq<nat>) returns (space: bool)
      requires |required| == 3
      ensures space <==> forall k :: 0 <= k < 3 ==> HasRoom(Snapshot().groups[k], required[k])
    {
      space := HasSpace(codeMem, required[0]) && HasSpace(roDataMem, required[1]) && HasSpace(rwDataMem, required[2]);
      assert HasSpace(codeMem, required[0]) == HasRoom(Snapshot().groups[0], required[0]);
      assert HasSpace(roDataMem, required[1]) == HasRoom(Snapshot().groups[1], required[1]);
      assert HasSpace(rwDataMem, required[2]) == HasRoom(Snapshot().groups[2], required[2]);
    }

    method RequiredFor(sizes: seq<nat>, aligns: seq<nat>) returns (required: seq<nat>)
      requires Addressable(PageSize(), sizes, aligns)
      ensures |required| == 3 && forall k :: 0 <= k < 3 ==> required[k] == RequiredSize(sizes[k], aligns[k])
    {
      RoundUpIsAlignUp(sizes[0], Max(aligns[0], STUB_ALIGN));
      RoundUpIsAlignUp(sizes[1], Max(aligns[1], STUB_ALIGN));
      RoundUpIsAlignUp(sizes[2], Max(aligns[2], STUB_ALIGN));
      required := [RoundUp(sizes[0], Max(aligns[0], STUB_ALIGN)) + Max(aligns[0], STUB_ALIGN),
                   RoundUp(sizes[1], Max(aligns[1], STUB_ALIGN)) + Max(aligns[1], STUB_ALIGN),
                   RoundUp(sizes[2], Max(aligns[2], STUB_ALIGN)) + Max(aligns[2], STUB_ALIGN)];
    }

    method WholePages(ghost sizes: seq<nat>, ghost aligns: seq<nat>, required: seq<nat>) returns (pages: seq<nat>)
      requires Addressable(PageSize(), sizes, aligns)
      requires |required| == 3 && forall k :: 0 <= k < 3 ==> required[k] == RequiredSize(sizes[k], aligns[k])
      ensures pages == PagesOf(PageSize(), sizes, aligns)
    {
      RoundUpIsAlignUp(required[0], PageSize());
      RoundUpIsAlignUp(required[1], PageSize());
      RoundUpIsAlignUp(required[2], PageSize());
      pages := [RoundUp(required[0], PageSize()), RoundUp(required[1], PageSize()), RoundUp(required[2], PageSize())];
    }

    /** Drops all free memory, maps one region for the three groups and splits it. */
    method ReserveFresh(sizes: seq<nat>, aligns: seq<nat>, pages: seq<nat>) returns (r: Reserved)
      requires Valid() && Splittable(PageSize(), sizes, aligns, pages)
      modifies mapper, codeMem, roDataMem, rwDataMem
      ensures Valid() && old(IsolatedGroups()) <= IsolatedGroups()
      ensures FreshOutcome(PageSize(), old(Snapshot()), Snapshot(), sizes, aligns, pages, r)
    {
      ghost var h, perms := Snapshot(), mapper.perms;
      var mb, filled := MapAndSplit(sizes, aligns, pages);
      if mb.MapError? {
        DroppedFree(PageSize(), h, perms);
        return Aborted;
      }
      MappingDone(PageSize(), h, perms, mb.block, sizes, aligns, pages, filled, Snapshot());
      return if filled < 3 then Misaligned(mb.block.base, filled) else Fresh(mb.block.base);
    }

    method MapAndSplit(sizes: seq<nat>, aligns: seq<nat>, pages: seq<nat>) returns (mb: Mapping, filled: nat)
      requires Separate() && PageSize() > 0 && |sizes| == 3 && |aligns| == 3 && |pages| == 3
      modifies mapper, codeMem, roDataMem, rwDataMem
      ensures mb.MapError? ==> Snapshot() == Dropped(old(Snapshot())) && mapper.perms == old(mapper.perms)
      ensures mb.Mapped? ==>
                && NewBlock(PageSize(), old(mapper.mapped), pages[0] + pages[1] + pages[2], mb.block)
                && mapper.perms == Protect(PageSize(), old(mapper.perms), mb.block, ReadWrite)
                && mapper.mapped == old(mapper.mapped) + [mb.block]
                && AlignedUpTo(mb.block.base, sizes, aligns, pages, filled)
                && Divided(Dropped(old(Snapshot())).groups, Snapshot().groups, mb.block.base,
                           Given(sizes, filled), pages)
      ensures codeMem.allocatedMem == old(codeMem.allocatedMem) + if mb.Mapped? then [mb.block] else []
      ensures roDataMem.allocatedMem == old(roDataMem.allocatedMem)
      ensures rwDataMem.allocatedMem == old(rwDataMem.allocatedMem)
    {
      filled := 0;
      mb := MapRegion(pages[0] + pages[1] + pages[2]);
      if mb.Mapped? {
        filled := SplitBlock(mb.block.base, sizes, aligns, pages);
      }
    }

    /** Clears the free memory of all groups and maps a block, which the code group will own. */
    method MapRegion(total: nat) returns (mb: Mapping)
      requires Separate() && PageSize() > 0
      modifies mapper, codeMem`freeMem, codeMem`allocatedMem, roDataMem`freeMem, rwDataMem`freeMem
      ensures codeMem.freeMem == [] && roDataMem.freeMem == [] && rwDataMem.freeMem == []
      ensures mb.MapError? ==>
                && Snapshot() == Dropped(old(Snapshot())) && mapper.perms == old(mapper.perms)
                && codeMem.allocatedMem == old(codeMem.allocatedMem)
      ensures mb.Mapped? ==>
                && Snapshot() == Heap(Dropped(old(Snapshot())).groups, old(mapper.mapped) + [mb.block])
                && mapper.perms == Protect(PageSize(), old(mapper.perms), mb.block, ReadWrite)
                && codeMem.allocatedMem == old(codeMem.allocatedMem) + [mb.block]
                && NewBlock(PageSize(), old(mapper.mapped), total, mb.block)
    {
      codeMem.freeMem, roDataMem.freeMem, rwDataMem.freeMem := [], [], [];
      mb := mapper.AllocateMappedMemory(total);
      if mb.Mapped? {
        codeMem.allocatedMem := codeMem.allocatedMem + [mb.block];
      }
    }

    /** Gives each group its part, checking its alignment first; returns the number of groups
        before the one at which the check failed. */
    method SplitBlock(base: nat, asked: seq<nat>, aligns: seq<nat>, pages: seq<nat>) returns (filled: nat)
      requires Separate() && |asked| == 3 && |aligns| == 3 && |pages| == 3
      requires codeMem.freeMem == [] && roDataMem.freeMem == [] && rwDataMem.freeMem == []
      modifies codeMem`freeMem, codeMem`regions, roDataMem`freeMem, roDataMem`regions
      modifies rwDataMem`freeMem, rwDataMem`regions
      ensures AlignedUpTo(base, asked, aligns, pages, filled)
      ensures Snapshot().mapped == old(Snapshot()).mapped
      ensures Divided(old(Snapshot()).groups, Snapshot().groups, base, Given(asked, filled), pages)
    {
      if asked[0] > 0 && base % Max(aligns[0], STUB_ALIGN) != 0 {
        return 0;
      }
      var addr := FillGroup(codeMem, base, asked[0], pages[0]);
      if asked[1] > 0 && addr % Max(aligns[1], STUB_ALIGN) != 0 {
        return 1;
      }
      addr := FillGroup(roDataMem, addr, asked[1], pages[1]);
      if asked[2] > 0 && addr % Max(aligns[2], STUB_ALIGN) != 0 {
        return 2;
      }
      addr := FillGroup(rwDataMem, addr, asked[2], pages[2]);
      return 3;
    }

    /** Gives a group its part of the mapping, if it asked for memory. */
    method FillGroup(memGroup: MemoryGroup, addr: nat, asked: nat, pages: nat) returns (next: nat)
      requires memGroup.freeMem == []
      modifies memGroup`freeMem, memGroup`regions
      ensures memGroup.State() == Refilled(old(memGroup.State()), asked, Block(addr, if asked > 0 then pages else 0))
      ensures next == addr + if asked > 0 then pages else 0
    {
      next := addr;
      if asked > 0 {
        memGroup.freeMem := [FreeMemBlock(Block(addr, pages), NoPrefix)];
        memGroup.regions := memGroup.regions + [Block(addr, pages)];
        next := addr + pages;
      }
    }

    // ----- a reservation followed by its sections

    /** Requests sections of all groups, one after the other, as the loader does after a
        reservation.  `has` are the groups with free memory. */
    method AllocateAll(orders: seq<Order>, ghost area: Block, ghost has: set<nat>) returns (addrs: seq<Address>)
      requires Valid() && Ready(Snapshot(), orders, area, has)
      modifies codeMem, roDataMem, rwDataMem
      ensures Valid() && old(IsolatedGroups()) <= IsolatedGroups()
      ensures AllPlaced(addrs, orders, area, has)
      ensures Logged(old(Snapshot()), Snapshot(), orders, addrs)
      decreases |orders|
    {
      if orders == [] {
        return [];
      }
      ghost var h := Snapshot();
      var addr := AllocateNext(orders, area, has);
      ghost var h' := Snapshot();
      var rest := AllocateAll(orders[1..], area, has);
      ghost var h'' := Snapshot();
      LogStep(h, h', h'', orders, addr, rest);
      addrs := [addr] + rest;
    }

    method AllocateNext(orders: seq<Order>, ghost area: Block, ghost has: set<nat>) returns (addr: Address)
      requires Valid() && orders != [] && Ready(Snapshot(), orders, area, has)
      modifies codeMem, roDataMem, rwDataMem
      ensures Valid() && old(IsolatedGroups()) <= IsolatedGroups()
      ensures Placed(addr, orders[0], area, has)
      ensures Ready(Snapshot(), orders[1..], area, has)
      ensures LoggedOne(old(Snapshot()), Snapshot(), orders[0], addr)
    {
      ghost var h := Snapshot();
      var req := orders[0].req;
      ReadyFirst(h, orders, area, has);
      addr := AllocateSection(orders[0].purpose, req.size, req.alignment);
      if addr.Addr? {
        ReadyCarved(PageSize(), h, Snapshot(), orders, area, has, addr);
      } else {
        ReadyRefused(h, orders, area, has);
      }
    }

    /** After a reservation, fresh or reusing old memory, every interleaving of requests that
        its sizes and alignments announce is served, inside one mapping - and, if the mapping
        is fresh, inside the required size.  Only a group that reserved nothing has nothing to
        serve from after a fresh mapping. */
    method ReserveAndAllocate(sizes: seq<nat>, aligns: seq<nat>, orders: seq<Order>)
      returns (r: Reserved, addrs: seq<Address>, ghost area: Block)
      requires Valid() && PageSize() < WORD && Addressable(PageSize(), sizes, aligns)
      requires AllAnnounced(sizes, aligns, orders) && ReuseIsRoomy(PageSize(), Snapshot(), sizes, aligns)
      modifies mapper, codeMem, roDataMem, rwDataMem
      ensures Valid() && old(IsolatedGroups()) <= IsolatedGroups()
      ensures ServedAfter(PageSize(), mapper.mapped, sizes, aligns, r, orders, area, addrs)
    {
      r, area := ReserveFor(sizes, aligns, orders);
      addrs := ServeAfter(sizes, aligns, r, orders, area);
    }

    method ServeAfter(ghost sizes: seq<nat>, ghost aligns: seq<nat>, r: Reserved, orders: seq<Order>, ghost area: Block)
      returns (addrs: seq<Address>)
      requires Valid() && Addressable(PageSize(), sizes, aligns)
      requires ReadyAfter(PageSize(), Snapshot(), sizes, aligns, r, orders, area)
      modifies codeMem, roDataMem, rwDataMem
      ensures Valid() && old(IsolatedGroups()) <= IsolatedGroups()
      ensures ServedAfter(PageSize(), mapper.mapped, sizes, aligns, r, orders, area, addrs)
    {
      ghost var h := Snapshot();
      addrs := [];
      if r.Fresh? || r.Reused? {
        addrs := AllocateAll(orders, area, Having(sizes, r.Reused?));
      }
      ReadyIsServed(PageSize(), h, sizes, aligns, r, orders, area, addrs);
    }

    /** Reserves, and leaves free memory that serves the announced requests. */
    method ReserveFor(sizes: seq<nat>, aligns: seq<nat>, ghost orders: seq<Order>)
      returns (r: Reserved, ghost area: Block)
      requires Valid() && PageSize() < WORD && Addressable(PageSize(), sizes, aligns)
      requires AllAnnounced(sizes, aligns, orders) && ReuseIsRoomy(PageSize(), Snapshot(), sizes, aligns)
      modifies mapper, codeMem, roDataMem, rwDataMem
      ensures Valid() && old(IsolatedGroups()) <= IsolatedGroups()
      ensures ReadyAfter(PageSize(), Snapshot(), sizes, aligns, r, orders, area)
    {
      ghost var h := Snapshot();
      assert sizes == [sizes[0], sizes[1], sizes[2]] && aligns == [aligns[0], aligns[1], aligns[2]];
      r := ReserveAllocationSpace(sizes[0], aligns[0], sizes[1], aligns[1], sizes[2], aligns[2]);
      area := OutcomeIsReady(PageSize(), h, Snapshot(), sizes, aligns, r, orders);
    }

    // ----- permissions

    /** Protects the pending ranges of one group, then trims its free memory to whole pages. */
    method ApplyMemoryGroupPermissions(purpose: Purpose, permissions: Perm) returns (err: bool)
      requires Valid() && permissions == FinalPerm(Index(purpose))
      modifies GroupFor(purpose), mapper`perms
      ensures Valid()
      ensures !err ==> GroupFor(purpose).State() == Applied(PageSize(), old(GroupFor(purpose).State()))
      ensures err ==> GroupFor(purpose).State() == old(GroupFor(purpose).State())
      ensures !err ==> GroupFor(purpose).pendingMem == [] && forall s :: s in GroupFor(purpose).live ==> s.final
      ensures Applying(PageSize(), old(Snapshot()), old(mapper.perms), Snapshot(), mapper.perms, Index(purpose), err)
    {
      ghost var h, k, perms := Snapshot(), Index(purpose), mapper.perms;
      err := ApplyToGroup(GroupFor(purpose), permissions);
      assert Snapshot() == Heap(h.groups[k := GroupFor(purpose).State()], h.mapped);
      ApplyingAnswers(PageSize(), h, perms, k, GroupFor(purpose).State(), mapper.perms, err);
    }

    method ApplyToGroup(memGroup: MemoryGroup, permissions: Perm) returns (err: bool)
      requires PageSize() > 0
      modifies memGroup, mapper`perms
      ensures memGroup.allocatedMem == old(memGroup.allocatedMem)
      ensures err ==> memGroup.State() == old(memGroup.State())
      ensures !err ==> memGroup.State() == Applied(PageSize(), old(memGroup.State()))
      ensures !err ==> mapper.perms == ProtectAll(PageSize(), old(mapper.perms), old(memGroup.pendingMem), permissions)
      ensures err ==> Failed(PageSize(), old(mapper.perms), mapper.perms, old(memGroup.pendingMem), permissions)
    {
      err := ProtectPending(memGroup, permissions);
      if !err {
        memGroup.pendingMem := [];
        TrimFree(memGroup);
        memGroup.live := Finalized(memGroup.live);
      }
    }

    method ProtectPending(memGroup: MemoryGroup, permissions: Perm) returns (err: bool)
      modifies mapper`perms
      ensures !err ==> mapper.perms == ProtectAll(PageSize(), old(mapper.perms), memGroup.pendingMem, permissions)
      ensures err ==> Failed(PageSize(), old(mapper.perms), mapper.perms, memGroup.pendingMem, permissions)
    {
      var pending := memGroup.pendingMem;
      for i := 0 to |pending|
        invariant mapper.perms == ProtectAll(PageSize(), old(mapper.perms), pending[..i], permissions)
      {
        assert pending[..i + 1][..i] == pending[..i];
        var ok := mapper.ProtectMappedMemory(pending[i], permissions);
        if !ok {
          assert FailedAt(PageSize(), old(mapper.perms), mapper.perms, pending, permissions, i);
          return true;
        }
      }
      assert pending[..|pending|] == pending;
      return false;
    }

    method TrimFree(memGroup: MemoryGroup)
      requires PageSize() > 0
      modifies memGroup`freeMem
      ensures memGroup.freeMem == Trimmed(PageSize(), old(memGroup.freeMem))
    {
      var free := memGroup.freeMem;
      var kept: seq<FreeMemBlock> := [];
      for i := 0 to |free|
        invariant kept == Trimmed(PageSize(), free[..i])
      {
        assert free[..i + 1][..i] == free[..i];
        var t := TrimBlockToPageSize(PageSize(), free[i].free);
        if t.size != 0 {
          kept := kept + [FreeMemBlock(t, NoPrefix)];
        }
      }
      assert free[..|free|] == free;
      memGroup.freeMem := kept;
    }

    /** Applies permissions to code and read-only data; true means an error occurred. */
    method FinalizeMemory() returns (err: bool)
      requires Valid()
      modifies codeMem, roDataMem, mapper`perms
      ensures Valid()
      ensures !err ==> Isolated(Code) && Isolated(ROData)
      ensures old(Isolated(RWData)) ==> Isolated(RWData)
      ensures PageSize() > 0
              && FinalizeOutcome(PageSize(), old(Snapshot()), old(mapper.perms), Snapshot(), mapper.perms, err)
      ensures !err ==> codeMem.State() == Applied(PageSize(), old(codeMem.State()))
      ensures !err ==> roDataMem.State() == Applied(PageSize(), old(roDataMem.State()))
      ensures !err ==> codeMem.pendingMem == [] && roDataMem.pendingMem == []
      ensures !err ==> forall s :: s in codeMem.live || s in roDataMem.live ==> s.final
      ensures !err ==> AllOnPages(PageSize(), codeMem.live, mapper.perms, ReadExec)
      ensures !err ==> AllOnPages(PageSize(), roDataMem.live, mapper.perms, ReadOnly)
    {
      ghost var h, perms := Snapshot(), mapper.perms;
      err := ApplyMemoryGroupPermissions(Code, ReadExec);
      ghost var h', perms' := Snapshot(), mapper.perms;
      if err {
        CodeFailed(PageSize(), h, perms, h', perms');
        return true;
      }
      err := ApplyMemoryGroupPermissions(ROData, ReadOnly);
      ghost var h'', perms'' := Snapshot(), mapper.perms;
      CodeThenData(PageSize(), h, perms, h', perms', h'', perms'', err);
      FinalizedIsProtected(PageSize(), h'', perms'');
    }

    // ----- destruction

    /** Releases every mapped block, each exactly once. */
    method Destroy()
      requires Valid()
      modifies mapper`mapped
      ensures mapper.mapped == []
    {
      ReleaseGroup(codeMem, []);
      ReleaseGroup(rwDataMem, []);
      ReleaseGroup(roDataMem, []);
      assert |multiset(mapper.mapped)| == 0;
    }

    method ReleaseGroup(memGroup: MemoryGroup, ghost rest: seq<Block>)
      requires multiset(mapper.mapped) == multiset(memGroup.allocatedMem) + multiset(rest)
      modifies mapper`mapped
      ensures multiset(mapper.mapped) == multiset(rest)
    {
      for i := 0 to |memGroup.allocatedMem|
        invariant multiset(mapper.mapped) == multiset(memGroup.allocatedMem[i..]) + multiset(rest)
      {
        var block := memGroup.allocatedMem[i];
        assert memGroup.allocatedMem[i..] == [block] + memGroup.allocatedMem[i + 1..];
        assert block in multiset(mapper.mapped);
        mapper.ReleaseMappedMemory(block);
      }
    }
  }
}
