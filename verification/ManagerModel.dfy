/** What the operations of the section allocator do, on values: answering section requests,
    reserving memory, and serving what a reservation announced. */
module ManagerModel {
  import opened Alignment
  import opened MemoryModel
  import opened HeapModel
  import opened HeapSteps
  import opened Isolation
  import opened Reservation

  datatype Purpose = Code | ROData | RWData

  function Index(purpose: Purpose): nat {
    match purpose
    case Code => 0
    case ROData => 1
    case RWData => 2
  }

  datatype Address = Null | Addr(value: nat)

  /** How a reservation ends.  The last two are failed assertions of the source: the system
      mapped nothing, or the part of some group does not start as aligned as it asked. */
  datatype Reserved = Nothing | Reused | Fresh(base: nat) | Aborted | Misaligned(base: nat, filled: nat)

  /** A section request of the loader. */
  datatype Order = Order(purpose: Purpose, req: Request)

  /** A page-aligned block of at least `numBytes` that is not mapped yet. */
  predicate NewBlock(p: nat, mapped: seq<Block>, numBytes: nat, b: Block) {
    && p > 0 && PageAligned(p, b) && b.base > 0 && numBytes <= b.size && b.End() <= WORD
    && forall i :: 0 <= i < |mapped| ==> Apart(mapped[i], b)
  }

  // ----- sections

  ghost predicate PrefixOk(g: Group, i: nat) {
    i < |g.free| && (g.free[i].pendingPrefix.At? ==> g.free[i].pendingPrefix.index < |g.pending|)
  }

  /** The group after a section has been carved with arithmetic on words; intermediate results
      that wrap cancel out. */
  ghost function CarvedOnWords(g: Group, i: nat, size: nat, align: nat): Group
    requires align > 0 && PrefixOk(g, i)
  {
    var fb := g.free[i];
    var section := Block(Wrap(RoundUp(fb.free.base, align)), size);
    var prefix := if fb.pendingPrefix.At? then fb.pendingPrefix else At(|g.pending|);
    Group(PendingOnWords(g.pending, fb.pendingPrefix, section),
          g.free[i := FreeMemBlock(RestOnWords(fb.free, section), prefix)],
          g.live + [Section(section, align, false)], g.regions)
  }

  function PendingOnWords(pending: seq<Block>, before: Prefix, section: Block): seq<Block>
    requires before.At? ==> before.index < |pending|
  {
    match before
    case NoPrefix => pending + [section]
    case At(k) => pending[k := Block(pending[k].base, Wrap(section.End() - pending[k].base))]
  }

  function RestOnWords(free: Block, section: Block): Block {
    Block(Wrap(section.End()), Wrap(free.End() - section.End()))
  }

  /** That arithmetic is exact where the section fits the block. */
  lemma OnWordsIsExact(g: Group, size: nat, align: nat)
    requires align > 0 && |g.free| == 1 && PendingOk(g) && Fits(g.free[0].free, size, align)
    requires g.free[0].free.size < WORD && g.free[0].free.End() <= WORD
    ensures CarvedOnWords(g, 0, size, align) == Carved(g, 0, size, align)
    ensures Wrap(RoundUp(g.free[0].free.base, align)) == Carve(g.free[0].free, size, align).base
  {
    var b := g.free[0].free;
    var section := Carve(b, size, align);
    RoundUpIsAlignUp(b.base, align);
    CarveFits(b, size, align);
    WrapBelow(section.base);
    WrapBelow(section.End());
    WrapBelow(b.End() - section.End());
    if g.free[0].pendingPrefix.At? {
      WrapBelow(section.End() - g.pending[g.free[0].pendingPrefix.index].base);
    }
  }

  /** The group has carved a section if its free block is large enough, and else is unchanged. */
  ghost predicate CarvedOrNot(g: Group, g': Group, size: nat, align: nat, addr: Address) {
    && align > 0
    && (addr.Addr? <==> g.free != [] && g.free[0].free.size >= RequiredSpace(size, align))
    && (addr.Null? ==> g' == g)
    && (addr.Addr? ==> PrefixOk(g, 0) && g' == CarvedOnWords(g, 0, size, align)
                       && addr.value == Wrap(RoundUp(g.free[0].free.base, align)))
  }

  /** The answer to a section request: whether it is served and what it does to the group depend
      on arithmetic on words; where the required space does not overflow, the section is
      aligned and inside the free block, and the step is the intended one. */
  ghost predicate Answered(p: nat, h: Heap, h': Heap, k: nat, size: nat, align: nat, addr: Address) {
    && p > 0 && HeapOk(p, h) && k < 3 && |h'.groups| == 3 && h' == Heap(h.groups[k := h'.groups[k]], h.mapped)
    && CarvedOrNot(h.groups[k], h'.groups[k], size, align, addr)
    && (InWord(size, align) ==> AnsweredInWord(p, h, h', k, size, align, addr))
  }

  ghost predicate AnsweredInWord(p: nat, h: Heap, h': Heap, k: nat, size: nat, align: nat, addr: Address)
    requires p > 0 && HeapOk(p, h) && k < 3 && align > 0
  {
    var g := h.groups[k];
    && (addr.Addr? <==> g.free != [] && Fits(g.free[0].free, size, align))
    && (addr.Addr? ==>
          var section := Block(addr.value, size);
          && section == Carve(g.free[0].free, size, align) && section.base % align == 0
          && Inside(section, g.free[0].free) && Step(p, h, Carving(k, size, align), h'))
  }

  lemma FreeIsOk(p: nat, h: Heap, k: nat)
    requires p > 0 && HeapOk(p, h) && k < 3
    ensures FreeOk(h.groups[k]) && PendingOk(h.groups[k])
    ensures h.groups[k].free != [] ==> h.groups[k].free[0].free.size < WORD && h.groups[k].free[0].free.End() <= WORD
  {
    assert GroupOk(p, h.groups[k]);
    if h.groups[k].free != [] {
      FreeFitsWord(p, h, k);
    }
  }

  lemma CarvingAnswers(p: nat, h: Heap, k: nat, g: Group, size: nat, align: nat, addr: Address, perms: PagePerms)
    requires p > 0 && HeapOk(p, h) && k < 3 && CarvedOrNot(h.groups[k], g, size, align, addr)
    ensures Answered(p, h, Heap(h.groups[k := g], h.mapped), k, size, align, addr)
    ensures addr.Null? || InWord(size, align) ==>
              && HeapOk(p, Heap(h.groups[k := g], h.mapped))
              && Stays(p, h, perms, Heap(h.groups[k := g], h.mapped), perms)
  {
    FreeIsOk(p, h, k);
    AllocateKeeps(p, h, k, size, align, perms);
    if addr.Null? {
      assert h.groups[k := h.groups[k]] == h.groups;
    }
    if InWord(size, align) {
      RequiredSpaceFits(size, align);
      if addr.Addr? {
        OnWordsIsExact(h.groups[k], size, align);
      }
    }
  }

  /** In numbers, what a request at alignment `a` gets from free memory, and what is left: it is
      served exactly if the free block has the rounded size and `a` bytes more. */
  ghost predicate ServedFirst(free: seq<FreeMemBlock>, left: seq<FreeMemBlock>, size: nat, a: nat, addr: Address) {
    && a > 0
    && (addr.Addr? <==> free != [] && free[0].free.size >= AlignUp(size, a) + a)
    && (addr.Null? ==> left == free)
    && (addr.Addr? ==>
          && addr.value % a == 0 && free[0].free.base <= addr.value < free[0].free.base + a
          && |left| == 1 && left[0].free.base == addr.value + size && left[0].free.End() == free[0].free.End())
  }

  /** A section makes a new pending range only if the free block starts after none; otherwise it
      shares the range before it.  The next section will share the range of this one. */
  ghost predicate SharesRange(g: Group, g': Group) {
    && g.free != [] && g'.free != [] && g'.free[0].pendingPrefix.At?
    && match g.free[0].pendingPrefix
       case NoPrefix => |g'.pending| == |g.pending| + 1 && g'.free[0].pendingPrefix.index == |g.pending|
       case At(k) => |g'.pending| == |g.pending| && g'.free[0].pendingPrefix.index == k
  }

  /** Alignment 0 stands for 8. */
  ghost predicate ServedAligned(free: seq<FreeMemBlock>, left: seq<FreeMemBlock>, size: nat, alignment: nat,
                                addr: Address) {
    && (alignment == 0 && InWord(size, 8) ==> ServedFirst(free, left, size, 8, addr))
    && (alignment > 0 && InWord(size, alignment) ==> ServedFirst(free, left, size, alignment, addr))
  }

  lemma AlignedAnswers(p: nat, h: Heap, h': Heap, k: nat, size: nat, alignment: nat, addr: Address)
    requires Answered(p, h, h', k, size, EffectiveAlign(alignment), addr)
    ensures ServedAligned(h.groups[k].free, h'.groups[k].free, size, alignment, addr)
    ensures addr.Addr? ==> SharesRange(h.groups[k], h'.groups[k])
  {
    AnswerMeans(p, h, h', k, size, EffectiveAlign(alignment), addr);
  }

  lemma AnswerMeans(p: nat, h: Heap, h': Heap, k: nat, size: nat, align: nat, addr: Address)
    requires Answered(p, h, h', k, size, align, addr)
    ensures InWord(size, align) ==> ServedFirst(h.groups[k].free, h'.groups[k].free, size, align, addr)
  {
    FreeIsOk(p, h, k);
    if InWord(size, align) && addr.Addr? {
      var b := h.groups[k].free[0].free;
      AlignUpProps(b.base, align);
      OnWordsIsExact(h.groups[k], size, align);
    }
  }

  // ----- permissions

  /** What applying the permissions of group `k` does.  Success isolates the group, whatever
      happened before; failure leaves the group and may have changed its pending pages.  The
      other groups keep their isolation in both cases. */
  ghost predicate Applying(p: nat, h: Heap, perms: PagePerms, h': Heap, perms': PagePerms, k: nat, err: bool) {
    && p > 0 && HeapOk(p, h) && k < 3 && |h'.groups| == 3
    && (forall j :: 0 <= j < 3 && j != k ==> KeepsIsolation(p, h, perms, h', perms', j))
    && if err
       then h' == h && Failed(p, perms, perms', h.groups[k].pending, FinalPerm(k))
       else Step(p, h, Finalizing(k), h') && perms' == ProtectAll(p, perms, h.groups[k].pending, FinalPerm(k))
            && Isolated(p, h'.groups[k], perms', FinalPerm(k))
  }

  lemma ApplyingAnswers(p: nat, h: Heap, perms: PagePerms, k: nat, g: Group, perms': PagePerms, err: bool)
    requires p > 0 && HeapOk(p, h) && HeapGuarded(p, h, perms) && k < 3
    requires g == if err then h.groups[k] else Applied(p, h.groups[k])
    requires if err then Failed(p, perms, perms', h.groups[k].pending, FinalPerm(k))
             else perms' == ProtectAll(p, perms, h.groups[k].pending, FinalPerm(k))
    ensures var h' := Heap(h.groups[k := g], h.mapped);
            Applying(p, h, perms, h', perms', k, err) && HeapOk(p, h') && HeapGuarded(p, h', perms')
  {
    if err {
      assert h.groups[k := h.groups[k]] == h.groups;
      FailureKeeps(p, h, k, perms, perms');
    } else {
      ApplyKeeps(p, h, k, perms);
    }
  }

  /** The heap after the first `n` of the groups Code and ROData have been finalized. */
  ghost function FinalizedUpTo(p: nat, h: Heap, n: nat): Heap
    requires p > 0 && |h.groups| == 3
  {
    var h' := if n > 0 then Heap(h.groups[0 := Applied(p, h.groups[0])], h.mapped) else h;
    if n > 1 then Heap(h'.groups[1 := Applied(p, h'.groups[1])], h.mapped) else h'
  }

  ghost function PermsUpTo(p: nat, h: Heap, perms: PagePerms, n: nat): PagePerms
    requires p > 0 && |h.groups| == 3
  {
    var perms' := if n > 0 then ProtectAll(p, perms, h.groups[0].pending, ReadExec) else perms;
    if n > 1 then ProtectAll(p, perms', h.groups[1].pending, ReadOnly) else perms'
  }

  /** A finalization succeeds for both groups, or fails at one of them. */
  ghost predicate FinalizeOutcome(p: nat, h: Heap, perms: PagePerms, h': Heap, perms': PagePerms, err: bool)
    requires p > 0 && |h.groups| == 3
  {
    if err
    then exists n :: 0 <= n < 2 && h' == FinalizedUpTo(p, h, n)
                     && Failed(p, PermsUpTo(p, h, perms, n), perms', h.groups[n].pending, FinalPerm(n))
    else h' == FinalizedUpTo(p, h, 2) && perms' == PermsUpTo(p, h, perms, 2)
  }

  lemma CodeFailed(p: nat, h: Heap, perms: PagePerms, h': Heap, perms': PagePerms)
    requires Applying(p, h, perms, h', perms', 0, true)
    ensures FinalizeOutcome(p, h, perms, h', perms', true) && KeepsIsolation(p, h, perms, h', perms', 2)
  {
    assert h' == FinalizedUpTo(p, h, 0) && PermsUpTo(p, h, perms, 0) == perms;
    assert Failed(p, PermsUpTo(p, h, perms, 0), perms', h.groups[0].pending, FinalPerm(0));
  }

  lemma CodeThenData(p: nat, h: Heap, perms: PagePerms, h': Heap, perms': PagePerms, h'': Heap, perms'': PagePerms,
                     err: bool)
    requires Applying(p, h, perms, h', perms', 0, false) && Applying(p, h', perms', h'', perms'', 1, err)
    ensures FinalizeOutcome(p, h, perms, h'', perms'', err) && KeepsIsolation(p, h, perms, h'', perms'', 2)
    ensures !err ==> Isolated(p, h''.groups[0], perms'', FinalPerm(0))
    ensures !err ==> Isolated(p, h''.groups[1], perms'', FinalPerm(1))
  {
    assert h' == FinalizedUpTo(p, h, 1) && PermsUpTo(p, h, perms, 1) == perms';
    assert h'.groups[1] == h.groups[1];
    if err {
      assert Failed(p, PermsUpTo(p, h, perms, 1), perms'', h.groups[1].pending, FinalPerm(1));
    }
    assert KeepsIsolation(p, h, perms, h', perms', 2) && KeepsIsolation(p, h', perms', h'', perms'', 2);
    assert KeepsIsolation(p, h', perms', h'', perms'', 0);
  }

  // ----- reservations

  /** The alignments are positive and the page-rounded sizes fit a word together. */
  ghost predicate Addressable(p: nat, sizes: seq<nat>, aligns: seq<nat>) {
    && p > 0 && |sizes| == 3 && |aligns| == 3 && aligns[0] > 0 && aligns[1] > 0 && aligns[2] > 0
    && PagesOf(p, sizes, aligns)[0] + PagesOf(p, sizes, aligns)[1] + PagesOf(p, sizes, aligns)[2] < WORD
  }

  /** Bytes of whole pages reserved for each group. */
  ghost function PagesOf(p: nat, sizes: seq<nat>, aligns: seq<nat>): (pages: seq<nat>)
    requires p > 0 && |sizes| == 3 && |aligns| == 3 && aligns[0] > 0 && aligns[1] > 0 && aligns[2] > 0
    ensures |pages| == 3
  {
    [AlignUp(RequiredSize(sizes[0], aligns[0]), p),
     AlignUp(RequiredSize(sizes[1], aligns[1]), p),
     AlignUp(RequiredSize(sizes[2], aligns[2]), p)]
  }

  ghost predicate HasRoom(g: Group, size: nat) {
    exists i :: 0 <= i < |g.free| && g.free[i].free.size >= size
  }

  /** Required space: at least 8 bytes of alignment, once to round up the size and once more to
      round up the start. */
  lemma RequiredMeans(size: nat, align: nat)
    requires align > 0
    ensures RequiredSize(size, align) == if align <= 8 then AlignUp(size, 8) + 8 else AlignUp(size, align) + align
  {
  }

  lemma RoomMeans(p: nat, h: Heap, k: nat, size: nat)
    requires p > 0 && HeapOk(p, h) && k < 3
    ensures HasRoom(h.groups[k], size) <==> h.groups[k].free != [] && h.groups[k].free[0].free.size >= size
  {
    FreeIsOk(p, h, k);
  }

  /** In numbers, when a reservation reuses old memory: every group's free block has the size
      and the alignment, at least 8, that was asked for. */
  ghost predicate AllLargeEnough(h: Heap, sizes: seq<nat>, aligns: seq<nat>) {
    |h.groups| == 3 && |sizes| == 3 && |aligns| == 3
    && forall k :: 0 <= k < 3 ==>
         && h.groups[k].free != []
         && h.groups[k].free[0].free.size
            >= if aligns[k] <= 8 then AlignUp(sizes[k], 8) + 8 else AlignUp(sizes[k], aligns[k]) + aligns[k]
  }

  /** That, in whole pages; nothing for a group that asked for nothing. */
  function PartSize(p: nat, size: nat, align: nat): nat
    requires p > 0
  {
    if size == 0 then 0 else AlignUp(if align <= 8 then AlignUp(size, 8) + 8 else AlignUp(size, align) + align, p)
  }

  /** What a fresh mapping gives the groups: parts of these sizes, one after the other from the
      start of the mapping. */
  ghost predicate AllFilled(p: nat, h: Heap, sizes: seq<nat>, aligns: seq<nat>, base: nat)
    requires p > 0
  {
    |h.groups| == 3 && |sizes| == 3 && |aligns| == 3
    && forall k :: 0 <= k < 3 ==>
         if sizes[k] == 0 then h.groups[k].free == []
         else |h.groups[k].free| == 1
              && h.groups[k].free[0].free
                 == Block(base + (if k > 0 then PartSize(p, sizes[0], aligns[0]) else 0)
                          + (if k > 1 then PartSize(p, sizes[1], aligns[1]) else 0),
                          PartSize(p, sizes[k], aligns[k]))
  }

  lemma ReuseMeans(p: nat, h: Heap, h': Heap, sizes: seq<nat>, aligns: seq<nat>, r: Reserved)
    requires Addressable(p, sizes, aligns) && HeapOk(p, h) && Outcome(p, h, h', sizes, aligns, r)
    ensures r.Reused? <==> sizes != [0, 0, 0] && AllLargeEnough(h, sizes, aligns)
  {
    forall k | 0 <= k < 3
      ensures HasRoom(h.groups[k], RequiredSize(sizes[k], aligns[k]))
              <==> && h.groups[k].free != []
                   && h.groups[k].free[0].free.size
                      >= if aligns[k] <= 8 then AlignUp(sizes[k], 8) + 8 else AlignUp(sizes[k], aligns[k]) + aligns[k]
    {
      RoomMeans(p, h, k, RequiredSize(sizes[k], aligns[k]));
      RequiredMeans(sizes[k], aligns[k]);
    }
  }

  lemma OutcomeMeans(p: nat, h: Heap, h': Heap, sizes: seq<nat>, aligns: seq<nat>, r: Reserved)
    requires Addressable(p, sizes, aligns) && HeapOk(p, h) && Outcome(p, h, h', sizes, aligns, r)
    ensures r.Reused? <==> sizes != [0, 0, 0] && AllLargeEnough(h, sizes, aligns)
    ensures r.Fresh? ==> AllFilled(p, h', sizes, aligns, r.base)
    ensures r.Aborted? ==> |h'.groups| == 3 && forall k :: 0 <= k < 3 ==> h'.groups[k].free == []
  {
    ReuseMeans(p, h, h', sizes, aligns, r);
    if r.Fresh? {
      FreshMeans(p, h, h', sizes, aligns, r.base);
    }
  }

  lemma PagesMean(p: nat, sizes: seq<nat>, aligns: seq<nat>, k: nat)
    requires Addressable(p, sizes, aligns) && k < 3
    ensures (if sizes[k] > 0 then PagesOf(p, sizes, aligns)[k] else 0) == PartSize(p, sizes[k], aligns[k])
  {
    RequiredMeans(sizes[k], aligns[k]);
  }

  lemma FreshMeans(p: nat, h: Heap, h': Heap, sizes: seq<nat>, aligns: seq<nat>, base: nat)
    requires Addressable(p, sizes, aligns)
    requires FreshlyReserved(h, h', sizes, aligns, PagesOf(p, sizes, aligns), base, 3)
    ensures AllFilled(p, h', sizes, aligns, base)
  {
    var pages := PagesOf(p, sizes, aligns);
    assert Given(sizes, 3) == sizes;
    PagesMean(p, sizes, aligns, 0);
    PagesMean(p, sizes, aligns, 1);
    PagesMean(p, sizes, aligns, 2);
    PartsMean(p, sizes, aligns, pages, base);
    var parts := Parts(base, sizes, pages);
    forall k | 0 <= k < 3 ensures h'.groups[k] == Refilled(h.groups[k], sizes[k], parts[k]) {
    }
  }

  lemma PartsMean(p: nat, sizes: seq<nat>, aligns: seq<nat>, pages: seq<nat>, base: nat)
    requires p > 0 && |sizes| == 3 && |aligns| == 3 && |pages| == 3
    requires forall k :: 0 <= k < 3 ==> (if sizes[k] > 0 then pages[k] else 0) == PartSize(p, sizes[k], aligns[k])
    ensures forall k :: 0 <= k < 3 ==>
              Parts(base, sizes, pages)[k]
              == Block(base + (if k > 0 then PartSize(p, sizes[0], aligns[0]) else 0)
                       + (if k > 1 then PartSize(p, sizes[1], aligns[1]) else 0),
                       PartSize(p, sizes[k], aligns[k]))
  {
  }

  /** What a reservation does in each case. */
  ghost predicate Outcome(p: nat, h: Heap, h': Heap, sizes: seq<nat>, aligns: seq<nat>, r: Reserved)
    requires Addressable(p, sizes, aligns) && HeapOk(p, h)
  {
    if sizes == [0, 0, 0] then r == Nothing && h' == h
    else if AllHaveRoom(h, sizes, aligns) then r == Reused && h' == h
    else FreshOutcome(p, h, h', sizes, aligns, PagesOf(p, sizes, aligns), r)
  }

  /** A new mapping, or one of the failed assertions; the alignment check can fail only for an
      alignment beyond a page. */
  ghost predicate FreshOutcome(p: nat, h: Heap, h': Heap, sizes: seq<nat>, aligns: seq<nat>, pages: seq<nat>,
                               r: Reserved)
    requires p > 0 && HeapOk(p, h)
  {
    match r
    case Fresh(base) => FreshlyReserved(h, h', sizes, aligns, pages, base, 3)
    case Misaligned(base, filled) =>
      filled < 3 && FreshlyReserved(h, h', sizes, aligns, pages, base, filled) && aligns[filled] > p
    case Aborted => Step(p, h, Failing, h')
    case _ => false
  }

  /** What the groups have received when the alignment check of group `filled` fails; with 3,
      when none does. */
  function Given(asked: seq<nat>, filled: nat): seq<nat>
    requires |asked| == 3
  {
    [if filled > 0 then asked[0] else 0, if filled > 1 then asked[1] else 0, if filled > 2 then asked[2] else 0]
  }

  /** Group `n` is the first whose part does not start as aligned as it asked; with 3, none is. */
  predicate AlignedUpTo(base: nat, asked: seq<nat>, aligns: seq<nat>, pages: seq<nat>, n: nat)
    requires |asked| == 3 && |aligns| == 3 && |pages| == 3
  {
    var parts := Parts(base, asked, pages);
    && n <= 3
    && (forall k :: 0 <= k < n ==> asked[k] > 0 ==> parts[k].base % Max(aligns[k], STUB_ALIGN) == 0)
    && (n < 3 ==> asked[n] > 0 && parts[n].base % Max(aligns[n], STUB_ALIGN) != 0)
  }

  /** All old free memory is gone, and the first `filled` groups have their parts of one new
      mapping. */
  ghost predicate FreshlyReserved(before: Heap, h: Heap, asked: seq<nat>, aligns: seq<nat>, pages: seq<nat>,
                                  base: nat, filled: nat)
  {
    && |before.groups| == 3 && |asked| == 3 && |aligns| == 3 && |pages| == 3
    && |h.mapped| == |before.mapped| + 1 && AlignedUpTo(base, asked, aligns, pages, filled)
    && var block := h.mapped[|before.mapped|];
       block.base == base && pages[0] + pages[1] + pages[2] <= block.size
       && h == RefilledHeap(before, block, Given(asked, filled), Parts(base, Given(asked, filled), pages))
  }

  /** The groups `gs`, none of which has free memory, have received their parts. */
  ghost predicate Divided(gs: seq<Group>, gs': seq<Group>, base: nat, given: seq<nat>, pages: seq<nat>) {
    && |gs| == 3 && |gs'| == 3 && |given| == 3 && |pages| == 3
    && gs'[0] == Refilled(gs[0], given[0], Parts(base, given, pages)[0])
    && gs'[1] == Refilled(gs[1], given[1], Parts(base, given, pages)[1])
    && gs'[2] == Refilled(gs[2], given[2], Parts(base, given, pages)[2])
  }

  lemma DividedIsRefilled(h: Heap, h': Heap, block: Block, given: seq<nat>, pages: seq<nat>)
    requires |h.groups| == 3 && h'.mapped == h.mapped + [block]
    requires Divided(Dropped(h).groups, h'.groups, block.base, given, pages)
    ensures h' == RefilledHeap(h, block, given, Parts(block.base, given, pages))
  {
  }

  /** The sizes in `pages` are whole pages. */
  ghost predicate Splittable(p: nat, sizes: seq<nat>, aligns: seq<nat>, pages: seq<nat>) {
    && p > 0 && |sizes| == 3 && |aligns| == 3 && |pages| == 3
    && forall k :: 0 <= k < 3 ==> PowerOfTwo(aligns[k]) && aligns[k] > 0 && pages[k] % p == 0
  }

  lemma PagesAreSplittable(p: nat, sizes: seq<nat>, aligns: seq<nat>)
    requires Addressable(p, sizes, aligns) && forall k :: 0 <= k < 3 ==> PowerOfTwo(aligns[k])
    ensures Splittable(p, sizes, aligns, PagesOf(p, sizes, aligns))
  {
    forall k | 0 <= k < 3 ensures PagesOf(p, sizes, aligns)[k] % p == 0 {
      AlignUpProps(RequiredSize(sizes[k], aligns[k]), p);
    }
  }

  lemma MappingDone(p: nat, h: Heap, perms: PagePerms, block: Block, sizes: seq<nat>, aligns: seq<nat>, pages: seq<nat>,
                    filled: nat, h': Heap)
    requires PowerOfTwo(p) && STUB_ALIGN <= p && Splittable(p, sizes, aligns, pages) && HeapOk(p, h)
    requires NewBlock(p, h.mapped, pages[0] + pages[1] + pages[2], block)
    requires AlignedUpTo(block.base, sizes, aligns, pages, filled)
    requires h'.mapped == h.mapped + [block]
    requires Divided(Dropped(h).groups, h'.groups, block.base, Given(sizes, filled), pages)
    ensures HeapOk(p, h') && Stays(p, h, perms, h', Protect(p, perms, block, ReadWrite))
    ensures FreshOutcome(p, h, h', sizes, aligns, pages,
                         if filled < 3 then Misaligned(block.base, filled) else Fresh(block.base))
  {
    var given := Given(sizes, filled);
    DividedIsRefilled(h, h', block, given, pages);
    FreshReservation(p, h, perms, block, given, pages, Parts(block.base, given, pages));
    if filled < 3 {
      OnlyBeyondPage(p, block.base, sizes, aligns, pages, filled);
    }
  }

  /** No check fails when no alignment exceeds a page. */
  lemma OnlyBeyondPage(p: nat, base: nat, asked: seq<nat>, aligns: seq<nat>, pages: seq<nat>, n: nat)
    requires PowerOfTwo(p) && STUB_ALIGN <= p && p > 0 && base % p == 0 && n < 3
    requires |asked| == 3 && |aligns| == 3 && |pages| == 3 && forall k :: 0 <= k < 3 ==> pages[k] % p == 0
    requires PowerOfTwo(aligns[n]) && aligns[n] > 0 && AlignedUpTo(base, asked, aligns, pages, n)
    ensures aligns[n] > p
  {
    var parts := Parts(base, asked, pages);
    PartsAligned(p, Block(base, 0), asked, pages, parts);
    assert PageAligned(p, parts[n]);
    if aligns[n] <= p {
      PagesAreAligned(parts[n].base, p, aligns[n]);
    }
  }

  // ----- reuse beyond a page

  /** What a fresh reservation of 24000 bytes of code and 8 bytes of data of either kind leaves,
      when the system maps it at 4096. */
  const EIGHT_PAGES: Heap :=
    RefilledHeap(EMPTY_HEAP, Block(4096, 32768), [24000, 8, 8],
                 [Block(4096, 24576), Block(28672, 4096), Block(32768, 4096)])

  lemma EightPagesOk()
    ensures HeapOk(4096, EIGHT_PAGES)
    ensures EIGHT_PAGES.groups[0].free == [FreeMemBlock(Block(4096, 24576), NoPrefix)]
    ensures EIGHT_PAGES.groups[1].free == [FreeMemBlock(Block(28672, 4096), NoPrefix)]
    ensures EIGHT_PAGES.groups[2].free == [FreeMemBlock(Block(32768, 4096), NoPrefix)]
  {
    var parts := [Block(4096, 24576), Block(28672, 4096), Block(32768, 4096)];
    EmptyHeapOk(4096);
    assert FreshRegions(4096, EMPTY_HEAP, Block(4096, 32768), parts);
    HeapRefill(4096, EMPTY_HEAP, Block(4096, 32768), [24000, 8, 8], parts);
  }

  /** The requests of a loader that has announced 16384 bytes of code at an alignment of 8192. */
  const TWO_SECTIONS: seq<Request> := [Request(8192, 8192), Request(8192, 8192)]

  /** For alignments beyond a page the size check is not enough.  After a first reservation the
      memory is reused for a second one, and the second of two sections announced for that
      is refused. */
  lemma ReuseBeyondPageCanFail()
    ensures HeapOk(4096, EMPTY_HEAP) && HeapOk(4096, EIGHT_PAGES)
    ensures Addressable(4096, [24000, 8, 8], [1, 1, 1]) && Addressable(4096, [16384, 8, 8], [8192, 1, 1])
    ensures Outcome(4096, EMPTY_HEAP, EIGHT_PAGES, [24000, 8, 8], [1, 1, 1], Fresh(4096))
    ensures Outcome(4096, EIGHT_PAGES, EIGHT_PAGES, [16384, 8, 8], [8192, 1, 1], Reused)
    ensures Announced(TWO_SECTIONS, 8192, 16384) && !AllServed(EIGHT_PAGES.groups[0].free[0].free, TWO_SECTIONS)
  {
    EightPagesOk();
    FirstReservation();
    SecondReservation();
    TwoSectionsRefused();
  }

  lemma FirstPages()
    ensures PagesOf(4096, [24000, 8, 8], [1, 1, 1]) == [24576, 4096, 4096]
  {
    assert RequiredSize(24000, 1) == 24008 && RequiredSize(8, 1) == 16;
    assert AlignUp(24008, 4096) == 24576 && AlignUp(16, 4096) == 4096;
  }

  lemma FirstMapping()
    ensures FreshlyReserved(EMPTY_HEAP, EIGHT_PAGES, [24000, 8, 8], [1, 1, 1], [24576, 4096, 4096], 4096, 3)
  {
    var sizes, pages := [24000, 8, 8], [24576, 4096, 4096];
    assert Parts(4096, sizes, pages) == [Block(4096, 24576), Block(28672, 4096), Block(32768, 4096)];
    assert Given(sizes, 3) == sizes;
  }

  lemma FirstReservation()
    ensures HeapOk(4096, EMPTY_HEAP) && Addressable(4096, [24000, 8, 8], [1, 1, 1])
    ensures Outcome(4096, EMPTY_HEAP, EIGHT_PAGES, [24000, 8, 8], [1, 1, 1], Fresh(4096))
  {
    EmptyHeapOk(4096);
    FirstPages();
    FirstMapping();
    assert !HasRoom(EMPTY_HEAP.groups[0], RequiredSize(24000, 1));
  }

  lemma SecondReservation()
    ensures HeapOk(4096, EIGHT_PAGES) && Addressable(4096, [16384, 8, 8], [8192, 1, 1])
    ensures Outcome(4096, EIGHT_PAGES, EIGHT_PAGES, [16384, 8, 8], [8192, 1, 1], Reused)
  {
    EightPagesOk();
    assert PagesOf(4096, [16384, 8, 8], [8192, 1, 1]) == [24576, 4096, 4096];
    assert EIGHT_PAGES.groups[0].free[0].free.size >= RequiredSize(16384, 8192);
    assert EIGHT_PAGES.groups[1].free[0].free.size >= RequiredSize(8, 1);
    assert EIGHT_PAGES.groups[2].free[0].free.size >= RequiredSize(8, 1);
  }

  lemma TwoSectionsRefused()
    ensures Announced(TWO_SECTIONS, 8192, 16384) && !AllServed(Block(4096, 24576), TWO_SECTIONS)
  {
    PowerTimes(16, 512);
    var b := Block(4096, 24576);
    var last := TWO_SECTIONS[1..];
    assert last == [Request(8192, 8192)] && last[1..] == [];
    assert Rounded(last[1..], 8192) == 0 && Rounded(last, 8192) == 8192;
    assert Rest(b, 8192, 8192) == Block(16384, 12288);
    assert !Fits(Block(16384, 12288), 8192, 8192);
  }

  // ----- requests

  /** The requests of one group, in order. */
  function RequestsOf(orders: seq<Order>, k: nat): seq<Request> {
    if orders == [] then []
    else (if Index(orders[0].purpose) == k then [orders[0].req] else []) + RequestsOf(orders[1..], k)
  }

  /** The groups that can serve requests after a reservation. */
  function Having(sizes: seq<nat>, reused: bool): set<nat>
    requires |sizes| == 3
  {
    set k: nat | k < 3 && (reused || sizes[k] > 0)
  }

  ghost predicate Serviceable(reqs: seq<Request>) {
    forall i :: 0 <= i < |reqs| ==>
      && (reqs[i].alignment == 0 || PowerOfTwo(reqs[i].alignment))
      && InWord(reqs[i].size, EffectiveAlign(reqs[i].alignment))
  }

  /** The group's free block lies in `area` and serves the requests. */
  ghost predicate Remaining(free: seq<FreeMemBlock>, reqs: seq<Request>, area: Block) {
    Serviceable(reqs) && free != [] && Inside(free[0].free, area) && AllServed(free[0].free, reqs)
  }

  ghost predicate GroupReady(g: Group, reqs: seq<Request>, area: Block, has: bool) {
    Serviceable(reqs) && if has then Remaining(g.free, reqs, area) else g.free == []
  }

  /** Each group with free memory serves its share of the orders. */
  ghost predicate Ready(h: Heap, orders: seq<Order>, area: Block, has: set<nat>) {
    |h.groups| == 3 && forall k :: 0 <= k < 3 ==> GroupReady(h.groups[k], RequestsOf(orders, k), area, k in has)
  }

  /** A group with free memory serves the order, aligned and inside `area`; any other refuses. */
  ghost predicate Placed(addr: Address, order: Order, area: Block, has: set<nat>) {
    var a := EffectiveAlign(order.req.alignment);
    if Index(order.purpose) in has
    then addr.Addr? && a > 0 && addr.value % a == 0 && Inside(Block(addr.value, order.req.size), area)
    else addr.Null?
  }

  ghost predicate AllPlaced(addrs: seq<Address>, orders: seq<Order>, area: Block, has: set<nat>) {
    |addrs| == |orders| && forall i :: 0 <= i < |orders| ==> Placed(addrs[i], orders[i], area, has)
  }

  /** What one answer adds to the log of group `k`. */
  ghost function Entry(order: Order, addr: Address, k: nat): seq<Section> {
    if addr.Addr? && Index(order.purpose) == k
    then [Section(Block(addr.value, order.req.size), EffectiveAlign(order.req.alignment), false)]
    else []
  }

  ghost function Entries(orders: seq<Order>, addrs: seq<Address>, k: nat): seq<Section>
    requires |addrs| == |orders|
  {
    if orders == [] then [] else Entry(orders[0], addrs[0], k) + Entries(orders[1..], addrs[1..], k)
  }

  ghost predicate LoggedOne(h: Heap, h': Heap, order: Order, addr: Address) {
    |h.groups| == 3 && |h'.groups| == 3
    && forall k :: 0 <= k < 3 ==> h'.groups[k].live == h.groups[k].live + Entry(order, addr, k)
  }

  /** The log of every group has grown by exactly the sections handed out, in order. */
  ghost predicate Logged(h: Heap, h': Heap, orders: seq<Order>, addrs: seq<Address>) {
    |h.groups| == 3 && |h'.groups| == 3 && |addrs| == |orders|
    && forall k :: 0 <= k < 3 ==> h'.groups[k].live == h.groups[k].live + Entries(orders, addrs, k)
  }

  lemma LogStep(h: Heap, h': Heap, h'': Heap, orders: seq<Order>, addr: Address, rest: seq<Address>)
    requires orders != [] && LoggedOne(h, h', orders[0], addr) && Logged(h', h'', orders[1..], rest)
    ensures Logged(h, h'', orders, [addr] + rest)
  {
    assert ([addr] + rest)[1..] == rest;
  }

  lemma ReadyFirst(h: Heap, orders: seq<Order>, area: Block, has: set<nat>)
    requires orders != [] && Ready(h, orders, area, has)
    ensures var k, req := Index(orders[0].purpose), orders[0].req;
            && (req.alignment == 0 || PowerOfTwo(req.alignment)) && EffectiveAlign(req.alignment) > 0
            && InWord(req.size, EffectiveAlign(req.alignment)) && req.size < WORD && req.alignment < WORD
            && if k in has then h.groups[k].free != [] && Inside(h.groups[k].free[0].free, area)
                                && Fits(h.groups[k].free[0].free, req.size, EffectiveAlign(req.alignment))
               else h.groups[k].free == []
  {
    var k, req := Index(orders[0].purpose), orders[0].req;
    assert GroupReady(h.groups[k], RequestsOf(orders, k), area, k in has);
    assert RequestsOf(orders, k)[0] == req;
    EightIsPower();
    PowersDivide(1, EffectiveAlign(req.alignment));
  }

  lemma RequestsShrink(orders: seq<Order>, k: nat)
    requires orders != []
    ensures RequestsOf(orders[1..], k)
            == if Index(orders[0].purpose) == k then RequestsOf(orders, k)[1..] else RequestsOf(orders, k)
    ensures Index(orders[0].purpose) == k ==> RequestsOf(orders, k) == [orders[0].req] + RequestsOf(orders[1..], k)
  {
  }

  lemma GroupServed(g: Group, reqs: seq<Request>, area: Block)
    requires reqs != [] && |g.free| == 1 && PendingOk(g) && Remaining(g.free, reqs, area)
    ensures var req := reqs[0];
            var a := EffectiveAlign(req.alignment);
            && a > 0 && Fits(g.free[0].free, req.size, a)
            && GroupReady(Carved(g, 0, req.size, a), reqs[1..], area, true)
            && Inside(Carve(g.free[0].free, req.size, a), area)
  {
    CarveFits(g.free[0].free, reqs[0].size, EffectiveAlign(reqs[0].alignment));
    forall i | 0 <= i < |reqs[1..]| ensures reqs[1..][i] == reqs[i + 1] {
    }
  }

  lemma ReadyCarved(p: nat, h: Heap, h': Heap, orders: seq<Order>, area: Block, has: set<nat>, addr: Address)
    requires p > 0 && HeapOk(p, h) && orders != [] && Ready(h, orders, area, has) && Index(orders[0].purpose) in has
    requires var k, req := Index(orders[0].purpose), orders[0].req;
             Step(p, h, Carving(k, req.size, EffectiveAlign(req.alignment)), h')
    requires addr.Addr?
    requires var k, req := Index(orders[0].purpose), orders[0].req;
             Block(addr.value, req.size) == Carve(h.groups[k].free[0].free, req.size, EffectiveAlign(req.alignment))
    ensures Ready(h', orders[1..], area, has) && Placed(addr, orders[0], area, has) && LoggedOne(h, h', orders[0], addr)
  {
    var n, req := Index(orders[0].purpose), orders[0].req;
    assert GroupReady(h.groups[n], RequestsOf(orders, n), area, true);
    RequestsShrink(orders, n);
    GroupServed(h.groups[n], RequestsOf(orders, n), area);
    CarveFits(h.groups[n].free[0].free, req.size, EffectiveAlign(req.alignment));
    forall k | 0 <= k < 3 ensures GroupReady(h'.groups[k], RequestsOf(orders[1..], k), area, k in has) {
      RequestsShrink(orders, k);
      assert GroupReady(h.groups[k], RequestsOf(orders, k), area, k in has);
    }
  }

  lemma ReadyRefused(h: Heap, orders: seq<Order>, area: Block, has: set<nat>)
    requires orders != [] && Ready(h, orders, area, has) && Index(orders[0].purpose) !in has
    ensures Ready(h, orders[1..], area, has) && Placed(Null, orders[0], area, has) && LoggedOne(h, h, orders[0], Null)
  {
    forall k | 0 <= k < 3 ensures GroupReady(h.groups[k], RequestsOf(orders[1..], k), area, k in has) {
      RequestsShrink(orders, k);
      var reqs := RequestsOf(orders, k);
      assert GroupReady(h.groups[k], reqs, area, k in has);
    }
  }

  /** A group of a fresh reservation serves everything announced to it. */
  lemma FreshGroupReady(p: nat, before: Group, g: Group, part: Block, size: nat, align: nat, reqs: seq<Request>,
                        area: Block)
    requires 0 < p && PowerOfTwo(align) && align > 0
    requires g == Refilled(before, size, part) && Inside(part, area)
    requires AlignUp(RequiredSize(size, align), p) < WORD && Announced(reqs, Max(align, STUB_ALIGN), size)
    requires size > 0 ==> part.size == AlignUp(RequiredSize(size, align), p) && part.base % Max(align, STUB_ALIGN) == 0
    ensures GroupReady(g, reqs, area, size > 0)
  {
    AnnouncedFits(p, size, align, reqs);
    if size > 0 {
      FreshServesAll(part, p, align, size, reqs);
    }
  }

  /** Requests that a reservation is made for. */
  ghost predicate AllAnnounced(sizes: seq<nat>, aligns: seq<nat>, orders: seq<Order>) {
    && |sizes| == 3 && |aligns| == 3
    && forall k :: 0 <= k < 3 ==>
         && PowerOfTwo(aligns[k]) && aligns[k] > 0
         && Announced(RequestsOf(orders, k), Max(aligns[k], STUB_ALIGN), sizes[k])
  }

  ghost predicate AllHaveRoom(h: Heap, sizes: seq<nat>, aligns: seq<nat>)
    requires |h.groups| == 3 && |sizes| == 3 && |aligns| == 3 && aligns[0] > 0 && aligns[1] > 0 && aligns[2] > 0
  {
    forall k :: 0 <= k < 3 ==> HasRoom(h.groups[k], RequiredSize(sizes[k], aligns[k]))
  }

  /** If old memory is going to be reused, then no alignment exceeds a page, or the group's free
      block is roomy - which `ServesAllExactly` shows to be the exact condition. */
  ghost predicate ReuseIsRoomy(p: nat, h: Heap, sizes: seq<nat>, aligns: seq<nat>)
    requires |h.groups| == 3 && |sizes| == 3 && |aligns| == 3 && aligns[0] > 0 && aligns[1] > 0 && aligns[2] > 0
  {
    AllHaveRoom(h, sizes, aligns) ==>
      forall k :: 0 <= k < 3 && aligns[k] > p && h.groups[k].free != [] ==>
        Roomy(h.groups[k].free[0].free, Max(aligns[k], STUB_ALIGN), sizes[k])
  }

  /** The announced requests can be served from `area`, which is in the latest mapping. */
  ghost predicate ReadyAfter(p: nat, h: Heap, sizes: seq<nat>, aligns: seq<nat>, r: Reserved, orders: seq<Order>,
                             area: Block)
    requires Addressable(p, sizes, aligns)
  {
    && (r.Misaligned? ==> exists k :: 0 <= k < 3 && aligns[k] > p) && (r.Nothing? <==> sizes == [0, 0, 0])
    && (r.Fresh? || r.Reused? ==>
          && h.mapped != [] && Inside(area, h.mapped[|h.mapped| - 1])
          && Ready(h, orders, area, Having(sizes, r.Reused?)))
    && (r.Fresh? ==> area == Block(r.base, Total(sizes, PagesOf(p, sizes, aligns))))
  }

  /** After a reservation that succeeded, all announced requests have been served from `area`,
      which is in the latest mapping and, if that is fresh, of the required size; a group
      that reserved nothing has none after a fresh mapping.  An alignment check can fail only
      for an alignment beyond a page. */
  ghost predicate ServedAfter(p: nat, mapped: seq<Block>, sizes: seq<nat>, aligns: seq<nat>, r: Reserved,
                              orders: seq<Order>, area: Block, addrs: seq<Address>)
    requires Addressable(p, sizes, aligns)
  {
    && (r.Misaligned? ==> exists k :: 0 <= k < 3 && aligns[k] > p) && (r.Nothing? <==> sizes == [0, 0, 0])
    && (r.Fresh? || r.Reused? ==>
          && mapped != [] && Inside(area, mapped[|mapped| - 1])
          && AllPlaced(addrs, orders, area, Having(sizes, r.Reused?)))
    && (r.Fresh? ==> area == Block(r.base, Total(sizes, PagesOf(p, sizes, aligns))))
  }

  lemma ReadyIsServed(p: nat, h: Heap, sizes: seq<nat>, aligns: seq<nat>, r: Reserved, orders: seq<Order>,
                      area: Block, addrs: seq<Address>)
    requires Addressable(p, sizes, aligns) && ReadyAfter(p, h, sizes, aligns, r, orders, area)
    requires r.Fresh? || r.Reused? ==> AllPlaced(addrs, orders, area, Having(sizes, r.Reused?))
    ensures ServedAfter(p, h.mapped, sizes, aligns, r, orders, area, addrs)
  {
  }

  lemma OutcomeIsReady(p: nat, h: Heap, h': Heap, sizes: seq<nat>, aligns: seq<nat>, r: Reserved, orders: seq<Order>)
    returns (area: Block)
    requires PowerOfTwo(p) && STUB_ALIGN <= p < WORD && HeapOk(p, h) && Addressable(p, sizes, aligns)
    requires Outcome(p, h, h', sizes, aligns, r) && AllAnnounced(sizes, aligns, orders)
    requires ReuseIsRoomy(p, h, sizes, aligns)
    ensures ReadyAfter(p, h', sizes, aligns, r, orders, area)
  {
    area := Block(0, 0);
    if r.Fresh? {
      area := Block(r.base, Total(sizes, PagesOf(p, sizes, aligns)));
      FreshIsReady(p, h, h', sizes, aligns, r.base, orders);
    } else if r.Reused? {
      ReusedIsReady(p, h, sizes, aligns, orders);
      area := h.mapped[|h.mapped| - 1];
    }
  }

  lemma FreshIsReady(p: nat, h: Heap, h': Heap, sizes: seq<nat>, aligns: seq<nat>, base: nat, orders: seq<Order>)
    requires Addressable(p, sizes, aligns)
    requires FreshlyReserved(h, h', sizes, aligns, PagesOf(p, sizes, aligns), base, 3)
    requires AllAnnounced(sizes, aligns, orders)
    ensures var area := Block(base, Total(sizes, PagesOf(p, sizes, aligns)));
            && Ready(h', orders, area, Having(sizes, false))
            && h'.mapped != [] && Inside(area, h'.mapped[|h'.mapped| - 1])
  {
    var pages := PagesOf(p, sizes, aligns);
    var area, parts := Block(base, Total(sizes, pages)), Parts(base, sizes, pages);
    assert Given(sizes, 3) == sizes;
    forall k | 0 <= k < 3 ensures GroupReady(h'.groups[k], RequestsOf(orders, k), area, k in Having(sizes, false)) {
      assert Inside(parts[k], area);
      FreshGroupReady(p, h.groups[k], h'.groups[k], parts[k], sizes[k], aligns[k], RequestsOf(orders, k), area);
    }
  }

  lemma ReusedIsReady(p: nat, h: Heap, sizes: seq<nat>, aligns: seq<nat>, orders: seq<Order>)
    requires PowerOfTwo(p) && STUB_ALIGN <= p < WORD && HeapOk(p, h) && Addressable(p, sizes, aligns)
    requires AllHaveRoom(h, sizes, aligns) && ReuseIsRoomy(p, h, sizes, aligns) && AllAnnounced(sizes, aligns, orders)
    ensures h.mapped != [] && Ready(h, orders, h.mapped[|h.mapped| - 1], Having(sizes, true))
  {
    forall k | 0 <= k < 3
      ensures h.mapped != [] && GroupReady(h.groups[k], RequestsOf(orders, k), h.mapped[|h.mapped| - 1], true)
    {
      ReusedGroupReady(p, h, k, sizes[k], aligns[k], RequestsOf(orders, k));
    }
    assert GroupReady(h.groups[0], RequestsOf(orders, 0), h.mapped[|h.mapped| - 1], true);
  }

  lemma ReusedGroupReady(p: nat, h: Heap, k: nat, size: nat, align: nat, reqs: seq<Request>)
    requires PowerOfTwo(p) && STUB_ALIGN <= p < WORD && HeapOk(p, h) && k < 3 && PowerOfTwo(align) && 0 < align
    requires align <= p || (h.groups[k].free != [] ==> Roomy(h.groups[k].free[0].free, Max(align, STUB_ALIGN), size))
    requires HasRoom(h.groups[k], RequiredSize(size, align)) && AlignUp(RequiredSize(size, align), p) < WORD
    requires Announced(reqs, Max(align, STUB_ALIGN), size)
    ensures h.mapped != [] && GroupReady(h.groups[k], reqs, h.mapped[|h.mapped| - 1], true)
  {
    FreeIsOk(p, h, k);
    assert GroupMapped(h.groups[k], h.mapped);
    FreeFitsWord(p, h, k);
    AnnouncedFits(p, size, align, reqs);
    if align <= p {
      ReusedServes(p, h, k, align, size, reqs);
    } else {
      EightIsPower();
      ServesAllExactly(h.groups[k].free[0].free, Max(align, STUB_ALIGN), size);
    }
  }

  /** Announced requests never overflow a word. */
  lemma AnnouncedFits(p: nat, size: nat, align: nat, reqs: seq<Request>)
    requires p > 0 && PowerOfTwo(align) && align > 0
    requires AlignUp(RequiredSize(size, align), p) < WORD
    requires Announced(reqs, Max(align, STUB_ALIGN), size)
    ensures Serviceable(reqs)
  {
    var c := Max(align, STUB_ALIGN);
    EightIsPower();
    AlignUpProps(RequiredSize(size, align), p);
    WordMultiple(c);
    AlignUpProps(size, c);
    SumMod(AlignUp(size, c), c, c);
    MultiplesGap(AlignUp(size, c) + c, WORD, c);
    forall i | 0 <= i < |reqs| ensures InWord(reqs[i].size, EffectiveAlign(reqs[i].alignment)) {
      RoundedBounds(reqs, c, i);
    }
  }

  lemma {:induction false} RoundedBounds(reqs: seq<Request>, c: nat, i: nat)
    requires c > 0 && i < |reqs|
    ensures reqs[i].size <= Rounded(reqs, c)
    decreases |reqs|
  {
    AlignUpProps(reqs[0].size, c);
    if i > 0 {
      assert reqs[1..][i - 1] == reqs[i];
      RoundedBounds(reqs[1..], c, i - 1);
    }
  }
}
