/** The steps of the allocator on the whole heap: each keeps its invariants, and between two
    fresh reservations all sections come from the memory that was free after the first. */
module HeapSteps {
  import opened Alignment
  import opened MemoryModel
  import opened HeapModel
  import opened Isolation
  import opened Reservation

  const EMPTY_HEAP: Heap := Heap([Group([], [], [], []), Group([], [], [], []), Group([], [], [], [])], [])

  lemma EmptyHeap(p: nat, perms: PagePerms)
    requires PowerOfTwo(p)
    ensures p > 0 && HeapOk(p, EMPTY_HEAP)
    ensures forall k :: 0 <= k < 3 ==> Isolated(p, EMPTY_HEAP.groups[k], perms, FinalPerm(k))
  {
    PowersDivide(1, p);
    EmptyHeapOk(p);
    forall k | 0 <= k < 3 ensures Isolated(p, EMPTY_HEAP.groups[k], perms, FinalPerm(k)) {
      assert EMPTY_HEAP.groups[k] == Group([], [], [], []);
    }
  }

  lemma EmptyHeapOk(p: nat)
    requires p > 0
    ensures HeapOk(p, EMPTY_HEAP)
  {
    var none := Group([], [], [], []);
    assert GroupOk(p, none) && GroupMapped(none, []) && RegionsApart(none, none);
    assert forall k :: 0 <= k < 3 ==> EMPTY_HEAP.groups[k] == none;
    assert MappedOk(p, []);
  }

  /** The heap without any free memory: what a failed mapping leaves. */
  function Dropped(h: Heap): Heap
    requires |h.groups| == 3
  {
    Heap(h.groups[0 := h.groups[0].(free := [])]
                 [1 := h.groups[1].(free := [])]
                 [2 := h.groups[2].(free := [])], h.mapped)
  }

  lemma DroppedFree(p: nat, h: Heap, perms: PagePerms)
    requires p > 0 && HeapOk(p, h)
    ensures HeapOk(p, Dropped(h)) && Stays(p, h, perms, Dropped(h), perms)
  {
    DropOne(p, h, 0);
    var h1 := Heap(h.groups[0 := h.groups[0].(free := [])], h.mapped);
    DropOne(p, h1, 1);
    var h2 := Heap(h1.groups[1 := h1.groups[1].(free := [])], h.mapped);
    DropOne(p, h2, 2);
    if HeapGuarded(p, h, perms) {
      forall k | 0 <= k < 3
        ensures Guarded(p, Dropped(h).groups[k], perms, FinalPerm(k))
        ensures KeepsIsolation(p, h, perms, Dropped(h), perms, k)
      {
        assert Dropped(h).groups[k] == h.groups[k].(free := []);
        DroppedStays(p, h.groups[k], perms, FinalPerm(k));
      }
    }
  }

  lemma DropOne(p: nat, h: Heap, k: nat)
    requires p > 0 && HeapOk(p, h) && k < 3
    ensures HeapOk(p, Heap(h.groups[k := h.groups[k].(free := [])], h.mapped))
  {
    DroppedGroup(p, h.groups[k]);
    HeapStep(p, h, k, h.groups[k].(free := []));
  }

  /** Handing out a section keeps the heap and what guards it. */
  lemma AllocateKeeps(p: nat, h: Heap, k: nat, size: nat, align: nat, perms: PagePerms)
    requires p > 0 && HeapOk(p, h) && k < 3 && align > 0
    ensures GroupOk(p, h.groups[k])
    ensures var g := h.groups[k];
            g.free != [] && Fits(g.free[0].free, size, align) ==>
              && Inside(Carve(g.free[0].free, size, align), g.free[0].free)
              && Carve(g.free[0].free, size, align).base % align == 0
              && HeapOk(p, Heap(h.groups[k := Carved(g, 0, size, align)], h.mapped))
              && Stays(p, h, perms, Heap(h.groups[k := Carved(g, 0, size, align)], h.mapped), perms)
  {
    var g := h.groups[k];
    if g.free != [] && Fits(g.free[0].free, size, align) {
      var g' := Carved(g, 0, size, align);
      CarveFits(g.free[0].free, size, align);
      CarvedKeeps(p, g, size, align);
      HeapStep(p, h, k, g');
      if Guarded(p, g, perms, FinalPerm(k)) {
        CarvedStays(p, g, size, align, perms, FinalPerm(k));
      }
      OneStays(p, h, k, g', perms);
    }
  }

  lemma OneStays(p: nat, h: Heap, k: nat, g: Group, perms: PagePerms)
    requires p > 0 && |h.groups| == 3 && k < 3
    requires Guarded(p, h.groups[k], perms, FinalPerm(k)) ==>
               Guarded(p, g, perms, FinalPerm(k)) && (Writable(p, h.groups[k], perms) ==> Writable(p, g, perms))
    ensures Stays(p, h, perms, Heap(h.groups[k := g], h.mapped), perms)
  {
    var h' := Heap(h.groups[k := g], h.mapped);
    if HeapGuarded(p, h, perms) {
      assert Guarded(p, h.groups[k], perms, FinalPerm(k));
      forall j | 0 <= j < 3
        ensures Guarded(p, h'.groups[j], perms, FinalPerm(j)) && KeepsIsolation(p, h, perms, h', perms, j)
      {
        assert j != k ==> h'.groups[j] == h.groups[j];
        assert Guarded(p, h.groups[j], perms, FinalPerm(j));
      }
    }
  }

  lemma DroppedGroup(p: nat, g: Group)
    requires p > 0 && GroupOk(p, g)
    ensures GroupOk(p, g.(free := []))
  {
    forall i | 0 <= i < |g.live| ensures CoverOk(g.(free := []), g.live[i]) {
      assert CoverOk(g, g.live[i]);
    }
  }

  /** Size of the region that a fresh reservation hands to the groups. */
  function Total(asked: seq<nat>, pages: seq<nat>): nat
    requires |asked| == 3 && |pages| == 3
  {
    (if asked[0] > 0 then pages[0] else 0)
    + (if asked[1] > 0 then pages[1] else 0)
    + (if asked[2] > 0 then pages[2] else 0)
  }

  /** The three parts of a fresh mapping; a group that asks for nothing gets none. */
  function Parts(base: nat, asked: seq<nat>, pages: seq<nat>): (parts: seq<Block>)
    requires |asked| == 3 && |pages| == 3
    ensures |parts| == 3 && forall k :: 0 <= k < 3 ==> Inside(parts[k], Block(base, Total(asked, pages)))
  {
    var b0 := Block(base, if asked[0] > 0 then pages[0] else 0);
    var b1 := Block(b0.End(), if asked[1] > 0 then pages[1] else 0);
    [b0, b1, Block(b1.End(), if asked[2] > 0 then pages[2] else 0)]
  }

  /** The three page-aligned parts of a fresh block keep the heap and what guards it. */
  lemma FreshReservation(p: nat, h: Heap, perms: PagePerms, block: Block, asked: seq<nat>, pages: seq<nat>,
                         parts: seq<Block>)
    requires p > 0 && HeapOk(p, h) && |asked| == 3 && |pages| == 3
    requires PageAligned(p, block) && block.base > 0 && block.End() <= WORD
    requires forall i :: 0 <= i < |h.mapped| ==> Apart(h.mapped[i], block)
    requires forall k :: 0 <= k < 3 ==> pages[k] % p == 0
    requires pages[0] + pages[1] + pages[2] <= block.size
    requires parts == Parts(block.base, asked, pages)
    ensures HeapOk(p, RefilledHeap(h, block, asked, parts))
    ensures Stays(p, h, perms, RefilledHeap(h, block, asked, parts), Protect(p, perms, block, ReadWrite))
  {
    PartsAligned(p, block, asked, pages, parts);
    assert FreshRegions(p, h, block, parts);
    HeapRefill(p, h, block, asked, parts);
    FreshStays(p, h, perms, block, asked, parts);
  }

  lemma FreshStays(p: nat, h: Heap, perms: PagePerms, block: Block, asked: seq<nat>, parts: seq<Block>)
    requires p > 0 && HeapOk(p, h) && |asked| == 3 && FreshRegions(p, h, block, parts)
    ensures Stays(p, h, perms, RefilledHeap(h, block, asked, parts), Protect(p, perms, block, ReadWrite))
  {
    var h', perms' := RefilledHeap(h, block, asked, parts), Protect(p, perms, block, ReadWrite);
    if HeapGuarded(p, h, perms) {
      forall k | 0 <= k < 3
        ensures Guarded(p, h'.groups[k], perms', FinalPerm(k)) && KeepsIsolation(p, h, perms, h', perms', k)
      {
        assert h'.groups[k] == Refilled(h.groups[k], asked[k], parts[k]);
        FreshGroupStays(p, h, perms, block, k, asked[k], parts[k]);
      }
    }
  }

  lemma PartsAligned(p: nat, block: Block, asked: seq<nat>, pages: seq<nat>, parts: seq<Block>)
    requires p > 0 && |asked| == 3 && |pages| == 3 && block.base % p == 0
    requires forall k :: 0 <= k < 3 ==> pages[k] % p == 0
    requires parts == Parts(block.base, asked, pages)
    ensures forall k :: 0 <= k < 3 ==> PageAligned(p, parts[k])
  {
    PartAligned(p, block.base, asked[0], pages[0]);
    PartAligned(p, parts[1].base, asked[1], pages[1]);
    PartAligned(p, parts[2].base, asked[2], pages[2]);
  }

  lemma PartAligned(p: nat, base: nat, asked: nat, pages: nat)
    requires p > 0 && base % p == 0 && pages % p == 0
    ensures PageAligned(p, Block(base, if asked > 0 then pages else 0))
  {
    if asked > 0 {
      SumMod(base, pages, p);
    }
  }

  lemma FreshGroupStays(p: nat, h: Heap, perms: PagePerms, block: Block, k: nat, asked: nat, part: Block)
    requires p > 0 && HeapOk(p, h) && k < 3 && Guarded(p, h.groups[k], perms, FinalPerm(k))
    requires MappedOk(p, h.mapped + [block]) && PageAligned(p, part) && Inside(part, block)
    ensures var g, perms' := Refilled(h.groups[k], asked, part), Protect(p, perms, block, ReadWrite);
            Guarded(p, g, perms', FinalPerm(k)) && (Writable(p, h.groups[k], perms) ==> Writable(p, g, perms'))
  {
    var g := h.groups[k];
    var perms' := Protect(p, perms, block, ReadWrite);
    var one := [block];
    assert (h.mapped + one)[|h.mapped|] == block && one[0] == block;
    forall i, j | 0 <= i < |g.regions| && 0 <= j < |one| ensures Apart(g.regions[i], one[j]) {
      OldApart(p, h, block, k, i, block);
    }
    assert InSome(block, one) by {
      assert Inside(block, one[0]);
    }
    forall a: nat | !OnPageOfSome(p, a, one) ensures perms'(a) == perms(a) {
      assert !OnPage(p, a, one[0]);
    }
    ForeignChange(p, g, perms, perms', one, one);
    SparedStays(p, g, perms, perms', FinalPerm(k));
    forall i | 0 <= i < |g.regions| ensures Apart(g.regions[i], part) {
      OldApart(p, h, block, k, i, part);
    }
    RefilledStays(p, g, asked, part, perms', FinalPerm(k));
  }

  /** A change of permissions on pages of one group's pending ranges spares the others. */
  lemma OthersSpared(p: nat, h: Heap, k: nat, j: nat, perms: PagePerms, perms': PagePerms)
    requires p > 0 && HeapOk(p, h) && k < 3 && j < 3 && j != k
    requires forall a: nat :: IsPage(p, a) && !PendingPage(p, h.groups[k], a) ==> perms'(a) == perms(a)
    ensures Spares(p, h.groups[j], perms, perms')
  {
    assert RegionsApart(h.groups[j], h.groups[k]);
    ForeignChange(p, h.groups[j], perms, perms', h.groups[k].regions, h.groups[k].pending);
  }

  /** Applying the permissions of one group keeps the heap, guards all groups, and isolates that
      one even if earlier attempts have failed. */
  lemma ApplyKeeps(p: nat, h: Heap, k: nat, perms: PagePerms)
    requires p > 0 && HeapOk(p, h) && k < 3
    ensures HeapOk(p, Heap(h.groups[k := Applied(p, h.groups[k])], h.mapped))
    ensures var h' := Heap(h.groups[k := Applied(p, h.groups[k])], h.mapped);
            var perms' := ProtectAll(p, perms, h.groups[k].pending, FinalPerm(k));
            && Stays(p, h, perms, h', perms')
            && (HeapGuarded(p, h, perms) ==> Isolated(p, h'.groups[k], perms', FinalPerm(k)))
            && (HeapGuarded(p, h, perms) ==>
                  forall j :: 0 <= j < 3 && j != k ==> KeepsIsolation(p, h, perms, h', perms', j))
  {
    var g := h.groups[k];
    var h' := Heap(h.groups[k := Applied(p, g)], h.mapped);
    var perms' := ProtectAll(p, perms, g.pending, FinalPerm(k));
    if g.free != [] {
      FreeFitsWord(p, h, k);
    }
    AppliedKeeps(p, g);
    TrimmedOne(p, g);
    HeapStep(p, h, k, Applied(p, g));
    forall a: nat | !PendingPage(p, g, a) ensures perms'(a) == perms(a) {
      ProtectAllAt(p, perms, g.pending, FinalPerm(k), a);
    }
    if HeapGuarded(p, h, perms) {
      assert Guarded(p, g, perms, FinalPerm(k));
      AppliedIsolates(p, g, perms, FinalPerm(k));
      OthersStay(p, h, k, h', perms, perms');
      forall j | 0 <= j < 3 ensures KeepsIsolation(p, h, perms, h', perms', j) {
        assert h'.groups[k] == Applied(p, g);
      }
      IsolationKept(p, h, perms, h', perms');
    }
  }

  /** When group `k` is guarded after a change on its own pending pages, so are all groups. */
  lemma OthersStay(p: nat, h: Heap, k: nat, h': Heap, perms: PagePerms, perms': PagePerms)
    requires p > 0 && HeapOk(p, h) && HeapGuarded(p, h, perms) && k < 3 && |h'.groups| == 3
    requires h'.groups == h.groups[k := h'.groups[k]] && Guarded(p, h'.groups[k], perms', FinalPerm(k))
    requires forall a: nat :: IsPage(p, a) && !PendingPage(p, h.groups[k], a) ==> perms'(a) == perms(a)
    ensures HeapGuarded(p, h', perms')
    ensures forall j :: 0 <= j < 3 && j != k ==> KeepsIsolation(p, h, perms, h', perms', j)
  {
    forall j | 0 <= j < 3 && j != k
      ensures Guarded(p, h'.groups[j], perms', FinalPerm(j)) && KeepsIsolation(p, h, perms, h', perms', j)
    {
      assert h'.groups[j] == h.groups[j] && Guarded(p, h.groups[j], perms, FinalPerm(j));
      OthersSpared(p, h, k, j, perms, perms');
      SparedStays(p, h.groups[j], perms, perms', FinalPerm(j));
    }
  }

  /** An attempt that fails keeps all groups guarded, and isolated those it was not made for. */
  lemma FailureKeeps(p: nat, h: Heap, k: nat, perms: PagePerms, perms': PagePerms)
    requires p > 0 && HeapOk(p, h) && k < 3 && HeapGuarded(p, h, perms)
    requires Failed(p, perms, perms', h.groups[k].pending, FinalPerm(k))
    ensures HeapGuarded(p, h, perms')
    ensures forall j :: 0 <= j < 3 && j != k ==> KeepsIsolation(p, h, perms, h, perms', j)
  {
    assert Guarded(p, h.groups[k], perms, FinalPerm(k));
    FailureKeepsGuarded(p, h.groups[k], perms, perms', FinalPerm(k));
    forall a: nat | !PendingPage(p, h.groups[k], a) ensures perms'(a) == perms(a) {
      FailedIsConfined(p, perms, perms', h.groups[k].pending, FinalPerm(k), a);
    }
    OthersStay(p, h, k, h, perms, perms');
  }

  // ----- reservations that reuse free memory

  /** In every state free memory that passes the size check serves every announced sequence
      of requests, for alignments up to a page. */
  lemma ReusedServes(p: nat, h: Heap, k: nat, align: nat, size: nat, reqs: seq<Request>)
    requires PowerOfTwo(p) && STUB_ALIGN <= p && HeapOk(p, h) && k < 3 && h.groups[k].free != []
    requires PowerOfTwo(align) && 0 < align <= p && h.groups[k].free[0].free.size >= RequiredSize(size, align)
    requires Announced(reqs, Max(align, STUB_ALIGN), size)
    ensures AllServed(h.groups[k].free[0].free, reqs)
  {
    var g := h.groups[k];
    assert PageAligned(p, g.regions[|g.regions| - 1]);
    ReuseServesAll(g.free[0].free, p, align, size, reqs);
  }

  // ----- runs between two fresh reservations

  /** What can change the heap: a section handed out, the permissions of a group applied, or
      a mapping that failed. */
  datatype Event = Carving(k: nat, size: nat, align: nat) | Finalizing(k: nat) | Failing

  ghost predicate Step(p: nat, h: Heap, e: Event, h': Heap)
    requires p > 0 && HeapOk(p, h)
  {
    match e
    case Carving(k, size, align) =>
      && k < 3 && align > 0 && GroupOk(p, h.groups[k])
      && h.groups[k].free != [] && Fits(h.groups[k].free[0].free, size, align)
      && h' == Heap(h.groups[k := Carved(h.groups[k], 0, size, align)], h.mapped)
    case Finalizing(k) => k < 3 && h' == Heap(h.groups[k := Applied(p, h.groups[k])], h.mapped)
    case Failing => h' == Dropped(h)
  }

  ghost predicate Run(p: nat, hs: seq<Heap>, es: seq<Event>)
    requires p > 0
  {
    |hs| == |es| + 1 && forall i :: 0 <= i < |es| ==> HeapOk(p, hs[i]) && Step(p, hs[i], es[i], hs[i + 1])
  }

  ghost predicate FromFree(g: Group, b: Block) {
    g.free != [] && Inside(b, g.free[0].free)
  }

  /** No section disappears or moves, and new sections and free memory come from old free
      memory. */
  ghost predicate Within(g: Group, g': Group) {
    && |g.live| <= |g'.live|
    && (forall i :: 0 <= i < |g.live| ==> g'.live[i].block == g.live[i].block)
    && (forall i :: |g.live| <= i < |g'.live| ==> FromFree(g, g'.live[i].block))
    && (g'.free != [] ==> FromFree(g, g'.free[0].free))
  }

  ghost predicate AllWithin(h: Heap, h': Heap) {
    |h.groups| == 3 && |h'.groups| == 3 && forall k :: 0 <= k < 3 ==> Within(h.groups[k], h'.groups[k])
  }

  lemma StepKeeps(p: nat, h: Heap, e: Event, h': Heap)
    requires p > 0 && HeapOk(p, h) && Step(p, h, e, h')
    ensures HeapOk(p, h') && AllWithin(h, h') && h'.mapped == h.mapped
  {
    match e
    case Carving(k, size, align) =>
      AllocateKeeps(p, h, k, size, align, (a: nat) => ReadWrite);
      CarvedWithin(h.groups[k], size, align);
      OneWithin(h, k, Carved(h.groups[k], 0, size, align));
    case Finalizing(k) =>
      ApplyKeeps(p, h, k, (a: nat) => ReadWrite);
      AppliedWithin(p, h, k);
      OneWithin(h, k, Applied(p, h.groups[k]));
    case Failing =>
      DroppedFree(p, h, (a: nat) => ReadWrite);
      DroppedWithin(h);
  }

  lemma OneWithin(h: Heap, k: nat, g: Group)
    requires |h.groups| == 3 && k < 3 && Within(h.groups[k], g)
    ensures AllWithin(h, Heap(h.groups[k := g], h.mapped))
  {
  }

  lemma DroppedWithin(h: Heap)
    requires |h.groups| == 3
    ensures AllWithin(h, Dropped(h))
  {
  }

  lemma CarvedWithin(g: Group, size: nat, align: nat)
    requires align > 0 && |g.free| == 1 && PendingOk(g) && Fits(g.free[0].free, size, align)
    ensures Within(g, Carved(g, 0, size, align))
  {
    CarveFits(g.free[0].free, size, align);
  }

  lemma AppliedWithin(p: nat, h: Heap, k: nat)
    requires p > 0 && HeapOk(p, h) && k < 3
    ensures Within(h.groups[k], Applied(p, h.groups[k]))
  {
    if h.groups[k].free != [] {
      FreeFitsWord(p, h, k);
    }
    TrimmedOne(p, h.groups[k]);
  }

  lemma WithinTrans(h: Heap, h': Heap, h'': Heap)
    requires AllWithin(h, h') && AllWithin(h', h'')
    ensures AllWithin(h, h'')
  {
    forall k | 0 <= k < 3 ensures Within(h.groups[k], h''.groups[k]) {
      GroupWithinTrans(h.groups[k], h'.groups[k], h''.groups[k]);
    }
  }

  lemma GroupWithinTrans(g: Group, g': Group, g'': Group)
    requires Within(g, g') && Within(g', g'')
    ensures Within(g, g'')
  {
    forall i | 0 <= i < |g.live| ensures g''.live[i].block == g.live[i].block {
      assert g'.live[i].block == g.live[i].block && g''.live[i].block == g'.live[i].block;
    }
    forall i | |g.live| <= i < |g''.live| ensures FromFree(g, g''.live[i].block) {
      if i < |g'.live| {
        assert FromFree(g, g'.live[i].block) && g''.live[i].block == g'.live[i].block;
      } else {
        assert FromFree(g', g''.live[i].block);
      }
    }
  }

  /** Until the next fresh reservation the invariant holds in every state, and every new
      section of every group lies in the memory that was free at the start. */
  lemma {:induction false} RunStaysWithin(p: nat, hs: seq<Heap>, es: seq<Event>)
    requires p > 0 && Run(p, hs, es) && HeapOk(p, hs[0])
    ensures HeapOk(p, hs[|es|]) && AllWithin(hs[0], hs[|es|]) && hs[|es|].mapped == hs[0].mapped
    decreases |es|
  {
    if es != [] {
      var n := |es| - 1;
      var hs', es' := hs[..n + 1], es[..n];
      assert Run(p, hs', es');
      RunStaysWithin(p, hs', es');
      StepKeeps(p, hs[n], es[n], hs[n + 1]);
      WithinTrans(hs[0], hs[n], hs[n + 1]);
    }
  }

  /** All sections handed out between two fresh reservations lie in one region of exactly the
      size that the first of them computed. */
  lemma SectionsOfOneReservation(p: nat, before: Heap, block: Block, asked: seq<nat>, pages: seq<nat>,
                                 hs: seq<Heap>, es: seq<Event>, k: nat, i: nat)
    requires p > 0 && |before.groups| == 3 && |asked| == 3 && |pages| == 3 && k < 3
    requires Run(p, hs, es) && HeapOk(p, hs[0])
    requires hs[0] == RefilledHeap(before, block, asked, Parts(block.base, asked, pages))
    requires |hs[|es|].groups| == 3 && |before.groups[k].live| <= i < |hs[|es|].groups[k].live|
    ensures Inside(hs[|es|].groups[k].live[i].block, Block(block.base, Total(asked, pages)))
  {
    RunStaysWithin(p, hs, es);
    var parts := Parts(block.base, asked, pages);
    assert Within(hs[0].groups[k], hs[|es|].groups[k]);
    assert hs[0].groups[k] == Refilled(before.groups[k], asked[k], parts[k]);
    assert Inside(parts[k], Block(block.base, Total(asked, pages)));
  }
}
