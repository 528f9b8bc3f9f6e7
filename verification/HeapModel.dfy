/** The three groups together with the mapped blocks: what holds between groups. */
module HeapModel {
  import opened Alignment
  import opened MemoryModel

  /** Groups in the order Code, ROData, RWData. */
  datatype Heap = Heap(groups: seq<Group>, mapped: seq<Block>)

  ghost predicate MappedOk(p: nat, mapped: seq<Block>)
    requires p > 0
  {
    && PairwiseApart(mapped)
    && forall i :: 0 <= i < |mapped| ==> PageAligned(p, mapped[i]) && mapped[i].base > 0 && mapped[i].End() <= WORD
  }

  /** A group's regions are mapped, and its free memory lies in the latest mapping. */
  ghost predicate GroupMapped(g: Group, mapped: seq<Block>) {
    && (forall i :: 0 <= i < |g.regions| ==> InSome(g.regions[i], mapped))
    && (g.free != [] ==> g.regions != [] && mapped != [] && Inside(LastRegion(g), mapped[|mapped| - 1]))
  }

  ghost predicate RegionsApart(g: Group, h: Group) {
    forall i, j :: 0 <= i < |g.regions| && 0 <= j < |h.regions| ==> Apart(g.regions[i], h.regions[j])
  }

  ghost predicate HeapOk(p: nat, h: Heap)
    requires p > 0
  {
    && |h.groups| == 3 && MappedOk(p, h.mapped)
    && (forall k :: 0 <= k < 3 ==> GroupOk(p, h.groups[k]) && GroupMapped(h.groups[k], h.mapped))
    && (forall j, k :: 0 <= j < 3 && 0 <= k < 3 && j != k ==> RegionsApart(h.groups[j], h.groups[k]))
  }

  /** In every state all live sections of all groups are disjoint. */
  lemma SectionsApart(p: nat, h: Heap, j: nat, a: nat, k: nat, b: nat)
    requires p > 0 && HeapOk(p, h) && j < 3 && k < 3
    requires a < |h.groups[j].live| && b < |h.groups[k].live| && (j, a) != (k, b)
    ensures Apart(h.groups[j].live[a].block, h.groups[k].live[b].block)
  {
    var g, g' := h.groups[j], h.groups[k];
    if j == k {
      assert if a < b then Apart(g.live[a].block, g.live[b].block) else Apart(g.live[b].block, g.live[a].block);
    } else {
      assert InSome(g.live[a].block, g.regions) && InSome(g'.live[b].block, g'.regions);
      var x :| 0 <= x < |g.regions| && Inside(g.live[a].block, g.regions[x]);
      var y :| 0 <= y < |g'.regions| && Inside(g'.live[b].block, g'.regions[y]);
      assert RegionsApart(g, g');
      assert Apart(g.regions[x], g'.regions[y]);
    }
  }

  lemma FreeFitsWord(p: nat, h: Heap, k: nat)
    requires p > 0 && HeapOk(p, h) && k < 3 && h.groups[k].free != []
    ensures h.groups[k].free[0].free.size < WORD && h.groups[k].free[0].free.End() <= WORD
    ensures Inside(h.groups[k].free[0].free, h.mapped[|h.mapped| - 1])
  {
    assert GroupMapped(h.groups[k], h.mapped);
  }

  /** Replacing one group by one with the same regions keeps the heap invariant. */
  lemma HeapStep(p: nat, h: Heap, k: nat, g: Group)
    requires p > 0 && HeapOk(p, h) && k < 3 && GroupOk(p, g)
    requires g.regions == h.groups[k].regions && (g.free != [] ==> h.groups[k].free != [])
    ensures HeapOk(p, Heap(h.groups[k := g], h.mapped))
  {
    var gs := h.groups[k := g];
    forall j, i | 0 <= j < 3 && 0 <= i < 3 && j != i ensures RegionsApart(gs[j], gs[i]) {
      assert RegionsApart(h.groups[j], h.groups[i]);
    }
    assert GroupMapped(h.groups[k], h.mapped);
  }

  // ----- a fresh mapping

  ghost predicate FreshRegions(p: nat, h: Heap, block: Block, regions: seq<Block>)
    requires p > 0
  {
    && |regions| == 3 && MappedOk(p, h.mapped + [block]) && PairwiseApart(regions)
    && forall k :: 0 <= k < 3 ==> PageAligned(p, regions[k]) && Inside(regions[k], block)
  }

  function RefilledHeap(h: Heap, block: Block, asked: seq<nat>, regions: seq<Block>): Heap
    requires |h.groups| == 3 && |asked| == 3 && |regions| == 3
  {
    Heap([Refilled(h.groups[0], asked[0], regions[0]),
          Refilled(h.groups[1], asked[1], regions[1]),
          Refilled(h.groups[2], asked[2], regions[2])], h.mapped + [block])
  }

  lemma OldApart(p: nat, h: Heap, block: Block, k: nat, i: nat, r: Block)
    requires p > 0 && HeapOk(p, h) && k < 3 && i < |h.groups[k].regions|
    requires MappedOk(p, h.mapped + [block]) && Inside(r, block)
    ensures Apart(h.groups[k].regions[i], r)
  {
    assert GroupMapped(h.groups[k], h.mapped);
    assert InSome(h.groups[k].regions[i], h.mapped);
    var m :| 0 <= m < |h.mapped| && Inside(h.groups[k].regions[i], h.mapped[m]);
    var all := h.mapped + [block];
    assert Apart(all[m], all[|h.mapped|]);
  }

  lemma RefilledMapped(g: Group, asked: nat, r: Block, mapped: seq<Block>, block: Block)
    requires GroupMapped(g, mapped) && Inside(r, block)
    ensures GroupMapped(Refilled(g, asked, r), mapped + [block])
  {
    var h, all := Refilled(g, asked, r), mapped + [block];
    forall i | 0 <= i < |h.regions| ensures InSome(h.regions[i], all) {
      if i < |g.regions| {
        var m :| 0 <= m < |mapped| && Inside(g.regions[i], mapped[m]);
        assert Inside(h.regions[i], all[m]);
      } else {
        assert Inside(h.regions[i], all[|mapped|]);
      }
    }
  }

  /** After a fresh reservation the invariant holds again. */
  lemma HeapRefill(p: nat, h: Heap, block: Block, asked: seq<nat>, regions: seq<Block>)
    requires p > 0 && HeapOk(p, h) && |asked| == 3 && FreshRegions(p, h, block, regions)
    ensures HeapOk(p, RefilledHeap(h, block, asked, regions))
  {
    var h' := RefilledHeap(h, block, asked, regions);
    forall k | 0 <= k < 3 ensures GroupOk(p, h'.groups[k]) && GroupMapped(h'.groups[k], h'.mapped) {
      RefilledGroup(p, h, block, asked, regions, k);
    }
    forall j, k | 0 <= j < 3 && 0 <= k < 3 && j != k ensures RegionsApart(h'.groups[j], h'.groups[k]) {
      RefilledApart(p, h, block, asked, regions, j, k);
    }
  }

  lemma RefilledGroup(p: nat, h: Heap, block: Block, asked: seq<nat>, regions: seq<Block>, k: nat)
    requires p > 0 && HeapOk(p, h) && |asked| == 3 && FreshRegions(p, h, block, regions) && k < 3
    ensures GroupOk(p, RefilledHeap(h, block, asked, regions).groups[k])
    ensures GroupMapped(RefilledHeap(h, block, asked, regions).groups[k], h.mapped + [block])
  {
    forall i | 0 <= i < |h.groups[k].regions| ensures Apart(h.groups[k].regions[i], regions[k]) {
      OldApart(p, h, block, k, i, regions[k]);
    }
    RefilledKeeps(p, h.groups[k], asked[k], regions[k]);
    RefilledMapped(h.groups[k], asked[k], regions[k], h.mapped, block);
  }

  lemma RefilledApart(p: nat, h: Heap, block: Block, asked: seq<nat>, regions: seq<Block>, j: nat, k: nat)
    requires p > 0 && HeapOk(p, h) && |asked| == 3 && FreshRegions(p, h, block, regions)
    requires j < 3 && k < 3 && j != k
    ensures RegionsApart(Refilled(h.groups[j], asked[j], regions[j]), Refilled(h.groups[k], asked[k], regions[k]))
  {
    var g, g' := Refilled(h.groups[j], asked[j], regions[j]), Refilled(h.groups[k], asked[k], regions[k]);
    forall a, b | 0 <= a < |g.regions| && 0 <= b < |g'.regions| ensures Apart(g.regions[a], g'.regions[b]) {
      if a < |h.groups[j].regions| && b < |h.groups[k].regions| {
        assert RegionsApart(h.groups[j], h.groups[k]);
      } else if a < |h.groups[j].regions| {
        OldApart(p, h, block, j, a, regions[k]);
      } else if b < |h.groups[k].regions| {
        OldApart(p, h, block, k, b, regions[j]);
      } else {
        assert if j < k then Apart(regions[j], regions[k]) else Apart(regions[k], regions[j]);
      }
    }
  }

  /** In every state the free memory of a group reaches its next page boundary, so trimming it
      never wraps. */
  lemma TrimNeverWraps(p: nat, h: Heap, k: nat)
    requires p > 0 && p < WORD && HeapOk(p, h) && k < 3 && h.groups[k].free != []
    ensures var f := h.groups[k].free[0].free;
            && Inside(TrimBlockToPageSize(p, f), f) && PageAligned(p, TrimBlockToPageSize(p, f))
            && TrimBlockToPageSize(p, f).End() == f.End()
  {
    var g := h.groups[k];
    FreeFitsWord(p, h, k);
    assert PageAligned(p, g.regions[|g.regions| - 1]);
    TrimAlignedEnd(p, g.free[0].free);
    AlignUpProps(g.free[0].free.base, p);
  }
}
