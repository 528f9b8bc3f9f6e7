/** The state of the JIT memory manager as values: memory blocks, the three groups, and the
    invariants that relate free, pending and handed-out memory. */
module MemoryModel {
  import opened Alignment

  datatype Block = Block(base: nat, size: nat) {
    function End(): nat { base + size }
  }

  /** Index of the pending range right before a free block; the source uses (unsigned)-1 for none. */
  datatype Prefix = NoPrefix | At(index: nat)

  datatype FreeMemBlock = FreeMemBlock(free: Block, pendingPrefix: Prefix)

  /** A section handed out to the client, and whether its permissions have been applied. */
  datatype Section = Section(block: Block, align: nat, final: bool)

  datatype Perm = ReadWrite | ReadExec | ReadOnly

  /** One memory group.  `live` and `regions` are a log kept for the proofs: the sections
      handed out, and the page-aligned parts of mappings given to this group. */
  datatype Group = Group(pending: seq<Block>, free: seq<FreeMemBlock>, live: seq<Section>, regions: seq<Block>)

  predicate Inside(a: Block, b: Block) { b.base <= a.base && a.End() <= b.End() }

  /** The blocks have no byte in common. */
  predicate Apart(a: Block, b: Block) {
    a.size == 0 || b.size == 0 || a.End() <= b.base || b.End() <= a.base
  }

  predicate PageAligned(p: nat, b: Block)
    requires p > 0
  {
    b.base % p == 0 && b.End() % p == 0
  }

  ghost predicate PairwiseApart(bs: seq<Block>) {
    forall i, j :: 0 <= i < j < |bs| ==> Apart(bs[i], bs[j])
  }

  ghost predicate InSome(b: Block, bs: seq<Block>) {
    exists i :: 0 <= i < |bs| && Inside(b, bs[i])
  }

  // ----- invariants of one group

  ghost predicate RegionsOk(p: nat, g: Group)
    requires p > 0
  {
    (forall i :: 0 <= i < |g.regions| ==> PageAligned(p, g.regions[i])) && PairwiseApart(g.regions)
  }

  function LastRegion(g: Group): Block
    requires g.regions != []
  {
    g.regions[|g.regions| - 1]
  }

  /** A group has at most one free block, the tail of its latest region. */
  ghost predicate FreeOk(g: Group) {
    && |g.free| <= 1
    && (g.free != [] ==>
          g.regions != [] && Inside(g.free[0].free, LastRegion(g)) && g.free[0].free.End() == LastRegion(g).End())
  }

  /** Sections are aligned as requested, inside the group's regions, and disjoint from one
      another and from free memory. */
  ghost predicate LiveOk(g: Group) {
    && (forall i :: 0 <= i < |g.live| ==>
          var s := g.live[i];
          s.align > 0 && s.block.base % s.align == 0 && InSome(s.block, g.regions)
          && (g.free != [] ==> Apart(s.block, g.free[0].free)))
    && (forall i, j :: 0 <= i < j < |g.live| ==> Apart(g.live[i].block, g.live[j].block))
  }

  /** Pending ranges are disjoint from one another, from free memory and from finalized
      sections, and cover every section that is not finalized; a free block with a prefix
      index starts where that range ends. */
  ghost predicate PendingOk(g: Group) {
    && PairwiseApart(g.pending)
    && (forall i :: 0 <= i < |g.pending| ==>
          InSome(g.pending[i], g.regions) && (g.free != [] ==> Apart(g.pending[i], g.free[0].free)))
    && (forall i :: 0 <= i < |g.live| ==> CoverOk(g, g.live[i]))
    && (g.free != [] && g.free[0].pendingPrefix.At? ==>
          var k := g.free[0].pendingPrefix.index;
          k < |g.pending| && g.pending[k].End() == g.free[0].free.base
          && g.regions != [] && Inside(g.pending[k], LastRegion(g)))
  }

  ghost predicate CoverOk(g: Group, s: Section) {
    if s.final then forall i :: 0 <= i < |g.pending| ==> Apart(s.block, g.pending[i])
    else InSome(s.block, g.pending)
  }

  ghost predicate GroupOk(p: nat, g: Group)
    requires p > 0
  {
    RegionsOk(p, g) && FreeOk(g) && LiveOk(g) && PendingOk(g)
  }

  lemma NotApart(a: Block, b: Block, s: Block)
    requires Inside(s, a) && Inside(s, b) && s.size > 0
    ensures !Apart(a, b) && !Apart(b, a)
  {
  }

  /** A section that is not finalized and not empty lies in exactly one pending range. */
  lemma CoveredOnce(p: nat, g: Group, s: Section)
    requires p > 0 && GroupOk(p, g) && s in g.live && !s.final && s.block.size > 0
    ensures exists i :: 0 <= i < |g.pending| && Inside(s.block, g.pending[i])
                        && forall j :: 0 <= j < |g.pending| && Inside(s.block, g.pending[j]) ==> j == i
  {
    var k :| 0 <= k < |g.live| && g.live[k] == s;
    assert CoverOk(g, s);
    var i :| 0 <= i < |g.pending| && Inside(s.block, g.pending[i]);
    forall j | 0 <= j < |g.pending| && Inside(s.block, g.pending[j]) ensures j == i {
      NotApart(g.pending[i], g.pending[j], s.block);
    }
  }

  // ----- handing out a section

  /** The section carved from the front of a free block, and what is left of the block. */
  function Carve(b: Block, size: nat, align: nat): Block
    requires align > 0
  {
    Block(AlignUp(b.base, align), size)
  }

  predicate Fits(b: Block, size: nat, align: nat)
    requires align > 0
  {
    AlignUp(size, align) + align <= b.size
  }

  function Rest(b: Block, size: nat, align: nat): Block
    requires align > 0 && Fits(b, size, align)
  {
    CarveFits(b, size, align);
    Block(Carve(b, size, align).End(), b.End() - Carve(b, size, align).End())
  }

  lemma CarveFits(b: Block, size: nat, align: nat)
    requires align > 0 && Fits(b, size, align)
    ensures Inside(Carve(b, size, align), b) && Carve(b, size, align).base % align == 0
    ensures Carve(b, size, align).End() < b.End()
  {
    AlignUpProps(b.base, align);
    AlignUpProps(size, align);
  }

  /** The group after a section has been carved from its `i`-th free block. */
  function Carved(g: Group, i: nat, size: nat, align: nat): Group
    requires align > 0 && i < |g.free| && Fits(g.free[i].free, size, align)
    requires g.free[i].pendingPrefix.At? ==>
               g.free[i].pendingPrefix.index < |g.pending|
               && g.pending[g.free[i].pendingPrefix.index].base <= g.free[i].free.base
  {
    var fb := g.free[i];
    CarveFits(fb.free, size, align);
    var section := Carve(fb.free, size, align);
    var rest := Rest(fb.free, size, align);
    var live := g.live + [Section(section, align, false)];
    match fb.pendingPrefix
    case NoPrefix =>
      Group(g.pending + [section], g.free[i := FreeMemBlock(rest, At(|g.pending|))], live, g.regions)
    case At(k) =>
      var grown := Block(g.pending[k].base, section.End() - g.pending[k].base);
      Group(g.pending[k := grown], g.free[i := FreeMemBlock(rest, At(k))], live, g.regions)
  }

  lemma CarvedKeepsFree(g: Group, size: nat, align: nat)
    requires align > 0 && |g.free| == 1 && FreeOk(g) && PendingOk(g) && Fits(g.free[0].free, size, align)
    ensures var h := Carved(g, 0, size, align);
            FreeOk(h) && Inside(h.free[0].free, g.free[0].free)
  {
    CarveFits(g.free[0].free, size, align);
  }

  lemma CarvedKeepsLive(g: Group, size: nat, align: nat)
    requires align > 0 && |g.free| == 1 && FreeOk(g) && PendingOk(g) && LiveOk(g) && Fits(g.free[0].free, size, align)
    ensures LiveOk(Carved(g, 0, size, align))
  {
    var h := Carved(g, 0, size, align);
    var f := g.free[0].free;
    var section := Carve(f, size, align);
    CarveFits(f, size, align);
    assert InSome(section, g.regions) by {
      assert Inside(section, g.regions[|g.regions| - 1]);
    }
    forall i | 0 <= i < |g.live|
      ensures Apart(g.live[i].block, section) && Apart(g.live[i].block, h.free[0].free)
    {
      assert Apart(g.live[i].block, f);
    }
  }

  lemma CarvedKeepsPending(g: Group, size: nat, align: nat)
    requires align > 0 && |g.free| == 1 && FreeOk(g) && PendingOk(g) && LiveOk(g) && Fits(g.free[0].free, size, align)
    ensures PendingOk(Carved(g, 0, size, align))
  {
    var h := Carved(g, 0, size, align);
    var f := g.free[0].free;
    var section := Carve(f, size, align);
    CarveFits(f, size, align);
    var k := if g.free[0].pendingPrefix.At? then g.free[0].pendingPrefix.index else |g.pending|;
    assert Inside(h.pending[k], LastRegion(g));
    assert InSome(h.pending[k], g.regions) by {
      assert Inside(h.pending[k], g.regions[|g.regions| - 1]);
    }
    forall i | 0 <= i < |g.pending| && i != k
      ensures h.pending[i] == g.pending[i] && Apart(g.pending[i], h.pending[k]) && Apart(g.pending[i], h.free[0].free)
    {
      assert Apart(g.pending[i], f);
      if k < |g.pending| {
        assert if i < k then Apart(g.pending[i], g.pending[k]) else Apart(g.pending[k], g.pending[i]);
      }
    }
    forall i | 0 <= i < |h.live| ensures CoverOk(h, h.live[i]) {
      CarvedCovers(g, size, align, i);
    }
  }

  lemma CarvedCovers(g: Group, size: nat, align: nat, i: nat)
    requires align > 0 && |g.free| == 1 && FreeOk(g) && PendingOk(g) && LiveOk(g) && Fits(g.free[0].free, size, align)
    requires i <= |g.live|
    ensures CoverOk(Carved(g, 0, size, align), Carved(g, 0, size, align).live[i])
  {
    var h := Carved(g, 0, size, align);
    var f := g.free[0].free;
    CarveFits(f, size, align);
    var k := if g.free[0].pendingPrefix.At? then g.free[0].pendingPrefix.index else |g.pending|;
    var s := h.live[i];
    if i == |g.live| {
      assert Inside(s.block, h.pending[k]);
    } else {
      assert s == g.live[i] && CoverOk(g, s) && Apart(s.block, f);
      if s.final {
        forall j | 0 <= j < |h.pending| ensures Apart(s.block, h.pending[j]) {
          assert j < |g.pending| ==> Apart(s.block, g.pending[j]);
        }
      } else {
        var j :| 0 <= j < |g.pending| && Inside(s.block, g.pending[j]);
        assert Inside(s.block, h.pending[j]);
      }
    }
  }

  /** Handing out a section keeps every invariant of the group. */
  lemma CarvedKeeps(p: nat, g: Group, size: nat, align: nat)
    requires p > 0 && GroupOk(p, g) && align > 0 && |g.free| == 1 && Fits(g.free[0].free, size, align)
    ensures GroupOk(p, Carved(g, 0, size, align))
  {
    CarvedKeepsFree(g, size, align);
    CarvedKeepsLive(g, size, align);
    CarvedKeepsPending(g, size, align);
  }

  // ----- trimming

  /** The whole pages of a block, computed on words: both subtractions may wrap. */
  function TrimBlockToPageSize(p: nat, m: Block): Block
    requires p > 0
  {
    var overlap := (p - m.base % p) % p;
    var trimmed := Wrap(m.size - overlap);
    Block(m.base + overlap, trimmed - trimmed % p)
  }

  lemma OverlapIsGap(p: nat, x: nat)
    requires p > 0
    ensures x + (p - x % p) % p == AlignUp(x, p)
  {
    if x % p == 0 {
      MultipleMod(1, p);
      assert 1 * p == p;
    } else {
      DivUnique(p - x % p, p, 0, p - x % p);
    }
  }

  /** The result is the largest run of whole pages exactly when the block reaches its first
      page boundary; otherwise the subtraction wraps. */
  lemma TrimExact(p: nat, m: Block)
    requires p > 0 && m.size < WORD && p < WORD
    ensures Inside(TrimBlockToPageSize(p, m), m) && PageAligned(p, TrimBlockToPageSize(p, m))
            <==> AlignUp(m.base, p) <= m.End()
    ensures AlignUp(m.base, p) <= m.End() ==>
              forall b: Block :: PageAligned(p, b) && Inside(b, m) ==>
                Inside(b, TrimBlockToPageSize(p, m)) || b.size == 0
  {
    var start := AlignUp(m.base, p);
    OverlapIsGap(p, m.base);
    AlignUpProps(m.base, p);
    var t := TrimBlockToPageSize(p, m);
    assert t.base == start;
    if start <= m.End() {
      WrapBelow(m.End() - start);
      var n := m.End() - start;
      assert t.size == n - n % p;
      TrimmedEnd(p, start, n);
      forall b: Block | PageAligned(p, b) && Inside(b, m) ensures Inside(b, t) || b.size == 0 {
        TrimLargest(p, m, b);
      }
    }
  }

  lemma TrimmedEnd(p: nat, start: nat, n: nat)
    requires p > 0 && start % p == 0
    ensures (start + (n - n % p)) % p == 0
  {
    assert n - n % p == (n / p) * p;
    MultipleMod(n / p, p);
    SumMod(start, n - n % p, p);
  }

  lemma LastPage(p: nat, start: nat, n: nat, e: nat)
    requires p > 0 && start % p == 0 && e % p == 0 && e <= start + n
    ensures e <= start + (n - n % p)
  {
    var end := start + (n - n % p);
    TrimmedEnd(p, start, n);
    assert start + n < end + p;
    if end < e {
      MultiplesGap(end, e, p);
    }
  }

  lemma TrimLargest(p: nat, m: Block, b: Block)
    requires p > 0 && m.size < WORD && PageAligned(p, b) && Inside(b, m) && AlignUp(m.base, p) <= m.End()
    ensures Inside(b, TrimBlockToPageSize(p, m)) || b.size == 0
  {
    var start := AlignUp(m.base, p);
    OverlapIsGap(p, m.base);
    AlignUpProps(m.base, p);
    WrapBelow(m.End() - start);
    LastPage(p, start, m.End() - start, b.End());
  }

  /** A block that ends on a page boundary never wraps and keeps its end. */
  lemma TrimAlignedEnd(p: nat, m: Block)
    requires p > 0 && m.End() % p == 0 && m.size < WORD
    ensures AlignUp(m.base, p) <= m.End()
    ensures TrimBlockToPageSize(p, m) == Block(AlignUp(m.base, p), m.End() - AlignUp(m.base, p))
  {
    OverlapIsGap(p, m.base);
    AlignUpProps(m.base, p);
    DifferenceMod(AlignUp(m.base, p), m.End(), p);
    WrapBelow(m.End() - AlignUp(m.base, p));
  }

  // ----- applying permissions

  function Trimmed(p: nat, free: seq<FreeMemBlock>): seq<FreeMemBlock>
    requires p > 0
  {
    if free == [] then []
    else
      var t := TrimBlockToPageSize(p, free[|free| - 1].free);
      Trimmed(p, free[..|free| - 1]) + if t.size == 0 then [] else [FreeMemBlock(t, NoPrefix)]
  }

  function Finalized(live: seq<Section>): seq<Section> {
    seq(|live|, i requires 0 <= i < |live| => live[i].(final := true))
  }

  /** The group after its pending ranges have been protected. */
  function Applied(p: nat, g: Group): Group
    requires p > 0
  {
    Group([], Trimmed(p, g.free), Finalized(g.live), g.regions)
  }

  ghost predicate TrimmedFrom(p: nat, t: FreeMemBlock, f: Block)
    requires p > 0
  {
    t.pendingPrefix == NoPrefix && Inside(t.free, f) && t.free.End() == f.End() && PageAligned(p, t.free)
  }

  lemma TrimmedOne(p: nat, g: Group)
    requires p > 0 && RegionsOk(p, g) && FreeOk(g)
    requires g.free != [] ==> g.free[0].free.size < WORD
    ensures var t := Trimmed(p, g.free);
            |t| <= 1 && (t != [] ==> g.free != [] && TrimmedFrom(p, t[0], g.free[0].free))
  {
    if g.free != [] {
      assert g.free[..|g.free| - 1] == [];
      assert Trimmed(p, []) == [];
      assert PageAligned(p, g.regions[|g.regions| - 1]);
      TrimAlignedEnd(p, g.free[0].free);
      AlignUpProps(g.free[0].free.base, p);
    }
  }

  /** Applying permissions keeps every invariant of the group. */
  lemma AppliedKeeps(p: nat, g: Group)
    requires p > 0 && GroupOk(p, g)
    requires g.free != [] ==> g.free[0].free.size < WORD
    ensures GroupOk(p, Applied(p, g))
  {
    var h := Applied(p, g);
    TrimmedOne(p, g);
    forall i | 0 <= i < |h.live| && h.free != [] ensures Apart(h.live[i].block, h.free[0].free) {
      assert Apart(g.live[i].block, g.free[0].free);
    }
    assert LiveOk(h) by {
      forall i, j | 0 <= i < j < |h.live| ensures Apart(h.live[i].block, h.live[j].block) {
        assert Apart(g.live[i].block, g.live[j].block);
      }
    }
  }

  // ----- refilling

  /** The group after a fresh reservation: old free memory is dropped, and if the group asked
      for memory its new region is free. */
  function Refilled(g: Group, asked: nat, region: Block): Group {
    if asked > 0 then Group(g.pending, [FreeMemBlock(region, NoPrefix)], g.live, g.regions + [region])
    else Group(g.pending, [], g.live, g.regions)
  }

  lemma RefilledKeeps(p: nat, g: Group, asked: nat, region: Block)
    requires p > 0 && GroupOk(p, g) && PageAligned(p, region)
    requires forall i :: 0 <= i < |g.regions| ==> Apart(g.regions[i], region)
    ensures GroupOk(p, Refilled(g, asked, region))
  {
    var h := Refilled(g, asked, region);
    forall b | InSome(b, g.regions) ensures InSome(b, h.regions) && (asked > 0 ==> Apart(b, region)) {
      var i :| 0 <= i < |g.regions| && Inside(b, g.regions[i]);
      assert Inside(b, h.regions[i]);
      assert Apart(g.regions[i], region);
    }
    forall i | 0 <= i < |h.live| ensures CoverOk(h, h.live[i]) {
      assert CoverOk(g, g.live[i]);
    }
  }
}
