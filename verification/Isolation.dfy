/** Page permissions: why a page that holds finalized sections is never shared, neither with
    memory that is still to be handed out nor with another group, on any run. */
module Isolation {
  import opened Alignment
  import opened MemoryModel
  import opened HeapModel

  /** Permission of the page that starts at an address. */
  type PagePerms = nat -> Perm

  function FinalPerm(k: nat): Perm {
    if k == 0 then ReadExec else if k == 1 then ReadOnly else ReadWrite
  }

  // ----- pages

  /** The page that starts at `a` has a byte of the block. */
  predicate OnPage(p: nat, a: nat, b: Block) {
    b.size > 0 && a < b.End() && b.base < a + p
  }

  predicate IsPage(p: nat, a: nat)
    requires p > 0
  {
    a % p == 0
  }

  ghost predicate OnPageOfSome(p: nat, a: nat, bs: seq<Block>) {
    exists i :: 0 <= i < |bs| && OnPage(p, a, bs[i])
  }

  ghost predicate FreePage(p: nat, g: Group, a: nat) {
    exists i :: 0 <= i < |g.free| && OnPage(p, a, g.free[i].free)
  }

  ghost predicate PendingPage(p: nat, g: Group, a: nat) {
    OnPageOfSome(p, a, g.pending)
  }

  ghost predicate LivePage(p: nat, g: Group, a: nat) {
    exists i :: 0 <= i < |g.live| && OnPage(p, a, g.live[i].block)
  }

  ghost predicate FinalPage(p: nat, g: Group, a: nat) {
    exists i :: 0 <= i < |g.live| && g.live[i].final && OnPage(p, a, g.live[i].block)
  }

  lemma PageInRegion(p: nat, a: nat, b: Block, r: Block)
    requires p > 0 && IsPage(p, a) && OnPage(p, a, b) && Inside(b, r) && PageAligned(p, r)
    ensures r.base <= a && a + p <= r.End()
  {
    MultiplesGap(a, r.End(), p);
    if a < r.base {
      MultiplesGap(a, r.base, p);
    }
  }

  /** Pages of blocks in disjoint page-aligned regions are different. */
  lemma PagesApart(p: nat, a: nat, b: Block, rs: seq<Block>, c: Block, ss: seq<Block>)
    requires p > 0 && IsPage(p, a) && OnPage(p, a, b) && InSome(b, rs) && InSome(c, ss)
    requires forall i :: 0 <= i < |rs| ==> PageAligned(p, rs[i])
    requires forall j :: 0 <= j < |ss| ==> PageAligned(p, ss[j])
    requires forall i, j :: 0 <= i < |rs| && 0 <= j < |ss| ==> Apart(rs[i], ss[j])
    ensures !OnPage(p, a, c)
  {
    var i :| 0 <= i < |rs| && Inside(b, rs[i]);
    var j :| 0 <= j < |ss| && Inside(c, ss[j]);
    var s := ss[j];
    assert PageAligned(p, s) && Apart(rs[i], s);
    PageInRegion(p, a, b, rs[i]);
    if OnPage(p, a, c) {
      PageInRegion(p, a, c, s);
    }
  }

  lemma PageStart(p: nat, x: nat) returns (a: nat)
    requires p > 0
    ensures IsPage(p, a) && a <= x < a + p
  {
    a := (x / p) * p;
    MultipleMod(x / p, p);
  }

  // ----- permissions

  /** Protecting a block changes every page that has a byte of it. */
  function Protect(p: nat, perms: PagePerms, b: Block, x: Perm): PagePerms {
    (a: nat) => if OnPage(p, a, b) then x else perms(a)
  }

  function ProtectAll(p: nat, perms: PagePerms, bs: seq<Block>, x: Perm): PagePerms {
    if bs == [] then perms else Protect(p, ProtectAll(p, perms, bs[..|bs| - 1], x), bs[|bs| - 1], x)
  }

  lemma {:induction false} ProtectAllAt(p: nat, perms: PagePerms, bs: seq<Block>, x: Perm, a: nat)
    ensures ProtectAll(p, perms, bs, x)(a) == if OnPageOfSome(p, a, bs) then x else perms(a)
    decreases |bs|
  {
    if bs != [] {
      var cs := bs[..|bs| - 1];
      ProtectAllAt(p, perms, cs, x, a);
      assert OnPageOfSome(p, a, cs) ==> OnPageOfSome(p, a, bs) by {
        assert forall i :: 0 <= i < |cs| ==> cs[i] == bs[i];
      }
    }
  }

  /** Protecting the ranges one after the other failed at the `n`-th: those before it are
      protected, and its own pages may have any permission. */
  ghost predicate FailedAt(p: nat, perms: PagePerms, perms': PagePerms, pending: seq<Block>, x: Perm, n: nat) {
    && n < |pending|
    && forall a: nat :: !OnPage(p, a, pending[n]) ==> perms'(a) == ProtectAll(p, perms, pending[..n], x)(a)
  }

  /** What a failed attempt to protect the ranges may leave. */
  ghost predicate Failed(p: nat, perms: PagePerms, perms': PagePerms, pending: seq<Block>, x: Perm) {
    exists n: nat :: FailedAt(p, perms, perms', pending, x, n)
  }

  lemma FailedIsConfined(p: nat, perms: PagePerms, perms': PagePerms, pending: seq<Block>, x: Perm, a: nat)
    requires Failed(p, perms, perms', pending, x) && !OnPageOfSome(p, a, pending)
    ensures perms'(a) == perms(a)
  {
    var n: nat :| FailedAt(p, perms, perms', pending, x, n);
    ProtectAllAt(p, perms, pending[..n], x, a);
    assert forall i :: 0 <= i < n ==> pending[..n][i] == pending[i];
  }

  // ----- what is guarded

  /** A page of a finalized section has the group's permission and holds no free and no pending
      memory; a page of free memory that no pending range touches is writable. */
  ghost predicate PageGuarded(p: nat, g: Group, perm: Perm, x: Perm, a: nat) {
    && (FinalPage(p, g, a) ==> perm == x && !FreePage(p, g, a) && !PendingPage(p, g, a))
    && (FreePage(p, g, a) && !PendingPage(p, g, a) ==> perm == ReadWrite)
  }

  /** What holds of each group in every state, also after finalizations that failed. */
  ghost predicate Guarded(p: nat, g: Group, perms: PagePerms, x: Perm)
    requires p > 0
  {
    forall a: nat :: IsPage(p, a) ==> PageGuarded(p, g, perms(a), x, a)
  }

  /** Pending memory is writable. */
  ghost predicate Writable(p: nat, g: Group, perms: PagePerms)
    requires p > 0
  {
    forall a: nat :: IsPage(p, a) && PendingPage(p, g, a) ==> perms(a) == ReadWrite
  }

  /** All memory of the group that is not finalized is writable, and no page of it is shared
      with a finalized section. */
  ghost predicate Isolated(p: nat, g: Group, perms: PagePerms, x: Perm)
    requires p > 0
  {
    Guarded(p, g, perms, x) && Writable(p, g, perms)
  }

  // ----- changes of permissions

  /** The change leaves alone every page on which the group depends. */
  ghost predicate Spares(p: nat, g: Group, perms: PagePerms, perms': PagePerms)
    requires p > 0
  {
    forall a: nat :: IsPage(p, a) && (FinalPage(p, g, a) || FreePage(p, g, a) || PendingPage(p, g, a)) ==>
      perms'(a) == perms(a)
  }

  lemma SparedStays(p: nat, g: Group, perms: PagePerms, perms': PagePerms, x: Perm)
    requires p > 0 && Spares(p, g, perms, perms')
    ensures Guarded(p, g, perms, x) ==> Guarded(p, g, perms', x)
    ensures Writable(p, g, perms) ==> Writable(p, g, perms')
  {
    forall a: nat | IsPage(p, a) && PageGuarded(p, g, perms(a), x, a) ensures PageGuarded(p, g, perms'(a), x, a) {
    }
  }

  lemma PageInSomeRegion(p: nat, g: Group, a: nat) returns (b: Block)
    requires p > 0 && GroupOk(p, g) && (LivePage(p, g, a) || FreePage(p, g, a) || PendingPage(p, g, a))
    ensures OnPage(p, a, b) && InSome(b, g.regions)
  {
    if i :| 0 <= i < |g.live| && OnPage(p, a, g.live[i].block) {
      b := g.live[i].block;
    } else if i :| 0 <= i < |g.free| && OnPage(p, a, g.free[i].free) {
      b := g.free[i].free;
      assert Inside(b, g.regions[|g.regions| - 1]);
    } else {
      var i :| 0 <= i < |g.pending| && OnPage(p, a, g.pending[i]);
      b := g.pending[i];
    }
  }

  /** A change confined to blocks outside the group's regions spares the group. */
  lemma ForeignChange(p: nat, g: Group, perms: PagePerms, perms': PagePerms, ss: seq<Block>, cs: seq<Block>)
    requires p > 0 && GroupOk(p, g)
    requires forall j :: 0 <= j < |ss| ==> PageAligned(p, ss[j])
    requires forall i, j :: 0 <= i < |g.regions| && 0 <= j < |ss| ==> Apart(g.regions[i], ss[j])
    requires forall j :: 0 <= j < |cs| ==> InSome(cs[j], ss)
    requires forall a: nat :: IsPage(p, a) && !OnPageOfSome(p, a, cs) ==> perms'(a) == perms(a)
    ensures Spares(p, g, perms, perms')
  {
    forall a: nat | IsPage(p, a) && (FinalPage(p, g, a) || FreePage(p, g, a) || PendingPage(p, g, a))
      ensures perms'(a) == perms(a)
    {
      var b := PageInSomeRegion(p, g, a);
      forall j | 0 <= j < |cs| ensures !OnPage(p, a, cs[j]) {
        PagesApart(p, a, b, g.regions, cs[j], ss);
      }
    }
  }

  /** A failed attempt to protect the group's own pending ranges keeps it guarded. */
  lemma FailureKeepsGuarded(p: nat, g: Group, perms: PagePerms, perms': PagePerms, x: Perm)
    requires p > 0 && Guarded(p, g, perms, x) && Failed(p, perms, perms', g.pending, x)
    ensures Guarded(p, g, perms', x)
  {
    forall a: nat | IsPage(p, a) ensures PageGuarded(p, g, perms'(a), x, a) {
      assert PageGuarded(p, g, perms(a), x, a);
      if !PendingPage(p, g, a) {
        FailedIsConfined(p, perms, perms', g.pending, x, a);
      }
    }
  }

  /** Whatever a failed attempt may leave, the group stays isolated - exactly if there was
      nothing to protect: the source does not revert permissions on an error. */
  lemma FailureIsolatesExactly(p: nat, g: Group, perms: PagePerms, x: Perm)
    requires p > 0 && Isolated(p, g, perms, x)
    ensures (forall perms' :: Failed(p, perms, perms', g.pending, x) ==> Isolated(p, g, perms', x))
            <==> forall i :: 0 <= i < |g.pending| ==> g.pending[i].size == 0
  {
    if forall i :: 0 <= i < |g.pending| ==> g.pending[i].size == 0 {
      forall perms' | Failed(p, perms, perms', g.pending, x) ensures Isolated(p, g, perms', x) {
        FailureKeepsGuarded(p, g, perms, perms', x);
      }
    } else {
      var i :| 0 <= i < |g.pending| && g.pending[i].size != 0;
      var a := PageStart(p, g.pending[i].base);
      var perms' := Protect(p, ProtectAll(p, perms, g.pending[..i], x), g.pending[i], ReadOnly);
      assert FailedAt(p, perms, perms', g.pending, x, i);
      assert Failed(p, perms, perms', g.pending, x);
      assert OnPage(p, a, g.pending[i]) && perms'(a) == ReadOnly;
      assert !Isolated(p, g, perms', x);
    }
  }

  // ----- the steps of one group

  lemma CarvedPage(p: nat, g: Group, size: nat, align: nat, a: nat)
    requires p > 0 && GroupOk(p, g) && align > 0 && |g.free| == 1 && Fits(g.free[0].free, size, align)
    ensures var h := Carved(g, 0, size, align);
            && (FinalPage(p, h, a) <==> FinalPage(p, g, a)) && (FreePage(p, h, a) ==> FreePage(p, g, a))
            && (PendingPage(p, g, a) ==> PendingPage(p, h, a))
            && (PendingPage(p, h, a) ==> PendingPage(p, g, a) || FreePage(p, g, a))
  {
    var h := Carved(g, 0, size, align);
    CarveFits(g.free[0].free, size, align);
    assert forall i :: 0 <= i < |g.live| ==> h.live[i] == g.live[i];
    assert FreePage(p, h, a) ==> OnPage(p, a, g.free[0].free);
    CarvedPending(p, g, size, align, a);
  }

  lemma CarvedPending(p: nat, g: Group, size: nat, align: nat, a: nat)
    requires p > 0 && PendingOk(g) && align > 0 && |g.free| == 1 && Fits(g.free[0].free, size, align)
    ensures PendingPage(p, g, a) ==> PendingPage(p, Carved(g, 0, size, align), a)
    ensures PendingPage(p, Carved(g, 0, size, align), a) ==> PendingPage(p, g, a) || FreePage(p, g, a)
  {
    var h := Carved(g, 0, size, align);
    var f := g.free[0].free;
    CarveFits(f, size, align);
    if i :| 0 <= i < |g.pending| && OnPage(p, a, g.pending[i]) {
      assert OnPage(p, a, h.pending[i]);
    }
    if i :| 0 <= i < |h.pending| && OnPage(p, a, h.pending[i]) {
      assert OnPage(p, a, f) || (i < |g.pending| && OnPage(p, a, g.pending[i]));
    }
  }

  /** Handing out a section keeps the group guarded, and isolated if it was. */
  lemma CarvedStays(p: nat, g: Group, size: nat, align: nat, perms: PagePerms, x: Perm)
    requires p > 0 && GroupOk(p, g) && align > 0 && |g.free| == 1 && Fits(g.free[0].free, size, align)
    requires Guarded(p, g, perms, x)
    ensures Guarded(p, Carved(g, 0, size, align), perms, x)
    ensures Writable(p, g, perms) ==> Writable(p, Carved(g, 0, size, align), perms)
  {
    forall a: nat | IsPage(p, a)
      ensures PageGuarded(p, Carved(g, 0, size, align), perms(a), x, a)
      ensures Writable(p, g, perms) && PendingPage(p, Carved(g, 0, size, align), a) ==> perms(a) == ReadWrite
    {
      assert PageGuarded(p, g, perms(a), x, a);
      CarvedPage(p, g, size, align, a);
    }
  }

  lemma AppliedPage(p: nat, g: Group, a: nat)
    requires p > 0 && GroupOk(p, g) && (g.free != [] ==> g.free[0].free.size < WORD) && IsPage(p, a)
    ensures !PendingPage(p, Applied(p, g), a)
    ensures FinalPage(p, Applied(p, g), a) ==> FinalPage(p, g, a) || PendingPage(p, g, a)
    ensures FreePage(p, Applied(p, g), a) ==>
              FreePage(p, g, a) && !PendingPage(p, g, a) && !FinalPage(p, Applied(p, g), a)
  {
    var h := Applied(p, g);
    TrimmedOne(p, g);
    if i :| 0 <= i < |h.live| && OnPage(p, a, h.live[i].block) {
      assert CoverOk(g, g.live[i]);
      if !g.live[i].final {
        var j :| 0 <= j < |g.pending| && Inside(g.live[i].block, g.pending[j]);
        assert OnPage(p, a, g.pending[j]);
      }
    }
    if FreePage(p, h, a) {
      FreePageUntouched(p, g, a, h.free[0].free);
    }
  }

  /** A page of trimmed free memory was free before, and has no byte of anything else. */
  lemma FreePageUntouched(p: nat, g: Group, a: nat, t: Block)
    requires p > 0 && GroupOk(p, g) && g.free != [] && IsPage(p, a) && OnPage(p, a, t)
    requires Inside(t, g.free[0].free) && PageAligned(p, t)
    ensures FreePage(p, g, a) && !PendingPage(p, g, a) && !LivePage(p, g, a)
  {
    PageInRegion(p, a, t, t);
    assert OnPage(p, a, g.free[0].free);
    forall i | 0 <= i < |g.pending| ensures !OnPage(p, a, g.pending[i]) {
      assert Apart(g.pending[i], g.free[0].free);
    }
    forall i | 0 <= i < |g.live| ensures !OnPage(p, a, g.live[i].block) {
      assert Apart(g.live[i].block, g.free[0].free);
    }
  }

  /** Protecting the pending ranges and trimming isolates the group, however many attempts have
      failed before. */
  lemma AppliedIsolates(p: nat, g: Group, perms: PagePerms, x: Perm)
    requires p > 0 && GroupOk(p, g) && (g.free != [] ==> g.free[0].free.size < WORD)
    requires Guarded(p, g, perms, x)
    ensures Isolated(p, Applied(p, g), ProtectAll(p, perms, g.pending, x), x)
  {
    forall a: nat | IsPage(p, a)
      ensures PageGuarded(p, Applied(p, g), ProtectAll(p, perms, g.pending, x)(a), x, a)
      ensures !PendingPage(p, Applied(p, g), a)
    {
      assert PageGuarded(p, g, perms(a), x, a);
      ProtectAllAt(p, perms, g.pending, x, a);
      AppliedPage(p, g, a);
    }
  }

  lemma RefilledStays(p: nat, g: Group, asked: nat, r: Block, perms: PagePerms, x: Perm)
    requires p > 0 && GroupOk(p, g) && Guarded(p, g, perms, x) && PageAligned(p, r)
    requires forall i :: 0 <= i < |g.regions| ==> Apart(g.regions[i], r)
    requires forall a: nat :: IsPage(p, a) && OnPage(p, a, r) ==> perms(a) == ReadWrite
    ensures Guarded(p, Refilled(g, asked, r), perms, x)
    ensures Writable(p, g, perms) ==> Writable(p, Refilled(g, asked, r), perms)
  {
    var h := Refilled(g, asked, r);
    forall a: nat | IsPage(p, a) ensures PageGuarded(p, h, perms(a), x, a) {
      assert PageGuarded(p, g, perms(a), x, a);
      assert FreePage(p, h, a) ==> OnPage(p, a, r);
      if FinalPage(p, h, a) {
        var b := PageInSomeRegion(p, g, a);
        var rs := [r];
        assert Inside(r, rs[0]) && InSome(r, rs);
        PagesApart(p, a, b, g.regions, r, rs);
      }
    }
  }

  lemma DroppedStays(p: nat, g: Group, perms: PagePerms, x: Perm)
    requires p > 0 && Guarded(p, g, perms, x)
    ensures Guarded(p, g.(free := []), perms, x)
    ensures Writable(p, g, perms) ==> Writable(p, g.(free := []), perms)
  {
    forall a: nat | IsPage(p, a) ensures PageGuarded(p, g.(free := []), perms(a), x, a) {
      assert PageGuarded(p, g, perms(a), x, a);
    }
    assert forall a :: PendingPage(p, g.(free := []), a) ==> PendingPage(p, g, a);
  }

  // ----- the whole heap

  ghost predicate HeapGuarded(p: nat, h: Heap, perms: PagePerms)
    requires p > 0 && |h.groups| == 3
  {
    forall k :: 0 <= k < 3 ==> Guarded(p, h.groups[k], perms, FinalPerm(k))
  }

  /** Group `k` stays isolated if it was. */
  ghost predicate KeepsIsolation(p: nat, h: Heap, perms: PagePerms, h': Heap, perms': PagePerms, k: nat)
    requires p > 0 && |h.groups| == 3 && |h'.groups| == 3 && k < 3
  {
    Isolated(p, h.groups[k], perms, FinalPerm(k)) ==> Isolated(p, h'.groups[k], perms', FinalPerm(k))
  }

  /** The groups that are isolated. */
  ghost function IsolatedGroups(p: nat, h: Heap, perms: PagePerms): set<nat>
    requires p > 0 && |h.groups| == 3
  {
    set k: nat | k < 3 && Isolated(p, h.groups[k], perms, FinalPerm(k))
  }

  lemma IsolationKept(p: nat, h: Heap, perms: PagePerms, h': Heap, perms': PagePerms)
    requires p > 0 && |h.groups| == 3 && |h'.groups| == 3
    requires forall k :: 0 <= k < 3 ==> KeepsIsolation(p, h, perms, h', perms', k)
    ensures IsolatedGroups(p, h, perms) <= IsolatedGroups(p, h', perms')
  {
    forall k | k in IsolatedGroups(p, h, perms) ensures k in IsolatedGroups(p, h', perms') {
      assert KeepsIsolation(p, h, perms, h', perms', k);
    }
  }

  /** A step keeps all groups guarded, and isolated those that were. */
  ghost predicate Stays(p: nat, h: Heap, perms: PagePerms, h': Heap, perms': PagePerms)
    requires p > 0 && |h.groups| == 3 && |h'.groups| == 3
  {
    HeapGuarded(p, h, perms) ==>
      HeapGuarded(p, h', perms') && IsolatedGroups(p, h, perms) <= IsolatedGroups(p, h', perms')
  }

  /** Every page with a byte of a section has the permission. */
  ghost predicate AllOnPages(p: nat, live: seq<Section>, perms: PagePerms, x: Perm)
    requires p > 0
  {
    forall i, a: nat :: 0 <= i < |live| && IsPage(p, a) && OnPage(p, a, live[i].block) ==> perms(a) == x
  }

  /** Once all sections of Code and ROData are finalized, code can be executed but not written,
      and read-only data neither. */
  lemma FinalizedIsProtected(p: nat, h: Heap, perms: PagePerms)
    requires p > 0 && |h.groups| == 3 && HeapGuarded(p, h, perms)
    ensures (forall s :: s in h.groups[0].live ==> s.final) ==> AllOnPages(p, h.groups[0].live, perms, ReadExec)
    ensures (forall s :: s in h.groups[1].live ==> s.final) ==> AllOnPages(p, h.groups[1].live, perms, ReadOnly)
  {
    forall k, i, a: nat | 0 <= k < 2 && 0 <= i < |h.groups[k].live| && h.groups[k].live[i].final
                          && IsPage(p, a) && OnPage(p, a, h.groups[k].live[i].block)
      ensures perms(a) == if k == 0 then ReadExec else ReadOnly
    {
      assert Guarded(p, h.groups[k], perms, FinalPerm(k));
      assert PageGuarded(p, h.groups[k], perms(a), FinalPerm(k), a);
    }
  }

  /** A page with a byte of a finalized section, of any group and in any state, has the
      permission of that group, holds no byte of free or pending memory of any group, and no
      byte of a section of another group. */
  lemma FinalPageIsExclusive(p: nat, h: Heap, perms: PagePerms, k: nat, a: nat, j: nat)
    requires p > 0 && HeapOk(p, h) && HeapGuarded(p, h, perms) && k < 3 && j < 3
    requires IsPage(p, a) && FinalPage(p, h.groups[k], a)
    ensures perms(a) == FinalPerm(k)
    ensures !FreePage(p, h.groups[j], a) && !PendingPage(p, h.groups[j], a)
    ensures j != k ==> !LivePage(p, h.groups[j], a)
  {
    var g, g' := h.groups[k], h.groups[j];
    assert PageGuarded(p, g, perms(a), FinalPerm(k), a);
    if j != k && (LivePage(p, g', a) || FreePage(p, g', a) || PendingPage(p, g', a)) {
      var b := PageInSomeRegion(p, g, a);
      var c := PageInSomeRegion(p, g', a);
      assert RegionsApart(g, g');
      PagesApart(p, a, b, g.regions, c, g'.regions);
      assert false;
    }
  }
}
