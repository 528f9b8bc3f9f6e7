/** How much a reservation must set aside, and when it is enough for every request sequence
    it was made for. */
module Reservation {
  import opened Alignment
  import opened MemoryModel

  /** The smallest alignment the manager works with. */
  const STUB_ALIGN: nat := 8

  /** One allocateSection request; alignment 0 stands for the stub alignment. */
  datatype Request = Request(size: nat, alignment: nat)

  function EffectiveAlign(alignment: nat): nat {
    if alignment == 0 then STUB_ALIGN else alignment
  }

  function Max(a: nat, b: nat): nat { if a > b then a else b }

  /** Space that reserveAllocationSpace requires for one group. */
  function RequiredSize(size: nat, align: nat): nat
    requires align > 0
  {
    AlignUp(size, Max(align, STUB_ALIGN)) + Max(align, STUB_ALIGN)
  }

  /** Whether a free block serves the requests, one after the other. */
  predicate AllServed(b: Block, reqs: seq<Request>)
    requires forall i :: 0 <= i < |reqs| ==> reqs[i].alignment == 0 || PowerOfTwo(reqs[i].alignment)
    decreases |reqs|
  {
    reqs == [] || (
      var a := EffectiveAlign(reqs[0].alignment);
      a > 0 && Fits(b, reqs[0].size, a) && AllServed(Rest(b, reqs[0].size, a), reqs[1..]))
  }

  /** Sum of the sizes, each rounded up to `c`. */
  function Rounded(reqs: seq<Request>, c: nat): nat
    requires c > 0
  {
    if reqs == [] then 0 else AlignUp(reqs[0].size, c) + Rounded(reqs[1..], c)
  }

  /** Requests that a reservation of `total` bytes at alignment `c` is made for. */
  ghost predicate Announced(reqs: seq<Request>, c: nat, total: nat) {
    && c > 0
    && (forall i :: 0 <= i < |reqs| ==>
          (reqs[i].alignment == 0 || PowerOfTwo(reqs[i].alignment)) && EffectiveAlign(reqs[i].alignment) <= c)
    && Rounded(reqs, c) <= AlignUp(total, c)
  }

  /** The block still holds the announced bytes after its start is rounded up. */
  predicate Roomy(b: Block, c: nat, total: nat)
    requires c > 0
  {
    AlignUp(b.base, c) + AlignUp(total, c) + c <= b.End()
  }

  lemma EightIsPower()
    ensures PowerOfTwo(STUB_ALIGN)
  {
    assert PowerOfTwo(4);
  }

  /** Serving one request moves the rounded start by at most the rounded size. */
  lemma RestMoves(b: Block, size: nat, a: nat, c: nat)
    requires a > 0 && c > 0 && c % a == 0 && Fits(b, size, a)
    ensures AlignUp(Rest(b, size, a).base, c) <= AlignUp(b.base, c) + AlignUp(size, c)
    ensures Rest(b, size, a).End() == b.End()
  {
    CarveFits(b, size, a);
    AlignUpFiner(b.base, a, c);
    AlignUpProps(b.base, c);
    AlignUpProps(size, c);
    AlignUpMonotone(Rest(b, size, a).base, AlignUp(b.base, c) + size, c);
    AlignUpShift(size, AlignUp(b.base, c), c);
  }

  lemma {:induction false} RoomySuffices(b: Block, c: nat, left: nat, reqs: seq<Request>)
    requires PowerOfTwo(c) && Announced(reqs, c, left) && left % c == 0
    requires Roomy(b, c, left)
    ensures AllServed(b, reqs)
    decreases |reqs|
  {
    if reqs != [] {
      var size, a := reqs[0].size, EffectiveAlign(reqs[0].alignment);
      EightIsPower();
      PowersDivide(1, c);
      PowersDivide(a, c);
      AlignUpProps(b.base, c);
      AlignUpFiner(size, a, c);
      assert Fits(b, size, a);
      RestMoves(b, size, a, c);
      AlignUpProps(size, c);
      DifferenceMod(AlignUp(size, c), left, c);
      RoomySuffices(Rest(b, size, a), c, left - AlignUp(size, c), reqs[1..]);
    }
  }

  /** A free block serves every announced sequence of requests exactly when it is roomy. */
  lemma ServesAllExactly(b: Block, c: nat, total: nat)
    requires PowerOfTwo(c) && c >= STUB_ALIGN
    ensures Roomy(b, c, total) <==> forall reqs :: Announced(reqs, c, total) ==> AllServed(b, reqs)
  {
    PowersDivide(1, c);
    AlignUpProps(total, c);
    var left := AlignUp(total, c);
    if Roomy(b, c, total) {
      forall reqs | Announced(reqs, c, total) ensures AllServed(b, reqs) {
        RoomySuffices(b, c, left, reqs);
      }
    } else {
      var reqs := [Request(0, c), Request(left, c)];
      WorstIsAnnounced(c, total, left, reqs);
      NarrowRefuses(b, c, left, reqs);
    }
  }

  lemma WorstIsAnnounced(c: nat, total: nat, left: nat, reqs: seq<Request>)
    requires PowerOfTwo(c) && c >= STUB_ALIGN && left == AlignUp(total, c) && left % c == 0
    requires reqs == [Request(0, c), Request(left, c)]
    ensures Announced(reqs, c, total)
  {
    var last := reqs[1..];
    assert last == [Request(left, c)] && last[1..] == [];
    assert Rounded(last[1..], c) == 0;
    assert Rounded(last, c) == left;
    assert AlignUp(0, c) == 0;
  }

  /** An empty section at full alignment, then one of the whole size. */
  lemma NarrowRefuses(b: Block, c: nat, left: nat, reqs: seq<Request>)
    requires PowerOfTwo(c) && c >= STUB_ALIGN && left % c == 0
    requires reqs == [Request(0, c), Request(left, c)]
    requires AlignUp(b.base, c) + left + c > b.End()
    ensures !AllServed(b, reqs)
  {
    assert reqs[1..] == [Request(left, c)];
    if Fits(b, 0, c) {
      var r := Rest(b, 0, c);
      assert r.base == AlignUp(b.base, c);
      assert !Fits(r, left, c);
    }
  }

  /** An aligned block of the required size is roomy. */
  lemma AlignedIsRoomy(b: Block, align: nat, size: nat)
    requires align > 0 && b.base % Max(align, STUB_ALIGN) == 0 && b.size >= RequiredSize(size, align)
    ensures Roomy(b, Max(align, STUB_ALIGN), size)
  {
    AlignUpProps(b.base, Max(align, STUB_ALIGN));
  }

  /** After a fresh reservation no announced sequence of requests can fail: the block has the
      required size rounded up to pages, and its start has been checked for alignment. */
  lemma FreshServesAll(b: Block, p: nat, align: nat, size: nat, reqs: seq<Request>)
    requires p > 0 && PowerOfTwo(align) && align > 0
    requires b.base % Max(align, STUB_ALIGN) == 0 && b.size == AlignUp(RequiredSize(size, align), p)
    requires Announced(reqs, Max(align, STUB_ALIGN), size)
    ensures AllServed(b, reqs)
  {
    EightIsPower();
    AlignUpProps(RequiredSize(size, align), p);
    AlignedIsRoomy(b, align, size);
    ServesAllExactly(b, Max(align, STUB_ALIGN), size);
  }

  /** A page boundary is aligned for every reservation that does not exceed a page. */
  lemma PagesAreAligned(x: nat, p: nat, align: nat)
    requires PowerOfTwo(p) && STUB_ALIGN <= p && PowerOfTwo(align) && 0 < align <= p && p > 0 && x % p == 0
    ensures x % Max(align, STUB_ALIGN) == 0
  {
    EightIsPower();
    PowersDivide(Max(align, STUB_ALIGN), p);
    ModTrans(x, p, Max(align, STUB_ALIGN));
  }

  /** Reusing old free memory checks the size only.  For a block that ends on a page boundary
      that is enough: what exceeds the required size always covers the rounding. */
  lemma ReuseServesAll(b: Block, p: nat, align: nat, size: nat, reqs: seq<Request>)
    requires PowerOfTwo(p) && STUB_ALIGN <= p && PowerOfTwo(align) && 0 < align <= p
    requires p > 0 && b.End() % p == 0 && b.size >= RequiredSize(size, align)
    requires Announced(reqs, Max(align, STUB_ALIGN), size)
    ensures AllServed(b, reqs)
  {
    var c := Max(align, STUB_ALIGN);
    EightIsPower();
    PagesAreAligned(b.End(), p, align);
    AlignUpProps(size, c);
    SumMod(AlignUp(size, c), c, c);
    DifferenceMod(RequiredSize(size, align), b.End(), c);
    AlignUpProps(b.base, c);
    assert AlignUp(b.base, c) <= b.End() - RequiredSize(size, align);
    ServesAllExactly(b, c, size);
  }

  /** For any block and alignment: the size check is enough exactly when the block is aligned
      or has room beyond its required size. */
  lemma ReuseServesExactly(b: Block, align: nat, size: nat)
    requires PowerOfTwo(align) && align > 0 && b.size >= RequiredSize(size, align)
    ensures var c := Max(align, STUB_ALIGN);
            (forall reqs :: Announced(reqs, c, size) ==> AllServed(b, reqs))
            <==> b.size - RequiredSize(size, align) >= AlignUp(b.base, c) - b.base
  {
    EightIsPower();
    ServesAllExactly(b, Max(align, STUB_ALIGN), size);
  }
}
