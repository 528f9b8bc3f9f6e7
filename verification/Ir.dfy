/** Functions as the pruner sees them, and the reference counts they produce.

    A block is its instruction list without the terminator; the terminator is the successor
    list.  An instruction carries an identity, which stands for the LLVM call or store
    object; erasing and moving instructions never changes it. */
module Ir {
  import opened ControlFlow

  /** First argument of a refop: the constant null or an SSA value. */
  datatype Arg = NullPtr | Val(v: nat)

  /** `RaiseStore` is a store to `excinfo` that carries the numba_exception_output metadata. */
  datatype Op = Inc(arg: Arg) | Dec(arg: Arg) | RaiseStore | Other

  datatype Instr = Instr(id: nat, op: Op)

  type Block = seq<Instr>

  datatype Func = Func(blocks: seq<Block>, succ: Cfg) {
    ghost predicate Valid() {
      && ValidCfg(succ) && |blocks| == |succ|
      && forall b :: 0 <= b < |blocks| ==> Distinct(blocks[b])
    }
  }

  /** The LLVM function that a pass is given by reference and edits in place.  No pass
      touches a terminator, so the graph is constant. */
  class Function {
    var blocks: seq<Block>
    const succ: Cfg

    constructor (f: Func)
      ensures Body() == f
    {
      blocks := f.blocks;
      succ := f.succ;
    }

    function Body(): Func
      reads this
    {
      Func(blocks, succ)
    }
  }

  predicate Distinct(s: Block) {
    forall i, j :: 0 <= i < j < |s| ==> s[i] != s[j]
  }

  predicate IsInc(i: Instr) { i.op.Inc? }

  predicate IsDec(i: Instr) { i.op.Dec? }

  predicate IsRefOp(i: Instr) { i.op.Inc? || i.op.Dec? }

  predicate IsNullOp(i: Instr) { IsRefOp(i) && i.op.arg == NullPtr }

  predicate HasDec(s: Block) { exists i :: 0 <= i < |s| && IsDec(s[i]) }

  predicate HasInc(s: Block) { exists i :: 0 <= i < |s| && IsInc(s[i]) }

  /** A decref of the same SSA value, or of the same null constant. */
  predicate IsRelatedDec(a: Arg, i: Instr) { i.op == Dec(a) }

  predicate HasRelatedDec(a: Arg, s: Block) { exists i :: 0 <= i < |s| && IsRelatedDec(a, s[i]) }

  predicate IsRaising(s: Block) { exists i :: 0 <= i < |s| && s[i].op == RaiseStore }

  /** Increfs stand before decrefs: the shape the pruner assumes of every block. */
  ghost predicate Normal(s: Block) {
    forall i, j :: 0 <= i < j < |s| && IsDec(s[i]) ==> !IsInc(s[j])
  }

  ghost predicate AllNormal(f: Func) {
    forall b :: 0 <= b < |f.blocks| ==> Normal(f.blocks[b])
  }

  function DecBlocks(f: Func): set<BlockId> {
    set b: BlockId | b < |f.blocks| && HasDec(f.blocks[b])
  }

  function RelatedBlocks(f: Func, a: Arg): set<BlockId> {
    set b: BlockId | b < |f.blocks| && HasRelatedDec(a, f.blocks[b])
  }

  function RaisingBlocks(f: Func): set<BlockId> {
    set b: BlockId | b < |f.blocks| && IsRaising(f.blocks[b])
  }

  // ----- reference counts

  /** The SSA values that hold one particular object at some moment.  A value that is null at
      run time belongs to no class. */
  type AliasClass = iset<nat>

  ghost function Delta(i: Instr, c: AliasClass): int {
    match i.op
    case Inc(Val(v)) => if v in c then 1 else 0
    case Dec(Val(v)) => if v in c then -1 else 0
    case _ => 0
  }

  /** Change of the object's count over an instruction sequence. */
  ghost function Net(s: Block, c: AliasClass): int {
    if s == [] then 0 else Net(s[..|s| - 1], c) + Delta(s[|s| - 1], c)
  }

  function Min(a: int, b: int): int { if a < b then a else b }

  /** The lowest running count over all prefixes; the empty prefix counts 0. */
  ghost function Low(s: Block, c: AliasClass): int {
    if s == [] then 0 else Min(Low(s[..|s| - 1], c), Net(s, c))
  }

  lemma {:induction false} NetConcat(a: Block, b: Block, c: AliasClass)
    ensures Net(a + b, c) == Net(a, c) + Net(b, c)
    decreases |b|
  {
    if b == [] {
      assert a + b == a;
    } else {
      assert (a + b)[..|a + b| - 1] == a + b[..|b| - 1];
      NetConcat(a, b[..|b| - 1], c);
    }
  }

  lemma {:induction false} LowConcat(a: Block, b: Block, c: AliasClass)
    ensures Low(a + b, c) == Min(Low(a, c), Net(a, c) + Low(b, c))
    decreases |b|
  {
    if b == [] {
      assert a + b == a;
      LowIsLow(a, c);
    } else {
      assert (a + b)[..|a + b| - 1] == a + b[..|b| - 1];
      LowConcat(a, b[..|b| - 1], c);
      NetConcat(a, b, c);
    }
  }

  lemma {:induction false} LowIsLow(s: Block, c: AliasClass)
    ensures Low(s, c) <= 0 && Low(s, c) <= Net(s, c)
    decreases |s|
  {
    if s != [] {
      LowIsLow(s[..|s| - 1], c);
    }
  }

  /** `Low` is the minimum of the running count: it is reached, and nothing is below it. */
  lemma {:induction false} LowIsMinimum(s: Block, c: AliasClass)
    ensures exists k :: 0 <= k <= |s| && Low(s, c) == Net(s[..k], c)
    ensures forall k :: 0 <= k <= |s| ==> Low(s, c) <= Net(s[..k], c)
    decreases |s|
  {
    assert s[..|s|] == s;
    if s == [] {
      assert Low(s, c) == Net(s[..0], c);
    } else {
      var t := s[..|s| - 1];
      LowIsMinimum(t, c);
      assert forall k :: 0 <= k <= |t| ==> t[..k] == s[..k];
      var k :| 0 <= k <= |t| && Low(t, c) == Net(t[..k], c);
      assert Low(s, c) == Net(s[..k], c) || Low(s, c) == Net(s[..|s|], c);
      forall k | 0 <= k <= |s| ensures Low(s, c) <= Net(s[..k], c) {
        if k < |s| {
          assert Low(t, c) <= Net(t[..k], c);
        }
      }
    }
  }

  // ----- erasing one instruction

  function EraseAt(s: Block, k: nat): Block
    requires k < |s|
  {
    s[..k] + s[k + 1..]
  }

  /** `t` is `s` without one instruction that performs `op`. */
  ghost predicate ErasedOne(s: Block, t: Block, op: Op) {
    exists k: nat :: k < |s| && s[k].op == op && t == EraseAt(s, k)
  }

  lemma NetEraseAt(s: Block, k: nat, c: AliasClass)
    requires k < |s|
    ensures Net(EraseAt(s, k), c) == Net(s, c) - Delta(s[k], c)
  {
    assert s == s[..k] + [s[k]] + s[k + 1..];
    NetConcat(s[..k] + [s[k]], s[k + 1..], c);
    NetConcat(s[..k], [s[k]], c);
    NetConcat(s[..k], s[k + 1..], c);
    assert [s[k]][..0] == [];
    assert Net([s[k]], c) == Net([], c) + Delta(s[k], c);
  }

  // ----- blocks in normal form

  /** A block that opens with increfs and closes with decrefs is lowest at one of its ends. */
  lemma {:induction false} NormalLow(s: Block, c: AliasClass)
    requires Normal(s)
    ensures Low(s, c) == Min(0, Net(s, c))
    decreases |s|
  {
    if s != [] {
      var t, x := s[..|s| - 1], s[|s| - 1];
      NormalLow(t, c);
      if IsInc(x) {
        NoDecRises(t, c);
      }
    }
  }

  /** Without decrefs the count never falls. */
  lemma {:induction false} NoDecRises(s: Block, c: AliasClass)
    requires !HasDec(s)
    ensures Net(s, c) >= 0 && Low(s, c) == 0
    decreases |s|
  {
    if s != [] {
      assert !IsDec(s[|s| - 1]);
      NoDecRises(s[..|s| - 1], c);
    }
  }

  // ----- what a transformation may change

  function NonRefOps(s: Block): Block {
    if s == [] then []
    else NonRefOps(s[..|s| - 1]) + if IsRefOp(s[|s| - 1]) then [] else [s[|s| - 1]]
  }

  function RefOps(s: Block): nat {
    if s == [] then 0 else RefOps(s[..|s| - 1]) + if IsRefOp(s[|s| - 1]) then 1 else 0
  }

  function TotalRefOps(bs: seq<Block>): nat {
    if bs == [] then 0 else TotalRefOps(bs[..|bs| - 1]) + RefOps(bs[|bs| - 1])
  }

  lemma {:induction false} RefOpsConcat(a: Block, b: Block)
    ensures RefOps(a + b) == RefOps(a) + RefOps(b)
    ensures NonRefOps(a + b) == NonRefOps(a) + NonRefOps(b)
    decreases |b|
  {
    if b == [] {
      assert a + b == a;
    } else {
      assert (a + b)[..|a + b| - 1] == a + b[..|b| - 1];
      RefOpsConcat(a, b[..|b| - 1]);
    }
  }

  lemma {:induction false} TotalRefOpsUpdate(bs: seq<Block>, b: nat, s: Block)
    requires b < |bs|
    ensures TotalRefOps(bs[b := s]) == TotalRefOps(bs) - RefOps(bs[b]) + RefOps(s)
    decreases |bs|
  {
    var n := |bs| - 1;
    if b == n {
      assert bs[b := s][..n] == bs[..n];
    } else {
      assert bs[b := s][..n] == bs[..n][b := s];
      TotalRefOpsUpdate(bs[..n], b, s);
    }
  }

  /** The control-flow graph and everything that is not a refop are untouched, and no block
      gained an instruction or left normal form. */
  ghost predicate SameShape(f: Func, g: Func) {
    && g.succ == f.succ && |g.blocks| == |f.blocks|
    && forall b {:trigger BlockShape(f.blocks[b], g.blocks[b])} :: 0 <= b < |f.blocks| ==>
         BlockShape(f.blocks[b], g.blocks[b])
  }

  ghost predicate BlockShape(s: Block, t: Block) {
    && NonRefOps(t) == NonRefOps(s)
    && (forall x :: x in t ==> x in s)
    && (HasDec(t) ==> HasDec(s))
    && (Normal(s) ==> Normal(t))
    && (Distinct(s) ==> Distinct(t))
  }

  lemma SameShapeTrans(f: Func, g: Func, h: Func)
    requires SameShape(f, g) && SameShape(g, h)
    ensures SameShape(f, h)
  {
    forall b | 0 <= b < |f.blocks| ensures BlockShape(f.blocks[b], h.blocks[b]) {
      assert BlockShape(f.blocks[b], g.blocks[b]) && BlockShape(g.blocks[b], h.blocks[b]);
    }
  }

  lemma EraseShape(s: Block, k: nat)
    requires k < |s| && IsRefOp(s[k])
    ensures BlockShape(s, EraseAt(s, k)) && RefOps(EraseAt(s, k)) == RefOps(s) - 1
  {
    EraseCounts(s, k);
    EraseOrder(s, k);
  }

  lemma EraseCounts(s: Block, k: nat)
    requires k < |s| && IsRefOp(s[k])
    ensures RefOps(EraseAt(s, k)) == RefOps(s) - 1 && NonRefOps(EraseAt(s, k)) == NonRefOps(s)
  {
    SplitAt(s, k);
    RefOpsSplit(s, EraseAt(s, k), s[..k], s[k], s[k + 1..]);
  }

  lemma SplitAt(s: Block, k: nat)
    requires k < |s|
    ensures s == (s[..k] + [s[k]]) + s[k + 1..]
  {
  }

  lemma RefOpsSplit(s: Block, t: Block, a: Block, x: Instr, b: Block)
    requires IsRefOp(x) && s == (a + [x]) + b && t == a + b
    ensures RefOps(s) == RefOps(t) + 1 && NonRefOps(s) == NonRefOps(t)
  {
    RefOpsConcat(a + [x], b);
    RefOpsConcat(a, b);
    RefOpsSnoc(a, x);
  }

  lemma RefOpsSnoc(a: Block, x: Instr)
    requires IsRefOp(x)
    ensures RefOps(a + [x]) == RefOps(a) + 1 && NonRefOps(a + [x]) == NonRefOps(a)
  {
    assert (a + [x])[..|a|] == a;
  }

  lemma EraseOrder(s: Block, k: nat)
    requires k < |s|
    ensures HasDec(EraseAt(s, k)) ==> HasDec(s)
    ensures forall x :: x in EraseAt(s, k) ==> x in s
    ensures Normal(s) ==> Normal(EraseAt(s, k))
    ensures Distinct(s) ==> Distinct(EraseAt(s, k))
  {
    var t := EraseAt(s, k);
    forall i | 0 <= i < |t| ensures t[i] == s[Past(k, i)] {
    }
    if HasDec(t) {
      var i :| 0 <= i < |t| && IsDec(t[i]);
      assert IsDec(s[Past(k, i)]);
    }
  }

  function Past(k: nat, i: nat): nat { if i < k then i else i + 1 }

  lemma {:induction false} RaisingIsShape(s: Block)
    ensures IsRaising(s) <==> IsRaising(NonRefOps(s))
    decreases |s|
  {
    if s != [] {
      var t, x := s[..|s| - 1], s[|s| - 1];
      RaisingIsShape(t);
      RaisingSnoc(t, x);
      assert t + [x] == s;
      RaisingSnoc(NonRefOps(t), x);
      assert NonRefOps(s) == if IsRefOp(x) then NonRefOps(t) else NonRefOps(t) + [x];
    }
  }

  lemma RaisingSnoc(t: Block, x: Instr)
    ensures IsRaising(t + [x]) <==> IsRaising(t) || x.op == RaiseStore
  {
    var s := t + [x];
    assert s[|t|] == x && forall i :: 0 <= i < |t| ==> s[i] == t[i];
  }

  lemma SameRaising(f: Func, g: Func)
    requires SameShape(f, g)
    ensures RaisingBlocks(f) == RaisingBlocks(g) && DecBlocks(g) <= DecBlocks(f)
  {
    forall b: BlockId | b < |f.blocks| ensures IsRaising(f.blocks[b]) == IsRaising(g.blocks[b]) {
      assert BlockShape(f.blocks[b], g.blocks[b]);
      RaisingIsShape(f.blocks[b]);
      RaisingIsShape(g.blocks[b]);
    }
    forall b | b in DecBlocks(g) ensures b in DecBlocks(f) {
      assert BlockShape(f.blocks[b], g.blocks[b]);
    }
  }
}
