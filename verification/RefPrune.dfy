/** The pruner: four subpasses that erase refops of a function in place, repeated until none
    of them finds anything. */
module RefPrune {
  import opened ControlFlow
  import opened Ir
  import opened Erasure
  import opened Safety
  import PerBlockPrune
  import opened FanoutSearch
  import opened FanoutSafety
  import opened Diamond
  import opened DiamondWalks
  import RefNormalize

  /** Which subpasses run. */
  datatype Subpasses = Subpasses(perBB: bool, diamond: bool, fanout: bool, fanoutRaise: bool)

  /** A refop call together with the block that holds it. */
  datatype Call = Call(bb: BlockId, ins: Instr)

  datatype Slot = Gone | Live(call: Call)

  type Relation = set<(BlockId, BlockId)>

  /** The two dominance tables that the pruner is given. */
  datatype Trees = Trees(dt: Relation, pdt: Relation)

  /** What the tables say is true.  LLVM's post-dominator tree says less than is true when some
      loop has no exit. */
  ghost predicate SoundTrees(g: Cfg, t: Trees) {
    forall a: BlockId, b: BlockId :: a < |g| && b < |g| ==>
      && ((a, b) in t.dt ==> Dominates(g, a, b))
      && ((a, b) in t.pdt ==> PostDominates(g, a, b))
  }

  ghost predicate ExactTrees(g: Cfg, t: Trees) {
    forall a: BlockId, b: BlockId :: a < |g| && b < |g| ==>
      && ((a, b) in t.dt <==> Dominates(g, a, b))
      && ((a, b) in t.pdt <==> PostDominates(g, a, b))
  }

  /** Blocks that hold an incref and a decref of the same argument. */
  ghost predicate HoldPair(f: Func, a: BlockId, b: BlockId) {
    && a < |f.blocks| && b < |f.blocks|
    && exists i, d :: i in f.blocks[a] && IsInc(i) && d in f.blocks[b] && IsRelatedDec(i.op.arg, d)
  }

  /** No pair of blocks that the diamond subpass may prune lets execution enter the head
      again before the tail. */
  ghost predicate NoReentry(f: Func) {
    forall a: BlockId, b: BlockId ::
      HoldPair(f, a, b) && a != b && Dominates(f.succ, a, b) && PostDominates(f.succ, b, a)
      && BackwardOk(f.succ, a, {b}, {b}, {})
      ==> !Reenters(f.succ, a, b)
  }

  lemma NoReentryShrinks(f: Func, g: Func)
    requires SameShape(f, g) && NoReentry(f)
    ensures NoReentry(g)
  {
    forall a: BlockId, b: BlockId | HoldPair(g, a, b) ensures HoldPair(f, a, b) {
      var i, d :| i in g.blocks[a] && IsInc(i) && d in g.blocks[b] && IsRelatedDec(i.op.arg, d);
      assert BlockShape(f.blocks[a], g.blocks[a]) && BlockShape(f.blocks[b], g.blocks[b]);
      assert i in f.blocks[a] && d in f.blocks[b];
    }
  }

  ghost predicate AliveCall(f: Func, c: Call) {
    c.bb < |f.blocks| && c.ins in f.blocks[c.bb]
  }

  lemma ShapeKeepsValid(f: Func, g: Func)
    requires f.Valid() && SameShape(f, g)
    ensures g.Valid() && (AllNormal(f) ==> AllNormal(g))
  {
    forall b | 0 <= b < |g.blocks| ensures Distinct(g.blocks[b]) && (Normal(f.blocks[b]) ==> Normal(g.blocks[b])) {
      assert BlockShape(f.blocks[b], g.blocks[b]);
    }
  }

  // ----- listing

  predicate DistinctCalls(list: seq<Call>) {
    forall i, j :: 0 <= i < j < |list| ==> list[i] != list[j]
  }

  /** The refops of one block that pass the test, in order. */
  ghost function CallsIn(bb: BlockId, s: Block, test: Instr -> bool): seq<Call> {
    if s == [] then []
    else CallsIn(bb, s[..|s| - 1], test)
         + if IsRefOp(s[|s| - 1]) && test(s[|s| - 1]) then [Call(bb, s[|s| - 1])] else []
  }

  /** The refops of the first `n` blocks that pass the test, in order. */
  ghost function CallsOf(bs: seq<Block>, n: nat, test: Instr -> bool): seq<Call>
    requires n <= |bs|
  {
    if n == 0 then [] else CallsOf(bs, n - 1, test) + CallsIn(n - 1, bs[n - 1], test)
  }

  lemma {:induction false} CallsInMembers(bb: BlockId, s: Block, test: Instr -> bool)
    requires Distinct(s)
    ensures DistinctCalls(CallsIn(bb, s, test))
    ensures forall c :: c in CallsIn(bb, s, test) <==> c.bb == bb && c.ins in s && IsRefOp(c.ins) && test(c.ins)
    decreases |s|
  {
    if s != [] {
      var t, y := s[..|s| - 1], s[|s| - 1];
      assert s == t + [y] && y !in t;
      CallsInMembers(bb, t, test);
    }
  }

  lemma {:induction false} CallsOfMembers(bs: seq<Block>, n: nat, test: Instr -> bool)
    requires n <= |bs| && forall b :: 0 <= b < n ==> Distinct(bs[b])
    ensures DistinctCalls(CallsOf(bs, n, test))
    ensures forall c :: c in CallsOf(bs, n, test) <==> c.bb < n && c.ins in bs[c.bb] && IsRefOp(c.ins) && test(c.ins)
  {
    if n > 0 {
      CallsOfMembers(bs, n - 1, test);
      CallsInMembers(n - 1, bs[n - 1], test);
    }
  }

  /** The calls stand in program order: block by block, and in one block by position. */
  ghost predicate InProgramOrder(bs: seq<Block>, list: seq<Call>) {
    forall i, j :: 0 <= i < j < |list| ==>
      && list[j].bb < |bs|
      && (list[i].bb < list[j].bb
          || (list[i].bb == list[j].bb && Precedes(bs[list[j].bb], list[i].ins, list[j].ins)))
  }

  lemma PrecedesLater(s: Block, x: Instr, y: Instr)
    requires s != [] && Precedes(s[..|s| - 1], x, y)
    ensures Precedes(s, x, y)
  {
    var t := s[..|s| - 1];
    assert s == t + [s[|s| - 1]];
    assert s[..IndexOf(t, x)] == t[..IndexOf(t, x)] && s[..IndexOf(t, y)] == t[..IndexOf(t, y)];
    IndexIsFirst(s, x, IndexOf(t, x));
    IndexIsFirst(s, y, IndexOf(t, y));
  }

  lemma PrecedesLast(s: Block, x: Instr)
    requires Distinct(s) && s != [] && x in s[..|s| - 1]
    ensures Precedes(s, x, s[|s| - 1])
  {
    var t := s[..|s| - 1];
    assert s[..IndexOf(t, x)] == t[..IndexOf(t, x)];
    IndexIsFirst(s, x, IndexOf(t, x));
    IndexIsFirst(s, s[|s| - 1], |s| - 1);
  }

  lemma {:induction false} CallsInOrder(bb: BlockId, s: Block, test: Instr -> bool)
    requires Distinct(s)
    ensures forall i, j :: 0 <= i < j < |CallsIn(bb, s, test)| ==>
              Precedes(s, CallsIn(bb, s, test)[i].ins, CallsIn(bb, s, test)[j].ins)
    decreases |s|
  {
    if s != [] {
      var t := s[..|s| - 1];
      var list, more := CallsIn(bb, s, test), CallsIn(bb, t, test);
      CallsInOrder(bb, t, test);
      CallsInMembers(bb, t, test);
      forall i, j | 0 <= i < j < |list| ensures Precedes(s, list[i].ins, list[j].ins) {
        if j < |more| {
          PrecedesLater(s, more[i].ins, more[j].ins);
        } else {
          assert more[i] in more;
          PrecedesLast(s, more[i].ins);
        }
      }
    }
  }

  lemma OrderedConcat(bs: seq<Block>, first: seq<Call>, last: seq<Call>, n: nat)
    requires n < |bs| && InProgramOrder(bs, first)
    requires (forall c :: c in first ==> c.bb < n) && (forall c :: c in last ==> c.bb == n)
    requires forall i, j :: 0 <= i < j < |last| ==> Precedes(bs[n], last[i].ins, last[j].ins)
    ensures InProgramOrder(bs, first + last)
  {
    var list := first + last;
    forall i, j | 0 <= i < j < |list|
      ensures list[j].bb < |bs|
      ensures list[i].bb < list[j].bb
              || (list[i].bb == list[j].bb && Precedes(bs[list[j].bb], list[i].ins, list[j].ins))
    {
      if j >= |first| {
        assert last[j - |first|] in last;
        if i < |first| {
          assert first[i] in first;
        } else {
          assert last[i - |first|] in last;
        }
      }
    }
  }

  lemma {:induction false} CallsOfOrder(bs: seq<Block>, n: nat, test: Instr -> bool)
    requires n <= |bs| && forall b :: 0 <= b < n ==> Distinct(bs[b])
    ensures InProgramOrder(bs, CallsOf(bs, n, test))
  {
    if n > 0 {
      CallsOfOrder(bs, n - 1, test);
      LastBlockInOrder(bs, n - 1, test);
    }
  }

  lemma LastBlockInOrder(bs: seq<Block>, n: nat, test: Instr -> bool)
    requires n < |bs| && forall b :: 0 <= b <= n ==> Distinct(bs[b])
    requires InProgramOrder(bs, CallsOf(bs, n, test))
    ensures InProgramOrder(bs, CallsOf(bs, n, test) + CallsIn(n, bs[n], test))
  {
    CallsOfMembers(bs, n, test);
    CallsInOrder(n, bs[n], test);
    CallsInMembers(n, bs[n], test);
    OrderedConcat(bs, CallsOf(bs, n, test), CallsIn(n, bs[n], test), n);
  }

  method ListBlock(bb: BlockId, s: Block, test: Instr -> bool, list: seq<Call>) returns (more: seq<Call>)
    ensures more == list + CallsIn(bb, s, test)
  {
    more := list;
    for i := 0 to |s|
      invariant more == list + CallsIn(bb, s[..i], test)
    {
      assert s[..i + 1][..i] == s[..i];
      if IsRefOp(s[i]) && test(s[i]) {
        more := more + [Call(bb, s[i])];
      }
    }
    assert s[..|s|] == s;
  }

  /** All refops of the function that pass the test, each once, block by block in order. */
  method ListRefOps(f: Func, test: Instr -> bool) returns (list: seq<Call>)
    requires f.Valid()
    ensures list == CallsOf(f.blocks, |f.blocks|, test)
    ensures DistinctCalls(list) && InProgramOrder(f.blocks, list)
    ensures forall c :: c in list <==> AliveCall(f, c) && IsRefOp(c.ins) && test(c.ins)
  {
    list := [];
    for b := 0 to |f.blocks|
      invariant list == CallsOf(f.blocks, b, test)
    {
      list := ListBlock(b, f.blocks[b], test, list);
    }
    CallsOfMembers(f.blocks, |f.blocks|, test);
    CallsOfOrder(f.blocks, |f.blocks|, test);
  }

  // ----- erasing

  /** `t` is `s` without its first decref of `arg`. */
  ghost predicate ErasedFirst(arg: Arg, s: Block, t: Block) {
    exists k: nat :: k < |s| && IsRelatedDec(arg, s[k]) && !HasRelatedDec(arg, s[..k]) && t == EraseAt(s, k)
  }

  method EraseFirstRelated(arg: Arg, s: Block) returns (t: Block)
    requires HasRelatedDec(arg, s)
    ensures ErasedFirst(arg, s, t)
    ensures forall i, j :: 0 <= i < j < |s| && IsRelatedDec(arg, s[i]) && IsRelatedDec(arg, s[j]) ==> s[j] in t
  {
    var k: nat := 0;
    while !IsRelatedDec(arg, s[k])
      invariant k < |s| && forall j :: 0 <= j < k ==> !IsRelatedDec(arg, s[j])
      decreases |s| - k
    {
      k := k + 1;
    }
    t := EraseAt(s, k);
    assert forall j :: k < j < |s| ==> t[j - 1] == s[j];
  }

  lemma ErasedFirstProps(arg: Arg, s: Block, t: Block)
    requires ErasedFirst(arg, s, t)
    ensures ErasedOne(s, t, Dec(arg)) && RefOps(t) == RefOps(s) - 1
    ensures forall x :: x in s && IsInc(x) ==> x in t
  {
    var k: nat :| k < |s| && IsRelatedDec(arg, s[k]) && !HasRelatedDec(arg, s[..k]) && t == EraseAt(s, k);
    assert s[k].op == Dec(arg);
    assert ErasedOne(s, t, Dec(arg));
    ErasedOneShape(s, t, Dec(arg));
    OthersStay(s, k);
  }

  lemma OthersStay(s: Block, k: nat)
    requires k < |s|
    ensures forall x :: x in s && x != s[k] ==> x in EraseAt(s, k)
  {
    assert s == s[..k] + [s[k]] + s[k + 1..];
  }

  /** What pruning one fan-out does to the blocks of a function. */
  ghost predicate FanoutErased(bs: seq<Block>, cs: seq<Block>, c: Call, decs: set<BlockId>) {
    && |cs| == |bs| && c.bb < |bs| && c.ins in bs[c.bb] && IsInc(c.ins)
    && cs[c.bb] == Erase(bs[c.bb], c.ins)
    && (forall b :: b in decs ==> b < |bs| && ErasedFirst(c.ins.op.arg, bs[b], cs[b]))
    && (forall b :: 0 <= b < |bs| && b != c.bb && b !in decs ==> cs[b] == bs[b])
  }

  lemma FanoutErasedIsErases(f: Func, g: Func, c: Call, decs: set<BlockId>)
    requires f.Valid() && f.succ == g.succ && FanoutErased(f.blocks, g.blocks, c, decs) && c.bb !in decs
    ensures Erases(f, g, c.bb, decs, c.ins.op.arg)
  {
    EraseIsErasedOne(f.blocks[c.bb], c.ins);
    assert c.ins.op == Inc(c.ins.op.arg);
    forall b | b in decs ensures ErasedOne(f.blocks[b], g.blocks[b], Dec(c.ins.op.arg)) {
      ErasedFirstProps(c.ins.op.arg, f.blocks[b], g.blocks[b]);
    }
  }

  lemma FanoutErasedKeepsAlive(f: Func, g: Func, c: Call, decs: set<BlockId>, d: Call)
    requires f.Valid() && FanoutErased(f.blocks, g.blocks, c, decs) && c.bb !in decs
    requires AliveCall(f, d) && IsInc(d.ins) && d != c
    ensures AliveCall(g, d)
  {
    if d.bb == c.bb {
      EraseMembers(f.blocks[c.bb], c.ins);
    } else if d.bb in decs {
      ErasedFirstProps(c.ins.op.arg, f.blocks[d.bb], g.blocks[d.bb]);
    }
  }

  lemma FanoutErasedOnlyErases(bs: seq<Block>, cs: seq<Block>, c: Call, decs: set<BlockId>)
    requires FanoutErased(bs, cs, c, decs) && forall b :: 0 <= b < |bs| ==> Distinct(bs[b])
    ensures OnlyErases(bs, cs)
  {
    forall b | 0 <= b < |bs| ensures Remains(bs[b], cs[b]) {
      if b in decs {
        var k: nat :| k < |bs[b]| && IsRelatedDec(c.ins.op.arg, bs[b][k]) && cs[b] == EraseAt(bs[b], k);
        EraseAtRemains(bs[b], k);
      } else if b == c.bb {
        EraseRemains(bs[b], c.ins);
      } else {
        RemainsRefl(bs[b]);
      }
    }
  }

  // ----- what a finished pass leaves behind

  ghost predicate PerBlockDone(f: Func) {
    forall b :: 0 <= b < |f.blocks| ==> PerBlockPrune.Settled(f.blocks[b])
  }

  /** The per-block subpass erases from every block until it is settled, and keeps balances. */
  ghost predicate PerBlockPassed(f: Func, g: Func) {
    && OnlyErases(f.blocks, g.blocks) && PerBlockDone(g)
    && forall b :: 0 <= b < |g.blocks| ==>
         PerBlockPrune.SameNet(f.blocks[b], g.blocks[b]) && PerBlockPrune.KeepsOuter(f.blocks[b], g.blocks[b])
  }

  /** No refop on null is left. */
  ghost predicate NoNulls(bs: seq<Block>) {
    forall b, x :: 0 <= b < |bs| && x in bs[b] ==> x.op != Inc(NullPtr) && x.op != Dec(NullPtr)
  }

  lemma PerBlockLeaves(f: Func, g: Func)
    requires PerBlockPassed(f, g)
    ensures PerBlockPrune.WithinSurplus(f.blocks, g.blocks) && NoNulls(g.blocks)
  {
    forall b, v: nat | 0 <= b < |f.blocks|
      ensures PerBlockPrune.CountOps(g.blocks[b], Inc(Val(v)))
              == PerBlockPrune.Surplus(PerBlockPrune.CountOps(f.blocks[b], Inc(Val(v))),
                                       PerBlockPrune.CountOps(f.blocks[b], Dec(Val(v))))
      ensures PerBlockPrune.CountOps(g.blocks[b], Dec(Val(v)))
              == PerBlockPrune.Surplus(PerBlockPrune.CountOps(f.blocks[b], Dec(Val(v))),
                                       PerBlockPrune.CountOps(f.blocks[b], Inc(Val(v))))
    {
      PerBlockPrune.SurplusRemains(f.blocks[b], g.blocks[b], v);
    }
    forall b, x | 0 <= b < |g.blocks| && x in g.blocks[b] ensures !IsNullOp(x) {
      assert PerBlockPrune.Settled(g.blocks[b]);
    }
  }

  lemma NullsStayGone(bs: seq<Block>, cs: seq<Block>)
    requires NoNulls(bs) && OnlyErases(bs, cs)
    ensures NoNulls(cs)
  {
    forall b, x | 0 <= b < |cs| && x in cs[b] ensures x in bs[b] {
      assert Remains(bs[b], cs[b]);
      var m :| cs[b] == Without(bs[b], m) && AreRefOps(m);
      WithoutMembers(bs[b], m);
    }
  }

  /** The tests of the diamond subpass, with dominance as the tables have it. */
  ghost predicate PairAccepted(f: Func, t: Trees, head: BlockId, tail: BlockId) {
    && head < |f.succ| && tail < |f.succ| && head != tail && (head, tail) in t.dt && (tail, head) in t.pdt
    && BackwardOk(f.succ, head, {tail}, {tail}, {}) && !DecrefBetween(f, head, tail)
  }

  ghost predicate DiamondDone(f: Func, t: Trees) {
    forall c, d :: AliveCall(f, c) && AliveCall(f, d) && IsInc(c.ins) && IsRelatedDec(c.ins.op.arg, d.ins)
      ==> !PairAccepted(f, t, c.bb, d.bb)
  }

  /** With exact tables the subpass is done when no diamond is left. */
  lemma DoneExactly(f: Func, t: Trees)
    requires f.Valid() && ExactTrees(f.succ, t)
    ensures DiamondDone(f, t)
            <==> forall c, d :: AliveCall(f, c) && AliveCall(f, d) && IsInc(c.ins) && IsRelatedDec(c.ins.op.arg, d.ins)
                   ==> !DiamondHolds(f, c.bb, d.bb)
  {
    forall a: BlockId, b: BlockId | a < |f.succ| && b < |f.succ|
      ensures PairAccepted(f, t, a, b) <==> DiamondHolds(f, a, b)
    {
    }
  }

  /** Some incref of `b` fails the fan-out condition, or a limit stops searches from `b`. */
  ghost predicate HeadRefused(f: Func, raise: bool, limit: nat, b: BlockId)
    requires f.Valid() && b < |f.blocks|
  {
    LimitHit(f, b, raise, limit) || exists x :: x in f.blocks[b] && IsInc(x) && !FanoutHolds(f, b, x.op.arg, raise)
  }

  ghost predicate FanoutDone(f: Func, raise: bool, limit: nat)
    requires f.Valid()
  {
    forall b :: 0 <= b < |f.blocks| && HasInc(f.blocks[b]) && !HasDec(f.blocks[b]) ==> HeadRefused(f, raise, limit, b)
  }

  /** The incref `c` has a fan-out, and no search limit applies to its block. */
  ghost predicate Acceptable(f: Func, c: Call, raise: bool, limit: nat) {
    && c.bb < |f.succ| && IsInc(c.ins) && FanoutHolds(f, c.bb, c.ins.op.arg, raise)
    && !LimitHit(f, c.bb, raise, limit)
  }

  ghost predicate ForwardFails(f: Func, c: Call, raise: bool) {
    IsInc(c.ins) && !ForwardHolds(f, c.bb, c.ins.op.arg, raise)
  }

  /** An earlier incref of the same block fails the forward condition. */
  ghost predicate Spoiled(f: Func, increfs: seq<Call>, k: nat, raise: bool) {
    k < |increfs| && exists i :: 0 <= i < k && increfs[i].bb == increfs[k].bb && ForwardFails(f, increfs[i], raise)
  }

  ghost predicate Skips(f: Func, c: Call, bad: set<BlockId>) {
    c.bb in bad || (c.bb < |f.blocks| && HasDec(f.blocks[c.bb]))
  }

  /** The first `k` rounds erase nothing: every incref is in a block with a decref, comes
      after one of its block that fails the forward condition, or is not acceptable. */
  ghost predicate Idle(f: Func, increfs: seq<Call>, k: nat, raise: bool, limit: nat) {
    k <= |increfs| && forall j: nat :: j < k ==> IdleAt(f, increfs, j, raise, limit)
  }

  ghost predicate IdleAt(f: Func, increfs: seq<Call>, j: nat, raise: bool, limit: nat) {
    && j < |increfs|
    && (Skips(f, increfs[j], {}) || Spoiled(f, increfs, j, raise) || !Acceptable(f, increfs[j], raise, limit))
  }

  ghost predicate FanoutIdle(f: Func, raise: bool, limit: nat) {
    Idle(f, Increfs(f), |Increfs(f)|, raise, limit)
  }

  /** A function in the course of pruning, with the statistics so far. */
  datatype Moment = Moment(body: Func, perBB: nat, diamond: nat, fanout: nat, fanoutRaise: nat)

  /** Each element leads to the next. */
  ghost predicate Linked<T(!new)>(log: seq<T>, r: (T, T) -> bool) {
    log != [] && forall i, j :: 0 <= i && j == i + 1 && j < |log| ==> r(log[i], log[j])
  }

  lemma LinkOneMore<T(!new)>(log: seq<T>, r: (T, T) -> bool, x: T)
    requires Linked(log, r) && r(log[|log| - 1], x)
    ensures Linked(log + [x], r)
  {
  }

  class Pruner {
    const trees: Trees
    const flags: Subpasses
    const subgraphLimit: nat
    var statsPerBB: nat
    var statsDiamond: nat
    var statsFanout: nat
    var statsFanoutRaise: nat

    constructor (trees: Trees, flags: Subpasses, subgraphLimit: nat)
      ensures this.trees == trees && this.flags == flags && this.subgraphLimit == subgraphLimit
      ensures statsPerBB == 0 && statsDiamond == 0 && statsFanout == 0 && statsFanoutRaise == 0
    {
      this.trees, this.flags, this.subgraphLimit := trees, flags, subgraphLimit;
      statsPerBB, statsDiamond, statsFanout, statsFanoutRaise := 0, 0, 0, 0;
    }

    function Erased(): nat
      reads this
    {
      statsPerBB + statsDiamond + statsFanout + statsFanoutRaise
    }

    ghost function Now(fn: Function): Moment
      reads this, fn
    {
      Moment(fn.Body(), statsPerBB, statsDiamond, statsFanout, statsFanoutRaise)
    }

    // ----- what each subpass does in its turn

    ghost predicate PerBBTurn(s: Moment, t: Moment) {
      if !flags.perBB then t == s else
        && t == s.(body := t.body, perBB := t.perBB) && PerBlockPassed(s.body, t.body)
        && TotalRefOps(t.body.blocks) + t.perBB == TotalRefOps(s.body.blocks) + s.perBB
    }

    ghost predicate DiamondTurn(s: Moment, t: Moment) {
      if !flags.diamond then t == s else
        && t == s.(body := t.body, diamond := t.diamond)
        && OnlyErases(s.body.blocks, t.body.blocks) && DiamondsCleared(s.body, t.body, trees)
        && (t.body == s.body <==> DiamondDone(s.body, trees))
        && TotalRefOps(t.body.blocks) + t.diamond == TotalRefOps(s.body.blocks) + s.diamond
    }

    ghost predicate FanoutTurn(s: Moment, t: Moment, raise: bool) {
      if !FanoutEnabled(raise) then t == s else
        && t == (if raise then s.(body := t.body, fanoutRaise := t.fanoutRaise)
                 else s.(body := t.body, fanout := t.fanout))
        && OnlyErases(s.body.blocks, t.body.blocks) && AllFanoutRounds(s.body, t.body, raise, subgraphLimit)
        && TotalRefOps(t.body.blocks) + t.fanout + t.fanoutRaise
           == TotalRefOps(s.body.blocks) + s.fanout + s.fanoutRaise
    }

    /** The subpasses have run in this order, each on what the one before has left. */
    ghost predicate InTurn(s: Moment, a: Moment, b: Moment, c: Moment, t: Moment) {
      PerBBTurn(s, a) && DiamondTurn(a, b) && FanoutTurn(b, c, false) && FanoutTurn(c, t, true)
    }

    ghost predicate OneRound(s: Moment, t: Moment) {
      exists a, b, c :: InTurn(s, a, b, c, t)
    }

    ghost predicate ErasingRound(s: Moment, t: Moment) {
      OneRound(s, t) && t.body != s.body
    }

    /** Rounds that each erased something lead from `s` to `t`. */
    ghost predicate RoundsBetween(s: Moment, t: Moment) {
      exists log :: Linked(log, ErasingRound) && log[0] == s && log[|log| - 1] == t
    }

    lemma NoRoundYet(s: Moment)
      ensures RoundsBetween(s, s)
    {
      assert Linked([s], ErasingRound);
    }

    lemma AnotherRound(s: Moment, t: Moment, u: Moment)
      requires RoundsBetween(s, t) && ErasingRound(t, u)
      ensures RoundsBetween(s, u)
    {
      var log :| Linked(log, ErasingRound) && log[0] == s && log[|log| - 1] == t;
      LinkOneMore(log, ErasingRound, u);
      assert (log + [u])[0] == s && (log + [u])[|log|] == u;
    }

    /** Per-block subpass: settles every block. */
    method RunPerBasicBlockPrune(fn: Function) returns (mutated: bool)
      requires fn.Body().Valid() && AllNormal(fn.Body())
      modifies fn, this`statsPerBB
      ensures Safe(old(fn.Body()), fn.Body(), true) && AllNormal(fn.Body())
      ensures PerBlockPassed(old(fn.Body()), fn.Body())
      ensures forall b, x :: 0 <= b < |fn.blocks| && x in fn.blocks[b] ==>
                x.op != Inc(NullPtr) && x.op != Dec(NullPtr)
      ensures TotalRefOps(fn.blocks) + statsPerBB == old(TotalRefOps(fn.blocks) + statsPerBB)
      ensures mutated <==> statsPerBB > old(statsPerBB)
      ensures mutated <==> !PerBlockDone(old(fn.Body()))
      ensures !mutated ==> fn.blocks == old(fn.blocks)
    {
      mutated := false;
      ghost var f := fn.Body();
      for b := 0 to |fn.blocks|
        invariant PerBlockProgress(f.blocks, fn.blocks, b, statsPerBB - old(statsPerBB))
        invariant TotalRefOps(fn.blocks) + statsPerBB == TotalRefOps(f.blocks) + old(statsPerBB)
        invariant mutated <==> statsPerBB > old(statsPerBB)
      {
        ghost var erased;
        var t, pruned;
        t, pruned, erased := PerBlockPrune.PruneBlock(fn.blocks[b]);
        BlockPruned(fn.blocks[b], t, erased);
        PerBlockStep(f.blocks, fn.blocks, b, statsPerBB - old(statsPerBB), t, pruned);
        TotalRefOpsUpdate(fn.blocks, b, t);
        fn.blocks := fn.blocks[b := t];
        statsPerBB := statsPerBB + pruned;
        mutated := mutated || pruned > 0;
      }
      PerBlockFinished(f, fn.Body(), statsPerBB - old(statsPerBB));
      PerBlockLeaves(f, fn.Body());
    }

    /** The first live decref with which `incref` forms an accepted diamond. */
    method FindDiamondTail(f: Func, incref: Call, decrefs: seq<Slot>) returns (i: nat)
      requires f.Valid() && AliveCall(f, incref) && IsInc(incref.ins)
      requires forall k :: 0 <= k < |decrefs| && decrefs[k].Live? ==> AliveCall(f, decrefs[k].call)
      ensures i <= |decrefs|
      ensures i < |decrefs| ==> Qualifies(f, trees, incref, decrefs[i])
      ensures forall k :: 0 <= k < i ==> !Qualifies(f, trees, incref, decrefs[k])
    {
      i := 0;
      while i < |decrefs|
        invariant i <= |decrefs|
        invariant forall k :: 0 <= k < i ==> !Qualifies(f, trees, incref, decrefs[k])
      {
        if decrefs[i].Live? {
          var decref := decrefs[i].call;
          if decref.bb != incref.bb && IsRelatedDec(incref.ins.op.arg, decref.ins)
             && (incref.bb, decref.bb) in trees.dt && (decref.bb, incref.bb) in trees.pdt
          {
            var single := VerifyFanoutBackward(f, incref.bb, {decref.bb}, false);
            if single {
              var between := HasDecrefBetweenGraph(f, incref.bb, decref.bb);
              if !between {
                return;
              }
            }
          }
        }
        i := i + 1;
      }
    }

    /** Diamond subpass. */
    method RunDiamondPrune(fn: Function) returns (mutated: bool)
      requires fn.Body().Valid() && AllNormal(fn.Body())
      modifies fn, this`statsDiamond
      ensures DiamondPruned(old(fn.Body()), fn.Body(), trees)
      ensures forall c, d :: AliveCall(fn.Body(), c) && AliveCall(fn.Body(), d)
                             && IsInc(c.ins) && IsRelatedDec(c.ins.op.arg, d.ins)
                ==> !PairAccepted(old(fn.Body()), trees, c.bb, d.bb)
      ensures TotalRefOps(fn.blocks) + statsDiamond == old(TotalRefOps(fn.blocks) + statsDiamond)
      ensures mutated <==> statsDiamond > old(statsDiamond)
      ensures mutated <==> !DiamondDone(old(fn.Body()), trees)
      ensures !mutated ==> fn.blocks == old(fn.blocks)
    {
      mutated := false;
      ghost var f := fn.Body();
      var increfs, decs, decrefs := ListPairs(fn.Body());
      ghost var all := decrefs;
      DiamondStart(f, trees, increfs, decs, all);
      for k := 0 to |increfs|
        invariant DiamondProgress(f, fn.Body(), trees, increfs, k, decrefs)
        invariant TotalRefOps(fn.blocks) + statsDiamond == TotalRefOps(f.blocks) + old(statsDiamond)
        invariant statsDiamond >= old(statsDiamond) && (mutated <==> statsDiamond > old(statsDiamond))
        invariant !mutated ==> fn.blocks == f.blocks && decrefs == all
        invariant mutated <==> AnyTail(f, trees, increfs, k, all)
        invariant ClearedSoFar(f, fn.Body(), trees, increfs, k, decrefs)
      {
        var hit;
        hit, decrefs := PruneDiamond(fn, f, increfs, k, decrefs);
        mutated := mutated || hit;
      }
      DiamondFixpoint(f, trees, increfs, decs, all);
      AllCleared(f, fn.Body(), trees, increfs, decs, all, decrefs);
    }

    /** Searches the diamond of one incref and erases the pair. */
    method PruneDiamond(fn: Function, ghost f: Func, increfs: seq<Call>, k: nat, decrefs: seq<Slot>)
      returns (hit: bool, left: seq<Slot>)
      requires k < |increfs| && DiamondProgress(f, fn.Body(), trees, increfs, k, decrefs)
      requires ClearedSoFar(f, fn.Body(), trees, increfs, k, decrefs)
      modifies fn, this`statsDiamond
      ensures DiamondProgress(f, fn.Body(), trees, increfs, k + 1, left)
      ensures ClearedSoFar(f, fn.Body(), trees, increfs, k + 1, left)
      ensures hit <==> HasTail(old(fn.Body()), trees, increfs[k], decrefs)
      ensures statsDiamond == old(statsDiamond) + if hit then 2 else 0
      ensures TotalRefOps(fn.blocks) + statsDiamond == old(TotalRefOps(fn.blocks) + statsDiamond)
      ensures !hit ==> fn.blocks == old(fn.blocks) && left == decrefs
    {
      var incref := increfs[k];
      var i := FindDiamondTail(fn.Body(), incref, decrefs);
      hit, left := i < |decrefs|, decrefs;
      if hit {
        var decref := decrefs[i].call;
        ghost var g := fn.Body();
        EraseDiamondPair(fn, incref, decref);
        DiamondStep(f, g, fn.Body(), trees, increfs, k, decrefs, i);
        ClearedByErasing(f, g, fn.Body(), trees, increfs, k, decrefs, i);
        left := decrefs[i := Gone];
        statsDiamond := statsDiamond + 2;
      } else {
        DiamondSkip(f, fn.Body(), trees, increfs, k, decrefs);
        ClearedBySearching(f, fn.Body(), trees, increfs, k, decrefs);
      }
    }

    /** Erases the incref and the first related decref of every block in `decs`. */
    method PruneFanout(fn: Function, c: Call, decs: set<BlockId>, raise: bool)
      requires fn.Body().Valid() && AliveCall(fn.Body(), c) && IsInc(c.ins) && c.bb !in decs
      requires AllRelated(c.ins.op.arg, fn.blocks, decs)
      modifies fn, this`statsFanout, this`statsFanoutRaise
      ensures FanoutErased(old(fn.blocks), fn.blocks, c, decs)
      ensures TotalRefOps(fn.blocks) == old(TotalRefOps(fn.blocks)) - |decs| - 1
      ensures statsFanout == old(statsFanout) + if raise then 0 else |decs| + 1
      ensures statsFanoutRaise == old(statsFanoutRaise) + if raise then |decs| + 1 else 0
    {
      ghost var bs := fn.blocks;
      EraseFanoutDecrefs(fn, c.ins.op.arg, decs, raise);
      ghost var cs := fn.blocks;
      var t := Erase(fn.blocks[c.bb], c.ins);
      EraseCallCount(fn.blocks, c);
      ErasedElsewhere(bs, cs, c, decs, t);
      fn.blocks := fn.blocks[c.bb := t];
      if raise {
        statsFanoutRaise := statsFanoutRaise + 1;
      } else {
        statsFanout := statsFanout + 1;
      }
    }

    /** Erases the first related decref of every block in `decs`. */
    method EraseFanoutDecrefs(fn: Function, arg: Arg, decs: set<BlockId>, raise: bool)
      requires AllRelated(arg, fn.blocks, decs)
      modifies fn, this`statsFanout, this`statsFanoutRaise
      ensures DecrefsErased(arg, old(fn.blocks), fn.blocks, decs)
      ensures TotalRefOps(fn.blocks) == old(TotalRefOps(fn.blocks)) - |decs|
      ensures statsFanout == old(statsFanout) + if raise then 0 else |decs|
      ensures statsFanoutRaise == old(statsFanoutRaise) + if raise then |decs| else 0
    {
      ghost var bs := fn.blocks;
      ghost var done: set<BlockId> := {};
      var left := decs;
      while left != {}
        invariant done !! left && done + left == decs
        invariant DecrefsErased(arg, bs, fn.blocks, done)
        invariant TotalRefOps(fn.blocks) == TotalRefOps(bs) - |done|
        invariant statsFanout == old(statsFanout) + if raise then 0 else |done|
        invariant statsFanoutRaise == old(statsFanoutRaise) + if raise then |done| else 0
        decreases left
      {
        var each :| each in left;
        EraseNext(fn, arg, bs, decs, done, each, raise);
        MoveOne(decs, done, left, each);
        left, done := left - {each}, done + {each};
      }
      assert done == decs;
    }

    method EraseNext(fn: Function, arg: Arg, ghost bs: seq<Block>, ghost decs: set<BlockId>,
                     ghost done: set<BlockId>, each: BlockId, raise: bool)
      requires DecrefsErased(arg, bs, fn.blocks, done) && AllRelated(arg, bs, decs)
      requires each in decs && each !in done
      modifies fn, this`statsFanout, this`statsFanoutRaise
      ensures DecrefsErased(arg, bs, fn.blocks, done + {each})
      ensures TotalRefOps(fn.blocks) == old(TotalRefOps(fn.blocks)) - 1
      ensures statsFanout == old(statsFanout) + if raise then 0 else 1
      ensures statsFanoutRaise == old(statsFanoutRaise) + if raise then 1 else 0
    {
      ghost var cs := fn.blocks;
      Untouched(arg, bs, cs, done, each);
      EraseDecref(fn, arg, each);
      DecrefErased(arg, bs, cs, fn.blocks, done, each);
      if raise {
        statsFanoutRaise := statsFanoutRaise + 1;
      } else {
        statsFanout := statsFanout + 1;
      }
    }

    /** One round of the loop over increfs: skips the incref if its block is marked or holds a
        decref, otherwise tries its fan-out. */
    method PruneFanoutOf(fn: Function, ghost f: Func, increfs: seq<Call>, k: nat, raise: bool, bad: set<BlockId>)
      returns (hit: bool, bad': set<BlockId>)
      requires k < |increfs| && FanoutProgress(f, fn.Body(), increfs, k, raise)
      modifies fn, this`statsFanout, this`statsFanoutRaise
      ensures FanoutProgress(f, fn.Body(), increfs, k + 1, raise)
      ensures TotalRefOps(fn.blocks) + statsFanout + statsFanoutRaise
              == old(TotalRefOps(fn.blocks) + statsFanout + statsFanoutRaise)
      ensures if raise then statsFanout == old(statsFanout) else statsFanoutRaise == old(statsFanoutRaise)
      ensures if hit then TotalRefOps(fn.blocks) < old(TotalRefOps(fn.blocks)) else fn.blocks == old(fn.blocks)
      ensures hit <==> !Skips(old(fn.Body()), increfs[k], bad)
                       && Acceptable(old(fn.Body()), increfs[k], raise, subgraphLimit)
      ensures FanoutRound(old(fn.Body()), increfs[k], fn.Body(), raise, subgraphLimit, bad, bad')
    {
      var incref := increfs[k];
      hit, bad' := false, bad;
      FanoutSkip(f, fn.Body(), increfs, k, raise);
      if incref.bb in bad {
        return;
      }
      if HasDec(fn.blocks[incref.bb]) {
        return;
      }
      ghost var g := fn.Body();
      ghost var decs;
      hit, bad', decs := TryFanout(fn, incref, raise, bad);
      if hit {
        FanoutStep(f, g, fn.Body(), increfs, k, decs, raise);
      }
    }

    /** Searches the fan-out of one incref and prunes it. */
    method TryFanout(fn: Function, incref: Call, raise: bool, bad: set<BlockId>)
      returns (found: bool, bad': set<BlockId>, ghost decs: set<BlockId>)
      requires fn.Body().Valid() && AliveCall(fn.Body(), incref) && IsInc(incref.ins)
      modifies fn, this`statsFanout, this`statsFanoutRaise
      ensures found <==> Acceptable(old(fn.Body()), incref, raise, subgraphLimit)
      ensures MarksSoundly(old(fn.Body()), incref.bb, incref.ins.op.arg, raise, subgraphLimit, bad, bad')
      ensures found ==> FanoutPruned(old(fn.Body()), fn.Body(), incref, decs, raise)
      ensures found ==> TotalRefOps(fn.blocks) == old(TotalRefOps(fn.blocks)) - |decs| - 1
      ensures found ==> statsFanout == old(statsFanout) + if raise then 0 else |decs| + 1
      ensures found ==> statsFanoutRaise == old(statsFanoutRaise) + if raise then |decs| + 1 else 0
      ensures !found ==> fn.blocks == old(fn.blocks) && statsFanout == old(statsFanout)
      ensures !found ==> statsFanoutRaise == old(statsFanoutRaise)
    {
      var decrefs;
      ghost var g := fn.Body();
      found, bad', decrefs := FindFanout(fn.Body(), incref.bb, incref.ins.op.arg, raise, subgraphLimit, bad);
      decs := decrefs;
      if found {
        AcceptedEnds(g, incref.bb, incref.ins.op.arg, raise);
        PruneFanout(fn, incref, decrefs, raise);
      }
    }

    method NextFanout(fn: Function, ghost f: Func, increfs: seq<Call>, k: nat, raise: bool, bad: set<BlockId>,
                      mutated: bool)
      returns (mutated': bool, bad': set<BlockId>)
      requires k < |increfs| && Progress(fn.Body(), bad, mutated) in AfterRounds(f, increfs, k, raise, subgraphLimit)
      modifies fn, this`statsFanout, this`statsFanoutRaise
      ensures Progress(fn.Body(), bad', mutated') in AfterRounds(f, increfs, k + 1, raise, subgraphLimit)
      ensures TotalRefOps(fn.blocks) + statsFanout + statsFanoutRaise
              == old(TotalRefOps(fn.blocks) + statsFanout + statsFanoutRaise)
      ensures if raise then statsFanout == old(statsFanout) else statsFanoutRaise == old(statsFanoutRaise)
    {
      var hit;
      ghost var g := fn.Body();
      hit, bad' := PruneFanoutOf(fn, f, increfs, k, raise, bad);
      FanoutNext(f, g, fn.Body(), increfs, k, bad, bad', mutated, hit, raise, subgraphLimit);
      mutated' := mutated || hit;
    }

    /** Fan-out subpass, with or without raises. */
    method RunFanoutPrune(fn: Function, pruneRaise: bool) returns (mutated: bool)
      requires fn.Body().Valid() && AllNormal(fn.Body())
      modifies fn, this`statsFanout, this`statsFanoutRaise
      ensures FanoutPassed(old(fn.Body()), fn.Body(), pruneRaise)
      ensures TotalRefOps(fn.blocks) + statsFanout + statsFanoutRaise
              == old(TotalRefOps(fn.blocks) + statsFanout + statsFanoutRaise)
      ensures if pruneRaise then statsFanout == old(statsFanout) else statsFanoutRaise == old(statsFanoutRaise)
      ensures mutated <==> TotalRefOps(fn.blocks) < old(TotalRefOps(fn.blocks))
      ensures mutated <==> !FanoutIdle(old(fn.Body()), pruneRaise, subgraphLimit)
      ensures AllFanoutRounds(old(fn.Body()), fn.Body(), pruneRaise, subgraphLimit)
      ensures DecBlocks(old(fn.Body())) == {} ==> !mutated
      ensures pruneRaise && RaisingBlocks(old(fn.Body())) == {} ==> !mutated
      ensures !mutated ==> fn.blocks == old(fn.blocks) && FanoutDone(fn.Body(), pruneRaise, subgraphLimit)
    {
      ghost var f := fn.Body();
      var increfs := ListIncrefs(fn.Body(), pruneRaise, subgraphLimit);
      ghost var bad;
      mutated, bad := PruneFanouts(fn, f, increfs, pruneRaise);
      FanoutFixpoint(f, fn.Body(), increfs, bad, mutated, pruneRaise, subgraphLimit);
    }

    /** The loop over the listed increfs. */
    method PruneFanouts(fn: Function, ghost f: Func, increfs: seq<Call>, raise: bool)
      returns (mutated: bool, bad: set<BlockId>)
      requires fn.Body() == f && Progress(f, {}, false) in AfterRounds(f, increfs, 0, raise, subgraphLimit)
      modifies fn, this`statsFanout, this`statsFanoutRaise
      ensures Progress(fn.Body(), bad, mutated) in AfterRounds(f, increfs, |increfs|, raise, subgraphLimit)
      ensures TotalRefOps(fn.blocks) + statsFanout + statsFanoutRaise
              == old(TotalRefOps(fn.blocks) + statsFanout + statsFanoutRaise)
      ensures if raise then statsFanout == old(statsFanout) else statsFanoutRaise == old(statsFanoutRaise)
    {
      mutated, bad := false, {};
      for k := 0 to |increfs|
        invariant Progress(fn.Body(), bad, mutated) in AfterRounds(f, increfs, k, raise, subgraphLimit)
        invariant TotalRefOps(fn.blocks) + statsFanout + statsFanoutRaise
                  == old(TotalRefOps(fn.blocks) + statsFanout + statsFanoutRaise)
        invariant if raise then statsFanout == old(statsFanout) else statsFanoutRaise == old(statsFanoutRaise)
      {
        mutated, bad := NextFanout(fn, f, increfs, k, raise, bad, mutated);
      }
    }

    /** The whole pruner: rounds of the enabled subpasses until a round erases nothing.  It
        reports a mutation exactly if some subpass would erase something, and leaves none
        that would: a second run reports none. */
    method RunOnFunction(fn: Function) returns (mutated: bool)
      requires fn.Body().Valid() && AllNormal(fn.Body())
      modifies fn, this
      ensures SameShape(old(fn.Body()), fn.Body()) && fn.Body().Valid() && AllNormal(fn.Body())
      ensures Premises(old(fn.Body())) ==> Safe(old(fn.Body()), fn.Body(), !flags.fanoutRaise)
      ensures TotalRefOps(fn.blocks) + Erased() == old(TotalRefOps(fn.blocks) + Erased())
      ensures mutated <==> Erased() > old(Erased())
      ensures RoundDone(fn.Body())
      ensures mutated <==> !RoundIdle(old(fn.Body()))
      ensures RoundIdle(fn.Body())
      ensures RoundsBetween(old(Now(fn)), Now(fn)) && OnlyErases(old(fn.blocks), fn.blocks)
      ensures flags.perBB ==> PerBlockPrune.WithinSurplus(old(fn.blocks), fn.blocks)
      ensures flags.perBB ==> NoNulls(fn.blocks)
    {
      mutated := false;
      ghost var f, s := fn.Body(), Now(fn);
      ghost var some := false;
      var again := true;
      SafeRefl(f, !flags.fanoutRaise);
      OnlyErasesRefl(f.blocks);
      NoRoundYet(s);
      while again
        invariant Kept(f, fn.Body())
        invariant TotalRefOps(fn.blocks) + Erased() == TotalRefOps(f.blocks) + old(Erased())
        invariant TotalRefOps(fn.blocks) <= TotalRefOps(f.blocks)
        invariant mutated <==> TotalRefOps(fn.blocks) < TotalRefOps(f.blocks)
        invariant !again ==> RoundIdle(fn.Body())
        invariant !mutated ==> fn.Body() == f
        invariant mutated ==> !RoundIdle(f)
        invariant RoundsRun(s, Now(fn), some) && (some || again)
        decreases TotalRefOps(fn.blocks), again
      {
        again := NextRound(fn, f, s, some);
        mutated := mutated || again;
        some := true;
      }
      IdleRoundIsDone(fn.Body());
    }

    /** One more round of the loop. */
    method NextRound(fn: Function, ghost f: Func, ghost s: Moment, ghost some: bool) returns (changed: bool)
      requires Kept(f, fn.Body()) && RoundsRun(s, Now(fn), some)
      modifies fn, this
      ensures Kept(f, fn.Body()) && TotalRefOps(fn.blocks) + Erased() == old(TotalRefOps(fn.blocks) + Erased())
      ensures if changed then TotalRefOps(fn.blocks) < old(TotalRefOps(fn.blocks)) else fn.blocks == old(fn.blocks)
      ensures changed <==> !RoundIdle(old(fn.Body()))
      ensures RoundsRun(s, Now(fn), true)
    {
      ghost var t := Now(fn);
      ghost var a, b, c;
      changed, a, b, c := Round(fn, f);
      RoundFollows(s, t, a, b, c, Now(fn), some);
    }

    ghost predicate Premises(f: Func) {
      (flags.diamond ==> NoReentry(f) && SoundTrees(f.succ, trees)) && (flags.fanoutRaise ==> QuietRaises(f))
    }

    /** `g` is what some rounds have made of `f`. */
    ghost predicate Kept(f: Func, g: Func) {
      && f.Valid() && g.Valid() && AllNormal(g) && SameShape(f, g) && OnlyErases(f.blocks, g.blocks)
      && (Premises(f) ==> Safe(f, g, !flags.fanoutRaise))
    }

    method RoundPerBB(fn: Function, ghost f: Func) returns (changed: bool)
      requires Kept(f, fn.Body())
      modifies fn, this
      ensures Kept(f, fn.Body()) && TotalRefOps(fn.blocks) + Erased() == old(TotalRefOps(fn.blocks) + Erased())
      ensures if changed then TotalRefOps(fn.blocks) < old(TotalRefOps(fn.blocks)) else fn.blocks == old(fn.blocks)
      ensures changed <==> flags.perBB && !PerBlockDone(old(fn.Body()))
      ensures PerBBTurn(old(Now(fn)), Now(fn)) && (!changed ==> Now(fn) == old(Now(fn)))
    {
      changed := false;
      if flags.perBB {
        ghost var g := fn.Body();
        changed := RunPerBasicBlockPrune(fn);
        Extend(f, g, fn.Body(), true, true);
      }
    }

    method RoundDiamond(fn: Function, ghost f: Func) returns (changed: bool)
      requires Kept(f, fn.Body())
      modifies fn, this
      ensures Kept(f, fn.Body()) && TotalRefOps(fn.blocks) + Erased() == old(TotalRefOps(fn.blocks) + Erased())
      ensures if changed then TotalRefOps(fn.blocks) < old(TotalRefOps(fn.blocks)) else fn.blocks == old(fn.blocks)
      ensures changed <==> flags.diamond && !DiamondDone(old(fn.Body()), trees)
      ensures DiamondTurn(old(Now(fn)), Now(fn)) && (!changed ==> Now(fn) == old(Now(fn)))
    {
      changed := false;
      if flags.diamond {
        ghost var g := fn.Body();
        changed := RunDiamondPrune(fn);
        ExtendDiamond(f, g, fn.Body());
      }
    }

    lemma IdleRoundIsDone(f: Func)
      requires f.Valid() && RoundIdle(f)
      ensures RoundDone(f)
    {
      if flags.fanout {
        IdleIsDone(f, false, subgraphLimit);
      }
      if flags.fanoutRaise {
        IdleIsDone(f, true, subgraphLimit);
      }
    }

    lemma ExtendDiamond(f: Func, g: Func, h: Func)
      requires Kept(f, g) && DiamondPruned(g, h, trees) && flags.diamond
      ensures Kept(f, h)
    {
      Extend(f, g, h, NoReentry(g) && SoundTrees(g.succ, trees), true);
    }

    predicate FanoutEnabled(raise: bool) {
      if raise then flags.fanoutRaise else flags.fanout
    }

    method RoundFanout(fn: Function, ghost f: Func, raise: bool) returns (changed: bool)
      requires Kept(f, fn.Body())
      modifies fn, this
      ensures Kept(f, fn.Body()) && TotalRefOps(fn.blocks) + Erased() == old(TotalRefOps(fn.blocks) + Erased())
      ensures if changed then TotalRefOps(fn.blocks) < old(TotalRefOps(fn.blocks)) else fn.blocks == old(fn.blocks)
      ensures changed <==> FanoutEnabled(raise) && !FanoutIdle(old(fn.Body()), raise, subgraphLimit)
      ensures FanoutTurn(old(Now(fn)), Now(fn), raise) && (!changed ==> Now(fn) == old(Now(fn)))
    {
      changed := false;
      if FanoutEnabled(raise) {
        ghost var g := fn.Body();
        changed := RunFanoutPrune(fn, raise);
        ExtendFanout(f, g, fn.Body(), raise);
      }
    }

    lemma ExtendFanout(f: Func, g: Func, h: Func, raise: bool)
      requires Kept(f, g) && FanoutPassed(g, h, raise) && (raise ==> flags.fanoutRaise)
      ensures Kept(f, h)
    {
      Extend(f, g, h, raise ==> QuietRaises(g), !raise);
    }

    /** One round of the enabled subpasses: the per-block one, the diamonds, the fan-outs, and
        the fan-outs with raises. */
    method Round(fn: Function, ghost f: Func)
      returns (changed: bool, ghost perBBDone: Moment, ghost diamondsDone: Moment, ghost fanoutsDone: Moment)
      requires Kept(f, fn.Body())
      modifies fn, this
      ensures Kept(f, fn.Body()) && TotalRefOps(fn.blocks) + Erased() == old(TotalRefOps(fn.blocks) + Erased())
      ensures if changed then TotalRefOps(fn.blocks) < old(TotalRefOps(fn.blocks)) else fn.blocks == old(fn.blocks)
      ensures changed <==> !RoundIdle(old(fn.Body()))
      ensures !changed ==> Now(fn) == old(Now(fn))
      ensures PerBBTurn(old(Now(fn)), perBBDone) && DiamondTurn(perBBDone, diamondsDone)
      ensures FanoutTurn(diamondsDone, fanoutsDone, false) && FanoutTurn(fanoutsDone, Now(fn), true)
    {
      changed := RoundPerBB(fn, f);
      perBBDone := Now(fn);
      var diamond := RoundDiamond(fn, f);
      diamondsDone := Now(fn);
      var fanout := RoundFanout(fn, f, false);
      fanoutsDone := Now(fn);
      var fanoutRaise := RoundFanout(fn, f, true);
      changed := changed || diamond || fanout || fanoutRaise;
    }

    lemma StepOnlyErases(s: Moment, t: Moment, raise: bool)
      requires PerBBTurn(s, t) || DiamondTurn(s, t) || FanoutTurn(s, t, raise)
      ensures OnlyErases(s.body.blocks, t.body.blocks)
    {
      OnlyErasesRefl(s.body.blocks);
    }

    /** What the per-block subpass cancels stays cancelled. */
    lemma RoundLeaves(s: Moment, a: Moment, b: Moment, c: Moment, t: Moment)
      requires flags.perBB && InTurn(s, a, b, c, t)
      ensures PerBlockPrune.WithinSurplus(s.body.blocks, t.body.blocks) && NoNulls(t.body.blocks)
    {
      PerBlockLeaves(s.body, a.body);
      StepOnlyErases(a, b, false);
      StepOnlyErases(b, c, false);
      StepOnlyErases(c, t, true);
      OnlyErasesTrans(a.body.blocks, b.body.blocks, c.body.blocks);
      OnlyErasesTrans(a.body.blocks, c.body.blocks, t.body.blocks);
      PerBlockPrune.ErasingStaysWithin(s.body.blocks, a.body.blocks, t.body.blocks);
      NullsStayGone(a.body.blocks, t.body.blocks);
    }

    lemma RoundErases(s: Moment, a: Moment, b: Moment, c: Moment, t: Moment)
      requires InTurn(s, a, b, c, t)
      ensures OnlyErases(s.body.blocks, t.body.blocks)
    {
      StepOnlyErases(s, a, false);
      StepOnlyErases(a, b, false);
      StepOnlyErases(b, c, false);
      StepOnlyErases(c, t, true);
      OnlyErasesTrans(s.body.blocks, a.body.blocks, b.body.blocks);
      OnlyErasesTrans(s.body.blocks, b.body.blocks, c.body.blocks);
      OnlyErasesTrans(s.body.blocks, c.body.blocks, t.body.blocks);
    }

    /** After some rounds: how they followed each other, and what the per-block subpass of the
        first one has cancelled. */
    ghost predicate RoundsRun(s: Moment, t: Moment, some: bool) {
      && RoundsBetween(s, t)
      && (flags.perBB && some ==>
            PerBlockPrune.WithinSurplus(s.body.blocks, t.body.blocks) && NoNulls(t.body.blocks))
      && (!some ==> t == s)
    }

    lemma RoundFollows(s: Moment, t: Moment, a: Moment, b: Moment, c: Moment, u: Moment, some: bool)
      requires RoundsRun(s, t, some) && InTurn(t, a, b, c, u)
      requires u == t || u.body != t.body
      ensures RoundsRun(s, u, true)
    {
      assert OneRound(t, u);
      if u != t {
        AnotherRound(s, t, u);
      }
      if flags.perBB {
        RoundLeaves(t, a, b, c, u);
        if some {
          RoundErases(t, a, b, c, u);
          PerBlockPrune.ErasingStaysWithin(s.body.blocks, t.body.blocks, u.body.blocks);
        }
      }
    }

    /** No enabled subpass would erase anything. */
    ghost predicate RoundIdle(f: Func) {
      && (flags.perBB ==> PerBlockDone(f))
      && (flags.diamond ==> DiamondDone(f, trees))
      && (flags.fanout ==> FanoutIdle(f, false, subgraphLimit))
      && (flags.fanoutRaise ==> FanoutIdle(f, true, subgraphLimit))
    }

    /** Nothing is left that meets the condition of an enabled subpass, but for search
        limits and blocks given up on. */
    ghost predicate RoundDone(f: Func)
      requires f.Valid()
    {
      && (flags.perBB ==> PerBlockDone(f))
      && (flags.diamond ==> DiamondDone(f, trees))
      && (flags.fanout ==> FanoutDone(f, false, subgraphLimit))
      && (flags.fanoutRaise ==> FanoutDone(f, true, subgraphLimit))
    }

    /** The pruner after a pass that was safe and kept the shape. */
    lemma AfterSafePass(f: Func, g: Func, h: Func)
      requires SameShape(f, g) && SameShape(g, h) && Safe(f, g, true)
      requires Premises(g) ==> Safe(g, h, !flags.fanoutRaise)
      ensures SameShape(f, h) && (Premises(f) ==> Safe(f, h, !flags.fanoutRaise))
    {
      SameShapeTrans(f, g, h);
      if Premises(f) {
        if flags.diamond {
          NoReentryShrinks(f, g);
        }
        if flags.fanoutRaise {
          QuietShrinks(f, g);
        }
        SafeWeaken(f, g, !flags.fanoutRaise);
        SafeTrans(f, g, h, !flags.fanoutRaise);
      }
    }

    lemma Extend(f: Func, g: Func, h: Func, premise: bool, exact: bool)
      requires Kept(f, g) && h.Valid() && AllNormal(h) && SameShape(g, h) && OnlyErases(g.blocks, h.blocks)
      requires premise ==> Safe(g, h, exact)
      requires Premises(g) ==> premise
      requires exact || flags.fanoutRaise
      ensures Kept(f, h)
    {
      SameShapeTrans(f, g, h);
      OnlyErasesTrans(f.blocks, g.blocks, h.blocks);
      if Premises(f) {
        if flags.diamond {
          NoReentryShrinks(f, g);
        }
        if flags.fanoutRaise {
          QuietShrinks(f, g);
        }
        if exact {
          SafeWeaken(g, h, !flags.fanoutRaise);
        }
        SafeTrans(f, g, h, !flags.fanoutRaise);
      }
    }
  }

  // ----- lemmas of the per-block loop

  /** The first `n` blocks are done and `pruned` refops are gone. */
  ghost predicate PerBlockProgress(bs: seq<Block>, cs: seq<Block>, n: nat, pruned: int) {
    && |cs| == |bs| && n <= |bs| && pruned >= 0
    && (forall k :: 0 <= k < n ==> PerBlockDoneAt(bs[k], cs[k]))
    && (forall k :: n <= k < |bs| ==> cs[k] == bs[k] && Distinct(bs[k]) && Normal(bs[k]))
    && (pruned > 0 ==> AnyUnsettled(bs, n))
    && (pruned == 0 ==> cs == bs)
  }

  ghost predicate AnyUnsettled(bs: seq<Block>, n: nat) {
    exists k :: 0 <= k < n && k < |bs| && !PerBlockPrune.Settled(bs[k])
  }

  ghost predicate PerBlockDoneAt(s: Block, t: Block) {
    && BlockSafe(s, t) && BlockShape(s, t) && Remains(s, t)
    && PerBlockPrune.Settled(t) && PerBlockPrune.SameNet(s, t) && PerBlockPrune.KeepsOuter(s, t)
  }

  lemma BlockPruned(s: Block, t: Block, erased: set<Instr>)
    requires Distinct(s) && Normal(s)
    requires PerBlockPrune.OnlyRefOps(s, erased) && t == Without(s, erased)
    requires PerBlockPrune.Settled(t) && PerBlockPrune.SameNet(s, t) && PerBlockPrune.KeepsOuter(s, t)
    ensures PerBlockDoneAt(s, t) && RefOps(t) == RefOps(s) - |erased|
    ensures |erased| == 0 ==> t == s
  {
    PerBlockPrune.PrunedBlockIsSafe(s, t, erased);
    assert AreRefOps(erased);
    if |erased| == 0 {
      assert erased == {};
      WithoutIsAll(s);
    }
  }

  lemma PerBlockStep(bs: seq<Block>, cs: seq<Block>, n: nat, pruned: int, t: Block, more: nat)
    requires n < |bs| && PerBlockProgress(bs, cs, n, pruned)
    requires PerBlockDoneAt(bs[n], t)
    requires more == 0 ==> t == bs[n]
    requires more > 0 ==> !PerBlockPrune.Settled(bs[n])
    ensures PerBlockProgress(bs, cs[n := t], n + 1, pruned + more)
  {
    PerBlockNext(bs, cs, n, t);
    assert more > 0 ==> AnyUnsettled(bs, n + 1);
    assert AnyUnsettled(bs, n) ==> AnyUnsettled(bs, n + 1);
  }

  lemma PerBlockNext(bs: seq<Block>, cs: seq<Block>, n: nat, t: Block)
    requires n < |bs| == |cs| && PerBlockDoneAt(bs[n], t)
    requires forall k :: 0 <= k < n ==> PerBlockDoneAt(bs[k], cs[k])
    ensures forall k :: 0 <= k < n + 1 ==> PerBlockDoneAt(bs[k], cs[n := t][k])
  {
    forall k | 0 <= k < n + 1 ensures PerBlockDoneAt(bs[k], cs[n := t][k]) {
      assert k < n ==> cs[n := t][k] == cs[k];
    }
  }

  lemma PerBlockFinished(f: Func, g: Func, pruned: int)
    requires f.Valid() && AllNormal(f) && g.succ == f.succ && PerBlockProgress(f.blocks, g.blocks, |f.blocks|, pruned)
    ensures Safe(f, g, true) && AllNormal(g) && PerBlockDone(g)
    ensures pruned > 0 <==> !PerBlockDone(f)
    ensures pruned == 0 ==> g == f
    ensures PerBlockPassed(f, g)
  {
    forall b | 0 <= b < |f.blocks|
      ensures BlockSafe(f.blocks[b], g.blocks[b]) && BlockShape(f.blocks[b], g.blocks[b])
      ensures Remains(f.blocks[b], g.blocks[b]) && PerBlockPrune.KeepsOuter(f.blocks[b], g.blocks[b])
      ensures PerBlockPrune.Settled(g.blocks[b]) && PerBlockPrune.SameNet(f.blocks[b], g.blocks[b])
    {
      assert PerBlockDoneAt(f.blocks[b], g.blocks[b]);
    }
    ShapeKeepsValid(f, g);
    BlockwiseSafe(f, g);
  }

  // ----- lemmas of the diamond loop

  /** A live decref with which the incref forms an accepted diamond. */
  ghost predicate Qualifies(f: Func, t: Trees, incref: Call, slot: Slot) {
    && slot.Live? && IsInc(incref.ins) && IsRelatedDec(incref.ins.op.arg, slot.call.ins)
    && PairAccepted(f, t, incref.bb, slot.call.bb)
  }

  ghost predicate LiveDecrefs(f: Func, decrefs: seq<Slot>) {
    && (forall i :: 0 <= i < |decrefs| && decrefs[i].Live? ==>
          AliveCall(f, decrefs[i].call) && IsDec(decrefs[i].call.ins))
    && (forall i, j :: 0 <= i < j < |decrefs| && decrefs[i].Live? ==> decrefs[i] != decrefs[j])
  }

  ghost predicate PairErased(g: Func, h: Func, incref: Call, decref: Call) {
    && AliveCall(g, incref) && AliveCall(g, decref) && incref.bb != decref.bb
    && h.succ == g.succ
    && h.blocks == g.blocks[incref.bb := Erase(g.blocks[incref.bb], incref.ins)]
                           [decref.bb := Erase(g.blocks[decref.bb], decref.ins)]
  }

  method EraseDiamondPair(fn: Function, incref: Call, decref: Call)
    requires fn.Body().Valid() && AliveCall(fn.Body(), incref) && AliveCall(fn.Body(), decref) && incref.bb != decref.bb
    requires IsInc(incref.ins) && IsDec(decref.ins)
    modifies fn
    ensures PairErased(old(fn.Body()), fn.Body(), incref, decref)
    ensures TotalRefOps(fn.blocks) == old(TotalRefOps(fn.blocks)) - 2
  {
    EraseCallCount(fn.blocks, incref);
    fn.blocks := fn.blocks[incref.bb := Erase(fn.blocks[incref.bb], incref.ins)];
    EraseCallCount(fn.blocks, decref);
    fn.blocks := fn.blocks[decref.bb := Erase(fn.blocks[decref.bb], decref.ins)];
  }

  /** The diamond subpass keeps the shape, and is safe if no candidate can be re-entered. */
  ghost predicate DiamondPruned(f: Func, g: Func, t: Trees) {
    && SameShape(f, g) && g.Valid() && AllNormal(g) && OnlyErases(f.blocks, g.blocks)
    && (NoReentry(f) && SoundTrees(f.succ, t) ==> Safe(f, g, true))
  }

  /** Of the pairs accepted at the start, none has both its refops left. */
  ghost predicate DiamondsCleared(f: Func, g: Func, t: Trees) {
    forall c, d :: AliveCall(g, c) && AliveCall(g, d) && IsInc(c.ins) && IsRelatedDec(c.ins.op.arg, d.ins)
      ==> !PairAccepted(f, t, c.bb, d.bb)
  }

  /** The same for the first `k` increfs; every decref that is left is still listed. */
  ghost predicate ClearedSoFar(f: Func, g: Func, t: Trees, increfs: seq<Call>, k: nat, decrefs: seq<Slot>) {
    && k <= |increfs|
    && (forall d :: AliveCall(g, d) && IsDec(d.ins) ==> Live(d) in decrefs)
    && (forall j, d :: 0 <= j < k && AliveCall(g, increfs[j]) && AliveCall(g, d) && IsInc(increfs[j].ins)
                       && IsRelatedDec(increfs[j].ins.op.arg, d.ins)
          ==> !PairAccepted(f, t, increfs[j].bb, d.bb))
  }

  lemma NothingCleared(f: Func, t: Trees, increfs: seq<Call>, decs: seq<Call>, all: seq<Slot>)
    requires Listed(f, increfs, decs, all)
    ensures ClearedSoFar(f, f, t, increfs, 0, all)
  {
    forall d | AliveCall(f, d) && IsDec(d.ins) ensures Live(d) in all {
      assert d in decs;
      var i :| 0 <= i < |decs| && decs[i] == d;
      assert all[i] == Live(d);
    }
  }

  lemma PairIsGone(g: Func, h: Func, incref: Call, decref: Call)
    requires g.Valid() && PairErased(g, h, incref, decref)
    ensures forall c :: AliveCall(h, c) ==> AliveCall(g, c) && c != incref && c != decref
  {
    EraseMembers(g.blocks[incref.bb], incref.ins);
    EraseMembers(g.blocks[decref.bb], decref.ins);
  }

  lemma PairOnlyErases(g: Func, h: Func, incref: Call, decref: Call)
    requires g.Valid() && PairErased(g, h, incref, decref) && IsInc(incref.ins) && IsDec(decref.ins)
    ensures OnlyErases(g.blocks, h.blocks)
  {
    forall b | 0 <= b < |g.blocks| ensures Remains(g.blocks[b], h.blocks[b]) {
      if b == incref.bb {
        EraseRemains(g.blocks[b], incref.ins);
      } else if b == decref.bb {
        EraseRemains(g.blocks[b], decref.ins);
      } else {
        RemainsRefl(g.blocks[b]);
      }
    }
  }

  lemma ClearedByErasing(f: Func, g: Func, h: Func, t: Trees, increfs: seq<Call>, k: nat, decrefs: seq<Slot>, i: nat)
    requires k < |increfs| && i < |decrefs| && ClearedSoFar(f, g, t, increfs, k, decrefs)
    requires g.Valid() && decrefs[i].Live? && PairErased(g, h, increfs[k], decrefs[i].call)
    ensures ClearedSoFar(f, h, t, increfs, k + 1, decrefs[i := Gone])
  {
    var left := decrefs[i := Gone];
    PairIsGone(g, h, increfs[k], decrefs[i].call);
    forall d | AliveCall(h, d) && IsDec(d.ins) ensures Live(d) in left {
      assert Live(d) in decrefs;
      var j :| 0 <= j < |decrefs| && decrefs[j] == Live(d);
      assert left[j] == Live(d);
    }
  }

  /** A pair accepted at the start is accepted as long as it is there: erasing adds no decref
      in between. */
  lemma StillAccepted(f: Func, g: Func, t: Trees, a: BlockId, b: BlockId)
    requires SameShape(f, g) && PairAccepted(f, t, a, b)
    ensures PairAccepted(g, t, a, b)
  {
    SameRaising(f, g);
  }

  lemma ClearedBySearching(f: Func, g: Func, t: Trees, increfs: seq<Call>, k: nat, decrefs: seq<Slot>)
    requires k < |increfs| && ClearedSoFar(f, g, t, increfs, k, decrefs) && SameShape(f, g)
    requires !HasTail(g, t, increfs[k], decrefs)
    ensures ClearedSoFar(f, g, t, increfs, k + 1, decrefs)
  {
    var c := increfs[k];
    forall d | AliveCall(g, d) && IsInc(c.ins) && IsRelatedDec(c.ins.op.arg, d.ins)
      ensures !PairAccepted(f, t, c.bb, d.bb)
    {
      assert Live(d) in decrefs;
      var i :| 0 <= i < |decrefs| && decrefs[i] == Live(d);
      assert !Qualifies(g, t, c, decrefs[i]);
      if PairAccepted(f, t, c.bb, d.bb) {
        StillAccepted(f, g, t, c.bb, d.bb);
      }
    }
  }

  lemma AllCleared(f: Func, g: Func, t: Trees, increfs: seq<Call>, decs: seq<Call>, all: seq<Slot>, decrefs: seq<Slot>)
    requires Listed(f, increfs, decs, all) && SameShape(f, g)
    requires ClearedSoFar(f, g, t, increfs, |increfs|, decrefs)
    ensures DiamondsCleared(f, g, t)
  {
    forall c, d | AliveCall(g, c) && AliveCall(g, d) && IsInc(c.ins) && IsRelatedDec(c.ins.op.arg, d.ins)
      ensures !PairAccepted(f, t, c.bb, d.bb)
    {
      assert BlockShape(f.blocks[c.bb], g.blocks[c.bb]);
      assert c in increfs;
    }
  }

  ghost predicate DiamondProgress(f: Func, g: Func, t: Trees, increfs: seq<Call>, k: nat, decrefs: seq<Slot>) {
    && f.Valid() && g.Valid() && AllNormal(g) && SameShape(f, g) && k <= |increfs| && OnlyErases(f.blocks, g.blocks)
    && (NoReentry(f) && SoundTrees(f.succ, t) ==> Safe(f, g, true))
    && (forall j :: k <= j < |increfs| ==> AliveCall(g, increfs[j]) && IsInc(increfs[j].ins))
    && LiveDecrefs(g, decrefs) && DistinctCalls(increfs)
  }

  /** One of the first `k` increfs has a partner. */
  ghost predicate AnyTail(f: Func, t: Trees, increfs: seq<Call>, k: nat, all: seq<Slot>) {
    0 < k <= |increfs| && (AnyTail(f, t, increfs, k - 1, all) || HasTail(f, t, increfs[k - 1], all))
  }

  lemma {:induction false} AnyTailWitness(f: Func, t: Trees, increfs: seq<Call>, k: nat, all: seq<Slot>, j: nat)
    requires j < k <= |increfs| && HasTail(f, t, increfs[j], all)
    ensures AnyTail(f, t, increfs, k, all)
    decreases k
  {
    if j < k - 1 {
      AnyTailWitness(f, t, increfs, k - 1, all, j);
    }
  }

  lemma {:induction false} NoTailAtAll(f: Func, t: Trees, increfs: seq<Call>, k: nat, all: seq<Slot>)
    requires k <= |increfs|
    requires forall j :: 0 <= j < k ==> !HasTail(f, t, increfs[j], all)
    ensures !AnyTail(f, t, increfs, k, all)
    decreases k
  {
    if k > 0 {
      NoTailAtAll(f, t, increfs, k - 1, all);
    }
  }

  ghost predicate HasTail(f: Func, t: Trees, incref: Call, decrefs: seq<Slot>) {
    exists i :: 0 <= i < |decrefs| && Qualifies(f, t, incref, decrefs[i])
  }

  lemma DiamondStart(f: Func, t: Trees, increfs: seq<Call>, decs: seq<Call>, all: seq<Slot>)
    requires f.Valid() && AllNormal(f) && DistinctCalls(increfs) && DistinctCalls(decs)
    requires Listed(f, increfs, decs, all)
    ensures DiamondProgress(f, f, t, increfs, 0, all) && ClearedSoFar(f, f, t, increfs, 0, all)
  {
    SafeRefl(f, true);
    OnlyErasesRefl(f.blocks);
    NothingCleared(f, t, increfs, decs, all);
    forall j | 0 <= j < |increfs| ensures AliveCall(f, increfs[j]) && IsInc(increfs[j].ins) {
      assert increfs[j] in increfs;
    }
    forall i | 0 <= i < |all| ensures AliveCall(f, all[i].call) && IsDec(all[i].call.ins) {
      assert decs[i] in decs;
    }
  }

  lemma DiamondSkip(f: Func, g: Func, t: Trees, increfs: seq<Call>, k: nat, decrefs: seq<Slot>)
    requires k < |increfs| && DiamondProgress(f, g, t, increfs, k, decrefs)
    ensures DiamondProgress(f, g, t, increfs, k + 1, decrefs)
  {
  }

  lemma DiamondStep(f: Func, g: Func, h: Func, t: Trees, increfs: seq<Call>, k: nat, decrefs: seq<Slot>, i: nat)
    requires k < |increfs| && i < |decrefs| && DiamondProgress(f, g, t, increfs, k, decrefs)
    requires Qualifies(g, t, increfs[k], decrefs[i]) && PairErased(g, h, increfs[k], decrefs[i].call)
    ensures DiamondProgress(f, h, t, increfs, k + 1, decrefs[i := Gone])
  {
    DiamondKeeps(f, g, h, t, increfs[k], decrefs[i].call);
    PairOnlyErases(g, h, increfs[k], decrefs[i].call);
    OnlyErasesTrans(f.blocks, g.blocks, h.blocks);
    DiamondLists(g, h, increfs[k], decrefs[i].call, increfs, k, decrefs, i);
  }

  lemma PairIsErases(g: Func, h: Func, incref: Call, decref: Call)
    requires PairErased(g, h, incref, decref) && IsInc(incref.ins) && IsRelatedDec(incref.ins.op.arg, decref.ins)
    ensures Erases(g, h, incref.bb, {decref.bb}, incref.ins.op.arg)
  {
    EraseIsErasedOne(g.blocks[incref.bb], incref.ins);
    EraseIsErasedOne(g.blocks[decref.bb], decref.ins);
    assert incref.ins.op == Inc(incref.ins.op.arg) && decref.ins.op == Dec(incref.ins.op.arg);
  }

  lemma AcceptedIsNotReentered(f: Func, g: Func, t: Trees, incref: Call, decref: Call)
    requires SameShape(f, g) && NoReentry(f) && SoundTrees(f.succ, t)
    requires AliveCall(g, incref) && AliveCall(g, decref) && Qualifies(g, t, incref, Live(decref))
    ensures DiamondHolds(g, incref.bb, decref.bb) && !Reenters(g.succ, incref.bb, decref.bb)
  {
    NoReentryShrinks(f, g);
    assert HoldPair(g, incref.bb, decref.bb);
  }

  lemma DiamondKeeps(f: Func, g: Func, h: Func, t: Trees, incref: Call, decref: Call)
    requires f.Valid() && g.Valid() && AllNormal(g) && SameShape(f, g)
    requires NoReentry(f) && SoundTrees(f.succ, t) ==> Safe(f, g, true)
    requires Qualifies(g, t, incref, Live(decref)) && PairErased(g, h, incref, decref)
    ensures h.Valid() && AllNormal(h) && SameShape(f, h)
    ensures NoReentry(f) && SoundTrees(f.succ, t) ==> Safe(f, h, true)
  {
    var arg := incref.ins.op.arg;
    PairIsErases(g, h, incref, decref);
    ErasesShape(g, h, incref.bb, {decref.bb}, arg);
    ShapeKeepsValid(g, h);
    SameShapeTrans(f, g, h);
    if NoReentry(f) && SoundTrees(f.succ, t) {
      AcceptedIsNotReentered(f, g, t, incref, decref);
      DiamondIsSafe(g, h, incref.bb, decref.bb, arg);
      SafeTrans(f, g, h, true);
    }
  }

  lemma DiamondLists(g: Func, h: Func, incref: Call, decref: Call, increfs: seq<Call>, k: nat, decrefs: seq<Slot>,
                     i: nat)
    requires g.Valid() && PairErased(g, h, incref, decref) && IsInc(incref.ins) && IsDec(decref.ins)
    requires k < |increfs| && increfs[k] == incref && DistinctCalls(increfs)
    requires forall j :: k <= j < |increfs| ==> AliveCall(g, increfs[j]) && IsInc(increfs[j].ins)
    requires LiveDecrefs(g, decrefs) && i < |decrefs| && decrefs[i] == Live(decref)
    ensures forall j :: k < j < |increfs| ==> AliveCall(h, increfs[j])
    ensures LiveDecrefs(h, decrefs[i := Gone])
  {
    EraseMembers(g.blocks[incref.bb], incref.ins);
    EraseMembers(g.blocks[decref.bb], decref.ins);
    forall c | AliveCall(g, c) && c != incref && c != decref ensures AliveCall(h, c) {
    }
    forall j | k < j < |increfs| ensures AliveCall(h, increfs[j]) {
      assert AliveCall(g, increfs[j]);
      assert increfs[j] != incref;
    }
    forall j | 0 <= j < |decrefs| && j != i && decrefs[j].Live? ensures AliveCall(h, decrefs[j].call) {
      assert AliveCall(g, decrefs[j].call);
      assert decrefs[j] != decrefs[i];
    }
  }

  ghost predicate Listed(f: Func, increfs: seq<Call>, decs: seq<Call>, all: seq<Slot>) {
    && |all| == |decs| && (forall i :: 0 <= i < |all| ==> all[i] == Live(decs[i]))
    && (forall c :: c in increfs <==> AliveCall(f, c) && IsRefOp(c.ins) && IsInc(c.ins))
    && (forall c :: c in decs <==> AliveCall(f, c) && IsRefOp(c.ins) && IsDec(c.ins))
  }

  method ListPairs(f: Func) returns (increfs: seq<Call>, decs: seq<Call>, decrefs: seq<Slot>)
    requires f.Valid()
    ensures Listed(f, increfs, decs, decrefs) && DistinctCalls(increfs) && DistinctCalls(decs)
  {
    increfs := ListRefOps(f, IsInc);
    decs := ListRefOps(f, IsDec);
    decrefs := seq(|decs|, k requires 0 <= k < |decs| => Live(decs[k]));
  }

  lemma QualifyingIsUndone(f: Func, t: Trees, increfs: seq<Call>, decs: seq<Call>, all: seq<Slot>, j: nat)
    requires Listed(f, increfs, decs, all) && j < |increfs|
    requires DiamondDone(f, t)
    ensures !HasTail(f, t, increfs[j], all)
  {
    var c := increfs[j];
    assert c in increfs && AliveCall(f, c);
    forall i | 0 <= i < |all| ensures !Qualifies(f, t, c, all[i]) {
      assert decs[i] in decs && AliveCall(f, decs[i]);
    }
  }

  lemma UndoneQualifies(f: Func, t: Trees, increfs: seq<Call>, decs: seq<Call>, all: seq<Slot>, c: Call, d: Call)
    requires Listed(f, increfs, decs, all) && AliveCall(f, c) && AliveCall(f, d)
    requires IsInc(c.ins) && IsRelatedDec(c.ins.op.arg, d.ins) && PairAccepted(f, t, c.bb, d.bb)
    ensures AnyTail(f, t, increfs, |increfs|, all)
  {
    assert c in increfs && d in decs;
    var j :| 0 <= j < |increfs| && increfs[j] == c;
    var i :| 0 <= i < |decs| && decs[i] == d;
    assert Qualifies(f, t, c, all[i]);
    AnyTailWitness(f, t, increfs, |increfs|, all, j);
  }

  lemma DiamondFixpoint(f: Func, t: Trees, increfs: seq<Call>, decs: seq<Call>, all: seq<Slot>)
    requires Listed(f, increfs, decs, all)
    ensures DiamondDone(f, t) <==> !AnyTail(f, t, increfs, |increfs|, all)
  {
    if DiamondDone(f, t) {
      forall j: nat | j < |increfs| ensures !HasTail(f, t, increfs[j], all) {
        QualifyingIsUndone(f, t, increfs, decs, all, j);
      }
      NoTailAtAll(f, t, increfs, |increfs|, all);
    } else {
      var c, d :| AliveCall(f, c) && AliveCall(f, d) && IsInc(c.ins) && IsRelatedDec(c.ins.op.arg, d.ins)
                  && PairAccepted(f, t, c.bb, d.bb);
      UndoneQualifies(f, t, increfs, decs, all, c, d);
    }
  }

  // ----- lemmas of the fan-out loop

  lemma MoveOne(all: set<BlockId>, done: set<BlockId>, left: set<BlockId>, b: BlockId)
    requires done !! left && done + left == all && b in left
    ensures done + {b} !! left - {b} && (done + {b}) + (left - {b}) == all && |done + {b}| == |done| + 1
  {
  }

  ghost predicate AllRelated(arg: Arg, bs: seq<Block>, decs: set<BlockId>) {
    forall b :: b in decs ==> b < |bs| && HasRelatedDec(arg, bs[b])
  }

  /** `cs` is `bs` without the first decref of `arg` in each block of `done`. */
  ghost predicate DecrefsErased(arg: Arg, bs: seq<Block>, cs: seq<Block>, done: set<BlockId>) {
    && |cs| == |bs|
    && (forall b :: b in done ==> b < |bs| && ErasedFirst(arg, bs[b], cs[b]))
    && (forall b :: 0 <= b < |bs| && b !in done ==> cs[b] == bs[b])
  }

  lemma Untouched(arg: Arg, bs: seq<Block>, cs: seq<Block>, done: set<BlockId>, b: BlockId)
    requires DecrefsErased(arg, bs, cs, done) && b < |bs| && b !in done
    ensures |cs| == |bs| && cs[b] == bs[b]
  {
  }

  lemma DecrefErased(arg: Arg, bs: seq<Block>, cs: seq<Block>, ds: seq<Block>, done: set<BlockId>, b: BlockId)
    requires DecrefsErased(arg, bs, cs, done) && b < |bs| && b !in done
    requires DecrefsErased(arg, cs, ds, {b})
    ensures DecrefsErased(arg, bs, ds, done + {b})
  {
  }

  method EraseDecref(fn: Function, arg: Arg, each: BlockId)
    requires each < |fn.blocks| && HasRelatedDec(arg, fn.blocks[each])
    modifies fn
    ensures DecrefsErased(arg, old(fn.blocks), fn.blocks, {each})
    ensures TotalRefOps(fn.blocks) == old(TotalRefOps(fn.blocks)) - 1
  {
    var t := EraseFirstRelated(arg, fn.blocks[each]);
    CountErased(arg, fn.blocks, each, t);
    fn.blocks := fn.blocks[each := t];
  }

  lemma CountErased(arg: Arg, bs: seq<Block>, b: BlockId, t: Block)
    requires b < |bs| && ErasedFirst(arg, bs[b], t)
    ensures TotalRefOps(bs[b := t]) == TotalRefOps(bs) - 1
  {
    ErasedFirstProps(arg, bs[b], t);
    TotalRefOpsUpdate(bs, b, t);
  }

  lemma ErasedElsewhere(bs: seq<Block>, cs: seq<Block>, c: Call, decs: set<BlockId>, t: Block)
    requires IsInc(c.ins) && DecrefsErased(c.ins.op.arg, bs, cs, decs)
    requires c.bb < |bs| && c.bb !in decs && c.ins in bs[c.bb] && t == Erase(bs[c.bb], c.ins)
    ensures FanoutErased(bs, cs[c.bb := t], c, decs)
  {
    var ds := cs[c.bb := t];
    assert forall b :: 0 <= b < |bs| && b != c.bb ==> ds[b] == cs[b];
  }

  lemma EraseCallCount(bs: seq<Block>, c: Call)
    requires c.bb < |bs| && c.ins in bs[c.bb] && IsRefOp(c.ins)
    ensures TotalRefOps(bs[c.bb := Erase(bs[c.bb], c.ins)]) == TotalRefOps(bs) - 1
  {
    var t := Erase(bs[c.bb], c.ins);
    EraseIsErasedOne(bs[c.bb], c.ins);
    ErasedOneShape(bs[c.bb], t, c.ins.op);
    TotalRefOpsUpdate(bs, c.bb, t);
  }

  /** A fan-out subpass keeps the shape, and is safe if raises are quiet where it needs that. */
  ghost predicate FanoutPassed(f: Func, g: Func, raise: bool) {
    && SameShape(f, g) && g.Valid() && AllNormal(g) && OnlyErases(f.blocks, g.blocks)
    && ((raise ==> QuietRaises(f)) ==> Safe(f, g, !raise))
  }

  ghost predicate FanoutProgress(f: Func, g: Func, increfs: seq<Call>, k: nat, raise: bool) {
    && f.Valid() && g.Valid() && AllNormal(g) && SameShape(f, g) && k <= |increfs| && OnlyErases(f.blocks, g.blocks)
    && ((raise ==> QuietRaises(f)) ==> Safe(f, g, !raise))
    && (forall j :: k <= j < |increfs| ==> AliveCall(g, increfs[j]) && IsInc(increfs[j].ins))
    && DistinctCalls(increfs)
  }

  /** What a round that erases nothing does to the marks. */
  ghost predicate RoundMarks(f: Func, c: Call, raise: bool, limit: nat, bad: set<BlockId>, bad': set<BlockId>) {
    && c.bb < |f.succ| && IsInc(c.ins)
    && if Skips(f, c, bad) then bad' == bad else MarksSoundly(f, c.bb, c.ins.op.arg, raise, limit, bad, bad')
  }

  /** One round of the loop over increfs: what it erases depends on the function as the rounds
      before have left it. */
  ghost predicate FanoutRound(g: Func, c: Call, h: Func, raise: bool, limit: nat, bad: set<BlockId>, bad': set<BlockId>)
  {
    && RoundMarks(g, c, raise, limit, bad, bad')
    && if !Skips(g, c, bad) && Acceptable(g, c, raise, limit)
       then FanoutPruned(g, h, c, FirstDecrefs(g, c.bb, c.ins.op.arg, raise), raise)
       else h == g
  }

  /** What one round of the loop over increfs starts from. */
  datatype Stage = Stage(body: Func, bad: set<BlockId>)

  /** The stages of the first `k` rounds: each starts from what the one before has left. */
  ghost predicate FanoutStages(f: Func, increfs: seq<Call>, k: nat, stages: seq<Stage>, raise: bool, limit: nat) {
    && k <= |increfs| && |stages| == k + 1 && stages[0] == Stage(f, {})
    && forall i: nat :: i < k ==> StageFollows(increfs, stages, i, raise, limit)
  }

  ghost predicate StageFollows(increfs: seq<Call>, stages: seq<Stage>, i: nat, raise: bool, limit: nat) {
    && i < |increfs| && i + 1 < |stages|
    && FanoutRound(stages[i].body, increfs[i], stages[i + 1].body, raise, limit, stages[i].bad, stages[i + 1].bad)
  }

  /** The first `k` increfs have each had their round. */
  ghost predicate FanoutRounds(f: Func, increfs: seq<Call>, k: nat, g: Func, bad: set<BlockId>, raise: bool, limit: nat)
  {
    exists stages :: FanoutStages(f, increfs, k, stages, raise, limit) && stages[k] == Stage(g, bad)
  }

  lemma NoRounds(f: Func, increfs: seq<Call>, raise: bool, limit: nat)
    ensures FanoutRounds(f, increfs, 0, f, {}, raise, limit)
  {
    assert FanoutStages(f, increfs, 0, [Stage(f, {})], raise, limit);
  }

  lemma OneMoreRound(f: Func, g: Func, h: Func, increfs: seq<Call>, k: nat, was: set<BlockId>, bad: set<BlockId>,
                     raise: bool, limit: nat)
    requires k < |increfs| && FanoutRounds(f, increfs, k, g, was, raise, limit)
    requires FanoutRound(g, increfs[k], h, raise, limit, was, bad)
    ensures FanoutRounds(f, increfs, k + 1, h, bad, raise, limit)
  {
    var stages :| FanoutStages(f, increfs, k, stages, raise, limit) && stages[k] == Stage(g, was);
    var longer := stages + [Stage(h, bad)];
    forall i: nat | i < k + 1 ensures StageFollows(increfs, longer, i, raise, limit) {
      assert i < k ==> StageFollows(increfs, stages, i, raise, limit);
    }
    assert FanoutStages(f, increfs, k + 1, longer, raise, limit);
  }

  ghost predicate AllFanoutRounds(f: Func, g: Func, raise: bool, limit: nat) {
    exists bad :: FanoutRounds(f, Increfs(f), |Increfs(f)|, g, bad, raise, limit)
  }

  /** Without a decref, and in raise mode without a raise, there is nothing to erase. */
  lemma NothingToEnd(f: Func, raise: bool, limit: nat)
    requires DecBlocks(f) == {} || (raise && RaisingBlocks(f) == {})
    ensures FanoutIdle(f, raise, limit)
  {
    forall c: Call ensures !Acceptable(f, c, raise, limit) {
      if c.bb < |f.succ| && IsInc(c.ins) {
        AcceptedStops(f, c.ins.op.arg, raise);
      }
    }
  }

  /** Every mark has a reason among the first `k` increfs. */
  ghost predicate MarkedForCause(f: Func, increfs: seq<Call>, k: nat, bad: set<BlockId>, raise: bool, limit: nat) {
    k <= |increfs| && forall b {:trigger MarkCaused(f, increfs, k, b, raise, limit)} :: b in bad ==>
      MarkCaused(f, increfs, k, b, raise, limit)
  }

  ghost predicate MarkCaused(f: Func, increfs: seq<Call>, k: nat, b: BlockId, raise: bool, limit: nat) {
    && b < |f.succ| && k <= |increfs|
    && (LimitHit(f, b, raise, limit)
        || exists i :: 0 <= i < k && increfs[i].bb == b && ForwardFails(f, increfs[i], raise))
  }

  /** Every failure that only the contents of the stops explain has left its mark. */
  ghost predicate FailuresMarked(f: Func, increfs: seq<Call>, k: nat, bad: set<BlockId>, raise: bool, limit: nat) {
    k <= |increfs| && forall i: nat {:trigger FailureMarked(f, increfs[i], bad, raise, limit)} :: i < k ==>
      FailureMarked(f, increfs[i], bad, raise, limit)
  }

  ghost predicate FailureMarked(f: Func, c: Call, bad: set<BlockId>, raise: bool, limit: nat) {
    ForwardFails(f, c, raise) && c.bb < |f.succ| ==>
      Skips(f, c, bad) || !RegionEnds(f, c.bb, raise) || LimitHit(f, c.bb, raise, limit)
  }

  /** Nothing erased in `k` rounds. */
  ghost predicate Fruitless(f: Func, increfs: seq<Call>, k: nat, bad: set<BlockId>, raise: bool, limit: nat) {
    && MarkedForCause(f, increfs, k, bad, raise, limit) && FailuresMarked(f, increfs, k, bad, raise, limit)
    && Idle(f, increfs, k, raise, limit)
  }

  /** What is known after `k` rounds: the pass has work to do, or has found none so far. */
  ghost predicate FanoutOutcome(f: Func, g: Func, increfs: seq<Call>, k: nat, bad: set<BlockId>,
                                mutated: bool, raise: bool, limit: nat) {
    if mutated then TotalRefOps(g.blocks) < TotalRefOps(f.blocks) && !Idle(f, increfs, k, raise, limit)
    else g == f && Fruitless(f, increfs, k, bad, raise, limit)
  }

  /** The loop over increfs after `k` rounds. */
  ghost predicate FanoutSoFar(f: Func, g: Func, increfs: seq<Call>, k: nat, bad: set<BlockId>,
                              mutated: bool, raise: bool, limit: nat) {
    && FanoutProgress(f, g, increfs, k, raise) && FanoutRounds(f, increfs, k, g, bad, raise, limit)
    && FanoutOutcome(f, g, increfs, k, bad, mutated, raise, limit)
  }

  datatype Progress = Progress(body: Func, bad: set<BlockId>, mutated: bool)

  ghost function AfterRounds(f: Func, increfs: seq<Call>, k: nat, raise: bool, limit: nat): iset<Progress> {
    iset s: Progress | FanoutSoFar(f, s.body, increfs, k, s.bad, s.mutated, raise, limit)
  }

  lemma FanoutNext(f: Func, g: Func, h: Func, increfs: seq<Call>, k: nat, was: set<BlockId>, bad: set<BlockId>,
                   mutated: bool, hit: bool, raise: bool, limit: nat)
    requires k < |increfs| && FanoutSoFar(f, g, increfs, k, was, mutated, raise, limit)
    requires FanoutProgress(f, h, increfs, k + 1, raise)
    requires if hit then TotalRefOps(h.blocks) < TotalRefOps(g.blocks) else h == g
    requires hit <==> !Skips(g, increfs[k], was) && Acceptable(g, increfs[k], raise, limit)
    requires FanoutRound(g, increfs[k], h, raise, limit, was, bad)
    ensures FanoutSoFar(f, h, increfs, k + 1, bad, mutated || hit, raise, limit)
  {
    OutcomeNext(f, g, h, increfs, k, was, bad, mutated, hit, raise, limit);
    OneMoreRound(f, g, h, increfs, k, was, bad, raise, limit);
  }

  lemma OutcomeNext(f: Func, g: Func, h: Func, increfs: seq<Call>, k: nat, was: set<BlockId>, bad: set<BlockId>,
                    mutated: bool, hit: bool, raise: bool, limit: nat)
    requires k < |increfs| && FanoutOutcome(f, g, increfs, k, was, mutated, raise, limit)
    requires if hit then TotalRefOps(h.blocks) < TotalRefOps(g.blocks) else h == g
    requires hit <==> !Skips(g, increfs[k], was) && Acceptable(g, increfs[k], raise, limit)
    requires !hit ==> RoundMarks(g, increfs[k], raise, limit, was, bad)
    ensures FanoutOutcome(f, h, increfs, k + 1, bad, mutated || hit, raise, limit)
  {
    if mutated {
      BusyStays(f, increfs, k, raise, limit);
    } else if hit {
      FirstHit(f, increfs, k, was, raise, limit);
    } else {
      CauseNext(f, increfs, k, was, bad, raise, limit);
      FailuresNext(f, increfs, k, was, bad, raise, limit);
      IdleNext(f, increfs, k, was, raise, limit);
    }
  }

  lemma CauseNext(f: Func, increfs: seq<Call>, k: nat, was: set<BlockId>, bad: set<BlockId>, raise: bool, limit: nat)
    requires k < |increfs| && MarkedForCause(f, increfs, k, was, raise, limit)
    requires RoundMarks(f, increfs[k], raise, limit, was, bad)
    ensures MarkedForCause(f, increfs, k + 1, bad, raise, limit)
  {
    forall b | b in bad ensures MarkCaused(f, increfs, k + 1, b, raise, limit) {
      assert b in was ==> MarkCaused(f, increfs, k, b, raise, limit);
    }
  }

  lemma FailuresNext(f: Func, increfs: seq<Call>, k: nat, was: set<BlockId>, bad: set<BlockId>, raise: bool, limit: nat)
    requires k < |increfs| && FailuresMarked(f, increfs, k, was, raise, limit)
    requires RoundMarks(f, increfs[k], raise, limit, was, bad)
    ensures FailuresMarked(f, increfs, k + 1, bad, raise, limit)
  {
    forall i: nat | i < k + 1 ensures FailureMarked(f, increfs[i], bad, raise, limit) {
      assert i < k ==> FailureMarked(f, increfs[i], was, raise, limit);
    }
  }

  /** A skipped incref is spoiled or not acceptable. */
  lemma IdleNext(f: Func, increfs: seq<Call>, k: nat, bad: set<BlockId>, raise: bool, limit: nat)
    requires k < |increfs| && MarkedForCause(f, increfs, k, bad, raise, limit) && Idle(f, increfs, k, raise, limit)
    requires Skips(f, increfs[k], bad) || !Acceptable(f, increfs[k], raise, limit)
    ensures Idle(f, increfs, k + 1, raise, limit)
  {
    assert increfs[k].bb in bad ==> MarkCaused(f, increfs, k, increfs[k].bb, raise, limit);
    assert IdleAt(f, increfs, k, raise, limit);
  }

  /** No incref before an acceptable one in an unmarked block fails: the open region ends, so
      the failure would have left a mark. */
  lemma FirstHit(f: Func, increfs: seq<Call>, k: nat, bad: set<BlockId>, raise: bool, limit: nat)
    requires k < |increfs| && FailuresMarked(f, increfs, k, bad, raise, limit)
    requires !Skips(f, increfs[k], bad) && Acceptable(f, increfs[k], raise, limit)
    ensures !Idle(f, increfs, k + 1, raise, limit)
  {
    ForwardMeansEnds(f, increfs[k].bb, increfs[k].ins.op.arg, raise);
    forall i | 0 <= i < k && increfs[i].bb == increfs[k].bb ensures !ForwardFails(f, increfs[i], raise) {
      assert FailureMarked(f, increfs[i], bad, raise, limit);
    }
    assert !IdleAt(f, increfs, k, raise, limit);
  }

  lemma BusyStays(f: Func, increfs: seq<Call>, k: nat, raise: bool, limit: nat)
    requires k < |increfs| && !Idle(f, increfs, k, raise, limit)
    ensures !Idle(f, increfs, k + 1, raise, limit)
  {
  }

  ghost function Increfs(f: Func): seq<Call> {
    CallsOf(f.blocks, |f.blocks|, IsInc)
  }

  method ListIncrefs(f: Func, ghost raise: bool, ghost limit: nat) returns (increfs: seq<Call>)
    requires f.Valid() && AllNormal(f)
    ensures increfs == Increfs(f) && forall c :: c in increfs <==> AliveCall(f, c) && IsRefOp(c.ins) && IsInc(c.ins)
    ensures FanoutSoFar(f, f, increfs, 0, {}, false, raise, limit)
  {
    increfs := ListRefOps(f, IsInc);
    SafeRefl(f, !raise);
    OnlyErasesRefl(f.blocks);
    NoRounds(f, increfs, raise, limit);
    forall j | 0 <= j < |increfs| ensures AliveCall(f, increfs[j]) && IsInc(increfs[j].ins) {
      assert increfs[j] in increfs;
    }
  }

  lemma FanoutSkip(f: Func, g: Func, increfs: seq<Call>, k: nat, raise: bool)
    requires k < |increfs| && FanoutProgress(f, g, increfs, k, raise)
    ensures FanoutProgress(f, g, increfs, k + 1, raise)
    ensures AliveCall(g, increfs[k]) && IsInc(increfs[k].ins)
  {
  }

  /** `h` is `g` without the incref `c` and the first decrefs of its accepted fan-out. */
  ghost predicate FanoutPruned(g: Func, h: Func, c: Call, decs: set<BlockId>, raise: bool) {
    && AliveCall(g, c) && IsInc(c.ins) && c.bb !in decs && h.succ == g.succ
    && FanoutHolds(g, c.bb, c.ins.op.arg, raise) && decs == FirstDecrefs(g, c.bb, c.ins.op.arg, raise)
    && FanoutErased(g.blocks, h.blocks, c, decs)
  }

  lemma FanoutStep(f: Func, g: Func, h: Func, increfs: seq<Call>, k: nat, decs: set<BlockId>, raise: bool)
    requires k < |increfs| && FanoutProgress(f, g, increfs, k, raise)
    requires FanoutPruned(g, h, increfs[k], decs, raise) && !HasDec(g.blocks[increfs[k].bb])
    ensures FanoutProgress(f, h, increfs, k + 1, raise)
  {
    FanoutKeeps(f, g, h, increfs[k], decs, raise);
    FanoutErasedOnlyErases(g.blocks, h.blocks, increfs[k], decs);
    OnlyErasesTrans(f.blocks, g.blocks, h.blocks);
    FanoutList(g, h, increfs[k], decs, increfs, k);
  }

  lemma FanoutKeeps(f: Func, g: Func, h: Func, c: Call, decs: set<BlockId>, raise: bool)
    requires f.Valid() && g.Valid() && AllNormal(g) && SameShape(f, g) && h.succ == g.succ
    requires (raise ==> QuietRaises(f)) ==> Safe(f, g, !raise)
    requires AliveCall(g, c) && IsInc(c.ins) && !HasDec(g.blocks[c.bb]) && c.bb !in decs
    requires FanoutHolds(g, c.bb, c.ins.op.arg, raise) && decs == FirstDecrefs(g, c.bb, c.ins.op.arg, raise)
    requires FanoutErased(g.blocks, h.blocks, c, decs)
    ensures h.Valid() && AllNormal(h) && SameShape(f, h)
    ensures (raise ==> QuietRaises(f)) ==> Safe(f, h, !raise)
  {
    FanoutErasedIsErases(g, h, c, decs);
    ErasesShape(g, h, c.bb, decs, c.ins.op.arg);
    ShapeKeepsValid(g, h);
    SameShapeTrans(f, g, h);
    if raise ==> QuietRaises(f) {
      if raise {
        QuietShrinks(f, g);
      }
      FanoutIsSafe(g, h, c.bb, c.ins.op.arg, raise);
      SafeTrans(f, g, h, !raise);
    }
  }

  lemma FanoutList(g: Func, h: Func, c: Call, decs: set<BlockId>, increfs: seq<Call>, k: nat)
    requires g.Valid() && FanoutErased(g.blocks, h.blocks, c, decs) && c.bb !in decs
    requires k < |increfs| && increfs[k] == c && DistinctCalls(increfs)
    requires forall j :: k <= j < |increfs| ==> AliveCall(g, increfs[j]) && IsInc(increfs[j].ins)
    ensures forall j :: k < j < |increfs| ==> AliveCall(h, increfs[j])
  {
    forall j | k < j < |increfs| ensures AliveCall(h, increfs[j]) {
      FanoutErasedKeepsAlive(g, h, c, decs, increfs[j]);
    }
  }

  lemma FanoutFixpoint(f: Func, g: Func, increfs: seq<Call>, bad: set<BlockId>, mutated: bool, raise: bool, limit: nat)
    requires increfs == Increfs(f)
    requires f.Valid() && g.Valid() && FanoutSoFar(f, g, increfs, |increfs|, bad, mutated, raise, limit)
    ensures mutated <==> !FanoutIdle(f, raise, limit)
    ensures mutated <==> TotalRefOps(g.blocks) < TotalRefOps(f.blocks)
    ensures !mutated ==> g == f && FanoutDone(f, raise, limit)
    ensures AllFanoutRounds(f, g, raise, limit)
    ensures DecBlocks(f) == {} || (raise && RaisingBlocks(f) == {}) ==> !mutated
  {
    if DecBlocks(f) == {} || (raise && RaisingBlocks(f) == {}) {
      NothingToEnd(f, raise, limit);
    }
    if !mutated {
      IdleIsDone(f, raise, limit);
    }
  }

  lemma RefusedAt(f: Func, increfs: seq<Call>, k: nat, raise: bool, limit: nat)
    requires f.Valid() && k < |increfs| && AliveCall(f, increfs[k])
    requires forall j :: 0 <= j < |increfs| ==> AliveCall(f, increfs[j]) && IsInc(increfs[j].ins)
    requires Spoiled(f, increfs, k, raise) || !Acceptable(f, increfs[k], raise, limit)
    ensures HeadRefused(f, raise, limit, increfs[k].bb)
  {
    var b, j := increfs[k].bb, k;
    if Spoiled(f, increfs, k, raise) {
      j :| 0 <= j < k && increfs[j].bb == b && ForwardFails(f, increfs[j], raise);
    }
    var x := increfs[j].ins;
    assert x in f.blocks[b] && IsInc(x);
    assert LimitHit(f, b, raise, limit) || !FanoutHolds(f, b, x.op.arg, raise);
  }

  /** Where the subpass has nothing to erase, every decref-free block with increfs is beyond a
      search limit or holds one without a fan-out. */
  lemma IdleIsDone(f: Func, raise: bool, limit: nat)
    requires f.Valid() && FanoutIdle(f, raise, limit)
    ensures FanoutDone(f, raise, limit)
  {
    var increfs := Increfs(f);
    CallsOfMembers(f.blocks, |f.blocks|, IsInc);
    forall j | 0 <= j < |increfs| ensures AliveCall(f, increfs[j]) && IsInc(increfs[j].ins) {
      assert increfs[j] in increfs;
    }
    forall b: BlockId | b < |f.blocks| && HasInc(f.blocks[b]) && !HasDec(f.blocks[b])
      ensures HeadRefused(f, raise, limit, b)
    {
      var i :| 0 <= i < |f.blocks[b]| && IsInc(f.blocks[b][i]);
      var c := Call(b, f.blocks[b][i]);
      assert c in increfs;
      var k: nat :| k < |increfs| && increfs[k] == c;
      assert !Skips(f, c, {}) && IdleAt(f, increfs, k, raise, limit);
      RefusedAt(f, increfs, k, raise, limit);
    }
  }
}
