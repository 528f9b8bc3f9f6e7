/** What it means for a transformation of a function to respect reference counts, and the
    two arguments by which the passes earn it: block by block, and by bracketing. */
module Safety {
  import opened ControlFlow
  import opened Ir

  // ----- objects along a walk

  /** Which values hold one particular object, at each position of a walk.  In a loop a value
      may hold another object in every iteration. */
  type Life = nat -> AliasClass

  ghost predicate HasRefOp(s: Block, v: nat) {
    exists i :: 0 <= i < |s| && IsRefOp(s[i]) && s[i].op.arg == Val(v)
  }

  /** `def` places the one assignment of each value in a block that dominates its refops; an
      argument of the function counts as assigned in the entry. */
  ghost predicate Ssa(f: Func, def: nat -> BlockId) {
    forall b: BlockId, v :: b < |f.blocks| && HasRefOp(f.blocks[b], v) ==> Dominates(f.succ, def(v), b)
  }

  /** A value changes what it holds only where the walk enters the block that assigns it. */
  ghost predicate Steady(w: Walk, life: Life, def: nat -> BlockId) {
    forall i: nat, v: nat :: 0 < i < |w| && w[i] != def(v) ==> (v in life(i) <==> v in life(i - 1))
  }

  /** What an object can go through along the walk. */
  ghost predicate Lives(f: Func, w: Walk, life: Life) {
    exists def :: Ssa(f, def) && Steady(w, life, def)
  }

  lemma LivesShrinks(f: Func, g: Func, w: Walk, life: Life)
    requires SameShape(f, g) && Lives(f, w, life)
    ensures Lives(g, w, life)
  {
    var def :| Ssa(f, def) && Steady(w, life, def);
    forall b: BlockId, v | b < |g.blocks| && HasRefOp(g.blocks[b], v) ensures Dominates(g.succ, def(v), b) {
      var i :| 0 <= i < |g.blocks[b]| && IsRefOp(g.blocks[b][i]) && g.blocks[b][i].op.arg == Val(v);
      assert BlockShape(f.blocks[b], g.blocks[b]) && g.blocks[b][i] in f.blocks[b];
      assert HasRefOp(f.blocks[b], v);
    }
    assert Ssa(g, def);
  }

  function Constant(c: AliasClass): Life {
    (i: nat) => c
  }

  /** An aliasing that is fixed for the whole walk is possible in every function. */
  lemma ConstantLives(f: Func, w: Walk, c: AliasClass)
    ensures Lives(f, w, Constant(c))
  {
    var def := (v: nat) => ENTRY;
    forall b: BlockId, v: nat | b < |f.blocks| && HasRefOp(f.blocks[b], v) ensures Dominates(f.succ, def(v), b) {
      assert forall u :: EntryWalk(f.succ, u) && u != [] ==> u[0] == ENTRY;
    }
    assert Ssa(f, def) && Steady(w, Constant(c), def);
  }

  // ----- counts along a walk

  ghost predicate OnBlocks(f: Func, w: Walk) {
    forall i :: 0 <= i < |w| ==> w[i] < |f.blocks|
  }

  /** The object's count at the end of a walk. */
  ghost function WalkNet(f: Func, w: Walk, life: Life): int
    requires OnBlocks(f, w)
  {
    if w == [] then 0 else WalkNet(f, Init(w), life) + Net(f.blocks[Last(w)], life(|w| - 1))
  }

  /** The lowest running count on a walk. */
  ghost function WalkLow(f: Func, w: Walk, life: Life): int
    requires OnBlocks(f, w)
  {
    if w == [] then 0
    else Min(WalkLow(f, Init(w), life), WalkNet(f, Init(w), life) + Low(f.blocks[Last(w)], life(|w| - 1)))
  }

  lemma {:induction false} LowBelowNet(f: Func, w: Walk, life: Life)
    requires OnBlocks(f, w)
    ensures WalkLow(f, w, life) <= WalkNet(f, w, life)
    decreases |w|
  {
    if w != [] {
      LowIsLow(f.blocks[Last(w)], life(|w| - 1));
    }
  }

  lemma WalkCounts(f: Func, w: Walk, life: Life)
    requires f.Valid() && EntryWalk(f.succ, w) && w != []
    ensures EntryWalk(f.succ, Init(w)) && Last(w) < |f.blocks|
    ensures WalkLow(f, w, life) <= WalkNet(f, w, life) && WalkLow(f, Init(w), life) <= WalkNet(f, Init(w), life)
  {
    EntryPrefix(f.succ, w);
    LowBelowNet(f, w, life);
    LowBelowNet(f, Init(w), life);
  }

  /** The running count inside the `i`-th block of the walk, after `k` of its instructions. */
  ghost function CountAt(f: Func, w: Walk, life: Life, i: nat, k: nat): int
    requires OnBlocks(f, w) && i < |w| && k <= |f.blocks[w[i]]|
  {
    WalkNet(f, w[..i], life) + Net(f.blocks[w[i]][..k], life(i))
  }

  /** `WalkLow` is the minimum of the running count over all instructions executed: nothing lies
      below it, and on a walk that is not empty it is reached or is the initial 0. */
  lemma {:induction false} WalkLowIsMinimum(f: Func, w: Walk, life: Life)
    requires OnBlocks(f, w)
    ensures forall i: nat, k: nat :: i < |w| && k <= |f.blocks[w[i]]| ==>
              WalkLow(f, w, life) <= CountAt(f, w, life, i, k)
    ensures WalkLow(f, w, life) == 0
            || exists i: nat, k: nat :: i < |w| && k <= |f.blocks[w[i]]|
                                        && WalkLow(f, w, life) == CountAt(f, w, life, i, k)
    decreases |w|
  {
    if w != [] {
      var u, n := Init(w), |w| - 1;
      var s := f.blocks[w[n]];
      WalkLowIsMinimum(f, u, life);
      LowIsMinimum(s, life(n));
      assert w[..n] == u && forall i :: 0 <= i < n ==> u[..i] == w[..i];
      forall i: nat, k: nat | i < |w| && k <= |f.blocks[w[i]]|
        ensures WalkLow(f, w, life) <= CountAt(f, w, life, i, k)
      {
        if i < n {
          assert WalkLow(f, u, life) <= CountAt(f, u, life, i, k);
        } else {
          assert Low(s, life(n)) <= Net(s[..k], life(n));
        }
      }
      if WalkLow(f, w, life) != WalkLow(f, u, life) {
        var k: nat :| k <= |s| && Low(s, life(n)) == Net(s[..k], life(n));
        assert WalkLow(f, w, life) == CountAt(f, w, life, n, k);
      } else if WalkLow(f, u, life) != 0 {
        var i: nat, k: nat :| i < |u| && k <= |f.blocks[u[i]]| && WalkLow(f, u, life) == CountAt(f, u, life, i, k);
        assert WalkLow(f, w, life) == CountAt(f, w, life, i, k);
      }
    }
  }

  // ----- safety

  ghost predicate AvoidsRaises(f: Func, w: Walk) {
    forall i :: 0 <= i < |w| ==> w[i] !in RaisingBlocks(f)
  }

  /** On every walk, and for every object, `g` never takes the count below the lowest value
      that `f` reaches on that walk. */
  ghost predicate NeverLower(f: Func, g: Func)
    requires f.Valid() && g.Valid() && g.succ == f.succ
  {
    forall w, life :: EntryWalk(f.succ, w) && Lives(f, w, life) ==> WalkLow(g, w, life) >= WalkLow(f, w, life)
  }

  /** On every complete walk the final count of every object is that of `f` - or, when not
      `exact`, possibly lower, but only on a walk that raises. */
  ghost predicate Balances(f: Func, g: Func, exact: bool)
    requires f.Valid() && g.Valid() && g.succ == f.succ
  {
    forall w, life :: Complete(f.succ, w) && Lives(f, w, life) ==>
      && WalkNet(g, w, life) <= WalkNet(f, w, life)
      && (exact || AvoidsRaises(f, w) ==> WalkNet(g, w, life) == WalkNet(f, w, life))
  }

  ghost predicate Safe(f: Func, g: Func, exact: bool) {
    f.Valid() && g.Valid() && SameShape(f, g) && NeverLower(f, g) && Balances(f, g, exact)
  }

  lemma SafeRefl(f: Func, exact: bool)
    requires f.Valid()
    ensures Safe(f, f, exact)
  {
  }

  lemma SafeWeaken(f: Func, g: Func, exact: bool)
    requires Safe(f, g, true)
    ensures Safe(f, g, exact)
  {
  }

  lemma SafeTrans(f: Func, g: Func, h: Func, exact: bool)
    requires Safe(f, g, exact) && Safe(g, h, exact)
    ensures Safe(f, h, exact)
  {
    SameShapeTrans(f, g, h);
    SameRaising(f, g);
    forall w, life | EntryWalk(f.succ, w) && Lives(f, w, life) ensures WalkLow(h, w, life) >= WalkLow(f, w, life) {
      LivesShrinks(f, g, w, life);
      assert WalkLow(g, w, life) >= WalkLow(f, w, life) && WalkLow(h, w, life) >= WalkLow(g, w, life);
    }
    forall w, life | Complete(f.succ, w) && Lives(f, w, life)
      ensures WalkNet(h, w, life) <= WalkNet(f, w, life)
      ensures exact || AvoidsRaises(f, w) ==> WalkNet(h, w, life) == WalkNet(f, w, life)
    {
      LivesShrinks(f, g, w, life);
      assert WalkNet(g, w, life) <= WalkNet(f, w, life) && WalkNet(h, w, life) <= WalkNet(g, w, life);
    }
  }

  // ----- transformations inside one block

  /** For every object the block changes the count as before and dips no lower. */
  ghost predicate BlockSafe(s: Block, t: Block) {
    forall c :: Net(t, c) == Net(s, c) && Low(t, c) >= Low(s, c)
  }

  lemma BlockSafeAt(s: Block, t: Block, c: AliasClass)
    requires BlockSafe(s, t)
    ensures Net(t, c) == Net(s, c) && Low(t, c) >= Low(s, c)
  {
  }

  lemma BlockwiseStep(f: Func, g: Func, w: Walk, life: Life)
    requires OnBlocks(f, w) && OnBlocks(g, w) && w != []
    requires WalkNet(g, Init(w), life) == WalkNet(f, Init(w), life)
    requires WalkLow(g, Init(w), life) >= WalkLow(f, Init(w), life)
    requires var c := life(|w| - 1);
             && Net(g.blocks[Last(w)], c) == Net(f.blocks[Last(w)], c)
             && Low(g.blocks[Last(w)], c) >= Low(f.blocks[Last(w)], c)
    ensures WalkNet(g, w, life) == WalkNet(f, w, life) && WalkLow(g, w, life) >= WalkLow(f, w, life)
  {
  }

  lemma {:induction false} BlockwiseWalk(f: Func, g: Func, w: Walk, life: Life)
    requires f.Valid() && g.Valid() && SameShape(f, g) && EntryWalk(f.succ, w)
    requires forall b :: 0 <= b < |f.blocks| ==> BlockSafe(f.blocks[b], g.blocks[b])
    ensures WalkNet(g, w, life) == WalkNet(f, w, life) && WalkLow(g, w, life) >= WalkLow(f, w, life)
    decreases |w|
  {
    if w != [] {
      EntryPrefix(f.succ, w);
      BlockwiseWalk(f, g, Init(w), life);
      BlockSafeAt(f.blocks[Last(w)], g.blocks[Last(w)], life(|w| - 1));
      BlockwiseStep(f, g, w, life);
    }
  }

  lemma BlockwiseSafe(f: Func, g: Func)
    requires f.Valid() && g.Valid() && SameShape(f, g)
    requires forall b :: 0 <= b < |f.blocks| ==> BlockSafe(f.blocks[b], g.blocks[b])
    ensures Safe(f, g, true)
  {
    forall w, life | EntryWalk(f.succ, w)
      ensures WalkNet(g, w, life) == WalkNet(f, w, life) && WalkLow(g, w, life) >= WalkLow(f, w, life)
    {
      BlockwiseWalk(f, g, w, life);
    }
  }

  // ----- erasing an incref and the decrefs that bracket it

  /** `g` is `f` without one incref of `arg` in `head` and one decref of it in each of `decs`. */
  ghost predicate Erases(f: Func, g: Func, head: BlockId, decs: set<BlockId>, arg: Arg) {
    && g.succ == f.succ && |g.blocks| == |f.blocks| && head < |f.blocks| && head !in decs
    && ErasedOne(f.blocks[head], g.blocks[head], Inc(arg))
    && (forall b :: b in decs ==> b < |f.blocks| && ErasedOne(f.blocks[b], g.blocks[b], Dec(arg)))
    && (forall b :: 0 <= b < |f.blocks| && b != head && b !in decs ==> g.blocks[b] == f.blocks[b])
  }

  lemma ErasedOneNet(s: Block, t: Block, op: Op, c: AliasClass)
    requires ErasedOne(s, t, op)
    ensures Net(t, c) == Net(s, c) - Delta(Instr(0, op), c)
  {
    var k: nat :| k < |s| && s[k].op == op && t == EraseAt(s, k);
    NetEraseAt(s, k, c);
  }

  lemma ErasedOneShape(s: Block, t: Block, op: Op)
    requires ErasedOne(s, t, op) && (op.Inc? || op.Dec?)
    ensures BlockShape(s, t) && RefOps(t) == RefOps(s) - 1
  {
    var k: nat :| k < |s| && s[k].op == op && t == EraseAt(s, k);
    EraseShape(s, k);
  }

  lemma ErasesShape(f: Func, g: Func, head: BlockId, decs: set<BlockId>, arg: Arg)
    requires f.Valid() && Erases(f, g, head, decs, arg)
    ensures SameShape(f, g) && g.Valid()
  {
    forall b | 0 <= b < |f.blocks| ensures BlockShape(f.blocks[b], g.blocks[b]) {
      if b == head {
        ErasedOneShape(f.blocks[b], g.blocks[b], Inc(arg));
      } else if b in decs {
        ErasedOneShape(f.blocks[b], g.blocks[b], Dec(arg));
      }
    }
    forall b | 0 <= b < |g.blocks| ensures Distinct(g.blocks[b]) {
      assert BlockShape(f.blocks[b], g.blocks[b]);
    }
  }

  ghost predicate Counted(arg: Arg, c: AliasClass) {
    arg.Val? && arg.v in c
  }

  /** What the erasure takes from the count when block `b` is executed. */
  ghost function Toll(head: BlockId, decs: set<BlockId>, arg: Arg, b: BlockId, c: AliasClass): int {
    if !Counted(arg, c) then 0 else if b == head then 1 else if b in decs then -1 else 0
  }

  lemma ErasesBlockNet(f: Func, g: Func, head: BlockId, decs: set<BlockId>, arg: Arg, b: BlockId, c: AliasClass)
    requires Erases(f, g, head, decs, arg) && b < |f.blocks|
    ensures Net(g.blocks[b], c) == Net(f.blocks[b], c) - Toll(head, decs, arg, b, c)
  {
    if b == head {
      ErasedOneNet(f.blocks[b], g.blocks[b], Inc(arg), c);
    } else if b in decs {
      ErasedOneNet(f.blocks[b], g.blocks[b], Dec(arg), c);
    }
  }

  /** What the erasure has taken from the object's count along a walk. */
  ghost function Owed(w: Walk, head: BlockId, decs: set<BlockId>, arg: Arg, life: Life): int {
    if w == [] then 0 else Owed(Init(w), head, decs, arg, life) + Toll(head, decs, arg, Last(w), life(|w| - 1))
  }

  /** Exactly how the erasure changes the count: by the heads that are not paid back. */
  lemma {:induction false} ErasesNet(f: Func, g: Func, head: BlockId, decs: set<BlockId>, arg: Arg, w: Walk, life: Life)
    requires f.Valid() && g.Valid() && Erases(f, g, head, decs, arg)
    requires EntryWalk(f.succ, w)
    ensures WalkNet(g, w, life) == WalkNet(f, w, life) - Owed(w, head, decs, arg, life)
    decreases |w|
  {
    if w != [] {
      EntryPrefix(f.succ, w);
      ErasesNet(f, g, head, decs, arg, Init(w), life);
      ErasesBlockNet(f, g, head, decs, arg, Last(w), life(|w| - 1));
    }
  }

  /** For a fixed aliasing that is the surplus of head visits. */
  lemma {:induction false} OwedIsDiff(w: Walk, head: BlockId, decs: set<BlockId>, arg: Arg, c: AliasClass)
    requires head !in decs
    ensures Owed(w, head, decs, arg, Constant(c)) == if Counted(arg, c) then Diff(w, head, decs) else 0
    decreases |w|
  {
    if w != [] {
      OwedIsDiff(Init(w), head, decs, arg, c);
    }
  }

  // ----- one object for each head and its decref

  /** Position of the last visit to a block, or -1. */
  ghost function LastVisit(w: Walk, b: BlockId): (r: int)
    ensures -1 <= r < |w| && (r >= 0 ==> w[r] == b) && forall i :: r < i < |w| ==> w[i] != b
  {
    if w == [] then -1 else if Last(w) == b then |w| - 1 else LastVisit(Init(w), b)
  }

  /** Whether the last head visit took a reference to the object. */
  ghost predicate HeadCounted(w: Walk, head: BlockId, arg: Arg, life: Life) {
    LastVisit(w, head) >= 0 && Counted(arg, life(LastVisit(w, head)))
  }

  /** Every decref block reached finds the value holding what it held at the last head visit. */
  ghost predicate SamePayer(w: Walk, head: BlockId, decs: set<BlockId>, arg: Arg, life: Life) {
    w == [] || (
      && SamePayer(Init(w), head, decs, arg, life)
      && (Last(w) in decs ==> (Counted(arg, life(|w| - 1)) <==> HeadCounted(Init(w), head, arg, life))))
  }

  /** A value assigned in a dominator of the head is not assigned again between the head and a
      tail: the walk could have come to the tail without the head. */
  lemma NoReassignment(g: Cfg, head: BlockId, decs: set<BlockId>, tails: set<BlockId>, d: BlockId, w: Walk, m: nat)
    requires BackwardOk(g, head, decs, tails, {}) && Dominates(g, d, head)
    requires EntryWalk(g, w) && w != [] && Last(w) in decs && 0 <= LastVisit(w, head) < m < |w|
    ensures w[m] != d
  {
    if w[m] == d {
      var x := Bypass(g, d, head, w, LastVisit(w, head), m);
      HeadDominatesTails(g, head, decs, tails, Last(w));
      assert false;
    }
  }

  /** If the walk passes `d` again after its last head visit, leaving out everything between the
      first and that visit to `d` gives a walk without the head. */
  lemma Bypass(g: Cfg, d: BlockId, head: BlockId, w: Walk, h: nat, m: nat) returns (x: Walk)
    requires Dominates(g, d, head) && EntryWalk(g, w) && h < m < |w| && w[h] == head && w[m] == d
    requires forall i :: h < i < |w| ==> w[i] != head
    ensures EntryWalk(g, x) && x != [] && Last(x) == Last(w) && head !in x
  {
    HeadAfter(g, d, head, w, h);
    var q := FirstVisit(w, d);
    FirstIsFirst(g, w, d, head, h, q);
    WalkSlice(g, w, 0, q);
    WalkSlice(g, w, m, |w|);
    var a, z := w[0..q], w[m..|w|];
    assert q > 0 ==> Edge(g, w[q - 1], w[q]);
    WalkAppend(g, a, z);
    x := a + z;
    assert head !in a && head !in z;
  }

  lemma HeadAfter(g: Cfg, d: BlockId, head: BlockId, w: Walk, h: nat)
    requires Dominates(g, d, head) && EntryWalk(g, w) && h < |w| && w[h] == head
    ensures d in w
  {
    WalkSlice(g, w, 0, h + 1);
    var u := w[0..h + 1];
    assert Last(u) == head && d in u;
  }

  ghost function FirstVisit(w: Walk, b: BlockId): (r: nat)
    requires b in w
    ensures r < |w| && w[r] == b && forall i :: 0 <= i < r ==> w[i] != b
  {
    if w[0] == b then 0 else 1 + FirstVisit(w[1..], b)
  }

  /** The head does not come before the first visit to its dominator. */
  lemma FirstIsFirst(g: Cfg, w: Walk, d: BlockId, head: BlockId, h: nat, q: nat)
    requires Dominates(g, d, head) && EntryWalk(g, w) && h < |w| && q < |w|
    requires w[q] == d && forall i :: 0 <= i < q ==> w[i] != d
    ensures forall i :: 0 <= i < q ==> w[i] != head
  {
    forall i: nat | i < q ensures w[i] != head {
      WalkSlice(g, w, 0, i + 1);
      var u := w[0..i + 1];
      assert d !in u;
    }
  }

  /** Heads and decref blocks alternate along `w`, and between a head and its decref block
      nothing else lowers any count. */
  ghost predicate Bracketed(f: Func, head: BlockId, decs: set<BlockId>, w: Walk) {
    w == [] || (
      && Bracketed(f, head, decs, Init(w))
      && 0 <= Diff(w, head, decs) <= 1
      && (Diff(Init(w), head, decs) == 1 ==>
            Last(w) in decs || (Last(w) < |f.blocks| && !HasDec(f.blocks[Last(w)]))))
  }

  /** How low block `b` of the pruned function dips: decref blocks are in normal form, and
      a sheltered block does not dip at all. */
  lemma ErasedBlockLow(f: Func, g: Func, head: BlockId, decs: set<BlockId>, arg: Arg, b: BlockId, c: AliasClass)
    requires f.Valid() && AllNormal(f) && Erases(f, g, head, decs, arg) && b < |f.blocks|
    ensures b in decs ==> Low(g.blocks[b], c) == Min(0, Net(g.blocks[b], c))
    ensures !HasDec(f.blocks[b]) ==> Low(g.blocks[b], c) == 0
    ensures b != head && b !in decs ==> g.blocks[b] == f.blocks[b]
  {
    ErasesShape(f, g, head, decs, arg);
    assert BlockShape(f.blocks[b], g.blocks[b]);
    NormalLow(g.blocks[b], c);
    if !HasDec(f.blocks[b]) {
      NoDecRises(g.blocks[b], c);
    }
  }

  /** Erasing a bracketed incref and its decrefs never lowers the count below a value the
      original reached. */
  lemma {:induction false} BracketLow(f: Func, g: Func, head: BlockId, decs: set<BlockId>, arg: Arg, w: Walk,
                                      life: Life)
    requires f.Valid() && g.Valid() && AllNormal(f) && Erases(f, g, head, decs, arg)
    requires !HasDec(f.blocks[head])
    requires EntryWalk(f.succ, w) && Bracketed(f, head, decs, w) && SamePayer(w, head, decs, arg, life)
    ensures WalkLow(g, w, life) >= WalkLow(f, w, life)
    decreases |w|
  {
    if w != [] {
      var u := Init(w);
      WalkCounts(f, w, life);
      WalkCounts(g, w, life);
      BracketLow(f, g, head, decs, arg, u, life);
      ErasesNet(f, g, head, decs, arg, u, life);
      ErasesNet(f, g, head, decs, arg, w, life);
      ErasedBlockLow(f, g, head, decs, arg, Last(w), life(|w| - 1));
      BracketDiff(f, head, decs, w);
      OwedIsHead(f, head, decs, arg, u, life);
      OwedIsHead(f, head, decs, arg, w, life);
    }
  }

  /** What is owed on a bracketed walk: the reference of the head that is not paid back yet. */
  lemma {:induction false} OwedIsHead(f: Func, head: BlockId, decs: set<BlockId>, arg: Arg, w: Walk, life: Life)
    requires Bracketed(f, head, decs, w) && SamePayer(w, head, decs, arg, life) && head !in decs
    ensures Diff(w, head, decs) == 0 ==> Owed(w, head, decs, arg, life) == 0
    ensures Diff(w, head, decs) == 1 ==>
              Owed(w, head, decs, arg, life) == Indicator(HeadCounted(w, head, arg, life))
    decreases |w|
  {
    if w != [] {
      OwedIsHead(f, head, decs, arg, Init(w), life);
      BracketDiff(f, head, decs, w);
    }
  }

  lemma {:induction false} SteadyOver(w: Walk, life: Life, def: nat -> BlockId, v: nat, h: nat, n: nat)
    requires Steady(w, life, def) && h <= n < |w| && forall m :: h < m <= n ==> w[m] != def(v)
    ensures v in life(n) <==> v in life(h)
    decreases n
  {
    if h < n {
      SteadyOver(w, life, def, v, h, n - 1);
      assert w[n] != def(v);
    }
  }

  /** The head and the tail act on the same object, whatever the values go through. */
  lemma TailPays(f: Func, head: BlockId, decs: set<BlockId>, tails: set<BlockId>, v: nat, w: Walk, life: Life)
    requires f.Valid() && BackwardOk(f.succ, head, decs, tails, {}) && head < |f.blocks| && head !in decs
    requires HasRefOp(f.blocks[head], v)
    requires EntryWalk(f.succ, w) && w != [] && Last(w) in decs && Lives(f, w, life)
    ensures v in life(|w| - 1) <==> HeadCounted(Init(w), head, Val(v), life)
  {
    var def :| Ssa(f, def) && Steady(w, life, def);
    var h := LastVisit(w, head);
    HeadDominatesTails(f.succ, head, decs, tails, Last(w));
    assert head in w;
    assert h >= 0 && h == LastVisit(Init(w), head);
    assert Dominates(f.succ, def(v), head);
    forall m: nat | h < m < |w| ensures w[m] != def(v) {
      NoReassignment(f.succ, head, decs, tails, def(v), w, m);
    }
    SteadyOver(w, life, def, v, h, |w| - 1);
  }

  lemma LivesInit(f: Func, w: Walk, life: Life)
    requires w != [] && Lives(f, w, life)
    ensures Lives(f, Init(w), life)
  {
    var def :| Ssa(f, def) && Steady(w, life, def);
    assert Steady(Init(w), life, def);
  }

  lemma {:induction false} LivesPay(f: Func, head: BlockId, decs: set<BlockId>, tails: set<BlockId>, arg: Arg,
                                    w: Walk, life: Life)
    requires f.Valid() && BackwardOk(f.succ, head, decs, tails, {}) && head < |f.blocks| && head !in decs
    requires arg.Val? ==> HasRefOp(f.blocks[head], arg.v)
    requires EntryWalk(f.succ, w) && Lives(f, w, life)
    ensures SamePayer(w, head, decs, arg, life)
    decreases |w|
  {
    if w != [] {
      EntryPrefix(f.succ, w);
      LivesInit(f, w, life);
      LivesPay(f, head, decs, tails, arg, Init(w), life);
      if arg.Val? && Last(w) in decs {
        TailPays(f, head, decs, tails, arg.v, w, life);
      }
    }
  }

  lemma ErasesHasRefOp(f: Func, g: Func, head: BlockId, decs: set<BlockId>, arg: Arg)
    requires Erases(f, g, head, decs, arg) && arg.Val?
    ensures HasRefOp(f.blocks[head], arg.v)
  {
    var k: nat :| k < |f.blocks[head]| && f.blocks[head][k].op == Inc(arg);
    assert IsRefOp(f.blocks[head][k]);
  }

  lemma BracketDiff(f: Func, head: BlockId, decs: set<BlockId>, w: Walk)
    requires w != [] && Bracketed(f, head, decs, w) && head !in decs
    ensures var d := Diff(Init(w), head, decs);
            && 0 <= d <= 1
            && Diff(w, head, decs) == d + (if Last(w) == head then 1 else if Last(w) in decs then -1 else 0)
            && (d == 0 ==> Last(w) !in decs) && (d == 1 ==> Last(w) != head)
            && (d == 1 && Last(w) !in decs ==> Last(w) < |f.blocks| && !HasDec(f.blocks[Last(w)]))
  {
    assert Init(w) == [] ==> Diff(Init(w), head, decs) == 0;
  }

  lemma BracketSafe(f: Func, g: Func, head: BlockId, decs: set<BlockId>, tails: set<BlockId>, arg: Arg, exact: bool)
    requires f.Valid() && AllNormal(f) && Erases(f, g, head, decs, arg)
    requires !HasDec(f.blocks[head]) && BackwardOk(f.succ, head, decs, tails, {})
    requires forall w :: EntryWalk(f.succ, w) ==> Bracketed(f, head, decs, w)
    requires forall w :: Complete(f.succ, w) && (exact || AvoidsRaises(f, w)) ==> Diff(w, head, decs) == 0
    ensures Safe(f, g, exact)
  {
    ErasesShape(f, g, head, decs, arg);
    if arg.Val? {
      ErasesHasRefOp(f, g, head, decs, arg);
    }
    forall w, life | EntryWalk(f.succ, w) && Lives(f, w, life) ensures WalkLow(g, w, life) >= WalkLow(f, w, life) {
      LivesPay(f, head, decs, tails, arg, w, life);
      BracketLow(f, g, head, decs, arg, w, life);
    }
    forall w, life | Complete(f.succ, w) && Lives(f, w, life)
      ensures WalkNet(g, w, life) <= WalkNet(f, w, life)
      ensures exact || AvoidsRaises(f, w) ==> WalkNet(g, w, life) == WalkNet(f, w, life)
    {
      LivesPay(f, head, decs, tails, arg, w, life);
      assert Bracketed(f, head, decs, w);
      OwedIsHead(f, head, decs, arg, w, life);
      BracketDiff(f, head, decs, w);
      ErasesNet(f, g, head, decs, arg, w, life);
    }
  }
}
