/** Where the limits of the forward search lie, on functions whose blocks form one chain. */
module SearchLimits {
  import opened ControlFlow
  import opened Ir
  import opened FanoutSearch

  /** Block 1 has the incref, block `n` + 2 the decref, and `n` blocks lie between them. */
  function Chain(n: nat): Func {
    Func(seq(n + 3, b => if b == 1 then [Instr(1, Inc(Val(0)))]
                         else if b == n + 2 then [Instr(2, Dec(Val(0)))]
                         else []),
         seq(n + 3, b requires 0 <= b < n + 3 => if b < n + 2 then [b + 1] else []))
  }

  function Count(from: nat, n: nat): Walk {
    seq(n, i requires 0 <= i < n => from + i)
  }

  lemma ChainShape(n: nat)
    ensures Chain(n).Valid() && DecBlocks(Chain(n)) == {n + 2} && RelatedBlocks(Chain(n), Val(0)) == {n + 2}
    ensures forall a: BlockId, b: BlockId :: Edge(Chain(n).succ, a, b) <==> a < n + 2 && b == a + 1
  {
    var f := Chain(n);
    assert f.blocks[n + 2][0].op == Dec(Val(0)) && f.blocks[1] == [Instr(1, Inc(Val(0)))];
    assert forall b: BlockId :: b < n + 2 && b != 1 ==> f.blocks[b] == [];
  }

  lemma {:induction false} ChainWalk(n: nat, w: Walk, i: nat)
    requires IsWalk(Chain(n).succ, w) && i < |w|
    ensures w[i] == w[0] + i
  {
    ChainShape(n);
    if i > 0 {
      ChainWalk(n, w, i - 1);
      assert Edge(Chain(n).succ, w[i - 1], w[i]);
    }
  }

  lemma CountIsWalk(n: nat, from: nat, k: nat)
    requires from + k <= n + 3
    ensures IsWalk(Chain(n).succ, Count(from, k))
  {
    ChainShape(n);
    var w := Count(from, k);
    forall i, j | 0 <= i && j == i + 1 && j < |w| ensures Edge(Chain(n).succ, w[i], w[j]) {
    }
  }

  lemma OpenOnChain(n: nat, w: Walk)
    requires OpenWalk(Chain(n).succ, 1, {n + 2}, w)
    ensures Last(w) == |w| && 2 <= |w| <= n + 2
  {
    ChainShape(n);
    ChainWalk(n, w, |w| - 1);
    if n + 1 < |w| {
      ChainWalk(n, w, n + 1);
    }
  }

  lemma ChainEnd(n: nat)
    ensures Touched(Chain(n).succ, 1, {n + 2}, n + 2)
  {
    CountIsWalk(n, 1, n + 2);
    assert OpenWalk(Chain(n).succ, 1, {n + 2}, Count(1, n + 2));
  }

  /** The chain meets the fan-out condition, whatever its length. */
  lemma ChainHolds(n: nat)
    ensures FanoutHolds(Chain(n), 1, Val(0), false)
  {
    var f := Chain(n);
    var ends: set<BlockId> := {n + 2};
    ChainShape(n);
    assert Stops(f, false) == ends && Accepted(f, Val(0), false) == ends;
    forall b: BlockId | Touched(f.succ, 1, ends, b) ensures 2 <= b <= n + 2 {
      var w :| OpenWalk(f.succ, 1, ends, w) && Last(w) == b;
      OpenOnChain(n, w);
    }
    ChainEnd(n);
    assert FirstDecrefs(f, 1, Val(0), false) == ends && FirstRaises(f, 1, false) == {};
    assert ends + {} == ends;
    ChainBackward(n);
  }

  lemma ChainBackward(n: nat)
    ensures BackwardOk(Chain(n).succ, 1, {n + 2}, {n + 2}, {})
  {
    var g := Chain(n).succ;
    var ends: set<BlockId> := {n + 2};
    ChainShape(n);
    forall b | BackReach(g, 1, ends, {}, b) ensures b >= 2 && !HasPredIn(g, ends, b) {
      var w :| BackWalk(g, 1, ends, {}, w) && w[0] == b;
      ChainWalk(n, w, |w| - 1);
      if |w| > 1 {
        ChainWalk(n, w, 1);
      }
    }
  }

  lemma ChainDepth(n: nat)
    ensures LongPath(Chain(n).succ, 1, {n + 2}) <==> n >= 14
  {
    var g := Chain(n).succ;
    var ends: set<BlockId> := {n + 2};
    if n >= 14 {
      CountIsWalk(n, 1, 15);
      assert Deepest(g, 1, ends, Count(1, 15));
    } else {
      forall p | IsWalk(g, p) && |p| == 15 && p[0] == 1 ensures !Open(1, ends, p[n + 1]) {
        ChainWalk(n, p, n + 1);
      }
      forall p ensures !Deepest(g, 1, ends, p) {
        assert OnPath(g, 1, ends, p) && |p| == 15 ==> IsWalk(g, p);
      }
    }
  }

  lemma {:induction false} ChainSteps(n: nat, i: nat)
    requires 1 <= i <= n + 1 <= 14
    ensures Tree(Chain(n).succ, {n + 2}, Count(1, i), i + 1) == n + 2 - i
    decreases n - i
  {
    var g, path, cur := Chain(n).succ, Count(1, i), i + 1;
    ChainShape(n);
    if i <= n {
      ChainSteps(n, i + 1);
      assert path + [cur] == Count(1, i + 1) && g[cur] == [i + 2];
      assert Forest(g, {n + 2}, path + [cur], g[cur], 0) == 0;
    }
  }

  /** The search accepts the incref of a chain exactly if at most 13 blocks lie between it and
      the decref, and fewer than the subgraph limit. */
  lemma ChainAccepted(n: nat, limit: nat)
    ensures Chain(n).Valid() && FanoutHolds(Chain(n), 1, Val(0), false)
    ensures !LimitHit(Chain(n), 1, false, limit) <==> n <= 13 && n < limit
  {
    var f := Chain(n);
    ChainShape(n);
    ChainHolds(n);
    ChainDepth(n);
    assert Stops(f, false) == {n + 2};
    if n <= 13 {
      ChainSteps(n, 1);
      assert Count(1, 1) == [1] && f.succ[1] == [2];
      assert Forest(f.succ, {n + 2}, [1], f.succ[1], 0) == 0;
    }
  }
}
