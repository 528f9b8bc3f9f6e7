/** What the pass manager runs for add_refprune_pass: normalization, then the pruner. */
module Pipeline {
  import opened ControlFlow
  import opened Ir
  import opened Safety
  import RefNormalize
  import opened PerBlockPrune
  import opened RefPrune

  /** Both passes on one function.  If no candidate diamond is re-enterable (when that
      subpass is on) and raises are quiet (when that subpass is on), no walk of the result
      ever takes a count lower than the original did, and every complete walk - every one
      that raises not, in raise mode - ends with the original balance. */
  method AddRefPrunePass(fn: Function, trees: Trees, flags: Subpasses, subgraphLimit: nat)
    returns (pruner: Pruner)
    requires fn.Body().Valid()
    modifies fn
    ensures fresh(pruner) && pruner.trees == trees && pruner.flags == flags && pruner.subgraphLimit == subgraphLimit
    ensures SameShape(old(fn.Body()), fn.Body()) && fn.Body().Valid() && AllNormal(fn.Body())
    ensures pruner.Premises(old(fn.Body())) ==> Safe(old(fn.Body()), fn.Body(), !flags.fanoutRaise)
    ensures TotalRefOps(fn.blocks) + pruner.Erased() == old(TotalRefOps(fn.blocks))
    ensures pruner.RoundDone(fn.Body()) && pruner.RoundIdle(fn.Body())
    ensures pruner.RoundsBetween(Moment(RefNormalize.Normalized(old(fn.Body())), 0, 0, 0, 0), pruner.Now(fn))
    ensures flags.perBB ==> WithinSurplus(old(fn.blocks), fn.blocks)
    ensures flags.perBB ==> forall b, x :: 0 <= b < |fn.blocks| && x in fn.blocks[b] ==>
              x.op != Inc(NullPtr) && x.op != Dec(NullPtr)
  {
    ghost var f := fn.Body();
    var normalized := RefNormalize.RunOnFunction(fn);
    ghost var g := fn.Body();
    RefNormalize.NormalizeIsSafe(f);
    NormalizeKeepsRefOps(f);
    pruner := new Pruner(trees, flags, subgraphLimit);
    var mutated := pruner.RunOnFunction(fn);
    pruner.AfterSafePass(f, g, fn.Body());
    StaysWithin(f, fn.blocks);
  }

  lemma StaysWithin(f: Func, bs: seq<Block>)
    ensures WithinSurplus(RefNormalize.Normalized(f).blocks, bs) ==> WithinSurplus(f.blocks, bs)
  {
    NormalizeKeepsCounts(f);
  }

  lemma {:induction false} PartitionRefOps(s: Block)
    ensures RefOps(RefNormalize.NonDecs(s)) + RefOps(RefNormalize.Decs(s)) == RefOps(s)
    decreases |s|
  {
    if s != [] {
      var t, y := s[..|s| - 1], s[|s| - 1];
      PartitionRefOps(t);
      var n, d := RefNormalize.NonDecs(t), RefNormalize.Decs(t);
      if IsDec(y) {
        assert RefNormalize.NonDecs(s) == n && RefNormalize.Decs(s) == d + [y];
        RefOpsSnoc(d, y);
      } else {
        assert RefNormalize.NonDecs(s) == n + [y] && RefNormalize.Decs(s) == d;
        assert (n + [y])[..|n|] == n;
      }
    }
  }

  lemma {:induction false} PartitionOps(s: Block, op: Op)
    ensures CountOps(RefNormalize.NonDecs(s), op) + CountOps(RefNormalize.Decs(s), op) == CountOps(s, op)
    decreases |s|
  {
    if s != [] {
      var t, y := s[..|s| - 1], s[|s| - 1];
      PartitionOps(t, op);
      CountSnoc(RefNormalize.NonDecs(t), y, op);
      CountSnoc(RefNormalize.Decs(t), y, op);
      if IsDec(y) {
        assert RefNormalize.NonDecs(s) == RefNormalize.NonDecs(t);
      } else {
        assert RefNormalize.Decs(s) == RefNormalize.Decs(t);
      }
    }
  }

  lemma CountSnoc(s: Block, x: Instr, op: Op)
    ensures CountOps(s + [x], op) == CountOps(s, op) + if x.op == op then 1 else 0
  {
    assert (s + [x])[..|s|] == s;
  }

  lemma {:induction false} CountConcat(a: Block, b: Block, op: Op)
    ensures CountOps(a + b, op) == CountOps(a, op) + CountOps(b, op)
    decreases |b|
  {
    if b == [] {
      assert a + b == a;
    } else {
      assert (a + b)[..|a + b| - 1] == a + b[..|b| - 1];
      CountConcat(a, b[..|b| - 1], op);
    }
  }

  lemma NormalizeKeepsCounts(f: Func)
    ensures forall b, op :: 0 <= b < |f.blocks| ==>
              CountOps(RefNormalize.Normalized(f).blocks[b], op) == CountOps(f.blocks[b], op)
  {
    forall b, op | 0 <= b < |f.blocks|
      ensures CountOps(RefNormalize.NormalizeBlock(f.blocks[b]), op) == CountOps(f.blocks[b], op)
    {
      PartitionOps(f.blocks[b], op);
      CountConcat(RefNormalize.NonDecs(f.blocks[b]), RefNormalize.Decs(f.blocks[b]), op);
    }
  }

  lemma NormalizeBlockKeepsRefOps(s: Block)
    ensures RefOps(RefNormalize.NormalizeBlock(s)) == RefOps(s)
  {
    PartitionRefOps(s);
    RefOpsConcat(RefNormalize.NonDecs(s), RefNormalize.Decs(s));
  }

  lemma {:induction false} TotalPointwise(bs: seq<Block>, cs: seq<Block>)
    requires |bs| == |cs| && forall b :: 0 <= b < |bs| ==> RefOps(bs[b]) == RefOps(cs[b])
    ensures TotalRefOps(bs) == TotalRefOps(cs)
    decreases |bs|
  {
    if bs != [] {
      TotalPointwise(bs[..|bs| - 1], cs[..|cs| - 1]);
    }
  }

  lemma NormalizeKeepsRefOps(f: Func)
    ensures TotalRefOps(RefNormalize.Normalized(f).blocks) == TotalRefOps(f.blocks)
  {
    forall b | 0 <= b < |f.blocks| ensures RefOps(RefNormalize.Normalized(f).blocks[b]) == RefOps(f.blocks[b]) {
      NormalizeBlockKeepsRefOps(f.blocks[b]);
    }
    TotalPointwise(RefNormalize.Normalized(f).blocks, f.blocks);
  }
}
