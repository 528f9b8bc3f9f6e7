/** Why pruning an accepted fan-out respects reference counts, with and without raises. */
module FanoutSafety {
  import opened ControlFlow
  import opened Ir
  import opened Safety
  import opened FanoutSearch

  /** No decref is executed in or after a raising block. */
  ghost predicate QuietRaises(f: Func) {
    forall w, i :: IsWalk(f.succ, w) && w != [] && w[0] in RaisingBlocks(f) && 0 <= i < |w|
      ==> w[i] !in DecBlocks(f)
  }

  lemma QuietShrinks(f: Func, g: Func)
    requires SameShape(f, g) && QuietRaises(f)
    ensures QuietRaises(g)
  {
    SameRaising(f, g);
    forall w, i | IsWalk(g.succ, w) && w != [] && w[0] in RaisingBlocks(g) && 0 <= i < |w|
      ensures w[i] !in DecBlocks(g)
    {
      assert w[i] !in DecBlocks(f);
    }
  }

  lemma AcceptedEnds(f: Func, head: BlockId, arg: Arg, raise: bool)
    requires f.Valid() && ForwardHolds(f, head, arg, raise)
    ensures var d, r := FirstDecrefs(f, head, arg, raise), FirstRaises(f, head, raise);
            && d !! r && d + r == TouchedStops(f.succ, head, Stops(f, raise)) && head !in d + r
            && d + r <= Stops(f, raise) && d <= DecBlocks(f) && r <= RaisingBlocks(f) - DecBlocks(f)
            && Clean(f.succ, head, Stops(f, raise), d + r)
  {
    AcceptedStops(f, arg, raise);
  }

  /** A start of the backward walk that lies before a raise would make the raise noisy. */
  lemma QuietWalk(f: Func, w: Walk, i: nat)
    requires f.Valid() && QuietRaises(f) && IsWalk(f.succ, w) && w != [] && Last(w) in DecBlocks(f) && i < |w|
    ensures w[i] !in RaisingBlocks(f)
  {
    WalkSlice(f.succ, w, i, |w|);
    var v := w[i..|w|];
    assert v[0] == w[i] && v[|v| - 1] == Last(w);
  }

  /** In either mode the accepted tails are awaited by the head: skipping raising blocks in
      the backward walk overlooks nothing when raises are quiet. */
  lemma UnskippedBackward(f: Func, head: BlockId, arg: Arg, raise: bool)
    requires f.Valid() && FanoutHolds(f, head, arg, raise) && (raise ==> QuietRaises(f))
    ensures var d, r := FirstDecrefs(f, head, arg, raise), FirstRaises(f, head, raise);
            BackwardOk(f.succ, head, d, d + r, {})
  {
    var d, r := FirstDecrefs(f, head, arg, raise), FirstRaises(f, head, raise);
    var skip := Skipped(f, raise);
    AcceptedEnds(f, head, arg, raise);
    forall b | BackReach(f.succ, head, d, {}, b) ensures b != ENTRY && !HasPredIn(f.succ, d + r, b) {
      var w :| BackWalk(f.succ, head, d, {}, w) && w[0] == b;
      forall i: nat | i < |w| ensures w[i] !in skip {
        if raise {
          QuietWalk(f, w, i);
        }
      }
      assert BackWalk(f.succ, head, d + r, skip, w);
      assert w[0] !in skip;
      assert BackReach(f.succ, head, d + r, skip, b);
    }
  }

  lemma {:induction false} EscapeNeedsRaise(f: Func, head: BlockId, decs: set<BlockId>, raises: set<BlockId>, w: Walk)
    requires forall i :: 0 <= i < |w| ==> w[i] !in raises
    ensures Escapes(w, head, decs, raises) == 0
    decreases |w|
  {
    if w != [] {
      assert forall i :: 0 <= i < |Init(w)| ==> Init(w)[i] == w[i];
      EscapeNeedsRaise(f, head, decs, raises, Init(w));
    }
  }

  lemma HeadReachesDecref(f: Func, head: BlockId, arg: Arg, v: Walk) returns (z: Walk)
    requires f.Valid() && FirstDecrefs(f, head, arg, true) != {}
    requires IsWalk(f.succ, v) && v != [] && Last(v) == head
    ensures IsWalk(f.succ, z) && z != [] && z[0] == v[0] && z[|z| - 1] in DecBlocks(f)
  {
    AcceptedStops(f, arg, true);
    var d :| d in FirstDecrefs(f, head, arg, true);
    var u :| OpenWalk(f.succ, head, Stops(f, true), u) && Last(u) == d;
    WalkSlice(f.succ, u, 1, |u|);
    assert Edge(f.succ, u[0], u[1]);
    WalkAppend(f.succ, v, u[1..|u|]);
    z := v + u[1..|u|];
  }

  /** After a raise neither the head nor any decref comes again. */
  lemma NothingAfterRaise(f: Func, head: BlockId, arg: Arg, w: Walk, k: nat)
    requires f.Valid() && ForwardHolds(f, head, arg, true) && QuietRaises(f)
    requires FirstDecrefs(f, head, arg, true) != {}
    requires IsWalk(f.succ, w) && k < |w| && w[k] in RaisingBlocks(f)
    ensures Last(w) !in DecBlocks(f) && Last(w) != head
  {
    var v := w[k..|w|];
    WalkSlice(f.succ, w, k, |w|);
    assert v[0] in RaisingBlocks(f) && v[|v| - 1] == Last(w);
    if Last(w) == head {
      var z := HeadReachesDecref(f, head, arg, v);
    }
  }

  /** While the head is pending, the next block is a first decref, a first raise, or has no
      decref. */
  lemma PendingIsSheltered(f: Func, head: BlockId, arg: Arg, raise: bool, w: Walk)
    requires f.Valid() && ForwardHolds(f, head, arg, raise)
    requires EntryWalk(f.succ, w) && w != []
    requires Pend(Init(w), head, FirstDecrefs(f, head, arg, raise) + FirstRaises(f, head, raise))
    ensures Last(w) in FirstDecrefs(f, head, arg, raise) || !HasDec(f.blocks[Last(w)])
  {
    AcceptedEnds(f, head, arg, raise);
    EntryPrefix(f.succ, w);
    PendingIsOpen(f.succ, head, Stops(f, raise), Accepted(f, arg, raise), Init(w));
    TouchedStep(f.succ, head, Stops(f, raise), Last(Init(w)), Last(w));
    assert Last(w) in DecBlocks(f) ==> Last(w) in Stops(f, raise);
  }

  /** The ledger of an accepted fan-out on one walk. */
  lemma FanoutLedger(f: Func, head: BlockId, arg: Arg, raise: bool, w: Walk)
    requires f.Valid() && FanoutHolds(f, head, arg, raise) && (raise ==> QuietRaises(f))
    requires EntryWalk(f.succ, w)
    ensures LedgerHolds(w, head, FirstDecrefs(f, head, arg, raise), FirstRaises(f, head, raise))
    ensures Complete(f.succ, w) ==>
              Diff(w, head, FirstDecrefs(f, head, arg, raise))
              == Escapes(w, head, FirstDecrefs(f, head, arg, raise), FirstRaises(f, head, raise))
    ensures (forall i :: 0 <= i < |w| ==> w[i] !in FirstRaises(f, head, raise)) ==>
              Escapes(w, head, FirstDecrefs(f, head, arg, raise), FirstRaises(f, head, raise)) == 0
  {
    var d, r := FirstDecrefs(f, head, arg, raise), FirstRaises(f, head, raise);
    AcceptedEnds(f, head, arg, raise);
    UnskippedBackward(f, head, arg, raise);
    Ledger(f.succ, head, Stops(f, raise), d, r, w);
    if forall i :: 0 <= i < |w| ==> w[i] !in r {
      EscapeNeedsRaise(f, head, d, r, w);
    }
  }

  /** Head and decref visits alternate, head first, and nothing else lowers a count between
      them. */
  lemma {:induction false} FanoutBracketed(f: Func, head: BlockId, arg: Arg, raise: bool, w: Walk)
    requires f.Valid() && FanoutHolds(f, head, arg, raise) && (raise ==> QuietRaises(f))
    requires EntryWalk(f.succ, w)
    ensures Bracketed(f, head, FirstDecrefs(f, head, arg, raise), w)
    decreases |w|
  {
    if w != [] {
      var d, r := FirstDecrefs(f, head, arg, raise), FirstRaises(f, head, raise);
      var u := Init(w);
      EntryPrefix(f.succ, w);
      AcceptedEnds(f, head, arg, raise);
      FanoutBracketed(f, head, arg, raise, u);
      FanoutLedger(f, head, arg, raise, u);
      FanoutLedger(f, head, arg, raise, w);
      if exists k: nat :: k < |u| && u[k] in r {
        var k: nat :| k < |u| && u[k] in r;
        assert w[k] in RaisingBlocks(f);
        NothingAfterRaise(f, head, arg, w, k);
        assert u != [];
      } else if Pend(u, head, d + r) {
        PendingIsSheltered(f, head, arg, raise, w);
      }
    }
  }

  /** Pruning an accepted fan-out is safe; without raise mode every balance is exact. */
  lemma FanoutIsSafe(f: Func, g: Func, head: BlockId, arg: Arg, raise: bool)
    requires f.Valid() && AllNormal(f)
    requires FanoutHolds(f, head, arg, raise) && (raise ==> QuietRaises(f))
    requires !HasDec(f.blocks[head])
    requires Erases(f, g, head, FirstDecrefs(f, head, arg, raise), arg)
    ensures Safe(f, g, !raise)
  {
    var d, r := FirstDecrefs(f, head, arg, raise), FirstRaises(f, head, raise);
    forall w | EntryWalk(f.succ, w) ensures Bracketed(f, head, d, w) {
      FanoutBracketed(f, head, arg, raise, w);
    }
    forall w | Complete(f.succ, w) && (!raise || AvoidsRaises(f, w)) ensures Diff(w, head, d) == 0 {
      FanoutLedger(f, head, arg, raise, w);
    }
    UnskippedBackward(f, head, arg, raise);
    BracketSafe(f, g, head, d, d + r, arg, !raise);
  }

  /** The account of the raise mode: on a complete walk each object loses exactly one count for
      a head that took a reference to it and ran into a raise, and no walk has more than one
      such head. */
  lemma RaiseAccounting(f: Func, g: Func, head: BlockId, arg: Arg, w: Walk, life: Life)
    requires f.Valid() && g.Valid() && FanoutHolds(f, head, arg, true) && QuietRaises(f)
    requires Erases(f, g, head, FirstDecrefs(f, head, arg, true), arg)
    requires Complete(f.succ, w) && Lives(f, w, life)
    ensures var e := Escapes(w, head, FirstDecrefs(f, head, arg, true), FirstRaises(f, head, true));
            && e <= 1
            && WalkNet(g, w, life) == WalkNet(f, w, life) - if e == 1 && HeadCounted(w, head, arg, life) then 1 else 0
  {
    var d, r := FirstDecrefs(f, head, arg, true), FirstRaises(f, head, true);
    FanoutLedger(f, head, arg, true, w);
    FanoutBracketed(f, head, arg, true, w);
    UnskippedBackward(f, head, arg, true);
    if arg.Val? {
      ErasesHasRefOp(f, g, head, d, arg);
    }
    LivesPay(f, head, d, d + r, arg, w, life);
    OwedIsHead(f, head, d, arg, w, life);
    ErasesNet(f, g, head, d, arg, w, life);
  }

  ghost predicate AccountHolds(f: Func, g: Func, head: BlockId, arg: Arg, w: Walk, c: AliasClass)
    requires f.Valid() && g.Valid() && IsWalk(f.succ, w) && g.succ == f.succ
  {
    var d, r := FirstDecrefs(f, head, arg, true), FirstRaises(f, head, true);
    WalkNet(g, w, Constant(c)) == WalkNet(f, w, Constant(c))
      - if Counted(arg, c) then Escapes(w, head, d, r) + Indicator(Pend(w, head, d + r)) else 0
  }

  /** Without the hypothesis on raises: the account of the raise mode holds on all walks
      exactly when the backward condition also holds with no raising block skipped. */
  lemma RaiseAccountExact(f: Func, g: Func, head: BlockId, v: nat)
    requires f.Valid() && g.Valid() && ForwardHolds(f, head, Val(v), true) && Reachable(f.succ, head)
    requires Erases(f, g, head, FirstDecrefs(f, head, Val(v), true), Val(v))
    ensures (forall w, c :: EntryWalk(f.succ, w) ==> AccountHolds(f, g, head, Val(v), w, c))
            <==> var d, r := FirstDecrefs(f, head, Val(v), true), FirstRaises(f, head, true);
                 BackwardOk(f.succ, head, d, d + r, {})
  {
    var arg := Val(v);
    var d, r := FirstDecrefs(f, head, arg, true), FirstRaises(f, head, true);
    AcceptedEnds(f, head, arg, true);
    LedgerExact(f.succ, head, Stops(f, true), d, r);
    if BackwardOk(f.succ, head, d, d + r, {}) {
      forall w, c | EntryWalk(f.succ, w) ensures AccountHolds(f, g, head, arg, w, c) {
        ErasesNet(f, g, head, d, arg, w, Constant(c));
        OwedIsDiff(w, head, d, arg, c);
        assert LedgerHolds(w, head, d, r);
      }
    } else {
      var w :| EntryWalk(f.succ, w) && !LedgerHolds(w, head, d, r);
      var c := iset{v};
      ErasesNet(f, g, head, d, arg, w, Constant(c));
      OwedIsDiff(w, head, d, arg, c);
      assert !AccountHolds(f, g, head, arg, w, c);
    }
  }

  lemma VisitsOfThree(a: BlockId, b: BlockId, c: BlockId, s: set<BlockId>)
    ensures Visits([a, b, c], s) == Indicator(a in s) + Indicator(b in s) + Indicator(c in s)
  {
    VisitsSnoc([], a, s);
    VisitsSnoc([a], b, s);
    VisitsSnoc([a, b], c, s);
    assert [] + [a] == [a] && [a] + [b] == [a, b] && [a, b] + [c] == [a, b, c];
  }

  // ----- a function on which the raise mode loses a decref

  const PLAIN: Instr := Instr(9, Other)

  /** The entry branches to the head and to a raising block from which the decref block can
      be reached as well. */
  const NOISY: Func := Func(
    [[PLAIN], [Instr(0, Inc(Val(0)))], [Instr(1, RaiseStore)], [Instr(2, Dec(Val(0)))], [Instr(3, RaiseStore)]],
    [[1, 2], [3, 4], [3], [], []])

  lemma NoisyShape()
    ensures NOISY.Valid() && DecBlocks(NOISY) == {3} && RelatedBlocks(NOISY, Val(0)) == {3}
    ensures RaisingBlocks(NOISY) == {2, 4} && Stops(NOISY, true) == {2, 3, 4}
    ensures PureRaises(NOISY, true) == {2, 4}
  {
    var bs := NOISY.blocks;
    assert forall b :: 0 <= b < 5 ==> |bs[b]| == 1;
    assert IsDec(bs[3][0]) && IsRelatedDec(Val(0), bs[3][0]);
    assert bs[2][0].op == RaiseStore && bs[4][0].op == RaiseStore;
  }

  lemma NoisyTouched()
    ensures forall b: BlockId :: Touched(NOISY.succ, 1, {2, 3, 4}, b) <==> b == 3 || b == 4
  {
    var g := NOISY.succ;
    forall b: BlockId | b == 3 || b == 4 ensures Touched(g, 1, {2, 3, 4}, b) {
      assert g[1] == [3, 4] && g[1][0] == 3 && g[1][1] == 4;
      assert OpenWalk(g, 1, {2, 3, 4}, [1, b]) && Last([1, b]) == b;
    }
    forall b: BlockId | Touched(g, 1, {2, 3, 4}, b) ensures b == 3 || b == 4 {
      var w :| OpenWalk(g, 1, {2, 3, 4}, w) && Last(w) == b;
      var x := w[1];
      assert Edge(g, w[0], x);
      assert |w| > 2 ==> Open(1, {2, 3, 4}, x);
    }
  }

  lemma NoisyBackward()
    ensures BackwardOk(NOISY.succ, 1, {3, 4}, {3, 4}, {2, 4})
  {
    var g := NOISY.succ;
    forall b | BackReach(g, 1, {3, 4}, {2, 4}, b) ensures b == 3 {
      var w :| BackWalk(g, 1, {3, 4}, {2, 4}, w) && w[0] == b;
      var n, y := |w|, Last(w);
      var x: BlockId := if n > 1 then w[n - 2] else 0;
      assert n > 1 ==> Edge(g, x, y) && y !in {2, 4} && x != 1;
      assert n > 1 ==> y == 3 && x == 2;
    }
    forall t: BlockId | Edge(g, t, 3) ensures t !in {3, 4} {
    }
  }

  /** The search takes two steps. */
  lemma NoisyInLimits(limit: nat)
    requires limit >= 2
    ensures !LimitHit(NOISY, 1, true, limit)
  {
    var g, stops := NOISY.succ, Stops(NOISY, true);
    NoisyShape();
    assert g[1] == [3, 4];
    assert Tree(g, stops, [1], 3) == 1 && Tree(g, stops, [1], 4) == 1;
    assert Forest(g, stops, [1], g[1], 0) == 0;
    assert Forest(g, stops, [1], g[1], 1) == 1;
    assert Forest(g, stops, [1], g[1], 2) == 2;
    forall p: Walk | |p| >= 3 ensures !OnPath(g, 1, stops, p) {
      var x := p[1];
      assert Edge(g, 1, x) ==> !Open(1, stops, x);
    }
  }

  /** The hypothesis on raises is needed: the raise mode accepts this fan-out although a
      complete walk reaches its decref without ever passing the head. */
  lemma RaiseModeNeedsQuietRaises(limit: nat)
    requires limit >= 2
    ensures NOISY.Valid() && FanoutHolds(NOISY, 1, Val(0), true) && !HasDec(NOISY.blocks[1])
    ensures !LimitHit(NOISY, 1, true, limit)
    ensures Complete(NOISY.succ, [0, 2, 3])
    ensures Diff([0, 2, 3], 1, FirstDecrefs(NOISY, 1, Val(0), true)) == -1
  {
    NoisyShape();
    NoisyTouched();
    NoisyBackward();
    NoisyInLimits(limit);
    assert FirstDecrefs(NOISY, 1, Val(0), true) == {3};
    assert FirstRaises(NOISY, 1, true) == {4};
    assert {3} + {4} == {3, 4};
    var g := NOISY.succ;
    assert g[0] == [1, 2] && g[0][1] == 2 && g[2] == [3] && g[2][0] == 3;
    VisitsOfThree(0, 2, 3, {1});
    VisitsOfThree(0, 2, 3, {3});
  }
}
