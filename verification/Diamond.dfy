/** The diamond subpass: its depth-first scan between head and tail, and what an accepted
    pair of blocks guarantees. */
module Diamond {
  import opened ControlFlow
  import opened DiamondWalks
  import opened Ir
  import opened Safety
  import FanoutSearch

  ghost predicate DecrefBetween(f: Func, head: BlockId, tail: BlockId) {
    exists b :: Between(f.succ, head, tail, b) && b in DecBlocks(f)
  }

  /** The tests the subpass makes on the blocks of an incref and a decref. */
  ghost predicate DiamondHolds(f: Func, head: BlockId, tail: BlockId) {
    && head < |f.succ| && tail < |f.succ| && head != tail
    && Dominates(f.succ, head, tail) && PostDominates(f.succ, tail, head)
    && BackwardOk(f.succ, head, {tail}, {tail}, {})
    && !DecrefBetween(f, head, tail)
  }

  /** A decref in between is one that some walk from the head reaches without the tail. */
  lemma DecrefBetweenMeans(f: Func, head: BlockId, tail: BlockId)
    requires f.Valid()
    ensures DecrefBetween(f, head, tail)
            <==> exists w :: IsWalk(f.succ, w) && w != [] && w[0] == head && tail !in w && HasDec(f.blocks[Last(w)])
  {
    if DecrefBetween(f, head, tail) {
      var b :| Between(f.succ, head, tail, b) && b in DecBlocks(f);
      var w :| AvoidWalk(f.succ, head, tail, w) && Last(w) == b;
      assert IsWalk(f.succ, w) && HasDec(f.blocks[Last(w)]);
    }
    forall w | IsWalk(f.succ, w) && w != [] && w[0] == head && tail !in w && HasDec(f.blocks[Last(w)])
      ensures DecrefBetween(f, head, tail)
    {
      assert AvoidWalk(f.succ, head, tail, w);
      assert Between(f.succ, head, tail, Last(w)) && Last(w) in DecBlocks(f);
    }
  }

  // ----- the scan

  ghost predicate Scanned(f: Func, head: BlockId, tail: BlockId, visited: set<BlockId>, work: Walk) {
    && (head in visited || head in work)
    && (forall b :: b in work ==> b < |f.succ| && Between(f.succ, head, tail, b))
    && (forall b :: b in visited ==> b < |f.succ| && b !in DecBlocks(f))
    && (forall a, b :: a in visited && Edge(f.succ, a, b) && b != tail ==> b in visited || b in work)
  }

  lemma PopScanned(f: Func, head: BlockId, tail: BlockId, visited: set<BlockId>, work: Walk, cur: BlockId)
    requires Scanned(f, head, tail, visited, work + [cur])
    ensures cur < |f.succ| && Between(f.succ, head, tail, cur)
    ensures forall b :: b in work ==> b < |f.succ| && Between(f.succ, head, tail, b)
    ensures forall b :: b in work + [cur] <==> b in work || b == cur
  {
    var all := work + [cur];
    assert all[|work|] == cur;
    assert cur in all;
    assert forall b :: b in work + [cur] <==> b in work || b == cur;
  }

  method PushChildren(f: Func, head: BlockId, tail: BlockId, cur: BlockId, stack: Walk) returns (work: Walk)
    requires f.Valid() && cur < |f.succ| && Between(f.succ, head, tail, cur)
    requires forall b :: b in stack ==> b < |f.succ| && Between(f.succ, head, tail, b)
    ensures forall b :: b in work ==> b < |f.succ| && Between(f.succ, head, tail, b)
    ensures forall b :: b in stack ==> b in work
    ensures forall b :: Edge(f.succ, cur, b) && b != tail ==> b in work
  {
    work := stack;
    var succs := f.succ[cur];
    ghost var w :| AvoidWalk(f.succ, head, tail, w) && Last(w) == cur;
    for i := 0 to |succs|
      invariant forall b :: b in work ==> b < |f.succ| && Between(f.succ, head, tail, b)
      invariant forall b :: b in stack ==> b in work
      invariant forall b :: b in succs[..i] && b != tail ==> b in work
    {
      var child := succs[i];
      assert succs[..i + 1] == succs[..i] + [child];
      if child != tail {
        BetweenStep(f.succ, head, tail, w, child);
        work := work + [child];
      }
    }
    assert succs[..|succs|] == succs;
  }

  /** Depth-first scan from the head, not entering the tail, for any decref at all. */
  method HasDecrefBetweenGraph(f: Func, head: BlockId, tail: BlockId) returns (found: bool)
    requires f.Valid() && head < |f.succ| && head != tail
    ensures found <==> DecrefBetween(f, head, tail)
  {
    var visited: set<BlockId> := {};
    var stack: Walk := [head];
    assert AvoidWalk(f.succ, head, tail, [head]) && Last([head]) == head;
    while stack != []
      invariant Scanned(f, head, tail, visited, stack)
      decreases |f.succ| - |visited|, |stack|
    {
      var cur := stack[|stack| - 1];
      assert stack == stack[..|stack| - 1] + [cur];
      stack := stack[..|stack| - 1];
      found, visited, stack := ScanBlock(f, head, tail, cur, visited, stack);
      if found {
        return;
      }
    }
    NothingBetween(f, head, tail, visited);
    return false;
  }

  /** Handles one block popped from the stack. */
  method ScanBlock(f: Func, head: BlockId, tail: BlockId, cur: BlockId, visited: set<BlockId>, stack: Walk)
    returns (found: bool, v: set<BlockId>, work: Walk)
    requires f.Valid() && Scanned(f, head, tail, visited, stack + [cur])
    ensures found ==> DecrefBetween(f, head, tail)
    ensures !found ==> Scanned(f, head, tail, v, work)
    ensures !found ==> (v == visited && work == stack) || |visited| < |v| <= |f.succ|
  {
    found, v, work := false, visited, stack;
    PopScanned(f, head, tail, visited, stack, cur);
    if cur in visited {
      return;
    }
    FanoutSearch.MoreVisited(|f.succ|, visited, cur);
    v := visited + {cur};
    if HasDec(f.blocks[cur]) {
      assert cur in DecBlocks(f);
      return true, v, work;
    }
    work := PushChildren(f, head, tail, cur, stack);
  }

  lemma NothingBetween(f: Func, head: BlockId, tail: BlockId, visited: set<BlockId>)
    requires Scanned(f, head, tail, visited, [])
    ensures !DecrefBetween(f, head, tail)
  {
    forall b | Between(f.succ, head, tail, b) ensures b in visited {
      var w :| AvoidWalk(f.succ, head, tail, w) && Last(w) == b;
      ScanCovers(f, head, tail, visited, w);
    }
  }

  lemma {:induction false} ScanCovers(f: Func, head: BlockId, tail: BlockId, visited: set<BlockId>, w: Walk)
    requires Scanned(f, head, tail, visited, []) && AvoidWalk(f.succ, head, tail, w)
    ensures Last(w) in visited
    decreases |w|
  {
    if |w| > 1 {
      WalkSlice(f.succ, w, 0, |w| - 1);
      assert forall b :: b in Init(w) ==> b in w;
      ScanCovers(f, head, tail, visited, Init(w));
      assert Edge(f.succ, w[|w| - 2], w[|w| - 1]);
    }
  }

  // ----- safety

  lemma {:induction false} DiamondBracketed(f: Func, head: BlockId, tail: BlockId, w: Walk)
    requires f.Valid() && DiamondHolds(f, head, tail) && !Reenters(f.succ, head, tail)
    requires EntryWalk(f.succ, w)
    ensures Bracketed(f, head, {tail}, w)
    decreases |w|
  {
    if w != [] {
      var u := Init(w);
      EntryPrefix(f.succ, w);
      DiamondBracketed(f, head, tail, u);
      HeadTailAlternate(f.succ, head, tail, u);
      HeadTailAlternate(f.succ, head, tail, w);
      if Pend(u, head, {tail}) && Last(w) != tail {
        PendingIsBetween(f.succ, head, tail, u);
        var v :| AvoidWalk(f.succ, head, tail, v) && Last(v) == Last(u);
        BetweenStep(f.succ, head, tail, v, Last(w));
        assert Last(w) !in DecBlocks(f);
      }
    }
  }

  /** Erasing an accepted pair is safe and keeps every balance, if the head cannot be
      entered again before the tail. */
  lemma DiamondIsSafe(f: Func, g: Func, head: BlockId, tail: BlockId, arg: Arg)
    requires f.Valid() && AllNormal(f) && DiamondHolds(f, head, tail)
    requires !Reenters(f.succ, head, tail)
    requires Erases(f, g, head, {tail}, arg)
    ensures Safe(f, g, true)
  {
    assert AvoidWalk(f.succ, head, tail, [head]) && Last([head]) == head;
    assert Between(f.succ, head, tail, head);
    assert head !in DecBlocks(f);
    forall w | EntryWalk(f.succ, w) ensures Bracketed(f, head, {tail}, w) {
      DiamondBracketed(f, head, tail, w);
    }
    forall w | Complete(f.succ, w) ensures Diff(w, head, {tail}) == 0 {
      HeadTailAlternate(f.succ, head, tail, w);
      PostDominatorEndsPending(f.succ, head, tail, w);
    }
    BracketSafe(f, g, head, {tail}, {tail}, arg, true);
  }

  /** Whatever the graph, every tail visit pays back its own head visit. */
  lemma {:induction false} OwedByHeads(f: Func, head: BlockId, tail: BlockId, arg: Arg, w: Walk, life: Life)
    requires f.Valid() && DiamondHolds(f, head, tail) && EntryWalk(f.succ, w)
    requires SamePayer(w, head, {tail}, arg, life)
    ensures Owed(w, head, {tail}, arg, life)
            >= if Pend(w, head, {tail}) && HeadCounted(w, head, arg, life) then 1 else 0
    decreases |w|
  {
    if w != [] {
      EntryPrefix(f.succ, w);
      OwedByHeads(f, head, tail, arg, Init(w), life);
      if Last(w) == tail {
        TailsOnlyAfterHead(f.succ, head, {tail}, {tail}, w);
      }
    }
  }

  /** Whatever the graph, erasing an accepted pair never raises a count on any walk. */
  lemma DiamondNeverGains(f: Func, g: Func, head: BlockId, tail: BlockId, arg: Arg, w: Walk, life: Life)
    requires f.Valid() && g.Valid() && DiamondHolds(f, head, tail)
    requires Erases(f, g, head, {tail}, arg) && EntryWalk(f.succ, w) && Lives(f, w, life)
    ensures WalkNet(g, w, life) <= WalkNet(f, w, life)
  {
    if arg.Val? {
      ErasesHasRefOp(f, g, head, {tail}, arg);
    }
    LivesPay(f, head, {tail}, {tail}, arg, w, life);
    OwedByHeads(f, head, tail, arg, w, life);
    ErasesNet(f, g, head, {tail}, arg, w, life);
  }

  ghost predicate KeepsBalance(f: Func, g: Func)
    requires f.Valid() && g.Valid() && g.succ == f.succ
  {
    forall w, life :: Complete(f.succ, w) && Lives(f, w, life) ==> WalkNet(g, w, life) == WalkNet(f, w, life)
  }

  /** Erasing an accepted pair keeps the balance of every object on every complete walk if
      and only if no cycle leads from a head that complete walks execute back to it without
      meeting the tail. */
  lemma DiamondBalanceExact(f: Func, g: Func, head: BlockId, tail: BlockId, v: nat)
    requires f.Valid() && g.Valid() && DiamondHolds(f, head, tail)
    requires Erases(f, g, head, {tail}, Val(v))
    ensures KeepsBalance(f, g)
            <==> !(Reenters(f.succ, head, tail) && exists w :: Complete(f.succ, w) && head in w)
  {
    DiamondBalancesExactly(f.succ, head, tail);
    if Reenters(f.succ, head, tail) && exists w :: Complete(f.succ, w) && head in w {
      var w :| Complete(f.succ, w) && Diff(w, head, {tail}) != 0;
      var c := iset{v};
      ConstantLives(f, w, c);
      OwedIsDiff(w, head, {tail}, Val(v), c);
      ErasesNet(f, g, head, {tail}, Val(v), w, Constant(c));
      assert WalkNet(g, w, Constant(c)) != WalkNet(f, w, Constant(c));
    } else {
      forall w, life | Complete(f.succ, w) && Lives(f, w, life) ensures WalkNet(g, w, life) == WalkNet(f, w, life) {
        BalancedIsPaid(f, g, head, tail, v, w, life);
        ErasesNet(f, g, head, {tail}, Val(v), w, life);
      }
    }
  }

  lemma BalancedIsPaid(f: Func, g: Func, head: BlockId, tail: BlockId, v: nat, w: Walk, life: Life)
    requires f.Valid() && g.Valid() && DiamondHolds(f, head, tail) && Erases(f, g, head, {tail}, Val(v))
    requires Complete(f.succ, w) && Lives(f, w, life)
    requires !(Reenters(f.succ, head, tail) && exists u :: Complete(f.succ, u) && head in u)
    ensures Owed(w, head, {tail}, Val(v), life) == 0
  {
    if Reenters(f.succ, head, tail) {
      TailsNeverLead(f.succ, head, tail, w);
      NeverVisited(w, head);
      NothingOwed(w, head, tail, Val(v), life);
    } else {
      DiamondBracketed(f, head, tail, w);
      HeadTailAlternate(f.succ, head, tail, w);
      PostDominatorEndsPending(f.succ, head, tail, w);
      ErasesHasRefOp(f, g, head, {tail}, Val(v));
      LivesPay(f, head, {tail}, {tail}, Val(v), w, life);
      OwedIsHead(f, head, {tail}, Val(v), w, life);
    }
  }

  lemma {:induction false} NothingOwed(w: Walk, head: BlockId, tail: BlockId, arg: Arg, life: Life)
    requires Visits(w, {head}) == 0 && Visits(w, {tail}) == 0
    ensures Owed(w, head, {tail}, arg, life) == 0
    decreases |w|
  {
    if w != [] {
      NothingOwed(Init(w), head, tail, arg, life);
    }
  }

  // ----- a function on which the pair does not balance

  /** Behind the entry, head 1 and block 2 form a loop; the tail 3 follows it. */
  const LOOPING: Func := Func(
    [[Instr(0, Other)], [Instr(1, Inc(Val(0)))], [Instr(2, Other)], [Instr(3, Dec(Val(0)))]],
    [[1], [2], [1, 3], []])

  lemma LoopingEdges()
    ensures LOOPING.Valid() && DecBlocks(LOOPING) == {3}
    ensures forall a: BlockId, b: BlockId :: Edge(LOOPING.succ, a, b) <==> (b == a + 1 && a < 3) || (a == 2 && b == 1)
  {
    var g := LOOPING.succ;
    assert forall b :: 0 <= b < 4 ==> |LOOPING.blocks[b]| == 1;
    assert IsDec(LOOPING.blocks[3][0]);
    assert g[0] == [1] && g[1] == [2] && g[2] == [1, 3] && g[3] == [];
    assert g[0][0] == 1 && g[1][0] == 2 && g[2][0] == 1 && g[2][1] == 3;
  }

  lemma {:induction false} LoopingExitsAtTail(w: Walk)
    requires IsWalk(LOOPING.succ, w) && w != [] && LOOPING.succ[Last(w)] == []
    ensures 3 in w
  {
    assert Last(w) == 3;
  }

  lemma LoopingBackward()
    ensures BackwardOk(LOOPING.succ, 1, {3}, {3}, {})
  {
    LoopingEdges();
    forall b | BackReach(LOOPING.succ, 1, {3}, {}, b) ensures b != ENTRY {
      var w :| BackWalk(LOOPING.succ, 1, {3}, {}, w) && w[0] == b;
      assert |w| > 1 ==> Edge(LOOPING.succ, w[0], w[1]) && w[0] != 1;
    }
  }

  lemma LoopingAccepted()
    ensures LOOPING.Valid() && DiamondHolds(LOOPING, 1, 3)
  {
    var g := LOOPING.succ;
    LoopingEdges();
    LoopingBackward();
    forall w | EntryWalk(g, w) && w != [] && Last(w) == 3 ensures 1 in w {
      assert Edge(g, w[0], w[1]);
    }
    forall w | IsWalk(g, w) && w != [] && w[0] == 1 && g[Last(w)] == [] ensures 3 in w {
      LoopingExitsAtTail(w);
    }
  }

  /** Re-entry does happen: the subpass accepts this pair, although a complete walk enters
      the head twice and the tail once. */
  lemma DiamondNeedsNoReentry()
    ensures LOOPING.Valid() && DiamondHolds(LOOPING, 1, 3) && Reenters(LOOPING.succ, 1, 3)
    ensures forall a: BlockId :: !Edge(LOOPING.succ, a, ENTRY)
    ensures Complete(LOOPING.succ, [0, 1, 2, 1, 2, 3]) && Diff([0, 1, 2, 1, 2, 3], 1, {3}) == 1
  {
    LoopingEdges();
    LoopingAccepted();
    LoopingWalks();
    LoopingVisits({1});
    LoopingVisits({3});
  }

  lemma LoopingWalks()
    ensures Reenters(LOOPING.succ, 1, 3) && Complete(LOOPING.succ, [0, 1, 2, 1, 2, 3])
  {
    var g := LOOPING.succ;
    LoopingEdges();
    WalkAppend(g, [1, 2], [1]);
    assert [1, 2] + [1] == [1, 2, 1];
    assert AvoidWalk(g, 1, 3, [1, 2, 1]) && Last([1, 2, 1]) == 1;
    WalkAppend(g, [0], [1, 2, 1]);
    WalkAppend(g, [0] + [1, 2, 1], [2, 3]);
    assert ([0] + [1, 2, 1]) + [2, 3] == [0, 1, 2, 1, 2, 3];
    assert Last([0, 1, 2, 1, 2, 3]) == 3;
  }

  lemma LoopingVisits(s: set<BlockId>)
    ensures Visits([0, 1, 2, 1, 2, 3], s)
            == Indicator(0 in s) + 2 * Indicator(1 in s) + 2 * Indicator(2 in s) + Indicator(3 in s)
  {
    VisitsConcat([0, 1], [2, 1], s);
    VisitsConcat([0, 1] + [2, 1], [2, 3], s);
    assert ([0, 1] + [2, 1]) + [2, 3] == [0, 1, 2, 1, 2, 3];
    VisitsOfPair(0, 1, s);
    VisitsOfPair(2, 1, s);
    VisitsOfPair(2, 3, s);
  }

  lemma VisitsOfPair(a: BlockId, b: BlockId, s: set<BlockId>)
    ensures Visits([a, b], s) == Indicator(a in s) + Indicator(b in s)
  {
    VisitsSnoc([], a, s);
    VisitsSnoc([a], b, s);
    assert [] + [a] == [a] && [a] + [b] == [a, b];
  }
}
