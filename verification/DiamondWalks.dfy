/** What the tests of the diamond subpass say about walks: dominance, post-dominance and the
    backward check bracket a head and a tail, except that nothing stops the head from being
    entered again before the tail. */
module DiamondWalks {
  import opened ControlFlow

  /** A walk from `head` that does not meet `tail`. */
  ghost predicate AvoidWalk(g: Cfg, head: BlockId, tail: BlockId, w: Walk) {
    w != [] && IsWalk(g, w) && w[0] == head && tail !in w
  }

  ghost predicate Between(g: Cfg, head: BlockId, tail: BlockId, b: BlockId) {
    exists w :: AvoidWalk(g, head, tail, w) && Last(w) == b
  }

  /** Some cycle leads from the head back to the head without meeting the tail. */
  ghost predicate Reenters(g: Cfg, head: BlockId, tail: BlockId) {
    exists w :: AvoidWalk(g, head, tail, w) && |w| >= 2 && Last(w) == head
  }

  lemma BetweenStep(g: Cfg, head: BlockId, tail: BlockId, w: Walk, s: BlockId)
    requires ValidCfg(g) && AvoidWalk(g, head, tail, w)
    requires Edge(g, Last(w), s) && s != tail
    ensures AvoidWalk(g, head, tail, w + [s]) && Last(w + [s]) == s && Between(g, head, tail, s)
  {
    WalkAppend(g, w, [s]);
  }

  /** A pending head visit has left an avoiding walk behind it. */
  lemma {:induction false} PendingIsBetween(g: Cfg, head: BlockId, tail: BlockId, w: Walk)
    requires ValidCfg(g) && EntryWalk(g, w) && head != tail && Pend(w, head, {tail})
    ensures Between(g, head, tail, Last(w))
    decreases |w|
  {
    EntryPrefix(g, w);
    if Last(w) == head {
      assert AvoidWalk(g, head, tail, [head]) && Last([head]) == head;
    } else {
      PendingIsBetween(g, head, tail, Init(w));
      var v :| AvoidWalk(g, head, tail, v) && Last(v) == Last(Init(w));
      BetweenStep(g, head, tail, v, Last(w));
    }
  }

  lemma NoPendingReentry(g: Cfg, head: BlockId, tail: BlockId, w: Walk)
    requires ValidCfg(g) && EntryWalk(g, w) && w != [] && Last(w) == head && head != tail
    requires !Reenters(g, head, tail)
    ensures !Pend(Init(w), head, {tail})
  {
    EntryPrefix(g, w);
    if Pend(Init(w), head, {tail}) {
      PendingIsBetween(g, head, tail, Init(w));
      var v :| AvoidWalk(g, head, tail, v) && Last(v) == Last(Init(w));
      BetweenStep(g, head, tail, v, head);
    }
  }

  lemma PostDominatorEndsPending(g: Cfg, head: BlockId, tail: BlockId, w: Walk)
    requires ValidCfg(g) && Complete(g, w) && head != tail
    requires PostDominates(g, tail, head)
    ensures !Pend(w, head, {tail})
  {
    if Pend(w, head, {tail}) {
      PendingIsBetween(g, head, tail, w);
    }
  }

  /** Whatever the head does, tail visits never outnumber head visits. */
  lemma {:induction false} TailsNeverLead(g: Cfg, head: BlockId, tail: BlockId, w: Walk)
    requires BackwardOk(g, head, {tail}, {tail}, {}) && head != tail
    requires EntryWalk(g, w)
    ensures Diff(w, head, {tail}) >= Indicator(Pend(w, head, {tail}))
    decreases |w|
  {
    if w != [] {
      EntryPrefix(g, w);
      TailsNeverLead(g, head, tail, Init(w));
      if Last(w) == tail {
        TailsOnlyAfterHead(g, head, {tail}, {tail}, w);
      }
    }
  }

  /** Without re-entry, head and tail visits alternate, head first. */
  lemma {:induction false} HeadTailAlternate(g: Cfg, head: BlockId, tail: BlockId, w: Walk)
    requires ValidCfg(g) && BackwardOk(g, head, {tail}, {tail}, {}) && head != tail
    requires !Reenters(g, head, tail)
    requires EntryWalk(g, w)
    ensures Diff(w, head, {tail}) == Indicator(Pend(w, head, {tail}))
    decreases |w|
  {
    if w != [] {
      EntryPrefix(g, w);
      HeadTailAlternate(g, head, tail, Init(w));
      if Last(w) == tail {
        TailsOnlyAfterHead(g, head, {tail}, {tail}, w);
      } else if Last(w) == head {
        NoPendingReentry(g, head, tail, w);
      }
    }
  }

  lemma {:induction false} VisitsConcat(u: Walk, v: Walk, s: set<BlockId>)
    ensures Visits(u + v, s) == Visits(u, s) + Visits(v, s)
    decreases |v|
  {
    if v == [] {
      assert u + v == u;
    } else {
      assert Init(u + v) == u + Init(v);
      VisitsConcat(u, Init(v), s);
    }
  }

  lemma {:induction false} NeverVisited(w: Walk, b: BlockId)
    requires b !in w
    ensures Visits(w, {b}) == 0
    decreases |w|
  {
    if w != [] {
      assert forall x :: x in Init(w) ==> x in w;
      NeverVisited(Init(w), b);
    }
  }

  /** The walk `w` with the cycle `v` at its `k`-th block driven once more. */
  function Detour(w: Walk, k: nat, v: Walk): Walk
    requires k < |w|
  {
    w[..k] + v + w[k + 1..]
  }

  lemma DetourIsComplete(g: Cfg, w: Walk, k: nat, v: Walk)
    requires Complete(g, w) && k < |w|
    requires IsWalk(g, v) && |v| >= 2 && v[0] == w[k] && Last(v) == w[k]
    ensures Complete(g, Detour(w, k, v))
  {
    WalkSlice(g, w, 0, k);
    WalkSlice(g, w, k + 1, |w|);
    assert w[0..k] == w[..k] && w[k + 1..|w|] == w[k + 1..];
    if k > 0 {
      assert Edge(g, w[k - 1], w[k]);
    }
    WalkAppend(g, w[..k], v);
    if k + 1 < |w| {
      assert Edge(g, w[k], w[k + 1]);
    }
    WalkAppend(g, w[..k] + v, w[k + 1..]);
  }

  lemma DetourUnbalances(w: Walk, k: nat, v: Walk, head: BlockId, tail: BlockId)
    requires k < |w| && w[k] == head
    requires |v| >= 2 && v[0] == head && Last(v) == head && tail !in v
    ensures Diff(Detour(w, k, v), head, {tail}) > Diff(w, head, {tail})
  {
    var a, c := w[..k], w[k + 1..];
    assert w == a + [head] + c;
    VisitsConcat(a + [head], c, {head});
    VisitsConcat(a, [head], {head});
    VisitsConcat(a + v, c, {head});
    VisitsConcat(a, v, {head});
    VisitsConcat(a + [head], c, {tail});
    VisitsConcat(a, [head], {tail});
    VisitsConcat(a + v, c, {tail});
    VisitsConcat(a, v, {tail});
    NeverVisited(v, tail);
    assert Visits([head], {head}) == 1 && Visits([head], {tail}) == 0 by {
      assert Init([head]) == [];
    }
    assert Visits(v, {head}) >= 2 by {
      assert v == [head] + v[1..|v| - 1] + [head];
      VisitsConcat([head] + v[1..|v| - 1], [head], {head});
      VisitsConcat([head], v[1..|v| - 1], {head});
    }
  }

  /** The exact condition under which the pair balances on every complete walk. */
  lemma DiamondBalancesExactly(g: Cfg, head: BlockId, tail: BlockId)
    requires ValidCfg(g) && head != tail
    requires BackwardOk(g, head, {tail}, {tail}, {}) && PostDominates(g, tail, head)
    ensures (forall w :: Complete(g, w) ==> Diff(w, head, {tail}) == 0)
            <==> !(Reenters(g, head, tail) && exists w :: Complete(g, w) && head in w)
  {
    if Reenters(g, head, tail) {
      if exists w :: Complete(g, w) && head in w {
        var w :| Complete(g, w) && head in w;
        var k: nat :| k < |w| && w[k] == head;
        var v :| AvoidWalk(g, head, tail, v) && |v| >= 2 && Last(v) == head;
        DetourIsComplete(g, w, k, v);
        DetourUnbalances(w, k, v, head, tail);
        assert Complete(g, w) && Complete(g, Detour(w, k, v));
      } else {
        forall w | Complete(g, w) ensures Diff(w, head, {tail}) == 0 {
          NeverVisited(w, head);
          TailsNeverLead(g, head, tail, w);
        }
      }
    } else {
      forall w | Complete(g, w) ensures Diff(w, head, {tail}) == 0 {
        HeadTailAlternate(g, head, tail, w);
        PostDominatorEndsPending(g, head, tail, w);
      }
    }
  }
}
