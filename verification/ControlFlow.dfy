/** Control-flow graphs, the walks through them, and the graph conditions that the
    reference-count pruner establishes before it erases anything.

    A block is an index into the successor table; block 0 is the entry.  Nothing here
    mentions instructions: the blocks that stop a search are passed in as sets. */
module ControlFlow {

  type BlockId = nat
  type Cfg = seq<seq<BlockId>>
  type Walk = seq<BlockId>

  const ENTRY: BlockId := 0

  ghost predicate ValidCfg(g: Cfg) {
    |g| > 0 && forall b, s :: 0 <= b < |g| && s in g[b] ==> s < |g|
  }

  predicate Edge(g: Cfg, a: BlockId, b: BlockId) {
    a < |g| && b in g[a]
  }

  function Last(w: Walk): BlockId
    requires w != []
  {
    w[|w| - 1]
  }

  function Init(w: Walk): Walk
    requires w != []
  {
    w[..|w| - 1]
  }

  ghost predicate IsWalk(g: Cfg, w: Walk) {
    && (forall i :: 0 <= i < |w| ==> w[i] < |g|)
    && (forall i, j :: 0 <= i && j == i + 1 && j < |w| ==> Edge(g, w[i], w[j]))
  }

  /** A walk that execution can take from the entry; the empty walk has not started yet. */
  ghost predicate EntryWalk(g: Cfg, w: Walk) {
    IsWalk(g, w) && (w != [] ==> w[0] == ENTRY)
  }

  /** A walk from the entry to a block without successors. */
  ghost predicate Complete(g: Cfg, w: Walk) {
    EntryWalk(g, w) && w != [] && g[Last(w)] == []
  }

  lemma WalkAppend(g: Cfg, u: Walk, v: Walk)
    requires IsWalk(g, u) && IsWalk(g, v)
    requires u != [] && v != [] ==> Edge(g, Last(u), v[0])
    ensures IsWalk(g, u + v)
  {
    var w := u + v;
    forall i, j | 0 <= i && j == i + 1 && j < |w| ensures Edge(g, w[i], w[j]) {
      if j < |u| {
        assert Edge(g, u[i], u[j]);
      } else if i >= |u| {
        assert Edge(g, v[i - |u|], v[j - |u|]);
      }
    }
  }

  lemma WalkSlice(g: Cfg, w: Walk, lo: nat, hi: nat)
    requires IsWalk(g, w) && lo <= hi <= |w|
    ensures IsWalk(g, w[lo..hi])
  {
    var v := w[lo..hi];
    forall i, j | 0 <= i && j == i + 1 && j < |v| ensures Edge(g, v[i], v[j]) {
      assert Edge(g, w[i + lo], w[j + lo]);
    }
  }

  lemma EntryPrefix(g: Cfg, w: Walk)
    requires EntryWalk(g, w) && w != []
    ensures EntryWalk(g, Init(w)) && Last(w) < |g|
    ensures |w| > 1 ==> Edge(g, Last(Init(w)), Last(w))
    ensures w == Init(w) + [Last(w)]
  {
    WalkSlice(g, w, 0, |w| - 1);
    if |w| > 1 {
      assert Edge(g, w[|w| - 2], w[|w| - 1]);
    }
  }

  ghost predicate Reachable(g: Cfg, b: BlockId) {
    exists w :: EntryWalk(g, w) && w != [] && Last(w) == b
  }

  // ----- dominance, stated over walks

  ghost predicate Dominates(g: Cfg, a: BlockId, b: BlockId) {
    forall w :: EntryWalk(g, w) && w != [] && Last(w) == b ==> a in w
  }

  ghost predicate PostDominates(g: Cfg, a: BlockId, b: BlockId) {
    forall w :: IsWalk(g, w) && w != [] && w[0] == b && g[Last(w)] == [] ==> a in w
  }

  // ----- the forward region

  ghost predicate Open(head: BlockId, stops: set<BlockId>, b: BlockId) {
    b != head && b !in stops
  }

  /** A walk leaving `head` whose blocks between the first and the last are neither the
      head nor a stop. */
  ghost predicate OpenWalk(g: Cfg, head: BlockId, stops: set<BlockId>, w: Walk) {
    && |w| >= 2 && IsWalk(g, w) && w[0] == head
    && forall i :: 1 <= i < |w| - 1 ==> Open(head, stops, w[i])
  }

  /** Some walk leaving `head` arrives at `b` before it has passed a stop. */
  ghost predicate Touched(g: Cfg, head: BlockId, stops: set<BlockId>, b: BlockId) {
    exists w :: OpenWalk(g, head, stops, w) && Last(w) == b
  }

  lemma TouchedExtend(g: Cfg, head: BlockId, stops: set<BlockId>, w: Walk, s: BlockId)
    requires ValidCfg(g) && head < |g|
    requires w == [head] || (OpenWalk(g, head, stops, w) && Open(head, stops, Last(w)))
    requires Edge(g, Last(w), s)
    ensures OpenWalk(g, head, stops, w + [s]) && Touched(g, head, stops, s)
  {
    WalkAppend(g, w, [s]);
    assert Last(w + [s]) == s;
  }

  lemma TouchedStep(g: Cfg, head: BlockId, stops: set<BlockId>, b: BlockId, s: BlockId)
    requires ValidCfg(g) && head < |g|
    requires b == head || (Touched(g, head, stops, b) && Open(head, stops, b))
    requires Edge(g, b, s)
    ensures Touched(g, head, stops, s)
  {
    if b == head {
      TouchedExtend(g, head, stops, [head], s);
    } else {
      var w :| OpenWalk(g, head, stops, w) && Last(w) == b;
      TouchedExtend(g, head, stops, w, s);
    }
  }

  /** Every walk leaving the head meets an accepted stop: before that it never returns to
      the head, never meets another stop and never runs out of successors. */
  ghost predicate Clean(g: Cfg, head: BlockId, stops: set<BlockId>, good: set<BlockId>) {
    && head < |g| && g[head] != []
    && forall b: BlockId :: Touched(g, head, stops, b) ==>
         b < |g| && b != head && if b in stops then b in good else g[b] != []
  }

  // ----- the backward region

  /** A walk that ends in `starts`, does not touch `head` before its last block and, after
      its first block, avoids `skip`. */
  ghost predicate BackWalk(g: Cfg, head: BlockId, starts: set<BlockId>, skip: set<BlockId>, w: Walk) {
    && w != [] && IsWalk(g, w) && Last(w) in starts
    && (forall i :: 0 <= i < |w| - 1 ==> w[i] != head)
    && (forall i :: 1 <= i < |w| ==> w[i] !in skip)
  }

  ghost predicate Queued(g: Cfg, head: BlockId, starts: set<BlockId>, skip: set<BlockId>, b: BlockId) {
    exists w :: BackWalk(g, head, starts, skip, w) && w[0] == b
  }

  /** `b` leads to a start without crossing the head. */
  ghost predicate BackReach(g: Cfg, head: BlockId, starts: set<BlockId>, skip: set<BlockId>, b: BlockId) {
    b !in skip && Queued(g, head, starts, skip, b)
  }

  ghost predicate HasPredIn(g: Cfg, tails: set<BlockId>, b: BlockId) {
    exists t :: t in tails && Edge(g, t, b)
  }

  ghost predicate BackwardOk(g: Cfg, head: BlockId, starts: set<BlockId>, tails: set<BlockId>, skip: set<BlockId>) {
    forall b :: BackReach(g, head, starts, skip, b) ==> b != ENTRY && !HasPredIn(g, tails, b)
  }

  lemma QueuedStep(g: Cfg, head: BlockId, starts: set<BlockId>, skip: set<BlockId>, a: BlockId, b: BlockId)
    requires BackReach(g, head, starts, skip, b)
    requires Edge(g, a, b) && a != head
    ensures Queued(g, head, starts, skip, a)
  {
    var w :| BackWalk(g, head, starts, skip, w) && w[0] == b;
    WalkAppend(g, [a], w);
    assert BackWalk(g, head, starts, skip, [a] + w);
  }

  // ----- what happens along one walk

  /** The last visit to the head or to a tail was to the head. */
  ghost predicate Pend(w: Walk, head: BlockId, tails: set<BlockId>) {
    w != [] && (Last(w) == head || (Last(w) !in tails && Pend(Init(w), head, tails)))
  }

  function Visits(w: Walk, s: set<BlockId>): nat {
    if w == [] then 0 else Visits(Init(w), s) + if Last(w) in s then 1 else 0
  }

  lemma VisitsSnoc(w: Walk, b: BlockId, s: set<BlockId>)
    ensures Visits(w + [b], s) == Visits(w, s) + Indicator(b in s)
  {
    assert Init(w + [b]) == w;
  }

  /** Head visits minus visits to the blocks that lose a decref. */
  function Diff(w: Walk, head: BlockId, decs: set<BlockId>): int {
    Visits(w, {head}) - Visits(w, decs)
  }

  /** Number of head visits whose next visit to a tail is to one of `raises`. */
  ghost function Escapes(w: Walk, head: BlockId, decs: set<BlockId>, raises: set<BlockId>): nat {
    if w == [] then 0
    else Escapes(Init(w), head, decs, raises)
         + if Last(w) in raises && Pend(Init(w), head, decs + raises) then 1 else 0
  }

  function Indicator(b: bool): nat { if b then 1 else 0 }

  // ----- backward check: what it means for walks

  /** With the backward condition, no walk arrives at a start unless the head was its
      latest head-or-tail visit. */
  lemma {:induction false} NoUnpendedArrival(g: Cfg, head: BlockId, starts: set<BlockId>, tails: set<BlockId>,
                                             w: Walk, path: Walk)
    requires BackwardOk(g, head, starts, tails, {})
    requires BackWalk(g, head, starts, {}, path)
    requires EntryWalk(g, w + path)
    ensures Pend(w, head, tails)
    decreases |w|
  {
    assert BackReach(g, head, starts, {}, path[0]);
    assert w == [] ==> w + path == path;
    if w != [] {
      var a := Last(w);
      assert Edge(g, (w + path)[|w| - 1], (w + path)[|w|]);
      assert a !in tails;
      if a != head {
        var path' := [a] + path;
        assert Init(w) + path' == w + path;
        WalkSlice(g, w + path, |w| - 1, |w + path|);
        assert (w + path)[|w| - 1..] == path';
        NoUnpendedArrival(g, head, starts, tails, Init(w), path');
      }
    }
  }

  lemma TailsOnlyAfterHead(g: Cfg, head: BlockId, starts: set<BlockId>, tails: set<BlockId>, w: Walk)
    requires BackwardOk(g, head, starts, tails, {})
    requires EntryWalk(g, w) && w != [] && Last(w) in starts
    ensures Pend(Init(w), head, tails)
  {
    EntryPrefix(g, w);
    assert BackWalk(g, head, starts, {}, [Last(w)]);
    NoUnpendedArrival(g, head, starts, tails, Init(w), [Last(w)]);
  }

  lemma {:induction false} PendHasHead(w: Walk, head: BlockId, tails: set<BlockId>)
    requires Pend(w, head, tails)
    ensures head in w
    decreases |w|
  {
    if Last(w) != head {
      PendHasHead(Init(w), head, tails);
      assert forall x :: x in Init(w) ==> x in w;
    }
  }

  /** The backward condition makes the head a dominator of every start. */
  lemma HeadDominatesTails(g: Cfg, head: BlockId, starts: set<BlockId>, tails: set<BlockId>, t: BlockId)
    requires BackwardOk(g, head, starts, tails, {}) && t in starts
    ensures Dominates(g, head, t)
  {
    forall w | EntryWalk(g, w) && w != [] && Last(w) == t ensures head in w {
      TailsOnlyAfterHead(g, head, starts, tails, w);
      PendHasHead(Init(w), head, tails);
      assert forall x :: x in Init(w) ==> x in w;
    }
  }

  ghost predicate TailsAwaitHead(g: Cfg, head: BlockId, starts: set<BlockId>, tails: set<BlockId>) {
    forall w :: EntryWalk(g, w) && w != [] && Last(w) in starts ==> Pend(Init(w), head, tails)
  }

  lemma {:induction false} HeadlessKeepsUnpended(w: Walk, v: Walk, head: BlockId, tails: set<BlockId>)
    requires !Pend(w, head, tails)
    requires head !in v
    ensures !Pend(w + v, head, tails)
    decreases |v|
  {
    if v == [] {
      assert w + v == w;
    } else {
      assert Init(w + v) == w + Init(v);
      assert forall x :: x in Init(v) ==> x in v;
      HeadlessKeepsUnpended(w, Init(v), head, tails);
    }
  }

  /** The backward condition says exactly what every walk does, provided the tails can be
      executed at all. */
  lemma BackwardOkExact(g: Cfg, head: BlockId, starts: set<BlockId>, tails: set<BlockId>)
    requires head !in tails && starts <= tails
    requires forall t :: t in tails ==> Reachable(g, t)
    ensures BackwardOk(g, head, starts, tails, {}) <==> TailsAwaitHead(g, head, starts, tails)
  {
    if BackwardOk(g, head, starts, tails, {}) {
      forall w | EntryWalk(g, w) && w != [] && Last(w) in starts ensures Pend(Init(w), head, tails) {
        TailsOnlyAfterHead(g, head, starts, tails, w);
      }
    } else {
      var b :| BackReach(g, head, starts, {}, b) && (b == ENTRY || HasPredIn(g, tails, b));
      var v :| BackWalk(g, head, starts, {}, v) && v[0] == b;
      var u: Walk := [];
      if b != ENTRY {
        var t :| t in tails && Edge(g, t, b);
        u :| EntryWalk(g, u) && u != [] && Last(u) == t;
      }
      WalkAppend(g, u, v);
      assert head !in Init(v) by {
        assert forall i :: 0 <= i < |Init(v)| ==> Init(v)[i] == v[i];
      }
      HeadlessKeepsUnpended(u, Init(v), head, tails);
      assert Init(u + v) == u + Init(v);
      assert EntryWalk(g, u + v) && Last(u + v) == Last(v);
    }
  }

  /** Every execution that arrives at a start has come through the head since it left the last
      tail, or since it began, unless it has met a block of `skip` on the way. */
  ghost predicate ArrivesByHead(g: Cfg, head: BlockId, starts: set<BlockId>, tails: set<BlockId>, skip: set<BlockId>) {
    forall w, i :: EntryWalk(g, w) && Arrival(w, i, starts, tails, skip) ==> head in w[i..]
  }

  /** From position `i` on, `w` leads from a tail or its beginning to a start, past `skip`. */
  ghost predicate Arrival(w: Walk, i: nat, starts: set<BlockId>, tails: set<BlockId>, skip: set<BlockId>) {
    && i < |w| && Last(w) in starts && (i == 0 || w[i - 1] in tails)
    && forall b :: b in w[i..] ==> b !in skip
  }

  lemma SkippedArrival(g: Cfg, head: BlockId, starts: set<BlockId>, tails: set<BlockId>, skip: set<BlockId>,
                       w: Walk, i: nat)
    requires EntryWalk(g, w) && Arrival(w, i, starts, tails, skip) && head !in w[i..]
    ensures !BackwardOk(g, head, starts, tails, skip)
  {
    var v := w[i..];
    WalkSlice(g, w, i, |w|);
    assert w[i..|w|] == v;
    assert forall k :: 0 <= k < |v| ==> v[k] in v;
    assert BackWalk(g, head, starts, skip, v);
    assert BackReach(g, head, starts, skip, w[i]);
    if i > 0 {
      assert Edge(g, w[i - 1], w[i]);
    }
  }

  /** The backward condition with skipped blocks says exactly that, provided the tails can be
      executed at all. */
  lemma SkippedBackwardExact(g: Cfg, head: BlockId, starts: set<BlockId>, tails: set<BlockId>, skip: set<BlockId>)
    requires head !in starts && forall t :: t in tails ==> Reachable(g, t)
    ensures BackwardOk(g, head, starts, tails, skip) <==> ArrivesByHead(g, head, starts, tails, skip)
  {
    if BackwardOk(g, head, starts, tails, skip) {
      forall w, i | EntryWalk(g, w) && Arrival(w, i, starts, tails, skip) ensures head in w[i..] {
        if head !in w[i..] {
          SkippedArrival(g, head, starts, tails, skip, w, i);
        }
      }
    } else {
      var b :| BackReach(g, head, starts, skip, b) && (b == ENTRY || HasPredIn(g, tails, b));
      UnheadedArrival(g, head, starts, tails, skip, b);
    }
  }

  lemma UnheadedArrival(g: Cfg, head: BlockId, starts: set<BlockId>, tails: set<BlockId>, skip: set<BlockId>,
                        b: BlockId)
    requires head !in starts && forall t :: t in tails ==> Reachable(g, t)
    requires BackReach(g, head, starts, skip, b) && (b == ENTRY || HasPredIn(g, tails, b))
    ensures !ArrivesByHead(g, head, starts, tails, skip)
  {
    var v :| BackWalk(g, head, starts, skip, v) && v[0] == b;
    var u: Walk := [];
    if b != ENTRY {
      var t :| t in tails && Edge(g, t, b);
      u :| EntryWalk(g, u) && u != [] && Last(u) == t;
    }
    assert EntryWalk(g, u);
    BackWalkAvoids(g, head, starts, skip, v);
    BypassArrives(g, u, v, starts, tails, skip);
    assert (u + v)[|u|..] == v;
  }

  lemma BackWalkAvoids(g: Cfg, head: BlockId, starts: set<BlockId>, skip: set<BlockId>, v: Walk)
    requires BackWalk(g, head, starts, skip, v) && v[0] !in skip && head !in starts
    ensures head !in v && forall x :: x in v ==> x !in skip
  {
    forall x | x in v ensures x !in skip && x != head {
      var k :| 0 <= k < |v| && v[k] == x;
    }
  }

  lemma BypassArrives(g: Cfg, u: Walk, v: Walk, starts: set<BlockId>, tails: set<BlockId>, skip: set<BlockId>)
    requires EntryWalk(g, u) && IsWalk(g, v) && v != [] && Last(v) in starts && forall x :: x in v ==> x !in skip
    requires if u == [] then v[0] == ENTRY else Last(u) in tails && Edge(g, Last(u), v[0])
    ensures EntryWalk(g, u + v) && Arrival(u + v, |u|, starts, tails, skip)
  {
    WalkAppend(g, u, v);
    assert (u + v)[|u|..] == v;
  }

  // ----- forward search: what it means for walks

  /** While a head visit is pending, execution is still inside the open region. */
  lemma {:induction false} PendingIsOpen(g: Cfg, head: BlockId, stops: set<BlockId>, good: set<BlockId>, w: Walk)
    requires ValidCfg(g) && Clean(g, head, stops, good) && good <= stops
    requires EntryWalk(g, w) && Pend(w, head, TouchedStops(g, head, stops))
    ensures Last(w) == head || (Touched(g, head, stops, Last(w)) && Open(head, stops, Last(w)))
    decreases |w|
  {
    if Last(w) != head {
      EntryPrefix(g, w);
      PendingIsOpen(g, head, stops, good, Init(w));
      TouchedStep(g, head, stops, Last(Init(w)), Last(w));
    }
  }

  /** The stops at which the open region ends. */
  ghost function TouchedStops(g: Cfg, head: BlockId, stops: set<BlockId>): set<BlockId> {
    set b | b in stops && Touched(g, head, stops, b)
  }

  /** No head visit is pending when a complete walk ends, and the head is never entered
      while it is pending. */
  lemma PendingGoesOn(g: Cfg, head: BlockId, stops: set<BlockId>, good: set<BlockId>, w: Walk)
    requires ValidCfg(g) && Clean(g, head, stops, good) && good <= stops
    requires EntryWalk(g, w) && w != []
    ensures g[Last(w)] == [] ==> !Pend(w, head, TouchedStops(g, head, stops))
    ensures Last(w) == head ==> !Pend(Init(w), head, TouchedStops(g, head, stops))
  {
    if Pend(w, head, TouchedStops(g, head, stops)) {
      PendingIsOpen(g, head, stops, good, w);
    }
    EntryPrefix(g, w);
    if Last(w) == head && Pend(Init(w), head, TouchedStops(g, head, stops)) {
      PendingIsOpen(g, head, stops, good, Init(w));
      TouchedStep(g, head, stops, Last(Init(w)), Last(w));
    }
  }

  /** The ledger of a fan-out: heads entered minus decref blocks entered is the number of
      heads that ran into a raise, plus the one still pending. */
  lemma {:induction false} Ledger(g: Cfg, head: BlockId, stops: set<BlockId>, decs: set<BlockId>,
                                  raises: set<BlockId>, w: Walk)
    requires ValidCfg(g) && Clean(g, head, stops, decs + raises) && decs + raises <= stops
    requires decs !! raises && decs + raises == TouchedStops(g, head, stops)
    requires BackwardOk(g, head, decs, decs + raises, {})
    requires EntryWalk(g, w)
    ensures LedgerHolds(w, head, decs, raises)
    ensures Complete(g, w) ==> Diff(w, head, decs) == Escapes(w, head, decs, raises)
    decreases |w|
  {
    if w != [] {
      var tails := decs + raises;
      var h, b := Init(w), Last(w);
      EntryPrefix(g, w);
      Ledger(g, head, stops, decs, raises, h);
      PendingGoesOn(g, head, stops, tails, w);
      assert head !in tails;
      assert b in decs ==> Pend(h, head, tails) by {
        if b in decs {
          TailsOnlyAfterHead(g, head, decs, tails, w);
        }
      }
      LedgerStep(w, head, decs, raises);
    }
  }

  lemma LedgerStep(w: Walk, head: BlockId, decs: set<BlockId>, raises: set<BlockId>)
    requires w != [] && decs !! raises && head !in decs + raises
    requires LedgerHolds(Init(w), head, decs, raises)
    requires Last(w) == head ==> !Pend(Init(w), head, decs + raises)
    ensures LedgerHolds(w, head, decs, raises)
            <==> (Last(w) in decs ==> Pend(Init(w), head, decs + raises))
  {
  }

  ghost predicate LedgerHolds(w: Walk, head: BlockId, decs: set<BlockId>, raises: set<BlockId>) {
    Diff(w, head, decs) == Escapes(w, head, decs, raises) + Indicator(Pend(w, head, decs + raises))
  }

  /** After a successful forward search the ledger balances on every walk exactly when the
      backward condition holds with no block skipped. */
  lemma LedgerExact(g: Cfg, head: BlockId, stops: set<BlockId>, decs: set<BlockId>, raises: set<BlockId>)
    requires ValidCfg(g) && Clean(g, head, stops, decs + raises) && decs + raises <= stops
    requires decs !! raises && decs + raises == TouchedStops(g, head, stops)
    requires Reachable(g, head)
    ensures BackwardOk(g, head, decs, decs + raises, {})
            <==> forall w :: EntryWalk(g, w) ==> LedgerHolds(w, head, decs, raises)
  {
    var tails := decs + raises;
    if BackwardOk(g, head, decs, tails, {}) {
      forall w | EntryWalk(g, w) ensures LedgerHolds(w, head, decs, raises) {
        Ledger(g, head, stops, decs, raises, w);
      }
    } else {
      forall t | t in tails ensures Reachable(g, t) {
        TouchedIsReachable(g, head, stops, t);
      }
      BackwardOkExact(g, head, decs, tails);
      var w :| EntryWalk(g, w) && w != [] && Last(w) in decs && !Pend(Init(w), head, tails);
      EntryPrefix(g, w);
      PendingGoesOn(g, head, stops, tails, w);
      if LedgerHolds(Init(w), head, decs, raises) {
        LedgerStep(w, head, decs, raises);
      }
    }
  }

  lemma TouchedIsReachable(g: Cfg, head: BlockId, stops: set<BlockId>, t: BlockId)
    requires Touched(g, head, stops, t) && Reachable(g, head)
    ensures Reachable(g, t)
  {
    var u :| EntryWalk(g, u) && u != [] && Last(u) == head;
    var v :| OpenWalk(g, head, stops, v) && Last(v) == t;
    WalkSlice(g, v, 1, |v|);
    assert Edge(g, v[0], v[1]);
    WalkAppend(g, u, v[1..|v|]);
    assert Last(u + v[1..|v|]) == t;
  }
}
