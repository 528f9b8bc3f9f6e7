/** The three graph searches of the pruner: the bounded forward search for the decref blocks
    of an incref, the backward check of its tails, and their combination. */
module FanoutSearch {
  import opened ControlFlow
  import opened Ir

  /** How deep the forward search recurses before it gives up. */
  const FANOUT_RECURSE_DEPTH: nat := 15

  /** Blocks at which the forward search ends: any decref, and in raise mode any raise. */
  ghost function Stops(f: Func, raise: bool): set<BlockId> {
    DecBlocks(f) + if raise then RaisingBlocks(f) else {}
  }

  /** Blocks the forward search accepts as ends of a path in raise mode. */
  ghost function PureRaises(f: Func, raise: bool): set<BlockId> {
    if raise then RaisingBlocks(f) - DecBlocks(f) else {}
  }

  ghost function Accepted(f: Func, arg: Arg, raise: bool): set<BlockId> {
    RelatedBlocks(f, arg) + PureRaises(f, raise)
  }

  /** First decrefs of `arg` on the walks leaving the head. */
  ghost function FirstDecrefs(f: Func, head: BlockId, arg: Arg, raise: bool): set<BlockId> {
    set b | b in RelatedBlocks(f, arg) && Touched(f.succ, head, Stops(f, raise), b)
  }

  /** First raises on the walks leaving the head. */
  ghost function FirstRaises(f: Func, head: BlockId, raise: bool): set<BlockId> {
    set b | b in PureRaises(f, raise) && Touched(f.succ, head, Stops(f, raise), b)
  }

  ghost predicate ForwardHolds(f: Func, head: BlockId, arg: Arg, raise: bool) {
    Clean(f.succ, head, Stops(f, raise), Accepted(f, arg, raise))
  }

  ghost function Skipped(f: Func, raise: bool): set<BlockId> {
    if raise then RaisingBlocks(f) else {}
  }

  /** The fan-out condition, with no regard to search limits. */
  ghost predicate FanoutHolds(f: Func, head: BlockId, arg: Arg, raise: bool) {
    var decs, raises := FirstDecrefs(f, head, arg, raise), FirstRaises(f, head, raise);
    && ForwardHolds(f, head, arg, raise) && decs != {} && (raise ==> raises != {})
    && BackwardOk(f.succ, head, decs + raises, decs + raises, Skipped(f, raise))
  }

  /** Blocks that hold a decref or, in raise mode, a raise. */
  ghost function Ends(f: Func, raise: bool): set<BlockId> {
    set b: BlockId | b < |f.blocks| && (HasDec(f.blocks[b]) || (raise && IsRaising(f.blocks[b])))
  }

  /** What a walk from the head may meet at its end, if it has met no decref before and, in
      raise mode, no raise: not the head, no foreign decref, and no leaf. */
  ghost predicate EndsWell(f: Func, head: BlockId, arg: Arg, raise: bool, b: BlockId) {
    && b != head && b < |f.blocks| && b < |f.succ|
    && if HasDec(f.blocks[b]) then HasRelatedDec(arg, f.blocks[b])
       else (raise && IsRaising(f.blocks[b])) || f.succ[b] != []
  }

  /** The fan-out condition, said of the walks that leave the head.  They all end well; some
      walk meets a decref and, in raise mode, some walk a raise without one; and those blocks
      pass the backward condition, which in raise mode does not look at raising blocks. */
  ghost predicate WalksEndWell(f: Func, head: BlockId, arg: Arg, raise: bool) {
    var ends := set b | b in Ends(f, raise) && Touched(f.succ, head, Ends(f, raise), b);
    && head < |f.succ| && f.succ[head] != []
    && (forall w :: OpenWalk(f.succ, head, Ends(f, raise), w) ==> EndsWell(f, head, arg, raise, Last(w)))
    && (exists w :: OpenWalk(f.succ, head, Ends(f, raise), w) && Last(w) in DecBlocks(f))
    && (raise ==> exists w :: OpenWalk(f.succ, head, Ends(f, raise), w) && Last(w) in RaisingBlocks(f) - DecBlocks(f))
    && BackwardOk(f.succ, head, ends, ends, if raise then RaisingBlocks(f) else {})
  }

  lemma FanoutMeans(f: Func, head: BlockId, arg: Arg, raise: bool)
    requires f.Valid()
    ensures FanoutHolds(f, head, arg, raise) <==> WalksEndWell(f, head, arg, raise)
  {
    var stops := Stops(f, raise);
    assert stops == Ends(f, raise);
    AcceptedStops(f, arg, raise);
    WalksMeans(f, head, arg, raise);
    if ForwardHolds(f, head, arg, raise) {
      var ends := set b | b in stops && Touched(f.succ, head, stops, b);
      assert ends == FirstDecrefs(f, head, arg, raise) + FirstRaises(f, head, raise);
      EndsMet(f, head, arg, raise);
    }
  }

  lemma EndsMet(f: Func, head: BlockId, arg: Arg, raise: bool)
    requires f.Valid() && ForwardHolds(f, head, arg, raise)
    ensures FirstDecrefs(f, head, arg, raise) != {}
            <==> exists w :: OpenWalk(f.succ, head, Stops(f, raise), w) && Last(w) in DecBlocks(f)
    ensures FirstRaises(f, head, raise) != {}
            <==> exists w :: OpenWalk(f.succ, head, Stops(f, raise), w) && Last(w) in PureRaises(f, raise)
  {
    AcceptedStops(f, arg, raise);
    if b :| b in FirstDecrefs(f, head, arg, raise) {
      var w :| OpenWalk(f.succ, head, Stops(f, raise), w) && Last(w) == b;
    }
    if b :| b in FirstRaises(f, head, raise) {
      var w :| OpenWalk(f.succ, head, Stops(f, raise), w) && Last(w) == b;
    }
    forall w | OpenWalk(f.succ, head, Stops(f, raise), w)
      ensures Last(w) in DecBlocks(f) ==> Last(w) in FirstDecrefs(f, head, arg, raise)
      ensures Last(w) in PureRaises(f, raise) ==> Last(w) in FirstRaises(f, head, raise)
    {
      assert Touched(f.succ, head, Stops(f, raise), Last(w));
    }
  }

  lemma WalksMeans(f: Func, head: BlockId, arg: Arg, raise: bool)
    requires f.Valid()
    ensures ForwardHolds(f, head, arg, raise)
            <==> head < |f.succ| && f.succ[head] != []
                 && forall w :: OpenWalk(f.succ, head, Stops(f, raise), w) ==> EndsWell(f, head, arg, raise, Last(w))
  {
    var stops := Stops(f, raise);
    AcceptedStops(f, arg, raise);
    forall b: BlockId | b < |f.succ|
      ensures (b != head && if b in stops then b in Accepted(f, arg, raise) else f.succ[b] != [])
              <==> EndsWell(f, head, arg, raise, b)
    {
    }
    if forall w :: OpenWalk(f.succ, head, stops, w) ==> EndsWell(f, head, arg, raise, Last(w)) {
      forall b: BlockId | Touched(f.succ, head, stops, b) ensures EndsWell(f, head, arg, raise, b) {
        var w :| OpenWalk(f.succ, head, stops, w) && Last(w) == b;
      }
    }
    if ForwardHolds(f, head, arg, raise) {
      forall w | OpenWalk(f.succ, head, stops, w) ensures EndsWell(f, head, arg, raise, Last(w)) {
        assert Touched(f.succ, head, stops, Last(w));
      }
    }
  }

  /** What the recursive search updates: the node counter, the marked head blocks and the
      two result sets. */
  datatype Search = Search(size: nat, bad: set<BlockId>, decrefs: set<BlockId>, raises: set<BlockId>)

  /** Why a search gave up before it had an answer. */
  datatype Stop = Answered | TooDeep | TooBig

  function TailSet(path: Walk): set<BlockId>
    requires path != []
  {
    set b | b in path[1..]
  }

  /** The path stack is a walk from the head through open blocks. */
  ghost predicate OnPath(g: Cfg, head: BlockId, stops: set<BlockId>, path: Walk) {
    path == [head] || (OpenWalk(g, head, stops, path) && Open(head, stops, Last(path)))
  }

  /** Every successor of an expanded block is expanded, a result, or still on the path. */
  ghost predicate ClosedUnder(g: Cfg, expanded: set<BlockId>, border: set<BlockId>) {
    forall a, b :: a in expanded && Edge(g, a, b) ==> b in expanded + border
  }

  ghost predicate Explored(f: Func, head: BlockId, arg: Arg, raise: bool, s: Search, expanded: set<BlockId>) {
    && (forall b :: b in s.decrefs ==> b in FirstDecrefs(f, head, arg, raise) && b != head)
    && (forall b :: b in s.raises ==> b in FirstRaises(f, head, raise) && b != head)
    && (forall b :: b in expanded ==>
          b < |f.succ| && f.succ[b] != [] && Open(head, Stops(f, raise), b))
  }

  function Border(s: Search, path: Walk): set<BlockId>
    requires path != []
  {
    s.decrefs + s.raises + TailSet(path)
  }

  /** The state in which the search leaves a path it has not rejected. */
  ghost predicate Searching(f: Func, head: BlockId, arg: Arg, raise: bool, limit: nat, path: Walk,
                            s: Search, expanded: set<BlockId>)
    requires path != []
  {
    && Explored(f, head, arg, raise, s, expanded) && s.size <= limit
    && ClosedUnder(f.succ, expanded, Border(s, path))
  }

  ghost predicate Simple(w: Walk) {
    forall i, j :: 0 <= i < j < |w| ==> w[i] != w[j]
  }

  /** A path of open blocks, none twice, that is as deep as the search goes. */
  ghost predicate Deepest(g: Cfg, head: BlockId, stops: set<BlockId>, p: Walk) {
    |p| == FANOUT_RECURSE_DEPTH && Simple(p) && OnPath(g, head, stops, p)
  }

  ghost predicate LongPath(g: Cfg, head: BlockId, stops: set<BlockId>) {
    exists p :: Deepest(g, head, stops, p)
  }

  /** No such path goes on from `path`. */
  ghost predicate Shallow(g: Cfg, head: BlockId, stops: set<BlockId>, path: Walk) {
    forall p :: Deepest(g, head, stops, p) ==> !(path <= p)
  }

  /** Walks leaving the head come to stops, whatever these hold: they never return to the
      head before and never run out of successors. */
  ghost predicate RegionEnds(f: Func, head: BlockId, raise: bool) {
    Clean(f.succ, head, Stops(f, raise), Stops(f, raise))
  }

  /** Number of search steps below `cur` when nothing but the depth limits the search; the
      search follows every open path without repetition. */
  ghost function Tree(g: Cfg, stops: set<BlockId>, path: Walk, cur: BlockId): nat
    decreases FANOUT_RECURSE_DEPTH - |path|, 0, 0
  {
    1 + if |path| >= FANOUT_RECURSE_DEPTH || cur in path || cur in stops || cur >= |g| then 0
        else Forest(g, stops, path + [cur], g[cur], |g[cur]|)
  }

  /** The same for the first `n` of several blocks. */
  ghost function Forest(g: Cfg, stops: set<BlockId>, path: Walk, kids: seq<BlockId>, n: nat): nat
    requires n <= |kids|
    decreases FANOUT_RECURSE_DEPTH - |path|, 1, n
  {
    if n == 0 then 0 else Forest(g, stops, path, kids, n - 1) + Tree(g, stops, path, kids[n - 1])
  }

  /** A limit stops a search that would otherwise succeed: some open path is too deep, or
      there are more search steps than the subgraph limit allows. */
  ghost predicate LimitHit(f: Func, head: BlockId, raise: bool, limit: nat)
    requires head < |f.succ|
  {
    || LongPath(f.succ, head, Stops(f, raise))
    || Forest(f.succ, Stops(f, raise), [head], f.succ[head], |f.succ[head]|) > limit
  }

  /** What any part of the search reports: how its counters moved, and, if it found nothing,
      that the forward condition is false or which limit it hit.  It marks the head unless
      the reason lies in a dead end or in the depth. */
  ghost predicate Reported(f: Func, head: BlockId, arg: Arg, raise: bool, limit: nat,
                           s: Search, t: Search, found: bool, stop: Stop, calls: nat) {
    && s.size <= t.size && s.decrefs <= t.decrefs && s.raises <= t.raises
    && s.bad <= t.bad <= s.bad + {head}
    && (found ==> stop == Answered && t.bad == s.bad)
    && (!found && stop == Answered ==>
          !ForwardHolds(f, head, arg, raise) && (head in t.bad || !RegionEnds(f, head, raise)))
    && (stop == TooDeep ==> LongPath(f.succ, head, Stops(f, raise)))
    && t.size <= limit + 1 && (stop == TooBig <==> t.size == limit + 1) && (stop == TooBig ==> head in t.bad)
    && calls == t.size - s.size + Indicator(stop == TooDeep)
  }

  /** One step of the forward search.  `expanded` collects the blocks whose successors have
      all been searched; `calls` counts the invocations. */
  method WalkChildForDecref(f: Func, head: BlockId, arg: Arg, raise: bool, limit: nat,
                            cur: BlockId, path: Walk, s: Search, ghost expanded: set<BlockId>)
    returns (found: bool, t: Search, ghost expanded': set<BlockId>, ghost stop: Stop, ghost calls: nat)
    requires f.Valid() && head < |f.succ|
    requires 1 <= |path| <= FANOUT_RECURSE_DEPTH && Simple(path) && OnPath(f.succ, head, Stops(f, raise), path)
    requires Edge(f.succ, Last(path), cur)
    requires Searching(f, head, arg, raise, limit, path, s, expanded)
    ensures Reported(f, head, arg, raise, limit, s, t, found, stop, calls) && expanded <= expanded'
    ensures found ==> Searching(f, head, arg, raise, limit, path, t, expanded')
    ensures found ==> cur in expanded' + Border(t, path)
    ensures t.size <= s.size + Tree(f.succ, Stops(f, raise), path, cur)
    ensures found ==> t.size == s.size + Tree(f.succ, Stops(f, raise), path, cur)
    ensures found ==> |path| < FANOUT_RECURSE_DEPTH && Shallow(f.succ, head, Stops(f, raise), path + [cur])
    decreases FANOUT_RECURSE_DEPTH - |path|, 2
  {
    expanded', calls := expanded, 1;
    // The path is too deep.
    if |path| >= FANOUT_RECURSE_DEPTH {
      assert Deepest(f.succ, head, Stops(f, raise), path);
      return false, s, expanded', TooDeep, calls;
    }
    // The subgraph is too big.
    var size := s.size + 1;
    if size > limit {
      return false, s.(size := size, bad := s.bad + {head}), expanded', TooBig, calls;
    }
    SizeGrows(f, head, arg, raise, limit, path, s, size, expanded);
    ghost var more;
    found, t, expanded', stop, more := FollowEdge(f, head, arg, raise, limit, cur, path, s.(size := size), expanded);
    calls := calls + more;
  }

  lemma SizeGrows(f: Func, head: BlockId, arg: Arg, raise: bool, limit: nat, path: Walk, s: Search, size: nat,
                  expanded: set<BlockId>)
    requires path != [] && Searching(f, head, arg, raise, limit, path, s, expanded) && size <= limit
    ensures Searching(f, head, arg, raise, limit, path, s.(size := size), expanded)
  {
    assert Border(s.(size := size), path) == Border(s, path);
  }

  /** Follows an edge within the limits. */
  method FollowEdge(f: Func, head: BlockId, arg: Arg, raise: bool, limit: nat,
                    cur: BlockId, path: Walk, s: Search, ghost expanded: set<BlockId>)
    returns (found: bool, t: Search, ghost expanded': set<BlockId>, ghost stop: Stop, ghost calls: nat)
    requires f.Valid() && head < |f.succ|
    requires 1 <= |path| < FANOUT_RECURSE_DEPTH && Simple(path) && OnPath(f.succ, head, Stops(f, raise), path)
    requires Edge(f.succ, Last(path), cur)
    requires Searching(f, head, arg, raise, limit, path, s, expanded) && 0 < s.size <= limit
    ensures Reported(f, head, arg, raise, limit, s, t, found, stop, calls) && expanded <= expanded'
    ensures found ==> Searching(f, head, arg, raise, limit, path, t, expanded')
    ensures found ==> cur in expanded' + Border(t, path)
    ensures t.size < s.size + Tree(f.succ, Stops(f, raise), path, cur)
    ensures found ==> t.size == s.size - 1 + Tree(f.succ, Stops(f, raise), path, cur)
    ensures found ==> Shallow(f.succ, head, Stops(f, raise), path + [cur])
    decreases FANOUT_RECURSE_DEPTH - |path|, 1
  {
    TouchedExtend(f.succ, head, Stops(f, raise), path, cur);
    // A back edge: to the head it is fatal, to any other block of the path it is skipped.
    if cur in path {
      if cur == path[0] {
        HeadTouched(f, head, arg, raise);
        return false, s.(bad := s.bad + {head}), expanded, Answered, 0;
      }
      OnPathInTail(path, cur);
      RepeatIsShallow(f.succ, head, Stops(f, raise), path, cur);
      return true, s, expanded, Answered, 0;
    }
    found, t, expanded', stop, calls := VisitBlock(f, head, arg, raise, limit, cur, path, s, expanded);
  }

  /** Decides a block met for the first time on this path. */
  method VisitBlock(f: Func, head: BlockId, arg: Arg, raise: bool, limit: nat,
                    cur: BlockId, path: Walk, s: Search, ghost expanded: set<BlockId>)
    returns (found: bool, t: Search, ghost expanded': set<BlockId>, ghost stop: Stop, ghost calls: nat)
    requires f.Valid() && head < |f.succ|
    requires 1 <= |path| < FANOUT_RECURSE_DEPTH && Simple(path) && path[0] == head && cur !in path
    requires OpenWalk(f.succ, head, Stops(f, raise), path + [cur])
    requires Searching(f, head, arg, raise, limit, path, s, expanded) && 0 < s.size <= limit
    ensures Reported(f, head, arg, raise, limit, s, t, found, stop, calls) && expanded <= expanded'
    ensures found ==> Searching(f, head, arg, raise, limit, path, t, expanded')
    ensures found ==> cur in expanded' + Border(t, path)
    ensures t.size < s.size + Tree(f.succ, Stops(f, raise), path, cur)
    ensures found ==> t.size == s.size - 1 + Tree(f.succ, Stops(f, raise), path, cur)
    ensures found ==> Shallow(f.succ, head, Stops(f, raise), path + [cur])
    decreases FANOUT_RECURSE_DEPTH - |path|, 0
  {
    expanded', calls := expanded, 0;
    assert Last(path + [cur]) == cur;
    StopIsShallow(f.succ, head, Stops(f, raise), path, cur);
    if HasRelatedDec(arg, f.blocks[cur]) {
      t := s.(decrefs := s.decrefs + {cur});
      AddDecref(f, head, arg, raise, limit, path, s, t, expanded, cur);
      return true, t, expanded', Answered, calls;
    }
    // Any other decref may be of an alias.
    if HasDec(f.blocks[cur]) {
      ForeignDecref(f, head, arg, raise, cur);
      return false, s.(bad := s.bad + {head}), expanded', Answered, calls;
    }
    if raise && IsRaising(f.blocks[cur]) {
      t := s.(raises := s.raises + {cur});
      AddRaise(f, head, arg, raise, limit, path, s, t, expanded, cur);
      return true, t, expanded', Answered, calls;
    }
    t := s;
    Descend(f, head, arg, raise, limit, path, t, expanded, cur);
    found, t, expanded', stop, calls := WalkChildren(f, head, arg, raise, limit, path + [cur], t, expanded);
    if found {
      Ascend(f, head, arg, raise, limit, path, t, expanded', cur);
      expanded' := expanded' + {cur};
    }
  }

  lemma RepeatIsShallow(g: Cfg, head: BlockId, stops: set<BlockId>, path: Walk, cur: BlockId)
    requires cur in path
    ensures Shallow(g, head, stops, path + [cur])
  {
    var longer := path + [cur];
    var k :| 0 <= k < |path| && path[k] == cur;
    forall p | longer <= p ensures !Deepest(g, head, stops, p) {
      assert p[k] == longer[k] && p[|path|] == longer[|path|];
    }
  }

  lemma StopIsShallow(g: Cfg, head: BlockId, stops: set<BlockId>, path: Walk, cur: BlockId)
    requires path != []
    ensures cur in stops ==> Shallow(g, head, stops, path + [cur])
  {
    var longer := path + [cur];
    forall p | longer <= p ensures cur in stops ==> !Deepest(g, head, stops, p) {
      assert p[|path|] == longer[|path|] == cur;
      assert cur in stops ==> !Open(head, stops, p[|path|]);
    }
  }

  lemma ChildrenAreShallow(g: Cfg, head: BlockId, stops: set<BlockId>, path: Walk)
    requires path != [] && |path| < FANOUT_RECURSE_DEPTH && Last(path) < |g|
    requires forall k :: 0 <= k < |g[Last(path)]| ==> Shallow(g, head, stops, path + [g[Last(path)][k]])
    ensures Shallow(g, head, stops, path)
  {
    var n, kids := |path|, g[Last(path)];
    forall p | path <= p && |p| > n ensures !Deepest(g, head, stops, p) {
      assert p[n - 1] == Last(path);
      if k :| 0 <= k < |kids| && kids[k] == p[n] {
        assert path + [kids[k]] <= p;
      } else {
        assert !Edge(g, p[n - 1], p[n]);
      }
    }
  }

  lemma HeadTouched(f: Func, head: BlockId, arg: Arg, raise: bool)
    requires Touched(f.succ, head, Stops(f, raise), head)
    ensures !ForwardHolds(f, head, arg, raise)
  {
  }

  lemma OnPathInTail(path: Walk, cur: BlockId)
    requires path != [] && cur in path && cur != path[0]
    ensures cur in TailSet(path)
  {
    assert path == [path[0]] + path[1..];
  }

  lemma ForeignDecref(f: Func, head: BlockId, arg: Arg, raise: bool, cur: BlockId)
    requires Touched(f.succ, head, Stops(f, raise), cur) && cur < |f.blocks|
    requires HasDec(f.blocks[cur]) && !HasRelatedDec(arg, f.blocks[cur])
    ensures !ForwardHolds(f, head, arg, raise)
  {
    assert cur in Stops(f, raise) && cur !in Accepted(f, arg, raise);
  }

  lemma AddDecref(f: Func, head: BlockId, arg: Arg, raise: bool, limit: nat, path: Walk,
                  s: Search, t: Search, expanded: set<BlockId>, cur: BlockId)
    requires path != [] && Searching(f, head, arg, raise, limit, path, s, expanded)
    requires t.decrefs == s.decrefs + {cur} && t.raises == s.raises && t.size <= limit
    requires cur < |f.blocks| && HasRelatedDec(arg, f.blocks[cur]) && cur != head
    requires Touched(f.succ, head, Stops(f, raise), cur)
    ensures Searching(f, head, arg, raise, limit, path, t, expanded) && cur in Border(t, path)
  {
    BorderGrows(f, s, t, expanded, path);
  }

  lemma AddRaise(f: Func, head: BlockId, arg: Arg, raise: bool, limit: nat, path: Walk,
                 s: Search, t: Search, expanded: set<BlockId>, cur: BlockId)
    requires path != [] && Searching(f, head, arg, raise, limit, path, s, expanded)
    requires t.decrefs == s.decrefs && t.raises == s.raises + {cur} && t.size <= limit
    requires cur < |f.blocks| && raise && IsRaising(f.blocks[cur]) && !HasDec(f.blocks[cur]) && cur != head
    requires Touched(f.succ, head, Stops(f, raise), cur)
    ensures Searching(f, head, arg, raise, limit, path, t, expanded) && cur in Border(t, path)
  {
    BorderGrows(f, s, t, expanded, path);
  }

  lemma BorderGrows(f: Func, s: Search, t: Search, expanded: set<BlockId>, path: Walk)
    requires path != [] && s.decrefs <= t.decrefs && s.raises <= t.raises
    requires ClosedUnder(f.succ, expanded, Border(s, path))
    ensures ClosedUnder(f.succ, expanded, Border(t, path))
  {
    assert Border(s, path) <= Border(t, path);
  }

  lemma Descend(f: Func, head: BlockId, arg: Arg, raise: bool, limit: nat, path: Walk,
                s: Search, expanded: set<BlockId>, cur: BlockId)
    requires path != [] && Searching(f, head, arg, raise, limit, path, s, expanded)
    ensures Searching(f, head, arg, raise, limit, path + [cur], s, expanded)
  {
    PathGrows(path, cur);
    assert Border(s, path + [cur]) == Border(s, path) + {cur};
  }

  lemma Ascend(f: Func, head: BlockId, arg: Arg, raise: bool, limit: nat, path: Walk,
               s: Search, expanded: set<BlockId>, cur: BlockId)
    requires path != [] && Searching(f, head, arg, raise, limit, path + [cur], s, expanded)
    requires cur < |f.succ| && f.succ[cur] != [] && Open(head, Stops(f, raise), cur)
    requires forall b :: b in f.succ[cur] ==> b in expanded + Border(s, path + [cur])
    ensures Searching(f, head, arg, raise, limit, path, s, expanded + {cur})
  {
    PathGrows(path, cur);
    assert Border(s, path + [cur]) == Border(s, path) + {cur};
  }

  lemma PathGrows(path: Walk, cur: BlockId)
    requires path != []
    ensures TailSet(path + [cur]) == TailSet(path) + {cur}
  {
    assert (path + [cur])[1..] == path[1..] + [cur];
  }

  /** Searches all successors of the last block of the path; a leaf is a failure. */
  method WalkChildren(f: Func, head: BlockId, arg: Arg, raise: bool, limit: nat,
                      path: Walk, s: Search, ghost expanded: set<BlockId>)
    returns (found: bool, t: Search, ghost expanded': set<BlockId>, ghost stop: Stop, ghost calls: nat)
    requires f.Valid() && head < |f.succ|
    requires 1 <= |path| <= FANOUT_RECURSE_DEPTH && Simple(path) && OnPath(f.succ, head, Stops(f, raise), path)
    requires Searching(f, head, arg, raise, limit, path, s, expanded)
    ensures Reported(f, head, arg, raise, limit, s, t, found, stop, calls) && expanded <= expanded'
    ensures found ==> Searching(f, head, arg, raise, limit, path, t, expanded')
    ensures found ==> f.succ[Last(path)] != []
    ensures found ==> forall b :: b in f.succ[Last(path)] ==> b in expanded' + Border(t, path)
    ensures t.size <= s.size + Forest(f.succ, Stops(f, raise), path, f.succ[Last(path)], |f.succ[Last(path)]|)
    ensures found ==> t.size == s.size + Forest(f.succ, Stops(f, raise), path, f.succ[Last(path)], |f.succ[Last(path)]|)
    ensures found ==> Shallow(f.succ, head, Stops(f, raise), path)
    decreases FANOUT_RECURSE_DEPTH - |path|, 3
  {
    found, t, expanded', stop, calls := false, s, expanded, Answered, 0;
    var succs := f.succ[Last(path)];
    NoneSearched(f, head, arg, raise, limit, path, succs, s);
    for i := 0 to |succs|
      invariant found <==> i > 0
      invariant stop == Answered && expanded <= expanded'
      invariant Searching(f, head, arg, raise, limit, path, t, expanded')
      invariant ChildrenCovered(succs, i, path, t, expanded')
      invariant SearchedSoFar(f, head, arg, raise, limit, path, succs, i, s, t, calls)
    {
      ghost var more;
      ghost var before, was := t, expanded';
      found, t, expanded', stop, more :=
        WalkChildForDecref(f, head, arg, raise, limit, succs[i], path, t, expanded');
      NextChild(f, head, arg, raise, limit, path, succs, i, s, before, t, found, stop, calls, more);
      calls := calls + more;
      if !found {
        return;
      }
      NextCovered(succs, i, path, before, t, was, expanded');
    }
    AllSearched(f, head, arg, raise, limit, path, succs, s, t, calls);
  }

  lemma NoneSearched(f: Func, head: BlockId, arg: Arg, raise: bool, limit: nat, path: Walk, succs: seq<BlockId>,
                     s: Search)
    requires path != [] && s.size <= limit
    ensures SearchedSoFar(f, head, arg, raise, limit, path, succs, 0, s, s, 0)
  {
  }

  lemma AllSearched(f: Func, head: BlockId, arg: Arg, raise: bool, limit: nat, path: Walk, succs: seq<BlockId>,
                    s: Search, t: Search, calls: nat)
    requires f.Valid() && head < |f.succ| && path != [] && OnPath(f.succ, head, Stops(f, raise), path)
    requires succs == f.succ[Last(path)]
    requires SearchedSoFar(f, head, arg, raise, limit, path, succs, |succs|, s, t, calls)
    ensures Reported(f, head, arg, raise, limit, s, t, succs != [], Answered, calls)
    ensures succs != [] ==> Shallow(f.succ, head, Stops(f, raise), path)
  {
    if succs == [] {
      LeafFails(f, head, arg, raise, path);
    } else {
      ChildrenAreShallow(f.succ, head, Stops(f, raise), path);
    }
  }

  /** The counters after the first `i` successors have been searched successfully. */
  ghost predicate SearchedSoFar(f: Func, head: BlockId, arg: Arg, raise: bool, limit: nat, path: Walk,
                                succs: seq<BlockId>, i: nat, s: Search, t: Search, calls: nat)
  {
    && path != [] && i <= |succs|
    && Reported(f, head, arg, raise, limit, s, t, true, Answered, calls)
    && t.size == s.size + Forest(f.succ, Stops(f, raise), path, succs, i)
    && (i > 0 ==> |path| < FANOUT_RECURSE_DEPTH)
    && (forall k :: 0 <= k < i ==> Shallow(f.succ, head, Stops(f, raise), path + [succs[k]]))
  }

  lemma NextChild(f: Func, head: BlockId, arg: Arg, raise: bool, limit: nat, path: Walk, succs: seq<BlockId>, i: nat,
                  s: Search, t: Search, u: Search, found: bool, stop: Stop, calls: nat, more: nat)
    requires i < |succs| && SearchedSoFar(f, head, arg, raise, limit, path, succs, i, s, t, calls)
    requires Reported(f, head, arg, raise, limit, t, u, found, stop, more)
    requires u.size <= t.size + Tree(f.succ, Stops(f, raise), path, succs[i])
    requires found ==> u.size == t.size + Tree(f.succ, Stops(f, raise), path, succs[i])
    requires found ==> |path| < FANOUT_RECURSE_DEPTH && Shallow(f.succ, head, Stops(f, raise), path + [succs[i]])
    ensures Reported(f, head, arg, raise, limit, s, u, found, stop, calls + more)
    ensures u.size <= s.size + Forest(f.succ, Stops(f, raise), path, succs, |succs|)
    ensures found ==> SearchedSoFar(f, head, arg, raise, limit, path, succs, i + 1, s, u, calls + more)
  {
    ReportedChain(f, head, arg, raise, limit, s, t, u, found, stop, calls, more);
    ForestGrows(f.succ, Stops(f, raise), path, succs, i + 1);
  }

  /** The first `n` blocks are expanded, results, or on the path. */
  ghost predicate ChildrenCovered(kids: seq<BlockId>, n: nat, path: Walk, s: Search, expanded: set<BlockId>) {
    n <= |kids| && path != [] && forall i :: 0 <= i < n ==> kids[i] in expanded + Border(s, path)
  }

  lemma NextCovered(kids: seq<BlockId>, n: nat, path: Walk, s: Search, t: Search, expanded: set<BlockId>,
                    expanded': set<BlockId>)
    requires n < |kids| && ChildrenCovered(kids, n, path, s, expanded)
    requires expanded <= expanded' && s.decrefs <= t.decrefs && s.raises <= t.raises
    requires kids[n] in expanded' + Border(t, path)
    ensures ChildrenCovered(kids, n + 1, path, t, expanded')
  {
    assert expanded + Border(s, path) <= expanded' + Border(t, path);
  }

  lemma ReportedChain(f: Func, head: BlockId, arg: Arg, raise: bool, limit: nat,
                      s: Search, t: Search, u: Search, found: bool, stop: Stop, calls: nat, more: nat)
    requires Reported(f, head, arg, raise, limit, s, t, true, Answered, calls)
    requires Reported(f, head, arg, raise, limit, t, u, found, stop, more)
    ensures Reported(f, head, arg, raise, limit, s, u, found, stop, calls + more)
  {
  }

  lemma ForestGrows(g: Cfg, stops: set<BlockId>, path: Walk, kids: seq<BlockId>, i: nat)
    requires i <= |kids|
    ensures Forest(g, stops, path, kids, i) <= Forest(g, stops, path, kids, |kids|)
    decreases |kids| - i
  {
    if i < |kids| {
      ForestGrows(g, stops, path, kids, i + 1);
    }
  }

  lemma LeafFails(f: Func, head: BlockId, arg: Arg, raise: bool, path: Walk)
    requires f.Valid() && head < |f.succ| && path != [] && OnPath(f.succ, head, Stops(f, raise), path)
    requires f.succ[Last(path)] == []
    ensures !ForwardHolds(f, head, arg, raise) && !RegionEnds(f, head, raise)
  {
    if path != [head] {
      assert Touched(f.succ, head, Stops(f, raise), Last(path));
    }
  }

  lemma RelatedHasDec(arg: Arg, s: Block)
    ensures HasRelatedDec(arg, s) ==> HasDec(s)
  {
    if HasRelatedDec(arg, s) {
      var i :| 0 <= i < |s| && IsRelatedDec(arg, s[i]);
      assert IsDec(s[i]);
    }
  }

  /** The ends of the open region do not depend on the incref's argument. */
  lemma ForwardMeansEnds(f: Func, head: BlockId, arg: Arg, raise: bool)
    requires ForwardHolds(f, head, arg, raise)
    ensures RegionEnds(f, head, raise)
  {
  }

  /** The search space of a finished search covers everything that can be touched. */
  lemma {:induction false} ExploredCovers(f: Func, head: BlockId, arg: Arg, raise: bool, s: Search,
                                          expanded: set<BlockId>, w: Walk)
    requires f.Valid() && head < |f.succ| && Explored(f, head, arg, raise, s, expanded)
    requires ClosedUnder(f.succ, expanded, s.decrefs + s.raises)
    requires forall b :: b in f.succ[head] ==> b in expanded + s.decrefs + s.raises
    requires OpenWalk(f.succ, head, Stops(f, raise), w)
    ensures Last(w) in expanded + s.decrefs + s.raises
    decreases |w|
  {
    assert Edge(f.succ, w[|w| - 2], w[|w| - 1]);
    if |w| > 2 {
      WalkSlice(f.succ, w, 0, |w| - 1);
      assert Open(head, Stops(f, raise), w[|w| - 2]);
      ExploredCovers(f, head, arg, raise, s, expanded, Init(w));
      AcceptedStops(f, arg, raise);
    }
  }

  lemma AcceptedStops(f: Func, arg: Arg, raise: bool)
    ensures Accepted(f, arg, raise) <= Stops(f, raise)
    ensures RelatedBlocks(f, arg) <= DecBlocks(f)
  {
    forall b | b in RelatedBlocks(f, arg) ensures b in DecBlocks(f) {
      RelatedHasDec(arg, f.blocks[b]);
    }
  }

  lemma SearchAnswers(f: Func, head: BlockId, arg: Arg, raise: bool, s: Search, expanded: set<BlockId>)
    requires f.Valid() && head < |f.succ| && Explored(f, head, arg, raise, s, expanded)
    requires ClosedUnder(f.succ, expanded, s.decrefs + s.raises)
    requires f.succ[head] != [] && forall b :: b in f.succ[head] ==> b in expanded + s.decrefs + s.raises
    ensures ForwardHolds(f, head, arg, raise)
    ensures s.decrefs == FirstDecrefs(f, head, arg, raise)
    ensures s.raises == FirstRaises(f, head, raise)
  {
    AcceptedStops(f, arg, raise);
    forall b: BlockId | Touched(f.succ, head, Stops(f, raise), b)
      ensures b in expanded + s.decrefs + s.raises
    {
      var w :| OpenWalk(f.succ, head, Stops(f, raise), w) && Last(w) == b;
      ExploredCovers(f, head, arg, raise, s, expanded, w);
    }
  }

  lemma ShallowHead(g: Cfg, head: BlockId, stops: set<BlockId>)
    requires Shallow(g, head, stops, [head])
    ensures !LongPath(g, head, stops)
  {
    forall p | !([head] <= p) ensures !Deepest(g, head, stops, p) {
      assert p == [] || p[0] != head;
    }
  }

  /** What a search may do to the set of blocks that always fail: it adds at most the head,
      not after a success, and it must add it if only the contents of the stops are wrong. */
  ghost predicate MarksSoundly(f: Func, head: BlockId, arg: Arg, raise: bool, limit: nat, bad: set<BlockId>,
                               bad': set<BlockId>)
    requires head < |f.succ|
  {
    && bad <= bad' <= bad + {head}
    && (ForwardHolds(f, head, arg, raise) && !LimitHit(f, head, raise, limit) ==> bad' == bad)
    && (!ForwardHolds(f, head, arg, raise) && RegionEnds(f, head, raise) && !LimitHit(f, head, raise, limit) ==>
          head in bad')
  }

  /** Forward pass.  It succeeds exactly if the forward condition holds and no limit applies,
      and makes at most `limit + 1` recursive calls.  It marks the head only if it fails, and
      does so whenever it fails merely because of what the stops hold. */
  method FindFanoutDecrefCandidates(f: Func, head: BlockId, arg: Arg, raise: bool, limit: nat, bad: set<BlockId>)
    returns (found: bool, s: Search, ghost calls: nat)
    requires f.Valid() && head < |f.succ|
    ensures found <==> ForwardHolds(f, head, arg, raise) && !LimitHit(f, head, raise, limit)
    ensures found ==> s.decrefs == FirstDecrefs(f, head, arg, raise) && s.raises == FirstRaises(f, head, raise)
    ensures MarksSoundly(f, head, arg, raise, limit, bad, s.bad)
    ensures calls <= limit + 1
  {
    ghost var expanded: set<BlockId> := {};
    assert TailSet([head]) == {};
    ghost var stop;
    var start := Search(0, bad, {}, {});
    found, s, expanded, stop, calls := WalkChildren(f, head, arg, raise, limit, [head], start, expanded);
    if found {
      ShallowHead(f.succ, head, Stops(f, raise));
      assert Border(s, [head]) == s.decrefs + s.raises;
      SearchAnswers(f, head, arg, raise, s, expanded);
    }
  }

  // ----- backward pass

  function Preds(g: Cfg, b: BlockId): set<BlockId> {
    set p: BlockId | p < |g| && b in g[p]
  }

  /** Everything behind a visited block has been or will be visited. */
  ghost predicate BehindVisited(g: Cfg, head: BlockId, skip: set<BlockId>, visited: set<BlockId>,
                                pending: set<BlockId>)
  {
    forall a, b :: b in visited && Edge(g, a, b) ==> a == head || a in visited + pending + skip
  }

  ghost predicate VisitedOk(g: Cfg, head: BlockId, tails: set<BlockId>, skip: set<BlockId>, visited: set<BlockId>) {
    forall b :: b in visited ==>
      b < |g| && b !in skip && b != ENTRY && !HasPredIn(g, tails, b)
  }

  ghost predicate AllQueued(g: Cfg, head: BlockId, tails: set<BlockId>, skip: set<BlockId>, work: Walk) {
    forall b :: b in work ==> b < |g| && Queued(g, head, tails, skip, b)
  }

  function Set(w: Walk): set<BlockId> { set b | b in w }

  lemma {:induction false} VisitedCovers(g: Cfg, head: BlockId, starts: set<BlockId>, skip: set<BlockId>,
                                         visited: set<BlockId>, w: Walk)
    requires BehindVisited(g, head, skip, visited, {}) && starts <= visited + skip
    requires BackWalk(g, head, starts, skip, w) && w[0] !in skip
    ensures w[0] in visited
    decreases |w|
  {
    if |w| > 1 {
      WalkSlice(g, w, 1, |w|);
      VisitedCovers(g, head, starts, skip, visited, w[1..|w|]);
      assert Edge(g, w[0], w[1]);
    }
  }

  lemma BackwardAnswers(g: Cfg, head: BlockId, starts: set<BlockId>, tails: set<BlockId>, skip: set<BlockId>,
                        visited: set<BlockId>)
    requires BehindVisited(g, head, skip, visited, {}) && starts <= visited + skip
    requires VisitedOk(g, head, tails, skip, visited)
    ensures BackwardOk(g, head, starts, tails, skip)
  {
    forall b | BackReach(g, head, starts, skip, b) ensures b != ENTRY && !HasPredIn(g, tails, b) {
      var w :| BackWalk(g, head, starts, skip, w) && w[0] == b;
      VisitedCovers(g, head, starts, skip, visited, w);
    }
  }

  /** Pushes the predecessors of a visited block; stops at one that is itself a tail. */
  method PushPreds(g: Cfg, head: BlockId, tails: set<BlockId>, ghost skip: set<BlockId>, cur: BlockId, workstack: Walk)
    returns (ok: bool, work: Walk)
    requires ValidCfg(g) && BackReach(g, head, tails, skip, cur) && cur < |g|
    requires AllQueued(g, head, tails, skip, workstack)
    ensures ok <==> !HasPredIn(g, tails, cur)
    ensures ok ==> AllQueued(g, head, tails, skip, work) && Set(workstack) <= Set(work)
    ensures ok ==> forall p :: Edge(g, p, cur) ==> p == head || p in Set(work)
  {
    work := workstack;
    var preds := Preds(g, cur);
    var left := preds;
    while left != {}
      invariant left <= preds
      invariant forall p :: p in preds - left ==> p !in tails && (p == head || p in work)
      invariant AllQueued(g, head, tails, skip, work) && Set(workstack) <= Set(work)
      decreases left
    {
      var p :| p in left;
      left := left - {p};
      assert Edge(g, p, cur);
      if p in tails {
        return false, work;
      }
      if p != head {
        QueuedStep(g, head, tails, skip, p, cur);
        assert forall b :: b in work + [p] <==> b in work || b == p;
        work := work + [p];
      }
    }
    assert forall p :: Edge(g, p, cur) ==> p in preds;
    return true, work;
  }

  /** State of the backward walk from one tail. */
  ghost predicate WalkingBack(g: Cfg, head: BlockId, tails: set<BlockId>, skip: set<BlockId>, tail: BlockId,
                              visited: set<BlockId>, work: Walk)
  {
    && tail in visited + skip + Set(work)
    && AllQueued(g, head, tails, skip, work)
    && VisitedOk(g, head, tails, skip, visited)
    && BehindVisited(g, head, skip, visited, Set(work))
  }

  lemma PopSkips(g: Cfg, head: BlockId, tails: set<BlockId>, skip: set<BlockId>, tail: BlockId,
                 visited: set<BlockId>, work: Walk, cur: BlockId)
    requires WalkingBack(g, head, tails, skip, tail, visited, work + [cur])
    requires cur in visited || cur in skip
    ensures WalkingBack(g, head, tails, skip, tail, visited, work)
  {
    assert Set(work + [cur]) == Set(work) + {cur};
    assert forall b :: b in work ==> b in work + [cur];
  }

  lemma PopVisits(g: Cfg, head: BlockId, tails: set<BlockId>, skip: set<BlockId>, tail: BlockId,
                  visited: set<BlockId>, work: Walk, cur: BlockId, work': Walk)
    requires WalkingBack(g, head, tails, skip, tail, visited, work + [cur])
    requires cur < |g| && cur !in skip && cur != ENTRY && !HasPredIn(g, tails, cur)
    requires AllQueued(g, head, tails, skip, work') && Set(work) <= Set(work')
    requires forall p :: Edge(g, p, cur) ==> p == head || p in Set(work')
    ensures WalkingBack(g, head, tails, skip, tail, visited + {cur}, work')
  {
    assert Set(work + [cur]) == Set(work) + {cur};
  }

  /** Empties the work stack of one tail. */
  method WalkBack(f: Func, head: BlockId, tails: set<BlockId>, raise: bool, tail: BlockId, visited: set<BlockId>)
    returns (ok: bool, v: set<BlockId>)
    requires f.Valid() && tail in tails && tail < |f.succ|
    requires VisitedOk(f.succ, head, tails, Skipped(f, raise), visited)
    requires BehindVisited(f.succ, head, Skipped(f, raise), visited, {})
    ensures ok ==> visited <= v && tail in v + Skipped(f, raise)
    ensures ok ==> VisitedOk(f.succ, head, tails, Skipped(f, raise), v)
    ensures ok ==> BehindVisited(f.succ, head, Skipped(f, raise), v, {})
    ensures !ok ==> !BackwardOk(f.succ, head, tails, tails, Skipped(f, raise))
  {
    var workstack: Walk := [tail];
    v := visited;
    WalkBackStarts(f.succ, head, tails, Skipped(f, raise), tail, visited);
    while workstack != []
      invariant visited <= v
      invariant WalkingBack(f.succ, head, tails, Skipped(f, raise), tail, v, workstack)
      decreases |f.succ| - |v|, |workstack|
    {
      var cur := workstack[|workstack| - 1];
      assert workstack == workstack[..|workstack| - 1] + [cur];
      workstack := workstack[..|workstack| - 1];
      ok, v, workstack := VisitBack(f, head, tails, raise, tail, v, workstack, cur);
      if !ok {
        return;
      }
    }
    assert Set([]) == {};
    return true, v;
  }

  lemma WalkBackStarts(g: Cfg, head: BlockId, tails: set<BlockId>, skip: set<BlockId>, tail: BlockId,
                       visited: set<BlockId>)
    requires tail in tails && tail < |g| && VisitedOk(g, head, tails, skip, visited)
    requires BehindVisited(g, head, skip, visited, {})
    ensures WalkingBack(g, head, tails, skip, tail, visited, [tail])
  {
    assert BackWalk(g, head, tails, skip, [tail]);
  }

  /** Handles one block popped from the work stack. */
  method VisitBack(f: Func, head: BlockId, tails: set<BlockId>, raise: bool, ghost tail: BlockId,
                   visited: set<BlockId>, workstack: Walk, cur: BlockId)
    returns (ok: bool, v: set<BlockId>, work: Walk)
    requires f.Valid() && WalkingBack(f.succ, head, tails, Skipped(f, raise), tail, visited, workstack + [cur])
    ensures ok ==> visited <= v && WalkingBack(f.succ, head, tails, Skipped(f, raise), tail, v, work)
    ensures ok ==> (v == visited && work == workstack) || |visited| < |v| <= |f.succ|
    ensures !ok ==> !BackwardOk(f.succ, head, tails, tails, Skipped(f, raise))
  {
    PoppedIsQueued(f.succ, head, tails, Skipped(f, raise), tail, visited, workstack, cur);
    if raise && IsRaising(f.blocks[cur]) {
      PopSkips(f.succ, head, tails, Skipped(f, raise), tail, visited, workstack, cur);
      return true, visited, workstack;
    }
    if cur in visited {
      PopSkips(f.succ, head, tails, Skipped(f, raise), tail, visited, workstack, cur);
      return true, visited, workstack;
    }
    assert BackReach(f.succ, head, tails, Skipped(f, raise), cur);
    if cur == ENTRY {
      return false, visited, workstack;
    }
    ok, work := PushPreds(f.succ, head, tails, Skipped(f, raise), cur, workstack);
    v := visited + {cur};
    if ok {
      PopVisits(f.succ, head, tails, Skipped(f, raise), tail, visited, workstack, cur, work);
      MoreVisited(|f.succ|, visited, cur);
    }
  }

  lemma PoppedIsQueued(g: Cfg, head: BlockId, tails: set<BlockId>, skip: set<BlockId>, tail: BlockId,
                       visited: set<BlockId>, work: Walk, cur: BlockId)
    requires WalkingBack(g, head, tails, skip, tail, visited, work + [cur])
    ensures cur < |g| && Queued(g, head, tails, skip, cur) && AllQueued(g, head, tails, skip, work)
    ensures forall b :: b in visited ==> b < |g|
  {
    var all := work + [cur];
    assert all[|work|] == cur && cur in all;
    assert forall b :: b in work ==> b in all;
  }

  lemma MoreVisited(n: nat, v: set<BlockId>, b: BlockId)
    requires (forall x :: x in v ==> x < n) && b < n && b !in v
    ensures |v + {b}| == |v| + 1 && |v| < n
  {
    BoundedSize(v + {b}, n);
  }

  lemma {:induction false} BoundedSize(v: set<BlockId>, n: nat)
    requires forall x :: x in v ==> x < n
    ensures |v| <= n
    decreases n
  {
    if n == 0 {
      assert v == {};
    } else {
      BoundedSize(v - {n - 1}, n - 1);
    }
  }

  /** Backward pass.  It answers exactly the backward condition. */
  method VerifyFanoutBackward(f: Func, head: BlockId, tails: set<BlockId>, raise: bool) returns (ok: bool)
    requires f.Valid() && forall t :: t in tails ==> t < |f.succ|
    ensures ok <==> BackwardOk(f.succ, head, tails, tails, Skipped(f, raise))
    ensures head !in tails && (forall t :: t in tails ==> Reachable(f.succ, t)) ==>
              (ok <==> ArrivesByHead(f.succ, head, tails, tails, if raise then RaisingBlocks(f) else {}))
  {
    if head !in tails && forall t :: t in tails ==> Reachable(f.succ, t) {
      SkippedBackwardExact(f.succ, head, tails, tails, Skipped(f, raise));
    }
    var todo := tails;
    var visited: set<BlockId> := {};
    while todo != {}
      invariant todo <= tails && tails <= todo + visited + Skipped(f, raise)
      invariant VisitedOk(f.succ, head, tails, Skipped(f, raise), visited)
      invariant BehindVisited(f.succ, head, Skipped(f, raise), visited, {})
      decreases todo
    {
      var tail :| tail in todo;
      todo := todo - {tail};
      ok, visited := WalkBack(f, head, tails, raise, tail, visited);
      if !ok {
        return false;
      }
    }
    BackwardAnswers(f.succ, head, tails, tails, Skipped(f, raise), visited);
    return true;
  }

  // ----- both passes

  /** Searches the fan-out condition: accepts exactly if it holds and no search limit applies. */
  method FindFanout(f: Func, head: BlockId, arg: Arg, raise: bool, limit: nat, bad: set<BlockId>)
    returns (found: bool, bad': set<BlockId>, decrefs: set<BlockId>)
    requires f.Valid() && head < |f.succ|
    ensures found <==> FanoutHolds(f, head, arg, raise) && !LimitHit(f, head, raise, limit)
    ensures found ==> decrefs == FirstDecrefs(f, head, arg, raise)
    ensures found ==> exists w :: OpenWalk(f.succ, head, DecBlocks(f) + if raise then RaisingBlocks(f) else {}, w)
                                  && Last(w) in RelatedBlocks(f, arg)
    ensures found && raise ==> exists w :: OpenWalk(f.succ, head, DecBlocks(f) + RaisingBlocks(f), w)
                                           && Last(w) in RaisingBlocks(f) - DecBlocks(f)
    ensures MarksSoundly(f, head, arg, raise, limit, bad, bad')
  {
    var s;
    ghost var calls;
    found, s, calls := FindFanoutDecrefCandidates(f, head, arg, raise, limit, bad);
    bad', decrefs := s.bad, s.decrefs;
    if !found {
      return false, bad', decrefs;
    }
    if decrefs == {} {
      return false, bad', decrefs;
    }
    if raise {
      if s.raises == {} {
        return false, bad', decrefs;
      }
      found := VerifyFanoutBackward(f, head, decrefs + s.raises, raise);
    } else {
      assert s.decrefs + s.raises == decrefs;
      found := VerifyFanoutBackward(f, head, decrefs, raise);
    }
  }
}
