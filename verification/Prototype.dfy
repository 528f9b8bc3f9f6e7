/** The Python prototype of the fan-out search: one pointer, no limits, and a backward walk
    with its own visited set per tail. */
module Prototype {
  import opened ControlFlow
  import opened FanoutSearch
  import Ir

  datatype Action = Incref | Decref

  datatype Fanout = NoFanout | Fanout(decrefBlocks: set<BlockId>)

  type Nodes = seq<seq<Action>>

  ghost predicate ValidInput(nodes: Nodes, edges: Cfg) {
    ValidCfg(edges) && |nodes| == |edges|
  }

  function DecrefNodes(nodes: Nodes): set<BlockId> {
    set b: BlockId | b < |nodes| && Decref in nodes[b]
  }

  /** The decref nodes first met on the walks leaving the head. */
  ghost function FirstHits(nodes: Nodes, edges: Cfg, head: BlockId): set<BlockId> {
    set b | b in DecrefNodes(nodes) && Touched(edges, head, DecrefNodes(nodes), b)
  }

  /** The decref-free region of the head avoids the head and has no dead end. */
  ghost predicate RegionOk(nodes: Nodes, edges: Cfg, head: BlockId) {
    Clean(edges, head, DecrefNodes(nodes), DecrefNodes(nodes))
  }

  /** What find_fanout returns. */
  ghost function Expected(nodes: Nodes, edges: Cfg, head: BlockId): Fanout {
    var hits := FirstHits(nodes, edges, head);
    if RegionOk(nodes, edges, head) && hits != {} && BackwardOk(edges, head, hits, hits, {})
    then Fanout(hits) else NoFanout
  }

  // ----- forward search

  ghost predicate DistinctPath(path: Walk) {
    forall i, j :: 0 <= i < j < |path| ==> path[i] != path[j]
  }

  /** A path without repetition is no longer than the graph has nodes. */
  lemma {:induction false} DistinctIsShort(path: Walk, n: nat)
    requires DistinctPath(path) && forall i :: 0 <= i < |path| ==> path[i] < n
    ensures |path| <= n
  {
    DistinctSize(path);
    BoundedSize(Set(path), n);
  }

  lemma {:induction false} DistinctSize(path: Walk)
    requires DistinctPath(path)
    ensures |Set(path)| == |path|
    decreases |path|
  {
    if path != [] {
      DistinctSize(Init(path));
      assert path == Init(path) + [Last(path)];
      assert Set(path) == Set(Init(path)) + {Last(path)};
      assert Last(path) !in Init(path);
    }
  }

  ghost predicate Explored(nodes: Nodes, edges: Cfg, head: BlockId, decrefs: set<BlockId>, expanded: set<BlockId>) {
    && (forall b :: b in decrefs ==> b in FirstHits(nodes, edges, head) && b != head)
    && (forall b :: b in expanded ==>
          b < |edges| && edges[b] != [] && Open(head, DecrefNodes(nodes), b))
  }

  ghost predicate OnStack(nodes: Nodes, edges: Cfg, head: BlockId, path: Walk) {
    && path != [] && OnPath(edges, head, DecrefNodes(nodes), path)
    && DistinctPath(path) && forall i :: 0 <= i < |path| ==> path[i] < |edges|
  }

  ghost predicate Searching(nodes: Nodes, edges: Cfg, head: BlockId, path: Walk, decrefs: set<BlockId>,
                            expanded: set<BlockId>)
    requires path != []
  {
    && Explored(nodes, edges, head, decrefs, expanded)
    && ClosedUnder(edges, expanded, decrefs + TailSet(path))
  }

  /** The path-stack search.  It ends because the path never repeats a node. */
  method WalkChildForDecref(nodes: Nodes, edges: Cfg, head: BlockId, cur: BlockId, path: Walk,
                            decrefs: set<BlockId>, ghost expanded: set<BlockId>)
    returns (found: bool, more: set<BlockId>, ghost expanded': set<BlockId>)
    requires ValidInput(nodes, edges) && head < |edges| && OnStack(nodes, edges, head, path)
    requires Edge(edges, Last(path), cur)
    requires Searching(nodes, edges, head, path, decrefs, expanded)
    ensures decrefs <= more && expanded <= expanded'
    ensures found ==> Searching(nodes, edges, head, path, more, expanded')
    ensures found ==> cur in expanded' + more + TailSet(path)
    ensures !found ==> !RegionOk(nodes, edges, head)
    decreases |edges| - |path|, 0
  {
    more, expanded' := decrefs, expanded;
    TouchedExtend(edges, head, DecrefNodes(nodes), path, cur);
    if cur in path {
      if cur == path[0] {
        return false, more, expanded';
      }
      OnPathInTail(path, cur);
      return true, more, expanded';
    }
    if Decref in nodes[cur] {
      more := decrefs + {cur};
      assert decrefs + TailSet(path) <= more + TailSet(path);
      return true, more, expanded';
    }
    Push(nodes, edges, head, path, decrefs, expanded, cur);
    found, more, expanded' := WalkChildren(nodes, edges, head, path + [cur], decrefs, expanded);
    if found {
      PathGrows(path, cur);
      assert more + TailSet(path + [cur]) == more + TailSet(path) + {cur};
      expanded' := expanded' + {cur};
    }
  }

  lemma Push(nodes: Nodes, edges: Cfg, head: BlockId, path: Walk, decrefs: set<BlockId>, expanded: set<BlockId>,
             cur: BlockId)
    requires ValidInput(nodes, edges) && head < |edges| && OnStack(nodes, edges, head, path)
    requires OpenWalk(edges, head, DecrefNodes(nodes), path + [cur]) && cur !in path && cur < |edges|
    requires cur != head && cur !in DecrefNodes(nodes)
    requires Searching(nodes, edges, head, path, decrefs, expanded)
    ensures OnStack(nodes, edges, head, path + [cur]) && |path| < |edges|
    ensures Searching(nodes, edges, head, path + [cur], decrefs, expanded)
  {
    PathGrows(path, cur);
    assert decrefs + TailSet(path + [cur]) == decrefs + TailSet(path) + {cur};
    DistinctIsShort(path + [cur], |edges|);
  }

  method WalkChildren(nodes: Nodes, edges: Cfg, head: BlockId, path: Walk, decrefs: set<BlockId>,
                      ghost expanded: set<BlockId>)
    returns (found: bool, more: set<BlockId>, ghost expanded': set<BlockId>)
    requires ValidInput(nodes, edges) && head < |edges| && OnStack(nodes, edges, head, path)
    requires Searching(nodes, edges, head, path, decrefs, expanded)
    ensures decrefs <= more && expanded <= expanded'
    ensures found ==> Searching(nodes, edges, head, path, more, expanded') && edges[Last(path)] != []
    ensures found ==> forall b :: b in edges[Last(path)] ==> b in expanded' + more + TailSet(path)
    ensures !found ==> !RegionOk(nodes, edges, head)
    decreases |edges| - |path|, 1
  {
    found, more, expanded' := false, decrefs, expanded;
    var succs := edges[Last(path)];
    for i := 0 to |succs|
      invariant found <==> i > 0
      invariant decrefs <= more && expanded <= expanded'
      invariant Searching(nodes, edges, head, path, more, expanded')
      invariant forall b :: b in succs[..i] ==> b in expanded' + more + TailSet(path)
    {
      assert succs[..i + 1] == succs[..i] + [succs[i]];
      found, more, expanded' := WalkChildForDecref(nodes, edges, head, succs[i], path, more, expanded');
      if !found {
        return;
      }
    }
    assert succs[..|succs|] == succs;
    if !found && path != [head] {
      assert Touched(edges, head, DecrefNodes(nodes), Last(path));
    }
  }

  lemma {:induction false} ExploredCovers(nodes: Nodes, edges: Cfg, head: BlockId, decrefs: set<BlockId>,
                                          expanded: set<BlockId>, w: Walk)
    requires ValidInput(nodes, edges) && head < |edges| && Explored(nodes, edges, head, decrefs, expanded)
    requires ClosedUnder(edges, expanded, decrefs)
    requires forall b :: b in edges[head] ==> b in expanded + decrefs
    requires OpenWalk(edges, head, DecrefNodes(nodes), w)
    ensures Last(w) in expanded + decrefs
    decreases |w|
  {
    assert Edge(edges, w[|w| - 2], w[|w| - 1]);
    if |w| > 2 {
      WalkSlice(edges, w, 0, |w| - 1);
      assert Open(head, DecrefNodes(nodes), w[|w| - 2]);
      ExploredCovers(nodes, edges, head, decrefs, expanded, Init(w));
    }
  }

  /** The candidates are exactly the first hits, or nothing when the region is not sound. */
  method FindDecrefCandidates(nodes: Nodes, edges: Cfg, head: BlockId) returns (decrefs: set<BlockId>)
    requires ValidInput(nodes, edges) && head < |edges|
    ensures decrefs == if RegionOk(nodes, edges, head) then FirstHits(nodes, edges, head) else {}
  {
    var found, more;
    ghost var expanded: set<BlockId>;
    assert TailSet([head]) == {};
    found, more, expanded := WalkChildren(nodes, edges, head, [head], {}, {});
    if !found {
      return {};
    }
    assert more + TailSet([head]) == more;
    forall b: BlockId | Touched(edges, head, DecrefNodes(nodes), b) ensures b in expanded + more {
      var w :| OpenWalk(edges, head, DecrefNodes(nodes), w) && Last(w) == b;
      ExploredCovers(nodes, edges, head, more, expanded, w);
    }
    return more;
  }

  // ----- backward check

  /** The reverse walk of one tail, with a visited set of its own. */
  method WalkBackFrom(edges: Cfg, head: BlockId, tails: set<BlockId>, tail: BlockId) returns (ok: bool)
    requires ValidCfg(edges) && tail in tails && tail < |edges|
    ensures ok ==> BackwardOk(edges, head, {tail}, tails, {})
    ensures !ok ==> !BackwardOk(edges, head, tails, tails, {})
  {
    var visited: set<BlockId> := {};
    var workstack: Walk := [tail];
    assert BackWalk(edges, head, tails, {}, [tail]);
    while workstack != []
      invariant WalkingBack(edges, head, tails, {}, tail, visited, workstack)
      decreases |edges| - |visited|, |workstack|
    {
      var cur := workstack[|workstack| - 1];
      assert workstack == workstack[..|workstack| - 1] + [cur];
      assert cur in workstack;
      workstack := workstack[..|workstack| - 1];
      if cur in visited {
        PopSkips(edges, head, tails, {}, tail, visited, workstack, cur);
        continue;
      }
      assert BackReach(edges, head, tails, {}, cur);
      if cur == ENTRY {
        return false;
      }
      assert forall b :: b in workstack ==> b in workstack + [cur];
      var pushed, work := PushPreds(edges, head, tails, {}, cur, workstack);
      if !pushed {
        return false;
      }
      PopVisits(edges, head, tails, {}, tail, visited, workstack, cur, work);
      MoreVisited(|edges|, visited, cur);
      visited, workstack := visited + {cur}, work;
    }
    assert Set([]) == {};
    BackwardAnswers(edges, head, {tail}, tails, {}, visited);
    return true;
  }

  /** No decref block can be reached from the entry or from a decref block without crossing
      the head. */
  method VerifyNonOverlapping(edges: Cfg, head: BlockId, decrefBlocks: set<BlockId>) returns (ok: bool)
    requires ValidCfg(edges) && forall b :: b in decrefBlocks ==> b < |edges|
    ensures ok <==> BackwardOk(edges, head, decrefBlocks, decrefBlocks, {})
  {
    var todo := decrefBlocks;
    while todo != {}
      invariant todo <= decrefBlocks
      invariant forall t :: t in decrefBlocks - todo ==> BackwardOk(edges, head, {t}, decrefBlocks, {})
      decreases todo
    {
      var tail :| tail in todo;
      todo := todo - {tail};
      ok := WalkBackFrom(edges, head, decrefBlocks, tail);
      if !ok {
        return false;
      }
    }
    forall b | BackReach(edges, head, decrefBlocks, {}, b) ensures b != ENTRY && !HasPredIn(edges, decrefBlocks, b) {
      var w :| BackWalk(edges, head, decrefBlocks, {}, w) && w[0] == b;
      assert BackWalk(edges, head, {Last(w)}, {}, w);
      assert BackReach(edges, head, {Last(w)}, {}, b);
      assert Last(w) in decrefBlocks - todo;
    }
    return true;
  }

  // ----- the whole prototype

  method FindFanout(nodes: Nodes, edges: Cfg, head: BlockId) returns (r: Fanout)
    requires ValidInput(nodes, edges) && head < |edges|
    ensures r == Expected(nodes, edges, head)
  {
    var decrefBlocks := FindDecrefCandidates(nodes, edges, head);
    if decrefBlocks == {} {
      return NoFanout;
    }
    var ok := VerifyNonOverlapping(edges, head, decrefBlocks);
    if !ok {
      return NoFanout;
    }
    return Fanout(decrefBlocks);
  }

  method FindFanoutInFunction(nodes: Nodes, edges: Cfg) returns (got: map<BlockId, Fanout>)
    requires ValidInput(nodes, edges)
    ensures forall b: BlockId :: b in got <==> b < |nodes| && Incref in nodes[b]
    ensures forall b :: b in got ==> got[b] == Expected(nodes, edges, b)
  {
    got := map[];
    for b := 0 to |edges|
      invariant forall k: BlockId :: k in got <==> k < b && Incref in nodes[k]
      invariant forall k :: k in got ==> got[k] == Expected(nodes, edges, k)
    {
      if Incref in nodes[b] {
        var r := FindFanout(nodes, edges, b);
        got := got[b := r];
      }
    }
  }

  // ----- the optimiser's search refines the prototype's

  /** The function has refops on one value only, and the prototype's input marks its decrefs. */
  ghost predicate Pictures(f: Ir.Func, nodes: Nodes, arg: Ir.Arg) {
    && |nodes| == |f.blocks| && DecrefNodes(nodes) == Ir.DecBlocks(f)
    && Ir.RelatedBlocks(f, arg) == Ir.DecBlocks(f)
  }

  lemma SameCondition(f: Ir.Func, nodes: Nodes, head: BlockId, arg: Ir.Arg)
    requires f.Valid() && Pictures(f, nodes, arg)
    ensures ForwardHolds(f, head, arg, false) <==> RegionOk(nodes, f.succ, head)
    ensures FirstDecrefs(f, head, arg, false) == FirstHits(nodes, f.succ, head)
    ensures FanoutHolds(f, head, arg, false)
            <==> Expected(nodes, f.succ, head) == Fanout(FirstDecrefs(f, head, arg, false))
  {
    assert Stops(f, false) == DecrefNodes(nodes);
    assert Accepted(f, arg, false) == DecrefNodes(nodes);
    var d := FirstDecrefs(f, head, arg, false);
    assert FirstRaises(f, head, false) == {};
    assert d + {} == d;
  }

  /** Running both searches: the bounded search returns what the prototype does, except that
      it finds nothing where one of its limits applies. */
  method BothSearches(f: Ir.Func, nodes: Nodes, head: BlockId, arg: Ir.Arg, limit: nat)
    returns (fast: Fanout, simple: Fanout)
    requires f.Valid() && head < |f.succ| && Pictures(f, nodes, arg)
    ensures fast == if LimitHit(f, head, false, limit) then NoFanout else simple
  {
    SameCondition(f, nodes, head, arg);
    var found, bad, decrefs;
    found, bad, decrefs := FanoutSearch.FindFanout(f, head, arg, false, limit, {});
    fast := if found then Fanout(decrefs) else NoFanout;
    simple := FindFanout(nodes, f.succ, head);
  }
}
