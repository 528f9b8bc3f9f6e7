/** The per-block subpass on one block: refops on null go, and every incref is matched with
    a decref of the same value. */
module PerBlockPrune {
  import opened Ir
  import opened Erasure
  import opened Safety

  datatype Slot = Gone | Live(call: Instr)

  /** Nothing is left for the subpass to do. */
  ghost predicate Settled(s: Block) {
    && (forall x :: x in s ==> !IsNullOp(x))
    && (forall x, y :: x in s && y in s && IsInc(x) ==> !IsRelatedDec(x.op.arg, y))
  }

  ghost predicate OnlyRefOps(s: Block, erased: set<Instr>) {
    forall x :: x in erased ==> x in s && IsRefOp(x)
  }

  ghost predicate SameNet(s: Block, t: Block) {
    forall c :: Net(t, c) == Net(s, c)
  }

  /** The list follows the block's order. */
  ghost predicate InOrder(s: Block, list: seq<Instr>) {
    forall i, j :: 0 <= i < j < |list| ==> Precedes(s, list[i], list[j])
  }

  lemma NextInOrder(s: Block, i: nat, list: seq<Instr>)
    requires Distinct(s) && i < |s| && InOrder(s, list)
    ensures (forall x :: x in list ==> x in s[..i]) ==> InOrder(s, list + [s[i]])
  {
    IndexIsFirst(s, s[i], i);
    forall x | x in s[..i] ensures Precedes(s, x, s[i]) {
      var k :| 0 <= k < i && s[..i][k] == x;
      IndexIsFirst(s, x, k);
    }
  }

  /** Of each value the first increfs and the last decrefs are not erased. */
  ghost predicate OuterStay(s: Block, erased: set<Instr>) {
    forall x, y :: Precedes(s, x, y) && y.op == x.op ==>
      (IsInc(x) && x in erased ==> y in erased) && (IsDec(x) && y in erased ==> x in erased)
  }

  /** What makes the matching choose those. */
  ghost predicate Choosing(s: Block, erased: set<Instr>, waiting: seq<Instr>, slots: seq<Slot>) {
    && InOrder(s, waiting) && OuterStay(s, erased)
    && (forall j, k :: 0 <= j < k < |slots| && slots[j].Live? && slots[k].Live? ==>
          Precedes(s, slots[j].call, slots[k].call))
  }

  lemma ChoosingAtStart(s: Block, nulls: set<Instr>, increfs: seq<Instr>, decrefs: seq<Instr>, slots: seq<Slot>)
    requires InOrder(s, increfs) && InOrder(s, decrefs) && |slots| == |decrefs|
    requires forall x :: x in nulls <==> x in s && IsNullOp(x)
    requires forall k :: 0 <= k < |slots| ==> slots[k] == Live(decrefs[k])
    ensures Choosing(s, nulls, increfs, slots)
  {
  }

  /** The matched incref is the last one left of its value, and its partner the first decref. */
  lemma ChosenRound(s: Block, erased: set<Instr>, waiting: seq<Instr>, slots: seq<Slot>, i: nat, x: Instr)
    requires Choosing(s, erased, waiting + [x], slots) && x in s && IsInc(x)
    requires Tracks(s, erased, slots) && Unmatched(s, erased, waiting + [x])
    requires i < |slots| && slots[i].Live? && IsRelatedDec(x.op.arg, slots[i].call)
    requires forall k :: 0 <= k < i && slots[k].Live? ==> !IsRelatedDec(x.op.arg, slots[k].call)
    ensures Choosing(s, erased + {x, slots[i].call}, waiting, slots[i := Gone])
  {
    var d := slots[i].call;
    forall k | 0 <= k < |waiting| ensures Precedes(s, waiting[k], x) {
      assert Precedes(s, (waiting + [x])[k], (waiting + [x])[|waiting|]);
    }
    forall y | Precedes(s, x, y) && y.op == x.op ensures y in erased {
      assert y in waiting ==> Precedes(s, y, x);
    }
    assert forall k :: 0 <= k < |slots| && slots[k].Live? && slots[k].call.op == d.op ==>
        slots[k] == Live(d) || Precedes(s, d, slots[k].call);
    forall y | Precedes(s, y, d) && y.op == d.op ensures y in erased {
      assert y !in erased ==> Live(y) in slots;
    }
    StillInOrder(s, waiting, x);
  }

  lemma StillInOrder(s: Block, waiting: seq<Instr>, x: Instr)
    requires InOrder(s, waiting + [x])
    ensures InOrder(s, waiting)
  {
    var all := waiting + [x];
    forall i, j | 0 <= i < j < |waiting| ensures Precedes(s, waiting[i], waiting[j]) {
      assert Precedes(s, all[i], all[j]);
    }
  }

  method Scan(s: Block) returns (increfs: seq<Instr>, decrefs: seq<Instr>, nulls: seq<Instr>)
    requires Distinct(s)
    ensures forall x :: x in nulls <==> x in s && IsNullOp(x)
    ensures forall x :: x in increfs <==> x in s && IsInc(x) && !IsNullOp(x)
    ensures forall x :: x in decrefs <==> x in s && IsDec(x) && !IsNullOp(x)
    ensures Distinct(increfs) && Distinct(decrefs) && Distinct(nulls)
    ensures InOrder(s, increfs) && InOrder(s, decrefs)
  {
    increfs, decrefs, nulls := [], [], [];
    for i := 0 to |s|
      invariant forall x :: x in nulls <==> x in s[..i] && IsNullOp(x)
      invariant forall x :: x in increfs <==> x in s[..i] && IsInc(x) && !IsNullOp(x)
      invariant forall x :: x in decrefs <==> x in s[..i] && IsDec(x) && !IsNullOp(x)
      invariant Distinct(increfs) && Distinct(decrefs) && Distinct(nulls)
      invariant InOrder(s, increfs) && InOrder(s, decrefs)
    {
      var ci := s[i];
      assert s[..i + 1] == s[..i] + [ci];
      assert ci !in s[..i];
      NextInOrder(s, i, increfs);
      NextInOrder(s, i, decrefs);
      if IsNullOp(ci) {
        nulls := nulls + [ci];
      } else if IsInc(ci) {
        increfs := increfs + [ci];
      } else if IsDec(ci) {
        decrefs := decrefs + [ci];
      }
    }
    assert s[..|s|] == s;
  }

  lemma EraseNull(s: Block, erased: set<Instr>, x: Instr)
    requires Distinct(s) && x in s && x !in erased && IsNullOp(x)
    requires SameNet(s, Without(s, erased))
    ensures x in Without(s, erased) && Erase(Without(s, erased), x) == Without(s, erased + {x})
    ensures SameNet(s, Without(s, erased + {x}))
  {
    WithoutOneMore(s, erased, x);
    forall c ensures Net(Without(s, erased + {x}), c) == Net(s, c) {
      assert Net(Without(s, erased), c) == Net(s, c);
      EraseNet(Without(s, erased), x, c);
    }
  }

  /** Erasing an incref and a decref of the same value leaves every object's balance. */
  lemma ErasePair(s: Block, erased: set<Instr>, x: Instr, y: Instr)
    requires Distinct(s) && x in s && y in s && x !in erased && y !in erased
    requires IsInc(x) && IsRelatedDec(x.op.arg, y)
    requires SameNet(s, Without(s, erased))
    ensures x in Without(s, erased) && y in Erase(Without(s, erased), x)
    ensures Erase(Erase(Without(s, erased), x), y) == Without(s, erased + {x, y})
    ensures SameNet(s, Without(s, erased + {x, y}))
  {
    WithoutOneMore(s, erased, x);
    WithoutOneMore(s, erased + {x}, y);
    assert erased + {x} + {y} == erased + {x, y};
    forall c ensures Net(Without(s, erased + {x, y}), c) == Net(s, c) {
      assert Net(Without(s, erased), c) == Net(s, c);
      EraseNet(Without(s, erased), x, c);
      EraseNet(Without(s, erased + {x}), y, c);
    }
  }

  method DropNulls(s: Block, nulls: seq<Instr>) returns (t: Block, pruned: nat, ghost erased: set<Instr>)
    requires Distinct(s) && Distinct(nulls)
    requires forall x :: x in nulls <==> x in s && IsNullOp(x)
    ensures forall x :: x in erased <==> x in s && IsNullOp(x)
    ensures t == Without(s, erased) && pruned == |erased| && SameNet(s, t)
  {
    t, pruned, erased := s, 0, {};
    WithoutIsAll(s);
    for i := 0 to |nulls|
      invariant forall x :: x in erased <==> x in nulls[..i]
      invariant t == Without(s, erased) && pruned == |erased| && SameNet(s, t)
    {
      assert nulls[..i + 1] == nulls[..i] + [nulls[i]];
      EraseNull(s, erased, nulls[i]);
      t := Erase(t, nulls[i]);
      erased := erased + {nulls[i]};
      pruned := pruned + 1;
    }
    assert nulls[..|nulls|] == nulls;
  }

  /** The first live decref related to `incref`, if there is one. */
  method FindRelated(incref: Instr, decrefs: seq<Slot>) returns (i: nat)
    requires IsInc(incref)
    ensures i <= |decrefs|
    ensures i < |decrefs| ==> decrefs[i].Live? && IsRelatedDec(incref.op.arg, decrefs[i].call)
    ensures forall k :: 0 <= k < i && decrefs[k].Live? ==> !IsRelatedDec(incref.op.arg, decrefs[k].call)
  {
    i := 0;
    while i < |decrefs|
      invariant i <= |decrefs|
      invariant forall k :: 0 <= k < i && decrefs[k].Live? ==> !IsRelatedDec(incref.op.arg, decrefs[k].call)
    {
      if decrefs[i].Live? && IsRelatedDec(incref.op.arg, decrefs[i].call) {
        return;
      }
      i := i + 1;
    }
  }

  /** `decrefs` holds exactly the decrefs of `s` that are not erased yet. */
  ghost predicate Tracks(s: Block, erased: set<Instr>, decrefs: seq<Slot>) {
    && (forall k :: 0 <= k < |decrefs| && decrefs[k].Live? ==>
          decrefs[k].call in s && IsDec(decrefs[k].call) && decrefs[k].call !in erased)
    && (forall y :: y in s && IsDec(y) && y !in erased ==> Live(y) in decrefs)
    && (forall j, k :: 0 <= j < k < |decrefs| && decrefs[j].Live? ==> decrefs[j] != decrefs[k])
  }

  /** An incref that is no longer waiting to be matched has no live partner. */
  ghost predicate Unmatched(s: Block, erased: set<Instr>, waiting: seq<Instr>) {
    forall x, y :: x in s && y in s && x !in erased && y !in erased && IsInc(x) && x !in waiting
                   ==> !IsRelatedDec(x.op.arg, y)
  }

  ghost predicate HasPair(s: Block) {
    exists x, y :: x in s && y in s && IsInc(x) && IsRelatedDec(x.op.arg, y)
  }

  /** State between two rounds of matching. */
  ghost predicate Matching(s: Block, nulls: set<Instr>, erased: set<Instr>, waiting: seq<Instr>, slots: seq<Slot>,
                           t: Block)
  {
    && Distinct(waiting)
    && (forall x :: x in waiting ==> x in s && IsInc(x) && x !in erased)
    && Tracks(s, erased, slots) && Unmatched(s, erased, waiting)
    && OnlyRefOps(s, erased) && nulls <= erased
    && t == Without(s, erased) && SameNet(s, t)
    && (erased == nulls || HasPair(s))
  }

  method MatchPairs(s: Block, ghost nulls: set<Instr>, increfs: seq<Instr>, decrefs: seq<Instr>, t0: Block,
                    pruned0: nat)
    returns (t: Block, pruned: nat, ghost erased: set<Instr>)
    requires Distinct(s) && Distinct(increfs) && Distinct(decrefs)
    requires forall x :: x in nulls <==> x in s && IsNullOp(x)
    requires forall x :: x in increfs <==> x in s && IsInc(x) && !IsNullOp(x)
    requires forall x :: x in decrefs <==> x in s && IsDec(x) && !IsNullOp(x)
    requires t0 == Without(s, nulls) && pruned0 == |nulls| && SameNet(s, t0)
    requires InOrder(s, increfs) && InOrder(s, decrefs)
    ensures OnlyRefOps(s, erased) && nulls <= erased
    ensures t == Without(s, erased) && pruned == |erased| && SameNet(s, t)
    ensures Unmatched(s, erased, [])
    ensures erased == nulls || HasPair(s)
    ensures OuterStay(s, erased)
  {
    t, pruned, erased := t0, pruned0, nulls;
    var waiting := increfs;
    var slots: seq<Slot> := seq(|decrefs|, k requires 0 <= k < |decrefs| => Live(decrefs[k]));
    TracksAtStart(s, nulls, decrefs, slots);
    ChoosingAtStart(s, nulls, increfs, decrefs, slots);
    while |waiting| > 0
      invariant Matching(s, nulls, erased, waiting, slots, t) && pruned == |erased|
      invariant Choosing(s, erased, waiting, slots)
      decreases |waiting|
    {
      var incref := waiting[|waiting| - 1];
      var i := FindRelated(incref, slots);
      DropLast(waiting);
      assert waiting == waiting[..|waiting| - 1] + [incref];
      waiting := waiting[..|waiting| - 1];
      if i < |slots| {
        var decref := slots[i].call;
        ChosenRound(s, erased, waiting, slots, i, incref);
        MatchedRound(s, nulls, erased, waiting, slots, t, i, incref);
        t := Erase(Erase(t, incref), decref);
        erased := erased + {incref, decref};
        slots := slots[i := Gone];
        pruned := pruned + 2;
      } else {
        NoPartner(s, erased, slots, incref);
        StillInOrder(s, waiting, incref);
      }
    }
  }

  lemma DropLast(s: Block)
    requires s != [] && Distinct(s)
    ensures Distinct(s[..|s| - 1]) && s[|s| - 1] !in s[..|s| - 1]
    ensures forall x :: x in s <==> x == s[|s| - 1] || x in s[..|s| - 1]
  {
    assert s == s[..|s| - 1] + [s[|s| - 1]];
  }

  lemma TracksAtStart(s: Block, nulls: set<Instr>, decrefs: seq<Instr>, slots: seq<Slot>)
    requires Distinct(decrefs) && |slots| == |decrefs|
    requires forall x :: x in nulls <==> x in s && IsNullOp(x)
    requires forall x :: x in decrefs <==> x in s && IsDec(x) && !IsNullOp(x)
    requires forall k :: 0 <= k < |slots| ==> slots[k] == Live(decrefs[k])
    ensures Tracks(s, nulls, slots)
  {
    forall y | y in s && IsDec(y) && y !in nulls ensures Live(y) in slots {
      var k :| 0 <= k < |decrefs| && decrefs[k] == y;
      assert slots[k] == Live(y);
    }
  }

  lemma PopWaiting(waiting: seq<Instr>, x: Instr)
    requires Distinct(waiting + [x])
    ensures Distinct(waiting) && x !in waiting
    ensures forall z :: z in waiting + [x] <==> z in waiting || z == x
  {
    DropLast(waiting + [x]);
    assert (waiting + [x])[..|waiting|] == waiting;
  }

  /** One incref and its partner leave the block together. */
  lemma MatchedRound(s: Block, nulls: set<Instr>, erased: set<Instr>, waiting: seq<Instr>, slots: seq<Slot>,
                     t: Block, i: nat, x: Instr)
    requires Distinct(s) && Matching(s, nulls, erased, waiting + [x], slots, t)
    requires i < |slots| && slots[i].Live? && IsInc(x) && IsRelatedDec(x.op.arg, slots[i].call)
    ensures x in t && slots[i].call in Erase(t, x)
    ensures Matching(s, nulls, erased + {x, slots[i].call}, waiting, slots[i := Gone],
                     Erase(Erase(t, x), slots[i].call))
    ensures |erased + {x, slots[i].call}| == |erased| + 2
  {
    var y := slots[i].call;
    PopWaiting(waiting, x);
    assert x in waiting + [x];
    ErasePair(s, erased, x, y);
    TrackErased(s, erased, slots, i, x);
    StillUnmatched(s, erased, waiting, x, y);
    assert erased + {x, y} == (erased + {x}) + {y};
  }

  lemma StillUnmatched(s: Block, erased: set<Instr>, waiting: seq<Instr>, x: Instr, y: Instr)
    requires Unmatched(s, erased, waiting + [x])
    requires forall z :: z in waiting + [x] <==> z in waiting || z == x
    ensures Unmatched(s, erased + {x, y}, waiting)
  {
  }

  lemma TrackErased(s: Block, erased: set<Instr>, slots: seq<Slot>, i: nat, x: Instr)
    requires Tracks(s, erased, slots) && i < |slots| && slots[i].Live? && IsInc(x)
    ensures Tracks(s, erased + {x, slots[i].call}, slots[i := Gone])
  {
    var slots' := slots[i := Gone];
    var d := slots[i].call;
    forall y | y in s && IsDec(y) && y !in erased + {x, d} ensures Live(y) in slots' {
      var k :| 0 <= k < |slots| && slots[k] == Live(y);
      assert slots'[k] == Live(y);
    }
  }

  lemma NoPartner(s: Block, erased: set<Instr>, slots: seq<Slot>, x: Instr)
    requires Tracks(s, erased, slots) && IsInc(x)
    requires forall k :: 0 <= k < |slots| && slots[k].Live? ==> !IsRelatedDec(x.op.arg, slots[k].call)
    ensures forall y :: y in s && y !in erased ==> !IsRelatedDec(x.op.arg, y)
  {
    forall y | y in s && y !in erased ensures !IsRelatedDec(x.op.arg, y) {
      if IsDec(y) {
        assert Live(y) in slots;
      }
    }
  }

  lemma OuterPositions(s: Block)
    requires Distinct(s)
    ensures forall i, j :: 0 <= i < j < |s| ==> Precedes(s, s[i], s[j])
  {
    forall i, j | 0 <= i < j < |s| ensures Precedes(s, s[i], s[j]) {
      IndexIsFirst(s, s[i], i);
      IndexIsFirst(s, s[j], j);
    }
  }

  /** `KeepsOuter` speaks of positions: of the refops of one value the first increfs and the
      last decrefs remain. */
  ghost predicate KeepsOuter(s: Block, t: Block) {
    forall i, j :: 0 <= i < j < |s| && s[j].op == s[i].op ==>
      (IsInc(s[i]) && s[j] in t ==> s[i] in t) && (IsDec(s[i]) && s[i] in t ==> s[j] in t)
  }

  /** The subpass on one block. */
  method PruneBlock(s: Block) returns (t: Block, pruned: nat, ghost erased: set<Instr>)
    requires Distinct(s)
    ensures OnlyRefOps(s, erased) && t == Without(s, erased) && pruned == |erased|
    ensures Settled(t) && SameNet(s, t)
    ensures pruned == 0 <==> Settled(s)
    ensures forall i, j :: 0 <= i < j < |s| && IsInc(s[i]) && s[j].op == s[i].op && s[j] in t ==> s[i] in t
    ensures forall i, j :: 0 <= i < j < |s| && IsDec(s[i]) && s[j].op == s[i].op && s[i] in t ==> s[j] in t
  {
    var increfs, decrefs, nulls := Scan(s);
    ghost var nullSet;
    t, pruned, nullSet := DropNulls(s, nulls);
    t, pruned, erased := MatchPairs(s, nullSet, increfs, decrefs, t, pruned);
    WithoutMembers(s, erased);
    OuterPositions(s);
    assert Settled(t);
    if Settled(s) {
      assert erased == {};
    }
    if pruned == 0 {
      assert erased == {};
      WithoutIsAll(s);
    }
  }

  // ----- what that means

  lemma {:induction false} WithoutCounts(s: Block, erased: set<Instr>)
    requires Distinct(s) && OnlyRefOps(s, erased)
    ensures RefOps(Without(s, erased)) == RefOps(s) - |erased|
    decreases |s|
  {
    if s == [] {
      assert erased == {};
    } else {
      var t, y := s[..|s| - 1], s[|s| - 1];
      assert s == t + [y];
      WithoutIrrelevant(t, erased, erased - {y});
      WithoutCounts(t, erased - {y});
      var t' := Without(t, erased);
      assert y !in erased ==> Without(s, erased)[..|t'|] == t';
      assert y in erased ==> Without(s, erased) == t' && |erased - {y}| == |erased| - 1;
      assert y !in erased ==> erased - {y} == erased;
    }
  }

  /** On a block in normal form the subpass keeps the low point of every object's count,
      not only its balance. */
  lemma PrunedBlockIsSafe(s: Block, t: Block, erased: set<Instr>)
    requires Distinct(s) && Normal(s) && OnlyRefOps(s, erased) && t == Without(s, erased)
    requires SameNet(s, t)
    ensures BlockSafe(s, t) && BlockShape(s, t) && RefOps(t) == RefOps(s) - |erased|
    ensures forall c :: Low(t, c) == Low(s, c)
  {
    WithoutShape(s, erased);
    WithoutCounts(s, erased);
    forall c ensures Net(t, c) == Net(s, c) && Low(t, c) == Low(s, c) {
      assert Net(t, c) == Net(s, c);
      NormalLow(s, c);
      NormalLow(t, c);
    }
  }

  function CountOps(s: Block, op: Op): nat {
    if s == [] then 0 else CountOps(s[..|s| - 1], op) + if s[|s| - 1].op == op then 1 else 0
  }

  lemma {:induction false} NetOfValue(s: Block, v: nat)
    ensures Net(s, iset{v}) == CountOps(s, Inc(Val(v))) - CountOps(s, Dec(Val(v)))
    decreases |s|
  {
    if s != [] {
      NetOfValue(s[..|s| - 1], v);
    }
  }

  lemma {:induction false} CountedIsPresent(s: Block, op: Op)
    ensures CountOps(s, op) > 0 <==> exists x :: x in s && x.op == op
    decreases |s|
  {
    if s != [] {
      var t, y := s[..|s| - 1], s[|s| - 1];
      assert s == t + [y];
      CountedIsPresent(t, op);
    }
  }

  /** The subpass cancels as much as it can: for every value, exactly the surplus of increfs
      over decrefs, or of decrefs over increfs, remains. */
  lemma SurplusRemains(s: Block, t: Block, v: nat)
    requires Settled(t) && SameNet(s, t)
    ensures CountOps(t, Inc(Val(v))) == Surplus(CountOps(s, Inc(Val(v))), CountOps(s, Dec(Val(v))))
    ensures CountOps(t, Dec(Val(v))) == Surplus(CountOps(s, Dec(Val(v))), CountOps(s, Inc(Val(v))))
  {
    assert Net(t, iset{v}) == Net(s, iset{v});
    NetOfValue(s, v);
    NetOfValue(t, v);
    CountedIsPresent(t, Inc(Val(v)));
    CountedIsPresent(t, Dec(Val(v)));
  }

  function Surplus(a: nat, b: nat): nat { if a > b then a - b else 0 }

  lemma {:induction false} WithoutCountsLess(s: Block, m: set<Instr>, op: Op)
    ensures CountOps(Without(s, m), op) <= CountOps(s, op)
    decreases |s|
  {
    if s != [] {
      var t, y := s[..|s| - 1], s[|s| - 1];
      WithoutCountsLess(t, m, op);
      assert y !in m ==> Without(s, m)[..|Without(t, m)|] == Without(t, m);
      assert y in m ==> Without(s, m) == Without(t, m);
    }
  }

  /** The blocks hold of no value more increfs or decrefs than its surplus in `bs`. */
  ghost predicate WithinSurplus(bs: seq<Block>, cs: seq<Block>) {
    && |cs| == |bs|
    && forall b, v: nat :: 0 <= b < |bs| ==>
         && CountOps(cs[b], Inc(Val(v))) <= Surplus(CountOps(bs[b], Inc(Val(v))), CountOps(bs[b], Dec(Val(v))))
         && CountOps(cs[b], Dec(Val(v))) <= Surplus(CountOps(bs[b], Dec(Val(v))), CountOps(bs[b], Inc(Val(v))))
  }

  /** Erasing after the subpass has run stays within the surplus of the start. */
  lemma ErasingStaysWithin(bs: seq<Block>, cs: seq<Block>, ds: seq<Block>)
    requires WithinSurplus(bs, cs) && OnlyErases(cs, ds)
    ensures WithinSurplus(bs, ds)
  {
    forall b, v: nat | 0 <= b < |bs|
      ensures CountOps(ds[b], Inc(Val(v))) <= CountOps(cs[b], Inc(Val(v)))
      ensures CountOps(ds[b], Dec(Val(v))) <= CountOps(cs[b], Dec(Val(v)))
    {
      assert Remains(cs[b], ds[b]);
      var m :| ds[b] == Without(cs[b], m) && AreRefOps(m);
      WithoutCountsLess(cs[b], m, Inc(Val(v)));
      WithoutCountsLess(cs[b], m, Dec(Val(v)));
    }
  }
}
