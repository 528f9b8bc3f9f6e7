/** The pass that moves decrefs behind the increfs of their block. */
module RefNormalize {
  import opened ControlFlow
  import opened Ir
  import opened Erasure
  import opened Safety

  function Decs(s: Block): Block {
    if s == [] then [] else Decs(s[..|s| - 1]) + if IsDec(s[|s| - 1]) then [s[|s| - 1]] else []
  }

  function NonDecs(s: Block): Block {
    if s == [] then [] else NonDecs(s[..|s| - 1]) + if IsDec(s[|s| - 1]) then [] else [s[|s| - 1]]
  }

  /** A block with an incref keeps its order except that its decrefs close it. */
  function NormalizeBlock(s: Block): Block {
    if HasInc(s) then NonDecs(s) + Decs(s) else s
  }

  function Normalized(f: Func): Func {
    Func(seq(|f.blocks|, b requires 0 <= b < |f.blocks| => NormalizeBlock(f.blocks[b])), f.succ)
  }

  predicate Mixed(s: Block) { HasInc(s) && HasDec(s) }

  ghost predicate AnyMixed(bs: seq<Block>) { exists b :: 0 <= b < |bs| && Mixed(bs[b]) }

  // ----- the pass

  method CollectDecrefs(s: Block) returns (toBeMoved: Block)
    ensures toBeMoved == Decs(s)
  {
    toBeMoved := [];
    for i := 0 to |s|
      invariant toBeMoved == Decs(s[..i])
    {
      assert s[..i + 1][..i] == s[..i];
      if IsDec(s[i]) {
        toBeMoved := toBeMoved + [s[i]];
      }
    }
    assert s[..|s|] == s;
  }

  /** Collects the decrefs of one block and moves each to the end, before the terminator. */
  method SinkDecrefs(s: Block) returns (t: Block, moved: bool)
    requires Distinct(s)
    ensures t == NonDecs(s) + Decs(s)
    ensures moved <==> HasDec(s)
  {
    var toBeMoved := CollectDecrefs(s);
    DecsMembers(s);
    t := s;
    moved := false;
    ghost var done: set<Instr> := {};
    WithoutIsAll(s);
    for i := 0 to |toBeMoved|
      invariant forall x :: x in done <==> x in toBeMoved[..i]
      invariant t == Without(s, done) + toBeMoved[..i]
      invariant moved <==> i > 0
    {
      var x := toBeMoved[i];
      assert toBeMoved[..i + 1] == toBeMoved[..i] + [x];
      t := MoveToEnd(s, done, toBeMoved[..i], x, t);
      done := done + {x};
      moved := true;
    }
    assert toBeMoved[..|toBeMoved|] == toBeMoved;
    NonDecsIsWithout(s, done);
  }

  method MoveToEnd(ghost s: Block, ghost done: set<Instr>, ghost m: Block, x: Instr, t: Block) returns (r: Block)
    requires Distinct(s) && x in s && x !in done
    requires t == Without(s, done) + m
    ensures r == Without(s, done + {x}) + (m + [x])
  {
    WithoutOneMore(s, done, x);
    EraseLeft(Without(s, done), m, x);
    r := Erase(t, x) + [x];
  }

  method RunOnFunction(fn: Function) returns (mutated: bool)
    requires fn.Body().Valid()
    modifies fn
    ensures fn.Body() == Normalized(old(fn.Body()))
    ensures mutated <==> AnyMixed(old(fn.blocks))
    ensures !mutated ==> fn.blocks == old(fn.blocks)
    ensures |fn.blocks| == old(|fn.blocks|)
    ensures forall b :: 0 <= b < |fn.blocks| && !HasInc(old(fn.blocks)[b]) ==> fn.blocks[b] == old(fn.blocks)[b]
    ensures forall b :: 0 <= b < |fn.blocks| && !HasDec(old(fn.blocks)[b]) ==> fn.blocks[b] == old(fn.blocks)[b]
  {
    mutated := false;
    ghost var bs := fn.blocks;
    for b := 0 to |fn.blocks|
      invariant NormalizedUpTo(bs, fn.blocks, b) && (mutated <==> MixedUpTo(bs, b))
    {
      if HasInc(fn.blocks[b]) {
        var t, moved := SinkDecrefs(fn.blocks[b]);
        fn.blocks := fn.blocks[b := t];
        mutated := mutated || moved;
      }
    }
    MixedExactly(bs, |bs|);
    NormalizedIsDone(old(fn.Body()), fn.Body());
  }

  ghost predicate NormalizedUpTo(bs: seq<Block>, cs: seq<Block>, n: nat) {
    && |cs| == |bs| && n <= |bs|
    && (forall k :: 0 <= k < n ==> cs[k] == NormalizeBlock(bs[k]))
    && (forall k :: n <= k < |bs| ==> cs[k] == bs[k] && Distinct(bs[k]))
  }

  ghost predicate MixedUpTo(bs: seq<Block>, n: nat) {
    0 < n <= |bs| && (Mixed(bs[n - 1]) || MixedUpTo(bs, n - 1))
  }

  lemma {:induction false} MixedExactly(bs: seq<Block>, n: nat)
    requires n <= |bs|
    ensures MixedUpTo(bs, n) <==> exists b :: 0 <= b < n && Mixed(bs[b])
    decreases n
  {
    if n > 0 {
      MixedExactly(bs, n - 1);
    }
  }

  lemma NormalizedIsDone(f: Func, g: Func)
    requires g.succ == f.succ && NormalizedUpTo(f.blocks, g.blocks, |f.blocks|)
    ensures g == Normalized(f)
    ensures forall b :: 0 <= b < |f.blocks| && !Mixed(f.blocks[b]) ==> g.blocks[b] == f.blocks[b]
    ensures !AnyMixed(f.blocks) ==> g.blocks == f.blocks
  {
    assert g.blocks == Normalized(f).blocks;
    forall b | 0 <= b < |f.blocks| && !Mixed(f.blocks[b]) ensures g.blocks[b] == f.blocks[b] {
      if !HasDec(f.blocks[b]) {
        SplitPure(f.blocks[b], []);
      }
    }
  }

  // ----- its properties

  lemma {:induction false} DecsMembers(s: Block)
    ensures forall x :: x in Decs(s) <==> x in s && IsDec(x)
    ensures Distinct(s) ==> Distinct(Decs(s))
    ensures Decs(s) == [] <==> !HasDec(s)
    decreases |s|
  {
    if s != [] {
      var t, y := s[..|s| - 1], s[|s| - 1];
      DecsMembers(t);
      assert s == t + [y];
      if Distinct(s) && IsDec(y) {
        forall i | 0 <= i < |Decs(t)| ensures Decs(t)[i] != y {
          assert Decs(t)[i] in t;
        }
      }
      assert HasDec(t) ==> HasDec(s) by {
        assert forall i :: 0 <= i < |t| ==> s[i] == t[i];
      }
    }
  }

  lemma {:induction false} NonDecsIsWithout(s: Block, m: set<Instr>)
    requires forall x :: x in s ==> (x in m <==> IsDec(x))
    ensures Without(s, m) == NonDecs(s)
    decreases |s|
  {
    if s != [] {
      assert forall x :: x in s[..|s| - 1] ==> x in s;
      NonDecsIsWithout(s[..|s| - 1], m);
    }
  }

  /** Splitting a block into its decrefs and the rest loses nothing. */
  lemma {:induction false} PartitionCounts(s: Block, c: AliasClass)
    ensures Net(NonDecs(s), c) + Net(Decs(s), c) == Net(s, c)
    decreases |s|
  {
    if s != [] {
      var t, y := s[..|s| - 1], s[|s| - 1];
      PartitionCounts(t, c);
      NetSnoc(NonDecs(t), y, c);
      NetSnoc(Decs(t), y, c);
      assert IsDec(y) ==> NonDecs(s) == NonDecs(t) && Decs(s) == Decs(t) + [y];
      assert !IsDec(y) ==> NonDecs(s) == NonDecs(t) + [y] && Decs(s) == Decs(t);
    }
  }

  lemma NetSnoc(s: Block, x: Instr, c: AliasClass)
    ensures Net(s + [x], c) == Net(s, c) + Delta(x, c)
  {
    assert (s + [x])[..|s|] == s;
  }

  lemma {:induction false} PartitionContents(s: Block)
    ensures multiset(NonDecs(s)) + multiset(Decs(s)) == multiset(s)
    decreases |s|
  {
    if s != [] {
      var t, y := s[..|s| - 1], s[|s| - 1];
      PartitionContents(t);
      assert s == t + [y];
    }
  }

  lemma {:induction false} PartitionKinds(s: Block)
    ensures !HasDec(NonDecs(s)) && (forall i :: 0 <= i < |Decs(s)| ==> IsDec(Decs(s)[i]))
    decreases |s|
  {
    if s != [] {
      PartitionKinds(s[..|s| - 1]);
    }
  }

  lemma {:induction false} PartitionNonRefOps(s: Block)
    ensures NonRefOps(NonDecs(s)) == NonRefOps(s) && NonRefOps(Decs(s)) == []
    decreases |s|
  {
    if s != [] {
      var t, y := s[..|s| - 1], s[|s| - 1];
      PartitionNonRefOps(t);
      if IsDec(y) {
        assert NonDecs(s) == NonDecs(t) && Decs(s)[..|Decs(t)|] == Decs(t);
      } else {
        assert NonDecs(s)[..|NonDecs(t)|] == NonDecs(t) && Decs(s) == Decs(t);
      }
    }
  }

  /** Normalizing permutes the block, puts increfs first, and for every object keeps the
      change of the count and never dips lower than the original order did. */
  lemma NormalizeBlockProps(s: Block)
    ensures Normal(NormalizeBlock(s)) && BlockSafe(s, NormalizeBlock(s))
    ensures multiset(NormalizeBlock(s)) == multiset(s)
    ensures BlockShape(s, NormalizeBlock(s))
  {
    if HasInc(s) {
      SunkIsSafe(s);
      SunkIsPermuted(s);
    }
    PermutedShape(s, NormalizeBlock(s));
  }

  lemma SunkIsPermuted(s: Block)
    ensures multiset(NonDecs(s) + Decs(s)) == multiset(s)
    ensures NonRefOps(NonDecs(s) + Decs(s)) == NonRefOps(s)
  {
    PartitionContents(s);
    PartitionNonRefOps(s);
    RefOpsConcat(NonDecs(s), Decs(s));
  }

  lemma SunkIsSafe(s: Block)
    ensures Normal(NonDecs(s) + Decs(s)) && BlockSafe(s, NonDecs(s) + Decs(s))
  {
    var t := NonDecs(s) + Decs(s);
    NormalPartition(s);
    forall c ensures Net(t, c) == Net(s, c) && Low(t, c) >= Low(s, c) {
      PartitionCounts(s, c);
      NetConcat(NonDecs(s), Decs(s), c);
      NormalLow(t, c);
      LowIsLow(s, c);
    }
  }

  lemma NormalPartition(s: Block)
    ensures Normal(NonDecs(s) + Decs(s))
  {
    PartitionKinds(s);
    NormalConcat(NonDecs(s), Decs(s));
  }

  lemma NormalConcat(n: Block, d: Block)
    requires !HasDec(n) && forall i :: 0 <= i < |d| ==> IsDec(d[i])
    ensures Normal(n + d)
  {
    assert forall i :: 0 <= i < |n| ==> (n + d)[i] == n[i] && !IsDec(n[i]);
    assert forall j :: |n| <= j < |n + d| ==> (n + d)[j] == d[j - |n|];
  }

  lemma PermutedShape(s: Block, t: Block)
    requires multiset(s) == multiset(t)
    ensures forall x :: x in t ==> x in s
    ensures HasDec(t) ==> HasDec(s)
    ensures Distinct(s) ==> Distinct(t)
  {
    forall x | x in t ensures x in s {
      assert x in multiset(t);
    }
    if HasDec(t) {
      var i :| 0 <= i < |t| && IsDec(t[i]);
      assert t[i] in s;
    }
    if Distinct(s) {
      forall x ensures multiset(t)[x] <= 1 {
        DistinctOnce(s, x);
      }
      OnceDistinct(t);
    }
  }

  lemma {:induction false} DistinctOnce(s: Block, x: Instr)
    requires Distinct(s)
    ensures multiset(s)[x] <= 1
    decreases |s|
  {
    if s != [] {
      var t, y := s[..|s| - 1], s[|s| - 1];
      assert s == t + [y];
      DistinctOnce(t, x);
      if y == x {
        assert x !in t;
      }
    }
  }

  lemma OnceDistinct(t: Block)
    requires forall x :: multiset(t)[x] <= 1
    ensures Distinct(t)
  {
    forall i, j | 0 <= i < j < |t| ensures t[i] != t[j] {
      assert t == t[..i] + [t[i]] + t[i + 1..j] + [t[j]] + t[j + 1..];
      assert multiset(t)[t[j]] <= 1;
    }
  }

  lemma NormalizeBlockIdempotent(s: Block)
    ensures NormalizeBlock(NormalizeBlock(s)) == NormalizeBlock(s)
  {
    var n, d := NonDecs(s), Decs(s);
    PartitionKinds(s);
    SplitConcat(n, d);
    SplitPure(n, d);
    assert NonDecs(n + d) == n && Decs(n + d) == d;
  }

  lemma {:induction false} SplitConcat(a: Block, b: Block)
    ensures Decs(a + b) == Decs(a) + Decs(b) && NonDecs(a + b) == NonDecs(a) + NonDecs(b)
    decreases |b|
  {
    if b == [] {
      assert a + b == a;
    } else {
      assert (a + b)[..|a + b| - 1] == a + b[..|b| - 1];
      SplitConcat(a, b[..|b| - 1]);
    }
  }

  lemma {:induction false} SplitPure(n: Block, d: Block)
    requires !HasDec(n) && forall i :: 0 <= i < |d| ==> IsDec(d[i])
    ensures Decs(n) == [] && NonDecs(n) == n && Decs(d) == d && NonDecs(d) == []
    decreases |n| + |d|
  {
    if n != [] {
      assert !IsDec(n[|n| - 1]);
      SplitPure(n[..|n| - 1], d);
    } else if d != [] {
      SplitPure(n, d[..|d| - 1]);
    }
  }

  lemma {:induction false} DecsIsWithout(s: Block, m: set<Instr>)
    requires forall x :: x in s ==> (x in m <==> !IsDec(x))
    ensures Without(s, m) == Decs(s)
    decreases |s|
  {
    if s != [] {
      assert forall x :: x in s[..|s| - 1] ==> x in s;
      DecsIsWithout(s[..|s| - 1], m);
    }
  }

  /** Normalizing is stable: decrefs keep their order among themselves, and so do all other
      instructions; every decref of a block with an incref comes after those. */
  lemma NormalizeIsStable(s: Block, x: Instr, y: Instr)
    requires Distinct(s) && x in s && y in s
    requires if IsDec(x) == IsDec(y) then Precedes(s, x, y) else HasInc(s) && IsDec(y)
    ensures Precedes(NormalizeBlock(s), x, y)
  {
    if HasInc(s) {
      var others, decs := set z | z in s && !IsDec(z), set z | z in s && IsDec(z);
      NonDecsIsWithout(s, decs);
      DecsIsWithout(s, others);
      WithoutMembers(s, decs);
      WithoutMembers(s, others);
      NormalizeBlockProps(s);
      if IsDec(x) == IsDec(y) {
        WithoutKeepsPrecedes(s, if IsDec(x) then others else decs, x, y);
      }
      PrecedesInConcat(NonDecs(s), Decs(s), x, y);
    }
  }

  /** The whole pass: every block ends in normal form, and no walk loses count. */
  lemma NormalizeIsSafe(f: Func)
    requires f.Valid()
    ensures AllNormal(Normalized(f)) && Safe(f, Normalized(f), true)
    ensures Normalized(Normalized(f)) == Normalized(f)
  {
    var g := Normalized(f);
    forall b | 0 <= b < |f.blocks|
      ensures Normal(g.blocks[b]) && BlockSafe(f.blocks[b], g.blocks[b])
      ensures BlockShape(f.blocks[b], g.blocks[b]) && Distinct(g.blocks[b])
      ensures NormalizeBlock(g.blocks[b]) == g.blocks[b]
    {
      NormalizeBlockProps(f.blocks[b]);
      NormalizeBlockIdempotent(f.blocks[b]);
    }
    BlockwiseSafe(f, g);
  }
}
