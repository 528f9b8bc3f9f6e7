/** Erasing instructions by identity, as eraseFromParent and moveBefore do. */
module Erasure {
  import opened Ir

  function IndexOf(s: Block, x: Instr): (k: nat)
    requires x in s
    ensures k < |s| && s[k] == x && x !in s[..k]
  {
    if s[0] == x then 0
    else
      assert s == [s[0]] + s[1..];
      var k := IndexOf(s[1..], x);
      assert s[..k + 1] == [s[0]] + s[1..][..k];
      k + 1
  }

  function Erase(s: Block, x: Instr): Block
    requires x in s
  {
    EraseAt(s, IndexOf(s, x))
  }

  /** The instructions of `s` that are not in `m`, in order. */
  function Without(s: Block, m: set<Instr>): Block {
    if s == [] then []
    else Without(s[..|s| - 1], m) + if s[|s| - 1] in m then [] else [s[|s| - 1]]
  }

  /** `x` stands before `y`. */
  ghost predicate Precedes(s: Block, x: Instr, y: Instr) {
    x in s && y in s && IndexOf(s, x) < IndexOf(s, y)
  }

  lemma FirstIsUnique(s: Block, x: Instr, j: nat, k: nat)
    requires j < |s| && k < |s| && s[j] == x && s[k] == x
    requires x !in s[..j] && x !in s[..k]
    ensures j == k
  {
    assert forall i :: 0 <= i < j ==> s[i] in s[..j];
    assert forall i :: 0 <= i < k ==> s[i] in s[..k];
  }

  lemma IndexIsFirst(s: Block, x: Instr, k: nat)
    requires k < |s| && s[k] == x && x !in s[..k]
    ensures IndexOf(s, x) == k
  {
    FirstIsUnique(s, x, IndexOf(s, x), k);
  }

  lemma EraseLeft(a: Block, b: Block, x: Instr)
    requires x in a
    ensures Erase(a + b, x) == Erase(a, x) + b
  {
    var k := IndexOf(a, x);
    assert (a + b)[..k] == a[..k];
    IndexIsFirst(a + b, x, k);
  }

  lemma EraseRight(a: Block, b: Block, x: Instr)
    requires x !in a && x in b
    ensures Erase(a + b, x) == a + Erase(b, x)
  {
    var k := IndexOf(b, x);
    assert (a + b)[..|a| + k] == a + b[..k];
    IndexIsFirst(a + b, x, |a| + k);
  }

  lemma {:induction false} WithoutMembers(s: Block, m: set<Instr>)
    ensures forall x :: x in Without(s, m) <==> x in s && x !in m
    decreases |s|
  {
    if s != [] {
      WithoutMembers(s[..|s| - 1], m);
      assert s == s[..|s| - 1] + [s[|s| - 1]];
    }
  }

  lemma {:induction false} WithoutIsAll(s: Block)
    ensures Without(s, {}) == s
    decreases |s|
  {
    if s != [] {
      WithoutIsAll(s[..|s| - 1]);
    }
  }

  lemma {:induction false} WithoutIrrelevant(s: Block, m: set<Instr>, n: set<Instr>)
    requires forall x :: x in s ==> (x in m <==> x in n)
    ensures Without(s, m) == Without(s, n)
    decreases |s|
  {
    if s != [] {
      assert forall x :: x in s[..|s| - 1] ==> x in s;
      WithoutIrrelevant(s[..|s| - 1], m, n);
    }
  }

  lemma {:induction false} WithoutConcat(a: Block, b: Block, m: set<Instr>)
    ensures Without(a + b, m) == Without(a, m) + Without(b, m)
    decreases |b|
  {
    if b == [] {
      assert a + b == a;
    } else {
      assert (a + b)[..|a + b| - 1] == a + b[..|b| - 1];
      WithoutConcat(a, b[..|b| - 1], m);
    }
  }

  /** Erasing one more instruction of a block without duplicates. */
  lemma {:induction false} WithoutOneMore(s: Block, m: set<Instr>, x: Instr)
    requires Distinct(s) && x in s && x !in m
    ensures x in Without(s, m) && Erase(Without(s, m), x) == Without(s, m + {x})
    decreases |s|
  {
    var t, y := s[..|s| - 1], s[|s| - 1];
    assert s == t + [y];
    WithoutMembers(s, m);
    WithoutMembers(t, m);
    var tail := if y in m then [] else [y];
    if y == x {
      WithoutIrrelevant(t, m, m + {x});
      EraseRight(Without(t, m), [x], x);
      IndexIsFirst([x], x, 0);
      assert Erase([x], x) == [];
    } else {
      WithoutOneMore(t, m, x);
      EraseLeft(Without(t, m), tail, x);
    }
  }

  lemma EraseNet(s: Block, x: Instr, c: AliasClass)
    requires x in s
    ensures Net(Erase(s, x), c) == Net(s, c) - Delta(x, c)
  {
    NetEraseAt(s, IndexOf(s, x), c);
  }

  lemma EraseIsErasedOne(s: Block, x: Instr)
    requires x in s
    ensures ErasedOne(s, Erase(s, x), x.op)
  {
    var k := IndexOf(s, x);
    assert s[k].op == x.op && Erase(s, x) == EraseAt(s, k);
  }

  lemma EraseMembers(s: Block, x: Instr)
    requires x in s
    ensures forall y :: y in Erase(s, x) ==> y in s
    ensures forall y :: y in s && y != x ==> y in Erase(s, x)
    ensures Distinct(s) ==> x !in Erase(s, x)
  {
    var k := IndexOf(s, x);
    assert s == s[..k] + [x] + s[k + 1..];
    if Distinct(s) {
      assert forall i :: k < i < |s| ==> s[i] != x;
    }
  }

  /** Erasing only refops keeps the shape of a block and drops exactly that many refops. */
  lemma {:induction false} WithoutShape(s: Block, m: set<Instr>)
    requires forall x :: x in m ==> IsRefOp(x)
    ensures BlockShape(s, Without(s, m))
    decreases |s|
  {
    WithoutKeepsNonRefOps(s, m);
    WithoutMembers(s, m);
    WithoutKeepsOrder(s, m);
    if HasDec(Without(s, m)) {
      var i :| 0 <= i < |Without(s, m)| && IsDec(Without(s, m)[i]);
      assert Without(s, m)[i] in s;
    }
  }

  lemma {:induction false} WithoutKeepsNonRefOps(s: Block, m: set<Instr>)
    requires forall x :: x in m ==> IsRefOp(x)
    ensures NonRefOps(Without(s, m)) == NonRefOps(s)
    decreases |s|
  {
    if s != [] {
      var t, y := s[..|s| - 1], s[|s| - 1];
      WithoutKeepsNonRefOps(t, m);
      assert y !in m ==> Without(s, m)[..|Without(t, m)|] == Without(t, m);
      assert y in m ==> Without(s, m) == Without(t, m);
    }
  }

  lemma {:induction false} WithoutKeepsOrder(s: Block, m: set<Instr>)
    ensures Normal(s) ==> Normal(Without(s, m))
    ensures Distinct(s) ==> Distinct(Without(s, m))
    decreases |s|
  {
    if s != [] {
      var t, y := s[..|s| - 1], s[|s| - 1];
      var t' := Without(t, m);
      WithoutKeepsOrder(t, m);
      WithoutMembers(t, m);
      forall i | 0 <= i < |t'| && Normal(s) && IsDec(t'[i]) ensures !IsInc(y) {
        assert t'[i] in t;
      }
      forall i | 0 <= i < |t'| && Distinct(s) ensures t'[i] != y {
        assert t'[i] in t;
      }
    }
  }

  // ----- order

  lemma PrecedesAt(s: Block, i: nat, j: nat)
    requires Distinct(s) && i < j < |s|
    ensures Precedes(s, s[i], s[j])
  {
    IndexIsFirst(s, s[i], i);
    IndexIsFirst(s, s[j], j);
  }

  lemma PrecedesInConcat(a: Block, b: Block, x: Instr, y: Instr)
    requires Distinct(a + b)
    requires Precedes(a, x, y) || Precedes(b, x, y) || (x in a && y in b)
    ensures Precedes(a + b, x, y)
  {
    if Precedes(a, x, y) {
      PrecedesAt(a + b, IndexOf(a, x), IndexOf(a, y));
    } else if Precedes(b, x, y) {
      PrecedesAt(a + b, |a| + IndexOf(b, x), |a| + IndexOf(b, y));
    } else {
      PrecedesAt(a + b, IndexOf(a, x), |a| + IndexOf(b, y));
    }
  }

  /** What is left keeps its order. */
  lemma {:induction false} WithoutKeepsPrecedes(s: Block, m: set<Instr>, x: Instr, y: Instr)
    requires Distinct(s) && Precedes(s, x, y) && x !in m && y !in m
    ensures Precedes(Without(s, m), x, y)
    decreases |s|
  {
    var t, z := s[..|s| - 1], s[|s| - 1];
    var t' := Without(t, m);
    WithoutMembers(t, m);
    WithoutKeepsOrder(s, m);
    assert s == t + [z];
    if y == z {
      assert IndexOf(s, x) < |t| && t[IndexOf(s, x)] == x;
      PrecedesInConcat(t', [z], x, y);
    } else {
      assert t[IndexOf(s, x)] == x && t[IndexOf(s, y)] == y;
      PrecedesAt(t, IndexOf(s, x), IndexOf(s, y));
      WithoutKeepsPrecedes(t, m, x, y);
      PrecedesInConcat(t', if z in m then [] else [z], x, y);
    }
  }

  // ----- passes that only erase

  ghost predicate AreRefOps(m: set<Instr>) { forall x :: x in m ==> IsRefOp(x) }

  /** `t` is `s` without some of its refops; everything else keeps its order. */
  ghost predicate Remains(s: Block, t: Block) {
    exists m :: t == Without(s, m) && AreRefOps(m)
  }

  ghost predicate OnlyErases(bs: seq<Block>, cs: seq<Block>) {
    |cs| == |bs| && forall b {:trigger Remains(bs[b], cs[b])} :: 0 <= b < |bs| ==> Remains(bs[b], cs[b])
  }

  lemma RemainsRefl(s: Block)
    ensures Remains(s, s)
  {
    WithoutIsAll(s);
  }

  lemma OnlyErasesRefl(bs: seq<Block>)
    ensures OnlyErases(bs, bs)
  {
    forall b | 0 <= b < |bs| ensures Remains(bs[b], bs[b]) {
      RemainsRefl(bs[b]);
    }
  }

  lemma {:induction false} WithoutTwice(s: Block, m: set<Instr>, n: set<Instr>)
    ensures Without(Without(s, m), n) == Without(s, m + n)
    decreases |s|
  {
    if s != [] {
      var t, y := s[..|s| - 1], s[|s| - 1];
      WithoutTwice(t, m, n);
      assert y !in m ==> Without(s, m)[..|Without(t, m)|] == Without(t, m);
      assert y in m ==> Without(s, m) == Without(t, m);
    }
  }

  lemma OnlyErasesTrans(bs: seq<Block>, cs: seq<Block>, ds: seq<Block>)
    requires OnlyErases(bs, cs) && OnlyErases(cs, ds)
    ensures OnlyErases(bs, ds)
  {
    forall b | 0 <= b < |bs| ensures Remains(bs[b], ds[b]) {
      assert Remains(bs[b], cs[b]) && Remains(cs[b], ds[b]);
      var m :| cs[b] == Without(bs[b], m) && AreRefOps(m);
      var n :| ds[b] == Without(cs[b], n) && AreRefOps(n);
      WithoutTwice(bs[b], m, n);
      assert ds[b] == Without(bs[b], m + n);
    }
  }

  lemma EraseRemains(s: Block, x: Instr)
    requires Distinct(s) && x in s && IsRefOp(x)
    ensures Remains(s, Erase(s, x))
  {
    WithoutIsAll(s);
    WithoutOneMore(s, {}, x);
    assert Erase(s, x) == Without(s, {} + {x});
  }

  lemma EraseAtRemains(s: Block, k: nat)
    requires Distinct(s) && k < |s| && IsRefOp(s[k])
    ensures Remains(s, EraseAt(s, k)) && IndexOf(s, s[k]) == k
  {
    IndexIsFirst(s, s[k], k);
    EraseRemains(s, s[k]);
  }
}
