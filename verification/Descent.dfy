/** The way from the root down to the leaf where a key belongs, and what the chain of leaves holds. */
module Descents {
  import opened Keys
  import opened Shape
  import opened Rebalance
  import opened Context
  import opened Layout

  /** `std::upper_bound`: the first key above `k`. */
  method UpperBound(ks: seq<Key>, k: Key) returns (i: nat)
    requires forall a, b :: 0 <= a < b < |ks| ==> Less(ks[a], ks[b])
    ensures IsUpperBound(ks, k, i)
  {
    var len := |ks|;
    i := 0;
    while len > 0
      invariant 0 <= len && i + len <= |ks|
      invariant forall j :: 0 <= j < i ==> !Less(k, ks[j])
      invariant forall j :: i + len <= j < |ks| ==> Less(k, ks[j])
    {
      var half := len / 2;
      if Less(k, ks[i + half]) {
        AllAbove(ks, k, i + half);
        len := half;
      } else {
        AllBelow(ks, k, i + half);
        i := i + half + 1;
        len := len - half - 1;
      }
    }
  }

  lemma AllAbove(ks: seq<Key>, k: Key, m: nat)
    requires m < |ks| && Less(k, ks[m])
    requires forall a, b :: 0 <= a < b < |ks| ==> Less(ks[a], ks[b])
    ensures forall j :: m <= j < |ks| ==> Less(k, ks[j])
  {
    hide Less, Num;
    LessIsNum(k, ks[m]);
    forall j | m < j < |ks|
      ensures Less(k, ks[j])
    {
      LessIsNum(ks[m], ks[j]);
      LessIsNum(k, ks[j]);
    }
  }

  lemma AllBelow(ks: seq<Key>, k: Key, m: nat)
    requires m < |ks| && !Less(k, ks[m])
    requires forall a, b :: 0 <= a < b < |ks| ==> Less(ks[a], ks[b])
    ensures forall j :: 0 <= j <= m ==> !Less(k, ks[j])
  {
    hide Less, Num;
    LessIsNum(k, ks[m]);
    forall j | 0 <= j < m
      ensures !Less(k, ks[j])
    {
      LessIsNum(ks[j], ks[m]);
      LessIsNum(k, ks[j]);
    }
  }

  lemma SortedIsLess(ks: seq<Key>, lo: real, hi: real)
    requires Sorted(ks, lo, hi)
    ensures forall a, b :: 0 <= a < b < |ks| ==> Less(ks[a], ks[b])
  {
    hide Less, Num, NulFree;
    forall a, b | 0 <= a < b < |ks|
      ensures Less(ks[a], ks[b])
    {
      LessIsNum(ks[a], ks[b]);
    }
  }

  /** An upper bound splits the keys by their fractions. */
  lemma UpperBoundNum(ks: seq<Key>, k: Key, i: nat)
    requires IsUpperBound(ks, k, i)
    ensures i > 0 ==> Num(ks[i - 1]) <= Num(k)
    ensures i < |ks| ==> Num(k) < Num(ks[i])
  {
    hide Less, Num;
    if i > 0 {
      LessIsNum(k, ks[i - 1]);
    }
    if i < |ks| {
      LessIsNum(k, ks[i]);
    }
  }

  /** The search for `key` has come down to `x`, which stands in the hole of `c`. */
  ghost predicate Descent(c: Ctx, x: Tree, h: nat, key: Key)
    requires WellFormed(c)
    reads CtxRefs(c)`key, CtxRefs(c)`child, CtxRefs(c)`data, CtxRefs(c)`parent, Refs(x)`key, Refs(x)`child,
      Refs(x)`data, Refs(x)`parent
  {
    && OkCtx(c, h) && FitsHole(c, x, h)
    && Rep(x, CtxNode(c)) && RepCtx(c, x.node)
    && LoAt(c) <= Num(key) < HiAt(c)
  }

  lemma NodeOfDescent(c: Ctx, x: Tree, h: nat, key: Key)
    requires WellFormed(c) && Descent(c, x, h, key)
    ensures x.node.key == x.keys && (forall a, b :: 0 <= a < b < |x.keys| ==> Less(x.keys[a], x.keys[b]))
    ensures x.Leaf? <==> h == 0
    ensures x.Leaf? ==> x.node.data == x.data && |x.data| == |x.keys| && x.node.child == Nulls(|x.keys| + 1)
    ensures x.Inner? ==> x.node.child == NodesOf(x.kids) && |x.kids| == |x.keys| + 1
  {
    hide Less, Num, NulFree, Bag, BagOf, RepCtx, OkCtx;
    SortedIsLess(x.keys, LoAt(c), HiAt(c));
  }

  /** One step down. */
  lemma DescendKid(c: Ctx, x: Tree, h: nat, key: Key, i: nat)
    requires WellFormed(c) && Descent(c, x, h, key) && x.Inner? && IsUpperBound(x.keys, key, i)
    ensures h > 0 && i < |x.kids| && |x.kids| == |x.keys| + 1
    ensures WellFormed(Frame(c, x, i)) && Descent(Frame(c, x, i), x.kids[i], h - 1, key)
    ensures Plug(Frame(c, x, i), x.kids[i]) == Plug(c, x)
  {
    hide Less, Num, NulFree, Sorted, Bag, BagOf, Rep, RepCtx, RepAround, IsUpperBound;
    assert i <= |x.keys| by { UpperBoundLength(x.keys, key, i); }
    UpperBoundNum(x.keys, key, i);
    TakeOut(x, i, CtxNode(c));
    assert SetKid(x, i, x.kids[i]) == x;
    var d := Frame(c, x, i);
    assert Struct(x.kids[i], h - 1, LoAt(d), HiAt(d));
    assert RepCtx(d, x.kids[i].node) by { MakeRepCtx(c, x, i); }
  }

  lemma UpperBoundLength(ks: seq<Key>, k: Key, i: nat)
    requires IsUpperBound(ks, k, i)
    ensures i <= |ks|
  {
  }

  lemma MakeRepCtx(c: Ctx, x: Tree, i: nat)
    requires WellFormed(c) && RepCtx(c, x.node) && x.Inner? && i < |x.kids| && |x.kids| == |x.keys| + 1
    requires RepAround(x, i, i + 1, CtxNode(c))
    ensures RepCtx(Frame(c, x, i), x.kids[i].node)
  {
    hide RepAround, Bag, BagOf;
  }

  /** A laid out tree, with one child taken out. */
  lemma TakeOut(x: Tree, i: nat, par: BNode?)
    requires x.Inner? && i < |x.kids| && Rep(x, par)
    ensures RepAround(x, i, i + 1, par) && Rep(x.kids[i], x.node)
  {
    hide Bag, BagOf;
    assert Bodies(x.kids) && Parents(x.kids, x.node);
  }

  // ----- what the leaves hold -----

  /** The entries in these leaf nodes, in order. */
  ghost function Held(ls: seq<BNode>): seq<Entry>
    reads (set n | n in ls)`key, (set n | n in ls)`data
  {
    if ls == [] then [] else Entries(Leaf(ls[0], ls[0].key, ls[0].data)) + Held(ls[1..])
  }

  ghost predicate LeafNodes(ls: seq<BNode>)
    reads (set n | n in ls)`key, (set n | n in ls)`data
  {
    forall n | n in ls :: n.isLeaf && |n.key| == |n.data|
  }

  lemma {:induction false} HeldConcat(a: seq<BNode>, b: seq<BNode>)
    ensures Held(a + b) == Held(a) + Held(b)
  {
    hide Entries;
    if a == [] {
      assert a + b == b;
    } else {
      assert (a + b)[1..] == a[1..] + b;
      HeldConcat(a[1..], b);
    }
  }

  lemma {:induction false} LeavesHold(t: Tree)
    requires Body(t)
    ensures Held(Leaves(t)) == Entries(t)
    decreases t, 0
  {
    hide Bag, BagOf;
    if t.Leaf? {
      assert [t.node][1..] == [];
    } else {
      assert Bodies(t.kids);
      LeavesOfHold(t.kids);
    }
  }

  lemma {:induction false} LeavesOfHold(ts: seq<Tree>)
    requires Bodies(ts)
    ensures Held(LeavesOf(ts)) == EntriesOf(ts)
    decreases ts
  {
    hide Bag, BagOf, Body, Leaves, Entries, Held;
    if ts != [] {
      LeavesHold(ts[0]);
      LeavesOfHold(ts[1..]);
      HeldConcat(Leaves(ts[0]), LeavesOf(ts[1..]));
    } else {
      HeldNothing();
    }
  }

  lemma HeldNothing()
    ensures Held([]) == []
  {
  }

  lemma {:induction false} AroundHolds(c: Ctx, hole: BNode)
    requires WellFormed(c) && RepCtx(c, hole)
    ensures Held(LeavesBefore(c)) == EntriesBefore(c) && Held(LeavesAfter(c)) == EntriesAfter(c)
    decreases c
  {
    hide Bag, BagOf, Body, LeavesOf, EntriesOf, Held;
    if c.Frame? {
      AroundHolds(c.up, c.t.node);
      LeavesOfHold(c.t.kids[..c.i]);
      LeavesOfHold(c.t.kids[c.i + 1..]);
      HeldConcat(LeavesBefore(c.up), LeavesOf(c.t.kids[..c.i]));
      HeldConcat(LeavesOf(c.t.kids[c.i + 1..]), LeavesAfter(c.up));
    } else {
      HeldNothing();
    }
  }

  lemma {:induction false} LeavesAreLeaves(t: Tree, h: nat, lo: real, hi: real)
    requires Body(t) && Struct(t, h, lo, hi)
    ensures LeafNodes(Leaves(t)) && Leaves(t) != []
    decreases t
  {
    hide Bag, BagOf, Num, NulFree, Sorted;
    if t.Inner? {
      assert Bodies(t.kids);
      forall i | 0 <= i < |t.kids|
        ensures LeafNodes(Leaves(t.kids[i])) && Leaves(t.kids[i]) != []
      {
        LeavesAreLeaves(t.kids[i], h - 1, Lo(t.keys, i, lo), Hi(t.keys, i, hi));
      }
      KidsLeafNodes(t.kids);
    }
  }

  lemma {:induction false} KidsLeafNodes(ts: seq<Tree>)
    requires forall i :: 0 <= i < |ts| ==> LeafNodes(Leaves(ts[i])) && Leaves(ts[i]) != []
    ensures LeafNodes(LeavesOf(ts)) && (ts != [] ==> LeavesOf(ts) != [])
    decreases ts
  {
    if ts != [] {
      KidsLeafNodes(ts[1..]);
    }
  }
}
