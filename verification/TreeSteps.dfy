/** What the methods of the tree need to know about the trees, contexts and node sets they work
    with: nothing here depends on the state of a tree object. */
module TreeSteps {
  import opened Keys
  import opened Shape
  import opened Rebalance
  import opened Context
  import opened Repair
  import opened Layout
  import opened LeafMoves
  import opened TreeMoves
  import opened LeafTrees
  import opened Descents
  import opened Relabels

  const MIN_KEYS := (M + 1) / 2 - 1

  /** All that has to be known about a subtree `x` of height `h` that is put into the hole. */
  lemma Installed(c: Ctx, x: Tree, h: nat)
    requires OkCtx(c, h) && FitsHole(c, x, h)
    requires RepCtx(c, x.node) && Rep(x, CtxNode(c))
    ensures var s := Plug(c, x);
            && RootOk(s) && Rep(s, null) && s.node == CtxRoot(c, x.node)
            && Entries(s) == EntriesWith(c, Entries(x)) && Leaves(s) == LeavesWith(c, Leaves(x))
            && Bag(s) == BagAround(c) + Bag(x)
  {
    hide Num, NulFree, Struct, Sized, Rep, Entries, Leaves, Bag, RootOk, FitsHole, OkCtx;
    assert WellFormed(c) by { OkIsWellFormed(c, h); }
    PlugOk(c, x, h);
    PlugRep(c, x);
    PlugEntries(c, x);
    PlugLeaves(c, x);
    PlugBag(c, x);
  }

  lemma OkIsWellFormed(c: Ctx, h: nat)
    requires OkCtx(c, h)
    ensures WellFormed(c)
  {
  }

  lemma ChainOfOne(n: BNode)
    requires n.prev == null && n.next == null
    ensures Chain([n])
  {
    assert [n][1..] == [] && Linked(n, [], null);
  }

  lemma PairedInRange(es: seq<Entry>, ds: seq<int>)
    requires |ds| >= |es| && forall d | d in ds :: 0 <= d < INT_LIMIT
    ensures InRange(Paired(es, ds))
  {
    forall e | e in Paired(es, ds)
      ensures 0 <= e.1 < INT_LIMIT
    {
      var i :| 0 <= i < |es| && Paired(es, ds)[i] == e;
      assert ds[i] in ds;
    }
  }

  lemma BelowWithin(ts: seq<Tree>)
    ensures BelowOf(ts) <= RefsOf(ts)
  {
  }

  lemma NoRefs(ts: seq<Tree>)
    requires ts == []
    ensures RefsOf(ts) == {}
  {
  }

  lemma LeafOrder(c: Ctx, x: Tree, i: nat)
    requires WellFormed(c) && x.Leaf? && FitsHole(c, x, 0) && 0 < i < |x.keys|
    ensures Num(x.keys[i - 1]) < Num(x.keys[i])
  {
    hide Num, NulFree;
  }

  lemma AllRefs(t: Tree, live: set<BNode>)
    requires multiset(live) == Bag(t)
    ensures Refs(t) == live
  {
    assert forall n | n in live :: n in multiset(live);
    assert forall n | n in Bag(t) :: n in multiset(live);
  }

  lemma FirstKid(t: Tree, h: nat, lo: real, hi: real)
    requires Body(t) && Struct(t, h, lo, hi) && t.Inner? && Leaves(t) != []
    ensures h > 0 && |t.kids| > 0 && t.node.child[0] == t.kids[0].node && Body(t.kids[0])
    ensures Struct(t.kids[0], h - 1, lo, Hi(t.keys, 0, hi))
    ensures Leaves(t.kids[0]) != [] && Leaves(t.kids[0])[0] == Leaves(t)[0]
  {
    hide Bag, BagOf, Num, NulFree, Sorted;
    assert Bodies(t.kids);
    LeavesAreLeaves(t.kids[0], h - 1, lo, Hi(t.keys, 0, hi));
  }

  lemma EntryInHole(c: Ctx, x: Tree, i: nat)
    requires WellFormed(c) && x.Leaf? && Lengths(x) && i < |x.keys|
    ensures var es, p := EntriesWith(c, Entries(x)), |EntriesBefore(c)| + i;
            p < |es| && es[p] == (x.keys[i], x.data[i])
  {
    hide EntriesBefore, EntriesAfter;
    assert Entries(x)[i] == (x.keys[i], x.data[i]);
  }

  lemma InsertMiddle<T>(a: seq<T>, b: seq<T>, d: seq<T>, i: nat, x: T)
    requires i <= |b|
    ensures a + InsertAt(b, i, x) + d == InsertAt(a + b + d, |a| + i, x)
  {
    var s := a + b + d;
    assert s[..|a| + i] == a + b[..i] && s[|a| + i..] == b[i..] + d;
  }

  lemma RemoveMiddle<T>(a: seq<T>, b: seq<T>, d: seq<T>, i: nat)
    requires i < |b|
    ensures a + RemoveAt(b, i) + d == RemoveAt(a + b + d, |a| + i)
  {
    var s := a + b + d;
    assert s[..|a| + i] == a + b[..i] && s[|a| + i + 1..] == b[i + 1..] + d;
  }

  lemma InsertInRange(es: seq<Entry>, p: nat, e: Entry)
    requires p <= |es| && InRange(es) && 0 <= e.1 < INT_LIMIT
    ensures InRange(InsertAt(es, p, e))
  {
    assert forall x | x in InsertAt(es, p, e) :: x in es || x == e;
  }

  lemma RemoveInRange(es: seq<Entry>, p: nat)
    requires p < |es| && InRange(es)
    ensures InRange(RemoveAt(es, p))
  {
    assert forall x | x in RemoveAt(es, p) :: x in es;
  }

  lemma InsertedContents(c: Ctx, x: Tree, lf: nat, key: Key, data: int)
    requires WellFormed(c) && x.Leaf? && Lengths(x) && lf <= |x.keys|
    requires InRange(EntriesWith(c, Entries(x))) && 0 <= data < INT_LIMIT
    ensures var es, p := EntriesWith(c, Entries(x)), |EntriesBefore(c)| + lf;
            && p <= |es| && EntriesWith(c, Entries(With(x, lf, key, data))) == InsertAt(es, p, (key, data))
            && |InsertAt(es, p, (key, data))| == |es| + 1
            && InRange(InsertAt(es, p, (key, data)))
  {
    hide Entries, EntriesBefore, EntriesAfter, InsertAt, InRange;
    var es, p := EntriesWith(c, Entries(x)), |EntriesBefore(c)| + lf;
    WithEntries(x, lf, key, data);
    InsertMiddle(EntriesBefore(c), Entries(x), EntriesAfter(c), lf, (key, data));
    InsertAtLength(es, p, (key, data));
    InsertInRange(es, p, (key, data));
  }

  lemma RemovedContents(c: Ctx, x: Tree, lf: nat)
    requires WellFormed(c) && x.Leaf? && Lengths(x) && lf < |x.keys|
    requires InRange(EntriesWith(c, Entries(x)))
    ensures var es, p := EntriesWith(c, Entries(x)), |EntriesBefore(c)| + lf;
            && p < |es| && EntriesWith(c, Entries(Without(x, lf))) == RemoveAt(es, p)
            && |RemoveAt(es, p)| == |es| - 1
            && InRange(RemoveAt(es, p))
  {
    hide Entries, EntriesBefore, EntriesAfter, RemoveAt, InRange;
    var es, p := EntriesWith(c, Entries(x)), |EntriesBefore(c)| + lf;
    WithoutEntries(x, lf);
    RemoveMiddle(EntriesBefore(c), Entries(x), EntriesAfter(c), lf);
    RemoveAtLength(es, p);
    RemoveInRange(es, p);
  }

  lemma WithoutEntries(x: Tree, rm: nat)
    requires x.Leaf? && Lengths(x) && rm < |x.keys|
    ensures Entries(Without(x, rm)) == RemoveAt(Entries(x), rm)
  {
  }

  lemma ModifiedContents(c: Ctx, x: Tree, lf: nat, data: int)
    requires WellFormed(c) && x.Leaf? && Lengths(x) && lf < |x.keys|
    ensures var es, p := EntriesWith(c, Entries(x)), |EntriesBefore(c)| + lf;
            && p < |es|
            && EntriesWith(c, Entries(Leaf(x.node, x.keys, x.data[lf := data]))) == es[p := (x.keys[lf], data)]
            && (InRange(es) && 0 <= data < INT_LIMIT ==> InRange(es[p := (x.keys[lf], data)]))
  {
    hide Entries, EntriesBefore, EntriesAfter, InRange;
    var es, e := EntriesWith(c, Entries(x)), (x.keys[lf], data);
    EntryInHole(c, x, lf);
    ModifiedLeaf(x, lf, data);
    SetMiddle(EntriesBefore(c), Entries(x), EntriesAfter(c), lf, e);
    if InRange(es) && 0 <= data < INT_LIMIT {
      SetInRange(es, |EntriesBefore(c)| + lf, e);
    }
  }

  lemma ModifiedLeaf(x: Tree, lf: nat, data: int)
    requires x.Leaf? && Lengths(x) && lf < |x.keys|
    ensures lf < |Entries(x)|
    ensures Entries(Leaf(x.node, x.keys, x.data[lf := data])) == Entries(x)[lf := (x.keys[lf], data)]
  {
  }

  lemma SetMiddle<T>(a: seq<T>, b: seq<T>, d: seq<T>, i: nat, x: T)
    requires i < |b|
    ensures a + b[i := x] + d == (a + b + d)[|a| + i := x]
  {
  }

  lemma SetInRange(es: seq<Entry>, p: nat, e: Entry)
    requires p < |es| && InRange(es) && 0 <= e.1 < INT_LIMIT
    ensures InRange(es[p := e])
  {
    assert forall f | f in es[p := e] :: f in es || f == e;
  }

  /** Data are offsets: never negative, and small enough for a C++ `int`. */
  const INT_LIMIT := 0x8000_0000

  ghost predicate InRange(es: seq<Entry>) {
    forall e | e in es :: 0 <= e.1 < INT_LIMIT
  }

  lemma DatumInRange(c: Ctx, x: Tree, i: nat)
    requires WellFormed(c) && x.Leaf? && Lengths(x) && i < |x.keys| && InRange(EntriesWith(c, Entries(x)))
    ensures 0 <= x.data[i] < INT_LIMIT
  {
    assert Entries(x)[i] in EntriesWith(c, Entries(x));
  }

  lemma ResepFits(c: Ctx, x: Tree, rm: nat)
    requires WellFormed(c) && OkCtx(c, 0) && c.Frame? && FitsHole(c, x, 0) && x.Leaf? && Lengths(x)
      && |x.keys| > MIN_KEYS && rm < |x.keys|
    ensures var q, d := SetKid(c.t, c.i, Without(x, rm)), Resep(c, Without(x, rm));
            && d.t.Inner? && FitsHole(c.up, d.t, 1) && SameFolds(q, d.t)
            && (rm > 0 || c.i == 0 ==> d.t == q)
  {
    hide Num, NulFree, Struct, Sorted, Bag, BagOf, Entries, Leaves, EntriesWith, LeavesWith, RemoveAt;
    var y := Without(x, rm);
    ResepOk(c, x, rm);
    RemoveAtLength(x.keys, rm);
    ResepFolds(c, y, [], []);
    WithoutStruct(x, rm, LoAt(c), HiAt(c));
    var d := Resep(c, y);
    assert Arity(y) && d.t.kids[d.i] == y;
    assert rm > 0 && c.i > 0 ==> c.t.keys[c.i - 1 := y.keys[0]] == c.t.keys;
  }

  lemma OuterBag(a: multiset<BNode>, b: multiset<BNode>, live: set<BNode>)
    requires multiset(live) == a + b
    ensures b <= multiset(live)
  {
  }

  lemma WithFits(c: Ctx, x: Tree, lf: nat, key: Key, data: int)
    requires WellFormed(c) && FitsHole(c, x, 0) && |x.keys| < M - 1 && SlotFor(x, lf, key, LoAt(c), HiAt(c))
    ensures FitsHole(c, With(x, lf, key, data), 0)
  {
    hide Num, NulFree, Struct, InsertAt;
    SlotPositive(c, x, lf, key);
    WithStruct(x, lf, key, data, LoAt(c), HiAt(c));
    InsertAtLength(x.keys, lf, key);
  }

  lemma InsertAtLength<T>(s: seq<T>, i: nat, x: T)
    requires i <= |s|
    ensures |InsertAt(s, i, x)| == |s| + 1
  {
  }

  lemma ModifiedFits(c: Ctx, x: Tree, y: Tree)
    requires WellFormed(c) && x.Leaf? && y.Leaf? && FitsHole(c, x, 0) && y.keys == x.keys && |y.data| == |x.data|
    ensures FitsHole(c, y, 0)
  {
    hide Num, NulFree, Sorted;
  }

  lemma WithoutFitsTop(c: Ctx, x: Tree, rm: nat)
    requires WellFormed(c) && c.Top? && x.Leaf? && FitsHole(c, x, 0) && rm < |x.keys| == |x.data|
    ensures FitsHole(c, Without(x, rm), 0)
  {
    hide Num, NulFree, Struct, RemoveAt;
    WithoutStruct(x, rm, LoAt(c), HiAt(c));
    RemoveAtLength(x.keys, rm);
  }

  lemma RemoveAtLength<T>(s: seq<T>, i: nat)
    requires i < |s|
    ensures |RemoveAt(s, i)| == |s| - 1
  {
  }

  lemma LeafPairAt(c: Ctx, y: Tree, j: nat)
    requires OkCtx(c, 0) && WellFormed(c) && c.Frame? && y.Leaf? && Lengths(y) && |y.keys| > 0
    requires j + 1 < |c.t.kids| && (j == c.i || j + 1 == c.i)
    ensures PairAt(SetKid(c.t, c.i, y), j) && SetKid(c.t, c.i, y).kids[j].Leaf?
  {
    hide OkCtx;
    LeafSiblings(c);
  }

  lemma TopFolds(c: Ctx, es: seq<Entry>, ls: seq<BNode>)
    requires c.Top?
    ensures EntriesWith(c, es) == es && LeavesWith(c, ls) == ls
  {
  }

  lemma SiblingNulFree(c: Ctx, k: nat)
    requires OkCtx(c, 0) && c.Frame? && k < |c.t.kids|
    ensures NulFreeKeys(c.t.kids[k])
  {
    hide Num, NulFree;
    assert Struct(c.t.kids[k], 0, Lo(c.t.keys, k, LoAt(c.up)), Hi(c.t.keys, k, HiAt(c.up)));
  }

  /** The parent after a borrow from the left fits, although its separator is first out of date. */
  lemma BorrowedPrevFits(c: Ctx, x: Tree, rm: nat)
    requires WellFormed(c) && OkCtx(c, 0) && c.Frame? && FitsHole(c, x, 0) && x.Leaf? && Lengths(x)
      && |x.keys| == 2 && rm < 2
    requires c.i > 0 && MIN_KEYS < |c.t.kids[c.i - 1].keys| < M && PairAt(SetKid(c.t, c.i, Without(x, rm)), c.i - 1)
    ensures var q, j := SetKid(c.t, c.i, Without(x, rm)), c.i - 1;
            var r := SetPair(q, j, ShiftRight(q.kids[j], q.keys[j], q.kids[j + 1]));
            FitsHole(c.up, r, 1) && SameFolds(q, r)
  {
    hide Struct, Bag, BagOf, Entries, Leaves, Num, NulFree, SetPair, FitsHole, OkCtx, PairAt, EntriesWith, LeavesWith;
    var y := Without(x, rm);
    var d := Resep(c, y);
    ResepOk(c, x, rm);
    ResepFolds(c, y, [], []);
    ResepSame(c, y, c.i - 1);
    ShiftedRightFits(d, y, 0, c.i - 1);
  }

  lemma BorrowedNextFits(c: Ctx, x: Tree, rm: nat)
    requires WellFormed(c) && OkCtx(c, 0) && c.Frame? && FitsHole(c, x, 0) && x.Leaf? && Lengths(x)
      && |x.keys| == 2 && rm < 2
    requires c.i + 1 < |c.t.kids| && MIN_KEYS < |c.t.kids[c.i + 1].keys| < M
      && PairAt(SetKid(c.t, c.i, Without(x, rm)), c.i)
    ensures var q, j := SetKid(c.t, c.i, Without(x, rm)), c.i;
            && PairAt(Reseparated(q, j), j)
            && var r := SetPair(Reseparated(q, j), j, ShiftLeft(q.kids[j], q.keys[j], q.kids[j + 1]));
               FitsHole(c.up, r, 1) && SameFolds(q, r)
  {
    hide Struct, Bag, BagOf, Entries, Leaves, Num, NulFree, SetPair, FitsHole, OkCtx, EntriesWith, LeavesWith;
    var y := Without(x, rm);
    var d := Resep(c, y);
    ResepOk(c, x, rm);
    ResepFolds(c, y, [], []);
    ShiftedLeftFits(d, y, 0, c.i);
  }

  /** The parent after a merge of leaves. */
  lemma MergedLeafFits(c: Ctx, x: Tree, rm: nat, j: nat)
    requires WellFormed(c) && OkCtx(c, 0) && c.Frame? && FitsHole(c, x, 0) && x.Leaf? && Lengths(x)
      && |x.keys| == 2 && rm < 2
    requires c.t.kids[c.i].node == x.node
    requires (j + 1 == c.i || j == c.i == 0) && PairAt(SetKid(c.t, c.i, Without(x, rm)), j)
    requires |SetKid(c.t, c.i, Without(x, rm)).kids[j].keys| + |SetKid(c.t, c.i, Without(x, rm)).kids[j + 1].keys| == 3
    ensures var q, y := SetKid(c.t, c.i, Without(x, rm)), Without(x, rm);
            var q' := Merged(q, j);
            && Struct(q', 1, LoAt(c.up), HiAt(c.up)) && RegularKids(q') && |q'.keys| == |c.t.keys| - 1
            && q'.Inner? && q'.node == c.t.node && |q'.kids| == |q'.keys| + 1 && q'.kids[j].node == c.t.kids[j].node
            && EntriesWith(c, Entries(y)) == EntriesWith(c.up, Entries(q'))
            && Bag(q') + multiset{q.kids[j + 1].node} == Bag(q)
  {
    hide Struct, Bag, BagOf, Entries, Leaves, Num, NulFree, JoinKids, FitsHole, OkCtx, EntriesWith, LeavesWith;
    var y := Without(x, rm);
    var d := Resep(c, y);
    ResepOk(c, x, rm);
    ResepFolds(c, y, Entries(y), []);
    if j + 1 == c.i {
      ResepSame(c, y, j);
    }
    MergedFits(d, y, 0, j);
    UpFolds(d, y);
  }

  lemma DistinctMiddle(before: seq<BNode>, a: BNode, b: BNode, after: seq<BNode>)
    requires Distinct(before + [a] + ([b] + after))
    ensures b !in before + [a] + after
  {
    assert before + [a] + ([b] + after) == (before + [a]) + [b] + after;
    DistinctParts(before + [a], b, after);
  }

  /** A new key in a leaf with a left sibling is never the leaf's first: the code relies on it. */
  lemma SlotPositive(c: Ctx, x: Tree, lf: nat, key: Key)
    requires WellFormed(c) && x.Leaf? && FitsHole(c, x, 0) && SlotFor(x, lf, key, LoAt(c), HiAt(c))
    ensures c.Frame? && c.i > 0 ==> lf > 0
  {
    hide Num, NulFree, Struct;
  }

  lemma KidInCtx(c: Ctx, k: nat)
    requires WellFormed(c) && c.Frame? && k < |c.t.kids| && k != c.i
    ensures c.t.kids[k].node in CtxRefs(c)
  {
    hide Bag, BagOf;
    var pre, post := c.t.kids[..c.i], c.t.kids[c.i + 1..];
    if k < c.i {
      assert pre[k] == c.t.kids[k] && pre[k].node in Refs(pre[k]) && Refs(pre[k]) <= RefsOf(pre);
    } else {
      assert post[k - c.i - 1] == c.t.kids[k] && Refs(post[k - c.i - 1]) <= RefsOf(post);
      assert c.t.kids[k].node in Refs(c.t.kids[k]);
    }
  }

  lemma DivideNodes(t: Tree, u: BNode)
    requires |t.keys| == M && Lengths(t)
    ensures Divide(t, u).0.node == t.node && Divide(t, u).2.node == u
  {
  }

  lemma LeafFacts(c: Ctx, x: Tree)
    requires WellFormed(c) && x.Leaf? && FitsHole(c, x, 0)
    ensures Lengths(x) && NulFreeKeys(x) && |x.keys| <= M - 1 && (c.Frame? ==> |x.keys| >= 2)
  {
    hide Num, NulFree;
  }

  lemma LeafBags(x: Tree, y: Tree)
    requires x.Leaf? && y.Leaf? && x.node == y.node
    ensures Bag(x) == Bag(y) && Refs(x) == Refs(y) && Leaves(y) == [x.node]
  {
  }

  lemma AroundInRefs(q: Tree, j: nat)
    requires PairAt(q, j)
    ensures AroundRefs(q, j, j + 2) <= Refs(q)
  {
    hide BagOf;
    PairBag(q, j);
  }

  /** The leaves beside a leaf. */
  lemma LeafSiblings(c: Ctx)
    requires OkCtx(c, 0) && c.Frame?
    ensures forall k :: 0 <= k < |c.t.kids| ==> c.t.kids[k].Leaf? && Lengths(c.t.kids[k])
    ensures forall k :: 0 <= k < |c.t.kids| && k != c.i ==> 2 <= |c.t.kids[k].keys| < M
  {
    hide Num, NulFree, Sorted;
    assert forall k :: 0 <= k < |c.t.kids| ==>
        Struct(c.t.kids[k], 0, Lo(c.t.keys, k, LoAt(c.up)), Hi(c.t.keys, k, HiAt(c.up)));
  }

  lemma LeafHeight(x: Tree, h: nat, lo: real, hi: real)
    requires Struct(x, h, lo, hi)
    ensures x.Leaf? <==> h == 0
  {
    hide Num, NulFree, Sorted;
  }

  lemma HalvedSets(around: multiset<BNode>, b: multiset<BNode>, b0: multiset<BNode>, b1: multiset<BNode>,
      u: BNode, before: set<BNode>)
    requires multiset(before) == around + b && u !in before && b + multiset{u} == b0 + b1
    ensures multiset(before + {u}) == around + (b0 + b1)
    ensures (set n | n in b0) + (set n | n in b1) <= before + {u}
    ensures (set n | n in around) !! (set n | n in b0) + (set n | n in b1)
  {
    assert multiset(before + {u}) == multiset(before) + multiset{u};
    assert around + b + multiset{u} == around + (b + multiset{u});
    SetsApart(around, b0 + b1, before + {u});
    assert (set n | n in b0) + (set n | n in b1) == set n | n in b0 + b1;
  }

  /** Neither half contains the root of the other, or its own root below itself. */
  lemma HalvesApart(a: Tree, b: Tree, live: set<BNode>)
    requires Bag(a) + Bag(b) <= multiset(live)
    ensures a.node !in Below(a) && b.node !in Below(b) && a.node !in Refs(b) && b.node !in Refs(a) && a.node != b.node
  {
    hide Bag;
    OnceOfSet(live);
    OnceSmaller(Bag(a) + Bag(b), multiset(live));
    OnceSplit(Bag(a), Bag(b));
    RootNotBelow(a);
    RootNotBelow(b);
  }

  lemma NewRoot(p: BNode, r: Triple, h: nat, before: set<BNode>)
    requires Siblings(r.0, r.1, r.2, h, 0.0, 1.0) && Arity(r.0) && Arity(r.2)
    requires multiset(before) == Bag(r.0) + Bag(r.2) && p !in before
    ensures var s := Pair(p, r);
            && RootOk(s) && Entries(s) == Entries(r.0) + Entries(r.2) && Leaves(s) == Leaves(r.0) + Leaves(r.2)
            && multiset(before + {p}) == Bag(s) && Refs(s) <= before + {p}
  {
    hide Struct, Siblings;
    var s := Pair(p, r);
    PairStruct(p, r, h, 0.0, 1.0);
    PairFolds(r.0, r.2);
    assert Sized(s, true);
    RootOkFrom(s, h + 1);
    assert multiset(before + {p}) == multiset(before) + multiset{p};
    SetsApart(multiset{}, Bag(s), before + {p});
  }

  lemma KeysNulFree(x: Tree, h: nat, lo: real, hi: real)
    requires Struct(x, h, lo, hi)
    ensures NulFreeKeys(x)
  {
    hide Num, NulFree;
  }

  lemma {:induction false} RootInCtx(c: Ctx, hole: BNode)
    requires WellFormed(c)
    ensures if c.Top? then CtxRoot(c, hole) == hole else CtxRoot(c, hole) in CtxRefs(c)
  {
    if c.Frame? {
      RootInCtx(c.up, c.t.node);
    }
  }

  lemma ReplacedRoot(x: Tree, h: nat)
    requires x.Inner? && |x.keys| == 0 && |x.kids| == 1 && h > 0 && Struct(x, h, 0.0, 1.0) && RegularKids(x)
    ensures Struct(x.kids[0], h - 1, 0.0, 1.0) && Sized(x.kids[0], true)
    ensures Entries(x) == Entries(x.kids[0]) && Leaves(x) == Leaves(x.kids[0])
    ensures Bag(x) == multiset{x.node} + Bag(x.kids[0])
  {
    hide Num, NulFree, Sorted;
    assert x.kids == [x.kids[0]];
    FoldsOne(x.kids[0]);
  }

  lemma OnlyKid(x: Tree, live: set<BNode>)
    requires x.Inner? && |x.kids| == 1 && multiset(live) == Bag(x) == multiset{x.node} + Bag(x.kids[0])
    ensures multiset(live - {x.node}) == Bag(x.kids[0])
    ensures Refs(x.kids[0]) <= live - {x.node}
    ensures x.kids[0].node !in Below(x.kids[0])
  {
    hide Bag;
    assert multiset(live - {x.node}) == multiset(live) - multiset{x.node};
    assert multiset(live - {x.node}) == Bag(x.kids[0]);
    OnceOfSet(live - {x.node});
    RootNotBelow(x.kids[0]);
    SetsApart(multiset{}, Bag(x.kids[0]), live - {x.node});
  }

  lemma OnceOfSet(s: set<BNode>)
    ensures Once(multiset(s))
  {
  }

  lemma RootOkFrom(s: Tree, h: nat)
    requires Struct(s, h, 0.0, 1.0) && Sized(s, true)
    ensures RootOk(s)
  {
    hide Struct, Sized;
  }

  lemma MergedRefs(q: Tree, j: nat, all: set<BNode>)
    requires PairAt(q, j) && Bag(q) <= multiset(all)
    ensures Refs(Merged(q, j)) <= Refs(q) - {q.kids[j + 1].node}
    ensures q.kids[j + 1].node in Refs(q)
  {
    hide Bag, BagOf, JoinKids, Joins, Lengths, RegularKids;
    MergedBag(q, j);
    var b, d := Bag(Merged(q, j)), q.kids[j + 1].node;
    assert d in Bag(q) && forall r | r in b :: r in Bag(q);
    assert b[d] + 1 == Bag(q)[d] <= multiset(all)[d] <= 1;
  }

  lemma MergedNode(q: Tree, j: nat)
    requires PairAt(q, j)
    ensures Merged(q, j).node == q.node
  {
  }

  lemma MergedBag(q: Tree, j: nat)
    requires PairAt(q, j)
    ensures Bag(Merged(q, j)) + multiset{q.kids[j + 1].node} == Bag(q)
  {
    hide Bag, BagOf, JoinKids, Joins;
    MergeContents(q.kids[j], q.keys[j], q.kids[j + 1]);
    JoinKidsContents(q, j, Merge(q.kids[j], q.keys[j], q.kids[j + 1]));
  }

  lemma MergedAbove(up: Ctx, q: Tree, q': Tree, dead: BNode, live: set<BNode>, around: set<BNode>)
    requires WellFormed(up) && multiset(live) == BagAround(up) + Bag(q) && Bag(q') + multiset{dead} == Bag(q)
    requires around <= live && around !! Refs(q)
    ensures multiset(live - {dead}) == BagAround(up) + Bag(q')
    ensures Refs(q') <= live - {dead} && around <= live - {dead} && around !! Refs(q')
  {
    hide Bag, BagAround;
    assert multiset(live) == BagAround(up) + Bag(q') + multiset{dead};
    assert dead in multiset(live);
    assert multiset(live - {dead}) == multiset(live) - multiset{dead};
    SetsApart(BagAround(up), Bag(q'), live - {dead});
    assert forall r | r in Bag(q') :: r in Bag(q);
    assert dead in Bag(q);
  }

  lemma SetsApart<T>(a: multiset<T>, b: multiset<T>, s: set<T>)
    requires multiset(s) == a + b
    ensures (set r | r in b) <= s && (set r | r in a) <= s && (set r | r in a) !! (set r | r in b)
  {
    assert forall r | r in a :: r in multiset(s);
    assert forall r | r in b :: r in multiset(s);
    assert a == multiset(s) - b;
  }

  /** The parent after a rotation to the right across separator `j` can stand where it stood. */
  lemma ShiftedRightFits(c: Ctx, x: Tree, h: nat, j: nat)
    requires OkCtx(c, h) && c.Frame? && WellFormed(c) && Struct(x, h, LoAt(c), HiAt(c)) && RegularKids(x)
    requires h == 0 && c.i > 0 ==> |x.keys| > 0 && x.keys[0] == c.t.keys[c.i - 1]
    requires (j == c.i || j + 1 == c.i) && PairAt(SetKid(c.t, c.i, x), j)
    requires var q := SetKid(c.t, c.i, x);
             3 <= |q.kids[j].keys| <= M && 1 <= |q.kids[j + 1].keys| < M - 1
    ensures var q := SetKid(c.t, c.i, x);
            var q' := SetPair(q, j, ShiftRight(q.kids[j], q.keys[j], q.kids[j + 1]));
            FitsHole(c.up, q', h + 1) && SameFolds(q, q')
  {
    hide Struct, Bag, BagOf, Entries, Leaves, Num, NulFree, SetPair, SameFolds;
    var q := SetKid(c.t, c.i, x);
    UpStruct(c, x, h);
    ShiftRightAt(q, j, h + 1, LoAt(c.up), HiAt(c.up));
    FrameFacts(c, h);
    ShiftRightSizes(q, j);
    SetPairSized(q, j, ShiftRight(q.kids[j], q.keys[j], q.kids[j + 1]), c.i, c.up.Top?);
  }

  lemma ShiftedLeftFits(c: Ctx, x: Tree, h: nat, j: nat)
    requires OkCtx(c, h) && c.Frame? && WellFormed(c) && Struct(x, h, LoAt(c), HiAt(c)) && RegularKids(x)
    requires h == 0 && c.i > 0 ==> |x.keys| > 0 && x.keys[0] == c.t.keys[c.i - 1]
    requires (j == c.i || j + 1 == c.i) && PairAt(SetKid(c.t, c.i, x), j)
    requires var q := SetKid(c.t, c.i, x);
             1 <= |q.kids[j].keys| < M - 1 && 3 <= |q.kids[j + 1].keys| <= M
    ensures var q := SetKid(c.t, c.i, x);
            var q' := SetPair(q, j, ShiftLeft(q.kids[j], q.keys[j], q.kids[j + 1]));
            FitsHole(c.up, q', h + 1) && SameFolds(q, q')
  {
    hide Struct, Bag, BagOf, Entries, Leaves, Num, NulFree, SetPair, SameFolds;
    var q := SetKid(c.t, c.i, x);
    UpStruct(c, x, h);
    ShiftLeftAt(q, j, h + 1, LoAt(c.up), HiAt(c.up));
    FrameFacts(c, h);
    ShiftLeftSizes(q, j);
    SetPairSized(q, j, ShiftLeft(q.kids[j], q.keys[j], q.kids[j + 1]), c.i, c.up.Top?);
  }

  /** The parent after a merge of children `j` and `j + 1`, which may now be underfull itself. */
  lemma MergedFits(c: Ctx, x: Tree, h: nat, j: nat)
    requires OkCtx(c, h) && c.Frame? && WellFormed(c) && Struct(x, h, LoAt(c), HiAt(c)) && RegularKids(x)
    requires h == 0 && c.i > 0 ==> |x.keys| > 0 && x.keys[0] == c.t.keys[c.i - 1]
    requires (j == c.i || j + 1 == c.i) && PairAt(SetKid(c.t, c.i, x), j) && x.node == c.t.kids[c.i].node
    requires var q := SetKid(c.t, c.i, x);
             |q.kids[j].keys| + |q.kids[j + 1].keys| == 3
    ensures var q := SetKid(c.t, c.i, x);
            var q' := Merged(q, j);
            && Struct(q', h + 1, LoAt(c.up), HiAt(c.up)) && RegularKids(q') && |q'.keys| == |c.t.keys| - 1
            && q'.Inner? && q'.node == c.t.node && |q'.kids| == |q'.keys| + 1 && q'.kids[j].node == c.t.kids[j].node
            && Entries(q') == Entries(q) && Bag(q') + multiset{q.kids[j + 1].node} == Bag(q)
            && (h > 0 ==> Leaves(q') == Leaves(q))
  {
    hide Struct, Bag, BagOf, Entries, Leaves, Num, NulFree, Joins;
    var q := SetKid(c.t, c.i, x);
    UpStruct(c, x, h);
    MergeAt(q, j, h + 1, LoAt(c.up), HiAt(c.up));
    var m := Merge(q.kids[j], q.keys[j], q.kids[j + 1]);
    FrameFacts(c, h);
    JoinKidsContents(q, j, m);
    KidLevels(q, j + 1, h + 1, LoAt(c.up), HiAt(c.up));
    JoinedRegular(q, j, m, c.i);
  }

  lemma JoinedRegular(q: Tree, j: nat, m: Tree, i: nat)
    requires q.Inner? && j < |q.keys| && |q.kids| == |q.keys| + 1 && RegularBut(q, i) && (i == j || i == j + 1)
    requires Arity(m)
    ensures var q' := JoinKids(q, j, m);
            q'.Inner? && RegularKids(q') && |q'.keys| == |q.keys| - 1 && |q'.kids| == |q'.keys| + 1
              && q'.node == q.node && q'.kids[j] == m
  {
    SplicedForms(q, j, (m, q.keys[j], m), m);
    hide JoinKids;
  }

  lemma ParentOf(x: Tree, par: BNode?)
    requires Rep(x, par)
    ensures x.node.parent == par
  {
    hide Body;
  }

  lemma ParentOfMinus(x: Tree, slot: nat, par: BNode?)
    requires RepMinus(x, slot, par)
    ensures x.node.parent == par
  {
  }

  lemma BodyKeys(t: Tree)
    requires Body(t)
    ensures t.node.key == t.keys
  {
  }

  /** Children `j` and `j + 1` of `p` are ready for a rotation or a merge. */
  ghost predicate PairReady(p: Tree, j: nat, h: nat, lo: real, hi: real) {
    && Struct(p, h, lo, hi) && PairAt(p, j) && p.kids[j].Inner?
    && InnerApart(p, j, Refs(p))
    && NulFreeKeys(p.kids[j + 1]) && NulFreeKeys(p.kids[j + 1].kids[0])
  }

  /** An irregular child `x` and a sibling, in the parent they have. */
  lemma PairUp(c: Ctx, x: Tree, h: nat, j: nat, live: set<BNode>)
    requires OkCtx(c, h) && c.Frame? && WellFormed(c) && h > 0
    requires Struct(x, h, LoAt(c), HiAt(c)) && RegularKids(x) && |x.keys| > 0
    requires multiset(live) == BagAround(c) + Bag(x)
    requires j + 1 < |c.t.kids| && (j == c.i || j + 1 == c.i)
    ensures PairReady(SetKid(c.t, c.i, x), j, h + 1, LoAt(c.up), HiAt(c.up))
  {
    hide Num, NulFree, Struct, Bag, PairAt, InnerApart, LoAt, HiAt, BagAround, OkCtx, EntriesWith, LeavesWith,
      Entries, Leaves;
    var p := SetKid(c.t, c.i, x);
    UpStruct(c, x, h);
    UpFolds(c, x);
    FrameFacts(c, h);
    PairOfKids(p, j, h + 1, LoAt(c.up), HiAt(c.up));
    KidLevels(p, j, h + 1, LoAt(c.up), HiAt(c.up));
    KidLevels(p, j + 1, h + 1, LoAt(c.up), HiAt(c.up));
    BagIsRefs(p, BagAround(c.up), live);
    PairIsApart(p, j, Refs(p));
  }

  lemma PathUp(c: Ctx, idx: seq<nat>)
    requires c.Frame? && |idx| > 0 && idx[..|idx| - 1] == Path(c)
    ensures |idx| >= 2 && idx[|idx| - 2] == c.i && idx[..|idx| - 2] == Path(c.up)
    ensures idx[..|idx| - 1] == Path(c.up) + [c.i] && idx[..|idx| - 1][..|idx| - 2] == Path(c.up)
  {
  }

  lemma PathUpIf(c: Ctx, idx: seq<nat>)
    requires |idx| > 0 && idx[..|idx| - 1] == Path(c)
    ensures c.Frame? ==> |idx| >= 2 && idx[|idx| - 2] == c.i
  {
    if c.Frame? {
      PathUp(c, idx);
    }
  }

  lemma BagIsRefs(p: Tree, around: multiset<BNode>, live: set<BNode>)
    requires multiset(live) == around + Bag(p)
    ensures Bag(p) <= multiset(Refs(p))
  {
    hide Bag;
    OnceIsSet(Bag(p), live);
  }

  lemma OnceIsSet<T>(b: multiset<T>, live: set<T>)
    requires b <= multiset(live)
    ensures b <= multiset(set r | r in b)
  {
    var s := set r | r in b;
    assert s <= live;
    assert multiset(s) == multiset(live) - multiset(live - s);
    assert b !! multiset(live - s);
  }

  lemma FrameFacts(c: Ctx, h: nat)
    requires OkCtx(c, h) && c.Frame?
    ensures WellFormed(c) && OkCtx(c.up, h + 1) && (if c.up.Top? then 0 else 1) < |c.t.keys| < M && RegularBut(c.t, c.i)
    ensures forall k :: 0 <= k < |c.t.kids| && k != c.i ==>
              Arity(c.t.kids[k]) && |c.t.kids[k].keys| >= 2 && RegularKids(c.t.kids[k])
  {
    hide Num, NulFree, Struct;
  }
}
