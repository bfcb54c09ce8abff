/** The moves of `LeafMoves` as operations on laid out trees. */
module LeafTrees {
  import opened Keys
  import opened Shape
  import opened Rebalance
  import opened Context
  import opened Repair
  import opened Layout
  import opened LeafMoves
  import opened TreeMoves

  lemma NullsFacts(n: nat, m: nat)
    ensures Nulls(n) + Nulls(m) == Nulls(n + m) && Nulls(n) + [null] == Nulls(n + 1)
    ensures DropLast(Nulls(n + 1)) == Nulls(n)
    ensures m <= n ==> Nulls(n)[..m] == Nulls(m)
  {
  }

  /** The parent, the two leaves and the trees beside them are different nodes of `all`. */
  ghost predicate LeafApart(p: Tree, j: nat, all: set<BNode>)
    requires PairAt(p, j)
  {
    var a, b := p.kids[j], p.kids[j + 1];
    && Outer(p, j) + {p.node, a.node, b.node} <= all
    && p.node != a.node && p.node != b.node && a.node != b.node
    && {p.node, a.node, b.node} !! Outer(p, j)
  }

  lemma LeavesAreApart(p: Tree, j: nat, all: set<BNode>)
    requires PairAt(p, j) && Bag(p) <= multiset(all)
    ensures LeafApart(p, j, all)
  {
    hide BagOf, Bag, Once;
    var a, b := p.kids[j], p.kids[j + 1];
    PairBag(p, j);
    OnceGroups(p.node, BagOf(p.kids[..j]), Bag(a), Bag(b), BagOf(p.kids[j + 2..]), all);
    assert a.node in Bag(a) && b.node in Bag(b);
  }

  /** A leaf without entry `rm`. */
  ghost function Without(x: Tree, rm: nat): Tree
    requires x.Leaf? && rm < |x.keys| == |x.data|
  {
    Leaf(x.node, RemoveAt(x.keys, rm), RemoveAt(x.data, rm))
  }

  /** A leaf with one more entry at slot `lf`. */
  ghost function With(x: Tree, lf: nat, key: Key, data: int): Tree
    requires x.Leaf? && lf <= |x.keys| == |x.data|
  {
    Leaf(x.node, InsertAt(x.keys, lf, key), InsertAt(x.data, lf, data))
  }

  /** Where the pair `j`, `j + 1` of leaves hangs, with `x` and `y` as the leaves' present contents. */
  ghost predicate LeafPair(p: Tree, j: nat, x: Tree, y: Tree, par: BNode?, all: set<BNode>)
    reads Refs(x)`parent, Refs(x)`key, Refs(x)`child, Refs(x)`data, Refs(y)`parent, Refs(y)`key, Refs(y)`child,
      Refs(y)`data, all`parent, all`key, all`child, all`data
  {
    && PairAt(p, j) && LeafApart(p, j, all) && p.kids[j].Leaf?
    && AroundRefs(p, j, j + 2) <= all && RepAround(p, j, j + 2, par)
    && x.Leaf? && y.Leaf? && Lengths(x) && Lengths(y)
    && x.node == p.kids[j].node && y.node == p.kids[j + 1].node
    && Rep(x, p.node) && Rep(y, p.node)
  }

  /** Underflow, "rotate 1": `hot` loses entry `rm` and takes the last one of the leaf on its left. */
  method BorrowLeafPrev(ghost p: Tree, ghost j: nat, ghost x: Tree, hot: BNode, prev: BNode, pn: BNode, rm: nat,
      pa: nat, ghost par: BNode?, ghost all: set<BNode>)
    requires PairAt(p, j) && LeafPair(p, j, p.kids[j], x, par, all) && |p.kids[j].keys| > 1
    requires rm < |x.keys| && p.kids[j + 1] == Without(x, rm)
    requires hot == x.node && prev == p.kids[j].node && pn == p.node && pa == j + 1
    modifies all`key, all`child, all`data
    ensures Rep(SetPair(p, j, ShiftRight(p.kids[j], p.keys[j], p.kids[j + 1])), par)
  {
    hide Bag, BagOf, SetPair, Num, NulFree;
    NullsFacts(|p.kids[j].keys|, 1);
    BorrowFromPrev(hot, prev, pn, rm, pa);
    assert RepAll(p.kids[..j], pn) && RepAll(p.kids[j + 2..], pn);
    AssemblePair(p, j, ShiftRight(p.kids[j], p.keys[j], p.kids[j + 1]), par);
  }

  /** The separator on the left of child `j` made equal to that child's first key. */
  ghost function Reseparated(p: Tree, j: nat): Tree
    requires p.Inner? && j < |p.kids| && j <= |p.keys| && |p.kids[j].keys| > 0
  {
    if j == 0 then p else Inner(p.node, p.keys[j - 1 := p.kids[j].keys[0]], p.kids)
  }

  /** Underflow, "rotate 2": `hot` loses entry `rm` and takes the first one of the leaf on its right. */
  method BorrowLeafNext(ghost p: Tree, ghost j: nat, ghost x: Tree, hot: BNode, next: BNode, pn: BNode, rm: nat,
      pa: nat, ghost par: BNode?, ghost all: set<BNode>)
    requires PairAt(p, j) && LeafPair(p, j, x, p.kids[j + 1], par, all) && |p.kids[j + 1].keys| > 1
    requires rm < |x.keys| && p.kids[j] == Without(x, rm)
    requires rm != 0 && j > 0 ==> p.kids[j].keys[0] == p.keys[j - 1]
    requires hot == x.node && next == p.kids[j + 1].node && pn == p.node && pa == j
    modifies all`key, all`child, all`data
    ensures PairAt(Reseparated(p, j), j)
      && Rep(SetPair(Reseparated(p, j), j, ShiftLeft(p.kids[j], p.keys[j], p.kids[j + 1])), par)
  {
    hide Bag, BagOf, SetPair, Num, NulFree;
    NullsFacts(|p.kids[j].keys|, 1);
    NullsFacts(|p.kids[j + 1].keys|, 1);
    BorrowFromNext(hot, next, pn, rm, pa);
    assert RepAll(p.kids[..j], pn) && RepAll(p.kids[j + 2..], pn);
    ghost var q := Reseparated(p, j);
    assert pn.key == q.keys[j := p.kids[j + 1].keys[1]];
    AssemblePair(q, j, ShiftLeft(p.kids[j], p.keys[j], p.kids[j + 1]), par);
  }

  /** Overflow, "rotate 1": the leaf on the left takes the first entry. */
  method GiveLeafPrev(ghost p: Tree, ghost j: nat, ghost x: Tree, hot: BNode, prev: BNode, pn: BNode, lf: nat,
      pa: nat, key: Key, data: int, ghost par: BNode?, ghost all: set<BNode>)
    requires PairAt(p, j) && LeafPair(p, j, p.kids[j], x, par, all)
    requires 0 < lf <= |x.keys| && p.kids[j + 1] == With(x, lf, key, data) && NulFreeKeys(x)
    requires hot == x.node && prev == p.kids[j].node && pn == p.node && pa == j + 1
    modifies all`key, all`child, all`data
    ensures Rep(SetPair(p, j, ShiftLeft(p.kids[j], p.keys[j], p.kids[j + 1])), par)
  {
    hide Bag, BagOf, SetPair, Num, NulFree;
    NullsFacts(|p.kids[j].keys| + 1, 1);
    GiveToPrev(hot, prev, pn, lf, pa, key, data);
    assert RepAll(p.kids[..j], pn) && RepAll(p.kids[j + 2..], pn);
    AssemblePair(p, j, ShiftLeft(p.kids[j], p.keys[j], p.kids[j + 1]), par);
  }

  /** Overflow, "rotate 2": the leaf on the right takes the last entry. */
  method GiveLeafNext(ghost p: Tree, ghost j: nat, ghost x: Tree, hot: BNode, next: BNode, pn: BNode, lf: nat,
      pa: nat, key: Key, data: int, ghost par: BNode?, ghost all: set<BNode>)
    requires PairAt(p, j) && LeafPair(p, j, x, p.kids[j + 1], par, all)
    requires |x.keys| > 0 && lf <= |x.keys| && p.kids[j] == With(x, lf, key, data) && NulFreeKeys(x) && NulFree(key)
    requires hot == x.node && next == p.kids[j + 1].node && pn == p.node && pa == j
    modifies all`key, all`child, all`data
    ensures Rep(SetPair(p, j, ShiftRight(p.kids[j], p.keys[j], p.kids[j + 1])), par)
  {
    hide Bag, BagOf, SetPair, Num, NulFree;
    NullsFacts(|p.kids[j + 1].keys| + 1, 1);
    GiveToNext(hot, next, pn, lf, pa, key, data);
    assert RepAll(p.kids[..j], pn) && RepAll(p.kids[j + 2..], pn);
    AssemblePair(p, j, ShiftRight(p.kids[j], p.keys[j], p.kids[j + 1]), par);
  }

  /** Underflow, "merge 1": `hot` loses entry `rm` and gives the rest to the leaf on its left. */
  method MergeLeafPrev(ghost p: Tree, ghost j: nat, ghost x: Tree, hot: BNode, prev: BNode, rm: nat,
      ghost par: BNode?, ghost all: set<BNode>)
    requires PairAt(p, j) && LeafPair(p, j, p.kids[j], x, par, all)
    requires rm < |x.keys| && p.kids[j + 1] == Without(x, rm) && NulFreeKeys(x)
    requires hot == x.node && prev == p.kids[j].node
    modifies all`key, all`child, all`data
    ensures RepMinus(Merged(p, j), j, par)
  {
    hide Bag, BagOf, JoinKids, Num, NulFree;
    NullsFacts(|p.kids[j].keys| + 1, |x.keys| - 1);
    MergeIntoPrev(hot, prev, rm);
    assert RepAll(p.kids[..j], p.node) && RepAll(p.kids[j + 2..], p.node);
    AssembleJoin(p, j, Merge(p.kids[j], p.keys[j], p.kids[j + 1]), par);
  }

  /** Underflow, "merge 2": `hot` loses entry `rm` and takes everything in the leaf on its right. */
  method MergeLeafNext(ghost p: Tree, ghost j: nat, ghost x: Tree, hot: BNode, next: BNode, rm: nat,
      ghost par: BNode?, ghost all: set<BNode>)
    requires PairAt(p, j) && LeafPair(p, j, x, p.kids[j + 1], par, all)
    requires rm < |x.keys| && p.kids[j] == Without(x, rm) && NulFreeKeys(p.kids[j + 1])
    requires hot == x.node && next == p.kids[j + 1].node
    modifies all`key, all`child, all`data
    ensures RepMinus(Merged(p, j), j, par)
  {
    hide Bag, BagOf, JoinKids, Num, NulFree;
    NullsFacts(|x.keys| + 1, |p.kids[j + 1].keys| - 1);
    MergeNext(hot, next, rm);
    assert RepAll(p.kids[..j], p.node) && RepAll(p.kids[j + 2..], p.node);
    AssembleJoin(p, j, Merge(p.kids[j], p.keys[j], p.kids[j + 1]), par);
  }

  /** Overflow, "split": the full leaf `hot` keeps the lower entries, `u` gets the upper ones. */
  method SplitLeaf(ghost x: Tree, hot: BNode, u: BNode, tmp: seq<int>, lf: nat, key: Key, data: int, ghost par: BNode?)
    requires x.Leaf? && Lengths(x) && |x.keys| == M - 1 && Rep(x, par) && NulFreeKeys(x) && NulFree(key)
    requires hot == x.node && hot != u && VirtualInsert(tmp, lf)
    requires u.key == [] && u.data == [] && u.child == [] && u.isLeaf && u.parent == par
    modifies u`key, u`data, u`child, hot`key, hot`data, hot`child
    ensures |With(x, lf, key, data).keys| == M && Lengths(With(x, lf, key, data))
    ensures var r := Divide(With(x, lf, key, data), u);
            Rep(r.0, par) && Rep(r.2, par) && u.key == r.2.keys && |u.key| > 0 && u.key[0] == r.1
  {
    hide Bag, BagOf, Num, NulFree, InsertAt;
    NullsFacts(M, M / 2 + 1);
    TableReads(x.keys, tmp, lf, key);
    TableReads(x.data, tmp, lf, data);
    u.child := Nulls(M - M / 2 + 1);
    CopyUpper(hot, u, tmp, lf, key, data);
    KeepLower(hot, tmp, lf, key, data);
  }

  // ----- a leaf with one entry more or less -----

  /** `key` belongs at slot `lf` of the leaf `x` and is not in it. */
  ghost predicate SlotFor(x: Tree, lf: nat, key: Key, lo: real, hi: real) {
    && x.Leaf? && Lengths(x) && lf <= |x.keys| && In(key, lo, hi)
    && (lf > 0 ==> Num(x.keys[lf - 1]) < Num(key))
    && (lf < |x.keys| ==> Num(key) < Num(x.keys[lf]))
  }

  lemma WithEntries(x: Tree, lf: nat, key: Key, data: int)
    requires x.Leaf? && Lengths(x) && lf <= |x.keys|
    ensures Entries(With(x, lf, key, data)) == InsertAt(Entries(x), lf, (key, data))
  {
    hide InsertAt, Entries;
    var y := With(x, lf, key, data);
    InsertAtLengths(x, lf, key, data);
    forall i | 0 <= i <= |x.keys|
      ensures Entries(y)[i] == InsertAt(Entries(x), lf, (key, data))[i]
    {
      ZipInsert(x.keys, x.data, Entries(x), lf, key, data, i);
    }
  }

  lemma InsertAtLengths(x: Tree, lf: nat, key: Key, data: int)
    requires x.Leaf? && Lengths(x) && lf <= |x.keys|
    ensures Lengths(With(x, lf, key, data)) && |With(x, lf, key, data).keys| == |x.keys| + 1
    ensures |InsertAt(Entries(x), lf, (key, data))| == |x.keys| + 1
  {
    hide Entries;
  }

  lemma ZipInsert(ks: seq<Key>, ds: seq<int>, es: seq<Entry>, lf: nat, key: Key, data: int, i: nat)
    requires |ks| == |ds| == |es| && lf <= |ks| && i <= |ks|
    requires forall j :: 0 <= j < |es| ==> es[j] == (ks[j], ds[j])
    ensures |InsertAt(ks, lf, key)| == |InsertAt(ds, lf, data)| == |InsertAt(es, lf, (key, data))| == |ks| + 1
    ensures InsertAt(es, lf, (key, data))[i] == (InsertAt(ks, lf, key)[i], InsertAt(ds, lf, data)[i])
  {
  }

  lemma InsertSorted(ks: seq<Key>, i: nat, x: Key, lo: real, hi: real)
    requires Sorted(ks, lo, hi) && i <= |ks| && In(x, lo, hi)
    requires i > 0 ==> Num(ks[i - 1]) < Num(x)
    requires i < |ks| ==> Num(x) < Num(ks[i])
    ensures Sorted(InsertAt(ks, i, x), lo, hi)
  {
    hide Num, NulFree;
    forall a, b | 0 <= a < b < |ks| + 1
      ensures Num(InsertAt(ks, i, x)[a]) < Num(InsertAt(ks, i, x)[b])
    {
      if b == i {
        assert a == i - 1 || Num(ks[a]) < Num(ks[i - 1]);
      } else if a == i {
        assert b == i + 1 || Num(ks[i]) < Num(ks[b - 1]);
      }
    }
  }

  lemma WithStruct(x: Tree, lf: nat, key: Key, data: int, lo: real, hi: real)
    requires Struct(x, 0, lo, hi) && SlotFor(x, lf, key, lo, hi)
    ensures Struct(With(x, lf, key, data), 0, lo, hi)
    ensures lf > 0 ==> With(x, lf, key, data).keys[0] == x.keys[0]
  {
    hide Num, NulFree, Sorted;
    InsertSorted(x.keys, lf, key, lo, hi);
  }

  lemma WithoutStruct(x: Tree, rm: nat, lo: real, hi: real)
    requires x.Leaf? && Struct(x, 0, lo, hi) && rm < |x.keys|
    ensures Struct(Without(x, rm), 0, lo, hi)
    ensures Entries(Without(x, rm)) == RemoveAt(Entries(x), rm)
    ensures rm > 0 ==> Without(x, rm).keys[0] == x.keys[0]
    ensures |x.keys| > 1 ==> Num(Without(x, rm).keys[0]) >= Num(x.keys[0])
  {
    hide Num, NulFree;
    assert |x.keys| > 1 ==> Num(x.keys[0]) < Num(x.keys[1]);
  }

  // ----- the neighbours of a leaf -----

  lemma PrevLeaf(c: Ctx)
    requires WellFormed(c) && c.Frame? && c.i > 0 && c.t.kids[c.i - 1].Leaf?
    ensures LeavesBefore(c) == LeavesBefore(c.up) + LeavesOf(c.t.kids[..c.i - 1]) + [c.t.kids[c.i - 1].node]
  {
    hide LeavesOf;
    var y := c.t.kids[c.i - 1];
    assert c.t.kids[..c.i] == c.t.kids[..c.i - 1] + [y];
    LeavesConcat(c.t.kids[..c.i - 1], [y]);
    FoldsOne(y);
    var before := LeavesOf(c.t.kids[..c.i - 1]);
    assert LeavesBefore(c.up) + (before + [y.node]) == LeavesBefore(c.up) + before + [y.node];
  }

  lemma NextLeaf(c: Ctx)
    requires WellFormed(c) && c.Frame? && c.i + 1 < |c.t.kids| && c.t.kids[c.i + 1].Leaf?
    ensures LeavesAfter(c) == [c.t.kids[c.i + 1].node] + (LeavesOf(c.t.kids[c.i + 2..]) + LeavesAfter(c.up))
  {
    var ts := c.t.kids[c.i + 1..];
    FirstLeaf(ts);
    assert ts[1..] == c.t.kids[c.i + 2..];
    hide LeavesOf;
    var a, b, d := [ts[0].node], LeavesOf(ts[1..]), LeavesAfter(c.up);
    assert (a + b) + d == a + (b + d);
  }

  lemma FirstLeaf(ts: seq<Tree>)
    requires ts != [] && ts[0].Leaf?
    ensures LeavesOf(ts) == [ts[0].node] + LeavesOf(ts[1..])
  {
  }

  lemma LeavesOfLeaf(x: Tree)
    requires x.Leaf?
    ensures Leaves(x) == [x.node]
  {
  }

  lemma {:induction false} InLeavesOf(ts: seq<Tree>, n: BNode) returns (i: nat)
    requires n in LeavesOf(ts)
    ensures i < |ts| && n in Leaves(ts[i])
  {
    if n in Leaves(ts[0]) {
      i := 0;
    } else {
      i := InLeavesOf(ts[1..], n);
      i := i + 1;
    }
  }

  /** The parent of a leaf of an inner tree is in that tree. */
  lemma {:induction false} DeepLeaf(t: Tree, h: nat, lo: real, hi: real, n: BNode)
    requires t.Inner? && Struct(t, h, lo, hi) && Body(t) && n in Leaves(t)
    ensures n in Refs(t) && n.parent != null && n.parent in Refs(t)
    decreases h
  {
    hide Num, NulFree, Sorted, Bag, BagOf;
    var i := InLeavesOf(t.kids, n);
    var x := t.kids[i];
    assert x.node in Refs(x) && Refs(x) <= Refs(t) by { RefsBelow(t, i); }
    assert Parents(t.kids, t.node) && Bodies(t.kids);
    if x.Inner? {
      DeepLeaf(x, h - 1, Lo(t.keys, i, lo), Hi(t.keys, i, hi), n);
    } else {
      LeavesOfLeaf(x);
    }
  }

  lemma RefsBelow(t: Tree, i: nat)
    requires t.Inner? && i < |t.kids|
    ensures Refs(t.kids[i]) <= Refs(t)
  {
    hide Bag;
    assert Bag(t.kids[i]) <= BagOf(t.kids);
    assert Bag(t) == multiset{t.node} + BagOf(t.kids) by { BagInner(t); }
  }

  lemma BagInner(t: Tree)
    requires t.Inner?
    ensures Bag(t) == multiset{t.node} + BagOf(t.kids)
  {
  }

  /** The parent of a leaf elsewhere in a tree is elsewhere too. */
  lemma {:induction false} OuterLeaf(c: Ctx, h: nat, hole: BNode, n: BNode)
    requires OkCtx(c, h) && h > 0 && RepCtx(c, hole)
    requires n in LeavesBefore(c) || n in LeavesAfter(c)
    ensures n in CtxRefs(c) && n.parent != null && n.parent in CtxRefs(c)
    decreases c
  {
    hide Num, NulFree, Sorted, Bag, BagOf, Body;
    var pre, post := c.t.kids[..c.i], c.t.kids[c.i + 1..];
    if n in LeavesOf(pre) {
      var i := InLeavesOf(pre, n);
      assert pre[i] == c.t.kids[i] && Struct(c.t.kids[i], h, Lo(c.t.keys, i, LoAt(c.up)), Hi(c.t.keys, i, HiAt(c.up)));
      HeightInner(pre[i], h, Lo(c.t.keys, i, LoAt(c.up)), Hi(c.t.keys, i, HiAt(c.up)));
      DeepLeaf(pre[i], h, Lo(c.t.keys, i, LoAt(c.up)), Hi(c.t.keys, i, HiAt(c.up)), n);
    } else if n in LeavesOf(post) {
      var i := InLeavesOf(post, n);
      var k := c.i + 1 + i;
      assert post[i] == c.t.kids[k] && Struct(c.t.kids[k], h, Lo(c.t.keys, k, LoAt(c.up)), Hi(c.t.keys, k, HiAt(c.up)));
      HeightInner(post[i], h, Lo(c.t.keys, k, LoAt(c.up)), Hi(c.t.keys, k, HiAt(c.up)));
      DeepLeaf(post[i], h, Lo(c.t.keys, k, LoAt(c.up)), Hi(c.t.keys, k, HiAt(c.up)), n);
    } else {
      OuterLeaf(c.up, h + 1, c.t.node, n);
    }
  }

  lemma HeightInner(x: Tree, h: nat, lo: real, hi: real)
    requires Struct(x, h, lo, hi)
    ensures x.Inner? <==> h > 0
  {
    hide Num, NulFree, Sorted;
  }

  // ----- leaves are different nodes -----

  lemma {:induction false} LeavesInBag(t: Tree)
    ensures multiset(Leaves(t)) <= Bag(t)
    decreases t, 0
  {
    if t.Inner? {
      LeavesOfInBag(t.kids);
      assert multiset(LeavesOf(t.kids)) <= multiset{t.node} + BagOf(t.kids);
    }
  }

  lemma {:induction false} LeavesOfInBag(ts: seq<Tree>)
    ensures multiset(LeavesOf(ts)) <= BagOf(ts)
    decreases ts
  {
    if ts != [] {
      LeavesInBag(ts[0]);
      LeavesOfInBag(ts[1..]);
    }
  }

  lemma LeavesDistinct(t: Tree, live: set<BNode>)
    requires Bag(t) <= multiset(live)
    ensures Distinct(Leaves(t)) && forall n | n in Leaves(t) :: n in Refs(t)
  {
    hide Bag, Leaves;
    LeavesInBag(t);
    var ls := Leaves(t);
    forall i, j | 0 <= i < j < |ls|
      ensures ls[i] != ls[j]
    {
      var a, b := ls[..j], ls[j..];
      assert ls == a + b && a[i] == ls[i] && b[0] == ls[j];
      assert multiset(ls) == multiset(a) + multiset(b);
      assert ls[i] in multiset(a) && ls[j] in multiset(b);
      assert multiset(ls)[ls[j]] <= multiset(live)[ls[j]] <= 1;
    }
    assert forall n | n in ls :: n in multiset(ls);
  }

  // ----- a leaf that lost its first entry -----

  /** The context in which the leaf `y` has replaced the one in the hole, and the separator on its
      left follows its first key. */
  ghost function Resep(c: Ctx, y: Tree): Ctx
    requires WellFormed(c) && c.Frame? && |y.keys| > 0
  {
    Frame(c.up, Reseparated(SetKid(c.t, c.i, y), c.i), c.i)
  }

  lemma ResepFolds(c: Ctx, y: Tree, es: seq<Entry>, ls: seq<BNode>)
    requires WellFormed(c) && c.Frame? && |y.keys| > 0
    ensures var d := Resep(c, y);
            && WellFormed(d) && SetKid(d.t, d.i, y) == d.t && d.t.node == c.t.node
            && EntriesWith(d, es) == EntriesWith(c, es) && LeavesWith(d, ls) == LeavesWith(c, ls)
            && Bag(d.t) == Bag(SetKid(c.t, c.i, y)) && Entries(d.t) == Entries(SetKid(c.t, c.i, y))
            && Leaves(d.t) == Leaves(SetKid(c.t, c.i, y))
  {
    hide EntriesOf, LeavesOf, BagOf;
    var d := Resep(c, y);
    assert d.t.kids[..d.i] == c.t.kids[..c.i] && d.t.kids[d.i + 1..] == c.t.kids[c.i + 1..];
  }

  /** A leaf over [lo, hi) is also one over [its first key, hi). */
  lemma LeafTighten(y: Tree, lo: real, hi: real)
    requires y.Leaf? && Struct(y, 0, lo, hi) && |y.keys| > 0
    ensures Struct(y, 0, Num(y.keys[0]), hi) && NulFree(y.keys[0]) && lo <= Num(y.keys[0]) < hi
  {
    hide Num, NulFree;
  }

  lemma ResepOk(c: Ctx, x: Tree, rm: nat)
    requires OkCtx(c, 0) && c.Frame? && WellFormed(c) && FitsHole(c, x, 0) && x.Leaf?
      && rm < |x.keys| == |x.data| && |x.keys| > 1
    ensures var y := Without(x, rm);
            var d := Resep(c, y);
            && OkCtx(d, 0) && Struct(y, 0, LoAt(d), HiAt(d))
            && (d.i > 0 ==> y.keys[0] == d.t.keys[d.i - 1])
  {
    hide Num, NulFree, Struct, Sorted;
    var y := Without(x, rm);
    var d := Resep(c, y);
    var lo, hi := LoAt(c.up), HiAt(c.up);
    WithoutStruct(x, rm, LoAt(c), HiAt(c));
    LeafTighten(y, LoAt(c), HiAt(c));
    assert SizedBut(d.t, d.i, c.up.Top?);
    if c.i == 0 {
      SetKidHolds(c.t, 0, y, lo, hi);
    } else {
      LeafTighten(x, LoAt(c), HiAt(c));
      ResepStruct(c.t, c.i, y, lo, hi);
    }
  }

  lemma SetKidHolds(t: Tree, i: nat, y: Tree, lo: real, hi: real)
    requires t.Inner? && Struct(t, 1, lo, hi) && i < |t.kids| && |t.kids| == |t.keys| + 1
    requires Struct(y, 0, Lo(t.keys, i, lo), Hi(t.keys, i, hi))
    requires i > 0 ==> |y.keys| > 0 && y.keys[0] == t.keys[i - 1]
    ensures Struct(SetKid(t, i, y), 1, lo, hi)
  {
    hide Num, NulFree, Sorted;
  }

  lemma ResepStruct(t: Tree, i: nat, y: Tree, lo: real, hi: real)
    requires t.Inner? && Struct(t, 1, lo, hi) && 0 < i < |t.kids| && |t.kids| == |t.keys| + 1
    requires |t.kids[i - 1].keys| > 0 && |y.keys| > 0
    requires Struct(y, 0, Num(y.keys[0]), Hi(t.keys, i, hi))
      && Num(t.keys[i - 1]) <= Num(y.keys[0]) < Hi(t.keys, i, hi) && NulFree(y.keys[0])
    ensures Struct(Reseparated(SetKid(t, i, y), i), 1, lo, hi)
  {
    hide Num, NulFree, Sorted, Struct, SetPair;
    var a, s := t.kids[i - 1], y.keys[0];
    SepFacts(t, i - 1, 1, lo, hi);
    LeftOfSep(t, i - 1, lo, hi);
    StructWiden(a, 0, Lo(t.keys, i - 1, lo), Num(t.keys[i - 1]), Lo(t.keys, i - 1, lo), Num(s));
    MakeSiblings(a, s, y, Lo(t.keys, i - 1, lo), Hi(t.keys, i, hi));
    SetPairStruct(t, i - 1, (a, s, y), 1, lo, hi);
    SplicedForms(t, i - 1, (a, s, y), y);
    assert t.kids[i - 1 := a][i := y] == t.kids[i := y];
  }

  lemma LeftOfSep(t: Tree, j: nat, lo: real, hi: real)
    requires t.Inner? && Struct(t, 1, lo, hi) && j < |t.keys|
    ensures |t.kids| == |t.keys| + 1
    ensures Struct(t.kids[j], 0, Lo(t.keys, j, lo), Num(t.keys[j]))
    ensures j > 0 ==> |t.kids[j].keys| > 0 && t.kids[j].keys[0] == t.keys[j - 1]
  {
    hide Num, NulFree, Sorted;
  }

  lemma MakeSiblings(a: Tree, s: Key, b: Tree, lo: real, hi: real)
    requires Struct(a, 0, lo, Num(s)) && Struct(b, 0, Num(s), hi) && |a.keys| > 0 && |b.keys| > 0
    requires NulFree(s) && lo < Num(s) < hi && b.keys[0] == s
    ensures Siblings(a, s, b, 0, lo, hi)
  {
  }

  /** The pair repairs that replace or remove the separator do not see the difference. */
  lemma ResepSame(c: Ctx, y: Tree, j: nat)
    requires WellFormed(c) && c.Frame? && |y.keys| > 0 && c.i == j + 1
    requires PairAt(SetKid(c.t, c.i, y), j) && y.Leaf?
    ensures var q, q' := SetKid(c.t, c.i, y), Resep(c, y).t;
            && PairAt(q', j) && Merged(q', j) == Merged(q, j)
            && (|q.kids[j].keys| > 1 ==>
                  SetPair(q', j, ShiftRight(q'.kids[j], q'.keys[j], q'.kids[j + 1]))
                  == SetPair(q, j, ShiftRight(q.kids[j], q.keys[j], q.kids[j + 1])))
  {
    hide Bag, BagOf;
    var q, q' := SetKid(c.t, c.i, y), Resep(c, y).t;
    assert q'.keys[..j] == q.keys[..j] && q'.keys[j + 1..] == q.keys[j + 1..];
  }

  /** The leaves around the pair `j`, `j + 1` of leaves below `q`. */
  lemma PairLeaves(up: Ctx, q: Tree, j: nat)
    requires WellFormed(up) && PairAt(q, j) && q.kids[j].Leaf?
    ensures var before, after := LeavesBefore(up) + LeavesOf(q.kids[..j]), LeavesOf(q.kids[j + 2..]) + LeavesAfter(up);
            LeavesWith(up, Leaves(q)) == before + [q.kids[j].node] + ([q.kids[j + 1].node] + after)
  {
    hide LeavesOf, Leaves, Bag, BagOf, Entries, EntriesWith, BagAround;
    var c := Frame(up, q, j);
    NextLeaf(c);
    UpFolds(c, q.kids[j]);
    LeavesOfLeaf(q.kids[j]);
    assert SetKid(q, j, q.kids[j]) == q by { SetSame(q, j); }
  }

  lemma SetSame(q: Tree, j: nat)
    requires q.Inner? && j < |q.kids|
    ensures SetKid(q, j, q.kids[j]) == q
  {
  }

  /** Those leaves after the merge of the pair. */
  lemma MergedLeaves(up: Ctx, q: Tree, j: nat)
    requires WellFormed(up) && PairAt(q, j) && q.kids[j].Leaf?
    ensures var before, after := LeavesBefore(up) + LeavesOf(q.kids[..j]), LeavesOf(q.kids[j + 2..]) + LeavesAfter(up);
            LeavesWith(up, Leaves(Merged(q, j))) == before + [q.kids[j].node] + after
  {
    hide LeavesOf, Leaves, Bag, BagOf, Entries, EntriesWith, BagAround, JoinKids;
    var m := Merge(q.kids[j], q.keys[j], q.kids[j + 1]);
    var r := Merged(q, j);
    SplicedForms(q, j, (m, q.keys[j], m), m);
    var c := Frame(up, r, j);
    assert r.kids[j] == m && r.kids[..j] == q.kids[..j] && r.kids[j + 1..] == q.kids[j + 2..];
    UpFolds(c, m);
    LeavesOfLeaf(m);
    SetSame(r, j);
  }
}
