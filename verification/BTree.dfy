/** The (3,5) B+ tree: an index from keys to offsets, linked through parents, children and a
    doubly linked chain of leaves. */
module BTrees {
  import opened Keys
  import opened Shape
  import opened Rebalance
  import opened Context
  import opened Repair
  import opened Layout
  import opened LeafMoves
  import opened TreeMoves
  import opened LeafTrees
  import opened Contents
  import opened Descents
  import opened Relabels
  import opened TreeSteps
  import opened Reach

  class BTree {
    var root: BNode
    var size: nat
    var tmpIdx: seq<int>
    ghost var shape: Tree
    // the nodes allocated and not yet deleted
    ghost var live: set<BNode>

    /** The live nodes are those of `c`, laid out with `x.node` in the hole, and those of `x`, each once. */
    ghost predicate Above(c: Ctx, x: Tree)
      reads this`root, this`live, live
    {
      && WellFormed(c) && multiset(live) == BagAround(c) + Bag(x)
      && Refs(x) <= live && CtxRefs(c) <= live && CtxRefs(c) !! Refs(x)
      && RepCtx(c, x.node) && root == CtxRoot(c, x.node)
    }

    /** The live nodes form the valid tree `s` with these entries and leaves. */
    ghost predicate Whole(s: Tree, es: seq<Entry>, ls: seq<BNode>)
      reads this`root, this`live, live
    {
      && multiset(live) == Bag(s)
      && Refs(s) <= live
      && Rep(s, null)
      && s.node == root
      && RootOk(s)
      && Entries(s) == es
      && Leaves(s) == ls
    }

    lemma Finish(c: Ctx, x: Tree, h: nat)
      requires Above(c, x) && OkCtx(c, h) && FitsHole(c, x, h) && Rep(x, CtxNode(c))
      ensures Whole(Plug(c, x), EntriesWith(c, Entries(x)), LeavesWith(c, Leaves(x)))
    {
      hide RootOk, Rep, FitsHole, OkCtx, Entries, Leaves;
      Installed(c, x, h);
      assert forall r | r in Refs(Plug(c, x)) :: r in multiset(live);
    }

    constructor ()
      ensures Valid() && Map() == map[] && size == 0 && fresh(live)
    {
      size := 0;
      var n := new BNode(null, true);
      n.child := n.child + [null];
      root := n;
      tmpIdx := seq(M, _ => 0);
      shape := Leaf(n, [], []);
      live := {n};
      new;
      assert n.child == Nulls(1);
      ChainOfOne(n);
      assert Struct(shape, 0, 0.0, 1.0) && Sized(shape, true);
    }

    /** `delete n`: the node is gone, and its fields can no longer be relied on. */
    method Delete(n: BNode)
      requires n in live
      modifies this`live, n`key, n`child, n`parent
      ensures live == old(live) - {n}
    {
      live := live - {n};
      n.key, n.child, n.parent := *, *, *;
    }

    // ----- underflow of inner nodes -----

    /** `x.node` has lost a child to a merge: key `slot` and child `slot + 1`, which `x` no longer
        has, are still in its vectors, and `x` may have too few keys. */
    ghost predicate Shrunk(idx: seq<nat>, c: Ctx, x: Tree, h: nat)
      reads this`root, this`live, live
    {
      && Above(c, x) && OkCtx(c, h)
      && |idx| > 0 && idx[..|idx| - 1] == Path(c) && RepMinus(x, idx[|idx| - 1], CtxNode(c))
      && h > 0 && Struct(x, h, LoAt(c), HiAt(c)) && RegularKids(x) && |x.kids| == |x.keys| + 1
      && (if c.Top? then 0 else 1) <= |x.keys| < M - 1
    }

    ghost predicate Underfull(hot: BNode, hotIdx: seq<nat>, c: Ctx, x: Tree, h: nat)
      reads this`root, this`live, live
    {
      c.Frame? && x.node == hot && |x.keys| == 1 && Shrunk(hotIdx, c, x, h)
    }

    /** The surroundings of the underfull node, seen from its parent. */
    lemma UnderfullParent(hot: BNode, hotIdx: seq<nat>, c: Ctx, x: Tree, h: nat)
      requires Underfull(hot, hotIdx, c, x, h)
      ensures c.Frame?
      ensures hot.parent == c.t.node && c.t.node in CtxRefs(c)
      ensures c.t.node.key == c.t.keys && c.t.node.child == NodesOf(c.t.kids)
      ensures c.i > 0 ==> c.t.kids[c.i - 1].node.key == c.t.kids[c.i - 1].keys
      ensures c.i + 1 < |c.t.kids| ==> c.t.kids[c.i + 1].node.key == c.t.kids[c.i + 1].keys
      ensures c.t.kids[c.i].node == hot
      ensures |hotIdx| >= 2 && hotIdx[|hotIdx| - 2] == c.i < |c.t.kids| && |c.t.kids| >= 2
      ensures WellFormed(c) && hotIdx[..|hotIdx| - 2] == Path(c.up) && hotIdx[..|hotIdx| - 1] == Path(c.up) + [c.i]
    {
      hide Num, NulFree, Struct, Entries, Leaves, Bag, BagOf, Body, OkCtx, BagAround, RegularKids, RepMinus, LoAt,
        HiAt, CtxRoot, RepAll;
      FrameFacts(c, h);
      ParentOfMinus(x, hotIdx[|hotIdx| - 1], CtxNode(c));
      SiblingKeys(c, x);
    }

    lemma SiblingKeys(c: Ctx, x: Tree)
      requires c.Frame? && WellFormed(c) && RepCtx(c, x.node) && |c.t.kids| == |c.t.keys| + 1
      ensures c.i > 0 ==> c.t.kids[c.i - 1].node.key == c.t.kids[c.i - 1].keys
      ensures c.i + 1 < |c.t.kids| ==> c.t.kids[c.i + 1].node.key == c.t.kids[c.i + 1].keys
    {
      hide Num, NulFree, Struct, Entries, Leaves, Bag, BagOf, Body, RepAll;
      if c.i > 0 {
        SpreadPrev(c.t, c.i, x, CtxNode(c.up));
        BodyKeys(c.t.kids[c.i - 1]);
      }
      if c.i + 1 < |c.t.kids| {
        SpreadNext(c.t, c.i, x, CtxNode(c.up));
        BodyKeys(c.t.kids[c.i + 1]);
      }
    }

    /** The underfull node's parent `q`, all above it, and the pair at `j` below it. */
    lemma UnderfullReady(hot: BNode, hotIdx: seq<nat>, c: Ctx, x: Tree, h: nat, j: nat)
      requires Underfull(hot, hotIdx, c, x, h) && j + 1 < |c.t.kids| && (j == c.i || j + 1 == c.i)
      ensures var q := SetKid(c.t, c.i, x);
              && PairReady(q, j, h + 1, LoAt(c.up), HiAt(c.up))
              && Above(c.up, q) && x.node == c.t.kids[c.i].node
              && RepAround(q, j, j + 2, CtxNode(c.up))
              && Rep(q.kids[if j == c.i then j + 1 else j], q.node) && RepMinus(x, hotIdx[|hotIdx| - 1], q.node)
      ensures var q := SetKid(c.t, c.i, x);
              && EntriesWith(c, Entries(x)) == EntriesWith(c.up, Entries(q))
              && LeavesWith(c, Leaves(x)) == LeavesWith(c.up, Leaves(q))
    {
      hide Struct, Bag, BagOf, Entries, Leaves, EntriesWith, LeavesWith, Num, NulFree, Body, InnerApart, PairAt;
      var q := SetKid(c.t, c.i, x);
      PairUp(c, x, h, j, live);
      UpFolds(c, x);
      AboveParent(c, x);
      if j == c.i {
        SpreadNext(c.t, c.i, x, CtxNode(c.up));
      } else {
        SpreadPrev(c.t, c.i, x, CtxNode(c.up));
      }
    }

    lemma AboveParent(c: Ctx, x: Tree)
      requires c.Frame? && Above(c, x)
      ensures Above(c.up, SetKid(c.t, c.i, x))
    {
      hide Bag, BagOf, RepAround, BagAround, EntriesWith, LeavesWith;
      var q := SetKid(c.t, c.i, x);
      UpFolds(c, x);
      CtxRefsBag(c.up);
      SetsApart(BagAround(c.up), Bag(q), live);
    }

    /** "rotate 11": borrows the last child of the left sibling. */
    method RotateInnodePrev(hot: BNode, hotIdx: seq<nat>, p: BNode, rm: nat, pa: nat, ghost c: Ctx,
        ghost x: Tree, ghost h: nat)
      returns (ghost s: Tree)
      requires Underfull(hot, hotIdx, c, x, h) && p == c.t.node && p.child == NodesOf(c.t.kids)
      requires rm == hotIdx[|hotIdx| - 1] && pa == c.i > 0 && |c.t.kids[c.i - 1].keys| > MIN_KEYS
      modifies live`key, live`child, live`parent
      ensures Repaired(s, c, x)
    {
      hide Struct, Bag, BagOf, Entries, Leaves, EntriesWith, LeavesWith, Num, NulFree, Body, InnerApart, RepAround,
        SetPair, RepMinus;
      ghost var j, up, q := pa - 1, c.up, SetKid(c.t, pa, x);
      UnderfullReady(hot, hotIdx, c, x, h, j);
      ShiftedRightFits(c, x, h, j);
      var prev := p.child[pa - 1];
      RotateKidFromPrev(q, j, hot, prev, p, rm, pa, CtxNode(up), Refs(q));
      ghost var q' := SetPair(q, j, ShiftRight(q.kids[j], q.keys[j], q.kids[j + 1]));
      s := Plug(up, q');
      Finish(up, q', h + 1);
    }

    /** "rotate 12": borrows the first child of the right sibling. */
    method RotateInnodeNext(hot: BNode, hotIdx: seq<nat>, p: BNode, rm: nat, pa: nat, ghost c: Ctx,
        ghost x: Tree, ghost h: nat)
      returns (ghost s: Tree)
      requires Underfull(hot, hotIdx, c, x, h) && p == c.t.node && p.child == NodesOf(c.t.kids)
      requires rm == hotIdx[|hotIdx| - 1] && pa == c.i && pa + 1 < |c.t.kids| && |c.t.kids[c.i + 1].keys| > MIN_KEYS
      modifies live`key, live`child, live`parent
      ensures Repaired(s, c, x)
    {
      hide Struct, Bag, BagOf, Entries, Leaves, EntriesWith, LeavesWith, Num, NulFree, Body, InnerApart, RepAround,
        SetPair, RepMinus;
      ghost var j, up, q := pa, c.up, SetKid(c.t, pa, x);
      UnderfullReady(hot, hotIdx, c, x, h, j);
      ShiftedLeftFits(c, x, h, j);
      var next := p.child[pa + 1];
      RotateKidFromNext(q, j, hot, next, p, rm, pa, CtxNode(up), Refs(q));
      ghost var q' := SetPair(q, j, ShiftLeft(q.kids[j], q.keys[j], q.kids[j + 1]));
      s := Plug(up, q');
      Finish(up, q', h + 1);
    }

    /** `c.t` has lost child `j + 1` to a merge of its children `j` and `j + 1`, one of them `x`. */
    ghost predicate MergedAt(c: Ctx, x: Tree, h: nat, j: nat, q: Tree)
      reads this`root, this`live, live
    {
      && c.Frame? && WellFormed(c) && j < |c.t.kids| && q.Inner? && j < |q.kids|
      && Shrunk(Path(c.up) + [j], c.up, q, h + 1) && q.node == c.t.node
      && q.kids[j].node == c.t.kids[j].node
      && EntriesWith(c, Entries(x)) == EntriesWith(c.up, Entries(q))
      && LeavesWith(c, Leaves(x)) == LeavesWith(c.up, Leaves(q))
    }

    /** `q` stood in the hole, and its node `dead` has since been deleted. */
    ghost predicate AboveBut(up: Ctx, q: Tree, before: set<BNode>, dead: BNode)
      reads this`root, this`live, before
    {
      && WellFormed(up) && multiset(before) == BagAround(up) + Bag(q) && live == before - {dead}
      && CtxRefs(up) <= before && CtxRefs(up) !! Refs(q)
      && RepCtx(up, q.node) && root == CtxRoot(up, q.node)
    }

    lemma AboveMerged(up: Ctx, q: Tree, j: nat, before: set<BNode>, dead: BNode)
      requires PairAt(q, j) && AboveBut(up, q, before, dead) && dead == q.kids[j + 1].node
      ensures Merged(q, j).node == q.node && Above(up, Merged(q, j))
    {
      hide Bag, BagOf, BagAround, CtxRefs, RepCtx, CtxRoot, JoinKids, PairAt, Refs;
      MergedNode(q, j);
      MergedBag(q, j);
      MergedAbove(up, q, Merged(q, j), dead, before, CtxRefs(up));
    }

    /** The last steps of a merge at the node level: `dead` is empty and goes. */
    lemma MakeShrunk(c: Ctx, x: Tree, h: nat, j: nat, dead: BNode, before: set<BNode>)
      requires OkCtx(c, h) && c.Frame? && WellFormed(c) && Struct(x, h, LoAt(c), HiAt(c)) && RegularKids(x) && h > 0
      requires (j == c.i || j + 1 == c.i) && PairAt(SetKid(c.t, c.i, x), j) && x.node == c.t.kids[c.i].node
      requires |SetKid(c.t, c.i, x).kids[j].keys| + |SetKid(c.t, c.i, x).kids[j + 1].keys| == 3
      requires dead == SetKid(c.t, c.i, x).kids[j + 1].node
      requires AboveBut(c.up, SetKid(c.t, c.i, x), before, dead)
      requires RepMinus(Merged(SetKid(c.t, c.i, x), j), j, CtxNode(c.up))
      ensures MergedAt(c, x, h, j, Merged(SetKid(c.t, c.i, x), j))
    {
      hide Struct, Bag, BagOf, Entries, Leaves, EntriesWith, LeavesWith, Num, NulFree, Body, JoinKids, RepMinus,
        RegularKids, BagAround, Above, AboveBut, OkCtx, Merge;
      var q0 := SetKid(c.t, c.i, x);
      MergedFits(c, x, h, j);
      UpFolds(c, x);
      AboveMerged(c.up, q0, j, before, dead);
      FrameFacts(c, h);
      assert (Path(c.up) + [j])[..|Path(c.up) + [j]| - 1] == Path(c.up);
    }

    method MergeCorePrev(ghost q: Tree, ghost j: nat, hot: BNode, prev: BNode, p: BNode, rm: nat, pa: nat,
        ghost up: Ctx)
      requires PairAt(q, j) && q.kids[j].Inner? && InnerApart(q, j, Refs(q)) && Above(up, q)
      requires NulFreeKeys(q.kids[j + 1]) && NulFreeKeys(q.kids[j + 1].kids[0])
      requires RepAround(q, j, j + 2, CtxNode(up))
      requires p == q.node && pa == j + 1 && prev == q.kids[j].node && hot == q.kids[j + 1].node
      requires Rep(q.kids[j], p) && RepMinus(q.kids[j + 1], rm, p)
      modifies this`live, live`key, live`child, live`parent
      ensures live == old(live) - {hot}
      ensures RepMinus(Merged(q, j), j, CtxNode(up)) && RepCtx(up, p)
    {
      hide Bag, BagOf, Body, InnerApart, RepAround, PairAt, RepCtx, JoinKids, Rep, Num, NulFree, NulFreeKeys;
      MergeKidIntoPrev(q, j, hot, prev, p, rm, pa, CtxNode(up), Refs(q));
      MergedRefs(q, j, live);
      Delete(hot);
    }

    /** "merge 11": gives the children to the left sibling. */
    method MergeInnodePrev(hot: BNode, hotIdx: seq<nat>, p: BNode, rm: nat, pa: nat, ghost c: Ctx,
        ghost x: Tree, ghost h: nat)
      returns (ghost q: Tree)
      requires Underfull(hot, hotIdx, c, x, h) && p == c.t.node && p.child == NodesOf(c.t.kids)
      requires rm == hotIdx[|hotIdx| - 1] && pa == c.i > 0 && |c.t.kids[c.i - 1].keys| <= MIN_KEYS
      modifies this`live, live`key, live`child, live`parent
      ensures MergedAt(c, x, h, pa - 1, q)
      ensures hot in old(live) && live == old(live) - {hot}
    {
      hide Struct, Bag, BagOf, Entries, Leaves, EntriesWith, LeavesWith, Num, NulFree, Body, InnerApart, RepAround,
        JoinKids, RepMinus, RegularKids, BagAround, RepCtx, CtxRefs, CtxRoot;
      ghost var j, up, q0 := pa - 1, c.up, SetKid(c.t, pa, x);
      UnderfullReady(hot, hotIdx, c, x, h, j);
      FrameFacts(c, h);
      var prev := p.child[pa - 1];
      MergeCorePrev(q0, j, hot, prev, p, rm, pa, up);
      MakeShrunk(c, x, h, j, hot, old(live));
      q := Merged(q0, j);
    }

    method MergeCoreNext(ghost q: Tree, ghost j: nat, hot: BNode, next: BNode, p: BNode, rm: nat, pa: nat,
        ghost up: Ctx)
      requires PairAt(q, j) && q.kids[j].Inner? && InnerApart(q, j, Refs(q)) && Above(up, q)
      requires NulFreeKeys(q.kids[j + 1])
      requires RepAround(q, j, j + 2, CtxNode(up))
      requires p == q.node && pa == j && hot == q.kids[j].node && next == q.kids[j + 1].node
      requires RepMinus(q.kids[j], rm, p) && Rep(q.kids[j + 1], p)
      modifies this`live, live`key, live`child, live`parent
      ensures live == old(live) - {next}
      ensures RepMinus(Merged(q, j), j, CtxNode(up)) && RepCtx(up, p)
    {
      hide Bag, BagOf, Body, InnerApart, RepAround, PairAt, RepCtx, JoinKids, Rep, Num, NulFree, NulFreeKeys;
      MergeKidNext(q, j, hot, next, p, rm, pa, CtxNode(up), Refs(q));
      MergedRefs(q, j, live);
      Delete(next);
    }

    /** "merge 12": takes the children of the right sibling. */
    method MergeInnodeNext(hot: BNode, hotIdx: seq<nat>, p: BNode, rm: nat, pa: nat, ghost c: Ctx,
        ghost x: Tree, ghost h: nat)
      returns (ghost q: Tree)
      requires Underfull(hot, hotIdx, c, x, h) && p == c.t.node && p.child == NodesOf(c.t.kids)
      requires rm == hotIdx[|hotIdx| - 1] && pa == c.i && pa + 1 < |c.t.kids| && |c.t.kids[c.i + 1].keys| <= MIN_KEYS
      modifies this`live, live`key, live`child, live`parent
      ensures MergedAt(c, x, h, pa, q)
      ensures var next := c.t.kids[pa + 1].node;
              next in old(live) && live == old(live) - {next}
    {
      hide Struct, Bag, BagOf, Entries, Leaves, EntriesWith, LeavesWith, Num, NulFree, Body, InnerApart, RepAround,
        JoinKids, RepMinus, RegularKids, BagAround, RepCtx, CtxRefs, CtxRoot;
      ghost var j, up, q0 := pa, c.up, SetKid(c.t, pa, x);
      UnderfullReady(hot, hotIdx, c, x, h, j);
      FrameFacts(c, h);
      KidInCtx(c, pa + 1);
      var next := p.child[pa + 1];
      MergeCoreNext(q0, j, hot, next, p, rm, pa, up);
      MakeShrunk(c, x, h, j, next, old(live));
      q := Merged(q0, j);
    }

    /** What the repair of an inner node promises. */
    ghost predicate Repaired(s: Tree, c: Ctx, x: Tree)
      reads this`root, this`live, live
    {
      WellFormed(c) && Whole(s, EntriesWith(c, Entries(x)), LeavesWith(c, Leaves(x)))
    }

    /** The end of every merge: `p` gives up the slot at the end of the path, whose child holds
        what the two children held. */
    method ParentAfterMerge(p: BNode, idx: seq<nat>, survivor: BNode, ghost c: Ctx, ghost x: Tree,
        ghost h: nat) returns (ghost s: Tree)
      requires Shrunk(idx, c, x, h) && x.node == p
      requires survivor == x.kids[idx[|idx| - 1]].node
      modifies this`root, this`live, live`key, live`child, live`parent
      ensures Repaired(s, c, x)
      ensures live <= old(live)
      decreases c, 2
    {
      hide Struct, Bag, BagOf, Entries, Leaves, EntriesWith, LeavesWith, Num, NulFree, Body, Repaired;
      ShrunkRoot(idx, c, x, h);
      if p != root && |p.key| <= MIN_KEYS {
        s := SolveUnderflowInnode(p, idx, c, x, h);
      } else if p == root && |p.key| <= 1 {
        s := ReplaceRoot(p, survivor, c, x, h);
      } else {
        s := EraseSlot(p, idx[|idx| - 1], idx, c, x, h);
      }
    }

    lemma ShrunkRoot(idx: seq<nat>, c: Ctx, x: Tree, h: nat)
      requires Shrunk(idx, c, x, h)
      ensures x.node == root <==> c.Top?
      ensures |x.node.key| == |x.keys| + 1
    {
      hide Struct, Bag, BagOf, Entries, Leaves, EntriesWith, LeavesWith, Num, NulFree, Body;
      RootInCtx(c, x.node);
    }

    /** The parent stays large enough: the slot is erased. */
    method EraseSlot(p: BNode, slot: nat, ghost idx: seq<nat>, ghost c: Ctx, ghost x: Tree,
        ghost h: nat) returns (ghost s: Tree)
      requires Shrunk(idx, c, x, h) && x.node == p && slot == idx[|idx| - 1]
      requires |x.keys| >= if c.Top? then 1 else 2
      modifies live`key, live`child
      ensures Repaired(s, c, x)
    {
      hide Struct, Bag, BagOf, Entries, Leaves, EntriesWith, LeavesWith, Num, NulFree, Body, Whole, Rep, RepMinus,
        Path, CtxRoot, BagAround, OkCtx, CtxRefs;
      EraseVectors(p, slot, c, x);
      s := Plug(c, x);
      Finish(c, x, h);
    }

    method EraseVectors(p: BNode, slot: nat, ghost c: Ctx, ghost x: Tree)
      requires Above(c, x) && RepMinus(x, slot, CtxNode(c)) && x.node == p
      modifies live`key, live`child
      ensures Above(c, x) && Rep(x, CtxNode(c))
    {
      hide Bag, BagOf, Body, CtxRoot, BagAround, CtxRefs, RepCtx;
      KidsOnce(x, live);
      p.key := RemoveAt(p.key, slot);
      p.child := RemoveAt(p.child, slot + 1);
      RepInner(x, CtxNode(c));
    }

    method SolveUnderflowInnode(hot: BNode, hotIdx: seq<nat>, ghost c: Ctx, ghost x: Tree,
        ghost h: nat) returns (ghost s: Tree)
      requires Underfull(hot, hotIdx, c, x, h)
      modifies this`root, this`live, live`key, live`child, live`parent
      ensures Repaired(s, c, x)
      ensures live <= old(live)
      decreases c, 1
    {
      hide Underfull, Whole, Bag, Entries, Leaves, EntriesWith, LeavesWith, Shrunk, Above;
      UnderfullParent(hot, hotIdx, c, x, h);
      var rm := hotIdx[|hotIdx| - 1];
      var pa := hotIdx[|hotIdx| - 2];
      var p := hot.parent;
      if pa > 0 && |p.child[pa - 1].key| >= (M + 1) / 2 {
        s := RotateInnodePrev(hot, hotIdx, p, rm, pa, c, x, h);
      } else if pa < |p.child| - 1 && |p.child[pa + 1].key| >= (M + 1) / 2 {
        s := RotateInnodeNext(hot, hotIdx, p, rm, pa, c, x, h);
      } else if pa > 0 {
        s := MergeUpPrev(hot, hotIdx, p, rm, pa, c, x, h);
      } else {
        s := MergeUpNext(hot, hotIdx, p, rm, pa, c, x, h);
      }
    }

    /** "merge 11" and what follows at the parent. */
    method MergeUpPrev(hot: BNode, hotIdx: seq<nat>, p: BNode, rm: nat, pa: nat, ghost c: Ctx, ghost x: Tree,
        ghost h: nat)
      returns (ghost s: Tree)
      requires Underfull(hot, hotIdx, c, x, h) && p == c.t.node && p.child == NodesOf(c.t.kids)
      requires rm == hotIdx[|hotIdx| - 1] && pa == c.i > 0 && |c.t.kids[c.i - 1].keys| <= MIN_KEYS
      requires |hotIdx| >= 2 && hotIdx[..|hotIdx| - 2] == Path(c.up) && c.i < |c.t.kids|
      modifies this`root, this`live, live`key, live`child, live`parent
      ensures Repaired(s, c, x)
      ensures live <= old(live)
      decreases c, 0
    {
      hide Underfull, Whole, Bag, Entries, Leaves, EntriesWith, LeavesWith, Shrunk, Above;
      var prev := p.child[pa - 1];
      ghost var q := MergeInnodePrev(hot, hotIdx, p, rm, pa, c, x, h);
      s := ParentAfterMerge(p, hotIdx[..|hotIdx| - 2] + [pa - 1], prev, c.up, q, h + 1);
    }

    /** "merge 12" and what follows at the parent. */
    method MergeUpNext(hot: BNode, hotIdx: seq<nat>, p: BNode, rm: nat, pa: nat, ghost c: Ctx, ghost x: Tree,
        ghost h: nat)
      returns (ghost s: Tree)
      requires Underfull(hot, hotIdx, c, x, h) && p == c.t.node && p.child == NodesOf(c.t.kids)
      requires rm == hotIdx[|hotIdx| - 1] && pa == c.i && pa + 1 < |c.t.kids| && |c.t.kids[c.i + 1].keys| <= MIN_KEYS
      requires |hotIdx| >= 2 && hotIdx[..|hotIdx| - 1] == Path(c.up) + [c.i] && c.t.kids[c.i].node == hot
      modifies this`root, this`live, live`key, live`child, live`parent
      ensures Repaired(s, c, x)
      ensures live <= old(live)
      decreases c, 0
    {
      hide Underfull, Whole, Bag, Entries, Leaves, EntriesWith, LeavesWith, Shrunk, Above;
      ghost var q := MergeInnodeNext(hot, hotIdx, p, rm, pa, c, x, h);
      s := ParentAfterMerge(p, hotIdx[..|hotIdx| - 1], hot, c.up, q, h + 1);
    }

    /** The root has one child left, which becomes the root. */
    method ReplaceRoot(p: BNode, survivor: BNode, ghost c: Ctx, ghost x: Tree, ghost h: nat) returns (ghost s: Tree)
      requires Above(c, x) && c.Top? && x.node == p && x.Inner? && |x.keys| == 0 && |x.kids| == 1
        && survivor == x.kids[0].node
      requires h > 0 && Struct(x, h, 0.0, 1.0) && RegularKids(x) && RepAll(x.kids, p)
      modifies this`root, this`live, live`key, live`child, live`parent
      ensures Repaired(s, c, x)
      ensures live <= old(live)
    {
      hide Struct, Bag, BagOf, Entries, Leaves, Num, NulFree, Body, RootOk;
      s := x.kids[0];
      ReplacedRoot(x, h);
      OnlyKid(x, live);
      assert Body(s) && s.node !in Below(s);
      survivor.parent := null;
      root := survivor;
      Delete(p);
      RootOkFrom(s, h - 1);
      assert EntriesWith(c, Entries(x)) == Entries(x) && LeavesWith(c, Leaves(x)) == Leaves(x);
    }

    // ----- overflow of inner nodes -----

    ghost predicate RepairedWith(s: Tree, c: Ctx, es: seq<Entry>, ls: seq<BNode>)
      reads this`root, this`live, live
    {
      WellFormed(c) && Whole(s, EntriesWith(c, es), LeavesWith(c, ls))
    }

    /** `x.node` is about to get key `slot` and child `slot + 1` of `x`, which may be one too many. */
    ghost predicate Grown(idx: seq<nat>, c: Ctx, x: Tree, h: nat)
      reads this`root, this`live, live
    {
      && Above(c, x) && OkCtx(c, h)
      && |idx| > 0 && idx[..|idx| - 1] == Path(c) && RepPlus(x, idx[|idx| - 1], CtxNode(c))
      && h > 0 && Struct(x, h, LoAt(c), HiAt(c)) && RegularKids(x) && |x.kids| == |x.keys| + 1
      && (if c.Top? then 2 else 3) <= |x.keys| <= M
    }

    /** The node in the hole has been split into `r.0`, still in its place, and the new `r.2`. */
    ghost predicate Halved(c: Ctx, r: Triple, h: nat)
      reads this`root, this`live, live
    {
      && OkCtx(c, h) && WellFormed(c) && multiset(live) == BagAround(c) + (Bag(r.0) + Bag(r.2))
      && Refs(r.0) + Refs(r.2) <= live && CtxRefs(c) <= live && CtxRefs(c) !! Refs(r.0) + Refs(r.2)
      && RepCtx(c, r.0.node) && root == CtxRoot(c, r.0.node)
      && Rep(r.0, CtxNode(c)) && Rep(r.2, CtxNode(c))
      && Siblings(r.0, r.1, r.2, h, LoAt(c), HiAt(c)) && Arity(r.0) && Arity(r.2)
      && (c.Frame? && h == 0 && c.i > 0 ==> r.0.keys[0] == c.t.keys[c.i - 1])
    }

    /** The end of every split: the parent takes the separator and the right half, or a new root does. */
    method AfterSplit(hot: BNode, u: BNode, key: Key, hotIdx: seq<nat>, ghost c: Ctx, ghost r: Triple, ghost h: nat)
      returns (ghost s: Tree)
      requires Halved(c, r, h) && hot == r.0.node && u == r.2.node && key == r.1
      requires |hotIdx| > 0 && hotIdx[..|hotIdx| - 1] == Path(c) && |tmpIdx| == M
      modifies this`root, this`live, this`tmpIdx, live`key, live`child, live`parent
      ensures RepairedWith(s, c, Entries(r.0) + Entries(r.2), Leaves(r.0) + Leaves(r.2))
      ensures |tmpIdx| == M && live >= old(live) && fresh(live - old(live))
      decreases c, 2
    {
      hide Halved, RepairedWith;
      HalvedNode(c, r, h);
      if hot.parent == null {
        s := GrowRoot(hot, u, key, c, r, h);
      } else {
        s := GrowParent(hot.parent, u, key, hotIdx, c, r, h);
      }
    }

    lemma HalvedBodies(c: Ctx, r: Triple, h: nat)
      requires Halved(c, r, h)
      ensures NulFree(r.1) && Body(r.0) && Body(r.2) && Refs(r.0) + Refs(r.2) <= live
      ensures c.Top? ==> Siblings(r.0, r.1, r.2, h, 0.0, 1.0) && Arity(r.0) && Arity(r.2)
      ensures c.Top? ==> multiset(live) == Bag(r.0) + Bag(r.2)
    {
      hide Bag, BagOf, OkCtx, CtxRefs, RepCtx, CtxRoot, Arity, Body, NulFree;
      assert c.Top? ==> BagAround(c) == multiset{};
    }

    lemma HalvedNode(c: Ctx, r: Triple, h: nat)
      requires Halved(c, r, h)
      ensures r.0.node in live && r.0.node.parent == CtxNode(c)
    {
      hide Bag, BagOf, BagAround, OkCtx, CtxRefs, RepCtx, CtxRoot, Siblings, Arity, Body;
    }

    method GrowParent(p: BNode, u: BNode, key: Key, hotIdx: seq<nat>, ghost c: Ctx, ghost r: Triple, ghost h: nat)
      returns (ghost s: Tree)
      requires Halved(c, r, h) && u == r.2.node && key == r.1 && c.Frame? && p == c.t.node
      requires |hotIdx| > 0 && hotIdx[..|hotIdx| - 1] == Path(c) && |tmpIdx| == M
      modifies this`root, this`live, this`tmpIdx, live`key, live`child, live`parent
      ensures RepairedWith(s, c, Entries(r.0) + Entries(r.2), Leaves(r.0) + Leaves(r.2))
      ensures |tmpIdx| == M && live >= old(live) && fresh(live - old(live))
      decreases c, 1
    {
      hide Halved, Grown, Entries, Leaves, Bag, Whole, EntriesWith, LeavesWith, Struct;
      HalvedParent(c, r, h, hotIdx);
      ghost var q := SplitKid(c.t, c.i, r);
      UpSplitEntries(c, r);
      UpSplitLeaves(c, r);
      if !p.IsFull() {
        s := InsertSlot(p, hotIdx[|hotIdx| - 2], key, u, hotIdx[..|hotIdx| - 1], c.up, q, h + 1);
      } else {
        s := SolveOverflowInnode(key, u, p, hotIdx[..|hotIdx| - 1], c.up, q, h + 1);
      }
    }

    lemma HalvedParent(c: Ctx, r: Triple, h: nat, hotIdx: seq<nat>)
      requires Halved(c, r, h) && c.Frame? && |hotIdx| > 0 && hotIdx[..|hotIdx| - 1] == Path(c)
      ensures WellFormed(c) && |hotIdx| >= 2 && hotIdx[|hotIdx| - 2] == c.i && c.t.node in live
        && c.t.node.key == c.t.keys
      ensures var q := SplitKid(c.t, c.i, r);
              && Grown(hotIdx[..|hotIdx| - 1], c.up, q, h + 1) && q.Inner? && |q.keys| == |c.t.keys| + 1 <= M
              && |q.kids| == |q.keys| + 1
              && q.node == c.t.node && q.keys[c.i] == r.1 && q.kids[c.i + 1] == r.2
    {
      hide Struct, Bag, BagOf, SplitKid, Siblings, Num, NulFree, Arity, BagAround, RegularKids, RepAround, RepPlus,
        Above, Rep, Halved, Path, RegularBut, EntriesWith, LeavesWith;
      HalvedCtx(c, r, h);
      FrameFacts(c, h);
      HalvedAbove(c, r, h);
      HalvedStruct(c, r, h);
      AssembleSplit(c.t, c.i, r, CtxNode(c.up));
      SplitRegular(c.t, c.i, r);
      PathUp(c, hotIdx);
    }

    lemma HalvedCtx(c: Ctx, r: Triple, h: nat)
      requires Halved(c, r, h) && c.Frame?
      ensures OkCtx(c, h) && OkCtx(c.up, h + 1) && WellFormed(c) && Arity(r.0) && Arity(r.2)
      ensures RepAround(c.t, c.i, c.i + 1, CtxNode(c.up)) && r.0.node == c.t.kids[c.i].node
        && Rep(r.0, c.t.node) && Rep(r.2, c.t.node)
    {
      hide Struct, Bag, BagOf, Siblings, Num, NulFree, Arity, Body, BagAround, RepAround, CtxRefs;
    }

    lemma HalvedAbove(c: Ctx, r: Triple, h: nat)
      requires Halved(c, r, h) && c.Frame?
      ensures WellFormed(c) && SplitKid(c.t, c.i, r).node == c.t.node && c.t.node in live && c.t.node.key == c.t.keys
      ensures Above(c.up, SplitKid(c.t, c.i, r))
    {
      hide Struct, Bag, BagOf, Siblings, Num, NulFree, Arity, Body, BagAround;
      UpSplitBag(c, r);
      CtxRefsBag(c.up);
      SetsApart(BagAround(c.up), Bag(SplitKid(c.t, c.i, r)), live);
    }

    lemma HalvedStruct(c: Ctx, r: Triple, h: nat)
      requires Halved(c, r, h) && c.Frame?
      ensures WellFormed(c) && Struct(SplitKid(c.t, c.i, r), h + 1, LoAt(c.up), HiAt(c.up))
    {
      hide Struct, Bag, BagOf, SplitKid, Num, NulFree, Body, Arity, BagAround, CtxRefs, RepCtx;
      SplitKidStruct(c.t, c.i, r, h + 1, LoAt(c.up), HiAt(c.up));
    }

    /** The parent has room: it takes the separator and the right half. */
    method InsertSlot(p: BNode, pa: nat, key: Key, u: BNode, ghost idx: seq<nat>, ghost c: Ctx, ghost x: Tree,
        ghost h: nat)
      returns (ghost s: Tree)
      requires Grown(idx, c, x, h) && x.node == p && pa == idx[|idx| - 1] && |x.keys| < M
      requires key == x.keys[pa] && u == x.kids[pa + 1].node
      modifies live`key, live`child
      ensures RepairedWith(s, c, Entries(x), Leaves(x))
    {
      hide Struct, Bag, BagOf, Entries, Leaves, EntriesWith, LeavesWith, Num, NulFree, Body, Whole, Rep, RepPlus,
        Path, CtxRoot, BagAround, OkCtx, CtxRefs;
      KeysNulFree(x, h, LoAt(c), HiAt(c));
      InsertVectors(p, pa, key, u, c, x);
      s := Plug(c, x);
      Finish(c, x, h);
    }

    method InsertVectors(p: BNode, pa: nat, key: Key, u: BNode, ghost c: Ctx, ghost x: Tree)
      requires Above(c, x) && RepPlus(x, pa, CtxNode(c)) && x.node == p && NulFreeKeys(x)
      requires key == x.keys[pa] && u == x.kids[pa + 1].node
      modifies live`key, live`child
      ensures Above(c, x) && Rep(x, CtxNode(c))
    {
      hide Bag, BagOf, Body, CtxRoot, BagAround, CtxRefs, RepCtx, NulFree;
      KidsOnce(x, live);
      InsertRemove(x.keys, pa);
      InsertRemove(NodesOf(x.kids), pa + 1);
      p.key := InsertAt(p.key, pa, CStr(key));
      p.child := InsertAt(p.child, pa + 1, u);
      RepInner(x, CtxNode(c));
    }

    lemma OverfullReady(hotIdx: seq<nat>, c: Ctx, x: Tree, h: nat)
      requires Grown(hotIdx, c, x, h) && |x.keys| == M
      ensures var lf := hotIdx[|hotIdx| - 1];
              CanSplit(x, lf, x.keys[lf], x.kids[lf + 1].node, CtxNode(c), Refs(x)) && lf < M
      ensures x.Inner? && Refs(x) <= live && CtxRefs(c) <= live && CtxRefs(c) !! Refs(x) && RepCtx(c, x.node)
        && x.node.parent == CtxNode(c)
    {
      hide Struct, Bag, BagOf, Num, NulFree, Body, BagAround, OkCtx, CtxRoot, RepCtx;
      KidsOnce(x, live);
      RootsAreApart(x.kids);
      KeysNulFree(x, h, LoAt(c), HiAt(c));
    }

    method SplitCore(ghost x: Tree, hot: BNode, lf: nat, key: Key, cn: BNode, ghost c: Ctx) returns (u: BNode, mid: Key)
      requires CanSplit(x, lf, key, cn, CtxNode(c), Refs(x)) && hot == x.node && lf < M == |tmpIdx|
      requires WellFormed(c) && Refs(x) <= live && CtxRefs(c) <= live && CtxRefs(c) !! Refs(x) && RepCtx(c, hot)
        && hot.parent == CtxNode(c)
      modifies this`live, this`tmpIdx, live`key, live`child, live`parent
      ensures fresh(u) && live == old(live) + {u} && |tmpIdx| == M && |x.keys| == M && Lengths(x)
        && mid == Divide(x, u).1
      ensures Rep(Divide(x, u).0, CtxNode(c)) && Rep(Divide(x, u).2, CtxNode(c)) && RepCtx(c, hot)
    {
      hide Bag, BagOf, Num, NulFree, Body, RepCtx, CanSplit, Rep, Divide, BagAround, CtxRefs;
      tmpIdx := FillTmp(tmpIdx, lf);
      u := new BNode(hot.parent, false);
      mid := SplitInnode(x, hot, u, tmpIdx, lf, key, cn, CtxNode(c), Refs(x));
      live := live + {u};
    }

    lemma MakeHalved(c: Ctx, x: Tree, h: nat, u: BNode, before: set<BNode>)
      requires OkCtx(c, h) && WellFormed(c) && multiset(before) == BagAround(c) + Bag(x) && live == before + {u}
        && u !in before
      requires CtxRefs(c) <= before && RepCtx(c, x.node) && root == CtxRoot(c, x.node)
      requires |x.keys| == M && Lengths(x) && Struct(x, h, LoAt(c), HiAt(c)) && RegularKids(x)
      requires c.Frame? && h == 0 && c.i > 0 ==> x.keys[0] == c.t.keys[c.i - 1]
      requires Rep(Divide(x, u).0, CtxNode(c)) && Rep(Divide(x, u).2, CtxNode(c))
      ensures Halved(c, Divide(x, u), h)
      ensures Entries(Divide(x, u).0) + Entries(Divide(x, u).2) == Entries(x)
      ensures x.Inner? ==> Leaves(Divide(x, u).0) + Leaves(Divide(x, u).2) == Leaves(x)
      ensures x.Leaf? ==> Leaves(Divide(x, u).0) + Leaves(Divide(x, u).2) == [x.node, u]
    {
      hide Struct, Bag, BagOf, Num, NulFree, Body, BagAround, OkCtx, CtxRoot, CtxRefs, Rep, RepCtx, Siblings, Entries;
      var r := Divide(x, u);
      DivideContents(x, u);
      CtxRefsBag(c);
      HalvedSets(BagAround(c), Bag(x), Bag(r.0), Bag(r.2), u, before);
      if x.Leaf? {
        LeafHeight(x, h, LoAt(c), HiAt(c));
        DivideLeaf(x, u, LoAt(c), HiAt(c));
      } else {
        LeafHeight(x, h, LoAt(c), HiAt(c));
        DivideInner(x, u, h, LoAt(c), HiAt(c));
      }
    }

    /** Splits the full node `hot`, to which `key` and the child `cn` on its right have to be added. */
    method SolveOverflowInnode(key: Key, cn: BNode, hot: BNode, hotIdx: seq<nat>, ghost c: Ctx, ghost x: Tree,
        ghost h: nat)
      returns (ghost s: Tree)
      requires Grown(hotIdx, c, x, h) && x.node == hot && |x.keys| == M && |tmpIdx| == M
      requires key == x.keys[hotIdx[|hotIdx| - 1]] && cn == x.kids[hotIdx[|hotIdx| - 1] + 1].node
      modifies this`root, this`live, this`tmpIdx, live`key, live`child, live`parent
      ensures RepairedWith(s, c, Entries(x), Leaves(x))
      ensures |tmpIdx| == M && live >= old(live) && fresh(live - old(live))
      decreases c, 3
    {
      hide Struct, Bag, BagOf, Num, NulFree, Body, BagAround, OkCtx, RepCtx, Siblings, Entries, Leaves, CanSplit,
        Halved, EntriesWith, LeavesWith, Whole, RepPlus, Rep;
      OverfullReady(hotIdx, c, x, h);
      var u, mid := SplitCore(x, hot, hotIdx[|hotIdx| - 1], key, cn, c);
      MakeHalved(c, x, h, u, old(live));
      s := AfterSplit(hot, u, mid, hotIdx, c, Divide(x, u), h);
    }

    /** The split node was the root: a new root gets the two halves. */
    method GrowRoot(hot: BNode, u: BNode, key: Key, ghost c: Ctx, ghost r: Triple, ghost h: nat) returns (ghost s: Tree)
      requires Halved(c, r, h) && hot == r.0.node && u == r.2.node && key == r.1 && c.Top?
      modifies this`root, this`live, live`parent
      ensures RepairedWith(s, c, Entries(r.0) + Entries(r.2), Leaves(r.0) + Leaves(r.2))
      ensures live >= old(live) && fresh(live - old(live))
    {
      hide Bag, BagOf, NulFree, Body, Entries, Leaves, Arity, Siblings, RootOk, Halved, EntriesWith, LeavesWith,
        Rep, Refs, Below;
      HalvedBodies(c, r, h);
      HalvesApart(r.0, r.2, live);
      var p := LinkPair(hot, u, key, r, live);
      root := p;
      live := live + {p};
      s := Pair(p, r);
      NewRoot(p, r, h, old(live));
      TopFolds(c, Entries(s), Leaves(s));
    }

    // ----- leaves -----

    /** `x` is the leaf in the hole of `c`, and the leaves are chained. */
    ghost predicate AtLeaf(c: Ctx, x: Tree)
      reads this`root, this`live, live
    {
      && Above(c, x) && OkCtx(c, 0) && x.Leaf? && FitsHole(c, x, 0) && Rep(x, CtxNode(c))
      && LeavesIn(LeavesWith(c, [x.node])) && Chain(LeavesWith(c, [x.node]))
    }

    ghost predicate LeavesIn(ls: seq<BNode>)
      reads this`live
    {
      forall n | n in ls :: n in live
    }

    /** Which leaves hang beside the leaf in the hole, and that the chain's others hang elsewhere. */
    lemma LeafSides(c: Ctx, x: Tree)
      requires AtLeaf(c, x)
      ensures WellFormed(c) && x.node.parent == CtxNode(c)
      ensures if c.Frame? && c.i > 0 then x.node.prev == c.t.kids[c.i - 1].node
              else x.node.prev == null || (x.node.prev in live && x.node.prev.parent != CtxNode(c))
      ensures if c.Frame? && c.i + 1 < |c.t.kids| then x.node.next == c.t.kids[c.i + 1].node
              else x.node.next == null || (x.node.next in live && x.node.next.parent != CtxNode(c))
    {
      hide Struct, Bag, BagOf, Num, NulFree, Body, LeavesOf, Above, RepAround;
      assert WellFormed(c);
      LinkedMiddle(LeavesBefore(c), x.node, LeavesAfter(c));
      if c.Frame? {
        LeafSiblings(c);
        LeafSidesUp(c, x);
        if c.i > 0 {
          PrevLeaf(c);
        }
        if c.i + 1 < |c.t.kids| {
          NextLeaf(c);
        }
      }
    }

    lemma LeafSidesUp(c: Ctx, x: Tree)
      requires AtLeaf(c, x) && c.Frame? && WellFormed(c)
      ensures c.i == 0 && LeavesBefore(c) != []
              ==> var n := Final(null, LeavesBefore(c)); n != null && n in live && n.parent != c.t.node
      ensures c.i + 1 == |c.t.kids| && LeavesAfter(c) != []
              ==> var n := First(LeavesAfter(c), null); n != null && n in live && n.parent != c.t.node
    {
      hide Struct, Bag, BagOf, Num, NulFree, Body, Linked, Chain, FitsHole, RepAround, BagAround;
      AboveParent(c, x);
      assert c.t.node !in CtxRefs(c.up) by {
        assert c.t.node in Refs(SetKid(c.t, c.i, x));
      }
      if c.i == 0 && LeavesBefore(c) != [] {
        assert LeavesOf(c.t.kids[..0]) == [];
        OuterLeaf(c.up, 1, c.t.node, LeavesBefore(c)[|LeavesBefore(c)| - 1]);
      }
      if c.i + 1 == |c.t.kids| && LeavesAfter(c) != [] {
        assert LeavesOf(c.t.kids[c.i + 1..]) == [];
        OuterLeaf(c.up, 1, c.t.node, LeavesAfter(c)[0]);
      }
    }

    lemma AboveLeaf(c: Ctx, x: Tree, y: Tree)
      requires AtLeaf(c, x) && y.Leaf? && y.node == x.node
      ensures WellFormed(c) && OkCtx(c, 0) && Above(c, y) && x.Leaf? && (c.Frame? ==> c.t.Inner? && c.i < |c.t.kids|)
    {
      hide Bag, BagOf, OkCtx, FitsHole, Rep, RepCtx, BagAround, CtxRefs, CtxRoot, Chain, LeavesWith;
      LeafBags(x, y);
    }

    lemma LeafPairApart(c: Ctx, x: Tree, y: Tree, j: nat)
      requires AtLeaf(c, x) && c.Frame? && y.Leaf? && Lengths(y) && |y.keys| > 0 && y.node == x.node
      requires j + 1 < |c.t.kids| && (j == c.i || j + 1 == c.i)
      ensures var q := SetKid(c.t, c.i, y);
              && PairAt(q, j) && Above(c.up, q) && q.kids[j].Leaf? && LeafApart(q, j, Refs(q))
              && AroundRefs(q, j, j + 2) <= Refs(q)
              && EntriesWith(c, Entries(y)) == EntriesWith(c.up, Entries(q))
              && LeavesWith(c, [x.node]) == LeavesWith(c.up, Leaves(q))
    {
      hide Bag, BagOf, Entries, Leaves, EntriesWith, LeavesWith, LeafApart, BagAround, AtLeaf, OkCtx, PairAt,
        CtxRefs, CtxRoot, RepCtx, Refs, RefsOf, AroundRefs;
      AboveLeaf(c, x, y);
      var q := SetKid(c.t, c.i, y);
      LeafPairAt(c, y, j);
      LeafBags(x, y);
      UpFolds(c, y);
      AboveParent(c, y);
      BagIsRefs(q, BagAround(c.up), live);
      LeavesAreApart(q, j, Refs(q));
      AroundInRefs(q, j);
    }

    /** A leaf whose contents are to become `y`, and the leaf on its left. */
    lemma LeafPairPrev(c: Ctx, x: Tree, y: Tree)
      requires AtLeaf(c, x) && c.Frame? && y.Leaf? && Lengths(y) && |y.keys| > 0 && y.node == x.node && c.i > 0
      ensures var q := SetKid(c.t, c.i, y);
              PairAt(q, c.i - 1) && LeafPair(q, c.i - 1, q.kids[c.i - 1], x, CtxNode(c.up), Refs(q))
    {
      hide Struct, Bag, BagOf, Entries, Leaves, EntriesWith, LeavesWith, Num, NulFree, Body, LeafApart, RepAround,
        PairAt, Above, AtLeaf, AroundRefs;
      AtLeafParts(c, x);
      LeafPairApart(c, x, y, c.i - 1);
      LeafFacts(c, x);
      LeafSiblings(c);
      SpreadPrev(c.t, c.i, y, CtxNode(c.up));
    }

    /** A leaf whose contents are to become `y`, and the leaf on its right. */
    lemma LeafPairNext(c: Ctx, x: Tree, y: Tree)
      requires AtLeaf(c, x) && c.Frame? && y.Leaf? && Lengths(y) && |y.keys| > 0 && y.node == x.node
        && c.i + 1 < |c.t.kids|
      ensures var q := SetKid(c.t, c.i, y);
              PairAt(q, c.i) && LeafPair(q, c.i, x, q.kids[c.i + 1], CtxNode(c.up), Refs(q))
    {
      hide Struct, Bag, BagOf, Entries, Leaves, EntriesWith, LeavesWith, Num, NulFree, Body, LeafApart, RepAround,
        PairAt, Above, AtLeaf, AroundRefs;
      AtLeafParts(c, x);
      LeafPairApart(c, x, y, c.i);
      LeafFacts(c, x);
      LeafSiblings(c);
      SpreadNext(c.t, c.i, y, CtxNode(c.up));
    }

    lemma AtLeafParts(c: Ctx, x: Tree)
      requires AtLeaf(c, x)
      ensures WellFormed(c) && OkCtx(c, 0) && x.Leaf? && FitsHole(c, x, 0) && Rep(x, CtxNode(c))
      ensures c.Frame? ==> RepAround(c.t, c.i, c.i + 1, CtxNode(c.up)) && c.t.kids[c.i].node == x.node
    {
      hide Struct, Bag, BagOf, Num, NulFree, Body, FitsHole, RepAround, BagAround, Chain, CtxRefs, OkCtx;
    }

    /** What the operations on a leaf promise: its entries are now `es`, and all others are kept. */
    ghost predicate LeafDone(s: Tree, c: Ctx, es: seq<Entry>)
      reads this`root, this`live, live
    {
      && WellFormed(c) && Whole(s, EntriesWith(c, es), Leaves(s)) && LeavesIn(Leaves(s)) && Chain(Leaves(s))
    }

    /** The parent after a repair between two leaves, put in place. */
    lemma FinishLeaf(c: Ctx, y: Tree, q: Tree, r: Tree)
      requires OkCtx(c, 0) && c.Frame? && WellFormed(c) && q == SetKid(c.t, c.i, y)
      requires Above(c.up, q) && SameFolds(q, r) && FitsHole(c.up, r, 1) && Rep(r, CtxNode(c.up))
      requires EntriesWith(c, Entries(y)) == EntriesWith(c.up, Entries(q))
      requires LeavesWith(c, [y.node]) == LeavesWith(c.up, Leaves(q))
      requires LeavesIn(LeavesWith(c, [y.node])) && Chain(LeavesWith(c, [y.node]))
      ensures LeafDone(Plug(c.up, r), c, Entries(y))
    {
      hide Struct, Bag, BagOf, Entries, Leaves, EntriesWith, LeavesWith, Num, NulFree, Body, FitsHole, BagAround,
        Chain, RepCtx, Plug, CtxRefs, CtxRoot, LeavesIn;
      Finish(c.up, r, 1);
    }

    // ----- overflow of leaves -----

    /** "rotate 1": the leaf on the left takes the first entry. */
    method OverflowToPrev(hot: BNode, prev: BNode, p: BNode, lf: nat, pa: nat, key: Key, data: int,
        ghost c: Ctx, ghost x: Tree) returns (ghost s: Tree)
      requires AtLeaf(c, x) && SlotFor(x, lf, key, LoAt(c), HiAt(c)) && |x.keys| == M - 1
      requires c.Frame? && pa == c.i > 0 && p == c.t.node && hot == x.node && prev == c.t.kids[pa - 1].node
        && |c.t.kids[pa - 1].keys| < M - 1
      requires lf > 0
      modifies live`key, live`data, live`child
      ensures LeafDone(s, c, Entries(With(x, lf, key, data)))
    {
      hide Struct, Bag, BagOf, Entries, Leaves, EntriesWith, LeavesWith, Num, NulFree, Body, BagAround, Chain,
        SetPair, LeafPair, SameFolds, LoAt, HiAt, OkCtx, RepCtx, CtxRefs;
      ghost var y := With(x, lf, key, data);
      ghost var q, j := SetKid(c.t, pa, y), pa - 1;
      LeafFacts(c, x);
      WithStruct(x, lf, key, data, LoAt(c), HiAt(c));
      LeafPairApart(c, x, y, j);
      LeafPairPrev(c, x, y);
      LeafSiblings(c);
      ShiftedLeftFits(c, y, 0, j);
      GiveLeafPrev(q, j, x, hot, prev, p, lf, pa, key, data, CtxNode(c.up), Refs(q));
      ghost var r := SetPair(q, j, ShiftLeft(q.kids[j], q.keys[j], q.kids[j + 1]));
      s := Plug(c.up, r);
      FinishLeaf(c, y, q, r);
    }

    /** "rotate 2": the leaf on the right takes the last entry. */
    method OverflowToNext(hot: BNode, next: BNode, p: BNode, lf: nat, pa: nat, key: Key, data: int,
        ghost c: Ctx, ghost x: Tree) returns (ghost s: Tree)
      requires AtLeaf(c, x) && SlotFor(x, lf, key, LoAt(c), HiAt(c)) && |x.keys| == M - 1
      requires c.Frame? && pa == c.i && pa + 1 < |c.t.kids| && p == c.t.node && hot == x.node
        && next == c.t.kids[pa + 1].node && |c.t.kids[pa + 1].keys| < M - 1
      requires pa > 0 ==> lf > 0
      modifies live`key, live`data, live`child
      ensures LeafDone(s, c, Entries(With(x, lf, key, data)))
    {
      hide Struct, Bag, BagOf, Entries, Leaves, EntriesWith, LeavesWith, Num, NulFree, Body, BagAround, Chain,
        SetPair, LeafPair, SameFolds, LoAt, HiAt, OkCtx, RepCtx, CtxRefs;
      ghost var y := With(x, lf, key, data);
      ghost var q, j := SetKid(c.t, pa, y), pa;
      LeafFacts(c, x);
      WithStruct(x, lf, key, data, LoAt(c), HiAt(c));
      LeafPairApart(c, x, y, j);
      LeafPairNext(c, x, y);
      LeafSiblings(c);
      ShiftedRightFits(c, y, 0, j);
      GiveLeafNext(q, j, x, hot, next, p, lf, pa, key, data, CtxNode(c.up), Refs(q));
      ghost var r := SetPair(q, j, ShiftRight(q.kids[j], q.keys[j], q.kids[j + 1]));
      s := Plug(c.up, r);
      FinishLeaf(c, y, q, r);
    }

    /** All leaves are different nodes. */
    lemma LeavesApart(c: Ctx, x: Tree)
      requires AtLeaf(c, x)
      ensures WellFormed(c) && Distinct(LeavesBefore(c) + [x.node] + LeavesAfter(c))
    {
      hide Bag, Leaves, FitsHole, OkCtx, RepCtx, Rep, Chain, CtxRefs;
      assert WellFormed(c);
      PlugBag(c, x);
      PlugLeaves(c, x);
      LeavesOfLeaf(x);
      LeavesDistinct(Plug(c, x), live);
    }

    /** A new leaf on the right of `hot`. */
    method LinkNewLeaf(hot: BNode, ghost before: seq<BNode>, ghost after: seq<BNode>) returns (u: BNode)
      requires Distinct(before + [hot] + after) && LeavesIn(before + [hot] + after) && Chain(before + [hot] + after)
      modifies live`prev, live`next
      ensures fresh(u) && u.parent == hot.parent && u.isLeaf && u.key == [] && u.data == [] && u.child == []
      ensures Chain(before + [hot] + ([u] + after))
      ensures forall n | n in before + [hot] + ([u] + after) :: n in live + {u}
    {
      hide Chain, Distinct;
      u := new BNode(hot.parent, true);
      assert forall n | n in after :: n in before + [hot] + after;
      assert hot in before + [hot] + after;
      LinkAfter(hot, u, before, after);
      forall n | n in before + [hot] + ([u] + after)
        ensures n in live + {u}
      {
        assert n == u || n in before + [hot] + after;
      }
    }

    method SplitLeafCore(hot: BNode, lf: nat, key: Key, data: int, ghost c: Ctx, ghost x: Tree) returns (u: BNode)
      requires AtLeaf(c, x) && SlotFor(x, lf, key, LoAt(c), HiAt(c)) && |x.keys| == M - 1 && |tmpIdx| == M
        && hot == x.node && WellFormed(c)
      requires Distinct(LeavesBefore(c) + [hot] + LeavesAfter(c)) && NulFreeKeys(x)
      modifies this`live, this`tmpIdx, live`key, live`data, live`child, live`prev, live`next
      ensures fresh(u) && live == old(live) + {u} && |tmpIdx| == M
      ensures var y := With(x, lf, key, data);
              && |y.keys| == M && Lengths(y) && u.key == Divide(y, u).2.keys && |u.key| > 0
              && u.key[0] == Divide(y, u).1
              && Rep(Divide(y, u).0, CtxNode(c)) && Rep(Divide(y, u).2, CtxNode(c)) && RepCtx(c, hot)
      ensures var ls := LeavesBefore(c) + [hot] + ([u] + LeavesAfter(c));
              Chain(ls) && LeavesIn(ls)
    {
      hide Bag, BagOf, Num, NulFree, Body, RepCtx, OkCtx, FitsHole, Chain, Linked, BagAround, Divide, Distinct,
        Struct, LeavesBefore, LeavesAfter, CtxRefs, InsertAt, EntriesWith, LoAt, HiAt, Rep, With, NulFreeKeys, RootOk,
        VirtualInsert, Leaves, Entries;
      assert hot in Refs(x);
      AtLeafParts(c, x);
      ParentOf(x, CtxNode(c));
      tmpIdx := FillTmp(tmpIdx, lf);
      u := LinkNewLeaf(hot, LeavesBefore(c), LeavesAfter(c));
      SplitLeaf(x, hot, u, tmpIdx, lf, key, data, CtxNode(c));
      live := live + {u};
    }

    lemma LeafHalved(c: Ctx, x: Tree, lf: nat, key: Key, data: int, u: BNode, before: set<BNode>)
      requires WellFormed(c) && OkCtx(c, 0) && x.Leaf? && FitsHole(c, x, 0) && multiset(before) == BagAround(c) + Bag(x)
      requires SlotFor(x, lf, key, LoAt(c), HiAt(c)) && |x.keys| == M - 1
      requires c.Frame? && c.i > 0 ==> lf > 0
      requires live == before + {u} && u !in before
      requires CtxRefs(c) <= before && RepCtx(c, x.node) && root == CtxRoot(c, x.node)
      requires var y := With(x, lf, key, data);
               |y.keys| == M && Lengths(y) && Rep(Divide(y, u).0, CtxNode(c)) && Rep(Divide(y, u).2, CtxNode(c))
      ensures var y := With(x, lf, key, data);
              && |y.keys| == M && Lengths(y) && Halved(c, Divide(y, u), 0)
              && Entries(Divide(y, u).0) + Entries(Divide(y, u).2) == Entries(y)
              && Leaves(Divide(y, u).0) + Leaves(Divide(y, u).2) == [x.node, u]
    {
      hide Struct, Bag, BagOf, Entries, Leaves, Num, NulFree, Body, BagAround, RepCtx, CtxRefs, CtxRoot, Divide,
        Rep, InsertAt;
      var y := With(x, lf, key, data);
      LeafBags(x, y);
      WithStruct(x, lf, key, data, LoAt(c), HiAt(c));
      MakeHalved(c, y, 0, u, before);
    }

    /** "split". */
    method OverflowSplit(hot: BNode, hotIdx: seq<nat>, key: Key, data: int, ghost c: Ctx,
        ghost x: Tree) returns (ghost s: Tree)
      requires AtLeaf(c, x) && |tmpIdx| == M && hot == x.node && |hotIdx| > 0 && hotIdx[..|hotIdx| - 1] == Path(c)
      requires SlotFor(x, hotIdx[|hotIdx| - 1], key, LoAt(c), HiAt(c)) && |x.keys| == M - 1
      requires c.Frame? && c.i > 0 ==> hotIdx[|hotIdx| - 1] > 0
      modifies this`root, this`live, this`tmpIdx, live`key, live`data, live`child, live`parent, live`prev, live`next
      ensures LeafDone(s, c, Entries(With(x, hotIdx[|hotIdx| - 1], key, data)))
      ensures |tmpIdx| == M && live >= old(live) && fresh(live - old(live))
    {
      hide Struct, Bag, BagOf, Entries, Leaves, EntriesWith, Num, NulFree, Body, BagAround, Chain, RepCtx, CtxRefs,
        CtxRoot, FitsHole, Rep, Divide, Halved, Distinct, LeavesBefore, LeavesAfter, OkCtx, LoAt, HiAt;
      ghost var lf := hotIdx[|hotIdx| - 1];
      LeafFacts(c, x);
      LeavesApart(c, x);
      var u := SplitLeafCore(hot, hotIdx[|hotIdx| - 1], key, data, c, x);
      LeafHalved(c, x, lf, key, data, u, old(live));
      ghost var r := Divide(With(x, lf, key, data), u);
      DivideNodes(With(x, lf, key, data), u);
      s := AfterSplit(hot, u, u.key[0], hotIdx, c, r, 0);
      assert LeavesBefore(c) + [hot] + ([u] + LeavesAfter(c)) == LeavesBefore(c) + [hot, u] + LeavesAfter(c);
    }

    /** The full leaf `hot` has to take one more entry. */
    method SolveOverflowLeaf(key: Key, data: int, hot: BNode, hotIdx: seq<nat>, ghost c: Ctx,
        ghost x: Tree) returns (ghost s: Tree)
      requires AtLeaf(c, x) && |tmpIdx| == M && hot == x.node && |hotIdx| > 0 && hotIdx[..|hotIdx| - 1] == Path(c)
      requires SlotFor(x, hotIdx[|hotIdx| - 1], key, LoAt(c), HiAt(c)) && |x.keys| == M - 1
      modifies this`root, this`live, this`tmpIdx, live`key, live`data, live`child, live`parent, live`prev, live`next
      ensures LeafDone(s, c, Entries(With(x, hotIdx[|hotIdx| - 1], key, data)))
      ensures |tmpIdx| == M && live >= old(live) && fresh(live - old(live))
    {
      hide AtLeaf, LeafDone, SlotFor, OkCtx, FitsHole, Rep, RepAround, EntriesWith, Entries, Struct, WellFormed,
        NodesOf;
      AtLeafParts(c, x);
      PathUpIf(c, hotIdx);
      LeafSides(c, x);
      SlotPositive(c, x, hotIdx[|hotIdx| - 1], key);
      LeafAround(c, x);
      var lf := hotIdx[|hotIdx| - 1];
      if hot.prev != null && hot.parent == hot.prev.parent && !hot.prev.IsFull() {
        s := OverflowToPrev(hot, hot.prev, hot.parent, lf, hotIdx[|hotIdx| - 2], key, data, c, x);
      } else if hot.next != null && hot.parent == hot.next.parent && !hot.next.IsFull() {
        s := OverflowToNext(hot, hot.next, hot.parent, lf, hotIdx[|hotIdx| - 2], key, data, c, x);
      } else {
        s := OverflowSplit(hot, hotIdx, key, data, c, x);
      }
    }

    /** `y` is a leaf beside the hole, laid out, with two to four keys. */
    ghost predicate SmallSibling(c: Ctx, y: Tree)
      reads this`live, live
    {
      && c.Frame? && y.node in live && y.node.key == y.keys && 2 <= |y.keys| < M
      && y.node.parent == c.t.node
    }

    /** What the code finds in the nodes beside and above the leaf. */
    lemma LeafAround(c: Ctx, x: Tree)
      requires AtLeaf(c, x)
      ensures WellFormed(c) && x.node in live
      ensures c.Frame? && c.i > 0 ==> SmallSibling(c, c.t.kids[c.i - 1])
      ensures c.Frame? && c.i + 1 < |c.t.kids| ==> SmallSibling(c, c.t.kids[c.i + 1])
      ensures c.Frame? ==> c.t.node in live && c.t.node.key == c.t.keys && c.t.node.child == NodesOf(c.t.kids)
    {
      hide Bag, BagOf, Body, FitsHole, BagAround, Chain, Struct, Num, NulFree, LeavesWith, LeavesIn, Path, CtxRoot;
      if c.Frame? {
        LeafSiblings(c);
        if c.i > 0 {
          SpreadPrev(c.t, c.i, x, CtxNode(c.up));
          BodyKeys(c.t.kids[c.i - 1]);
          KidInCtx(c, c.i - 1);
        }
        if c.i + 1 < |c.t.kids| {
          SpreadNext(c.t, c.i, x, CtxNode(c.up));
          BodyKeys(c.t.kids[c.i + 1]);
          KidInCtx(c, c.i + 1);
        }
      }
    }

    // ----- underflow of leaves -----

    /** The leaf `x` is about to lose entry `rm`, which leaves it with a single one. */
    ghost predicate Losing(c: Ctx, x: Tree, rm: nat)
      reads this`root, this`live, live
    {
      AtLeaf(c, x) && c.Frame? && |x.keys| == 2 && rm < 2
    }

    lemma LosingFacts(c: Ctx, x: Tree, rm: nat)
      requires Losing(c, x, rm)
      ensures WellFormed(c) && OkCtx(c, 0) && c.Frame? && FitsHole(c, x, 0) && x.Leaf? && Lengths(x)
        && |x.keys| == 2 && NulFreeKeys(x)
      ensures c.t.Inner? && c.i < |c.t.kids| && |c.t.kids| >= 2
      ensures var y := Without(x, rm);
              && y.Leaf? && Lengths(y) && |y.keys| == 1 && y.node == x.node && c.t.kids[c.i].node == x.node
              && (rm != 0 && c.i > 0 ==> y.keys[0] == c.t.keys[c.i - 1])
      ensures LeavesIn(LeavesWith(c, [x.node])) && Chain(LeavesWith(c, [x.node]))
    {
      hide Above, Chain, Struct, Num, NulFree, Rep, LeavesWith;
      AtLeafParts(c, x);
      LeafFacts(c, x);
    }

    /** "rotate 1": takes the last entry of the leaf on the left. */
    method UnderflowFromPrev(hot: BNode, prev: BNode, p: BNode, rm: nat, pa: nat, ghost c: Ctx,
        ghost x: Tree) returns (ghost s: Tree)
      requires Losing(c, x, rm) && hot == x.node && p == c.t.node
      requires pa == c.i > 0 && pa < |c.t.kids| && prev == c.t.kids[pa - 1].node && |c.t.kids[pa - 1].keys| > MIN_KEYS
      modifies live`key, live`data, live`child
      ensures LeafDone(s, c, Entries(Without(x, rm)))
    {
      hide Struct, Bag, BagOf, Entries, Leaves, EntriesWith, LeavesWith, Num, NulFree, Body, BagAround, Chain,
        SetPair, LeafPair, SameFolds, AtLeaf, OkCtx, FitsHole, RepCtx, CtxRoot, CtxRefs;
      LosingFacts(c, x, rm);
      ghost var y := Without(x, rm);
      ghost var q, j := SetKid(c.t, pa, y), pa - 1;
      LeafPairApart(c, x, y, j);
      LeafPairPrev(c, x, y);
      LeafSiblings(c);
      BorrowedPrevFits(c, x, rm);
      BorrowLeafPrev(q, j, x, hot, prev, p, rm, pa, CtxNode(c.up), Refs(q));
      ghost var r := SetPair(q, j, ShiftRight(q.kids[j], q.keys[j], q.kids[j + 1]));
      s := Plug(c.up, r);
      FinishLeaf(c, y, q, r);
    }

    /** "rotate 2": takes the first entry of the leaf on the right. */
    method UnderflowFromNext(hot: BNode, next: BNode, p: BNode, rm: nat, pa: nat, ghost c: Ctx,
        ghost x: Tree) returns (ghost s: Tree)
      requires Losing(c, x, rm) && hot == x.node && p == c.t.node
      requires pa == c.i && pa + 1 < |c.t.kids| && next == c.t.kids[pa + 1].node && |c.t.kids[pa + 1].keys| > MIN_KEYS
      modifies live`key, live`data, live`child
      ensures LeafDone(s, c, Entries(Without(x, rm)))
    {
      hide Struct, Bag, BagOf, Entries, Leaves, EntriesWith, LeavesWith, Num, NulFree, Body, BagAround, Chain,
        SetPair, LeafPair, SameFolds, AtLeaf, OkCtx, FitsHole, RepCtx, CtxRoot, CtxRefs;
      LosingFacts(c, x, rm);
      ghost var y := Without(x, rm);
      ghost var q, j := SetKid(c.t, pa, y), pa;
      LeafPairApart(c, x, y, j);
      LeafPairNext(c, x, y);
      LeafSiblings(c);
      BorrowedNextFits(c, x, rm);
      BorrowLeafNext(q, j, x, hot, next, p, rm, pa, CtxNode(c.up), Refs(q));
      ghost var r := SetPair(Reseparated(q, j), j, ShiftLeft(q.kids[j], q.keys[j], q.kids[j + 1]));
      s := Plug(c.up, r);
      FinishLeaf(c, y, q, r);
    }

    /** The chain around a pair of leaves below `q`. */
    ghost predicate PairChain(up: Ctx, q: Tree, j: nat)
      reads this`live, live`prev, live`next
      requires WellFormed(up) && PairAt(q, j)
    {
      var before, after := LeavesBefore(up) + LeavesOf(q.kids[..j]), LeavesOf(q.kids[j + 2..]) + LeavesAfter(up);
      var ls := before + [q.kids[j].node] + ([q.kids[j + 1].node] + after);
      LeavesIn(ls) && Distinct(ls) && Chain(ls)
    }

    lemma LosingChain(c: Ctx, x: Tree, rm: nat, j: nat)
      requires Losing(c, x, rm) && j + 1 < |c.t.kids| && (j == c.i || j + 1 == c.i)
      ensures var q := SetKid(c.t, c.i, Without(x, rm));
              WellFormed(c) && PairAt(q, j) && PairChain(c.up, q, j)
    {
      hide Struct, Bag, BagOf, Entries, Leaves, EntriesWith, Num, NulFree, Body, BagAround, Chain, AtLeaf, OkCtx,
        FitsHole, Above, Distinct, LeafApart, PairAt;
      LosingFacts(c, x, rm);
      LeafPairApart(c, x, Without(x, rm), j);
      LeavesApart(c, x);
      PairLeaves(c.up, SetKid(c.t, c.i, Without(x, rm)), j);
    }

    method UnlinkAndDelete(a: BNode, b: BNode, ghost before: seq<BNode>, ghost after: seq<BNode>)
      requires var ls := before + [a] + ([b] + after); LeavesIn(ls) && Distinct(ls) && Chain(ls)
      modifies this`live, a`next, (set n | n in after)`prev, b`key, b`child, b`parent, b`data, b`prev, b`next
      ensures live == old(live) - {b} && b in old(live)
      ensures Chain(before + [a] + after) && LeavesIn(before + [a] + after)
    {
      hide Chain, Distinct;
      DistinctMiddle(before, a, b, after);
      ghost var ls := before + [a] + ([b] + after);
      assert b in ls && forall n | n in before + [a] + after :: n in ls;
      Unlink(a, b, before, after);
      b.data, b.prev, b.next := *, *, *;
      Delete(b);
    }

    /** The end of every merge of leaves: the leaf `b`, whose entries `a` holds now, leaves the
        chain and is deleted. */
    method DropLeaf(a: BNode, b: BNode, ghost q: Tree, ghost j: nat, ghost up: Ctx)
      requires PairAt(q, j) && Above(up, q) && a == q.kids[j].node && b == q.kids[j + 1].node
      requires PairChain(up, q, j) && RepMinus(Merged(q, j), j, CtxNode(up)) && q.kids[j].Leaf?
      modifies this`live, live`key, live`child, live`parent, live`data, live`prev, live`next
      ensures live == old(live) - {b} && b in old(live)
      ensures RepMinus(Merged(q, j), j, CtxNode(up)) && RepCtx(up, q.node)
      ensures Chain(LeavesWith(up, Leaves(Merged(q, j)))) && LeavesIn(LeavesWith(up, Leaves(Merged(q, j))))
    {
      hide Bag, BagOf, Body, RepCtx, JoinKids, RepMinus, Num, NulFree, Chain, Distinct, LeavesOf, Leaves, CtxRefs,
        BagAround;
      ghost var before, after := LeavesBefore(up) + LeavesOf(q.kids[..j]), LeavesOf(q.kids[j + 2..]) + LeavesAfter(up);
      MergedRefs(q, j, live);
      MergedLeaves(up, q, j);
      DistinctMiddle(before, a, b, after);
      UnlinkAndDelete(a, b, before, after);
    }

    /** "merge 1": gives its entries to the leaf on the left. */
    method MergeLeavesPrev(hot: BNode, prev: BNode, p: BNode, rm: nat, pa: nat, ghost c: Ctx,
        ghost x: Tree) returns (ghost q: Tree)
      requires Losing(c, x, rm) && hot == x.node && p == c.t.node
      requires pa == c.i > 0 && pa < |c.t.kids| && prev == c.t.kids[pa - 1].node && |c.t.kids[pa - 1].keys| <= MIN_KEYS
      modifies this`live, live`key, live`child, live`parent, live`data, live`prev, live`next
      ensures LeavesMerged(c, Without(x, rm), pa - 1, q)
      ensures live == old(live) - {hot} && hot in old(live)
    {
      hide Struct, Bag, BagOf, Entries, Leaves, EntriesWith, LeavesWith, Num, NulFree, Body, BagAround, Chain,
        LeafPair, AtLeaf, OkCtx, FitsHole, RepCtx, CtxRoot, CtxRefs, RepMinus, JoinKids, PairChain, LeafApart;
      LosingFacts(c, x, rm);
      ghost var y := Without(x, rm);
      ghost var q0, j := SetKid(c.t, pa, y), pa - 1;
      LosingChain(c, x, rm, j);
      LeafPairApart(c, x, y, j);
      LeafPairPrev(c, x, y);
      LeafSiblings(c);
      MergeLeafPrev(q0, j, x, hot, prev, rm, CtxNode(c.up), Refs(q0));
      DropLeaf(prev, hot, q0, j, c.up);
      MakeLeafShrunk(c, x, rm, j, hot, old(live));
      q := Merged(q0, j);
    }

    /** "merge 2": takes the entries of the leaf on the right. */
    method MergeLeavesNext(hot: BNode, next: BNode, p: BNode, rm: nat, pa: nat, ghost c: Ctx,
        ghost x: Tree) returns (ghost q: Tree)
      requires Losing(c, x, rm) && hot == x.node && p == c.t.node
      requires pa == c.i == 0 && pa + 1 < |c.t.kids| && next == c.t.kids[pa + 1].node
        && |c.t.kids[pa + 1].keys| <= MIN_KEYS
      modifies this`live, live`key, live`child, live`parent, live`data, live`prev, live`next
      ensures LeavesMerged(c, Without(x, rm), pa, q)
      ensures live == old(live) - {next} && next in old(live)
    {
      hide Struct, Bag, BagOf, Entries, Leaves, EntriesWith, LeavesWith, Num, NulFree, Body, BagAround, Chain,
        LeafPair, AtLeaf, OkCtx, FitsHole, RepCtx, CtxRoot, CtxRefs, RepMinus, JoinKids, PairChain, LeafApart;
      LosingFacts(c, x, rm);
      ghost var y := Without(x, rm);
      ghost var q0, j := SetKid(c.t, pa, y), pa;
      LosingChain(c, x, rm, j);
      LeafPairApart(c, x, y, j);
      LeafPairNext(c, x, y);
      LeafSiblings(c);
      SiblingNulFree(c, pa + 1);
      MergeLeafNext(q0, j, x, hot, next, rm, CtxNode(c.up), Refs(q0));
      DropLeaf(hot, next, q0, j, c.up);
      MakeLeafShrunk(c, x, rm, j, next, old(live));
      q := Merged(q0, j);
    }

    /** `q`, the parent, has lost leaf `j + 1` to a merge; `y` is what was left of the leaf in the hole. */
    ghost predicate LeavesMerged(c: Ctx, y: Tree, j: nat, q: Tree)
      reads this`root, this`live, live
    {
      && c.Frame? && WellFormed(c) && j < |c.t.kids| && q.Inner? && j < |q.kids|
      && Shrunk(Path(c.up) + [j], c.up, q, 1) && q.node == c.t.node && q.kids[j].node == c.t.kids[j].node
      && EntriesWith(c, Entries(y)) == EntriesWith(c.up, Entries(q))
      && LeavesIn(LeavesWith(c.up, Leaves(q))) && Chain(LeavesWith(c.up, Leaves(q)))
    }

    lemma MakeLeafShrunk(c: Ctx, x: Tree, rm: nat, j: nat, dead: BNode, before: set<BNode>)
      requires WellFormed(c) && OkCtx(c, 0) && c.Frame? && FitsHole(c, x, 0) && x.Leaf? && Lengths(x)
        && |x.keys| == 2 && rm < 2
      requires c.t.kids[c.i].node == x.node
      requires j + 1 == c.i || j == c.i == 0
      requires PairAt(SetKid(c.t, c.i, Without(x, rm)), j)
      requires var q := SetKid(c.t, c.i, Without(x, rm));
               |q.kids[j].keys| + |q.kids[j + 1].keys| == 3
      requires dead == SetKid(c.t, c.i, Without(x, rm)).kids[j + 1].node
      requires AboveBut(c.up, SetKid(c.t, c.i, Without(x, rm)), before, dead)
      requires RepMinus(Merged(SetKid(c.t, c.i, Without(x, rm)), j), j, CtxNode(c.up))
      ensures var q := Merged(SetKid(c.t, c.i, Without(x, rm)), j);
              && q.Inner? && j < |q.kids| && Shrunk(Path(c.up) + [j], c.up, q, 1)
              && q.node == c.t.node && q.kids[j].node == c.t.kids[j].node
              && EntriesWith(c, Entries(Without(x, rm))) == EntriesWith(c.up, Entries(q))
    {
      hide Struct, Bag, BagOf, Entries, Leaves, EntriesWith, LeavesWith, Num, NulFree, Body, JoinKids, RepMinus,
        RegularKids, BagAround, PairAt, OkCtx, FitsHole, Merge, RemoveAt, Refs, Above, AboveBut, Path, LoAt, HiAt,
        RepCtx, CtxRefs, CtxRoot;
      var q0 := SetKid(c.t, c.i, Without(x, rm));
      assert (Path(c.up) + [j])[..|Path(c.up) + [j]| - 1] == Path(c.up);
      FrameFacts(c, 0);
      MergedLeafFits(c, x, rm, j);
      AboveMerged(c.up, q0, j, before, dead);
    }

    /** "merge 1" and what follows at the parent. */
    method UnderflowMergePrev(hot: BNode, hotIdx: seq<nat>, prev: BNode, p: BNode, rm: nat, pa: nat,
        ghost c: Ctx, ghost x: Tree)
      returns (ghost s: Tree)
      requires Losing(c, x, rm) && hot == x.node && p == c.t.node
      requires pa == c.i > 0 && pa < |c.t.kids| && prev == c.t.kids[pa - 1].node && |c.t.kids[pa - 1].keys| <= MIN_KEYS
      requires |hotIdx| >= 2 && hotIdx[..|hotIdx| - 2] == Path(c.up)
      modifies this`root, this`live, live`key, live`child, live`parent, live`data, live`prev, live`next
      ensures LeafDone(s, c, Entries(Without(x, rm)))
      ensures live <= old(live) && hot in old(live) && hot !in live
    {
      hide Losing, Whole, Bag, Entries, Leaves, EntriesWith, LeavesWith, Shrunk, Chain;
      ghost var q := MergeLeavesPrev(hot, prev, p, rm, pa, c, x);
      s := ParentAfterMerge(p, hotIdx[..|hotIdx| - 2] + [pa - 1], prev, c.up, q, 1);
      WholeLeaves(s, EntriesWith(c.up, Entries(q)), LeavesWith(c.up, Leaves(q)));
    }

    /** "merge 2" and what follows at the parent. */
    method UnderflowMergeNext(hot: BNode, hotIdx: seq<nat>, next: BNode, p: BNode, rm: nat, pa: nat,
        ghost c: Ctx, ghost x: Tree)
      returns (ghost s: Tree)
      requires Losing(c, x, rm) && hot == x.node && p == c.t.node && c.t.kids[c.i].node == hot
      requires pa == c.i == 0 && pa + 1 < |c.t.kids| && next == c.t.kids[pa + 1].node
        && |c.t.kids[pa + 1].keys| <= MIN_KEYS
      requires |hotIdx| >= 2 && hotIdx[..|hotIdx| - 1] == Path(c.up) + [c.i]
      modifies this`root, this`live, live`key, live`child, live`parent, live`data, live`prev, live`next
      ensures LeafDone(s, c, Entries(Without(x, rm)))
      ensures live <= old(live) && next in old(live) && next !in live
    {
      hide Losing, Whole, Bag, Entries, Leaves, EntriesWith, LeavesWith, Shrunk, Chain;
      ghost var q := MergeLeavesNext(hot, next, p, rm, pa, c, x);
      s := ParentAfterMerge(p, hotIdx[..|hotIdx| - 1], hot, c.up, q, 1);
      WholeLeaves(s, EntriesWith(c.up, Entries(q)), LeavesWith(c.up, Leaves(q)));
    }

    lemma WholeLeaves(s: Tree, es: seq<Entry>, ls: seq<BNode>)
      requires Whole(s, es, ls)
      ensures LeavesIn(Leaves(s)) && Leaves(s) == ls
    {
      hide Bag, Leaves, Entries, RootOk, Body;
      LeavesDistinct(s, live);
    }

    /** The leaf `hot`, not the root, has to lose an entry and would be too small. */
    method SolveUnderflowLeaf(hot: BNode, hotIdx: seq<nat>, ghost c: Ctx, ghost x: Tree) returns (ghost s: Tree)
      requires |hotIdx| > 0 && hotIdx[..|hotIdx| - 1] == Path(c) && Losing(c, x, hotIdx[|hotIdx| - 1]) && hot == x.node
      modifies this`root, this`live, live`key, live`child, live`parent, live`data, live`prev, live`next
      ensures LeafDone(s, c, Entries(Without(x, hotIdx[|hotIdx| - 1])))
      ensures live <= old(live)
    {
      hide AtLeaf, LeafDone, OkCtx, FitsHole, Rep, RepAround, EntriesWith, Entries, Struct, WellFormed, NodesOf,
        Lengths, NulFreeKeys;
      LosingFacts(c, x, hotIdx[|hotIdx| - 1]);
      PathUp(c, hotIdx);
      LeafSides(c, x);
      LeafAround(c, x);
      var rm := hotIdx[|hotIdx| - 1];
      var pa := hotIdx[|hotIdx| - 2];
      var p := hot.parent;
      var prev := hot.prev;
      var next := hot.next;
      if pa > 0 && |prev.key| >= (M + 1) / 2 {
        s := UnderflowFromPrev(hot, prev, p, rm, pa, c, x);
      } else if pa < |p.child| - 1 && |next.key| >= (M + 1) / 2 {
        s := UnderflowFromNext(hot, next, p, rm, pa, c, x);
      } else if pa > 0 {
        s := UnderflowMergePrev(hot, hotIdx, prev, p, rm, pa, c, x);
      } else {
        s := UnderflowMergeNext(hot, hotIdx, next, p, rm, pa, c, x);
      }
    }

    // ----- a leaf that stays within its size -----

    lemma AtLeafNode(c: Ctx, x: Tree)
      requires AtLeaf(c, x)
      ensures x.node in live && x.node.key == x.keys && x.node.data == x.data
        && x.node.child == Nulls(|x.keys| + 1) && Lengths(x) && x.Leaf?
      ensures WellFormed(c) && x.node.isLeaf && (x.node == root <==> c.Top?)
    {
      hide Bag, BagOf, OkCtx, RepCtx, Chain, BagAround, CtxRefs, Num, NulFree, Sized;
      RootInCtx(c, x.node);
    }

    /** The leaf in the hole now holds `y`, which fits. */
    lemma FinishHole(c: Ctx, x: Tree, y: Tree)
      requires WellFormed(c) && OkCtx(c, 0) && Above(c, x) && x.Leaf? && y.Leaf? && y.node == x.node
        && FitsHole(c, y, 0) && Rep(y, CtxNode(c))
      requires LeavesIn(LeavesWith(c, [x.node])) && Chain(LeavesWith(c, [x.node]))
      ensures LeafDone(Plug(c, y), c, Entries(y))
    {
      hide Struct, Bag, BagOf, Entries, Leaves, EntriesWith, LeavesWith, Num, NulFree, Body, FitsHole, BagAround,
        Chain, RepCtx, Plug, CtxRefs, CtxRoot, LeavesIn;
      LeafBags(x, y);
      Finish(c, y, 0);
    }

    /** There is room in the leaf for one more entry. */
    method PutInLeaf(hot: BNode, lf: nat, key: Key, data: int, ghost c: Ctx, ghost x: Tree) returns (ghost s: Tree)
      requires AtLeaf(c, x) && hot == x.node && |x.keys| < M - 1 && SlotFor(x, lf, key, LoAt(c), HiAt(c))
      modifies live`key, live`data, live`child
      ensures LeafDone(s, c, Entries(With(x, lf, key, data)))
    {
      hide Struct, Bag, BagOf, Num, NulFree, BagAround, Chain, RepCtx, CtxRoot, OkCtx, LeavesWith, EntriesWith,
        CtxRefs, FitsHole;
      AtLeafNode(c, x);
      AtLeafParts(c, x);
      hot.key := InsertAt(hot.key, lf, key);
      hot.data := InsertAt(hot.data, lf, data);
      hot.child := hot.child + [null];
      ghost var y := With(x, lf, key, data);
      NullsFacts(|x.keys| + 1, 1);
      WithFits(c, x, lf, key, data);
      s := Plug(c, y);
      FinishHole(c, x, y);
    }

    /** The key is in the leaf already: its datum is replaced. */
    method ModifyLeaf(hot: BNode, lf: nat, data: int, ghost c: Ctx, ghost x: Tree) returns (ghost s: Tree)
      requires AtLeaf(c, x) && hot == x.node && lf < |x.keys|
      modifies live`data
      ensures Lengths(x) && x.Leaf? && LeafDone(s, c, Entries(Leaf(x.node, x.keys, x.data[lf := data])))
    {
      hide Struct, Bag, BagOf, Num, NulFree, BagAround, Chain, RepCtx, CtxRoot, OkCtx, LeavesWith, EntriesWith,
        CtxRefs, FitsHole;
      AtLeafNode(c, x);
      AtLeafParts(c, x);
      hot.data := hot.data[lf := data];
      ghost var y := Leaf(x.node, x.keys, x.data[lf := data]);
      ModifiedFits(c, x, y);
      s := Plug(c, y);
      FinishHole(c, x, y);
    }

    /** The parent of the leaf in the hole, which now holds `y`. */
    lemma HolderReady(c: Ctx, x: Tree, y: Tree)
      requires WellFormed(c) && c.Frame? && Above(c, x) && x.Leaf? && y.Leaf? && y.node == x.node && Rep(y, CtxNode(c))
      ensures var q := SetKid(c.t, c.i, y);
              && Above(c.up, q) && Bag(q) <= multiset(live) && q.node in live && x.node.parent == q.node
              && x.node.key == y.keys && q.node == c.t.node
              && q.node.parent == CtxNode(c.up) && !q.node.isLeaf && q.node.key == q.keys
              && q.node.child == NodesOf(q.kids)
              && Parents(q.kids, q.node) && Bodies(q.kids)
              && EntriesWith(c, Entries(y)) == EntriesWith(c.up, Entries(q))
              && LeavesWith(c, [x.node]) == LeavesWith(c.up, Leaves(q))
    {
      hide Struct, Bag, BagOf, Entries, Leaves, EntriesWith, LeavesWith, Num, NulFree, BagAround, CtxRoot, CtxRefs,
        RepAround;
      var q := SetKid(c.t, c.i, y);
      LeafBags(x, y);
      UpFolds(c, y);
      AboveParent(c, y);
      FillAround(c.t, c.i, y, CtxNode(c.up));
      OuterBag(BagAround(c.up), Bag(q), live);
    }

    /** After the erasure of entry `lf` of the leaf in the hole. */
    method FollowSeparator(hot: BNode, hotIdx: seq<nat>, lf: nat, ghost c: Ctx, ghost x: Tree) returns (ghost s: Tree)
      requires WellFormed(c) && OkCtx(c, 0) && c.Frame? && FitsHole(c, x, 0) && x.Leaf? && Lengths(x)
        && |x.keys| > MIN_KEYS && lf < |x.keys|
      requires Above(c, x) && hot == x.node && Rep(Without(x, lf), CtxNode(c)) && |hotIdx| >= 2
        && hotIdx[|hotIdx| - 2] == c.i
      requires LeavesIn(LeavesWith(c, [x.node])) && Chain(LeavesWith(c, [x.node]))
      modifies live`key
      ensures LeafDone(s, c, Entries(Without(x, lf)))
    {
      hide Struct, Bag, BagOf, Entries, Leaves, EntriesWith, LeavesWith, Num, NulFree, BagAround, Chain, RepCtx,
        CtxRoot, OkCtx, CtxRefs, FitsHole, RepAround, LeavesIn, RemoveAt, Plug, LeafDone, SameFolds;
      ghost var y := Without(x, lf);
      RemoveAtLength(x.keys, lf);
      ghost var q, d := SetKid(c.t, c.i, y), Resep(c, y);
      HolderReady(c, x, y);
      ResepFits(c, x, lf);
      KidsOnce(q, live);
      if lf == 0 {
        var pa := hotIdx[|hotIdx| - 2];
        if pa > 0 {
          var p := hot.parent;
          p.key := p.key[pa - 1 := hot.key[0]];
        }
      }
      RepInner(d.t, CtxNode(c.up));
      s := Plug(c.up, d.t);
      FinishLeaf(c, y, q, d.t);
    }

    /** The leaf loses an entry and stays large enough; if it was the first, the separator follows. */
    method EraseInLeaf(hot: BNode, hotIdx: seq<nat>, ghost c: Ctx, ghost x: Tree) returns (ghost s: Tree)
      requires AtLeaf(c, x) && hot == x.node && |hotIdx| > 0 && hotIdx[..|hotIdx| - 1] == Path(c)
      requires hotIdx[|hotIdx| - 1] < |x.keys| && (c.Frame? ==> |x.keys| > MIN_KEYS)
      modifies live`key, live`data, live`child
      ensures Lengths(x) && x.Leaf? && LeafDone(s, c, Entries(Without(x, hotIdx[|hotIdx| - 1])))
    {
      hide Struct, Bag, BagOf, Entries, Leaves, EntriesWith, LeavesWith, Num, NulFree, BagAround, Chain, RepCtx,
        CtxRoot, OkCtx, CtxRefs, FitsHole, RepAround, Path;
      AtLeafNode(c, x);
      AtLeafParts(c, x);
      PathUpIf(c, hotIdx);
      var lf := hotIdx[|hotIdx| - 1];
      ghost var y := Without(x, lf);
      NullsFacts(|x.keys|, 1);
      hot.key := RemoveAt(hot.key, lf);
      hot.data := RemoveAt(hot.data, lf);
      hot.child := DropLast(hot.child);
      if hot == root {
        WithoutFitsTop(c, x, lf);
        s := Plug(c, y);
        FinishHole(c, x, y);
      } else {
        s := FollowSeparator(hot, hotIdx, lf, c, x);
      }
    }

    // ----- the operations -----

    /** The invariant between operations. */
    ghost predicate Valid()
      reads this, live
    {
      && |tmpIdx| == M
      && Whole(shape, Entries(shape), Leaves(shape))
      && LeavesIn(Leaves(shape)) && Chain(Leaves(shape))
      && size == |Entries(shape)|
      && InRange(Entries(shape))
    }

    /** The entries in key order. */
    ghost function Contents(): seq<Entry>
      reads this
    {
      Entries(shape)
    }

    ghost function Map(): map<Key, int>
      reads this
    {
      MapOf(Contents())
    }

    /** Where `key` lives in the tree or, when `find` is -1, where it must be inserted. */
    ghost predicate Located(key: Key, hot: BNode, hotIdx: seq<nat>, find: int, c: Ctx, x: Tree)
      reads this, live
    {
      && AtLeaf(c, x) && hot == x.node && |hotIdx| > 0 && hotIdx[..|hotIdx| - 1] == Path(c)
      && Plug(c, x) == shape && Contents() == EntriesWith(c, Entries(x))
      && Lengths(x) && LoAt(c) <= Num(key) < HiAt(c)
      && var i := hotIdx[|hotIdx| - 1];
         if find == -1 then
           && i <= |x.keys| && (i > 0 ==> Num(x.keys[i - 1]) < Num(key)) && (i < |x.keys| ==> Num(key) < Num(x.keys[i]))
         else
           i < |x.keys| && x.keys[i] == key && x.data[i] == find
    }

    /** The search down to the leaf, recording the slots on the way; -1 when the key is absent. */
    method SearchPath(key: Key) returns (find: int, hot: BNode, hotIdx: seq<nat>, ghost c: Ctx, ghost x: Tree)
      requires Valid()
      ensures Located(key, hot, hotIdx, find, c, x)
      ensures |hotIdx| == Height(shape) + 1
    {
      hide Bag, BagOf, Num, NulFree, Less, Valid, Leaves, Entries, IsUpperBound, Descent, Located, Plug,
        WellFormed, CtxRefs, Refs, NodesOf;
      var v: BNode? := root;
      hot, hotIdx := root, [];
      c, x := Top, shape;
      ghost var h := Height(shape);
      StartDescent(key);
      while v != null
        invariant WellFormed(c) && Descent(c, x, h, key) && Plug(c, x) == shape
        invariant v != null ==> v == x.node && hotIdx == Path(c) && |hotIdx| + h == Height(shape)
        invariant v == null ==> x.Leaf? && hot == x.node && |hotIdx| == Height(shape) + 1
        invariant v == null ==> hotIdx[..|hotIdx| - 1] == Path(c)
        invariant v == null ==> IsUpperBound(x.keys, key, hotIdx[|hotIdx| - 1])
        decreases if v == null then 0 else h + 1
      {
        NodeOfDescent(c, x, h, key);
        InLive(c, x);
        var i := UpperBound(v.key, key);
        UpperBoundLength(v.key, key, i);
        hot := v;
        v := v.child[i];
        hotIdx := hotIdx + [i];
        if x.Inner? {
          DescendKid(c, x, h, key, i);
          c, x, h := Frame(c, x, i), x.kids[i], h - 1;
        }
      }
      NodeOfDescent(c, x, h, key);
      var last := hotIdx[|hotIdx| - 1];
      UpperBoundLength(x.keys, key, last);
      if last > 0 && hot.key[last - 1] == key {
        hotIdx := hotIdx[|hotIdx| - 1 := last - 1];
        find := hot.data[last - 1];
      } else {
        find := -1;
      }
      FoundAt(key, hotIdx, last, find, c, x);
    }

    lemma StartDescent(key: Key)
      requires Valid()
      ensures WellFormed(Top) && Descent(Top, shape, Height(shape), key) && shape.node == root
        && Plug(Top, shape) == shape && Path(Top) == []
    {
      hide Bag, BagOf, NulFree, Less, Chain, LeavesIn, Leaves, Entries, Body, InRange, Sized, Struct;
      var h: nat :| Struct(shape, h, 0.0, 1.0) && Sized(shape, true);
      HeightIs(shape, h, 0.0, 1.0);
    }

    lemma FoundAt(key: Key, hotIdx: seq<nat>, last: nat, find: int, c: Ctx, x: Tree)
      requires Valid() && WellFormed(c) && Descent(c, x, 0, key) && Plug(c, x) == shape && x.Leaf? && Lengths(x)
      requires |hotIdx| > 0 && hotIdx[..|hotIdx| - 1] == Path(c) && IsUpperBound(x.keys, key, last)
      requires last <= |x.keys|
      requires if last > 0 && x.keys[last - 1] == key
               then hotIdx[|hotIdx| - 1] == last - 1 && find == x.data[last - 1]
               else hotIdx[|hotIdx| - 1] == last && find == -1
      ensures Located(key, x.node, hotIdx, find, c, x)
    {
      hide Bag, BagOf, Num, NulFree, Less, Chain, Leaves, Entries, Body, Sized, Struct, IsUpperBound, OkCtx,
        RepCtx, FitsHole, RootOk, Plug, BagAround, CtxRefs;
      UpperBoundNum(x.keys, key, last);
      if last > 0 && Num(x.keys[last - 1]) == Num(key) {
        NumInjective(x.keys[last - 1], key);
      }
      PlugRep(c, x);
      PlugBag(c, x);
      PlugEntries(c, x);
      PlugLeaves(c, x);
      LeavesOfLeaf(x);
      CtxRefsBag(c);
      SetsApart(BagAround(c), Bag(x), live);
      if last > 0 {
        DatumInRange(c, x, last - 1);
      }
    }

    lemma InLive(c: Ctx, x: Tree)
      requires Valid() && WellFormed(c) && Plug(c, x) == shape
      ensures CtxRefs(c) <= live && Refs(x) <= live
    {
      hide Bag, BagOf, Chain, Leaves, Entries, Body, RootOk, Plug, BagAround;
      PlugBag(c, x);
      CtxRefsBag(c);
      SetsApart(BagAround(c), Bag(x), live);
    }

    lemma ValidDistinct()
      requires Valid()
      ensures DistinctKeys(Contents()) && Within(Contents(), 0.0, 1.0)
    {
      hide Bag, Num, NulFree, Chain, LeavesIn, Leaves, Entries, Body, InRange, Sized, Struct;
      var h: nat :| Struct(shape, h, 0.0, 1.0) && Sized(shape, true);
      EntriesWithin(shape, h, 0.0, 1.0);
      WithinDistinct(Contents(), 0.0, 1.0);
    }

    /** An operation on the leaf in the hole of `c` has left the tree `shape`. */
    lemma Settled(c: Ctx, es: seq<Entry>)
      requires LeafDone(shape, c, es) && |tmpIdx| == M && WellFormed(c)
      requires size == |EntriesWith(c, es)| && InRange(EntriesWith(c, es))
      ensures Valid() && Contents() == EntriesWith(c, es) && DistinctKeys(Contents())
    {
      hide Bag, Chain, LeavesIn, Leaves, Entries, Body, InRange, EntriesWith, RootOk;
      ValidDistinct();
    }

    lemma AbsentKey(key: Key, hot: BNode, hotIdx: seq<nat>, c: Ctx, x: Tree)
      requires Valid() && Located(key, hot, hotIdx, -1, c, x)
      ensures key !in Map()
      ensures NulFree(key) ==> SlotFor(x, hotIdx[|hotIdx| - 1], key, LoAt(c), HiAt(c))
    {
      hide Bag, BagOf, Num, NulFree, Chain, Leaves, Entries, Body, RootOk, RepCtx, BagAround, CtxRefs, OkCtx,
        FitsHole, MapOf, Plug, EntriesWith, Struct, Sized, Path;
      AtLeafParts(c, x);
      NotFound(c, x, key, hotIdx[|hotIdx| - 1]);
      MapOfKeys(Contents(), key);
    }

    lemma LocatedEntry(key: Key, hot: BNode, hotIdx: seq<nat>, find: int, c: Ctx, x: Tree)
      requires Located(key, hot, hotIdx, find, c, x) && find != -1
      ensures WellFormed(c) && x.Leaf? && Lengths(x) && Contents() == EntriesWith(c, Entries(x))
      ensures |hotIdx| > 0 && var i := hotIdx[|hotIdx| - 1];
              i < |x.keys| && i < |x.data| && x.keys[i] == key && x.data[i] == find
    {
      hide Bag, BagOf, Num, NulFree, Chain, Leaves, Body, RepCtx, BagAround, CtxRefs, OkCtx, FitsHole,
        Entries, Plug, Path, EntriesWith, Contents;
    }

    lemma PresentKey(key: Key, hot: BNode, hotIdx: seq<nat>, find: int, c: Ctx, x: Tree)
      requires Valid() && Located(key, hot, hotIdx, find, c, x) && find != -1
      ensures WellFormed(c) && x.Leaf? && Lengths(x) && hotIdx[|hotIdx| - 1] < |x.keys|
        && x.keys[hotIdx[|hotIdx| - 1]] == key
      ensures var p := |EntriesBefore(c)| + hotIdx[|hotIdx| - 1];
              p < |Contents()| && Contents()[p] == (key, find) && DistinctKeys(Contents())
    {
      hide Valid, Located, Contents, MapOf, Entries, Plug, Path, Within, EntriesWith, EntriesBefore, Lengths,
        DistinctKeys, WellFormed;
      ValidDistinct();
      LocatedEntry(key, hot, hotIdx, find, c, x);
      EntryInHole(c, x, hotIdx[|hotIdx| - 1]);
    }

    /** The datum of `key`, or -1. */
    method Search(key: Key) returns (r: int)
      requires Valid()
      ensures r == if key in Map() then Map()[key] else -1
      ensures key in Map() ==> 0 <= r < INT_LIMIT
    {
      hide Valid, Located, MapOf, NulFree, Entries, DistinctKeys, SlotFor;
      ghost var c: Ctx, x: Tree;
      var hot, hotIdx;
      r, hot, hotIdx, c, x := SearchPath(key);
      if r == -1 {
        AbsentKey(key, hot, hotIdx, c, x);
      } else {
        PresentKey(key, hot, hotIdx, r, c, x);
        RemoveFromMap(Contents(), |EntriesBefore(c)| + hotIdx[|hotIdx| - 1]);
        DatumAt(|EntriesBefore(c)| + hotIdx[|hotIdx| - 1]);
      }
    }

    lemma DatumAt(p: nat)
      requires Valid() && p < |Contents()|
      ensures 0 <= Contents()[p].1 < INT_LIMIT
    {
      hide Bag, Chain, LeavesIn, Leaves, Entries, Body, RootOk;
      assert Contents()[p] in Contents();
    }

    /** 1: the key was inserted; 0: it was there, and has the new datum. */
    method Insert(key: Key, data: int) returns (r: int)
      requires Valid() && NulFree(key) && 0 <= data < INT_LIMIT
      modifies this, live
      ensures Valid() && Map() == old(Map())[key := data]
      ensures r == (if key in old(Map()) then 0 else 1) && size == old(size) + r
      ensures live >= old(live) && fresh(live - old(live))
    {
      hide Valid, Located, MapOf, NulFree, Entries, DistinctKeys, SlotFor, LeafDone, AtLeaf, EntriesWith, InRange,
        InsertAt, Path, LoAt, HiAt, EntriesBefore, Within;
      ghost var s: Tree;
      var find, hot, hotIdx, c, x := SearchPath(key);
      var lf := hotIdx[|hotIdx| - 1];
      ghost var es := Contents();
      LocatedParts(key, hot, hotIdx, find, c, x);
      ghost var p := |EntriesBefore(c)| + lf;
      if find == -1 {
        AbsentKey(key, hot, hotIdx, c, x);
        if !hot.IsFull() {
          s := PutInLeaf(hot, lf, key, data, c, x);
        } else {
          s := SolveOverflowLeaf(key, data, hot, hotIdx, c, x);
        }
        size := size + 1;
        shape := s;
        r := 1;
        InsertedContents(c, x, lf, key, data);
        Settled(c, Entries(With(x, lf, key, data)));
        InsertInMap(es, p, (key, data));
      } else {
        PresentKey(key, hot, hotIdx, find, c, x);
        s := ModifyLeaf(hot, lf, data, c, x);
        shape := s;
        r := 0;
        ModifiedContents(c, x, lf, data);
        Settled(c, Entries(Leaf(x.node, x.keys, x.data[lf := data])));
        SetInMap(es, p, data);
      }
    }

    lemma LocatedParts(key: Key, hot: BNode, hotIdx: seq<nat>, find: int, c: Ctx, x: Tree)
      requires Valid() && Located(key, hot, hotIdx, find, c, x)
      ensures WellFormed(c) && AtLeaf(c, x) && x.Leaf? && Lengths(x) && hot == x.node && |hotIdx| > 0
        && hotIdx[..|hotIdx| - 1] == Path(c)
      ensures hotIdx[|hotIdx| - 1] <= |x.keys| <= M - 1 && (c.Frame? ==> |x.keys| >= 2)
      ensures hot in live && hot.key == x.keys && (hot == root <==> c.Top?)
      ensures size == |Contents()| && InRange(Contents()) && |tmpIdx| == M && Contents() == EntriesWith(c, Entries(x))
    {
      hide Bag, BagOf, Num, NulFree, Chain, Leaves, Entries, Body, RootOk, RepCtx, BagAround, CtxRefs, OkCtx,
        FitsHole, MapOf, InRange;
      AtLeafParts(c, x);
      AtLeafNode(c, x);
      LeafFacts(c, x);
    }

    /** 1: the key was removed; 0: it was not there. */
    method Remove(key: Key) returns (r: int)
      requires Valid()
      modifies this, live
      ensures Valid() && Map() == old(Map()) - {key}
      ensures r == (if key in old(Map()) then 1 else 0) && size == old(size) - r
      ensures live <= old(live)
    {
      hide Valid, Located, MapOf, NulFree, Entries, DistinctKeys, SlotFor, LeafDone, AtLeaf, EntriesWith, InRange,
        RemoveAt;
      ghost var s: Tree;
      var find, hot, hotIdx, c, x := SearchPath(key);
      ghost var es := Contents();
      if find == -1 {
        AbsentKey(key, hot, hotIdx, c, x);
        r := 0;
      } else {
        LocatedParts(key, hot, hotIdx, find, c, x);
        PresentKey(key, hot, hotIdx, find, c, x);
        var lf := hotIdx[|hotIdx| - 1];
        if hot != root && |hot.key| <= MIN_KEYS {
          s := SolveUnderflowLeaf(hot, hotIdx, c, x);
        } else {
          s := EraseInLeaf(hot, hotIdx, c, x);
        }
        size := size - 1;
        shape := s;
        r := 1;
        RemovedContents(c, x, lf);
        Settled(c, Entries(Without(x, lf)));
        RemoveFromMap(es, |EntriesBefore(c)| + lf);
      }
    }

    /** The live nodes are those that child links lead to from the root, each along one path. */
    lemma EachNodeOnce(n: BNode)
      requires Valid()
      ensures n in live <==> exists path :: Leads(live, root, path, n)
      ensures forall p, q :: Leads(live, root, p, n) && Leads(live, root, q, n) ==> p == q
      ensures n in live ==> forall c | c in n.child && c != null :: c in live
    {
      hide Bag, BagOf, Body, Chain, LeavesIn, Leaves, Entries, RootOk, InRange, Leads;
      OnceOfSet(live);
      AllRefs(shape, live);
      if n in live {
        var path := PathTo(shape, live, n);
        forall c: BNode | c in n.child
          ensures c in live
        {
          Closed(shape, n, c);
        }
      }
      forall p | Leads(live, root, p, n)
        ensures n in live
      {
        LeadsInto(shape, live, p, n);
      }
      forall p, q | Leads(live, root, p, n) && Leads(live, root, q, n)
        ensures p == q
      {
        OnePath(shape, live, p, q, n);
      }
    }

    /** Every node has at most four keys, and two or more if it is not the root; a leaf has a datum for
        each key; another node has one child more, none of them null, and is their parent. */
    lemma NodeShape(n: BNode)
      requires Valid() && n in live
      ensures root in live && root.parent == null && |n.key| <= 4 && (n != root ==> 2 <= |n.key|)
      ensures if n.isLeaf then |n.data| == |n.key|
              else |n.child| == |n.key| + 1 && forall c | c in n.child :: c != null && c.parent == n
    {
      hide Bag, BagOf, Num, NulFree, Body, Chain, LeavesIn, Leaves, Entries, InRange, Struct, Sorted;
      AllRefs(shape, live);
      var h: nat :| Struct(shape, h, 0.0, 1.0) && Sized(shape, true);
      NodeFacts(shape, h, 0.0, 1.0, n);
      RootInBag(shape);
    }

    /** All leaves are on one level, which is `Height(shape)` child links below the root. */
    lemma LeavesLevel(path: seq<nat>, n: BNode)
      requires Valid() && Leads(live, root, path, n)
      ensures n.isLeaf <==> |path| == Height(shape)
    {
      hide Bag, BagOf, Num, NulFree, Body, Chain, LeavesIn, Leaves, Entries, InRange, Struct, Sorted, Sized, Leads;
      var h: nat :| Struct(shape, h, 0.0, 1.0) && Sized(shape, true);
      Level(shape, h, 0.0, 1.0, live, path, n);
      HeightIs(shape, h, 0.0, 1.0);
    }

    /** The map is what the leaves hold: `k` has the datum `d` exactly if some leaf has both at one slot. */
    lemma MapIsHeap(k: Key, d: int)
      requires Valid()
      ensures (k in Map() && Map()[k] == d) <==>
              exists n, i: nat ::
                n in live && n.isLeaf && i < |n.key| && i < |n.data| && n.key[i] == k && n.data[i] == d
    {
      hide Bag, BagOf, Num, NulFree, Chain, Leaves, Entries, Body, Sized, Struct, Held, LeafNodes, Less, MapOf,
        RootOk, InRange;
      Walkable();
      ValidDistinct();
      LeavesListed();
      HeldMeans(Leaves(shape), k, d);
      PairInMap(Contents(), k, d);
    }

    lemma LeavesListed()
      requires Valid()
      ensures forall n :: n in Leaves(shape) <==> n in live && n.isLeaf
    {
      hide Bag, BagOf, Num, NulFree, Chain, Leaves, Entries, Body, Sized, Struct, Held, Less, MapOf, RootOk, InRange;
      Walkable();
      AllRefs(shape, live);
      forall n | n in live && n.isLeaf
        ensures n in Leaves(shape)
      {
        LeafListed(shape, n);
      }
    }

    /** The separators of the whole tree, exact above leaves. */
    lemma Separators(p: Tree, i: nat)
      requires Valid() && Occurs(p, shape) && p.Inner? && i < |p.keys|
      ensures |p.kids| == |p.keys| + 1
      ensures forall e | e in Entries(p.kids[i]) :: Less(e.0, p.keys[i])
      ensures forall e | e in Entries(p.kids[i + 1]) :: !Less(e.0, p.keys[i])
      ensures p.kids[i + 1].Leaf? ==> |p.kids[i + 1].keys| > 0 && p.kids[i + 1].keys[0] == p.keys[i]
    {
      hide Bag, Num, NulFree, Less, Chain, LeavesIn, Leaves, Entries, Body, Sized, Struct, Occurs;
      var h: nat :| Struct(shape, h, 0.0, 1.0) && Sized(shape, true);
      Separates(shape, h, 0.0, 1.0, p, i);
    }

    /** Separator `i` of the node that `path` leads to is above all keys in leaves below child `i`, and
        not above any below child `i + 1`; where these are leaves, it is the first key of the latter. */
    lemma SeparatorsInHeap(path: seq<nat>, n: BNode, i: nat, rest: seq<nat>, l: BNode, j: nat)
      requires Valid() && Leads(live, root, path, n) && !n.isLeaf && i < |n.key| && l.isLeaf && j < |l.key|
      ensures |n.child| == |n.key| + 1
      ensures Leads(live, n.child[i], rest, l) ==> Less(l.key[j], n.key[i])
      ensures Leads(live, n.child[i + 1], rest, l) ==> !Less(l.key[j], n.key[i])
      ensures n.child[i + 1] != null
      ensures n.child[i + 1].isLeaf ==> |n.child[i + 1].key| > 0 && n.child[i + 1].key[0] == n.key[i]
    {
      hide Bag, BagOf, Num, NulFree, Chain, LeavesIn, Leaves, Entries, InRange, Struct, Sorted, Sized, Leads, Less,
        Occurs;
      var h: nat :| Struct(shape, h, 0.0, 1.0) && Sized(shape, true);
      var p := SubtreeAt(shape, live, path, n);
      var h', lo', hi' := OccursStruct(p, shape, h, 0.0, 1.0);
      InnerLengths(p, h', lo', hi');
      Separates(shape, h, 0.0, 1.0, p, i);
      assert Bodies(p.kids) && Body(p.kids[i]) && Body(p.kids[i + 1]);
      Edges(p, h', lo', hi', i);
      Edges(p, h', lo', hi', i + 1);
      if Leads(live, n.child[i], rest, l) {
        EntryBelow(p.kids[i], h' - 1, Edge(p.keys, i, lo', hi'), Edge(p.keys, i + 1, lo', hi'), live, rest, l, j);
      }
      if Leads(live, n.child[i + 1], rest, l) {
        var lo'', hi'' := Edge(p.keys, i + 1, lo', hi'), Edge(p.keys, i + 2, lo', hi');
        EntryBelow(p.kids[i + 1], h' - 1, lo'', hi'', live, rest, l, j);
      }
    }

    /** `size` counts the keys of the map. */
    lemma SizeIsMap()
      requires Valid()
      ensures size == |Map()|
    {
      hide Bag, Num, NulFree, Chain, LeavesIn, Leaves, Entries, Body, Sized, Struct, RootOk, DistinctKeys, Within,
        MapOf;
      ValidDistinct();
      MapSize(Contents());
    }

    /** A tree of `L = Height(shape) + 1` levels, which is also how many nodes a search visits. */
    lemma SizeBounds()
      requires Valid()
      ensures size == |Map()|
      ensures size <= 4 * Pow(5, Height(shape))
      ensures Height(shape) > 0 ==> 4 * Pow(3, Height(shape) - 1) <= size
    {
      hide Bag, Num, NulFree, Chain, LeavesIn, Leaves, Entries, Body, Sized, Struct, RootOk, MapOf;
      SizeIsMap();
      HeightBounds(shape);
    }

    // ----- the chain of leaves -----

    /** `next` and `prev` lead from leaf to leaf, and each goes back where the other came from. */
    lemma LeafLinks(n: BNode)
      requires Valid() && n in live && n.isLeaf
      ensures n.next != null ==> n.next in live && n.next.isLeaf && n.next.prev == n
      ensures n.prev != null ==> n.prev in live && n.prev.isLeaf && n.prev.next == n
    {
      hide Bag, BagOf, Num, NulFree, Leaves, Entries, Body, Sized, Struct, Held, Less, MapOf, RootOk, InRange, Linked;
      LeavesListed();
      var ls := Leaves(shape);
      var i :| 0 <= i < |ls| && ls[i] == n;
      ChainNeighbours(null, ls, null, i);
      if n.next != null {
        ChainNeighbours(null, ls, null, i + 1);
        assert ls[i + 1] in ls;
      }
      if n.prev != null {
        ChainNeighbours(null, ls, null, i - 1);
        assert ls[i - 1] in ls;
      }
    }

    /** The chain of leaves holds exactly the entries, in ascending key order. */
    lemma Walkable()
      requires Valid()
      ensures LeavesIn(Leaves(shape)) && Chain(Leaves(shape)) && Distinct(Leaves(shape))
        && LeafNodes(Leaves(shape)) && Leaves(shape) != []
      ensures Held(Leaves(shape)) == Contents() && size == |Contents()|
      ensures forall i, j :: 0 <= i < j < |Contents()| ==> Less(Contents()[i].0, Contents()[j].0)
      ensures forall i :: 0 <= i < |Contents()| ==> NulFree(Contents()[i].0) && 0 <= Contents()[i].1 < INT_LIMIT
    {
      hide Bag, Num, NulFree, Less, Chain, Leaves, Entries, Body, Sized, Struct, Held, LeafNodes;
      ValidDistinct();
      LeavesDistinct(shape, live);
      LeavesHold(shape);
      var h: nat :| Struct(shape, h, 0.0, 1.0) && Sized(shape, true);
      LeavesAreLeaves(shape, h, 0.0, 1.0);
      var es := Contents();
      forall i, j | 0 <= i < j < |es|
        ensures Less(es[i].0, es[j].0)
      {
        LessIsNum(es[i].0, es[j].0);
      }
      forall i | 0 <= i < |es|
        ensures NulFree(es[i].0) && 0 <= es[i].1 < INT_LIMIT
      {
        assert es[i] in es && In(es[i].0, 0.0, 1.0);
      }
    }

    lemma RestIsLive(done: seq<BNode>, rest: seq<BNode>)
      requires LeavesIn(done + rest)
      ensures forall n | n in rest :: n in live
    {
      assert forall n | n in rest :: n in done + rest;
    }

    /** Where the leaf that a search found stands in the chain. */
    lemma Position(key: Key, hot: BNode, hotIdx: seq<nat>, find: int, c: Ctx, x: Tree)
      requires Valid() && Located(key, hot, hotIdx, find, c, x)
      ensures WellFormed(c) && Leaves(shape) == LeavesBefore(c) + ([hot] + LeavesAfter(c))
      ensures Held(LeavesBefore(c)) == EntriesBefore(c)
      ensures hot.isLeaf && hot.key == x.keys && |x.keys| == |hot.data| && hotIdx[|hotIdx| - 1] <= |x.keys|
      ensures var p := |EntriesBefore(c)| + hotIdx[|hotIdx| - 1];
              && p <= |Contents()|
              && (forall i :: 0 <= i < p ==> Less(Contents()[i].0, key))
              && (forall i :: p <= i < |Contents()| ==> !Less(Contents()[i].0, key))
    {
      hide Bag, BagOf, Num, NulFree, Less, Chain, Leaves, RootOk, RepCtx, BagAround, CtxRefs, OkCtx, FitsHole,
        MapOf, Held, Plug, LeavesIn, Entries, Within, Path, EntriesWith, Body, Rep, CtxRoot, LeavesBefore,
        LeavesAfter, EntriesBefore;
      AtLeafParts(c, x);
      AtLeafNode(c, x);
      PlugLeaves(c, x);
      LeavesOfLeaf(x);
      AroundHolds(c, hot);
      assert LeavesBefore(c) + [hot] + LeavesAfter(c) == LeavesBefore(c) + ([hot] + LeavesAfter(c));
      HoleSplit(key, hotIdx[|hotIdx| - 1], find, c, x);
    }

    lemma HoleSplit(key: Key, i: nat, find: int, c: Ctx, x: Tree)
      requires Valid() && WellFormed(c) && OkCtx(c, 0) && x.Leaf? && FitsHole(c, x, 0) && Lengths(x)
        && Contents() == EntriesWith(c, Entries(x))
      requires LoAt(c) <= Num(key) < HiAt(c)
      requires if find == -1 then
                 && i <= |x.keys| && (i > 0 ==> Num(x.keys[i - 1]) < Num(key))
                 && (i < |x.keys| ==> Num(key) < Num(x.keys[i]))
               else
                 i < |x.keys| && x.keys[i] == key
      ensures var p := |EntriesBefore(c)| + i;
              && p <= |Contents()|
              && (forall j :: 0 <= j < p ==> Less(Contents()[j].0, key))
              && (forall j :: p <= j < |Contents()| ==> !Less(Contents()[j].0, key))
    {
      hide Bag, Num, NulFree, Less, Valid, OkCtx, FitsHole, Entries, Within, EntriesWith, EntriesBefore;
      ValidDistinct();
      if 0 < i < |x.keys| {
        LeafOrder(c, x, i);
      }
      SplitAt(c, x, key, i);
    }

    /** The leftmost leaf: the way down through first children. */
    method FirstLeaf() returns (first: BNode)
      requires Valid()
      ensures Leaves(shape) != [] && first == Leaves(shape)[0]
    {
      hide Bag, BagOf, Num, NulFree, Chain, Leaves, Entries, Sized, Sorted, InRange, LeavesIn;
      first := root;
      ghost var t, lo, hi := shape, 0.0, 1.0;
      ghost var h: nat :| Struct(shape, h, 0.0, 1.0) && Sized(shape, true);
      LeavesAreLeaves(shape, h, 0.0, 1.0);
      while !first.isLeaf
        invariant first == t.node && Body(t) && Struct(t, h, lo, hi)
        invariant Leaves(t) != [] && Leaves(t)[0] == Leaves(shape)[0]
        decreases t
      {
        FirstKid(t, h, lo, hi);
        first := first.child[0];
        t, h, lo, hi := t.kids[0], h - 1, lo, Hi(t.keys, 0, hi);
      }
      LeavesOfLeaf(t);
    }

    /** Gives the entries, in chain order, the data `ds`. */
    method AssignData(first: BNode, ds: seq<int>)
      requires Valid() && Leaves(shape) != [] && first == Leaves(shape)[0]
      requires |ds| >= |Contents()| && forall d | d in ds :: 0 <= d < INT_LIMIT
      modifies this`shape, live`data
      ensures Valid() && Contents() == Paired(old(Contents()), ds)
    {
      hide Bag, BagOf, Num, NulFree, Less, Chain, Leaves, Entries, Held, LeafNodes, RootOk, Skeleton, Distinct;
      ghost var es := Contents();
      Walkable();
      BodyHasSkeleton(shape);
      assert Below(shape) <= live;
      AssignChain(first, ds, Leaves(shape), es);
      PairedInRange(es, ds);
      RelabelOk(shape);
      shape := Relabel(shape);
    }

    // ----- destruction -----

    /** Frees the subtrees below `n`, children before their parents. */
    method DeleteChild(n: BNode, ghost t: Tree)
      requires Body(t) && n == t.node && Once(Bag(t)) && Refs(t) <= live
      modifies this`live, Below(t)`key, Below(t)`child, Below(t)`parent
      ensures live == old(live) - Below(t)
      decreases t, 0
    {
      hide Bag, BagOf, Once;
      RootOnce(t);
      if n.isLeaf {
        return;
      }
      ghost var ts := t.kids;
      assert Bodies(ts[0..]);
      NoRefs(ts[..0]);
      for i := 0 to |n.child|
        invariant n.child == NodesOf(ts)
        invariant live == old(live) - RefsOf(ts[..i])
        invariant Bodies(ts[i..])
      {
        KidApart(ts, i);
        KidRefs(ts, i);
        assert Body(ts[i]) && Bodies(ts[i + 1..]) by {
          assert ts[i] == ts[i..][0] && ts[i + 1..] == ts[i..][1..];
        }
        ghost var others := RefsOf(ts[i + 1..]);
        BelowWithin(ts[i + 1..]);
        assert others !! Refs(ts[i]) && others <= old(live);
        DeleteTree(n.child[i], ts[i]);
      }
      assert ts[..|ts|] == ts;
    }

    method DeleteTree(n: BNode, ghost t: Tree)
      requires Body(t) && n == t.node && Once(Bag(t)) && Refs(t) <= live
      modifies this`live, Refs(t)`key, Refs(t)`child, Refs(t)`parent
      ensures live == old(live) - Refs(t)
      decreases t, 1
    {
      hide Bag, BagOf, Once, Body;
      RootOnce(t);
      DeleteChild(n, t);
      Delete(n);
    }

    /** The destructor: every node is freed, once, and none is left. */
    method Destroy()
      requires Valid()
      modifies this`live, live`key, live`child, live`parent
      ensures live == {}
    {
      hide Bag, BagOf, Chain, Leaves, Entries, RootOk, LeavesIn;
      OnceOfSet(live);
      AllRefs(shape, live);
      DeleteTree(root, shape);
    }
  }
}
