/** Repairs of two neighbouring children inside their parent. */
module Repair {
  import opened Keys
  import opened Shape
  import opened Rebalance
  import opened Context

  type Triple = (Tree, Key, Tree)

  /** Children `j` and `j + 1` and the separator between them become `r`. */
  ghost function SetPair(p: Tree, j: nat, r: Triple): Tree
    requires p.Inner? && j < |p.keys| && |p.kids| == |p.keys| + 1
  {
    Splice(p, j, j + 2, Pair(p.node, r))
  }

  /** Child `i` becomes the two children of `r`. */
  ghost function SplitKid(p: Tree, i: nat, r: Triple): Tree
    requires p.Inner? && i <= |p.keys| && |p.kids| == |p.keys| + 1
  {
    Splice(p, i, i + 1, Pair(p.node, r))
  }

  /** Children `j` and `j + 1` become the one child `x`. */
  ghost function JoinKids(p: Tree, j: nat, x: Tree): Tree
    requires p.Inner? && j < |p.keys| && |p.kids| == |p.keys| + 1
  {
    Splice(p, j, j + 2, Inner(p.node, [], [x]))
  }

  /** How the spliced parents read as updates of the key and child vectors. */
  lemma SplicedForms(p: Tree, j: nat, r: Triple, x: Tree)
    requires p.Inner? && j <= |p.keys| && |p.kids| == |p.keys| + 1
    ensures SplitKid(p, j, r) == Inner(p.node, InsertAt(p.keys, j, r.1), InsertAt(p.kids[j := r.0], j + 1, r.2))
    ensures j < |p.keys| ==> SetPair(p, j, r) == Inner(p.node, p.keys[j := r.1], p.kids[j := r.0][j + 1 := r.2])
    ensures j < |p.keys| ==> JoinKids(p, j, x) == Inner(p.node, RemoveAt(p.keys, j), RemoveAt(p.kids[j := x], j + 1))
  {
  }

  // ----- contents -----

  ghost predicate SameFolds(p: Tree, q: Tree) {
    p.node == q.node && Entries(p) == Entries(q) && Leaves(p) == Leaves(q) && Bag(p) == Bag(q)
  }

  lemma SetPairContents(p: Tree, j: nat, r: Triple)
    requires p.Inner? && j < |p.keys| && |p.kids| == |p.keys| + 1
    requires SameContents(p.kids[j], p.kids[j + 1], r.0, r.2)
    ensures SameFolds(p, SetPair(p, j, r))
  {
    hide EntriesOf, LeavesOf, BagOf, Entries, Leaves, Bag;
    assert p.kids[j..j + 2] == [p.kids[j], p.kids[j + 1]];
    PairFolds(p.kids[j], p.kids[j + 1]);
    PairFolds(r.0, r.2);
    SpliceKeepsEntries(p, j, j + 2, Pair(p.node, r));
    SpliceKeepsLeaves(p, j, j + 2, Pair(p.node, r));
    SpliceChangesBag(p, j, j + 2, Pair(p.node, r), multiset{}, multiset{});
    assert Bag(p) + multiset{} == Bag(p) && Bag(SetPair(p, j, r)) + multiset{} == Bag(SetPair(p, j, r));
  }

  lemma JoinKidsContents(p: Tree, j: nat, x: Tree)
    requires p.Inner? && j < |p.keys| && |p.kids| == |p.keys| + 1
    requires Joins(p.kids[j], p.kids[j + 1], x)
    ensures Entries(JoinKids(p, j, x)) == Entries(p)
    ensures p.kids[j + 1].Inner? ==> Leaves(JoinKids(p, j, x)) == Leaves(p)
    ensures Bag(JoinKids(p, j, x)) + multiset{p.kids[j + 1].node} == Bag(p)
  {
    hide EntriesOf, LeavesOf, BagOf, Entries, Leaves, Bag;
    assert p.kids[j..j + 2] == [p.kids[j], p.kids[j + 1]];
    FoldsOne(x);
    PairFolds(p.kids[j], p.kids[j + 1]);
    var mid := Inner(p.node, [], [x]);
    SpliceKeepsEntries(p, j, j + 2, mid);
    if p.kids[j + 1].Inner? {
      SpliceKeepsLeaves(p, j, j + 2, mid);
    }
    SpliceChangesBag(p, j, j + 2, mid, multiset{}, multiset{p.kids[j + 1].node});
  }

  // ----- structure -----

  /** Children `j` and `j + 1` of `p` are neighbours around separator `j`. */
  lemma KidsAreSiblings(p: Tree, j: nat, h: nat, lo: real, hi: real)
    requires p.Inner? && Struct(p, h, lo, hi) && j < |p.keys|
    requires |p.kids[j].keys| > 0 && |p.kids[j + 1].keys| > 0
    ensures h > 0 && Siblings(p.kids[j], p.keys[j], p.kids[j + 1], h - 1, Lo(p.keys, j, lo), Hi(p.keys, j + 1, hi))
    ensures h == 1 && j > 0 ==> p.kids[j].keys[0] == p.keys[j - 1]
    ensures p.kids[j].Leaf? == p.kids[j + 1].Leaf? == (h == 1)
  {
    hide Num, NulFree, Sorted;
    SepFacts(p, j, h, lo, hi);
  }

  lemma SetPairStruct(p: Tree, j: nat, r: Triple, h: nat, lo: real, hi: real)
    requires p.Inner? && Struct(p, h, lo, hi) && j < |p.keys| && |p.kids| == |p.keys| + 1 && h > 0
    requires Siblings(r.0, r.1, r.2, h - 1, Lo(p.keys, j, lo), Hi(p.keys, j + 1, hi))
    requires h == 1 && j > 0 ==> |r.0.keys| > 0 && r.0.keys[0] == p.keys[j - 1]
    ensures Struct(SetPair(p, j, r), h, lo, hi)
  {
    hide Struct, Siblings;
    PairStruct(p.node, r, h - 1, Lo(p.keys, j, lo), Hi(p.keys, j + 1, hi));
    SpliceStruct(p, j, j + 2, Pair(p.node, r), h, lo, hi);
  }

  lemma SplitKidStruct(p: Tree, i: nat, r: Triple, h: nat, lo: real, hi: real)
    requires p.Inner? && Struct(p, h, lo, hi) && i <= |p.keys| && |p.kids| == |p.keys| + 1 && h > 0
    requires Siblings(r.0, r.1, r.2, h - 1, Lo(p.keys, i, lo), Hi(p.keys, i, hi))
    requires h == 1 && i > 0 ==> |r.0.keys| > 0 && r.0.keys[0] == p.keys[i - 1]
    ensures Struct(SplitKid(p, i, r), h, lo, hi)
  {
    hide Struct, Siblings;
    PairStruct(p.node, r, h - 1, Lo(p.keys, i, lo), Hi(p.keys, i, hi));
    SpliceStruct(p, i, i + 1, Pair(p.node, r), h, lo, hi);
  }

  lemma JoinKidsStruct(p: Tree, j: nat, x: Tree, h: nat, lo: real, hi: real)
    requires p.Inner? && Struct(p, h, lo, hi) && j < |p.keys| && |p.kids| == |p.keys| + 1 && h > 0
    requires Struct(x, h - 1, Lo(p.keys, j, lo), Hi(p.keys, j + 1, hi))
    requires h == 1 && j > 0 ==> |x.keys| > 0 && x.keys[0] == p.keys[j - 1]
    ensures Struct(JoinKids(p, j, x), h, lo, hi)
  {
    hide Struct;
    SingleStruct(p.node, x, h - 1, Lo(p.keys, j, lo), Hi(p.keys, j + 1, hi));
    SpliceStruct(p, j, j + 2, Inner(p.node, [], [x]), h, lo, hi);
  }

  /** The children of `t`, if it has any, are of regular size. */
  ghost predicate RegularKids(t: Tree) {
    t.Inner? ==> forall i :: 0 <= i < |t.kids| ==> Arity(t.kids[i])
  }

  /** Children `j` and `j + 1` can exchange or share their contents. */
  ghost predicate PairAt(p: Tree, j: nat) {
    && p.Inner? && j < |p.keys| && |p.kids| == |p.keys| + 1
    && var a, b := p.kids[j], p.kids[j + 1];
       && a.Leaf? == b.Leaf? && Lengths(a) && Lengths(b)
       && |a.keys| > 0 && |b.keys| > 0
       && RegularKids(a) && RegularKids(b)
       && (a.Inner? ==> forall x | x in a.kids + b.kids :: x.Leaf? == b.kids[0].Leaf?)
  }

  lemma ShiftLeftAt(p: Tree, j: nat, h: nat, lo: real, hi: real)
    requires Struct(p, h, lo, hi) && PairAt(p, j) && |p.kids[j + 1].keys| > 1
    ensures var r := ShiftLeft(p.kids[j], p.keys[j], p.kids[j + 1]);
            Struct(SetPair(p, j, r), h, lo, hi) && SameFolds(p, SetPair(p, j, r)) && RegularKids(r.0)
              && RegularKids(r.2)
  {
    hide Struct, Siblings, Num, NulFree, SameContents, SameFolds;
    var a, b := p.kids[j], p.kids[j + 1];
    var r := ShiftLeft(a, p.keys[j], b);
    KidsAreSiblings(p, j, h, lo, hi);
    var lo', hi' := Lo(p.keys, j, lo), Hi(p.keys, j + 1, hi);
    if h == 1 {
      ShiftLeftLeaves(a, p.keys[j], b, lo', hi');
    } else {
      ShiftLeftInner(a, p.keys[j], b, h - 1, lo', hi');
    }
    SetPairStruct(p, j, r, h, lo, hi);
    ShiftLeftContents(a, p.keys[j], b);
    SetPairContents(p, j, r);
  }

  lemma ShiftRightAt(p: Tree, j: nat, h: nat, lo: real, hi: real)
    requires Struct(p, h, lo, hi) && PairAt(p, j) && |p.kids[j].keys| > 1
    ensures var r := ShiftRight(p.kids[j], p.keys[j], p.kids[j + 1]);
            Struct(SetPair(p, j, r), h, lo, hi) && SameFolds(p, SetPair(p, j, r)) && RegularKids(r.0)
              && RegularKids(r.2)
  {
    hide Struct, Siblings, Num, NulFree, SameContents, SameFolds;
    var a, b := p.kids[j], p.kids[j + 1];
    var r := ShiftRight(a, p.keys[j], b);
    KidsAreSiblings(p, j, h, lo, hi);
    var lo', hi' := Lo(p.keys, j, lo), Hi(p.keys, j + 1, hi);
    if h == 1 {
      ShiftRightLeaves(a, p.keys[j], b, lo', hi');
    } else {
      ShiftRightInner(a, p.keys[j], b, h - 1, lo', hi');
    }
    SetPairStruct(p, j, r, h, lo, hi);
    ShiftRightContents(a, p.keys[j], b);
    SetPairContents(p, j, r);
  }

  lemma MergeAt(p: Tree, j: nat, h: nat, lo: real, hi: real)
    requires Struct(p, h, lo, hi) && PairAt(p, j)
    ensures var m := Merge(p.kids[j], p.keys[j], p.kids[j + 1]);
            && Struct(JoinKids(p, j, m), h, lo, hi) && RegularKids(m)
            && Joins(p.kids[j], p.kids[j + 1], m)
  {
    hide Struct, Siblings, Num, NulFree, Joins;
    var a, b := p.kids[j], p.kids[j + 1];
    var m := Merge(a, p.keys[j], b);
    KidsAreSiblings(p, j, h, lo, hi);
    var lo', hi' := Lo(p.keys, j, lo), Hi(p.keys, j + 1, hi);
    if h == 1 {
      MergeLeaves(a, p.keys[j], b, lo', hi');
    } else {
      MergeInner(a, p.keys[j], b, h - 1, lo', hi');
    }
    JoinKidsStruct(p, j, m, h, lo, hi);
    MergeContents(a, p.keys[j], b);
  }

  lemma PairOfKids(p: Tree, j: nat, h: nat, lo: real, hi: real)
    requires p.Inner? && Struct(p, h, lo, hi) && j < |p.keys|
    requires |p.kids[j].keys| > 0 && |p.kids[j + 1].keys| > 0
    requires RegularKids(p.kids[j]) && RegularKids(p.kids[j + 1])
    ensures PairAt(p, j)
  {
    hide Num, NulFree, Sorted;
    var a, b := p.kids[j], p.kids[j + 1];
    KidLevels(p, j, h, lo, hi);
    KidLevels(p, j + 1, h, lo, hi);
  }

  lemma KidLevels(p: Tree, j: nat, h: nat, lo: real, hi: real)
    requires p.Inner? && Struct(p, h, lo, hi) && j <= |p.keys|
    ensures h > 0 && Lengths(p.kids[j]) && p.kids[j].Leaf? == (h == 1)
    ensures h > 1 ==> forall x | x in p.kids[j].kids :: x.Leaf? == (h == 2)
    ensures forall k | k in p.kids[j].keys :: NulFree(k)
    ensures h > 1 ==> forall x, k | x in p.kids[j].kids && k in x.keys :: NulFree(k)
  {
    hide Num, NulFree;
    var t := p.kids[j];
    assert Struct(t, h - 1, Lo(p.keys, j, lo), Hi(p.keys, j, hi));
    if h > 1 {
      forall x | x in t.kids
        ensures x.Leaf? == (h == 2) && forall k | k in x.keys :: NulFree(k)
      {
        var i :| 0 <= i < |t.kids| && t.kids[i] == x;
        assert Struct(x, h - 2, Lo(t.keys, i, Lo(p.keys, j, lo)), Hi(t.keys, i, Hi(p.keys, j, hi)));
      }
    }
  }

  // ----- sizes -----

  ghost predicate RegularBut(p: Tree, i: nat) {
    p.Inner? && forall k :: 0 <= k < |p.kids| && k != i ==> Arity(p.kids[k])
  }

  /** After a rotation that leaves both children with a regular number of keys. */
  lemma SetPairSized(p: Tree, j: nat, r: Triple, i: nat, isRoot: bool)
    requires p.Inner? && j < |p.keys| < M && |p.kids| == |p.keys| + 1 && RegularBut(p, i) && (i == j || i == j + 1)
    requires (if isRoot then 0 else 1) < |p.keys|
    requires RegularKids(r.0) && RegularKids(r.2) && 2 <= |r.0.keys| < M && 2 <= |r.2.keys| < M
    ensures Sized(SetPair(p, j, r), isRoot)
  {
    SplicedForms(p, j, r, r.0);
    hide SetPair;
  }

  lemma ShiftRightSizes(p: Tree, j: nat)
    requires PairAt(p, j) && |p.kids[j].keys| > 1
    ensures var r := ShiftRight(p.kids[j], p.keys[j], p.kids[j + 1]);
            && |r.0.keys| == |p.kids[j].keys| - 1 && |r.2.keys| == |p.kids[j + 1].keys| + 1
            && RegularKids(r.0) && RegularKids(r.2) && r.0.node == p.kids[j].node && r.2.node == p.kids[j + 1].node
  {
  }

  lemma ShiftLeftSizes(p: Tree, j: nat)
    requires PairAt(p, j) && |p.kids[j + 1].keys| > 1
    ensures var r := ShiftLeft(p.kids[j], p.keys[j], p.kids[j + 1]);
            && |r.0.keys| == |p.kids[j].keys| + 1 && |r.2.keys| == |p.kids[j + 1].keys| - 1
            && RegularKids(r.0) && RegularKids(r.2) && r.0.node == p.kids[j].node && r.2.node == p.kids[j + 1].node
  {
  }

  // ----- one level up after a split -----

  lemma UpSplitEntries(c: Ctx, r: Triple)
    requires WellFormed(c) && c.Frame?
    ensures EntriesWith(c, Entries(r.0) + Entries(r.2)) == EntriesWith(c.up, Entries(SplitKid(c.t, c.i, r)))
  {
    hide EntriesOf, Entries;
    SpliceEntries(c.t.kids, c.i, c.i + 1, [r.0, r.2]);
    PairFolds(r.0, r.2);
    Regroup(EntriesBefore(c.up), EntriesOf(c.t.kids[..c.i]), Entries(r.0) + Entries(r.2),
      EntriesOf(c.t.kids[c.i + 1..]), EntriesAfter(c.up));
    SplitKidFolds(c.t, c.i, r);
  }

  lemma UpSplitLeaves(c: Ctx, r: Triple)
    requires WellFormed(c) && c.Frame?
    ensures LeavesWith(c, Leaves(r.0) + Leaves(r.2)) == LeavesWith(c.up, Leaves(SplitKid(c.t, c.i, r)))
  {
    hide LeavesOf, Leaves;
    SpliceLeaves(c.t.kids, c.i, c.i + 1, [r.0, r.2]);
    PairFolds(r.0, r.2);
    Regroup(LeavesBefore(c.up), LeavesOf(c.t.kids[..c.i]), Leaves(r.0) + Leaves(r.2), LeavesOf(c.t.kids[c.i + 1..]),
      LeavesAfter(c.up));
    SplitKidFolds(c.t, c.i, r);
  }

  lemma UpSplitBag(c: Ctx, r: Triple)
    requires WellFormed(c) && c.Frame?
    ensures BagAround(c) + (Bag(r.0) + Bag(r.2)) == BagAround(c.up) + Bag(SplitKid(c.t, c.i, r))
  {
    hide BagOf, Bag;
    SpliceBag(c.t.kids, c.i, c.i + 1, [r.0, r.2]);
    PairFolds(r.0, r.2);
    SplitKidFolds(c.t, c.i, r);
  }

  lemma SplitKidFolds(p: Tree, i: nat, r: Triple)
    requires p.Inner? && i <= |p.keys| && |p.kids| == |p.keys| + 1
    ensures Entries(SplitKid(p, i, r)) == EntriesOf(p.kids[..i] + [r.0, r.2] + p.kids[i + 1..])
    ensures Leaves(SplitKid(p, i, r)) == LeavesOf(p.kids[..i] + [r.0, r.2] + p.kids[i + 1..])
    ensures Bag(SplitKid(p, i, r)) == multiset{p.node} + BagOf(p.kids[..i] + [r.0, r.2] + p.kids[i + 1..])
  {
    hide EntriesOf, LeavesOf, BagOf;
  }

  /** Both halves of a split child are regular, and so are all the others. */
  lemma SplitRegular(p: Tree, i: nat, r: Triple)
    requires p.Inner? && i <= |p.keys| && |p.kids| == |p.keys| + 1 && RegularBut(p, i)
    requires Arity(r.0) && Arity(r.2)
    ensures var q := SplitKid(p, i, r);
            q.Inner? && RegularKids(q) && |q.keys| == |p.keys| + 1 && |q.kids| == |q.keys| + 1 && q.node == p.node
    ensures var q := SplitKid(p, i, r);
            q.keys[i] == r.1 && q.kids[i] == r.0 && q.kids[i + 1] == r.2
  {
    SplicedForms(p, i, r, r.0);
    hide SplitKid;
  }

  /** `q` after the merge of its children `j` and `j + 1`. */
  ghost function Merged(q: Tree, j: nat): Tree
    requires PairAt(q, j)
  {
    JoinKids(q, j, Merge(q.kids[j], q.keys[j], q.kids[j + 1]))
  }
}
