/** The moves of `InnerMoves` and `LeafMoves` as operations on laid out trees. */
module TreeMoves {
  import opened Keys
  import opened Shape
  import opened Rebalance
  import opened Repair
  import opened Layout
  import opened LeafMoves
  import opened InnerMoves

  /** The nodes below the pair `j`, `j + 1` of inner children, and those beside it. */
  ghost function Outer(p: Tree, j: nat): set<BNode>
    requires PairAt(p, j)
  {
    RefsOf(p.kids[..j]) + RefsOf(p.kids[j + 2..])
  }

  ghost function Kids(p: Tree, j: nat): set<BNode>
    requires PairAt(p, j) && p.kids[j].Inner?
  {
    RefsOf(p.kids[j].kids) + RefsOf(p.kids[j + 1].kids)
  }

  ghost function Deep(p: Tree, j: nat): set<BNode>
    requires PairAt(p, j) && p.kids[j].Inner?
  {
    BelowOf(p.kids[j].kids) + BelowOf(p.kids[j + 1].kids)
  }

  /** The roots of the grandchildren below the pair. */
  ghost function Roots(p: Tree, j: nat): set<BNode>
    requires PairAt(p, j) && p.kids[j].Inner?
  {
    Nodes(NodesOf(p.kids[j].kids)) + Nodes(NodesOf(p.kids[j + 1].kids))
  }

  /** What no repair of the pair touches: the trees beside it, and those below it but for the
      parents of their roots. */
  ghost predicate Rest(p: Tree, j: nat)
    requires PairAt(p, j) && p.kids[j].Inner?
    reads (Outer(p, j) + Kids(p, j))`key, (Outer(p, j) + Kids(p, j))`child, (Outer(p, j) + Kids(p, j))`data,
      (Outer(p, j) + Deep(p, j))`parent
  {
    && RepAll(p.kids[..j], p.node)
    && RepAll(p.kids[j + 2..], p.node)
    && Bodies(p.kids[j].kids)
    && Bodies(p.kids[j + 1].kids)
  }

  /** The parent, the pair, the roots below the pair and everything else are different nodes of `all`. */
  ghost predicate InnerApart(p: Tree, j: nat, all: set<BNode>)
    requires PairAt(p, j) && p.kids[j].Inner?
  {
    var a, b := p.kids[j], p.kids[j + 1];
    && Outer(p, j) + Kids(p, j) + {p.node, a.node, b.node} <= all
    && p.node != a.node && p.node != b.node && a.node != b.node
    && {p.node, a.node, b.node} !! Outer(p, j) + Kids(p, j)
    && Roots(p, j) !! Outer(p, j) + Deep(p, j)
    && Roots(p, j) <= Kids(p, j)
    && RefsOf(a.kids) !! RefsOf(b.kids)
    && RootsApart(a.kids) && RootsApart(b.kids)
  }

  /** The roots are different nodes, and none is below another. */
  ghost predicate RootsApart(ts: seq<Tree>) {
    && Nodes(NodesOf(ts)) !! BelowOf(ts)
    && forall i, k :: 0 <= i < k < |ts| ==> ts[i].node != ts[k].node
  }

  lemma OnceGroups(n: BNode, pre: multiset<BNode>, a: multiset<BNode>, b: multiset<BNode>,
      post: multiset<BNode>, all: set<BNode>)
    requires multiset{n} + (pre + (a + b) + post) <= multiset(all)
    ensures n in all
    ensures forall r | r in a :: r != n && r in all && r !in b
    ensures forall r | r in b :: r != n && r in all && r !in a
    ensures forall r | r in pre :: r != n && r in all && r !in a && r !in b
    ensures forall r | r in post :: r != n && r in all && r !in a && r !in b
  {
    var s := multiset{n} + (pre + (a + b) + post);
    assert forall r :: s[r] == multiset{n}[r] + pre[r] + a[r] + b[r] + post[r];
    assert forall r :: s[r] <= multiset(all)[r] <= 1;
    assert n in s;
  }

  lemma PairBag(p: Tree, j: nat)
    requires p.Inner? && j + 1 < |p.kids|
    ensures Bag(p) == multiset{p.node}
                      + (BagOf(p.kids[..j]) + (Bag(p.kids[j]) + Bag(p.kids[j + 1])) + BagOf(p.kids[j + 2..]))
  {
    hide Bag, BagOf;
    InnerBag(p);
    SpliceBag(p.kids, j, j + 2, []);
    PairFolds(p.kids[j], p.kids[j + 1]);
    assert p.kids[j..j + 2] == [p.kids[j], p.kids[j + 1]];
  }

  lemma InnerBag(p: Tree)
    requires p.Inner?
    ensures Bag(p) == multiset{p.node} + BagOf(p.kids)
  {
    hide BagOf;
  }

  lemma RootsAreApart(ts: seq<Tree>)
    requires Once(BagOf(ts))
    ensures RootsApart(ts)
  {
    forall i, k | 0 <= i < |ts| && 0 <= k < |ts|
      ensures ts[i].node !in Below(ts[k]) && (i != k ==> ts[i].node != ts[k].node)
    {
      hide Bag, BagOf;
      if i == k {
        OnceSmaller(Bag(ts[i]), BagOf(ts));
        RootNotBelow(ts[i]);
      } else {
        TwoApart(ts, i, k);
      }
    }
  }

  lemma RootNotBelow(t: Tree)
    requires Once(Bag(t))
    ensures t.node !in Below(t)
  {
  }

  lemma TwoApart(ts: seq<Tree>, i: nat, k: nat)
    requires Once(BagOf(ts)) && i < |ts| && k < |ts| && i != k
    ensures Refs(ts[i]) !! Refs(ts[k])
  {
    hide Bag, BagOf;
    TwoInBagOf(ts, if i < k then i else k, if i < k then k else i);
    OnceSmaller(Bag(ts[i]) + Bag(ts[k]), BagOf(ts));
    OnceSplit(Bag(ts[i]), Bag(ts[k]));
  }

  lemma KidsOnce(t: Tree, all: set<BNode>)
    requires t.Inner? && Bag(t) <= multiset(all)
    ensures Once(BagOf(t.kids)) && t.node !in RefsOf(t.kids) && RefsOf(t.kids) <= Refs(t)
  {
    hide BagOf;
    OneAndOthers(t.node, BagOf(t.kids), all);
  }

  lemma OneAndOthers(n: BNode, b: multiset<BNode>, all: set<BNode>)
    requires multiset{n} + b <= multiset(all)
    ensures Once(b) && n !in b
  {
    var u := multiset{n} + b;
    assert u[n] == 1 + b[n] && u[n] <= multiset(all)[n] <= 1;
    forall r | r in b
      ensures b[r] == 1
    {
      assert u[r] == multiset{n}[r] + b[r] && u[r] <= multiset(all)[r] <= 1;
    }
  }

  lemma RootsIn(ts: seq<Tree>)
    ensures Nodes(NodesOf(ts)) <= RefsOf(ts)
  {
    forall i | 0 <= i < |ts|
      ensures ts[i].node in RefsOf(ts)
    {
      assert ts[i].node in Refs(ts[i]);
    }
  }

  /** The parent, the two subtrees of the pair and the trees beside them share no node. */
  lemma GroupsApart(p: Tree, j: nat, all: set<BNode>)
    requires PairAt(p, j) && Bag(p) <= multiset(all)
    ensures var a, b := p.kids[j], p.kids[j + 1];
            && {p.node} + Refs(a) + Refs(b) + Outer(p, j) <= all
            && p.node !in Refs(a) && p.node !in Refs(b) && p.node !in Outer(p, j)
            && Refs(a) !! Refs(b) && Refs(a) !! Outer(p, j) && Refs(b) !! Outer(p, j)
            && Bag(a) <= multiset(all) && Bag(b) <= multiset(all)
  {
    hide BagOf, Bag, Once;
    var a, b := p.kids[j], p.kids[j + 1];
    PairBag(p, j);
    OnceGroups(p.node, BagOf(p.kids[..j]), Bag(a), Bag(b), BagOf(p.kids[j + 2..]), all);
    PartsWithin(p.node, BagOf(p.kids[..j]), Bag(a), Bag(b), BagOf(p.kids[j + 2..]), multiset(all));
  }

  lemma PartsWithin(n: BNode, pre: multiset<BNode>, a: multiset<BNode>, b: multiset<BNode>,
      post: multiset<BNode>, all: multiset<BNode>)
    requires multiset{n} + (pre + (a + b) + post) <= all
    ensures a <= all && b <= all
  {
    var s := multiset{n} + (pre + (a + b) + post);
    assert a <= s && b <= s;
  }

  lemma PairIsApart(p: Tree, j: nat, all: set<BNode>)
    requires PairAt(p, j) && Bag(p) <= multiset(all) && p.kids[j].Inner?
    ensures InnerApart(p, j, all)
  {
    hide BagOf, Bag, Once, RootsApart, NodesOf, Nodes, BelowOf, Refs, RefsOf;
    var a, b := p.kids[j], p.kids[j + 1];
    GroupsApart(p, j, all);
    KidsOnce(a, all);
    KidsOnce(b, all);
    RootsAreApart(a.kids);
    RootsAreApart(b.kids);
    RootsIn(a.kids);
    RootsIn(b.kids);
    RootsDeep(p, j);
  }

  lemma RootsDeep(p: Tree, j: nat)
    requires PairAt(p, j) && p.kids[j].Inner?
    requires RootsApart(p.kids[j].kids) && RootsApart(p.kids[j + 1].kids)
    requires Roots(p, j) <= Kids(p, j) && Kids(p, j) !! Outer(p, j)
    requires Nodes(NodesOf(p.kids[j].kids)) <= RefsOf(p.kids[j].kids)
      && Nodes(NodesOf(p.kids[j + 1].kids)) <= RefsOf(p.kids[j + 1].kids)
    requires RefsOf(p.kids[j].kids) !! RefsOf(p.kids[j + 1].kids)
    ensures Roots(p, j) !! Outer(p, j) + Deep(p, j)
  {
    hide Bag, BagOf, Nodes, NodesOf, RefsOf, BelowOf;
  }

  lemma AssemblePair(p: Tree, j: nat, r: Triple, par: BNode?)
    requires PairAt(p, j) && r.0.node == p.kids[j].node && r.2.node == p.kids[j + 1].node
    requires p.node.parent == par && !p.node.isLeaf
    requires p.node.key == p.keys[j := r.1] && p.node.child == NodesOf(p.kids)
    requires RepAll(p.kids[..j], p.node) && RepAll(p.kids[j + 2..], p.node)
    requires Rep(r.0, p.node) && Rep(r.2, p.node)
    ensures Rep(SetPair(p, j, r), par)
  {
    SplicedForms(p, j, r, r.0);
    hide SetPair, Bag, BagOf, PairAt;
    var p' := SetPair(p, j, r);
    assert p'.kids[..j] == p.kids[..j] && p'.kids[j + 2..] == p.kids[j + 2..];
    forall i | 0 <= i < |p'.kids|
      ensures Rep(p'.kids[i], p.node)
    {
      if i < j {
        assert p'.kids[i] == p.kids[..j][i];
      } else if i > j + 1 {
        assert p'.kids[i] == p.kids[j + 2..][i - j - 2];
      }
    }
    assert Parents(p'.kids, p.node) && Bodies(p'.kids);
  }

  lemma RepInner(t: Tree, par: BNode?)
    requires t.Inner? && t.node.parent == par && !t.node.isLeaf && t.node.key == t.keys
      && t.node.child == NodesOf(t.kids)
    requires Parents(t.kids, t.node) && Bodies(t.kids)
    ensures Rep(t, par)
  {
    hide Bodies, Parents;
  }

  /** The last child of `a` has become the first child of `b`. */
  lemma ShiftedRight(a: Tree, sep: Key, b: Tree, par: BNode)
    requires a.Inner? && b.Inner? && Lengths(a) && Lengths(b) && |a.keys| > 1
    requires var r := ShiftRight(a, sep, b);
             && a.node.parent == par && !a.node.isLeaf && a.node.key == r.0.keys
             && a.node.child == DropLast(NodesOf(a.kids))
             && b.node.parent == par && !b.node.isLeaf && b.node.key == r.2.keys
             && b.node.child == [Last(NodesOf(a.kids))] + NodesOf(b.kids)
    requires Bodies(a.kids) && Bodies(b.kids)
    requires Parents(DropLast(a.kids), a.node) && Parents(b.kids, b.node) && Last(a.kids).node.parent == b.node
    ensures var r := ShiftRight(a, sep, b);
            Rep(r.0, par) && Rep(r.2, par)
  {
    hide Glue, Bag, BagOf, Body, Rep;
    var r := ShiftRight(a, sep, b);
    assert NodesOf(r.0.kids) == DropLast(NodesOf(a.kids));
    RepInner(r.0, par);
    RepInner(r.2, par);
  }

  lemma KidBodies(t: Tree, i: nat)
    requires t.Inner? && Bodies(t.kids) && i < |t.kids|
    ensures Body(t.kids[i])
    ensures t.kids[i].node.isLeaf == t.kids[i].Leaf? && t.kids[i].node.key == t.kids[i].keys
  {
  }

  /** Underflow, "rotate 11": child `j + 1` of `p` has just lost key `rm` and child `rm + 1`. */
  method RotateKidFromPrev(ghost p: Tree, ghost j: nat, hot: BNode, prev: BNode, pn: BNode, rm: nat, pa: nat,
      ghost par: BNode?, ghost all: set<BNode>)
    requires PairAt(p, j) && p.kids[j].Inner? && |p.kids[j].keys| > 1 && InnerApart(p, j, all)
    requires RepAround(p, j, j + 2, par)
    requires pn == p.node && pa == j + 1 && prev == p.kids[j].node && hot == p.kids[j + 1].node
    requires Rep(p.kids[j], pn) && RepMinus(p.kids[j + 1], rm, pn)
    modifies all`parent, all`key, all`child
    ensures Rep(SetPair(p, j, ShiftRight(p.kids[j], p.keys[j], p.kids[j + 1])), par)
  {
    hide Bag, BagOf, SetPair, Body, Rest;
    ghost var a, b := p.kids[j], p.kids[j + 1];
    ghost var x, y := Last(a.kids).node, b.kids[0].node;
    RotateReady(p, j, hot, prev, pn, rm, pa, par, all);
    BorrowKidFromPrev(hot, prev, pn, rm, pa, x, y);
    assert Rest(p, j);
    assert Parents(DropLast(a.kids), prev) && Parents(b.kids, hot);
    AssembleRight(p, j, par);
  }

  lemma AssembleRight(p: Tree, j: nat, par: BNode?)
    requires PairAt(p, j) && p.kids[j].Inner? && |p.kids[j].keys| > 1 && Rest(p, j)
    requires var a, b := p.kids[j], p.kids[j + 1];
             var r := ShiftRight(a, p.keys[j], b);
             && p.node.parent == par && !p.node.isLeaf && p.node.key == p.keys[j := r.1]
             && p.node.child == NodesOf(p.kids)
             && a.node.parent == p.node && !a.node.isLeaf && a.node.key == r.0.keys
             && a.node.child == DropLast(NodesOf(a.kids))
             && b.node.parent == p.node && !b.node.isLeaf && b.node.key == r.2.keys
             && b.node.child == [Last(NodesOf(a.kids))] + NodesOf(b.kids)
             && Parents(DropLast(a.kids), a.node) && Parents(b.kids, b.node) && Last(a.kids).node.parent == b.node
    ensures Rep(SetPair(p, j, ShiftRight(p.kids[j], p.keys[j], p.kids[j + 1])), par)
  {
    hide Glue, Bag, BagOf, Body;
    var a, b := p.kids[j], p.kids[j + 1];
    ShiftedRight(a, p.keys[j], b, p.node);
    AssemblePair(p, j, ShiftRight(a, p.keys[j], b), par);
  }

  lemma RotateReady(p: Tree, j: nat, hot: BNode, prev: BNode, pn: BNode, rm: nat, pa: nat, par: BNode?, all: set<BNode>)
    requires PairAt(p, j) && p.kids[j].Inner? && |p.kids[j].keys| > 1 && InnerApart(p, j, all)
    requires RepAround(p, j, j + 2, par)
    requires pn == p.node && pa == j + 1 && prev == p.kids[j].node && hot == p.kids[j + 1].node
    requires Rep(p.kids[j], pn) && RepMinus(p.kids[j + 1], rm, pn)
    ensures CanBorrowFromPrev(hot, prev, pn, rm, pa, Last(p.kids[j].kids).node, p.kids[j + 1].kids[0].node)
    ensures GlueKey(p.kids[j + 1].kids[0].node, p.keys[j]) == Glue(p.kids[j + 1], p.keys[j])
    ensures Rest(p, j) && Parents(p.kids[j].kids, prev) && !prev.isLeaf && prev.key == p.kids[j].keys
      && prev.child == NodesOf(p.kids[j].kids)
  {
    hide Bag, BagOf;
    var a, b := p.kids[j], p.kids[j + 1];
    assert Bodies(a.kids) && Parents(a.kids, prev);
    KidBodies(a, |a.kids| - 1);
    KidBodies(b, 0);
    assert RemoveAt(hot.child, rm + 1)[0] == hot.child[0];
    assert Last(a.kids).node in Refs(Last(a.kids)) && b.kids[0].node in Refs(b.kids[0]);
  }

  /** Underflow, "rotate 12": child `j` of `p` has just lost key `rm` and child `rm + 1`. */
  method RotateKidFromNext(ghost p: Tree, ghost j: nat, hot: BNode, next: BNode, pn: BNode, rm: nat, pa: nat,
      ghost par: BNode?, ghost all: set<BNode>)
    requires PairAt(p, j) && p.kids[j].Inner? && |p.kids[j + 1].keys| > 1 && InnerApart(p, j, all)
    requires RepAround(p, j, j + 2, par)
    requires pn == p.node && pa == j && hot == p.kids[j].node && next == p.kids[j + 1].node
    requires RepMinus(p.kids[j], rm, pn) && Rep(p.kids[j + 1], pn)
    modifies all`parent, all`key, all`child
    ensures Rep(SetPair(p, j, ShiftLeft(p.kids[j], p.keys[j], p.kids[j + 1])), par)
  {
    hide Bag, BagOf, SetPair, Body, Rest;
    ghost var a, b := p.kids[j], p.kids[j + 1];
    ghost var x := b.kids[0].node;
    RotateNextReady(p, j, hot, next, pn, rm, pa, par, all);
    BorrowKidFromNext(hot, next, pn, rm, pa, x);
    assert Rest(p, j);
    assert Parents(a.kids, hot) && Parents(b.kids[1..], next);
    AssembleLeft(p, j, par);
  }

  lemma RotateNextReady(p: Tree, j: nat, hot: BNode, next: BNode, pn: BNode, rm: nat, pa: nat, par: BNode?,
      all: set<BNode>)
    requires PairAt(p, j) && p.kids[j].Inner? && |p.kids[j + 1].keys| > 1 && InnerApart(p, j, all)
    requires RepAround(p, j, j + 2, par)
    requires pn == p.node && pa == j && hot == p.kids[j].node && next == p.kids[j + 1].node
    requires RepMinus(p.kids[j], rm, pn) && Rep(p.kids[j + 1], pn)
    ensures CanBorrowFromNext(hot, next, pn, rm, pa, p.kids[j + 1].kids[0].node)
    ensures GlueKey(p.kids[j + 1].kids[0].node, p.keys[j]) == Glue(p.kids[j + 1], p.keys[j])
    ensures Rest(p, j) && Parents(p.kids[j + 1].kids, next) && !next.isLeaf && next.key == p.kids[j + 1].keys
      && next.child == NodesOf(p.kids[j + 1].kids)
  {
    hide Bag, BagOf;
    var a, b := p.kids[j], p.kids[j + 1];
    assert Bodies(b.kids) && Parents(b.kids, next);
    KidBodies(b, 0);
    assert b.kids[0].node in Refs(b.kids[0]);
  }

  lemma ShiftedLeft(a: Tree, sep: Key, b: Tree, par: BNode)
    requires a.Inner? && b.Inner? && Lengths(a) && Lengths(b) && |b.keys| > 1
    requires var r := ShiftLeft(a, sep, b);
             && a.node.parent == par && !a.node.isLeaf && a.node.key == r.0.keys
             && a.node.child == NodesOf(a.kids) + [b.kids[0].node]
             && b.node.parent == par && !b.node.isLeaf && b.node.key == r.2.keys && b.node.child == NodesOf(b.kids)[1..]
    requires Bodies(a.kids) && Bodies(b.kids)
    requires Parents(a.kids, a.node) && Parents(b.kids[1..], b.node) && b.kids[0].node.parent == a.node
    ensures var r := ShiftLeft(a, sep, b);
            Rep(r.0, par) && Rep(r.2, par)
  {
    hide Glue, Bag, BagOf, Body, Rep;
    var r := ShiftLeft(a, sep, b);
    assert NodesOf(r.0.kids) == NodesOf(a.kids) + [b.kids[0].node];
    assert NodesOf(r.2.kids) == NodesOf(b.kids)[1..];
    RepInner(r.0, par);
    RepInner(r.2, par);
  }

  lemma AssembleLeft(p: Tree, j: nat, par: BNode?)
    requires PairAt(p, j) && p.kids[j].Inner? && |p.kids[j + 1].keys| > 1 && Rest(p, j)
    requires var a, b := p.kids[j], p.kids[j + 1];
             var r := ShiftLeft(a, p.keys[j], b);
             && p.node.parent == par && !p.node.isLeaf && p.node.key == p.keys[j := r.1]
             && p.node.child == NodesOf(p.kids)
             && a.node.parent == p.node && !a.node.isLeaf && a.node.key == r.0.keys
             && a.node.child == NodesOf(a.kids) + [b.kids[0].node]
             && b.node.parent == p.node && !b.node.isLeaf && b.node.key == r.2.keys
             && b.node.child == NodesOf(b.kids)[1..]
             && Parents(a.kids, a.node) && Parents(b.kids[1..], b.node) && b.kids[0].node.parent == a.node
    ensures Rep(SetPair(p, j, ShiftLeft(p.kids[j], p.keys[j], p.kids[j + 1])), par)
  {
    hide Glue, Bag, BagOf, Body;
    var a, b := p.kids[j], p.kids[j + 1];
    ShiftedLeft(a, p.keys[j], b, p.node);
    AssemblePair(p, j, ShiftLeft(a, p.keys[j], b), par);
  }

  // ----- merges -----

  ghost predicate NulFreeKeys(t: Tree) {
    forall k | k in t.keys :: NulFree(k)
  }

  /** Underflow, "merge 11": child `j + 1` of `p` has just lost key `rm` and child `rm + 1`. */
  method MergeKidIntoPrev(ghost p: Tree, ghost j: nat, hot: BNode, prev: BNode, pn: BNode, rm: nat, pa: nat,
      ghost par: BNode?, ghost all: set<BNode>)
    requires PairAt(p, j) && p.kids[j].Inner? && InnerApart(p, j, all)
    requires NulFreeKeys(p.kids[j + 1]) && NulFreeKeys(p.kids[j + 1].kids[0])
    requires RepAround(p, j, j + 2, par)
    requires pn == p.node && pa == j + 1 && prev == p.kids[j].node && hot == p.kids[j + 1].node
    requires Rep(p.kids[j], pn) && RepMinus(p.kids[j + 1], rm, pn)
    modifies all`parent, all`key, all`child
    ensures RepMinus(JoinKids(p, j, Merge(p.kids[j], p.keys[j], p.kids[j + 1])), j, par)
    ensures pn.child == old(pn.child) && pn.key == old(pn.key)
  {
    hide Bag, BagOf, JoinKids, Body, Rest, NulFree;
    ghost var a, b := p.kids[j], p.kids[j + 1];
    ghost var moved := Nodes(NodesOf(b.kids));
    MergeReady(p, j, hot, prev, pn, rm, par, all);
    MergeKidsIntoPrev(hot, prev, pn.key[pa - 1], rm, moved);
    assert Rest(p, j);
    assert Parents(a.kids, prev) && Parents(b.kids, prev);
    AssembleMerge(p, j, par);
  }

  lemma MergeReady(p: Tree, j: nat, hot: BNode, prev: BNode, pn: BNode, rm: nat, par: BNode?, all: set<BNode>)
    requires PairAt(p, j) && p.kids[j].Inner? && InnerApart(p, j, all)
    requires NulFreeKeys(p.kids[j + 1]) && NulFreeKeys(p.kids[j + 1].kids[0])
    requires RepAround(p, j, j + 2, par)
    requires pn == p.node && prev == p.kids[j].node && hot == p.kids[j + 1].node
    requires Rep(p.kids[j], pn) && RepMinus(p.kids[j + 1], rm, pn)
    ensures CanMergeIntoPrev(hot, prev, rm, Nodes(NodesOf(p.kids[j + 1].kids)))
    ensures GlueKey(p.kids[j + 1].kids[0].node, p.keys[j]) == Glue(p.kids[j + 1], p.keys[j])
    ensures hot.child[0] == p.kids[j + 1].kids[0].node
    ensures Rest(p, j) && Parents(p.kids[j].kids, prev) && !prev.isLeaf && prev.key == p.kids[j].keys
      && prev.child == NodesOf(p.kids[j].kids)
  {
    hide Bag, BagOf, NulFree;
    var a, b := p.kids[j], p.kids[j + 1];
    assert Bodies(a.kids) && Parents(a.kids, prev);
    KidBodies(b, 0);
    assert RemoveAt(hot.child, rm + 1)[0] == hot.child[0];
    assert NodesOf(b.kids)[0] in Nodes(NodesOf(b.kids));
  }

  lemma AssembleMerge(p: Tree, j: nat, par: BNode?)
    requires PairAt(p, j) && p.kids[j].Inner? && Rest(p, j)
    requires var a, b := p.kids[j], p.kids[j + 1];
             && p.node.parent == par && !p.node.isLeaf && p.node.key == p.keys && p.node.child == NodesOf(p.kids)
             && a.node.parent == p.node && !a.node.isLeaf
             && a.node.key == a.keys + [Glue(b, p.keys[j])] + b.keys
             && a.node.child == NodesOf(a.kids) + NodesOf(b.kids)
             && Parents(a.kids, a.node) && Parents(b.kids, a.node)
    ensures RepMinus(JoinKids(p, j, Merge(p.kids[j], p.keys[j], p.kids[j + 1])), j, par)
  {
    hide Glue, Bag, BagOf, Body;
    var a, b := p.kids[j], p.kids[j + 1];
    var m := Merge(a, p.keys[j], b);
    assert NodesOf(m.kids) == NodesOf(a.kids) + NodesOf(b.kids);
    RepInner(m, p.node);
    AssembleJoin(p, j, m, par);
  }

  lemma AssembleJoin(p: Tree, j: nat, m: Tree, par: BNode?)
    requires PairAt(p, j) && m.node == p.kids[j].node
    requires p.node.parent == par && !p.node.isLeaf && p.node.key == p.keys && p.node.child == NodesOf(p.kids)
    requires RepAll(p.kids[..j], p.node) && RepAll(p.kids[j + 2..], p.node) && Rep(m, p.node)
    ensures RepMinus(JoinKids(p, j, m), j, par)
  {
    SplicedForms(p, j, (m, p.keys[j], m), m);
    hide JoinKids, Bag, BagOf, PairAt, Body;
    var p' := JoinKids(p, j, m);
    assert NodesOf(p'.kids) == RemoveAt(NodesOf(p.kids), j + 1);
    forall i | 0 <= i < |p'.kids|
      ensures Rep(p'.kids[i], p.node)
    {
      if i < j {
        assert p'.kids[i] == p.kids[..j][i];
      } else if i > j {
        assert p'.kids[i] == p.kids[j + 2..][i - j - 1];
      }
    }
    assert Parents(p'.kids, p.node) && Bodies(p'.kids);
  }

  /** Underflow, "merge 12": child `j` of `p` has just lost key `rm` and child `rm + 1`. */
  method MergeKidNext(ghost p: Tree, ghost j: nat, hot: BNode, next: BNode, pn: BNode, rm: nat, pa: nat,
      ghost par: BNode?, ghost all: set<BNode>)
    requires PairAt(p, j) && p.kids[j].Inner? && InnerApart(p, j, all)
    requires NulFreeKeys(p.kids[j + 1])
    requires RepAround(p, j, j + 2, par)
    requires pn == p.node && pa == j && hot == p.kids[j].node && next == p.kids[j + 1].node
    requires RepMinus(p.kids[j], rm, pn) && Rep(p.kids[j + 1], pn)
    modifies all`parent, all`key, all`child
    ensures RepMinus(JoinKids(p, j, Merge(p.kids[j], p.keys[j], p.kids[j + 1])), j, par)
    ensures pn.child == old(pn.child) && pn.key == old(pn.key)
  {
    hide Bag, BagOf, JoinKids, Body, Rest, NulFree;
    ghost var a, b := p.kids[j], p.kids[j + 1];
    ghost var moved := Nodes(NodesOf(b.kids));
    MergeNextReady(p, j, hot, next, pn, rm, pa, par, all);
    MergeKidsNext(hot, next, pn, rm, pa, moved);
    assert Rest(p, j);
    assert Parents(a.kids, hot) && Parents(b.kids, hot);
    AssembleMerge(p, j, par);
  }

  lemma MergeNextReady(p: Tree, j: nat, hot: BNode, next: BNode, pn: BNode, rm: nat, pa: nat, par: BNode?,
      all: set<BNode>)
    requires PairAt(p, j) && p.kids[j].Inner? && InnerApart(p, j, all)
    requires NulFreeKeys(p.kids[j + 1])
    requires RepAround(p, j, j + 2, par)
    requires pn == p.node && pa == j && hot == p.kids[j].node && next == p.kids[j + 1].node
    requires RepMinus(p.kids[j], rm, pn) && Rep(p.kids[j + 1], pn)
    ensures CanMergeNext(hot, next, pn, rm, pa, Nodes(NodesOf(p.kids[j + 1].kids)))
    ensures GlueKey(next.child[0], p.keys[j]) == Glue(p.kids[j + 1], p.keys[j])
    ensures Rest(p, j) && next.key == p.kids[j + 1].keys && next.child == NodesOf(p.kids[j + 1].kids)
  {
    hide Bag, BagOf, NulFree;
    var a, b := p.kids[j], p.kids[j + 1];
    assert Bodies(b.kids) && Parents(b.kids, next);
    KidBodies(b, 0);
    assert NodesOf(b.kids)[0] in Nodes(NodesOf(b.kids));
  }

  // ----- split -----

  lemma InsertRemove<T>(s: seq<T>, i: nat)
    requires i < |s|
    ensures InsertAt(RemoveAt(s, i), i, s[i]) == s
  {
  }

  /** What `hot`, with `key` and `c` still outside, needs to be split into itself and the new node `u`. */
  ghost predicate CanSplit(x: Tree, lf: nat, key: Key, c: BNode, par: BNode?, all: set<BNode>)
    reads Refs(x)`parent, Refs(x)`key, Refs(x)`child, Refs(x)`data
  {
    && x.Inner? && |x.keys| == M && |x.kids| == M + 1 && RepPlus(x, lf, par)
    && key == x.keys[lf] && c == x.kids[lf + 1].node
    && NulFreeKeys(x)
    && x.node !in RefsOf(x.kids) && RefsOf(x.kids) + {x.node} <= all && RootsApart(x.kids)
  }

  lemma SplitReady(x: Tree, lf: nat, key: Key, c: BNode, par: BNode?, all: set<BNode>)
    requires CanSplit(x, lf, key, c, par, all)
    ensures var hot := x.node;
            && |hot.key| == M - 1 && |hot.child| == M && lf < M && hot.parent == par && !hot.isLeaf
            && InsertAt(hot.key, lf, key) == x.keys && InsertAt(hot.child, lf + 1, c) == NodesOf(x.kids)
            && Bodies(x.kids) && Parents(x.kids, hot)
            && Nodes(NodesOf(x.kids)) <= all && x.node !in Nodes(NodesOf(x.kids))
  {
    hide Bag, BagOf, Body, NulFree;
    InsertRemove(x.keys, lf);
    InsertRemove(NodesOf(x.kids), lf + 1);
    RootsIn(x.kids);
  }

  lemma SplitFree(x: Tree, lf: nat, key: Key, c: BNode, par: BNode?, all: set<BNode>)
    requires CanSplit(x, lf, key, c, par, all)
    ensures NulFree(key) && null !in x.node.child && forall k :: 0 <= k < |x.node.key| ==> NulFree(x.node.key[k])
  {
    hide Bag, BagOf, Body, NulFree, RootsApart;
    forall k | 0 <= k < |x.node.key|
      ensures NulFree(x.node.key[k])
    {
      assert x.node.key[k] == x.keys[if k < lf then k else k + 1];
    }
    forall k | 0 <= k < |x.node.child|
      ensures x.node.child[k] != null
    {
      assert x.node.child[k] == NodesOf(x.kids)[if k < lf + 1 then k else k + 1];
    }
  }

  method SplitInnode(ghost x: Tree, hot: BNode, u: BNode, tmp: seq<int>, lf: nat, key: Key, c: BNode,
      ghost par: BNode?, ghost all: set<BNode>)
      returns (mid: Key)
    requires CanSplit(x, lf, key, c, par, all) && hot == x.node && VirtualInsert(tmp, lf)
    requires u !in all && u.key == [] && u.child == [] && !u.isLeaf && u.parent == par
    modifies u`key, u`child, all`key, all`child, all`parent
    ensures |x.keys| == M && Lengths(x) && mid == Divide(x, u).1
    ensures Rep(Divide(x, u).0, par) && Rep(Divide(x, u).2, par)
  {
    hide Bag, BagOf, Body, NulFree, InsertAt, Divide, Rep, RepPlus, NulFreeKeys, VirtualInsert;
    SplitReady(x, lf, key, c, par, all);
    SplitFree(x, lf, key, c, par, all);
    DivideMiddle(x, u);
    mid := MoveUpperKids(hot, u, tmp, lf, key, c);
    KeepLowerKids(hot, tmp, lf, key, c);
    assert Bodies(x.kids);
    assert Parents(x.kids[..M / 2 + 1], hot);
    DividedRep(x, u, par);
  }

  lemma DivideMiddle(x: Tree, u: BNode)
    requires x.Inner? && |x.keys| == M && |x.kids| == M + 1
    ensures Lengths(x) && Divide(x, u).1 == x.keys[M / 2]
  {
  }

  lemma DividedRep(x: Tree, u: BNode, par: BNode?)
    requires x.Inner? && |x.keys| == M && |x.kids| == M + 1
    requires x.node.parent == par && !x.node.isLeaf && x.node.key == x.keys[..M / 2]
      && x.node.child == NodesOf(x.kids)[..M / 2 + 1]
    requires u.parent == par && !u.isLeaf && u.key == x.keys[M / 2 + 1..] && u.child == NodesOf(x.kids)[M / 2 + 1..]
    requires Bodies(x.kids) && Parents(x.kids[..M / 2 + 1], x.node) && forall n :: n in Nodes(u.child) ==> n.parent == u
    ensures Rep(Divide(x, u).0, par) && Rep(Divide(x, u).2, par)
  {
    hide Bag, BagOf, Body;
    var r := Divide(x, u);
    assert NodesOf(r.0.kids) == NodesOf(x.kids)[..M / 2 + 1];
    assert NodesOf(r.2.kids) == NodesOf(x.kids)[M / 2 + 1..];
    forall i | 0 <= i < |r.2.kids|
      ensures r.2.kids[i].node.parent == u
    {
      assert u.child[i] in u.child;
    }
    RepInner(r.0, par);
    RepInner(r.2, par);
  }

  /** The parent `p` of a split child still lacks the separator and the right half. */
  lemma SplitKids(p: Tree, i: nat, r: Triple)
    requires p.Inner? && i <= |p.keys| && |p.kids| == |p.keys| + 1 && r.0.node == p.kids[i].node
    ensures var q := SplitKid(p, i, r);
            && q.Inner? && q.node == p.node && |q.keys| == |p.keys| + 1 && |q.kids| == |p.kids| + 1
            && p.keys == RemoveAt(q.keys, i) && NodesOf(p.kids) == RemoveAt(NodesOf(q.kids), i + 1)
            && q.kids[..i] == p.kids[..i] && q.kids[i] == r.0 && q.kids[i + 1] == r.2
            && q.kids[i + 2..] == p.kids[i + 1..]
  {
    SplicedForms(p, i, r, r.0);
    hide SplitKid;
    var q := SplitKid(p, i, r);
    NodesInsert(p.kids, i, r.0, r.2);
    assert q.kids == InsertAt(p.kids[i := r.0], i + 1, r.2);
  }

  lemma NodesInsert(ts: seq<Tree>, i: nat, a: Tree, b: Tree)
    requires i < |ts| && a.node == ts[i].node
    ensures NodesOf(ts) == RemoveAt(NodesOf(InsertAt(ts[i := a], i + 1, b)), i + 1)
  {
  }

  lemma RepPieces(ts: seq<Tree>, i: nat, par: BNode)
    requires i + 1 < |ts| && RepAll(ts[..i], par) && Rep(ts[i], par) && Rep(ts[i + 1], par) && RepAll(ts[i + 2..], par)
    ensures RepAll(ts, par)
  {
    hide Bag, BagOf, Body;
    forall k | 0 <= k < |ts|
      ensures ts[k].node.parent == par && Body(ts[k])
    {
      if k < i {
        assert ts[k] == ts[..i][k];
      } else if k > i + 1 {
        assert ts[k] == ts[i + 2..][k - i - 2];
      }
    }
  }

  lemma AssembleSplit(p: Tree, i: nat, r: Triple, par: BNode?)
    requires p.Inner? && i <= |p.keys| && |p.kids| == |p.keys| + 1 && RepAround(p, i, i + 1, par)
    requires r.0.node == p.kids[i].node && Rep(r.0, p.node) && Rep(r.2, p.node)
    ensures RepPlus(SplitKid(p, i, r), i, par)
  {
    hide SplitKid, Bag, BagOf, Body, Rep, RepAll, RemoveAt, NodesOf;
    SplitKids(p, i, r);
    RepPieces(SplitKid(p, i, r).kids, i, p.node);
  }

  /** The new root over the two halves of the old one. */
  method LinkPair(hot: BNode, u: BNode, key: Key, ghost r: Triple, ghost all: set<BNode>) returns (p: BNode)
    requires Refs(r.0) + Refs(r.2) <= all
    requires hot == r.0.node && u == r.2.node && key == r.1 && NulFree(key) && Body(r.0) && Body(r.2)
    requires r.0.node !in Below(r.0) && r.2.node !in Below(r.2) && r.0.node !in Refs(r.2)
      && r.2.node !in Refs(r.0) && hot != u
    modifies hot`parent, u`parent
    ensures fresh(p) && Rep(Pair(p, r), null)
  {
    hide Bag, BagOf, Body;
    p := LinkRoot(hot, u, key);
    RepInner(Pair(p, r), null);
  }

  /** The new root over `hot` and `u`. */
  method LinkRoot(hot: BNode, u: BNode, key: Key) returns (p: BNode)
    requires hot != u && NulFree(key)
    modifies hot`parent, u`parent
    ensures fresh(p) && p.parent == null && !p.isLeaf && p.key == [key] && p.child == [hot, u]
    ensures hot.parent == p && u.parent == p
  {
    p := new BNode(null, false);
    p.key := p.key + [CStr(key)];
    p.child := p.child + [hot];
    p.child := p.child + [u];
    hot.parent := p;
    u.parent := p;
  }
}
