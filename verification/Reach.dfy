/** Following child links through the heap. */
module Reach {
  import opened Keys
  import opened Shape
  import opened Contents
  import opened Descents
  import opened Layout
  import opened TreeMoves

  /** The child indices in `path` lead from `from` to `to`, through nodes of `all`. */
  ghost predicate Leads(all: set<BNode>, from: BNode?, path: seq<nat>, to: BNode)
    reads all`child
    decreases path
  {
    && from != null && from in all
    && if path == [] then from == to else path[0] < |from.child| && Leads(all, from.child[path[0]], path[1..], to)
  }

  /** The first step of a path into a tree enters one of its children. */
  lemma FirstStep(t: Tree, all: set<BNode>, path: seq<nat>, n: BNode)
    requires Body(t) && Leads(all, t.node, path, n) && path != []
    ensures t.Inner? && path[0] < |t.kids| && Body(t.kids[path[0]])
    ensures Leads(all, t.kids[path[0]].node, path[1..], n)
  {
    hide Bag, BagOf;
    if t.Inner? {
      assert Bodies(t.kids);
    }
  }

  lemma {:induction false} LeadsInto(t: Tree, all: set<BNode>, path: seq<nat>, n: BNode)
    requires Body(t) && Leads(all, t.node, path, n)
    ensures n in Bag(t)
    decreases path
  {
    hide Bag, BagOf, Body;
    if path != [] {
      FirstStep(t, all, path, n);
      LeadsInto(t.kids[path[0]], all, path[1..], n);
      KidInBag(t, path[0], n);
    }
  }

  lemma KidInBag(t: Tree, i: nat, n: BNode)
    requires t.Inner? && i < |t.kids| && n in Bag(t.kids[i])
    ensures n in BagOf(t.kids) && n in Bag(t)
  {
    assert Bag(t.kids[i]) <= BagOf(t.kids);
  }

  lemma {:induction false} InWhichKid(ts: seq<Tree>, n: BNode) returns (i: nat)
    requires n in BagOf(ts)
    ensures i < |ts| && n in Bag(ts[i])
    decreases ts
  {
    hide Bag;
    if n in Bag(ts[0]) {
      i := 0;
    } else {
      i := InWhichKid(ts[1..], n);
      i := i + 1;
    }
  }

  lemma {:induction false} PathTo(t: Tree, all: set<BNode>, n: BNode) returns (path: seq<nat>)
    requires Body(t) && Refs(t) <= all && n in Bag(t)
    ensures Leads(all, t.node, path, n)
    decreases t
  {
    hide BagOf;
    if n == t.node {
      path := [];
    } else {
      assert Bodies(t.kids);
      var i := InWhichKid(t.kids, n);
      KidsWithin(t, i);
      var rest := PathTo(t.kids[i], all, n);
      path := [i] + rest;
      assert path[1..] == rest;
    }
  }

  lemma KidsWithin(t: Tree, i: nat)
    requires t.Inner? && i < |t.kids|
    ensures Refs(t.kids[i]) <= Refs(t)
  {
    hide BagOf;
    assert Bag(t.kids[i]) <= BagOf(t.kids);
  }

  /** In a tree that holds each of its nodes once, one path leads to each. */
  lemma {:induction false} OnePath(t: Tree, all: set<BNode>, p: seq<nat>, q: seq<nat>, n: BNode)
    requires Body(t) && Once(Bag(t)) && Leads(all, t.node, p, n) && Leads(all, t.node, q, n)
    ensures p == q
    decreases p
  {
    hide Bag, BagOf, Body, Once;
    RootOnce(t);
    if p == [] || q == [] {
      OnlyAtRoot(t, all, p, n);
      OnlyAtRoot(t, all, q, n);
    } else {
      FirstStep(t, all, p, n);
      FirstStep(t, all, q, n);
      LeadsInto(t.kids[p[0]], all, p[1..], n);
      LeadsInto(t.kids[q[0]], all, q[1..], n);
      assert n in Refs(t.kids[p[0]]) && n in Refs(t.kids[q[0]]);
      if p[0] != q[0] {
        TwoApart(t.kids, p[0], q[0]);
        assert false;
      }
      KidApart(t.kids, p[0]);
      OnePath(t.kids[p[0]], all, p[1..], q[1..], n);
      assert p == [p[0]] + p[1..] && q == [q[0]] + q[1..];
    }
  }

  lemma OnlyAtRoot(t: Tree, all: set<BNode>, path: seq<nat>, n: BNode)
    requires Body(t) && Once(Bag(t)) && Leads(all, t.node, path, n)
    ensures n == t.node <==> path == []
  {
    hide Bag, BagOf, Body, Once;
    RootOnce(t);
    if path != [] {
      FirstStep(t, all, path, n);
      LeadsInto(t.kids[path[0]], all, path[1..], n);
      KidInBag(t, path[0], n);
    }
  }

  /** The children of a tree's nodes are nodes of the tree, or null. */
  lemma {:induction false} Closed(t: Tree, n: BNode, c: BNode)
    requires Body(t) && n in Bag(t) && c in n.child
    ensures c in Bag(t)
    decreases t
  {
    hide BagOf;
    if t.Inner? {
      assert Bodies(t.kids);
      if n == t.node {
        var i :| 0 <= i < |t.kids| && NodesOf(t.kids)[i] == c;
        KidInBag(t, i, c);
      } else {
        var i := InWhichKid(t.kids, n);
        Closed(t.kids[i], n, c);
        KidInBag(t, i, c);
      }
    }
  }

  // ----- what is known of each node -----

  /** How many keys, children and data a node holds, and whom its children call their parent. */
  lemma {:induction false} NodeFacts(t: Tree, h: nat, lo: real, hi: real, n: BNode)
    requires Body(t) && Struct(t, h, lo, hi) && n in Bag(t)
    requires |t.keys| <= 4 && (t.Inner? ==> forall i :: 0 <= i < |t.kids| ==> Arity(t.kids[i]))
    ensures |n.key| <= 4 && (n != t.node ==> 2 <= |n.key|)
    ensures if n.isLeaf then |n.data| == |n.key|
            else |n.child| == |n.key| + 1 && forall c | c in n.child :: c != null && c.parent == n
    decreases t
  {
    hide BagOf, Sorted;
    if t.Inner? {
      assert Bodies(t.kids);
      if n == t.node {
        forall c | c in n.child
          ensures c != null && c.parent == n
        {
          var i :| 0 <= i < |t.kids| && NodesOf(t.kids)[i] == c;
        }
      } else {
        var i := InWhichKid(t.kids, n);
        NodeFacts(t.kids[i], h - 1, Lo(t.keys, i, lo), Hi(t.keys, i, hi), n);
      }
    }
  }

  /** All leaves are on one level. */
  lemma {:induction false} Level(t: Tree, h: nat, lo: real, hi: real, all: set<BNode>, path: seq<nat>, n: BNode)
    requires Body(t) && Struct(t, h, lo, hi) && Leads(all, t.node, path, n)
    ensures n.isLeaf <==> |path| == h
    ensures |path| <= h
    decreases path
  {
    hide Bag, BagOf, Sorted;
    if path != [] {
      FirstStep(t, all, path, n);
      var i := path[0];
      Level(t.kids[i], h - 1, Lo(t.keys, i, lo), Hi(t.keys, i, hi), all, path[1..], n);
    }
  }

  lemma RootInBag(t: Tree)
    ensures t.node in Bag(t)
  {
  }

  lemma {:induction false} LeafListed(t: Tree, n: BNode)
    requires Body(t) && n in Bag(t) && n.isLeaf
    ensures n in Leaves(t)
    decreases t
  {
    hide BagOf;
    if t.Inner? {
      assert Bodies(t.kids);
      var i := InWhichKid(t.kids, n);
      LeafListed(t.kids[i], n);
      KidListed(t.kids, i, n);
    }
  }

  lemma {:induction false} KidListed(ts: seq<Tree>, i: nat, n: BNode)
    requires i < |ts| && n in Leaves(ts[i])
    ensures n in LeavesOf(ts)
    decreases ts
  {
    hide Leaves;
    if i > 0 {
      KidListed(ts[1..], i - 1, n);
    }
  }

  /** The neighbours of leaf `i` in a chain. */
  lemma {:induction false} ChainNeighbours(x: BNode?, ls: seq<BNode>, y: BNode?, i: nat)
    requires Linked(x, ls, y) && i < |ls|
    ensures ls[i].prev == if i == 0 then x else ls[i - 1]
    ensures ls[i].next == if i == |ls| - 1 then y else ls[i + 1]
    decreases ls
  {
    if i > 0 {
      ChainNeighbours(ls[0], ls[1..], y, i - 1);
    }
  }

  /** What the leaves of a list hold. */
  lemma {:induction false} HeldMeans(ls: seq<BNode>, k: Key, d: int)
    requires LeafNodes(ls)
    ensures (k, d) in Held(ls) <==>
            exists n, i: nat :: n in ls && i < |n.key| && i < |n.data| && n.key[i] == k && n.data[i] == d
    decreases ls
  {
    hide Entries;
    if ls != [] {
      var l := ls[0];
      var es := Entries(Leaf(l, l.key, l.data));
      assert l in ls && ls == [l] + ls[1..];
      HeldMeans(ls[1..], k, d);
      EntryMeans(l, k, d);
    }
  }

  lemma EntryMeans(n: BNode, k: Key, d: int)
    requires |n.key| == |n.data|
    ensures (k, d) in Entries(Leaf(n, n.key, n.data)) <==>
            exists i: nat :: i < |n.key| && i < |n.data| && n.key[i] == k && n.data[i] == d
  {
    var es := Entries(Leaf(n, n.key, n.data));
    if i: nat :| i < |n.key| && i < |n.data| && n.key[i] == k && n.data[i] == d {
      assert es[i] == (k, d);
    }
  }

  // ----- subtrees -----

  /** The subtree that a path leads to. */
  lemma {:induction false} SubtreeAt(t: Tree, all: set<BNode>, path: seq<nat>, n: BNode) returns (p: Tree)
    requires Body(t) && Leads(all, t.node, path, n)
    ensures Body(p) && p.node == n && Occurs(p, t)
    decreases path
  {
    hide Bag, BagOf;
    if path == [] {
      p := t;
    } else {
      FirstStep(t, all, path, n);
      p := SubtreeAt(t.kids[path[0]], all, path[1..], n);
    }
  }

  /** What a leaf below `t` holds, `t` holds. */
  lemma {:induction false} EntryBelow(t: Tree, h: nat, lo: real, hi: real, all: set<BNode>, path: seq<nat>,
      l: BNode, i: nat)
    requires Body(t) && Struct(t, h, lo, hi) && Leads(all, t.node, path, l) && l.isLeaf && i < |l.key|
    ensures |l.key| == |l.data| && (l.key[i], l.data[i]) in Entries(t)
    decreases path
  {
    hide Bag, BagOf, Sorted;
    if path == [] {
      assert Entries(t)[i] == (l.key[i], l.data[i]);
    } else {
      FirstStep(t, all, path, l);
      var j := path[0];
      EntryBelow(t.kids[j], h - 1, Lo(t.keys, j, lo), Hi(t.keys, j, hi), all, path[1..], l, i);
      KidEntry(t.kids, j, (l.key[i], l.data[i]));
    }
  }

  lemma {:induction false} KidEntry(ts: seq<Tree>, j: nat, e: Entry)
    requires j < |ts| && e in Entries(ts[j])
    ensures e in EntriesOf(ts)
    decreases ts
  {
    hide Entries;
    if j > 0 {
      KidEntry(ts[1..], j - 1, e);
    }
  }
}
