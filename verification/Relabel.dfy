/** Replacing the data in the leaves, and nothing else. */
module Relabels {
  import opened Keys
  import opened Shape
  import opened Context
  import opened Descents
  import opened LeafMoves

  /** `t` with the data that its leaf nodes hold now. */
  ghost function Relabel(t: Tree): (r: Tree)
    reads Refs(t)`data
    ensures r.node == t.node && r.keys == t.keys && r.Leaf? == t.Leaf?
    decreases t, 0
  {
    match t
    case Leaf(n, keys, _) => Leaf(n, keys, n.data)
    case Inner(n, keys, kids) => Inner(n, keys, RelabelAll(kids))
  }

  ghost function RelabelAll(ts: seq<Tree>): (r: seq<Tree>)
    reads RefsOf(ts)`data
    ensures |r| == |ts| && forall i :: 0 <= i < |ts| ==> r[i] == Relabel(ts[i])
    decreases ts
  {
    if ts == [] then [] else [Relabel(ts[0])] + RelabelAll(ts[1..])
  }

  lemma {:induction false} RelabelBag(t: Tree)
    ensures Bag(Relabel(t)) == Bag(t)
    decreases t, 0
  {
    if t.Inner? {
      RelabelAllBag(t.kids);
    }
  }

  lemma {:induction false} RelabelAllBag(ts: seq<Tree>)
    ensures BagOf(RelabelAll(ts)) == BagOf(ts)
    decreases ts
  {
    hide Relabel, Bag;
    if ts != [] {
      RelabelBag(ts[0]);
      RelabelAllBag(ts[1..]);
      assert RelabelAll(ts)[1..] == RelabelAll(ts[1..]);
    }
  }

  lemma {:induction false} RelabelLeaves(t: Tree)
    ensures Leaves(Relabel(t)) == Leaves(t)
    decreases t, 0
  {
    if t.Inner? {
      RelabelAllLeaves(t.kids);
    }
  }

  lemma {:induction false} RelabelAllLeaves(ts: seq<Tree>)
    ensures LeavesOf(RelabelAll(ts)) == LeavesOf(ts)
    decreases ts
  {
    hide Bag, BagOf;
    if ts != [] {
      RelabelLeaves(ts[0]);
      RelabelAllLeaves(ts[1..]);
      assert RelabelAll(ts)[1..] == RelabelAll(ts[1..]);
    }
  }

  /** `Body` without the data. */
  ghost predicate Skeleton(t: Tree)
    reads Refs(t)`key, Refs(t)`child, Below(t)`parent
    decreases t
  {
    && t.node.key == t.keys
    && t.node.isLeaf == t.Leaf?
    && match t
       case Leaf(n, keys, data) => n.child == Nulls(|keys| + 1)
       case Inner(n, keys, kids) =>
         n.child == NodesOf(kids) && Parents(kids, n) && forall i :: 0 <= i < |kids| ==> Skeleton(kids[i])
  }

  lemma {:induction false} BodyHasSkeleton(t: Tree)
    requires Body(t)
    ensures Skeleton(t)
    decreases t
  {
    hide Bag, BagOf;
    if t.Inner? {
      assert Bodies(t.kids);
      forall i | 0 <= i < |t.kids|
        ensures Skeleton(t.kids[i])
      {
        BodyHasSkeleton(t.kids[i]);
      }
    }
  }

  lemma {:induction false} RelabelBody(t: Tree)
    requires Skeleton(t)
    ensures Body(Relabel(t))
    decreases t
  {
    hide Bag, BagOf;
    var r := Relabel(t);
    if t.Inner? {
      forall i | 0 <= i < |r.kids|
        ensures Body(r.kids[i])
      {
        RelabelBody(t.kids[i]);
      }
      assert NodesOf(r.kids) == NodesOf(t.kids);
      assert Bodies(r.kids);
    }
  }

  lemma KidLeavesIn(ts: seq<Tree>, i: nat)
    requires i < |ts|
    ensures forall n | n in Leaves(ts[i]) :: n in LeavesOf(ts)
    decreases ts
  {
    if i > 0 {
      KidLeavesIn(ts[1..], i - 1);
    }
  }

  lemma {:induction false} RelabelStruct(t: Tree, h: nat, lo: real, hi: real)
    requires Struct(t, h, lo, hi) && Skeleton(t) && LeafNodes(Leaves(t))
    ensures Struct(Relabel(t), h, lo, hi)
    decreases t
  {
    hide Num, NulFree, Sorted, Bag, BagOf;
    if t.Inner? {
      var r := Relabel(t);
      forall i | 0 <= i < |r.kids|
        ensures Struct(r.kids[i], h - 1, Lo(r.keys, i, lo), Hi(r.keys, i, hi))
      {
        KidLeavesIn(t.kids, i);
        RelabelStruct(t.kids[i], h - 1, Lo(t.keys, i, lo), Hi(t.keys, i, hi));
      }
    } else {
      assert Leaves(t)[0] == t.node;
    }
  }

  lemma {:induction false} RelabelArity(t: Tree)
    requires Arity(t)
    ensures Arity(Relabel(t))
    decreases t
  {
    if t.Inner? {
      forall i | 0 <= i < |t.kids|
        ensures Arity(Relabel(t.kids[i]))
      {
        RelabelArity(t.kids[i]);
      }
    }
  }

  /** The relabelled tree is as valid as before, is laid out in the heap, and holds what the
      leaves hold now. */
  lemma RelabelOk(t: Tree)
    requires RootOk(t) && Skeleton(t) && LeafNodes(Leaves(t))
    ensures RootOk(Relabel(t)) && Body(Relabel(t)) && Leaves(Relabel(t)) == Leaves(t) && Bag(Relabel(t)) == Bag(t)
    ensures Entries(Relabel(t)) == Held(Leaves(t))
  {
    hide Struct, Bag, BagOf, Body, Skeleton, Entries, Held, Num;
    var h: nat :| Struct(t, h, 0.0, 1.0) && Sized(t, true);
    RelabelStruct(t, h, 0.0, 1.0);
    RelabelBody(t);
    RelabelLeaves(t);
    RelabelBag(t);
    LeavesHold(Relabel(t));
    RelabelSized(t);
  }

  lemma RelabelSized(t: Tree)
    requires Sized(t, true)
    ensures Sized(Relabel(t), true)
  {
    hide Bag, BagOf;
    if t.Inner? {
      forall i | 0 <= i < |t.kids|
        ensures Arity(Relabel(t.kids[i]))
      {
        RelabelArity(t.kids[i]);
      }
    }
  }

  // ----- the walk that replaces the data -----

  /** `es` with the data `ds`. */
  ghost function Paired(es: seq<Entry>, ds: seq<int>): (r: seq<Entry>)
    requires |ds| >= |es|
    ensures |r| == |es| && forall i :: 0 <= i < |es| ==> r[i] == (es[i].0, ds[i])
  {
    seq(|es|, i requires 0 <= i < |es| => (es[i].0, ds[i]))
  }

  method AssignLeaf(v: BNode, ds: seq<int>, k: nat) returns (k': nat)
    requires |v.key| == |v.data| && k + |v.key| <= |ds|
    modifies v`data
    ensures k' == k + |v.key| && v.data == ds[k..k']
  {
    k' := k;
    for i := 0 to |v.key|
      invariant k' == k + i && |v.data| == |v.key|
      invariant v.data[..i] == ds[k..k']
    {
      v.data := v.data[i := ds[k']];
      k' := k' + 1;
    }
  }

  lemma HeldFirst(ls: seq<BNode>)
    requires ls != []
    ensures Held(ls) == Entries(Leaf(ls[0], ls[0].key, ls[0].data)) + Held(ls[1..])
  {
  }

  lemma HeldLast(ls: seq<BNode>, n: BNode)
    ensures Held(ls + [n]) == Held(ls) + Entries(Leaf(n, n.key, n.data))
  {
    HeldConcat(ls, [n]);
    assert [n][1..] == [];
  }

  lemma CutPrefix<T>(es: seq<T>, k: nat, a: seq<T>, b: seq<T>)
    requires k <= |es| && es[k..] == a + b
    ensures k + |a| <= |es| && a == es[k..k + |a|] && b == es[k + |a|..]
  {
    assert es[k + |a|..] == es[k..][|a|..] && es[k..k + |a|] == es[k..][..|a|];
  }

  /** A leaf whose entries come next in `es`, with new data. */
  lemma PairedLeaf(n: BNode, keys: seq<Key>, data: seq<int>, es: seq<Entry>, rest: seq<Entry>, ds: seq<int>, k: nat)
    requires |keys| == |data| && |ds| >= |es| && k <= |es| && es[k..] == Entries(Leaf(n, keys, data)) + rest
    ensures k + |keys| <= |es| && rest == es[k + |keys|..]
    ensures Entries(Leaf(n, keys, ds[k..k + |keys|])) == Paired(es, ds)[k..k + |keys|]
  {
    hide Entries, Paired;
    var m, xs := |keys|, Entries(Leaf(n, keys, data));
    CutPrefix(es, k, xs, rest);
    assert forall i :: 0 <= i < m ==> es[k + i] == xs[i];
  }

  /** One leaf of the walk: the leaves in `done` have their new data, `v` comes next. */
  method AssignNext(v: BNode, ds: seq<int>, k: nat, ghost es: seq<Entry>, ghost done: seq<BNode>,
      ghost after: seq<BNode>) returns (k': nat)
    requires Distinct(done + [v] + after) && LeafNodes(done + [v] + after) && |ds| >= |es| && k <= |es|
    requires Held(done) == Paired(es, ds)[..k] && Held([v] + after) == es[k..]
    modifies v`data
    ensures k' <= |es| && LeafNodes(done + [v] + after)
    ensures Held(done + [v]) == Paired(es, ds)[..k'] && Held(after) == es[k'..]
  {
    hide Held, Distinct, Entries, Paired;
    HeldFirst([v] + after);
    assert ([v] + after)[1..] == after;
    DistinctParts(done, v, after);
    assert v in done + [v] + after;
    PairedLeaf(v, v.key, v.data, es, Held(after), ds, k);
    k' := AssignLeaf(v, ds, k);
    HeldLast(done, v);
    assert Paired(es, ds)[..k] + Paired(es, ds)[k..k'] == Paired(es, ds)[..k'];
  }

  /** Walks the chain of leaves and overwrites the data in order. */
  method AssignChain(first: BNode, ds: seq<int>, ghost ls: seq<BNode>, ghost es: seq<Entry>)
    requires ls != [] && first == ls[0] && Chain(ls) && Distinct(ls) && LeafNodes(ls) && Held(ls) == es && |ds| >= |es|
    modifies (set n | n in ls)`data
    ensures LeafNodes(ls) && Held(ls) == Paired(es, ds)
  {
    hide Held, Distinct, Linked, Entries, LeafNodes;
    ghost var done: seq<BNode>, rest := [], ls;
    var v: BNode? := first;
    var k: nat := 0;
    HeldNothing();
    while v != null
      invariant ls == done + rest && v == First(rest, null) && Linked(Final(null, done), rest, null)
      invariant k <= |es| && Held(done) == Paired(es, ds)[..k] && Held(rest) == es[k..]
      invariant LeafNodes(ls)
      decreases |rest|
    {
      NextLink(Final(null, done), rest);
      ghost var after := rest[1..];
      assert rest == [v] + after && ls == done + [v] + after;
      k := AssignNext(v, ds, k, es, done, after);
      done, rest := done + [v], after;
      v := v.next;
    }
    assert done == ls;
  }

  lemma NextLink(x: BNode?, ls: seq<BNode>)
    requires ls != [] && Linked(x, ls, null)
    ensures ls[0].next == First(ls[1..], null) && Linked(ls[0], ls[1..], null)
  {
  }
}
