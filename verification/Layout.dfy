/** How a context, or a node whose child list is being repaired, is laid out in the heap. */
module Layout {
  import opened Shape
  import opened Rebalance
  import opened Context

  ghost function CtxRefs(c: Ctx): (r: set<BNode>)
    requires WellFormed(c)
  {
    if c.Top? then {} else CtxRefs(c.up) + {c.t.node} + RefsOf(c.t.kids[..c.i]) + RefsOf(c.t.kids[c.i + 1..])
  }

  lemma {:induction false} CtxRefsBag(c: Ctx)
    requires WellFormed(c)
    ensures CtxRefs(c) == set n | n in BagAround(c)
  {
    hide Bag, BagOf;
    if c.Frame? {
      CtxRefsBag(c.up);
    }
  }

  ghost predicate RepAll(ts: seq<Tree>, par: BNode)
    reads RefsOf(ts)`key, RefsOf(ts)`child, RefsOf(ts)`data, RefsOf(ts)`parent
  {
    Parents(ts, par) && Bodies(ts)
  }

  ghost function AroundRefs(p: Tree, i: nat, j: nat): set<BNode>
    requires p.Inner? && i <= j <= |p.kids|
  {
    {p.node} + RefsOf(p.kids[..i]) + RefsOf(p.kids[j..])
  }

  /** `p` is laid out under `par`, but for the subtrees at `i..j`. */
  ghost predicate RepAround(p: Tree, i: nat, j: nat, par: BNode?)
    requires p.Inner? && i <= j <= |p.kids|
    reads AroundRefs(p, i, j)`parent, AroundRefs(p, i, j)`key, AroundRefs(p, i, j)`child, AroundRefs(p, i, j)`data
  {
    && p.node.parent == par
    && !p.node.isLeaf
    && p.node.key == p.keys
    && p.node.child == NodesOf(p.kids)
    && RepAll(p.kids[..i], p.node)
    && RepAll(p.kids[j..], p.node)
  }

  /** The nodes around the hole are laid out as `c` says, and `hole` hangs in the hole. */
  ghost predicate RepCtx(c: Ctx, hole: BNode)
    requires WellFormed(c)
    reads CtxRefs(c)`key, CtxRefs(c)`child, CtxRefs(c)`data, CtxRefs(c)`parent
    decreases c
  {
    c.Frame? ==>
      && RepAround(c.t, c.i, c.i + 1, CtxNode(c.up))
      && c.t.kids[c.i].node == hole
      && RepCtx(c.up, c.t.node)
  }

  /** As `Rep`, except that the node still holds key `slot` and child `slot + 1`, which `t` has lost. */
  ghost predicate RepMinus(t: Tree, slot: nat, par: BNode?)
    reads Refs(t)`parent, Refs(t)`key, Refs(t)`child, Refs(t)`data
  {
    && t.Inner? && slot <= |t.keys| && slot + 1 <= |t.kids|
    && var n := t.node;
    && n.parent == par
    && !n.isLeaf
    && |n.key| == |t.keys| + 1 && |n.child| == |t.kids| + 1
    && RemoveAt(n.key, slot) == t.keys
    && RemoveAt(n.child, slot + 1) == NodesOf(t.kids)
    && RepAll(t.kids, n)
  }

  /** As `Rep`, except that the node does not yet hold key `slot` and child `slot + 1` of `t`. */
  ghost predicate RepPlus(t: Tree, slot: nat, par: BNode?)
    reads Refs(t)`parent, Refs(t)`key, Refs(t)`child, Refs(t)`data
  {
    && t.Inner? && slot < |t.keys| && slot + 1 < |t.kids|
    && var n := t.node;
    && n.parent == par
    && !n.isLeaf
    && n.key == RemoveAt(t.keys, slot)
    && n.child == RemoveAt(NodesOf(t.kids), slot + 1)
    && RepAll(t.kids, n)
  }

  // ----- nodes occur once -----

  ghost predicate Once(b: multiset<BNode>) {
    forall r | r in b :: b[r] == 1
  }

  lemma {:induction false} TwoInBagOf(ts: seq<Tree>, i: nat, j: nat)
    requires i < j < |ts|
    ensures Bag(ts[i]) + Bag(ts[j]) <= BagOf(ts)
  {
    hide Bag;
    if i > 0 {
      TwoInBagOf(ts[1..], i - 1, j - 1);
    } else {
      assert ts[j] == ts[1..][j - 1];
    }
  }

  lemma OnceSmaller(a: multiset<BNode>, b: multiset<BNode>)
    requires a <= b && Once(b)
    ensures Once(a)
  {
    forall r | r in a
      ensures a[r] == 1
    {
      assert r in b;
    }
  }

  lemma OnceSplit(a: multiset<BNode>, b: multiset<BNode>)
    requires Once(a + b)
    ensures forall r | r in a :: r !in b
    ensures Once(a) && Once(b)
  {
    forall r | r in a
      ensures r !in b
    {
      assert r in a + b;
    }
    OnceSmaller(a, a + b);
    OnceSmaller(b, a + b);
  }

  lemma RefsOfConcat(a: seq<Tree>, b: seq<Tree>)
    ensures RefsOf(a + b) == RefsOf(a) + RefsOf(b)
  {
    hide Bag, BagOf;
    BagConcat(a, b);
  }

  lemma RefsOfOne(t: Tree)
    ensures RefsOf([t]) == Refs(t)
  {
    hide Bag, BagOf;
    FoldsOne(t);
  }

  /** A run of children with each node once: child `i` shares none with the others. */
  lemma KidApart(ts: seq<Tree>, i: nat)
    requires i < |ts| && Once(BagOf(ts))
    ensures Refs(ts[i]) !! RefsOf(ts[i + 1..]) && Refs(ts[i]) !! RefsOf(ts[..i]) && Once(Bag(ts[i]))
  {
    hide Bag, BagOf, Once;
    var a, b, d := BagOf(ts[..i]), Bag(ts[i]), BagOf(ts[i + 1..]);
    SpliceBag(ts, i, i + 1, [ts[i]]);
    assert ts[i..i + 1] == [ts[i]];
    FoldsOne(ts[i]);
    OnceSplit(a + b, d);
    OnceSplit(a, b);
    assert forall r | r in b :: r in a + b;
  }

  lemma KidRefs(ts: seq<Tree>, i: nat)
    requires i < |ts|
    ensures RefsOf(ts[..i + 1]) == RefsOf(ts[..i]) + Refs(ts[i]) && RefsOf(ts[i..]) == Refs(ts[i]) + RefsOf(ts[i + 1..])
    ensures RefsOf(ts) == RefsOf(ts[..i]) + RefsOf(ts[i..])
  {
    hide RefsOf, Refs;
    assert ts[..i + 1] == ts[..i] + [ts[i]] && ts[i..] == [ts[i]] + ts[i + 1..] && ts == ts[..i] + ts[i..];
    RefsOfOne(ts[i]);
    RefsOfConcat(ts[..i], [ts[i]]);
    RefsOfConcat([ts[i]], ts[i + 1..]);
    RefsOfConcat(ts[..i], ts[i..]);
  }

  lemma RootOnce(t: Tree)
    requires Once(Bag(t))
    ensures t.node !in Below(t) && Refs(t) == Below(t) + {t.node}
    ensures t.Inner? ==> Once(BagOf(t.kids))
  {
    if t.Inner? {
      OnceSmaller(BagOf(t.kids), Bag(t));
      assert t.node in BagOf(t.kids) ==> Bag(t)[t.node] >= 2;
    }
  }

  // ----- filling the hole -----

  lemma FillAround(t: Tree, i: nat, x: Tree, par: BNode?)
    requires t.Inner? && i < |t.kids| && RepAround(t, i, i + 1, par)
    requires x.node == t.kids[i].node && Rep(x, t.node)
    ensures Rep(SetKid(t, i, x), par)
  {
    hide Bag, BagOf;
    var t' := SetKid(t, i, x);
    forall k | 0 <= k < |t'.kids|
      ensures Rep(t'.kids[k], t.node)
    {
      if k < i {
        assert t'.kids[k] == t.kids[..i][k];
      } else if k > i {
        assert t'.kids[k] == t.kids[i + 1..][k - i - 1];
      }
    }
    assert Parents(t'.kids, t.node) && Bodies(t'.kids);
    assert NodesOf(t'.kids) == NodesOf(t.kids);
  }

  lemma {:induction false} PlugRep(c: Ctx, x: Tree)
    requires WellFormed(c) && RepCtx(c, x.node) && Rep(x, CtxNode(c))
    ensures Rep(Plug(c, x), null) && Plug(c, x).node == CtxRoot(c, x.node)
    decreases c
  {
    hide Rep, RepAround, Bag, BagOf;
    if c.Frame? {
      FillAround(c.t, c.i, x, CtxNode(c.up));
      PlugRep(c.up, SetKid(c.t, c.i, x));
    }
  }

  /** A pair of children taken out of the surroundings of one of them. */
  lemma SpreadPrev(t: Tree, i: nat, x: Tree, par: BNode?)
    requires t.Inner? && 0 < i < |t.kids| && RepAround(t, i, i + 1, par) && x.node == t.kids[i].node
    ensures var p := SetKid(t, i, x);
            RepAround(p, i - 1, i + 1, par) && Rep(p.kids[i - 1], t.node)
  {
    hide Bag, BagOf, Body;
    var p := SetKid(t, i, x);
    assert NodesOf(p.kids) == NodesOf(t.kids);
    assert t.kids[..i][i - 1] == t.kids[i - 1];
    assert p.kids[..i - 1] == t.kids[..i][..i - 1] && p.kids[i + 1..] == t.kids[i + 1..];
  }

  lemma SpreadNext(t: Tree, i: nat, x: Tree, par: BNode?)
    requires t.Inner? && i + 1 < |t.kids| && RepAround(t, i, i + 1, par) && x.node == t.kids[i].node
    ensures var p := SetKid(t, i, x);
            RepAround(p, i, i + 2, par) && Rep(p.kids[i + 1], t.node)
  {
    hide Bag, BagOf, Body;
    var p := SetKid(t, i, x);
    assert NodesOf(p.kids) == NodesOf(t.kids);
    assert t.kids[i + 1..][0] == t.kids[i + 1];
    assert p.kids[..i] == t.kids[..i] && p.kids[i + 2..] == t.kids[i + 1..][1..];
  }
}
