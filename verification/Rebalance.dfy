/** The value-level effect of the rotations, splits and merges that repair a node which has
    become too large or too small, and what each of them keeps. */
module Rebalance {
  import opened Keys
  import opened Shape

  // ----- folds over concatenations -----

  lemma {:induction false} EntriesConcat(a: seq<Tree>, b: seq<Tree>)
    ensures EntriesOf(a + b) == EntriesOf(a) + EntriesOf(b)
  {
    if a == [] {
      assert a + b == b;
    } else {
      assert (a + b)[1..] == a[1..] + b;
      EntriesConcat(a[1..], b);
    }
  }

  lemma {:induction false} LeavesConcat(a: seq<Tree>, b: seq<Tree>)
    ensures LeavesOf(a + b) == LeavesOf(a) + LeavesOf(b)
  {
    if a == [] {
      assert a + b == b;
    } else {
      assert (a + b)[1..] == a[1..] + b;
      LeavesConcat(a[1..], b);
    }
  }

  lemma {:induction false} BagConcat(a: seq<Tree>, b: seq<Tree>)
    ensures BagOf(a + b) == BagOf(a) + BagOf(b)
  {
    if a == [] {
      assert a + b == b;
    } else {
      assert (a + b)[1..] == a[1..] + b;
      BagConcat(a[1..], b);
    }
  }

  lemma FoldsOne(t: Tree)
    ensures EntriesOf([t]) == Entries(t)
    ensures LeavesOf([t]) == Leaves(t)
    ensures BagOf([t]) == Bag(t)
  {
    assert [t][1..] == [];
  }

  // ----- bounds -----

  lemma {:induction false} StructWiden(t: Tree, h: nat, lo: real, hi: real, lo': real, hi': real)
    requires Struct(t, h, lo, hi) && lo' <= lo && hi <= hi'
    ensures Struct(t, h, lo', hi')
    decreases t
  {
    if t.Inner? {
      forall i | 0 <= i < |t.kids|
        ensures Struct(t.kids[i], h - 1, Lo(t.keys, i, lo'), Hi(t.keys, i, hi'))
      {
        StructWiden(t.kids[i], h - 1, Lo(t.keys, i, lo), Hi(t.keys, i, hi), Lo(t.keys, i, lo'), Hi(t.keys, i, hi'));
      }
    }
  }

  // ----- two neighbouring siblings and the separator between them -----

  /** The separator that an inner node needs on the left of `b`'s first child when that child
      gets a left sibling: exact above leaves, otherwise the old separator above `b`. */
  ghost function Glue(b: Tree, sep: Key): Key {
    if b.Inner? && |b.kids| > 0 && b.kids[0].Leaf? && |b.kids[0].keys| > 0 then b.kids[0].keys[0] else sep
  }

  ghost predicate Siblings(a: Tree, sep: Key, b: Tree, h: nat, lo: real, hi: real) {
    && Struct(a, h, lo, Num(sep)) && Struct(b, h, Num(sep), hi)
    && |a.keys| > 0 && |b.keys| > 0
    && NulFree(sep) && lo < Num(sep) < hi
    && (h == 0 ==> b.keys[0] == sep)
  }

  /** `a`, `b` are the neighbours `a'`, `b'` cut at another place. */
  ghost predicate SameContents(a: Tree, b: Tree, a': Tree, b': Tree) {
    && a'.node == a.node && b'.node == b.node
    && Entries(a') + Entries(b') == Entries(a) + Entries(b)
    && Leaves(a') + Leaves(b') == Leaves(a) + Leaves(b)
    && Bag(a') + Bag(b') == Bag(a) + Bag(b)
  }

  /** Moves the first entry or child of `b` to the end of `a`. */
  ghost function ShiftLeft(a: Tree, sep: Key, b: Tree): (Tree, Key, Tree)
    requires a.Leaf? == b.Leaf? && Lengths(a) && Lengths(b) && |b.keys| > 1
  {
    if b.Leaf? then
      (Leaf(a.node, a.keys + [b.keys[0]], a.data + [b.data[0]]), b.keys[1], Leaf(b.node, b.keys[1..], b.data[1..]))
    else
      (Inner(a.node, a.keys + [Glue(b, sep)], a.kids + [b.kids[0]]), b.keys[0], Inner(b.node, b.keys[1..], b.kids[1..]))
  }

  /** Moves the last entry or child of `a` to the front of `b`. */
  ghost function ShiftRight(a: Tree, sep: Key, b: Tree): (Tree, Key, Tree)
    requires a.Leaf? == b.Leaf? && Lengths(a) && Lengths(b) && |a.keys| > 1
  {
    var k := |a.keys| - 1;
    if a.Leaf? then
      (Leaf(a.node, a.keys[..k], a.data[..|a.data| - 1]), a.keys[k],
        Leaf(b.node, [a.keys[k]] + b.keys, [a.data[|a.data| - 1]] + b.data))
    else
      (Inner(a.node, a.keys[..k], a.kids[..|a.kids| - 1]), a.keys[k],
        Inner(b.node, [Glue(b, sep)] + b.keys, [a.kids[|a.kids| - 1]] + b.kids))
  }

  /** Moves everything in `b` to the end of `a`. */
  ghost function Merge(a: Tree, sep: Key, b: Tree): Tree
    requires a.Leaf? == b.Leaf?
  {
    if a.Leaf? then Leaf(a.node, a.keys + b.keys, a.data + b.data)
    else Inner(a.node, a.keys + [Glue(b, sep)] + b.keys, a.kids + b.kids)
  }

  /** Cuts a node with five keys in two; the right half goes to `u`. */
  ghost function Divide(t: Tree, u: BNode): (Tree, Key, Tree)
    requires |t.keys| == M && Lengths(t)
  {
    var m := M / 2;
    if t.Leaf? then
      (Leaf(t.node, t.keys[..m], t.data[..m]), t.keys[m], Leaf(u, t.keys[m..], t.data[m..]))
    else
      (Inner(t.node, t.keys[..m], t.kids[..m + 1]), t.keys[m], Inner(u, t.keys[m + 1..], t.kids[m + 1..]))
  }

  // ----- contents are conserved -----

  /** `t` holds what `a` and `b` hold, in that order, in the place of `a`. */
  ghost predicate Joins(a: Tree, b: Tree, t: Tree) {
    && t.node == a.node
    && Entries(t) == Entries(a) + Entries(b)
    && Leaves(t) + (if b.Leaf? then [b.node] else []) == Leaves(a) + Leaves(b)
    && Bag(t) + multiset{b.node} == Bag(a) + Bag(b)
  }

  lemma JoinLeaves(a: Tree, b: Tree, t: Tree)
    requires a.Leaf? && b.Leaf? && t.Leaf? && t.node == a.node
    requires |a.keys| == |a.data| && |b.keys| == |b.data|
    requires t.keys == a.keys + b.keys && t.data == a.data + b.data
    ensures Joins(a, b, t)
  {
    assert Entries(t) == Entries(a) + Entries(b);
  }

  lemma JoinInner(a: Tree, b: Tree, t: Tree)
    requires a.Inner? && b.Inner? && t.Inner? && t.node == a.node
    requires t.kids == a.kids + b.kids
    ensures Joins(a, b, t)
  {
    EntriesConcat(a.kids, b.kids);
    LeavesConcat(a.kids, b.kids);
    BagConcat(a.kids, b.kids);
  }

  /** Two ways of cutting the same run of entries or children hold the same contents. */
  lemma RecutLeaves(a: Tree, b: Tree, a': Tree, b': Tree)
    requires a.Leaf? && b.Leaf? && a'.Leaf? && b'.Leaf? && a'.node == a.node && b'.node == b.node
    requires |a.keys| == |a.data| && |b.keys| == |b.data| && |a'.keys| == |a'.data| && |b'.keys| == |b'.data|
    requires a'.keys + b'.keys == a.keys + b.keys && a'.data + b'.data == a.data + b.data
    ensures SameContents(a, b, a', b')
  {
    var t := Leaf(a.node, a.keys + b.keys, a.data + b.data);
    JoinLeaves(a, b, t);
    JoinLeaves(a', b', t);
  }

  lemma RecutInner(a: Tree, b: Tree, a': Tree, b': Tree)
    requires a.Inner? && b.Inner? && a'.Inner? && b'.Inner? && a'.node == a.node && b'.node == b.node
    requires a'.kids + b'.kids == a.kids + b.kids
    ensures SameContents(a, b, a', b')
  {
    hide Entries, Bag, Leaves;
    var t := Inner(a.node, [], a.kids + b.kids);
    JoinInner(a, b, t);
    JoinInner(a', b', t);
  }

  lemma ShiftLeftContents(a: Tree, sep: Key, b: Tree)
    requires a.Leaf? == b.Leaf? && Lengths(a) && Lengths(b) && |b.keys| > 1
    ensures var (a', sep', b') := ShiftLeft(a, sep, b);
            SameContents(a, b, a', b')
  {
    hide SameContents, Glue;
    var (a', sep', b') := ShiftLeft(a, sep, b);
    if a.Leaf? {
      RecutLeaves(a, b, a', b');
    } else {
      RecutInner(a, b, a', b');
    }
  }

  lemma ShiftRightContents(a: Tree, sep: Key, b: Tree)
    requires a.Leaf? == b.Leaf? && Lengths(a) && Lengths(b) && |a.keys| > 1
    ensures var (a', sep', b') := ShiftRight(a, sep, b);
            SameContents(a, b, a', b')
  {
    hide SameContents, Glue;
    var (a', sep', b') := ShiftRight(a, sep, b);
    if a.Leaf? {
      RecutLeaves(a, b, a', b');
    } else {
      RecutInner(a, b, a', b');
    }
  }

  lemma MergeContents(a: Tree, sep: Key, b: Tree)
    requires a.Leaf? == b.Leaf? && Lengths(a) && Lengths(b)
    ensures Joins(a, b, Merge(a, sep, b))
  {
    hide Joins, Glue;
    if a.Leaf? {
      JoinLeaves(a, b, Merge(a, sep, b));
    } else {
      JoinInner(a, b, Merge(a, sep, b));
    }
  }

  lemma DivideContents(t: Tree, u: BNode)
    requires |t.keys| == M && Lengths(t)
    ensures var (a, sep, b) := Divide(t, u);
            a.node == t.node && b.node == u && Joins(a, b, t)
  {
    hide Joins;
    var (a, sep, b) := Divide(t, u);
    if t.Leaf? {
      JoinLeaves(a, b, t);
    } else {
      JoinInner(a, b, t);
    }
  }

  // ----- the search tree structure is kept -----

  lemma ShiftLeftLeaves(a: Tree, sep: Key, b: Tree, lo: real, hi: real)
    requires Siblings(a, sep, b, 0, lo, hi) && |b.keys| > 1
    ensures var (a', sep', b') := ShiftLeft(a, sep, b);
            Siblings(a', sep', b', 0, lo, hi)
  {
    hide Num, NulFree;
  }

  lemma ShiftRightLeaves(a: Tree, sep: Key, b: Tree, lo: real, hi: real)
    requires Siblings(a, sep, b, 0, lo, hi) && |a.keys| > 1
    ensures var (a', sep', b') := ShiftRight(a, sep, b);
            Siblings(a', sep', b', 0, lo, hi)
  {
    hide Num, NulFree;
    assert Num(a.keys[0]) < Num(a.keys[|a.keys| - 1]);
  }

  lemma MergeLeaves(a: Tree, sep: Key, b: Tree, lo: real, hi: real)
    requires Siblings(a, sep, b, 0, lo, hi)
    ensures Struct(Merge(a, sep, b), 0, lo, hi)
  {
    hide Num, NulFree;
  }

  lemma DivideLeaf(t: Tree, u: BNode, lo: real, hi: real)
    requires Struct(t, 0, lo, hi) && |t.keys| == M
    ensures var (a, sep, b) := Divide(t, u);
            Siblings(a, sep, b, 0, lo, hi)
  {
    hide Num, NulFree;
    assert Num(t.keys[0]) < Num(t.keys[2]);
  }

  // Runs of children: prefixes, suffixes and concatenations of inner nodes.

  lemma Prefix(t: Tree, m: nat, h: nat, lo: real, hi: real)
    requires t.Inner? && Struct(t, h, lo, hi) && m < |t.keys|
    ensures Struct(Inner(t.node, t.keys[..m], t.kids[..m + 1]), h, lo, Num(t.keys[m]))
  {
    hide Num, NulFree;
  }

  lemma Suffix(t: Tree, m: nat, u: BNode, h: nat, lo: real, hi: real)
    requires t.Inner? && Struct(t, h, lo, hi) && 0 < m <= |t.keys|
    ensures Struct(Inner(u, t.keys[m..], t.kids[m..]), h, Num(t.keys[m - 1]), hi)
  {
    hide Num, NulFree;
    var t' := Inner(u, t.keys[m..], t.kids[m..]);
    forall i | 0 <= i < |t'.kids|
      ensures Struct(t'.kids[i], h - 1, Lo(t'.keys, i, Num(t.keys[m - 1])), Hi(t'.keys, i, hi))
    {
      assert Struct(t.kids[m + i], h - 1, Lo(t.keys, m + i, lo), Hi(t.keys, m + i, hi));
    }
  }

  /** Two ascending runs, the first below the second. */
  lemma SortedConcat(a: seq<Key>, b: seq<Key>, lo: real, mid: real, hi: real)
    requires Sorted(a, lo, mid) && Sorted(b, mid, hi) && lo <= mid <= hi
    ensures Sorted(a + b, lo, hi)
  {
    hide Num, NulFree;
    var s, n := a + b, |a|;
    forall i | 0 <= i < |s|
      ensures In(s[i], lo, hi)
    {
      assert s[i] == if i < n then a[i] else b[i - n];
    }
    forall i, j | 0 <= i < j < |s|
      ensures Num(s[i]) < Num(s[j])
    {
      if i < n <= j {
        assert In(a[i], lo, mid) && In(b[j - n], mid, hi);
      }
    }
  }

  lemma SortedFrom(b: seq<Key>, lo: real, hi: real)
    requires Sorted(b, lo, hi) && |b| > 0
    ensures Sorted(b, Num(b[0]), hi) && Num(b[0]) < hi
  {
    hide Num, NulFree;
    forall i | 0 <= i < |b|
      ensures In(b[i], Num(b[0]), hi)
    {
      assert In(b[i], lo, hi) && (i == 0 || Num(b[0]) < Num(b[i]));
    }
  }

  lemma SortedCons(g: Key, b: seq<Key>, hi: real)
    requires Sorted(b, Num(g), hi) && NulFree(g) && Num(g) < hi && (|b| > 0 ==> Num(g) < Num(b[0]))
    ensures Sorted([g] + b, Num(g), hi)
  {
    hide Num, NulFree;
    if b == [] {
      assert [g] + b == [g];
    } else {
      SortedFrom(b, Num(g), hi);
      SortedConcat([g], b, Num(g), Num(b[0]), hi);
    }
  }

  lemma ConcatSorted(a: seq<Key>, g: Key, b: seq<Key>, lo: real, hi: real)
    requires Sorted(a, lo, Num(g)) && Sorted(b, Num(g), hi)
    requires NulFree(g) && lo <= Num(g) < hi
    requires |b| > 0 ==> Num(g) < Num(b[0])
    ensures Sorted(a + [g] + b, lo, hi)
  {
    hide Num, NulFree, Sorted;
    SortedCons(g, b, hi);
    SortedConcat(a, [g] + b, lo, Num(g), hi);
    assert a + [g] + b == a + ([g] + b);
  }

  lemma Concat(a: Tree, g: Key, b: Tree, h: nat, lo: real, hi: real)
    requires a.Inner? && b.Inner? && Struct(a, h, lo, Num(g)) && Struct(b, h, Num(g), hi)
    requires NulFree(g) && lo < Num(g) < hi
    requires h == 1 ==> |b.kids[0].keys| > 0 && b.kids[0].keys[0] == g
    ensures Struct(Inner(a.node, a.keys + [g] + b.keys, a.kids + b.kids), h, lo, hi)
  {
    var t := Inner(a.node, a.keys + [g] + b.keys, a.kids + b.kids);
    assert lo < Num(t.keys[0]) && Sorted(t.keys, lo, hi) by {
      ConcatSorted(a.keys, g, b.keys, lo, hi);
    }
    hide Num, NulFree, Sorted;
    var n := |a.kids|;
    forall i | 0 <= i < |t.kids|
      ensures Struct(t.kids[i], h - 1, Lo(t.keys, i, lo), Hi(t.keys, i, hi))
      ensures h == 1 && i > 0 ==> |t.kids[i].keys| > 0 && t.kids[i].keys[0] == t.keys[i - 1]
    {
      if i < n {
        assert Struct(a.kids[i], h - 1, Lo(a.keys, i, lo), Hi(a.keys, i, Num(g)));
      } else {
        assert Struct(b.kids[i - n], h - 1, Lo(b.keys, i - n, Num(g)), Hi(b.keys, i - n, hi));
      }
    }
  }

  /** Around the glue, the last child of `a` and the first child of `b` still fit. */
  lemma GlueFits(a: Tree, sep: Key, b: Tree, h: nat, lo: real, hi: real)
    requires Siblings(a, sep, b, h, lo, hi) && h > 0 && |b.kids[0].keys| > 0
    ensures var g := Glue(b, sep);
            && NulFree(g) && Num(sep) <= Num(g) < Num(b.keys[0])
            && Struct(b.kids[0], h - 1, Num(g), Num(b.keys[0]))
            && Struct(b, h, Num(g), hi)
            && (h == 1 ==> b.kids[0].keys[0] == g)
  {
    hide Num, NulFree;
    assert Struct(b.kids[0], h - 1, Num(sep), Num(b.keys[0]));
    assert forall i :: 0 < i < |b.kids| ==> Struct(b.kids[i], h - 1, Lo(b.keys, i, Num(sep)), Hi(b.keys, i, hi));
  }

  /** `a` takes the glue key and the child `x` on its right. */
  lemma AppendKid(a: Tree, g: Key, x: Tree, u: BNode, h: nat, lo: real, hi: real)
    requires a.Inner? && h > 0 && Struct(a, h, lo, Num(g)) && Struct(x, h - 1, Num(g), hi)
    requires NulFree(g) && lo < Num(g) < hi && (h == 1 ==> |x.keys| > 0 && x.keys[0] == g)
    ensures Struct(Inner(a.node, a.keys + [g], a.kids + [x]), h, lo, hi)
  {
    hide Num, NulFree;
    var b := Inner(u, [], [x]);
    assert a.keys + [g] + b.keys == a.keys + [g];
    Concat(a, g, b, h, lo, hi);
  }

  lemma ShiftLeftInner(a: Tree, sep: Key, b: Tree, h: nat, lo: real, hi: real)
    requires Siblings(a, sep, b, h, lo, hi) && h > 0
    requires |b.keys| > 1 && |b.kids[0].keys| > 0
    ensures var (a', sep', b') := ShiftLeft(a, sep, b);
            Siblings(a', sep', b', h, lo, hi)
  {
    assert In(b.keys[0], Num(sep), hi);
    hide Num, NulFree, Sorted;
    var g := Glue(b, sep);
    GlueFits(a, sep, b, h, lo, hi);
    StructWiden(a, h, lo, Num(sep), lo, Num(g));
    Suffix(b, 1, b.node, h, Num(g), hi);
    AppendKid(a, g, b.kids[0], b.node, h, lo, Num(b.keys[0]));
  }

  lemma ShiftRightInner(a: Tree, sep: Key, b: Tree, h: nat, lo: real, hi: real)
    requires Siblings(a, sep, b, h, lo, hi) && h > 0
    requires |a.keys| > 1 && |b.kids[0].keys| > 0
    ensures var (a', sep', b') := ShiftRight(a, sep, b);
            Siblings(a', sep', b', h, lo, hi)
  {
    var k := |a.keys| - 1;
    assert In(a.keys[k], lo, Num(sep)) && Num(a.keys[0]) < Num(a.keys[k]);
    hide Num, NulFree, Sorted;
    var g := Glue(b, sep);
    GlueFits(a, sep, b, h, lo, hi);
    StructWiden(a, h, lo, Num(sep), lo, Num(g));
    Prefix(a, k, h, lo, Num(g));
    Suffix(a, k + 1, a.node, h, lo, Num(g));
    Concat(Inner(b.node, a.keys[k + 1..], a.kids[k + 1..]), g, b, h, Num(a.keys[k]), hi);
    assert [g] + b.keys == a.keys[k + 1..] + [g] + b.keys;
    assert a.kids[k + 1..] == [a.kids[k + 1]];
  }

  lemma MergeInner(a: Tree, sep: Key, b: Tree, h: nat, lo: real, hi: real)
    requires Siblings(a, sep, b, h, lo, hi) && h > 0 && |b.kids[0].keys| > 0
    ensures Struct(Merge(a, sep, b), h, lo, hi)
  {
    assert In(b.keys[0], Num(sep), hi);
    hide Num, NulFree, Sorted;
    var g := Glue(b, sep);
    GlueFits(a, sep, b, h, lo, hi);
    StructWiden(a, h, lo, Num(sep), lo, Num(g));
    Concat(a, g, b, h, lo, hi);
  }

  lemma DivideInner(t: Tree, u: BNode, h: nat, lo: real, hi: real)
    requires Struct(t, h, lo, hi) && |t.keys| == M && h > 0
    ensures var (a, sep, b) := Divide(t, u);
            Siblings(a, sep, b, h, lo, hi)
  {
    assert In(t.keys[2], lo, hi) && Num(t.keys[0]) < Num(t.keys[2]);
    hide Num, NulFree, Sorted;
    Prefix(t, 2, h, lo, hi);
    Suffix(t, 3, u, h, lo, hi);
  }

  // ----- the parent of the siblings -----

  function RemoveAt<T>(s: seq<T>, i: nat): (r: seq<T>)
    requires i < |s|
  {
    s[..i] + s[i + 1..]
  }

  function InsertAt<T>(s: seq<T>, i: nat, x: T): (r: seq<T>)
    requires i <= |s|
  {
    s[..i] + [x] + s[i..]
  }

  /** Where each element goes when one comes in at `i`, and when the one at `i` goes. */
  lemma InsertMeans<T>(s: seq<T>, i: nat, x: T)
    requires i <= |s|
    ensures |InsertAt(s, i, x)| == |s| + 1
    ensures forall k :: 0 <= k <= |s| ==> InsertAt(s, i, x)[k] == if k < i then s[k] else if k == i then x else s[k - 1]
  {
  }

  lemma RemoveMeans<T>(s: seq<T>, i: nat)
    requires i < |s|
    ensures |RemoveAt(s, i)| == |s| - 1
    ensures forall k :: 0 <= k < |s| - 1 ==> RemoveAt(s, i)[k] == if k < i then s[k] else s[k + 1]
  {
  }

  /** Child `i` of `p` becomes `t`. */
  ghost function SetKid(p: Tree, i: nat, t: Tree): Tree
    requires p.Inner? && i < |p.kids|
  {
    Inner(p.node, p.keys, p.kids[i := t])
  }

  /** Children `i..j` of `p`, and the separators between them, are replaced by those of `mid`. */
  ghost function Splice(p: Tree, i: nat, j: nat, mid: Tree): Tree
    requires p.Inner? && mid.Inner? && |p.kids| == |p.keys| + 1 && i < j <= |p.kids|
  {
    Inner(p.node, p.keys[..i] + mid.keys + p.keys[j - 1..], p.kids[..i] + mid.kids + p.kids[j..])
  }

  lemma StructNode(t: Tree, u: BNode, h: nat, lo: real, hi: real)
    requires t.Inner? && Struct(t, h, lo, hi)
    ensures Struct(Inner(u, t.keys, t.kids), h, lo, hi)
  {
    hide Num, NulFree, Sorted;
  }

  /** What stands around position `i` of an inner node. */
  lemma SepFacts(p: Tree, i: nat, h: nat, lo: real, hi: real)
    requires p.Inner? && Struct(p, h, lo, hi) && i < |p.keys|
    ensures h > 0 && |p.kids| == |p.keys| + 1
    ensures NulFree(p.keys[i]) && lo < Num(p.keys[i]) < hi
    ensures Lo(p.keys, i, lo) < Num(p.keys[i]) < Hi(p.keys, i + 1, hi)
    ensures h == 1 ==> |p.kids[i + 1].keys| > 0 && p.kids[i + 1].keys[0] == p.keys[i]
  {
    hide Num, NulFree;
    assert In(p.keys[i], lo, hi);
    assert i > 0 ==> Num(p.keys[0]) < Num(p.keys[i]);
  }

  /** `mid` followed by the children of `p` from `j` on. */
  lemma SpliceTail(p: Tree, j: nat, mid: Tree, h: nat, lo: real, hi: real, mlo: real)
    requires p.Inner? && mid.Inner? && Struct(p, h, lo, hi) && 0 < j <= |p.keys|
    requires Struct(mid, h, mlo, Hi(p.keys, j - 1, hi)) && mlo < Hi(p.keys, j - 1, hi)
    requires |p.kids| == |p.keys| + 1
    ensures Struct(Inner(mid.node, mid.keys + p.keys[j - 1..], mid.kids + p.kids[j..]), h, mlo, hi)
  {
    hide Num, NulFree, Struct;
    SepFacts(p, j - 1, h, lo, hi);
    Suffix(p, j, p.node, h, lo, hi);
    Concat(mid, p.keys[j - 1], Inner(p.node, p.keys[j..], p.kids[j..]), h, mlo, hi);
    assert mid.keys + [p.keys[j - 1]] + p.keys[j..] == mid.keys + p.keys[j - 1..];
  }

  /** The children of `p` before `i`, followed by `mid`. */
  lemma SpliceHead(p: Tree, i: nat, mid: Tree, h: nat, lo: real, hi: real)
    requires p.Inner? && mid.Inner? && Struct(p, h, lo, hi) && 0 < i <= |p.keys|
    requires Struct(mid, h, Lo(p.keys, i, lo), hi) && |p.kids| == |p.keys| + 1
    requires h == 1 ==> |mid.kids| > 0 && |mid.kids[0].keys| > 0 && mid.kids[0].keys[0] == p.keys[i - 1]
    ensures Struct(Inner(p.node, p.keys[..i] + mid.keys, p.kids[..i] + mid.kids), h, lo, hi)
  {
    hide Num, NulFree, Struct;
    SepFacts(p, i - 1, h, lo, hi);
    Prefix(p, i - 1, h, lo, hi);
    Concat(Inner(p.node, p.keys[..i - 1], p.kids[..i]), p.keys[i - 1], mid, h, lo, hi);
    assert p.keys[..i - 1] + [p.keys[i - 1]] + mid.keys == p.keys[..i] + mid.keys;
  }

  lemma SpliceStruct(p: Tree, i: nat, j: nat, mid: Tree, h: nat, lo: real, hi: real)
    requires p.Inner? && mid.Inner? && Struct(p, h, lo, hi) && i < j <= |p.kids|
    requires |p.kids| == |p.keys| + 1 && |mid.kids| == |mid.keys| + 1
    requires Struct(mid, h, Lo(p.keys, i, lo), Hi(p.keys, j - 1, hi))
    requires h == 1 && i > 0 ==> |mid.kids[0].keys| > 0 && mid.kids[0].keys[0] == p.keys[i - 1]
    ensures Struct(Splice(p, i, j, mid), h, lo, hi)
  {
    hide Num, NulFree, Struct;
    var mlo := Lo(p.keys, i, lo);
    var q := Inner(p.node, mid.keys + p.keys[j - 1..], mid.kids + p.kids[j..]);
    if j <= |p.keys| {
      SepBelow(p, i, j - 1, h, lo, hi);
      SpliceTail(p, j, mid, h, lo, hi, mlo);
      StructNode(Inner(mid.node, q.keys, q.kids), p.node, h, mlo, hi);
    } else {
      StructNode(mid, p.node, h, mlo, hi);
      assert q == Inner(p.node, mid.keys, mid.kids);
    }
    if i > 0 {
      SpliceHead(p, i, q, h, lo, hi);
    }
    assert Splice(p, i, j, mid) == Inner(p.node, p.keys[..i] + q.keys, p.kids[..i] + q.kids);
    assert i == 0 ==> p.keys[..i] + q.keys == q.keys && p.kids[..i] + q.kids == q.kids;
  }

  lemma SepBelow(p: Tree, i: nat, j: nat, h: nat, lo: real, hi: real)
    requires p.Inner? && Struct(p, h, lo, hi) && i <= j < |p.keys|
    ensures Lo(p.keys, i, lo) < Num(p.keys[j])
  {
    hide Num, NulFree;
    SepFacts(p, j, h, lo, hi);
  }

  // Contents of a spliced node.

  lemma SpliceEntries(ts: seq<Tree>, i: nat, j: nat, mid: seq<Tree>)
    requires i <= j <= |ts|
    ensures EntriesOf(ts[..i] + mid + ts[j..]) == EntriesOf(ts[..i]) + EntriesOf(mid) + EntriesOf(ts[j..])
    ensures EntriesOf(ts) == EntriesOf(ts[..i]) + EntriesOf(ts[i..j]) + EntriesOf(ts[j..])
  {
    hide EntriesOf;
    EntriesConcat(ts[..i] + mid, ts[j..]);
    EntriesConcat(ts[..i], mid);
    assert ts == ts[..i] + ts[i..j] + ts[j..];
    EntriesConcat(ts[..i] + ts[i..j], ts[j..]);
    EntriesConcat(ts[..i], ts[i..j]);
  }

  lemma SpliceLeaves(ts: seq<Tree>, i: nat, j: nat, mid: seq<Tree>)
    requires i <= j <= |ts|
    ensures LeavesOf(ts[..i] + mid + ts[j..]) == LeavesOf(ts[..i]) + LeavesOf(mid) + LeavesOf(ts[j..])
    ensures LeavesOf(ts) == LeavesOf(ts[..i]) + LeavesOf(ts[i..j]) + LeavesOf(ts[j..])
  {
    hide LeavesOf;
    LeavesConcat(ts[..i] + mid, ts[j..]);
    LeavesConcat(ts[..i], mid);
    assert ts == ts[..i] + ts[i..j] + ts[j..];
    LeavesConcat(ts[..i] + ts[i..j], ts[j..]);
    LeavesConcat(ts[..i], ts[i..j]);
  }

  lemma SpliceBag(ts: seq<Tree>, i: nat, j: nat, mid: seq<Tree>)
    requires i <= j <= |ts|
    ensures BagOf(ts[..i] + mid + ts[j..]) == BagOf(ts[..i]) + BagOf(mid) + BagOf(ts[j..])
    ensures BagOf(ts) == BagOf(ts[..i]) + BagOf(ts[i..j]) + BagOf(ts[j..])
  {
    hide BagOf;
    BagConcat(ts[..i] + mid, ts[j..]);
    BagConcat(ts[..i], mid);
    assert ts == ts[..i] + ts[i..j] + ts[j..];
    BagConcat(ts[..i] + ts[i..j], ts[j..]);
    BagConcat(ts[..i], ts[i..j]);
  }

  lemma SpliceKeepsEntries(p: Tree, i: nat, j: nat, mid: Tree)
    requires p.Inner? && mid.Inner? && |p.kids| == |p.keys| + 1 && i < j <= |p.kids|
    requires EntriesOf(mid.kids) == EntriesOf(p.kids[i..j])
    ensures Entries(Splice(p, i, j, mid)) == Entries(p)
  {
    hide EntriesOf;
    SpliceEntries(p.kids, i, j, mid.kids);
  }

  lemma SpliceKeepsLeaves(p: Tree, i: nat, j: nat, mid: Tree)
    requires p.Inner? && mid.Inner? && |p.kids| == |p.keys| + 1 && i < j <= |p.kids|
    requires LeavesOf(mid.kids) == LeavesOf(p.kids[i..j])
    ensures Leaves(Splice(p, i, j, mid)) == Leaves(p)
  {
    hide LeavesOf;
    SpliceLeaves(p.kids, i, j, mid.kids);
  }

  lemma SpliceChangesBag(p: Tree, i: nat, j: nat, mid: Tree, plus: multiset<BNode>, minus: multiset<BNode>)
    requires p.Inner? && mid.Inner? && |p.kids| == |p.keys| + 1 && i < j <= |p.kids|
    requires BagOf(mid.kids) + minus == BagOf(p.kids[i..j]) + plus
    ensures Bag(Splice(p, i, j, mid)) + minus == Bag(p) + plus
  {
    hide BagOf;
    SpliceBag(p.kids, i, j, mid.kids);
    var a, c := BagOf(p.kids[..i]) + multiset{p.node}, BagOf(p.kids[j..]);
    assert Bag(p) == a + BagOf(p.kids[i..j]) + c && Bag(Splice(p, i, j, mid)) == a + BagOf(mid.kids) + c;
    assert a + BagOf(mid.kids) + c + minus == a + (BagOf(mid.kids) + minus) + c;
    assert a + BagOf(p.kids[i..j]) + c + plus == a + (BagOf(p.kids[i..j]) + plus) + c;
  }

  /** A node over the two siblings `r.0` and `r.2`. */
  ghost function Pair(n: BNode, r: (Tree, Key, Tree)): Tree {
    Inner(n, [r.1], [r.0, r.2])
  }

  lemma PairStruct(n: BNode, r: (Tree, Key, Tree), h: nat, lo: real, hi: real)
    requires Siblings(r.0, r.1, r.2, h, lo, hi)
    ensures Struct(Pair(n, r), h + 1, lo, hi)
  {
    hide Num, NulFree;
  }

  lemma PairFolds(a: Tree, b: Tree)
    ensures EntriesOf([a, b]) == Entries(a) + Entries(b)
    ensures LeavesOf([a, b]) == Leaves(a) + Leaves(b)
    ensures BagOf([a, b]) == Bag(a) + Bag(b)
  {
    hide Entries, Leaves, Bag;
    assert [a, b][1..] == [b];
    FoldsOne(b);
  }

  lemma SingleStruct(n: BNode, t: Tree, h: nat, lo: real, hi: real)
    requires Struct(t, h, lo, hi)
    ensures Struct(Inner(n, [], [t]), h + 1, lo, hi)
  {
    hide Num, NulFree;
  }
}
