/** The in-place moves on inner nodes: what each branch of the inner repairs does to the few
    nodes it touches. */
module InnerMoves {
  import opened Keys
  import opened Shape
  import opened Rebalance
  import opened LeafMoves

  /** The nodes in a child vector. */
  ghost function Nodes(cs: seq<BNode?>): set<BNode> {
    set n: BNode | n in cs
  }

  /** The separator that the code puts on the left of child `c` when `c` gets a left sibling. */
  ghost function GlueKey(c: BNode, sep: Key): Key
    reads c
  {
    if c.isLeaf && |c.key| > 0 then c.key[0] else sep
  }

  /** Removes key `rm` and child `rm + 1`, leaving room in front of both vectors. */
  method ShiftKidsUp(hot: BNode, rm: nat)
    requires rm < |hot.key| && |hot.child| == |hot.key| + 1
    modifies hot`key, hot`child
    ensures |hot.key| == |old(hot.key)| && |hot.child| == |old(hot.child)|
    ensures hot.key[1..] == RemoveAt(old(hot.key), rm)
    ensures hot.child[1..] == RemoveAt(old(hot.child), rm + 1)
  {
    hide RemoveAt, Up;
    ghost var ks, cs := hot.key, hot.child;
    UpFacts(ks, rm, rm);
    UpFacts(cs, rm + 1, rm + 1);
    var i := rm;
    while i >= 1
      invariant 0 <= i <= rm && |hot.key| == |ks| && |hot.child| == |cs|
      invariant hot.key == Up(ks, i, rm) && hot.child == Up(cs, i + 1, rm + 1)
    {
      UpFacts(ks, i, rm);
      UpFacts(cs, i + 1, rm + 1);
      hot.key := hot.key[i := hot.key[i - 1]];
      hot.child := hot.child[i + 1 := hot.child[i]];
      i := i - 1;
    }
    UpFacts(ks, 0, rm);
    UpFacts(cs, 1, rm + 1);
    UpFacts(cs, 0, rm + 1);
    hot.child := hot.child[1 := hot.child[0]];
  }

  /** Removes key `rm` and child `rm + 1`, leaving room at the end of both vectors. */
  method ShiftKidsDown(hot: BNode, rm: nat)
    requires rm < |hot.key| && |hot.child| == |hot.key| + 1
    modifies hot`key, hot`child
    ensures |hot.key| == |old(hot.key)| && |hot.child| == |old(hot.child)|
    ensures DropLast(hot.key) == RemoveAt(old(hot.key), rm)
    ensures DropLast(hot.child) == RemoveAt(old(hot.child), rm + 1)
  {
    hide RemoveAt, Down, DropLast;
    ghost var ks, cs := hot.key, hot.child;
    DownFacts(ks, rm, rm);
    DownFacts(cs, rm + 1, rm + 1);
    var i := rm;
    while i < |hot.key| - 1
      invariant rm <= i <= |ks| - 1 && |hot.key| == |ks| && |hot.child| == |cs|
      invariant hot.key == Down(ks, rm, i) && hot.child == Down(cs, rm + 1, i + 1)
    {
      DownFacts(ks, rm, i);
      DownFacts(cs, rm + 1, i + 1);
      hot.key := hot.key[i := hot.key[i + 1]];
      hot.child := hot.child[i + 1 := hot.child[i + 2]];
      i := i + 1;
    }
    DownFacts(ks, rm, i);
    DownFacts(cs, rm + 1, i + 1);
  }

  ghost predicate CanBorrowFromPrev(hot: BNode, prev: BNode, p: BNode, rm: nat, pa: nat, x: BNode, y: BNode)
    reads hot, prev, p, x, y
  {
    && hot != prev && hot != p && prev != p && x !in {hot, prev, p, y} && y !in {hot, prev, p}
    && rm < |hot.key| && |hot.child| == |hot.key| + 1 && hot.child[0] == y
    && 0 < |prev.key| && |prev.child| > 0 && Last(prev.child) == x
    && 0 < pa <= |p.key|
    && x.isLeaf == y.isLeaf && (y.isLeaf ==> |y.key| > 0)
  }

  /** Underflow, "rotate 11": `hot` loses key `rm` and child `rm + 1` and takes the last child of `prev`. */
  method BorrowKidFromPrev(hot: BNode, prev: BNode, p: BNode, rm: nat, pa: nat, ghost x: BNode, ghost y: BNode)
    requires CanBorrowFromPrev(hot, prev, p, rm, pa, x, y)
    modifies hot`key, hot`child, prev`key, prev`child, p`key, x`parent
    ensures hot.key == [GlueKey(y, old(p.key)[pa - 1])] + RemoveAt(old(hot.key), rm)
    ensures hot.child == [x] + RemoveAt(old(hot.child), rm + 1)
    ensures prev.key == DropLast(old(prev.key)) && prev.child == DropLast(old(prev.child))
    ensures p.key == old(p.key)[pa - 1 := Last(old(prev.key))]
    ensures x.parent == hot
  {
    ShiftKidsUp(hot, rm);
    assert hot.child[1] == hot.child[1..][0] == RemoveAt(old(hot.child), rm + 1)[0] == y;
    hot.child := hot.child[0 := Last(prev.child)];
    hot.child[0].parent := hot;
    if hot.child[0].isLeaf {
      hot.key := hot.key[0 := hot.child[1].key[0]];
    } else {
      hot.key := hot.key[0 := p.key[pa - 1]];
    }
    p.key := p.key[pa - 1 := Last(prev.key)];
    prev.key := DropLast(prev.key);
    prev.child := DropLast(prev.child);
  }

  ghost predicate CanBorrowFromNext(hot: BNode, next: BNode, p: BNode, rm: nat, pa: nat, x: BNode)
    reads hot, next, p, x
  {
    && hot != next && hot != p && next != p && x !in {hot, next, p}
    && rm < |hot.key| && |hot.child| == |hot.key| + 1
    && 0 < |next.key| && |next.child| > 0 && next.child[0] == x
    && pa < |p.key|
    && (x.isLeaf ==> |x.key| > 0)
  }

  /** Underflow, "rotate 12": `hot` loses key `rm` and child `rm + 1` and takes the first child of `next`. */
  method BorrowKidFromNext(hot: BNode, next: BNode, p: BNode, rm: nat, pa: nat, ghost x: BNode)
    requires CanBorrowFromNext(hot, next, p, rm, pa, x)
    modifies hot`key, hot`child, next`key, next`child, p`key, x`parent
    ensures hot.key == RemoveAt(old(hot.key), rm) + [GlueKey(x, old(p.key)[pa])]
    ensures hot.child == RemoveAt(old(hot.child), rm + 1) + [x]
    ensures next.key == old(next.key)[1..] && next.child == old(next.child)[1..]
    ensures p.key == old(p.key)[pa := old(next.key)[0]]
    ensures x.parent == hot
  {
    ShiftKidsDown(hot, rm);
    AdoptFirst(hot, next, p, pa, x);
    p.key := p.key[pa := next.key[0]];
    next.key := next.key[1..];
    next.child := next.child[1..];
  }

  /** Fills the room at the end of `hot` with the first child of `next`. */
  method AdoptFirst(hot: BNode, next: BNode, p: BNode, pa: nat, ghost x: BNode)
    requires hot != next && hot != p && |hot.key| > 0 && |hot.child| > 0 && |next.child| > 0
    requires pa < |p.key| && next.child[0] == x && x !in {hot, next, p} && (x.isLeaf ==> |x.key| > 0)
    modifies hot`key, hot`child, x`parent
    ensures hot.key == DropLast(old(hot.key)) + [GlueKey(x, p.key[pa])]
    ensures hot.child == DropLast(old(hot.child)) + [x]
    ensures x.parent == hot
  {
    hot.child := hot.child[|hot.child| - 1 := next.child[0]];
    Last(hot.child).parent := hot;
    if Last(hot.child).isLeaf {
      hot.key := hot.key[|hot.key| - 1 := Last(hot.child).key[0]];
    } else {
      hot.key := hot.key[|hot.key| - 1 := p.key[pa]];
    }
  }

  /** Appends the keys of `hot` but `rm`, each with the child on its right, to `prev`. */
  method AppendKids(hot: BNode, prev: BNode, rm: nat)
    requires hot != prev && rm < |hot.key| && |hot.child| == |hot.key| + 1
    requires forall k | k in RemoveAt(hot.key, rm) :: NulFree(k)
    requires null !in RemoveAt(hot.child[1..], rm)
    modifies prev`key, prev`child, Nodes(RemoveAt(hot.child[1..], rm))`parent
    ensures prev.key == old(prev.key) + RemoveAt(hot.key, rm)
    ensures prev.child == old(prev.child) + RemoveAt(hot.child[1..], rm)
    ensures forall n :: n in Nodes(RemoveAt(hot.child[1..], rm)) ==> n.parent == prev
  {
    hide NulFree, Skipping, RemoveAt, Nodes;
    ghost var cs := hot.child[1..];
    SkippingAll(hot.key, rm);
    SkippingAll(cs, rm);
    var i := 0;
    while i < |hot.key|
      invariant i <= |hot.key|
      invariant prev.key == old(prev.key) + Skipping(hot.key, rm, i)
      invariant prev.child == old(prev.child) + Skipping(cs, rm, i)
      invariant forall j :: 0 <= j < i && j != rm ==> cs[j] != null && cs[j].parent == prev
    {
      SkippingStep(hot.key, rm, i);
      SkippingStep(cs, rm, i);
      SkippingStep(cs, rm, i);
      if i != rm {
        KidKept(cs, rm, i);
        SkippingKeeps(hot.key, rm, i);
        prev.key := prev.key + [CStr(hot.key[i])];
        prev.child := prev.child + [hot.child[i + 1]];
        Last(prev.child).parent := prev;
      }
      i := i + 1;
    }
    NodesKept(cs, rm);
  }

  lemma SkippingKeeps<T>(s: seq<T>, rm: nat, i: nat)
    requires rm < |s| && i < |s| && i != rm
    ensures s[i] in RemoveAt(s, rm)
  {
    assert s[i] == RemoveAt(s, rm)[if i < rm then i else i - 1];
  }

  lemma KidKept(cs: seq<BNode?>, rm: nat, i: nat)
    requires rm < |cs| && i < |cs| && i != rm && null !in RemoveAt(cs, rm)
    ensures cs[i] != null && cs[i] in Nodes(RemoveAt(cs, rm))
  {
    SkippingKeeps(cs, rm, i);
  }

  lemma NodesKept(cs: seq<BNode?>, rm: nat)
    requires rm < |cs|
    ensures forall n: BNode :: n in Nodes(RemoveAt(cs, rm)) ==> exists j :: 0 <= j < |cs| && j != rm && cs[j] == n
  {
    forall n: BNode | n in Nodes(RemoveAt(cs, rm))
      ensures exists j :: 0 <= j < |cs| && j != rm && cs[j] == n
    {
      var k :| 0 <= k < |RemoveAt(cs, rm)| && RemoveAt(cs, rm)[k] == n;
      assert cs[if k < rm then k else k + 1] == n;
    }
  }

  ghost predicate CanMergeIntoPrev(hot: BNode, prev: BNode, rm: nat, moved: set<BNode>)
    reads hot, prev, moved
  {
    && hot != prev && rm < |hot.key| && |hot.child| == |hot.key| + 1
    && (forall k | k in RemoveAt(hot.key, rm) :: NulFree(k))
    && null !in RemoveAt(hot.child, rm + 1) && moved == Nodes(RemoveAt(hot.child, rm + 1))
    && hot !in moved && prev !in moved
    && hot.child[0] in moved && (hot.child[0].isLeaf ==> |hot.child[0].key| > 0 && NulFree(hot.child[0].key[0]))
  }

  /** Underflow, "merge 11": `hot` loses key `rm` and child `rm + 1` and gives its other children to `prev`. */
  method MergeKidsIntoPrev(hot: BNode, prev: BNode, sep: Key, rm: nat, ghost moved: set<BNode>)
    requires CanMergeIntoPrev(hot, prev, rm, moved)
    modifies prev`key, prev`child, moved`parent
    ensures prev.key == old(prev.key) + [GlueKey(hot.child[0], sep)] + RemoveAt(hot.key, rm)
    ensures prev.child == old(prev.child) + RemoveAt(hot.child, rm + 1)
    ensures forall n :: n in moved ==> n.parent == prev
  {
    hide NulFree;
    assert RemoveAt(hot.child, rm + 1) == [hot.child[0]] + RemoveAt(hot.child[1..], rm);
    prev.child := prev.child + [hot.child[0]];
    hot.child[0].parent := prev;
    if hot.child[0].isLeaf {
      prev.key := prev.key + [CStr(hot.child[0].key[0])];
    } else {
      prev.key := prev.key + [sep];
    }
    AppendKids(hot, prev, rm);
  }

  ghost predicate CanMergeNext(hot: BNode, next: BNode, p: BNode, rm: nat, pa: nat, moved: set<BNode>)
    reads hot, next, p, moved
  {
    && hot != next && hot != p && next != p
    && rm < |hot.key| && |hot.child| == |hot.key| + 1 && |next.child| == |next.key| + 1
    && pa < |p.key|
    && (forall k :: 0 <= k < |next.key| ==> NulFree(next.key[k]))
    && null !in next.child && moved == Nodes(next.child)
    && hot !in moved && next !in moved && p !in moved
    && next.child[0] in moved && (next.child[0].isLeaf ==> |next.child[0].key| > 0)
  }

  /** Underflow, "merge 12": `hot` loses key `rm` and child `rm + 1` and takes every child of `next`. */
  method MergeKidsNext(hot: BNode, next: BNode, p: BNode, rm: nat, pa: nat, ghost moved: set<BNode>)
    requires CanMergeNext(hot, next, p, rm, pa, moved)
    modifies hot`key, hot`child, moved`parent
    ensures hot.key == RemoveAt(old(hot.key), rm) + [GlueKey(next.child[0], p.key[pa])] + next.key
    ensures hot.child == RemoveAt(old(hot.child), rm + 1) + next.child
    ensures forall n :: n in moved ==> n.parent == hot
  {
    hide NulFree;
    ShiftKidsDown(hot, rm);
    AdoptFirst(hot, next, p, pa, next.child[0]);
    AppendRest(hot, next);
  }

  /** Appends the keys of `next`, each with the child on its right, to `hot`. */
  method AppendRest(hot: BNode, next: BNode)
    requires hot != next && |next.child| == |next.key| + 1 && null !in next.child
    requires forall k :: 0 <= k < |next.key| ==> NulFree(next.key[k])
    modifies hot`key, hot`child, Nodes(next.child[1..])`parent
    ensures hot.key == old(hot.key) + next.key
    ensures hot.child == old(hot.child) + next.child[1..]
    ensures forall n :: n in Nodes(next.child[1..]) ==> n.parent == hot
  {
    hide NulFree;
    ghost var cs := next.child[1..];
    var i := 0;
    while i < |next.key|
      invariant i <= |next.key|
      invariant hot.key == old(hot.key) + next.key[..i]
      invariant hot.child == old(hot.child) + cs[..i]
      invariant forall n :: n in Nodes(cs[..i]) ==> n.parent == hot
    {
      assert cs[i] == next.child[i + 1] && cs[..i + 1] == cs[..i] + [cs[i]];
      hot.key := hot.key + [CStr(next.key[i])];
      hot.child := hot.child + [next.child[i + 1]];
      Last(hot.child).parent := hot;
      i := i + 1;
    }
  }

  // ----- overflow: key `key`, with child `c` on its right, belongs at slot `lf` of the full node `hot` -----

  lemma KidTableReads(s: seq<BNode?>, tmp: seq<int>, lf: nat, c: BNode?)
    requires VirtualInsert(tmp, lf) && |s| == M
    ensures |InsertAt(s, lf + 1, c)| == M + 1 && InsertAt(s, lf + 1, c)[0] == s[0]
    ensures forall i :: 0 <= i < M ==> InsertAt(s, lf + 1, c)[i + 1] == if tmp[i] == -1 then c else s[tmp[i] + 1]
  {
  }

  /** First part: moves the upper keys and children to the new node `u`; `mid` goes to the parent. */
  method MoveUpperKids(hot: BNode, u: BNode, tmp: seq<int>, lf: nat, key: Key, c: BNode) returns (mid: Key)
    requires hot != u && |hot.key| == M - 1 && |hot.child| == M && VirtualInsert(tmp, lf)
    requires u.key == [] && u.child == [] && NulFree(key)
    requires forall k :: 0 <= k < |hot.key| ==> NulFree(hot.key[k])
    requires null !in hot.child
    modifies u`key, u`child, Nodes(InsertAt(hot.child, lf + 1, c)[M / 2 + 1..])`parent
    ensures |InsertAt(hot.key, lf, key)| == M && mid == InsertAt(hot.key, lf, key)[M / 2]
    ensures u.key == InsertAt(hot.key, lf, key)[M / 2 + 1..]
    ensures u.child == InsertAt(hot.child, lf + 1, c)[M / 2 + 1..]
    ensures forall n :: n in Nodes(u.child) ==> n.parent == u
  {
    hide NulFree, InsertAt;
    TableReads(hot.key, tmp, lf, key);
    KidTableReads(hot.child, tmp, lf, c);
    ghost var upper := InsertAt(hot.child, lf + 1, c)[M / 2 + 1..];
    assert upper[0] in upper;
    var mi := tmp[M / 2];
    if mi == -1 {
      u.child := u.child + [c];
      c.parent := u;
      mid := key;
    } else {
      u.child := u.child + [hot.child[mi + 1]];
      Last(u.child).parent := u;
      mid := hot.key[mi];
    }
    MoveRest(hot, u, tmp, lf, key, c, upper);
  }

  method MoveRest(hot: BNode, u: BNode, tmp: seq<int>, lf: nat, key: Key, c: BNode, ghost upper: seq<BNode?>)
    requires hot != u && |hot.key| == M - 1 && |hot.child| == M && VirtualInsert(tmp, lf) && NulFree(key)
    requires forall k :: 0 <= k < |hot.key| ==> NulFree(hot.key[k])
    requires null !in hot.child
    requires |InsertAt(hot.child, lf + 1, c)| == M + 1 && upper == InsertAt(hot.child, lf + 1, c)[M / 2 + 1..]
    requires u.key == [] && u.child == upper[..1] && upper[0] != null && upper[0].parent == u
    modifies u`key, u`child, Nodes(upper)`parent
    ensures |InsertAt(hot.key, lf, key)| == M && u.key == InsertAt(hot.key, lf, key)[M / 2 + 1..]
    ensures u.child == upper
    ensures forall n :: n in Nodes(u.child) ==> n.parent == u
  {
    hide NulFree, InsertAt;
    TableReads(hot.key, tmp, lf, key);
    KidTableReads(hot.child, tmp, lf, c);
    ghost var ks := InsertAt(hot.key, lf, key)[M / 2 + 1..];
    for i := M / 2 + 1 to M
      invariant u.key == ks[..i - M / 2 - 1] && u.child == upper[..i - M / 2]
      invariant forall n :: n in Nodes(u.child) ==> n.parent == u
    {
      var ki := tmp[i];
      ghost var x := upper[i - M / 2];
      assert x in upper && upper[..i + 1 - M / 2] == upper[..i - M / 2] + [x];
      if ki == -1 {
        u.key := u.key + [CStr(key)];
        u.child := u.child + [c];
        c.parent := u;
      } else {
        u.key := u.key + [CStr(hot.key[ki])];
        u.child := u.child + [hot.child[ki + 1]];
        Last(u.child).parent := u;
      }
    }
  }

  /** Second part: moves the lower keys and children into place and drops the rest. */
  method KeepLowerKids(hot: BNode, tmp: seq<int>, lf: nat, key: Key, c: BNode)
    requires |hot.key| == M - 1 && |hot.child| == M && VirtualInsert(tmp, lf)
    modifies hot`key, hot`child
    ensures hot.key == InsertAt(old(hot.key), lf, key)[..M / 2]
    ensures hot.child == InsertAt(old(hot.child), lf + 1, c)[..M / 2 + 1]
  {
    hide InsertAt;
    TableReads(hot.key, tmp, lf, key);
    KidTableReads(hot.child, tmp, lf, c);
    ghost var ks, cs := InsertAt(hot.key, lf, key), InsertAt(hot.child, lf + 1, c);
    var i := M / 2 - 1;
    while i != -1
      invariant -1 <= i < M / 2 && |hot.key| == M - 1 && |hot.child| == M
      invariant forall j :: i < j < M / 2 ==> hot.key[j] == ks[j] && hot.child[j + 1] == cs[j + 1]
      invariant forall j :: 0 <= j <= i ==> hot.key[j] == old(hot.key)[j] && hot.child[j + 1] == old(hot.child)[j + 1]
      invariant hot.child[0] == old(hot.child)[0]
    {
      var ti := tmp[i];
      if ti == i {
        break;
      } else if ti == -1 {
        hot.key := hot.key[i := key];
        hot.child := hot.child[i + 1 := c];
        break;
      } else {
        hot.key := hot.key[i := hot.key[ti]];
        hot.child := hot.child[i + 1 := hot.child[ti + 1]];
      }
      i := i - 1;
    }
    assert hot.key[0] == ks[0] && hot.key[1] == ks[1];
    assert hot.child[0] == cs[0] && hot.child[0 + 1] == cs[0 + 1] && hot.child[1 + 1] == cs[1 + 1];
    hot.key := hot.key[..M / 2];
    hot.child := hot.child[..M / 2 + 1];
  }
}
