/** The tree's nodes, and the abstract shape that a linked structure of nodes represents. */
module Shape {
  import opened Keys

  class BNode {
    var parent: BNode?
    const isLeaf: bool
    var key: seq<Key>
    var child: seq<BNode?>
    // leaf nodes only
    var data: seq<int>
    var prev: BNode?
    var next: BNode?

    constructor (parent: BNode?, isLeaf: bool)
      ensures this.parent == parent && this.isLeaf == isLeaf && prev == null && next == null
      ensures key == [] && child == [] && data == []
    {
      this.parent, this.isLeaf, prev, next := parent, isLeaf, null, null;
      key, child, data := [], [], [];
    }

    predicate IsFull()
      reads this
    {
      |key| == M - 1
    }
  }

  const M := 5

  datatype Tree =
    | Leaf(node: BNode, keys: seq<Key>, data: seq<int>)
    | Inner(node: BNode, keys: seq<Key>, kids: seq<Tree>)

  type Entry = (Key, int)

  /** One datum a key in a leaf, one child more than keys in an inner node. */
  ghost predicate Lengths(t: Tree) {
    if t.Leaf? then |t.data| == |t.keys| else |t.kids| == |t.keys| + 1
  }

  // ----- folds over a tree, left to right -----

  ghost function Entries(t: Tree): (r: seq<Entry>)
    ensures t.Leaf? && Lengths(t) ==> |r| == |t.keys| && forall i :: 0 <= i < |r| ==> r[i] == (t.keys[i], t.data[i])
    decreases t, 0
  {
    match t
    case Leaf(_, keys, data) =>
      if |keys| == |data| then seq(|keys|, i requires 0 <= i < |keys| => (keys[i], data[i])) else []
    case Inner(_, _, kids) => EntriesOf(kids)
  }

  ghost function EntriesOf(ts: seq<Tree>): seq<Entry>
    decreases ts
  {
    if ts == [] then [] else Entries(ts[0]) + EntriesOf(ts[1..])
  }

  /** The leaf nodes in key order. */
  ghost function Leaves(t: Tree): (r: seq<BNode>)
    decreases t, 0
  {
    if t.Leaf? then [t.node] else LeavesOf(t.kids)
  }

  ghost function LeavesOf(ts: seq<Tree>): seq<BNode>
    decreases ts
  {
    if ts == [] then [] else Leaves(ts[0]) + LeavesOf(ts[1..])
  }

  /** Every occurrence of a node in the tree: a node counted once is reached by one path. */
  ghost function Bag(t: Tree): (r: multiset<BNode>)
    ensures t.node in r
    decreases t, 0
  {
    if t.Leaf? then multiset{t.node} else multiset{t.node} + BagOf(t.kids)
  }

  ghost function BagOf(ts: seq<Tree>): (r: multiset<BNode>)
    ensures forall i :: 0 <= i < |ts| ==> Bag(ts[i]) <= r
    decreases ts
  {
    if ts == [] then multiset{} else Bag(ts[0]) + BagOf(ts[1..])
  }

  ghost function Refs(t: Tree): (r: set<BNode>)
    ensures t.node in r
  {
    set n | n in Bag(t)
  }

  ghost function RefsOf(ts: seq<Tree>): (r: set<BNode>)
    ensures forall i :: 0 <= i < |ts| ==> Refs(ts[i]) <= r
  {
    set n | n in BagOf(ts)
  }

  /** The nodes of `t` below its root. */
  ghost function Below(t: Tree): (r: set<BNode>)
    ensures r <= Refs(t)
  {
    if t.Leaf? then {} else RefsOf(t.kids)
  }

  ghost function BelowOf(ts: seq<Tree>): (r: set<BNode>)
    ensures forall i :: 0 <= i < |ts| ==> Below(ts[i]) <= r
    ensures r <= RefsOf(ts)
  {
    set i, n | 0 <= i < |ts| && n in Below(ts[i]) :: n
  }

  // ----- heap representation -----

  function Nulls(n: nat): seq<BNode?> {
    seq(n, _ => null)
  }

  ghost function NodesOf(ts: seq<Tree>): (r: seq<BNode?>)
    ensures |r| == |ts| && forall i :: 0 <= i < |ts| ==> r[i] == ts[i].node
  {
    seq(|ts|, i requires 0 <= i < |ts| => ts[i].node)
  }

  /** The linked nodes under `t.node` are laid out as `t` says. */
  ghost predicate Body(t: Tree)
    reads Refs(t)`key, Refs(t)`child, Refs(t)`data, Below(t)`parent
    decreases t, 0
  {
    && t.node.key == t.keys
    && t.node.isLeaf == t.Leaf?
    && match t
       case Leaf(n, keys, data) => n.data == data && n.child == Nulls(|keys| + 1)
       case Inner(n, keys, kids) => n.child == NodesOf(kids) && Parents(kids, n) && Bodies(kids)
  }

  ghost predicate Bodies(ts: seq<Tree>)
    reads RefsOf(ts)`key, RefsOf(ts)`child, RefsOf(ts)`data, BelowOf(ts)`parent
    decreases ts
  {
    forall i :: 0 <= i < |ts| ==> Body(ts[i])
  }

  ghost predicate Parents(ts: seq<Tree>, par: BNode?)
    reads (set n: BNode | n in NodesOf(ts))`parent
  {
    forall i :: 0 <= i < |ts| ==> ts[i].node.parent == par
  }

  /** The linked nodes under `t.node`, whose parent is `par`, are laid out as `t` says. */
  ghost predicate Rep(t: Tree, par: BNode?)
    reads Refs(t)`key, Refs(t)`child, Refs(t)`data, Refs(t)`parent
  {
    t.node.parent == par && Body(t)
  }

  ghost function First(ls: seq<BNode>, y: BNode?): BNode? {
    if ls == [] then y else ls[0]
  }

  /** `prev` and `next` string these leaves together in this order, between `x` and `y`. */
  ghost predicate Linked(x: BNode?, ls: seq<BNode>, y: BNode?)
    reads (set n | n in ls)`prev, (set n | n in ls)`next
    decreases ls
  {
    ls != [] ==> ls[0].prev == x && ls[0].next == First(ls[1..], y) && Linked(ls[0], ls[1..], y)
  }

  ghost predicate Chain(ls: seq<BNode>)
    reads (set n | n in ls)`prev, (set n | n in ls)`next
  {
    Linked(null, ls, null)
  }

  // ----- ordering and size invariants -----

  /** `k` has no NUL byte and lies in [lo, hi). */
  ghost predicate In(k: Key, lo: real, hi: real) {
    NulFree(k) && lo <= Num(k) < hi
  }

  ghost function Lo(keys: seq<Key>, i: nat, lo: real): real
    requires i <= |keys|
  {
    if i == 0 then lo else Num(keys[i - 1])
  }

  ghost function Hi(keys: seq<Key>, i: nat, hi: real): real
    requires i <= |keys|
  {
    if i == |keys| then hi else Num(keys[i])
  }

  /** Strictly ascending keys within [lo, hi). */
  ghost predicate Sorted(keys: seq<Key>, lo: real, hi: real) {
    && (forall i :: 0 <= i < |keys| ==> In(keys[i], lo, hi))
    && (forall i, j :: 0 <= i < j < |keys| ==> Num(keys[i]) < Num(keys[j]))
  }

  /** `t` is a search tree of height `h` over [lo, hi): equal leaf depth, every subtree within
      the separators around it, and the separator on the left of a leaf equal to its first key. */
  ghost predicate Struct(t: Tree, h: nat, lo: real, hi: real)
    decreases t
  {
    && Sorted(t.keys, lo, hi)
    && match t
       case Leaf(_, keys, data) =>
         && h == 0
         && |keys| == |data|
       case Inner(_, keys, kids) =>
         && h > 0
         && |kids| == |keys| + 1
         && (|keys| > 0 ==> lo < Num(keys[0]))
         && (forall i :: 0 <= i < |kids| ==> Struct(kids[i], h - 1, Lo(keys, i, lo), Hi(keys, i, hi)))
         && (h == 1 ==> forall i :: 0 < i < |kids| ==> |kids[i].keys| > 0 && kids[i].keys[0] == keys[i - 1])
  }

  /** 2 to 4 keys in every node. */
  ghost predicate Arity(t: Tree)
    decreases t
  {
    && 2 <= |t.keys| <= M - 1
    && (t.Inner? ==> forall i :: 0 <= i < |t.kids| ==> Arity(t.kids[i]))
  }
}
