/** A tree with a hole: everything around one subtree, from its parent up to the root. The
    slots recorded on the way are the path `_hot_idx` that `search` returns. */
module Context {
  import opened Keys
  import opened Shape
  import opened Rebalance

  /** `Frame(up, t, i)`: the hole stands for child `i` of `t`, and `t` stands in `up`. Child
      `i` of `t` is the subtree that was in the hole when the context was built. */
  datatype Ctx = Top | Frame(up: Ctx, t: Tree, i: nat)

  ghost function Plug(c: Ctx, x: Tree): Tree
    decreases c
  {
    match c
    case Top => x
    case Frame(up, t, i) => if t.Inner? && i < |t.kids| then Plug(up, SetKid(t, i, x)) else x
  }

  ghost predicate WellFormed(c: Ctx) {
    c.Frame? ==> c.t.Inner? && c.i < |c.t.kids| && |c.t.kids| == |c.t.keys| + 1 && WellFormed(c.up)
  }

  ghost function Path(c: Ctx): seq<nat> {
    match c
    case Top => []
    case Frame(up, _, i) => Path(up) + [i]
  }

  ghost function CtxNode(c: Ctx): BNode? {
    match c
    case Top => null
    case Frame(_, t, _) => t.node
  }

  ghost function CtxRoot(c: Ctx, x: BNode): BNode {
    match c
    case Top => x
    case Frame(up, t, _) => CtxRoot(up, t.node)
  }

  // ----- folds around the hole -----

  ghost function EntriesBefore(c: Ctx): seq<Entry>
    requires WellFormed(c)
  {
    if c.Top? then [] else EntriesBefore(c.up) + EntriesOf(c.t.kids[..c.i])
  }

  ghost function EntriesAfter(c: Ctx): seq<Entry>
    requires WellFormed(c)
  {
    if c.Top? then [] else EntriesOf(c.t.kids[c.i + 1..]) + EntriesAfter(c.up)
  }

  ghost function LeavesBefore(c: Ctx): seq<BNode>
    requires WellFormed(c)
  {
    if c.Top? then [] else LeavesBefore(c.up) + LeavesOf(c.t.kids[..c.i])
  }

  ghost function LeavesAfter(c: Ctx): seq<BNode>
    requires WellFormed(c)
  {
    if c.Top? then [] else LeavesOf(c.t.kids[c.i + 1..]) + LeavesAfter(c.up)
  }

  ghost function BagAround(c: Ctx): multiset<BNode>
    requires WellFormed(c)
  {
    if c.Top? then multiset{}
    else BagAround(c.up) + multiset{c.t.node} + BagOf(c.t.kids[..c.i]) + BagOf(c.t.kids[c.i + 1..])
  }

  lemma Regroup<T>(a: seq<T>, b: seq<T>, c: seq<T>, d: seq<T>, e: seq<T>)
    ensures a + (b + c + d) + e == (a + b) + c + (d + e)
  {
  }

  lemma {:induction false} PlugEntries(c: Ctx, x: Tree)
    requires WellFormed(c)
    ensures Entries(Plug(c, x)) == EntriesBefore(c) + Entries(x) + EntriesAfter(c)
  {
    hide EntriesOf;
    if c.Frame? {
      var p := SetKid(c.t, c.i, x);
      PlugEntries(c.up, p);
      SpliceEntries(c.t.kids, c.i, c.i + 1, [x]);
      FoldsOne(x);
      Regroup(EntriesBefore(c.up), EntriesOf(c.t.kids[..c.i]), Entries(x), EntriesOf(c.t.kids[c.i + 1..]),
        EntriesAfter(c.up));
      assert p.kids == c.t.kids[..c.i] + [x] + c.t.kids[c.i + 1..];
    }
  }

  lemma {:induction false} PlugLeaves(c: Ctx, x: Tree)
    requires WellFormed(c)
    ensures Leaves(Plug(c, x)) == LeavesBefore(c) + Leaves(x) + LeavesAfter(c)
  {
    hide LeavesOf;
    if c.Frame? {
      var p := SetKid(c.t, c.i, x);
      PlugLeaves(c.up, p);
      SpliceLeaves(c.t.kids, c.i, c.i + 1, [x]);
      FoldsOne(x);
      Regroup(LeavesBefore(c.up), LeavesOf(c.t.kids[..c.i]), Leaves(x), LeavesOf(c.t.kids[c.i + 1..]),
        LeavesAfter(c.up));
      assert p.kids == c.t.kids[..c.i] + [x] + c.t.kids[c.i + 1..];
    }
  }

  lemma RegroupBags<T>(up: multiset<T>, n: T, a: multiset<T>, b: multiset<T>, x: multiset<T>)
    ensures up + (multiset{n} + (a + x + b)) == up + multiset{n} + a + b + x
  {
  }

  lemma {:induction false} PlugBag(c: Ctx, x: Tree)
    requires WellFormed(c)
    ensures Bag(Plug(c, x)) == BagAround(c) + Bag(x)
  {
    hide BagOf;
    if c.Frame? {
      var p := SetKid(c.t, c.i, x);
      PlugBag(c.up, p);
      SpliceBag(c.t.kids, c.i, c.i + 1, [x]);
      FoldsOne(x);
      assert p.kids == c.t.kids[..c.i] + [x] + c.t.kids[c.i + 1..];
      RegroupBags(BagAround(c.up), c.t.node, BagOf(c.t.kids[..c.i]), BagOf(c.t.kids[c.i + 1..]), Bag(x));
    }
  }

  // ----- invariants around the hole -----

  ghost function LoAt(c: Ctx): real
    requires WellFormed(c)
  {
    if c.Top? then 0.0 else Lo(c.t.keys, c.i, LoAt(c.up))
  }

  ghost function HiAt(c: Ctx): real
    requires WellFormed(c)
  {
    if c.Top? then 1.0 else Hi(c.t.keys, c.i, HiAt(c.up))
  }

  /** The number of keys allowed in a node: a root may hold fewer. */
  ghost predicate Sized(t: Tree, isRoot: bool) {
    && (if isRoot then t.Inner? ==> |t.keys| > 0 else 2 <= |t.keys|)
    && |t.keys| <= M - 1
    && (t.Inner? ==> forall i :: 0 <= i < |t.kids| ==> Arity(t.kids[i]))
  }

  /** As `Sized`, whatever the size of child `i`. */
  ghost predicate SizedBut(t: Tree, i: nat, isRoot: bool) {
    && t.Inner? && (if isRoot then 0 else 1) < |t.keys| < M
    && forall k :: 0 <= k < |t.kids| && k != i ==> Arity(t.kids[k])
  }

  /** `c` is a valid tree around a hole of height `h`. */
  ghost predicate OkCtx(c: Ctx, h: nat) {
    && WellFormed(c)
    && (c.Frame? ==> Struct(c.t, h + 1, LoAt(c.up), HiAt(c.up)) && SizedBut(c.t, c.i, c.up.Top?) && OkCtx(c.up, h + 1))
  }

  /** `x` may fill the hole. */
  ghost predicate FitsHole(c: Ctx, x: Tree, h: nat)
    requires WellFormed(c)
  {
    && Struct(x, h, LoAt(c), HiAt(c))
    && Sized(x, c.Top?)
    && (c.Frame? && h == 0 && c.i > 0 ==> |x.keys| > 0 && x.keys[0] == c.t.keys[c.i - 1])
  }

  ghost predicate RootOk(t: Tree) {
    exists h: nat :: Struct(t, h, 0.0, 1.0) && Sized(t, true)
  }

  lemma SetKidOk(t: Tree, i: nat, x: Tree, h: nat, lo: real, hi: real, isRoot: bool)
    requires t.Inner? && i < |t.kids| && Struct(t, h + 1, lo, hi) && SizedBut(t, i, isRoot)
    requires Struct(x, h, Lo(t.keys, i, lo), Hi(t.keys, i, hi)) && Arity(x)
    requires h == 0 && i > 0 ==> |x.keys| > 0 && x.keys[0] == t.keys[i - 1]
    ensures Struct(SetKid(t, i, x), h + 1, lo, hi) && Sized(SetKid(t, i, x), isRoot)
  {
    hide Num, NulFree, Sorted;
  }

  lemma {:induction false} PlugOk(c: Ctx, x: Tree, h: nat)
    requires OkCtx(c, h) && FitsHole(c, x, h)
    ensures RootOk(Plug(c, x))
    decreases c
  {
    hide Num, NulFree, Sorted, Struct, Arity;
    if c.Frame? {
      ArityIsSized(x);
      SetKidOk(c.t, c.i, x, h, LoAt(c.up), HiAt(c.up), c.up.Top?);
      PlugOk(c.up, SetKid(c.t, c.i, x), h + 1);
    }
  }

  lemma ArityIsSized(x: Tree)
    ensures Arity(x) <==> Sized(x, false)
  {
  }

  // ----- moving up one level -----

  ghost function EntriesWith(c: Ctx, es: seq<Entry>): seq<Entry>
    requires WellFormed(c)
  {
    EntriesBefore(c) + es + EntriesAfter(c)
  }

  ghost function LeavesWith(c: Ctx, ls: seq<BNode>): seq<BNode>
    requires WellFormed(c)
  {
    LeavesBefore(c) + ls + LeavesAfter(c)
  }

  /** `x` in the hole of `c` is the same as its parent in the hole above. */
  lemma UpFolds(c: Ctx, x: Tree)
    requires WellFormed(c) && c.Frame?
    ensures var p := SetKid(c.t, c.i, x);
            && BagAround(c) + Bag(x) == BagAround(c.up) + Bag(p)
            && EntriesWith(c, Entries(x)) == EntriesWith(c.up, Entries(p))
            && LeavesWith(c, Leaves(x)) == LeavesWith(c.up, Leaves(p))
  {
    hide EntriesBefore, EntriesAfter, LeavesBefore, LeavesAfter, BagAround, Entries, Leaves, Bag;
    var p := SetKid(c.t, c.i, x);
    assert Plug(c, x) == Plug(c.up, p);
    PlugEntries(c, x);
    PlugEntries(c.up, p);
    PlugLeaves(c, x);
    PlugLeaves(c.up, p);
    PlugBag(c, x);
    PlugBag(c.up, p);
  }

  /** The hole's parent with `x` in the hole is a search tree. */
  lemma UpStruct(c: Ctx, x: Tree, h: nat)
    requires OkCtx(c, h) && c.Frame? && Struct(x, h, LoAt(c), HiAt(c))
    requires h == 0 && c.i > 0 ==> |x.keys| > 0 && x.keys[0] == c.t.keys[c.i - 1]
    ensures Struct(SetKid(c.t, c.i, x), h + 1, LoAt(c.up), HiAt(c.up))
  {
    hide Num, NulFree, Sorted;
  }
}
