/** What a valid tree holds: its entries in ascending key order, the map they form, and how
    many of them a tree of a given height can have. */
module Contents {
  import opened Keys
  import opened Shape
  import opened Rebalance
  import opened Context

  // ----- order -----

  /** Strictly ascending keys within [lo, hi). */
  ghost predicate Within(es: seq<Entry>, lo: real, hi: real) {
    && (forall i :: 0 <= i < |es| ==> In(es[i].0, lo, hi))
    && (forall i, j :: 0 <= i < j < |es| ==> Num(es[i].0) < Num(es[j].0))
  }

  lemma WithinConcat(a: seq<Entry>, b: seq<Entry>, lo: real, mid: real, hi: real)
    requires Within(a, lo, mid) && Within(b, mid, hi) && lo <= mid <= hi
    ensures Within(a + b, lo, hi)
  {
    hide Num, NulFree;
    var n := |a|;
    forall i, j | 0 <= i < j < n + |b|
      ensures Num((a + b)[i].0) < Num((a + b)[j].0)
    {
      if i < n <= j {
        assert In(a[i].0, lo, mid) && In(b[j - n].0, mid, hi);
      }
    }
  }

  /** The bound on the left of child `i`, and on the right of child `i - 1`. */
  ghost function Edge(keys: seq<Key>, i: nat, lo: real, hi: real): real
    requires i <= |keys| + 1
  {
    if i == 0 then lo else if i == |keys| + 1 then hi else Num(keys[i - 1])
  }

  lemma {:induction false} EntriesWithin(t: Tree, h: nat, lo: real, hi: real)
    requires Struct(t, h, lo, hi) && lo <= hi
    ensures Within(Entries(t), lo, hi)
    decreases t, 0
  {
    hide Num, NulFree;
    if t.Inner? {
      RunWithin(t, h, lo, hi, 0, |t.kids|);
      assert t.kids[0..|t.kids|] == t.kids;
    }
  }

  /** The entries below a run of children lie between the separators around the run. */
  lemma {:induction false} RunWithin(t: Tree, h: nat, lo: real, hi: real, i: nat, j: nat)
    requires t.Inner? && Struct(t, h, lo, hi) && lo <= hi && i <= j <= |t.kids|
    ensures |t.kids| == |t.keys| + 1
      && Within(EntriesOf(t.kids[i..j]), Edge(t.keys, i, lo, hi), Edge(t.keys, j, lo, hi))
    decreases t.kids, j
  {
    hide Num, NulFree, Entries, Struct, EntriesOf, Within, Edge;
    InnerLengths(t, h, lo, hi);
    if i == j {
      NoEntries(t.kids[i..j], Edge(t.keys, i, lo, hi), Edge(t.keys, j, lo, hi));
    } else {
      var x := t.kids[j - 1];
      RunWithin(t, h, lo, hi, i, j - 1);
      Edges(t, h, lo, hi, j - 1);
      EntriesWithin(x, h - 1, Edge(t.keys, j - 1, lo, hi), Edge(t.keys, j, lo, hi));
      assert t.kids[i..j] == t.kids[i..j - 1] + [x];
      EntriesConcat(t.kids[i..j - 1], [x]);
      FoldsOne(x);
      EdgesMonotone(t, h, lo, hi, i, j - 1);
      WithinConcat(EntriesOf(t.kids[i..j - 1]), Entries(x), Edge(t.keys, i, lo, hi), Edge(t.keys, j - 1, lo, hi),
        Edge(t.keys, j, lo, hi));
    }
  }

  lemma NoEntries(ts: seq<Tree>, lo: real, hi: real)
    requires ts == []
    ensures Within(EntriesOf(ts), lo, hi)
  {
  }

  lemma InnerLengths(t: Tree, h: nat, lo: real, hi: real)
    requires t.Inner? && Struct(t, h, lo, hi)
    ensures h > 0 && |t.kids| == |t.keys| + 1
  {
    hide Num, NulFree, Sorted;
  }

  lemma Edges(t: Tree, h: nat, lo: real, hi: real, i: nat)
    requires t.Inner? && Struct(t, h, lo, hi) && lo <= hi && i < |t.kids|
    ensures h > 0 && |t.kids| == |t.keys| + 1
    ensures Struct(t.kids[i], h - 1, Edge(t.keys, i, lo, hi), Edge(t.keys, i + 1, lo, hi))
    ensures Edge(t.keys, i, lo, hi) <= Edge(t.keys, i + 1, lo, hi)
  {
    hide Num, NulFree;
    assert Struct(t.kids[i], h - 1, Lo(t.keys, i, lo), Hi(t.keys, i, hi));
  }

  lemma EdgesMonotone(t: Tree, h: nat, lo: real, hi: real, i: nat, j: nat)
    requires t.Inner? && Struct(t, h, lo, hi) && lo <= hi && i <= j < |t.kids|
    ensures |t.kids| == |t.keys| + 1 && Edge(t.keys, i, lo, hi) <= Edge(t.keys, j, lo, hi)
  {
    hide Num, NulFree;
  }

  /** No key around the hole lies within the bounds of the hole. */
  lemma {:induction false} Outside(c: Ctx, h: nat)
    requires OkCtx(c, h)
    ensures WellFormed(c) && LoAt(c) <= HiAt(c)
    ensures forall e | e in EntriesBefore(c) :: Num(e.0) < LoAt(c)
    ensures forall e | e in EntriesAfter(c) :: HiAt(c) <= Num(e.0)
    decreases c
  {
    hide Num, NulFree, Entries, EntriesOf, Within;
    if c.Frame? {
      Outside(c.up, h + 1);
      var lo, hi := LoAt(c.up), HiAt(c.up);
      KidsWithin(c, h);
      BeforeKid(c.up, EntriesOf(c.t.kids[..c.i]), lo, LoAt(c));
      AfterKid(c.up, EntriesOf(c.t.kids[c.i + 1..]), HiAt(c), hi, c.t, h + 1, c.i);
    }
  }

  /** The siblings of the hole hold keys on the right sides of its bounds. */
  lemma KidsWithin(c: Ctx, h: nat)
    requires OkCtx(c, h) && c.Frame? && LoAt(c.up) <= HiAt(c.up)
    ensures WellFormed(c) && LoAt(c.up) <= LoAt(c) <= HiAt(c) <= HiAt(c.up)
    ensures Within(EntriesOf(c.t.kids[..c.i]), LoAt(c.up), LoAt(c))
    ensures Within(EntriesOf(c.t.kids[c.i + 1..]), HiAt(c), HiAt(c.up))
    ensures |c.t.kids| == |c.t.keys| + 1
  {
    hide Num, NulFree, Entries, EntriesOf, Within;
    var lo, hi := LoAt(c.up), HiAt(c.up);
    var n := |c.t.kids|;
    Edges(c.t, h + 1, lo, hi, c.i);
    RunWithin(c.t, h + 1, lo, hi, 0, c.i);
    RunWithin(c.t, h + 1, lo, hi, c.i + 1, n);
    assert c.t.kids[0..c.i] == c.t.kids[..c.i] && c.t.kids[c.i + 1..n] == c.t.kids[c.i + 1..];
    EdgesMonotone(c.t, h + 1, lo, hi, 0, c.i);
  }

  lemma BeforeKid(up: Ctx, es: seq<Entry>, lo: real, mid: real)
    requires WellFormed(up) && Within(es, lo, mid) && lo <= mid
    requires forall e | e in EntriesBefore(up) :: Num(e.0) < lo
    ensures forall e | e in EntriesBefore(up) + es :: Num(e.0) < mid
  {
    hide Num, NulFree;
    forall e | e in EntriesBefore(up) + es
      ensures Num(e.0) < mid
    {
      if e in es {
        var i :| 0 <= i < |es| && es[i] == e;
        assert In(es[i].0, lo, mid);
      }
    }
  }

  lemma AfterKid(up: Ctx, es: seq<Entry>, mid: real, hi: real, t: Tree, h: nat, i: nat)
    requires WellFormed(up) && Within(es, mid, hi)
    requires forall e | e in EntriesAfter(up) :: hi <= Num(e.0)
    requires t.Inner? && i < |t.kids| && |t.kids| == |t.keys| + 1 && mid <= hi
    ensures forall e | e in es + EntriesAfter(up) :: mid <= Num(e.0)
  {
    hide Num, NulFree;
    forall e | e in es + EntriesAfter(up)
      ensures mid <= Num(e.0)
    {
      if e in es {
        var j :| 0 <= j < |es| && es[j] == e;
        assert In(es[j].0, mid, hi);
      }
    }
  }

  /** A key that belongs in the leaf `x` and is not there is nowhere in the tree. */
  lemma NotFound(c: Ctx, x: Tree, key: Key, lf: nat)
    requires OkCtx(c, 0) && WellFormed(c) && x.Leaf? && FitsHole(c, x, 0) && |x.keys| == |x.data|
    requires LoAt(c) <= Num(key) < HiAt(c)
    requires lf <= |x.keys| && (lf > 0 ==> Num(x.keys[lf - 1]) < Num(key))
    requires lf < |x.keys| ==> Num(key) < Num(x.keys[lf])
    ensures forall e | e in EntriesWith(c, Entries(x)) :: e.0 != key
  {
    hide Num, NulFree, OkCtx, FitsHole, Entries;
    Outside(c, 0);
    NotInLeaf(c, x, key, lf);
  }

  lemma NotAmong(keys: seq<Key>, lo: real, hi: real, key: Key, lf: nat, i: nat)
    requires Sorted(keys, lo, hi) && lf <= |keys| && i < |keys|
    requires (lf > 0 ==> Num(keys[lf - 1]) < Num(key)) && (lf < |keys| ==> Num(key) < Num(keys[lf]))
    ensures keys[i] != key
  {
    hide Num, NulFree;
    assert i < lf - 1 ==> Num(keys[i]) < Num(keys[lf - 1]);
    assert i > lf ==> Num(keys[lf]) < Num(keys[i]);
  }

  lemma NotInLeaf(c: Ctx, x: Tree, key: Key, lf: nat)
    requires WellFormed(c) && x.Leaf? && FitsHole(c, x, 0) && |x.keys| == |x.data|
    requires lf <= |x.keys| && (lf > 0 ==> Num(x.keys[lf - 1]) < Num(key))
    requires lf < |x.keys| ==> Num(key) < Num(x.keys[lf])
    ensures forall e | e in Entries(x) :: e.0 != key
  {
    hide Num, NulFree, Sorted;
    forall e | e in Entries(x)
      ensures e.0 != key
    {
      var i :| 0 <= i < |x.keys| && e == (x.keys[i], x.data[i]);
      NotAmong(x.keys, LoAt(c), HiAt(c), key, lf, i);
    }
  }

  /** Slot `i` of the leaf in the hole splits all entries into those below `key` and the others. */
  lemma SplitAt(c: Ctx, x: Tree, key: Key, i: nat)
    requires OkCtx(c, 0) && WellFormed(c) && x.Leaf? && |x.keys| == |x.data| && i <= |x.keys|
    requires LoAt(c) <= Num(key) < HiAt(c) && Within(EntriesWith(c, Entries(x)), 0.0, 1.0)
    requires (i > 0 ==> Num(x.keys[i - 1]) < Num(key)) && (i < |x.keys| ==> Num(key) <= Num(x.keys[i]))
    ensures var es, p := EntriesWith(c, Entries(x)), |EntriesBefore(c)| + i;
            && p <= |es|
            && (forall j :: 0 <= j < p ==> Less(es[j].0, key))
            && (forall j :: p <= j < |es| ==> !Less(es[j].0, key))
  {
    hide Num, NulFree, Less, OkCtx, Within, Entries, EntriesBefore, EntriesAfter, LoAt, HiAt;
    Outside(c, 0);
    Neighbours(EntriesBefore(c), Entries(x), EntriesAfter(c), LoAt(c), HiAt(c), key, i);
    SplitByNeighbours(EntriesWith(c, Entries(x)), key, |EntriesBefore(c)| + i);
  }

  lemma Neighbours(a: seq<Entry>, b: seq<Entry>, d: seq<Entry>, lo: real, hi: real, key: Key, i: nat)
    requires (forall e | e in a :: Num(e.0) < lo) && (forall e | e in d :: hi <= Num(e.0)) && lo <= Num(key) < hi
      && i <= |b|
    requires (i > 0 ==> Num(b[i - 1].0) < Num(key)) && (i < |b| ==> Num(key) <= Num(b[i].0))
    ensures var es, p := a + b + d, |a| + i;
            (p > 0 ==> Num(es[p - 1].0) < Num(key)) && (p < |es| ==> Num(key) <= Num(es[p].0))
  {
    hide Num;
    var es, p := a + b + d, |a| + i;
    if p > 0 {
      assert es[p - 1] == if i > 0 then b[i - 1] else a[|a| - 1];
    }
    if p < |es| {
      assert es[p] == if i < |b| then b[i] else d[0];
    }
  }

  lemma SplitByNeighbours(es: seq<Entry>, key: Key, p: nat)
    requires Within(es, 0.0, 1.0) && p <= |es|
    requires (p > 0 ==> Num(es[p - 1].0) < Num(key)) && (p < |es| ==> Num(key) <= Num(es[p].0))
    ensures forall j :: 0 <= j < p ==> Less(es[j].0, key)
    ensures forall j :: p <= j < |es| ==> !Less(es[j].0, key)
  {
    hide Num, NulFree, Less;
    forall j | 0 <= j < |es|
      ensures j < p ==> Less(es[j].0, key)
      ensures p <= j ==> !Less(es[j].0, key)
    {
      LessIsNum(es[j].0, key);
      assert j < p - 1 ==> Num(es[j].0) < Num(es[p - 1].0);
      assert j > p ==> Num(es[p].0) < Num(es[j].0);
    }
  }

  // ----- the map -----

  ghost function MapOf(es: seq<Entry>): map<Key, int> {
    if es == [] then map[] else map[es[0].0 := es[0].1] + MapOf(es[1..])
  }

  ghost predicate HasKey(es: seq<Entry>, k: Key) {
    exists e | e in es :: e.0 == k
  }

  ghost predicate DistinctKeys(es: seq<Entry>) {
    forall i, j :: 0 <= i < j < |es| ==> es[i].0 != es[j].0
  }

  lemma WithinDistinct(es: seq<Entry>, lo: real, hi: real)
    requires Within(es, lo, hi)
    ensures DistinctKeys(es)
  {
    hide NulFree;
  }

  lemma MapAssociative(a: map<Key, int>, b: map<Key, int>, c: map<Key, int>)
    ensures a + (b + c) == a + b + c
  {
  }

  lemma {:induction false} MapOfConcat(a: seq<Entry>, b: seq<Entry>)
    ensures MapOf(a + b) == MapOf(a) + MapOf(b)
  {
    if a == [] {
      assert a + b == b;
    } else {
      assert (a + b)[1..] == a[1..] + b;
      MapOfConcat(a[1..], b);
      MapAssociative(map[a[0].0 := a[0].1], MapOf(a[1..]), MapOf(b));
    }
  }

  lemma {:induction false} MapOfKeys(es: seq<Entry>, k: Key)
    ensures k in MapOf(es) <==> HasKey(es, k)
  {
    if es != [] {
      MapOfKeys(es[1..], k);
      assert es == [es[0]] + es[1..];
      assert HasKey(es, k) <==> es[0].0 == k || HasKey(es[1..], k);
    }
  }

  lemma DistinctAround(a: seq<Entry>, e: Entry, b: seq<Entry>)
    requires DistinctKeys(a + [e] + b)
    ensures DistinctKeys(a + b)
  {
    var es, n := a + [e] + b, |a|;
    forall i, j | 0 <= i < j < n + |b|
      ensures (a + b)[i].0 != (a + b)[j].0
    {
      var i', j' := if i < n then i else i + 1, if j < n then j else j + 1;
      assert (a + b)[i] == es[i'] && (a + b)[j] == es[j'];
    }
  }

  lemma DistinctApart(a: seq<Entry>, e: Entry, b: seq<Entry>)
    requires DistinctKeys(a + [e] + b)
    ensures !HasKey(a, e.0) && !HasKey(b, e.0)
  {
    var es, n := a + [e] + b, |a|;
    assert es[n] == e;
    forall x | x in a
      ensures x.0 != e.0
    {
      var i :| 0 <= i < n && a[i] == x;
      assert es[i] == x;
    }
    forall x | x in b
      ensures x.0 != e.0
    {
      var i :| 0 <= i < |b| && b[i] == x;
      assert es[n + 1 + i] == x;
    }
  }

  lemma MapMiddle(a: map<Key, int>, e: Entry, b: map<Key, int>)
    requires e.0 !in a && e.0 !in b
    ensures e.0 !in a + b && a + map[e.0 := e.1] + b == (a + b)[e.0 := e.1]
  {
  }

  lemma MapOfOne(e: Entry)
    ensures MapOf([e]) == map[e.0 := e.1]
  {
    assert [e][1..] == [];
  }

  lemma MapOfMiddle(a: seq<Entry>, e: Entry, b: seq<Entry>)
    requires DistinctKeys(a + [e] + b)
    ensures DistinctKeys(a + b) && e.0 !in MapOf(a + b) && MapOf(a + [e] + b) == MapOf(a + b)[e.0 := e.1]
  {
    hide MapOf, DistinctKeys, HasKey;
    DistinctAround(a, e, b);
    DistinctApart(a, e, b);
    MapOfConcat(a, b);
    MapOfConcat(a, [e]);
    MapOfConcat(a + [e], b);
    MapOfOne(e);
    MapOfKeys(a, e.0);
    MapOfKeys(b, e.0);
    MapMiddle(MapOf(a), e, MapOf(b));
  }

  lemma InsertInMap(es: seq<Entry>, p: nat, e: Entry)
    requires p <= |es| && DistinctKeys(InsertAt(es, p, e))
    ensures e.0 !in MapOf(es) && MapOf(InsertAt(es, p, e)) == MapOf(es)[e.0 := e.1]
  {
    hide MapOf;
    MapOfMiddle(es[..p], e, es[p..]);
    assert es[..p] + es[p..] == es;
  }

  lemma WithoutEntry(es: seq<Entry>, p: nat)
    requires p < |es| && DistinctKeys(es)
    ensures DistinctKeys(RemoveAt(es, p)) && es[p].0 !in MapOf(RemoveAt(es, p))
    ensures MapOf(es) == MapOf(RemoveAt(es, p))[es[p].0 := es[p].1]
  {
    hide MapOf, DistinctKeys;
    assert es[..p] + [es[p]] + es[p + 1..] == es;
    MapOfMiddle(es[..p], es[p], es[p + 1..]);
  }

  lemma RemoveFromMap(es: seq<Entry>, p: nat)
    requires p < |es| && DistinctKeys(es)
    ensures es[p].0 in MapOf(es) && MapOf(es)[es[p].0] == es[p].1
    ensures DistinctKeys(RemoveAt(es, p)) && MapOf(RemoveAt(es, p)) == MapOf(es) - {es[p].0}
  {
    hide MapOf, DistinctKeys, RemoveAt;
    WithoutEntry(es, p);
  }

  lemma SetInMap(es: seq<Entry>, p: nat, d: int)
    requires p < |es| && DistinctKeys(es)
    ensures es[p].0 in MapOf(es) && MapOf(es[p := (es[p].0, d)]) == MapOf(es)[es[p].0 := d]
  {
    hide MapOf;
    var e := (es[p].0, d);
    RemoveFromMap(es, p);
    assert es[p := e] == es[..p] + [e] + es[p + 1..];
    MapOfMiddle(es[..p], e, es[p + 1..]);
    var m := MapOf(es);
    assert (m - {e.0})[e.0 := d] == m[e.0 := d];
  }

  lemma PairInMap(es: seq<Entry>, k: Key, d: int)
    requires DistinctKeys(es)
    ensures (k in MapOf(es) && MapOf(es)[k] == d) <==> (k, d) in es
  {
    hide MapOf;
    MapOfKeys(es, k);
    if k in MapOf(es) {
      var e :| e in es && e.0 == k;
      var p :| 0 <= p < |es| && es[p] == e;
      RemoveFromMap(es, p);
    }
    if (k, d) in es {
      var p :| 0 <= p < |es| && es[p] == (k, d);
      RemoveFromMap(es, p);
    }
  }

  lemma {:induction false} MapSize(es: seq<Entry>)
    requires DistinctKeys(es)
    ensures |MapOf(es)| == |es|
  {
    if es != [] {
      assert [] + [es[0]] + es[1..] == es && [] + es[1..] == es[1..];
      MapOfMiddle([], es[0], es[1..]);
      MapSize(es[1..]);
    }
  }

  // ----- separators -----

  /** `p` is `t` or a subtree of it. */
  ghost predicate Occurs(p: Tree, t: Tree)
    decreases t
  {
    p == t || (t.Inner? && exists i :: 0 <= i < |t.kids| && Occurs(p, t.kids[i]))
  }

  lemma {:induction false} OccursStruct(p: Tree, t: Tree, h: nat, lo: real, hi: real) returns (h': nat,
      lo': real, hi': real)
    requires Occurs(p, t) && Struct(t, h, lo, hi) && lo <= hi
    ensures Struct(p, h', lo', hi') && lo' <= hi'
    decreases t
  {
    hide Num, NulFree, Sorted;
    if p == t {
      h', lo', hi' := h, lo, hi;
    } else {
      var i :| 0 <= i < |t.kids| && Occurs(p, t.kids[i]);
      Edges(t, h, lo, hi, i);
      h', lo', hi' := OccursStruct(p, t.kids[i], h - 1, Edge(t.keys, i, lo, hi), Edge(t.keys, i + 1, lo, hi));
    }
  }

  /** Everywhere in a search tree a separator is above all keys on its left and not above any on
      its right; above leaves it equals the first key on its right. */
  lemma Separates(t: Tree, h: nat, lo: real, hi: real, p: Tree, i: nat)
    requires Struct(t, h, lo, hi) && lo <= hi && Occurs(p, t) && p.Inner? && i < |p.keys|
    ensures |p.kids| == |p.keys| + 1
    ensures forall e | e in Entries(p.kids[i]) :: Less(e.0, p.keys[i])
    ensures forall e | e in Entries(p.kids[i + 1]) :: !Less(e.0, p.keys[i])
    ensures p.kids[i + 1].Leaf? ==> |p.kids[i + 1].keys| > 0 && p.kids[i + 1].keys[0] == p.keys[i]
  {
    hide Num, NulFree, Less, Entries, Struct;
    var h', lo', hi' := OccursStruct(p, t, h, lo, hi);
    InnerLengths(p, h', lo', hi');
    Edges(p, h', lo', hi', i);
    Edges(p, h', lo', hi', i + 1);
    EntriesWithin(p.kids[i], h' - 1, Edge(p.keys, i, lo', hi'), Edge(p.keys, i + 1, lo', hi'));
    EntriesWithin(p.kids[i + 1], h' - 1, Edge(p.keys, i + 1, lo', hi'), Edge(p.keys, i + 2, lo', hi'));
    BelowMid(Entries(p.kids[i]), Edge(p.keys, i, lo', hi'), p.keys[i]);
    AboveMid(Entries(p.kids[i + 1]), p.keys[i], Edge(p.keys, i + 2, lo', hi'));
    ExactAboveLeaves(p, h', lo', hi', i);
  }

  lemma BelowMid(es: seq<Entry>, lo: real, mid: Key)
    requires Within(es, lo, Num(mid))
    ensures forall e | e in es :: Less(e.0, mid)
  {
    hide Num, NulFree, Less;
    forall e | e in es
      ensures Less(e.0, mid)
    {
      var i :| 0 <= i < |es| && es[i] == e;
      assert In(es[i].0, lo, Num(mid));
      LessIsNum(e.0, mid);
    }
  }

  lemma AboveMid(es: seq<Entry>, mid: Key, hi: real)
    requires Within(es, Num(mid), hi)
    ensures forall e | e in es :: !Less(e.0, mid)
  {
    hide Num, NulFree, Less;
    forall e | e in es
      ensures !Less(e.0, mid)
    {
      var i :| 0 <= i < |es| && es[i] == e;
      assert In(es[i].0, Num(mid), hi);
      LessIsNum(e.0, mid);
    }
  }

  lemma ExactAboveLeaves(p: Tree, h: nat, lo: real, hi: real, i: nat)
    requires p.Inner? && Struct(p, h, lo, hi) && i < |p.keys| && |p.kids| == |p.keys| + 1
    ensures p.kids[i + 1].Leaf? ==> |p.kids[i + 1].keys| > 0 && p.kids[i + 1].keys[0] == p.keys[i]
  {
    hide Num, NulFree, Sorted;
    assert Struct(p.kids[i + 1], h - 1, Lo(p.keys, i + 1, lo), Hi(p.keys, i + 1, hi));
  }

  // ----- height -----

  /** The number of levels below the root. */
  ghost function Height(t: Tree): nat {
    if t.Leaf? || t.kids == [] then 0 else 1 + Height(t.kids[0])
  }

  lemma {:induction false} HeightIs(t: Tree, h: nat, lo: real, hi: real)
    requires Struct(t, h, lo, hi)
    ensures Height(t) == h
    decreases t
  {
    hide Num, NulFree, Sorted;
    if t.Inner? {
      HeightIs(t.kids[0], h - 1, Lo(t.keys, 0, lo), Hi(t.keys, 0, hi));
    }
  }

  function Pow(b: nat, e: nat): nat {
    if e == 0 then 1 else b * Pow(b, e - 1)
  }

  lemma PowMeans(b: nat, e: nat)
    ensures Pow(b, 0) == 1 && Pow(b, e + 1) == b * Pow(b, e)
  {
  }

  /** A run of children with `m` to `n` entries each. */
  lemma OneMore(m: nat, k: nat)
    ensures m * (k + 1) == m + m * k
  {
  }

  lemma {:induction false} CountRun(ts: seq<Tree>, m: nat, n: nat)
    requires forall i :: 0 <= i < |ts| ==> m <= |Entries(ts[i])| <= n
    ensures m * |ts| <= |EntriesOf(ts)| <= n * |ts|
  {
    hide Entries;
    if ts != [] {
      CountRun(ts[1..], m, n);
      OneMore(m, |ts[1..]|);
      OneMore(n, |ts[1..]|);
    }
  }

  /** A node other than the root, at height `h`. */
  lemma {:induction false} CountBelow(t: Tree, h: nat, lo: real, hi: real)
    requires Struct(t, h, lo, hi) && Arity(t)
    ensures 2 * Pow(3, h) <= |Entries(t)| <= 4 * Pow(5, h)
    decreases t
  {
    hide Num, NulFree, Sorted;
    if t.Inner? {
      var m, n := 2 * Pow(3, h - 1), 4 * Pow(5, h - 1);
      forall i | 0 <= i < |t.kids|
        ensures m <= |Entries(t.kids[i])| <= n
      {
        CountBelow(t.kids[i], h - 1, Lo(t.keys, i, lo), Hi(t.keys, i, hi));
      }
      CountRun(t.kids, m, n);
      MulMonotone(m, 3, |t.kids|);
      MulMonotone(n, |t.kids|, 5);
    }
  }

  lemma MulMonotone(m: nat, a: nat, b: nat)
    requires a <= b
    ensures m * a <= m * b
  {
  }

  /** A tree of `L = Height + 1 >= 2` levels holds 4 * 3^(L - 2) to 4 * 5^(L - 1) entries. */
  lemma HeightBounds(t: Tree)
    requires RootOk(t)
    ensures |Entries(t)| <= 4 * Pow(5, Height(t))
    ensures Height(t) > 0 ==> 4 * Pow(3, Height(t) - 1) <= |Entries(t)|
  {
    hide Num, NulFree, Sorted;
    var h: nat :| Struct(t, h, 0.0, 1.0) && Sized(t, true);
    HeightIs(t, h, 0.0, 1.0);
    if t.Inner? {
      var m, n := 2 * Pow(3, h - 1), 4 * Pow(5, h - 1);
      forall i | 0 <= i < |t.kids|
        ensures m <= |Entries(t.kids[i])| <= n
      {
        CountBelow(t.kids[i], h - 1, Lo(t.keys, i, 0.0), Hi(t.keys, i, 1.0));
      }
      CountRun(t.kids, m, n);
      MulMonotone(m, 2, |t.kids|);
      MulMonotone(n, |t.kids|, 5);
    }
  }
}
