/** The in-place moves on leaf nodes: what each branch of the leaf repairs does to the vectors
    and links of the few nodes it touches. */
module LeafMoves {
  import opened Keys
  import opened Shape
  import opened Rebalance

  function Last<T>(s: seq<T>): T
    requires |s| > 0
  {
    s[|s| - 1]
  }

  function DropLast<T>(s: seq<T>): (r: seq<T>)
    requires |s| > 0
  {
    s[..|s| - 1]
  }

  /** `s` after the entries at `i..rm` were shifted up by one, over entry `rm`. */
  ghost function Up<T>(s: seq<T>, i: nat, rm: nat): seq<T>
    requires i <= rm < |s|
  {
    s[..i + 1] + s[i..rm] + s[rm + 1..]
  }

  /** `s` after the entries at `rm + 1..i + 1` were shifted down by one, over entry `rm`. */
  ghost function Down<T>(s: seq<T>, rm: nat, i: nat): seq<T>
    requires rm <= i < |s|
  {
    s[..rm] + s[rm + 1..i + 1] + s[i..]
  }

  lemma UpFacts<T>(s: seq<T>, i: nat, rm: nat)
    requires i <= rm < |s|
    ensures |Up(s, i, rm)| == |s|
    ensures i > 0 ==> Up(s, i, rm)[i := Up(s, i, rm)[i - 1]] == Up(s, i - 1, rm)
    ensures Up(s, rm, rm) == s
    ensures i == 0 ==> Up(s, i, rm)[1..] == RemoveAt(s, rm)
  {
    if i > 0 {
      assert s[..i + 1] == s[..i] + [s[i]] && s[i - 1..rm] == [s[i - 1]] + s[i..rm];
    }
  }

  lemma DownFacts<T>(s: seq<T>, rm: nat, i: nat)
    requires rm <= i < |s|
    ensures |Down(s, rm, i)| == |s|
    ensures i + 1 < |s| ==> Down(s, rm, i)[i := Down(s, rm, i)[i + 1]] == Down(s, rm, i + 1)
    ensures Down(s, rm, rm) == s
    ensures i == |s| - 1 ==> DropLast(Down(s, rm, i)) == RemoveAt(s, rm)
  {
  }

  /** Removes entry `rm` and shifts the entries before it up by one, leaving room in front. */
  method ShiftUp(hot: BNode, rm: nat)
    requires rm < |hot.key| == |hot.data|
    modifies hot`key, hot`data
    ensures |hot.key| == |hot.data| == |old(hot.key)|
    ensures hot.key[1..] == RemoveAt(old(hot.key), rm)
    ensures hot.data[1..] == RemoveAt(old(hot.data), rm)
  {
    hide RemoveAt, Up;
    ghost var ks, ds := hot.key, hot.data;
    UpFacts(ks, rm, rm);
    UpFacts(ds, rm, rm);
    var i := rm;
    while i >= 1
      invariant 0 <= i <= rm && |hot.key| == |ks| && |hot.data| == |ds|
      invariant hot.key == Up(ks, i, rm) && hot.data == Up(ds, i, rm)
    {
      UpFacts(ks, i, rm);
      UpFacts(ds, i, rm);
      hot.key := hot.key[i := hot.key[i - 1]];
      hot.data := hot.data[i := hot.data[i - 1]];
      i := i - 1;
    }
    UpFacts(ks, 0, rm);
    UpFacts(ds, 0, rm);
  }

  /** Removes entry `rm` and shifts the entries after it down by one, leaving room at the end. */
  method ShiftDown(hot: BNode, rm: nat)
    requires rm < |hot.key| == |hot.data|
    modifies hot`key, hot`data
    ensures |hot.key| == |hot.data| == |old(hot.key)|
    ensures DropLast(hot.key) == RemoveAt(old(hot.key), rm)
    ensures DropLast(hot.data) == RemoveAt(old(hot.data), rm)
  {
    hide RemoveAt, Down, DropLast;
    ghost var ks, ds := hot.key, hot.data;
    DownFacts(ks, rm, rm);
    DownFacts(ds, rm, rm);
    var i := rm;
    while i < |hot.key| - 1
      invariant rm <= i <= |ks| - 1 && |hot.key| == |ks| && |hot.data| == |ds|
      invariant hot.key == Down(ks, rm, i) && hot.data == Down(ds, rm, i)
    {
      DownFacts(ks, rm, i);
      DownFacts(ds, rm, i);
      hot.key := hot.key[i := hot.key[i + 1]];
      hot.data := hot.data[i := hot.data[i + 1]];
      i := i + 1;
    }
    DownFacts(ks, rm, i);
    DownFacts(ds, rm, i);
  }

  /** Underflow, "rotate 1": `hot` loses entry `rm` and takes the last entry of `prev`. */
  method BorrowFromPrev(hot: BNode, prev: BNode, p: BNode, rm: nat, pa: nat)
    requires hot != prev && hot != p && prev != p
    requires rm < |hot.key| == |hot.data| && 0 < |prev.key| == |prev.data| && |prev.child| > 0
    requires 0 < pa <= |p.key|
    modifies hot`key, hot`data, prev`key, prev`data, prev`child, p`key
    ensures hot.key == [Last(old(prev.key))] + RemoveAt(old(hot.key), rm)
    ensures hot.data == [Last(old(prev.data))] + RemoveAt(old(hot.data), rm)
    ensures prev.key == DropLast(old(prev.key)) && prev.data == DropLast(old(prev.data))
      && prev.child == DropLast(old(prev.child))
    ensures p.key == old(p.key)[pa - 1 := Last(old(prev.key))]
  {
    ShiftUp(hot, rm);
    hot.key := hot.key[0 := Last(prev.key)];
    hot.data := hot.data[0 := Last(prev.data)];
    prev.key := DropLast(prev.key);
    prev.data := DropLast(prev.data);
    prev.child := DropLast(prev.child);
    p.key := p.key[pa - 1 := hot.key[0]];
  }

  /** Underflow, "rotate 2": `hot` loses entry `rm` and takes the first entry of `next`. */
  method BorrowFromNext(hot: BNode, next: BNode, p: BNode, rm: nat, pa: nat)
    requires hot != next && hot != p && next != p
    requires rm < |hot.key| == |hot.data| && 1 < |next.key| == |next.data| && |next.child| > 0
    requires pa < |p.key|
    modifies hot`key, hot`data, next`key, next`data, next`child, p`key
    ensures hot.key == RemoveAt(old(hot.key), rm) + [old(next.key)[0]]
    ensures hot.data == RemoveAt(old(hot.data), rm) + [old(next.data)[0]]
    ensures next.key == old(next.key)[1..] && next.data == old(next.data)[1..]
      && next.child == DropLast(old(next.child))
    ensures var ks := old(p.key)[pa := old(next.key)[1]];
            p.key == if pa > 0 && rm == 0 then ks[pa - 1 := hot.key[0]] else ks
  {
    ShiftDown(hot, rm);
    hot.key := hot.key[|hot.key| - 1 := next.key[0]];
    hot.data := hot.data[|hot.data| - 1 := next.data[0]];
    next.key := next.key[1..];
    next.data := next.data[1..];
    next.child := DropLast(next.child);
    p.key := p.key[pa := next.key[0]];
    if pa > 0 && rm == 0 {
      p.key := p.key[pa - 1 := hot.key[0]];
    }
  }

  /** The first `i` elements of `s` without element `rm`. */
  ghost function Skipping<T>(s: seq<T>, rm: nat, i: nat): seq<T>
    requires rm < |s| && i <= |s|
  {
    if i <= rm then s[..i] else s[..rm] + s[rm + 1..i]
  }

  lemma SkippingStep<T>(s: seq<T>, rm: nat, i: nat)
    requires rm < |s| && i < |s|
    ensures Skipping(s, rm, i + 1) == if i == rm then Skipping(s, rm, i) else Skipping(s, rm, i) + [s[i]]
  {
  }

  lemma SkippingAll<T>(s: seq<T>, rm: nat)
    requires rm < |s|
    ensures Skipping(s, rm, 0) == [] && Skipping(s, rm, |s|) == RemoveAt(s, rm)
  {
  }

  /** Underflow, "merge 1": `hot` loses entry `rm`, and gives the rest to `prev`. */
  method MergeIntoPrev(hot: BNode, prev: BNode, rm: nat)
    requires hot != prev && rm < |hot.key| == |hot.data|
    requires forall k :: 0 <= k < |hot.key| ==> NulFree(hot.key[k])
    modifies prev`key, prev`data, prev`child
    ensures prev.key == old(prev.key) + RemoveAt(hot.key, rm)
    ensures prev.data == old(prev.data) + RemoveAt(hot.data, rm)
    ensures prev.child == old(prev.child) + Nulls(|hot.key| - 1)
  {
    hide NulFree, Skipping, RemoveAt;
    SkippingAll(hot.key, rm);
    SkippingAll(hot.data, rm);
    var i := 0;
    while i < |hot.key|
      invariant i <= |hot.key|
      invariant prev.key == old(prev.key) + Skipping(hot.key, rm, i)
      invariant prev.data == old(prev.data) + Skipping(hot.data, rm, i)
      invariant prev.child == old(prev.child) + Nulls(if i <= rm then i else i - 1)
    {
      SkippingStep(hot.key, rm, i);
      SkippingStep(hot.data, rm, i);
      if i != rm {
        prev.key := prev.key + [CStr(hot.key[i])];
        prev.data := prev.data + [hot.data[i]];
        prev.child := prev.child + [null];
      }
      i := i + 1;
    }
  }

  /** Underflow, "merge 2": `hot` loses entry `rm`, and takes everything in `next`. */
  method MergeNext(hot: BNode, next: BNode, rm: nat)
    requires hot != next && rm < |hot.key| == |hot.data| && 0 < |next.key| == |next.data|
    requires forall k :: 0 <= k < |next.key| ==> NulFree(next.key[k])
    modifies hot`key, hot`data, hot`child
    ensures hot.key == RemoveAt(old(hot.key), rm) + next.key
    ensures hot.data == RemoveAt(old(hot.data), rm) + next.data
    ensures hot.child == old(hot.child) + Nulls(|next.key| - 1)
  {
    hide NulFree;
    ghost var ks, ds := RemoveAt(hot.key, rm), RemoveAt(hot.data, rm);
    ShiftDown(hot, rm);
    hot.key := hot.key[|hot.key| - 1 := next.key[0]];
    hot.data := hot.data[|hot.data| - 1 := next.data[0]];
    var i := 1;
    while i < |next.key|
      invariant 1 <= i <= |next.key|
      invariant hot.key == ks + next.key[..i]
      invariant hot.data == ds + next.data[..i]
      invariant hot.child == old(hot.child) + Nulls(i - 1)
    {
      hot.key := hot.key + [CStr(next.key[i])];
      hot.data := hot.data + [next.data[i]];
      hot.child := hot.child + [null];
      i := i + 1;
    }
  }

  // ----- overflow: entry (key, data) belongs at slot `lf` of the full leaf `hot` -----

  /** Overflow, "rotate 1": `prev` takes the first entry of `hot`, which makes room for the new one.
      The key that moves arrives as it was exactly if it has no NUL byte. */
  method GiveToPrev(hot: BNode, prev: BNode, p: BNode, lf: nat, pa: nat, key: Key, data: int)
    requires hot != prev && hot != p && prev != p
    requires 0 < lf <= |hot.key| == |hot.data|
    requires 0 < pa <= |p.key|
    modifies hot`key, hot`data, prev`key, prev`data, prev`child, p`key
    ensures var ks, ds := InsertAt(old(hot.key), lf, key), InsertAt(old(hot.data), lf, data);
            && hot.key == ks[1..] && hot.data == ds[1..]
            && prev.key == old(prev.key) + [CStr(ks[0])] && prev.data == old(prev.data) + [ds[0]]
            && prev.child == old(prev.child) + [null]
            && p.key == old(p.key)[pa - 1 := ks[1]]
            && (Last(prev.key) == ks[0] <==> NulFree(ks[0]))
  {
    hide InsertAt, Down, NulFree;
    prev.key := prev.key + [CStr(hot.key[0])];
    prev.data := prev.data + [hot.data[0]];
    prev.child := prev.child + [null];
    SlideDown(hot, lf, key, data);
    p.key := p.key[pa - 1 := hot.key[0]];
  }

  /** Drops the first entry and puts the new one at slot `lf - 1`. */
  method SlideDown(hot: BNode, lf: nat, key: Key, data: int)
    requires 0 < lf <= |hot.key| == |hot.data|
    modifies hot`key, hot`data
    ensures |hot.key| == |old(hot.key)|
    ensures |InsertAt(old(hot.key), lf, key)| == |InsertAt(old(hot.data), lf, data)| == |hot.key| + 1
    ensures hot.key == InsertAt(old(hot.key), lf, key)[1..] && hot.data == InsertAt(old(hot.data), lf, data)[1..]
    ensures InsertAt(old(hot.key), lf, key)[0] == old(hot.key)[0]
    ensures InsertAt(old(hot.data), lf, data)[0] == old(hot.data)[0]
  {
    hide InsertAt, Down, RemoveAt, DropLast;
    ghost var ks, ds := hot.key, hot.data;
    DownFacts(ks, 0, 0);
    DownFacts(ds, 0, 0);
    var i := 0;
    while i < lf - 1
      invariant i <= lf - 1 && |hot.key| == |hot.data| == |ks|
      invariant hot.key == Down(ks, 0, i) && hot.data == Down(ds, 0, i)
    {
      DownFacts(ks, 0, i);
      DownFacts(ds, 0, i);
      hot.key := hot.key[i := hot.key[i + 1]];
      hot.data := hot.data[i := hot.data[i + 1]];
      i := i + 1;
    }
    DownInsert(ks, lf, key);
    DownInsert(ds, lf, data);
    hot.key := hot.key[lf - 1 := key];
    hot.data := hot.data[lf - 1 := data];
  }

  lemma DownInsert<T>(s: seq<T>, lf: nat, x: T)
    requires 0 < lf <= |s|
    ensures |Down(s, 0, lf - 1)| == |s| && |InsertAt(s, lf, x)| == |s| + 1
    ensures Down(s, 0, lf - 1)[lf - 1 := x] == InsertAt(s, lf, x)[1..]
    ensures InsertAt(s, lf, x)[0] == s[0]
  {
  }

  lemma UpInsert<T>(s: seq<T>, lf: nat, x: T)
    requires lf < |s|
    ensures |Up(s, lf, |s| - 1)| == |s| && |InsertAt(s, lf, x)| == |s| + 1
    ensures Up(s, lf, |s| - 1)[lf := x] == DropLast(InsertAt(s, lf, x))
    ensures Last(InsertAt(s, lf, x)) == Last(s)
  {
  }

  /** Overflow, "rotate 2": `next` takes the last of the entries, which may be the new one. The key
      that moves is cut at its first NUL byte, the separator is not: they are equal, as the search
      needs them, exactly if that key has no NUL byte. */
  method GiveToNext(hot: BNode, next: BNode, p: BNode, lf: nat, pa: nat, key: Key, data: int)
    requires hot != next && hot != p && next != p
    requires lf <= |hot.key| == |hot.data| && |hot.key| > 0
    requires pa < |p.key|
    modifies hot`key, hot`data, next`key, next`data, next`child, p`key
    ensures var ks, ds := InsertAt(old(hot.key), lf, key), InsertAt(old(hot.data), lf, data);
            && hot.key == DropLast(ks) && hot.data == DropLast(ds)
            && next.key == [CStr(Last(ks))] + old(next.key) && next.data == [Last(ds)] + old(next.data)
            && next.child == old(next.child) + [null]
            && p.key == old(p.key)[pa := Last(ks)]
            && (p.key[pa] == next.key[0] <==> NulFree(Last(ks)))
  {
    hide CStr, NulFree;
    if lf == |hot.key| {
      next.key := [CStr(key)] + next.key;
      next.data := [data] + next.data;
      next.child := next.child + [null];
      p.key := p.key[pa := key];
    } else {
      next.key := [CStr(Last(hot.key))] + next.key;
      next.data := [Last(hot.data)] + next.data;
      next.child := next.child + [null];
      p.key := p.key[pa := Last(hot.key)];
      SlideUp(hot, lf, key, data);
    }
  }

  /** Drops the last entry and puts the new one at slot `lf`. */
  method SlideUp(hot: BNode, lf: nat, key: Key, data: int)
    requires lf < |hot.key| == |hot.data|
    modifies hot`key, hot`data
    ensures |hot.key| == |old(hot.key)|
    ensures |InsertAt(old(hot.key), lf, key)| == |InsertAt(old(hot.data), lf, data)| == |hot.key| + 1
    ensures hot.key == DropLast(InsertAt(old(hot.key), lf, key))
      && hot.data == DropLast(InsertAt(old(hot.data), lf, data))
    ensures Last(InsertAt(old(hot.key), lf, key)) == Last(old(hot.key))
    ensures Last(InsertAt(old(hot.data), lf, data)) == Last(old(hot.data))
  {
    hide InsertAt, Up, RemoveAt, DropLast, Last;
    ghost var ks, ds := hot.key, hot.data;
    var i := |hot.key| - 1;
    UpFacts(ks, i, i);
    UpFacts(ds, i, i);
    while i > lf
      invariant lf <= i <= |ks| - 1 && |hot.key| == |hot.data| == |ks|
      invariant hot.key == Up(ks, i, |ks| - 1) && hot.data == Up(ds, i, |ks| - 1)
    {
      UpFacts(ks, i, |ks| - 1);
      UpFacts(ds, i, |ks| - 1);
      hot.key := hot.key[i := hot.key[i - 1]];
      hot.data := hot.data[i := hot.data[i - 1]];
      i := i - 1;
    }
    UpInsert(ks, lf, key);
    UpInsert(ds, lf, data);
    hot.key := hot.key[lf := key];
    hot.data := hot.data[lf := data];
  }

  /** The table `_tmp_idx`: where each of the M entries of a full node with one more entry at
      slot `lf` comes from; -1 stands for the new entry. */
  predicate VirtualInsert(tmp: seq<int>, lf: nat) {
    && lf < M == |tmp|
    && forall i :: 0 <= i < M ==> tmp[i] == if i < lf then i else if i == lf then -1 else i - 1
  }

  /** The table reads the entries of the full node with the new one among them. */
  lemma TableReads<T>(s: seq<T>, tmp: seq<int>, lf: nat, x: T)
    requires VirtualInsert(tmp, lf) && |s| == M - 1
    ensures |InsertAt(s, lf, x)| == M
    ensures forall i :: 0 <= i < M ==> InsertAt(s, lf, x)[i] == if tmp[i] == -1 then x else s[tmp[i]]
  {
  }

  method FillTmp(tmp: seq<int>, lf: nat) returns (r: seq<int>)
    requires |tmp| == M && lf < M
    ensures VirtualInsert(r, lf)
  {
    r := tmp;
    for i := 0 to lf
      invariant |r| == M && forall j :: 0 <= j < i ==> r[j] == j
    {
      r := r[i := i];
    }
    r := r[lf := -1];
    for i := lf + 1 to M
      invariant |r| == M && forall j :: 0 <= j < i ==> r[j] == if j < lf then j else if j == lf then -1 else j - 1
    {
      r := r[i := i - 1];
    }
  }

  lemma SliceNext<T>(s: seq<T>, a: nat, i: nat)
    requires a <= i < |s|
    ensures s[a..i + 1] == s[a..i] + [s[i]]
  {
  }

  /** Overflow, "split", first part: copies the upper entries to the new leaf `u`. */
  method CopyUpper(hot: BNode, u: BNode, tmp: seq<int>, lf: nat, key: Key, data: int)
    requires hot != u && |hot.key| == |hot.data| == M - 1 && VirtualInsert(tmp, lf)
    requires u.key == [] && u.data == [] && NulFree(key)
    requires forall k :: 0 <= k < |hot.key| ==> NulFree(hot.key[k])
    modifies u`key, u`data
    ensures u.key == InsertAt(hot.key, lf, key)[M / 2..]
    ensures u.data == InsertAt(hot.data, lf, data)[M / 2..]
  {
    hide NulFree, InsertAt;
    TableReads(hot.key, tmp, lf, key);
    TableReads(hot.data, tmp, lf, data);
    ghost var ks, ds := InsertAt(hot.key, lf, key), InsertAt(hot.data, lf, data);
    for i := M / 2 to M
      invariant u.key == ks[M / 2..i] && u.data == ds[M / 2..i]
    {
      SliceNext(ks, M / 2, i);
      SliceNext(ds, M / 2, i);
      var ti := tmp[i];
      if ti == -1 {
        u.key := u.key + [CStr(key)];
        u.data := u.data + [data];
      } else {
        u.key := u.key + [CStr(hot.key[ti])];
        u.data := u.data + [hot.data[ti]];
      }
    }
  }

  /** Overflow, "split", second part: moves the lower entries into place and drops the rest. */
  method KeepLower(hot: BNode, tmp: seq<int>, lf: nat, key: Key, data: int)
    requires |hot.key| == |hot.data| == M - 1 && |hot.child| == M && VirtualInsert(tmp, lf)
    modifies hot`key, hot`data, hot`child
    ensures hot.key == InsertAt(old(hot.key), lf, key)[..M / 2]
    ensures hot.data == InsertAt(old(hot.data), lf, data)[..M / 2]
    ensures hot.child == old(hot.child)[..M / 2 + 1]
  {
    hide InsertAt;
    TableReads(hot.key, tmp, lf, key);
    TableReads(hot.data, tmp, lf, data);
    ghost var ks, ds := InsertAt(hot.key, lf, key), InsertAt(hot.data, lf, data);
    var i := M / 2 - 1;
    while i != -1
      invariant -1 <= i < M / 2 && |hot.key| == |hot.data| == M - 1 && hot.child == old(hot.child)
      invariant forall j :: i < j < M / 2 ==> hot.key[j] == ks[j] && hot.data[j] == ds[j]
      invariant forall j :: 0 <= j <= i ==> hot.key[j] == old(hot.key)[j] && hot.data[j] == old(hot.data)[j]
    {
      var ti := tmp[i];
      if ti == i {
        break;
      } else if ti == -1 {
        hot.key := hot.key[i := key];
        hot.data := hot.data[i := data];
        break;
      } else {
        hot.key := hot.key[i := hot.key[ti]];
        hot.data := hot.data[i := hot.data[ti]];
      }
      i := i - 1;
    }
    assert forall j :: 0 <= j < M / 2 ==> hot.key[j] == ks[j] && hot.data[j] == ds[j];
    hot.key := hot.key[..M / 2];
    hot.data := hot.data[..M / 2];
    hot.child := hot.child[..M / 2 + 1];
  }

  // ----- the chain of leaves -----

  ghost predicate Distinct(ls: seq<BNode>) {
    forall i, j :: 0 <= i < j < |ls| ==> ls[i] != ls[j]
  }

  ghost function Final(x: BNode?, ls: seq<BNode>): BNode? {
    if ls == [] then x else ls[|ls| - 1]
  }

  /** A chain is its two parts, each ending where the other begins. */
  lemma {:induction false} LinkedConcat(x: BNode?, a: seq<BNode>, b: seq<BNode>, y: BNode?)
    ensures Linked(x, a + b, y) <==> Linked(x, a, First(b, y)) && Linked(Final(x, a), b, y)
    decreases a
  {
    if a == [] {
      assert a + b == b;
    } else {
      assert (a + b)[1..] == a[1..] + b;
      LinkedConcat(a[0], a[1..], b, y);
    }
  }

  /** The two links of a leaf in the middle of a chain. */
  lemma LinkedMiddle(before: seq<BNode>, a: BNode, after: seq<BNode>)
    ensures Chain(before + [a] + after) <==>
            && Linked(null, before, a) && a.prev == Final(null, before)
            && a.next == First(after, null) && Linked(a, after, null)
  {
    assert before + [a] + after == before + ([a] + after) && ([a] + after)[1..] == after;
    LinkedConcat(null, before, [a] + after, null);
  }

  /** A chain that starts after another leaf. */
  lemma Reattach(x: BNode?, after: seq<BNode>, y: BNode?)
    requires after != [] && after[0].prev == y && after[0].next == First(after[1..], null)
      && Linked(after[0], after[1..], null)
    ensures Linked(y, after, null)
  {
  }

  lemma Detach(x: BNode?, after: seq<BNode>)
    requires after != [] && Linked(x, after, null)
    ensures after[0].next == First(after[1..], null) && Linked(after[0], after[1..], null)
  {
  }

  /** The leaf on the right of `y`, if there is one, gets `y` as its left neighbour. */
  method LinkBack(x: BNode, y: BNode, next: BNode?, ghost after: seq<BNode>)
    requires Linked(x, after, null) && next == First(after, null) && (after != [] ==> after[0] !in after[1..])
    modifies (set n | n in after)`prev
    ensures Linked(y, after, null)
    ensures forall n | n in after :: n.prev == old(n.prev) || n == next
  {
    hide Linked;
    if next != null {
      Detach(x, after);
      next.prev := y;
      Reattach(x, after, y);
    } else {
      LinkedNothing(y, after);
    }
  }

  lemma LinkedNothing(y: BNode?, after: seq<BNode>)
    requires after == []
    ensures Linked(y, after, null)
  {
  }

  /** Merged: `b`, on the right of `a`, leaves the chain. */
  method Unlink(a: BNode, b: BNode, ghost before: seq<BNode>, ghost after: seq<BNode>)
    requires Chain(before + [a] + ([b] + after)) && Distinct(before + [a] + ([b] + after))
    modifies a`next, (set n | n in after)`prev
    ensures Chain(before + [a] + after)
  {
    hide Linked, Chain;
    LinkedMiddle(before, a, [b] + after);
    assert ([b] + after)[1..] == after;
    Detach(a, [b] + after);
    DistinctParts(before, a, [b] + after);
    assert before + [a] + ([b] + after) == (before + [a]) + [b] + after;
    DistinctParts(before + [a], b, after);
    a.next := b.next;
    LinkBack(b, a, b.next, after);
    LinkedMiddle(before, a, after);
  }

  /** Split: the new leaf `u` enters the chain on the right of `hot`. */
  method LinkAfter(hot: BNode, u: BNode, ghost before: seq<BNode>, ghost after: seq<BNode>)
    requires Chain(before + [hot] + after) && Distinct(before + [hot] + after) && u !in before + [hot] + after
    modifies hot`next, u`prev, u`next, (set n | n in after)`prev
    ensures Chain(before + [hot] + ([u] + after))
  {
    hide Linked, Chain;
    LinkedMiddle(before, hot, after);
    DistinctParts(before, hot, after);
    assert forall n | n in before + after :: n in before + [hot] + after;
    u.prev := hot;
    u.next := hot.next;
    LinkBack(hot, u, hot.next, after);
    hot.next := u;
    assert ([u] + after)[1..] == after;
    Reattach(hot, [u] + after, hot);
    LinkedMiddle(before, hot, [u] + after);
  }

  lemma DistinctParts(before: seq<BNode>, a: BNode, after: seq<BNode>)
    requires Distinct(before + [a] + after)
    ensures a !in before && a !in after && forall n | n in before :: n !in after
    ensures after != [] ==> after[0] !in after[1..]
  {
    var ls := before + [a] + after;
    assert ls[|before|] == a;
    assert forall i :: 0 <= i < |before| ==> ls[i] == before[i];
    assert forall i :: 0 <= i < |after| ==> ls[|before| + 1 + i] == after[i];
  }
}
