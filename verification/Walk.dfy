/** Walking along the chain of leaves. */
module Walks {
  import opened Shape
  import opened Descents
  import opened LeafMoves
  import opened Relabels

  /** A walk has come to `v`, with `x` behind it: the leaves from `v` on are `rest` and hold the
      entries from `base` on. */
  ghost predicate Walk(x: BNode?, v: BNode?, rest: seq<BNode>, es: seq<Entry>, base: nat)
    reads (set n | n in rest)`prev, (set n | n in rest)`next, (set n | n in rest)`key, (set n | n in rest)`data
  {
    && v == First(rest, null) && Linked(x, rest, null) && LeafNodes(rest)
    && base <= |es| && Held(rest) == es[base..]
  }

  /** A walk that starts in the middle of the chain. */
  lemma WalkFrom(done: seq<BNode>, rest: seq<BNode>, es: seq<Entry>)
    requires Chain(done + rest) && LeafNodes(done + rest) && Held(done + rest) == es
    ensures Walk(Final(null, done), First(rest, null), rest, es, |Held(done)|)
  {
    hide Held, Linked;
    LinkedConcat(null, done, rest, null);
    HeldConcat(done, rest);
    assert forall n | n in rest :: n in done + rest;
    assert es[..|Held(done)|] == Held(done) && es[|Held(done)|..] == Held(rest);
  }

  /** The leaf that the walk is at, and the walk from the next one. */
  lemma WalkNext(x: BNode?, v: BNode, rest: seq<BNode>, es: seq<Entry>, base: nat)
    requires Walk(x, v, rest, es, base)
    ensures rest != [] && v == rest[0] && |v.key| == |v.data| && base + |v.key| <= |es|
    ensures Walk(v, v.next, rest[1..], es, base + |v.key|)
    ensures forall i :: 0 <= i < |v.key| ==> es[base + i] == (v.key[i], v.data[i])
  {
    hide Held, Linked, Entries;
    NextLink(x, rest);
    HeldFirst(rest);
    assert rest == [v] + rest[1..] && v in rest;
    var xs := Entries(Leaf(v, v.key, v.data));
    CutPrefix(es, base, xs, Held(rest[1..]));
    assert forall i :: 0 <= i < |xs| ==> es[base + i] == xs[i];
  }

  /** Past the last leaf, all entries have been seen. */
  lemma WalkEnd(x: BNode?, rest: seq<BNode>, es: seq<Entry>, base: nat)
    requires Walk(x, null, rest, es, base)
    ensures base == |es|
  {
    hide Linked, LeafNodes;
  }
}
