/** Range scans: what `visit` delivers, and what its documentation says it should. */
module Ranges {
  import opened Keys
  import opened Shape
  import opened Codec
  import opened History
  import opened Compaction

  type Item = (Key, Value)

  function KeysOf(out: seq<Item>): (r: seq<Key>)
    ensures |r| == |out| && forall i :: 0 <= i < |out| ==> r[i] == out[i].0
  {
    seq(|out|, i requires 0 <= i < |out| => out[i].0)
  }

  /** The stored keys that the code delivers: both bounds belong to the range. */
  ghost function CodedRange(m: map<Key, Value>, lower: Key, upper: Key): set<Key> {
    set k | k in m && !Less(k, lower) && !Less(upper, k)
  }

  lemma CodedKeys(m: map<Key, Value>, lower: Key, upper: Key)
    ensures forall k :: k in CodedRange(m, lower, upper) <==> k in m && !Less(k, lower) && !Less(upper, k)
  {
  }

  /** The stored keys that the interface promises: [lower, upper), unbounded above if `upper` is empty. */
  ghost function PromisedRange(m: map<Key, Value>, lower: Key, upper: Key): set<Key> {
    set k | k in m && !Less(k, lower) && (upper == [] || Less(k, upper))
  }

  /** `out` delivers exactly the keys in `s`, ascending, each once and with its value. */
  ghost predicate Delivers(out: seq<Item>, m: map<Key, Value>, s: set<Key>) {
    && Lists(KeysOf(out), s)
    && forall i :: 0 <= i < |out| ==> out[i].0 in m && out[i].1 == m[out[i].0]
  }

  /** What is delivered: just the pairs of the map whose keys are in `s`, in ascending key order. */
  lemma DeliversMeans(out: seq<Item>, m: map<Key, Value>, s: set<Key>)
    requires s <= m.Keys
    ensures Delivers(out, m, s) <==>
            && (forall i, j :: 0 <= i < j < |out| ==> Less(out[i].0, out[j].0))
            && (forall k, v :: (k, v) in out <==> k in s && v == m[k])
  {
    hide Less;
    var ks := KeysOf(out);
    if Delivers(out, m, s) {
      forall k, v
        ensures (k, v) in out <==> k in s && v == m[k]
      {
        if k in s {
          var i :| 0 <= i < |ks| && ks[i] == k;
          assert out[i] == (k, m[k]);
        }
        if (k, v) in out {
          var i :| 0 <= i < |out| && out[i] == (k, v);
          assert ks[i] in ks;
        }
      }
      assert forall i :: 0 <= i < |out| ==> ks[i] == out[i].0;
    }
    if (forall i, j :: 0 <= i < j < |out| ==> Less(out[i].0, out[j].0))
        && (forall k, v :: (k, v) in out <==> k in s && v == m[k]) {
      forall i | 0 <= i < |out|
        ensures out[i].0 in s && out[i].1 == m[out[i].0]
      {
        assert (out[i].0, out[i].1) in out;
      }
      forall k | k in s
        ensures k in ks
      {
        assert (k, m[k]) in out;
        var i :| 0 <= i < |out| && out[i] == (k, m[k]);
        assert ks[i] == k;
      }
    }
  }

  lemma DeliversUnique(a: seq<Item>, b: seq<Item>, m: map<Key, Value>, s: set<Key>)
    requires Delivers(a, m, s) && Delivers(b, m, s)
    ensures a == b
  {
    hide Lists;
    ListsUnique(KeysOf(a), KeysOf(b), s);
    assert forall i :: 0 <= i < |a| ==> KeysOf(a)[i] == a[i].0 && KeysOf(b)[i] == b[i].0;
  }

  /** When the code keeps the promise: the upper bound, if there is one, is not a stored key of
      the range; without one, no stored key but the empty one is in the range. */
  ghost predicate KeepsPromise(m: map<Key, Value>, lower: Key, upper: Key) {
    if upper == [] then forall k | k in m && !Less(k, lower) :: k == []
    else !(upper in m && !Less(upper, lower))
  }

  lemma EmptyIsLeast(k: Key)
    ensures !Less(k, []) && (k != [] ==> Less([], k))
  {
  }

  lemma PromiseKept(m: map<Key, Value>, lower: Key, upper: Key)
    requires KeepsPromise(m, lower, upper)
    ensures CodedRange(m, lower, upper) == PromisedRange(m, lower, upper)
  {
    hide Less;
    forall k
      ensures k in CodedRange(m, lower, upper) <==> k in PromisedRange(m, lower, upper)
    {
      LessOrAbove(k, upper);
      LessIrreflexive(k, upper);
      EmptyIsLeast(k);
    }
  }

  lemma SameAsPromised(m: map<Key, Value>, lower: Key, upper: Key)
    ensures CodedRange(m, lower, upper) == PromisedRange(m, lower, upper) <==>
            forall k | k in m && !Less(k, lower) :: !Less(upper, k) <==> (upper == [] || Less(k, upper))
  {
    hide Less;
    var a, b := CodedRange(m, lower, upper), PromisedRange(m, lower, upper);
    assert forall k | k in m && !Less(k, lower) :: k in a <==> !Less(upper, k);
    assert forall k | k in m && !Less(k, lower) :: k in b <==> upper == [] || Less(k, upper);
  }

  /** `visit` as coded delivers what is promised exactly under `KeepsPromise`. */
  lemma PromiseExact(m: map<Key, Value>, lower: Key, upper: Key)
    ensures CodedRange(m, lower, upper) == PromisedRange(m, lower, upper) <==> KeepsPromise(m, lower, upper)
    ensures (forall k | k in m && !Less(k, lower) :: !Less(upper, k) <==> (upper == [] || Less(k, upper)))
            <==> if upper == [] then forall k | k in m && !Less(k, lower) :: k == []
                 else upper !in m || Less(upper, lower)
  {
    hide Less;
    SameAsPromised(m, lower, upper);
    if KeepsPromise(m, lower, upper) {
      PromiseKept(m, lower, upper);
    } else if upper == [] {
      var k :| k in m && !Less(k, lower) && k != [];
      EmptyIsLeast(k);
      assert k in PromisedRange(m, lower, upper) && k !in CodedRange(m, lower, upper);
    } else {
      LessIrreflexive(upper, upper);
      assert upper in CodedRange(m, lower, upper) && upper !in PromisedRange(m, lower, upper);
    }
  }

  /** The keys that the repository's own test oracle counts: an inclusive upper bound, none if empty. */
  ghost function CountedRange(m: map<Key, Value>, lower: Key, upper: Key): set<Key> {
    set k | k in m && !Less(k, lower) && (upper == [] || !Less(upper, k))
  }

  lemma SameAsCounted(m: map<Key, Value>, lower: Key, upper: Key)
    ensures CodedRange(m, lower, upper) == CountedRange(m, lower, upper) <==>
            forall k | k in m && !Less(k, lower) :: !Less(upper, k) <==> (upper == [] || !Less(upper, k))
  {
    hide Less;
    var a, b := CodedRange(m, lower, upper), CountedRange(m, lower, upper);
    assert forall k | k in m && !Less(k, lower) :: k in a <==> !Less(upper, k);
    assert forall k | k in m && !Less(k, lower) :: k in b <==> upper == [] || !Less(upper, k);
  }

  /** The code agrees with that oracle unless an empty upper bound meets a key other than the empty one. */
  lemma CountExact(m: map<Key, Value>, lower: Key, upper: Key)
    ensures CodedRange(m, lower, upper) == CountedRange(m, lower, upper)
            <==> (upper != [] || forall k | k in m && !Less(k, lower) :: k == [])
    ensures (forall k | k in m && !Less(k, lower) :: !Less(upper, k) <==> (upper == [] || !Less(upper, k)))
            <==> (upper != [] || forall k | k in m && !Less(k, lower) :: k == [])
  {
    hide Less;
    SameAsCounted(m, lower, upper);
    if upper == [] && !(forall k | k in m && !Less(k, lower) :: k == []) {
      var k :| k in m && !Less(k, lower) && k != [];
      EmptyIsLeast(k);
      assert k in CountedRange(m, lower, upper) && k !in CodedRange(m, lower, upper);
    } else {
      forall k
        ensures k in CodedRange(m, lower, upper) <==> k in CountedRange(m, lower, upper)
      {
        EmptyIsLeast(k);
      }
    }
  }

  /** A scan that differs from the promise: the upper bound itself is delivered. */
  lemma PromiseBroken()
    ensures CodedRange(map[[1] := []], [], [1]) == {[1]} && PromisedRange(map[[1] := []], [], [1]) == {}
    ensures CodedRange(map[[1] := []], [], []) == {} && PromisedRange(map[[1] := []], [], []) == {[1]}
  {
    var m: map<Key, Value>, one: Key := map[[1] := []], [1];
    assert forall k | k in m :: k == one;
    assert !Less(one, []) && !Less(one, one) && Less([], one);
    assert one in m;
  }

  // ----- the scan along the entries of the index -----

  /** The entries `es` index the store `m` in `log`, in ascending key order. */
  ghost predicate Indexed(log: Bytes, es: seq<Entry>, m: map<Key, Value>) {
    && (forall i :: 0 <= i < |es| ==> es[i].0 in m && PutsAt(log, es[i].1, es[i].0, m[es[i].0]))
    && (forall k | k in m :: exists i :: 0 <= i < |es| && es[i].0 == k)
    && (forall i, j :: 0 <= i < j < |es| ==> Less(es[i].0, es[j].0))
  }

  /** Entries `p..q` have been delivered. */
  ghost predicate Scanned(out: seq<Item>, es: seq<Entry>, m: map<Key, Value>, p: nat, q: nat, upper: Key) {
    && p <= q <= |es| && |out| == q - p
    && (forall i :: p <= i < q ==> es[i].0 in m && out[i - p] == (es[i].0, m[es[i].0]))
    && (forall i :: p <= i < q ==> !Less(upper, es[i].0))
  }

  lemma NothingScanned(es: seq<Entry>, m: map<Key, Value>, p: nat, upper: Key)
    requires p <= |es|
    ensures Scanned([], es, m, p, p, upper)
  {
  }

  lemma ScannedNext(out: seq<Item>, es: seq<Entry>, m: map<Key, Value>, p: nat, q: nat, upper: Key)
    requires Scanned(out, es, m, p, q, upper) && q < |es| && es[q].0 in m && !Less(upper, es[q].0)
    ensures Scanned(out + [(es[q].0, m[es[q].0])], es, m, p, q + 1, upper)
  {
    hide Less;
  }

  /** All entries from the first one not below `lower` up to the last one not above `upper`. */
  lemma ScanDelivers(out: seq<Item>, log: Bytes, es: seq<Entry>, m: map<Key, Value>, p: nat, q: nat, lower: Key,
      upper: Key)
    requires Indexed(log, es, m) && Scanned(out, es, m, p, q, upper)
    requires (forall i :: 0 <= i < p ==> Less(es[i].0, lower)) && (forall i :: p <= i < |es| ==> !Less(es[i].0, lower))
    requires q < |es| ==> Less(upper, es[q].0)
    ensures Delivers(out, m, CodedRange(m, lower, upper))
  {
    hide Less, PutsAt;
    var ks, s := KeysOf(out), CodedRange(m, lower, upper);
    forall k | k in ks
      ensures k in s
    {
      var i :| 0 <= i < |ks| && ks[i] == k;
      assert es[p + i].0 == k && out[p + i - p] == out[i];
    }
    forall k | k in s
      ensures k in ks
    {
      var i :| 0 <= i < |es| && es[i].0 == k;
      if i >= q {
        PastEnd(es, q, i, upper);
      }
      assert ks[i - p] == k;
    }
    assert forall i :: 0 <= i < |ks| ==> ks[i] == es[p + i].0;
    assert forall i :: 0 <= i < |out| ==> out[i] == out[p + i - p];
  }

  lemma PastEnd(es: seq<Entry>, q: nat, i: nat, upper: Key)
    requires q <= i < |es| && Less(upper, es[q].0)
    requires forall i, j :: 0 <= i < j < |es| ==> Less(es[i].0, es[j].0)
    ensures Less(upper, es[i].0)
  {
    hide Less, Num;
    LessIsNum(upper, es[q].0);
    LessIsNum(es[q].0, es[i].0);
    LessIsNum(upper, es[i].0);
  }
}
