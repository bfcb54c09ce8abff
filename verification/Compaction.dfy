/** Compaction: the log that holds one put record for each live key, in ascending key order. */
module Compaction {
  import opened Keys
  import opened Codec
  import opened History

  ghost predicate Ascending(ks: seq<Key>) {
    forall i, j :: 0 <= i < j < |ks| ==> Less(ks[i], ks[j])
  }

  /** `ks` lists the keys in `s`, ascending. */
  ghost predicate Lists(ks: seq<Key>, s: set<Key>) {
    Ascending(ks) && (forall k | k in ks :: k in s) && (forall k | k in s :: k in ks)
  }

  /** One put for each key. */
  ghost function Puts(ks: seq<Key>, m: map<Key, Value>): (r: seq<Op>)
    requires forall k | k in ks :: k in m
    ensures |r| == |ks| && forall i :: 0 <= i < |ks| ==> r[i] == Put(ks[i], m[ks[i]])
  {
    seq(|ks|, i requires 0 <= i < |ks| => assert ks[i] in ks; Put(ks[i], m[ks[i]]))
  }

  lemma PutsPrefix(ks: seq<Key>, m: map<Key, Value>, i: nat)
    requires (forall k | k in ks :: k in m) && i < |ks|
    ensures forall k | k in ks[..i] :: k in m
    ensures Puts(ks, m)[..i] == Puts(ks[..i], m) && Puts(ks[..i + 1], m) == Puts(ks[..i], m) + [Put(ks[i], m[ks[i]])]
  {
  }

  // ----- one list for one set of keys -----

  lemma LessIrreflexive(a: Key, b: Key)
    ensures !(Less(a, b) && Less(b, a)) && !Less(a, a)
  {
    hide Less, Num;
    LessIsNum(a, b);
    LessIsNum(b, a);
    LessIsNum(a, a);
  }

  /** The first key of an ascending list is below all others in it. */
  lemma FirstLeast(ks: seq<Key>, k: Key)
    requires Ascending(ks) && k in ks
    ensures k == ks[0] || Less(ks[0], k)
  {
    hide Less;
    var i :| 0 <= i < |ks| && ks[i] == k;
  }

  lemma ListsTail(ks: seq<Key>, s: set<Key>)
    requires Lists(ks, s) && ks != []
    ensures ks[0] in s && Lists(ks[1..], s - {ks[0]})
  {
    hide Less;
    assert ks == [ks[0]] + ks[1..];
    forall k | k in ks[1..]
      ensures k in s - {ks[0]}
    {
      var i :| 0 <= i < |ks[1..]| && ks[1..][i] == k;
      assert Less(ks[0], ks[i + 1]) && k == ks[i + 1] && k in ks;
      LessIrreflexive(k, k);
    }
  }

  lemma ListsEmpty(ks: seq<Key>, s: set<Key>)
    requires Lists(ks, s)
    ensures ks == [] <==> s == {}
  {
    hide Less, Ascending;
    if ks != [] {
      assert ks[0] in s;
    }
  }

  /** A set of keys has only one ascending list. */
  lemma {:induction false} ListsUnique(ks: seq<Key>, ks': seq<Key>, s: set<Key>)
    requires Lists(ks, s) && Lists(ks', s)
    ensures ks == ks'
    decreases ks
  {
    hide Less, Ascending;
    ListsEmpty(ks, s);
    ListsEmpty(ks', s);
    if ks != [] {
      assert ks[0] in s && ks'[0] in ks;
      FirstLeast(ks', ks[0]);
      FirstLeast(ks, ks'[0]);
      LessIrreflexive(ks[0], ks'[0]);
      ListsTail(ks, s);
      ListsTail(ks', s);
      ListsUnique(ks[1..], ks'[1..], s - {ks[0]});
      assert ks == [ks[0]] + ks[1..] && ks' == [ks'[0]] + ks'[1..];
    }
  }

  lemma {:induction false} ListSize(ks: seq<Key>, s: set<Key>)
    requires Lists(ks, s)
    ensures |ks| == |s|
    decreases ks
  {
    hide Less, Ascending;
    ListsEmpty(ks, s);
    if ks != [] {
      ListsTail(ks, s);
      ListSize(ks[1..], s - {ks[0]});
    }
  }

  /** Every set of keys has an ascending list. */
  lemma {:induction false} ListExists(s: set<Key>) returns (ks: seq<Key>)
    ensures Lists(ks, s)
    decreases |s|
  {
    if s == {} {
      ks := [];
    } else {
      var k :| k in s;
      var rest := ListExists(s - {k});
      ks := InsertKey(rest, k);
      assert s == s - {k} + {k};
    }
  }

  lemma {:induction false} InsertKey(ks: seq<Key>, k: Key) returns (r: seq<Key>)
    requires Ascending(ks) && k !in ks
    ensures Ascending(r) && forall x :: x in r <==> x in ks || x == k
    decreases |ks|
  {
    hide Less;
    if ks == [] {
      r := [k];
    } else {
      var n := |ks| - 1;
      LessOrAbove(k, ks[n]);
      assert ks == ks[..n] + [ks[n]];
      if Less(ks[n], k) {
        r := ks + [k];
        AboveLast(ks, k);
      } else {
        var r0 := InsertKey(ks[..n], k);
        r := r0 + [ks[n]];
        forall i | 0 <= i < |r0|
          ensures Less(r0[i], ks[n])
        {
          assert r0[i] in r0;
          if r0[i] != k {
            var j :| 0 <= j < n && ks[..n][j] == r0[i];
          }
        }
      }
    }
  }

  lemma LessOrAbove(a: Key, b: Key)
    ensures Less(a, b) || Less(b, a) || a == b
  {
    hide Less, Num;
    LessIsNum(a, b);
    LessIsNum(b, a);
    if Num(a) == Num(b) {
      NumInjective(a, b);
    }
  }

  lemma AboveLast(ks: seq<Key>, k: Key)
    requires Ascending(ks) && ks != [] && Less(ks[|ks| - 1], k)
    ensures Ascending(ks + [k])
  {
    hide Less, Num;
    var n := |ks| - 1;
    forall i | 0 <= i <= n
      ensures Less(ks[i], k)
    {
      LessIsNum(ks[i], ks[n]);
      LessIsNum(ks[n], k);
      LessIsNum(ks[i], k);
    }
  }

  /** The compacted form of a store: one put record for each key, in ascending key order. */
  ghost predicate IsCompact(ops: seq<Op>, m: map<Key, Value>) {
    exists ks :: Lists(ks, m.Keys) && ops == Puts(ks, m)
  }

  lemma CompactHolds(ks: seq<Key>, m: map<Key, Value>, op: Op)
    requires Lists(ks, m.Keys)
    ensures op in Puts(ks, m) <==> op.Put? && op.key in m && op.value == m[op.key]
  {
    hide Less;
    var ops := Puts(ks, m);
    if op.Put? && op.key in m && op.value == m[op.key] {
      var i :| 0 <= i < |ks| && ks[i] == op.key;
      assert ops[i] == op;
    }
    if op in ops {
      var i :| 0 <= i < |ops| && ops[i] == op;
      assert ks[i] in ks;
    }
  }

  lemma CompactBuilt(ops: seq<Op>, m: map<Key, Value>)
    requires forall i, j :: 0 <= i < j < |ops| ==> Less(ops[i].key, ops[j].key)
    requires forall op :: op in ops <==> op.Put? && op.key in m && op.value == m[op.key]
    ensures IsCompact(ops, m)
  {
    hide Less;
    var ks := seq(|ops|, i requires 0 <= i < |ops| => ops[i].key);
    forall i | 0 <= i < |ops|
      ensures ks[i] in m && ops[i] == Put(ks[i], m[ks[i]])
    {
      assert ops[i] in ops;
    }
    forall k | k in m
      ensures k in ks
    {
      assert Put(k, m[k]) in ops;
      var i :| 0 <= i < |ops| && ops[i] == Put(k, m[k]);
      assert ks[i] == k;
    }
    assert Lists(ks, m.Keys) && ops == Puts(ks, m);
  }

  /** What a compacted log consists of: just the puts of the map's pairs, in ascending key order. */
  lemma CompactMeans(ops: seq<Op>, m: map<Key, Value>)
    ensures IsCompact(ops, m) <==>
            && (forall i, j :: 0 <= i < j < |ops| ==> Less(ops[i].key, ops[j].key))
            && (forall op :: op in ops <==> op.Put? && op.key in m && op.value == m[op.key])
  {
    hide Less;
    if IsCompact(ops, m) {
      var ks :| Lists(ks, m.Keys) && ops == Puts(ks, m);
      forall op
        ensures op in ops <==> op.Put? && op.key in m && op.value == m[op.key]
      {
        CompactHolds(ks, m, op);
      }
    } else if (forall i, j :: 0 <= i < j < |ops| ==> Less(ops[i].key, ops[j].key))
              && (forall op :: op in ops <==> op.Put? && op.key in m && op.value == m[op.key]) {
      CompactBuilt(ops, m);
    }
  }

  /** A store has only one compacted form. */
  lemma CompactUnique(a: seq<Op>, b: seq<Op>, m: map<Key, Value>)
    requires IsCompact(a, m) && IsCompact(b, m)
    ensures a == b
  {
    hide Ascending;
    var ks :| Lists(ks, m.Keys) && a == Puts(ks, m);
    var ks' :| Lists(ks', m.Keys) && b == Puts(ks', m);
    ListsUnique(ks, ks', m.Keys);
  }

  // ----- compaction keeps the meaning -----

  lemma {:induction false} PutsStore(ks: seq<Key>, m: map<Key, Value>)
    requires (forall k | k in ks :: k in m) && Ascending(ks)
    ensures var r := StoreOf(Puts(ks, m));
            (forall k :: k in r <==> k in ks) && forall k | k in r :: r[k] == m[k]
  {
    hide Less;
    if ks != [] {
      var n := |ks| - 1;
      PutsPrefix(ks, m, n);
      PutsStore(ks[..n], m);
      assert ks[..n + 1] == ks == ks[..n] + [ks[n]];
    }
  }

  /** The compacted log means the same store. */
  lemma CompactStore(ops: seq<Op>, m: map<Key, Value>)
    requires IsCompact(ops, m)
    ensures StoreOf(ops) == m
  {
    hide Ascending;
    var ks :| Lists(ks, m.Keys) && ops == Puts(ks, m);
    PutsStore(ks, m);
  }

  // ----- compaction never grows the log -----

  lemma NewestFirst(ops: seq<Op>, n: nat)
    requires n + 1 == |ops|
    ensures |EncodeAll(ops)| == |EncodeAll(ops[..n])| + |Encode(ops[n])|
  {
  }

  /** These are present records of `m`, each of another key. */
  ghost predicate Live(puts: seq<Op>, m: map<Key, Value>) {
    && (forall i :: 0 <= i < |puts| ==> puts[i].Put? && puts[i].key in m && m[puts[i].key] == puts[i].value)
    && (forall i, j :: 0 <= i < j < |puts| ==> puts[i].key != puts[j].key)
  }

  lemma LiveWithout(puts: seq<Op>, i: nat, m: map<Key, Value>, k: Key, v: Value)
    requires Live(puts, m[k := v]) && i < |puts| && puts[i].key == k
    ensures puts[i] == Put(k, v) && Live(puts[..i] + puts[i + 1..], m)
  {
    var rest := puts[..i] + puts[i + 1..];
    assert forall j :: 0 <= j < |rest| ==> rest[j] == puts[if j < i then j else j + 1];
  }

  /** Different live keys have different put records, so one record for each fits the old log. */
  lemma {:induction false} LiveRecordsFit(puts: seq<Op>, ops: seq<Op>)
    requires Live(puts, StoreOf(ops))
    ensures |EncodeAll(puts)| <= |EncodeAll(ops)|
    decreases |ops|
  {
    hide Encode, EncodeAll;
    if puts == [] {
      EncodeNone();
    } else {
      assert puts[0].key in StoreOf(ops);
      var n := |ops| - 1;
      var m := StoreOf(ops[..n]);
      NewestFirst(ops, n);
      if i :| 0 <= i < |puts| && puts[i].key == ops[n].key {
        assert puts[i].key in StoreOf(ops);
        LiveWithout(puts, i, m, ops[n].key, ops[n].value);
        WithoutRecord(puts, i);
        LiveRecordsFit(puts[..i] + puts[i + 1..], ops[..n]);
      } else {
        LiveRecordsFit(puts, ops[..n]);
      }
    }
  }

  lemma WithoutRecord(ops: seq<Op>, i: nat)
    requires i < |ops|
    ensures |EncodeAll(ops)| == |EncodeAll(ops[..i] + ops[i + 1..])| + |Encode(ops[i])|
  {
    hide Encode, EncodeAll;
    EncodeConcat(ops[..i], ops[i + 1..]);
    EncodeConcat(ops[..i], [ops[i]]);
    EncodeConcat(ops[..i] + [ops[i]], ops[i + 1..]);
    EncodeOne(ops[i]);
    assert ops == ops[..i] + [ops[i]] + ops[i + 1..];
  }

  /** Compaction never makes the log longer. */
  lemma CompactNoLonger(compact: seq<Op>, ops: seq<Op>)
    requires IsCompact(compact, StoreOf(ops))
    ensures |EncodeAll(compact)| <= |EncodeAll(ops)|
  {
    hide Less, StoreOf;
    var m := StoreOf(ops);
    var ks :| Lists(ks, m.Keys) && compact == Puts(ks, m);
    forall i, j | 0 <= i < j < |ks|
      ensures ks[i] != ks[j]
    {
      LessIrreflexive(ks[i], ks[j]);
    }
    forall i | 0 <= i < |ks|
      ensures ks[i] in m
    {
      assert ks[i] in ks;
    }
    LiveRecordsFit(compact, ops);
  }

  lemma {:induction false} StoreIsGood(ops: seq<Op>)
    requires AllGood(ops)
    ensures forall k | k in StoreOf(ops) :: Good(Put(k, StoreOf(ops)[k]))
  {
    hide Fits, NulFree;
    if ops != [] {
      StoreIsGood(ops[..|ops| - 1]);
      assert Good(ops[|ops| - 1]);
    }
  }

  lemma CompactIsGood(compact: seq<Op>, ops: seq<Op>)
    requires IsCompact(compact, StoreOf(ops)) && AllGood(ops)
    ensures AllGood(compact)
  {
    hide Less, StoreOf, Good, Ascending;
    var m := StoreOf(ops);
    var ks :| Lists(ks, m.Keys) && compact == Puts(ks, m);
    StoreIsGood(ops);
    forall op | op in compact
      ensures Good(op)
    {
      var i :| 0 <= i < |ks| && compact[i] == op;
      assert ks[i] in ks;
    }
  }

  // ----- offsets in the compacted log -----

  /** Where the records start, and where the last one ends. */
  ghost function Offsets(ops: seq<Op>): (r: seq<int>)
    ensures |r| == |ops| + 1 && forall i :: 0 <= i <= |ops| ==> r[i] == |EncodeAll(ops[..i])|
  {
    seq(|ops| + 1, i requires 0 <= i <= |ops| => |EncodeAll(ops[..i])|)
  }

  /** `m` maps the key of each of these records to where it starts, and no other. */
  ghost predicate IndexesStarts(ops: seq<Op>, m: map<Key, int>) {
    && (forall i :: 0 <= i < |ops| ==> ops[i].key in m && m[ops[i].key] == |EncodeAll(ops[..i])|)
    && (forall k | k in m :: HasRecord(ops, k))
  }

  ghost predicate HasRecord(ops: seq<Op>, k: Key) {
    exists i :: 0 <= i < |ops| && ops[i].key == k
  }

  lemma RecordNext(ops: seq<Op>, n: nat, k: Key)
    requires n + 1 == |ops| && (HasRecord(ops[..n], k) || k == ops[n].key)
    ensures HasRecord(ops, k)
  {
    if k == ops[n].key {
      assert ops[n].key == k;
    } else {
      var i :| 0 <= i < n && ops[..n][i].key == k;
      assert ops[i].key == k;
    }
  }

  lemma IndexesNext(ops: seq<Op>, n: nat, m: map<Key, int>)
    requires n + 1 == |ops| && IndexesStarts(ops[..n], m) && forall i :: 0 <= i < n ==> ops[i].key != ops[n].key
    ensures IndexesStarts(ops, m[ops[n].key := |EncodeAll(ops[..n])|])
  {
    hide EncodeAll, HasRecord;
    var m' := m[ops[n].key := |EncodeAll(ops[..n])|];
    forall i | 0 <= i < n
      ensures ops[i].key in m' && m'[ops[i].key] == |EncodeAll(ops[..i])|
    {
      assert ops[..n][i] == ops[i] && ops[..n][..i] == ops[..i];
    }
    forall k | k in m'.Keys
      ensures HasRecord(ops, k)
    {
      RecordNext(ops, n, k);
    }
  }

  /** Replay indexes each of the records of distinct keys where it starts. */
  lemma {:induction false} PutsIndex(ops: seq<Op>)
    requires forall i :: 0 <= i < |ops| ==> ops[i].Put?
    requires forall i, j :: 0 <= i < j < |ops| ==> ops[i].key != ops[j].key
    ensures IndexesStarts(ops, IndexOf(ops))
  {
    hide EncodeAll, IndexesStarts;
    if ops != [] {
      var n := |ops| - 1;
      PutsIndex(ops[..n]);
      IndexesNext(ops, n, IndexOf(ops[..n]));
    } else {
      IndexesNothing(ops);
    }
  }

  lemma IndexesNothing(ops: seq<Op>)
    requires ops == []
    ensures IndexesStarts(ops, map[])
  {
  }
}
