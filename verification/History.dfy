/** The log as the list of operations written to it: what replaying its bytes gives, whole or
    torn, what the operations mean, and what compaction may do to them. */
module History {
  import opened Keys
  import opened Codec

  /** An operation that the engine writes: its lengths fit, and its key survives `c_str()`. */
  ghost predicate Good(op: Op) {
    Fits(op) && NulFree(op.key)
  }

  ghost predicate AllGood(ops: seq<Op>) {
    forall op | op in ops :: Good(op)
  }

  function EncodeAll(ops: seq<Op>): Bytes {
    if ops == [] then [] else EncodeAll(ops[..|ops| - 1]) + Encode(ops[|ops| - 1])
  }

  lemma {:induction false} EncodeConcat(a: seq<Op>, b: seq<Op>)
    ensures EncodeAll(a + b) == EncodeAll(a) + EncodeAll(b)
  {
    hide Encode;
    if b == [] {
      assert a + b == a;
    } else {
      var n := |b| - 1;
      assert (a + b)[..|a + b| - 1] == a + b[..n];
      EncodeConcat(a, b[..n]);
      assert EncodeAll(a) + (EncodeAll(b[..n]) + Encode(b[n])) == EncodeAll(a) + EncodeAll(b[..n]) + Encode(b[n]);
    }
  }

  lemma EncodeOne(op: Op)
    ensures EncodeAll([op]) == Encode(op)
  {
    assert [op][..0] == [];
  }

  // ----- replay -----

  /** The operations read from the front of `b` until a record does not decode. */
  function Parse(b: Bytes): seq<Op>
    decreases |b|
  {
    match Decode(b)
    case Fail => []
    case Got(op) => [op] + Parse(b[|Encode(op)|..])
  }

  lemma CutTwice(b: Bytes, n: nat, m: nat)
    requires n + m <= |b|
    ensures b[n..][m..] == b[n + m..] && b[..n] + b[n..][..m] == b[..n + m]
  {
  }

  /** Replay of any bytes: what was read is a prefix, and what follows does not decode. */
  lemma {:induction false} ParsedPrefix(b: Bytes)
    ensures var e := EncodeAll(Parse(b));
            |e| <= |b| && e == b[..|e|] && Decode(b[|e|..]).Fail?
    decreases |b|
  {
    hide Encode, Decode, EncodeAll;
    EncodeNone();
    if Decode(b).Got? {
      var op := Decode(b).op;
      var n := |Encode(op)|;
      DecodedIsEncoded(b);
      ParsedPrefix(b[n..]);
      var e := EncodeAll(Parse(b[n..]));
      EncodeConcat([op], Parse(b[n..]));
      EncodeOne(op);
      CutTwice(b, n, |e|);
    }
  }

  /** The number of operations whose records lie within the first `n` bytes. */
  function Complete(ops: seq<Op>, n: nat): (k: nat)
    ensures k <= |ops|
  {
    if ops == [] || n < |Encode(ops[0])| then 0 else 1 + Complete(ops[1..], n - |Encode(ops[0])|)
  }

  /** `Complete` counts exactly the records that end within the first `n` bytes. */
  lemma {:induction false} CompleteExact(ops: seq<Op>, n: nat)
    ensures var k := Complete(ops, n);
            && |EncodeAll(ops[..k])| <= n
            && (k < |ops| ==> n < |EncodeAll(ops[..k + 1])|)
  {
    hide Encode, EncodeAll;
    EncodeNone();
    if ops != [] {
      EncodeOne(ops[0]);
      assert ops[..1] == [ops[0]] && ops[..0] == [];
      if n >= |Encode(ops[0])| {
        var j := Complete(ops[1..], n - |Encode(ops[0])|);
        CompleteExact(ops[1..], n - |Encode(ops[0])|);
        assert ops[..j + 1] == [ops[0]] + ops[1..][..j];
        EncodeConcat([ops[0]], ops[1..][..j]);
        if j < |ops| - 1 {
          assert ops[..j + 2] == [ops[0]] + ops[1..][..j + 1];
          EncodeConcat([ops[0]], ops[1..][..j + 1]);
        }
      }
    } else {
      assert ops[..0] == [];
    }
  }

  lemma EncodeNone()
    ensures EncodeAll([]) == []
  {
  }

  /** Recovery from a torn log: replaying any prefix of a log gives exactly the operations whose
      records it holds completely. */
  lemma {:induction false} TornTail(ops: seq<Op>, n: nat)
    requires AllGood(ops) && n <= |EncodeAll(ops)|
    ensures Parse(EncodeAll(ops)[..n]) == ops[..Complete(ops, n)]
    decreases |ops|
  {
    hide Encode, Decode, Fits, NulFree, EncodeAll;
    if ops == [] {
      EncodeNone();
      DecodeNothing();
    } else {
      assert Good(ops[0]);
      var e, rest := Encode(ops[0]), EncodeAll(ops[1..]);
      EncodeOne(ops[0]);
      EncodeConcat([ops[0]], ops[1..]);
      assert ops == [ops[0]] + ops[1..] && EncodeAll(ops) == e + rest;
      if n < |e| {
        PrefixFails(ops[0], n);
        assert (e + rest)[..n] == e[..n];
      } else {
        var m := n - |e|;
        assert (e + rest)[..n] == e + rest[..m] && (e + rest[..m])[|e|..] == rest[..m];
        DecodeEncode(ops[0], rest[..m]);
        TornTail(ops[1..], m);
        assert ops[..1 + Complete(ops[1..], m)] == [ops[0]] + ops[1..][..Complete(ops[1..], m)];
      }
    }
  }

  lemma DecodeNothing()
    ensures Decode([]).Fail?
  {
  }

  /** Replay gives back what was written, whatever bytes that do not decode follow. */
  lemma {:induction false} ReplayWritten(ops: seq<Op>, tail: Bytes)
    requires AllGood(ops) && Decode(tail).Fail?
    ensures Parse(EncodeAll(ops) + tail) == ops
    decreases |ops|
  {
    hide Encode, Decode, Fits, NulFree, EncodeAll;
    if ops == [] {
      EncodeNone();
      assert [] + tail == tail;
    } else {
      assert Good(ops[0]);
      var e, rest := Encode(ops[0]), EncodeAll(ops[1..]) + tail;
      EncodeOne(ops[0]);
      EncodeConcat([ops[0]], ops[1..]);
      assert ops == [ops[0]] + ops[1..] && EncodeAll(ops) + tail == e + rest;
      DecodeEncode(ops[0], rest);
      assert (e + rest)[|e|..] == rest;
      ReplayWritten(ops[1..], tail);
    }
  }

  /** Replay of a whole log gives back what was written. */
  lemma ReplayWhole(ops: seq<Op>)
    requires AllGood(ops)
    ensures Parse(EncodeAll(ops)) == ops
  {
    hide Parse, EncodeAll, Good;
    DecodeNothing();
    ReplayWritten(ops, []);
    assert EncodeAll(ops) + [] == EncodeAll(ops);
  }

  /** As many bytes as all records take hold them all. */
  lemma {:induction false} CompleteAll(ops: seq<Op>, n: nat)
    requires n >= |EncodeAll(ops)|
    ensures Complete(ops, n) == |ops|
    decreases |ops|
  {
    hide Encode, EncodeAll;
    if ops != [] {
      EncodeOne(ops[0]);
      EncodeConcat([ops[0]], ops[1..]);
      assert ops == [ops[0]] + ops[1..];
      CompleteAll(ops[1..], n - |Encode(ops[0])|);
    }
  }

  /** Recovery from any log, torn or not, cut off anywhere: what its replay gives is cut off too,
      at the last operation whose record is still complete. */
  lemma TornAgain(log: Bytes, n: nat)
    requires AllGood(Parse(log)) && n <= |log|
    ensures Parse(log[..n]) == Parse(log)[..Complete(Parse(log), n)]
  {
    hide Encode, EncodeAll, Decode, Parse, Good, Complete;
    var ops := Parse(log);
    var e := EncodeAll(ops);
    ParsedPrefix(log);
    if n <= |e| {
      TornTail(ops, n);
      assert log[..n] == e[..n];
    } else {
      var m := n - |e|;
      var tail := log[|e|..];
      assert log[..n] == e + tail[..m] && tail == tail[..m] + tail[m..];
      if Decode(tail[..m]).Got? {
        DecodeStable(tail[..m], tail[m..]);
      }
      ReplayWritten(ops, tail[..m]);
      CompleteAll(ops, n);
      assert ops[..|ops|] == ops;
    }
  }

  // ----- meaning -----

  /** The plain map that the operations build. */
  function StoreOf(ops: seq<Op>): map<Key, Value> {
    if ops == [] then map[]
    else
      var m := StoreOf(ops[..|ops| - 1]);
      match ops[|ops| - 1]
      case Put(k, v) => m[k := v]
      case Del(k) => m - {k}
  }

  /** The index that replay builds: where the latest record of each live key starts. */
  function IndexOf(ops: seq<Op>): map<Key, int> {
    if ops == [] then map[]
    else
      var m := IndexOf(ops[..|ops| - 1]);
      match ops[|ops| - 1]
      case Put(k, _) => m[k := |EncodeAll(ops[..|ops| - 1])|]
      case Del(k) => m - {k}
  }

  /** One operation more. */
  lemma MeaningNext(ops: seq<Op>, op: Op)
    ensures (ops + [op])[..|ops|] == ops
    ensures EncodeAll(ops + [op]) == EncodeAll(ops) + Encode(op)
    ensures IndexOf(ops + [op]) == if op.Put? then IndexOf(ops)[op.key := |EncodeAll(ops)|] else IndexOf(ops) - {op.key}
    ensures StoreOf(ops + [op]) == if op.Put? then StoreOf(ops)[op.key := op.value] else StoreOf(ops) - {op.key}
  {
    hide Encode;
    assert (ops + [op])[..|ops|] == ops;
  }

  /** What the last operation on a key leaves. */
  lemma {:induction false} AfterLast(ops: seq<Op>, i: nat, k: Key)
    requires i < |ops| && ops[i].key == k && forall j :: i < j < |ops| ==> ops[j].key != k
    ensures k in StoreOf(ops) <==> ops[i].Put?
    ensures k in IndexOf(ops) <==> ops[i].Put?
    ensures ops[i].Put? ==> StoreOf(ops)[k] == ops[i].value && IndexOf(ops)[k] == |EncodeAll(ops[..i])|
    decreases |ops|
  {
    hide EncodeAll;
    var n := |ops| - 1;
    if i < n {
      assert ops[..n][..i] == ops[..i];
      AfterLast(ops[..n], i, k);
    }
  }

  lemma {:induction false} NeverTouched(ops: seq<Op>, k: Key)
    requires forall j :: 0 <= j < |ops| ==> ops[j].key != k
    ensures k !in StoreOf(ops) && k !in IndexOf(ops)
    decreases |ops|
  {
    hide EncodeAll;
    if ops != [] {
      NeverTouched(ops[..|ops| - 1], k);
    }
  }

  /** The last operation on `k`, or -1 if there is none. */
  lemma {:induction false} FindLast(ops: seq<Op>, k: Key) returns (i: int)
    ensures -1 <= i < |ops| && (i >= 0 ==> ops[i].key == k) && forall j :: i < j < |ops| ==> ops[j].key != k
    decreases |ops|
  {
    if ops == [] {
      i := -1;
    } else if ops[|ops| - 1].key == k {
      i := |ops| - 1;
    } else {
      i := FindLast(ops[..|ops| - 1], k);
    }
  }

  /** The last operation on a key decides: the map holds `v` under `k` exactly if some put of just that
      is followed by no other operation on `k`. */
  lemma StoreMeans(ops: seq<Op>, k: Key, v: Value)
    ensures (k in StoreOf(ops) && StoreOf(ops)[k] == v) <==>
            exists i :: 0 <= i < |ops| && ops[i] == Put(k, v) && forall j :: i < j < |ops| ==> ops[j].key != k
  {
    hide StoreOf, IndexOf, EncodeAll;
    var n := FindLast(ops, k);
    if n == -1 {
      NeverTouched(ops, k);
    } else {
      AfterLast(ops, n, k);
    }
  }

  /** The index holds under `k` where the record of the put starts that no other operation on `k`
      follows, and nothing if there is none. */
  lemma IndexMeans(ops: seq<Op>, k: Key, off: int)
    ensures (k in IndexOf(ops) && IndexOf(ops)[k] == off) <==>
            exists i :: 0 <= i < |ops| && ops[i].Put? && ops[i].key == k && off == |EncodeAll(ops[..i])|
                        && forall j :: i < j < |ops| ==> ops[j].key != k
  {
    hide StoreOf, IndexOf, EncodeAll;
    var n := FindLast(ops, k);
    if n == -1 {
      NeverTouched(ops, k);
    } else {
      AfterLast(ops, n, k);
    }
  }

  lemma DecodeStable(b: Bytes, rest: Bytes)
    requires Decode(b).Got?
    ensures Decode(b + rest) == Decode(b)
  {
    hide Encode, Decode, Fits;
    var op := Decode(b).op;
    DecodedIsEncoded(b);
    var n := |Encode(op)|;
    DecodeEncode(op, b[n..] + rest);
    assert b + rest == Encode(op) + (b[n..] + rest);
  }

  /** Offset `off` of `log` starts a complete record that puts `v` under `k`. */
  ghost predicate PutsAt(log: Bytes, off: int, k: Key, v: Value) {
    0 <= off <= |log| && Decode(log[off..]) == Got(Put(k, v))
  }

  /** The bytes at the offset are the record. */
  lemma PutsAtMeans(log: Bytes, off: int, k: Key, v: Value)
    requires |k| < 0x1_0000_0000_0000_0000 && |v| < 0xFFFF_FFFF_FFFF_FFFF
    ensures PutsAt(log, off, k, v) <==>
            var e := Encode(Put(k, v));
            0 <= off && off + |e| <= |log| && log[off..off + |e|] == e
  {
    hide Encode, Decode;
    if 0 <= off <= |log| {
      DecodeMeans(log[off..], Put(k, v));
      var n := |Encode(Put(k, v))|;
      if off + n <= |log| {
        assert log[off..][..n] == log[off..off + n];
      }
    }
  }

  lemma IndexStep(log: Bytes, op: Op, k: Key, off: int, v: Value)
    requires Good(op) && (if op.Put? && op.key == k then off == |log| && v == op.value else PutsAt(log, off, k, v))
    ensures PutsAt(log + Encode(op), off, k, v)
  {
    hide Encode, Decode, Fits, NulFree;
    var log' := log + Encode(op);
    if op.Put? && op.key == k {
      DecodeEncode(op, []);
      assert log'[off..] == Encode(op) + [];
    } else {
      DecodeStable(log[off..], Encode(op));
      assert log'[off..] == log[off..] + Encode(op);
    }
  }

  /** Every indexed offset starts a complete put record of that very key with its current value. */
  lemma {:induction false} IndexSound(ops: seq<Op>)
    requires AllGood(ops)
    ensures IndexOf(ops).Keys == StoreOf(ops).Keys
    ensures forall k | k in IndexOf(ops) :: PutsAt(EncodeAll(ops), IndexOf(ops)[k], k, StoreOf(ops)[k])
  {
    hide Encode, PutsAt, Fits, NulFree;
    if ops != [] {
      var n := |ops| - 1;
      IndexSound(ops[..n]);
      assert Good(ops[n]);
      forall k | k in IndexOf(ops)
        ensures PutsAt(EncodeAll(ops), IndexOf(ops)[k], k, StoreOf(ops)[k])
      {
        IndexStep(EncodeAll(ops[..n]), ops[n], k, IndexOf(ops)[k], StoreOf(ops)[k]);
      }
    }
  }

  /** Every indexed offset starts the key's latest record, whatever follows the records. */
  lemma IndexedIn(log: Bytes, ops: seq<Op>)
    requires AllGood(ops) && EncodeAll(ops) <= log
    ensures IndexOf(ops).Keys == StoreOf(ops).Keys
    ensures forall k | k in IndexOf(ops) :: PutsAt(log, IndexOf(ops)[k], k, StoreOf(ops)[k])
  {
    hide Encode, EncodeAll, Decode, StoreOf, IndexOf, Good;
    IndexSound(ops);
    var e := EncodeAll(ops);
    forall k | k in IndexOf(ops)
      ensures PutsAt(log, IndexOf(ops)[k], k, StoreOf(ops)[k])
    {
      var off := IndexOf(ops)[k];
      assert PutsAt(e, off, k, StoreOf(ops)[k]);
      DecodeStable(e[off..], log[|e|..]);
      assert log[off..] == e[off..] + log[|e|..];
    }
  }
}
