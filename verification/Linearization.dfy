/** Every operation takes effect at one step between its call and its return, as on a plain map;
    compaction takes none; and no reachable state is stuck. */
module Linearization {
  import opened Keys
  import opened Codec
  import opened History
  import opened Compaction
  import opened Ranges
  import opened Protocol

  /** Index, log and append offset agree. */
  ghost predicate Quiet(x: Shared) {
    x.log == EncodeAll(x.history) && x.index == IndexOf(x.history) && x.offset == |x.log|
  }

  /** In the middle of changing what the threads share. */
  predicate Busy(p: Pc) {
    p.PutMid? || p.RemoveMid? || p.GcRewrite? || p.GcRemoved? || p.GcRenamed?
  }

  /** A reader has `out` and still has to deliver `todo`. */
  ghost predicate Reading(q: Query, todo: seq<Key>, out: seq<Item>, m: map<Key, Value>) {
    && Lists(KeysOf(out) + todo, Wanted(q, m.Keys))
    && forall i :: 0 <= i < |out| ==> out[i].0 in m && out[i].1 == m[out[i].0]
  }

  /** The first `i` records of the compacted log have been copied. */
  ghost predicate Copied(ks: seq<Key>, i: nat, n: Bytes, os: seq<int>, m: map<Key, Value>) {
    && Lists(ks, m.Keys) && i <= |ks|
    && var ops := Puts(ks, m);
       n == EncodeAll(ops[..i]) && os == Offsets(ops)[..i]
  }

  /** The compacted log is complete. */
  ghost predicate Compacted(ks: seq<Key>, n: Bytes, os: seq<int>, m: map<Key, Value>) {
    Lists(ks, m.Keys) && n == EncodeAll(Puts(ks, m)) && os == Offsets(Puts(ks, m))
  }

  /** The first `i` offsets have been overwritten. */
  ghost predicate Rewritten(ks: seq<Key>, i: nat, os: seq<int>, index: map<Key, int>, m: map<Key, Value>) {
    && i <= |ks| < |os| && index.Keys == m.Keys
    && forall j :: 0 <= j < i ==> ks[j] in index && index[ks[j]] == os[j]
  }

  /** What a thread may rely on. */
  ghost predicate PcOk(x: Shared, p: Pc) {
    var m := StoreOf(x.history);
    match p
    case PutWait(k, v) => Good(Put(k, v))
    case PutBegin(k, v) => Quiet(x) && Good(Put(k, v))
    case PutMid(k, v) =>
      && Good(Put(k, v)) && x.log == EncodeAll(x.history) + Encode(Put(k, v))
      && x.index == IndexOf(x.history) && x.offset == |EncodeAll(x.history)|
    case RemoveBegin(k) => Quiet(x)
    case RemoveMid(k) =>
      && x.log == EncodeAll(x.history) && x.offset == |x.log|
      && k in IndexOf(x.history) && x.index == IndexOf(x.history) - {k}
    case ReadBegin(q) => Quiet(x)
    case ReadAt(q, todo, out) => Quiet(x) && Reading(q, todo, out, m)
    case ReadOffset(q, todo, out, off) =>
      Quiet(x) && Reading(q, todo, out, m) && todo != [] && todo[0] in x.index && off == x.index[todo[0]]
    case GcWalk(ks, i, n, os) => Quiet(x) && Copied(ks, i, n, os, m)
    case GcReady(n, os) => Quiet(x) && exists ks :: Compacted(ks, n, os, m)
    case GcRewrite(ks, i, n, os) => Compacted(ks, n, os, m) && Rewritten(ks, i, os, x.index, m)
    case GcRemoved(n) => x.index == IndexOf(x.history) && n == EncodeAll(x.history)
    case GcRenamed(n) => x.index == IndexOf(x.history) && n == EncodeAll(x.history) && x.log == n
    case _ => true
  }

  ghost predicate Inv(s: State) {
    && Exclusive(s.threads) && AllGood(s.shared.history)
    && (forall p | p in s.threads :: PcOk(s.shared, p))
    && ((forall p | p in s.threads :: !Busy(p)) ==> Quiet(s.shared))
  }

  /** The map that the shared state stands for. */
  ghost function Abs(x: Shared): map<Key, Value> {
    StoreOf(x.history)
  }

  /** The atomic map: what an event reports must be so. */
  ghost predicate Legal(m: map<Key, Value>, ev: Event) {
    match ev
    case Tau => true
    case DidPut(_, _) => true
    case DidRemove(k, found) => found == (k in m)
    case DidRead(q, out) => Delivers(out, m, Wanted(q, m.Keys))
  }

  /** The atomic map: what an event changes. */
  function Effect(m: map<Key, Value>, ev: Event): map<Key, Value> {
    match ev
    case DidPut(k, v) => m[k := v]
    case DidRemove(k, _) => m - {k}
    case _ => m
  }

  ghost predicate MapStep(m: map<Key, Value>, ev: Event, m': map<Key, Value>) {
    Legal(m, ev) && m' == Effect(m, ev)
  }

  lemma OneKey(m: map<Key, Value>, k: Key)
    ensures Wanted(One(k), m.Keys) == if k in m then {k} else {}
  {
  }

  /** What a `get` delivers: the key and its value, or nothing. */
  lemma GetDelivers(out: seq<Item>, m: map<Key, Value>, k: Key)
    ensures Delivers(out, m, Wanted(One(k), m.Keys)) <==> out == if k in m then [(k, m[k])] else []
  {
    hide Less, Wanted, Delivers;
    OneKey(m, k);
    var due: seq<Item> := if k in m then [(k, m[k])] else [];
    DeliversMeans(due, m, Wanted(One(k), m.Keys));
    assert forall j, v :: (j, v) in due <==> k in m && j == k && v == m[j];
    assert Delivers(due, m, Wanted(One(k), m.Keys));
    if Delivers(out, m, Wanted(One(k), m.Keys)) {
      DeliversUnique(out, due, m, Wanted(One(k), m.Keys));
    }
  }

  /** What a `visit` delivers: just the pairs from `l` up to and including `u`, ascending. */
  lemma VisitDelivers(out: seq<Item>, m: map<Key, Value>, l: Key, u: Key)
    ensures Delivers(out, m, Wanted(Between(l, u), m.Keys)) <==>
            && (forall i, j :: 0 <= i < j < |out| ==> Less(out[i].0, out[j].0))
            && (forall k, v :: (k, v) in out <==> k in m && v == m[k] && !Less(k, l) && !Less(u, k))
  {
    hide Less;
    var s := Wanted(Between(l, u), m.Keys);
    DeliversMeans(out, m, s);
    assert forall k :: k in s <==> k in m && !Less(k, l) && !Less(u, k);
  }

  // ----- what each kind of step does -----

  ghost predicate Local(x: Shared, ev: Event, x': Shared, p': Pc) {
    && PcOk(x', p') && AllGood(x'.history) && MapStep(Abs(x), ev, Abs(x')) && (Busy(p') || Quiet(x'))
  }

  lemma WriteLocal(x: Shared, p: Pc, ev: Event, x': Shared, p': Pc)
    requires PcOk(x, p) && AllGood(x.history) && WriteStep(x, p, ev, x', p')
    ensures Local(x, ev, x', p')
  {
    hide Encode, EncodeAll, IndexOf, StoreOf, Fits, NulFree, PutsAt, Delivers, Reading, Copied, Compacted, Rewritten;
    IndexSound(x.history);
    match p {
      case PutBegin(k, v) =>
      case PutMid(k, v) =>
        MeaningNext(x.history, Put(k, v));
      case RemoveBegin(k) =>
        assert k !in Abs(x) ==> Abs(x) - {k} == Abs(x);
      case RemoveMid(k) =>
        MeaningNext(x.history, Del(k));
        StoreIsGood(x.history);
        GoodRemoval(k, Abs(x)[k]);
    }
  }

  lemma GoodRemoval(k: Key, v: Value)
    requires Good(Put(k, v))
    ensures Good(Del(k))
  {
  }

  lemma ReadLocal(x: Shared, p: Pc, ev: Event, p': Pc)
    requires PcOk(x, p) && AllGood(x.history) && ReadStep(x, p, ev, p')
    ensures Local(x, ev, x, p')
  {
    hide Encode, EncodeAll, IndexOf, StoreOf, Good, Wanted, Decode, KeysOf, RecordIs, PutsAt, Quiet, Lists;
    QuietKeys(x, p);
    match p {
      case ReadBegin(q) =>
        StartReading(q, p'.todo, Abs(x));
      case ReadAt(q, todo, out) =>
        assert KeysOf(out) + [] == KeysOf(out);
      case ReadOffset(q, todo, out, off) =>
        var k, v :| RecordIs(x.log, off, Put(k, v)) && p' == ReadAt(q, todo[1..], out + [(k, v)]);
        OffsetRead(x, todo[0], k, v);
        ReadingNext(q, todo, out, Abs(x));
    }
  }

  lemma QuietKeys(x: Shared, p: Pc)
    requires PcOk(x, p) && AllGood(x.history) && (p.ReadBegin? || p.ReadAt? || p.ReadOffset?)
    ensures Quiet(x) && x.index.Keys == Abs(x).Keys
  {
    hide Encode, EncodeAll, IndexOf, StoreOf, Good, Reading, PutsAt;
    IndexSound(x.history);
  }

  lemma StartReading(q: Query, todo: seq<Key>, m: map<Key, Value>)
    requires Lists(todo, Wanted(q, m.Keys))
    ensures Reading(q, todo, [], m)
  {
    hide Lists, Wanted;
    assert KeysOf([]) + todo == todo;
  }

  /** What is read at an indexed offset is the key's present record. */
  lemma OffsetRead(x: Shared, key: Key, k: Key, v: Value)
    requires Quiet(x) && AllGood(x.history) && key in x.index && RecordIs(x.log, x.index[key], Put(k, v))
    ensures k == key && key in Abs(x) && v == Abs(x)[key]
  {
    hide Encode, EncodeAll, IndexOf, StoreOf, Good, Decode;
    IndexSound(x.history);
    assert PutsAt(x.log, x.index[key], key, Abs(x)[key]);
  }

  lemma ReadingNext(q: Query, todo: seq<Key>, out: seq<Item>, m: map<Key, Value>)
    requires Reading(q, todo, out, m) && todo != [] && todo[0] in m
    ensures Reading(q, todo[1..], out + [(todo[0], m[todo[0]])], m)
  {
    hide Lists, Wanted;
    assert KeysOf(out + [(todo[0], m[todo[0]])]) + todo[1..] == KeysOf(out) + todo;
  }

  lemma GcReadLocal(x: Shared, ps: seq<Pc>, p: Pc, p': Pc)
    requires PcOk(x, p) && AllGood(x.history) && GcReadStep(x, ps, p, p') && Quiet(x)
    ensures Local(x, Tau, x, p')
  {
    hide Encode, EncodeAll, IndexOf, StoreOf, Good, Decode, Quiet, Copied, Compacted, Lists, RecordIs, CanReadMain,
      CanWriteData;
    QuietIndex(x);
    var m := Abs(x);
    match p {
      case GcGuard =>
        CopyStart(p'.keys, m);
      case GcWalk(ks, i, n, os) =>
        if i < |ks| {
          var op :| RecordIs(x.log, x.index[ks[i]], op) && p' == GcWalk(ks, i + 1, n + Encode(op), os + [|n|]);
          CopyMore(x, ks, i, n, os, op);
        } else {
          CopyDone(ks, i, n, os, m);
        }
      case GcReady(n, os) =>
        var ks :| Compacted(ks, n, os, m);
        SameWalk(ks, p'.keys, x.index.Keys, n, os, m);
        StartRewrite(x, p'.keys, n, os);
    }
  }

  lemma QuietIndex(x: Shared)
    requires Quiet(x) && AllGood(x.history)
    ensures x.index.Keys == Abs(x).Keys
  {
    hide EncodeAll, IndexOf, StoreOf, Good, PutsAt;
    IndexSound(x.history);
  }

  /** One record more of the first walk: what it reads is the key's present record. */
  lemma CopyMore(x: Shared, ks: seq<Key>, i: nat, n: Bytes, os: seq<int>, op: Op)
    requires Quiet(x) && AllGood(x.history) && Copied(ks, i, n, os, Abs(x)) && i < |ks|
    requires ks[i] in x.index && RecordIs(x.log, x.index[ks[i]], op)
    ensures Copied(ks, i + 1, n + Encode(op), os + [|n|], Abs(x))
  {
    hide Encode, EncodeAll, IndexOf, StoreOf, Good, Decode, Ascending, Puts, Offsets;
    IndexSound(x.history);
    var m := Abs(x);
    assert PutsAt(x.log, x.index[ks[i]], ks[i], m[ks[i]]);
    assert op == Put(ks[i], m[ks[i]]);
    CopyNext(ks, i, m);
  }

  lemma CopyDone(ks: seq<Key>, i: nat, n: Bytes, os: seq<int>, m: map<Key, Value>)
    requires Copied(ks, i, n, os, m) && i >= |ks|
    ensures Compacted(ks, n, os + [|n|], m)
  {
    hide EncodeAll, Ascending, Puts, Offsets;
    CopyEnd(ks, m);
  }

  /** Both walks see the same keys in the same order. */
  lemma SameWalk(ks: seq<Key>, ks': seq<Key>, keys: set<Key>, n: Bytes, os: seq<int>, m: map<Key, Value>)
    requires Compacted(ks, n, os, m) && Lists(ks', keys) && keys == m.Keys
    ensures ks == ks' && Compacted(ks', n, os, m)
  {
    hide Lists, Puts, EncodeAll, Offsets;
    ListsUnique(ks, ks', keys);
  }

  lemma CopyStart(ks: seq<Key>, m: map<Key, Value>)
    requires Lists(ks, m.Keys)
    ensures Copied(ks, 0, [], [], m)
  {
    hide Ascending;
    assert Puts(ks, m)[..0] == [];
    EncodeNone();
  }

  lemma CopyNext(ks: seq<Key>, i: nat, m: map<Key, Value>)
    requires (forall k | k in ks :: k in m) && i < |ks|
    ensures var ops := Puts(ks, m);
            && EncodeAll(ops[..i + 1]) == EncodeAll(ops[..i]) + Encode(Put(ks[i], m[ks[i]]))
            && Offsets(ops)[..i + 1] == Offsets(ops)[..i] + [|EncodeAll(ops[..i])|]
  {
    hide Encode, EncodeAll;
    var ops := Puts(ks, m);
    assert ops[..i + 1] == ops[..i] + [ops[i]];
    MeaningNext(ops[..i], ops[i]);
  }

  lemma CopyEnd(ks: seq<Key>, m: map<Key, Value>)
    requires forall k | k in ks :: k in m
    ensures var ops := Puts(ks, m);
            && EncodeAll(ops[..|ks|]) == EncodeAll(ops)
            && Offsets(ops)[..|ks|] + [|EncodeAll(ops[..|ks|])|] == Offsets(ops)
  {
    hide Encode, EncodeAll;
    var ops := Puts(ks, m);
    assert ops[..|ks|] == ops;
  }

  /** When every offset is replaced, the index is that of the new log. */
  lemma RewriteDone(x: Shared, ks: seq<Key>, i: nat, n: Bytes, os: seq<int>)
    requires i >= |ks| && PcOk(x, GcRewrite(ks, i, n, os)) && AllGood(x.history)
    ensures var ops := Puts(ks, Abs(x));
            IndexOf(ops) == x.index && StoreOf(ops) == Abs(x) && AllGood(ops) && n == EncodeAll(ops)
  {
    hide Encode, EncodeAll, IndexOf, StoreOf, Good, Ascending, Offsets, Puts;
    var m := Abs(x);
    var ops := Puts(ks, m);
    assert IsCompact(ops, m);
    CompactStore(ops, m);
    CompactIsGood(ops, x.history);
    RewriteEnd(ks, os, x.index, m);
  }

  lemma GcWriteLocal(x: Shared, p: Pc, x': Shared, p': Pc)
    requires PcOk(x, p) && AllGood(x.history) && GcWriteStep(x, p, x', p')
    ensures Local(x, Tau, x', p')
  {
    hide Encode, EncodeAll, IndexOf, StoreOf, Good, Ascending, Offsets, Puts, Lists, Rewritten;
    var m := Abs(x);
    match p {
      case GcRewrite(ks, i, n, os) =>
        if i < |ks| {
          RewriteNext(ks, i, os, x.index, m);
        } else {
          RewriteDone(x, ks, i, n, os);
        }
      case GcRemoved(n) =>
      case GcRenamed(n) =>
    }
  }

  lemma RewriteNext(ks: seq<Key>, i: nat, os: seq<int>, index: map<Key, int>, m: map<Key, Value>)
    requires Lists(ks, m.Keys) && Rewritten(ks, i, os, index, m) && i < |ks|
    ensures Rewritten(ks, i + 1, os, index[ks[i] := os[i]], m)
  {
    hide Less;
    assert ks[i] in ks;
    forall j | 0 <= j < i
      ensures ks[j] != ks[i]
    {
      LessIrreflexive(ks[j], ks[i]);
    }
  }

  lemma RewriteEnd(ks: seq<Key>, os: seq<int>, index: map<Key, int>, m: map<Key, Value>)
    requires Lists(ks, m.Keys) && Rewritten(ks, |ks|, os, index, m) && os == Offsets(Puts(ks, m))
    ensures index == IndexOf(Puts(ks, m))
  {
    hide Less, EncodeAll, IndexOf;
    var ops := Puts(ks, m);
    forall i, j | 0 <= i < j < |ops|
      ensures ops[i].key != ops[j].key
    {
      LessIrreflexive(ks[i], ks[j]);
    }
    PutsIndex(ops);
    forall k
      ensures k in index <==> k in IndexOf(ops)
      ensures k in index ==> index[k] == IndexOf(ops)[k]
    {
      if k in index {
        var i :| 0 <= i < |ks| && ks[i] == k;
        assert ops[i].key == k;
      }
      if k in IndexOf(ops) {
        var i :| 0 <= i < |ops| && ops[i].key == k;
        assert ks[i] in ks;
      }
    }
  }

  // ----- all threads together -----

  /** A thread that relies on the shared state holds a lock that keeps others from changing it. */
  lemma Undisturbed(x: Shared, x': Shared, p: Pc, q: Pc)
    requires Compatible(p, q) && Compatible(q, p) && PcOk(x, q)
    requires WritesMain(p) || WritesData(p)
    ensures PcOk(x', q) && !Busy(q)
  {
    hide EncodeAll, IndexOf, StoreOf, Good, Reading, Copied, Compacted, Rewritten, Quiet;
  }

  /** Who gets a lock finds index, log and offset in agreement. */
  lemma QuietWhenLocked(s: State, t: nat)
    requires Inv(s) && t < |s.threads|
    ensures CanWriteMain(s.threads) ==> Quiet(s.shared)
    ensures s.threads[t].ReadHalf? && CanReadData(s.threads) ==> Quiet(s.shared)
    ensures s.threads[t].GcGuard? && CanReadMain(s.threads) ==> Quiet(s.shared)
  {
    hide PcOk, Quiet;
    var ps, p := s.threads, s.threads[t];
    assert p in ps;
    if CanWriteMain(ps) || (p.ReadHalf? && CanReadData(ps)) || (p.GcGuard? && CanReadMain(ps)) {
      forall q | q in ps
        ensures !Busy(q)
      {
        var u :| 0 <= u < |ps| && ps[u] == q;
        if u != t {
          WritersAlone(ps, u, t);
        }
      }
    }
  }

  lemma LockLocal(x: Shared, ps: seq<Pc>, p: Pc, p': Pc)
    requires PcOk(x, p) && LockStep(ps, p, p')
    requires CanWriteMain(ps) || (p.ReadHalf? && CanReadData(ps)) ==> Quiet(x)
    ensures PcOk(x, p') && !Busy(p') && !Busy(p)
  {
    hide EncodeAll, IndexOf, StoreOf, Good, Reading, Copied, Quiet, CanWriteMain, CanReadMain, CanReadData,
      CanWriteData, CanCollect;
  }

  lemma StartRewrite(x: Shared, ks: seq<Key>, n: Bytes, os: seq<int>)
    requires x.index.Keys == Abs(x).Keys && Compacted(ks, n, os, Abs(x))
    ensures Rewritten(ks, 0, os, x.index, Abs(x))
  {
    hide EncodeAll, StoreOf, Ascending;
  }

  /** Some step of `p` that changes nothing shared, or changes it under an exclusive lock. */
  lemma NextLocal(s: State, t: nat, ev: Event, s': State)
    requires Inv(s) && Next(s, t, ev, s')
    ensures var p, p' := s.threads[t], s'.threads[t];
            && PcOk(s'.shared, p') && AllGood(s'.shared.history) && MapStep(Abs(s.shared), ev, Abs(s'.shared))
            && (Busy(p') || Quiet(s'.shared) || (s'.shared == s.shared && !Busy(p)))
            && (s'.shared == s.shared || WritesMain(p) || WritesData(p))
  {
    hide PcOk, Quiet, Reading, StoreOf, Good, LockStep, ReadStep, GcReadStep, Exclusive, Delivers;
    var p, p', x, x' := s.threads[t], s'.threads[t], s.shared, s'.shared;
    assert PcOk(x, p);
    if LockStep(s.threads, p, p') && ev == Tau && x' == x {
      QuietWhenLocked(s, t);
      LockLocal(x, s.threads, p, p');
    } else if WriteStep(x, p, ev, x', p') {
      WriteLocal(x, p, ev, x', p');
    } else if ReadStep(x, p, ev, p') && x' == x {
      ReadLocal(x, p, ev, p');
    } else if GcReadStep(x, s.threads, p, p') && ev == Tau && x' == x {
      QuietWhenLocked(s, t);
      QuietWalk(x, s.threads, p, p');
      GcReadLocal(x, s.threads, p, p');
    } else {
      GcWriteLocal(x, p, x', p');
    }
  }

  lemma QuietWalk(x: Shared, ps: seq<Pc>, p: Pc, p': Pc)
    requires PcOk(x, p) && GcReadStep(x, ps, p, p')
    requires p.GcGuard? && CanReadMain(ps) ==> Quiet(x)
    ensures Quiet(x)
  {
    hide Quiet, Copied, CanReadMain, Lists, RecordIs;
  }

  lemma StepMeans(m: map<Key, Value>, ev: Event, m': map<Key, Value>)
    requires MapStep(m, ev, m')
    ensures match ev
            case Tau => m' == m
            case DidPut(k, v) => m' == m[k := v]
            case DidRemove(k, found) => (found <==> k in m) && m' == m - {k}
            case DidRead(q, out) => Delivers(out, m, Wanted(q, m.Keys)) && m' == m
  {
    hide Delivers, Wanted;
  }

  /** Every step keeps the invariant and is a step of the atomic map, or none at all. */
  lemma NextRefines(s: State, t: nat, ev: Event, s': State)
    requires Inv(s) && Next(s, t, ev, s')
    ensures Inv(s') && MapStep(Abs(s.shared), ev, Abs(s'.shared))
    ensures var m, m' := StoreOf(s.shared.history), StoreOf(s'.shared.history);
            match ev
            case Tau => m' == m
            case DidPut(k, v) => m' == m[k := v]
            case DidRemove(k, found) => (found <==> k in m) && m' == m - {k}
            case DidRead(q, out) => Delivers(out, m, Wanted(q, m.Keys)) && m' == m
  {
    NextLocal(s, t, ev, s');
    StepMeans(Abs(s.shared), ev, Abs(s'.shared));
    NextExclusive(s, t, ev, s');
    hide PcOk, Quiet, MapStep, Abs, Next, AllGood, StoreOf, Delivers, Wanted;
    var ps, ps', x, x' := s.threads, s'.threads, s.shared, s'.shared;
    assert ps' == ps[t := ps'[t]] by { NextFrame(s, t, ev, s'); }
    forall u | 0 <= u < |ps'|
      ensures PcOk(x', ps'[u])
      ensures u != t ==> ps'[u] == ps[u]
      ensures x' != x && u != t ==> !Busy(ps'[u])
    {
      if u != t {
        assert ps[u] in ps;
        if x' != x {
          assert Compatible(ps[t], ps[u]) && Compatible(ps[u], ps[t]);
          Undisturbed(x, x', ps[t], ps[u]);
        }
      }
    }
    if forall p | p in ps' :: !Busy(p) {
      assert ps'[t] in ps';
      if x' == x && !Busy(ps[t]) {
        forall p | p in ps
          ensures !Busy(p)
        {
          var u :| 0 <= u < |ps| && ps[u] == p;
          assert u != t ==> ps'[u] == p && ps'[u] in ps';
        }
      }
    }
  }

  lemma NextFrame(s: State, t: nat, ev: Event, s': State)
    requires Next(s, t, ev, s')
    ensures t < |s.threads| == |s'.threads| && s'.threads == s.threads[t := s'.threads[t]]
  {
    hide LockStep, WriteStep, ReadStep, GcReadStep, GcWriteStep;
  }

  // ----- runs -----

  ghost predicate Initial(s: State) {
    && s.shared == Shared(map[], [], 0, [])
    && forall p | p in s.threads :: p == Idle
  }

  /** An execution: state by state, with who moves and what is seen of it. */
  ghost predicate Execution(states: seq<State>, who: seq<nat>, events: seq<Event>) {
    && |states| == |events| + 1 && |who| == |events| && Initial(states[0])
    && forall i :: 0 <= i < |events| ==> Next(states[i], who[i], events[i], states[i + 1])
  }

  function MapAfter(events: seq<Event>): map<Key, Value> {
    if events == [] then map[] else Effect(MapAfter(events[..|events| - 1]), events[|events| - 1])
  }

  /** A sequential history of the atomic map: every event reports what is so when it happens. */
  ghost predicate LegalHistory(events: seq<Event>) {
    forall i :: 0 <= i < |events| ==> Legal(MapAfter(events[..i]), events[i])
  }

  /** In every execution with any number of threads the events, in the order in which they happen,
      are a legal sequential history of the atomic map. */
  lemma {:induction false} Linearizable(states: seq<State>, who: seq<nat>, events: seq<Event>)
    requires Execution(states, who, events)
    ensures Inv(states[|events|]) && LegalHistory(events) && Abs(states[|events|].shared) == MapAfter(events)
    decreases |events|
  {
    hide Inv, Next, Legal, Effect, Abs, Initial;
    var n := |events|;
    if n == 0 {
      InitialOk(states[0]);
    } else {
      var pre := events[..n - 1];
      Linearizable(states[..n], who[..n - 1], pre);
      NextRefines(states[n - 1], who[n - 1], events[n - 1], states[n]);
      forall i | 0 <= i < n
        ensures Legal(MapAfter(events[..i]), events[i])
      {
        if i < n - 1 {
          assert pre[..i] == events[..i] && pre[i] == events[i];
        }
      }
    }
  }

  /** What the answers mean: a removal reports whether the map held the key, a `get` answers the key's
      value in it or nothing, and a `visit` delivers just its pairs from `l` to `u`, ascending. */
  lemma AnswersRight(states: seq<State>, who: seq<nat>, events: seq<Event>, i: nat)
    requires Execution(states, who, events) && i < |events|
    ensures var m := MapAfter(events[..i]);
            match events[i]
            case Tau => true
            case DidPut(_, _) => true
            case DidRemove(k, found) => found <==> k in m
            case DidRead(One(k), out) => out == if k in m then [(k, m[k])] else []
            case DidRead(Between(l, u), out) =>
              && (forall a, b :: 0 <= a < b < |out| ==> Less(out[a].0, out[b].0))
              && (forall k, v :: (k, v) in out <==> k in m && v == m[k] && !Less(k, l) && !Less(u, k))
  {
    hide Inv, Next, Initial, Abs, Less, Delivers, Wanted;
    Linearizable(states, who, events);
    var m := MapAfter(events[..i]);
    assert Legal(m, events[i]);
    if events[i].DidRead? {
      match events[i].query {
        case One(k) => GetDelivers(events[i].out, m, k);
        case Between(l, u) => VisitDelivers(events[i].out, m, l, u);
      }
    }
  }

  /** The map after some events: under `k` it holds what the last put of `k` put there, unless a
      removal of `k` follows. */
  lemma MapAfterMeans(events: seq<Event>, k: Key, v: Value)
    ensures (k in MapAfter(events) && MapAfter(events)[k] == v) <==>
            exists i ::
              && 0 <= i < |events| && events[i] == DidPut(k, v)
              && forall j :: i < j < |events| && (events[j].DidPut? || events[j].DidRemove?) ==> events[j].key != k
  {
    hide MapAfter;
    var n := LastChange(events, k);
    AfterChange(events, n, k);
  }

  lemma {:induction false} LastChange(events: seq<Event>, k: Key) returns (i: int)
    ensures -1 <= i < |events| && (i >= 0 ==> (events[i].DidPut? || events[i].DidRemove?) && events[i].key == k)
    ensures forall j :: i < j < |events| && (events[j].DidPut? || events[j].DidRemove?) ==> events[j].key != k
    decreases |events|
  {
    if events == [] {
      i := -1;
    } else {
      var e := events[|events| - 1];
      if (e.DidPut? || e.DidRemove?) && e.key == k {
        i := |events| - 1;
      } else {
        i := LastChange(events[..|events| - 1], k);
      }
    }
  }

  /** `i` is the last event that changes `k`, or -1. */
  lemma {:induction false} AfterChange(events: seq<Event>, i: int, k: Key)
    requires -1 <= i < |events| && (i >= 0 ==> (events[i].DidPut? || events[i].DidRemove?) && events[i].key == k)
    requires forall j :: i < j < |events| && (events[j].DidPut? || events[j].DidRemove?) ==> events[j].key != k
    ensures k in MapAfter(events) <==> i >= 0 && events[i].DidPut?
    ensures i >= 0 && events[i].DidPut? ==> MapAfter(events)[k] == events[i].value
    decreases |events|
  {
    if i < |events| - 1 {
      AfterChange(events[..|events| - 1], i, k);
    }
  }

  /** An execution may start with any number of idle threads, an empty log and an empty index. */
  lemma ExecutionStarts(n: nat)
    ensures Execution([State(Shared(map[], [], 0, []), seq(n, _ => Idle))], [], [])
  {
  }

  /** An execution goes on with every step of the protocol. */
  lemma ExecutionGrows(states: seq<State>, who: seq<nat>, events: seq<Event>, t: nat, ev: Event, s: State)
    requires Execution(states, who, events) && Next(states[|events|], t, ev, s)
    ensures Execution(states + [s], who + [t], events + [ev])
  {
    hide Next;
    assert forall i :: 0 <= i < |events| ==> (events + [ev])[i] == events[i] && (who + [t])[i] == who[i];
  }

  lemma InitialOk(s: State)
    requires Initial(s)
    ensures Inv(s) && Abs(s.shared) == map[]
  {
    var ps := s.threads;
    forall a | 0 <= a < |ps|
      ensures ps[a] == Idle
    {
      assert ps[a] in ps;
    }
  }

  // ----- one event for each operation -----

  /** The operation that a thread has called. */
  datatype Called = CallPut(key: Key, value: Value) | CallRemove(key: Key) | CallRead(query: Query) | Other

  /** The operation under way whose effect is still to come. */
  function Pending(p: Pc): Called {
    match p
    case PutWait(k, v) => CallPut(k, v)
    case PutBegin(k, v) => CallPut(k, v)
    case PutMid(k, v) => CallPut(k, v)
    case RemoveWait(k) => CallRemove(k)
    case RemoveBegin(k) => CallRemove(k)
    case RemoveMid(k) => CallRemove(k)
    case ReadWait(q) => CallRead(q)
    case ReadHalf(q) => CallRead(q)
    case ReadBegin(q) => CallRead(q)
    case ReadAt(q, _, _) => CallRead(q)
    case ReadOffset(q, _, _, _) => CallRead(q)
    case _ => Other
  }

  predicate Matches(c: Called, ev: Event) {
    match ev
    case Tau => false
    case DidPut(k, v) => c == CallPut(k, v)
    case DidRemove(k, _) => c == CallRemove(k)
    case DidRead(q, _) => c == CallRead(q)
  }

  /** An operation under way stays the same until the one step that completes it: that step shows
      the event of this very operation, no other step of the thread shows any. */
  lemma OneEvent(s: State, t: nat, ev: Event, s': State)
    requires Next(s, t, ev, s')
    ensures var p, p' := s.threads[t], s'.threads[t];
            && (ev == Tau && Pending(p) != Other ==> Pending(p') == Pending(p))
            && (ev != Tau ==> Matches(Pending(p), ev) && Pending(p') == Other && p' != Idle)
            && (ev == Tau && Pending(p) == Other && Pending(p') != Other ==> p == Idle)
  {
    hide Decode, Lists, StoreOf, Puts, Good, RecordIs, CanWriteMain, CanReadMain, CanWriteData, CanReadData, CanCollect;
  }

  /** Thread `t` makes its call at step `i` of an execution, and has not returned before state `j`. */
  ghost predicate UnderWay(states: seq<State>, who: seq<nat>, t: nat, i: nat, j: nat) {
    && i < j < |states| && |who| + 1 == |states| && who[i] == t
    && (forall k :: 0 <= k < |states| ==> t < |states[k].threads|)
    && states[i].threads[t] == Idle
    && forall k :: i < k < j ==> states[k].threads[t] != Idle
  }

  /** Step `m` is the only one of thread `t` from step `i` up to state `k` that shows an event, and
      it shows the one of the operation `c`. */
  ghost predicate OnlyEffect(who: seq<nat>, events: seq<Event>, t: nat, i: nat, k: nat, m: nat, c: Called) {
    && i <= m < k <= |events| == |who| && who[m] == t && Matches(c, events[m])
    && forall l :: i <= l < k && who[l] == t && l != m ==> events[l] == Tau
  }

  ghost predicate NoEffect(who: seq<nat>, events: seq<Event>, t: nat, i: nat, k: nat) {
    && i <= k <= |events| == |who|
    && forall l :: i <= l < k && who[l] == t ==> events[l] == Tau
  }

  /** In every execution, a put, remove, get or visit that was called at step `i` has up to state `j`
      taken effect at exactly one step, with its own arguments, or at none, and it is still to take
      effect exactly in the latter case. A sync or compaction takes effect at no step. */
  lemma EffectSoFar(states: seq<State>, who: seq<nat>, events: seq<Event>, t: nat, i: nat, j: nat)
    requires Execution(states, who, events) && UnderWay(states, who, t, i, j)
    ensures var c, p := Pending(states[i + 1].threads[t]), states[j].threads[t];
            && Pending(p) in {c, Other}
            && if Pending(p) == c then NoEffect(who, events, t, i, j)
               else exists m :: OnlyEffect(who, events, t, i, j, m, c)
  {
    hide Next, Initial, Pending, Matches;
    var c := Pending(states[i + 1].threads[t]);
    PendingFacts(c);
    OneEvent(states[i], t, events[i], states[i + 1]);
    var k, m, found := i + 1, i, false;
    while k < j
      invariant i < k <= j
      invariant if found then c != Other && OnlyEffect(who, events, t, i, k, m, c) else NoEffect(who, events, t, i, k)
      invariant Pending(states[k].threads[t]) == if found then Other else c
      decreases j - k
    {
      NextFrame(states[k], who[k], events[k], states[k + 1]);
      if who[k] == t {
        OneEvent(states[k], t, events[k], states[k + 1]);
        if events[k] != Tau {
          m, found := k, true;
        }
      }
      k := k + 1;
    }
  }

  /** In every execution, an operation that thread `t` called at step `i`, and that has not returned
      before state `j`, has taken effect at one step or at none. */
  lemma EffectAtMostOnce(states: seq<State>, who: seq<nat>, events: seq<Event>, t: nat, i: nat, j: nat, l: nat, m: nat)
    requires Execution(states, who, events) && i < j <= |events|
    requires who[i] == t && t < |states[i].threads| && states[i].threads[t] == Idle
    requires forall k :: i < k < j && t < |states[k].threads| ==> states[k].threads[t] != Idle
    requires i <= l < j && who[l] == t && events[l] != Tau
    requires i <= m < j && who[m] == t && events[m] != Tau
    ensures l == m
  {
    hide Next, Initial, Pending, Matches;
    SameThreads(states, who, events);
    EffectSoFar(states, who, events, t, i, j);
  }

  lemma SameThreads(states: seq<State>, who: seq<nat>, events: seq<Event>)
    requires Execution(states, who, events)
    ensures forall k :: 0 <= k < |states| ==> |states[k].threads| == |states[0].threads|
  {
    hide Next, Initial;
    var k := 0;
    while k < |events|
      invariant k <= |events| && forall l :: 0 <= l <= k ==> |states[l].threads| == |states[0].threads|
    {
      NextFrame(states[k], who[k], events[k], states[k + 1]);
      k := k + 1;
    }
  }

  /** In every execution, between its call at step `i` and its return in state `j`, a put, remove,
      get or visit takes effect at exactly one step, with its own arguments; a sync or compaction
      takes effect at none. */
  lemma EffectBetween(states: seq<State>, who: seq<nat>, events: seq<Event>, t: nat, i: nat, j: nat)
    requires Execution(states, who, events) && i < j <= |events|
    requires who[i] == t && t < |states[i].threads| && states[i].threads[t] == Idle
    requires t < |states[j].threads| && states[j].threads[t] == Idle
    requires forall k :: i < k < j && t < |states[k].threads| ==> states[k].threads[t] != Idle
    ensures t < |states[i + 1].threads|
    ensures var p := states[i + 1].threads[t];
            if p.SyncWait? || p.GcWait? then forall l :: i <= l < j && who[l] == t ==> events[l] == Tau
            else
              exists m ::
                && i <= m < j && who[m] == t
                && (forall l :: i <= l < j && who[l] == t && l != m ==> events[l] == Tau)
                && match p
                   case PutWait(k, v) => events[m] == DidPut(k, v)
                   case RemoveWait(k) => events[m].DidRemove? && events[m].key == k
                   case ReadWait(q) => events[m].DidRead? && events[m].query == q
                   case _ => false
  {
    hide Next, Initial, Pending, Matches;
    SameThreads(states, who, events);
    PendingFacts(Other);
    EffectSoFar(states, who, events, t, i, j);
    CallShows(states[i], t, events[i], states[i + 1]);
    var p := states[i + 1].threads[t];
    var c := Pending(p);
    if c != Other {
      var m: nat :| OnlyEffect(who, events, t, i, j, m, c);
      MatchMeans(p, events[m]);
    }
  }

  /** What a call leads to. */
  lemma CallShows(s: State, t: nat, ev: Event, s': State)
    requires Next(s, t, ev, s') && s.threads[t] == Idle
    ensures var p := s'.threads[t];
            && (p.PutWait? || p.RemoveWait? || p.ReadWait? || p.SyncWait? || p.GcWait?)
            && (Pending(p) == Other <==> p.SyncWait? || p.GcWait?)
  {
    hide Decode, Lists, StoreOf, Puts, Good, RecordIs, CanWriteMain, CanReadMain, CanWriteData, CanReadData, CanCollect;
  }

  lemma MatchMeans(p: Pc, ev: Event)
    requires (p.PutWait? || p.RemoveWait? || p.ReadWait?) && Matches(Pending(p), ev)
    ensures match p
            case PutWait(k, v) => ev == DidPut(k, v)
            case RemoveWait(k) => ev.DidRemove? && ev.key == k
            case ReadWait(q) => ev.DidRead? && ev.query == q
  {
  }

  lemma PendingFacts(c: Called)
    ensures Pending(Idle) == Other && forall ev :: !Matches(Other, ev)
    ensures forall ev | Matches(c, ev) :: ev != Tau
  {
  }

  lemma InvAt(states: seq<State>, who: seq<nat>, events: seq<Event>, k: nat)
    requires Execution(states, who, events) && k <= |events|
    ensures Inv(states[k])
  {
    hide Next, Initial, Inv, LegalHistory;
    Linearizable(states[..k + 1], who[..k], events[..k]);
  }

  /** Mutual exclusion, in every state of every execution: while leaf data is overwritten no other
      thread reads or writes it; only one thread changes the index; only one thread compacts. */
  lemma MutualExclusion(states: seq<State>, who: seq<nat>, events: seq<Event>, i: nat, t: nat, u: nat)
    requires Execution(states, who, events) && i <= |events|
    requires t < |states[i].threads| && u < |states[i].threads| && t != u
    ensures var p, q := states[i].threads[t], states[i].threads[u];
            && (WritesData(p) ==> !ReadsData(q) && !WritesMain(q) && !Collects(q))
            && (WritesMain(p) ==> !WritesMain(q) && !ReadsMain(q))
            && (Collects(p) ==> !Collects(q))
  {
    hide Next, Initial, PcOk, Quiet, LegalHistory;
    InvAt(states, who, events, i);
    WritersAlone(states[i].threads, t, u);
  }

  // ----- the two walks of a compaction -----

  /** In a compaction whose first walk went along `ks`, up to the end of the second walk. */
  ghost predicate Walking(s: State, t: nat, ks: seq<Key>) {
    && t < |s.threads| && Lists(ks, Abs(s.shared).Keys)
    && (s.threads[t].GcWalk? || s.threads[t].GcReady? || s.threads[t].GcRewrite?)
  }

  predicate Walked(p: Pc) {
    p.GcRemoved? || p.GcRenamed? || p.GcEnd? || p.GcLeave? || p.GcLast?
  }

  lemma WalkPhase(s: State, t: nat, ev: Event, s': State)
    requires Next(s, t, ev, s')
    ensures var p, p' := s.threads[t], s'.threads[t];
            && (p.GcWalk? || p.GcReady? || p.GcRewrite? ==> p'.GcWalk? || p'.GcReady? || p'.GcRewrite? || Walked(p'))
            && (Walked(p) ==> Walked(p') || p' == Idle)
  {
    hide Decode, Lists, StoreOf, Puts, Good, RecordIs, CanWriteMain, CanReadMain, CanWriteData, CanReadData, CanCollect;
  }

  /** Only a thread that owns `_mutex` exclusively changes the map. */
  lemma WriterShows(s: State, t: nat, ev: Event, s': State)
    requires Next(s, t, ev, s') && (ev.DidPut? || ev.DidRemove?)
    ensures WritesMain(s.threads[t])
  {
    hide Decode, Lists, StoreOf, Puts, Good, RecordIs, CanWriteMain, CanReadMain, CanWriteData, CanReadData, CanCollect;
  }

  lemma WalkStep(s: State, u: nat, ev: Event, s': State, t: nat, ks: seq<Key>)
    requires Inv(s) && Next(s, u, ev, s') && Walking(s, t, ks)
    ensures Walking(s', t, ks) || Walked(s'.threads[t])
  {
    hide Next, Lists, PcOk, Quiet, Abs, Pending, Matches;
    NextRefines(s, u, ev, s');
    NextFrame(s, u, ev, s');
    if u == t {
      PendingFacts(Pending(s.threads[t]));
      WalksQuietly(s.threads[t]);
      OneEvent(s, t, ev, s');
      WalkPhase(s, t, ev, s');
    } else {
      WritersAlone(s.threads, u, t);
      if ev.DidPut? || ev.DidRemove? {
        WriterShows(s, u, ev, s');
      }
    }
  }

  lemma WalksQuietly(p: Pc)
    requires p.GcWalk? || p.GcReady? || p.GcRewrite?
    ensures Pending(p) == Other && forall ev :: !Matches(Other, ev)
  {
  }

  /** In every execution, the second walk of a compaction goes along the keys of the first, in the
      same order, whatever other threads do between. */
  lemma WalksAgree(states: seq<State>, who: seq<nat>, events: seq<Event>, t: nat, a: nat, b: nat)
    requires Execution(states, who, events) && a <= b <= |events|
    requires forall k :: a <= k <= b ==> t < |states[k].threads| && states[k].threads[t] != Idle
    requires states[a].threads[t].GcWalk? && states[b].threads[t].GcRewrite?
    ensures states[b].threads[t].keys == states[a].threads[t].keys
  {
    hide Next, Initial, PcOk, Quiet, LegalHistory, Lists, Exclusive, Walking;
    var ks := states[a].threads[t].keys;
    InvAt(states, who, events, a);
    WalkStarts(states[a], t);
    var k := a;
    while k < b
      invariant a <= k <= b
      invariant Walking(states[k], t, ks) || Walked(states[k].threads[t])
      decreases b - k
    {
      InvAt(states, who, events, k);
      NextFrame(states[k], who[k], events[k], states[k + 1]);
      if Walking(states[k], t, ks) {
        WalkStep(states[k], who[k], events[k], states[k + 1], t, ks);
      } else if who[k] == t {
        WalkPhase(states[k], t, events[k], states[k + 1]);
      }
      k := k + 1;
    }
    InvAt(states, who, events, b);
    WalkEnds(states[b], t, ks);
  }

  lemma WalkStarts(s: State, t: nat)
    requires Inv(s) && t < |s.threads| && s.threads[t].GcWalk?
    ensures Walking(s, t, s.threads[t].keys)
  {
    hide Lists, Quiet, Exclusive;
    assert PcOk(s.shared, s.threads[t]);
  }

  lemma WalkEnds(s: State, t: nat, ks: seq<Key>)
    requires Inv(s) && Walking(s, t, ks) && s.threads[t].GcRewrite?
    ensures s.threads[t].keys == ks
  {
    hide Lists, Quiet, Exclusive;
    assert PcOk(s.shared, s.threads[t]);
    ListsUnique(ks, s.threads[t].keys, Abs(s.shared).Keys);
  }

  // ----- no deadlock -----

  /** Waiting for `_mutex`, and holding no lock. */
  predicate WantsMain(p: Pc) {
    p.PutWait? || p.RemoveWait? || p.SyncWait? || p.ReadWait?
  }

  /** Waiting for a lock. */
  predicate Waits(p: Pc) {
    WantsMain(p) || p.ReadHalf? || p.GcWait? || p.GcGuard? || p.GcReady?
  }

  /** A thread that does not wait for a lock can always move. */
  lemma Inside(s: State, t: nat) returns (ev: Event, s': State)
    requires Inv(s) && t < |s.threads| && s.threads[t] != Idle && !Waits(s.threads[t])
    ensures Next(s, t, ev, s')
  {
    hide Encode, AllGood, PcOk, Quiet, Exclusive, LockStep, WriteStep, ReadStep, GcReadStep, GcWriteStep;
    var x, p, ps := s.shared, s.threads[t], s.threads;
    assert PcOk(x, p);
    ev := Tau;
    var x', p' := x, p;
    if WritesMain(p) && !p.WriteEnd? {
      ev, x', p' := Write(x, p);
    } else if p.GcRewrite? || p.GcRemoved? || p.GcRenamed? {
      x', p' := Rewrite(x, p);
    } else if p.ReadBegin? || p.ReadAt? || p.ReadOffset? || p.GcWalk? {
      ev, p' := LookUp(x, p, ps);
    } else {
      p' := Release(ps, p);
    }
    s' := State(x', ps[t := p']);
  }

  lemma Write(x: Shared, p: Pc) returns (ev: Event, x': Shared, p': Pc)
    requires WritesMain(p) && !p.WriteEnd?
    ensures WriteStep(x, p, ev, x', p')
  {
    hide Encode;
    ev := Tau;
    match p {
      case PutBegin(k, v) => x', p' := x.(log := x.log + Encode(Put(k, v))), PutMid(k, v);
      case PutMid(k, v) =>
        ev, p' := DidPut(k, v), WriteEnd;
        x' := Shared(x.index[k := x.offset], x.log, x.offset + |Encode(Put(k, v))|, x.history + [Put(k, v)]);
      case RemoveBegin(k) =>
        if k in x.index {
          x', p' := x.(index := x.index - {k}), RemoveMid(k);
        } else {
          ev, x', p' := DidRemove(k, false), x, WriteEnd;
        }
      case RemoveMid(k) =>
        ev, p' := DidRemove(k, true), WriteEnd;
        x' := Shared(x.index, x.log + Encode(Del(k)), x.offset + |Encode(Del(k))|, x.history + [Del(k)]);
    }
  }

  lemma Rewrite(x: Shared, p: Pc) returns (x': Shared, p': Pc)
    requires PcOk(x, p) && (p.GcRewrite? || p.GcRemoved? || p.GcRenamed?)
    ensures GcWriteStep(x, p, x', p')
  {
    hide EncodeAll, IndexOf, StoreOf, Puts, Offsets, Ascending;
    match p {
      case GcRewrite(ks, i, n, os) =>
        if i < |ks| {
          x', p' := x.(index := x.index[ks[i] := os[i]]), GcRewrite(ks, i + 1, n, os);
        } else {
          x', p' := Shared(x.index, [], x.offset, Puts(ks, StoreOf(x.history))), GcRemoved(n);
        }
      case GcRemoved(n) => x', p' := x.(log := n), GcRenamed(n);
      case GcRenamed(n) => x', p' := x.(offset := |n|), GcEnd;
    }
  }

  lemma Release(ps: seq<Pc>, p: Pc) returns (p': Pc)
    requires p.WriteEnd? || p.ReadEnd? || p.ReadLeave? || p.GcEnd? || p.GcLeave? || p.GcLast?
    ensures LockStep(ps, p, p')
  {
    match p {
      case WriteEnd => p' := Idle;
      case ReadEnd => p' := ReadLeave;
      case ReadLeave => p' := Idle;
      case GcEnd => p' := GcLeave;
      case GcLeave => p' := GcLast;
      case GcLast => p' := Idle;
    }
  }

  /** The moves that depend on what the index and the log hold. */
  lemma LookUp(x: Shared, p: Pc, ps: seq<Pc>) returns (ev: Event, p': Pc)
    requires PcOk(x, p) && AllGood(x.history) && (p.ReadBegin? || p.ReadAt? || p.ReadOffset? || p.GcWalk?)
    ensures if p.GcWalk? then ev == Tau && GcReadStep(x, ps, p, p') else ReadStep(x, p, ev, p')
  {
    hide Encode, EncodeAll, IndexOf, StoreOf, Good, Decode, Ascending, Offsets, Puts, KeysOf;
    IndexSound(x.history);
    var m := Abs(x);
    ev := Tau;
    match p {
      case ReadBegin(q) =>
        var todo := ListExists(Wanted(q, x.index.Keys));
        p' := ReadAt(q, todo, []);
      case ReadAt(q, todo, out) =>
        if todo == [] {
          ev, p' := DidRead(q, out), ReadEnd;
        } else {
          assert todo[0] in KeysOf(out) + todo;
          p' := ReadOffset(q, todo, out, x.index[todo[0]]);
        }
      case ReadOffset(q, todo, out, off) =>
        assert PutsAt(x.log, off, todo[0], m[todo[0]]);
        p' := ReadAt(q, todo[1..], out + [(todo[0], m[todo[0]])]);
        assert RecordIs(x.log, off, Put(todo[0], m[todo[0]]));
      case GcWalk(ks, i, n, os) =>
        if i < |ks| {
          assert ks[i] in ks;
          assert PutsAt(x.log, x.index[ks[i]], ks[i], m[ks[i]]);
          var op := Put(ks[i], m[ks[i]]);
          assert RecordIs(x.log, x.index[ks[i]], op);
          p' := GcWalk(ks, i + 1, n + Encode(op), os + [|n|]);
        } else {
          p' := GcReady(n, os + [|n|]);
        }
    }
  }

  /** In every reachable state in which some operation is under way, one of the operations under
      way can move: the locks are always taken in the same order. */
  lemma NoDeadlock(s: State, busy: nat) returns (t: nat, ev: Event, s': State)
    requires Inv(s) && busy < |s.threads| && s.threads[busy] != Idle
    ensures t < |s.threads| && s.threads[t] != Idle && Next(s, t, ev, s')
  {
    hide Next, PcOk, Quiet, AllGood, Lists;
    var ps := s.threads;
    if u :| 0 <= u < |ps| && ps[u] != Idle && !Waits(ps[u]) {
      t := u;
      ev, s' := Inside(s, t);
    } else {
      if u :| 0 <= u < |ps| && (ps[u].ReadHalf? || ps[u].GcReady?) {
        t := u;
      } else if u :| 0 <= u < |ps| && (WantsMain(ps[u]) || ps[u].GcGuard?) {
        t := u;
      } else {
        t := busy;
      }
      forall p | p in ps
        ensures p == Idle || Waits(p)
      {
        var u :| 0 <= u < |ps| && ps[u] == p;
      }
      ev := Tau;
      s' := Acquire(s, t);
    }
  }

  /** All threads wait: `t`, one that waits for the last lock in the order, gets it. */
  lemma Acquire(s: State, t: nat) returns (s': State)
    requires t < |s.threads| && (forall p | p in s.threads :: p == Idle || Waits(p)) && s.threads[t] != Idle
    requires var p := s.threads[t];
             || p.ReadHalf? || p.GcReady?
             || ((forall q | q in s.threads :: !q.ReadHalf? && !q.GcReady?)
                 && (!p.GcWait? || forall q | q in s.threads :: !q.GcGuard?))
    ensures Next(s, t, Tau, s')
  {
    hide Lists, StoreOf, Good, Wanted, WriteStep, ReadStep, GcWriteStep;
    var p := s.threads[t];
    assert p in s.threads;
    var p';
    match p {
      case PutWait(k, v) => p' := PutBegin(k, v);
      case RemoveWait(k) => p' := RemoveBegin(k);
      case SyncWait => p' := WriteEnd;
      case ReadWait(q) => p' := ReadHalf(q);
      case ReadHalf(q) => p' := ReadBegin(q);
      case GcWait => p' := GcGuard;
      case GcReady(n, os) =>
        var ks := ListExists(s.shared.index.Keys);
        p' := GcRewrite(ks, 0, n, os);
      case GcGuard =>
        var ks := ListExists(s.shared.index.Keys);
        p' := GcWalk(ks, 0, [], []);
    }
    s' := State(s.shared, s.threads[t := p']);
  }
}
