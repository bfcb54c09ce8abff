/** The log-structured engine: every write appends a record to the log, and a B+ tree maps each
    live key to the offset of its latest record. */
module Engines {
  import opened Keys
  import opened Shape
  import opened Context
  import opened Contents
  import opened Descents
  import opened LeafMoves
  import opened Relabels
  import opened Walks
  import opened BTrees
  import opened TreeSteps
  import opened Codec
  import opened History
  import opened Compaction
  import opened Ranges
  import opened Runs
  import Protocol
  import Solo

  datatype RetCode = Succ | NotFound | IOError

  /** The number behind a return code. */
  function Number(rc: RetCode): nat {
    match rc
    case Succ => 0
    case NotFound => 1
    case IOError => 5
  }

  /** Replaying `log` stays within what the index can hold. */
  ghost predicate Replayable(log: Bytes) {
    |log| < INT_LIMIT && forall op | op in Parse(log) :: NulFree(op.key)
  }

  /** What was written can be replayed, wherever it is cut off. */
  lemma WrittenReplayable(ops: seq<Op>, n: nat)
    requires forall op | op in ops ::
               && 0 !in op.key && |op.key| < 0x1_0000_0000_0000_0000
               && (op.Put? ==> |op.value| < 0xFFFF_FFFF_FFFF_FFFF)
    requires n <= |EncodeAll(ops)| && n < 0x8000_0000
    ensures Replayable(EncodeAll(ops)[..n])
  {
    hide EncodeAll, Parse, Complete;
    TornTail(ops, n);
  }

  lemma ParsedGood(log: Bytes)
    requires Replayable(log)
    ensures AllGood(Parse(log))
    decreases |log|
  {
    ParsedFit(log);
  }

  lemma {:induction false} ParsedFit(b: Bytes)
    ensures forall op | op in Parse(b) :: Fits(op)
    decreases |b|
  {
    hide Encode, Decode, Fits;
    if Decode(b).Got? {
      DecodedIsEncoded(b);
      ParsedFit(b[|Encode(Decode(b).op)|..]);
    }
  }

  class Engine {
    const btree: BTree
    var logOffset: int
    // the files "log" and "log(1)"; a missing file is an empty one
    var log: Bytes
    var log1: Bytes
    ghost var history: seq<Op>

    /** The index is what replaying the log gives; bytes may follow that replay cannot use. */
    ghost predicate Readable()
      reads this, btree, btree.live
    {
      && btree.Valid()
      && AllGood(history)
      && EncodeAll(history) <= log && |log| < INT_LIMIT
      && logOffset == |EncodeAll(history)|
      && btree.Map() == IndexOf(history)
    }

    /** As `Readable`, and appends go where the index says: no bytes follow. */
    ghost predicate Valid()
      reads this, btree, btree.live
    {
      Readable() && log == EncodeAll(history)
    }

    /** The plain map that the engine stands for. */
    ghost function Store(): (m: map<Key, Value>)
      reads this
      ensures m == StoreOf(history)
    {
      StoreOf(history)
    }

    /** The log file, and the operations that the index stands for. */
    ghost function OnDisk(): (d: Disk)
      reads this
      ensures d.log == log && d.ops == history
    {
      Disk(log, history)
    }

    /** What the lock protocol's threads share. */
    ghost function View(): (x: Protocol.Shared)
      reads this, btree, btree.live
      requires btree.Valid()
      ensures x.index == btree.Map() && x.log == log && x.offset == logOffset && x.history == history
    {
      Protocol.Shared(btree.Map(), log, logOffset, history)
    }

    /** Starts on the files found in the directory: a log that is there is replayed. The engine
        answers reads from then on, and is ready for writes exactly if that log is not torn. */
    constructor (log: Bytes, log1: Bytes)
      requires Replayable(log)
      ensures this.log == log && this.log1 == log1 && history == Parse(log)
      ensures Readable() && fresh(btree) && fresh(btree.live)
      ensures Valid() <==> EncodeAll(Parse(log)) == log
      ensures forall ops :: Step(Disk(log, ops), DoReopen, OnDisk())
      ensures forall d: Disk, n: nat | n <= |d.log| && d.log[..n] == log :: Step(d, DoCrash(n), OnDisk())
      ensures AppendsLand(log, logOffset) <==> EncodeAll(Parse(log)) == log
      ensures Sound(OnDisk())
    {
      btree := new BTree();
      logOffset := 0;
      this.log, this.log1 := log, log1;
      history := [];
      hide BTree.Valid, BTree.Map, EncodeAll, Parse, IndexOf, MapOf, Good;
      new;
      RebuildBtree();
      ParsedGood(log);
      ParsedPrefix(log);
      AppendAfterRecovery(log);
    }

    /** Replays the log from its start up to the first record that is not complete. */
    method RebuildBtree()
      requires Replayable(log) && logOffset == 0 && btree.Valid() && btree.Map() == map[]
      modifies this`logOffset, this`history, btree, btree.live
      ensures btree.Valid() && fresh(btree.live - old(btree.live))
      ensures history == Parse(log) && btree.Map() == IndexOf(history) && logOffset == |EncodeAll(history)|
    {
      hide BTree.Valid, Encode, EncodeAll, Decode, Parse, NulFree, MapOf, StoreOf, IndexOf, Reports, BTree.Map,
        Replayable, Reader.Rest;
      history := [];
      NoHistory();
      var r := new Reader(log);
      var ret, key, value := ReadKeyValue(r);
      assert log[0..] == log;
      while ret != -1
        invariant btree.Valid() && btree.Map() == IndexOf(history) && fresh(btree.live - old(btree.live))
        invariant 0 <= logOffset == |EncodeAll(history)| <= |log|
        invariant Parse(log) == history + Parse(log[logOffset..])
        invariant r.file == log && Reports(log[logOffset..], ret, key, value, r.Rest())
        decreases |log| - logOffset
      {
        ghost var op := if ret == 0 then Del(key) else Op.Put(key, value);
        ReportedNext(log, history, logOffset, ret, key, value, r.Rest(), op);
        Redo(ret, key, value, op);
        ret, key, value := ReadKeyValue(r);
      }
      NothingReported(log[logOffset..], ret, key, value, r.Rest());
    }

    /** The index after one more record of the replay. */
    method Redo(ret: int, key: Key, value: Value, ghost op: Op)
      requires btree.Valid() && btree.Map() == IndexOf(history)
        && 0 <= logOffset == |EncodeAll(history)| < INT_LIMIT && NulFree(key)
      requires op == if ret == 0 then Del(key) else Op.Put(key, value)
      requires |Encode(op)| == 16 + |key| + if ret == 0 then 0 else |value|
      modifies this`logOffset, this`history, btree, btree.live
      ensures btree.Valid() && btree.Map() == IndexOf(history) && fresh(btree.live - old(btree.live))
      ensures history == old(history) + [op] && logOffset == |EncodeAll(history)|
    {
      hide BTree.Valid, Encode, EncodeAll, NulFree, MapOf, IndexOf, BTree.Map;
      MeaningNext(history, op);
      if ret == 0 {
        var _ := btree.Remove(key);
        logOffset := logOffset + (16 + |key|);
      } else {
        var _ := btree.Insert(key, logOffset);
        logOffset := logOffset + (16 + |key| + |value|);
      }
      history := history + [op];
    }

    /** Appends `line` to the log file, wherever that file ends. */
    method Append(line: Bytes)
      modifies this`log
      ensures log == old(log) + line
    {
      var w := new Writer(log);
      LogLine(w, line);
      log := w.content;
    }

    /** One record at the end of the file, indexed at the append offset. On a valid engine that is
        the plain map's update; a torn log stays torn, and the offset is not where the record is. */
    method Put(key: Key, value: Value) returns (rc: RetCode)
      requires Readable() && NulFree(key) && |log| + 16 + |key| + |value| < INT_LIMIT
      modifies this`logOffset, this`log, this`history, btree, btree.live
      ensures rc == Succ && btree.Valid() && fresh(btree.live - old(btree.live))
      ensures history == old(history) + [Op.Put(key, value)] && Store() == old(Store())[key := value]
      ensures log == old(log) + Encode(Op.Put(key, value)) && |log| == |old(log)| + 16 + |key| + |value|
      ensures btree.Map() == old(btree.Map())[key := old(logOffset)] && logOffset == |EncodeAll(history)|
      ensures Valid() <==> old(Valid())
      ensures old(Valid()) ==> Step(old(OnDisk()), DoPut(key, value), OnDisk())
      ensures Solo.Does(old(View()), Protocol.PutWait(key, value), [Protocol.DidPut(key, value)], View())
    {
      hide BTree.Valid, BTree.Map, Encode, EncodeAll, NulFree, StoreOf, IndexOf, MapOf;
      var line := ToBytes(|key|, 8);
      line := line + ToBytes(|value|, 8);
      line := line + key;
      line := line + value;
      ghost var op := Op.Put(key, value);
      EncodedPut(op);
      MeaningNext(history, op);
      Append(line);
      var _ := btree.Insert(key, logOffset);
      logOffset := logOffset + |line|;
      history := history + [op];
      rc := Succ;
      Solo.PutAlone(old(View()), key, value, [Protocol.DidPut(key, value)], View());
    }

    /** A key that is not there is reported, and nothing is written. */
    method Remove(key: Key) returns (rc: RetCode)
      requires Readable() && |log| + 16 + |key| < INT_LIMIT
      modifies this`logOffset, this`log, this`history, btree, btree.live
      ensures rc == (if key in old(Store()) then Succ else NotFound) && Store() == old(Store()) - {key}
      ensures btree.Valid() && btree.Map() == old(btree.Map()) - {key} && btree.live <= old(btree.live)
      ensures if rc == Succ then history == old(history) + [Del(key)] && log == old(log) + Encode(Del(key))
              else history == old(history) && log == old(log) && Readable()
      ensures |log| <= |old(log)| + 16 + |key|
      ensures Valid() <==> old(Valid())
      ensures old(Valid()) || rc == NotFound ==> Step(old(OnDisk()), DoRemove(key), OnDisk())
      ensures Solo.Does(old(View()), Protocol.RemoveWait(key), [Protocol.DidRemove(key, rc == Succ)], View())
    {
      hide BTree.Valid, BTree.Map, Encode, EncodeAll, NulFree, StoreOf, IndexOf, MapOf, PutsAt, Fits,
        Solo.Does, BTree.Contents;
      var line := ToBytes(|key|, 8);
      line := line + ToBytes(TOMBSTONE, 8);
      line := line + key;
      IndexedIn(log, history);
      StoreIsGood(history);
      var found := btree.Remove(key);
      if found == 0 {
        rc := NotFound;
      } else {
        ghost var op := Del(key);
        EncodedDel(op);
        GoodDel(key, Store()[key]);
        MeaningNext(history, op);
        Append(line);
        logOffset := logOffset + |line|;
        history := history + [op];
        rc := Succ;
      }
      Solo.RemoveAlone(old(View()), key, [Protocol.DidRemove(key, rc == Succ)], View());
    }

    /** The record read is always a put: the code's fatal error cannot occur. The caller's string
        is left as it was if the key is not found. */
    method Get(key: Key, before: Value) returns (rc: RetCode, value: Value)
      requires Readable()
      ensures if key in Store() then rc == Succ && value == Store()[key] else rc == NotFound && value == before
      ensures Solo.Does(View(), Protocol.ReadWait(Protocol.One(key)),
                        [Protocol.DidRead(Protocol.One(key), if rc == Succ then [(key, value)] else [])], View())
    {
      hide BTree.Valid, BTree.Map, Encode, EncodeAll, NulFree, StoreOf, IndexOf, MapOf, Decode;
      IndexedIn(log, history);
      value := before;
      var index := btree.Search(key);
      if index == -1 {
        rc := NotFound;
      } else {
        var r := new Reader(log);
        r.Seek(index);
        assert PutsAt(log, index, key, Store()[key]);
        var ret, tmp;
        ret, tmp, value := ReadKeyValue(r);
        assert ret == 1 && tmp == key;
        rc := Succ;
      }
      ReadableLooks();
      Solo.GetAlone(View(), Store(), key,
        [Protocol.DidRead(Protocol.One(key), if rc == Succ then [(key, value)] else [])], View());
    }

    /** `works` tells whether `fsync` succeeds. */
    method Sync(works: bool) returns (rc: RetCode)
      ensures rc == if works then Succ else IOError
    {
      if works {
        rc := Succ;
      } else {
        rc := IOError;
      }
    }

    /** The entries of the tree, in chain order, index the store. */
    lemma ReadableIndexed()
      requires Readable()
      ensures Indexed(log, btree.Contents(), Store()) && |btree.Contents()| == btree.size
    {
      hide BTree.Valid, EncodeAll, NulFree, StoreOf, IndexOf, MapOf, PutsAt, Less, DistinctKeys, Within, Fits;
      btree.Walkable();
      btree.ValidDistinct();
      IndexedIn(log, history);
      var es := btree.Contents();
      forall i | 0 <= i < |es|
        ensures es[i].0 in IndexOf(history) && IndexOf(history)[es[i].0] == es[i].1
      {
        RemoveFromMap(es, i);
      }
      forall k | k in Store()
        ensures exists i :: 0 <= i < |es| && es[i].0 == k
      {
        MapOfKeys(es, k);
        var e :| e in es && e.0 == k;
      }
    }

    /** The first leaf and slot of a scan: entry `p` is the first one not below `lower`. */
    method FindStart(lower: Key) returns (v: BNode, idx: nat, ghost prev: BNode?, ghost rest: seq<BNode>,
        ghost base: nat)
      requires btree.Valid()
      ensures Walk(prev, v, rest, btree.Contents(), base) && forall n | n in rest :: n in btree.live
      ensures idx <= |v.key| && base + idx <= |btree.Contents()|
      ensures forall i :: 0 <= i < base + idx ==> Less(btree.Contents()[i].0, lower)
      ensures forall i :: base + idx <= i < |btree.Contents()| ==> !Less(btree.Contents()[i].0, lower)
    {
      hide BTree.Valid, BTree.Located, BTree.LeavesIn, Less, Held, Entries, Chain, Leaves, Distinct, LeafNodes,
        EntriesBefore, LeavesBefore, LeavesAfter, Walk;
      ghost var c, x;
      var find, hotIdx;
      find, v, hotIdx, c, x := btree.SearchPath(lower);
      idx := hotIdx[|hotIdx| - 1];
      btree.Position(lower, v, hotIdx, find, c, x);
      btree.Walkable();
      rest, base := [v] + LeavesAfter(c), |EntriesBefore(c)|;
      prev := Final(null, LeavesBefore(c));
      WalkFrom(LeavesBefore(c), rest, btree.Contents());
      btree.RestIsLive(LeavesBefore(c), rest);
    }

    /** Calls the visitor on the stored keys from `lower` up to and including `upper`. */
    method Visit(lower: Key, upper: Key) returns (out: seq<Item>)
      requires Readable()
      ensures Delivers(out, Store(), CodedRange(Store(), lower, upper))
      ensures forall i, j :: 0 <= i < j < |out| ==> Less(out[i].0, out[j].0)
      ensures forall k, v :: (k, v) in out <==> k in Store() && v == Store()[k] && !Less(k, lower) && !Less(upper, k)
      ensures Solo.Does(View(), Protocol.ReadWait(Protocol.Between(lower, upper)),
                        [Protocol.DidRead(Protocol.Between(lower, upper), out)], View())
    {
      hide BTree.Valid, BTree.Map, Encode, EncodeAll, StoreOf, IndexOf, Decode, Less, Entries, Indexed, Delivers,
        Scanned, CodedRange, Walk, AllGood, First, Linked, Held, LeafNodes, BTree.Contents, Reader.Rest, Chain, Leaves,
        Solo.Does;
      out := [];
      var r := new Reader(log);
      ghost var prev: BNode?, rest: seq<BNode>, base: nat;
      var v: BNode?, idx: nat;
      v, idx, prev, rest, base := FindStart(lower);
      ReadableIndexed();
      ghost var es, m, p := btree.Contents(), Store(), base + idx;
      NothingScanned(es, m, p, upper);
      var end := false;
      while v != null
        invariant Walk(prev, v, rest, es, base) && forall n | n in rest :: n in btree.live
        invariant if v != null then idx <= |v.key| else idx == 0
        invariant Scanned(out, es, m, p, base + idx, upper)
        invariant r.file == log && !end
        decreases |rest|
      {
        WalkNext(prev, v, rest, es, base);
        end, idx, out := ScanLeaf(v, idx, upper, r, out, es, m, base, p);
        if end {
          break;
        }
        prev, rest, base := v, rest[1..], base + |v.key|;
        v := v.next;
        idx := 0;
      }
      if v == null {
        WalkEnd(prev, rest, es, base);
      }
      ScanDelivers(out, log, es, m, p, base + idx, lower, upper);
      VisitMeans(out, lower, upper);
    }

    /** What a scan has delivered, pair by pair, and that the lock protocol's does the same. */
    lemma VisitMeans(out: seq<Item>, lower: Key, upper: Key)
      requires Readable() && Delivers(out, Store(), CodedRange(Store(), lower, upper))
      ensures forall i, j :: 0 <= i < j < |out| ==> Less(out[i].0, out[j].0)
      ensures forall k, v :: (k, v) in out <==> k in Store() && v == Store()[k] && !Less(k, lower) && !Less(upper, k)
      ensures Solo.Does(View(), Protocol.ReadWait(Protocol.Between(lower, upper)),
                        [Protocol.DidRead(Protocol.Between(lower, upper), out)], View())
    {
      hide BTree.Valid, BTree.Map, EncodeAll, StoreOf, IndexOf, Less, Delivers, CodedRange, PutsAt, Solo.Does, AllGood;
      CodedKeys(Store(), lower, upper);
      DeliversMeans(out, Store(), CodedRange(Store(), lower, upper));
      ReadableLooks();
      Solo.VisitAlone(View(), Store(), lower, upper, [Protocol.DidRead(Protocol.Between(lower, upper), out)], View());
    }

    /** The index and the log are as readers need them. */
    lemma ReadableLooks()
      requires Readable()
      ensures Solo.Looks(View(), Store())
    {
      hide BTree.Valid, BTree.Map, EncodeAll, StoreOf, IndexOf, Decode;
      IndexedIn(log, history);
    }

    /** The part of the scan within one leaf. */
    method ScanLeaf(v: BNode, start: nat, upper: Key, r: Reader, done: seq<Item>, ghost es: seq<Entry>,
        ghost m: map<Key, Value>, ghost base: nat, ghost p: nat)
      returns (end: bool, idx: nat, out: seq<Item>)
      requires start <= |v.key| == |v.data| && r.file == log && Indexed(log, es, m)
      requires base + |v.key| <= |es| && forall i :: 0 <= i < |v.key| ==> es[base + i] == (v.key[i], v.data[i])
      requires Scanned(done, es, m, p, base + start, upper)
      modifies r`pos
      ensures idx <= |v.key| && Scanned(out, es, m, p, base + idx, upper)
      ensures if end then base + idx < |es| && Less(upper, es[base + idx].0) else idx == |v.key|
    {
      hide Encode, EncodeAll, Decode, Less, Scanned;
      end, idx, out := false, start, done;
      while idx < |v.key|
        invariant start <= idx <= |v.key| && !end
        invariant Scanned(out, es, m, p, base + idx, upper)
      {
        if Less(upper, v.key[idx]) {
          end := true;
          return;
        }
        assert es[base + idx] == (v.key[idx], v.data[idx]);
        assert PutsAt(log, es[base + idx].1, es[base + idx].0, m[es[base + idx].0]);
        r.Seek(v.data[idx]);
        var ret, key, value := ReadKeyValue(r);
        assert ret == 1;
        ScannedNext(out, es, m, p, base + idx, upper);
        out := out + [(key, value)];
        idx := idx + 1;
      }
    }

    /** Copies the record at `at` to the new log. */
    method CopyRecord(at: int, r: Reader, w: Writer, ghost op: Op) returns (n: nat)
      requires r.file == log && 0 <= at <= |log| <= TOMBSTONE && Decode(log[at..]) == Got(op)
      modifies r`pos, w`content
      ensures w.content == old(w.content) + Encode(op) && n == |Encode(op)|
    {
      hide Encode, Decode;
      r.Seek(at);
      var line := ReadLine(r);
      LogLine(w, line);
      n := |line|;
    }

    /** The first walk of the compaction: copies the records of one leaf to the new log and notes
        where they go. */
    method CopyLeaf(v: BNode, r: Reader, w: Writer, sofar: seq<int>, start: int, ghost es: seq<Entry>,
        ghost ops: seq<Op>, ghost base: nat)
      returns (offsets: seq<int>, off: int)
      requires |v.key| == |v.data| && r.file == log && |log| <= TOMBSTONE && |ops| == |es| && Recorded(log, es, ops)
      requires base + |v.key| <= |es| && forall i :: 0 <= i < |v.key| ==> es[base + i] == (v.key[i], v.data[i])
      requires w.content == log1 + EncodeAll(ops[..base]) && sofar == Offsets(ops)[..base]
        && start == |EncodeAll(ops[..base])|
      modifies r`pos, w`content
      ensures w.content == log1 + EncodeAll(ops[..base + |v.key|])
      ensures offsets == Offsets(ops)[..base + |v.key|] && off == |EncodeAll(ops[..base + |v.key|])|
    {
      hide Encode, EncodeAll, Decode, Offsets, Recorded;
      offsets, off := sofar, start;
      for i := 0 to |v.key|
        invariant w.content == log1 + EncodeAll(ops[..base + i])
        invariant offsets == Offsets(ops)[..base + i] && off == |EncodeAll(ops[..base + i])|
      {
        assert es[base + i] == (v.key[i], v.data[i]);
        RecordAt(log, es, ops, base + i);
        OffsetNext(ops, base + i);
        offsets := offsets + [off];
        var n := CopyRecord(v.data[i], r, w, ops[base + i]);
        off := off + n;
      }
    }

    /** The first walk: the new log's contents, where its records start, and where it ends. */
    method CopyLive(first: BNode, ghost es: seq<Entry>, ghost ops: seq<Op>) returns (content: Bytes, offsets: seq<int>)
      requires btree.Valid() && Leaves(btree.shape) != [] && first == Leaves(btree.shape)[0]
      requires es == btree.Contents() && Recorded(log, es, ops) && |ops| == |es| && |log| <= TOMBSTONE
      ensures content == log1 + EncodeAll(ops) && offsets == Offsets(ops)
    {
      hide BTree.Valid, BTree.LeavesIn, Encode, EncodeAll, Decode, Less, Held, Entries, Chain, Leaves, Distinct,
        LeafNodes, Offsets, Recorded, Walk;
      var r := new Reader(log);
      var w := new Writer(log1);
      btree.Walkable();
      ghost var rest: seq<BNode> := Leaves(btree.shape);
      ghost var base: nat := 0;
      assert [] + rest == rest;
      WalkFrom([], rest, es);
      HeldNothing();
      StartOfCopy(ops);
      btree.RestIsLive([], rest);
      ghost var prev: BNode? := null;
      var v: BNode? := first;
      var off := 0;
      offsets := [];
      while v != null
        invariant Walk(prev, v, rest, es, base) && forall n | n in rest :: n in btree.live
        invariant r.file == log && base <= |es| && offsets == Offsets(ops)[..base]
        invariant w.content == log1 + EncodeAll(ops[..base]) && off == |EncodeAll(ops[..base])|
        decreases |rest|
      {
        WalkNext(prev, v, rest, es, base);
        offsets, off := CopyLeaf(v, r, w, offsets, off, es, ops, base);
        prev, rest, base := v, rest[1..], base + |v.key|;
        v := v.next;
      }
      WalkEnd(prev, rest, es, base);
      assert ops[..base] == ops;
      EndOfCopy(ops);
      offsets := offsets + [off];
      content := w.content;
    }

    /** Compaction: a new log with the records of the live keys, in chain order, replaces the old
        one, and the leaves get the new offsets. A torn end of the old log is gone with it. The
        offsets count from 0, so the engine is ready for use, writes included, exactly if no file
        "log(1)" was left over. Otherwise some appends miss, and reads do unless the log starts with
        the compacted records all the same. */
    method Gc()
      requires Readable()
      modifies this`logOffset, this`log, this`log1, this`history, btree, btree.live
      ensures IsCompact(history, old(Store())) && Store() == old(Store())
      ensures log == old(log1) + EncodeAll(history) && log1 == [] && logOffset == |EncodeAll(history)|
      ensures btree.Valid() && btree.Map() == IndexOf(history)
      ensures |EncodeAll(history)| <= |old(log)|
      ensures Valid() <==> old(log1) == []
      ensures AppendsLand(log, logOffset) <==> old(log1) == []
      ensures ReadsLand(log, btree.Map(), Store()) <==> EncodeAll(history) <= log
      ensures Readable() <==> EncodeAll(history) <= log && |log| < INT_LIMIT
      ensures old(log1) == [] ==> Step(old(OnDisk()), DoGc, OnDisk())
      ensures old(IsCompact(history, Store())) ==> history == old(history) && btree.Map() == old(btree.Map())
      ensures btree.live == old(btree.live)
      ensures old(Valid()) && old(log1) == [] ==> Solo.Does(old(View()), Protocol.GcWait, [], View())
    {
      hide BTree.Valid, BTree.LeavesIn, Encode, EncodeAll, NulFree, StoreOf, IndexOf, MapOf, Decode, Less, Entries,
        Leaves, Distinct, Indexed, DistinctKeys, Offsets, Recorded, IsCompact, Puts, Good, Held, Chain, LeafNodes,
        Within, Solo.Does, AppendsLand, ReadsLand, BTree.Contents;
      var first := btree.FirstLeaf();
      btree.ValidDistinct();
      ReadableIndexed();
      ghost var es, m := btree.Contents(), Store();
      ghost var ops := CompactOps(log, es, m, history);
      var content, offsets := CopyLive(first, es, ops);
      OffsetsFit(ops, history, m);
      btree.AssignData(first, offsets);
      CompactIndex(log, es, ops, m, offsets);
      CompactStore(ops, m);
      if IsCompact(history, m) {
        CompactUnique(ops, history, m);
      }
      log, log1 := content, [];
      logOffset := offsets[|offsets| - 1];
      history := ops;
      Prefixed(old(log1), EncodeAll(ops), |EncodeAll(ops)|);
      AfterStaleCompaction(old(log1), ops, m);
      if old(Valid()) && old(log1) == [] {
        Solo.GcAlone(old(View()), [], View());
      }
    }
  }

  /** Operation `i` is the record that entry `i` points at. */
  ghost predicate Recorded(log: Bytes, es: seq<Entry>, ops: seq<Op>) {
    && |ops| == |es|
    && forall i :: 0 <= i < |es| ==>
         ops[i].Put? && PutsAt(log, es[i].1, ops[i].key, ops[i].value) && ops[i].key == es[i].0
  }

  lemma RecordAt(log: Bytes, es: seq<Entry>, ops: seq<Op>, i: nat)
    requires Recorded(log, es, ops) && i < |es|
    ensures 0 <= es[i].1 <= |log| && Decode(log[es[i].1..]) == Got(ops[i])
  {
    hide Decode;
  }

  lemma OffsetNext(ops: seq<Op>, i: nat)
    requires i < |ops|
    ensures EncodeAll(ops[..i + 1]) == EncodeAll(ops[..i]) + Encode(ops[i])
    ensures Offsets(ops)[..i + 1] == Offsets(ops)[..i] + [|EncodeAll(ops[..i])|]
  {
    hide Encode;
    assert ops[..i + 1] == ops[..i] + [ops[i]];
    MeaningNext(ops[..i], ops[i]);
  }

  /** What compaction writes. */
  lemma CompactOps(log: Bytes, es: seq<Entry>, m: map<Key, Value>, history: seq<Op>) returns (ops: seq<Op>)
    requires Indexed(log, es, m) && m == StoreOf(history) && AllGood(history)
    ensures IsCompact(ops, m) && AllGood(ops) && Recorded(log, es, ops) && |ops| == |es|
  {
    hide Decode, Less, StoreOf, Good, Indexed, Recorded;
    var ks := seq(|es|, i requires 0 <= i < |es| => es[i].0);
    KeysListed(log, es, m, ks);
    ops := Puts(ks, m);
    RecordedPuts(log, es, m, ks, ops);
    CompactIsGood(ops, history);
  }

  lemma KeysListed(log: Bytes, es: seq<Entry>, m: map<Key, Value>, ks: seq<Key>)
    requires Indexed(log, es, m) && |ks| == |es| && forall i :: 0 <= i < |es| ==> ks[i] == es[i].0
    ensures Lists(ks, m.Keys)
  {
    hide Less, PutsAt;
    forall k | k in ks
      ensures k in m
    {
      var i :| 0 <= i < |ks| && ks[i] == k;
      assert es[i].0 == k;
    }
    forall k | k in m
      ensures k in ks
    {
      var i :| 0 <= i < |es| && es[i].0 == k;
      assert ks[i] == k;
    }
  }

  lemma RecordedPuts(log: Bytes, es: seq<Entry>, m: map<Key, Value>, ks: seq<Key>, ops: seq<Op>)
    requires Indexed(log, es, m) && |ks| == |es| && (forall i :: 0 <= i < |es| ==> ks[i] == es[i].0)
    requires |ops| == |ks| && forall i :: 0 <= i < |ks| ==> ks[i] in m && ops[i] == Op.Put(ks[i], m[ks[i]])
    ensures Recorded(log, es, ops)
  {
    hide Less, PutsAt;
  }

  lemma StartOfCopy(ops: seq<Op>)
    ensures EncodeAll(ops[..0]) == [] && Offsets(ops)[..0] == []
  {
  }

  lemma EndOfCopy(ops: seq<Op>)
    ensures Offsets(ops) == Offsets(ops)[..|ops|] + [|EncodeAll(ops)|]
  {
    hide EncodeAll;
    assert ops[..|ops|] == ops;
  }

  lemma Prefixed(a: Bytes, b: Bytes, n: nat)
    requires n == |b|
    ensures a + b == b && n == |a + b| <==> a == []
  {
  }

  lemma OffsetsFit(ops: seq<Op>, history: seq<Op>, m: map<Key, Value>)
    requires m == StoreOf(history) && IsCompact(ops, m) && |EncodeAll(history)| < INT_LIMIT
    ensures |EncodeAll(ops)| <= |EncodeAll(history)| && |Offsets(ops)| == |ops| + 1
      && Offsets(ops)[|ops|] == |EncodeAll(ops)|
    ensures forall d | d in Offsets(ops) :: 0 <= d < INT_LIMIT
  {
    hide EncodeAll, IsCompact, StoreOf;
    CompactNoLonger(ops, history);
    assert ops[..|ops|] == ops;
    forall d | d in Offsets(ops)
      ensures 0 <= d < INT_LIMIT
    {
      var i :| 0 <= i <= |ops| && Offsets(ops)[i] == d;
      PrefixShorter(ops, i);
    }
  }

  lemma PrefixShorter(ops: seq<Op>, i: nat)
    requires i <= |ops|
    ensures |EncodeAll(ops[..i])| <= |EncodeAll(ops)|
  {
    hide EncodeAll;
    assert ops == ops[..i] + ops[i..];
    EncodeConcat(ops[..i], ops[i..]);
  }

  /** The entries with their new offsets are the index of the compacted log. */
  lemma CompactIndex(log: Bytes, es: seq<Entry>, ops: seq<Op>, m: map<Key, Value>, offsets: seq<int>)
    requires Recorded(log, es, ops) && DistinctKeys(es) && offsets == Offsets(ops)
    ensures MapOf(Paired(es, offsets)) == IndexOf(ops)
  {
    hide Encode, EncodeAll, MapOf, IndexOf, PutsAt;
    PutsIndex(ops);
    var ps := Paired(es, offsets);
    assert DistinctKeys(ps);
    forall k
      ensures k in MapOf(ps) <==> k in IndexOf(ops)
      ensures k in MapOf(ps) ==> MapOf(ps)[k] == IndexOf(ops)[k]
    {
      MapOfKeys(ps, k);
      if k in MapOf(ps) {
        var e :| e in ps && e.0 == k;
        var i :| 0 <= i < |ps| && ps[i] == e;
        RemoveFromMap(ps, i);
        assert ops[i].key == k;
      }
      if k in IndexOf(ops) {
        var i :| 0 <= i < |ops| && ops[i].key == k;
        assert ps[i] in ps && ps[i].0 == k;
      }
    }
  }

  lemma EncodedPut(op: Op)
    requires op.Put? && NulFree(op.key) && |op.key| + |op.value| < INT_LIMIT
    ensures ToBytes(|op.key|, 8) + ToBytes(|op.value|, 8) + op.key + op.value == Encode(op) && Good(op)
    ensures |Encode(op)| == 16 + |op.key| + |op.value|
  {
  }

  lemma EncodedDel(op: Op)
    requires op.Del?
    ensures ToBytes(|op.key|, 8) + ToBytes(TOMBSTONE, 8) + op.key == Encode(op)
    ensures |Encode(op)| == 16 + |op.key|
  {
  }

  lemma GoodDel(key: Key, value: Value)
    requires Good(Op.Put(key, value))
    ensures Good(Del(key))
  {
  }

  lemma NoHistory()
    ensures EncodeAll([]) == [] && IndexOf([]) == map[]
  {
  }

  /** One record further in the replay. */
  lemma ReportedNext(log: Bytes, done: seq<Op>, at: nat, ret: int, key: Key, value: Value, rest: Bytes, op: Op)
    requires at <= |log| && Reports(log[at..], ret, key, value, rest) && ret != -1 && Replayable(log)
    requires at == |EncodeAll(done)| && Parse(log) == done + Parse(log[at..])
    requires op == if ret == 0 then Del(key) else Op.Put(key, value)
    ensures var n := at + |Encode(op)|;
            && at < n <= |log| && n == |EncodeAll(done + [op])|
            && Parse(log) == done + [op] + Parse(log[n..]) && rest == log[n..]
    ensures NulFree(key) && |Encode(op)| == 16 + |key| + |value| && |log| < INT_LIMIT
  {
    hide NulFree, EncodeAll, Encode, Decode, Parse, Reports;
    var b := log[at..];
    var n := at + |Encode(op)|;
    ReportedOp(b, ret, key, value, rest, op);
    assert b[|Encode(op)|..] == log[n..];
    assert Parse(log) == done + [op] + Parse(log[n..]);
    assert op in Parse(log) by {
      assert op in done + [op] + Parse(log[n..]);
    }
    MeaningNext(done, op);
  }

  lemma ReportedOp(b: Bytes, ret: int, key: Key, value: Value, rest: Bytes, op: Op)
    requires Reports(b, ret, key, value, rest) && ret != -1
    requires op == if ret == 0 then Del(key) else Op.Put(key, value)
    ensures Decode(b) == Got(op) && |Encode(op)| == 16 + |key| + |value| <= |b|
    ensures rest == b[|Encode(op)|..] && Parse(b) == [op] + Parse(b[|Encode(op)|..])
  {
    hide Decode, Encode;
  }

  lemma NothingReported(b: Bytes, ret: int, key: Key, value: Value, rest: Bytes)
    requires Reports(b, ret, key, value, rest) && ret == -1
    ensures Parse(b) == []
  {
  }
}
