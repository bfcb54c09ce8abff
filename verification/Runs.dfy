/** Whole runs of the engine against a plain map, and appending to a torn log. */
module Runs {
  import opened Keys
  import opened Codec
  import opened History
  import opened Compaction

  /** A log file, and the operations that its replay gives. */
  datatype Disk = Disk(log: Bytes, ops: seq<Op>)

  /** `DoCrash(n)`: only the first `n` bytes of the log survive, and the engine starts on them. */
  datatype Cmd = DoPut(key: Key, value: Value) | DoRemove(key: Key) | DoGc | DoReopen | DoCrash(n: nat)

  /** What the engine's callers owe it: keys without NUL bytes, lengths that fit. */
  ghost predicate Allowed(cmd: Cmd) {
    cmd.DoPut? ==> Good(Put(cmd.key, cmd.value))
  }

  /** What a command does to the log. Writes need a log that is not torn; compaction does not. */
  ghost predicate Step(d: Disk, cmd: Cmd, d': Disk) {
    match cmd
    case DoPut(k, v) => d.log == EncodeAll(d.ops) && d' == Disk(d.log + Encode(Put(k, v)), d.ops + [Put(k, v)])
    case DoRemove(k) =>
      if k in StoreOf(d.ops) then d.log == EncodeAll(d.ops) && d' == Disk(d.log + Encode(Del(k)), d.ops + [Del(k)])
      else d' == d
    case DoGc => IsCompact(d'.ops, StoreOf(d.ops)) && d'.log == EncodeAll(d'.ops)
    case DoReopen => d' == Disk(d.log, Parse(d.log))
    case DoCrash(n) => n <= |d.log| && d' == Disk(d.log[..n], Parse(d.log[..n]))
  }

  ghost predicate Sound(d: Disk) {
    AllGood(d.ops) && Parse(d.log) == d.ops
  }

  // ----- the plain map and its versions -----

  type Store = map<Key, Value>

  /** The stores after none, one, two and so on of the operations. */
  ghost function Versions(ops: seq<Op>): (r: seq<Store>)
    ensures |r| == |ops| + 1
  {
    seq(|ops| + 1, i requires 0 <= i <= |ops| => StoreOf(ops[..i]))
  }

  /** `m` rebuilt one key of `ks` at a time. */
  ghost function Rebuilt(ks: seq<Key>, m: Store): (r: seq<Store>)
    ensures |r| == |ks| + 1
  {
    seq(|ks| + 1, i requires 0 <= i <= |ks| => map k | k in m && k in ks[..i] :: m[k])
  }

  /** The versions of a plain map, of which the last is the present one, under each command. */
  lemma PlainStepMeans(vs: seq<Store>, cmd: Cmd, vs': seq<Store>)
    requires vs != []
    ensures var m := vs[|vs| - 1];
            PlainStep(vs, cmd, vs') <==>
            match cmd
            case DoPut(k, v) => vs' == vs + [m[k := v]]
            case DoRemove(k) => vs' == if k in m then vs + [m - {k}] else vs
            case DoGc => exists ks :: Lists(ks, m.Keys) && vs' == Rebuilt(ks, m)
            case DoReopen => vs' == vs
            case DoCrash(_) => vs' != [] && vs' <= vs
  {
    hide Lists, Rebuilt;
  }

  /** What the commands do to the versions of a plain map, of which the last is the present one: a
      crash goes back to an earlier version, and compaction starts the versions afresh. */
  ghost predicate PlainStep(vs: seq<Store>, cmd: Cmd, vs': seq<Store>) {
    vs != [] &&
    var m := vs[|vs| - 1];
    match cmd
    case DoPut(k, v) => vs' == vs + [m[k := v]]
    case DoRemove(k) => vs' == if k in m then vs + [m - {k}] else vs
    case DoGc => exists ks :: Lists(ks, m.Keys) && vs' == Rebuilt(ks, m)
    case DoReopen => vs' == vs
    case DoCrash(_) => vs' != [] && vs' <= vs
  }

  lemma VersionsAt(ops: seq<Op>, i: nat)
    requires i <= |ops|
    ensures Versions(ops)[i] == StoreOf(ops[..i])
  {
    hide StoreOf;
  }

  lemma VersionsPrefix(ops: seq<Op>, k: nat)
    requires k <= |ops|
    ensures Versions(ops[..k]) == Versions(ops)[..k + 1]
  {
    hide StoreOf, Versions;
    forall i | 0 <= i <= k
      ensures Versions(ops[..k])[i] == Versions(ops)[i]
    {
      VersionsAt(ops, i);
      VersionsAt(ops[..k], i);
      assert ops[..k][..i] == ops[..i];
    }
  }

  lemma VersionsNext(ops: seq<Op>, op: Op)
    ensures Versions(ops + [op]) == Versions(ops) + [StoreOf(ops + [op])]
    ensures Versions(ops)[|ops|] == StoreOf(ops)
  {
    hide StoreOf, Versions;
    var r := ops + [op];
    VersionsLast(r);
    VersionsLast(ops);
    assert r[..|ops|] == ops;
    VersionsPrefix(r, |ops|);
    ListEnd(Versions(r), Versions(ops), StoreOf(r));
  }

  lemma VersionsLast(ops: seq<Op>)
    ensures Versions(ops)[|ops|] == StoreOf(ops)
  {
    hide StoreOf, Versions;
    VersionsAt(ops, |ops|);
    assert ops[..|ops|] == ops;
  }

  lemma ListEnd<T>(s: seq<T>, front: seq<T>, x: T)
    requires |s| == |front| + 1 && s[..|front|] == front && s[|front|] == x
    ensures s == front + [x]
  {
  }

  lemma RebuiltAt(ks: seq<Key>, m: Store, i: nat)
    requires i <= |ks| && forall k | k in ks :: k in m
    ensures Rebuilt(ks, m)[i].Keys == set k | k in ks[..i]
    ensures forall k | k in ks[..i] :: Rebuilt(ks, m)[i][k] == m[k]
  {
    assert forall k | k in ks[..i] :: k in ks;
  }

  /** The store after the first `i` records of a compacted log. */
  lemma CompactVersion(ks: seq<Key>, m: Store, i: nat)
    requires i <= |ks| && Ascending(ks) && forall k | k in ks :: k in m
    ensures StoreOf(Puts(ks, m)[..i]) == Rebuilt(ks, m)[i]
  {
    hide StoreOf, Less, Rebuilt;
    var some := ks[..i];
    assert forall k | k in some :: k in ks;
    assert Puts(ks, m)[..i] == Puts(some, m);
    PutsStore(some, m);
    RebuiltAt(ks, m, i);
  }

  /** The versions of a compacted log. */
  lemma VersionsCompact(ops: seq<Op>, m: Store)
    requires IsCompact(ops, m)
    ensures exists ks :: Lists(ks, m.Keys) && Versions(ops) == Rebuilt(ks, m)
  {
    hide StoreOf, Ascending, Versions, Rebuilt;
    var ks :| Lists(ks, m.Keys) && ops == Puts(ks, m);
    forall i | 0 <= i <= |ks|
      ensures Versions(ops)[i] == Rebuilt(ks, m)[i]
    {
      VersionsAt(ops, i);
      CompactVersion(ks, m, i);
    }
  }

  lemma FitsDel(k: Key, v: Value)
    requires Fits(Put(k, v))
    ensures Fits(Del(k))
  {
  }

  /** One more operation at the end of a log that is not torn. */
  lemma AppendKeeps(ops: seq<Op>, op: Op)
    requires AllGood(ops) && Good(op)
    ensures Sound(Disk(EncodeAll(ops) + Encode(op), ops + [op]))
    ensures EncodeAll(ops) + Encode(op) == EncodeAll(ops + [op])
  {
    hide Encode, EncodeAll, Parse, Good;
    MeaningNext(ops, op);
    ReplayWhole(ops + [op]);
  }

  /** What each command leaves in the file, and what the store is then. A crash keeps just the first
      bytes of the file, and the operations whose records lie within them. */
  ghost predicate Effects(d: Disk, cmd: Cmd, d': Disk) {
    match cmd
    case DoPut(k, v) => d'.log == d.log + Encode(Put(k, v)) && StoreOf(d'.ops) == StoreOf(d.ops)[k := v]
    case DoRemove(k) =>
      && d'.log == (if k in StoreOf(d.ops) then d.log + Encode(Del(k)) else d.log)
      && StoreOf(d'.ops) == StoreOf(d.ops) - {k}
    case DoGc => |d'.log| <= |d.log| && StoreOf(d'.ops) == StoreOf(d.ops)
    case DoReopen => d'.log == d.log && d'.ops == d.ops
    case DoCrash(n) =>
      && d'.log <= d.log && |d'.log| == n
      && d'.ops <= d.ops && |EncodeAll(d'.ops)| <= n
      && (|d'.ops| < |d.ops| ==> n < |EncodeAll(d.ops[..|d'.ops| + 1])|)
  }

  lemma StepEffects(d: Disk, cmd: Cmd, d': Disk)
    requires Sound(d) && Allowed(cmd) && Step(d, cmd, d')
    ensures Effects(d, cmd, d')
  {
    hide Encode, EncodeAll, Parse, Fits, NulFree, StoreOf, IsCompact, Complete;
    match cmd {
      case DoPut(k, v) => MeaningNext(d.ops, Put(k, v));
      case DoRemove(k) => MeaningNext(d.ops, Del(k));
      case DoGc =>
        CompactStore(d'.ops, StoreOf(d.ops));
        CompactNoLonger(d'.ops, d.ops);
        ParsedPrefix(d.log);
      case DoReopen =>
      case DoCrash(n) =>
        TornAgain(d.log, n);
        CompleteExact(d.ops, n);
    }
  }

  /** Every command keeps replay right and does to the versions what it does to a plain map's. A
      crash keeps exactly the operations whose records the surviving bytes hold completely. */
  lemma StepKeeps(d: Disk, cmd: Cmd, d': Disk)
    requires Sound(d) && Allowed(cmd) && Step(d, cmd, d')
    ensures AllGood(d'.ops) && Parse(d'.log) == d'.ops
    ensures var vs, vs', m := Versions(d.ops), Versions(d'.ops), StoreOf(d.ops);
            match cmd
            case DoPut(k, v) => vs' == vs + [m[k := v]]
            case DoRemove(k) => vs' == if k in m then vs + [m - {k}] else vs
            case DoGc => vs'[0] == map[] && vs'[|vs'| - 1] == m
            case DoReopen => vs' == vs
            case DoCrash(_) => vs' != [] && vs' <= vs
    ensures Sound(d') && PlainStep(Versions(d.ops), cmd, Versions(d'.ops))
    ensures cmd.DoCrash? ==> d'.ops == d.ops[..Complete(d.ops, cmd.n)]
    ensures cmd.DoCrash? ==> d'.log <= d.log && |d'.log| == cmd.n
    ensures cmd.DoReopen? ==> d' == d
    ensures !cmd.DoCrash? && d.log == EncodeAll(d.ops) ==> d'.log == EncodeAll(d'.ops)
  {
    hide Encode, EncodeAll, Parse, Fits, NulFree, StoreOf, IsCompact, Complete, Rebuilt;
    var ops := d.ops;
    match cmd {
      case DoPut(k, v) =>
        MeaningNext(ops, Put(k, v));
        VersionsNext(ops, Put(k, v));
        AppendKeeps(ops, Put(k, v));
      case DoRemove(k) =>
        VersionsNext(ops, Del(k));
        if k in StoreOf(ops) {
          StoreIsGood(ops);
          FitsDel(k, StoreOf(ops)[k]);
          MeaningNext(ops, Del(k));
          AppendKeeps(ops, Del(k));
        }
      case DoGc =>
        VersionsNext(ops, Del([]));
        CompactIsGood(d'.ops, ops);
        CompactStore(d'.ops, StoreOf(ops));
        VersionsLast(d'.ops);
        VersionsAt(d'.ops, 0);
        EmptyDisk();
        VersionsCompact(d'.ops, StoreOf(ops));
        ReplayWhole(d'.ops);
      case DoReopen =>
      case DoCrash(n) =>
        TornAgain(d.log, n);
        VersionsPrefix(ops, Complete(ops, n));
    }
  }

  /** After a crash a put is possible exactly if the crash cut the file at the end of a record. */
  lemma PutAfterCrash(d: Disk, n: nat, d': Disk, k: Key, v: Value)
    requires Sound(d) && Step(d, DoCrash(n), d')
    ensures (exists e :: Step(d', DoPut(k, v), e)) <==> exists j :: 0 <= j <= |d.ops| && n == |EncodeAll(d.ops[..j])|
  {
    hide Encode, EncodeAll, Parse, Good, Complete;
    TornAgain(d.log, n);
    ParsedPrefix(d.log);
    if d'.log == EncodeAll(d'.ops) {
      assert Step(d', DoPut(k, v), Disk(d'.log + Encode(Put(k, v)), d'.ops + [Put(k, v)]));
      assert n == |EncodeAll(d.ops[..Complete(d.ops, n)])|;
    }
    if j :| 0 <= j <= |d.ops| && n == |EncodeAll(d.ops[..j])| {
      EncodeConcat(d.ops[..j], d.ops[j..]);
      assert d.ops == d.ops[..j] + d.ops[j..];
      assert d.log[..n] == EncodeAll(d.ops[..j]);
      ReplayWhole(d.ops[..j]);
    }
  }

  /** A run starts with an empty log. */
  lemma RunStarts()
    ensures Run([], [Disk([], [])])
  {
  }

  /** A run goes on with every command that is allowed and possible. */
  lemma RunGrows(cmds: seq<Cmd>, disks: seq<Disk>, cmd: Cmd, d': Disk)
    requires Run(cmds, disks) && Step(disks[|cmds|], cmd, d')
    requires cmd.DoPut? ==> 0 !in cmd.key && |cmd.key| < 0x1_0000_0000_0000_0000 && |cmd.value| < 0xFFFF_FFFF_FFFF_FFFF
    ensures Run(cmds + [cmd], disks + [d'])
  {
    hide Step;
    assert forall i :: 0 <= i < |cmds| ==> (cmds + [cmd])[i] == cmds[i];
  }

  /** `disks` are the logs before, between and after the commands, from an empty one on. */
  ghost predicate Run(cmds: seq<Cmd>, disks: seq<Disk>) {
    && |disks| == |cmds| + 1 && disks[0] == Disk([], [])
    && forall i :: 0 <= i < |cmds| ==> Allowed(cmds[i]) && Step(disks[i], cmds[i], disks[i + 1])
  }

  /** After every run with any number of crashes, compactions and reopenings: replay gives back the
      operations, every indexed offset starts a complete put record of that very key with its
      present value, and each command did to the file and to the store what it should: a put adds its
      record, a removal its record if the key is there, compaction does not make the file longer, and
      a crash keeps just the first bytes of the file, and the operations whose records end within
      them. The versions of the store, which start with the empty map, move as a plain map's do. */
  lemma {:induction false} WholeRun(cmds: seq<Cmd>, disks: seq<Disk>)
    requires Run(cmds, disks)
    ensures var d := disks[|cmds|];
            && AllGood(d.ops) && Parse(d.log) == d.ops && IndexOf(d.ops).Keys == StoreOf(d.ops).Keys
            && forall k | k in IndexOf(d.ops) :: PutsAt(d.log, IndexOf(d.ops)[k], k, StoreOf(d.ops)[k])
    ensures Versions(disks[0].ops) == [map[]] && StoreOf(disks[0].ops) == map[] && disks[0].log == []
    ensures forall i :: 0 <= i < |cmds| ==>
              var d, d' := disks[i], disks[i + 1];
              match cmds[i]
              case DoPut(k, v) => d'.log == d.log + Encode(Put(k, v)) && StoreOf(d'.ops) == StoreOf(d.ops)[k := v]
              case DoRemove(k) =>
                && d'.log == (if k in StoreOf(d.ops) then d.log + Encode(Del(k)) else d.log)
                && StoreOf(d'.ops) == StoreOf(d.ops) - {k}
              case DoGc => |d'.log| <= |d.log| && StoreOf(d'.ops) == StoreOf(d.ops)
              case DoReopen => d'.log == d.log && d'.ops == d.ops
              case DoCrash(n) =>
                && d'.log <= d.log && |d'.log| == n
                && d'.ops <= d.ops && |EncodeAll(d'.ops)| <= n
                && (|d'.ops| < |d.ops| ==> n < |EncodeAll(d.ops[..|d'.ops| + 1])|)
    ensures forall i :: 0 <= i < |cmds| ==> PlainStep(Versions(disks[i].ops), cmds[i], Versions(disks[i + 1].ops))
    decreases |cmds|
  {
    hide EncodeAll, Parse, Good, StoreOf, IndexOf, Step, Allowed, PutsAt, PlainStep, Encode;
    var n := |cmds|;
    forall i | 0 <= i < n
      ensures Effects(disks[i], cmds[i], disks[i + 1])
    {
      WholeRun(cmds[..i], disks[..i + 1]);
      StepEffects(disks[i], cmds[i], disks[i + 1]);
    }
    if n == 0 {
      EmptyDisk();
    } else {
      var before := disks[..n];
      WholeRun(cmds[..n - 1], before);
      StepKeeps(disks[n - 1], cmds[n - 1], disks[n]);
      forall i | 0 <= i < n
        ensures PlainStep(Versions(disks[i].ops), cmds[i], Versions(disks[i + 1].ops))
      {
        if i < n - 1 {
          assert before[i] == disks[i] && before[i + 1] == disks[i + 1] && cmds[..n - 1][i] == cmds[i];
        }
      }
    }
    ParsedPrefix(disks[n].log);
    IndexedIn(disks[n].log, disks[n].ops);
  }

  lemma EmptyDisk()
    ensures Sound(Disk([], [])) && Versions([]) == [map[]] && StoreOf([]) == map[]
  {
    DecodeNothing();
  }

  function PlainRun(cmds: seq<Cmd>): Store {
    if cmds == [] then map[]
    else
      var m := PlainRun(cmds[..|cmds| - 1]);
      match cmds[|cmds| - 1]
      case DoPut(k, v) => m[k := v]
      case DoRemove(k) => m - {k}
      case _ => m
  }

  /** Without a crash the store is the plain map, and the log is never torn. */
  lemma {:induction false} CalmRun(cmds: seq<Cmd>, disks: seq<Disk>)
    requires Run(cmds, disks) && forall i :: 0 <= i < |cmds| ==> !cmds[i].DoCrash?
    ensures var d := disks[|cmds|];
            Sound(d) && d.log == EncodeAll(d.ops) && StoreOf(d.ops) == PlainRun(cmds)
    decreases |cmds|
  {
    hide EncodeAll, Encode, Parse, Good, StoreOf, IsCompact;
    var n := |cmds|;
    if n == 0 {
      EmptyDisk();
      EncodeNone();
      assert Versions([])[0] == StoreOf([]);
    } else {
      var d, cmd := disks[n - 1], cmds[n - 1];
      CalmRun(cmds[..n - 1], disks[..n]);
      StepKeeps(d, cmd, disks[n]);
      CalmStep(d, cmd, disks[n]);
    }
  }

  lemma CalmStep(d: Disk, cmd: Cmd, d': Disk)
    requires Sound(d) && Step(d, cmd, d') && !cmd.DoCrash?
    ensures StoreOf(d'.ops) == match cmd
                               case DoPut(k, v) => StoreOf(d.ops)[k := v]
                               case DoRemove(k) => StoreOf(d.ops) - {k}
                               case _ => StoreOf(d.ops)
  {
    hide EncodeAll, Encode, Parse, Good, StoreOf, IsCompact;
    match cmd {
      case DoPut(k, v) => MeaningNext(d.ops, Put(k, v));
      case DoRemove(k) => MeaningNext(d.ops, Del(k));
      case DoGc => CompactStore(d'.ops, StoreOf(d.ops));
      case DoReopen =>
    }
  }

  // ----- appends and reads when the log does not end where the index says -----

  /** Whatever is put next, its record starts where the index will say. */
  ghost predicate AppendsLand(log: Bytes, at: int) {
    forall k, v | Good(Put(k, v)) :: PutsAt(log + Encode(Put(k, v)), at, k, v)
  }

  /** Every key's indexed offset starts its record. */
  ghost predicate ReadsLand(log: Bytes, index: map<Key, int>, m: Store) {
    forall k | k in m :: k in index && PutsAt(log, index[k], k, m[k])
  }

  function Zeros(n: nat): Bytes {
    seq(n, _ => 0)
  }

  lemma ValueSize(b: Bytes)
    requires Decode(b).Got? && Decode(b).op.Put?
    ensures |b| >= 16 && |Decode(b).op.value| == FromBytes(b[8..16])
  {
    hide FromBytes;
  }

  /** Some record is spoiled by bytes in front of it: by a short tail, one whose last byte differs
      from all before it in the value; by a long one, of two with values of different sizes one. */
  lemma Spoiled(tail: Bytes) returns (v: Value)
    requires tail != []
    ensures Good(Put([], v)) && Decode(tail + Encode(Put([], v))) != Got(Put([], v))
  {
    if |tail| < 16 {
      v := Zeros(|tail|) + [1];
      SpoiledShort(tail);
    } else {
      hide Decode, Encode;
      var a, b := tail + Encode(Put([], [])), tail + Encode(Put([], [0]));
      assert a[8..16] == tail[8..16] == b[8..16];
      if Decode(a) == Got(Put([], [])) {
        v := [0];
        ValueSize(a);
        if Decode(b) == Got(Put([], [0])) {
          ValueSize(b);
        }
      } else {
        v := [];
      }
    }
  }

  lemma SpoiledShort(tail: Bytes)
    requires 0 < |tail| < 16
    ensures var op := Put([], Zeros(|tail|) + [1]);
            Good(op) && Decode(tail + Encode(op)) != Got(op)
  {
    hide Decode, ToBytes;
    var t := |tail|;
    var op := Put([], Zeros(t) + [1]);
    var e := Encode(op);
    var b := tail + e;
    var last := |e| - 1;
    assert e[last] == 1 && e[last - t] == 0 && b[last] == e[last - t];
    assert b[..|e|][last] != e[last];
    if Decode(b) == Got(op) {
      DecodedIsEncoded(b);
    }
  }

  /** All appends land if and only if the append offset is the end of the log. */
  lemma AppendsExact(log: Bytes, at: nat)
    requires at <= |log|
    ensures AppendsLand(log, at) <==> at == |log|
    ensures (forall k, v | Good(Put(k, v)) :: PutsAt(log + Encode(Put(k, v)), at, k, v)) <==> at == |log|
  {
    hide Encode, Decode, Fits, NulFree;
    var tail := log[at..];
    forall k, v | Good(Put(k, v))
      ensures PutsAt(log + Encode(Put(k, v)), at, k, v) <==> Decode(tail + Encode(Put(k, v))) == Got(Put(k, v))
      ensures tail == [] ==> Decode(tail + Encode(Put(k, v))) == Got(Put(k, v))
    {
      assert (log + Encode(Put(k, v)))[at..] == tail + Encode(Put(k, v));
      DecodeEncode(Put(k, v), []);
      assert Encode(Put(k, v)) + [] == [] + Encode(Put(k, v));
    }
    if tail != [] {
      var v := Spoiled(tail);
      assert !PutsAt(log + Encode(Put([], v)), at, [], v);
    }
  }

  /** A put after recovery lands where the index says, whatever is put, exactly if the recovered
      log was not torn: appends go to the end of the file, offsets count complete records only. */
  lemma AppendAfterRecovery(log: Bytes)
    ensures AppendsLand(log, |EncodeAll(Parse(log))|) <==> EncodeAll(Parse(log)) == log
  {
    hide EncodeAll, Parse, AppendsLand;
    ParsedPrefix(log);
    AppendsExact(log, |EncodeAll(Parse(log))|);
  }

  /** Compaction writes behind what a left over file "log(1)" holds, and counts offsets from 0. All
      appends land afterwards if and only if there was nothing in that file. All reads do if and
      only if the log all the same starts with the compacted records. */
  lemma AfterStaleCompaction(stale: Bytes, ops: seq<Op>, m: Store)
    requires IsCompact(ops, m) && AllGood(ops)
    ensures var log := stale + EncodeAll(ops);
            && (AppendsLand(log, |EncodeAll(ops)|) <==> stale == [])
            && (ReadsLand(log, IndexOf(ops), m) <==> EncodeAll(ops) <= log)
  {
    hide EncodeAll, IndexOf, Good, AppendsLand, ReadsLand, IsCompact;
    AppendsExact(stale + EncodeAll(ops), |EncodeAll(ops)|);
    ReadsExact(stale + EncodeAll(ops), ops, m);
  }

  /** The records of a compacted log are all indexed, one behind the other. */
  lemma ReadsExact(log: Bytes, ops: seq<Op>, m: Store)
    requires IsCompact(ops, m) && AllGood(ops)
    ensures ReadsLand(log, IndexOf(ops), m) <==> EncodeAll(ops) <= log
    ensures (forall k | k in m :: k in IndexOf(ops) && PutsAt(log, IndexOf(ops)[k], k, m[k])) <==> EncodeAll(ops) <= log
  {
    hide Encode, EncodeAll, Decode, IndexOf, Good, StoreOf, Less, PutsAt;
    CompactStore(ops, m);
    if EncodeAll(ops) <= log {
      IndexedIn(log, ops);
    }
    if ReadsLand(log, IndexOf(ops), m) {
      var ks :| Lists(ks, m.Keys) && ops == Puts(ks, m);
      CompactStarts(ks, ops, m);
      assert ops[..|ops|] == ops;
      RecordsFollow(log, ops, |ops|);
    }
  }

  lemma CompactStarts(ks: seq<Key>, ops: seq<Op>, m: Store)
    requires Lists(ks, m.Keys) && ops == Puts(ks, m)
    ensures IndexesStarts(ops, IndexOf(ops))
    ensures forall i :: 0 <= i < |ops| ==> ops[i].Put? && ops[i].key in m && m[ops[i].key] == ops[i].value
  {
    hide IndexOf, Less, IndexesStarts;
    forall i, j | 0 <= i < j < |ops|
      ensures ops[i].key != ops[j].key
    {
      LessIrreflexive(ks[i], ks[j]);
    }
    forall i | 0 <= i < |ops|
      ensures ops[i].key in m
    {
      assert ks[i] in ks;
    }
    PutsIndex(ops);
  }

  lemma {:induction false} RecordsFollow(log: Bytes, ops: seq<Op>, n: nat)
    requires n <= |ops|
    requires forall i :: 0 <= i < |ops| ==> ops[i].Put? && PutsAt(log, |EncodeAll(ops[..i])|, ops[i].key, ops[i].value)
    ensures EncodeAll(ops[..n]) <= log
    decreases n
  {
    hide Encode, EncodeAll, Decode, Fits;
    if n == 0 {
      EncodeNone();
    } else {
      var off := |EncodeAll(ops[..n - 1])|;
      RecordsFollow(log, ops, n - 1);
      assert PutsAt(log, off, ops[n - 1].key, ops[n - 1].value);
      DecodedIsEncoded(log[off..]);
      MeaningNext(ops[..n - 1], ops[n - 1]);
      assert ops[..n] == ops[..n - 1] + [ops[n - 1]];
      CutTwice(log, off, |Encode(ops[n - 1])|);
    }
  }
}
