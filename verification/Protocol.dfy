/** The locks of the engine: any number of threads run put, remove, sync, get, visit and
    compaction, one small step at a time. A thread holds a lock while its program counter lies
    between the acquisition and the release. */
module Protocol {
  import opened Keys
  import opened Codec
  import opened History
  import opened Compaction
  import opened Ranges

  /** `get` asks for one key, `visit` for a range. */
  datatype Query = One(key: Key) | Between(lower: Key, upper: Key)

  datatype Pc =
    | Idle
    | PutWait(key: Key, value: Value)
    | PutBegin(key: Key, value: Value)
    | PutMid(key: Key, value: Value)          // appended, not yet indexed
    | RemoveWait(key: Key)
    | RemoveBegin(key: Key)
    | RemoveMid(key: Key)                     // out of the index, not yet logged
    | SyncWait
    | WriteEnd                                // about to release `_mutex`
    | ReadWait(query: Query)
    | ReadHalf(query: Query)                  // has `_mutex`, wants `_mutex2`
    | ReadBegin(query: Query)
    | ReadAt(query: Query, todo: seq<Key>, out: seq<Item>)
    | ReadOffset(query: Query, todo: seq<Key>, out: seq<Item>, off: int)
    | ReadEnd
    | ReadLeave                               // `_mutex2` released
    | GcWait
    | GcGuard                                 // has `_mutex_gc`, wants `_mutex`
    | GcWalk(keys: seq<Key>, i: nat, newLog: Bytes, offsets: seq<int>)
    | GcReady(newLog: Bytes, offsets: seq<int>)  // wants `_mutex2`
    | GcRewrite(keys: seq<Key>, i: nat, newLog: Bytes, offsets: seq<int>)
    | GcRemoved(newLog: Bytes)                // the old log file is gone
    | GcRenamed(newLog: Bytes)
    | GcEnd
    | GcLeave                                 // `_mutex2` released
    | GcLast                                  // `_mutex` released

  /** Exclusive owner of `_mutex`. */
  predicate WritesMain(p: Pc) {
    p.PutBegin? || p.PutMid? || p.RemoveBegin? || p.RemoveMid? || p.WriteEnd?
  }

  /** Shared owner of `_mutex`. */
  predicate ReadsMain(p: Pc) {
    || p.ReadHalf? || p.ReadBegin? || p.ReadAt? || p.ReadOffset? || p.ReadEnd? || p.ReadLeave?
    || p.GcWalk? || p.GcReady? || p.GcLeave? || WritesData(p)
  }

  /** Shared owner of `_mutex2`. */
  predicate ReadsData(p: Pc) {
    p.ReadBegin? || p.ReadAt? || p.ReadOffset? || p.ReadEnd?
  }

  /** Exclusive owner of `_mutex2`. */
  predicate WritesData(p: Pc) {
    p.GcRewrite? || p.GcRemoved? || p.GcRenamed? || p.GcEnd?
  }

  /** Owner of `_mutex_gc`. */
  predicate Collects(p: Pc) {
    p.GcGuard? || p.GcWalk? || p.GcReady? || p.GcLeave? || p.GcLast? || WritesData(p)
  }

  /** What the threads share: the index, the log file and the append offset. `history` records the
      operations that have taken effect. */
  datatype Shared = Shared(index: map<Key, int>, log: Bytes, offset: int, history: seq<Op>)

  datatype State = State(shared: Shared, threads: seq<Pc>)

  /** What a step does as seen from outside: nothing, or one whole operation. */
  datatype Event =
    | Tau
    | DidPut(key: Key, value: Value)
    | DidRemove(key: Key, found: bool)
    | DidRead(query: Query, out: seq<Item>)

  function Wanted(q: Query, keys: set<Key>): set<Key> {
    match q
    case One(k) => keys * {k}
    case Between(l, u) => set k | k in keys && !Less(k, l) && !Less(u, k)
  }

  // ----- acquiring locks -----

  ghost predicate CanWriteMain(ps: seq<Pc>) {
    forall p | p in ps :: !WritesMain(p) && !ReadsMain(p)
  }

  ghost predicate CanReadMain(ps: seq<Pc>) {
    forall p | p in ps :: !WritesMain(p)
  }

  ghost predicate CanReadData(ps: seq<Pc>) {
    forall p | p in ps :: !WritesData(p)
  }

  ghost predicate CanWriteData(ps: seq<Pc>) {
    forall p | p in ps :: !WritesData(p) && !ReadsData(p)
  }

  ghost predicate CanCollect(ps: seq<Pc>) {
    forall p | p in ps :: !Collects(p)
  }

  // ----- steps -----

  /** A thread starts an operation. */
  ghost predicate Invokes(p: Pc) {
    || (p.PutWait? && Good(Put(p.key, p.value))) || p.RemoveWait? || p.SyncWait? || p.ReadWait? || p.GcWait?
  }

  /** Steps that take or release a lock and touch nothing else. */
  ghost predicate LockStep(ps: seq<Pc>, p: Pc, p': Pc) {
    match p
    case Idle => Invokes(p')
    case PutWait(k, v) => CanWriteMain(ps) && p' == PutBegin(k, v)
    case RemoveWait(k) => CanWriteMain(ps) && p' == RemoveBegin(k)
    case SyncWait => CanWriteMain(ps) && p' == WriteEnd
    case WriteEnd => p' == Idle
    case ReadWait(q) => CanReadMain(ps) && p' == ReadHalf(q)
    case ReadHalf(q) => CanReadData(ps) && p' == ReadBegin(q)
    case ReadEnd => p' == ReadLeave
    case ReadLeave => p' == Idle
    case GcWait => CanCollect(ps) && p' == GcGuard
    case GcEnd => p' == GcLeave
    case GcLeave => p' == GcLast
    case GcLast => p' == Idle
    case _ => false
  }

  /** Steps of a thread that owns `_mutex` exclusively. */
  ghost predicate WriteStep(x: Shared, p: Pc, ev: Event, x': Shared, p': Pc) {
    match p
    case PutBegin(k, v) =>
      ev == Tau && p' == PutMid(k, v) && x' == x.(log := x.log + Encode(Put(k, v)))
    case PutMid(k, v) =>
      && ev == DidPut(k, v) && p' == WriteEnd
      && x' == Shared(x.index[k := x.offset], x.log, x.offset + |Encode(Put(k, v))|, x.history + [Put(k, v)])
    case RemoveBegin(k) =>
      if k in x.index then ev == Tau && p' == RemoveMid(k) && x' == x.(index := x.index - {k})
      else ev == DidRemove(k, false) && p' == WriteEnd && x' == x
    case RemoveMid(k) =>
      && ev == DidRemove(k, true) && p' == WriteEnd
      && x' == Shared(x.index, x.log + Encode(Del(k)), x.offset + |Encode(Del(k))|, x.history + [Del(k)])
    case _ => false
  }

  /** The record at `off`, decoded from the log as it is now. */
  ghost predicate RecordIs(log: Bytes, off: int, op: Op) {
    0 <= off <= |log| && Decode(log[off..]) == Got(op)
  }

  /** Steps of a thread that owns both locks for reading. */
  ghost predicate ReadStep(x: Shared, p: Pc, ev: Event, p': Pc) {
    match p
    case ReadBegin(q) =>
      ev == Tau && p'.ReadAt? && Lists(p'.todo, Wanted(q, x.index.Keys)) && p' == ReadAt(q, p'.todo, [])
    case ReadAt(q, todo, out) =>
      if todo == [] then ev == DidRead(q, out) && p' == ReadEnd
      else ev == Tau && todo[0] in x.index && p' == ReadOffset(q, todo, out, x.index[todo[0]])
    case ReadOffset(q, todo, out, off) =>
      && ev == Tau && todo != []
      && exists k, v :: RecordIs(x.log, off, Put(k, v)) && p' == ReadAt(q, todo[1..], out + [(k, v)])
    case _ => false
  }

  /** Steps of the thread that compacts: its first walk only reads. Either walk goes along the keys
      that the index holds when it starts. */
  ghost predicate GcReadStep(x: Shared, ps: seq<Pc>, p: Pc, p': Pc) {
    match p
    case GcGuard =>
      CanReadMain(ps) && p'.GcWalk? && Lists(p'.keys, x.index.Keys) && p' == GcWalk(p'.keys, 0, [], [])
    case GcWalk(ks, i, n, os) =>
      if i < |ks| then
        && ks[i] in x.index
        && exists op :: RecordIs(x.log, x.index[ks[i]], op) && p' == GcWalk(ks, i + 1, n + Encode(op), os + [|n|])
      else
        p' == GcReady(n, os + [|n|])
    case GcReady(n, os) =>
      CanWriteData(ps) && p'.GcRewrite? && Lists(p'.keys, x.index.Keys) && p' == GcRewrite(p'.keys, 0, n, os)
    case _ => false
  }

  /** The second walk overwrites the offsets; then the new log takes the old one's place. */
  ghost predicate GcWriteStep(x: Shared, p: Pc, x': Shared, p': Pc) {
    match p
    case GcRewrite(ks, i, n, os) =>
      if i < |ks| then
        i < |os| && p' == GcRewrite(ks, i + 1, n, os) && x' == x.(index := x.index[ks[i] := os[i]])
      else
        && p' == GcRemoved(n) && (forall k | k in ks :: k in StoreOf(x.history))
        && x' == Shared(x.index, [], x.offset, Puts(ks, StoreOf(x.history)))
    case GcRemoved(n) => p' == GcRenamed(n) && x' == x.(log := n)
    case GcRenamed(n) => p' == GcEnd && x' == x.(offset := |n|)
    case _ => false
  }

  /** Thread `t` takes a step. */
  ghost predicate Next(s: State, t: nat, ev: Event, s': State) {
    && t < |s.threads| == |s'.threads| && s'.threads == s.threads[t := s'.threads[t]]
    && var p, p', x, x' := s.threads[t], s'.threads[t], s.shared, s'.shared;
       || (LockStep(s.threads, p, p') && ev == Tau && x' == x)
       || WriteStep(x, p, ev, x', p')
       || (ReadStep(x, p, ev, p') && x' == x)
       || (GcReadStep(x, s.threads, p, p') && ev == Tau && x' == x)
       || (GcWriteStep(x, p, x', p') && ev == Tau)
  }

  // ----- what the steps and the locks are -----

  /** Every idle thread may call every operation. */
  lemma MayCall(s: State, t: nat, p: Pc)
    requires t < |s.threads| && s.threads[t] == Idle
    requires || p.RemoveWait? || p.SyncWait? || p.ReadWait? || p.GcWait?
             || (p.PutWait? && 0 !in p.key && |p.key| < 0x1_0000_0000_0000_0000 && |p.value| < 0xFFFF_FFFF_FFFF_FFFF)
    ensures Next(s, t, Tau, State(s.shared, s.threads[t := p]))
  {
  }

  /** Each lock is taken at one step of an operation and given back at another; in between it is held,
      and an idle thread holds none. */
  lemma HeldBetween(s: State, t: nat, ev: Event, s': State)
    requires Next(s, t, ev, s')
    ensures var p, p' := s.threads[t], s'.threads[t];
            && (WritesMain(p') <==> p.PutWait? || p.RemoveWait? || p.SyncWait? || (WritesMain(p) && !p.WriteEnd?))
            && (ReadsMain(p') <==> p.ReadWait? || p.GcGuard? || (ReadsMain(p) && !p.ReadLeave? && !p.GcLeave?))
            && (ReadsData(p') <==> p.ReadHalf? || (ReadsData(p) && !p.ReadEnd?))
            && (WritesData(p') <==> p.GcReady? || (WritesData(p) && !p.GcEnd?))
            && (Collects(p') <==> p.GcWait? || (Collects(p) && !p.GcLast?))
    ensures !WritesMain(Idle) && !ReadsMain(Idle) && !ReadsData(Idle) && !WritesData(Idle) && !Collects(Idle)
  {
    hide Next, WritesMain, ReadsMain;
    MainHeld(s, t, ev, s');
    DataHeld(s, t, ev, s');
    NoneHeld();
  }

  lemma MainHeld(s: State, t: nat, ev: Event, s': State)
    requires Next(s, t, ev, s')
    ensures var p, p' := s.threads[t], s'.threads[t];
            && (WritesMain(p') <==> p.PutWait? || p.RemoveWait? || p.SyncWait? || (WritesMain(p) && !p.WriteEnd?))
            && (ReadsMain(p') <==> p.ReadWait? || p.GcGuard? || (ReadsMain(p) && !p.ReadLeave? && !p.GcLeave?))
  {
    hide Decode, Lists, StoreOf, Puts, Good, RecordIs, CanWriteMain, CanReadMain, CanWriteData, CanReadData, CanCollect;
  }

  lemma DataHeld(s: State, t: nat, ev: Event, s': State)
    requires Next(s, t, ev, s')
    ensures var p, p' := s.threads[t], s'.threads[t];
            && (ReadsData(p') <==> p.ReadHalf? || (ReadsData(p) && !p.ReadEnd?))
            && (WritesData(p') <==> p.GcReady? || (WritesData(p) && !p.GcEnd?))
            && (Collects(p') <==> p.GcWait? || (Collects(p) && !p.GcLast?))
  {
    hide Decode, Lists, StoreOf, Puts, Good, RecordIs, CanWriteMain, CanReadMain, CanWriteData, CanReadData, CanCollect,
      WritesMain, ReadsMain;
  }

  lemma NoneHeld()
    ensures !WritesMain(Idle) && !ReadsMain(Idle) && !ReadsData(Idle) && !WritesData(Idle) && !Collects(Idle)
  {
  }

  /** A thread that waits for a lock gets it if and only if no other thread holds it in a way that
      conflicts: readers share, writers do not. */
  lemma GrantedIf(s: State, t: nat)
    requires t < |s.threads|
    requires var p := s.threads[t];
             || p.PutWait? || p.RemoveWait? || p.SyncWait? || p.ReadWait? || p.ReadHalf? || p.GcWait? || p.GcGuard?
             || p.GcReady?
    ensures (exists s' :: Next(s, t, Tau, s')) <==>
            var p := s.threads[t];
            forall u :: 0 <= u < |s.threads| && u != t ==>
              var q := s.threads[u];
              if p.ReadWait? || p.GcGuard? then !WritesMain(q)
              else if p.ReadHalf? then !WritesData(q)
              else if p.GcReady? then !WritesData(q) && !ReadsData(q)
              else if p.GcWait? then !Collects(q)
              else !WritesMain(q) && !ReadsMain(q)
  {
    hide Next, CanWriteMain, CanReadMain, CanWriteData, CanReadData, CanCollect;
    Others(s.threads, t);
    if s' :| Next(s, t, Tau, s') {
      NextGranted(s, t, s');
    }
    if Free(s.threads, s.threads[t]) {
      var s' := Grant(s, t);
    }
  }

  /** The lock that `p` waits for is free for it. */
  ghost predicate Free(ps: seq<Pc>, p: Pc) {
    match p
    case ReadWait(_) => CanReadMain(ps)
    case GcGuard => CanReadMain(ps)
    case ReadHalf(_) => CanReadData(ps)
    case GcReady(_, _) => CanWriteData(ps)
    case GcWait => CanCollect(ps)
    case _ => CanWriteMain(ps)
  }

  lemma Grant(s: State, t: nat) returns (s': State)
    requires t < |s.threads| && Free(s.threads, s.threads[t])
    requires var p := s.threads[t];
             || p.PutWait? || p.RemoveWait? || p.SyncWait? || p.ReadWait? || p.ReadHalf? || p.GcWait? || p.GcGuard?
             || p.GcReady?
    ensures Next(s, t, Tau, s')
  {
    hide Lists, StoreOf, Good, Decode, Puts, RecordIs, CanWriteMain, CanReadMain, CanWriteData, CanReadData, CanCollect;
    var ks := ListExists(s.shared.index.Keys);
    var p';
    match s.threads[t] {
      case PutWait(k, v) => p' := PutBegin(k, v);
      case RemoveWait(k) => p' := RemoveBegin(k);
      case SyncWait => p' := WriteEnd;
      case ReadWait(q) => p' := ReadHalf(q);
      case ReadHalf(q) => p' := ReadBegin(q);
      case GcWait => p' := GcGuard;
      case GcGuard => p' := GcWalk(ks, 0, [], []);
      case GcReady(n, os) => p' := GcRewrite(ks, 0, n, os);
    }
    s' := State(s.shared, s.threads[t := p']);
  }

  lemma NextGranted(s: State, t: nat, s': State)
    requires Next(s, t, Tau, s')
    ensures var p, ps := s.threads[t], s.threads;
            && (p.PutWait? || p.RemoveWait? || p.SyncWait? ==> CanWriteMain(ps))
            && (p.ReadWait? || p.GcGuard? ==> CanReadMain(ps)) && (p.ReadHalf? ==> CanReadData(ps))
            && (p.GcReady? ==> CanWriteData(ps)) && (p.GcWait? ==> CanCollect(ps))
  {
    hide Decode, Lists, StoreOf, Puts, Good, RecordIs, CanWriteMain, CanReadMain, CanWriteData, CanReadData, CanCollect;
  }

  lemma Others(ps: seq<Pc>, t: nat)
    requires t < |ps|
    ensures CanWriteMain(ps) <==> (!WritesMain(ps[t]) && !ReadsMain(ps[t])
                                   && forall u :: 0 <= u < |ps| && u != t ==> !WritesMain(ps[u]) && !ReadsMain(ps[u]))
    ensures CanReadMain(ps) <==> !WritesMain(ps[t]) && forall u :: 0 <= u < |ps| && u != t ==> !WritesMain(ps[u])
    ensures CanReadData(ps) <==> !WritesData(ps[t]) && forall u :: 0 <= u < |ps| && u != t ==> !WritesData(ps[u])
    ensures CanWriteData(ps) <==> (!WritesData(ps[t]) && !ReadsData(ps[t])
                                   && forall u :: 0 <= u < |ps| && u != t ==> !WritesData(ps[u]) && !ReadsData(ps[u]))
    ensures CanCollect(ps) <==> !Collects(ps[t]) && forall u :: 0 <= u < |ps| && u != t ==> !Collects(ps[u])
  {
    assert ps[t] in ps;
    assert forall u :: 0 <= u < |ps| ==> ps[u] in ps;
  }

  // ----- mutual exclusion -----

  ghost predicate Compatible(a: Pc, b: Pc) {
    && !(WritesMain(a) && (WritesMain(b) || ReadsMain(b)))
    && !(WritesData(a) && (WritesData(b) || ReadsData(b)))
    && !(Collects(a) && Collects(b))
  }

  /** No lock is held in two conflicting ways. */
  ghost predicate Exclusive(ps: seq<Pc>) {
    forall a, b :: 0 <= a < |ps| && 0 <= b < |ps| && a != b ==> Compatible(ps[a], ps[b])
  }

  /** A step that takes no lock keeps the ones its thread has, or gives some up. */
  ghost predicate Gains(ps: seq<Pc>, p: Pc, p': Pc) {
    && (WritesMain(p') ==> WritesMain(p) || CanWriteMain(ps))
    && (ReadsMain(p') ==> ReadsMain(p) || CanReadMain(ps))
    && (WritesData(p') ==> WritesData(p) || CanWriteData(ps))
    && (ReadsData(p') ==> ReadsData(p) || CanReadData(ps))
    && (Collects(p') ==> Collects(p) || CanCollect(ps))
  }

  lemma NextGains(s: State, t: nat, ev: Event, s': State)
    requires Next(s, t, ev, s')
    ensures Gains(s.threads, s.threads[t], s'.threads[t])
  {
    hide Decode, Lists, StoreOf, Puts, Good, RecordIs, CanWriteMain, CanReadMain, CanWriteData, CanReadData, CanCollect;
  }

  lemma NextExclusive(s: State, t: nat, ev: Event, s': State)
    requires Exclusive(s.threads) && Next(s, t, ev, s')
    ensures Exclusive(s'.threads)
  {
    NextGains(s, t, ev, s');
    var ps, ps' := s.threads, s'.threads;
    hide Next;
    forall b | 0 <= b < |ps| && b != t
      ensures Compatible(ps'[t], ps[b]) && Compatible(ps[b], ps'[t])
    {
      assert ps[b] in ps && ps[t] in ps;
      assert Compatible(ps[t], ps[b]) && Compatible(ps[b], ps[t]);
    }
  }

  /** While offsets in the leaves are overwritten, no other thread reads or writes them, and no
      other thread compacts. */
  lemma WritersAlone(ps: seq<Pc>, t: nat, u: nat)
    requires Exclusive(ps) && t < |ps| && u < |ps| && t != u
    ensures WritesData(ps[t]) ==> !ReadsData(ps[u]) && !WritesMain(ps[u]) && !Collects(ps[u])
    ensures WritesMain(ps[t]) ==> !WritesMain(ps[u]) && !ReadsMain(ps[u])
    ensures Collects(ps[t]) ==> !Collects(ps[u])
  {
    assert Compatible(ps[t], ps[u]) && Compatible(ps[u], ps[t]);
  }
}
