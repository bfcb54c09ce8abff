/** Operations that no other thread interrupts: the small steps of the lock protocol add up to what
    the engine's methods do. */
module Solo {
  import opened Keys
  import opened Codec
  import opened History
  import opened Compaction
  import opened Protocol
  import opened Linearization
  import opened Ranges

  /** A step of the only thread. */
  ghost predicate SoloStep(x: Shared, p: Pc, ev: Event, y: Shared, q: Pc) {
    Next(State(x, [p]), 0, ev, State(y, [q]))
  }

  /** From `x` at `p` the thread is idle after `n` steps, the first time. It has shown the events
      `shown`, and leaves `x'`. */
  ghost predicate Returns(x: Shared, p: Pc, n: nat, shown: seq<Event>, x': Shared)
    decreases n
  {
    if p == Idle then n == 0 && shown == [] && x' == x
    else
      && n > 0
      && exists ev, y, q ::
        SoloStep(x, p, ev, y, q) && Shows(shown, ev) && Returns(y, q, n - 1, After(shown, ev), x')
  }

  /** `ev` is nothing, or the next event to be shown. */
  predicate Shows(shown: seq<Event>, ev: Event) {
    ev == Tau || (shown != [] && shown[0] == ev)
  }

  /** The events still to be shown after `ev`. */
  function After(shown: seq<Event>, ev: Event): seq<Event> {
    if ev == Tau || shown == [] then shown else shown[1..]
  }

  /** From `x` at `p` the thread can run on alone until it returns, show `shown`, and leave `x'`. */
  ghost predicate Does(x: Shared, p: Pc, shown: seq<Event>, x': Shared) {
    exists n: nat :: Returns(x, p, n, shown, x')
  }

  lemma DoesStep(x: Shared, p: Pc, ev: Event, y: Shared, q: Pc, shown: seq<Event>, x': Shared)
    requires p != Idle && SoloStep(x, p, ev, y, q) && Does(y, q, After(shown, ev), x')
    requires Shows(shown, ev)
    ensures Does(x, p, shown, x')
  {
    hide SoloStep, After;
    var n: nat :| Returns(y, q, n, After(shown, ev), x');
    assert Returns(x, p, n + 1, shown, x');
  }

  lemma DoesNothing(x: Shared)
    ensures Does(x, Idle, [], x)
  {
    assert Returns(x, Idle, 0, [], x);
  }

  /** Running alone is taking one step of the protocol after the other until the thread is idle. */
  lemma DoesMeans(x: Shared, p: Pc, shown: seq<Event>, x': Shared)
    ensures p == Idle ==> (Does(x, p, shown, x') <==> shown == [] && x' == x)
    ensures p != Idle ==>
              (Does(x, p, shown, x') <==>
               exists ev, y, q ::
                 && Next(State(x, [p]), 0, ev, State(y, [q]))
                 && if ev == Tau then Does(y, q, shown, x')
                    else shown != [] && shown[0] == ev && Does(y, q, shown[1..], x'))
  {
    hide Next;
    if p == Idle {
      DoesNothing(x);
    } else {
      if Does(x, p, shown, x') {
        var n: nat :| Returns(x, p, n, shown, x');
        var ev, y, q :| SoloStep(x, p, ev, y, q) && Shows(shown, ev) && Returns(y, q, n - 1, After(shown, ev), x');
        assert Does(y, q, After(shown, ev), x');
        assert Next(State(x, [p]), 0, ev, State(y, [q]));
      }
      if ev, y, q :|
        && Next(State(x, [p]), 0, ev, State(y, [q]))
        && if ev == Tau then Does(y, q, shown, x') else shown != [] && shown[0] == ev && Does(y, q, shown[1..], x') {
        DoesStep(x, p, ev, y, q, shown, x');
      }
    }
  }

  // ----- put and remove -----

  predicate Writing(p: Pc) {
    || p.PutWait? || p.PutBegin? || p.PutMid? || p.RemoveWait? || p.RemoveBegin? || p.RemoveMid? || p.SyncWait?
    || p.WriteEnd?
  }

  /** What putting does to the shared state: one record at the end of the log file, indexed at the
      append offset. */
  function PutTo(x: Shared, k: Key, v: Value): Shared {
    Shared(x.index[k := x.offset], x.log + Encode(Put(k, v)), x.offset + |Encode(Put(k, v))|, x.history + [Put(k, v)])
  }

  function RemoveFrom(x: Shared, k: Key): Shared {
    if k in x.index then
      Shared(x.index - {k}, x.log + Encode(Del(k)), x.offset + |Encode(Del(k))|, x.history + [Del(k)])
    else x
  }

  /** What is left when a put, removal or sync at `p` has returned. */
  function Outcome(x: Shared, p: Pc): Shared {
    match p
    case PutWait(k, v) => PutTo(x, k, v)
    case PutBegin(k, v) => PutTo(x, k, v)
    case PutMid(k, v) => PutTo(x, k, v).(log := x.log)
    case RemoveWait(k) => RemoveFrom(x, k)
    case RemoveBegin(k) => RemoveFrom(x, k)
    case RemoveMid(k) => Shared(x.index, x.log + Encode(Del(k)), x.offset + |Encode(Del(k))|, x.history + [Del(k)])
    case _ => x
  }

  /** The event that is still to come. */
  function Announces(x: Shared, p: Pc): seq<Event> {
    match p
    case PutWait(k, v) => [DidPut(k, v)]
    case PutBegin(k, v) => [DidPut(k, v)]
    case PutMid(k, v) => [DidPut(k, v)]
    case RemoveWait(k) => [DidRemove(k, k in x.index)]
    case RemoveBegin(k) => [DidRemove(k, k in x.index)]
    case RemoveMid(k) => [DidRemove(k, true)]
    case _ => []
  }

  lemma WriteStepKeeps(x: Shared, p: Pc, ev: Event, y: Shared, q: Pc)
    requires Writing(p) && SoloStep(x, p, ev, y, q)
    ensures (Writing(q) || q == Idle) && Outcome(y, q) == Outcome(x, p)
    ensures if ev == Tau then Announces(y, q) == Announces(x, p) else Announces(x, p) == [ev] && Announces(y, q) == []
  {
    hide Encode, Lists, StoreOf, Puts, Good, RecordIs, CanWriteMain, CanReadMain, CanWriteData, CanReadData, CanCollect;
  }

  lemma {:induction false} WriteEnds(x: Shared, p: Pc, n: nat, shown: seq<Event>, x': Shared)
    requires (Writing(p) || p == Idle) && Returns(x, p, n, shown, x')
    ensures x' == Outcome(x, p) && shown == Announces(x, p)
    decreases n
  {
    hide SoloStep, Encode, PutTo, RemoveFrom, Announces;
    if p != Idle {
      var ev, y, q :| SoloStep(x, p, ev, y, q) && Shows(shown, ev) && Returns(y, q, n - 1, After(shown, ev), x');
      WriteStepKeeps(x, p, ev, y, q);
      WriteEnds(y, q, n - 1, After(shown, ev), x');
      assert ev != Tau ==> shown == [ev] + shown[1..];
    } else {
      OutcomeIdle(x);
    }
  }

  lemma WriteMoves(x: Shared, p: Pc) returns (ev: Event, y: Shared, q: Pc)
    requires Writing(p)
    ensures SoloStep(x, p, ev, y, q)
    ensures match p
            case PutWait(_, _) => q.PutBegin?
            case PutBegin(_, _) => q.PutMid?
            case RemoveWait(_) => q.RemoveBegin?
            case RemoveBegin(_) => q.RemoveMid? || q.WriteEnd?
            case WriteEnd => q == Idle
            case _ => q.WriteEnd?
  {
    hide Encode;
    if WritesMain(p) && !p.WriteEnd? {
      ev, y, q := Write(x, p);
    } else {
      ev, y := Tau, x;
      match p {
        case PutWait(k, v) => q := PutBegin(k, v);
        case RemoveWait(k) => q := RemoveBegin(k);
        case SyncWait => q := WriteEnd;
        case WriteEnd => q := Idle;
      }
    }
  }

  lemma OutcomeIdle(x: Shared)
    ensures Outcome(x, Idle) == x && Announces(x, Idle) == []
  {
  }

  function StepsLeft(p: Pc): nat {
    if p == Idle then 0 else if p.WriteEnd? then 1 else if p.PutMid? || p.RemoveMid? || p.SyncWait? then 2
    else if p.PutBegin? || p.RemoveBegin? then 3 else 4
  }

  lemma {:induction false} WriteReturns(x: Shared, p: Pc)
    requires Writing(p) || p == Idle
    ensures Does(x, p, Announces(x, p), Outcome(x, p))
    decreases StepsLeft(p)
  {
    hide SoloStep, Encode, Does, Outcome, Announces;
    if p == Idle {
      DoesNothing(x);
      OutcomeIdle(x);
    } else {
      var ev, y, q := WriteMoves(x, p);
      WriteStepKeeps(x, p, ev, y, q);
      WriteReturns(y, q);
      assert ev != Tau ==> [ev][1..] == [];
      DoesStep(x, p, ev, y, q, Announces(x, p), Outcome(x, p));
    }
  }

  lemma WriteAlone(x: Shared, p: Pc, shown: seq<Event>, x': Shared)
    requires Writing(p)
    ensures Does(x, p, shown, x') <==> shown == Announces(x, p) && x' == Outcome(x, p)
  {
    hide Returns, Outcome, Announces;
    WriteReturns(x, p);
    if Does(x, p, shown, x') {
      var n: nat :| Returns(x, p, n, shown, x');
      WriteEnds(x, p, n, shown, x');
    }
  }

  /** A put that nothing interrupts always returns, and has put one record at the end of the log,
      indexed at the append offset. */
  lemma PutAlone(x: Shared, k: Key, v: Value, shown: seq<Event>, x': Shared)
    ensures Does(x, PutWait(k, v), shown, x') <==>
            && shown == [DidPut(k, v)]
            && x'.index == x.index[k := x.offset]
            && x'.log == x.log + Encode(Put(k, v)) && x'.offset == x.offset + |Encode(Put(k, v))|
            && x'.history == x.history + [Put(k, v)]
  {
    hide Does, Encode;
    WriteAlone(x, PutWait(k, v), shown, x');
  }

  /** A removal likewise, or it finds nothing and changes nothing. */
  lemma RemoveAlone(x: Shared, k: Key, shown: seq<Event>, x': Shared)
    ensures Does(x, RemoveWait(k), shown, x') <==>
            && shown == [DidRemove(k, k in x.index)]
            && if k !in x.index then x' == x
               else
                 && x'.index == x.index - {k}
                 && x'.log == x.log + Encode(Del(k)) && x'.offset == x.offset + |Encode(Del(k))|
                 && x'.history == x.history + [Del(k)]
  {
    hide Does, Encode;
    WriteAlone(x, RemoveWait(k), shown, x');
  }

  // ----- get and visit -----

  /** What readers need: each key of `m` is indexed, and no other, and its record is there. */
  ghost predicate Looks(x: Shared, m: map<Key, Value>) {
    x.index.Keys == m.Keys && forall k | k in m :: PutsAt(x.log, x.index[k], k, m[k])
  }

  predicate ReadsOn(p: Pc) {
    || p.ReadWait? || p.ReadHalf? || p.ReadBegin? || p.ReadAt? || p.ReadOffset? || p.ReadEnd? || p.ReadLeave?
  }

  /** What a reader at `p` holds is so. */
  ghost predicate ReadOk(x: Shared, p: Pc, q: Query, m: map<Key, Value>) {
    match p
    case ReadWait(r) => r == q
    case ReadHalf(r) => r == q
    case ReadBegin(r) => r == q
    case ReadAt(r, todo, out) => r == q && forall k | k in todo :: k in m
    case ReadOffset(r, todo, out, off) =>
      r == q && todo != [] && (forall k | k in todo :: k in m) && todo[0] in x.index && off == x.index[todo[0]]
    case _ => false
  }

  /** From `p` on, `done` is what a reader should deliver. */
  ghost predicate Due(p: Pc, q: Query, m: map<Key, Value>, done: seq<Item>) {
    match p
    case ReadAt(_, todo, out) => Fetches(todo, out, m, done)
    case ReadOffset(_, todo, out, _) => Fetches(todo, out, m, done)
    case _ => Delivers(done, m, Wanted(q, m.Keys))
  }

  /** `done` is `out` and the pairs of the keys `todo`. */
  ghost predicate Fetches(todo: seq<Key>, out: seq<Item>, m: map<Key, Value>, done: seq<Item>) {
    && |done| == |out| + |todo| && done[..|out|] == out
    && forall i :: 0 <= i < |todo| ==> todo[i] in m && done[|out| + i] == (todo[i], m[todo[i]])
  }

  lemma ListedDue(todo: seq<Key>, q: Query, m: map<Key, Value>, done: seq<Item>)
    requires Lists(todo, Wanted(q, m.Keys)) && Fetches(todo, [], m, done)
    ensures Delivers(done, m, Wanted(q, m.Keys))
  {
    hide Wanted, Ascending;
    assert KeysOf(done) == todo;
  }

  lemma FetchesNext(todo: seq<Key>, out: seq<Item>, m: map<Key, Value>, done: seq<Item>)
    requires todo != [] && todo[0] in m && Fetches(todo[1..], out + [(todo[0], m[todo[0]])], m, done)
    ensures Fetches(todo, out, m, done)
  {
    var out' := out + [(todo[0], m[todo[0]])];
    assert done[..|out|] == done[..|out'|][..|out|] == out && done[|out|] == done[..|out'|][|out|];
    forall i | 0 < i < |todo|
      ensures todo[i] in m && done[|out| + i] == (todo[i], m[todo[i]])
    {
      assert todo[1..][i - 1] == todo[i] && done[|out'| + (i - 1)] == (todo[i], m[todo[i]]);
    }
  }

  /** A step of a reader: nothing shared changes, and what is due then was due before. */
  lemma ReadStepDue(x: Shared, p: Pc, ev: Event, y: Shared, p': Pc, q: Query, m: map<Key, Value>, done: seq<Item>)
    requires Looks(x, m) && ReadOk(x, p, q, m) && SoloStep(x, p, ev, y, p')
    ensures y == x
    ensures if ev == Tau then ReadOk(x, p', q, m) && (Due(p', q, m, done) ==> Due(p, q, m, done))
            else p'.ReadEnd? && ev.DidRead? && ev.query == q && Due(p, q, m, ev.out)
  {
    hide Decode, StoreOf, Puts, Good, CanWriteMain, CanReadMain, CanWriteData, CanReadData, CanCollect, Wanted,
      Fetches, Delivers, Ascending;
    ReadIsRead(x, p, ev, y, p', q, m);
    match p {
      case ReadWait(_) =>
      case ReadHalf(_) =>
      case ReadBegin(_) =>
        WantedInMap(q, m);
        if Due(p', q, m, done) {
          ListedDue(p'.todo, q, m, done);
        }
      case ReadAt(_, todo, out) =>
        if todo == [] {
          NothingLeft(out, m);
        }
      case ReadOffset(_, todo, out, off) =>
        assert todo[0] in todo && PutsAt(x.log, off, todo[0], m[todo[0]]);
        assert p' == ReadAt(q, todo[1..], out + [(todo[0], m[todo[0]])]);
        if Due(p', q, m, done) {
          FetchesNext(todo, out, m, done);
        }
    }
  }

  lemma NothingLeft(out: seq<Item>, m: map<Key, Value>)
    ensures Fetches([], out, m, out)
  {
    assert out[..|out|] == out;
  }

  lemma WantedInMap(q: Query, m: map<Key, Value>)
    ensures Wanted(q, m.Keys) <= m.Keys
  {
  }

  /** A step of a reader is a lock step or a read step. */
  lemma ReadIsRead(x: Shared, p: Pc, ev: Event, y: Shared, p': Pc, q: Query, m: map<Key, Value>)
    requires ReadOk(x, p, q, m) && SoloStep(x, p, ev, y, p')
    ensures y == x && if p.ReadWait? then p' == ReadHalf(q) && ev == Tau
                      else if p.ReadHalf? then p' == ReadBegin(q) && ev == Tau
                      else ReadStep(x, p, ev, p')
  {
    hide Decode, StoreOf, Puts, Good, CanWriteMain, CanReadMain, CanWriteData, CanReadData, CanCollect, Lists, RecordIs;
  }

  lemma {:induction false} ReadEnds(x: Shared, p: Pc, n: nat, shown: seq<Event>, x': Shared, q: Query,
      m: map<Key, Value>)
    requires Looks(x, m) && ReadOk(x, p, q, m) && Returns(x, p, n, shown, x')
    ensures x' == x && |shown| == 1 && shown[0].DidRead? && shown[0].query == q && Due(p, q, m, shown[0].out)
    decreases n
  {
    hide SoloStep, Looks, Due;
    var ev, y, p' :| SoloStep(x, p, ev, y, p') && Shows(shown, ev) && Returns(y, p', n - 1, After(shown, ev), x');
    if ev == Tau {
      ReadStepDue(x, p, ev, y, p', q, m, []);
      ReadEnds(y, p', n - 1, shown, x', q, m);
      ReadStepDue(x, p, ev, y, p', q, m, shown[0].out);
    } else {
      ReadStepDue(x, p, ev, y, p', q, m, []);
      ReadLeaves(y, p', n - 1, shown[1..], x');
    }
  }

  lemma {:induction false} ReadLeaves(x: Shared, p: Pc, n: nat, shown: seq<Event>, x': Shared)
    requires (p.ReadEnd? || p.ReadLeave? || p == Idle) && Returns(x, p, n, shown, x')
    ensures x' == x && shown == []
    decreases n
  {
    hide SoloStep;
    if p != Idle {
      var ev, y, q :| SoloStep(x, p, ev, y, q) && Shows(shown, ev) && Returns(y, q, n - 1, After(shown, ev), x');
      LeaveStep(x, p, ev, y, q);
      ReadLeaves(y, q, n - 1, shown, x');
    }
  }

  lemma LeaveStep(x: Shared, p: Pc, ev: Event, y: Shared, q: Pc)
    requires (p.ReadEnd? || p.ReadLeave?) && SoloStep(x, p, ev, y, q)
    ensures y == x && ev == Tau && (if p.ReadEnd? then q.ReadLeave? else q == Idle)
  {
    hide Decode, StoreOf, Puts, Good, CanWriteMain, CanReadMain, CanWriteData, CanReadData, CanCollect, Lists, RecordIs;
  }

  lemma LeaveReturns(x: Shared)
    ensures Does(x, ReadEnd, [], x)
  {
    hide Does;
    DoesNothing(x);
    assert SoloStep(x, ReadLeave, Tau, x, Idle);
    DoesStep(x, ReadLeave, Tau, x, Idle, [], x);
    assert SoloStep(x, ReadEnd, Tau, x, ReadLeave);
    DoesStep(x, ReadEnd, Tau, x, ReadLeave, [], x);
  }

  lemma SoloRead(x: Shared, p: Pc, ev: Event, p': Pc)
    requires ReadStep(x, p, ev, p')
    ensures SoloStep(x, p, ev, x, p')
  {
    hide ReadStep, LockStep, WriteStep, GcReadStep, GcWriteStep;
  }

  lemma SoloLock(x: Shared, p: Pc, p': Pc)
    requires LockStep([p], p, p')
    ensures SoloStep(x, p, Tau, x, p')
  {
    hide ReadStep, LockStep, WriteStep, GcReadStep, GcWriteStep;
  }

  /** The next step of a reader. */
  lemma ReadMoves(x: Shared, p: Pc, q: Query, m: map<Key, Value>) returns (ev: Event, p': Pc)
    requires Looks(x, m) && ReadOk(x, p, q, m)
    ensures SoloStep(x, p, ev, x, p')
    ensures ReadPhase(p') < ReadPhase(p) || (ReadPhase(p') == ReadPhase(p) && ReadStepsLeft(p') < ReadStepsLeft(p))
  {
    hide ReadStep, SoloStep, Looks, Wanted, ReadOk;
    if p.ReadWait? || p.ReadHalf? {
      ev, p' := Tau, if p.ReadWait? then ReadHalf(p.query) else ReadBegin(p.query);
      SoloLock(x, p, p');
    } else {
      ev, p' := ReadNext(x, p, q, m);
      SoloRead(x, p, ev, p');
    }
  }

  lemma ReadNext(x: Shared, p: Pc, q: Query, m: map<Key, Value>) returns (ev: Event, p': Pc)
    requires Looks(x, m) && ReadOk(x, p, q, m) && !p.ReadWait? && !p.ReadHalf?
    ensures ReadStep(x, p, ev, p')
    ensures ReadPhase(p') < ReadPhase(p) || (ReadPhase(p') == ReadPhase(p) && ReadStepsLeft(p') < ReadStepsLeft(p))
  {
    hide Decode, Wanted, Lists;
    ev := Tau;
    match p {
      case ReadBegin(_) =>
        var todo := ListExists(Wanted(q, x.index.Keys));
        p' := ReadAt(q, todo, []);
      case ReadAt(_, todo, out) =>
        if todo == [] {
          ev, p' := DidRead(q, out), ReadEnd;
        } else {
          assert todo[0] in todo;
          p' := ReadOffset(q, todo, out, x.index[todo[0]]);
        }
      case ReadOffset(_, todo, out, off) =>
        assert todo[0] in todo && PutsAt(x.log, off, todo[0], m[todo[0]]);
        assert RecordIs(x.log, off, Put(todo[0], m[todo[0]]));
        p' := ReadAt(q, todo[1..], out + [(todo[0], m[todo[0]])]);
    }
  }

  function ReadPhase(p: Pc): nat {
    match p
    case ReadWait(_) => 4
    case ReadHalf(_) => 3
    case ReadBegin(_) => 2
    case ReadAt(_, _, _) => 1
    case ReadOffset(_, _, _, _) => 1
    case _ => 0
  }

  function ReadStepsLeft(p: Pc): nat {
    match p
    case ReadAt(_, todo, _) => 2 * |todo| + 1
    case ReadOffset(_, todo, _, _) => 2 * |todo|
    case _ => 0
  }

  lemma {:induction false} ReadReturns(x: Shared, p: Pc, q: Query, m: map<Key, Value>) returns (done: seq<Item>)
    requires Looks(x, m) && ReadOk(x, p, q, m)
    ensures Does(x, p, [DidRead(q, done)], x)
    decreases ReadPhase(p), ReadStepsLeft(p)
  {
    hide SoloStep, Looks, Due, Does;
    var ev, p' := ReadMoves(x, p, q, m);
    ReadStepDue(x, p, ev, x, p', q, m, []);
    if ev == Tau {
      done := ReadReturns(x, p', q, m);
    } else {
      done := ev.out;
      LeaveReturns(x);
      assert [ev][1..] == [];
    }
    DoesStep(x, p, ev, x, p', [DidRead(q, done)], x);
  }

  /** A read that nothing interrupts always returns, changes nothing, and delivers what is wanted. */
  lemma ReadAlone(x: Shared, m: map<Key, Value>, q: Query, shown: seq<Event>, x': Shared)
    requires Looks(x, m)
    ensures Does(x, ReadWait(q), shown, x') <==>
            && x' == x && |shown| == 1 && shown[0].DidRead? && shown[0].query == q
            && Delivers(shown[0].out, m, Wanted(q, m.Keys))
  {
    hide Looks, Returns, Delivers, Wanted;
    var done := ReadReturns(x, ReadWait(q), q, m);
    var k: nat :| Returns(x, ReadWait(q), k, [DidRead(q, done)], x);
    ReadEnds(x, ReadWait(q), k, [DidRead(q, done)], x, q, m);
    if n: nat :| Returns(x, ReadWait(q), n, shown, x') {
      ReadEnds(x, ReadWait(q), n, shown, x', q, m);
    }
    if x' == x && |shown| == 1 && shown[0].DidRead? && shown[0].query == q
        && Delivers(shown[0].out, m, Wanted(q, m.Keys)) {
      DeliversUnique(done, shown[0].out, m, Wanted(q, m.Keys));
      assert shown == [DidRead(q, done)];
    }
  }

  /** A `get` that nothing interrupts answers the value of the key, or nothing if it is not there. */
  lemma GetAlone(x: Shared, m: map<Key, Value>, k: Key, shown: seq<Event>, x': Shared)
    requires x.index.Keys == m.Keys && forall j | j in m :: PutsAt(x.log, x.index[j], j, m[j])
    ensures Does(x, ReadWait(One(k)), shown, x') <==>
            x' == x && shown == [DidRead(One(k), if k in m then [(k, m[k])] else [])]
  {
    hide Does, Delivers, Wanted, PutsAt;
    ReadAlone(x, m, One(k), shown, x');
    if |shown| == 1 && shown[0].DidRead? {
      GetDelivers(shown[0].out, m, k);
    }
  }

  /** A `visit` that nothing interrupts delivers just the pairs from `l` to `u`, in ascending order. */
  lemma VisitAlone(x: Shared, m: map<Key, Value>, l: Key, u: Key, shown: seq<Event>, x': Shared)
    requires x.index.Keys == m.Keys && forall j | j in m :: PutsAt(x.log, x.index[j], j, m[j])
    ensures Does(x, ReadWait(Between(l, u)), shown, x') <==>
            && x' == x && |shown| == 1 && shown[0].DidRead? && shown[0].query == Between(l, u)
            && var out := shown[0].out;
               && (forall i, j :: 0 <= i < j < |out| ==> Less(out[i].0, out[j].0))
               && (forall k, v :: (k, v) in out <==> k in m && v == m[k] && !Less(k, l) && !Less(u, k))
  {
    hide Does, Delivers, Wanted, PutsAt, Less;
    ReadAlone(x, m, Between(l, u), shown, x');
    if |shown| == 1 && shown[0].DidRead? {
      VisitDelivers(shown[0].out, m, l, u);
    }
  }

  // ----- compaction -----

  predicate Collecting(p: Pc) {
    p.GcWait? || p.GcGuard? || p.GcWalk? || p.GcReady? || p.GcRewrite?
  }

  /** A compaction of a store `m`: `m` is still what the history means, or is already compacted. */
  ghost predicate Compacts(x: Shared, p: Pc, m: map<Key, Value>) {
    && Inv(State(x, [p]))
    && if Collecting(p) then Abs(x) == m else (Walked(p) || p == Idle) && IsCompact(x.history, m)
  }

  function Rest(ks: seq<Key>, i: nat): nat {
    if i < |ks| then |ks| - i else 0
  }

  function GcStepsLeft(x: Shared, p: Pc): nat {
    var k := |x.index.Keys|;
    match p
    case GcWait => 2 * k + 10
    case GcGuard => 2 * k + 9
    case GcWalk(ks, i, _, _) => k + 8 + Rest(ks, i)
    case GcReady(_, _) => k + 7
    case GcRewrite(ks, i, _, _) => 6 + Rest(ks, i)
    case GcRemoved(_) => 5
    case GcRenamed(_) => 4
    case GcEnd => 3
    case GcLeave => 2
    case GcLast => 1
    case _ => 0
  }

  /** What the steps of a compaction lead to, and what they leave alone. */
  lemma GcPhase(x: Shared, p: Pc, ev: Event, y: Shared, q: Pc)
    requires (Collecting(p) || Walked(p)) && SoloStep(x, p, ev, y, q)
    ensures ev == Tau
    ensures if Collecting(p) then Collecting(q) || (p.GcRewrite? && q.GcRemoved?) else Walked(q) || q == Idle
    ensures if p.GcRewrite? && q.GcRemoved?
            then (forall k | k in p.keys :: k in StoreOf(x.history)) && y.history == Puts(p.keys, StoreOf(x.history))
            else y.history == x.history
  {
    hide Decode, Lists, StoreOf, Puts, Good, RecordIs, CanWriteMain, CanReadMain, CanWriteData, CanReadData, CanCollect;
  }

  lemma GcStepsFall(x: Shared, p: Pc, ev: Event, y: Shared, q: Pc)
    requires (Collecting(p) || Walked(p)) && SoloStep(x, p, ev, y, q)
    ensures GcStepsLeft(y, q) < GcStepsLeft(x, p)
  {
    hide Decode, Lists, StoreOf, Puts, Good, RecordIs, CanWriteMain, CanReadMain, CanWriteData, CanReadData, CanCollect;
    if p.GcGuard? || p.GcReady? {
      ListSize(q.keys, x.index.Keys);
    }
  }

  lemma GcStepCompacts(x: Shared, p: Pc, ev: Event, y: Shared, q: Pc, m: map<Key, Value>)
    requires Compacts(x, p, m) && p != Idle && SoloStep(x, p, ev, y, q)
    ensures Compacts(y, q, m) && ev == Tau
  {
    hide Next, PcOk, Quiet, StoreOf, Puts, Lists;
    NextRefines(State(x, [p]), 0, ev, State(y, [q]));
    GcPhase(x, p, ev, y, q);
    if p.GcRewrite? && q.GcRemoved? {
      assert p in [p];
      RewriteLists(x, p);
    }
  }

  lemma RewriteLists(x: Shared, p: Pc)
    requires p.GcRewrite? && PcOk(x, p)
    ensures Lists(p.keys, Abs(x).Keys)
  {
    hide Lists, StoreOf;
  }

  lemma {:induction false} GcEnds(x: Shared, p: Pc, n: nat, shown: seq<Event>, x': Shared, m: map<Key, Value>)
    requires Compacts(x, p, m) && Returns(x, p, n, shown, x')
    ensures Compacts(x', Idle, m) && shown == []
    decreases n
  {
    hide SoloStep, Compacts;
    if p != Idle {
      var ev, y, q :| SoloStep(x, p, ev, y, q) && Shows(shown, ev) && Returns(y, q, n - 1, After(shown, ev), x');
      GcStepCompacts(x, p, ev, y, q, m);
      GcEnds(y, q, n - 1, After(shown, ev), x', m);
    }
  }

  lemma {:induction false} GcReturns(x: Shared, p: Pc, m: map<Key, Value>) returns (x': Shared)
    requires Compacts(x, p, m)
    ensures Does(x, p, [], x') && Compacts(x', Idle, m)
    decreases GcStepsLeft(x, p)
  {
    hide Inv, Next, StoreOf, IsCompact, Does;
    if p == Idle {
      x' := x;
      DoesNothing(x);
    } else {
      var t, ev, s := NoDeadlock(State(x, [p]), 0);
      NextFrame(State(x, [p]), 0, ev, s);
      var y, q := s.shared, s.threads[0];
      assert s == State(y, [q]);
      GcStepCompacts(x, p, ev, y, q, m);
      GcStepsFall(x, p, ev, y, q);
      x' := GcReturns(y, q, m);
      DoesStep(x, p, ev, y, q, [], x');
    }
  }

  /** A compaction that nothing interrupts always returns; it leaves the compacted log of the same
      store, the index of that log, and the append offset at its end. */
  lemma GcAlone(x: Shared, shown: seq<Event>, x': Shared)
    requires x.log == EncodeAll(x.history) && x.index == IndexOf(x.history) && x.offset == |x.log|
    requires AllGood(x.history)
    ensures Does(x, GcWait, shown, x') <==>
            && shown == [] && IsCompact(x'.history, StoreOf(x.history))
            && x'.log == EncodeAll(x'.history) && x'.index == IndexOf(x'.history) && x'.offset == |x'.log|
  {
    hide Returns, IsCompact, AllGood, StoreOf, EncodeAll, IndexOf, Good;
    var m := Abs(x);
    assert Compacts(x, GcWait, m);
    var z := GcReturns(x, GcWait, m);
    if Does(x, GcWait, shown, x') {
      var n: nat :| Returns(x, GcWait, n, shown, x');
      GcEnds(x, GcWait, n, shown, x', m);
    }
    if Quiet(x') && IsCompact(x'.history, m) {
      CompactUnique(x'.history, z.history, m);
    }
  }
}
