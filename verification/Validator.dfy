/** The repository's own validator: it drives an engine through a list of test cases beside a
    `std::map` and checks every answer. */
module Validators {
  import opened Keys
  import opened TreeSteps
  import opened Codec
  import opened History
  import opened Compaction
  import opened Ranges
  import opened Runs
  import opened Engines
  import Solo

  datatype TestCase =
    | TestPut(key: Key, value: Value)
    | TestDelete(key: Key)
    | TestGet(key: Key)
    | TestVisit(lower: Key, upper: Key)
    | TestGc
    | TestSync(works: bool)
    | TestSnapshot
    | TestNothing

  /** What a case does to the validator's own map. */
  function KvStep(kv: map<Key, Value>, c: TestCase): map<Key, Value> {
    match c
    case TestPut(k, v) => kv[k := v]
    case TestDelete(k) => kv - {k}
    case _ => kv
  }

  function KvAfter(kv: map<Key, Value>, bench: seq<TestCase>): map<Key, Value> {
    if bench == [] then kv else KvStep(KvAfter(kv, bench[..|bench| - 1]), bench[|bench| - 1])
  }

  /** The map after the cases: the last put of a key that no deletion or put of the key follows, or,
      for a key that no case puts or deletes, what the map held before. */
  lemma KvMeans(kv: map<Key, Value>, bench: seq<TestCase>, k: Key, v: Value)
    ensures (k in KvAfter(kv, bench) && KvAfter(kv, bench)[k] == v) <==>
            || (exists i ::
                  && 0 <= i < |bench| && bench[i] == TestPut(k, v)
                  && forall j :: i < j < |bench| && (bench[j].TestPut? || bench[j].TestDelete?) ==> bench[j].key != k)
            || (k in kv && kv[k] == v
                && forall j :: 0 <= j < |bench| && (bench[j].TestPut? || bench[j].TestDelete?) ==> bench[j].key != k)
  {
    hide KvAfter;
    var n := LastTouch(bench, k);
    if n == -1 {
      Untouched(kv, bench, k);
    } else {
      AfterTouch(kv, bench, n, k);
    }
  }

  lemma {:induction false} LastTouch(bench: seq<TestCase>, k: Key) returns (i: int)
    ensures -1 <= i < |bench| && (i >= 0 ==> (bench[i].TestPut? || bench[i].TestDelete?) && bench[i].key == k)
    ensures forall j :: i < j < |bench| && (bench[j].TestPut? || bench[j].TestDelete?) ==> bench[j].key != k
    decreases |bench|
  {
    if bench == [] {
      i := -1;
    } else {
      var c := bench[|bench| - 1];
      if (c.TestPut? || c.TestDelete?) && c.key == k {
        i := |bench| - 1;
      } else {
        i := LastTouch(bench[..|bench| - 1], k);
      }
    }
  }

  lemma {:induction false} AfterTouch(kv: map<Key, Value>, bench: seq<TestCase>, i: nat, k: Key)
    requires i < |bench| && (bench[i].TestPut? || bench[i].TestDelete?) && bench[i].key == k
    requires forall j :: i < j < |bench| && (bench[j].TestPut? || bench[j].TestDelete?) ==> bench[j].key != k
    ensures k in KvAfter(kv, bench) <==> bench[i].TestPut?
    ensures bench[i].TestPut? ==> KvAfter(kv, bench)[k] == bench[i].value
    decreases |bench|
  {
    if i < |bench| - 1 {
      AfterTouch(kv, bench[..|bench| - 1], i, k);
    }
  }

  lemma {:induction false} Untouched(kv: map<Key, Value>, bench: seq<TestCase>, k: Key)
    requires forall j :: 0 <= j < |bench| && (bench[j].TestPut? || bench[j].TestDelete?) ==> bench[j].key != k
    ensures k in KvAfter(kv, bench) <==> k in kv
    ensures k in kv ==> KvAfter(kv, bench)[k] == kv[k]
    decreases |bench|
  {
    if bench != [] {
      Untouched(kv, bench[..|bench| - 1], k);
    }
  }

  /** Whether the engine passes the case. A scan without an upper bound fails when the map holds a key
      that is not empty from `lower` on. A sync fails when it works, for the validator takes the
      return code as a truth value and that of success is 0. A snapshot fails: there are none. All
      others pass. */
  ghost predicate Passes(kv: map<Key, Value>, c: TestCase) {
    match c
    case TestVisit(l, u) => u != [] || forall k | k in kv && !Less(k, l) :: k == []
    case TestSync(works) => !works
    case TestSnapshot => false
    case _ => true
  }

  /** The validator asks for the distance of two iterators, of which the second comes first. */
  predicate Reversed(kv: map<Key, Value>, lower: Key, upper: Key) {
    upper != [] && exists k | k in kv :: Less(upper, k) && Less(k, lower)
  }

  /** C++ defines what the validator does. */
  predicate Defined(kv: map<Key, Value>, c: TestCase) {
    c.TestVisit? ==> !Reversed(kv, c.lower, c.upper)
  }

  /** Passing the case, or failing it, is what the map calls for; nothing is said of what C++ does not
      define. */
  ghost predicate Expected(kv: map<Key, Value>, c: TestCase, ok: bool) {
    Defined(kv, c) ==> (ok <==> Passes(kv, c))
  }

  /** When a case may pass, and when it may fail, in full. */
  lemma ExpectedMeans(kv: map<Key, Value>, c: TestCase, ok: bool)
    ensures Expected(kv, c, ok) <==>
            match c
            case TestVisit(l, u) =>
              if u == [] then ok <==> forall k | k in kv && !Less(k, l) :: k == []
              else ok || exists k | k in kv :: Less(u, k) && Less(k, l)
            case TestSync(works) => ok <==> !works
            case TestSnapshot => !ok
            case _ => ok
  {
    hide Less;
  }

  /** An upper bound for what the cases add to the log. */
  function Cost(bench: seq<TestCase>): nat {
    if bench == [] then 0
    else
      (match bench[0]
       case TestPut(k, v) => 16 + |k| + |v|
       case TestDelete(k) => 16 + |k|
       case _ => 0) + Cost(bench[1..])
  }

  /** What a put and a deletion may add to the log; other cases add nothing. */
  lemma CostMeans(c: TestCase)
    ensures Cost([c]) == match c
                         case TestPut(k, v) => 16 + |k| + |v|
                         case TestDelete(k) => 16 + |k|
                         case _ => 0
  {
    assert [c][1..] == [];
  }

  lemma {:induction false} CostAdds(a: seq<TestCase>, b: seq<TestCase>)
    ensures Cost(a + b) == Cost(a) + Cost(b)
    decreases a
  {
    if a == [] {
      assert a + b == b;
    } else {
      CostAdds(a[1..], b);
      assert (a + b)[1..] == a[1..] + b;
    }
  }

  lemma KvNone(kv: map<Key, Value>)
    ensures KvAfter(kv, []) == kv
  {
  }

  lemma KvNext(kv: map<Key, Value>, bench: seq<TestCase>, i: nat)
    requires i < |bench|
    ensures KvAfter(kv, bench[..i + 1]) == KvStep(KvAfter(kv, bench[..i]), bench[i])
    ensures Cost(bench[i..]) == Cost([bench[i]]) + Cost(bench[i + 1..])
  {
    assert bench[..i + 1][..i] == bench[..i] && bench[i..][1..] == bench[i + 1..];
    assert [bench[i]][1..] == [];
  }

  /** The number of keys delivered is the number expected exactly if the case passes. */
  lemma CountsAgree(out: seq<Item>, kv: map<Key, Value>, lower: Key, upper: Key)
    requires Delivers(out, kv, CodedRange(kv, lower, upper))
    ensures |CountedRange(kv, lower, upper)| == |out| <==> Passes(kv, TestVisit(lower, upper))
  {
    hide Less, Lists;
    var a, b := CodedRange(kv, lower, upper), CountedRange(kv, lower, upper);
    ListSize(KeysOf(out), a);
    CountExact(kv, lower, upper);
    CodedIsCounted(kv, lower, upper);
    SubsetSize(a, b);
  }

  lemma CodedIsCounted(kv: map<Key, Value>, lower: Key, upper: Key)
    ensures CodedRange(kv, lower, upper) <= CountedRange(kv, lower, upper)
  {
  }

  lemma SubsetSize<T>(a: set<T>, b: set<T>)
    requires a <= b
    ensures |a| == |b| <==> a == b
  {
    assert b == a + (b - a) && |b| == |a| + |b - a|;
  }

  /** What a case does to the log. */
  ghost predicate DiskStep(d: Disk, c: TestCase, d': Disk) {
    match c
    case TestPut(k, v) => Step(d, DoPut(k, v), d')
    case TestDelete(k) => Step(d, DoRemove(k), d')
    case TestGc => Step(d, DoGc, d')
    case _ => d' == d
  }

  lemma DiskSteps(bench: seq<TestCase>, disks: seq<Disk>)
    requires |disks| == |bench| + 1
    requires forall i :: 0 <= i < |bench| ==> DiskStep(disks[i], bench[i], disks[i + 1])
    ensures forall i :: 0 <= i < |bench| ==>
              match bench[i]
              case TestPut(k, v) => Step(disks[i], DoPut(k, v), disks[i + 1])
              case TestDelete(k) => Step(disks[i], DoRemove(k), disks[i + 1])
              case TestGc => Step(disks[i], DoGc, disks[i + 1])
              case _ => disks[i + 1] == disks[i]
  {
    hide Step;
    assert forall i :: 0 <= i < |bench| ==> DiskStep(disks[i], bench[i], disks[i + 1]);
  }

  class EngineValidator {
    const engine: Engine
    var kv: map<Key, Value>

    constructor (engine: Engine, kv: map<Key, Value>)
      ensures this.engine == engine && this.kv == kv
      ensures engine.Valid() && engine.log1 == [] && engine.Store() == kv ==> Valid()
    {
      this.engine, this.kv := engine, kv;
    }

    /** The engine holds what the map holds, and is ready for everything. */
    ghost predicate Valid()
      reads this, engine, engine.btree, engine.btree.live
    {
      engine.Valid() && engine.log1 == [] && kv == engine.Store()
    }

    method ValidateGet(key: Key) returns (ok: bool)
      requires Valid()
      ensures ok
    {
      hide Engine.Valid, Engine.Store, Engine.Readable, Engine.OnDisk, Engine.View, Encode, EncodeAll, Step,
        Solo.Does;
      Ready();
      var rc, value := engine.Get(key, []);
      if key in kv {
        ok := rc == Succ && value == kv[key];
      } else {
        ok := rc == NotFound && value == [];
      }
    }

    lemma Ready()
      requires Valid()
      ensures engine.Readable() && engine.Valid() && engine.log1 == [] && kv == engine.Store()
    {
    }

    method ValidatePut(key: Key, value: Value) returns (ok: bool)
      requires Valid() && NulFree(key) && |engine.log| + 16 + |key| + |value| < INT_LIMIT
      modifies this`kv, engine`logOffset, engine`log, engine`history, engine.btree, engine.btree.live
      ensures ok && Valid() && kv == old(kv)[key := value] && |engine.log| == |old(engine.log)| + 16 + |key| + |value|
      ensures fresh(engine.btree.live - old(engine.btree.live))
      ensures Step(old(engine.OnDisk()), DoPut(key, value), engine.OnDisk())
    {
      hide Engine.Valid, Engine.Store, Engine.Readable, Engine.OnDisk, Engine.View, NulFree, Encode, EncodeAll, Step,
        Solo.Does;
      Ready();
      var rc := engine.Put(key, value);
      ok := rc == Succ;
      kv := kv[key := value];
    }

    method ValidateDelete(key: Key) returns (ok: bool)
      requires Valid() && |engine.log| + 16 + |key| < INT_LIMIT
      modifies this`kv, engine`logOffset, engine`log, engine`history, engine.btree, engine.btree.live
      ensures ok && Valid() && kv == old(kv) - {key} && |engine.log| <= |old(engine.log)| + 16 + |key|
      ensures engine.btree.live <= old(engine.btree.live)
      ensures Step(old(engine.OnDisk()), DoRemove(key), engine.OnDisk())
    {
      hide Engine.Valid, Engine.Store, Engine.Readable, Engine.OnDisk, Engine.View, Encode, EncodeAll, Step,
        Solo.Does;
      Ready();
      var found := key in kv;
      var rc := engine.Remove(key);
      ok := if found then rc == Succ else rc == NotFound;
      kv := kv - {key};
    }

    method ValidateVisit(lower: Key, upper: Key) returns (ok: bool)
      requires Valid()
      ensures Expected(kv, TestVisit(lower, upper), ok)
    {
      hide Engine.Valid, Engine.Store, Less, Lists, Passes, CodedRange, Reversed;
      Ready();
      var out := engine.Visit(lower, upper);
      var got: nat := 0;
      while got < |out|
        invariant got <= |out|
      {
        if out[got].0 !in kv || kv[out[got].0] != out[got].1 {
          assert false;
          return false;
        }
        got := got + 1;
      }
      if Reversed(kv, lower, upper) {
        ok := *;
        return;
      }
      var range := set k | k in kv && !Less(k, lower) && (upper == [] || !Less(upper, k));
      assert range == CountedRange(kv, lower, upper);
      CountsAgree(out, kv, lower, upper);
      ok := |range| == got;
    }

    method Gc()
      requires Valid()
      modifies engine`logOffset, engine`log, engine`log1, engine`history, engine.btree, engine.btree.live
      ensures Valid() && |engine.log| <= |old(engine.log)| && engine.btree.live == old(engine.btree.live)
      ensures IsCompact(engine.history, old(engine.Store())) && engine.log == EncodeAll(engine.history)
      ensures Step(old(engine.OnDisk()), DoGc, engine.OnDisk())
    {
      hide IsCompact, StoreOf, Engine.OnDisk, Engine.View, Step, Solo.Does, AppendsLand, ReadsLand;
      engine.Gc();
    }

    method ValidateSync(works: bool) returns (ok: bool)
      ensures ok <==> !works
    {
      var rc := engine.Sync(works);
      ok := Number(rc) != 0;
    }

    /** Runs one case. */
    method ValidateCase(c: TestCase) returns (ok: bool)
      requires Valid() && |engine.log| + Cost([c]) < INT_LIMIT && (c.TestPut? ==> NulFree(c.key))
      modifies this`kv, engine`logOffset, engine`log, engine`log1, engine`history, engine.btree, engine.btree.live
      ensures Valid() && Expected(old(kv), c, ok) && (ok ==> kv == KvStep(old(kv), c)) && (!ok ==> kv == old(kv))
      ensures |engine.log| <= |old(engine.log)| + Cost([c]) && fresh(engine.btree.live - old(engine.btree.live))
      ensures DiskStep(old(engine.OnDisk()), c, engine.OnDisk()) && (!ok ==> engine.OnDisk() == old(engine.OnDisk()))
      ensures c.TestGc? ==> IsCompact(engine.history, old(engine.Store())) && engine.log == EncodeAll(engine.history)
    {
      hide Valid, Less, Reversed, Step, IsCompact, EncodeAll, StoreOf;
      assert Cost([c][1..]) == 0;
      match c {
        case TestPut(k, v) => ok := ValidatePut(k, v);
        case TestDelete(k) => ok := ValidateDelete(k);
        case TestGet(k) => ok := ValidateGet(k);
        case TestVisit(l, u) => ok := ValidateVisit(l, u);
        case TestGc => Gc(); ok := true;
        case TestSync(works) => ok := ValidateSync(works);
        case TestSnapshot => ok := false;
        case TestNothing => ok := true;
      }
    }

    /** Runs the cases up to the first one that fails. `disks` are the logs before, between and after
        the cases that pass. */
    method ValidateExecute(bench: seq<TestCase>) returns (done: nat, ghost disks: seq<Disk>)
      requires Valid() && |engine.log| + Cost(bench) < INT_LIMIT
      requires forall c | c in bench && c.TestPut? :: NulFree(c.key)
      modifies this`kv, engine`logOffset, engine`log, engine`log1, engine`history, engine.btree, engine.btree.live
      ensures Valid() && done <= |bench| && kv == KvAfter(old(kv), bench[..done]) && engine.Store() == kv
      ensures forall i :: 0 <= i < done ==> Expected(KvAfter(old(kv), bench[..i]), bench[i], true)
      ensures done < |bench| ==> Expected(KvAfter(old(kv), bench[..done]), bench[done], false)
      ensures |disks| == done + 1 && disks[0] == old(engine.OnDisk()) && disks[done] == engine.OnDisk()
      ensures forall i :: 0 <= i < done ==>
                match bench[i]
                case TestPut(k, v) => Step(disks[i], DoPut(k, v), disks[i + 1])
                case TestDelete(k) => Step(disks[i], DoRemove(k), disks[i + 1])
                case TestGc => Step(disks[i], DoGc, disks[i + 1])
                case _ => disks[i + 1] == disks[i]
    {
      hide Valid, Expected, KvStep, Step, IsCompact, EncodeAll, Engine.OnDisk, DiskStep, KvAfter, Cost;
      done := 0;
      disks := [engine.OnDisk()];
      KvNone(kv);
      assert bench[..0] == [] && bench[0..] == bench;
      var ok := true;
      while done < |bench|
        invariant done <= |bench| && Valid() && kv == KvAfter(old(kv), bench[..done])
        invariant |engine.log| + Cost(bench[done..]) < INT_LIMIT
        invariant fresh(engine.btree.live - old(engine.btree.live))
        invariant forall i :: 0 <= i < done ==> Expected(KvAfter(old(kv), bench[..i]), bench[i], true)
        invariant |disks| == done + 1 && disks[0] == old(engine.OnDisk()) && disks[done] == engine.OnDisk()
        invariant forall i :: 0 <= i < done ==> DiskStep(disks[i], bench[i], disks[i + 1])
      {
        var c := bench[done];
        KvNext(old(kv), bench, done);
        ok := ValidateCase(c);
        if !ok {
          break;
        }
        disks := disks + [engine.OnDisk()];
        done := done + 1;
      }
      DiskSteps(bench[..done], disks);
      Ready();
    }
  }
}
