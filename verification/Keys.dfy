/** Keys are C++ `std::string`s: byte sequences compared byte by byte as unsigned
    characters. `Num` embeds that order into the reals in [0, 1), so that the proofs about
    the tree can leave order reasoning to linear arithmetic. */
module Keys {

  newtype byte = x: int | 0 <= x < 256

  type Key = seq<byte>

  /** `operator<` of `std::string`. */
  predicate Less(a: Key, b: Key) {
    |b| > 0 && (|a| == 0 || a[0] < b[0] || (a[0] == b[0] && Less(a[1..], b[1..])))
  }

  /** `a` and `b` agree on their first `n` bytes, and there `a` ends or has the smaller byte. */
  ghost predicate SplitsAt(a: Key, b: Key, n: nat) {
    n <= |a| && n < |b| && a[..n] == b[..n] && (n == |a| || a[n] as int < b[n] as int)
  }

  lemma {:induction false} LessSplits(a: Key, b: Key)
    ensures Less(a, b) <==> exists n: nat :: SplitsAt(a, b, n)
    decreases |a|
  {
    if b == [] {
    } else if a == [] || a[0] < b[0] {
      assert SplitsAt(a, b, 0);
    } else if a[0] == b[0] {
      LessSplits(a[1..], b[1..]);
      forall n: nat
        ensures SplitsAt(a, b, n + 1) <==> SplitsAt(a[1..], b[1..], n)
      {
        if n < |a| && n + 1 < |b| {
          assert a[..n + 1] == [a[0]] + a[1..][..n] && b[..n + 1] == [b[0]] + b[1..][..n];
        }
      }
      if Less(a, b) {
        var n: nat :| SplitsAt(a[1..], b[1..], n);
        assert SplitsAt(a, b, n + 1);
      }
      if n: nat :| SplitsAt(a, b, n) {
        assert n > 0;
        assert SplitsAt(a[1..], b[1..], n - 1);
      }
    } else {
      assert forall n: nat :: SplitsAt(a, b, n) ==> n == 0 || a[..n][0] == b[..n][0];
    }
  }

  /** The first byte that differs decides, as an unsigned number; where none does, the shorter key
      comes first. */
  lemma LessMeans(a: Key, b: Key)
    ensures Less(a, b) <==>
            exists n: nat :: n <= |a| && n < |b| && a[..n] == b[..n] && (n == |a| || a[n] as int < b[n] as int)
  {
    hide Less;
    LessSplits(a, b);
    if n: nat :| n <= |a| && n < |b| && a[..n] == b[..n] && (n == |a| || a[n] as int < b[n] as int) {
      assert SplitsAt(a, b, n);
    }
  }

  /** Reads a key as the base-257 fraction whose digits are its bytes plus one. */
  ghost function Num(k: Key): (r: real)
    ensures 0.0 <= r < 1.0
    ensures r == 0.0 <==> k == []
  {
    if k == [] then 0.0 else ((k[0] as int) as real + 1.0 + Num(k[1..])) / 257.0
  }

  lemma {:induction false} NumInjective(a: Key, b: Key)
    requires Num(a) == Num(b)
    ensures a == b
  {
    if a != [] && b != [] {
      var x, y := a[0] as int, b[0] as int;
      assert x as real + Num(a[1..]) == y as real + Num(b[1..]);
      assert x == y;
      NumInjective(a[1..], b[1..]);
      assert a == [a[0]] + a[1..] && b == [b[0]] + b[1..];
    }
  }

  /** The embedding is exact: the code's comparison is comparison of fractions. */
  lemma {:induction false} LessIsNum(a: Key, b: Key)
    ensures Less(a, b) <==> Num(a) < Num(b)
  {
    if a != [] && b != [] {
      var x, y := a[0] as int, b[0] as int;
      LessIsNum(a[1..], b[1..]);
      assert x < y ==> x as real + 1.0 <= y as real;
      assert y < x ==> y as real + 1.0 <= x as real;
    }
  }

  /** No NUL byte: what a key must satisfy to survive a copy through `c_str()`. */
  predicate NulFree(k: Key) {
    0 !in k
  }

  /** The string that `std::string(k.c_str())` builds: `k` up to its first NUL byte.
      A key survives the copy exactly when it holds no NUL byte. */
  function CStr(k: Key): (r: Key)
    ensures r <= k && 0 !in r && (|r| < |k| ==> k[|r|] == 0)
    ensures r == k <==> NulFree(k)
  {
    if k == [] || k[0] == 0 then [] else [k[0]] + CStr(k[1..])
  }

  predicate IsUpperBound(ks: seq<Key>, k: Key, i: nat) {
    && i <= |ks|
    && (forall j :: 0 <= j < i ==> !Less(k, ks[j]))
    && (forall j :: i <= j < |ks| ==> Less(k, ks[j]))
  }
}
