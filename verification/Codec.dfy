/** Log records: two 64-bit little-endian lengths, the key and, for a put, the value. A removal
    carries the length 2^64 - 1 in the place of a value's. */
module Codec {
  import opened Keys

  type Bytes = seq<byte>
  type Value = seq<byte>

  datatype Op = Put(key: Key, value: Value) | Del(key: Key)

  const TOMBSTONE := 0xFFFF_FFFF_FFFF_FFFF

  // ----- 64-bit numbers -----

  function Pow256(n: nat): nat {
    if n == 0 then 1 else 256 * Pow256(n - 1)
  }

  /** `n` as `k` bytes, least significant first. */
  function ToBytes(n: nat, k: nat): (r: Bytes)
    ensures |r| == k
  {
    if k == 0 then [] else [(n % 256) as byte] + ToBytes(n / 256, k - 1)
  }

  function FromBytes(b: Bytes): nat {
    if b == [] then 0 else b[0] as nat + 256 * FromBytes(b[1..])
  }

  lemma {:induction false} FromTo(n: nat, k: nat)
    requires n < Pow256(k)
    ensures FromBytes(ToBytes(n, k)) == n
  {
    if k > 0 {
      FromTo(n / 256, k - 1);
      assert ToBytes(n, k)[1..] == ToBytes(n / 256, k - 1);
    }
  }

  /** The number that eight bytes stand for, the first one counting least. */
  lemma FromBytesMeans(b: Bytes)
    requires |b| == 8
    ensures FromBytes(b) == b[0] as int + 0x100 * b[1] as int + 0x1_0000 * b[2] as int + 0x100_0000 * b[3] as int
                            + 0x1_0000_0000 * b[4] as int + 0x100_0000_0000 * b[5] as int
                            + 0x1_0000_0000_0000 * b[6] as int + 0x100_0000_0000_0000 * b[7] as int
  {
    hide FromBytes;
    FromFirst(b);
    FromFirst(b[1..]);
    FromFirst(b[2..]);
    FromFirst(b[3..]);
    FromFirst(b[4..]);
    FromFirst(b[5..]);
    FromFirst(b[6..]);
    FromFirst(b[7..]);
    assert b[1..][1..] == b[2..] && b[2..][1..] == b[3..] && b[3..][1..] == b[4..] && b[4..][1..] == b[5..];
    assert b[5..][1..] == b[6..] && b[6..][1..] == b[7..] && b[7..][1..] == [];
    FromNothing();
  }

  lemma FromFirst(b: Bytes)
    requires b != []
    ensures FromBytes(b) == b[0] as int + 0x100 * FromBytes(b[1..])
  {
  }

  lemma FromNothing()
    ensures FromBytes([]) == 0
  {
  }

  /** The eight bytes of a number, the least significant first. */
  lemma ToBytesMeans(n: nat)
    ensures var b := ToBytes(n, 8);
            && b[0] as int == n % 0x100
            && b[1] as int == n / 0x100 % 0x100
            && b[2] as int == n / 0x1_0000 % 0x100
            && b[3] as int == n / 0x100_0000 % 0x100
            && b[4] as int == n / 0x1_0000_0000 % 0x100
            && b[5] as int == n / 0x100_0000_0000 % 0x100
            && b[6] as int == n / 0x1_0000_0000_0000 % 0x100
            && b[7] as int == n / 0x100_0000_0000_0000 % 0x100
  {
    hide ToBytes;
    Quotients(n);
    ToFirst(n, 8);
    ToFirst(n / 0x100, 7);
    ToFirst(n / 0x1_0000, 6);
    ToFirst(n / 0x100_0000, 5);
    ToFirst(n / 0x1_0000_0000, 4);
    ToFirst(n / 0x100_0000_0000, 3);
    ToFirst(n / 0x1_0000_0000_0000, 2);
    ToFirst(n / 0x100_0000_0000_0000, 1);
  }

  lemma ToFirst(n: nat, k: nat)
    requires k > 0
    ensures ToBytes(n, k)[0] as int == n % 0x100
    ensures forall i :: 0 < i < k ==> ToBytes(n, k)[i] == ToBytes(n / 0x100, k - 1)[i - 1]
  {
  }

  lemma Quotients(n: nat)
    ensures n / 0x100 / 0x100 == n / 0x1_0000
    ensures n / 0x1_0000 / 0x100 == n / 0x100_0000
    ensures n / 0x100_0000 / 0x100 == n / 0x1_0000_0000
    ensures n / 0x1_0000_0000 / 0x100 == n / 0x100_0000_0000
    ensures n / 0x100_0000_0000 / 0x100 == n / 0x1_0000_0000_0000
    ensures n / 0x1_0000_0000_0000 / 0x100 == n / 0x100_0000_0000_0000
  {
  }

  lemma Digit(d: nat, m: nat)
    requires d < 256
    ensures (d + 256 * m) % 256 == d && (d + 256 * m) / 256 == m
  {
  }

  lemma {:induction false} ToFrom(b: Bytes)
    ensures FromBytes(b) < Pow256(|b|) && ToBytes(FromBytes(b), |b|) == b
  {
    if b != [] {
      ToFrom(b[1..]);
      Digit(b[0] as nat, FromBytes(b[1..]));
      assert b == [b[0]] + b[1..];
    }
  }

  lemma EightBytes()
    ensures Pow256(8) == TOMBSTONE + 1
  {
    assert Pow256(4) == 0x1_0000_0000;
    assert Pow256(8) == 0x1_0000_0000 * Pow256(4);
  }

  // ----- records -----

  /** The lengths fit 64 bits, and a value's is not the removal mark. */
  predicate Fits(op: Op) {
    |op.key| <= TOMBSTONE && (op.Put? ==> |op.value| < TOMBSTONE)
  }

  /** The bytes that `put` and `remove` append. */
  function Encode(op: Op): (r: Bytes)
    ensures |r| == 16 + |op.key| + (if op.Put? then |op.value| else 0)
  {
    match op
    case Put(key, value) => ToBytes(|key|, 8) + ToBytes(|value|, 8) + key + value
    case Del(key) => ToBytes(|key|, 8) + ToBytes(TOMBSTONE, 8) + key
  }

  /** What reading one record from the front of `b` gives. */
  datatype Decoded = Fail | Got(op: Op)

  function Decode(b: Bytes): (r: Decoded)
    ensures r.Got? ==> |Encode(r.op)| <= |b|
  {
    if |b| < 16 then Fail
    else
      var k, v := FromBytes(b[..8]), FromBytes(b[8..16]);
      if v != TOMBSTONE then
        if |b| < 16 + k || |b| < 16 + k + v then Fail else Got(Put(b[16..16 + k], b[16 + k..16 + k + v]))
      else
        if |b| < 16 + k then Fail else Got(Del(b[16..16 + k]))
  }

  lemma HeaderOf(op: Op, b: Bytes)
    requires Fits(op) && |b| >= 16 && b[..16] == Encode(op)[..16]
    ensures FromBytes(b[..8]) == |op.key|
    ensures FromBytes(b[8..16]) == if op.Put? then |op.value| else TOMBSTONE
  {
    EightBytes();
    var e := Encode(op);
    var n := if op.Put? then |op.value| else TOMBSTONE;
    FromTo(|op.key|, 8);
    FromTo(n, 8);
    assert b[..8] == b[..16][..8] == e[..8] == ToBytes(|op.key|, 8);
    assert b[8..16] == b[..16][8..] == e[8..16] == ToBytes(n, 8);
  }

  /** Decoding an encoded operation, whatever follows it, gives it back. */
  lemma DecodeEncode(op: Op, rest: Bytes)
    requires Fits(op)
    ensures Decode(Encode(op) + rest) == Got(op)
  {
    var e, b := Encode(op), Encode(op) + rest;
    assert b[..16] == e[..16];
    HeaderOf(op, b);
    var k := |op.key|;
    assert b[16..16 + k] == e[16..16 + k] == op.key;
    if op.Put? {
      var v := |op.value|;
      assert b[16 + k..16 + k + v] == e[16 + k..16 + k + v] == op.value;
    }
  }

  /** No strict prefix of a record decodes. */
  lemma PrefixFails(op: Op, n: nat)
    requires Fits(op) && n < |Encode(op)|
    ensures Decode(Encode(op)[..n]) == Fail
  {
    var b := Encode(op)[..n];
    if n >= 16 {
      assert b[..16] == Encode(op)[..16];
      HeaderOf(op, b);
    }
  }

  lemma HeaderBytes(b: Bytes)
    requires Decode(b).Got?
    ensures Fits(Decode(b).op) && Encode(Decode(b).op)[..16] == b[..16]
  {
    EightBytes();
    ToFrom(b[..8]);
    ToFrom(b[8..16]);
    assert b[..16] == b[..8] + b[8..16];
  }

  lemma BodyBytes(b: Bytes)
    requires Decode(b).Got?
    ensures var e := Encode(Decode(b).op);
            |e| <= |b| && e[16..] == b[16..|e|]
  {
    hide FromBytes, ToBytes;
    var op := Decode(b).op;
    var e, k := Encode(op), |op.key|;
    assert e[16..] == op.key + (if op.Put? then op.value else []);
    assert b[16..|e|] == b[16..16 + k] + b[16 + k..|e|];
  }

  /** What decodes is an encoding: bytes never decode to an operation that was not written. */
  lemma DecodedIsEncoded(b: Bytes)
    requires Decode(b).Got?
    ensures var op := Decode(b).op;
            Fits(op) && |Encode(op)| <= |b| && Encode(op) == b[..|Encode(op)|]
  {
    HeaderBytes(b);
    BodyBytes(b);
    hide Encode, Decode, Fits;
    var e := Encode(Decode(b).op);
    assert e == e[..16] + e[16..] && b[..|e|] == b[..16] + b[16..|e|];
  }

  /** The layout of a record: the number in the first eight bytes is the key's length; the one in the
      next eight is the value's, or eight bytes 255 for a removal; key and value follow. */
  lemma RecordLayout(op: Op)
    requires |op.key| < 0x1_0000_0000_0000_0000 && (op.Put? ==> |op.value| < 0xFFFF_FFFF_FFFF_FFFF)
    ensures var e, k := Encode(op), |op.key|;
            && |e| == 16 + k + (if op.Put? then |op.value| else 0)
            && FromBytes(e[..8]) == k && e[16..16 + k] == op.key
            && (op.Put? ==> FromBytes(e[8..16]) == |op.value| && e[16 + k..] == op.value)
            && (op.Del? ==> forall i :: 8 <= i < 16 ==> e[i] == 255)
  {
    hide FromBytes, ToBytes;
    var e := Encode(op);
    assert e == e[..|e|];
    HeaderOf(op, e);
    if op.Del? {
      RemovalMark();
      assert e[8..16] == ToBytes(TOMBSTONE, 8);
      assert forall i :: 8 <= i < 16 ==> e[i] == e[8..16][i - 8];
    }
  }

  lemma RemovalMark()
    ensures forall i :: 0 <= i < 8 ==> ToBytes(TOMBSTONE, 8)[i] == 255
  {
    hide ToBytes;
    ToBytesMeans(TOMBSTONE);
  }

  /** Decoding gives an operation exactly if its record is what `b` starts with. */
  lemma DecodeMeans(b: Bytes, op: Op)
    ensures Decode(b) == Got(op) <==>
            && |op.key| < 0x1_0000_0000_0000_0000 && (op.Put? ==> |op.value| < 0xFFFF_FFFF_FFFF_FFFF)
            && |Encode(op)| <= |b| && b[..|Encode(op)|] == Encode(op)
  {
    hide Encode, Decode;
    var n := |Encode(op)|;
    if n <= |b| && b[..n] == Encode(op) && Fits(op) {
      assert b == Encode(op) + b[n..];
      DecodeEncode(op, b[n..]);
    }
    if Decode(b) == Got(op) {
      DecodedIsEncoded(b);
    }
  }

  // ----- files -----

  const CHUNK := 8092

  /** A file opened for reading: `fseek` and `fread`. */
  class Reader {
    const file: Bytes
    var pos: nat

    constructor (file: Bytes)
      ensures this.file == file && pos == 0 && Rest() == file
    {
      this.file, pos := file, 0;
    }

    function Rest(): Bytes
      reads this
    {
      if pos <= |file| then file[pos..] else []
    }

    method Seek(p: nat)
      modifies this`pos
      ensures pos == p
    {
      pos := p;
    }

    /** `fread`: fewer than `n` bytes at the end of the file. */
    method Read(n: nat) returns (b: Bytes)
      modifies this`pos
      ensures |b| == (if n <= |old(Rest())| then n else |old(Rest())|) && b == old(Rest())[..|b|]
      ensures Rest() == old(Rest())[|b|..] && pos == old(pos) + |b|
    {
      b := if n <= |Rest()| then Rest()[..n] else Rest();
      pos := pos + |b|;
    }
  }

  /** A file opened for appending: `fwrite` adds to what is there. */
  class Writer {
    var content: Bytes

    constructor (content: Bytes)
      ensures this.content == content
    {
      this.content := content;
    }

    method Write(b: Bytes) returns (n: nat)
      modifies this`content
      ensures n == |b| && content == old(content) + b
    {
      n := |b|;
      content := content + b;
    }
  }

  /** How much of `num` bytes the chunked reads give when `there` of them exist. */
  function Chunked(num: nat, there: nat): (r: nat)
    ensures r <= there && r <= num && r == if num <= there then num else there - there % 8092
  {
    if num <= there then num else there / CHUNK * CHUNK
  }

  lemma ChunkedShort(num: nat, there: nat, s: nat)
    requires s <= there < num && s % CHUNK == 0 && there - s < CHUNK
    ensures Chunked(num, there) == s
  {
  }

  /** Reads `num` bytes in chunks: all of them when the file has as many, and otherwise only
      whole chunks. */
  method ReadNum(r: Reader, num: nat, line: Bytes) returns (ok: bool, out: Bytes)
    modifies r`pos
    ensures ok <==> num <= |old(r.Rest())|
    ensures ok ==> out == line + old(r.Rest())[..num] && r.Rest() == old(r.Rest())[num..] && r.pos == old(r.pos) + num
    ensures !ok ==> out == line + old(r.Rest())[..Chunked(num, |old(r.Rest())|)] && r.Rest() == []
  {
    hide Chunked;
    ghost var b := r.Rest();
    out := line;
    var s: nat := 0;
    while s < num
      invariant s <= num && s <= |b| && (s == num || s % CHUNK == 0)
      invariant out == line + b[..s] && r.Rest() == b[s..] && r.pos == old(r.pos) + s
    {
      var len: nat := if num - s < CHUNK then num - s else CHUNK;
      var buf := r.Read(len);
      if |buf| < len {
        ChunkedShort(num, |b|, s);
        return false, out;
      }
      assert b[..s + len] == b[..s] + b[s..][..len];
      out := out + buf;
      s := s + len;
    }
    ok := true;
  }

  /** Appends `line` in chunks. */
  method LogLine(w: Writer, line: Bytes)
    modifies w`content
    ensures w.content == old(w.content) + line
  {
    var s: nat := 0;
    while s < |line|
      invariant s <= |line|
      invariant w.content == old(w.content) + line[..s]
    {
      var len: nat := if |line| - s < CHUNK then |line| - s else CHUNK;
      var n := w.Write(line[s..s + len]);
      assert line[..s + len] == line[..s] + line[s..s + len];
      s := s + n;
    }
    assert line[..s] == line;
  }

  /** Reads one length. */
  method ReadSize(r: Reader) returns (ok: bool, size: nat, buf: Bytes)
    modifies r`pos
    ensures ok <==> |old(r.Rest())| >= 8
    ensures ok ==> buf == old(r.Rest())[..8] && size == FromBytes(buf)
    ensures ok ==> r.Rest() == old(r.Rest())[8..] && r.pos == old(r.pos) + 8
  {
    buf := r.Read(8);
    ok := |buf| == 8;
    size := FromBytes(buf);
  }

  /** `b` starts with an operation, which `ret`, `key` and `value` report and `rest` follows. */
  ghost predicate Reports(b: Bytes, ret: int, key: Key, value: Value, rest: Bytes) {
    match Decode(b)
    case Fail => ret == -1
    case Got(Put(k, v)) => ret == 1 && key == k && value == v && 16 + |k| + |v| <= |b| && rest == b[16 + |k| + |v|..]
    case Got(Del(k)) => ret == 0 && key == k && value == [] && 16 + |k| <= |b| && rest == b[16 + |k|..]
  }

  /** Reads one record: 1 for a put, 0 for a removal, -1 when the file ends first. */
  method ReadKeyValue(r: Reader) returns (ret: int, key: Key, value: Value)
    modifies r`pos
    ensures Reports(old(r.Rest()), ret, key, value, r.Rest())
    ensures Decode(old(r.Rest())) == match ret
                                     case 1 => Got(Put(key, value))
                                     case 0 => Got(Del(key))
                                     case _ => Fail
    ensures ret in {-1, 0, 1} && (ret == 0 ==> value == [])
    ensures ret != -1 ==> r.pos == old(r.pos) + 16 + |key| + |value|
  {
    hide Chunked, FromBytes, Reader.Rest, Decode, Encode;
    ghost var b := r.Rest();
    HeaderDecodes(b);
    ret, key, value := -1, [], [];
    var ok, kSize, vSize, buf;
    ok, kSize, buf := ReadSize(r);
    if !ok {
      return;
    }
    ok, vSize, buf := ReadSize(r);
    if !ok {
      return;
    }
    assert b[8..][..8] == b[8..16] && b[8..][8..] == b[16..];
    if vSize != TOMBSTONE {
      ret, key, value := ReadPut(r, kSize, vSize, b);
    } else {
      ok, key := ReadNum(r, kSize, key);
      if !ok {
        return;
      }
      assert b[16..][..kSize] == b[16..16 + kSize] && b[16..][kSize..] == b[16 + kSize..];
      ret := 0;
    }
  }

  /** What the lengths in a header, and the length of what follows, make of it. */
  lemma HeaderDecodes(b: Bytes)
    ensures |b| < 16 ==> Decode(b) == Fail
    ensures |b| >= 16 ==>
              var k, v := FromBytes(b[..8]), FromBytes(b[8..16]);
              Decode(b) == if v != TOMBSTONE then
                             if 16 + k + v <= |b| then Got(Put(b[16..16 + k], b[16 + k..16 + k + v])) else Fail
                           else
                             if 16 + k <= |b| then Got(Del(b[16..16 + k])) else Fail
  {
    hide FromBytes;
  }

  lemma PutParts(b: Bytes, k: nat, v: nat)
    requires |b| >= 16 + k + v
    ensures b[16..][..k] == b[16..16 + k] && b[16..][k..] == b[16 + k..]
    ensures b[16 + k..][..v] == b[16 + k..16 + k + v] && b[16 + k..][v..] == b[16 + k + v..]
  {
  }

  /** The rest of a put, after its two lengths. */
  method ReadPut(r: Reader, kSize: nat, vSize: nat, ghost b: Bytes) returns (ret: int, key: Key, value: Value)
    requires |b| >= 16 && r.Rest() == b[16..] && kSize == FromBytes(b[..8]) && vSize == FromBytes(b[8..16])
      && vSize != TOMBSTONE
    modifies r`pos
    ensures Reports(b, ret, key, value, r.Rest())
    ensures ret != -1 ==> r.pos == old(r.pos) + |key| + |value|
  {
    hide Chunked, FromBytes, Reader.Rest, Decode, Encode;
    HeaderDecodes(b);
    if |b| >= 16 + kSize + vSize {
      PutParts(b, kSize, vSize);
    }
    ret, key, value := -1, [], [];
    var ok;
    ok, key := ReadNum(r, kSize, key);
    if !ok {
      return;
    }
    ok, value := ReadNum(r, vSize, value);
    if !ok {
      return;
    }
    ret := 1;
  }

  /** How many bytes a header announces, with the sum of the lengths kept to 64 bits. */
  function Announced(k: nat, v: nat): nat {
    if v != TOMBSTONE then (k + v) % (TOMBSTONE + 1) else k
  }

  /** What is copied of `b`: a whole record, or as much of one as whole reads give. */
  function LineOf(b: Bytes): Bytes {
    if |b| < 8 then []
    else if |b| < 16 then b[..8]
    else b[..16 + Chunked(Announced(FromBytes(b[..8]), FromBytes(b[8..16])), |b| - 16)]
  }

  /** A record that is cut short within its lengths gives the lengths that are whole. Otherwise as many
      bytes follow as both lengths say, their sum kept to 64 bits, if they are there; if not, whole
      reads of 8092 bytes are kept. */
  lemma LineMeans(b: Bytes)
    ensures |b| < 8 ==> LineOf(b) == []
    ensures 8 <= |b| < 16 ==> LineOf(b) == b[..8]
    ensures |b| >= 16 ==>
              var k, v, there := FromBytes(b[..8]), FromBytes(b[8..16]), |b| - 16;
              var n := if v == 0xFFFF_FFFF_FFFF_FFFF then k else (k + v) % 0x1_0000_0000_0000_0000;
              LineOf(b) == b[..16 + if n <= there then n else there - there % 8092]
  {
    hide FromBytes;
  }

  /** A record that decodes is copied byte for byte. */
  lemma LineOfRecord(b: Bytes)
    requires Decode(b).Got? && |b| <= TOMBSTONE
    ensures LineOf(b) == Encode(Decode(b).op)
  {
    hide ToBytes, FromBytes;
    DecodedIsEncoded(b);
  }

  /** Copies one record from the front of the file, undecoded. */
  method ReadLine(r: Reader) returns (line: Bytes)
    modifies r`pos
    ensures line == LineOf(old(r.Rest()))
    ensures Decode(old(r.Rest())).Got? && |old(r.Rest())| <= TOMBSTONE ==> line == Encode(Decode(old(r.Rest())).op)
  {
    hide ToBytes, FromBytes, Decode, Encode, Chunked, Announced;
    ghost var b := r.Rest();
    if Decode(b).Got? && |b| <= TOMBSTONE {
      LineOfRecord(b);
    }
    line := [];
    var ok, kSize, vSize, buf;
    ok, kSize, buf := ReadSize(r);
    if !ok {
      return;
    }
    line := line + buf;
    ok, vSize, buf := ReadSize(r);
    if !ok {
      return;
    }
    line := line + buf;
    assert b[8..][..8] == b[8..16] && b[8..][8..] == b[16..] && b[..8] + b[8..16] == b[..16];
    line := ReadBody(r, kSize, vSize, line, b);
  }

  /** What follows the two lengths. */
  method ReadBody(r: Reader, kSize: nat, vSize: nat, header: Bytes, ghost b: Bytes) returns (line: Bytes)
    requires |b| >= 16 && header == b[..16] && r.Rest() == b[16..]
    modifies r`pos
    ensures line == b[..16 + Chunked(Announced(kSize, vSize), |b| - 16)]
  {
    var total := kSize;
    if vSize != TOMBSTONE {
      total := (total + vSize) % (TOMBSTONE + 1);
    }
    ghost var n := Chunked(total, |b| - 16);
    assert b[..16] + b[16..][..n] == b[..16 + n];
    var ok;
    ok, line := ReadNum(r, total, header);
  }
}
