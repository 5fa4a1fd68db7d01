/** SunSpec data types and values, and their big-endian form in registers. Floating point
    values are bit patterns. */
module SunsValue {
  import opened ByteBuffer
  import opened CStrings

  datatype Type =
    | Null | Int16 | UInt16 | Acc16 | Int32 | UInt32 | Float32 | Acc32
    | Int64 | UInt64 | Float64 | Acc64 | Enum16 | Enum32 | Bitfield16 | Bitfield32
    | SunsSf | String | Pad | IPv4 | IPv6 | Undef

  /** suns_type_size */
  function TypeSize(t: Type): (n: nat)
    ensures n in {0, 2, 4, 8}
  {
    match t
    case Null | String | Undef => 0
    case Int16 | UInt16 | Acc16 | Enum16 | Bitfield16 | SunsSf | Pad => 2
    case Int32 | UInt32 | Float32 | Acc32 | Enum32 | Bitfield32 | IPv4 => 4
    case Int64 | UInt64 | Float64 | Acc64 | IPv6 => 8
  }

  /** suns_type_is_numeric: uint32 is not among them */
  predicate IsNumeric(t: Type) {
    t in {Int16, UInt16, Acc16, Int32, Float32, Acc32, Int64, UInt64, Float64, Acc64}
  }

  /** A type with its subscript: the name of a scale factor, a string length, a fixed scale factor. */
  datatype TypePair = TypePair(kind: Type, name: Option<string>, len: nat, sf: int)

  /** suns_type_pair_size */
  function PairSize(tp: TypePair): nat {
    if tp.kind == String then tp.len else TypeSize(tp.kind)
  }

  /** The types that have a binary form. */
  predicate Codable(t: Type) {
    t !in {Null, IPv6, Undef}
  }

  predicate IsBits(t: Type) {
    Codable(t) && t != String && t != Pad
  }

  /** The contents of a value: the bits of a number, a string without NUL, or nothing. */
  datatype Payload = Bits(n: nat) | Text(s: seq<Byte>) | Nothing

  function Base(k: nat): (b: nat)
    ensures b > 0
  {
    if k == 0 then 1 else 256 * Base(k - 1)
  }

  /** A payload that a value of this type can have. */
  predicate Fits(tp: TypePair, p: Payload) {
    match p
    case Bits(n) => IsBits(tp.kind) && n < Base(TypeSize(tp.kind))
    case Text(s) => tp.kind == String && 0 !in s
    case Nothing => tp.kind == Pad
  }

  // ---- big-endian numbers ----

  /** htobe16, htobe32, htobe64 */
  function ToBE(n: nat, k: nat): (b: seq<Byte>)
    ensures |b| == k
  {
    if k == 0 then [] else ToBE(n / 256, k - 1) + [n % 256]
  }

  /** be16toh, be32toh, be64toh */
  function FromBE(b: seq<Byte>): (n: nat)
    ensures n < Base(|b|)
  {
    if b == [] then 0 else FromBE(b[..|b| - 1]) * 256 + b[|b| - 1]
  }

  lemma {:induction false} BigEndian(n: nat, k: nat)
    requires n < Base(k)
    ensures FromBE(ToBE(n, k)) == n
  {
    if k > 0 {
      BigEndian(n / 256, k - 1);
      assert ToBE(n, k)[..k - 1] == ToBE(n / 256, k - 1);
    }
  }

  /** Byte i of k is the one with weight 256 to the power of k - 1 - i: the most significant comes first. */
  lemma {:induction false} ByteAt(n: nat, k: nat, i: nat)
    requires i < k
    ensures ToBE(n, k)[i] == n / Base(k - 1 - i) % 256
  {
    if i < k - 1 {
      ByteAt(n / 256, k - 1, i);
      DivideTwice(n, Base(k - 2 - i));
    }
  }

  lemma DivideTwice(n: nat, b: nat)
    requires b > 0
    ensures n / 256 / b == n / (256 * b)
  {
    var q, r := n / 256 / b, n / 256 % b;
    assert n / 256 == q * b + r && n == 256 * (n / 256) + n % 256;
    assert n == q * (256 * b) + (256 * r + n % 256);
    QuotientIs(n, 256 * b, q);
  }

  lemma QuotientIs(a: nat, r: nat, q: nat)
    requires r > 0 && q * r <= a < q * r + r
    ensures a / r == q
  {
    var p := a / r;
    assert p * r <= a < p * r + r;
    assert p + 1 <= q ==> (p + 1) * r <= q * r;
    assert q + 1 <= p ==> (q + 1) * r <= p * r;
  }

  /** The sum of the bytes from i on, each with its weight. */
  function Weighed(b: seq<Byte>, i: nat): nat
    requires i <= |b|
    decreases |b| - i
  {
    if i == |b| then 0 else b[i] * Base(|b| - 1 - i) + Weighed(b, i + 1)
  }

  lemma {:induction false} WeighedInit(b: seq<Byte>, i: nat)
    requires i < |b|
    ensures Weighed(b, i) == 256 * Weighed(b[..|b| - 1], i) + b[|b| - 1]
    decreases |b| - i
  {
    if i < |b| - 1 {
      WeighedInit(b, i + 1);
      assert b[i] * Base(|b| - 1 - i) == 256 * (b[i] * Base(|b| - 2 - i));
    }
  }

  lemma {:induction false} NumberIsSum(b: seq<Byte>)
    ensures FromBE(b) == Weighed(b, 0)
  {
    if b != [] {
      NumberIsSum(b[..|b| - 1]);
      WeighedInit(b, 0);
    }
  }

  lemma Bases()
    ensures Base(0) == 1 && Base(1) == 0x100 && Base(2) == 0x1_0000 && Base(3) == 0x100_0000
    ensures Base(4) == 0x1_0000_0000 && Base(5) == 0x100_0000_0000 && Base(6) == 0x1_0000_0000_0000
    ensures Base(7) == 0x100_0000_0000_0000 && Base(8) == 0x1_0000_0000_0000_0000
  {
    assert Base(3) == 0x100_0000;
    assert Base(6) == 0x1_0000_0000_0000;
  }

  lemma ByteIs(n: nat, k: nat, i: nat, weight: nat)
    requires i < k <= 8 && weight > 0 && weight == Base(k - 1 - i)
    ensures ToBE(n, k)[i] == n / weight % 0x100
  {
    ByteAt(n, k, i);
  }

  lemma TwoWritten(n: nat)
    requires n < 0x1_0000
    ensures ToBE(n, 2) == [n / 0x100, n % 0x100]
  {
    Bases();
    hide Base, ToBE;
    ByteIs(n, 2, 0, 0x100);
    ByteIs(n, 2, 1, 0x1);
  }

  lemma FourWritten(n: nat)
    requires n < 0x1_0000_0000
    ensures ToBE(n, 4) == [n / 0x100_0000, n / 0x1_0000 % 0x100, n / 0x100 % 0x100, n % 0x100]
  {
    Bases();
    hide Base, ToBE;
    ByteIs(n, 4, 0, 0x100_0000);
    ByteIs(n, 4, 1, 0x1_0000);
    ByteIs(n, 4, 2, 0x100);
    ByteIs(n, 4, 3, 0x1);
  }

  lemma EightWritten(n: nat)
    requires n < 0x1_0000_0000_0000_0000
    ensures ToBE(n, 8) == [n / 0x100_0000_0000_0000, n / 0x1_0000_0000_0000 % 0x100, n / 0x100_0000_0000 % 0x100,
                           n / 0x1_0000_0000 % 0x100, n / 0x100_0000 % 0x100, n / 0x1_0000 % 0x100,
                           n / 0x100 % 0x100, n % 0x100]
  {
    hide *;
    EightHigh(n);
    EightLow(n);
  }

  lemma EightHigh(n: nat)
    requires n < 0x1_0000_0000_0000_0000
    ensures ToBE(n, 8)[0] == n / 0x100_0000_0000_0000 && ToBE(n, 8)[1] == n / 0x1_0000_0000_0000 % 0x100
    ensures ToBE(n, 8)[2] == n / 0x100_0000_0000 % 0x100 && ToBE(n, 8)[3] == n / 0x1_0000_0000 % 0x100
  {
    Bases();
    hide Base, ToBE;
    ByteIs(n, 8, 0, 0x100_0000_0000_0000);
    ByteIs(n, 8, 1, 0x1_0000_0000_0000);
    ByteIs(n, 8, 2, 0x100_0000_0000);
    ByteIs(n, 8, 3, 0x1_0000_0000);
  }

  lemma EightLow(n: nat)
    ensures ToBE(n, 8)[4] == n / 0x100_0000 % 0x100 && ToBE(n, 8)[5] == n / 0x1_0000 % 0x100
    ensures ToBE(n, 8)[6] == n / 0x100 % 0x100 && ToBE(n, 8)[7] == n % 0x100
  {
    Bases();
    hide Base, ToBE;
    ByteIs(n, 8, 4, 0x100_0000);
    ByteIs(n, 8, 5, 0x1_0000);
    ByteIs(n, 8, 6, 0x100);
    ByteIs(n, 8, 7, 0x1);
  }

  lemma TwoRead(b: seq<Byte>)
    requires |b| == 2
    ensures FromBE(b) == 0x100 * b[0] as int + b[1] as int
  {
    NumberIsSum(b);
    Bases();
    hide Base, FromBE;
    assert Weighed(b, 1) == b[1] as int * 1 + Weighed(b, 2);
  }

  lemma FourRead(b: seq<Byte>)
    requires |b| == 4
    ensures FromBE(b) == 0x100_0000 * b[0] as int + 0x1_0000 * b[1] as int + 0x100 * b[2] as int + b[3] as int
  {
    NumberIsSum(b);
    Bases();
    hide Base, FromBE;
    assert Weighed(b, 3) == b[3] as int * 1 + Weighed(b, 4);
    assert Weighed(b, 2) == b[2] as int * 0x100 + Weighed(b, 3);
    assert Weighed(b, 1) == b[1] as int * 0x1_0000 + Weighed(b, 2);
  }

  lemma EightRead(b: seq<Byte>)
    requires |b| == 8
    ensures FromBE(b) == 0x100_0000_0000_0000 * b[0] as int + 0x1_0000_0000_0000 * b[1] as int
                         + 0x100_0000_0000 * b[2] as int + 0x1_0000_0000 * b[3] as int + 0x100_0000 * b[4] as int
                         + 0x1_0000 * b[5] as int + 0x100 * b[6] as int + b[7] as int
  {
    NumberIsSum(b);
    Bases();
    hide Base, FromBE;
    assert Weighed(b, 7) == b[7] as int * 1 + Weighed(b, 8);
    assert Weighed(b, 6) == b[6] as int * 0x100 + Weighed(b, 7);
    assert Weighed(b, 5) == b[5] as int * 0x1_0000 + Weighed(b, 6);
    assert Weighed(b, 4) == b[4] as int * 0x100_0000 + Weighed(b, 5);
    assert Weighed(b, 3) == b[3] as int * 0x1_0000_0000 + Weighed(b, 4);
    assert Weighed(b, 2) == b[2] as int * 0x100_0000_0000 + Weighed(b, 3);
    assert Weighed(b, 1) == b[1] as int * 0x1_0000_0000_0000 + Weighed(b, 2);
  }

  // ---- strings ----

  function Zeros(k: nat): (b: seq<Byte>)
    ensures |b| == k && forall i :: 0 <= i < k ==> b[i] == 0
  {
    seq(k, i => 0)
  }

  /** strncpy(buf, s, len) */
  function Padded(s: seq<Byte>, len: nat): (b: seq<Byte>)
    ensures |b| == len
  {
    if |s| >= len then s[..len] else s + Zeros(len - |s|)
  }

  /** the string that starts a field of bytes */
  function UpToNul(b: seq<Byte>): (s: seq<Byte>)
    ensures |s| <= |b| && 0 !in s
  {
    if b == [] || b[0] == 0 then [] else [b[0]] + UpToNul(b[1..])
  }

  lemma {:induction false} StringField(s: seq<Byte>, len: nat)
    requires 0 !in s
    ensures UpToNul(Padded(s, len)) == s[..Min(len, |s|)]
  {
    if len > 0 && s != [] {
      assert Padded(s, len)[1..] == Padded(s[1..], len - 1) && Padded(s, len)[0] == s[0] != 0;
      StringField(s[1..], len - 1);
      assert s[..Min(len, |s|)] == [s[0]] + s[1..][..Min(len - 1, |s| - 1)];
    }
  }

  // ---- values in bytes ----

  /** The bytes of a value. */
  function Encode(tp: TypePair, p: Payload): (b: seq<Byte>)
    requires Codable(tp.kind) && Fits(tp, p)
    ensures |b| == PairSize(tp)
  {
    match p
    case Bits(n) => ToBE(n, TypeSize(tp.kind))
    case Text(s) => Padded(s, tp.len)
    case Nothing => [0xFF, 0xFF]
  }

  /** The payload of a field of bytes. Types without a binary form give nothing. */
  function Decode(tp: TypePair, b: seq<Byte>): Payload
    requires |b| == PairSize(tp)
  {
    if IsBits(tp.kind) then Bits(FromBE(b)) else if tp.kind == String then Text(UpToNul(b)) else Nothing
  }

  /** The bytes of a number, type by type. */
  predicate Spelled(kind: Type, n: nat, b: seq<Byte>) {
    && (kind in {Int16, UInt16, Acc16, Enum16, Bitfield16, SunsSf} ==>
          |b| == 2 && b[0] == n / 0x100 && b[1] == n % 0x100)
    && (kind in {Int32, UInt32, Float32, Acc32, Enum32, Bitfield32, IPv4} ==>
          && |b| == 4 && b[0] == n / 0x100_0000 && b[1] == n / 0x1_0000 % 0x100
          && b[2] == n / 0x100 % 0x100 && b[3] == n % 0x100)
    && (kind in {Int64, UInt64, Float64, Acc64} ==>
          && |b| == 8 && b[0] == n / 0x100_0000_0000_0000 && b[1] == n / 0x1_0000_0000_0000 % 0x100
          && b[2] == n / 0x100_0000_0000 % 0x100 && b[3] == n / 0x1_0000_0000 % 0x100
          && b[4] == n / 0x100_0000 % 0x100 && b[5] == n / 0x1_0000 % 0x100
          && b[6] == n / 0x100 % 0x100 && b[7] == n % 0x100)
  }

  lemma NumberBytes(tp: TypePair, n: nat)
    requires Fits(tp, Bits(n))
    ensures Spelled(tp.kind, n, Encode(tp, Bits(n)))
  {
    Bases();
    hide Base, ToBE;
    if TypeSize(tp.kind) == 2 {
      TwoWritten(n);
    } else if TypeSize(tp.kind) == 4 {
      FourWritten(n);
    } else {
      EightWritten(n);
    }
  }

  /** The bytes of a string: zeros fill up its field. */
  lemma StringBytes(tp: TypePair, s: seq<Byte>)
    requires Fits(tp, Text(s))
    ensures |Encode(tp, Text(s))| == tp.len
    ensures forall i :: 0 <= i < tp.len ==> Encode(tp, Text(s))[i] == if i < |s| then s[i] else 0
  {}

  /** The number in a field, type by type. */
  lemma NumberRead(tp: TypePair, b: seq<Byte>)
    requires |b| == PairSize(tp)
    ensures tp.kind in {Int16, UInt16, Acc16, Enum16, Bitfield16, SunsSf} ==>
              |b| == 2 && Decode(tp, b) == Bits(0x100 * b[0] as int + b[1] as int)
    ensures tp.kind in {Int32, UInt32, Float32, Acc32, Enum32, Bitfield32, IPv4} ==>
              |b| == 4 && Decode(tp, b) == Bits(0x100_0000 * b[0] as int + 0x1_0000 * b[1] as int
                                                + 0x100 * b[2] as int + b[3] as int)
    ensures tp.kind in {Int64, UInt64, Float64, Acc64} ==>
              |b| == 8 && Decode(tp, b) == Bits(0x100_0000_0000_0000 * b[0] as int + 0x1_0000_0000_0000 * b[1] as int
                                                + 0x100_0000_0000 * b[2] as int + 0x1_0000_0000 * b[3] as int
                                                + 0x100_0000 * b[4] as int + 0x1_0000 * b[5] as int
                                                + 0x100 * b[6] as int + b[7] as int)
  {
    hide FromBE;
    if |b| == 2 { TwoRead(b); }
    if |b| == 4 { FourRead(b); }
    if |b| == 8 { EightRead(b); }
  }

  /** The string in a field goes up to the first zero byte, or to the end. */
  lemma {:induction false} StringRead(b: seq<Byte>)
    ensures UpToNul(b) <= b && (|UpToNul(b)| < |b| ==> b[|UpToNul(b)|] == 0)
  {
    if b != [] && b[0] != 0 {
      StringRead(b[1..]);
      assert b == [b[0]] + b[1..];
    }
  }

  /** A string longer than its field loses its end; nothing else is lost. */
  function Clipped(tp: TypePair, p: Payload): Payload {
    if p.Text? then Text(p.s[..Min(tp.len, |p.s|)]) else p
  }

  lemma DecodeEncode(tp: TypePair, p: Payload)
    requires Codable(tp.kind) && Fits(tp, p)
    ensures Decode(tp, Encode(tp, p)) == Clipped(tp, p)
  {
    match p
    case Bits(n) => BigEndian(n, TypeSize(tp.kind));
    case Text(s) => StringField(s, tp.len);
    case Nothing =>
  }

  /** memcpy() of a few bytes */
  method Store(buf: array<Byte>, at: nat, b: seq<Byte>)
    requires at + |b| <= buf.Length
    modifies buf
    ensures buf[..] == old(buf[..at]) + b + old(buf[at + |b|..])
    ensures forall i :: 0 <= i < |b| ==> buf[at + i] == b[i]
  {
    for i := 0 to |b|
      invariant forall k :: 0 <= k < i ==> buf[at + k] == b[k]
      invariant forall k :: (0 <= k < at || at + i <= k < buf.Length) ==> buf[k] == old(buf[k])
    {
      buf[at + i] := b[i];
    }
  }

  /** suns_value_to_buf, at position `at` of buf. The switch has its own idea of the widths; for ipv6 it writes
      nothing and reports success. */
  method ValueToBuf(tp: TypePair, p: Payload, buf: array<Byte>, at: nat) returns (ret: int)
    requires Codable(tp.kind) ==> Fits(tp, p) && at + PairSize(tp) <= buf.Length
    modifies buf
    ensures ret == if Codable(tp.kind) || tp.kind == IPv6 then 0 else -2
    ensures Codable(tp.kind) ==> buf[..] == old(buf[..at]) + Encode(tp, p) + old(buf[at + PairSize(tp)..])
    ensures !Codable(tp.kind) ==> buf[..] == old(buf[..])
    ensures IsBits(tp.kind) ==> Spelled(tp.kind, p.n, buf[at..at + PairSize(tp)])
    ensures tp.kind == String ==> forall i :: 0 <= i < tp.len ==> buf[at + i] == if i < |p.s| then p.s[i] else 0
    ensures tp.kind == Pad ==> buf[at] == buf[at + 1] == 0xFF
  {
    hide ToBE, Base, Spelled;
    if IsBits(tp.kind) { NumberBytes(tp, p.n); }
    ret := 0;
    match tp.kind
    case Int16 | UInt16 | Acc16 | Enum16 | Bitfield16 | SunsSf =>
      Store(buf, at, ToBE(p.n, 2));
    case Int32 | UInt32 | Float32 | Acc32 | Enum32 | Bitfield32 | IPv4 =>
      Store(buf, at, ToBE(p.n, 4));
    case Int64 | UInt64 | Float64 | Acc64 =>
      Store(buf, at, ToBE(p.n, 8));
    case String =>
      Store(buf, at, Padded(p.s, tp.len));
    case Pad =>
      Store(buf, at, [0xFF, 0xFF]);
    case IPv6 =>
    case _ =>
      ret := -2;
  }

  // ---- the growing buffer ----

  datatype TypedValue = TypedValue(tp: TypePair, p: Payload)

  predicate Storable(v: TypedValue) {
    Codable(v.tp.kind) ==> Fits(v.tp, v.p)
  }

  function Bytes(v: TypedValue): (b: seq<Byte>)
    requires Storable(v)
  {
    if Codable(v.tp.kind) then Encode(v.tp, v.p) else []
  }

  /** suns_value_to_buffer. An ipv6 value takes up eight bytes that are left as they happen to be. */
  method ValueToBuffer(buf: Buffer, v: TypedValue) returns (ret: int)
    requires buf.Valid() && Storable(v)
    modifies buf`inn, buf.start
    ensures buf.Valid() && buf.out == old(buf.out) && old(buf.Queue()) <= buf.Queue()
    ensures |buf.Queue()| == old(|buf.Queue()|) + if old(buf.Space()) < PairSize(v.tp) then 0 else PairSize(v.tp)
    ensures old(buf.Space()) >= PairSize(v.tp) && v.tp.kind != IPv6 ==> buf.Queue() == old(buf.Queue()) + Bytes(v)
  {
    hide Bytes, Encode, Fits, Spelled;
    var size := if v.tp.kind == String then v.tp.len else TypeSize(v.tp.kind);
    if buf.Space() < size {
      return 0;
    }
    ghost var was := buf.start[..];
    ret := ValueToBuf(v.tp, v.p, buf.start, buf.inn);
    BytesAre(v);
    assert !Codable(v.tp.kind) ==> buf.start[..] == was && Bytes(v) == [];
    if Codable(v.tp.kind) {
      Spliced(was, buf.start[..], buf.inn, Bytes(v), buf.out);
    }
    assert was[buf.out..buf.inn] == buf.start[buf.out..buf.inn];
    buf.inn := buf.inn + size;
  }

  lemma BytesAre(v: TypedValue)
    requires Storable(v)
    ensures Bytes(v) == if Codable(v.tp.kind) then Encode(v.tp, v.p) else []
    ensures v.tp.kind != IPv6 ==> |Bytes(v)| == PairSize(v.tp)
  {}

  lemma Spliced(was: seq<Byte>, now: seq<Byte>, at: nat, b: seq<Byte>, from: nat)
    requires from <= at && at + |b| <= |was| && now == was[..at] + b + was[at + |b|..]
    ensures now[from..at + |b|] == was[from..at] + b
  {}

  const BUFFER_SIZE: nat := 128

  ghost predicate AllStorable(vs: seq<TypedValue>) {
    forall v :: v in vs ==> Storable(v)
  }

  /** What a list of values leaves in the buffer: values that are too large for it are dropped. */
  function Registers(vs: seq<TypedValue>): seq<Byte>
    requires AllStorable(vs)
  {
    if vs == [] then []
    else
      var v := vs[|vs| - 1];
      Registers(vs[..|vs| - 1]) + if PairSize(v.tp) > BUFFER_SIZE then [] else Bytes(v)
  }

  /** One value more: all its bytes, unless they are more than 128. */
  lemma RegistersNext(vs: seq<TypedValue>, v: TypedValue)
    requires AllStorable(vs) && Storable(v)
    ensures AllStorable(vs + [v])
    ensures Registers(vs + [v]) == Registers(vs) + if PairSize(v.tp) > 128 then [] else Bytes(v)
  {
    hide Storable, Bytes;
    assert (vs + [v])[..|vs|] == vs;
  }

  /** The bytes are those of the values, one behind the other; where an ipv6 value stands, any eight. */
  ghost predicate Written(vs: seq<TypedValue>, q: seq<Byte>)
    requires AllStorable(vs)
  {
    if vs == [] then q == []
    else
      var v, init := vs[|vs| - 1], vs[..|vs| - 1];
      if PairSize(v.tp) > BUFFER_SIZE then Written(init, q)
      else if v.tp.kind == IPv6 then |q| >= 8 && Written(init, q[..|q| - 8])
      else |q| >= |Bytes(v)| && q[|q| - |Bytes(v)|..] == Bytes(v) && Written(init, q[..|q| - |Bytes(v)|])
  }

  lemma {:induction false} WrittenIsRegisters(vs: seq<TypedValue>, q: seq<Byte>)
    requires AllStorable(vs) && Written(vs, q) && forall v :: v in vs ==> v.tp.kind != IPv6
    ensures q == Registers(vs)
  {
    hide Bytes, PairSize, Storable;
    if vs != [] {
      var v, init := vs[|vs| - 1], vs[..|vs| - 1];
      assert v in vs && forall x :: x in init ==> x in vs;
      if PairSize(v.tp) > BUFFER_SIZE {
        WrittenIsRegisters(init, q);
      } else {
        WrittenIsRegisters(init, q[..|q| - |Bytes(v)|]);
      }
    }
  }

  lemma WrittenNext(vs: seq<TypedValue>, i: nat, q: seq<Byte>, r: seq<Byte>)
    requires i < |vs| && AllStorable(vs) && AllStorable(vs[..i]) && Written(vs[..i], q) && q <= r
    requires |r| == |q| + if PairSize(vs[i].tp) > BUFFER_SIZE then 0 else PairSize(vs[i].tp)
    requires PairSize(vs[i].tp) <= BUFFER_SIZE && vs[i].tp.kind != IPv6 ==> r == q + Bytes(vs[i])
    ensures AllStorable(vs[..i + 1]) && Written(vs[..i + 1], r)
  {
    hide Bytes, Storable;
    var v := vs[i];
    assert vs[..i + 1][..i] == vs[..i] && vs[..i + 1][i] == v && forall x :: x in vs[..i + 1] ==> x in vs;
    assert r[..|q|] == q;
    assert PairSize(v.tp) > BUFFER_SIZE ==> r == q;
    assert v.tp.kind == IPv6 ==> |r| == |q| + 8;
    assert r == q + Bytes(v) ==> r[|r| - |Bytes(v)|..] == Bytes(v) && |r| - |Bytes(v)| == |q|;
  }

  /** the register_list action: the buffer grows when a value does not fit */
  method RegisterList(vs: seq<TypedValue>) returns (buf: Buffer)
    requires AllStorable(vs)
    ensures fresh(buf) && buf.Valid() && Written(vs, buf.Queue())
    ensures (forall v :: v in vs ==> v.tp.kind != IPv6) ==> buf.Queue() == Registers(vs)
  {
    hide Bytes, Storable, Written, Registers;
    buf := new Buffer(BUFFER_SIZE);
    NothingWritten(vs);
    for i := 0 to |vs|
      invariant fresh(buf) && fresh(buf.start) && buf.Valid() && AllStorable(vs[..i]) && Written(vs[..i], buf.Queue())
      invariant buf.out == 0 && buf.Space() <= BUFFER_SIZE
    {
      if buf.Space() < PairSize(vs[i].tp) {
        buf.Resize(buf.Len() + BUFFER_SIZE);
      }
      ghost var q := buf.Queue();
      var ret := ValueToBuffer(buf, vs[i]);
      WrittenNext(vs, i, q, buf.Queue());
    }
    assert vs[..|vs|] == vs;
    if forall v :: v in vs ==> v.tp.kind != IPv6 {
      WrittenIsRegisters(vs, buf.Queue());
    }
  }

  lemma NothingWritten(vs: seq<TypedValue>)
    ensures AllStorable(vs[..0]) && Written(vs[..0], [])
  {}
}
