/** Bytes, integers and strings on the wire: the primitives of packets/ioutils.go.

    A reader is the sequence of bytes it has left. Every primitive says what it returned,
    whether it succeeded, and what is left after it, also when it failed: several parsers
    ignore the error of one primitive and go on with the next. */
module Wire {

  type byte = b: int | 0 <= b < 0x100
  type uint32 = x: int | 0 <= x < 0x1_0000_0000
  type int32 = x: int | -0x8000_0000 <= x < 0x8000_0000

  datatype Read<+T> = Read(value: T, ok: bool, rest: seq<byte>)

  const MAX_VARINT_LEN := 10 // binary.MaxVarintLen64

  // ---- integer conversions -------------------------------------------------------------

  /** uint32(c) */
  function ToUnsigned(c: int32): uint32 {
    if c < 0 then c + 0x1_0000_0000 else c
  }

  /** int32(uint32(x)) */
  function ToSigned(x: nat): int32 {
    var low := x % 0x1_0000_0000;
    if low < 0x8000_0000 then low else low - 0x1_0000_0000
  }

  lemma SignedOfUnsigned(c: int32)
    ensures ToSigned(ToUnsigned(c)) == c
  {
  }

  /** Both keep the number modulo 2^32. */
  lemma SameModulo(c: int32, x: nat)
    ensures (ToUnsigned(c) - c) % 0x1_0000_0000 == 0 && (ToSigned(x) - x) % 0x1_0000_0000 == 0
  {
  }

  // ---- unsigned LEB128 (section 7.6 of DWARF 4) ------------------------------------------

  /** binary.PutUvarint */
  function PutUvarint(x: nat): (s: seq<byte>)
    ensures |s| >= 1
    decreases x
  {
    if x < 0x80 then [x] else [x % 0x80 + 0x80] + PutUvarint(x / 0x80)
  }

  /** binary.ReadUvarint after i bytes: x is the value so far and unit is 128^i. On an error
      the value so far is returned. */
  function ReadUvarintFrom(s: seq<byte>, i: nat, x: nat, unit: nat): (r: Read<nat>)
    requires i <= MAX_VARINT_LEN
    ensures |r.rest| <= |s|
    ensures r.ok ==> |r.rest| < |s|
    decreases MAX_VARINT_LEN - i
  {
    if i == MAX_VARINT_LEN || s == [] then Read(x, false, s)
    else if s[0] < 0x80 then
      if i == MAX_VARINT_LEN - 1 && s[0] > 1 then Read(x, false, s[1..])
      else Read(x + s[0] * unit, true, s[1..])
    else ReadUvarintFrom(s[1..], i + 1, x + (s[0] - 0x80) * unit, unit * 0x80)
  }

  function ReadUvarint(s: seq<byte>): (r: Read<nat>)
    ensures |r.rest| <= |s|
    ensures r.ok ==> |r.rest| < |s|
  {
    ReadUvarintFrom(s, 0, 0, 1)
  }

  lemma {:induction false} UvarintLength(x: nat)
    requires x < 0x1_0000_0000
    ensures |PutUvarint(x)| <= 5
  {
    if x >= 0x80 {
      var a := x / 0x80;
      assert PutUvarint(x) == [x % 0x80 + 0x80] + PutUvarint(a);
      if a >= 0x80 {
        var b := a / 0x80;
        assert PutUvarint(a) == [a % 0x80 + 0x80] + PutUvarint(b);
        if b >= 0x80 {
          var c := b / 0x80;
          assert PutUvarint(b) == [b % 0x80 + 0x80] + PutUvarint(c);
          if c >= 0x80 {
            var d := c / 0x80;
            assert PutUvarint(c) == [c % 0x80 + 0x80] + PutUvarint(d);
            assert d < 0x80;
          }
        }
      }
    }
  }

  lemma ScaleSplit(x: nat, v: nat, unit: nat)
    ensures x + (v % 0x80) * unit + (v / 0x80) * (unit * 0x80) == x + v * unit
  {
    var q, r := v / 0x80, v % 0x80;
    assert v == q * 0x80 + r;
    assert q * (unit * 0x80) == (q * 0x80) * unit;
    assert (q * 0x80 + r) * unit == (q * 0x80) * unit + r * unit;
  }

  lemma {:induction false} UvarintRoundTripFrom(v: nat, rest: seq<byte>, i: nat, x: nat, unit: nat)
    requires i + |PutUvarint(v)| <= MAX_VARINT_LEN - 1
    ensures ReadUvarintFrom(PutUvarint(v) + rest, i, x, unit) == Read(x + v * unit, true, rest)
    decreases v
  {
    var s := PutUvarint(v) + rest;
    if v < 0x80 {
      assert s[1..] == rest;
    } else {
      assert s[1..] == PutUvarint(v / 0x80) + rest;
      UvarintRoundTripFrom(v / 0x80, rest, i + 1, x + (v % 0x80) * unit, unit * 0x80);
      ScaleSplit(x, v, unit);
    }
  }

  lemma UvarintRoundTrip(v: uint32, rest: seq<byte>)
    ensures ReadUvarint(PutUvarint(v) + rest) == Read(v, true, rest)
  {
    UvarintLength(v);
    UvarintRoundTripFrom(v, rest, 0, 0, 1);
  }

  /** A varint cut short is never taken for a complete one. */
  lemma {:induction false} UvarintTruncated(v: nat, n: nat, i: nat, x: nat, unit: nat)
    requires n < |PutUvarint(v)| && i <= MAX_VARINT_LEN
    ensures !ReadUvarintFrom(PutUvarint(v)[..n], i, x, unit).ok
    decreases v
  {
    if v >= 0x80 && n > 0 && i < MAX_VARINT_LEN {
      var s := PutUvarint(v)[..n];
      assert s[1..] == PutUvarint(v / 0x80)[..n - 1];
      UvarintTruncated(v / 0x80, n - 1, i + 1, x + (v % 0x80) * unit, unit * 0x80);
    }
  }

  /** The number an unsigned LEB128 byte string stands for: seven bits a byte, least first. */
  function Leb128(s: seq<byte>): nat {
    if s == [] then 0 else Payload(s[0]) + 0x80 * Leb128(s[1..])
  }

  /** The low seven bits. */
  function Payload(b: byte): nat {
    if b < 0x80 then b else b - 0x80
  }

  /** All bytes but the last have their high bit set. */
  predicate IsLeb128(s: seq<byte>) {
    && s != [] && s[|s| - 1] < 0x80
    && forall i :: 0 <= i < |s| - 1 ==> s[i] >= 0x80
  }

  /** What is written is the LEB128 form of the number, and the shortest. */
  lemma {:induction false} UvarintLayout(x: nat)
    ensures var s := PutUvarint(x);
      IsLeb128(s) && Leb128(s) == x && (|s| > 1 ==> s[|s| - 1] != 0)
    decreases x
  {
    if x >= 0x80 {
      UvarintLayout(x / 0x80);
      var s, tail := PutUvarint(x), PutUvarint(x / 0x80);
      assert s[1..] == tail && s[|s| - 1] == tail[|tail| - 1];
      forall i | 0 <= i < |s| - 1 ensures s[i] >= 0x80 {
        if i > 0 { assert s[i] == tail[i - 1]; }
      }
    } else {
      assert PutUvarint(x) == [x] && [x][1..] == [];
    }
  }

  lemma {:induction false} ReadLeb128From(s: seq<byte>, rest: seq<byte>, i: nat, x: nat, unit: nat)
    requires IsLeb128(s) && i + |s| <= MAX_VARINT_LEN - 1
    ensures ReadUvarintFrom(s + rest, i, x, unit) == Read(x + Leb128(s) * unit, true, rest)
    decreases |s|
  {
    Leb128Head(s);
    hide IsLeb128, Leb128;
    if |s| == 1 {
      assert (s + rest)[1..] == rest;
    } else {
      var tail := s[1..];
      assert (s + rest)[1..] == tail + rest;
      ReadLeb128From(tail, rest, i + 1, x + (s[0] - 0x80) * unit, unit * 0x80);
      Carry(x, s[0] - 0x80, Leb128(tail), unit);
    }
  }

  lemma Leb128Head(s: seq<byte>)
    requires IsLeb128(s)
    ensures |s| >= 1
    ensures |s| == 1 ==> s[0] < 0x80 && Leb128(s) == s[0]
    ensures |s| > 1 ==>
      s[0] >= 0x80 && IsLeb128(s[1..]) && Leb128(s) == s[0] - 0x80 + 0x80 * Leb128(s[1..])
  {
    Leb128Value(s);
    hide Leb128;
    if |s| > 1 {
      var tail := s[1..];
      assert tail[|tail| - 1] == s[|s| - 1];
      forall i | 0 <= i < |tail| - 1 ensures tail[i] >= 0x80 {
        assert tail[i] == s[i + 1];
      }
    }
  }

  lemma Leb128Value(s: seq<byte>)
    requires s != []
    ensures Leb128(s) == Payload(s[0]) + 0x80 * Leb128(s[1..])
    ensures |s| == 1 ==> Leb128(s) == Payload(s[0])
  {
    NoBytes(s[1..]);
  }

  lemma NoBytes(s: seq<byte>)
    ensures |s| == 0 ==> Leb128(s) == 0
  {
  }

  lemma Carry(x: nat, r: nat, q: nat, unit: nat)
    ensures x + r * unit + q * (unit * 0x80) == x + (r + 0x80 * q) * unit
  {
    assert q * (unit * 0x80) == (0x80 * q) * unit;
    assert (r + 0x80 * q) * unit == r * unit + (0x80 * q) * unit;
  }

  /** What is read is the number the bytes stand for, shortest or not, up to nine bytes. */
  lemma ReadLeb128(s: seq<byte>, rest: seq<byte>)
    requires IsLeb128(s) && |s| <= 9
    ensures ReadUvarint(s + rest) == Read(Leb128(s), true, rest)
  {
    hide ReadUvarintFrom, IsLeb128, Leb128, PutUvarint;
    ReadLeb128From(s, rest, 0, 0, 1);
  }

  // ---- VarInt --------------------------------------------------------------------------

  function WriteVarInt(c: int32): (s: seq<byte>)
    ensures |s| >= 1
  {
    PutUvarint(ToUnsigned(c))
  }

  function ReadVarInt(s: seq<byte>): (r: Read<int32>)
    ensures |r.rest| <= |s|
    ensures r.ok ==> |r.rest| < |s|
  {
    var r := ReadUvarint(s);
    Read(ToSigned(r.value), r.ok, r.rest)
  }

  lemma VarIntRoundTrip(c: int32, rest: seq<byte>)
    ensures ReadVarInt(WriteVarInt(c) + rest) == Read(c, true, rest)
  {
    UvarintRoundTrip(ToUnsigned(c), rest);
    SignedOfUnsigned(c);
  }

  lemma ShortVarInt(n: nat)
    requires n < 0x80
    ensures WriteVarInt(n) == [n]
  {
  }

  lemma VarIntTruncated(c: int32, n: nat)
    requires n < |WriteVarInt(c)|
    ensures !ReadVarInt(WriteVarInt(c)[..n]).ok
  {
    UvarintTruncated(ToUnsigned(c), n, 0, 0, 1);
  }

  // ---- blocks and fixed-width integers ---------------------------------------------------

  /** io.ReadFull of n bytes; a short read consumes everything there is. */
  function ReadFull(s: seq<byte>, n: nat): (r: Read<seq<byte>>)
    ensures |r.rest| <= |s|
    ensures r.ok ==> |r.value| == n && |r.rest| == |s| - n
  {
    if n <= |s| then Read(s[..n], true, s[n..]) else Read(s, false, [])
  }

  lemma ReadFullExact(a: seq<byte>, rest: seq<byte>)
    ensures ReadFull(a + rest, |a|) == Read(a, true, rest)
  {
    assert (a + rest)[..|a|] == a && (a + rest)[|a|..] == rest;
  }

  function Power256(n: nat): nat {
    if n == 0 then 1 else 0x100 * Power256(n - 1)
  }

  lemma Powers256()
    ensures Power256(1) == 0x100 && Power256(2) == 0x1_0000
    ensures Power256(4) == 0x1_0000_0000 && Power256(8) == 0x1_0000_0000_0000_0000
  {
    assert Power256(1) == 0x100 * Power256(0);
    assert Power256(2) == 0x100 * Power256(1);
    assert Power256(3) == 0x100 * Power256(2);
    assert Power256(4) == 0x100 * Power256(3);
    assert Power256(5) == 0x100 * Power256(4);
    assert Power256(6) == 0x100 * Power256(5);
    assert Power256(7) == 0x100 * Power256(6);
    assert Power256(8) == 0x100 * Power256(7);
  }

  /** The width low bytes of x, most significant first. */
  function BigEndian(x: nat, width: nat): (s: seq<byte>)
    ensures |s| == width
  {
    if width == 0 then [] else BigEndian(x / 0x100, width - 1) + [x % 0x100]
  }

  lemma OneByte(x: byte)
    ensures BigEndian(x, 1) == [x]
  {
    assert BigEndian(0, 0) == [];
  }

  lemma TwoBytes(x: nat)
    requires x < 0x1_0000
    ensures BigEndian(x, 2) == [x / 256, x % 256]
  {
    OneByte(x / 256);
  }

  /** The number a big-endian byte string stands for. */
  function Number(s: seq<byte>): nat {
    if s == [] then 0 else 0x100 * Number(s[..|s| - 1]) + s[|s| - 1]
  }

  lemma {:induction false} BigEndianRoundTrip(x: nat, width: nat)
    requires x < Power256(width)
    ensures Number(BigEndian(x, width)) == x
  {
    if width > 0 {
      var s := BigEndian(x, width);
      assert s[..|s| - 1] == BigEndian(x / 0x100, width - 1);
      BigEndianRoundTrip(x / 0x100, width - 1);
    }
  }

  lemma {:induction false} NumberBound(s: seq<byte>)
    ensures Number(s) < Power256(|s|)
  {
    if s != [] {
      NumberBound(s[..|s| - 1]);
    }
  }

  /** Big-endian: the first byte weighs most. */
  lemma {:induction false} NumberCons(x: byte, t: seq<byte>)
    ensures Number([x] + t) == x * Power256(|t|) + Number(t)
    decreases |t|
  {
    if t == [] {
      assert [x] + t == [x] && [x][..0] == [];
    } else {
      var init, last := t[..|t| - 1], t[|t| - 1];
      assert ([x] + t)[..|t|] == [x] + init;
      NumberCons(x, init);
      assert x * Power256(|t|) == 0x100 * (x * Power256(|init|));
    }
  }

  // ---- bool and string -------------------------------------------------------------------

  function WriteBool(b: bool): seq<byte> {
    if b then [1] else [0]
  }

  /** Only the byte 1 means true. */
  function ReadBool(s: seq<byte>): (r: Read<bool>)
    ensures |r.rest| <= |s|
  {
    if s == [] then Read(false, false, s) else Read(s[0] == 1, true, s[1..])
  }

  /** A flag is one byte, 1 for true and 0 for false; any other byte is read as false. */
  lemma BoolExactly(b: bool, x: byte, rest: seq<byte>)
    ensures WriteBool(b) == [if b then 1 else 0]
    ensures ReadBool([x] + rest) == Read(x == 1, true, rest)
  {
    assert ([x] + rest)[1..] == rest;
  }

  lemma BoolRoundTrip(b: bool, rest: seq<byte>)
    ensures ReadBool(WriteBool(b) + rest) == Read(b, true, rest)
  {
    assert (WriteBool(b) + rest)[1..] == rest;
  }

  /** WriteMinecraftString: VarInt(len(s)) truncates the length to 32 bits. */
  function WriteString(t: seq<byte>): seq<byte> {
    WriteVarInt(ToSigned(|t|)) + t
  }

  function ReadString(s: seq<byte>, maxLength: nat): (r: Read<seq<byte>>)
    ensures |r.rest| <= |s|
    ensures |r.value| <= maxLength
    ensures !r.ok ==> r.value == []
  {
    var n := ReadVarInt(s);
    if !n.ok || n.value > maxLength || n.value < 0 then Read([], false, n.rest)
    else
      var d := ReadFull(n.rest, n.value);
      if d.ok then d else Read([], false, d.rest)
  }

  /** A string is its length in bytes, in LEB128, and then its bytes. */
  lemma StringLayout(t: seq<byte>)
    requires |t| < 0x8000_0000
    ensures exists prefix :: IsLeb128(prefix) && Leb128(prefix) == |t| && WriteString(t) == prefix + t
    ensures |t| < 0x80 ==> WriteString(t) == [|t|] + t
  {
    hide PutUvarint, IsLeb128, Leb128, WriteString;
    UvarintLayout(|t|);
    ShortUvarint(|t|);
    PrefixOfString(t);
  }

  lemma PrefixOfString(t: seq<byte>)
    requires |t| < 0x8000_0000
    ensures WriteString(t) == PutUvarint(|t|) + t
  {
    SmallLength(|t|);
    hide PutUvarint, ToSigned, ToUnsigned;
  }

  lemma SmallLength(n: nat)
    requires n < 0x8000_0000
    ensures ToSigned(n) == n && ToUnsigned(n) == n
  {
  }

  lemma ShortUvarint(x: nat)
    ensures x < 0x80 ==> PutUvarint(x) == [x]
  {
  }

  lemma StringRoundTrip(t: seq<byte>, maxLength: nat, rest: seq<byte>)
    requires |t| <= maxLength && |t| < 0x8000_0000
    ensures ReadString(WriteString(t) + rest, maxLength) == Read(t, true, rest)
  {
    SmallLength(|t|);
    hide WriteVarInt, ReadVarInt, ToSigned, ToUnsigned, PutUvarint;
    assert WriteString(t) + rest == WriteVarInt(|t|) + (t + rest);
    VarIntRoundTrip(|t|, t + rest);
    ReadFullExact(t, rest);
  }
}
