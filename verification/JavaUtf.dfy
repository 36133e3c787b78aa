/** filters/bungeecord/javautf.go: the modified UTF-8 of java.io.DataInput (section 4.4.7 of
    the Java Virtual Machine Specification). Strings are sequences of Unicode scalar values,
    which is what a range loop over a Go string yields. */
module JavaUtf {
  import opened Wire
  import opened StructCodec

  predicate IsScalar(r: int) {
    0 <= r < 0x11_0000 && !(0xD800 <= r < 0xE000)
  }

  type Rune = r: int | IsScalar(r)

  datatype Error = EndOfInput | UnexpectedEnd | InvalidFirstByte | OutOfRange | TooLong

  datatype Result<+T> = Ok(value: T) | Err(error: Error)

  const MAX_ENCODED := 65535

  // ---- encoding --------------------------------------------------------------------------

  /** The null character takes two bytes, so that no zero byte appears. */
  function Encode(c: int): (s: seq<byte>)
    requires 0 <= c <= 0xFFFF
    ensures 1 <= |s| <= 3
  {
    if c <= 0x7F && c != 0 then [c]
    else if c <= 0x7FF then [0xC0 + c / 0x40, 0x80 + c % 0x40]
    else [0xE0 + c / 0x1000, 0x80 + c / 0x40 % 0x40, 0x80 + c % 0x40]
  }

  /** One byte for 1 to 127, two up to 2047 and for the null character, three up to 65535; the first
      byte says how many, the others start with the bits 10, and their payload bits are the
      character, most significant first. */
  lemma EncodeLayout(c: int)
    requires 0 <= c <= 0xFFFF
    ensures var s: seq<int> := Encode(c);
      if 1 <= c <= 127 then s == [c]
      else if c <= 2047 then
        |s| == 2 && s[0] / 32 == 6 && s[1] / 64 == 2 && s[0] % 32 * 64 + s[1] % 64 == c
      else
        |s| == 3 && s[0] / 16 == 14 && s[1] / 64 == 2 && s[2] / 64 == 2
        && s[0] % 16 * 4096 + s[1] % 64 * 64 + s[2] % 64 == c
  {
    if c > 2047 {
      SplitJoin3(c);
      LeadingBits(c / 0x1000, 4, 0xE0);
      LeadingBits(c / 0x40 % 0x40, 6, 0x80);
      LeadingBits(c % 0x40, 6, 0x80);
    } else {
      SplitJoin2(c);
      LeadingBits(c / 0x40, 5, 0xC0);
      LeadingBits(c % 0x40, 6, 0x80);
    }
  }

  lemma LeadingBits(x: int, bits: nat, lead: int)
    requires (bits == 4 && lead == 0xE0 && 0 <= x < 16)
          || (bits == 5 && lead == 0xC0 && 0 <= x < 32)
          || (bits == 6 && lead == 0x80 && 0 <= x < 64)
    ensures bits == 4 ==> (lead + x) / 16 == 14 && (lead + x) % 16 == x
    ensures bits == 5 ==> (lead + x) / 32 == 6 && (lead + x) % 32 == x
    ensures bits == 6 ==> (lead + x) / 64 == 2 && (lead + x) % 64 == x
  {
  }

  predicate InRange(s: seq<Rune>) {
    forall i :: 0 <= i < |s| ==> s[i] <= 0xFFFF
  }

  function EncodeAll(s: seq<Rune>): seq<byte>
    requires InRange(s)
  {
    if s == [] then [] else EncodeAll(s[..|s| - 1]) + Encode(s[|s| - 1])
  }

  /** What the writer accepts. */
  predicate Encodable(s: seq<Rune>) {
    InRange(s) && |EncodeAll(s)| <= MAX_ENCODED
  }

  function Framed(s: seq<Rune>): seq<byte>
    requires Encodable(s)
  {
    BigEndian(|EncodeAll(s)|, 2) + EncodeAll(s)
  }

  /** WriteJavaUTF: writes everything or, for a string it rejects, nothing. */
  method WriteJavaUTF(s: seq<Rune>) returns (r: Result<seq<byte>>)
    ensures r.Ok? <==> Encodable(s)
    ensures r.Ok? ==> r.value == Framed(s)
    ensures r.Ok? ==> r.value == [(|r.value| - 2) / 256, (|r.value| - 2) % 256] + EncodeAll(s)
    ensures r.Err? ==> r.error == if InRange(s) then TooLong else OutOfRange
  {
    var buf := [];
    for i := 0 to |s|
      invariant InRange(s[..i]) && buf == EncodeAll(s[..i])
    {
      if s[i] > 0xFFFF {
        return Err(OutOfRange);
      }
      assert s[..i + 1][..i] == s[..i];
      buf := buf + Encode(s[i]);
    }
    assert s[..|s|] == s;
    if |buf| > MAX_ENCODED {
      return Err(TooLong);
    }
    TwoBytes(|buf|);
    return Ok(BigEndian(|buf|, 2) + buf);
  }

  // ---- decoding --------------------------------------------------------------------------

  /** string(chars): a surrogate becomes the replacement character. */
  function ToScalar(r: int): Rune
    requires 0 <= r <= 0xFFFF
  {
    if IsScalar(r) then r else 0xFFFD
  }

  /** The character at the head of s and the bytes it takes; continuation bytes are not looked
      at beyond their six low bits. */
  function DecodeOne(s: seq<byte>): (r: Result<(Rune, nat)>)
    requires s != []
    ensures r.Ok? ==> 1 <= r.value.1 <= |s|
  {
    var b := s[0];
    if b < 0x80 then Ok((b, 1))
    else if 0xC0 <= b < 0xE0 then
      if |s| < 2 then Err(UnexpectedEnd) else Ok((ToScalar(Join2(b, s[1])), 2))
    else if 0xE0 <= b < 0xF0 then
      if |s| < 3 then Err(UnexpectedEnd) else Ok((ToScalar(Join3(b, s[1], s[2])), 3))
    else Err(InvalidFirstByte)
  }

  function Join2(a: int, b: int): (c: int)
    ensures 0 <= c <= 0x7FF
  {
    a % 0x20 * 0x40 + b % 0x40
  }

  function Join3(a: int, b: int, c: int): (d: int)
    ensures 0 <= d <= 0xFFFF
  {
    a % 0x10 * 0x1000 + b % 0x40 * 0x40 + c % 0x40
  }

  function DecodeAll(s: seq<byte>): Result<seq<Rune>>
    decreases |s|
  {
    if s == [] then Ok([])
    else
      match DecodeOne(s)
      case Err(e) => Err(e)
      case Ok((c, n)) =>
        match DecodeAll(s[n..])
        case Err(e) => Err(e)
        case Ok(tail) => Ok([c] + tail)
  }

  /** ReadJavaUTF, with what is left of the input. */
  function Unframe(input: seq<byte>): (Result<seq<Rune>>, seq<byte>) {
    var size := ReadNumber(input, 2);
    if !size.ok then (Err(EndOfInput), size.rest)
    else
      var body := ReadFull(size.rest, size.value);
      if !body.ok then (Err(EndOfInput), body.rest) else (DecodeAll(body.value), body.rest)
  }

  function Prepend(chars: seq<Rune>, r: Result<seq<Rune>>): Result<seq<Rune>> {
    if r.Ok? then Ok(chars + r.value) else r
  }

  lemma PrependLaws(chars: seq<Rune>, c: Rune, r: Result<seq<Rune>>)
    ensures Prepend([], r) == r
    ensures Prepend(chars, Ok([])) == Ok(chars)
    ensures Prepend(chars, Prepend([c], r)) == Prepend(chars + [c], r)
  {
    if r.Ok? {
      assert [] + r.value == r.value;
      assert chars + ([c] + r.value) == chars + [c] + r.value;
    }
    assert chars + [] == chars;
  }

  method ReadJavaUTF(input: seq<byte>) returns (r: Result<seq<Rune>>, rest: seq<byte>)
    ensures (r, rest) == Unframe(input)
  {
    hide ReadNumber, DecodeOne;
    var size := ReadNumber(input, 2);
    rest := size.rest;
    if !size.ok {
      return Err(EndOfInput), rest;
    }
    var body := ReadFull(rest, size.value);
    rest := body.rest;
    if !body.ok {
      return Err(EndOfInput), rest;
    }
    var buf, i := body.value, 0;
    var chars: seq<Rune> := [];
    assert buf[0..] == buf;
    PrependLaws(chars, 0, DecodeAll(buf));
    while i < |buf|
      invariant i <= |buf|
      invariant DecodeAll(buf) == Prepend(chars, DecodeAll(buf[i..]))
    {
      var one := DecodeOne(buf[i..]);
      if one.Err? {
        return Err(one.error), rest;
      }
      var c, n := one.value.0, one.value.1;
      assert buf[i..][n..] == buf[i + n..];
      PrependLaws(chars, c, DecodeAll(buf[i + n..]));
      chars := chars + [c];
      i := i + n;
    }
    PrependLaws(chars, 0, Ok([]));
    r := Ok(chars);
  }

  /** A first byte is refused exactly if it has none of the bit patterns 0xxxxxxx, 110xxxxx and
      1110xxxx. */
  lemma FirstByteExactly(b: bv8, s: seq<byte>)
    ensures DecodeOne([b as int] + s) == Err(InvalidFirstByte) <==>
      !(b & 0x80 == 0x00 || b & 0xE0 == 0xC0 || b & 0xF0 == 0xE0)
  {
    hide ToScalar, Join2, Join3;
    Patterns(b);
  }

  lemma Patterns(b: bv8)
    ensures b & 0x80 == 0x00 <==> b < 0x80
    ensures b & 0xE0 == 0xC0 <==> 0xC0 <= b < 0xE0
    ensures b & 0xF0 == 0xE0 <==> 0xE0 <= b < 0xF0
  {
  }

  // ---- laws ------------------------------------------------------------------------------

  lemma SplitJoin2(c: int)
    requires 0 <= c <= 0x7FF
    ensures Join2(0xC0 + c / 0x40, 0x80 + c % 0x40) == c
  {
    assert 0 <= c / 0x40 < 0x20;
  }

  lemma SplitJoin3(c: int)
    requires 0 <= c <= 0xFFFF
    ensures Join3(0xE0 + c / 0x1000, 0x80 + c / 0x40 % 0x40, 0x80 + c % 0x40) == c
  {
    assert 0 <= c / 0x1000 < 0x10;
    assert c / 0x40 / 0x40 == c / 0x1000;
  }

  lemma DecodeEncoded(c: int, tail: seq<byte>)
    requires IsScalar(c) && c <= 0xFFFF
    ensures DecodeOne(Encode(c) + tail) == Ok((c, |Encode(c)|))
    ensures (Encode(c) + tail)[|Encode(c)|..] == tail
    ensures forall i :: 0 <= i < |Encode(c)| ==> Encode(c)[i] != 0
  {
    if c > 0x7FF {
      SplitJoin3(c);
    } else {
      SplitJoin2(c);
    }
    hide Join2, Join3;
  }

  lemma {:induction false} EncodeAllSplitsFirst(s: seq<Rune>)
    requires InRange(s) && s != []
    ensures EncodeAll(s) == Encode(s[0]) + EncodeAll(s[1..])
    decreases |s|
  {
    hide Encode;
    if |s| > 1 {
      EncodeAllSplitsFirst(s[..|s| - 1]);
      assert s[1..][..|s| - 2] == s[..|s| - 1][1..];
    } else {
      assert s[..0] == [] && s[1..] == [];
    }
  }

  lemma {:induction false} DecodeAllEncoded(s: seq<Rune>)
    requires InRange(s)
    ensures DecodeAll(EncodeAll(s)) == Ok(s)
    decreases |s|
  {
    hide Encode, DecodeOne;
    if s != [] {
      EncodeAllSplitsFirst(s);
      DecodeEncoded(s[0], EncodeAll(s[1..]));
      DecodeAllEncoded(s[1..]);
      assert s == [s[0]] + s[1..];
    }
  }

  /** Every string the writer accepts is read back, and exactly the bytes written are taken. */
  lemma JavaUtfRoundTrip(s: seq<Rune>, rest: seq<byte>)
    requires Encodable(s)
    ensures Unframe(Framed(s) + rest) == (Ok(s), rest)
  {
    hide ReadNumber, EncodeAll, DecodeAll;
    var body := EncodeAll(s);
    assert Framed(s) + rest == BigEndian(|body|, 2) + (body + rest);
    Powers256();
    NumberRoundTrip(|body|, 2, body + rest);
    ReadFullExact(body, rest);
    DecodeAllEncoded(s);
  }

  /** No zero byte ever appears in the encoded body. */
  lemma {:induction false} NoZeroByte(s: seq<Rune>)
    requires InRange(s)
    ensures forall i :: 0 <= i < |EncodeAll(s)| ==> EncodeAll(s)[i] != 0
    decreases |s|
  {
    if s != [] {
      NoZeroByte(s[..|s| - 1]);
      DecodeEncoded(s[|s| - 1], []);
    }
  }
}
