/** auth.go: the server hash of the login, the signed hexadecimal of a digest. */
module AuthDigest {
  import opened Wire

  // ---- two's complement ------------------------------------------------------------------

  predicate AllZero(p: seq<byte>) {
    forall i :: 0 <= i < |p| ==> p[i] == 0
  }

  lemma {:induction false} ZeroNumber(p: seq<byte>)
    ensures Number(p) == 0 <==> AllZero(p)
  {
    if p != [] {
      ZeroNumber(p[..|p| - 1]);
      assert AllZero(p) <==> AllZero(p[..|p| - 1]) && p[|p| - 1] == 0;
    }
  }

  /** (256^n - Number(p)) mod 256^n */
  function Negated(p: seq<byte>): nat {
    NumberBound(p);
    if Number(p) == 0 then 0 else Power256(|p|) - Number(p)
  }

  lemma ProductZero(x: nat, unit: nat)
    requires unit > 0
    ensures x * unit == 0 <==> x == 0
  {
    if x > 0 {
      assert x * unit >= unit by { assert (x - 1) * unit >= 0; }
    }
  }

  /** The byte that replaces x, in front of a tail with number n. */
  function NegatedByte(x: byte, n: nat): byte {
    if n == 0 then (0x100 - x) % 0x100 else 0xFF - x
  }

  lemma NegateArithmetic(x: byte, n: nat, unit: nat)
    requires n < unit
    ensures NegatedByte(x, n) * unit + (if n == 0 then 0 else unit - n)
            == if x * unit + n == 0 then 0 else 0x100 * unit - (x * unit + n)
  {
    ProductZero(x, unit);
    if n != 0 {
      assert (0xFF - x) * unit == 0xFF * unit - x * unit;
    } else if x != 0 {
      assert (0x100 - x) * unit == 0x100 * unit - x * unit;
    }
  }

  /** Taking one more byte from the front: the number, and when the carry goes on. */
  lemma NegateStep(x: byte, tail: seq<byte>, done: seq<byte>)
    requires |done| == |tail| && Number(done) == Negated(tail)
    ensures Number([NegatedByte(x, Number(tail))] + done) == Negated([x] + tail)
    ensures Number([x] + tail) == 0 <==> x == 0 && Number(tail) == 0
  {
    hide Number, Power256, NegatedByte, Negated;
    var unit := Power256(|tail|);
    var x' := NegatedByte(x, Number(tail));
    NumberBound(tail);
    NumberCons(x, tail);
    NumberCons(x', done);
    NegatedIs(tail);
    NegatedIs([x] + tail);
    NextPower(|tail|);
    NegateArithmetic(x, Number(tail), unit);
    ProductZero(x, unit);
  }

  lemma NegatedIs(p: seq<byte>)
    ensures Negated(p) == if Number(p) == 0 then 0 else Power256(|p|) - Number(p)
    ensures Power256(|p|) > 0
  {
    NumberBound(p);
  }

  lemma NextPower(n: nat)
    ensures Power256(n + 1) == 0x100 * Power256(n)
  {
  }

  /** twosComplement: inverts the bytes from the last to the first and adds the carry, in
      place. */
  method TwosComplement(p: array<byte>)
    modifies p
    ensures Number(p[..]) == Negated(old(p[..]))
  {
    hide Negated;
    var carry := true;
    var i := p.Length;
    ghost var before := p[..];
    NothingNegated(before[i..]);
    while i > 0
      invariant 0 <= i <= p.Length
      invariant forall k :: 0 <= k < i ==> p[k] == before[k]
      invariant Number(p[i..]) == Negated(before[i..])
      invariant carry <==> Number(before[i..]) == 0
    {
      hide Number;
      i := i - 1;
      ghost var tail, done := before[i + 1..], p[i + 1..];
      NegateStep(before[i], tail, done);
      assert before[i..] == [before[i]] + tail;
      var inverted: int := 0xFF - p[i];
      p[i] := inverted;
      if carry {
        carry := p[i] == 0xFF;
        p[i] := (inverted + 1) % 0x100;
      }
      assert p[i] == NegatedByte(before[i], Number(tail));
      assert p[i..] == [p[i]] + done;
    }
    assert p[0..] == p[..] && before[0..] == before;
  }

  lemma NothingNegated(p: seq<byte>)
    requires p == []
    ensures Number(p) == 0 && Negated(p) == 0
  {
  }

  // ---- hexadecimal -----------------------------------------------------------------------

  const DIGITS := "0123456789abcdef"

  function Digit(d: int): (c: char)
    requires 0 <= d < 16
    ensures c in DIGITS && (c == '0' <==> d == 0)
  {
    DIGITS[d]
  }

  function DigitValue(c: char): (d: nat) {
    if '0' <= c <= '9' then c as int - '0' as int
    else if 'a' <= c <= 'f' then c as int - 'a' as int + 10
    else 0
  }

  /** fmt.Sprintf("%x", p) */
  function Hex(p: seq<byte>): string {
    if p == [] then "" else Hex(p[..|p| - 1]) + [Digit(p[|p| - 1] / 16), Digit(p[|p| - 1] % 16)]
  }

  predicate IsHex(s: string) {
    forall i :: 0 <= i < |s| ==> s[i] in DIGITS
  }

  function HexValue(s: string): nat {
    if s == "" then 0 else 16 * HexValue(s[..|s| - 1]) + DigitValue(s[|s| - 1])
  }

  /** strings.TrimLeft(s, "0") */
  function TrimZeroes(s: string): (t: string)
    ensures t == "" || t[0] != '0'
  {
    if s != "" && s[0] == '0' then TrimZeroes(s[1..]) else s
  }

  lemma DigitRoundTrip(d: int)
    requires 0 <= d < 16
    ensures DigitValue(Digit(d)) == d
  {
  }

  lemma {:induction false} HexOfNumber(p: seq<byte>)
    ensures HexValue(Hex(p)) == Number(p) && IsHex(Hex(p))
  {
    if p != [] {
      var init, last := p[..|p| - 1], p[|p| - 1];
      HexOfNumber(init);
      var h, hi, lo := Hex(init), Digit(last / 16), Digit(last % 16);
      assert Hex(p) == h + [hi] + [lo];
      assert (h + [hi] + [lo])[..|h| + 1] == h + [hi] && (h + [hi])[..|h|] == h;
      DigitRoundTrip(last / 16);
      DigitRoundTrip(last % 16);
      assert HexValue(h + [hi] + [lo]) == 16 * HexValue(h + [hi]) + last % 16;
      assert HexValue(h + [hi]) == 16 * HexValue(h) + last / 16;
    }
  }

  lemma {:induction false} LeadingZero(s: string)
    requires s != "" && s[0] == '0'
    ensures HexValue(s) == HexValue(s[1..])
    decreases |s|
  {
    if |s| == 1 {
      assert s[..0] == "" && s[1..] == "";
    } else {
      LeadingZero(s[..|s| - 1]);
      assert s[1..][..|s| - 2] == s[..|s| - 1][1..];
    }
  }

  lemma {:induction false} TrimKeepsValue(s: string)
    ensures HexValue(TrimZeroes(s)) == HexValue(s)
    ensures IsHex(s) ==> IsHex(TrimZeroes(s))
    decreases |s|
  {
    if s != "" && s[0] == '0' {
      LeadingZero(s);
      TrimKeepsValue(s[1..]);
    }
  }

  // ---- the digest ------------------------------------------------------------------------

  /** The two's-complement value of a digest. */
  function SignedValue(hash: seq<byte>): int
    requires hash != []
  {
    if hash[0] >= 0x80 then Number(hash) - Power256(|hash|) else Number(hash)
  }

  /** A signed hexadecimal number without leading zeros, in lower case. */
  predicate Canonical(s: string) {
    var magnitude := if s != "" && s[0] == '-' then s[1..] else s;
    magnitude != "" && magnitude[0] != '0' && IsHex(magnitude)
  }

  function Parse(s: string): int {
    if s != "" && s[0] == '-' then -(HexValue(s[1..]) as int) else HexValue(s)
  }

  /** authDigest from the SHA-1 sum on. It prints the canonical signed hexadecimal of the
      digest exactly when the digest is not zero; for zero it prints nothing. */
  method Digest(hash: array<byte>) returns (res: string)
    requires hash.Length > 0
    modifies hash
    ensures Canonical(res) <==> !AllZero(old(hash[..]))
    ensures Canonical(res) ==> Parse(res) == SignedValue(old(hash[..]))
    ensures AllZero(old(hash[..])) ==> res == ""
  {
    hide Number, HexValue, Hex, TrimZeroes, IsHex, AllZero;
    ghost var before := hash[..];
    ZeroNumber(before);
    NumberBound(before);
    NegatedIs(before);
    hide Power256;
    var negative := hash[0] >= 0x80;
    if negative {
      TwosComplement(hash);
    }
    TrimmedHex(hash[..]);
    var digits := TrimZeroes(Hex(hash[..]));
    res := digits;
    if negative {
      FirstByteSet(before);
      res := "-" + res;
      assert res[1..] == digits;
    }
  }

  /** A digest with its first bit set is not zero. */
  lemma FirstByteSet(p: seq<byte>)
    requires p != [] && p[0] >= 0x80
    ensures !AllZero(p)
  {
  }

  lemma TrimmedHex(p: seq<byte>)
    ensures var digits := TrimZeroes(Hex(p));
      && HexValue(digits) == Number(p) && IsHex(digits)
      && (digits == "" <==> Number(p) == 0)
      && (digits != "" ==> digits[0] != '-')
  {
    HexOfNumber(p);
    TrimKeepsValue(Hex(p));
    var digits := TrimZeroes(Hex(p));
    hide Hex, Number;
    if digits != "" {
      NotZero(digits);
    }
  }

  lemma {:induction false} NotZero(s: string)
    requires s != "" && IsHex(s) && s[0] != '0'
    ensures HexValue(s) > 0
    ensures s[0] != '-'
    decreases |s|
  {
    if |s| == 1 {
      assert s[..0] == "";
    } else {
      NotZero(s[..|s| - 1]);
    }
  }
}
