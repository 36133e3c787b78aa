/** packets/encryption.go: the CFB-8 stream cipher as a window that slides through a 256-byte
    array, against the shift register of section 6.3 of NIST SP 800-38A with s = 8. */
module Cfb8 {

  const BLOCK := 16
  const ROOM := 256

  type Bytes = seq<bv8>

  /** The first byte of the block cipher's output for a block. */
  type Cipher = Bytes -> bv8

  /** CFB-8 (section 6.3 of NIST SP 800-38A): every byte is combined with the cipher of the last 16
      bytes of the initial vector and the ciphertext before it. */
  ghost predicate IsCfb8(e: Cipher, iv: Bytes, plain: Bytes, cipher: Bytes)
    requires |iv| == BLOCK
  {
    && |plain| == |cipher|
    && forall i :: 0 <= i < |plain| ==> cipher[i] == plain[i] ^ e((iv + cipher[..i])[i..])
  }

  // ---- the shift register ----------------------------------------------------------------

  /** The register after a byte of ciphertext was shifted in. */
  function Shift(register: Bytes, c: bv8): Bytes
    requires |register| == BLOCK
  {
    register[1..] + [c]
  }

  /** The ciphertext byte among input byte x and output byte y. */
  function Feedback(decrypt: bool, x: bv8, y: bv8): bv8 {
    if decrypt then x else y
  }

  function Xor(a: bv8, b: bv8): bv8 {
    a ^ b
  }

  function Transform(e: Cipher, decrypt: bool, register: Bytes, src: Bytes): (dst: Bytes)
    requires |register| == BLOCK
    ensures |dst| == |src|
    decreases |src|
  {
    if src == [] then []
    else
      var y := Xor(src[0], e(register));
      [y] + Transform(e, decrypt, Shift(register, Feedback(decrypt, src[0], y)), src[1..])
  }

  /** The register after the whole of src. */
  function After(e: Cipher, decrypt: bool, register: Bytes, src: Bytes): (r: Bytes)
    requires |register| == BLOCK
    ensures |r| == BLOCK
    decreases |src|
  {
    if src == [] then register
    else
      var y := Xor(src[0], e(register));
      After(e, decrypt, Shift(register, Feedback(decrypt, src[0], y)), src[1..])
  }

  lemma XorCancels(x: bv8, k: bv8)
    ensures Xor(Xor(x, k), k) == x
  {
  }

  /** Decryption undoes encryption, and both ends are left with the same register. */
  lemma {:induction false} DecryptUndoesEncrypt(e: Cipher, register: Bytes, src: Bytes)
    requires |register| == BLOCK
    ensures var c := Transform(e, false, register, src);
      && Transform(e, true, register, c) == src
      && After(e, true, register, c) == After(e, false, register, src)
    decreases |src|
  {
    hide Xor;
    if src != [] {
      var k := e(register);
      var y := Xor(src[0], k);
      XorCancels(src[0], k);
      var c := Transform(e, false, register, src);
      assert c[0] == y && c[1..] == Transform(e, false, Shift(register, y), src[1..]);
      DecryptUndoesEncrypt(e, Shift(register, y), src[1..]);
      assert src == [src[0]] + src[1..];
    }
  }

  /** Cutting a stream in two and going on with the register left by the first part gives the
      same bytes. */
  lemma {:induction false} TransformSplits(e: Cipher, decrypt: bool, register: Bytes, a: Bytes, b: Bytes)
    requires |register| == BLOCK
    ensures var r := After(e, decrypt, register, a);
      && Transform(e, decrypt, register, a + b) == Transform(e, decrypt, register, a) + Transform(e, decrypt, r, b)
      && After(e, decrypt, register, a + b) == After(e, decrypt, r, b)
    decreases |a|
  {
    hide Xor;
    if a == [] {
      assert a + b == b;
    } else {
      var ab := a + b;
      assert ab[0] == a[0] && ab[1..] == a[1..] + b;
      var y := Xor(a[0], e(register));
      var next := Shift(register, Feedback(decrypt, a[0], y));
      TransformSplits(e, decrypt, next, a[1..], b);
      assert Transform(e, decrypt, register, ab) == [y] + Transform(e, decrypt, next, ab[1..]);
    }
  }

  /** Each byte of the result and the register behind it, in terms of the ciphertext alone: what is
      produced when encrypting, what is consumed when decrypting. */
  lemma {:induction false} RegisterIsCiphertext(e: Cipher, decrypt: bool, register: Bytes, src: Bytes, i: nat)
    requires |register| == BLOCK && i <= |src|
    ensures var dst := Transform(e, decrypt, register, src);
      var cipher := if decrypt then src else dst;
      && After(e, decrypt, register, src[..i]) == (register + cipher[..i])[i..]
      && forall j :: 0 <= j < i ==> dst[j] == src[j] ^ e((register + cipher[..j])[j..])
    decreases i
  {
    hide Transform, After;
    var dst := Transform(e, decrypt, register, src);
    var cipher := if decrypt then src else dst;
    if i == 0 {
      assert src[..0] == [] && (register + cipher[..0])[0..] == register;
      NothingTransformed(e, decrypt, register);
    } else {
      RegisterIsCiphertext(e, decrypt, register, src, i - 1);
      TransformStep(e, decrypt, register, src, i - 1);
      assert (register + cipher[..i])[i..] == (register + cipher[..i - 1])[i - 1..][1..] + [cipher[i - 1]];
    }
  }

  /** The shift register is CFB-8, in both directions. */
  lemma TransformIsCfb8(e: Cipher, register: Bytes, src: Bytes)
    requires |register| == BLOCK
    ensures IsCfb8(e, register, src, Transform(e, false, register, src))
    ensures IsCfb8(e, register, Transform(e, true, register, src), src)
  {
    hide Transform, After;
    RegisterIsCiphertext(e, false, register, src, |src|);
    RegisterIsCiphertext(e, true, register, src, |src|);
    forall i | 0 <= i < |src|
      ensures src[i] == Transform(e, true, register, src)[i] ^ e((register + src[..i])[i..])
    {
      XorCancels(src[i], e((register + src[..i])[i..]));
    }
  }

  /** CFB-8 leaves one ciphertext for a plaintext, and one plaintext for a ciphertext. */
  lemma {:induction false} Cfb8Unique(e: Cipher, iv: Bytes, p1: Bytes, c1: Bytes, p2: Bytes, c2: Bytes, n: nat)
    requires |iv| == BLOCK && IsCfb8(e, iv, p1, c1) && IsCfb8(e, iv, p2, c2)
    requires n <= |p1| == |p2|
    ensures p1[..n] == p2[..n] <==> c1[..n] == c2[..n]
    decreases n
  {
    if n > 0 {
      Cfb8Unique(e, iv, p1, c1, p2, c2, n - 1);
      if c1[..n - 1] == c2[..n - 1] {
        var k := e((iv + c1[..n - 1])[n - 1..]);
        XorCancels(p1[n - 1], k);
        XorCancels(p2[n - 1], k);
      }
      LastOfPrefix(p1, p2, n);
      LastOfPrefix(c1, c2, n);
    }
  }

  lemma LastOfPrefix(a: Bytes, b: Bytes, n: nat)
    requires 0 < n <= |a| && n <= |b|
    ensures a[..n] == b[..n] <==> a[..n - 1] == b[..n - 1] && a[n - 1] == b[n - 1]
  {
    if a[..n] == b[..n] {
      assert a[..n - 1] == a[..n][..n - 1] && b[..n - 1] == b[..n][..n - 1];
      assert a[n - 1] == a[..n][n - 1] && b[n - 1] == b[..n][n - 1];
    }
    if a[..n - 1] == b[..n - 1] && a[n - 1] == b[n - 1] {
      assert a[..n] == a[..n - 1] + [a[n - 1]] && b[..n] == b[..n - 1] + [b[n - 1]];
    }
  }

  // ---- the sliding window ----------------------------------------------------------------

  class Cipherer {
    const c: Cipher
    const de: bool
    const ivReal: array<bv8>
    var off: nat   // the window is iv_real[off..off+16]

    ghost predicate Valid()
      reads this, ivReal
    {
      ivReal.Length == ROOM && off + BLOCK <= ROOM
    }

    function Window(): (w: Bytes)
      requires Valid()
      reads this, ivReal
      ensures |w| == BLOCK
    {
      ivReal[off..off + BLOCK]
    }

    /** newCFB8, which panics unless the initial vector has 16 bytes. */
    constructor (c: Cipher, iv: Bytes, decrypt: bool)
      requires |iv| == BLOCK
      ensures Valid() && fresh(ivReal) && Window() == iv
      ensures this.c == c && de == decrypt
    {
      this.c, de, off := c, decrypt, 0;
      ivReal := new bv8[ROOM](i => if 0 <= i < |iv| then iv[i] else 0);
    }

    /** Move the window on by one byte and put the ciphertext byte at its end; at the end of
        the array the last 15 bytes are copied back to its front. */
    method Slide(x: bv8)
      requires Valid()
      modifies `off, ivReal
      ensures Valid() && Window() == Shift(old(Window()), x)
    {
      if ROOM - off >= BLOCK + 1 {
        off := off + 1;
      } else {
        forall i | 0 <= i < BLOCK - 1 {
          ivReal[i] := ivReal[off + 1 + i];
        }
        off := 0;
      }
      ivReal[off + BLOCK - 1] := x;
    }

    /** XORKeyStream(dst[at..at+n], src[at..at+n]); dst and src may be the same array. */
    method XORKeyStream(dst: array<bv8>, src: array<bv8>, at: nat, n: nat)
      requires Valid() && at + n <= src.Length && at + n <= dst.Length
      requires dst != ivReal && src != ivReal
      modifies `off, ivReal, dst
      ensures Valid()
      ensures dst[at..at + n] == Transform(c, de, old(Window()), old(src[at..at + n]))
      ensures Window() == After(c, de, old(Window()), old(src[at..at + n]))
      ensures if de then IsCfb8(c, old(Window()), dst[at..at + n], old(src[at..at + n]))
              else IsCfb8(c, old(Window()), old(src[at..at + n]), dst[at..at + n])
      ensures dst[..at] == old(dst[..at]) && dst[at + n..] == old(dst[at + n..])
    {
      hide Xor, Transform, After, Shift, Feedback, IsCfb8;
      ghost var plain, start := src[at..at + n], Window();
      ghost var result, before := Transform(c, de, start, plain), dst[..];
      assert plain[..0] == [];
      NothingTransformed(c, de, start);
      for i := 0 to n
        invariant Valid()
        invariant Window() == After(c, de, start, plain[..i])
        invariant forall j :: 0 <= j < i ==> dst[at + j] == result[j]
        invariant forall j :: i <= j < n ==> src[at + j] == plain[j]
        invariant forall j :: 0 <= j < dst.Length && !(at <= j < at + i) ==> dst[j] == before[j]
      {
        var x := src[at + i];
        var y := Xor(x, c(Window()));
        TransformStep(c, de, start, plain, i);
        Slide(Feedback(de, x, y));
        dst[at + i] := y;
      }
      assert plain[..n] == plain;
      assert dst[at..at + n] == result;
      TransformIsCfb8(c, start, plain);
    }
  }

  lemma NothingTransformed(e: Cipher, decrypt: bool, register: Bytes)
    requires |register| == BLOCK
    ensures Transform(e, decrypt, register, []) == [] && After(e, decrypt, register, []) == register
  {
  }

  /** Byte i of the result, and the register after it. */
  lemma TransformStep(e: Cipher, decrypt: bool, register: Bytes, src: Bytes, i: nat)
    requires |register| == BLOCK && i < |src|
    ensures var r := After(e, decrypt, register, src[..i]);
      var y := Xor(src[i], e(r));
      && Transform(e, decrypt, register, src)[i] == y
      && After(e, decrypt, register, src[..i + 1]) == Shift(r, Feedback(decrypt, src[i], y))
  {
    hide Xor;
    assert src[..i + 1] == src[..i] + [src[i]];
    TransformSplits(e, decrypt, register, src[..i], [src[i]]);
    assert src == src[..i] + src[i..];
    TransformSplits(e, decrypt, register, src[..i], src[i..]);
  }

  // ---- reader and writer -----------------------------------------------------------------

  /** A connection: what was sent over it and what still arrives. */
  class Pipe {
    var sent: Bytes
    var arriving: Bytes

    constructor (arriving: Bytes)
      ensures sent == [] && this.arriving == arriving
    {
      sent, this.arriving := [], arriving;
    }

    /** Delivers any number of bytes, at most p.Length; no error. */
    method Read(p: array<bv8>) returns (n: nat)
      modifies this, p
      ensures n <= p.Length && n <= |old(arriving)|
      ensures p[..n] == old(arriving)[..n] && arriving == old(arriving)[n..] && sent == old(sent)
    {
      n :| 0 <= n <= p.Length && n <= |arriving|;
      forall i | 0 <= i < n {
        p[i] := arriving[i];
      }
      arriving := arriving[n..];
    }

    method Write(p: array<bv8>)
      modifies `sent
      ensures sent == old(sent) + p[..]
    {
      sent := sent + p[..];
    }
  }

  /** encryptedWriter and encryptedReader over one pipe, with what went through them so far. */
  class EncryptedWriter {
    const w: Pipe
    const encrypter: Cipherer
    ghost const iv: Bytes
    ghost var written: Bytes

    ghost predicate Valid()
      reads this, w, encrypter, encrypter.ivReal
    {
      && encrypter.Valid() && !encrypter.de && |iv| == BLOCK
      && w.sent == Transform(encrypter.c, false, iv, written)
      && encrypter.Window() == After(encrypter.c, false, iv, written)
    }

    /** NewEncryptedWriter: key and initial vector are the shared secret. */
    constructor (w: Pipe, c: Cipher, secret: Bytes)
      requires |secret| == BLOCK && w.sent == []
      ensures Valid() && written == [] && this.w == w && fresh(encrypter) && fresh(encrypter.ivReal)
      ensures encrypter.c == c && iv == secret
    {
      var e := new Cipherer(c, secret, false);
      this.w, encrypter, iv, written := w, e, secret, [];
    }

    /** Encrypts the caller's buffer in place and passes it on. However a stream is cut into
        writes, the pipe carries the encryption of the whole. */
    method Write(p: array<bv8>)
      requires Valid() && p != encrypter.ivReal
      modifies `written, w, encrypter, encrypter.ivReal, p
      ensures Valid() && written == old(written) + old(p[..])
      ensures IsCfb8(encrypter.c, iv, written, w.sent)
    {
      hide Xor, Transform, After, IsCfb8;
      ghost var plain := p[..];
      assert p[0..p.Length] == plain;
      TransformSplits(encrypter.c, false, iv, written, plain);
      encrypter.XORKeyStream(p, p, 0, p.Length);
      assert p[..] == p[0..p.Length];
      w.Write(p);
      written := written + plain;
      TransformIsCfb8(encrypter.c, iv, written);
    }
  }

  class EncryptedReader {
    const r: Pipe
    const decrypter: Cipherer
    ghost const iv: Bytes
    ghost const whole: Bytes   // all that ever arrives
    ghost var taken: Bytes     // ciphertext taken so far
    ghost var got: Bytes       // plaintext handed out so far

    ghost predicate Valid()
      reads this, r, decrypter, decrypter.ivReal
    {
      && decrypter.Valid() && decrypter.de && |iv| == BLOCK
      && whole == taken + r.arriving
      && got == Transform(decrypter.c, true, iv, taken)
      && decrypter.Window() == After(decrypter.c, true, iv, taken)
    }

    constructor (r: Pipe, c: Cipher, secret: Bytes)
      requires |secret| == BLOCK
      ensures Valid() && got == [] && taken == [] && this.r == r && whole == r.arriving
      ensures fresh(decrypter) && fresh(decrypter.ivReal) && decrypter.c == c && iv == secret
    {
      var d := new Cipherer(c, secret, true);
      this.r, decrypter, iv, whole, taken, got := r, d, secret, r.arriving, [], [];
    }

    /** A successful Read, of whatever length. */
    method Read(p: array<bv8>) returns (n: nat)
      requires Valid() && p != decrypter.ivReal
      modifies `taken, `got, r, decrypter, decrypter.ivReal, p
      ensures Valid() && n <= p.Length
      ensures got == old(got) + p[..n] && |taken| == |old(taken)| + n
      ensures IsCfb8(decrypter.c, iv, got, taken) && whole == taken + r.arriving
    {
      hide Xor, Transform, After, IsCfb8;
      n := r.Read(p);
      ghost var cipher := p[..n];
      assert old(r.arriving) == cipher + r.arriving;
      TransformSplits(decrypter.c, true, iv, taken, cipher);
      assert p[0..n] == cipher;
      decrypter.XORKeyStream(p, p, 0, n);
      assert p[..n] == p[0..n];
      assert taken + (cipher + r.arriving) == taken + cipher + r.arriving;
      taken := taken + cipher;
      got := got + p[..n];
      TransformIsCfb8(decrypter.c, iv, taken);
    }
  }

  /** What was read so far, with whatever reads, is the beginning of what was written, with
      whatever writes; everything, once all that was sent has been taken. */
  lemma ReaderGetsWhatWasWritten(writer: EncryptedWriter, reader: EncryptedReader)
    requires writer.Valid() && reader.Valid()
    requires writer.iv == reader.iv && writer.encrypter.c == reader.decrypter.c
    requires reader.whole == writer.w.sent
    ensures reader.got <= writer.written
    ensures reader.r.arriving == [] ==> reader.got == writer.written
  {
    var e, iv, n := writer.encrypter.c, writer.iv, |reader.taken|;
    var a, b := writer.written[..n], writer.written[n..];
    assert writer.written == a + b;
    TransformSplits(e, false, iv, a, b);
    assert reader.taken <= Transform(e, false, iv, a) + Transform(e, false, After(e, false, iv, a), b);
    assert reader.taken == Transform(e, false, iv, a);
    DecryptUndoesEncrypt(e, iv, a);
  }
}
