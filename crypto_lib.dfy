/**
 * The toy RSA byte cipher (crypto_lib.c): square-and-multiply modular
 * exponentiation, the extended Euclidean inverse, and the encryption of the
 * shared buffer into 5-character decimal chunks and back.
 */
module CryptoLib {
  import opened CTypes
  import opened Kernel
  import opened NumberTheory
  import IpcDriverFixed

  /** The hard-coded key: p = 61, q = 53, n = p * q, phi = (p - 1) * (q - 1), e = 17. */
  const RsaP: int := 61
  const RsaQ: int := 53
  const RsaN: int := RsaP * RsaQ
  const RsaPhi: int := (RsaP - 1) * (RsaQ - 1)
  const RsaE: int := 17
  /** The private exponent `mod_inverse(17, 3120)` computes. */
  const RsaD: int := 2753

  /** `SHM_SIZE`, the size of `shared_mem`, `encrypted_mem` and `decrypted_mem`. */
  const ShmSize: nat := IpcDriverFixed.ShmSize

  /** The bytes of `char message[256]` copied from the buffer: at most 255. */
  const MessageCap: nat := 255

  /** The longest message whose chunks and final NUL fit in `encrypted_mem`. */
  const MaxMessageLength: nat := (ShmSize - 1) / 5

  const Digit0: Byte := 48
  const Minus: Byte := 45

  // ---------------------------------------------------------------------------
  // mod_exp and mod_inverse

  /** `mod_exp(base, exp, mod)` with C's `%`, which follows the sign of the dividend. */
  method ModExp(base: int, exp: int, mod: int) returns (result: int)
    requires mod > 0
    ensures exp <= 0 ==> result == 1
    ensures exp > 0 ==> result == CRem(Pow(base, exp), mod)
    ensures exp > 0 && base >= 0 ==> 0 <= result < mod && result == Pow(base, exp) % mod
  {
    result := 1;
    var b, e := base, exp;
    while e > 0
      invariant exp <= 0 ==> e == exp && result == 1
      invariant exp > 0 ==> e >= 0 && CRem(result * Pow(b, e), mod) == CRem(Pow(base, exp), mod)
      invariant exp > 0 && e == 0 ==> result == CRem(result, mod)
      decreases e
    {
      SquareAndMultiplyStep(result, b, e, mod);
      if e % 2 == 1 {
        CRemIdem(result * b, mod);
        result := CRem(result * b, mod);
      }
      b := CRem(b * b, mod);
      e := e / 2;
    }
    if exp > 0 && base >= 0 {
      PowNonneg(base, exp);
    }
  }

  function Abs(x: int): nat {
    if x < 0 then -x else x
  }

  lemma StepIdentity(a: int, b: int, q: int, r: int, newr: int)
    ensures b * (r - q * newr) + (a + q * b) * newr == a * newr + b * r
  {
  }

  /** One step of the extended Euclidean algorithm keeps its coefficient bounds. */
  lemma InverseStep(t: int, newt: int, r: int, newr: int, q: int, phi: int)
    requires newr > 0 && r >= 0 && q == r / newr
    requires (t >= 0 && newt <= 0) || (t <= 0 && newt >= 0)
    requires Abs(t) * newr + Abs(newt) * r == phi
    ensures (newt >= 0 && t - q * newt <= 0) || (newt <= 0 && t - q * newt >= 0)
    ensures Abs(newt) * (r - q * newr) + Abs(t - q * newt) * newr == phi
  {
    var a, b := Abs(t), Abs(newt);
    MulNonneg(q, b);
    if t >= 0 && newt <= 0 {
      NegatedFactor(b, q);
      assert q * newt == -(q * b);
      assert t - q * newt == a + q * b;
    } else {
      assert q * newt == q * b;
      assert t - q * newt == -(a + q * b);
    }
    StepIdentity(a, b, q, r, newr);
  }

  /** A coefficient bounded by phi / r with r >= 2 is below phi. */
  lemma HalfBound(x: nat, r: int, phi: int)
    requires r >= 2 && x * r <= phi
    ensures phi > 0 ==> x < phi
  {
    assert x * r >= x * 2;
  }

  /**
   * The loop invariant of `mod_inverse(e, phi)`: r and newr are remainders
   * with the gcd of phi and e, t and newt their Bezout coefficients of e
   * modulo phi (k1 and k2 the multiples of phi), of opposite signs and
   * bounded so that |t| < phi once phi > 1.
   */
  ghost predicate EuclidInv(e: int, phi: int, t: int, newt: int, r: int, newr: int, k1: int, k2: int) {
    && e >= 0 && phi >= 0 && r >= 0 && newr >= 0
    && Gcd(r, newr) == Gcd(phi, e)
    && t * e - r == k1 * phi && newt * e - newr == k2 * phi
    && ((t >= 0 && newt <= 0) || (t <= 0 && newt >= 0))
    && Abs(t) * newr + Abs(newt) * r == phi
    && (r == phi || newr < r)
    && (phi > 1 ==> Abs(t) < phi)
  }

  /** The Bezout relations carry over to the next pair of remainders. */
  lemma CoefficientStep(e: int, phi: int, t: int, newt: int, r: int, newr: int, k1: int, k2: int, q: int)
    requires t * e - r == k1 * phi && newt * e - newr == k2 * phi
    ensures (t - q * newt) * e - (r - q * newr) == (k1 - q * k2) * phi
  {
    assert (t - q * newt) * e - (r - q * newr) == (t * e - r) - q * (newt * e - newr);
    assert q * (k2 * phi) == (q * k2) * phi;
  }

  lemma GcdStep(r: nat, newr: nat)
    requires newr > 0
    ensures r - (r / newr) * newr == r % newr
    ensures Gcd(r, newr) == Gcd(newr, r % newr)
  {
  }

  /** Once remainders reach 2 or more, the next coefficient stays below phi. */
  lemma CoefficientBound(newt: int, r: int, newr: int, phi: int)
    requires r >= 0 && newr > 0 && (r == phi || newr < r) && Abs(newt) * r <= phi
    ensures phi > 1 ==> Abs(newt) < phi
  {
    if phi > 1 && r >= 2 {
      HalfBound(Abs(newt), r, phi);
    }
  }

  lemma EuclidLoopStep(e: int, phi: int, t: int, newt: int, r: int, newr: int, k1: int, k2: int)
    requires EuclidInv(e, phi, t, newt, r, newr, k1, k2) && newr != 0
    ensures var q := r / newr;
            && EuclidInv(e, phi, newt, t - q * newt, newr, r - q * newr, k2, k1 - q * k2)
            && 0 <= r - q * newr < newr
  {
    var q := r / newr;
    InverseStep(t, newt, r, newr, q, phi);
    MulNonneg(Abs(t), newr);
    CoefficientBound(newt, r, newr, phi);
    GcdStep(r, newr);
    CoefficientStep(e, phi, t, newt, r, newr, k1, k2, q);
  }

  lemma EuclidResult(e: int, phi: int, t: int, g: int, k: int)
    requires e >= 0 && phi >= 0 && t * e - g == k * phi
    requires phi > 1 ==> Abs(t) < phi
    ensures var d := if t < 0 then t + phi else t;
            && (phi > 0 ==> (e * d) % phi == g % phi)
            && (phi > 1 ==> 0 <= d < phi)
  {
    var d := if t < 0 then t + phi else t;
    if phi > 0 {
      if t < 0 {
        assert e * d == t * e + phi * e;
        assert e * d == g + phi * (k + e);
        ModOfMultiplePlus(g, k + e, phi);
      } else {
        assert e * d == g + phi * k;
        ModOfMultiplePlus(g, k, phi);
      }
    }
  }

  /**
   * `mod_inverse(e, phi)`: the extended Euclidean algorithm. The result is a
   * Bezout coefficient of e modulo phi, moved into [0, phi).
   */
  method ModInverse(e: int, phi: int) returns (d: int)
    requires e >= 0 && phi >= 0
    ensures phi > 0 ==> (e * d) % phi == Gcd(phi, e) % phi
    ensures phi > 1 ==> 0 <= d < phi
  {
    var t, newt, r, newr := 0, 1, phi, e;
    ghost var k1, k2 := -1, 0;
    while newr != 0
      invariant EuclidInv(e, phi, t, newt, r, newr, k1, k2)
      decreases newr
    {
      var quotient := r / newr;
      EuclidLoopStep(e, phi, t, newt, r, newr, k1, k2);
      var temp := t;
      t := newt;
      newt := temp - quotient * newt;
      k1, k2 := k2, k1 - quotient * k2;
      temp := r;
      r := newr;
      newr := temp - quotient * newr;
    }
    assert Gcd(r, newr) == r;
    EuclidResult(e, phi, t, r, k1);
    d := if t < 0 then t + phi else t;
  }

  lemma GcdOfKey()
    ensures Gcd(3120, 17) == 1
  {
    assert 3120 % 17 == 9;
    assert Gcd(3120, 17) == Gcd(17, 9);
    assert Gcd(17, 9) == Gcd(9, 8);
    assert Gcd(9, 8) == Gcd(8, 1);
    assert Gcd(8, 1) == Gcd(1, 0);
  }

  /** 2753 is the only inverse of 17 modulo 3120 in [0, 3120). */
  lemma PrivateExponent(d: int)
    requires 0 <= d < 3120 && (17 * d) % 3120 == 1
    ensures d == RsaD
  {
    var q := (17 * d) / 3120;
    assert 17 * d == 3120 * q + 1;
    assert 2753 * (17 * d) == 3120 * (2753 * q) + 2753;
    assert 2753 * (17 * d) == 3120 * (15 * d) + d;
    assert d == 3120 * (2753 * q - 15 * d) + 2753;
    DivModUnique(d, 3120, 2753 * q - 15 * d, 2753);
    ModSmall(d, 3120);
  }

  /** `mod_inverse(17, 3120)`'s contract pins its result to 2753. */
  lemma KeyInverse(d: int)
    requires (RsaE * d) % RsaPhi == Gcd(RsaPhi, RsaE) % RsaPhi && 0 <= d < RsaPhi
    ensures d == RsaD
  {
    assert RsaE == 17 && RsaPhi == 3120;
    GcdOfKey();
    assert (17 * d) % 3120 == 1;
    PrivateExponent(d);
  }

  // ---------------------------------------------------------------------------
  // "%05lld" and simple_strtol

  function Pow10(w: nat): nat {
    if w == 0 then 1 else 10 * Pow10(w - 1)
  }

  predicate IsDigit(b: Byte) {
    Digit0 <= b <= Digit0 + 9
  }

  /** The lowest w decimal digits of v, most significant first. */
  function DigitChars(v: nat, w: nat): (s: seq<Byte>)
    ensures |s| == w && forall i :: 0 <= i < w ==> IsDigit(s[i])
  {
    if w == 0 then [] else DigitChars(v / 10, w - 1) + [Digit0 + v % 10]
  }

  /** The characters `snprintf(buf, 6, "%05lld", v)` produces before its NUL. */
  function Format05(v: int): (s: seq<Byte>)
    requires -10000 < v < 100000
    ensures |s| == 5 && forall i :: 0 <= i < 5 ==> s[i] != 0
  {
    if v >= 0 then DigitChars(v, 5) else [Minus] + DigitChars(-v, 4)
  }

  /** The value of a string of decimal digits. */
  function DecimalValue(s: seq<Byte>): nat
    requires forall i :: 0 <= i < |s| ==> IsDigit(s[i])
  {
    if s == [] then 0
    else
      assert IsDigit(s[|s| - 1]);
      DecimalValue(s[..|s| - 1]) * 10 + (s[|s| - 1] - Digit0)
  }

  /** The number of leading decimal digits of s. */
  function DigitPrefix(s: seq<Byte>): (n: nat)
    ensures n <= |s| && forall i :: 0 <= i < n ==> IsDigit(s[i])
  {
    if s == [] || !IsDigit(s[0]) then 0 else 1 + DigitPrefix(s[1..])
  }

  /** `simple_strtol(s, NULL, 10)`: an optional minus sign, then the longest run of digits. */
  function StrToL(s: seq<Byte>): (v: int)
    ensures |s| > 0 && s[0] == Minus ==> v <= 0
    ensures !(|s| > 0 && s[0] == Minus) ==> v >= 0
    ensures !(|s| > 0 && s[0] == Minus) && DigitPrefix(s) == 0 ==> v == 0
    ensures |s| > 0 && s[0] == Minus && DigitPrefix(s[1..]) == 0 ==> v == 0
  {
    if |s| > 0 && s[0] == Minus then -(DecimalValue(s[1..][..DigitPrefix(s[1..])]) as int)
    else DecimalValue(s[..DigitPrefix(s)])
  }

  lemma {:induction false} DecimalDigits(v: nat, w: nat)
    requires v < Pow10(w)
    ensures DecimalValue(DigitChars(v, w)) == v
    decreases w
  {
    if w > 0 {
      DecimalDigits(v / 10, w - 1);
      var s := DigitChars(v, w);
      assert s[..|s| - 1] == DigitChars(v / 10, w - 1);
    }
  }

  lemma {:induction false} DigitPrefixOf(d: seq<Byte>, rest: seq<Byte>)
    requires forall i :: 0 <= i < |d| ==> IsDigit(d[i])
    requires rest == [] || !IsDigit(rest[0])
    ensures DigitPrefix(d + rest) == |d|
    decreases |d|
  {
    if d != [] {
      assert (d + rest)[1..] == d[1..] + rest;
      DigitPrefixOf(d[1..], rest);
    } else {
      assert d + rest == rest;
    }
  }

  /** Parsing a formatted chunk, ended by its NUL, gives the number back. */
  lemma FormatRoundTrip(v: int)
    requires -10000 < v < 100000
    ensures StrToL(Format05(v) + [0]) == v
  {
    var s := Format05(v) + [0];
    assert Pow10(4) == 10000;
    assert Pow10(5) == 100000;
    if v >= 0 {
      DigitPrefixOf(DigitChars(v, 5), [0]);
      assert s[..5] == DigitChars(v, 5);
      DecimalDigits(v, 5);
    } else {
      assert s[1..] == DigitChars(-v, 4) + [0];
      DigitPrefixOf(DigitChars(-v, 4), [0]);
      assert s[1..][..4] == DigitChars(-v, 4);
      DecimalDigits(-v, 4);
    }
  }

  // ---------------------------------------------------------------------------
  // The cipher on buffer contents

  /** The value `mod_exp((long long)c, e, n)` gives for a message byte c. */
  function EncryptByte(b: Byte): (c: int)
    ensures 0 <= c < RsaN
  {
    PowNonneg(CharValue(b), RsaE);
    CRem(Pow(CharValue(b), RsaE), RsaN)
  }

  /**
   * `(char)mod_exp(v, d, n)`: one decrypted byte. It inverts EncryptByte: the
   * ciphertext of any byte decrypts to that byte.
   */
  function DecryptValue(v: int): (b: Byte)
    ensures forall m: Byte {:trigger EncryptByte(m)} :: EncryptByte(m) == v ==> b == m
  {
    var b := CharOf(CRem(Pow(v, RsaD), RsaN));
    assert forall m: Byte {:trigger EncryptByte(m)} :: EncryptByte(m) == v ==> b == m by {
      forall m: Byte | EncryptByte(m) == v
        ensures b == m
      {
        RsaRoundTrip(m);
      }
    }
    b
  }

  /** The chunks of an encrypted message, one 5-character field per byte. */
  function Encode(msg: seq<Byte>): (s: seq<Byte>)
    ensures |s| == 5 * |msg|
    ensures forall i :: 0 <= i < |s| ==> s[i] != 0
    decreases |msg|
  {
    if msg == [] then [] else Encode(msg[..|msg| - 1]) + Format05(EncryptByte(msg[|msg| - 1]))
  }

  lemma {:induction false} EncodeChunk(msg: seq<Byte>, i: nat)
    requires i < |msg|
    ensures Encode(msg)[5 * i..5 * i + 5] == Format05(EncryptByte(msg[i]))
    decreases |msg|
  {
    var init := msg[..|msg| - 1];
    if i < |msg| - 1 {
      EncodeChunk(init, i);
      assert Encode(msg)[5 * i..5 * i + 5] == Encode(init)[5 * i..5 * i + 5];
    }
  }

  /** Writing chunk i and its NUL over the zeros extends the encoded prefix by one byte. */
  lemma EncodeStep(buf: seq<Byte>, msg: seq<Byte>, i: nat)
    requires i < |msg| && 5 * i + 6 <= ShmSize
    requires buf == Encode(msg[..i]) + Zeros(ShmSize - 5 * i)
    ensures buf[..5 * i] + Format05(EncryptByte(msg[i])) + [0] + buf[5 * i + 6..]
            == Encode(msg[..i + 1]) + Zeros(ShmSize - 5 * (i + 1))
  {
    assert msg[..i + 1][..i] == msg[..i];
    assert buf[..5 * i] == Encode(msg[..i]);
    assert buf[5 * i + 6..] == Zeros(ShmSize - 5 * (i + 1) - 1);
    assert [0] + Zeros(ShmSize - 5 * (i + 1) - 1) == Zeros(ShmSize - 5 * (i + 1));
  }

  /** The 256-byte `message` that `strncpy(message, shared_mem, 255)` leaves. */
  function StrncpyMessage(mem: seq<Byte>): (msg: seq<Byte>)
    requires |mem| >= MessageCap
    ensures |msg| == MessageCap + 1
    ensures Strnlen(msg, MessageCap + 1) == Strnlen(mem, MessageCap)
    ensures msg[..Strnlen(mem, MessageCap)] == mem[..Strnlen(mem, MessageCap)]
  {
    var n := Strnlen(mem, MessageCap);
    var msg := seq(MessageCap + 1, i requires 0 <= i <= MessageCap => if i < n then mem[i] else 0);
    StrnlenUnique(msg, MessageCap + 1, n);
    msg
  }

  /** The message length as the code computes it, `strnlen(message, 256)`: up to 255. */
  function SourceMessageLength(mem: seq<Byte>): (n: nat)
    requires |mem| >= MessageCap
    ensures n <= MessageCap
  {
    Strnlen(StrncpyMessage(mem), MessageCap + 1)
  }

  /**
   * A message of 205 or more bytes passes the 255-byte cap, but the chunk for
   * byte 204 and its NUL are written at offsets 1020 .. 1025 of the
   * 1024-byte `encrypted_mem`.
   */
  lemma LongMessageOverflows(mem: seq<Byte>)
    requires |mem| == ShmSize
    requires forall i :: 0 <= i <= MaxMessageLength ==> mem[i] != 0
    ensures SourceMessageLength(mem) > MaxMessageLength
    ensures 5 * (SourceMessageLength(mem) - 1) + 6 > ShmSize
  {
    var n := Strnlen(mem, MessageCap);
    assert n < MessageCap ==> mem[n] == 0;
  }

  /**
   * The number of message bytes encrypted: those before the first NUL, at
   * most 255 as in the code and at most 204 so that the output fits.
   */
  function MessageLength(mem: seq<Byte>): (n: nat)
    requires |mem| >= MessageCap
    ensures n <= MaxMessageLength && 5 * n + 1 <= ShmSize
    ensures SourceMessageLength(mem) <= MaxMessageLength ==> n == SourceMessageLength(mem)
    ensures forall i :: 0 <= i < n ==> mem[i] != 0
  {
    Min(SourceMessageLength(mem), MaxMessageLength)
  }

  /**
   * `encrypted_mem` after encrypting a buffer: a string of five characters per
   * message byte.
   */
  function EncryptedImage(mem: seq<Byte>): (enc: seq<Byte>)
    requires |mem| == ShmSize
    ensures |enc| == ShmSize
    ensures 0 in enc && Strlen(enc) == 5 * MessageLength(mem)
  {
    var n := MessageLength(mem);
    var enc := Encode(mem[..n]) + Zeros(ShmSize - 5 * n);
    assert enc[5 * n] == 0;
    StrnlenUnique(enc, |enc|, 5 * n);
    enc
  }

  /**
   * One decrypted chunk: `(char)mod_exp(simple_strtol(temp), d, n)` with temp
   * the chunk and a NUL. It inverts the field the encryption writes for a byte.
   */
  function DecryptChunk(chunk: seq<Byte>): (b: Byte)
    ensures forall m: Byte {:trigger EncryptByte(m)} :: chunk == Format05(EncryptByte(m)) ==> b == m
  {
    var v := StrToL(chunk + [0]);
    assert forall m: Byte {:trigger EncryptByte(m)} :: chunk == Format05(EncryptByte(m)) ==> v == EncryptByte(m) by {
      forall m: Byte | chunk == Format05(EncryptByte(m))
        ensures v == EncryptByte(m)
      {
        FormatRoundTrip(EncryptByte(m));
      }
    }
    DecryptValue(v)
  }

  /**
   * `decrypted_mem` after decrypting `encrypted_mem` = enc: one byte per
   * complete chunk, zeros after them, so it always ends in a NUL.
   */
  function DecryptedImage(enc: seq<Byte>): (dec: seq<Byte>)
    requires |enc| == ShmSize && 0 in enc
    ensures |dec| == ShmSize
    ensures forall i :: Strlen(enc) / 5 <= i < ShmSize ==> dec[i] == 0
    ensures 0 in dec
  {
    var chunks := Strlen(enc) / 5;
    var dec := seq(ShmSize, i requires 0 <= i < ShmSize =>
      if i < chunks then DecryptChunk(enc[5 * i..5 * i + 5]) else 0);
    assert dec[ShmSize - 1] == 0;
    dec
  }

  /** A buffer holding the decrypted chunks and zeros beyond them is the image. */
  lemma DecryptedImageOf(dec: seq<Byte>, enc: seq<Byte>)
    requires |enc| == ShmSize && 0 in enc && |dec| == ShmSize
    requires forall j :: 0 <= j < Strlen(enc) / 5 ==> dec[j] == DecryptChunk(enc[5 * j..5 * j + 5])
    requires forall j :: Strlen(enc) / 5 <= j < ShmSize ==> dec[j] == 0
    ensures dec == DecryptedImage(enc)
  {
  }

  /** Chunk i of the encrypted buffer decrypts to message byte i. */
  lemma ChunkDecrypts(mem: seq<Byte>, i: nat)
    requires |mem| == ShmSize && i < MessageLength(mem)
    ensures DecryptChunk(EncryptedImage(mem)[5 * i..5 * i + 5]) == mem[i]
  {
    var msg := mem[..MessageLength(mem)];
    EncodeChunk(msg, i);
    assert EncryptedImage(mem)[5 * i..5 * i + 5] == Encode(msg)[5 * i..5 * i + 5];
  }

  /**
   * The cipher round trip: decrypting the encryption of a buffer yields the
   * message (the bytes before its first NUL) followed by zero bytes.
   */
  lemma RoundTrip(mem: seq<Byte>)
    requires |mem| == ShmSize
    ensures var enc := EncryptedImage(mem);
            && 0 in enc
            && Strlen(enc) == 5 * MessageLength(mem)
            && DecryptedImage(enc) == mem[..MessageLength(mem)] + Zeros(ShmSize - MessageLength(mem))
  {
    var n := MessageLength(mem);
    var enc := EncryptedImage(mem);
    var expected := mem[..n] + Zeros(ShmSize - n);
    forall j | 0 <= j < n
      ensures expected[j] == DecryptChunk(enc[5 * j..5 * j + 5])
    {
      ChunkDecrypts(mem, j);
    }
    DecryptedImageOf(expected, enc);
  }

  // ---------------------------------------------------------------------------
  // The static buffers and the two operations

  /** `snprintf(&buf[off], 6, "%05lld", v)`: five characters and a NUL. */
  method FormatInto(buf: array<Byte>, off: nat, v: int)
    requires off + 6 <= buf.Length && -10000 < v < 100000
    modifies buf
    ensures buf[..] == old(buf[..off]) + Format05(v) + [0] + old(buf[off + 6..])
  {
    var s := Format05(v) + [0];
    var k := 0;
    while k < 6
      invariant 0 <= k <= 6
      invariant forall j :: 0 <= j < buf.Length ==> buf[j] == if off <= j < off + k then s[j - off] else old(buf[j])
    {
      buf[off + k] := s[k];
      k := k + 1;
    }
    assert buf[..] == old(buf[..off]) + s + old(buf[off + 6..]);
  }

  /**
   * One iteration of the encryption loop: `snprintf(&buf[5 * i], 6, "%05lld",
   * mod_exp(message[i], e, n))` appends the chunk of byte i.
   */
  method EncryptChunk(buf: array<Byte>, message: seq<Byte>, i: nat)
    requires buf.Length == ShmSize && i < |message| && i < MaxMessageLength
    requires buf[..] == Encode(message[..i]) + Zeros(ShmSize - 5 * i)
    modifies buf
    ensures buf[..] == Encode(message[..i + 1]) + Zeros(ShmSize - 5 * (i + 1))
  {
    var c := ModExp(CharValue(message[i]), RsaE, RsaN);
    assert c == EncryptByte(message[i]);
    EncodeStep(buf[..], message, i);
    FormatInto(buf, 5 * i, c);
  }

  /**
   * The body of `encrypt_shared_memory` past its checks: clear the buffer,
   * then write the chunk of each of the first len message bytes.
   */
  method EncryptInto(buf: array<Byte>, message: seq<Byte>, len: nat)
    requires buf.Length == ShmSize && len <= |message| && len <= MaxMessageLength
    modifies buf
    ensures buf[..] == Encode(message[..len]) + Zeros(ShmSize - 5 * len)
  {
    Memset(buf, 0, ShmSize);
    assert buf[..] == Encode(message[..0]) + Zeros(ShmSize);
    var i := 0;
    while i < len
      invariant 0 <= i <= len
      invariant buf[..] == Encode(message[..i]) + Zeros(ShmSize - 5 * i)
    {
      EncryptChunk(buf, message, i);
      i := i + 1;
    }
  }

  /** The static arrays `encrypted_mem` and `decrypted_mem`. */
  class CipherBuffers {
    const encryptedMem: array<Byte>
    const decryptedMem: array<Byte>

    ghost predicate Valid()
      reads this, encryptedMem
    {
      encryptedMem.Length == ShmSize && decryptedMem.Length == ShmSize
      && encryptedMem != decryptedMem && 0 in encryptedMem[..]
    }

    /** Both arrays zero-initialised, as static storage is. */
    constructor ()
      ensures Valid() && fresh(encryptedMem) && fresh(decryptedMem)
      ensures encryptedMem[..] == Zeros(ShmSize) && decryptedMem[..] == Zeros(ShmSize)
    {
      encryptedMem := new Byte[ShmSize](_ => 0);
      decryptedMem := new Byte[ShmSize](_ => 0);
      new;
      assert encryptedMem[..][0] == 0;
    }

    /**
     * `encrypt_shared_memory()` over the buffer sharedMem and the flag
     * dataWritten of the fixed driver.
     */
    method EncryptSharedMemory(sharedMem: array?<Byte>, dataWritten: int) returns (ret: int)
      requires Valid()
      requires sharedMem != null ==> sharedMem.Length == ShmSize && sharedMem != encryptedMem
      modifies encryptedMem
      ensures Valid()
      ensures sharedMem == null || dataWritten == 0 ==> ret == -EINVAL && encryptedMem[..] == old(encryptedMem[..])
      ensures sharedMem != null && dataWritten != 0 ==> ret == 0 && encryptedMem[..] == EncryptedImage(sharedMem[..])
    {
      if sharedMem == null || dataWritten == 0 {
        return -EINVAL;
      }
      var message := StrncpyMessage(sharedMem[..]);
      var len := Min(Strnlen(message, MessageCap + 1), MaxMessageLength);
      assert len == MessageLength(sharedMem[..]);
      assert message[..len] == sharedMem[..len];
      EncryptInto(encryptedMem, message, len);
      assert encryptedMem[..][5 * len] == 0;
      ret := 0;
    }

    /** `decrypt_shared_memory()`. */
    method DecryptSharedMemory() returns (ret: int)
      requires Valid()
      modifies decryptedMem
      ensures Valid()
      ensures Strlen(encryptedMem[..]) == 0 ==> ret == -EINVAL && decryptedMem[..] == old(decryptedMem[..])
      ensures Strlen(encryptedMem[..]) > 0 ==> ret == 0 && decryptedMem[..] == DecryptedImage(encryptedMem[..])
    {
      ghost var enc := encryptedMem[..];
      var total := Strlen(encryptedMem[..]);
      if total == 0 {
        return -EINVAL;
      }
      var d := ModInverse(RsaE, RsaPhi);
      KeyInverse(d);
      Memset(decryptedMem, 0, ShmSize);
      var len := total / 5;
      var i := 0;
      while i < len
        invariant 0 <= i <= len
        invariant encryptedMem[..] == enc
        invariant forall j :: 0 <= j < i ==> decryptedMem[j] == DecryptChunk(enc[5 * j..5 * j + 5])
        invariant forall j :: i <= j < ShmSize ==> decryptedMem[j] == 0
      {
        var temp := encryptedMem[5 * i..5 * i + 5] + [0];
        assert temp == enc[5 * i..5 * i + 5] + [0];
        var encVal := StrToL(temp);
        var m := ModExp(encVal, d, RsaN);
        decryptedMem[i] := CharOf(m);
        i := i + 1;
      }
      DecryptedImageOf(decryptedMem[..], enc);
      assert decryptedMem[..] == DecryptedImage(encryptedMem[..]);
      ret := 0;
    }
  }

  /**
   * Encrypting a stored message and decrypting it again leaves the message,
   * followed by zero bytes, in `decrypted_mem`.
   */
  method EncryptThenDecrypt(sharedMem: array<Byte>) returns (decrypted: seq<Byte>)
    requires sharedMem.Length == ShmSize
    ensures var n := MessageLength(sharedMem[..]);
            decrypted == sharedMem[..n] + Zeros(ShmSize - n)
  {
    var mem := sharedMem[..];
    var n := MessageLength(mem);
    RoundTrip(mem);
    var buffers := new CipherBuffers();
    var r1 := buffers.EncryptSharedMemory(sharedMem, 1);
    assert buffers.encryptedMem[..] == EncryptedImage(mem);
    var r2 := buffers.DecryptSharedMemory();
    if n == 0 {
      assert buffers.decryptedMem[..] == Zeros(ShmSize);
    } else {
      assert buffers.decryptedMem[..] == DecryptedImage(EncryptedImage(mem));
    }
    decrypted := buffers.decryptedMem[..];
  }
}
