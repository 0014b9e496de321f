/** C integer, character and string semantics that the drivers and the cipher rely on. */
module CTypes {

  datatype Option<T> = None | Some(value: T)

  /** One byte of a C `char` buffer, as its unsigned bit pattern. */
  type Byte = b: int | 0 <= b < 0x100

  /** `size_t` and `unsigned long` on a 64-bit kernel. */
  const SizeMax: int := 0xFFFF_FFFF_FFFF_FFFF
  type SizeT = x: int | 0 <= x <= SizeMax

  /** C `int`. */
  type Int32 = x: int | -0x8000_0000 <= x < 0x8000_0000

  /** C `unsigned int`. */
  type UInt32 = x: int | 0 <= x < 0x1_0000_0000

  /**
   * The conversion `(int)x` of a `size_t`: the low 32 bits, read as a two's
   * complement number.
   */
  function IntOfSize(x: nat): (v: Int32)
    ensures 0 <= x < 0x8000_0000 ==> v == x
    ensures (v - x) % 0x1_0000_0000 == 0
  {
    var low := x % 0x1_0000_0000;
    if low < 0x8000_0000 then low else low - 0x1_0000_0000
  }

  /** The errno values the core returns negated (asm-generic/errno-base.h). */
  const EINTR: int := 4
  const EFAULT: int := 14
  const EINVAL: int := 22

  /** The kernel's `min` macro. */
  function Min(a: int, b: int): (m: int)
    ensures m <= a && m <= b
    ensures m == a || m == b
  {
    if a <= b then a else b
  }

  /** n zero bytes, as `memset(p, 0, n)` leaves them. */
  function Zeros(n: nat): (z: seq<Byte>)
    ensures |z| == n
    ensures forall i :: 0 <= i < n ==> z[i] == 0
  {
    seq(n, _ => 0)
  }

  /**
   * C's `%`: division truncates toward zero, so a non-zero remainder takes the
   * sign of the dividend (Dafny's own `%` is Euclidean and never negative).
   */
  function CRem(a: int, m: int): (r: int)
    requires m > 0
    ensures -m < r < m
    ensures a >= 0 ==> r == a % m
    ensures a <= 0 ==> r <= 0
  {
    if a >= 0 then a % m else -((-a) % m)
  }

  /**
   * The value `(long long)c` of a `char` c. The kernel is built with
   * `-funsigned-char`, so the conversion zero-extends: no byte reads as negative.
   */
  function CharValue(b: Byte): (v: int)
    ensures 0 <= v < 0x100
    ensures v % 0x100 == b
  {
    b
  }

  /** The conversion `(char)v`: only the low eight bits survive. */
  function CharOf(v: int): (b: Byte)
    ensures (v - b) % 256 == 0
  {
    v % 256
  }

  /**
   * `strnlen(s, max)`: the number of bytes before the first zero byte among the
   * first `max` bytes of s, or `max` when none of them is zero.
   */
  function Strnlen(s: seq<Byte>, max: nat): (n: nat)
    requires max <= |s|
    ensures n <= max
    ensures forall i :: 0 <= i < n ==> s[i] != 0
    ensures n < max ==> s[n] == 0
  {
    if max == 0 || s[0] == 0 then 0 else 1 + Strnlen(s[1..], max - 1)
  }

  /**
   * Strnlen is the only count n <= max that has no zero byte before it and
   * stops at a zero byte or at max.
   */
  lemma StrnlenUnique(s: seq<Byte>, max: nat, n: nat)
    requires max <= |s| && n <= max
    requires forall i :: 0 <= i < n ==> s[i] != 0
    requires n == max || s[n] == 0
    ensures Strnlen(s, max) == n
  {
    var k := Strnlen(s, max);
    assert k < max ==> s[k] == 0;
  }

  /** `strlen(s)` for a buffer that holds a terminating zero byte. */
  function Strlen(s: seq<Byte>): (n: nat)
    requires 0 in s
    ensures n < |s| && s[n] == 0
    ensures forall i :: 0 <= i < n ==> s[i] != 0
  {
    Strnlen(s, |s|)
  }
}
