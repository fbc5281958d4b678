/** Bytes, ASCII text and the C string conventions the programs share. */
module Bytes {

  newtype byte = x: int | 0 <= x < 0x100
  newtype uint32 = x: int | 0 <= x < 0x1_0000_0000

  /** A 32-bit counter that wraps. */
  function Bump(n: uint32): uint32 { if n == 0xFFFF_FFFF then 0 else n + 1 }

  const NUL: byte := 0
  const NEWLINE: byte := 10

  function Ascii(s: string): (b: seq<byte>)
    ensures |b| == |s|
  {
    seq(|s|, i requires 0 <= i < |s| => (s[i] as int % 0x100) as byte)
  }

  lemma Assoc<T>(a: seq<T>, b: seq<T>, c: seq<T>)
    ensures (a + b) + c == a + (b + c)
  {
  }

  /** The place of the first b, or the length if there is none. */
  function FirstAt(s: seq<byte>, b: byte): (n: nat)
    ensures n <= |s|
  {
    if s == [] || s[0] == b then 0 else 1 + FirstAt(s[1..], b)
  }

  lemma {:induction false} FirstAtFound(s: seq<byte>, b: byte)
    ensures b in s <==> FirstAt(s, b) < |s|
    ensures FirstAt(s, b) < |s| ==> s[FirstAt(s, b)] == b
    ensures b !in s[..FirstAt(s, b)]
  {
    if s != [] && s[0] != b {
      FirstAtFound(s[1..], b);
      assert s[..FirstAt(s, b)] == [s[0]] + s[1..][..FirstAt(s[1..], b)];
    }
  }

  lemma {:induction false} FirstAtUnique(s: seq<byte>, b: byte, n: nat)
    requires n <= |s| && b !in s[..n] && (n < |s| ==> s[n] == b)
    ensures FirstAt(s, b) == n
    decreases |s|
  {
    if n > 0 {
      assert s[0] == s[..n][0];
      assert s[1..][..n - 1] == s[..n][1..];
      FirstAtUnique(s[1..], b, n - 1);
    }
  }

  /** The C string that starts a buffer: everything before its first NUL. */
  function UpToNul(s: seq<byte>): (t: seq<byte>)
    ensures t <= s && NUL !in t
    ensures |t| < |s| ==> s[|t|] == NUL
  {
    FirstAtFound(s, NUL);
    s[..FirstAt(s, NUL)]
  }

  lemma UpToNulUnique(s: seq<byte>, n: nat)
    requires n <= |s| && NUL !in s[..n] && (n < |s| ==> s[n] == NUL)
    ensures UpToNul(s) == s[..n]
  {
    FirstAtUnique(s, NUL, n);
  }

  lemma UpToNulShort(s: seq<byte>)
    requires NUL in s
    ensures |UpToNul(s)| < |s|
  {
    assert s[..|s|] == s;
    assert UpToNul(s) == s[..|UpToNul(s)|];
  }

  /** What snprintf leaves, as a C string, in a buffer of `size` bytes. */
  function Truncated(text: seq<byte>, size: nat): (t: seq<byte>)
    requires size > 0
    ensures |text| < size ==> t == text
  {
    if |text| < size then text else text[..size - 1]
  }

  /** A buffer after a string is written at its start. */
  function Stored(buf: seq<byte>, text: seq<byte>): (after: seq<byte>)
    requires |text| < |buf|
    ensures |after| == |buf|
  {
    text + [NUL] + buf[|text| + 1..]
  }

  // ---------- unsigned decimal, as %u and %ld print numbers >= 0 ----------

  function Digit(d: nat): (b: byte)
    requires d < 10
    ensures b != NUL && b != NEWLINE
  {
    48 + d as byte
  }

  function Decimal(n: nat): (s: seq<byte>)
    ensures |s| > 0 && NUL !in s && NEWLINE !in s
  {
    if n < 10 then [Digit(n)] else Decimal(n / 10) + [Digit(n % 10)]
  }

  function Pow10(k: nat): (p: nat)
    ensures p > 0
  {
    if k == 0 then 1 else 10 * Pow10(k - 1)
  }

  /** The digits are those of the number: it starts with no zero unless it is zero, and
      its last digit is its remainder. */
  lemma {:induction false} DecimalDigits(n: nat)
    ensures forall i :: 0 <= i < |Decimal(n)| ==> 48 <= Decimal(n)[i] <= 57
    ensures Decimal(n)[0] == 48 ==> n == 0
  {
    if n >= 10 { DecimalDigits(n / 10); }
  }

  lemma DecimalIs()
    ensures Decimal(0) == Ascii("0") && Decimal(907) == Ascii("907") && Decimal(12345) == Ascii("12345")
  {
    assert Decimal(90) == Decimal(9) + [Digit(0)];
    assert Decimal(907) == Decimal(90) + [Digit(7)];
    assert Decimal(12) == Decimal(1) + [Digit(2)];
    assert Decimal(123) == Decimal(12) + [Digit(3)];
    assert Decimal(1234) == Decimal(123) + [Digit(4)];
    assert Decimal(12345) == Decimal(1234) + [Digit(5)];
  }

  /** A number below 10^k prints in at most k digits. */
  lemma {:induction false} DecimalLength(n: nat, k: nat)
    requires n < Pow10(k) && k > 0
    ensures |Decimal(n)| <= k
    decreases k
  {
    if n >= 10 {
      assert k > 1 by { assert Pow10(1) == 10; }
      DecimalLength(n / 10, k - 1);
    }
  }
}
