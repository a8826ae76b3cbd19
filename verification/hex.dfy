/** The text form of a digest: `BigInteger(1, digest).toString(16)`, i.e. the
    digest read as an unsigned big-endian integer and printed in lower-case
    base 16 without leading zeros. */
module Hex {
  import opened Common

  function Pow(b: nat, e: nat): nat
  {
    if e == 0 then 1 else b * Pow(b, e - 1)
  }

  /** `BigInteger(1, bytes)`: the bytes as an unsigned big-endian number. */
  function Unsigned(bytes: seq<byte>): nat
  {
    if bytes == [] then 0 else Unsigned(bytes[..|bytes| - 1]) * 256 + bytes[|bytes| - 1] as nat
  }

  /** A base-16 digit as `BigInteger.toString(16)` writes it. */
  function HexDigit(d: nat): char
    requires d < 16
  {
    "0123456789abcdef"[d]
  }

  /** `BigInteger.toString(16)` of a non-negative value. */
  function ToHex(n: nat): string
  {
    if n < 16 then [HexDigit(n)] else ToHex(n / 16) + [HexDigit(n % 16)]
  }

  predicate IsLowerHexDigit(c: char)
  {
    '0' <= c <= '9' || 'a' <= c <= 'f'
  }

  function DigitValue(c: char): (v: nat)
    requires IsLowerHexDigit(c)
    ensures v < 16 && HexDigit(v) == c
  {
    if c <= '9' then (c - '0') as nat else (c - 'a') as nat + 10
  }

  /** Reads a string of lower-case base-16 digits back as a number. */
  function HexValue(s: string): nat
    requires forall i :: 0 <= i < |s| ==> IsLowerHexDigit(s[i])
  {
    if s == [] then 0 else HexValue(s[..|s| - 1]) * 16 + DigitValue(s[|s| - 1])
  }

  /** The text stored as the `sha256` metadata value for a digest. */
  function DigestHex(digest: seq<byte>): string
  {
    ToHex(Unsigned(digest))
  }

  /** Every character of the text is a lower-case base-16 digit, and the
      text has no leading zero unless it is the single digit "0" of the
      value zero. */
  lemma {:induction false} ToHexShape(n: nat)
    ensures |ToHex(n)| >= 1
    ensures forall i :: 0 <= i < |ToHex(n)| ==> IsLowerHexDigit(ToHex(n)[i])
    ensures ToHex(n)[0] == '0' <==> n == 0
    ensures n == 0 ==> ToHex(n) == "0"
  {
    if n >= 16 {
      ToHexShape(n / 16);
      assert ToHex(n)[0] == ToHex(n / 16)[0];
    }
  }

  /** Reading the text back gives the number: the conversion loses nothing. */
  lemma {:induction false} ToHexRoundTrip(n: nat)
    ensures forall i :: 0 <= i < |ToHex(n)| ==> IsLowerHexDigit(ToHex(n)[i])
    ensures HexValue(ToHex(n)) == n
  {
    ToHexShape(n);
    var s := ToHex(n);
    DigitRoundTrip(n % 16);
    if n >= 16 {
      ToHexRoundTrip(n / 16);
      assert s[..|s| - 1] == ToHex(n / 16);
      assert s[|s| - 1] == HexDigit(n % 16);
      assert HexValue(s) == HexValue(ToHex(n / 16)) * 16 + n % 16;
    } else {
      assert s[..|s| - 1] == [];
    }
  }

  lemma DigitRoundTrip(d: nat)
    requires d < 16
    ensures DigitValue(HexDigit(d)) == d
  {
    var c := HexDigit(d);
    assert c == "0123456789abcdef"[d];
  }

  lemma ToHexInjective(m: nat, n: nat)
    ensures ToHex(m) == ToHex(n) <==> m == n
  {
    ToHexRoundTrip(m);
    ToHexRoundTrip(n);
  }

  /** A number below 16^k takes at most k digits. */
  lemma {:induction false} ToHexLength(n: nat, k: nat)
    requires k >= 1 && n < Pow(16, k)
    ensures |ToHex(n)| <= k
  {
    if n >= 16 {
      assert k >= 2;
      assert n / 16 < Pow(16, k - 1);
      ToHexLength(n / 16, k - 1);
    }
  }

  lemma {:induction false} UnsignedBound(bytes: seq<byte>)
    ensures Unsigned(bytes) < Pow(256, |bytes|)
  {
    if bytes != [] {
      var init := bytes[..|bytes| - 1];
      UnsignedBound(init);
      assert Unsigned(init) + 1 <= Pow(256, |init|);
      assert Unsigned(bytes) < (Unsigned(init) + 1) * 256;
    }
  }

  /** Two byte strings of the same length with the same unsigned value are
      the same bytes. */
  lemma {:induction false} UnsignedInjective(a: seq<byte>, b: seq<byte>)
    requires |a| == |b| && Unsigned(a) == Unsigned(b)
    ensures a == b
  {
    if a != [] {
      var n := |a| - 1;
      assert Unsigned(a) % 256 == a[n] as nat && Unsigned(a) / 256 == Unsigned(a[..n]);
      assert Unsigned(b) % 256 == b[n] as nat && Unsigned(b) / 256 == Unsigned(b[..n]);
      UnsignedInjective(a[..n], b[..n]);
      assert a == a[..n] + [a[n]] && b == b[..n] + [b[n]];
    }
  }

  lemma {:induction false} PowSquare(k: nat)
    ensures Pow(256, k) == Pow(16, 2 * k)
  {
    if k > 0 {
      PowSquare(k - 1);
      assert Pow(16, 2 * k) == 16 * (16 * Pow(16, 2 * (k - 1)));
    }
  }

  /** On digests of one length the text comparison is digest comparison. */
  lemma DigestHexInjective(d1: seq<byte>, d2: seq<byte>)
    requires |d1| == |d2|
    ensures DigestHex(d1) == DigestHex(d2) <==> d1 == d2
  {
    ToHexInjective(Unsigned(d1), Unsigned(d2));
    if Unsigned(d1) == Unsigned(d2) {
      UnsignedInjective(d1, d2);
    }
  }

  /** The text of a SHA-256 digest has 1 to 64 lower-case digits, without a
      leading zero unless the digest is all zero bytes. */
  lemma DigestHexShape(digest: seq<byte>)
    requires |digest| == 32
    ensures 1 <= |DigestHex(digest)| <= 64
    ensures forall i :: 0 <= i < |DigestHex(digest)| ==> IsLowerHexDigit(DigestHex(digest)[i])
    ensures DigestHex(digest)[0] == '0' <==> digest == seq(32, _ => 0 as byte)
  {
    var n := Unsigned(digest);
    UnsignedBound(digest);
    PowSquare(32);
    ToHexLength(n, 64);
    ToHexShape(n);
    var zero := seq(32, _ => 0 as byte);
    ZeroUnsigned(32);
    if n == 0 {
      UnsignedInjective(digest, zero);
    }
  }

  lemma {:induction false} ZeroUnsigned(k: nat)
    ensures Unsigned(seq(k, _ => 0 as byte)) == 0
  {
    if k > 0 {
      ZeroUnsigned(k - 1);
      assert seq(k, _ => 0 as byte)[..k - 1] == seq(k - 1, _ => 0 as byte);
    }
  }
}
