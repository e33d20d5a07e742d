/** Fixed-width machine words as byte sequences.

    The modelled code copies C scalars into buffers with `memcpy` and reinterprets
    them through a union, so the byte order of the machine decides the wire format.
    This model fixes that order as little-endian (the order of every Android ABI). */
module Bytes {

  /** An `unsigned char`. */
  type byte = x: int | 0 <= x < 256

  /** An 8-byte field whose bits are carried but never interpreted (a `double`). */
  type Bytes8 = s: seq<byte> | |s| == 8 witness [0, 0, 0, 0, 0, 0, 0, 0]

  function Pow256(n: nat): (r: nat)
    ensures r > 0
  {
    if n == 0 then 1 else 256 * Pow256(n - 1)
  }

  /** The `width` little-endian bytes of the unsigned value `n`. */
  function ToLE(n: nat, width: nat): (r: seq<byte>)
    requires n < Pow256(width)
    ensures |r| == width
    ensures width > 0 ==> r[0] == n % 256
  {
    if width == 0 then []
    else [(n % 256) as byte] + ToLE(n / 256, width - 1)
  }

  /** The unsigned value of little-endian bytes. */
  function FromLE(s: seq<byte>): (n: nat)
    ensures n < Pow256(|s|)
    ensures |s| > 0 ==> n % 256 == s[0]
  {
    if |s| == 0 then 0
    else
      var rest := FromLE(s[1..]);
      assert rest <= Pow256(|s| - 1) - 1;
      s[0] as nat + 256 * rest
  }

  lemma {:induction false} FromLEOfToLE(n: nat, width: nat)
    requires n < Pow256(width)
    ensures FromLE(ToLE(n, width)) == n
  {
    if width > 0 {
      var r := ToLE(n, width);
      assert r[1..] == ToLE(n / 256, width - 1);
      FromLEOfToLE(n / 256, width - 1);
      assert r[0] as nat == n % 256;
    }
  }

  lemma {:induction false} ToLEOfFromLE(s: seq<byte>)
    ensures ToLE(FromLE(s), |s|) == s
  {
    if |s| > 0 {
      var n := FromLE(s);
      var b := s[0] as nat;
      assert b < 256;
      DivModOfDigit(b, FromLE(s[1..]));
      ToLEOfFromLE(s[1..]);
      var r := ToLE(n, |s|);
      assert r[0] == s[0];
      assert r[1..] == s[1..];
    }
  }

  /** `x` fits a two's-complement integer of `width` bytes. */
  predicate InSignedRange(x: int, width: nat) {
    -(Pow256(width) as int) <= 2 * x < Pow256(width)
  }

  lemma DivModOfDigit(b: nat, rest: nat)
    requires b < 256
    ensures (b + 256 * rest) % 256 == b && (b + 256 * rest) / 256 == rest
  {
  }

  /** Two's-complement reading of little-endian bytes, as a signed C integer type reads them. */
  function ToSigned(s: seq<byte>): (x: int)
    ensures InSignedRange(x, |s|)
  {
    var u := FromLE(s);
    if 2 * u >= Pow256(|s|) then u - Pow256(|s|) else u
  }

  /** Two's-complement little-endian bytes of a signed value. */
  function SignedToLE(x: int, width: nat): (r: seq<byte>)
    requires InSignedRange(x, width)
    ensures |r| == width
  {
    ToLE(if x < 0 then x + Pow256(width) else x, width)
  }

  lemma SignedRoundTrip(x: int, width: nat)
    requires InSignedRange(x, width)
    ensures ToSigned(SignedToLE(x, width)) == x
  {
    FromLEOfToLE(if x < 0 then x + Pow256(width) else x, width);
  }

  lemma SignedBytesRoundTrip(s: seq<byte>)
    ensures SignedToLE(ToSigned(s), |s|) == s
  {
    ToLEOfFromLE(s);
  }
}
