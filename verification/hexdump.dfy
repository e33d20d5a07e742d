/** The hex dump used for logging packets (app/utils/log.cpp).

    `ToHex` `sprintf`s "%02X " for each input character into a buffer of 3n+1 chars and
    returns the buffer read as a C string. The `char` is passed to `sprintf` as is;
    where `char` is signed, a byte at or above 0x80 is sign-extended and prints as
    eight hex digits, overrunning the buffer. `PrintedAsWritten` models that; `ToHex`
    prints the byte's unsigned value, as the buffer size intends. */
module HexDump {
  import opened Bytes

  /** The upper-case hex digit of a value below 16. */
  function HexDigit(v: nat): (c: char)
    requires v < 16
    ensures c != 0 as char
  {
    if v < 10 then ('0' as int + v) as char else ('A' as int + v - 10) as char
  }

  const Nul: char := 0 as char

  /** What "%02X " prints for one byte: two upper-case hex digits and a space. */
  function HexTriple(b: byte): (s: string)
    ensures |s| == 3 && s[2] == ' '
  {
    var v := b as int;
    [HexDigit(v / 16), HexDigit(v % 16), ' ']
  }

  function Pow16(k: nat): (r: nat)
    ensures r > 0
  {
    if k == 0 then 1 else 16 * Pow16(k - 1)
  }

  /** `%0wX`: the upper-case hex digits of `v`, zero-padded to at least `w` digits. */
  function HexDigits(v: nat, w: nat): (r: string)
    ensures |r| >= 1 && |r| >= w
    decreases v + w
  {
    if v < 16 && w <= 1 then [HexDigit(v)]
    else HexDigits(v / 16, if w > 0 then w - 1 else 0) + [HexDigit(v % 16)]
  }

  /** A value of exactly `k` hex digits prints as `k` characters under any padding up to `k`. */
  lemma {:induction false} HexDigitsLength(v: nat, w: nat, k: nat)
    requires 1 <= k && w <= k
    requires Pow16(k - 1) <= v < Pow16(k)
    ensures |HexDigits(v, w)| == k
  {
    if k > 1 {
      assert Pow16(k) == 16 * Pow16(k - 1);
      assert Pow16(k - 1) == 16 * Pow16(k - 2);
      assert Pow16(k - 2) <= v / 16 < Pow16(k - 1);
      HexDigitsLength(v / 16, if w > 0 then w - 1 else 0, k - 1);
    }
  }

  /** The value "%02X" formats for a `char` argument where `char` is signed: the byte
      is sign-extended to `int` and read back as a 32-bit `unsigned`. */
  function SignExtended(b: byte): (v: nat)
    ensures v < 0x1_0000_0000 && v % 256 == b as nat
    ensures v < 256 <==> b < 0x80
  {
    if b < 0x80 then b as nat else 0xFFFF_FF00 + b as nat
  }

  /** What `sprintf(&buffer[3 * j], "%02X ", in[j])` prints where `char` is signed
      (the terminating NUL not included). */
  function PrintedAsWritten(b: byte): (r: string)
    ensures |r| >= 3 && r[|r| - 1] == ' '
  {
    HexDigits(SignExtended(b), 2) + " "
  }

  /** A byte below 0x80 prints as its triple; any other byte prints as nine characters. */
  lemma PrintedAsWrittenWidth(b: byte)
    ensures b < 0x80 ==> PrintedAsWritten(b) == HexTriple(b)
    ensures b >= 0x80 ==> |PrintedAsWritten(b)| == 9
  {
    if b >= 0x80 {
      assert Pow16(8) == 0x1_0000_0000;
      assert Pow16(7) == 0x1000_0000;
      HexDigitsLength(SignExtended(b), 2, 8);
    } else {
      var v := b as nat;
      assert HexDigits(v, 2) == HexDigits(v / 16, 1) + [HexDigit(v % 16)];
    }
  }

  /** As written: when the last byte of the input is at or above 0x80, its `sprintf`
      writes nine characters and a NUL from offset 3(n-1), past the end of the
      3n+1-character buffer. */
  lemma HighLastByteOverrunsBuffer(data: seq<byte>)
    requires |data| > 0 && data[|data| - 1] >= 0x80
    ensures 3 * (|data| - 1) + |PrintedAsWritten(data[|data| - 1])| + 1 > 3 * |data| + 1
  {
    PrintedAsWrittenWidth(data[|data| - 1]);
  }

  /** The dump of a byte string: each byte's triple, in order. */
  function HexOf(data: seq<byte>): (s: string)
    ensures |s| == 3 * |data|
  {
    if |data| == 0 then [] else HexTriple(data[0]) + HexOf(data[1..])
  }

  lemma {:induction false} HexOfAppend(a: seq<byte>, b: seq<byte>)
    ensures HexOf(a + b) == HexOf(a) + HexOf(b)
  {
    if |a| == 0 {
      assert a + b == b;
    } else {
      assert (a + b)[0] == a[0];
      assert (a + b)[1..] == a[1..] + b;
      HexOfAppend(a[1..], b);
    }
  }

  /** Characters 3j and 3j+1 are byte j's hex digits, character 3j+2 a space. */
  lemma {:induction false} HexOfLayout(data: seq<byte>, j: int)
    requires 0 <= j < |data|
    ensures HexOf(data)[3 * j..3 * j + 3] == HexTriple(data[j])
  {
    if j > 0 {
      HexOfLayout(data[1..], j - 1);
      assert HexOf(data) == HexTriple(data[0]) + HexOf(data[1..]);
    }
  }

  /** The dump has no NUL character, so reading it back as a C string loses nothing. */
  lemma {:induction false} HexOfHasNoNul(data: seq<byte>)
    ensures Nul !in HexOf(data)
  {
    if |data| > 0 {
      HexOfHasNoNul(data[1..]);
      var t := HexTriple(data[0]);
      assert Nul !in t;
    }
  }

  /** A character array read as a C string: everything before the first NUL. */
  function CharsBeforeNul(buf: seq<char>): (s: string)
    ensures s <= buf && Nul !in s
    ensures |s| < |buf| ==> buf[|s|] == Nul
  {
    if |buf| == 0 || buf[0] == Nul then [] else [buf[0]] + CharsBeforeNul(buf[1..])
  }

  lemma {:induction false} CharsBeforeNulOfTerminated(s: string, rest: seq<char>)
    requires Nul !in s
    ensures CharsBeforeNul(s + [Nul] + rest) == s
  {
    if |s| > 0 {
      assert (s + [Nul] + rest)[1..] == s[1..] + [Nul] + rest;
      CharsBeforeNulOfTerminated(s[1..], rest);
    }
  }

  /** `ToHex(std::string in)`. The buffer's initial contents are never read: the
      terminator at 3n is written first and every other cell is written by `sprintf`
      before the buffer is read. */
  method ToHex(data: seq<byte>) returns (r: string)
    ensures |r| == 3 * |data|
    ensures r == HexOf(data)
  {
    var n := |data|;
    var buffer: seq<char> := seq(3 * n + 1, _ => '?');
    buffer := buffer[3 * n := Nul];
    var j := 0;
    while j < n
      invariant 0 <= j <= n
      invariant |buffer| == 3 * n + 1
      invariant buffer[..3 * j] == HexOf(data[..j])
      invariant buffer[3 * n] == Nul
    {
      // The intended `%02X ` write: byte j's two digits, a space and a terminator.
      var printed := HexTriple(data[j]) + [Nul];
      buffer := buffer[..3 * j] + printed + buffer[3 * j + 4..];
      HexOfAppend(data[..j], [data[j]]);
      assert data[..j + 1] == data[..j] + [data[j]];
      assert buffer[..3 * (j + 1)] == HexOf(data[..j]) + HexTriple(data[j]);
      j := j + 1;
    }
    assert data[..n] == data;
    HexOfHasNoNul(data);
    assert buffer == HexOf(data) + [Nul] + [];
    CharsBeforeNulOfTerminated(HexOf(data), []);
    r := CharsBeforeNul(buffer);
  }

  /** `ToHex(char* in, int size)`: the first `size` characters, embedded NULs included,
      dumped as above. */
  method ToHexSized(data: seq<byte>, size: int) returns (r: string)
    requires 0 <= size <= |data|
    ensures |r| == 3 * size
    ensures r == HexOf(data[..size])
    ensures forall j :: 0 <= j < size ==> r[3 * j..3 * j + 3] == HexTriple(data[j])
  {
    r := ToHex(data[..size]);
    forall j | 0 <= j < size
      ensures r[3 * j..3 * j + 3] == HexTriple(data[j])
    {
      HexOfLayout(data[..size], j);
    }
  }

  /** The value of an upper-case hex digit. */
  function DigitValue(c: char): (v: nat)
    ensures v < 16
  {
    if '0' <= c <= '9' then (c as int - '0' as int)
    else if 'A' <= c <= 'F' then (c as int - 'A' as int + 10)
    else 0
  }

  /** Reads a dump back into bytes, three characters per byte. */
  function ParseHex(s: string): seq<byte>
    decreases |s|
  {
    if |s| < 3 then []
    else [PairValue(s[0], s[1]) as byte] + ParseHex(s[3..])
  }

  function PairValue(hi: char, lo: char): (v: nat)
    ensures v < 256
  {
    DigitValue(hi) * 16 + DigitValue(lo)
  }

  lemma DigitsRoundTrip(b: byte)
    ensures PairValue(HexTriple(b)[0], HexTriple(b)[1]) as byte == b
  {
    var v := b as int;
    assert DigitValue(HexDigit(v / 16)) == v / 16;
    assert DigitValue(HexDigit(v % 16)) == v % 16;
    assert PairValue(HexTriple(b)[0], HexTriple(b)[1]) == v;
  }

  /** The dump is lossless: parsing it gives back the bytes. */
  lemma {:induction false} ParseHexOfHexOf(data: seq<byte>)
    ensures ParseHex(HexOf(data)) == data
  {
    if |data| > 0 {
      var s := HexOf(data);
      assert s[3..] == HexOf(data[1..]);
      DigitsRoundTrip(data[0]);
      ParseHexOfHexOf(data[1..]);
    }
  }
}
