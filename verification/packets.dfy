/** The profiler's wire packets (profiler/communications/packets.h and packets.cpp).

    The source's class chain Packet -> PacketHandshake, Packet -> PacketProfileScopeIn
    -> PacketProfileScopeOut becomes one closed sum type. `GetSize` and `ToBuffer`
    become `Size` and `Encode`; `ToBuffer` writes fields at fixed offsets, so `Encode`
    builds the same byte string. Times and elapsed values are C `double`s that the
    code copies without arithmetic, so they are carried as opaque 8-byte values. */
module Packets {
  import opened Bytes
  import opened Wrappers

  const GenericId: byte := 0x00
  const HandshakeId: byte := 0x01
  const ScopeInId: byte := 0x10
  const ScopeOutId: byte := 0x11

  /** `sizeof(unsigned char) + sizeof(double)`: the kind byte and the time. */
  const BaseSize: nat := 1 + 8
  /** Capacity of the `m_Scope` buffer of a scope-enter packet. */
  const NameCapacity: nat := 255

  /** The `int` type of the handshake magic halves. */
  type Int32 = x: int | -0x8000_0000 <= x < 0x8000_0000

  /** A stored scope name: the bytes of `m_Scope` that its length byte `m_Size` covers. */
  type ScopeName = s: seq<byte> | |s| <= NameCapacity

  /** IEEE 754 +0.0, the elapsed value of a freshly built scope-exit packet. */
  const ZeroDouble: Bytes8 := [0, 0, 0, 0, 0, 0, 0, 0]

  datatype Packet =
    | Generic(kind: byte, time: Bytes8)
    | Handshake(time: Bytes8, magic0: Int32, magic1: Int32)
    | ScopeIn(kind: byte, time: Bytes8, name: ScopeName)
    | ScopeOut(time: Bytes8, name: ScopeName, nanoseconds: Bytes8)

  /** The `m_Type` byte, which the class's constructor fixes. */
  function Kind(p: Packet): (k: byte)
    ensures p.Handshake? ==> k == HandshakeId
    ensures p.ScopeOut? ==> k == ScopeOutId
    ensures p.Generic? || p.ScopeIn? ==> k == p.kind
  {
    match p
    case Generic(k, _) => k
    case Handshake(_, _, _) => HandshakeId
    case ScopeIn(k, _, _) => k
    case ScopeOut(_, _, _) => ScopeOutId
  }

  /** `GetSize`: each class adds its own fields to its base's size. */
  function Size(p: Packet): (n: nat)
    ensures n >= BaseSize
    ensures p.Generic? ==> n == 9
    ensures p.Handshake? ==> n == 17
    ensures p.ScopeIn? ==> n == 10 + |p.name|
    ensures p.ScopeOut? ==> n == 18 + |p.name|
    decreases if p.ScopeOut? then 1 else 0
  {
    match p
    case Generic(_, _) => BaseSize
    case Handshake(_, _, _) => BaseSize + 4 + 4
    case ScopeIn(_, _, name) => BaseSize + 1 + |name|
    case ScopeOut(t, name, _) => Size(ScopeIn(ScopeOutId, t, name)) + 8
  }

  /** `Packet::ToBuffer`: the kind at byte 0, the time at bytes 1..8. */
  function EncodeBase(kind: byte, time: Bytes8): (r: seq<byte>)
    ensures |r| == BaseSize && r[0] == kind && r[1..] == time
  {
    [kind] + time
  }

  /** `ToBuffer` of each class: the base's bytes, then the class's own fields. */
  function Encode(p: Packet): (r: seq<byte>)
    ensures |r| == Size(p)
    ensures r[0] == Kind(p) && r[1..BaseSize] == p.time
    decreases if p.ScopeOut? then 1 else 0
  {
    match p
    case Generic(k, t) => EncodeBase(k, t)
    case Handshake(t, m0, m1) =>
      EncodeBase(HandshakeId, t) + SignedToLE(m0, 4) + SignedToLE(m1, 4)
    case ScopeIn(k, t, name) => EncodeBase(k, t) + [|name| as byte] + name
    case ScopeOut(t, name, ns) => Encode(ScopeIn(ScopeOutId, t, name)) + ns
  }

  /** Reads four bytes as an `int`, as the union in packets.cpp does. */
  function Int32Of(b: seq<byte>): (x: Int32)
    requires |b| == 4
    ensures SignedToLE(x, 4) == b
  {
    SignedBytesRoundTrip(b);
    ToSigned(b)
  }

  /** `PacketHandshake(time, long long magic)`: `longToInts` reinterprets the eight
      bytes of `magic` as two `int`s, the first holding the low four bytes. */
  function HandshakeFromMagic(time: Bytes8, magic: int): (p: Packet)
    requires InSignedRange(magic, 8)
    ensures p.Handshake? && p.time == time
    ensures SignedToLE(p.magic0, 4) + SignedToLE(p.magic1, 4) == SignedToLE(magic, 8)
  {
    var b := SignedToLE(magic, 8);
    assert b == b[..4] + b[4..];
    Handshake(time, Int32Of(b[..4]), Int32Of(b[4..]))
  }

  /** `PacketHandshake(time, m0, ..., m7)`: `charsToInts` lays the eight characters out
      in argument order and reads them back as two `int`s. */
  function HandshakeFromChars(time: Bytes8, chars: seq<byte>): (p: Packet)
    requires |chars| == 8
    ensures p.Handshake? && p.time == time
    ensures SignedToLE(p.magic0, 4) + SignedToLE(p.magic1, 4) == chars
  {
    assert chars == chars[..4] + chars[4..];
    Handshake(time, Int32Of(chars[..4]), Int32Of(chars[4..]))
  }

  /** `PacketProfileScopeIn(id, time, scope)`: `m_Size` is `scope.size()` narrowed to
      `unsigned char`, and `memcpy` copies exactly `m_Size` bytes of the name. */
  function MakeScopeIn(id: byte, time: Bytes8, scope: seq<byte>): (p: Packet)
    ensures p.ScopeIn? && p.kind == id && p.time == time
    ensures |p.name| == |scope| % 256 && p.name <= scope
    ensures |scope| <= NameCapacity ==> p.name == scope
  {
    ScopeIn(id, time, scope[..|scope| % 256])
  }

  /** `PacketProfileScopeOut(time, scope, elapsed)`: the scope-enter fields are built by
      the base constructor with kind 0x11; the elapsed value follows. */
  function MakeScopeOut(time: Bytes8, scope: seq<byte>, elapsed: Bytes8): (p: Packet)
    ensures p.ScopeOut? && p.time == time && p.nanoseconds == elapsed
    ensures |p.name| == |scope| % 256 && p.name <= scope
    ensures |scope| <= NameCapacity ==> p.name == scope
  {
    var base := MakeScopeIn(ScopeOutId, time, scope);
    ScopeOut(time, base.name, elapsed)
  }

  /** `Packet::SetTime`, inherited by every class. */
  function SetTime(p: Packet, time: Bytes8): (q: Packet)
    ensures Kind(q) == Kind(p) && q.time == time
  {
    match p
    case Generic(k, _) => Generic(k, time)
    case Handshake(_, m0, m1) => Handshake(time, m0, m1)
    case ScopeIn(k, _, name) => ScopeIn(k, time, name)
    case ScopeOut(_, name, ns) => ScopeOut(time, name, ns)
  }

  /** `PacketProfileScopeOut::SetNanoseconds`. */
  function SetNanoseconds(p: Packet, elapsed: Bytes8): (q: Packet)
    requires p.ScopeOut?
    ensures q.ScopeOut? && q.nanoseconds == elapsed
  {
    p.(nanoseconds := elapsed)
  }

  /** Packets a decoder keyed on the kind byte can tell apart: a scope-enter packet
      built with a handshake's or a scope-exit's kind would be read as one of those. */
  predicate WellKinded(p: Packet) {
    p.ScopeIn? ==> p.kind != HandshakeId && p.kind != ScopeOutId
  }

  /** A reader for the wire format. The modelled code only writes packets; this
      decoder is the inverse `Encode` is checked against. Only the exact encoding
      of a packet is accepted. */
  function Decode(b: seq<byte>): (r: Option<Packet>)
  {
    if |b| == BaseSize then Some(Generic(b[0], b[1..]))
    else if |b| < BaseSize + 1 then None
    else if b[0] == HandshakeId then
      if |b| == BaseSize + 8 then
        Some(Handshake(b[1..BaseSize], Int32Of(b[BaseSize..BaseSize + 4]), Int32Of(b[BaseSize + 4..])))
      else None
    else
      var len := b[BaseSize] as nat;
      if b[0] == ScopeOutId then
        if |b| == BaseSize + 1 + len + 8 then
          Some(ScopeOut(b[1..BaseSize], b[BaseSize + 1..BaseSize + 1 + len], b[BaseSize + 1 + len..]))
        else None
      else if |b| == BaseSize + 1 + len then
        Some(ScopeIn(b[0], b[1..BaseSize], b[BaseSize + 1..]))
      else None
  }

  /** Every packet the profiler can build is recovered from its encoding. */
  lemma DecodeEncode(p: Packet)
    requires WellKinded(p)
    ensures Decode(Encode(p)) == Some(p)
  {
    var b := Encode(p);
    match p
    case Generic(k, t) =>
    case Handshake(t, m0, m1) =>
      assert b[BaseSize..BaseSize + 4] == SignedToLE(m0, 4);
      assert b[BaseSize + 4..] == SignedToLE(m1, 4);
      SignedRoundTrip(m0, 4);
      SignedRoundTrip(m1, 4);
    case ScopeIn(k, t, name) =>
      assert b[BaseSize + 1..] == name;
    case ScopeOut(t, name, ns) =>
      ScopeOutIsBasePlusFields(t, name, ns);
      var fields := [|name| as byte] + name + ns;
      assert b[BaseSize..] == fields;
      assert fields[1..1 + |name|] == name;
      assert b[BaseSize + 1..BaseSize + 1 + |name|] == name;
      assert b[BaseSize + 1 + |name|..] == ns;
  }

  /** The decoder accepts nothing but encodings: whatever it returns encodes back to
      exactly the bytes it read. */
  lemma EncodeDecode(b: seq<byte>, p: Packet)
    requires Decode(b) == Some(p)
    ensures WellKinded(p) && Encode(p) == b
  {
    if |b| == BaseSize {
      assert b == [b[0]] + b[1..];
    } else if b[0] == HandshakeId {
      HandshakeDecodeEncode(b);
    } else if b[0] == ScopeOutId {
      ScopeOutDecodeEncode(b);
      assert b[BaseSize + 1..BaseSize + 1 + b[BaseSize] as nat] == b[BaseSize + 1..|b| - 8];
    } else {
      ScopeInDecodeEncode(b);
    }
  }

  lemma HandshakeDecodeEncode(b: seq<byte>)
    requires |b| == BaseSize + 8 && b[0] == HandshakeId
    ensures Decode(b).Some? && Encode(Decode(b).value) == b
  {
    assert b == [b[0]] + b[1..BaseSize] + b[BaseSize..BaseSize + 4] + b[BaseSize + 4..];
  }

  lemma ScopeOutDecodeEncode(b: seq<byte>)
    requires |b| > BaseSize && b[0] == ScopeOutId
    requires |b| == BaseSize + 1 + b[BaseSize] as nat + 8
    ensures Encode(ScopeOut(b[1..BaseSize], b[BaseSize + 1..|b| - 8], b[|b| - 8..])) == b
  {
    var front := b[..|b| - 8];
    ScopeInDecodeEncode(front);
    assert front[1..BaseSize] == b[1..BaseSize] && front[BaseSize + 1..] == b[BaseSize + 1..|b| - 8];
    assert b == front + b[|b| - 8..];
  }

  lemma ScopeInDecodeEncode(b: seq<byte>)
    requires |b| > BaseSize
    requires |b| == BaseSize + 1 + b[BaseSize] as nat
    ensures Encode(ScopeIn(b[0], b[1..BaseSize], b[BaseSize + 1..])) == b
  {
    assert b == [b[0]] + b[1..BaseSize] + [b[BaseSize]] + b[BaseSize + 1..];
  }

  /** The four kind discriminants are pairwise distinct. */
  lemma KindIdsDistinct()
    ensures |{GenericId, HandshakeId, ScopeInId, ScopeOutId}| == 4
  {
  }

  /** Handshake layout: 17 bytes, magic0 at bytes 9..12, magic1 at bytes 13..16. */
  lemma HandshakeLayout(time: Bytes8, m0: Int32, m1: Int32)
    ensures var r := Encode(Handshake(time, m0, m1));
      && |r| == 17 && r[0] == HandshakeId && r[1..9] == time
      && r[9..13] == SignedToLE(m0, 4) && r[13..17] == SignedToLE(m1, 4)
  {
  }

  /** Scope-enter layout: byte 9 holds the name length L, bytes 10..10+L-1 the name. */
  lemma ScopeInLayout(kind: byte, time: Bytes8, name: ScopeName)
    ensures var r := Encode(ScopeIn(kind, time, name));
      && |r| == 10 + |name| && r[0] == kind && r[1..9] == time
      && r[9] as nat == |name| && r[10..] == name
  {
  }

  /** Scope-exit layout: a scope-enter encoding with kind 0x11, then 8 elapsed bytes. */
  lemma ScopeOutLayout(time: Bytes8, name: ScopeName, elapsed: Bytes8)
    ensures var r := Encode(ScopeOut(time, name, elapsed));
      && |r| == Size(ScopeIn(ScopeInId, time, name)) + 8
      && r[..10 + |name|] == Encode(ScopeIn(ScopeOutId, time, name))
      && r[10 + |name|..] == elapsed
  {
  }

  /** Both handshake constructors put the magic on the wire unchanged: the bytes of
      the `long long`, or the eight characters in argument order. */
  lemma HandshakeMagicOnWire(time: Bytes8, magic: int, chars: seq<byte>)
    requires InSignedRange(magic, 8) && |chars| == 8
    ensures Encode(HandshakeFromMagic(time, magic))[9..17] == SignedToLE(magic, 8)
    ensures Encode(HandshakeFromChars(time, chars))[9..17] == chars
  {
    var p := HandshakeFromMagic(time, magic);
    HandshakeLayout(time, p.magic0, p.magic1);
    var q := HandshakeFromChars(time, chars);
    HandshakeLayout(time, q.magic0, q.magic1);
  }

  /** The bytes a class appends after the base packet's kind and time. */
  function OwnFields(p: Packet): seq<byte> {
    match p
    case Generic(_, _) => []
    case Handshake(_, m0, m1) => SignedToLE(m0, 4) + SignedToLE(m1, 4)
    case ScopeIn(_, _, name) => [|name| as byte] + name
    case ScopeOut(_, name, ns) => [|name| as byte] + name + ns
  }

  lemma EncodeIsBasePlusFields(p: Packet)
    ensures Encode(p) == EncodeBase(Kind(p), p.time) + OwnFields(p)
  {
    match p
    case Generic(_, _) =>
    case Handshake(_, _, _) =>
    case ScopeIn(_, _, _) =>
    case ScopeOut(t, name, ns) => ScopeOutIsBasePlusFields(t, name, ns);
  }

  lemma ScopeOutIsBasePlusFields(t: Bytes8, name: ScopeName, ns: Bytes8)
    ensures Encode(ScopeOut(t, name, ns)) == EncodeBase(ScopeOutId, t) + ([|name| as byte] + name + ns)
  {
    var base, fields := EncodeBase(ScopeOutId, t), [|name| as byte] + name;
    assert Encode(ScopeIn(ScopeOutId, t, name)) == base + fields;
    assert (base + fields) + ns == base + (fields + ns);
  }

  /** `SetTime` changes bytes 1..8 of the encoding and nothing else. */
  lemma SetTimeOnlyTouchesTime(p: Packet, time: Bytes8)
    ensures var before, after := Encode(p), Encode(SetTime(p, time));
      && |after| == |before| && after[0] == before[0]
      && after[1..9] == time && after[9..] == before[9..]
  {
    var q := SetTime(p, time);
    EncodeIsBasePlusFields(p);
    EncodeIsBasePlusFields(q);
    assert OwnFields(q) == OwnFields(p);
  }

  /** `SetNanoseconds` changes the last 8 bytes of a scope-exit encoding and nothing else. */
  lemma SetNanosecondsOnlyTouchesTail(p: Packet, elapsed: Bytes8)
    requires p.ScopeOut?
    ensures var before, after := Encode(p), Encode(SetNanoseconds(p, elapsed));
      && |after| == |before| && |after| >= 8
      && after[..|after| - 8] == before[..|before| - 8]
      && after[|after| - 8..] == elapsed
  {
    var before, after := Encode(p), Encode(SetNanoseconds(p, elapsed));
    var front := Encode(ScopeIn(ScopeOutId, p.time, p.name));
    assert before[..|before| - 8] == front;
    assert after[..|after| - 8] == front;
  }
}
