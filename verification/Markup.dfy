// UTF-8 and the markup codecs: xml and html encoding, and the one decoder both use.

module Markup {
  import opened Words
  import opened Buffers

  const AMP: Byte := 38
  const SEMI: Byte := 59
  const HASH: Byte := 35
  const LETTER_X: Byte := 120

  // ---------------------------------------------------------------- UTF-8

  predicate IsTrail(b: Byte) {
    128 <= b < 192
  }

  /** The payload of a byte whose marker bits are `mark`. */
  function Payload(b: Byte, mark: int): int {
    b - mark
  }

  /** Decodes one sequence off the front: its value and length. Overlong sequences are accepted. */
  function Utf8Decode(s: seq<Byte>): (r: Option<(nat, nat)>)
    requires s != []
    ensures r.Some? ==> 1 <= r.value.1 <= 4 && r.value.1 <= |s| && r.value.0 <= 0x1FFFFF
  {
    if s[0] < 128 then Some((s[0], 1))
    else if |s| < 2 || !IsTrail(s[1]) then None
    else if 192 <= s[0] < 224 then Some((Payload(s[0], 192) * 64 + Payload(s[1], 128), 2))
    else if |s| < 3 || !IsTrail(s[2]) then None
    else if 224 <= s[0] < 240 then Some((Payload(s[0], 224) * 4096 + Payload(s[1], 128) * 64 + Payload(s[2], 128), 3))
    else if |s| < 4 || !IsTrail(s[3]) then None
    else if 240 <= s[0] < 248 then
      Some((Payload(s[0], 240) * 262144 + Payload(s[1], 128) * 4096 + Payload(s[2], 128) * 64 + Payload(s[3], 128), 4))
    else None
  }

  /** Encodes a value into `room` bytes; empty when it does not fit or is too large. */
  function Utf8Encode(v: nat, room: nat): (r: seq<Byte>)
    ensures |r| <= room && |r| <= 4
  {
    if v <= 0x7F && room >= 1 then [v]
    else if v <= 0x7FF && room >= 2 then [192 + v / 64, 128 + v % 64]
    else if v <= 0xFFFF && room >= 3 then [224 + v / 4096, 128 + v / 64 % 64, 128 + v % 64]
    else if v <= 0x1FFFFF && room >= 4 then [240 + v / 262144, 128 + v / 4096 % 64, 128 + v / 64 % 64, 128 + v % 64]
    else []
  }

  /** The length of a value's shortest form. */
  function Utf8Len(v: nat): (n: nat) {
    if v <= 0x7F then 1 else if v <= 0x7FF then 2 else if v <= 0xFFFF then 3 else 4
  }

  /** The shortest form of a value. */
  function Utf8(v: nat): (r: seq<Byte>)
    requires v <= 0x1FFFFF
    ensures |r| == Utf8Len(v)
  {
    Utf8Encode(v, 4)
  }

  lemma RoomIsEnough(v: nat, room: nat)
    requires v <= 0x1FFFFF && room >= Utf8Len(v)
    ensures Utf8Encode(v, room) == Utf8(v)
  {
  }

  /** A value is made of its six-bit digits. */
  lemma SixBitDigits(v: nat)
    ensures v == v / 64 * 64 + v % 64
    ensures v == v / 4096 * 4096 + v / 64 % 64 * 64 + v % 64
    ensures v == v / 262144 * 262144 + v / 4096 % 64 * 4096 + v / 64 % 64 * 64 + v % 64
  {
    assert v / 64 / 64 == v / 4096 && v / 4096 / 64 == v / 262144;
  }

  /** Decoding inverts encoding, whatever follows. */
  lemma DecodeInvertsEncode(v: nat, rest: seq<Byte>)
    requires v <= 0x1FFFFF
    ensures Utf8Decode(Utf8(v) + rest) == Some((v, Utf8Len(v)))
  {
    SixBitDigits(v);
    var u, s := Utf8(v), Utf8(v) + rest;
    assert s[0] == u[0];
    assert v > 0x7F ==> s[1] == u[1] && IsTrail(s[1]);
    assert v > 0x7FF ==> s[2] == u[2] && IsTrail(s[2]);
    assert v > 0xFFFF ==> s[3] == u[3] && IsTrail(s[3]);
  }

  /** The sequence at the front is the shortest form of its value. */
  predicate ShortestFront(s: seq<Byte>)
    requires s != []
  {
    Utf8Decode(s).Some? && Utf8Decode(s).value.1 == Utf8Len(Utf8Decode(s).value.0)
  }

  /** Encoding inverts decoding exactly on shortest forms. */
  lemma EncodeInvertsDecode(s: seq<Byte>)
    requires s != [] && Utf8Decode(s).Some?
    ensures
      var (v, n) := Utf8Decode(s).value;
      if n == Utf8Len(v) then Utf8(v) == s[..n] else Utf8(v)[0] != s[0]
  {
    var (v, n) := Utf8Decode(s).value;
    if n == 2 {
      Encode2(Payload(s[0], 192), Payload(s[1], 128));
    } else if n == 3 {
      Encode3(Payload(s[0], 224), Payload(s[1], 128), Payload(s[2], 128));
    } else if n == 4 {
      Encode4(Payload(s[0], 240), Payload(s[1], 128), Payload(s[2], 128), Payload(s[3], 128));
    }
  }

  lemma Encode2(h: nat, t1: nat)
    requires h < 32 && t1 < 64
    ensures var v := h * 64 + t1; v <= 0x7FF && if v > 0x7F then Utf8(v) == [192 + h, 128 + t1] else Utf8(v)[0] < 128
  {
    SixBitParts(h, t1);
  }

  lemma Encode3(h: nat, t1: nat, t2: nat)
    requires h < 16 && t1 < 64 && t2 < 64
    ensures
      var v := h * 4096 + t1 * 64 + t2;
      v <= 0xFFFF && if v > 0x7FF then Utf8(v) == [224 + h, 128 + t1, 128 + t2] else Utf8(v)[0] < 224
  {
    var v := h * 4096 + t1 * 64 + t2;
    SixBitParts(h * 64 + t1, t2);
    SixBitParts(h, t1);
    assert v / 4096 == v / 64 / 64 == h;
  }

  lemma Encode4(h: nat, t1: nat, t2: nat, t3: nat)
    requires h < 8 && t1 < 64 && t2 < 64 && t3 < 64
    ensures
      var v := h * 262144 + t1 * 4096 + t2 * 64 + t3;
      v <= 0x1FFFFF && if v > 0xFFFF then Utf8(v) == [240 + h, 128 + t1, 128 + t2, 128 + t3] else Utf8(v)[0] < 240
  {
    var v := h * 262144 + t1 * 4096 + t2 * 64 + t3;
    SixBitParts((h * 64 + t1) * 64 + t2, t3);
    SixBitParts(h * 64 + t1, t2);
    SixBitParts(h, t1);
    assert v / 4096 == v / 64 / 64 == h * 64 + t1;
    assert v / 262144 == v / 4096 / 64 == h;
  }

  lemma SixBitParts(high: nat, low: nat)
    requires low < 64
    ensures (high * 64 + low) / 64 == high && (high * 64 + low) % 64 == low
  {
  }

  // ---------------------------------------------------------------- decimal entities

  function Digits(v: nat): (r: seq<Byte>)
    ensures |r| >= 1
    ensures forall i :: 0 <= i < |r| ==> 48 <= r[i] <= 57
  {
    if v < 10 then [48 + v] else Digits(v / 10) + [48 + v % 10]
  }

  function DigitValue(b: Byte): (d: nat)
    ensures d <= 36
  {
    if 48 <= b <= 57 then b - 48
    else if 97 <= b <= 122 then b - 97 + 10
    else if 65 <= b <= 90 then b - 65 + 10
    else 36
  }

  /** The length of the run of digits at the front. */
  function DigitRun(s: seq<Byte>, base: nat): (n: nat)
    ensures n <= |s|
    ensures forall i :: 0 <= i < n ==> DigitValue(s[i]) < base
    ensures n < |s| ==> DigitValue(s[n]) >= base
  {
    if s == [] || DigitValue(s[0]) >= base then 0 else 1 + DigitRun(s[1..], base)
  }

  function NumberOf(s: seq<Byte>, base: nat): (v: nat) {
    if s == [] then 0 else NumberOf(s[..|s|-1], base) * base + DigitValue(s[|s|-1])
  }

  const ULONG_MAX: nat := 0xFFFF_FFFF_FFFF_FFFF

  predicate IsBlank(b: Byte) {
    b == 32 || 9 <= b <= 13
  }

  function Blanks(s: seq<Byte>): (n: nat)
    ensures n <= |s|
  {
    if s == [] || !IsBlank(s[0]) then 0 else 1 + Blanks(s[1..])
  }

  /** An optional 0x in base 16, when a digit follows it. */
  function HexPrefix(s: seq<Byte>, base: nat): (n: nat)
    ensures n <= |s|
  {
    if base == 16 && |s| >= 3 && s[0] == 48 && (s[1] == 120 || s[1] == 88) && DigitValue(s[2]) < 16 then 2 else 0
  }

  /**
   * The C library's strtoul, inside the source: blanks, a sign, digits; the value saturates, and a minus sign
   * negates it in 64 bits. Without digits nothing is consumed and the value is 0.
   */
  function ParseUnsigned(s: seq<Byte>, base: nat): (r: (nat, nat))
    ensures r.1 <= |s| && r.0 <= ULONG_MAX
  {
    var b := Blanks(s);
    var sign := SignLength(s[b..]);
    var start := b + sign + HexPrefix(s[b+sign..], base);
    var n := DigitRun(s[start..], base);
    if n == 0 then (0, 0)
    else (Wrapped(NumberOf(s[start..start+n], base), sign == 1 && s[b] == MINUS), start + n)
  }

  const MINUS: Byte := 45

  function SignLength(s: seq<Byte>): (n: nat)
    ensures n <= 1 && n <= |s|
  {
    if s != [] && (s[0] == 43 || s[0] == MINUS) then 1 else 0
  }

  /** A parsed number as an unsigned long. */
  function Wrapped(v: nat, negative: bool): (r: nat)
    ensures r <= ULONG_MAX
  {
    if v > ULONG_MAX then ULONG_MAX else if negative && v > 0 then ULONG_MAX + 1 - v else v
  }

  lemma {:induction false} NumberOfDigits(v: nat)
    ensures NumberOf(Digits(v), 10) == v
  {
    if v >= 10 {
      NumberOfDigits(v / 10);
      var r := Digits(v);
      assert r[..|r|-1] == Digits(v / 10);
    }
  }

  lemma {:induction false} DigitRunStops(ds: seq<Byte>, rest: seq<Byte>)
    requires forall i :: 0 <= i < |ds| ==> 48 <= ds[i] <= 57
    requires rest != [] && rest[0] == SEMI
    ensures DigitRun(ds + rest, 10) == |ds|
  {
    if ds != [] {
      assert (ds + rest)[1..] == ds[1..] + rest;
      DigitRunStops(ds[1..], rest);
    } else {
      assert ds + rest == rest;
    }
  }

  /** Parsing inverts printing: the printed value is read back up to the semicolon. */
  lemma ParsePrinted(v: nat, rest: seq<Byte>)
    requires v <= ULONG_MAX && rest != [] && rest[0] == SEMI
    ensures ParseUnsigned(Digits(v) + rest, 10) == (v, |Digits(v)|)
  {
    hide Digits, NumberOf, DigitRun, Blanks;
    var s := Digits(v) + rest;
    assert s[0] == Digits(v)[0];
    NoBlanks(s);
    DigitRunStops(Digits(v), rest);
    NumberOfDigits(v);
    assert s[0..0+|Digits(v)|] == Digits(v) && s[0..] == s;
  }

  lemma NoBlanks(s: seq<Byte>)
    requires s != [] && !IsBlank(s[0])
    ensures Blanks(s) == 0
  {
  }

  // ---------------------------------------------------------------- encoding

  datatype Format = Xml | Html

  const LT: seq<Byte> := [108, 116, 59]
  const GT: seq<Byte> := [103, 116, 59]
  const APOS: seq<Byte> := [97, 112, 111, 115, 59]
  const QUOT: seq<Byte> := [113, 117, 111, 116, 59]
  const AMPS: seq<Byte> := [97, 109, 112, 59]

  /** A numeric character reference. */
  function Entity(v: nat): seq<Byte> {
    [AMP, HASH] + Digits(v) + [SEMI]
  }

  /** What a single-byte character is written as. */
  function Escaped(f: Format, ch: Byte): (t: seq<Byte>)
    ensures |t| >= 1
  {
    if ch == 60 then [AMP] + LT
    else if ch == 62 then [AMP] + GT
    else if ch == 39 then (if f == Xml then [AMP] + APOS else Entity(39))
    else if ch == 34 then [AMP] + QUOT
    else if ch == 38 then [AMP] + AMPS
    else [ch]
  }

  /** The character at the front, as html sees it: a valid sequence, or else its first byte taken as a value. */
  function HtmlChar(s: seq<Byte>): (r: (nat, nat))
    requires s != []
    ensures r.0 <= 0x1FFFFF && 1 <= r.1 <= |s|
  {
    if Utf8Decode(s).Some? then Utf8Decode(s).value else (s[0] as nat, 1)
  }

  /** The output for the front of the source and the number of bytes it stands for. */
  function Front(f: Format, s: seq<Byte>): (r: (seq<Byte>, nat))
    requires s != []
    ensures |r.0| >= 1 && 1 <= r.1 <= |s|
  {
    if f == Xml || s[0] < 128 then (Escaped(f, s[0]), 1)
    else (Entity(HtmlChar(s).0), HtmlChar(s).1)
  }

  /** What the front's output means to the decoder. */
  function Meaning(f: Format, s: seq<Byte>): (r: seq<Byte>)
    requires s != []
    ensures 1 <= |r| <= 4
  {
    if f == Xml || s[0] < 128 then [s[0]] else Utf8(HtmlChar(s).0)
  }

  function Text(f: Format, src: seq<Byte>): seq<Byte>
    decreases |src|
  {
    if src == [] then [] else Front(f, src).0 + Text(f, src[Front(f, src).1..])
  }

  function Plain(f: Format, src: seq<Byte>): seq<Byte>
    decreases |src|
  {
    if src == [] then [] else Meaning(f, src) + Plain(f, src[Front(f, src).1..])
  }

  /** The encoding into a buffer of `room` bytes, one of which is for the terminator. */
  function Encoded(f: Format, src: seq<Byte>, room: nat): (r: seq<Byte>)
    ensures |r| < room || r == []
    decreases |src|
  {
    if src == [] || room <= 1 || |Front(f, src).0| >= room then []
    else Front(f, src).0 + Encoded(f, src[Front(f, src).1..], room - |Front(f, src).0|)
  }

  function Fitting(f: Format, src: seq<Byte>, room: nat): (n: nat)
    ensures n <= |src|
    decreases |src|
  {
    if src == [] || room <= 1 || |Front(f, src).0| >= room then 0
    else Front(f, src).1 + Fitting(f, src[Front(f, src).1..], room - |Front(f, src).0|)
  }

  /** A cut behind the front does not change what the front is. */
  lemma FrontOfPrefix(f: Format, src: seq<Byte>, n: nat)
    requires src != [] && Front(f, src).1 <= n <= |src|
    ensures Front(f, src[..n]) == Front(f, src)
  {
    var s := src[..n];
    assert forall i :: 0 <= i < n ==> s[i] == src[i];
  }

  /** Truncation keeps whole characters, and stops only when the next one's output does not fit. */
  lemma {:induction false} EncodedIsTextPrefix(f: Format, src: seq<Byte>, room: nat)
    ensures
      var n := Fitting(f, src, room);
      && Encoded(f, src, room) == Text(f, src[..n])
      && (n < |src| ==> room <= 1 || |Text(f, src[..n])| + |Front(f, src[n..]).0| >= room || |Text(f, src[..n])| + 1 >= room)
    decreases |src|
  {
    hide Front;
    if src == [] || room <= 1 || |Front(f, src).0| >= room {
      assert src[..0] == [] && src[0..] == src;
    } else {
      var (t, k) := Front(f, src);
      EncodedIsTextPrefix(f, src[k..], room - |t|);
      var n := k + Fitting(f, src[k..], room - |t|);
      FrontOfPrefix(f, src, n);
      assert src[..n][k..] == src[k..][..n-k];
      assert src[k..][n-k..] == src[n..];
    }
  }

  // ---------------------------------------------------------------- decoding

  datatype Read = Stop | Out(bytes: seq<Byte>, n: nat)

  predicate HasAt(s: seq<Byte>, i: nat, literal: seq<Byte>) {
    i + |literal| <= |s| && s[i..i+|literal|] == literal
  }

  /** Reads one character off the front, with `room` bytes left in the buffer. */
  function ReadFront(s: seq<Byte>, room: nat): (r: Read)
    requires s != []
    ensures r.Out? ==> 1 <= |r.bytes| <= r.n <= |s| && (|r.bytes| <= room || |r.bytes| == 1)
  {
    if s[0] != AMP then Out([s[0]], 1)
    else if HasAt(s, 1, LT) then Out([60], 4)
    else if HasAt(s, 1, GT) then Out([62], 4)
    else if HasAt(s, 1, APOS) then Out([39], 6)
    else if HasAt(s, 1, QUOT) then Out([34], 6)
    else if HasAt(s, 1, AMPS) then Out([38], 5)
    else if |s| > 1 && s[1] == HASH then ReadEntity(s, room)
    else Stop
  }

  function ReadEntity(s: seq<Byte>, room: nat): (r: Read)
    requires |s| > 1
    ensures r.Out? ==> 1 <= |r.bytes| <= r.n <= |s| && |r.bytes| <= room
  {
    var hex := |s| > 2 && s[2] == LETTER_X;
    var from := if hex then 3 else 2;
    var (v, c) := ParseUnsigned(s[from..], if hex then 16 else 10);
    var end := from + c;
    if end < |s| && s[end] == SEMI then
      var bytes := Utf8Encode(v, room);
      if bytes == [] then Stop else Out(bytes, end + 1)
    else Stop
  }

  /** The decoding into a buffer of `room` bytes. */
  function Decoded(src: seq<Byte>, room: nat): (r: seq<Byte>)
    ensures |r| <= room && |r| <= |src|
    decreases |src|
  {
    if src == [] || room <= 1 || ReadFront(src, room).Stop? then []
    else
      var Out(bytes, n) := ReadFront(src, room);
      bytes + Decoded(src[n..], room - |bytes|)
  }

  /** The decoder reads the output for a character back as its meaning, whatever follows. */
  lemma ReadInvertsFront(f: Format, s: seq<Byte>, rest: seq<Byte>, room: nat)
    requires s != [] && room >= |Meaning(f, s)|
    ensures ReadFront(Front(f, s).0 + rest, room) == Out(Meaning(f, s), |Front(f, s).0|)
  {
    var t := Front(f, s).0;
    if f == Xml || s[0] < 128 {
      if s[0] == 39 && f == Html {
        EntityIsRead(39, rest, room);
      } else {
        EscapedIsRead(f, s[0], rest, room);
      }
    } else {
      EntityIsRead(HtmlChar(s).0, rest, room);
    }
  }

  lemma EscapedIsRead(f: Format, ch: Byte, rest: seq<Byte>, room: nat)
    requires f == Xml || ch != 39
    ensures ReadFront(Escaped(f, ch) + rest, room) == Out([ch], |Escaped(f, ch)|)
  {
    if ch == 60 {
      LiteralIsThere(LT, rest);
    } else if ch == 62 {
      LiteralIsThere(GT, rest);
    } else if ch == 39 {
      LiteralIsThere(APOS, rest);
    } else if ch == 34 {
      LiteralIsThere(QUOT, rest);
    } else if ch == 38 {
      LiteralIsThere(AMPS, rest);
    }
  }

  /** After an ampersand, a literal is found where it stands, and no other literal is. */
  lemma LiteralIsThere(literal: seq<Byte>, rest: seq<Byte>)
    requires |literal| >= 2
    ensures
      var s := [AMP] + literal + rest;
      && s[0] == AMP && HasAt(s, 1, literal)
      && forall other: seq<Byte> :: |other| >= 2 && (other[0] != literal[0] || other[1] != literal[1]) ==> !HasAt(s, 1, other)
  {
    var s := [AMP] + literal + rest;
    assert s[1..1+|literal|] == literal;
    assert s[1] == literal[0] && s[2] == literal[1];
    forall other: seq<Byte> | |other| >= 2 && HasAt(s, 1, other) ensures other[0] == literal[0] && other[1] == literal[1] {
      assert s[1..1+|other|][0] == s[1] && s[1..1+|other|][1] == s[2];
    }
  }

  lemma EntityIsRead(v: nat, rest: seq<Byte>, room: nat)
    requires v <= 0x1FFFFF && room >= Utf8Len(v)
    ensures ReadFront(Entity(v) + rest, room) == Out(Utf8(v), |Entity(v)|)
  {
    hide Digits, ParseUnsigned, Utf8Encode;
    var s, ds := Entity(v) + rest, Digits(v);
    var tail := [SEMI] + rest;
    EntityParts(ds, rest);
    ParsePrinted(v, tail);
    RoomIsEnough(v, room);
    NotALiteral(s);
    assert ReadFront(s, room) == ReadEntity(s, room);
  }

  lemma EntityParts(ds: seq<Byte>, rest: seq<Byte>)
    requires |ds| >= 1 && forall i :: 0 <= i < |ds| ==> 48 <= ds[i] <= 57
    ensures
      var s := [AMP, HASH] + ds + [SEMI] + rest;
      s[0] == AMP && s[1] == HASH && s[2] != LETTER_X && s[2..] == ds + ([SEMI] + rest) && s[2 + |ds|] == SEMI
  {
    var s := [AMP, HASH] + ds + [SEMI] + rest;
    assert s == [AMP, HASH] + (ds + ([SEMI] + rest));
    assert s[2] == ds[0];
  }

  lemma NotALiteral(s: seq<Byte>)
    requires |s| > 1 && s[1] == HASH
    ensures !HasAt(s, 1, LT) && !HasAt(s, 1, GT) && !HasAt(s, 1, APOS) && !HasAt(s, 1, QUOT) && !HasAt(s, 1, AMPS)
  {
    assert forall n: nat :: 1 < n <= |s| ==> s[1..n][0] == HASH;
  }

  /** How much of a source the decoder gives back when it reads the source's full encoding into `room` bytes. */
  function Reached(f: Format, src: seq<Byte>, room: nat): (n: nat)
    ensures n <= |src|
    decreases |src|
  {
    if src == [] || room <= 1 || |Meaning(f, src)| > room then 0
    else Front(f, src).1 + Reached(f, src[Front(f, src).1..], room - |Meaning(f, src)|)
  }

  lemma MeaningOfPrefix(f: Format, src: seq<Byte>, n: nat)
    requires src != [] && Front(f, src).1 <= n <= |src|
    ensures Meaning(f, src[..n]) == Meaning(f, src)
  {
    var s := src[..n];
    assert forall i :: 0 <= i < n ==> s[i] == src[i];
  }

  lemma PlainOfPrefix(f: Format, src: seq<Byte>, m: nat)
    requires src != [] && Front(f, src).1 <= m <= |src|
    ensures Plain(f, src[..m]) == Meaning(f, src) + Plain(f, src[Front(f, src).1..][..m-Front(f, src).1])
    ensures src[m..] == src[Front(f, src).1..][m-Front(f, src).1..]
  {
    hide Front, Meaning;
    var k := Front(f, src).1;
    FrontOfPrefix(f, src, m);
    MeaningOfPrefix(f, src, m);
    assert src[..m][k..] == src[k..][..m-k];
  }

  /** The decoder stops behind `m` source bytes: one byte is left, or the next character does not fit. */
  predicate StopsAt(f: Format, src: seq<Byte>, m: nat, room: nat)
    requires m <= |src|
  {
    var used := |Plain(f, src[..m])|;
    used <= room && (m < |src| ==> used + 1 >= room || used + |Meaning(f, src[m..])| > room)
  }

  lemma StopsAtStart(f: Format, src: seq<Byte>, room: nat)
    requires src == [] || room <= 1 || |Meaning(f, src)| > room
    ensures StopsAt(f, src, 0, room) && Plain(f, src[..0]) == []
  {
    assert src[..0] == [] && src[0..] == src;
  }

  lemma StopsAfterFront(f: Format, src: seq<Byte>, m: nat, room: nat)
    requires src != [] && Front(f, src).1 <= m <= |src| && |Meaning(f, src)| <= room
    requires StopsAt(f, src[Front(f, src).1..], m - Front(f, src).1, room - |Meaning(f, src)|)
    ensures StopsAt(f, src, m, room)
  {
    hide Front, Meaning, Plain;
    PlainOfPrefix(f, src, m);
  }

  /** The decoder's first turn on an encoding. */
  lemma DecodedFront(f: Format, src: seq<Byte>, room: nat)
    requires src != [] && room > 1
    ensures Decoded(Text(f, src), room)
         == if |Meaning(f, src)| > room then []
            else Meaning(f, src) + Decoded(Text(f, src[Front(f, src).1..]), room - |Meaning(f, src)|)
  {
    hide ReadFront, Front, Meaning;
    var (t, k) := Front(f, src);
    var rest := Text(f, src[k..]);
    ReadInvertsFront(f, src, rest, 4);
    ReadWithRoom(t + rest, room);
    assert (t + rest)[|t|..] == rest;
  }

  /** Decoding a full encoding gives its meaning, cut where the next character does not fit. */
  lemma {:induction false} DecodedText(f: Format, src: seq<Byte>, room: nat)
    ensures Decoded(Text(f, src), room) == Plain(f, src[..Reached(f, src, room)])
    ensures StopsAt(f, src, Reached(f, src, room), room)
    decreases |src|
  {
    hide Decoded, Front, Meaning, Plain, StopsAt;
    if src == [] || room <= 1 {
      StopsAtStart(f, src, room);
      NothingDecoded(Text(f, src), room);
    } else {
      DecodedFront(f, src, room);
      if |Meaning(f, src)| > room {
        StopsAtStart(f, src, room);
      } else {
        var k, left := Front(f, src).1, room - |Meaning(f, src)|;
        DecodedText(f, src[k..], left);
        PlainOfPrefix(f, src, Reached(f, src, room));
        StopsAfterFront(f, src, Reached(f, src, room), room);
      }
    }
  }

  lemma NothingDecoded(s: seq<Byte>, room: nat)
    requires s == [] || room <= 1
    ensures Decoded(s, room) == []
  {
  }

  // ---------------------------------------------------------------- round trips

  lemma {:induction false} XmlReaches(src: seq<Byte>, room: nat)
    requires room >= 1
    ensures Reached(Xml, src, room) == if |src| < room then |src| else room - 1
    decreases |src|
  {
    if src != [] && room > 1 {
      XmlReaches(src[1..], room - 1);
    }
  }

  lemma {:induction false} XmlIsPlain(src: seq<Byte>)
    ensures Plain(Xml, src) == src
  {
    if src != [] {
      XmlIsPlain(src[1..]);
      assert src == [src[0]] + src[1..];
    }
  }

  /**
   * What fits of an xml encoding decodes, as far as the decoder's buffer reaches, to a prefix of the source, and
   * to all of it when everything fits.
   */
  lemma XmlRoundTrip(src: seq<Byte>, room: nat, room': nat)
    requires room' >= 1
    ensures
      var n := Fitting(Xml, src, room);
      && Decoded(Encoded(Xml, src, room), room') == src[..if n < room' then n else room' - 1]
      && (|Text(Xml, src)| < room ==> n == |src|)
  {
    hide *;
    EncodedIsTextPrefix(Xml, src, room);
    var n := Fitting(Xml, src, room);
    DecodedText(Xml, src[..n], room');
    XmlReaches(src[..n], room');
    XmlIsPlain(src[..n][..Reached(Xml, src[..n], room')]);
    assert n >= room' ==> src[..n][..room'-1] == src[..room'-1];
    assert src[..n][..n] == src[..n];
    AllFits(Xml, src, room);
  }

  lemma {:induction false} AllFits(f: Format, src: seq<Byte>, room: nat)
    ensures |Text(f, src)| < room ==> Fitting(f, src, room) == |src|
    decreases |src|
  {
    if src != [] && |Text(f, src)| < room {
      AllFits(f, src[Front(f, src).1..], room - |Front(f, src).0|);
    }
  }

  /** The source is made of shortest-form sequences of values up to 0x1FFFFF. */
  predicate ShortestForm(src: seq<Byte>)
    decreases |src|
  {
    src == [] || (ShortestFront(src) && ShortestForm(src[Utf8Decode(src).value.1..]))
  }

  lemma FrontMeansItself(src: seq<Byte>)
    requires src != []
    ensures ShortestFront(src) ==> Meaning(Html, src) == src[..Front(Html, src).1]
    ensures !ShortestFront(src) ==>
              Meaning(Html, src)[0] != src[0]
              || (|Meaning(Html, src)| > 1 && (|src| > 1 ==> Meaning(Html, src)[1] != src[1]))
  {
    if Utf8Decode(src).Some? {
      EncodeInvertsDecode(src);
      assert src[0] < 128 ==> Utf8Decode(src).value == (src[0] as nat, 1);
    } else {
      var b: nat := src[0];
      SixBitDigits(b);
      assert Utf8(b) == [192 + b / 64, 128 + b % 64];
    }
  }

  /** Html output means its own source exactly when the source is in shortest form. */
  lemma {:induction false} HtmlIsPlain(src: seq<Byte>)
    ensures Plain(Html, src) == src <==> ShortestForm(src)
    decreases |src|
  {
    if src != [] {
      var k, m := Front(Html, src).1, Meaning(Html, src);
      var rest := Plain(Html, src[k..]);
      FrontMeansItself(src);
      HtmlIsPlain(src[k..]);
      if ShortestFront(src) {
        assert k == Utf8Decode(src).value.1;
        assert src == src[..k] + src[k..];
        assert (m + rest)[k..] == rest;
      } else {
        assert (m + rest)[0] == m[0];
        assert |m| > 1 ==> (m + rest)[1] == m[1];
      }
    }
  }

  /** `n` is the end of a character. */
  predicate IsCut(f: Format, src: seq<Byte>, n: nat)
    decreases |src|
  {
    n == 0 || (src != [] && Front(f, src).1 <= n && IsCut(f, src[Front(f, src).1..], n - Front(f, src).1))
  }

  lemma {:induction false} FittingIsCut(f: Format, src: seq<Byte>, room: nat)
    ensures IsCut(f, src, Fitting(f, src, room))
    decreases |src|
  {
    hide Front;
    if src != [] && room > 1 && |Front(f, src).0| < room {
      FittingIsCut(f, src[Front(f, src).1..], room - |Front(f, src).0|);
    }
  }

  lemma {:induction false} ReachedIsCut(f: Format, src: seq<Byte>, room: nat)
    ensures IsCut(f, src, Reached(f, src, room))
    decreases |src|
  {
    hide Front, Meaning;
    if src != [] && room > 1 && |Meaning(f, src)| <= room {
      ReachedIsCut(f, src[Front(f, src).1..], room - |Meaning(f, src)|);
    }
  }

  lemma ShortestFrontOfPrefix(src: seq<Byte>, n: nat)
    requires src != [] && ShortestFront(src) && Front(Html, src).1 <= n <= |src|
    ensures ShortestFront(src[..n]) && Utf8Decode(src[..n]) == Utf8Decode(src)
  {
    var s := src[..n];
    assert forall i :: 0 <= i < n ==> s[i] == src[i];
  }

  /** Cut between characters, a source in shortest form stays in shortest form. */
  lemma {:induction false} CutKeepsShortest(src: seq<Byte>, n: nat)
    requires IsCut(Html, src, n) && n <= |src| && ShortestForm(src)
    ensures ShortestForm(src[..n])
    decreases |src|
  {
    if n > 0 {
      var k := Front(Html, src).1;
      assert k == Utf8Decode(src).value.1;
      ShortestFrontOfPrefix(src, n);
      CutKeepsShortest(src[k..], n - k);
      assert src[..n][k..] == src[k..][..n-k];
    }
  }

  lemma {:induction false} AllReached(f: Format, src: seq<Byte>, room: nat)
    ensures |Plain(f, src)| < room ==> Reached(f, src, room) == |src|
    decreases |src|
  {
    if src != [] && |Plain(f, src)| < room {
      AllReached(f, src[Front(f, src).1..], room - |Meaning(f, src)|);
    }
  }

  /**
   * For any two buffers, html gives back the meaning of the leading characters that fit both, which are those
   * characters themselves exactly when they are in shortest form. A decoder's buffer of more than twice the
   * encoded part of the source holds all of that part.
   */
  lemma HtmlTruncatedRoundTrip(src: seq<Byte>, room: nat, room': nat)
    ensures
      var n := Fitting(Html, src, room);
      var m := Reached(Html, src[..n], room');
      && m <= n && StopsAt(Html, src[..n], m, room')
      && Decoded(Encoded(Html, src, room), room') == Plain(Html, src[..m])
      && (Decoded(Encoded(Html, src, room), room') == src[..m] <==> ShortestForm(src[..m]))
      && (ShortestForm(src) ==> ShortestForm(src[..m]))
      && (room > |Text(Html, src)| ==> n == |src|)
      && (room' > 2 * n ==> m == n)
  {
    hide *;
    var n := Fitting(Html, src, room);
    var m := Reached(Html, src[..n], room');
    EncodedIsTextPrefix(Html, src, room);
    DecodedText(Html, src[..n], room');
    assert src[..n][..m] == src[..m];
    HtmlIsPlain(src[..m]);
    FittingIsCut(Html, src, room);
    ReachedIsCut(Html, src[..n], room');
    if ShortestForm(src) {
      CutKeepsShortest(src, n);
      CutKeepsShortest(src[..n], m);
    }
    AllFits(Html, src, room);
    PlainIsBounded(src[..n]);
    AllReached(Html, src[..n], room');
  }

  /** With room enough, the html round trip returns the source exactly when it is in shortest form. */
  lemma HtmlRoundTrip(src: seq<Byte>, room: nat, room': nat)
    requires room > |Text(Html, src)| && room' > |Plain(Html, src)|
    ensures Decoded(Encoded(Html, src, room), room') == src <==> ShortestForm(src)
  {
    hide *;
    AllFits(Html, src, room);
    AllReached(Html, src, room');
    assert src[..|src|] == src;
    HtmlTruncatedRoundTrip(src, room, room');
  }

  lemma {:induction false} PlainIsBounded(src: seq<Byte>)
    ensures |Plain(Html, src)| <= 2 * |src|
    decreases |src|
  {
    if src != [] {
      PlainIsBounded(src[Front(Html, src).1..]);
      assert |Meaning(Html, src)| <= 2 * Front(Html, src).1;
    }
  }

  // ---------------------------------------------------------------- the predefined entities, as text

  /** The entity of a character that is not written as itself; empty for all others. */
  function EntityText(f: Format, ch: Byte): string {
    if ch as int as char == '<' then "&lt;"
    else if ch as int as char == '>' then "&gt;"
    else if ch as int as char == '"' then "&quot;"
    else if ch as int as char == '&' then "&amp;"
    else if ch as int as char == '\'' then (if f == Xml then "&apos;" else "&#39;")
    else ""
  }

  lemma EntityTextIsAscii(f: Format, ch: Byte)
    ensures forall i :: 0 <= i < |EntityText(f, ch)| ==> EntityText(f, ch)[i] as int < 128
  {
  }

  /** What is written for a single-byte character, whatever follows it: its entity, or the character itself. */
  lemma WrittenExactly(f: Format, ch: Byte, rest: seq<Byte>)
    requires ch < 128
    ensures forall i :: 0 <= i < |EntityText(f, ch)| ==> EntityText(f, ch)[i] as int < 128
    ensures Front(f, [ch] + rest) == (if EntityText(f, ch) == "" then [ch] else Ascii(EntityText(f, ch)), 1)
  {
    EntityTextIsAscii(f, ch);
    SpelledOut();
    HtmlApostrophe();
    hide Entity;
  }

  lemma HtmlApostrophe()
    ensures Entity(39) == Ascii("&#39;")
  {
    assert Digits(3) == [51] && Digits(39) == Digits(3) + [57];
    assert Ascii("&#39;") == [38, 35, 51, 57, 59];
  }

  /** Xml writes every other byte as it is; html writes a multi-byte character as its number in decimal. */
  lemma WideWrittenExactly(ch: Byte, v: nat, rest: seq<Byte>)
    requires 128 <= ch && 128 <= v <= 0x1FFFFF
    ensures Front(Xml, [ch] + rest) == ([ch], 1)
    ensures Front(Html, Utf8(v) + rest) == (Ascii("&#") + Digits(v) + Ascii(";"), |Utf8(v)|)
    ensures Utf8Decode([ch] + rest) == None ==>
              Front(Html, [ch] + rest) == (Ascii("&#") + Digits(ch) + Ascii(";"), 1)
  {
    DecodeInvertsEncode(v, rest);
    hide Digits, Utf8Decode;
    assert (Utf8(v) + rest)[0] == Utf8(v)[0] >= 128;
    assert Ascii("&#") == [AMP, HASH] && Ascii(";") == [SEMI];
  }

  /** One character alone, in any buffer that holds its text and the terminator. */
  lemma EncodedAlone(f: Format, ch: Byte, room: nat)
    requires ch < 128 && room > 6
    ensures forall i :: 0 <= i < |EntityText(f, ch)| ==> EntityText(f, ch)[i] as int < 128
    ensures Encoded(f, [ch], room) == if EntityText(f, ch) == "" then [ch] else Ascii(EntityText(f, ch))
  {
    WrittenExactly(f, ch, []);
    hide Front;
    assert [ch] + [] == [ch] && [ch][1..] == [];
    assert Front(f, [ch]).0 + [] == Front(f, [ch]).0;
  }

  /** The five predefined entities are read, whatever follows them and however small the room is. */
  lemma EntitiesAreRead(rest: seq<Byte>, room: nat)
    ensures ReadFront(Ascii("&lt;") + rest, room) == Out([60], 4)
    ensures ReadFront(Ascii("&gt;") + rest, room) == Out([62], 4)
    ensures ReadFront(Ascii("&quot;") + rest, room) == Out([34], 6)
    ensures ReadFront(Ascii("&amp;") + rest, room) == Out([38], 5)
    ensures ReadFront(Ascii("&apos;") + rest, room) == Out([39], 6)
  {
    SpelledOut();
    LiteralIsThere(LT, rest);
    LiteralIsThere(GT, rest);
    LiteralIsThere(QUOT, rest);
    LiteralIsThere(AMPS, rest);
    LiteralIsThere(APOS, rest);
    hide ReadEntity, HasAt;
  }

  lemma SpelledOut()
    ensures Ascii("&lt;") == [AMP] + LT && Ascii("&gt;") == [AMP] + GT && Ascii("&quot;") == [AMP] + QUOT
    ensures Ascii("&amp;") == [AMP] + AMPS && Ascii("&apos;") == [AMP] + APOS
  {
  }

  /** Any byte but an ampersand is read as itself; an ampersand that starts no entity stops the decoder. */
  lemma OthersAreKept(ch: Byte, rest: seq<Byte>, room: nat)
    ensures ch != 38 ==> ReadFront([ch] + rest, room) == Out([ch], 1)
    ensures (&& !(Ascii("lt;") <= rest) && !(Ascii("gt;") <= rest) && !(Ascii("quot;") <= rest)
             && !(Ascii("amp;") <= rest) && !(Ascii("apos;") <= rest) && !(Ascii("#") <= rest)) ==>
               ReadFront([38] + rest, room) == Stop
  {
    var s: seq<Byte> := [38] + rest;
    assert Ascii("lt;") == LT && Ascii("gt;") == GT && Ascii("quot;") == QUOT && Ascii("amp;") == AMPS && Ascii("apos;") == APOS;
    HasBehind(38, rest, LT);
    HasBehind(38, rest, GT);
    HasBehind(38, rest, QUOT);
    HasBehind(38, rest, AMPS);
    HasBehind(38, rest, APOS);
    hide ReadEntity, HasAt;
    assert |s| > 1 && s[1] == HASH ==> Ascii("#") <= rest;
  }

  lemma HasBehind(first: Byte, rest: seq<Byte>, literal: seq<Byte>)
    ensures HasAt([first] + rest, 1, literal) <==> literal <= rest
  {
    var s := [first] + rest;
    if 1 + |literal| <= |s| {
      assert s[1..1+|literal|] == rest[..|literal|];
    }
  }

  // ---------------------------------------------------------------- numeric entities, and what the number may look like

  predicate IsHexDigit(b: Byte, v: nat)
    requires v < 16
  {
    b as int == "0123456789abcdef"[v] as int || b as int == "0123456789ABCDEF"[v] as int
  }

  /** The value of `ds` in base 16, digit by digit in either case. */
  predicate IsHexNumber(ds: seq<Byte>, v: nat) {
    if ds == [] then v == 0 else IsHexDigit(ds[|ds|-1], v % 16) && IsHexNumber(ds[..|ds|-1], v / 16)
  }

  lemma HexDigitIsValued(b: Byte, v: nat)
    requires v < 16 && IsHexDigit(b, v)
    ensures DigitValue(b) == v
  {
  }

  /** Which bytes are digits: ten in base 10, and six letters of either case more in base 16. */
  lemma DigitsOfBases(b: Byte)
    ensures DigitValue(b) < 10 <==> '0' <= b as int as char <= '9'
    ensures DigitValue(b) < 16 <==> exists v :: 0 <= v < 16 && IsHexDigit(b, v)
    ensures forall v :: 0 <= v < 16 && IsHexDigit(b, v) ==> DigitValue(b) == v
  {
    assert DigitValue(b) < 10 <==> '0' <= b as int as char <= '9';
    if DigitValue(b) < 16 {
      ValuedIsHexDigit(b);
    }
    hide DigitValue, IsHexDigit;
    forall v | 0 <= v < 16 && IsHexDigit(b, v) ensures DigitValue(b) == v {
      HexDigitIsValued(b, v);
    }
  }

  lemma ValuedIsHexDigit(b: Byte)
    requires DigitValue(b) < 16
    ensures IsHexDigit(b, DigitValue(b))
  {
  }

  lemma {:induction false} HexNumberIsRead(ds: seq<Byte>, v: nat)
    requires IsHexNumber(ds, v)
    ensures NumberOf(ds, 16) == v && forall i :: 0 <= i < |ds| ==> DigitValue(ds[i]) < 16
  {
    hide IsHexDigit, DigitValue;
    if ds != [] {
      HexNumberIsRead(ds[..|ds|-1], v / 16);
      HexDigitIsValued(ds[|ds|-1], v % 16);
    }
  }

  lemma {:induction false} DigitRunOf(ds: seq<Byte>, rest: seq<Byte>, base: nat)
    requires forall i :: 0 <= i < |ds| ==> DigitValue(ds[i]) < base
    requires rest != [] ==> DigitValue(rest[0]) >= base
    ensures DigitRun(ds + rest, base) == |ds|
  {
    hide DigitValue;
    if ds != [] {
      assert (ds + rest)[0] == ds[0] && (ds + rest)[1..] == ds[1..] + rest;
      DigitRunOf(ds[1..], rest, base);
    } else {
      assert ds + rest == rest;
    }
  }

  predicate AllBlank(s: seq<Byte>) {
    forall i :: 0 <= i < |s| ==> s[i] as int in {9, 10, 11, 12, 13, 32}
  }

  lemma {:induction false} BlanksAreSkipped(blanks: seq<Byte>, t: seq<Byte>)
    requires AllBlank(blanks) && t != [] && (t[0] as int) !in {9, 10, 11, 12, 13, 32}
    ensures Blanks(blanks + t) == |blanks|
  {
    if blanks == [] {
      assert blanks + t == t;
    } else {
      assert (blanks + t)[0] == blanks[0] && (blanks + t)[1..] == blanks[1..] + t;
      BlanksAreSkipped(blanks[1..], t);
    }
  }

  /** What a sign and an overflow make of a number: it is negated modulo 2^64, and too large a one is 2^64 - 1. */
  function Unsigned(v: nat, negative: bool): nat {
    if v >= 0x1_0000_0000_0000_0000 then 0xFFFF_FFFF_FFFF_FFFF
    else if negative && v > 0 then 0x1_0000_0000_0000_0000 - v
    else v
  }

  predicate IsSign(sign: seq<Byte>) {
    sign == [] || sign == [43] || sign == [45]
  }

  predicate IsPrefix(prefix: seq<Byte>, base: nat) {
    prefix == [] || (base == 16 && (prefix == [48, 120] || prefix == [48, 88]))
  }

  function Numeral(blanks: seq<Byte>, sign: seq<Byte>, prefix: seq<Byte>, ds: seq<Byte>, rest: seq<Byte>): seq<Byte> {
    blanks + (sign + (prefix + (ds + rest)))
  }

  lemma NumeralParts(blanks: seq<Byte>, sign: seq<Byte>, prefix: seq<Byte>, ds: seq<Byte>, rest: seq<Byte>)
    ensures
      var s := Numeral(blanks, sign, prefix, ds, rest);
      var start := |blanks| + |sign| + |prefix|;
      && start + |ds| <= |s|
      && s[|blanks|..] == sign + (prefix + (ds + rest))
      && s[|blanks|+|sign|..] == prefix + (ds + rest)
      && s[start..] == ds + rest && s[start..start+|ds|] == ds
      && (sign != [] ==> s[|blanks|] == sign[0])
  {
    var s, t, number := Numeral(blanks, sign, prefix, ds, rest), sign + (prefix + (ds + rest)), prefix + (ds + rest);
    assert s[|blanks|..] == t;
    assert t[|sign|..] == number;
    assert number[|prefix|..] == ds + rest;
    assert (ds + rest)[..|ds|] == ds;
  }

  /** Blanks, a sign, and in base 16 a prefix "0x" are read in front of the digits, in this order. */
  lemma UnsignedIsRead(blanks: seq<Byte>, sign: seq<Byte>, prefix: seq<Byte>, ds: seq<Byte>, rest: seq<Byte>, base: nat, v: nat)
    requires AllBlank(blanks) && IsSign(sign) && IsPrefix(prefix, base) && base in {10, 16} && ds != []
    requires prefix == [] && base == 16 && |ds| == 1 ==> rest == [] || (rest[0] != 120 && rest[0] != 88)
    requires NumberOf(ds, base) == v && forall i :: 0 <= i < |ds| ==> DigitValue(ds[i]) < base
    requires rest != [] ==> DigitValue(rest[0]) >= base
    ensures ParseUnsigned(Numeral(blanks, sign, prefix, ds, rest), base) ==
            (Unsigned(v, sign == [45]), |blanks| + |sign| + |prefix| + |ds|)
  {
    hide *;
    NumeralValue(blanks, sign, prefix, ds, rest, base);
    SignDecides(sign);
    UnsignedIsWrapped(v);
  }

  lemma NumeralValue(blanks: seq<Byte>, sign: seq<Byte>, prefix: seq<Byte>, ds: seq<Byte>, rest: seq<Byte>, base: nat)
    requires AllBlank(blanks) && IsSign(sign) && IsPrefix(prefix, base) && base in {10, 16} && ds != []
    requires prefix == [] && base == 16 && |ds| == 1 ==> rest == [] || (rest[0] != 120 && rest[0] != 88)
    requires forall i :: 0 <= i < |ds| ==> DigitValue(ds[i]) < base
    requires rest != [] ==> DigitValue(rest[0]) >= base
    ensures ParseUnsigned(Numeral(blanks, sign, prefix, ds, rest), base) ==
            (Wrapped(NumberOf(ds, base), |sign| == 1 && sign[0] == 45), |blanks| + |sign| + |prefix| + |ds|)
  {
    hide *;
    NumeralParts(blanks, sign, prefix, ds, rest);
    NumeralFront(blanks, sign, prefix, ds, rest, base);
    NumeralDigits(blanks, sign, prefix, ds, rest, base);
    ParsedBy(Numeral(blanks, sign, prefix, ds, rest), base, |blanks|, |sign|, |prefix|, |ds|);
  }

  lemma NumeralFront(blanks: seq<Byte>, sign: seq<Byte>, prefix: seq<Byte>, ds: seq<Byte>, rest: seq<Byte>, base: nat)
    requires AllBlank(blanks) && IsSign(sign) && IsPrefix(prefix, base) && base in {10, 16} && ds != [] && DigitValue(ds[0]) < base
    ensures
      var s := Numeral(blanks, sign, prefix, ds, rest);
      && |blanks| + |sign| <= |s|
      && Blanks(s) == |blanks| && SignLength(s[|blanks|..]) == |sign|
  {
    hide AllBlank, IsSign, IsPrefix, DigitValue, Blanks, SignLength;
    FirstOfNumber(sign, prefix, ds, rest, base);
    BlanksAreSkipped(blanks, sign + (prefix + (ds + rest)));
    NumeralParts(blanks, sign, prefix, ds, rest);
  }

  lemma NumeralDigits(blanks: seq<Byte>, sign: seq<Byte>, prefix: seq<Byte>, ds: seq<Byte>, rest: seq<Byte>, base: nat)
    requires IsPrefix(prefix, base) && base in {10, 16} && ds != []
    requires forall i :: 0 <= i < |ds| ==> DigitValue(ds[i]) < base
    requires prefix == [] && base == 16 && |ds| == 1 ==> rest == [] || (rest[0] != 120 && rest[0] != 88)
    requires rest != [] ==> DigitValue(rest[0]) >= base
    ensures
      var s := Numeral(blanks, sign, prefix, ds, rest);
      && |blanks| + |sign| + |prefix| <= |s|
      && HexPrefix(s[|blanks|+|sign|..], base) == |prefix|
      && DigitRun(s[|blanks|+|sign|+|prefix|..], base) == |ds|
  {
    hide IsPrefix, DigitValue, HexPrefix, DigitRun, Numeral;
    PrefixIsRead(prefix, ds, rest, base);
    DigitRunOf(ds, rest, base);
    NumeralParts(blanks, sign, prefix, ds, rest);
  }

  lemma SignDecides(sign: seq<Byte>)
    requires IsSign(sign)
    ensures sign == [45] <==> |sign| == 1 && sign[0] == 45
  {
  }

  lemma ParsedBy(s: seq<Byte>, base: nat, b: nat, sign: nat, prefix: nat, n: nat)
    requires Blanks(s) == b && SignLength(s[b..]) == sign && HexPrefix(s[b+sign..], base) == prefix
    requires DigitRun(s[b+sign+prefix..], base) == n > 0
    ensures
      var start := b + sign + prefix;
      && start + n <= |s|
      && ParseUnsigned(s, base) == (Wrapped(NumberOf(s[start..start+n], base), sign == 1 && s[b] == 45), start + n)
  {
    hide NumberOf, DigitRun, Blanks, HexPrefix, Wrapped;
  }

  lemma UnsignedIsWrapped(v: nat)
    ensures Wrapped(v, true) == Unsigned(v, true) && Wrapped(v, false) == Unsigned(v, false)
  {
  }

  lemma PrefixIsRead(prefix: seq<Byte>, ds: seq<Byte>, rest: seq<Byte>, base: nat)
    requires base in {10, 16} && ds != [] && DigitValue(ds[0]) < base && (|ds| > 1 ==> DigitValue(ds[1]) < base)
    requires IsPrefix(prefix, base)
    requires prefix == [] && base == 16 && |ds| == 1 ==> rest == [] || (rest[0] != 120 && rest[0] != 88)
    ensures HexPrefix(prefix + (ds + rest), base) == |prefix|
  {
    var number := prefix + (ds + rest);
    if prefix == [] {
      assert number == ds + rest;
      assert |ds| > 1 ==> number[1] == ds[1];
      assert |ds| == 1 && rest != [] ==> number[1] == rest[0];
    } else {
      assert number[0] == prefix[0] && number[1] == prefix[1] && number[2] == ds[0];
    }
  }

  lemma FirstOfNumber(sign: seq<Byte>, prefix: seq<Byte>, ds: seq<Byte>, rest: seq<Byte>, base: nat)
    requires IsSign(sign) && base in {10, 16} && ds != [] && DigitValue(ds[0]) < base
    requires IsPrefix(prefix, base)
    ensures
      var t := sign + (prefix + (ds + rest));
      && t != [] && (t[0] as int) !in {9, 10, 11, 12, 13, 32}
      && SignLength(t) == |sign|
  {
    var number := prefix + (ds + rest);
    assert number[0] == if prefix == [] then ds[0] else prefix[0];
    assert (sign + number)[0] == if sign == [] then number[0] else sign[0];
  }

  /** A decimal or hexadecimal entity is read as its character, whatever follows it. */
  lemma NumbersAreRead(ds: seq<Byte>, v: nat, rest: seq<Byte>, room: nat)
    requires v <= 0x1FFFFF && room >= Utf8Len(v)
    ensures ReadFront(Ascii("&#") + Digits(v) + Ascii(";") + rest, room) == Out(Utf8(v), 3 + |Digits(v)|)
    ensures ds != [] && IsHexNumber(ds, v) ==>
              ReadFront(Ascii("&#x") + ds + Ascii(";") + rest, room) == Out(Utf8(v), 4 + |ds|)
  {
    hide Digits, IsHexNumber, Utf8Encode, ParseUnsigned;
    assert Ascii("&#") == [AMP, HASH] && Ascii(";") == [SEMI] && Ascii("&#x") == [AMP, HASH, LETTER_X];
    EntityIsRead(v, rest, room);
    if ds != [] && IsHexNumber(ds, v) {
      HexEntityIsRead(ds, v, rest, room);
    }
  }

  lemma HexEntityIsRead(ds: seq<Byte>, v: nat, rest: seq<Byte>, room: nat)
    requires v <= 0x1FFFFF && room >= Utf8Len(v) && ds != [] && IsHexNumber(ds, v)
    ensures ReadFront([AMP, HASH, LETTER_X] + ds + [SEMI] + rest, room) == Out(Utf8(v), 4 + |ds|)
  {
    HexNumberIsRead(ds, v);
    hide IsHexNumber, Utf8Encode, NumberOf, ParseUnsigned, Digits, HasAt;
    var s, tail := [AMP, HASH, LETTER_X] + ds + [SEMI] + rest, [SEMI] + rest;
    assert s == [AMP, HASH, LETTER_X] + (ds + tail);
    assert s[3..] == ds + tail && s[0] == AMP && s[1] == HASH && s[2] == LETTER_X && s[3 + |ds|] == SEMI;
    HexDigitsParse(ds, v, tail);
    RoomIsEnough(v, room);
    NotALiteral(s);
    assert ReadFront(s, room) == ReadEntity(s, room);
  }

  lemma HexDigitsParse(ds: seq<Byte>, v: nat, tail: seq<Byte>)
    requires v <= 0x1FFFFF && ds != [] && tail != [] && tail[0] == SEMI
    requires NumberOf(ds, 16) == v && forall i :: 0 <= i < |ds| ==> DigitValue(ds[i]) < 16
    ensures ParseUnsigned(ds + tail, 16) == (v, |ds|)
  {
    hide NumberOf, ParseUnsigned;
    assert DigitValue(SEMI) >= 16;
    assert |ds| > 1 ==> ds[1] != 120 && ds[1] != 88;
    hide DigitValue;
    UnsignedIsRead([], [], [], ds, tail, 16, v);
    assert Numeral([], [], [], ds, tail) == ds + tail;
  }

  /** A number that is no character, or has no semicolon behind it, stops the decoder. */
  lemma OtherNumbersStop(v: nat, rest: seq<Byte>, room: nat)
    requires rest == [] || !('0' <= rest[0] as int as char <= '9')
    ensures v > 0x1FFFFF || (rest != [] && rest[0] as int as char != ';') || rest == [] || room < Utf8Len(v) ==>
              ReadFront(Ascii("&#") + (Digits(v) + rest), room) == Stop
  {
    hide Digits, NumberOf, Utf8Encode, ParseUnsigned, Unsigned, DigitValue, DigitRun, HasAt;
    var ds := Digits(v);
    var s := [AMP, HASH] + (ds + rest);
    assert Ascii("&#") == [AMP, HASH];
    PrintedParses(v, rest);
    assert s[2..] == ds + rest && s[0] == AMP && s[1] == HASH && s[2] == ds[0];
    assert rest != [] ==> s[2 + |ds|] == rest[0];
    NotALiteral(s);
    LargeNumber(v);
    Utf8FitsExactly(Unsigned(v, false), room);
    assert ReadFront(s, room) == ReadEntity(s, room);
  }

  lemma LargeNumber(v: nat)
    ensures v > 0x1FFFFF ==> Unsigned(v, false) > 0x1FFFFF
    ensures v <= 0x1FFFFF ==> Unsigned(v, false) == v
  {
  }

  lemma PrintedParses(v: nat, rest: seq<Byte>)
    requires rest == [] || !('0' <= rest[0] as int as char <= '9')
    ensures ParseUnsigned(Digits(v) + rest, 10) == (Unsigned(v, false), |Digits(v)|)
  {
    hide Digits, NumberOf, ParseUnsigned, Unsigned;
    NumberOfDigits(v);
    forall i | 0 <= i < |Digits(v)| ensures DigitValue(Digits(v)[i]) < 10 {
      DigitsOfBases(Digits(v)[i]);
    }
    if rest != [] {
      DigitsOfBases(rest[0]);
    }
    hide DigitValue;
    UnsignedIsRead([], [], [], Digits(v), rest, 10, v);
    assert Numeral([], [], [], Digits(v), rest) == Digits(v) + rest;
  }

  // ---------------------------------------------------------------- UTF-8 by the bits of its bytes

  /** A value is encoded exactly when it has a form of four bytes at most and that fits. */
  lemma Utf8FitsExactly(v: nat, room: nat)
    ensures Utf8Encode(v, room) == if v <= 0x1FFFFF && room >= Utf8Len(v) then Utf8(v) else []
  {
  }

  /** The sequence of `n` bytes for `v` by section 3 of RFC 3629: marker bits in front, six bits of `v` in each trailer. */
  predicate HasForm(s: seq<Byte>, n: nat, v: nat) {
    && 1 <= n <= 4 && n <= |s|
    && (forall i :: 1 <= i < n ==> 0x80 <= s[i] <= 0xBF)
    && match n {
         case 1 => s[0] <= 0x7F && v == s[0]
         case 2 => 0xC0 <= s[0] <= 0xDF && v + 0xC0 * 0x40 + 0x80 == s[0] as int * 0x40 + s[1] as int
         case 3 =>
           && 0xE0 <= s[0] <= 0xEF
           && v + 0xE0 * 0x1000 + 0x80 * 0x41 == s[0] as int * 0x1000 + s[1] as int * 0x40 + s[2] as int
         case _ =>
           && 0xF0 <= s[0] <= 0xF7
           && v + 0xF0 * 0x4_0000 + 0x80 * 0x1041
              == s[0] as int * 0x4_0000 + s[1] as int * 0x1000 + s[2] as int * 0x40 + s[3] as int
       }
  }

  /** Decoding finds exactly the sequences of that form, longer ones than needed among them. */
  lemma Utf8DecodeExactly(s: seq<Byte>, v: nat, n: nat)
    requires s != []
    ensures Utf8Decode(s) == Some((v, n)) <==> HasForm(s, n, v)
  {
  }

  /** Encoding gives the shortest form with at most four bytes. */
  lemma Utf8Exactly(v: nat)
    requires v <= 0x1FFFFF
    ensures HasForm(Utf8(v), |Utf8(v)|, v)
    ensures |Utf8(v)| == if v < 0x80 then 1 else if v < 0x800 then 2 else if v < 0x1_0000 then 3 else 4
  {
    SixBitDigits(v);
  }

  // ---------------------------------------------------------------- what encoding removes

  /** The characters that open or close markup: quotes and angle brackets. */
  predicate IsMarkup(b: Byte) {
    b in [34, 39, 60, 62]
  }

  lemma FrontHasNoMarkup(f: Format, s: seq<Byte>)
    requires s != []
    ensures forall b :: b in Front(f, s).0 ==> !IsMarkup(b) && (f == Html ==> b < 128)
  {
    hide Digits;
    var ds := Digits(if s[0] < 128 then 39 else HtmlChar(s).0);
    forall b | b in Front(f, s).0 ensures !IsMarkup(b) && (f == Html ==> b < 128) {
      if b in ds {
        var i :| 0 <= i < |ds| && ds[i] == b;
      }
    }
  }

  /** Encoded text has no markup in it, and html text no byte of a multi-byte character. */
  lemma {:induction false} EncodedHasNoMarkup(f: Format, src: seq<Byte>, room: nat)
    ensures forall b :: b in Encoded(f, src, room) ==> !IsMarkup(b) && (f == Html ==> b < 128)
    decreases |src|
  {
    hide Front, IsMarkup;
    if src != [] && room > 1 && |Front(f, src).0| < room {
      FrontHasNoMarkup(f, src);
      EncodedHasNoMarkup(f, src[Front(f, src).1..], room - |Front(f, src).0|);
    }
  }

  // ---------------------------------------------------------------- where the decoder's terminator lands

  /** The characters of a text, decoded with no bound on their number. */
  function Chars(src: seq<Byte>): (cs: seq<seq<Byte>>)
    ensures forall i :: 0 <= i < |cs| ==> 1 <= |cs[i]| <= 4
    decreases |src|
  {
    if src == [] || ReadFront(src, 4).Stop? then []
    else [ReadFront(src, 4).bytes] + Chars(src[ReadFront(src, 4).n..])
  }

  function Total(cs: seq<seq<Byte>>): nat {
    if cs == [] then 0 else |cs[0]| + Total(cs[1..])
  }

  /** Less room only ever turns a character that does not fit into a stop. */
  lemma ReadWithRoom(s: seq<Byte>, room: nat)
    requires s != [] && room >= 1
    ensures
      var r := ReadFront(s, 4);
      ReadFront(s, room) == if r.Out? && |r.bytes| > room then Stop else r
  {
    hide ParseUnsigned;
    if s[0] == AMP && |s| > 1 && s[1] == HASH {
      NotALiteral(s);
      var hex := |s| > 2 && s[2] == LETTER_X;
      EncodeWithRoom(ParseUnsigned(s[if hex then 3 else 2..], if hex then 16 else 10).0, room);
    }
  }

  lemma EncodeWithRoom(v: nat, room: nat)
    requires room >= 1
    ensures Utf8Encode(v, room) == if |Utf8Encode(v, 4)| > room then [] else Utf8Encode(v, 4)
  {
  }

  /** A character of two or more bytes ends at exactly the `room`-th decoded byte. */
  ghost predicate WideCharEndsAt(cs: seq<seq<Byte>>, room: nat) {
    exists k :: 0 <= k < |cs| && EndsAt(cs, k, room) && |cs[k]| >= 2
  }

  predicate EndsAt(cs: seq<seq<Byte>>, k: nat, room: nat)
    requires k < |cs|
  {
    Total(cs[..k+1]) == room
  }

  lemma EndsShift(cs: seq<seq<Byte>>, k: nat, room: nat)
    requires 0 < k < |cs|
    ensures EndsAt(cs, k, room) <==> |cs[0]| <= room && EndsAt(cs[1..], k - 1, room - |cs[0]|)
  {
    assert cs[..k+1][1..] == cs[1..][..k];
  }

  lemma {:induction false} TotalBound(cs: seq<seq<Byte>>, k: nat)
    requires k < |cs| && forall i :: 0 <= i < |cs| ==> 1 <= |cs[i]|
    ensures Total(cs[..k+1]) >= |cs[k]| && (k > 0 ==> Total(cs[..k+1]) > |cs[0]|)
  {
    assert cs[..k+1][1..] == cs[1..][..k];
    if k > 0 {
      TotalBound(cs[1..], k - 1);
    } else {
      assert cs[..1] == [cs[0]];
    }
  }

  /**
   * The decoded text leaves no byte for the terminator, which then goes one past the buffer, exactly when a
   * multi-byte character ends at the last byte of the buffer.
   */
  lemma {:induction false} NoRoomForTerminator(src: seq<Byte>, room: nat)
    requires room >= 1
    ensures |Decoded(src, room)| == room <==> WideCharEndsAt(Chars(src), room)
    decreases |src|
  {
    hide ReadFront, WideCharEndsAt;
    var cs := Chars(src);
    if src != [] {
      ReadWithRoom(src, room);
    }
    if src == [] || ReadFront(src, 4).Stop? {
      NoCharEnds(room);
    } else {
      var c, n := cs[0], ReadFront(src, 4).n;
      var rest := Chars(src[n..]);
      assert cs[1..] == rest;
      if room > |c| {
        NoRoomForTerminator(src[n..], room - |c|);
        WideShift(cs, room);
      } else {
        WideFirst(cs, room);
      }
    }
  }

  lemma NoCharEnds(room: nat)
    ensures !WideCharEndsAt([], room)
  {
  }

  lemma TotalOfOne(c: seq<Byte>)
    ensures Total([c]) == |c|
  {
    assert [c][1..] == [];
  }

  lemma WideShift(cs: seq<seq<Byte>>, room: nat)
    requires cs != [] && room > |cs[0]| && forall i :: 0 <= i < |cs| ==> 1 <= |cs[i]|
    ensures WideCharEndsAt(cs, room) <==> WideCharEndsAt(cs[1..], room - |cs[0]|)
  {
    if WideCharEndsAt(cs, room) {
      var k :| 0 <= k < |cs| && EndsAt(cs, k, room) && |cs[k]| >= 2;
      TotalOfOne(cs[0]);
      assert cs[..1] == [cs[0]];
      EndsShift(cs, k, room);
      assert EndsAt(cs[1..], k - 1, room - |cs[0]|) && |cs[1..][k-1]| >= 2;
    }
    if WideCharEndsAt(cs[1..], room - |cs[0]|) {
      var k :| 0 <= k < |cs[1..]| && EndsAt(cs[1..], k, room - |cs[0]|) && |cs[1..][k]| >= 2;
      EndsShift(cs, k + 1, room);
      assert EndsAt(cs, k + 1, room) && |cs[k+1]| >= 2;
    }
  }

  lemma WideFirst(cs: seq<seq<Byte>>, room: nat)
    requires cs != [] && room <= |cs[0]| && forall i :: 0 <= i < |cs| ==> 1 <= |cs[i]|
    ensures WideCharEndsAt(cs, room) <==> room == |cs[0]| && room >= 2
  {
    assert cs[..1] == [cs[0]];
    assert EndsAt(cs, 0, |cs[0]|);
    forall k | 0 <= k < |cs| && EndsAt(cs, k, room) ensures k == 0 {
      TotalBound(cs, k);
    }
  }

  /** A buffer longer than the source always has room for the terminator; the html text of 'é' in two bytes has not. */
  lemma LongBufferHasRoom(src: seq<Byte>, room: nat)
    requires room > |src|
    ensures |Decoded(src, room)| < room
  {
  }

  lemma TwoByteBufferOverruns()
    ensures
      var text := Text(Html, [195, 169]);
      |Decoded(text, 2)| == 2
  {
    var src: seq<Byte> := [195, 169];
    var (t, k) := Front(Html, src);
    assert HtmlChar(src) == (233, 2);
    assert src[2..] == [] && t + [] == t;
    ReadInvertsFront(Html, src, [], 2);
  }

  // ---------------------------------------------------------------- the buffer loops

  /** The bytes written so far and the encoding of the rest make up the whole encoding. */
  predicate Encoding(f: Format, source: seq<Byte>, buflen: nat, srcpos: nat, out: seq<Byte>) {
    && srcpos <= |source| && |out| < buflen
    && out + Encoded(f, source[srcpos..], buflen - |out|) == Encoded(f, source, buflen)
  }

  lemma EncodingStarts(f: Format, source: seq<Byte>, buflen: nat)
    requires buflen > 0
    ensures Encoding(f, source, buflen, 0, [])
  {
    hide Encoded;
    assert source[0..] == source;
  }

  lemma EncodingNext(f: Format, source: seq<Byte>, buflen: nat, srcpos: nat, out: seq<Byte>)
    requires Encoding(f, source, buflen, srcpos, out) && srcpos < |source| && |out| + 1 < buflen
    ensures
      var (t, n) := Front(f, source[srcpos..]);
      if |out| + |t| < buflen then Encoding(f, source, buflen, srcpos + n, out + t)
      else out == Encoded(f, source, buflen)
  {
    hide Front;
    var (t, n) := Front(f, source[srcpos..]);
    assert source[srcpos..][n..] == source[srcpos+n..];
    if |out| + |t| < buflen {
      var rest := Encoded(f, source[srcpos+n..], buflen - |out| - |t|);
      assert out + (t + rest) == out + t + rest;
    }
  }

  lemma EncodingEnds(f: Format, source: seq<Byte>, buflen: nat, srcpos: nat, out: seq<Byte>)
    requires Encoding(f, source, buflen, srcpos, out) && (srcpos == |source| || |out| + 1 >= buflen)
    ensures out == Encoded(f, source, buflen)
  {
  }

  /** Xml and html encoding: one loop over the source, stopping at the first output that does not fit. */
  method Encode(f: Format, buffer: array<Byte>, buflen: nat, source: seq<Byte>) returns (n: nat)
    requires buflen <= buffer.Length
    modifies buffer
    ensures buflen == 0 ==> n == 0 && buffer[..] == old(buffer[..])
    ensures buflen > 0 ==> n < buflen && Written(old(buffer[..]), buffer[..], Encoded(f, source, buflen), n)
  {
    hide Encoding, Encoded, Front, Written;
    if buflen == 0 {
      return 0;
    }
    var srcpos, bufpos := 0, 0;
    ghost var done := false;
    EncodingStarts(f, source, buflen);
    while srcpos < |source| && bufpos + 1 < buflen
      invariant srcpos <= |source| && 0 <= bufpos < buflen
      invariant Encoding(f, source, buflen, srcpos, buffer[..bufpos])
      invariant buffer[bufpos..] == old(buffer[..])[bufpos..] && !done
    {
      EncodingNext(f, source, buflen, srcpos, buffer[..bufpos]);
      var (text, used) := Front(f, source[srcpos..]);
      srcpos := srcpos + used;
      if bufpos + |text| >= buflen {
        done := true;
        break;
      }
      Put(buffer, bufpos, text, old(buffer[..]));
      bufpos := bufpos + |text|;
    }
    if !done {
      EncodingEnds(f, source, buflen, srcpos, buffer[..bufpos]);
    }
    Terminate(buffer, bufpos, old(buffer[..]), Encoded(f, source, buflen));
    return bufpos;
  }

  predicate Decoding(source: seq<Byte>, buflen: nat, srcpos: nat, out: seq<Byte>) {
    && |out| <= srcpos <= |source| && |out| <= buflen
    && out + Decoded(source[srcpos..], buflen - |out|) == Decoded(source, buflen)
  }

  lemma DecodingStarts(source: seq<Byte>, buflen: nat)
    ensures Decoding(source, buflen, 0, [])
  {
    hide Decoded;
    assert source[0..] == source;
  }

  lemma DecodingNext(source: seq<Byte>, buflen: nat, srcpos: nat, out: seq<Byte>)
    requires Decoding(source, buflen, srcpos, out) && srcpos < |source| && |out| + 1 < buflen
    ensures
      match ReadFront(source[srcpos..], buflen - |out|)
      case Stop => out == Decoded(source, buflen)
      case Out(bytes, n) => Decoding(source, buflen, srcpos + n, out + bytes)
  {
    hide ReadFront;
    match ReadFront(source[srcpos..], buflen - |out|)
    case Stop =>
    case Out(bytes, n) =>
      assert source[srcpos..][n..] == source[srcpos+n..];
      var rest := Decoded(source[srcpos+n..], buflen - |out| - |bytes|);
      assert out + (bytes + rest) == out + bytes + rest;
  }

  lemma DecodingEnds(source: seq<Byte>, buflen: nat, srcpos: nat, out: seq<Byte>)
    requires Decoding(source, buflen, srcpos, out) && (srcpos == |source| || |out| + 1 >= buflen)
    ensures out == Decoded(source, buflen)
  {
  }

  /**
   * Xml and html decoding; the source may be the buffer itself. `past` tells that the terminator belongs one past
   * the end of the buffer, where the model writes nothing.
   */
  method Decode(buffer: array<Byte>, buflen: nat, source: array<Byte>, srclen: nat) returns (n: nat, past: bool)
    requires buflen <= buffer.Length && srclen <= source.Length
    modifies buffer
    ensures buflen == 0 ==> n == 0 && !past && buffer[..] == old(buffer[..])
    ensures buflen > 0 ==> (past <==> |Decoded(old(source[..srclen]), buflen)| == buffer.Length)
    ensures buflen > 0 && !past ==> Written(old(buffer[..]), buffer[..], Decoded(old(source[..srclen]), buflen), n)
    ensures past ==> n == buflen == buffer.Length && buffer[..] == Decoded(old(source[..srclen]), buflen)
  {
    hide Decoding, Decoded, ReadFront, Written;
    if buflen == 0 {
      return 0, false;
    }
    ghost var src := source[..srclen];
    var srcpos, bufpos := 0, 0;
    ghost var done := false;
    DecodingStarts(src, buflen);
    while srcpos < srclen && bufpos + 1 < buflen
      invariant 0 <= bufpos <= srcpos <= srclen && bufpos <= buflen <= buffer.Length
      invariant Decoding(src, buflen, srcpos, buffer[..bufpos])
      invariant buffer[bufpos..] == old(buffer[..])[bufpos..] && !done
      invariant source[srcpos..srclen] == src[srcpos..]
    {
      DecodingNext(src, buflen, srcpos, buffer[..bufpos]);
      var r := ReadFront(source[srcpos..srclen], buflen - bufpos);
      if r.Stop? {
        done := true;
        break;
      }
      srcpos := srcpos + r.n;
      PutBehind(buffer, bufpos, r.bytes, old(buffer[..]), source, srcpos, srclen);
      bufpos := bufpos + |r.bytes|;
    }
    if !done {
      DecodingEnds(src, buflen, srcpos, buffer[..bufpos]);
    }
    if bufpos == buffer.Length {
      assert buffer[..] == buffer[..bufpos];
      return bufpos, true;
    }
    Terminate(buffer, bufpos, old(buffer[..]), Decoded(src, buflen));
    return bufpos, false;
  }
}
