// The escaping codecs over bounded byte buffers: url, hex with an escape character, and plain escaping.

module StringEncode {
  import opened Buffers
  import opened Words

  const PERCENT: Byte := 37
  const PLUS: Byte := 43
  const BLANK: Byte := 32

  // ---------------------------------------------------------------- hex digits

  function HexDigit(v: int): (ch: Byte)
    requires 0 <= v < 16
  {
    if v < 10 then 48 + v else 87 + v
  }

  /** The value of a hex digit as an unsigned char; other characters wrap. */
  function HexValue(ch: Byte): (v: Byte) {
    if ch <= 57 || ch >= 128 then (ch as int - 48) % 256
    else
      var lower: int := if 65 <= ch <= 90 then ch + 32 else ch;
      (lower - 97 + 10) % 256
  }

  /** Bitwise or of the lowest `n` bits. */
  function BitOr(a: nat, b: nat, n: nat): nat {
    if n == 0 then 0 else (if a % 2 == 1 || b % 2 == 1 then 1 else 0) + 2 * BitOr(a / 2, b / 2, n - 1)
  }

  lemma {:induction false} BitOrZero(a: nat, n: nat)
    requires a < Pow2(n)
    ensures BitOr(a, 0, n) == a
  {
    if n > 0 {
      BitOrZero(a / 2, n - 1);
    }
  }

  lemma {:induction false} BitOrBound(a: nat, b: nat, n: nat)
    ensures BitOr(a, b, n) < Pow2(n)
  {
    if n > 0 {
      BitOrBound(a / 2, b / 2, n - 1);
    }
  }

  lemma {:induction false} BitOrCommutes(a: nat, b: nat, n: nat)
    ensures BitOr(a, b, n) == BitOr(b, a, n)
  {
    if n > 0 {
      BitOrCommutes(a / 2, b / 2, n - 1);
    }
  }

  lemma {:induction false} BitOrSelf(a: nat, n: nat)
    requires a < Pow2(n)
    ensures BitOr(a, a, n) == a
  {
    if n > 0 {
      BitOrSelf(a / 2, n - 1);
    }
  }

  /** Two digit values shifted and or-ed into one byte. */
  function HexPair(high: Byte, low: Byte): (b: Byte)
  {
    var h, l := HexValue(high), HexValue(low);
    BitOrBound(h % 16, l / 16, 4);
    assert Pow2(4) == 16;
    16 * BitOr(h % 16, l / 16, 4) + l % 16
  }

  lemma HexDigitValue(v: int)
    requires 0 <= v < 16
    ensures HexValue(HexDigit(v)) == v
  {
  }

  /** What any character is worth as a digit: capitals are lowered, and a byte below its zero wraps. */
  lemma DigitValueExactly(ch: Byte)
    ensures HexValue(ch) as int ==
            if ch < 48 then ch + 208
            else if ch <= 57 then ch - 48
            else if ch < 65 then ch + 169
            else if ch <= 90 then ch - 55
            else if ch < 128 then ch - 87
            else ch - 48
  {
  }

  lemma HexPairInverts(ch: Byte)
    ensures HexPair(HexDigit(ch / 16), HexDigit(ch % 16)) == ch
  {
    hide HexValue, HexDigit;
    HexDigitValue(ch / 16);
    HexDigitValue(ch % 16);
    var h, l: nat := ch / 16, ch % 16;
    assert h % 16 == h && l / 16 == 0 && l % 16 == l && 16 * h + l == ch;
    assert Pow2(4) == 16;
    BitOrZero(h, 4);
  }

  // ---------------------------------------------------------------- encoders and decoders as token rules

  datatype Encoder = ToUrl | ToHex(illegal: seq<Byte>, escape: Byte) | ToEscaped(illegal: seq<Byte>, escape: Byte)

  datatype Decoder = FromUrl | FromHex(escape: Byte) | FromEscaped(escape: Byte)

  /** The class table's bit for characters unsafe in a URL. */
  predicate UrlUnsafe(ch: Byte) {
    || ch <= 32 || 34 <= ch <= 38 || 43 <= ch <= 44 || ch == 47 || 58 <= ch <= 64
    || 91 <= ch <= 94 || ch == 96 || 123 <= ch <= 125 || ch == 127
  }

  /** A search in a C string also finds its terminator, so NUL always counts as illegal. */
  predicate Illegal(illegal: seq<Byte>, escape: Byte, ch: Byte) {
    ch == escape || ch in illegal || ch == 0
  }

  /** What the encoder writes for one byte. */
  function Token(e: Encoder, ch: Byte): (t: seq<Byte>)
    ensures 1 <= |t| <= 3
  {
    match e
    case ToUrl =>
      if UrlUnsafe(ch) then [PERCENT, HexDigit(ch / 16), HexDigit(ch % 16)] else [ch]
    case ToHex(illegal, escape) =>
      if Illegal(illegal, escape, ch) then [escape, HexDigit(ch / 16), HexDigit(ch % 16)] else [ch]
    case ToEscaped(illegal, escape) =>
      if Illegal(illegal, escape, ch) then [escape, ch] else [ch]
  }

  /** The byte a decoder reads off the front, and how many source bytes that takes. */
  function Step(d: Decoder, src: seq<Byte>): (r: (Byte, nat))
    requires src != []
    ensures 1 <= r.1 <= |src|
  {
    match d
    case FromUrl =>
      if src[0] == PLUS then (BLANK, 1)
      else if src[0] == PERCENT && |src| > 2 then (HexPair(src[1], src[2]), 3)
      else (src[0], 1)
    case FromHex(escape) =>
      if src[0] == escape && |src| > 2 then (HexPair(src[1], src[2]), 3) else (src[0], 1)
    case FromEscaped(escape) =>
      if src[0] == escape && |src| > 1 then (src[1], 2) else (src[0], 1)
  }

  function Matching(e: Encoder): Decoder {
    match e
    case ToUrl => FromUrl
    case ToHex(_, escape) => FromHex(escape)
    case ToEscaped(_, escape) => FromEscaped(escape)
  }

  /** The matching decoder reads a token back as the byte it stands for, whatever follows. */
  lemma StepInvertsToken(e: Encoder, ch: Byte, rest: seq<Byte>)
    ensures Step(Matching(e), Token(e, ch) + rest) == (ch, |Token(e, ch)|)
  {
    HexPairInverts(ch);
  }

  /** The unbounded encoding. */
  function Full(e: Encoder, src: seq<Byte>): seq<Byte> {
    if src == [] then [] else Token(e, src[0]) + Full(e, src[1..])
  }

  /** The encoding into a buffer of `room` bytes, one of which is for the terminator. */
  function Encoded(e: Encoder, src: seq<Byte>, room: nat): (r: seq<Byte>)
    ensures |r| < room || r == []
    decreases |src|
  {
    if src == [] || room <= 1 || |Token(e, src[0])| >= room then []
    else Token(e, src[0]) + Encoded(e, src[1..], room - |Token(e, src[0])|)
  }

  /** The number of source bytes whose tokens fit. */
  function Fitting(e: Encoder, src: seq<Byte>, room: nat): (n: nat)
    ensures n <= |src|
    decreases |src|
  {
    if src == [] || room <= 1 || |Token(e, src[0])| >= room then 0
    else 1 + Fitting(e, src[1..], room - |Token(e, src[0])|)
  }

  function Decoded(d: Decoder, src: seq<Byte>, room: nat): (r: seq<Byte>)
    ensures |r| < room || r == []
    ensures |r| <= |src|
    decreases |src|
  {
    if src == [] || room <= 1 then []
    else
      var (b, n) := Step(d, src);
      [b] + Decoded(d, src[n..], room - 1)
  }

  /** Truncation never splits a token, and stops only when the next token does not fit. */
  lemma {:induction false} EncodedIsFullPrefix(e: Encoder, src: seq<Byte>, room: nat)
    ensures
      var n := Fitting(e, src, room);
      && Encoded(e, src, room) == Full(e, src[..n])
      && (n < |src| ==> |Full(e, src[..n+1])| >= room || room <= 1)
    decreases |src|
  {
    if src == [] || room <= 1 {
    } else if |Token(e, src[0])| >= room {
      assert src[..1][1..] == [];
    } else {
      var room' := room - |Token(e, src[0])|;
      EncodedIsFullPrefix(e, src[1..], room');
      var n := Fitting(e, src[1..], room');
      assert src[..n+1][1..] == src[1..][..n];
      if n + 1 < |src| {
        assert src[..n+2][1..] == src[1..][..n+1];
        FullIsLong(e, src[1..][..n+1]);
      }
    }
  }

  lemma {:induction false} FullIsLong(e: Encoder, src: seq<Byte>)
    ensures |Full(e, src)| >= |src|
  {
    if src != [] {
      FullIsLong(e, src[1..]);
    }
  }

  /** Decoding a full encoding gives the source, as far as the buffer reaches. */
  lemma {:induction false} DecodedFull(e: Encoder, src: seq<Byte>, room: nat)
    requires room >= 1
    ensures Decoded(Matching(e), Full(e, src), room) == if |src| < room then src else src[..room-1]
    decreases |src|
  {
    hide Token, Step, Matching;
    if src == [] || room == 1 {
      assert room == 1 ==> Decoded(Matching(e), Full(e, src), room) == [];
    } else {
      var t, rest := Token(e, src[0]), Full(e, src[1..]);
      StepInvertsToken(e, src[0], rest);
      assert (t + rest)[|t|..] == rest;
      DecodedFull(e, src[1..], room - 1);
      assert src == [src[0]] + src[1..];
    }
  }

  /**
   * The codecs are safe to truncate on both sides: what fits of an encoding decodes, as far as the decoder's
   * buffer reaches, to a prefix of the source, and to all of it when the buffers hold everything.
   */
  lemma RoundTrip(e: Encoder, src: seq<Byte>, room: nat, room': nat)
    requires room' >= 1
    ensures
      var n := Fitting(e, src, room);
      && Decoded(Matching(e), Encoded(e, src, room), room') == src[..if n < room' then n else room' - 1]
      && (|Full(e, src)| < room ==> n == |src|)
  {
    EncodedIsFullPrefix(e, src, room);
    var n := Fitting(e, src, room);
    DecodedFull(e, src[..n], room');
    assert n >= room' ==> src[..n][..room'-1] == src[..room'-1];
    if n < |src| {
      FullGrows(e, src, n + 1);
    }
  }

  lemma {:induction false} FullGrows(e: Encoder, src: seq<Byte>, n: nat)
    requires n <= |src|
    ensures |Full(e, src[..n])| <= |Full(e, src)|
  {
    if n > 0 {
      FullGrows(e, src[1..], n - 1);
      assert src[..n][1..] == src[1..][..n-1];
    }
  }

  // ---------------------------------------------------------------- the codes in plain text

  const LOWER_DIGITS := "0123456789abcdef"
  const UPPER_DIGITS := "0123456789ABCDEF"

  lemma HexDigitLetters(v: nat)
    requires v < 16
    ensures HexDigit(v) as int == LOWER_DIGITS[v] as int
  {
  }

  lemma {:induction false} FullConcat(e: Encoder, a: seq<Byte>, b: seq<Byte>)
    ensures Full(e, a + b) == Full(e, a) + Full(e, b)
  {
    hide Token;
    if a == [] {
      assert a + b == b;
    } else {
      assert (a + b)[1..] == a[1..] + b;
      FullConcat(e, a[1..], b);
    }
  }

  /** What a URL may hold as it is: letters, digits, nine marks, and every byte of a multi-byte character. */
  predicate IsUrlSafe(ch: Byte) {
    || 'a' <= ch as int as char <= 'z' || 'A' <= ch as int as char <= 'Z' || '0' <= ch as int as char <= '9'
    || ch as int as char in {'!', '\'', '(', ')', '*', '-', '.', '_', '~'}
    || ch >= 128
  }

  predicate HexCode(t: seq<Byte>, escape: Byte, ch: Byte) {
    && |t| == 3 && t[0] == escape
    && t[1] as int == LOWER_DIGITS[ch / 16] as int && t[2] as int == LOWER_DIGITS[ch % 16] as int
  }

  lemma UrlCodeExactly(ch: Byte)
    ensures if IsUrlSafe(ch) then Full(ToUrl, [ch]) == [ch] else HexCode(Full(ToUrl, [ch]), 37, ch)
  {
    HexDigitLetters(ch / 16);
    HexDigitLetters(ch % 16);
    OneByteFull(ToUrl, ch);
  }

  lemma OneByteFull(e: Encoder, ch: Byte)
    ensures Full(e, [ch]) == Token(e, ch)
  {
    hide Token;
    assert [ch][1..] == [] && Token(e, ch) + [] == Token(e, ch);
  }

  /** Both escapings keep a byte exactly when it is not NUL, not the escape and not in the caller's set. */
  lemma EscapeCodeExactly(illegal: seq<Byte>, escape: Byte, ch: Byte)
    ensures
      var hex, plain := Full(ToHex(illegal, escape), [ch]), Full(ToEscaped(illegal, escape), [ch]);
      if ch == 0 || ch == escape || ch in illegal then HexCode(hex, escape, ch) && plain == [escape, ch]
      else hex == plain == [ch]
  {
    HexDigitLetters(ch / 16);
    HexDigitLetters(ch % 16);
    OneByteFull(ToHex(illegal, escape), ch);
    OneByteFull(ToEscaped(illegal, escape), ch);
  }

  /** `ch` is the hex digit for `v`, in either case. */
  predicate IsHexDigit(ch: Byte, v: nat)
    requires v < 16
  {
    ch as int == LOWER_DIGITS[v] as int || ch as int == UPPER_DIGITS[v] as int
  }

  lemma HexDigitIsRead(ch: Byte, v: nat)
    requires v < 16 && IsHexDigit(ch, v)
    ensures HexValue(ch) == v
  {
  }

  lemma HexPairIsRead(high: Byte, low: Byte, h: nat, l: nat)
    requires h < 16 && l < 16 && IsHexDigit(high, h) && IsHexDigit(low, l)
    ensures HexPair(high, low) == 16 * h + l
  {
    HexDigitIsRead(high, h);
    HexDigitIsRead(low, l);
    hide HexValue, IsHexDigit;
    assert h % 16 == h && l / 16 == 0 && l % 16 == l;
    assert Pow2(4) == 16;
    BitOrZero(h, 4);
  }

  /** What each decoder makes of the front of a text. */
  lemma DecodersRead(escape: Byte, high: Byte, low: Byte, h: nat, l: nat, rest: seq<Byte>)
    requires h < 16 && l < 16 && IsHexDigit(high, h) && IsHexDigit(low, l)
    ensures Step(FromUrl, [37, high, low] + rest) == (16 * h + l, 3)
    ensures Step(FromUrl, [43] + rest) == (32, 1)
    ensures Step(FromHex(escape), [escape, high, low] + rest) == (16 * h + l, 3)
  {
    HexPairIsRead(high, low, h, l);
    hide HexPair, IsHexDigit;
  }

  /** Any other byte is itself, and so is an escape with too little behind it. */
  lemma DecodersKeep(escape: Byte, ch: Byte, rest: seq<Byte>)
    ensures ch != 43 && (ch != 37 || |rest| < 2) ==> Step(FromUrl, [ch] + rest) == (ch, 1)
    ensures ch != escape || |rest| < 2 ==> Step(FromHex(escape), [ch] + rest) == (ch, 1)
    ensures ch != escape || rest == [] ==> Step(FromEscaped(escape), [ch] + rest) == (ch, 1)
    ensures Step(FromEscaped(escape), [escape, ch] + rest) == (ch, 2)
  {
    hide HexPair;
  }

  // ---------------------------------------------------------------- what hex encoding removes

  /** A byte of the caller's illegal set, or the NUL that always counts as one. */
  predicate Forbidden(illegal: seq<Byte>, ch: Byte) {
    ch in illegal || ch == 0
  }

  /** Neither the escape nor a digit of a byte that gets escaped is forbidden itself. */
  ghost predicate SafeEscapes(illegal: seq<Byte>, escape: Byte) {
    && !Forbidden(illegal, escape)
    && forall ch: Byte :: Illegal(illegal, escape, ch) ==>
         !Forbidden(illegal, HexDigit(ch / 16)) && !Forbidden(illegal, HexDigit(ch % 16))
  }

  ghost predicate RemovesAll(illegal: seq<Byte>, escape: Byte) {
    forall src, room, i ::
      0 <= i < |Encoded(ToHex(illegal, escape), src, room)| ==>
        !Forbidden(illegal, Encoded(ToHex(illegal, escape), src, room)[i])
  }

  lemma {:induction false} SafeEscapesRemove(illegal: seq<Byte>, escape: Byte, src: seq<Byte>, room: nat, i: nat)
    requires SafeEscapes(illegal, escape) && i < |Encoded(ToHex(illegal, escape), src, room)|
    ensures !Forbidden(illegal, Encoded(ToHex(illegal, escape), src, room)[i])
    decreases |src|
  {
    var t := Token(ToHex(illegal, escape), src[0]);
    if i >= |t| {
      SafeEscapesRemove(illegal, escape, src[1..], room - |t|, i - |t|);
    }
  }

  lemma OneByteEncoded(e: Encoder, ch: Byte)
    ensures Encoded(e, [ch], 4) == Token(e, ch)
  {
    hide Token;
    assert [ch][1..] == [];
    assert Encoded(e, [], 4 - |Token(e, ch)|) == [];
  }

  /** Hex encoding removes every illegal byte from every source, into any buffer, exactly with safe escapes. */
  lemma RemovesIllegalExactly(illegal: seq<Byte>, escape: Byte)
    ensures RemovesAll(illegal, escape) <==> SafeEscapes(illegal, escape)
  {
    var e := ToHex(illegal, escape);
    hide Forbidden, HexDigit;
    if SafeEscapes(illegal, escape) {
      forall src, room, i | 0 <= i < |Encoded(e, src, room)| ensures !Forbidden(illegal, Encoded(e, src, room)[i]) {
        SafeEscapesRemove(illegal, escape, src, room, i);
      }
    }
    if RemovesAll(illegal, escape) {
      forall ch: Byte | Illegal(illegal, escape, ch)
        ensures !Forbidden(illegal, escape)
        ensures !Forbidden(illegal, HexDigit(ch / 16)) && !Forbidden(illegal, HexDigit(ch % 16))
      {
        OneByteEncoded(e, ch);
        var r := Encoded(e, [ch], 4);
        assert r == [escape, HexDigit(ch / 16), HexDigit(ch % 16)];
        assert !Forbidden(illegal, r[0]) && !Forbidden(illegal, r[1]) && !Forbidden(illegal, r[2]);
      }
      assert Illegal(illegal, escape, 0);
    }
  }

  // ---------------------------------------------------------------- the buffer loops

  /** The bytes written so far and the encoding of the rest make up the whole encoding. */
  predicate Encoding(e: Encoder, source: seq<Byte>, buflen: nat, srcpos: nat, out: seq<Byte>) {
    && srcpos <= |source| && |out| < buflen
    && out + Encoded(e, source[srcpos..], buflen - |out|) == Encoded(e, source, buflen)
  }

  lemma EncodingStarts(e: Encoder, source: seq<Byte>, buflen: nat)
    requires buflen > 0
    ensures Encoding(e, source, buflen, 0, [])
  {
    hide Encoded;
    assert source[0..] == source;
  }

  lemma EncodedFirst(e: Encoder, src: seq<Byte>, room: nat)
    requires src != [] && room > 1
    ensures Encoded(e, src, room) ==
            if |Token(e, src[0])| >= room then [] else Token(e, src[0]) + Encoded(e, src[1..], room - |Token(e, src[0])|)
  {
    hide Token;
  }

  lemma EncodingNext(e: Encoder, source: seq<Byte>, buflen: nat, srcpos: nat, out: seq<Byte>)
    requires Encoding(e, source, buflen, srcpos, out) && srcpos < |source| && |out| + 1 < buflen
    ensures
      var t := Token(e, source[srcpos]);
      if |out| + |t| < buflen then Encoding(e, source, buflen, srcpos + 1, out + t)
      else out == Encoded(e, source, buflen)
  {
    hide Token, Encoded;
    var t, room := Token(e, source[srcpos]), buflen - |out|;
    EncodedFirst(e, source[srcpos..], room);
    assert source[srcpos..][1..] == source[srcpos+1..];
    if |t| < room {
      var rest := Encoded(e, source[srcpos+1..], room - |t|);
      assert out + (t + rest) == out + t + rest;
    } else {
      assert out + [] == out;
    }
  }

  lemma EncodingEnds(e: Encoder, source: seq<Byte>, buflen: nat, srcpos: nat, out: seq<Byte>)
    requires Encoding(e, source, buflen, srcpos, out) && (srcpos == |source| || |out| + 1 >= buflen)
    ensures out == Encoded(e, source, buflen)
  {
  }

  /** Percent-encodes what the class table marks as unsafe in a URL. */
  method UrlEncode(buffer: array<Byte>, buflen: nat, source: seq<Byte>) returns (n: nat)
    requires buflen <= buffer.Length
    modifies buffer
    ensures buflen == 0 ==> n == 0 && buffer[..] == old(buffer[..])
    ensures buflen > 0 ==> n < buflen && Written(old(buffer[..]), buffer[..], Encoded(ToUrl, source, buflen), n)
  {
    hide Encoding, Encoded, Written;
    if buflen == 0 {
      return 0;
    }
    var srcpos, bufpos := 0, 0;
    ghost var done := false;
    EncodingStarts(ToUrl, source, buflen);
    while srcpos < |source| && bufpos + 1 < buflen
      invariant srcpos <= |source| && 0 <= bufpos < buflen
      invariant Encoding(ToUrl, source, buflen, srcpos, buffer[..bufpos])
      invariant buffer[bufpos..] == old(buffer[..])[bufpos..] && !done
    {
      EncodingNext(ToUrl, source, buflen, srcpos, buffer[..bufpos]);
      var ch := source[srcpos];
      srcpos := srcpos + 1;
      var text := [ch];
      if UrlUnsafe(ch) {
        if bufpos + 3 >= buflen {
          done := true;
          break;
        }
        text := [PERCENT, HexDigit(ch / 16), HexDigit(ch % 16)];
      }
      assert text == Token(ToUrl, ch);
      Put(buffer, bufpos, text, old(buffer[..]));
      bufpos := bufpos + |text|;
    }
    if !done {
      EncodingEnds(ToUrl, source, buflen, srcpos, buffer[..bufpos]);
    }
    Terminate(buffer, bufpos, old(buffer[..]), Encoded(ToUrl, source, buflen));
    return bufpos;
  }

  /** Replaces illegal bytes by the escape character and two hex digits. */
  method Encode(buffer: array<Byte>, buflen: nat, source: seq<Byte>, illegal: seq<Byte>, escape: Byte) returns (n: nat)
    requires buflen <= buffer.Length
    modifies buffer
    ensures buflen == 0 ==> n == 0 && buffer[..] == old(buffer[..])
    ensures buflen > 0 ==> n < buflen && Written(old(buffer[..]), buffer[..], Encoded(ToHex(illegal, escape), source, buflen), n)
  {
    hide Encoding, Encoded, Written;
    if buflen == 0 {
      return 0;
    }
    var srcpos, bufpos := 0, 0;
    ghost var done := false;
    EncodingStarts(ToHex(illegal, escape), source, buflen);
    while srcpos < |source| && bufpos + 1 < buflen
      invariant srcpos <= |source| && 0 <= bufpos < buflen
      invariant Encoding(ToHex(illegal, escape), source, buflen, srcpos, buffer[..bufpos])
      invariant buffer[bufpos..] == old(buffer[..])[bufpos..] && !done
    {
      EncodingNext(ToHex(illegal, escape), source, buflen, srcpos, buffer[..bufpos]);
      var ch := source[srcpos];
      srcpos := srcpos + 1;
      var text := [ch];
      if Illegal(illegal, escape, ch) {
        if bufpos + 3 >= buflen {
          done := true;
          break;
        }
        text := [escape, HexDigit(ch / 16), HexDigit(ch % 16)];
      }
      assert text == Token(ToHex(illegal, escape), ch);
      Put(buffer, bufpos, text, old(buffer[..]));
      bufpos := bufpos + |text|;
    }
    if !done {
      EncodingEnds(ToHex(illegal, escape), source, buflen, srcpos, buffer[..bufpos]);
    }
    Terminate(buffer, bufpos, old(buffer[..]), Encoded(ToHex(illegal, escape), source, buflen));
    return bufpos;
  }

  /** Puts the escape character before illegal bytes. */
  method Escape(buffer: array<Byte>, buflen: nat, source: seq<Byte>, illegal: seq<Byte>, escape: Byte) returns (n: nat)
    requires buflen <= buffer.Length
    modifies buffer
    ensures buflen == 0 ==> n == 0 && buffer[..] == old(buffer[..])
    ensures buflen > 0 ==> n < buflen && Written(old(buffer[..]), buffer[..], Encoded(ToEscaped(illegal, escape), source, buflen), n)
  {
    hide Encoding, Encoded, Written;
    if buflen == 0 {
      return 0;
    }
    var srcpos, bufpos := 0, 0;
    ghost var done := false;
    EncodingStarts(ToEscaped(illegal, escape), source, buflen);
    while srcpos < |source| && bufpos + 1 < buflen
      invariant srcpos <= |source| && 0 <= bufpos < buflen
      invariant Encoding(ToEscaped(illegal, escape), source, buflen, srcpos, buffer[..bufpos])
      invariant buffer[bufpos..] == old(buffer[..])[bufpos..] && !done
    {
      EncodingNext(ToEscaped(illegal, escape), source, buflen, srcpos, buffer[..bufpos]);
      var ch := source[srcpos];
      srcpos := srcpos + 1;
      var text := [ch];
      if Illegal(illegal, escape, ch) {
        if bufpos + 2 >= buflen {
          done := true;
          break;
        }
        text := [escape, ch];
      }
      assert text == Token(ToEscaped(illegal, escape), ch);
      Put(buffer, bufpos, text, old(buffer[..]));
      bufpos := bufpos + |text|;
    }
    if !done {
      EncodingEnds(ToEscaped(illegal, escape), source, buflen, srcpos, buffer[..bufpos]);
    }
    Terminate(buffer, bufpos, old(buffer[..]), Encoded(ToEscaped(illegal, escape), source, buflen));
    return bufpos;
  }

  /** The bytes decoded so far and the decoding of the rest make up the whole decoding. */
  predicate Decoding(d: Decoder, source: seq<Byte>, buflen: nat, srcpos: nat, out: seq<Byte>) {
    && |out| <= srcpos <= |source| && |out| < buflen
    && out + Decoded(d, source[srcpos..], buflen - |out|) == Decoded(d, source, buflen)
  }

  lemma DecodingStarts(d: Decoder, source: seq<Byte>, buflen: nat)
    requires buflen > 0
    ensures Decoding(d, source, buflen, 0, [])
  {
    hide Decoded;
    assert source[0..] == source;
  }

  /** The token rule at a position of the source. */
  function StepAt(d: Decoder, source: seq<Byte>, i: nat): (r: (Byte, nat))
    requires i < |source|
    ensures r == Step(d, source[i..]) && i + r.1 <= |source|
  {
    match d
    case FromUrl =>
      if source[i] == PLUS then (BLANK, 1)
      else if source[i] == PERCENT && i + 2 < |source| then (HexPair(source[i+1], source[i+2]), 3)
      else (source[i], 1)
    case FromHex(escape) =>
      if source[i] == escape && i + 2 < |source| then (HexPair(source[i+1], source[i+2]), 3) else (source[i], 1)
    case FromEscaped(escape) =>
      if source[i] == escape && i + 1 < |source| then (source[i+1], 2) else (source[i], 1)
  }

  lemma DecodingNext(d: Decoder, source: seq<Byte>, buflen: nat, srcpos: nat, out: seq<Byte>)
    requires Decoding(d, source, buflen, srcpos, out) && srcpos < |source| && |out| + 1 < buflen
    ensures
      var (b, n) := StepAt(d, source, srcpos);
      srcpos + n <= |source| && Decoding(d, source, buflen, srcpos + n, out + [b])
  {
    var (b, n) := Step(d, source[srcpos..]);
    assert source[srcpos..][n..] == source[srcpos+n..];
    var rest := Decoded(d, source[srcpos+n..], buflen - |out| - 1);
    assert out + ([b] + rest) == out + [b] + rest;
  }

  lemma DecodingEnds(d: Decoder, source: seq<Byte>, buflen: nat, srcpos: nat, out: seq<Byte>)
    requires Decoding(d, source, buflen, srcpos, out) && (srcpos == |source| || |out| + 1 >= buflen)
    ensures out == Decoded(d, source, buflen)
  {
  }

  /** A step looks only at what is still to be read. */
  lemma SameStep(d: Decoder, a: seq<Byte>, b: seq<Byte>, i: nat)
    requires i < |a| == |b| && a[i..] == b[i..]
    ensures StepAt(d, a, i) == StepAt(d, b, i)
  {
  }

  method UrlNext(source: array<Byte>, srcpos: nat, srclen: nat) returns (b: Byte, srcpos': nat)
    requires srcpos < srclen <= source.Length
    ensures (b, srcpos' - srcpos) == StepAt(FromUrl, source[..srclen], srcpos)
  {
    b := source[srcpos];
    srcpos' := srcpos + 1;
    if b == PLUS {
      b := BLANK;
    } else if b == PERCENT && srcpos' + 1 < srclen {
      b := HexPair(source[srcpos'], source[srcpos'+1]);
      srcpos' := srcpos' + 2;
    }
  }

  /** Undoes percent-encoding and reads a plus as a blank. The source may be the buffer itself. */
  method UrlDecode(buffer: array<Byte>, buflen: nat, source: array<Byte>, srclen: nat) returns (n: nat)
    requires buflen <= buffer.Length && srclen <= source.Length
    modifies buffer
    ensures buflen == 0 ==> n == 0 && buffer[..] == old(buffer[..])
    ensures buflen > 0 ==> n < buflen && Written(old(buffer[..]), buffer[..], Decoded(FromUrl, old(source[..srclen]), buflen), n)
  {
    hide Decoding, Decoded, StepAt, Written;
    if buflen == 0 {
      return 0;
    }
    ghost var src := source[..srclen];
    var srcpos, bufpos := 0, 0;
    DecodingStarts(FromUrl, src, buflen);
    while srcpos < srclen && bufpos + 1 < buflen
      invariant bufpos <= srcpos <= srclen && bufpos < buflen
      invariant Decoding(FromUrl, src, buflen, srcpos, buffer[..bufpos])
      invariant buffer[bufpos..] == old(buffer[..])[bufpos..]
      invariant source[srcpos..srclen] == src[srcpos..]
    {
      SameStep(FromUrl, src, source[..srclen], srcpos);
      DecodingNext(FromUrl, src, buflen, srcpos, buffer[..bufpos]);
      var b;
      b, srcpos := UrlNext(source, srcpos, srclen);
      PutBehind(buffer, bufpos, [b], old(buffer[..]), source, srcpos, srclen);
      bufpos := bufpos + 1;
    }
    DecodingEnds(FromUrl, src, buflen, srcpos, buffer[..bufpos]);
    Terminate(buffer, bufpos, old(buffer[..]), Decoded(FromUrl, src, buflen));
    return bufpos;
  }

  method DecodeNext(source: array<Byte>, srcpos: nat, srclen: nat, escape: Byte) returns (b: Byte, srcpos': nat)
    requires srcpos < srclen <= source.Length
    ensures (b, srcpos' - srcpos) == StepAt(FromHex(escape), source[..srclen], srcpos)
  {
    b := source[srcpos];
    srcpos' := srcpos + 1;
    if b == escape && srcpos' + 1 < srclen {
      b := HexPair(source[srcpos'], source[srcpos'+1]);
      srcpos' := srcpos' + 2;
    }
  }

  /** Undoes hex encoding with an escape character. The source may be the buffer itself. */
  method Decode(buffer: array<Byte>, buflen: nat, source: array<Byte>, srclen: nat, escape: Byte) returns (n: nat)
    requires buflen <= buffer.Length && srclen <= source.Length
    modifies buffer
    ensures buflen == 0 ==> n == 0 && buffer[..] == old(buffer[..])
    ensures buflen > 0 ==> n < buflen && Written(old(buffer[..]), buffer[..], Decoded(FromHex(escape), old(source[..srclen]), buflen), n)
  {
    hide Decoding, Decoded, StepAt, Written;
    if buflen == 0 {
      return 0;
    }
    ghost var src := source[..srclen];
    var srcpos, bufpos := 0, 0;
    DecodingStarts(FromHex(escape), src, buflen);
    while srcpos < srclen && bufpos + 1 < buflen
      invariant bufpos <= srcpos <= srclen && bufpos < buflen
      invariant Decoding(FromHex(escape), src, buflen, srcpos, buffer[..bufpos])
      invariant buffer[bufpos..] == old(buffer[..])[bufpos..]
      invariant source[srcpos..srclen] == src[srcpos..]
    {
      SameStep(FromHex(escape), src, source[..srclen], srcpos);
      DecodingNext(FromHex(escape), src, buflen, srcpos, buffer[..bufpos]);
      var b;
      b, srcpos := DecodeNext(source, srcpos, srclen, escape);
      PutBehind(buffer, bufpos, [b], old(buffer[..]), source, srcpos, srclen);
      bufpos := bufpos + 1;
    }
    DecodingEnds(FromHex(escape), src, buflen, srcpos, buffer[..bufpos]);
    Terminate(buffer, bufpos, old(buffer[..]), Decoded(FromHex(escape), src, buflen));
    return bufpos;
  }

  method UnescapeNext(source: array<Byte>, srcpos: nat, srclen: nat, escape: Byte) returns (b: Byte, srcpos': nat)
    requires srcpos < srclen <= source.Length
    ensures (b, srcpos' - srcpos) == StepAt(FromEscaped(escape), source[..srclen], srcpos)
  {
    b := source[srcpos];
    srcpos' := srcpos + 1;
    if b == escape && srcpos' < srclen {
      b := source[srcpos'];
      srcpos' := srcpos' + 1;
    }
  }

  /** Undoes plain escaping. The source may be the buffer itself. */
  method Unescape(buffer: array<Byte>, buflen: nat, source: array<Byte>, srclen: nat, escape: Byte) returns (n: nat)
    requires buflen <= buffer.Length && srclen <= source.Length
    modifies buffer
    ensures buflen == 0 ==> n == 0 && buffer[..] == old(buffer[..])
    ensures buflen > 0 ==> n < buflen && Written(old(buffer[..]), buffer[..], Decoded(FromEscaped(escape), old(source[..srclen]), buflen), n)
  {
    hide Decoding, Decoded, StepAt, Written;
    if buflen == 0 {
      return 0;
    }
    ghost var src := source[..srclen];
    var srcpos, bufpos := 0, 0;
    DecodingStarts(FromEscaped(escape), src, buflen);
    while srcpos < srclen && bufpos + 1 < buflen
      invariant bufpos <= srcpos <= srclen && bufpos < buflen
      invariant Decoding(FromEscaped(escape), src, buflen, srcpos, buffer[..bufpos])
      invariant buffer[bufpos..] == old(buffer[..])[bufpos..]
      invariant source[srcpos..srclen] == src[srcpos..]
    {
      SameStep(FromEscaped(escape), src, source[..srclen], srcpos);
      DecodingNext(FromEscaped(escape), src, buflen, srcpos, buffer[..bufpos]);
      var b;
      b, srcpos := UnescapeNext(source, srcpos, srclen, escape);
      PutBehind(buffer, bufpos, [b], old(buffer[..]), source, srcpos, srclen);
      bufpos := bufpos + 1;
    }
    DecodingEnds(FromEscaped(escape), src, buflen, srcpos, buffer[..bufpos]);
    Terminate(buffer, bufpos, old(buffer[..]), Decoded(FromEscaped(escape), src, buflen));
    return bufpos;
  }
}
