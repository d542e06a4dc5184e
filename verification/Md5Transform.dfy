// The MD5 block transform: the program's unrolled steps against the operations of RFC 1321.

module Md5Transform {
  import opened Words

  type Word32 = x: int | 0 <= x < 0x1_0000_0000

  /** The four-word chaining state. */
  datatype Hash = Hash(a: Word32, b: Word32, c: Word32, d: Word32)

  type Words16 = x: seq<Word32> | |x| == 16 witness seq(16, _ => 0)

  const INIT := Hash(0x67452301, 0xefcdab89, 0x98badcfe, 0x10325476)

  function Add(x: Word32, y: Word32): Word32 { (x as int + y) % 0x1_0000_0000 }

  /** Shift left within 32 bits, or-ed with the bits that fall out on the left. */
  function RotateLeft(x: Word32, s: nat): Word32
    requires s <= 32
  {
    (x * Pow2(s) + x / Pow2(32 - s)) % 0x1_0000_0000
  }

  /** Addition is that of the numbers, less 2^32 when it overflows. */
  lemma AddWraps(x: Word32, y: Word32)
    ensures Add(x, y) as int == x + y - if x + y < 0x1_0000_0000 then 0 else 0x1_0000_0000
  {
  }

  lemma {:induction false} PowersMultiply(a: nat, b: nat)
    ensures Pow2(a + b) == Pow2(a) * Pow2(b)
  {
    if a > 0 {
      PowersMultiply(a - 1, b);
    }
  }

  /** A rotation to the left: the upper `s` bits of the word become its lower bits, all others move up by `s`. */
  lemma RotateMovesUp(x: Word32, s: nat, hi: nat, lo: nat)
    requires 0 < s < 32 && x == hi * Pow2(32 - s) + lo && lo < Pow2(32 - s) && hi < Pow2(s)
    ensures RotateLeft(x, s) as int == lo * Pow2(s) + hi
  {
    PowersMultiply(s, 32 - s);
    Pow2Of32();
    hide Pow2;
    RotatedValue(x, hi, lo, Pow2(s), Pow2(32 - s));
  }

  lemma RotatedValue(x: nat, hi: nat, lo: nat, p: nat, q: nat)
    requires p * q == 0x1_0000_0000 && x == hi * q + lo && lo < q && hi < p
    ensures (x * p + x / q) % 0x1_0000_0000 == lo * p + hi
  {
    Quotient(hi, q, lo);
    RotatedProduct(hi, lo, p, q);
    BelowProduct(lo, hi, p, q);
    assert x * p + x / q == hi * 0x1_0000_0000 + (lo * p + hi);
    Multiple32(hi, lo * p + hi);
  }

  lemma Quotient(hi: nat, q: nat, lo: nat)
    requires lo < q
    ensures (hi * q + lo) / q == hi
  {
    var d := (hi * q + lo) / q;
    assert hi * q + lo == d * q + (hi * q + lo) % q;
    if d < hi {
      LessTimes(d, hi, q);
    } else if d > hi {
      LessTimes(hi, d, q);
    }
  }

  lemma LessTimes(a: nat, b: nat, q: nat)
    requires a < b
    ensures a * q + q <= b * q
  {
    assert (b - a - 1) * q >= 0;
    assert b * q == a * q + q + (b - a - 1) * q;
  }

  lemma RotatedProduct(hi: nat, lo: nat, p: nat, q: nat)
    ensures (hi * q + lo) * p == hi * (p * q) + lo * p
  {
  }

  lemma BelowProduct(lo: nat, hi: nat, p: nat, q: nat)
    requires lo < q && hi < p
    ensures lo * p + hi < p * q
  {
    LessTimes(lo, q, p);
  }

  lemma Multiple32(k: nat, r: nat)
    requires r < 0x1_0000_0000
    ensures (k * 0x1_0000_0000 + r) % 0x1_0000_0000 == r
  {
  }

  /** A boolean expression of three operands, applied to every bit of three words. */
  type BitRule = (bool, bool, bool) -> bool

  function Bits(m: BitRule, x: nat, y: nat, z: nat, n: nat): (r: nat)
    ensures r < Pow2(n)
  {
    if n == 0 then 0
    else (if m(x % 2 == 1, y % 2 == 1, z % 2 == 1) then 1 else 0) + 2 * Bits(m, x / 2, y / 2, z / 2, n - 1)
  }

  function Bitwise(m: BitRule, x: Word32, y: Word32, z: Word32): Word32 {
    assert Pow2(16) == 0x1_0000 && Pow2(32) == 0x1_0000_0000 by { Pow2Of32(); }
    Bits(m, x, y, z, 32)
  }

  lemma Pow2Of32()
    ensures Pow2(16) == 0x1_0000 && Pow2(32) == 0x1_0000_0000
  {
    assert Pow2(8) == 0x100;
    assert Pow2(16) == 0x1_0000;
    assert Pow2(24) == 0x100_0000;
    assert Pow2(32) == 0x1_0000_0000;
  }

  predicate BitOf(x: nat, k: nat) {
    x / Pow2(k) % 2 == 1
  }

  lemma BitOfHalf(x: nat, k: nat)
    requires k > 0
    ensures BitOf(x, k) == BitOf(x / 2, k - 1)
  {
    HalveFirst(x, Pow2(k - 1));
  }

  lemma HalveFirst(x: nat, p: nat)
    requires p > 0
    ensures x / (2 * p) == x / 2 / p
  {
    var q, r := x / 2 / p, x / 2 % p;
    assert x / 2 == q * p + r;
    assert x == q * (2 * p) + (2 * r + x % 2);
    Quotient(q, 2 * p, 2 * r + x % 2);
  }

  lemma BitsUnfold(m: BitRule, x: nat, y: nat, z: nat, n: nat)
    requires n > 0
    ensures Bits(m, x, y, z, n) / 2 == Bits(m, x / 2, y / 2, z / 2, n - 1)
    ensures Bits(m, x, y, z, n) % 2 == 1 <==> m(x % 2 == 1, y % 2 == 1, z % 2 == 1)
  {
  }

  lemma LowBit(x: nat)
    ensures BitOf(x, 0) <==> x % 2 == 1
  {
    assert Pow2(0) == 1;
  }

  /** The rule decides every bit of the result from the same bits of the operands. */
  lemma {:induction false} BitsFollowRule(m: BitRule, x: nat, y: nat, z: nat, n: nat, k: nat)
    requires k < n
    ensures BitOf(Bits(m, x, y, z, n), k) == m(BitOf(x, k), BitOf(y, k), BitOf(z, k))
  {
    hide BitOf, Bits;
    BitsUnfold(m, x, y, z, n);
    if k > 0 {
      BitsFollowRule(m, x / 2, y / 2, z / 2, n - 1, k - 1);
      BitOfHalf(x, k);
      BitOfHalf(y, k);
      BitOfHalf(z, k);
      BitOfHalf(Bits(m, x, y, z, n), k);
    } else {
      LowBit(x);
      LowBit(y);
      LowBit(z);
      LowBit(Bits(m, x, y, z, n));
    }
  }

  /** Section 3.4 of RFC 1321, bit by bit. */
  lemma MixIsBitwise(x: Word32, y: Word32, z: Word32, k: nat)
    requires k < 32
    ensures BitOf(Mix(0, x, y, z), k) == if BitOf(x, k) then BitOf(y, k) else BitOf(z, k)
    ensures BitOf(Mix(1, x, y, z), k) == if BitOf(z, k) then BitOf(x, k) else BitOf(y, k)
    ensures BitOf(Mix(2, x, y, z), k) == (BitOf(x, k) == (BitOf(y, k) == BitOf(z, k)))
    ensures BitOf(Mix(3, x, y, z), k) == (BitOf(y, k) != (BitOf(x, k) || !BitOf(z, k)))
  {
    BitsFollowRule(F_RULE, x, y, z, 32, k);
    BitsFollowRule(G_RULE, x, y, z, 32, k);
    BitsFollowRule(H_RULE, x, y, z, 32, k);
    BitsFollowRule(I_RULE, x, y, z, 32, k);
    hide BitOf, Bits;
  }

  /** Rules with the same truth table give the same words. */
  lemma {:induction false} SameRule(m: BitRule, m': BitRule, x: nat, y: nat, z: nat, n: nat)
    requires forall a, b, c :: m(a, b, c) == m'(a, b, c)
    ensures Bits(m, x, y, z, n) == Bits(m', x, y, z, n)
  {
    if n > 0 {
      SameRule(m, m', x / 2, y / 2, z / 2, n - 1);
    }
  }

  /** Permuting the operands permutes the rule. */
  lemma {:induction false} TurnedRule(m: BitRule, m': BitRule, x: nat, y: nat, z: nat, n: nat)
    requires forall a, b, c :: m(c, a, b) == m'(a, b, c)
    ensures Bits(m, z, x, y, n) == Bits(m', x, y, z, n)
  {
    if n > 0 {
      TurnedRule(m, m', x / 2, y / 2, z / 2, n - 1);
    }
  }

  // ---------------------------------------------------------------- section 3.4 of RFC 1321

  const F_RULE: BitRule := (x, y, z) => (x && y) || (!x && z)
  const G_RULE: BitRule := (x, y, z) => (x && z) || (y && !z)
  const H_RULE: BitRule := (x, y, z) => (x != y) != z
  const I_RULE: BitRule := (x, y, z) => y != (x || !z)

  function F(x: Word32, y: Word32, z: Word32): Word32 { Bitwise(F_RULE, x, y, z) }

  function G(x: Word32, y: Word32, z: Word32): Word32 { Bitwise(G_RULE, x, y, z) }

  function H(x: Word32, y: Word32, z: Word32): Word32 { Bitwise(H_RULE, x, y, z) }

  function I(x: Word32, y: Word32, z: Word32): Word32 { Bitwise(I_RULE, x, y, z) }

  function Mix(round: nat, x: Word32, y: Word32, z: Word32): Word32 {
    if round == 0 then F(x, y, z) else if round == 1 then G(x, y, z) else if round == 2 then H(x, y, z) else I(x, y, z)
  }

  /** The message word that operation `i` uses. */
  function WordIndex(i: nat): (k: nat)
    ensures k < 16
  {
    (if i < 16 then i else if i < 32 then 5 * i + 1 else if i < 48 then 3 * i + 5 else 7 * i) % 16
  }

  /** The rotation of operation `i`: four amounts per round, used in turn. */
  function Shift(i: nat): (s: nat)
    ensures s <= 32
  {
    var k := i % 4;
    if i < 16 then [7, 12, 17, 22][k]
    else if i < 32 then [5, 9, 14, 20][k]
    else if i < 48 then [4, 11, 16, 23][k]
    else [6, 10, 15, 21][k]
  }

  /** The table of sine constants, four to a row. */
  function SineConstant(i: nat): Word32
    requires i < 64
  {
    (
     if i < 4 then [0xd76aa478, 0xe8c7b756, 0x242070db, 0xc1bdceee]
     else if i < 8 then [0xf57c0faf, 0x4787c62a, 0xa8304613, 0xfd469501]
     else if i < 12 then [0x698098d8, 0x8b44f7af, 0xffff5bb1, 0x895cd7be]
     else if i < 16 then [0x6b901122, 0xfd987193, 0xa679438e, 0x49b40821]
     else if i < 20 then [0xf61e2562, 0xc040b340, 0x265e5a51, 0xe9b6c7aa]
     else if i < 24 then [0xd62f105d, 0x02441453, 0xd8a1e681, 0xe7d3fbc8]
     else if i < 28 then [0x21e1cde6, 0xc33707d6, 0xf4d50d87, 0x455a14ed]
     else if i < 32 then [0xa9e3e905, 0xfcefa3f8, 0x676f02d9, 0x8d2a4c8a]
     else if i < 36 then [0xfffa3942, 0x8771f681, 0x6d9d6122, 0xfde5380c]
     else if i < 40 then [0xa4beea44, 0x4bdecfa9, 0xf6bb4b60, 0xbebfbc70]
     else if i < 44 then [0x289b7ec6, 0xeaa127fa, 0xd4ef3085, 0x04881d05]
     else if i < 48 then [0xd9d4d039, 0xe6db99e5, 0x1fa27cf8, 0xc4ac5665]
     else if i < 52 then [0xf4292244, 0x432aff97, 0xab9423a7, 0xfc93a039]
     else if i < 56 then [0x655b59c3, 0x8f0ccc92, 0xffeff47d, 0x85845dd1]
     else if i < 60 then [0x6fa87e4f, 0xfe2ce6e0, 0xa3014314, 0x4e0811a1]
     else [0xf7537e82, 0xbd3af235, 0x2ad7d2bb, 0xeb86d391])[i % 4]
  }

  /** [abcd k s i]: a = b + ((a + Mix(b, c, d) + X[k] + T[i]) <<< s), after which the four words change roles. */
  function Operation(i: nat, h: Hash, x: Words16): Hash
    requires i < 64
  {
    var sum := Add(Add(Add(h.a, Mix(i / 16, h.b, h.c, h.d)), x[WordIndex(i)]), SineConstant(i));
    Hash(h.d, Add(h.b, RotateLeft(sum, Shift(i))), h.b, h.c)
  }

  function Operations(n: nat, h: Hash, x: Words16): Hash
    requires n <= 64
  {
    if n == 0 then h else Operation(n - 1, Operations(n - 1, h, x), x)
  }

  /** The state after one block. */
  function Transformed(h: Hash, x: Words16): Hash {
    var r := Operations(64, h, x);
    Hash(Add(h.a, r.a), Add(h.b, r.b), Add(h.c, r.c), Add(h.d, r.d))
  }

  // ---------------------------------------------------------------- the program's form

  /** z ^ (x & (y ^ z)) */
  const F1_RULE: BitRule := (x, y, z) => z != (x && (y != z))

  function F1(x: Word32, y: Word32, z: Word32): Word32 { Bitwise(F1_RULE, x, y, z) }

  function F2(x: Word32, y: Word32, z: Word32): Word32 { F1(z, x, y) }

  function F3(x: Word32, y: Word32, z: Word32): Word32 { Bitwise((x, y, z) => (x != y) != z, x, y, z) }

  function F4(x: Word32, y: Word32, z: Word32): Word32 { Bitwise((x, y, z) => y != (x || !z), x, y, z) }

  function CodeMix(round: nat, x: Word32, y: Word32, z: Word32): Word32 {
    if round == 0 then F1(x, y, z) else if round == 1 then F2(x, y, z) else if round == 2 then F3(x, y, z) else F4(x, y, z)
  }

  /** The rewritten round functions are the standard's. */
  lemma RewrittenMix(round: nat, x: Word32, y: Word32, z: Word32)
    ensures CodeMix(round, x, y, z) == Mix(round, x, y, z)
  {
    SameRule(F1_RULE, F_RULE, x, y, z, 32);
    TurnedRule(F1_RULE, G_RULE, x, y, z, 32);
    SameRule((x, y, z) => (x != y) != z, H_RULE, x, y, z, 32);
    SameRule((x, y, z) => y != (x || !z), I_RULE, x, y, z, 32);
  }

  /** The step macro: w += f + data, rotate, w += x. */
  function Step(w: Word32, f: Word32, x: Word32, data: Word32, s: nat): Word32
    requires s <= 32
  {
    Add(RotateLeft(Add(w, Add(f, data)), s), x)
  }

  lemma AddAssociates(a: Word32, f: Word32, k: Word32)
    ensures Add(Add(a, f), k) == Add(a, Add(f, k))
  {
    assert Add(a, f) == a + f || Add(a, f) == a + f - 0x1_0000_0000;
    assert Add(f, k) == f + k || Add(f, k) == f + k - 0x1_0000_0000;
  }

  lemma AddCommutes(x: Word32, y: Word32)
    ensures Add(x, y) == Add(y, x)
  {
  }

  lemma StepIsSum(w: Word32, f: Word32, x: Word32, k: Word32, t: Word32, s: nat)
    requires s <= 32
    ensures Step(w, f, x, Add(k, t), s) == Add(x, RotateLeft(Add(Add(Add(w, f), k), t), s))
  {
    hide RotateLeft, Add;
    AddAssociates(w, f, Add(k, t));
    AddAssociates(Add(w, f), k, t);
    AddCommutes(x, RotateLeft(Add(Add(Add(w, f), k), t), s));
  }

  /** One line of the transform, which is operation `i` of the standard. */
  method DoStep(ghost i: nat, ghost h: Hash, ghost x: Words16, w: Word32, f: Word32, p: Word32, ghost q: Word32,
                ghost r: Word32, data: Word32, s: nat) returns (w': Word32)
    requires i < 64 && Operations(i, h, x) == Hash(w, p, q, r)
    requires f == CodeMix(i / 16, p, q, r) && data == Add(x[WordIndex(i)], SineConstant(i)) && s == Shift(i)
    ensures Operations(i + 1, h, x) == Hash(r, w', p, q)
  {
    hide RotateLeft, WordIndex, SineConstant, Shift, CodeMix, Mix, Add, Step;
    w' := Step(w, f, p, data, s);
    RewrittenMix(i / 16, p, q, r);
    StepIsSum(w, f, p, x[WordIndex(i)], SineConstant(i), s);
  }

  lemma Table1a()
    ensures WordIndex(0) == 0 && SineConstant(0) == 0xd76aa478 && Shift(0) == 7
    ensures WordIndex(1) == 1 && SineConstant(1) == 0xe8c7b756 && Shift(1) == 12
    ensures WordIndex(2) == 2 && SineConstant(2) == 0x242070db && Shift(2) == 17
    ensures WordIndex(3) == 3 && SineConstant(3) == 0xc1bdceee && Shift(3) == 22
    ensures WordIndex(4) == 4 && SineConstant(4) == 0xf57c0faf && Shift(4) == 7
    ensures WordIndex(5) == 5 && SineConstant(5) == 0x4787c62a && Shift(5) == 12
    ensures WordIndex(6) == 6 && SineConstant(6) == 0xa8304613 && Shift(6) == 17
    ensures WordIndex(7) == 7 && SineConstant(7) == 0xfd469501 && Shift(7) == 22
  {
  }

  lemma Table1b()
    ensures WordIndex(8) == 8 && SineConstant(8) == 0x698098d8 && Shift(8) == 7
    ensures WordIndex(9) == 9 && SineConstant(9) == 0x8b44f7af && Shift(9) == 12
    ensures WordIndex(10) == 10 && SineConstant(10) == 0xffff5bb1 && Shift(10) == 17
    ensures WordIndex(11) == 11 && SineConstant(11) == 0x895cd7be && Shift(11) == 22
    ensures WordIndex(12) == 12 && SineConstant(12) == 0x6b901122 && Shift(12) == 7
    ensures WordIndex(13) == 13 && SineConstant(13) == 0xfd987193 && Shift(13) == 12
    ensures WordIndex(14) == 14 && SineConstant(14) == 0xa679438e && Shift(14) == 17
    ensures WordIndex(15) == 15 && SineConstant(15) == 0x49b40821 && Shift(15) == 22
  {
  }

  method Round1(x: Words16, a0: Word32, b0: Word32, c0: Word32, d0: Word32, ghost h: Hash)
      returns (a: Word32, b: Word32, c: Word32, d: Word32)
    requires Operations(0, h, x) == Hash(a0, b0, c0, d0)
    ensures Operations(16, h, x) == Hash(a, b, c, d)
  {
    hide Operations, F1, WordIndex, SineConstant, Shift, Add;
    Table1a();
    Table1b();
    a, b, c, d := a0, b0, c0, d0;
    a := DoStep(0, h, x, a, F1(b, c, d), b, c, d, Add(x[0], 0xd76aa478), 7);
    d := DoStep(1, h, x, d, F1(a, b, c), a, b, c, Add(x[1], 0xe8c7b756), 12);
    c := DoStep(2, h, x, c, F1(d, a, b), d, a, b, Add(x[2], 0x242070db), 17);
    b := DoStep(3, h, x, b, F1(c, d, a), c, d, a, Add(x[3], 0xc1bdceee), 22);
    a := DoStep(4, h, x, a, F1(b, c, d), b, c, d, Add(x[4], 0xf57c0faf), 7);
    d := DoStep(5, h, x, d, F1(a, b, c), a, b, c, Add(x[5], 0x4787c62a), 12);
    c := DoStep(6, h, x, c, F1(d, a, b), d, a, b, Add(x[6], 0xa8304613), 17);
    b := DoStep(7, h, x, b, F1(c, d, a), c, d, a, Add(x[7], 0xfd469501), 22);
    a := DoStep(8, h, x, a, F1(b, c, d), b, c, d, Add(x[8], 0x698098d8), 7);
    d := DoStep(9, h, x, d, F1(a, b, c), a, b, c, Add(x[9], 0x8b44f7af), 12);
    c := DoStep(10, h, x, c, F1(d, a, b), d, a, b, Add(x[10], 0xffff5bb1), 17);
    b := DoStep(11, h, x, b, F1(c, d, a), c, d, a, Add(x[11], 0x895cd7be), 22);
    a := DoStep(12, h, x, a, F1(b, c, d), b, c, d, Add(x[12], 0x6b901122), 7);
    d := DoStep(13, h, x, d, F1(a, b, c), a, b, c, Add(x[13], 0xfd987193), 12);
    c := DoStep(14, h, x, c, F1(d, a, b), d, a, b, Add(x[14], 0xa679438e), 17);
    b := DoStep(15, h, x, b, F1(c, d, a), c, d, a, Add(x[15], 0x49b40821), 22);
  }

  lemma Table2a()
    ensures WordIndex(16) == 1 && SineConstant(16) == 0xf61e2562 && Shift(16) == 5
    ensures WordIndex(17) == 6 && SineConstant(17) == 0xc040b340 && Shift(17) == 9
    ensures WordIndex(18) == 11 && SineConstant(18) == 0x265e5a51 && Shift(18) == 14
    ensures WordIndex(19) == 0 && SineConstant(19) == 0xe9b6c7aa && Shift(19) == 20
    ensures WordIndex(20) == 5 && SineConstant(20) == 0xd62f105d && Shift(20) == 5
    ensures WordIndex(21) == 10 && SineConstant(21) == 0x02441453 && Shift(21) == 9
    ensures WordIndex(22) == 15 && SineConstant(22) == 0xd8a1e681 && Shift(22) == 14
    ensures WordIndex(23) == 4 && SineConstant(23) == 0xe7d3fbc8 && Shift(23) == 20
  {
  }

  lemma Table2b()
    ensures WordIndex(24) == 9 && SineConstant(24) == 0x21e1cde6 && Shift(24) == 5
    ensures WordIndex(25) == 14 && SineConstant(25) == 0xc33707d6 && Shift(25) == 9
    ensures WordIndex(26) == 3 && SineConstant(26) == 0xf4d50d87 && Shift(26) == 14
    ensures WordIndex(27) == 8 && SineConstant(27) == 0x455a14ed && Shift(27) == 20
    ensures WordIndex(28) == 13 && SineConstant(28) == 0xa9e3e905 && Shift(28) == 5
    ensures WordIndex(29) == 2 && SineConstant(29) == 0xfcefa3f8 && Shift(29) == 9
    ensures WordIndex(30) == 7 && SineConstant(30) == 0x676f02d9 && Shift(30) == 14
    ensures WordIndex(31) == 12 && SineConstant(31) == 0x8d2a4c8a && Shift(31) == 20
  {
  }

  method Round2(x: Words16, a0: Word32, b0: Word32, c0: Word32, d0: Word32, ghost h: Hash)
      returns (a: Word32, b: Word32, c: Word32, d: Word32)
    requires Operations(16, h, x) == Hash(a0, b0, c0, d0)
    ensures Operations(32, h, x) == Hash(a, b, c, d)
  {
    hide Operations, F2, WordIndex, SineConstant, Shift, Add;
    Table2a();
    Table2b();
    a, b, c, d := a0, b0, c0, d0;
    a := DoStep(16, h, x, a, F2(b, c, d), b, c, d, Add(x[1], 0xf61e2562), 5);
    d := DoStep(17, h, x, d, F2(a, b, c), a, b, c, Add(x[6], 0xc040b340), 9);
    c := DoStep(18, h, x, c, F2(d, a, b), d, a, b, Add(x[11], 0x265e5a51), 14);
    b := DoStep(19, h, x, b, F2(c, d, a), c, d, a, Add(x[0], 0xe9b6c7aa), 20);
    a := DoStep(20, h, x, a, F2(b, c, d), b, c, d, Add(x[5], 0xd62f105d), 5);
    d := DoStep(21, h, x, d, F2(a, b, c), a, b, c, Add(x[10], 0x02441453), 9);
    c := DoStep(22, h, x, c, F2(d, a, b), d, a, b, Add(x[15], 0xd8a1e681), 14);
    b := DoStep(23, h, x, b, F2(c, d, a), c, d, a, Add(x[4], 0xe7d3fbc8), 20);
    a := DoStep(24, h, x, a, F2(b, c, d), b, c, d, Add(x[9], 0x21e1cde6), 5);
    d := DoStep(25, h, x, d, F2(a, b, c), a, b, c, Add(x[14], 0xc33707d6), 9);
    c := DoStep(26, h, x, c, F2(d, a, b), d, a, b, Add(x[3], 0xf4d50d87), 14);
    b := DoStep(27, h, x, b, F2(c, d, a), c, d, a, Add(x[8], 0x455a14ed), 20);
    a := DoStep(28, h, x, a, F2(b, c, d), b, c, d, Add(x[13], 0xa9e3e905), 5);
    d := DoStep(29, h, x, d, F2(a, b, c), a, b, c, Add(x[2], 0xfcefa3f8), 9);
    c := DoStep(30, h, x, c, F2(d, a, b), d, a, b, Add(x[7], 0x676f02d9), 14);
    b := DoStep(31, h, x, b, F2(c, d, a), c, d, a, Add(x[12], 0x8d2a4c8a), 20);
  }

  lemma Table3a()
    ensures WordIndex(32) == 5 && SineConstant(32) == 0xfffa3942 && Shift(32) == 4
    ensures WordIndex(33) == 8 && SineConstant(33) == 0x8771f681 && Shift(33) == 11
    ensures WordIndex(34) == 11 && SineConstant(34) == 0x6d9d6122 && Shift(34) == 16
    ensures WordIndex(35) == 14 && SineConstant(35) == 0xfde5380c && Shift(35) == 23
    ensures WordIndex(36) == 1 && SineConstant(36) == 0xa4beea44 && Shift(36) == 4
    ensures WordIndex(37) == 4 && SineConstant(37) == 0x4bdecfa9 && Shift(37) == 11
    ensures WordIndex(38) == 7 && SineConstant(38) == 0xf6bb4b60 && Shift(38) == 16
    ensures WordIndex(39) == 10 && SineConstant(39) == 0xbebfbc70 && Shift(39) == 23
  {
  }

  lemma Table3b()
    ensures WordIndex(40) == 13 && SineConstant(40) == 0x289b7ec6 && Shift(40) == 4
    ensures WordIndex(41) == 0 && SineConstant(41) == 0xeaa127fa && Shift(41) == 11
    ensures WordIndex(42) == 3 && SineConstant(42) == 0xd4ef3085 && Shift(42) == 16
    ensures WordIndex(43) == 6 && SineConstant(43) == 0x04881d05 && Shift(43) == 23
    ensures WordIndex(44) == 9 && SineConstant(44) == 0xd9d4d039 && Shift(44) == 4
    ensures WordIndex(45) == 12 && SineConstant(45) == 0xe6db99e5 && Shift(45) == 11
    ensures WordIndex(46) == 15 && SineConstant(46) == 0x1fa27cf8 && Shift(46) == 16
    ensures WordIndex(47) == 2 && SineConstant(47) == 0xc4ac5665 && Shift(47) == 23
  {
  }

  method Round3(x: Words16, a0: Word32, b0: Word32, c0: Word32, d0: Word32, ghost h: Hash)
      returns (a: Word32, b: Word32, c: Word32, d: Word32)
    requires Operations(32, h, x) == Hash(a0, b0, c0, d0)
    ensures Operations(48, h, x) == Hash(a, b, c, d)
  {
    hide Operations, F3, WordIndex, SineConstant, Shift, Add;
    Table3a();
    Table3b();
    a, b, c, d := a0, b0, c0, d0;
    a := DoStep(32, h, x, a, F3(b, c, d), b, c, d, Add(x[5], 0xfffa3942), 4);
    d := DoStep(33, h, x, d, F3(a, b, c), a, b, c, Add(x[8], 0x8771f681), 11);
    c := DoStep(34, h, x, c, F3(d, a, b), d, a, b, Add(x[11], 0x6d9d6122), 16);
    b := DoStep(35, h, x, b, F3(c, d, a), c, d, a, Add(x[14], 0xfde5380c), 23);
    a := DoStep(36, h, x, a, F3(b, c, d), b, c, d, Add(x[1], 0xa4beea44), 4);
    d := DoStep(37, h, x, d, F3(a, b, c), a, b, c, Add(x[4], 0x4bdecfa9), 11);
    c := DoStep(38, h, x, c, F3(d, a, b), d, a, b, Add(x[7], 0xf6bb4b60), 16);
    b := DoStep(39, h, x, b, F3(c, d, a), c, d, a, Add(x[10], 0xbebfbc70), 23);
    a := DoStep(40, h, x, a, F3(b, c, d), b, c, d, Add(x[13], 0x289b7ec6), 4);
    d := DoStep(41, h, x, d, F3(a, b, c), a, b, c, Add(x[0], 0xeaa127fa), 11);
    c := DoStep(42, h, x, c, F3(d, a, b), d, a, b, Add(x[3], 0xd4ef3085), 16);
    b := DoStep(43, h, x, b, F3(c, d, a), c, d, a, Add(x[6], 0x04881d05), 23);
    a := DoStep(44, h, x, a, F3(b, c, d), b, c, d, Add(x[9], 0xd9d4d039), 4);
    d := DoStep(45, h, x, d, F3(a, b, c), a, b, c, Add(x[12], 0xe6db99e5), 11);
    c := DoStep(46, h, x, c, F3(d, a, b), d, a, b, Add(x[15], 0x1fa27cf8), 16);
    b := DoStep(47, h, x, b, F3(c, d, a), c, d, a, Add(x[2], 0xc4ac5665), 23);
  }

  lemma Table4a()
    ensures WordIndex(48) == 0 && SineConstant(48) == 0xf4292244 && Shift(48) == 6
    ensures WordIndex(49) == 7 && SineConstant(49) == 0x432aff97 && Shift(49) == 10
    ensures WordIndex(50) == 14 && SineConstant(50) == 0xab9423a7 && Shift(50) == 15
    ensures WordIndex(51) == 5 && SineConstant(51) == 0xfc93a039 && Shift(51) == 21
    ensures WordIndex(52) == 12 && SineConstant(52) == 0x655b59c3 && Shift(52) == 6
    ensures WordIndex(53) == 3 && SineConstant(53) == 0x8f0ccc92 && Shift(53) == 10
    ensures WordIndex(54) == 10 && SineConstant(54) == 0xffeff47d && Shift(54) == 15
    ensures WordIndex(55) == 1 && SineConstant(55) == 0x85845dd1 && Shift(55) == 21
  {
  }

  lemma Table4b()
    ensures WordIndex(56) == 8 && SineConstant(56) == 0x6fa87e4f && Shift(56) == 6
    ensures WordIndex(57) == 15 && SineConstant(57) == 0xfe2ce6e0 && Shift(57) == 10
    ensures WordIndex(58) == 6 && SineConstant(58) == 0xa3014314 && Shift(58) == 15
    ensures WordIndex(59) == 13 && SineConstant(59) == 0x4e0811a1 && Shift(59) == 21
    ensures WordIndex(60) == 4 && SineConstant(60) == 0xf7537e82 && Shift(60) == 6
    ensures WordIndex(61) == 11 && SineConstant(61) == 0xbd3af235 && Shift(61) == 10
    ensures WordIndex(62) == 2 && SineConstant(62) == 0x2ad7d2bb && Shift(62) == 15
    ensures WordIndex(63) == 9 && SineConstant(63) == 0xeb86d391 && Shift(63) == 21
  {
  }

  method Round4(x: Words16, a0: Word32, b0: Word32, c0: Word32, d0: Word32, ghost h: Hash)
      returns (a: Word32, b: Word32, c: Word32, d: Word32)
    requires Operations(48, h, x) == Hash(a0, b0, c0, d0)
    ensures Operations(64, h, x) == Hash(a, b, c, d)
  {
    hide Operations, F4, WordIndex, SineConstant, Shift, Add;
    Table4a();
    Table4b();
    a, b, c, d := a0, b0, c0, d0;
    a := DoStep(48, h, x, a, F4(b, c, d), b, c, d, Add(x[0], 0xf4292244), 6);
    d := DoStep(49, h, x, d, F4(a, b, c), a, b, c, Add(x[7], 0x432aff97), 10);
    c := DoStep(50, h, x, c, F4(d, a, b), d, a, b, Add(x[14], 0xab9423a7), 15);
    b := DoStep(51, h, x, b, F4(c, d, a), c, d, a, Add(x[5], 0xfc93a039), 21);
    a := DoStep(52, h, x, a, F4(b, c, d), b, c, d, Add(x[12], 0x655b59c3), 6);
    d := DoStep(53, h, x, d, F4(a, b, c), a, b, c, Add(x[3], 0x8f0ccc92), 10);
    c := DoStep(54, h, x, c, F4(d, a, b), d, a, b, Add(x[10], 0xffeff47d), 15);
    b := DoStep(55, h, x, b, F4(c, d, a), c, d, a, Add(x[1], 0x85845dd1), 21);
    a := DoStep(56, h, x, a, F4(b, c, d), b, c, d, Add(x[8], 0x6fa87e4f), 6);
    d := DoStep(57, h, x, d, F4(a, b, c), a, b, c, Add(x[15], 0xfe2ce6e0), 10);
    c := DoStep(58, h, x, c, F4(d, a, b), d, a, b, Add(x[6], 0xa3014314), 15);
    b := DoStep(59, h, x, b, F4(c, d, a), c, d, a, Add(x[13], 0x4e0811a1), 21);
    a := DoStep(60, h, x, a, F4(b, c, d), b, c, d, Add(x[4], 0xf7537e82), 6);
    d := DoStep(61, h, x, d, F4(a, b, c), a, b, c, Add(x[11], 0xbd3af235), 10);
    c := DoStep(62, h, x, c, F4(d, a, b), d, a, b, Add(x[2], 0x2ad7d2bb), 15);
    b := DoStep(63, h, x, b, F4(c, d, a), c, d, a, Add(x[9], 0xeb86d391), 21);
  }

  /** The transform adds the result of the four rounds to the state. */
  method Transform(h: Hash, x: Words16) returns (r: Hash)
    ensures r == Transformed(h, x)
  {
    hide Operation, Add;
    assert Operations(0, h, x) == h;
    hide Operations;
    var a, b, c, d := Round1(x, h.a, h.b, h.c, h.d, h);
    a, b, c, d := Round2(x, a, b, c, d, h);
    a, b, c, d := Round3(x, a, b, c, d, h);
    a, b, c, d := Round4(x, a, b, c, d, h);
    r := Hash(Add(h.a, a), Add(h.b, b), Add(h.c, c), Add(h.d, d));
  }
}
