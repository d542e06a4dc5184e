// Streaming MD5: a 64-byte block buffer and a bit count split over two words, fed in pieces of any size.

module Md5 {
  import opened Words
  import opened Md5Transform

  // ---------------------------------------------------------------- the digest of a whole message

  /** A word from four bytes, low byte first. */
  function Load(b: seq<Byte>, i: nat): Word32
    requires 4 * i + 4 <= |b|
  {
    b[4*i] as int + 0x100 * (b[4*i+1] as int) + 0x1_0000 * (b[4*i+2] as int) + 0x100_0000 * (b[4*i+3] as int)
  }

  function Store(w: Word32): (b: seq<Byte>)
    ensures |b| == 4
  {
    [w % 0x100, w / 0x100 % 0x100, w / 0x1_0000 % 0x100, w / 0x100_0000]
  }

  function Block(b: seq<Byte>): Words16
    requires |b| == 64
  {
    seq(16, i requires 0 <= i < 16 => Load(b, i))
  }

  function Compressed(h: Hash, b: seq<Byte>): Hash
    requires |b| == 64
  {
    Transformed(h, Block(b))
  }

  /** The transform folded over the full 64-byte blocks of a message. */
  function Fold(h: Hash, msg: seq<Byte>): Hash
    decreases |msg|
  {
    if |msg| < 64 then h else Fold(Compressed(h, msg[..64]), msg[64..])
  }

  /** The bytes behind the last full block. */
  function Rest(msg: seq<Byte>): (r: seq<Byte>)
    ensures |r| == |msg| % 64
  {
    msg[|msg| - |msg| % 64..]
  }

  function Zeros(n: nat): (z: seq<Byte>)
    ensures |z| == n
  {
    seq(n, _ => 0)
  }

  const TWO32 := 0x1_0000_0000
  const TWO64 := 0x1_0000_0000_0000_0000

  /** The message length in bits, modulo 2^64, low word first. */
  function LengthBytes(n: nat): (b: seq<Byte>)
    ensures |b| == 8
  {
    Store(8 * n % TWO64 % TWO32) + Store(8 * n % TWO64 / TWO32)
  }

  /** Sections 3.1 and 3.2 of RFC 1321: a one bit, zeros up to 56 modulo 64 bytes, then the length. */
  function Padded(msg: seq<Byte>): (p: seq<Byte>)
    ensures |p| % 64 == 0
  {
    PadFits(|msg|);
    msg + [0x80] + Zeros(PadZeros(|msg|)) + LengthBytes(|msg|)
  }

  /** The zeros that bring a message of `n` bytes and its one bit to 56 modulo 64 bytes. */
  function PadZeros(n: nat): (z: nat)
    ensures z < 64
  {
    if n % 64 <= 55 then 55 - n % 64 else 119 - n % 64
  }

  lemma PadFits(n: nat)
    ensures (n + 1 + PadZeros(n) + 8) % 64 == 0
  {
    var q, r := n / 64, n % 64;
    assert n == 64 * q + r;
    if r <= 55 {
      assert n + 1 + PadZeros(n) + 8 == 64 * (q + 1);
    } else {
      assert n + 1 + PadZeros(n) + 8 == 64 * (q + 2);
    }
  }

  function HashBytes(h: Hash): seq<Byte> {
    Store(h.a) + Store(h.b) + Store(h.c) + Store(h.d)
  }

  function Digest(msg: seq<Byte>): seq<Byte> {
    HashBytes(Fold(INIT, Padded(msg)))
  }

  /** Reading back the four bytes of a word, wherever they stand. */
  lemma LoadInvertsStore(w: Word32, front: seq<Byte>, rest: seq<Byte>)
    requires |front| % 4 == 0
    ensures Load(front + Store(w) + rest, |front| / 4) == w
  {
    var b, i := front + Store(w) + rest, |front| / 4;
    assert |front| == 4 * i;
    assert b[4*i] == Store(w)[0] && b[4*i+1] == Store(w)[1] && b[4*i+2] == Store(w)[2] && b[4*i+3] == Store(w)[3];
    WordOfBytes(w);
  }

  lemma WordOfBytes(w: Word32)
    ensures w as int == w % 0x100 + 0x100 * (w / 0x100 % 0x100) + 0x1_0000 * (w / 0x1_0000 % 0x100) + 0x100_0000 * (w / 0x100_0000)
  {
    assert w / 0x100 / 0x100 == w / 0x1_0000 && w / 0x1_0000 / 0x100 == w / 0x100_0000;
  }

  /** The lowest byte of a word comes first, in memory and in the digest. */
  lemma LowByteFirst()
    ensures Load([0x01, 0x02, 0x03, 0x04], 0) == 0x04030201
    ensures Store(0x04030201) == [0x01, 0x02, 0x03, 0x04]
  {
  }

  /** The start values of section 3.3 of RFC 1321. */
  lemma StartValues()
    ensures HashBytes(INIT) == [0x01, 0x23, 0x45, 0x67, 0x89, 0xab, 0xcd, 0xef, 0xfe, 0xdc, 0xba, 0x98, 0x76, 0x54, 0x32, 0x10]
  {
    assert Store(0x67452301) == [0x01, 0x23, 0x45, 0x67];
    assert Store(0xefcdab89) == [0x89, 0xab, 0xcd, 0xef];
    assert Store(0x98badcfe) == [0xfe, 0xdc, 0xba, 0x98];
    assert Store(0x10325476) == [0x76, 0x54, 0x32, 0x10];
  }

  /** The length bytes are the number of bits modulo 2^64, low word first. */
  lemma LengthExactly(n: nat)
    ensures Load(LengthBytes(n), 0) + 0x1_0000_0000 * Load(LengthBytes(n), 1) == 8 * n % 0x1_0000_0000_0000_0000
  {
    var all := 8 * n % TWO64;
    var lo, hi := all % TWO32, all / TWO32;
    assert [] + Store(lo) + Store(hi) == LengthBytes(n) && Store(lo) + Store(hi) + [] == LengthBytes(n);
    LoadInvertsStore(lo, [], Store(hi));
    LoadInvertsStore(hi, Store(lo), []);
  }

  /** Padding is a one bit, as many zeros as fill the block up to the length, and the length. */
  lemma PaddedExactly(msg: seq<Byte>)
    ensures
      var p := Padded(msg);
      && |p| % 64 == 0 && |msg| + 9 <= |p| < |msg| + 9 + 64
      && p[..|msg|] == msg && p[|msg|] == 0x80
      && (forall i :: |msg| < i < |p| - 8 ==> p[i] == 0)
      && p[|p|-8..] == LengthBytes(|msg|)
  {
    hide LengthBytes;
  }

  /** The words of a block are its bytes, four by four, in order. */
  lemma BlockKeepsBytes(b: seq<Byte>, i: nat)
    requires |b| == 64 && i < 16
    ensures Store(Block(b)[i]) == b[4*i..4*i+4]
  {
    var w := Block(b)[i];
    BytesOfWord(b[4*i], b[4*i+1], b[4*i+2], b[4*i+3]);
  }

  lemma BytesOfWord(b0: Byte, b1: Byte, b2: Byte, b3: Byte)
    ensures
      var w := b0 as int + 0x100 * (b1 as int) + 0x1_0000 * (b2 as int) + 0x100_0000 * (b3 as int);
      w % 0x100 == b0 && w / 0x100 % 0x100 == b1 && w / 0x1_0000 % 0x100 == b2 && w / 0x100_0000 == b3
  {
    var w := b0 as int + 0x100 * (b1 as int) + 0x1_0000 * (b2 as int) + 0x100_0000 * (b3 as int);
    assert w / 0x100 == b1 as int + 0x100 * (b2 as int) + 0x1_0000 * (b3 as int);
    assert w / 0x1_0000 == b2 as int + 0x100 * (b3 as int);
  }

  // ---------------------------------------------------------------- folding in pieces

  /** Folding a concatenation whose first part is whole blocks folds the second part on top. */
  lemma {:induction false} FoldConcat(h: Hash, a: seq<Byte>, b: seq<Byte>)
    requires |a| % 64 == 0
    ensures Fold(h, a + b) == Fold(Fold(h, a), b)
    decreases |a|
  {
    hide Compressed;
    if a == [] {
      assert a + b == b;
    } else {
      assert (a + b)[..64] == a[..64] && (a + b)[64..] == a[64..] + b;
      FoldConcat(Compressed(h, a[..64]), a[64..], b);
    }
  }

  lemma FoldOne(h: Hash, b: seq<Byte>)
    requires |b| == 64
    ensures Fold(h, b) == Compressed(h, b)
  {
    hide Compressed;
    assert b[..64] == b && b[64..] == [];
  }

  /** A message is its full blocks and its rest. */
  lemma FoldRest(h: Hash, msg: seq<Byte>)
    ensures
      var full := msg[..|msg| - |msg| % 64];
      msg == full + Rest(msg) && |full| % 64 == 0 && Fold(h, msg) == Fold(h, full)
  {
    var full := msg[..|msg| - |msg| % 64];
    FoldConcat(h, full, Rest(msg));
  }

  /** Filling up the rest of a message to a block folds that block in. */
  lemma FillBlock(h: Hash, msg: seq<Byte>, more: seq<Byte>)
    requires |msg| % 64 + |more| == 64
    ensures Fold(h, msg + more) == Compressed(Fold(h, msg), Rest(msg) + more)
    ensures |msg + more| % 64 == 0
  {
    hide Compressed, Fold;
    var full := msg[..|msg| - |msg| % 64];
    FoldRest(h, msg);
    assert msg + more == full + (Rest(msg) + more);
    FoldConcat(h, full, Rest(msg) + more);
    FoldOne(Fold(h, full), Rest(msg) + more);
  }

  lemma FoldShort(h: Hash, b: seq<Byte>)
    requires |b| < 64
    ensures Fold(h, b) == h
  {
  }

  /** Less than a block on top only adds to the rest. */
  lemma AddToRest(h: Hash, msg: seq<Byte>, more: seq<Byte>)
    requires |msg| % 64 + |more| < 64
    ensures Fold(h, msg + more) == Fold(h, msg) && Rest(msg + more) == Rest(msg) + more
  {
    hide Compressed, Fold;
    var full := msg[..|msg| - |msg| % 64];
    FoldRest(h, msg);
    assert msg + more == full + (Rest(msg) + more);
    FoldConcat(h, full, Rest(msg) + more);
    FoldShort(Fold(h, full), Rest(msg) + more);
    assert |msg + more| % 64 == |msg| % 64 + |more|;
  }

  // ---------------------------------------------------------------- the split bit count

  lemma CountBytes(lo: nat, n: nat)
    requires lo == 8 * n % TWO64 % TWO32
    ensures lo / 8 % 64 == n % 64
  {
    var total := 8 * n % TWO64;
    var q, r := 8 * n / TWO64, total / TWO32;
    assert 8 * n == q * TWO64 + total && total == r * TWO32 + lo;
    var k := n - q * 0x2000_0000_0000_0000 - r * 0x2000_0000;
    assert lo == 8 * k;
    Modulo64(n, k, q * 0x80_0000_0000_0000 + r * 0x80_0000);
  }

  lemma Modulo64(n: nat, k: nat, m: nat)
    requires n == k + 64 * m
    ensures n % 64 == k % 64 && 8 * k / 8 == k
  {
  }

  /** Adding a piece's length to the two words, with the carry detected by wrap-around, is exact modulo 2^64. */
  lemma CountAdds(lo: Word32, hi: Word32, n: nat, len: Word32)
    requires lo + TWO32 * hi == 8 * n % TWO64
    ensures
      var lo' := (lo + len * 8 % TWO32) % TWO32;
      var hi' := ((hi + (if lo' < lo then 1 else 0)) % TWO32 + len / 0x2000_0000) % TWO32;
      lo' + TWO32 * hi' == 8 * (n + len) % TWO64
  {
    var r, q := len * 8 % TWO32, len / 0x2000_0000;
    assert len * 8 == q * TWO32 + r;
    var lo' := (lo + r) % TWO32;
    var carry := if lo' < lo then 1 else 0;
    assert lo + r == lo' + carry * TWO32;
    var hi1, over1 := (hi + carry) % TWO32, (hi + carry) / TWO32;
    var hi', over := (hi1 + q) % TWO32, (hi1 + q) / TWO32;
    assert hi + carry == hi1 + TWO32 * over1 && hi1 + q == hi' + TWO32 * over;
    var was := 8 * n / TWO64;
    DivideBack(8 * (n + len), was + over1 + over, lo' + TWO32 * hi');
  }

  lemma DivideBack(x: nat, q: nat, r: nat)
    requires x == r + TWO64 * q && r < TWO64
    ensures x % TWO64 == r
  {
  }

  // ---------------------------------------------------------------- the context

  class MD5Context {
    var buf: Hash
    var bits0: Word32
    var bits1: Word32
    const block: array<Byte>

    /** The context stands for the message fed so far. */
    ghost predicate Holds(msg: seq<Byte>)
      reads this, block
    {
      && block.Length == 64
      && buf == Fold(INIT, msg)
      && block[..|msg| % 64] == Rest(msg)
      && bits0 + TWO32 * bits1 == 8 * |msg| % TWO64
    }

    constructor ()
      ensures Holds([]) && fresh(block)
    {
      hide Fold, Rest;
      NothingFed();
      block := new Byte[64](_ => 0);
      buf := INIT;
      bits0, bits1 := 0, 0;
    }

    method Copy(at: nat, data: seq<Byte>, from: nat, n: nat)
      requires at + n <= block.Length && from + n <= |data|
      modifies block
      ensures block[..at+n] == old(block[..at]) + data[from..from+n]
    {
      for i := 0 to n
        invariant block[..at+i] == old(block[..at]) + data[from..from+i]
      {
        block[at+i] := data[from+i];
        assert block[..at+i+1] == block[..at+i] + [data[from+i]];
      }
    }

    /** Runs the transform on the full buffer. */
    method TransformBlock()
      requires block.Length == 64
      modifies this`buf
      ensures buf == Compressed(old(buf), block[..])
    {
      buf := Transform(buf, Block(block[..]));
    }

    /** Adds the length of a piece to the bit count. */
    method CountBits(len: Word32, ghost n: nat)
      requires bits0 + TWO32 * bits1 == 8 * n % TWO64
      modifies this`bits0, this`bits1
      ensures bits0 + TWO32 * bits1 == 8 * (n + len) % TWO64
    {
      CountAdds(bits0, bits1, n, len);
      var t := bits0;
      bits0 := (t + len * 8 % TWO32) % TWO32;
      if bits0 < t {
        bits1 := (bits1 + 1) % TWO32;
      }
      bits1 := (bits1 + len / 0x2000_0000) % TWO32;
    }

    /** The count is exact and the buffer holds the unprocessed bytes; only the chaining state is behind. */
    method Update(data: seq<Byte>, ghost msg: seq<Byte>)
      requires Holds(msg) && |data| < TWO32
      modifies this, block
      ensures Holds(msg + data)
    {
      hide Fold, Compressed, Rest;
      var t := bits0;
      CountBytes(t, |msg|);
      CountBits(|data|, |msg|);
      t := t / 8 % 64;
      var pos := 0;
      if t != 0 {
        var room := 64 - t;
        if |data| < room {
          Copy(t, data, 0, |data|);
          AddToRest(INIT, msg, data);
          assert data[0..|data|] == data;
          return;
        }
        Copy(t, data, 0, room);
        FillBlock(INIT, msg, data[0..room]);
        assert block[..] == block[..64];
        TransformBlock();
        pos := room;
      }
      assert msg + data[0..0] == msg;
      Blocks(data, pos, msg);
    }

    /** Folds the next full block of a piece in. */
    method NextBlock(data: seq<Byte>, pos: nat, ghost msg: seq<Byte>)
      requires block.Length == 64 && pos + 64 <= |data| && |msg + data[0..pos]| % 64 == 0
      requires buf == Fold(INIT, msg + data[0..pos])
      modifies this`buf, block
      ensures buf == Fold(INIT, msg + data[0..pos+64]) && |msg + data[0..pos+64]| % 64 == 0
    {
      hide Fold, Compressed;
      Copy(0, data, pos, 64);
      FoldNext(msg + data[0..pos], data[pos..pos+64]);
      assert msg + data[0..pos] + data[pos..pos+64] == msg + data[0..pos+64];
      assert block[..] == block[..0+64] == data[pos..pos+64];
      TransformBlock();
    }

    /** Feeds the full blocks of a piece, then keeps what is left. */
    method Blocks(data: seq<Byte>, from: nat, ghost msg: seq<Byte>)
      requires block.Length == 64 && from <= |data| && |msg + data[0..from]| % 64 == 0
      requires buf == Fold(INIT, msg + data[0..from])
      requires bits0 + TWO32 * bits1 == 8 * |msg + data| % TWO64
      modifies this`buf, block
      ensures Holds(msg + data)
    {
      hide Fold, Rest;
      var pos := from;
      while |data| - pos >= 64
        invariant from <= pos <= |data| && |msg + data[0..pos]| % 64 == 0
        invariant buf == Fold(INIT, msg + data[0..pos])
      {
        NextBlock(data, pos, msg);
        pos := pos + 64;
      }
      Copy(0, data, pos, |data| - pos);
      FoldTail(msg + data[0..pos], data[pos..]);
      assert msg + data[0..pos] + data[pos..] == msg + data;
      assert data[pos..pos + (|data| - pos)] == data[pos..];
    }

    /** Pads a message whose rest leaves room for the length in its block, up to the length. */
    method PadInPlace(ghost msg: seq<Byte>, count: nat)
      requires Holds(msg) && count == |msg| % 64 <= 55
      modifies block
      ensures block[..56] == Rest(msg) + [0x80] + Zeros(55 - count)
    {
      hide Fold, Compressed, Rest;
      Copy(count, [0x80], 0, 1);
      assert [0x80][0..1] == [0x80];
      Copy(count + 1, Zeros(55 - count), 0, 55 - count);
      assert Zeros(55 - count)[0..55 - count] == Zeros(55 - count);
      assert block[..56] == block[..count+1+(55-count)];
    }

    /** Pads any other message: its last block is filled and folded in, and the next one is empty up to the length. */
    method PadAcross(ghost msg: seq<Byte>, count: nat)
      requires Holds(msg) && count == |msg| % 64 >= 56
      modifies this`buf, block
      ensures block[..56] == Zeros(56)
      ensures buf == Compressed(Fold(INIT, msg), Rest(msg) + [0x80] + Zeros(63 - count))
    {
      hide Fold, Compressed, Rest;
      Copy(count, [0x80], 0, 1);
      assert [0x80][0..1] == [0x80];
      Copy(count + 1, Zeros(63 - count), 0, 63 - count);
      assert Zeros(63 - count)[0..63 - count] == Zeros(63 - count);
      assert block[..] == block[..count+1+(63-count)];
      TransformBlock();
      Copy(0, Zeros(56), 0, 56);
      assert block[..56] == Zeros(56);
    }

    /** Pads the message and appends its length, up to the last transform. */
    method FillLastBlock(ghost msg: seq<Byte>)
      requires Holds(msg)
      modifies this`buf, block
      ensures block[..] == LastBlock(msg) && Digest(msg) == HashBytes(Compressed(buf, LastBlock(msg)))
    {
      hide Fold, Compressed, Rest, Store, LastBlock, Digest, HashBytes, LengthBytes, Zeros, INIT;
      CountBytes(bits0, |msg|);
      LengthIsCount(bits0, bits1, |msg|);
      var count := bits0 / 8 % 64;
      if 63 - count < 8 {
        PadTwoBlocks(msg);
        PadAcross(msg, count);
      } else {
        PadOneBlock(msg);
        PadInPlace(msg, count);
      }
      var length := Store(bits0) + Store(bits1);
      Copy(56, length, 0, 8);
      assert length[0..8] == length;
      assert block[..] == block[..56+8];
      LastBlockIsThere(msg);
    }

    /**
     * Pads, appends the length and returns the digest; then clears as many bytes as a pointer has. Half of the
     * digest, the count and the last block stay, and the last block is never all zero.
     */
    method Final(ghost msg: seq<Byte>) returns (digest: seq<Byte>)
      requires Holds(msg)
      modifies this`buf, block
      ensures digest == Digest(msg)
      ensures bits0 == old(bits0) && bits1 == old(bits1)
      ensures buf.a == buf.b == 0 && |digest| == 16 && digest[8..] == Store(buf.c) + Store(buf.d)
      ensures block[..] == LastBlock(msg) && exists i :: 0 <= i < 64 && block[i] != 0
    {
      hide Fold, Compressed, Rest, Store, LastBlock, Digest;
      FillLastBlock(msg);
      LastBlockIsThere(msg);
      TransformBlock();
      digest := HashBytes(buf);
      buf := buf.(a := 0, b := 0);
    }
  }

  /** The padded message's last block. */
  function LastBlock(msg: seq<Byte>): (b: seq<Byte>)
    ensures |b| == 64
  {
    var count := |msg| % 64;
    (if count >= 56 then Zeros(56) else Rest(msg) + [0x80] + Zeros(55 - count)) + LengthBytes(|msg|)
  }

  /** It holds either the padding's first byte or the low bytes of a length that is no multiple of 64 bytes. */
  lemma LastBlockIsThere(msg: seq<Byte>)
    ensures exists i :: 0 <= i < 64 && LastBlock(msg)[i] != 0
    ensures LastBlock(msg) == (if |msg| % 64 >= 56 then Zeros(56) else Rest(msg) + [0x80] + Zeros(55 - |msg| % 64)) + LengthBytes(|msg|)
  {
    hide Rest;
    var count := |msg| % 64;
    if count >= 56 {
      LengthShows(|msg|);
      var i :| 0 <= i < 2 && LengthBytes(|msg|)[i] != 0;
      assert LastBlock(msg)[56 + i] == LengthBytes(|msg|)[i];
    } else {
      assert LastBlock(msg)[count] == 0x80;
    }
  }

  lemma LengthShows(n: nat)
    requires n % 64 != 0
    ensures exists i :: 0 <= i < 2 && LengthBytes(n)[i] != 0
  {
    var low := 8 * n % TWO64 % TWO32;
    LowWord(n);
    LowBytes(low);
    assert LengthBytes(n)[0] == low % 0x100 && LengthBytes(n)[1] == low / 0x100 % 0x100;
  }

  lemma LowWord(n: nat)
    requires n % 64 != 0
    ensures 8 * n % TWO64 % TWO32 % 512 != 0
  {
    var all := 8 * n % TWO64;
    assert 8 * n == TWO64 * (8 * n / TWO64) + all;
    assert all == TWO32 * (all / TWO32) + all % TWO32;
    var low := all % TWO32;
    var q := n / 64;
    assert 8 * n == 512 * q + 8 * (n % 64);
    assert low == 512 * (q - 0x80_0000_0000_0000 * (8 * n / TWO64) - 0x80_0000 * (all / TWO32)) + 8 * (n % 64);
  }

  lemma LowBytes(low: nat)
    ensures low % 0x100 == 0 && low / 0x100 % 0x100 == 0 ==> low % 512 == 0
  {
    var high := low / 0x100;
    var top := high / 0x100;
    assert low == 0x100 * high + low % 0x100;
    assert high == 0x100 * top + high % 0x100;
    Multiple(128 * top);
    assert low == 512 * (128 * top) + (0x100 * (high % 0x100) + low % 0x100);
  }

  lemma Multiple(k: nat)
    ensures 512 * k % 512 == 0
  {
  }

  function Joined(pieces: seq<seq<Byte>>): seq<Byte> {
    if pieces == [] then [] else Joined(pieces[..|pieces|-1]) + pieces[|pieces|-1]
  }

  /** However a message is cut into pieces, the context gives the digest of the whole. */
  method DigestOfPieces(pieces: seq<seq<Byte>>) returns (digest: seq<Byte>)
    requires forall p :: p in pieces ==> |p| < TWO32
    ensures digest == Digest(Joined(pieces))
  {
    hide Digest;
    var ctx := new MD5Context();
    for i := 0 to |pieces|
      invariant fresh(ctx) && fresh(ctx.block) && ctx.Holds(Joined(pieces[..i]))
    {
      assert pieces[..i+1][..i] == pieces[..i];
      ctx.Update(pieces[i], Joined(pieces[..i]));
    }
    assert pieces[..|pieces|] == pieces;
    digest := ctx.Final(Joined(pieces));
  }

  lemma NothingFed()
    ensures Fold(INIT, []) == INIT && Rest([]) == []
  {
  }

  lemma LengthIsCount(lo: Word32, hi: Word32, n: nat)
    requires lo + TWO32 * hi == 8 * n % TWO64
    ensures LengthBytes(n) == Store(lo) + Store(hi)
  {
    assert (lo + TWO32 * hi) % TWO32 == lo && (lo + TWO32 * hi) / TWO32 == hi;
  }

  /** With at most 55 bytes over, the padding ends in the same block. */
  lemma PadOneBlock(msg: seq<Byte>)
    requires |msg| % 64 <= 55
    ensures
      var last := Rest(msg) + [0x80] + Zeros(55 - |msg| % 64) + LengthBytes(|msg|);
      |last| == 64 && Digest(msg) == HashBytes(Compressed(Fold(INIT, msg), last))
  {
    hide Fold, Compressed, Rest, HashBytes, LengthBytes, Zeros;
    var count := |msg| % 64;
    var more := [0x80] + Zeros(55 - count) + LengthBytes(|msg|);
    assert Padded(msg) == msg + more;
    FillBlock(INIT, msg, more);
    assert Rest(msg) + more == Rest(msg) + [0x80] + Zeros(55 - count) + LengthBytes(|msg|);
  }

  /** With more bytes over, it takes a second block. */
  lemma PadTwoBlocks(msg: seq<Byte>)
    requires |msg| % 64 >= 56
    ensures
      var count := |msg| % 64;
      var first, last := Rest(msg) + [0x80] + Zeros(63 - count), Zeros(56) + LengthBytes(|msg|);
      |first| == |last| == 64 && Digest(msg) == HashBytes(Compressed(Compressed(Fold(INIT, msg), first), last))
  {
    hide Fold, Compressed, Rest, HashBytes, LengthBytes;
    var count := |msg| % 64;
    var more, last := [0x80] + Zeros(63 - count), Zeros(56) + LengthBytes(|msg|);
    assert Zeros(119 - count) == Zeros(63 - count) + Zeros(56);
    assert Padded(msg) == msg + more + last;
    FillBlock(INIT, msg, more);
    FoldNext(msg + more, last);
    assert Rest(msg) + more == Rest(msg) + [0x80] + Zeros(63 - count);
  }

  lemma FoldNext(msg: seq<Byte>, more: seq<Byte>)
    requires |msg| % 64 == 0 && |more| == 64
    ensures Fold(INIT, msg + more) == Compressed(Fold(INIT, msg), more) && |msg + more| % 64 == 0
  {
    hide Compressed;
    FoldConcat(INIT, msg, more);
    FoldOne(Fold(INIT, msg), more);
  }

  lemma FoldTail(msg: seq<Byte>, more: seq<Byte>)
    requires |msg| % 64 == 0 && |more| < 64
    ensures Fold(INIT, msg + more) == Fold(INIT, msg) && Rest(msg + more) == more && |msg + more| % 64 == |more|
  {
    AddToRest(INIT, msg, more);
    assert Rest(msg) + more == more;
  }
}
