// Byte buffers as the string codecs use them: text written from the front, then a terminator.

module Buffers {
  import opened Words

  /** The buffer holds the text and its terminator, and nothing behind them changed. */
  predicate Written(before: seq<Byte>, after: seq<Byte>, text: seq<Byte>, n: nat) {
    n == |text| < |after| == |before| && after[..n] == text && after[n] == 0 && after[n+1..] == before[n+1..]
  }

  /** Writes bytes into the buffer, whose content behind them is still that of `before`. */
  method Put(buffer: array<Byte>, pos: nat, token: seq<Byte>, ghost before: seq<Byte>)
    requires pos + |token| <= buffer.Length == |before| && buffer[pos..] == before[pos..]
    modifies buffer
    ensures buffer[..pos+|token|] == old(buffer[..pos]) + token
    ensures buffer[pos+|token|..] == before[pos+|token|..]
  {
    for i := 0 to |token|
      invariant buffer[..pos+i] == old(buffer[..pos]) + token[..i]
      invariant buffer[pos+i..] == before[pos+i..]
    {
      ghost var rest := buffer[pos+i..];
      buffer[pos+i] := token[i];
      assert buffer[..pos+i+1] == buffer[..pos+i] + [token[i]];
      assert buffer[pos+i+1..] == rest[1..];
      assert before[pos+i+1..] == before[pos+i..][1..];
    }
  }

  /** Writes the terminator behind the text. */
  method Terminate(buffer: array<Byte>, pos: nat, ghost before: seq<Byte>, ghost text: seq<Byte>)
    requires pos < buffer.Length == |before| && buffer[..pos] == text && buffer[pos..] == before[pos..]
    modifies buffer
    ensures Written(before, buffer[..], text, pos)
  {
    buffer[pos] := 0;
    assert buffer[pos+1..] == before[pos..][1..];
  }

  /** As above; a source that is the same buffer keeps its bytes from `srcpos` on. */
  method PutBehind(buffer: array<Byte>, pos: nat, bytes: seq<Byte>, ghost before: seq<Byte>,
                   source: array<Byte>, srcpos: nat, srclen: nat)
    requires pos + |bytes| <= buffer.Length == |before| && buffer[pos..] == before[pos..]
    requires pos + |bytes| <= srcpos <= srclen <= source.Length
    modifies buffer
    ensures buffer[..pos+|bytes|] == old(buffer[..pos]) + bytes
    ensures buffer[pos+|bytes|..] == before[pos+|bytes|..]
    ensures source[srcpos..srclen] == old(source[srcpos..srclen])
  {
    Put(buffer, pos, bytes, before);
    if source == buffer {
      forall k | srcpos <= k < srclen ensures source[k] == old(source[k]) {
        assert source[k] == before[pos+|bytes|..][k - pos - |bytes|] == before[pos..][k - pos];
      }
    }
  }
}
