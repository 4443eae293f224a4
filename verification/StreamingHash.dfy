/** The streaming digests. SHA-256, SHA-1 and MD5 share their buffering and padding word for
    word and differ in the compression function, the starting state, the byte order of the
    length, and the encoding of the final state; those are parameters here. */
module StreamingHash {
  import opened Arithmetic
  import opened ByteCursor
  import opened ByteOrder

  const BLOCK := 64
  const BITS_MODULUS := 0x1_0000_0000_0000_0000

  datatype Algorithm<!S> = Algorithm(compress: (S, seq<byte>) -> S, iv: S, encode: S -> seq<byte>, bigEndian: bool)

  /** The compression function folded over whole blocks. */
  function Folded<S>(a: Algorithm<S>, m: seq<byte>): S
    requires |m| % BLOCK == 0
  {
    if m == [] then a.iv else a.compress(Folded(a, m[..|m| - BLOCK]), m[|m| - BLOCK..])
  }

  lemma FoldedBlock<S>(a: Algorithm<S>, m: seq<byte>, block: seq<byte>)
    requires |m| % BLOCK == 0 && |block| == BLOCK
    ensures Folded(a, m + block) == a.compress(Folded(a, m), block)
  {
    assert (m + block)[..|m + block| - BLOCK] == m && (m + block)[|m + block| - BLOCK..] == block;
  }

  /** The length in bits as eight bytes. */
  function LengthBytes(bits: nat, bigEndian: bool): (s: seq<byte>)
    ensures |s| == 8
  {
    seq(8, i requires 0 <= i < 8 => ByteOf(bits, if bigEndian then 7 - i else i))
  }

  function Zeros(n: nat): (s: seq<byte>)
    ensures |s| == n
  {
    seq(n, i => 0)
  }

  /** How many zero bytes the padding takes. */
  function ZeroCount(len: nat): (k: nat)
    ensures k < BLOCK
  {
    (119 - len % BLOCK) % BLOCK
  }

  /** It is the least count that leaves exactly eight bytes for the length. */
  lemma ZeroCountIsLeast(len: nat)
    ensures LeavesRoom(len, ZeroCount(len))
    ensures forall j: nat | j < ZeroCount(len) :: !LeavesRoom(len, j)
  {
  }

  /** With j zero bytes, exactly eight bytes are left in the last block. */
  predicate LeavesRoom(len: nat, j: nat) { (len + 1 + j) % BLOCK == 56 }

  /** The padded message: a one bit, zeros, and the length in bits modulo 2^64. */
  function Padded(m: seq<byte>, bigEndian: bool): (p: seq<byte>)
    ensures |p| % BLOCK == 0
  {
    ZeroCountIsLeast(|m|);
    m + [0x80] + Zeros(ZeroCount(|m|)) + LengthBytes(8 * |m| % BITS_MODULUS, bigEndian)
  }

  /** The length field read in its order is the length. */
  lemma LengthReads(bits: nat, bigEndian: bool)
    requires bits < BITS_MODULUS
    ensures bits == if bigEndian then BigEndian(LengthBytes(bits, true)) else LittleEndian(LengthBytes(bits, false))
  {
    hide Pow256, ByteOf, LittleBytes, LittleEndian, BigEndian;
    var little := LittleBytes(bits, 8);
    forall i | 0 <= i < 8 ensures little[i] == ByteOf(bits, i) { LittleBytesAt(bits, 8, i); }
    assert LengthBytes(bits, false) == little;
    MirrorReads(LengthBytes(bits, true), little);
    LittleRoundTrip(bits, 8);
    EightBytes();
  }

  lemma EightBytes()
    ensures Pow256(8) == BITS_MODULUS
  {
    assert Pow256(4) == 0x1_0000_0000;
    assert Pow256(6) == 0x1_0000_0000_0000;
  }

  /** The padding spelled out: whole blocks, as few as can hold it; the message, a one bit,
      zeros, and the length in the last eight bytes, in the order of the algorithm. */
  lemma PaddedIs(m: seq<byte>, bigEndian: bool)
    ensures var p, bits := Padded(m, bigEndian), 8 * |m| % BITS_MODULUS;
      && |p| % BLOCK == 0 && |m| + 9 <= |p| < |m| + 9 + BLOCK && m <= p && p[|m|] == 0x80
      && (forall k | |m| < k < |p| - 8 :: p[k] == 0)
      && bits == (if bigEndian then BigEndian(p[|p| - 8..]) else LittleEndian(p[|p| - 8..]))
  {
    var p, bits := Padded(m, bigEndian), 8 * |m| % BITS_MODULUS;
    LengthReads(bits, bigEndian);
    assert p[|p| - 8..] == LengthBytes(bits, bigEndian);
  }

  function Digest<S>(a: Algorithm<S>, m: seq<byte>): seq<byte> {
    a.encode(Folded(a, Padded(m, a.bigEndian)))
  }

  function Flatten(chunks: seq<seq<byte>>): seq<byte> {
    if chunks == [] then [] else Flatten(chunks[..|chunks| - 1]) + chunks[|chunks| - 1]
  }

  class Hasher<!S> {
    const algorithm: Algorithm<S>
    const buffer: array<byte>
    var state: S
    var bufferLen: nat
    var totalBits: nat
    ghost var absorbed: seq<byte>
    ghost var message: seq<byte>

    /** The state is the fold over the whole blocks absorbed, the buffer holds the rest of
        the message, and the counter its length in bits. */
    ghost predicate Valid()
      reads this, buffer
    {
      && buffer.Length == BLOCK && bufferLen < BLOCK
      && Folds(algorithm, absorbed, state)
      && message == absorbed + buffer[..bufferLen]
      && totalBits == 8 * |message| % BITS_MODULUS
    }

    constructor (a: Algorithm<S>)
      ensures Valid() && algorithm == a && message == [] && fresh(buffer)
    {
      algorithm := a;
      buffer := new byte[BLOCK];
      state, bufferLen, totalBits := a.iv, 0, 0;
      absorbed, message := [], [];
    }

    method Reset()
      requires buffer.Length == BLOCK
      modifies this
      ensures Valid() && message == []
    {
      state, bufferLen, totalBits := algorithm.iv, 0, 0;
      absorbed, message := [], [];
    }

    method ProcessBlock()
      requires buffer.Length == BLOCK && Folds(algorithm, absorbed, state)
      modifies `state, `absorbed
      ensures Folds(algorithm, absorbed, state) && absorbed == old(absorbed) + buffer[..]
    {
      FoldedBlock(algorithm, absorbed, buffer[..]);
      state := algorithm.compress(state, buffer[..]);
      absorbed := absorbed + buffer[..];
    }

    // Copies part of the data into the buffer
    method Copy(data: seq<byte>, from: nat, at: nat, n: nat)
      requires buffer.Length == BLOCK && at + n <= BLOCK && from + n <= |data|
      modifies buffer
      ensures buffer[..at + n] == old(buffer[..at]) + data[from..from + n]
    {
      forall k | 0 <= k < n { buffer[at + k] := data[from + k]; }
    }

    /** Adds data to the message. */
    method Update(data: seq<byte>)
      requires Valid()
      modifies this, buffer
      ensures Valid() && message == old(message) + data
    {
      hide Folds;
      totalBits := (totalBits + |data| * 8) % BITS_MODULUS;
      BitsAdd(|message|, |data|);
      var first := FillPartial(data);
      ghost var filled := absorbed + buffer[..bufferLen];
      var i := WholeBlocks(data, first);
      ghost var whole := absorbed;
      if i < |data| { StashTail(data, i); }
      Pieces(message, data, first, i, filled, whole, buffer[..bufferLen], absorbed);
      message := message + data;
    }

    /** Tops up a partly filled buffer. */
    method FillPartial(data: seq<byte>) returns (i: nat)
      requires buffer.Length == BLOCK && bufferLen < BLOCK && Folds(algorithm, absorbed, state)
      modifies `state, `absorbed, `bufferLen, buffer
      ensures i <= |data| && bufferLen < BLOCK && Folds(algorithm, absorbed, state)
      ensures absorbed + buffer[..bufferLen] == old(absorbed + buffer[..bufferLen]) + data[..i]
      ensures i == |data| || bufferLen == 0
    {
      hide Folds;
      i := 0;
      if bufferLen > 0 {
        var need := BLOCK - bufferLen;
        var take := if |data| < need then |data| else need;
        ghost var rest := buffer[..bufferLen];
        Copy(data, 0, bufferLen, take);
        bufferLen := bufferLen + take;
        i := take;
        Assoc(absorbed, rest, data[..take]);
        if bufferLen == BLOCK {
          assert buffer[..BLOCK] == buffer[..];
          ProcessBlock();
          bufferLen := 0;
        }
      }
    }

    /** Takes whole blocks straight from the data. */
    method WholeBlocks(data: seq<byte>, start: nat) returns (i: nat)
      requires buffer.Length == BLOCK && start <= |data| && bufferLen < BLOCK && Folds(algorithm, absorbed, state)
      requires start == |data| || bufferLen == 0
      modifies `state, `absorbed, buffer
      ensures start <= i <= |data| && |data| - i < BLOCK && Folds(algorithm, absorbed, state)
      ensures start == |data| ==> i == start && absorbed == old(absorbed) && buffer[..] == old(buffer[..])
      ensures start < |data| ==> absorbed == old(absorbed) + data[start..i]
    {
      hide Folds;
      i := start;
      while i + BLOCK <= |data|
        invariant start <= i <= |data| && Folds(algorithm, absorbed, state)
        invariant start == |data| ==> i == start && absorbed == old(absorbed) && buffer[..] == old(buffer[..])
        invariant absorbed == old(absorbed) + data[start..i]
      {
        Copy(data, i, 0, BLOCK);
        assert buffer[..] == buffer[..BLOCK] == data[i..i + BLOCK];
        ProcessBlock();
        Assoc(old(absorbed), data[start..i], data[i..i + BLOCK]);
        assert data[start..i] + data[i..i + BLOCK] == data[start..i + BLOCK];
        i := i + BLOCK;
      }
    }

    method StashTail(data: seq<byte>, i: nat)
      requires buffer.Length == BLOCK && i < |data| && |data| - i < BLOCK && bufferLen == 0
      modifies `bufferLen, buffer
      ensures bufferLen == |data| - i && buffer[..bufferLen] == data[i..]
    {
      var tail := |data| - i;
      Copy(data, i, 0, tail);
      bufferLen := tail;
    }

    /** Pads, and yields the digest of everything added since the last reset. The hasher is
        then as good as new. */
    method Finalize() returns (digest: seq<byte>)
      requires Valid()
      modifies this, buffer
      ensures digest == Digest(algorithm, old(message))
      ensures Valid() && message == []
    {
      PadAndFinalize();
      digest := algorithm.encode(state);
      Reset();
    }

    method ZeroUpTo(at: nat, end: nat)
      requires buffer.Length == BLOCK && at <= end <= BLOCK
      modifies buffer
      ensures buffer[..end] == old(buffer[..at]) + Zeros(end - at)
    {
      var n := at;
      while n < end
        invariant at <= n <= end && buffer[..n] == old(buffer[..at]) + Zeros(n - at)
      {
        buffer[n] := 0;
        n := n + 1;
      }
    }

    method StoreLength()
      requires buffer.Length == BLOCK
      modifies buffer
      ensures buffer[..] == old(buffer[..56]) + LengthBytes(totalBits, algorithm.bigEndian)
    {
      for i := 0 to 8
        invariant buffer[..56 + i] == old(buffer[..56]) + LengthBytes(totalBits, algorithm.bigEndian)[..i]
      {
        buffer[56 + i] := ByteOf(totalBits, if algorithm.bigEndian then 7 - i else i);
      }
      assert buffer[..] == buffer[..64];
    }

    /** Absorbs exactly the padding after the message. */
    method PadAndFinalize()
      requires Valid()
      modifies `state, `absorbed, `bufferLen, buffer
      ensures absorbed == Padded(message, algorithm.bigEndian) && Folds(algorithm, absorbed, state)
    {
      hide Folds, Zeros, LengthBytes, Padded;
      ghost var start, rest := absorbed, buffer[..bufferLen];
      FoldsWhole(algorithm, absorbed, state);
      assert [] + Zeros(56) == Zeros(56);
      buffer[bufferLen] := 0x80;
      bufferLen := bufferLen + 1;
      assert buffer[..bufferLen] == rest + [0x80];
      if bufferLen > 56 {
        FlushPadded();
        PaddedInTwo(message, start, rest, algorithm.bigEndian);
      } else {
        PaddedInOne(message, start, rest, algorithm.bigEndian);
      }
      ZeroUpTo(bufferLen, 56);
      StoreLength();
      ProcessBlock();
    }

    // No room for the length: the block is filled with zeros and absorbed first
    method FlushPadded()
      requires buffer.Length == BLOCK && 56 < bufferLen <= BLOCK && Folds(algorithm, absorbed, state)
      modifies `state, `absorbed, `bufferLen, buffer
      ensures bufferLen == 0 && Folds(algorithm, absorbed, state)
      ensures absorbed == old(absorbed) + (old(buffer[..bufferLen]) + Zeros(BLOCK - old(bufferLen)))
    {
      hide Folds, Zeros;
      ZeroUpTo(bufferLen, BLOCK);
      assert buffer[..BLOCK] == buffer[..];
      ProcessBlock();
      bufferLen := 0;
    }
  }

  ghost predicate Folds<S>(a: Algorithm<S>, m: seq<byte>, state: S) {
    |m| % BLOCK == 0 && state == Folded(a, m)
  }

  lemma FoldsWhole<S>(a: Algorithm<S>, m: seq<byte>, state: S)
    requires Folds(a, m, state)
    ensures |m| % BLOCK == 0
  {
  }

  lemma BitsAdd(m: nat, n: nat)
    ensures (8 * m % BITS_MODULUS + n * 8) % BITS_MODULUS == 8 * (m + n) % BITS_MODULUS
  {
  }

  lemma Assoc(a: seq<byte>, b: seq<byte>, c: seq<byte>)
    ensures a + (b + c) == a + b + c
  {
  }

  /** What was topped up, taken whole and stashed is the data, in order. */
  lemma Pieces(m: seq<byte>, data: seq<byte>, first: nat, i: nat, filled: seq<byte>, whole: seq<byte>,
               rest: seq<byte>, absorbed: seq<byte>)
    requires first <= i <= |data| && filled == m + data[..first] && whole == absorbed
    requires if first == |data| then filled == whole + rest
             else whole == filled + data[first..i] && rest == data[i..]
    ensures m + data == absorbed + rest
  {
    if first == |data| {
      assert data[..first] == data;
    } else {
      assert data == data[..first] + data[first..i] + data[i..];
      Assoc(m, data[..first], data[first..i]);
      Assoc(m, data[..first] + data[first..i], data[i..]);
    }
  }

  lemma ZerosNeeded(whole: nat, rest: nat)
    requires whole % BLOCK == 0 && rest < BLOCK
    ensures ZeroCount(whole + rest) == if rest < 56 then 55 - rest else 63 - rest + 56
  {
  }

  lemma PaddedInOne(m: seq<byte>, start: seq<byte>, rest: seq<byte>, bigEndian: bool)
    requires m == start + rest && |start| % BLOCK == 0 && |rest| < 56
    ensures Padded(m, bigEndian)
         == start + (rest + [0x80] + Zeros(55 - |rest|) + LengthBytes(8 * |m| % BITS_MODULUS, bigEndian))
  {
    hide Zeros, LengthBytes;
    var length := LengthBytes(8 * |m| % BITS_MODULUS, bigEndian);
    ZerosNeeded(|start|, |rest|);
    hide ZeroCount;
    Assoc(start, rest, [0x80]);
    Assoc(start, rest + [0x80], Zeros(55 - |rest|));
    Assoc(start, rest + [0x80] + Zeros(55 - |rest|), length);
  }

  lemma PaddedInTwo(m: seq<byte>, start: seq<byte>, rest: seq<byte>, bigEndian: bool)
    requires m == start + rest && |start| % BLOCK == 0 && 56 <= |rest| < BLOCK
    ensures Padded(m, bigEndian)
         == start + (rest + [0x80] + Zeros(63 - |rest|)) + (Zeros(56) + LengthBytes(8 * |m| % BITS_MODULUS, bigEndian))
  {
    ZerosAdd(63 - |rest|, 56);
    hide Zeros, LengthBytes;
    var length, first := LengthBytes(8 * |m| % BITS_MODULUS, bigEndian), rest + [0x80] + Zeros(63 - |rest|);
    ZerosNeeded(|start|, |rest|);
    hide ZeroCount;
    Assoc(start, rest, [0x80]);
    Assoc(start, rest + [0x80], Zeros(63 - |rest|));
    Assoc(m + [0x80], Zeros(63 - |rest|), Zeros(56));
    Assoc(start + first, Zeros(56), length);
  }

  lemma ZerosAdd(m: nat, n: nat)
    ensures Zeros(m + n) == Zeros(m) + Zeros(n)
  {
  }

  /** Streaming equals one shot: however a message is split, the digest is that of the
      whole, and the next message starts afresh. */
  method DigestOfChunks<S>(h: Hasher<S>, chunks: seq<seq<byte>>) returns (digest: seq<byte>)
    requires h.Valid() && h.message == []
    modifies h, h.buffer
    ensures digest == Digest(h.algorithm, Flatten(chunks))
    ensures h.Valid() && h.message == []
  {
    hide Digest;
    for i := 0 to |chunks|
      invariant h.Valid() && h.message == Flatten(chunks[..i])
    {
      assert chunks[..i + 1][..i] == chunks[..i];
      h.Update(chunks[i]);
    }
    assert chunks[..|chunks|] == chunks;
    digest := h.Finalize();
  }
}
