/** Numbers as runs of bytes, least significant first or last. */
module ByteOrder {
  import opened Arithmetic
  import opened ByteCursor

  function LittleEndian(bytes: seq<byte>): nat {
    if bytes == [] then 0 else bytes[0] + 256 * LittleEndian(bytes[1..])
  }

  function BigEndian(bytes: seq<byte>): nat {
    if bytes == [] then 0 else 256 * BigEndian(bytes[..|bytes| - 1]) + bytes[|bytes| - 1]
  }

  function LittleBytes(v: nat, size: nat): (bytes: seq<byte>)
    ensures |bytes| == size
  {
    if size == 0 then [] else [v % 256] + LittleBytes(v / 256, size - 1)
  }

  /** A value written in size bytes is read back modulo 256^size. */
  lemma {:induction false} LittleRoundTrip(v: nat, size: nat)
    ensures LittleEndian(LittleBytes(v, size)) == v % Pow256(size)
  {
    if size > 0 {
      LittleRoundTrip(v / 256, size - 1);
      assert LittleBytes(v, size)[1..] == LittleBytes(v / 256, size - 1);
      LowByteFirst(v, Pow256(size - 1));
    }
  }

  lemma LowByteFirst(v: nat, p: nat)
    requires 0 < p
    ensures v % (256 * p) == v % 256 + 256 * (v / 256 % p)
  {
    var q := v / 256;
    assert q == p * (q / p) + q % p;
    assert (256 * p) * (q / p) == 256 * (p * (q / p));
    DivIs(v, 256 * p, q / p, 256 * (q % p) + v % 256);
  }

  /** The same bytes in the other order are the same number read the other way. */
  lemma {:induction false} MirrorReads(a: seq<byte>, b: seq<byte>)
    requires |a| == |b| && forall i | 0 <= i < |a| :: a[i] == b[|b| - 1 - i]
    ensures BigEndian(a) == LittleEndian(b)
  {
    if a != [] {
      var front := a[..|a| - 1];
      assert forall i | 0 <= i < |front| :: front[i] == b[1..][|front| - 1 - i];
      MirrorReads(front, b[1..]);
    }
  }

  function ByteOf(x: nat, k: nat): byte { x / Pow256(k) % 256 }

  lemma {:induction false} LittleBytesAt(v: nat, size: nat, i: nat)
    requires i < size
    ensures LittleBytes(v, size)[i] == ByteOf(v, i)
  {
    if i > 0 {
      LittleBytesAt(v / 256, size - 1, i - 1);
      DivDiv(v, 256, Pow256(i - 1));
    }
  }
}
