/** The bounds-checked cursor over a signature buffer, and its variable-length integers. */
module ByteCursor {
  import opened Features

  type byte = b: int | 0 <= b < 256

  function At(buf: seq<byte>, i: nat): (b: int)
    requires i < |buf|
    ensures 0 <= b < 256
  {
    buf[i]
  }

  /** A variable-length integer of at most 15 bits at a place: its value and its size. */
  function Vle16At(buf: seq<byte>, pos: nat): Option<(nat, nat)> {
    if pos + 1 > |buf| then None
    else if At(buf, pos) < 0x80 then Some((At(buf, pos), 1))
    else if pos + 2 > |buf| then None
    else Some((At(buf, pos) % 0x80 * 0x100 + At(buf, pos + 1), 2))
  }

  /** One of at most 32 bits: the top bits of the first byte select 1, 2, 4 or 5 bytes. */
  function Vle32At(buf: seq<byte>, pos: nat): Option<(nat, nat)> {
    if pos + 1 > |buf| then None
    else if At(buf, pos) < 0x80 then Some((At(buf, pos), 1))
    else if At(buf, pos) < 0xC0 then
      if pos + 2 > |buf| then None else Some((At(buf, pos) % 0x80 * 0x100 + At(buf, pos + 1), 2))
    else if At(buf, pos) < 0xE0 then
      if pos + 4 > |buf| then None
      else Some((At(buf, pos) % 0x40 * 0x100_0000 + At(buf, pos + 1) * 0x1_0000 + At(buf, pos + 2) * 0x100 +
        At(buf, pos + 3), 4))
    else if pos + 5 > |buf| then None
    else Some((At(buf, pos + 1) * 0x100_0000 + At(buf, pos + 2) * 0x1_0000 + At(buf, pos + 3) * 0x100 +
      At(buf, pos + 4), 5))
  }

  /** The shortest encodings. */
  function Vle16(v: nat): seq<byte>
    requires v < 0x8000
  {
    if v < 0x80 then [v] else [0x80 + v / 0x100, v % 0x100]
  }

  function Vle32(v: nat): seq<byte>
    requires v < 0x1_0000_0000
  {
    if v < 0x80 then [v]
    else if v < 0x4000 then [0x80 + v / 0x100, v % 0x100]
    else if v < 0x2000_0000 then [0xC0 + v / 0x100_0000, v / 0x1_0000 % 0x100, v / 0x100 % 0x100, v % 0x100]
    else [0xE0, v / 0x100_0000, v / 0x1_0000 % 0x100, v / 0x100 % 0x100, v % 0x100]
  }

  /** What is encoded is read back, whatever follows. */
  lemma Vle16RoundTrip(v: nat, before: seq<byte>, after: seq<byte>)
    requires v < 0x8000
    ensures Vle16At(before + Vle16(v) + after, |before|) == Some((v, |Vle16(v)|))
  {
    EncodedAt(before, Vle16(v), after);
  }

  lemma Vle32RoundTrip(v: nat, before: seq<byte>, after: seq<byte>)
    requires v < 0x1_0000_0000
    ensures Vle32At(before + Vle32(v) + after, |before|) == Some((v, |Vle32(v)|))
  {
    EncodedAt(before, Vle32(v), after);
    BytesOf(v);
  }

  lemma EncodedAt(before: seq<byte>, code: seq<byte>, after: seq<byte>)
    ensures forall i | 0 <= i < |code| :: (before + code + after)[|before| + i] == code[i]
  {
  }

  lemma BytesOf(v: nat)
    ensures v == v / 0x100_0000 * 0x100_0000 + v / 0x1_0000 % 0x100 * 0x1_0000 + v / 0x100 % 0x100 * 0x100 + v % 0x100
  {
    assert v / 0x1_0000 == v / 0x100 / 0x100 && v / 0x100_0000 == v / 0x100 / 0x100 / 0x100;
  }

  class Cursor {
    const buf: seq<byte>
    var pos: nat

    ghost predicate Valid()
      reads this
    {
      pos <= |buf|
    }

    constructor (b: seq<byte>)
      ensures Valid() && buf == b && pos == 0
    {
      buf, pos := b, 0;
    }

    predicate Remaining(n: nat)
      reads this
    {
      pos + n <= |buf|
    }

    /** Every read either fails and stays where it is, or takes exactly what it read. */
    method ReadU8() returns (ok: bool, out: byte)
      requires Valid()
      modifies this
      ensures Valid() && (ok <==> old(pos) < |buf|)
      ensures if ok then pos == old(pos) + 1 && out == buf[old(pos)] else pos == old(pos)
    {
      if !Remaining(1) { return false, 0; }
      out := buf[pos];
      pos := pos + 1;
      ok := true;
    }

    method ReadVle16() returns (ok: bool, out: nat)
      requires Valid()
      modifies this
      ensures Valid() && ok == Vle16At(buf, old(pos)).Some?
      ensures if ok then out == Vle16At(buf, old(pos)).value.0 && pos == old(pos) + Vle16At(buf, old(pos)).value.1
              else pos == old(pos)
    {
      if !Remaining(1) { return false, 0; }
      var b0 := At(buf, pos);
      if b0 / 0x80 == 0 {
        pos := pos + 1;
        return true, b0;
      }
      if !Remaining(2) { return false, 0; }
      out := b0 % 0x80 * 0x100 + At(buf, pos + 1);
      pos := pos + 2;
      ok := true;
    }

    method ReadVle32() returns (ok: bool, out: nat)
      requires Valid()
      modifies this
      ensures Valid() && ok == Vle32At(buf, old(pos)).Some?
      ensures if ok then out == Vle32At(buf, old(pos)).value.0 && pos == old(pos) + Vle32At(buf, old(pos)).value.1
              else pos == old(pos)
    {
      if !Remaining(1) { return false, 0; }
      var b0 := At(buf, pos);
      if b0 / 0x80 % 2 != 1 {
        pos := pos + 1;
        return true, b0;
      }
      if b0 / 0x40 != 3 {
        if !Remaining(2) { return false, 0; }
        out := b0 % 0x80 * 0x100 + At(buf, pos + 1);
        pos := pos + 2;
        return true, out;
      }
      if b0 / 0x20 != 7 {
        if !Remaining(4) { return false, 0; }
        out := b0 % 0x40 * 0x100_0000 + At(buf, pos + 1) * 0x1_0000 + At(buf, pos + 2) * 0x100 + At(buf, pos + 3);
        pos := pos + 4;
        return true, out;
      }
      if !Remaining(5) { return false, 0; }
      out := At(buf, pos + 1) * 0x100_0000 + At(buf, pos + 2) * 0x1_0000 + At(buf, pos + 3) * 0x100 + At(buf, pos + 4);
      pos := pos + 5;
      ok := true;
    }

    method ReadBytes(n: nat) returns (ok: bool, out: seq<byte>)
      requires Valid()
      modifies this
      ensures Valid() && (ok <==> old(pos) + n <= |buf|)
      ensures if ok then pos == old(pos) + n && out == buf[old(pos)..old(pos) + n] else pos == old(pos) && out == []
    {
      if !Remaining(n) { return false, []; }
      out := buf[pos..pos + n];
      pos := pos + n;
      ok := true;
    }
  }
}
