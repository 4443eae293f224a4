/** The emulator's address space: read-only regions under a bounded overlay of writes. */
module EmulatorMemory {
  import opened Arithmetic
  import opened Features
  import opened ByteCursor
  import opened ByteOrder

  const TAINT_BYTE: byte := 0x61
  const STACK_FILL: byte := 0xFE

  datatype Perm = CanRead | CanWrite | CanExec

  datatype Region = Region(base: nat, size: nat, perms: set<Perm>, bytes: seq<byte>, isFill: bool)

  type Overlay = map<nat, byte>

  predicate Contains(r: Region, va: nat) { r.base <= va < r.base + r.size }

  /** The first region that holds va. */
  function FindMap(regions: seq<Region>, va: nat): (r: Option<Region>)
    ensures r.Some? ==> r.value in regions && Contains(r.value, va)
    ensures r.None? ==> forall x | x in regions :: !Contains(x, va)
  {
    if regions == [] then None
    else if Contains(regions[0], va) then Some(regions[0])
    else FindMap(regions[1..], va)
  }

  /** The whole range lies in the region of its first byte, which grants the permission. */
  predicate Probe(regions: seq<Region>, va: nat, size: nat, perm: Perm) {
    var r := FindMap(regions, va);
    r.Some? && va + size <= r.value.base + r.value.size && perm in r.value.perms
  }

  /** Region k is the first to hold va. */
  predicate FirstHolds(regions: seq<Region>, va: nat, k: nat) {
    k < |regions| && Contains(regions[k], va) && forall j | 0 <= j < k :: !Contains(regions[j], va)
  }

  lemma {:induction false} FindMapIs(regions: seq<Region>, va: nat, k: nat)
    requires FirstHolds(regions, va, k)
    ensures FindMap(regions, va) == Some(regions[k])
  {
    if k > 0 { FindMapIs(regions[1..], va, k - 1); }
  }

  /** A range may be accessed exactly if the first region with its first byte has all of its
      bytes and grants the access; of a region that overlaps it later nothing is asked. */
  lemma ProbeIs(regions: seq<Region>, va: nat, size: nat, perm: Perm)
    requires size > 0
    ensures Probe(regions, va, size, perm) <==>
            exists k: nat :: FirstHolds(regions, va, k) && perm in regions[k].perms
              && forall a | va <= a < va + size :: Contains(regions[k], a)
  {
    if Probe(regions, va, size, perm) {
      var k := FirstOf(regions, va);
      FindMapIs(regions, va, k);
    }
    if k: nat :| FirstHolds(regions, va, k) && perm in regions[k].perms
                 && forall a | va <= a < va + size :: Contains(regions[k], a) {
      FindMapIs(regions, va, k);
      assert Contains(regions[k], va + size - 1);
    }
  }

  lemma {:induction false} FirstOf(regions: seq<Region>, va: nat) returns (k: nat)
    requires FindMap(regions, va).Some?
    ensures FirstHolds(regions, va, k)
  {
    if Contains(regions[0], va) { return 0; }
    k := FirstOf(regions[1..], va);
    k := k + 1;
  }

  function BackingByte(r: Region, va: nat): byte
    requires r.base <= va
  {
    if r.isFill || va - r.base >= |r.bytes| then STACK_FILL else r.bytes[va - r.base]
  }

  /** What a read of a range gives. */
  function Contents(regions: seq<Region>, overlay: Overlay, va: nat, size: nat): (out: seq<byte>)
    ensures |out| == size
  {
    if size == 0 then []
    else if !Probe(regions, va, size, CanRead) then seq(size, i => TAINT_BYTE)
    else
      BytesAt(FindMap(regions, va).value, overlay, va, size)
  }

  function BytesAt(r: Region, overlay: Overlay, va: nat, n: nat): (out: seq<byte>)
    requires r.base <= va
    ensures |out| == n
  {
    if n == 0 then [] else BytesAt(r, overlay, va, n - 1) + [ByteAt(r, overlay, va + n - 1)]
  }

  function ByteAt(r: Region, overlay: Overlay, va: nat): byte
    requires r.base <= va
  {
    if va in overlay then overlay[va] else BackingByte(r, va)
  }

  /** The overlay with a run of bytes stored over it. */
  function Stored(overlay: Overlay, va: nat, bytes: seq<byte>): Overlay {
    if bytes == [] then overlay
    else var n := |bytes| - 1; Stored(overlay, va, bytes[..n])[va + n := bytes[n]]
  }

  lemma {:induction false} StoredAt(overlay: Overlay, va: nat, bytes: seq<byte>, a: nat)
    ensures va <= a < va + |bytes| ==> a in Stored(overlay, va, bytes) && Stored(overlay, va, bytes)[a] == bytes[a - va]
    ensures !(va <= a < va + |bytes|) ==> (a in Stored(overlay, va, bytes) <==> a in overlay)
    ensures !(va <= a < va + |bytes|) && a in overlay ==> Stored(overlay, va, bytes)[a] == overlay[a]
  {
    if bytes != [] { StoredAt(overlay, va, bytes[..|bytes| - 1], a); }
  }

  /** A stored run is read back; bytes outside it read as before. */
  lemma StoredIsRead(regions: seq<Region>, overlay: Overlay, va: nat, bytes: seq<byte>, at: nat, size: nat)
    requires Probe(regions, va, |bytes|, CanRead) && bytes != []
    ensures Contents(regions, Stored(overlay, va, bytes), va, |bytes|) == bytes
    ensures at + size <= va || va + |bytes| <= at ==>
      Contents(regions, Stored(overlay, va, bytes), at, size) == Contents(regions, overlay, at, size)
  {
    StoredHere(FindMap(regions, va).value, overlay, va, bytes, |bytes|);
    assert bytes[..|bytes|] == bytes;
    if (at + size <= va || va + |bytes| <= at) && Probe(regions, at, size, CanRead) {
      StoredElsewhere(FindMap(regions, at).value, overlay, va, bytes, at, size);
    }
  }

  lemma {:induction false} StoredHere(r: Region, overlay: Overlay, va: nat, bytes: seq<byte>, n: nat)
    requires r.base <= va && n <= |bytes|
    ensures BytesAt(r, Stored(overlay, va, bytes), va, n) == bytes[..n]
  {
    if n > 0 {
      StoredHere(r, overlay, va, bytes, n - 1);
      StoredAt(overlay, va, bytes, va + n - 1);
    }
  }

  lemma {:induction false} StoredElsewhere(r: Region, overlay: Overlay, va: nat, bytes: seq<byte>, at: nat, n: nat)
    requires r.base <= at && (at + n <= va || va + |bytes| <= at)
    ensures BytesAt(r, Stored(overlay, va, bytes), at, n) == BytesAt(r, overlay, at, n)
  {
    if n > 0 {
      StoredElsewhere(r, overlay, va, bytes, at, n - 1);
      StoredAt(overlay, va, bytes, at + n - 1);
    }
  }

  /** A value stored in size bytes is read back modulo 256^size. */
  lemma ValueIsRead(regions: seq<Region>, overlay: Overlay, va: nat, v: nat, size: nat)
    requires Probe(regions, va, size, CanRead) && size > 0
    ensures LittleEndian(Contents(regions, Stored(overlay, va, LittleBytes(v, size)), va, size)) == v % Pow256(size)
  {
    StoredIsRead(regions, overlay, va, LittleBytes(v, size), va, 0);
    LittleRoundTrip(v, size);
  }

  /** Every byte of a readable range: what was stored there, else the region's own byte, else
      the filler. */
  lemma {:induction false} ContentsAt(regions: seq<Region>, overlay: Overlay, va: nat, size: nat, i: nat)
    requires i < size && Probe(regions, va, size, CanRead)
    ensures var r, out := FindMap(regions, va).value, Contents(regions, overlay, va, size);
      && (va + i in overlay ==> out[i] == overlay[va + i])
      && (va + i !in overlay && !r.isFill && va + i < r.base + |r.bytes| ==> out[i] == r.bytes[va + i - r.base])
      && (va + i !in overlay && (r.isFill || va + i >= r.base + |r.bytes|) ==> out[i] == STACK_FILL)
  {
    BytesAtIs(FindMap(regions, va).value, overlay, va, size, i);
  }

  lemma {:induction false} BytesAtIs(r: Region, overlay: Overlay, va: nat, n: nat, i: nat)
    requires r.base <= va && i < n
    ensures BytesAt(r, overlay, va, n)[i] == ByteAt(r, overlay, va + i)
  {
    if i < n - 1 { BytesAtIs(r, overlay, va, n - 1, i); }
  }

  /** A range that is not readable reads as the taint byte throughout. */
  lemma TaintedAt(regions: seq<Region>, overlay: Overlay, va: nat, size: nat, i: nat)
    requires i < size && !Probe(regions, va, size, CanRead)
    ensures Contents(regions, overlay, va, size)[i] == TAINT_BYTE
  {
  }

  // ----- the memory

  /** Bytes land one by one, in order, until a new one finds the overlay full. */
  function Filled(overlay: Overlay, cap: nat, va: nat, bytes: seq<byte>): Overlay
    decreases |bytes|
  {
    if bytes == [] || (va !in overlay && |overlay| >= cap) then overlay
    else Filled(overlay[va := bytes[0]], cap, va + 1, bytes[1..])
  }

  /** What a write leaves: nothing lands unless the whole range is writable. */
  function Written(regions: seq<Region>, overlay: Overlay, cap: nat, va: nat, bytes: seq<byte>): Overlay {
    if bytes != [] && Probe(regions, va, |bytes|, CanWrite) then Filled(overlay, cap, va, bytes) else overlay
  }

  lemma FilledOne(overlay: Overlay, cap: nat, va: nat, bytes: seq<byte>, i: nat)
    requires i < |bytes|
    ensures Filled(overlay, cap, va + i, bytes[i..]) ==
      if va + i !in overlay && |overlay| >= cap then overlay
      else Filled(overlay[va + i := bytes[i]], cap, va + i + 1, bytes[i + 1..])
  {
    assert bytes[i..][1..] == bytes[i + 1..];
  }

  lemma StoredOne(was: Overlay, va: nat, bytes: seq<byte>, i: nat)
    requires i < |bytes|
    ensures Stored(was, va, bytes[..i + 1]) == Stored(was, va, bytes[..i])[va + i := bytes[i]]
  {
    assert bytes[..i + 1][..i] == bytes[..i];
  }

  lemma NothingStored(was: Overlay, va: nat, bytes: seq<byte>)
    ensures Stored(was, va, bytes[..0]) == was && bytes[0..] == bytes
  {
  }

  lemma AllStored(overlay: Overlay, cap: nat, va: nat, bytes: seq<byte>)
    ensures bytes[..|bytes|] == bytes && Filled(overlay, cap, va, bytes[|bytes|..]) == overlay
  {
  }

  lemma OneMoreKey(overlay: Overlay, cap: nat, va: nat, b: byte)
    requires |overlay| <= cap && (va in overlay || |overlay| < cap)
    ensures |overlay[va := b]| <= cap
  {
    assert overlay[va := b].Keys == overlay.Keys + {va};
    assert va in overlay ==> overlay[va := b].Keys == overlay.Keys;
  }

  class SandboxMemory {
    const overlayCap: nat
    var regions: seq<Region>
    var overlay: Overlay

    /** The overlay never outgrows its cap. */
    predicate Valid()
      reads this
    {
      |overlay| <= overlayCap
    }

    constructor (cap: nat)
      ensures Valid() && overlayCap == cap && regions == [] && overlay == map[]
    {
      overlayCap, regions, overlay := cap, [], map[];
    }

    method ReadBytes(va: nat, size: nat) returns (out: seq<byte>)
      ensures out == Contents(regions, overlay, va, size)
    {
      if size == 0 { return []; }
      if !Probe(regions, va, size, CanRead) { return seq(size, i => TAINT_BYTE); }
      var r := FindMap(regions, va).value;
      out := [];
      for i := 0 to size
        invariant out == BytesAt(r, overlay, va, i)
      {
        out := out + [ByteAt(r, overlay, va + i)];
      }
    }

    /** Stores a prefix of the bytes: all of them, unless the range is not writable or the
        overlay fills up. */
    method Write(va: nat, bytes: seq<byte>) returns (ghost n: nat)
      requires Valid()
      modifies `overlay
      ensures Valid() && n <= |bytes| && overlay == Stored(old(overlay), va, bytes[..n])
      ensures n < |bytes| ==> (n == 0 && !Probe(regions, va, |bytes|, CanWrite)) || |overlay| == overlayCap
      ensures n > 0 ==> Probe(regions, va, |bytes|, CanWrite)
      ensures overlay == Written(regions, old(overlay), overlayCap, va, bytes)
    {
      hide Filled, Stored, Probe;
      n := 0;
      NothingStored(overlay, va, bytes);
      if bytes == [] || !Probe(regions, va, |bytes|, CanWrite) { return; }
      for i := 0 to |bytes|
        invariant n == i && |overlay| <= overlayCap && overlay == Stored(old(overlay), va, bytes[..i])
        invariant Filled(overlay, overlayCap, va + i, bytes[i..]) == Filled(old(overlay), overlayCap, va, bytes)
      {
        FilledOne(overlay, overlayCap, va, bytes, i);
        StoredOne(old(overlay), va, bytes, i);
        if va + i !in overlay {
          if |overlay| >= overlayCap { return; }
        }
        OneMoreKey(overlay, overlayCap, va + i, bytes[i]);
        overlay := overlay[va + i := bytes[i]];
        n := i + 1;
      }
      AllStored(overlay, overlayCap, va + |bytes|, bytes);
    }

    /** The number at an address, least significant byte first, of at most eight bytes. */
    method ReadValue(va: nat, size: nat) returns (value: nat)
      ensures value == LittleEndian(Contents(regions, overlay, va, size)[..if size < 8 then size else 8])
    {
      var bytes := ReadBytes(va, size);
      var limit := if |bytes| < 8 then |bytes| else 8;
      value := 0;
      var i := limit;
      while i > 0
        invariant 0 <= i <= limit && value == LittleEndian(bytes[i..limit])
      {
        i := i - 1;
        assert bytes[i..limit][1..] == bytes[i + 1..limit];
        value := bytes[i] + 256 * value;
      }
      assert bytes[0..limit] == bytes[..limit];
    }

    method WriteValue(va: nat, value: nat, size: nat)
      requires Valid() && size <= 8
      modifies `overlay
      ensures Valid() && overlay == Written(regions, old(overlay), overlayCap, va, LittleBytes(value, size))
    {
      var bytes: seq<byte> := [];
      for i := 0 to size
        invariant |bytes| == i && forall k | 0 <= k < i :: bytes[k] == LittleBytes(value, size)[k]
        invariant overlay == old(overlay)
      {
        LittleBytesAt(value, size, i);
        bytes := bytes + [ByteOf(value, i)];
      }
      assert bytes == LittleBytes(value, size);
      ghost var n := Write(va, bytes);
    }

    /** Restoring a snapshot undoes every write since it was taken. */
    method Restore(snapshot: Overlay)
      requires |snapshot| <= overlayCap
      modifies `overlay
      ensures Valid() && overlay == snapshot
    {
      overlay := snapshot;
    }
  }

  /** Write, then anything, then restore: every read is as it was before. */
  method Undo(mem: SandboxMemory, writes: seq<(nat, seq<byte>)>)
    requires mem.Valid()
    modifies mem`overlay
    ensures mem.Valid() && mem.overlay == old(mem.overlay)
    ensures forall va, size ::
      Contents(mem.regions, mem.overlay, va, size) == old(Contents(mem.regions, mem.overlay, va, size))
  {
    var snapshot := mem.overlay;
    for i := 0 to |writes|
      invariant mem.Valid()
    {
      ghost var n := mem.Write(writes[i].0, writes[i].1);
    }
    mem.Restore(snapshot);
  }
}
