/** Writing a pattern tree in the signature format, and the proof that every tree written is
    the tree read back. */
module FlirtWriter {
  import opened Features
  import opened ByteCursor
  import opened ByteOrder
  import opened Flirt
  import opened FlirtReader

  /** The buffer holds this code at this place. */
  predicate Holds(buf: seq<byte>, pos: nat, code: seq<byte>) {
    pos + |code| <= |buf| && forall i | 0 <= i < |code| :: buf[pos + i] == code[i]
  }

  lemma HoldsBoth(buf: seq<byte>, pos: nat, a: seq<byte>, b: seq<byte>)
    requires Holds(buf, pos, a + b)
    ensures Holds(buf, pos, a) && Holds(buf, pos + |a|, b)
  {
    assert forall i | 0 <= i < |a| :: (a + b)[i] == a[i];
    assert forall i | 0 <= i < |b| :: (a + b)[|a| + i] == b[i] && buf[pos + (|a| + i)] == b[i];
  }

  lemma ByteHeld(buf: seq<byte>, pos: nat, b: byte)
    requires Holds(buf, pos, [b])
    ensures pos < |buf| && buf[pos] == b
  {
    assert buf[pos + 0] == [b][0];
  }

  lemma HoldsAround(buf: seq<byte>, pos: nat, code: seq<byte>)
    requires Holds(buf, pos, code)
    ensures buf == buf[..pos] + code + buf[pos + |code|..]
  {
    assert buf[pos..pos + |code|] == code;
  }

  lemma Vle16Held(buf: seq<byte>, pos: nat, v: nat)
    requires v < 0x8000 && Holds(buf, pos, Vle16(v))
    ensures Vle16At(buf, pos) == Some((v, |Vle16(v)|))
  {
    HoldsAround(buf, pos, Vle16(v));
    Vle16RoundTrip(v, buf[..pos], buf[pos + |Vle16(v)|..]);
  }

  lemma Vle32Held(buf: seq<byte>, pos: nat, v: nat)
    requires v < 0x1_0000_0000 && Holds(buf, pos, Vle32(v))
    ensures Vle32At(buf, pos) == Some((v, |Vle32(v)|))
  {
    HoldsAround(buf, pos, Vle32(v));
    Vle32RoundTrip(v, buf[..pos], buf[pos + |Vle32(v)|..]);
  }

  // ----- integers

  predicate FitsWord(version: nat, v: nat) { v < if version < 9 then 0x8000 else 0x1_0000_0000 }

  function Word(version: nat, v: nat): seq<byte>
    requires FitsWord(version, v)
  {
    if version < 9 then Vle16(v) else Vle32(v)
  }

  lemma WordHeld(buf: seq<byte>, version: nat, pos: nat, v: nat)
    requires FitsWord(version, v) && Holds(buf, pos, Word(version, v))
    ensures WordAt(buf, version, pos) == Some((v, pos + |Word(version, v)|))
  {
    if version < 9 { Vle16Held(buf, pos, v); } else { Vle32Held(buf, pos, v); }
  }

  function Unit(b: bool): nat { if b then 1 else 0 }

  function Flags(a: bool, b: bool, c: bool, d: bool, e: bool): (f: byte)
    ensures f < NAME_TEXT_FLOOR
  {
    Unit(a) + 2 * Unit(b) + 4 * Unit(c) + 8 * Unit(d) + 16 * Unit(e)
  }

  lemma FlagBits(a: bool, b: bool, c: bool, d: bool, e: bool)
    ensures var f: nat := Flags(a, b, c, d, e);
      (Bit(f, 0) <==> a) && (Bit(f, 1) <==> b) && (Bit(f, 2) <==> c) && (Bit(f, 3) <==> d) && (Bit(f, 4) <==> e)
  {
    var f0: nat := Flags(a, b, c, d, e);
    var f1 := Unit(b) + 2 * Unit(c) + 4 * Unit(d) + 8 * Unit(e);
    var f2 := Unit(c) + 2 * Unit(d) + 4 * Unit(e);
    var f3 := Unit(d) + 2 * Unit(e);
    assert f0 / 2 == f1 && f1 / 2 == f2 && f2 / 2 == f3 && f3 / 2 == Unit(e);
    assert (Bit(f0, 1) <==> Bit(f1, 0)) && (Bit(f0, 2) <==> Bit(f1, 1)) && (Bit(f1, 1) <==> Bit(f2, 0));
    assert (Bit(f0, 3) <==> Bit(f1, 2)) && (Bit(f1, 2) <==> Bit(f2, 1)) && (Bit(f2, 1) <==> Bit(f3, 0));
    assert (Bit(f0, 4) <==> Bit(f1, 3)) && (Bit(f1, 3) <==> Bit(f2, 2)) && (Bit(f2, 2) <==> Bit(f3, 1));
    assert Bit(f3, 1) <==> Bit(Unit(e), 0);
  }

  // ----- names

  predicate IsText(text: seq<byte>) { forall i | 0 <= i < |text| :: text[i] >= NAME_TEXT_FLOOR }

  function Gap(a: int, b: int): nat { if a < b then b - a else a - b }

  predicate FitsName(version: nat, base: int, n: Name) { FitsWord(version, Gap(n.offset, base)) && IsText(n.text) }

  function NameBytes(version: nat, base: int, n: Name, flags: byte): seq<byte>
    requires FitsName(version, base, n)
  {
    Word(version, Gap(n.offset, base)) + ([Flags(false, n.isLocal, false, false, n.offset < base)] + (n.text + [flags]))
  }

  lemma {:induction false} TextHeld(buf: seq<byte>, pos: nat, text: seq<byte>, flags: byte)
    requires IsText(text) && flags < NAME_TEXT_FLOOR && Holds(buf, pos, text + [flags])
    ensures TextAt(buf, pos) == Some((text, pos + |text|)) && buf[pos + |text|] == flags
    decreases |text|
  {
    HoldsBoth(buf, pos, text, [flags]);
    ByteHeld(buf, pos + |text|, flags);
    if text != [] {
      assert text + [flags] == [text[0]] + (text[1..] + [flags]);
      HoldsBoth(buf, pos, [text[0]], text[1..] + [flags]);
      ByteHeld(buf, pos, text[0]);
      TextHeld(buf, pos + 1, text[1..], flags);
      assert text == [text[0]] + text[1..];
    }
  }

  lemma NameHeld(buf: seq<byte>, version: nat, pos: nat, base: int, n: Name, flags: byte)
    requires FitsName(version, base, n) && flags < NAME_TEXT_FLOOR
    requires Holds(buf, pos, NameBytes(version, base, n, flags))
    ensures NameAt(buf, version, pos, base) == Some(((n, flags), pos + |NameBytes(version, base, n, flags)|))
  {
    hide Bit, Word, WordAt, TextAt, Holds, IsText, Flags;
    var w := Word(version, Gap(n.offset, base));
    var mark := Flags(false, n.isLocal, false, false, n.offset < base);
    HoldsBoth(buf, pos, w, [mark] + (n.text + [flags]));
    HoldsBoth(buf, pos + |w|, [mark], n.text + [flags]);
    WordHeld(buf, version, pos, Gap(n.offset, base));
    TextHeld(buf, pos + |w| + 1, n.text, flags);
    FlagBits(false, n.isLocal, false, false, n.offset < base);
    ByteHeld(buf, pos + |w|, mark);
  }

  predicate FitNames(version: nat, base: int, names: seq<Name>)
    decreases |names|
  {
    names == [] || (FitsName(version, base, names[0]) && FitNames(version, names[0].offset, names[1..]))
  }

  /** The last name carries the given flags, every one before it says that more follow. */
  function NamesBytes(version: nat, base: int, names: seq<Name>, last: byte): seq<byte>
    requires names != [] && FitNames(version, base, names)
    decreases |names|
  {
    if |names| == 1 then NameBytes(version, base, names[0], last)
    else NameBytes(version, base, names[0], Flags(true, false, false, false, false))
         + NamesBytes(version, names[0].offset, names[1..], last)
  }

  lemma {:induction false} NamesHeld(buf: seq<byte>, version: nat, pos: nat, base: int, names: seq<Name>, last: byte)
    requires names != [] && FitNames(version, base, names) && last < NAME_TEXT_FLOOR && !Bit(last, MORE_PUBLIC_NAMES)
    requires Holds(buf, pos, NamesBytes(version, base, names, last))
    ensures NamesAt(buf, version, pos, base) == Some(((names, last), pos + |NamesBytes(version, base, names, last)|))
    decreases |names|
  {
    hide NameAt, NameBytes, Bit;
    if |names| == 1 {
      NameHeld(buf, version, pos, base, names[0], last);
      assert names == [names[0]];
    } else {
      var more := Flags(true, false, false, false, false);
      var first := NameBytes(version, base, names[0], more);
      FlagBits(true, false, false, false, false);
      HoldsBoth(buf, pos, first, NamesBytes(version, names[0].offset, names[1..], last));
      NameHeld(buf, version, pos, base, names[0], more);
      NamesHeld(buf, version, pos + |first|, names[0].offset, names[1..], last);
      assert names == [names[0]] + names[1..];
    }
  }

  // ----- tail bytes and references

  function CountBytes(version: nat, n: nat): seq<byte>
    requires FitsCount(version, n)
  {
    if version >= 8 then Word(version, n) else []
  }

  predicate FitsCount(version: nat, n: nat) { if version >= 8 then FitsWord(version, n) else n == 1 }

  lemma CountHeld(buf: seq<byte>, version: nat, pos: nat, n: nat)
    requires FitsCount(version, n) && Holds(buf, pos, CountBytes(version, n))
    ensures CountAt(buf, version, pos) == Some((n, pos + |CountBytes(version, n)|))
  {
    if version >= 8 { WordHeld(buf, version, pos, n); }
  }

  predicate FitTails(version: nat, tails: seq<TailByte>) { forall t | t in tails :: FitsWord(version, t.offset) }

  function TailBytes(version: nat, t: TailByte): seq<byte>
    requires FitsWord(version, t.offset)
  {
    Word(version, t.offset) + [t.value]
  }

  function TailsBytes(version: nat, tails: seq<TailByte>): seq<byte>
    requires FitTails(version, tails)
  {
    if tails == [] then [] else TailsBytes(version, tails[..|tails| - 1]) + TailBytes(version, tails[|tails| - 1])
  }

  lemma TailHeld(buf: seq<byte>, version: nat, pos: nat, t: TailByte)
    requires FitsWord(version, t.offset) && Holds(buf, pos, TailBytes(version, t))
    ensures TailAt(buf, version, pos) == Some((t, pos + |TailBytes(version, t)|))
  {
    var w := Word(version, t.offset);
    hide Word, WordAt;
    HoldsBoth(buf, pos, w, [t.value]);
    WordHeld(buf, version, pos, t.offset);
    ByteHeld(buf, pos + |w|, t.value);
  }

  lemma {:induction false} TailsHeld(buf: seq<byte>, version: nat, pos: nat, tails: seq<TailByte>)
    requires FitTails(version, tails) && Holds(buf, pos, TailsBytes(version, tails))
    ensures TailsAt(buf, version, pos, |tails|) == Some((tails, pos + |TailsBytes(version, tails)|))
    decreases |tails|
  {
    hide TailAt, TailBytes;
    if tails != [] {
      var front, last := tails[..|tails| - 1], tails[|tails| - 1];
      var start := pos + |TailsBytes(version, front)|;
      HoldsBoth(buf, pos, TailsBytes(version, front), TailBytes(version, last));
      TailsHeld(buf, version, pos, front);
      TailHeld(buf, version, start, last);
      assert tails == front + [last];
    }
  }

  predicate FitsReference(version: nat, r: Reference) { FitsWord(version, r.offset) && |r.text| < 0x8000 }

  function NameLengthBytes(n: nat): seq<byte>
    requires n < 0x8000
  {
    if 0 < n < 0x100 then [n] else [0] + Vle16(n)
  }

  function ReferenceBytes(version: nat, r: Reference): seq<byte>
    requires FitsReference(version, r)
  {
    Word(version, r.offset) + (NameLengthBytes(|r.text|) + r.text)
  }

  lemma NameLengthHeld(buf: seq<byte>, pos: nat, n: nat)
    requires n < 0x8000 && Holds(buf, pos, NameLengthBytes(n))
    ensures NameLengthAt(buf, pos) == Some((n, pos + |NameLengthBytes(n)|))
  {
    if 0 < n < 0x100 {
      ByteHeld(buf, pos, n);
    } else {
      HoldsBoth(buf, pos, [0], Vle16(n));
      ByteHeld(buf, pos, 0);
      Vle16Held(buf, pos + 1, n);
    }
  }

  lemma ReferenceHeld(buf: seq<byte>, version: nat, pos: nat, r: Reference)
    requires FitsReference(version, r) && Holds(buf, pos, ReferenceBytes(version, r))
    ensures ReferenceAt(buf, version, pos) == Some((r, pos + |ReferenceBytes(version, r)|))
  {
    hide Word, WordAt, NameLengthAt, NameLengthBytes;
    var w, size := Word(version, r.offset), NameLengthBytes(|r.text|);
    HoldsBoth(buf, pos, w, size + r.text);
    HoldsBoth(buf, pos + |w|, size, r.text);
    WordHeld(buf, version, pos, r.offset);
    NameLengthHeld(buf, pos + |w|, |r.text|);
    var start := pos + |w| + |size|;
    assert buf[start..start + |r.text|] == r.text;
  }

  predicate FitReferences(version: nat, refs: seq<Reference>) { forall r | r in refs :: FitsReference(version, r) }

  function ReferencesBytes(version: nat, refs: seq<Reference>): seq<byte>
    requires FitReferences(version, refs)
  {
    if refs == [] then []
    else ReferencesBytes(version, refs[..|refs| - 1]) + ReferenceBytes(version, refs[|refs| - 1])
  }

  lemma {:induction false} ReferencesHeld(buf: seq<byte>, version: nat, pos: nat, refs: seq<Reference>)
    requires FitReferences(version, refs) && Holds(buf, pos, ReferencesBytes(version, refs))
    ensures ReferencesAt(buf, version, pos, |refs|) == Some((refs, pos + |ReferencesBytes(version, refs)|))
    decreases |refs|
  {
    hide ReferenceAt, ReferenceBytes;
    if refs != [] {
      var front, last := refs[..|refs| - 1], refs[|refs| - 1];
      var start := pos + |ReferencesBytes(version, front)|;
      HoldsBoth(buf, pos, ReferencesBytes(version, front), ReferenceBytes(version, last));
      ReferencesHeld(buf, version, pos, front);
      ReferenceHeld(buf, version, start, last);
      assert refs == front + [last];
    }
  }

  // ----- modules

  predicate FitsModule(version: nat, m: Module) {
    && FitsWord(version, m.functionSize) && m.names != [] && FitNames(version, 0, m.names)
    && FitTails(version, m.tailBytes) && (m.tailBytes != [] ==> FitsCount(version, |m.tailBytes|))
    && FitReferences(version, m.references) && (m.references != [] ==> FitsCount(version, |m.references|))
    && m.tailCrc16 < 0x1_0000 && m.tailLength < 0x100
  }

  function TailList(version: nat, m: Module): seq<byte>
    requires FitsModule(version, m)
  {
    if m.tailBytes == [] then [] else CountBytes(version, |m.tailBytes|) + TailsBytes(version, m.tailBytes)
  }

  function ReferenceList(version: nat, m: Module): seq<byte>
    requires FitsModule(version, m)
  {
    if m.references == [] then [] else CountBytes(version, |m.references|) + ReferencesBytes(version, m.references)
  }

  /** The flags that end a module: whether another of the same group, or another group, follows. */
  function ModuleFlags(m: Module, same: bool, more: bool): (f: byte)
    ensures f < NAME_TEXT_FLOOR
  {
    Flags(false, m.tailBytes != [], m.references != [], same, more)
  }

  function ModuleBytes(version: nat, m: Module, same: bool, more: bool): seq<byte>
    requires FitsModule(version, m)
  {
    Word(version, m.functionSize)
    + (NamesBytes(version, 0, m.names, ModuleFlags(m, same, more)) + (TailList(version, m) + ReferenceList(version, m)))
  }

  lemma ModuleHeld(buf: seq<byte>, version: nat, pos: nat, m: Module, same: bool, more: bool)
    requires FitsModule(version, m) && Holds(buf, pos, ModuleBytes(version, m, same, more))
    ensures ModuleAt(buf, version, pos, m.tailCrc16, m.tailLength) ==
            Some(((m, ModuleFlags(m, same, more)), pos + |ModuleBytes(version, m, same, more)|))
  {
    hide Word, WordAt, NamesAt, NamesBytes, Bit, TailsAt, TailsBytes, ReferencesAt, ReferencesBytes, CountAt,
      CountBytes, FitTails, FitReferences, FitNames, Flags;
    var flags := ModuleFlags(m, same, more);
    var w, names := Word(version, m.functionSize), NamesBytes(version, 0, m.names, flags);
    var tails, refs := TailList(version, m), ReferenceList(version, m);
    FlagBits(false, m.tailBytes != [], m.references != [], same, more);
    HoldsBoth(buf, pos, w, names + (tails + refs));
    HoldsBoth(buf, pos + |w|, names, tails + refs);
    HoldsBoth(buf, pos + |w| + |names|, tails, refs);
    WordHeld(buf, version, pos, m.functionSize);
    NamesHeld(buf, version, pos + |w|, 0, m.names, flags);
    if m.tailBytes != [] {
      TailListHeld(buf, version, pos + |w| + |names|, m);
    }
    if m.references != [] {
      ReferenceListHeld(buf, version, pos + |w| + |names| + |tails|, m);
    }
  }

  lemma TailListHeld(buf: seq<byte>, version: nat, pos: nat, m: Module)
    requires FitsModule(version, m) && m.tailBytes != [] && Holds(buf, pos, TailList(version, m))
    ensures TailListAt(buf, version, pos) == Some((m.tailBytes, pos + |TailList(version, m)|))
  {
    hide CountAt, CountBytes, TailsAt, TailsBytes, FitTails, FitNames;
    HoldsBoth(buf, pos, CountBytes(version, |m.tailBytes|), TailsBytes(version, m.tailBytes));
    CountHeld(buf, version, pos, |m.tailBytes|);
    TailsHeld(buf, version, pos + |CountBytes(version, |m.tailBytes|)|, m.tailBytes);
  }

  lemma ReferenceListHeld(buf: seq<byte>, version: nat, pos: nat, m: Module)
    requires FitsModule(version, m) && m.references != [] && Holds(buf, pos, ReferenceList(version, m))
    ensures ReferenceListAt(buf, version, pos) == Some((m.references, pos + |ReferenceList(version, m)|))
  {
    hide CountAt, CountBytes, ReferencesAt, ReferencesBytes, FitReferences, FitNames;
    HoldsBoth(buf, pos, CountBytes(version, |m.references|), ReferencesBytes(version, m.references));
    CountHeld(buf, version, pos, |m.references|);
    ReferencesHeld(buf, version, pos + |CountBytes(version, |m.references|)|, m.references);
  }

  // ----- leaves

  /** Modules that may be written as one group. */
  predicate FitsGroup(version: nat, ms: seq<Module>) {
    ms != [] && forall m | m in ms ::
      FitsModule(version, m) && m.tailCrc16 == ms[0].tailCrc16 && m.tailLength == ms[0].tailLength
  }

  function GroupBytes(version: nat, ms: seq<Module>, more: bool): seq<byte>
    requires FitsGroup(version, ms)
  {
    if |ms| == 1 then ModuleBytes(version, ms[0], false, more)
    else ModuleBytes(version, ms[0], true, false) + GroupBytes(version, ms[1..], more)
  }

  lemma {:induction false} GroupHeld(buf: seq<byte>, version: nat, pos: nat, ms: seq<Module>, more: bool)
    requires FitsGroup(version, ms) && Holds(buf, pos, GroupBytes(version, ms, more))
    ensures var r := GroupAt(buf, version, pos, ms[0].tailCrc16, ms[0].tailLength);
      && r.Some? && r.value.0.0 == ms && r.value.1 == pos + |GroupBytes(version, ms, more)|
      && (Bit(r.value.0.1, MORE_MODULES) <==> more)
    decreases |ms|
  {
    hide GroupAt, GroupBytes, ModuleBytes, FitsGroup, FitsModule, Bit;
    FirstModule(version, ms, more);
    var m, last, others := ms[0], |ms| == 1, ms[1..];
    if last {
      LastModuleHeld(buf, version, pos, m, more);
    } else {
      var first := ModuleBytes(version, m, true, false);
      HoldsBoth(buf, pos, first, GroupBytes(version, others, more));
      OneModuleHeld(buf, version, pos, m);
      GroupHeld(buf, version, pos + |first|, others, more);
    }
  }

  lemma FirstModule(version: nat, ms: seq<Module>, more: bool)
    requires FitsGroup(version, ms)
    ensures ms != []
    ensures var m, others := ms[0], ms[1..];
      && FitsModule(version, m) && ms == [m] + others
      && if |ms| == 1 then GroupBytes(version, ms, more) == ModuleBytes(version, m, false, more)
         else FitsGroup(version, others) && others[0].tailCrc16 == m.tailCrc16 && others[0].tailLength == m.tailLength
              && GroupBytes(version, ms, more) ==
                 ModuleBytes(version, m, true, false) + GroupBytes(version, others, more)
  {
    hide ModuleBytes, FitsModule;
    assert ms[0] in ms;
    if |ms| > 1 { assert ms[1] in ms; }
  }

  lemma LastModuleHeld(buf: seq<byte>, version: nat, pos: nat, m: Module, more: bool)
    requires FitsModule(version, m) && Holds(buf, pos, ModuleBytes(version, m, false, more))
    ensures var r := GroupAt(buf, version, pos, m.tailCrc16, m.tailLength);
      && r.Some? && r.value.0.0 == [m] && r.value.1 == pos + |ModuleBytes(version, m, false, more)|
      && (Bit(r.value.0.1, MORE_MODULES) <==> more)
  {
    hide ModuleAt, ModuleBytes, FitsModule, Bit, Holds, Flags;
    FlagBits(false, m.tailBytes != [], m.references != [], false, more);
    ModuleHeld(buf, version, pos, m, false, more);
  }

  /** A module that is not the last of its group, and what follows it. */
  lemma OneModuleHeld(buf: seq<byte>, version: nat, pos: nat, m: Module)
    requires FitsModule(version, m) && Holds(buf, pos, ModuleBytes(version, m, true, false))
    ensures var r := GroupAt(buf, version, pos, m.tailCrc16, m.tailLength);
      var rest := GroupAt(buf, version, pos + |ModuleBytes(version, m, true, false)|, m.tailCrc16, m.tailLength);
      rest.Some? ==> r == Some((([m] + rest.value.0.0, rest.value.0.1), rest.value.1))
  {
    hide ModuleAt, ModuleBytes, FitsModule, Bit, Flags;
    FlagBits(false, m.tailBytes != [], m.references != [], true, false);
    ModuleHeld(buf, version, pos, m, true, false);
  }

  predicate FitGroups(version: nat, groups: seq<seq<Module>>) { forall g | g in groups :: FitsGroup(version, g) }

  function Joined(groups: seq<seq<Module>>): seq<Module> {
    if groups == [] then [] else groups[0] + Joined(groups[1..])
  }

  /** The tail length of a group and its checksum, high byte first. */
  function Head(version: nat, m: Module): (head: seq<byte>)
    requires FitsModule(version, m)
    ensures |head| == 3
  {
    [m.tailLength, m.tailCrc16 / 0x100, m.tailCrc16 % 0x100]
  }

  function LeafBytes(version: nat, groups: seq<seq<Module>>): seq<byte>
    requires groups != [] && FitGroups(version, groups)
  {
    var g := groups[0];
    assert g in groups && g[0] in g;
    Head(version, g[0])
    + (GroupBytes(version, g, |groups| > 1) + (if |groups| == 1 then [] else LeafBytes(version, groups[1..])))
  }

  /** The checksum is read with its high byte first. */
  lemma LeafHeader(buf: seq<byte>, version: nat, pos: nat)
    requires LeafAt(buf, version, pos).Some?
    ensures pos + 3 <= |buf|
    ensures var m := LeafAt(buf, version, pos).value.0[0];
      m.tailLength == buf[pos] && m.tailCrc16 == BigEndian(buf[pos + 1..pos + 3])
  {
    hide Bit, WordAt, NamesAt;
    var b, hi: nat, lo: nat := buf[pos + 1..pos + 3], buf[pos + 1], buf[pos + 2];
    assert b[..1] == [b[0]] && [b[0]][..0] == [] && BigEndian([b[0]]) == b[0];
    var group := GroupAt(buf, version, pos + 3, hi * 0x100 + lo, buf[pos]);
    assert group.value.0.0[0].tailCrc16 == hi * 0x100 + lo;
  }

  /** A leaf written is the leaf read back, however its modules were grouped and whatever
      stands around it. */
  lemma {:induction false} LeafHeld(buf: seq<byte>, version: nat, pos: nat, groups: seq<seq<Module>>)
    requires groups != [] && FitGroups(version, groups) && Holds(buf, pos, LeafBytes(version, groups))
    ensures LeafAt(buf, version, pos) == Some((Joined(groups), pos + |LeafBytes(version, groups)|))
    decreases |groups|
  {
    hide GroupBytes, FitsModule, FitsGroup, FitGroups, Head, Holds, LeafAt, LeafBytes, Joined;
    var g, more, others := groups[0], |groups| > 1, groups[1..];
    FirstGroup(version, groups);
    var body := GroupBytes(version, g, more);
    var rest := if more then LeafBytes(version, others) else [];
    HoldsBoth(buf, pos, Head(version, g[0]), body + rest);
    HoldsBoth(buf, pos + 3, body, rest);
    OneGroupHeld(buf, version, pos, g, more);
    if more { LeafHeld(buf, version, pos + 3 + |body|, others); }
  }

  lemma FirstGroup(version: nat, groups: seq<seq<Module>>)
    requires groups != [] && FitGroups(version, groups)
    ensures var g, others := groups[0], groups[1..];
      && FitsGroup(version, g) && g != [] && FitsModule(version, g[0]) && FitGroups(version, others)
      && LeafBytes(version, groups) == Head(version, g[0]) +
           (GroupBytes(version, g, |groups| > 1) + (if |groups| > 1 then LeafBytes(version, others) else []))
      && Joined(groups) == if |groups| > 1 then g + Joined(others) else g
  {
    hide GroupBytes, FitsModule, Head;
    var g := groups[0];
    assert g in groups && g[0] in g && FitsModule(version, g[0]);
    if |groups| == 1 { assert Joined(groups[1..]) == [] && g + [] == g; }
  }

  /** One group of a leaf, and what follows if there is more. */
  lemma OneGroupHeld(buf: seq<byte>, version: nat, pos: nat, g: seq<Module>, more: bool)
    requires FitsGroup(version, g) && FitsModule(version, g[0])
    requires Holds(buf, pos, Head(version, g[0])) && Holds(buf, pos + 3, GroupBytes(version, g, more))
    ensures var rest := LeafAt(buf, version, pos + 3 + |GroupBytes(version, g, more)|);
      && (!more ==> LeafAt(buf, version, pos) == Some((g, pos + 3 + |GroupBytes(version, g, more)|)))
      && (more && rest.Some? ==> LeafAt(buf, version, pos) == Some((g + rest.value.0, rest.value.1)))
  {
    hide Bit, GroupAt, GroupBytes, FitsModule, Head, Holds;
    HeadHeld(buf, version, pos, g[0]);
    GroupHeld(buf, version, pos + 3, g, more);
  }

  lemma HeadHeld(buf: seq<byte>, version: nat, pos: nat, m: Module)
    requires FitsModule(version, m) && Holds(buf, pos, Head(version, m))
    ensures pos + 3 <= |buf| && buf[pos] == m.tailLength
    ensures var hi: nat, lo: nat := buf[pos + 1], buf[pos + 2]; hi * 0x100 + lo == m.tailCrc16
  {
    CrcFits(version, m);
    var head := Head(version, m);
    assert buf[pos + 0] == head[0] && buf[pos + 1] == head[1] && buf[pos + 2] == head[2];
  }

  lemma CrcFits(version: nat, m: Module)
    requires FitsModule(version, m)
    ensures m.tailCrc16 / 0x100 < 0x100 && m.tailLength < 0x100
    ensures m.tailCrc16 / 0x100 * 0x100 + m.tailCrc16 % 0x100 == m.tailCrc16
  {
  }

  // ----- segments

  /** The mask has the bit of every wildcard, the first slot's highest. */
  function MaskOf(seg: Pattern): nat {
    if seg == [] then 0 else 2 * MaskOf(seg[..|seg| - 1]) + Unit(seg[|seg| - 1].Any?)
  }

  function LiteralsOf(seg: Pattern): seq<byte> {
    if seg == [] then []
    else LiteralsOf(seg[..|seg| - 1]) + (if seg[|seg| - 1].Any? then [] else [seg[|seg| - 1].b])
  }

  lemma {:induction false} MaskBits(seg: Pattern, p: nat)
    requires p < |seg|
    ensures Bit(MaskOf(seg), |seg| - 1 - p) <==> seg[p].Any?
    decreases |seg|
  {
    var front := seg[..|seg| - 1];
    assert MaskOf(seg) / 2 == MaskOf(front);
    if p < |seg| - 1 { MaskBits(front, p); }
  }

  lemma {:induction false} MaskFits(seg: Pattern)
    requires |seg| <= MAX_PATTERN_LENGTH
    ensures MaskOf(seg) < 0x1_0000_0000 && (|seg| < 0x10 ==> MaskOf(seg) < 0x8000)
  {
    MaskBelow(seg);
    PowersOfTwo();
    assert |seg| <= 32;
    PowerGrows(|seg|, 32);
    if |seg| < 0x10 { PowerGrows(|seg|, 15); }
  }

  function Power(n: nat): nat { if n == 0 then 1 else 2 * Power(n - 1) }

  lemma {:induction false} MaskBelow(seg: Pattern)
    ensures MaskOf(seg) < Power(|seg|)
  {
    if seg != [] { MaskBelow(seg[..|seg| - 1]); }
  }

  lemma {:induction false} PowerGrows(m: nat, n: nat)
    requires m <= n
    ensures Power(m) <= Power(n)
    decreases n
  {
    if m < n { PowerGrows(m, n - 1); }
  }

  lemma PowersOfTwo()
    ensures Power(15) == 0x8000 && Power(32) == 0x1_0000_0000
  {
    assert Power(8) == 0x100;
    assert Power(16) == 0x1_0000;
    assert Power(24) == 0x100_0000;
  }

  /** The clear bits below that of slot p - 1 are the literals from p on. */
  lemma {:induction false} ClearIs(seg: Pattern, p: nat)
    requires p <= |seg|
    ensures ClearBelow(MaskOf(seg), |seg| - p) == |LiteralsOf(seg)| - |LiteralsOf(seg[..p])|
    decreases |seg| - p
  {
    hide Bit;
    if p == |seg| {
      assert seg[..p] == seg;
    } else {
      ClearIs(seg, p + 1);
      assert seg[..p + 1][..p] == seg[..p];
      MaskBits(seg, p);
    }
  }

  lemma {:induction false} LiteralPlace(seg: Pattern, p: nat)
    requires p < |seg| && seg[p].Exactly?
    ensures |LiteralsOf(seg[..p])| < |LiteralsOf(seg)| && LiteralsOf(seg)[|LiteralsOf(seg[..p])|] == seg[p].b
    decreases |seg|
  {
    var front := seg[..|seg| - 1];
    if p < |front| {
      LiteralPlace(front, p);
      assert front[..p] == seg[..p];
    }
  }

  /** The mask and the literals of a segment spell it. */
  lemma SegmentSpelled(seg: Pattern)
    ensures IsSegment(seg, MaskOf(seg), |seg|, LiteralsOf(seg))
    ensures ClearBelow(MaskOf(seg), |seg|) == |LiteralsOf(seg)|
  {
    hide Bit, ClearBelow, LiteralsOf, MaskOf;
    SpelledWhole(seg);
    forall p: nat | p < |seg| ensures SlotIs(seg[p], MaskOf(seg), |seg|, LiteralsOf(seg), p) {
      MaskBits(seg, p);
      ClearIs(seg, p);
      if seg[p].Exactly? { LiteralPlace(seg, p); }
    }
  }

  lemma SpelledWhole(seg: Pattern)
    ensures ClearBelow(MaskOf(seg), |seg|) == |LiteralsOf(seg)|
  {
    ClearIs(seg, 0);
    assert LiteralsOf(seg[..0]) == [];
  }

  function LengthBytes(version: nat, n: nat): seq<byte>
    requires n <= MAX_PATTERN_LENGTH
  {
    if version < 10 then [n] else Vle16(n)
  }

  function MaskBytes(seg: Pattern): seq<byte>
    requires |seg| <= MAX_PATTERN_LENGTH
  {
    MaskFits(seg);
    if seg == [] then [] else if |seg| < 0x10 then Vle16(MaskOf(seg)) else Vle32(MaskOf(seg))
  }

  /** A segment is written as its length, its mask and its literals. */
  function SegmentBytes(version: nat, seg: Pattern): seq<byte>
    requires |seg| <= MAX_PATTERN_LENGTH
  {
    LengthBytes(version, |seg|) + (MaskBytes(seg) + LiteralsOf(seg))
  }

  lemma LengthHeld(buf: seq<byte>, version: nat, pos: nat, n: nat)
    requires n <= MAX_PATTERN_LENGTH && Holds(buf, pos, LengthBytes(version, n))
    ensures LengthAt(buf, version, pos) == Some((n, pos + |LengthBytes(version, n)|))
  {
    if version < 10 { ByteHeld(buf, pos, n); } else { Vle16Held(buf, pos, n); }
  }

  lemma MaskHeld(buf: seq<byte>, pos: nat, seg: Pattern)
    requires |seg| <= MAX_PATTERN_LENGTH && Holds(buf, pos, MaskBytes(seg))
    ensures MaskAt(buf, |seg|, pos) == Some((MaskOf(seg), pos + |MaskBytes(seg)|))
  {
    MaskFits(seg);
    if seg != [] {
      if |seg| < 0x10 { Vle16Held(buf, pos, MaskOf(seg)); } else { Vle32Held(buf, pos, MaskOf(seg)); }
    }
  }

  lemma SegmentHeld(buf: seq<byte>, version: nat, pos: nat, prefix: Pattern, pattern: Pattern)
    requires prefix <= pattern && |pattern| <= MAX_PATTERN_LENGTH
    requires Holds(buf, pos, SegmentBytes(version, pattern[|prefix|..]))
    ensures SegmentAt(buf, version, prefix, pos, pattern, pos + |SegmentBytes(version, pattern[|prefix|..])|)
  {
    hide LengthAt, LengthBytes, MaskAt, MaskBytes, MaskOf, LiteralsOf, ClearBelow, IsSegment;
    var seg := pattern[|prefix|..];
    var length, mask, literals := LengthBytes(version, |seg|), MaskBytes(seg), LiteralsOf(seg);
    HoldsBoth(buf, pos, length, mask + literals);
    HoldsBoth(buf, pos + |length|, mask, literals);
    LengthHeld(buf, version, pos, |seg|);
    MaskHeld(buf, pos + |length|, seg);
    SegmentSpelled(seg);
    var start := pos + |length| + |mask|;
    assert buf[start..start + |literals|] == literals;
  }

  // ----- the tree

  /** A tree that can be written: what the reader builds, its modules within the format. */
  ghost predicate FitsTree(version: nat, node: Node, depth: nat) {
    && WellBuilt(node, depth) && |node.children| < 0x8000
    && (forall m | m in node.leafModules :: FitsModule(version, m))
    && forall c | c in node.children :: FitsTree(version, c, depth + 1)
  }

  /** Every module a group of its own. */
  function Apart(ms: seq<Module>): (groups: seq<seq<Module>>)
    ensures |groups| == |ms| && forall i | 0 <= i < |ms| :: groups[i] == [ms[i]]
  {
    seq(|ms|, i requires 0 <= i < |ms| => [ms[i]])
  }

  lemma {:induction false} JoinedApart(ms: seq<Module>)
    ensures Joined(Apart(ms)) == ms
  {
    if ms != [] {
      assert Apart(ms)[1..] == Apart(ms[1..]);
      JoinedApart(ms[1..]);
    }
  }

  ghost function NodeBytes(version: nat, node: Node, depth: nat): seq<byte>
    requires FitsTree(version, node, depth)
    decreases node, 1
  {
    if node.children == [] then Vle16(0) + LeafBytes(version, Apart(node.leafModules))
    else Vle16(|node.children|) + ChildrenBytes(version, node, depth, |node.children|)
  }

  ghost function ChildrenBytes(version: nat, node: Node, depth: nat, n: nat): seq<byte>
    requires FitsTree(version, node, depth) && n <= |node.children|
    decreases node, 0, n
  {
    if n == 0 then []
    else
      var child := node.children[n - 1];
      assert child in node.children && WellBuilt(child, depth + 1) && |child.pattern| <= MAX_PATTERN_LENGTH;
      ChildrenBytes(version, node, depth, n - 1)
      + (SegmentBytes(version, child.pattern[|node.pattern|..]) + NodeBytes(version, child, depth + 1))
  }

  /** A tree written is spelled where it was written, whatever stands around it. */
  lemma {:induction false} NodeHeld(buf: seq<byte>, version: nat, pos: nat, node: Node, depth: nat)
    requires FitsTree(version, node, depth) && Holds(buf, pos, NodeBytes(version, node, depth))
    ensures NodeAt(buf, version, pos, node, pos + |NodeBytes(version, node, depth)|)
    decreases node, 1
  {
    hide LeafAt, LeafBytes, FitsModule, SegmentAt, SegmentBytes;
    var n := |node.children|;
    if n == 0 {
      var groups := Apart(node.leafModules);
      HoldsBoth(buf, pos, Vle16(0), LeafBytes(version, groups));
      Vle16Held(buf, pos, 0);
      LeafHeld(buf, version, pos + 1, groups);
      JoinedApart(node.leafModules);
    } else {
      HoldsBoth(buf, pos, Vle16(n), ChildrenBytes(version, node, depth, n));
      Vle16Held(buf, pos, n);
      ChildrenHeld(buf, version, pos + |Vle16(n)|, node, depth, n);
    }
  }

  lemma {:induction false} ChildrenHeld(buf: seq<byte>, version: nat, pos: nat, node: Node, depth: nat, n: nat)
    requires FitsTree(version, node, depth) && n <= |node.children|
    requires Holds(buf, pos, ChildrenBytes(version, node, depth, n))
    ensures ChildrenAt(buf, version, pos, node, n, pos + |ChildrenBytes(version, node, depth, n)|)
    decreases node, 0, n
  {
    hide NodeBytes, NodeAt, SegmentAt, SegmentBytes, FitsModule;
    if n > 0 {
      var child := node.children[n - 1];
      assert child in node.children;
      var front := ChildrenBytes(version, node, depth, n - 1);
      var seg, sub := SegmentBytes(version, child.pattern[|node.pattern|..]), NodeBytes(version, child, depth + 1);
      HoldsBoth(buf, pos, front, seg + sub);
      HoldsBoth(buf, pos + |front|, seg, sub);
      var mid, body := pos + |front|, pos + |front| + |seg|;
      ChildrenHeld(buf, version, pos, node, depth, n - 1);
      SegmentHeld(buf, version, mid, node.pattern, child.pattern);
      NodeHeld(buf, version, body, child, depth + 1);
      assert ChildAt(buf, version, pos, node, n, mid, body, body + |sub|);
    }
  }

  /** Every tree within the limits is read back from what was written for it, whatever
      follows. */
  method ReadBack(body: seq<byte>, version: nat, ghost node: Node, ghost after: seq<byte>) returns (r: Parsed<Node>)
    requires FitsTree(version, node, 0) && node.pattern == []
    requires body == NodeBytes(version, node, 0) + after
    ensures r == Ok(node)
  {
    hide NodeAt, NodeBytes;
    ghost var end := |NodeBytes(version, node, 0)|;
    NodeHeld(body, version, 0, node, 0);
    var cur := new Cursor(body);
    r := ParseNode(cur, version, [], 0);
    assert NodeAt(body, version, 0, node, end);
    if r.Ok? { NodeIsUnique(body, version, 0, r.value, node, cur.pos, end); }
  }
}
