/** Reading a signature body into a pattern tree: the format, place by place, and the reader
    that follows it. */
module FlirtReader {
  import opened Features
  import opened ByteCursor
  import opened Flirt

  datatype ErrorKind = Truncated | TooDeep | BadNode

  datatype Parsed<T> = Ok(value: T) | Err(kind: ErrorKind, context: string)

  /** Bit k of a word. */
  predicate Bit(word: nat, k: nat) {
    if k == 0 then word % 2 == 1 else Bit(word / 2, k - 1)
  }

  const MORE_PUBLIC_NAMES := 0
  const TAIL_BYTES := 1
  const REFERENCED_FUNCTIONS := 2
  const MORE_MODULES_WITH_SAME_CRC := 3
  const MORE_MODULES := 4

  const NAME_TEXT_FLOOR := 0x20
  const NAME_LOCAL := 1
  const NAME_NEGATIVE_OFFSET := 4

  // ----- the format, as what a place in the buffer holds and where it ends

  type At<T> = Option<(T, nat)>

  /** Counts and offsets take 15 bits before version 9 and 32 from then on. */
  function WordAt(buf: seq<byte>, version: nat, pos: nat): (r: At<nat>)
    ensures r.Some? ==> pos < r.value.1 <= |buf|
  {
    var v := if version < 9 then Vle16At(buf, pos) else Vle32At(buf, pos);
    if v.None? then None else Some((v.value.0, pos + v.value.1))
  }

  /** The text from pos on, up to the first control byte. */
  function TextAt(buf: seq<byte>, pos: nat): (r: At<seq<byte>>)
    ensures r.Some? ==> pos <= r.value.1 < |buf| && buf[r.value.1] < NAME_TEXT_FLOOR
    decreases |buf| - pos
  {
    if pos >= |buf| then None
    else if buf[pos] < NAME_TEXT_FLOOR then Some(([], pos))
    else
      var rest := TextAt(buf, pos + 1);
      if rest.None? then None else Some(([buf[pos]] + rest.value.0, rest.value.1))
  }

  /** A name record: its offset counted from the one before, an optional flag byte, its text,
      and the parsing flags that end it. */
  function NameAt(buf: seq<byte>, version: nat, pos: nat, base: int): (r: At<(Name, nat)>)
    ensures r.Some? ==> pos < r.value.1 <= |buf|
  {
    var w := WordAt(buf, version, pos);
    if w.None? || w.value.1 >= |buf| then None
    else
      var (relative, lead) := w.value;
      var flagged := buf[lead] < NAME_TEXT_FLOOR;
      var flags: nat := if flagged then buf[lead] else 0;
      var text := TextAt(buf, if flagged then lead + 1 else lead);
      if text.None? then None
      else
        var offset := if Bit(flags, NAME_NEGATIVE_OFFSET) then base - relative else base + relative;
        Some(((Name(offset, text.value.0, Bit(flags, NAME_LOCAL)), buf[text.value.1]), text.value.1 + 1))
  }

  function NamesAt(buf: seq<byte>, version: nat, pos: nat, base: int): (r: At<(seq<Name>, nat)>)
    ensures r.Some? ==> pos < r.value.1 <= |buf| && r.value.0.0 != []
    decreases |buf| - pos
  {
    var first := NameAt(buf, version, pos, base);
    if first.None? then None
    else
      var ((name, flags), end) := first.value;
      if !Bit(flags, MORE_PUBLIC_NAMES) then Some((([name], flags), end))
      else
        var rest := NamesAt(buf, version, end, name.offset);
        if rest.None? then None else Some((([name] + rest.value.0.0, rest.value.0.1), rest.value.1))
  }

  /** One record before version 8, a counted list from then on. */
  function CountAt(buf: seq<byte>, version: nat, pos: nat): (r: At<nat>)
    ensures r.Some? ==> pos <= r.value.1 && (pos <= |buf| ==> r.value.1 <= |buf|)
  {
    if version >= 8 then WordAt(buf, version, pos) else Some((1, pos))
  }

  function TailAt(buf: seq<byte>, version: nat, pos: nat): (r: At<TailByte>)
    ensures r.Some? ==> pos < r.value.1 <= |buf|
  {
    var w := WordAt(buf, version, pos);
    if w.None? || w.value.1 >= |buf| then None else Some((TailByte(w.value.0, buf[w.value.1]), w.value.1 + 1))
  }

  function TailsAt(buf: seq<byte>, version: nat, pos: nat, n: nat): (r: At<seq<TailByte>>)
    ensures r.Some? ==> pos <= r.value.1
  {
    if n == 0 then Some(([], pos))
    else
      var front := TailsAt(buf, version, pos, n - 1);
      if front.None? then None
      else
        var last := TailAt(buf, version, front.value.1);
        if last.None? then None else Some((front.value.0 + [last.value.0], last.value.1))
  }

  /** The length of a referenced name: one byte, or a longer integer after a zero byte. */
  function NameLengthAt(buf: seq<byte>, pos: nat): (r: At<nat>)
    ensures r.Some? ==> pos < r.value.1 <= |buf|
  {
    if pos >= |buf| then None
    else if buf[pos] != 0 then Some((buf[pos], pos + 1))
    else
      var v := Vle16At(buf, pos + 1);
      if v.None? then None else Some((v.value.0, pos + 1 + v.value.1))
  }

  function ReferenceAt(buf: seq<byte>, version: nat, pos: nat): (r: At<Reference>)
    ensures r.Some? ==> pos < r.value.1 <= |buf|
  {
    var w := WordAt(buf, version, pos);
    if w.None? then None
    else
      var size := NameLengthAt(buf, w.value.1);
      if size.None? || size.value.1 + size.value.0 > |buf| then None
      else
        var end := size.value.1 + size.value.0;
        Some((Reference(w.value.0, buf[size.value.1..end]), end))
  }

  function ReferencesAt(buf: seq<byte>, version: nat, pos: nat, n: nat): (r: At<seq<Reference>>)
    ensures r.Some? ==> pos <= r.value.1
  {
    if n == 0 then Some(([], pos))
    else
      var front := ReferencesAt(buf, version, pos, n - 1);
      if front.None? then None
      else
        var last := ReferenceAt(buf, version, front.value.1);
        if last.None? then None else Some((front.value.0 + [last.value.0], last.value.1))
  }

  function TailListAt(buf: seq<byte>, version: nat, pos: nat): (r: At<seq<TailByte>>)
    ensures r.Some? ==> pos <= r.value.1
  {
    var n := CountAt(buf, version, pos);
    if n.None? then None else TailsAt(buf, version, n.value.1, n.value.0)
  }

  function ReferenceListAt(buf: seq<byte>, version: nat, pos: nat): (r: At<seq<Reference>>)
    ensures r.Some? ==> pos <= r.value.1
  {
    var n := CountAt(buf, version, pos);
    if n.None? then None else ReferencesAt(buf, version, n.value.1, n.value.0)
  }

  /** A module record and the flags that follow its names. */
  function ModuleAt(buf: seq<byte>, version: nat, pos: nat, crc16: nat, tailLength: nat): (r: At<(Module, nat)>)
    ensures r.Some? ==> pos < r.value.1
  {
    var size := WordAt(buf, version, pos);
    if size.None? then None
    else
      var names := NamesAt(buf, version, size.value.1, 0);
      if names.None? then None
      else
        var ((list, flags), after) := names.value;
        var tails := if Bit(flags, TAIL_BYTES) then TailListAt(buf, version, after) else Some(([], after));
        if tails.None? then None
        else
          var refs := if Bit(flags, REFERENCED_FUNCTIONS) then ReferenceListAt(buf, version, tails.value.1)
                      else Some(([], tails.value.1));
          if refs.None? then None
          else Some(((Module(crc16, tailLength, size.value.0, list, tails.value.0, refs.value.0), flags), refs.value.1))
  }

  /** The modules that share one checksum. */
  function GroupAt(buf: seq<byte>, version: nat, pos: nat, crc16: nat, tailLength: nat): (r: At<(seq<Module>, nat)>)
    ensures r.Some? ==> pos < r.value.1 && r.value.0.0 != []
    decreases |buf| - pos
  {
    var first := ModuleAt(buf, version, pos, crc16, tailLength);
    if first.None? then None
    else
      var ((m, flags), end) := first.value;
      if !Bit(flags, MORE_MODULES_WITH_SAME_CRC) then Some((([m], flags), end))
      else if end > |buf| then None
      else
        var rest := GroupAt(buf, version, end, crc16, tailLength);
        if rest.None? then None else Some((([m] + rest.value.0.0, rest.value.0.1), rest.value.1))
  }

  /** The groups of a leaf, each under its own length and checksum. */
  function LeafAt(buf: seq<byte>, version: nat, pos: nat): (r: At<seq<Module>>)
    ensures r.Some? ==> r.value.0 != []
    decreases |buf| - pos
  {
    if pos + 3 > |buf| then None
    else
      var hi: nat, lo: nat := buf[pos + 1], buf[pos + 2];
      var group := GroupAt(buf, version, pos + 3, hi * 0x100 + lo, buf[pos]);
      if group.None? then None
      else
        var ((modules, flags), end) := group.value;
        if !Bit(flags, MORE_MODULES) then Some((modules, end))
        else
          var rest := LeafAt(buf, version, end);
          if rest.None? then None else Some((modules + rest.value.0, rest.value.1))
  }

  // ----- pattern segments

  /** The clear bits among the lowest k. */
  function ClearBelow(mask: nat, k: nat): nat {
    if k == 0 then 0 else ClearBelow(mask, k - 1) + (if Bit(mask, k - 1) then 0 else 1)
  }

  lemma {:induction false} ClearGrows(mask: nat, j: nat, k: nat)
    requires j <= k
    ensures ClearBelow(mask, j) <= ClearBelow(mask, k)
    decreases k
  {
    if j < k { ClearGrows(mask, j, k - 1); }
  }

  /** Mask bit length - 1 - p says whether position p is a wildcard; the literals fill the
      other positions in order. */
  ghost predicate IsSegment(seg: Pattern, mask: nat, length: nat, literals: seq<byte>) {
    && |seg| == length
    && forall p: nat | p < length :: SlotIs(seg[p], mask, length, literals, p)
  }

  ghost predicate SlotIs(slot: Slot, mask: nat, length: nat, literals: seq<byte>, p: nat)
    requires p < length
  {
    if Bit(mask, length - 1 - p) then slot == Any
    else
      var n := ClearBelow(mask, length) - ClearBelow(mask, length - p);
      0 <= n < |literals| && slot == Exactly(literals[n])
  }

  function LengthAt(buf: seq<byte>, version: nat, pos: nat): (r: At<nat>)
    ensures r.Some? ==> pos < r.value.1 <= |buf|
  {
    if version < 10 then if pos < |buf| then Some((buf[pos], pos + 1)) else None
    else
      var v := Vle16At(buf, pos);
      if v.None? then None else Some((v.value.0, pos + v.value.1))
  }

  function MaskAt(buf: seq<byte>, length: nat, pos: nat): (r: At<nat>)
    ensures r.Some? ==> pos <= r.value.1
  {
    if length == 0 then Some((0, pos))
    else
      var v := if length < 0x10 then Vle16At(buf, pos) else Vle32At(buf, pos);
      if v.None? then None else Some((v.value.0, pos + v.value.1))
  }

  /** The bytes from pos to end spell the child's pattern: its length, its mask, and the
      literals the mask asks for, after the prefix. */
  ghost predicate SegmentAt(buf: seq<byte>, version: nat, prefix: Pattern, pos: nat, pattern: Pattern, end: nat) {
    var length := LengthAt(buf, version, pos);
    && length.Some? && |prefix| + length.value.0 <= MAX_PATTERN_LENGTH
    && var mask := MaskAt(buf, length.value.0, length.value.1);
    && mask.Some? && end == mask.value.1 + ClearBelow(mask.value.0, length.value.0) && end <= |buf|
    && prefix <= pattern
    && IsSegment(pattern[|prefix|..], mask.value.0, length.value.0, buf[mask.value.1..end])
  }

  /** A place spells at most one pattern. */
  lemma SegmentIsUnique(buf: seq<byte>, version: nat, prefix: Pattern, pos: nat, p: Pattern, q: Pattern, end: nat,
                        end': nat)
    requires SegmentAt(buf, version, prefix, pos, p, end) && SegmentAt(buf, version, prefix, pos, q, end')
    ensures p == q && end == end'
  {
    var length := LengthAt(buf, version, pos).value.0;
    var mask := MaskAt(buf, length, LengthAt(buf, version, pos).value.1).value.0;
    var s, t := p[|prefix|..], q[|prefix|..];
    var literals := buf[MaskAt(buf, length, LengthAt(buf, version, pos).value.1).value.1..end];
    forall k: nat | k < length ensures s[k] == t[k] {
      assert SlotIs(s[k], mask, length, literals, k) && SlotIs(t[k], mask, length, literals, k);
    }
    assert s == t && p == prefix + s && q == prefix + t;
  }

  // ----- the tree

  /** The bytes from pos to end spell the node below a prefix: its child count, then its
      modules, or each child's segment and the child. */
  ghost predicate NodeAt(buf: seq<byte>, version: nat, pos: nat, node: Node, end: nat)
    decreases node, 1
  {
    var n := Vle16At(buf, pos);
    && n.Some?
    && if n.value.0 == 0 then
         node.children == [] && LeafAt(buf, version, pos + n.value.1) == Some((node.leafModules, end))
       else |node.children| == n.value.0 && node.leafModules == []
            && ChildrenAt(buf, version, pos + n.value.1, node, |node.children|, end)
  }

  ghost predicate ChildrenAt(buf: seq<byte>, version: nat, pos: nat, node: Node, n: nat, end: nat)
    requires n <= |node.children|
    decreases node, 0, n
  {
    if n == 0 then end == pos
    else exists mid, body :: ChildAt(buf, version, pos, node, n, mid, body, end)
  }

  ghost predicate ChildAt(buf: seq<byte>, version: nat, pos: nat, node: Node, n: nat, mid: nat, body: nat, end: nat)
    requires 0 < n <= |node.children|
    decreases node, 0, n, 0
  {
    var child := node.children[n - 1];
    && ChildrenAt(buf, version, pos, node, n - 1, mid)
    && SegmentAt(buf, version, node.pattern, mid, child.pattern, body)
    && NodeAt(buf, version, body, child, end)
  }

  /** No bytes spell two trees. */
  lemma {:induction false} NodeIsUnique(buf: seq<byte>, version: nat, pos: nat, a: Node, b: Node, end: nat, end': nat)
    requires NodeAt(buf, version, pos, a, end) && NodeAt(buf, version, pos, b, end') && a.pattern == b.pattern
    ensures a == b && end == end'
    decreases a, 1
  {
    if a.children != [] {
      ChildrenUnique(buf, version, pos + Vle16At(buf, pos).value.1, a, b, |a.children|, end, end');
      assert a.children == b.children;
    }
  }

  lemma {:induction false} ChildrenUnique(buf: seq<byte>, version: nat, pos: nat, a: Node, b: Node, n: nat,
                                          end: nat, end': nat)
    requires n <= |a.children| && n <= |b.children| && a.pattern == b.pattern
    requires ChildrenAt(buf, version, pos, a, n, end) && ChildrenAt(buf, version, pos, b, n, end')
    ensures end == end' && a.children[..n] == b.children[..n]
    decreases a, 0, n, 1
  {
    hide ChildAt;
    if n > 0 {
      var mid, body :| ChildAt(buf, version, pos, a, n, mid, body, end);
      var mid', body' :| ChildAt(buf, version, pos, b, n, mid', body', end');
      ChildIsUnique(buf, version, pos, a, b, n, mid, body, end, mid', body', end');
    }
  }

  lemma {:induction false} ChildIsUnique(buf: seq<byte>, version: nat, pos: nat, a: Node, b: Node, n: nat,
                                         mid: nat, body: nat, end: nat, mid': nat, body': nat, end': nat)
    requires 0 < n <= |a.children| && n <= |b.children| && a.pattern == b.pattern
    requires ChildAt(buf, version, pos, a, n, mid, body, end) && ChildAt(buf, version, pos, b, n, mid', body', end')
    ensures end == end' && a.children[..n] == b.children[..n]
    decreases a, 0, n, 0
  {
    hide ChildrenAt, SegmentAt, NodeAt;
    var c, d := a.children[n - 1], b.children[n - 1];
    assert c in a.children;
    ChildrenUnique(buf, version, pos, a, b, n - 1, mid, mid');
    SegmentIsUnique(buf, version, a.pattern, mid, c.pattern, d.pattern, body, body');
    NodeIsUnique(buf, version, body, c, d, end, end');
    assert a.children[..n] == a.children[..n - 1] + [c] && b.children[..n] == b.children[..n - 1] + [d];
  }

  /** What the reader builds: child patterns extend their parent's, no pattern is longer
      than a function's head, a node is a leaf with modules or has children, and the tree
      is no deeper than allowed. */
  ghost predicate WellBuilt(node: Node, depth: nat) {
    && depth <= MAX_TREE_DEPTH && |node.pattern| <= MAX_PATTERN_LENGTH
    && (node.children == [] <==> node.leafModules != [])
    && forall c | c in node.children :: node.pattern <= c.pattern && WellBuilt(c, depth + 1)
  }

  lemma {:induction false} WellBuiltExtends(node: Node, depth: nat)
    requires WellBuilt(node, depth)
    ensures Extends(node)
    decreases node
  {
    forall c | c in node.children ensures node.pattern <= c.pattern && Extends(c) {
      WellBuiltExtends(c, depth + 1);
    }
  }

  ghost predicate AllBuilt(prefix: Pattern, children: seq<Node>, depth: nat) {
    forall c | c in children :: prefix <= c.pattern && WellBuilt(c, depth)
  }

  // ----- the reader

  method ReadWord(cur: Cursor, version: nat) returns (ok: bool, out: nat)
    requires cur.Valid()
    modifies cur
    ensures cur.Valid() && ok == WordAt(cur.buf, version, old(cur.pos)).Some?
    ensures if ok then WordAt(cur.buf, version, old(cur.pos)) == Some((out, cur.pos)) else cur.pos == old(cur.pos)
  {
    if version < 9 { ok, out := cur.ReadVle16(); } else { ok, out := cur.ReadVle32(); }
  }

  method ReadVariantMask(cur: Cursor, length: nat) returns (ok: bool, out: nat)
    requires cur.Valid()
    modifies cur
    ensures cur.Valid() && old(cur.pos) <= cur.pos && ok == MaskAt(cur.buf, length, old(cur.pos)).Some?
    ensures ok ==> MaskAt(cur.buf, length, old(cur.pos)) == Some((out, cur.pos))
  {
    if length == 0 { return true, 0; }
    if length < 0x10 { ok, out := cur.ReadVle16(); } else { ok, out := cur.ReadVle32(); }
  }

  /** What has been read so far and what a place still holds make up the whole. */
  ghost predicate Continues<T, U>(whole: At<(seq<T>, U)>, done: seq<T>, rest: At<(seq<T>, U)>) {
    if rest.None? then whole.None?
    else whole == Some(((done + rest.value.0.0, rest.value.0.1), rest.value.1))
  }

  lemma NothingBefore<T>(rest: At<seq<T>>)
    ensures rest.Some? ==> [] + rest.value.0 == rest.value.0
  {
  }

  lemma ContinuesFirst<T, U>(whole: At<(seq<T>, U)>)
    ensures Continues(whole, [], whole)
  {
    if whole.Some? { assert [] + whole.value.0.0 == whole.value.0.0; }
  }

  lemma ContinuesOn<T, U>(whole: At<(seq<T>, U)>, done: seq<T>, x: T, rest: At<(seq<T>, U)>, after: At<(seq<T>, U)>)
    requires Continues(whole, done, rest)
    requires rest == if after.None? then None else Some((([x] + after.value.0.0, after.value.0.1), after.value.1))
    ensures Continues(whole, done + [x], after)
  {
    if after.Some? { assert done + ([x] + after.value.0.0) == done + [x] + after.value.0.0; }
  }

  /** Reads the rest of a name and its parsing flags. */
  method ParseText(cur: Cursor, first: byte) returns (ok: bool, text: seq<byte>, flags: byte)
    requires cur.Valid() && 0 < cur.pos && cur.buf[cur.pos - 1] == first
    modifies cur
    ensures cur.Valid() && old(cur.pos) <= cur.pos && ok == TextAt(cur.buf, old(cur.pos) - 1).Some?
    ensures ok ==> TextAt(cur.buf, old(cur.pos) - 1) == Some((text, cur.pos - 1))
    ensures ok ==> 0 < cur.pos && flags == cur.buf[cur.pos - 1]
  {
    ghost var start := cur.pos - 1;
    text, flags := [], first;
    NothingBefore(TextAt(cur.buf, start));
    while flags >= NAME_TEXT_FLOOR
      invariant cur.Valid() && old(cur.pos) <= cur.pos && flags == cur.buf[cur.pos - 1]
      invariant var rest := TextAt(cur.buf, cur.pos - 1);
        if rest.None? then TextAt(cur.buf, start).None?
        else TextAt(cur.buf, start) == Some((text + rest.value.0, rest.value.1))
      decreases |cur.buf| - cur.pos
    {
      ghost var rest := TextAt(cur.buf, cur.pos);
      if rest.Some? { assert text + ([flags] + rest.value.0) == text + [flags] + rest.value.0; }
      text := text + [flags];
      ok, flags := cur.ReadU8();
      if !ok { return false, text, flags; }
    }
    assert text + [] == text;
    ok := true;
  }

  method ParseName(cur: Cursor, version: nat, baseOffset: int) returns (r: Parsed<(Name, nat)>)
    requires cur.Valid()
    modifies cur
    ensures cur.Valid() && old(cur.pos) <= cur.pos
    ensures r.Ok? == NameAt(cur.buf, version, old(cur.pos), baseOffset).Some?
    ensures r.Ok? ==> NameAt(cur.buf, version, old(cur.pos), baseOffset) == Some((r.value, cur.pos))
    ensures r.Err? ==> r.kind == Truncated
  {
    hide Bit;
    var ok, relativeOffset := ReadWord(cur, version);
    if !ok { return Err(Truncated, "name offset"); }
    var peek: byte;
    ok, peek := cur.ReadU8();
    if !ok { return Err(Truncated, "name lead"); }
    var nameFlags := 0;
    if peek < NAME_TEXT_FLOOR {
      nameFlags := peek;
      ok, peek := cur.ReadU8();
      if !ok { return Err(Truncated, "name first char"); }
    }
    var text, flags;
    ok, text, flags := ParseText(cur, peek);
    if !ok { return Err(Truncated, "name body"); }
    var offset: int :=
      if Bit(nameFlags, NAME_NEGATIVE_OFFSET) then baseOffset - relativeOffset else baseOffset + relativeOffset;
    r := Ok((Name(offset, text, Bit(nameFlags, NAME_LOCAL)), flags));
  }

  /** The names of one module, and the flags byte after them. */
  method ParseModuleNames(cur: Cursor, version: nat) returns (r: Parsed<(seq<Name>, nat)>)
    requires cur.Valid()
    modifies cur
    ensures cur.Valid() && old(cur.pos) <= cur.pos
    ensures r.Ok? == NamesAt(cur.buf, version, old(cur.pos), 0).Some?
    ensures r.Ok? ==> NamesAt(cur.buf, version, old(cur.pos), 0) == Some((r.value, cur.pos))
    ensures r.Err? ==> r.kind == Truncated
  {
    hide Bit, NameAt;
    var names: seq<Name> := [];
    var baseOffset: int := 0;
    ghost var whole := NamesAt(cur.buf, version, cur.pos, 0);
    ContinuesFirst(whole);
    while true
      invariant cur.Valid() && old(cur.pos) <= cur.pos
      invariant Continues(whole, names, NamesAt(cur.buf, version, cur.pos, baseOffset))
      decreases |cur.buf| - cur.pos
    {
      ghost var rest := NamesAt(cur.buf, version, cur.pos, baseOffset);
      var name := ParseName(cur, version, baseOffset);
      if name.Err? { return Err(name.kind, name.context); }
      baseOffset := name.value.0.offset;
      if !Bit(name.value.1, MORE_PUBLIC_NAMES) { return Ok((names + [name.value.0], name.value.1)); }
      ContinuesOn(whole, names, name.value.0, rest, NamesAt(cur.buf, version, cur.pos, baseOffset));
      names := names + [name.value.0];
    }
  }

  method ReadCount(cur: Cursor, version: nat) returns (ok: bool, count: nat)
    requires cur.Valid()
    modifies cur
    ensures cur.Valid() && old(cur.pos) <= cur.pos && ok == CountAt(cur.buf, version, old(cur.pos)).Some?
    ensures ok ==> CountAt(cur.buf, version, old(cur.pos)) == Some((count, cur.pos))
  {
    ok, count := true, 1;
    if version >= 8 { ok, count := ReadWord(cur, version); }
  }

  lemma {:induction false} TailsNone(buf: seq<byte>, version: nat, pos: nat, i: nat, n: nat)
    requires i <= n && TailsAt(buf, version, pos, i).None?
    ensures TailsAt(buf, version, pos, n).None?
    decreases n
  {
    if i < n { TailsNone(buf, version, pos, i, n - 1); }
  }

  lemma {:induction false} ReferencesNone(buf: seq<byte>, version: nat, pos: nat, i: nat, n: nat)
    requires i <= n && ReferencesAt(buf, version, pos, i).None?
    ensures ReferencesAt(buf, version, pos, n).None?
    decreases n
  {
    if i < n { ReferencesNone(buf, version, pos, i, n - 1); }
  }

  method ParseTailBytes(cur: Cursor, version: nat) returns (r: Parsed<seq<TailByte>>)
    requires cur.Valid()
    modifies cur
    ensures cur.Valid() && old(cur.pos) <= cur.pos
    ensures r.Ok? == TailListAt(cur.buf, version, old(cur.pos)).Some?
    ensures r.Ok? ==> TailListAt(cur.buf, version, old(cur.pos)) == Some((r.value, cur.pos))
    ensures r.Err? ==> r.kind == Truncated
  {
    hide WordAt;
    var ok, count := ReadCount(cur, version);
    if !ok { return Err(Truncated, "tail count"); }
    var out: seq<TailByte> := [];
    ghost var start := cur.pos;
    for i := 0 to count
      invariant cur.Valid() && start <= cur.pos && TailsAt(cur.buf, version, start, i) == Some((out, cur.pos))
    {
      ghost var at := cur.pos;
      var offset, value;
      ok, offset := ReadWord(cur, version);
      if ok { ok, value := cur.ReadU8(); }
      if !ok {
        assert TailAt(cur.buf, version, at).None?;
        TailsNone(cur.buf, version, start, i + 1, count);
        return Err(Truncated, "tail byte");
      }
      out := out + [TailByte(offset, value)];
    }
    r := Ok(out);
  }

  method ParseReference(cur: Cursor, version: nat) returns (r: Parsed<Reference>)
    requires cur.Valid()
    modifies cur
    ensures cur.Valid() && old(cur.pos) <= cur.pos
    ensures r.Ok? == ReferenceAt(cur.buf, version, old(cur.pos)).Some?
    ensures r.Ok? ==> ReferenceAt(cur.buf, version, old(cur.pos)) == Some((r.value, cur.pos))
    ensures r.Err? ==> r.kind == Truncated
  {
    hide WordAt;
    var ok, offset := ReadWord(cur, version);
    if !ok { return Err(Truncated, "ref offset"); }
    var sizeByte;
    ok, sizeByte := cur.ReadU8();
    if !ok { return Err(Truncated, "ref size"); }
    var nameLen: nat := sizeByte;
    if sizeByte == 0 {
      ok, nameLen := cur.ReadVle16();
      if !ok { return Err(Truncated, "ref size ext"); }
    }
    ghost var from := cur.pos;
    var text: seq<byte> := [];
    for k := 0 to nameLen
      invariant cur.Valid() && cur.pos == from + k && text == cur.buf[from..cur.pos]
    {
      var ch;
      ok, ch := cur.ReadU8();
      if !ok { return Err(Truncated, "ref name"); }
      text := text + [ch];
    }
    r := Ok(Reference(offset, text));
  }

  method ParseReferencedFunctions(cur: Cursor, version: nat) returns (r: Parsed<seq<Reference>>)
    requires cur.Valid()
    modifies cur
    ensures cur.Valid() && old(cur.pos) <= cur.pos
    ensures r.Ok? == ReferenceListAt(cur.buf, version, old(cur.pos)).Some?
    ensures r.Ok? ==> ReferenceListAt(cur.buf, version, old(cur.pos)) == Some((r.value, cur.pos))
    ensures r.Err? ==> r.kind == Truncated
  {
    hide WordAt, ReferenceAt;
    var ok, count := ReadCount(cur, version);
    if !ok { return Err(Truncated, "ref count"); }
    var out: seq<Reference> := [];
    ghost var start := cur.pos;
    for i := 0 to count
      invariant cur.Valid() && start <= cur.pos && ReferencesAt(cur.buf, version, start, i) == Some((out, cur.pos))
    {
      var ref := ParseReference(cur, version);
      if ref.Err? {
        ReferencesNone(cur.buf, version, start, i + 1, count);
        return Err(ref.kind, ref.context);
      }
      out := out + [ref.value];
    }
    r := Ok(out);
  }

  /** One module record and the flags that follow it. */
  method ParseModule(cur: Cursor, version: nat, crc16: nat, tailLength: nat) returns (r: Parsed<(Module, nat)>)
    requires cur.Valid()
    modifies cur
    ensures cur.Valid() && old(cur.pos) <= cur.pos
    ensures r.Ok? == ModuleAt(cur.buf, version, old(cur.pos), crc16, tailLength).Some?
    ensures r.Ok? ==> ModuleAt(cur.buf, version, old(cur.pos), crc16, tailLength) == Some((r.value, cur.pos))
    ensures r.Err? ==> r.kind == Truncated
  {
    hide Bit, WordAt, NamesAt, TailListAt, ReferenceListAt;
    var ok, functionSize := ReadWord(cur, version);
    if !ok { return Err(Truncated, "function size"); }
    var names := ParseModuleNames(cur, version);
    if names.Err? { return Err(names.kind, names.context); }
    var flags := names.value.1;
    var tailBytes: seq<TailByte> := [];
    if Bit(flags, TAIL_BYTES) {
      var tb := ParseTailBytes(cur, version);
      if tb.Err? { return Err(tb.kind, tb.context); }
      tailBytes := tb.value;
    }
    var references: seq<Reference> := [];
    if Bit(flags, REFERENCED_FUNCTIONS) {
      var rf := ParseReferencedFunctions(cur, version);
      if rf.Err? { return Err(rf.kind, rf.context); }
      references := rf.value;
    }
    r := Ok((Module(crc16, tailLength, functionSize, names.value.0, tailBytes, references), flags));
  }

  /** The modules under one checksum, after what was read before them. */
  method ParseGroup(cur: Cursor, version: nat, crc16: nat, tailLength: nat, before: seq<Module>)
    returns (r: Parsed<(seq<Module>, nat)>)
    requires cur.Valid()
    modifies cur
    ensures cur.Valid() && old(cur.pos) <= cur.pos
    ensures var g := GroupAt(cur.buf, version, old(cur.pos), crc16, tailLength);
      && r.Ok? == g.Some?
      && (r.Ok? ==> g.value.1 == cur.pos && r.value == (before + g.value.0.0, g.value.0.1))
    ensures r.Err? ==> r.kind == Truncated
  {
    hide Bit, ModuleAt;
    var out := before;
    ghost var got: seq<Module> := [];
    ghost var whole := GroupAt(cur.buf, version, cur.pos, crc16, tailLength);
    ContinuesFirst(whole);
    while true
      invariant cur.Valid() && old(cur.pos) <= cur.pos && out == before + got
      invariant Continues(whole, got, GroupAt(cur.buf, version, cur.pos, crc16, tailLength))
      decreases |cur.buf| - cur.pos
    {
      ghost var rest := GroupAt(cur.buf, version, cur.pos, crc16, tailLength);
      var m := ParseModule(cur, version, crc16, tailLength);
      if m.Err? { return Err(m.kind, m.context); }
      assert out + [m.value.0] == before + (got + [m.value.0]);
      out := out + [m.value.0];
      if !Bit(m.value.1, MORE_MODULES_WITH_SAME_CRC) { return Ok((out, m.value.1)); }
      ContinuesOn(whole, got, m.value.0, rest, GroupAt(cur.buf, version, cur.pos, crc16, tailLength));
      got := got + [m.value.0];
    }
  }

  method ParseLeafModules(cur: Cursor, version: nat) returns (r: Parsed<seq<Module>>)
    requires cur.Valid()
    modifies cur
    ensures cur.Valid() && old(cur.pos) <= cur.pos
    ensures r.Ok? == LeafAt(cur.buf, version, old(cur.pos)).Some?
    ensures r.Ok? ==> LeafAt(cur.buf, version, old(cur.pos)) == Some((r.value, cur.pos))
    ensures r.Err? ==> r.kind == Truncated
  {
    hide Bit, GroupAt;
    var out: seq<Module> := [];
    ghost var whole := LeafAt(cur.buf, version, cur.pos);
    NothingBefore(whole);
    while true
      invariant cur.Valid() && old(cur.pos) <= cur.pos
      invariant var rest := LeafAt(cur.buf, version, cur.pos);
        if rest.None? then whole.None? else whole == Some((out + rest.value.0, rest.value.1))
      decreases |cur.buf| - cur.pos
    {
      var ok, crcLen, crcHi, crcLo;
      ok, crcLen := cur.ReadU8();
      if !ok { return Err(Truncated, "crc length"); }
      ok, crcHi := cur.ReadU8();
      if !ok { return Err(Truncated, "crc16"); }
      ok, crcLo := cur.ReadU8();
      if !ok { return Err(Truncated, "crc16"); }
      var hi: nat, lo: nat := crcHi, crcLo;
      var group := ParseGroup(cur, version, hi * 0x100 + lo, crcLen, out);
      if group.Err? { return Err(group.kind, group.context); }
      ghost var read := group.value.0[|out|..];
      assert group.value.0 == out + read;
      if !Bit(group.value.1, MORE_MODULES) { return Ok(group.value.0); }
      ghost var rest := LeafAt(cur.buf, version, cur.pos);
      if rest.Some? { assert out + (read + rest.value.0) == group.value.0 + rest.value.0; }
      out := group.value.0;
    }
  }

  method CountLiterals(mask: nat, length: nat) returns (n: nat)
    ensures n == ClearBelow(mask, length)
  {
    hide Bit;
    n := 0;
    for bit := 0 to length
      invariant n == ClearBelow(mask, bit)
    {
      if !Bit(mask, bit) { n := n + 1; }
    }
  }

  method BuildSegment(mask: nat, length: nat, literals: seq<byte>) returns (seg: Pattern)
    requires |literals| == ClearBelow(mask, length)
    ensures IsSegment(seg, mask, length, literals)
  {
    hide Bit;
    seg := [];
    var nextLiteral := 0;
    for p := 0 to length
      invariant |seg| == p && nextLiteral == ClearBelow(mask, length) - ClearBelow(mask, length - p)
      invariant forall q: nat | q < p :: SlotIs(seg[q], mask, length, literals, q)
    {
      ClearGrows(mask, length - p, length);
      if Bit(mask, length - 1 - p) {
        seg := seg + [Any];
      } else {
        seg := seg + [Exactly(literals[nextLiteral])];
        nextLiteral := nextLiteral + 1;
      }
    }
  }

  /** Reads one child's pattern: exactly the one the bytes spell, or none is spelled. */
  method ReadPattern(cur: Cursor, version: nat, prefix: Pattern) returns (r: Parsed<Pattern>)
    requires cur.Valid() && |prefix| <= MAX_PATTERN_LENGTH
    modifies cur
    ensures cur.Valid() && old(cur.pos) <= cur.pos
    ensures r.Ok? ==> prefix <= r.value && |r.value| <= MAX_PATTERN_LENGTH
    ensures r.Ok? ==> SegmentAt(cur.buf, version, prefix, old(cur.pos), r.value, cur.pos)
    ensures r.Err? ==> r.kind != TooDeep && forall p, end :: !SegmentAt(cur.buf, version, prefix, old(cur.pos), p, end)
  {
    hide ClearBelow, IsSegment;
    var ok, length: nat;
    if version < 10 {
      var b;
      ok, b := cur.ReadU8();
      length := b;
    } else {
      ok, length := cur.ReadVle16();
    }
    if !ok { return Err(Truncated, "pattern length"); }
    if |prefix| + length > MAX_PATTERN_LENGTH { return Err(BadNode, "pattern exceeds max length"); }
    var bits;
    ok, bits := ReadVariantMask(cur, length);
    if !ok { return Err(Truncated, "variant mask"); }
    var count := CountLiterals(bits, length);
    var bytes: seq<byte> := [];
    if count > 0 {
      ok, bytes := cur.ReadBytes(count);
      if !ok { return Err(Truncated, "pattern bytes"); }
    }
    var seg := BuildSegment(bits, length, bytes);
    assert (prefix + seg)[|prefix|..] == seg;
    SegmentLength(seg, bits, length, bytes);
    r := Ok(prefix + seg);
  }

  lemma SegmentLength(seg: Pattern, mask: nat, length: nat, literals: seq<byte>)
    requires IsSegment(seg, mask, length, literals)
    ensures |seg| == length
  {
  }

  /** The first children are spelled up to a place. */
  ghost predicate Spelled(buf: seq<byte>, version: nat, pos: nat, prefix: Pattern, children: seq<Node>, end: nat) {
    ChildrenAt(buf, version, pos, Node(prefix, children, []), |children|, end)
  }

  /** The spelling of the first children does not look at the rest of the node. */
  lemma {:induction false} ChildrenPrefix(buf: seq<byte>, version: nat, pos: nat, a: Node, b: Node, n: nat, end: nat)
    requires n <= |a.children| && n <= |b.children| && a.pattern == b.pattern && a.children[..n] == b.children[..n]
    requires ChildrenAt(buf, version, pos, a, n, end)
    ensures ChildrenAt(buf, version, pos, b, n, end)
    decreases n
  {
    if n > 0 {
      var mid, body :| ChildAt(buf, version, pos, a, n, mid, body, end);
      assert a.children[..n - 1] == a.children[..n][..n - 1] && b.children[..n - 1] == b.children[..n][..n - 1];
      assert a.children[n - 1] == a.children[..n][n - 1] == b.children[..n][n - 1];
      ChildrenPrefix(buf, version, pos, a, b, n - 1, mid);
      assert ChildAt(buf, version, pos, b, n, mid, body, end);
    }
  }

  lemma SpelledOneMore(buf: seq<byte>, version: nat, pos: nat, prefix: Pattern, children: seq<Node>, child: Node,
                       mid: nat, body: nat, end: nat)
    requires Spelled(buf, version, pos, prefix, children, mid)
    requires SegmentAt(buf, version, prefix, mid, child.pattern, body) && NodeAt(buf, version, body, child, end)
    ensures Spelled(buf, version, pos, prefix, children + [child], end)
  {
    var a, b := Node(prefix, children, []), Node(prefix, children + [child], []);
    assert a.children[..|children|] == b.children[..|children|];
    ChildrenPrefix(buf, version, pos, a, b, |children|, mid);
    assert ChildAt(buf, version, pos, b, |children| + 1, mid, body, end);
  }

  /** No tree within the limits is spelled at a place. */
  ghost predicate NoneAt(buf: seq<byte>, version: nat, pos: nat, prefix: Pattern, depth: nat) {
    forall node: Node, end | node.pattern == prefix && WellBuilt(node, depth) :: !NodeAt(buf, version, pos, node, end)
  }

  /** Where one child is not spelled, the whole node is not. */
  lemma ChildFails(buf: seq<byte>, version: nat, pos: nat, prefix: Pattern, depth: nat, children: seq<Node>, mid: nat)
    requires var n := Vle16At(buf, pos);
      n.Some? && |children| < n.value.0 && Spelled(buf, version, pos + n.value.1, prefix, children, mid)
    requires forall p, body | SegmentAt(buf, version, prefix, mid, p, body) :: NoneAt(buf, version, body, p, depth + 1)
    ensures NoneAt(buf, version, pos, prefix, depth)
  {
    hide SegmentAt, WellBuilt;
    forall node: Node, end | node.pattern == prefix && WellBuilt(node, depth)
      ensures !NodeAt(buf, version, pos, node, end)
    {
      if NodeAt(buf, version, pos, node, end) {
        SpelledChild(buf, version, pos, prefix, depth, children, mid, node, end);
      }
    }
  }

  /** A spelled node has its next child spelled where the first ones end. */
  lemma SpelledChild(buf: seq<byte>, version: nat, pos: nat, prefix: Pattern, depth: nat, children: seq<Node>, mid: nat,
                     node: Node, end: nat)
    requires var n := Vle16At(buf, pos);
      n.Some? && |children| < n.value.0 && Spelled(buf, version, pos + n.value.1, prefix, children, mid)
    requires node.pattern == prefix && WellBuilt(node, depth) && NodeAt(buf, version, pos, node, end)
    ensures exists p, body :: SegmentAt(buf, version, prefix, mid, p, body) && !NoneAt(buf, version, body, p, depth + 1)
  {
    hide SegmentAt;
    var start, i := pos + Vle16At(buf, pos).value.1, |children|;
    var end' := ChildrenDown(buf, version, start, node, |node.children|, i + 1, end);
    var mid', body :| ChildAt(buf, version, start, node, i + 1, mid', body, end');
    ChildrenUnique(buf, version, start, node, Node(prefix, children, []), i, mid', mid);
    var child := node.children[i];
    assert child in node.children && WellBuilt(child, depth + 1) && NodeAt(buf, version, body, child, end');
    assert SegmentAt(buf, version, prefix, mid, child.pattern, body);
    assert !NoneAt(buf, version, body, child.pattern, depth + 1);
  }

  lemma {:induction false} ChildrenDown(buf: seq<byte>, version: nat, pos: nat, node: Node, n: nat, m: nat, end: nat)
    returns (end': nat)
    requires m <= n <= |node.children| && ChildrenAt(buf, version, pos, node, n, end)
    ensures ChildrenAt(buf, version, pos, node, m, end')
    decreases n
  {
    if m == n { return end; }
    var mid, body :| ChildAt(buf, version, pos, node, n, mid, body, end);
    end' := ChildrenDown(buf, version, pos, node, n - 1, m, mid);
  }

  lemma LeafFails(buf: seq<byte>, version: nat, pos: nat, prefix: Pattern, depth: nat)
    requires var n := Vle16At(buf, pos); n.None? || (n.value.0 == 0 && LeafAt(buf, version, pos + n.value.1).None?)
    ensures NoneAt(buf, version, pos, prefix, depth)
  {
  }

  lemma SegmentFails(buf: seq<byte>, version: nat, prefix: Pattern, mid: nat, p: Pattern, body: nat, depth: nat)
    requires SegmentAt(buf, version, prefix, mid, p, body) && NoneAt(buf, version, body, p, depth)
    ensures forall q, body' | SegmentAt(buf, version, prefix, mid, q, body') :: NoneAt(buf, version, body', q, depth)
  {
    hide SegmentAt, NoneAt;
    forall q, body' | SegmentAt(buf, version, prefix, mid, q, body') ensures NoneAt(buf, version, body', q, depth) {
      SegmentIsUnique(buf, version, prefix, mid, p, q, body, body');
    }
  }

  /** Reads a node: the one tree within the limits that the bytes at the cursor spell below
      the prefix, and no more bytes than spell it; it fails exactly when none is spelled. A
      child count of zero makes it a leaf. */
  method ParseNode(cur: Cursor, version: nat, prefix: Pattern, depth: nat) returns (r: Parsed<Node>)
    requires cur.Valid() && |prefix| <= MAX_PATTERN_LENGTH
    modifies cur
    ensures cur.Valid() && old(cur.pos) <= cur.pos
    ensures r.Ok? ==> r.value.pattern == prefix && WellBuilt(r.value, depth)
    ensures r.Ok? ==> NodeAt(cur.buf, version, old(cur.pos), r.value, cur.pos)
    ensures r.Err? ==> NoneAt(cur.buf, version, old(cur.pos), prefix, depth)
    ensures depth > MAX_TREE_DEPTH ==> r == Err(TooDeep, "tree depth")
    decreases if depth > MAX_TREE_DEPTH then 0 else MAX_TREE_DEPTH + 1 - depth
  {
    hide LeafAt, SegmentAt, Spelled, NodeAt;
    if depth > MAX_TREE_DEPTH { return Err(TooDeep, "tree depth"); }
    var ok, childCount := cur.ReadVle16();
    if !ok {
      LeafFails(cur.buf, version, old(cur.pos), prefix, depth);
      return Err(Truncated, "child count");
    }
    if childCount == 0 {
      var modules := ParseLeafModules(cur, version);
      if modules.Err? {
        LeafFails(cur.buf, version, old(cur.pos), prefix, depth);
        return Err(modules.kind, modules.context);
      }
      LeafIsNode(cur.buf, version, old(cur.pos), prefix, modules.value, cur.pos);
      return Ok(Node(prefix, [], modules.value));
    }
    var children: seq<Node> := [];
    ghost var start := cur.pos;
    SpelledNone(cur.buf, version, start, prefix);
    for i := 0 to childCount
      invariant cur.Valid() && start <= cur.pos && |children| == i && AllBuilt(prefix, children, depth + 1)
      invariant Spelled(cur.buf, version, start, prefix, children, cur.pos)
    {
      ghost var mid := cur.pos;
      var pattern := ReadPattern(cur, version, prefix);
      if pattern.Err? {
        ChildFails(cur.buf, version, old(cur.pos), prefix, depth, children, mid);
        return Err(pattern.kind, pattern.context);
      }
      ghost var body := cur.pos;
      var sub := ParseNode(cur, version, pattern.value, depth + 1);
      if sub.Err? {
        SegmentFails(cur.buf, version, prefix, mid, pattern.value, body, depth + 1);
        ChildFails(cur.buf, version, old(cur.pos), prefix, depth, children, mid);
        return Err(sub.kind, sub.context);
      }
      SpelledOneMore(cur.buf, version, start, prefix, children, sub.value, mid, body, cur.pos);
      children := children + [sub.value];
    }
    SpelledIsNode(cur.buf, version, old(cur.pos), prefix, children, cur.pos);
    r := Ok(Node(prefix, children, []));
  }

  lemma SpelledNone(buf: seq<byte>, version: nat, pos: nat, prefix: Pattern)
    ensures Spelled(buf, version, pos, prefix, [], pos)
  {
  }

  lemma LeafIsNode(buf: seq<byte>, version: nat, pos: nat, prefix: Pattern, modules: seq<Module>, end: nat)
    requires var n := Vle16At(buf, pos);
      n.Some? && n.value.0 == 0 && LeafAt(buf, version, pos + n.value.1) == Some((modules, end))
    ensures modules != [] && NodeAt(buf, version, pos, Node(prefix, [], modules), end)
  {
  }

  lemma SpelledIsNode(buf: seq<byte>, version: nat, pos: nat, prefix: Pattern, children: seq<Node>, end: nat)
    requires var n := Vle16At(buf, pos);
      n.Some? && 0 < n.value.0 == |children| && Spelled(buf, version, pos + n.value.1, prefix, children, end)
    ensures NodeAt(buf, version, pos, Node(prefix, children, []), end)
  {
  }

  /** End to end: over any body the reader accepts, the pruned search and the early-exit
      test give what brute force over the leaves gives. */
  method SearchBody(body: seq<byte>, version: nat, crc: Crc, buf: seq<byte>)
    returns (r: Parsed<Node>, found: seq<Module>, any: bool)
    ensures r.Ok? ==> WellBuilt(r.value, 0) && r.value.pattern == []
    ensures r.Ok? ==> exists end :: NodeAt(body, version, 0, r.value, end)
    ensures r.Ok? ==> found == Matching(crc, Leaves(r.value), buf) && (any <==> found != [])
    ensures r.Err? ==> found == [] && !any && NoneAt(body, version, 0, [], 0)
  {
    var cur := new Cursor(body);
    r := ParseNode(cur, version, [], 0);
    if r.Err? { return r, [], false; }
    assert NodeAt(body, version, 0, r.value, cur.pos);
    WellBuiltExtends(r.value, 0);
    found := CollectMatching(crc, r.value, buf, []);
    any := NodeMatches(crc, r.value, buf);
  }
}
