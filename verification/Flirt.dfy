/** FLIRT signature trees: the pattern tree, its pruned search, and the reader that builds
    it. */
module Flirt {
  import opened Features
  import opened ByteCursor

  const MAX_PATTERN_LENGTH := 32
  const MAX_TREE_DEPTH := 64

  /** One pattern position: any byte, or one byte exactly. */
  datatype Slot = Any | Exactly(b: byte)

  type Pattern = seq<Slot>

  datatype TailByte = TailByte(offset: nat, value: byte)

  datatype Name = Name(offset: int, text: seq<byte>, isLocal: bool)

  datatype Reference = Reference(offset: nat, text: seq<byte>)

  datatype Module = Module(tailCrc16: nat, tailLength: nat, functionSize: nat,
                           names: seq<Name>, tailBytes: seq<TailByte>, references: seq<Reference>)

  datatype Node = Node(pattern: Pattern, children: seq<Node>, leafModules: seq<Module>)

  /** What a signature's checksum is computed with. */
  type Crc = seq<byte> -> nat

  // ----- matching

  predicate Matches(p: Pattern, buf: seq<byte>) {
    |p| <= |buf| && forall i | 0 <= i < |p| :: p[i] == Any || p[i].b == buf[i]
  }

  /** A pattern accepts only what a pattern it extends accepts. */
  lemma ExtensionMatchesLess(p: Pattern, q: Pattern, buf: seq<byte>)
    requires p <= q && Matches(q, buf)
    ensures Matches(p, buf)
  {
    forall i | 0 <= i < |p| ensures p[i] == Any || p[i].b == buf[i] {
      assert q[i] == p[i];
    }
  }

  method PatternMatches(p: Pattern, buf: seq<byte>) returns (b: bool)
    ensures b == Matches(p, buf)
  {
    if |buf| < |p| { return false; }
    for i := 0 to |p|
      invariant forall j | 0 <= j < i :: p[j] == Any || p[j].b == buf[j]
    {
      if p[i].Any? { continue; }
      if buf[i] != p[i].b { return false; }
    }
    b := true;
  }

  predicate Verifies(crc: Crc, m: Module, buf: seq<byte>) {
    && MAX_PATTERN_LENGTH + m.tailLength <= |buf|
    && crc(buf[MAX_PATTERN_LENGTH..MAX_PATTERN_LENGTH + m.tailLength]) == m.tailCrc16
    && forall tb | tb in m.tailBytes ::
      var at := MAX_PATTERN_LENGTH + m.tailLength + tb.offset;
      at < |buf| && buf[at] == tb.value
  }

  method ModuleVerifies(crc: Crc, m: Module, buf: seq<byte>) returns (b: bool)
    ensures b == Verifies(crc, m, buf)
  {
    var needed := MAX_PATTERN_LENGTH + m.tailLength;
    if |buf| < needed { return false; }
    var tail := buf[MAX_PATTERN_LENGTH..MAX_PATTERN_LENGTH + m.tailLength];
    if crc(tail) != m.tailCrc16 { return false; }
    for i := 0 to |m.tailBytes|
      invariant forall tb | tb in m.tailBytes[..i] :: needed + tb.offset < |buf| && buf[needed + tb.offset] == tb.value
    {
      var at := needed + m.tailBytes[i].offset;
      assert m.tailBytes[i] in m.tailBytes;
      if at >= |buf| || buf[at] != m.tailBytes[i].value { return false; }
    }
    assert m.tailBytes[..|m.tailBytes|] == m.tailBytes;
    b := true;
  }

  /** Every leaf module of a tree in pre-order, with the whole pattern of its leaf. */
  function Leaves(node: Node): seq<(Pattern, Module)>
    decreases node, |node.children| + 1
  {
    OwnLeaves(node.pattern, node.leafModules) + LeavesOf(node, |node.children|)
  }

  /** Those of the first n children. */
  function LeavesOf(node: Node, n: nat): seq<(Pattern, Module)>
    requires n <= |node.children|
    decreases node, n
  {
    if n == 0 then [] else LeavesOf(node, n - 1) + Leaves(node.children[n - 1])
  }

  function OwnLeaves(p: Pattern, modules: seq<Module>): seq<(Pattern, Module)> {
    seq(|modules|, i requires 0 <= i < |modules| => (p, modules[i]))
  }

  /** Brute force: the leaf modules whose pattern matches and that verify, in order. */
  function Matching(crc: Crc, leaves: seq<(Pattern, Module)>, buf: seq<byte>): seq<Module> {
    if leaves == [] then []
    else
      var (p, m) := leaves[|leaves| - 1];
      Matching(crc, leaves[..|leaves| - 1], buf) + (if Matches(p, buf) && Verifies(crc, m, buf) then [m] else [])
  }

  lemma {:induction false} MatchingAppend(crc: Crc, a: seq<(Pattern, Module)>, b: seq<(Pattern, Module)>,
                                          buf: seq<byte>)
    ensures Matching(crc, a + b, buf) == Matching(crc, a, buf) + Matching(crc, b, buf)
  {
    hide Matches, Verifies;
    if b == [] {
      assert a + b == a;
    } else {
      MatchingAppend(crc, a, b[..|b| - 1], buf);
      assert (a + b)[..|a + b| - 1] == a + b[..|b| - 1];
    }
  }

  /** Child patterns extend their parent's, all the way down. */
  ghost predicate Extends(node: Node)
  {
    forall c | c in node.children :: node.pattern <= c.pattern && Extends(c)
  }

  lemma {:induction false} LeavesExtend(node: Node)
    requires Extends(node)
    ensures forall l | l in Leaves(node) :: node.pattern <= l.0
    decreases node, |node.children| + 1
  {
    LeavesOfExtend(node, |node.children|);
  }

  lemma {:induction false} LeavesOfExtend(node: Node, n: nat)
    requires Extends(node) && n <= |node.children|
    ensures forall l | l in LeavesOf(node, n) :: node.pattern <= l.0
    decreases node, n
  {
    if n > 0 {
      var c := node.children[n - 1];
      LeavesExtend(c);
      forall l | l in Leaves(c) ensures node.pattern <= l.0 {
        PrefixOfPrefix(node.pattern, c.pattern, l.0);
      }
      LeavesOfExtend(node, n - 1);
    }
  }

  lemma PrefixOfPrefix(a: Pattern, b: Pattern, c: Pattern)
    requires a <= b && b <= c
    ensures a <= c
  {
  }

  /** A node whose pattern fails has nothing to find below it: pruning is safe. */
  lemma PruningIsSafe(crc: Crc, node: Node, buf: seq<byte>)
    requires Extends(node) && !Matches(node.pattern, buf)
    ensures Matching(crc, Leaves(node), buf) == []
  {
    LeavesExtend(node);
    NothingMatches(crc, node.pattern, Leaves(node), buf);
  }

  lemma {:induction false} NothingMatches(crc: Crc, p: Pattern, leaves: seq<(Pattern, Module)>, buf: seq<byte>)
    requires !Matches(p, buf) && forall l | l in leaves :: p <= l.0
    ensures Matching(crc, leaves, buf) == []
  {
    if leaves != [] {
      var l := leaves[|leaves| - 1];
      assert l in leaves;
      NothingMatches(crc, p, leaves[..|leaves| - 1], buf);
      if Matches(l.0, buf) { ExtensionMatchesLess(p, l.0, buf); }
    }
  }

  /** The pruned search finds exactly what brute force finds, in the same order. */
  method CollectMatching(crc: Crc, node: Node, buf: seq<byte>, before: seq<Module>) returns (out: seq<Module>)
    requires Extends(node)
    ensures out == before + Matching(crc, Leaves(node), buf)
    decreases node
  {
    hide Matching, Matches, Verifies, Leaves, LeavesOf, OwnLeaves, FoundSoFar;
    var matches := PatternMatches(node.pattern, buf);
    if !matches {
      PruningIsSafe(crc, node, buf);
      return before;
    }
    out := CollectOwn(crc, node, buf, before);
    FoundSoFarStarts(crc, node, buf);
    FoundSoFarEnds(crc, node, buf);
    for i := 0 to |node.children|
      invariant out == before + FoundSoFar(crc, node, i, buf)
    {
      assert node.children[i] in node.children;
      var sofar := out;
      out := CollectMatching(crc, node.children[i], buf, sofar);
      FoundSoFarGrows(crc, node, i, buf);
    }
  }

  /** What the node's own modules and its first n children give. */
  ghost function FoundSoFar(crc: Crc, node: Node, n: nat, buf: seq<byte>): seq<Module>
    requires n <= |node.children|
  {
    Matching(crc, OwnLeaves(node.pattern, node.leafModules) + LeavesOf(node, n), buf)
  }

  lemma FoundSoFarStarts(crc: Crc, node: Node, buf: seq<byte>)
    ensures FoundSoFar(crc, node, 0, buf) == Matching(crc, OwnLeaves(node.pattern, node.leafModules), buf)
  {
    var own := OwnLeaves(node.pattern, node.leafModules);
    assert own + LeavesOf(node, 0) == own;
  }

  lemma FoundSoFarEnds(crc: Crc, node: Node, buf: seq<byte>)
    ensures FoundSoFar(crc, node, |node.children|, buf) == Matching(crc, Leaves(node), buf)
  {
  }

  lemma FoundSoFarGrows(crc: Crc, node: Node, i: nat, buf: seq<byte>)
    requires i < |node.children|
    ensures FoundSoFar(crc, node, i + 1, buf) ==
      FoundSoFar(crc, node, i, buf) + Matching(crc, Leaves(node.children[i]), buf)
  {
    var own := OwnLeaves(node.pattern, node.leafModules);
    assert own + LeavesOf(node, i + 1) == own + LeavesOf(node, i) + Leaves(node.children[i]);
    MatchingAppend(crc, own + LeavesOf(node, i), Leaves(node.children[i]), buf);
  }

  method CollectOwn(crc: Crc, node: Node, buf: seq<byte>, before: seq<Module>) returns (out: seq<Module>)
    requires Matches(node.pattern, buf)
    ensures out == before + Matching(crc, OwnLeaves(node.pattern, node.leafModules), buf)
  {
    out := before;
    var own := OwnLeaves(node.pattern, node.leafModules);
    for i := 0 to |node.leafModules|
      invariant out == before + Matching(crc, own[..i], buf)
    {
      assert own[..i + 1][..i] == own[..i];
      var verifies := ModuleVerifies(crc, node.leafModules[i], buf);
      if verifies { out := out + [node.leafModules[i]]; }
    }
    assert own[..|own|] == own;
  }

  /** The early-exit form answers whether the search would find anything. */
  method NodeMatches(crc: Crc, node: Node, buf: seq<byte>) returns (found: bool)
    requires Extends(node)
    ensures found <==> Matching(crc, Leaves(node), buf) != []
    decreases node
  {
    var matches := PatternMatches(node.pattern, buf);
    if !matches {
      PruningIsSafe(crc, node, buf);
      return false;
    }
    var own := OwnLeaves(node.pattern, node.leafModules);
    MatchingAppend(crc, own, LeavesOf(node, |node.children|), buf);
    found := OwnMatches(crc, node, buf);
    if found { return; }
    NoLeaves(crc, node, buf);
    hide Matching, Matches, Verifies, LeavesOf, OwnLeaves;
    for i := 0 to |node.children|
      invariant Matching(crc, LeavesOf(node, i), buf) == []
    {
      assert node.children[i] in node.children;
      var below := NodeMatches(crc, node.children[i], buf);
      LeavesGrow(crc, node, i, buf);
      if below {
        LaterLeaves(crc, node, i + 1, buf);
        return true;
      }
    }
  }

  lemma NoLeaves(crc: Crc, node: Node, buf: seq<byte>)
    ensures Matching(crc, LeavesOf(node, 0), buf) == []
  {
  }

  lemma LeavesGrow(crc: Crc, node: Node, i: nat, buf: seq<byte>)
    requires i < |node.children|
    ensures Matching(crc, LeavesOf(node, i + 1), buf)
         == Matching(crc, LeavesOf(node, i), buf) + Matching(crc, Leaves(node.children[i]), buf)
  {
    MatchingAppend(crc, LeavesOf(node, i), Leaves(node.children[i]), buf);
  }

  method OwnMatches(crc: Crc, node: Node, buf: seq<byte>) returns (found: bool)
    requires Matches(node.pattern, buf)
    ensures found <==> Matching(crc, OwnLeaves(node.pattern, node.leafModules), buf) != []
  {
    var own := OwnLeaves(node.pattern, node.leafModules);
    for i := 0 to |node.leafModules|
      invariant Matching(crc, own[..i], buf) == []
    {
      assert own[..i + 1][..i] == own[..i];
      var verifies := ModuleVerifies(crc, node.leafModules[i], buf);
      if verifies {
        MatchingAppend(crc, own[..i + 1], own[i + 1..], buf);
        assert own == own[..i + 1] + own[i + 1..];
        return true;
      }
    }
    assert own[..|own|] == own;
    found := false;
  }

  /** What the first children already give, the whole node gives. */
  lemma {:induction false} LaterLeaves(crc: Crc, node: Node, n: nat, buf: seq<byte>)
    requires n <= |node.children|
    requires Matching(crc, LeavesOf(node, n), buf) != []
    ensures Matching(crc, LeavesOf(node, |node.children|), buf) != []
    decreases |node.children| - n
  {
    if n < |node.children| {
      MatchingAppend(crc, LeavesOf(node, n), Leaves(node.children[n]), buf);
      LaterLeaves(crc, node, n + 1, buf);
    }
  }
}
