/** The history of a code-flow run: every definition and every callback in order, and what
    the shared stores hold because of it. */
module FlowHistory {
  import opened Features
  import opened Locations
  import opened Discovery
  import opened CodeBlocks

  /** The edges of an instruction: the fall-through first, the target last. */
  function Branches(va: nat, op: Insn): seq<Branch> {
    if op.isReturn then []
    else
      var flags: BranchFlags := if op.isConditional then {Cond} else {};
      var fall := if op.isFallthrough then [Branch(Some(va + op.length), flags + {Fall})] else [];
      if op.isCall && op.target.Some? then fall + [Branch(op.target, flags + {Proc})]
      else if op.isJump && op.target.Some? then fall + [Branch(op.target, flags)]
      else if op.isJump then fall + [Branch(None, flags + {Deref})]
      else fall
  }

  function CondMark(op: Insn): BranchFlags { if op.isConditional then {Cond} else {} }

  /** The fall-through is an edge exactly if execution may fall through; a direct call gives
      a procedure edge, any other direct jump a plain one, and a jump without a target an
      indirect one. A return has none. */
  ghost predicate IsEdge(va: nat, op: Insn, b: Branch) {
    && !op.isReturn
    && (|| (op.isFallthrough && b == Branch(Some(va + op.length), CondMark(op) + {Fall}))
        || (op.isCall && op.target.Some? && b == Branch(op.target, CondMark(op) + {Proc}))
        || (op.isJump && !op.isCall && op.target.Some? && b == Branch(op.target, CondMark(op)))
        || (op.isJump && op.target.None? && b == Branch(None, CondMark(op) + {Deref})))
  }

  lemma BranchesAre(va: nat, op: Insn)
    ensures forall b :: b in Branches(va, op) <==> IsEdge(va, op, b)
    ensures forall i | 0 <= i < |Branches(va, op)| && Fall in Branches(va, op)[i].flags :: i == 0
  {
    assert Fall !in {Proc} && Fall !in {Deref} && Fall !in {Cond};
  }

  /** What changes the stores: an instruction was decoded, a jump-table case was found, a
      pointer was defined, or a function was reported while it had the given outstanding
      waits. What the engine decides: a function's flow begins or ends, or is refused for
      want of room; an edge is queued, suppressed behind a call that does not return, or
      makes its function wait; the bytes of a table are set aside; a flow stops at its
      limit, having decoded the given instructions. */
  datatype Event =
    | Decoded(va: nat, op: Insn)
    | Tabled(source: nat, target: nat)
    | Pointed(site: nat, size: nat)
    | Reported(va: nat, outstanding: set<nat>)
    | Entered(f: nat)
    | Left(f: nat)
    | Refused(f: nat)
    | Queued(source: nat, target: nat)
    | Suppressed(source: nat, target: nat)
    | Waited(f: nat, target: nat)
    | Spanned(source: nat, at: nat, end: nat)
    | Limited(insns: set<nat>)

  type History = seq<Event>

  /** What the stores of a driver hold. */
  datatype Store = Store(read: nat -> Option<Insn>, locs: LocationMap, from: XrefMap, noFall: set<nat>)

  // ----- the stores as the history leaves them

  function LocsOf(h: History): LocationMap {
    if h == [] then map[]
    else
      var was := LocsOf(h[..|h| - 1]);
      match h[|h| - 1]
      case Decoded(va, op) => Put(was, va, op.length, Op)
      case Pointed(site, size) => Put(was, site, size, Pointer)
      case _ => was
  }

  function NoFallOf(h: History): set<nat> {
    set e | e in h && e.Decoded? && !e.op.isFallthrough :: e.va
  }

  /** The flags of the edge from x to t, if there is one. */
  function EdgeOf(h: History, x: nat, t: nat): Option<BranchFlags> {
    if h == [] then None
    else
      var was := EdgeOf(h[..|h| - 1], x, t);
      match h[|h| - 1]
      case Decoded(va, op) => if va == x then Accumulated(was, Branches(va, op), t) else was
      case Tabled(source, target) =>
        if source == x && target == t then Some(if was.Some? then was.value + {Cond} else {Cond}) else was
      case _ => was
  }

  predicate Flagged(flags: Option<BranchFlags>, f: BranchBit) { flags.Some? && f in flags.value }

  /** A branch to t that is recorded as an edge. */
  ghost predicate Reaches(b: Branch, t: nat) { b.target == Some(t) && Fall !in b.flags }

  ghost predicate SomeReaches(branches: seq<Branch>, t: nat) { exists b :: b in branches && Reaches(b, t) }

  ghost predicate SomeFlagged(branches: seq<Branch>, t: nat, f: BranchBit) {
    exists b :: b in branches && Reaches(b, t) && f in b.flags
  }

  lemma SomeOn(branches: seq<Branch>, last: Branch, t: nat)
    ensures SomeReaches(branches + [last], t) <==> SomeReaches(branches, t) || Reaches(last, t)
    ensures forall f :: SomeFlagged(branches + [last], t, f) <==>
            SomeFlagged(branches, t, f) || (Reaches(last, t) && f in last.flags)
  {
    hide Reaches;
    assert forall b :: b in branches + [last] <==> b in branches || b == last;
  }

  lemma {:induction false} AccumulatedIs(was: Option<BranchFlags>, branches: seq<Branch>, t: nat)
    ensures Accumulated(was, branches, t).Some? <==> was.Some? || SomeReaches(branches, t)
    ensures forall f :: Flagged(Accumulated(was, branches, t), f) <==> Flagged(was, f) || SomeFlagged(branches, t, f)
  {
    if branches != [] {
      var init, last := branches[..|branches| - 1], branches[|branches| - 1];
      assert branches == init + [last];
      AccumulatedIs(was, init, t);
      SomeOn(init, last, t);
      hide SomeReaches, SomeFlagged;
    }
  }

  /** Event e records an edge from x to t with the given flags: a case of a table, or an edge
      of an instruction other than its fall-through. */
  ghost predicate Records(e: Event, x: nat, t: nat, flags: BranchFlags) {
    || (e == Tabled(x, t) && flags == {Cond})
    || (e.Decoded? && e.va == x && IsEdge(x, e.op, Branch(Some(t), flags)) && Fall !in flags)
  }

  ghost predicate Recorded(h: History, x: nat, t: nat) { exists e, flags :: e in h && Records(e, x, t, flags) }

  ghost predicate RecordedWith(h: History, x: nat, t: nat, f: BranchBit) {
    exists e, flags :: e in h && Records(e, x, t, flags) && f in flags
  }

  lemma RecordedOn(h: History, e: Event, x: nat, t: nat)
    ensures Recorded(h + [e], x, t) <==> Recorded(h, x, t) || exists flags :: Records(e, x, t, flags)
    ensures forall f :: RecordedWith(h + [e], x, t, f) <==>
            RecordedWith(h, x, t, f) || exists flags :: Records(e, x, t, flags) && f in flags
  {
    assert forall y :: y in h + [e] <==> y in h || y == e;
    hide Records;
  }

  lemma DecodedRecords(x: nat, op: Insn, t: nat, was: Option<BranchFlags>)
    ensures Accumulated(was, Branches(x, op), t).Some? <==>
            was.Some? || exists flags :: Records(Decoded(x, op), x, t, flags)
    ensures forall f :: Flagged(Accumulated(was, Branches(x, op), t), f) <==>
            Flagged(was, f) || exists flags :: Records(Decoded(x, op), x, t, flags) && f in flags
  {
    hide Branches, Accumulated, IsEdge;
    var branches, e := Branches(x, op), Decoded(x, op);
    AccumulatedIs(was, branches, t);
    BranchesAre(x, op);
    forall b | b in branches && Reaches(b, t) ensures Records(e, x, t, b.flags) {
      assert b == Branch(Some(t), b.flags);
    }
    forall flags | Records(e, x, t, flags)
      ensures Branch(Some(t), flags) in branches && Reaches(Branch(Some(t), flags), t) {
    }
  }

  /** There is an edge from x to t exactly if some event recorded one, and it carries exactly
      the flags it was ever recorded with. */
  lemma {:induction false} EdgeIs(h: History, x: nat, t: nat)
    ensures EdgeOf(h, x, t).Some? <==> Recorded(h, x, t)
    ensures forall f :: Flagged(EdgeOf(h, x, t), f) <==> RecordedWith(h, x, t, f)
  {
    if h != [] {
      var init, last := h[..|h| - 1], h[|h| - 1];
      assert h == init + [last];
      EdgeIs(init, x, t);
      RecordedOn(init, last, x, t);
      hide Recorded, RecordedWith, Branches, Accumulated, IsEdge;
      if last.Decoded? && last.va == x {
        DecodedRecords(x, last.op, t, EdgeOf(init, x, t));
      } else {
        assert forall flags :: Records(last, x, t, flags) ==> last == Tabled(x, t) && flags == {Cond};
        if last == Tabled(x, t) { assert Records(last, x, t, {Cond}); }
      }
    }
  }

  ghost predicate EdgesAre(h: History, from: XrefMap) {
    forall x, t :: EdgeFlags(From(from, x), t) == EdgeOf(h, x, t)
  }

  ghost predicate Replays(h: History, s: Store) {
    s.locs == LocsOf(h) && s.noFall == NoFallOf(h) && EdgesAre(h, s.from)
  }

  /** A view that shows the stores as the history left them. */
  ghost predicate Sees(v: View, read: nat -> Option<Insn>, h: History) {
    && v.locs == LocsOf(h) && EdgesAre(h, v.from)
    && (forall at :: v.noFall(at) <==> at in NoFallOf(h))
    && (forall at :: v.canParse(at) <==> read(at).Some?)
  }

  // ----- sane histories

  ghost predicate Happened(h: History, i: nat, va: nat) { i < |h| && h[i].Decoded? && h[i].va == va }

  ghost predicate FirstReport(h: History, i: nat, f: nat) {
    && i < |h| && h[i].Reported? && h[i].va == f
    && forall j | 0 <= j < i && h[j].Reported? :: h[j].va != f
  }

  /** v shows the stores as they stood when f was first reported. */
  ghost predicate Viewed(h: History, read: nat -> Option<Insn>, f: nat, v: View) {
    exists i: nat :: FirstReport(h, i, f) && Sees(v, read, h[..i])
  }

  ghost predicate AllViewed(h: History, read: nat -> Option<Insn>, reported: set<nat>, views: map<nat, View>) {
    forall f | f in reported :: f in views && Viewed(h, read, f, views[f])
  }

  /** Nothing is decoded twice or other than as read, what was decoded stays defined, and no
      report was made with a wait outstanding. */
  ghost predicate Orderly(h: History, s: Store, reported: set<nat>) {
    && (forall i: nat, j: nat, va | Happened(h, i, va) && Happened(h, j, va) :: i == j)
    && (forall i: nat, va | Happened(h, i, va) :: Defined(s.locs, va) && s.read(va) == Some(h[i].op))
    && (forall e | e in h && e.Reported? :: e.outstanding == {} && e.va in reported)
  }

  /** An orderly history that accounts for all the stores hold now, and for what every
      reported function's blocks were recovered from. */
  ghost predicate Sane(h: History, s: Store, reported: set<nat>, views: map<nat, View>) {
    Orderly(h, s, reported) && Replays(h, s) && AllViewed(h, s.read, reported, views)
  }

  lemma SaneAtFirst(s: Store, views: map<nat, View>)
    requires s.locs == map[] && s.from == map[] && s.noFall == {}
    ensures Sane([], s, {}, views)
  {
  }

  lemma ViewedLater(h: History, e: Event, read: nat -> Option<Insn>, reported: set<nat>, views: map<nat, View>)
    requires AllViewed(h, read, reported, views)
    ensures AllViewed(h + [e], read, reported, views)
  {
    forall f | f in reported ensures Viewed(h + [e], read, f, views[f]) {
      var i: nat :| FirstReport(h, i, f) && Sees(views[f], read, h[..i]);
      hide Sees;
      assert (h + [e])[..i] == h[..i];
      assert FirstReport(h + [e], i, f);
    }
  }

  lemma SaneDecoded(h: History, s: Store, now: Store, reported: set<nat>, views: map<nat, View>, va: nat, op: Insn)
    requires Sane(h, s, reported, views) && Filed(s.locs) && !Defined(s.locs, va)
    requires s.read(va) == Some(op) && op.length > 0
    requires now.read == s.read && now.locs == Put(s.locs, va, op.length, Op)
    requires now.noFall == if op.isFallthrough then s.noFall else s.noFall + {va}
    requires EdgesRecorded(s.from, now.from, va, Branches(va, op))
    ensures Sane(h + [Decoded(va, op)], now, reported, views)
    ensures forall x | Defined(s.locs, x) :: Defined(now.locs, x)
    ensures Defined(now.locs, va)
  {
    DecodedDefines(s.locs, va, op.length);
    OrderlyDecoded(h, s, now, reported, va, op);
    ReplaysDecoded(h, s, now, va, op);
    ViewedLater(h, Decoded(va, op), s.read, reported, views);
  }

  lemma DecodedDefines(locs: LocationMap, va: nat, size: nat)
    requires Filed(locs) && !Defined(locs, va) && size > 0
    ensures forall x | Defined(locs, x) :: Defined(Put(locs, va, size, Op), x)
    ensures Defined(Put(locs, va, size, Op), va)
  {
    forall x ensures Defined(locs, x) ==> Defined(Put(locs, va, size, Op), x) { PutOnlyAdds(locs, va, size, Op, x); }
    PutOnlyAdds(locs, va, size, Op, va);
  }

  lemma OrderlyDecoded(h: History, s: Store, now: Store, reported: set<nat>, va: nat, op: Insn)
    requires Orderly(h, s, reported) && !Defined(s.locs, va) && s.read(va) == Some(op) && now.read == s.read
    requires Defined(now.locs, va) && forall x | Defined(s.locs, x) :: Defined(now.locs, x)
    ensures Orderly(h + [Decoded(va, op)], now, reported)
  {
    hide Defined;
    var h' := h + [Decoded(va, op)];
    assert forall i: nat, x :: Happened(h', i, x) <==> Happened(h, i, x) || (i == |h| && x == va);
    assert forall i: nat, x | Happened(h, i, x) :: h'[i] == h[i];
  }

  lemma ReplaysDecoded(h: History, s: Store, now: Store, va: nat, op: Insn)
    requires Replays(h, s) && now.locs == Put(s.locs, va, op.length, Op)
    requires now.noFall == if op.isFallthrough then s.noFall else s.noFall + {va}
    requires EdgesRecorded(s.from, now.from, va, Branches(va, op))
    ensures Replays(h + [Decoded(va, op)], now)
  {
    hide Branches, Accumulated, From, EdgeFlags;
    var h' := h + [Decoded(va, op)];
    assert h'[..|h|] == h;
    assert forall e :: e in h' <==> e in h || e == Decoded(va, op);
  }

  lemma SaneTabled(h: History, s: Store, now: Store, reported: set<nat>, views: map<nat, View>, source: nat,
                   target: nat)
    requires Sane(h, s, reported, views) && now == s.(from := now.from)
    requires EdgeAdded(s.from, now.from, source, target, {Cond})
    ensures Sane(h + [Tabled(source, target)], now, reported, views)
  {
    var h' := h + [Tabled(source, target)];
    assert h'[..|h|] == h;
    ViewedLater(h, Tabled(source, target), s.read, reported, views);
    OrderlyOn(h, Tabled(source, target), s, now, reported);
    assert forall e :: e in h' <==> e in h || e == Tabled(source, target);
    hide Orderly, AllViewed, From, EdgeFlags;
  }

  lemma SanePointed(h: History, s: Store, now: Store, reported: set<nat>, views: map<nat, View>, site: nat, size: nat)
    requires Sane(h, s, reported, views) && now == s.(locs := Put(s.locs, site, size, Pointer))
    requires forall x | Defined(s.locs, x) :: Defined(now.locs, x)
    ensures Sane(h + [Pointed(site, size)], now, reported, views)
  {
    var h' := h + [Pointed(site, size)];
    assert h'[..|h|] == h;
    ViewedLater(h, Pointed(site, size), s.read, reported, views);
    OrderlyOn(h, Pointed(site, size), s, now, reported);
    assert forall e :: e in h' <==> e in h || e == Pointed(site, size);
    hide Orderly, AllViewed, From, EdgeFlags;
  }

  /** A decision of the engine changes no store. */
  lemma SaneNoted(h: History, s: Store, reported: set<nat>, views: map<nat, View>, e: Event)
    requires Sane(h, s, reported, views) && !e.Decoded? && !e.Tabled? && !e.Pointed? && !e.Reported?
    ensures Sane(h + [e], s, reported, views)
  {
    assert (h + [e])[..|h|] == h;
    ViewedLater(h, e, s.read, reported, views);
    OrderlyOn(h, e, s, s, reported);
    assert forall x :: x in h + [e] <==> x in h || x == e;
    hide Orderly, AllViewed, From, EdgeFlags;
  }

  /** What neither decodes nor reports leaves the history orderly. */
  lemma OrderlyOn(h: History, e: Event, s: Store, now: Store, reported: set<nat>)
    requires Orderly(h, s, reported) && !e.Decoded? && !e.Reported? && now.read == s.read
    requires forall x | Defined(s.locs, x) :: Defined(now.locs, x)
    ensures Orderly(h + [e], now, reported)
  {
    hide Defined;
    assert forall i: nat, x :: Happened(h + [e], i, x) <==> Happened(h, i, x);
    assert forall i: nat, x | Happened(h, i, x) :: (h + [e])[i] == h[i];
  }

  /** A report, the first of f or a later one. */
  lemma SaneReported(h: History, s: Store, reported: set<nat>, views: map<nat, View>, now: map<nat, View>, f: nat)
    requires Sane(h, s, reported, views)
    requires f in reported ==> now == views
    requires f !in reported ==> f in now && now == views[f := now[f]] && Sees(now[f], s.read, h)
    ensures Sane(h + [Reported(f, {})], s, reported + {f}, now)
  {
    var e := Reported(f, {});
    OrderlyReported(h, s, reported, f);
    ReplaysReported(h, s, f);
    ViewedLater(h, e, s.read, reported, views);
    hide Sees, Replays;
    if f !in reported {
      assert (h + [e])[..|h|] == h && FirstReport(h + [e], |h|, f);
      assert Viewed(h + [e], s.read, f, now[f]);
    }
  }

  lemma OrderlyReported(h: History, s: Store, reported: set<nat>, f: nat)
    requires Orderly(h, s, reported)
    ensures Orderly(h + [Reported(f, {})], s, reported + {f})
  {
    hide Defined;
    var h' := h + [Reported(f, {})];
    assert forall i: nat, x :: Happened(h', i, x) <==> Happened(h, i, x);
    assert forall i: nat, x | Happened(h, i, x) :: h'[i] == h[i];
  }

  lemma ReplaysReported(h: History, s: Store, f: nat)
    requires Replays(h, s)
    ensures Replays(h + [Reported(f, {})], s)
  {
    var h' := h + [Reported(f, {})];
    assert h'[..|h|] == h;
    assert forall e :: e in h' <==> e in h || e == Reported(f, {});
  }

  // ----- tidy moments

  ghost predicate LeadsToStart(locs: LocationMap, t: nat) {
    Get(locs, t).Some? && Get(locs, t).value.kind == Op ==> t in locs
  }

  /** At this moment instructions do not overlap, and edges and f lead to instruction starts
      where they lead into instructions at all. */
  ghost predicate TidyFor(h: History, f: nat) {
    var locs := LocsOf(h);
    && (forall a, b | a in locs && b in locs && locs[a].kind == Op && locs[b].kind == Op && a < b ::
      a + locs[a].size <= b)
    && (forall x, t | EdgeOf(h, x, t).Some? :: LeadsToStart(locs, t))
    && LeadsToStart(locs, f)
  }

  ghost predicate HasEdgeTo(h: History, f: nat) { exists x :: EdgeOf(h, x, f).Some? }

  lemma {:induction false} EdgeListed(edges: seq<CodeXref>, t: nat)
    ensures EdgeFlags(edges, t).Some? <==> exists i :: 0 <= i < |edges| && edges[i].to == t
  {
    if edges != [] {
      EdgeListed(edges[1..], t);
      assert forall i | 0 < i < |edges| :: edges[i] == edges[1..][i - 1];
      assert forall i | 0 <= i < |edges| - 1 :: edges[1..][i] == edges[i + 1];
    }
  }

  /** The targets of a view are the targets of the edges in the history it shows. */
  lemma TargetsSeen(v: View, read: nat -> Option<Insn>, h: History, t: nat)
    requires ViewValid(v) && Sees(v, read, h)
    ensures t in v.to <==> HasEdgeTo(h, t)
  {
    hide LocsOf, EdgeOf, NoFallOf, EdgeFlags;
    if t in v.to {
      assert IsTarget(v.from, t);
      var x, i :| x in v.from && 0 <= i < |v.from[x]| && v.from[x][i].to == t;
      EdgeListed(From(v.from, x), t);
      assert EdgeOf(h, x, t).Some?;
    }
    if x :| EdgeOf(h, x, t).Some? {
      assert EdgeFlags(From(v.from, x), t).Some?;
      EdgeListed(From(v.from, x), t);
    }
  }

  lemma TidySeen(v: View, read: nat -> Option<Insn>, h: History, f: nat)
    requires ViewValid(v) && Sees(v, read, h) && TidyFor(h, f)
    ensures Tidy(v) && Aligned(v, f)
  {
    hide LocsOf, EdgeOf, NoFallOf, EdgesAre, ViewValid;
    forall t | t in v.to ensures Aligned(v, t) {
      TargetsSeen(v, read, h, t);
      var x :| EdgeOf(h, x, t).Some?;
      assert LeadsToStart(LocsOf(h), t);
    }
  }
}
