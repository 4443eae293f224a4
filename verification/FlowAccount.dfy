/** What a code-flow run owes: every edge of every decoded instruction is followed, or the
    history says why not, and nothing is done without a cause in the history before it. */
module FlowAccount {
  import opened Features
  import opened Locations
  import opened Discovery
  import opened FlowHistory

  const MAX_DESCENT_DEPTH := 512
  const MAX_FUNCTIONS_PER_IMAGE := 0x4_0000
  const MAX_INSNS_PER_FUNCTION := 0x10_0000

  /** What a run is told about the bytes it flows over. */
  datatype Image = Image(read: nat -> Option<Insn>, isExec: nat -> bool)

  predicate IsTableJump(op: Insn) { op.isJump && !op.isConditional && op.target.None? && op.indexed }

  // ----- what the history says of the engine

  function PathAfter(path: seq<nat>, e: Event): seq<nat> {
    match e
    case Entered(f) => path + [f]
    case Left(_) => if path == [] then [] else path[..|path| - 1]
    case _ => path
  }

  /** The functions being flowed, the outermost first. */
  function PathOf(h: History): seq<nat> {
    if h == [] then [] else PathAfter(PathOf(h[..|h| - 1]), h[|h| - 1])
  }

  function EnteredIn(h: History): set<nat> { set e | e in h && e.Entered? :: e.f }

  function SuppressedIn(h: History): set<(nat, nat)> {
    set e | e in h && e.Suppressed? :: (e.source, e.target)
  }

  lemma EnteredKnown(h: History, f: nat)
    ensures Entered(f) in h <==> f in EnteredIn(h)
  {
    assert Entered(f) in h ==> Entered(f).Entered?;
  }

  lemma SuppressedKnown(h: History, va: nat, t: nat)
    ensures Suppressed(va, t) in h <==> (va, t) in SuppressedIn(h)
  {
    assert Suppressed(va, t) in h ==> Suppressed(va, t).Suppressed?;
  }

  lemma {:induction false} PathEntered(h: History)
    ensures forall f | f in PathOf(h) :: Entered(f) in h
  {
    if h != [] {
      PathEntered(h[..|h| - 1]);
      assert h[..|h| - 1] + [h[|h| - 1]] == h;
    }
  }

  lemma PathOn(h: History, e: Event)
    ensures PathOf(h + [e]) == PathAfter(PathOf(h), e)
  {
    assert (h + [e])[..|h|] == h;
  }

  lemma SetsOn(h: History, e: Event)
    ensures EnteredIn(h + [e]) == if e.Entered? then EnteredIn(h) + {e.f} else EnteredIn(h)
    ensures SuppressedIn(h + [e]) ==
            if e.Suppressed? then SuppressedIn(h) + {(e.source, e.target)} else SuppressedIn(h)
  {
    assert forall x :: x in h + [e] <==> x in h || x == e;
  }

  lemma KeptIn(h: History, l: History)
    requires h <= l
    ensures forall e | e in h :: e in l
    ensures EnteredIn(h) <= EnteredIn(l)
  {
    assert forall i | 0 <= i < |h| :: h[i] == l[i];
  }

  // ----- edges followed

  /** A jump into a function being flowed, other than the one flowing now. */
  predicate JumpsUp(op: Insn, path: seq<nat>, t: nat) {
    op.isJump && t in path && t != path[|path| - 1]
  }

  /** b leads out of va: it is an edge of the instruction decoded there, or a case found for
      its table. */
  ghost predicate LeadsOut(h: History, va: nat, b: Branch) {
    || (exists op :: Decoded(va, op) in h && IsEdge(va, op, b))
    || (b.target.Some? && b.flags == {Cond} && Tabled(va, b.target.value) in h)
  }

  /** The instruction at va calls f, and f is not just the next instruction. */
  ghost predicate CallsTo(im: Image, h: History, va: nat, f: nat) {
    exists op :: Decoded(va, op) in h && !op.isReturn && op.isCall && op.target == Some(f) && im.isExec(f)
      && f != va + op.length
  }

  ghost predicate Called(im: Image, h: History, f: nat) { exists va :: CallsTo(im, h, va, f) }

  lemma CalledLater(im: Image, h: History, l: History, f: nat)
    requires h <= l && Called(im, h, f)
    ensures Called(im, l, f)
  {
    KeptIn(h, l);
    var va :| CallsTo(im, h, va, f);
    assert CallsTo(im, l, va, f);
  }

  /** t needs no decoding: it is defined, cannot be decoded, or belongs to a table. */
  ghost predicate Done(im: Image, h: History, locs: LocationMap, t: nat) {
    Defined(locs, t) || im.read(t).None? || exists e :: e in h && e.Spanned? && e.at <= t < e.end
  }

  ghost predicate CutShort(h: History, va: nat) { exists insns :: Limited(insns) in h && va in insns }

  /** The state a run is judged by, and what is still open in the middle of it: targets in
      the queue of the flow that decoded the given instructions, and edges of the events
      with the given indices that are still to be consumed. */
  datatype Account = Account(im: Image, h: History, locs: LocationMap, flowed: set<nat>, queue: set<nat>,
                             left: seq<(nat, Branch)>)

  function Whole(im: Image, h: History, locs: LocationMap): Account { Account(im, h, locs, {}, {}, []) }

  /** Edge b of op at va was followed, where path was being flowed. A callee is entered,
      unless it is just the next instruction, the path is too deep or the functions too
      many. A jump to an outer function of the path makes the flowing one wait. Any other
      target is decoded, if it can be, or the flow ran into its limit. Not followed is what
      is not executable or was suppressed. */
  ghost predicate Followed(a: Account, path: seq<nat>, va: nat, op: Insn, b: Branch) {
    b.target.None? ||
    var t := b.target.value;
    if !a.im.isExec(t) || Suppressed(va, t) in a.h then true
    else if Proc in b.flags then
      t == va + op.length || |path| >= MAX_DESCENT_DEPTH || Entered(t) in a.h || Refused(t) in a.h
    else if JumpsUp(op, path, t) then Waited(path[|path| - 1], t) in a.h
    else Done(a.im, a.h, a.locs, t) || CutShort(a.h, va) || (va in a.flowed && t in a.queue)
  }

  /** Edge b of event i was followed. */
  ghost predicate EdgeDone(a: Account, i: nat, b: Branch)
    requires i < |a.h|
  {
    match a.h[i]
    case Decoded(va, op) => Followed(a, PathOf(a.h[..i]), va, op, b)
    case Tabled(va, _) => a.im.read(va).Some? && Followed(a, PathOf(a.h[..i]), va, a.im.read(va).value, b)
    case _ => true
  }

  /** What event i gives rise to has happened: the edges of a decoded instruction and the
      cases of a table were followed, and a function entered was decoded if it can be. */
  ghost predicate Answered(a: Account, i: nat)
    requires i < |a.h|
  {
    match a.h[i]
    case Decoded(va, op) => forall b | IsEdge(va, op, b) :: EdgeDone(a, i, b) || (i, b) in a.left
    case Tabled(va, t) => EdgeDone(a, i, Branch(Some(t), {Cond})) || (i, Branch(Some(t), {Cond})) in a.left
    case Entered(f) => Defined(a.locs, f) || a.im.read(f).None?
    case _ => true
  }

  ghost predicate AllAnswered(a: Account, k: nat) {
    forall i: nat | k <= i < |a.h| :: Answered(a, i)
  }

  /** b is a later state, with no less open. */
  ghost predicate Later(a: Account, b: Account) {
    && a.im == b.im && a.h <= b.h && (forall x | Defined(a.locs, x) :: Defined(b.locs, x))
    && a.flowed <= b.flowed && a.queue <= b.queue
  }

  lemma FollowedLater(a: Account, b: Account, path: seq<nat>, va: nat, op: Insn, e: Branch)
    requires Later(a, b) && Followed(a, path, va, op, e)
    ensures Followed(b, path, va, op, e)
  {
    KeptIn(a.h, b.h);
  }

  lemma EdgeLater(a: Account, b: Account, i: nat, e: Branch)
    requires Later(a, b) && i < |a.h| && EdgeDone(a, i, e)
    ensures EdgeDone(b, i, e)
  {
    assert a.h[..i] == b.h[..i] && a.h[i] == b.h[i];
    hide Followed, Later, PathOf;
    var path := PathOf(a.h[..i]);
    match a.h[i] {
      case Decoded(va, op) => FollowedLater(a, b, path, va, op, e);
      case Tabled(va, _) => FollowedLater(a, b, path, va, a.im.read(va).value, e);
      case _ =>
    }
  }

  /** What was open is still open, or was followed since. */
  ghost predicate Closes(a: Account, b: Account) {
    forall x | x in a.left :: x in b.left || (x.0 < |b.h| && EdgeDone(b, x.0, x.1))
  }

  /** A later state answers for all that an earlier one did, and for what came since. */
  lemma AnsweredLater(a: Account, b: Account, k: nat)
    requires Later(a, b) && Closes(a, b) && AllAnswered(a, k) && AllAnswered(b, |a.h|)
    ensures AllAnswered(b, k)
  {
    hide EdgeDone;
    forall i: nat | k <= i < |b.h| ensures Answered(b, i) {
      if i < |a.h| {
        assert a.h[i] == b.h[i] && Answered(a, i);
        forall e | EdgeDone(a, i, e) ensures EdgeDone(b, i, e) { EdgeLater(a, b, i, e); }
      }
    }
  }

  lemma NothingSince(a: Account)
    ensures AllAnswered(a, |a.h|)
  {
  }

  /** A decision of the engine gives rise to nothing. */
  lemma NotedSince(a: Account, h: History, e: Event)
    requires a.h == h + [e] && !e.Decoded? && !e.Tabled? && !e.Entered?
    ensures AllAnswered(a, |h|)
  {
  }

  /** A flow whose queue is worked off, or that ran into its limit, leaves nothing open. */
  lemma Discharged(a: Account, k: nat)
    requires AllAnswered(a, k) && a.left == []
    requires Limited(a.flowed) in a.h || forall t | t in a.queue :: Done(a.im, a.h, a.locs, t)
    ensures AllAnswered(Whole(a.im, a.h, a.locs), k)
  {
    var w := Whole(a.im, a.h, a.locs);
    hide PathOf, Done;
    forall i: nat | k <= i < |w.h| ensures Answered(w, i) {
      assert Answered(a, i);
      forall e | EdgeDone(a, i, e) ensures EdgeDone(w, i, e) { }
    }
  }

  // ----- causes

  /** What each event needs to have gone before it. */
  ghost predicate Caused(im: Image, h: History, e: Event) {
    var path := PathOf(h);
    match e
    case Decoded(va, _) => path != [] && (va == path[|path| - 1] || exists x :: Queued(x, va) in h)
    case Queued(va, t) =>
      && im.isExec(t) && im.read(va).Some? && Suppressed(va, t) !in h && !JumpsUp(im.read(va).value, path, t)
      && exists b :: LeadsOut(h, va, b) && b.target == Some(t) && Proc !in b.flags
    case Suppressed(va, t) =>
      im.read(va).Some? && t == va + im.read(va).value.length && exists f :: CallsTo(im, h, va, f)
    case Waited(f, t) =>
      && path != [] && f == path[|path| - 1] && t in path && t != f
      && exists va, b :: LeadsOut(h, va, b) && b.target == Some(t)
    case Entered(f) => f !in path && |path| < MAX_DESCENT_DEPTH && (path == [] || Called(im, h, f))
    case Left(f) => path != [] && f == path[|path| - 1]
    case Refused(f) => |EnteredIn(h)| >= MAX_FUNCTIONS_PER_IMAGE
    case Limited(insns) =>
      |insns| >= MAX_INSNS_PER_FUNCTION && forall x | x in insns :: exists op :: Decoded(x, op) in h
    case Tabled(va, _) => im.read(va).Some? && IsTableJump(im.read(va).value)
    case Spanned(va, _, _) => im.read(va).Some? && IsTableJump(im.read(va).value)
    case Reported(f, _) =>
      Entered(f) in h && forall i: nat | i < |h| && h[i].Waited? && h[i].f == f :: ReportedSince(h, i, h[i].target)
    case Pointed(_, _) => path == []
  }

  ghost predicate ReportedSince(h: History, i: nat, f: nat) {
    exists j :: i < j < |h| && h[j].Reported? && h[j].va == f
  }

  ghost predicate AllCaused(im: Image, h: History) {
    forall i: nat | i < |h| :: Caused(im, h[..i], h[i])
  }

  lemma CausedOn(im: Image, h: History, e: Event)
    requires AllCaused(im, h) && Caused(im, h, e)
    ensures AllCaused(im, h + [e])
  {
    hide Caused;
    var l := h + [e];
    forall i: nat | i < |l| ensures Caused(im, l[..i], l[i]) {
      if i < |h| {
        assert l[..i] == h[..i] && l[i] == h[i];
      } else {
        assert l[..i] == h;
      }
    }
  }

  // ----- waits

  type Waits = map<nat, set<nat>>

  predicate Holds(m: Waits, f: nat, g: nat) { f in m && g in m[f] }

  function Waiting(m: Waits, f: nat): set<nat> { if f in m then m[f] else {} }

  function WithWait(m: Waits, f: nat, g: nat): Waits { m[f := Waiting(m, f) + {g}] }

  /** Every wait that was ever recorded is still held, or what it waited for was reported
      since. */
  ghost predicate Awaited(h: History, on: Waits) {
    forall i: nat | i < |h| && h[i].Waited? :: Holds(on, h[i].f, h[i].target) || ReportedSince(h, i, h[i].target)
  }

  lemma AwaitedOn(h: History, on: Waits, e: Event, now: Waits)
    requires Awaited(h, on) && (e.Waited? ==> Holds(now, e.f, e.target))
    requires forall f, g | Holds(on, f, g) :: Holds(now, f, g)
    ensures Awaited(h + [e], now)
  {
    hide Holds;
    var l := h + [e];
    forall i: nat | i < |l| && l[i].Waited?
      ensures Holds(now, l[i].f, l[i].target) || ReportedSince(l, i, l[i].target) {
      if i < |h| {
        assert l[i] == h[i];
        if ReportedSince(h, i, h[i].target) {
          var j :| i < j < |h| && h[j].Reported? && h[j].va == h[i].target;
          assert l[j] == h[j];
        }
      }
    }
  }

  /** The waits on f may go once f is reported. */
  lemma AwaitedReleased(h: History, on: Waits, now: Waits, f: nat)
    requires Awaited(h, on) && h != [] && h[|h| - 1].Reported? && h[|h| - 1].va == f
    requires forall x, y | Holds(on, x, y) && y != f :: Holds(now, x, y)
    ensures Awaited(h, now)
  {
    hide Holds;
    forall i: nat | i < |h| && h[i].Waited?
      ensures Holds(now, h[i].f, h[i].target) || ReportedSince(h, i, h[i].target) {
      if Holds(on, h[i].f, h[i].target) && h[i].target == f {
        assert ReportedSince(h, i, f);
      }
    }
  }
}
