/** Wrapping a line of text at word boundaries, greedily, to a given width. */
module Wrapping {
  import opened TextLines

  /** Without its trailing whitespace. */
  function Trimmed(s: string): (r: string)
    ensures r <= s && (r == [] || !IsSpace(r[|r| - 1]))
    ensures forall k | |r| <= k < |s| :: IsSpace(s[k])
  {
    if s != [] && IsSpace(s[|s| - 1]) then Trimmed(s[..|s| - 1]) else s
  }

  lemma {:induction false} TrimmedAppend(a: string, b: string)
    requires Trimmed(b) != []
    ensures |Trimmed(a + b)| == |a| + |Trimmed(b)|
  {
    assert (a + b)[|a| + |b| - 1] == b[|b| - 1];
    if IsSpace(b[|b| - 1]) {
      assert (a + b)[..|a + b| - 1] == a + b[..|b| - 1];
      TrimmedAppend(a, b[..|b| - 1]);
    }
  }

  datatype Word = Word(start: nat, text: string)
  {
    function End(): nat { start + |text| }
  }

  /** One run of non-space, with whitespace around it. */
  ghost predicate OneWord(t: string) {
    && Trimmed(t) != []
    && forall i, j, k | 0 <= i < j < k < |t| && !IsSpace(t[i]) && IsSpace(t[j]) :: IsSpace(t[k])
  }

  /** A place where a word may end and the next begin. */
  predicate Boundary(s: string, e: nat) {
    e <= |s| && (e == |s| || (0 < e && IsSpace(s[e - 1]) && !IsSpace(s[e])))
  }

  ghost predicate IsWordOf(s: string, w: Word) {
    && w.End() <= |s| && w.text == s[w.start..w.End()] && OneWord(w.text)
    && Boundary(s, w.End()) && (w.start == 0 || !IsSpace(s[w.start]))
  }

  predicate Follows(ws: seq<Word>, i: nat)
    requires i < |ws|
  {
    ws[i].start == if i == 0 then 0 else ws[i - 1].End()
  }

  /** Words lying end to end over s[..p]. */
  ghost predicate Tile(s: string, ws: seq<Word>, p: nat) {
    && (forall i | 0 <= i < |ws| :: IsWordOf(s, ws[i]))
    && (forall i | 0 <= i < |ws| :: Follows(ws, i))
    && p == if ws == [] then 0 else ws[|ws| - 1].End()
  }

  /** Splits text into words; only whitespace has none. */
  method Words(s: string) returns (out: seq<Word>)
    ensures if Trimmed(s) == [] then out == [] else Tile(s, out, |s|)
  {
    hide Tile, IsWordOf, Boundary, IsSpace, Trimmed;
    out := [];
    var p := 0;
    NoWords(s);
    while p < |s|
      invariant Tile(s, out, p) && p <= |s| && (p == 0 || Boundary(s, p)) && (p > 0 || out == [])
      invariant out != [] ==> Trimmed(s) != []
      decreases |s| - p
    {
      var start := p;
      p := Skip(s, start, true);
      if p >= |s| {
        OnlyBlank(s, start);
        return;
      }
      var core := p;
      var m := Skip(s, core, false);
      p := Skip(s, m, true);
      TextIsWord(s, start, core, m, p);
      TileSnoc(s, out, start, Word(start, s[start..p]));
      out := out + [Word(start, s[start..p])];
    }
  }

  lemma NoWords(s: string)
    ensures Tile(s, [], 0) && (s == [] ==> Trimmed(s) == [])
  {
  }

  /** Only the line's own start can be followed by nothing but whitespace. */
  lemma OnlyBlank(s: string, start: nat)
    requires start < |s| && (start == 0 || Boundary(s, start)) && forall k | start <= k < |s| :: IsSpace(s[k])
    ensures start == 0 && Trimmed(s) == []
  {
    assert IsSpace(s[start]);
  }

  lemma TileSnoc(s: string, ws: seq<Word>, p: nat, w: Word)
    requires Tile(s, ws, p) && IsWordOf(s, w) && w.start == p
    ensures Tile(s, ws + [w], w.End())
  {
    hide IsWordOf;
    var more := ws + [w];
    forall i | 0 <= i < |more| ensures IsWordOf(s, more[i]) && Follows(more, i) {
      if i < |ws| { assert Follows(ws, i) && more[i] == ws[i]; }
    }
  }

  /** The first place at or after p where whitespace ends, or begins. */
  method Skip(s: string, p: nat, space: bool) returns (q: nat)
    requires p <= |s|
    ensures p <= q <= |s| && (q < |s| ==> IsSpace(s[q]) != space)
    ensures forall k | p <= k < q :: IsSpace(s[k]) == space
  {
    q := p;
    while q < |s| && IsSpace(s[q]) == space
      invariant p <= q <= |s| && forall k | p <= k < q :: IsSpace(s[k]) == space
    {
      q := q + 1;
    }
  }

  lemma TextIsWord(s: string, start: nat, core: nat, m: nat, end: nat)
    requires start <= core < m <= end <= |s| && !IsSpace(s[core])
    requires forall k | start <= k < core :: IsSpace(s[k])
    requires forall k | core <= k < m :: !IsSpace(s[k])
    requires forall k | m <= k < end :: IsSpace(s[k])
    requires (end < |s| ==> !IsSpace(s[end])) && (m < |s| ==> IsSpace(s[m]))
    requires start == 0 || Boundary(s, start)
    ensures IsWordOf(s, Word(start, s[start..end])) && Boundary(s, end) && Trimmed(s) != []
  {
    hide OneWord, IsSpace;
    CoreShifts(s, start, core, m, end);
    CoreIsWord(s[start..end], core - start, m - start);
    assert Word(start, s[start..end]).End() == end;
    if end < |s| {
      assert m != end;
      assert IsSpace(s[end - 1]);
    }
  }

  lemma CoreShifts(s: string, start: nat, core: nat, m: nat, end: nat)
    requires start <= core < m <= end <= |s|
    requires forall k | start <= k < core :: IsSpace(s[k])
    requires forall k | core <= k < m :: !IsSpace(s[k])
    requires forall k | m <= k < end :: IsSpace(s[k])
    ensures forall i | 0 <= i < end - start :: IsSpace(s[start..end][i]) == !(core - start <= i < m - start)
  {
    hide IsSpace;
    forall i | 0 <= i < end - start ensures IsSpace(s[start..end][i]) == !(core - start <= i < m - start) {
      assert s[start..end][i] == s[start + i];
    }
  }

  lemma CoreIsWord(t: string, core: nat, m: nat)
    requires core < m <= |t| && forall i | 0 <= i < |t| :: IsSpace(t[i]) == !(core <= i < m)
    ensures OneWord(t)
  {
    assert !IsSpace(t[core]);
  }

  /** The text of a line between two breaks fits, or is a single word or none. */
  ghost predicate Fits(t: string, width: int) { |Trimmed(t)| <= width || OneWord(t) || Trimmed(t) == [] }

  /** No longer piece ending at a word boundary would have fitted. */
  ghost predicate NoRoom(s: string, from: nat, b: nat, width: int)
    requires from <= b <= |s|
  {
    forall e | b < e <= |s| && Boundary(s, e) :: |Trimmed(s[from..e])| > width
  }

  function BreakAt(breaks: seq<nat>, j: nat): nat
    requires j <= |breaks|
  {
    if j == 0 then 0 else breaks[j - 1]
  }

  /** Break j ends a piece with text that fits, at a word start, as late as possible. */
  ghost predicate GoodBreak(s: string, breaks: seq<nat>, j: nat, width: int)
    requires j < |breaks|
  {
    var from, b := BreakAt(breaks, j), breaks[j];
    && from < b < |s| && IsSpace(s[b - 1]) && !IsSpace(s[b]) && Trimmed(s[from..b]) != []
    && Fits(s[from..b], width) && NoRoom(s, from, b, width)
  }

  /** The line is wrapped: good breaks, and what is left after the last one fits. */
  ghost predicate Wrapped(s: string, breaks: seq<nat>, width: int) {
    && (forall j | 0 <= j < |breaks| :: GoodBreak(s, breaks, j, width))
    && BreakAt(breaks, |breaks|) <= |s|
    && Fits(s[BreakAt(breaks, |breaks|)..], width)
  }

  /** The state between two words: the breaks so far, and the open piece up to p. */
  ghost predicate Dividing(s: string, breaks: seq<nat>, p: nat, cellOffset: nat, width: int) {
    && (forall j | 0 <= j < |breaks| :: GoodBreak(s, breaks, j, width))
    && (p == 0 || Boundary(s, p))
    && BreakAt(breaks, |breaks|) <= p <= |s| && cellOffset == p - BreakAt(breaks, |breaks|)
    && (p == 0 ==> breaks == [])
    && (p > 0 ==> cellOffset > 0 && Fits(s[BreakAt(breaks, |breaks|)..p], width))
    && (p > 0 ==> Trimmed(s[BreakAt(breaks, |breaks|)..p]) != [])
  }

  function EndBefore(ws: seq<Word>, i: nat): nat
    requires i <= |ws|
  {
    if i == 0 then 0 else ws[i - 1].End()
  }

  /** Breaks a line greedily at word starts. */
  method DivideLine(text: string, width: int) returns (breaks: seq<nat>)
    ensures Wrapped(text, breaks, width)
  {
    hide Dividing, Wrapped, GoodBreak, Trimmed, IsWordOf;
    breaks := [];
    var cellOffset: nat := 0;
    var ws := Words(text);
    NothingDivided(text, width);
    for i := 0 to |ws|
      invariant Dividing(text, breaks, EndBefore(ws, i), cellOffset, width)
    {
      var w := ws[i];
      assert Follows(ws, i);
      OpenPiece(text, breaks, w.start, cellOffset, width);
      var wordLength := |Trimmed(w.text)|;
      var remaining := width - cellOffset;
      if remaining >= wordLength {
        WordJoins(text, breaks, cellOffset, width, w);
        cellOffset := cellOffset + |w.text|;
      } else if wordLength > width {
        if w.start != 0 {
          WordBreaks(text, breaks, cellOffset, width, w);
          breaks := breaks + [w.start];
        } else {
          FirstWord(text, w, width);
        }
        cellOffset := |w.text|;
      } else if cellOffset != 0 && w.start != 0 {
        WordBreaks(text, breaks, cellOffset, width, w);
        breaks := breaks + [w.start];
        cellOffset := |w.text|;
      }
    }
    LineDivided(text, breaks, EndBefore(ws, |ws|), cellOffset, width);
  }

  lemma NothingDivided(s: string, width: int)
    ensures Dividing(s, [], 0, 0, width)
  {
  }

  lemma OpenPiece(s: string, breaks: seq<nat>, p: nat, cellOffset: nat, width: int)
    requires Dividing(s, breaks, p, cellOffset, width)
    ensures (p == 0 <==> cellOffset == 0) && (p == 0 ==> breaks == [])
  {
    hide GoodBreak, Fits, Boundary;
  }

  lemma LineDivided(s: string, breaks: seq<nat>, p: nat, cellOffset: nat, width: int)
    requires Dividing(s, breaks, p, cellOffset, width) && (p == |s| || (p == 0 && Trimmed(s) == []))
    ensures Wrapped(s, breaks, width)
  {
    hide GoodBreak, Boundary, Trimmed, OneWord;
    var from := BreakAt(breaks, |breaks|);
    if p == |s| { assert s[from..p] == s[from..]; } else { assert s[from..] == s; }
  }

  lemma FirstWord(s: string, w: Word, width: int)
    requires IsWordOf(s, w) && w.start == 0
    ensures Dividing(s, [], w.End(), |w.text|, width)
  {
    assert s[0..w.End()] == w.text;
  }

  lemma WordJoins(s: string, breaks: seq<nat>, cellOffset: nat, width: int, w: Word)
    requires Dividing(s, breaks, w.start, cellOffset, width) && IsWordOf(s, w)
    requires cellOffset + |Trimmed(w.text)| <= width
    ensures Dividing(s, breaks, w.End(), cellOffset + |w.text|, width)
  {
    hide GoodBreak, OneWord, Boundary, Trimmed, IsWordOf;
    PieceJoins(s, BreakAt(breaks, |breaks|), w);
  }

  lemma PieceJoins(s: string, from: nat, w: Word)
    requires IsWordOf(s, w) && from <= w.start
    ensures w.End() <= |s| && Boundary(s, w.End()) && |w.text| > 0
    ensures |Trimmed(s[from..w.End()])| == w.start - from + |Trimmed(w.text)|
    ensures Trimmed(s[from..w.End()]) != []
  {
    hide Boundary, Trimmed;
    assert s[from..w.End()] == s[from..w.start] + w.text;
    TrimmedAppend(s[from..w.start], w.text);
  }

  /** Breaking before a word that does not fit. */
  lemma WordBreaks(s: string, breaks: seq<nat>, cellOffset: nat, width: int, w: Word)
    requires Dividing(s, breaks, w.start, cellOffset, width) && IsWordOf(s, w) && w.start > 0
    requires cellOffset + |Trimmed(w.text)| > width
    ensures Dividing(s, breaks + [w.start], w.End(), |w.text|, width)
  {
    hide GoodBreak, NoRoom, Trimmed;
    BreakAdded(s, breaks, cellOffset, width, w);
    assert s[w.start..w.End()] == w.text;
  }

  lemma BreakAdded(s: string, breaks: seq<nat>, cellOffset: nat, width: int, w: Word)
    requires Dividing(s, breaks, w.start, cellOffset, width) && IsWordOf(s, w) && w.start > 0
    requires cellOffset + |Trimmed(w.text)| > width
    ensures forall j | 0 <= j <= |breaks| :: GoodBreak(s, breaks + [w.start], j, width)
  {
    hide NoRoom, Trimmed;
    var from := BreakAt(breaks, |breaks|);
    NoRoomForWord(s, from, w, width);
    forall j | 0 <= j <= |breaks| ensures GoodBreak(s, breaks + [w.start], j, width) {
      assert BreakAt(breaks + [w.start], j) == BreakAt(breaks, j);
      if j < |breaks| { assert GoodBreak(s, breaks, j, width); }
    }
  }

  lemma NoBoundaryInside(s: string, w: Word, e: nat)
    requires IsWordOf(s, w) && !IsSpace(s[w.start]) && w.start < e < w.End()
    ensures !Boundary(s, e)
  {
    assert w.text[0] == s[w.start] && w.text[e - 1 - w.start] == s[e - 1] && w.text[e - w.start] == s[e];
  }

  lemma NoRoomForWord(s: string, from: nat, w: Word, width: int)
    requires IsWordOf(s, w) && from <= w.start && !IsSpace(s[w.start])
    requires w.start - from + |Trimmed(w.text)| > width
    ensures NoRoom(s, from, w.start, width)
  {
    forall e | w.start < e <= |s| && Boundary(s, e) ensures |Trimmed(s[from..e])| > width {
      if e < w.End() { NoBoundaryInside(s, w, e); }
      var k := |Trimmed(w.text)| - 1;
      assert s[from..e][w.start - from + k] == s[w.start + k] == w.text[k];
    }
  }

  // ----- the wrapping is determined

  /** Text before a space before more text is not one word. */
  lemma TwoWords(t: string, k: nat)
    requires 0 < k < |t| && Trimmed(t[..k]) != [] && IsSpace(t[k - 1]) && !IsSpace(t[k])
    ensures !OneWord(t) && Trimmed(t) != []
  {
    var i := |Trimmed(t[..k])| - 1;
    assert t[..k][i] == t[i] && !IsSpace(t[i]) && i < k - 1;
  }

  /** After a break as late as possible at p, no longer piece fits. */
  lemma LongerDoesNotFit(s: string, from: nat, p: nat, q: nat, width: int)
    requires from < p < q <= |s| && IsSpace(s[p - 1]) && !IsSpace(s[p]) && Trimmed(s[from..p]) != []
    requires NoRoom(s, from, p, width) && Boundary(s, q)
    ensures !Fits(s[from..q], width)
  {
    var t := s[from..q];
    assert t[..p - from] == s[from..p] && t[p - from - 1] == s[p - 1] && t[p - from] == s[p];
    TwoWords(t, p - from);
  }

  /** A line can be wrapped in one way only, so the greedy one is it. */
  lemma WrappingIsUnique(s: string, breaks: seq<nat>, other: seq<nat>, width: int)
    requires Wrapped(s, breaks, width) && Wrapped(s, other, width)
    ensures breaks == other
  {
    SameBreaks(s, breaks, other, width, if |breaks| < |other| then |breaks| else |other|);
    if |breaks| <= |other| {
      NothingLeftToBreak(s, breaks, other, width);
    } else {
      NothingLeftToBreak(s, other, breaks, width);
    }
  }

  lemma SameNext(s: string, breaks: seq<nat>, other: seq<nat>, width: int, k: nat)
    requires k < |breaks| && k < |other| && BreakAt(breaks, k) == BreakAt(other, k)
    requires GoodBreak(s, breaks, k, width) && GoodBreak(s, other, k, width)
    ensures breaks[k] == other[k]
  {
    hide Fits, NoRoom;
    var from := BreakAt(breaks, k);
    if breaks[k] < other[k] { LongerDoesNotFit(s, from, breaks[k], other[k], width); }
    if other[k] < breaks[k] { LongerDoesNotFit(s, from, other[k], breaks[k], width); }
  }

  lemma {:induction false} SameBreaks(s: string, breaks: seq<nat>, other: seq<nat>, width: int, n: nat)
    requires Wrapped(s, breaks, width) && Wrapped(s, other, width) && n <= |breaks| && n <= |other|
    ensures breaks[..n] == other[..n]
  {
    hide GoodBreak;
    if n > 0 {
      SameBreaks(s, breaks, other, width, n - 1);
      assert n > 1 ==> breaks[..n - 1][n - 2] == other[..n - 1][n - 2];
      assert BreakAt(breaks, n - 1) == BreakAt(other, n - 1);
      SameNext(s, breaks, other, width, n - 1);
      assert breaks[..n] == breaks[..n - 1] + [breaks[n - 1]] && other[..n] == other[..n - 1] + [other[n - 1]];
    }
  }

  lemma NothingLeftToBreak(s: string, breaks: seq<nat>, other: seq<nat>, width: int)
    requires Wrapped(s, breaks, width) && Wrapped(s, other, width)
    requires |breaks| <= |other| && breaks == other[..|breaks|]
    ensures breaks == other
  {
    hide Fits, NoRoom;
    var n := |breaks|;
    if n < |other| {
      assert n > 0 ==> other[..n][n - 1] == other[n - 1];
      assert GoodBreak(s, other, n, width);
      var from := BreakAt(breaks, n);
      assert s[from..] == s[from..|s|];
      LongerDoesNotFit(s, from, other[n], |s|, width);
    }
  }
}
