/** Emitting the box table: styled lines of an exact width, rows and borders. */
module TableRows {
  import opened TextLines
  import opened Wrapping
  import opened ColumnWidths
  import opened Features

  datatype Style = Unstyled | Cyan

  datatype Run = Run(text: string, style: Style)

  function PlainOf(runs: seq<Run>): string {
    if runs == [] then [] else PlainOf(runs[..|runs| - 1]) + runs[|runs| - 1].text
  }

  function Uniform<T>(n: nat, x: T): (s: seq<T>)
    ensures |s| == n && forall i | 0 <= i < n :: s[i] == x
  {
    seq(n, i => x)
  }

  function StylesOf(runs: seq<Run>): (styles: seq<Style>)
    ensures |styles| == |PlainOf(runs)|
  {
    if runs == [] then []
    else StylesOf(runs[..|runs| - 1]) + Uniform(|runs[|runs| - 1].text|, runs[|runs| - 1].style)
  }

  lemma RunsSnoc(runs: seq<Run>, r: Run)
    ensures PlainOf(runs + [r]) == PlainOf(runs) + r.text
    ensures StylesOf(runs + [r]) == StylesOf(runs) + Uniform(|r.text|, r.style)
  {
    assert (runs + [r])[..|runs|] == runs;
  }

  lemma NoRuns()
    ensures PlainOf([]) == [] && StylesOf([]) == []
  {
  }

  lemma RunGrows(plain: string, styles: seq<Style>, begin: nat, i: nat, j: nat, out: seq<Run>, style: Style)
    requires begin <= i <= j <= |plain| == |styles|
    requires PlainOf(out) == plain[begin..i] && StylesOf(out) == styles[begin..i]
    requires forall k | i <= k < j :: styles[k] == style
    ensures PlainOf(out + [Run(plain[i..j], style)]) == plain[begin..j]
    ensures StylesOf(out + [Run(plain[i..j], style)]) == styles[begin..j]
  {
    RunsSnoc(out, Run(plain[i..j], style));
    hide PlainOf, StylesOf;
    assert Uniform(j - i, style) == styles[i..j];
    SlicesJoin(plain, begin, i, j);
    SlicesJoin(styles, begin, i, j);
  }

  lemma SlicesJoin<T>(s: seq<T>, a: nat, b: nat, c: nat)
    requires a <= b <= c <= |s|
    ensures s[a..b] + s[b..c] == s[a..c]
  {
  }

  /** The runs of part of a text, one per change of style. */
  method RunsFrom(plain: string, styles: seq<Style>, begin: nat, end: nat) returns (out: seq<Run>)
    requires begin <= end <= |plain| == |styles|
    ensures PlainOf(out) == plain[begin..end] && StylesOf(out) == styles[begin..end]
    ensures forall k | 0 < k < |out| :: out[k - 1].style != out[k].style
  {
    hide PlainOf, StylesOf;
    out := [];
    NoRuns();
    var i := begin;
    while i < end
      invariant begin <= i <= end
      invariant PlainOf(out) == plain[begin..i] && StylesOf(out) == styles[begin..i]
      invariant forall k | 0 < k < |out| :: out[k - 1].style != out[k].style
      invariant out != [] && i < end ==> out[|out| - 1].style != styles[i]
    {
      var style, j := styles[i], i;
      while j < end && styles[j] == style
        invariant i <= j <= end && (j == i ==> styles[j] == style)
        invariant forall k | i <= k < j :: styles[k] == style
      {
        j := j + 1;
      }
      RunGrows(plain, styles, begin, i, j, out, style);
      out := out + [Run(plain[i..j], style)];
      i := j;
    }
  }

  /** A piece of text in width cells: padded, or cut short by an ellipsis. */
  function FitLine(piece: string, width: int): string {
    var t := Trimmed(piece);
    if |t| > width then t[..if width < 1 then 0 else width - 1] + ['\U{2026}']
    else t + Uniform(width - |t|, ' ')
  }

  predicate Blank(s: string) { forall k | 0 <= k < |s| :: IsSpace(s[k]) }

  /** There is a cell to show text in, or no text and no cell either. */
  predicate RoomFor(width: int, blank: bool) { 1 <= width || (width == 0 && blank) }

  /** The line is never too short, and exactly as wide as asked if and only if there is room.
      A text that fits is kept whole. */
  lemma FitLineIsExact(piece: string, width: int)
    ensures width <= |FitLine(piece, width)|
    ensures |FitLine(piece, width)| == width <==> RoomFor(width, Blank(piece))
    ensures |Trimmed(piece)| <= width ==> Trimmed(piece) <= FitLine(piece, width)
  {
    if Trimmed(piece) != [] { assert !IsSpace(piece[|Trimmed(piece)| - 1]); }
  }

  /** How many characters of a piece a line keeps. */
  function KeptOf(piece: string, width: int): (n: nat)
    ensures n <= |piece|
  {
    var len := |Trimmed(piece)|;
    if len <= width then len else if width < 1 then 0 else width - 1
  }

  method TrimEnd(plain: string, begin: nat, end0: nat) returns (end: nat)
    requires begin <= end0 <= |plain|
    ensures begin <= end <= end0 && plain[begin..end] == Trimmed(plain[begin..end0])
  {
    hide Trimmed;
    end := end0;
    while end > begin && IsSpace(plain[end - 1])
      invariant begin <= end <= end0 && Trimmed(plain[begin..end0]) == Trimmed(plain[begin..end])
    {
      TrimOne(plain, begin, end);
      end := end - 1;
    }
    NothingToTrim(plain, begin, end);
  }

  lemma TrimOne(plain: string, begin: nat, end: nat)
    requires begin < end <= |plain| && IsSpace(plain[end - 1])
    ensures Trimmed(plain[begin..end]) == Trimmed(plain[begin..end - 1])
  {
    var s := plain[begin..end];
    assert s[|s| - 1] == plain[end - 1] && s[..|s| - 1] == plain[begin..end - 1];
  }

  lemma NothingToTrim(plain: string, begin: nat, end: nat)
    requires begin <= end <= |plain| && (begin < end ==> !IsSpace(plain[end - 1]))
    ensures Trimmed(plain[begin..end]) == plain[begin..end]
  {
    var s := plain[begin..end];
    if s != [] { assert s[|s| - 1] == plain[end - 1]; }
  }

  /** The styled line of a piece: its text fitted to the width, each kept character in its
      own style, the rest unstyled. */
  method MakeLine(plain: string, styles: seq<Style>, begin: nat, end0: nat, width: int) returns (runs: seq<Run>)
    requires begin <= end0 <= |plain| == |styles|
    ensures var piece := plain[begin..end0];
      && PlainOf(runs) == FitLine(piece, width)
      && StylesOf(runs) == styles[begin..begin + KeptOf(piece, width)]
                           + Uniform(|FitLine(piece, width)| - KeptOf(piece, width), Unstyled)
  {
    hide PlainOf, StylesOf, FitLine, KeptOf, Trimmed;
    var end := TrimEnd(plain, begin, end0);
    var len := end - begin;
    var keep := if len <= width then len else if width < 1 then 0 else width - 1;
    var tail := if len > width then ['\U{2026}'] else Uniform(width - len, ' ');
    runs := RunsFrom(plain, styles, begin, begin + keep);
    assert plain[begin..end][..keep] == plain[begin..begin + keep];
    FitLineParts(plain[begin..end0], width, plain[begin..end], plain[begin..begin + keep], tail);
    assert tail == [] ==> plain[begin..begin + keep] + tail == plain[begin..begin + keep];
    assert styles[begin..begin + keep] + Uniform(0, Unstyled) == styles[begin..begin + keep];
    if tail != [] {
      RunsSnoc(runs, Run(tail, Unstyled));
      runs := runs + [Run(tail, Unstyled)];
    }
  }

  lemma FitLineParts(piece: string, width: int, t: string, kept: string, tail: string)
    requires t == Trimmed(piece)
    requires kept == t[..if |t| <= width then |t| else if width < 1 then 0 else width - 1]
    requires tail == if |t| > width then ['\U{2026}'] else Uniform(width - |t|, ' ')
    ensures FitLine(piece, width) == kept + tail && |kept| == KeptOf(piece, width)
  {
    if |t| <= width { assert kept == t; }
  }

  // ----- wrapping a cell

  /** The pieces of a line before the last of its breaks. */
  function PiecesBefore(s: string, breaks: seq<nat>): seq<string> {
    if breaks == [] then []
    else
      var n := |breaks| - 1;
      var from, b := BreakAt(breaks, n), breaks[n];
      PiecesBefore(s, breaks[..n]) + [if from <= b <= |s| then s[from..b] else []]
  }

  function Pieces(s: string, breaks: seq<nat>): seq<string> {
    var from := BreakAt(breaks, |breaks|);
    PiecesBefore(s, breaks) + [if from <= |s| then s[from..] else []]
  }

  function Flat(pieces: seq<string>): string {
    if pieces == [] then [] else Flat(pieces[..|pieces| - 1]) + pieces[|pieces| - 1]
  }

  /** Breaks in ascending order inside the line. */
  ghost predicate InOrder(s: string, breaks: seq<nat>) {
    forall j | 0 <= j < |breaks| :: BreakAt(breaks, j) < breaks[j] < |s|
  }

  /** Wrapping loses no text: the pieces of a line make up the line. */
  lemma PiecesAreTheLine(s: string, breaks: seq<nat>, width: int)
    requires Wrapped(s, breaks, width)
    ensures Flat(Pieces(s, breaks)) == s
  {
    hide Fits, NoRoom;
    forall j | 0 <= j < |breaks| ensures BreakAt(breaks, j) < breaks[j] < |s| {
      assert GoodBreak(s, breaks, j, width);
    }
    FlatBefore(s, breaks);
    LastPiece(s, breaks);
  }

  lemma LastPiece(s: string, breaks: seq<nat>)
    requires BreakAt(breaks, |breaks|) <= |s| && Flat(PiecesBefore(s, breaks)) == s[..BreakAt(breaks, |breaks|)]
    ensures Flat(Pieces(s, breaks)) == s
  {
    var from := BreakAt(breaks, |breaks|);
    FlatSnoc(PiecesBefore(s, breaks), s[from..]);
    assert s[..from] + s[from..] == s;
  }

  lemma {:induction false} FlatBefore(s: string, breaks: seq<nat>)
    requires InOrder(s, breaks)
    ensures BreakAt(breaks, |breaks|) <= |s| && Flat(PiecesBefore(s, breaks)) == s[..BreakAt(breaks, |breaks|)]
  {
    if breaks != [] {
      var n := |breaks| - 1;
      InOrderFront(s, breaks);
      FlatBefore(s, breaks[..n]);
      OnePieceMore(s, breaks);
    }
  }

  lemma InOrderFront(s: string, breaks: seq<nat>)
    requires breaks != [] && InOrder(s, breaks)
    ensures InOrder(s, breaks[..|breaks| - 1])
  {
    var front := breaks[..|breaks| - 1];
    forall j | 0 <= j < |front| ensures BreakAt(front, j) < front[j] < |s| {
      assert BreakAt(breaks, j) < breaks[j] < |s|;
    }
  }

  lemma OnePieceMore(s: string, breaks: seq<nat>)
    requires breaks != [] && BreakAt(breaks, |breaks| - 1) < breaks[|breaks| - 1] < |s|
    requires var front := breaks[..|breaks| - 1]; Flat(PiecesBefore(s, front)) == s[..BreakAt(breaks, |breaks| - 1)]
    ensures Flat(PiecesBefore(s, breaks)) == s[..breaks[|breaks| - 1]]
  {
    var n := |breaks| - 1;
    var from, b := BreakAt(breaks, n), breaks[n];
    FlatSnoc(PiecesBefore(s, breaks[..n]), s[from..b]);
    assert s[..from] + s[from..b] == s[..b];
  }

  lemma FlatSnoc(pieces: seq<string>, piece: string)
    ensures Flat(pieces + [piece]) == Flat(pieces) + piece
  {
    assert (pieces + [piece])[..|pieces|] == pieces;
  }

  /** The fitted lines of the pieces. */
  function Fitted(pieces: seq<string>, width: int): seq<string> {
    if pieces == [] then [] else Fitted(pieces[..|pieces| - 1], width) + [FitLine(pieces[|pieces| - 1], width)]
  }

  function Texts(lines: seq<seq<Run>>): seq<string> {
    if lines == [] then [] else Texts(lines[..|lines| - 1]) + [PlainOf(lines[|lines| - 1])]
  }

  lemma TextsSnoc(lines: seq<seq<Run>>, line: seq<Run>)
    ensures Texts(lines + [line]) == Texts(lines) + [PlainOf(line)]
  {
    assert (lines + [line])[..|lines|] == lines;
  }

  lemma FittedSnoc(pieces: seq<string>, piece: string, width: int)
    ensures Fitted(pieces + [piece], width) == Fitted(pieces, width) + [FitLine(piece, width)]
  {
    assert (pieces + [piece])[..|pieces|] == pieces;
  }

  /** The wrapped texts of a cell: every hard line, broken and fitted. */
  function CellTexts(hard: seq<string>, breaks: seq<seq<nat>>, width: int): seq<string>
    requires |hard| == |breaks|
  {
    if hard == [] then []
    else
      var n := |hard| - 1;
      CellTexts(hard[..n], breaks[..n], width) + Fitted(Pieces(hard[n], breaks[n]), width)
  }

  ghost predicate AllWrapped(hard: seq<string>, breaks: seq<seq<nat>>, width: int) {
    |hard| == |breaks| && forall i | 0 <= i < |hard| :: Wrapped(hard[i], breaks[i], width)
  }

  ghost predicate AllBlank(pieces: seq<string>) { forall i | 0 <= i < |pieces| :: Blank(pieces[i]) }

  /** Every text is at least as wide as asked, and all are exactly so or not. */
  ghost predicate WideAs(texts: seq<string>, width: int, exact: bool) {
    && (forall k | 0 <= k < |texts| :: width <= |texts[k]|)
    && (exact <==> forall k | 0 <= k < |texts| :: |texts[k]| == width)
  }

  lemma WideAsOne(text: string, width: int)
    requires width <= |text|
    ensures WideAs([text], width, |text| == width)
  {
    assert [text][0] == text;
  }

  lemma AllBlankBoth(a: seq<string>, b: seq<string>)
    ensures AllBlank(a + b) <==> AllBlank(a) && AllBlank(b)
  {
    hide Blank;
    if AllBlank(a + b) {
      forall i | 0 <= i < |a| ensures Blank(a[i]) { assert (a + b)[i] == a[i]; }
      forall i | 0 <= i < |b| ensures Blank(b[i]) { assert (a + b)[|a| + i] == b[i]; }
    }
  }

  lemma AllBlankOne(s: string)
    ensures AllBlank([s]) <==> Blank(s)
  {
    assert [s][0] == s;
  }

  lemma WideAsBoth(a: seq<string>, b: seq<string>, width: int, exactA: bool, exactB: bool)
    requires WideAs(a, width, exactA) && WideAs(b, width, exactB)
    ensures WideAs(a + b, width, exactA && exactB)
  {
    var c := a + b;
    if !exactA {
      var k :| 0 <= k < |a| && |a[k]| != width;
      assert c[k] == a[k];
    }
    if !exactB {
      var k :| 0 <= k < |b| && |b[k]| != width;
      assert c[|a| + k] == b[k];
    }
  }

  /** Every line of a wrapped cell is exactly as wide as the cell, if there is room for what
      it shows; otherwise some line is wider. */
  lemma {:induction false} CellTextsAreExact(hard: seq<string>, breaks: seq<seq<nat>>, width: int)
    requires AllWrapped(hard, breaks, width)
    ensures WideAs(CellTexts(hard, breaks, width), width, hard == [] || RoomFor(width, AllBlank(hard)))
  {
    hide WideAs, AllBlank, Blank, Wrapped, Pieces, Fitted;
    if hard == [] {
      NoTexts(width);
    } else {
      var n := |hard| - 1;
      CellTextsAreExact(hard[..n], breaks[..n], width);
      FittedAreExact(Pieces(hard[n], breaks[n]), width);
      SomePieces(hard[n], breaks[n]);
      PiecesBlank(hard[n], breaks[n], width);
      WideAsBoth(CellTexts(hard[..n], breaks[..n], width), Fitted(Pieces(hard[n], breaks[n]), width), width,
                 hard[..n] == [] || RoomFor(width, AllBlank(hard[..n])),
                 RoomFor(width, AllBlank(Pieces(hard[n], breaks[n]))));
      AllBlankBoth(hard[..n], [hard[n]]);
      AllBlankOne(hard[n]);
      assert hard == hard[..n] + [hard[n]];
    }
  }

  lemma SomePieces(s: string, breaks: seq<nat>)
    ensures Pieces(s, breaks) != []
  {
  }

  lemma NoTexts(width: int)
    ensures WideAs([], width, true) && AllBlank([])
  {
  }

  lemma {:induction false} FittedAreExact(pieces: seq<string>, width: int)
    ensures WideAs(Fitted(pieces, width), width, pieces == [] || RoomFor(width, AllBlank(pieces)))
  {
    hide WideAs, AllBlank, Blank, FitLine;
    if pieces == [] {
      NoTexts(width);
    } else {
      var n := |pieces| - 1;
      FittedAreExact(pieces[..n], width);
      FitLineIsExact(pieces[n], width);
      WideAsOne(FitLine(pieces[n], width), width);
      WideAsBoth(Fitted(pieces[..n], width), [FitLine(pieces[n], width)], width,
                 pieces[..n] == [] || RoomFor(width, AllBlank(pieces[..n])), RoomFor(width, Blank(pieces[n])));
      AllBlankBoth(pieces[..n], [pieces[n]]);
      AllBlankOne(pieces[n]);
      assert pieces == pieces[..n] + [pieces[n]];
    }
  }

  /** The pieces of a line are blank exactly when the line is. */
  lemma PiecesBlank(s: string, breaks: seq<nat>, width: int)
    requires Wrapped(s, breaks, width)
    ensures AllBlank(Pieces(s, breaks)) <==> Blank(s)
  {
    PiecesAreTheLine(s, breaks, width);
    FlatBlank(Pieces(s, breaks));
  }

  lemma {:induction false} FlatBlank(pieces: seq<string>)
    ensures Blank(Flat(pieces)) <==> AllBlank(pieces)
  {
    if pieces != [] {
      hide Blank, AllBlank;
      var n := |pieces| - 1;
      FlatBlank(pieces[..n]);
      BlankBoth(Flat(pieces[..n]), pieces[n]);
      AllBlankBoth(pieces[..n], [pieces[n]]);
      AllBlankOne(pieces[n]);
      assert pieces == pieces[..n] + [pieces[n]];
    } else {
      NoTexts(0);
      assert Blank([]);
    }
  }

  lemma BlankBoth(a: string, b: string)
    ensures Blank(a + b) <==> Blank(a) && Blank(b)
  {
    if Blank(a + b) {
      forall k | 0 <= k < |a| ensures IsSpace(a[k]) { assert (a + b)[k] == a[k]; }
      forall k | 0 <= k < |b| ensures IsSpace(b[k]) { assert (a + b)[|a| + k] == b[k]; }
    }
  }

  lemma CellTextsSnoc(hard: seq<string>, breaks: seq<seq<nat>>, width: int, line: string, b: seq<nat>)
    requires |hard| == |breaks|
    ensures CellTexts(hard + [line], breaks + [b], width) ==
      CellTexts(hard, breaks, width) + Fitted(Pieces(line, b), width)
  {
    assert (hard + [line])[..|hard|] == hard && (breaks + [b])[..|breaks|] == breaks;
  }

  lemma SliceOfSlice(s: string, a: nat, b: nat, i: nat, j: nat)
    requires a <= b <= |s| && i <= j <= b - a
    ensures s[a..b][i..j] == s[a + i..a + j]
  {
    var l, r := s[a..b][i..j], s[a + i..a + j];
    forall k | 0 <= k < j - i ensures l[k] == r[k] {
      assert l[k] == s[a..b][i + k] == s[a + i + k];
    }
  }

  /** The lines of one hard line of a cell. */
  method WrapLine(plain: string, styles: seq<Style>, start: nat, stop: nat, width: int)
    returns (out: seq<seq<Run>>, ghost breaks: seq<nat>)
    requires start <= stop <= |plain| == |styles|
    ensures Wrapped(plain[start..stop], breaks, width) && out != []
    ensures Texts(out) == Fitted(Pieces(plain[start..stop], breaks), width)
  {
    hide Wrapped, GoodBreak, FitLine, KeptOf, StylesOf, PlainOf, Pieces, PiecesBefore, Fitted, Texts, HardLines;
    var line := plain[start..stop];
    var offsets := DivideLine(line, width);
    breaks := offsets;
    out := [];
    var prev := 0;
    NoPieces(line, offsets, width);
    for k := 0 to |offsets|
      invariant prev == BreakAt(offsets, k) <= |line|
      invariant Texts(out) == Fitted(PiecesBefore(line, offsets[..k]), width)
    {
      BreakInLine(line, offsets, k, width);
      var made := MakeLine(plain, styles, start + prev, start + offsets[k], width);
      SliceOfSlice(plain, start, stop, prev, offsets[k]);
      PiecesSnoc(line, offsets, k, width);
      TextsSnoc(out, made);
      out := out + [made];
      prev := offsets[k];
    }
    var made := MakeLine(plain, styles, start + prev, stop, width);
    SliceOfSlice(plain, start, stop, prev, |line|);
    assert line[prev..|line|] == line[prev..];
    PiecesLast(line, offsets);
    assert offsets[..|offsets|] == offsets;
    FittedSnoc(PiecesBefore(line, offsets), line[prev..], width);
    TextsSnoc(out, made);
    out := out + [made];
  }

  lemma NoPieces(line: string, offsets: seq<nat>, width: int)
    ensures Fitted(PiecesBefore(line, offsets[..0]), width) == [] && Texts([]) == []
  {
  }

  lemma BreakInLine(line: string, offsets: seq<nat>, k: nat, width: int)
    requires Wrapped(line, offsets, width) && k < |offsets|
    ensures GoodBreak(line, offsets, k, width) && BreakAt(offsets, k) < offsets[k] < |line|
  {
  }

  lemma PiecesLast(line: string, offsets: seq<nat>)
    requires BreakAt(offsets, |offsets|) <= |line|
    ensures Pieces(line, offsets) == PiecesBefore(line, offsets) + [line[BreakAt(offsets, |offsets|)..]]
  {
  }

  lemma PiecesSnoc(line: string, offsets: seq<nat>, k: nat, width: int)
    requires k < |offsets| && GoodBreak(line, offsets, k, width)
    ensures Fitted(PiecesBefore(line, offsets[..k + 1]), width)
         == Fitted(PiecesBefore(line, offsets[..k]), width) + [FitLine(line[BreakAt(offsets, k)..offsets[k]], width)]
  {
    var some := offsets[..k + 1];
    assert some[..k] == offsets[..k] && BreakAt(some, k) == BreakAt(offsets, k) && some[k] == offsets[k];
    FittedSnoc(PiecesBefore(line, offsets[..k]), line[BreakAt(offsets, k)..offsets[k]], width);
  }

  /** Wraps a cell: each hard line broken greedily, each piece fitted to the width. */
  method WrapCell(cell: seq<Run>, width: int) returns (out: seq<seq<Run>>, ghost breaks: seq<seq<nat>>)
    ensures AllWrapped(HardLines(PlainOf(cell)), breaks, width) && out != []
    ensures Texts(out) == CellTexts(HardLines(PlainOf(cell)), breaks, width)
  {
    hide Wrapped, Fitted, PlainOf, HardLines, CellTexts, Pieces;
    var plain, styles := PlainOf(cell), StylesOf(cell);
    out, breaks := [], [];
    ghost var seen: seq<string> := [];
    var start := 0;
    assert plain[0..] == plain && CellTexts(seen, breaks, width) == [] by { CellTextsNone(width); }
    while start <= |plain|
      invariant start <= |plain| && seen + HardLines(plain[start..]) == HardLines(plain)
      invariant AllWrapped(seen, breaks, width) && Texts(out) == CellTexts(seen, breaks, width)
      decreases |plain| - start
    {
      var stop := FindNewline(plain, start);
      var lines, b := WrapLine(plain, styles, start, stop, width);
      HardLinesFrom(plain, start, stop);
      CellTextsSnoc(seen, breaks, width, plain[start..stop], b);
      TextsAppend(out, lines);
      out, breaks, seen := out + lines, breaks + [b], seen + [plain[start..stop]];
      if stop == |plain| {
        assert seen == HardLines(plain);
        break;
      }
      start := stop + 1;
    }
  }

  lemma CellTextsNone(width: int)
    ensures CellTexts([], [], width) == []
  {
  }

  lemma {:induction false} TextsAppend(a: seq<seq<Run>>, b: seq<seq<Run>>)
    ensures Texts(a + b) == Texts(a) + Texts(b)
  {
    if b == [] {
      assert a + b == a;
    } else {
      TextsAppend(a, b[..|b| - 1]);
      assert (a + b)[..|a + b| - 1] == a + b[..|b| - 1];
    }
  }

  // ----- emitting

  /** What goes out: a character of one cell, or a switch of colour that takes no cell. */
  datatype Token = Glyph(c: char) | Escape(on: bool)

  /** What a terminal shows. */
  function Visible(out: seq<Token>): string {
    if out == [] then []
    else
      var last := out[|out| - 1];
      Visible(out[..|out| - 1]) + (if last.Glyph? then [last.c] else [])
  }

  function Written(s: string): (out: seq<Token>)
    ensures |out| == |s|
  {
    seq(|s|, i requires 0 <= i < |s| => Glyph(s[i]))
  }

  lemma {:induction false} VisibleAppend(a: seq<Token>, b: seq<Token>)
    ensures Visible(a + b) == Visible(a) + Visible(b)
  {
    if b == [] {
      assert a + b == a;
    } else {
      VisibleAppend(a, b[..|b| - 1]);
      assert (a + b)[..|a + b| - 1] == a + b[..|b| - 1];
    }
  }

  lemma {:induction false} VisibleWritten(s: string)
    ensures Visible(Written(s)) == s
  {
    if s != [] {
      VisibleWritten(s[..|s| - 1]);
      assert Written(s)[..|s| - 1] == Written(s[..|s| - 1]);
    }
  }

  predicate OnlyText(out: seq<Token>) { forall x | x in out :: x.Glyph? }

  method Append(out: seq<Token>, s: string) returns (more: seq<Token>)
    ensures Visible(more) == Visible(out) + s
    ensures OnlyText(out) ==> OnlyText(more)
  {
    more := out + Written(s);
    VisibleAppend(out, Written(s));
    VisibleWritten(s);
  }

  lemma EscapeInvisible(out: seq<Token>, on: bool)
    ensures Visible(out + [Escape(on)]) == Visible(out)
  {
    assert (out + [Escape(on)])[..|out|] == out;
  }

  /** Writes styled runs. Colour changes nothing that is visible, and without it nothing but
      text is written. */
  method EmitRuns(out0: seq<Token>, runs: seq<Run>, color: bool) returns (out: seq<Token>)
    ensures Visible(out) == Visible(out0) + PlainOf(runs)
    ensures !color && OnlyText(out0) ==> OnlyText(out)
  {
    hide Visible, OnlyText, PlainOf;
    NoRuns();
    out := out0;
    for i := 0 to |runs|
      invariant Visible(out) == Visible(out0) + PlainOf(runs[..i])
      invariant !color && OnlyText(out0) ==> OnlyText(out)
    {
      RunsSnoc(runs[..i], runs[i]);
      assert runs[..i + 1] == runs[..i] + [runs[i]];
      if color && runs[i].style == Cyan {
        EscapeInvisible(out, true);
        out := Append(out + [Escape(true)], runs[i].text);
        EscapeInvisible(out, false);
        out := out + [Escape(false)];
      } else {
        out := Append(out, runs[i].text);
      }
    }
    assert runs[..|runs|] == runs;
  }

  const VERTICAL := '\U{2502}'
  const HORIZONTAL := '\U{2500}'

  function Filler(inner: int): string { if inner < 0 then [] else Uniform(inner, ' ') }

  function CellLine(texts: seq<string>, inner: int, ln: nat): string {
    if ln < |texts| then texts[ln] else Filler(inner)
  }

  /** Line ln of a row, up to its first n columns. */
  function RowText(texts: seq<seq<string>>, widths: seq<int>, ln: nat, n: nat): string
    requires n <= |texts| == |widths|
  {
    if n == 0 then [VERTICAL]
    else
      RowText(texts, widths, ln, n - 1)
      + [' '] + CellLine(texts[n - 1], widths[n - 1] - CELL_PADDING, ln) + [' ', VERTICAL]
  }

  /** The texts of a row fill the insides of their columns, exactly or not. */
  ghost predicate TextsFill(texts: seq<seq<string>>, widths: seq<int>, exact: seq<bool>) {
    && |texts| == |widths| == |exact|
    && forall c | 0 <= c < |texts| :: WideAs(texts[c], widths[c] - CELL_PADDING, exact[c])
  }

  /** Line ln can be drawn: a column narrower than its padding has a text to show there, for
      it cannot be padded with less than nothing. */
  ghost predicate Drawn(texts: seq<seq<string>>, widths: seq<int>, ln: nat)
    requires |texts| == |widths|
  {
    forall c | 0 <= c < |widths| && widths[c] < CELL_PADDING :: ln < |texts[c]|
  }

  /** A row line takes at least one cell for each column's width, one for each separator, and
      one for the left edge: exactly that, unless a text in it is wider than its column. */
  lemma {:induction false} RowTextIsExact(texts: seq<seq<string>>, widths: seq<int>, exact: seq<bool>, ln: nat, n: nat)
    requires TextsFill(texts, widths, exact) && Drawn(texts, widths, ln) && n <= |widths|
    ensures Sum(widths[..n]) + n + 1 <= |RowText(texts, widths, ln, n)|
    ensures |RowText(texts, widths, ln, n)| == Sum(widths[..n]) + n + 1 <==> LineFits(texts, widths, ln, n)
  {
    hide RowText, CellLine, WideAs, Sum, TextFits;
    if n == 0 {
      RowStarts(texts, widths, ln);
    } else {
      RowTextIsExact(texts, widths, exact, ln, n - 1);
      SumPrefix(widths, n - 1);
      RowTextLength(texts, widths, ln, n);
      CellLineLength(texts[n - 1], widths[n - 1], ln, exact[n - 1]);
    }
  }

  lemma RowStarts(texts: seq<seq<string>>, widths: seq<int>, ln: nat)
    requires |texts| == |widths|
    ensures RowText(texts, widths, ln, 0) == [VERTICAL] && Sum(widths[..0]) == 0
  {
  }

  lemma RowTextLength(texts: seq<seq<string>>, widths: seq<int>, ln: nat, n: nat)
    requires 0 < n <= |texts| == |widths|
    ensures |RowText(texts, widths, ln, n)|
         == |RowText(texts, widths, ln, n - 1)| + |CellLine(texts[n - 1], widths[n - 1] - CELL_PADDING, ln)| + 3
  {
  }

  lemma CellLineLength(texts: seq<string>, width: int, ln: nat, exact: bool)
    requires WideAs(texts, width - CELL_PADDING, exact) && (width < CELL_PADDING ==> ln < |texts|)
    ensures width - CELL_PADDING <= |CellLine(texts, width - CELL_PADDING, ln)|
    ensures |CellLine(texts, width - CELL_PADDING, ln)| == width - CELL_PADDING <==> TextFits(texts, width, ln)
  {
  }

  /** Line ln of a column, if it has one, is as wide as the column's inside. */
  ghost predicate TextFits(texts: seq<string>, width: int, ln: nat) {
    ln < |texts| ==> |texts[ln]| == width - CELL_PADDING
  }

  ghost predicate LineFits(texts: seq<seq<string>>, widths: seq<int>, ln: nat, n: nat)
    requires n <= |texts| == |widths|
  {
    forall c | 0 <= c < n :: TextFits(texts[c], widths[c], ln)
  }

  ghost predicate CellsWrapped(cells: seq<seq<Run>>, widths: seq<int>, texts: seq<seq<string>>,
                               breaks: seq<seq<seq<nat>>>) {
    && |cells| == |widths| == |texts| == |breaks|
    && forall c | 0 <= c < |cells| :: CellWrapped(cells[c], widths[c] - CELL_PADDING, texts[c], breaks[c])
  }

  ghost predicate CellWrapped(cell: seq<Run>, inner: int, texts: seq<string>, breaks: seq<seq<nat>>) {
    && AllWrapped(HardLines(PlainOf(cell)), breaks, inner)
    && texts == CellTexts(HardLines(PlainOf(cell)), breaks, inner)
  }

  function JoinLines(lines: seq<string>): string {
    if lines == [] then [] else JoinLines(lines[..|lines| - 1]) + lines[|lines| - 1] + ['\n']
  }

  lemma JoinSnoc(lines: seq<string>, line: string)
    ensures JoinLines(lines + [line]) == JoinLines(lines) + line + ['\n']
  {
    assert (lines + [line])[..|lines|] == lines;
  }

  lemma JoinNone()
    ensures JoinLines([]) == []
  {
  }

  lemma {:induction false} JoinAppend(a: seq<string>, b: seq<string>)
    ensures JoinLines(a + b) == JoinLines(a) + JoinLines(b)
  {
    hide JoinLines;
    if b == [] {
      assert a + b == a;
      JoinNone();
    } else {
      var front, last := b[..|b| - 1], b[|b| - 1];
      JoinAppend(a, front);
      JoinSnoc(a + front, last);
      JoinSnoc(front, last);
      assert b == front + [last] && a + b == (a + front) + [last];
      assert JoinLines(a) + JoinLines(front) + last + ['\n'] == JoinLines(a) + (JoinLines(front) + last + ['\n']);
    }
  }

  ghost predicate AllExact(lines: seq<string>, widths: seq<int>) {
    forall i | 0 <= i < |lines| :: |lines[i]| == Sum(widths) + |widths| + 1
  }

  method WrapCells(cells: seq<seq<Run>>, widths: seq<int>)
    returns (lines: seq<seq<seq<Run>>>, height: nat, ghost texts: seq<seq<string>>, ghost breaks: seq<seq<seq<nat>>>)
    requires |cells| == |widths|
    ensures CellsWrapped(cells, widths, texts, breaks) && |lines| == |cells|
    ensures forall c | 0 <= c < |cells| :: texts[c] == Texts(lines[c]) && 1 <= |lines[c]| <= height
    ensures 1 <= height && (1 < height ==> exists c :: 0 <= c < |cells| && |lines[c]| == height)
  {
    hide CellWrapped, Texts, AllWrapped, CellTexts, HardLines, PlainOf;
    lines, height, texts, breaks := [], 1, [], [];
    for c := 0 to |cells|
      invariant |lines| == |texts| == |breaks| == c && 1 <= height
      invariant forall k | 0 <= k < c :: CellWrapped(cells[k], widths[k] - CELL_PADDING, texts[k], breaks[k])
      invariant forall k | 0 <= k < c :: texts[k] == Texts(lines[k]) && 1 <= |lines[k]| <= height
      invariant 1 < height ==> exists k :: 0 <= k < c && |lines[k]| == height
    {
      var wrapped, b := WrapCell(cells[c], widths[c] - CELL_PADDING);
      WrappedIs(cells[c], widths[c] - CELL_PADDING, Texts(wrapped), b);
      ghost var before := lines;
      lines, texts, breaks := lines + [wrapped], texts + [Texts(wrapped)], breaks + [b];
      assert forall k | 0 <= k < c :: lines[k] == before[k];
      if height < |wrapped| { height := |wrapped|; }
    }
  }

  lemma WrappedIs(cell: seq<Run>, inner: int, texts: seq<string>, breaks: seq<seq<nat>>)
    requires AllWrapped(HardLines(PlainOf(cell)), breaks, inner)
    requires texts == CellTexts(HardLines(PlainOf(cell)), breaks, inner)
    ensures CellWrapped(cell, inner, texts, breaks)
  {
  }

  /** Every cell has room inside its column's padding. */
  ghost predicate Roomy(cells: seq<seq<Run>>, widths: seq<int>) {
    |cells| == |widths| && forall c | 0 <= c < |cells| :: HasRoom(cells[c], widths[c])
  }

  ghost predicate HasRoom(cell: seq<Run>, width: int) { RoomFor(width - CELL_PADDING, Blank(PlainOf(cell))) }

  lemma {:induction false} HardLinesBlank(s: string)
    ensures AllBlank(HardLines(s)) <==> Blank(s)
    decreases |s|
  {
    var k := FirstNewline(s);
    if k < |s| {
      HardLinesBlank(s[k + 1..]);
      NewlineBlank(s, k);
      hide Blank, AllBlank;
      AllBlankBoth([s[..k]], HardLines(s[k + 1..]));
      AllBlankOne(s[..k]);
    } else {
      AllBlankOne(s);
    }
  }

  lemma NewlineBlank(s: string, k: nat)
    requires k < |s| && s[k] == '\n'
    ensures Blank(s) <==> Blank(s[..k]) && Blank(s[k + 1..])
  {
    BlankBoth(s[..k], s[k..]);
    BlankBoth([s[k]], s[k + 1..]);
    assert s == s[..k] + s[k..] && s[k..] == [s[k]] + s[k + 1..];
  }

  lemma WrappedFills(cells: seq<seq<Run>>, widths: seq<int>, texts: seq<seq<string>>, breaks: seq<seq<seq<nat>>>)
    returns (exact: seq<bool>)
    requires CellsWrapped(cells, widths, texts, breaks)
    ensures TextsFill(texts, widths, exact)
    ensures forall c | 0 <= c < |cells| :: exact[c] <==> HasRoom(cells[c], widths[c])
  {
    hide CellTexts, HardLines, PlainOf, WideAs, AllWrapped;
    exact := seq(|cells|, c requires 0 <= c < |cells| => HasRoom(cells[c], widths[c]));
    forall c | 0 <= c < |texts| ensures WideAs(texts[c], widths[c] - CELL_PADDING, exact[c]) {
      assert CellWrapped(cells[c], widths[c] - CELL_PADDING, texts[c], breaks[c]);
      CellTextsAreExact(HardLines(PlainOf(cells[c])), breaks[c], widths[c] - CELL_PADDING);
      HardLinesBlank(PlainOf(cells[c]));
    }
  }

  /** Whether all lines of a row are exact is whether its cells have room. */
  lemma RowsAreExact(cells: seq<seq<Run>>, widths: seq<int>, texts: seq<seq<string>>, breaks: seq<seq<seq<nat>>>,
                     rows: seq<string>)
    requires CellsWrapped(cells, widths, texts, breaks)
    requires forall ln | 0 <= ln < |rows| :: Drawn(texts, widths, ln)
    requires forall ln | 0 <= ln < |rows| :: rows[ln] == RowText(texts, widths, ln, |widths|)
    requires forall c | 0 <= c < |cells| :: |texts[c]| <= |rows|
    ensures AllExact(rows, widths) <==> Roomy(cells, widths)
  {
    var exact := WrappedFills(cells, widths, texts, breaks);
    hide CellWrapped, PlainOf, HasRoom, RowText, Drawn;
    LinesAreExact(widths, texts, exact, rows);
    hide TextsFill, LineFits;
    ColumnsFit(widths, texts, exact, |rows|);
  }

  lemma LinesAreExact(widths: seq<int>, texts: seq<seq<string>>, exact: seq<bool>, rows: seq<string>)
    requires TextsFill(texts, widths, exact) && forall ln | 0 <= ln < |rows| :: Drawn(texts, widths, ln)
    requires forall ln | 0 <= ln < |rows| :: rows[ln] == RowText(texts, widths, ln, |widths|)
    ensures AllExact(rows, widths) <==> forall ln | 0 <= ln < |rows| :: LineFits(texts, widths, ln, |widths|)
  {
    assert widths[..|widths|] == widths;
    hide RowText, Sum, LineFits, TextsFill, Drawn;
    forall ln | 0 <= ln < |rows|
      ensures |rows[ln]| == Sum(widths) + |widths| + 1 <==> LineFits(texts, widths, ln, |widths|)
    {
      RowTextIsExact(texts, widths, exact, ln, |widths|);
    }
  }

  /** All lines fit exactly when every column's texts do. */
  lemma ColumnsFit(widths: seq<int>, texts: seq<seq<string>>, exact: seq<bool>, height: nat)
    requires TextsFill(texts, widths, exact) && forall c | 0 <= c < |texts| :: |texts[c]| <= height
    ensures (forall ln | 0 <= ln < height :: LineFits(texts, widths, ln, |widths|)) <==>
      forall c | 0 <= c < |exact| :: exact[c]
  {
    if forall ln | 0 <= ln < height :: LineFits(texts, widths, ln, |widths|) {
      forall c | 0 <= c < |exact| ensures exact[c] {
        assert WideAs(texts[c], widths[c] - CELL_PADDING, exact[c]);
        forall k | 0 <= k < |texts[c]| ensures |texts[c][k]| == widths[c] - CELL_PADDING {
          assert LineFits(texts, widths, k, |widths|) && TextFits(texts[c], widths[c], k);
        }
      }
    }
    if forall c | 0 <= c < |exact| :: exact[c] {
      forall ln, c | 0 <= ln < height && 0 <= c < |widths| ensures TextFits(texts[c], widths[c], ln) {
        assert exact[c] && WideAs(texts[c], widths[c] - CELL_PADDING, exact[c]);
      }
    }
  }

  lemma {:induction false} TextsAt(lines: seq<seq<Run>>, k: nat)
    requires k < |lines|
    ensures |Texts(lines)| == |lines| && Texts(lines)[k] == PlainOf(lines[k])
  {
    var n := |lines| - 1;
    if k < n { TextsAt(lines[..n], k); } else if n > 0 { TextsAt(lines[..n], 0); }
  }

  lemma CellLineIs(texts: seq<string>, inner: int, ln: nat)
    ensures ln < |texts| ==> CellLine(texts, inner, ln) == texts[ln]
    ensures ln >= |texts| && inner >= 0 ==> CellLine(texts, inner, ln) == Uniform(inner, ' ')
  {
  }

  /** One physical line of a row. It fails when a column would have to be padded with less
      than nothing. */
  method EmitLine(out0: seq<Token>, lines: seq<seq<seq<Run>>>, widths: seq<int>, ln: nat, color: bool,
                  ghost texts: seq<seq<string>>) returns (ok: bool, out: seq<Token>)
    requires |lines| == |texts| == |widths|
    requires forall c | 0 <= c < |lines| :: texts[c] == Texts(lines[c])
    ensures ok <==> Drawn(texts, widths, ln)
    ensures ok ==> Visible(out) == Visible(out0) + RowText(texts, widths, ln, |widths|) + ['\n']
    ensures !color && OnlyText(out0) ==> OnlyText(out)
  {
    hide Visible, Texts, PlainOf, RowText, CellLine, OnlyText;
    RowStarts(texts, widths, ln);
    out := Append(out0, [VERTICAL]);
    for c := 0 to |widths|
      invariant Visible(out) == Visible(out0) + RowText(texts, widths, ln, c)
      invariant forall k | 0 <= k < c && widths[k] < CELL_PADDING :: ln < |texts[k]|
      invariant !color && OnlyText(out0) ==> OnlyText(out)
    {
      out := Append(out, [' ']);
      TextsLength(lines[c]);
      CellLineIs(texts[c], widths[c] - CELL_PADDING, ln);
      if ln < |lines[c]| {
        TextsAt(lines[c], ln);
        out := EmitRuns(out, lines[c][ln], color);
      } else {
        if widths[c] < CELL_PADDING { return false, out; }
        out := Append(out, Uniform(widths[c] - CELL_PADDING, ' '));
      }
      out := Append(out, [' ']);
      out := Append(out, [VERTICAL]);
      RowTextSnoc(texts, widths, ln, c, Visible(out0));
    }
    out := Append(out, ['\n']);
    ok := true;
  }

  lemma TextsLength(lines: seq<seq<Run>>)
    ensures |Texts(lines)| == |lines|
  {
    if lines != [] { TextsAt(lines, 0); }
  }

  lemma RowTextSnoc(texts: seq<seq<string>>, widths: seq<int>, ln: nat, c: nat, before: string)
    requires c < |texts| == |widths|
    ensures var text := CellLine(texts[c], widths[c] - CELL_PADDING, ln);
      before + RowText(texts, widths, ln, c) + [' '] + text + [' '] + [VERTICAL] ==
        before + RowText(texts, widths, ln, c + 1)
  {
    var text, row := CellLine(texts[c], widths[c] - CELL_PADDING, ln), RowText(texts, widths, ln, c);
    assert RowText(texts, widths, ln, c + 1) == row + [' '] + text + [' ', VERTICAL];
    hide CellLine, RowText;
    assert [' '] + [VERTICAL] == [' ', VERTICAL];
    assert before + row + [' '] + text + [' '] + [VERTICAL] == before + (row + [' '] + text + [' ', VERTICAL]);
  }

  /** No column narrower than its padding has fewer lines than another. */
  ghost predicate Even(texts: seq<seq<string>>, widths: seq<int>)
    requires |texts| == |widths|
  {
    forall c, d | 0 <= c < |texts| && 0 <= d < |texts| && widths[c] < CELL_PADDING :: |texts[d]| <= |texts[c]|
  }

  /** Emits a row: its cells wrapped, short cells padded with blank lines. It fails exactly when
      a column narrower than its padding would need such a line. Otherwise every line is exactly
      as wide as the columns and separators together, if and only if every cell has room. */
  method EmitRow(out0: seq<Token>, cells: seq<seq<Run>>, widths: seq<int>, color: bool)
    returns (ok: bool, out: seq<Token>, ghost rows: seq<string>, ghost texts: seq<seq<string>>,
             ghost breaks: seq<seq<seq<nat>>>)
    requires |cells| == |widths|
    ensures CellsWrapped(cells, widths, texts, breaks)
    ensures ok <==> Even(texts, widths)
    ensures ok ==> Visible(out) == Visible(out0) + JoinLines(rows) && rows != []
    ensures ok ==> (AllExact(rows, widths) <==> Roomy(cells, widths))
    ensures ok ==> forall ln | 0 <= ln < |rows| :: rows[ln] == RowText(texts, widths, ln, |widths|)
    ensures ok ==> forall c | 0 <= c < |cells| :: |texts[c]| <= |rows|
    ensures !color && OnlyText(out0) ==> OnlyText(out)
  {
    hide Visible, CellWrapped, RowText, Texts, AllExact, Roomy, PlainOf, Drawn;
    var lines, height;
    lines, height, texts, breaks := WrapCells(cells, widths);
    EvenIsDrawn(lines, texts, widths, height);
    out, rows := out0, [];
    for ln := 0 to height
      invariant |rows| == ln && Visible(out) == Visible(out0) + JoinLines(rows)
      invariant forall k | 0 <= k < ln :: rows[k] == RowText(texts, widths, k, |widths|) && Drawn(texts, widths, k)
      invariant !color && OnlyText(out0) ==> OnlyText(out)
    {
      ok, out := EmitLine(out, lines, widths, ln, color, texts);
      if !ok { return; }
      var row := RowText(texts, widths, ln, |widths|);
      JoinSnoc(rows, row);
      rows := rows + [row];
    }
    forall c | 0 <= c < |cells| ensures |texts[c]| <= |rows| { TextsLength(lines[c]); }
    RowsAreExact(cells, widths, texts, breaks, rows);
    ok := true;
  }

  lemma EvenIsDrawn(lines: seq<seq<seq<Run>>>, texts: seq<seq<string>>, widths: seq<int>, height: nat)
    requires |lines| == |texts| == |widths|
    requires forall c | 0 <= c < |lines| :: texts[c] == Texts(lines[c]) && 1 <= |lines[c]| <= height
    requires 1 < height ==> exists c :: 0 <= c < |lines| && |lines[c]| == height
    ensures Even(texts, widths) <==> forall ln | 0 <= ln < height :: Drawn(texts, widths, ln)
  {
    hide Texts;
    forall c | 0 <= c < |lines| ensures |texts[c]| == |lines[c]| { TextsLength(lines[c]); }
    if forall ln | 0 <= ln < height :: Drawn(texts, widths, ln) {
      forall c, d | 0 <= c < |texts| && 0 <= d < |texts| && widths[c] < CELL_PADDING
        ensures |texts[d]| <= |texts[c]|
      {
        assert Drawn(texts, widths, height - 1);
      }
    }
  }

  /** A row that can be drawn at these widths: however its cells are wrapped, and they can be
      wrapped in one way only. */
  ghost predicate RowDraws(cells: seq<seq<Run>>, widths: seq<int>) {
    forall texts, breaks | CellsWrapped(cells, widths, texts, breaks) :: Even(texts, widths)
  }

  lemma CellWrappedOnce(cell: seq<Run>, inner: int, texts: seq<string>, breaks: seq<seq<nat>>, texts': seq<string>,
                        breaks': seq<seq<nat>>)
    requires CellWrapped(cell, inner, texts, breaks) && CellWrapped(cell, inner, texts', breaks')
    ensures texts == texts' && breaks == breaks'
  {
    hide Wrapped, CellTexts, HardLines, PlainOf;
    var hard := HardLines(PlainOf(cell));
    forall i | 0 <= i < |hard| ensures breaks[i] == breaks'[i] {
      WrappingIsUnique(hard[i], breaks[i], breaks'[i], inner);
    }
    assert breaks == breaks';
  }

  lemma DrawsAsWrapped(cells: seq<seq<Run>>, widths: seq<int>, texts: seq<seq<string>>, breaks: seq<seq<seq<nat>>>)
    requires CellsWrapped(cells, widths, texts, breaks)
    ensures RowDraws(cells, widths) <==> Even(texts, widths)
  {
    hide CellWrapped, Even;
    forall texts', breaks' | CellsWrapped(cells, widths, texts', breaks') ensures texts' == texts {
      forall c | 0 <= c < |cells| ensures texts'[c] == texts[c] {
        CellWrappedOnce(cells[c], widths[c] - CELL_PADDING, texts[c], breaks[c], texts'[c], breaks'[c]);
      }
    }
  }

  /** A horizontal rule spanning the columns, as wide as the rows unless a width is negative:
      then it is wider. */
  method Border(widths: seq<int>, left: char, cross: char, right: char) returns (s: string)
    requires widths != []
    ensures Sum(widths) + |widths| + 1 <= |s|
    ensures |s| == Sum(widths) + |widths| + 1 <==> NonNegative(widths)
  {
    s := [left];
    for i := 0 to |widths|
      invariant Sum(widths[..i]) + i + (if i < |widths| then 1 else 0) <= |s|
      invariant |s| == Sum(widths[..i]) + i + (if i < |widths| then 1 else 0) <==>
        forall k | 0 <= k < i :: widths[k] >= 0
    {
      SumPrefix(widths, i);
      s := s + Uniform(if widths[i] < 0 then 0 else widths[i], HORIZONTAL);
      if i + 1 < |widths| { s := s + [cross]; }
    }
    assert widths[..|widths|] == widths;
    s := s + [right];
  }

  method EmitBorder(out0: seq<Token>, widths: seq<int>, left: char, cross: char, right: char)
    returns (out: seq<Token>, ghost line: string)
    requires widths != []
    ensures Visible(out) == Visible(out0) + JoinLines([line])
    ensures |line| == Sum(widths) + |widths| + 1 <==> NonNegative(widths)
    ensures OnlyText(out0) ==> OnlyText(out)
  {
    var s := Border(widths, left, cross, right);
    line := s;
    JoinSnoc([], line);
    assert [] + [line] == [line];
    out := Append(out0, s + ['\n']);
  }

  function HeaderCells(headers: seq<string>): seq<seq<Run>> {
    seq(|headers|, c requires 0 <= c < |headers| => [Run(headers[c], Unstyled)])
  }

  /** Every row that is drawn has room at these widths. */
  ghost predicate TableFits(headers: seq<string>, rows: seq<seq<seq<Run>>>, showHeader: bool, widths: seq<int>) {
    && NonNegative(widths)
    && (showHeader ==> Roomy(HeaderCells(headers), widths)) && forall row | row in rows :: Roomy(row, widths)
  }

  /** Every row can be drawn at these widths. */
  ghost predicate TableDraws(headers: seq<string>, rows: seq<seq<seq<Run>>>, showHeader: bool, widths: seq<int>) {
    (showHeader ==> RowDraws(HeaderCells(headers), widths)) && forall row | row in rows :: RowDraws(row, widths)
  }

  /** What was written shows these lines, all of them exact or not, and without colour it is
      text only. */
  ghost predicate Drawing(text: seq<Token>, lines: seq<string>, widths: seq<int>, exact: bool, color: bool) {
    && Visible(text) == JoinLines(lines) && (AllExact(lines, widths) <==> exact)
    && (!color ==> OnlyText(text))
  }

  lemma NothingDrawn(widths: seq<int>, color: bool)
    ensures Drawing([], [], widths, true, color)
  {
  }

  lemma DrawingIs(text: seq<Token>, lines: seq<string>, widths: seq<int>, exact: bool, color: bool)
    requires Drawing(text, lines, widths, exact, color)
    ensures Visible(text) == JoinLines(lines) && (AllExact(lines, widths) <==> exact)
    ensures !color ==> OnlyText(text)
  {
  }

  lemma DrawMore(before: seq<Token>, text: seq<Token>, lines: seq<string>, more: seq<string>, widths: seq<int>,
                 exact: bool, moreExact: bool, color: bool)
    requires Drawing(before, lines, widths, exact, color) && (!color && OnlyText(before) ==> OnlyText(text))
    requires Visible(text) == Visible(before) + JoinLines(more) && (AllExact(more, widths) <==> moreExact)
    ensures Drawing(text, lines + more, widths, exact && moreExact, color)
  {
    hide Visible, JoinLines, AllExact, OnlyText;
    JoinAppend(lines, more);
    ExactBoth(lines, more, widths);
  }

  lemma DrawLine(before: seq<Token>, text: seq<Token>, lines: seq<string>, line: string, widths: seq<int>, exact: bool,
                 color: bool)
    requires Drawing(before, lines, widths, exact, color) && (OnlyText(before) ==> OnlyText(text))
    requires Visible(text) == Visible(before) + JoinLines([line])
    requires |line| == Sum(widths) + |widths| + 1 <==> NonNegative(widths)
    ensures Drawing(text, lines + [line], widths, exact && NonNegative(widths), color)
  {
    hide Drawing, Visible, JoinLines, OnlyText, NonNegative, Sum;
    ExactLine(line, widths);
    DrawMore(before, text, lines, [line], widths, exact, NonNegative(widths), color);
  }

  method DrawRow(text0: seq<Token>, ghost lines: seq<string>, cells: seq<seq<Run>>, widths: seq<int>, ghost exact: bool,
                 color: bool)
    returns (ok: bool, text: seq<Token>, ghost drawn: seq<string>)
    requires Drawing(text0, lines, widths, exact, color) && |cells| == |widths|
    ensures ok <==> RowDraws(cells, widths)
    ensures ok ==> Drawing(text, lines + drawn, widths, exact && Roomy(cells, widths), color)
  {
    hide Drawing, Visible, CellWrapped, RowText, JoinLines, AllExact, Roomy, RowDraws, Even, OnlyText;
    ghost var texts, breaks;
    ok, text, drawn, texts, breaks := EmitRow(text0, cells, widths, color);
    DrawsAsWrapped(cells, widths, texts, breaks);
    if ok { DrawMore(text0, text, lines, drawn, widths, exact, Roomy(cells, widths), color); }
  }

  /** The top rule, and the header with its own if there is one. */
  method DrawTop(headers: seq<string>, showHeader: bool, widths: seq<int>, color: bool)
    returns (ok: bool, text: seq<Token>, ghost lines: seq<string>)
    requires headers != [] && |headers| == |widths|
    ensures ok <==> (showHeader ==> RowDraws(HeaderCells(headers), widths))
    ensures ok ==> lines != [] && Drawing(text, lines, widths, TopFits(headers, showHeader, widths), color)
  {
    hide Drawing, Visible, JoinLines, Roomy, NonNegative, RowDraws, OnlyText, Sum;
    ghost var line: string;
    NothingDrawn(widths, color);
    ok := true;
    text, line := EmitBorder([], widths, '\U{250C}', '\U{252C}', '\U{2510}');
    DrawLine([], text, [], line, widths, true, color);
    lines := [] + [line];
    if showHeader {
      ghost var drawn;
      ok, text, drawn := DrawRow(text, lines, HeaderCells(headers), widths, NonNegative(widths), color);
      if !ok { return; }
      lines := lines + drawn;
      ghost var before := text;
      text, line := EmitBorder(text, widths, '\U{251C}', '\U{253C}', '\U{2524}');
      DrawLine(before, text, lines, line, widths, NonNegative(widths) && Roomy(HeaderCells(headers), widths), color);
      lines := lines + [line];
    }
  }

  ghost predicate TopFits(headers: seq<string>, showHeader: bool, widths: seq<int>) {
    NonNegative(widths) && (showHeader ==> Roomy(HeaderCells(headers), widths))
  }

  ghost predicate RowsFit(rows: seq<seq<seq<Run>>>, widths: seq<int>, n: nat)
    requires n <= |rows|
  {
    forall j | 0 <= j < n :: Roomy(rows[j], widths)
  }

  ghost predicate RowsDraw(rows: seq<seq<seq<Run>>>, widths: seq<int>, n: nat)
    requires n <= |rows|
  {
    forall j | 0 <= j < n :: RowDraws(rows[j], widths)
  }

  lemma RowsOn(rows: seq<seq<seq<Run>>>, widths: seq<int>, i: nat)
    requires i < |rows|
    ensures RowsFit(rows, widths, i + 1) <==> RowsFit(rows, widths, i) && Roomy(rows[i], widths)
    ensures RowsDraw(rows, widths, i + 1) <==> RowsDraw(rows, widths, i) && RowDraws(rows[i], widths)
    ensures RowsDraw(rows, widths, |rows|) ==> RowDraws(rows[i], widths)
  {
    hide Roomy, RowDraws;
  }

  lemma NoRowsYet(rows: seq<seq<seq<Run>>>, widths: seq<int>)
    ensures RowsFit(rows, widths, 0) && RowsDraw(rows, widths, 0)
  {
  }

  lemma TableIs(headers: seq<string>, rows: seq<seq<seq<Run>>>, showHeader: bool, widths: seq<int>)
    ensures TableFits(headers, rows, showHeader, widths) <==>
      TopFits(headers, showHeader, widths) && RowsFit(rows, widths, |rows|)
    ensures TableDraws(headers, rows, showHeader, widths) <==>
      (showHeader ==> RowDraws(HeaderCells(headers), widths)) && RowsDraw(rows, widths, |rows|)
  {
    hide Roomy, RowDraws, NonNegative;
    forall j | 0 <= j < |rows| ensures rows[j] in rows { }
    forall row | row in rows ensures exists j :: 0 <= j < |rows| && rows[j] == row { }
  }

  /** The whole table at any widths: drawn if and only if every row can be, and then a
      rectangle, every line of it exactly as wide as the columns, if and only if every cell
      has room. */
  method RenderAt(headers: seq<string>, rows: seq<seq<seq<Run>>>, showHeader: bool, widths: seq<int>, color: bool)
    returns (out: Option<seq<Token>>, ghost lines: seq<string>)
    requires headers != [] && |headers| == |widths|
    requires forall row | row in rows :: |row| == |widths|
    ensures out.Some? <==> TableDraws(headers, rows, showHeader, widths)
    ensures out.Some? ==> Visible(out.value) == JoinLines(lines) && lines != []
    ensures out.Some? ==> (AllExact(lines, widths) <==> TableFits(headers, rows, showHeader, widths))
    ensures out.Some? && !color ==> OnlyText(out.value)
  {
    hide Drawing, Visible, JoinLines, AllExact, NonNegative, RowDraws, OnlyText, Sum;
    hide TableFits, TableDraws, TopFits, RowsFit, RowsDraw;
    ghost var top := TopFits(headers, showHeader, widths);
    var ok, text;
    ok, text, lines := DrawTop(headers, showHeader, widths, color);
    TableIs(headers, rows, showHeader, widths);
    NoRowsYet(rows, widths);
    if !ok { return None, lines; }
    for i := 0 to |rows|
      invariant RowsDraw(rows, widths, i) && lines != []
      invariant Drawing(text, lines, widths, top && RowsFit(rows, widths, i), color)
    {
      assert rows[i] in rows;
      ghost var drawn;
      RowsOn(rows, widths, i);
      ok, text, drawn := DrawRow(text, lines, rows[i], widths, top && RowsFit(rows, widths, i), color);
      if !ok { return None, lines; }
      lines := lines + drawn;
    }
    ghost var exact := top && RowsFit(rows, widths, |rows|);
    ghost var before, line := text, "";
    text, line := EmitBorder(text, widths, '\U{2514}', '\U{2534}', '\U{2518}');
    DrawLine(before, text, lines, line, widths, exact, color);
    lines := lines + [line];
    FitsNonNegative(headers, showHeader, widths);
    DrawingIs(text, lines, widths, exact, color);
    out := Some(text);
  }

  lemma FitsNonNegative(headers: seq<string>, showHeader: bool, widths: seq<int>)
    ensures TopFits(headers, showHeader, widths) ==> NonNegative(widths)
  {
  }

  lemma ExactLine(line: string, widths: seq<int>)
    ensures AllExact([line], widths) <==> |line| == Sum(widths) + |widths| + 1
  {
    assert [line][0] == line;
  }

  lemma ExactBoth(a: seq<string>, b: seq<string>, widths: seq<int>)
    ensures AllExact(a + b, widths) <==> AllExact(a, widths) && AllExact(b, widths)
  {
    if AllExact(a + b, widths) {
      forall i | 0 <= i < |a| ensures |a[i]| == Sum(widths) + |widths| + 1 { assert (a + b)[i] == a[i]; }
      forall i | 0 <= i < |b| ensures |b[i]| == Sum(widths) + |widths| + 1 { assert (a + b)[|a| + i] == b[i]; }
    }
  }

  lemma NothingVisible()
    ensures Visible([]) == [] && JoinLines([""]) == "\n"
  {
  }

  // ----- layout and drawing together

  /** The plain texts the layout measures. */
  function PlainTable(headers: seq<string>, rows: seq<seq<seq<Run>>>, showHeader: bool, minWidth: int): Table {
    Table(headers, seq(|rows|, i requires 0 <= i < |rows| => PlainCells(rows[i])), showHeader, minWidth)
  }

  function PlainCells(cells: seq<seq<Run>>): seq<string> {
    seq(|cells|, c requires 0 <= c < |cells| => PlainOf(cells[c]))
  }

  /** Lays the table out in the space available and draws it, unless a column narrower than
      its padding stops it. The result is a rectangle exactly as wide as the layout, the natural
      width if that is available, otherwise all that is, raised to the minimum width, if and
      only if every cell has room. */
  method Render(headers: seq<string>, rows: seq<seq<seq<Run>>>, showHeader: bool, minWidth: int, available: int,
                color: bool)
    returns (out: Option<seq<Token>>, ghost lines: seq<string>, ghost natural: seq<int>, ghost widths: seq<int>)
    requires forall row | row in rows :: |row| == |headers|
    ensures headers == [] ==> out.Some? && Visible(out.value) == "\n"
    ensures headers != [] ==> |natural| == |widths| == |headers| && forall c | 0 <= c < |natural| ::
      natural[c] == ColumnNeed(headers, rows, showHeader, minWidth, c)
    ensures headers != [] ==>
      Sum(widths) + |headers| + 1 == TableWidth(Sum(natural), |headers|, minWidth, available)
    ensures headers != [] && Sum(natural) + |headers| + 1 <= available ==>
      forall c | 0 <= c < |headers| :: natural[c] <= widths[c]
    ensures out.None? <==> headers != [] && !TableDraws(headers, rows, showHeader, widths)
    ensures out.Some? && headers != [] ==> Visible(out.value) == JoinLines(lines) && lines != []
    ensures out.Some? && headers != [] ==>
      ((forall i | 0 <= i < |lines| :: |lines[i]| == TableWidth(Sum(natural), |headers|, minWidth, available))
       <==> TableFits(headers, rows, showHeader, widths))
    ensures out.Some? && !color ==> OnlyText(out.value)
  {
    hide Visible, JoinLines, TableFits, TableDraws, NaturalWidth, PlainOf, OnlyText;
    lines, natural, widths := [], [], [];
    if headers == [] {
      LoneNewline();
      out := Some(Written("\n"));
      return;
    }
    var t := PlainTable(headers, rows, showHeader, minWidth);
    PlainIsRectangular(headers, rows, showHeader, minWidth);
    var laid;
    laid, natural := ComputeColumnWidths(t, available);
    widths := laid;
    out, lines := RenderAt(headers, rows, showHeader, laid, color);
  }

  lemma LoneNewline()
    ensures Visible(Written("\n")) == "\n" && OnlyText(Written("\n"))
  {
    VisibleWritten("\n");
  }

  lemma PlainIsRectangular(headers: seq<string>, rows: seq<seq<seq<Run>>>, showHeader: bool, minWidth: int)
    requires headers != [] && forall row | row in rows :: |row| == |headers|
    ensures Rectangular(PlainTable(headers, rows, showHeader, minWidth))
  {
    var t := PlainTable(headers, rows, showHeader, minWidth);
    forall row | row in t.rows ensures |row| == |headers| {
      var i :| 0 <= i < |t.rows| && t.rows[i] == row;
      assert rows[i] in rows;
    }
  }

  /** What a column needs to show every line of its cells whole. */
  ghost function ColumnNeed(headers: seq<string>, rows: seq<seq<seq<Run>>>, showHeader: bool, minWidth: int,
                            c: nat): int
    requires headers != [] && c < |headers| && forall row | row in rows :: |row| == |headers|
  {
    PlainIsRectangular(headers, rows, showHeader, minWidth);
    NaturalWidth(PlainTable(headers, rows, showHeader, minWidth), c)
  }

  /** The width of a whole line: borders included. */
  function TableWidth(natural: int, columns: nat, minWidth: int, available: int): int {
    var edges := columns + 1;
    var cut := if natural + edges <= available then natural + edges else if available < edges then edges else available;
    if minWidth != 0 && cut < minWidth then Min(minWidth, available) else cut
  }
}
