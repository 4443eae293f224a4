/** Text as lines: whitespace, trailing space, hard line breaks. */
module TextLines {

  /** The whitespace of ASCII text. */
  predicate IsSpace(c: char) {
    c == ' ' || c == '\t' || c == '\n' || c == '\r' || c == '\U{0C}' || c == '\U{0B}'
  }

  /** The first newline at or after start, or the end. */
  method FindNewline(s: string, start: nat) returns (stop: nat)
    requires start <= |s|
    ensures start <= stop <= |s| && (stop < |s| ==> s[stop] == '\n')
    ensures forall k | start <= k < stop :: s[k] != '\n'
  {
    stop := start;
    while stop < |s| && s[stop] != '\n'
      invariant start <= stop <= |s| && forall k | start <= k < stop :: s[k] != '\n'
    {
      stop := stop + 1;
    }
  }

  function FirstNewline(s: string): (k: nat)
    ensures k <= |s| && (k < |s| ==> s[k] == '\n')
    ensures forall j | 0 <= j < k :: s[j] != '\n'
  {
    if s == [] || s[0] == '\n' then 0 else 1 + FirstNewline(s[1..])
  }

  /** The lines between newlines: always at least one, possibly empty. */
  function HardLines(s: string): (lines: seq<string>)
    ensures lines != []
  {
    var k := FirstNewline(s);
    if k == |s| then [s] else [s[..k]] + HardLines(s[k + 1..])
  }

  lemma HardLinesFrom(s: string, start: nat, stop: nat)
    requires start <= stop <= |s| && (stop < |s| ==> s[stop] == '\n')
    requires forall k | start <= k < stop :: s[k] != '\n'
    ensures HardLines(s[start..]) ==
      if stop == |s| then [s[start..stop]] else [s[start..stop]] + HardLines(s[stop + 1..])
  {
    var rest := s[start..];
    var k := FirstNewline(rest);
    assert k == stop - start by {
      assert forall j | 0 <= j < stop - start :: rest[j] == s[start + j];
      if stop < |s| { assert rest[stop - start] == s[stop]; }
    }
    assert rest[..k] == s[start..stop];
    if stop < |s| {
      assert rest[k + 1..] == s[stop + 1..];
    } else {
      assert rest == s[start..stop];
    }
  }
}
