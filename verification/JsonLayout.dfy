/** How the writer lays a text out: where lines break, how far they are indented, and where
    a space stands. */
module JsonLayout {
  import opened Decimals
  import opened JsonText

  /** What follows the string that is open here. */
  function AfterString(s: string): (r: string)
    ensures |r| <= |s|
  {
    if s == "" then ""
    else if s[0] == '\\' then (if |s| < 2 then "" else AfterString(s[2..]))
    else if s[0] == '"' then s[1..]
    else AfterString(s[1..])
  }

  predicate Opens(c: char) { c == '[' || c == '{' }

  predicate Closes(c: char) { c == ']' || c == '}' }

  /** The text goes on with a character that is no white space. */
  predicate Dark(s: string) { s != "" && !IsWs(s[0]) }

  /** A line begins with two spaces for each open container, the one it closes not counted. */
  predicate IndentIs(s: string, depth: nat, n: nat) {
    && n < |s| && (forall i | 0 <= i < n :: s[i] == ' ') && !IsWs(s[n])
    && n == 2 * (if Closes(s[n]) then depth - 1 else depth)
  }

  /** Outside strings, with depth containers open. Pretty: a container breaks the line after
      its bracket and before its end, unless it is empty, and after each comma; every line is
      indented by its depth; one space follows each colon, and there is no other white space.
      Compact: there is none at all. Begun is a place where a line or a container begins. */
  predicate Laid(s: string, depth: nat, begun: bool, pretty: bool)
    decreases |s|
  {
    if s == "" then depth == 0
    else if s[0] == '\n' then
      pretty && Lead(s[1..]) < |s| - 1 && IndentIs(s[1..], depth, Lead(s[1..]))
      && Laid(s[1..][Lead(s[1..])..], depth, true, pretty)
    else if IsWs(s[0]) then false
    else if s[0] == '"' then Laid(AfterString(s[1..]), depth, false, pretty)
    else if Opens(s[0]) then
      |s| > 1 && (Closes(s[1]) || (pretty <==> s[1] == '\n')) && Laid(s[1..], depth + 1, true, pretty)
    else if Closes(s[0]) then depth > 0 && (pretty ==> begun) && Laid(s[1..], depth - 1, false, pretty)
    else if s[0] == ',' then |s| > 1 && (pretty <==> s[1] == '\n') && Laid(s[1..], depth, false, pretty)
    else if s[0] == ':' && pretty then |s| > 2 && s[1] == ' ' && Dark(s[2..]) && Laid(s[2..], depth, false, pretty)
    else Laid(s[1..], depth, false, pretty)
  }

  /** The spaces a text begins with. */
  function Lead(s: string): (n: nat)
    ensures n <= |s| && (forall i | 0 <= i < n :: s[i] == ' ') && (n < |s| ==> s[n] != ' ')
  {
    if s != "" && s[0] == ' ' then 1 + Lead(s[1..]) else 0
  }

  // ----- the layout of what is printed

  /** A character that only stands for itself. */
  predicate IsBare(c: char) {
    !IsWs(c) && c != '"' && !Opens(c) && !Closes(c) && c != ',' && c != ':'
  }

  lemma {:induction false} BareLaid(s: string, post: string, depth: nat, begun: bool, pretty: bool)
    requires s != "" && (forall i | 0 <= i < |s| :: IsBare(s[i])) && Laid(post, depth, false, pretty)
    ensures Laid(s + post, depth, begun, pretty)
    decreases |s|
  {
    assert (s + post)[1..] == s[1..] + post;
    if |s| == 1 {
      assert s[1..] + post == post;
    } else {
      BareLaid(s[1..], post, depth, false, pretty);
    }
  }

  lemma {:induction false} DigitsBare(n: nat)
    ensures forall i | 0 <= i < |Digits(n)| :: IsBare(Digits(n)[i])
  {
    if n >= 10 { DigitsBare(n / 10); }
    var d := n % 10;
    assert d == 0 || d == 1 || d == 2 || d == 3 || d == 4 || d == 5 || d == 6 || d == 7 || d == 8 || d == 9;
    assert IsBare(DigitChar(d));
  }

  lemma EscapeSkipped(c: char, s: string)
    ensures AfterString(EscapeChar(c) + s) == AfterString(s)
  {
    var e := EscapeChar(c);
    EscapeOpens(c);
    if |e| == 1 {
      assert (e + s)[1..] == s;
    } else {
      assert (e + s)[2..] == e[2..] + s;
      HexPlain(c);
      PlainSkipped(e[2..], s);
    }
  }

  /** Nothing behind the first two characters of an escape ends the string. */
  lemma HexPlain(c: char)
    requires |EscapeChar(c)| > 1
    ensures forall i | 2 <= i < |EscapeChar(c)| :: EscapeChar(c)[i] != '"' && EscapeChar(c)[i] != '\\'
  {
    if |EscapeChar(c)| > 2 {
      HexIs(c as int / 16);
      HexIs(c as int % 16);
    }
  }

  lemma {:induction false} PlainSkipped(t: string, s: string)
    requires forall i | 0 <= i < |t| :: t[i] != '"' && t[i] != '\\'
    ensures AfterString(t + s) == AfterString(s)
  {
    if t == "" {
      assert t + s == s;
    } else {
      assert (t + s)[1..] == t[1..] + s;
      PlainSkipped(t[1..], s);
    }
  }

  lemma {:induction false} EscapedSkipped(s: string, post: string)
    ensures AfterString(Escaped(s) + ("\"" + post)) == post
  {
    if s == "" {
      assert Escaped(s) + ("\"" + post) == "\"" + post;
      assert ("\"" + post)[1..] == post;
    } else {
      EscapedSkipped(s[1..], post);
      EscapeSkipped(s[0], Escaped(s[1..]) + ("\"" + post));
      assert Escaped(s) + ("\"" + post) == EscapeChar(s[0]) + (Escaped(s[1..]) + ("\"" + post));
    }
  }

  lemma QuotedLaid(s: string, post: string, depth: nat, begun: bool, pretty: bool)
    requires Laid(post, depth, false, pretty)
    ensures Laid(Quoted(s) + post, depth, begun, pretty)
  {
    EscapedSkipped(s, post);
    assert Quoted(s) + post == "\"" + (Escaped(s) + ("\"" + post));
    assert (Quoted(s) + post)[1..] == Escaped(s) + ("\"" + post);
  }

  lemma {:induction false} LeadIs(n: nat, s: string)
    requires s != "" && s[0] != ' '
    ensures Lead(Spaces(n) + s) == n && (Spaces(n) + s)[n..] == s
  {
    if n > 0 {
      assert (Spaces(n) + s)[1..] == Spaces(n - 1) + s;
      LeadIs(n - 1, s);
    } else {
      assert Spaces(0) + s == s;
    }
  }

  /** A line break before what belongs on a line of its own. */
  lemma NewlineLaid(at: nat, s: string, depth: nat, begun: bool, pretty: bool)
    requires Dark(s) && at == (if Closes(s[0]) then depth - 1 else depth)
    requires Laid(s, depth, pretty || begun, pretty)
    ensures var t := Newline(at, pretty) + s;
      Laid(t, depth, begun, pretty) && t != "" && if pretty then t[0] == '\n' else t == s
  {
    if pretty {
      LeadIs(2 * at, s);
      var t := Spaces(2 * at) + s;
      assert Newline(at, pretty) + s == "\n" + t && ("\n" + t)[1..] == t;
      hide Laid;
      assert t[2 * at] == s[0] && IndentIs(t, depth, 2 * at);
      LineStep(t, depth, begun);
    } else {
      assert "" + s == s;
    }
  }

  lemma LineStep(t: string, depth: nat, begun: bool)
    requires Lead(t) < |t| && IndentIs(t, depth, Lead(t)) && Laid(t[Lead(t)..], depth, true, true)
    ensures Laid("\n" + t, depth, begun, true)
  {
    assert ("\n" + t)[1..] == t;
  }

  lemma OpenStep(c: char, s: string, depth: nat, begun: bool, pretty: bool)
    requires Opens(c) && BodyLaid(s, depth, true, pretty)
    ensures Laid([c] + s, depth, begun, pretty)
  {
    assert ([c] + s)[1..] == s;
  }

  lemma CloseStep(c: char, s: string, depth: nat, begun: bool, pretty: bool)
    requires Closes(c) && (pretty ==> begun) && Laid(s, depth, false, pretty)
    ensures Laid([c] + s, depth + 1, begun, pretty)
  {
    assert ([c] + s)[1..] == s;
  }

  lemma CommaStep(s: string, depth: nat, begun: bool, pretty: bool)
    requires s != "" && (pretty <==> s[0] == '\n') && Laid(s, depth, false, pretty)
    ensures Laid("," + s, depth, begun, pretty)
  {
    assert ("," + s)[1..] == s;
  }

  lemma ColonStep(s: string, depth: nat, begun: bool, pretty: bool)
    requires Dark(s) && Laid(s, depth, false, pretty)
    ensures Laid((if pretty then ": " else ":") + s, depth, begun, pretty)
  {
    if pretty {
      assert (": " + s)[2..] == s;
    } else {
      assert (":" + s)[1..] == s;
    }
  }

  /** What stands in a container, from its start or behind an entry: its end, or a new line. */
  predicate BodyLaid(s: string, depth: nat, first: bool, pretty: bool) {
    Laid(s, depth + 1, first, pretty) && s != "" && (first ==> Closes(s[0]) || (pretty <==> s[0] == '\n'))
  }

  /** The end of a container, on a line of its own when it holds something. */
  lemma EndLaid(any: bool, close: char, depth: nat, pretty: bool, post: string)
    requires Closes(close) && Laid(post, depth, false, pretty)
    ensures BodyLaid((if any then Newline(depth, pretty) else "") + ([close] + post), depth, !any, pretty)
  {
    hide Laid;
    var s := [close] + post;
    CloseStep(close, post, depth, pretty || !any, pretty);
    if any {
      NewlineLaid(depth, s, depth + 1, false, pretty);
    } else {
      assert "" + s == s;
    }
  }

  /** One entry of a container, after its comma and on a line of its own. */
  lemma EntryLaid(k: nat, entry: string, depth: nat, pretty: bool)
    requires Dark(entry) && !Closes(entry[0])
    requires Laid(entry, depth + 1, true, pretty) && Laid(entry, depth + 1, false, pretty)
    ensures BodyLaid(Comma(k) + (Newline(depth + 1, pretty) + entry), depth, k == 0, pretty)
  {
    hide Laid;
    var line := Newline(depth + 1, pretty) + entry;
    NewlineLaid(depth + 1, entry, depth + 1, k == 0, pretty);
    NewlineLaid(depth + 1, entry, depth + 1, false, pretty);
    if k == 0 {
      assert Comma(k) + line == line;
    } else {
      CommaStep(line, depth + 1, false, pretty);
    }
  }

  /** Every value is laid out, whatever well laid text follows it. */
  lemma {:induction false} ValueLaid(v: Value, depth: nat, begun: bool, pretty: bool, post: string)
    requires Laid(post, depth, false, pretty)
    ensures Laid(Printed(v, depth, pretty) + post, depth, begun, pretty)
    decreases v, Width(v) + 2
  {
    hide Laid, AfterItems, AfterMembers, Escaped;
    match v
    case Null => BareLaid("null", post, depth, begun, pretty);
    case Bool(b) => BareLaid(if b then "true" else "false", post, depth, begun, pretty);
    case Number(m, _) =>
      DigitsBare(if m < 0 then -m else m);
      BareLaid(IntText(m), post, depth, begun, pretty);
    case Str(s) => QuotedLaid(s, post, depth, begun, pretty);
    case Arr(_) =>
      ItemsLaid(v, 0, depth, pretty, post);
      ArrayTextIs(v, depth, pretty, post);
      OpenStep('[', AfterItems(v, 0, depth, pretty, post), depth, begun, pretty);
    case Obj(_) =>
      MembersLaid(v, 0, depth, pretty, post);
      ObjectTextIs(v, depth, pretty, post);
      OpenStep('{', AfterMembers(v, 0, depth, pretty, post), depth, begun, pretty);
  }

  lemma StartsDark(v: Value, depth: nat, pretty: bool, post: string)
    ensures Dark(Printed(v, depth, pretty) + post) && !Closes((Printed(v, depth, pretty) + post)[0])
  {
    hide Printed;
    TextStarts(v, depth, pretty);
  }

  lemma {:induction false} ItemsLaid(v: Value, k: nat, depth: nat, pretty: bool, post: string)
    requires v.Arr? && k <= |v.items| && Laid(post, depth, false, pretty)
    ensures BodyLaid(AfterItems(v, k, depth, pretty, post), depth, k == 0, pretty)
    decreases v, |v.items| - k + 1
  {
    hide Laid, Printed, Newline;
    if k == |v.items| {
      EndLaid(v.items != [], ']', depth, pretty, post);
      ItemsEnd(v, depth, pretty, post);
    } else {
      hide AfterItems;
      var item, rest := v.items[k], AfterItems(v, k + 1, depth, pretty, post);
      ItemsLaid(v, k + 1, depth, pretty, post);
      ValueLaid(item, depth + 1, true, pretty, rest);
      ValueLaid(item, depth + 1, false, pretty, rest);
      StartsDark(item, depth + 1, pretty, rest);
      EntryLaid(k, Printed(item, depth + 1, pretty) + rest, depth, pretty);
      ItemStep(v, k, depth, pretty, post);
    }
  }

  lemma ItemsEnd(v: Value, depth: nat, pretty: bool, post: string)
    requires v.Arr?
    ensures AfterItems(v, |v.items|, depth, pretty, post) ==
            (if v.items != [] then Newline(depth, pretty) else "") + ([']'] + post)
  {
    hide Newline;
  }

  lemma {:induction false} MembersLaid(v: Value, k: nat, depth: nat, pretty: bool, post: string)
    requires v.Obj? && k <= |v.members| && Laid(post, depth, false, pretty)
    ensures BodyLaid(AfterMembers(v, k, depth, pretty, post), depth, k == 0, pretty)
    decreases v, |v.members| - k + 1
  {
    hide Laid, Printed, Newline, KeyText;
    if k == |v.members| {
      EndLaid(v.members != [], '}', depth, pretty, post);
      MembersEnd(v, depth, pretty, post);
    } else {
      hide AfterMembers;
      var m, rest := v.members[k], AfterMembers(v, k + 1, depth, pretty, post);
      assert m in v.members;
      MembersLaid(v, k + 1, depth, pretty, post);
      ValueLaid(m.1, depth + 1, false, pretty, rest);
      StartsDark(m.1, depth + 1, pretty, rest);
      KeyLaid(m.0, Printed(m.1, depth + 1, pretty) + rest, depth + 1, true, pretty);
      KeyLaid(m.0, Printed(m.1, depth + 1, pretty) + rest, depth + 1, false, pretty);
      EntryLaid(k, MemberThen(v, k, depth, pretty, post), depth, pretty);
      MemberStep(v, k, depth, pretty, post);
    }
  }

  lemma MembersEnd(v: Value, depth: nat, pretty: bool, post: string)
    requires v.Obj?
    ensures AfterMembers(v, |v.members|, depth, pretty, post) ==
            (if v.members != [] then Newline(depth, pretty) else "") + (['}'] + post)
  {
    hide Newline;
  }

  /** A key, its colon, and one space when pretty. */
  lemma KeyLaid(key: string, tail: string, depth: nat, begun: bool, pretty: bool)
    requires Dark(tail) && Laid(tail, depth, false, pretty)
    ensures var s := KeyText(key, pretty) + tail;
      Laid(s, depth, begun, pretty) && Dark(s) && !Closes(s[0])
  {
    hide Laid, Escaped;
    var after := (if pretty then ": " else ":") + tail;
    ColonStep(tail, depth, false, pretty);
    QuotedLaid(key, after, depth, begun, pretty);
    assert KeyText(key, pretty) + tail == Quoted(key) + after;
  }

  /** The text of every value is laid out by its nesting. */
  lemma PrintedLaid(v: Value, pretty: bool)
    ensures Laid(Printed(v, 0, pretty), 0, false, pretty)
  {
    ValueLaid(v, 0, false, pretty, "");
    assert Printed(v, 0, pretty) + "" == Printed(v, 0, pretty);
  }
}
