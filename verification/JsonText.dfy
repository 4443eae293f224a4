/** JSON values, the text the writer gives them, and a reader for the grammar of sections 2
    to 7 of RFC 8259. One character of a text or a string stands for one byte. */
module JsonText {
  import opened Decimals
  import opened Features

  /** A number is mantissa * 10^exponent as written; integers have exponent 0. Members keep
      their order. */
  datatype Value =
    | Null
    | Bool(b: bool)
    | Number(mantissa: int, exponent: int)
    | Str(s: string)
    | Arr(items: seq<Value>)
    | Obj(members: seq<(string, Value)>)

  // ----- printing

  function Spaces(n: nat): (s: string)
    ensures |s| == n && forall c | c in s :: c == ' '
  {
    seq(n, i => ' ')
  }

  function Newline(depth: nat, pretty: bool): string {
    if pretty then "\n" + Spaces(2 * depth) else ""
  }

  function HexDigit(n: nat): char
    requires n < 16
  {
    "0123456789abcdef"[n]
  }

  /** How one character is written inside a string. */
  function EscapeChar(c: char): (e: string)
    ensures e != ""
  {
    if c == '"' then "\\\""
    else if c == '\\' then "\\\\"
    else if c == '\U{08}' then "\\b"
    else if c == '\U{0C}' then "\\f"
    else if c == '\n' then "\\n"
    else if c == '\r' then "\\r"
    else if c == '\t' then "\\t"
    else if c < ' ' then "\\u00" + [HexDigit(c as int / 16), HexDigit(c as int % 16)]
    else [c]
  }

  function Escaped(s: string): string {
    if s == "" then "" else EscapeChar(s[0]) + Escaped(s[1..])
  }

  function Quoted(s: string): string { "\"" + Escaped(s) + "\"" }

  function IntText(i: int): string { if i < 0 then "-" + Digits(-i) else Digits(i) }

  function Width(v: Value): nat {
    if v.Arr? then |v.items| else if v.Obj? then |v.members| else 0
  }

  /** The text of a value written at a nesting depth. Only integers are written here. */
  function Printed(v: Value, depth: nat, pretty: bool): string
    decreases v, Width(v) + 2
  {
    match v
    case Null => "null"
    case Bool(b) => if b then "true" else "false"
    case Number(m, _) => IntText(m)
    case Str(s) => Quoted(s)
    case Arr(items) => "[" + ItemsFrom(v, 0, depth, pretty) + ArrayEnd(items != [], depth, pretty)
    case Obj(members) => "{" + MembersFrom(v, 0, depth, pretty) + ObjectEnd(members != [], depth, pretty)
  }

  function ArrayEnd(any: bool, depth: nat, pretty: bool): string { (if any then Newline(depth, pretty) else "") + "]" }

  function ObjectEnd(any: bool, depth: nat, pretty: bool): string { (if any then Newline(depth, pretty) else "") + "}" }

  /** The items from k on, each on its own line, separated by commas. */
  function ItemsFrom(v: Value, k: nat, depth: nat, pretty: bool): string
    requires v.Arr? && k <= |v.items|
    decreases v, |v.items| - k + 1
  {
    if k == |v.items| then ""
    else
      Comma(k) + Newline(depth + 1, pretty) + Printed(v.items[k], depth + 1, pretty)
      + ItemsFrom(v, k + 1, depth, pretty)
  }

  function MembersFrom(v: Value, k: nat, depth: nat, pretty: bool): string
    requires v.Obj? && k <= |v.members|
    decreases v, |v.members| - k + 1
  {
    if k == |v.members| then ""
    else Comma(k) + Newline(depth + 1, pretty) + KeyText(v.members[k].0, pretty)
         + Printed(v.members[k].1, depth + 1, pretty) + MembersFrom(v, k + 1, depth, pretty)
  }

  function Comma(k: nat): string { if k == 0 then "" else "," }

  function KeyText(k: string, pretty: bool): string { Quoted(k) + ":" + (if pretty then " " else "") }

  /** What the writer is driven with: integers, not fractions. */
  ghost predicate Writable(v: Value) {
    match v
    case Number(_, e) => e == 0
    case Arr(items) => forall x | x in items :: Writable(x)
    case Obj(members) => forall m | m in members :: Writable(m.1)
    case _ => true
  }

  // ----- reading

  predicate IsWs(c: char) { c == ' ' || c == '\t' || c == '\n' || c == '\r' }

  function SkipWs(s: string): (r: string)
    ensures |r| <= |s| && (r != "" ==> !IsWs(r[0]))
  {
    if s != "" && IsWs(s[0]) then SkipWs(s[1..]) else s
  }

  predicate IsDigit(c: char) { '0' <= c <= '9' }

  function ReadDigits(s: string, acc: nat): (r: (nat, string))
    ensures |r.1| <= |s| && (r.1 != "" ==> !IsDigit(r.1[0]))
    decreases |s|
  {
    if s != "" && IsDigit(s[0]) then ReadDigits(s[1..], acc * 10 + (s[0] as int - '0' as int)) else (acc, s)
  }

  /** Fraction and exponent after the integer part. */
  function ReadScale(m: nat, s: string): (r: Option<(nat, int, string)>)
    ensures r.Some? ==> |r.value.2| <= |s|
  {
    if s != "" && s[0] == '.' then
      if |s| < 2 || !IsDigit(s[1]) then None
      else
        var (m', t) := ReadDigits(s[1..], m);
        ReadExponent(m', |t| - |s| + 1, t)
    else ReadExponent(m, 0, s)
  }

  function ReadExponent(m: nat, scale: int, s: string): (r: Option<(nat, int, string)>)
    ensures r.Some? ==> |r.value.2| <= |s|
  {
    if s != "" && (s[0] == 'e' || s[0] == 'E') then
      var t := s[1..];
      var negative := t != "" && t[0] == '-';
      var u := if t != "" && (t[0] == '-' || t[0] == '+') then t[1..] else t;
      if u == "" || !IsDigit(u[0]) then None
      else
        var (e, w) := ReadDigits(u, 0);
        Some((m, if negative then scale - e else scale + e, w))
    else Some((m, scale, s))
  }

  function ReadNumber(s: string): (r: Option<(Value, string)>)
    ensures r.Some? ==> |r.value.1| < |s|
  {
    var negative := s != "" && s[0] == '-';
    var t := if negative then s[1..] else s;
    if t == "" || !IsDigit(t[0]) then None
    else
      var (m, u) := if t[0] == '0' then (0, t[1..]) else ReadDigits(t[1..], t[0] as int - '0' as int);
      var scaled := ReadScale(m, u);
      if scaled.None? then None
      else
        var magnitude: int := scaled.value.0;
        Some((Number(if negative then -magnitude else magnitude, scaled.value.1), scaled.value.2))
  }

  function HexValue(c: char): Option<nat> {
    if '0' <= c <= '9' then Some(c as int - '0' as int)
    else if 'a' <= c <= 'f' then Some(c as int - 'a' as int + 10)
    else if 'A' <= c <= 'F' then Some(c as int - 'A' as int + 10)
    else None
  }

  /** The code unit after a \u. */
  function CodeUnit(s: string): (r: Option<nat>)
    ensures r.Some? ==> |s| >= 4 && r.value < 0x1_0000
  {
    if |s| < 4 then None
    else
      var a, b, c, d := HexValue(s[0]), HexValue(s[1]), HexValue(s[2]), HexValue(s[3]);
      if a.None? || b.None? || c.None? || d.None? then None
      else Some(a.value * 0x1000 + b.value * 0x100 + c.value * 0x10 + d.value)
  }

  /** The bytes of a code point. */
  function Utf8(p: nat): string
    requires p < 0x11_0000
  {
    if p < 0x80 then [p as char]
    else if p < 0x800 then [(0xC0 + p / 0x40) as char, (0x80 + p % 0x40) as char]
    else if p < 0x1_0000 then [(0xE0 + p / 0x1000) as char, (0x80 + p / 0x40 % 0x40) as char, (0x80 + p % 0x40) as char]
    else [(0xF0 + p / 0x4_0000) as char, (0x80 + p / 0x1000 % 0x40) as char, (0x80 + p / 0x40 % 0x40) as char,
      (0x80 + p % 0x40) as char]
  }

  /** One character escape, after its backslash. A surrogate counts only in a pair. */
  function ReadEscape(s: string): (r: Option<(string, string)>)
    ensures r.Some? ==> |r.value.1| < |s|
  {
    if s == "" then None
    else
      match s[0]
      case '"' => Some(("\"", s[1..]))
      case '\\' => Some(("\\", s[1..]))
      case '/' => Some(("/", s[1..]))
      case 'b' => Some((['\U{08}'], s[1..]))
      case 'f' => Some((['\U{0C}'], s[1..]))
      case 'n' => Some(("\n", s[1..]))
      case 'r' => Some(("\r", s[1..]))
      case 't' => Some(("\t", s[1..]))
      case 'u' =>
        var unit := CodeUnit(s[1..]);
        if unit.None? || 0xDC00 <= unit.value < 0xE000 then None
        else if unit.value < 0xD800 || 0xE000 <= unit.value then Some((Utf8(unit.value), s[5..]))
        else if |s| < 7 || s[5] != '\\' || s[6] != 'u' then None
        else
          var low := CodeUnit(s[7..]);
          if low.None? || !(0xDC00 <= low.value < 0xE000) then None
          else Some((Utf8(0x1_0000 + (unit.value - 0xD800) * 0x400 + (low.value - 0xDC00)), s[11..]))
      case _ => None
  }

  /** The rest of a string, after its opening quote. */
  function ReadChars(s: string, acc: string): (r: Option<(string, string)>)
    ensures r.Some? ==> |r.value.1| < |s|
    decreases |s|
  {
    if s == "" then None
    else if s[0] == '"' then Some((acc, s[1..]))
    else if s[0] == '\\' then
      var e := ReadEscape(s[1..]);
      if e.None? then None else ReadChars(e.value.1, acc + e.value.0)
    else if s[0] < ' ' then None
    else ReadChars(s[1..], acc + [s[0]])
  }

  function ReadValue(s: string): (r: Option<(Value, string)>)
    ensures r.Some? ==> |r.value.1| < |s|
    decreases |s|, 0
  {
    if s == "" then None
    else if s[0] == '[' then
      var t := SkipWs(s[1..]);
      if t != "" && t[0] == ']' then Some((Arr([]), t[1..])) else ReadItems(t, [])
    else if s[0] == '{' then
      var t := SkipWs(s[1..]);
      if t != "" && t[0] == '}' then Some((Obj([]), t[1..])) else ReadMembers(t, [])
    else if s[0] == '"' then
      var r := ReadChars(s[1..], "");
      if r.None? then None else Some((Str(r.value.0), r.value.1))
    else if "null" <= s then Some((Null, s[4..]))
    else if "true" <= s then Some((Bool(true), s[4..]))
    else if "false" <= s then Some((Bool(false), s[5..]))
    else ReadNumber(s)
  }

  /** One or more items, up to the closing bracket. */
  function ReadItems(s: string, acc: seq<Value>): (r: Option<(Value, string)>)
    ensures r.Some? ==> |r.value.1| < |s|
    decreases |s|, 1
  {
    var v := ReadValue(s);
    if v.None? then None
    else
      var t := SkipWs(v.value.1);
      if t != "" && t[0] == ',' then ReadItems(SkipWs(t[1..]), acc + [v.value.0])
      else if t != "" && t[0] == ']' then Some((Arr(acc + [v.value.0]), t[1..]))
      else None
  }

  /** A key and its colon. */
  function ReadKey(s: string): (r: Option<(string, string)>)
    ensures r.Some? ==> |r.value.1| < |s|
  {
    if s == "" || s[0] != '"' then None
    else
      var k := ReadChars(s[1..], "");
      if k.None? then None
      else
        var t := SkipWs(k.value.1);
        if t == "" || t[0] != ':' then None else Some((k.value.0, SkipWs(t[1..])))
  }

  function ReadMembers(s: string, acc: seq<(string, Value)>): (r: Option<(Value, string)>)
    ensures r.Some? ==> |r.value.1| < |s|
    decreases |s|, 1
  {
    var k := ReadKey(s);
    if k.None? then None
    else
      var v := ReadValue(k.value.1);
      if v.None? then None
      else
        var t := SkipWs(v.value.1);
        var more := acc + [(k.value.0, v.value.0)];
        if t != "" && t[0] == ',' then ReadMembers(SkipWs(t[1..]), more)
        else if t != "" && t[0] == '}' then Some((Obj(more), t[1..]))
        else None
  }

  /** A JSON text is one value with whitespace around it. */
  function ReadText(s: string): Option<Value> {
    var r := ReadValue(SkipWs(s));
    if r.Some? && SkipWs(r.value.1) == "" then Some(r.value.0) else None
  }

  // ----- reading back

  /** What may follow a value without being taken for part of it. */
  predicate Ends(rest: string) {
    rest == "" || IsWs(rest[0]) || rest[0] == ',' || rest[0] == ']' || rest[0] == '}'
  }

  lemma {:induction false} SkipSpaces(n: nat, s: string)
    ensures SkipWs(Spaces(n) + s) == SkipWs(s)
  {
    if n == 0 {
      assert Spaces(0) + s == s;
    } else {
      SkipSpaces(n - 1, s);
      assert (Spaces(n) + s)[1..] == Spaces(n - 1) + s;
    }
  }

  lemma SkipNewline(depth: nat, pretty: bool, s: string)
    ensures SkipWs(Newline(depth, pretty) + s) == SkipWs(s)
  {
    if pretty {
      SkipSpaces(2 * depth, s);
      assert (Newline(depth, pretty) + s)[1..] == Spaces(2 * depth) + s;
    } else {
      assert Newline(depth, pretty) + s == s;
    }
  }

  lemma DigitIs(d: nat)
    requires d < 10
    ensures IsDigit(DigitChar(d)) && DigitChar(d) as int - '0' as int == d
  {
  }

  /** Digits are read greedily, most significant first. */
  lemma {:induction false} DigitsRead(n: nat, r: string)
    ensures ReadDigits(Digits(n) + r, 0) == ReadDigits(r, n)
  {
    if n < 10 {
      DigitIs(n);
      assert (Digits(n) + r)[1..] == r;
    } else {
      DigitIs(n % 10);
      var r' := [DigitChar(n % 10)] + r;
      DigitsRead(n / 10, r');
      assert Digits(n) + r == Digits(n / 10) + r' && r'[1..] == r;
    }
  }

  /** Only zero begins with the digit 0. */
  lemma {:induction false} FirstDigit(n: nat)
    ensures IsDigit(Digits(n)[0]) && (Digits(n)[0] == '0' <==> n == 0)
  {
    if n < 10 {
      DigitIs(n);
    } else {
      FirstDigit(n / 10);
    }
  }

  lemma NaturalRead(n: nat, rest: string)
    requires Ends(rest)
    ensures var t := Digits(n) + rest;
      && IsDigit(t[0])
      && (if t[0] == '0' then (0, t[1..]) else ReadDigits(t[1..], t[0] as int - '0' as int)) == (n, rest)
  {
    var t := Digits(n) + rest;
    FirstDigit(n);
    DigitsRead(n, rest);
    if n == 0 { assert t[1..] == rest; }
  }

  lemma NoScale(m: nat, rest: string)
    requires Ends(rest)
    ensures ReadScale(m, rest) == Some((m, 0, rest))
  {
  }

  lemma NumberRead(i: int, rest: string)
    requires Ends(rest)
    ensures ReadNumber(IntText(i) + rest) == Some((Number(i, 0), rest))
  {
    hide ReadDigits, Digits, ReadScale, Ends;
    var n := if i < 0 then -i else i;
    NaturalRead(n, rest);
    NoScale(n, rest);
    var s := IntText(i) + rest;
    if i < 0 {
      assert s[0] == '-' && s[1..] == Digits(n) + rest;
    }
  }

  lemma HexIs(n: nat)
    requires n < 16
    ensures HexValue(HexDigit(n)) == Some(n)
  {
  }

  /** Each written character is read back as itself. */
  lemma CharRead(c: char, rest: string, acc: string)
    ensures ReadChars(EscapeChar(c) + rest, acc) == ReadChars(rest, acc + [c])
  {
    var e := EscapeChar(c);
    var s := e + rest;
    EscapeOpens(c);
    if |e| == 2 { SimpleRead(c, rest); } else if |e| > 2 { ControlRead(c, rest); }
    hide ReadEscape, EscapeChar;
    assert s[1..] == e[1..] + rest;
    assert |e| == 1 ==> s[1..] == rest;
  }

  /** A character stands for itself or behind a backslash. */
  lemma EscapeOpens(c: char)
    ensures var e := EscapeChar(c);
      if |e| == 1 then e == [c] && c != '"' && c != '\\' && c >= ' ' else e[0] == '\\'
  {
    hide HexDigit;
  }

  /** The two-character escapes. */
  lemma SimpleRead(c: char, rest: string)
    requires |EscapeChar(c)| == 2
    ensures ReadEscape(EscapeChar(c)[1..] + rest) == Some(([c], rest))
  {
    hide CodeUnit, Utf8;
    var s := EscapeChar(c)[1..] + rest;
    assert s[0] == EscapeChar(c)[1] && s[1..] == rest;
  }

  /** The escape of a control byte. */
  lemma ControlRead(c: char, rest: string)
    requires |EscapeChar(c)| > 2
    ensures ReadEscape(EscapeChar(c)[1..] + rest) == Some(([c], rest))
  {
    var u := c as int;
    HexIs(u / 16);
    HexIs(u % 16);
    var s := EscapeChar(c)[1..] + rest;
    var hex := s[1..];
    assert s[0] == 'u' && hex[0] == '0' && hex[1] == '0' && hex[2] == HexDigit(u / 16) && hex[3] == HexDigit(u % 16);
    assert HexValue('0') == Some(0);
    assert s[5..] == rest;
    assert CodeUnit(hex) == Some(u);
  }

  lemma QuoteEnds(rest: string, acc: string)
    ensures ReadChars("\"" + rest, acc) == Some((acc, rest))
  {
    assert ("\"" + rest)[1..] == rest;
  }

  lemma {:induction false} CharsRead(s: string, rest: string, acc: string)
    ensures ReadChars(Escaped(s) + ("\"" + rest), acc) == Some((acc + s, rest))
  {
    hide EscapeChar, ReadEscape, ReadChars;
    var close := "\"" + rest;
    if s == "" {
      QuoteEnds(rest, acc);
      assert Escaped(s) + close == close && acc + s == acc;
    } else {
      var tail := Escaped(s[1..]) + close;
      assert Escaped(s) + close == EscapeChar(s[0]) + tail;
      CharRead(s[0], tail, acc);
      CharsRead(s[1..], rest, acc + [s[0]]);
      assert acc + [s[0]] + s[1..] == acc + s;
    }
  }

  lemma QuotedRead(s: string, rest: string)
    ensures (Quoted(s) + rest)[0] == '"' && ReadChars((Quoted(s) + rest)[1..], "") == Some((s, rest))
  {
    hide ReadChars, Escaped;
    CharsRead(s, rest, "");
    assert (Quoted(s) + rest)[1..] == Escaped(s) + ("\"" + rest);
    assert "" + s == s;
  }

  lemma SkipOne(c: char, s: string)
    requires IsWs(c)
    ensures SkipWs([c] + s) == SkipWs(s)
  {
    assert ([c] + s)[1..] == s;
  }

  lemma KeyRead(k: string, pretty: bool, rest: string)
    requires rest != "" && !IsWs(rest[0])
    ensures ReadKey(KeyText(k, pretty) + rest) == Some((k, rest))
  {
    hide ReadChars, Quoted;
    var blank := if pretty then " " else "";
    var after := ":" + (blank + rest);
    assert KeyText(k, pretty) + rest == Quoted(k) + after;
    QuotedRead(k, after);
    assert SkipWs(after) == after && after[1..] == blank + rest;
    if pretty {
      SkipOne(' ', rest);
      assert blank + rest == [' '] + rest;
    } else {
      assert blank + rest == rest;
    }
    assert SkipWs(rest) == rest;
  }

  /** A value's text begins with none of the characters that are skipped or that close. */
  lemma TextStarts(v: Value, depth: nat, pretty: bool)
    ensures var t := Printed(v, depth, pretty);
      t != "" && !IsWs(t[0]) && t[0] != ']' && t[0] != '}' && t[0] != ','
    ensures v.Number? ==> Printed(v, depth, pretty)[0] == '-' || IsDigit(Printed(v, depth, pretty)[0])
  {
    if v.Number? { FirstDigit(if v.mantissa < 0 then -v.mantissa else v.mantissa); }
  }

  // What follows item k - 1 of an array: the items from k on and the closing bracket
  function AfterItems(v: Value, k: nat, depth: nat, pretty: bool, rest: string): string
    requires v.Arr? && k <= |v.items|
  {
    ItemsFrom(v, k, depth, pretty) + (ArrayEnd(v.items != [], depth, pretty) + rest)
  }

  function AfterMembers(v: Value, k: nat, depth: nat, pretty: bool, rest: string): string
    requires v.Obj? && k <= |v.members|
  {
    MembersFrom(v, k, depth, pretty) + (ObjectEnd(v.members != [], depth, pretty) + rest)
  }

  lemma AfterComma(depth: nat, pretty: bool, next: string)
    requires next != "" && !IsWs(next[0])
    ensures var t := "," + (Newline(depth, pretty) + next);
      Ends(t) && SkipWs(t) == t && t[0] == ',' && SkipWs(t[1..]) == next
  {
    var t := "," + (Newline(depth, pretty) + next);
    SkipNewline(depth, pretty, next);
    assert t[1..] == Newline(depth, pretty) + next && SkipWs(next) == next;
  }

  lemma BeforeClose(depth: nat, pretty: bool, close: char, rest: string)
    requires close == ']' || close == '}'
    ensures var t := Newline(depth, pretty) + ([close] + rest);
      Ends(t) && SkipWs(t) == [close] + rest
  {
    var end := [close] + rest;
    SkipNewline(depth, pretty, end);
    assert SkipWs(end) == end;
    if pretty { assert (Newline(depth, pretty) + end)[0] == '\n'; } else { assert Newline(depth, pretty) + end == end; }
  }

  /** Between items there is a comma; after the last, the bracket. */
  lemma AfterItemsIs(v: Value, k: nat, depth: nat, pretty: bool, rest: string)
    requires v.Arr? && 0 < k <= |v.items|
    ensures var t := AfterItems(v, k, depth, pretty, rest);
      && Ends(t)
      && if k < |v.items| then
           && SkipWs(t) == t && t != "" && t[0] == ','
           && SkipWs(t[1..]) == Printed(v.items[k], depth + 1, pretty) + AfterItems(v, k + 1, depth, pretty, rest)
         else SkipWs(t) == "]" + rest
  {
    hide SkipWs, Ends, Printed, Newline;
    if k < |v.items| {
      ItemStep(v, k, depth, pretty, rest);
      TextStarts(v.items[k], depth + 1, pretty);
      AfterComma(depth + 1, pretty, Printed(v.items[k], depth + 1, pretty) + AfterItems(v, k + 1, depth, pretty, rest));
    } else {
      assert AfterItems(v, k, depth, pretty, rest) == Newline(depth, pretty) + ([']'] + rest);
      BeforeClose(depth, pretty, ']', rest);
    }
  }

  lemma ItemStep(v: Value, k: nat, depth: nat, pretty: bool, rest: string)
    requires v.Arr? && k < |v.items|
    ensures AfterItems(v, k, depth, pretty, rest) ==
      Comma(k) + (Newline(depth + 1, pretty) +
        (Printed(v.items[k], depth + 1, pretty) + AfterItems(v, k + 1, depth, pretty, rest)))
  {
    hide Printed, Newline;
    var a, b, c, d := Comma(k), Newline(depth + 1, pretty), Printed(v.items[k], depth + 1, pretty),
      ItemsFrom(v, k + 1, depth, pretty);
    var e := ArrayEnd(v.items != [], depth, pretty) + rest;
    assert ItemsFrom(v, k, depth, pretty) == a + b + c + d;
    assert a + b + c + d + e == a + (b + (c + (d + e)));
  }

  lemma AfterMembersIs(v: Value, k: nat, depth: nat, pretty: bool, rest: string)
    requires v.Obj? && 0 < k <= |v.members|
    ensures var t := AfterMembers(v, k, depth, pretty, rest);
      && Ends(t)
      && if k < |v.members| then
           && SkipWs(t) == t && t != "" && t[0] == ','
           && SkipWs(t[1..]) == MemberThen(v, k, depth, pretty, rest)
         else SkipWs(t) == "}" + rest
  {
    hide SkipWs, Ends, Printed, Newline;
    if k < |v.members| {
      MemberStep(v, k, depth, pretty, rest);
      AfterComma(depth + 1, pretty, MemberThen(v, k, depth, pretty, rest));
    } else {
      assert AfterMembers(v, k, depth, pretty, rest) == Newline(depth, pretty) + (['}'] + rest);
      BeforeClose(depth, pretty, '}', rest);
    }
  }

  /** Member k and what follows it. */
  function MemberThen(v: Value, k: nat, depth: nat, pretty: bool, rest: string): (t: string)
    requires v.Obj? && k < |v.members|
    ensures t != "" && !IsWs(t[0]) && t[0] != '}'
  {
    KeyText(v.members[k].0, pretty) +
      (Printed(v.members[k].1, depth + 1, pretty) + AfterMembers(v, k + 1, depth, pretty, rest))
  }

  lemma MemberStep(v: Value, k: nat, depth: nat, pretty: bool, rest: string)
    requires v.Obj? && k < |v.members|
    ensures AfterMembers(v, k, depth, pretty, rest) ==
      Comma(k) + (Newline(depth + 1, pretty) + MemberThen(v, k, depth, pretty, rest))
  {
    hide Printed, Newline, KeyText;
    var a, b, k', c, d := Comma(k), Newline(depth + 1, pretty), KeyText(v.members[k].0, pretty),
      Printed(v.members[k].1, depth + 1, pretty), MembersFrom(v, k + 1, depth, pretty);
    var e := ObjectEnd(v.members != [], depth, pretty) + rest;
    assert MembersFrom(v, k, depth, pretty) == a + b + k' + c + d;
    assert a + b + k' + c + d + e == a + (b + (k' + (c + (d + e))));
  }

  // ----- the round trip

  lemma {:induction false} ItemsRead(v: Value, k: nat, depth: nat, pretty: bool, rest: string)
    requires v.Arr? && Writable(v) && k < |v.items| && Ends(rest)
    ensures ReadItems(Printed(v.items[k], depth + 1, pretty) + AfterItems(v, k + 1, depth, pretty, rest), v.items[..k])
         == Some((v, rest))
    decreases v, |v.items| - k
  {
    hide Printed, AfterItems, ReadValue, SkipWs, Ends;
    var after := AfterItems(v, k + 1, depth, pretty, rest);
    AfterItemsIs(v, k + 1, depth, pretty, rest);
    assert v.items[k] in v.items;
    ValueRead(v.items[k], depth + 1, pretty, after);
    assert v.items[..k] + [v.items[k]] == v.items[..k + 1];
    if k + 1 < |v.items| {
      ItemsRead(v, k + 1, depth, pretty, rest);
    } else {
      assert ("]" + rest)[1..] == rest && v.items[..k + 1] == v.items;
    }
  }

  lemma {:induction false} MembersRead(v: Value, k: nat, depth: nat, pretty: bool, rest: string)
    requires v.Obj? && Writable(v) && k < |v.members| && Ends(rest)
    ensures ReadMembers(MemberThen(v, k, depth, pretty, rest), v.members[..k]) == Some((v, rest))
    decreases v, |v.members| - k
  {
    hide Printed, AfterMembers, ReadValue, SkipWs, Ends, ReadKey, KeyText;
    var after := AfterMembers(v, k + 1, depth, pretty, rest);
    var m := v.members[k];
    AfterMembersIs(v, k + 1, depth, pretty, rest);
    TextStarts(m.1, depth + 1, pretty);
    KeyRead(m.0, pretty, Printed(m.1, depth + 1, pretty) + after);
    assert m in v.members;
    ValueRead(m.1, depth + 1, pretty, after);
    assert v.members[..k] + [(m.0, m.1)] == v.members[..k + 1];
    if k + 1 < |v.members| {
      MembersRead(v, k + 1, depth, pretty, rest);
    } else {
      assert ("}" + rest)[1..] == rest && v.members[..k + 1] == v.members;
    }
  }

  /** Whatever may follow it, a written value is read back, and nothing more is taken. */
  lemma {:induction false} ValueRead(v: Value, depth: nat, pretty: bool, rest: string)
    requires Writable(v) && Ends(rest)
    ensures ReadValue(Printed(v, depth, pretty) + rest) == Some((v, rest))
    decreases v, Width(v) + 2
  {
    var s := Printed(v, depth, pretty) + rest;
    match v
    case Null => assert s[4..] == rest;
    case Bool(b) => assert s[if b then 4 else 5..] == rest;
    case Number(m, _) => NumberValueRead(m, rest);
    case Str(t) => QuotedRead(t, rest);
    case Arr(_) => ArrayRead(v, depth, pretty, rest);
    case Obj(_) => ObjectRead(v, depth, pretty, rest);
  }

  lemma NumberValueRead(m: int, rest: string)
    requires Ends(rest)
    ensures ReadValue(IntText(m) + rest) == Some((Number(m, 0), rest))
  {
    hide ReadNumber, ReadItems, ReadMembers, ReadChars;
    NumberRead(m, rest);
    FirstDigit(if m < 0 then -m else m);
    var s := IntText(m) + rest;
    assert s[0] == '-' || IsDigit(s[0]);
    assert !("null" <= s) && !("true" <= s) && !("false" <= s) by {
      assert "null"[0] == 'n' && "true"[0] == 't' && "false"[0] == 'f';
    }
  }

  lemma ArrayTextIs(v: Value, depth: nat, pretty: bool, rest: string)
    requires v.Arr?
    ensures Printed(v, depth, pretty) + rest == "[" + AfterItems(v, 0, depth, pretty, rest)
  {
    hide ItemsFrom, ArrayEnd;
  }

  // An array's text: the bracket and, past the whitespace, the first item or the closing one
  lemma ArrayOpens(v: Value, depth: nat, pretty: bool, rest: string)
    requires v.Arr?
    ensures var s := Printed(v, depth, pretty) + rest;
      && s != "" && s[0] == '['
      && SkipWs(s[1..]) == if v.items == [] then "]" + rest
         else Printed(v.items[0], depth + 1, pretty) + AfterItems(v, 1, depth, pretty, rest)
  {
    hide Printed, SkipWs, AfterItems, Newline;
    var s, after := Printed(v, depth, pretty) + rest, AfterItems(v, 0, depth, pretty, rest);
    ArrayTextIs(v, depth, pretty, rest);
    assert s[1..] == after;
    if v.items == [] {
      SkipNothing("]" + rest);
      NoItems(v, depth, pretty, rest);
    } else {
      ItemStep(v, 0, depth, pretty, rest);
      var text := Printed(v.items[0], depth + 1, pretty) + AfterItems(v, 1, depth, pretty, rest);
      assert after == Newline(depth + 1, pretty) + text;
      TextStarts(v.items[0], depth + 1, pretty);
      SkipNewline(depth + 1, pretty, text);
      SkipNothing(text);
    }
  }

  lemma NoItems(v: Value, depth: nat, pretty: bool, rest: string)
    requires v == Arr([])
    ensures AfterItems(v, 0, depth, pretty, rest) == "]" + rest
  {
  }

  lemma SkipNothing(s: string)
    requires s == "" || !IsWs(s[0])
    ensures SkipWs(s) == s
  {
  }

  lemma ReadsArray(s: string)
    requires s != "" && s[0] == '[' && SkipWs(s[1..]) != ""
    ensures var t := SkipWs(s[1..]);
      ReadValue(s) == if t[0] == ']' then Some((Arr([]), t[1..])) else ReadItems(t, [])
  {
    hide SkipWs, ReadItems, ReadMembers, ReadChars, ReadNumber;
  }

  lemma {:induction false} ArrayRead(v: Value, depth: nat, pretty: bool, rest: string)
    requires v.Arr? && Writable(v) && Ends(rest)
    ensures ReadValue(Printed(v, depth, pretty) + rest) == Some((v, rest))
    decreases v, Width(v) + 1
  {
    hide Printed, AfterItems, SkipWs, ReadItems, ReadValue, Writable, Ends;
    var s := Printed(v, depth, pretty) + rest;
    ArrayOpens(v, depth, pretty, rest);
    if v.items == [] {
      ReadsArray(s);
      assert ("]" + rest)[1..] == rest;
    } else {
      TextStarts(v.items[0], depth + 1, pretty);
      ItemsRead(v, 0, depth, pretty, rest);
      assert v.items[..0] == [];
      ReadsArray(s);
    }
  }

  lemma ObjectTextIs(v: Value, depth: nat, pretty: bool, rest: string)
    requires v.Obj?
    ensures Printed(v, depth, pretty) + rest == "{" + AfterMembers(v, 0, depth, pretty, rest)
  {
    hide MembersFrom, ObjectEnd;
  }

  lemma ObjectOpens(v: Value, depth: nat, pretty: bool, rest: string)
    requires v.Obj?
    ensures var s := Printed(v, depth, pretty) + rest;
      && s != "" && s[0] == '{'
      && SkipWs(s[1..]) == if v.members == [] then "}" + rest else MemberThen(v, 0, depth, pretty, rest)
  {
    hide Printed, SkipWs, AfterMembers, MemberThen, Newline;
    var s, after := Printed(v, depth, pretty) + rest, AfterMembers(v, 0, depth, pretty, rest);
    ObjectTextIs(v, depth, pretty, rest);
    assert s[1..] == after;
    if v.members == [] {
      SkipNothing("}" + rest);
      NoMembers(v, depth, pretty, rest);
    } else {
      MemberStep(v, 0, depth, pretty, rest);
      var text := MemberThen(v, 0, depth, pretty, rest);
      assert after == Newline(depth + 1, pretty) + text;
      SkipNewline(depth + 1, pretty, text);
      SkipNothing(text);
    }
  }

  lemma NoMembers(v: Value, depth: nat, pretty: bool, rest: string)
    requires v == Obj([])
    ensures AfterMembers(v, 0, depth, pretty, rest) == "}" + rest
  {
  }

  lemma {:induction false} ObjectRead(v: Value, depth: nat, pretty: bool, rest: string)
    requires v.Obj? && Writable(v) && Ends(rest)
    ensures ReadValue(Printed(v, depth, pretty) + rest) == Some((v, rest))
    decreases v, Width(v) + 1
  {
    hide Printed, MemberThen, SkipWs, ReadMembers, ReadValue, Writable, Ends;
    var s := Printed(v, depth, pretty) + rest;
    ObjectOpens(v, depth, pretty, rest);
    if v.members == [] {
      ReadsObject(s);
      assert ("}" + rest)[1..] == rest;
    } else {
      MemberStarts(v, depth, pretty, rest);
      MembersRead(v, 0, depth, pretty, rest);
      assert v.members[..0] == [];
      ReadsObject(s);
    }
  }

  lemma MemberStarts(v: Value, depth: nat, pretty: bool, rest: string)
    requires v.Obj? && v.members != []
    ensures var t := MemberThen(v, 0, depth, pretty, rest);
      t != "" && t[0] == '"'
  {
    hide Escaped, AfterMembers, Printed;
  }

  lemma ReadsObject(s: string)
    requires s != "" && s[0] == '{' && SkipWs(s[1..]) != ""
    ensures var t := SkipWs(s[1..]);
      ReadValue(s) == if t[0] == '}' then Some((Obj([]), t[1..])) else ReadMembers(t, [])
  {
    hide SkipWs, ReadItems, ReadMembers, ReadChars, ReadNumber;
  }

  /** Printing then reading is the identity, compact or pretty. */
  lemma RoundTrip(v: Value, pretty: bool)
    requires Writable(v)
    ensures ReadText(Printed(v, 0, pretty)) == Some(v)
  {
    var t := Printed(v, 0, pretty);
    ValueRead(v, 0, pretty, "");
    assert t + "" == t;
    TextStarts(v, 0, pretty);
    assert SkipWs(t) == t;
  }

  /** No two values share a text. */
  lemma TextIsInjective(v: Value, w: Value, pretty: bool)
    requires Writable(v) && Writable(w) && Printed(v, 0, pretty) == Printed(w, 0, pretty)
    ensures v == w
  {
    RoundTrip(v, pretty);
    RoundTrip(w, pretty);
  }
}
