/** The streaming JSON writer: a small state machine that keeps commas, indentation and
    nesting right while its caller drives it over a value. */
module JsonWriter {
  import opened Features
  import opened JsonLayout
  import opened JsonText

  const INDENT_SPACES := 2

  datatype Context = Root | Object | Array

  /** What goes between what was written and a value about to start. */
  function Separator(top: Context, awaitingValue: bool, needComma: bool, depth: nat, pretty: bool): string {
    if awaitingValue then ""
    else if needComma then "," + Newline(depth, pretty)
    else if top != Root then Newline(depth, pretty)
    else ""
  }

  class Writer {
    const pretty: bool
    var out: string
    var stack: seq<Context>
    var needComma: bool
    var awaitingValue: bool
    var depth: nat

    /** The bottom of the stack is the root, the depth counts what is open above it, and
        only an object awaits a value. */
    ghost predicate Valid()
      reads this
    {
      && stack != [] && stack[0] == Root && depth == |stack| - 1
      && (forall i | 0 < i < |stack| :: stack[i] != Root)
      && (awaitingValue ==> Top() == Object)
    }

    function Top(): Context
      reads this
      requires stack != []
    {
      stack[|stack| - 1]
    }

    /** A value may start here: not inside an object unless a key was written. */
    predicate Ready()
      reads this
      requires stack != []
    {
      Top() == Object ==> awaitingValue
    }

    function Before(): string
      reads this
      requires stack != []
    {
      Separator(Top(), awaitingValue, needComma, depth, pretty)
    }

    constructor (isPretty: bool)
      ensures Valid() && pretty == isPretty && out == "" && stack == [Root] && !needComma && !awaitingValue
    {
      pretty, out, stack := isPretty, "", [Root];
      needComma, awaitingValue, depth := false, false, 0;
    }

    method NewlineAndIndent()
      modifies `out
      ensures out == old(out) + Newline(depth, pretty)
    {
      if !pretty { return; }
      out := out + "\n";
      for i := 0 to depth * INDENT_SPACES
        invariant out == old(out) + "\n" + Spaces(i)
      {
        out := out + " ";
      }
    }

    method EmitSeparatorForValue()
      requires Valid()
      modifies `out, `awaitingValue
      ensures out == old(out + Before()) && !awaitingValue
    {
      if awaitingValue {
        awaitingValue := false;
        return;
      }
      if needComma {
        out := out + ",";
        NewlineAndIndent();
      } else if Top() != Root {
        NewlineAndIndent();
      }
    }

    /** False means the caller broke the protocol; nothing was written then. */
    method StartValue() returns (ok: bool)
      requires Valid()
      modifies `out, `awaitingValue
      ensures ok <==> old(Ready())
      ensures if ok then out == old(out + Before()) && !awaitingValue
        else out == old(out) && awaitingValue == old(awaitingValue)
    {
      if Top() == Object && !awaitingValue { return false; }
      EmitSeparatorForValue();
      ok := true;
    }

    method Begin(open: Context) returns (ok: bool)
      requires Valid() && open != Root
      modifies this
      ensures Valid() && (ok <==> old(Ready()))
      ensures ok ==> out == old(out + Before()) + (if open == Object then "{" else "[")
      ensures ok ==> stack == old(stack) + [open] && !needComma && !awaitingValue
      ensures !ok ==> out == old(out) && stack == old(stack)
      ensures !ok ==> needComma == old(needComma) && awaitingValue == old(awaitingValue)
    {
      ok := StartValue();
      if !ok { return; }
      out := out + if open == Object then "{" else "[";
      stack := stack + [open];
      depth := depth + 1;
      needComma := false;
    }

    method End(close: Context) returns (ok: bool)
      requires Valid() && close != Root
      modifies this
      ensures Valid() && (ok <==> old(Top() == close && !(close == Object && awaitingValue)))
      ensures ok ==>
        out == old(out) + (if old(needComma) then Newline(old(depth) - 1, pretty) else "")
               + (if close == Object then "}" else "]")
      ensures ok ==> stack == old(stack)[..|old(stack)| - 1] && needComma && !awaitingValue
      ensures !ok ==> out == old(out) && stack == old(stack)
      ensures !ok ==> needComma == old(needComma) && awaitingValue == old(awaitingValue)
    {
      if |stack| < 2 || Top() != close { return false; }
      if close == Object && awaitingValue { return false; }
      depth := depth - 1;
      if needComma && pretty { NewlineAndIndent(); }
      out := out + if close == Object then "}" else "]";
      stack := stack[..|stack| - 1];
      needComma := true;
      ok := true;
    }

    method Key(k: string) returns (ok: bool)
      requires Valid()
      modifies `out, `awaitingValue
      ensures Valid() && (ok <==> old(Top() == Object && !awaitingValue))
      ensures ok ==> awaitingValue
      ensures ok ==> out == old(out) + (if needComma then "," else "") + Newline(depth, pretty) + KeyText(k, pretty)
      ensures !ok ==> out == old(out) && awaitingValue == old(awaitingValue)
    {
      hide Newline, Quoted;
      if Top() != Object || awaitingValue { return false; }
      if needComma { out := out + ","; }
      NewlineAndIndent();
      KeyParts(out, k, pretty);
      EmitEscapedString(k);
      out := out + ":";
      if pretty { out := out + " "; }
      awaitingValue := true;
      ok := true;
    }

    /** A scalar, already formatted. */
    method Scalar(text: string) returns (ok: bool)
      requires Valid()
      modifies `out, `awaitingValue, `needComma
      ensures Valid() && (ok <==> old(Ready()))
      ensures ok ==> out == old(out + Before()) + text && needComma && !awaitingValue
      ensures !ok ==> out == old(out) && needComma == old(needComma) && awaitingValue == old(awaitingValue)
    {
      ok := StartValue();
      if !ok { return; }
      out := out + text;
      needComma := true;
    }

    method ValueString(v: string) returns (ok: bool)
      requires Valid()
      modifies `out, `awaitingValue, `needComma
      ensures Valid() && (ok <==> old(Ready()))
      ensures ok ==> out == old(out + Before()) + Quoted(v) && needComma && !awaitingValue
      ensures !ok ==> out == old(out) && needComma == old(needComma) && awaitingValue == old(awaitingValue)
    {
      ok := StartValue();
      if !ok { return; }
      EmitEscapedString(v);
      needComma := true;
    }

    method EmitEscapedString(s: string)
      modifies `out
      ensures out == old(out) + Quoted(s)
    {
      hide EscapeChar, Escaped;
      out := out + "\"";
      ghost var begun := out;
      assert s[0..] == s;
      for i := 0 to |s|
        invariant out + Escaped(s[i..]) == begun + Escaped(s)
      {
        EscapedFrom(s, i);
        EscapeStep(out, s[i], s[i + 1..], begun + Escaped(s));
        out := out + EscapeChar(s[i]);
      }
      assert s[|s|..] == "" && Escaped("") == "" && out + "" == out by { NothingEscaped(); }
      assert begun + Escaped(s) + "\"" == old(out) + Quoted(s);
      out := out + "\"";
    }
  }

  lemma KeyParts(out: string, k: string, pretty: bool)
    ensures out + Quoted(k) + ":" + (if pretty then " " else "") == out + KeyText(k, pretty)
    ensures out + Quoted(k) + ":" + "" == out + Quoted(k) + ":"
  {
    hide Quoted;
    var blank := if pretty then " " else "";
    assert out + Quoted(k) + ":" + blank == out + (Quoted(k) + ":" + blank);
  }

  lemma EscapedFrom(s: string, i: nat)
    requires i < |s|
    ensures Escaped(s[i..]) == EscapeChar(s[i]) + Escaped(s[i + 1..])
  {
    hide EscapeChar;
    assert s[i..][0] == s[i] && s[i..][1..] == s[i + 1..];
  }

  lemma NothingEscaped()
    ensures Escaped("") == ""
  {
  }

  lemma EscapeStep(out: string, c: char, rest: string, all: string)
    requires out + (EscapeChar(c) + Escaped(rest)) == all
    ensures out + EscapeChar(c) + Escaped(rest) == all
  {
    hide EscapeChar, Escaped;
  }

  /** The caller's side: driving the writer over a value writes exactly its text. */
  method WriteValue(w: Writer, v: Value)
    requires w.Valid() && w.Ready() && Writable(v)
    modifies w
    ensures w.Valid() && w.out == old(w.out + w.Before()) + Printed(v, old(w.depth), w.pretty)
    ensures w.stack == old(w.stack) && w.needComma && !w.awaitingValue
    decreases v, 1
  {
    var ok;
    match v
    case Null => ok := w.Scalar("null");
    case Bool(b) => ok := w.Scalar(if b then "true" else "false");
    case Number(m, _) => ok := w.Scalar(IntText(m));
    case Str(s) => ok := w.ValueString(s);
    case Arr(_) => WriteArray(w, v);
    case Obj(_) => WriteObject(w, v);
  }

  method WriteArray(w: Writer, v: Value)
    requires w.Valid() && w.Ready() && Writable(v) && v.Arr?
    modifies w
    ensures w.Valid() && w.out == old(w.out + w.Before()) + Printed(v, old(w.depth), w.pretty)
    ensures w.stack == old(w.stack) && w.needComma && !w.awaitingValue
    decreases v, 0
  {
    hide Printed, ItemsFrom, Newline, Separator, Writable;
    WritableItems(v);
    ghost var depth, before := w.depth, w.out + w.Before();
    var ok := w.Begin(Array);
    ghost var begun := w.out;
    for i := 0 to |v.items|
      invariant w.Valid() && w.stack == old(w.stack) + [Array] && !w.awaitingValue
      invariant w.needComma <==> i > 0
      invariant w.out + ItemsFrom(v, i, depth, w.pretty) == begun + ItemsFrom(v, 0, depth, w.pretty)
    {
      ghost var sofar := w.out;
      WriteValue(w, v.items[i]);
      ItemWritten(v, i, depth, w.pretty, sofar, w.out);
    }
    ArrayWritten(v, depth, w.pretty, before, w.out);
    ok := w.End(Array);
    assert w.stack == old(w.stack);
  }

  lemma WritableItems(v: Value)
    requires Writable(v)
    ensures v.Arr? ==> forall i | 0 <= i < |v.items| :: Writable(v.items[i])
    ensures v.Obj? ==> forall i | 0 <= i < |v.members| :: Writable(v.members[i].1)
  {
    if v.Arr? {
      forall i | 0 <= i < |v.items| ensures Writable(v.items[i]) { assert v.items[i] in v.items; }
    }
    if v.Obj? {
      forall i | 0 <= i < |v.members| ensures Writable(v.members[i].1) { assert v.members[i] in v.members; }
    }
  }

  lemma AwaitedSeparator()
    ensures forall top, needComma, depth, pretty :: Separator(top, true, needComma, depth, pretty) == ""
  {
  }

  lemma ArrayWritten(v: Value, depth: nat, pretty: bool, before: string, body: string)
    requires v.Arr? && body + ItemsFrom(v, |v.items|, depth, pretty) == before + "[" + ItemsFrom(v, 0, depth, pretty)
    ensures body + (if v.items != [] then Newline(depth, pretty) else "") + "]" == before + Printed(v, depth, pretty)
  {
    hide ItemsFrom, Newline;
    NothingAfter(v, depth, pretty);
    Joined(before, "[", ItemsFrom(v, 0, depth, pretty), if v.items != [] then Newline(depth, pretty) else "", "]");
  }

  lemma NothingAfter(v: Value, depth: nat, pretty: bool)
    ensures v.Arr? ==> ItemsFrom(v, |v.items|, depth, pretty) == ""
    ensures v.Obj? ==> MembersFrom(v, |v.members|, depth, pretty) == ""
  {
  }

  lemma Joined(before: string, open: string, inner: string, end: string, close: string)
    ensures before + open + inner + end + close == before + (open + inner + (end + close))
  {
  }

  lemma ObjectWritten(v: Value, depth: nat, pretty: bool, before: string, body: string)
    requires v.Obj? && body + MembersFrom(v, |v.members|, depth, pretty) ==
      before + "{" + MembersFrom(v, 0, depth, pretty)
    ensures body + (if v.members != [] then Newline(depth, pretty) else "") + "}" == before + Printed(v, depth, pretty)
  {
    hide MembersFrom, Newline;
    NothingAfter(v, depth, pretty);
    Joined(before, "{", MembersFrom(v, 0, depth, pretty), if v.members != [] then Newline(depth, pretty) else "", "}");
  }

  lemma ItemWritten(v: Value, i: nat, depth: nat, pretty: bool, before: string, after: string)
    requires v.Arr? && i < |v.items|
    requires after == before + Separator(Array, false, i > 0, depth + 1, pretty) +
      Printed(v.items[i], depth + 1, pretty)
    ensures after + ItemsFrom(v, i + 1, depth, pretty) == before + ItemsFrom(v, i, depth, pretty)
  {
    hide Printed, Newline;
    var a, b, c, d := Comma(i), Newline(depth + 1, pretty), Printed(v.items[i], depth + 1, pretty),
      ItemsFrom(v, i + 1, depth, pretty);
    assert Separator(Array, false, i > 0, depth + 1, pretty) == a + b;
    assert before + (a + b) + c + d == before + (a + b + c + d);
  }

  method WriteObject(w: Writer, v: Value)
    requires w.Valid() && w.Ready() && Writable(v) && v.Obj?
    modifies w
    ensures w.Valid() && w.out == old(w.out + w.Before()) + Printed(v, old(w.depth), w.pretty)
    ensures w.stack == old(w.stack) && w.needComma && !w.awaitingValue
    decreases v, 0
  {
    hide Printed, MembersFrom, Newline, Separator, Writable, KeyText;
    WritableItems(v);
    AwaitedSeparator();
    ghost var depth, before := w.depth, w.out + w.Before();
    var ok := w.Begin(Object);
    ghost var begun := w.out;
    for i := 0 to |v.members|
      invariant w.Valid() && w.stack == old(w.stack) + [Object] && !w.awaitingValue
      invariant w.needComma <==> i > 0
      invariant w.out + MembersFrom(v, i, depth, w.pretty) == begun + MembersFrom(v, 0, depth, w.pretty)
    {
      ghost var sofar := w.out;
      ok := w.Key(v.members[i].0);
      WriteValue(w, v.members[i].1);
      MemberWritten(v, i, depth, w.pretty, sofar, w.out);
    }
    ObjectWritten(v, depth, w.pretty, before, w.out);
    ok := w.End(Object);
    assert w.stack == old(w.stack);
  }

  lemma MemberWritten(v: Value, i: nat, depth: nat, pretty: bool, before: string, after: string)
    requires v.Obj? && i < |v.members|
    requires after == before + (if i > 0 then "," else "") + Newline(depth + 1, pretty) +
      KeyText(v.members[i].0, pretty) + "" + Printed(v.members[i].1, depth + 1, pretty)
    ensures after + MembersFrom(v, i + 1, depth, pretty) == before + MembersFrom(v, i, depth, pretty)
  {
    hide Printed, Newline, KeyText;
    var a, b, k, c, d := Comma(i), Newline(depth + 1, pretty), KeyText(v.members[i].0, pretty),
      Printed(v.members[i].1, depth + 1, pretty), MembersFrom(v, i + 1, depth, pretty);
    assert before + a + b + k + "" + c + d == before + (a + b + k + c + d);
  }

  /** A fresh writer driven over a value yields one text that reads back as that value. */
  method Print(v: Value, pretty: bool) returns (text: string)
    requires Writable(v)
    ensures text == Printed(v, 0, pretty) && ReadText(text) == Some(v) && Laid(text, 0, false, pretty)
  {
    hide Laid;
    PrintedLaid(v, pretty);
    var w := new Writer(pretty);
    WriteValue(w, v);
    text := w.out;
    RoundTrip(v, pretty);
  }
}
