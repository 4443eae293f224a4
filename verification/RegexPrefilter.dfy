/** The literal that every match of a regex must contain, read off its text.
    Patterns follow the grammar of ECMA-262, 3rd edition, section 15.10. */
module RegexPrefilter {
  import opened Features

  // ----- the scanner, on the text still to be read

  predicate IsDigit(c: char) { '0' <= c <= '9' }

  predicate IsAlnum(c: char) { IsDigit(c) || 'a' <= c <= 'z' || 'A' <= c <= 'Z' }

  function Fold(c: char): char {
    if 'A' <= c <= 'Z' then (c as int - 'A' as int + 'a' as int) as char else c
  }

  predicate Printable(c: char) { 0x20 <= c as int <= 0x7E }

  /** What may follow a bracket inside a class to open a bracketed element. */
  predicate PosixMark(c: char) { c == ':' || c == '.' || c == '=' }

  predicate IsClassLetter(c: char) {
    c == 'd' || c == 'D' || c == 'w' || c == 'W' || c == 's' || c == 'S' || c == 'b' || c == 'B'
  }

  /** Syntax with no meaning where an atom is expected. */
  predicate IsStray(c: char) {
    c == '|' || c == ')' || c == ']' || c == '}' || c == '*' || c == '+' || c == '?' || c == '{'
  }

  predicate IsWild(c: char) { c == '.' || c == '^' || c == '$' }

  function ClassRest(s: string): (r: Option<string>)
    ensures r.Some? ==> |r.value| < |s|
  {
    if s == "" then None
    else if s[0] == '\\' then (if |s| < 2 then None else ClassRest(s[2..]))
    else if s[0] == '[' && |s| > 1 && PosixMark(s[1]) then None
    else if s[0] == ']' then Some(s[1..])
    else ClassRest(s[1..])
  }

  function ClassBody(s: string): string
    requires s != ""
  {
    if |s| > 1 && s[1] == '^' then s[2..] else s[1..]
  }

  /** What follows the class that opens here; none when it is empty, never closes or holds a
      bracketed element. */
  function ClassEnd(s: string): (r: Option<string>)
    requires s != ""
    ensures r.Some? ==> |r.value| < |s|
  {
    var body := ClassBody(s);
    if body != "" && body[0] == ']' then None else ClassRest(body)
  }

  /** What follows the group that is depth levels open here. */
  function GroupRest(s: string, depth: nat): (r: Option<string>)
    requires depth >= 1
    ensures r.Some? ==> |r.value| < |s|
    decreases |s|
  {
    if s == "" then None
    else if s[0] == '\\' then (if |s| < 2 then None else GroupRest(s[2..], depth))
    else if s[0] == '[' then
      var end := ClassEnd(s);
      if end.None? then None else GroupRest(end.value, depth)
    else if s[0] == '(' then GroupRest(s[1..], depth + 1)
    else if s[0] == ')' then (if depth == 1 then Some(s[1..]) else GroupRest(s[1..], depth - 1))
    else GroupRest(s[1..], depth)
  }

  function SkipBracketed(s: string): (r: Option<string>)
    requires s != ""
    ensures r.Some? ==> |r.value| < |s|
  {
    if s[0] == '[' then ClassEnd(s) else GroupRest(s[1..], 1)
  }

  function IndexOf(s: string, c: char): (k: nat)
    ensures k <= |s|
    ensures k < |s| ==> s[k] == c
    ensures forall j | 0 <= j < k :: s[j] != c
  {
    if s == "" || s[0] == c then 0 else 1 + IndexOf(s[1..], c)
  }

  datatype Quantified = Malformed | Quantified(rest: string, optional: bool, present: bool)

  /** Swallows the mark of the lazy form. */
  function AfterLazy(s: string): string {
    if s != "" && s[0] == '?' then s[1..] else s
  }

  function ParseQuantifier(s: string): (q: Quantified)
    ensures q.Quantified? ==> |q.rest| <= |s|
  {
    if s == "" then Quantified(s, false, false)
    else if s[0] == '*' || s[0] == '?' then Quantified(AfterLazy(s[1..]), true, true)
    else if s[0] == '+' then Quantified(AfterLazy(s[1..]), false, true)
    else if s[0] == '{' then
      var close := IndexOf(s, '}');
      if close == |s| then Malformed else ParseBraces(s[1..close], s[close + 1..])
    else Quantified(s, false, false)
  }

  function ParseBraces(body: string, rest: string): Quantified {
    var minLen := IndexOf(body, ',');
    if minLen == 0 || !BraceChars(body) then Malformed
    else Quantified(AfterLazy(rest), AllZero(body[..minLen]), true)
  }

  predicate BraceChars(s: string) { forall k | 0 <= k < |s| :: IsDigit(s[k]) || s[k] == ',' }

  predicate AllZero(s: string) { forall k | 0 <= k < |s| :: s[k] == '0' }

  /** One atom of the pattern: a literal, something else, or a reason to give up. */
  datatype Token = GiveUp | Token(literal: Option<char>, rest: string)

  function NextToken(s: string): (t: Token)
    requires s != ""
    ensures t.Token? ==> |t.rest| < |s|
  {
    if s[0] == '(' || s[0] == '[' then
      var end := SkipBracketed(s);
      if end.None? then GiveUp else Token(None, end.value)
    else if s[0] == '\\' then
      if |s| < 2 then GiveUp
      else if !IsAlnum(s[1]) then Token(Some(s[1]), s[2..])
      else if IsClassLetter(s[1]) then Token(None, s[2..])
      else GiveUp
    else if IsStray(s[0]) then GiveUp
    else if IsWild(s[0]) then Token(None, s[1..])
    else Token(Some(s[0]), s[1..])
  }

  function Longer(run: string, best: string): string { if |run| > |best| then run else best }

  /** What a token leaves as the current run of literals. */
  function Extended(t: Token, q: Quantified, icase: bool, run: string): string
    requires t.Token? && q.Quantified?
  {
    if t.literal.Some? && Printable(t.literal.value) && !q.optional
    then run + [if icase then Fold(t.literal.value) else t.literal.value]
    else run
  }

  /** Anything but a plain literal ends the run. */
  predicate Breaks(t: Token, q: Quantified)
    requires t.Token? && q.Quantified?
  {
    t.literal.None? || !Printable(t.literal.value) || q.present
  }

  function RequiredFrom(s: string, icase: bool, run: string, best: string): string
    decreases |s|
  {
    if s == "" then Longer(run, best)
    else
      var t := NextToken(s);
      if t.GiveUp? then ""
      else
        var q := ParseQuantifier(t.rest);
        if q.Malformed? then ""
        else
          var more := Extended(t, q, icase, run);
          if Breaks(t, q) then RequiredFrom(q.rest, icase, "", Longer(more, best))
          else RequiredFrom(q.rest, icase, more, best)
  }

  // ----- the scanner, on indices

  function From(p: string, k: nat): string { if k <= |p| then p[k..] else "" }

  lemma ClassRestFrom(p: string, k: nat)
    ensures ClassRest(From(p, k)) ==
      if k >= |p| then None
      else if p[k] == '\\' then ClassRest(From(p, k + 2))
      else if p[k] == '[' && k + 1 < |p| && PosixMark(p[k + 1]) then None
      else if p[k] == ']' then Some(p[k + 1..])
      else ClassRest(From(p, k + 1))
  {
    if k < |p| {
      assert p[k..][1..] == p[k + 1..];
      if k + 2 <= |p| { assert p[k..][2..] == p[k + 2..]; }
    }
  }

  lemma ClassEndFrom(p: string, i: nat)
    requires i < |p|
    ensures var k := if i + 1 < |p| && p[i + 1] == '^' then i + 2 else i + 1;
      ClassEnd(p[i..]) == if k < |p| && p[k] == ']' then None else ClassRest(From(p, k))
  {
    hide ClassRest;
    assert p[i..][1..] == p[i + 1..];
    if i + 2 <= |p| { assert p[i..][2..] == p[i + 2..]; }
  }

  lemma GroupRestFrom(p: string, k: nat, depth: nat)
    requires depth >= 1
    ensures GroupRest(From(p, k), depth) ==
      if k >= |p| then None
      else if p[k] == '\\' then GroupRest(From(p, k + 2), depth)
      else if p[k] == '[' then (match ClassEnd(p[k..]) case None => None case Some(rest) => GroupRest(rest, depth))
      else if p[k] == '(' then GroupRest(From(p, k + 1), depth + 1)
      else if p[k] == ')' then (if depth == 1 then Some(p[k + 1..]) else GroupRest(From(p, k + 1), depth - 1))
      else GroupRest(From(p, k + 1), depth)
  {
    hide ClassEnd;
    if k < |p| {
      assert p[k..][1..] == p[k + 1..];
      if k + 2 <= |p| { assert p[k..][2..] == p[k + 2..]; }
    }
  }

  method FindClassEnd(p: string, i: nat) returns (end: Option<nat>)
    requires i < |p|
    ensures match ClassEnd(p[i..]) case None => end.None?
      case Some(rest) => end.Some? && i < end.value <= |p| && p[end.value..] == rest
  {
    hide ClassEnd, ClassRest, From;
    ClassEndFrom(p, i);
    var k := i + 1;
    if k < |p| && p[k] == '^' { k := k + 1; }
    if k < |p| && p[k] == ']' { return None; }
    while k < |p|
      invariant i < k && ClassRest(From(p, k)) == ClassEnd(p[i..])
    {
      ClassRestFrom(p, k);
      if p[k] == '\\' {
        k := k + 2;
      } else if p[k] == '[' && k + 1 < |p| && PosixMark(p[k + 1]) {
        return None;
      } else if p[k] == ']' {
        return Some(k + 1);
      } else {
        k := k + 1;
      }
    }
    ClassRestFrom(p, k);
    end := None;
  }

  lemma FromIs(p: string, k: nat)
    requires k <= |p|
    ensures From(p, k) == p[k..]
  {
  }

  lemma BracketFrom(p: string, i: nat)
    requires i < |p|
    ensures SkipBracketed(p[i..]) == if p[i] == '[' then ClassEnd(p[i..]) else GroupRest(From(p, i + 1), 1)
  {
    hide ClassEnd, GroupRest;
    assert p[i..][1..] == p[i + 1..];
  }

  method FindBracketEnd(p: string, i: nat) returns (end: Option<nat>)
    requires i < |p| && (p[i] == '(' || p[i] == '[')
    ensures match SkipBracketed(p[i..]) case None => end.None?
      case Some(rest) => end.Some? && i < end.value <= |p| && p[end.value..] == rest
  {
    hide ClassEnd, GroupRest, SkipBracketed, From;
    BracketFrom(p, i);
    if p[i] == '[' {
      end := FindClassEnd(p, i);
      return;
    }
    var depth: nat := 1;
    var k := i + 1;
    while k < |p|
      invariant i < k && depth >= 1
      invariant GroupRest(From(p, k), depth) == SkipBracketed(p[i..])
      decreases |p| - k
    {
      var c := p[k];
      GroupRestFrom(p, k, depth);
      if c == '\\' {
        k := k + 2;
      } else if c == '[' {
        var classEnd := FindClassEnd(p, k);
        if classEnd.None? { return None; }
        k := classEnd.value;
        FromIs(p, k);
      } else if c == '(' {
        depth := depth + 1;
        k := k + 1;
      } else if c == ')' {
        if depth == 1 { return Some(k + 1); }
        depth := depth - 1;
        k := k + 1;
      } else {
        k := k + 1;
      }
    }
    GroupRestFrom(p, k, depth);
    end := None;
  }

  /** One atom: its literal, if it is one, and where it ends; none to give up. */
  method ScanAtom(p: string, i: nat) returns (ok: bool, literal: Option<char>, next: nat)
    requires i < |p|
    ensures ok ==> i < next <= |p| && NextToken(p[i..]) == Token(literal, p[next..])
    ensures !ok ==> NextToken(p[i..]).GiveUp?
  {
    var c := p[i];
    assert p[i..][0] == c && p[i..][1..] == p[i + 1..];
    ok, literal, next := true, None, i + 1;
    if c == '(' || c == '[' {
      var end := FindBracketEnd(p, i);
      if end.None? { return false, None, 0; }
      next := end.value;
    } else if c == '\\' {
      if i + 1 >= |p| { return false, None, 0; }
      assert p[i..][2..] == p[i + 2..];
      next := i + 2;
      if !IsAlnum(p[i + 1]) {
        literal := Some(p[i + 1]);
      } else if !IsClassLetter(p[i + 1]) {
        return false, None, 0;
      }
    } else if IsStray(c) {
      return false, None, 0;
    } else if c != '.' && c != '^' && c != '$' {
      literal := Some(c);
    }
  }

  /** The longest run of literals every match contains, folded when case is ignored. */
  method RequiredLiteral(pattern: string, icase: bool) returns (best: string)
    ensures best == RequiredFrom(pattern, icase, "", "")
  {
    var run, i := "", 0;
    best := "";
    assert pattern[0..] == pattern;
    while i < |pattern|
      invariant i <= |pattern|
      invariant RequiredFrom(pattern[i..], icase, run, best) == RequiredFrom(pattern, icase, "", "")
      decreases |pattern| - i
    {
      var ok, literal, next := ScanAtom(pattern, i);
      if !ok { return ""; }
      var q := ParseQuantifier(pattern[next..]);
      if q.Malformed? { return ""; }
      var printable := literal.Some? && Printable(literal.value);
      if printable && !q.optional { run := run + [if icase then Fold(literal.value) else literal.value]; }
      if !printable || q.present {
        best := Longer(run, best);
        run := "";
      }
      QuantifierIsSuffix(pattern[next..]);
      i := |pattern| - |q.rest|;
      assert pattern[i..] == q.rest;
    }
    assert pattern[i..] == "";
    best := Longer(run, best);
  }

  lemma QuantifierIsSuffix(s: string)
    ensures var q := ParseQuantifier(s); q.Quantified? ==> q.rest == s[|s| - |q.rest|..]
  {
  }

  // ----- the text of a pattern

  datatype ClassItem = Plain(c: char) | Escaped(c: char)

  datatype Atom =
    | PatternChar(c: char)
    | IdentityEscape(c: char)
    | Dot
    | LineStart
    | LineEnd
    | CharEscape(c: char)
    | OtherEscape(c: char, digits: string)
    | CharClass(negated: bool, items: seq<ClassItem>)
    | Group(head: string, body: Disjunction)

  datatype Repeat = Once | ZeroOrMore | OneOrMore | ZeroOrOne | Counted(min: string, upper: Option<string>)

  datatype Term = Term(atom: Atom, repeat: Repeat, reluctant: bool)

  datatype Alternative = Empty | Then(first: Term, rest: Alternative)

  datatype Disjunction = Single(only: Alternative) | Either(first: Alternative, others: Disjunction)

  function ItemText(item: ClassItem): string {
    match item case Plain(c) => [c] case Escaped(c) => ['\\', c]
  }

  function ItemsText(items: seq<ClassItem>): string {
    if items == [] then "" else ItemText(items[0]) + ItemsText(items[1..])
  }

  function AtomText(a: Atom): string {
    match a
    case PatternChar(c) => [c]
    case IdentityEscape(c) => ['\\', c]
    case Dot => "."
    case LineStart => "^"
    case LineEnd => "$"
    case CharEscape(c) => ['\\', c]
    case OtherEscape(c, digits) => ['\\', c] + digits
    case CharClass(negated, items) => "[" + (if negated then "^" else "") + ItemsText(items) + "]"
    case Group(head, body) => "(" + head + Text(body) + ")"
  }

  function RepeatText(r: Repeat): string {
    match r
    case Once => ""
    case ZeroOrMore => "*"
    case OneOrMore => "+"
    case ZeroOrOne => "?"
    case Counted(min, upper) => "{" + min + (if upper.None? then "" else "," + upper.value) + "}"
  }

  function TermText(t: Term): string {
    AtomText(t.atom) + RepeatText(t.repeat) + (if t.reluctant then "?" else "")
  }

  function AlternativeText(a: Alternative): string {
    match a case Empty => "" case Then(first, rest) => TermText(first) + AlternativeText(rest)
  }

  function Text(d: Disjunction): string {
    match d
    case Single(only) => AlternativeText(only)
    case Either(first, others) => AlternativeText(first) + "|" + Text(others)
  }

  // ----- grammatical patterns

  /** Characters that mean something else than themselves. */
  predicate IsSyntax(c: char) {
    IsRepeat(c) || c == '^' || c == '$' || c == '\\' || c == '.' || c == '(' || c == ')' || c == '[' || c == '|'
  }

  predicate EndsClass(c: char) { c == ']' || c == '\\' }

  predicate IsBracket(c: char) { c == '\\' || c == '[' || c == '(' || c == ')' }

  predicate IsRepeat(c: char) { c == '*' || c == '+' || c == '?' || c == '{' }

  predicate GoodAtom(a: Atom) {
    match a
    case PatternChar(c) => !IsSyntax(c)
    case IdentityEscape(c) => !IsAlnum(c)
    case CharEscape(c) => IsClassLetter(c)
    case OtherEscape(c, digits) =>
      IsAlnum(c) && !IsClassLetter(c) && forall k | 0 <= k < |digits| :: IsAlnum(digits[k])
    case CharClass(_, items) => forall k | 0 <= k < |items| :: items[k].Plain? ==> !EndsClass(items[k].c)
    case Group(head, body) => head in {"", "?:", "?=", "?!"} && Good(body)
    case _ => true
  }

  predicate AllDigits(s: string) { forall k | 0 <= k < |s| :: IsDigit(s[k]) }

  predicate GoodTerm(t: Term) {
    && GoodAtom(t.atom)
    && (t.repeat.Once? ==> !t.reluctant)
    && (t.repeat.Counted? ==>
      t.repeat.min != "" && AllDigits(t.repeat.min) && (t.repeat.upper.Some? ==> AllDigits(t.repeat.upper.value)))
  }

  predicate GoodAlternative(a: Alternative) {
    match a case Empty => true case Then(first, rest) => GoodTerm(first) && GoodAlternative(rest)
  }

  predicate Good(d: Disjunction) {
    match d
    case Single(only) => GoodAlternative(only)
    case Either(first, others) => GoodAlternative(first) && Good(others)
  }

  // ----- what a pattern matches

  /** The parts of the matcher left open: the span of every atom that is not a literal, and
      how a literal outside printable ASCII compares. Any relation at all may stand here. */
  datatype Openings = Openings(span: (Atom, string, nat, nat) -> bool, compare: (char, char) -> bool)

  predicate CharMatches(o: Openings, icase: bool, c: char, h: char) {
    if !Printable(c) then o.compare(c, h)
    else if icase then Fold(c) == Fold(h)
    else c == h
  }

  predicate AtomSpans(o: Openings, icase: bool, a: Atom, h: string, i: nat, j: nat) {
    && i <= j <= |h|
    && match a
       case PatternChar(c) => j == i + 1 && CharMatches(o, icase, c, h[i])
       case IdentityEscape(c) => j == i + 1 && CharMatches(o, icase, c, h[i])
       case _ => o.span(a, h, i, j)
  }

  /** n consecutive matches of the atom lead from i to j. */
  ghost predicate Repeats(o: Openings, icase: bool, a: Atom, h: string, n: nat, i: nat, j: nat) {
    if n == 0 then i == j
    else exists k: nat :: AtomSpans(o, icase, a, h, i, k) && Repeats(o, icase, a, h, n - 1, k, j)
  }

  function Value(digits: string): nat
    requires AllDigits(digits)
  {
    if digits == "" then 0
    else 10 * Value(digits[..|digits| - 1]) + (digits[|digits| - 1] as int - '0' as int)
  }

  predicate Allows(r: Repeat, n: nat) {
    match r
    case Once => n == 1
    case ZeroOrMore => true
    case OneOrMore => n >= 1
    case ZeroOrOne => n <= 1
    case Counted(min, upper) =>
      && (AllDigits(min) ==> Value(min) <= n)
      && match upper
         case None => AllDigits(min) ==> n == Value(min)
         case Some(max) => AllDigits(max) && max != "" ==> n <= Value(max)
  }

  ghost predicate TermSpans(o: Openings, icase: bool, t: Term, h: string, i: nat, j: nat) {
    exists n: nat :: Allows(t.repeat, n) && Repeats(o, icase, t.atom, h, n, i, j)
  }

  ghost predicate AlternativeSpans(o: Openings, icase: bool, a: Alternative, h: string, i: nat, j: nat) {
    match a
    case Empty => i == j
    case Then(first, rest) =>
      exists k: nat :: TermSpans(o, icase, first, h, i, k) && AlternativeSpans(o, icase, rest, h, k, j)
  }

  ghost predicate Spans(o: Openings, icase: bool, d: Disjunction, h: string, i: nat, j: nat) {
    match d
    case Single(only) => AlternativeSpans(o, icase, only, h, i, j)
    case Either(first, others) => AlternativeSpans(o, icase, first, h, i, j) || Spans(o, icase, others, h, i, j)
  }

  /** The pattern matches somewhere in the haystack. */
  ghost predicate Found(o: Openings, icase: bool, d: Disjunction, h: string) {
    exists i: nat, j: nat :: i <= |h| && Spans(o, icase, d, h, i, j)
  }

  // ----- the containment test

  predicate LikeAt(h: string, k: nat, literal: string, icase: bool) {
    && k + |literal| <= |h|
    && forall m | 0 <= m < |literal| ::
         if icase then Fold(h[k + m]) == Fold(literal[m]) else h[k + m] == literal[m]
  }

  predicate ContainsLiteral(h: string, literal: string, icase: bool) {
    literal == "" || exists k | 0 <= k <= |h| :: LikeAt(h, k, literal, icase)
  }

  // ----- the scanner steps over exactly one term

  /** Text that may follow a complete term. */
  predicate Follows(post: string) { post == "" || !IsRepeat(post[0]) }

  /** No bracket opens a bracketed element, such as a named class. */
  predicate NoElement(items: seq<ClassItem>) {
    forall k | 0 <= k < |items| - 1 ::
      !(items[k] == Plain('[') && items[k + 1].Plain? && PosixMark(items[k + 1].c))
  }

  /** The class can be delimited: it is not empty and holds no bracketed element. A first
      caret reads as the mark of a negated class. */
  predicate ClassScans(negated: bool, items: seq<ClassItem>) {
    var inner := if !negated && items != [] && items[0] == Plain('^') then items[1..] else items;
    inner != [] && NoElement(inner)
  }

  /** Every class in it can be delimited. */
  predicate InnerScans(a: Atom) {
    match a
    case CharClass(negated, items) => ClassScans(negated, items)
    case Group(_, body) => DisjunctionScans(body)
    case _ => true
  }

  predicate AlternativeScans(a: Alternative) {
    match a case Empty => true case Then(first, rest) => InnerScans(first.atom) && AlternativeScans(rest)
  }

  predicate DisjunctionScans(d: Disjunction) {
    match d
    case Single(only) => AlternativeScans(only)
    case Either(first, others) => AlternativeScans(first) && DisjunctionScans(others)
  }

  lemma {:induction false} ItemsScan(items: seq<ClassItem>, post: string)
    requires forall k | 0 <= k < |items| :: items[k].Plain? ==> !EndsClass(items[k].c)
    ensures ClassRest(ItemsText(items) + "]" + post) == if NoElement(items) then Some(post) else None
  {
    var s := ItemsText(items) + "]" + post;
    if items == [] {
      assert s == "]" + post;
      assert s[1..] == post;
    } else {
      ItemsScan(items[1..], post);
      var tail := ItemsText(items[1..]) + "]" + post;
      assert s == ItemText(items[0]) + tail;
      NoElementFrom(items);
      if |items| > 1 { FirstItem(items[1..], post); }
      match items[0]
      case Plain(_) => assert s[1..] == tail;
      case Escaped(_) => assert s[2..] == tail;
    }
  }

  lemma NoElementFrom(items: seq<ClassItem>)
    requires items != []
    ensures NoElement(items) <==>
      && NoElement(items[1..])
      && !(|items| > 1 && items[0] == Plain('[') && items[1].Plain? && PosixMark(items[1].c))
  {
    if NoElement(items[1..]) {
      forall k | 0 < k < |items| - 1
        ensures !(items[k] == Plain('[') && items[k + 1].Plain? && PosixMark(items[k + 1].c)) {
        assert items[1..][k - 1] == items[k] && items[1..][k] == items[k + 1];
      }
    }
  }

  lemma ClassScan(negated: bool, items: seq<ClassItem>, post: string)
    requires GoodAtom(CharClass(negated, items))
    ensures ClassEnd(AtomText(CharClass(negated, items)) + post) ==
            if ClassScans(negated, items) then Some(post) else None
  {
    var s := AtomText(CharClass(negated, items)) + post;
    var tail := ItemsText(items) + "]" + post;
    assert s == "[" + (if negated then "^" else "") + tail;
    ItemsScan(items, post);
    hide ClassRest, ItemsText;
    if negated {
      assert s[2..] == tail;
    } else {
      assert s[1..] == tail;
      if items != [] {
        FirstItem(items, post);
        // a body that opens with a caret reads as a negated class of the remaining items
        if items[0] == Plain('^') {
          ItemsScan(items[1..], post);
          if |items| > 1 { FirstItem(items[1..], post); }
        }
      }
    }
  }

  lemma FirstItem(items: seq<ClassItem>, post: string)
    requires items != []
    ensures var tail := ItemsText(items) + "]" + post;
      tail[0] == ItemText(items[0])[0] && (items[0].Plain? ==> tail[1..] == ItemsText(items[1..]) + "]" + post)
  {
    var rest := ItemsText(items[1..]);
    assert ItemsText(items) == ItemText(items[0]) + rest;
    if items[0].Plain? { assert ([items[0].c] + rest + "]" + post)[1..] == rest + "]" + post; }
  }

  /** Reading s inside a group moves on to post, or the group cannot be delimited. */
  ghost predicate StepsOver(s: string, post: string, depth: nat, scans: bool)
    requires depth >= 1
  {
    GroupRest(s + post, depth) == if scans then GroupRest(post, depth) else None
  }

  lemma StepsOverBoth(a: string, b: string, post: string, depth: nat, first: bool, second: bool)
    requires depth >= 1 && StepsOver(a, b + post, depth, first) && StepsOver(b, post, depth, second)
    ensures StepsOver(a + b, post, depth, first && second)
  {
    assert a + b + post == a + (b + post);
  }

  predicate Ordinary(s: string) { forall k | 0 <= k < |s| :: !IsBracket(s[k]) }

  lemma {:induction false} OrdinaryScan(s: string, post: string, depth: nat)
    requires depth >= 1 && Ordinary(s)
    ensures StepsOver(s, post, depth, true)
  {
    if s == "" {
      assert s + post == post;
    } else {
      assert (s + post)[1..] == s[1..] + post;
      OrdinaryScan(s[1..], post, depth);
    }
  }

  lemma {:induction false} AtomScan(a: Atom, post: string, depth: nat)
    requires depth >= 1 && GoodAtom(a)
    ensures StepsOver(AtomText(a), post, depth, InnerScans(a))
    decreases a
  {
    var s := AtomText(a) + post;
    match a
    case PatternChar(_) => OrdinaryScan(AtomText(a), post, depth);
    case Dot => OrdinaryScan(AtomText(a), post, depth);
    case LineStart => OrdinaryScan(AtomText(a), post, depth);
    case LineEnd => OrdinaryScan(AtomText(a), post, depth);
    case IdentityEscape(_) => assert s[2..] == post;
    case CharEscape(_) => assert s[2..] == post;
    case OtherEscape(_, digits) =>
      assert s[2..] == digits + post;
      OrdinaryScan(digits, post, depth);
    case CharClass(negated, items) => ClassScan(negated, items, post);
    case Group(head, body) =>
      var close := ")" + post;
      assert s[1..] == head + (Text(body) + close);
      OrdinaryScan(head, Text(body) + close, depth + 1);
      DisjunctionScan(body, close, depth + 1);
      assert close[1..] == post;
  }

  lemma RepeatIsOrdinary(t: Term)
    requires GoodTerm(t)
    ensures Ordinary(RepeatText(t.repeat) + (if t.reluctant then "?" else ""))
  {
  }

  lemma {:induction false} TermScan(t: Term, post: string, depth: nat)
    requires depth >= 1 && GoodTerm(t)
    ensures StepsOver(TermText(t), post, depth, InnerScans(t.atom))
    decreases t
  {
    var mark := RepeatText(t.repeat) + (if t.reluctant then "?" else "");
    RepeatIsOrdinary(t);
    OrdinaryScan(mark, post, depth);
    AtomScan(t.atom, mark + post, depth);
    hide AtomText, RepeatText, GroupRest, GoodAtom, InnerScans;
    StepsOverBoth(AtomText(t.atom), mark, post, depth, InnerScans(t.atom), true);
    assert TermText(t) == AtomText(t.atom) + mark;
  }

  lemma {:induction false} AlternativeScan(a: Alternative, post: string, depth: nat)
    requires depth >= 1 && GoodAlternative(a)
    ensures StepsOver(AlternativeText(a), post, depth, AlternativeScans(a))
    decreases a
  {
    match a
    case Empty => assert "" + post == post;
    case Then(first, rest) =>
      AlternativeScan(rest, post, depth);
      TermScan(first, AlternativeText(rest) + post, depth);
      StepsOverBoth(TermText(first), AlternativeText(rest), post, depth, InnerScans(first.atom),
        AlternativeScans(rest));
  }

  lemma {:induction false} DisjunctionScan(d: Disjunction, post: string, depth: nat)
    requires depth >= 1 && Good(d)
    ensures StepsOver(Text(d), post, depth, DisjunctionScans(d))
    decreases d
  {
    match d
    case Single(only) => AlternativeScan(only, post, depth);
    case Either(first, others) =>
      DisjunctionScan(others, post, depth);
      OrdinaryScan("|", Text(others) + post, depth);
      StepsOverBoth("|", Text(others), post, depth, true, DisjunctionScans(others));
      AlternativeScan(first, "|" + Text(others) + post, depth);
      StepsOverBoth(AlternativeText(first), "|" + Text(others), post, depth, AlternativeScans(first),
        DisjunctionScans(others));
      assert Text(d) == AlternativeText(first) + ("|" + Text(others));
  }

  function LiteralOf(a: Atom): Option<char> {
    match a case PatternChar(c) => Some(c) case IdentityEscape(c) => Some(c) case _ => None
  }

  /** The scanner reads the atom: a closing bracket or brace must be escaped, no other escape
      than those of classes is known, and classes and groups must be delimited. */
  predicate Scans(a: Atom) {
    match a
    case PatternChar(c) => c != ']' && c != '}'
    case OtherEscape(_, _) => false
    case _ => InnerScans(a)
  }

  /** At the top level an atom's text is read as that atom, or the scanner gives up, exactly
      if it cannot read it. */
  lemma AtomToken(a: Atom, post: string)
    requires GoodAtom(a)
    ensures NextToken(AtomText(a) + post) == if Scans(a) then Token(LiteralOf(a), post) else GiveUp
  {
    var s := AtomText(a) + post;
    match a
    case PatternChar(_) => assert s[1..] == post;
    case Dot => assert s[1..] == post;
    case LineStart => assert s[1..] == post;
    case LineEnd => assert s[1..] == post;
    case IdentityEscape(_) => assert s[2..] == post;
    case CharEscape(_) => assert s[2..] == post;
    case OtherEscape(_, _) =>
    case CharClass(negated, items) => ClassScan(negated, items, post);
    case Group(head, body) =>
      var close := ")" + post;
      assert s[1..] == head + (Text(body) + close);
      OrdinaryScan(head, Text(body) + close, 1);
      DisjunctionScan(body, close, 1);
      assert close[1..] == post;
  }

  lemma {:induction false} ValueZero(digits: string)
    requires AllDigits(digits)
    ensures Value(digits) == 0 <==> AllZero(digits)
  {
    if digits != "" { ValueZero(digits[..|digits| - 1]); }
  }

  /** The repetition mark is read as what it means: present or not, and whether the atom may
      be left out altogether. */
  lemma RepeatToken(t: Term, post: string)
    requires GoodTerm(t) && Follows(post)
    ensures var mark := RepeatText(t.repeat) + (if t.reluctant then "?" else "");
      ParseQuantifier(mark + post) == Quantified(post, Allows(t.repeat, 0), !t.repeat.Once?)
  {
    hide ParseQuantifier, Allows, RepeatText, AfterLazy, Follows;
    if t.repeat.Once? {
      OnceToken(post);
      assert "" + "" + post == post;
    } else {
      var lazy := if t.reluctant then "?" else "";
      LazySkipped(lazy, post);
      if t.repeat.Counted? {
        CountedToken(t.repeat.min, t.repeat.upper, lazy + post);
      } else {
        SignToken(t.repeat, lazy + post);
      }
      assert RepeatText(t.repeat) + lazy + post == RepeatText(t.repeat) + (lazy + post);
    }
  }

  lemma OnceToken(post: string)
    requires Follows(post)
    ensures ParseQuantifier(post) == Quantified(post, false, false)
    ensures RepeatText(Once) == "" && !Allows(Once, 0)
  {
  }

  lemma LazySkipped(lazy: string, post: string)
    requires lazy == "?" || (lazy == "" && Follows(post))
    ensures AfterLazy(lazy + post) == post
  {
    if lazy == "?" { assert ("?" + post)[1..] == post; } else { assert "" + post == post; }
  }

  lemma SignToken(r: Repeat, rest: string)
    requires !r.Once? && !r.Counted?
    ensures ParseQuantifier(RepeatText(r) + rest) == Quantified(AfterLazy(rest), Allows(r, 0), true)
  {
    assert (RepeatText(r) + rest)[1..] == rest;
  }

  lemma CountedToken(min: string, upper: Option<string>, rest: string)
    requires min != "" && AllDigits(min) && (upper.Some? ==> AllDigits(upper.value))
    ensures ParseQuantifier(RepeatText(Counted(min, upper)) + rest)
         == Quantified(AfterLazy(rest), Allows(Counted(min, upper), 0), true)
  {
    hide ParseQuantifier, IndexOf, AllDigits;
    var most := if upper.None? then "" else "," + upper.value;
    var body := min + most;
    BoundsBody(min, upper);
    ValueZero(min);
    BracesToken(body, rest);
    assert RepeatText(Counted(min, upper)) + rest == "{" + body + "}" + rest;
  }

  lemma BoundsBody(min: string, upper: Option<string>)
    requires min != "" && AllDigits(min) && (upper.Some? ==> AllDigits(upper.value))
    ensures var body := min + (if upper.None? then "" else "," + upper.value);
      IndexOf(body, ',') == |min| && BraceChars(body) && body[..|min|] == min
  {
    var most := if upper.None? then "" else "," + upper.value;
    var body := min + most;
    assert forall k | 0 <= k < |most| :: IsDigit(most[k]) || most[k] == ',';
    assert forall k | 0 <= k < |body| :: body[k] == if k < |min| then min[k] else most[k - |min|];
    FirstIndex(body, ',', |min|);
  }

  lemma FirstIndex(s: string, c: char, k: nat)
    requires k <= |s| && (forall j | 0 <= j < k :: s[j] != c) && (k < |s| ==> s[k] == c)
    ensures IndexOf(s, c) == k
  {
    var found := IndexOf(s, c);
    assert found < |s| ==> s[found] == c;
  }

  /** A brace body ends at the first closing brace. */
  lemma BracesToken(body: string, tail: string)
    requires forall k | 0 <= k < |body| :: body[k] != '}'
    ensures ParseQuantifier("{" + body + "}" + tail) == ParseBraces(body, tail)
  {
    var s := "{" + body + "}" + tail;
    var close := |body| + 1;
    assert s[close] == '}' && forall k | 1 <= k < close :: s[k] == body[k - 1];
    FirstIndex(s, '}', close);
    assert s[1..close] == body && s[close + 1..] == tail;
  }

  /** What follows a term is the start of another one, a bar or the end. */
  lemma AlternativeFollows(a: Alternative, post: string)
    requires GoodAlternative(a) && (post == "" || post[0] == '|')
    ensures Follows(AlternativeText(a) + post)
  {
    match a
    case Empty => assert "" + post == post;
    case Then(first, rest) =>
      AtomStart(first.atom);
      assert AlternativeText(a) == TermText(first) + AlternativeText(rest);
      assert (AlternativeText(a) + post)[0] == AtomText(first.atom)[0];
  }

  lemma AtomStart(a: Atom)
    requires GoodAtom(a)
    ensures AtomText(a) != "" && !IsRepeat(AtomText(a)[0])
  {
  }

  /** The run and the best literal after one term. */
  function RunAfter(t: Term, icase: bool, run: string): string {
    var c := LiteralOf(t.atom);
    if c.Some? && Printable(c.value) && !Allows(t.repeat, 0) then run + [if icase then Fold(c.value) else c.value]
    else run
  }

  predicate Ends(t: Term) {
    var c := LiteralOf(t.atom); c.None? || !Printable(c.value) || !t.repeat.Once?
  }

  lemma TermStep(t: Term, post: string, icase: bool, run: string, best: string)
    requires GoodTerm(t) && Follows(post)
    ensures var r, more := RequiredFrom(TermText(t) + post, icase, run, best), RunAfter(t, icase, run);
      r == if !Scans(t.atom) then "" else if Ends(t) then RequiredFrom(post, icase, "", Longer(more, best))
           else RequiredFrom(post, icase, more, best)
  {
    hide AtomText, RepeatText, NextToken, ParseQuantifier, GoodAtom, Follows, Allows;
    var mark := RepeatText(t.repeat) + (if t.reluctant then "?" else "");
    AtomToken(t.atom, mark + post);
    RepeatToken(t, post);
    AtomStart(t.atom);
    assert TermText(t) + post == AtomText(t.atom) + (mark + post);
  }

  // ----- soundness

  /** A top-level alternative means no literal at all is required. */
  lemma {:induction false} BarGivesUp(a: Alternative, others: string, icase: bool, run: string, best: string)
    requires GoodAlternative(a)
    ensures RequiredFrom(AlternativeText(a) + "|" + others, icase, run, best) == ""
    decreases a
  {
    var post := "|" + others;
    match a
    case Empty => assert AlternativeText(a) + "|" + others == post;
    case Then(first, rest) =>
      hide RequiredFrom, TermText, GoodTerm, RunAfter, Longer, Follows;
      AlternativeFollows(rest, post);
      assert AlternativeText(a) + "|" + others == TermText(first) + (AlternativeText(rest) + post);
      assert AlternativeText(rest) + post == AlternativeText(rest) + "|" + others;
      TermStep(first, AlternativeText(rest) + post, icase, run, best);
      BarGivesUp(rest, others, icase, RunAfter(first, icase, run), best);
      BarGivesUp(rest, others, icase, "", Longer(RunAfter(first, icase, run), best));
  }

  lemma {:induction false} RepeatsBounds(o: Openings, icase: bool, a: Atom, h: string, n: nat, i: nat, j: nat)
    requires Repeats(o, icase, a, h, n, i, j) && i <= |h|
    ensures i <= j <= |h|
  {
    if n > 0 {
      var k: nat :| AtomSpans(o, icase, a, h, i, k) && Repeats(o, icase, a, h, n - 1, k, j);
      RepeatsBounds(o, icase, a, h, n - 1, k, j);
    }
  }

  /** The haystack reads the run just before i. */
  predicate EndsAt(h: string, i: nat, run: string, icase: bool) {
    |run| <= i <= |h| && LikeAt(h, i - |run|, run, icase)
  }

  lemma EndsAtContains(h: string, i: nat, run: string, icase: bool)
    requires EndsAt(h, i, run, icase)
    ensures ContainsLiteral(h, run, icase)
  {
  }

  /** One term of a match carries the run along. */
  lemma TermKeepsRun(o: Openings, icase: bool, t: Term, h: string, i: nat, k: nat, run: string)
    requires TermSpans(o, icase, t, h, i, k) && EndsAt(h, i, run, icase)
    ensures i <= k <= |h|
    ensures ContainsLiteral(h, RunAfter(t, icase, run), icase)
    ensures !Ends(t) ==> EndsAt(h, k, RunAfter(t, icase, run), icase)
  {
    var n: nat :| Allows(t.repeat, n) && Repeats(o, icase, t.atom, h, n, i, k);
    RepeatsBounds(o, icase, t.atom, h, n, i, k);
    var c, more := LiteralOf(t.atom), RunAfter(t, icase, run);
    EndsAtContains(h, i, run, icase);
    if c.Some? && Printable(c.value) && !Allows(t.repeat, 0) {
      assert n >= 1;
      var m: nat :| AtomSpans(o, icase, t.atom, h, i, m) && Repeats(o, icase, t.atom, h, n - 1, m, k);
      assert m == i + 1 && CharMatches(o, icase, c.value, h[i]);
      assert EndsAt(h, i + 1, more, icase);
      EndsAtContains(h, i + 1, more, icase);
    }
  }

  lemma {:induction false} AlternativeSound(
      o: Openings, icase: bool, a: Alternative, h: string, i: nat, j: nat, run: string, best: string)
    requires GoodAlternative(a) && AlternativeSpans(o, icase, a, h, i, j)
    requires EndsAt(h, i, run, icase) && ContainsLiteral(h, best, icase)
    ensures ContainsLiteral(h, RequiredFrom(AlternativeText(a), icase, run, best), icase)
    decreases a
  {
    match a
    case Empty => EndsAtContains(h, i, run, icase);
    case Then(first, rest) =>
      var k: nat :| TermSpans(o, icase, first, h, i, k) && AlternativeSpans(o, icase, rest, h, k, j);
      var more := RunAfter(first, icase, run);
      TermKeepsRun(o, icase, first, h, i, k, run);
      AlternativeFollows(rest, "");
      assert AlternativeText(rest) + "" == AlternativeText(rest);
      TermStep(first, AlternativeText(rest), icase, run, best);
      if Ends(first) {
        AlternativeSound(o, icase, rest, h, k, j, "", Longer(more, best));
      } else {
        AlternativeSound(o, icase, rest, h, k, j, more, best);
      }
  }

  /** Soundness: wherever a grammatical pattern matches, its required literal occurs. */
  lemma PrefilterSound(o: Openings, icase: bool, d: Disjunction, h: string)
    requires Good(d) && Found(o, icase, d, h)
    ensures ContainsLiteral(h, RequiredFrom(Text(d), icase, "", ""), icase)
  {
    match d
    case Single(only) =>
      var i: nat, j: nat :| i <= |h| && Spans(o, icase, d, h, i, j);
      AlternativeSound(o, icase, only, h, i, j, "", "");
    case Either(first, others) =>
      BarGivesUp(first, Text(others), icase, "", "");
  }

  // ----- when a literal is found

  predicate AllScan(a: Alternative) {
    match a case Empty => true case Then(first, rest) => Scans(first.atom) && AllScan(rest)
  }

  /** The longest run of required literals, the first of that length. */
  function Required(a: Alternative, icase: bool, run: string, best: string): string
    decreases a
  {
    match a
    case Empty => Longer(run, best)
    case Then(first, rest) =>
      var more := RunAfter(first, icase, run);
      if Ends(first) then Required(rest, icase, "", Longer(more, best)) else Required(rest, icase, more, best)
  }

  /** The scanner finds the longest run exactly if it can read every atom. */
  lemma {:induction false} RequiredIs(a: Alternative, icase: bool, run: string, best: string)
    requires GoodAlternative(a)
    ensures RequiredFrom(AlternativeText(a), icase, run, best) ==
            if AllScan(a) then Required(a, icase, run, best) else ""
    decreases a
  {
    match a
    case Empty =>
    case Then(first, rest) =>
      hide RequiredFrom, TermText, GoodTerm, RunAfter, Longer, Follows, Scans, Ends;
      AlternativeFollows(rest, "");
      assert AlternativeText(rest) + "" == AlternativeText(rest);
      TermStep(first, AlternativeText(rest), icase, run, best);
      RequiredIs(rest, icase, RunAfter(first, icase, run), best);
      RequiredIs(rest, icase, "", Longer(RunAfter(first, icase, run), best));
  }

  /** The first n terms are literals a match must have one after the other: none but the last
      is repeated, and that one not left out. */
  predicate Stretch(a: Alternative, n: nat) {
    n == 0 || (a.Then? && LiteralOf(a.first.atom).Some? && Printable(LiteralOf(a.first.atom).value)
               && !Allows(a.first.repeat, 0) && (n == 1 || (a.first.repeat.Once? && Stretch(a.rest, n - 1))))
  }

  /** What is left of a pattern after its first k terms. */
  function Dropped(a: Alternative, k: nat): Alternative {
    if k == 0 || a.Empty? then a else Dropped(a.rest, k - 1)
  }

  /** The literal found is at least as long as any stretch of required literals. */
  lemma {:induction false} NoLongerStretch(a: Alternative, icase: bool, run: string, best: string, k: nat, n: nat)
    requires Stretch(Dropped(a, k), n)
    ensures |Required(a, icase, run, best)| >= |best| && |Required(a, icase, run, best)| >= |run|
    ensures |Required(a, icase, run, best)| >= n + (if k == 0 then |run| else 0)
    decreases a
  {
    match a
    case Empty =>
    case Then(first, rest) =>
      hide LiteralOf, Printable;
      var more := RunAfter(first, icase, run);
      var j := if k == 0 then 0 else k - 1;
      var m := if k > 0 then n else if n <= 1 then 0 else n - 1;
      if Ends(first) {
        NoLongerStretch(rest, icase, "", Longer(more, best), j, m);
      } else {
        NoLongerStretch(rest, icase, more, best, j, m);
      }
  }

  function FoldAll(s: string): string { seq(|s|, i requires 0 <= i < |s| => Fold(s[i])) }

  /** A pattern of plain printable characters requires itself. */
  lemma {:induction false} PlainIsItself(p: string, icase: bool, run: string)
    requires forall k | 0 <= k < |p| :: Printable(p[k]) && !IsSyntax(p[k]) && p[k] != ']' && p[k] != '}'
    ensures RequiredFrom(p, icase, run, "") == run + if icase then FoldAll(p) else p
  {
    if p == "" {
      assert run + FoldAll(p) == run;
    } else {
      var c := if icase then Fold(p[0]) else p[0];
      assert NextToken(p) == Token(Some(p[0]), p[1..]);
      assert ParseQuantifier(p[1..]) == Quantified(p[1..], false, false);
      PlainIsItself(p[1..], icase, run + [c]);
      assert FoldAll(p) == [Fold(p[0])] + FoldAll(p[1..]);
      assert run + [c] + (if icase then FoldAll(p[1..]) else p[1..]) == run + if icase then FoldAll(p) else p;
    }
  }

  // ----- the filtered search

  datatype RegexLiteral = RegexLiteral(pattern: string, icase: bool)

  /** /pattern/ and /pattern/i are unwrapped, anything else is the pattern itself. */
  function ParseRegexLiteral(text: string): RegexLiteral {
    var n := |text|;
    if n >= 3 && text[0] == '/' && text[n - 1] == 'i' && text[n - 2] == '/' then RegexLiteral(text[1..n - 2], true)
    else if n >= 2 && text[0] == '/' && text[n - 1] == '/' then RegexLiteral(text[1..n - 1], false)
    else RegexLiteral(text, false)
  }

  /** What the compiled engine promises: it finds only what the grammar says can match. */
  ghost predicate Honest(search: string -> bool, literal: RegexLiteral) {
    exists o: Openings, d: Disjunction :: Explains(o, d, search, literal)
  }

  ghost predicate Explains(o: Openings, d: Disjunction, search: string -> bool, literal: RegexLiteral) {
    Good(d) && Text(d) == literal.pattern && forall h :: search(h) ==> Found(o, literal.icase, d, h)
  }

  /** Skipping the strings without the required literal changes nothing; a pattern that did
      not compile matches nothing. */
  method RegexMatches(text: string, compiled: bool, search: string -> bool, strings: seq<string>) returns (ok: bool)
    requires compiled ==> Honest(search, ParseRegexLiteral(text))
    ensures ok <==> compiled && exists k | 0 <= k < |strings| :: search(strings[k])
  {
    if !compiled { return false; }
    var literal := ParseRegexLiteral(text);
    var required := RequiredLiteral(literal.pattern, literal.icase);
    for k := 0 to |strings|
      invariant forall m | 0 <= m < k :: !search(strings[m])
    {
      if !ContainsLiteral(strings[k], required, literal.icase) {
        FilterIsExact(literal, search, strings[k]);
        continue;
      }
      if search(strings[k]) { return true; }
    }
    ok := false;
  }

  lemma FilterIsExact(literal: RegexLiteral, search: string -> bool, h: string)
    requires Honest(search, literal)
    ensures search(h) ==> ContainsLiteral(h, RequiredFrom(literal.pattern, literal.icase, "", ""), literal.icase)
  {
    var o: Openings, d: Disjunction :| Explains(o, d, search, literal);
    if search(h) { PrefilterSound(o, literal.icase, d, h); }
  }
}
