/** Column layout of the box tables: proportional sharing with integers, and the collapse of
    the widest columns to the width available. */
module ColumnWidths {
  import opened Arithmetic
  import opened TextLines

  function Sum(s: seq<int>): int {
    if s == [] then 0 else Sum(s[..|s| - 1]) + s[|s| - 1]
  }

  lemma SumSnoc(s: seq<int>, x: int)
    ensures Sum(s + [x]) == Sum(s) + x
  {
    assert (s + [x])[..|s|] == s;
  }

  lemma SumPrefix(s: seq<int>, i: nat)
    requires i < |s|
    ensures Sum(s[..i + 1]) == Sum(s[..i]) + s[i]
  {
    assert s[..i + 1] == s[..i] + [s[i]];
    SumSnoc(s[..i], s[i]);
  }

  predicate NonNegative(s: seq<int>) { forall i | 0 <= i < |s| :: s[i] >= 0 }

  lemma {:induction false} SumBounds(s: seq<int>, i: nat)
    requires NonNegative(s) && i <= |s|
    ensures 0 <= Sum(s[..i]) <= Sum(s)
    decreases |s|
  {
    if i < |s| {
      SumBounds(s[..|s| - 1], i);
      assert s[..|s| - 1][..i] == s[..i];
    } else {
      assert s[..i] == s;
      if s != [] {
        SumBounds(s[..|s| - 1], |s| - 1);
        assert s[..|s| - 1][..|s| - 1] == s[..|s| - 1];
      }
    }
  }

  lemma SumAtLeast(s: seq<int>, i: nat)
    requires NonNegative(s) && i < |s|
    ensures s[i] <= Sum(s)
  {
    SumPrefix(s, i);
    SumBounds(s, i);
    SumBounds(s, i + 1);
  }

  lemma {:induction false} SumZero(s: seq<int>)
    requires NonNegative(s) && Sum(s) == 0
    ensures forall i | 0 <= i < |s| :: s[i] == 0
  {
    if s != [] {
      SumBounds(s, |s| - 1);
      SumZero(s[..|s| - 1]);
    }
  }

  function Min(a: int, b: int): int { if a < b then a else b }

  // ----- sharing

  /** Division as the source's integers have it, toward zero. */
  function Truncated(num: int, den: int): (q: int)
    requires 0 < den
    ensures if 0 <= num then q * den <= num < q * den + den else q * den - den < num <= q * den
  {
    if 0 <= num then
      assert (num / den) * den + num % den == num;
      num / den
    else
      assert (-num / den) * den + -num % den == -num;
      -(-num / den)
  }

  /** num / den rounded to the nearest integer, a tie to the even one; below zero, up. */
  function RoundHalfEven(num: int, den: int): (r: int)
    requires 0 < den
    ensures 0 <= num ==> -den <= 2 * (r * den - num) <= den
    ensures 0 <= num && (2 * (r * den - num) == den || 2 * (r * den - num) == -den) ==> r % 2 == 0
    ensures num < 0 ==> num <= r * den < num + den
  {
    var q := Truncated(num, den);
    var twice := 2 * (num - q * den);
    assert (q + 1) * den == q * den + den;
    if twice < den then q
    else if twice > den then q + 1
    else if q % 2 == 0 then q else q + 1
  }

  /** The least integer not below num / den, as long as num is above -den; further down it
      comes out one too high unless the division is exact. */
  function CeilDiv(num: int, den: int): (r: int)
    requires 0 < den
    ensures -den < num ==> num <= r * den < num + den
    ensures num <= -den ==> num + den - 1 <= r * den < num + 2 * den - 1
  {
    Truncated(num + den - 1, den)
  }

  lemma LeFromMul(a: int, b: int, c: int)
    requires a * c <= b * c && 0 < c
    ensures a <= b
  {
    if b + 1 <= a { MulLe(b + 1, a, c); }
  }

  lemma LtFromMul(a: int, b: int, c: int)
    requires a * c < b * c && 0 < c
    ensures a < b
  {
    if b <= a { MulLe(b, a, c); }
  }

  /** A rounded-up share takes no more than what remains, all of it when it is the last,
      and leaves the rest no more than its proportion. */
  lemma ShareFits(ratio: int, remaining: int, totalRatio: int)
    requires 0 <= ratio <= totalRatio && 0 < totalRatio && 0 <= remaining
    ensures 0 <= ratio * remaining
    ensures var d := CeilDiv(ratio * remaining, totalRatio);
      && 0 <= d <= remaining
      && (ratio == totalRatio ==> d == remaining)
      && (remaining - d) * totalRatio <= remaining * (totalRatio - ratio)
  {
    MulLe(0, ratio, remaining);
    MulLe(ratio, totalRatio, remaining);
    var d := CeilDiv(ratio * remaining, totalRatio);
    assert d * totalRatio < remaining * totalRatio + totalRatio == (remaining + 1) * totalRatio;
    LtFromMul(d, remaining + 1, totalRatio);
    LtFromMul(-1, d, totalRatio);
    if ratio == totalRatio { LeFromMul(remaining, d, totalRatio); }
    assert (remaining - d) * totalRatio == remaining * totalRatio - d * totalRatio;
    assert remaining * (totalRatio - ratio) == remaining * totalRatio - ratio * remaining;
  }

  lemma ProportionCarries(remaining: int, left: int, t: int, t': int, total: int, whole: int)
    requires left * t <= remaining * t' && remaining * whole <= total * t
    requires 0 < t && 0 <= t' && 0 <= whole
    ensures left * whole <= total * t'
  {
    MulLe(left * t, remaining * t', whole);
    MulLe(remaining * whole, total * t, t');
    assert (left * whole) * t == (left * t) * whole;
    assert (remaining * t') * whole == (remaining * whole) * t';
    assert (total * t) * t' == (total * t') * t;
    LeFromMul(left * whole, total * t', t);
  }

  ghost predicate Proportional(total: int, ratios: seq<int>, out: seq<int>, k: nat) {
    k <= |ratios| && k <= |out| && Sum(ratios[..k]) * total <= Sum(out[..k]) * Sum(ratios)
  }

  lemma LeavesProportion(total: int, whole: int, ratio: int, given: int)
    requires (total - given) * whole <= total * (whole - ratio)
    ensures ratio * total <= given * whole
  {
    assert (total - given) * whole == total * whole - given * whole;
    assert total * (whole - ratio) == total * whole - ratio * total;
  }

  lemma Accumulates(total: int, ratios: seq<int>, before: seq<int>, d: int, totalRatio: int, remaining: int)
    requires |before| < |ratios| && forall k | 0 <= k <= |before| :: Proportional(total, ratios, before, k)
    requires totalRatio == Sum(ratios) - Sum(ratios[..|before| + 1]) && remaining == total - Sum(before + [d])
    requires remaining * Sum(ratios) <= total * totalRatio
    ensures forall k | 0 <= k <= |before| + 1 :: Proportional(total, ratios, before + [d], k)
  {
    var out, n, whole := before + [d], |before| + 1, Sum(ratios);
    assert out[..n] == out;
    LeavesProportion(total, whole, Sum(ratios[..n]), Sum(out));
    forall k | 0 <= k <= |before| ensures Proportional(total, ratios, out, k) {
      assert Proportional(total, ratios, before, k) && out[..k] == before[..k];
    }
  }

  // ----- the shares one by one

  /** The share of a slot: in proportion to what is left, or all of it when no ratio is. */
  function ShareOf(ratio: int, remaining: int, totalRatio: int): int {
    if totalRatio > 0 then CeilDiv(ratio * remaining, totalRatio) else remaining
  }

  function Distributed(remaining: int, totalRatio: int, ratios: seq<int>): seq<int>
    decreases |ratios|
  {
    if ratios == [] then []
    else
      var d := ShareOf(ratios[0], remaining, totalRatio);
      [d] + Distributed(remaining - d, totalRatio - ratios[0], ratios[1..])
  }

  /** What a negative total leaves behind once the last ratio was served. */
  function Missing(ratio: int): int { if ratio >= 2 then -1 else 0 }

  /** What holds after the first slots got their shares of a total from zero up. */
  ghost predicate SharedUp(total: int, ratios: seq<int>, out: seq<int>, remaining: int, totalRatio: int) {
    && 0 <= remaining && NonNegative(out) && (out != [] && totalRatio == 0 ==> remaining == 0)
    && remaining * Sum(ratios) <= total * totalRatio
    && forall k | 0 <= k <= |out| :: Proportional(total, ratios, out, k)
  }

  /** The same below zero: there is still something to give until the ratios are used up. */
  ghost predicate SharedDown(ratios: seq<int>, out: seq<int>, remaining: int, totalRatio: int) {
    if totalRatio > 0 then remaining < 0
    else 0 < |out| <= |ratios| ==> remaining == Missing(ratios[|out| - 1])
  }

  ghost predicate Shared(total: int, ratios: seq<int>, out: seq<int>, remaining: int, totalRatio: int) {
    && |out| <= |ratios|
    && totalRatio == Sum(ratios) - Sum(ratios[..|out|]) && remaining == total - Sum(out)
    && (NonNegative(ratios) && total >= 0 ==> SharedUp(total, ratios, out, remaining, totalRatio))
    && (NonNegative(ratios) && total < 0 ==> SharedDown(ratios, out, remaining, totalRatio))
  }

  /** Below zero a share stops short of what is left, but for the last ratio, which takes it
      all if it is one and all but one otherwise. */
  lemma NegativeShare(ratio: int, remaining: int, totalRatio: int)
    requires 0 <= ratio <= totalRatio && 0 < totalRatio && remaining < 0
    ensures var d := CeilDiv(ratio * remaining, totalRatio);
      if ratio < totalRatio then d > remaining else d == remaining - Missing(ratio)
  {
    var d := CeilDiv(ratio * remaining, totalRatio);
    if ratio < totalRatio {
      MulLe(ratio + 1, totalRatio, -remaining);
      assert (ratio + 1) * -remaining == -(ratio * remaining) - remaining;
      assert totalRatio * -remaining == -(remaining * totalRatio);
      LtFromMul(remaining, d, totalRatio);
    } else {
      LastNegative(remaining, totalRatio, d);
    }
  }

  lemma LastNegative(remaining: int, t: int, d: int)
    requires 0 < t && remaining < 0 && d == CeilDiv(t * remaining, t)
    ensures d == remaining - Missing(t)
  {
    MulLe(remaining, -1, t);
    assert t * remaining == remaining * t && (-1) * t == -t;
    assert (remaining + 1) * t == remaining * t + t && (remaining + 2) * t == remaining * t + 2 * t;
    LtFromMul(d, remaining + 2, t);
    if t == 1 {
      assert d * t == d && remaining * t == remaining;
    } else {
      LtFromMul(remaining, d, t);
    }
  }

  lemma ShareOne(total: int, ratios: seq<int>, out: seq<int>, remaining: int, totalRatio: int)
    requires Shared(total, ratios, out, remaining, totalRatio) && |out| < |ratios|
    ensures var ratio := ratios[|out|];
      var d := ShareOf(ratio, remaining, totalRatio);
      Shared(total, ratios, out + [d], remaining - d, totalRatio - ratio)
  {
    hide SharedUp, SharedDown, CeilDiv;
    var ratio := ratios[|out|];
    SumPrefix(ratios, |out|);
    SumSnoc(out, ShareOf(ratio, remaining, totalRatio));
    if NonNegative(ratios) {
      SumBounds(ratios, |out|);
      SumBounds(ratios, |out| + 1);
      if total >= 0 {
        ShareUp(total, ratios, out, remaining, totalRatio);
      } else {
        ShareDown(ratios, out, remaining, totalRatio);
      }
    }
  }

  lemma ShareUp(total: int, ratios: seq<int>, out: seq<int>, remaining: int, totalRatio: int)
    requires total >= 0 && |out| < |ratios| && 0 <= ratios[|out|] <= totalRatio && 0 <= Sum(ratios)
    requires totalRatio == Sum(ratios) - Sum(ratios[..|out|]) && remaining == total - Sum(out)
    requires SharedUp(total, ratios, out, remaining, totalRatio)
    ensures var ratio := ratios[|out|];
      var d := ShareOf(ratio, remaining, totalRatio);
      SharedUp(total, ratios, out + [d], remaining - d, totalRatio - ratio)
  {
    hide CeilDiv, Proportional, Sum;
    var ratio := ratios[|out|];
    var d := ShareOf(ratio, remaining, totalRatio);
    if totalRatio > 0 {
      ShareFits(ratio, remaining, totalRatio);
      ProportionCarries(remaining, remaining - d, totalRatio, totalRatio - ratio, total, Sum(ratios));
    }
    SumPrefix(ratios, |out|);
    SumSnoc(out, d);
    Accumulates(total, ratios, out, d, totalRatio - ratio, remaining - d);
  }

  lemma ShareDown(ratios: seq<int>, out: seq<int>, remaining: int, totalRatio: int)
    requires |out| < |ratios| && 0 <= ratios[|out|] <= totalRatio && SharedDown(ratios, out, remaining, totalRatio)
    ensures var ratio := ratios[|out|];
      var d := ShareOf(ratio, remaining, totalRatio);
      SharedDown(ratios, out + [d], remaining - d, totalRatio - ratio)
  {
    hide CeilDiv;
    if totalRatio > 0 { NegativeShare(ratios[|out|], remaining, totalRatio); }
  }

  lemma NothingShared(total: int, ratios: seq<int>)
    ensures Shared(total, ratios, [], total, Sum(ratios))
  {
    SumBoundsIfPlain(ratios);
    if NonNegative(ratios) && total >= 0 {
      forall k | 0 <= k <= 0 ensures Proportional(total, ratios, [], k) { }
    }
  }

  lemma SumBoundsIfPlain(s: seq<int>)
    ensures NonNegative(s) ==> 0 <= Sum(s)
  {
    if NonNegative(s) { SumBounds(s, 0); }
  }

  lemma AllShared(total: int, ratios: seq<int>, out: seq<int>, remaining: int, totalRatio: int)
    requires Shared(total, ratios, out, remaining, totalRatio) && |out| == |ratios|
    ensures NonNegative(ratios) && total >= 0 ==> SharedUp(total, ratios, out, remaining, 0)
    ensures NonNegative(ratios) && ratios != [] ==>
      Sum(out) == total - if total < 0 then Missing(ratios[|ratios| - 1]) else 0
  {
    assert ratios[..|ratios|] == ratios;
  }

  /** Shares out any total. With ratios from zero up the shares add up to the total exactly,
      but for a negative total whose last ratio is two or more: then they stop one short.
      A total from zero up gives no negative share, and every prefix of the slots at least
      its proportion. */
  method RatioDistribute(total: int, ratios: seq<int>) returns (out: seq<int>)
    ensures |out| == |ratios| && out == Distributed(total, Sum(ratios), ratios)
    ensures NonNegative(ratios) && ratios != [] ==> (Sum(out) == total <==> total >= 0 || ratios[|ratios| - 1] < 2)
    ensures NonNegative(ratios) && ratios != [] && Sum(out) != total ==> Sum(out) == total + 1
    ensures NonNegative(ratios) && total >= 0 ==> NonNegative(out)
    ensures NonNegative(ratios) && total >= 0 ==>
      forall k | 0 <= k <= |ratios| :: Sum(ratios[..k]) * total <= Sum(out[..k]) * Sum(ratios)
  {
    hide SharedUp, SharedDown, Shared, ShareOf, NonNegative, Sum;
    var totalRatio := Total(ratios);
    out := [];
    var remaining := total;
    NothingShared(total, ratios);
    for i := 0 to |ratios|
      invariant |out| == i && Shared(total, ratios, out, remaining, totalRatio)
      invariant out + Distributed(remaining, totalRatio, ratios[i..]) == Distributed(total, Sum(ratios), ratios)
    {
      ShareOne(total, ratios, out, remaining, totalRatio);
      assert ratios[i..][1..] == ratios[i + 1..];
      var distributed := ShareOf(ratios[i], remaining, totalRatio);
      out := out + [distributed];
      totalRatio := totalRatio - ratios[i];
      remaining := remaining - distributed;
    }
    AllShared(total, ratios, out, remaining, totalRatio);
    SharedProportions(total, ratios, out, remaining);
  }

  method Total(s: seq<int>) returns (total: int)
    ensures total == Sum(s)
  {
    total := 0;
    for i := 0 to |s|
      invariant total == Sum(s[..i])
    {
      SumPrefix(s, i);
      total := total + s[i];
    }
    assert s[..|s|] == s;
  }

  lemma SharedProportions(total: int, ratios: seq<int>, out: seq<int>, remaining: int)
    requires |out| == |ratios|
    ensures SharedUp(total, ratios, out, remaining, 0) ==> NonNegative(out)
    ensures SharedUp(total, ratios, out, remaining, 0) ==>
      forall k | 0 <= k <= |ratios| :: Sum(ratios[..k]) * total <= Sum(out[..k]) * Sum(ratios)
  {
    if SharedUp(total, ratios, out, remaining, 0) {
      forall k | 0 <= k <= |ratios| ensures Sum(ratios[..k]) * total <= Sum(out[..k]) * Sum(ratios) {
        assert Proportional(total, ratios, out, k);
      }
    }
  }

  /** What each slot may give up: a slot whose cap is zero takes no part. */
  function Taking(ratios: seq<int>, maximums: seq<int>): (r: seq<int>)
    requires |maximums| == |ratios|
    ensures |r| == |ratios|
  {
    seq(|ratios|, i requires 0 <= i < |ratios| => if maximums[i] == 0 then 0 else ratios[i])
  }

  lemma RoundedShareFits(ratio: int, remaining: int, totalRatio: int)
    requires 0 <= ratio <= totalRatio && 0 < totalRatio && 0 <= remaining
    ensures 0 <= ratio * remaining
    ensures var d := RoundHalfEven(ratio * remaining, totalRatio);
      0 <= d <= remaining && (ratio == totalRatio ==> d == remaining)
  {
    MulLe(0, ratio, remaining);
    MulLe(ratio, totalRatio, remaining);
    var d := RoundHalfEven(ratio * remaining, totalRatio);
    assert 2 * (d * totalRatio - ratio * remaining) <= totalRatio;
    assert (remaining + 1) * totalRatio == remaining * totalRatio + totalRatio;
    assert (-1) * totalRatio == -totalRatio;
    LtFromMul(d, remaining + 1, totalRatio);
    LtFromMul(-1, d, totalRatio);
    if ratio == totalRatio {
      assert (remaining - 1) * totalRatio == remaining * totalRatio - totalRatio;
      LtFromMul(remaining - 1, d, totalRatio);
    }
  }

  /** Some slot gave up all it may. */
  ghost predicate Capped(values: seq<int>, result: seq<int>, maximums: seq<int>) {
    exists i :: 0 <= i < |result| && i < |values| && i < |maximums| && 0 < maximums[i] == values[i] - result[i]
  }

  /** What one slot gives up: nothing if it takes no part, else its rounded share or its cap. */
  function TakenFrom(ratio: int, remaining: int, totalRatio: int, maximum: int): int {
    if ratio == 0 || totalRatio <= 0 then 0 else Min(maximum, RoundHalfEven(ratio * remaining, totalRatio))
  }

  function Reduced(remaining: int, totalRatio: int, ratios: seq<int>, maximums: seq<int>, values: seq<int>): seq<int>
    requires |ratios| == |maximums| == |values|
    decreases |values|
  {
    if values == [] then []
    else
      var d := TakenFrom(ratios[0], remaining, totalRatio, maximums[0]);
      [values[0] - d]
      + Reduced(remaining - d, if totalRatio > 0 then totalRatio - ratios[0] else totalRatio,
                ratios[1..], maximums[1..], values[1..])
  }

  ghost predicate Plain(total: int, given: seq<int>, maximums: seq<int>) {
    0 <= total && NonNegative(given) && NonNegative(maximums)
  }

  /** Takes any total out of the slots that take part. From zero up, none gives more than its
      cap: exactly the total is taken, unless some slot reached its cap. */
  method RatioReduce(total: int, given: seq<int>, maximums: seq<int>, values: seq<int>) returns (result: seq<int>)
    requires |given| == |maximums| == |values|
    ensures |result| == |values|
    ensures var ratios := Taking(given, maximums);
      result == if Sum(ratios) == 0 then values else Reduced(total, Sum(ratios), ratios, maximums, values)
    ensures Plain(total, given, maximums) ==>
      && (forall i | 0 <= i < |values| :: 0 <= values[i] - result[i] <= maximums[i])
      && (forall i | 0 <= i < |values| && given[i] == 0 :: result[i] == values[i])
    ensures Plain(total, given, maximums) ==> Sum(values) - Sum(result) <= total
    ensures Plain(total, given, maximums) && Sum(Taking(given, maximums)) > 0 ==>
      Sum(values) - Sum(result) == total || Capped(values, result, maximums)
  {
    var ratios := given;
    for i := 0 to |given|
      invariant |ratios| == |given|
      invariant forall k | 0 <= k < i :: ratios[k] == Taking(given, maximums)[k]
      invariant forall k | i <= k < |given| :: ratios[k] == given[k]
    {
      if maximums[i] == 0 { ratios := ratios[i := 0]; }
    }
    assert ratios == Taking(given, maximums);
    var totalRatio := Total(ratios);
    if totalRatio == 0 { return values; }
    result := TakeShares(total, ratios, totalRatio, maximums, values);
    if Plain(total, ratios, maximums) {
      SumBounds(ratios, 0);
      TakenAll(total, ratios, maximums, values, result);
    }
  }

  /** What is still to be taken after the first slots, and from what ratio. */
  ghost predicate Taken(total: int, ratios: seq<int>, maximums: seq<int>, values: seq<int>, result: seq<int>,
                        remaining: int, totalRatio: int)
    requires |ratios| == |maximums| == |values|
  {
    && |result| <= |values|
    && totalRatio == Sum(ratios) - Sum(ratios[..|result|])
    && 0 <= remaining == total - (Sum(values[..|result|]) - Sum(result))
    && (forall k | 0 <= k < |result| :: 0 <= values[k] - result[k] <= if ratios[k] == 0 then 0 else maximums[k])
    && (totalRatio == 0 ==> remaining == 0 || Capped(values, result, maximums))
  }

  method TakeShares(total: int, ratios: seq<int>, whole: int, maximums: seq<int>, values: seq<int>)
    returns (result: seq<int>)
    requires |ratios| == |maximums| == |values| && whole == Sum(ratios) != 0
    requires forall i | 0 <= i < |ratios| && maximums[i] == 0 :: ratios[i] == 0
    ensures |result| == |values| && result == Reduced(total, whole, ratios, maximums, values)
    ensures Plain(total, ratios, maximums) ==>
      exists remaining :: Taken(total, ratios, maximums, values, result, remaining, 0)
  {
    hide Taken, Sum, Capped, Plain, TakenFrom, Reduced;
    result := [];
    var remaining, totalRatio := total, whole;
    NothingTaken(total, ratios, maximums, values);
    for i := 0 to |ratios|
      invariant |result| == i
      invariant Plain(total, ratios, maximums) ==>
        Taken(total, ratios, maximums, values, result, remaining, totalRatio)
      invariant result + Reduced(remaining, totalRatio, ratios[i..], maximums[i..], values[i..])
             == Reduced(total, whole, ratios, maximums, values)
    {
      var distributed := TakenFrom(ratios[i], remaining, totalRatio, maximums[i]);
      TakeNext(total, ratios, maximums, values, result, remaining, totalRatio);
      ReducedFrom(remaining, totalRatio, ratios, maximums, values, i);
      result := result + [values[i] - distributed];
      remaining := remaining - distributed;
      if totalRatio > 0 { totalRatio := totalRatio - ratios[i]; }
    }
    AllTaken(total, ratios, maximums, values, result, remaining, totalRatio);
  }

  lemma ReducedFrom(remaining: int, totalRatio: int, ratios: seq<int>, maximums: seq<int>, values: seq<int>, i: nat)
    requires i < |ratios| == |maximums| == |values|
    ensures var d := TakenFrom(ratios[i], remaining, totalRatio, maximums[i]);
      Reduced(remaining, totalRatio, ratios[i..], maximums[i..], values[i..])
      == [values[i] - d]
         + Reduced(remaining - d, if totalRatio > 0 then totalRatio - ratios[i] else totalRatio,
                   ratios[i + 1..], maximums[i + 1..], values[i + 1..])
  {
    hide TakenFrom;
    assert ratios[i..][1..] == ratios[i + 1..] && maximums[i..][1..] == maximums[i + 1..];
    assert values[i..][1..] == values[i + 1..];
  }

  lemma TakeNext(total: int, ratios: seq<int>, maximums: seq<int>, values: seq<int>, before: seq<int>,
                 remaining: int, totalRatio: int)
    requires |ratios| == |maximums| == |values| && |before| < |ratios|
    requires forall i | 0 <= i < |ratios| && maximums[i] == 0 :: ratios[i] == 0
    ensures var i := |before|;
      var d := TakenFrom(ratios[i], remaining, totalRatio, maximums[i]);
      Plain(total, ratios, maximums) && Taken(total, ratios, maximums, values, before, remaining, totalRatio) ==>
        Taken(total, ratios, maximums, values, before + [values[i] - d], remaining - d,
              if totalRatio > 0 then totalRatio - ratios[i] else totalRatio)
  {
    if Plain(total, ratios, maximums) && Taken(total, ratios, maximums, values, before, remaining, totalRatio) {
      hide Taken, RoundHalfEven;
      var i := |before|;
      RatioLeft(total, ratios, maximums, values, before, remaining, totalRatio);
      TakenFits(ratios[i], remaining, totalRatio, maximums[i]);
      TakeOne(total, ratios, maximums, values, before, remaining, totalRatio,
              TakenFrom(ratios[i], remaining, totalRatio, maximums[i]));
    }
  }

  lemma TakenAll(total: int, ratios: seq<int>, maximums: seq<int>, values: seq<int>, result: seq<int>)
    requires |ratios| == |maximums| == |values| == |result|
    requires exists remaining :: Taken(total, ratios, maximums, values, result, remaining, 0)
    ensures forall i | 0 <= i < |values| :: 0 <= values[i] - result[i] <= if ratios[i] == 0 then 0 else maximums[i]
    ensures Sum(values) - Sum(result) <= total
    ensures Sum(values) - Sum(result) == total || Capped(values, result, maximums)
  {
    hide Capped;
    assert values[..|values|] == values;
  }

  lemma NothingTaken(total: int, ratios: seq<int>, maximums: seq<int>, values: seq<int>)
    requires |ratios| == |maximums| == |values| && Sum(ratios) != 0
    ensures Plain(total, ratios, maximums) ==> Taken(total, ratios, maximums, values, [], total, Sum(ratios))
    ensures var none: seq<int> := [];
      && none + Reduced(total, Sum(ratios), ratios[0..], maximums[0..], values[0..])
         == Reduced(total, Sum(ratios), ratios, maximums, values)
  {
    assert ratios[0..] == ratios && maximums[0..] == maximums && values[0..] == values;
  }

  lemma AllTaken(total: int, ratios: seq<int>, maximums: seq<int>, values: seq<int>, result: seq<int>,
                 remaining: int, totalRatio: int)
    requires |ratios| == |maximums| == |values| == |result|
    ensures Taken(total, ratios, maximums, values, result, remaining, totalRatio) ==> totalRatio == 0
    ensures var n := |ratios|;
      result + Reduced(remaining, totalRatio, ratios[n..], maximums[n..], values[n..]) == result
  {
    assert ratios[..|ratios|] == ratios;
  }

  lemma RatioLeft(total: int, ratios: seq<int>, maximums: seq<int>, values: seq<int>, result: seq<int>,
                  remaining: int, totalRatio: int)
    requires |ratios| == |maximums| == |values| && NonNegative(ratios) && |result| < |ratios|
    requires Taken(total, ratios, maximums, values, result, remaining, totalRatio)
    ensures 0 <= ratios[|result|] <= totalRatio && 0 <= remaining
  {
    SumBounds(ratios, |result| + 1);
    SumPrefix(ratios, |result|);
  }

  lemma TakenFits(ratio: int, remaining: int, totalRatio: int, maximum: int)
    requires 0 <= ratio <= totalRatio && 0 <= remaining && 0 <= maximum && (maximum == 0 ==> ratio == 0)
    ensures var d := TakenFrom(ratio, remaining, totalRatio, maximum);
      && 0 <= d <= remaining && d <= (if ratio == 0 then 0 else maximum)
      && (0 < ratio == totalRatio ==> d == remaining || 0 < d == maximum)
  {
    if ratio != 0 { RoundedShareFits(ratio, remaining, totalRatio); }
  }

  lemma TakeOne(total: int, ratios: seq<int>, maximums: seq<int>, values: seq<int>, before: seq<int>,
                remaining: int, totalRatio: int, d: int)
    requires |ratios| == |maximums| == |values| && |before| < |ratios|
    requires Taken(total, ratios, maximums, values, before, remaining, totalRatio)
    requires var i := |before|;
      && 0 <= d <= remaining && 0 <= ratios[i] <= totalRatio
      && d <= (if ratios[i] == 0 then 0 else maximums[i])
      && (0 < ratios[i] == totalRatio ==> d == remaining || 0 < d == maximums[i])
    ensures var i := |before|;
      Taken(total, ratios, maximums, values, before + [values[i] - d], remaining - d, totalRatio - ratios[i])
  {
    var i := |before|;
    var after := before + [values[i] - d];
    SumPrefix(ratios, i);
    SumPrefix(values, i);
    SumSnoc(before, values[i] - d);
    StillCapped(values, before, after, maximums);
  }

  lemma StillCapped(values: seq<int>, before: seq<int>, after: seq<int>, maximums: seq<int>)
    requires |before| < |after| && after[..|before|] == before
    ensures Capped(values, before, maximums) ==> Capped(values, after, maximums)
    ensures |before| < |values| && |before| < |maximums| && 0 < maximums[|before|] == values[|before|] - after[|before|]
      ==> Capped(values, after, maximums)
  {
    if Capped(values, before, maximums) {
      var i :| 0 <= i < |before| && i < |values| && i < |maximums| && 0 < maximums[i] == values[i] - before[i];
      assert after[i] == before[i];
    }
  }

  // ----- the collapse

  function Max(s: seq<int>): (m: int)
    requires s != []
    ensures m in s && forall x | x in s :: x <= m
  {
    if |s| == 1 then s[0]
    else
      var m := Max(s[..|s| - 1]);
      assert forall x | x in s :: x in s[..|s| - 1] || x == s[|s| - 1];
      if m < s[|s| - 1] then s[|s| - 1] else m
  }

  /** The greatest entry other than the maximum, 0 if there is none. */
  method SecondMax(s: seq<int>, max: int) returns (second: int)
    ensures 0 <= second && (second == 0 || (second in s && second != max))
    ensures forall x | x in s && x != max :: x <= second
  {
    second := 0;
    for i := 0 to |s|
      invariant 0 <= second && (second == 0 || (second in s && second != max))
      invariant forall k | 0 <= k < i && s[k] != max :: s[k] <= second
    {
      if s[i] != max && second < s[i] { second := s[i]; }
    }
  }

  ghost predicate Below(widths: seq<int>, natural: seq<int>) {
    |widths| == |natural| && forall i | 0 <= i < |widths| :: 0 <= widths[i] <= natural[i]
  }

  lemma AllTake(ratios: seq<int>, maximums: seq<int>)
    requires |maximums| == |ratios| && forall i | 0 <= i < |ratios| :: maximums[i] != 0
    ensures Taking(ratios, maximums) == ratios
  {
  }

  /** One round: the widest columns lose something, at most the excess, and never fall
      below the next width. There always is a widest column wider than the rest, so the
      round never gives up early. */
  method CollapseRound(widths: seq<int>, excess: int) returns (narrowed: seq<int>)
    requires NonNegative(widths) && 0 < excess && 0 < Sum(widths)
    ensures |narrowed| == |widths| && NonNegative(narrowed)
    ensures forall i | 0 <= i < |widths| :: narrowed[i] <= widths[i]
    ensures Sum(widths) - excess <= Sum(narrowed) < Sum(widths)
    ensures forall i | 0 <= i < |widths| && narrowed[i] != widths[i] ::
      widths[i] == Max(widths) && forall x | x in widths && x != widths[i] :: x <= narrowed[i]
  {
    hide Reduced, TakenFrom, Taking;
    var maxCol := Max(widths);
    var second := SecondMax(widths, maxCol);
    var diff := maxCol - second;
    SomePositive(widths);
    assert second < maxCol;
    var ratios := seq(|widths|, i requires 0 <= i < |widths| => if widths[i] == maxCol then 1 else 0);
    var cap := if diff < excess then diff else excess;
    var caps := seq(|widths|, i => cap);
    AllTake(ratios, caps);
    var m :| 0 <= m < |widths| && widths[m] == maxCol;
    SumAtLeast(ratios, m);
    narrowed := RatioReduce(excess, ratios, caps, widths);
    Narrower(narrowed, widths);
  }

  lemma {:induction false} SomePositive(s: seq<int>)
    requires NonNegative(s) && Sum(s) > 0
    ensures s != [] && Max(s) > 0
  {
    if s[|s| - 1] == 0 { SomePositive(s[..|s| - 1]); }
    assert s[|s| - 1] in s;
    assert forall x | x in s[..|s| - 1] :: x in s;
  }

  /** Pointwise smaller lists have smaller sums, strictly if somewhere strictly. */
  lemma {:induction false} Narrower(a: seq<int>, b: seq<int>)
    requires |a| == |b| && forall i | 0 <= i < |a| :: a[i] <= b[i]
    ensures Sum(a) <= Sum(b)
    ensures (exists i :: 0 <= i < |a| && a[i] < b[i]) ==> Sum(a) < Sum(b)
  {
    if a != [] { Narrower(a[..|a| - 1], b[..|b| - 1]); }
  }

  /** Narrows the widest columns until the sum is the limit, or nothing is left. */
  method Collapse(natural: seq<int>, maxWidth: int) returns (widths: seq<int>)
    requires NonNegative(natural) && maxWidth < Sum(natural)
    ensures Below(widths, natural)
    ensures Sum(widths) == if maxWidth < 0 then 0 else maxWidth
  {
    widths := natural;
    SumBounds(natural, 0);
    var total := Sum(widths);
    var excess := total - maxWidth;
    while total > 0 && excess > 0
      invariant Below(widths, natural) && total == Sum(widths) && excess == total - maxWidth
      invariant excess >= 0 && total >= 0
      decreases total
    {
      SomePositive(widths);
      widths := CollapseRound(widths, excess);
      SumBounds(widths, 0);
      total := Sum(widths);
      excess := total - maxWidth;
    }
  }

  // ----- the layout

  const CELL_PADDING := 2

  /** A table's texts; styles do not enter the layout. */
  datatype Table = Table(headers: seq<string>, rows: seq<seq<string>>, showHeader: bool, minWidth: int)

  /** Every row has a cell for every column. */
  ghost predicate Rectangular(t: Table) {
    t.headers != [] && forall row | row in t.rows :: |row| == |t.headers|
  }

  function Wider(a: nat, b: nat): nat { if a < b then b else a }

  function Longest(lines: seq<string>): nat {
    if lines == [] then 0 else Wider(|lines[0]|, Longest(lines[1..]))
  }

  function TextWidth(x: string): nat { Longest(HardLines(x)) }

  function RowsWidth(rows: seq<seq<string>>, c: nat): nat
    requires forall row | row in rows :: c < |row|
  {
    if rows == [] then 0
    else Wider(RowsWidth(rows[..|rows| - 1], c), TextWidth(rows[|rows| - 1][c]))
  }

  /** The widest line of the column, plus padding. */
  function NaturalWidth(t: Table, c: nat): int
    requires Rectangular(t) && c < |t.headers|
  {
    CELL_PADDING + Wider(if t.showHeader then TextWidth(t.headers[c]) else 0, RowsWidth(t.rows, c))
  }

  /** At its natural width a column fits every line of every cell. */
  lemma {:induction false} NaturalFits(rows: seq<seq<string>>, c: nat, row: seq<string>, line: string)
    requires forall r | r in rows :: c < |r|
    requires row in rows && line in HardLines(row[c])
    ensures |line| <= RowsWidth(rows, c)
  {
    var last := rows[|rows| - 1];
    if row == last {
      LongestFits(HardLines(row[c]), line);
    } else {
      assert row in rows[..|rows| - 1];
      NaturalFits(rows[..|rows| - 1], c, row, line);
    }
  }

  lemma {:induction false} LongestFits(lines: seq<string>, line: string)
    requires line in lines
    ensures |line| <= Longest(lines)
  {
    if line != lines[0] { LongestFits(lines[1..], line); }
  }

  lemma WidthFrom(s: string, start: nat, stop: nat)
    requires start <= stop <= |s| && (stop < |s| ==> s[stop] == '\n')
    requires forall k | start <= k < stop :: s[k] != '\n'
    ensures TextWidth(s[start..]) ==
      if stop == |s| then stop - start else Wider(stop - start, TextWidth(s[stop + 1..]))
  {
    HardLinesFrom(s, start, stop);
    LongestCons(s[start..stop], if stop == |s| then [] else HardLines(s[stop + 1..]));
    assert [s[start..stop]] + [] == [s[start..stop]];
  }

  lemma LongestCons(line: string, rest: seq<string>)
    ensures Longest([line] + rest) == Wider(|line|, Longest(rest))
  {
    assert ([line] + rest)[1..] == rest;
  }

  method LongestLine(cell: string) returns (best: nat)
    ensures best == TextWidth(cell)
  {
    best := 0;
    var start := 0;
    assert cell[0..] == cell;
    while start <= |cell|
      invariant 0 <= start <= |cell| && Wider(best, TextWidth(cell[start..])) == TextWidth(cell)
      decreases |cell| - start
    {
      var stop := FindNewline(cell, start);
      WidthFrom(cell, start, stop);
      best := Wider(best, stop - start);
      if stop == |cell| { return; }
      start := stop + 1;
    }
  }

  method MeasureColumn(t: Table, c: nat) returns (width: int)
    requires Rectangular(t) && c < |t.headers|
    ensures width == NaturalWidth(t, c)
  {
    var measured: nat := 0;
    if t.showHeader { measured := LongestLine(t.headers[c]); }
    ghost var header := measured;
    for i := 0 to |t.rows|
      invariant forall row | row in t.rows[..i] :: c < |row|
      invariant measured == Wider(header, RowsWidth(t.rows[..i], c))
    {
      assert t.rows[i] in t.rows;
      assert t.rows[..i + 1][..i] == t.rows[..i];
      var longest := LongestLine(t.rows[i][c]);
      measured := Wider(measured, longest);
    }
    assert t.rows[..|t.rows|] == t.rows;
    width := measured + CELL_PADDING;
  }


  /** The sum before padding out to the minimum width. */
  function Budgeted(natural: int, maxWidth: int): int {
    if natural <= maxWidth then natural else if maxWidth < 0 then 0 else maxWidth
  }

  lemma {:induction false} SumPlus(a: seq<int>, b: seq<int>, both: seq<int>)
    requires |a| == |b| == |both| && forall i | 0 <= i < |a| :: both[i] == a[i] + b[i]
    ensures Sum(both) == Sum(a) + Sum(b)
  {
    if a != [] { SumPlus(a[..|a| - 1], b[..|b| - 1], both[..|both| - 1]); }
  }

  /** Widens the columns in proportion, as far as the limit allows. */
  method PadToMinimum(floor: int, wanted: bool, maxWidth: int, widths: seq<int>) returns (padded: seq<int>)
    requires widths != [] && NonNegative(widths) && (Sum(widths) <= maxWidth || Sum(widths) == 0)
    ensures |padded| == |widths|
    ensures Sum(padded) == if wanted && Sum(widths) < floor then Min(floor, maxWidth) else Sum(widths)
    ensures Sum(widths) <= maxWidth ==> forall c | 0 <= c < |widths| :: widths[c] <= padded[c]
    ensures Sum(widths) == maxWidth ==> padded == widths
  {
    padded := widths;
    if wanted && Sum(widths) < floor {
      var target := Min(floor, maxWidth);
      var pad := RatioDistribute(target - Sum(widths), widths);
      if target == Sum(widths) { SumZero(pad); }
      if Sum(widths) == 0 { SumZero(widths); }
      padded := seq(|widths|, c requires 0 <= c < |widths| => widths[c] + pad[c]);
      SumPlus(widths, pad, padded);
    }
  }

  method MeasureColumns(t: Table) returns (widths: seq<int>)
    requires Rectangular(t)
    ensures |widths| == |t.headers| && NonNegative(widths)
    ensures forall c | 0 <= c < |widths| :: widths[c] == NaturalWidth(t, c)
  {
    widths := [];
    for c := 0 to |t.headers|
      invariant |widths| == c
      invariant forall k | 0 <= k < c :: widths[k] == NaturalWidth(t, k)
    {
      var width := MeasureColumn(t, c);
      widths := widths + [width];
    }
  }

  /** Cuts the columns down to the budget when they exceed it. */
  method FitBudget(natural: seq<int>, maxWidth: int) returns (widths: seq<int>)
    requires natural != [] && NonNegative(natural)
    ensures Below(widths, natural) && Sum(widths) == Budgeted(Sum(natural), maxWidth)
    ensures Sum(natural) <= maxWidth ==> widths == natural
  {
    widths := natural;
    if Sum(widths) > maxWidth {
      widths := Collapse(widths, maxWidth);
      if Sum(widths) > maxWidth {
        // only when the limit is negative, and then nothing is left to take
        SumZero(widths);
        var ones := seq(|widths|, i => 1);
        widths := RatioReduce(Sum(widths) - maxWidth, ones, widths, widths);
        AllZero(widths);
      }
    }
  }

  lemma {:induction false} AllZero(s: seq<int>)
    requires forall i | 0 <= i < |s| :: s[i] == 0
    ensures Sum(s) == 0
  {
    if s != [] { AllZero(s[..|s| - 1]); }
  }

  /** The layout is exact: the natural sum, cut to the budget, then raised to the minimum
      width as far as the budget allows. Cutting only narrows, padding only widens. */
  method ComputeColumnWidths(t: Table, availableWidth: int) returns (widths: seq<int>, ghost natural: seq<int>)
    requires Rectangular(t)
    ensures |widths| == |natural| == |t.headers|
    ensures forall c | 0 <= c < |natural| :: natural[c] == NaturalWidth(t, c)
    ensures var extra := 2 + |t.headers| - 1;
      var maxWidth := availableWidth - extra;
      var base := Budgeted(Sum(natural), maxWidth);
      Sum(widths) == if t.minWidth != 0 && base < t.minWidth - extra then Min(t.minWidth - extra, maxWidth) else base
    ensures var maxWidth := availableWidth - (2 + |t.headers| - 1);
      && (Sum(natural) <= maxWidth ==> forall c | 0 <= c < |natural| :: natural[c] <= widths[c])
      && (Sum(natural) > maxWidth >= 0 ==> forall c | 0 <= c < |natural| :: 0 <= widths[c] <= natural[c])
  {
    var extra := 2 + |t.headers| - 1;
    var maxWidth := availableWidth - extra;
    widths := MeasureColumns(t);
    natural := widths;
    widths := FitBudget(widths, maxWidth);
    widths := PadToMinimum(t.minWidth - extra, t.minWidth != 0, maxWidth, widths);
  }
}
