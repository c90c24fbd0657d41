/**
 Rescaling the integer literals of the gas schedule: digit grouping with
 underscores, and the rewriting of one literal by a rational multiplier.
 */
module GasMultiplier {
  // ---- Decimal strings ----

  predicate IsDigit(c: char) {
    '0' <= c <= '9'
  }

  predicate AllDigits(s: string) {
    forall i :: 0 <= i < |s| ==> IsDigit(s[i])
  }

  function Str(n: nat): (s: string)
    ensures s != "" && AllDigits(s)
  {
    var last := ['0' + (n % 10) as char];
    if n < 10 then last else Str(n / 10) + last
  }

  function Value(s: string): nat
    requires AllDigits(s)
  {
    if s == "" then 0 else Value(s[..|s| - 1]) * 10 + (s[|s| - 1] - '0') as nat
  }

  lemma {:induction false} ValueOfStr(n: nat)
    ensures Value(Str(n)) == n
  {
    if n >= 10 {
      ValueOfStr(n / 10);
      assert Str(n)[..|Str(n)| - 1] == Str(n / 10);
    }
  }

  /** Decimal strings are written without leading zeros, and every such string is that of its value. */
  lemma {:induction false} StrOfValue(s: string)
    requires AllDigits(s) && s != "" && (|s| > 1 ==> s[0] != '0')
    ensures Str(Value(s)) == s && (|s| > 1 ==> Value(s) > 0)
  {
    var n := |s| - 1;
    if n > 0 {
      StrOfValue(s[..n]);
      assert Value(s[..n]) > 0;
      assert Value(s) / 10 == Value(s[..n]) && Value(s) % 10 == (s[n] - '0') as nat;
      assert s == s[..n] + [s[n]];
    } else {
      assert s[..0] == "";
    }
  }

  lemma {:induction false} NoLeadingZero(n: nat)
    ensures |Str(n)| > 1 ==> Str(n)[0] != '0'
    ensures n > 0 ==> Str(n)[0] != '0'
  {
    if n >= 10 {
      NoLeadingZero(n / 10);
    }
  }

  lemma {:induction false} LongerForGreater(a: nat, b: nat)
    requires a <= b
    ensures |Str(a)| <= |Str(b)|
  {
    if a >= 10 {
      LongerForGreater(a / 10, b / 10);
    }
  }

  function Strip(s: string): (r: string) {
    if s == "" then "" else Strip(s[..|s| - 1]) + if s[|s| - 1] == '_' then "" else [s[|s| - 1]]
  }

  lemma {:induction false} StripConcat(a: string, b: string)
    ensures Strip(a + b) == Strip(a) + Strip(b)
  {
    if b == "" {
      assert a + b == a;
    } else {
      var n := |b| - 1;
      StripConcat(a, b[..n]);
      assert (a + b)[..|a| + n] == a + b[..n] && (a + b)[|a| + n] == b[n];
    }
  }

  lemma {:induction false} StripDigits(s: string)
    requires AllDigits(s)
    ensures Strip(s) == s && '_' !in s
  {
    if s != "" {
      var n := |s| - 1;
      StripDigits(s[..n]);
      assert IsDigit(s[n]) && s == s[..n] + [s[n]];
    }
  }

  // ---- Grouping ----

  /** Groups of g characters from the right, joined by underscores. */
  function Grouped(s: string, g: nat): string
    requires g > 0
  {
    if |s| <= g then s else Grouped(s[..|s| - g], g) + "_" + s[|s| - g..]
  }

  function Format(value: nat, underscores: bool, g: nat): string
    requires g > 0
  {
    if underscores then Grouped(Str(value), g) else Str(value)
  }

  /** Chunks collected from the right, joined from the last one collected. */
  function JoinReversed(chunks: seq<string>): string
    requires chunks != []
  {
    var n := |chunks| - 1;
    if n == 0 then chunks[0] else chunks[n] + "_" + JoinReversed(chunks[..n])
  }

  method FormatInt(value: nat, underscores: bool, g: nat) returns (r: string)
    requires g > 0
    ensures r == Format(value, underscores, g)
  {
    var s := Str(value);
    if !underscores || |s| <= g {
      return s;
    }
    var chunks := [];
    ghost var whole := Grouped(s, g);
    while s != ""
      invariant chunks != [] || s != ""
      invariant whole == if chunks == [] then Grouped(s, g) else if s == "" then JoinReversed(chunks)
        else Grouped(s, g) + "_" + JoinReversed(chunks)
      decreases |s|
    {
      var cut := if |s| <= g then 0 else |s| - g;
      ghost var before := chunks;
      chunks := chunks + [s[cut..]];
      assert chunks[..|before|] == before;
      if before != [] {
        JoinNext(Grouped(s[..cut], g), s[cut..], JoinReversed(before));
      }
      s := s[..cut];
    }
    return JoinReversed(chunks);
  }

  lemma JoinNext(a: string, b: string, c: string)
    ensures (a + "_" + b) + "_" + c == a + "_" + (b + "_" + c)
  {
  }

  /** Taking the underscores out again gives the digits back. */
  lemma {:induction false} StripGrouped(s: string, g: nat)
    requires g > 0 && AllDigits(s)
    ensures Strip(Grouped(s, g)) == s
  {
    if |s| <= g {
      StripDigits(s);
    } else {
      var k := |s| - g;
      SplitOff(s, k);
      StripGrouped(s[..k], g);
      StripDigits(s[k..]);
      StripJoin(Grouped(s[..k], g), s[k..]);
    }
  }

  lemma StripJoin(a: string, b: string)
    ensures Strip(a + "_" + b) == Strip(a) + Strip(b)
  {
    StripConcat(a + "_", b);
    assert (a + "_")[..|a|] == a;
  }

  lemma SplitOff(s: string, k: nat)
    requires AllDigits(s) && k <= |s|
    ensures AllDigits(s[..k]) && AllDigits(s[k..]) && s[..k] + s[k..] == s
  {
  }

  /** There is an underscore exactly when there is more than one group. */
  lemma UnderscoreWhenLong(s: string, g: nat)
    requires g > 0 && AllDigits(s)
    ensures '_' in Grouped(s, g) <==> |s| > g
  {
    if |s| <= g {
      StripDigits(s);
    } else {
      assert Grouped(s, g)[|Grouped(s[..|s| - g], g)|] == '_';
    }
  }

  /** A formatted integer reads back as itself. */
  lemma FormatRoundTrip(value: nat, underscores: bool, g: nat)
    requires g > 0
    ensures var digits := Strip(Format(value, underscores, g));
      AllDigits(digits) && Value(digits) == value
  {
    StripGrouped(Str(value), g);
    StripDigits(Str(value));
    ValueOfStr(value);
  }

  /** The text between underscores. */
  function Split(s: string): (r: seq<string>)
    ensures r != []
  {
    if s == "" then [""]
    else
      var n := |s| - 1;
      var before := Split(s[..n]);
      if s[n] == '_' then before + [""] else before[..|before| - 1] + [before[|before| - 1] + [s[n]]]
  }

  lemma {:induction false} SplitAppend(a: string, b: string)
    requires '_' !in b
    ensures Split(a + "_" + b) == Split(a) + [b]
  {
    if b == "" {
      assert (a + "_" + b)[..|a|] == a;
    } else {
      var n := |b| - 1;
      SplitAppend(a, b[..n]);
      assert (a + "_" + b)[..|a| + 1 + n] == a + "_" + b[..n];
      assert b[..n] + [b[n]] == b;
    }
  }

  lemma {:induction false} SplitDigits(s: string)
    requires '_' !in s
    ensures Split(s) == [s]
  {
    if s != "" {
      SplitDigits(s[..|s| - 1]);
      assert s[..|s| - 1] + [s[|s| - 1]] == s;
    }
  }

  /** Every group but the leftmost has exactly g digits, and the leftmost has between one and g. */
  lemma {:induction false} GroupSizes(s: string, g: nat)
    requires g > 0 && AllDigits(s) && s != ""
    ensures var groups := Split(Grouped(s, g));
      && 1 <= |groups[0]| <= g
      && forall i :: 0 < i < |groups| ==> |groups[i]| == g
  {
    if |s| <= g {
      StripDigits(s);
      SplitDigits(s);
    } else {
      var head, tail := s[..|s| - g], s[|s| - g..];
      GroupSizes(head, g);
      StripDigits(tail);
      SplitAppend(Grouped(head, g), tail);
      assert Split(Grouped(s, g)) == Split(Grouped(head, g)) + [tail];
    }
  }

  // ---- Rewriting a literal ----

  /** Digits and underscores, starting with a digit. */
  predicate IsLiteral(s: string) {
    s != "" && IsDigit(s[0]) && forall i :: 0 <= i < |s| ==> IsDigit(s[i]) || s[i] == '_'
  }

  lemma {:induction false} StripLiteral(s: string)
    requires forall i :: 0 <= i < |s| ==> IsDigit(s[i]) || s[i] == '_'
    ensures AllDigits(Strip(s))
  {
    if s != "" {
      StripLiteral(s[..|s| - 1]);
    }
  }

  function LiteralValue(s: string): nat
    requires IsLiteral(s)
  {
    StripLiteral(s);
    Value(Strip(s))
  }

  /** Groups of four for plain fees, of three for everything else. */
  function GroupSize(ty: string): (g: nat)
    ensures g > 0
  {
    if ty == "Fee" then 4 else 3
  }

  /** The multiple, rounded down. */
  function Scale(value: nat, num: nat, den: nat): (r: nat)
    requires den > 0
    ensures r * den <= value * num < r * den + den
  {
    value * num / den
  }

  function Rewrite(ty: string, literal: string, num: nat, den: nat): string
    requires IsLiteral(literal) && den > 0
  {
    Replace(ty, literal, Scale(LiteralValue(literal), num, den))
  }

  /** The literal for another value, in the style of the old one; the old one itself for the same value. */
  function Replace(ty: string, literal: string, value: nat): string
    requires IsLiteral(literal)
  {
    if value == LiteralValue(literal) then literal else Format(value, '_' in literal, GroupSize(ty))
  }

  lemma ReplaceIs(ty: string, literal: string, value: nat)
    requires IsLiteral(literal)
    ensures IsLiteral(Replace(ty, literal, value)) && LiteralValue(Replace(ty, literal, value)) == value
  {
    FormatIsLiteral(value, '_' in literal, GroupSize(ty));
  }

  lemma {:induction false} GroupedIsLiteral(s: string, g: nat)
    requires g > 0 && AllDigits(s) && s != ""
    ensures IsLiteral(Grouped(s, g))
  {
    if |s| > g {
      GroupedIsLiteral(s[..|s| - g], g);
    }
  }

  /** A rewritten literal is a literal of the scaled value, rounded down. */
  lemma RewriteScales(ty: string, literal: string, num: nat, den: nat)
    requires IsLiteral(literal) && den > 0
    ensures IsLiteral(Rewrite(ty, literal, num, den))
    ensures LiteralValue(Rewrite(ty, literal, num, den)) == Scale(LiteralValue(literal), num, den)
  {
    ReplaceIs(ty, literal, Scale(LiteralValue(literal), num, den));
  }

  /**
   A literal whose value does not change stays as it is written; otherwise the new one
   has underscores only if the old one had, and then in groups of four digits for fees
   and of three for everything else.
   */
  lemma RewriteStyle(ty: string, literal: string, num: nat, den: nat)
    requires IsLiteral(literal) && den > 0
    ensures var now, scaled := Rewrite(ty, literal, num, den), Scale(LiteralValue(literal), num, den);
      var g := if ty == "Fee" then 4 else 3;
      if scaled == LiteralValue(literal) then now == literal
      else
        && ('_' in now <==> '_' in literal && |Str(scaled)| > g)
        && ('_' in now ==>
             && 1 <= |Split(now)[0]| <= g
             && forall i :: 0 < i < |Split(now)| ==> |Split(now)[i]| == g)
  {
    var scaled := Scale(LiteralValue(literal), num, den);
    StyleOf(scaled, '_' in literal, GroupSize(ty));
  }

  lemma StyleOf(value: nat, underscores: bool, g: nat)
    requires g > 0
    ensures var s := Format(value, underscores, g);
      && ('_' in s <==> underscores && |Str(value)| > g)
      && ('_' in s ==>
           && 1 <= |Split(s)[0]| <= g
           && forall i :: 0 < i < |Split(s)| ==> |Split(s)[i]| == g)
  {
    UnderscoreWhenLong(Str(value), g);
    StripDigits(Str(value));
    GroupSizes(Str(value), g);
  }

  lemma FormatIsLiteral(value: nat, underscores: bool, g: nat)
    requires g > 0
    ensures IsLiteral(Format(value, underscores, g)) && LiteralValue(Format(value, underscores, g)) == value
  {
    GroupedIsLiteral(Str(value), g);
    FormatRoundTrip(value, underscores, g);
  }

  lemma TimesThenOver(v: nat, n: nat)
    requires n > 0
    ensures Scale(v * n, 1, n) == v
  {
    var q := Scale(v * n, 1, n);
    assert 0 <= (v - q) * n < n;
    if v != q {
      FactorApart(v - q, n);
    }
  }

  lemma FactorApart(d: int, n: nat)
    requires d != 0 && n > 0
    ensures d * n >= n || d * n + n <= 0
  {
    if d > 0 {
      assert (d - 1) * n >= 0;
    } else {
      assert (-d - 1) * n >= 0;
    }
  }

  lemma Grows(v: nat, n: nat)
    requires v > 0 && n > 1
    ensures v * n > v
  {
  }

  /** Reformatting the scaled value keeps the choice of underscores as far as it matters to the original. */
  lemma FormatAgain(v: nat, w: nat, underscores: bool, g: nat)
    requires v <= w && g > 0
    ensures Format(v, '_' in Format(w, underscores, g), g) == Format(v, underscores, g)
  {
    UnderscoreWhenLong(Str(w), g);
    StripDigits(Str(w));
    LongerForGreater(v, w);
  }

  lemma ScaledBack(ty: string, literal: string, n: nat)
    requires IsLiteral(literal) && LiteralValue(literal) > 0 && n > 1
    ensures IsLiteral(Rewrite(ty, literal, n, 1))
    ensures Rewrite(ty, Rewrite(ty, literal, n, 1), 1, n) ==
      Format(LiteralValue(literal), '_' in literal, GroupSize(ty))
  {
    var v, w := LiteralValue(literal), LiteralValue(literal) * n;
    RewriteScales(ty, literal, n, 1);
    Grows(v, n);
    TimesThenOver(v, n);
    FormatAgain(v, w, '_' in literal, GroupSize(ty));
  }

  lemma NothingScaled(ty: string, literal: string, n: nat)
    requires IsLiteral(literal) && n > 0 && (LiteralValue(literal) == 0 || n == 1)
    ensures Rewrite(ty, literal, n, 1) == literal == Rewrite(ty, literal, 1, n)
  {
    var v := LiteralValue(literal);
    if v == 0 {
      assert v * n == 0 && v * 1 == 0;
    }
    assert v * n / 1 == v && v * 1 / n == v;
  }

  /**
   Scaling by n and back by 1/n restores the literal's value, and its text if and only
   if nothing was scaled or the literal was grouped as the formatter groups it.
   */
  lemma ScaleAndBack(ty: string, literal: string, n: nat)
    requires IsLiteral(literal) && n > 0
    ensures var there := Rewrite(ty, literal, n, 1);
      && IsLiteral(there) && IsLiteral(Rewrite(ty, there, 1, n))
      && LiteralValue(Rewrite(ty, there, 1, n)) == LiteralValue(literal)
    ensures var v := LiteralValue(literal);
      Rewrite(ty, Rewrite(ty, literal, n, 1), 1, n) == literal <==>
      v == 0 || n == 1 || literal == Format(v, '_' in literal, GroupSize(ty))
  {
    RewriteScales(ty, literal, n, 1);
    RewriteScales(ty, Rewrite(ty, literal, n, 1), 1, n);
    TimesThenOver(LiteralValue(literal), n);
    if LiteralValue(literal) == 0 || n == 1 {
      NothingScaled(ty, literal, n);
    } else {
      ScaledBack(ty, literal, n);
    }
  }

  /** An underscore in a literal that is shorter than two groups does not survive. */
  lemma ShortGroupingIsLost(ty: string, literal: string, n: nat)
    requires IsLiteral(literal) && '_' in literal && 0 < LiteralValue(literal) < 1000 && n > 1
    ensures IsLiteral(Rewrite(ty, literal, n, 1)) && Rewrite(ty, Rewrite(ty, literal, n, 1), 1, n) != literal
  {
    var v := LiteralValue(literal);
    ScaleAndBack(ty, literal, n);
    UnderscoreWhenLong(Str(v), GroupSize(ty));
    ThreeDigits(v);
  }

  lemma ThreeDigits(v: nat)
    requires v < 1000
    ensures |Str(v)| <= 3
  {
    if v >= 100 {
      assert |Str(v / 10 / 10)| == 1;
    }
  }

  lemma SmallLiteral(literal: string)
    requires literal == "1_0"
    ensures IsLiteral(literal) && '_' in literal && LiteralValue(literal) == 10
  {
    assert literal[1] == '_' && literal[..2] == "1_" && literal[..2][..1] == "1";
    assert Strip(literal[..2][..1]) == "1";
    assert Strip(literal[..2]) == "1";
    assert Strip(literal) == "10" && "10"[..1] == "1";
    assert Value("1") == 1;
  }

  lemma UnusualGroupingIsLost(literal: string)
    requires literal == "1_0"
    ensures IsLiteral(literal) && IsLiteral(Rewrite("Gas", literal, 2, 1))
    ensures Rewrite("Gas", Rewrite("Gas", literal, 2, 1), 1, 2) != literal
  {
    SmallLiteral(literal);
    ShortGroupingIsLost("Gas", literal, 2);
  }
}
