/** The stat counters' text parser and formatter (`parseNumber` and
    `formatNumber` in `src/components/stats/animations.ts`). A stat such as
    `$2.3K` is split into a prefix, a numeral and a suffix; the suffix picks a
    multiplier. Numbers are exact reals rather than floating point. */
module StatNumbers {
  import opened Wrappers
  import opened JsText

  datatype ParsedNumber = ParsedNumber(value: real, prefix: string, suffix: string, decimals: nat)

  /** The three capture groups of a match. */
  datatype Split = Split(prefix: string, numeral: string, suffix: string)

  predicate NoWhiteSpace(s: string) {
    forall k :: 0 <= k < |s| ==> !IsWhiteSpace(s[k])
  }

  /** `text.replace(/\s/g, "")`. */
  function RemoveWhiteSpace(s: string): (r: string)
    ensures NoWhiteSpace(r)
  {
    if s == [] then [] else (if IsWhiteSpace(s[0]) then [] else [s[0]]) + RemoveWhiteSpace(s[1..])
  }

  /** A single character is dropped exactly when it is white space. */
  lemma RemoveWhiteSpaceOfChar(c: char)
    ensures RemoveWhiteSpace([c]) == if IsWhiteSpace(c) then [] else [c]
  {
    assert [c][1..] == [];
  }

  /** The replacement is global: each part of the text is cleaned on its own. */
  lemma {:induction false} RemoveWhiteSpaceAppend(a: string, b: string)
    ensures RemoveWhiteSpace(a + b) == RemoveWhiteSpace(a) + RemoveWhiteSpace(b)
  {
    if a == [] {
      assert a + b == b;
    } else {
      var ab := a + b;
      assert ab[0] == a[0] && ab[1..] == a[1..] + b;
      RemoveWhiteSpaceAppend(a[1..], b);
    }
  }

  /** Text that has no white space is left as it is. */
  lemma {:induction false} RemoveWhiteSpaceKeepsClean(s: string)
    requires NoWhiteSpace(s)
    ensures RemoveWhiteSpace(s) == s
  {
    if s != [] {
      RemoveWhiteSpaceKeepsClean(s[1..]);
    }
  }

  // ---------------------------------------------------------------------------
  // The pattern ^([^\d\.]*)(\d*\.?\d+)([^\d\.]*)$
  // ---------------------------------------------------------------------------

  predicate IsDigitOrDot(c: char) {
    IsDecimalDigit(c) || c == '.'
  }

  /** `[^\d\.]*`. */
  predicate NoDigitOrDot(s: string) {
    forall k :: 0 <= k < |s| ==> !IsDigitOrDot(s[k])
  }

  /** `\d*\.?\d+`: digits with at most one `.` (none after the first), ending
      in a digit. */
  predicate IsNumeral(s: string)
    ensures IsNumeral(s) ==> IndexOf(s, '.') == |s| || IndexOf(s, '.') + 1 < |s|
  {
    |s| > 0 && IsDecimalDigit(s[|s| - 1])
    && (forall k :: 0 <= k < |s| ==> IsDigitOrDot(s[k]))
    && (IndexOf(s, '.') == |s| || '.' !in s[IndexOf(s, '.') + 1..])
  }

  /** The first index at or after `i` whose character is (when `inNumber` is
      false) or is not (when it is true) a digit or a dot. */
  function RunEnd(s: string, i: nat, inNumber: bool): (j: nat)
    requires i <= |s|
    ensures i <= j <= |s|
    ensures forall k :: i <= k < j ==> IsDigitOrDot(s[k]) == inNumber
    ensures j < |s| ==> IsDigitOrDot(s[j]) != inNumber
    decreases |s| - i
  {
    if i == |s| || IsDigitOrDot(s[i]) != inNumber then i else RunEnd(s, i + 1, inNumber)
  }

  /** The pattern matches `c` with the numeral at `c[p..m]`. */
  ghost predicate MatchesAt(c: string, p: nat, m: nat) {
    p <= m <= |c| && NoDigitOrDot(c[..p]) && IsNumeral(c[p..m]) && NoDigitOrDot(c[m..])
  }

  /** The match, if any: the prefix is the longest run without digits and dots,
      the numeral the run of digits and dots after it, the suffix the rest. */
  function SplitStat(c: string): (r: Option<Split>)
    ensures r.Some? ==> c == r.value.prefix + r.value.numeral + r.value.suffix
    ensures r.Some? ==> IsNumeral(r.value.numeral)
  {
    var p := RunEnd(c, 0, false);
    var m := RunEnd(c, p, true);
    if IsNumeral(c[p..m]) && NoDigitOrDot(c[m..]) then
      assert c == c[..p] + c[p..m] + c[m..];
      Some(Split(c[..p], c[p..m], c[m..]))
    else None
  }

  /** Every match of the pattern is the one SplitStat finds: the split is fixed. */
  lemma SplitIsUnique(c: string, p: nat, m: nat)
    requires MatchesAt(c, p, m)
    ensures SplitStat(c) == Some(Split(c[..p], c[p..m], c[m..]))
  {
    assert forall k :: 0 <= k < p ==> !IsDigitOrDot(c[k]) by {
      forall k | 0 <= k < p ensures !IsDigitOrDot(c[k]) {
        assert c[..p][k] == c[k];
      }
    }
    assert IsDigitOrDot(c[p]) by {
      assert c[p..m][0] == c[p];
    }
    assert RunEnd(c, 0, false) == p;
    assert forall k :: p <= k < m ==> IsDigitOrDot(c[k]) by {
      forall k | p <= k < m ensures IsDigitOrDot(c[k]) {
        assert c[p..m][k - p] == c[k];
      }
    }
    assert m < |c| ==> !IsDigitOrDot(c[m]) by {
      if m < |c| {
        assert c[m..][0] == c[m];
      }
    }
    assert RunEnd(c, p, true) == m;
  }

  /** SplitStat finds a split exactly when the pattern matches. */
  lemma SplitStatIsPattern(c: string)
    ensures SplitStat(c).Some? <==> exists p: nat, m: nat :: MatchesAt(c, p, m)
  {
    var p := RunEnd(c, 0, false);
    var m := RunEnd(c, p, true);
    if SplitStat(c).Some? {
      assert NoDigitOrDot(c[..p]) by {
        forall k | 0 <= k < p ensures !IsDigitOrDot(c[..p][k]) {
          assert c[..p][k] == c[k];
        }
      }
      assert MatchesAt(c, p, m);
    }
    forall p': nat, m': nat | MatchesAt(c, p', m') ensures SplitStat(c).Some? {
      SplitIsUnique(c, p', m');
    }
  }

  // ---------------------------------------------------------------------------
  // Value, decimals and multiplier
  // ---------------------------------------------------------------------------

  predicate AllDigits(s: string) {
    forall k :: 0 <= k < |s| ==> IsDecimalDigit(s[k])
  }

  /** The digits before the dot (all of them when there is no dot). */
  function IntegerPart(s: string): string {
    s[..IndexOf(s, '.')]
  }

  /** The digits after the dot (none when there is no dot). */
  function FractionPart(s: string): string {
    var i := IndexOf(s, '.');
    if i == |s| then "" else s[i + 1..]
  }

  /** With a dot, the length of the text between the first dot and the next one
      (or the end); with none, 0. */
  function Decimals(s: string): (d: nat)
    ensures IndexOf(s, '.') == |s| ==> d == 0
    ensures var i := IndexOf(s, '.');
            i < |s| ==> i + 1 + d <= |s| && (forall k :: i < k <= i + d ==> s[k] != '.')
                        && (i + 1 + d == |s| || s[i + 1 + d] == '.')
  {
    var i := IndexOf(s, '.');
    if i == |s| then 0 else IndexOf(s[i + 1..], '.')
  }

  /** Both parts of a numeral are digit strings, and `decimals` counts the
      fraction digits. */
  lemma NumeralDigits(s: string)
    requires IsNumeral(s)
    ensures AllDigits(IntegerPart(s)) && AllDigits(FractionPart(s))
    ensures Decimals(s) == |FractionPart(s)|
  {
    var i := IndexOf(s, '.');
    var a, f := IntegerPart(s), FractionPart(s);
    assert forall k :: 0 <= k < |a| ==> a[k] == s[k];
    if i < |s| {
      assert forall k :: 0 <= k < |f| ==> f[k] == s[i + 1 + k];
    }
  }

  /** Without its dot, a numeral is its integer digits then its fraction digits. */
  lemma NumeralJoin(s: string)
    requires IsNumeral(s)
    ensures Without(s, '.') == IntegerPart(s) + FractionPart(s)
  {
    var i := IndexOf(s, '.');
    if i == |s| {
      assert IntegerPart(s) == s;
      WithoutAbsent(s, '.');
    } else {
      WithoutOnlyDot(s, i);
    }
  }

  /** `Number.parseFloat(numberStr)` on a numeral, computed exactly: the integer
      digits plus the fraction digits over `10^(number of fraction digits)`. */
  function NumeralValue(s: string): (v: real)
    requires IsNumeral(s)
    ensures v >= 0.0
  {
    NumeralDigits(s);
    var a, f := IntegerPart(s), FractionPart(s);
    DigitsValue(a, 10) as real + DigitsValue(f, 10) as real / Pow10(|f|) as real
  }

  /** Removing the only dot joins the digits around it. */
  lemma WithoutOnlyDot(s: string, i: nat)
    requires i < |s| && s[i] == '.' && '.' !in s[..i] && '.' !in s[i + 1..]
    ensures Without(s, '.') == s[..i] + s[i + 1..]
  {
    assert s == s[..i] + [s[i]] + s[i + 1..];
    WithoutOne(s[..i], '.', s[i + 1..]);
  }

  lemma AllDigitsAppend(a: string, b: string)
    requires AllDigits(a) && AllDigits(b)
    ensures AllDigits(a + b)
  {
    assert forall k :: 0 <= k < |a + b| ==> (a + b)[k] == (if k < |a| then a[k] else b[k - |a|]);
  }

  lemma CastSum(x: int, q: int, y: int)
    ensures (x * q + y) as real == x as real * q as real + y as real
  {
  }

  lemma ShiftFraction(x: real, y: real, q: real)
    requires q > 0.0
    ensures (x * q + y) / q == x + y / q
  {
    calc {
      (x * q + y) / q;
      x * q / q + y / q;
      x + y / q;
    }
  }

  /** `w = x * q + y` scaled down by `q` is `x + y / q`. */
  lemma ScaleDown(w: nat, x: nat, q: nat, y: nat)
    requires w == x * q + y && q > 0
    ensures w as real / q as real == x as real + y as real / q as real
  {
    calc {
      w as real / q as real;
      (x * q + y) as real / q as real;
      { CastSum(x, q, y); }
      (x as real * q as real + y as real) / q as real;
      { ShiftFraction(x as real, y as real, q as real); }
      x as real + y as real / q as real;
    }
  }

  /** Integer digits `a` and fraction digits `f` read as one integer and scaled
      down by `10^|f|` give `a` plus `f` over `10^|f|`. */
  lemma ScaledJoin(a: string, f: string)
    requires AllDigits(a) && AllDigits(f)
    ensures AllDigits(a + f)
    ensures DigitsValue(a + f, 10) as real / Pow10(|f|) as real
            == DigitsValue(a, 10) as real + DigitsValue(f, 10) as real / Pow10(|f|) as real
  {
    AllDigitsAppend(a, f);
    DigitsValueAppend(a, f);
    ScaleDown(DigitsValue(a + f, 10), DigitsValue(a, 10), Pow10(|f|), DigitsValue(f, 10));
  }

  /** A numeral's value is its digits, read as one integer, scaled down by
      `10^decimals`. */
  lemma NumeralValueIsScaledDigits(s: string)
    requires IsNumeral(s)
    ensures AllDigits(Without(s, '.'))
    ensures NumeralValue(s) == DigitsValue(Without(s, '.'), 10) as real / Pow10(Decimals(s)) as real
  {
    NumeralDigits(s);
    NumeralJoin(s);
    ScaledJoin(IntegerPart(s), FractionPart(s));
  }

  predicate IsK(c: char) {
    c == 'k' || c == 'K' || c == '\U{212A}'  // KELVIN SIGN lower-cases to `k`
  }

  predicate IsM(c: char) {
    c == 'm' || c == 'M'
  }

  predicate IsB(c: char) {
    c == 'b' || c == 'B'
  }

  /** The lower-cased suffix contains `k` (likewise `m` and `b`). */
  predicate HasK(s: string) {
    exists k :: 0 <= k < |s| && IsK(s[k])
  }

  predicate HasM(s: string) {
    exists k :: 0 <= k < |s| && IsM(s[k])
  }

  predicate HasB(s: string) {
    exists k :: 0 <= k < |s| && IsB(s[k])
  }

  /** The multiplier a suffix selects; `k` is tested before `m`, and `m` before `b`. */
  function Multiplier(suffix: string): (r: real)
    ensures HasK(suffix) ==> r == 1000.0
    ensures !HasK(suffix) && HasM(suffix) ==> r == 1000000.0
    ensures !HasK(suffix) && !HasM(suffix) && HasB(suffix) ==> r == 1000000000.0
    ensures !HasK(suffix) && !HasM(suffix) && !HasB(suffix) ==> r == 1.0
  {
    if HasK(suffix) then 1000.0
    else if HasM(suffix) then 1000000.0
    else if HasB(suffix) then 1000000000.0
    else 1.0
  }

  /** `value * multiplier`, the multiplier chosen by the suffix. */
  function Scaled(value: real, suffix: string): (r: real)
    requires value >= 0.0
    ensures r >= value
  {
    value * Multiplier(suffix)
  }

  // ---------------------------------------------------------------------------
  // parseNumber
  // ---------------------------------------------------------------------------

  function ParseNumber(text: string): (r: ParsedNumber)
    ensures r.value >= 0.0
    ensures SplitStat(RemoveWhiteSpace(text)).None? ==> r == ParsedNumber(0.0, "", text, 0)
  {
    match SplitStat(RemoveWhiteSpace(text))
    case None => ParsedNumber(0.0, "", text, 0)
    case Some(sp) =>
      ParsedNumber(Scaled(NumeralValue(sp.numeral), sp.suffix), sp.prefix, sp.suffix, Decimals(sp.numeral))
  }

  /** When the pattern matches, with the numeral at `c[p..m]` of the text `c`
      stripped of white space, the stat is that numeral's value times the
      suffix's multiplier, with the groups around it as prefix and suffix. */
  lemma ParseNumberOfMatch(text: string, p: nat, m: nat)
    requires MatchesAt(RemoveWhiteSpace(text), p, m)
    ensures var c := RemoveWhiteSpace(text);
            ParseNumber(text)
            == ParsedNumber(Scaled(NumeralValue(c[p..m]), c[m..]), c[..p], c[m..], Decimals(c[p..m]))
    ensures var c := RemoveWhiteSpace(text); SplitStat(c) == Some(Split(c[..p], c[p..m], c[m..]))
  {
    var c := RemoveWhiteSpace(text);
    SplitIsUnique(c, p, m);
    var sp := Split(c[..p], c[p..m], c[m..]);
    assert SplitStat(c) == Some(sp);
  }

  /** When the pattern does not match, the stat is 0 with the original text as
      its suffix. */
  lemma ParseNumberOfNoMatch(text: string)
    requires forall p: nat, m: nat :: !MatchesAt(RemoveWhiteSpace(text), p, m)
    ensures ParseNumber(text) == ParsedNumber(0.0, "", text, 0)
  {
    SplitStatIsPattern(RemoveWhiteSpace(text));
  }

  /** A parsed stat's prefix and suffix hold no white space, digits or dots. */
  lemma ParsedFieldsAreClean(text: string)
    requires SplitStat(RemoveWhiteSpace(text)).Some?
    ensures var r := ParseNumber(text);
            NoDigitOrDot(r.prefix) && NoDigitOrDot(r.suffix)
            && NoWhiteSpace(r.prefix) && NoWhiteSpace(r.suffix)
  {
    var c := RemoveWhiteSpace(text);
    SplitStatIsPattern(c);
    var p: nat, m: nat :| MatchesAt(c, p, m);
    ParseNumberOfMatch(text, p, m);
    var r := ParseNumber(text);
    assert r.prefix == c[..p] && r.suffix == c[m..];
    GroupsAreClean(c, p, m);
  }

  lemma GroupsAreClean(c: string, p: nat, m: nat)
    requires NoWhiteSpace(c) && MatchesAt(c, p, m)
    ensures NoDigitOrDot(c[..p]) && NoDigitOrDot(c[m..])
    ensures NoWhiteSpace(c[..p]) && NoWhiteSpace(c[m..])
  {
    assert forall k :: 0 <= k < p ==> c[..p][k] == c[k];
    assert forall k :: 0 <= k < |c| - m ==> c[m..][k] == c[m + k];
  }

  /** A run of digits is a numeral with no decimals whose value is the run
      read as an integer. */
  lemma DigitRunIsNumeral(d: string)
    requires |d| > 0 && AllDigits(d)
    ensures IsNumeral(d)
    ensures NumeralValue(d) == DigitsValue(d, 10) as real
    ensures Decimals(d) == 0
  {
    assert IndexOf(d, '.') == |d| by {
      assert '.' !in d by {
        forall k | 0 <= k < |d| ensures d[k] != '.' {
          assert IsDecimalDigit(d[k]);
        }
      }
    }
    assert IntegerPart(d) == d;
    assert FractionPart(d) == [];
    var z: string := [];
    assert DigitsValue(z, 10) == 0;
    assert Pow10(|z|) == 1;
  }

  /** Writing a numeral between a clean prefix and suffix and parsing it back
      gives the numeral's value times the suffix's multiplier, the prefix and
      suffix unchanged, and the numeral's decimals. */
  lemma ParseJoined(prefix: string, numeral: string, suffix: string)
    requires NoDigitOrDot(prefix) && NoDigitOrDot(suffix) && IsNumeral(numeral)
    requires NoWhiteSpace(prefix) && NoWhiteSpace(suffix)
    ensures ParseNumber(prefix + numeral + suffix)
            == ParsedNumber(Scaled(NumeralValue(numeral), suffix), prefix, suffix, Decimals(numeral))
    ensures SplitStat(prefix + numeral + suffix) == Some(Split(prefix, numeral, suffix))
  {
    var c := prefix + numeral + suffix;
    assert NoWhiteSpace(c) by {
      forall k | 0 <= k < |c| ensures !IsWhiteSpace(c[k]) {
        if k < |prefix| { assert c[k] == prefix[k]; }
        else if k < |prefix| + |numeral| { assert c[k] == numeral[k - |prefix|]; }
        else { assert c[k] == suffix[k - |prefix| - |numeral|]; }
      }
    }
    RemoveWhiteSpaceKeepsClean(c);
    var p, m := |prefix|, |prefix| + |numeral|;
    assert c[..p] == prefix;
    assert c[p..m] == numeral;
    assert c[m..] == suffix;
    assert MatchesAt(c, p, m);
    ParseNumberOfMatch(c, p, m);
  }

  /** Writing a whole number between a clean prefix and suffix and parsing it back
      gives the number times the suffix's multiplier, with no decimals. */
  lemma ParseRendered(prefix: string, n: nat, suffix: string)
    requires NoDigitOrDot(prefix) && NoDigitOrDot(suffix)
    requires NoWhiteSpace(prefix) && NoWhiteSpace(suffix)
    ensures ParseNumber(prefix + DecimalString(n) + suffix)
            == ParsedNumber(Scaled(n as real, suffix), prefix, suffix, 0)
  {
    var d := DecimalString(n);
    DigitRunIsNumeral(d);
    DecimalStringValue(n);
    ParseJoined(prefix, d, suffix);
  }

  /** The numeral `2.3` has the value 2.3 and one decimal. */
  lemma TwoPointThree()
    ensures IsNumeral("2.3") && NumeralValue("2.3") == 2.3 && Decimals("2.3") == 1
  {
    var num := "2.3";
    assert IndexOf(num, '.') == 1;
    var a, f := num[..1], num[2..];
    assert a == "2" && f == "3";
    assert IndexOf(f, '.') == 1;
    assert DigitsValue(a, 10) == 2 && DigitsValue(f, 10) == 3 by {
      assert a[..0] == [] && f[..0] == [];
    }
  }

  /** A concrete stat: `$2.3K` is 2300 with prefix `$`, suffix `K` and one
      decimal. */
  lemma ParseThousands()
    ensures ParseNumber("$2.3K") == ParsedNumber(2300.0, "$", "K", 1)
  {
    var pre, num, suf := "$", "2.3", "K";
    assert pre + num + suf == "$2.3K";
    TwoPointThree();
    assert NoDigitOrDot(pre) && NoDigitOrDot(suf) && NoWhiteSpace(pre) && NoWhiteSpace(suf) by {
      assert pre[0] == '$' && suf[0] == 'K';
    }
    ParseJoined(pre, num, suf);
    assert HasK(suf) by { assert IsK(suf[0]); }
  }

  /** Once the pattern has matched, parseNumber sees only the text with its
      white space removed. */
  lemma ParseCleanedText(text: string)
    requires SplitStat(RemoveWhiteSpace(text)).Some?
    ensures ParseNumber(text) == ParseNumber(RemoveWhiteSpace(text))
  {
    RemoveWhiteSpaceKeepsClean(RemoveWhiteSpace(text));
  }

  lemma {:induction false} RemoveAllWhiteSpace(w: string)
    requires forall k :: 0 <= k < |w| ==> IsWhiteSpace(w[k])
    ensures RemoveWhiteSpace(w) == []
  {
    if w != [] {
      RemoveAllWhiteSpace(w[1..]);
    }
  }

  /** Removing the white space around a clean numeral leaves the three groups. */
  lemma CleanSpacedParts(prefix: string, w1: string, numeral: string, w2: string, suffix: string)
    requires NoWhiteSpace(prefix) && NoWhiteSpace(numeral) && NoWhiteSpace(suffix)
    requires forall k :: 0 <= k < |w1| ==> IsWhiteSpace(w1[k])
    requires forall k :: 0 <= k < |w2| ==> IsWhiteSpace(w2[k])
    ensures RemoveWhiteSpace(prefix + w1 + numeral + w2 + suffix) == prefix + numeral + suffix
  {
    var a1 := prefix + w1;
    var a2 := a1 + numeral;
    var a3 := a2 + w2;
    var pn := prefix + numeral;
    RemoveAllWhiteSpace(w1);
    RemoveAllWhiteSpace(w2);
    RemoveWhiteSpaceKeepsClean(prefix);
    RemoveWhiteSpaceKeepsClean(numeral);
    RemoveWhiteSpaceKeepsClean(suffix);
    RemoveWhiteSpaceAppend(prefix, w1);
    assert RemoveWhiteSpace(a1) == prefix by { assert prefix + [] == prefix; }
    RemoveWhiteSpaceAppend(a1, numeral);
    assert RemoveWhiteSpace(a2) == pn;
    RemoveWhiteSpaceAppend(a2, w2);
    assert RemoveWhiteSpace(a3) == pn by { assert pn + [] == pn; }
    RemoveWhiteSpaceAppend(a3, suffix);
  }

  /** White space before and after the numeral is ignored: the stat is the one
      parsed from the text without it. */
  lemma ParseSpaced(prefix: string, w1: string, numeral: string, w2: string, suffix: string)
    requires NoDigitOrDot(prefix) && NoDigitOrDot(suffix) && IsNumeral(numeral)
    requires NoWhiteSpace(prefix) && NoWhiteSpace(suffix)
    requires forall k :: 0 <= k < |w1| ==> IsWhiteSpace(w1[k])
    requires forall k :: 0 <= k < |w2| ==> IsWhiteSpace(w2[k])
    ensures ParseNumber(prefix + w1 + numeral + w2 + suffix)
            == ParsedNumber(Scaled(NumeralValue(numeral), suffix), prefix, suffix, Decimals(numeral))
  {
    var t := prefix + w1 + numeral + w2 + suffix;
    assert NoWhiteSpace(numeral) by {
      forall k | 0 <= k < |numeral| ensures !IsWhiteSpace(numeral[k]) {
        assert IsDigitOrDot(numeral[k]);
      }
    }
    CleanSpacedParts(prefix, w1, numeral, w2, suffix);
    ParseJoined(prefix, numeral, suffix);
    ParseCleanedText(t);
  }

  /** A concrete stat with spaces: `$ 2.3 K` is 2300 with prefix `$`, suffix `K`
      and one decimal, as `$2.3K` is. */
  lemma ParseSpacedThousands()
    ensures ParseNumber("$ 2.3 K") == ParsedNumber(2300.0, "$", "K", 1)
  {
    var pre, sp, num, suf := "$", " ", "2.3", "K";
    assert pre + sp + num + sp + suf == "$ 2.3 K";
    TwoPointThree();
    assert NoDigitOrDot(pre) && NoDigitOrDot(suf) && NoWhiteSpace(pre) && NoWhiteSpace(suf) by {
      assert pre[0] == '$' && suf[0] == 'K';
    }
    assert IsWhiteSpace(sp[0]);
    ParseSpaced(pre, sp, num, sp, suf);
    assert HasK(suf) by { assert IsK(suf[0]); }
  }

  // ---------------------------------------------------------------------------
  // formatNumber
  // ---------------------------------------------------------------------------

  /** The value shown while counting up: divided by 1000 when the suffix has a `k`
      and the value has reached 1000, else by 10^6 for an `m` from 10^6 on, else
      by 10^9 for a `b` from 10^9 on, else as it is. */
  function DisplayValue(current: real, suffix: string): (v: real)
    ensures current < Multiplier(suffix) ==> v == current
    ensures 0.0 <= current ==> 0.0 <= v <= current
  {
    if HasK(suffix) && current >= 1000.0 then current / 1000.0
    else if HasM(suffix) && current >= 1000000.0 then current / 1000000.0
    else if HasB(suffix) && current >= 1000000000.0 then current / 1000000000.0
    else current
  }

  /** The prefix, the shown value rendered by `toFixed(decimals)`, and the
      suffix. The shown value is the current one divided by the multiplier that
      parseNumber applied for this suffix, but only once the current value has
      reached that multiplier. */
  function FormatNumber(current: real, parsed: ParsedNumber, toFixed: (real, nat) -> string): (r: string)
    ensures var mult := Multiplier(parsed.suffix);
            r == parsed.prefix + toFixed(if current >= mult then current / mult else current, parsed.decimals)
                 + parsed.suffix
  {
    DisplayValueScalesDown(current, parsed.suffix);
    parsed.prefix + toFixed(DisplayValue(current, parsed.suffix), parsed.decimals) + parsed.suffix
  }

  /** The three guarded divisions are one division by the suffix's multiplier. */
  lemma DisplayValueScalesDown(current: real, suffix: string)
    ensures var mult := Multiplier(suffix);
            DisplayValue(current, suffix) == if current >= mult then current / mult else current
  {
    if HasK(suffix) {
    } else if HasM(suffix) {
    } else if HasB(suffix) {
    } else {
      assert Multiplier(suffix) == 1.0;
    }
  }

  /** Once the counter reaches a parsed value `n` times the multiplier, it shows
      `n` again exactly when `n` is at least 1, or 0, or there is no multiplier. */
  lemma ShownValue(n: real, suffix: string)
    requires n >= 0.0
    ensures DisplayValue(Scaled(n, suffix), suffix) == n <==> (n >= 1.0 || n == 0.0 || Multiplier(suffix) == 1.0)
  {
    if HasK(suffix) {
      assert Scaled(n, suffix) == n * 1000.0;
    } else if HasM(suffix) {
      assert Scaled(n, suffix) == n * 1000000.0;
    } else if HasB(suffix) {
      assert Scaled(n, suffix) == n * 1000000000.0;
    } else {
      assert Scaled(n, suffix) == n;
    }
  }

  /** At the target value, the counter shows the numeral that was parsed exactly
      when that numeral is at least 1, or 0, or the suffix has no multiplier:
      `0.5K` counts up to 500, shown as `500.0K`. */
  lemma FinalValueShowsNumeral(text: string)
    requires SplitStat(RemoveWhiteSpace(text)).Some?
    ensures var sp := SplitStat(RemoveWhiteSpace(text)).value;
            var n := NumeralValue(sp.numeral);
            var parsed := ParseNumber(text);
            DisplayValue(parsed.value, parsed.suffix) == n
            <==> (n >= 1.0 || n == 0.0 || Multiplier(sp.suffix) == 1.0)
  {
    var sp := SplitStat(RemoveWhiteSpace(text)).value;
    ShownValue(NumeralValue(sp.numeral), sp.suffix);
  }
}
