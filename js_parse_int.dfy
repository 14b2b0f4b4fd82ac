/** ECMAScript's global `parseInt(string)` called without a radix, as the
    redirect transform uses it on status strings. NaN is `None`. */
module JsParseInt {
  import opened Wrappers
  import opened JsText

  /** The length of the run of white space that `s` starts with. */
  function LeadingWhiteSpace(s: string): (n: nat)
    ensures n <= |s|
    ensures forall k :: 0 <= k < n ==> IsWhiteSpace(s[k])
    ensures n < |s| ==> !IsWhiteSpace(s[n])
  {
    if s == [] || !IsWhiteSpace(s[0]) then 0 else 1 + LeadingWhiteSpace(s[1..])
  }

  /** The length of the run of radix digits that `s` starts with. */
  function DigitRun(s: string, radix: nat): (n: nat)
    ensures n <= |s|
    ensures forall k :: 0 <= k < n ==> IsRadixDigit(s[k], radix)
    ensures n < |s| ==> !IsRadixDigit(s[n], radix)
  {
    if s == [] || !IsRadixDigit(s[0], radix) then 0 else 1 + DigitRun(s[1..], radix)
  }

  predicate HasHexPrefix(u: string) {
    |u| >= 2 && u[0] == '0' && (u[1] == 'x' || u[1] == 'X')
  }

  /** The digits after the sign: with no radix given, a `0x` or `0X` prefix
      selects radix 16 and anything else radix 10; then the longest run of
      digits is read. No digit at all is NaN. */
  function ReadMagnitude(u: string): (m: Option<nat>)
    ensures m.Some? ==> |u| > 0 && IsDecimalDigit(u[0])
  {
    var hex := HasHexPrefix(u);
    var radix := if hex then 16 else 10;
    var v := if hex then u[2..] else u;
    var z := v[..DigitRun(v, radix)];
    if z == [] then None
    else
      assert !hex ==> z[0] == u[0];
      Some(DigitsValue(z, radix))
  }

  /** Read an optional sign, then the magnitude. */
  function ParseSigned(t: string): (r: Option<int>)
    ensures (forall k :: 0 <= k < |t| ==> !IsDecimalDigit(t[k])) ==> r.None?
  {
    var negative := |t| > 0 && t[0] == '-';
    var signed := |t| > 0 && (t[0] == '-' || t[0] == '+');
    var u := if signed then t[1..] else t;
    match ReadMagnitude(u)
    case None => None
    case Some(m) =>
      assert u[0] == t[if signed then 1 else 0];
      var value: int := m;
      Some(if negative then -value else value)
  }

  /** Skip white space, then read a signed magnitude. */
  function ParseInt(s: string): (r: Option<int>)
    ensures (forall k :: 0 <= k < |s| ==> !IsDecimalDigit(s[k])) ==> r.None?
  {
    var w := LeadingWhiteSpace(s);
    assert forall k :: 0 <= k < |s| - w ==> s[w..][k] == s[w + k];
    ParseSigned(s[w..])
  }

  /** The text that may follow a decimal numeral without changing what parseInt
      reads: nothing, or a character that neither continues the digits nor,
      after a lone `0`, turns it into a hex prefix. */
  predicate EndsNumeral(n: nat, t: string) {
    |t| == 0 || (!IsDecimalDigit(t[0]) && (n != 0 || (t[0] != 'x' && t[0] != 'X')))
  }

  /** A decimal numeral followed by such text is read back as the number. */
  lemma ReadMagnitudeOfDecimal(n: nat, t: string)
    requires EndsNumeral(n, t)
    ensures ReadMagnitude(DecimalString(n) + t) == Some(n)
  {
    var d := DecimalString(n);
    var u := d + t;
    assert !HasHexPrefix(u) by {
      if |d| == 1 {
        assert |t| > 0 ==> u[1] == t[0];
      } else {
        assert u[0] == d[0] != '0';
      }
    }
    DigitRunOfPrefix(d, t);
    assert u[..|d|] == d;
    DecimalStringValue(n);
  }

  /** parseInt skips leading white space and applies a minus sign to the magnitude. */
  lemma ParseIntSkipsSpaceAndSign(w: string, negative: bool, u: string)
    requires forall k :: 0 <= k < |w| ==> IsWhiteSpace(w[k])
    requires ReadMagnitude(u).Some?
    ensures var m: int := ReadMagnitude(u).value;
            ParseInt(w + (if negative then "-" else "") + u) == Some(if negative then -m else m)
  {
    var sign: string := if negative then ['-'] else [];
    var rest := sign + u;
    var s := w + rest;
    assert w + (if negative then "-" else "") + u == s;
    LeadingWhiteSpaceOfPrefix(w, rest);
    assert s[|w|..] == rest;
    ParseSignedOfMagnitude(negative, u);
  }

  lemma ParseSignedOfMagnitude(negative: bool, u: string)
    requires ReadMagnitude(u).Some?
    ensures var m: int := ReadMagnitude(u).value;
            ParseSigned((if negative then ['-'] else []) + u) == Some(if negative then -m else m)
  {
    if negative {
      ParseSignedOfMinus(u);
    } else {
      assert [] + u == u;
      ParseSignedOfUnsigned(u);
    }
  }

  lemma ParseSignedOfMinus(u: string)
    requires ReadMagnitude(u).Some?
    ensures var m: int := ReadMagnitude(u).value;
            ParseSigned(['-'] + u) == Some(-m)
  {
    var t := ['-'] + u;
    assert t[1..] == u;
  }

  lemma ParseSignedOfUnsigned(u: string)
    requires ReadMagnitude(u).Some?
    ensures ParseSigned(u) == Some(ReadMagnitude(u).value)
  {
  }

  /** parseInt reads back the decimal numeral of `n`, after any white space and an
      optional minus sign, whatever non-digit text follows. */
  lemma ParseIntReadsDecimal(w: string, negative: bool, n: nat, t: string)
    requires forall k :: 0 <= k < |w| ==> IsWhiteSpace(w[k])
    requires EndsNumeral(n, t)
    ensures var v: int := n;
            ParseInt(w + (if negative then "-" else "") + DecimalString(n) + t) == Some(if negative then -v else v)
  {
    var d := DecimalString(n);
    var u := d + t;
    ReadMagnitudeOfDecimal(n, t);
    assert ReadMagnitude(u) == Some(n);
    ParseIntSkipsSpaceAndSign(w, negative, u);
    Regroup(w, if negative then "-" else "", d, t);
  }

  lemma {:induction false} LeadingWhiteSpaceOfPrefix(w: string, rest: string)
    requires forall k :: 0 <= k < |w| ==> IsWhiteSpace(w[k])
    requires |rest| > 0 && !IsWhiteSpace(rest[0])
    ensures LeadingWhiteSpace(w + rest) == |w|
  {
    if w != [] {
      assert (w + rest)[1..] == w[1..] + rest;
      LeadingWhiteSpaceOfPrefix(w[1..], rest);
    } else {
      assert w + rest == rest;
    }
  }

  lemma {:induction false} DigitRunOfPrefix(d: string, t: string)
    requires forall k :: 0 <= k < |d| ==> IsDecimalDigit(d[k])
    requires |t| == 0 || !IsDecimalDigit(t[0])
    ensures DigitRun(d + t, 10) == |d|
  {
    if d != [] {
      assert (d + t)[1..] == d[1..] + t;
      DigitRunOfPrefix(d[1..], t);
    } else {
      assert d + t == t;
    }
  }

  /** parseInt of the decimal numeral of `n` is `n`. */
  lemma ParseIntOfDecimalString(n: nat)
    ensures ParseInt(DecimalString(n)) == Some(n)
  {
    var d := DecimalString(n);
    ReadMagnitudeOfDecimal(n, "");
    assert d + "" == d;
    ParseIntSkipsSpaceAndSign("", false, d);
    assert "" + "" + d == d;
  }

  lemma Regroup(a: string, b: string, c: string, d: string)
    ensures a + b + c + d == a + b + (c + d)
  {
  }

  /** Text without a digit is NaN. */
  lemma ParseIntNaN()
    ensures ParseInt("") == None
    ensures ParseInt("permanent") == None
  {
    var s := "permanent";
    assert forall k :: 0 <= k < |s| ==> !IsDecimalDigit(s[k]) by {
      forall k | 0 <= k < |s| ensures !IsDecimalDigit(s[k]) {
        assert s[k] in {'p', 'e', 'r', 'm', 'a', 'n', 't'};
      }
    }
  }
}
