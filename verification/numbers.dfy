/**
 * Decimal number parsing, standing in for `new Double(String)` and
 * `Double.parseDouble`. The accepted language is the plain decimal subset of
 * Java's floating-point literal syntax: surrounding characters up to U+0020
 * are trimmed, then an optional sign, digits, and an optional `.` followed by
 * digits, with at least one digit in all. `None` means the text is not a number
 * (Java throws `NumberFormatException`).
 */
module Numbers {
  import opened Wrappers

  predicate IsDigit(c: char) { '0' <= c <= '9' }

  predicate AllDigits(s: string)
  {
    forall i :: 0 <= i < |s| ==> IsDigit(s[i])
  }

  function DigitValue(c: char): nat
    requires IsDigit(c)
  {
    (c as int) - ('0' as int)
  }

  function DigitChar(d: nat): (c: char)
    requires d < 10
    ensures IsDigit(c) && DigitValue(c) == d
  {
    (('0' as int) + d) as char
  }

  /** The value of a string of decimal digits, most significant first; "" is 0. */
  function DigitsValue(s: string): nat
    requires AllDigits(s)
    decreases |s|
  {
    if |s| == 0 then 0 else DigitsValue(s[..|s| - 1]) * 10 + DigitValue(s[|s| - 1])
  }

  /** The value of the digits after a decimal point: "25" is 0.25. */
  function FractionValue(s: string): (v: real)
    requires AllDigits(s)
    ensures 0.0 <= v < 1.0
    decreases |s|
  {
    if |s| == 0 then 0.0 else (DigitValue(s[0]) as real + FractionValue(s[1..])) / 10.0
  }

  /** Characters `String.trim` removes: every code point up to the space. */
  predicate IsTrimmed(c: char) { c <= ' ' }

  function TrimStart(s: string): (r: string)
    ensures |r| <= |s| && r == s[|s| - |r|..]
    ensures |r| > 0 ==> !IsTrimmed(r[0])
    decreases |s|
  {
    if |s| > 0 && IsTrimmed(s[0]) then TrimStart(s[1..]) else s
  }

  function TrimEnd(s: string): (r: string)
    ensures r <= s
    ensures |r| > 0 ==> !IsTrimmed(r[|r| - 1])
    decreases |s|
  {
    if |s| > 0 && IsTrimmed(s[|s| - 1]) then TrimEnd(s[..|s| - 1]) else s
  }

  function Trim(s: string): string
  {
    TrimEnd(TrimStart(s))
  }

  /** Position of the first `c` in `s`, or `|s|` when there is none. */
  function IndexOf(s: string, c: char): (k: nat)
    ensures k <= |s|
    ensures forall j :: 0 <= j < k ==> s[j] != c
    ensures k < |s| ==> s[k] == c
    decreases |s|
  {
    if |s| == 0 then 0 else if s[0] == c then 0 else 1 + IndexOf(s[1..], c)
  }

  /** The digits before and after the point, one digit at least. */
  function DecimalValue(whole: string, frac: string): (r: Option<real>)
    ensures r.Some? ==> r.value >= 0.0
  {
    if AllDigits(whole) && AllDigits(frac) && |whole| + |frac| > 0 then
      Some(DigitsValue(whole) as real + FractionValue(frac))
    else None
  }

  /** An unsigned decimal: digits, optionally a point and more digits. */
  function ParseUnsigned(body: string): (r: Option<real>)
    ensures r.Some? ==> r.value >= 0.0
  {
    var k := IndexOf(body, '.');
    DecimalValue(body[..k], if k < |body| then body[k + 1..] else "")
  }

  /** The number a text denotes, or `None` when it is not a decimal literal. */
  function ParseNumber(s: string): (r: Option<real>)
    ensures r.Some? && r.value < 0.0 ==> |Trim(s)| > 0 && Trim(s)[0] == '-'
  {
    ParseSigned(Trim(s))
  }

  /** A trimmed text: an optional sign, then an unsigned decimal. */
  function ParseSigned(t: string): (r: Option<real>)
    ensures r.Some? && r.value < 0.0 ==> |t| > 0 && t[0] == '-'
  {
    if |t| > 0 && t[0] == '-' then
      match ParseUnsigned(t[1..])
      case Some(v) => Some(-v)
      case None => None
    else if |t| > 0 && t[0] == '+' then ParseUnsigned(t[1..])
    else ParseUnsigned(t)
  }

  // ---------------------------------------------------------------------------
  // The accepted language, stated as a grammar
  // ---------------------------------------------------------------------------

  /** Digits and at most one point, with at least one digit: `1`, `1.`, `.5`, `1.5`. */
  predicate IsUnsignedLiteral(t: string)
  {
    && (forall i :: 0 <= i < |t| ==> IsDigit(t[i]) || t[i] == '.')
    && (forall i, j :: 0 <= i < j < |t| && t[i] == '.' ==> t[j] != '.')
    && (exists i :: 0 <= i < |t| && IsDigit(t[i]))
  }

  /** An optional sign followed by an unsigned literal. */
  predicate IsDecimalLiteral(t: string)
  {
    if |t| > 0 && (t[0] == '-' || t[0] == '+') then IsUnsignedLiteral(t[1..]) else IsUnsignedLiteral(t)
  }

  /** Digits before position `k`, a point at `k` when it is inside `t`, digits after it. */
  predicate PointAt(t: string, k: nat)
  {
    && k <= |t|
    && (forall i :: 0 <= i < k ==> IsDigit(t[i]))
    && (k < |t| ==> t[k] == '.' && forall i :: k < i < |t| ==> IsDigit(t[i]))
  }

  /** A text of that shape with a digit on either side of the point is a literal. */
  lemma LiteralFromPoint(t: string, k: nat)
    requires PointAt(t, k) && (k > 0 || k + 1 < |t|)
    ensures IsUnsignedLiteral(t)
  {
    var d := if k > 0 then 0 else k + 1;
    assert IsDigit(t[d]);
  }

  /** In a literal, the first point splits it into digits on both sides, one digit at least. */
  lemma PointFromLiteral(t: string)
    requires IsUnsignedLiteral(t)
    ensures PointAt(t, IndexOf(t, '.'))
    ensures IndexOf(t, '.') > 0 || IndexOf(t, '.') + 1 < |t|
  {
    var k := IndexOf(t, '.');
    var d :| 0 <= d < |t| && IsDigit(t[d]);
    assert d != k;
  }

  /** `PointAt` in terms of the two digit runs around the point. */
  lemma PointAtParts(t: string, k: nat)
    requires k <= |t| && (k < |t| ==> t[k] == '.')
    ensures PointAt(t, k) <==> AllDigits(t[..k]) && (k < |t| ==> AllDigits(t[k + 1..]))
  {
    assert forall i :: 0 <= i < k ==> t[..k][i] == t[i];
    assert k < |t| ==> forall i :: k < i < |t| ==> t[k + 1..][i - k - 1] == t[i];
  }

  /** The unsigned parser succeeds exactly when the first point splits the text into digits. */
  lemma ParseUnsignedPoint(t: string)
    ensures ParseUnsigned(t).Some? <==>
      PointAt(t, IndexOf(t, '.')) && (IndexOf(t, '.') > 0 || IndexOf(t, '.') + 1 < |t|)
  {
    var k := IndexOf(t, '.');
    PointAtParts(t, k);
    var frac := if k < |t| then t[k + 1..] else "";
    assert ParseUnsigned(t) == DecimalValue(t[..k], frac);
    assert |t[..k]| + |frac| > 0 <==> k > 0 || k + 1 < |t|;
  }

  /** The unsigned parser accepts exactly the unsigned literals. */
  lemma ParseUnsignedAccepts(t: string)
    ensures ParseUnsigned(t).Some? <==> IsUnsignedLiteral(t)
  {
    ParseUnsignedPoint(t);
    if ParseUnsigned(t).Some? {
      LiteralFromPoint(t, IndexOf(t, '.'));
    }
    if IsUnsignedLiteral(t) {
      PointFromLiteral(t);
    }
  }

  /** The parser accepts exactly the texts that are decimal literals once trimmed. */
  lemma ParseNumberAccepts(s: string)
    ensures ParseNumber(s).Some? <==> IsDecimalLiteral(Trim(s))
  {
    var t := Trim(s);
    ParseUnsignedAccepts(if |t| > 0 && (t[0] == '-' || t[0] == '+') then t[1..] else t);
  }

  // ---------------------------------------------------------------------------
  // Formatting, the partner of parsing
  // ---------------------------------------------------------------------------

  /** The decimal digits of a natural number, without leading zeros. */
  function NatToString(n: nat): (s: string)
    ensures |s| > 0 && AllDigits(s)
  {
    if n < 10 then [DigitChar(n)] else NatToString(n / 10) + [DigitChar(n % 10)]
  }

  lemma {:induction false} DigitsValueOfNatToString(n: nat)
    ensures DigitsValue(NatToString(n)) == n
  {
    var s := NatToString(n);
    if n >= 10 {
      DigitsValueOfNatToString(n / 10);
      assert s[..|s| - 1] == NatToString(n / 10);
    }
  }

  /** Trimming leaves a text alone when its first and last characters are not blank. */
  lemma TrimUnblank(s: string)
    requires |s| > 0 && !IsTrimmed(s[0]) && !IsTrimmed(s[|s| - 1])
    ensures Trim(s) == s
  {
    assert TrimStart(s) == s;
    assert TrimEnd(s) == s;
  }

  /** A digit string without a point parses as its digit value. */
  lemma ParseDigits(s: string)
    requires |s| > 0 && AllDigits(s)
    ensures ParseUnsigned(s) == Some(DigitsValue(s) as real)
  {
    var k := IndexOf(s, '.');
    assert k == |s|;
    assert s[..k] == s;
    assert FractionValue("") == 0.0;
  }

  /** Round trip: every natural number, written out, parses back to itself. */
  lemma ParseNatToString(n: nat)
    ensures ParseNumber(NatToString(n)) == Some(n as real)
  {
    var s := NatToString(n);
    assert IsDigit(s[0]) && IsDigit(s[|s| - 1]);
    ParseNumberUnsigned(s);
    ParseDigits(s);
    DigitsValueOfNatToString(n);
  }

  /** Round trip for negative whole numbers. */
  lemma ParseNegatedNatToString(n: nat)
    ensures ParseNumber("-" + NatToString(n)) == Some(-(n as real))
  {
    var s := NatToString(n);
    var t := "-" + s;
    assert IsDigit(s[|s| - 1]) && t[|t| - 1] == s[|s| - 1];
    TrimUnblank(t);
    assert t[1..] == s;
    ParseDigits(s);
    DigitsValueOfNatToString(n);
  }

  /** The first point of `whole + "." + frac` sits right after `whole`. */
  lemma PointAfterWhole(whole: string, frac: string)
    requires AllDigits(whole)
    ensures IndexOf(whole + "." + frac, '.') == |whole|
  {
    var s := whole + "." + frac;
    assert forall j :: 0 <= j < |whole| ==> s[j] == whole[j];
    assert s[|whole|] == '.';
  }

  /** A text with no blank ends that starts with a digit parses as an unsigned decimal. */
  lemma ParseNumberUnsigned(s: string)
    requires |s| > 0 && IsDigit(s[0]) && !IsTrimmed(s[|s| - 1])
    ensures ParseNumber(s) == ParseUnsigned(s)
  {
    TrimUnblank(s);
    assert s[0] != '-' && s[0] != '+';
  }

  /** The parts on either side of the first point are what an unsigned decimal is made of. */
  lemma ParseUnsignedAt(s: string, whole: string, frac: string)
    requires s == whole + "." + frac
    requires IndexOf(s, '.') == |whole|
    ensures ParseUnsigned(s) == DecimalValue(whole, frac)
  {
    var k := |whole|;
    assert s[..k] == whole && s[k + 1..] == frac;
  }

  lemma DecimalValueOf(whole: string, frac: string)
    requires AllDigits(whole) && AllDigits(frac) && |whole| + |frac| > 0
    ensures DecimalValue(whole, frac) == Some(DigitsValue(whole) as real + FractionValue(frac))
  {
  }

  /** A whole part, a point and a fraction part are read as exactly those two parts. */
  lemma ParseDecimalParts(whole: string, frac: string)
    requires AllDigits(whole) && |whole| > 0
    requires |frac| > 0 && !IsTrimmed(frac[|frac| - 1])
    ensures ParseNumber(whole + "." + frac) == DecimalValue(whole, frac)
  {
    var s := whole + "." + frac;
    assert s[0] == whole[0] && s[|s| - 1] == frac[|frac| - 1];
    ParseNumberUnsigned(s);
    PointAfterWhole(whole, frac);
    ParseUnsignedAt(s, whole, frac);
  }

  /** A whole part, a point and a fraction part parse to the decimal they spell. */
  lemma ParseFraction(whole: string, frac: string)
    requires AllDigits(whole) && AllDigits(frac)
    requires |whole| > 0 && |frac| > 0
    ensures ParseNumber(whole + "." + frac)
         == Some(DigitsValue(whole) as real + FractionValue(frac))
  {
    assert IsDigit(frac[|frac| - 1]);
    ParseDecimalParts(whole, frac);
    DecimalValueOf(whole, frac);
  }
}
