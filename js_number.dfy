/** parseInt with no radix argument, and the decimal form `${n}` gives an integer. */
module JsNumber {
  import opened Options
  import opened JsText

  predicate IsDecimalDigit(c: char) {
    '0' <= c <= '9'
  }

  predicate IsHexDigit(c: char) {
    IsDecimalDigit(c) || ('a' <= c <= 'f') || ('A' <= c <= 'F')
  }

  /** A digit of radix 16 when hex holds, of radix 10 otherwise. */
  predicate IsRadixDigit(c: char, hex: bool) {
    if hex then IsHexDigit(c) else IsDecimalDigit(c)
  }

  function DigitValue(c: char): (v: nat)
    requires IsHexDigit(c)
    ensures IsDecimalDigit(c) ==> v < 10
    ensures v < 16
  {
    if IsDecimalDigit(c) then c as int - '0' as int
    else if 'a' <= c <= 'f' then c as int - 'a' as int + 10
    else c as int - 'A' as int + 10
  }

  /** The longest prefix of s made of radix digits. */
  function DigitPrefix(s: string, hex: bool): (r: string)
    ensures |r| <= |s| && r == s[..|r|]
    ensures forall i :: 0 <= i < |r| ==> IsRadixDigit(r[i], hex)
    ensures |r| == |s| || !IsRadixDigit(s[|r|], hex)
  {
    if s != [] && IsRadixDigit(s[0], hex) then [s[0]] + DigitPrefix(s[1..], hex) else []
  }

  /** The value of a numeral, most significant digit first. */
  function DigitsValue(ds: string, hex: bool): nat
    requires forall i :: 0 <= i < |ds| ==> IsRadixDigit(ds[i], hex)
  {
    if ds == [] then 0
    else
      var last := ds[|ds| - 1];
      assert IsRadixDigit(last, hex);
      assert IsHexDigit(last);
      DigitsValue(ds[..|ds| - 1], hex) * (if hex then 16 else 10) + DigitValue(last)
  }

  /** The unsigned part of parseInt: a "0x"/"0X" prefix selects radix 16, and the
      longest run of digits after it is the value; no digit at all is NaN (None). */
  function ParseMagnitude(u: string): (r: Option<nat>)
    ensures r.Some? ==> |u| > 0 && IsDecimalDigit(u[0])
  {
    var hex := |u| >= 2 && u[0] == '0' && (u[1] == 'x' || u[1] == 'X');
    var digits := DigitPrefix(if hex then u[2..] else u, hex);
    if digits == [] then None
    else
      assert !hex ==> digits[0] == u[0];
      Some(DigitsValue(digits, hex))
  }

  /** An optional sign, then the magnitude. */
  function ParseSigned(t: string): (r: Option<int>)
    ensures r.Some? ==> exists i :: 0 <= i < |t| && IsDecimalDigit(t[i])
  {
    var negative := |t| > 0 && t[0] == '-';
    var u := if |t| > 0 && (t[0] == '-' || t[0] == '+') then t[1..] else t;
    match ParseMagnitude(u)
    case None => None
    case Some(m) =>
      assert u[0] == t[|t| - |u|];
      Some(if negative then -(m as int) else m)
  }

  /** parseInt(s): skip leading whitespace, then read a signed magnitude;
      trailing text is ignored. */
  function ParseInt(s: string): (r: Option<int>)
    ensures r.Some? ==> exists i :: 0 <= i < |s| && IsDecimalDigit(s[i])
  {
    var t := TrimStart(s);
    var r := ParseSigned(t);
    if r.Some? then
      var i :| 0 <= i < |t| && IsDecimalDigit(t[i]);
      assert s[|s| - |t| + i] == t[i];
      r
    else r
  }

  /** The decimal numeral of m followed by text that does not continue it reads as m. */
  lemma {:induction false} MagnitudeDecimal(m: nat, t: string)
    requires t == [] || (!IsDecimalDigit(t[0]) && t[0] != 'x' && t[0] != 'X')
    ensures ParseMagnitude(DecimalDigits(m) + t) == Some(m)
  {
    var ds := DecimalDigits(m);
    var u := ds + t;
    assert |u| >= 2 && u[0] == '0' ==> |ds| == 1 && u[1] == t[0];
    DigitPrefixStops(ds, t, false);
    DecimalDigitsValue(m);
  }

  function DigitChar(d: nat): (c: char)
    requires d < 10
    ensures IsDecimalDigit(c) && DigitValue(c) == d
  {
    ('0' as int + d) as char
  }

  /** The decimal numeral of n, without leading zeros. */
  function DecimalDigits(n: nat): (r: string)
    ensures |r| > 0
    ensures forall i :: 0 <= i < |r| ==> IsDecimalDigit(r[i])
    ensures r[0] == '0' ==> n == 0 && |r| == 1
  {
    if n < 10 then [DigitChar(n)] else DecimalDigits(n / 10) + [DigitChar(n % 10)]
  }

  /** `${n}` for an integer-valued number: an optional minus sign and the decimal numeral. */
  function RenderInt(n: int): (r: string)
    ensures |r| > 0
    ensures forall i :: 0 <= i < |r| ==> r[i] == '-' || IsDecimalDigit(r[i])
    ensures (r[0] == '-') == (n < 0)
  {
    if n < 0 then "-" + DecimalDigits(-n) else DecimalDigits(n)
  }

  lemma {:induction false} DecimalDigitsValue(n: nat)
    ensures DigitsValue(DecimalDigits(n), false) == n
  {
    var ds := DecimalDigits(n);
    if n >= 10 {
      DecimalDigitsValue(n / 10);
      assert ds[..|ds| - 1] == DecimalDigits(n / 10);
    }
  }

  /** A run of digits followed by a non-digit is the longest digit prefix. */
  lemma {:induction false} DigitPrefixStops(ds: string, t: string, hex: bool)
    requires forall i :: 0 <= i < |ds| ==> IsRadixDigit(ds[i], hex)
    requires t == [] || !IsRadixDigit(t[0], hex)
    ensures DigitPrefix(ds + t, hex) == ds
  {
    if ds != [] {
      assert (ds + t)[1..] == ds[1..] + t;
      DigitPrefixStops(ds[1..], t, hex);
      assert [ds[0]] + ds[1..] == ds;
    } else {
      assert ds + t == t;
    }
  }

  /** parseInt reads back the decimal form of n through surrounding text: leading
      whitespace is skipped and whatever follows the digits is ignored, provided
      it does not continue the numeral (a digit) or turn "0" into a hex prefix. */
  lemma {:induction false} ParseIntDecimal(w: string, n: int, t: string)
    requires AllWhitespace(w)
    requires t == [] || (!IsDecimalDigit(t[0]) && t[0] != 'x' && t[0] != 'X')
    ensures ParseInt(w + RenderInt(n) + t) == Some(n)
  {
    var rt := RenderInt(n) + t;
    assert !IsJsWhitespace(rt[0]) by {
      assert IsDecimalDigit(rt[0]) || rt[0] == '-';
    }
    TrimStartSkips(w, rt);
    assert w + RenderInt(n) + t == w + rt;
    ParseSignedDecimal(n, t);
  }

  lemma {:induction false} ParseSignedDecimal(n: int, t: string)
    requires t == [] || (!IsDecimalDigit(t[0]) && t[0] != 'x' && t[0] != 'X')
    ensures ParseSigned(RenderInt(n) + t) == Some(n)
  {
    var r := RenderInt(n);
    if n < 0 {
      MagnitudeDecimal(-n, t);
      assert (r + t)[0] == '-';
      assert (r + t)[1..] == DecimalDigits(-n) + t;
    } else {
      MagnitudeDecimal(n, t);
      assert r + t == DecimalDigits(n) + t;
      assert IsDecimalDigit((r + t)[0]);
    }
  }

  /** TrimStart drops exactly a whitespace prefix when what follows starts with a
      non-whitespace character. */
  lemma {:induction false} TrimStartSkips(w: string, s: string)
    requires AllWhitespace(w)
    requires s != [] && !IsJsWhitespace(s[0])
    ensures TrimStart(w + s) == s
  {
    if w != [] {
      assert (w + s)[1..] == w[1..] + s;
      assert w[0] == (w + s)[0];
      TrimStartSkips(w[1..], s);
    } else {
      assert w + s == s;
    }
  }

  /** Reading back what `${n}` wrote gives n again. */
  lemma ParseRenderInt(n: int)
    ensures ParseInt(RenderInt(n)) == Some(n)
  {
    ParseIntDecimal([], n, []);
    assert [] + RenderInt(n) + [] == RenderInt(n);
  }
}
