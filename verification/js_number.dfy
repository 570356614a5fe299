/**
 * The slice of JavaScript number semantics the source depends on:
 * `parseInt`, `parseFloat`, `isNaN` and the `x || fallback` idiom.
 * Numbers are exact (real arithmetic); NaN is a separate value.
 */
module JsNumber {
  import opened Wrappers
  import opened Text

  /** A JavaScript number: NaN or a finite value. */
  datatype Number = NaN | Num(value: real)

  /** JavaScript truthiness of a number: neither NaN nor zero. */
  predicate Truthy(n: Number) {
    n.Num? && n.value != 0.0
  }

  /** `n || fallback`: the number itself when truthy, the fallback otherwise. */
  function OrElse(n: Number, fallback: real): (r: real)
    ensures Truthy(n) ==> r == n.value
    ensures !Truthy(n) ==> r == fallback
    ensures r != 0.0 || fallback == 0.0
  {
    if Truthy(n) then n.value else fallback
  }

  /** `isNaN(n) ? 0 : n`: NaN counts as zero. */
  function ValueOrZero(n: Number): (r: real)
    ensures n.Num? ==> r == n.value
    ensures n.NaN? ==> r == 0.0
  {
    match n
    case NaN => 0.0
    case Num(v) => v
  }

  // ---------------------------------------------------------------------
  // Digits
  // ---------------------------------------------------------------------

  /** Digit value of `c` in base 36 notation, or 36 when `c` is no digit at all. */
  function DigitValue(c: char): (v: nat)
    ensures v <= 36
    ensures '0' <= c <= '9' ==> v == (c - '0') as nat
  {
    if '0' <= c <= '9' then (c - '0') as nat
    else if 'a' <= c <= 'z' then (c - 'a') as nat + 10
    else if 'A' <= c <= 'Z' then (c - 'A') as nat + 10
    else 36
  }

  /** `c` is a digit of base `radix`. */
  predicate IsDigitOf(c: char, radix: nat) {
    DigitValue(c) < radix
  }

  predicate AllDigits(s: string, radix: nat) {
    forall i :: 0 <= i < |s| ==> IsDigitOf(s[i], radix)
  }

  /** The longest prefix of `s` made of base-`radix` digits. */
  function DigitPrefix(s: string, radix: nat): (r: string)
    ensures |r| <= |s| && r == s[..|r|]
    ensures AllDigits(r, radix)
    ensures |r| < |s| ==> !IsDigitOf(s[|r|], radix)
  {
    if |s| == 0 || !IsDigitOf(s[0], radix) then ""
    else [s[0]] + DigitPrefix(s[1..], radix)
  }

  /** The value of a digit string in base `radix`, most significant digit first. */
  function DigitsValue(ds: string, radix: nat): (v: nat)
    requires AllDigits(ds, radix)
  {
    if |ds| == 0 then 0
    else DigitsValue(ds[..|ds| - 1], radix) * radix + DigitValue(ds[|ds| - 1])
  }

  /** `10^k` as a real. */
  function Pow10(k: nat): (r: real)
    ensures r >= 1.0
  {
    if k == 0 then 1.0 else 10.0 * Pow10(k - 1)
  }

  /** The character of a decimal digit. */
  function DigitChar(d: nat): (c: char)
    requires d < 10
    ensures IsDigitOf(c, 10) && DigitValue(c) == d
  {
    ('0' as int + d) as char
  }

  /** The shortest decimal spelling of `n`, as `String(n)` writes a non-negative integer. */
  function DecimalString(n: nat): (s: string)
    ensures |s| >= 1 && AllDigits(s, 10)
    ensures DigitsValue(s, 10) == n
    ensures |s| > 1 ==> s[0] != '0'
  {
    var last := [DigitChar(n % 10)];
    if n < 10 then
      assert last[..0] == "";
      last
    else
      var front := DecimalString(n / 10);
      var s := front + last;
      assert s[..|s| - 1] == front;
      s
  }

  // ---------------------------------------------------------------------
  // parseInt and parseFloat
  // ---------------------------------------------------------------------

  /** Splits an optional leading sign off `s`: (is negative, rest). */
  function SplitSign(s: string): (r: (bool, string))
    ensures |s| > 0 && (s[0] == '-' || s[0] == '+') ==> r.1 == s[1..] && r.0 == (s[0] == '-')
    ensures !(|s| > 0 && (s[0] == '-' || s[0] == '+')) ==> r == (false, s)
  {
    if |s| > 0 && (s[0] == '-' || s[0] == '+') then (s[0] == '-', s[1..]) else (false, s)
  }

  function Signed(negative: bool, v: real): real {
    if negative then -v else v
  }

  /** `0x` or `0X` at the head of `body`. */
  predicate HexPrefix(body: string) {
    |body| >= 2 && body[0] == '0' && (body[1] == 'x' || body[1] == 'X')
  }

  /**
   * `parseInt(s, 10)` when `explicitDecimal` holds, `Number.parseInt(s)` otherwise:
   * leading whitespace and one sign are skipped; without an explicit radix a
   * `0x`/`0X` prefix switches to base 16; the longest digit prefix is read and
   * the rest ignored; no digits at all gives NaN, here `None`.
   */
  function ParseInt(s: string, explicitDecimal: bool): (r: Option<int>)
  {
    ParseSignedInt(SplitSign(TrimStart(s)), explicitDecimal)
  }

  /** `parseInt` after whitespace: the sign has been split off the body. */
  function ParseSignedInt(sign: (bool, string), explicitDecimal: bool): (r: Option<int>)
  {
    var body := sign.1;
    var hex := !explicitDecimal && HexPrefix(body);
    var radix := if hex then 16 else 10;
    var ds := DigitPrefix(if hex then body[2..] else body, radix);
    if |ds| == 0 then None
    else
      var v: int := DigitsValue(ds, radix);
      Some(if sign.0 then -v else v)
  }

  /** The number `parseInt` returns: NaN for no digits, the integer otherwise. */
  function IntNumber(r: Option<int>): (n: Number)
    ensures r.None? <==> n.NaN?
    ensures r.Some? ==> n.value == r.value as real
  {
    match r
    case None => NaN
    case Some(v) => Num(v as real)
  }

  /** `parseInt(...) || fallback` for an integer fallback: agrees with `OrElse` on the number `parseInt` returns. */
  function IntOrElse(r: Option<int>, fallback: int): (v: int)
    ensures v as real == OrElse(IntNumber(r), fallback as real)
  {
    match r
    case Some(n) => if n != 0 then n else fallback
    case None => fallback
  }

  /**
   * The value of an exponent part `e[+-]digits` at the head of `s`, and whether
   * one is there; `e` not followed by digits is not an exponent.
   */
  function Exponent(s: string): (r: (bool, int))
    ensures !r.0 ==> r.1 == 0
  {
    if |s| > 0 && (s[0] == 'e' || s[0] == 'E') then
      var sign := SplitSign(s[1..]);
      var ds := DigitPrefix(sign.1, 10);
      var v: int := if |ds| == 0 then 0 else DigitsValue(ds, 10);
      (|ds| > 0, if sign.0 then -v else v)
    else (false, 0)
  }

  /** `v * 10^e`. */
  function Scale(v: real, e: int): (r: real)
    ensures e == 0 ==> r == v
  {
    if e >= 0 then v * Pow10(e) else v / Pow10(-e)
  }

  /** The fraction digits after a leading `.` of `s`, if `s` starts with one. */
  function FractionDigits(s: string): (r: string)
    ensures AllDigits(r, 10)
    ensures |s| > 0 && s[0] == '.' ==> |r| < |s| && r == s[1..1 + |r|]
    ensures !(|s| > 0 && s[0] == '.') ==> r == ""
  {
    if |s| > 0 && s[0] == '.' then DigitPrefix(s[1..], 10) else ""
  }

  /**
   * The longest prefix of `body` of the form `digits[.digits][e[+-]digits]` or
   * `.digits[e[+-]digits]`, read as an unsigned number; NaN when there is no
   * digit before the exponent.
   */
  function UnsignedDecimal(body: string): (n: Number)
  {
    var whole := DigitPrefix(body, 10);
    AfterWhole(whole, body[|whole|..])
  }

  /** The rest of an unsigned literal once its integer digits `whole` have been read. */
  function AfterWhole(whole: string, afterWhole: string): (n: Number)
    requires AllDigits(whole, 10)
  {
    var frac := FractionDigits(afterWhole);
    var afterFrac := if |afterWhole| > 0 && afterWhole[0] == '.' then afterWhole[1 + |frac|..] else afterWhole;
    if |whole| == 0 && |frac| == 0 then NaN
    else Num(Scale(Mantissa(whole, frac), Exponent(afterFrac).1))
  }

  /** The value of `whole.frac`. */
  function Mantissa(whole: string, frac: string): (m: real)
    requires AllDigits(whole, 10) && AllDigits(frac, 10)
    ensures m >= 0.0
  {
    DigitsValue(whole, 10) as real + DigitsValue(frac, 10) as real / Pow10(|frac|)
  }

  /** `parseFloat(s)`: leading whitespace and one sign are skipped, then a decimal literal is read. */
  function ParseFloat(s: string): (n: Number)
    ensures n.NaN? <==> UnsignedDecimal(SplitSign(TrimStart(s)).1).NaN?
  {
    var sign := SplitSign(TrimStart(s));
    match UnsignedDecimal(sign.1)
    case NaN => NaN
    case Num(v) => Num(Signed(sign.0, v))
  }

  // ---------------------------------------------------------------------
  // Properties
  // ---------------------------------------------------------------------

  /** The digit prefix of digits followed by a non-digit is exactly those digits. */
  lemma {:induction false} DigitPrefixStops(ds: string, t: string, radix: nat)
    requires AllDigits(ds, radix)
    requires |t| == 0 || !IsDigitOf(t[0], radix)
    ensures DigitPrefix(ds + t, radix) == ds
  {
    if |ds| == 0 {
      assert ds + t == t;
    } else {
      assert (ds + t)[1..] == ds[1..] + t;
      DigitPrefixStops(ds[1..], t, radix);
      assert [ds[0]] + ds[1..] == ds;
    }
  }

  /** Leading whitespace never changes what is trimmed from the front. */
  lemma {:induction false} TrimStartBlankPrefix(w: string, s: string)
    requires IsBlank(w)
    ensures TrimStart(w + s) == TrimStart(s)
  {
    if |w| > 0 {
      assert (w + s)[0] == w[0];
      assert (w + s)[1..] == w[1..] + s;
      TrimStartBlankPrefix(w[1..], s);
    } else {
      assert w + s == s;
    }
  }

  /** A decimal spelling followed by neither a digit nor `x` starts no hexadecimal prefix. */
  lemma DecimalNotHex(n: nat, t: string)
    requires |t| == 0 || (!IsDigitOf(t[0], 10) && t[0] != 'x' && t[0] != 'X')
    ensures !HexPrefix(DecimalString(n) + t)
  {
    var ds := DecimalString(n);
    var body := ds + t;
    assert body[0] == ds[0];
    if |ds| == 1 && |t| > 0 {
      assert body[1] == t[0];
    } else if |ds| > 1 {
      assert body[1] == ds[1];
    }
  }

  /** A minus sign or nothing, then a digit: trimming and sign splitting recover the sign and the rest. */
  lemma SignThenDigit(negative: bool, b: string)
    requires |b| > 0 && IsDigitOf(b[0], 10)
    ensures TrimStart((if negative then "-" else "") + b) == (if negative then "-" else "") + b
    ensures SplitSign((if negative then "-" else "") + b) == (negative, b)
  {
    if negative {
      var signed := "-" + b;
      assert signed[0] == '-' && signed[1..] == b;
      NoLeadingBlank(signed);
    } else {
      assert "" + b == b;
      assert b[0] != '-' && b[0] != '+';
      NoLeadingBlank(b);
    }
  }

  /** Text that starts with a non-blank character is left alone by `TrimStart`. */
  lemma NoLeadingBlank(s: string)
    requires |s| > 0 && !IsWhitespace(s[0])
    ensures TrimStart(s) == s
  {
  }

  /** Text that starts with a digit is neither trimmed nor signed: `parseFloat` reads it as an unsigned literal. */
  lemma UnsignedDigitStart(s: string)
    requires |s| > 0 && IsDigitOf(s[0], 10)
    ensures SplitSign(TrimStart(s)) == (false, s)
    ensures ParseFloat(s) == UnsignedDecimal(s)
  {
    assert !IsWhitespace(s[0]);
    assert SplitSign(TrimStart(s)) == (false, s);
  }

  /**
   * `parseInt` reads back what `String(n)` wrote, after optional blanks and
   * a minus sign, ignoring a tail that starts with neither a digit nor `x`.
   */
  lemma ParseIntReadsDecimal(w: string, negative: bool, n: nat, t: string, explicitDecimal: bool)
    requires IsBlank(w)
    requires |t| == 0 || (!IsDigitOf(t[0], 10) && t[0] != 'x' && t[0] != 'X')
    ensures ParseInt(w + (if negative then "-" else "") + DecimalString(n) + t, explicitDecimal)
            == Some(if negative then -(n as int) else n)
  {
    var sign := if negative then "-" else "";
    var ds := DecimalString(n);
    var signed := sign + (ds + t);
    AppendAssoc(w, sign, ds);
    AppendAssoc(w + sign, ds, t);
    AppendAssoc(w, sign, ds + t);
    AppendAssoc(sign, ds, t);
    TrimStartBlankPrefix(w, signed);
    ParseIntSameTrim(w + signed, sign + ds + t, explicitDecimal);
    ParseIntSigned(negative, n, t, explicitDecimal);
  }

  /** `parseInt` only looks at the text after leading whitespace. */
  lemma ParseIntSameTrim(s: string, u: string, explicitDecimal: bool)
    requires TrimStart(s) == TrimStart(u)
    ensures ParseInt(s, explicitDecimal) == ParseInt(u, explicitDecimal)
  {
  }

  /** `parseInt` reads back `String(n)`, with an optional minus sign, ignoring a tail that starts with neither a digit nor `x`. */
  lemma ParseIntSigned(negative: bool, n: nat, t: string, explicitDecimal: bool)
    requires |t| == 0 || (!IsDigitOf(t[0], 10) && t[0] != 'x' && t[0] != 'X')
    ensures ParseInt((if negative then "-" else "") + DecimalString(n) + t, explicitDecimal)
            == Some(if negative then -(n as int) else n)
  {
    var ds := DecimalString(n);
    var body := ds + t;
    AppendAssoc(if negative then "-" else "", ds, t);
    assert body[0] == ds[0];
    SignThenDigit(negative, body);
    DecimalNotHex(n, t);
    DigitPrefixStops(ds, t, 10);
  }

  /** With no radix, `parseInt` reads a `0x`-prefixed hexadecimal spelling. */
  lemma ParseIntHexPrefix(hex: string)
    requires |hex| >= 1 && AllDigits(hex, 16)
    ensures ParseInt("0x" + hex, false) == Some(DigitsValue(hex, 16))
  {
    var s := "0x" + hex;
    assert s[0] == '0' && s[1] == 'x';
    NoLeadingBlank(s);
    assert SplitSign(s) == (false, s);
    HexBody(s, hex);
  }

  /** A `0x`-prefixed body with no sign is read in base 16 when no radix is given. */
  lemma HexBody(s: string, hex: string)
    requires s == "0x" + hex && |hex| >= 1 && AllDigits(hex, 16)
    ensures ParseSignedInt((false, s), false) == Some(DigitsValue(hex, 16))
  {
    assert HexPrefix(s);
    assert s[2..] == hex;
    DigitPrefixStops(hex, "", 16);
    assert hex + "" == hex;
  }

  /** With radix 10, `parseInt` stops at the `x` of a `0x` prefix and reads zero. */
  lemma ParseIntDecimalStopsAtX(hex: string)
    ensures ParseInt("0x" + hex, true) == Some(0)
  {
    var s := "0x" + hex;
    assert s[0] == '0' && s[1] == 'x';
    assert TrimStart(s) == s;
    assert SplitSign(s) == (false, s);
    assert DigitValue('x') == 33;
    DigitPrefixStops("0", s[1..], 10);
    assert "0" + s[1..] == s;
    assert DigitsValue("0", 10) == DigitsValue("", 10) * 10 + DigitValue('0');
  }

  /** The unsigned literal `whole.frac` is worth `whole + frac / 10^|frac|` whatever non-digit, non-exponent tail follows. */
  lemma UnsignedDecimalReads(whole: string, frac: string, t: string)
    requires AllDigits(whole, 10) && AllDigits(frac, 10) && |frac| >= 1
    requires |t| == 0 || (!IsDigitOf(t[0], 10) && t[0] != 'e' && t[0] != 'E')
    ensures UnsignedDecimal(whole + (['.'] + (frac + t))) == Num(Mantissa(whole, frac))
  {
    var rest := frac + t;
    var tail := ['.'] + rest;
    var body := whole + tail;
    assert DigitValue('.') == 36;
    DigitPrefixStops(whole, tail, 10);
    assert body[|whole|..] == tail;
    assert tail[1..] == rest;
    DigitPrefixStops(frac, t, 10);
    assert FractionDigits(tail) == frac;
    assert tail[1 + |frac|..] == t;
    assert Exponent(t) == (false, 0);
  }

  /** `parseFloat` reads `whole.frac` as `whole + frac / 10^|frac|`, ignoring a trailing non-digit tail. */
  lemma ParseFloatReadsDecimal(whole: string, frac: string, t: string)
    requires |whole| >= 1 && AllDigits(whole, 10)
    requires |frac| >= 1 && AllDigits(frac, 10)
    requires |t| == 0 || (!IsDigitOf(t[0], 10) && t[0] != 'e' && t[0] != 'E')
    ensures ParseFloat(whole + "." + frac + t) == Num(Mantissa(whole, frac))
  {
    var u := whole + (['.'] + (frac + t));
    UnsignedDecimalReads(whole, frac, t);
    assert u[0] == whole[0];
    UnsignedDigitStart(u);
    Regroup(whole, ".", frac, t);
  }

  lemma Regroup(a: string, b: string, c: string, d: string)
    ensures a + b + c + d == a + (b + (c + d))
  {
  }

  /** `parseFloat` and `parseInt` agree on integer spellings. */
  lemma ParseFloatOfInteger(n: nat)
    ensures ParseFloat(DecimalString(n)) == Num(n as real)
  {
    var ds := DecimalString(n);
    UnsignedDigitStart(ds);
    UnsignedInteger(ds);
  }

  /** A digit string alone is read as its integer value. */
  lemma UnsignedInteger(ds: string)
    requires |ds| >= 1 && AllDigits(ds, 10)
    ensures UnsignedDecimal(ds) == Num(DigitsValue(ds, 10) as real)
  {
    DigitPrefixStops(ds, "", 10);
    assert ds + "" == ds;
    assert ds[|ds|..] == "";
    NothingAfterWhole(ds);
  }

  /** Integer digits with nothing after them are read as their value. */
  lemma NothingAfterWhole(ds: string)
    requires |ds| >= 1 && AllDigits(ds, 10)
    ensures AfterWhole(ds, "") == Num(DigitsValue(ds, 10) as real)
  {
    assert FractionDigits("") == "";
    assert Exponent("") == (false, 0);
    assert Mantissa(ds, "") == DigitsValue(ds, 10) as real;
  }

  /** A string without any digit parses to NaN under both functions. */
  lemma NoDigitsIsNaN(s: string, explicitDecimal: bool)
    requires forall i :: 0 <= i < |s| ==> !IsDigitOf(s[i], 10)
    ensures ParseInt(s, explicitDecimal) == None
    ensures ParseFloat(s) == NaN
  {
    var body := SplitSign(TrimStart(s)).1;
    NoDigitsAfterSign(s);
    NoDigitBody(body, explicitDecimal);
  }

  /** A digit-free text stays digit-free once trimmed and unsigned. */
  lemma NoDigitsAfterSign(s: string)
    requires forall i :: 0 <= i < |s| ==> !IsDigitOf(s[i], 10)
    ensures forall i :: 0 <= i < |SplitSign(TrimStart(s)).1| ==> !IsDigitOf(SplitSign(TrimStart(s)).1[i], 10)
  {
    var trimmed := TrimStart(s);
    NoDigitsSuffix(s, |s| - |trimmed|);
    if |trimmed| > 0 && (trimmed[0] == '-' || trimmed[0] == '+') {
      NoDigitsSuffix(trimmed, 1);
    }
  }

  lemma NoDigitsSuffix(s: string, k: nat)
    requires k <= |s|
    requires forall i :: 0 <= i < |s| ==> !IsDigitOf(s[i], 10)
    ensures forall i :: 0 <= i < |s[k..]| ==> !IsDigitOf(s[k..][i], 10)
  {
    forall i | 0 <= i < |s[k..]| ensures !IsDigitOf(s[k..][i], 10) {
      assert s[k..][i] == s[k + i];
    }
  }

  /** A body without digits reads as no integer and as NaN. */
  lemma NoDigitBody(body: string, explicitDecimal: bool)
    requires forall i :: 0 <= i < |body| ==> !IsDigitOf(body[i], 10)
    ensures forall negative :: ParseSignedInt((negative, body), explicitDecimal) == None
    ensures UnsignedDecimal(body) == NaN
  {
    assert DigitPrefix(body, 10) == "";
    if |body| > 0 && body[0] == '.' {
      var rest := body[1..];
      if |rest| > 0 { assert rest[0] == body[1]; }
      assert DigitPrefix(rest, 10) == "";
    }
    assert body[0..] == body;
  }
}
