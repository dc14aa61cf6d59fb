/** Decimal text and numbers: digit strings, `String(n)` for integers,
    `parseInt`, `parseFloat` and `Number()` restricted to plain decimal
    literals (sections 19.2.4, 19.2.5 and 7.1.4.1.1 of ECMA-262). A result of
    `None` stands for `NaN`. */
module Numbers {
  import opened Wrappers
  import Text

  predicate IsDigit(c: char) {
    '0' <= c <= '9'
  }

  predicate AllDigits(s: string) {
    forall i :: 0 <= i < |s| ==> IsDigit(s[i])
  }

  function DigitValue(c: char): (d: nat)
    requires IsDigit(c)
    ensures d < 10
  {
    c as int - '0' as int
  }

  function DigitChar(d: nat): (c: char)
    requires d < 10
    ensures IsDigit(c) && DigitValue(c) == d
  {
    ('0' as int + d) as char
  }

  /** The value of a string of decimal digits, most significant first. */
  function DigitsValue(ds: string): nat
    requires AllDigits(ds)
  {
    if |ds| == 0 then 0 else DigitsValue(ds[..|ds| - 1]) * 10 + DigitValue(ds[|ds| - 1])
  }

  /** The value of the digits after a decimal point: `0.d1d2d3...`. */
  function FractionValue(ds: string): real
    requires AllDigits(ds)
  {
    if |ds| == 0 then 0.0 else (DigitValue(ds[0]) as real + FractionValue(ds[1..])) / 10.0
  }

  /** `String(n)` for a natural number: no leading zeros. */
  function NatToString(n: nat): (s: string)
    ensures |s| >= 1 && AllDigits(s)
    ensures n < 10 <==> |s| == 1
    ensures (10 <= n < 100) <==> |s| == 2
    ensures (1000 <= n < 10000) <==> |s| == 4
    ensures |s| > 1 ==> s[0] != '0'
  {
    if n < 10 then [DigitChar(n)] else NatToString(n / 10) + [DigitChar(n % 10)]
  }

  /** `String(i)` for an integer. */
  function IntToString(i: int): (s: string)
    ensures i >= 0 ==> s == NatToString(i)
    ensures i < 0 ==> s == "-" + NatToString(-i)
  {
    if i < 0 then "-" + NatToString(-i) else NatToString(i)
  }

  /** Reading back what `NatToString` wrote gives the number. */
  lemma {:induction false} NatToStringRoundTrip(n: nat)
    ensures DigitsValue(NatToString(n)) == n
    decreases n
  {
    if n >= 10 {
      NatToStringRoundTrip(n / 10);
      var s := NatToString(n);
      assert s[..|s| - 1] == NatToString(n / 10);
    }
  }

  /** The length of the longest prefix of `s` made of digits. */
  function DigitRun(s: string): (n: nat)
    ensures n <= |s| && AllDigits(s[..n])
    ensures n < |s| ==> !IsDigit(s[n])
  {
    if |s| > 0 && IsDigit(s[0]) then
      var k := DigitRun(s[1..]);
      assert s[..k + 1] == [s[0]] + s[1..][..k];
      k + 1
    else 0
  }

  function SignLength(t: string): (n: nat)
    ensures n <= |t|
  {
    if |t| > 0 && (t[0] == '+' || t[0] == '-') then 1 else 0
  }

  /** An unsigned StrUnsignedDecimalLiteral without exponent: digits with at
      most one decimal point and at least one digit. */
  predicate IsUnsignedDecimal(u: string) {
    match Text.IndexOfChar(u, '.')
    case None => |u| > 0 && AllDigits(u)
    case Some(k) => AllDigits(u[..k]) && AllDigits(u[k + 1..]) && |u| > 1
  }

  /** A StrDecimalLiteral without exponent: an optional sign, then an
      unsigned decimal. */
  predicate IsDecimal(p: string) {
    IsUnsignedDecimal(p[SignLength(p)..])
  }

  /** The exact value a decimal literal denotes. */
  function DecimalValue(p: string): real
    requires IsDecimal(p)
  {
    var s := SignLength(p);
    var u := p[s..];
    var magnitude :=
      match Text.IndexOfChar(u, '.')
      case None => DigitsValue(u) as real
      case Some(k) => DigitsValue(u[..k]) as real + FractionValue(u[k + 1..]);
    if s == 1 && p[0] == '-' then -magnitude else magnitude
  }

  /** `p` is the longest prefix of `t` that is a decimal literal. */
  ghost predicate LongestDecimalPrefix(t: string, n: nat) {
    0 < n <= |t| && IsDecimal(t[..n]) && forall k :: n < k <= |t| ==> !IsDecimal(t[..k])
  }

  /** No prefix of `t` is a decimal literal. */
  ghost predicate NoDecimalPrefix(t: string) {
    forall k :: 0 <= k <= |t| ==> !IsDecimal(t[..k])
  }

  /** The scanner `parseFloat` runs: sign, integer digits, then a point and
      fraction digits; 0 when no digit is found. */
  function ScanDecimal(t: string): nat {
    var s := SignLength(t);
    var a := DigitRun(t[s..]);
    if s + a < |t| && t[s + a] == '.' then
      var b := DigitRun(t[s + a + 1..]);
      if a + b == 0 then 0 else s + a + 1 + b
    else if a == 0 then 0
    else s + a
  }

  /** The first point of `u` is at `k`. */
  lemma FirstPoint(u: string, k: nat)
    requires k < |u| && u[k] == '.' && '.' !in u[..k]
    ensures Text.IndexOfChar(u, '.') == Some(k)
  {
    var r := Text.IndexOfChar(u, '.');
    assert u[k] in u[..k + 1];
  }

  /** What every unsigned decimal looks like: non-empty, made of digits and
      at most one point, and a leading point is followed by a digit. */
  lemma UnsignedDecimalShape(u: string)
    requires IsUnsignedDecimal(u)
    ensures |u| > 0
    ensures forall i :: 0 <= i < |u| ==> IsDigit(u[i]) || u[i] == '.'
    ensures forall i, j :: 0 <= i < j < |u| && u[i] == '.' ==> u[j] != '.'
    ensures u[0] == '.' ==> |u| > 1 && IsDigit(u[1])
  {
    match Text.IndexOfChar(u, '.')
    case None =>
    case Some(k) =>
      forall i | 0 <= i < |u| ensures IsDigit(u[i]) || u[i] == '.' {
        if i > k { assert u[k + 1..][i - k - 1] == u[i]; }
      }
      assert forall m :: 0 <= m < k ==> u[m] == u[..k][m];
      forall i, j | 0 <= i < j < |u| && u[i] == '.' ensures u[j] != '.' {
        if i >= k { assert u[k + 1..][j - k - 1] == u[j]; }
      }
      if u[0] == '.' {
        assert k == 0;
        assert u[1..][0] == u[1];
      }
  }

  /** What the scanner reports is a decimal literal. */
  lemma ScanDecimalSound(t: string)
    requires ScanDecimal(t) > 0
    ensures ScanDecimal(t) <= |t| && IsDecimal(t[..ScanDecimal(t)])
  {
    var s := SignLength(t);
    var a := DigitRun(t[s..]);
    if s + a < |t| && t[s + a] == '.' {
      ScanSoundPointed(t, s, a, DigitRun(t[s + a + 1..]));
    } else {
      assert t[s..][..a] == t[s..s + a];
      ScanSoundWhole(t, s, a);
    }
  }

  /** The scanner's report of digits, a point and digits is a literal. */
  lemma ScanSoundPointed(t: string, s: nat, a: nat, b: nat)
    requires s == SignLength(t) && a == DigitRun(t[s..])
    requires s + a < |t| && t[s + a] == '.' && b == DigitRun(t[s + a + 1..]) && ScanDecimal(t) > 0
    ensures ScanDecimal(t) == s + a + 1 + b <= |t| && IsDecimal(t[..s + a + 1 + b])
  {
    var n := s + a + 1 + b;
    var p := t[..n];
    assert SignLength(p) == s;
    var u := p[s..];
    PointedPieces(t, s, a, b);
    PointedLiteral(u, a);
    SignedDecimal(p, s);
  }

  /** The pieces of what the scanner reads: the integer digits, the point
      and the fraction digits. */
  lemma PointedPieces(t: string, s: nat, a: nat, b: nat)
    requires s + a < |t| && t[s + a] == '.' && s + a + 1 + b <= |t|
    requires AllDigits(t[s..][..a]) && AllDigits(t[s + a + 1..][..b])
    ensures var u := t[..s + a + 1 + b][s..];
      && |u| == a + 1 + b && u[a] == '.' && AllDigits(u[..a]) && AllDigits(u[a + 1..])
  {
    var u := t[..s + a + 1 + b][s..];
    assert u[..a] == t[s..][..a];
    assert u[a + 1..] == t[s + a + 1..][..b];
  }

  /** Digits, a point, digits, with at least one digit, make an unsigned
      literal. */
  lemma PointedLiteral(u: string, a: nat)
    requires a < |u| && u[a] == '.' && AllDigits(u[..a]) && AllDigits(u[a + 1..]) && |u| > 1
    ensures IsUnsignedDecimal(u)
  {
    assert '.' !in u[..a] by {
      forall k | 0 <= k < a ensures u[..a][k] != '.' {
        assert IsDigit(u[..a][k]);
      }
    }
    FirstPoint(u, a);
  }

  /** A sign followed by an unsigned decimal is a decimal. */
  lemma SignedDecimal(p: string, s: nat)
    requires s == SignLength(p) && IsUnsignedDecimal(p[s..])
    ensures IsDecimal(p)
  {
  }

  /** The scanner's report of digits alone is a literal. */
  lemma ScanSoundWhole(t: string, s: nat, a: nat)
    requires s == SignLength(t) && a == DigitRun(t[s..]) && t[s..][..a] == t[s..s + a]
    requires !(s + a < |t| && t[s + a] == '.') && ScanDecimal(t) > 0
    ensures ScanDecimal(t) <= |t| && IsDecimal(t[..ScanDecimal(t)])
  {
    var n := ScanDecimal(t);
    var p := t[..n];
    assert SignLength(p) == s;
    var u := p[s..];
    assert u == t[s..s + a];
    assert '.' !in u;
  }

  /** Nothing longer than what the scanner reports is a decimal literal. */
  lemma NotLongerDecimal(t: string, k: nat)
    requires ScanDecimal(t) < k <= |t|
    ensures !IsDecimal(t[..k])
  {
    var s := SignLength(t);
    var a := DigitRun(t[s..]);
    assert t[s..][..a] == t[s..s + a];
    var p := t[..k];
    assert SignLength(p) == s;
    var u := p[s..];
    assert u == t[s..k];
    if s + a < |t| && t[s + a] == '.' {
      var b := DigitRun(t[s + a + 1..]);
      if a + b == 0 {
        assert |u| >= 1 ==> u[0] == '.';
        assert |u| >= 2 ==> u[1] == t[s + a + 1..][0];
      } else {
        var i := s + a + 1 + b;
        assert i < k;
        assert u[i - s] == t[s + a + 1..][b];
        assert u[a] == '.';
      }
    } else {
      assert s + a < k ==> u[a] == t[s + a];
    }
    if IsUnsignedDecimal(u) {
      UnsignedDecimalShape(u);
      assert false;
    }
  }

  /** The scanner finds the longest decimal prefix, and 0 exactly when
      there is none. */
  lemma ScanDecimalIsLongest(t: string)
    ensures ScanDecimal(t) <= |t|
    ensures ScanDecimal(t) > 0 ==> LongestDecimalPrefix(t, ScanDecimal(t))
    ensures ScanDecimal(t) == 0 <==> NoDecimalPrefix(t)
  {
    var n := ScanDecimal(t);
    if n > 0 {
      ScanDecimalSound(t);
    }
    forall k | n < k <= |t| ensures !IsDecimal(t[..k]) {
      NotLongerDecimal(t, k);
    }
    assert !IsDecimal(t[..0]) by {
      assert t[..0][SignLength(t[..0])..] == [];
    }
  }

  /** `parseFloat`, for plain decimal literals: leading white space is
      skipped and the longest decimal prefix is read. */
  function ParseFloat(str: string): (r: Option<real>)
    ensures Text.IsBlank(str) ==> r.None?
  {
    var t := Text.TrimStart(str);
    var n := ScanDecimal(t);
    ScanDecimalIsLongest(t);
    if n == 0 then None
    else
      Some(DecimalValue(t[..n]))
  }

  /** `parseFloat` gives no number exactly when no decimal literal starts
      the text after its leading spaces, and otherwise the value of the
      longest one. */
  lemma ParseFloatLongest(str: string)
    ensures ParseFloat(str).None? <==> NoDecimalPrefix(Text.TrimStart(str))
    ensures ParseFloat(str).Some? ==>
      exists n: nat :: LongestDecimalPrefix(Text.TrimStart(str), n) && ParseFloat(str).value == DecimalValue(Text.TrimStart(str)[..n])
  {
    var t := Text.TrimStart(str);
    var n := ScanDecimal(t);
    ScanDecimalIsLongest(t);
    if n > 0 {
      assert LongestDecimalPrefix(t, n);
    }
  }

  /** A run of digits is read to its end. */
  lemma {:induction false} DigitRunAll(s: string)
    requires AllDigits(s)
    ensures DigitRun(s) == |s|
    decreases |s|
  {
    if |s| > 0 {
      DigitRunAll(s[1..]);
    }
  }

  /** A run of digits stops at the first non-digit. */
  lemma DigitRunStops(s: string, k: nat)
    requires k < |s| && AllDigits(s[..k]) && !IsDigit(s[k])
    ensures DigitRun(s) == k
  {
  }

  /** An unsigned literal `digits.digits` is read whole, with the value of
      its two parts. */
  lemma ScanPointed(t: string, k: nat)
    requires 0 < k < |t| && t[k] == '.' && AllDigits(t[..k]) && AllDigits(t[k + 1..])
    ensures ScanDecimal(t) == |t| && IsDecimal(t)
    ensures DecimalValue(t) == DigitsValue(t[..k]) as real + FractionValue(t[k + 1..])
  {
    assert SignLength(t) == 0 by {
      assert t[..k][0] == t[0];
    }
    assert t[0..] == t;
    DigitRunStops(t, k);
    DigitRunAll(t[k + 1..]);
    assert '.' !in t[..k] by {
      forall i | 0 <= i < k ensures t[..k][i] != '.' {
        assert IsDigit(t[..k][i]);
      }
    }
    FirstPoint(t, k);
  }

  /** A digit string is read whole, as its integer value. */
  lemma ScanDigits(t: string)
    requires |t| > 0 && AllDigits(t)
    ensures ScanDecimal(t) == |t| && IsDecimal(t)
    ensures DecimalValue(t) == DigitsValue(t) as real
  {
    assert SignLength(t) == 0 by {
      assert IsDigit(t[0]);
    }
    assert t[0..] == t;
    DigitRunAll(t);
    assert '.' !in t by {
      forall i | 0 <= i < |t| ensures t[i] != '.' {
        assert IsDigit(t[i]);
      }
    }
  }

  /** `parseFloat` of a text without leading space is the value of the
      prefix the scanner reports. */
  lemma ParseFloatPrefix(t: string, n: nat, v: real)
    requires |t| > 0 && !Text.IsSpace(t[0]) && 0 < n <= |t| && ScanDecimal(t) == n
    requires IsDecimal(t[..n]) && DecimalValue(t[..n]) == v
    ensures ParseFloat(t) == Some(v)
  {
    assert Text.TrimStart(t) == t;
  }

  /** `parseFloat` of `digits.digits` is the value of its two parts. */
  lemma ParseFloatPointed(t: string, k: nat, v: real)
    requires 0 < k < |t| && t[k] == '.' && AllDigits(t[..k]) && AllDigits(t[k + 1..])
    requires DigitsValue(t[..k]) as real + FractionValue(t[k + 1..]) == v
    ensures ParseFloat(t) == Some(v)
  {
    assert !Text.IsSpace(t[0]) by {
      assert t[..k][0] == t[0];
    }
    ScanPointed(t, k);
    assert t[..|t|] == t;
    ParseFloatPrefix(t, |t|, v);
  }

  /** `parseFloat` of a digit string is its value. */
  lemma ParseFloatDigits(t: string, v: real)
    requires |t| > 0 && AllDigits(t) && DigitsValue(t) as real == v
    ensures ParseFloat(t) == Some(v)
  {
    assert IsDigit(t[0]);
    ScanDigits(t);
    assert t[..|t|] == t;
    ParseFloatPrefix(t, |t|, v);
  }

  /** `parseFloat` stops at the first character after the digits that is
    neither a digit nor a point. */
  lemma ParseFloatStopsAt(t: string, k: nat, v: real)
    requires 0 < k < |t| && AllDigits(t[..k]) && !IsDigit(t[k]) && t[k] != '.'
    requires DigitsValue(t[..k]) as real == v
    ensures ParseFloat(t) == Some(v)
  {
    var p := t[..k];
    assert IsDigit(p[0]) && p[0] == t[0];
    assert SignLength(t) == 0 && t[0..] == t;
    DigitRunStops(t, k);
    ScanDigits(p);
    ParseFloatPrefix(t, k, v);
  }

  /** `parseFloat` finds no number in a text that starts with anything but
    white space, a sign, a digit or a point. */
  lemma ParseFloatNone(t: string)
    requires |t| > 0 && !Text.IsSpace(t[0]) && !IsDigit(t[0]) && t[0] !in "+-."
    ensures ParseFloat(t) == None
  {
    assert Text.TrimStart(t) == t;
    assert SignLength(t) == 0 && t[0..] == t;
    assert DigitRun(t) == 0;
  }

  predicate IsHexDigit(c: char) {
    IsDigit(c) || 'a' <= c <= 'f' || 'A' <= c <= 'F'
  }

  predicate AllHexDigits(s: string) {
    forall i :: 0 <= i < |s| ==> IsHexDigit(s[i])
  }

  function HexDigitValue(c: char): (d: nat)
    requires IsHexDigit(c)
    ensures d < 16
  {
    if IsDigit(c) then DigitValue(c)
    else if 'a' <= c <= 'f' then c as int - 'a' as int + 10
    else c as int - 'A' as int + 10
  }

  /** The length of the longest prefix of `s` made of hexadecimal digits. */
  function HexRun(s: string): (n: nat)
    ensures n <= |s| && AllHexDigits(s[..n])
    ensures n < |s| ==> !IsHexDigit(s[n])
  {
    if |s| > 0 && IsHexDigit(s[0]) then
      var k := HexRun(s[1..]);
      assert s[..k + 1] == [s[0]] + s[1..][..k];
      k + 1
    else 0
  }

  /** The value of a string of hexadecimal digits, most significant first. */
  function HexValue(hs: string): nat
    requires AllHexDigits(hs)
  {
    if |hs| == 0 then 0 else HexValue(hs[..|hs| - 1]) * 16 + HexDigitValue(hs[|hs| - 1])
  }

  /** The text after the sign starts with `0x` or `0X`, which makes the
      default radix of `parseInt` 16. */
  predicate HexPrefixed(u: string) {
    |u| >= 2 && u[0] == '0' && (u[1] == 'x' || u[1] == 'X')
  }

  /** `parseInt` after the sign: past a `0x` prefix the longest run of
      hexadecimal digits, otherwise the longest run of decimal digits. */
  function UnsignedInt(u: string): Option<nat> {
    if HexPrefixed(u) then
      var h := HexRun(u[2..]);
      if h == 0 then None else Some(HexValue(u[2..][..h]))
    else
      var a := DigitRun(u);
      if a == 0 then None else Some(DigitsValue(u[..a]))
  }

  /** `parseInt` with the default radix: leading white space, an optional
      sign, then the digits `UnsignedInt` reads. */
  function ParseInt(str: string): Option<int> {
    var t := Text.TrimStart(str);
    var s := SignLength(t);
    match UnsignedInt(t[s..])
    case None => None
    case Some(m) =>
      var n: int := m;
      Some(if s == 1 && t[0] == '-' then -n else n)
  }

  /** `parseInt` gives no number exactly when no digit of the radix follows
      the leading spaces, the sign and any `0x` prefix, and never a negative
      one without a sign. */
  lemma ParseIntMeans(str: string)
    ensures var t := Text.TrimStart(str);
      var u := t[SignLength(t)..];
      && (ParseInt(str).None? <==>
            if HexPrefixed(u) then |u| == 2 || !IsHexDigit(u[2]) else u == [] || !IsDigit(u[0]))
      && (ParseInt(str).Some? && SignLength(t) == 0 ==> ParseInt(str).value >= 0)
  {
  }

  /** A run made only of hexadecimal digits is read whole. */
  lemma {:induction false} HexRunAll(s: string)
    requires AllHexDigits(s)
    ensures HexRun(s) == |s|
    decreases |s|
  {
    if |s| > 0 {
      HexRunAll(s[1..]);
    }
  }

  /** Past the prefix, a run of hexadecimal digits reads as its value. */
  lemma UnsignedHex(u: string, v: nat)
    requires HexPrefixed(u) && |u| > 2 && AllHexDigits(u[2..]) && HexValue(u[2..]) == v
    ensures UnsignedInt(u) == Some(v)
  {
    HexRunAll(u[2..]);
    assert u[2..][..|u| - 2] == u[2..];
  }

  /** `parseInt` of a text that does not start with white space applies the
      sign to what `UnsignedInt` reads after it. */
  lemma ParseIntSigned(t: string, v: nat)
    requires |t| > 0 && !Text.IsSpace(t[0]) && UnsignedInt(t[SignLength(t)..]) == Some(v)
    ensures ParseInt(t) == Some(if t[0] == '-' then -(v as int) else v as int)
  {
    assert Text.TrimStart(t) == t;
  }

  /** Two hexadecimal digits read as `16 × first + second`. */
  lemma HexPair(hs: string)
    requires |hs| == 2 && AllHexDigits(hs)
    ensures HexValue(hs) == HexDigitValue(hs[0]) * 16 + HexDigitValue(hs[1])
  {
    var first := hs[..1];
    assert first[..0] == [] && first[0] == hs[0];
    assert HexValue(first) == HexDigitValue(hs[0]);
    assert hs[..|hs| - 1] == first;
  }

  /** `parseInt("0x10")` reads the digits after the prefix in base 16. */
  lemma ParseIntHex()
    ensures ParseInt("0x10") == Some(16)
  {
    var t := "0x10";
    assert SignLength(t) == 0 && t[0..] == t && t[2..] == "10";
    HexPair(t[2..]);
    UnsignedHex(t, 16);
    ParseIntSigned(t, 16);
  }

  /** The sign comes before the prefix, and capital letters are digits too. */
  lemma ParseIntSignedHex()
    ensures ParseInt("-0X1f") == Some(-31)
  {
    var t := "-0X1f";
    assert SignLength(t) == 1 && t[1..] == "0X1f" && t[1..][2..] == "1f";
    HexPair(t[1..][2..]);
    UnsignedHex(t[1..], 31);
    ParseIntSigned(t, 31);
  }

  /** A bare `0x` prefix is no number. */
  lemma ParseIntBarePrefix()
    ensures ParseInt("0x") == None
  {
    var t := "0x";
    assert Text.TrimStart(t) == t && SignLength(t) == 0 && t[0..] == t;
    assert HexRun(t[2..]) == 0;
  }

  /** `parseInt` reads back a digit string exactly. */
  lemma ParseIntDigits(ds: string, n: int)
    requires |ds| > 0 && AllDigits(ds) && DigitsValue(ds) == n
    ensures ParseInt(ds) == Some(n)
  {
    assert !Text.IsSpace(ds[0]);
    assert Text.TrimStart(ds) == ds;
    assert SignLength(ds) == 0;
    assert ds[0..] == ds;
    assert ds[..|ds|] == ds;
    assert !HexPrefixed(ds) by {
      if |ds| >= 2 { assert IsDigit(ds[1]); }
    }
  }

  /** `Number(str)` (StringToNumber), for plain decimal literals: the whole
      trimmed string must be a literal; an empty string gives 0. */
  function StringToNumber(str: string): (r: Option<real>)
    ensures Text.IsBlank(str) ==> r == Some(0.0)
    ensures !Text.IsBlank(str) ==> (r.Some? <==> IsDecimal(Text.Trim(str)))
  {
    var t := Text.Trim(str);
    if t == [] then Some(0.0)
    else if IsDecimal(t) then Some(DecimalValue(t))
    else None
  }
}
