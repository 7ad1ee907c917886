/**
 * The two number parsers of Go's `strconv` package that the scoring rules
 * call, as the callers see them: a value together with an error that the
 * caller is free to ignore.
 *
 * `ParseInt(s, 10, 64)` is modelled exactly, including the clamping of
 * out-of-range input to the nearest 64-bit bound. `ParseFloat(s, 64)` is
 * modelled by exact decimal arithmetic over plain decimal notation (an
 * optional sign, digits, an optional point); see `Decimal`.
 */
module StrConv {
  import opened Results

  const MaxUint64: nat := 0xFFFF_FFFF_FFFF_FFFF
  const MaxInt64: int := 0x7FFF_FFFF_FFFF_FFFF
  const MinInt64: int := -0x8000_0000_0000_0000

  /** The error a parser reports beside its value: `nil`, `ErrSyntax` or `ErrRange`. */
  datatype NumError = NoError | ErrSyntax | ErrRange

  /** The pair `(value, err)` that `ParseInt` and `ParseUint` return. */
  datatype IntResult = IntResult(value: int, err: NumError)

  predicate IsDigit(c: char)
  {
    '0' <= c <= '9'
  }

  predicate AllDigits(s: string)
  {
    forall i :: 0 <= i < |s| ==> IsDigit(s[i])
  }

  function DigitValue(c: char): (d: nat)
    requires IsDigit(c)
    ensures d <= 9
  {
    c as int - '0' as int
  }

  function DigitChar(d: nat): (c: char)
    requires d <= 9
    ensures IsDigit(c) && DigitValue(c) == d
  {
    ('0' as int + d) as char
  }

  function Pow10(n: nat): (p: nat)
    ensures p >= 1
  {
    if n == 0 then 1 else 10 * Pow10(n - 1)
  }

  /** The number written by the decimal digits `s` (0 for no digits). */
  function DigitsValue(s: string): nat
    requires AllDigits(s)
  {
    if s == [] then 0 else 10 * DigitsValue(s[..|s| - 1]) + DigitValue(s[|s| - 1])
  }

  /** The shortest decimal digits of `n`, as `strconv.FormatUint` writes them. */
  function FormatNat(n: nat): (s: string)
    ensures AllDigits(s) && |s| >= 1
    ensures DigitsValue(s) == n
  {
    if n < 10 then [DigitChar(n)]
    else
      var s := FormatNat(n / 10) + [DigitChar(n % 10)];
      assert s[..|s| - 1] == FormatNat(n / 10);
      s
  }

  /** The leading digit of a digit string weighs `10^(|s|-1)`. */
  lemma {:induction false} DigitsValueCons(c: char, t: string)
    requires IsDigit(c) && AllDigits(t)
    ensures AllDigits([c] + t)
    ensures DigitsValue([c] + t) == DigitValue(c) * Pow10(|t|) + DigitsValue(t)
    decreases |t|
  {
    var s := [c] + t;
    assert AllDigits(s);
    if t != [] {
      var u := t[..|t| - 1];
      assert s[..|s| - 1] == [c] + u;
      DigitsValueCons(c, u);
      var d, p, last := DigitValue(c), Pow10(|u|), DigitValue(t[|t| - 1]);
      assert DigitsValue(s) == 10 * (d * p + DigitsValue(u)) + last;
      assert DigitsValue(t) == 10 * DigitsValue(u) + last;
      TimesTen(d, p);
    } else {
      assert s[..|s| - 1] == [];
    }
  }

  lemma TimesTen(d: nat, p: nat)
    ensures d * (10 * p) == 10 * (d * p)
  {
  }

  /** `ParseUint`'s digit loop, from accumulated value `acc` on. */
  function ParseUintFrom(s: string, acc: nat): (r: IntResult)
    requires acc <= MaxUint64
    ensures 0 <= r.value <= MaxUint64
    ensures r.err == ErrSyntax ==> r.value == 0
    ensures r.err == ErrRange ==> r.value == MaxUint64
  {
    if s == [] then IntResult(acc, NoError)
    else if !IsDigit(s[0]) then IntResult(0, ErrSyntax)
    else
      var n := acc * 10 + DigitValue(s[0]);
      if n > MaxUint64 then IntResult(MaxUint64, ErrRange)
      else ParseUintFrom(s[1..], n)
  }

  /**
   * `strconv.ParseUint(s, 10, 64)`. The digits are read from the left, and the
   * parse stops with `ErrRange` as soon as the value no longer fits in 64 bits,
   * before the rest of the text has been looked at.
   */
  function ParseUint(s: string): (r: IntResult)
    ensures 0 <= r.value <= MaxUint64
    ensures r.err == ErrSyntax ==> r.value == 0
  {
    if s == [] then IntResult(0, ErrSyntax) else ParseUintFrom(s, 0)
  }

  /**
   * `strconv.ParseInt(s, 10, 64)`: an optional `+` or `-`, then decimal digits.
   * Malformed text gives `(0, ErrSyntax)`; a value outside the 64-bit range
   * gives the nearest bound with `ErrRange`.
   */
  function ParseInt(s: string): (r: IntResult)
    ensures MinInt64 <= r.value <= MaxInt64
    ensures r.err == ErrSyntax ==> r.value == 0
    ensures r.err == ErrRange ==> r.value == MaxInt64 || r.value == MinInt64
  {
    if s == [] then IntResult(0, ErrSyntax)
    else
      var neg := s[0] == '-';
      var digits := if s[0] == '+' || s[0] == '-' then s[1..] else s;
      var u := ParseUint(digits);
      if u.err == ErrSyntax then IntResult(0, ErrSyntax)
      else if !neg && u.value > MaxInt64 then IntResult(MaxInt64, ErrRange)
      else if neg && u.value > -MinInt64 then IntResult(MinInt64, ErrRange)
      else IntResult(if neg then -u.value else u.value, NoError)
  }

  /** On digits alone the loop computes their value, or reports that it is too large. */
  lemma {:induction false} ParseUintFromDigits(s: string, acc: nat)
    requires AllDigits(s) && acc <= MaxUint64
    ensures var v := acc * Pow10(|s|) + DigitsValue(s);
            ParseUintFrom(s, acc) == if v <= MaxUint64 then IntResult(v, NoError)
                                     else IntResult(MaxUint64, ErrRange)
  {
    if s == [] {
      assert acc * Pow10(0) == acc;
    } else {
      var t := s[1..];
      var d := DigitValue(s[0]);
      var n := acc * 10 + d;
      var p := Pow10(|t|);
      assert s == [s[0]] + t;
      DigitsValueCons(s[0], t);
      assert DigitsValue(s) == d * p + DigitsValue(t);
      assert Pow10(|s|) == 10 * p;
      ShiftDigit(acc, d, p, DigitsValue(t));
      if n <= MaxUint64 {
        ParseUintFromDigits(t, n);
      } else {
        AtLeastSelf(n, p);
      }
    }
  }

  lemma ShiftDigit(acc: nat, d: nat, p: nat, x: nat)
    ensures acc * (10 * p) + (d * p + x) == (acc * 10 + d) * p + x
  {
    assert acc * (10 * p) == (acc * 10) * p;
    assert (acc * 10) * p + d * p == (acc * 10 + d) * p;
  }

  lemma AtLeastSelf(n: nat, p: nat)
    requires p >= 1
    ensures n * p >= n
  {
    assert n * p == n + n * (p - 1);
  }

  /** `ParseUint` of a nonempty digit string. */
  lemma ParseUintDigits(s: string)
    requires AllDigits(s) && s != []
    ensures ParseUint(s) == if DigitsValue(s) <= MaxUint64 then IntResult(DigitsValue(s), NoError)
                            else IntResult(MaxUint64, ErrRange)
  {
    ParseUintFromDigits(s, 0);
  }

  /**
   * A signed decimal whose value fits in 64 bits parses to that value;
   * one that does not fit parses to the nearest bound.
   */
  lemma ParseIntDigits(sign: string, digits: string)
    requires sign == "" || sign == "+" || sign == "-"
    requires AllDigits(digits) && digits != []
    ensures var v := if sign == "-" then -(DigitsValue(digits) as int) else DigitsValue(digits);
            ParseInt(sign + digits) == if v > MaxInt64 then IntResult(MaxInt64, ErrRange)
                                       else if v < MinInt64 then IntResult(MinInt64, ErrRange)
                                       else IntResult(v, NoError)
  {
    var s := sign + digits;
    if sign == "" {
      assert s == digits;
    } else {
      assert s[1..] == digits;
    }
    ParseUintDigits(digits);
  }

  /** `strconv.FormatInt(n, 10)`. */
  function FormatInt(n: int): string
  {
    if n < 0 then "-" + FormatNat(-n) else FormatNat(n)
  }

  /** Formatting a 64-bit integer and parsing it back gives the integer. */
  lemma ParseFormatInt(n: int)
    requires MinInt64 <= n <= MaxInt64
    ensures ParseInt(FormatInt(n)) == IntResult(n, NoError)
  {
    if n < 0 {
      ParseIntDigits("-", FormatNat(-n));
    } else {
      ParseIntDigits("", FormatNat(n));
      assert "" + FormatNat(n) == FormatNat(n);
    }
  }

  /** A text whose first character after the sign is not a digit is a syntax error. */
  lemma ParseIntRejects(s: string)
    requires var body := if s != [] && (s[0] == '+' || s[0] == '-') then s[1..] else s;
             body == [] || !IsDigit(body[0])
    ensures ParseInt(s) == IntResult(0, ErrSyntax)
  {
  }

  /**
   * Reading a run of digits: the loop either takes all of them, leaving the
   * rest of the text to read with their value, or stops with `ErrRange` as
   * soon as the value passes `MaxUint64`, whatever follows.
   */
  lemma {:induction false} ParseUintFromPrefix(ds: string, rest: string, acc: nat)
    requires AllDigits(ds) && acc <= MaxUint64
    ensures var v := acc * Pow10(|ds|) + DigitsValue(ds);
            ParseUintFrom(ds + rest, acc) == if v <= MaxUint64 then ParseUintFrom(rest, v)
                                             else IntResult(MaxUint64, ErrRange)
    decreases |ds|
  {
    if ds == [] {
      assert ds + rest == rest;
      assert acc * Pow10(0) == acc;
    } else {
      var t := ds[1..];
      var d := DigitValue(ds[0]);
      var n := acc * 10 + d;
      var p := Pow10(|t|);
      assert (ds + rest)[0] == ds[0];
      assert (ds + rest)[1..] == t + rest;
      assert ds == [ds[0]] + t;
      DigitsValueCons(ds[0], t);
      assert Pow10(|ds|) == 10 * p;
      ShiftDigit(acc, d, p, DigitsValue(t));
      if n <= MaxUint64 {
        ParseUintFromPrefix(t, rest, n);
      } else {
        AtLeastSelf(n, p);
      }
    }
  }

  /**
   * `ParseInt` reads the digits after the sign up to the first other
   * character. If their value still fits in 64 unsigned bits, that character
   * makes the text a syntax error; if it no longer fits, the parse has already
   * stopped with a range error and the character is never looked at.
   */
  lemma ParseIntStopsAt(sign: string, ds: string, rest: string)
    requires sign == "" || sign == "+" || sign == "-"
    requires AllDigits(ds) && ds != []
    requires rest != [] && !IsDigit(rest[0])
    ensures ParseInt(sign + ds + rest) ==
              if DigitsValue(ds) <= MaxUint64 then IntResult(0, ErrSyntax)
              else if sign == "-" then IntResult(MinInt64, ErrRange)
              else IntResult(MaxInt64, ErrRange)
  {
    var s := sign + ds + rest;
    if sign == "" {
      assert s == ds + rest;
    } else {
      assert s[1..] == ds + rest;
    }
    ParseUintFromPrefix(ds, rest, 0);
  }

  /**
   * An exact decimal number `mantissa / 10^scale`. It stands for the `float64`
   * that `ParseFloat` returns. The `float64` is a rounded binary value, but for
   * amounts written with a few decimals the scoring tests (whole, multiple of
   * 0.25, a fifth rounded up) give the same answer on both.
   */
  datatype Decimal = Decimal(mantissa: int, scale: nat)

  /** The pair `(value, err)` that `ParseFloat` returns. */
  datatype FloatResult = FloatResult(value: Decimal, err: NumError)

  /**
   * The mantissa loop of `ParseFloat`: reads digits and at most one point,
   * adding each digit to `mantissa` and counting the digits after the point in
   * `scale`. Fails on any other character, and on text without a digit.
   */
  function ScanDecimal(s: string, mantissa: nat, scale: nat, sawDot: bool, sawDigits: bool): (r: Option<Decimal>)
    ensures r.Some? ==> r.value.mantissa >= mantissa && r.value.scale >= scale
  {
    if s == [] then
      if sawDigits then Some(Decimal(mantissa, scale)) else None
    else if IsDigit(s[0]) then
      ScanDecimal(s[1..], mantissa * 10 + DigitValue(s[0]), if sawDot then scale + 1 else scale, sawDot, true)
    else if s[0] == '.' && !sawDot then
      ScanDecimal(s[1..], mantissa, scale, true, sawDigits)
    else
      None
  }

  /**
   * `strconv.ParseFloat(s, 64)` on plain decimal notation: an optional sign,
   * digits, and an optional point with more digits, at least one digit in all.
   * Anything else is a syntax error, with value 0. Only a leading `-` gives a
   * negative value.
   */
  function ParseFloat(s: string): (r: FloatResult)
    ensures r.err != ErrRange
    ensures r.err == ErrSyntax ==> r.value == Decimal(0, 0)
    ensures r.value.mantissa < 0 ==> s != [] && s[0] == '-'
  {
    var neg := s != [] && s[0] == '-';
    var body := if s != [] && (s[0] == '+' || s[0] == '-') then s[1..] else s;
    match ScanDecimal(body, 0, 0, false, false)
    case Some(d) => FloatResult(Decimal(if neg then -d.mantissa else d.mantissa, d.scale), NoError)
    case None => FloatResult(Decimal(0, 0), ErrSyntax)
  }

  /** Text made only of digits and points. */
  predicate DigitsAndPoints(s: string)
  {
    forall i :: 0 <= i < |s| ==> IsDigit(s[i]) || s[i] == '.'
  }

  predicate HasDigit(s: string)
  {
    exists i :: 0 <= i < |s| && IsDigit(s[i])
  }

  /**
   * Plain decimal notation without a sign: digits and at most one point, with
   * at least one digit.
   */
  predicate PlainDecimal(s: string)
  {
    DigitsAndPoints(s) && multiset(s)['.'] <= 1 && HasDigit(s)
  }

  /**
   * The mantissa loop succeeds exactly on digits and points, with at most one
   * point in all (counting one already seen) and at least one digit in all.
   */
  lemma {:induction false} ScanDecimalAccepts(s: string, mantissa: nat, scale: nat, sawDot: bool, sawDigits: bool)
    ensures ScanDecimal(s, mantissa, scale, sawDot, sawDigits).Some? <==>
              DigitsAndPoints(s) && multiset(s)['.'] + (if sawDot then 1 else 0) <= 1 &&
              (sawDigits || HasDigit(s))
  {
    if s != [] {
      var c, t := s[0], s[1..];
      assert s == [c] + t;
      assert multiset(s)['.'] == multiset(t)['.'] + (if c == '.' then 1 else 0);
      assert DigitsAndPoints(s) <==> (IsDigit(c) || c == '.') && DigitsAndPoints(t) by {
        if DigitsAndPoints(s) {
          forall i | 0 <= i < |t| ensures IsDigit(t[i]) || t[i] == '.' {
            assert t[i] == s[i + 1];
          }
        }
      }
      assert HasDigit(s) <==> IsDigit(c) || HasDigit(t) by {
        if HasDigit(t) {
          var i :| 0 <= i < |t| && IsDigit(t[i]);
          assert s[i + 1] == t[i];
        }
        if HasDigit(s) && !IsDigit(c) {
          var i :| 0 <= i < |s| && IsDigit(s[i]);
          assert t[i - 1] == s[i];
        }
      }
      if IsDigit(c) {
        ScanDecimalAccepts(t, mantissa * 10 + DigitValue(c), if sawDot then scale + 1 else scale, sawDot, true);
      } else if c == '.' && !sawDot {
        ScanDecimalAccepts(t, mantissa, scale, true, sawDigits);
      }
    }
  }

  /**
   * `ParseFloat` reports no error exactly on plain decimal notation after at
   * most one leading sign. So "9,00", "$9.00", "9.00 USD", "1e3" and "1.2.3"
   * are all syntax errors.
   */
  lemma ParseFloatAccepts(s: string)
    ensures var body := if s != [] && (s[0] == '+' || s[0] == '-') then s[1..] else s;
            ParseFloat(s).err == NoError <==> PlainDecimal(body)
  {
    var body := if s != [] && (s[0] == '+' || s[0] == '-') then s[1..] else s;
    ScanDecimalAccepts(body, 0, 0, false, false);
  }

  /** A comma as decimal separator makes a syntax error. */
  lemma CommaIsSyntaxError(ip: string, fp: string)
    requires AllDigits(ip) && AllDigits(fp)
    ensures ParseFloat(ip + "," + fp).err == ErrSyntax
  {
    var s := ip + "," + fp;
    ParseFloatAccepts(s);
    assert s[0] == if ip == [] then ',' else ip[0];
    assert s[|ip|] == ',';
  }

  /** Scanning a run of digits adds their value to the mantissa. */
  lemma {:induction false} ScanDigits(ds: string, rest: string, mantissa: nat, scale: nat, sawDot: bool, sawDigits: bool)
    requires AllDigits(ds)
    ensures ScanDecimal(ds + rest, mantissa, scale, sawDot, sawDigits) ==
            ScanDecimal(rest, mantissa * Pow10(|ds|) + DigitsValue(ds),
                        if sawDot then scale + |ds| else scale, sawDot, sawDigits || ds != [])
    decreases |ds|
  {
    if ds == [] {
      assert ds + rest == rest;
      assert mantissa * Pow10(0) == mantissa;
    } else {
      var t := ds[1..];
      var d := DigitValue(ds[0]);
      var m := mantissa * 10 + d;
      var p := Pow10(|t|);
      assert (ds + rest)[0] == ds[0];
      assert (ds + rest)[1..] == t + rest;
      ScanDigits(t, rest, m, if sawDot then scale + 1 else scale, sawDot, true);
      assert ds == [ds[0]] + t;
      DigitsValueCons(ds[0], t);
      assert DigitsValue(ds) == d * p + DigitsValue(t);
      assert Pow10(|ds|) == 10 * p;
      ShiftDigit(mantissa, d, p, DigitsValue(t));
      assert mantissa * Pow10(|ds|) + DigitsValue(ds) == m * p + DigitsValue(t);
    }
  }

  /** An amount written as dollars, a point and two cent digits parses to its cents. */
  lemma ParseFloatDollarsCents(dollars: nat, cents: nat)
    requires cents < 100
    ensures ParseFloat(FormatNat(dollars) + "." + [DigitChar(cents / 10), DigitChar(cents % 10)])
            == FloatResult(Decimal(100 * dollars + cents, 2), NoError)
  {
    var w := FormatNat(dollars);
    var f := [DigitChar(cents / 10), DigitChar(cents % 10)];
    var s := w + "." + f;
    assert s[0] == w[0] && IsDigit(w[0]);
    assert s == w + ("." + f);
    ScanDigits(w, "." + f, 0, 0, false, false);
    assert ("." + f)[1..] == f;
    assert ScanDecimal(s, 0, 0, false, false) == ScanDecimal(f, dollars, 0, true, true);
    ScanDigits(f, [], dollars, 0, true, true);
    assert f + [] == f;
    TwoDigits(cents);
    assert ScanDecimal(s, 0, 0, false, false) == Some(Decimal(dollars * 100 + cents, 2));
  }

  /** Digits written after other digits shift those left by their own length. */
  lemma {:induction false} DigitsValueAppend(a: string, b: string)
    requires AllDigits(a) && AllDigits(b)
    ensures AllDigits(a + b)
    ensures DigitsValue(a + b) == DigitsValue(a) * Pow10(|b|) + DigitsValue(b)
    decreases |b|
  {
    assert AllDigits(a + b);
    if b == [] {
      assert a + b == a;
    } else {
      var c := b[..|b| - 1];
      assert (a + b)[..|a + b| - 1] == a + c;
      DigitsValueAppend(a, c);
      var x, p, last := DigitsValue(a), Pow10(|c|), DigitValue(b[|b| - 1]);
      assert DigitsValue(a + b) == 10 * (x * p + DigitsValue(c)) + last;
      assert DigitsValue(b) == 10 * DigitsValue(c) + last;
      TimesTen(x, p);
    }
  }

  /**
   * `ParseFloat` of a sign followed by text whose mantissa loop succeeds:
   * the scanned value, negated after a `-`.
   */
  lemma ParseFloatSigned(sign: string, body: string, d: Decimal)
    requires sign == "" || sign == "+" || sign == "-"
    requires body != [] && body[0] != '+' && body[0] != '-'
    requires ScanDecimal(body, 0, 0, false, false) == Some(d)
    ensures ParseFloat(sign + body) ==
              FloatResult(Decimal(if sign == "-" then -d.mantissa else d.mantissa, d.scale), NoError)
  {
    var s := sign + body;
    if sign == "" {
      assert s == body;
    } else {
      assert s[1..] == body;
    }
  }

  /**
   * After the digits before the point and the point itself, the mantissa loop
   * reads the remaining digits onto them, giving all the digits as one number.
   */
  lemma ScanFraction(ip: string, fp: string)
    requires AllDigits(ip) && AllDigits(fp) && ip + fp != []
    ensures AllDigits(ip + fp)
    ensures ScanDecimal(fp, DigitsValue(ip), 0, true, ip != []) == Some(Decimal(DigitsValue(ip + fp), |fp|))
  {
    assert ip != [] || fp != [];
    ScanDigits(fp, [], DigitsValue(ip), 0, true, ip != []);
    assert fp + [] == fp;
    DigitsValueAppend(ip, fp);
  }

  /** The digits before the point, then the point itself. */
  lemma ScanIntegerPart(ip: string, fp: string)
    requires AllDigits(ip)
    ensures ScanDecimal(ip + "." + fp, 0, 0, false, false) ==
            ScanDecimal(fp, DigitsValue(ip), 0, true, ip != [])
  {
    assert ip + "." + fp == ip + ("." + fp);
    ScanDigits(ip, "." + fp, 0, 0, false, false);
    assert ("." + fp)[1..] == fp;
  }

  /**
   * A plain decimal with a point, such as "9.5", "09.250", ".5" or "-2.25":
   * its value is all its digits read as one number, with as many decimals as
   * follow the point.
   */
  lemma ParseFloatPointed(sign: string, ip: string, fp: string)
    requires sign == "" || sign == "+" || sign == "-"
    requires AllDigits(ip) && AllDigits(fp) && ip + fp != []
    ensures AllDigits(ip + fp)
    ensures var v: int := DigitsValue(ip + fp);
            ParseFloat(sign + ip + "." + fp) ==
              FloatResult(Decimal(if sign == "-" then -v else v, |fp|), NoError)
  {
    var body := ip + "." + fp;
    assert body[0] == if ip == [] then '.' else ip[0];
    ScanIntegerPart(ip, fp);
    ScanFraction(ip, fp);
    ParseFloatSigned(sign, body, Decimal(DigitsValue(ip + fp), |fp|));
    Regroup(sign, ip, fp);
  }

  lemma Regroup(sign: string, ip: string, fp: string)
    ensures sign + ip + "." + fp == sign + (ip + "." + fp)
  {
  }

  /** A plain decimal without a point, such as "9" or "+042", is a whole number. */
  lemma ParseFloatWhole(sign: string, ip: string)
    requires sign == "" || sign == "+" || sign == "-"
    requires AllDigits(ip) && ip != []
    ensures var v: int := DigitsValue(ip);
            ParseFloat(sign + ip) == FloatResult(Decimal(if sign == "-" then -v else v, 0), NoError)
  {
    ScanDigits(ip, [], 0, 0, false, false);
    assert ip + [] == ip;
    assert IsDigit(ip[0]);
    ParseFloatSigned(sign, ip, Decimal(DigitsValue(ip), 0));
  }

  lemma TwoDigits(n: nat)
    requires n < 100
    ensures DigitsValue([DigitChar(n / 10), DigitChar(n % 10)]) == n
    ensures Pow10(2) == 100
  {
    var f := [DigitChar(n / 10), DigitChar(n % 10)];
    assert f[..|f| - 1] == [f[0]];
    assert [f[0]][..0] == [];
    assert DigitsValue([f[0]]) == n / 10;
    assert DigitsValue(f) == 10 * (n / 10) + n % 10;
  }

  /**
   * A value that is a whole number (`x == float64(int64(x))`): every digit
   * after the decimal point is zero. Stated digit by digit so that only
   * division by ten is involved; `IsWholeMod` gives the closed form.
   */
  predicate IsWhole(d: Decimal)
    decreases d.scale
  {
    d.scale == 0 || (d.mantissa % 10 == 0 && IsWhole(Decimal(d.mantissa / 10, d.scale - 1)))
  }

  /** A value that is a multiple of 0.25 (`math.Mod(x, 0.25) == 0`): four times it is whole. */
  predicate IsQuarterMultiple(d: Decimal): (b: bool)
    ensures b <==> (4 * d.mantissa) % Pow10(d.scale) == 0
  {
    IsWholeMod(Decimal(4 * d.mantissa, d.scale));
    IsWhole(Decimal(4 * d.mantissa, d.scale))
  }

  /** A value is whole exactly when `10^scale` divides its mantissa. */
  lemma {:induction false} IsWholeMod(d: Decimal)
    ensures IsWhole(d) <==> d.mantissa % Pow10(d.scale) == 0
    decreases d.scale
  {
    if d.scale > 0 {
      var m, p := d.mantissa, Pow10(d.scale - 1);
      IsWholeMod(Decimal(m / 10, d.scale - 1));
      DivideInTwoSteps(m, p);
    }
  }

  /** `10 * p` divides `m` exactly when 10 divides `m` and `p` divides `m / 10`. */
  lemma DivideInTwoSteps(m: int, p: nat)
    requires p > 0
    ensures m % (10 * p) == 0 <==> m % 10 == 0 && (m / 10) % p == 0
  {
    if m % (10 * p) == 0 {
      var k := m / (10 * p);
      assert m == 10 * (p * k);
      assert m / 10 == p * k;
      MultipleMod(p, k);
      MultipleMod(10, p * k);
    }
    if m % 10 == 0 && (m / 10) % p == 0 {
      var k := (m / 10) / p;
      assert m == (10 * p) * k;
      MultipleMod(10 * p, k);
    }
  }

  /** Every whole number is also a multiple of 0.25. */
  lemma {:induction false} WholeIsQuarterMultiple(d: Decimal)
    requires IsWhole(d)
    ensures IsQuarterMultiple(d)
    decreases d.scale
  {
    if d.scale > 0 {
      var next := Decimal(d.mantissa / 10, d.scale - 1);
      WholeIsQuarterMultiple(next);
      assert (4 * d.mantissa) / 10 == 4 * next.mantissa;
    }
  }

  /** A multiple of `p` leaves no remainder when divided by `p`. */
  lemma MultipleMod(p: nat, k: int)
    requires p > 0
    ensures (p * k) % p == 0
  {
    var q := (p * k) / p;
    var r := (p * k) % p;
    assert p * k == p * q + r;
    assert p * (k - q) == r;
    // a multiple of p below p and not negative: k - q is zero
    if k - q >= 1 {
      assert false;
    } else if k - q <= -1 {
      assert false;
    }
  }

  /** The least integer at least `a / b`; it is never negative for a non-negative `a`. */
  function CeilDiv(a: int, b: int): (q: int)
    requires b > 0
    ensures a >= 0 ==> q >= 0
  {
    -((-a) / b)
  }

  /** `CeilDiv(a, b)` is the least integer `q` with `a <= b * q`. */
  lemma CeilDivBounds(a: int, b: int)
    requires b > 0
    ensures var q := CeilDiv(a, b); b * (q - 1) < a <= b * q
  {
  }

  /**
   * `math.Ceil(x * 0.2)`: the least integer at least a fifth of the value,
   * rounding up one decimal digit at a time; `CeilFifthBounds` gives the
   * closed form.
   */
  function CeilFifth(d: Decimal): (q: int)
    ensures d.mantissa >= 0 ==> q >= 0
    decreases d.scale
  {
    if d.scale == 0 then CeilDiv(d.mantissa, 5)
    else CeilFifth(Decimal(CeilDiv(d.mantissa, 10), d.scale - 1))
  }

  /** `CeilFifth(d)` is the least integer at least `d / 5`. */
  lemma {:induction false} CeilFifthBounds(d: Decimal)
    ensures var q, p := CeilFifth(d), 5 * Pow10(d.scale);
            p * (q - 1) < d.mantissa <= p * q
    decreases d.scale
  {
    var q := CeilFifth(d);
    if d.scale == 0 {
      CeilDivBounds(d.mantissa, 5);
    } else {
      var c := CeilDiv(d.mantissa, 10);
      var p' := 5 * Pow10(d.scale - 1);
      CeilFifthBounds(Decimal(c, d.scale - 1));
      CeilDivBounds(d.mantissa, 10);
      assert 5 * Pow10(d.scale) == 10 * p';
      assert p' * (q - 1) < c <= p' * q;
      assert 10 * (c - 1) < d.mantissa <= 10 * c;
      assert p' * (q - 1) <= c - 1;
    }
  }

  /** For amounts in cents, the three tests are the tests on the cent count. */
  lemma CentsView(cents: int)
    ensures IsWhole(Decimal(cents, 2)) <==> cents % 100 == 0
    ensures IsQuarterMultiple(Decimal(cents, 2)) <==> cents % 25 == 0
    ensures CeilFifth(Decimal(cents, 2)) == CeilDiv(cents, 500)
  {
    CentsWhole(cents);
    CentsQuarter(cents);
    CentsCeil(cents);
  }

  lemma CentsWhole(cents: int)
    ensures IsWhole(Decimal(cents, 2)) <==> cents % 100 == 0
  {
    IsWholeMod(Decimal(cents, 2));
    assert Pow10(2) == 100;
  }

  lemma CentsQuarter(cents: int)
    ensures IsQuarterMultiple(Decimal(cents, 2)) <==> cents % 25 == 0
  {
    IsWholeMod(Decimal(4 * cents, 2));
    assert Pow10(2) == 100;
  }

  lemma CentsCeil(cents: int)
    ensures CeilFifth(Decimal(cents, 2)) == CeilDiv(cents, 500)
  {
    var q, q' := CeilFifth(Decimal(cents, 2)), CeilDiv(cents, 500);
    CeilFifthBounds(Decimal(cents, 2));
    CeilDivBounds(cents, 500);
    assert Pow10(2) == 100;
    assert 500 * (q - 1) < cents <= 500 * q;
    assert 500 * (q' - 1) < cents <= 500 * q';
  }

  /**
   * Go's `%` truncates toward zero, so the remainder takes the sign of the
   * dividend (Dafny's `%` never gives a negative result).
   */
  function GoRem(a: int, b: int): (r: int)
    requires b > 0
    ensures a >= 0 ==> 0 <= r < b
    ensures a < 0 ==> -b < r <= 0
    ensures (a - r) % b == 0
  {
    if a >= 0 then
      assert a - a % b == b * (a / b);
      MultipleMod(b, a / b);
      a % b
    else
      assert -a == b * ((-a) / b) + (-a) % b;
      assert a + (-a) % b == b * -((-a) / b);
      MultipleMod(b, -((-a) / b));
      -((-a) % b)
  }

  /** `a % 2 == 1` in Go holds exactly for the positive odd numbers. */
  lemma GoRemOdd(a: int)
    ensures GoRem(a, 2) == 1 <==> a > 0 && a % 2 == 1
  {
  }
}
