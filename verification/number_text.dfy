/** The text <-> number conversions the edit form relies on: JavaScript's
    parseInt and parseFloat (prefix parsers that yield NaN, here None, when
    no digit can be read) and Number.prototype.toFixed(2). */
module NumberText {
  import opened Wrappers
  import opened Decimal

  predicate IsDigit(c: char) {
    '0' <= c <= '9'
  }

  predicate AllDigits(s: string) {
    forall i :: 0 <= i < |s| ==> IsDigit(s[i])
  }

  function DigitValue(c: char): (v: nat)
    requires IsDigit(c)
    ensures v < 10
  {
    c as int - '0' as int
  }

  function DigitChar(v: nat): (c: char)
    requires v < 10
    ensures IsDigit(c) && DigitValue(c) == v
  {
    ('0' as int + v) as char
  }

  /** The number a string of decimal digits denotes (most significant first). */
  function DigitsValue(s: string): nat
    requires AllDigits(s)
  {
    if s == [] then 0 else 10 * DigitsValue(s[..|s| - 1]) + DigitValue(s[|s| - 1])
  }

  /** Length of the longest all-digit prefix of s. */
  function DigitRun(s: string): (n: nat)
    ensures n <= |s|
    ensures AllDigits(s[..n])
    ensures n < |s| ==> !IsDigit(s[n])
  {
    if s != [] && IsDigit(s[0]) then
      var n := 1 + DigitRun(s[1..]);
      assert s[..n] == [s[0]] + s[1..][..n - 1];
      n
    else 0
  }

  /** b begins with a decimal digit. */
  predicate StartsWithDigit(b: string) {
    b != [] && IsDigit(b[0])
  }

  /** b begins with a digit, or with '.' followed by a digit: the least text
      parseFloat reads as a number. */
  predicate StartsDecimal(b: string) {
    StartsWithDigit(b) || (|b| > 1 && b[0] == '.' && IsDigit(b[1]))
  }

  predicate IsSignChar(c: char) {
    c == '-' || c == '+'
  }

  /** The optional leading sign both parsers accept: (negative, rest). */
  function SplitSign(s: string): (bool, string) {
    if s != [] && (s[0] == '-' || s[0] == '+') then (s[0] == '-', s[1..]) else (false, s)
  }

  function Negate(negative: bool, v: int): int {
    if negative then -v else v
  }

  /** parseInt(s): the optionally signed run of digits at the start of s;
      anything after it is ignored. */
  function ParseInt(s: string): (r: Option<int>)
    ensures r.Some? <==> StartsWithDigit(s) || (s != [] && IsSignChar(s[0]) && StartsWithDigit(s[1..]))
  {
    var (negative, body) := SplitSign(s);
    var n := DigitRun(body);
    if n == 0 then None else Some(Negate(negative, DigitsValue(body[..n])))
  }

  /** The digits directly after a '.' that starts rest, if any. */
  function Fraction(rest: string): (f: string)
    ensures AllDigits(f)
  {
    if rest != [] && rest[0] == '.' then rest[1..][..DigitRun(rest[1..])] else []
  }

  /** parseFloat(s): an optional sign, then an unsigned decimal. */
  function ParseFloat(s: string): (r: Option<Dec>)
    ensures r.Some? <==> StartsDecimal(s) || (s != [] && IsSignChar(s[0]) && StartsDecimal(s[1..]))
  {
    var (negative, body) := SplitSign(s);
    match ReadDecimal(body)
    case Some(d) => Some(Dec(Negate(negative, d.units), d.places))
    case None => None
  }

  /** The whole-number digits at the start of body and an optional '.' with
      fraction digits; at least one digit in all, or None. */
  function ReadDecimal(body: string): (r: Option<Dec>)
    ensures r.Some? ==> r.value.units >= 0
    ensures r.Some? <==> StartsDecimal(body)
  {
    var n := DigitRun(body);
    var whole := body[..n];
    var frac := Fraction(body[n..]);
    if whole == [] && frac == [] then None
    else
      AllDigitsAppend(whole, frac);
      Some(Dec(DigitsValue(whole + frac), |frac|))
  }

  /** Decimal digits of n, with no leading zeros. */
  function NatToString(n: nat): (s: string)
    ensures s != [] && AllDigits(s)
    ensures |s| > 1 ==> s[0] != '0'
    ensures DigitsValue(s) == n
  {
    if n < 10 then [DigitChar(n)]
    else
      var s := NatToString(n / 10) + [DigitChar(n % 10)];
      assert s[..|s| - 1] == NatToString(n / 10);
      s
  }

  /** A count of hundredths written with two fractional digits: 3350 is "33.50". */
  function CentsToString(n: nat): string {
    NatToString(n / 100) + "." + [DigitChar(n % 100 / 10), DigitChar(n % 10)]
  }

  /** Number.prototype.toFixed(2) applied to the exact value of d: the sign is
      taken from d, the digits from the rounded magnitude (so a small negative
      amount shows as "-0.00"). */
  function ToFixed2(d: Dec): (t: string)
    ensures |t| >= 4 && t[|t| - 3] == '.'
    ensures t[0] == '-' <==> d.units < 0
  {
    (if d.units < 0 then "-" else "") + CentsToString(RoundedCents(d))
  }

  lemma AllDigitsAppend(a: string, b: string)
    requires AllDigits(a) && AllDigits(b)
    ensures AllDigits(a + b)
  {
  }

  lemma {:induction false} DigitsValueAppend(a: string, b: string)
    requires AllDigits(a) && AllDigits(b)
    ensures AllDigits(a + b)
    ensures DigitsValue(a + b) == DigitsValue(a) * Pow10(|b|) + DigitsValue(b)
  {
    if b == [] {
      assert a + b == a;
    } else {
      var b' := b[..|b| - 1];
      assert (a + b)[..|a + b| - 1] == a + b';
      DigitsValueAppend(a, b');
      var last := DigitValue(b[|b| - 1]);
      assert DigitsValue(a + b) == 10 * DigitsValue(a + b') + last;
      assert DigitsValue(b) == 10 * DigitsValue(b') + last;
      assert Pow10(|b|) == 10 * Pow10(|b'|);
      ShiftDigit(DigitsValue(a), Pow10(|b'|), DigitsValue(b'), last);
    }
  }

  lemma ShiftDigit(x: int, p: int, y: int, d: int)
    ensures 10 * (x * p + y) + d == x * (10 * p) + (10 * y + d)
  {
  }

  lemma {:induction false} DigitsValueBound(s: string)
    requires AllDigits(s)
    ensures DigitsValue(s) < Pow10(|s|)
  {
    if s != [] {
      DigitsValueBound(s[..|s| - 1]);
    }
  }

  /** tail cannot extend a run of digits. */
  predicate StopsDigits(tail: string) {
    tail == [] || !IsDigit(tail[0])
  }

  lemma {:induction false} DigitRunOf(ds: string, tail: string)
    requires AllDigits(ds) && StopsDigits(tail)
    ensures DigitRun(ds + tail) == |ds|
  {
    if ds != [] {
      assert (ds + tail)[1..] == ds[1..] + tail;
      DigitRunOf(ds[1..], tail);
    }
  }

  /** The sign prefixes the parsers understand. */
  predicate IsSign(sign: string) {
    sign == "" || sign == "-" || sign == "+"
  }

  lemma SplitSignOf(sign: string, body: string)
    requires IsSign(sign)
    requires body == [] || (body[0] != '-' && body[0] != '+')
    ensures SplitSign(sign + body) == (sign == "-", body)
  {
    if sign == "" {
      assert sign + body == body;
    } else {
      assert (sign + body)[1..] == body;
    }
  }

  /** parseInt reads the leading digits and ignores whatever follows them,
      e.g. parseInt("3.7") is 3 and parseInt("-12abc") is -12. */
  lemma ParseIntOf(sign: string, ds: string, tail: string)
    requires IsSign(sign) && ds != [] && AllDigits(ds) && StopsDigits(tail)
    ensures ParseInt(sign + (ds + tail)) == Some(Negate(sign == "-", DigitsValue(ds)))
  {
    assert (ds + tail)[0] == ds[0];
    SplitSignOf(sign, ds + tail);
    DigitRunOf(ds, tail);
    assert (ds + tail)[..|ds|] == ds;
  }

  lemma FractionOf(fs: string, tail: string)
    requires AllDigits(fs) && StopsDigits(tail)
    ensures Fraction("." + (fs + tail)) == fs
  {
    assert ("." + (fs + tail))[1..] == fs + tail;
    DigitRunOf(fs, tail);
    assert (fs + tail)[..|fs|] == fs;
  }

  lemma SplitAtDigits(ds: string, rest: string)
    requires AllDigits(ds) && StopsDigits(rest)
    ensures DigitRun(ds + rest) == |ds|
    ensures (ds + rest)[..|ds|] == ds && (ds + rest)[|ds|..] == rest
  {
    DigitRunOf(ds, rest);
  }

  lemma ReadDecimalOf(ds: string, fs: string, tail: string)
    requires AllDigits(ds) && AllDigits(fs) && StopsDigits(tail)
    requires ds != [] || fs != []
    ensures AllDigits(ds + fs)
    ensures ReadDecimal(ds + ("." + (fs + tail))) == Some(Dec(DigitsValue(ds + fs), |fs|))
  {
    var rest := "." + (fs + tail);
    SplitAtDigits(ds, rest);
    FractionOf(fs, tail);
  }

  /** parseFloat reads the leading digits, a '.', and the fraction digits
      after it, and ignores whatever follows. */
  lemma ParseFloatOf(sign: string, ds: string, fs: string, tail: string)
    requires IsSign(sign) && AllDigits(ds) && AllDigits(fs) && StopsDigits(tail)
    requires ds != [] || fs != []
    ensures AllDigits(ds + fs)
    ensures ParseFloat(sign + (ds + ("." + (fs + tail))))
         == Some(Dec(Negate(sign == "-", DigitsValue(ds + fs)), |fs|))
  {
    var body := ds + ("." + (fs + tail));
    assert body[0] == if ds != [] then ds[0] else '.';
    SplitSignOf(sign, body);
    ReadDecimalOf(ds, fs, tail);
  }

  /** Without a '.', parseFloat reads just the leading digits. */
  lemma ParseFloatWholeOf(sign: string, ds: string, tail: string)
    requires IsSign(sign) && ds != [] && AllDigits(ds) && StopsDigits(tail)
    requires tail == [] || tail[0] != '.'
    ensures ParseFloat(sign + (ds + tail)) == Some(Dec(Negate(sign == "-", DigitsValue(ds)), 0))
  {
    var body := ds + tail;
    assert body[0] == ds[0];
    SplitSignOf(sign, body);
    SplitAtDigits(ds, tail);
    assert ds + [] == ds;
  }

  lemma TwoDigitsValue(a: nat, b: nat)
    requires a < 10 && b < 10
    ensures DigitsValue([DigitChar(a), DigitChar(b)]) == 10 * a + b
  {
    var s := [DigitChar(a), DigitChar(b)];
    assert s[..1] == [DigitChar(a)];
    assert [DigitChar(a)][..0] == [];
    assert DigitsValue([DigitChar(a)]) == a;
    assert DigitsValue(s) == 10 * DigitsValue(s[..1]) + DigitValue(s[1]);
  }

  /** The string ToFixed2 writes parses back to the rounded amount it shows. */
  lemma ToFixed2ReadsBack(d: Dec)
    ensures ParseFloat(ToFixed2(d)) == Some(Dec(Negate(d.units < 0, RoundedCents(d)), 2))
  {
    CentsReadBack(d.units < 0, RoundedCents(d));
  }

  /** A signed amount of hundredths written as CentsToString parses back to itself. */
  lemma CentsReadBack(negative: bool, n: nat)
    ensures ParseFloat((if negative then "-" else "") + CentsToString(n)) == Some(Dec(Negate(negative, n), 2))
  {
    var sign := if negative then "-" else "";
    var ds := NatToString(n / 100);
    var fs := [DigitChar(n % 100 / 10), DigitChar(n % 10)];
    assert AllDigits(ds + fs) && DigitsValue(ds + fs) == n by {
      DigitsValueAppend(ds, fs);
      TwoDigitsValue(n % 100 / 10, n % 10);
      CentsDigits(n);
    }
    assert sign + CentsToString(n) == sign + (ds + ("." + (fs + "")));
    ParseFloatOf(sign, ds, fs, "");
  }

  lemma CentsDigits(n: nat)
    ensures (n / 100) * Pow10(2) + (10 * (n % 100 / 10) + n % 10) == n
  {
    assert Pow10(2) == 100;
    var h, r := n / 100, n % 100;
    assert n == 100 * h + r;
    assert r == 10 * (r / 10) + r % 10;
    assert n % 10 == r % 10 by {
      assert n == 10 * (10 * h + r / 10) + r % 10;
    }
  }

  /** toFixed(2) shows |Value(d)| rounded to the nearest hundredth, a half
      rounded up, with the sign of d. */
  lemma ToFixed2Rounds(d: Dec)
    ensures var n := RoundedCents(d) as real;
      n - 0.5 <= AbsReal(Value(d)) * 100.0 < n + 0.5
    ensures d.units < 0 <==> Value(d) < 0.0
  {
    var n: int := RoundedCents(d);
    var p := Pow10(d.places);
    var a := Abs(d.units);
    IntBoundsAsReal(n, a, p);
    RealDivBounds(100.0 * a as real, n as real - 0.5, n as real + 0.5, p as real);
    AbsValue(d);
  }

  lemma AbsValue(d: Dec)
    ensures AbsReal(Value(d)) * 100.0 == 100.0 * Abs(d.units) as real / Pow10(d.places) as real
    ensures d.units < 0 <==> Value(d) < 0.0
  {
    var u, p := d.units as real, Pow10(d.places) as real;
    assert Abs(d.units) as real == AbsReal(u);
    AbsQuotient(u, p);
  }

  lemma AbsQuotient(u: real, p: real)
    requires p > 0.0
    ensures AbsReal(u / p) * 100.0 == 100.0 * AbsReal(u) / p
    ensures u < 0.0 <==> u / p < 0.0
  {
    var q := u / p;
    assert u == q * p;
    if u < 0.0 {
      assert q < 0.0;
    } else {
      assert q >= 0.0;
    }
  }

  lemma IntBoundsAsReal(n: int, a: int, p: int)
    requires (2 * n - 1) * p <= 200 * a < (2 * n + 1) * p
    ensures (n as real - 0.5) * p as real <= 100.0 * a as real < (n as real + 0.5) * p as real
  {
    assert ((2 * n - 1) * p) as real == 2.0 * ((n as real - 0.5) * p as real);
    assert ((2 * n + 1) * p) as real == 2.0 * ((n as real + 0.5) * p as real);
  }

  /** The text toFixed(2) writes starts with '-' exactly when the amount is
      negative (so a tiny negative amount shows as "-0.00"). */
  lemma ToFixed2Sign(d: Dec)
    ensures ToFixed2(d)[0] == '-' <==> Value(d) < 0.0
  {
    AbsValue(d);
  }

  /** The layout of what toFixed(2) writes: an optional '-', the whole
      hundreds as digits without a leading zero, a '.', exactly two digits
      and nothing after; together the digits spell the rounded hundredths. */
  lemma ToFixed2Layout(d: Dec)
    ensures var t, s := ToFixed2(d), if d.units < 0 then 1 else 0;
      && s + 4 <= |t| && t[|t| - 3] == '.'
      && AllDigits(t[s..|t| - 3]) && AllDigits(t[|t| - 2..])
      && (|t| - 3 - s > 1 ==> t[s] != '0')
      && DigitsValue(t[s..|t| - 3]) * 100 + DigitsValue(t[|t| - 2..]) == RoundedCents(d)
  {
    CentsLayout(d.units < 0, RoundedCents(d));
  }

  lemma CentsLayout(negative: bool, n: nat)
    ensures var t, s := (if negative then "-" else "") + CentsToString(n), if negative then 1 else 0;
      && s + 4 <= |t| && t[|t| - 3] == '.'
      && AllDigits(t[s..|t| - 3]) && AllDigits(t[|t| - 2..])
      && (|t| - 3 - s > 1 ==> t[s] != '0')
      && DigitsValue(t[s..|t| - 3]) * 100 + DigitsValue(t[|t| - 2..]) == n
  {
    var sign := if negative then "-" else "";
    var ds := NatToString(n / 100);
    var fs := [DigitChar(n % 100 / 10), DigitChar(n % 10)];
    var t := sign + CentsToString(n);
    assert t == sign + ds + "." + fs;
    assert t[|sign|..|t| - 3] == ds;
    assert t[|t| - 2..] == fs;
    TwoDigitsValue(n % 100 / 10, n % 10);
    CentsDigits(n);
  }

  /** c hundredths is what toFixed(2) shows for x: |c| is |x| × 100 rounded
      to the nearest integer (a half rounded up), and c has no sign x lacks. */
  ghost predicate ShowsRounded(x: real, c: int) {
    && Abs(c) as real - 0.5 <= AbsReal(x) * 100.0 < Abs(c) as real + 0.5
    && (c > 0 ==> x > 0.0)
    && (c < 0 ==> x < 0.0)
  }

  /** An amount that is a whole number of hundredths is shown exactly. */
  lemma ShowsRoundedExact(x: real, k: int, c: int)
    requires x * 100.0 == k as real
    requires ShowsRounded(x, c)
    ensures c == k
  {
    assert AbsReal(x) * 100.0 == Abs(k) as real;
  }

  /** What toFixed(2) writes for d reads back as d rounded to hundredths. */
  lemma ToFixed2Shows(d: Dec)
    ensures ParseFloat(ToFixed2(d)).Some?
    ensures ParseFloat(ToFixed2(d)).value.places == 2
    ensures ShowsRounded(Value(d), ParseFloat(ToFixed2(d)).value.units)
  {
    ToFixed2ReadsBack(d);
    ToFixed2Rounds(d);
    var n := RoundedCents(d);
    var c := Negate(d.units < 0, n);
    assert Abs(c) == n;
  }

  /** parseInt gives NaN when, after an optional sign, no digit follows
      (a second sign, as in "--5", is not a digit). */
  lemma ParseIntNaN(sign: string, body: string)
    requires IsSign(sign) && StopsDigits(body)
    requires sign != "" || body == [] || !IsSignChar(body[0])
    ensures ParseInt(sign + body) == None
  {
    if sign == "" {
      assert sign + body == body;
    } else {
      assert (sign + body)[1..] == body;
    }
  }

  /** parseFloat gives NaN when, after an optional sign, neither a digit nor
      a '.' followed by a digit comes next. */
  lemma ParseFloatNaN(sign: string, body: string)
    requires IsSign(sign) && StopsDigits(body)
    requires sign != "" || body == [] || !IsSignChar(body[0])
    requires !(|body| > 1 && body[0] == '.' && IsDigit(body[1]))
    ensures ParseFloat(sign + body) == None
  {
    if sign == "" {
      assert sign + body == body;
    } else {
      assert (sign + body)[1..] == body;
    }
  }

  /** The integer part of d, cut toward zero (the .Floor of |d|, with d's sign). */
  function Truncate(d: Dec): int {
    Negate(d.units < 0, Abs(d.units) / Pow10(d.places))
  }

  lemma QuotientOf(w: nat, p: nat, f: nat)
    requires p >= 1 && f < p
    ensures (w * p + f) / p == w
  {
    var q := (w * p + f) / p;
    DivBounds(w * p + f, p);
    if q < w {
      MulLe(q + 1, w, p);
      assert false;
    } else if q > w {
      MulLe(w + 1, q, p);
      assert false;
    }
  }

  lemma MulLe(a: int, b: int, p: nat)
    requires a <= b
    ensures a * p <= b * p
  {
  }

  lemma RealDivBounds(x: real, lo: real, hi: real, p: real)
    requires p > 0.0 && lo * p <= x < hi * p
    ensures lo <= x / p < hi
  {
  }

  /** parseInt and parseFloat agree on every text that starts (after its
      sign) with a digit: the integer read is the float read cut toward zero.
      A text such as ".5" that has only fraction digits is a number to
      parseFloat but NaN to parseInt. */
  lemma ParseIntTruncatesParseFloat(s: string)
    ensures ParseInt(s).Some? ==> ParseFloat(s).Some? && ParseInt(s).value == Truncate(ParseFloat(s).value)
    ensures ParseInt(s).None? && ParseFloat(s).Some? ==> SplitSign(s).1[0] == '.'
  {
    var (negative, body) := SplitSign(s);
    var n := DigitRun(body);
    var whole := body[..n];
    var frac := Fraction(body[n..]);
    if n > 0 {
      DigitsValueAppend(whole, frac);
      DigitsValueBound(frac);
      var w := DigitsValue(whole);
      assert ParseInt(s) == Some(Negate(negative, w));
      assert ParseFloat(s) == Some(Dec(Negate(negative, DigitsValue(whole + frac)), |frac|));
      TruncateParts(negative, w, DigitsValue(frac), |frac|);
    }
  }

  /** Cutting sign × (w + f/10^e) toward zero, with f < 10^e, leaves sign × w. */
  lemma TruncateParts(negative: bool, w: nat, f: nat, e: nat)
    requires f < Pow10(e)
    ensures Truncate(Dec(Negate(negative, w * Pow10(e) + f), e)) == Negate(negative, w)
  {
    var p := Pow10(e);
    var v := w * p + f;
    QuotientOf(w, p, f);
    assert Abs(Negate(negative, v)) == v;
    if negative && v == 0 {
      assert w == 0 by {
        if w > 0 {
          MulLe(1, w, p);
        }
      }
    }
  }

}
