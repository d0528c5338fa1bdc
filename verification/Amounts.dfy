/** Amount tokens: separators, rounding to hundredths, and the repair of a spurious leading digit (amountParser.ts,
    currency.ts). */
module Amounts {
  import opened Text
  import opened Wrappers
  import opened Decimal

  // ---------- printing minor units ----------

  const NO_MINOR_UNIT: set<string> :=
    {"BIF", "CLP", "DJF", "GNF", "ISK", "JPY", "KMF", "KRW", "MGA", "PYG", "RWF", "UGX", "VND", "VUV", "XAF", "XOF",
     "XPF"}
  const THREE_DIGITS: set<string> := {"BHD", "IQD", "JOD", "KWD", "LYD", "OMR", "TND"}

  /** Number of minor-unit digits of a currency; two unless listed otherwise. */
  function MinorUnitDigits(currency: Option<string>, upper: string -> string): (digits: nat)
    ensures digits == 0 || digits == 2 || digits == 3
  {
    if currency.None? || currency.value == "" then 2
    else if upper(currency.value) in NO_MINOR_UNIT then 0
    else if upper(currency.value) in THREE_DIGITS then 3
    else 2
  }

  function Abs(n: int): nat { if n < 0 then -n else n }

  function Sign(n: int): string { if n < 0 then "-" else "" }

  function MajorString(amountMinor: int, digits: nat): string {
    if digits == 0 then Sign(amountMinor) + Digits(Abs(amountMinor))
    else Sign(amountMinor) + (Digits(Quotient(Abs(amountMinor), digits)) + "."
         + PadStart(Digits(Remainder(Abs(amountMinor), digits)), digits))
  }

  /** A major amount given in hundredths, in minor units: Math.round of the scaled amount. */
  function ToMinorUnits(hundredths: int, digits: nat): int {
    (2 * hundredths * Pow10(digits) + 100) / 200
  }

  // ---------- reading a token ----------

  predicate IsAmountChar(c: char) {
    IsDigit(c) || c in {',', '.', '-', '+'}
  }

  function AmountChars(token: string): string {
    if token == "" then "" else (if IsAmountChar(token[0]) then [token[0]] else "") + AmountChars(token[1..])
  }

  function Count(s: string, c: char): nat {
    if s == "" then 0 else (if s[0] == c then 1 else 0) + Count(s[1..], c)
  }

  function LastIndexOf(s: string, c: char): int {
    if s == "" then -1 else if s[|s| - 1] == c then |s| - 1 else LastIndexOf(s[..|s| - 1], c)
  }

  function Without(s: string, c: char): string {
    if s == "" then "" else (if s[0] == c then "" else [s[0]]) + Without(s[1..], c)
  }

  function CommasToDots(s: string): string {
    if s == "" then "" else [if s[0] == ',' then '.' else s[0]] + CommasToDots(s[1..])
  }

  /** All parts but the last joined, then a dot and the last. */
  function WithFraction(parts: seq<string>): string
    requires parts != []
  {
    Flatten(parts[..|parts| - 1]) + "." + parts[|parts| - 1]
  }

  /** Groups of digits: a last group of at most two is the fraction. */
  function Grouped(parts: seq<string>): string
    requires parts != []
  {
    if |parts[|parts| - 1]| <= 2 then WithFraction(parts) else Flatten(parts)
  }

  /** The token with its thousands separators gone and a dot for the decimal separator. */
  function Plain(s: string): string {
    if Count(s, ',') > 0 && Count(s, '.') > 0 then
      if LastIndexOf(s, '.') > LastIndexOf(s, ',') then Without(s, ',') else CommasToDots(Without(s, '.'))
    else if Count(s, ',') > 0 then
      var parts := Split(s, {','});
      if |parts| > 1 then Grouped(parts) else Flatten(parts)
    else if Count(s, '.') > 1 then Grouped(Split(s, {'.'}))
    else if Count(s, '.') == 1 then
      var parts := Split(s, {'.'});
      if |parts| > 1 && |parts[1]| == 3 && |parts[0]| >= 1 then Flatten(parts) else s
    else s
  }

  /** mantissa / 10^scale */
  datatype Number = Number(mantissa: int, scale: nat)

  function IndexOfDot(s: string): (i: nat)
    ensures i <= |s|
  {
    if s == "" || s[0] == '.' then 0 else 1 + IndexOfDot(s[1..])
  }

  /** Number(...) on digits, dots and signs; `None` stands for NaN. */
  function ReadNumber(s: string): Option<Number> {
    if s == "" then Some(Number(0, 0))
    else if s[0] == '-' || s[0] == '+' then ReadDigits(s[1..], s[0] == '-')
    else ReadDigits(s, false)
  }

  function ReadDigits(body: string, negative: bool): Option<Number> {
    var i := IndexOfDot(body);
    DigitsAround(body[..i], if i < |body| then body[i + 1..] else "", negative)
  }

  function DigitsAround(digits: string, fraction: string, negative: bool): Option<Number> {
    if AllDigits(digits) && AllDigits(fraction) && digits + fraction != "" then
      Some(Number(if negative then 0 - Value(digits + fraction) else Value(digits + fraction), |fraction|))
    else None
  }

  /** The hundredths in m / p. */
  function Rounded(m: nat, p: nat): nat
    requires p > 0
  {
    (200 * m + p) / (2 * p)
  }

  /** toFixed(2): to the nearest hundredth, halves away from zero. */
  function Hundredths(n: Number): int {
    var h: int := Rounded(Abs(n.mantissa), Pow10(n.scale));
    if n.mantissa < 0 then -h else h
  }

  function Unsigned(raw: string): string {
    if raw != "" && (raw[0] == '-' || raw[0] == '+') then raw[1..] else raw
  }

  /** The value of a token in hundredths. */
  function Amount(token: string): Option<int> {
    RawAmount(AmountChars(token))
  }

  function RawAmount(raw: string): Option<int> {
    if raw == "" || raw == "-" || raw == "+" then None
    else WithSign(raw[0] == '-', ReadNumber(Plain(Unsigned(raw))))
  }

  function WithSign(negative: bool, n: Option<Number>): Option<int> {
    if n.None? then None else Some(if negative then -Hundredths(n.value) else Hundredths(n.value))
  }

  /** The branches on the separators of an unsigned token. */
  method PlainDigits(token: string) returns (working: string)
    ensures working == Plain(token)
  {
    working := token;
    var commaCount, dotCount := Count(working, ','), Count(working, '.');
    if commaCount > 0 && dotCount > 0 {
      var lastComma, lastDot := LastIndexOf(working, ','), LastIndexOf(working, '.');
      if lastDot > lastComma {
        working := Without(working, ',');
      } else {
        working := CommasToDots(Without(working, '.'));
      }
    } else if commaCount > 0 {
      var parts := Split(working, {','});
      if |parts| > 1 && |parts[|parts| - 1]| <= 2 {
        working := WithFraction(parts);
      } else {
        working := Flatten(parts);
      }
    } else if dotCount > 1 {
      var parts := Split(working, {'.'});
      if |parts[|parts| - 1]| <= 2 {
        working := WithFraction(parts);
      } else {
        working := Flatten(parts);
      }
    } else if dotCount == 1 {
      var parts := Split(working, {'.'});
      if |parts| > 1 && |parts[1]| == 3 && |parts[0]| >= 1 {
        working := Flatten(parts);
      }
    }
  }

  method ParseAmountToken(token: string) returns (amount: Option<int>)
    ensures amount == Amount(token)
  {
    var raw := AmountChars(token);
    var sign := if raw != "" && raw[0] == '-' then -1 else 1;
    if raw == "" || raw == "-" || raw == "+" {
      return None;
    }
    var working := PlainDigits(Unsigned(raw));
    var parsed := ReadNumber(working);
    if parsed.None? {
      return None;
    }
    amount := Some(sign * Hundredths(parsed.value));
  }

  // ---------- digits, dots and commas ----------

  lemma {:induction false} DigitsOnly(s: string)
    requires AllDigits(s)
    ensures AmountChars(s) == s && Count(s, ',') == 0 && Count(s, '.') == 0
    ensures IndexOfDot(s) == |s| && Without(s, ',') == s
    ensures LastIndexOf(s, ',') == -1
  {
    if s != "" {
      DigitsOnly(s[1..]);
      LastIndexAbsent(s);
      assert s == [s[0]] + s[1..];
    }
  }

  lemma {:induction false} LastIndexAbsent(s: string)
    requires AllDigits(s)
    ensures LastIndexOf(s, ',') == -1
  {
    if s != "" { LastIndexAbsent(s[..|s| - 1]); }
  }

  lemma {:induction false} AmountCharsAppend(a: string, b: string)
    ensures AmountChars(a + b) == AmountChars(a) + AmountChars(b)
  {
    if a == "" {
      assert a + b == b;
    } else {
      var head := if IsAmountChar(a[0]) then [a[0]] else "";
      assert (a + b)[0] == a[0] && (a + b)[1..] == a[1..] + b;
      AmountCharsAppend(a[1..], b);
      assert head + (AmountChars(a[1..]) + AmountChars(b)) == head + AmountChars(a[1..]) + AmountChars(b);
    }
  }

  lemma {:induction false} CountAppend(a: string, b: string, c: char)
    ensures Count(a + b, c) == Count(a, c) + Count(b, c)
  {
    if a == "" {
      assert a + b == b;
    } else {
      assert (a + b)[1..] == a[1..] + b;
      CountAppend(a[1..], b, c);
    }
  }

  lemma {:induction false} DotAfter(i: string, f: string)
    requires AllDigits(i)
    ensures IndexOfDot(i + "." + f) == |i|
  {
    var s := i + "." + f;
    if i == "" {
      assert s[0] == '.';
    } else {
      assert s[1..] == i[1..] + "." + f;
      DotAfter(i[1..], f);
    }
  }

  /** The exact reading of `i.f`. */
  lemma ReadDotted(i: string, f: string)
    requires AllDigits(i) && AllDigits(f) && i + f != ""
    ensures ReadNumber(i + "." + f) == Some(Number(Value(i + f), |f|))
  {
    var s := i + "." + f;
    assert s[0] == if i == "" then '.' else i[0];
    DotAfter(i, f);
    assert s[..|i|] == i && s[|i| + 1..] == f;
  }

  lemma ReadInteger(i: string)
    requires AllDigits(i) && i != ""
    ensures ReadNumber(i) == Some(Number(Value(i), 0))
  {
    DigitsOnly(i);
    assert i[..|i|] == i && i + "" == i;
  }

  // ---------- printing and reading back ----------

  function Signed(sign: string, n: Option<Number>): Option<int> {
    if n.None? then None else if sign == "-" then Some(-Hundredths(n.value)) else Some(Hundredths(n.value))
  }

  predicate IsSign(sign: string) {
    sign == "" || sign == "-" || sign == "+"
  }

  lemma UnsignedRaw(body: string)
    requires body != "" && body[0] != '-' && body[0] != '+'
    ensures RawAmount(body) == Signed("", ReadNumber(Plain(body)))
  {
  }

  lemma UnsignedTail(c: char, body: string)
    requires c == '-' || c == '+'
    ensures Unsigned([c] + body) == body
  {
    assert ([c] + body)[1..] == body;
  }

  lemma SignChosen(c: char, n: Option<Number>)
    requires c == '-' || c == '+'
    ensures Signed([c], n) == WithSign(c == '-', n)
  {
    assert [c] == "-" <==> c == '-';
  }

  lemma RawBehindSign(raw: string)
    requires |raw| > 1
    ensures RawAmount(raw) == WithSign(raw[0] == '-', ReadNumber(Plain(Unsigned(raw))))
  {
  }

  lemma SignedBody(c: char, body: string)
    requires c == '-' || c == '+'
    requires body != ""
    ensures RawAmount([c] + body) == Signed([c], ReadNumber(Plain(body)))
  {
    RawBehindSign([c] + body);
    UnsignedTail(c, body);
    SignChosen(c, ReadNumber(Plain(body)));
  }

  lemma SignedRaw(sign: string, body: string)
    requires IsSign(sign)
    requires body != "" && body[0] != '-' && body[0] != '+'
    ensures RawAmount(sign + body) == Signed(sign, ReadNumber(Plain(body)))
  {
    if sign == "" {
      UnsignedRaw(body);
      assert sign + body == body;
    } else {
      SignedBody(sign[0], body);
      assert sign == [sign[0]];
    }
  }

  /** An optional sign in front of a body that begins with none. */
  lemma SignedAmount(sign: string, body: string)
    requires IsSign(sign)
    requires body != "" && body[0] != '-' && body[0] != '+' && AmountChars(body) == body
    ensures Amount(sign + body) == Signed(sign, ReadNumber(Plain(body)))
  {
    AmountCharsAppend(sign, body);
    SignChars(sign);
    SignedRaw(sign, body);
  }

  lemma SignChars(sign: string)
    requires IsSign(sign)
    ensures AmountChars(sign) == sign
  {
    if sign != "" {
      assert sign[1..] == "" && sign == [sign[0]];
    }
  }

  lemma DottedShape(i: string, f: string)
    requires AllDigits(i) && AllDigits(f)
    ensures var s := i + "." + f;
      AmountChars(s) == s && Count(s, ',') == 0 && Count(s, '.') == 1 && Split(s, {'.'}) == [i, f]
  {
    DigitsOnly(i);
    DigitsOnly(f);
    AmountCharsAppend(i + ".", f);
    AmountCharsAppend(i, ".");
    assert "."[1..] == "" && AmountChars(".") == ".";
    CountAppend(i + ".", f, ',');
    CountAppend(i, ".", ',');
    CountAppend(i + ".", f, '.');
    CountAppend(i, ".", '.');
    SplitAt(i, '.', f, {'.'});
    SplitFree(i, {'.'});
    SplitFree(f, {'.'});
  }

  /** A single dot is a decimal point unless exactly three digits follow some digit. */
  lemma PlainDotted(i: string, f: string)
    requires AllDigits(i) && AllDigits(f)
    ensures Plain(i + "." + f) == if |f| == 3 && i != "" then i + f else i + "." + f
  {
    DottedShape(i, f);
    var parts := [i, f];
    assert parts[1..] == [f] && Flatten([f]) == f + Flatten([f][1..]);
    assert Flatten(parts) == i + f;
  }

  /** The value of `i.f`, under any sign. */
  lemma DottedAmount(sign: string, i: string, f: string)
    requires IsSign(sign) && AllDigits(i) && AllDigits(f) && i + f != ""
    ensures var n := Number(Value(i + f), if |f| == 3 && i != "" then 0 else |f|);
      Amount(sign + (i + "." + f)) == Signed(sign, Some(n))
  {
    var body := i + "." + f;
    DottedShape(i, f);
    PlainDotted(i, f);
    assert body[0] == if i == "" then '.' else i[0];
    SignedAmount(sign, body);
    ReadDotted(i, f);
    if |f| == 3 && i != "" { ReadInteger(i + f); }
  }

  lemma IntegerAmount(sign: string, i: string)
    requires IsSign(sign) && AllDigits(i) && i != ""
    ensures Amount(sign + i) == Signed(sign, Some(Number(Value(i), 0)))
  {
    DigitsOnly(i);
    SignedAmount(sign, i);
    ReadInteger(i);
  }

  lemma ScaleZero(m: nat)
    ensures Hundredths(Number(m, 0)) == 100 * m
  {
    assert Pow10(0) == 1;
  }

  lemma Powers()
    ensures Pow10(1) == 10 && Pow10(2) == 100 && Pow10(3) == 1000
  {
    assert Pow10(0) == 1 && Pow10(1) == 10 * Pow10(0) && Pow10(2) == 10 * Pow10(1) && Pow10(3) == 10 * Pow10(2);
  }

  lemma ScaleTwo(m: nat)
    ensures Hundredths(Number(m, 2)) == m
  {
    Powers();
  }

  /** The digits behind the point of a printed amount. */
  lemma PrintedParts(n: nat, k: nat)
    requires k >= 1
    ensures var i, f := Digits(Quotient(n, k)), PadStart(Digits(Remainder(n, k)), k);
      |f| == k && AllDigits(f) && Value(i + f) == n
  {
    var i, f := Digits(Quotient(n, k)), PadStart(Digits(Remainder(n, k)), k);
    QuotientRemainder(n, k);
    DigitsFit(Remainder(n, k), k);
    ValueAppend(i, f);
    ValueOfDigits(Quotient(n, k));
    ValueOfDigits(Remainder(n, k));
    ValuePadStart(Digits(Remainder(n, k)), k);
  }

  lemma SignedScale(n: int, scale: nat)
    requires scale == 0 || scale == 2
    ensures Signed(Sign(n), Some(Number(Abs(n), scale))) == Some(if scale == 2 then n else 100 * n)
  {
    ScaleZero(Abs(n));
    ScaleTwo(Abs(n));
    assert "-" != "";
  }

  /** What reading a printed amount gives: a three-digit fraction is taken for thousands. */
  lemma ReadPrinted(n: int, digits: nat)
    requires digits == 0 || digits == 2 || digits == 3
    ensures Amount(MajorString(n, digits)) == Some(if digits == 2 then n else 100 * n)
  {
    SignedScale(n, if digits == 2 then 2 else 0);
    if digits == 0 {
      ReadPrintedInteger(n);
    } else {
      ReadPrintedFraction(n, digits);
    }
  }

  lemma ReadPrintedInteger(n: int)
    ensures Amount(MajorString(n, 0)) == Signed(Sign(n), Some(Number(Abs(n), 0)))
  {
    IntegerAmount(Sign(n), Digits(Abs(n)));
    ValueOfDigits(Abs(n));
  }

  lemma ReadPrintedFraction(n: int, digits: nat)
    requires digits == 2 || digits == 3
    ensures Amount(MajorString(n, digits)) == Signed(Sign(n), Some(Number(Abs(n), if digits == 3 then 0 else 2)))
  {
    var i, f := Digits(Quotient(Abs(n), digits)), PadStart(Digits(Remainder(Abs(n), digits)), digits);
    PrintedParts(Abs(n), digits);
    DottedAmount(Sign(n), i, f);
    assert MajorString(n, digits) == Sign(n) + (i + "." + f);
  }

  /** Main result: the minor units of every currency survive printing and reading back exactly unless the currency has
      three digits and the amount is not zero. */
  lemma MinorUnitsRoundTrip(n: int, currency: Option<string>, upper: string -> string)
    ensures var digits := MinorUnitDigits(currency, upper);
      && Amount(MajorString(n, digits)).Some?
      && (ToMinorUnits(Amount(MajorString(n, digits)).value, digits) == n <==> digits != 3 || n == 0)
  {
    RoundTripByDigits(n, MinorUnitDigits(currency, upper));
  }

  lemma RoundTripByDigits(n: int, digits: nat)
    requires digits == 0 || digits == 2 || digits == 3
    ensures Amount(MajorString(n, digits)).Some?
    ensures ToMinorUnits(Amount(MajorString(n, digits)).value, digits) == n <==> digits != 3 || n == 0
  {
    ReadPrinted(n, digits);
    ScaleMinor(if digits == 2 then n else 100 * n, digits);
  }

  lemma ScaleMinor(h: int, digits: nat)
    requires digits == 0 || digits == 2 || digits == 3
    ensures ToMinorUnits(h, digits) == if digits == 0 then (2 * h + 100) / 200 else if digits == 2 then h else 10 * h
  {
    Powers();
    assert Pow10(0) == 1;
  }

  /** Main result: a conversion to minor units is nearest to the scaled amount, halves going up. */
  lemma ToMinorUnitsNearest(hundredths: int, digits: nat)
    ensures -50 <= 100 * ToMinorUnits(hundredths, digits) - Times(hundredths, Pow10(digits)) <= 50
    ensures 100 * ToMinorUnits(hundredths, digits) - Times(hundredths, Pow10(digits)) != -50
  {
    assert 2 * hundredths * Pow10(digits) == 2 * Times(hundredths, Pow10(digits));
  }

  /** Main result: yen have no minor units, Kuwaiti dinars three digits, rupees, dollars and an unnamed currency two;
      the case of the code does not matter. */
  lemma KnownCurrencies(code: string, upper: string -> string)
    ensures upper(code) == "JPY" && code != "" ==> MinorUnitDigits(Some(code), upper) == 0
    ensures upper(code) == "KWD" && code != "" ==> MinorUnitDigits(Some(code), upper) == 3
    ensures upper(code) == "INR" || upper(code) == "USD" ==> MinorUnitDigits(Some(code), upper) == 2
    ensures MinorUnitDigits(None, upper) == 2 && MinorUnitDigits(Some(""), upper) == 2
  {
  }

  // ---------- thousands separators ----------

  lemma {:induction false} WithoutAppend(a: string, b: string, c: char)
    ensures Without(a + b, c) == Without(a, c) + Without(b, c)
  {
    if a == "" {
      assert a + b == b;
    } else {
      var head := if a[0] == c then "" else [a[0]];
      assert (a + b)[0] == a[0] && (a + b)[1..] == a[1..] + b;
      WithoutAppend(a[1..], b, c);
      assert head + (Without(a[1..], c) + Without(b, c)) == head + Without(a[1..], c) + Without(b, c);
    }
  }

  lemma WithoutTail(s: string)
    requires s != "" && AllDigits(Without(s, ','))
    ensures AllDigits(Without(s[1..], ',')) && (IsDigit(s[0]) || s[0] == ',')
  {
    var all, rest := Without(s, ','), Without(s[1..], ',');
    if s[0] == ',' {
      assert all == rest;
    } else {
      assert all == [s[0]] + rest;
      assert forall k :: 0 <= k < |rest| ==> rest[k] == all[k + 1];
      assert all[0] == s[0];
    }
  }

  lemma {:induction false} CommasOnly(s: string)
    requires AllDigits(Without(s, ','))
    ensures AmountChars(s) == s && Count(s, '.') == 0
    ensures Count(s, ',') == 0 ==> Without(s, ',') == s
    ensures forall k :: 0 <= k < |s| ==> IsDigit(s[k]) || s[k] == ','
  {
    if s != "" {
      WithoutTail(s);
      CommasOnly(s[1..]);
      assert s == [s[0]] + s[1..];
    }
  }

  lemma {:induction false} LastDot(a: string, f: string)
    requires AllDigits(f)
    ensures LastIndexOf(a + "." + f, '.') == |a|
    ensures LastIndexOf(a + "." + f, ',') < |a|
  {
    var s := a + "." + f;
    if f == "" {
      assert s == a + "." && s[|s| - 1] == '.' && s[..|s| - 1] == a;
      LastIndexBound(a, ',');
    } else {
      assert s[..|s| - 1] == a + "." + f[..|f| - 1] && s[|s| - 1] == f[|f| - 1];
      LastDot(a, f[..|f| - 1]);
    }
  }

  lemma {:induction false} LastIndexBound(s: string, c: char)
    ensures LastIndexOf(s, c) < |s|
  {
    if s != "" { LastIndexBound(s[..|s| - 1], c); }
  }

  /** Commas in front of a dot are dropped. */
  lemma PlainWithCommas(s: string, f: string)
    requires AllDigits(Without(s, ',')) && AllDigits(f) && Count(s, ',') > 0
    ensures Plain(s + "." + f) == Without(s, ',') + "." + f
    ensures AmountChars(s + "." + f) == s + "." + f
  {
    CommasOnly(s);
    DigitsOnly(f);
    CountAppend(s + ".", f, ',');
    CountAppend(s, ".", ',');
    CountAppend(s + ".", f, '.');
    CountAppend(s, ".", '.');
    LastDot(s, f);
    WithoutAppend(s + ".", f, ',');
    WithoutAppend(s, ".", ',');
    AmountCharsAppend(s + ".", f);
    AmountCharsAppend(s, ".");
    assert "."[1..] == "" && AmountChars(".") == "." && Without(".", ',') == ".";
  }

  /** The value of `s.f` with commas in `s`. */
  lemma CommaAmount(sign: string, s: string, f: string)
    requires IsSign(sign) && AllDigits(Without(s, ',')) && AllDigits(f) && Count(s, ',') > 0
    ensures var i := Without(s, ',');
      Amount(sign + (s + "." + f)) ==
        Signed(sign, if i + f == "" then None else Some(Number(Value(i + f), |f|)))
  {
    var i, body := Without(s, ','), s + "." + f;
    PlainWithCommas(s, f);
    CommasOnly(s);
    assert s != "" && body[0] == s[0];
    SignedAmount(sign, body);
    ReadDot(i, f);
  }

  lemma ReadDot(i: string, f: string)
    requires AllDigits(i) && AllDigits(f)
    ensures ReadNumber(i + "." + f) == if i + f == "" then None else Some(Number(Value(i + f), |f|))
  {
    if i + f == "" {
      assert i + "." + f == "." && "."[..0] == "" && "."[1..] == "";
    } else {
      ReadDotted(i, f);
    }
  }

  lemma LoneDot(sign: string)
    requires IsSign(sign)
    ensures Amount(sign + ("" + "." + "")) == None
  {
    DottedShape("", "");
    PlainDotted("", "");
    assert "" + "." + "" == ".";
    SignedAmount(sign, ".");
  }

  lemma CommasInserted(sign: string, s: string, f: string)
    requires IsSign(sign) && AllDigits(Without(s, ',')) && AllDigits(f) && Count(s, ',') > 0
    ensures var i := Without(s, ',');
      Amount(sign + (s + "." + f)) == Amount(sign + (i + "." + f)) <==> |f| != 3 || i == "" || Value(i + f) == 0
  {
    var i := Without(s, ',');
    CommaAmount(sign, s, f);
    if i + f == "" {
      assert i == "" && f == "";
      LoneDot(sign);
    } else {
      DottedAmount(sign, i, f);
      SignedScales(sign, Value(i + f));
    }
  }

  lemma SignedScales(sign: string, m: nat)
    ensures Signed(sign, Some(Number(m, 3))) == Signed(sign, Some(Number(m, 0))) <==> m == 0
  {
    ThreeScales(m);
  }

  /** Main result: commas in the integer part of a dotted token keep its value, exactly unless they turn three digits of
      thousands into a fraction. */
  lemma CommasKeepValue(sign: string, s: string, f: string)
    requires IsSign(sign) && AllDigits(Without(s, ',')) && AllDigits(f)
    ensures var i := Without(s, ',');
      Amount(sign + (s + "." + f)) == Amount(sign + (i + "." + f)) <==>
        s == i || |f| != 3 || i == "" || Value(i + f) == 0
  {
    CommasOnly(s);
    WithoutShorter(s);
    if Count(s, ',') > 0 { CommasInserted(sign, s, f); }
  }

  lemma {:induction false} WithoutShorter(s: string)
    ensures |Without(s, ',')| == |s| - Count(s, ',')
  {
    if s != "" { WithoutShorter(s[1..]); }
  }

  lemma ThreeScales(m: nat)
    ensures Hundredths(Number(m, 3)) == Hundredths(Number(m, 0)) <==> m == 0
    ensures -Hundredths(Number(m, 3)) == -Hundredths(Number(m, 0)) <==> m == 0
  {
    Powers();
    ScaleZero(m);
    assert Hundredths(Number(m, 3)) == (200 * m + 1000) / 2000;
  }

  // ---------- other separators ----------

  lemma {:induction false} JoinCounts(parts: seq<string>, sep: char)
    requires parts != [] && sep in {',', '.'} && forall k :: 0 <= k < |parts| ==> AllDigits(parts[k])
    ensures var s := Join(parts, sep);
      && AmountChars(s) == s && Count(s, sep) == |parts| - 1
      && (forall c :: c in {',', '.'} && c != sep ==> Count(s, c) == 0)
  {
    DigitsOnly(parts[0]);
    if |parts| > 1 {
      var rest := Join(parts[1..], sep);
      JoinCounts(parts[1..], sep);
      AmountCharsAppend(parts[0] + [sep], rest);
      AmountCharsAppend(parts[0], [sep]);
      assert [sep][1..] == "" && AmountChars([sep]) == [sep];
      forall c | c in {',', '.'}
        ensures Count(Join(parts, sep), c) == Count(parts[0], c) + (if c == sep then 1 else 0) + Count(rest, c)
      {
        CountAppend(parts[0] + [sep], rest, c);
        CountAppend(parts[0], [sep], c);
      }
    }
  }

  lemma {:induction false} FlattenDigits(parts: seq<string>)
    requires forall k :: 0 <= k < |parts| ==> AllDigits(parts[k])
    ensures AllDigits(Flatten(parts))
  {
    if parts != [] { FlattenDigits(parts[1..]); }
  }

  /** Groups of digits behind one kind of separator: a last group of one or two digits is a fraction, a longer one more
      thousands. */
  lemma GroupedPlain(parts: seq<string>, sep: char)
    requires forall k :: 0 <= k < |parts| ==> AllDigits(parts[k])
    requires (sep == ',' && |parts| >= 2) || (sep == '.' && |parts| >= 3)
    ensures var last := parts[|parts| - 1];
      Plain(Join(parts, sep)) == if |last| <= 2 then Flatten(parts[..|parts| - 1]) + "." + last else Flatten(parts)
  {
    JoinCounts(parts, sep);
    SplitDigits(parts, sep);
    if sep == ',' { PlainCommas(Join(parts, sep)); } else { PlainDots(Join(parts, sep)); }
  }

  lemma SplitDigits(parts: seq<string>, sep: char)
    requires parts != [] && (sep == ',' || sep == '.') && forall k :: 0 <= k < |parts| ==> AllDigits(parts[k])
    ensures Split(Join(parts, sep), {sep}) == parts
  {
    forall k | 0 <= k < |parts|
      ensures Free(parts[k], {sep})
    {
      assert AllDigits(parts[k]);
    }
    SplitJoin(parts, sep);
  }

  lemma PlainCommas(s: string)
    requires Count(s, ',') > 0 && Count(s, '.') == 0 && |Split(s, {','})| > 1
    ensures Plain(s) == Grouped(Split(s, {','}))
  {
  }

  lemma PlainDots(s: string)
    requires Count(s, ',') == 0 && Count(s, '.') > 1
    ensures Plain(s) == Grouped(Split(s, {'.'}))
  {
  }

  lemma GroupedRead(parts: seq<string>, sep: char)
    requires forall k :: 0 <= k < |parts| ==> AllDigits(parts[k])
    requires (sep == ',' && |parts| >= 2) || (sep == '.' && |parts| >= 3)
    requires Flatten(parts) != ""
    ensures var last := parts[|parts| - 1];
      ReadNumber(Plain(Join(parts, sep))) == Some(Number(Value(Flatten(parts)), if |last| <= 2 then |last| else 0))
  {
    var head, last := parts[..|parts| - 1], parts[|parts| - 1];
    assert parts == head + [last];
    FlattenAppend(head, [last]);
    assert Flatten([last]) == last + Flatten<char>([]) && last + [] == last;
    assert Flatten(parts) == Flatten(head) + last;
    FlattenDigits(parts);
    FlattenDigits(head);
    GroupedPlain(parts, sep);
    if |last| <= 2 { ReadDotted(Flatten(head), last); } else { ReadInteger(Flatten(parts)); }
  }

  lemma JoinBegins(parts: seq<string>, sep: char)
    requires |parts| >= 2 && sep in {',', '.'} && AllDigits(parts[0])
    ensures var s := Join(parts, sep); s != "" && s[0] != '-' && s[0] != '+'
  {
  }

  /** Main result: the value of grouped digits, under any sign; repeated commas and repeated dots are read alike. */
  lemma GroupedAmount(sign: string, parts: seq<string>, sep: char)
    requires IsSign(sign) && forall k :: 0 <= k < |parts| ==> AllDigits(parts[k])
    requires (sep == ',' && |parts| >= 2) || (sep == '.' && |parts| >= 3)
    requires Flatten(parts) != ""
    ensures var last := parts[|parts| - 1];
      Amount(sign + Join(parts, sep)) ==
        Signed(sign, Some(Number(Value(Flatten(parts)), if |last| <= 2 then |last| else 0)))
  {
    JoinCounts(parts, sep);
    JoinBegins(parts, sep);
    SignedAmount(sign, Join(parts, sep));
    GroupedRead(parts, sep);
  }

  function Times(a: int, b: int): int { a * b }

  lemma QuotientBounds(n: nat, p: nat)
    requires p > 0
    ensures 2 * Times(n / (2 * p), p) <= n < 2 * Times(n / (2 * p), p) + 2 * p
  {
    DivMod(n, 2 * p);
  }

  lemma MagnitudeNearest(m: nat, p: nat)
    requires p > 0
    ensures 2 * Abs(Times(Rounded(m, p), p) - 100 * m) <= p
  {
    QuotientBounds(200 * m + p, p);
  }

  lemma NegatedTimes(a: int, b: int)
    ensures Times(-a, b) == -Times(a, b)
  {
  }

  lemma Mirrored(x: int, y: int)
    ensures Abs(-x - -y) == Abs(x - y)
  {
  }

  /** toFixed(2) is within half a hundredth of the number. */
  lemma HundredthsNearest(n: Number)
    ensures 2 * Abs(Times(Hundredths(n), Pow10(n.scale)) - 100 * n.mantissa) <= Pow10(n.scale)
  {
    var m, p := Abs(n.mantissa), Pow10(n.scale);
    MagnitudeNearest(m, p);
    if n.mantissa < 0 {
      NegatedTimes(Rounded(m, p), p);
      Mirrored(Times(Rounded(m, p), p), 100 * m);
    }
  }

  // ---------- dots before a comma ----------

  lemma {:induction false} LastComma(a: string, f: string)
    requires AllDigits(f)
    ensures LastIndexOf(a + "," + f, ',') == |a|
    ensures LastIndexOf(a + "," + f, '.') < |a|
  {
    var s := a + "," + f;
    if f == "" {
      assert s == a + "," && s[|s| - 1] == ',' && s[..|s| - 1] == a;
      LastIndexBound(a, '.');
    } else {
      assert s[..|s| - 1] == a + "," + f[..|f| - 1] && s[|s| - 1] == f[|f| - 1];
      LastComma(a, f[..|f| - 1]);
    }
  }

  lemma {:induction false} WithoutDigits(s: string, c: char)
    requires AllDigits(s) && !IsDigit(c)
    ensures Without(s, c) == s
  {
    if s != "" {
      WithoutDigits(s[1..], c);
      assert s == [s[0]] + s[1..];
    }
  }

  lemma {:induction false} JoinWithout(parts: seq<string>, sep: char)
    requires !IsDigit(sep) && forall k :: 0 <= k < |parts| ==> AllDigits(parts[k])
    ensures Without(Join(parts, sep), sep) == Flatten(parts)
  {
    if |parts| == 1 {
      WithoutDigits(parts[0], sep);
      assert parts[1..] == [] && parts[0] + [] == parts[0];
    } else if |parts| > 1 {
      var rest := Join(parts[1..], sep);
      JoinWithout(parts[1..], sep);
      WithoutDigits(parts[0], sep);
      WithoutAppend(parts[0] + [sep], rest, sep);
      WithoutAppend(parts[0], [sep], sep);
      assert [sep][1..] == "" && Without([sep], sep) == "";
    }
  }

  lemma {:induction false} CommasToDotsAppend(a: string, b: string)
    ensures CommasToDots(a + b) == CommasToDots(a) + CommasToDots(b)
  {
    if a == "" {
      assert a + b == b;
    } else {
      assert (a + b)[0] == a[0] && (a + b)[1..] == a[1..] + b;
      CommasToDotsAppend(a[1..], b);
    }
  }

  lemma {:induction false} CommasToDotsDigits(s: string)
    requires AllDigits(s)
    ensures CommasToDots(s) == s
  {
    if s != "" {
      CommasToDotsDigits(s[1..]);
      assert s == [s[0]] + s[1..];
    }
  }

  lemma DottedCommaCounts(a: string, f: string)
    requires AllDigits(f) && Count(a, '.') > 0 && AmountChars(a) == a
    ensures var s := a + "," + f; AmountChars(s) == s && Count(s, ',') > 0 && Count(s, '.') > 0
  {
    DigitsOnly(f);
    CountAppend(a + ",", f, ',');
    CountAppend(a, ",", ',');
    CountAppend(a + ",", f, '.');
    CountAppend(a, ",", '.');
    AmountCharsAppend(a + ",", f);
    AmountCharsAppend(a, ",");
    assert ","[1..] == "" && AmountChars(",") == "," && Count(",", ',') == 1;
  }

  lemma WithoutDots(a: string, digits: string, f: string)
    requires Without(a, '.') == digits && AllDigits(digits) && AllDigits(f)
    ensures CommasToDots(Without(a + "," + f, '.')) == digits + "." + f
  {
    WithoutAppend(a + ",", f, '.');
    WithoutAppend(a, ",", '.');
    WithoutDigits(f, '.');
    assert ","[1..] == "" && Without(",", '.') == ",";
    CommasToDotsAppend(digits + ",", f);
    CommasToDotsAppend(digits, ",");
    CommasToDotsDigits(digits);
    CommasToDotsDigits(f);
    assert CommasToDots(",") == ".";
  }

  lemma PlainCommaLast(s: string)
    requires Count(s, ',') > 0 && Count(s, '.') > 0 && LastIndexOf(s, '.') < LastIndexOf(s, ',')
    ensures Plain(s) == CommasToDots(Without(s, '.'))
  {
  }

  /** Main result: digits grouped by dots with a comma behind them are thousands and a fraction of any length. */
  lemma DotsThenComma(sign: string, parts: seq<string>, f: string)
    requires IsSign(sign) && |parts| >= 2 && (forall k :: 0 <= k < |parts| ==> AllDigits(parts[k])) && AllDigits(f)
    requires Flatten(parts) + f != ""
    ensures Amount(sign + (Join(parts, '.') + "," + f)) == Signed(sign, Some(Number(Value(Flatten(parts) + f), |f|)))
  {
    var a := Join(parts, '.');
    JoinCounts(parts, '.');
    JoinBegins(parts, '.');
    JoinWithout(parts, '.');
    FlattenDigits(parts);
    DottedCommaCounts(a, f);
    LastComma(a, f);
    PlainCommaLast(a + "," + f);
    WithoutDots(a, Flatten(parts), f);
    ReadDotted(Flatten(parts), f);
    assert (a + "," + f)[0] == a[0];
    SignedAmount(sign, a + "," + f);
  }

  // ---------- what surrounds an amount ----------

  lemma NoiseChars(a: string, c: char, b: string)
    requires !IsAmountChar(c)
    ensures AmountChars(a + [c] + b) == AmountChars(a + b)
  {
    AmountCharsAppend(a + [c], b);
    AmountCharsAppend(a, [c]);
    AmountCharsAppend(a, b);
    assert [c][1..] == "" && AmountChars([c]) == "";
  }

  lemma SameChars(s: string, t: string)
    requires AmountChars(s) == AmountChars(t)
    ensures Amount(s) == Amount(t)
  {
  }

  /** Main result: characters that are no digit, comma, dot or sign do not matter, wherever they stand. */
  lemma NoiseIgnored(a: string, c: char, b: string)
    requires !('0' <= c <= '9') && c != ',' && c != '.' && c != '-' && c != '+'
    ensures Amount(a + [c] + b) == Amount(a + b)
  {
    NoiseChars(a, c, b);
    SameChars(a + [c] + b, a + b);
  }

  // ---------- signs ----------

  lemma {:induction false} NoDot(s: string)
    requires forall k :: 0 <= k < |s| ==> s[k] != '.'
    ensures IndexOfDot(s) == |s|
  {
    if s != "" { NoDot(s[1..]); }
  }

  lemma SignOnly(c: char, i: string)
    requires (c == '-' || c == '+') && AllDigits(i)
    ensures AmountChars([c] + i) == [c] + i && Plain([c] + i) == [c] + i
  {
    DigitsOnly(i);
    AmountCharsAppend([c], i);
    CountAppend([c], i, ',');
    CountAppend([c], i, '.');
    assert [c][1..] == "" && AmountChars([c]) == [c] && Count([c], ',') == 0 && Count([c], '.') == 0;
  }

  lemma WholeDigits(i: string, negative: bool)
    requires AllDigits(i) && i != "" && IndexOfDot(i) == |i|
    ensures ReadDigits(i, negative) == Some(Number(if negative then 0 - Value(i) else Value(i), 0))
  {
    assert i[..|i|] == i;
    NoFraction(i, negative);
  }

  lemma NoFraction(i: string, negative: bool)
    requires AllDigits(i) && i != ""
    ensures DigitsAround(i, "", negative) == Some(Number(if negative then 0 - Value(i) else Value(i), 0))
  {
    assert i + "" == i;
  }

  /** Digits behind a sign are the number or its negative. */
  lemma ReadSigned(c: char, i: string)
    requires (c == '-' || c == '+') && AllDigits(i) && i != ""
    ensures ReadNumber([c] + i) == Some(Number(if c == '-' then 0 - Value(i) else Value(i), 0))
  {
    DigitsOnly(i);
    assert ([c] + i)[0] == c && ([c] + i)[1..] == i;
    WholeDigits(i, c == '-');
  }

  /** Main result: behind a first sign a second one counts as well: what follows is read with it, and then negated by a
      first minus. */
  lemma TwoSigns(a: char, b: char, i: string)
    requires (a == '-' || a == '+') && (b == '-' || b == '+') && AllDigits(i) && i != ""
    ensures Amount([a] + ([b] + i)) == WithSign(a == '-', ReadNumber([b] + i))
  {
    SignOnly(b, i);
    AmountCharsAppend([a], [b] + i);
    assert [a][1..] == "" && AmountChars([a]) == [a];
    UnsignedTail(a, [b] + i);
    RawBehindSign([a] + ([b] + i));
  }

  /** Main result: nothing, and a sign alone, have no value. */
  lemma BareSign()
    ensures Amount("") == None && Amount("-") == None && Amount("+") == None
  {
    SignChars("-");
    SignChars("+");
  }

  lemma StrayRead(i: string, c: char, j: string)
    requires AllDigits(i) && i != "" && (c == '-' || c == '+') && AllDigits(j)
    ensures ReadNumber(i + ([c] + j)) == None
  {
    var s := i + ([c] + j);
    assert s[0] == i[0] && IsDigit(s[0]);
    NoDot(s);
    assert s[..|s|] == s && s[|i|] == c && !AllDigits(s);
  }

  /** Main result: a token with a sign behind a digit has no value. */
  lemma StraySign(sign: string, i: string, c: char, j: string)
    requires IsSign(sign) && AllDigits(i) && i != "" && (c == '-' || c == '+') && AllDigits(j)
    ensures Amount(sign + (i + ([c] + j))) == None
  {
    var s := i + ([c] + j);
    SignOnly(c, j);
    DigitsOnly(i);
    AmountCharsAppend(i, [c] + j);
    CountAppend(i, [c] + j, ',');
    CountAppend(i, [c] + j, '.');
    CountAppend([c], j, ',');
    CountAppend([c], j, '.');
    DigitsOnly(j);
    assert [c][1..] == "" && Count([c], ',') == 0 && Count([c], '.') == 0;
    StrayRead(i, c, j);
    SignedAmount(sign, s);
  }

  // ---------- repair of a spurious leading digit ----------

  /** The token shows digits behind its last dot. */
  predicate HasFraction(token: string) {
    var raw := AmountChars(token);
    Count(raw, '.') > 0 && var parts := Split(raw, {'.'}); parts[|parts| - 1] != ""
  }

  /** The repaired value of a positive amount in hundredths, if it looks like a currency sign read as a digit. */
  function RepairValue(v: int): Option<int> {
    if v <= 0 || v >= 100_000_000 then None
    else
      var integerPart, fraction := Digits(v / 100), v % 100;
      if |integerPart| < 5 || |integerPart| > 6 || fraction == 0 then None
      else if integerPart[0] < '5' || integerPart[0] > '9' then None
      else if |integerPart[1..]| < 3 then None
      else
        var repaired := 100 * Value(integerPart[1..]) + fraction;
        if repaired <= 0 || v < 5 * repaired || v > 120 * repaired || repaired >= 1_000_000 then None
        else Some(repaired)
  }

  function Repaired(token: string, v: int): Option<int> {
    if HasFraction(token) then RepairValue(v) else None
  }

  function AmountWithRepair(token: string): Option<int> {
    var parsed := Amount(token);
    if parsed.None? then None
    else
      match Repaired(token, Abs(parsed.value))
      case None => parsed
      case Some(r) => Some(if parsed.value >= 0 then r else -r)
  }

  /** A numeral is its leading digit and the rest. */
  lemma LeadingDigit(n: nat)
    ensures var s := Digits(n); n == DigitValue(s[0]) * Pow10(|s| - 1) + Value(s[1..])
  {
    var s := Digits(n);
    ValueOfDigits(n);
    ValueAppend([s[0]], s[1..]);
    assert [s[0]] + s[1..] == s;
    assert [s[0]][..0] == "" && Value([s[0]]) == 10 * Value("") + DigitValue(s[0]);
  }

  /** Main result: the repair takes away one leading digit 5..9 and nothing else, within its bounds. */
  lemma RepairRemovesLeadingDigit(v: int) returns (d: nat, k: nat)
    requires RepairValue(v).Some?
    ensures 5 <= d <= 9 && 4 <= k <= 5
    ensures RepairValue(v).value == v - 100 * (d * Pow10(k))
    ensures 0 < RepairValue(v).value < 1_000_000
    ensures 5 * RepairValue(v).value <= v <= 120 * RepairValue(v).value
  {
    var s := Digits(v / 100);
    d, k := DigitValue(s[0]), |s| - 1;
    LeadingDigit(v / 100);
    assert v == 100 * (v / 100) + v % 100;
  }

  /** Main result: an amount changes under repair only by that digit, keeping its sign, and only for a token with a
      dotted fraction. */
  lemma RepairedAmount(token: string) returns (d: nat, k: nat)
    requires Amount(token).Some? && AmountWithRepair(token) != Amount(token)
    ensures AmountWithRepair(token).Some? && HasFraction(token)
    ensures var p, r := Amount(token).value, AmountWithRepair(token).value;
      && (r < 0 <==> p < 0) && 0 < Abs(r) < 1_000_000 && 5 * Abs(r) <= Abs(p) <= 120 * Abs(r)
      && 5 <= d <= 9 && 4 <= k <= 5 && Abs(r) == Abs(p) - 100 * (d * Pow10(k))
  {
    d, k := RepairRemovesLeadingDigit(Abs(Amount(token).value));
  }

  /** A repaired amount is too short to be repaired again. */
  lemma RepairedOnce(v: int)
    requires RepairValue(v).Some?
    ensures RepairValue(RepairValue(v).value).None?
  {
    var r := RepairValue(v).value;
    Powers();
    assert Pow10(4) == 10 * Pow10(3);
    DigitsFit(r / 100, 4);
  }

  lemma PrintedHasFraction(n: int)
    ensures HasFraction(MajorString(n, 2))
  {
    var i, f := Digits(Quotient(Abs(n), 2)), PadStart(Digits(Remainder(Abs(n), 2)), 2);
    PrintedParts(Abs(n), 2);
    SignedFraction(Sign(n), i, f);
    assert MajorString(n, 2) == Sign(n) + (i + "." + f);
  }

  lemma SignedFraction(sign: string, i: string, f: string)
    requires IsSign(sign) && AllDigits(i) && AllDigits(f) && f != ""
    ensures HasFraction(sign + (i + "." + f))
  {
    var s := sign + (i + "." + f);
    DottedShape(i, f);
    AmountCharsAppend(sign, i + "." + f);
    SignChars(sign);
    CountAppend(sign, i + "." + f, '.');
    SplitTail(sign, i, f);
    assert AmountChars(s) == s;
  }

  lemma SplitTail(sign: string, i: string, f: string)
    requires AllDigits(f)
    ensures var parts := Split(sign + (i + "." + f), {'.'}); parts != [] && parts[|parts| - 1] == f
  {
    assert sign + (i + "." + f) == (sign + i) + ['.'] + f;
    SplitAt(sign + i, '.', f, {'.'});
    SplitFree(f, {'.'});
  }

  /** Main result: reading the printed result again changes nothing, exactly unless the token had no dotted fraction and
      its value invites repair. */
  lemma RepairFixpoint(token: string)
    requires AmountWithRepair(token).Some?
    ensures var result := AmountWithRepair(token);
      AmountWithRepair(MajorString(result.value, 2)) == result <==>
        HasFraction(token) || RepairValue(Abs(Amount(token).value)).None?
  {
    var p, result := Amount(token).value, AmountWithRepair(token).value;
    ReadPrinted(result, 2);
    PrintedHasFraction(result);
    if RepairValue(Abs(p)).Some? {
      var _, _ := RepairRemovesLeadingDigit(Abs(p));
      RepairedOnce(Abs(p));
    }
  }

  lemma FiveOrSix(n: nat, k: nat)
    requires k == 4 || k == 5
    requires Pow10(k) <= n < Pow10(k + 1)
    ensures |Digits(n)| == k + 1
  {
    DigitsFit(n, k + 1);
    DigitsLength(n);
    if |Digits(n)| <= k { Pow10Monotone(|Digits(n)|, k); }
  }

  lemma HighPowers()
    ensures Pow10(4) == 10_000 && Pow10(5) == 100_000 && Pow10(6) == 1_000_000
  {
    Powers();
    assert Pow10(4) == 10 * Pow10(3) && Pow10(5) == 10 * Pow10(4) && Pow10(6) == 10 * Pow10(5);
  }

  /** A numeral of five or six digits, taken apart at its first. */
  lemma FirstDigitOff(n: nat, k: nat)
    requires (k == 4 && 10_000 <= n < 100_000) || (k == 5 && 100_000 <= n < 1_000_000)
    ensures var p := if k == 4 then 10_000 else 100_000;
      var s := Digits(n);
      |s| == k + 1 && DigitValue(s[0]) == n / p && Value(s[1..]) == n % p && p == Pow10(k)
  {
    HighPowers();
    FiveOrSix(n, k);
    LeadingDigit(n);
    ValueBound(Digits(n)[1..]);
  }

  /** Main result: exactly these amounts are repaired: five or six digits of which the first is 5 to 9, a fraction that
      is not zero, and less than 10000 left, which is a fifth to a hundred and twentieth. */
  lemma RepairExactly(v: int)
    ensures RepairValue(v).Some? <==>
      && v > 0 && (50_000 <= v / 100 < 100_000 || 500_000 <= v / 100 < 1_000_000) && v % 100 != 0
      && var left := 100 * (v / 100 % if v / 100 < 100_000 then 10_000 else 100_000) + v % 100;
         left < 1_000_000 && 5 * left <= v <= 120 * left
    ensures RepairValue(v).Some? ==>
      RepairValue(v).value == 100 * (v / 100 % if v / 100 < 100_000 then 10_000 else 100_000) + v % 100
  {
    if 0 < v < 100_000_000 {
      var n := v / 100;
      if n < 10_000 {
        Powers();
        assert Pow10(4) == 10 * Pow10(3);
        DigitsFit(n, 4);
      } else {
        FirstDigitOff(n, if n < 100_000 then 4 else 5);
      }
    }
  }

  lemma CommaToken()
    ensures Join(["56789", "12"], ',') == "56789,12" && Flatten(["56789", "12"]) == "56789" + "12"
  {
    var parts := ["56789", "12"];
    assert parts[1..] == ["12"] && ["12"][1..] == [];
    assert Join(["12"], ',') == "12";
    assert Flatten(["12"]) == "12" + Flatten([]) && Flatten<char>([]) == [] && "12" + [] == "12";
  }

  lemma CommaTokenValue()
    ensures Value("56789" + "12") == 5678912
  {
    FiveDigits();
    Powers();
    ValueAppend("56789", "12");
  }

  lemma FiveDigits()
    ensures Value("56789") == 56789 && Value("12") == 12
  {
    assert "56789"[..4] == "5678" && "5678"[..3] == "567" && "567"[..2] == "56" && "56"[..1] == "5" && "5"[..0] == "";
    assert "12"[..1] == "1" && "1"[..0] == "";
  }

  lemma CommaTokenAmount()
    ensures Amount("56789,12") == Some(5678912) && !HasFraction("56789,12")
  {
    var parts := ["56789", "12"];
    CommaToken();
    CommaTokenValue();
    ScaleTwo(5678912);
    assert AllDigits(parts[0]) && AllDigits(parts[1]);
    JoinCounts(parts, ',');
    GroupedAmount("", parts, ',');
    assert "" + "56789,12" == "56789,12";
  }

  lemma NumeralSnoc(n: nat, d: nat)
    requires n > 0 && d < 10
    ensures Digits(10 * n + d) == Digits(n) + [DigitChar(d)]
  {
  }

  lemma CommaTokenNumeral()
    ensures Digits(56789) == "56789"
  {
    NumeralSnoc(5, 6);
    NumeralSnoc(56, 7);
    NumeralSnoc(567, 8);
    NumeralSnoc(5678, 9);
  }

  lemma CommaTokenInvitesRepair()
    ensures RepairValue(5678912).Some?
  {
    CommaTokenNumeral();
    LeadingDigit(56789);
    Powers();
    var s := Digits(56789);
    assert s[0] == '5' && |s| == 5 && |s[1..]| == 4;
    assert Pow10(4) == 10 * Pow10(3);
    assert Value(s[1..]) == 6789;
  }

  /** A token with a decimal comma is repaired only after it was printed with a dot. */
  lemma DecimalCommaRepairedLate()
    ensures AmountWithRepair("56789,12") == Some(5678912)
    ensures AmountWithRepair(MajorString(5678912, 2)) != Some(5678912)
  {
    CommaTokenAmount();
    CommaTokenInvitesRepair();
    RepairFixpoint("56789,12");
  }
}
