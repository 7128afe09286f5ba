/** Continuation tokens: printed numbers, and their parsers. */
module Tokens {
  import opened GoInts
  import opened Options

  // ---------------------------------------------------------------- decimal digits

  predicate IsDigit(c: char) {
    '0' <= c <= '9'
  }

  function Digit(d: nat): (c: char)
    requires d < 10
    ensures IsDigit(c) && (c - '0') as int == d
  {
    '0' + d as char
  }

  predicate AllDigits(s: string) {
    forall i :: 0 <= i < |s| ==> IsDigit(s[i])
  }

  /** The number a digit string stands for; the empty one stands for 0. */
  function Value(s: string): nat
    requires AllDigits(s)
  {
    if s == "" then 0 else 10 * Value(s[..|s| - 1]) + (s[|s| - 1] - '0') as int
  }

  lemma ValueAppendDigit(s: string, c: char)
    requires AllDigits(s) && IsDigit(c)
    ensures AllDigits(s + [c]) && Value(s + [c]) == 10 * Value(s) + (c - '0') as int
  {
    assert (s + [c])[..|s|] == s;
  }

  /** strconv.FormatUint(n, 10), and the digits of a big.Int. */
  function FormatNat(n: nat): (s: string)
    ensures s != "" && AllDigits(s) && Value(s) == n
  {
    var front := if n < 10 then "" else FormatNat(n / 10);
    ValueAppendDigit(front, Digit(n % 10));
    front + [Digit(n % 10)]
  }

  function FormatInt(n: int): string {
    if n < 0 then "-" + FormatNat(-n) else FormatNat(n)
  }

  // ---------------------------------------------------------------- single numbers

  /** strconv.ParseUint(s, 10, 64): leading zeros are fine, signs are not. */
  function ParseUint(s: string): Option<uint64> {
    if s == "" || !AllDigits(s) || Value(s) >= TWO64 then None else Some(Value(s))
  }

  /** No 64-bit number can be multiplied by 10 from here on. */
  const CUTOFF: uint64 := (TWO64 - 1) / 10 + 1

  lemma {:induction false} PrefixIsSmaller(s: string, i: nat)
    requires AllDigits(s) && i <= |s|
    ensures Value(s[..i]) <= Value(s)
    decreases |s|
  {
    if i < |s| {
      var front := s[..|s| - 1];
      assert front[..i] == s[..i];
      PrefixIsSmaller(front, i);
    } else {
      assert s[..i] == s;
    }
  }

  lemma WrapsOnce(n: nat)
    requires n < 2 * TWO64
    ensures Uint64(n) == if n < TWO64 then n else n - TWO64
  {
  }

  /** The two overflow checks, before the wrapping multiplication and after the wrapping addition. */
  method AppendDigit(n: uint64, d: nat) returns (r: Option<uint64>)
    requires d < 10
    ensures r == if n * 10 + d < TWO64 then Some(n * 10 + d) else None
  {
    if n >= CUTOFF {
      return None;
    }
    var tens := Uint64(n * 10);
    assert tens == n * 10;
    hide Uint64;
    WrapsOnce(tens + d);
    var sum := Uint64(tens + d);
    if sum < tens {
      return None;
    }
    r := Some(sum);
  }

  lemma ReadSoFar(s: string, i: nat)
    requires i < |s| && AllDigits(s[..i]) && IsDigit(s[i])
    ensures AllDigits(s[..i + 1]) && Value(s[..i + 1]) == 10 * Value(s[..i]) + (s[i] - '0') as int
    ensures AllDigits(s) ==> Value(s[..i + 1]) <= Value(s)
  {
    hide Value;
    assert s[..i + 1] == s[..i] + [s[i]];
    ValueAppendDigit(s[..i], s[i]);
    if AllDigits(s) {
      PrefixIsSmaller(s, i + 1);
    }
  }

  /** Digit by digit in 64-bit arithmetic, a digit string is refused exactly if its value does not fit. */
  method ParseDigits(s: string) returns (r: Option<uint64>)
    ensures r == ParseUint(s)
    ensures r.Some? <==> s != "" && AllDigits(s) && Value(s) < TWO64
    ensures r.Some? ==> r.value == Value(s)
  {
    if s == "" {
      return None;
    }
    hide Value;
    var n: uint64 := 0;
    assert Value(s[..0]) == 0 by { NoDigits(); }
    for i := 0 to |s|
      invariant AllDigits(s[..i]) && n == Value(s[..i])
    {
      if !IsDigit(s[i]) {
        return None;
      }
      ReadSoFar(s, i);
      var more := AppendDigit(n, (s[i] - '0') as int);
      if more.None? {
        return None;
      }
      n := more.value;
    }
    assert s[..|s|] == s;
    r := Some(n);
  }

  lemma NoDigits()
    ensures Value("") == 0
  {
  }

  /** strconv.ParseInt(s, 10, 64). */
  function ParseInt(s: string): Option<int64> {
    if s == "" then None
    else
      var neg := s[0] == '-';
      match ParseUint(if neg || s[0] == '+' then s[1..] else s)
      case None => None
      case Some(n) =>
        if !neg && n >= TWO63 then None
        else if neg && n > TWO63 then None
        else
          var v: int := if neg then 0 - n else n;
          Some(v)
  }

  datatype Parsed<T> = NoToken | Token(value: T) | InvalidToken

  function ParseUintContinuationToken(token: Option<string>): Parsed<uint64> {
    match token
    case None => NoToken
    case Some(s) => (match ParseUint(s) case None => InvalidToken case Some(n) => Token(n))
  }

  function ParseIntContinuationToken(token: Option<string>): Parsed<int64> {
    match token
    case None => NoToken
    case Some(s) => (match ParseInt(s) case None => InvalidToken case Some(n) => Token(n))
  }

  lemma PositiveParsed(s: string, n: nat)
    requires s != "" && AllDigits(s) && Value(s) == n
    ensures ParseInt(s) == if n < TWO63 then Some(n) else None
  {
    assert IsDigit(s[0]);
    assert ParseUint(s) == if n < TWO64 then Some(n) else None;
    hide ParseUint, AllDigits, Value;
  }

  lemma NegativeParsed(s: string, n: nat)
    requires s != "" && AllDigits(s) && Value(s) == n
    ensures ParseInt("-" + s) == if n <= TWO63 then Some(0 - n) else None
  {
    assert ("-" + s)[1..] == s;
    assert ParseUint(s) == if n < TWO64 then Some(n) else None;
    hide ParseUint, AllDigits, Value;
  }

  /** What is accepted: digits, with at most one sign before them, and nothing else. */
  lemma IntAccepted(s: string)
    ensures ParseInt(s).Some? ==> s != "" && (AllDigits(s) || (s[0] in {'+', '-'} && s[1..] != "" && AllDigits(s[1..])))
  {
    hide Value;
  }

  lemma PlusParsed(s: string, n: nat)
    requires s != "" && AllDigits(s) && Value(s) == n
    ensures ParseInt("+" + s) == if n < TWO63 then Some(n) else None
  {
    assert ("+" + s)[1..] == s;
    assert ParseUint(s) == if n < TWO64 then Some(n) else None;
    hide ParseUint, AllDigits, Value;
  }

  /** A uint token is accepted exactly if it is a digit string whose value fits, and stands for that value. */
  lemma UintTokenIff(s: string, n: uint64)
    ensures ParseUintContinuationToken(Some(s)) == Token(n) <==> s != "" && AllDigits(s) && Value(s) == n
    ensures ParseUintContinuationToken(Some(s)).NoToken? == false
  {
    hide Value;
  }

  lemma UintTokenRoundTrip(n: nat)
    ensures ParseUintContinuationToken(Some(FormatNat(n))) == if n < TWO64 then Token(n) else InvalidToken
  {
  }

  lemma IntTokenRoundTrip(n: int)
    ensures ParseIntContinuationToken(Some(FormatInt(n))) == if -TWO63 <= n < TWO63 then Token(n) else InvalidToken
  {
    if n < 0 {
      NegativeParsed(FormatNat(-n), -n);
    } else {
      PositiveParsed(FormatNat(n), n);
    }
    hide FormatNat, ParseInt;
  }

  // ---------------------------------------------------------------- splitting

  /** strings.Split(s, sep) for a separator of one character. */
  function Split(s: string, sep: char): (parts: seq<string>)
    ensures |parts| >= 1
  {
    if s == "" then [""]
    else
      var parts := Split(s[1..], sep);
      if s[0] == sep then [""] + parts else [[s[0]] + parts[0]] + parts[1..]
  }

  lemma {:induction false} SplitWithout(s: string, sep: char)
    requires sep !in s
    ensures Split(s, sep) == [s]
  {
    if s != "" {
      SplitWithout(s[1..], sep);
      assert [s[0]] + s[1..] == s;
    }
  }

  lemma {:induction false} SplitJoined(a: string, sep: char, b: string)
    requires sep !in a
    ensures Split(a + [sep] + b, sep) == [a] + Split(b, sep)
  {
    var s := a + [sep] + b;
    if a == "" {
      assert s[1..] == b;
    } else {
      assert s[1..] == a[1..] + [sep] + b;
      SplitJoined(a[1..], sep, b);
      assert [a[0]] + a[1..] == a;
    }
  }

  lemma DigitsWithout(s: string, sep: char)
    requires AllDigits(s) && !IsDigit(sep)
    ensures sep !in s
  {
  }

  // ---------------------------------------------------------------- pairs of ids and sizes

  function PairToken(id: nat, size: nat): string {
    FormatNat(id) + "-" + FormatNat(size)
  }

  function ParsePairToken(token: Option<string>): Parsed<(uint64, uint64)> {
    match token
    case None => NoToken
    case Some(s) =>
      var strs := Split(s, '-');
      if |strs| != 2 then InvalidToken
      else match (ParseUint(strs[0]), ParseUint(strs[1]))
        case (Some(id), Some(size)) => Token((id, size))
        case _ => InvalidToken
  }

  lemma PairTokenRoundTrip(id: uint64, size: uint64)
    ensures ParsePairToken(Some(PairToken(id, size))) == Token((id, size))
  {
    var a, b := FormatNat(id), FormatNat(size);
    DigitsWithout(a, '-');
    DigitsWithout(b, '-');
    SplitJoined(a, '-', b);
    SplitWithout(b, '-');
  }

  // ---------------------------------------------------------------- amounts

  /** coef * 10^exp. */
  datatype Decimal = Decimal(coef: int, exp: int)

  function Pow10(n: nat): (p: nat)
    ensures p >= 1
  {
    if n == 0 then 1 else 10 * Pow10(n - 1)
  }

  function Shifted(coef: int, n: nat): int {
    coef * Pow10(n)
  }

  /** Equality of the numbers, not of their representations: decimal.Equal. */
  predicate SameNumber(a: Decimal, b: Decimal) {
    if a.exp <= b.exp then a.coef == Shifted(b.coef, b.exp - a.exp) else b.coef == Shifted(a.coef, a.exp - b.exp)
  }

  function Zeros(n: nat): (s: string)
    ensures |s| == n && AllDigits(s) && forall i :: 0 <= i < n ==> s[i] == '0'
  {
    seq(n, _ => '0')
  }

  function TrimZeros(s: string): (t: string)
    ensures t <= s
  {
    if s != "" && s[|s| - 1] == '0' then TrimZeros(s[..|s| - 1]) else s
  }

  /** The digits before and after the decimal point of coef * 10^-places. */
  function IntPart(coef: nat, places: nat): (s: string)
    ensures s != "" && AllDigits(s)
  {
    var str := FormatNat(coef);
    if |str| > places then str[..|str| - places] else "0"
  }

  function FractionalPart(coef: nat, places: nat): (s: string)
    ensures |s| == places && AllDigits(s)
  {
    var str := FormatNat(coef);
    if |str| > places then str[|str| - places..] else Zeros(places - |str|) + str
  }

  /** decimal.String(). */
  function FormatDecimal(d: Decimal): string {
    if d.exp >= 0 then FormatInt(Shifted(d.coef, d.exp))
    else
      var abs := if d.coef < 0 then -d.coef else d.coef;
      var frac := TrimZeros(FractionalPart(abs, -d.exp));
      var number := IntPart(abs, -d.exp) + (if frac != "" then "." + frac else "");
      if d.coef < 0 then "-" + number else number
  }

  /** big.Int.SetString(s, 10). */
  function ParseBig(s: string): Option<int> {
    if s == "" then None
    else
      var digits := if s[0] == '-' || s[0] == '+' then s[1..] else s;
      if digits == "" || !AllDigits(digits) then None
      else
        var v: int := Value(digits);
        Some(if s[0] == '-' then -v else v)
  }

  /** decimal.NewFromString without exponent notation. */
  function ParseDecimal(s: string): Option<Decimal> {
    var parts := Split(s, '.');
    if |parts| == 1 then (match ParseBig(s) case None => None case Some(v) => Some(Decimal(v, 0)))
    else if |parts| == 2 then
      (match ParseBig(parts[0] + parts[1]) case None => None case Some(v) => Some(Decimal(v, -|parts[1]|)))
    else None
  }

  function AmountToken(id: nat, amount: Decimal): string {
    FormatNat(id) + "-" + FormatDecimal(amount)
  }

  function ParseUintAndAmountToken(token: Option<string>): Parsed<(uint64, Decimal)> {
    match token
    case None => NoToken
    case Some(s) =>
      var strs := Split(s, '-');
      if |strs| != 2 then InvalidToken
      else match (ParseUint(strs[0]), ParseDecimal(strs[1]))
        case (Some(id), Some(amount)) => Token((id, amount))
        case _ => InvalidToken
  }

  lemma {:induction false} LeadingZerosDoNotCount(z: string, s: string)
    requires AllDigits(z) && AllDigits(s) && (forall i :: 0 <= i < |z| ==> z[i] == '0')
    ensures AllDigits(z + s) && Value(z + s) == Value(s)
  {
    if s != "" {
      var front := s[..|s| - 1];
      LeadingZerosDoNotCount(z, front);
      ValueAppendDigit(z + front, s[|s| - 1]);
      assert z + front + [s[|s| - 1]] == z + s;
    } else if z != "" {
      var front := z[..|z| - 1];
      LeadingZerosDoNotCount(front, "");
      assert front + "" == front && z + "" == z;
    }
  }

  /** Dropping trailing zeros of the fraction divides the digits' value by as many tens. */
  lemma {:induction false} TrimmedValue(whole: string, frac: string)
    requires AllDigits(whole) && AllDigits(frac)
    ensures AllDigits(TrimZeros(frac)) && |TrimZeros(frac)| <= |frac|
    ensures Value(whole + frac) == Value(whole + TrimZeros(frac)) * Pow10(|frac| - |TrimZeros(frac)|)
  {
    if frac != "" && frac[|frac| - 1] == '0' {
      var front := frac[..|frac| - 1];
      TrimmedValue(whole, front);
      ValueAppendDigit(whole + front, '0');
      assert whole + front + ['0'] == whole + frac;
      var t := TrimZeros(front);
      TenTimes(Value(whole + t), |front| - |t|);
      assert TrimZeros(frac) == t;
    }
  }

  lemma TenTimes(v: nat, n: nat)
    ensures 10 * (v * Pow10(n)) == v * Pow10(n + 1)
  {
  }

  /** The two parts together are the coefficient's digits. */
  lemma PartsAreDigits(coef: nat, places: nat)
    ensures AllDigits(IntPart(coef, places) + FractionalPart(coef, places))
    ensures Value(IntPart(coef, places) + FractionalPart(coef, places)) == coef
  {
    hide FormatNat, Value, Zeros;
    var str := FormatNat(coef);
    if |str| > places {
      assert str[..|str| - places] + str[|str| - places..] == str;
    } else {
      var zeros := Zeros(places - |str|);
      LeadingZerosDoNotCount("0" + zeros, str);
      assert ("0" + zeros) + str == "0" + (zeros + str);
    }
  }

  lemma ParseWhole(s: string)
    requires s != "" && AllDigits(s)
    ensures ParseDecimal(s) == Some(Decimal(Value(s), 0)) && '-' !in s
  {
    DigitsWithout(s, '.');
    DigitsWithout(s, '-');
    SplitWithout(s, '.');
    assert IsDigit(s[0]);
  }

  lemma ParseDigitsBig(s: string)
    requires s != "" && AllDigits(s)
    ensures ParseBig(s) == Some(Value(s))
  {
    assert IsDigit(s[0]);
    hide Value;
  }

  lemma ParseTwoParts(s: string, whole: string, frac: string, v: int)
    requires Split(s, '.') == [whole, frac] && ParseBig(whole + frac) == Some(v)
    ensures ParseDecimal(s) == Some(Decimal(v, -|frac|))
  {
    hide Split, ParseBig;
  }

  lemma SplitAtPoint(whole: string, frac: string)
    requires AllDigits(whole) && AllDigits(frac)
    ensures Split(whole + "." + frac, '.') == [whole, frac] && '-' !in whole + "." + frac
  {
    assert !IsDigit('.') && !IsDigit('-');
    hide *;
    DigitsWithout(whole, '.');
    DigitsWithout(frac, '.');
    DigitsWithout(whole, '-');
    DigitsWithout(frac, '-');
    SplitJoined(whole, '.', frac);
    SplitWithout(frac, '.');
  }

  lemma ParseWithPoint(whole: string, frac: string)
    requires whole != "" && AllDigits(whole) && AllDigits(frac)
    ensures AllDigits(whole + frac)
    ensures ParseDecimal(whole + "." + frac) == Some(Decimal(Value(whole + frac), -|frac|))
    ensures '-' !in whole + "." + frac
  {
    assert AllDigits(whole + frac);
    hide *;
    SplitAtPoint(whole, frac);
    ParseDigitsBig(whole + frac);
    ParseTwoParts(whole + "." + frac, whole, frac, Value(whole + frac));
  }

  lemma FormattedFraction(coef: nat, places: nat)
    requires places > 0
    ensures var whole, frac := IntPart(coef, places), TrimZeros(FractionalPart(coef, places));
            FormatDecimal(Decimal(coef, 0 - places)) == if frac != "" then whole + "." + frac else whole
  {
    var whole := IntPart(coef, places);
    assert whole + "" == whole;
    hide IntPart, FractionalPart, TrimZeros;
  }

  lemma SameNumberOf(v: nat, kept: nat, coef: nat, places: nat)
    requires kept <= places && v * Pow10(places - kept) == coef
    ensures SameNumber(Decimal(v, 0 - kept), Decimal(coef, 0 - places))
  {
    assert Pow10(0) == 1;
  }

  lemma FractionRoundTrip(coef: nat, places: nat)
    requires places > 0
    ensures var s := FormatDecimal(Decimal(coef, 0 - places));
            ParseDecimal(s).Some? && SameNumber(ParseDecimal(s).value, Decimal(coef, 0 - places)) && '-' !in s
  {
    var whole, all := IntPart(coef, places), FractionalPart(coef, places);
    var frac := TrimZeros(all);
    PartsAreDigits(coef, places);
    TrimmedValue(whole, all);
    FormattedFraction(coef, places);
    hide *;
    SameNumberOf(Value(whole + frac), |frac|, coef, places);
    if frac != "" {
      ParseWithPoint(whole, frac);
    } else {
      ParseWhole(whole);
      assert whole + frac == whole;
    }
  }

  lemma WholeRoundTrip(coef: nat, exp: nat)
    ensures var s := FormatDecimal(Decimal(coef, exp));
            ParseDecimal(s).Some? && SameNumber(ParseDecimal(s).value, Decimal(coef, exp)) && '-' !in s
  {
    assert Shifted(coef, exp) >= 0;
    hide Shifted, FormatNat, ParseDecimal;
    var n: nat := Shifted(coef, exp);
    assert FormatDecimal(Decimal(coef, exp)) == FormatNat(n);
    assert SameNumber(Decimal(n, 0), Decimal(coef, exp));
    hide *;
    ParseWhole(FormatNat(n));
  }

  /** Printing and parsing an amount that is not negative gives the same number. */
  lemma DecimalRoundTrip(d: Decimal)
    requires d.coef >= 0
    ensures ParseDecimal(FormatDecimal(d)).Some? && SameNumber(ParseDecimal(FormatDecimal(d)).value, d)
    ensures '-' !in FormatDecimal(d)
  {
    hide *;
    if d.exp >= 0 {
      WholeRoundTrip(d.coef, d.exp);
    } else {
      FractionRoundTrip(d.coef, -d.exp);
      assert d == Decimal(d.coef, 0 - (-d.exp));
    }
  }

  lemma MinusFirst(d: Decimal)
    requires d.coef < 0
    ensures FormatDecimal(d) != "" && FormatDecimal(d)[0] == '-'
  {
    hide FormatNat, IntPart, FractionalPart, TrimZeros;
    if d.exp >= 0 {
      assert Shifted(d.coef, d.exp) < 0;
    }
  }

  lemma AmountTokenParts(id: nat, amount: Decimal)
    ensures Split(AmountToken(id, amount), '-') == [FormatNat(id)] + Split(FormatDecimal(amount), '-')
  {
    DigitsWithout(FormatNat(id), '-');
    SplitJoined(FormatNat(id), '-', FormatDecimal(amount));
    hide FormatDecimal, FormatNat, Split;
  }

  lemma NegativeAmountIsRefused(id: nat, amount: Decimal)
    requires amount.coef < 0
    ensures |Split(AmountToken(id, amount), '-')| >= 3
  {
    var b := FormatDecimal(amount);
    MinusFirst(amount);
    AmountTokenParts(id, amount);
    hide *;
    SplitAtFirst(b, '-');
  }

  lemma SplitAtFirst(s: string, sep: char)
    requires s != "" && s[0] == sep
    ensures |Split(s, sep)| >= 2
  {
  }

  lemma AmountIsSecondPart(id: uint64, amount: Decimal)
    requires amount.coef >= 0
    ensures Split(AmountToken(id, amount), '-') == [FormatNat(id), FormatDecimal(amount)]
  {
    AmountTokenParts(id, amount);
    DecimalRoundTrip(amount);
    hide *;
    SplitWithout(FormatDecimal(amount), '-');
  }

  /** An amount token is recovered exactly when the amount is not negative; a minus sign makes it invalid. */
  lemma AmountTokenRoundTrip(id: uint64, amount: Decimal)
    ensures var parsed := ParseUintAndAmountToken(Some(AmountToken(id, amount)));
            if amount.coef >= 0 then parsed.Token? && parsed.value.0 == id && SameNumber(parsed.value.1, amount)
            else parsed.InvalidToken?
  {
    assert ParseUint(FormatNat(id)) == Some(id);
    hide FormatDecimal, ParseDecimal, SameNumber, FormatNat, Split, ParseUint, AmountToken;
    if amount.coef >= 0 {
      AmountIsSecondPart(id, amount);
      DecimalRoundTrip(amount);
    } else {
      NegativeAmountIsRefused(id, amount);
    }
  }

  // ---------------------------------------------------------------- tokens with numbers

  lemma OneDigit(n: nat)
    requires n < 10
    ensures FormatNat(n) == [Digit(n)]
  {
    assert "" + [Digit(n)] == [Digit(n)];
  }

  lemma OneMoreDigit(n: nat)
    requires n >= 10
    ensures FormatNat(n) == FormatNat(n / 10) + [Digit(n % 10)]
  {
  }

  /** Numbers are written in base 10, the highest digit first. */
  lemma Printed1203()
    ensures FormatNat(1203) == "1203" && FormatInt(-1203) == "-1203"
  {
    OneDigit(1);
    OneMoreDigit(12);
    OneMoreDigit(120);
    OneMoreDigit(1203);
    hide FormatNat;
    assert Digit(1) == '1' && Digit(2) == '2' && Digit(0) == '0' && Digit(3) == '3';
    assert FormatNat(12) == "12" && FormatNat(120) == "120";
  }

  lemma Printed120300()
    ensures FormatNat(120300) == "120300" && FormatNat(7) == "7"
  {
    Printed1203();
    OneDigit(7);
    OneMoreDigit(12030);
    OneMoreDigit(120300);
    hide FormatNat;
    assert Digit(0) == '0';
    assert FormatNat(12030) == "12030";
  }

  lemma TrimmedDigits()
    ensures TrimZeros("300") == "3"
  {
    assert "300"[..2] == "30" && "30"[..1] == "3";
    assert TrimZeros("3") == "3";
    assert TrimZeros("30") == "3";
  }

  lemma Parts120300()
    ensures IntPart(120300, 3) == "120" && FractionalPart(120300, 3) == "300"
  {
    Printed120300();
    hide FormatNat;
  }

  /** A pair is separated by a minus sign, and an amount printed without trailing zeros. */
  lemma PrintedTokens()
    ensures PairToken(1203, 7) == "1203-7"
    ensures FormatDecimal(Decimal(120300, -3)) == "120.3" && AmountToken(7, Decimal(120300, -3)) == "7-120.3"
  {
    Printed1203();
    Printed120300();
    Parts120300();
    TrimmedDigits();
    hide IntPart, FractionalPart, TrimZeros, FormatNat;
    FormattedFraction(120300, 3);
    hide FormatDecimal;
    assert "120" + "." + "3" == "120.3";
    assert "7" + "-" + "120.3" == "7-120.3" && "1203" + "-" + "7" == "1203-7";
  }
}
