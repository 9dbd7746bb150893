/** Decimal printing and parsing of 32-bit integers: `itoa` and `atoi` of lib/stdlib.c. */
module Decimal {
  import opened CStrings

  const INT_MAX: int := 2147483647
  const INT_MIN: int := -2147483648

  predicate IsDigit(c: char) {
    '0' <= c <= '9'
  }

  function DigitValue(c: char): nat
    requires IsDigit(c)
  {
    c as int - '0' as int
  }

  predicate AllDigits(s: string) {
    forall i :: 0 <= i < |s| ==> IsDigit(s[i])
  }

  ghost function Pow10(k: nat): nat {
    if k == 0 then 1 else 10 * Pow10(k - 1)
  }

  /** The number a digit string writes, most significant digit first. */
  ghost function Value(s: string): nat
    requires AllDigits(s)
  {
    if s == [] then 0 else DigitValue(s[0]) * Pow10(|s| - 1) + Value(s[1..])
  }

  lemma {:induction false} ValueBound(s: string)
    requires AllDigits(s)
    ensures Value(s) < Pow10(|s|)
  {
    if s != [] {
      ValueBound(s[1..]);
      Scale(DigitValue(s[0]), 9, Pow10(|s| - 1));
    }
  }

  lemma Scale(a: nat, b: nat, p: nat)
    requires a <= b
    ensures a * p <= b * p
  {
    assert b * p == a * p + (b - a) * p;
  }

  lemma {:induction false} Pow10Positive(k: nat)
    ensures Pow10(k) >= 1
  {
    if k > 0 { Pow10Positive(k - 1); }
  }

  /** Appending a digit. */
  lemma {:induction false} ValueAppend(s: string, c: char)
    requires AllDigits(s) && IsDigit(c)
    ensures AllDigits(s + [c]) && Value(s + [c]) == 10 * Value(s) + DigitValue(c)
  {
    if s == [] {
      assert s + [c] == [c] && [c][1..] == [];
      assert Value([]) == 0;
    } else {
      var t := s + [c];
      assert t[0] == s[0] && t[1..] == s[1..] + [c];
      ValueAppend(s[1..], c);
      AppendSum(DigitValue(s[0]), Pow10(|s| - 1), Value(s[1..]), DigitValue(c));
      assert Pow10(|t| - 1) == 10 * Pow10(|s| - 1);
    }
  }

  lemma AppendSum(d: nat, p: nat, v: nat, c: nat)
    ensures d * (10 * p) + (10 * v + c) == 10 * (d * p + v) + c
  {
    assert d * (10 * p) == 10 * (d * p);
  }

  // ---- string order ----

  /** Among digit strings of one length, string order is numeric order; what follows the
      digits only decides between equal numbers. */
  lemma {:induction false} OrderIsNumeric(a: string, b: string, rest: string)
    requires AllDigits(a) && AllDigits(b) && |a| == |b|
    ensures Value(a) > Value(b) ==> Order(a + rest, b) > 0
    ensures Value(a) < Value(b) ==> Order(a + rest, b) < 0
    ensures Value(a) == Value(b) ==> Order(a + rest, b) == At(rest, 0) as int
  {
    if a == [] {
      assert a + rest == rest;
    } else if a[0] == b[0] {
      assert (a + rest)[1..] == a[1..] + rest;
      OrderIsNumeric(a[1..], b[1..], rest);
    } else {
      if DigitValue(a[0]) > DigitValue(b[0]) { FirstDigit(b, a); } else { FirstDigit(a, b); }
    }
  }

  lemma {:induction false} FirstDigit(a: string, b: string)
    requires AllDigits(a) && AllDigits(b) && |a| == |b| > 0 && DigitValue(a[0]) < DigitValue(b[0])
    ensures Value(a) < Value(b)
  {
    ValueBound(a[1..]);
    Scale(DigitValue(a[0]) + 1, DigitValue(b[0]), Pow10(|a| - 1));
  }

  lemma {:induction false} ValuePrefix(s: string, k: nat)
    requires AllDigits(s) && k <= |s|
    ensures Value(s[..k]) <= Value(s)
    decreases |s| - k
  {
    if k < |s| {
      assert s[..k + 1] == s[..k] + [s[k]];
      ValueAppend(s[..k], s[k]);
      ValuePrefix(s, k + 1);
    } else {
      assert s[..k] == s;
    }
  }

  // ---- atoi ----

  ghost predicate Signed(s: string) { s != [] && (s[0] == '-' || s[0] == '+') }

  ghost predicate Negative(s: string) { s != [] && s[0] == '-' }

  /** What follows the sign. */
  ghost function Body(s: string): string {
    if Signed(s) then s[1..] else s
  }

  /** How many digits the string starts with. */
  ghost function RunLength(s: string): (n: nat)
    ensures n <= |s| && AllDigits(s[..n]) && (n < |s| ==> !IsDigit(s[n]))
  {
    if s != [] && IsDigit(s[0]) then 1 + RunLength(s[1..]) else 0
  }

  ghost function Number(s: string): nat {
    Value(Body(s)[..RunLength(Body(s))])
  }

  /** The decimal value of the string, clamped to 32 bits. */
  ghost function Clamped(s: string): int {
    var v: int := Number(s);
    if Negative(s) then (if v > 2147483648 then INT_MIN else -v)
    else (if v > INT_MAX then INT_MAX else v)
  }

  /** What `atoi` computes: more than ten digits always give the limit. */
  ghost function Parsed(s: string): int {
    if RunLength(Body(s)) > 10 then (if Negative(s) then INT_MIN else INT_MAX) else Clamped(s)
  }

  /** `atoi` is the clamped value exactly when there are at most ten digits or the number really
      reaches the limit; a long string without leading zeros always does. */
  lemma {:induction false} ParsedIsClamped(s: string)
    ensures Parsed(s) == Clamped(s) <==>
            RunLength(Body(s)) <= 10 || Number(s) >= (if Negative(s) then 2147483648 else INT_MAX)
    ensures RunLength(Body(s)) <= 10 || Body(s)[0] != '0' ==> Parsed(s) == Clamped(s)
  {
    var b := Body(s);
    var n := RunLength(b);
    if n > 10 && b[0] != '0' { LongIsBig(b[..n]); }
  }

  /** A plus sign changes nothing; a minus sign negates every number inside the limits. */
  lemma {:induction false} SignsParse(t: string)
    requires t != [] && IsDigit(t[0])
    ensures Parsed("+" + t) == Parsed(t)
    ensures Parsed(t) < INT_MAX ==> Parsed("-" + t) == -Parsed(t)
    ensures Parsed(t) == INT_MAX ==> Parsed("-" + t) <= -INT_MAX
  {
    assert ("+" + t)[1..] == t && ("-" + t)[1..] == t;
  }

  /** What follows the digits does not matter. */
  lemma {:induction false} TrailingText(ds: string, rest: string)
    requires ds != [] && AllDigits(ds) && (rest == [] || !IsDigit(rest[0]))
    ensures Parsed(ds + rest) == Parsed(ds)
  {
    RunBefore(ds, rest);
    RunAll(ds);
    assert (ds + rest)[..|ds|] == ds && ds[..|ds|] == ds;
    assert IsDigit(ds[0]) && (ds + rest)[0] == ds[0];
  }

  lemma {:induction false} RunBefore(ds: string, rest: string)
    requires AllDigits(ds) && (rest == [] || !IsDigit(rest[0]))
    ensures RunLength(ds + rest) == |ds|
  {
    if ds == [] {
      assert ds + rest == rest;
    } else {
      assert (ds + rest)[1..] == ds[1..] + rest;
      RunBefore(ds[1..], rest);
    }
  }

  lemma {:induction false} LongIsBig(s: string)
    requires AllDigits(s) && |s| > 10 && s[0] != '0'
    ensures Value(s) > 2147483648
  {
    Pow10Grows(10, |s| - 1);
    Scale(1, DigitValue(s[0]), Pow10(|s| - 1));
    assert Pow10(5) == 100000;
    assert Pow10(10) == 10000000000;
  }

  lemma {:induction false} Pow10Grows(j: nat, k: nat)
    requires j <= k
    ensures Pow10(j) <= Pow10(k)
    decreases k - j
  {
    if j < k {
      Pow10Grows(j, k - 1);
    }
  }

  /** A one behind ten or more zeros is parsed as the limit. */
  lemma {:induction false} LeadingZerosClamp(k: nat)
    requires k >= 10
    ensures var s := Zeros(k) + "1"; Clamped(s) == 1 && Parsed(s) == INT_MAX
  {
    var s := Zeros(k) + "1";
    ZerosOne(k);
    ZerosDigits(k);
    RunAll(s);
    assert IsDigit(s[0]);
    assert s[..|s|] == s;
  }

  ghost function Zeros(k: nat): string {
    if k == 0 then "" else Zeros(k - 1) + "0"
  }

  lemma {:induction false} ZerosDigits(k: nat)
    ensures |Zeros(k)| == k && AllDigits(Zeros(k)) && Value(Zeros(k)) == 0
  {
    if k > 0 {
      ZerosDigits(k - 1);
      ValueAppend(Zeros(k - 1), '0');
    }
  }

  lemma {:induction false} ZerosOne(k: nat)
    ensures AllDigits(Zeros(k) + "1") && Value(Zeros(k) + "1") == 1
  {
    ZerosDigits(k);
    ValueAppend(Zeros(k), '1');
  }

  lemma {:induction false} RunAll(s: string)
    requires AllDigits(s)
    ensures RunLength(s) == |s|
  {
    if s != [] { RunAll(s[1..]); }
  }


  const WORD: int := 0x1_0000_0000

  /** A 32-bit word read as a signed number. */
  function AsSigned(w: int): (r: int)
    requires 0 <= w < WORD
    ensures INT_MIN <= r <= INT_MAX && (r == w || r == w - WORD)
  {
    if w > INT_MAX then w - WORD else w
  }

  lemma WordFits(x: int)
    requires 0 <= x < WORD
    ensures x % WORD == x && (-x) % WORD == (if x == 0 then 0 else WORD - x)
  {
    assert WORD == 0x1_0000_0000;
  }

  lemma {:induction false} TextAgainst(b: string, limit: string)
    requires RunLength(b) == |limit| && AllDigits(limit)
    ensures Order(b, limit) > 0 ==> Value(b[..|limit|]) >= Value(limit)
    ensures Order(b, limit) <= 0 ==> Value(b[..|limit|]) <= Value(limit)
  {
    var n := |limit|;
    assert b == b[..n] + b[n..];
    OrderIsNumeric(b[..n], limit, b[n..]);
  }

  /** Ten digits are compared as text with the text of the limit, together with whatever follows. */
  lemma {:induction false} TenDigits(b: string, negative: bool)
    requires RunLength(b) == 10
    ensures var limit := if negative then 2147483648 else INT_MAX;
            && (Order(b, Limit(negative)) > 0 ==> Value(b[..10]) >= limit)
            && (Order(b, Limit(negative)) <= 0 ==> Value(b[..10]) <= limit)
  {
    LimitValues();
    TextAgainst(b, Limit(negative));
  }

  ghost function Limit(negative: bool): string {
    if negative then "2147483648" else "2147483647"
  }

  lemma {:induction false} LimitValues()
    ensures AllDigits(Limit(false)) && Value(Limit(false)) == 2147483647
    ensures AllDigits(Limit(true)) && Value(Limit(true)) == 2147483648
  {
    var a := "214748364";
    HeadValue();
    ValueAppend(a, '7');
    ValueAppend(a, '8');
    assert a + ['7'] == Limit(false);
    assert a + ['8'] == Limit(true);
  }

  lemma {:induction false} HeadValue()
    ensures AllDigits("214748364") && Value("214748364") == 214748364
  {
    MiddleValue();
    Extend("21474", 21474, '8', "214748");
    Extend("214748", 214748, '3', "2147483");
    Extend("2147483", 2147483, '6', "21474836");
    Extend("21474836", 21474836, '4', "214748364");
  }

  lemma {:induction false} MiddleValue()
    ensures AllDigits("21474") && Value("21474") == 21474
  {
    Extend("", 0, '2', "2");
    Extend("2", 2, '1', "21");
    Extend("21", 21, '4', "214");
    Extend("214", 214, '7', "2147");
    Extend("2147", 2147, '4', "21474");
  }

  lemma {:induction false} Extend(s: string, v: nat, c: char, t: string)
    requires AllDigits(s) && Value(s) == v && IsDigit(c) && t == s + [c]
    ensures AllDigits(t) && Value(t) == 10 * v + DigitValue(c)
  {
    ValueAppend(s, c);
  }

  lemma {:induction false} ShortIsSmall(s: string)
    requires AllDigits(s) && |s| <= 9
    ensures Value(s) < INT_MAX
  {
    ValueBound(s);
    Pow10Grows(|s|, 9);
    assert Pow10(4) == 10000;
    assert Pow10(9) == 1000000000;
  }

  lemma {:induction false} RunIsDigits(b: string, i: nat)
    requires i <= RunLength(b)
    ensures i < RunLength(b) <==> At(b, i) != NUL && IsDigit(At(b, i))
  {}

  /** The counting loop stops at twelve. */
  method CountDigits(b: string) returns (len: nat)
    ensures len == if RunLength(b) > 12 then 12 else RunLength(b)
  {
    len := 0;
    var i := 0;
    while true
      invariant i == len <= RunLength(b) && len <= 11
      decreases |b| - i
    {
      RunIsDigits(b, i);
      if At(b, i) == NUL || !IsDigit(At(b, i)) { break; }
      i := i + 1;
      len := len + 1;
      if len - 1 > 10 { break; }
    }
  }

  /** The accumulating loop, in 32-bit arithmetic. */
  method Accumulate(b: string) returns (tmp: int)
    requires RunLength(b) <= 10 && Value(b[..RunLength(b)]) < WORD
    ensures tmp == Value(b[..RunLength(b)])
  {
    tmp := 0;
    var len, i := 0, 0;
    ghost var n := RunLength(b);
    while true
      invariant i == len <= n && tmp == Value(b[..i])
      decreases n - i
    {
      RunIsDigits(b, i);
      if At(b, i) == NUL || !IsDigit(At(b, i)) { break; }
      len := len + 1;
      if len - 1 >= 10 { break; }
      PrefixStep(b, n, i);
      tmp := (tmp * 10 + DigitValue(b[i])) % WORD;
      i := i + 1;
    }
  }

  lemma {:induction false} PrefixStep(b: string, n: nat, i: nat)
    requires n <= |b| && AllDigits(b[..n]) && i < n && Value(b[..n]) < WORD
    ensures IsDigit(b[i]) && Value(b[..i + 1]) == 10 * Value(b[..i]) + DigitValue(b[i])
    ensures Value(b[..i + 1]) % WORD == Value(b[..i + 1])
  {
    assert b[..n][i] == b[i];
    assert b[..i + 1] == b[..i] + [b[i]];
    ValueAppend(b[..i], b[i]);
    assert b[..n][..i + 1] == b[..i + 1];
    ValuePrefix(b[..n], i + 1);
    WordFits(Value(b[..i + 1]));
  }

  method Atoi(s: string) returns (r: int)
    ensures r == Parsed(s)
  {
    var negative, b := false, s;
    if At(s, 0) == '-' {
      negative, b := true, s[1..];
    } else if At(s, 0) == '+' {
      b := s[1..];
    }
    assert negative == Negative(s) && b == Body(s);
    var len := CountDigits(b);
    if len == 10 {
      TenDigits(b, negative);
      var above := StrCmp(b, if negative then "2147483648" else "2147483647");
      if !negative && 0 < above { return INT_MAX; }
      if negative && 0 < above { return INT_MIN; }
    } else if 10 < len {
      if !negative { return INT_MAX; } else { return INT_MIN; }
    } else {
      ShortIsSmall(b[..RunLength(b)]);
    }
    var tmp := Accumulate(b);
    WordFits(tmp);
    if negative { return AsSigned((-tmp) % WORD); }
    return AsSigned(tmp);
  }

  // ---- itoa ----

  ghost function Magnitude(x: int): nat {
    if x < 0 then -x else x
  }

  /** `s` is the decimal notation of `x`: a minus sign exactly for negative numbers, then the digits
      of the magnitude, with a leading zero only in the number zero. */
  ghost predicate Prints(s: string, x: int) {
    var ds := if x < 0 && s != [] then s[1..] else s;
    && (x < 0 ==> s != [] && s[0] == '-')
    && ds != [] && AllDigits(ds) && Value(ds) == Magnitude(x)
    && (ds[0] == '0' ==> x == 0 && ds == "0")
  }

  /** The digit loop: `tom` is the weight of the next digit, zero when none is left. */
  ghost predicate Weight(tom: nat, k: nat) {
    if k == 0 then tom == 0 else tom == Pow10(k - 1)
  }

  lemma {:induction false} WeightStep(tom: nat, k: nat)
    requires k > 0 && Weight(tom, k)
    ensures tom > 0 && Weight(tom / 10, k - 1)
  {
    Pow10Positive(k - 1);
    if k > 1 { assert tom == 10 * Pow10(k - 2); }
  }

  /** One digit moves from the number to the text. */
  lemma {:induction false} DigitMoves(out: string, q: nat, rest: nat, tom: nat)
    requires AllDigits(out) && q <= 9
    ensures AllDigits(out + [Digit(q)])
    ensures Value(out + [Digit(q)]) * tom + rest == Value(out) * (10 * tom) + (q * tom + rest)
  {
    ValueAppend(out, Digit(q));
    MoveSum(Value(out), q, tom);
  }

  lemma MoveSum(v: nat, q: nat, tom: nat)
    ensures (10 * v + q) * tom == v * (10 * tom) + q * tom
  {}

  lemma {:induction false} Quotient(dec: nat, tom: nat)
    requires tom > 0 && dec < 10 * tom
    ensures 0 <= dec / tom <= 9 && 0 <= dec - dec / tom * tom < tom
  {
    var q := dec / tom;
    assert dec == q * tom + dec % tom;
    if q >= 10 { Scale(10, q, tom); assert false; }
  }

  method TakeDigit(dec: nat, tom: nat) returns (q: nat, rest: nat)
    requires tom > 0 && dec < 10 * tom
    ensures q <= 9 && rest < tom && dec == q * tom + rest
    ensures tom <= dec ==> q > 0
  {
    Quotient(dec, tom);
    q := dec / tom;
    rest := dec - dec / tom * tom;
  }

  function Digit(d: nat): (c: char)
    requires d <= 9
    ensures IsDigit(c) && DigitValue(c) == d
  {
    "0123456789"[d]
  }

  /** The weight of the first digit: the largest power of ten not above the number. */
  method FirstWeight(dec: nat) returns (tom: nat, ghost k: nat)
    requires 0 < dec <= INT_MAX
    ensures 0 < tom <= dec < 10 * tom
    ensures 0 < k <= 10 && tom == Pow10(k - 1) <= dec < Pow10(k)
  {
    tom, k := 1000000000, 10;
    assert Pow10(5) == 100000;
    assert Pow10(9) == 1000000000;
    while dec / tom == 0
      invariant 0 < k <= 10 && tom == Pow10(k - 1) && tom > 0 && dec < Pow10(k)
      decreases k
    {
      WeightStep(tom, k);
      Below(dec, tom);
      tom, k := tom / 10, k - 1;
      Pow10Positive(k - 1);
    }
    NotBelow(dec, tom);
  }

  lemma Below(a: nat, b: nat)
    requires b > 0 && a / b == 0
    ensures a < b
  {}

  lemma NotBelow(a: nat, b: nat)
    requires b > 0 && a / b != 0
    ensures a >= b
  {}

  method Digits(n: nat) returns (out: string)
    requires 0 < n <= INT_MAX
    ensures out != [] && AllDigits(out) && Value(out) == n && out[0] != '0'
  {
    var dec: nat := n;
    var tom: nat, k: nat := FirstWeight(dec);
    out := [];
    while tom > 0
      invariant Weight(tom, k) && dec < Pow10(k) && AllDigits(out)
      invariant Value(out) * Pow10(k) + dec == n
      invariant if out == [] then 0 < tom <= dec else out[0] != '0'
      decreases k
    {
      WeightStep(tom, k);
      var q, rest := TakeDigit(dec, tom);
      DigitMoves(out, q, rest, tom);
      out := out + [Digit(q)];
      dec, tom := rest, tom / 10;
      k := k - 1;
    }
    assert Pow10(0) == 1;
  }

  lemma {:induction false} PrintsNegative(ds: string, x: int)
    requires x < 0 && ds != [] && AllDigits(ds) && Value(ds) == -x && ds[0] != '0'
    ensures Prints("-" + ds, x)
  {
    assert ("-" + ds)[1..] == ds;
  }

  /** The decimal text of any 32-bit number. */
  method Itoa(dec: int) returns (s: string)
    requires INT_MIN <= dec <= INT_MAX
    ensures Prints(s, dec)
  {
    var ds := "2147483648";
    if dec < 0 {
      if dec == INT_MIN {
        LimitValues();
      } else {
        ds := Digits(-dec);
      }
      PrintsNegative(ds, dec);
      s := "-" + ds;
    } else if dec == 0 {
      ValueAppend("", '0');
      s := "0";
      assert "" + ['0'] == s;
    } else {
      s := Digits(dec);
    }
  }

  /** Parsing undoes printing for every 32-bit number. */
  lemma {:induction false} ParsePrinted(x: int, s: string)
    requires INT_MIN <= x <= INT_MAX && Prints(s, x)
    ensures Parsed(s) == x
  {
    var ds := if x < 0 then s[1..] else s;
    assert Body(s) == ds by { assert x >= 0 ==> IsDigit(s[0]); }
    RunAll(ds);
    assert ds[..|ds|] == ds;
    if |ds| > 10 { LongIsBig(ds); }
  }

  /** The notation of a 32-bit number is unique and takes at most eleven characters. */
  lemma {:induction false} PrintedOnce(x: int, s: string, t: string)
    requires INT_MIN <= x <= INT_MAX && Prints(s, x) && Prints(t, x)
    ensures s == t && |s| <= 11
  {
    var a, b := if x < 0 then s[1..] else s, if x < 0 then t[1..] else t;
    if |a| > 10 { LongIsBig(a); }
    SameNotation(a, b);
  }

  lemma {:induction false} SameNotation(a: string, b: string)
    requires a != [] && AllDigits(a) && (a[0] == '0' ==> a == "0")
    requires b != [] && AllDigits(b) && (b[0] == '0' ==> b == "0")
    requires Value(a) == Value(b)
    ensures a == b
  {
    if |a| < |b| { LongerIsMore(a, b); }
    else if |b| < |a| { LongerIsMore(b, a); }
    else { SameLength(a, b); }
  }

  lemma {:induction false} LongerIsMore(a: string, b: string)
    requires AllDigits(a) && AllDigits(b) && |a| < |b| && b[0] != '0'
    ensures Value(a) < Value(b)
  {
    ValueBound(a);
    Pow10Grows(|a|, |b| - 1);
    Scale(1, DigitValue(b[0]), Pow10(|b| - 1));
  }

  lemma {:induction false} SameLength(a: string, b: string)
    requires AllDigits(a) && AllDigits(b) && |a| == |b| && Value(a) == Value(b)
    ensures a == b
  {
    if a != [] {
      if DigitValue(a[0]) < DigitValue(b[0]) { FirstDigit(a, b); }
      if DigitValue(b[0]) < DigitValue(a[0]) { FirstDigit(b, a); }
      SameLength(a[1..], b[1..]);
      assert a == [a[0]] + a[1..] && b == [b[0]] + b[1..];
    }
  }
}
