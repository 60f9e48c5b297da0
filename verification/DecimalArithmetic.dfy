/** Signed arithmetic on integer strings: sum, difference, product, quotient and remainder. */
module DecimalArithmetic {
  import opened DecimalStrings

  // ---------------------------------------------------------------- integer strings

  predicate IsNegative(s: string) {
    s != "" && s[0] == '-'
  }

  function StripLeadingMinus(s: string): string {
    if IsNegative(s) then s[1..] else s
  }

  /** Digits behind an optional minus sign; zeros in front are allowed. */
  ghost predicate IsInteger(s: string) {
    StripLeadingMinus(s) != "" && AllDigits(StripLeadingMinus(s))
  }

  ghost function Magnitude(s: string): nat
    requires IsInteger(s)
  {
    Value(StripLeadingMinus(s))
  }

  ghost function IntValue(s: string): int
    requires IsInteger(s)
  {
    if IsNegative(s) then -(Magnitude(s) as int) else Magnitude(s)
  }

  /** The canonical string of an integer. */
  ghost function ShowInt(n: int): string {
    if n < 0 then "-" + Show(-n) else Show(n)
  }

  /** A zero with a minus sign is not canonical. */
  ghost predicate IsMinusZero(s: string)
    requires IsInteger(s)
  {
    IsNegative(s) && Magnitude(s) == 0
  }

  lemma ShowZero(n: nat)
    ensures Show(n) == "0" <==> n == 0
  {
    ShowFacts(n);
    assert Show(0) == [DigitChar(0)];
  }

  lemma ShowIntFacts(n: int)
    ensures IsInteger(ShowInt(n)) && IntValue(ShowInt(n)) == n
    ensures IsNegative(ShowInt(n)) <==> n < 0
    ensures StripLeadingMinus(ShowInt(n)) == Show(if n < 0 then -n else n)
    ensures ShowInt(n) == "0" <==> n == 0
  {
    var m := if n < 0 then -n else n;
    hide Show;
    ShowFacts(m);
    ShowZero(m);
    if n < 0 {
      assert ("-" + Show(m))[1..] == Show(m);
    } else {
      assert IsDigit(Show(m)[0]);
    }
  }

  // ---------------------------------------------------------------- comparing digit strings

  /** The order of strings of equal length. */
  predicate Less(a: string, b: string)
    requires |a| == |b|
  {
    a != "" && (a[0] < b[0] || (a[0] == b[0] && Less(a[1..], b[1..])))
  }

  lemma {:induction false} LessByValue(a: string, b: string)
    requires |a| == |b| && AllDigits(a) && AllDigits(b)
    ensures Less(a, b) <==> Value(a) < Value(b)
  {
    if a != "" {
      hide Value, Pow10;
      assert a == [a[0]] + a[1..] && b == [b[0]] + b[1..];
      ValuePrepend(a[0], a[1..]);
      ValuePrepend(b[0], b[1..]);
      ValueBelow(a[1..]);
      ValueBelow(b[1..]);
      LessByValue(a[1..], b[1..]);
      LeadingDigits(DigitValue(a[0]), DigitValue(b[0]), Pow10(|a| - 1));
    }
  }

  lemma LeadingDigits(x: nat, y: nat, p: nat)
    ensures x < y ==> x * p + p <= y * p
    ensures y < x ==> y * p + p <= x * p
  {
    if x < y {
      assert (x + 1) * p <= y * p;
    } else if y < x {
      assert (y + 1) * p <= x * p;
    }
  }

  /** Of two numerals the longer one is larger. */
  lemma ShorterIsLess(a: string, b: string)
    requires IsNumeral(a) && IsNumeral(b) && |a| < |b|
    ensures Value(a) < Value(b)
  {
    hide Value;
    ValueBelow(a);
    NumeralAtLeast(b);
    Pow10Grows(|a|, |b| - 1);
  }

  lemma {:induction false} Pow10Grows(i: nat, j: nat)
    requires i <= j
    ensures Pow10(i) <= Pow10(j)
    decreases j
  {
    if i < j {
      Pow10Grows(i, j - 1);
    }
  }

  // ---------------------------------------------------------------- sum and difference

  /** How many of the two strings carry a minus sign. */
  function Signs(a: string, b: string): nat {
    (if IsNegative(a) then 1 else 0) + if IsNegative(b) then 1 else 0
  }

  method Plus2(a: string, b: string) returns (out: string)
    requires (a == "" || IsInteger(a)) && (b == "" || IsInteger(b))
    ensures a == "" ==> out == b
    ensures a != "" && b == "" ==> out == a
    ensures a != "" && b != "" ==>
              out == if IsMinusZero(a) && IsMinusZero(b) then "-0" else ShowInt(IntValue(a) + IntValue(b))
    decreases Signs(a, b), 1
  {
    hide Value, Show;
    if a == "" {
      return b;
    }
    if b == "" {
      return a;
    }
    ShowIntFacts(IntValue(a) + IntValue(b));
    if !IsNegative(a) && IsNegative(b) {
      out := Minus2(a, StripLeadingMinus(b));
      return;
    }
    if IsNegative(a) && !IsNegative(b) {
      out := Minus2(b, StripLeadingMinus(a));
      return;
    }
    var x := RemoveLeadingZero(StripLeadingMinus(a));
    var y := RemoveLeadingZero(StripLeadingMinus(b));
    ShowFacts(Magnitude(a));
    ShowFacts(Magnitude(b));
    out := AddIntegerStrings(x, y);
    ShowFacts(Magnitude(a) + Magnitude(b));
    if IsNegative(a) && IsNegative(b) {
      MinusInFront(out);
      out := "-" + out;
    }
  }

  lemma MinusInFront(s: string)
    requires IsNumeral(s)
    ensures IsInteger("-" + s) && IntValue("-" + s) == -(Value(s) as int) && StripLeadingMinus("-" + s) == s
    ensures Value(s) > 0 ==> "-" + s == ShowInt(-(Value(s) as int))
  {
    assert ("-" + s)[1..] == s;
    NumeralIsShown(s);
  }

  method Minus2(a: string, b: string) returns (out: string)
    requires (a == "" || IsInteger(a)) && (b == "" || IsInteger(b))
    ensures a == "" ==> out == if IsNegative(b) then b[1..] else "-" + b
    ensures a != "" && b == "" ==> out == a
    ensures a != "" && b != "" ==>
              out == if IsMinusZero(a) && !IsNegative(b) && Magnitude(b) == 0 then "-0"
                     else ShowInt(IntValue(a) - IntValue(b))
    decreases Signs(a, b), 0
  {
    hide Value, Show;
    if a == "" {
      if IsNegative(b) {
        return StripLeadingMinus(b);
      }
      return "-" + b;
    }
    if b == "" {
      return a;
    }
    ShowIntFacts(IntValue(a) - IntValue(b));
    if !IsNegative(a) && IsNegative(b) {
      out := Plus2(a, StripLeadingMinus(b));
      return;
    }
    if IsNegative(a) && !IsNegative(b) {
      out := Plus2(StripLeadingMinus(a), b);
      ShowFacts(Magnitude(a) + Magnitude(b));
      MinusInFront(out);
      out := "-" + out;
      return;
    }
    if IsNegative(a) && IsNegative(b) {
      var res := Minus2(StripLeadingMinus(a), StripLeadingMinus(b));
      ShowIntFacts(Magnitude(a) as int - Magnitude(b) as int);
      if IsNegative(res) {
        return res[1..];
      }
      if res == "0" {
        return "0";
      }
      ShowFacts(Magnitude(a) as int - Magnitude(b) as int);
      MinusInFront(res);
      return "-" + res;
    }
    out := SubtractNumerals(a, b);
  }

  /** Without signs: the smaller number is taken from the larger one. */
  method SubtractNumerals(a0: string, b0: string) returns (out: string)
    requires IsInteger(a0) && IsInteger(b0) && !IsNegative(a0) && !IsNegative(b0)
    ensures out == ShowInt(IntValue(a0) - IntValue(b0))
  {
    hide Value, Show;
    var a := RemoveLeadingZero(a0);
    var b := RemoveLeadingZero(b0);
    ShowFacts(Value(a0));
    ShowFacts(Value(b0));
    var isMinus := |a| < |b| || (|a| == |b| && Less(a, b));
    if |a| == |b| {
      LessByValue(a, b);
    } else if |a| < |b| {
      ShorterIsLess(a, b);
    } else {
      ShorterIsLess(b, a);
    }
    if isMinus {
      out := SubIntegerStrings(b, a);
      out := "-" + out;
    } else {
      out := SubIntegerStrings(a, b);
    }
  }

  // ---------------------------------------------------------------- product

  lemma SignedProduct(x: nat, y: nat, negX: bool, negY: bool)
    ensures (if negX then -(x as int) else x) * (if negY then -(y as int) else y) ==
            if negX != negY then -((x * y) as int) else x * y
  {
  }

  /** Exact as long as one of the operands is short enough for the columns. */
  method Mul2(a: string, b: string) returns (out: string)
    requires (a == "" || IsInteger(a)) && (b == "" || IsInteger(b))
    requires |a| <= MAX_DIGITS || |b| <= MAX_DIGITS
    ensures a == "" || b == "" ==> out == ""
    ensures a != "" && b != "" ==> out == ShowInt(IntValue(a) * IntValue(b))
  {
    hide Value, Show;
    if a == "" || b == "" {
      return "";
    }
    SignedProduct(Magnitude(a), Magnitude(b), IsNegative(a), IsNegative(b));
    out := MultiplyMagnitudes(StripLeadingMinus(a), StripLeadingMinus(b));
    ShowZero(Magnitude(a) * Magnitude(b));
    if IsNegative(a) != IsNegative(b) && out != "0" {
      out := "-" + out;
    }
  }

  /** The shorter operand goes first. */
  method MultiplyMagnitudes(a0: string, b0: string) returns (out: string)
    requires a0 != "" && b0 != "" && AllDigits(a0) && AllDigits(b0)
    requires |a0| <= MAX_DIGITS || |b0| <= MAX_DIGITS
    ensures out == Show(Value(a0) * Value(b0))
  {
    hide Value, Show, Trimmed;
    var a, b := a0, b0;
    if |a| > |b| {
      a, b := b, a;
    }
    assert Value(a) * Value(b) == Value(a0) * Value(b0);
    if a == "0" || b == "0" {
      OneDigit('0');
      ShowZero(0);
      return "0";
    }
    TrimmedDigits(a);
    ShowFacts(Value(a));
    ShowFacts(Value(b));
    a := RemoveLeadingZero(a);
    b := RemoveLeadingZero(b);
    out := MulIntegerStrings(a, b);
    ShowFacts(Value(a0) * Value(b0));
    out := RemoveLeadingZero(out);
  }

  // ---------------------------------------------------------------- quotient

  ghost function Abs(n: int): nat {
    if n < 0 then -n else n
  }

  /** Division that drops what is behind the decimal point. */
  ghost function Truncated(a: int, b: int): int
    requires b != 0
  {
    if (a < 0) != (b < 0) then -(Abs(a) / Abs(b)) else Abs(a) / Abs(b)
  }

  ghost function Quotient(x: nat, y: nat): nat
    requires y > 0
  {
    x / y
  }

  ghost function Remainder(x: nat, y: nat): nat
    requires y > 0
  {
    x % y
  }

  lemma DigitShown(d: nat)
    requires d < 10
    ensures Show(d) == [DigitChar(d)]
  {
  }

  ghost predicate Fits(d: int, y: nat, x: nat) {
    d * y <= x
  }

  lemma DigitFits(x: nat, y: nat)
    requires x < 10 * y
    ensures Fits(0, y, x) && !Fits(10, y, x)
  {
  }

  lemma LargestThatFits(x: nat, y: nat, d: nat)
    requires y > 0 && Fits(d, y, x) && !Fits(d + 1, y, x)
    ensures x >= d * y && Quotient(x, y) == d && ShowInt(x as int - d * y) == Show(Remainder(x, y))
  {
    assert (d + 1) * y == d * y + y;
    QuotientFound(x, y, d);
  }

  /** What is left of `a` after taking away `d` times `b`. */
  method Rest(a: string, b: string, d: nat) returns (cmp: string)
    requires IsNumeral(a) && IsNumeral(b) && d < 10
    ensures cmp == ShowInt(Value(a) as int - d * Value(b))
    ensures (cmp == "0" || (cmp != "" && !IsNegative(cmp))) <==> Fits(d, Value(b), Value(a))
  {
    hide Value, Show;
    ShowIntFacts(Value(a) as int - d * Value(b));
    DigitShown(d);
    ShowFacts(d);
    var product := Mul2(b, [DigitChar(d)]);
    ShowIntFacts(Value(b) * d);
    cmp := Minus2(a, product);
  }

  /** One step of the long division: the digit by bisection, and what is left. */
  method DoDiv(a: string, b: string) returns (remainder: string, digit: string)
    requires IsNumeral(a) && IsNumeral(b) && Value(b) > 0 && Value(a) < 10 * Value(b)
    ensures remainder == Show(Remainder(Value(a), Value(b)))
    ensures Quotient(Value(a), Value(b)) < 10 && digit == Show(Quotient(Value(a), Value(b)))
  {
    hide Value, Show, ShowInt, Quotient, Remainder, AllDigits, Fits;
    ghost var x, y := Value(a), Value(b);
    if b == "1" {
      OneDigit('1');
      NumeralIsShown(a);
      ShowZero(0);
      QuotientFound(x, 1, x);
      return "0", a;
    }
    var low, high, res := 0, 9, 0;
    DigitFits(x, y);
    while low <= high
      invariant 0 <= res <= low <= 10 && -1 <= high <= 9 && low <= high + 1 && res <= 9
      invariant res == if low == 0 then 0 else low - 1
      invariant Fits(res, y, x) && !Fits(high + 1, y, x)
    {
      var mid := (low + high) / 2;
      var cmp := Rest(a, b, mid);
      if cmp == "0" || (cmp != "" && !IsNegative(cmp)) {
        res := mid;
        low := mid + 1;
      } else {
        high := mid - 1;
      }
    }
    remainder := Rest(a, b, res);
    digit := [DigitChar(res)];
    DigitShown(res);
    LargestThatFits(x, y, res);
  }

  lemma QuotientFound(x: nat, y: nat, q: nat)
    requires y > 0 && q * y <= x < (q + 1) * y
    ensures Quotient(x, y) == q && Remainder(x, y) == x - y * q
  {
    QuotientIsUnique(y, x / y, x % y, q, x - q * y);
  }

  lemma QuotientIsUnique(y: int, q: int, r: int, q': int, r': int)
    requires q * y + r == q' * y + r' && 0 <= r < y && 0 <= r' < y
    ensures q == q' && r == r'
  {
    assert (q - q') * y == r' - r;
    assert q - q' >= 1 ==> (q - q') * y >= y;
    assert q - q' <= -1 ==> (q - q') * y <= -y;
  }

  /** The quotient and the rest after bringing down one more digit. */
  lemma BringDown(n: nat, d: nat, y: nat)
    requires y > 0 && d < 10
    ensures var m := 10 * Remainder(n, y) + d;
            m < 10 * y && Quotient(10 * n + d, y) == 10 * Quotient(n, y) + Quotient(m, y)
            && Remainder(10 * n + d, y) == Remainder(m, y)
  {
    var q, r := n / y, n % y;
    var m := 10 * r + d;
    Reassociate(q, m / y, y);
    QuotientIsUnique(y, (10 * n + d) / y, (10 * n + d) % y, 10 * q + m / y, m % y);
  }

  lemma Reassociate(q: int, k: int, y: int)
    ensures (10 * q + k) * y == 10 * (q * y) + k * y
  {
  }

  /** The digits of `a` up to the `i`th are divided. */
  ghost predicate IsDivided(a: string, y: nat, i: nat, res: string, remainder: string)
    requires AllDigits(a) && i <= |a| && y > 0
  {
    && |res| == i && AllDigits(res) && Value(res) == Quotient(Value(a[..i]), y)
    && remainder == Show(Remainder(Value(a[..i]), y))
  }

  lemma NothingDivided(a: string, y: nat)
    requires AllDigits(a) && y > 0
    ensures IsDivided(a, y, 0, "", "0")
  {
    DigitShown(0);
  }

  lemma DivideDigit(a: string, y: nat, i: nat, res: string, remainder: string, digit: string, next: string)
    requires AllDigits(a) && i < |a| && y > 0 && IsDivided(a, y, i, res, remainder)
    requires AllDigits(remainder) && AllDigits(remainder + [a[i]])
    requires var m := Value(remainder + [a[i]]);
             Quotient(m, y) < 10 && digit == Show(Quotient(m, y)) && next == Show(Remainder(m, y))
    ensures IsDivided(a, y, i + 1, res + digit, next)
  {
    hide Quotient, Remainder, Show;
    var n, d := Value(a[..i]), DigitValue(a[i]);
    assert a[..i + 1][..i] == a[..i];
    ShowFacts(Remainder(n, y));
    assert (remainder + [a[i]])[..|remainder|] == remainder;
    BringDown(n, d, y);
    DigitShown(Quotient(10 * Remainder(n, y) + d, y));
    assert (res + digit)[..|res|] == res;
  }

  lemma BroughtDown(a: string, y: nat, i: nat, res: string, remainder: string)
    requires AllDigits(a) && i < |a| && y > 0 && IsDivided(a, y, i, res, remainder)
    ensures AllDigits(remainder) && AllDigits(remainder + [a[i]]) && Value(remainder + [a[i]]) < 10 * y
  {
    hide Quotient, Remainder, Show;
    ShowFacts(Remainder(Value(a[..i]), y));
    assert (remainder + [a[i]])[..|remainder|] == remainder;
    BringDown(Value(a[..i]), DigitValue(a[i]), y);
  }

  /** Schoolbook division: one digit of the quotient for each digit of `a`. */
  method LongDivision(a: string, b: string) returns (res: string)
    requires a != "" && AllDigits(a) && IsNumeral(b) && Value(b) > 0
    ensures |res| == |a| && AllDigits(res) && Value(res) == Quotient(Value(a), Value(b))
  {
    hide Value, Show, Quotient, Remainder, IsDivided, AllDigits;
    ghost var y := Value(b);
    res := "";
    var remainder := "0";
    NothingDivided(a, y);
    for i := 0 to |a|
      invariant IsDivided(a, y, i, res, remainder)
    {
      BroughtDown(a, y, i, res, remainder);
      ghost var longer := remainder + [a[i]];
      ShowFacts(Value(longer));
      var current := RemoveLeadingZero(remainder + [a[i]]);
      var rest, digit := DoDiv(current, b);
      DivideDigit(a, y, i, res, remainder, digit, rest);
      remainder := rest;
      res := res + digit;
    }
    AllDivided(a, y, res, remainder);
  }

  lemma AllDivided(a: string, y: nat, res: string, remainder: string)
    requires AllDigits(a) && y > 0 && IsDivided(a, y, |a|, res, remainder)
    ensures |res| == |a| && AllDigits(res) && Value(res) == Quotient(Value(a), y)
  {
    assert a[..|a|] == a;
  }

  /** Where the last decimal point stands, if there is one. */
  function LastPoint(s: string): (i: int)
    ensures -1 <= i < |s| && (i >= 0 ==> s[i] == '.')
    ensures forall j :: i < j < |s| ==> s[j] != '.'
  {
    if s == "" then -1
    else if s[|s| - 1] == '.' then |s| - 1
    else LastPoint(s[..|s| - 1])
  }

  /** Rounding to whole numbers: one is added when the first decimal is five or more. */
  method RoundToWhole(s: string) returns (out: string)
    requires LastPoint(s) >= 0 ==> s[..LastPoint(s)] == "" || IsInteger(s[..LastPoint(s)])
    ensures LastPoint(s) < 0 ==> out == s
    ensures LastPoint(s) >= 0 && IsInteger(s[..LastPoint(s)]) && s[LastPoint(s)..] == ".0" ==>
              out == ShowInt(IntValue(s[..LastPoint(s)]))
  {
    var idx := LastPoint(s);
    if idx < 0 {
      return s;
    }
    var add := if idx + 1 < |s| && s[idx + 1] >= '5' then "1" else "0";
    assert s[idx..] == ".0" ==> idx + 1 < |s| && s[idx + 1] == s[idx..][1];
    OneDigit('0');
    OneDigit('1');
    out := Plus2(s[..idx], add);
  }

  function RemoveSuffixZero(s: string): string {
    if '.' !in s then s else WithoutPoint(WithoutZeros(s))
  }

  function WithoutZeros(s: string): string {
    if s != "" && s[|s| - 1] == '0' then WithoutZeros(s[..|s| - 1]) else s
  }

  function WithoutPoint(s: string): string {
    if s != "" && s[|s| - 1] == '.' then s[..|s| - 1] else s
  }

  lemma WholeResult(digits: string, isMinus: bool)
    requires IsNumeral(digits)
    ensures var s := (if isMinus then "-" else "") + digits + ".0";
            && LastPoint(s) == |s| - 2 && s[LastPoint(s)..] == ".0"
            && IsInteger(s[..LastPoint(s)]) && StripLeadingMinus(s[..LastPoint(s)]) == digits
            && IsNegative(s[..LastPoint(s)]) == isMinus
  {
    var sign := if isMinus then "-" else "";
    var s := sign + digits + ".0";
    assert s[|s| - 2] == '.' && s[|s| - 1] == '0';
    assert s[..|s| - 2] == sign + digits;
    assert IsDigit(digits[0]);
    assert isMinus ==> (sign + digits)[1..] == digits;
  }

  lemma NoPointInInteger(n: int)
    ensures '.' !in ShowInt(n)
  {
    ShowIntFacts(n);
    var s := ShowInt(n);
    assert forall i :: 0 <= i < |s| ==> s[i] == '-' || IsDigit(s[i]) by {
      assert IsNegative(s) ==> forall i :: 1 <= i < |s| ==> s[i] == s[1..][i - 1];
    }
  }

  /** The quotient of two integers without decimals; the divisor is not zero. */
  method Div2(a0: string, b0: string) returns (out: string)
    requires (a0 == "" || IsInteger(a0)) && (b0 == "" || IsInteger(b0))
    requires a0 != "" && b0 != "" ==> Magnitude(b0) > 0
    ensures a0 == "" || b0 == "" ==> out == ""
    ensures a0 != "" && b0 != "" ==> out == ShowInt(Truncated(IntValue(a0), IntValue(b0)))
  {
    hide Value, Show, Quotient, Trimmed, LastPoint;
    if a0 == "" || b0 == "" {
      return "";
    }
    var isMinus := IsNegative(a0) != IsNegative(b0);
    var a := RemoveLeadingZero(StripLeadingMinus(a0));
    var b := RemoveLeadingZero(StripLeadingMinus(b0));
    ShowFacts(Magnitude(a0));
    ShowFacts(Magnitude(b0));
    ShowZero(Magnitude(a0));
    TruncatedByMagnitudes(a0, b0);
    if a == "0" {
      return "0";
    }
    var res := LongDivision(a, b);
    TrimmedBeforePoint(res, ".0");
    TrimmedDigits(res);
    ghost var digits := Trimmed(res);
    res := RemoveLeadingZero(res + ".0");
    WholeResult(digits, isMinus);
    assert res != "0";
    if isMinus {
      res := "-" + res;
    }
    assert res == (if isMinus then "-" else "") + digits + ".0";
    out := RoundToWhole(res);
    NoPointInInteger(if isMinus then -(Value(digits) as int) else Value(digits));
    out := RemoveSuffixZero(out);
  }

  lemma TruncatedByMagnitudes(a: string, b: string)
    requires IsInteger(a) && IsInteger(b) && Magnitude(b) > 0
    ensures var q := Quotient(Magnitude(a), Magnitude(b));
            Truncated(IntValue(a), IntValue(b)) == if IsNegative(a) != IsNegative(b) then -(q as int) else q
    ensures Magnitude(a) == 0 ==> Truncated(IntValue(a), IntValue(b)) == 0
  {
  }

  // ---------------------------------------------------------------- remainder

  /** What the remainder comes to: a negative rest of the truncating division is moved up by the divisor. */
  ghost function Modulus(a: int, b: int): int
    requires b != 0
  {
    var r := a - Truncated(a, b) * b;
    if r < 0 then r + b else r
  }

  /** What is left of `a` after taking away `q` times `b`. */
  method RestOfTimes(a: string, b: string, quotient: string, ghost q: int) returns (rest: string)
    requires IsInteger(a) && IsInteger(b) && |b| <= MAX_DIGITS && quotient == ShowInt(q)
    ensures rest == if IsMinusZero(a) && q * IntValue(b) == 0 then "-0" else ShowInt(IntValue(a) - q * IntValue(b))
  {
    hide Value, Show, ShowInt, AllDigits;
    ShowIntFacts(q);
    ShowIntFacts(q * IntValue(b));
    var product := Mul2(quotient, b);
    rest := Minus2(a, product);
  }

  /** The rest of a dividend `-0` counts as negative and is moved up as well: the divisor itself comes out. */
  method Modulo(a: string, b: string) returns (out: string)
    requires IsInteger(a) && IsInteger(b) && Magnitude(b) > 0 && |b| <= MAX_DIGITS
    ensures out == ShowInt(if IsMinusZero(a) then IntValue(b) else Modulus(IntValue(a), IntValue(b)))
  {
    hide Value, Show, ShowInt, Truncated;
    ghost var x, y := IntValue(a), IntValue(b);
    ghost var q := Truncated(x, y);
    NoneTruncated(y);
    var quotient := Div2(a, b);
    var res := RestOfTimes(a, b, quotient, q);
    ShowIntFacts(q);
    ShowIntFacts(x - q * y);
    if IsNegative(res) {
      OneDigit('1');
      quotient := Minus2(quotient, "1");
      q := q - 1;
      assert q * y == Truncated(x, y) * y - y;
    }
    out := RestOfTimes(a, b, quotient, q);
  }

  lemma NoneTruncated(b: int)
    requires b != 0
    ensures Truncated(0, b) == 0
  {
  }

  /** What truncating division leaves has the sign of the dividend. */
  lemma TruncatedRest(a: int, b: int)
    requires b != 0
    ensures var r: int := Remainder(Abs(a), Abs(b)); a - Truncated(a, b) * b == if a < 0 then -r else r
    ensures Remainder(Abs(a), Abs(b)) < Abs(b)
  {
    var q, r := Abs(a) / Abs(b), Abs(a) % Abs(b);
    assert Abs(a) == q * Abs(b) + r;
    SignedProduct(q, Abs(b), (a < 0) != (b < 0), b < 0);
  }

  /**
   * For a positive divisor this is the residue between zero and the divisor.
   * For a negative one it is so exactly when nothing had to be moved up.
   */
  lemma ModulusIsResidue(a: int, b: int)
    requires b != 0
    ensures 0 <= Modulus(a, b) < Abs(b) <==> b > 0 || a >= 0 || Remainder(Abs(a), Abs(b)) == 0
    ensures b > 0 ==> Modulus(a, b) == a % b
  {
    hide Truncated, Remainder;
    var t := Truncated(a, b);
    var r := a - t * b;
    TruncatedRest(a, b);
    if b > 0 {
      var q := if r < 0 then t - 1 else t;
      assert (t - 1) * b == t * b - b;
      QuotientIsUnique(b, a / b, a % b, q, Modulus(a, b));
    }
  }

  /** The result is a residue exactly if the dividend is not `-0` and nothing had to be moved up by a negative divisor. */
  lemma ModuloIsResidue(a: string, b: string)
    requires IsInteger(a) && IsInteger(b) && Magnitude(b) > 0
    ensures var x, y := IntValue(a), IntValue(b);
            var out := ShowInt(if IsMinusZero(a) then y else Modulus(x, y));
            IsInteger(out)
            && (0 <= IntValue(out) < Abs(y) <==> !IsMinusZero(a) && (y > 0 || x >= 0 || Remainder(Abs(x), Abs(y)) == 0))
  {
    hide Value, Show, ShowInt, Modulus, Remainder, IsInteger;
    var x, y := IntValue(a), IntValue(b);
    ShowIntFacts(if IsMinusZero(a) then y else Modulus(x, y));
    ModulusIsResidue(x, y);
  }
}
