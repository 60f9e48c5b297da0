/** Arithmetic on decimal strings of any length, for integers. */
module DecimalStrings {

  // ---------------------------------------------------------------- digits and values

  function Pow10(n: nat): (r: nat)
    ensures r > 0
  {
    if n == 0 then 1 else 10 * Pow10(n - 1)
  }

  predicate IsDigit(c: char) {
    '0' <= c <= '9'
  }

  function DigitValue(c: char): (d: nat)
    requires IsDigit(c)
    ensures d < 10
  {
    c as int - '0' as int
  }

  function DigitChar(d: nat): (c: char)
    requires d < 10
    ensures IsDigit(c) && DigitValue(c) == d
  {
    (d + '0' as int) as char
  }

  ghost predicate AllDigits(s: string) {
    forall i :: 0 <= i < |s| ==> IsDigit(s[i])
  }

  ghost function Value(s: string): nat
    requires AllDigits(s)
  {
    if s == "" then 0 else 10 * Value(s[..|s| - 1]) + DigitValue(s[|s| - 1])
  }

  /** At least one digit, and no zero in front of another digit. */
  ghost predicate IsNumeral(s: string) {
    s != "" && AllDigits(s) && (|s| > 1 ==> s[0] != '0')
  }

  /** The canonical numeral of a number. */
  ghost function Show(n: nat): string {
    if n < 10 then [DigitChar(n)] else Show(n / 10) + [DigitChar(n % 10)]
  }

  lemma {:induction false} ValueAppend(s: string, t: string)
    requires AllDigits(s) && AllDigits(t)
    ensures AllDigits(s + t) && Value(s + t) == Value(s) * Pow10(|t|) + Value(t)
    decreases |t|
  {
    if t == "" {
      assert s + t == s;
    } else {
      var t' := t[..|t| - 1];
      ValueAppend(s, t');
      assert (s + t)[..|s + t| - 1] == s + t';
      assert 10 * (Value(s) * Pow10(|t'|)) == Value(s) * Pow10(|t|);
    }
  }

  lemma ValuePrepend(c: char, s: string)
    requires IsDigit(c) && AllDigits(s)
    ensures AllDigits([c] + s) && Value([c] + s) == DigitValue(c) * Pow10(|s|) + Value(s)
  {
    hide Pow10;
    OneDigit(c);
    ValueAppend([c], s);
  }

  lemma OneDigit(c: char)
    requires IsDigit(c)
    ensures Value([c]) == DigitValue(c)
  {
    assert [c][..0] == "";
  }

  lemma {:induction false} ValueBelow(s: string)
    requires AllDigits(s)
    ensures Value(s) < Pow10(|s|)
  {
    if s != "" {
      ValueBelow(s[..|s| - 1]);
    }
  }

  lemma NumeralAtLeast(s: string)
    requires IsNumeral(s) && |s| > 1
    ensures Value(s) >= Pow10(|s| - 1)
  {
    hide Pow10, Value;
    assert s == [s[0]] + s[1..];
    ValuePrepend(s[0], s[1..]);
    AtLeastOnce(DigitValue(s[0]), Pow10(|s| - 1));
  }

  lemma AtLeastOnce(d: nat, p: nat)
    requires d >= 1
    ensures d * p >= p
  {
  }

  lemma {:induction false} ShowFacts(n: nat)
    ensures IsNumeral(Show(n)) && Value(Show(n)) == n && (n > 0 ==> Show(n)[0] != '0')
  {
    if n < 10 {
      assert Show(n)[..0] == "";
    } else {
      ShowFacts(n / 10);
      assert Show(n)[..|Show(n)| - 1] == Show(n / 10);
    }
  }

  /** There is one numeral for each number. */
  lemma {:induction false} NumeralIsShown(s: string)
    requires IsNumeral(s)
    ensures s == Show(Value(s))
    decreases |s|
  {
    if |s| == 1 {
      assert s[..0] == "";
    } else {
      var init := s[..|s| - 1];
      NumeralIsShown(init);
      NumeralAtLeast(s);
      assert Pow10(|s| - 1) >= 10;
      assert Value(s) / 10 == Value(init) && Value(s) % 10 == DigitValue(s[|s| - 1]);
    }
  }

  /** Without the zeros in front of anything but a decimal point. */
  ghost function Trimmed(s: string): string {
    if |s| > 1 && s[0] == '0' && s[1] != '.' then Trimmed(s[1..]) else s
  }

  lemma {:induction false} TrimmedDigits(s: string)
    requires s != "" && AllDigits(s)
    ensures IsNumeral(Trimmed(s)) && Value(Trimmed(s)) == Value(s) && |Trimmed(s)| <= |s|
  {
    if |s| > 1 && s[0] == '0' {
      TrimmedDigits(s[1..]);
      assert s == [s[0]] + s[1..];
      ValuePrepend(s[0], s[1..]);
    }
  }

  /** Trimming stops at the digit before a decimal point. */
  lemma {:induction false} TrimmedBeforePoint(s: string, rest: string)
    requires s != "" && AllDigits(s) && rest != "" && rest[0] == '.'
    ensures Trimmed(s + rest) == Trimmed(s) + rest
  {
    if |s| > 1 && s[0] == '0' {
      TrimmedBeforePoint(s[1..], rest);
      assert (s + rest)[1..] == s[1..] + rest;
    }
  }

  method RemoveLeadingZero(s: string) returns (out: string)
    ensures out == Trimmed(s)
    ensures s != "" && AllDigits(s) ==> out == Show(Value(s))
  {
    var idx: nat := 0;
    while idx + 1 < |s| && s[idx] == '0' && s[idx + 1] != '.'
      invariant idx <= |s| && Trimmed(s[idx..]) == Trimmed(s)
    {
      assert s[idx..][1..] == s[idx + 1..];
      idx := idx + 1;
    }
    out := s[idx..];
    assert Trimmed(out) == out;
    if s != "" && AllDigits(s) {
      TrimmedDigits(s);
      NumeralIsShown(out);
    }
  }

  // ---------------------------------------------------------------- adding and subtracting digit strings

  /** The value of the last `k` digits, or of all when there are fewer. */
  ghost function Low(s: string, k: nat): nat
    requires AllDigits(s)
  {
    if k >= |s| then Value(s) else Value(s[|s| - k..])
  }

  /** The digit with weight `10^k`, zero past the first one. */
  ghost function DigitAt(s: string, k: nat): (d: nat)
    requires AllDigits(s)
    ensures d < 10
  {
    if k >= |s| then 0 else DigitValue(s[|s| - 1 - k])
  }

  lemma DigitRead(s: string, k: nat)
    requires AllDigits(s)
    ensures DigitAt(s, k) == if |s| - 1 - k >= 0 then DigitValue(s[|s| - 1 - k]) else 0
  {
  }

  lemma LowStep(s: string, k: nat)
    requires AllDigits(s)
    ensures Low(s, k + 1) == Low(s, k) + DigitAt(s, k) * Pow10(k)
    ensures Low(s, 0) == 0
  {
    assert s[|s|..] == "";
    if k < |s| {
      assert s[|s| - 1 - k..] == [s[|s| - 1 - k]] + s[|s| - k..];
      ValuePrepend(s[|s| - 1 - k], s[|s| - k..]);
      assert k + 1 == |s| ==> s[0..] == s;
    }
  }

  /** The last `k` columns are added up. */
  ghost predicate IsSum(a: string, b: string, tail: string, carry: nat, k: nat)
    requires AllDigits(a) && AllDigits(b)
  {
    AllDigits(tail) && |tail| == k && Value(tail) + carry * Pow10(k) == Low(a, k) + Low(b, k)
  }

  lemma AddColumn(a: string, b: string, tail: string, before: nat, k: nat, val: nat, carry: nat)
    requires AllDigits(a) && AllDigits(b) && IsSum(a, b, tail, before, k) && val < 10
    requires before + DigitAt(a, k) + DigitAt(b, k) == val + 10 * carry
    ensures IsSum(a, b, [DigitChar(val)] + tail, carry, k + 1)
  {
    hide Value, Low, DigitAt, Pow10;
    ValuePrepend(DigitChar(val), tail);
    LowStep(a, k);
    LowStep(b, k);
    Pow10Step(k);
    SumColumn(before, DigitAt(a, k), DigitAt(b, k), val, carry, Pow10(k));
  }

  lemma Pow10Step(n: nat)
    ensures Pow10(n + 1) == 10 * Pow10(n)
  {
  }

  lemma SumColumn(before: int, x: int, y: int, val: int, carry: int, p: int)
    requires before + x + y == val + 10 * carry
    ensures before * p + x * p + y * p == val * p + carry * (10 * p)
  {
    assert (before + x + y) * p == before * p + x * p + y * p;
    assert (val + 10 * carry) * p == val * p + carry * (10 * p);
  }

  lemma NothingAdded(a: string, b: string)
    requires AllDigits(a) && AllDigits(b)
    ensures IsSum(a, b, "", 0, 0)
  {
    LowStep(a, 0);
    LowStep(b, 0);
  }

  lemma AllAdded(a: string, b: string, tail: string)
    requires AllDigits(a) && AllDigits(b) && IsSum(a, b, tail, 0, |tail|) && |tail| >= |a| && |tail| >= |b|
    ensures AllDigits(tail) && Value(tail) == Value(a) + Value(b)
  {
  }

  method AddIntegerStrings(a0: string, b0: string) returns (out: string)
    requires a0 != "" && b0 != "" && AllDigits(a0) && AllDigits(b0)
    ensures out == Show(Value(a0) + Value(b0))
  {
    hide IsSum, Value, Show;
    var a, b := a0, b0;
    if |a| < |b| {
      a, b := b, a;
    }
    var res := new char[|a| + 1](_ => '0');
    var carry: nat := 0;
    var i, j, idx := |a| - 1, |b| - 1, |a|;
    NothingAdded(a, b);
    assert res[idx + 1..] == "";
    while idx >= 0
      invariant -1 <= idx <= |a| && carry <= 1 && (idx < 0 ==> carry == 0)
      invariant i == (if idx > 0 then idx - 1 else -1)
      invariant j == if |b| - 1 - (|a| - idx) >= 0 then |b| - 1 - (|a| - idx) else -1
      invariant IsSum(a, b, res[idx + 1..], carry, |a| - idx)
    {
      ghost var tail, before, k := res[idx + 1..], carry, |a| - idx;
      var val: nat := carry;
      if i >= 0 {
        val := val + DigitValue(a[i]);
        i := i - 1;
      }
      if j >= 0 {
        val := val + DigitValue(b[j]);
        j := j - 1;
      }
      assert val == before + DigitAt(a, k) + DigitAt(b, k);
      if val >= 10 {
        carry := 1;
        val := val - 10;
      } else {
        carry := 0;
      }
      AddColumn(a, b, tail, before, k, val, carry);
      res[idx] := DigitChar(val);
      assert res[idx..] == [DigitChar(val)] + tail;
      idx := idx - 1;
    }
    assert res[0..] == res[..];
    AllAdded(a, b, res[..]);
    out := RemoveLeadingZero(res[..]);
  }

  /** The last `k` columns are subtracted. */
  ghost predicate IsDifference(a: string, b: string, tail: string, borrow: nat, k: nat)
    requires AllDigits(a) && AllDigits(b)
  {
    AllDigits(tail) && |tail| == k && Value(tail) + Low(b, k) == Low(a, k) + borrow * Pow10(k)
  }

  lemma SubtractColumn(a: string, b: string, tail: string, before: nat, k: nat, val: nat, borrow: nat)
    requires AllDigits(a) && AllDigits(b) && IsDifference(a, b, tail, before, k) && val < 10
    requires DigitAt(a, k) - DigitAt(b, k) - before == val - 10 * borrow
    ensures IsDifference(a, b, [DigitChar(val)] + tail, borrow, k + 1)
  {
    hide Value, Low, DigitAt, Pow10;
    ValuePrepend(DigitChar(val), tail);
    LowStep(a, k);
    LowStep(b, k);
    Pow10Step(k);
    SumColumn(-(before as int), DigitAt(a, k), -(DigitAt(b, k) as int), val, -(borrow as int), Pow10(k));
    Negated(before, DigitAt(b, k), borrow, Pow10(k));
  }

  lemma Negated(x: int, y: int, z: int, p: int)
    ensures (-x) * p == -(x * p) && (-y) * p == -(y * p) && (-z) * (10 * p) == -(z * (10 * p))
  {
  }

  lemma NothingSubtracted(a: string, b: string)
    requires AllDigits(a) && AllDigits(b)
    ensures IsDifference(a, b, "", 0, 0)
  {
    LowStep(a, 0);
    LowStep(b, 0);
  }

  /** Nothing is borrowed at the end when the first number is at least the second. */
  lemma AllSubtracted(a: string, b: string, tail: string, borrow: nat)
    requires AllDigits(a) && AllDigits(b) && IsDifference(a, b, tail, borrow, |a|) && |a| >= |b| && Value(a) >= Value(b)
    ensures AllDigits(tail) && Value(tail) == Value(a) - Value(b)
  {
    hide Value, Pow10;
    ValueBelow(tail);
    if borrow > 0 {
      AtLeastOnce(borrow, Pow10(|a|));
    }
  }

  method SubIntegerStrings(a: string, b: string) returns (out: string)
    requires b != "" && AllDigits(a) && AllDigits(b) && |a| >= |b| && Value(a) >= Value(b)
    ensures out == Show(Value(a) - Value(b))
  {
    hide IsDifference, Value, Show, DigitAt, Low, Pow10;
    var res := new char[|a|](_ => '0');
    var borrow: nat := 0;
    var i, j, idx := |a| - 1, |b| - 1, |a| - 1;
    NothingSubtracted(a, b);
    assert res[idx + 1..] == "";
    while idx >= 0
      invariant -1 <= idx < |a| && i == idx && borrow <= 1
      invariant j == if |b| - |a| + idx >= 0 then |b| - |a| + idx else -1
      invariant IsDifference(a, b, res[idx + 1..], borrow, |a| - 1 - idx)
    {
      ghost var tail, before, k := res[idx + 1..], borrow, |a| - 1 - idx;
      DigitRead(a, k);
      DigitRead(b, k);
      var valA: nat, valB: nat := 0, 0;
      if i >= 0 {
        valA := DigitValue(a[i]);
        i := i - 1;
      }
      if j >= 0 {
        valB := DigitValue(b[j]);
        j := j - 1;
      }
      assert valA == DigitAt(a, k) && valB == DigitAt(b, k);
      var val := valA - valB - borrow;
      if val < 0 {
        val := val + 10;
        borrow := 1;
      } else {
        borrow := 0;
      }
      SubtractColumn(a, b, tail, before, k, val, borrow);
      res[idx] := DigitChar(val);
      assert res[idx..] == [DigitChar(val)] + tail;
      idx := idx - 1;
    }
    assert res[0..] == res[..];
    AllSubtracted(a, b, res[..], borrow);
    out := RemoveLeadingZero(res[..]);
  }

  // ---------------------------------------------------------------- multiplying digit strings

  newtype u32 = x: int | 0 <= x < 0x1_0000_0000

  /** Up to this many digits in the shorter operand no column overflows. */
  const MAX_DIGITS: nat := 47_721_858

  /** The value of columns, lowest first; a column may hold more than a digit. */
  ghost function Columns(cs: seq<u32>): nat {
    if cs == [] then 0 else cs[0] as nat + 10 * Columns(cs[1..])
  }

  lemma {:induction false} ColumnsUpdate(cs: seq<u32>, k: nat, v: u32)
    requires k < |cs|
    ensures Columns(cs[k := v]) == Columns(cs) + (v as int - cs[k] as int) * Pow10(k)
  {
    if k == 0 {
      assert cs[0 := v][1..] == cs[1..];
    } else {
      ColumnsUpdate(cs[1..], k - 1, v);
      assert cs[k := v][1..] == cs[1..][k - 1 := v];
      var d: int := v as int - cs[k] as int;
      assert 10 * (d * Pow10(k - 1)) == d * Pow10(k);
    }
  }

  lemma {:induction false} ColumnsAppend(cs: seq<u32>, v: u32)
    ensures Columns(cs + [v]) == Columns(cs) + v as nat * Pow10(|cs|)
  {
    if cs == [] {
      assert [v][1..] == [];
    } else {
      ColumnsAppend(cs[1..], v);
      assert (cs + [v])[1..] == cs[1..] + [v];
      assert 10 * (v as nat * Pow10(|cs| - 1)) == v as nat * Pow10(|cs|);
    }
  }

  lemma {:induction false} ZeroColumns(n: nat)
    ensures Columns(seq(n, _ => 0)) == 0
  {
    if n > 0 {
      ZeroColumns(n - 1);
      assert seq(n, _ => 0 as u32)[1..] == seq(n - 1, _ => 0);
    }
  }

  /** `i` rows are added up, and `j` digits of the next one. */
  ghost predicate IsPartialProduct(a: string, b: string, cs: seq<u32>, i: nat, j: nat)
    requires AllDigits(a) && AllDigits(b)
  {
    && |cs| == |a| + |b|
    && Columns(cs) == Low(a, i) * Value(b) + DigitAt(a, i) * Pow10(i) * Low(b, j)
    && forall k {:trigger cs[k]} :: 0 <= k < |cs| ==> cs[k] as int <= 81 * i + if i <= k < i + j then 81 else 0
  }

  lemma Pow10Sum(i: nat, j: nat)
    ensures Pow10(i + j) == Pow10(i) * Pow10(j)
  {
    if j > 0 {
      Pow10Sum(i, j - 1);
      assert Pow10(i) * Pow10(j) == 10 * (Pow10(i) * Pow10(j - 1));
    }
  }

  lemma ProductOfDigits(x: nat, y: nat)
    requires x < 10 && y < 10
    ensures x * y <= 81
  {
    assert x * y <= 9 * y;
  }

  lemma MultiplyColumn(a: string, b: string, cs: seq<u32>, i: nat, j: nat, v: int)
    requires AllDigits(a) && AllDigits(b) && i < |a| <= MAX_DIGITS && j < |b| && IsPartialProduct(a, b, cs, i, j)
    requires v == cs[i + j] as int + DigitAt(a, i) * DigitAt(b, j)
    ensures 0 <= v < 0x1_0000_0000 && IsPartialProduct(a, b, cs[i + j := v as u32], i, j + 1)
  {
    hide Value, Low, DigitAt, Columns;
    var x, y := DigitAt(a, i), DigitAt(b, j);
    ProductOfDigits(x, y);
    ColumnsUpdate(cs, i + j, v as u32);
    Pow10Sum(i, j);
    LowStep(b, j);
    Spread(x, y, Pow10(i), Pow10(j), Low(b, j));
  }

  lemma Spread(x: int, y: int, p: int, q: int, low: int)
    ensures x * p * (low + y * q) == x * p * low + (x * y) * (p * q)
  {
    assert x * p * (low + y * q) == x * p * low + x * p * (y * q);
    assert x * p * (y * q) == (x * y) * (p * q);
  }

  lemma NextRow(a: string, b: string, cs: seq<u32>, i: nat)
    requires AllDigits(a) && AllDigits(b) && IsPartialProduct(a, b, cs, i, |b|)
    ensures IsPartialProduct(a, b, cs, i + 1, 0)
  {
    hide Value, DigitAt, Columns, Pow10;
    LowStep(a, i);
    LowStep(b, 0);
    Distribute(Low(a, i), DigitAt(a, i) * Pow10(i), Value(b));
  }

  lemma Distribute(x: int, y: int, z: int)
    ensures (x + y) * z == x * z + y * z
  {
  }

  lemma NothingMultiplied(a: string, b: string, cs: seq<u32>)
    requires AllDigits(a) && AllDigits(b) && |cs| == |a| + |b| && forall k :: 0 <= k < |cs| ==> cs[k] == 0
    ensures IsPartialProduct(a, b, cs, 0, 0)
  {
    LowStep(a, 0);
    LowStep(b, 0);
    ZeroColumns(|cs|);
    assert cs == seq(|cs|, _ => 0);
  }

  /** The columns below `n` hold digits, and the carry goes into column `n`. */
  ghost predicate IsCarried(product: nat, cs: seq<u32>, carry: u32, n: nat, rows: nat) {
    && n <= |cs| && Columns(cs) + carry as nat * Pow10(n) == product
    && (forall k {:trigger cs[k]} :: 0 <= k < |cs| ==> cs[k] as int <= if k < n then 9 else 81 * rows)
    && carry as int <= 9 * rows
  }

  lemma CarryColumn(product: nat, cs: seq<u32>, carry: u32, n: nat, rows: nat)
    requires IsCarried(product, cs, carry, n, rows) && n < |cs| && rows <= MAX_DIGITS
    ensures cs[n] as int + carry as int < 0x1_0000_0000
    ensures var total := cs[n] + carry; IsCarried(product, cs[n := total % 10], total / 10, n + 1, rows)
  {
    hide Columns, Pow10;
    var total := cs[n] + carry;
    ColumnsUpdate(cs, n, total % 10);
    Pow10Step(n);
    var p, before, after, next := Pow10(n), carry as int, (total % 10) as int, (total / 10) as int;
    Distribute(after - cs[n] as int, 10 * next, p);
    assert after - cs[n] as int + 10 * next == before;
  }

  /** Nothing is left to carry past the last column. */
  lemma NoFinalCarry(a: string, b: string, cs: seq<u32>, carry: u32, rows: nat)
    requires AllDigits(a) && AllDigits(b) && |cs| == |a| + |b| && IsCarried(Value(a) * Value(b), cs, carry, |cs|, rows)
    ensures carry == 0
  {
    hide Value, Columns, Pow10;
    ValueBelow(a);
    ValueBelow(b);
    Pow10Sum(|a|, |b|);
    ProductBelow(Value(a), Value(b), Pow10(|a|), Pow10(|b|));
    if carry != 0 {
      AtLeastOnce(carry as nat, Pow10(|cs|));
    }
  }

  lemma ProductBelow(x: nat, y: nat, p: nat, q: nat)
    requires x < p && y < q
    ensures x * y < p * q
  {
    assert x * y <= x * q;
    assert (x + 1) * q <= p * q;
  }

  /** The digits of the columns, highest first. */
  function Digits(cs: seq<u32>): (s: string)
    requires forall k :: 0 <= k < |cs| ==> cs[k] < 10
    ensures |s| == |cs| && forall k :: 0 <= k < |s| ==> s[k] == DigitChar(cs[|cs| - 1 - k] as nat)
  {
    seq(|cs|, k requires 0 <= k < |cs| => DigitChar(cs[|cs| - 1 - k] as nat))
  }

  lemma {:induction false} DigitsValue(cs: seq<u32>)
    requires forall k :: 0 <= k < |cs| ==> cs[k] < 10
    ensures AllDigits(Digits(cs)) && Value(Digits(cs)) == Columns(cs)
  {
    if cs != [] {
      DigitsValue(cs[1..]);
      assert Digits(cs)[..|cs| - 1] == Digits(cs[1..]);
    }
  }

  method MulIntegerStrings(a: string, b: string) returns (out: string)
    requires a != "" && b != "" && AllDigits(a) && AllDigits(b) && |a| <= MAX_DIGITS
    ensures out == Show(Value(a) * Value(b))
  {
    hide IsPartialProduct, IsCarried, Value, Show, Columns, Low, Pow10;
    var cols := MultiplyColumns(a, b);
    ghost var product := Value(a) * Value(b);
    var carry: u32 := 0;
    for n := 0 to cols.Length
      invariant IsCarried(product, cols[..], carry, n, |a|)
    {
      CarryColumn(product, cols[..], carry, n, |a|);
      var total := cols[n] + carry;
      cols[n] := total % 10;
      carry := total / 10;
    }
    var res := cols[..];
    NoFinalCarry(a, b, res, carry, |a|);
    CarriedDigits(product, res, carry, |a|);
    res := PushCarries(res, carry);
    while |res| > 1 && res[|res| - 1] == 0
      invariant |res| > 0 && Columns(res) == product && forall k :: 0 <= k < |res| ==> res[k] < 10
    {
      ColumnsAppend(res[..|res| - 1], 0);
      assert res == res[..|res| - 1] + [0];
      res := res[..|res| - 1];
    }
    out := Digits(res);
    DigitsValue(res);
    NumeralIsShown(out);
  }

  /** Appends the digits of what is left to carry. */
  method PushCarries(cols: seq<u32>, left: u32) returns (res: seq<u32>)
    requires cols != [] && forall k :: 0 <= k < |cols| ==> cols[k] < 10
    ensures res != [] && forall k :: 0 <= k < |res| ==> res[k] < 10
    ensures Columns(res) == Columns(cols) + left as nat * Pow10(|cols|)
  {
    hide Columns, Pow10;
    var carry := left;
    res := cols;
    while carry > 0
      invariant Columns(res) + carry as nat * Pow10(|res|) == Columns(cols) + left as nat * Pow10(|cols|)
      invariant |res| > 0 && forall k :: 0 <= k < |res| ==> res[k] < 10
      decreases carry
    {
      PushCarry(res, carry);
      res := res + [carry % 10];
      carry := carry / 10;
    }
  }

  lemma PushCarry(res: seq<u32>, carry: u32)
    ensures Columns(res + [carry % 10]) + (carry / 10) as nat * Pow10(|res| + 1) == Columns(res) + carry as nat * Pow10(|res|)
  {
    hide Columns, Pow10;
    ColumnsAppend(res, carry % 10);
    Pow10Step(|res|);
    var q, r := (carry / 10) as nat, (carry % 10) as nat;
    assert carry as nat == 10 * q + r;
    Distribute(10 * q, r, Pow10(|res|));
    assert q * (10 * Pow10(|res|)) == 10 * q * Pow10(|res|);
  }

  lemma CarriedDigits(product: nat, cs: seq<u32>, carry: u32, rows: nat)
    requires IsCarried(product, cs, carry, |cs|, rows)
    ensures Columns(cs) + carry as nat * Pow10(|cs|) == product && forall k :: 0 <= k < |cs| ==> cs[k] < 10
  {
  }

  /** Every pair of digits is multiplied into the column of its weight. */
  method MultiplyColumns(a: string, b: string) returns (cols: array<u32>)
    requires AllDigits(a) && AllDigits(b) && |a| <= MAX_DIGITS
    ensures fresh(cols) && cols.Length == |a| + |b| && IsCarried(Value(a) * Value(b), cols[..], 0, 0, |a|)
  {
    hide IsPartialProduct, Low, DigitAt, Value, Columns, Pow10;
    cols := new u32[|a| + |b|](_ => 0);
    NothingMultiplied(a, b, cols[..]);
    for i := 0 to |a|
      invariant IsPartialProduct(a, b, cols[..], i, 0)
    {
      DigitRead(a, i);
      var va := DigitValue(a[|a| - 1 - i]);
      for j := 0 to |b|
        invariant IsPartialProduct(a, b, cols[..], i, j)
      {
        DigitRead(b, j);
        var vb := DigitValue(b[|b| - 1 - j]);
        assert |cols[..]| == |a| + |b|;
        var v := cols[i + j] as int + va * vb;
        MultiplyColumn(a, b, cols[..], i, j, v);
        cols[i + j] := v as u32;
      }
      NextRow(a, b, cols[..], i);
    }
    AllMultiplied(a, b, cols[..]);
  }

  lemma AllMultiplied(a: string, b: string, cs: seq<u32>)
    requires AllDigits(a) && AllDigits(b) && IsPartialProduct(a, b, cs, |a|, 0)
    ensures |cs| == |a| + |b| && IsCarried(Value(a) * Value(b), cs, 0, 0, |a|)
  {
    hide Columns;
    LowStep(b, 0);
  }
}
