/** The card-number check (validate/directive.go), against the checksum of ISO/IEC 7812-1, Annex B. */
module Luhn {
  import opened Bits

  const ZERO := 48
  const SPACE := 32
  const DASH := 45

  /** The number without spaces and dashes. */
  function Strip(s: seq<Byte>): (t: seq<Byte>)
    ensures |t| <= |s|
  {
    if s == [] then []
    else (if s[0] == SPACE || s[0] == DASH then [] else [s[0]]) + Strip(s[1..])
  }

  /** Byte subtraction wraps around. */
  function Digit(c: Byte): (d: int) {
    if c >= ZERO then c - ZERO else c - ZERO + 256
  }

  predicate IsDigit(c: Byte) {
    ZERO <= c <= ZERO + 9
  }

  lemma DigitIff(c: Byte)
    ensures Digit(c) <= 9 <==> IsDigit(c)
    ensures IsDigit(c) ==> Digit(c) == c - ZERO
  {
  }

  /** A digit's contribution: itself, or the digit sum of its double. */
  function Weigh(d: int, double: bool): (w: int) {
    if !double then d else d * 2 / 10 + d * 2 % 10
  }

  lemma WeighIs(d: int, double: bool)
    requires 0 <= d <= 9
    ensures Weigh(d, double) == (if !double then d else if d < 5 then 2 * d else 2 * d - 9)
    ensures 0 <= Weigh(d, double) <= 9
  {
    if d < 5 {
      assert d * 2 / 10 == 0;
    } else {
      assert d * 2 / 10 == 1;
    }
  }

  predicate Odd(n: nat) {
    n % 2 == 1
  }

  /** What a character contributes with so many digits to its right. */
  type Weight = (Byte, nat) -> int

  function Weighing(): (w: Weight) {
    (c: Byte, right: nat) => Weigh(Digit(c), Odd(right))
  }

  /**
   The weighted sum of digits that have `right` more digits to their right; every second one from the right is
   doubled.
   */
  function SumOf(w: Weight, s: seq<Byte>, right: nat): (n: int) {
    if s == [] then 0 else w(s[0], |s| - 1 + right) + SumOf(w, s[1..], right)
  }

  function Sum(s: seq<Byte>, right: nat): (n: int) {
    SumOf(Weighing(), s, right)
  }

  predicate AllDigits(s: seq<Byte>) {
    forall c :: c in s ==> IsDigit(c)
  }

  /** The numbers accepted. */
  predicate Accepted(number: seq<Byte>) {
    var s := Strip(number);
    13 <= |s| <= 19 && AllDigits(s) && Sum(s, 0) % 10 == 0
  }

  method LuhnCheck(number: seq<Byte>) returns (ok: bool)
    ensures ok == Accepted(number)
  {
    var cleaned := Strip(number);
    if |cleaned| < 13 || |cleaned| > 19 {
      return false;
    }
    var sum, alt := 0, false;
    var i := |cleaned| - 1;
    while i >= 0
      invariant -1 <= i < |cleaned|
      invariant alt == Odd(|cleaned| - 1 - i)
      invariant sum == Sum(cleaned[i + 1..], 0) && AllDigits(cleaned[i + 1..])
    {
      var n := Digit(cleaned[i]);
      DigitIff(cleaned[i]);
      if n < 0 || n > 9 {
        assert cleaned[i] in cleaned;
        return false;
      }
      assert cleaned[i..] == [cleaned[i]] + cleaned[i + 1..];
      WeighIs(n, alt);
      if alt {
        n := n * 2;
        if n > 9 {
          n := n - 9;
        }
      }
      sum := sum + n;
      alt := !alt;
      i := i - 1;
    }
    assert cleaned[0..] == cleaned;
    return sum % 10 == 0;
  }

  // ---------------------------------------------------------------- what it detects

  lemma {:induction false} StripAppend(a: seq<Byte>, b: seq<Byte>)
    ensures Strip(a + b) == Strip(a) + Strip(b)
    decreases |a|
  {
    if a == [] {
      assert a + b == b;
    } else {
      assert (a + b)[1..] == a[1..] + b;
      StripAppend(a[1..], b);
    }
  }

  lemma {:induction false} SumAppend(w: Weight, a: seq<Byte>, b: seq<Byte>, right: nat)
    ensures SumOf(w, a + b, right) == SumOf(w, a, |b| + right) + SumOf(w, b, right)
    decreases |a|
  {
    if a == [] {
      assert a + b == b;
    } else {
      assert (a + b)[1..] == a[1..] + b;
      SumAppend(w, a[1..], b, right);
    }
  }

  lemma SumSnoc(w: Weight, a: seq<Byte>, c: Byte, right: nat)
    ensures SumOf(w, a + [c], right) == SumOf(w, a, 1 + right) + w(c, right)
  {
    SumAppend(w, a, [c], right);
    assert [c][1..] == [];
  }

  /** One digit among others. */
  lemma SumAround(w: Weight, a: seq<Byte>, c: Byte, b: seq<Byte>, right: nat)
    ensures SumOf(w, a + [c] + b, right) == SumOf(w, a, 1 + |b| + right) + w(c, |b| + right) + SumOf(w, b, right)
  {
    assert SumOf(w, a + [c] + b, right) == SumOf(w, a + [c], |b| + right) + SumOf(w, b, right) by {
      SumAppend(w, a + [c], b, right);
    }
    SumSnoc(w, a, c, |b| + right);
  }

  lemma StripDigit(a: seq<Byte>, c: Byte, b: seq<Byte>)
    requires IsDigit(c)
    ensures Strip(a + [c] + b) == Strip(a) + [c] + Strip(b)
  {
    StripAppend(a + [c], b);
    StripAppend(a, [c]);
    assert [c][1..] == [];
  }

  /** Spaces and dashes do not count, wherever they stand. */
  lemma SeparatorsAreIgnored(a: seq<Byte>, c: Byte, b: seq<Byte>)
    requires c == 32 || c == 45
    ensures Accepted(a + [c] + b) <==> Accepted(a + b)
  {
    StripAppend(a + [c], b);
    StripAppend(a, [c]);
    StripAppend(a, b);
    assert Strip([c]) == [] by { assert [c][1..] == []; }
    assert Strip(a + [c] + b) == Strip(a) + [] + Strip(b) == Strip(a + b);
  }

  /** Any other character that is no digit is refused, wherever it stands. */
  lemma OthersAreRefused(a: seq<Byte>, c: Byte, b: seq<Byte>)
    requires c != 32 && c != 45 && !(48 <= c <= 57)
    ensures !Accepted(a + [c] + b)
  {
    StripAppend(a + [c], b);
    StripAppend(a, [c]);
    assert Strip([c]) == [c] by { assert [c][1..] == []; }
    var s := Strip(a + [c] + b);
    assert s == Strip(a) + [c] + Strip(b) && s[|Strip(a)|] == c;
    assert c in s;
  }

  /**
   The sum of digits, two at a time from the right: the last digit counts as it is, the one before it doubled,
   less nine if that makes two digits. With the sums of no digit and of one, this says what every number sums to.
   */
  lemma PairsFromTheRight(a: seq<Byte>, c: Byte, d: Byte)
    requires AllDigits(a) && IsDigit(c) && IsDigit(d)
    ensures Sum([], 0) == 0 && Sum([d], 0) == d - 48
    ensures Sum(a + [c, d], 0) == Sum(a, 0) + (if c < 53 then 2 * (c - 48) else 2 * (c - 48) - 9) + (d - 48)
  {
    SumAppend(Weighing(), a, [c, d], 0);
    TwoMore(a, 0);
    LastDigits(c, d);
  }

  lemma LastDigits(c: Byte, d: Byte)
    requires IsDigit(c) && IsDigit(d)
    ensures Sum([d], 0) == d - 48
    ensures Sum([c, d], 0) == (if c < 53 then 2 * (c - 48) else 2 * (c - 48) - 9) + (d - 48)
  {
    SumSnoc(Weighing(), [], d, 0);
    SumSnoc(Weighing(), [c], d, 0);
    SumSnoc(Weighing(), [], c, 1);
    assert [] + [d] == [d] && [] + [c] == [c] && [c] + [d] == [c, d];
    DigitIff(c);
    DigitIff(d);
    WeighIs(Digit(c), true);
    WeighIs(Digit(d), false);
    assert Weighing()(c, 1) == Weigh(Digit(c), true) && Weighing()(d, 0) == Weigh(Digit(d), false);
  }

  /** Two more digits to the right leave every digit's weight as it was. */
  lemma {:induction false} TwoMore(s: seq<Byte>, right: nat)
    ensures SumOf(Weighing(), s, 2 + right) == SumOf(Weighing(), s, right)
    decreases |s|
  {
    if s != [] { TwoMore(s[1..], right); }
  }

  function Zeros(n: nat): (s: seq<Byte>) {
    seq(n, i => 48)
  }

  /** Thirteen to nineteen digits, and no other number of them. */
  lemma LengthsAre(s: seq<Byte>, n: nat)
    ensures Accepted(s) ==> 13 <= |Strip(s)| <= 19
    ensures Accepted(Zeros(n)) <==> 13 <= n <= 19
  {
    DigitsStay(Zeros(n));
    ZerosSum(n);
  }

  lemma {:induction false} ZerosSum(n: nat)
    ensures Sum(Zeros(n), 0) == 0
    decreases n
  {
    if n >= 2 {
      assert Zeros(n) == Zeros(n - 2) + [48, 48];
      ZerosSum(n - 2);
      PairsFromTheRight(Zeros(n - 2), 48, 48);
    } else {
      PairsFromTheRight([], 48, 48);
      assert n == 1 ==> Zeros(n) == [48];
    }
  }

  /** Doubling and summing digits moves every digit to a place of its own. */
  lemma WeighInjective(c: int, d: int, double: bool)
    requires 0 <= c <= 9 && 0 <= d <= 9
    ensures Weigh(c, double) == Weigh(d, double) ==> c == d
  {
    WeighIs(c, double);
    WeighIs(d, double);
  }

  lemma SameRest(rest: int, x: int, y: int)
    requires 0 <= x <= 18 && 0 <= y <= 18 && (rest + x) % 10 == 0
    ensures (rest + y) % 10 == 0 <==> x == y || x == y + 10 || y == x + 10
  {
    var q := (rest + x) / 10;
    assert rest + y == 10 * q + (y - x);
  }

  /** Changing one digit of an accepted number always gives a rejected one. */
  lemma ChangeDetected(a: seq<Byte>, c: Byte, d: Byte, b: seq<Byte>)
    requires IsDigit(c) && IsDigit(d) && c != d && Accepted(a + [c] + b)
    ensures !Accepted(a + [d] + b)
  {
    var l, r := Strip(a), Strip(b);
    StripDigit(a, c, b);
    StripDigit(a, d, b);
    var rest := TotalAround(l, r);
    DigitIff(c);
    DigitIff(d);
    WeighInjective(Digit(c), Digit(d), Odd(|r|));
    WeighIs(Digit(c), Odd(|r|));
    WeighIs(Digit(d), Odd(|r|));
    SameRest(rest, Weigh(Digit(c), Odd(|r|)), Weigh(Digit(d), Odd(|r|)));
  }

  lemma SwapSum(c: int, d: int, double: bool)
    requires 0 <= c <= 9 && 0 <= d <= 9
    ensures var x, y := Weigh(c, !double) + Weigh(d, double), Weigh(d, !double) + Weigh(c, double);
      && 0 <= x <= 18 && 0 <= y <= 18
      && (x == y || x == y + 10 || y == x + 10 <==> c == d || (c == 0 && d == 9) || (c == 9 && d == 0))
  {
    WeighIs(c, double);
    WeighIs(d, double);
    WeighIs(c, !double);
    WeighIs(d, !double);
  }

  lemma SumAroundTwo(w: Weight, a: seq<Byte>, c: Byte, d: Byte, b: seq<Byte>, right: nat)
    ensures SumOf(w, a + [c, d] + b, right)
         == SumOf(w, a, 2 + |b| + right) + w(c, 1 + |b| + right) + w(d, |b| + right) + SumOf(w, b, right)
  {
    var ac := a + [c];
    SumAround(w, ac, d, b, right);
    SumSnoc(w, a, c, 1 + |b| + right);
    assert ac + [d] + b == a + [c, d] + b;
  }

  /** The sum, split into the digits looked at and the rest. */
  lemma TotalAround(a: seq<Byte>, b: seq<Byte>) returns (rest: int)
    ensures forall x :: Sum(a + [x] + b, 0) == rest + Weigh(Digit(x), Odd(|b|))
  {
    rest := SumOf(Weighing(), a, 1 + |b|) + Sum(b, 0);
    forall x ensures Sum(a + [x] + b, 0) == rest + Weigh(Digit(x), Odd(|b|)) {
      SumAround(Weighing(), a, x, b, 0);
    }
  }

  lemma TotalAroundTwo(a: seq<Byte>, b: seq<Byte>) returns (rest: int)
    ensures forall x, y :: Sum(a + [x, y] + b, 0) == rest + Weigh(Digit(x), !Odd(|b|)) + Weigh(Digit(y), Odd(|b|))
  {
    rest := SumOf(Weighing(), a, 2 + |b|) + Sum(b, 0);
    OddNext(|b|);
    forall x, y ensures Sum(a + [x, y] + b, 0) == rest + Weigh(Digit(x), !Odd(|b|)) + Weigh(Digit(y), Odd(|b|)) {
      SumAroundTwo(Weighing(), a, x, y, b, 0);
    }
  }

  lemma OddNext(n: nat)
    ensures Odd(n + 1) == !Odd(n)
  {
  }

  /** Two digits that stand together once separators are gone. */
  lemma StripTwo(a: seq<Byte>, c: Byte, m: seq<Byte>, d: Byte, b: seq<Byte>)
    requires IsDigit(c) && IsDigit(d) && Strip(m) == []
    ensures Strip(a + [c] + m + [d] + b) == Strip(a) + [c, d] + Strip(b)
  {
    StripDigit(a + [c] + m, d, b);
    StripDigit(a, c, m);
    assert Strip(a) + [c] + [] + [d] + Strip(b) == Strip(a) + [c, d] + Strip(b);
  }

  /** Swapping neighbouring digits of an accepted number is detected, except for equal digits and for 0 and 9. */
  lemma SwapDetectedIff(a: seq<Byte>, c: Byte, m: seq<Byte>, d: Byte, b: seq<Byte>)
    requires IsDigit(c) && IsDigit(d) && Strip(m) == [] && Accepted(a + [c] + m + [d] + b)
    ensures Accepted(a + [d] + m + [c] + b) <==>
            c == d || (c == ZERO && d == ZERO + 9) || (c == ZERO + 9 && d == ZERO)
  {
    StripTwo(a, c, m, d, b);
    StripTwo(a, d, m, c, b);
    SwapSums(Strip(a), c, d, Strip(b));
    SwapDigits(Strip(a), c, d, Strip(b));
  }

  lemma SwapDigits(l: seq<Byte>, c: Byte, d: Byte, r: seq<Byte>)
    requires AllDigits(l + [c, d] + r)
    ensures AllDigits(l + [d, c] + r)
  {
    forall x | x in l + [d, c] + r ensures x in l + [c, d] + r {
    }
  }

  lemma SwapSums(l: seq<Byte>, c: Byte, d: Byte, r: seq<Byte>)
    requires IsDigit(c) && IsDigit(d) && Sum(l + [c, d] + r, 0) % 10 == 0
    ensures Sum(l + [d, c] + r, 0) % 10 == 0 <==> c == d || (c == ZERO && d == ZERO + 9) || (c == ZERO + 9 && d == ZERO)
  {
    var rest := TotalAroundTwo(l, r);
    DigitIff(c);
    DigitIff(d);
    SwapSum(Digit(c), Digit(d), Odd(|r|));
    SameRest(rest, Weigh(Digit(c), !Odd(|r|)) + Weigh(Digit(d), Odd(|r|)),
             Weigh(Digit(d), !Odd(|r|)) + Weigh(Digit(c), Odd(|r|)));
  }

  function CheckDigit(payload: seq<Byte>): (c: Byte)
    ensures IsDigit(c)
  {
    ZERO + (10 - Sum(payload, 1) % 10) % 10
  }

  /** Every payload of 12 to 18 digits has exactly one check digit. */
  lemma CheckDigitUnique(payload: seq<Byte>, c: Byte)
    requires 12 <= |payload| <= 18 && AllDigits(payload) && IsDigit(c)
    ensures Accepted(payload + [c]) <==> c == CheckDigit(payload)
  {
    DigitsStay(payload);
    StripDigit(payload, c, []);
    assert payload + [c] + [] == payload + [c];
    SumSnoc(Weighing(), payload, c, 0);
    DigitIff(c);
    Complement(Sum(payload, 1), Digit(c));
  }

  lemma Complement(rest: int, d: int)
    requires 0 <= d <= 9
    ensures (rest + d) % 10 == 0 <==> d == (10 - rest % 10) % 10
  {
  }

  lemma {:induction false} DigitsStay(s: seq<Byte>)
    requires AllDigits(s)
    ensures Strip(s) == s
  {
    if s != [] {
      assert s[0] in s && s == [s[0]] + s[1..];
      DigitsStay(s[1..]);
    }
  }
}
