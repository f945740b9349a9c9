// The two decimal printers of the payload: one divides, the other doubles digit by digit
// because 64-bit division is not available on the 32-bit target.
module Printing {
  import opened Text
  import opened Machine
  import opened Numerals

  // ---- print_unsigned ------------------------------------------------------------------

  function Reversed(s: string): string {
    if s == "" then "" else [s[|s| - 1]] + Reversed(s[..|s| - 1])
  }

  lemma ReversedSnoc(s: string, c: char)
    ensures Reversed(s + [c]) == [c] + Reversed(s)
  {
    assert (s + [c])[..|s|] == s;
  }

  lemma {:induction false} DecimalFits(n: nat, k: nat)
    requires n < Pow10(k) && k > 0
    ensures |Decimal(n)| <= k
  {
    if n >= 10 {
      DecimalFits(n / 10, k - 1);
    }
  }

  lemma TwentyPlaces()
    ensures Pow10(10) == 10000000000 && Pow10(20) == 100000000000000000000
  {
    assert Pow10(10) == 10000000000;
    assert Pow10(20) == 10000000000 * 10000000000;
  }

  // The longest decimal of the width; the source reserves 3 * sizeof(unsigned long) + 1.
  lemma WidthDigits(n: nat, w: Width)
    requires n < Modulus(w)
    ensures |Decimal(n)| <= if w == 32 then 10 else 20
  {
    TwentyPlaces();
    DecimalFits(n, if w == 32 then 10 else 20);
  }

  method PrintUnsigned(k: Kernel, value: nat, w: Width)
    requires value < Modulus(w)
    modifies k`console
    ensures k.console == old(k.console) + Decimal(value)
  {
    var digits := new char[3 * (w / 8) + 1];
    var count := CollectDigits(digits, value, w);
    PrintBackwards(k, digits, count);
  }

  // The do-while loop: least significant digit first, within the reserved room.
  method CollectDigits(digits: array<char>, value: nat, w: Width) returns (count: nat)
    requires value < Modulus(w) && digits.Length == 3 * (w / 8) + 1
    modifies digits
    ensures count <= digits.Length && Reversed(digits[..count]) == Decimal(value)
  {
    var rest := value;
    count := 0;
    WidthDigits(value, w);
    ghost var text := "";
    while true
      invariant |text| == count && |Decimal(rest)| + count == |Decimal(value)| < digits.Length
      invariant forall i :: 0 <= i < count ==> digits[i] == text[i]
      invariant Decimal(value) == Decimal(rest) + Reversed(text)
      decreases rest
    {
      var c := DigitChar(rest % 10);
      digits[count] := c;
      count := count + 1;
      DigitTaken(rest, text);
      text := text + [c];
      rest := rest / 10;
      if rest == 0 {
        break;
      }
    }
    assert digits[..count] == text;
  }

  lemma DigitTaken(rest: nat, text: string)
    ensures var now := Reversed(text + [DigitChar(rest % 10)]);
            if rest / 10 == 0 then Decimal(rest) + Reversed(text) == now && |Decimal(rest)| == 1
            else Decimal(rest) + Reversed(text) == Decimal(rest / 10) + now
                 && |Decimal(rest)| == |Decimal(rest / 10)| + 1
  {
    ReversedSnoc(text, DigitChar(rest % 10));
  }

  method PrintBackwards(k: Kernel, digits: array<char>, n: nat)
    requires n <= digits.Length
    modifies k`console
    ensures k.console == old(k.console) + Reversed(digits[..n])
  {
    var count := n;
    while count > 0
      invariant 0 <= count <= n
      invariant k.console + Reversed(digits[..count]) == old(k.console) + Reversed(digits[..n])
    {
      count := count - 1;
      assert digits[..count + 1] == digits[..count] + [digits[count]];
      ReversedSnoc(digits[..count], digits[count]);
      k.Put([digits[count]]);
    }
  }

  // ---- print_u64 -------------------------------------------------------------------------

  ghost predicate AreDigits(d: seq<nat>) {
    forall i :: 0 <= i < |d| ==> d[i] < 10
  }

  // The number a row of digits denotes, most significant first.
  ghost function Number(d: seq<nat>): nat {
    if d == [] then 0 else 10 * Number(d[..|d| - 1]) + d[|d| - 1]
  }

  lemma ShiftPlace(digit: nat, place: nat)
    ensures 10 * (digit * place) == digit * (10 * place)
  {
  }

  lemma {:induction false} NumberHead(d: seq<nat>)
    requires d != []
    ensures Number(d) == d[0] * Pow10(|d| - 1) + Number(d[1..])
  {
    var init := d[..|d| - 1];
    if init == [] {
      assert Number(init) == 0 && Number(d[1..]) == 0;
    } else {
      NumberHead(init);
      assert d[1..][..|d| - 2] == init[1..];
      ShiftPlace(d[0], Pow10(|d| - 2));
    }
  }

  lemma {:induction false} NumberBelow(d: seq<nat>)
    requires AreDigits(d)
    ensures Number(d) < Pow10(|d|)
  {
    if d != [] {
      NumberBelow(d[..|d| - 1]);
    }
  }

  lemma {:induction false} NumberZeros(n: nat)
    ensures Number(seq(n, _ => 0)) == 0
  {
    if n > 0 {
      NumberZeros(n - 1);
      assert seq(n, _ => 0)[..n - 1] == seq(n - 1, _ => 0);
    }
  }

  function Chars(d: seq<nat>): (s: string)
    requires forall i :: 0 <= i < |d| ==> d[i] < 10
    ensures |s| == |d| && forall i :: 0 <= i < |d| ==> s[i] == DigitChar(d[i])
  {
    seq(|d|, i requires 0 <= i < |d| => DigitChar(d[i]))
  }

  // Leading zeros dropped, but never the last digit.
  function Stripped(d: seq<nat>): seq<nat> {
    if |d| > 1 && d[0] == 0 then Stripped(d[1..]) else d
  }

  lemma {:induction false} ValueOfChars(d: seq<nat>)
    requires AreDigits(d)
    ensures Digits(Chars(d)) && Value(Chars(d)) == Number(d)
  {
    if d != [] {
      ValueOfChars(d[..|d| - 1]);
      assert Chars(d)[..|d| - 1] == Chars(d[..|d| - 1]);
    }
  }

  // A row of digits without its leading zeros is the canonical decimal of its number.
  lemma {:induction false} StrippedIsDecimal(d: seq<nat>)
    requires AreDigits(d) && d != []
    ensures AreDigits(Stripped(d)) && Chars(Stripped(d)) == Decimal(Number(d))
  {
    if |d| > 1 && d[0] == 0 {
      NumberHead(d);
      StrippedIsDecimal(d[1..]);
    } else {
      ValueOfChars(d);
      CanonicalIsDecimal(Chars(d));
    }
  }

  function Pow2(k: nat): (p: nat)
    ensures p > 0
  {
    if k == 0 then 1 else 2 * Pow2(k - 1)
  }

  lemma ShiftStep(value: nat, bit: nat)
    ensures value / Pow2(bit) == 2 * (value / Pow2(bit + 1)) + value / Pow2(bit) % 2
  {
    var p := Pow2(bit);
    assert Pow2(bit + 1) == 2 * p;
    hide Pow2;
    var q := value / p;
    Halves(value, p, q, q / 2, q % 2);
  }

  lemma Halves(value: nat, p: nat, q: nat, h: nat, b: nat)
    requires p > 0 && q == value / p && q == 2 * h + b && b < 2
    ensures value / (2 * p) == h
  {
    assert value == q * p + value % p;
    Distribute(2, h, b, p);
    assert h * (2 * p) == 2 * (h * p) && b * p <= p;
    Quotient(value, 2 * p, h, b * p + value % p);
  }

  lemma {:induction false} Pow2Add(a: nat, b: nat)
    ensures Pow2(a + b) == Pow2(a) * Pow2(b)
  {
    if a > 0 {
      Pow2Add(a - 1, b);
    }
  }

  // One place of the doubling step: digit d, carry in c, place value p.
  lemma DoublePlace(o: nat, d: nat, carry: nat, next: nat, p: nat, oldTail: nat, newTail: nat, bit: nat)
    requires d + 10 * next == 2 * o + carry
    requires 2 * oldTail + bit == newTail + carry * p
    ensures 2 * (o * p + oldTail) + bit == (d * p + newTail) + next * (10 * p)
  {
    assert (d + 10 * next) * p == (2 * o + carry) * p;
  }

  method PrintU64(k: Kernel, value: nat)
    requires value < 0x1_0000_0000_0000_0000
    modifies k`console
    ensures k.console == old(k.console) + Decimal(value)
  {
    var digits := new nat[20](_ => 0);
    FillDigits(digits, value);
    StrippedIsDecimal(digits[..]);
    PrintDigits(k, digits);
  }

  // After bits 63 down to b the row denotes value div 2^b, for every b.
  method FillDigits(digits: array<nat>, value: nat)
    requires digits.Length == 20 && value < 0x1_0000_0000_0000_0000
    requires forall i :: 0 <= i < 20 ==> digits[i] == 0
    modifies digits
    ensures AreDigits(digits[..]) && Number(digits[..]) == value
  {
    assert digits[..] == seq(20, _ => 0);
    NumberZeros(20);
    Pow2Of64();
    Quotient(value, Pow2(64), 0, value);
    for bit := 64 downto 0
      invariant AreDigits(digits[..])
      invariant Number(digits[..]) == value / Pow2(bit)
    {
      ShiftStep(value, bit);
      ShiftSmaller(value, bit);
      DoubleInPlace(digits, value / Pow2(bit) % 2, value / Pow2(bit));
    }
    assert value / Pow2(0) == value;
  }

  lemma Pow2Squared(k: nat, p: nat)
    requires Pow2(k) == p
    ensures Pow2(2 * k) == p * p
  {
    Pow2Add(k, k);
  }

  lemma Pow2Of64()
    ensures Pow2(64) == 0x1_0000_0000_0000_0000
  {
    Pow2Squared(1, 2);
    Pow2Squared(2, 4);
    Pow2Squared(4, 0x10);
    Pow2Squared(8, 0x100);
    Pow2Squared(16, 0x1_0000);
    Pow2Squared(32, 0x1_0000_0000);
  }

  // The moduli are those of 32 and 64 bits.
  lemma ModulusIsPower(w: Width)
    ensures Modulus(w) == Pow2(w)
  {
    Pow2Of64();
    if w == 32 {
      Pow2Squared(4, 0x10);
      Pow2Squared(8, 0x100);
      Pow2Squared(16, 0x1_0000);
    }
  }

  lemma {:induction false} ShiftSmaller(value: nat, bit: nat)
    ensures value / Pow2(bit) <= value
  {
    if bit > 0 {
      ShiftSmaller(value, bit - 1);
      ShiftStep(value, bit - 1);
    } else {
      assert Pow2(0) == 1;
    }
  }

  // The inner loop of print_u64: double the row and add the next bit. No carry leaves the
  // first digit because the result is below 2^64, which has 20 digits.
  method DoubleInPlace(digits: array<nat>, bit: nat, ghost result: nat)
    requires digits.Length == 20 && AreDigits(digits[..]) && bit < 2
    requires result == 2 * Number(digits[..]) + bit && result < 0x1_0000_0000_0000_0000
    modifies digits
    ensures AreDigits(digits[..]) && Number(digits[..]) == result
  {
    ghost var was := digits[..];
    var carry := bit;
    for index := 20 downto 0
      invariant carry < 2 && AreDigits(digits[..])
      invariant forall i :: 0 <= i < index ==> digits[i] == was[i]
      invariant DoubledFrom(was, digits[..], index, bit, carry)
    {
      ghost var row := digits[..];
      var digit := digits[index] * 2 + carry;
      var next := 0;
      if digit >= 10 {
        digit := digit - 10;
        next := 1;
      }
      digits[index] := digit;
      assert digits[..] == row[index := digit];
      DoubleStep(was, row, index, bit, carry, digit, next);
      carry := next;
    }
    DoubleDone(was, digits[..], bit, carry);
  }

  lemma DoubleDone(was: seq<nat>, row: seq<nat>, bit: nat, carry: nat)
    requires |row| == 20 && DoubledFrom(was, row, 0, bit, carry)
    requires 2 * Number(was) + bit < 0x1_0000_0000_0000_0000
    ensures carry == 0 && Number(row) == 2 * Number(was) + bit
  {
    assert was[0..] == was && row[0..] == row;
    TwentyPlaces();
    if carry > 0 {
      Times(1, carry, Pow10(20));
      assert false;
    }
  }

  // Doubling is done for the places from index on, with carry still to be added before them.
  ghost predicate DoubledFrom(was: seq<nat>, row: seq<nat>, index: nat, bit: nat, carry: nat) {
    && |was| == |row| && index <= |row|
    && 2 * Number(was[index..]) + bit == Number(row[index..]) + carry * Pow10(|row| - index)
  }

  lemma DoubleStep(was: seq<nat>, row: seq<nat>, index: nat, bit: nat, carry: nat, digit: nat, next: nat)
    requires index < |row| && DoubledFrom(was, row, index + 1, bit, carry)
    requires digit + 10 * next == 2 * was[index] + carry
    ensures DoubledFrom(was, row[index := digit], index, bit, next)
  {
    var row' := row[index := digit];
    assert was[index..][1..] == was[index + 1..];
    assert row'[index..][1..] == row[index + 1..];
    NumberHead(was[index..]);
    NumberHead(row'[index..]);
    DoublePlace(was[index], digit, carry, next, Pow10(|row| - index - 1),
                Number(was[index + 1..]), Number(row[index + 1..]), bit);
  }

  lemma PrintStep(d: seq<nat>, index: nat, before: string)
    requires index < |d| && AreDigits(d)
    ensures Stripped(d[index..]) ==
            if |d| - index > 1 && d[index] == 0 then Stripped(d[index + 1..]) else d[index..]
    ensures before + [DigitChar(d[index])] + Chars(d[index + 1..]) == before + Chars(d[index..])
  {
    assert d[index..][1..] == d[index + 1..];
    assert Chars(d[index..]) == [DigitChar(d[index])] + Chars(d[index + 1..]);
  }

  // The last loop of print_u64.
  method PrintDigits(k: Kernel, digits: array<nat>)
    requires digits.Length == 20 && AreDigits(digits[..])
    modifies k`console
    ensures AreDigits(Stripped(digits[..]))
    ensures k.console == old(k.console) + Chars(Stripped(digits[..]))
  {
    StrippedIsDecimal(digits[..]);
    var started := false;
    ghost var d := digits[..];
    ghost var goal := old(k.console) + Chars(Stripped(d));
    assert d[0..] == d;
    for index := 0 to 20
      invariant started || index < 20
      invariant !started ==> k.console == old(k.console) && Stripped(d[index..]) == Stripped(d)
      invariant started ==> k.console + Chars(d[index..]) == goal
    {
      PrintStep(d, index, k.console);
      if !started && digits[index] == 0 && index != 19 {
        continue;
      }
      started := true;
      k.Put([DigitChar(digits[index])]);
    }
    assert d[20..] == [] && Chars([]) == "";
  }
}
