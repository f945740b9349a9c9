// Decimal text: print_unsigned, print_u64 and parse_unsigned, and the arithmetic modulo the
// width of unsigned long that the parsers share.
module Numerals {
  import opened Text
  import opened Machine

  predicate IsDigit(c: char) { '0' <= c <= '9' }

  ghost predicate Digits(s: string) {
    forall i :: 0 <= i < |s| ==> IsDigit(s[i])
  }

  function DigitOf(c: char): (d: nat)
    requires IsDigit(c)
    ensures d < 10 && "0123456789"[d] == c
  {
    c as int - '0' as int
  }

  function DigitChar(d: nat): (c: char)
    requires d < 10
    ensures IsDigit(c) && DigitOf(c) == d && c == "0123456789"[d]
  {
    ('0' as int + d) as char
  }

  // The number a digit string denotes, and the canonical digit string of a number.
  ghost function Value(s: string): nat
    requires Digits(s)
  {
    if s == "" then 0 else 10 * Value(s[..|s| - 1]) + DigitOf(s[|s| - 1])
  }

  function Decimal(n: nat): string {
    if n < 10 then [DigitChar(n)] else Decimal(n / 10) + [DigitChar(n % 10)]
  }

  ghost predicate Canonical(s: string) {
    Digits(s) && s != "" && (s[0] == '0' ==> |s| == 1)
  }

  lemma {:induction false} DecimalIsCanonical(n: nat)
    ensures Canonical(Decimal(n)) && Value(Decimal(n)) == n
    ensures Decimal(n)[0] == '0' ==> n == 0
  {
    if n >= 10 {
      DecimalIsCanonical(n / 10);
      assert Decimal(n)[..|Decimal(n)| - 1] == Decimal(n / 10);
    }
  }

  lemma {:induction false} PositiveValue(s: string)
    requires Digits(s) && s != "" && s[0] != '0'
    ensures Value(s) > 0
  {
    if |s| > 1 {
      PositiveValue(s[..|s| - 1]);
    }
  }

  lemma OneMoreDigit(n: nat, d: nat)
    requires n > 0 && d < 10
    ensures Decimal(10 * n + d) == Decimal(n) + [DigitChar(d)]
  {
  }

  // Decimal(n) is the only canonical text for n.
  lemma {:induction false} CanonicalIsDecimal(s: string)
    requires Canonical(s)
    ensures s == Decimal(Value(s))
  {
    var init := s[..|s| - 1];
    if init == "" {
      assert Value(init) == 0;
    } else {
      PositiveValue(init);
      CanonicalIsDecimal(init);
      OneMoreDigit(Value(init), DigitOf(s[|s| - 1]));
      assert DigitChar(DigitOf(s[|s| - 1])) == s[|s| - 1];
    }
  }

  lemma {:induction false} PrefixValue(s: string, k: nat)
    requires Digits(s) && k <= |s|
    ensures Value(s[..k]) <= Value(s)
  {
    if k < |s| {
      var init := s[..|s| - 1];
      PrefixValue(init, k);
      assert init[..k] == s[..k];
    } else {
      assert s[..k] == s;
    }
  }

  // ---- The width of unsigned long ------------------------------------------------------

  type Width = w: nat | w == 32 || w == 64 witness 32

  function Modulus(w: Width): nat {
    if w == 32 then 0x1_0000_0000 else 0x1_0000_0000_0000_0000
  }

  ghost function Residue(s: string, w: Width): nat
    requires Digits(s)
  {
    Value(s) % Modulus(w)
  }

  // What the guard `next < parsed` lets through: the running value never drops.
  ghost predicate Climbs(s: string, w: Width)
    requires Digits(s)
  {
    forall k :: 0 < k <= |s| ==> Residue(s[..k - 1], w) <= Residue(s[..k], w)
  }

  lemma ResidueStep(s: string, c: char, w: Width)
    requires Digits(s) && IsDigit(c)
    ensures Residue(s + [c], w) == (Residue(s, w) * 10 + DigitOf(c)) % Modulus(w)
  {
    assert (s + [c])[..|s|] == s;
    RemainderStep(Value(s), DigitOf(c), Modulus(w));
  }

  lemma RemainderStep(v: nat, d: nat, m: nat)
    requires m > 0
    ensures (10 * v + d) % m == (v % m * 10 + d) % m
  {
    var q, y := v / m, v % m * 10 + d;
    assert v == q * m + v % m;
    assert y == y / m * m + y % m;
    Distribute(10, q, y / m, m);
    Quotient(10 * v + d, m, 10 * q + y / m, y % m);
  }

  lemma Distribute(k: nat, q: nat, e: nat, m: nat)
    ensures (k * q + e) * m == k * (q * m) + e * m
  {
  }

  lemma Times(x: nat, y: nat, d: nat)
    requires x <= y
    ensures x * d <= y * d
  {
  }

  // Division with remainder has one answer.
  lemma Quotient(x: nat, d: nat, q: nat, r: nat)
    requires d > 0 && x == q * d + r && r < d
    ensures x / d == q && x % d == r
  {
    var e := x / d;
    assert x == e * d + x % d;
    if e < q {
      Times(e + 1, q, d);
    } else if e > q {
      Times(q + 1, e, d);
    }
  }

  lemma ClimbsStep(s: string, c: char, w: Width)
    requires Digits(s) && IsDigit(c)
    ensures Climbs(s + [c], w) <==> Climbs(s, w) && Residue(s, w) <= Residue(s + [c], w)
  {
    var t := s + [c];
    assert t[..|s|] == s && t[..|t|] == t && t[..|t| - 1] == s;
    assert forall k :: 0 <= k <= |s| ==> t[..k] == s[..k];
    if Climbs(t, w) {
      forall k | 0 < k <= |s| ensures Residue(s[..k - 1], w) <= Residue(s[..k], w) {
        assert t[..k] == s[..k] && t[..k - 1] == s[..k - 1];
      }
      assert Residue(t[..|t| - 1], w) <= Residue(t[..|t|], w);
    }
  }

  lemma FittingResidue(s: string, w: Width)
    requires Digits(s) && Value(s) < Modulus(w)
    ensures Residue(s, w) == Value(s)
  {
    if w == 32 {
    } else {
    }
  }

  // A text whose number fits is never turned away.
  lemma {:induction false} FittingClimbs(s: string, w: Width)
    requires Digits(s) && Value(s) < Modulus(w)
    ensures Climbs(s, w) && Residue(s, w) == Value(s)
  {
    FittingResidue(s, w);
    if s != "" {
      var init, c := s[..|s| - 1], s[|s| - 1];
      assert s == init + [c];
      FittingClimbs(init, w);
      ClimbsStep(init, c, w);
    }
  }

  // One more digit of s, as both parsers take it.
  lemma DigitTaken(s: string, i: nat, w: Width)
    requires i < |s| && Digits(s)
    ensures Residue(s[..i + 1], w) == (Residue(s[..i], w) * 10 + DigitOf(s[i])) % Modulus(w)
    ensures Climbs(s[..i + 1], w) <==> Climbs(s[..i], w) && Residue(s[..i], w) <= Residue(s[..i + 1], w)
    ensures Climbs(s, w) ==> Residue(s[..i], w) <= Residue(s[..i + 1], w)
  {
    assert s[..i + 1] == s[..i] + [s[i]];
    ResidueStep(s[..i], s[i], w);
    ClimbsStep(s[..i], s[i], w);
    if Climbs(s, w) {
      ClimbsAt(s, i, w);
    }
  }

  lemma ClimbsAt(s: string, i: nat, w: Width)
    requires i < |s| && Digits(s) && Climbs(s, w)
    ensures Residue(s[..i], w) <= Residue(s[..i + 1], w)
  {
    assert Residue(s[..i + 1 - 1], w) <= Residue(s[..i + 1], w);
  }

  // The guard misses wraps, but only ones that leave a value of at least a tenth of the
  // modulus: any accepted value below that is exact.
  lemma {:induction false} SmallValueIsExact(s: string, w: Width)
    requires Digits(s) && Climbs(s, w) && 10 * Residue(s, w) + 9 < Modulus(w)
    ensures Value(s) == Residue(s, w)
  {
    if s != "" {
      var init, c := s[..|s| - 1], s[|s| - 1];
      assert s == init + [c];
      ClimbsStep(init, c, w);
      SmallValueIsExact(init, w);
    }
  }

  // The guard does miss some: 10000000000 is accepted as 1410065408 when long has 32 bits.
  lemma GuardMissesWrap()
    ensures Digits("10000000000") && Climbs("10000000000", 32)
    ensures Residue("10000000000", 32) == 1410065408 && Value("10000000000") == 10000000000
  {
    var nine := "1000000000";
    assert nine == PowerText(9) && "10000000000" == PowerText(10) == nine + ['0'];
    TenToThe(9);
    TenToThe(10);
    FittingClimbs(nine, 32);
    ClimbsStep(nine, '0', 32);
  }

  ghost function PowerText(k: nat): string {
    ['1'] + seq(k, _ => '0')
  }

  function Pow10(k: nat): (p: nat)
    ensures p > 0
  {
    if k == 0 then 1 else 10 * Pow10(k - 1)
  }

  lemma {:induction false} TenToThe(k: nat)
    ensures Digits(PowerText(k)) && Value(PowerText(k)) == Pow10(k)
  {
    if k == 0 {
      assert PowerText(0) == "1" && Value("") == 0;
      assert "1"[..0] == "";
    } else {
      TenToThe(k - 1);
      assert PowerText(k)[..k] == PowerText(k - 1);
    }
  }

  // ---- parse_unsigned --------------------------------------------------------------------

  // parse_unsigned on the C string text.
  method ParseUnsigned(text: string, w: Width) returns (r: Option<nat>)
    ensures r.Some? <==> text != "" && Digits(text) && Climbs(text, w)
    ensures r.Some? ==> r.value == Residue(text, w) < Modulus(w)
  {
    var parsed := 0;
    if text == "" {
      return None;
    }
    var i := 0;
    assert text[..0] == "";
    while i < |text|
      invariant 0 <= i <= |text|
      invariant Digits(text[..i]) && Climbs(text[..i], w)
      invariant parsed == Residue(text[..i], w)
    {
      var c := text[i];
      assert text[..i + 1] == text[..i] + [c];
      if !IsDigit(c) {
        assert !IsDigit(text[i]);
        return None;
      }
      ResidueStep(text[..i], c, w);
      ClimbsStep(text[..i], c, w);
      var next := (parsed * 10 + DigitOf(c)) % Modulus(w);
      if next < parsed {
        if Digits(text) && Climbs(text, w) {
          ClimbsAt(text, i, w);
          assert false;
        }
        return None;
      }
      parsed := next;
      i := i + 1;
    }
    assert text[..i] == text;
    r := Some(parsed);
  }

  // Parsing undoes printing, for every value of the width.
  lemma ParseUndoesPrint(n: nat, w: Width)
    requires n < Modulus(w)
    ensures var s := Decimal(n); s != "" && Digits(s) && Climbs(s, w) && Residue(s, w) == n
  {
    DecimalIsCanonical(n);
    FittingClimbs(Decimal(n), w);
  }

  // Every digit string whose number fits parses to it, leading zeros included.
  lemma {:induction false} LeadingZeros(k: nat, s: string)
    requires Digits(s)
    ensures var z := seq(k, _ => '0') + s; Digits(z) && Value(z) == Value(s)
  {
    var zeros := seq(k, _ => '0');
    if s == "" {
      assert zeros + s == zeros;
      if k > 0 {
        LeadingZeros(k - 1, "");
        assert zeros[..k - 1] == seq(k - 1, _ => '0') + "";
      }
    } else {
      LeadingZeros(k, s[..|s| - 1]);
      assert (zeros + s)[..k + |s| - 1] == zeros + s[..|s| - 1];
    }
  }
}
