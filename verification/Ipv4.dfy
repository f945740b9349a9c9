// Dotted IPv4 addresses: parse_ipv4 and print_ipv4. The first octet is the low byte of the
// 32-bit word, which puts it first in memory on the little-endian target.
module Ipv4 {
  import opened Text
  import opened Machine
  import opened Numerals
  import opened Printing

  ghost predicate IsOctet(group: string) {
    group != "" && Digits(group) && Value(group) <= 255
  }

  // Exactly four dot-separated groups, each nonempty, all digits, of value at most 255.
  ghost predicate IsAddress(text: string) {
    var groups := Split(text, '.');
    |groups| == 4 && forall j :: 0 <= j < 4 ==> IsOctet(groups[j])
  }

  function Pack(a: nat, b: nat, c: nat, d: nat): nat {
    a + 0x100 * b + 0x1_0000 * c + 0x100_0000 * d
  }

  ghost function AddressOf(text: string): nat
    requires IsAddress(text)
  {
    var g := Split(text, '.');
    Pack(Value(g[0]), Value(g[1]), Value(g[2]), Value(g[3]))
  }

  function Dotted(a: string, b: string, c: string, d: string): string {
    a + "." + b + "." + c + "." + d
  }

  // The address texts are exactly the joins of four octets.
  lemma AddressTexts(a: string, b: string, c: string, d: string)
    requires IsOctet(a) && IsOctet(b) && IsOctet(c) && IsOctet(d)
    ensures IsAddress(Dotted(a, b, c, d))
    ensures AddressOf(Dotted(a, b, c, d)) == Pack(Value(a), Value(b), Value(c), Value(d))
  {
    SplitWhole(a, '.');
    var ab := a + "." + b;
    SplitLast(a, b, '.');
    var abc := ab + "." + c;
    SplitLast(ab, c, '.');
    SplitLast(abc, d, '.');
    assert Split(Dotted(a, b, c, d), '.') == [a] + [b] + [c] + [d];
  }

  lemma AddressGroups(text: string) returns (a: string, b: string, c: string, d: string)
    requires IsAddress(text)
    ensures IsOctet(a) && IsOctet(b) && IsOctet(c) && IsOctet(d)
    ensures text == Dotted(a, b, c, d)
  {
    var g := Split(text, '.');
    a, b, c, d := g[0], g[1], g[2], g[3];
    JoinSplit(text, '.');
    JoinSnoc([a], b, '.');
    JoinSnoc([a] + [b], c, '.');
    JoinSnoc([a] + [b] + [c], d, '.');
    assert g == [a] + [b] + [c] + [d];
  }

  // What has been read fixes the groups before the current one and starts the current one.
  lemma GroupsSoFar(text: string, i: nat)
    requires i <= |text|
    ensures var g, all := Split(text[..i], '.'), Split(text, '.');
            && |g| <= |all|
            && (forall j :: 0 <= j < |g| - 1 ==> all[j] == g[j])
            && g[|g| - 1] <= all[|g| - 1]
  {
    assert text == text[..i] + text[i..];
    SplitConcat(text[..i], text[i..], '.');
  }

  lemma OctetPrefix(prefix: string, group: string)
    requires prefix <= group && IsOctet(group)
    ensures Digits(prefix) && Value(prefix) <= 255
  {
    PrefixValue(group, |prefix|);
    assert group[..|prefix|] == prefix;
  }

  // The loop state after i characters: octets completed, and the group under way.
  ghost predicate Reading(text: string, i: nat, octets: seq<nat>, value: nat, hasDigit: bool) {
    i <= |text| &&
    var g := Split(text[..i], '.');
    && |g| == |octets| + 1
    && (forall j :: 0 <= j < |octets| ==> IsOctet(g[j]) && octets[j] == Value(g[j]))
    && Digits(g[|octets|]) && value == Value(g[|octets|]) <= 255
    && (hasDigit <==> g[|octets|] != "")
  }

  lemma ReadDigit(text: string, i: nat, octets: seq<nat>, value: nat, hasDigit: bool)
    requires i < |text| && Reading(text, i, octets, value, hasDigit) && IsDigit(text[i])
    ensures var next := value * 10 + DigitOf(text[i]);
            if next <= 255 then Reading(text, i + 1, octets, next, true) else !IsAddress(text)
  {
    var c, g, next := text[i], Split(text[..i], '.'), Split(text[..i + 1], '.');
    assert text[..i + 1] == text[..i] + [c];
    SplitSnoc(text[..i], c, '.');
    var group := g[|octets|] + [c];
    assert next == g[..|octets|] + [group];
    assert group[..|group| - 1] == g[|octets|];
    assert Digits(group) && Value(group) == value * 10 + DigitOf(c);
    if Value(group) > 255 && IsAddress(text) {
      GroupsSoFar(text, i + 1);
      OctetPrefix(group, Split(text, '.')[|octets|]);
    }
  }

  lemma ReadDot(text: string, i: nat, octets: seq<nat>, value: nat)
    requires i < |text| && Reading(text, i, octets, value, true) && text[i] == '.'
    ensures Reading(text, i + 1, octets + [value], 0, false)
  {
    assert text[..i + 1] == text[..i] + ['.'];
    SplitSnoc(text[..i], '.', '.');
  }

  lemma ReadOther(text: string, i: nat, octets: seq<nat>, value: nat, hasDigit: bool)
    requires i < |text| && Reading(text, i, octets, value, hasDigit) && !IsDigit(text[i])
    requires text[i] != '.' || !hasDigit || |octets| == 3
    ensures !IsAddress(text)
  {
    var c, g, next := text[i], Split(text[..i], '.'), Split(text[..i + 1], '.');
    assert text[..i + 1] == text[..i] + [c];
    SplitSnoc(text[..i], c, '.');
    GroupsSoFar(text, i + 1);
    assert c == '.' ==> Split(text, '.')[|octets|] == next[|octets|] == g[|octets|];
    assert c != '.' ==> next[|octets|][|next[|octets|]| - 1] == c;
  }

  lemma ReadEnd(text: string, octets: seq<nat>, value: nat, hasDigit: bool)
    requires Reading(text, |text|, octets, value, hasDigit)
    ensures IsAddress(text) <==> hasDigit && |octets| == 3
    ensures IsAddress(text) ==> AddressOf(text) == Pack(octets[0], octets[1], octets[2], value) < 0x1_0000_0000
  {
    assert text[..|text|] == text;
  }

  method ParseIpv4(text: string) returns (address: Option<nat>)
    ensures address.Some? <==> IsAddress(text)
    ensures address.Some? ==> address.value == AddressOf(text) < 0x1_0000_0000
  {
    var octets: array<nat> := new nat[4](_ => 0);
    var octet, value: nat, hasDigit, i := 0, 0, false, 0;
    assert text[..0] == "";
    while i < |text|
      invariant 0 <= octet <= 3
      invariant Reading(text, i, octets[..octet], value, hasDigit)
    {
      var c := text[i];
      ghost var done := octets[..octet];
      if IsDigit(c) {
        ReadDigit(text, i, done, value, hasDigit);
        value := value * 10 + DigitOf(c);
        if value > 255 {
          return None;
        }
        hasDigit := true;
      } else if c == '.' && hasDigit && octet < 3 {
        ReadDot(text, i, done, value);
        octets[octet] := value;
        octet := octet + 1;
        assert octets[..octet] == done + [value];
        value := 0;
        hasDigit := false;
      } else {
        ReadOther(text, i, done, value, hasDigit);
        return None;
      }
      i := i + 1;
    }
    ReadEnd(text, octets[..octet], value, hasDigit);
    if !hasDigit || octet != 3 {
      return None;
    }
    octets[3] := value;
    address := Some(octets[0] + octets[1] * 0x100 + octets[2] * 0x1_0000 + octets[3] * 0x100_0000);
  }

  function AddressText(address: nat): string {
    Dotted(Decimal(address % 0x100), Decimal(address / 0x100 % 0x100),
           Decimal(address / 0x1_0000 % 0x100), Decimal(address / 0x100_0000 % 0x100))
  }

  method PrintIpv4(k: Kernel, address: nat, w: Width)
    requires address < 0x1_0000_0000
    modifies k`console
    ensures k.console == old(k.console) + AddressText(address)
  {
    var a, b := address % 0x100, address / 0x100 % 0x100;
    var c, d := address / 0x1_0000 % 0x100, address / 0x100_0000 % 0x100;
    PrintUnsigned(k, a, w);
    k.Put(".");
    PrintUnsigned(k, b, w);
    k.Put(".");
    PrintUnsigned(k, c, w);
    k.Put(".");
    PrintUnsigned(k, d, w);
    DottedAfter(old(k.console), Decimal(a), Decimal(b), Decimal(c), Decimal(d));
  }

  lemma DottedAfter(before: string, a: string, b: string, c: string, d: string)
    ensures before + a + "." + b + "." + c + "." + d == before + Dotted(a, b, c, d)
  {
  }

  lemma DecimalOctet(n: nat)
    requires n <= 255
    ensures IsOctet(Decimal(n)) && Value(Decimal(n)) == n
  {
    DecimalIsCanonical(n);
  }

  // Parsing undoes printing on every 32-bit address.
  lemma ParseUndoesPrint(address: nat)
    requires address < 0x1_0000_0000
    ensures IsAddress(AddressText(address)) && AddressOf(AddressText(address)) == address
  {
    var a, b := address % 0x100, address / 0x100 % 0x100;
    var c, d := address / 0x1_0000 % 0x100, address / 0x100_0000 % 0x100;
    DecimalOctet(a);
    DecimalOctet(b);
    DecimalOctet(c);
    DecimalOctet(d);
    AddressTexts(Decimal(a), Decimal(b), Decimal(c), Decimal(d));
    Repack(address);
  }

  lemma Repack(n: nat)
    requires n < 0x1_0000_0000
    ensures Pack(n % 0x100, n / 0x100 % 0x100, n / 0x1_0000 % 0x100, n / 0x100_0000 % 0x100) == n
  {
    assert n / 0x1_0000 == n / 0x100 / 0x100 && n / 0x100_0000 == n / 0x1_0000 / 0x100;
  }

  // Printing what was parsed drops leading zeros and nothing else.
  lemma PrintNormalises(text: string)
    requires IsAddress(text)
    ensures AddressOf(text) < 0x1_0000_0000
    ensures var g := Split(text, '.');
            AddressText(AddressOf(text)) ==
            Dotted(Decimal(Value(g[0])), Decimal(Value(g[1])), Decimal(Value(g[2])), Decimal(Value(g[3])))
    ensures var again := AddressText(AddressOf(text)); IsAddress(again) && AddressOf(again) == AddressOf(text)
  {
    ParseUndoesPrint(AddressOf(text)) by {
      Unpack(Value(Split(text, '.')[0]), Value(Split(text, '.')[1]), Value(Split(text, '.')[2]), Value(Split(text, '.')[3]));
    }
    var g := Split(text, '.');
    Unpack(Value(g[0]), Value(g[1]), Value(g[2]), Value(g[3]));
  }

  lemma Unpack(a: nat, b: nat, c: nat, d: nat)
    requires a <= 255 && b <= 255 && c <= 255 && d <= 255
    ensures var n := Pack(a, b, c, d);
            && n < 0x1_0000_0000
            && n % 0x100 == a && n / 0x100 % 0x100 == b && n / 0x1_0000 % 0x100 == c && n / 0x100_0000 % 0x100 == d
  {
    var n := Pack(a, b, c, d);
    Quotient(n, 0x100, Pack(b, c, d, 0), a);
    Quotient(n, 0x1_0000, Pack(c, d, 0, 0), Pack(a, b, 0, 0));
    Quotient(n, 0x100_0000, d, Pack(a, b, c, 0));
    Quotient(Pack(b, c, d, 0), 0x100, Pack(c, d, 0, 0), b);
    Quotient(Pack(c, d, 0, 0), 0x100, d, c);
  }
}
