// internet_checksum, which sums 16-bit words in the little-endian order of the target, and
// its use in the echo request of cmd_ping.
module Checksum {
  import opened Numerals

  type Byte = x: int | 0 <= x < 256

  // ---- The standard's definition (section 1 of RFC 1071) ----------------------------------

  // One's complement addition of 16-bit words: the carry out comes back in.
  function EndAround(x: nat, y: nat): (z: nat)
    requires x <= 0xffff && y <= 0xffff
    ensures z <= 0xffff
  {
    if x + y > 0xffff then x + y - 0xffff else x + y
  }

  // Words are read in network order, and an odd last byte is padded with a zero byte.
  function NetworkWord(data: seq<Byte>): (w: nat)
    requires data != []
    ensures w <= 0xffff
  {
    256 * (data[0] as int) + if |data| > 1 then data[1] else 0
  }

  function OnesComplementSum(data: seq<Byte>): (s: nat)
    ensures s <= 0xffff
    decreases |data|
  {
    if data == [] then 0
    else EndAround(NetworkWord(data), OnesComplementSum(if |data| > 1 then data[2..] else []))
  }

  function StandardChecksum(data: seq<Byte>): nat {
    0xffff - OnesComplementSum(data)
  }

  // ---- What the code sums -----------------------------------------------------------------

  function Word(data: seq<Byte>): (w: nat)
    requires data != []
    ensures w <= 0xffff
  {
    data[0] as int + if |data| > 1 then 256 * (data[1] as int) else 0
  }

  function Sum(data: seq<Byte>): nat {
    if data == [] then 0 else Word(data) + if |data| > 1 then Sum(data[2..]) else 0
  }

  // Folding carries until 16 bits are left.
  function Fold(s: nat): nat { s % 0x1_0000 + s / 0x1_0000 }

  // The representative of s modulo 0xffff among 1..0xffff, and 0 for 0.
  function Folded(s: nat): (r: nat)
    ensures r <= 0xffff && (r == 0 <==> s == 0)
  {
    if s == 0 then 0 else (s - 1) % 0xffff + 1
  }

  lemma FoldKeeps(s: nat)
    ensures Folded(Fold(s)) == Folded(s)
    ensures s >= 0x1_0000 ==> Fold(s) < s
    ensures s < 0x1_0000 ==> Folded(s) == s
  {
    if s >= 0x1_0000 {
      var h, l := s / 0x1_0000, s % 0x1_0000;
      assert s == 0x1_0000 * h + l;
      var t := h + l - 1;
      assert s - 1 == 0xffff * h + t;
      Quotient(s - 1, 0xffff, h + t / 0xffff, t % 0xffff);
    }
  }

  lemma FoldedIs(s: nat, k: int, r: nat)
    requires s == 0xffff * k + r && 0 < r <= 0xffff && s > 0
    ensures Folded(s) == r
  {
    assert k >= 0;
    Quotient(s - 1, 0xffff, k, r - 1);
  }

  function InternetChecksum(data: seq<Byte>): (c: nat)
    ensures c <= 0xffff
  {
    0xffff - Folded(Sum(data) % 0x1_0000_0000)
  }

  // internet_checksum; folds counts the rounds of its last loop.
  method ComputeChecksum(data: seq<Byte>) returns (checksum: nat, ghost folds: nat)
    ensures checksum == InternetChecksum(data)
    ensures folds <= 2
  {
    var sum := Accumulate(data);
    sum, folds := FoldCarries(sum);
    checksum := 0xffff - sum;
  }

  method Accumulate(data: seq<Byte>) returns (sum: nat)
    ensures sum == Sum(data) % 0x1_0000_0000
  {
    var i := 0;
    ghost var done: nat := 0;
    sum := 0;
    assert data[0..] == data;
    while |data| - i > 1
      invariant 0 <= i <= |data|
      invariant done + Sum(data[i..]) == Sum(data) && sum == done % 0x1_0000_0000
    {
      var word := data[i] as int + 256 * (data[i + 1] as int);
      SumStep(data, i);
      AddModulo(done, word);
      sum := (sum + word) % 0x1_0000_0000;
      done := done + word;
      i := i + 2;
    }
    if |data| - i != 0 {
      AddModulo(done, data[i]);
      sum := (sum + data[i]) % 0x1_0000_0000;
    }
  }

  lemma SumStep(data: seq<Byte>, i: nat)
    requires i + 1 < |data|
    ensures Sum(data[i..]) == data[i] as int + 256 * (data[i + 1] as int) + Sum(data[i + 2..])
  {
    assert data[i..][2..] == data[i + 2..];
  }

  lemma AddModulo(x: nat, y: nat)
    ensures (x % 0x1_0000_0000 + y) % 0x1_0000_0000 == (x + y) % 0x1_0000_0000
  {
  }

  method FoldCarries(start: nat) returns (sum: nat, ghost folds: nat)
    requires start < 0x1_0000_0000
    ensures sum == Folded(start) && folds <= 2
  {
    sum, folds := start, 0;
    while sum / 0x1_0000 != 0
      invariant 0 <= sum < 0x1_0000_0000 && Folded(sum) == Folded(start)
      invariant folds <= 2
      invariant folds == 1 ==> sum <= 0x1_fffe
      invariant folds == 2 ==> sum <= 0xffff
      decreases sum
    {
      FoldKeeps(sum);
      sum := sum % 0x1_0000 + sum / 0x1_0000;
      folds := folds + 1;
    }
    FoldKeeps(sum);
  }

  // ---- No wrap-around up to 131074 bytes, and the bound is sharp ------------------------------

  lemma {:induction false} SumBound(data: seq<Byte>)
    ensures Sum(data) <= 0xffff * ((|data| + 1) / 2)
    ensures |data| % 2 == 1 ==> Sum(data) <= 0xffff * (|data| / 2) + 0xff
  {
    if |data| > 1 {
      SumBound(data[2..]);
    }
  }

  lemma NoWrap(data: seq<Byte>)
    requires |data| <= 131074
    ensures Sum(data) < 0x1_0000_0000
    ensures InternetChecksum(data) == 0xffff - Folded(Sum(data))
  {
    SumBound(data);
  }

  lemma {:induction false} SumSplit(a: seq<Byte>, b: seq<Byte>)
    requires |a| % 2 == 0
    ensures Sum(a + b) == Sum(a) + Sum(b)
  {
    if a == [] {
      assert a + b == b;
    } else {
      SumSplit(a[2..], b);
      assert (a + b)[2..] == a[2..] + b;
    }
  }

  lemma {:induction false} SumOnes(k: nat)
    ensures Sum(seq(2 * k, _ => 255)) == 0xffff * k
  {
    if k > 0 {
      SumOnes(k - 1);
      assert seq(2 * k, _ => 255 as Byte)[2..] == seq(2 * (k - 1), _ => 255 as Byte);
    }
  }

  lemma {:induction false} SumZeros(n: nat)
    ensures Sum(seq(n, _ => 0)) == 0
  {
    if n > 1 {
      SumZeros(n - 2);
      assert seq(n, _ => 0 as Byte)[2..] == seq(n - 2, _ => 0 as Byte);
    }
  }

  // The accumulator is wide enough for every buffer of a length exactly when the length is
  // at most 131074.
  lemma WidthIsSharp(n: nat)
    ensures n <= 131074 <==>
            forall data: seq<Byte> :: |data| == n ==> InternetChecksum(data) == 0xffff - Folded(Sum(data))
  {
    if n <= 131074 {
      forall data: seq<Byte> | |data| == n
        ensures InternetChecksum(data) == 0xffff - Folded(Sum(data))
      {
        NoWrap(data);
      }
    } else {
      var ones: seq<Byte>, zeros: seq<Byte> := seq(131074, _ => 255), seq(n - 131075, _ => 0);
      var tail: seq<Byte> := [1] + zeros;
      SumOnes(65537);
      assert ones == seq(2 * 65537, _ => 255 as Byte);
      OneThenZeros(n - 131075);
      SumSplit(ones, tail);
      var data := ones + tail;
      assert Sum(data) == 0x1_0000_0000;
      FoldedIs(Sum(data), 65537, 1);
      assert |data| == n && InternetChecksum(data) == 0xffff;
    }
  }

  lemma OneThenZeros(n: nat)
    ensures Sum([1] + seq(n, _ => 0)) == 1
  {
    var zeros: seq<Byte> := seq(n, _ => 0);
    if n > 0 {
      SumZeros(n - 1);
      assert ([1] + zeros)[2..] == seq(n - 1, _ => 0 as Byte);
    }
  }

  // ---- Byte-order independence (section 2(B) of RFC 1071) --------------------------------------

  // host_to_network16 on the little-endian target.
  function Swap(x: nat): (y: nat)
    requires x <= 0xffff
    ensures y <= 0xffff
  {
    x % 256 * 256 + x / 256
  }

  function HighBytes(data: seq<Byte>): nat {
    if |data| < 2 then 0 else data[1] + HighBytes(data[2..])
  }

  function NetworkSum(data: seq<Byte>): nat {
    if data == [] then 0 else NetworkWord(data) + if |data| > 1 then NetworkSum(data[2..]) else 0
  }

  // Multiplying by 256 swaps bytes modulo 0xffff.
  lemma {:induction false} SwappedSums(data: seq<Byte>)
    ensures 256 * Sum(data) == NetworkSum(data) + 0xffff * HighBytes(data)
  {
    if |data| > 1 {
      SwappedSums(data[2..]);
    }
  }

  lemma {:induction false} FoldedNetworkSum(data: seq<Byte>)
    ensures Folded(NetworkSum(data)) == OnesComplementSum(data)
    decreases |data|
  {
    if data != [] {
      var rest := if |data| > 1 then data[2..] else [];
      FoldedNetworkSum(rest);
      FoldedPlus(NetworkWord(data), NetworkSum(rest));
    }
  }

  lemma FoldedPlus(w: nat, s: nat)
    requires w <= 0xffff
    ensures Folded(w + s) == EndAround(w, Folded(s))
  {
    if w + s > 0 {
      var q, r := if s == 0 then 0 else (s - 1) / 0xffff, Folded(s);
      assert s == 0xffff * q + r;
      if w + r > 0xffff {
        FoldedIs(w + s, q + 1, w + r - 0xffff);
      } else {
        FoldedIs(w + s, q, w + r);
      }
    }
  }

  lemma SwapFolded(s: nat, t: nat, highs: nat)
    requires 256 * s == t + 0xffff * highs && (t == 0 ==> s == 0)
    ensures Folded(t) == Swap(Folded(s))
  {
    if s > 0 {
      var q, r := (s - 1) / 0xffff, Folded(s);
      assert s == 0xffff * q + r;
      assert t == 0xffff * (256 * q + r / 256 - highs) + Swap(r);
      FoldedIs(t, 256 * q + r / 256 - highs, Swap(r));
    } else {
      assert t == 0;
    }
  }

  lemma {:induction false} ZeroNetworkSum(data: seq<Byte>)
    ensures NetworkSum(data) == 0 <==> Sum(data) == 0
  {
    if |data| > 1 {
      ZeroNetworkSum(data[2..]);
    }
  }

  lemma SwapComplement(x: nat)
    requires x <= 0xffff
    ensures Swap(0xffff - x) == 0xffff - Swap(x)
    ensures Swap(Swap(x)) == x
  {
    var h, l := x / 256, x % 256;
    Quotient(0xffff - x, 256, 255 - h, 255 - l);
    Quotient(Swap(x), 256, l, h);
  }

  // Summing words of the machine's own order gives the standard's checksum with its bytes
  // swapped, so storing it as a native word puts the standard's bytes in the packet.
  lemma MatchesStandard(data: seq<Byte>)
    requires |data| <= 131074
    ensures Swap(InternetChecksum(data)) == StandardChecksum(data)
  {
    NoWrap(data);
    SwappedSums(data);
    ZeroNetworkSum(data);
    SwapFolded(Sum(data), NetworkSum(data), HighBytes(data));
    FoldedNetworkSum(data);
    SwapComplement(Folded(Sum(data)));
  }

  // ---- Storing the checksum in the packet ------------------------------------------------------

  // A native 16-bit store.
  function Store16(data: seq<Byte>, at: nat, value: nat): (out: seq<Byte>)
    requires at + 2 <= |data| && value <= 0xffff
    ensures |out| == |data|
  {
    data[at := value % 256][at + 1 := value / 256]
  }

  lemma StoredAround(data: seq<Byte>, at: nat, low: Byte, high: Byte)
    requires at + 2 <= |data|
    ensures data[at := low][at + 1 := high] == data[..at] + ([low, high] + data[at + 2..])
  {
  }

  lemma StoredSum(data: seq<Byte>, at: nat, value: nat)
    requires at % 2 == 0 && at + 2 <= |data| && data[at] == data[at + 1] == 0 && value <= 0xffff
    ensures Sum(Store16(data, at, value)) == Sum(data) + value
  {
    hide Sum;
    var low: Byte, high: Byte := value % 256, value / 256;
    var a, b := data[..at], data[at + 2..];
    assert data == data[at := 0][at + 1 := 0];
    StoredAround(data, at, 0, 0);
    StoredAround(data, at, low, high);
    SumSplit(a, [0, 0] + b);
    SumSplit(a, [low, high] + b);
    SumPair(0, 0, b);
    SumPair(low, high, b);
  }

  lemma SumPair(low: Byte, high: Byte, b: seq<Byte>)
    ensures Sum([low, high] + b) == low as int + 256 * (high as int) + Sum(b)
  {
    assert ([low, high] + b)[2..] == b;
  }

  // Adding to a sum adds to its folded form.
  lemma FoldedAdd(s: nat, value: nat)
    requires value <= 0xffff
    ensures Folded(s + value) ==
            if Folded(s) + value > 0xffff then Folded(s) + value - 0xffff else Folded(s) + value
  {
    FoldedPlus(value, s);
  }

  lemma FoldedReachesTop(s: nat, value: nat)
    requires value <= 0xffff
    ensures Folded(s + value) == 0xffff <==> s + value > 0 && value % 0xffff == (0xffff - Folded(s)) % 0xffff
  {
    FoldedAdd(s, value);
    FieldArithmetic(Folded(s), value);
  }

  // A packet whose field at an even offset was zero checks to 0 exactly when the value
  // stored there is the computed checksum, up to the two representations of zero.
  lemma FieldVerifies(data: seq<Byte>, at: nat, value: nat)
    requires at % 2 == 0 && at + 2 <= |data| <= 131074 && data[at] == data[at + 1] == 0 && value <= 0xffff
    ensures InternetChecksum(Store16(data, at, value)) == 0 <==>
            Sum(data) + value > 0 && value % 0xffff == InternetChecksum(data) % 0xffff
  {
    var s, stored := Sum(data), Store16(data, at, value);
    FoldedReachesTop(s, value);
    assert InternetChecksum(data) == 0xffff - Folded(s) by { NoWrap(data); }
    assert InternetChecksum(stored) == 0xffff - Folded(s + value) by {
      NoWrap(stored);
      StoredSum(data, at, value);
    }
  }

  lemma FieldArithmetic(r: nat, value: nat)
    requires r <= 0xffff && value <= 0xffff
    ensures (if r + value > 0xffff then r + value - 0xffff else r + value) == 0xffff <==>
            r + value > 0 && value % 0xffff == (0xffff - r) % 0xffff
  {
  }

  lemma StoredChecksumVerifies(data: seq<Byte>, at: nat)
    requires at % 2 == 0 && at + 2 <= |data| <= 131074 && data[at] == data[at + 1] == 0
    ensures InternetChecksum(Store16(data, at, InternetChecksum(data))) == 0
  {
    NoWrap(data);
    FieldVerifies(data, at, InternetChecksum(data));
  }

  // ---- The echo request of cmd_ping -------------------------------------------------------------

  function EchoFields(sequence: nat, checksum: nat): (packet: seq<Byte>)
    requires sequence <= 0xffff && checksum <= 0xffff
    ensures |packet| == 24
  {
    [8, 0, checksum / 256, checksum % 256, 0, 1, sequence / 256, sequence % 256,
     't' as int, 'i' as int, 'n' as int, 'y' as int] + seq(12, _ => 0)
  }

  method Put16(packet: array<Byte>, at: nat, value: nat)
    requires at + 2 <= packet.Length && value <= 0xffff
    modifies packet
    ensures packet[..] == Store16(old(packet[..]), at, value)
  {
    packet[at] := value % 256;
    packet[at + 1] := value / 256;
  }

  method FillFields(packet: array<Byte>, sequence: nat)
    requires packet.Length == 24 && sequence <= 0xffff
    modifies packet
    ensures packet[..] == EchoFields(sequence, 0)
  {
    forall i | 0 <= i < 24 {
      packet[i] := 0;
    }
    packet[0] := 8;
    Put16(packet, 4, Swap(1));
    Put16(packet, 6, Swap(sequence));
    packet[8] := 't' as int;
    packet[9] := 'i' as int;
    packet[10] := 'n' as int;
    packet[11] := 'y' as int;
    SwapBytes(sequence);
  }

  lemma SwapBytes(x: nat)
    requires x <= 0xffff
    ensures Swap(x) % 256 == x / 256 && Swap(x) / 256 == x % 256
  {
    Quotient(Swap(x), 256, x % 256, x / 256);
  }

  // Fills a cleared 24-byte packet in place. What goes on the wire has every field, the
  // checksum included, in network order.
  method FillEcho(packet: array<Byte>, sequence: nat)
    requires packet.Length == 24 && sequence <= 0xffff
    modifies packet
    ensures packet[..] == EchoFields(sequence, StandardChecksum(EchoFields(sequence, 0)))
    ensures InternetChecksum(packet[..]) == 0
  {
    FillFields(packet, sequence);
    ghost var clear := EchoFields(sequence, 0);
    var checksum, _ := ComputeChecksum(packet[..]);
    Put16(packet, 2, checksum);
    MatchesStandard(clear);
    SwapBytes(checksum);
    StoredChecksumVerifies(clear, 2);
    assert Store16(clear, 2, checksum) == EchoFields(sequence, StandardChecksum(clear));
  }
}
