// The response header of fetch: reading it byte by byte, the status line, and the
// Content-Length field (section 10.4 of RFC 1945).
module Http {
  import opened Text
  import opened Machine
  import opened Numerals

  // ---- The status line ---------------------------------------------------------------------

  ghost predicate StatusOk(header: string) {
    exists version, rest :: StatusLine(header, version, rest)
  }

  ghost predicate StatusLine(header: string, version: string, rest: string) {
    Without(version, ' ') && header == "HTTP/" + version + " 200 " + rest
  }

  // http_status_ok on the string of length n held in mem; it never reads past the NUL.
  method HttpStatusOk(mem: seq<char>, ghost n: nat) returns (ok: bool)
    requires Terminated(mem, n)
    ensures ok <==> StatusOk(mem[..n])
  {
    ghost var h := mem[..n];
    if mem[0] != 'H' || mem[1] != 'T' || mem[2] != 'T' || mem[3] != 'P' || mem[4] != '/' {
      return false;
    }
    var cursor := 0;
    while mem[cursor] != NUL && mem[cursor] != ' '
      invariant cursor <= n && Without(h[..cursor], ' ')
      decreases n - cursor
    {
      cursor := cursor + 1;
    }
    ok := mem[cursor] == ' ' && mem[cursor + 1] == '2' && mem[cursor + 2] == '0' &&
          mem[cursor + 3] == '0' && mem[cursor + 4] == ' ';
    FirstSpace(h, cursor);
  }

  lemma FirstSpace(h: string, cursor: nat)
    requires 5 <= cursor <= |h| && "HTTP/" <= h && Without(h[..cursor], ' ') && (cursor < |h| ==> h[cursor] == ' ')
    ensures StatusOk(h) <==> " 200 " <= h[cursor..]
  {
    if " 200 " <= h[cursor..] {
      assert h == "HTTP/" + h[5..cursor] + " 200 " + h[cursor + 5..];
      assert StatusLine(h, h[5..cursor], h[cursor + 5..]);
    }
    forall version, rest | StatusLine(h, version, rest)
      ensures cursor == 5 + |version|
    {
      var p := 5 + |version|;
      assert h[p] == ' ';
      assert forall i :: 5 <= i < p ==> h[i] == version[i - 5];
    }
  }

  // ---- Content-Length ------------------------------------------------------------------------

  const LENGTH_NAME: string := "content-length:"

  datatype Length = Absent | Invalid | Declared(value: nat)

  function AsciiLower(c: char): char {
    if 'A' <= c <= 'Z' then (c as int + ('a' as int - 'A' as int)) as char else c
  }

  ghost predicate NameMatches(line: string, name: string) {
    |name| <= |line| && forall i :: 0 <= i < |name| ==> AsciiLower(line[i]) == name[i]
  }

  // header_name_matches at position at; it stops at the NUL at the latest.
  method HeaderNameMatches(mem: seq<char>, at: nat, name: string, ghost n: nat) returns (matches: bool)
    requires Terminated(mem, n) && at <= n && Without(name, NUL)
    ensures matches <==> NameMatches(mem[..n][at..], name)
    ensures matches ==> at + |name| <= n
  {
    assert mem[..n][at..] == mem[at..n];
    var i := 0;
    while i < |name|
      invariant 0 <= i <= |name| && at + i <= n
      invariant forall j :: 0 <= j < i ==> AsciiLower(mem[at + j]) == name[j]
    {
      if AsciiLower(mem[at + i]) != name[i] {
        assert at + i < n ==> mem[at..n][i] == mem[at + i];
        return false;
      }
      assert mem[at + i] != NUL;
      i := i + 1;
    }
    return true;
  }

  // Whatever the letter case, a line of this name is recognised, and no other.
  ghost predicate IsLengthLine(line: string) {
    |line| >= 15 && forall i :: 0 <= i < 15 ==> line[i] == "content-length:"[i] || line[i] == "CONTENT-LENGTH:"[i]
  }

  lemma LengthName(line: string)
    ensures NameMatches(line, LENGTH_NAME) <==> IsLengthLine(line)
  {
    if |line| >= 15 {
      forall i | 0 <= i < 15
        ensures AsciiLower(line[i]) == LENGTH_NAME[i] <==>
                line[i] == "content-length:"[i] || line[i] == "CONTENT-LENGTH:"[i]
      {
        Spelled(line[i], i);
      }
    }
  }

  lemma Spelled(c: char, i: nat)
    requires i < 15
    ensures AsciiLower(c) == LENGTH_NAME[i] <==> c == "content-length:"[i] || c == "CONTENT-LENGTH:"[i]
  {
  }

  predicate IsBlank(c: char) { c == ' ' || c == '\t' }

  function LeadingBlanks(s: string): (k: nat)
    ensures k <= |s|
  {
    if s != "" && IsBlank(s[0]) then 1 + LeadingBlanks(s[1..]) else 0
  }

  function LeadingDigits(s: string): (k: nat)
    ensures k <= |s| && Digits(s[..k]) && (k < |s| ==> !IsDigit(s[k]))
  {
    if s != "" && IsDigit(s[0]) then
      var k := 1 + LeadingDigits(s[1..]);
      assert s[..k] == [s[0]] + s[1..][..k - 1];
      k
    else 0
  }

  lemma {:induction false} LeadingBlanksIs(s: string, k: nat)
    requires k <= |s| && (forall i :: 0 <= i < k ==> IsBlank(s[i])) && (k < |s| ==> !IsBlank(s[k]))
    ensures LeadingBlanks(s) == k
  {
    if k > 0 {
      LeadingBlanksIs(s[1..], k - 1);
    }
  }

  lemma {:induction false} LeadingDigitsIs(s: string, k: nat)
    requires k <= |s| && (forall i :: 0 <= i < k ==> IsDigit(s[i])) && (k < |s| ==> !IsDigit(s[k]))
    ensures LeadingDigits(s) == k
  {
    if k > 0 {
      LeadingDigitsIs(s[1..], k - 1);
    }
  }

  // What the rest of a Content-Length line declares: blanks, then digits, then CR or the end
  // of a line that has one. The number is the one the width leaves of it.
  ghost function FieldOf(rest: string, ended: bool, w: Width): Length {
    var field := rest[LeadingBlanks(rest)..];
    var digits := field[..LeadingDigits(field)];
    if digits == "" || !Climbs(digits, w) then Invalid
    else if if |digits| < |field| then field[|digits|] == '\r' else ended
    then Declared(Residue(digits, w))
    else Invalid
  }

  // The first line with the name decides.
  ghost function Decided(lines: seq<string>, w: Width): Length {
    if lines == [] then Absent
    else if IsLengthLine(lines[0]) then FieldOf(lines[0][15..], |lines| > 1, w)
    else Decided(lines[1..], w)
  }

  ghost function ContentLengthOf(header: string, w: Width): Length {
    Decided(Split(header, '\n'), w)
  }

  lemma {:induction false} DecidedByFirst(lines: seq<string>, k: nat, w: Width)
    requires k <= |lines| && forall j :: 0 <= j < k ==> !IsLengthLine(lines[j])
    ensures k == |lines| ==> Decided(lines, w) == Absent
    ensures k < |lines| && IsLengthLine(lines[k]) ==>
              Decided(lines, w) == FieldOf(lines[k][15..], k + 1 < |lines|, w)
  {
    if k > 0 {
      DecidedByFirst(lines[1..], k - 1, w);
    }
  }

  // content_length on the string of length n held in mem. The result is 1, 0 or -1.
  method ContentLength(mem: seq<char>, w: Width, ghost n: nat) returns (result: int, length: nat)
    requires Terminated(mem, n)
    ensures match ContentLengthOf(mem[..n], w)
            case Absent => result == 0
            case Invalid => result == -1
            case Declared(value) => result == 1 && length == value
  {
    ghost var h := mem[..n];
    var line := 0;
    length := 0;
    assert h[0..] == h;
    assert Decided(Split(h[0..], '\n'), w) == ContentLengthOf(h, w);
    NameHasNoNul();
    hide Decided, Split, FieldAhead, ContentLengthOf, NameMatches, IsLengthLine, LENGTH_NAME, Without;
    while mem[line] != NUL
      invariant line <= n && Decided(Split(h[line..], '\n'), w) == ContentLengthOf(h, w)
      decreases n - line
    {
      var matches := HeaderNameMatches(mem, line, LENGTH_NAME, n);
      LengthName(h[line..]);
      if matches {
        FieldOfLine(h, line, w);
        result, length := ParseField(mem, line + 15, w, n);
        return;
      }
      line := NextLine(mem, line, w, n);
    }
    assert h[line..] == "";
    NothingDecided(w);
    return 0, 0;
  }

  lemma NameHasNoNul()
    ensures Without(LENGTH_NAME, NUL) && |LENGTH_NAME| == 15
  {
  }

  lemma NothingDecided(w: Width)
    ensures Decided(Split("", '\n'), w) == Absent
  {
    DecidedByFirst([""], 1, w);
  }

  method NextLine(mem: seq<char>, start: nat, w: Width, ghost n: nat) returns (line: nat)
    requires Terminated(mem, n) && start < n && !IsLengthLine(mem[..n][start..])
    ensures start < line <= n
    ensures Decided(Split(mem[..n][line..], '\n'), w) == Decided(Split(mem[..n][start..], '\n'), w)
  {
    line := start;
    while mem[line] != NUL && mem[line] != '\n'
      invariant start <= line <= n
      invariant forall i :: start <= i < line ==> mem[i] != '\n'
      decreases n - line
    {
      line := line + 1;
    }
    assert mem[..n][start..] == mem[start..n];
    SkipLine(mem[..n], start, line, w);
    if mem[line] == '\n' {
      line := line + 1;
    }
  }

  lemma SkipLine(h: string, start: nat, end: nat, w: Width)
    requires start <= end <= |h| && Without(h[start..end], '\n') && (end < |h| ==> h[end] == '\n')
    requires !IsLengthLine(h[start..])
    ensures Decided(Split(h[start..], '\n'), w) ==
            Decided(Split(h[if end < |h| then end + 1 else end..], '\n'), w)
  {
    var line := h[start..end];
    assert !IsLengthLine(line);
    if end < |h| {
      assert h[start..] == line + ['\n'] + h[end + 1..];
      SplitFirst(line, h[end + 1..], '\n');
    } else {
      assert h[start..] == line && h[end..] == "";
      SplitWhole(line, '\n');
      SplitWhole("", '\n');
      DecidedByFirst([line], 1, w);
      DecidedByFirst([""], 1, w);
    }
  }

  // What follows the name, as the code scans it: to the end of the text, not of the line.
  ghost function FieldAhead(rest: string, w: Width): Length {
    var field := rest[LeadingBlanks(rest)..];
    var digits := field[..LeadingDigits(field)];
    if digits == "" || !Climbs(digits, w) then Invalid
    else if |digits| < |field| && (field[|digits|] == '\r' || field[|digits|] == '\n')
    then Declared(Residue(digits, w))
    else Invalid
  }

  method ParseField(mem: seq<char>, at: nat, w: Width, ghost n: nat) returns (result: int, length: nat)
    requires Terminated(mem, n) && at <= n
    ensures match FieldAhead(mem[..n][at..], w)
            case Absent => false
            case Invalid => result == -1
            case Declared(value) => result == 1 && length == value
  {
    ghost var rest := mem[at..n];
    assert rest == mem[..n][at..];
    var cursor := at;
    while mem[cursor] == ' ' || mem[cursor] == '\t'
      invariant at <= cursor <= n && forall i :: 0 <= i < cursor - at ==> IsBlank(rest[i])
      decreases n - cursor
    {
      assert rest[cursor - at] == mem[cursor];
      cursor := cursor + 1;
    }
    assert cursor < n ==> rest[cursor - at] == mem[cursor];
    LeadingBlanksIs(rest, cursor - at);
    ghost var field := rest[cursor - at..];
    result, length := ParseDigits(mem, cursor, w, n, field, field[..LeadingDigits(field)]);
  }

  method ParseDigits(mem: seq<char>, from: nat, w: Width, ghost n: nat, ghost field: string, ghost digits: string)
    returns (result: int, length: nat)
    requires Terminated(mem, n) && from <= n && field == mem[from..n]
    requires digits <= field && Digits(digits) && (|digits| < |field| ==> !IsDigit(field[|digits|]))
    ensures if digits != "" && Climbs(digits, w) && |digits| < |field| && (field[|digits|] == '\r' || field[|digits|] == '\n')
            then result == 1 && length == Residue(digits, w)
            else result == -1
  {
    var cursor, value, hasDigit := from, 0, false;
    length := 0;
    assert digits[..0] == "" && Climbs(digits[..0], w) && Residue(digits[..0], w) == 0;
    hide Climbs, Residue;
    while IsDigit(mem[cursor])
      invariant from <= cursor <= n && cursor - from <= |digits|
      invariant Climbs(digits[..cursor - from], w) && value == Residue(digits[..cursor - from], w)
      invariant hasDigit <==> cursor > from
      decreases n - cursor
    {
      ghost var i := cursor - from;
      assert field[i] == mem[cursor] == digits[i];
      DigitTaken(digits, i, w);
      var next := (value * 10 + DigitOf(mem[cursor])) % Modulus(w);
      if next < value {
        return -1, 0;
      }
      value := next;
      hasDigit := true;
      cursor := cursor + 1;
    }
    assert cursor < n ==> field[cursor - from] == mem[cursor];
    assert digits[..cursor - from] == digits;
    if !hasDigit || (mem[cursor] != '\r' && mem[cursor] != '\n') {
      return -1, 0;
    }
    return 1, value;
  }

  // The scan of the field never leaves its line.
  lemma FieldOfLine(h: string, start: nat, w: Width)
    requires start <= |h| && IsLengthLine(h[start..])
    ensures Decided(Split(h[start..], '\n'), w) == FieldAhead(h[start + 15..], w)
  {
    var text := h[start..];
    var lines := Split(text, '\n');
    assert text[15..] == h[start + 15..];
    FirstLine(text);
    NameInLine(lines[0], text, |lines| > 1);
    hide Split, FieldOf, FieldAhead, IsLengthLine, Alike;
    FieldWithin(lines[0][15..], text[15..], |lines| > 1, w);
  }

  lemma FirstLine(text: string)
    ensures var lines := Split(text, '\n'); Alike(lines[0], text, |lines| > 1)
  {
    hide Split;
    SplitHead(text, '\n');
    SplitPiecesClean(text, '\n');
  }

  // The name does not go past the end of its line either.
  lemma NameInLine(line: string, text: string, ended: bool)
    requires Alike(line, text, ended) && IsLengthLine(text)
    ensures IsLengthLine(line) && 15 <= |line| && Alike(line[15..], text[15..], ended)
  {
    assert forall i :: 0 <= i < |line| ==> line[i] == text[i];
    assert forall i :: 0 <= i < 15 ==> "content-length:"[i] != '\n' && "CONTENT-LENGTH:"[i] != '\n';
    assert ended ==> text[|line|] == '\n';
    assert ended ==> line[15..] + ['\n'] == (line + ['\n'])[15..];
  }

  lemma {:induction false} SplitHead(s: string, sep: char)
    ensures var pieces := Split(s, sep);
            if |pieces| == 1 then s == pieces[0] else pieces[0] + [sep] <= s
  {
    if s != "" {
      SplitHead(s[..|s| - 1], sep);
    }
  }

  // A field and what the code sees of it agree up to the end of the line.
  ghost predicate Alike(line: string, text: string, ended: bool) {
    Without(line, '\n') && if ended then line + ['\n'] <= text else line == text
  }

  lemma DigitsWithin(line: string, text: string, ended: bool)
    requires Alike(line, text, ended)
    ensures var d := LeadingDigits(line);
            && d <= |text| && LeadingDigits(text) == d && text[..d] == line[..d]
            && (d < |line| ==> d < |text| && text[d] == line[d] != '\n')
            && (d == |line| ==> if ended then d < |text| && text[d] == '\n' else d == |text|)
  {
    var d := LeadingDigits(line);
    assert forall i :: 0 <= i < |line| ==> line[i] == text[i];
    assert forall i :: 0 <= i < d ==> line[..d][i] == line[i];
    assert ended ==> text[|line|] == '\n';
    LeadingDigitsIs(text, d);
  }

  lemma FieldWithin(line: string, text: string, ended: bool, w: Width)
    requires Alike(line, text, ended)
    ensures FieldOf(line, ended, w) == FieldAhead(text, w)
  {
    hide Climbs, Residue, LeadingDigits;
    var b := LeadingBlanks(line);
    BlanksWithin(line);
    assert forall i :: 0 <= i < |line| ==> line[i] == text[i];
    LeadingBlanksIs(text, b);
    DigitsWithin(line[b..], text[b..], ended);
  }

  lemma {:induction false} BlanksWithin(s: string)
    ensures var k := LeadingBlanks(s);
            (forall i :: 0 <= i < k ==> IsBlank(s[i])) && (k < |s| ==> !IsBlank(s[k]))
  {
    if s != "" && IsBlank(s[0]) {
      BlanksWithin(s[1..]);
    }
  }

  // A header whose first such line declares a length the width can hold is read back
  // exactly, whatever the letter case of the name, the blanks after it, and the other lines.
  lemma DeclaredLengthReadsBack(lines: seq<string>, k: nat, name: string, blanks: string, n: nat, w: Width)
    requires k < |lines| && forall j :: 0 <= j < |lines| ==> Without(lines[j], '\n')
    requires forall j :: 0 <= j < k ==> !IsLengthLine(lines[j])
    requires |name| == 15
    requires forall i :: 0 <= i < 15 ==> name[i] == "content-length:"[i] || name[i] == "CONTENT-LENGTH:"[i]
    requires (forall i :: 0 <= i < |blanks| ==> IsBlank(blanks[i])) && n < Modulus(w)
    requires lines[k] == name + (blanks + Decimal(n) + "\r")
    ensures ContentLengthOf(Join(lines, '\n'), w) == Declared(n)
  {
    var field := lines[k];
    assert forall i :: 0 <= i < 15 ==> field[i] == name[i];
    assert field[15..] == blanks + Decimal(n) + "\r";
    FieldReadsBack(blanks, n, k + 1 < |lines|, w);
    SplitJoin(lines, '\n');
    DecidedByFirst(lines, k, w);
  }

  lemma FieldReadsBack(blanks: string, n: nat, ended: bool, w: Width)
    requires (forall i :: 0 <= i < |blanks| ==> IsBlank(blanks[i])) && n < Modulus(w)
    ensures FieldOf(blanks + Decimal(n) + "\r", ended, w) == Declared(n)
  {
    var digits := Decimal(n);
    hide Climbs, Residue, FieldOf, Decimal;
    DecimalIsCanonical(n);
    FittingClimbs(digits, w);
    FieldOfParts(blanks + digits + "\r", blanks, digits, "\r", ended, w);
  }

  // rest is blanks, digits that pass the overflow guard, and nothing but CR, or the end of a
  // line that has one, right behind them.
  ghost predicate IsField(rest: string, blanks: string, digits: string, tail: string, ended: bool, w: Width) {
    && rest == blanks + digits + tail
    && (forall i :: 0 <= i < |blanks| ==> blanks[i] == ' ' || blanks[i] == '\t')
    && digits != "" && Digits(digits) && Climbs(digits, w)
    && if tail == "" then ended else tail[0] == '\r'
  }

  // A field declares a length exactly when it is of this form.
  lemma FieldIs(rest: string, ended: bool, w: Width)
    ensures FieldOf(rest, ended, w).Declared? <==>
            exists blanks, digits, tail :: IsField(rest, blanks, digits, tail, ended, w)
    ensures forall blanks, digits, tail :: IsField(rest, blanks, digits, tail, ended, w) ==>
              Digits(digits) && FieldOf(rest, ended, w) == Declared(Residue(digits, w))
  {
    if FieldOf(rest, ended, w).Declared? {
      PartsOfField(rest, ended, w);
    }
    hide FieldOf, IsField;
    forall blanks, digits, tail | IsField(rest, blanks, digits, tail, ended, w)
      ensures Digits(digits) && FieldOf(rest, ended, w) == Declared(Residue(digits, w))
    {
      FieldOfParts(rest, blanks, digits, tail, ended, w);
    }
  }

  lemma PartsOfField(rest: string, ended: bool, w: Width)
    requires FieldOf(rest, ended, w).Declared?
    ensures exists blanks, digits, tail :: IsField(rest, blanks, digits, tail, ended, w)
  {
    hide Climbs, Residue;
    var b := LeadingBlanks(rest);
    var field := rest[b..];
    var d := LeadingDigits(field);
    BlanksWithin(rest);
    assert rest == rest[..b] + field[..d] + field[d..];
    assert IsField(rest, rest[..b], field[..d], field[d..], ended, w);
  }

  lemma FieldOfParts(rest: string, blanks: string, digits: string, tail: string, ended: bool, w: Width)
    requires IsField(rest, blanks, digits, tail, ended, w)
    ensures Digits(digits) && FieldOf(rest, ended, w) == Declared(Residue(digits, w))
  {
    hide Climbs, Residue;
    assert rest[|blanks|..] == digits + tail;
    LeadingBlanksIs(rest, |blanks|);
    LeadingDigitsIs(digits + tail, |digits|);
    assert (digits + tail)[..|digits|] == digits;
  }

  // The declared number is the one written in the field exactly when the width can hold it.
  lemma DeclaredExactly(rest: string, ended: bool, w: Width)
    requires FieldOf(rest, ended, w).Declared?
    ensures var field := rest[LeadingBlanks(rest)..];
            var digits := field[..LeadingDigits(field)];
            FieldOf(rest, ended, w).value == Value(digits) <==> Value(digits) < Modulus(w)
  {
    var field := rest[LeadingBlanks(rest)..];
    var digits := field[..LeadingDigits(field)];
    if Value(digits) < Modulus(w) {
      FittingResidue(digits, w);
    }
  }

  // And it need not: with a 32-bit long this field declares 1410065408 bytes.
  lemma DeclaredCanWrap()
    ensures FieldOf(" 10000000000\r", true, 32) == Declared(1410065408)
  {
    var rest, digits := " 10000000000\r", "10000000000";
    LeadingBlanksIs(rest, 1);
    assert rest[1..] == digits + "\r";
    GuardMissesWrap();
    LeadingDigitsIs(digits + "\r", 11);
    assert (digits + "\r")[..11] == digits;
  }

  // ---- Reading the header ----------------------------------------------------------------------

  ghost predicate EndsHeader(s: string) {
    |s| >= 4 && s[|s| - 4..] == "\r\n\r\n"
  }

  // The shortest text ending in CRLFCRLF.
  ghost predicate IsHeader(s: string) {
    EndsHeader(s) && forall j :: 0 <= j < |s| ==> !EndsHeader(s[..j])
  }

  ghost predicate NoHeaderIn(s: string) {
    forall j :: 0 <= j <= |s| ==> !EndsHeader(s[..j])
  }

  lemma HeaderWithin(p: string, q: string)
    requires IsHeader(p) && p <= q
    ensures !NoHeaderIn(q) && (p != q ==> !IsHeader(q))
  {
    assert q[..|p|] == p;
  }

  lemma HeaderIsUnique(stream: string, p: string, q: string)
    requires p <= stream && q <= stream && IsHeader(p) && IsHeader(q)
    ensures p == q
  {
    if |p| <= |q| {
      HeaderWithin(p, q);
    } else {
      HeaderWithin(q, p);
    }
  }

  // Why no header was accepted.
  datatype HeaderOutcome = Accepted | ReadFailed | StreamEnded | TooLong | BadStatus

  method ReadResponseHeader(k: Kernel, fd: int, header: array<char>)
    returns (result: int, ghost outcome: HeaderOutcome, ghost piece: string, ghost rest: string)
    requires fd in k.fds && header.Length > 0
    modifies k`fds, k`failures, header
    ensures k.fds == Left(old(k.fds), fd, rest) && old(k.fds)[fd].pending == piece + rest
    ensures |piece| < header.Length && (result == 0 <==> outcome.Accepted?) && (result != 0 ==> result == -1)
    ensures k.failures == old(k.failures) + if outcome.ReadFailed? then 1 else 0
    ensures match outcome
            case Accepted => IsHeader(piece) && StatusOk(CString(piece)) && header[..|piece| + 1] == piece + [NUL]
            case BadStatus => IsHeader(piece) && !StatusOk(CString(piece))
            case ReadFailed => NoHeaderIn(piece)
            case StreamEnded => NoHeaderIn(piece) && rest == ""
            case TooLong => NoHeaderIn(piece) && |piece| + 1 == header.Length
  {
    ghost var base, stream := k.fds, k.fds[fd].pending;
    var length := 0;
    piece, rest := "", stream;
    assert "" + rest == rest;
    LeftAgain(base, fd, "", "");
    assert NoHeaderIn("");
    hide EndsHeader, IsHeader, NoHeaderIn, StatusOk, CString, Left;
    while length + 1 < header.Length
      invariant 0 <= length == |piece| < header.Length && header[..length] == piece
      invariant k.fds == Left(base, fd, rest) && stream == piece + rest
      invariant NoHeaderIn(piece) && k.failures == old(k.failures)
      decreases |rest|
    {
      var count, complete;
      count, complete, piece, rest := NextByte(k, fd, header, length, base, stream, piece, rest);
      if count < 0 {
        return -1, ReadFailed, piece, rest;
      }
      if count == 0 {
        return -1, StreamEnded, piece, rest;
      }
      length := length + 1;
      if complete {
        var ok := StatusOfBuffer(header, length, piece);
        return if ok then 0 else -1, if ok then Accepted else BadStatus, piece, rest;
      }
    }
    return -1, TooLong, piece, rest;
  }

  // One byte more of the header, unless there is none; complete says whether it ends it.
  method NextByte(k: Kernel, fd: int, header: array<char>, length: nat, ghost base: map<int, End>,
                  ghost stream: string, ghost piece: string, ghost before: string)
    returns (count: int, complete: bool, ghost more: string, ghost rest: string)
    requires fd in base && k.fds == Left(base, fd, before) && stream == piece + before && NoHeaderIn(piece)
    requires length < header.Length && header[..length] == piece
    modifies k`fds, k`failures, header
    ensures k.fds == Left(base, fd, rest) && stream == more + rest && |rest| <= |before|
    ensures k.failures == old(k.failures) + if count < 0 then 1 else 0
    ensures count == 0 ==> rest == ""
    ensures count <= 0 ==> more == piece && rest == before
    ensures count > 0 ==> |more| == length + 1 && header[..length + 1] == more && |rest| < |before|
    ensures count > 0 ==> if complete then IsHeader(more) else NoHeaderIn(more)
  {
    hide EndsHeader, IsHeader, NoHeaderIn;
    count, rest := ReadByte(k, fd, header, length);
    LeftAgain(base, fd, before, rest);
    more, complete := piece, false;
    if count > 0 {
      GrowPiece(stream, piece, before, header[length], rest);
      more := piece + [header[length]];
      assert header[..length] == piece;
      assert header[..length + 1] == more;
      complete := SeesEnd(header, length + 1, more);
    }
  }

  method ReadByte(k: Kernel, fd: int, header: array<char>, at: nat) returns (count: int, ghost rest: string)
    requires fd in k.fds && at < header.Length
    modifies k`fds, k`failures, header
    ensures k.fds == Left(old(k.fds), fd, rest) && count <= 1
    ensures k.failures == old(k.failures) + if count < 0 then 1 else 0
    ensures count > 0 ==> old(k.fds)[fd].pending == [header[at]] + rest
    ensures count <= 0 ==> rest == old(k.fds)[fd].pending
    ensures count == 0 ==> rest == ""
    ensures forall i :: 0 <= i < header.Length && (i != at || count <= 0) ==> header[i] == old(header[i])
  {
    count := k.Read(fd, header, at, 1);
    rest := k.fds[fd].pending;
    assert count > 0 ==> header[at..at + 1] == [header[at]];
  }

  lemma GrowPiece(stream: string, piece: string, before: string, c: char, rest: string)
    requires stream == piece + before && before == [c] + rest && NoHeaderIn(piece)
    ensures stream == (piece + [c]) + rest
    ensures if EndsHeader(piece + [c]) then IsHeader(piece + [c]) else NoHeaderIn(piece + [c])
  {
    var more := piece + [c];
    assert forall j :: 0 <= j <= |piece| ==> more[..j] == piece[..j];
    assert more[..|more|] == more;
  }

  method SeesEnd(header: array<char>, length: nat, ghost piece: string) returns (complete: bool)
    requires length <= header.Length && header[..length] == piece
    ensures complete <==> EndsHeader(piece)
  {
    complete := length >= 4 && header[length - 4] == '\r' && header[length - 3] == '\n' &&
                header[length - 2] == '\r' && header[length - 1] == '\n';
    assert complete ==> piece[|piece| - 4..] == "\r\n\r\n";
  }

  // header[length] = '\0' and the status check.
  method StatusOfBuffer(header: array<char>, length: nat, ghost piece: string) returns (ok: bool)
    requires length < header.Length && header[..length] == piece
    modifies header
    ensures header[..length + 1] == piece + [NUL]
    ensures ok <==> StatusOk(CString(piece))
  {
    header[length] := NUL;
    assert header[..length + 1] == piece + [NUL];
    ghost var n := |CString(piece)|;
    StringInBuffer(header[..], piece);
    ok := HttpStatusOk(header[..], n);
  }

  // A header may hold a NUL of its own; the string functions stop there.
  lemma StringInBuffer(mem: seq<char>, piece: string)
    requires |piece| < |mem| && mem[..|piece| + 1] == piece + [NUL]
    ensures Terminated(mem, |CString(piece)|) && mem[..|CString(piece)|] == CString(piece)
  {
    CStringPrefix(piece);
    var n := |CString(piece)|;
    assert mem[..|piece| + 1][..n] == mem[..n];
    assert mem[..|piece| + 1][n] == mem[n];
  }
}
