// user_elf of scripts/test-packages.py: walk an uncompressed newc CPIO archive and find the
// user program of the rootfs.
module Cpio {
  import opened Text
  import Numerals

  const HEADER: nat := 110
  const FIELD: nat := 8

  function Align4(x: nat): (y: nat)
    ensures x <= y < x + 4 && y % 4 == 0
  {
    (x + 3) / 4 * 4
  }

  // ---- Hexadecimal fields ----------------------------------------------------------------------

  predicate IsHexDigit(c: char) { '0' <= c <= '9' || 'a' <= c <= 'f' || 'A' <= c <= 'F' }

  function HexDigit(c: char): (d: nat)
    requires IsHexDigit(c)
    ensures d < 16 && (c == "0123456789abcdef"[d] || c == "0123456789ABCDEF"[d])
  {
    if c <= '9' then c as int - '0' as int
    else if c <= 'F' then c as int - 'A' as int + 10
    else c as int - 'a' as int + 10
  }

  lemma HexDigits(c: char)
    ensures IsHexDigit(c) <==> c in "0123456789abcdefABCDEF"
  {
    var all := "0123456789abcdefABCDEF";
    assert all[0] == '0' && all[1] == '1' && all[2] == '2' && all[3] == '3' && all[4] == '4' && all[5] == '5';
    assert all[6] == '6' && all[7] == '7' && all[8] == '8' && all[9] == '9' && all[10] == 'a' && all[11] == 'b';
    assert all[12] == 'c' && all[13] == 'd' && all[14] == 'e' && all[15] == 'f' && all[16] == 'A' && all[17] == 'B';
    assert all[18] == 'C' && all[19] == 'D' && all[20] == 'E' && all[21] == 'F';
  }

  predicate IsHex(s: string) {
    forall i :: 0 <= i < |s| ==> IsHexDigit(s[i])
  }

  function HexValue(s: string): nat
    requires IsHex(s)
  {
    if s == "" then 0 else 16 * HexValue(s[..|s| - 1]) + HexDigit(s[|s| - 1])
  }

  function HexChar(d: nat): (c: char)
    requires d < 16
    ensures IsHexDigit(c) && HexDigit(c) == d
  {
    if d < 10 then ('0' as int + d) as char else ('A' as int + d - 10) as char
  }

  // n in k upper-case hexadecimal digits, as archivers write it.
  function HexText(n: nat, k: nat): (s: string)
    ensures |s| == k
  {
    if k == 0 then "" else HexText(n / 16, k - 1) + [HexChar(n % 16)]
  }

  function Pow16(k: nat): nat {
    if k == 0 then 1 else 16 * Pow16(k - 1)
  }

  lemma {:induction false} HexReadsBack(n: nat, k: nat)
    requires n < Pow16(k)
    ensures IsHex(HexText(n, k)) && HexValue(HexText(n, k)) == n
  {
    if k > 0 {
      HexReadsBack(n / 16, k - 1);
      assert HexText(n, k)[..k - 1] == HexText(n / 16, k - 1);
    }
  }

  // ---- What is done with one record ----------------------------------------------------------------

  datatype Elf = Elf(path: string, bits: nat, flags: nat)

  datatype Error = NotNewc | BadField | HasModules | WrongArchitecture | WrongFloat | TooShort | NoElf

  datatype Result = Ok(elf: Elf) | Err(error: Error)

  // tiny selects the tiny_shell variant; bits is 32 or 64.
  datatype Target = Target(tiny: bool, bits: nat)

  function Wanted(t: Target): set<string> {
    if t.tiny then {"init"} else {"bin/busybox", "usr/bin/busybox"}
  }

  function DropSlashes(s: string): string {
    if s != "" && s[0] == '/' then DropSlashes(s[1..]) else s
  }

  function Normal(name: string): string {
    DropSlashes(if "./" <= name then name[2..] else name)
  }

  function Little(s: string): nat {
    if s == "" then 0 else s[0] as int + 256 * Little(s[1..])
  }

  datatype Action = Skip | Stop | Reject(error: Error) | Found(elf: Elf)

  function Consider(name: string, body: string, t: Target): Action {
    var path := Normal(name);
    if "lib/modules/" <= path || "usr/lib/modules/" <= path then Reject(HasModules)
    else if path == "TRAILER!!!" then Stop
    else if path in Wanted(t) && "\U{7f}ELF" <= body then Examine(path, body, t)
    else Skip
  }

  // The checks of the ELF header, each of which needs the bytes it looks at to be there.
  function Examine(path: string, body: string, t: Target): Action {
    var at := if t.bits == 32 then 36 else 48;
    if |body| < 5 then Reject(TooShort)
    else if body[4] as int != (if t.bits == 32 then 1 else 2) then Reject(WrongArchitecture)
    else if |body| < 20 then Reject(TooShort)
    else if Little(body[18..20]) != 243 then Reject(WrongArchitecture)
    else if |body| < at + 4 then Reject(TooShort)
    else
      var flags := Little(body[at..at + 4]);
      if flags / 2 % 4 * 2 != (if t.tiny then 0 else 4) then Reject(WrongFloat)
      else Found(Elf(path, t.bits, flags))
  }

  function Conclude(found: Option<Elf>): Result {
    if found.Some? then Ok(found.value) else Err(NoElf)
  }

  // ---- Reading one record ----------------------------------------------------------------------------

  // Python's data[a:b], which cuts both ends to the data.
  function Slice(data: string, a: nat, b: nat): string {
    var to := if b < |data| then b else |data|;
    if a <= to then data[a..to] else ""
  }

  datatype Read = Bad(error: Error) | Item(name: string, body: string, next: nat)

  function ReadRecord(data: string, offset: nat): (r: Read)
    requires offset + HEADER <= |data|
    ensures r.Item? ==> r.next > offset && r.next % 4 == 0
  {
    if data[offset..offset + 6] != "070701" && data[offset..offset + 6] != "070702" then Bad(NotNewc)
    else
      var sizeField, nameField := data[offset + 54..offset + 62], data[offset + 94..offset + 102];
      if !IsHex(sizeField) || !IsHex(nameField) then Bad(BadField)
      else CutRecord(data, offset, HexValue(nameField), HexValue(sizeField))
  }

  function CutRecord(data: string, offset: nat, nameSize: nat, size: nat): (r: Read)
    ensures r.Item? && r.next > offset && r.next % 4 == 0
  {
    var start := Align4(offset + HEADER + nameSize);
    var name := if nameSize == 0 then "" else Slice(data, offset + HEADER, offset + HEADER + nameSize - 1);
    Item(name, Slice(data, start, start + size), Align4(start + size))
  }

  // Python's slice: what there is of data from a to b.
  lemma SliceIs(data: string, a: nat, b: nat)
    ensures var s := Slice(data, a, b);
            && (forall i :: 0 <= i < |s| ==> a + i < |data| && a + i < b && s[i] == data[a + i])
            && (a + |s| >= b || a + |s| >= |data|)
  {
  }

  lemma HexFields(data: string, offset: nat)
    requires offset + HEADER <= |data|
    ensures IsHex(data[offset + 54..offset + 62]) && IsHex(data[offset + 94..offset + 102]) <==>
            forall i :: offset + 54 <= i < offset + 62 || offset + 94 <= i < offset + 102 ==>
              data[i] in "0123456789abcdefABCDEF"
  {
    forall c ensures IsHexDigit(c) <==> c in "0123456789abcdefABCDEF" {
      HexDigits(c);
    }
    var size, name := data[offset + 54..offset + 62], data[offset + 94..offset + 102];
    assert forall i :: offset + 54 <= i < offset + 62 ==> data[i] == size[i - (offset + 54)];
    assert forall i :: offset + 94 <= i < offset + 102 ==> data[i] == name[i - (offset + 94)];
  }

  // A record is read exactly when it begins with one of the two magics and both sizes are
  // hexadecimal digits.
  lemma ReadExactly(data: string, offset: nat)
    requires offset + HEADER <= |data|
    ensures ReadRecord(data, offset).Item? <==>
              && (data[offset..offset + 6] == "070701" || data[offset..offset + 6] == "070702")
              && (forall i :: offset + 54 <= i < offset + 62 || offset + 94 <= i < offset + 102 ==>
                    data[i] in "0123456789abcdefABCDEF")
  {
    hide IsHex, HexValue, CutRecord;
    HexFields(data, offset);
  }

  // What a walk does with the name and body of a record.
  type Judge = (string, string) -> Action

  function JudgeFor(t: Target): Judge {
    (name, body) => Consider(name, body, t)
  }

  // The rest of the walk from offset, with what was found before it.
  function Walk(data: string, offset: nat, found: Option<Elf>, judge: Judge): Result
    decreases |data| - offset
  {
    if offset + HEADER > |data| then Conclude(found)
    else
      match ReadRecord(data, offset)
      case Bad(error) => Err(error)
      case Item(name, body, next) =>
        match judge(name, body)
        case Reject(error) => Err(error)
        case Stop => Conclude(found)
        case Found(elf) => Walk(data, next, Some(elf), judge)
        case Skip => Walk(data, next, found, judge)
  }

  method UserElf(data: string, t: Target) returns (result: Result)
    ensures result == Walk(data, 0, None, JudgeFor(t))
  {
    var offset := 0;
    var found: Option<Elf> := None;
    while offset + HEADER <= |data|
      invariant offset % 4 == 0
      invariant Walk(data, offset, found, JudgeFor(t)) == Walk(data, 0, None, JudgeFor(t))
      decreases |data| - offset
    {
      var record := ReadRecord(data, offset);
      if record.Bad? {
        return Err(record.error);
      }
      var action := JudgeFor(t)(record.name, record.body);
      offset := record.next;
      match action {
        case Reject(error) => return Err(error);
        case Stop => return Conclude(found);
        case Found(elf) => found := Some(elf);
        case Skip =>
      }
    }
    result := Conclude(found);
  }

  // ---- Archives ------------------------------------------------------------------------------------------

  // A record as an archiver lays it out. The walk looks at the magic, two of the thirteen
  // fields, the name and the body; the other fields may hold anything.
  datatype Record = Record(magic: string, fields0: string, sizeField: string, fields1: string,
                           nameField: string, field2: string, name: string, body: string)

  ghost predicate WellFormed(r: Record) {
    && (r.magic == "070701" || r.magic == "070702")
    && |r.fields0| == 48 && |r.fields1| == 32 && |r.field2| == 8
    && |r.sizeField| == 8 && IsHex(r.sizeField) && HexValue(r.sizeField) == |r.body|
    && |r.nameField| == 8 && IsHex(r.nameField) && HexValue(r.nameField) == |r.name| + 1
  }

  function Padding(n: nat): string {
    seq(Align4(n) - n, _ => NUL)
  }

  function Header(r: Record): string {
    r.magic + r.fields0 + r.sizeField + r.fields1 + r.nameField + r.field2
  }

  // The record r, followed by after.
  function Layout(r: Record, after: string): string {
    Header(r) + (r.name + (NameTail(r) + (r.body + (Padding(|r.body|) + after))))
  }

  function NameTail(r: Record): string {
    [NUL] + Padding(HEADER + |r.name| + 1)
  }

  function Size(r: Record): nat {
    Align4(HEADER + |r.name| + 1) + Align4(|r.body|)
  }

  // All the records, followed by rest.
  function Archive(records: seq<Record>, rest: string): string {
    if records == [] then rest else Layout(records[0], Archive(records[1..], rest))
  }

  // What archivers write fits any name and body whose size has eight hexadecimal digits.
  lemma WrittenFieldsAreWellFormed(r: Record)
    requires r.magic == "070701" || r.magic == "070702"
    requires |r.fields0| == 48 && |r.fields1| == 32 && |r.field2| == 8
    requires |r.body| < Pow16(FIELD) && r.sizeField == HexText(|r.body|, FIELD)
    requires |r.name| + 1 < Pow16(FIELD) && r.nameField == HexText(|r.name| + 1, FIELD)
    ensures WellFormed(r)
  {
    HexReadsBack(|r.body|, FIELD);
    HexReadsBack(|r.name| + 1, FIELD);
  }

  lemma Part(data: string, at: nat, part: string, tail: string)
    requires at <= |data| && data[at..] == part + tail
    ensures at + |part| <= |data| && data[at..at + |part|] == part && data[at + |part|..] == tail
  {
    assert (part + tail)[..|part|] == part && (part + tail)[|part|..] == tail;
    assert data[at..][..|part|] == data[at..at + |part|];
    assert data[at..][|part|..] == data[at + |part|..];
  }

  lemma Within(data: string, at: nat, n: nat, i: nat, j: nat)
    requires i <= j <= n && at + n <= |data|
    ensures data[at + i..at + j] == data[at..at + n][i..j]
  {
    var d := data[at..at + n];
    assert forall k :: 0 <= k < j - i ==> d[i..j][k] == data[at + i + k];
  }

  lemma HeaderFields(r: Record)
    requires WellFormed(r)
    ensures var h := Header(r);
            |h| == HEADER && h[0..6] == r.magic && h[54..62] == r.sizeField && h[94..102] == r.nameField
  {
  }

  lemma AlignShift(base: nat, x: nat)
    requires base % 4 == 0
    ensures Align4(base + x) == base + Align4(x)
  {
  }

  // The parts of a record stand where a reader at offset at looks for them.
  ghost predicate StandsAt(data: string, at: nat, r: Record) {
    && at + HEADER <= |data| && data[at..at + 6] == r.magic
    && data[at + 54..at + 62] == r.sizeField && data[at + 94..at + 102] == r.nameField
    && BodyStandsAt(data, at, r)
  }

  ghost predicate BodyStandsAt(data: string, at: nat, r: Record) {
    var name, body := at + HEADER, at + Align4(HEADER + |r.name| + 1);
    && name + |r.name| <= |data| && data[name..name + |r.name|] == r.name
    && body + |r.body| <= |data| && data[body..body + |r.body|] == r.body
    && at + Size(r) <= |data|
  }

  lemma LayoutStands(data: string, at: nat, r: Record, after: string)
    requires WellFormed(r) && at <= |data| && data[at..] == Layout(r, after)
    ensures StandsAt(data, at, r) && at + Size(r) <= |data| && data[at + Size(r)..] == after
  {
    HeaderFields(r);
    var tail := r.name + (NameTail(r) + (r.body + (Padding(|r.body|) + after)));
    Part(data, at, Header(r), tail);
    Within(data, at, HEADER, 0, 6);
    Within(data, at, HEADER, 54, 62);
    Within(data, at, HEADER, 94, 102);
    BodyStands(data, at, r, after);
  }

  lemma BodyStands(data: string, at: nat, r: Record, after: string)
    requires at + HEADER <= |data|
    requires data[at + HEADER..] == r.name + (NameTail(r) + (r.body + (Padding(|r.body|) + after)))
    ensures BodyStandsAt(data, at, r) && data[at + Size(r)..] == after
  {
    var tail4 := Padding(|r.body|) + after;
    var tail3 := r.body + tail4;
    Part(data, at + HEADER, r.name, NameTail(r) + tail3);
    Part(data, at + HEADER + |r.name|, NameTail(r), tail3);
    var body := at + Align4(HEADER + |r.name| + 1);
    Part(data, body, r.body, tail4);
    Part(data, body + |r.body|, Padding(|r.body|), after);
  }

  // CutRecord, given where the parts stand.
  lemma CutFromParts(data: string, at: nat, r: Record)
    requires at % 4 == 0 && BodyStandsAt(data, at, r)
    ensures CutRecord(data, at, |r.name| + 1, |r.body|) == Item(r.name, r.body, at + Size(r))
  {
    AlignShift(at, HEADER + |r.name| + 1);
    AlignShift(at + Align4(HEADER + |r.name| + 1), |r.body|);
  }

  // A record that stands at a multiple of four is read back whole, and the walk goes on
  // where the next one begins.
  lemma RecordReadsBack(data: string, at: nat, r: Record)
    requires WellFormed(r) && at % 4 == 0 && StandsAt(data, at, r)
    ensures at + HEADER <= |data| && ReadRecord(data, at) == Item(r.name, r.body, at + Size(r)) && Size(r) % 4 == 0
  {
    hide ReadRecord, CutRecord, HexValue, WellFormed, BodyStandsAt;
    FieldsRead(data, at, r);
    CutFromParts(data, at, r);
  }

  // The two sizes are read from where the header puts them.
  lemma FieldsRead(data: string, at: nat, r: Record)
    requires WellFormed(r) && at + HEADER <= |data| && data[at..at + 6] == r.magic
    requires data[at + 54..at + 62] == r.sizeField && data[at + 94..at + 102] == r.nameField
    ensures ReadRecord(data, at) == CutRecord(data, at, |r.name| + 1, |r.body|)
  {
    hide HexValue, CutRecord;
  }

  // ---- The walk inverts the archive ------------------------------------------------------------------------

  // The records stand one after another from at on, the trailer behind them.
  ghost predicate Standing(data: string, at: nat, records: seq<Record>, trailer: Record)
    decreases |records|
  {
    if records == [] then StandsAt(data, at, trailer)
    else StandsAt(data, at, records[0]) && Standing(data, at + Size(records[0]), records[1..], trailer)
  }

  lemma {:induction false} ArchiveStands(data: string, at: nat, records: seq<Record>, trailer: Record, rest: string)
    requires at <= |data| && data[at..] == Archive(records, Layout(trailer, rest))
    requires WellFormed(trailer) && forall k :: 0 <= k < |records| ==> WellFormed(records[k])
    ensures Standing(data, at, records, trailer)
    decreases |records|
  {
    hide StandsAt, Layout, WellFormed, Size;
    if records == [] {
      LayoutStands(data, at, trailer, rest);
    } else {
      LayoutStands(data, at, records[0], Archive(records[1..], Layout(trailer, rest)));
      ArchiveStands(data, at + Size(records[0]), records[1..], trailer, rest);
    }
  }

  // The same decisions taken over the records themselves.
  function Decide(records: seq<Record>, found: Option<Elf>, judge: Judge): Result {
    if records == [] then Conclude(found)
    else
      match judge(records[0].name, records[0].body)
      case Reject(error) => Err(error)
      case Stop => Conclude(found)
      case Found(elf) => Decide(records[1..], Some(elf), judge)
      case Skip => Decide(records[1..], found, judge)
  }

  // Whatever follows the record the walk stops at, it sees exactly the records before it, in
  // order, with their names and bodies.
  lemma {:induction false} WalkSeesRecords(data: string, at: nat, records: seq<Record>, trailer: Record,
                                           found: Option<Elf>, judge: Judge)
    requires at % 4 == 0 && Standing(data, at, records, trailer)
    requires WellFormed(trailer) && judge(trailer.name, trailer.body).Stop?
    requires forall k :: 0 <= k < |records| ==> WellFormed(records[k])
    ensures Walk(data, at, found, judge) == Decide(records, found, judge)
    decreases |records|
  {
    hide ReadRecord, StandsAt, WellFormed, Size;
    if records == [] {
      RecordReadsBack(data, at, trailer);
    } else {
      var first, more := records[0], records[1..];
      RecordReadsBack(data, at, first);
      match judge(first.name, first.body) {
        case Found(elf) => WalkSeesRecords(data, at + Size(first), more, trailer, Some(elf), judge);
        case Skip => WalkSeesRecords(data, at + Size(first), more, trailer, found, judge);
        case _ =>
      }
    }
  }

  ghost predicate IsTrailer(r: Record) {
    WellFormed(r) && Names(r.name, "TRAILER!!!")
  }

  lemma TrailerStops(r: Record, t: Target)
    requires IsTrailer(r)
    ensures JudgeFor(t)(r.name, r.body) == Stop
  {
    NormalNames(r.name, "TRAILER!!!");
    hide Names;
    assert "TRAILER!!!"[0] != "lib/modules/"[0] && "TRAILER!!!"[0] != "usr/lib/modules/"[0];
  }

  // The whole of user_elf on a whole archive.
  lemma UserElfOfArchive(records: seq<Record>, trailer: Record, rest: string, t: Target)
    requires IsTrailer(trailer)
    requires forall k :: 0 <= k < |records| ==> WellFormed(records[k])
    ensures Walk(Archive(records, Layout(trailer, rest)), 0, None, JudgeFor(t)) == Decide(records, None, JudgeFor(t))
  {
    var data := Archive(records, Layout(trailer, rest));
    TrailerStops(trailer, t);
    assert data[0..] == data;
    ArchiveStands(data, 0, records, trailer, rest);
    WalkSeesRecords(data, 0, records, trailer, None, JudgeFor(t));
  }

  // The last program found, when nothing on the way is refused.
  function LastFound(records: seq<Record>, judge: Judge): Option<Elf> {
    if records == [] then None
    else
      var r := records[|records| - 1];
      var action := judge(r.name, r.body);
      if action.Found? then Some(action.elf) else LastFound(records[..|records| - 1], judge)
  }

  ghost predicate Passes(r: Record, judge: Judge) {
    judge(r.name, r.body).Found? || judge(r.name, r.body).Skip?
  }

  lemma {:induction false} DecideIsLast(records: seq<Record>, found: Option<Elf>, judge: Judge)
    requires forall k :: 0 <= k < |records| ==> Passes(records[k], judge)
    ensures Decide(records, found, judge) ==
            var last := LastFound(records, judge); Conclude(if last.Some? then last else found)
  {
    if records != [] {
      var first, more := records[0], records[1..];
      assert Passes(first, judge);
      var action := judge(first.name, first.body);
      DecideIsLast(more, if action.Found? then Some(action.elf) else found, judge);
      LastFoundSplit(first, more, judge);
      assert records == [first] + more;
    }
  }

  lemma {:induction false} LastFoundSplit(first: Record, more: seq<Record>, judge: Judge)
    ensures var last, action := LastFound(more, judge), judge(first.name, first.body);
            LastFound([first] + more, judge) ==
            if last.Some? then last else if action.Found? then Some(action.elf) else None
  {
    var all := [first] + more;
    if more == [] {
      assert all[..0] == [] && all == [first];
    } else {
      assert all[..|all| - 1] == [first] + more[..|more| - 1];
      LastFoundSplit(first, more[..|more| - 1], judge);
    }
  }

  // One refused record refuses the archive, whatever was found before or stands after.
  lemma {:induction false} RefusedRecordRefuses(records: seq<Record>, k: nat, found: Option<Elf>, judge: Judge)
    requires k < |records| && judge(records[k].name, records[k].body).Reject?
    requires forall j :: 0 <= j < k ==> Passes(records[j], judge)
    ensures Decide(records, found, judge) == Err(judge(records[k].name, records[k].body).error)
  {
    if k > 0 {
      assert Passes(records[0], judge);
      var action := judge(records[0].name, records[0].body);
      RefusedRecordRefuses(records[1..], k - 1, if action.Found? then Some(action.elf) else found, judge);
    }
  }

  // ---- What user_elf accepts, byte for byte ----------------------------------------------------------------

  // name is path behind an optional "./" and any number of slashes.
  ghost predicate Names(name: string, path: string) {
    exists lead :: Leads(name, lead, path)
  }

  ghost predicate Leads(name: string, lead: string, path: string) {
    && name == lead + path && (path != "" ==> path[0] != '/')
    && if "./" <= name then "./" <= lead && forall i :: 2 <= i < |lead| ==> lead[i] == '/'
       else forall i :: 0 <= i < |lead| ==> lead[i] == '/'
  }

  lemma {:induction false} SlashesDropped(s: string) returns (n: nat)
    ensures n <= |s| && DropSlashes(s) == s[n..] && (forall i :: 0 <= i < n ==> s[i] == '/')
    ensures n < |s| ==> s[n] != '/'
  {
    n := 0;
    if s != "" && s[0] == '/' {
      n := SlashesDropped(s[1..]);
      assert s[1..][n..] == s[n + 1..];
      assert forall i :: 0 < i < n + 1 ==> s[i] == s[1..][i - 1];
      n := n + 1;
    }
  }

  lemma {:induction false} SlashesAre(lead: string, path: string)
    requires (forall i :: 0 <= i < |lead| ==> lead[i] == '/') && (path != "" ==> path[0] != '/')
    ensures DropSlashes(lead + path) == path
  {
    if lead == "" {
      assert lead + path == path;
    } else {
      SlashesAre(lead[1..], path);
      assert (lead + path)[1..] == lead[1..] + path;
    }
  }

  lemma NormalNames(name: string, path: string)
    ensures Names(name, path) <==> Normal(name) == path
  {
    var stem := if "./" <= name then name[2..] else name;
    if Normal(name) == path {
      var n := SlashesDropped(stem);
      var lead := name[..|name| - |path|];
      assert name == lead + path;
      assert "./" <= name ==> lead[..2] == "./";
      assert Leads(name, lead, path);
    }
    forall lead | Leads(name, lead, path) ensures Normal(name) == path {
      if "./" <= name {
        assert name[2..] == lead[2..] + path;
        SlashesAre(lead[2..], path);
      } else {
        SlashesAre(lead, path);
      }
    }
  }

  ghost predicate IsModule(r: Record) {
    exists path :: Names(r.name, path) && ("lib/modules/" <= path || "usr/lib/modules/" <= path)
  }

  // A record with a wanted name that holds an ELF file.
  ghost predicate IsProgram(r: Record, t: Target) {
    && (if t.tiny then Names(r.name, "init") else Names(r.name, "bin/busybox") || Names(r.name, "usr/bin/busybox"))
    && |r.body| >= 4 && r.body[0] as int == 0x7f && r.body[1] == 'E' && r.body[2] == 'L' && r.body[3] == 'F'
  }

  // A RISC-V program of the width, with double-precision floats in registers for Buildroot
  // and none for the tiny shell.
  ghost predicate IsRight(body: string, t: Target) {
    var at := if t.bits == 32 then 36 else 48;
    && |body| >= at + 4
    && body[4] as int == (if t.bits == 32 then 1 else 2)
    && body[18] as int == 0xf3 && body[19] as int == 0
    && body[at] as int / 2 % 2 == 0 && body[at] as int / 4 % 2 == if t.tiny then 0 else 1
  }

  ghost function FlagsAt(body: string, at: nat): nat
    requires at + 4 <= |body|
  {
    body[at] as int + body[at + 1] as int * 0x100 + body[at + 2] as int * 0x1_0000 + body[at + 3] as int * 0x100_0000
  }

  // elf describes the program in the record.
  ghost predicate Describes(elf: Elf, r: Record, t: Target)
    requires IsRight(r.body, t)
  {
    Names(r.name, elf.path) && elf.bits == t.bits && elf.flags == FlagsAt(r.body, if t.bits == 32 then 36 else 48)
  }

  lemma LittleOfTwo(s: string)
    requires |s| == 2
    ensures Little(s) == 243 <==> s[0] as int == 0xf3 && s[1] as int == 0
  {
    assert s[1..][1..] == "";
    assert Little(s[1..]) == s[1] as int;
  }

  lemma LittleOfFour(body: string, at: nat)
    requires at + 4 <= |body|
    ensures Little(body[at..at + 4]) == FlagsAt(body, at)
  {
    var s := body[at..at + 4];
    assert s[1..][1..] == s[2..] && s[2..][1..] == s[3..] && s[3..][1..] == "";
    assert Little("") == 0;
    assert Little(s[3..]) == s[3] as int;
    assert Little(s[2..]) == s[2] as int + 0x100 * Little(s[3..]);
    assert Little(s[1..]) == s[1] as int + 0x100 * Little(s[2..]);
    assert Little(s) == s[0] as int + 0x100 * Little(s[1..]);
  }

  lemma LowBits(x: nat, q: nat, b: nat)
    requires x == 8 * q + b && b < 8
    ensures x / 2 % 4 == b / 2 && x / 2 % 2 == b / 2 % 2 && x / 4 % 2 == b / 4
  {
    Numerals.Quotient(x / 2, 4, q, b / 2);
    Numerals.Quotient(x / 2, 2, 2 * q + b / 2 / 2, b / 2 % 2);
    Numerals.Quotient(x / 4, 2, q, b / 4);
  }

  lemma FloatBits(flags: nat, low: nat, high: nat)
    requires flags == low + 0x100 * high
    ensures flags / 2 % 4 * 2 == 0 <==> low / 2 % 2 == 0 && low / 4 % 2 == 0
    ensures flags / 2 % 4 * 2 == 4 <==> low / 2 % 2 == 0 && low / 4 % 2 == 1
  {
    LowBits(low, low / 8, low % 8);
    LowBits(flags, low / 8 + 32 * high, low % 8);
  }

  lemma ExaminedExactly(path: string, body: string, t: Target)
    ensures Examine(path, body, t).Found? <==> IsRight(body, t)
    ensures IsRight(body, t) ==> Examine(path, body, t) == Found(Elf(path, t.bits, FlagsAt(body, if t.bits == 32 then 36 else 48)))
    ensures Examine(path, body, t).Found? || Examine(path, body, t).Reject?
  {
    hide Little;
    var at := if t.bits == 32 then 36 else 48;
    if |body| >= 20 {
      LittleOfTwo(body[18..20]);
    }
    if |body| >= at + 4 {
      LittleOfFour(body, at);
      FloatBits(FlagsAt(body, at), body[at] as int,
                body[at + 1] as int + body[at + 2] as int * 0x100 + body[at + 3] as int * 0x1_0000);
    }
  }

  lemma ConsideredExactly(r: Record, t: Target)
    requires !Names(r.name, "TRAILER!!!")
    ensures var action := JudgeFor(t)(r.name, r.body);
            if IsModule(r) then action.Reject?
            else if !IsProgram(r, t) then action == Skip
            else if !IsRight(r.body, t) then action.Reject?
            else action.Found? && Describes(action.elf, r, t)
  {
    var path := Normal(r.name);
    NormalNames(r.name, path);
    NormalNames(r.name, "TRAILER!!!");
    NormalNames(r.name, "init");
    NormalNames(r.name, "bin/busybox");
    NormalNames(r.name, "usr/bin/busybox");
    ExaminedExactly(path, r.body, t);
    ModuleIs(r, path);
    MagicIs(r.body);
    hide Examine, IsRight, Names, IsModule, Normal;
  }

  lemma ModuleIs(r: Record, path: string)
    requires path == Normal(r.name)
    ensures IsModule(r) <==> "lib/modules/" <= path || "usr/lib/modules/" <= path
  {
    hide Normal, Names;
    forall other | Names(r.name, other) ensures other == path {
      NormalNames(r.name, other);
    }
    NormalNames(r.name, path);
  }

  lemma MagicIs(body: string)
    ensures "\U{7f}ELF" <= body <==>
            |body| >= 4 && body[0] as int == 0x7f && body[1] == 'E' && body[2] == 'L' && body[3] == 'F'
  {
  }

  ghost predicate IsLastProgram(records: seq<Record>, k: nat, t: Target)
    requires k < |records|
  {
    && IsProgram(records[k], t) && IsRight(records[k].body, t)
    && forall j :: k < j < |records| ==> !IsProgram(records[j], t)
  }

  ghost predicate LastIs(records: seq<Record>, t: Target, elf: Elf) {
    exists k :: 0 <= k < |records| && IsLastProgram(records, k, t) && Describes(elf, records[k], t)
  }

  ghost predicate IsRefused(r: Record, t: Target) {
    IsModule(r) || (IsProgram(r, t) && !IsRight(r.body, t))
  }

  // Nothing in the archive is refused, and elf describes the last program in it.
  ghost predicate Audited(records: seq<Record>, t: Target, elf: Elf) {
    (forall k :: 0 <= k < |records| ==> !IsRefused(records[k], t)) && LastIs(records, t, elf)
  }

  lemma OneDescription(elf: Elf, other: Elf, r: Record, t: Target)
    requires IsRight(r.body, t) && Describes(elf, r, t) && Describes(other, r, t)
    ensures elf == other
  {
    NormalNames(r.name, elf.path);
    NormalNames(r.name, other.path);
  }

  lemma {:induction false} LastFoundIs(records: seq<Record>, t: Target, elf: Elf)
    requires forall k :: 0 <= k < |records| ==> !Names(records[k].name, "TRAILER!!!") && !IsRefused(records[k], t)
    ensures LastFound(records, JudgeFor(t)) == Some(elf) <==> LastIs(records, t, elf)
  {
    hide IsModule, IsProgram, IsRight, Names, Describes;
    if records != [] {
      var init, r := records[..|records| - 1], records[|records| - 1];
      ConsideredExactly(r, t);
      var action := JudgeFor(t)(r.name, r.body);
      if IsProgram(r, t) {
        assert IsLastProgram(records, |records| - 1, t);
        if LastIs(records, t, elf) {
          OneDescription(elf, action.elf, r, t);
        }
      } else {
        LastFoundIs(init, t, elf);
        LastOfInit(records, t, elf);
      }
    }
  }

  lemma LastOfInit(records: seq<Record>, t: Target, elf: Elf)
    requires records != [] && !IsProgram(records[|records| - 1], t)
    ensures LastIs(records, t, elf) <==> LastIs(records[..|records| - 1], t, elf)
  {
    hide IsProgram, IsRight, Describes;
    var init := records[..|records| - 1];
    forall k | 0 <= k < |init| ensures IsLastProgram(init, k, t) <==> IsLastProgram(records, k, t) {
      assert forall j :: k < j < |init| ==> init[j] == records[j];
    }
    if k :| 0 <= k < |records| && IsLastProgram(records, k, t) && Describes(elf, records[k], t) {
      assert k < |init| && init[k] == records[k];
      assert IsLastProgram(init, k, t) && Describes(elf, init[k], t);
    }
    if k :| 0 <= k < |init| && IsLastProgram(init, k, t) && Describes(elf, init[k], t) {
      assert init[k] == records[k];
      assert IsLastProgram(records, k, t);
    }
  }

  // The first record that is refused, if there is one.
  lemma FirstRefused(records: seq<Record>, t: Target) returns (k: nat)
    ensures k <= |records| && forall j :: 0 <= j < k ==> !IsRefused(records[j], t)
    ensures k < |records| ==> IsRefused(records[k], t)
  {
    k := 0;
    while k < |records| && !IsRefused(records[k], t)
      invariant k <= |records| && forall j :: 0 <= j < k ==> !IsRefused(records[j], t)
    {
      k := k + 1;
    }
  }

  // user_elf on a whole archive, byte for byte: it returns elf exactly when no record before
  // the trailer is refused and elf describes the last program among them.
  lemma UserElfExactly(records: seq<Record>, trailer: Record, rest: string, t: Target, elf: Elf)
    requires IsTrailer(trailer)
    requires forall k :: 0 <= k < |records| ==> WellFormed(records[k]) && !Names(records[k].name, "TRAILER!!!")
    ensures Walk(Archive(records, Layout(trailer, rest)), 0, None, JudgeFor(t)) == Ok(elf) <==>
            Audited(records, t, elf)
  {
    hide IsModule, IsProgram, IsRight, Names, Describes, WellFormed, LastIs;
    UserElfOfArchive(records, trailer, rest, t);
    var judge := JudgeFor(t);
    forall k | 0 <= k < |records|
      ensures if IsRefused(records[k], t) then judge(records[k].name, records[k].body).Reject? else Passes(records[k], judge)
    {
      ConsideredExactly(records[k], t);
    }
    var k := FirstRefused(records, t);
    if k < |records| {
      RefusedRecordRefuses(records, k, None, judge);
    } else {
      DecideIsLast(records, None, judge);
      LastFoundIs(records, t, elf);
    }
  }
}
