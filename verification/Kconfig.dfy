// Kernel configuration fragments: printed by scripts/gen-config.py, and read back line by
// line by the apply_kconfig_fragment recipe of the Makefile.
module Kconfig {
  import opened Text
  import opened Numerals

  datatype Value = Bool(b: bool) | Number(n: int) | Text(s: string)

  // ---- Printing -----------------------------------------------------------------------------------

  function FullKey(key: string): string {
    if "CONFIG_" <= key then key else "CONFIG_" + key
  }

  function IntText(n: int): string {
    if n < 0 then "-" + Decimal(-n) else Decimal(n)
  }

  function KconfigLine(key: string, value: Value): string {
    match value
    case Bool(b) => if b then FullKey(key) + "=y" else "# " + FullKey(key) + " is not set"
    case Number(n) => FullKey(key) + "=" + IntText(n)
    case Text(s) => FullKey(key) + "=" + "\"" + s + "\""
  }

  // A fragment is notes (comments and blank lines) and entries.
  datatype Item = Note(text: string) | Entry(key: string, value: Value)

  function ItemLine(item: Item): string {
    match item
    case Note(text) => text
    case Entry(key, value) => KconfigLine(key, value)
  }

  function ItemLines(items: seq<Item>): seq<string> {
    if items == [] then [] else ItemLines(items[..|items| - 1]) + [ItemLine(items[|items| - 1])]
  }

  // "\n".join(lines) + "\n"
  function FragmentText(items: seq<Item>): string {
    Join(ItemLines(items), '\n') + "\n"
  }

  type Entries = seq<(string, Value)>

  function EntryItems(entries: Entries): seq<Item> {
    if entries == [] then []
    else EntryItems(entries[..|entries| - 1]) + [Entry(entries[|entries| - 1].0, entries[|entries| - 1].1)]
  }

  // gen_variant_kernel_config
  method GenVariant(variant: string, entries: Entries) returns (items: seq<Item>)
    ensures items == VariantItems(variant, entries)
  {
    items := [Note("# Auto-generated " + variant + " kernel config \U{2014} DO NOT EDIT"),
              Note("# Source: system.toml [" + variant + ".kernel.config]"), Note("")];
    if entries != [] {
      items := AppendEntries(items, entries);
      items := items + [Note("")];
    }
  }

  method AppendEntries(start: seq<Item>, entries: Entries) returns (items: seq<Item>)
    ensures items == start + EntryItems(entries)
  {
    items := start;
    var i := 0;
    assert EntryItems(entries[..0]) == [];
    while i < |entries|
      invariant 0 <= i <= |entries| && items == start + EntryItems(entries[..i])
    {
      assert entries[..i + 1][..i] == entries[..i];
      items := items + [Entry(entries[i].0, entries[i].1)];
      i := i + 1;
    }
    assert entries[..i] == entries;
  }

  function VariantHead(variant: string): seq<Item> {
    [Note("# Auto-generated " + variant + " kernel config \U{2014} DO NOT EDIT"),
     Note("# Source: system.toml [" + variant + ".kernel.config]"), Note("")]
  }

  function VariantItems(variant: string, entries: Entries): seq<Item> {
    VariantHead(variant) + if entries == [] then [] else EntryItems(entries) + [Note("")]
  }

  const RV32: Entries := [("NONPORTABLE", Bool(true)), ("ARCH_RV64I", Bool(false)), ("ARCH_RV32I", Bool(true))]
  const ZSTD: Entries := [("RD_ZSTD", Bool(true)), ("INITRAMFS_COMPRESSION_ZSTD", Bool(true))]

  function Section(title: string, entries: Entries): seq<Item> {
    if entries == [] then [] else [Note(title)] + EntryItems(entries) + [Note("")]
  }

  // The longer lines are joined from short literals: a proof about the characters of a literal
  // reaches only so far into it.
  const SHARED_LINE := "# Auto-generated shared " + "kernel config \U{2014} DO NOT EDIT"
  const SOURCE_LINE := "# Source: system.toml  ->" + "  applied via scripts/config"
  const COMPRESSED_LINE := "# All supported RV32/RV64 " + "targets implement " + "compressed instructions."

  const COMPRESSED: Item := Entry("RISCV_ISA_C", Bool(true))

  const SHARED_HEAD: seq<Item> :=
    [Note(SHARED_LINE), Note(SOURCE_LINE), Note(""), Note(COMPRESSED_LINE), COMPRESSED, Note("")]

  const RV32_TITLE := "# --- RV32 arch " + "overrides ---"
  const ZSTD_TITLE := "# --- zstd compression ---"
  const USER_TITLE := "# --- User overrides from " + "[kernel.config] ---"

  function SharedItems(rv32: bool, zstd: bool, user: Entries): seq<Item> {
    SHARED_HEAD + Section(RV32_TITLE, if rv32 then RV32 else []) +
    Section(ZSTD_TITLE, if zstd then ZSTD else []) + Section(USER_TITLE, user)
  }

  // gen_kernel_config
  method GenShared(rv32: bool, zstd: bool, user: Entries) returns (items: seq<Item>)
    ensures items == SharedItems(rv32, zstd, user)
  {
    hide EntryItems;
    items := SHARED_HEAD;
    if rv32 {
      items := AppendSection(items, RV32_TITLE, RV32);
    }
    if zstd {
      items := AppendSection(items, ZSTD_TITLE, ZSTD);
    }
    if user != [] {
      items := AppendSection(items, USER_TITLE, user);
    }
  }

  method AppendSection(start: seq<Item>, title: string, entries: Entries) returns (items: seq<Item>)
    requires entries != []
    ensures items == start + Section(title, entries)
  {
    items := AppendEntries(start + [Note(title)], entries);
    items := items + [Note("")];
  }

  // ---- Reading --------------------------------------------------------------------------------------

  // What one line makes the recipe run: scripts/config with these words.
  datatype Edit = Nothing | Disable(words: seq<string>) | Enable(words: seq<string>) | SetVal(words: seq<string>)

  // Where the shell splits an unquoted expansion.
  const IFS: set<char> := {' ', '\t', '\n'}

  predicate IsKeyChar(c: char) {
    'A' <= c <= 'Z' || 'a' <= c <= 'z' || '0' <= c <= '9' || c == '_'
  }

  // A case pattern of the form head*tail.
  predicate Like(line: string, head: string, tail: string) {
    |head| + |tail| <= |line| && head <= line && line[|line| - |tail|..] == tail
  }

  function KeyRun(s: string): (k: nat)
    ensures k <= |s|
  {
    if s != "" && IsKeyChar(s[0]) then 1 + KeyRun(s[1..]) else 0
  }

  const NOT_SET: string := " is not set"

  // sed 's/^# \(CONFIG_[A-Za-z0-9_]*\) is not set/\1/' on a line that begins "# CONFIG_".
  function Unset(line: string): string
    requires "# CONFIG_" <= line
  {
    var end := 9 + KeyRun(line[9..]);
    if NOT_SET <= line[end..] then line[2..end] + line[end + |NOT_SET|..] else line
  }

  function WithoutQuotes(s: string): string {
    if s == "" then ""
    else WithoutQuotes(s[..|s| - 1]) + if s[|s| - 1] == '"' then "" else [s[|s| - 1]]
  }

  // The case statement. Pathname expansion and echo's treatment of backslashes are not part
  // of it.
  function EditOf(line: string): Edit {
    if Like(line, "# CONFIG_", NOT_SET) then Disable(Words(Unset(line), IFS))
    else if line == "" || "#" <= line then Nothing
    else if Like(line, "CONFIG_", "=y") then Enable(Words(line[..Find(line, '=')], IFS))
    else if "CONFIG_" <= line && Find(line, '=') < |line| then
      SetVal(Words(line[..Find(line, '=')], IFS) + Words(WithoutQuotes(line[Find(line, '=') + 1..]), IFS))
    else Nothing
  }

  // ---- One line reads back ------------------------------------------------------------------------------

  ghost predicate IsKey(key: string) {
    forall i :: 0 <= i < |key| ==> IsKeyChar(key[i])
  }

  // What the author of the entry means.
  function Intended(key: string, value: Value): Edit {
    match value
    case Bool(b) => if b then Enable([FullKey(key)]) else Disable([FullKey(key)])
    case Number(n) => SetVal([FullKey(key), IntText(n)])
    case Text(s) => SetVal([FullKey(key), s])
  }

  // What echo or pathname expansion may give a meaning of its own.
  const SPECIAL: set<char> := {'\\', '*', '?', '['}

  // A string survives the reader: nonempty, and nothing the shell, echo or tr would change.
  ghost predicate Plain(s: string) {
    s != "" && WithoutAny(s, {' ', '\t', '\n', '"', '\\', '*', '?', '['})
  }

  lemma OneWord(s: string, seps: set<char>)
    requires IsWord(s, seps)
    ensures Words(s, seps) == [s]
  {
    ScanRun("", s, seps);
    assert "" + s == s;
  }

  lemma FullKeyIsWord(key: string)
    requires IsKey(key)
    ensures IsKey(FullKey(key)) && "CONFIG_" <= FullKey(key) && IsWord(FullKey(key), IFS)
    ensures Words(FullKey(key), IFS) == [FullKey(key)]
  {
    var full := FullKey(key);
    assert IsKey("CONFIG_");
    assert forall i :: 0 <= i < |full| ==> IsKeyChar(full[i]);
    OneWord(full, IFS);
  }

  lemma {:induction false} KeyRunAt(key: string, rest: string)
    requires IsKey(key) && rest != "" && !IsKeyChar(rest[0])
    ensures KeyRun(key + rest) == |key|
  {
    if key == "" {
      assert key + rest == rest;
    } else {
      KeyRunAt(key[1..], rest);
      assert (key + rest)[1..] == key[1..] + rest;
    }
  }

  lemma {:induction false} NoQuotesToDrop(s: string)
    ensures Without(s, '"') ==> WithoutQuotes(s) == s
    ensures Without(WithoutQuotes(s), '"')
  {
    if s != "" {
      NoQuotesToDrop(s[..|s| - 1]);
      assert s == s[..|s| - 1] + [s[|s| - 1]];
    }
  }

  lemma {:induction false} QuotesAround(s: string)
    ensures WithoutQuotes("\"" + s + "\"") == WithoutQuotes(s)
  {
    var quoted := "\"" + s + "\"";
    assert quoted[..|quoted| - 1] == "\"" + s;
    QuoteBefore(s);
  }

  lemma {:induction false} QuoteBefore(s: string)
    ensures WithoutQuotes("\"" + s) == WithoutQuotes(s)
  {
    var quoted := "\"" + s;
    if s == "" {
      assert quoted == "\"" && quoted[..0] == "";
    } else {
      assert quoted[..|quoted| - 1] == "\"" + s[..|s| - 1];
      QuoteBefore(s[..|s| - 1]);
    }
  }

  // tr -d '"' takes out the quotes and nothing else.
  lemma {:induction false} QuoteDropped(before: string, after: string)
    ensures WithoutQuotes(before + "\"" + after) == WithoutQuotes(before) + WithoutQuotes(after)
  {
    var s := before + "\"" + after;
    if after == "" {
      assert s[..|s| - 1] == before;
    } else {
      assert s[..|s| - 1] == before + "\"" + after[..|after| - 1];
      QuoteDropped(before, after[..|after| - 1]);
    }
  }

  // Of the strings without special characters, exactly the plain ones come through.
  lemma StringComesThrough(s: string)
    requires WithoutAny(s, SPECIAL)
    ensures Words(WithoutQuotes(s), IFS) == [s] <==> Plain(s)
  {
    NoQuotesToDrop(s);
    var t := WithoutQuotes(s);
    if Plain(s) {
      OneWord(s, IFS);
    }
    if Words(t, IFS) == [s] {
      WordsAreWords(t, IFS);
      assert IsWord(Words(t, IFS)[0], IFS);
      WordsWithout(t, '"', IFS);
      assert Without(Words(t, IFS)[0], '"');
    }
  }

  // The pattern CONFIG_*=y, behind the first equals sign.
  ghost predicate EndsInYes(rest: string) {
    rest == "y" || (|rest| >= 2 && rest[|rest| - 2] == '=' && rest[|rest| - 1] == 'y')
  }

  // An assignment enables its symbol if the line ends in =y, and otherwise sets it to the words
  // behind the first equals sign, without their quotes.
  lemma AssignmentReads(full: string, rest: string)
    requires IsKey(full) && "CONFIG_" <= full && Words(full, IFS) == [full]
    ensures EditOf(full + ['='] + rest) ==
            if EndsInYes(rest) then Enable([full]) else SetVal([full] + Words(WithoutQuotes(rest), IFS))
  {
    var line := full + ['='] + rest;
    FindAt(full, '=', rest);
    hide WithoutQuotes, Words, Unset, Find;
    assert line[..|full|] == full && line[|full| + 1..] == rest;
    assert line[0] == full[0] == 'C';
    assert Like(line, "CONFIG_", "=y") <==> EndsInYes(rest) by {
      var last := line[|line| - 2..];
      assert last[0] == line[|line| - 2] && last[1] == line[|line| - 1];
    }
    assert "CONFIG_" <= line;
  }

  lemma EnableReadsBack(full: string)
    requires IsKey(full) && "CONFIG_" <= full && Words(full, IFS) == [full]
    ensures EditOf(full + "=y") == Enable([full])
  {
    hide EditOf, Words, WithoutQuotes;
    AssignmentReads(full, "y");
    assert full + "=y" == full + ['='] + "y";
  }

  lemma DisableReadsBack(full: string)
    requires IsKey(full) && "CONFIG_" <= full && Words(full, IFS) == [full]
    ensures EditOf("# " + full + NOT_SET) == Disable([full])
  {
    var line, rest := "# " + full + NOT_SET, full[7..] + NOT_SET;
    assert line[9..] == rest;
    KeyRunAt(full[7..], NOT_SET);
    var end := |full| + 2;
    assert line[end..] == NOT_SET && line[2..end] == full && line[end + |NOT_SET|..] == "";
    assert full + "" == full;
    assert line[..9] == "# CONFIG_" by { assert full[..7] == "CONFIG_"; }
  }

  lemma SetReadsBack(full: string, rest: string)
    requires IsKey(full) && "CONFIG_" <= full && Words(full, IFS) == [full]
    requires rest != "" && rest[|rest| - 1] != 'y'
    ensures EditOf(full + ['='] + rest) == SetVal([full] + Words(WithoutQuotes(rest), IFS))
  {
    hide EditOf, Words, WithoutQuotes;
    AssignmentReads(full, rest);
  }

  lemma DigitsArePlain(d: string)
    requires Digits(d) && d != ""
    ensures Plain(d) && Plain("-" + d) && d[|d| - 1] != 'y'
    ensures WithoutAny(d, SPECIAL) && WithoutAny("-" + d, SPECIAL)
  {
    assert IsDigit(d[|d| - 1]);
    assert forall i :: 0 <= i < |d| ==> IsDigit(d[i]);
  }

  lemma IntTextIsPlain(n: int)
    ensures Plain(IntText(n)) && WithoutAny(IntText(n), SPECIAL)
    ensures IntText(n) != "" && IntText(n)[|IntText(n)| - 1] != 'y'
  {
    hide Decimal, Plain;
    var m := if n < 0 then -n else n;
    DecimalIsCanonical(m);
    DigitsArePlain(Decimal(m));
  }

  // A printed entry reads back as intended: every boolean and every number, and exactly the
  // plain ones among the strings without special characters.
  lemma LineReadsBack(key: string, value: Value)
    requires IsKey(key) && (value.Text? ==> WithoutAny(value.s, SPECIAL))
    ensures EditOf(KconfigLine(key, value)) == Intended(key, value) <==> (value.Text? ==> Plain(value.s))
  {
    hide EditOf, Words, WithoutQuotes, Plain, FullKey, IntText;
    FullKeyIsWord(key);
    var full := FullKey(key);
    match value {
      case Bool(b) =>
        if b {
          EnableReadsBack(full);
        } else {
          DisableReadsBack(full);
        }
      case Number(n) =>
        IntTextIsPlain(n);
        SetReadsBack(full, IntText(n));
        StringComesThrough(IntText(n));
        assert [full] + [IntText(n)] == [full, IntText(n)];
      case Text(s) =>
        var quoted := "\"" + s + "\"";
        assert KconfigLine(key, value) == full + "=" + quoted;
        SetReadsBack(full, quoted);
        QuotesAround(s);
        StringComesThrough(s);
        var words := Words(WithoutQuotes(s), IFS);
        assert ([full] + words)[1..] == words && [full, s][1..] == [s];
    }
  }

  // Any other line does nothing: other comments, lines without an assignment, and lines that
  // do not start with the prefix.
  lemma OtherLines(line: string)
    requires "# CONFIG_" <= line ==> |line| < 20 || line[|line| - 11..] != " is not set"
    requires "CONFIG_" <= line ==> Without(line, '=')
    ensures EditOf(line) == Nothing
  {
    if "CONFIG_" <= line {
      FindIs(line, '=');
      assert line[0] == 'C' && line[|line| - 2..][0] == line[|line| - 2];
    }
  }

  // ---- Whole fragments --------------------------------------------------------------------------------

  datatype Setting = Off | On | Valued(text: string)

  type Config = map<string, Setting>

  // scripts/config on the words it was given; with other words than these its effect is not
  // part of this model.
  function Apply(edit: Edit, config: Config): Config {
    match edit
    case Nothing => config
    case Disable(words) => if |words| == 1 then config[words[0] := Off] else config
    case Enable(words) => if |words| == 1 then config[words[0] := On] else config
    case SetVal(words) => if |words| == 2 then config[words[0] := Valued(words[1])] else config
  }

  function ApplyLines(lines: seq<string>, config: Config): Config {
    if lines == [] then config
    else Apply(EditOf(lines[|lines| - 1]), ApplyLines(lines[..|lines| - 1], config))
  }

  // apply_kconfig_fragment
  method ApplyFragment(text: string, config: Config) returns (result: Config)
    ensures result == ApplyLines(Lines(text), config)
  {
    hide EditOf, Apply, Split;
    var lines := Lines(text);
    result := config;
    var i := 0;
    assert lines[..0] == [];
    while i < |lines|
      invariant 0 <= i <= |lines| && result == ApplyLines(lines[..i], config)
    {
      assert lines[..i + 1][..i] == lines[..i];
      result := Apply(EditOf(lines[i]), result);
      i := i + 1;
    }
    assert lines[..i] == lines;
  }

  function SettingOf(value: Value): Setting {
    match value
    case Bool(b) => if b then On else Off
    case Number(n) => Valued(IntText(n))
    case Text(s) => Valued(s)
  }

  // The settings the entries of a fragment ask for; a later entry for a symbol wins.
  function Asked(items: seq<Item>): Config {
    if items == [] then map[]
    else
      var before, item := Asked(items[..|items| - 1]), items[|items| - 1];
      if item.Entry? then before[FullKey(item.key) := SettingOf(item.value)] else before
  }

  ghost predicate Readable(item: Item) {
    match item
    case Note(text) => Without(text, '\n') && EditOf(text) == Nothing
    case Entry(key, value) => IsKey(key) && (value.Text? ==> Plain(value.s))
  }

  ghost predicate AllReadable(items: seq<Item>) {
    forall i :: 0 <= i < |items| ==> Readable(items[i])
  }

  lemma ReadableLine(item: Item)
    requires Readable(item)
    ensures Without(ItemLine(item), '\n')
    ensures forall config :: Apply(EditOf(ItemLine(item)), config) ==
                             if item.Entry? then config[FullKey(item.key) := SettingOf(item.value)] else config
  {
    hide EditOf, Apply, KconfigLine, IsKey, Plain, FullKey, Intended;
    if item.Entry? {
      PlainIsLiteral(item);
      LineReadsBack(item.key, item.value);
      EntryLineClean(item.key, item.value);
      forall config ensures Apply(Intended(item.key, item.value), config) ==
                            config[FullKey(item.key) := SettingOf(item.value)]
      {
        IntendedApplies(item.key, item.value, config);
      }
    } else {
      NothingApplies();
    }
  }

  lemma PlainIsLiteral(item: Item)
    requires Readable(item) && item.Entry?
    ensures item.value.Text? ==> WithoutAny(item.value.s, SPECIAL)
  {
  }

  lemma IntendedApplies(key: string, value: Value, config: Config)
    ensures Apply(Intended(key, value), config) == config[FullKey(key) := SettingOf(value)]
  {
  }

  lemma NothingApplies()
    ensures forall config :: Apply(Nothing, config) == config
  {
  }

  lemma EntryLineClean(key: string, value: Value)
    requires IsKey(key) && (value.Text? ==> Plain(value.s))
    ensures Without(KconfigLine(key, value), '\n')
  {
    var full := FullKey(key);
    FullKeyIsWord(key);
    hide FullKey, Words, IntText, IsWord;
    assert Without(full, '\n');
    match value {
      case Bool(b) =>
      case Number(n) => IntTextIsPlain(n);
      case Text(s) =>
    }
  }

  lemma {:induction false} LinesApply(items: seq<Item>, config: Config)
    requires AllReadable(items)
    ensures ApplyLines(ItemLines(items), config) == config + Asked(items)
    ensures |ItemLines(items)| == |items|
    ensures forall k :: 0 <= k < |items| ==> Without(ItemLines(items)[k], '\n')
  {
    hide Readable, Apply, EditOf, ItemLine;
    if items != [] {
      var init, item := items[..|items| - 1], items[|items| - 1];
      LinesApply(init, config);
      assert Readable(item);
      ReadableLine(item);
      assert ItemLines(items)[..|items| - 1] == ItemLines(init);
    }
  }

  // Reading a printed fragment back changes exactly the symbols its entries name, to the
  // values they ask for.
  lemma FragmentReadsBack(items: seq<Item>, config: Config)
    requires AllReadable(items) && items != []
    ensures ApplyLines(Lines(FragmentText(items)), config) == config + Asked(items)
  {
    hide EditOf, Readable, Asked;
    LinesApply(items, config);
    SplitJoin(ItemLines(items), '\n');
    SplitSnoc(Join(ItemLines(items), '\n'), '\n', '\n');
  }

  // ---- The generated fragments ---------------------------------------------------------------------------

  lemma {:induction false} AskedConcat(a: seq<Item>, b: seq<Item>)
    ensures Asked(a + b) == Asked(a) + Asked(b)
  {
    if b == [] {
      assert a + b == a;
    } else {
      AskedConcat(a, b[..|b| - 1]);
      assert (a + b)[..|a + b| - 1] == a + b[..|b| - 1];
    }
  }

  // The entries of a preset that the reader takes as they are meant.
  ghost predicate PlainEntries(entries: Entries) {
    forall i :: 0 <= i < |entries| ==> IsKey(entries[i].0) && (entries[i].1.Text? ==> Plain(entries[i].1.s))
  }

  lemma {:induction false} EntriesReadable(entries: Entries)
    requires PlainEntries(entries)
    ensures AllReadable(EntryItems(entries))
  {
    if entries != [] {
      EntriesReadable(entries[..|entries| - 1]);
    }
  }

  ghost predicate IsComment(text: string) {
    Without(text, '\n') && (text == "" || (text[0] == '#' && (|text| < 3 || text[2] != 'C')))
  }

  lemma CommentIsReadable(text: string)
    requires IsComment(text)
    ensures Readable(Note(text)) && Asked([Note(text)]) == map[]
  {
    assert [Note(text)][..0] == [];
  }

  lemma NothingAsked()
    ensures Asked([]) == map[] && EntryItems([]) == []
  {
  }

  lemma SectionReadable(title: string, entries: Entries)
    requires IsComment(title) && PlainEntries(entries)
    ensures AllReadable(Section(title, entries)) && Asked(Section(title, entries)) == Asked(EntryItems(entries))
  {
    hide Readable, Asked, EntryItems, PlainEntries;
    CommentIsReadable(title);
    CommentIsReadable("");
    EntriesReadable(entries);
    NothingAsked();
    AskedConcat([Note(title)], EntryItems(entries));
    AskedConcat([Note(title)] + EntryItems(entries), [Note("")]);
  }

  // A variant fragment reads back as its table.
  lemma VariantReadsBack(variant: string, entries: Entries, config: Config)
    requires Without(variant, '\n') && PlainEntries(entries)
    ensures AllReadable(VariantItems(variant, entries))
    ensures ApplyLines(Lines(FragmentText(VariantItems(variant, entries))), config) ==
            config + Asked(EntryItems(entries))
  {
    hide Readable, ApplyLines, Lines, FragmentText, VariantHead;
    VariantHeadReadable(variant);
    CommentIsReadable("");
    EntriesReadable(entries);
    var tail := if entries == [] then [] else EntryItems(entries) + [Note("")];
    AskedConcat(VariantHead(variant), tail);
    AskedConcat(EntryItems(entries), [Note("")]);
    FragmentReadsBack(VariantItems(variant, entries), config);
  }

  lemma VariantHeadReadable(variant: string)
    requires Without(variant, '\n')
    ensures VariantHead(variant) != [] && AllReadable(VariantHead(variant)) && Asked(VariantHead(variant)) == map[]
  {
    hide Readable;
    CommentIsReadable("# Auto-generated " + variant + " kernel config \U{2014} DO NOT EDIT");
    CommentIsReadable("# Source: system.toml [" + variant + ".kernel.config]");
    CommentIsReadable("");
    NotesAskNothing(VariantHead(variant));
  }

  lemma {:induction false} NotesAskNothing(items: seq<Item>)
    requires forall i :: 0 <= i < |items| ==> items[i].Note?
    ensures Asked(items) == map[]
  {
    if items != [] {
      NotesAskNothing(items[..|items| - 1]);
    }
  }

  // What the shared fragment sets on its own.
  ghost function Fixed(rv32: bool, zstd: bool): Config {
    map["CONFIG_RISCV_ISA_C" := On]
    + (if rv32 then map["CONFIG_" + "NONPORTABLE" := On, "CONFIG_" + "ARCH_RV64I" := Off, "CONFIG_" + "ARCH_RV32I" := On] else map[])
    + if zstd then map["CONFIG_" + "RD_ZSTD" := On, "CONFIG_" + "INITRAMFS_COMPRESSION_ZSTD" := On] else map[]
  }

  // What it asks for in all; the user's own table comes last and wins.
  ghost function SharedAsks(rv32: bool, zstd: bool, user: Entries): Config {
    Fixed(rv32, zstd) + Asked(EntryItems(user))
  }

  lemma {:induction false} AskedOfEntry(init: Entries, key: string, value: Value)
    ensures Asked(EntryItems(init + [(key, value)])) == Asked(EntryItems(init))[FullKey(key) := SettingOf(value)]
  {
    var entries := init + [(key, value)];
    assert entries[..|entries| - 1] == init;
    AskedConcat(EntryItems(init), [Entry(key, value)]);
    assert [Entry(key, value)][..0] == [];
  }

  lemma Rv32Asks()
    ensures Asked(EntryItems(RV32)) ==
            map["CONFIG_" + "NONPORTABLE" := On, "CONFIG_" + "ARCH_RV64I" := Off, "CONFIG_" + "ARCH_RV32I" := On]
  {
    hide Asked, EntryItems;
    NothingAsked();
    var none: Entries := [];
    var one := none + [("NONPORTABLE", Bool(true))];
    var two := one + [("ARCH_RV64I", Bool(false))];
    AskedOfEntry(none, "NONPORTABLE", Bool(true));
    AskedOfEntry(one, "ARCH_RV64I", Bool(false));
    AskedOfEntry(two, "ARCH_RV32I", Bool(true));
    assert two + [("ARCH_RV32I", Bool(true))] == RV32;
    Prefixed("NONPORTABLE");
    Prefixed("ARCH_RV64I");
    Prefixed("ARCH_RV32I");
    hide FullKey;
  }

  lemma ZstdAsks()
    ensures Asked(EntryItems(ZSTD)) == map["CONFIG_" + "RD_ZSTD" := On, "CONFIG_" + "INITRAMFS_COMPRESSION_ZSTD" := On]
  {
    hide Asked, EntryItems;
    NothingAsked();
    var none: Entries := [];
    var one := none + [("RD_ZSTD", Bool(true))];
    AskedOfEntry(none, "RD_ZSTD", Bool(true));
    AskedOfEntry(one, "INITRAMFS_COMPRESSION_ZSTD", Bool(true));
    assert one + [("INITRAMFS_COMPRESSION_ZSTD", Bool(true))] == ZSTD;
    Prefixed("RD_ZSTD");
    Prefixed("INITRAMFS_COMPRESSION_ZSTD");
    hide FullKey;
  }

  lemma Prefixed(key: string)
    requires key != "" && key[0] != 'C'
    ensures FullKey(key) == "CONFIG_" + key
  {
    assert "CONFIG_"[0] == 'C';
  }

  lemma FixedIs(rv32: bool, zstd: bool)
    ensures map["CONFIG_RISCV_ISA_C" := On] + Asked(EntryItems(if rv32 then RV32 else []))
            + Asked(EntryItems(if zstd then ZSTD else [])) == Fixed(rv32, zstd)
  {
    NothingAsked();
    Rv32Asks();
    ZstdAsks();
    hide Asked, EntryItems;
  }

  lemma HeadLinesAreComments()
    ensures IsComment(SHARED_LINE) && IsComment(SOURCE_LINE)
  {
  }

  lemma CompressedLineIsComment()
    ensures IsComment(COMPRESSED_LINE)
  {
  }

  lemma TitlesAreComments()
    ensures IsComment(RV32_TITLE) && IsComment(ZSTD_TITLE) && IsComment(USER_TITLE)
  {
  }

  lemma SharedHeadReadable()
    ensures AllReadable(SHARED_HEAD) && Asked(SHARED_HEAD) == map["CONFIG_RISCV_ISA_C" := On]
  {
    hide Readable;
    HeadLinesAreComments();
    CompressedLineIsComment();
    hide IsComment;
    CommentIsReadable(SHARED_LINE);
    CommentIsReadable(SOURCE_LINE);
    CommentIsReadable(COMPRESSED_LINE);
    EmptyIsComment();
    CommentIsReadable("");
    CompressedEntry();
    var notes := [Note(SHARED_LINE), Note(SOURCE_LINE), Note(""), Note(COMPRESSED_LINE)];
    NotesAskNothing(notes);
    AskedConcat(notes, [COMPRESSED]);
    AskedConcat(notes + [COMPRESSED], [Note("")]);
    assert SHARED_HEAD == notes + [COMPRESSED] + [Note("")];
  }

  lemma EmptyIsComment()
    ensures IsComment("")
  {
  }

  lemma CompressedEntry()
    ensures Readable(COMPRESSED) && Asked([COMPRESSED]) == map["CONFIG_RISCV_ISA_C" := On]
  {
    var none: seq<Item> := [];
    assert [COMPRESSED][..0] == none && Asked(none) == map[];
    assert "CONFIG_"[0] != "RISCV_ISA_C"[0] && FullKey("RISCV_ISA_C") == "CONFIG_RISCV_ISA_C";
  }

  lemma SharedReadable(rv32: bool, zstd: bool, user: Entries)
    requires PlainEntries(user)
    ensures AllReadable(SharedItems(rv32, zstd, user))
    ensures Asked(SharedItems(rv32, zstd, user)) == SharedAsks(rv32, zstd, user)
  {
    hide Readable, Asked, EntryItems, Section, SHARED_HEAD;
    var arch, packed := if rv32 then RV32 else [], if zstd then ZSTD else [];
    var a, b, c := Section(RV32_TITLE, arch), Section(ZSTD_TITLE, packed), Section(USER_TITLE, user);
    SharedHeadReadable();
    TitlesAreComments();
    assert PlainEntries(arch) && PlainEntries(packed) by { BuiltInPlain(); }
    hide IsComment, PlainEntries;
    SectionReadable(RV32_TITLE, arch);
    SectionReadable(ZSTD_TITLE, packed);
    SectionReadable(USER_TITLE, user);
    AskedConcat(SHARED_HEAD, a);
    AskedConcat(SHARED_HEAD + a, b);
    AskedConcat(SHARED_HEAD + a + b, c);
    FixedIs(rv32, zstd);
  }

  lemma BuiltInPlain()
    ensures PlainEntries(RV32) && PlainEntries(ZSTD) && PlainEntries([])
  {
    hide PlainEntries;
    Rv32Plain();
    ZstdPlain();
    assert PlainEntries([]) by { NonePlain(); }
  }

  lemma Rv32Plain()
    ensures PlainEntries(RV32)
  {
  }

  lemma ZstdPlain()
    ensures PlainEntries(ZSTD)
  {
  }

  lemma NonePlain()
    ensures PlainEntries([])
  {
  }

  // configure_kernel on the generated fragments: the variant's table wins over the shared
  // one, and every symbol neither names keeps its value from the defconfig.
  lemma ConfiguredKernel(rv32: bool, zstd: bool, user: Entries, variant: string, entries: Entries, config: Config)
    requires PlainEntries(user) && PlainEntries(entries) && Without(variant, '\n')
    ensures var shared := FragmentText(SharedItems(rv32, zstd, user));
            var own := FragmentText(VariantItems(variant, entries));
            ApplyLines(Lines(own), ApplyLines(Lines(shared), config)) ==
            config + SharedAsks(rv32, zstd, user) + Asked(EntryItems(entries))
  {
    hide SharedItems, VariantItems, SharedAsks, ApplyLines, Lines, FragmentText, Asked, EntryItems, PlainEntries;
    SharedReadable(rv32, zstd, user);
    assert SharedItems(rv32, zstd, user) != [] by { SharedNotEmpty(rv32, zstd, user); }
    FragmentReadsBack(SharedItems(rv32, zstd, user), config);
    VariantReadsBack(variant, entries, config + SharedAsks(rv32, zstd, user));
  }

  lemma SharedNotEmpty(rv32: bool, zstd: bool, user: Entries)
    ensures SharedItems(rv32, zstd, user) != []
  {
    assert |SharedItems(rv32, zstd, user)| >= |SHARED_HEAD|;
  }

  // configure_kernel: the shared fragment and then the one of the variant. The variant wins,
  // then the shared fragment, then the defconfig.
  lemma VariantWins(shared: seq<Item>, variant: seq<Item>, config: Config)
    requires AllReadable(shared) && AllReadable(variant) && shared != [] && variant != []
    ensures var final := ApplyLines(Lines(FragmentText(variant)), ApplyLines(Lines(FragmentText(shared)), config));
            && final == config + Asked(shared) + Asked(variant)
            && forall k :: k in final ==>
                 final[k] == if k in Asked(variant) then Asked(variant)[k]
                             else if k in Asked(shared) then Asked(shared)[k] else config[k]
  {
    FragmentReadsBack(shared, config);
    FragmentReadsBack(variant, config + Asked(shared));
  }

  // ---- What the configured kernel holds, symbol by symbol -------------------------------------------------

  // The text of an integer: the canonical decimal, behind a sign if it is negative.
  ghost predicate Denotes(text: string, n: int) {
    if n >= 0 then Canonical(text) && Numerals.Value(text) == n
    else text != "" && text[0] == '-' && Canonical(text[1..]) && Numerals.Value(text[1..]) == -n
  }

  lemma IntTextDenotes(n: int)
    ensures Denotes(IntText(n), n)
  {
    DecimalIsCanonical(if n < 0 then -n else n);
    assert n < 0 ==> IntText(n)[1..] == Decimal(-n);
  }

  // The setting is what the entry says.
  ghost predicate Means(setting: Setting, value: Value) {
    match value
    case Bool(b) => if b then setting == On else setting == Off
    case Number(n) => setting.Valued? && Denotes(setting.text, n)
    case Text(s) => setting == Valued(s)
  }

  // The symbol a key stands for, with or without the prefix.
  ghost predicate Spells(symbol: string, key: string) {
    if "CONFIG_" <= key then symbol == key else symbol == "CONFIG_" + key
  }

  ghost predicate Mentions(entries: Entries, symbol: string) {
    exists i :: 0 <= i < |entries| && Spells(symbol, entries[i].0)
  }

  // Entry i is the last one for the symbol.
  ghost predicate Decides(entries: Entries, i: nat, symbol: string) {
    && i < |entries| && Spells(symbol, entries[i].0)
    && forall j :: i < j < |entries| ==> !Spells(symbol, entries[j].0)
  }

  lemma SettingMeans(value: Value)
    ensures Means(SettingOf(value), value)
  {
    if value.Number? {
      IntTextDenotes(value.n);
    }
  }

  lemma {:induction false} AskedMeans(entries: Entries, symbol: string)
    ensures symbol in Asked(EntryItems(entries)) <==> Mentions(entries, symbol)
    ensures forall i: nat :: Decides(entries, i, symbol) ==>
              symbol in Asked(EntryItems(entries)) && Means(Asked(EntryItems(entries))[symbol], entries[i].1)
  {
    hide Means, Asked, EntryItems, SettingOf;
    NothingAsked();
    if entries != [] {
      var init, last := entries[..|entries| - 1], entries[|entries| - 1];
      assert entries == init + [(last.0, last.1)];
      AskedOfEntry(init, last.0, last.1);
      AskedMeans(init, symbol);
      SettingMeans(last.1);
      assert Spells(symbol, last.0) <==> symbol == FullKey(last.0);
      forall i: nat | Decides(entries, i, symbol)
        ensures symbol in Asked(EntryItems(entries)) && Means(Asked(EntryItems(entries))[symbol], entries[i].1)
      {
        if i < |init| {
          assert !Spells(symbol, entries[|init|].0);
          assert Decides(init, i, symbol);
        }
      }
      assert Mentions(init, symbol) ==> Mentions(entries, symbol);
    } else {
      assert entries == [];
      assert !Mentions(entries, symbol);
    }
  }

  // The kernel configuration after both fragments. A symbol the variant's table names is as
  // its last entry for it says; any other that the user's shared table names, as that says;
  // any other, as the shared fragment sets it on its own, and else as it was.
  lemma ConfiguredSymbol(rv32: bool, zstd: bool, user: Entries, variant: string, entries: Entries, config: Config, symbol: string)
    requires PlainEntries(user) && PlainEntries(entries) && Without(variant, '\n')
    ensures var final := ApplyLines(Lines(FragmentText(VariantItems(variant, entries))),
                                    ApplyLines(Lines(FragmentText(SharedItems(rv32, zstd, user))), config));
            && (forall i: nat :: Decides(entries, i, symbol) ==> symbol in final && Means(final[symbol], entries[i].1))
            && (!Mentions(entries, symbol) ==>
                  forall i: nat :: Decides(user, i, symbol) ==> symbol in final && Means(final[symbol], user[i].1))
            && (!Mentions(entries, symbol) && !Mentions(user, symbol) ==>
                  if symbol in Fixed(rv32, zstd) then symbol in final && final[symbol] == Fixed(rv32, zstd)[symbol]
                  else (symbol in final <==> symbol in config) && (symbol in final ==> final[symbol] == config[symbol]))
  {
    ConfiguredKernel(rv32, zstd, user, variant, entries, config);
    AskedMeans(entries, symbol);
    AskedMeans(user, symbol);
    hide ApplyLines, Lines, FragmentText, VariantItems, SharedItems, Asked, EntryItems, Fixed, Means, Decides, Mentions;
  }
}
