// split_args, which cuts a line into words in place by writing NULs, and cmd_echo, which
// puts words back together.
module Tokens {
  import opened Text
  import opened Machine

  // An entry of argv: a pointer into the line, or NULL.
  datatype Pointer = Null | At(index: nat)

  // is_space
  predicate IsSpace(c: char) { c == ' ' || c == '\t' || c == '\r' || c == '\n' }

  function Least(a: nat, b: nat): nat { if a < b then a else b }

  // What a command called with capacity entries of argv receives from a line.
  function Arguments(line: string, capacity: nat): seq<string>
    requires capacity > 0
  {
    var words := Words(line, BLANKS);
    words[..Least(|words|, capacity - 1)]
  }

  // Word w stands at start in the line and is followed by NUL, or by the cursor.
  ghost predicate Standing(line: seq<char>, start: nat, w: string, cursor: nat) {
    && start + |w| <= cursor < |line|
    && line[start..start + |w|] == w
    && (start + |w| == cursor || line[start + |w|] == NUL)
  }

  // All words found so far stand before the cursor, and argv points at them.
  ghost predicate Found(line: seq<char>, argv: seq<Pointer>, words: seq<string>, cursor: nat) {
    && |words| <= |argv|
    && forall k :: 0 <= k < |words| ==> argv[k].At? && Standing(line, argv[k].index, words[k], cursor)
  }

  // Where word k may start at the earliest: behind the word before it.
  function Behind(argv: seq<Pointer>, words: seq<string>, k: nat): nat
    requires k <= |argv| && k <= |words|
  {
    if k > 0 && argv[k - 1].At? then argv[k - 1].index + |words[k - 1]| else 0
  }

  ghost predicate Blank(s: string, from: nat, to: nat) {
    from <= to <= |s| && forall i :: from <= i < to ==> s[i] in BLANKS
  }

  // argv[k] points at word k where it stands in s, with only blanks before it.
  ghost predicate PlacedAt(s: string, argv: seq<Pointer>, words: seq<string>, k: nat)
    requires k < |words| <= |argv|
  {
    && argv[k].At? && Blank(s, Behind(argv, words, k), argv[k].index)
    && argv[k].index + |words[k]| <= |s|
    && s[argv[k].index..argv[k].index + |words[k]|] == words[k]
  }

  // The words stand one after another from the start of s.
  ghost predicate Placed(s: string, argv: seq<Pointer>, words: seq<string>) {
    |words| <= |argv| && forall k :: 0 <= k < |words| ==> PlacedAt(s, argv, words, k)
  }

  // And with nothing but blanks from the last of them to the cursor.
  ghost predicate PlacedBefore(s: string, argv: seq<Pointer>, words: seq<string>, cursor: nat) {
    Placed(s, argv, words) && Blank(s, Behind(argv, words, |words|), cursor)
  }

  // The cursor is where the scan of s has got to: nothing at or after it has been touched.
  ghost predicate Cursor(s: string, line: seq<char>, cursor: nat) {
    && cursor <= |s| < |line| && line[|s|] == NUL
    && forall i :: cursor <= i < |s| ==> line[i] == s[i]
  }

  // Between the rounds of the outer loop a word has just ended, or nothing has been read.
  ghost predicate AtBoundary(s: string, cursor: nat) {
    cursor == 0 || cursor >= |s| || s[cursor] in BLANKS
  }

  // The state between the rounds of the outer loop.
  ghost predicate Between(s: string, line: seq<char>, argv: seq<Pointer>, words: seq<string>, cursor: nat) {
    && Cursor(s, line, cursor) && AtBoundary(s, cursor)
    && words == Words(s[..cursor], BLANKS) && |words| < |argv|
    && Found(line, argv, words, cursor)
    && PlacedBefore(s, argv, words, cursor)
  }

  method SplitArgs(line: array<char>, argv: array<Pointer>, ghost n: nat) returns (argc: nat)
    requires Terminated(line[..], n) && argv.Length > 0
    modifies line, argv
    ensures var args := Arguments(old(line[..n]), argv.Length);
            && argc == |args| < argv.Length
            && (forall k :: 0 <= k < argc ==> argv[k].At? && argv[k].index <= n
                                              && CString(line[argv[k].index..]) == args[k])
            && Placed(old(line[..n]), argv[..], args)
    ensures argv[argc] == Null
    ensures forall k :: argc < k < argv.Length ==> argv[k] == old(argv[k])
    ensures forall i :: 0 <= i < line.Length && line[i] != old(line[i]) ==>
              i < n && line[i] == NUL && (old(line[i]) in BLANKS || argv.Length == 1)
  {
    hide Between, PlacedBefore, Placed, Found, Words, Arguments;
    ghost var s := line[..n];
    var cursor;
    ghost var words;
    cursor, argc, words := TakeWords(line, argv, s);
    Finish(s, cursor, argv.Length, words);
    AllStanding(s, line[..], argv[..], words, cursor);
    ghost var before, pointers := line[..], argv[..];
    assert cursor == 0 ==> words == [] by { NoWords(s); }
    if line[cursor] != NUL {
      line[cursor] := NUL;
    }
    argv[argc] := Null;
    assert line[..] == before[cursor := NUL] && argv[..] == pointers[argc := Null];
  }

  // The outer loop.
  method TakeWords(line: array<char>, argv: array<Pointer>, ghost s: string)
    returns (cursor: nat, argc: nat, ghost words: seq<string>)
    requires Without(s, NUL) && Cursor(s, line[..], 0) && argv.Length > 0
    modifies line, argv
    ensures cursor <= |s| < line.Length && argc == |words| < argv.Length
    ensures words == Words(s[..cursor], BLANKS) && AtBoundary(s, cursor)
    ensures cursor == |s| || argc == argv.Length - 1
    ensures cursor < |s| ==> line[cursor] == s[cursor]
    ensures cursor == |s| ==> line[cursor] == NUL
    ensures Found(line[..], argv[..], words, cursor) && Placed(s, argv[..], words)
    ensures forall k :: argc <= k < argv.Length ==> argv[k] == old(argv[k])
    ensures OnlyBlanked(s, line[..], old(line[..]))
  {
    words := [];
    cursor, argc := 0, 0;
    assert s[..0] == "";
    assert Between(s, line[..], argv[..], words, cursor);
    hide PlacedBefore, Placed, Found, Words;
    while line[cursor] != NUL && argc < argv.Length - 1
      invariant Between(s, line[..], argv[..], words, cursor) && argc == |words|
      invariant forall k :: argc <= k < argv.Length ==> argv[k] == old(argv[k])
      invariant OnlyBlanked(s, line[..], old(line[..]))
      decreases |s| - cursor
    {
      cursor, argc, words := NextWord(line, argv, cursor, argc, s, words);
      if line[cursor] == NUL {
        break;
      }
    }
    assert Placed(s, argv[..], words) by { PlacedSoFar(s, argv[..], words, cursor); }
  }

  lemma NoWords(s: string)
    ensures Words(s[..0], BLANKS) == []
  {
  }

  lemma PlacedSoFar(s: string, argv: seq<Pointer>, words: seq<string>, cursor: nat)
    requires PlacedBefore(s, argv, words, cursor)
    ensures Placed(s, argv, words)
  {
  }

  // One round of the outer loop: past the blanks, and past one word if there is one.
  method NextWord(line: array<char>, argv: array<Pointer>, start: nat, count: nat, ghost s: string, ghost words: seq<string>)
    returns (cursor: nat, argc: nat, ghost more: seq<string>)
    requires Without(s, NUL) && Between(s, line[..], argv[..], words, start) && count == |words|
    requires start < |s| && count < argv.Length - 1
    modifies line, argv
    ensures Between(s, line[..], argv[..], more, cursor) && argc == |more| >= count && cursor > start
    ensures forall k :: argc <= k < argv.Length ==> argv[k] == old(argv[k])
    ensures forall i :: 0 <= i < line.Length && line[i] != old(line[i]) ==> line[i] == NUL && i < |s| && s[i] in BLANKS
    ensures forall i :: 0 <= i < line.Length && line[i] != old(line[i]) ==> start <= i
  {
    hide PlacedBefore, Found, Words, ScanWords;
    ghost var before := line[..];
    cursor := SkipBlanks(line, start, s, words);
    argc, more := count, words;
    PlacedPastBlanks(s, argv[..], words, start, cursor);
    assert cursor == 0 ==> words == [] by { NoWords(s); }
    FoundPastBlanks(before, line[..], argv[..], words, start, cursor);
    if line[cursor] != NUL {
      ghost var pointers := argv[..];
      argv[argc] := At(cursor);
      argc := argc + 1;
      ghost var from := cursor;
      cursor := SkipWord(line, cursor, s);
      WordTaken(s, from, cursor);
      WordPlaced(s, pointers, words, from, cursor);
      FoundWord(line[..], pointers, words, s[from..cursor], from, cursor);
      more := words + [s[from..cursor]];
    }
  }

  // What the in-place writes may have done: blanks of the line became NUL.
  ghost predicate OnlyBlanked(s: string, line: seq<char>, was: seq<char>) {
    && |line| == |was| && |s| <= |was|
    && forall i :: 0 <= i < |line| && line[i] != was[i] ==> i < |s| && line[i] == NUL && was[i] in BLANKS
  }

  method SkipBlanks(line: array<char>, start: nat, ghost s: string, ghost words: seq<string>)
    returns (cursor: nat)
    requires Without(s, NUL) && Cursor(s, line[..], start) && AtBoundary(s, start)
    requires words == Words(s[..start], BLANKS)
    modifies line
    ensures start <= cursor && Cursor(s, line[..], cursor) && words == Words(s[..cursor], BLANKS)
    ensures cursor < |s| ==> s[cursor] !in BLANKS && ScanWords(s[..cursor], BLANKS) == Scan(words, "")
    ensures forall i :: 0 <= i < line.Length ==> line[i] == if start <= i < cursor then NUL else old(line[i])
    ensures Blank(s, start, cursor)
  {
    cursor := start;
    assert s[..0] == "";
    while IsSpace(line[cursor])
      invariant start <= cursor <= |s|
      invariant words == Words(s[..cursor], BLANKS)
      invariant cursor > start || cursor == 0 ==> ScanWords(s[..cursor], BLANKS) == Scan(words, "")
      invariant forall i :: 0 <= i < line.Length ==> line[i] == if start <= i < cursor then NUL else old(line[i])
      invariant forall i :: start <= i < cursor ==> s[i] in BLANKS
      decreases |s| - cursor
    {
      BlankRead(s, cursor);
      line[cursor] := NUL;
      cursor := cursor + 1;
    }
  }

  lemma BlankRead(s: string, cursor: nat)
    requires cursor < |s| && s[cursor] in BLANKS
    ensures ScanWords(s[..cursor + 1], BLANKS) == Scan(Words(s[..cursor], BLANKS), "")
  {
    assert s[..cursor + 1] == s[..cursor] + [s[cursor]];
    ScanSnoc(s[..cursor], s[cursor], BLANKS);
  }

  lemma FoundPastBlanks(was: seq<char>, line: seq<char>, argv: seq<Pointer>, words: seq<string>, start: nat, cursor: nat)
    requires Found(was, argv, words, start) && start <= cursor < |line| == |was|
    requires start < cursor || words == []
    requires forall i :: 0 <= i < |line| ==> line[i] == if start <= i < cursor then NUL else was[i]
    ensures Found(line, argv, words, cursor)
    ensures forall k :: 0 <= k < |words| ==>
              argv[k].At? && argv[k].index + |words[k]| < |line| && line[argv[k].index + |words[k]|] == NUL
  {
    forall k | 0 <= k < |words|
      ensures Standing(line, argv[k].index, words[k], cursor)
      ensures argv[k].index + |words[k]| < |line| && line[argv[k].index + |words[k]|] == NUL
    {
      var at, w := argv[k].index, words[k];
      assert Standing(was, at, w, start);
      assert line[at..at + |w|] == was[at..at + |w|];
    }
  }

  method SkipWord(line: array<char>, start: nat, ghost s: string) returns (cursor: nat)
    requires Without(s, NUL) && Cursor(s, line[..], start) && start < |s| && s[start] !in BLANKS
    ensures start < cursor <= |s| && (cursor < |s| ==> s[cursor] in BLANKS)
    ensures WithoutAny(s[start..cursor], BLANKS)
  {
    cursor := start;
    while line[cursor] != NUL && !IsSpace(line[cursor])
      invariant start <= cursor <= |s|
      invariant forall i :: start <= i < cursor ==> s[i] !in BLANKS
      decreases |s| - cursor
    {
      cursor := cursor + 1;
    }
  }

  lemma WordTaken(s: string, start: nat, cursor: nat)
    requires start < cursor <= |s| && WithoutAny(s[start..cursor], BLANKS)
    requires ScanWords(s[..start], BLANKS).word == ""
    ensures Words(s[..cursor], BLANKS) == Words(s[..start], BLANKS) + [s[start..cursor]]
  {
    assert s[..cursor] == s[..start] + s[start..cursor];
    ScanRun(s[..start], s[start..cursor], BLANKS);
    assert "" + s[start..cursor] == s[start..cursor];
  }

  lemma FoundWord(line: seq<char>, argv: seq<Pointer>, words: seq<string>, w: string, start: nat, cursor: nat)
    requires |words| < |argv| && Found(line, argv, words, start)
    requires start + |w| == cursor < |line| && line[start..cursor] == w && w != ""
    requires forall k :: 0 <= k < |words| ==> argv[k].At? && argv[k].index + |words[k]| < |line| && line[argv[k].index + |words[k]|] == NUL
    ensures Found(line, argv[|words| := At(start)], words + [w], cursor)
  {
  }

  lemma PlacedPastBlanks(s: string, argv: seq<Pointer>, words: seq<string>, start: nat, cursor: nat)
    requires PlacedBefore(s, argv, words, start) && Blank(s, start, cursor)
    ensures PlacedBefore(s, argv, words, cursor)
  {
  }

  lemma WordPlaced(s: string, argv: seq<Pointer>, words: seq<string>, from: nat, cursor: nat)
    requires PlacedBefore(s, argv, words, from) && |words| < |argv| && from <= cursor <= |s|
    ensures PlacedBefore(s, argv[|words| := At(from)], words + [s[from..cursor]], cursor)
  {
    var after, more := argv[|words| := At(from)], words + [s[from..cursor]];
    forall k | 0 <= k < |more|
      ensures PlacedAt(s, after, more, k)
    {
      if k < |words| {
        assert PlacedAt(s, argv, words, k);
      }
    }
  }

  // The words found are the wanted ones.
  lemma Finish(s: string, cursor: nat, capacity: nat, words: seq<string>)
    requires cursor <= |s| && capacity > 0 && words == Words(s[..cursor], BLANKS) && |words| < capacity
    requires AtBoundary(s, cursor)
    requires cursor == |s| || |words| == capacity - 1
    ensures words == Arguments(s, capacity)
  {
    if cursor == |s| {
      assert s[..cursor] == s;
    } else if cursor == 0 {
      assert s[..0] == "";
    } else {
      WordsPrefix(s[..cursor], s[cursor..], BLANKS);
      assert s[..cursor] + s[cursor..] == s;
    }
  }

  // After the last two writes every word is a string of its own, where it stood.
  lemma AllStanding(s: string, line: seq<char>, argv: seq<Pointer>, words: seq<string>, cursor: nat)
    requires Without(s, NUL) && cursor <= |s| && words == Words(s[..cursor], BLANKS)
    requires cursor < |line| && Found(line, argv, words, cursor) && Placed(s, argv, words) && |words| < |argv|
    ensures forall k :: 0 <= k < |words| ==>
              argv[k].At? && argv[k].index <= cursor && CString(line[cursor := NUL][argv[k].index..]) == words[k]
    ensures Placed(s, argv[|words| := Null], words)
  {
    var cut, ended := line[cursor := NUL], argv[|words| := Null];
    forall k | 0 <= k < |words|
      ensures CString(cut[argv[k].index..]) == words[k] && PlacedAt(s, ended, words, k)
    {
      var start, w := argv[k].index, words[k];
      WordsWithout(s[..cursor], NUL, BLANKS);
      assert Standing(line, start, w, cursor) && PlacedAt(s, argv, words, k);
      assert cut[start..][..|w|] == line[start..start + |w|] && cut[start..][|w|] == NUL;
      CStringIs(cut[start..], |w|);
    }
  }

  // ---- cmd_echo ----------------------------------------------------------------------------

  function EchoText(args: seq<string>): string
    requires args != []
  {
    Join(args[1..], ' ') + "\n"
  }

  method Echo(k: Kernel, args: seq<string>)
    requires args != []
    modifies k`console
    ensures k.console == old(k.console) + EchoText(args)
  {
    var i := 1;
    assert args[1..1] == [];
    while i < |args|
      invariant 1 <= i <= |args|
      invariant k.console == old(k.console) + Join(args[1..i], ' ')
    {
      assert args[1..i + 1] == args[1..i] + [args[i]];
      if i > 1 {
        JoinSnoc(args[1..i], args[i], ' ');
        k.Put(" ");
      }
      k.Put(args[i]);
      i := i + 1;
    }
    assert args[1..i] == args[1..];
    k.Put("\n");
  }

  // Splitting what echo printed gives the echoed words back.
  lemma EchoResplits(args: seq<string>)
    requires args != [] && AreWords(args, BLANKS)
    ensures Words(EchoText(args), BLANKS) == args[1..]
  {
    WordsJoin(args[1..], ' ', BLANKS);
    ScanSnoc(Join(args[1..], ' '), '\n', BLANKS);
  }
}
