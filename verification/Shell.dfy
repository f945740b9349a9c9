// The read-eval loop of tinysh: read_line into 256 characters, split_args into 16 entries.
module Shell {
  import opened Text
  import opened Machine
  import opened Tokens

  const LINE_CAPACITY: nat := 256
  const ARGV_CAPACITY: nat := 16

  // The characters read_line keeps.
  function Visible(s: string): (v: string)
    ensures |v| <= |s|
  {
    if s == "" then ""
    else
      var c := s[|s| - 1];
      Visible(s[..|s| - 1]) + if c == '\r' || c == '\n' then "" else [c]
  }

  lemma VisibleSnoc(s: string, c: char)
    ensures Visible(s + [c]) == Visible(s) + if c == '\r' || c == '\n' then "" else [c]
  {
    assert (s + [c])[..|s|] == s;
  }

  // What one successful read_line consumes: a line that fits up to and including its LF, or
  // exactly as much of an over-long line as fills the buffer.
  ghost predicate IsPiece(piece: string, line: string, capacity: nat) {
    && line == Visible(piece)
    && if piece != "" && piece[|piece| - 1] == '\n'
       then Without(piece[..|piece| - 1], '\n') && |line| + 1 < capacity
       else Without(piece, '\n') && |line| + 1 == capacity && (piece == "" || piece[|piece| - 1] != '\r')
  }

  // What a failing read_line throws away.
  ghost predicate IsFragment(piece: string, capacity: nat) {
    Without(piece, '\n') && |Visible(piece)| + 1 < capacity
  }

  // A read of one character into a local variable.
  method ReadChar(k: Kernel) returns (count: int, value: char, ghost rest: string)
    requires 0 in k.fds
    modifies k`fds, k`failures
    ensures k.fds == Left(old(k.fds), 0, rest)
    ensures count > 0 ==> old(k.fds)[0].pending == [value] + rest && k.failures == old(k.failures)
    ensures count <= 0 ==> rest == old(k.fds)[0].pending
    ensures count <= 0 ==> k.failures > old(k.failures) || rest == ""
    ensures k.failures >= old(k.failures)
  {
    var cell := new char[1];
    count := k.Read(0, cell, 0, 1);
    value := cell[0];
    rest := k.fds[0].pending;
    assert count > 0 ==> cell[0..1] == [value];
  }

  // What ReadLine has done with the input so far.
  ghost predicate Reading(input: string, rest: string, piece: string, line: string, capacity: nat) {
    && input == piece + rest && line == Visible(piece) && Without(piece, '\n')
    && |line| < capacity
    && (|line| + 1 == capacity ==> piece == "" || piece[|piece| - 1] != '\r')
  }

  lemma ReadOn(input: string, rest: string, piece: string, line: string, capacity: nat, c: char, rest': string)
    requires Reading(input, rest, piece, line, capacity) && rest == [c] + rest' && |line| + 1 < capacity
    ensures input == piece + [c] + rest'
    ensures c == '\r' ==> Reading(input, rest', piece + [c], line, capacity)
    ensures c == '\n' ==> IsPiece(piece + [c], line, capacity)
    ensures c != '\r' && c != '\n' ==> Reading(input, rest', piece + [c], line + [c], capacity)
  {
    VisibleSnoc(piece, c);
    assert (piece + [c])[..|piece|] == piece;
  }

  lemma ReadSoFar(input: string, rest: string, piece: string, line: string, capacity: nat)
    requires Reading(input, rest, piece, line, capacity)
    ensures input == piece + rest && (|line| + 1 < capacity ==> IsFragment(piece, capacity))
  {
  }

  lemma ReadFull(input: string, rest: string, piece: string, line: string, capacity: nat)
    requires Reading(input, rest, piece, line, capacity) && |line| + 1 == capacity
    ensures input == piece + rest && IsPiece(piece, line, capacity)
  {
  }

  method ReadLine(k: Kernel, line: array<char>) returns (length: int, ghost piece: string, ghost rest: string)
    requires 0 in k.fds && line.Length > 0
    modifies k`fds, k`failures, line
    ensures k.fds == Left(old(k.fds), 0, rest) && old(k.fds)[0].pending == piece + rest
    ensures length >= 0 ==> length < line.Length && line[length] == NUL && IsPiece(piece, line[..length], line.Length)
    ensures length >= 0 ==> k.failures == old(k.failures)
    ensures length < 0 ==> length == -1 && IsFragment(piece, line.Length)
    ensures length < 0 ==> k.failures > old(k.failures) || rest == ""
    ensures k.failures >= old(k.failures)
  {
    ghost var input := k.fds[0].pending;
    length, piece, rest := 0, "", input;
    assert "" + input == input;
    LeftAgain(k.fds, 0, "", "");
    assert Reading(input, rest, piece, line[..0], line.Length);
    hide Reading, IsPiece, IsFragment, Left;
    while length + 1 < line.Length
      invariant 0 <= length < line.Length
      invariant k.fds == Left(old(k.fds), 0, rest) && k.failures == old(k.failures)
      invariant Reading(input, rest, piece, line[..length], line.Length)
      decreases |rest|
    {
      ghost var before, text := rest, line[..length];
      var count, value;
      count, value, rest := ReadChar(k);
      LeftAgain(old(k.fds), 0, before, rest);
      ReadSoFar(input, before, piece, text, line.Length);
      if count <= 0 {
        return -1, piece, rest;
      }
      ReadOn(input, before, piece, text, line.Length, value, rest);
      piece := piece + [value];
      if value == '\r' {
        continue;
      }
      if value == '\n' {
        break;
      }
      line[length] := value;
      length := length + 1;
      assert line[..length] == text + [value];
    }
    ghost var text := line[..length];
    if length + 1 == line.Length {
      ReadFull(input, rest, piece, text, line.Length);
    }
    line[length] := NUL;
    assert line[..length] == text;
  }

  // The same input cannot be cut two ways.
  lemma PieceIsUnique(input: string, p: string, l: string, q: string, m: string, capacity: nat)
    requires IsPiece(p, l, capacity) && IsPiece(q, m, capacity) && p <= input && q <= input
    ensures p == q && l == m
  {
    if |p| < |q| {
      assert q == p + input[|p|..|q|];
      PieceIsWhole(p, l, input[|p|..|q|], m, capacity);
    } else if |q| < |p| {
      assert p == q + input[|q|..|p|];
      PieceIsWhole(q, m, input[|q|..|p|], l, capacity);
    }
  }

  // A piece does not extend to a longer piece.
  lemma PieceIsWhole(p: string, l: string, rest: string, m: string, capacity: nat)
    requires IsPiece(p, l, capacity) && rest != ""
    ensures !IsPiece(p + rest, m, capacity)
  {
    var q, more, last := p + rest, rest[..|rest| - 1], rest[|rest| - 1];
    assert q == (p + more) + [last] && q[..|q| - 1] == p + more;
    VisibleSnoc(p + more, last);
    VisibleGrows(p, more);
    assert p != "" ==> q[|p| - 1] == p[|p| - 1] && q[..|q| - 1][|p| - 1] == p[|p| - 1];
  }

  lemma {:induction false} VisibleGrows(s: string, t: string)
    ensures |Visible(s)| <= |Visible(s + t)|
  {
    if t == "" {
      assert s + t == s;
    } else {
      VisibleGrows(s, t[..|t| - 1]);
      assert (s + t)[..|s + t| - 1] == s + t[..|t| - 1];
    }
  }

  // ---- The loop ------------------------------------------------------------------------------

  // One round: a command line was read and run, or the read failed part way through.
  datatype Round = Ran(piece: string, args: seq<string>) | Dropped(piece: string)

  ghost predicate IsRound(round: Round) {
    match round
    case Ran(piece, args) =>
      IsPiece(piece, Visible(piece), 256) && args == Arguments(CString(Visible(piece)), 16)
    case Dropped(piece) => IsFragment(piece, 256)
  }

  function Consumed(log: seq<Round>): string {
    if log == [] then "" else Consumed(log[..|log| - 1]) + log[|log| - 1].piece
  }

  function RunBy(log: seq<Round>): seq<seq<string>> {
    if log == [] then []
    else RunBy(log[..|log| - 1]) + if log[|log| - 1].Ran? then [log[|log| - 1].args] else []
  }

  // What the loop itself puts on the console: a prompt a round, and a line end where no line
  // came.
  function Shown(log: seq<Round>): string {
    if log == [] then ""
    else Shown(log[..|log| - 1]) + "tinysh# " + if log[|log| - 1].Dropped? then "\n" else ""
  }

  lemma LogSnoc(log: seq<Round>, round: Round)
    ensures Consumed(log + [round]) == Consumed(log) + round.piece
    ensures RunBy(log + [round]) == RunBy(log) + if round.Ran? then [round.args] else []
    ensures Shown(log + [round]) == Shown(log) + "tinysh# " + if round.Dropped? then "\n" else ""
  {
    assert (log + [round])[..|log|] == log;
  }

  // One turn of the endless loop of _start: the arguments passed to run_command, if a line
  // was read. What the commands do is not part of this loop.
  method Turn(k: Kernel, line: array<char>, argv: array<Pointer>)
    returns (args: Option<seq<string>>, ghost round: Round, ghost rest: string)
    requires 0 in k.fds && line.Length == LINE_CAPACITY && argv.Length == ARGV_CAPACITY
    modifies k`fds, k`failures, k`console, line, argv
    ensures k.fds == Left(old(k.fds), 0, rest) && old(k.fds)[0].pending == round.piece + rest
    ensures IsRound(round) && args == if round.Ran? then Some(round.args) else None
    ensures k.failures >= old(k.failures)
    ensures round.Dropped? ==> k.failures > old(k.failures) || rest == ""
    ensures k.console == old(k.console) + "tinysh# " + if round.Dropped? then "\n" else ""
  {
    k.Put("tinysh# ");
    var length;
    ghost var piece;
    length, piece, rest := ReadLine(k, line);
    if length < 0 {
      k.Put("\n");
      return None, Dropped(piece), rest;
    }
    var words := TakeArguments(line, argv, length);
    args, round := Some(words), Ran(piece, words);
  }

  lemma Consume(consumed: string, before: string, piece: string, rest: string)
    requires before == piece + rest
    ensures consumed + before == (consumed + piece) + rest && |before| >= |rest|
  {
  }

  lemma Onward(start: string, shown: string, before: string, now: string, end: string)
    requires before == start + shown && now == before + "tinysh# " + end
    ensures now == start + (shown + "tinysh# " + end)
  {
  }

  method Serve(k: Kernel, rounds: nat) returns (ran: seq<seq<string>>, ghost log: seq<Round>, ghost rest: string)
    requires 0 in k.fds
    modifies k`fds, k`failures, k`console
    ensures k.fds == Left(old(k.fds), 0, rest) && old(k.fds)[0].pending == Consumed(log) + rest
    ensures |log| == rounds && (forall r :: 0 <= r < rounds ==> IsRound(log[r])) && ran == RunBy(log)
    ensures k.failures == old(k.failures) && rest != "" ==> forall r :: 0 <= r < rounds ==> log[r].Ran?
    ensures k.console == old(k.console) + Shown(log)
  {
    var line := new char[LINE_CAPACITY];
    var argv: array<Pointer> := new Pointer[ARGV_CAPACITY](_ => Null);
    ghost var input := k.fds[0].pending;
    ran, log, rest := [], [], input;
    assert Consumed([]) + input == input && RunBy([]) == [] && Shown([]) == "";
    LeftAgain(k.fds, 0, "", "");
    assert k.console + Shown([]) == k.console;
    hide Consumed, RunBy, Shown, IsRound, Left;
    var turn := 0;
    while turn < rounds
      invariant k.fds == Left(old(k.fds), 0, rest) && input == Consumed(log) + rest
      invariant turn <= rounds && |log| == turn && ran == RunBy(log)
      invariant k.console == old(k.console) + Shown(log)
      invariant forall r :: 0 <= r < turn ==> IsRound(log[r])
      invariant k.failures >= old(k.failures)
      invariant k.failures == old(k.failures) && rest != "" ==> forall r :: 0 <= r < turn ==> log[r].Ran?
    {
      ghost var before, round := rest, Dropped("");
      var args;
      ghost var console := k.console;
      args, round, rest := Turn(k, line, argv);
      LeftAgain(old(k.fds), 0, before, rest);
      Onward(old(k.console), Shown(log), console, k.console, if round.Dropped? then "\n" else "");
      Consume(Consumed(log), before, round.piece, rest);
      LogSnoc(log, round);
      log := log + [round];
      ran := ran + if args.Some? then [args.value] else [];
      turn := turn + 1;
    }
  }

  // split_args on the line just read, and the strings its pointers denote.
  method TakeArguments(line: array<char>, argv: array<Pointer>, length: nat) returns (args: seq<string>)
    requires length < line.Length && line[length] == NUL && argv.Length > 0
    modifies line, argv
    ensures args == Arguments(CString(old(line[..length])), argv.Length)
  {
    ghost var text := line[..length];
    CStringPrefix(text);
    ghost var n := |CString(text)|;
    assert line[..n] == CString(text);
    var argc := SplitArgs(line, argv, n);
    args := [];
    while |args| < argc
      invariant |args| <= argc
      invariant args == Arguments(CString(text), argv.Length)[..|args|]
    {
      args := args + [CString(line[argv[|args|].index..])];
    }
  }

  // ---- Echoing a line back ---------------------------------------------------------------------

  function Room(words: seq<string>): nat {
    if words == [] then 0 else Room(words[..|words| - 1]) + |words[|words| - 1]| + 1
  }

  lemma RoomSnoc(words: seq<string>, w: string)
    ensures Room(words + [w]) == Room(words) + |w| + 1
  {
    assert (words + [w])[..|words|] == words;
  }

  lemma {:induction false} JoinRoom(words: seq<string>)
    requires words != []
    ensures |Join(words, ' ')| + 1 == Room(words)
  {
    if |words| > 1 {
      JoinRoom(words[..|words| - 1]);
    } else {
      assert words[..0] == [];
    }
  }

  lemma {:induction false} WordsRoom(s: string)
    ensures Room(Words(s, BLANKS)) <= |s| + 1
    ensures ScanWords(s, BLANKS).word == "" ==> Room(Words(s, BLANKS)) <= |s|
  {
    if s != "" {
      var t := s[..|s| - 1];
      WordsRoom(t);
      var before, after := ScanWords(t, BLANKS), ScanWords(s, BLANKS);
      RoomSnoc(before.done, before.word);
      RoomSnoc(after.done, after.word);
    }
  }

  lemma {:induction false} RoomParts(words: seq<string>, from: nat, to: nat)
    requires from <= to <= |words|
    ensures Room(words[from..to]) <= Room(words)
  {
    if to < |words| {
      var init := words[..|words| - 1];
      RoomParts(init, from, to);
      assert forall i :: 0 <= i < to - from ==> init[from..to][i] == words[from + i];
      assert init[from..to] == words[from..to];
    } else if from == to {
      assert words[from..to] == [];
    } else {
      var init := words[..|words| - 1];
      RoomParts(init, from, |init|);
      assert init[from..|init|] == init[from..];
      assert words[from..to] == init[from..] + [words[to - 1]];
      RoomSnoc(init[from..], words[to - 1]);
    }
  }

  lemma {:induction false} VisibleWithout(s: string)
    requires WithoutAny(s, {'\r', '\n'})
    ensures Visible(s) == s
  {
    if s != "" {
      VisibleWithout(s[..|s| - 1]);
      assert s == s[..|s| - 1] + [s[|s| - 1]];
    }
  }

  lemma {:induction false} JoinClean(words: seq<string>)
    requires AreWords(words, BLANKS)
    ensures WithoutAny(Join(words, ' '), {'\r', '\n'})
  {
    if |words| > 1 {
      JoinClean(words[..|words| - 1]);
    }
  }

  // What echo prints for a line the shell has read is again a line the shell reads whole, and
  // it splits into exactly the echoed arguments: no buffer of either size cuts it.
  lemma EchoedLineReadsBack(line: string)
    requires |line| < LINE_CAPACITY
    requires Arguments(line, ARGV_CAPACITY) != []
    ensures var args := Arguments(line, ARGV_CAPACITY);
            var text := EchoText(args);
            && IsPiece(text, text[..|text| - 1], LINE_CAPACITY)
            && Arguments(text[..|text| - 1], ARGV_CAPACITY) == args[1..]
  {
    var words, args := Words(line, BLANKS), Arguments(line, ARGV_CAPACITY);
    WordsAreWords(line, BLANKS);
    var echoed := args[1..];
    var joined := Join(echoed, ' ');
    assert EchoText(args)[..|joined|] == joined;
    WordsJoin(echoed, ' ', BLANKS);
    JoinClean(echoed);
    VisibleWithout(joined);
    VisibleSnoc(joined, '\n');
    assert joined + "" == joined;
    if echoed != [] {
      JoinRoom(echoed);
      WordsRoom(line);
      EchoedRoom(words, |args|);
      assert echoed == words[1..|args|];
    }
  }

  lemma EchoedRoom(words: seq<string>, n: nat)
    requires 1 < n <= |words|
    ensures Room(words[1..n]) < Room(words)
  {
    RoomParts(words, 0, n);
    RoomHead(words[..n]);
    assert words[0..n] == words[..n] && words[..n][1..] == words[1..n];
  }

  lemma {:induction false} RoomHead(words: seq<string>)
    requires words != []
    ensures Room(words) == |words[0]| + 1 + Room(words[1..])
  {
    var init := words[..|words| - 1];
    if init != [] {
      RoomHead(init);
      assert words[1..] == init[1..] + [words[|words| - 1]];
      RoomSnoc(init[1..], words[|words| - 1]);
    }
  }
}
