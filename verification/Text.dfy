// Text shared by the shell, the HTTP client, the build scripts and the test harness:
// C strings, splitting at a separator, and splitting into whitespace-separated words.
module Text {

  datatype Option<+T> = None | Some(value: T)

  const NUL: char := '\0'

  // What the payload's is_space accepts.
  const BLANKS: set<char> := {' ', '\t', '\r', '\n'}

  ghost predicate Without(s: string, c: char) {
    forall i :: 0 <= i < |s| ==> s[i] != c
  }

  ghost predicate WithoutAny(s: string, seps: set<char>) {
    forall i :: 0 <= i < |s| ==> s[i] !in seps
  }

  // ---- C strings -------------------------------------------------------------------

  // Memory mem holds a C string of length n: n characters, none of them NUL, then NUL.
  ghost predicate Terminated(mem: seq<char>, n: nat) {
    n < |mem| && mem[n] == NUL && Without(mem[..n], NUL)
  }

  // The characters a C function sees in a text: those before the first NUL.
  function CString(s: string): string {
    if s == "" then ""
    else
      var before := CString(s[..|s| - 1]);
      if |before| < |s| - 1 || s[|s| - 1] == NUL then before else s
  }

  lemma {:induction false} CStringIs(s: string, n: nat)
    requires n <= |s| && Without(s[..n], NUL)
    requires n < |s| ==> s[n] == NUL
    ensures CString(s) == s[..n]
  {
    if |s| > 0 {
      var t := s[..|s| - 1];
      if n < |s| {
        assert t[..n] == s[..n];
        CStringIs(t, n);
      } else {
        assert forall i :: 0 <= i < |t| ==> t[i] == s[..n][i];
        assert t[..n - 1] == t;
        CStringIs(t, n - 1);
        assert s[..n][n - 1] != NUL;
        assert s[..n] == s;
      }
    }
  }

  // Every text has such an n, so CString is the longest NUL-free prefix.
  lemma {:induction false} CStringPrefix(s: string)
    ensures CString(s) <= s && Without(CString(s), NUL)
    ensures |CString(s)| < |s| ==> s[|CString(s)|] == NUL
  {
    if s != "" {
      CStringPrefix(s[..|s| - 1]);
    }
  }

  // ---- Splitting at a separator ------------------------------------------------------

  // The pieces between separators; a text without one is a single piece.
  function Split(s: string, sep: char): (pieces: seq<string>)
    ensures |pieces| > 0
  {
    if s == "" then [""]
    else
      Push(Split(s[..|s| - 1], sep), s[|s| - 1], sep)
  }

  // One more character read: a separator starts a piece, anything else extends the last one.
  function Push(pieces: seq<string>, c: char, sep: char): (more: seq<string>)
    requires |pieces| > 0
    ensures |more| > 0
  {
    if c == sep then pieces + [""] else pieces[..|pieces| - 1] + [pieces[|pieces| - 1] + [c]]
  }

  function Join(pieces: seq<string>, sep: char): string {
    if |pieces| == 0 then ""
    else if |pieces| == 1 then pieces[0]
    else Join(pieces[..|pieces| - 1], sep) + [sep] + pieces[|pieces| - 1]
  }

  lemma JoinSnoc(pieces: seq<string>, last: string, sep: char)
    requires pieces != []
    ensures Join(pieces + [last], sep) == Join(pieces, sep) + [sep] + last
  {
    assert (pieces + [last])[..|pieces|] == pieces;
  }

  lemma SplitSnoc(s: string, c: char, sep: char)
    ensures Split(s + [c], sep) == Push(Split(s, sep), c, sep)
  {
    assert (s + [c])[..|s|] == s;
  }

  lemma {:induction false} SplitPiecesClean(s: string, sep: char)
    ensures forall k :: 0 <= k < |Split(s, sep)| ==> Without(Split(s, sep)[k], sep)
  {
    if s != "" {
      SplitPiecesClean(s[..|s| - 1], sep);
    }
  }

  // A text without the separator is its own only piece.
  lemma {:induction false} SplitWhole(s: string, sep: char)
    requires Without(s, sep)
    ensures Split(s, sep) == [s]
  {
    if s != "" {
      SplitWhole(s[..|s| - 1], sep);
      assert s == s[..|s| - 1] + [s[|s| - 1]];
    }
  }

  // Two splittings put side by side: the pieces at the seam become one.
  function Glue(a: seq<string>, b: seq<string>): seq<string>
    requires |a| > 0 && |b| > 0
  {
    a[..|a| - 1] + [a[|a| - 1] + b[0]] + b[1..]
  }

  // Splitting is a homomorphism.
  lemma {:induction false} SplitConcat(s: string, t: string, sep: char)
    ensures Split(s + t, sep) == Glue(Split(s, sep), Split(t, sep))
  {
    if t == "" {
      assert s + t == s;
      var a := Split(s, sep);
      assert a[|a| - 1] + "" == a[|a| - 1];
    } else {
      var u, c := t[..|t| - 1], t[|t| - 1];
      var a, b := Split(s, sep), Split(u, sep);
      calc {
        Split(s + t, sep);
        { assert s + t == (s + u) + [c]; }
        Split((s + u) + [c], sep);
        { SplitSnoc(s + u, c, sep); SplitConcat(s, u, sep); }
        Push(Glue(a, b), c, sep);
        { GluePush(a, b, c, sep); }
        Glue(a, Push(b, c, sep));
        { assert t == u + [c]; SplitSnoc(u, c, sep); }
        Glue(a, Split(t, sep));
      }
    }
  }

  lemma GluePush(a: seq<string>, b: seq<string>, c: char, sep: char)
    requires |a| > 0 && |b| > 0
    ensures Glue(a, Push(b, c, sep)) == Push(Glue(a, b), c, sep)
  {
    if |b| == 1 {
      assert a[|a| - 1] + b[0] + [c] == a[|a| - 1] + (b[0] + [c]);
    }
  }

  // Reading a text piece by piece from the front.
  lemma SplitFirst(first: string, rest: string, sep: char)
    requires Without(first, sep)
    ensures Split(first + [sep] + rest, sep) == [first] + Split(rest, sep)
  {
    SplitWhole(first, sep);
    SplitSnoc(first, sep, sep);
    SplitConcat(first + [sep], rest, sep);
    var b := Split(rest, sep);
    assert "" + b[0] == b[0];
  }

  lemma JoinPush(pieces: seq<string>, c: char, sep: char)
    requires pieces != []
    ensures Join(Push(pieces, c, sep), sep) == Join(pieces, sep) + [c]
  {
    if c == sep {
      JoinSnoc(pieces, "", sep);
      assert Join(pieces, sep) + [sep] + "" == Join(pieces, sep) + [sep];
    } else {
      var init, last := pieces[..|pieces| - 1], pieces[|pieces| - 1];
      assert pieces == init + [last];
      if init != [] {
        JoinSnoc(init, last, sep);
        JoinSnoc(init, last + [c], sep);
        assert Join(init, sep) + [sep] + (last + [c]) == Join(init, sep) + [sep] + last + [c];
      }
    }
  }

  lemma {:induction false} JoinSplit(s: string, sep: char)
    ensures Join(Split(s, sep), sep) == s
  {
    if s != "" {
      hide Split, Join, Push;
      var t, c := s[..|s| - 1], s[|s| - 1];
      assert s == t + [c];
      SplitSnoc(t, c, sep);
      JoinPush(Split(t, sep), c, sep);
      JoinSplit(t, sep);
    }
  }

  lemma {:induction false} SplitJoin(pieces: seq<string>, sep: char)
    requires |pieces| > 0
    requires forall k :: 0 <= k < |pieces| ==> Without(pieces[k], sep)
    ensures Split(Join(pieces, sep), sep) == pieces
  {
    var init, last := pieces[..|pieces| - 1], pieces[|pieces| - 1];
    assert pieces == init + [last];
    if init == [] {
      SplitWhole(last, sep);
    } else {
      SplitJoin(init, sep);
      SplitLast(Join(init, sep), last, sep);
      JoinSnoc(init, last, sep);
    }
  }

  lemma SplitLast(s: string, last: string, sep: char)
    requires Without(last, sep)
    ensures Split(s + [sep] + last, sep) == Split(s, sep) + [last]
  {
    SplitSnoc(s, sep, sep);
    SplitConcat(s + [sep], last, sep);
    SplitWhole(last, sep);
    assert "" + last == last;
  }

  // The lines a newline has ended; text after the last newline is not one of them.
  function Lines(text: string): seq<string> {
    Split(text, '\n')[..|Split(text, '\n')| - 1]
  }

  // ---- Subsequences ----------------------------------------------------------------------

  // part is text with some characters taken out; what is left keeps its order.
  ghost predicate Subsequence(part: string, text: string)
    decreases |text|
  {
    || part == ""
    || (text != "" && Subsequence(part, text[..|text| - 1]))
    || (text != "" && part[|part| - 1] == text[|text| - 1] && Subsequence(part[..|part| - 1], text[..|text| - 1]))
  }

  lemma {:induction false} SubsequenceGrows(part: string, text: string, more: string)
    requires Subsequence(part, text)
    ensures Subsequence(part, text + more)
  {
    if more == "" {
      assert text + more == text;
    } else {
      SubsequenceGrows(part, text, more[..|more| - 1]);
      assert (text + more)[..|text + more| - 1] == text + more[..|more| - 1];
    }
  }

  // Taking out of two texts is taking out of the two put together.
  lemma {:induction false} SubsequenceAppend(a: string, s: string, b: string, t: string)
    requires Subsequence(a, s) && Subsequence(b, t)
    ensures Subsequence(a + b, s + t)
    decreases |t|
  {
    if b == "" {
      assert a + b == a;
      SubsequenceGrows(a, s, t);
    } else {
      var init := t[..|t| - 1];
      assert (s + t)[..|s + t| - 1] == s + init;
      if Subsequence(b, init) {
        SubsequenceAppend(a, s, b, init);
      } else {
        SubsequenceAppend(a, s, b[..|b| - 1], init);
        assert (a + b)[..|a + b| - 1] == a + b[..|b| - 1];
      }
    }
  }

  lemma {:induction false} PrefixIsSubsequence(part: string, text: string)
    requires part <= text
    ensures Subsequence(part, text)
  {
    if part != "" {
      var init := part[..|part| - 1];
      PrefixIsSubsequence(init, init);
      SubsequenceGrows(part, part, text[|part|..]);
      assert part + text[|part|..] == text;
    }
  }

  // ---- The first place of a character --------------------------------------------------

  function Find(s: string, c: char): (i: nat)
    ensures i <= |s|
  {
    if s == "" || s[0] == c then 0 else 1 + Find(s[1..], c)
  }

  lemma {:induction false} FindIs(s: string, c: char)
    ensures Without(s[..Find(s, c)], c) && (Find(s, c) < |s| ==> s[Find(s, c)] == c)
  {
    if s != "" && s[0] != c {
      FindIs(s[1..], c);
      assert forall i :: 0 < i < Find(s, c) ==> s[..Find(s, c)][i] == s[1..][..Find(s[1..], c)][i - 1];
    }
  }

  lemma {:induction false} FindAt(before: string, c: char, rest: string)
    requires Without(before, c)
    ensures Find(before + [c] + rest, c) == |before|
  {
    if before != "" {
      FindAt(before[1..], c, rest);
      assert (before + [c] + rest)[1..] == before[1..] + [c] + rest;
    }
  }

  // ---- Words -------------------------------------------------------------------------

  // What a left-to-right reader knows: the words already ended, and the word under way.
  datatype Scan = Scan(done: seq<string>, word: string)

  function ScanWords(s: string, seps: set<char>): Scan {
    if s == "" then Scan([], "")
    else
      var before := ScanWords(s[..|s| - 1], seps);
      var c := s[|s| - 1];
      if c !in seps then Scan(before.done, before.word + [c])
      else if before.word == "" then before
      else Scan(before.done + [before.word], "")
  }

  // The maximal runs of non-separators, in order.
  function Words(s: string, seps: set<char>): seq<string> {
    var r := ScanWords(s, seps);
    if r.word == "" then r.done else r.done + [r.word]
  }

  lemma ScanSnoc(s: string, c: char, seps: set<char>)
    ensures ScanWords(s + [c], seps) ==
            var before := ScanWords(s, seps);
            if c !in seps then Scan(before.done, before.word + [c])
            else if before.word == "" then before
            else Scan(before.done + [before.word], "")
  {
    assert (s + [c])[..|s|] == s;
  }

  ghost predicate IsWord(w: string, seps: set<char>) {
    w != "" && WithoutAny(w, seps)
  }

  ghost predicate AreWords(ws: seq<string>, seps: set<char>) {
    forall k :: 0 <= k < |ws| ==> IsWord(ws[k], seps)
  }

  lemma {:induction false} WordsAreWords(s: string, seps: set<char>)
    ensures AreWords(Words(s, seps), seps) && AreWords(ScanWords(s, seps).done, seps)
    ensures WithoutAny(ScanWords(s, seps).word, seps)
  {
    if s != "" {
      WordsAreWords(s[..|s| - 1], seps);
    }
  }

  // Words hold no character the text does not hold.
  lemma {:induction false} WordsWithout(s: string, c: char, seps: set<char>)
    requires Without(s, c)
    ensures Without(ScanWords(s, seps).word, c)
    ensures forall k :: 0 <= k < |Words(s, seps)| ==> Without(Words(s, seps)[k], c)
    ensures forall k :: 0 <= k < |ScanWords(s, seps).done| ==> Without(ScanWords(s, seps).done[k], c)
  {
    if s != "" {
      WordsWithout(s[..|s| - 1], c, seps);
    }
  }

  // Reading on only adds to the words already ended.
  lemma {:induction false} ScanGrows(s: string, t: string, seps: set<char>)
    ensures ScanWords(s, seps).done <= ScanWords(s + t, seps).done
  {
    if t == "" {
      assert s + t == s;
    } else {
      var u, c := t[..|t| - 1], t[|t| - 1];
      ScanGrows(s, u, seps);
      assert s + t == (s + u) + [c];
      ScanSnoc(s + u, c, seps);
    }
  }

  // Stopping where a word ends yields a prefix of all the words.
  lemma WordsPrefix(s: string, t: string, seps: set<char>)
    requires t == "" || t[0] in seps
    ensures Words(s, seps) <= Words(s + t, seps)
  {
    if t == "" {
      assert s + t == s;
    } else {
      ScanSnoc(s, t[0], seps);
      ScanGrows(s + [t[0]], t[1..], seps);
      assert s + [t[0]] + t[1..] == s + t;
    }
  }

  // Scanning a word after an ended word only extends the word under way.
  lemma {:induction false} ScanRun(s: string, w: string, seps: set<char>)
    requires WithoutAny(w, seps)
    ensures ScanWords(s + w, seps) == Scan(ScanWords(s, seps).done, ScanWords(s, seps).word + w)
  {
    var before := ScanWords(s, seps);
    if w == "" {
      assert s + w == s && before.word + w == before.word;
    } else {
      var u, c := w[..|w| - 1], w[|w| - 1];
      ScanRun(s, u, seps);
      assert s + w == (s + u) + [c] && before.word + w == (before.word + u) + [c];
      ScanSnoc(s + u, c, seps);
    }
  }

  lemma ScanLast(s: string, sep: char, last: string, seps: set<char>)
    requires sep in seps && WithoutAny(last, seps)
    ensures ScanWords(s + [sep] + last, seps) == Scan(Words(s, seps), last)
  {
    ScanSnoc(s, sep, seps);
    ScanRun(s + [sep], last, seps);
    assert "" + last == last;
  }

  lemma {:induction false} ScanJoin(init: seq<string>, last: string, sep: char, seps: set<char>)
    requires AreWords(init, seps) && IsWord(last, seps) && sep in seps
    ensures ScanWords(Join(init + [last], sep), seps) == Scan(init, last)
  {
    if init == [] {
      assert init + [last] == [last] && "" + last == last;
      ScanRun("", last, seps);
    } else {
      var most, word := init[..|init| - 1], init[|init| - 1];
      assert init == most + [word];
      ScanJoin(most, word, sep, seps);
      JoinSnoc(init, last, sep);
      ScanLast(Join(init, sep), sep, last, seps);
    }
  }

  // Joining words with one separator and splitting again is the identity.
  lemma WordsJoin(ws: seq<string>, sep: char, seps: set<char>)
    requires AreWords(ws, seps) && sep in seps
    ensures Words(Join(ws, sep), seps) == ws
  {
    if ws != [] {
      var init, last := ws[..|ws| - 1], ws[|ws| - 1];
      assert ws == init + [last];
      ScanJoin(init, last, sep, seps);
    }
  }
}
