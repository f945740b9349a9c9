// The console reader of scripts/test-packages.py: Guest.read cuts the console stream into
// lines as chunks of it arrive, and boot checks the order in which the markers were seen.
module Guest {
  import opened Text

  const MARKERS: seq<string> := ["RAPT_ACCEPT_BEGIN", "RAPT_CHILD_COUNT=100", "RAPT_CHILD_PASS",
                                 "RAPT_SLEEP_BEGIN", "RAPT_SLEEP_PASS", "RAPT_ACCEPT_END"]
  const BASELINE: string := "RAPT_BASELINE_PASS"
  const FAILED: seq<string> := ["RAPT_CHILD_FAIL", "RAPT_SLEEP_FAIL", "RAPT_BASELINE_FAIL"]

  predicate Failing(line: string) {
    line in FAILED
  }

  predicate Recorded(line: string) {
    line in MARKERS || line == BASELINE
  }

  // ---- The events of a list of lines -----------------------------------------------------------

  // The recorded lines, each where it is seen first.
  function FirstSeen(lines: seq<string>): seq<string> {
    if lines == [] then []
    else
      var before, line := FirstSeen(lines[..|lines| - 1]), lines[|lines| - 1];
      if Recorded(line) && line !in before then before + [line] else before
  }

  lemma FirstSeenSnoc(lines: seq<string>, line: string)
    ensures FirstSeen(lines + [line]) ==
            var before := FirstSeen(lines);
            if Recorded(line) && line !in before then before + [line] else before
  {
    assert (lines + [line])[..|lines|] == lines;
  }

  // FirstSeen is what its name says: it holds the recorded lines, once each, in the order of
  // their first occurrences.
  lemma {:induction false} FirstSeenIsFirst(lines: seq<string>)
    ensures forall m :: m in FirstSeen(lines) <==> (m in MARKERS || m == "RAPT_BASELINE_PASS") && m in lines
    ensures forall i, j :: 0 <= i < j < |FirstSeen(lines)| ==> FirstSeen(lines)[i] != FirstSeen(lines)[j]
    ensures forall i, j :: 0 <= i < j < |FirstSeen(lines)| ==>
              FirstAt(lines, FirstSeen(lines)[i]) < FirstAt(lines, FirstSeen(lines)[j])
  {
    hide MARKERS;
    if lines != [] {
      var init, line := lines[..|lines| - 1], lines[|lines| - 1];
      FirstSeenIsFirst(init);
      FirstAtBelow(init, line);
      assert lines == init + [line];
      forall m | m in init ensures FirstAt(lines, m) == FirstAt(init, m) < |init| {
        FirstAtBelow(init, m);
      }
    }
  }

  // The position of the first occurrence of m, or the length without one.
  function FirstAt(lines: seq<string>, m: string): (i: nat)
    ensures i <= |lines|
  {
    if lines == [] then 0
    else
      var before := FirstAt(lines[..|lines| - 1], m);
      if before < |lines| - 1 || lines[|lines| - 1] == m then before else |lines|
  }

  lemma {:induction false} FirstAtBelow(lines: seq<string>, m: string)
    ensures FirstAt(lines, m) < |lines| <==> m in lines
    ensures FirstAt(lines, m) < |lines| ==> lines[FirstAt(lines, m)] == m
    ensures forall i :: 0 <= i < FirstAt(lines, m) ==> lines[i] != m
  {
    if lines != [] {
      FirstAtBelow(lines[..|lines| - 1], m);
    }
  }

  // ---- Guest.read --------------------------------------------------------------------------------

  const FAILURES: seq<string> := ["Kernel panic", "Oops:", "Unable to handle kernel", "BUG:",
                                  "No working init found", "Attempted to kill init", "rcu: INFO:"]

  predicate Contains(text: string, part: string) {
    exists i | 0 <= i <= |text| :: part <= text[i..]
  }

  predicate ShowsFailure(text: string) {
    exists k | 0 <= k < |FAILURES| :: Contains(text, FAILURES[k])
  }

  // part stands somewhere in text.
  ghost predicate Holds(text: string, part: string) {
    exists before, after :: text == before + part + after
  }

  lemma ContainsIs(text: string, part: string)
    ensures Contains(text, part) <==> Holds(text, part)
  {
    forall i | 0 <= i <= |text| && part <= text[i..] ensures Holds(text, part) {
      assert text == text[..i] + part + text[i + |part|..];
    }
    forall before, after | text == before + part + after ensures Contains(text, part) {
      assert text[|before|..] == part + after;
      assert part <= text[|before|..];
    }
  }

  // The kernel has reported a failure in this text.
  ghost predicate Panics(text: string) {
    || Holds(text, "Kernel panic") || Holds(text, "Oops:") || Holds(text, "Unable to handle kernel")
    || Holds(text, "BUG:") || Holds(text, "No working init found") || Holds(text, "Attempted to kill init")
    || Holds(text, "rcu: INFO:")
  }

  lemma ShowsFailureIs(text: string)
    ensures ShowsFailure(text) <==> Panics(text)
  {
    hide Contains, Holds;
    forall k | 0 <= k < |FAILURES| ensures Contains(text, FAILURES[k]) <==> Holds(text, FAILURES[k]) {
      ContainsIs(text, FAILURES[k]);
    }
    var f := FAILURES;
    assert |f| == 7;
    assert Panics(text) <==> Holds(text, f[0]) || Holds(text, f[1]) || Holds(text, f[2]) || Holds(text, f[3])
                             || Holds(text, f[4]) || Holds(text, f[5]) || Holds(text, f[6]);
  }

  // A line by which the guest itself says that a test failed.
  ghost predicate SaysFailed(line: string) {
    line == "RAPT_CHILD_FAIL" || line == "RAPT_SLEEP_FAIL" || line == "RAPT_BASELINE_FAIL"
  }

  // What clean does to a text; which characters it drops does not matter here.
  type Clean = string -> string

  function Cleaned(lines: seq<string>, clean: Clean): (out: seq<string>)
    ensures |out| == |lines| && forall i :: 0 <= i < |lines| ==> out[i] == clean(lines[i])
  {
    seq(|lines|, i requires 0 <= i < |lines| => clean(lines[i]))
  }

  lemma FailingIs(line: string)
    ensures Failing(line) <==> SaysFailed(line)
  {
  }

  // What follows the last newline of a stream.
  function Pending(stream: string): string {
    Split(stream, '\n')[|Split(stream, '\n')| - 1]
  }

  // Splitting what was pending together with what arrives continues the split of the stream.
  lemma SplitContinues(stream: string, data: string)
    ensures Split(stream + data, '\n') == Lines(stream) + Split(Pending(stream) + data, '\n')
  {
    hide Split;
    SplitConcat(stream, data, '\n');
    SplitPiecesClean(stream, '\n');
    SplitWhole(Pending(stream), '\n');
    SplitConcat(Pending(stream), data, '\n');
  }

  datatype Event = Event(marker: string, time: int)

  function MarkersOf(events: seq<Event>): (out: seq<string>)
    ensures |out| == |events| && forall i :: 0 <= i < |events| ==> out[i] == events[i].marker
  {
    seq(|events|, i requires 0 <= i < |events| => events[i].marker)
  }

  ghost predicate Increasing(events: seq<Event>, clock: int) {
    && (forall i, j :: 0 <= i < j < |events| ==> events[i].time < events[j].time)
    && (forall i :: 0 <= i < |events| ==> events[i].time < clock)
  }

  lemma LaterEvent(events: seq<Event>, clock: int, marker: string, time: int)
    requires Increasing(events, clock) && clock <= time
    ensures Increasing(events + [Event(marker, time)], time + 1)
  {
  }

  // The events are those of these lines, whatever chunks they came in.
  ghost predicate EventsOf(events: seq<Event>, lines: seq<string>, clean: Clean) {
    MarkersOf(events) == FirstSeen(Cleaned(lines, clean))
  }

  class Console {
    const clean: Clean
    var raw: string
    var tail: string           // the attribute partial
    var events: seq<Event>     // in the order of insertion
    var clock: int

    ghost predicate Valid()
      reads this
    {
      tail == Pending(raw) && EventsOf(events, Lines(raw), clean) && Increasing(events, clock)
    }

    constructor (clean: Clean)
      ensures Valid() && raw == "" && this.clean == clean
    {
      this.clean := clean;
      raw, tail, events, clock := "", "", [], 0;
      new;
      assert Cleaned(Lines(""), clean) == [];
    }

    // One chunk of an ASCII stream. When ok is false an error has been raised, and the
    // caller gives up.
    method Read(data: string) returns (ok: bool)
      requires Valid()
      modifies this
      ensures raw == old(raw) + data && Lines(old(raw)) <= Lines(raw)
      ensures ok ==> Valid()
      ensures ok <==>
                && (forall k :: |Lines(old(raw))| <= k < |Lines(raw)| ==> !SaysFailed(clean(Lines(raw)[k])))
                && !Panics(clean(raw))
    {
      hide ShowsFailure, Panics, SaysFailed, FirstSeen;
      ghost var stream := raw;
      SplitContinues(raw, data);
      raw := raw + data;
      tail := tail + data;
      ok := TakeLines(stream, data);
      if ok {
        ok := !ShowsFailure(clean(raw));
        ShowsFailureIs(clean(raw));
      }
    }

    method TakeLines(ghost stream: string, ghost data: string) returns (ok: bool)
      requires tail == Pending(stream) + data && raw == stream + data
      requires Split(raw, '\n') == Lines(stream) + Split(tail, '\n')
      requires EventsOf(events, Lines(stream), clean) && Increasing(events, clock)
      modifies this`tail, this`events, this`clock
      ensures ok ==> Valid()
      ensures ok <==> forall k :: |Lines(stream)| <= k < |Lines(raw)| ==> !SaysFailed(clean(Lines(raw)[k]))
    {
      hide Failing, SaysFailed, EventsOf, Increasing, Split;
      ghost var all := Lines(raw);
      ghost var n := |Lines(stream)|;
      ghost var done := n;
      assert all[..n] == Lines(stream);
      while '\n' in tail
        invariant n <= done <= |all| && Split(tail, '\n') == Split(raw, '\n')[done..]
        invariant EventsOf(events, all[..done], clean) && Increasing(events, clock)
        invariant forall k :: n <= k < done ==> !SaysFailed(clean(all[k]))
        decreases |tail|
      {
        var line, rest := CutLine(tail);
        assert Split(tail, '\n') == [line] + Split(rest, '\n');
        assert Split(raw, '\n')[done..][1..] == Split(raw, '\n')[done + 1..];
        assert line == all[done] && all[..done + 1] == all[..done] + [line];
        tail := rest;
        Record(clean(line), all[..done], line);
        done := done + 1;
        FailingIs(clean(line));
        if Failing(clean(line)) {
          assert SaysFailed(clean(Lines(raw)[done - 1]));
          return false;
        }
      }
      SplitWhole(tail, '\n');
      assert all[..done] == all;
      ok := true;
    }

    // The bookkeeping for one line; each event gets a later time than the ones before it.
    method Record(text: string, ghost lines: seq<string>, ghost line: string)
      requires EventsOf(events, lines, clean) && Increasing(events, clock) && text == clean(line)
      modifies this`events, this`clock
      ensures EventsOf(events, lines + [line], clean) && Increasing(events, clock)
    {
      hide Recorded, FirstSeen;
      FirstSeenSnoc(Cleaned(lines, clean), text);
      assert Cleaned(lines + [line], clean) == Cleaned(lines, clean) + [text];
      if Recorded(text) && text !in MarkersOf(events) {
        var wait: int := *;
        wait := if wait < 0 then 0 else wait;
        ghost var before := MarkersOf(events);
        LaterEvent(events, clock, text, clock + wait);
        events := events + [Event(text, clock + wait)];
        assert MarkersOf(events) == before + [text];
        clock := clock + wait + 1;
      }
    }

    // Any number of chunks. Which lines are looked at does not depend on how they were cut;
    // the failure texts are looked for in what has arrived after each chunk.
    method Feed(chunks: seq<string>) returns (ok: bool)
      requires Valid() && raw == ""
      modifies this
      ensures ok ==> Valid() && raw == Concat(chunks)
      ensures ok <==> Undisturbed(chunks, |chunks|, clean)
    {
      assert Concat(chunks[..0]) == "" && Lines("") == [];
      hide Panics, SaysFailed, EventsOf, Increasing, Lines, Pending, Undisturbed, Concat;
      assert Undisturbed(chunks, 0, clean) by { UndisturbedAtFirst(chunks, clean); }
      var i := 0;
      ok := true;
      while i < |chunks|
        invariant 0 <= i <= |chunks| && Valid() && raw == Concat(chunks[..i])
        invariant Undisturbed(chunks, i, clean)
      {
        ConcatSnoc(chunks, i);
        ok := Read(chunks[i]);
        OneMore(chunks, i, clean);
        if !ok {
          DisturbedForGood(chunks, i + 1, clean);
          return;
        }
        i := i + 1;
      }
      assert chunks[..i] == chunks;
    }
  }

  function Concat(chunks: seq<string>): string {
    if chunks == [] then "" else Concat(chunks[..|chunks| - 1]) + chunks[|chunks| - 1]
  }

  lemma ConcatSnoc(chunks: seq<string>, i: nat)
    requires i < |chunks|
    ensures Concat(chunks[..i + 1]) == Concat(chunks[..i]) + chunks[i]
  {
    assert chunks[..i + 1][..i] == chunks[..i];
  }

  // None of the lines is one of the guest's own reports of failure.
  ghost predicate NoneFailing(lines: seq<string>, clean: Clean) {
    forall k :: 0 <= k < |lines| ==> !SaysFailed(clean(lines[k]))
  }

  // No error is raised for the first n chunks: none of their lines reports a failure, and no
  // failure of the kernel was to be seen after any of them.
  ghost predicate Undisturbed(chunks: seq<string>, n: nat, clean: Clean)
    requires n <= |chunks|
  {
    && NoneFailing(Lines(Concat(chunks[..n])), clean)
    && forall i :: 0 < i <= n ==> !Panics(clean(Concat(chunks[..i])))
  }

  lemma UndisturbedAtFirst(chunks: seq<string>, clean: Clean)
    ensures Undisturbed(chunks, 0, clean)
  {
    assert Concat(chunks[..0]) == "" && Lines("") == [];
  }

  lemma OneMore(chunks: seq<string>, n: nat, clean: Clean)
    requires n < |chunks|
    ensures var was, now := Lines(Concat(chunks[..n])), Lines(Concat(chunks[..n + 1]));
            && was <= now
            && (Undisturbed(chunks, n + 1, clean) <==>
                  && Undisturbed(chunks, n, clean)
                  && (forall k :: |was| <= k < |now| ==> !SaysFailed(clean(now[k])))
                  && !Panics(clean(Concat(chunks[..n + 1]))))
  {
    hide Panics, SaysFailed, Lines, Concat;
    assert chunks[..n + 1][..n] == chunks[..n] && chunks[..n + 1][..n + 1] == chunks[..n + 1];
    LinesSoFar(chunks[..n + 1], n);
  }

  lemma DisturbedForGood(chunks: seq<string>, n: nat, clean: Clean)
    requires n <= |chunks| && !Undisturbed(chunks, n, clean)
    ensures !Undisturbed(chunks, |chunks|, clean)
  {
    hide Panics, SaysFailed, Lines, Concat;
    assert chunks[..|chunks|] == chunks;
    LinesSoFar(chunks, n);
  }

  // Lines that have ended stay as they are, whatever arrives later.
  lemma {:induction false} LinesSoFar(chunks: seq<string>, i: nat)
    requires i <= |chunks|
    ensures Lines(Concat(chunks[..i])) <= Lines(Concat(chunks))
    decreases |chunks|
  {
    if i == |chunks| {
      assert chunks[..i] == chunks;
    } else {
      var init := chunks[..|chunks| - 1];
      LinesSoFar(init, i);
      assert init[..i] == chunks[..i];
      SplitContinues(Concat(init), chunks[|chunks| - 1]);
    }
  }

  // partial.split('\n', 1)
  method CutLine(text: string) returns (line: string, rest: string)
    requires '\n' in text
    ensures text == line + ['\n'] + rest && Without(line, '\n')
    ensures Split(text, '\n') == [line] + Split(rest, '\n')
  {
    var i := 0;
    while text[i] != '\n'
      invariant 0 <= i < |text| && forall j :: 0 <= j < i ==> text[j] != '\n'
      invariant exists j :: i <= j < |text| && text[j] == '\n'
      decreases |text| - i
    {
      i := i + 1;
    }
    line, rest := text[..i], text[i + 1..];
    assert text == line + ['\n'] + rest;
    SplitFirst(line, rest, '\n');
  }

  // ---- The marker test of boot ----------------------------------------------------------------------

  datatype Verdict = MissingMarkers | OutOfOrder | Accepted

  ghost predicate AllSeen(lines: seq<string>) {
    && "RAPT_ACCEPT_BEGIN" in lines && "RAPT_CHILD_COUNT=100" in lines && "RAPT_CHILD_PASS" in lines
    && "RAPT_SLEEP_BEGIN" in lines && "RAPT_SLEEP_PASS" in lines && "RAPT_ACCEPT_END" in lines
  }

  // First occurrences follow the list of markers.
  ghost predicate InOrder(lines: seq<string>) {
    FirstAt(lines, "RAPT_ACCEPT_BEGIN") <= FirstAt(lines, "RAPT_CHILD_COUNT=100")
    <= FirstAt(lines, "RAPT_CHILD_PASS") <= FirstAt(lines, "RAPT_SLEEP_BEGIN")
    <= FirstAt(lines, "RAPT_SLEEP_PASS") <= FirstAt(lines, "RAPT_ACCEPT_END")
  }

  lemma MarkersSeen(lines: seq<string>)
    ensures AllSeen(lines) <==> forall i :: 0 <= i < |MARKERS| ==> MARKERS[i] in lines
  {
    var m := MARKERS;
    assert |m| == 6;
    assert AllSeen(lines) <==>
      m[0] in lines && m[1] in lines && m[2] in lines && m[3] in lines && m[4] in lines && m[5] in lines;
  }

  lemma MarkersInOrder(lines: seq<string>)
    ensures InOrder(lines) <==>
            forall i, j :: 0 <= i < j < |MARKERS| ==> FirstAt(lines, MARKERS[i]) <= FirstAt(lines, MARKERS[j])
  {
    hide FirstAt;
    var m := MARKERS;
    assert |m| == 6;
    assert InOrder(lines) <==>
      FirstAt(lines, m[0]) <= FirstAt(lines, m[1]) <= FirstAt(lines, m[2]) <= FirstAt(lines, m[3])
      <= FirstAt(lines, m[4]) <= FirstAt(lines, m[5]);
  }

  function IndexOf(events: seq<Event>, m: string): (i: nat)
    ensures i <= |events| && (i < |events| ==> events[i].marker == m)
    ensures i == |events| ==> m !in MarkersOf(events)
  {
    if events == [] then 0
    else if events[|events| - 1].marker == m then |events| - 1
    else
      var i := IndexOf(events[..|events| - 1], m);
      assert MarkersOf(events) == MarkersOf(events[..|events| - 1]) + [events[|events| - 1].marker];
      if i == |events| - 1 then |events| else i
  }

  lemma FirstSeenOrder(lines: seq<string>, i: nat, j: nat)
    requires i < j < |FirstSeen(lines)|
    ensures FirstAt(lines, FirstSeen(lines)[i]) < FirstAt(lines, FirstSeen(lines)[j])
  {
    hide FirstSeen, FirstAt;
    FirstSeenIsFirst(lines);
  }

  lemma TimesFollowLines(events: seq<Event>, clock: int, lines: seq<string>, a: string, b: string)
    requires MarkersOf(events) == FirstSeen(lines) && Increasing(events, clock)
    requires IndexOf(events, a) < |events| && IndexOf(events, b) < |events|
    ensures events[IndexOf(events, a)].time <= events[IndexOf(events, b)].time <==> FirstAt(lines, a) <= FirstAt(lines, b)
  {
    hide FirstSeen, FirstAt;
    var i, j := IndexOf(events, a), IndexOf(events, b);
    assert MarkersOf(events)[i] == a && MarkersOf(events)[j] == b;
    if i < j {
      FirstSeenOrder(lines, i, j);
    } else if j < i {
      FirstSeenOrder(lines, j, i);
    }
  }

  ghost function VerdictOn(lines: seq<string>): Verdict {
    if !AllSeen(lines) then MissingMarkers else if InOrder(lines) then Accepted else OutOfOrder
  }

  // The two tests on the recorded times. They decide exactly about the lines of the stream.
  method CheckOrder(events: seq<Event>, ghost clock: int, ghost lines: seq<string>) returns (verdict: Verdict)
    requires MarkersOf(events) == FirstSeen(lines) && Increasing(events, clock)
    ensures verdict == VerdictOn(lines)
  {
    MarkersSeen(lines);
    MarkersInOrder(lines);
    hide FirstSeen, FirstAt, IndexOf, AllSeen, InOrder, MARKERS;
    FirstSeenIsFirst(lines);
    var positions: seq<int> := [];
    while |positions| < |MARKERS|
      invariant |positions| <= |MARKERS|
      invariant forall i :: 0 <= i < |positions| ==> MARKERS[i] in lines && IndexOf(events, MARKERS[i]) < |events|
      invariant forall i :: 0 <= i < |positions| ==> positions[i] == events[IndexOf(events, MARKERS[i])].time
    {
      var m := MARKERS[|positions|];
      assert Recorded(m);
      var at := IndexOf(events, m);
      if at == |events| {
        return MissingMarkers;
      }
      assert MarkersOf(events)[at] == m;
      positions := positions + [events[at].time];
    }
    forall i, j | 0 <= i < j < |MARKERS|
      ensures positions[i] <= positions[j] <==> FirstAt(lines, MARKERS[i]) <= FirstAt(lines, MARKERS[j])
    {
      TimesFollowLines(events, clock, lines, MARKERS[i], MARKERS[j]);
    }
    var sorted := forall i, j | 0 <= i < j < |positions| :: positions[i] <= positions[j];
    verdict := if sorted then Accepted else OutOfOrder;
  }

  // From the first chunk to the verdict: what boot decides, as a function of the stream.
  method Accept(chunks: seq<string>, clean: Clean) returns (verdict: Option<Verdict>)
    ensures verdict.Some? <==> Undisturbed(chunks, |chunks|, clean)
    ensures chunks != [] && Panics(clean(Concat(chunks))) ==> verdict == None
    ensures verdict.Some? ==> verdict.value == VerdictOn(Cleaned(Lines(Concat(chunks)), clean))
  {
    assert chunks[..|chunks|] == chunks;
    assert Undisturbed(chunks, |chunks|, clean) && chunks != [] ==> !Panics(clean(Concat(chunks[..|chunks|])));
    hide Undisturbed, Panics, FirstSeen, Lines, Pending;
    var console := new Console(clean);
    var ok := console.Feed(chunks);
    if !ok {
      return None;
    }
    var decided := CheckOrder(console.events, console.clock, Cleaned(Lines(console.raw), clean));
    verdict := Some(decided);
  }

  // Two ways of cutting one stream lead to one verdict. They can differ only in whether an
  // error was raised, and only by what half-received text made visible.
  method AcceptBoth(one: seq<string>, other: seq<string>, clean: Clean)
    returns (verdict: Option<Verdict>, again: Option<Verdict>)
    requires Concat(one) == Concat(other)
    ensures verdict.Some? && again.Some? ==> verdict == again
    ensures !NoneFailing(Lines(Concat(one)), clean) ==> verdict == again == None
    ensures one != [] && other != [] && Panics(clean(Concat(one))) ==> verdict == again == None
  {
    hide VerdictOn, NoneFailing, Panics;
    assert one[..|one|] == one && other[..|other|] == other;
    verdict := Accept(one, clean);
    again := Accept(other, clean);
  }
}
