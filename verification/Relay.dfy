// The byte movers of the payload: the two-way loop of nc, and the copying loop of cp.
module Relay {
  import opened Text
  import opened Machine

  // ---- nc_relay ------------------------------------------------------------------------------

  // What sys_ppoll reports: an error, or which descriptors are ready to be read. A socket
  // also counts as ready when it has hung up or failed.
  datatype Poll = Failed | Ready(socket: bool, input: bool)

  datatype Status = Running | Ended(result: int)

  // What has passed in each direction, and whether some of it was lost to a stalled write.
  datatype Flow = Flow(fromSocket: string, toOutput: string, lostOutput: bool,
                       fromInput: string, toSocket: string, lostSocket: bool)

  // The descriptors after flow has passed, with these texts left to read.
  function Relayed(base: map<int, End>, sock: int, restSocket: string, restInput: string, flow: Flow): map<int, End>
    requires 0 in base && 1 in base && sock in base
  {
    Sent(Sent(Left(Left(base, sock, restSocket), 0, restInput), 1, flow.toOutput), sock, flow.toSocket)
  }

  // What has been read is accounted for in both directions. What was written is all of it, or
  // after a stalled write some of it, but never reordered, repeated or invented.
  ghost predicate Conserved(base: map<int, End>, sock: int, restSocket: string, restInput: string, flow: Flow)
    requires 0 in base && sock in base
  {
    && base[sock].pending == flow.fromSocket + restSocket && base[0].pending == flow.fromInput + restInput
    && Delivered(flow.toOutput, flow.fromSocket, flow.lostOutput)
    && Delivered(flow.toSocket, flow.fromInput, flow.lostSocket)
  }

  lemma SocketRead(base: map<int, End>, sock: int, rs: string, ri: string, flow: Flow, r: string)
    requires Open(base, sock)
    ensures Left(Relayed(base, sock, rs, ri, flow), sock, r) == Relayed(base, sock, r, ri, flow)
  {
  }

  lemma InputRead(base: map<int, End>, sock: int, rs: string, ri: string, flow: Flow, r: string)
    requires Open(base, sock)
    ensures Left(Relayed(base, sock, rs, ri, flow), 0, r) == Relayed(base, sock, rs, r, flow)
  {
  }

  lemma RelayWrite(base: map<int, End>, sock: int, rs: string, ri: string, flow: Flow, p: string)
    requires Open(base, sock)
    ensures Sent(Relayed(base, sock, rs, ri, flow), 1, p) ==
            Relayed(base, sock, rs, ri, flow.(toOutput := flow.toOutput + p))
    ensures Sent(Relayed(base, sock, rs, ri, flow), sock, p) ==
            Relayed(base, sock, rs, ri, flow.(toSocket := flow.toSocket + p))
  {
    assert base[1].outgoing + flow.toOutput + p == base[1].outgoing + (flow.toOutput + p);
    assert base[sock].outgoing + flow.toSocket + p == base[sock].outgoing + (flow.toSocket + p);
  }

  ghost predicate Open(fds: map<int, End>, sock: int) {
    && 0 in fds && 1 in fds && sock in fds && sock != 0 && sock != 1
    && fds[1].path == None && fds[sock].path == None
  }

  // How often each side was reported ready.
  function SocketReady(polls: seq<Poll>): nat {
    if polls == [] then 0
    else SocketReady(polls[..|polls| - 1]) + var p := polls[|polls| - 1]; if p.Ready? && p.socket then 1 else 0
  }

  function InputReady(polls: seq<Poll>): nat {
    if polls == [] then 0
    else InputReady(polls[..|polls| - 1]) + var p := polls[|polls| - 1]; if p.Ready? && p.input then 1 else 0
  }

  lemma ReadySnoc(polls: seq<Poll>, n: nat)
    requires n < |polls|
    ensures var p := polls[n];
            && SocketReady(polls[..n + 1]) == SocketReady(polls[..n]) + (if p.Ready? && p.socket then 1 else 0)
            && InputReady(polls[..n + 1]) == InputReady(polls[..n]) + if p.Ready? && p.input then 1 else 0
  {
    assert polls[..n + 1][..n] == polls[..n];
  }

  const BUFFER: nat := 512

  // Each of the polls served got at least a character from every side it reported ready, and
  // no side was read without having been reported; begun counts the poll that ended the loop.
  ghost predicate Progressed(polls: seq<Poll>, served: nat, begun: nat, flow: Flow)
    requires served <= |polls| && begun <= |polls|
  {
    && (forall i :: 0 <= i < served ==> polls[i].Ready?)
    && SocketReady(polls[..served]) <= |flow.fromSocket| <= BUFFER * SocketReady(polls[..begun])
    && InputReady(polls[..served]) <= |flow.fromInput| <= BUFFER * InputReady(polls[..begun])
  }

  // nc_relay for as many turns as polls has entries; Running means that all of them have been
  // served and the loop is at its head again, otherwise polls[served] is the one that ended
  // it. At every loop head and on a return of 0 both directions are conserved, and both are
  // complete exactly when no write stalled.
  method NcRelay(k: Kernel, sock: int, polls: seq<Poll>)
    returns (status: Status, ghost served: nat, ghost flow: Flow, ghost restSocket: string, ghost restInput: string)
    requires Open(k.fds, sock)
    modifies k`fds, k`files, k`failures, k`stalls
    ensures k.fds == Relayed(old(k.fds), sock, restSocket, restInput, flow) && k.files == old(k.files)
    ensures Result(status, old(k.fds), sock, restSocket, restInput, flow)
    ensures k.stalls != old(k.stalls) <==> flow.lostOutput || flow.lostSocket
    ensures served <= |polls| && (status == Running <==> served == |polls|)
    ensures Progressed(polls, served, if status == Running then served else served + 1, flow)
    ensures k.failures >= old(k.failures) && (status == Running ==> k.failures == old(k.failures))
    ensures status == Ended(0) ==> polls[served].Ready?
    ensures status == Ended(0) && k.failures == old(k.failures) ==>
              (polls[served].socket && restSocket == "") || (polls[served].input && restInput == "")
    ensures status == Ended(-1) ==> polls[served].Failed? || k.failures > old(k.failures)
  {
    ghost var base := k.fds;
    var buffer := new char[BUFFER];
    flow := Flow("", "", false, "", "", false);
    restSocket, restInput, status := base[sock].pending, base[0].pending, Running;
    Untouched(base, sock);
    var turn := 0;
    served := 0;
    while turn < |polls|
      invariant 0 <= turn == served <= |polls| && status == Running
      invariant k.fds == Relayed(base, sock, restSocket, restInput, flow) && k.files == old(k.files)
      invariant Conserved(base, sock, restSocket, restInput, flow)
      invariant Progressed(polls, turn, turn, flow)
      invariant k.stalls >= old(k.stalls) && (flow.lostOutput || flow.lostSocket <==> k.stalls != old(k.stalls))
      invariant k.failures == old(k.failures)
    {
      hide Relayed, Conserved, Delivered, Subsequence, SocketReady, InputReady;
      ReadySnoc(polls, turn);
      status, flow, restSocket, restInput := Turn(k, sock, polls[turn], buffer, base, restSocket, restInput, flow);
      if status != Running {
        return;
      }
      turn := turn + 1;
      served := turn;
    }
    ConservedIsResult(base, sock, restSocket, restInput, flow);
  }

  // Both directions are conserved, except that a failed write may have cut one of them short.
  ghost predicate Result(status: Status, base: map<int, End>, sock: int, rs: string, ri: string, flow: Flow)
    requires 0 in base && sock in base
  {
    && (status == Running || status == Ended(0) || status == Ended(-1))
    && (status != Ended(-1) ==> Conserved(base, sock, rs, ri, flow))
    && base[sock].pending == flow.fromSocket + rs && base[0].pending == flow.fromInput + ri
    && Subsequence(flow.toOutput, flow.fromSocket) && Subsequence(flow.toSocket, flow.fromInput)
    && (!flow.lostOutput ==> flow.toOutput <= flow.fromSocket)
    && (!flow.lostSocket ==> flow.toSocket <= flow.fromInput)
  }

  lemma ConservedIsResult(base: map<int, End>, sock: int, rs: string, ri: string, flow: Flow)
    requires 0 in base && sock in base && Conserved(base, sock, rs, ri, flow)
    ensures Result(Running, base, sock, rs, ri, flow) && Result(Ended(0), base, sock, rs, ri, flow)
  {
    hide Subsequence;
    DeliveredIsSubsequence(flow.toOutput, flow.fromSocket, flow.lostOutput);
    DeliveredIsSubsequence(flow.toSocket, flow.fromInput, flow.lostSocket);
  }

  // What passed of one direction while the other stood still.
  ghost predicate SocketSideOnly(flow: Flow, after: Flow) {
    after == flow.(fromSocket := after.fromSocket, toOutput := after.toOutput, lostOutput := after.lostOutput)
  }

  ghost predicate InputSideOnly(flow: Flow, after: Flow) {
    after == flow.(fromInput := after.fromInput, toSocket := after.toSocket, lostSocket := after.lostSocket)
  }

  // One turn of the loop. The socket is served first: where it has nothing to give, the input
  // is left alone.
  method Turn(k: Kernel, sock: int, poll: Poll, buffer: array<char>, ghost base: map<int, End>,
              ghost rs: string, ghost ri: string, ghost flow: Flow)
    returns (status: Status, ghost after: Flow, ghost rs': string, ghost ri': string)
    requires Open(base, sock) && buffer.Length > 0
    requires k.fds == Relayed(base, sock, rs, ri, flow) && Conserved(base, sock, rs, ri, flow)
    modifies k`fds, k`files, k`failures, k`stalls, buffer
    ensures k.fds == Relayed(base, sock, rs', ri', after) && k.files == old(k.files)
    ensures Result(status, base, sock, rs', ri', after)
    ensures k.stalls >= old(k.stalls) && k.failures >= old(k.failures)
    ensures after.lostOutput || after.lostSocket <==> flow.lostOutput || flow.lostSocket || k.stalls != old(k.stalls)
    ensures poll.Failed? ==> status == Ended(-1) && after == flow && rs' == rs && ri' == ri
    ensures poll.Ready? && !poll.socket ==> InputSideOnly(flow, after) && rs' == rs
    ensures poll.Ready? && !poll.input ==> SocketSideOnly(flow, after) && ri' == ri
    ensures poll.Ready? && poll.socket && rs' == rs ==> status == Ended(0) && after == flow && ri' == ri
    ensures |flow.fromSocket| <= |after.fromSocket| <= |flow.fromSocket| + buffer.Length
    ensures |flow.fromInput| <= |after.fromInput| <= |flow.fromInput| + buffer.Length
    ensures status == Running ==> poll.Ready? && k.failures == old(k.failures)
    ensures status == Running && poll.socket ==> |after.fromSocket| > |flow.fromSocket|
    ensures status == Running && poll.input ==> |after.fromInput| > |flow.fromInput|
    ensures status == Ended(0) ==> poll.Ready?
    ensures status == Ended(0) && k.failures == old(k.failures) ==>
              (poll.socket && rs' == "") || (poll.input && ri' == "")
    ensures status == Ended(-1) ==> poll.Failed? || k.failures > old(k.failures)
  {
    hide Relayed, Conserved, Delivered, Subsequence;
    ConservedIsResult(base, sock, rs, ri, flow);
    status, after, rs', ri' := Running, flow, rs, ri;
    if poll.Failed? {
      return Ended(-1), after, rs', ri';
    }
    if poll.socket {
      status, after, rs' := SocketToOutput(k, sock, buffer, base, rs, ri, flow);
      if status != Running {
        return;
      }
    }
    if poll.input {
      status, after, ri' := InputToSocket(k, sock, buffer, base, rs', ri, after);
    }
  }

  lemma Untouched(base: map<int, End>, sock: int)
    requires Open(base, sock)
    ensures Relayed(base, sock, base[sock].pending, base[0].pending, Flow("", "", false, "", "", false)) == base
  {
    assert base[1].outgoing + "" == base[1].outgoing && base[sock].outgoing + "" == base[sock].outgoing;
  }

  method SocketToOutput(k: Kernel, sock: int, buffer: array<char>, ghost base: map<int, End>,
                        ghost rs: string, ghost ri: string, ghost flow: Flow)
    returns (status: Status, ghost after: Flow, ghost rest: string)
    requires Open(base, sock) && buffer.Length > 0
    requires k.fds == Relayed(base, sock, rs, ri, flow) && Conserved(base, sock, rs, ri, flow)
    modifies k`fds, k`files, k`failures, k`stalls, buffer
    ensures k.fds == Relayed(base, sock, rest, ri, after) && k.files == old(k.files)
    ensures Result(status, base, sock, rest, ri, after)
    ensures status != Ended(-1) ==> Conserved(base, sock, rest, ri, after)
    ensures SocketSideOnly(flow, after) && k.stalls >= old(k.stalls)
    ensures after.lostOutput == (flow.lostOutput || k.stalls != old(k.stalls))
    ensures |after.fromSocket| <= |flow.fromSocket| + buffer.Length
    ensures if status == Ended(0) then rest == rs && after == flow
            else rest != rs && |after.fromSocket| > |flow.fromSocket|
    ensures k.failures == old(k.failures) || (k.failures > old(k.failures) && status != Running)
    ensures status == Ended(0) ==> k.failures > old(k.failures) || rest == ""
    ensures status == Ended(-1) ==> k.failures > old(k.failures)
  {
    hide Subsequence;
    ConservedIsResult(base, sock, rs, ri, flow);
    var count;
    ghost var chunk;
    count, chunk, rest := ReadChunk(k, sock, buffer);
    SocketRead(base, sock, rs, ri, flow, rest);
    assert flow.fromSocket + rs == (flow.fromSocket + chunk) + rest;
    after := flow;
    if count <= 0 {
      assert flow.fromSocket + chunk == flow.fromSocket;
      return Ended(0), after, rest;
    }
    assert |rest| < |rs|;
    var result;
    ghost var part;
    result, part := WriteAll(k, 1, buffer[..count]);
    RelayWrite(base, sock, rest, ri, flow, part);
    after := flow.(fromSocket := flow.fromSocket + chunk, toOutput := flow.toOutput + part,
                   lostOutput := flow.lostOutput || k.stalls != old(k.stalls));
    DeliveredCut(flow.toOutput, flow.fromSocket, flow.lostOutput, part, chunk);
    if result < 0 {
      return Ended(-1), after, rest;
    }
    DeliveredMore(flow.toOutput, flow.fromSocket, flow.lostOutput, part, chunk, k.stalls != old(k.stalls));
    status := Running;
    ConservedIsResult(base, sock, rest, ri, after);
  }

  method InputToSocket(k: Kernel, sock: int, buffer: array<char>, ghost base: map<int, End>,
                       ghost rs: string, ghost ri: string, ghost flow: Flow)
    returns (status: Status, ghost after: Flow, ghost rest: string)
    requires Open(base, sock) && buffer.Length > 0
    requires k.fds == Relayed(base, sock, rs, ri, flow) && Conserved(base, sock, rs, ri, flow)
    modifies k`fds, k`files, k`failures, k`stalls, buffer
    ensures k.fds == Relayed(base, sock, rs, rest, after) && k.files == old(k.files)
    ensures Result(status, base, sock, rs, rest, after)
    ensures status != Ended(-1) ==> Conserved(base, sock, rs, rest, after)
    ensures InputSideOnly(flow, after) && k.stalls >= old(k.stalls)
    ensures after.lostSocket == (flow.lostSocket || k.stalls != old(k.stalls))
    ensures |after.fromInput| <= |flow.fromInput| + buffer.Length
    ensures if status == Ended(0) then rest == ri && after == flow
            else rest != ri && |after.fromInput| > |flow.fromInput|
    ensures k.failures == old(k.failures) || (k.failures > old(k.failures) && status != Running)
    ensures status == Ended(0) ==> k.failures > old(k.failures) || rest == ""
    ensures status == Ended(-1) ==> k.failures > old(k.failures)
  {
    hide Subsequence;
    ConservedIsResult(base, sock, rs, ri, flow);
    var count;
    ghost var chunk;
    count, chunk, rest := ReadChunk(k, 0, buffer);
    InputRead(base, sock, rs, ri, flow, rest);
    assert flow.fromInput + ri == (flow.fromInput + chunk) + rest;
    after := flow;
    if count <= 0 {
      assert flow.fromInput + chunk == flow.fromInput;
      return Ended(0), after, rest;
    }
    assert |rest| < |ri|;
    var result;
    ghost var part;
    result, part := WriteAll(k, sock, buffer[..count]);
    RelayWrite(base, sock, rs, rest, flow, part);
    after := flow.(fromInput := flow.fromInput + chunk, toSocket := flow.toSocket + part,
                   lostSocket := flow.lostSocket || k.stalls != old(k.stalls));
    DeliveredCut(flow.toSocket, flow.fromInput, flow.lostSocket, part, chunk);
    if result < 0 {
      return Ended(-1), after, rest;
    }
    DeliveredMore(flow.toSocket, flow.fromInput, flow.lostSocket, part, chunk, k.stalls != old(k.stalls));
    status := Running;
    ConservedIsResult(base, sock, rs, rest, after);
  }

  // ---- cmd_cp -----------------------------------------------------------------------------------

  // put is what a copy of text leaves behind, whether or not it came to its end.
  ghost predicate Copied(put: string, text: string, stalled: bool) {
    Subsequence(put, text) && (!stalled ==> put <= text)
  }

  // The copying loop: put is what has been written to the file of what has been read.
  method CopyLoop(k: Kernel, source: int, sink: int, from: string, path: string)
    returns (clean: bool, ghost rest: string, ghost put: string)
    requires source in k.fds && sink in k.fds && source != sink
    requires k.fds[sink] == End("", "", Some(path)) && path in k.files && k.files[path] == ""
    modifies k`fds, k`files, k`failures, k`stalls, k`console
    ensures k.fds == Copying(old(k.fds), source, sink, rest, put) && k.files == old(k.files)[path := put]
    ensures k.stalls >= old(k.stalls) && k.failures == old(k.failures) + if clean then 0 else 1
    ensures CopyEnded(clean, old(k.fds)[source].pending, rest, put, k.stalls != old(k.stalls), from, path, old(k.console), k.console)
  {
    hide Subsequence, Delivered, CopyEnded, Copying, Left, Sent;
    ghost var base, files, stalls, text := k.fds, k.files, k.stalls, k.fds[source].pending;
    var buffer := new char[512];
    ghost var got := "";
    clean, rest, put := true, text, "";
    assert "" + text == text;
    CopyStep(base, source, sink, text, "", "", "");
    NothingCopied();
    while true
      invariant clean && text == got + rest && k.console == old(k.console)
      invariant k.fds == Copying(base, source, sink, rest, put) && k.files == files[path := put]
      invariant k.stalls >= stalls && k.failures == old(k.failures)
      invariant Delivered(put, got, k.stalls != stalls)
      decreases |rest|
    {
      ghost var before := rest;
      var count;
      ghost var chunk;
      InPlace(base, source, sink, before, put);
      count, chunk, rest := ReadChunk(k, source, buffer);
      CopyStep(base, source, sink, before, put, rest, "");
      if count <= 0 {
        assert "" + rest == rest;
        if count < 0 {
          clean := false;
          PrintError(k, "cp", from);
        }
        NoMoreRead(clean, text, got, rest, put, k.stalls != stalls, from, path, old(k.console), k.console);
        break;
      }
      assert got + before == (got + chunk) + rest;
      var ok;
      ok, put := WriteChunk(k, source, sink, path, buffer[..count], base, files, rest, put, got, stalls);
      got := got + chunk;
      if !ok {
        clean := false;
        PrintError(k, "cp", path);
        WriteFailed(text, got, rest, put, k.stalls != stalls, from, path, old(k.console), k.console);
        break;
      }
    }
  }

  // Who is named after a copy of text that failed with rest unread: the source if everything
  // read so far was delivered, the destination if some of it could not be written.
  ghost predicate Blamed(text: string, rest: string, put: string, stalled: bool, from: string, path: string, was: string, now: string) {
    && |rest| <= |text|
    && var got := text[..|text| - |rest|];
    || (now == was + Complaint(from) && Delivered(put, got, stalled))
    || (now == was + Complaint(path) && |put| < |got|)
  }

  // The end of a copy of text: clean and complete, or with the right complaint.
  ghost predicate CopyEnded(clean: bool, text: string, rest: string, put: string, stalled: bool,
                            from: string, path: string, was: string, now: string)
  {
    && Copied(put, text, stalled)
    && if clean then rest == "" && now == was && Delivered(put, text, stalled)
       else Blamed(text, rest, put, stalled, from, path, was, now)
  }

  lemma NothingCopied()
    ensures Delivered("", "", false)
  {
  }

  lemma NoMoreRead(clean: bool, text: string, got: string, rest: string, put: string, stalled: bool,
                   from: string, path: string, was: string, now: string)
    requires text == got + rest && Delivered(put, got, stalled)
    requires if clean then rest == "" && now == was else now == was + Complaint(from)
    ensures CopyEnded(clean, text, rest, put, stalled, from, path, was, now)
  {
    hide Subsequence, Complaint;
    DeliveredIsSubsequence(put, got, stalled);
    SubsequenceGrows(put, got, rest);
    assert text[..|got|] == got && (rest == "" ==> text == got);
  }

  lemma WriteFailed(text: string, got: string, rest: string, put: string, stalled: bool,
                    from: string, path: string, was: string, now: string)
    requires text == got + rest && now == was + Complaint(path)
    requires Subsequence(put, got) && |put| < |got| && (!stalled ==> put <= got)
    ensures CopyEnded(false, text, rest, put, stalled, from, path, was, now)
  {
    hide Subsequence, Complaint;
    SubsequenceGrows(put, got, rest);
  }

  function Complaint(target: string): (line: string)
    ensures line != ""
  {
    "cp: failed: " + target + "\n"
  }

  // What there is to copy once the destination has been created empty: nothing, when the
  // destination is the source itself.
  function Remaining(files: map<string, string>, from: string, path: string): string
    requires from in files
  {
    if from == path then "" else files[from]
  }

  // cp SOURCE DEST. The destination is touched only when both files could be opened. What is
  // then left in it is some of the source in its order, a prefix unless a write stalled, and
  // the whole of it when in addition there was nothing to complain about.
  method Cp(k: Kernel, args: seq<string>) returns (clean: bool, ghost put: string, ghost rest: string)
    modifies k`fds, k`files, k`failures, k`stalls, k`opens, k`closed, k`console
    ensures k.fds == old(k.fds) && k.stalls >= old(k.stalls) && old(k.opens) <= k.opens <= old(k.opens) + 2
    ensures |args| != 3 ==> k.opens == old(k.opens) && k.failures == old(k.failures) && k.console == old(k.console) + "usage: cp SOURCE DEST\n"
    ensures |args| == 3 && k.opens == old(k.opens) ==> k.failures == old(k.failures) + 1 && k.console == old(k.console) + Complaint(args[1])
    ensures k.opens == old(k.opens) + 1 ==>
              |args| == 3 && k.failures == old(k.failures) + 1 && k.console == old(k.console) + Complaint(args[2])
    ensures k.opens < old(k.opens) + 2 ==> !clean && k.files == old(k.files)
    ensures k.opens == old(k.opens) + 2 ==>
              && |args| == 3 && args[1] in old(k.files) && k.files == old(k.files)[args[2] := put]
              && k.closed == old(k.closed) + [End("", put, Some(args[2])), End(rest, "", None)]
              && (clean <==> k.failures == old(k.failures))
              && CopyEnded(clean, Remaining(old(k.files), args[1], args[2]), rest, put, k.stalls != old(k.stalls),
                           args[1], args[2], old(k.console), k.console)
  {
    hide CopyEnded;
    clean, put, rest := false, "", "";
    if |args| != 3 {
      k.Put("usage: cp SOURCE DEST\n");
      return;
    }
    ghost var base := k.fds;
    var source := k.Open(args[1]);
    if source < 0 {
      PrintError(k, "cp", args[1]);
      return;
    }
    clean, put, rest := CopyTo(k, source, args[1], args[2], base);
  }

  method CopyTo(k: Kernel, source: int, from: string, path: string, ghost base: map<int, End>)
    returns (clean: bool, ghost put: string, ghost rest: string)
    requires source !in base && from in k.files && k.fds == base[source := End(k.files[from], "", None)]
    modifies k`fds, k`files, k`failures, k`stalls, k`opens, k`closed, k`console
    ensures k.fds == base && k.stalls >= old(k.stalls) && old(k.opens) <= k.opens <= old(k.opens) + 1
    ensures k.opens == old(k.opens) ==>
              && !clean && k.files == old(k.files)
              && k.failures == old(k.failures) + 1 && k.console == old(k.console) + Complaint(path)
    ensures k.opens > old(k.opens) ==>
              && k.files == old(k.files)[path := put]
              && (clean <==> k.failures == old(k.failures))
              && k.closed == old(k.closed) + [End("", put, Some(path)), End(rest, "", None)]
              && CopyEnded(clean, Remaining(old(k.files), from, path), rest, put, k.stalls != old(k.stalls),
                           from, path, old(k.console), k.console)
  {
    hide CopyEnded;
    clean, put, rest := false, "", "";
    ghost var end := k.fds[source];
    var sink := OpenSink(k, source, from, path, base);
    if sink < 0 {
      PrintError(k, "cp", path);
    } else {
      clean, put, rest := CopyAcross(k, source, sink, from, path, base);
      end := End(rest, "", None);
    }
    CloseSource(k, source, base, end);
  }

  method OpenSink(k: Kernel, source: int, from: string, path: string, ghost base: map<int, End>) returns (sink: int)
    requires source !in base && from in k.files && k.fds == base[source := End(k.files[from], "", None)]
    modifies k`fds, k`files, k`failures, k`opens
    ensures k.opens == old(k.opens) + if sink >= 0 then 1 else 0
    ensures k.failures == old(k.failures) + if sink >= 0 then 0 else 1
    ensures sink < 0 ==> k.fds == old(k.fds) && k.files == old(k.files)
    ensures sink >= 0 ==> sink !in base && sink != source && k.files == old(k.files)[path := ""]
    ensures sink >= 0 ==>
              k.fds == base[source := End(Remaining(old(k.files), from, path), "", None)][sink := End("", "", Some(path))]
  {
    sink := k.CreateBeside(path, source, from);
  }

  method CloseSource(k: Kernel, source: int, ghost base: map<int, End>, ghost end: End)
    requires source !in base && k.fds == base[source := end]
    modifies k`fds, k`closed
    ensures k.fds == base && k.closed == old(k.closed) + [end]
  {
    k.Close(source);
    assert k.fds == base;
  }

  method CopyAcross(k: Kernel, source: int, sink: int, from: string, path: string, ghost base: map<int, End>)
    returns (clean: bool, ghost put: string, ghost rest: string)
    requires source !in base && sink !in base && source != sink
    requires source in k.fds && path in k.files && k.files[path] == ""
    requires k.fds == base[source := k.fds[source]][sink := End("", "", Some(path))]
    modifies k`fds, k`files, k`failures, k`stalls, k`closed, k`console
    ensures k.fds == base[source := old(k.fds)[source].(pending := rest)]
    ensures k.closed == old(k.closed) + [End("", put, Some(path))]
    ensures k.files == old(k.files)[path := put] && k.stalls >= old(k.stalls)
    ensures k.failures == old(k.failures) + if clean then 0 else 1
    ensures CopyEnded(clean, old(k.fds)[source].pending, rest, put, k.stalls != old(k.stalls), from, path, old(k.console), k.console)
  {
    hide CopyEnded;
    clean, rest, put := CopyLoop(k, source, sink, from, path);
    assert "" + put == put;
    k.Close(sink);
    assert k.fds == base[source := k.fds[source]];
  }
}
