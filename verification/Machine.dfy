// The operating system as the payload sees it: numbered descriptors, files, and a console.
// Every call may do less than asked. A read returns a negative number, 0 at end of input, or
// between 1 and n characters; a write returns a negative number, 0, or between 1 and n.
// How much each call does is left open, so what is proved holds for every pattern of short
// reads, short writes and failures.
module Machine {
  import opened Text

  // One open descriptor: what can still be read from it, what has been written to it, and
  // the file behind it when it was opened for writing a file.
  datatype End = End(pending: string, outgoing: string, path: Option<string>)

  class Kernel {
    var fds: map<int, End>           // open descriptors
    var files: map<string, string>   // file contents by path
    var console: string              // what print and puts routines have issued on fd 1

    ghost var failures: nat          // calls that returned a negative number
    ghost var stalls: nat            // writes of a nonempty buffer that returned 0
    ghost var opens: nat             // descriptors opened so far
    ghost var closed: seq<End>       // descriptors closed so far, as they were when closed
    ghost var unlinked: seq<string>  // paths handed to unlink so far
    ghost var peers: seq<(nat, nat)>  // addresses and ports connected to so far

    constructor (input: string)
      ensures fds == map[0 := End(input, "", None), 1 := End("", "", None)]
      ensures files == map[] && console == "" && failures == stalls == opens == 0
      ensures closed == [] && unlinked == [] && peers == []
    {
      fds := map[0 := End(input, "", None), 1 := End("", "", None)];
      files := map[];
      console := "";
      failures := 0;
      stalls := 0;
      opens := 0;
      closed := [];
      unlinked := [];
      peers := [];
    }

    // Console output: the payload ignores the result of these writes.
    method Put(text: string)
      modifies this`console
      ensures console == old(console) + text
    {
      console := console + text;
    }

    // sys_read of up to n characters into buffer[at..at + n].
    method Read(fd: int, buffer: array<char>, at: nat, n: nat) returns (count: int)
      requires fd in fds && at + n <= buffer.Length && n > 0
      modifies this`fds, this`failures, buffer
      ensures count <= n && count <= |old(fds)[fd].pending|
      ensures count > 0 ==>
                var was := old(fds)[fd];
                && buffer[at..at + count] == was.pending[..count]
                && fds == old(fds)[fd := was.(pending := was.pending[count..])]
      ensures count == 0 ==> old(fds)[fd].pending == ""
      ensures count <= 0 ==> fds == old(fds)
      ensures failures == old(failures) + if count < 0 then 1 else 0
      ensures forall i :: 0 <= i < buffer.Length && !(at <= i < at + count) ==> buffer[i] == old(buffer[i])
    {
      var end := fds[fd];
      count := *;
      if count < 0 {
        failures := failures + 1;
        return;
      }
      if end.pending == "" {
        count := 0;
        return;
      }
      var most := if n < |end.pending| then n else |end.pending|;
      count := if 1 <= count <= most then count else most;
      forall i | 0 <= i < count {
        buffer[at + i] := end.pending[i];
      }
      fds := fds[fd := end.(pending := end.pending[count..])];
    }

    // sys_write of text, which is not empty.
    method Write(fd: int, text: string) returns (count: int)
      requires fd in fds && text != ""
      modifies this`fds, this`files, this`failures, this`stalls
      ensures count <= |text|
      ensures count > 0 ==> fds == Sent(old(fds), fd, text[..count])
      ensures count > 0 ==> files == Stored(old(files), fds[fd])
      ensures count <= 0 ==> fds == old(fds) && files == old(files)
      ensures failures == old(failures) + if count < 0 then 1 else 0
      ensures stalls == old(stalls) + if count == 0 then 1 else 0
    {
      count := *;
      if count < 0 {
        failures := failures + 1;
        return;
      }
      if count == 0 {
        stalls := stalls + 1;
        return;
      }
      count := if count < |text| then count else |text|;
      fds := fds[fd := fds[fd].(outgoing := fds[fd].outgoing + text[..count])];
      files := if fds[fd].path.Some? then files[fds[fd].path.value := fds[fd].outgoing] else files;
    }

    // sys_openat with O_WRONLY | O_CREAT | O_TRUNC.
    method Create(path: string) returns (fd: int)
      modifies this`fds, this`files, this`failures, this`opens
      ensures opens == old(opens) + if fd >= 0 then 1 else 0
      ensures fd < 0 ==> fds == old(fds) && files == old(files) && failures == old(failures) + 1
      ensures fd >= 0 ==> failures == old(failures) && fd !in old(fds)
      ensures fd >= 0 ==> fds == old(fds)[fd := End("", "", Some(path))] && files == old(files)[path := ""]
    {
      fd := *;
      if fd < 0 {
        failures := failures + 1;
        return;
      }
      FreshDescriptor(fds.Keys);
      fd :| fd >= 0 && fd !in fds.Keys;
      opens := opens + 1;
      fds := fds[fd := End("", "", Some(path))];
      files := files[path := ""];
    }

    // The same while the descriptor reader has the file from open for reading: if that is the
    // file just truncated, reader is at its end.
    method CreateBeside(path: string, reader: int, from: string) returns (fd: int)
      requires reader in fds
      modifies this`fds, this`files, this`failures, this`opens
      ensures opens == old(opens) + if fd >= 0 then 1 else 0
      ensures fd < 0 ==> fds == old(fds) && files == old(files) && failures == old(failures) + 1
      ensures fd >= 0 ==> failures == old(failures) && fd !in old(fds) && files == old(files)[path := ""]
      ensures fd >= 0 ==> var before := if from == path then Left(old(fds), reader, "") else old(fds);
                          fds == before[fd := End("", "", Some(path))]
    {
      fd := Create(path);
      if fd >= 0 && from == path {
        ghost var before := old(fds);
        fds := Left(fds, reader, "");
        assert fds == Left(before, reader, "")[fd := End("", "", Some(path))];
      }
    }

    // sys_openat with O_RDONLY.
    method Open(path: string) returns (fd: int)
      modifies this`fds, this`failures, this`opens
      ensures opens == old(opens) + if fd >= 0 then 1 else 0
      ensures fd < 0 ==> fds == old(fds) && failures == old(failures) + 1
      ensures fd >= 0 ==> failures == old(failures) && fd !in old(fds)
      ensures fd >= 0 ==> path in files && fds == old(fds)[fd := End(files[path], "", None)]
    {
      fd := *;
      if fd < 0 || path !in files {
        fd := -1;
        failures := failures + 1;
        return;
      }
      FreshDescriptor(fds.Keys);
      fd :| fd >= 0 && fd !in fds.Keys;
      opens := opens + 1;
      fds := fds[fd := End(files[path], "", None)];
    }

    // sys_socket for a stream; what the peer will send once connected is server.
    method Socket(server: string) returns (fd: int)
      modifies this`fds, this`failures, this`opens
      ensures opens == old(opens) + if fd >= 0 then 1 else 0
      ensures fd < 0 ==> fds == old(fds) && failures == old(failures) + 1
      ensures fd >= 0 ==> failures == old(failures) && fd !in old(fds)
      ensures fd >= 0 ==> fds == old(fds)[fd := End(server, "", None)]
    {
      fd := *;
      if fd < 0 {
        failures := failures + 1;
        return;
      }
      FreshDescriptor(fds.Keys);
      fd :| fd >= 0 && fd !in fds.Keys;
      opens := opens + 1;
      fds := fds[fd := End(server, "", None)];
    }

    // sys_connect with the address and port words as they stand in sockaddr_in.
    method Connect(address: nat, port: nat) returns (result: int)
      modifies this`failures, this`peers
      ensures peers == old(peers) + if result < 0 then [] else [(address, port)]
      ensures failures == old(failures) + if result < 0 then 1 else 0
    {
      result := Attempt();
      if result >= 0 {
        peers := peers + [(address, port)];
      }
    }

    // A call whose only effect here is to succeed or fail: sys_fchmod.
    method Attempt() returns (result: int)
      modifies this`failures
      ensures failures == old(failures) + if result < 0 then 1 else 0
    {
      result := *;
      if result < 0 {
        failures := failures + 1;
      }
    }

    // sys_close; closing a descriptor that is not open would be a second close.
    method Close(fd: int)
      requires fd in fds
      modifies this`fds, this`closed
      ensures fds == old(fds) - {fd}
      ensures closed == old(closed) + [old(fds)[fd]]
    {
      closed := closed + [fds[fd]];
      fds := fds - {fd};
    }

    // sys_unlinkat, whose own failure the payload ignores.
    method Unlink(path: string)
      modifies this`files, this`unlinked
      ensures unlinked == old(unlinked) + [path]
      ensures files == old(files) - {path} || files == old(files)
    {
      unlinked := unlinked + [path];
      if * {
        files := files - {path};
      }
    }
  }

  function Sent(fds: map<int, End>, fd: int, text: string): map<int, End>
    requires fd in fds
  {
    fds[fd := fds[fd].(outgoing := fds[fd].outgoing + text)]
  }

  function Stored(files: map<string, string>, end: End): map<string, string> {
    if end.path.Some? then files[end.path.value := end.outgoing] else files
  }

  lemma FreshDescriptor(used: set<int>)
    ensures exists fd: int :: fd >= 0 && fd !in used
  {
    var bound := Above(used);
    assert bound !in used;
  }

  lemma Above(used: set<int>) returns (bound: int)
    ensures bound >= 0 && forall x :: x in used ==> x < bound
  {
    if x :| x in used {
      var rest := used - {x};
      bound := Above(rest);
      assert forall y :: y in used ==> y == x || y in rest;
      bound := if x < bound then bound else x + 1;
    } else {
      bound := 0;
    }
  }

  // print_error with a target.
  method PrintError(k: Kernel, command: string, target: string)
    modifies k`console
    ensures k.console == old(k.console) + (command + ": failed: " + target + "\n")
  {
    k.Put(command);
    k.Put(": failed");
    k.Put(": ");
    k.Put(target);
    k.Put("\n");
  }

  // Descriptor fd with only rest left to read.
  function Left(fds: map<int, End>, fd: int, rest: string): map<int, End>
    requires fd in fds
  {
    fds[fd := fds[fd].(pending := rest)]
  }

  lemma LeftAgain(fds: map<int, End>, fd: int, a: string, b: string)
    requires fd in fds
    ensures Left(Left(fds, fd, a), fd, b) == Left(fds, fd, b)
    ensures Left(fds, fd, fds[fd].pending) == fds
  {
  }

  // ---- write_all ---------------------------------------------------------------------

  // part is what was accepted of text: all of it unless some write stalled. Then some of it is
  // missing, but what arrived did so in order, nothing twice and nothing from elsewhere.
  ghost predicate Delivered(part: string, text: string, stalled: bool) {
    if stalled then |part| < |text| && Subsequence(part, text) else part == text
  }

  lemma DeliveredIsSubsequence(part: string, text: string, stalled: bool)
    requires Delivered(part, text, stalled)
    ensures Subsequence(part, text) && |part| <= |text|
  {
    if !stalled {
      PrefixIsSubsequence(part, text);
    }
  }

  lemma DeliveredMore(part: string, text: string, stalled: bool, more: string, next: string, stalledNext: bool)
    requires Delivered(part, text, stalled) && Delivered(more, next, stalledNext)
    ensures Delivered(part + more, text + next, stalled || stalledNext)
  {
    hide Subsequence;
    DeliveredIsSubsequence(part, text, stalled);
    DeliveredIsSubsequence(more, next, stalledNext);
    SubsequenceAppend(part, text, more, next);
  }

  // A failed write may leave the last chunk cut short.
  lemma DeliveredCut(part: string, text: string, stalled: bool, more: string, next: string)
    requires Delivered(part, text, stalled) && more <= next
    ensures Subsequence(part + more, text + next) && (!stalled ==> part + more <= text + next)
  {
    hide Subsequence;
    DeliveredIsSubsequence(part, text, stalled);
    PrefixIsSubsequence(more, next);
    SubsequenceAppend(part, text, more, next);
  }

  lemma SentMore(fds: map<int, End>, fd: int, a: string, b: string)
    requires fd in fds
    ensures Sent(Sent(fds, fd, a), fd, b) == Sent(fds, fd, a + b)
    ensures Sent(fds, fd, "") == fds
  {
    assert fds[fd].outgoing + a + b == fds[fd].outgoing + (a + b);
    assert fds[fd].outgoing + "" == fds[fd].outgoing;
  }

  // Writes text in as many pieces as the kernel asks for; part is how far it came. The
  // result is 0, not negative, when a write makes no progress.
  method WriteAll(k: Kernel, fd: int, text: string) returns (result: int, ghost part: string)
    requires fd in k.fds
    modifies k`fds, k`files, k`failures, k`stalls
    ensures part <= text && k.fds == Sent(old(k.fds), fd, part)
    ensures k.files == if part == "" then old(k.files) else Stored(old(k.files), k.fds[fd])
    ensures result < 0 ==> part != text && k.failures == old(k.failures) + 1 && k.stalls == old(k.stalls)
    ensures result >= 0 ==> k.failures == old(k.failures)
    ensures result >= 0 ==> k.stalls == old(k.stalls) + if part == text then 0 else 1
    ensures result >= 0 ==> result == if part == text then |text| else 0
    ensures result >= 0 ==> Delivered(part, text, k.stalls != old(k.stalls))
  {
    hide Subsequence;
    var written := 0;
    part := text[..0];
    assert k.fds[fd].outgoing + text[..0] == k.fds[fd].outgoing;
    while written < |text|
      invariant 0 <= written <= |text| && part == text[..written]
      invariant k.fds == Sent(old(k.fds), fd, part)
      invariant k.files == if part == "" then old(k.files) else Stored(old(k.files), k.fds[fd])
      invariant k.failures == old(k.failures) && k.stalls == old(k.stalls)
    {
      var count := k.Write(fd, text[written..]);
      if count <= 0 {
        PrefixIsSubsequence(part, text);
        return count, part;
      }
      ghost var before := old(k.fds)[fd].outgoing;
      assert part + text[written..][..count] == text[..written + count];
      assert (before + part) + text[written..][..count] == before + text[..written + count];
      written := written + count;
      part := text[..written];
    }
    result := written;
  }

  // ---- Copying from one descriptor to another --------------------------------------------

  // rest is still to be read from source; put has been written to sink since the start.
  function Copying(fds: map<int, End>, source: int, sink: int, rest: string, put: string): map<int, End>
    requires source in fds && sink in fds
  {
    Sent(Left(fds, source, rest), sink, put)
  }

  lemma CopyStep(fds: map<int, End>, source: int, sink: int, rest: string, put: string, rest': string, part: string)
    requires source in fds && sink in fds && source != sink
    ensures Left(Copying(fds, source, sink, rest, put), source, rest') == Copying(fds, source, sink, rest', put)
    ensures Sent(Copying(fds, source, sink, rest, put), sink, part) == Copying(fds, source, sink, rest, put + part)
    ensures Copying(fds, source, sink, fds[source].pending, "") == fds
  {
    SentMore(Left(fds, source, rest), sink, put, part);
    SentMore(fds, sink, "", "");
  }

  // What stands behind the two descriptors while a copy is under way.
  lemma InPlace(base: map<int, End>, source: int, sink: int, rest: string, put: string)
    requires source in base && sink in base && source != sink
    ensures var fds := Copying(base, source, sink, rest, put);
            source in fds && fds[source].pending == rest
  {
  }

  method ReadChunk(k: Kernel, fd: int, buffer: array<char>) returns (count: int, ghost chunk: string, ghost rest: string)
    requires fd in k.fds && buffer.Length > 0
    modifies k`fds, k`failures, buffer
    ensures k.fds == Left(old(k.fds), fd, rest) && old(k.fds)[fd].pending == chunk + rest
    ensures k.failures == old(k.failures) + if count < 0 then 1 else 0
    ensures count <= buffer.Length && (count > 0 ==> buffer[..count] == chunk && |chunk| == count)
    ensures count <= 0 ==> chunk == ""
    ensures count == 0 ==> rest == ""
  {
    count := k.Read(fd, buffer, 0, buffer.Length);
    rest := k.fds[fd].pending;
    chunk := if count > 0 then buffer[..count] else "";
    assert count > 0 ==> buffer[0..0 + count] == chunk;
  }

  // Writes one chunk to a file being copied: put was written of got, more of got + chunk.
  method WriteChunk(k: Kernel, source: int, sink: int, path: string, chunk: string,
                    ghost base: map<int, End>, ghost files: map<string, string>, ghost rest: string,
                    ghost put: string, ghost got: string, ghost stalls: nat)
    returns (ok: bool, ghost more: string)
    requires source in base && sink in base && source != sink && base[sink] == End("", "", Some(path))
    requires k.fds == Copying(base, source, sink, rest, put) && k.files == files[path := put]
    requires k.stalls >= stalls && Delivered(put, got, k.stalls != stalls)
    modifies k`fds, k`files, k`failures, k`stalls
    ensures k.fds == Copying(base, source, sink, rest, more) && k.files == files[path := more]
    ensures k.stalls >= stalls && k.failures == old(k.failures) + if ok then 0 else 1
    ensures if ok then Delivered(more, got + chunk, k.stalls != stalls) else |more| < |got + chunk|
    ensures Subsequence(more, got + chunk) && (k.stalls == stalls ==> more <= got + chunk)
    ensures k.stalls >= old(k.stalls)
  {
    hide Subsequence;
    ghost var before := k.stalls;
    var result;
    ghost var part;
    result, part := WriteAll(k, sink, chunk);
    CopyStep(base, source, sink, rest, put, "", part);
    assert put + "" == put && "" + (put + part) == put + part;
    ok, more := result >= 0, put + part;
    DeliveredCut(put, got, before != stalls, part, chunk);
    if ok {
      DeliveredMore(put, got, before != stalls, part, chunk, k.stalls != before);
    }
  }
}
