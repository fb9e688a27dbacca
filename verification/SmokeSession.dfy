/** The installed server's stdio session: one newline-terminated response per request, and nothing else. */
module SmokeSession {
  import opened Framing
  import opened Results
  import opened Text

  const MAX_PROTOCOL_FRAME := 1048576
  const MAX_PROTOCOL_TOTAL := 4194304

  datatype Stream = Stdout | Stderr

  // One ready descriptor with the bytes os.read returned; no bytes is end of file.
  datatype Event = Event(stream: Stream, chunk: Bytes)

  // What one select call reports; nothing is its timeout. A script is what the server does, round after round.
  type Round = seq<Event>

  datatype SessionError =
    | TimedOut | StdoutClosed | SessionLimit | UnexpectedStderr | FrameLimit | FrameInvalid | RequestLimit
    | ResponseInvalid | NoEof | NoExit | ExitMismatch | GroupAlive

  // Everything a sequence of events puts on one stream.
  function StreamBytes(events: seq<Event>, stream: Stream): Bytes {
    if events == [] then []
    else StreamBytes(Front(events), stream) + Part(Last(events), stream)
  }

  function Part(e: Event, stream: Stream): Bytes {
    if e.stream == stream then e.chunk else []
  }

  function Flatten(rounds: seq<Round>): seq<Event> {
    if rounds == [] then [] else Flatten(Front(rounds)) + Last(rounds)
  }

  // What some rounds put on one stream, and whether it ended in them.
  function Sent(rounds: seq<Round>, stream: Stream): Bytes {
    StreamBytes(Flatten(rounds), stream)
  }

  predicate Ended(events: seq<Event>, stream: Stream) {
    Event(stream, []) in events
  }

  predicate GoodFrame(frame: Bytes) {
    frame != [] && |frame| <= MAX_PROTOCOL_FRAME && NEWLINE !in frame
  }

  // All stdout bytes so far are the recorded lines and an unfinished one.
  ghost predicate Waiting(heard: seq<Event>, calls: seq<Bytes>) {
    exists b :: NEWLINE !in b && StreamBytes(heard, Stdout) == Lines(calls) + b
  }

  // What must have been heard for the reading of a frame to fail this way.
  ghost predicate Explains(failure: SessionError, heard: seq<Event>, calls: seq<Bytes>) {
    match failure
    case StdoutClosed => Ended(heard, Stdout)
    case SessionLimit => |StreamBytes(heard, Stdout)| + |StreamBytes(heard, Stderr)| > MAX_PROTOCOL_TOTAL
    case UnexpectedStderr => StreamBytes(heard, Stderr) != []
    case FrameLimit =>
      exists b :: NEWLINE !in b && |b| > MAX_PROTOCOL_FRAME && StreamBytes(heard, Stdout) == Lines(calls) + b
    case _ => false
  }

  // ----- streams -----

  lemma {:induction false} BytesApart(a: seq<Event>, b: seq<Event>, stream: Stream)
    ensures StreamBytes(a + b, stream) == StreamBytes(a, stream) + StreamBytes(b, stream)
  {
    if b == [] {
      assert a + b == a;
    } else {
      hide Part;
      BytesApart(a, Front(b), stream);
      assert Front(a + b) == a + Front(b) && Last(a + b) == Last(b);
      assert StreamBytes(a + b, stream) == StreamBytes(a + Front(b), stream) + Part(Last(b), stream);
    }
  }

  lemma {:induction false} FlattenApart(a: seq<Round>, b: seq<Round>)
    ensures Flatten(a + b) == Flatten(a) + Flatten(b)
  {
    if b == [] {
      assert a + b == a;
    } else {
      FlattenApart(a, Front(b));
      assert Front(a + b) == a + Front(b) && Last(a + b) == Last(b);
      assert Flatten(a + b) == Flatten(a + Front(b)) + Last(b);
    }
  }

  lemma {:induction false} FlattenGrows(rounds: seq<Round>, i: nat, j: nat)
    requires i <= j <= |rounds|
    ensures Flatten(rounds[..i]) <= Flatten(rounds[..j])
  {
    assert rounds[..j] == rounds[..i] + rounds[i..j];
    FlattenApart(rounds[..i], rounds[i..j]);
  }

  // What is heard earlier is a prefix, on both streams.
  lemma {:induction false} HeardGrows(a: seq<Event>, b: seq<Event>)
    requires a <= b
    ensures forall stream :: StreamBytes(a, stream) <= StreamBytes(b, stream)
    ensures forall stream :: Ended(a, stream) ==> Ended(b, stream)
  {
    assert b == a + b[|a|..];
    BytesApart(a, b[|a|..], Stdout);
    BytesApart(a, b[|a|..], Stderr);
  }

  lemma {:induction false} OneEvent(heard: seq<Event>, e: Event)
    ensures forall stream :: StreamBytes(heard + [e], stream) == StreamBytes(heard, stream) + Part(e, stream)
    ensures forall stream :: Ended(heard + [e], stream) <==> Ended(heard, stream) || e == Event(stream, [])
  {
    assert Front(heard + [e]) == heard;
  }

  // ----- the session -----

  class Session {
    var stdoutBuffer: Bytes
    var stderrBuffer: Bytes
    var total: nat
    var calls: seq<Bytes>
    // What the selector still watches.
    var stdoutOpen: bool
    var stderrOpen: bool
    // Every event so far.
    ghost var heard: seq<Event>

    // Every stdout byte heard belongs to a recorded response line or still waits in the buffer, every byte is counted,
    // and a stream is watched until its end of file was heard.
    ghost predicate Valid()
      reads this
    {
      && StreamBytes(heard, Stdout) == Lines(calls) + stdoutBuffer && StreamBytes(heard, Stderr) == stderrBuffer
      && total == |StreamBytes(heard, Stdout)| + |StreamBytes(heard, Stderr)|
      && stdoutOpen == !Ended(heard, Stdout) && stderrOpen == !Ended(heard, Stderr)
      && forall f :: f in calls ==> NEWLINE !in f
    }

    constructor ()
      ensures Valid() && calls == [] && heard == []
    {
      stdoutBuffer, stderrBuffer, total, calls, heard := [], [], 0, [], [];
      stdoutOpen, stderrOpen := true, true;
    }

    // One ready descriptor while a frame is awaited.
    method ReceiveOne(e: Event) returns (failure: Option<SessionError>)
      requires Valid()
      modifies this
      ensures calls == old(calls) && heard == old(heard) + [e]
      ensures failure.Some? ==> Explains(failure.value, heard, calls) && failure.value !in {TimedOut, FrameInvalid}
      ensures failure.None? ==>
                && Valid() && (e.chunk != [] ==> total <= MAX_PROTOCOL_TOTAL)
                && e != Event(Stdout, []) && Part(e, Stderr) == []
    {
      hide Lines, StreamBytes, Ended;
      OneEvent(heard, e);
      heard := heard + [e];
      failure := None;
      if e.chunk == [] {
        if e.stream == Stdout {
          stdoutOpen := false;
          return Some(StdoutClosed);
        }
        stderrOpen := false;
        return;
      }
      total := total + |e.chunk|;
      if total > MAX_PROTOCOL_TOTAL {
        return Some(SessionLimit);
      }
      if e.stream == Stderr {
        stderrBuffer := stderrBuffer + e.chunk;
        return Some(UnexpectedStderr);
      }
      assert Lines(calls) + stdoutBuffer + e.chunk == Lines(calls) + (stdoutBuffer + e.chunk);
      stdoutBuffer := stdoutBuffer + e.chunk;
      if |stdoutBuffer| > MAX_PROTOCOL_FRAME && NEWLINE !in stdoutBuffer {
        return Some(FrameLimit);
      }
    }

    // One select round: all its ready events in order, or those up to the one that fails.
    method Receive(round: Round) returns (failure: Option<SessionError>)
      requires Valid()
      modifies this
      ensures calls == old(calls) && old(heard) <= heard <= old(heard) + round
      ensures failure.Some? ==> Explains(failure.value, heard, calls) && failure.value !in {TimedOut, FrameInvalid}
      ensures failure.None? ==> Valid() && heard == old(heard) + round && (stdoutOpen <== old(stdoutOpen))
      ensures failure.None? ==> StreamBytes(heard, Stderr) == old(StreamBytes(heard, Stderr))
      ensures failure.None? ==> total == old(total) || total <= MAX_PROTOCOL_TOTAL
    {
      hide Explains, Lines, StreamBytes;
      ghost var before := heard;
      for i := 0 to |round|
        invariant calls == old(calls) && Valid() && heard == before + round[..i] && (stdoutOpen <== old(stdoutOpen))
        invariant StreamBytes(heard, Stderr) == old(StreamBytes(heard, Stderr))
        invariant total == old(total) || total <= MAX_PROTOCOL_TOTAL
      {
        assert round[..i + 1] == round[..i] + [round[i]];
        OneEvent(heard, round[i]);
        failure := ReceiveOne(round[i]);
        assert heard == before + round[..i + 1];
        if failure.Some? {
          return;
        }
      }
      assert round[..|round|] == round;
      failure := None;
    }

    // _read_until_frame: select rounds until a newline is buffered. An empty round, or none, is the timeout.
    method ReadUntilFrame(script: seq<Round>) returns (r: Result<Bytes, SessionError>, rest: seq<Round>)
      requires Valid()
      modifies this
      ensures calls == old(calls) && Suffix(script, rest)
      ensures r.Ok? ==>
                && Read(old(heard), calls, Used(script, rest), heard) && GoodFrame(r.value)
                && StreamBytes(heard, Stdout) == Lines(calls) + r.value + [NEWLINE] + stdoutBuffer
                && StreamBytes(heard, Stderr) == stderrBuffer && total == |StreamBytes(heard, Stdout)| + |stderrBuffer|
                && stdoutOpen == !Ended(heard, Stdout) && stderrOpen == !Ended(heard, Stderr)
                && (old(total) <= MAX_PROTOCOL_TOTAL ==> total <= MAX_PROTOCOL_TOTAL)
      ensures r.Err? ==> Failed(old(heard), calls, script, rest, r.error, heard)
    {
      hide Explains, Lines, StreamBytes, Flatten, GoodFrame, Ended;
      ghost var before := heard;
      rest := script;
      NothingUsed(before, calls, script);
      while NEWLINE !in stdoutBuffer
        invariant Valid() && calls == old(calls) && Suffix(script, rest)
        invariant Read(before, calls, Used(script, rest), heard)
        invariant old(total) <= MAX_PROTOCOL_TOTAL ==> total <= MAX_PROTOCOL_TOTAL
        decreases |rest|
      {
        assert Waiting(heard, calls);
        if rest == [] || rest[0] == [] {
          return Err(TimedOut), rest;
        }
        ghost var used, sofar := Used(script, rest), heard;
        var failure := Receive(rest[0]);
        UseOne(before, calls, script, rest, sofar, heard);
        rest := rest[1..];
        if failure.Some? {
          return Err(failure.value), rest;
        }
      }
      var n := LineEnd(stdoutBuffer);
      var frame, remainder := stdoutBuffer[..n], stdoutBuffer[n + 1..];
      assert Lines(calls) + stdoutBuffer == Lines(calls) + frame + [NEWLINE] + remainder by {
        assert stdoutBuffer == frame + [NEWLINE] + remainder;
      }
      stdoutBuffer := remainder;
      assert GoodFrame(frame) <==> frame != [] && |frame| <= MAX_PROTOCOL_FRAME by {
        assert NEWLINE !in frame;
        GoodMeans(frame);
      }
      if frame == [] || |frame| > MAX_PROTOCOL_FRAME {
        return Err(FrameInvalid), rest;
      }
      r := Ok(frame);
    }

    // request: the answer is the next frame, and it must be a response to this very request.
    method Request(exchange: Exchange, script: seq<Round>) returns (r: Result<Bytes, SessionError>, rest: seq<Round>)
      requires Valid()
      modifies this
      ensures Suffix(script, rest)
      ensures r.Ok? ==>
                && Valid() && Read(old(heard), old(calls), Used(script, rest), heard) && calls == old(calls) + [r.value]
                && Answers(exchange, r.value) && (old(total) <= MAX_PROTOCOL_TOTAL ==> total <= MAX_PROTOCOL_TOTAL)
      ensures r.Err? ==> calls == old(calls) && Refused(old(heard), calls, exchange, script, rest, r.error, heard)
    {
      hide Needed, Lines, StreamBytes, Ended, Waiting, Flatten;
      if |exchange.encoded| > MAX_PROTOCOL_FRAME {
        return Err(RequestLimit), script;
      }
      r, rest := ReadUntilFrame(script);
      if r.Ok? {
        assert Framed(r.value, heard, calls);
        if !exchange.answers(r.value) {
          return Err(ResponseInvalid), rest;
        }
        LinesPush(calls, r.value);
        calls := calls + [r.value];
      }
    }

    // finish: drain both streams to end of file, then demand a clean exit and empty buffers.
    // exitCode is None when the server does not exit in time.
    method Finish(script: seq<Round>, exitCode: Option<int>, groupGone: bool) returns (failure: Option<SessionError>)
      requires Valid()
      modifies this
      ensures calls == old(calls) && Valid()
      ensures failure.None? <==>
                exitCode == Some(0) && groupGone && exists m: nat ::
                    m <= |script| && Drained(old(heard), calls, script, m)
    {
      hide Lines, StreamBytes, Flatten, Ended;
      ghost var before, j := heard, 0;
      var rest := script;
      assert before + Flatten(script[..0]) == before by { NoRounds(script); }
      while stdoutOpen || stderrOpen
        invariant Valid() && calls == old(calls)
        invariant j <= |script| && rest == script[j..] && [] !in script[..j] && heard == before + Flatten(script[..j])
        invariant forall i: nat :: i < j ==> !Closed(before + Flatten(script[..i]))
        decreases |rest|
      {
        assert !Closed(heard) by { ClosedMeans(heard); }
        if rest == [] || rest[0] == [] {
          NeverDrained(before, calls, script, j);
          return Some(NoEof);
        }
        assert script[..j + 1] == script[..j] + [rest[0]];
        NextRound(before, script, j);
        DrainRound(rest[0]);
        rest := rest[1..];
        j := j + 1;
      }
      assert Closed(heard) by { ClosedMeans(heard); }
      assert stdoutBuffer == [] <==> StreamBytes(heard, Stdout) == Lines(calls) by {
        assert |StreamBytes(heard, Stdout)| == |Lines(calls)| + |stdoutBuffer|;
      }
      DrainedHere(before, calls, script, j);
      if exitCode.None? {
        return Some(NoExit);
      }
      if exitCode.value != 0 || stderrBuffer != [] || stdoutBuffer != [] {
        return Some(ExitMismatch);
      }
      if !groupGone {
        return Some(GroupAlive);
      }
      failure := None;
    }

    // One select round of finish: bytes are kept, ended streams are no longer watched.
    method DrainRound(round: Round)
      requires Valid()
      modifies this
      ensures Valid() && calls == old(calls) && heard == old(heard) + round
    {
      hide Lines, StreamBytes;
      ghost var before := heard;
      for i := 0 to |round|
        invariant Valid() && calls == old(calls) && heard == before + round[..i]
      {
        var e := round[i];
        assert round[..i + 1] == round[..i] + [e];
        OneEvent(heard, e);
        heard := heard + [e];
        assert heard == before + round[..i + 1];
        if e.chunk != [] {
          total := total + |e.chunk|;
          if e.stream == Stderr {
            stderrBuffer := stderrBuffer + e.chunk;
          } else {
            assert Lines(calls) + stdoutBuffer + e.chunk == Lines(calls) + (stdoutBuffer + e.chunk);
            stdoutBuffer := stdoutBuffer + e.chunk;
          }
        } else if e.stream == Stdout {
          stdoutOpen := false;
        } else {
          stderrOpen := false;
        }
      }
      assert round[..|round|] == round;
    }
  }

  // ----- what the methods say of the script -----

  ghost predicate Suffix(script: seq<Round>, rest: seq<Round>) {
    |rest| <= |script| && rest == script[|script| - |rest|..]
  }

  function Used(script: seq<Round>, rest: seq<Round>): seq<Round>
    requires |rest| <= |script|
  {
    script[..|script| - |rest|]
  }

  // No round was read in vain: before the last one the frame was still unfinished.
  ghost predicate Needed(heard0: seq<Event>, calls: seq<Bytes>, used: seq<Round>) {
    [] !in used && (used != [] ==> Waiting(heard0 + Flatten(Front(used)), calls))
  }

  // Exactly these rounds were read to get a frame, without end of file or diagnostics.
  ghost predicate Read(heard0: seq<Event>, calls: seq<Bytes>, used: seq<Round>, heard: seq<Event>) {
    && heard == heard0 + Flatten(used) && Needed(heard0, calls, used)
    && (Ended(heard, Stdout) ==> Ended(heard0, Stdout)) && StreamBytes(heard, Stderr) == StreamBytes(heard0, Stderr)
  }

  ghost predicate Framed(frame: Bytes, heard: seq<Event>, calls: seq<Bytes>) {
    NEWLINE !in frame && exists more :: StreamBytes(heard, Stdout) == Lines(calls) + frame + [NEWLINE] + more
  }

  ghost predicate Failed(heard0: seq<Event>, calls: seq<Bytes>, script: seq<Round>, rest: seq<Round>,
                         error: SessionError, heard: seq<Event>)
    requires |rest| <= |script|
  {
    var used := Used(script, rest);
    && Needed(heard0, calls, used)
    && match error
       case TimedOut => heard == heard0 + Flatten(used) && Waiting(heard, calls) && (rest == [] || rest[0] == [])
       case FrameInvalid =>
         heard == heard0 + Flatten(used) && exists frame :: !GoodFrame(frame) && Framed(frame, heard, calls)
       case _ => used != [] && heard <= heard0 + Flatten(used) && Explains(error, heard, calls)
  }

  ghost predicate Refused(heard0: seq<Event>, calls: seq<Bytes>, exchange: Exchange, script: seq<Round>,
                          rest: seq<Round>, error: SessionError, heard: seq<Event>)
    requires |rest| <= |script|
  {
    match error
    case RequestLimit => |exchange.encoded| > MAX_PROTOCOL_FRAME
    case ResponseInvalid =>
      && heard == heard0 + Flatten(Used(script, rest)) && Needed(heard0, calls, Used(script, rest))
      && exists frame :: !exchange.answers(frame) && Framed(frame, heard, calls)
    case _ => Failed(heard0, calls, script, rest, error, heard)
  }

  ghost predicate Closed(heard: seq<Event>) {
    Ended(heard, Stdout) && Ended(heard, Stderr)
  }

  // After m more rounds, none of them a timeout, both streams have ended with nothing but the recorded lines.
  ghost predicate Drained(heard0: seq<Event>, calls: seq<Bytes>, script: seq<Round>, m: nat)
    requires m <= |script|
  {
    var heard := heard0 + Flatten(script[..m]);
    && [] !in script[..m] && Closed(heard)
    && StreamBytes(heard, Stdout) == Lines(calls) && StreamBytes(heard, Stderr) == []
  }

  lemma {:induction false} GoodMeans(frame: Bytes)
    requires NEWLINE !in frame
    ensures GoodFrame(frame) <==> frame != [] && |frame| <= MAX_PROTOCOL_FRAME
  {
  }

  lemma {:induction false} NoRounds(script: seq<Round>)
    ensures Flatten(script[..0]) == []
  {
  }

  lemma {:induction false} NothingUsed(heard0: seq<Event>, calls: seq<Bytes>, script: seq<Round>)
    ensures Suffix(script, script) && Read(heard0, calls, Used(script, script), heard0)
  {
  }

  lemma {:induction false} NextRound(heard0: seq<Event>, script: seq<Round>, j: nat)
    requires j < |script|
    ensures heard0 + Flatten(script[..j + 1]) == heard0 + Flatten(script[..j]) + script[j]
  {
    assert Front(script[..j + 1]) == script[..j];
  }

  // One more round: read whole it extends what was read, and cut short it is a prefix of that.
  lemma {:induction false} UseOne(heard0: seq<Event>, calls: seq<Bytes>, script: seq<Round>, rest: seq<Round>,
                                  heard: seq<Event>, later: seq<Event>)
    requires Suffix(script, rest) && rest != [] && rest[0] != []
    requires Read(heard0, calls, Used(script, rest), heard) && Waiting(heard, calls)
    requires heard <= later <= heard + rest[0]
    ensures Suffix(script, rest[1..]) && Used(script, rest[1..]) != [] && Needed(heard0, calls, Used(script, rest[1..]))
    ensures later <= heard0 + Flatten(Used(script, rest[1..]))
    ensures later == heard + rest[0] ==> later == heard0 + Flatten(Used(script, rest[1..]))
    ensures later == heard + rest[0] && (Ended(later, Stdout) ==> Ended(heard, Stdout))
            && StreamBytes(later, Stderr) == StreamBytes(heard, Stderr) ==>
              Read(heard0, calls, Used(script, rest[1..]), later)
  {
    var j := |script| - |rest|;
    var used := Used(script, rest[1..]);
    assert script[j] == rest[0] && used == script[..j + 1] && Front(used) == Used(script, rest);
    NextRound(heard0, script, j);
    hide Waiting, StreamBytes, Flatten;
    assert used == Used(script, rest) + [rest[0]];
  }

  lemma {:induction false} ClosedMeans(heard: seq<Event>)
    ensures Closed(heard) <==> Ended(heard, Stdout) && Ended(heard, Stderr)
  {
  }

  lemma {:induction false} NeverDrained(heard0: seq<Event>, calls: seq<Bytes>, script: seq<Round>, j: nat)
    requires j <= |script| && (j == |script| || script[j] == [])
    requires forall i: nat :: i <= j ==> !Closed(heard0 + Flatten(script[..i]))
    ensures forall m: nat :: m <= |script| ==> !Drained(heard0, calls, script, m)
  {
    hide Closed, Flatten;
    forall m: nat | m <= |script| ensures !Drained(heard0, calls, script, m) {
      if m > j { assert script[..m][j] == []; }
    }
  }

  // The first moment both streams have ended is the one that counts.
  lemma {:induction false} DrainedHere(heard0: seq<Event>, calls: seq<Bytes>, script: seq<Round>, j: nat)
    requires j <= |script| && [] !in script[..j] && Closed(heard0 + Flatten(script[..j]))
    requires forall i: nat :: i < j ==> !Closed(heard0 + Flatten(script[..i]))
    requires Lines(calls) <= StreamBytes(heard0 + Flatten(script[..j]), Stdout)
    ensures (exists m: nat :: m <= |script| && Drained(heard0, calls, script, m)) <==>
              && StreamBytes(heard0 + Flatten(script[..j]), Stdout) == Lines(calls)
              && StreamBytes(heard0 + Flatten(script[..j]), Stderr) == []
  {
    hide Closed, Flatten, StreamBytes, Lines;
    var h := heard0 + Flatten(script[..j]);
    if m: nat :| m <= |script| && Drained(heard0, calls, script, m) {
      assert m >= j;
      FlattenGrows(script, j, m);
      HeardGrows(h, heard0 + Flatten(script[..m]));
    }
    if StreamBytes(h, Stdout) == Lines(calls) && StreamBytes(h, Stderr) == [] {
      assert Drained(heard0, calls, script, j);
    }
  }

  // ----- whole sessions -----

  // A request with the test its response has to pass.
  datatype Exchange = Exchange(encoded: Bytes, answers: Bytes -> bool)

  predicate Answers(exchange: Exchange, frame: Bytes) {
    |exchange.encoded| <= MAX_PROTOCOL_FRAME && GoodFrame(frame) && exchange.answers(frame)
  }

  // The server answers every request with one line: by round k all lines have arrived, stdout still being open, and by
  // round m both streams have ended, with nothing else on either and no silence before that.
  ghost predicate Served(exchanges: seq<Exchange>, script: seq<Round>, frames: seq<Bytes>, k: nat, m: nat) {
    && k <= m <= |script| && [] !in script[..m]
    && |frames| == |exchanges| && (forall i :: 0 <= i < |frames| ==> Answers(exchanges[i], frames[i]))
    && |Lines(frames)| <= MAX_PROTOCOL_TOTAL
    && Sent(script[..k], Stdout) == Lines(frames) && !Ended(Flatten(script[..k]), Stdout)
    && Sent(script[..m], Stdout) == Lines(frames) && Sent(script[..m], Stderr) == [] && Closed(Flatten(script[..m]))
  }

  lemma {:induction false} LinesPush(frames: seq<Bytes>, frame: Bytes)
    ensures Lines(frames + [frame]) == Lines(frames) + frame + [NEWLINE]
  {
    if frames == [] {
      assert ([frame])[1..] == [];
      assert Lines([frame]) == frame + [NEWLINE] + Lines([]);
    } else {
      assert (frames + [frame])[1..] == frames[1..] + [frame];
      LinesPush(frames[1..], frame);
    }
  }

  lemma {:induction false} LinesApart(a: seq<Bytes>, b: seq<Bytes>)
    ensures Lines(a + b) == Lines(a) + Lines(b)
  {
    if a == [] {
      assert a + b == b;
    } else {
      LinesApart(a[1..], b);
      assert (a + b)[1..] == a[1..] + b && (a + b)[0] == a[0];
    }
  }

  // The frames from the i-th on are what the lines are after the first i.
  lemma {:induction false} LinesFrom(frames: seq<Bytes>, i: nat)
    requires i < |frames|
    ensures Lines(frames) == Lines(frames[..i]) + (frames[i] + [NEWLINE] + Lines(frames[i + 1..]))
  {
    var tail := frames[i..];
    assert tail[0] == frames[i] && tail[1..] == frames[i + 1..];
    assert frames == frames[..i] + tail;
    LinesApart(frames[..i], tail);
    assert Lines(tail) == tail[0] + [NEWLINE] + Lines(tail[1..]);
  }

  // All lines have arrived: the i-th is no longer unfinished.
  lemma {:induction false} NotWaiting(frames: seq<Bytes>, i: nat, heard: seq<Event>)
    requires i < |frames| && Lines(frames) <= StreamBytes(heard, Stdout)
    ensures !Waiting(heard, frames[..i])
  {
    hide Lines, StreamBytes;
    LinesFrom(frames, i);
    var head, bytes := Lines(frames[..i]), StreamBytes(heard, Stdout);
    assert bytes[|head| + |frames[i]|] == NEWLINE;
  }

  // A complete line is the i-th, as long as no more than the lines has arrived.
  lemma {:induction false} NextFrame(frames: seq<Bytes>, i: nat, frame: Bytes, more: Bytes)
    requires i < |frames| && NEWLINE !in frame && NEWLINE !in frames[i]
    requires Lines(frames[..i]) + frame + [NEWLINE] + more <= Lines(frames)
    ensures frame == frames[i]
  {
    LinesFrom(frames, i);
    hide Lines;
    SameLine(Lines(frames[..i]), frame, more, frames[i], Lines(frames[i + 1..]));
  }

  lemma {:induction false} SameLine(head: Bytes, x: Bytes, s: Bytes, y: Bytes, t: Bytes)
    requires NEWLINE !in x && NEWLINE !in y && head + x + [NEWLINE] + s <= head + (y + [NEWLINE] + t)
    ensures x == y
  {
    var left, right := x + [NEWLINE] + s, y + [NEWLINE] + t;
    assert head + x + [NEWLINE] + s == head + left;
    assert (head + left)[|head|..] == left && (head + right)[|head|..] == right;
    var cut := right[|left|..];
    assert right == x + [NEWLINE] + (s + cut);
    SplitSkip(x, s + cut, NEWLINE);
    SplitSkip(y, t, NEWLINE);
    assert ([x] + Split(s + cut, NEWLINE))[0] == ([y] + Split(t, NEWLINE))[0];
  }

  // An unfinished line is no longer than the i-th.
  lemma {:induction false} ShortStart(frames: seq<Bytes>, i: nat, b: Bytes)
    requires i < |frames| && NEWLINE !in b && Lines(frames[..i]) + b <= Lines(frames)
    ensures |b| <= |frames[i]|
  {
    LinesFrom(frames, i);
    hide Lines;
    var head, whole := Lines(frames[..i]), Lines(frames);
    assert whole[|head| + |frames[i]|] == NEWLINE;
    assert forall q :: 0 <= q < |b| ==> b[q] != NEWLINE && (head + b)[|head| + q] == b[q];
  }

  // ----- the run of a served session -----

  // Before the i-th request: c rounds were read, and the recorded lines are the first i.
  ghost predicate OnTrack(script: seq<Round>, frames: seq<Bytes>, i: nat, c: nat, k: nat, heard: seq<Event>,
                          calls: seq<Bytes>) {
    && c <= k <= |script| && i <= |frames| && calls == frames[..i] && heard == Flatten(script[..c])
  }

  // Rounds are only read until all lines have arrived.
  lemma {:induction false} ReadInTime(script: seq<Round>, frames: seq<Bytes>, i: nat, c: nat, k: nat, heard: seq<Event>,
                                      calls: seq<Bytes>, rest: seq<Round>)
    requires OnTrack(script, frames, i, c, k, heard, calls) && i < |frames|
    requires Sent(script[..k], Stdout) == Lines(frames)
    requires Suffix(script[c..], rest) && Needed(heard, calls, Used(script[c..], rest))
    ensures var d := |script| - |rest|;
            c <= d <= k && heard + Flatten(Used(script[c..], rest)) == Flatten(script[..d]) && rest == script[d..]
  {
    hide Flatten, StreamBytes, Lines, Waiting;
    var d := |script| - |rest|;
    UsedRounds(script, c, rest);
    if d > c { StillWaiting(script, frames, i, k, d - 1); }
  }

  lemma {:induction false} UsedRounds(script: seq<Round>, c: nat, rest: seq<Round>)
    requires c <= |script| && Suffix(script[c..], rest)
    ensures var d, used := |script| - |rest|, Used(script[c..], rest);
            && c <= d <= |script| && rest == script[d..] && (used == [] <==> c == d) && used == script[c..d]
            && Flatten(script[..c]) + Flatten(used) == Flatten(script[..d])
            && (used != [] ==> Flatten(script[..c]) + Flatten(Front(used)) == Flatten(script[..d - 1]))
  {
    hide Flatten;
    var d, used := |script| - |rest|, Used(script[c..], rest);
    assert used == script[c..d];
    assert script[..d] == script[..c] + used;
    FlattenApart(script[..c], used);
    if used != [] {
      assert script[..d - 1] == script[..c] + Front(used);
      FlattenApart(script[..c], Front(used));
    }
  }

  lemma {:induction false} StillWaiting(script: seq<Round>, frames: seq<Bytes>, i: nat, k: nat, d: nat)
    requires k <= |script| && d <= |script| && i < |frames| && Sent(script[..k], Stdout) == Lines(frames)
    ensures Waiting(Flatten(script[..d]), frames[..i]) ==> d < k
  {
    hide Flatten, StreamBytes, Lines, Waiting;
    if d >= k {
      FlattenGrows(script, k, d);
      HeardGrows(Flatten(script[..k]), Flatten(script[..d]));
      NotWaiting(frames, i, Flatten(script[..d]));
    }
  }

  // A complete line heard in time is the expected one.
  lemma {:induction false} FramedIsNext(frames: seq<Bytes>, i: nat, frame: Bytes, heard: seq<Event>)
    requires i < |frames| && NEWLINE !in frames[i] && StreamBytes(heard, Stdout) <= Lines(frames)
    requires Framed(frame, heard, frames[..i])
    ensures frame == frames[i]
  {
    hide StreamBytes, Lines;
    var more :| StreamBytes(heard, Stdout) == Lines(frames[..i]) + frame + [NEWLINE] + more;
    NextFrame(frames, i, frame, more);
  }

  // Nothing heard while a line is awaited explains a failure.
  lemma {:induction false} NotExplained(frames: seq<Bytes>, i: nat, heard: seq<Event>, error: SessionError)
    requires i < |frames| && GoodFrame(frames[i]) && |Lines(frames)| <= MAX_PROTOCOL_TOTAL
    requires StreamBytes(heard, Stdout) <= Lines(frames) && StreamBytes(heard, Stderr) == [] && !Ended(heard, Stdout)
    ensures !Explains(error, heard, frames[..i])
  {
    hide StreamBytes, Lines, Ended;
    if error == FrameLimit {
      forall b | NEWLINE !in b && StreamBytes(heard, Stdout) == Lines(frames[..i]) + b
          ensures |b| <= MAX_PROTOCOL_FRAME {
        ShortStart(frames, i, b);
      }
    }
  }

  // What was heard by an earlier round of a served session.
  lemma {:induction false} HeardInTime(exchanges: seq<Exchange>, script: seq<Round>, frames: seq<Bytes>, k: nat, m: nat,
                                       heard: seq<Event>)
    requires Served(exchanges, script, frames, k, m) && heard <= Flatten(script[..k])
    ensures StreamBytes(heard, Stdout) <= Lines(frames) && StreamBytes(heard, Stderr) == [] && !Ended(heard, Stdout)
  {
    hide Flatten, StreamBytes, Lines, Ended, Answers;
    FlattenGrows(script, k, m);
    HeardGrows(heard, Flatten(script[..k]));
    HeardGrows(heard, Flatten(script[..m]));
  }

  // A request of a served session is not refused.
  lemma {:induction false} NotRefused(exchanges: seq<Exchange>, script: seq<Round>, frames: seq<Bytes>, k: nat, m: nat,
                                      i: nat, c: nat, heard0: seq<Event>, rest: seq<Round>, error: SessionError,
                                      heard: seq<Event>)
    requires Served(exchanges, script, frames, k, m) && i < |frames|
             && OnTrack(script, frames, i, c, k, heard0, frames[..i])
    requires Suffix(script[c..], rest)
    ensures !Refused(heard0, frames[..i], exchanges[i], script[c..], rest, error, heard)
  {
    hide Flatten, StreamBytes, Lines, Waiting, Needed, Framed, Explains, Ended;
    assert Answers(exchanges[i], frames[i]);
    if Refused(heard0, frames[..i], exchanges[i], script[c..], rest, error, heard) && error != RequestLimit {
      ReadInTime(script, frames, i, c, k, heard0, frames[..i], rest);
      FlattenGrows(script, |script| - |rest|, k);
      HeardInTime(exchanges, script, frames, k, m, heard);
      NotExplained(frames, i, heard, error);
      NotTimedOut(exchanges, script, frames, k, m, i, |script| - |rest|);
      forall frame | Framed(frame, heard, frames[..i]) ensures frame == frames[i] {
        FramedIsNext(frames, i, frame, heard);
      }
    }
  }

  lemma {:induction false} NotTimedOut(exchanges: seq<Exchange>, script: seq<Round>, frames: seq<Bytes>, k: nat, m: nat,
                                       i: nat, d: nat)
    requires Served(exchanges, script, frames, k, m) && i < |frames| && d <= k
    ensures !(Waiting(Flatten(script[..d]), frames[..i]) && (d == |script| || script[d] == []))
  {
    hide Flatten, StreamBytes, Lines, Waiting, Ended;
    if d == k {
      NotWaiting(frames, i, Flatten(script[..k]));
    } else {
      assert script[d] in script[..m];
    }
  }

  // An answered request of a served session was answered by the expected line, in time.
  lemma {:induction false} OneAnswered(exchanges: seq<Exchange>, script: seq<Round>, frames: seq<Bytes>, k: nat, m: nat,
                                       i: nat, c: nat, heard0: seq<Event>, rest: seq<Round>, heard: seq<Event>,
                                       calls: seq<Bytes>, frame: Bytes, more: Bytes)
    requires Served(exchanges, script, frames, k, m) && i < |frames|
             && OnTrack(script, frames, i, c, k, heard0, frames[..i])
    requires Suffix(script[c..], rest) && Read(heard0, frames[..i], Used(script[c..], rest), heard)
    requires calls == frames[..i] + [frame] && NEWLINE !in frame && StreamBytes(heard, Stdout) == Lines(calls) + more
    ensures OnTrack(script, frames, i + 1, |script| - |rest|, k, heard, calls)
  {
    hide Flatten, StreamBytes, Lines, Waiting, Needed, Ended;
    assert Answers(exchanges[i], frames[i]);
    ReadInTime(script, frames, i, c, k, heard0, frames[..i], rest);
    FlattenGrows(script, |script| - |rest|, k);
    HeardInTime(exchanges, script, frames, k, m, heard);
    LinesPush(frames[..i], frame);
    assert Framed(frame, heard, frames[..i]);
    FramedIsNext(frames, i, frame, heard);
    assert frames[..i + 1] == frames[..i] + [frames[i]];
  }

  lemma {:induction false} JoinedRounds(script: seq<Round>, c: nat, d: nat)
    requires c + d <= |script|
    ensures Flatten(script[..c]) + Flatten(script[c..][..d]) == Flatten(script[..c + d])
    ensures [] !in script[..c + d] <==> [] !in script[..c] && [] !in script[c..][..d]
  {
    hide Flatten;
    assert script[..c + d] == script[..c] + script[c..][..d];
    FlattenApart(script[..c], script[c..][..d]);
  }

  // After the last request a served session drains.
  lemma {:induction false} ServedDrains(exchanges: seq<Exchange>, script: seq<Round>, frames: seq<Bytes>, k: nat,
                                        m: nat, c: nat, heard: seq<Event>)
    requires Served(exchanges, script, frames, k, m) && OnTrack(script, frames, |frames|, c, k, heard, frames)
    ensures Drained(heard, frames, script[c..], m - c)
  {
    hide Flatten, StreamBytes, Lines, Ended, Answers;
    JoinedRounds(script, c, m - c);
  }

  // And a session that answered its requests and drained was served.
  lemma {:induction false} DrainedServed(exchanges: seq<Exchange>, script: seq<Round>, frames: seq<Bytes>, c: nat,
                                         d: nat, heard: seq<Event>)
    requires c <= |script| && d <= |script| - c && heard == Flatten(script[..c]) && [] !in script[..c]
    requires |frames| == |exchanges| && forall i :: 0 <= i < |frames| ==> Answers(exchanges[i], frames[i])
    requires !Ended(heard, Stdout) && |StreamBytes(heard, Stdout)| <= MAX_PROTOCOL_TOTAL
    requires Lines(frames) <= StreamBytes(heard, Stdout) && Drained(heard, frames, script[c..], d)
    ensures Served(exchanges, script, frames, c, c + d)
  {
    hide Flatten, StreamBytes, Lines, Ended, Answers;
    JoinedRounds(script, c, d);
    HeardGrows(heard, Flatten(script[..c + d]));
  }

  // Before the i-th request every way of being served is still open.
  ghost predicate AllOnTrack(exchanges: seq<Exchange>, script: seq<Round>, i: nat, c: nat, heard: seq<Event>,
                             calls: seq<Bytes>) {
    forall frames, k, m :: Served(exchanges, script, frames, k, m) ==> OnTrack(script, frames, i, c, k, heard, calls)
  }

  ghost predicate IsServed(exchanges: seq<Exchange>, script: seq<Round>) {
    exists frames, k, m :: Served(exchanges, script, frames, k, m)
  }

  lemma {:induction false} StartOnTrack(exchanges: seq<Exchange>, script: seq<Round>)
    ensures AllOnTrack(exchanges, script, 0, 0, [], []) && script[0..] == script && Flatten(script[..0]) == []
  {
    NoRounds(script);
    hide Flatten, StreamBytes, Lines, Ended, Closed, Answers;
  }

  lemma {:induction false} NoneServed(exchanges: seq<Exchange>, script: seq<Round>, i: nat, c: nat, heard0: seq<Event>,
                                      calls: seq<Bytes>, rest: seq<Round>, error: SessionError, heard: seq<Event>)
    requires AllOnTrack(exchanges, script, i, c, heard0, calls) && i < |exchanges| && c <= |script|
    requires Suffix(script[c..], rest) && Refused(heard0, calls, exchanges[i], script[c..], rest, error, heard)
    ensures !IsServed(exchanges, script)
  {
    hide Refused;
    forall frames, k, m ensures !Served(exchanges, script, frames, k, m) {
      if Served(exchanges, script, frames, k, m) {
        assert OnTrack(script, frames, i, c, k, heard0, calls);
        NotRefused(exchanges, script, frames, k, m, i, c, heard0, rest, error, heard);
      }
    }
  }

  lemma {:induction false} NextOnTrack(exchanges: seq<Exchange>, script: seq<Round>, i: nat, c: nat, heard0: seq<Event>,
                                       calls: seq<Bytes>, rest: seq<Round>, heard: seq<Event>, frame: Bytes,
                                       more: Bytes)
    requires AllOnTrack(exchanges, script, i, c, heard0, calls) && i < |exchanges| && c <= |script|
    requires heard0 == Flatten(script[..c]) && Suffix(script[c..], rest)
             && Read(heard0, calls, Used(script[c..], rest), heard)
    requires NEWLINE !in frame && StreamBytes(heard, Stdout) == Lines(calls + [frame]) + more
    ensures var d := |script| - |rest|;
            && AllOnTrack(exchanges, script, i + 1, d, heard, calls + [frame])
            && c <= d <= |script| && rest == script[d..] && heard == Flatten(script[..d])
            && ([] !in script[..c] ==> [] !in script[..d])
  {
    hide Flatten, StreamBytes, Lines, Waiting, Ended, Served;
    var d := |script| - |rest|;
    UsedRounds(script, c, rest);
    NoneSilent(script, c, rest);
    forall frames, k, m | Served(exchanges, script, frames, k, m)
      ensures OnTrack(script, frames, i + 1, d, k, heard, calls + [frame])
    {
      assert OnTrack(script, frames, i, c, k, heard0, calls);
      ServedLength(exchanges, script, frames, k, m);
      OneAnswered(exchanges, script, frames, k, m, i, c, heard0, rest, heard, calls + [frame], frame, more);
    }
  }

  lemma {:induction false} NoneSilent(script: seq<Round>, c: nat, rest: seq<Round>)
    requires c <= |script| && Suffix(script[c..], rest) && [] !in Used(script[c..], rest)
    ensures [] !in script[..c] ==> [] !in script[..|script| - |rest|]
  {
    assert script[..|script| - |rest|] == script[..c] + Used(script[c..], rest);
  }

  // All requests answered: the session is served exactly if it drains.
  lemma {:induction false} ServedExact(exchanges: seq<Exchange>, script: seq<Round>, c: nat, heard: seq<Event>,
                                       calls: seq<Bytes>)
    requires AllOnTrack(exchanges, script, |exchanges|, c, heard, calls) && |calls| == |exchanges|
    requires c <= |script| && heard == Flatten(script[..c]) && [] !in script[..c]
    requires forall i :: 0 <= i < |calls| ==> Answers(exchanges[i], calls[i])
    requires !Ended(heard, Stdout) && |StreamBytes(heard, Stdout)| <= MAX_PROTOCOL_TOTAL
    requires Lines(calls) <= StreamBytes(heard, Stdout)
    ensures IsServed(exchanges, script) <==>
            exists m: nat :: m <= |script[c..]| && Drained(heard, calls, script[c..], m)
    ensures IsServed(exchanges, script) ==> exists k, m :: Served(exchanges, script, calls, k, m)
  {
    hide Flatten, StreamBytes, Lines, Answers, Drained, Ended, Served;
    if frames, k, m :| Served(exchanges, script, frames, k, m) {
      assert OnTrack(script, frames, |exchanges|, c, k, heard, calls);
      ServedLength(exchanges, script, frames, k, m);
      assert frames[..|exchanges|] == frames;
      ServedDrains(exchanges, script, frames, k, m, c, heard);
    }
    if m: nat :| m <= |script[c..]| && Drained(heard, calls, script[c..], m) {
      DrainedServed(exchanges, script, calls, c, m, heard);
    }
  }

  lemma {:induction false} ServedLength(exchanges: seq<Exchange>, script: seq<Round>, frames: seq<Bytes>, k: nat,
                                        m: nat)
    requires Served(exchanges, script, frames, k, m)
    ensures |frames| == |exchanges| && k <= m <= |script|
  {
  }

  // Where a session stands before its i-th request, c rounds having been read.
  ghost predicate Going(exchanges: seq<Exchange>, script: seq<Round>, i: nat, c: nat, heard: seq<Event>,
                        calls: seq<Bytes>) {
    && AllOnTrack(exchanges, script, i, c, heard, calls) && |calls| == i <= |exchanges|
    && (forall n :: 0 <= n < i ==> Answers(exchanges[n], calls[n]))
    && c <= |script| && heard == Flatten(script[..c]) && [] !in script[..c] && !Ended(heard, Stdout)
  }

  lemma {:induction false} StartGoing(exchanges: seq<Exchange>, script: seq<Round>)
    ensures Going(exchanges, script, 0, 0, [], []) && script[0..] == script
  {
    StartOnTrack(exchanges, script);
  }

  // One exchange, and what it means for the whole session.
  method ConductOne(session: Session, exchanges: seq<Exchange>, ghost script: seq<Round>, i: nat, ghost c: nat,
                    rest0: seq<Round>)
    returns (r: Result<Bytes, SessionError>, rest: seq<Round>)
    requires session.Valid() && session.total <= MAX_PROTOCOL_TOTAL && i < |exchanges|
    requires Going(exchanges, script, i, c, session.heard, session.calls) && rest0 == script[c..]
    modifies session
    ensures |session.calls| <= |exchanges| && forall n :: 0 <= n < |session.calls| ==>
            Answers(exchanges[n], session.calls[n])
    ensures r.Err? ==> !IsServed(exchanges, script)
    ensures r.Ok? ==>
              && session.Valid() && session.total <= MAX_PROTOCOL_TOTAL && |rest| <= |script|
              && rest == script[|script| - |rest|..]
              && Going(exchanges, script, i + 1, |script| - |rest|, session.heard, session.calls)
  {
    hide AllOnTrack, Answers, Read, Refused, IsServed, Ended, StreamBytes, Lines, Flatten;
    ghost var heard0, calls0 := session.heard, session.calls;
    r, rest := session.Request(exchanges[i], rest0);
    if r.Err? {
      NoneServed(exchanges, script, i, c, heard0, calls0, rest, r.error, session.heard);
    } else {
      RecordedFrame(session, heard0, calls0, Used(script[c..], rest), r.value);
      NextOnTrack(exchanges, script, i, c, heard0, calls0, rest, session.heard, r.value, session.stdoutBuffer);
    }
  }

  // A whole session ends well exactly when the server exits cleanly and, round by round, answers every request with one
  // newline-terminated line and puts not a byte more on either stream; those lines are then the recorded ones.
  method Conduct(exchanges: seq<Exchange>, script: seq<Round>, exitCode: Option<int>, groupGone: bool)
    returns (failure: Option<SessionError>, session: Session)
    ensures failure.None? <==> exitCode == Some(0) && groupGone && IsServed(exchanges, script)
    ensures failure.None? ==> exists k, m :: Served(exchanges, script, session.calls, k, m)
    ensures |session.calls| <= |exchanges| && forall n :: 0 <= n < |session.calls| ==>
            Answers(exchanges[n], session.calls[n])
  {
    session := new Session();
    var rest := script;
    ghost var c: nat := 0;
    StartGoing(exchanges, script);
    assert session.total <= MAX_PROTOCOL_TOTAL by { StartValid(session); }
    hide *;
    for i := 0 to |exchanges|
      invariant fresh(session) && session.Valid() && session.total <= MAX_PROTOCOL_TOTAL
      invariant c <= |script| && rest == script[c..] && Going(exchanges, script, i, c, session.heard, session.calls)
    {
      var r;
      r, rest := ConductOne(session, exchanges, script, i, c, rest);
      if r.Err? {
        return Some(r.error), session;
      }
      c := |script| - |rest|;
    }
    GoingDone(session, exchanges, script, c);
    failure := session.Finish(rest, exitCode, groupGone);
  }

  lemma {:induction false} GoingDone(session: Session, exchanges: seq<Exchange>, script: seq<Round>, c: nat)
    requires session.Valid() && session.total <= MAX_PROTOCOL_TOTAL
    requires Going(exchanges, script, |exchanges|, c, session.heard, session.calls)
    ensures c <= |script| && |session.calls| == |exchanges|
    ensures forall n :: 0 <= n < |session.calls| ==> Answers(exchanges[n], session.calls[n])
    ensures IsServed(exchanges, script) <==>
              exists m: nat :: m <= |script[c..]| && Drained(session.heard, session.calls, script[c..], m)
    ensures IsServed(exchanges, script) ==> exists k, m :: Served(exchanges, script, session.calls, k, m)
  {
    hide AllOnTrack, Answers, IsServed, Served, Drained, Ended, StreamBytes, Lines, Flatten;
    RecordedLines(session);
    ServedExact(exchanges, script, c, session.heard, session.calls);
  }

  lemma {:induction false} StartValid(session: Session)
    requires session.heard == [] && session.Valid()
    ensures session.total <= MAX_PROTOCOL_TOTAL
  {
  }

  lemma {:induction false} RecordedFrame(session: Session, heard0: seq<Event>, calls0: seq<Bytes>, used: seq<Round>,
                                         frame: Bytes)
    requires session.Valid() && session.calls == calls0 + [frame] && Read(heard0, calls0, used, session.heard)
    ensures NEWLINE !in frame
    ensures StreamBytes(session.heard, Stdout) == Lines(calls0 + [frame]) + session.stdoutBuffer
    ensures !Ended(heard0, Stdout) ==> !Ended(session.heard, Stdout)
  {
    hide StreamBytes, Lines, Flatten, Waiting;
    assert frame in calls0 + [frame];
  }

  lemma {:induction false} RecordedLines(session: Session)
    requires session.Valid() && session.total <= MAX_PROTOCOL_TOTAL
    ensures Lines(session.calls) <= StreamBytes(session.heard, Stdout)
    ensures |StreamBytes(session.heard, Stdout)| <= MAX_PROTOCOL_TOTAL
  {
    hide StreamBytes, Lines;
  }

  // The lines of a served session are determined by what the server wrote.
  lemma {:induction false} ServedLines(exchanges: seq<Exchange>, script: seq<Round>, frames: seq<Bytes>, k: nat, m: nat)
    requires Served(exchanges, script, frames, k, m)
    ensures Split(Sent(script[..m], Stdout), NEWLINE) == frames + [[]]
  {
    hide Flatten, StreamBytes, Lines, Ended;
    assert forall f :: f in frames ==> NEWLINE !in f by {
      forall i | 0 <= i < |frames| ensures NEWLINE !in frames[i] { assert Answers(exchanges[i], frames[i]); }
    }
    FramesUnique(frames, []);
    assert Lines(frames) + [] == Lines(frames);
  }
}
