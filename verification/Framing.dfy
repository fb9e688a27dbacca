/** Newline framing of a byte stream, and the app-server transport that routes the framed messages. */
module Framing {
  import opened Results
  import opened Text

  type Bytes = seq<bv8>

  const NEWLINE: bv8 := 10
  const MAX_LINE_BYTES := 4194304
  const READ_SIZE := 65536

  // A decoded JSON object, as far as routing looks at it.
  datatype Message = Message(id: Option<int>, hasResult: bool, hasError: bool, raw: Bytes)

  predicate IsResponse(m: Message) {
    m.id.Some? && (m.hasResult || m.hasError)
  }

  function Concat(chunks: seq<Bytes>): Bytes {
    if chunks == [] then [] else Concat(chunks[..|chunks| - 1]) + chunks[|chunks| - 1]
  }

  // The complete lines of a stream, and what follows its last newline.
  function Frames(bytes: Bytes): seq<Bytes> {
    Front(Split(bytes, NEWLINE))
  }

  function Residual(bytes: Bytes): Bytes {
    Last(Split(bytes, NEWLINE))
  }

  // Every frame with its newline back.
  function Lines(frames: seq<Bytes>): Bytes {
    if frames == [] then [] else frames[0] + [NEWLINE] + Lines(frames[1..])
  }

  // bytearray.partition at the first newline
  function LineEnd(buf: Bytes): (n: nat)
    requires NEWLINE in buf
    ensures n < |buf| && buf[n] == NEWLINE && NEWLINE !in buf[..n]
  {
    if buf[0] == NEWLINE then 0
    else
      var n := LineEnd(buf[1..]);
      assert buf[..n + 1] == [buf[0]] + buf[1..][..n];
      n + 1
  }

  // Frames and residual lose nothing: put together they are the stream.
  lemma {:induction false} LinesOf(parts: seq<Bytes>)
    requires parts != []
    ensures Join(parts, NEWLINE) == Lines(Front(parts)) + Last(parts)
    decreases |parts|
  {
    if |parts| > 1 {
      LinesOf(parts[1..]);
      assert Front(parts)[1..] == Front(parts[1..]) && Front(parts)[0] == parts[0];
      assert parts[0] + [NEWLINE] + (Lines(Front(parts[1..])) + Last(parts)) ==
             (parts[0] + [NEWLINE] + Lines(Front(parts[1..]))) + Last(parts);
    }
  }

  lemma {:induction false} FramesAndResidual(bytes: Bytes)
    ensures Lines(Frames(bytes)) + Residual(bytes) == bytes
    ensures NEWLINE !in Residual(bytes) && forall f :: f in Frames(bytes) ==> NEWLINE !in f
  {
    JoinSplit(bytes, NEWLINE);
    SplitFree(bytes, NEWLINE);
    LinesOf(Split(bytes, NEWLINE));
    forall f | f in Frames(bytes) ensures NEWLINE !in f {
      var i :| 0 <= i < |Frames(bytes)| && Frames(bytes)[i] == f;
      assert Split(bytes, NEWLINE)[i] == f;
    }
  }

  // And they are the only such decomposition.
  lemma {:induction false} FramesUnique(frames: seq<Bytes>, rest: Bytes)
    requires NEWLINE !in rest && forall f :: f in frames ==> NEWLINE !in f
    ensures Split(Lines(frames) + rest, NEWLINE) == frames + [rest]
    decreases |frames|
  {
    hide Split;
    if frames == [] {
      assert Lines(frames) + rest == rest;
      SplitWhole(rest, NEWLINE);
      assert frames + [rest] == [rest];
    } else {
      var tail := Lines(frames[1..]) + rest;
      assert Lines(frames) + rest == frames[0] + [NEWLINE] + tail;
      SplitSkip(frames[0], tail, NEWLINE);
      hide *;
      FramesUnique(frames[1..], rest);
      assert [frames[0]] + (frames[1..] + [rest]) == frames + [rest];
    }
  }

  // ----- the reader thread -----

  datatype OutFailure = LineBudget | InvalidJson | Unterminated

  // The check runs on the whole buffer, before any line is taken out of it.
  ghost predicate BudgetKept(chunks: seq<Bytes>, n: nat)
    requires n <= |chunks|
  {
    forall i :: 0 <= i < n ==> |Residual(Concat(chunks[..i]))| + |chunks[i]| <= MAX_LINE_BYTES
  }

  ghost predicate WithinBudget(chunks: seq<Bytes>) {
    BudgetKept(chunks, |chunks|)
  }

  function Routed(frames: seq<Bytes>, decode: Bytes -> Option<Message>, responses: bool): seq<Message> {
    if frames == [] then []
    else
      var m := decode(frames[|frames| - 1]);
      Routed(frames[..|frames| - 1], decode, responses) +
      if m.Some? && IsResponse(m.value) == responses then [m.value] else []
  }

  ghost predicate AllDecode(frames: seq<Bytes>, decode: Bytes -> Option<Message>) {
    forall f :: f in frames ==> decode(f).Some?
  }

  // The pieces of the stream so far are the frames already routed and the pieces of the buffer.
  ghost predicate Held(pieces: seq<Bytes>, frames: seq<Bytes>, buf: Bytes, decode: Bytes -> Option<Message>,
                       q: seq<Message>, events: seq<Message>) {
    && pieces == frames + Split(buf, NEWLINE) && AllDecode(frames, decode)
    && q == Routed(frames, decode, true) && events == Routed(frames, decode, false)
  }

  lemma {:induction false} TakeLine(pieces: seq<Bytes>, frames: seq<Bytes>, buf: Bytes,
                                    decode: Bytes -> Option<Message>, q: seq<Message>, events: seq<Message>, n: nat)
    requires Held(pieces, frames, buf, decode, q, events)
    requires n < |buf| && buf[n] == NEWLINE && NEWLINE !in buf[..n]
    ensures var raw, tail := buf[..n], buf[n + 1..]; var m := decode(raw);
            if m.None? then |frames| < |pieces| - 1 && pieces[|frames|] == raw
            else Held(pieces, frames + [raw], tail, decode, if IsResponse(m.value) then q + [m.value] else q,
                      if IsResponse(m.value) then events else events + [m.value])
  {
    var raw, tail := buf[..n], buf[n + 1..];
    assert buf == raw + [NEWLINE] + tail;
    SplitSkip(raw, tail, NEWLINE);
    var more := Split(tail, NEWLINE);
    hide Split, IsResponse;
    assert pieces == frames + [raw] + more;
    assert (frames + [raw])[..|frames|] == frames;
  }

  // Takes the complete lines out of the buffer, routing each message.
  method Drain(buf0: Bytes, decode: Bytes -> Option<Message>, q0: seq<Message>, events0: seq<Message>,
               ghost frames0: seq<Bytes>, ghost pieces: seq<Bytes>)
    returns (ok: bool, buf: Bytes, q: seq<Message>, events: seq<Message>, ghost frames: seq<Bytes>)
    requires pieces != [] && Held(pieces, frames0, buf0, decode, q0, events0)
    ensures Held(pieces, frames, buf, decode, q, events)
    ensures ok ==> NEWLINE !in buf
    ensures !ok ==> |frames| < |pieces| - 1 && decode(pieces[|frames|]).None?
  {
    buf, q, events, frames := buf0, q0, events0, frames0;
    hide Held, AllDecode, IsResponse;
    while NEWLINE in buf
      invariant Held(pieces, frames, buf, decode, q, events)
      decreases |buf|
    {
      var n := LineEnd(buf);
      TakeLine(pieces, frames, buf, decode, q, events, n);
      var raw := buf[..n];
      var m := decode(raw);
      if m.None? {
        return false, buf, q, events, frames;
      }
      if IsResponse(m.value) {
        q := q + [m.value];
      } else {
        events := events + [m.value];
      }
      frames := frames + [raw];
      buf := buf[n + 1..];
    }
    ok := true;
  }

  lemma {:induction false} ReadChunk(done: Bytes, chunk: Bytes, frames: seq<Bytes>, buf: Bytes,
                                     decode: Bytes -> Option<Message>, q: seq<Message>, events: seq<Message>)
    requires Held(Split(done, NEWLINE), frames, buf, decode, q, events) && NEWLINE !in buf
    ensures Held(Split(done + chunk, NEWLINE), frames, buf + chunk, decode, q, events)
    ensures Residual(done) == buf && Frames(done) == frames
  {
    SplitWhole(buf, NEWLINE);
    SplitAppend(done, chunk, NEWLINE);
    assert Front(frames + [buf]) == frames && Last(frames + [buf]) == buf;
  }

  lemma {:induction false} BudgetStart(chunks: seq<Bytes>)
    ensures BudgetKept(chunks, 0) && (WithinBudget(chunks) <==> BudgetKept(chunks, |chunks|))
  {
  }

  lemma {:induction false} BudgetStep(chunks: seq<Bytes>, i: nat)
    requires i < |chunks| && BudgetKept(chunks, i)
    ensures if |Residual(Concat(chunks[..i]))| + |chunks[i]| <= MAX_LINE_BYTES then BudgetKept(chunks, i + 1)
            else !WithinBudget(chunks)
    ensures Concat(chunks[..i + 1]) == Concat(chunks[..i]) + chunks[i]
  {
    assert chunks[..i + 1][..i] == chunks[..i];
    hide Residual, Concat;
  }

  // What has been delivered, and why no more was.
  ghost predicate Delivered(chunks: seq<Bytes>, decode: Bytes -> Option<Message>, failure: Option<OutFailure>,
                            frames: seq<Bytes>) {
    var whole := Frames(Concat(chunks));
    && frames <= whole && AllDecode(frames, decode)
    && match failure
       case None => WithinBudget(chunks) && frames == whole && Residual(Concat(chunks)) == []
       case Some(Unterminated) => WithinBudget(chunks) && frames == whole && Residual(Concat(chunks)) != []
       case Some(InvalidJson) => InvalidAt(chunks, decode, frames)
       case Some(LineBudget) => OverBudgetAt(chunks, frames)
  }

  // The next frame does not decode, and every read up to the one that completed it was within the budget.
  ghost predicate InvalidAt(chunks: seq<Bytes>, decode: Bytes -> Option<Message>, frames: seq<Bytes>) {
    exists n :: 0 <= n <= |chunks| && BudgetKept(chunks, n)
      && |frames| < |Frames(Concat(chunks[..n]))| && decode(Frames(Concat(chunks[..n]))[|frames|]).None?
  }

  // Exactly the frames before the first read that went over the budget.
  ghost predicate OverBudgetAt(chunks: seq<Bytes>, frames: seq<Bytes>) {
    exists i :: 0 <= i < |chunks| && BudgetKept(chunks, i) && frames == Frames(Concat(chunks[..i]))
      && |Residual(Concat(chunks[..i]))| + |chunks[i]| > MAX_LINE_BYTES
  }

  // _out over a whole stream: the chunks os.read returned, then end of file. However it ends, the queues hold the
  // routed messages of the frames taken so far.
  method Out(chunks: seq<Bytes>, decode: Bytes -> Option<Message>)
    returns (failure: Option<OutFailure>, q: seq<Message>, events: seq<Message>, ghost frames: seq<Bytes>)
    ensures failure.None? <==>
              && WithinBudget(chunks) && AllDecode(Frames(Concat(chunks)), decode) && Residual(Concat(chunks)) == []
    ensures Delivered(chunks, decode, failure, frames)
    ensures q == Routed(frames, decode, true) && events == Routed(frames, decode, false)
  {
    hide *;
    failure, q, events := None, [], [];
    var buf: Bytes := [];
    frames := [];
    NothingHeld(decode);
    assert chunks[..0] == [];
    BudgetStart(chunks);
    for i := 0 to |chunks|
      invariant Held(Split(Concat(chunks[..i]), NEWLINE), frames, buf, decode, q, events) && NEWLINE !in buf
      invariant BudgetKept(chunks, i)
    {
      BudgetStep(chunks, i);
      assert chunks[..i + 1][..i] == chunks[..i];
      ReadChunk(Concat(chunks[..i]), chunks[i], frames, buf, decode, q, events);
      ghost var held := buf;
      buf := buf + chunks[i];
      if |buf| > MAX_LINE_BYTES {
        StoppedByBudget(chunks, i, frames, held, decode, q, events);
        return Some(LineBudget), q, events, frames;
      }
      var ok;
      ok, buf, q, events, frames := Drain(buf, decode, q, events, frames, Split(Concat(chunks[..i + 1]), NEWLINE));
      if !ok {
        StoppedByFrame(chunks, i, frames, buf, decode, q, events);
        return Some(InvalidJson), q, events, frames;
      }
    }
    assert chunks[..|chunks|] == chunks;
    StoppedByEnd(chunks, frames, buf, decode, q, events);
    if buf != [] {
      failure := Some(Unterminated);
    }
  }

  lemma {:induction false} NothingHeld(decode: Bytes -> Option<Message>)
    ensures Held(Split(Concat([]), NEWLINE), [], [], decode, [], [])
  {
    assert Concat([]) == [];
    SplitWhole([], NEWLINE);
  }

  lemma {:induction false} StoppedByBudget(chunks: seq<Bytes>, i: nat, frames: seq<Bytes>, buf: Bytes,
                                           decode: Bytes -> Option<Message>, q: seq<Message>, events: seq<Message>)
    requires i < |chunks| && BudgetKept(chunks, i) && |buf| + |chunks[i]| > MAX_LINE_BYTES
    requires Held(Split(Concat(chunks[..i]), NEWLINE), frames, buf, decode, q, events) && NEWLINE !in buf
    ensures Delivered(chunks, decode, Some(LineBudget), frames) && !WithinBudget(chunks)
    ensures q == Routed(frames, decode, true) && events == Routed(frames, decode, false)
  {
    ReadChunk(Concat(chunks[..i]), [], frames, buf, decode, q, events);
    FramesGrow(chunks, i);
    BudgetStep(chunks, i);
    hide Concat, Residual, Frames, BudgetKept;
    assert OverBudgetAt(chunks, frames);
  }

  lemma {:induction false} StoppedByFrame(chunks: seq<Bytes>, i: nat, frames: seq<Bytes>, buf: Bytes,
                                          decode: Bytes -> Option<Message>, q: seq<Message>, events: seq<Message>)
    requires i < |chunks| && BudgetKept(chunks, i + 1)
    requires Held(Split(Concat(chunks[..i + 1]), NEWLINE), frames, buf, decode, q, events)
    requires var pieces := Split(Concat(chunks[..i + 1]), NEWLINE);
             |frames| < |pieces| - 1 && decode(pieces[|frames|]).None?
    ensures Delivered(chunks, decode, Some(InvalidJson), frames) && !AllDecode(Frames(Concat(chunks)), decode)
    ensures q == Routed(frames, decode, true) && events == Routed(frames, decode, false)
  {
    var sofar := Frames(Concat(chunks[..i + 1]));
    FramesGrow(chunks, i + 1);
    hide Concat, BudgetKept;
    assert sofar[..|frames|] == frames && decode(sofar[|frames|]).None?;
    assert sofar[|frames|] in Frames(Concat(chunks));
    hide Frames;
    assert InvalidAt(chunks, decode, frames);
    assert frames == sofar[..|frames|] <= Frames(Concat(chunks));
  }

  lemma {:induction false} StoppedByEnd(chunks: seq<Bytes>, frames: seq<Bytes>, buf: Bytes,
                                        decode: Bytes -> Option<Message>, q: seq<Message>, events: seq<Message>)
    requires BudgetKept(chunks, |chunks|)
    requires Held(Split(Concat(chunks), NEWLINE), frames, buf, decode, q, events) && NEWLINE !in buf
    ensures Delivered(chunks, decode, if buf == [] then None else Some(Unterminated), frames)
    ensures WithinBudget(chunks) && AllDecode(Frames(Concat(chunks)), decode) && Residual(Concat(chunks)) == buf
    ensures q == Routed(frames, decode, true) && events == Routed(frames, decode, false)
  {
    ReadChunk(Concat(chunks), [], frames, buf, decode, q, events);
    hide Concat, Residual, Frames, BudgetKept;
  }

  lemma {:induction false} FramesGrow(chunks: seq<Bytes>, i: nat)
    requires i <= |chunks|
    ensures Frames(Concat(chunks[..i])) <= Frames(Concat(chunks))
    decreases |chunks|
  {
    if i == |chunks| {
      assert chunks[..i] == chunks;
    } else {
      var n := |chunks| - 1;
      assert chunks[..n][..i] == chunks[..i];
      FramesGrow(chunks[..n], i);
      SplitAppend(Concat(chunks[..n]), chunks[n], NEWLINE);
      var p, r := Split(Concat(chunks[..n]), NEWLINE), Split(Residual(Concat(chunks[..n])) + chunks[n], NEWLINE);
      assert Front(Front(p) + r) == Front(p) + Front(r);
    }
  }

  // A stream of short lines, read in chunks of the read size, never trips the budget, however it is chunked.
  lemma {:induction false} ShortLinesFit(chunks: seq<Bytes>)
    requires forall c :: c in chunks ==> |c| <= READ_SIZE
    requires forall part :: part in Split(Concat(chunks), NEWLINE) ==> |part| <= MAX_LINE_BYTES - READ_SIZE
    ensures WithinBudget(chunks)
  {
    forall i | 0 <= i < |chunks| ensures |Residual(Concat(chunks[..i]))| + |chunks[i]| <= MAX_LINE_BYTES {
      ResidualStarts(chunks, i);
    }
  }

  // What is left unfinished after some chunks is the beginning of one of the stream's lines.
  lemma {:induction false} ResidualStarts(chunks: seq<Bytes>, i: nat)
    requires i <= |chunks|
    ensures exists part :: part in Split(Concat(chunks), NEWLINE) && |Residual(Concat(chunks[..i]))| <= |part|
  {
    hide Concat, Split;
    assert chunks == chunks[..i] + chunks[i..];
    ConcatApart(chunks[..i], chunks[i..]);
    LongerPart(Concat(chunks[..i]), Concat(chunks[i..]), Residual(Concat(chunks[..i])));
  }

  lemma {:induction false} LongerPart(done: Bytes, chunk: Bytes, part: Bytes)
    requires part in Split(done, NEWLINE)
    ensures exists more :: more in Split(done + chunk, NEWLINE) && |part| <= |more|
  {
    var p := Split(done, NEWLINE);
    SplitAppend(done, chunk, NEWLINE);
    var k :| 0 <= k < |p| && p[k] == part;
    if k < |p| - 1 {
      assert Split(done + chunk, NEWLINE)[k] == part;
    } else {
      var last := Split(part + chunk, NEWLINE);
      FirstPart(part, chunk, NEWLINE);
      SplitFree(done, NEWLINE);
      assert Split(done + chunk, NEWLINE)[|p| - 1] == last[0];
    }
  }

  lemma {:induction false} FirstPart<T>(a: seq<T>, b: seq<T>, sep: T)
    ensures sep !in a ==> |Split(a + b, sep)[0]| >= |a|
  {
    if a != [] && sep !in a {
      assert (a + b)[1..] == a[1..] + b;
      FirstPart(a[1..], b, sep);
    }
  }

  // ----- which streams trip the budget -----

  // What os.read can return for a stream: between one byte and the read size at a time.
  ghost predicate Reads(chunks: seq<Bytes>, stream: Bytes) {
    Concat(chunks) == stream && forall c :: c in chunks ==> 1 <= |c| <= READ_SIZE
  }

  function LargestRead(left: nat): nat {
    if left < READ_SIZE then left else READ_SIZE
  }

  // Wherever a read starts, even the largest one fits behind the unfinished line.
  ghost predicate RoomEverywhere(stream: Bytes) {
    forall p :: 0 <= p < |stream| ==> |Residual(stream[..p])| + LargestRead(|stream| - p) <= MAX_LINE_BYTES
  }

  lemma {:induction false} ConcatApart(a: seq<Bytes>, b: seq<Bytes>)
    ensures Concat(a + b) == Concat(a) + Concat(b)
  {
    if b == [] {
      assert a + b == a;
    } else {
      var n := |b| - 1;
      assert (a + b)[..|a| + n] == a + b[..n];
      ConcatApart(a, b[..n]);
      assert Concat(a + b) == Concat(a + b[..n]) + b[n];
    }
  }

  function Singles(bytes: Bytes): (chunks: seq<Bytes>)
    ensures |chunks| == |bytes| && forall i :: 0 <= i < |chunks| ==> chunks[i] == [bytes[i]]
  {
    seq(|bytes|, i requires 0 <= i < |bytes| => [bytes[i]])
  }

  lemma {:induction false} SinglesConcat(bytes: Bytes)
    ensures Concat(Singles(bytes)) == bytes
  {
    if bytes != [] {
      var n := |bytes| - 1;
      SinglesConcat(bytes[..n]);
      assert Singles(bytes)[..n] == Singles(bytes[..n]);
    }
  }

  // Byte by byte up to p, one read of r bytes there, and byte by byte again.
  function ReadAt(stream: Bytes, p: nat, r: nat): seq<Bytes>
    requires p + r <= |stream|
  {
    Singles(stream[..p]) + ([stream[p..p + r]] + Singles(stream[p + r..]))
  }

  lemma {:induction false} ReadAtReads(stream: Bytes, p: nat, r: nat)
    requires p + r <= |stream| && 1 <= r <= READ_SIZE
    ensures Reads(ReadAt(stream, p, r), stream)
  {
    hide Concat;
    var a, c, b := Singles(stream[..p]), stream[p..p + r], Singles(stream[p + r..]);
    var chunks := ReadAt(stream, p, r);
    OneChunk(c);
    SinglesConcat(stream[..p]);
    SinglesConcat(stream[p + r..]);
    ConcatApart([c], b);
    ConcatApart(a, [c] + b);
    assert stream[..p] + (c + stream[p + r..]) == stream;
    forall x | x in chunks ensures 1 <= |x| <= READ_SIZE {
      var i :| 0 <= i < |chunks| && chunks[i] == x;
      assert i < p ==> x == a[i];
      assert i > p ==> x == b[i - p - 1];
    }
  }

  lemma {:induction false} OneChunk(c: Bytes)
    ensures Concat([c]) == c
  {
    assert [c][..0] == [];
  }

  lemma {:induction false} ReadAtTrips(stream: Bytes, p: nat, r: nat)
    requires p + r <= |stream| && WithinBudget(ReadAt(stream, p, r))
    ensures |Residual(stream[..p])| + r <= MAX_LINE_BYTES
  {
    hide Concat, Residual, WithinBudget;
    var chunks := ReadAt(stream, p, r);
    SinglesConcat(stream[..p]);
    assert chunks[..p] == Singles(stream[..p]) && chunks[p] == stream[p..p + r];
    BudgetAt(chunks, p);
  }

  // The i-th read starts where the reads before it ended.
  lemma {:induction false} ReadStarts(chunks: seq<Bytes>, stream: Bytes, i: nat)
    requires Reads(chunks, stream) && i < |chunks|
    ensures var p := |Concat(chunks[..i])|;
            && p < |stream| && Concat(chunks[..i]) == stream[..p] && 1 <= |chunks[i]| <= LargestRead(|stream| - p)
  {
    hide Concat;
    assert chunks == chunks[..i] + ([chunks[i]] + chunks[i + 1..]);
    ConcatApart(chunks[..i], [chunks[i]] + chunks[i + 1..]);
    ConcatApart([chunks[i]], chunks[i + 1..]);
    OneChunk(chunks[i]);
    assert chunks[i] in chunks;
    var head, tail := Concat(chunks[..i]), chunks[i] + Concat(chunks[i + 1..]);
    assert stream == head + tail && stream[..|head|] == head;
  }

  // However a stream is chunked it stays within the budget, exactly when there is room everywhere.
  lemma {:induction false} NeverTripsExact(stream: Bytes)
    ensures (forall chunks :: Reads(chunks, stream) ==> WithinBudget(chunks)) <==> RoomEverywhere(stream)
  {
    hide Concat, Residual, Reads;
    if RoomEverywhere(stream) {
      forall chunks | Reads(chunks, stream) ensures WithinBudget(chunks) {
        forall i | 0 <= i < |chunks| ensures |Residual(Concat(chunks[..i]))| + |chunks[i]| <= MAX_LINE_BYTES {
          ReadStarts(chunks, stream, i);
        }
      }
    }
    if forall chunks :: Reads(chunks, stream) ==> WithinBudget(chunks) {
      forall p | 0 <= p < |stream| ensures |Residual(stream[..p])| + LargestRead(|stream| - p) <= MAX_LINE_BYTES {
        ReadAtReads(stream, p, LargestRead(|stream| - p));
        ReadAtTrips(stream, p, LargestRead(|stream| - p));
      }
    }
  }

  // Some chunking stays within the budget, exactly when no unfinished line fills the budget before the stream's end.
  lemma {:induction false} CanFitExact(stream: Bytes)
    ensures (exists chunks :: Reads(chunks, stream) && WithinBudget(chunks))
       <==> forall p :: 0 <= p < |stream| ==> |Residual(stream[..p])| < MAX_LINE_BYTES
  {
    hide Concat, Residual;
    if forall p :: 0 <= p < |stream| ==> |Residual(stream[..p])| < MAX_LINE_BYTES {
      var chunks := Singles(stream);
      SinglesConcat(stream);
      assert Reads(chunks, stream);
      forall i | 0 <= i < |chunks| ensures |Residual(Concat(chunks[..i]))| + |chunks[i]| <= MAX_LINE_BYTES {
        assert chunks[..i] == Singles(stream[..i]);
        SinglesConcat(stream[..i]);
      }
    }
    if chunks :| Reads(chunks, stream) && WithinBudget(chunks) {
      forall p | 0 <= p < |stream| ensures |Residual(stream[..p])| < MAX_LINE_BYTES {
        ReachedResidual(chunks, stream, p);
      }
    }
  }

  // Inside a read the unfinished line is shorter than the buffer the read fills.
  lemma {:induction false} ReachedResidual(chunks: seq<Bytes>, stream: Bytes, p: nat)
    requires Reads(chunks, stream) && WithinBudget(chunks) && p < |stream|
    ensures |Residual(stream[..p])| < MAX_LINE_BYTES
  {
    hide Concat, Residual, WithinBudget;
    var i := ReadOver(chunks, stream, p);
    ReadStarts(chunks, stream, i);
    var q := |Concat(chunks[..i])|;
    assert |Residual(Concat(chunks[..i]))| + |chunks[i]| <= MAX_LINE_BYTES by { BudgetAt(chunks, i); }
    ResidualGrows(stream[..q], stream[q..p]);
    assert stream[..p] == stream[..q] + stream[q..p];
  }

  lemma {:induction false} BudgetAt(chunks: seq<Bytes>, i: nat)
    requires WithinBudget(chunks) && i < |chunks|
    ensures |Residual(Concat(chunks[..i]))| + |chunks[i]| <= MAX_LINE_BYTES
  {
    hide Concat, Residual;
  }

  lemma {:induction false} ResidualGrows(done: Bytes, more: Bytes)
    ensures |Residual(done + more)| <= |Residual(done)| + |more|
  {
    SplitAppend(done, more, NEWLINE);
    var tail := Split(Residual(done) + more, NEWLINE);
    JoinSplit(Residual(done) + more, NEWLINE);
    LinesOf(tail);
    hide Split, Lines;
  }

  // The read that brings the p-th byte.
  lemma {:induction false} ReadOver(chunks: seq<Bytes>, stream: Bytes, p: nat) returns (i: nat)
    requires Reads(chunks, stream) && p < |stream|
    ensures i < |chunks| && |Concat(chunks[..i])| <= p < |Concat(chunks[..i])| + |chunks[i]|
    decreases |chunks|
  {
    var n := |chunks| - 1;
    var front := chunks[..n];
    if p >= |Concat(front)| {
      i := n;
    } else {
      assert Concat(front) == stream[..|Concat(front)|];
      i := ReadOver(front, Concat(front), p);
      assert front[..i] == chunks[..i];
    }
  }

  // A stream whose verdict depends on how it arrives: a line one byte short of the budget, its newline, one more byte.
  const LONG_LINE: Bytes := seq(MAX_LINE_BYTES - 1, i => 97)

  lemma {:induction false} BudgetSeesChunking() returns (stream: Bytes, fits: seq<Bytes>, trips: seq<Bytes>)
    ensures stream == LONG_LINE + [NEWLINE, 97]
    ensures Reads(fits, stream) && WithinBudget(fits)
    ensures Reads(trips, stream) && !WithinBudget(trips)
  {
    stream := LONG_LINE + [NEWLINE, 97];
    hide Reads, WithinBudget, Residual, Split;
    var n := MAX_LINE_BYTES - 1;
    LongLinePrefix(n);
    assert stream[..n] == LONG_LINE[..n];
    ReadAtReads(stream, n, 2);
    if WithinBudget(ReadAt(stream, n, 2)) { ReadAtTrips(stream, n, 2); }
    trips := ReadAt(stream, n, 2);
    forall p | 0 <= p < |stream| ensures |Residual(stream[..p])| < MAX_LINE_BYTES {
      if p <= n {
        LongLinePrefix(p);
        assert stream[..p] == LONG_LINE[..p];
      } else {
        ResidualOfLine(LONG_LINE);
        assert stream[..p] == LONG_LINE + [NEWLINE];
      }
    }
    CanFitExact(stream);
    fits :| Reads(fits, stream) && WithinBudget(fits);
  }

  lemma {:induction false} LongLinePrefix(p: nat)
    requires p < MAX_LINE_BYTES
    ensures Residual(LONG_LINE[..p]) == LONG_LINE[..p] && |Residual(LONG_LINE[..p])| == p
  {
    assert NEWLINE !in LONG_LINE[..p];
    SplitWhole(LONG_LINE[..p], NEWLINE);
  }

  lemma {:induction false} ResidualOfLine(line: Bytes)
    requires NEWLINE !in line
    ensures Residual(line + [NEWLINE]) == []
  {
    SplitSkip(line, [], NEWLINE);
    assert line + [NEWLINE] + [] == line + [NEWLINE];
  }

  // Responses and events split the decoded messages between them, each in arrival order.
  function Decoded(frames: seq<Bytes>, decode: Bytes -> Option<Message>): seq<Message> {
    if frames == [] then []
    else
      var m := decode(frames[|frames| - 1]);
      Decoded(frames[..|frames| - 1], decode) + if m.Some? then [m.value] else []
  }

  // A walk over `whole` that sends each element to one of two queues, in order.
  ghost predicate Interleaves(whole: seq<Message>, a: seq<Message>, b: seq<Message>)
    decreases |whole|
  {
    if whole == [] then a == [] && b == []
    else
      var front, last := whole[..|whole| - 1], whole[|whole| - 1];
      || (a != [] && a[|a| - 1] == last && IsResponse(last) && Interleaves(front, a[..|a| - 1], b))
      || (b != [] && b[|b| - 1] == last && !IsResponse(last) && Interleaves(front, a, b[..|b| - 1]))
  }

  lemma {:induction false} InterleavesOneMore(whole: seq<Message>, a: seq<Message>, b: seq<Message>, m: Message)
    requires Interleaves(whole, a, b)
    ensures if IsResponse(m) then Interleaves(whole + [m], a + [m], b) else Interleaves(whole + [m], a, b + [m])
  {
    assert (whole + [m])[..|whole|] == whole && (a + [m])[..|a|] == a && (b + [m])[..|b|] == b;
  }

  lemma {:induction false} RoutingComplementary(frames: seq<Bytes>, decode: Bytes -> Option<Message>)
    ensures Interleaves(Decoded(frames, decode), Routed(frames, decode, true), Routed(frames, decode, false))
    decreases |frames|
  {
    if frames != [] {
      hide Interleaves, IsResponse;
      var front := frames[..|frames| - 1];
      var m := decode(frames[|frames| - 1]);
      var whole, q, e := Decoded(front, decode), Routed(front, decode, true), Routed(front, decode, false);
      RoutingComplementary(front, decode);
      assert whole + [] == whole && q + [] == q && e + [] == e;
      if m.Some? {
        InterleavesOneMore(whole, q, e, m.value);
      }
    }
  }

  // ----- rpc -----

  datatype RpcFailure = RemoteError | Timeout

  // The requesting side of the transport: the response queue and the request counter.
  class Requester {
    var q: seq<Message>
    var n: int

    constructor ()
      ensures q == [] && n == 0
    {
      q, n := [], 0;
    }

    // rpc after the request is sent. Each round of the wait first lets some responses arrive, then takes one message
    // if there is one; parked messages go back behind whatever is still queued, on every way out.
    method Await(arrivals: seq<seq<Message>>) returns (r: Result<Message, RpcFailure>)
      modifies this
      ensures n == old(n) + 1
      ensures exists used, parked, rest :: q == rest + parked && Awaited(old(q), arrivals, used, parked, rest, n, r)
    {
      hide *;
      n := n + 1;
      ghost var q0 := q;
      var park: seq<Message> := [];
      StartWaiting(q0, arrivals, n);
      for i := 0 to |arrivals|
        invariant n == old(n) + 1 && InWait(q0, arrivals, i, park, q, n)
      {
        ghost var before := q;
        q := q + arrivals[i];
        if q != [] {
          var m := q[0];
          q := q[1..];
          if m.id == Some(n) {
            r := if m.hasError then Err(RemoteError) else Ok(m);
            Answered(q0, arrivals, i, park, before, m, q, n, r);
            q := q + park;
            return;
          }
          Parked(q0, arrivals, i, park, before, m, q, n);
          park := park + [m];
        } else {
          NothingArrived(q0, arrivals, i, park, before, n);
        }
      }
      r := Err(Timeout);
      TimedOut(q0, arrivals, park, q, n);
      q := q + park;
    }
  }

  // After k rounds: nothing is lost, one message a round is parked, and none of those answers the request.
  ghost predicate InWait(q0: seq<Message>, arrivals: seq<seq<Message>>, k: nat, park: seq<Message>, q: seq<Message>,
                         id: int) {
    && k <= |arrivals| && q0 + Flat(arrivals[..k]) == park + q && |park| == Taken(|q0|, arrivals, k)
    && forall m :: m in park ==> m.id != Some(id)
  }

  // What a wait of `used` rounds comes to: all of them for a timeout.
  ghost predicate Awaited(q0: seq<Message>, arrivals: seq<seq<Message>>, used: nat, parked: seq<Message>,
                          rest: seq<Message>, id: int, r: Result<Message, RpcFailure>) {
    && used <= |arrivals| && Answer(q0 + Flat(arrivals[..used]), parked, rest, id, r)
    && |parked| + (if r == Err(Timeout) then 0 else 1) == Taken(|q0|, arrivals, used)
    && (r == Err(Timeout) ==> used == |arrivals|)
  }

  lemma {:induction false} StartWaiting(q0: seq<Message>, arrivals: seq<seq<Message>>, id: int)
    ensures InWait(q0, arrivals, 0, [], q0, id)
  {
    assert arrivals[..0] == [] && q0 + Flat([]) == [] + q0;
  }

  lemma {:induction false} MoreArrived(q0: seq<Message>, arrivals: seq<seq<Message>>, k: nat, park: seq<Message>,
                                       q: seq<Message>, id: int)
    requires InWait(q0, arrivals, k, park, q, id) && k < |arrivals|
    ensures q0 + Flat(arrivals[..k + 1]) == park + (q + arrivals[k])
    ensures Taken(|q0|, arrivals, k + 1) == |park| + if q + arrivals[k] == [] then 0 else 1
  {
    assert arrivals[..k + 1][..k] == arrivals[..k];
    assert q0 + Flat(arrivals[..k + 1]) == (q0 + Flat(arrivals[..k])) + arrivals[k];
  }

  lemma {:induction false} NothingArrived(q0: seq<Message>, arrivals: seq<seq<Message>>, k: nat, park: seq<Message>,
                                          q: seq<Message>, id: int)
    requires InWait(q0, arrivals, k, park, q, id) && k < |arrivals| && q + arrivals[k] == []
    ensures InWait(q0, arrivals, k + 1, park, q + arrivals[k], id)
  {
    MoreArrived(q0, arrivals, k, park, q, id);
    hide Flat, Taken;
  }

  lemma {:induction false} Parked(q0: seq<Message>, arrivals: seq<seq<Message>>, k: nat, park: seq<Message>,
                                  q: seq<Message>, m: Message, rest: seq<Message>, id: int)
    requires InWait(q0, arrivals, k, park, q, id) && k < |arrivals| && m.id != Some(id)
    requires q + arrivals[k] != [] && m == (q + arrivals[k])[0] && rest == (q + arrivals[k])[1..]
    ensures InWait(q0, arrivals, k + 1, park + [m], rest, id)
  {
    MoreArrived(q0, arrivals, k, park, q, id);
    hide Flat, Taken;
    assert park + (q + arrivals[k]) == (park + [m]) + rest;
  }

  lemma {:induction false} Answered(q0: seq<Message>, arrivals: seq<seq<Message>>, k: nat, park: seq<Message>,
                                    q: seq<Message>, m: Message, rest: seq<Message>, id: int,
                                    r: Result<Message, RpcFailure>)
    requires InWait(q0, arrivals, k, park, q, id) && k < |arrivals| && m.id == Some(id)
    requires q + arrivals[k] != [] && m == (q + arrivals[k])[0] && rest == (q + arrivals[k])[1..]
    requires r == if m.hasError then Err(RemoteError) else Ok(m)
    ensures Awaited(q0, arrivals, k + 1, park, rest, id, r)
  {
    MoreArrived(q0, arrivals, k, park, q, id);
    hide Flat, Taken;
    assert park + (q + arrivals[k]) == park + [m] + rest;
  }

  lemma {:induction false} TimedOut(q0: seq<Message>, arrivals: seq<seq<Message>>, park: seq<Message>, q: seq<Message>,
                                    id: int)
    requires InWait(q0, arrivals, |arrivals|, park, q, id)
    ensures Awaited(q0, arrivals, |arrivals|, park, q, id, Err(Timeout))
  {
    hide Flat, Taken;
  }

  // How many messages k rounds take: one each, whenever one is there.
  function Taken(queued: nat, arrivals: seq<seq<Message>>, k: nat): (taken: nat)
    requires k <= |arrivals|
    ensures taken <= queued + |Flat(arrivals[..k])| && taken <= k
  {
    if k == 0 then 0
    else
      assert arrivals[..k][..k - 1] == arrivals[..k - 1];
      var before := Taken(queued, arrivals, k - 1);
      if queued + |Flat(arrivals[..k])| > before then before + 1 else before
  }

  lemma {:induction false} TakenQueued(queued: nat, arrivals: seq<seq<Message>>, k: nat)
    requires k <= |arrivals|
    ensures Taken(queued, arrivals, k) >= if k <= queued then k else queued
  {
    if k > 0 { TakenQueued(queued, arrivals, k - 1); }
  }

  // A request whose answer already waits in the queue does not time out, if it is given as many rounds as there are
  // messages up to that answer.
  lemma {:induction false} WaitingAnswerFound(queue: seq<Message>, arrivals: seq<seq<Message>>, used: nat,
                                              parked: seq<Message>, rest: seq<Message>, id: int,
                                              r: Result<Message, RpcFailure>, p: nat)
    requires p < |queue| && queue[p].id == Some(id) && p < |arrivals|
    requires Awaited(queue, arrivals, used, parked, rest, id, r)
    ensures r != Err(Timeout) && |parked| <= p
  {
    if r == Err(Timeout) { TakenQueued(|queue|, arrivals, used); }
    hide Taken, Flat;
    ParkedShort(queue, Flat(arrivals[..used]), parked, rest, id, r, p);
  }

  // What is parked comes before the first message with the id.
  lemma {:induction false} ParkedShort(queue: seq<Message>, more: seq<Message>, parked: seq<Message>,
                                       rest: seq<Message>, id: int, r: Result<Message, RpcFailure>, p: nat)
    requires p < |queue| && queue[p].id == Some(id) && Answer(queue + more, parked, rest, id, r)
    ensures |parked| <= p
  {
    assert parked <= queue + more && (queue + more)[p] == queue[p];
    assert forall i :: 0 <= i < |parked| ==> parked[i].id != Some(id) && parked[i] == (queue + more)[i];
  }

  function Flat(parts: seq<seq<Message>>): seq<Message> {
    if parts == [] then [] else Flat(parts[..|parts| - 1]) + parts[|parts| - 1]
  }

  // The first message with the request's id is taken out; every other one stays, parked ones after the unread rest.
  ghost predicate Answer(available: seq<Message>, parked: seq<Message>, rest: seq<Message>, id: int,
                         r: Result<Message, RpcFailure>) {
    && (forall m :: m in parked ==> m.id != Some(id))
    && match r
       case Ok(m) => m.id == Some(id) && !m.hasError && available == parked + [m] + rest
       case Err(RemoteError) => exists m: Message :: m.id == Some(id) && m.hasError && available == parked + [m] + rest
       case Err(Timeout) => available == parked + rest
  }

  // Nothing but the answer is ever lost, so a later request can still find its own.
  lemma {:induction false} NothingLost(available: seq<Message>, parked: seq<Message>, rest: seq<Message>, id: int,
                                       r: Result<Message, RpcFailure>)
    requires Answer(available, parked, rest, id, r)
    ensures forall m: Message :: m.id != Some(id) ==> multiset(rest + parked)[m] == multiset(available)[m]
    ensures |rest + parked| == |available| - if r == Err(Timeout) then 0 else 1
  {
    var taken := TakenOut(available, parked, rest, id, r);
    hide *;
    Reordered(parked, taken, rest);
    forall m: Message | m.id != Some(id) ensures multiset(rest + parked)[m] == multiset(available)[m] {
      assert m !in multiset(taken);
    }
  }

  lemma {:induction false} TakenOut(available: seq<Message>, parked: seq<Message>, rest: seq<Message>, id: int,
                                    r: Result<Message, RpcFailure>) returns (taken: seq<Message>)
    requires Answer(available, parked, rest, id, r)
    ensures available == parked + taken + rest && |taken| == if r == Err(Timeout) then 0 else 1
    ensures forall m :: m in taken ==> m.id == Some(id)
  {
    if r == Err(Timeout) {
      taken := [];
      assert parked + [] + rest == parked + rest;
    } else {
      var m: Message :| m.id == Some(id) && available == parked + [m] + rest;
      taken := [m];
    }
  }

  lemma {:induction false} Reordered(a: seq<Message>, m: seq<Message>, b: seq<Message>)
    ensures multiset(a + m + b) == multiset(b + a) + multiset(m) && |a + m + b| == |b + a| + |m|
  {
  }

  // ----- routing, message by message -----

  // A message with an id and a result or an error goes to the response queue, every other one to the events.
  lemma {:induction false} RoutedPush(frames: seq<Bytes>, frame: Bytes, decode: Bytes -> Option<Message>, m: Message)
    requires decode(frame) == Some(m)
    ensures m.id != None && (m.hasResult || m.hasError) ==>
              Routed(frames + [frame], decode, true) == Routed(frames, decode, true) + [m]
              && Routed(frames + [frame], decode, false) == Routed(frames, decode, false)
    ensures m.id == None || (!m.hasResult && !m.hasError) ==>
              Routed(frames + [frame], decode, true) == Routed(frames, decode, true)
              && Routed(frames + [frame], decode, false) == Routed(frames, decode, false) + [m]
  {
    assert (frames + [frame])[..|frames|] == frames;
  }

  // The budget is four mebibytes for what is left of the stream so far and the next chunk.
  lemma {:induction false} BudgetExact(chunks: seq<Bytes>)
    ensures WithinBudget(chunks)
       <==> forall i :: 0 <= i < |chunks| ==> |Residual(Concat(chunks[..i]))| + |chunks[i]| <= 4194304
    ensures Concat([]) == [] && forall c :: Concat(chunks + [c]) == Concat(chunks) + c
  {
    forall c ensures Concat(chunks + [c]) == Concat(chunks) + c { assert (chunks + [c])[..|chunks|] == chunks; }
    hide Residual, Concat;
  }
}
