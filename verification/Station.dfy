/**
 The station's loop in src/relay/main.cpp: read, decode, handle, until the peer
 closes, a read fails, the session ends or the stream violates the framing.
 */
module Station {
  import opened Text
  import opened JsonPrinter
  import opened Frames
  import opened Session
  import opened SessionRuns

  /** How the reads end: with zero bytes, or with an error. */
  datatype Ending = Closed | Failed

  /** The frames written, encoded, and the exit code. */
  datatype Outcome = Outcome(written: seq<Bytes>, exitCode: int)

  /** The session's part: frames in order until it is over, then none. */
  datatype Served<B> = Served(state: State, engine: B, written: seq<Bytes>)

  function Feed<B>(backend: Backend<B>, s: Served<B>, frames: seq<Frame>, f: Formatter): Served<B>
    decreases |frames|
  {
    if frames == [] || s.state.finished then s else
      var r := React(backend, s.state, s.engine, frames[0], f);
      Feed(backend,
           Served(r.state, r.engine, s.written + if r.reply.Some? then [Encode(r.reply.value)] else []),
           frames[1..], f)
  }

  /** What the station does with an input, as a whole. */
  function Serve<B>(backend: Backend<B>, b: B, input: Bytes, ending: Ending, f: Formatter): Outcome {
    var all := Drain(input);
    var s := Feed(backend, Served(FRESH, b, []), all.frames, f);
    Outcome(s.written, if !s.state.finished && (all.error.Some? || ending.Failed?) then 1 else 0)
  }

  lemma {:induction false} FeedAppend<B>(backend: Backend<B>, s: Served<B>, a: seq<Frame>, c: seq<Frame>, f: Formatter)
    ensures Feed(backend, s, a + c, f) == Feed(backend, Feed(backend, s, a, f), c, f)
    decreases |a|
  {
    hide React;
    if a == [] {
      assert a + c == c;
    } else if !s.state.finished {
      assert (a + c)[1..] == a[1..] + c;
      var r := React(backend, s.state, s.engine, a[0], f);
      var next := Served(r.state, r.engine, s.written + if r.reply.Some? then [Encode(r.reply.value)] else []);
      FeedAppend(backend, next, a[1..], c, f);
    }
  }

  /** Where a session object stands. */
  ghost function Standing<B>(session: Session<B>): Served<B>
    reads session
  {
    Served(session.Now(), session.engine, session.written)
  }

  /** The inner loop: decode and handle until there is no frame, or the session is over. */
  method HandleAll<B>(decoder: FrameDecoder, session: Session<B>) returns (running: bool)
    requires decoder as object != session && decoder.error.None? && !session.finished
    modifies decoder, session
    ensures var all := Drain(old(decoder.buffer));
            && Standing(session) == Feed(session.backend, old(Standing(session)), all.frames, session.fractional)
            && running == !session.finished
            && (running ==> decoder.buffer == all.rest && decoder.error == all.error)
  {
    var frame := decoder.Next();
    while frame.Some?
      invariant !session.finished
      invariant frame.Some? ==>
        && decoder.error.None?
        && Feed(session.backend, Standing(session), [frame.value] + Drain(decoder.buffer).frames, session.fractional)
           == Feed(session.backend, old(Standing(session)), Drain(old(decoder.buffer)).frames, session.fractional)
        && Drain(decoder.buffer).rest == Drain(old(decoder.buffer)).rest
        && Drain(decoder.buffer).error == Drain(old(decoder.buffer)).error
      invariant frame.None? ==>
        && Standing(session)
           == Feed(session.backend, old(Standing(session)), Drain(old(decoder.buffer)).frames, session.fractional)
        && decoder.buffer == Drain(old(decoder.buffer)).rest
        && decoder.error == Drain(old(decoder.buffer)).error
      decreases if frame.Some? then 1 + |decoder.buffer| else 0
    {
      hide React, Encode;
      ghost var more := Drain(decoder.buffer).frames;
      ghost var before := Standing(session);
      OneReplyPerFrame(session.backend, session.Now(), session.engine, frame.value, session.fractional);
      var goOn := session.Handle(frame.value);
      assert ([frame.value] + more)[1..] == more;
      assert Standing(session).written == before.written
        + var r := React(session.backend, before.state, before.engine, frame.value, session.fractional);
          if r.reply.Some? then [Encode(r.reply.value)] else [];
      assert Feed(session.backend, before, [frame.value] + more, session.fractional)
          == Feed(session.backend, Standing(session), more, session.fractional);
      if !goOn {
        return false;
      }
      frame := decoder.Next();
    }
    return true;
  }

  /**
   The whole loop, over any reads the transport makes of the input.  The outcome
   is a function of the concatenated input, so how it was cut cannot matter.
   */
  method Run<B>(backend: Backend<B>, b: B, chunks: seq<Bytes>, ending: Ending, f: Formatter)
    returns (outcome: Outcome)
    requires forall i | 0 <= i < |chunks| :: chunks[i] != []
    ensures outcome == Serve(backend, b, Concat(chunks), ending, f)
  {
    var session := new Session(backend, b, f);
    var decoder := new FrameDecoder();
    assert chunks[..0] == [];
    assert Reached(backend, b, [], Standing(session), decoder.buffer, f);
    hide Drain, Feed, Concat, Serve, Reached;
    var i := 0;
    while i < |chunks|
      invariant 0 <= i <= |chunks|
      invariant fresh(session) && fresh(decoder)
      invariant session.backend == backend && session.fractional == f
      invariant !session.finished && decoder.error.None?
      invariant Reached(backend, b, chunks[..i], Standing(session), decoder.buffer, f)
    {
      ReadStep(backend, b, chunks, i, Standing(session), decoder.buffer, ending, f);
      decoder.Feed(chunks[i]);
      var running := HandleAll(decoder, session);
      if !running {
        return Outcome(session.written, 0);
      }
      if decoder.error.Some? {
        return Outcome(session.written, 1);
      }
      i := i + 1;
    }
    assert chunks[..|chunks|] == chunks;
    ReadsOver(backend, b, chunks, Standing(session), decoder.buffer, ending, f);
    return Outcome(session.written, if ending.Failed? then 1 else 0);
  }

  /** Between two reads: no violation so far, the frames decoded handled, the rest in the buffer. */
  ghost predicate Reached<B>(backend: Backend<B>, b: B, chunks: seq<Bytes>, s: Served<B>, rest: Bytes, f: Formatter) {
    var all := Drain(Concat(chunks));
    all.error.None? && rest == all.rest && s == Feed(backend, Served(FRESH, b, []), all.frames, f)
  }

  /** What one read does: it ends the station, in one of two ways, or leads to the next. */
  lemma ReadStep<B>(backend: Backend<B>, b: B, chunks: seq<Bytes>, i: nat, s: Served<B>, rest: Bytes, ending: Ending, f: Formatter)
    requires i < |chunks| && Reached(backend, b, chunks[..i], s, rest, f)
    ensures var piece := Drain(rest + chunks[i]);
            var next := Feed(backend, s, piece.frames, f);
            if next.state.finished then Serve(backend, b, Concat(chunks), ending, f) == Outcome(next.written, 0)
            else if piece.error.Some? then Serve(backend, b, Concat(chunks), ending, f) == Outcome(next.written, 1)
            else Reached(backend, b, chunks[..i + 1], next, piece.rest, f)
  {
    hide Drain, Feed, Concat;
    var start := Served(FRESH, b, []);
    ChunkStep(backend, start, chunks, i, f);
    if Feed(backend, start, Drain(Concat(chunks[..i + 1])).frames, f).state.finished {
      StopsForGood(backend, start, chunks, i, f);
    } else if Drain(Concat(chunks[..i + 1])).error.Some? {
      FailsForGood(chunks, i);
    }
  }

  lemma ReadsOver<B>(backend: Backend<B>, b: B, chunks: seq<Bytes>, s: Served<B>, rest: Bytes, ending: Ending, f: Formatter)
    requires Reached(backend, b, chunks, s, rest, f) && !s.state.finished
    ensures Serve(backend, b, Concat(chunks), ending, f) == Outcome(s.written, if ending.Failed? then 1 else 0)
  {
  }

  /** What one more chunk adds to what has been decoded and handled so far. */
  lemma ChunkStep<B>(backend: Backend<B>, start: Served<B>, chunks: seq<Bytes>, i: nat, f: Formatter)
    requires i < |chunks| && Drain(Concat(chunks[..i])).error.None?
    ensures var sofar, next := Drain(Concat(chunks[..i])), Drain(Concat(chunks[..i + 1]));
            var piece := Drain(sofar.rest + chunks[i]);
            && next.error == piece.error && (piece.error.None? ==> next.rest == piece.rest)
            && Feed(backend, start, next.frames, f) == Feed(backend, Feed(backend, start, sofar.frames, f), piece.frames, f)
  {
    ConcatNext(chunks, i);
    DrainAppend(Concat(chunks[..i]), chunks[i]);
    var sofar := Drain(Concat(chunks[..i]));
    FeedAppend(backend, start, sofar.frames, Drain(sofar.rest + chunks[i]).frames, f);
  }

  /** A session that ended stays ended, whatever else the input holds. */
  lemma StopsForGood<B>(backend: Backend<B>, start: Served<B>, chunks: seq<Bytes>, i: nat, f: Formatter)
    requires i < |chunks|
    requires Feed(backend, start, Drain(Concat(chunks[..i + 1])).frames, f).state.finished
    ensures Feed(backend, start, Drain(Concat(chunks)).frames, f)
         == Feed(backend, start, Drain(Concat(chunks[..i + 1])).frames, f)
  {
    var head, tail := Concat(chunks[..i + 1]), Concat(chunks[i + 1..]);
    ConcatCut(chunks, i + 1);
    DrainAppend(head, tail);
    if Drain(head).error.None? {
      FeedAppend(backend, start, Drain(head).frames, Drain(Drain(head).rest + tail).frames, f);
    }
  }

  lemma FailsForGood(chunks: seq<Bytes>, i: nat)
    requires i < |chunks| && Drain(Concat(chunks[..i + 1])).error.Some?
    ensures Drain(Concat(chunks)).frames == Drain(Concat(chunks[..i + 1])).frames
    ensures Drain(Concat(chunks)).error == Drain(Concat(chunks[..i + 1])).error
  {
    ConcatCut(chunks, i + 1);
    DrainAppend(Concat(chunks[..i + 1]), Concat(chunks[i + 1..]));
  }

  /** The exit code is 1 exactly for a violation or failed read that the session did not end before, else 0. */
  lemma ExitCodes<B>(backend: Backend<B>, b: B, input: Bytes, ending: Ending, f: Formatter)
    ensures var frames := Drain(input).frames;
            Serve(backend, b, input, ending, f).exitCode == 1
            <==> !After(backend, b, frames, f).0.finished && (Drain(input).error.Some? || ending.Failed?)
    ensures Serve(backend, b, input, ending, f).exitCode in {0, 1}
    ensures Serve(backend, b, input, ending, f).written
         == EncodeEach(Replies(backend, b, Drain(input).frames, f))
  {
    var frames := Drain(input).frames;
    assert [] + frames == frames;
    FeedIsRun(backend, b, [], frames, f);
  }

  /** Bytes that hold a whole frame of an undefined type. */
  predicate UnknownType(bad: Bytes) {
    |bad| >= 5 &&
    var n := bad[0] as int + 256 * bad[1] as int + 65536 * bad[2] as int + 16777216 * bad[3] as int;
    1 <= n <= 1024 * 1024 && |bad| >= 4 + n && bad[4] !in TYPE_BYTES
  }

  /**
   Frames and then one of an undefined type, whatever follows and however the
   reads end: exit code 1 if the frames have left the session open, 0 if not, and
   in both cases just the replies to the frames.
   */
  lemma UnknownTypeEndsIt<B>(backend: Backend<B>, b: B, frames: seq<Frame>, bad: Bytes, ending: Ending, f: Formatter)
    requires (forall i | 0 <= i < |frames| :: WithinBudget(frames[i])) && UnknownType(bad)
    ensures Serve(backend, b, EncodeAll(frames) + bad, ending, f)
         == Outcome(EncodeEach(Replies(backend, b, frames, f)),
                    if After(backend, b, frames, f).0.finished then 0 else 1)
  {
    hide Drain, EncodeAll, WithinBudget, NextFrame, Replies, After, EncodeEach;
    NextFrameExactly(bad);
    DecodeEncoded(frames, bad);
    DrainViolates(bad);
    assert frames + [] == frames;
    ExitCodes(backend, b, EncodeAll(frames) + bad, ending, f);
  }

  lemma DrainViolates(bad: Bytes)
    ensures NextFrame(bad).Violation? ==> Drain(bad) == Decoded([], bad, Some(NextFrame(bad).error))
  {
    hide NextFrame;
  }

  function EncodeEach(frames: seq<Frame>): seq<Bytes> {
    if frames == [] then [] else EncodeEach(frames[..|frames| - 1]) + [Encode(frames[|frames| - 1])]
  }

  /** Feeding frames until the session is over is handling all of them. */
  lemma {:induction false} FeedIsRun<B>(backend: Backend<B>, b: B, done: seq<Frame>, frames: seq<Frame>, f: Formatter)
    ensures var (st, b') := After(backend, b, done, f);
            var (end, e) := After(backend, b, done + frames, f);
            Feed(backend, Served(st, b', EncodeEach(Replies(backend, b, done, f))), frames, f)
            == Served(end, e, EncodeEach(Replies(backend, b, done + frames, f)))
    decreases |frames|
  {
    hide React, Encode, After, Replies, EncodeEach;
    var (st, b') := After(backend, b, done, f);
    if frames == [] {
      assert done + frames == done;
    } else if st.finished {
      RepliesMatchFrames(backend, b, done + frames, f);
      assert (done + frames)[..|done|] == done;
    } else {
      var next := done + [frames[0]];
      OneMore(backend, b, done, frames[0], f);
      FeedIsRun(backend, b, next, frames[1..], f);
      assert next + frames[1..] == done + frames;
    }
  }

  /** What handling one more frame adds to a run. */
  lemma OneMore<B>(backend: Backend<B>, b: B, done: seq<Frame>, frame: Frame, f: Formatter)
    ensures var (st, b') := After(backend, b, done, f);
            var r := React(backend, st, b', frame, f);
            && After(backend, b, done + [frame], f) == (r.state, r.engine)
            && EncodeEach(Replies(backend, b, done + [frame], f))
               == EncodeEach(Replies(backend, b, done, f)) + if r.reply.Some? then [Encode(r.reply.value)] else []
  {
    hide React, Encode, EncodeEach;
    var (st, b') := After(backend, b, done, f);
    var next := done + [frame];
    assert next[..|next| - 1] == done;
    var r := React(backend, st, b', frame, f);
    assert LastReaction(backend, b, next, f) == r;
    EncodeEachAppend(Replies(backend, b, done, f), if r.reply.Some? then [r.reply.value] else []);
  }

  lemma EncodeEachAppend(frames: seq<Frame>, more: seq<Frame>)
    requires |more| <= 1
    ensures EncodeEach(frames + more)
         == EncodeEach(frames) + (if more == [] then [] else [Encode(more[0])])
  {
    if more == [] {
      assert frames + more == frames;
    } else {
      assert (frames + more)[..|frames|] == frames;
    }
  }
}
