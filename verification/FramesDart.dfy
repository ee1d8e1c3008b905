/**
 The host's frame codec, lib/src/relay/frame.dart: one scan per chunk and one
 compaction at its end, against the station's decoder that erases each frame as
 it goes.  `isObject` is what the host's JSON decoding accepts.
 */
module FramesDart {
  import opened Text
  import opened Utf8
  import opened Frames

  type PayloadCheck = Bytes -> bool

  /** What `_decodePayload` makes of a payload. */
  datatype Reading = Fine | NotText | NotObject

  /** An empty payload is never decoded; one that is not UTF-8 fails before its JSON is looked at. */
  function Read(f: Frame, isObject: PayloadCheck): Reading {
    if f.payload == [] then Fine
    else if !WellFormed(f.payload) then NotText
    else if !isObject(f.payload) then NotObject
    else Fine
  }

  /** The first fault among the payloads, if any. */
  function Screen(frames: seq<Frame>, isObject: PayloadCheck): Reading {
    if frames == [] then Fine
    else if Read(frames[0], isObject) != Fine then Read(frames[0], isObject)
    else Screen(frames[1..], isObject)
  }

  lemma {:induction false} ScreenAppend(a: seq<Frame>, b: seq<Frame>, isObject: PayloadCheck)
    ensures Screen(a + b, isObject) == if Screen(a, isObject) != Fine then Screen(a, isObject) else Screen(b, isObject)
  {
    if a == [] {
      assert a + b == b;
    } else {
      assert (a + b)[1..] == a[1..] + b;
      ScreenAppend(a[1..], b, isObject);
    }
  }

  /** `Frame.encode`, refused before anything is allocated when over the budget. */
  method EncodeChecked(kind: MessageType, payload: Bytes) returns (out: Option<Bytes>)
    ensures out == if WithinBudget(Frame(kind, payload)) then Some(Encode(Frame(kind, payload))) else None
  {
    hide LittleEndian, Code;
    var length := 1 + |payload|;
    if length > MAX_CONTROL_FRAME_BYTES { return None; }
    var bytes := LittleEndian(length) + ([Code(kind)] + payload);
    return Some(bytes);
  }

  /**
   What one `add` gives: frames and the tail; a thrown `ProtocolViolation`; or
   the `FormatException` of a payload that is not UTF-8, which nothing catches.
   */
  datatype Added = Frames(frames: seq<Frame>, tail: Bytes) | Violated | Escaped

  function AddResult(buffer: Bytes, chunk: Bytes, isObject: PayloadCheck): Added {
    var d := Drain(buffer + chunk);
    match Screen(d.frames, isObject)
    case NotText => Escaped
    case NotObject => Violated
    case Fine => if d.error.Some? then Violated else Frames(d.frames, d.rest)
  }

  /** What a scan ends with that has found `frames` and has `s` before it. */
  function Resumed(frames: seq<Frame>, s: Bytes): Decoded {
    var more := Drain(s);
    more.(frames := frames + more.frames)
  }

  lemma NoFrames(isObject: PayloadCheck)
    ensures Screen([], isObject) == Fine
  {
  }

  /** One turn of the scan. */
  lemma ScanTurn(frames: seq<Frame>, s: Bytes, isObject: PayloadCheck)
    requires Screen(frames, isObject) == Fine
    ensures !NextFrame(s).Got? ==> Screen(Resumed(frames, s).frames, isObject) == Fine
    ensures NextFrame(s).NeedMore? ==> Resumed(frames, s) == Decoded(frames, s, None)
    ensures NextFrame(s).Violation? ==> Resumed(frames, s).error.Some?
    ensures NextFrame(s).Got? && Read(NextFrame(s).frame, isObject) != Fine ==>
              Screen(Resumed(frames, s).frames, isObject) == Read(NextFrame(s).frame, isObject)
    ensures NextFrame(s).Got? && Read(NextFrame(s).frame, isObject) == Fine ==>
              var more := frames + [NextFrame(s).frame];
              Screen(more, isObject) == Fine && Resumed(frames, s) == Resumed(more, s[NextFrame(s).size..])
  {
    hide NextFrame, Read;
    ScreenAppend(frames, Drain(s).frames, isObject);
    if NextFrame(s).Got? {
      var frame := NextFrame(s).frame;
      Regroup(frames, [frame], Drain(s[NextFrame(s).size..]).frames);
      ScreenAppend(frames, [frame], isObject);
      assert [frame][1..] == [];
    } else {
      assert frames + [] == frames;
    }
  }

  class DartDecoder {
    const isObject: PayloadCheck
    var buffer: Bytes

    constructor (isObject: PayloadCheck)
      ensures this.isObject == isObject && buffer == []
    {
      this.isObject := isObject;
      buffer := [];
    }

    /** Both ways of throwing leave the bytes in the buffer. */
    method Add(chunk: Bytes) returns (r: Added)
      modifies this
      ensures r == AddResult(old(buffer), chunk, isObject)
      ensures buffer == if r.Frames? then r.tail else old(buffer) + chunk
    {
      hide NextFrame, Read, Drain, Screen;
      buffer := buffer + chunk;
      var frames: seq<Frame> := [];
      var offset := 0;
      ghost var all := Drain(buffer);
      assert buffer[0..] == buffer;
      assert [] + all.frames == all.frames;
      NoFrames(isObject);
      while true
        invariant offset <= |buffer| && buffer == old(buffer) + chunk
        invariant Screen(frames, isObject) == Fine
        invariant all == Resumed(frames, buffer[offset..])
        decreases |buffer| - offset
      {
        ScanTurn(frames, buffer[offset..], isObject);
        var next := Scan(offset);
        if next.Violation? { return Violated; }
        if next.NeedMore? { break; }
        assert buffer[offset..][next.size..] == buffer[offset + next.size..];
        var reading := Read(next.frame, isObject);
        if reading == NotText { return Escaped; }
        if reading == NotObject { return Violated; }
        frames := frames + [next.frame];
        offset := offset + next.size;
      }
      if offset > 0 {
        buffer := buffer[offset..];
      }
      return Frames(frames, buffer);
    }

    /** The part of the scan that looks at one frame, without removing it. */
    method Scan(offset: nat) returns (r: Next)
      requires offset <= |buffer|
      ensures r == NextFrame(buffer[offset..])
    {
      if |buffer| - offset < 4 { return NeedMore; }
      var header := buffer[offset..offset + 4];
      var length := LengthOf(header);
      assert LengthOf(buffer[offset..]) == length;
      if length < 1 { return Violation(LengthTooSmall); }
      if length > MAX_CONTROL_FRAME_BYTES { return Violation(FrameTooLarge); }
      if |buffer| - offset < 4 + length { return NeedMore; }
      var typeByte := buffer[offset + 4];
      var kind := FromCode(typeByte);
      if kind.None? { return Violation(UnknownMessageType); }
      var bodyStart, bodyEnd := offset + 5, offset + 4 + length;
      assert buffer[offset..][5..4 + length] == buffer[bodyStart..bodyEnd];
      return Got(Frame(kind.value, buffer[bodyStart..bodyEnd]), 4 + length);
    }
  }

  // -------------------------------------------------------------- agreement

  /** What the station's decoder emits for each chunk. */
  function StationEmits(buffer: Bytes, error: Option<DecodeError>, chunks: seq<Bytes>): seq<seq<Frame>>
    decreases |chunks|
  {
    if chunks == [] then [] else
      var first := Absorb(buffer, error, chunks[0]);
      [first.frames] + StationEmits(first.rest, first.error, chunks[1..])
  }

  /** What the host's decoder emits for each chunk, and its tail; None once it has thrown. */
  function HostEmits(buffer: Bytes, chunks: seq<Bytes>, isObject: PayloadCheck): Option<(seq<seq<Frame>>, Bytes)>
    decreases |chunks|
  {
    if chunks == [] then Some(([], buffer)) else
      match AddResult(buffer, chunks[0], isObject)
      case Frames(frames, tail) =>
        (match HostEmits(tail, chunks[1..], isObject)
         case None => None
         case Some((more, last)) => Some(([frames] + more, last)))
      case _ => None
  }

  lemma {:induction false} AgreeFrom(buffer: Bytes, chunks: seq<Bytes>, isObject: PayloadCheck)
    ensures var station := AbsorbAll(buffer, None, chunks);
            HostEmits(buffer, chunks, isObject)
            == if station.error.None? && Screen(station.frames, isObject) == Fine
               then Some((StationEmits(buffer, None, chunks), station.rest)) else None
    decreases |chunks|
  {
    if chunks != [] {
      var first := Absorb(buffer, None, chunks[0]);
      if first.error.Some? {
        FailureIsSticky(first.rest, first.error.value, chunks[1..]);
      } else {
        var more := AbsorbAll(first.rest, None, chunks[1..]);
        AgreeFrom(first.rest, chunks[1..], isObject);
        ScreenAppend(first.frames, more.frames, isObject);
      }
    }
  }

  /**
   Chunk by chunk, for every chunking, the host's decoder emits what the
   station's does and keeps the same tail, exactly when the stream violates
   nothing and every payload in it is one the host can read.
   */
  lemma TwoDecodersAgree(chunks: seq<Bytes>, isObject: PayloadCheck)
    ensures var all := Drain(Concat(chunks));
            HostEmits([], chunks, isObject)
              == Some((StationEmits([], None, chunks), AbsorbAll([], None, chunks).rest))
            <==> all.error.None? && Screen(all.frames, isObject) == Fine
  {
    AgreeFrom([], chunks, isObject);
    ChunksDoNotMatter(chunks);
  }

  // ------------------------------------------------------------ lost frames

  /** All the host's decoder has handed over, and its buffer: it is used on after it has thrown. */
  function HostAfter(chunks: seq<Bytes>, isObject: PayloadCheck): (seq<Frame>, Bytes) {
    if chunks == [] then ([], []) else
      var n := |chunks| - 1;
      var (frames, buffer) := HostAfter(chunks[..n], isObject);
      match AddResult(buffer, chunks[n], isObject)
      case Frames(more, tail) => (frames + more, tail)
      case _ => (frames, buffer + chunks[n])
  }

  /** A decoded input with nothing wrong in it. */
  predicate Clean(d: Decoded, isObject: PayloadCheck) { d.error.None? && Screen(d.frames, isObject) == Fine }

  lemma CleanAppend(a: Bytes, b: Bytes, isObject: PayloadCheck)
    ensures Clean(Drain(a + b), isObject) ==> Clean(Drain(a), isObject)
    ensures Clean(Drain(a), isObject) ==>
              (Clean(Drain(a + b), isObject) <==> Clean(Drain(Drain(a).rest + b), isObject))
  {
    hide Drain, Screen;
    DrainAppend(a, b);
    ScreenAppend(Drain(a).frames, Drain(Drain(a).rest + b).frames, isObject);
  }

  lemma AddedWhenClean(buffer: Bytes, chunk: Bytes, isObject: PayloadCheck)
    ensures AddResult(buffer, chunk, isObject).Frames? <==> Clean(Drain(buffer + chunk), isObject)
    ensures Clean(Drain(buffer + chunk), isObject) ==>
              AddResult(buffer, chunk, isObject) == Frames(Drain(buffer + chunk).frames, Drain(buffer + chunk).rest)
  {
    hide Drain, Screen;
  }

  lemma ConcatGrows(chunks: seq<Bytes>, i: nat, j: nat)
    requires i <= j <= |chunks|
    ensures Concat(chunks[..j]) == Concat(chunks[..i]) + Concat(chunks[i..j])
  {
    Cut(chunks[..j], i);
    assert chunks[..j][..i] == chunks[..i] && chunks[..j][i..] == chunks[i..j];
    ConcatAppend(chunks[..i], chunks[i..j]);
  }

  /** While the stream is clean the host has what the station has; from then on it gets nothing. */
  lemma {:induction false} HostStops(chunks: seq<Bytes>, isObject: PayloadCheck)
    ensures var d := Drain(Concat(chunks));
            var (frames, buffer) := HostAfter(chunks, isObject);
            && (Clean(d, isObject) ==> frames == d.frames && buffer == d.rest)
            && (!Clean(d, isObject) ==>
                  && !Clean(Drain(buffer), isObject)
                  && chunks != [] && frames == HostAfter(chunks[..|chunks| - 1], isObject).0)
  {
    hide AddResult, Clean, Screen;
    if chunks == [] {
      NothingClean(isObject);
    } else {
      hide Drain;
      var n := |chunks| - 1;
      HostStops(chunks[..n], isObject);
      var before := Concat(chunks[..n]);
      var (frames, buffer) := HostAfter(chunks[..n], isObject);
      ConcatNext(chunks, n);
      assert chunks[..n + 1] == chunks;
      CleanAppend(before, chunks[n], isObject);
      CleanAppend(buffer, chunks[n], isObject);
      AddedWhenClean(buffer, chunks[n], isObject);
      DrainAppend(before, chunks[n]);
      CleanNoError(Drain(before), isObject);
    }
  }

  lemma NothingClean(isObject: PayloadCheck)
    ensures Drain([]) == Decoded([], [], None) && Clean(Drain([]), isObject)
  {
  }

  lemma CleanNoError(d: Decoded, isObject: PayloadCheck)
    ensures Clean(d, isObject) ==> d.error.None?
  {
  }

  /** The last point at which the stream was still clean. */
  lemma {:induction false} LastClean(chunks: seq<Bytes>, isObject: PayloadCheck) returns (m: nat)
    requires !Clean(Drain(Concat(chunks)), isObject)
    ensures m < |chunks|
    ensures Clean(Drain(Concat(chunks[..m])), isObject) && !Clean(Drain(Concat(chunks[..m + 1])), isObject)
    ensures HostAfter(chunks, isObject).0 == Drain(Concat(chunks[..m])).frames
  {
    hide Drain, Clean, HostAfter;
    HostStops(chunks, isObject);
    m := |chunks| - 1;
    assert chunks[..m + 1] == chunks;
    if Clean(Drain(Concat(chunks[..m])), isObject) {
      HostStops(chunks[..m], isObject);
    } else {
      ghost var n := m;
      m := LastClean(chunks[..n], isObject);
      assert chunks[..n][..m] == chunks[..m] && chunks[..n][..m + 1] == chunks[..m + 1];
    }
  }

  predicate AllWithinBudget(frames: seq<Frame>) { forall i | 0 <= i < |frames| :: WithinBudget(frames[i]) }

  /**
   The input up to and with chunk `i` is some frames and then `bad`.  Either a
   violation begins at `bad` and chunk `i` also completes one of the frames, or
   the host cannot read the payload of one.
   */
  ghost predicate LosesAt(chunks: seq<Bytes>, i: nat, frames: seq<Frame>, bad: Bytes, isObject: PayloadCheck)
    requires i < |chunks|
  {
    && AllWithinBudget(frames)
    && Concat(chunks[..i + 1]) == EncodeAll(frames) + bad
    && (|| (NextFrame(bad).Violation? && |Concat(chunks[..i])| < |EncodeAll(frames)|)
        || Screen(frames, isObject) != Fine)
  }

  ghost predicate Loses(chunks: seq<Bytes>, isObject: PayloadCheck) {
    exists i: nat, frames: seq<Frame>, bad: Bytes :: i < |chunks| && LosesAt(chunks, i, frames, bad, isObject)
  }

  /** What a decoded input was, in bytes. */
  lemma {:induction false} DecodedBytes(s: Bytes)
    ensures var d := Drain(s);
            && AllWithinBudget(d.frames) && s == EncodeAll(d.frames) + d.rest
            && (d.error.Some? ==> NextFrame(d.rest).Violation?)
    decreases |s|
  {
    hide NextFrame, Encode, WithinBudget;
    EncodeDecoded(s);
    match NextFrame(s)
    case Got(f, size) => DecodedBytes(s[size..]);
    case _ =>
  }

  /** Frames and a violation after them decode as just that. */
  lemma FramesThenViolation(frames: seq<Frame>, bad: Bytes)
    requires AllWithinBudget(frames)
    ensures NextFrame(bad).Violation? ==>
              Drain(EncodeAll(frames) + bad) == Decoded(frames, bad, Some(NextFrame(bad).error))
    ensures |Drain(EncodeAll(frames) + bad).frames| >= |frames|
    ensures Drain(EncodeAll(frames) + bad).frames[..|frames|] == frames
  {
    hide EncodeAll, NextFrame;
    DecodeEncoded(frames, bad);
    assert frames + [] == frames;
  }

  /** A chunk that completes a frame makes the frames longer than all the input before it. */
  lemma CompletedInChunk(before: Bytes, chunk: Bytes)
    requires Drain(before).error.None? && Drain(before + chunk).frames != Drain(before).frames
    ensures |before| < |EncodeAll(Drain(before + chunk).frames)|
  {
    hide Encode, WithinBudget, NextFrame;
    var d := Drain(before);
    var piece := Drain(d.rest + chunk);
    DrainAppend(before, chunk);
    DrainLeavesNothing(before);
    EncodeDecoded(before);
    assert piece.frames != [] by { assert d.frames + [] == d.frames; }
    EncodeAllAppend(d.frames, piece.frames);
    FirstFitsRest(d.rest, chunk);
  }

  lemma FirstFitsRest(rest: Bytes, chunk: Bytes)
    requires NextFrame(rest).NeedMore? && Drain(rest + chunk).frames != []
    ensures |EncodeAll(Drain(rest + chunk).frames)| > |rest|
  {
    hide Encode, WithinBudget;
    var s := rest + chunk;
    var Got(f, size) := NextFrame(s);
    DecodedWasEncoded(s);
    if |rest| >= HEADER_BYTES { assert LengthOf(rest) == LengthOf(s); }
    assert |Encode(f)| == size;
  }

  lemma {:induction false} EncodeAllAppend(a: seq<Frame>, b: seq<Frame>)
    ensures EncodeAll(a + b) == EncodeAll(a) + EncodeAll(b)
  {
    hide Encode;
    if a == [] {
      assert a + b == b;
    } else {
      assert (a + b)[1..] == a[1..] + b;
      EncodeAllAppend(a[1..], b);
      Regroup(Encode(a[0]), EncodeAll(a[1..]), EncodeAll(b));
    }
  }

  lemma ScreenPrefix(frames: seq<Frame>, n: nat, isObject: PayloadCheck)
    requires n <= |frames| && Screen(frames, isObject) == Fine
    ensures Screen(frames[..n], isObject) == Fine
  {
    Cut(frames, n);
    ScreenAppend(frames[..n], frames[n..], isObject);
  }

  /** Later input only adds frames. */
  lemma FramesGrow(a: Bytes, b: Bytes)
    ensures |Drain(a).frames| <= |Drain(a + b).frames| && Drain(a + b).frames[..|Drain(a).frames|] == Drain(a).frames
    ensures Drain(a).error.Some? ==> Drain(a + b).frames == Drain(a).frames
  {
    hide Drain;
    DrainAppend(a, b);
  }

  /** A chunk at which the host loses frames: what it hands over is not what the station does. */
  lemma LosingDiffers(chunks: seq<Bytes>, i: nat, frames: seq<Frame>, bad: Bytes, isObject: PayloadCheck)
    requires i < |chunks| && LosesAt(chunks, i, frames, bad, isObject)
    ensures HostAfter(chunks, isObject).0 != Drain(Concat(chunks)).frames
  {
    hide Drain, NextFrame, EncodeAll, Screen, HostAfter;
    var upto, all := Concat(chunks[..i + 1]), Drain(Concat(chunks));
    FramesThenViolation(frames, bad);
    ConcatCut(chunks, i + 1);
    FramesGrow(upto, Concat(chunks[i + 1..]));
    assert all.frames[..|frames|] == frames;
    CleanAppend(upto, Concat(chunks[i + 1..]), isObject);
    if Screen(Drain(upto).frames, isObject) == Fine { ScreenPrefix(Drain(upto).frames, |frames|, isObject); }
    assert !Clean(Drain(upto), isObject);
    var m := LastClean(chunks, isObject);
    var kept := Drain(Concat(chunks[..m]));
    if Screen(frames, isObject) == Fine {
      CleanUpTo(chunks, m, i, isObject);
      DecodedBytes(Concat(chunks[..m]));
      ConcatGrows(chunks, m, i);
      assert |EncodeAll(kept.frames)| < |EncodeAll(frames)|;
    } else if kept.frames == all.frames {
      ScreenPrefix(kept.frames, |frames|, isObject);
    }
  }

  /** What is clean ends before what is not. */
  lemma CleanUpTo(chunks: seq<Bytes>, m: nat, i: nat, isObject: PayloadCheck)
    requires m <= |chunks| && i < |chunks|
    requires Clean(Drain(Concat(chunks[..m])), isObject) && !Clean(Drain(Concat(chunks[..i + 1])), isObject)
    ensures m <= i
  {
    hide Drain, Clean;
    if i + 1 <= m {
      ConcatGrows(chunks, i + 1, m);
      CleanAppend(Concat(chunks[..i + 1]), Concat(chunks[i + 1..m]), isObject);
    }
  }

  /**
   For every chunking, the host's decoder hands over the frames the station's
   does if and only if no chunk completes both a frame and a violation behind
   it, and no payload is one the host cannot read.
   */
  lemma LostExactlyBeforeViolation(chunks: seq<Bytes>, isObject: PayloadCheck)
    ensures HostAfter(chunks, isObject).0 == Drain(Concat(chunks)).frames <==> !Loses(chunks, isObject)
  {
    hide Drain, HostAfter, LosesAt, EncodeAll, NextFrame;
    var all := Drain(Concat(chunks));
    forall i: nat, frames: seq<Frame>, bad: Bytes | i < |chunks| && LosesAt(chunks, i, frames, bad, isObject)
      ensures HostAfter(chunks, isObject).0 != all.frames
    {
      LosingDiffers(chunks, i, frames, bad, isObject);
    }
    if HostAfter(chunks, isObject).0 != all.frames {
      HostStops(chunks, isObject);
      var m := LastClean(chunks, isObject);
      DiffersMeansLosing(chunks, m, isObject);
    }
  }

  lemma DiffersMeansLosing(chunks: seq<Bytes>, m: nat, isObject: PayloadCheck)
    requires m < |chunks| && Clean(Drain(Concat(chunks[..m])), isObject)
    requires !Clean(Drain(Concat(chunks[..m + 1])), isObject)
    requires Drain(Concat(chunks[..m])).frames != Drain(Concat(chunks)).frames
    ensures Loses(chunks, isObject)
  {
    hide Drain, NextFrame, EncodeAll, Screen;
    var before, upto := Concat(chunks[..m]), Concat(chunks[..m + 1]);
    var d := Drain(upto);
    DecodedBytes(upto);
    ConcatCut(chunks, m + 1);
    FramesGrow(upto, Concat(chunks[m + 1..]));
    ConcatNext(chunks, m);
    if d.error.Some? { CompletedInChunk(before, chunks[m]); }
    assert LosesAt(chunks, m, d.frames, d.rest, isObject);
  }

  lemma FrameThenViolation(f: Frame, bad: Bytes)
    requires WithinBudget(f) && NextFrame(bad).Violation?
    ensures Drain(Encode(f) + bad) == Decoded([f], bad, Some(NextFrame(bad).error))
  {
    EncodedComesBack(f, bad);
  }

  /** The frames an `add` handed over: none when it threw. */
  function HandedOver(r: Added): seq<Frame> {
    if r.Frames? then r.frames else []
  }

  lemma LostTogetherKeptApart(f: Frame, bad: Bytes, isObject: PayloadCheck)
    requires WithinBudget(f) && Read(f, isObject) == Fine && NextFrame(bad).Violation?
    ensures HandedOver(AddResult([], Encode(f) + bad, isObject)) == []
    ensures HandedOver(AddResult([], Encode(f), isObject)) == [f]
    ensures Absorb([], None, Encode(f) + bad).frames == [f]
  {
    hide Encode, NextFrame, Drain, WithinBudget, Read;
    FrameThenViolation(f, bad);
    ComesBackExactlyWithinBudget(f);
    var together := Encode(f) + bad;
    assert [] + together == together;
    assert [] + Encode(f) == Encode(f);
    assert [f][1..] == [] && Screen([], isObject) == Fine;
    assert Screen([f], isObject) == Fine;
  }

  /**
   So the host's frames depend on the chunking of a violating stream: `BYE` and
   then a zero length, together and apart.
   */
  lemma HostLosesFramesBeforeViolation(isObject: PayloadCheck)
    ensures var bye, bad := Encode(Frame(Bye, [])), [0, 0, 0, 0];
            && HandedOver(AddResult([], bye + bad, isObject)) == []
            && HandedOver(AddResult([], bye, isObject)) == [Frame(Bye, [])]
            && Absorb([], None, bye + bad).frames == [Frame(Bye, [])]
  {
    hide Encode, Drain, AddResult, Absorb;
    LostTogetherKeptApart(Frame(Bye, []), [0, 0, 0, 0], isObject);
  }
}
