/**
 The frame codec of src/relay/protocol/frame.cpp: little-endian length, type
 byte, payload.  The decoder is incremental and its failure is sticky.
 */
module Frames {
  import opened Text

  const HEADER_BYTES: nat := 4
  const MAX_CONTROL_FRAME_BYTES: nat := 1024 * 1024
  const U32: nat := 0x1_0000_0000

  datatype MessageType =
    | Hello | HelloAck | CapsRequest | CapsReply | Open | OpenAck | Post | Set
    | Close | Status | DiagRequest | DiagReply | Bye | Error

  function Code(t: MessageType): Byte {
    match t
    case Hello => 0x01
    case HelloAck => 0x02
    case CapsRequest => 0x10
    case CapsReply => 0x11
    case Open => 0x20
    case OpenAck => 0x21
    case Post => 0x30
    case Set => 0x31
    case Close => 0x40
    case Status => 0x50
    case DiagRequest => 0x60
    case DiagReply => 0x61
    case Bye => 0x70
    case Error => 0x7F
  }

  /** The type a byte stands for, if this revision defines one. */
  function FromCode(b: Byte): (t: Option<MessageType>)
    ensures t.Some? ==> Code(t.value) == b
  {
    match b
    case 0x01 => Some(Hello)
    case 0x02 => Some(HelloAck)
    case 0x10 => Some(CapsRequest)
    case 0x11 => Some(CapsReply)
    case 0x20 => Some(Open)
    case 0x21 => Some(OpenAck)
    case 0x30 => Some(Post)
    case 0x31 => Some(Set)
    case 0x40 => Some(Close)
    case 0x50 => Some(Status)
    case 0x60 => Some(DiagRequest)
    case 0x61 => Some(DiagReply)
    case 0x70 => Some(Bye)
    case 0x7F => Some(Error)
    case _ => None
  }

  datatype Frame = Frame(kind: MessageType, payload: Bytes)

  // --------------------------------------------------------------- encoding

  function LittleEndian(n: nat): (r: Bytes)
    requires n < U32
    ensures |r| == 4
  {
    [n % 0x100, n / 0x100 % 0x100, n / 0x1_0000 % 0x100, n / 0x100_0000 % 0x100]
  }

  function LengthOf(header: Bytes): (n: nat)
    requires |header| >= 4
    ensures n < U32
  {
    header[0] as int + header[1] as int * 0x100 + header[2] as int * 0x1_0000 + header[3] as int * 0x100_0000
  }

  lemma LengthRoundTrip(n: nat, more: Bytes)
    requires n < U32
    ensures LengthOf(LittleEndian(n) + more) == n
  {
    var a := n / 0x100;
    var b := a / 0x100;
    assert n == a * 0x100 + n % 0x100 && a == b * 0x100 + a % 0x100 && b == (b / 0x100) * 0x100 + b % 0x100;
    assert b == n / 0x1_0000 && b / 0x100 == n / 0x100_0000;
  }

  lemma LengthDetermines(h: Bytes)
    requires |h| >= 4
    ensures LittleEndian(LengthOf(h)) == h[..4]
  {
    var n := LengthOf(h);
    var a := h[1] as int + h[2] as int * 0x100 + h[3] as int * 0x1_0000;
    assert n == h[0] as int + 0x100 * a && n / 0x100 == a && n % 0x100 == h[0];
    var b := h[2] as int + h[3] as int * 0x100;
    assert a / 0x100 == b && a % 0x100 == h[1] && b / 0x100 == h[3] && b % 0x100 == h[2];
    assert n / 0x1_0000 == b && n / 0x100_0000 == h[3];
  }

  /** `length` counts the type byte plus the payload, in 32 bits. */
  function BodyLength(payload: Bytes): nat { (1 + |payload|) % U32 }

  function Encode(f: Frame): (r: Bytes)
    ensures |r| == HEADER_BYTES + 1 + |f.payload|
  {
    LittleEndian(BodyLength(f.payload)) + ([Code(f.kind)] + f.payload)
  }

  method EncodeFrame(kind: MessageType, payload: Bytes) returns (out: Bytes)
    ensures out == Encode(Frame(kind, payload))
  {
    var bodyLength := (1 + |payload| % U32) % U32;
    assert bodyLength == BodyLength(payload);
    out := [];
    out := out + [bodyLength % 0x100];
    out := out + [bodyLength / 0x100 % 0x100];
    out := out + [bodyLength / 0x1_0000 % 0x100];
    out := out + [bodyLength / 0x100_0000 % 0x100];
    out := out + [Code(kind)];
    out := out + payload;
  }

  function EncodeAll(frames: seq<Frame>): Bytes {
    if frames == [] then [] else Encode(frames[0]) + EncodeAll(frames[1..])
  }

  // --------------------------------------------------------------- decoding

  datatype DecodeError = FrameTooLarge | LengthTooSmall | UnknownMessageType

  datatype Next = NeedMore | Violation(error: DecodeError) | Got(frame: Frame, size: nat)

  /** What the front of a buffer holds. */
  function NextFrame(buffer: Bytes): (r: Next)
    ensures r.Got? ==> HEADER_BYTES < r.size <= |buffer|
  {
    if |buffer| < HEADER_BYTES then NeedMore else
      var length := LengthOf(buffer);
      if length < 1 then Violation(LengthTooSmall)
      else if length > MAX_CONTROL_FRAME_BYTES then Violation(FrameTooLarge)
      else
        var total := HEADER_BYTES + length;
        if |buffer| < total then NeedMore else
          match FromCode(buffer[HEADER_BYTES])
          case None => Violation(UnknownMessageType)
          case Some(kind) => Got(Frame(kind, buffer[HEADER_BYTES + 1..total]), total)
  }

  datatype Decoded = Decoded(frames: seq<Frame>, rest: Bytes, error: Option<DecodeError>)

  /** Everything that can be decoded from a buffer: `next` until it gives nothing. */
  function Drain(buffer: Bytes): Decoded
    decreases |buffer|
  {
    match NextFrame(buffer)
    case NeedMore => Decoded([], buffer, None)
    case Violation(error) => Decoded([], buffer, Some(error))
    case Got(frame, size) =>
      var more := Drain(buffer[size..]);
      more.(frames := [frame] + more.frames)
  }

  class FrameDecoder {
    var buffer: Bytes
    var error: Option<DecodeError>

    constructor ()
      ensures buffer == [] && error.None?
    {
      buffer, error := [], None;
    }

    method Feed(data: Bytes)
      modifies this
      ensures error == old(error)
      ensures buffer == if error.Some? then old(buffer) else old(buffer) + data
    {
      if error.Some? || |data| == 0 { return; }
      buffer := buffer + data;
    }

    method Fail(e: DecodeError)
      modifies this
      ensures error == if old(error).None? then Some(e) else old(error)
      ensures buffer == old(buffer)
    {
      if error.None? { error := Some(e); }
    }

    /** The next complete frame; a violation is remembered and never left. */
    method Next() returns (r: Option<Frame>)
      modifies this
      ensures old(error).Some? ==> r.None? && error == old(error) && buffer == old(buffer)
      ensures old(error).None? ==>
        match NextFrame(old(buffer))
        case NeedMore => r.None? && error.None? && buffer == old(buffer)
        case Violation(e) => r.None? && error == Some(e) && buffer == old(buffer)
        case Got(frame, size) => r == Some(frame) && error.None? && buffer == old(buffer)[size..]
    {
      if error.Some? { return None; }
      if |buffer| < HEADER_BYTES { return None; }
      var length := LengthOf(buffer);
      if length < 1 {
        Fail(LengthTooSmall);
        return None;
      }
      if length > MAX_CONTROL_FRAME_BYTES {
        Fail(FrameTooLarge);
        return None;
      }
      var total := HEADER_BYTES + length;
      if |buffer| < total { return None; }
      var kind := FromCode(buffer[HEADER_BYTES]);
      if kind.None? {
        Fail(UnknownMessageType);
        return None;
      }
      r := Some(Frame(kind.value, buffer[HEADER_BYTES + 1..total]));
      buffer := buffer[total..];
    }
  }

  // ---------------------------------------------------- one buffer at a time

  /** The type bytes this revision defines, and what they stand for. */
  const TYPE_BYTES: seq<Byte> :=
    [0x01, 0x02, 0x10, 0x11, 0x20, 0x21, 0x30, 0x31, 0x40, 0x50, 0x60, 0x61, 0x70, 0x7F]

  const TYPES: seq<MessageType> :=
    [Hello, HelloAck, CapsRequest, CapsReply, Open, OpenAck, Post, Set, Close, Status, DiagRequest, DiagReply, Bye, Error]

  /** The verdict on a buffer, from its bytes: too short, one of the three violations, or a frame. */
  lemma NextFrameExactly(s: Bytes)
    ensures |s| < 4 ==> NextFrame(s) == NeedMore
    ensures |s| >= 4 ==>
              var n := s[0] as int + 256 * s[1] as int + 65536 * s[2] as int + 16777216 * s[3] as int;
              && (NextFrame(s) == Violation(LengthTooSmall) <==> n == 0)
              && (NextFrame(s) == Violation(FrameTooLarge) <==> n > 1024 * 1024)
              && (NextFrame(s) == NeedMore <==> 1 <= n <= 1024 * 1024 && |s| < 4 + n)
              && (1 <= n <= 1024 * 1024 && |s| >= 4 + n ==>
                    && (NextFrame(s) == Violation(UnknownMessageType) <==> s[4] !in TYPE_BYTES)
                    && (forall i | 0 <= i < 14 && s[4] == TYPE_BYTES[i] ::
                          NextFrame(s) == Got(Frame(TYPES[i], s[5..4 + n]), 4 + n)))
  {
    if |s| >= 5 { TypesByTheirBytes(s[4]); }
  }

  lemma TypesByTheirBytes(b: Byte)
    ensures FromCode(b).None? <==> b !in TYPE_BYTES
    ensures forall i | 0 <= i < 14 && b == TYPE_BYTES[i] :: FromCode(b) == Some(TYPES[i])
  {
  }

  /** What is at the front stays there when more arrives. */
  lemma NextFrameStable(a: Bytes, b: Bytes)
    requires !NextFrame(a).NeedMore?
    ensures NextFrame(a + b) == NextFrame(a)
  {
    var length := LengthOf(a);
    assert LengthOf(a + b) == length;
    if 1 <= length <= MAX_CONTROL_FRAME_BYTES {
      assert (a + b)[HEADER_BYTES + 1..HEADER_BYTES + length] == a[HEADER_BYTES + 1..HEADER_BYTES + length];
    }
  }

  /** Decoding in two pieces is decoding at once. */
  lemma {:induction false} DrainAppend(a: Bytes, b: Bytes)
    ensures var first := Drain(a);
            var all := Drain(a + b);
            if first.error.Some? then all.frames == first.frames && all.error == first.error
            else
              var second := Drain(first.rest + b);
              all == Decoded(first.frames + second.frames, second.rest, second.error)
    decreases |a|
  {
    match NextFrame(a)
    case NeedMore =>
      assert [] + Drain(a + b).frames == Drain(a + b).frames;
    case Violation(_) =>
      NextFrameStable(a, b);
    case Got(frame, size) =>
      NextFrameStable(a, b);
      DrainAppend(a[size..], b);
      assert (a + b)[size..] == a[size..] + b;
      var first := Drain(a[size..]);
      if first.error.None? {
        Regroup([frame], first.frames, Drain(first.rest + b).frames);
      }
  }

  /** What a decoder has left after draining holds no further frame. */
  lemma {:induction false} DrainLeavesNothing(a: Bytes)
    requires Drain(a).error.None?
    ensures NextFrame(Drain(a).rest) == NeedMore && |Drain(a).rest| <= |a|
    decreases |a|
  {
    if NextFrame(a).Got? { DrainLeavesNothing(a[NextFrame(a).size..]); }
  }

  // ------------------------------------------------------------ round trips

  predicate WithinBudget(f: Frame) { |f.payload| < MAX_CONTROL_FRAME_BYTES }

  lemma NextOfEncoded(f: Frame, more: Bytes)
    ensures var s := Encode(f) + more;
            && LengthOf(s) == BodyLength(f.payload)
            && s[HEADER_BYTES] == Code(f.kind)
            && s[HEADER_BYTES + 1..] == f.payload + more
  {
    var head := LittleEndian(BodyLength(f.payload));
    Regroup(head, [Code(f.kind)] + f.payload, more);
    Regroup([Code(f.kind)], f.payload, more);
    LengthRoundTrip(BodyLength(f.payload), [Code(f.kind)] + (f.payload + more));
  }

  lemma FromCodeOfCode(t: MessageType)
    ensures FromCode(Code(t)) == Some(t)
  {
  }

  lemma EncodedComesBack(f: Frame, more: Bytes)
    requires WithinBudget(f)
    ensures NextFrame(Encode(f) + more) == Got(f, |Encode(f)|)
    ensures (Encode(f) + more)[|Encode(f)|..] == more
  {
    NextOfEncoded(f, more);
    FromCodeOfCode(f.kind);
    var s := Encode(f) + more;
    var total := HEADER_BYTES + 1 + |f.payload|;
    assert s[HEADER_BYTES + 1..total] == s[HEADER_BYTES + 1..][..|f.payload|];
  }

  /** Frames within the budget decode back exactly, followed by whatever follows. */
  lemma {:induction false} DecodeEncoded(frames: seq<Frame>, more: Bytes)
    requires forall i | 0 <= i < |frames| :: WithinBudget(frames[i])
    ensures var d := Drain(more);
            Drain(EncodeAll(frames) + more) == Decoded(frames + d.frames, d.rest, d.error)
    decreases |frames|
  {
    if frames == [] {
      assert EncodeAll(frames) + more == more;
      assert [] + Drain(more).frames == Drain(more).frames;
    } else {
      var f, others := frames[0], frames[1..];
      DecodeEncoded(others, more);
      EncodedComesBack(f, EncodeAll(others) + more);
      Regroup(Encode(f), EncodeAll(others), more);
      Regroup([f], others, Drain(more).frames);
      assert frames == [f] + others;
    }
  }

  /** A payload of 2^20 to 2^32 - 2 bytes is refused as too large. */
  lemma OversizedIsRefused(f: Frame, more: Bytes)
    requires MAX_CONTROL_FRAME_BYTES <= |f.payload| <= U32 - 2
    ensures NextFrame(Encode(f) + more) == Violation(FrameTooLarge)
  {
    NextOfEncoded(f, more);
  }

  /** One frame alone comes back exactly when its payload is below 2^20 bytes, whatever its size. */
  lemma ComesBackExactlyWithinBudget(f: Frame)
    ensures Drain(Encode(f)) == Decoded([f], [], None) <==> WithinBudget(f)
  {
    NextOfEncoded(f, []);
    assert Encode(f) + [] == Encode(f);
    if WithinBudget(f) {
      EncodedComesBack(f, []);
    } else {
      var s := Encode(f);
      if NextFrame(s).Got? {
        assert NextFrame(s).size == HEADER_BYTES + BodyLength(f.payload) < |s|;
        assert Drain(s).frames[0].payload != f.payload;
      }
    }
  }

  lemma DecodedWasEncoded(s: Bytes)
    requires NextFrame(s).Got?
    ensures Encode(NextFrame(s).frame) == s[..NextFrame(s).size]
    ensures WithinBudget(NextFrame(s).frame)
  {
    var Got(f, size) := NextFrame(s);
    assert BodyLength(f.payload) == LengthOf(s);
    LengthDetermines(s);
    Cut(s[..size], 4);
    assert s[..size][..4] == s[..4];
    assert s[..size][4..] == [s[4]] + f.payload;
  }

  /** Re-encoding what was decoded, and appending what is left, gives the input back. */
  lemma {:induction false} EncodeDecoded(s: Bytes)
    ensures EncodeAll(Drain(s).frames) + Drain(s).rest == s
    ensures forall i | 0 <= i < |Drain(s).frames| :: WithinBudget(Drain(s).frames[i])
    decreases |s|
  {
    hide Encode, WithinBudget, NextFrame;
    match NextFrame(s)
    case Got(f, size) =>
      var more := Drain(s[size..]);
      EncodeDecoded(s[size..]);
      DecodedWasEncoded(s);
      assert Drain(s).frames[1..] == more.frames;
      Regroup(Encode(f), EncodeAll(more.frames), more.rest);
      Cut(s, size);
    case _ =>
      assert [] + s == s;
  }

  // ---------------------------------------------------------------- chunks

  /** Feeding one chunk and calling `next` until it gives nothing. */
  function Absorb(buffer: Bytes, error: Option<DecodeError>, chunk: Bytes): Decoded {
    if error.Some? then Decoded([], buffer, error) else Drain(buffer + chunk)
  }

  /** The same for a list of chunks, collecting the frames. */
  function AbsorbAll(buffer: Bytes, error: Option<DecodeError>, chunks: seq<Bytes>): Decoded
    decreases |chunks|
  {
    if chunks == [] then Decoded([], buffer, error) else
      var first := Absorb(buffer, error, chunks[0]);
      var more := AbsorbAll(first.rest, first.error, chunks[1..]);
      more.(frames := first.frames + more.frames)
  }

  /** After a violation nothing that arrives changes anything. */
  lemma {:induction false} FailureIsSticky(buffer: Bytes, error: DecodeError, chunks: seq<Bytes>)
    ensures AbsorbAll(buffer, Some(error), chunks) == Decoded([], buffer, Some(error))
    decreases |chunks|
  {
    if chunks != [] { FailureIsSticky(buffer, error, chunks[1..]); }
  }

  lemma {:induction false} AbsorbAllFrom(buffer: Bytes, chunks: seq<Bytes>)
    requires NextFrame(buffer).NeedMore?
    ensures var all := Drain(buffer + Concat(chunks));
            var pieces := AbsorbAll(buffer, None, chunks);
            && pieces.frames == all.frames && pieces.error == all.error
            && (all.error.None? ==> pieces.rest == all.rest)
    decreases |chunks|
  {
    if chunks == [] {
      assert buffer + [] == buffer;
    } else {
      var first := Drain(buffer + chunks[0]);
      var others := Concat(chunks[1..]);
      Regroup(buffer, chunks[0], others);
      DrainAppend(buffer + chunks[0], others);
      if first.error.None? {
        DrainLeavesNothing(buffer + chunks[0]);
        AbsorbAllFrom(first.rest, chunks[1..]);
      } else {
        FailureIsSticky(first.rest, first.error.value, chunks[1..]);
        assert first.frames + [] == first.frames;
      }
    }
  }

  /** However a stream is cut into chunks, the frames, the verdict and the tail are the same. */
  lemma ChunksDoNotMatter(chunks: seq<Bytes>)
    ensures var all := Drain(Concat(chunks));
            var pieces := AbsorbAll([], None, chunks);
            && pieces.frames == all.frames && pieces.error == all.error
            && (all.error.None? ==> pieces.rest == all.rest)
  {
    AbsorbAllFrom([], chunks);
    assert [] + Concat(chunks) == Concat(chunks);
  }

  /** Any frames within the budget come back exactly, however their bytes arrive. */
  lemma AnyChunkingRoundTrips(frames: seq<Frame>, chunks: seq<Bytes>)
    requires forall i | 0 <= i < |frames| :: WithinBudget(frames[i])
    requires Concat(chunks) == EncodeAll(frames)
    ensures AbsorbAll([], None, chunks) == Decoded(frames, [], None)
  {
    ChunksDoNotMatter(chunks);
    DecodeEncoded(frames, []);
    assert EncodeAll(frames) + [] == EncodeAll(frames);
    assert frames + [] == frames;
  }

  /** The inner loop of every reader: `next` until it gives nothing. */
  method TakeAll(decoder: FrameDecoder) returns (frames: seq<Frame>)
    modifies decoder
    ensures old(decoder.error).Some? ==>
              frames == [] && decoder.error == old(decoder.error) && decoder.buffer == old(decoder.buffer)
    ensures old(decoder.error).None? ==>
              Drain(old(decoder.buffer)) == Decoded(frames, decoder.buffer, decoder.error)
  {
    frames := [];
    var frame := decoder.Next();
    while frame.Some?
      invariant frame.Some? ==>
        && old(decoder.error).None? && decoder.error.None?
        && (var more := Drain(decoder.buffer);
            Drain(old(decoder.buffer)) == more.(frames := frames + ([frame.value] + more.frames)))
      invariant frame.None? && old(decoder.error).None? ==>
        Drain(old(decoder.buffer)) == Decoded(frames, decoder.buffer, decoder.error)
      invariant old(decoder.error).Some? ==>
        frame.None? && frames == [] && decoder.error == old(decoder.error) && decoder.buffer == old(decoder.buffer)
      decreases if frame.Some? then 1 + |decoder.buffer| else 0
    {
      Regroup(frames, [frame.value], Drain(decoder.buffer).frames);
      frames := frames + [frame.value];
      frame := decoder.Next();
    }
  }

  /** `MemorySink::frames`: everything written so far, decoded. */
  method DecodeWritten(written: seq<Bytes>) returns (decoded: seq<Frame>)
    ensures decoded == Drain(Concat(written)).frames
  {
    var decoder := new FrameDecoder();
    decoded := [];
    for i := 0 to |written|
      invariant var rest := AbsorbAll(decoder.buffer, decoder.error, written[i..]);
                decoded + rest.frames == AbsorbAll([], None, written).frames
    {
      assert written[i..][1..] == written[i + 1..];
      ghost var sofar := decoded;
      decoder.Feed(written[i]);
      var frames := TakeAll(decoder);
      decoded := decoded + frames;
      Regroup(sofar, frames, AbsorbAll(decoder.buffer, decoder.error, written[i + 1..]).frames);
    }
    assert decoded + [] == decoded;
    ChunksDoNotMatter(written);
  }
}
