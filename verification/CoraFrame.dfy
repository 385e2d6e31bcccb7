/** CORA frames and the reader that cuts a TCP byte stream back into them. */
module CoraFrames {
  import opened Bits
  import opened Sequences

  const MAGIC: seq<byte> := [0x43, 0x93, 0x8a, 0x41]
  const HEADER_SIZE := 16
  const MAX_RECEIVE_BUFFER := 131072
  const MAX_PAYLOAD := MAX_RECEIVE_BUFFER - HEADER_SIZE

  datatype Frame = Frame(flags: nat, hidOp: nat, messageId: nat, payload: seq<byte>)

  datatype Option<T> = None | Some(value: T)

  // ---------------------------------------------------------------- encoding

  function LittleEndian(v: nat, n: nat): (r: seq<byte>)
    ensures |r| == n
  {
    if n == 0 then [] else [v % 256] + LittleEndian(v / 256, n - 1)
  }

  function ReadLittleEndian(s: seq<byte>): nat
  {
    if s == [] then 0 else s[0] + 256 * ReadLittleEndian(s[1..])
  }

  lemma {:induction false} ReadBack(v: nat, n: nat)
    requires v < Pow256(n)
    ensures ReadLittleEndian(LittleEndian(v, n)) == v
  {
    if n > 0 {
      assert v / 256 < Pow256(n - 1);
      ReadBack(v / 256, n - 1);
    }
  }

  /** encodeCoraFrame: a field outside its width is a range error. */
  function EncodeCoraFrame(payload: seq<byte>, flags: int, hidOp: int, messageId: int): Option<seq<byte>>
  {
    if 0 <= flags < 0x1_0000 && 0 <= hidOp < 0x100 && 0 <= messageId < 0x1_0000_0000 && |payload| < 0x1_0000_0000 then
      Some(MAGIC + LittleEndian(flags, 2) + [hidOp] + [0] + LittleEndian(messageId, 4) + LittleEndian(|payload|, 4)
           + payload)
    else None
  }

  /** The number that two bytes stand for, the low one first. */
  function Two(low: byte, high: byte): nat
  {
    low + 0x100 * high
  }

  /** The number that four bytes stand for, the lowest one first. */
  function Four(a: byte, b: byte, c: byte, d: byte): nat
  {
    a + 0x100 * b + 0x1_0000 * c + 0x100_0000 * d
  }

  lemma ReadTwo(s: seq<byte>)
    requires |s| == 2
    ensures ReadLittleEndian(s) == Two(s[0], s[1])
  {
    assert ReadLittleEndian(s[1..]) == s[1] + 256 * ReadLittleEndian(s[1..][1..]);
  }

  lemma ReadFour(s: seq<byte>)
    requires |s| == 4
    ensures ReadLittleEndian(s) == Four(s[0], s[1], s[2], s[3])
  {
    ReadTwo(s[2..]);
    assert s[1..][1..] == s[2..];
    assert ReadLittleEndian(s[1..]) == s[1] + 256 * ReadLittleEndian(s[2..]);
  }

  /** The header of a frame, byte by byte, and the payload behind it. */
  predicate HasLayout(b: seq<byte>, payload: seq<byte>, flags: int, hidOp: int, messageId: int)
  {
    && |b| == 16 + |payload| && b[..4] == [0x43, 0x93, 0x8a, 0x41] && Two(b[4], b[5]) == flags
    && b[6] == hidOp && b[7] == 0 && Four(b[8], b[9], b[10], b[11]) == messageId
    && Four(b[12], b[13], b[14], b[15]) == |payload| && b[16..] == payload
  }

  /** A frame is encoded in that layout exactly if there are bytes with that layout: if its fields fit. */
  lemma EncodedLayout(payload: seq<byte>, flags: int, hidOp: int, messageId: int)
    ensures var e := EncodeCoraFrame(payload, flags, hidOp, messageId);
            e.Some? ==> HasLayout(e.value, payload, flags, hidOp, messageId)
    ensures EncodeCoraFrame(payload, flags, hidOp, messageId).None? ==>
              forall b :: !HasLayout(b, payload, flags, hidOp, messageId)
  {
    var e := EncodeCoraFrame(payload, flags, hidOp, messageId);
    if e.Some? {
      var b := e.value;
      var f, m, n := LittleEndian(flags, 2), LittleEndian(messageId, 4), LittleEndian(|payload|, 4);
      assert b[4..6] == f && b[8..12] == m && b[12..16] == n;
      assert Pow256(2) == 0x1_0000 && Pow256(4) == 0x1_0000_0000;
      ReadBack(flags, 2);
      ReadBack(messageId, 4);
      ReadBack(|payload|, 4);
      ReadTwo(f);
      ReadFour(m);
      ReadFour(n);
    }
  }

  // ---------------------------------------------------------------- decoding

  /** The magic stands at position i. */
  predicate MagicAt(s: seq<byte>, i: nat)
  {
    i + 4 <= |s| && s[i..i + 4] == MAGIC
  }

  /** The payload length that a header declares. */
  function DeclaredLength(buf: seq<byte>): nat
    requires |buf| >= HEADER_SIZE
  {
    ReadLittleEndian(buf[12..16])
  }

  /** tryDecodeCoraFrame. */
  function TryDecode(buf: seq<byte>): Option<Frame>
  {
    if |buf| < HEADER_SIZE || !MagicAt(buf, 0) then None
    else if |buf| < HEADER_SIZE + DeclaredLength(buf) then None
    else
      Some(Frame(ReadLittleEndian(buf[4..6]), buf[6], ReadLittleEndian(buf[8..12]),
                 buf[HEADER_SIZE..HEADER_SIZE + DeclaredLength(buf)]))
  }

  function FrameTotalLength(f: Frame): nat
  {
    HEADER_SIZE + |f.payload|
  }

  /** An encoded frame decodes to itself, whatever follows. */
  lemma DecodeEncoded(payload: seq<byte>, flags: int, hidOp: int, messageId: int, rest: seq<byte>)
    requires EncodeCoraFrame(payload, flags, hidOp, messageId).Some?
    ensures var bytes := EncodeCoraFrame(payload, flags, hidOp, messageId).value;
            && |bytes| == HEADER_SIZE + |payload| && MagicAt(bytes + rest, 0)
            && DeclaredLength(bytes + rest) == |payload|
            && TryDecode(bytes + rest) == Some(Frame(flags, hidOp, messageId, payload))
  {
    var buf := EncodeCoraFrame(payload, flags, hidOp, messageId).value + rest;
    assert buf[0..4] == MAGIC;
    assert buf[4..6] == LittleEndian(flags, 2);
    assert buf[8..12] == LittleEndian(messageId, 4);
    assert buf[12..16] == LittleEndian(|payload|, 4);
    assert buf[16..16 + |payload|] == payload;
    assert Pow256(2) == 0x1_0000;
    assert Pow256(4) == 0x1_0000_0000;
    ReadBack(flags, 2);
    ReadBack(messageId, 4);
    ReadBack(|payload|, 4);
  }

  // ---------------------------------------------------------------- the one-shot decoder

  /** All frames of a stream, found one byte at a time: where no frame header starts, skip a byte;
      skip a header that declares more than a buffer can hold; stop at the first incomplete frame. */
  function Frames(s: seq<byte>): seq<Frame>
    decreases |s|
  {
    if |s| < HEADER_SIZE then []
    else if !MagicAt(s, 0) then Frames(s[1..])
    else if DeclaredLength(s) > MAX_PAYLOAD then Frames(s[HEADER_SIZE..])
    else
      match TryDecode(s)
      case None => []
      case Some(f) => [f] + Frames(s[FrameTotalLength(f)..])
  }

  // ---------------------------------------------------------------- the reader

  /** indexOf: the first position from `from` on where the magic stands. */
  function IndexOfMagic(s: seq<byte>, from: nat): (r: Option<nat>)
    ensures r.Some? ==> from <= r.value && MagicAt(s, r.value) && forall i :: from <= i < r.value ==> !MagicAt(s, i)
    ensures r.None? ==> forall i :: from <= i ==> !MagicAt(s, i)
    decreases |s| - from
  {
    if from + 4 > |s| then None
    else if MagicAt(s, from) then Some(from)
    else IndexOfMagic(s, from + 1)
  }

  datatype Drained = Drained(frames: seq<Frame>, rest: seq<byte>)

  function Prepend(f: Frame, d: Drained): Drained
  {
    Drained([f] + d.frames, d.rest)
  }

  /** What drainFrames makes of a buffer. */
  function Drain(buf: seq<byte>): Drained
    decreases |buf|
  {
    if |buf| < HEADER_SIZE then Drained([], buf)
    else if !MagicAt(buf, 0) then
      match IndexOfMagic(buf, 1)
      case None => Drained([], buf[|buf| - 3..])
      case Some(i) => Drain(buf[i..])
    else if DeclaredLength(buf) > MAX_PAYLOAD then Drain(buf[HEADER_SIZE..])
    else
      match TryDecode(buf)
      case None => Drained([], buf)
      case Some(f) => Prepend(f, Drain(buf[FrameTotalLength(f)..]))
  }

  function LastBytes(s: seq<byte>): (r: seq<byte>)
    ensures |r| <= MAX_RECEIVE_BUFFER
  {
    if |s| > MAX_RECEIVE_BUFFER then s[|s| - MAX_RECEIVE_BUFFER..] else s
  }

  class CoraFrameReader {
    var buffer: seq<byte>

    constructor ()
      ensures buffer == []
    {
      buffer := [];
    }

    /** Keeps the last MAX_RECEIVE_BUFFER bytes received and not yet drained. */
    method Append(chunk: seq<byte>)
      modifies this
      ensures buffer == LastBytes(old(buffer) + chunk)
    {
      var total := |buffer| + |chunk|;
      var incoming := chunk;
      if total > MAX_RECEIVE_BUFFER {
        var dropped := total - MAX_RECEIVE_BUFFER;
        if dropped >= |buffer| {
          incoming := chunk[dropped - |buffer|..];
          buffer := [];
        } else {
          buffer := buffer[dropped..];
        }
      }
      buffer := if |buffer| == 0 then incoming else buffer + incoming;
    }

    method ResyncToMagic() returns (found: bool)
      requires |buffer| >= HEADER_SIZE && !MagicAt(buffer, 0)
      modifies this
      ensures found ==> |buffer| < |old(buffer)| && Drain(buffer) == Drain(old(buffer))
      ensures !found ==> Drain(old(buffer)) == Drained([], buffer)
    {
      var index := IndexOfMagic(buffer, 1);
      if index == None {
        if |buffer| >= HEADER_SIZE {
          buffer := buffer[|buffer| - 3..];
        }
        return false;
      }
      buffer := buffer[index.value..];
      return true;
    }

    method DrainFrames() returns (frames: seq<Frame>)
      modifies this
      ensures Drained(frames, buffer) == Drain(old(buffer))
    {
      frames := [];
      while |buffer| >= HEADER_SIZE
        invariant Drain(old(buffer)) == Drained(frames + Drain(buffer).frames, Drain(buffer).rest)
        decreases |buffer|
      {
        if !MagicAt(buffer, 0) {
          var found := ResyncToMagic();
          if !found {
            assert frames + [] == frames;
            return;
          }
          continue;
        }
        if DeclaredLength(buffer) > MAX_RECEIVE_BUFFER - HEADER_SIZE {
          buffer := buffer[HEADER_SIZE..];
          continue;
        }
        var frame := TryDecode(buffer);
        if frame == None {
          assert frames + [] == frames;
          return;
        }
        ConcatAssoc(frames, [frame.value], Drain(buffer[FrameTotalLength(frame.value)..]).frames);
        buffer := buffer[FrameTotalLength(frame.value)..];
        frames := frames + [frame.value];
      }
      assert frames + [] == frames;
    }
  }

  // ---------------------------------------------------------------- the reader refines the one-shot decoder

  /** Bytes at which no magic stands can be skipped. */
  lemma {:induction false} SkipJunk(s: seq<byte>, n: nat)
    requires n <= |s| && forall i :: 0 <= i < n ==> !MagicAt(s, i)
    ensures Frames(s) == Frames(s[n..])
  {
    if n > 0 {
      var tail := s[1..];
      forall i | 0 <= i < n - 1 ensures !MagicAt(tail, i) {
        assert !MagicAt(s, i + 1);
        assert i + 4 <= |tail| ==> tail[i..i + 4] == s[i + 1..i + 5];
      }
      SkipJunk(tail, n - 1);
      assert tail[n - 1..] == s[n..];
      assert !MagicAt(s, 0);
      if |s| < HEADER_SIZE {
        ShortStream(s[n..]);
      }
    } else {
      assert s[0..] == s;
    }
  }

  lemma ShortStream(s: seq<byte>)
    requires |s| < HEADER_SIZE
    ensures Frames(s) == []
  {
  }

  /** Whether the magic stands inside the buffer does not depend on what follows it. */
  lemma MagicInside(buf: seq<byte>, more: seq<byte>, i: nat)
    requires i + 4 <= |buf|
    ensures MagicAt(buf + more, i) == MagicAt(buf, i)
  {
    assert (buf + more)[i..i + 4] == buf[i..i + 4];
  }

  lemma HeaderInside(buf: seq<byte>, more: seq<byte>)
    requires |buf| >= HEADER_SIZE
    ensures MagicAt(buf + more, 0) == MagicAt(buf, 0) && DeclaredLength(buf + more) == DeclaredLength(buf)
    ensures (buf + more)[HEADER_SIZE..] == buf[HEADER_SIZE..] + more
  {
    MagicInside(buf, more, 0);
    assert (buf + more)[12..16] == buf[12..16];
  }

  lemma FrameInside(buf: seq<byte>, more: seq<byte>)
    requires TryDecode(buf).Some?
    ensures TryDecode(buf + more) == TryDecode(buf)
    ensures var n := FrameTotalLength(TryDecode(buf).value);
            n <= |buf| && (buf + more)[n..] == buf[n..] + more
  {
    HeaderInside(buf, more);
    var n := HEADER_SIZE + DeclaredLength(buf);
    assert (buf + more)[4..6] == buf[4..6] && (buf + more)[8..12] == buf[8..12];
    assert (buf + more)[HEADER_SIZE..n] == buf[HEADER_SIZE..n];
  }

  lemma SkipInside(buf: seq<byte>, more: seq<byte>, n: nat)
    requires (n == 0 || n + 3 <= |buf|) && forall i :: 0 <= i < n ==> !MagicAt(buf, i)
    ensures Frames(buf + more) == Frames(buf[n..] + more)
  {
    forall i | 0 <= i < n ensures !MagicAt(buf + more, i) {
      MagicInside(buf, more, i);
    }
    SkipJunk(buf + more, n);
    assert (buf + more)[n..] == buf[n..] + more;
  }

  /** Draining emits the first frames of the stream and keeps a buffer from which, whatever arrives,
      the others still come out. */
  lemma {:induction false} DrainKeepsFrames(buf: seq<byte>, more: seq<byte>)
    ensures Frames(buf + more) == Drain(buf).frames + Frames(Drain(buf).rest + more)
    decreases |buf|
  {
    if |buf| < HEADER_SIZE {
    } else if !MagicAt(buf, 0) {
      match IndexOfMagic(buf, 1)
      case None =>
        SkipInside(buf, more, |buf| - 3);
      case Some(n) =>
        SkipInside(buf, more, n);
        DrainKeepsFrames(buf[n..], more);
    } else {
      HeaderInside(buf, more);
      if DeclaredLength(buf) > MAX_PAYLOAD {
        DrainKeepsFrames(buf[HEADER_SIZE..], more);
      } else {
        match TryDecode(buf)
        case None =>
        case Some(f) =>
          FrameInside(buf, more);
          var rest := buf[FrameTotalLength(f)..];
          DrainKeepsFrames(rest, more);
          ConcatAssoc([f], Drain(rest).frames, Frames(Drain(rest).rest + more));
      }
    }
  }

  /** What a drained buffer can be: too short for a header, or the start of one incomplete frame that
      fits the buffer. */
  predicate Waiting(buf: seq<byte>)
  {
    |buf| < HEADER_SIZE ||
    (MagicAt(buf, 0) && DeclaredLength(buf) <= MAX_PAYLOAD && |buf| < HEADER_SIZE + DeclaredLength(buf))
  }

  lemma {:induction false} DrainWaits(buf: seq<byte>)
    ensures Waiting(Drain(buf).rest) && |Drain(buf).rest| <= |buf|
    ensures |Drain(buf).rest| < MAX_RECEIVE_BUFFER
    decreases |buf|
  {
    if |buf| >= HEADER_SIZE {
      if !MagicAt(buf, 0) {
        match IndexOfMagic(buf, 1)
        case None =>
        case Some(i) => DrainWaits(buf[i..]);
      } else if DeclaredLength(buf) > MAX_PAYLOAD {
        DrainWaits(buf[HEADER_SIZE..]);
      } else {
        match TryDecode(buf)
        case None =>
        case Some(f) => DrainWaits(buf[FrameTotalLength(f)..]);
      }
    }
  }

  lemma WaitingHasNoFrames(buf: seq<byte>)
    requires Waiting(buf)
    ensures Frames(buf) == []
  {
  }

  /** Draining a whole buffer emits exactly what the one-shot decoder finds in it. */
  lemma DrainIsFrames(buf: seq<byte>)
    ensures Drain(buf).frames == Frames(buf)
  {
    DrainKeepsFrames(buf, []);
    DrainWaits(buf);
    var d := Drain(buf);
    assert buf + [] == buf && d.rest + [] == d.rest;
    WaitingHasNoFrames(d.rest);
    assert d.frames + [] == d.frames;
  }

  // ---------------------------------------------------------------- whole runs

  /** What a connection does to its reader. */
  datatype Step = Append(chunk: seq<byte>) | DrainFrames

  datatype ReaderState = ReaderState(buffer: seq<byte>, emitted: seq<Frame>)

  function Next(st: ReaderState, step: Step): ReaderState
  {
    match step
    case Append(chunk) => ReaderState(LastBytes(st.buffer + chunk), st.emitted)
    case DrainFrames => ReaderState(Drain(st.buffer).rest, st.emitted + Drain(st.buffer).frames)
  }

  function Run(st: ReaderState, steps: seq<Step>): ReaderState
    decreases |steps|
  {
    if steps == [] then st else Run(Next(st, steps[0]), steps[1..])
  }

  /** The bytes that arrive over a run. */
  function Stream(steps: seq<Step>): seq<byte>
  {
    if steps == [] then []
    else (match steps[0] case Append(chunk) => chunk case DrainFrames => []) + Stream(steps[1..])
  }

  /** No append of the run makes the buffer drop bytes. */
  predicate WithinCap(st: ReaderState, steps: seq<Step>)
    decreases |steps|
  {
    steps == [] ||
    ((steps[0].Append? ==> |st.buffer| + |steps[0].chunk| <= MAX_RECEIVE_BUFFER)
     && WithinCap(Next(st, steps[0]), steps[1..]))
  }

  lemma StepKeepsFrames(st: ReaderState, step: Step, more: seq<byte>)
    requires step.Append? ==> |st.buffer| + |step.chunk| <= MAX_RECEIVE_BUFFER
    ensures var arrived := if step.Append? then step.chunk else [];
            st.emitted + Frames(st.buffer + (arrived + more))
              == Next(st, step).emitted + Frames(Next(st, step).buffer + more)
  {
    match step
    case Append(chunk) =>
      ConcatAssoc(st.buffer, chunk, more);
    case DrainFrames =>
      var d := Drain(st.buffer);
      assert [] + more == more;
      DrainKeepsFrames(st.buffer, more);
      ConcatAssoc(st.emitted, d.frames, Frames(d.rest + more));
  }

  /** Conservation: over any run within the cap, what has been emitted and what is still to come out of
      the buffer are the frames of the whole stream. */
  lemma {:induction false} RunKeepsFrames(st: ReaderState, steps: seq<Step>, more: seq<byte>)
    requires WithinCap(st, steps)
    ensures var end := Run(st, steps);
            end.emitted + Frames(end.buffer + more) == st.emitted + Frames(st.buffer + (Stream(steps) + more))
    decreases |steps|
  {
    if steps == [] {
      assert [] + more == more;
    } else {
      var step := steps[0];
      var arrived := match step case Append(chunk) => chunk case DrainFrames => [];
      RunKeepsFrames(Next(st, step), steps[1..], more);
      StepKeepsFrames(st, step, Stream(steps[1..]) + more);
      ConcatAssoc(arrived, Stream(steps[1..]), more);
    }
  }

  const START := ReaderState([], [])

  /** The run ends by draining. */
  predicate EndsDrained(steps: seq<Step>)
  {
    |steps| > 0 && steps[|steps| - 1] == DrainFrames
  }

  lemma {:induction false} DrainedLast(st: ReaderState, steps: seq<Step>)
    requires EndsDrained(steps)
    ensures Waiting(Run(st, steps).buffer) && |Run(st, steps).buffer| < MAX_RECEIVE_BUFFER
    decreases |steps|
  {
    if |steps| == 1 {
      DrainWaits(st.buffer);
      assert steps[1..] == [];
    } else {
      assert steps[1..][|steps| - 2] == steps[|steps| - 1];
      DrainedLast(Next(st, steps[0]), steps[1..]);
    }
  }

  /** Whatever arrives, the buffer never outgrows the cap. */
  lemma {:induction false} BufferBounded(st: ReaderState, steps: seq<Step>)
    requires |st.buffer| <= MAX_RECEIVE_BUFFER
    ensures |Run(st, steps).buffer| <= MAX_RECEIVE_BUFFER
    decreases |steps|
  {
    if steps != [] {
      DrainWaits(st.buffer);
      BufferBounded(Next(st, steps[0]), steps[1..]);
    }
  }

  /** Refinement: a reader that never overflows emits, by the time it has drained, exactly the frames
      that a one-shot decoder finds in the whole stream. */
  lemma ReaderEmitsFrames(steps: seq<Step>)
    requires WithinCap(START, steps) && EndsDrained(steps)
    ensures Run(START, steps).emitted == Frames(Stream(steps))
  {
    var end := Run(START, steps);
    RunKeepsFrames(START, steps, []);
    DrainedLast(START, steps);
    WaitingHasNoFrames(end.buffer);
    assert end.buffer + [] == end.buffer && end.emitted + [] == end.emitted;
    assert [] + (Stream(steps) + []) == Stream(steps);
  }

  /** Two ways of cutting one stream into appends and drains emit the same frames. */
  lemma ChunkingIndependent(a: seq<Step>, b: seq<Step>)
    requires WithinCap(START, a) && EndsDrained(a) && WithinCap(START, b) && EndsDrained(b)
    requires Stream(a) == Stream(b)
    ensures Run(START, a).emitted == Run(START, b).emitted
  {
    ReaderEmitsFrames(a);
    ReaderEmitsFrames(b);
  }

  // ---------------------------------------------------------------- round trip with resynchronisation

  /** An encodable frame and the bytes in front of it. */
  datatype Part = Part(junk: seq<byte>, frame: Frame)

  function Encoded(f: Frame): Option<seq<byte>>
  {
    EncodeCoraFrame(f.payload, f.flags, f.hidOp, f.messageId)
  }

  predicate MagicFree(s: seq<byte>)
  {
    forall i :: 0 <= i < |s| ==> !MagicAt(s, i)
  }

  /** The junk holds no magic and the frame can be encoded and received. */
  predicate Sendable(part: Part)
  {
    MagicFree(part.junk) && Encoded(part.frame).Some? && |part.frame.payload| <= MAX_PAYLOAD
  }

  predicate AllSendable(parts: seq<Part>)
  {
    forall i :: 0 <= i < |parts| ==> Sendable(parts[i])
  }

  function Sent(parts: seq<Part>, trailing: seq<byte>): seq<byte>
    requires AllSendable(parts)
  {
    if parts == [] then trailing
    else parts[0].junk + (Encoded(parts[0].frame).value + Sent(parts[1..], trailing))
  }

  function FramesOf(parts: seq<Part>): seq<Frame>
  {
    if parts == [] then [] else [parts[0].frame] + FramesOf(parts[1..])
  }

  /** The magic has no border: where it starts behind magic-free junk, it cannot start inside the junk. */
  lemma NoStraddle(junk: seq<byte>, tail: seq<byte>, i: nat)
    requires MagicFree(junk) && MagicAt(tail, 0) && i < |junk|
    ensures !MagicAt(junk + tail, i)
  {
    var s := junk + tail;
    if i + 4 <= |junk| {
      MagicInside(junk, tail, i);
    } else if i + 4 <= |s| {
      var k := |junk| - i;
      assert s[i..i + 4][k] == tail[0..4][0] == MAGIC[0];
      assert MAGIC[k] != MAGIC[0];
    }
  }

  lemma JunkBefore(junk: seq<byte>, tail: seq<byte>)
    requires MagicFree(junk) && MagicAt(tail, 0)
    ensures Frames(junk + tail) == Frames(tail)
  {
    forall i | 0 <= i < |junk| ensures !MagicAt(junk + tail, i) {
      NoStraddle(junk, tail, i);
    }
    SkipJunk(junk + tail, |junk|);
    assert (junk + tail)[|junk|..] == tail;
  }

  /** Frames with magic-free junk before, between and behind them are recovered exactly and in order,
      also when a payload contains the magic. */
  lemma {:induction false} SentFrames(parts: seq<Part>, trailing: seq<byte>)
    requires AllSendable(parts) && MagicFree(trailing)
    ensures Frames(Sent(parts, trailing)) == FramesOf(parts)
    decreases |parts|
  {
    if parts == [] {
      SkipJunk(trailing, |trailing|);
    } else {
      var f, rest := parts[0].frame, Sent(parts[1..], trailing);
      SentFrames(parts[1..], trailing);
      DecodeEncoded(f.payload, f.flags, f.hidOp, f.messageId, rest);
      var tail := Encoded(f).value + rest;
      JunkBefore(parts[0].junk, tail);
      assert tail[FrameTotalLength(f)..] == rest;
    }
  }

  /** However the bytes are cut into appends and drains within the cap, the reader recovers the frames. */
  lemma ResyncRoundTrip(parts: seq<Part>, trailing: seq<byte>, steps: seq<Step>)
    requires AllSendable(parts) && MagicFree(trailing) && Stream(steps) == Sent(parts, trailing)
    requires WithinCap(START, steps) && EndsDrained(steps)
    ensures Run(START, steps).emitted == FramesOf(parts)
  {
    ReaderEmitsFrames(steps);
    SentFrames(parts, trailing);
  }
}
