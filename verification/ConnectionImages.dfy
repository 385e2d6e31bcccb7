/** From the bytes of a connection to its images: the frame reader and the image assembler together. */
module ConnectionImages {
  import opened AssemblyBudgets
  import CoraFrames
  import opened ImageAssembly

  const PAYLOAD_TYPE_OUTPUT_REPORT := 0x02
  const HID_OP_SEND_REPORT := 0x01
  const HID_OP_GET_REPORT := 0x02

  // ---------------------------------------------------------------- what a frame asks for

  /** routeChildPacket, as far as it leads to images: an output report that is no get or send of a report. No
      verbatim probe starts with the byte of an output report. */
  function FrameCommand(keyCount: nat, f: CoraFrames.Frame): Command
  {
    if f.payload == [] || f.payload[0] != PAYLOAD_TYPE_OUTPUT_REPORT then Ignore
    else if f.hidOp == HID_OP_GET_REPORT || f.hidOp == HID_OP_SEND_REPORT then Ignore
    else ReportCommand(keyCount, if |f.payload| > 1 then f.payload[1] else 0, f.payload)
  }

  function FrameCommands(keyCount: nat, frames: seq<CoraFrames.Frame>): seq<Command>
  {
    if frames == [] then [] else [FrameCommand(keyCount, frames[0])] + FrameCommands(keyCount, frames[1..])
  }

  /** Every frame is handled at its own time of the clock. */
  function FrameInputs(keyCount: nat, frames: seq<CoraFrames.Frame>, times: seq<int>): seq<Input>
    requires |times| == |frames|
  {
    if frames == [] then []
    else [Packet(FrameCommand(keyCount, frames[0]), times[0])] + FrameInputs(keyCount, frames[1..], times[1..])
  }

  lemma {:induction false} CommandsOfFrames(keyCount: nat, frames: seq<CoraFrames.Frame>, times: seq<int>)
    requires |times| == |frames|
    ensures Commands(FrameInputs(keyCount, frames, times)) == FrameCommands(keyCount, frames)
    decreases |frames|
  {
    if frames != [] {
      CommandsOfFrames(keyCount, frames[1..], times[1..]);
      assert FrameInputs(keyCount, frames, times)[1..] == FrameInputs(keyCount, frames[1..], times[1..]);
    }
  }

  /** Frames with magic-free junk around them, cut into appends and drains in any way within the cap, yield
      for every key and region the joined bodies of its own packets, if no cap trips and nothing expires. */
  lemma StreamImages(keyCount: nat, parts: seq<CoraFrames.Part>, trailing: Bytes, steps: seq<CoraFrames.Step>,
                     start: int, times: seq<int>, slot: Slot)
    requires CoraFrames.AllSendable(parts) && CoraFrames.MagicFree(trailing)
    requires CoraFrames.Stream(steps) == CoraFrames.Sent(parts, trailing)
    requires CoraFrames.WithinCap(CoraFrames.START, steps) && CoraFrames.EndsDrained(steps)
    requires |times| == |CoraFrames.FramesOf(parts)| && slot.owner != Gen1ImagePages
    requires QuietRun(EMPTY, start, FrameInputs(keyCount, CoraFrames.FramesOf(parts), times))
    ensures CoraFrames.Run(CoraFrames.START, steps).emitted == CoraFrames.FramesOf(parts)
    ensures var inputs := FrameInputs(keyCount, CoraFrames.Run(CoraFrames.START, steps).emitted, times);
            DataOf(EventsAt(slot, Run(EMPTY, inputs).events))
            == Bodies([], For(slot, FrameCommands(keyCount, CoraFrames.FramesOf(parts))))
  {
    var frames := CoraFrames.FramesOf(parts);
    CoraFrames.ResyncRoundTrip(parts, trailing, steps);
    InterleavingIndependent(start, FrameInputs(keyCount, frames, times), slot);
    CommandsOfFrames(keyCount, frames, times);
    AloneBodies(slot, [], For(slot, FrameCommands(keyCount, frames)));
  }

  // ---------------------------------------------------------------- where the chunks of an image go

  datatype Chunk = Chunk(body: Bytes, last: bool)

  /** The chunks of one image: a body each, the last one flagged. */
  function CutOne(bodies: seq<Bytes>): seq<Chunk>
  {
    if bodies == [] then [] else [Chunk(bodies[0], |bodies| == 1)] + CutOne(bodies[1..])
  }

  function Cut(images: seq<seq<Bytes>>): seq<Chunk>
  {
    if images == [] then [] else CutOne(images[0]) + Cut(images[1..])
  }

  /** What an image is for: a key, a gen1 key, the window strip under an index, or a region of the window. */
  datatype Target = Key(key: nat) | Gen1Key(key: nat) | Strip(index: nat) | Rectangle(region: Region)

  /** A target that a device with so many keys has. */
  predicate OnDevice(keyCount: nat, target: Target)
  {
    match target
    case Key(key) => key < keyCount
    case Gen1Key(key) => key < keyCount
    case Strip(_) => true
    case Rectangle(region) => InWindow(region)
  }

  function SlotOf(target: Target): Slot
  {
    match target
    case Key(key) => Slot(ImagePages, key)
    case Gen1Key(key) => Slot(Gen1ImagePages, key)
    case Strip(index) => Slot(WindowPages, index)
    case Rectangle(region) => Slot(PartialPages, RegionKey(region))
  }

  /** A gen2 packet: an index in byte 2, the last flag in byte 3, the length of the body in bytes 4 and 5, the low
      one first, and the body behind eight bytes of header, which only a last packet may lack. */
  predicate IsGen2Packet(p: Bytes, index: nat, chunk: Chunk)
  {
    var n := |chunk.body|;
    && |p| >= 8 + n && p[2] == index && (p[3] == IMAGE_CHUNK_LAST_FLAG <==> chunk.last)
    && CoraFrames.Two(p[4], p[5]) == n && p[8..8 + n] == chunk.body && (chunk.last || n > 0)
  }

  /** A report that carries a chunk for a target: its command in byte 1, and the packet of that command. */
  predicate Carries(p: Bytes, target: Target, chunk: Chunk)
  {
    && |p| > 1
    && match target
       case Key(key) => p[1] == 0x07 && IsGen2Packet(p, key, chunk)
       case Gen1Key(key) => p[1] == 0x01 && IsGen1Packet(p, key, chunk.body, chunk.last)
       case Strip(index) => p[1] == 0x0B && IsGen2Packet(p, index, chunk)
       case Rectangle(region) => p[1] == 0x0C && IsPartialPacket(p, region, chunk.body, chunk.last)
  }

  /** A frame with such a report: an output report that is no get or send of a report. */
  predicate IsFrameFor(f: CoraFrames.Frame, target: Target, chunk: Chunk)
  {
    && Carries(f.payload, target, chunk) && f.payload[0] == PAYLOAD_TYPE_OUTPUT_REPORT
    && f.hidOp != HID_OP_GET_REPORT && f.hidOp != HID_OP_SEND_REPORT
  }

  lemma Gen2PacketFeeds(owner: Owner, maxPages: nat, p: Bytes, index: nat, chunk: Chunk)
    requires IsGen2Packet(p, index, chunk)
    ensures ParseGen2(owner, maxPages, p) == Feed(Slot(owner, index), chunk.body, chunk.last, maxPages)
  {
    CoraFrames.ReadTwo(p[4..6]);
  }

  /** Any other gen2 packet feeds nothing: without an index it is ignored, and otherwise it drops the assembly that
      it names. */
  lemma Gen2PacketRefused(owner: Owner, maxPages: nat, p: Bytes)
    requires |p| > 2 ==> forall chunk :: !IsGen2Packet(p, p[2], chunk)
    ensures ParseGen2(owner, maxPages, p) == if |p| <= 2 then Ignore else Drop(Slot(owner, p[2]))
  {
    var cmd := ParseGen2(owner, maxPages, p);
    if cmd.Feed? {
      CoraFrames.ReadTwo(p[4..6]);
      assert IsGen2Packet(p, p[2], Chunk(cmd.chunk, cmd.last));
    }
  }

  /** So does any other gen1 packet, which counts its keys from 1. */
  lemma Gen1PacketRefused(p: Bytes, key: nat)
    requires |p| > 5 ==> p[5] == key + 1 && forall body, last :: !IsGen1Packet(p, key, body, last)
    ensures ParseGen1(p) == if |p| <= 5 then Ignore else Drop(Slot(Gen1ImagePages, key))
  {
    var cmd := ParseGen1(p);
    if cmd.Feed? {
      assert IsGen1Packet(p, key, cmd.chunk, cmd.last);
    }
  }

  /** A report for a target of the device feeds its chunk to the target's slot, in a map with its own cap. */
  lemma ReportFeeds(keyCount: nat, p: Bytes, target: Target, chunk: Chunk)
    requires Carries(p, target, chunk) && OnDevice(keyCount, target)
    ensures ReportCommand(keyCount, p[1], p)
         == Feed(SlotOf(target), chunk.body, chunk.last, MapCap(SlotOf(target).owner))
  {
    match target
    case Key(key) => Gen2PacketFeeds(ImagePages, 0, p, key, chunk);
    case Gen1Key(key) => Gen1PacketFeeds(p, key, chunk.body, chunk.last);
    case Strip(index) => Gen2PacketFeeds(WindowPages, 2, p, index, chunk);
    case Rectangle(region) => PartialPacketFeeds(p, region, chunk.body, chunk.last);
  }

  // ---------------------------------------------------------------- from frames to images

  /** The frames that concern a slot. */
  function OwnFrames(keyCount: nat, slot: Slot, frames: seq<CoraFrames.Frame>): seq<CoraFrames.Frame>
  {
    if frames == [] then []
    else
      (if IsFor(slot, FrameCommand(keyCount, frames[0])) then [frames[0]] else [])
      + OwnFrames(keyCount, slot, frames[1..])
  }

  predicate AreFramesFor(frames: seq<CoraFrames.Frame>, target: Target, chunks: seq<Chunk>)
  {
    |frames| == |chunks| && forall i :: 0 <= i < |frames| ==> IsFrameFor(frames[i], target, chunks[i])
  }

  function ChunkFeeds(slot: Slot, chunks: seq<Chunk>): seq<Command>
  {
    if chunks == [] then []
    else [Feed(slot, chunks[0].body, chunks[0].last, MapCap(slot.owner))] + ChunkFeeds(slot, chunks[1..])
  }

  lemma {:induction false} FramesFeed(keyCount: nat, frames: seq<CoraFrames.Frame>, target: Target, chunks: seq<Chunk>)
    requires AreFramesFor(frames, target, chunks) && OnDevice(keyCount, target)
    ensures FrameCommands(keyCount, frames) == ChunkFeeds(SlotOf(target), chunks)
    decreases |frames|
  {
    if frames != [] {
      assert IsFrameFor(frames[0], target, chunks[0]);
      ReportFeeds(keyCount, frames[0].payload, target, chunks[0]);
      FramesFeed(keyCount, frames[1..], target, chunks[1..]);
    }
  }

  lemma {:induction false} OwnCommands(keyCount: nat, slot: Slot, frames: seq<CoraFrames.Frame>)
    ensures For(slot, FrameCommands(keyCount, frames)) == FrameCommands(keyCount, OwnFrames(keyCount, slot, frames))
  {
    if frames != [] {
      OwnCommands(keyCount, slot, frames[1..]);
      var all := FrameCommands(keyCount, frames);
      assert all[1..] == FrameCommands(keyCount, frames[1..]);
      if IsFor(slot, all[0]) {
        assert OwnFrames(keyCount, slot, frames)[1..] == OwnFrames(keyCount, slot, frames[1..]);
      } else {
        assert OwnFrames(keyCount, slot, frames) == OwnFrames(keyCount, slot, frames[1..]);
      }
    }
  }

  /** The images a slot gives for the bodies sent to it. */
  function Delivered(slot: Slot, images: seq<seq<Bytes>>): seq<Event>
  {
    if images == [] then []
    else [Event(slot, Finished(slot.owner, WithChunks([], images[0])))] + Delivered(slot, images[1..])
  }

  lemma {:induction false} OneDelivered(slot: Slot, chunks: seq<Bytes>, bodies: seq<Bytes>, rest: seq<Chunk>)
    requires bodies != []
    ensures Alone(slot, chunks, ChunkFeeds(slot, CutOne(bodies) + rest))
         == [Event(slot, Finished(slot.owner, WithChunks(chunks, bodies)))] + Alone(slot, [], ChunkFeeds(slot, rest))
    decreases |bodies|
  {
    var all := CutOne(bodies) + rest;
    assert all[1..] == CutOne(bodies[1..]) + rest;
    assert ChunkFeeds(slot, all)[1..] == ChunkFeeds(slot, all[1..]);
    if |bodies| == 1 {
      assert CutOne(bodies[1..]) + rest == rest;
    } else {
      OneDelivered(slot, WithChunk(chunks, bodies[0]), bodies[1..], rest);
    }
  }

  lemma {:induction false} AllDelivered(slot: Slot, images: seq<seq<Bytes>>)
    requires forall i :: 0 <= i < |images| ==> images[i] != []
    ensures Alone(slot, [], ChunkFeeds(slot, Cut(images))) == Delivered(slot, images)
  {
    if images != [] {
      AllDelivered(slot, images[1..]);
      OneDelivered(slot, [], images[0], Cut(images[1..]));
    }
  }

  /** The images sent to a target in frames, whatever else is sent between them and however the bytes are split,
      come out of its slot once each and in order, if no cap trips and nothing expires. */
  lemma ImagesArrive(keyCount: nat, parts: seq<CoraFrames.Part>, trailing: Bytes, steps: seq<CoraFrames.Step>,
                     start: int, times: seq<int>, target: Target, images: seq<seq<Bytes>>)
    requires CoraFrames.AllSendable(parts) && CoraFrames.MagicFree(trailing)
    requires CoraFrames.Stream(steps) == CoraFrames.Sent(parts, trailing)
    requires CoraFrames.WithinCap(CoraFrames.START, steps) && CoraFrames.EndsDrained(steps)
    requires |times| == |CoraFrames.FramesOf(parts)| && OnDevice(keyCount, target)
    requires QuietRun(EMPTY, start, FrameInputs(keyCount, CoraFrames.FramesOf(parts), times))
    requires forall i :: 0 <= i < |images| ==> images[i] != []
    requires AreFramesFor(OwnFrames(keyCount, SlotOf(target), CoraFrames.FramesOf(parts)), target, Cut(images))
    ensures CoraFrames.Run(CoraFrames.START, steps).emitted == CoraFrames.FramesOf(parts)
    ensures var inputs := FrameInputs(keyCount, CoraFrames.Run(CoraFrames.START, steps).emitted, times);
            EventsAt(SlotOf(target), Run(EMPTY, inputs).events) == Delivered(SlotOf(target), images)
  {
    var slot, frames := SlotOf(target), CoraFrames.FramesOf(parts);
    CoraFrames.ResyncRoundTrip(parts, trailing, steps);
    InterleavingIndependent(start, FrameInputs(keyCount, frames, times), slot);
    CommandsOfFrames(keyCount, frames, times);
    OwnCommands(keyCount, slot, frames);
    FramesFeed(keyCount, OwnFrames(keyCount, slot, frames), target, Cut(images));
    AllDelivered(slot, images);
  }

  // ---------------------------------------------------------------- what the images are

  function JoinedAll(images: seq<seq<Bytes>>): seq<Bytes>
  {
    if images == [] then [] else [Joined(images[0])] + JoinedAll(images[1..])
  }

  /** A key, the strip and a region get the joined bodies of each image; the slot of a region tells the region. */
  lemma {:induction false} DeliveredWhole(target: Target, images: seq<seq<Bytes>>)
    requires !target.Gen1Key?
    ensures DataOf(Delivered(SlotOf(target), images)) == JoinedAll(images)
    ensures target.Rectangle? && InWindow(target.region) ==> KeyRegion(SlotOf(target).key) == target.region
  {
    if target.Rectangle? && InWindow(target.region) {
      RegionKeyInjective(target.region);
    }
    if images != [] {
      DeliveredWhole(target, images[1..]);
      WithChunksJoined([], images[0]);
      FinishedWhole(SlotOf(target).owner, WithChunks([], images[0]));
      assert [] + Joined(images[0]) == Joined(images[0]);
    }
  }

  /** The bodies of a BMP file and its padding, the first of them at least six bytes. */
  predicate PadsFile(bodies: seq<Bytes>, file: Bytes, padding: Bytes)
  {
    IsBmp(file) && bodies != [] && |bodies[0]| >= 6 && Joined(bodies) == file + padding
  }

  /** A gen1 key gets each BMP file without its padding. */
  lemma {:induction false} DeliveredFiles(key: nat, images: seq<seq<Bytes>>, files: seq<Bytes>, paddings: seq<Bytes>)
    requires |images| == |files| == |paddings|
    requires forall i :: 0 <= i < |images| ==> PadsFile(images[i], files[i], paddings[i])
    ensures DataOf(Delivered(SlotOf(Gen1Key(key)), images)) == files
    decreases |images|
  {
    if images != [] {
      var slot := SlotOf(Gen1Key(key));
      assert PadsFile(images[0], files[0], paddings[0]);
      forall i | 0 <= i < |images| - 1 ensures PadsFile(images[1..][i], files[1..][i], paddings[1..][i]) {
        assert PadsFile(images[i + 1], files[i + 1], paddings[i + 1]);
      }
      DeliveredFiles(key, images[1..], files[1..], paddings[1..]);
      Gen1ImageRecovered(slot, files[0], images[0], paddings[0]);
      FeedsAlone(slot, [], images[0], 0);
      assert files == [files[0]] + files[1..];
    }
  }

  /** The images sent to a key in frames, whatever else is sent between them and however the bytes are
      split, come out whole, once each and in order, if no cap trips and nothing expires. */
  lemma KeyImagesArrive(keyCount: nat, parts: seq<CoraFrames.Part>, trailing: Bytes, steps: seq<CoraFrames.Step>,
                        start: int, times: seq<int>, key: nat, images: seq<seq<Bytes>>)
    requires CoraFrames.AllSendable(parts) && CoraFrames.MagicFree(trailing)
    requires CoraFrames.Stream(steps) == CoraFrames.Sent(parts, trailing)
    requires CoraFrames.WithinCap(CoraFrames.START, steps) && CoraFrames.EndsDrained(steps)
    requires |times| == |CoraFrames.FramesOf(parts)| && key < keyCount
    requires QuietRun(EMPTY, start, FrameInputs(keyCount, CoraFrames.FramesOf(parts), times))
    requires forall i :: 0 <= i < |images| ==> images[i] != []
    requires AreFramesFor(OwnFrames(keyCount, Slot(ImagePages, key), CoraFrames.FramesOf(parts)), Key(key), Cut(images))
    ensures CoraFrames.Run(CoraFrames.START, steps).emitted == CoraFrames.FramesOf(parts)
    ensures var inputs := FrameInputs(keyCount, CoraFrames.Run(CoraFrames.START, steps).emitted, times);
            DataOf(EventsAt(Slot(ImagePages, key), Run(EMPTY, inputs).events)) == JoinedAll(images)
  {
    ImagesArrive(keyCount, parts, trailing, steps, start, times, Key(key), images);
    DeliveredWhole(Key(key), images);
  }
}
