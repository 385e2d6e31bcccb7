/** Image chunks of a connection: what each kind of packet asks for, and the images that come out. */
module ImageAssembly {
  import opened AssemblyBudgets
  import opened AssemblyEffects
  import CoraFrames
  import opened Sequences

  const IMG_CMD_WRITE := 0x07
  const IMG_CMD_LCD := 0x08
  const IMG_CMD_WINDOW := 0x0B
  const IMG_CMD_WINDOW_PARTIAL := 0x0C
  const GEN1_IMG_CMD := 0x01

  const IMAGE_CHUNK_LAST_FLAG := 1
  const ELGATO_IMAGE_HEADER_SIZE := 8
  const GEN1_IMAGE_HEADER_SIZE := 16
  const PARTIAL_WINDOW_HEADER_SIZE := 16
  const MAX_PARTIAL_WINDOW_ASSEMBLIES := 8
  const MAX_WINDOW_ASSEMBLIES := 2
  const PLUS_TOUCH_WIDTH := 800
  const PLUS_TOUCH_HEIGHT := 100

  // ---------------------------------------------------------------- packets

  /** What a packet asks for: nothing, to drop an assembly, or to add a chunk to one. */
  datatype Command = Ignore | Drop(slot: Slot) | Feed(slot: Slot, chunk: Bytes, last: bool, maxPages: nat)

  /** assembleImageChunk, up to the accumulation. */
  function ParseGen2(owner: Owner, maxPages: nat, pkt: Bytes): Command
  {
    if |pkt| <= 2 then Ignore
    else
      var slot := Slot(owner, pkt[2]);
      if |pkt| < ELGATO_IMAGE_HEADER_SIZE then Drop(slot)
      else
        var isLast, bodyLength := pkt[3] == IMAGE_CHUNK_LAST_FLAG, CoraFrames.ReadLittleEndian(pkt[4..6]);
        if bodyLength > |pkt| - ELGATO_IMAGE_HEADER_SIZE then Drop(slot)
        else if !isLast && bodyLength == 0 then Drop(slot)
        else Feed(slot, pkt[ELGATO_IMAGE_HEADER_SIZE..ELGATO_IMAGE_HEADER_SIZE + bodyLength], isLast, maxPages)
  }

  /** assembleGen1ImageChunk, up to the accumulation. */
  function ParseGen1(pkt: Bytes): Command
  {
    if |pkt| <= 5 then Ignore
    else
      var slot := Slot(Gen1ImagePages, (pkt[5] as int) - 1);
      if |pkt| < GEN1_IMAGE_HEADER_SIZE then Drop(slot)
      else
        var isLast := pkt[4] == IMAGE_CHUNK_LAST_FLAG;
        if !isLast && |pkt| == GEN1_IMAGE_HEADER_SIZE then Drop(slot)
        else Feed(slot, pkt[GEN1_IMAGE_HEADER_SIZE..], isLast, 0)
  }

  datatype Region = Region(x: nat, y: nat, w: nat, h: nat)

  predicate InWindow(r: Region)
  {
    r.w != 0 && r.h != 0 && r.x + r.w <= PLUS_TOUCH_WIDTH && r.y + r.h <= PLUS_TOUCH_HEIGHT
  }

  /** The key of a region's assembly. */
  function RegionKey(r: Region): nat
  {
    ((r.x * 128 + r.y) * 1024 + r.w) * 128 + r.h
  }

  function KeyRegion(key: nat): Region
  {
    Region(key / 128 / 1024 / 128, key / 128 / 1024 % 128, key / 128 % 1024, key % 128)
  }

  /** Regions inside the window have different keys: the key gives the region back. */
  lemma RegionKeyInjective(r: Region)
    requires InWindow(r)
    ensures KeyRegion(RegionKey(r)) == r && RegionKey(r) < 0x4_0000_0000
  {
  }

  function RegionOf(pkt: Bytes): Region
    requires |pkt| >= PARTIAL_WINDOW_HEADER_SIZE
  {
    Region(CoraFrames.ReadLittleEndian(pkt[2..4]), CoraFrames.ReadLittleEndian(pkt[4..6]),
           CoraFrames.ReadLittleEndian(pkt[6..8]), CoraFrames.ReadLittleEndian(pkt[8..10]))
  }

  /** assemblePartialWindowChunk, up to the accumulation. */
  function ParsePartialWindow(pkt: Bytes): Command
  {
    if |pkt| < PARTIAL_WINDOW_HEADER_SIZE then Ignore
    else if !InWindow(RegionOf(pkt)) then Ignore
    else
      var slot := Slot(PartialPages, RegionKey(RegionOf(pkt)));
      var isLast, bodyLength := pkt[10] == IMAGE_CHUNK_LAST_FLAG, CoraFrames.ReadLittleEndian(pkt[13..15]);
      if bodyLength > |pkt| - PARTIAL_WINDOW_HEADER_SIZE then Drop(slot)
      else
        Feed(slot, pkt[PARTIAL_WINDOW_HEADER_SIZE..PARTIAL_WINDOW_HEADER_SIZE + bodyLength], isLast,
             MAX_PARTIAL_WINDOW_ASSEMBLIES)
  }

  /** accept of the touch strip: output for the LCD is dropped, a partial window goes to its region, and
      anything else is taken for a window strip. */
  function StripCommand(cmd: nat, pkt: Bytes): Command
  {
    if cmd == IMG_CMD_LCD then Ignore
    else if cmd == IMG_CMD_WINDOW_PARTIAL then ParsePartialWindow(pkt)
    else ParseGen2(WindowPages, MAX_WINDOW_ASSEMBLIES, pkt)
  }

  /** An output report of a device with so many keys: a packet whose key byte is missing or names no key
      of the device is dropped, and so is a report that is no image. */
  function ReportCommand(keyCount: nat, cmd: nat, pkt: Bytes): Command
  {
    if cmd == IMG_CMD_WRITE then
      if |pkt| > 2 && pkt[2] < keyCount then ParseGen2(ImagePages, 0, pkt) else Ignore
    else if cmd == GEN1_IMG_CMD then
      if |pkt| > 5 && 0 < pkt[5] <= keyCount then ParseGen1(pkt) else Ignore
    else if cmd == IMG_CMD_LCD || cmd == IMG_CMD_WINDOW || cmd == IMG_CMD_WINDOW_PARTIAL then StripCommand(cmd, pkt)
    else Ignore
  }

  // ---------------------------------------------------------------- the finished image

  function Joined(chunks: seq<Bytes>): (r: Bytes)
    ensures |r| == Size(chunks)
  {
    if chunks == [] then [] else chunks[0] + Joined(chunks[1..])
  }

  /** Where a finished image ends: a gen1 image is a padded BMP file that tells its size. */
  function Limit(owner: Owner, chunks: seq<Bytes>): (n: nat)
    ensures n <= Size(chunks)
  {
    if owner == Gen1ImagePages && chunks != [] && |chunks[0]| >= 6 && chunks[0][0] == 0x42 && chunks[0][1] == 0x4d then
      var size := CoraFrames.ReadLittleEndian(chunks[0][2..6]);
      if size <= Size(chunks) then size else Size(chunks)
    else Size(chunks)
  }

  /** consolidate, with the limit of the kind of image. */
  function Finished(owner: Owner, chunks: seq<Bytes>): Bytes
  {
    Joined(chunks)[..Limit(owner, chunks)]
  }

  datatype Event = Event(slot: Slot, data: Bytes)

  /** A BMP file that tells its own size in bytes 2 to 5, the lowest first. */
  predicate IsBmp(file: Bytes)
  {
    && |file| >= 6 && file[0] == 0x42 && file[1] == 0x4d
    && CoraFrames.Four(file[2], file[3], file[4], file[5]) == |file|
  }

  /** A BMP file that was cut into chunks, the first of them at least six bytes, and padded at the end is
      trimmed back to exactly the file. */
  lemma Gen1FileRecovered(file: Bytes, chunks: seq<Bytes>, padding: Bytes)
    requires IsBmp(file)
    requires chunks != [] && |chunks[0]| >= 6 && Joined(chunks) == file + padding
    ensures Finished(Gen1ImagePages, chunks) == file
  {
    var all := Joined(chunks);
    assert chunks[0] == all[..|chunks[0]|];
    assert chunks[0][2..6] == all[2..6] == file[2..6];
    CoraFrames.ReadFour(file[2..6]);
    assert all[0] == file[0] && all[1] == file[1];
  }

  /** Chunks that do not begin with a BMP header come out whole, and so do those of a file that is longer. */
  lemma Gen1Untrimmed(chunks: seq<Bytes>)
    requires chunks == [] || |chunks[0]| < 6 || chunks[0][0] != 0x42 || chunks[0][1] != 0x4d
             || CoraFrames.Four(chunks[0][2], chunks[0][3], chunks[0][4], chunks[0][5]) >= Size(chunks)
    ensures Finished(Gen1ImagePages, chunks) == Joined(chunks)
  {
    if chunks != [] && |chunks[0]| >= 6 {
      CoraFrames.ReadFour(chunks[0][2..6]);
    }
  }

  // ---------------------------------------------------------------- one packet

  datatype Outcome = Outcome(state: State, events: seq<Event>)

  /** One packet. */
  function Step(s: State, cmd: Command, now: int): Outcome
  {
    match cmd
    case Ignore => Outcome(s, [])
    case Drop(slot) => Outcome(Discarded(s, slot), [])
    case Feed(slot, chunk, last, maxPages) =>
      match Accumulated(s, slot, chunk, maxPages, now)
      case Dropped(s) => Outcome(s, [])
      case Grown(s, a) => if last then Completed(s, slot, a) else Outcome(s, [])
  }

  /** The last chunk is in: the assembly leaves its map and becomes an image. */
  function Completed(s: State, slot: Slot, a: Id): Outcome
  {
    if a in s.store then
      Outcome(Discarded(s, slot), [Event(slot, Finished(slot.owner, s.store[a].chunks))])
    else Outcome(s, [])
  }

  /** Every packet keeps the invariant. */
  lemma StepKeeps(s: State, cmd: Command, now: int)
    requires Valid(s) && NotBefore(s, now)
    ensures Valid(Step(s, cmd, now).state) && NotBefore(Step(s, cmd, now).state, now)
  {
    match cmd
    case Ignore =>
    case Drop(slot) =>
      DiscardedKeeps(s, slot);
      DiscardedShrunk(s, slot);
      ShrunkNotBefore(s, Discarded(s, slot), now);
    case Feed(slot, chunk, last, maxPages) =>
      AccumulatedKeeps(s, slot, chunk, maxPages, now);
      var t := Accumulated(s, slot, chunk, maxPages, now).state;
      DiscardedKeeps(t, slot);
      DiscardedShrunk(t, slot);
      ShrunkNotBefore(t, Discarded(t, slot), now);
  }

  /** The same packet on nothing but the chunks in flight. */
  datatype View = View(contents: map<Slot, seq<Bytes>>, events: seq<Event>)

  function StepView(contents: map<Slot, seq<Bytes>>, cmd: Command): View
  {
    match cmd
    case Ignore => View(contents, [])
    case Drop(slot) => View(contents - {slot}, [])
    case Feed(slot, chunk, last, _) =>
      var chunks := WithChunk(Chunks(contents, slot), chunk);
      if last then View(contents - {slot}, [Event(slot, Finished(slot.owner, chunks))])
      else View(contents[slot := chunks], [])
  }

  ghost predicate QuietCommand(s: State, cmd: Command, now: int)
    requires Linked(s, {})
  {
    cmd.Feed? ==> Quiet(s, cmd.slot, cmd.chunk, cmd.maxPages, now)
  }

  lemma DiscardedContents(s: State, slot: Slot)
    requires Linked(s, {}) && Linked(Discarded(s, slot), {})
    ensures Contents(Discarded(s, slot)) == Contents(s) - {slot}
  {
    DiscardedParts(s, slot);
  }

  lemma CompletedEvents(contents: map<Slot, seq<Bytes>>, t: State, slot: Slot, a: Id, chunks: seq<Bytes>)
    requires Linked(t, {}) && slot in t.pages && t.pages[slot] == a && Contents(t) == contents[slot := chunks]
    ensures Completed(t, slot, a) == Outcome(Discarded(t, slot), [Event(slot, Finished(slot.owner, chunks))])
  {
    assert Contents(t)[slot] == chunks;
  }

  lemma WithoutSlot(contents: map<Slot, seq<Bytes>>, slot: Slot, chunks: seq<Bytes>)
    ensures contents[slot := chunks] - {slot} == contents - {slot}
  {
  }

  lemma CompletedContents(contents: map<Slot, seq<Bytes>>, t: State, slot: Slot, a: Id, chunks: seq<Bytes>)
    requires Valid(t) && slot in t.pages && t.pages[slot] == a && Contents(t) == contents[slot := chunks]
    ensures Valid(Completed(t, slot, a).state)
    ensures View(Contents(Completed(t, slot, a).state), Completed(t, slot, a).events)
         == View(contents - {slot}, [Event(slot, Finished(slot.owner, chunks))])
  {
    CompletedEvents(contents, t, slot, a, chunks);
    DiscardedKeeps(t, slot);
    DiscardedContents(t, slot);
    WithoutSlot(contents, slot, chunks);
  }

  /** Where no cap trips and nothing expires, a packet does to the chunks in flight what the view says. */
  lemma QuietStep(s: State, cmd: Command, now: int)
    requires Valid(s) && NotBefore(s, now) && QuietCommand(s, cmd, now)
    ensures Valid(Step(s, cmd, now).state)
    ensures StepView(Contents(s), cmd) == View(Contents(Step(s, cmd, now).state), Step(s, cmd, now).events)
  {
    StepKeeps(s, cmd, now);
    match cmd
    case Ignore =>
    case Drop(slot) =>
      DiscardedContents(s, slot);
    case Feed(slot, chunk, last, maxPages) =>
      QuietAccumulated(s, slot, chunk, maxPages, now);
      var r := Accumulated(s, slot, chunk, maxPages, now);
      if last {
        CompletedContents(Contents(s), r.state, slot, r.assembly, WithChunk(Chunks(Contents(s), slot), chunk));
      }
  }

  // ---------------------------------------------------------------- whole runs

  /** What reaches a connection: a packet at a time of the clock, or a reset. */
  datatype Input = Packet(cmd: Command, now: int) | Reset

  const EMPTY := State(map[], 0, map[], [], [], 0)

  /** resetAssemblies: the maps are replaced and the budget forgets everything. */
  function Cleared(s: State): State
  {
    s.(pages := map[], order := [], live := [], total := 0)
  }

  function Next(s: State, input: Input): Outcome
  {
    match input
    case Packet(cmd, now) => Step(s, cmd, now)
    case Reset => Outcome(Cleared(s), [])
  }

  function Run(s: State, inputs: seq<Input>): Outcome
    decreases |inputs|
  {
    if inputs == [] then Outcome(s, [])
    else
      var first := Next(s, inputs[0]);
      var rest := Run(first.state, inputs[1..]);
      Outcome(rest.state, first.events + rest.events)
  }

  /** The clock does not run backwards, from a time on. */
  predicate Clocked(start: int, inputs: seq<Input>)
    decreases |inputs|
  {
    inputs == [] ||
    match inputs[0]
    case Packet(_, now) => start <= now && Clocked(now, inputs[1..])
    case Reset => Clocked(start, inputs[1..])
  }

  lemma LaterTime(s: State, start: int, now: int)
    requires NotBefore(s, start) && start <= now
    ensures NotBefore(s, now)
  {
  }

  lemma ClearedKeeps(s: State, now: int)
    requires Valid(s)
    ensures Valid(Cleared(s)) && NotBefore(Cleared(s), now)
  {
  }

  /** The budget invariant over every run of packets, evictions, expiries and resets: the total is the
      sum over the live set, the live set is exactly the assemblies in the maps, each at its own map and
      key, no cap is exceeded, and the set is ordered by last touch. */
  lemma {:induction false} RunKeeps(s: State, start: int, inputs: seq<Input>)
    requires Valid(s) && NotBefore(s, start) && Clocked(start, inputs)
    ensures Valid(Run(s, inputs).state)
    decreases |inputs|
  {
    if inputs != [] {
      var t := Next(s, inputs[0]).state;
      match inputs[0]
      case Packet(cmd, now) =>
        LaterTime(s, start, now);
        StepKeeps(s, cmd, now);
        RunKeeps(t, now, inputs[1..]);
      case Reset =>
        ClearedKeeps(s, start);
        RunKeeps(t, start, inputs[1..]);
    }
  }

  // ---------------------------------------------------------------- a stale assembly starts over

  /** The time of the last packet. */
  function EndTime(start: int, inputs: seq<Input>): int
    decreases |inputs|
  {
    if inputs == [] then start
    else EndTime(if inputs[0].Packet? then inputs[0].now else start, inputs[1..])
  }

  /** No packet brings a chunk for the slot. */
  predicate NothingFor(slot: Slot, inputs: seq<Input>)
  {
    forall i :: 0 <= i < |inputs| && inputs[i].Packet? && inputs[i].cmd.Feed? ==> inputs[i].cmd.slot != slot
  }

  lemma StepMakesNoOther(s: State, cmd: Command, now: int, slot: Slot)
    requires Valid(s) && NotBefore(s, now) && slot !in s.pages && !(cmd.Feed? && cmd.slot == slot)
    ensures slot !in Step(s, cmd, now).state.pages
  {
    match cmd
    case Ignore =>
    case Drop(other) =>
      DiscardedParts(s, other);
    case Feed(other, chunk, last, maxPages) =>
      AccumulatedKeeps(s, other, chunk, maxPages, now);
      AccumulatedPages(s, other, chunk, maxPages, now);
      DiscardedParts(Accumulated(s, other, chunk, maxPages, now).state, other);
  }

  lemma {:induction false} NoEntryStays(s: State, start: int, inputs: seq<Input>, slot: Slot)
    requires Valid(s) && NotBefore(s, start) && Clocked(start, inputs) && slot !in s.pages && NothingFor(slot, inputs)
    ensures Valid(Run(s, inputs).state) && NotBefore(Run(s, inputs).state, EndTime(start, inputs))
    ensures slot !in Run(s, inputs).state.pages
    decreases |inputs|
  {
    if inputs != [] {
      var t := Next(s, inputs[0]).state;
      assert NothingFor(slot, inputs[1..]);
      match inputs[0]
      case Packet(cmd, now) =>
        LaterTime(s, start, now);
        StepKeeps(s, cmd, now);
        StepMakesNoOther(s, cmd, now, slot);
        NoEntryStays(t, now, inputs[1..], slot);
      case Reset =>
        ClearedKeeps(s, start);
        NoEntryStays(t, start, inputs[1..], slot);
    }
  }

  /** A chunk that makes a new assembly expires the stale ones. */
  lemma FeedExpires(s: State, other: Slot, chunk: Bytes, last: bool, maxPages: nat, now: int, slot: Slot)
    requires Valid(s) && NotBefore(s, now) && other !in s.pages && slot != other
    requires |chunk| <= MAX_IMAGE_ASSEMBLY_BYTES
    requires slot in s.pages ==> now - s.store[s.pages[slot]].touchedAt >= 30000
    ensures slot !in Step(s, Feed(other, chunk, last, maxPages), now).state.pages
  {
    var u, a := NewGrows(s, other, chunk, maxPages, now);
    if slot in u.pages {
      NewFitsAlone(s, other, chunk);
      NoStaleLeft(s, other, chunk, maxPages, now, slot);
    }
    DiscardedShrunk(u, other);
  }

  /** The last chunk of a slot without an assembly is the whole image. */
  lemma OnlyChunk(s: State, slot: Slot, chunk: Bytes, maxPages: nat, now: int)
    requires Valid(s) && NotBefore(s, now) && slot !in s.pages && |chunk| <= MAX_IMAGE_ASSEMBLY_BYTES
    ensures Step(s, Feed(slot, chunk, true, maxPages), now).events
         == [Event(slot, Finished(slot.owner, WithChunk([], chunk)))]
  {
    var u, a := NewGrows(s, slot, chunk, maxPages, now);
  }

  lemma {:induction false} RunConcat(s: State, a: seq<Input>, b: seq<Input>)
    ensures Run(s, a + b).events == Run(s, a).events + Run(Run(s, a).state, b).events
    decreases |a|
  {
    if a == [] {
      assert a + b == b;
    } else {
      var first := Next(s, a[0]);
      ConcatTail(a, b);
      RunConcat(first.state, a[1..], b);
      ConcatAssoc(first.events, Run(first.state, a[1..]).events, Run(Run(s, a).state, b).events);
    }
  }

  lemma RunFirst(s: State, input: Input, rest: seq<Input>)
    ensures Run(s, [input] + rest).state == Run(Next(s, input).state, rest).state
    ensures Run(s, [input]).events == Next(s, input).events
  {
    assert ([input] + rest)[1..] == rest;
    assert Next(s, input).events + [] == Next(s, input).events;
  }

  /** When a slot's assembly was last touched 30 seconds ago or more and a chunk starts another one, it is gone,
      whatever happens next to the other slots. */
  lemma StaleIsGone(s: State, cmd: Command, expired: int, between: seq<Input>, slot: Slot)
    requires Valid(s) && NotBefore(s, expired) && cmd.Feed? && cmd.slot != slot && cmd.slot !in s.pages
    requires |cmd.chunk| <= MAX_IMAGE_ASSEMBLY_BYTES
    requires slot in s.pages ==> expired - s.store[s.pages[slot]].touchedAt >= 30000
    requires Clocked(expired, between) && NothingFor(slot, between)
    ensures var u := Run(s, [Packet(cmd, expired)] + between).state;
            Valid(u) && NotBefore(u, EndTime(expired, between)) && slot !in u.pages
  {
    StepKeeps(s, cmd, expired);
    FeedExpires(s, cmd.slot, cmd.chunk, cmd.last, cmd.maxPages, expired, slot);
    NoEntryStays(Step(s, cmd, expired).state, expired, between, slot);
    RunFirst(s, Packet(cmd, expired), between);
  }

  /** So the next chunk of the slot begins a new image. */
  lemma StaleStartsOver(s: State, cmd: Command, expired: int, between: seq<Input>, slot: Slot, chunk: Bytes,
                        maxPages: nat, now: int)
    requires Valid(s) && NotBefore(s, expired) && cmd.Feed? && cmd.slot != slot && cmd.slot !in s.pages
    requires |cmd.chunk| <= MAX_IMAGE_ASSEMBLY_BYTES && |chunk| <= MAX_IMAGE_ASSEMBLY_BYTES
    requires slot in s.pages ==> expired - s.store[s.pages[slot]].touchedAt >= 30000
    requires Clocked(expired, between) && NothingFor(slot, between) && EndTime(expired, between) <= now
    ensures var before := [Packet(cmd, expired)] + between;
            Run(s, before + [Packet(Feed(slot, chunk, true, maxPages), now)]).events
            == Run(s, before).events + [Event(slot, Finished(slot.owner, WithChunk([], chunk)))]
  {
    var before, end := [Packet(cmd, expired)] + between, Packet(Feed(slot, chunk, true, maxPages), now);
    StaleIsGone(s, cmd, expired, between, slot);
    var u := Run(s, before).state;
    LaterTime(u, EndTime(expired, between), now);
    OnlyChunk(u, slot, chunk, maxPages, now);
    RunConcat(s, before, [end]);
    RunFirst(u, end, []);
  }

  // ---------------------------------------------------------------- how much a connection holds

  /** The cap on the number of entries of a map; 0 where only the keys bound it. */
  function MapCap(owner: Owner): nat
  {
    match owner
    case WindowPages => MAX_WINDOW_ASSEMBLIES
    case PartialPages => MAX_PARTIAL_WINDOW_ASSEMBLIES
    case _ => 0
  }

  predicate SlotInRange(keyCount: nat, slot: Slot)
  {
    slot.owner == ImagePages || slot.owner == Gen1ImagePages ==> 0 <= slot.key < keyCount
  }

  /** What output reports ask for: chunks for keys of the device, and maps fed with their own caps. */
  predicate FromReport(keyCount: nat, cmd: Command)
  {
    cmd.Feed? ==> SlotInRange(keyCount, cmd.slot) && cmd.maxPages == MapCap(cmd.slot.owner)
  }

  lemma ReportsAreFromReport(keyCount: nat, cmd: nat, pkt: Bytes)
    ensures FromReport(keyCount, ReportCommand(keyCount, cmd, pkt))
  {
  }

  /** The maps with a cap are within it, and the others hold keys of the device only. */
  ghost predicate MapsBounded(keyCount: nat, s: State)
  {
    && (forall owner | MapCap(owner) > 0 :: CountOf(s.order, owner) <= MapCap(owner))
    && (forall slot :: slot in s.pages ==> SlotInRange(keyCount, slot))
  }

  lemma FewerBounded(keyCount: nat, s: State, t: State)
    requires Linked(s, {}) && Linked(t, {}) && MapsBounded(keyCount, s)
    requires forall slot :: slot in t.pages ==> slot in s.pages
    ensures MapsBounded(keyCount, t)
  {
    forall owner | MapCap(owner) > 0 ensures CountOf(t.order, owner) <= MapCap(owner) {
      NoMoreEntries(s, t, owner);
    }
  }

  lemma FeedBounded(keyCount: nat, s: State, slot: Slot, chunk: Bytes, now: int)
    requires Valid(s) && NotBefore(s, now) && MapsBounded(keyCount, s) && SlotInRange(keyCount, slot)
    ensures MapsBounded(keyCount, Accumulated(s, slot, chunk, MapCap(slot.owner), now).state)
  {
    var t := Accumulated(s, slot, chunk, MapCap(slot.owner), now).state;
    AccumulatedPages(s, slot, chunk, MapCap(slot.owner), now);
    forall owner | MapCap(owner) > 0 ensures CountOf(t.order, owner) <= MapCap(owner) {
      AccumulatedCount(s, slot, chunk, MapCap(slot.owner), now, owner, MapCap(owner));
    }
  }

  lemma DiscardedBounded(keyCount: nat, s: State, slot: Slot)
    requires Valid(s) && MapsBounded(keyCount, s)
    ensures MapsBounded(keyCount, Discarded(s, slot))
  {
    DiscardedKeeps(s, slot);
    DiscardedParts(s, slot);
    FewerBounded(keyCount, s, Discarded(s, slot));
  }

  lemma StepBounded(keyCount: nat, s: State, cmd: Command, now: int)
    requires Valid(s) && NotBefore(s, now) && MapsBounded(keyCount, s) && FromReport(keyCount, cmd)
    ensures MapsBounded(keyCount, Step(s, cmd, now).state)
  {
    match cmd
    case Ignore =>
    case Drop(slot) =>
      DiscardedBounded(keyCount, s, slot);
    case Feed(slot, chunk, last, maxPages) =>
      AccumulatedKeeps(s, slot, chunk, maxPages, now);
      FeedBounded(keyCount, s, slot, chunk, now);
      DiscardedBounded(keyCount, Accumulated(s, slot, chunk, maxPages, now).state, slot);
  }

  /** What a connection receives: output reports at times of its clock, and resets. */
  datatype Received = Report(cmd: nat, pkt: Bytes, now: int) | Restart

  function InputOf(keyCount: nat, r: Received): Input
  {
    match r
    case Report(cmd, pkt, now) => Packet(ReportCommand(keyCount, cmd, pkt), now)
    case Restart => Reset
  }

  function InputsOf(keyCount: nat, received: seq<Received>): seq<Input>
  {
    if received == [] then [] else [InputOf(keyCount, received[0])] + InputsOf(keyCount, received[1..])
  }

  lemma {:induction false} RunBounded(keyCount: nat, s: State, start: int, received: seq<Received>)
    requires Valid(s) && NotBefore(s, start) && MapsBounded(keyCount, s) && Clocked(start, InputsOf(keyCount, received))
    ensures Valid(Run(s, InputsOf(keyCount, received)).state)
    ensures MapsBounded(keyCount, Run(s, InputsOf(keyCount, received)).state)
    decreases |received|
  {
    if received != [] {
      var inputs := InputsOf(keyCount, received);
      assert inputs[1..] == InputsOf(keyCount, received[1..]);
      match received[0]
      case Report(c, pkt, now) =>
        var cmd := ReportCommand(keyCount, c, pkt);
        LaterTime(s, start, now);
        ReportsAreFromReport(keyCount, c, pkt);
        StepKeeps(s, cmd, now);
        StepBounded(keyCount, s, cmd, now);
        RunBounded(keyCount, Step(s, cmd, now).state, now, received[1..]);
      case Restart =>
        ClearedKeeps(s, start);
        RunBounded(keyCount, Cleared(s), start, received[1..]);
    }
  }

  ghost function KeySlots(owner: Owner, keyCount: nat): (r: set<Slot>)
    ensures |r| == keyCount && forall slot :: slot in r <==> slot.owner == owner && 0 <= slot.key < keyCount
  {
    if keyCount == 0 then {} else KeySlots(owner, keyCount - 1) + {Slot(owner, keyCount - 1)}
  }

  lemma KeysBound(keyCount: nat, s: State, owner: Owner)
    requires Linked(s, {}) && MapsBounded(keyCount, s) && (owner == ImagePages || owner == Gen1ImagePages)
    ensures CountOf(s.order, owner) <= keyCount
  {
    CountIsSize(s.order, owner);
    SubsetSize(OwnSlots(s.order, owner), KeySlots(owner, keyCount));
  }

  /** Whatever reports and resets a connection receives from its start on: the budget's invariant holds,
      and no map outgrows its bound. */
  lemma ConnectionBounded(keyCount: nat, start: int, received: seq<Received>)
    requires Clocked(start, InputsOf(keyCount, received))
    ensures var s := Run(EMPTY, InputsOf(keyCount, received)).state;
            && Valid(s)
            && CountOf(s.order, ImagePages) <= keyCount && CountOf(s.order, Gen1ImagePages) <= keyCount
            && CountOf(s.order, WindowPages) <= 2 && CountOf(s.order, PartialPages) <= 8
  {
    RunBounded(keyCount, EMPTY, start, received);
    var s := Run(EMPTY, InputsOf(keyCount, received)).state;
    KeysBound(keyCount, s, ImagePages);
    KeysBound(keyCount, s, Gen1ImagePages);
    assert MapCap(WindowPages) == 2 && MapCap(PartialPages) == 8;
  }

  // ---------------------------------------------------------------- quiet runs

  /** A run of packets that trips no cap and lets nothing expire. */
  ghost predicate QuietRun(s: State, start: int, inputs: seq<Input>)
    decreases |inputs|
  {
    inputs == [] ||
    (inputs[0].Packet? && start <= inputs[0].now && Linked(s, {}) && QuietCommand(s, inputs[0].cmd, inputs[0].now)
     && QuietRun(Next(s, inputs[0]).state, inputs[0].now, inputs[1..]))
  }

  function Commands(inputs: seq<Input>): seq<Command>
  {
    if inputs == [] then []
    else (if inputs[0].Packet? then [inputs[0].cmd] else []) + Commands(inputs[1..])
  }

  function RunView(contents: map<Slot, seq<Bytes>>, cmds: seq<Command>): seq<Event>
    decreases |cmds|
  {
    if cmds == [] then []
    else
      var first := StepView(contents, cmds[0]);
      first.events + RunView(first.contents, cmds[1..])
  }

  lemma {:induction false} QuietRunView(s: State, start: int, inputs: seq<Input>)
    requires Valid(s) && NotBefore(s, start) && QuietRun(s, start, inputs)
    ensures Run(s, inputs).events == RunView(Contents(s), Commands(inputs))
    decreases |inputs|
  {
    if inputs != [] {
      var cmd, now := inputs[0].cmd, inputs[0].now;
      LaterTime(s, start, now);
      StepKeeps(s, cmd, now);
      QuietStep(s, cmd, now);
      QuietRunView(Step(s, cmd, now).state, now, inputs[1..]);
      assert Commands(inputs) == [cmd] + Commands(inputs[1..]);
    }
  }

  // ---------------------------------------------------------------- one slot alone

  function EventsAt(slot: Slot, events: seq<Event>): seq<Event>
  {
    if events == [] then []
    else (if events[0].slot == slot then [events[0]] else []) + EventsAt(slot, events[1..])
  }

  predicate IsFor(slot: Slot, cmd: Command)
  {
    !cmd.Ignore? && cmd.slot == slot
  }

  /** The packets of one slot, in order. */
  function For(slot: Slot, cmds: seq<Command>): seq<Command>
  {
    if cmds == [] then []
    else (if IsFor(slot, cmds[0]) then [cmds[0]] else []) + For(slot, cmds[1..])
  }

  /** The images of one slot whose packets run alone, after some chunks. */
  function Alone(slot: Slot, chunks: seq<Bytes>, cmds: seq<Command>): seq<Event>
    decreases |cmds|
  {
    if cmds == [] then []
    else
      match cmds[0]
      case Feed(_, chunk, last, _) =>
        if last then [Event(slot, Finished(slot.owner, WithChunk(chunks, chunk)))] + Alone(slot, [], cmds[1..])
        else Alone(slot, WithChunk(chunks, chunk), cmds[1..])
      case _ => Alone(slot, [], cmds[1..])
  }

  lemma StepViewAt(contents: map<Slot, seq<Bytes>>, cmd: Command, slot: Slot)
    ensures var v := StepView(contents, cmd);
            if IsFor(slot, cmd) then Alone(slot, Chunks(contents, slot), [cmd]) == EventsAt(slot, v.events)
            else EventsAt(slot, v.events) == [] && Chunks(v.contents, slot) == Chunks(contents, slot)
  {
  }

  lemma {:induction false} EventsAtConcat(slot: Slot, a: seq<Event>, b: seq<Event>)
    ensures EventsAt(slot, a + b) == EventsAt(slot, a) + EventsAt(slot, b)
  {
    if a == [] {
      assert a + b == b;
    } else {
      EventsAtConcat(slot, a[1..], b);
      ConcatTail(a, b);
      ConcatAssoc(if a[0].slot == slot then [a[0]] else [], EventsAt(slot, a[1..]), EventsAt(slot, b));
    }
  }

  lemma AloneFeed(slot: Slot, chunks: seq<Bytes>, cmd: Command, rest: seq<Command>)
    requires cmd.Feed?
    ensures Alone(slot, chunks, [cmd] + rest)
         == if cmd.last then
              [Event(slot, Finished(slot.owner, WithChunk(chunks, cmd.chunk)))] + Alone(slot, [], rest)
            else Alone(slot, WithChunk(chunks, cmd.chunk), rest)
  {
    assert ([cmd] + rest)[1..] == rest;
  }

  lemma AloneStep(contents: map<Slot, seq<Bytes>>, cmd: Command, slot: Slot, rest: seq<Command>)
    requires IsFor(slot, cmd)
    ensures var v := StepView(contents, cmd);
            Alone(slot, Chunks(contents, slot), [cmd] + rest)
            == EventsAt(slot, v.events) + Alone(slot, Chunks(v.contents, slot), rest)
  {
    if cmd.Feed? {
      AloneFeed(slot, Chunks(contents, slot), cmd, rest);
    } else {
      assert ([cmd] + rest)[1..] == rest;
    }
  }

  /** Interleaving independence: whatever the packets of other slots do in between, the images of a slot
      are those of its own packets alone. */
  lemma {:induction false} ViewIndependent(contents: map<Slot, seq<Bytes>>, cmds: seq<Command>, slot: Slot)
    ensures EventsAt(slot, RunView(contents, cmds)) == Alone(slot, Chunks(contents, slot), For(slot, cmds))
    decreases |cmds|
  {
    if cmds != [] {
      var v := StepView(contents, cmds[0]);
      ViewIndependent(v.contents, cmds[1..], slot);
      EventsAtConcat(slot, v.events, RunView(v.contents, cmds[1..]));
      if IsFor(slot, cmds[0]) {
        AloneStep(contents, cmds[0], slot, For(slot, cmds[1..]));
      } else {
        StepViewAt(contents, cmds[0], slot);
        assert [] + For(slot, cmds[1..]) == For(slot, cmds[1..]);
      }
    }
  }

  /** For any interleaving of packets that trips no cap and lets nothing expire, from a connection's
      start: the images of each slot are those of its own packets alone. */
  lemma InterleavingIndependent(start: int, inputs: seq<Input>, slot: Slot)
    requires QuietRun(EMPTY, start, inputs)
    ensures EventsAt(slot, Run(EMPTY, inputs).events) == Alone(slot, [], For(slot, Commands(inputs)))
  {
    QuietRunView(EMPTY, start, inputs);
    ViewIndependent(Contents(EMPTY), Commands(inputs), slot);
  }

  // ---------------------------------------------------------------- what one slot's images are

  /** The bodies of a slot's packets, joined up to each last flag; a dropped assembly starts over. */
  function Bodies(before: Bytes, cmds: seq<Command>): seq<Bytes>
    decreases |cmds|
  {
    if cmds == [] then []
    else
      match cmds[0]
      case Feed(_, chunk, last, _) =>
        if last then [before + chunk] + Bodies([], cmds[1..]) else Bodies(before + chunk, cmds[1..])
      case _ => Bodies([], cmds[1..])
  }

  function DataOf(events: seq<Event>): seq<Bytes>
  {
    if events == [] then [] else [events[0].data] + DataOf(events[1..])
  }

  lemma {:induction false} JoinedAppend(chunks: seq<Bytes>, chunk: Bytes)
    ensures Joined(WithChunk(chunks, chunk)) == Joined(chunks) + chunk
  {
    if chunk == [] {
      assert Joined(chunks) + chunk == Joined(chunks);
    } else if chunks == [] {
      assert [] + [chunk] == [chunk];
      assert Joined([chunk]) == chunk + Joined([]);
    } else {
      JoinedAppend(chunks[1..], chunk);
      ConcatTail(chunks, [chunk]);
      ConcatAssoc(chunks[0], Joined(chunks[1..]), chunk);
    }
  }

  lemma FinishedWhole(owner: Owner, chunks: seq<Bytes>)
    requires owner != Gen1ImagePages
    ensures Finished(owner, chunks) == Joined(chunks)
  {
  }

  lemma FirstData(e: Event, events: seq<Event>)
    ensures DataOf([e] + events) == [e.data] + DataOf(events)
  {
  }

  /** The images of a key or a window region are the joined bodies of its chunks. */
  lemma {:induction false} AloneBodies(slot: Slot, chunks: seq<Bytes>, cmds: seq<Command>)
    requires slot.owner != Gen1ImagePages
    ensures DataOf(Alone(slot, chunks, cmds)) == Bodies(Joined(chunks), cmds)
    decreases |cmds|
  {
    if cmds != [] {
      match cmds[0]
      case Feed(_, chunk, last, _) =>
        JoinedAppend(chunks, chunk);
        if last {
          AloneBodies(slot, [], cmds[1..]);
          FinishedWhole(slot.owner, WithChunk(chunks, chunk));
          FirstData(Event(slot, Joined(chunks) + chunk), Alone(slot, [], cmds[1..]));
        } else {
          AloneBodies(slot, WithChunk(chunks, chunk), cmds[1..]);
        }
      case _ =>
        AloneBodies(slot, [], cmds[1..]);
    }
  }

  /** A packet a body for one image of a slot, the last one flagged. */
  function Feeds(slot: Slot, bodies: seq<Bytes>, maxPages: nat): seq<Command>
  {
    if bodies == [] then []
    else [Feed(slot, bodies[0], |bodies| == 1, maxPages)] + Feeds(slot, bodies[1..], maxPages)
  }

  function WithChunks(chunks: seq<Bytes>, bodies: seq<Bytes>): seq<Bytes>
    decreases |bodies|
  {
    if bodies == [] then chunks else WithChunks(WithChunk(chunks, bodies[0]), bodies[1..])
  }

  lemma {:induction false} FeedsAlone(slot: Slot, chunks: seq<Bytes>, bodies: seq<Bytes>, maxPages: nat)
    requires bodies != []
    ensures Alone(slot, chunks, Feeds(slot, bodies, maxPages))
         == [Event(slot, Finished(slot.owner, WithChunks(chunks, bodies)))]
    decreases |bodies|
  {
    var rest := Feeds(slot, bodies[1..], maxPages);
    assert Feeds(slot, bodies, maxPages)[1..] == rest;
    if |bodies| == 1 {
      assert bodies[1..] == [] && rest == [];
    } else {
      FeedsAlone(slot, WithChunk(chunks, bodies[0]), bodies[1..], maxPages);
    }
  }

  lemma {:induction false} WithChunksJoined(chunks: seq<Bytes>, bodies: seq<Bytes>)
    ensures Joined(WithChunks(chunks, bodies)) == Joined(chunks) + Joined(bodies)
    ensures chunks != [] ==> WithChunks(chunks, bodies) != [] && WithChunks(chunks, bodies)[0] == chunks[0]
    decreases |bodies|
  {
    if bodies == [] {
      assert Joined(chunks) + [] == Joined(chunks);
    } else {
      JoinedAppend(chunks, bodies[0]);
      WithChunksJoined(WithChunk(chunks, bodies[0]), bodies[1..]);
      assert Joined(chunks) + bodies[0] + Joined(bodies[1..]) == Joined(chunks) + (bodies[0] + Joined(bodies[1..]));
    }
  }

  /** A BMP file sent to a gen1 key in padded packets comes out as exactly the file. */
  lemma Gen1ImageRecovered(slot: Slot, file: Bytes, bodies: seq<Bytes>, padding: Bytes)
    requires slot.owner == Gen1ImagePages
    requires IsBmp(file)
    requires bodies != [] && |bodies[0]| >= 6 && Joined(bodies) == file + padding
    ensures Alone(slot, [], Feeds(slot, bodies, 0)) == [Event(slot, file)]
  {
    FeedsAlone(slot, [], bodies, 0);
    WithChunksJoined([], bodies);
    assert WithChunk([], bodies[0]) == [bodies[0]];
    WithChunksJoined([bodies[0]], bodies[1..]);
    assert Joined([]) + Joined(bodies) == Joined(bodies);
    Gen1FileRecovered(file, WithChunks([], bodies), padding);
  }

  /** A gen1 packet for a key: 16 bytes of header, the key in byte 5 counted from 1, the last flag in
      byte 4, and the body, which only a last packet may lack. */
  predicate IsGen1Packet(pkt: Bytes, key: nat, body: Bytes, last: bool)
  {
    && |pkt| >= GEN1_IMAGE_HEADER_SIZE && pkt[5] == key + 1 && (pkt[4] == IMAGE_CHUNK_LAST_FLAG <==> last)
    && pkt[GEN1_IMAGE_HEADER_SIZE..] == body && (last || body != [])
  }

  lemma Gen1PacketFeeds(pkt: Bytes, key: nat, body: Bytes, last: bool)
    requires IsGen1Packet(pkt, key, body, last)
    ensures ParseGen1(pkt) == Feed(Slot(Gen1ImagePages, key), body, last, 0)
  {
  }

  function Gen1Commands(pkts: seq<Bytes>): seq<Command>
  {
    if pkts == [] then [] else [ParseGen1(pkts[0])] + Gen1Commands(pkts[1..])
  }

  /** One packet a body, the last one flagged. */
  predicate AreGen1Packets(pkts: seq<Bytes>, key: nat, bodies: seq<Bytes>)
  {
    && |pkts| == |bodies|
    && forall i :: 0 <= i < |pkts| ==> IsGen1Packet(pkts[i], key, bodies[i], i == |pkts| - 1)
  }

  lemma {:induction false} Gen1PacketsFeed(pkts: seq<Bytes>, key: nat, bodies: seq<Bytes>)
    requires AreGen1Packets(pkts, key, bodies)
    ensures Gen1Commands(pkts) == Feeds(Slot(Gen1ImagePages, key), bodies, 0)
    decreases |pkts|
  {
    if pkts != [] {
      Gen1PacketFeeds(pkts[0], key, bodies[0], |pkts| == 1);
      assert AreGen1Packets(pkts[1..], key, bodies[1..]) by {
        forall i | 0 <= i < |pkts[1..]| ensures IsGen1Packet(pkts[1..][i], key, bodies[1..][i], i == |pkts[1..]| - 1) {
          assert IsGen1Packet(pkts[i + 1], key, bodies[i + 1], i + 1 == |pkts| - 1);
        }
      }
      Gen1PacketsFeed(pkts[1..], key, bodies[1..]);
    }
  }

  /** A BMP file sent to a gen1 key in padded packets, among any other packets of a quiet run, comes out
      as exactly the file. */
  lemma Gen1PacketsRecovered(start: int, inputs: seq<Input>, pkts: seq<Bytes>, key: nat, file: Bytes,
                             bodies: seq<Bytes>, padding: Bytes)
    requires QuietRun(EMPTY, start, inputs) && For(Slot(Gen1ImagePages, key), Commands(inputs)) == Gen1Commands(pkts)
    requires AreGen1Packets(pkts, key, bodies)
    requires IsBmp(file)
    requires bodies != [] && |bodies[0]| >= 6 && Joined(bodies) == file + padding
    ensures EventsAt(Slot(Gen1ImagePages, key), Run(EMPTY, inputs).events) == [Event(Slot(Gen1ImagePages, key), file)]
  {
    InterleavingIndependent(start, inputs, Slot(Gen1ImagePages, key));
    Gen1PacketsFeed(pkts, key, bodies);
    Gen1ImageRecovered(Slot(Gen1ImagePages, key), file, bodies, padding);
  }

  // ---------------------------------------------------------------- a region's packets

  /** A partial-window packet: the rectangle in bytes 2 to 9, the last flag in byte 10, the length of the body in
      bytes 13 and 14, the low byte of each number first, and the body behind 16 bytes of header. */
  predicate IsPartialPacket(pkt: Bytes, region: Region, body: Bytes, last: bool)
  {
    && HasRectangle(pkt, region) && |pkt| >= 16 + |body|
    && (pkt[10] == IMAGE_CHUNK_LAST_FLAG <==> last) && CoraFrames.Two(pkt[13], pkt[14]) == |body|
    && pkt[16..16 + |body|] == body
  }

  predicate HasRectangle(pkt: Bytes, region: Region)
  {
    && |pkt| >= 16
    && region == Region(CoraFrames.Two(pkt[2], pkt[3]), CoraFrames.Two(pkt[4], pkt[5]),
                        CoraFrames.Two(pkt[6], pkt[7]), CoraFrames.Two(pkt[8], pkt[9]))
  }

  lemma RegionIs(pkt: Bytes, region: Region)
    requires HasRectangle(pkt, region)
    ensures RegionOf(pkt) == region && CoraFrames.ReadLittleEndian(pkt[13..15]) == CoraFrames.Two(pkt[13], pkt[14])
  {
    CoraFrames.ReadTwo(pkt[2..4]);
    CoraFrames.ReadTwo(pkt[4..6]);
    CoraFrames.ReadTwo(pkt[6..8]);
    CoraFrames.ReadTwo(pkt[8..10]);
    CoraFrames.ReadTwo(pkt[13..15]);
  }

  /** A packet for a region inside the window feeds its body to that region. */
  lemma PartialPacketFeeds(pkt: Bytes, region: Region, body: Bytes, last: bool)
    requires IsPartialPacket(pkt, region, body, last) && InWindow(region)
    ensures ParsePartialWindow(pkt) == Feed(Slot(PartialPages, RegionKey(region)), body, last, 8)
    ensures RegionOf(pkt) == region
  {
    RegionIs(pkt, region);
  }

  /** Any other packet feeds nothing: one without a whole header or with a region outside the window is ignored, and
      one that declares a longer body than it has drops the region. */
  lemma PartialPacketRefused(pkt: Bytes, region: Region)
    requires |pkt| >= 16 ==> HasRectangle(pkt, region)
    ensures |pkt| < 16 || !InWindow(region) ==> ParsePartialWindow(pkt) == Ignore
    ensures |pkt| >= 16 && InWindow(region) && CoraFrames.Two(pkt[13], pkt[14]) > |pkt| - 16 ==>
              ParsePartialWindow(pkt) == Drop(Slot(PartialPages, RegionKey(region)))
  {
    if |pkt| >= 16 {
      RegionIs(pkt, region);
    }
  }

  function PartialCommands(pkts: seq<Bytes>): seq<Command>
  {
    if pkts == [] then [] else [ParsePartialWindow(pkts[0])] + PartialCommands(pkts[1..])
  }

  predicate ArePartialPackets(pkts: seq<Bytes>, region: Region, bodies: seq<Bytes>)
  {
    && |pkts| == |bodies|
    && forall i :: 0 <= i < |pkts| ==> IsPartialPacket(pkts[i], region, bodies[i], i == |pkts| - 1)
  }

  lemma {:induction false} PartialPacketsFeed(pkts: seq<Bytes>, region: Region, bodies: seq<Bytes>)
    requires ArePartialPackets(pkts, region, bodies) && InWindow(region)
    ensures PartialCommands(pkts) == Feeds(Slot(PartialPages, RegionKey(region)), bodies, 8)
    decreases |pkts|
  {
    if pkts != [] {
      PartialPacketFeeds(pkts[0], region, bodies[0], |pkts| == 1);
      assert ArePartialPackets(pkts[1..], region, bodies[1..]) by {
        forall i | 0 <= i < |pkts[1..]|
          ensures IsPartialPacket(pkts[1..][i], region, bodies[1..][i], i == |pkts[1..]| - 1)
        {
          assert IsPartialPacket(pkts[i + 1], region, bodies[i + 1], i + 1 == |pkts| - 1);
        }
      }
      PartialPacketsFeed(pkts[1..], region, bodies[1..]);
    }
  }

  /** The packets of a region, among any other packets of a quiet run, give one image: that rectangle's, with their
      bodies joined. */
  lemma PartialPacketsRecovered(start: int, inputs: seq<Input>, pkts: seq<Bytes>, region: Region, bodies: seq<Bytes>)
    requires InWindow(region) && bodies != [] && ArePartialPackets(pkts, region, bodies)
    requires QuietRun(EMPTY, start, inputs)
    requires For(Slot(PartialPages, RegionKey(region)), Commands(inputs)) == PartialCommands(pkts)
    ensures var slot := Slot(PartialPages, RegionKey(region));
            && EventsAt(slot, Run(EMPTY, inputs).events) == [Event(slot, Joined(bodies))]
            && KeyRegion(slot.key) == region
  {
    var slot := Slot(PartialPages, RegionKey(region));
    RegionKeyInjective(region);
    InterleavingIndependent(start, inputs, slot);
    PartialPacketsFeed(pkts, region, bodies);
    FeedsAlone(slot, [], bodies, 8);
    WithChunksJoined([], bodies);
    FinishedWhole(PartialPages, WithChunks([], bodies));
    assert [] + Joined(bodies) == Joined(bodies);
  }

  lemma {:induction false} StoreStays(s: State, now: int)
    requires forall a :: a in s.live ==> a in s.store
    ensures Expired(s, now).store == s.store && forall a :: a in Expired(s, now).live ==> a in s.live
    decreases |s.live|
  {
    if HeadStale(s, now) {
      StoreStays(Evicted(s, s.live[0]), now);
    }
  }

  lemma {:induction false} StillStored(live: seq<Id>, a: Id, store: map<Id, Assembly>)
    requires forall b :: b in live ==> b in store
    ensures forall b :: b in Remove(live, a) ==> b in store
  {
    if live != [] {
      StillStored(live[1..], a, store);
    }
  }

  // ---------------------------------------------------------------- the connection's objects

  datatype PartialWindowEvent = PartialWindowEvent(region: Region, data: Bytes)

  datatype TouchImageEvent = TouchImageEvent(data: Bytes, region: CoraFrames.Option<Region>)

  /** The assembly objects, the maps and the budget of one connection. */
  class Assemblies {
    var store: map<Id, Assembly>
    var next: Id
    var pages: map<Slot, Id>
    var order: seq<Slot>
    var live: seq<Id>
    var total: int

    ghost function Now(): State
      reads this
    {
      State(store, next, pages, order, live, total)
    }

    constructor ()
      ensures Now() == EMPTY
    {
      store, next, pages, order, live, total := map[], 0, map[], [], [], 0;
    }

    method Release(a: Id)
      requires a in live ==> a in store
      modifies this
      ensures Now() == Released(old(Now()), a)
    {
      if a in live {
        live := Remove(live, a);
        total := total - store[a].bytes;
      }
    }

    method Delete(slot: Slot)
      modifies this
      ensures Now() == Deleted(old(Now()), slot)
    {
      pages := pages - {slot};
      order := Remove(order, slot);
    }

    method Evict(a: Id)
      requires a in store
      modifies this
      ensures Now() == Evicted(old(Now()), a)
    {
      Release(a);
      Delete(store[a].slot);
    }

    method Discard(slot: Slot)
      requires slot in pages ==> pages[slot] in store
      modifies this
      ensures Now() == Discarded(old(Now()), slot)
    {
      if slot in pages {
        Release(pages[slot]);
      }
      Delete(slot);
    }

    method ExpireStale(now: int)
      requires forall a :: a in live ==> a in store
      modifies this
      ensures Now() == Expired(old(Now()), now)
    {
      while live != []
        invariant forall a :: a in live ==> a in store
        invariant Expired(Now(), now) == Expired(old(Now()), now)
        decreases |live|
      {
        var a := live[0];
        if now - store[a].touchedAt < ASSEMBLY_STALE_MS {
          break;
        }
        Evict(a);
      }
    }

    /** charge: accepts or refuses as its specification does. For an assembly within its own cap it accepts,
        expires the stale ones if the assembly is new, and makes room with no more of the others than it must. */
    method Charge(a: Id, delta: nat, now: int) returns (ok: bool)
      requires a in store && forall b :: b in live ==> b in store
      modifies this
      ensures Charged(old(Now()), a, delta, now) == if ok then Accepted(Now()) else Refused(Now())
      ensures TakenOn(old(Now()), Now(), a, delta, now, ok)
      ensures a in store
    {
      if a !in live {
        ExpireStale(now);
        StoreStays(old(Now()), now);
      } else {
        live := Remove(live, a);
        StillStored(old(live), a, store);
      }
      store := store[a := store[a].(touchedAt := now)];
      live := live + [a];
      total := total + delta;
      assert Now() == Touched(old(Now()), a, delta, now);
      while total > MAX_TOTAL_ASSEMBLY_BYTES
        invariant a in live && forall b :: b in live ==> b in store
        invariant MadeRoom(Now(), a, delta) == Charged(old(Now()), a, delta, now)
        decreases |live|
      {
        var oldest := live[0];
        if oldest == a {
          total := total - (store[a].bytes + delta);
          live := Remove(live, a);
          TakenOnExactly(old(Now()), Now(), a, delta, now, false);
          return false;
        }
        Evict(oldest);
      }
      ok := true;
      TakenOnExactly(old(Now()), Now(), a, delta, now, ok);
    }

    /** accumulateChunk: the slot's assembly grows, or a new one is made, unless a cap of its own trips. */
    method AccumulateChunk(slot: Slot, chunk: Bytes, maxPages: nat, now: int) returns (grown: bool, a: Id)
      requires Valid(Now()) && NotBefore(Now(), now)
      modifies this
      ensures Accumulated(old(Now()), slot, chunk, maxPages, now) == if grown then Grown(Now(), a) else Dropped(Now())
      ensures ChunkTaken(old(Now()), Now(), slot, chunk, maxPages, now, grown, a)
      ensures grown ==> a in store
    {
      ghost var entered := Entered(Now(), slot, maxPages);
      EnteredKeeps(Now(), slot, maxPages);
      if slot in pages {
        a := pages[slot];
      } else {
        var oldest := OldestOf(order, slot.owner);
        if maxPages > 0 && CountOf(order, slot.owner) >= maxPages && oldest != [] {
          Discard(oldest[0]);
        }
        a := next;
        store := store[a := Assembly([], 0, slot, 0)];
        next := next + 1;
      }
      assert entered == (Now(), a);
      grown := GrowAssembly(slot, a, chunk, now);
      TakenExactly(old(Now()), Now(), slot, chunk, maxPages, now, grown, a);
    }

    /** accumulateChunk, from its caps on. */
    method GrowAssembly(slot: Slot, a: Id, chunk: Bytes, now: int) returns (grown: bool)
      requires Valid(Now()) && Entry(Now(), slot, a)
      modifies this
      ensures Grow(old(Now()), slot, a, chunk, now) == if grown then Grown(Now(), a) else Dropped(Now())
      ensures grown ==> a in store
    {
      if ExceedsBytes(store[a], chunk) || ExceedsChunks(store[a], chunk) {
        Discard(slot);
        return false;
      }
      var ok := Charge(a, |chunk|, now);
      if !ok {
        Delete(slot);
        return false;
      }
      StoreChunk(slot, a, chunk);
      grown := true;
    }

    method StoreChunk(slot: Slot, a: Id, chunk: Bytes)
      requires a in store
      modifies this
      ensures Now() == Stored(old(Now()), slot, a, chunk)
    {
      var assembly := store[a];
      var chunks := if |chunk| > 0 then assembly.chunks + [chunk] else assembly.chunks;
      store := store[a := assembly.(chunks := chunks, bytes := assembly.bytes + |chunk|)];
      order := if slot in pages then order else order + [slot];
      pages := pages[slot := a];
    }

    /** One packet: the invariant holds again and the images are those the packet completes. */
    method Execute(cmd: Command, now: int) returns (events: seq<Event>)
      requires Valid(Now()) && NotBefore(Now(), now)
      modifies this
      ensures Valid(Now()) && NotBefore(Now(), now)
      ensures Outcome(Now(), events) == Step(old(Now()), cmd, now)
    {
      StepKeeps(Now(), cmd, now);
      events := [];
      match cmd {
        case Ignore =>
        case Drop(slot) =>
          Discard(slot);
        case Feed(slot, chunk, last, maxPages) =>
          AccumulatedKeeps(Now(), slot, chunk, maxPages, now);
          var grown, a := AccumulateChunk(slot, chunk, maxPages, now);
          if grown && last {
            events := [Event(slot, Finished(slot.owner, store[a].chunks))];
            Discard(slot);
          }
      }
    }

    method AssembleImageChunk(owner: Owner, pkt: Bytes, maxPages: nat, now: int) returns (events: seq<Event>)
      requires Valid(Now()) && NotBefore(Now(), now)
      modifies this
      ensures Valid(Now()) && NotBefore(Now(), now)
      ensures Outcome(Now(), events) == Step(old(Now()), ParseGen2(owner, maxPages, pkt), now)
    {
      events := Execute(ParseGen2(owner, maxPages, pkt), now);
    }

    method AssembleGen1ImageChunk(pkt: Bytes, now: int) returns (events: seq<Event>)
      requires Valid(Now()) && NotBefore(Now(), now)
      modifies this
      ensures Valid(Now()) && NotBefore(Now(), now)
      ensures Outcome(Now(), events) == Step(old(Now()), ParseGen1(pkt), now)
    {
      events := Execute(ParseGen1(pkt), now);
    }

    /** The completed region is the one every packet of its assembly named. */
    method AssemblePartialWindowChunk(pkt: Bytes, now: int) returns (events: seq<PartialWindowEvent>)
      requires Valid(Now()) && NotBefore(Now(), now)
      modifies this
      ensures Valid(Now()) && NotBefore(Now(), now)
      ensures var outcome := Step(old(Now()), ParsePartialWindow(pkt), now);
              && Now() == outcome.state && |events| == |outcome.events|
              && forall i :: 0 <= i < |events| ==>
                   && events[i].data == outcome.events[i].data
                   && events[i].region == KeyRegion(outcome.events[i].slot.key) == RegionOf(pkt)
    {
      var images := Execute(ParsePartialWindow(pkt), now);
      events := [];
      if images != [] {
        RegionKeyInjective(RegionOf(pkt));
        events := [PartialWindowEvent(RegionOf(pkt), images[0].data)];
      }
    }

    /** accept of the touch strip. */
    method Accept(cmd: nat, pkt: Bytes, now: int) returns (events: seq<TouchImageEvent>)
      requires Valid(Now()) && NotBefore(Now(), now)
      modifies this
      ensures Valid(Now()) && NotBefore(Now(), now)
      ensures cmd == IMG_CMD_LCD ==> events == [] && Now() == old(Now())
      ensures var outcome := Step(old(Now()), StripCommand(cmd, pkt), now);
              && Now() == outcome.state && |events| == |outcome.events|
              && forall i :: 0 <= i < |events| ==>
                   && events[i].data == outcome.events[i].data
                   && events[i].region == if cmd == IMG_CMD_WINDOW_PARTIAL then CoraFrames.Some(RegionOf(pkt))
                     else CoraFrames.None
    {
      events := [];
      if cmd == IMG_CMD_LCD {
        return;
      }
      if cmd == IMG_CMD_WINDOW_PARTIAL {
        var regions := AssemblePartialWindowChunk(pkt, now);
        if regions != [] {
          events := [TouchImageEvent(regions[0].data, CoraFrames.Some(regions[0].region))];
        }
        return;
      }
      var images := AssembleImageChunk(WindowPages, pkt, MAX_WINDOW_ASSEMBLIES, now);
      if images != [] {
        events := [TouchImageEvent(images[0].data, CoraFrames.None)];
      }
    }

    method ResetAssemblies()
      requires Valid(Now())
      modifies this
      ensures Valid(Now()) && Now() == Cleared(old(Now()))
    {
      pages, order, live, total := map[], [], [], 0;
    }
  }
}
