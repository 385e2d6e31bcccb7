/** The byte budget over the image assemblies of a connection. */
module AssemblyBudgets {
  import opened Bits
  import opened Sequences

  const MAX_IMAGE_ASSEMBLY_BYTES := 0x10_0000
  const MAX_IMAGE_ASSEMBLY_CHUNKS := 4096
  const MAX_TOTAL_ASSEMBLY_BYTES := 0x80_0000
  const ASSEMBLY_STALE_MS := 30000

  /** The maps of a connection that hold assemblies. */
  datatype Owner = ImagePages | Gen1ImagePages | WindowPages | PartialPages

  datatype Slot = Slot(owner: Owner, key: int)

  type Bytes = seq<byte>

  /** The identity of an assembly object. */
  type Id = nat

  datatype Assembly = Assembly(chunks: seq<Bytes>, bytes: nat, slot: Slot, touchedAt: int)

  /** Assembly objects live in a store and are known by their identity; the connection's maps are one map
      from (map, key) to identities. store: every assembly object made so far. pages and order: the
      entries of all maps, and the order they were inserted in. live and total: the budget's set, least
      recently touched first, and its sum. */
  datatype State = State(store: map<Id, Assembly>, next: Id, pages: map<Slot, Id>, order: seq<Slot>, live: seq<Id>,
                         total: int)

  function Remove<T(==)>(s: seq<T>, x: T): seq<T>
  {
    if s == [] then [] else if s[0] == x then s[1..] else [s[0]] + Remove(s[1..], x)
  }

  lemma {:induction false} RemoveMeans<T(!new)>(s: seq<T>, x: T)
    requires Distinct(s)
    ensures Distinct(Remove(s, x)) && forall y :: y in Remove(s, x) <==> y in s && y != x
    ensures |Remove(s, x)| == if x in s then |s| - 1 else |s|
  {
    if s != [] {
      DistinctTail(s);
      RemoveMeans(s[1..], x);
      if s[0] != x {
        DistinctCons(s[0], Remove(s[1..], x));
      }
    }
  }

  // ---------------------------------------------------------------- the budget's operations

  function Sum(store: map<Id, Assembly>, live: seq<Id>): nat
  {
    if live == [] then 0
    else (if live[0] in store then store[live[0]].bytes else 0) + Sum(store, live[1..])
  }

  /** release. */
  function Released(s: State, a: Id): State
  {
    if a in s.live && a in s.store then s.(live := Remove(s.live, a), total := s.total - s.store[a].bytes) else s
  }

  function Deleted(s: State, slot: Slot): State
  {
    s.(pages := s.pages - {slot}, order := Remove(s.order, slot))
  }

  /** evict. */
  function Evicted(s: State, a: Id): State
  {
    if a in s.store then Deleted(Released(s, a), s.store[a].slot) else s
  }

  /** The first assembly is stale at a time. */
  predicate HeadStale(s: State, now: int)
  {
    s.live != [] && s.live[0] in s.store && now - s.store[s.live[0]].touchedAt >= ASSEMBLY_STALE_MS
  }

  /** expireStale. */
  function Expired(s: State, now: int): State
    decreases |s.live|
  {
    if HeadStale(s, now) then Expired(Evicted(s, s.live[0]), now) else s
  }

  datatype Charge = Refused(state: State) | Accepted(state: State)

  /** The loop of charge: evicts the oldest others until the total fits. */
  function MadeRoom(s: State, a: Id, delta: nat): Charge
    decreases |s.live|
  {
    if s.total <= MAX_TOTAL_ASSEMBLY_BYTES || s.live == [] || a !in s.store then Accepted(s)
    else if s.live[0] == a then
      Refused(s.(total := s.total - (s.store[a].bytes + delta), live := Remove(s.live, a)))
    else if s.live[0] in s.store then MadeRoom(Evicted(s, s.live[0]), a, delta)
    else Accepted(s)
  }

  function Appended(s: State, a: Id, delta: nat, now: int): State
  {
    if a in s.store then
      s.(store := s.store[a := s.store[a].(touchedAt := now)], live := s.live + [a], total := s.total + delta)
    else s
  }

  /** charge, up to its loop: the assembly becomes the most recently touched. */
  function Touched(s: State, a: Id, delta: nat, now: int): State
  {
    Appended(if a in s.live then s.(live := Remove(s.live, a)) else Expired(s, now), a, delta, now)
  }

  function Charged(s: State, a: Id, delta: nat, now: int): Charge
  {
    MadeRoom(Touched(s, a, delta, now), a, delta)
  }

  // ---------------------------------------------------------------- the invariant

  function Size(chunks: seq<Bytes>): nat
  {
    if chunks == [] then 0 else |chunks[0]| + Size(chunks[1..])
  }

  /** The caps of one assembly, and the count it keeps of its bytes. */
  predicate WellSized(a: Assembly)
  {
    && a.bytes == Size(a.chunks) <= MAX_IMAGE_ASSEMBLY_BYTES
    && |a.chunks| <= MAX_IMAGE_ASSEMBLY_CHUNKS
    && forall i :: 0 <= i < |a.chunks| ==> a.chunks[i] != []
  }

  /** An assembly is in its own map, at its own key. */
  predicate Reached(s: State, a: Id)
  {
    a in s.store && s.store[a].slot in s.pages && s.pages[s.store[a].slot] == a
  }

  /** The live set is exactly the assemblies in the maps, except for one that is being added. */
  ghost predicate Linked(s: State, pending: set<Id>)
  {
    && Distinct(s.live) && Distinct(s.order)
    && (forall a :: a in s.store ==> a < s.next)
    && (forall a :: a in s.live ==> a in s.store)
    && (forall slot :: slot in s.order <==> slot in s.pages)
    && (forall slot :: slot in s.pages ==> s.pages[slot] in s.live && s.store[s.pages[slot]].slot == slot)
    && (forall a :: a in s.live && a !in pending ==> Reached(s, a))
  }

  ghost predicate Ordered(s: State)
    requires forall a :: a in s.live ==> a in s.store
  {
    forall i, j :: 0 <= i < j < |s.live| ==> s.store[s.live[i]].touchedAt <= s.store[s.live[j]].touchedAt
  }

  ghost predicate AllWellSized(s: State)
  {
    forall a :: a in s.live && a in s.store ==> WellSized(s.store[a])
  }

  /** The clock has not run backwards. */
  ghost predicate NotBefore(s: State, now: int)
  {
    forall a :: a in s.live && a in s.store ==> s.store[a].touchedAt <= now
  }

  ghost predicate Valid(s: State)
  {
    && Linked(s, {}) && Ordered(s) && AllWellSized(s)
    && s.total == Sum(s.store, s.live) <= MAX_TOTAL_ASSEMBLY_BYTES
  }

  // ---------------------------------------------------------------- eviction

  /** t is s without some of its least recently touched assemblies. */
  ghost predicate Kept(s: State, t: State)
  {
    && t.store == s.store && t.next == s.next
    && |t.live| <= |s.live| && t.live == s.live[|s.live| - |t.live|..]
    && t.total - Sum(t.store, t.live) == s.total - Sum(s.store, s.live)
    && (forall slot :: slot in t.pages <==> slot in s.pages && s.pages[slot] in t.live)
    && (forall slot :: slot in t.pages ==> t.pages[slot] == s.pages[slot])
  }

  lemma KeptTransitive(s: State, t: State, u: State)
    requires Kept(s, t) && Kept(t, u)
    ensures Kept(s, u)
  {
  }

  lemma KeptSelf(s: State, pending: set<Id>)
    requires Linked(s, pending)
    ensures Kept(s, s)
  {
  }

  /** Evicting the head takes its entry out of its map and its bytes out of the total. */
  lemma EvictedHead(s: State, pending: set<Id>)
    requires Linked(s, pending) && s.live != [] && s.live[0] !in pending
    ensures Linked(Evicted(s, s.live[0]), pending) && Kept(s, Evicted(s, s.live[0]))
    ensures |Evicted(s, s.live[0]).live| == |s.live| - 1
  {
    var a := s.live[0];
    var slot := s.store[a].slot;
    assert Reached(s, a);
    var t := Evicted(s, a);
    DistinctTail(s.live);
    RemoveMeans(s.order, slot);
    assert t.live == s.live[1..];
    forall b | b in t.live && b !in pending ensures Reached(t, b) {
      assert Reached(s, b);
    }
  }

  lemma KeptOrder(s: State, t: State, pending: set<Id>)
    requires Linked(s, pending) && Linked(t, pending) && Kept(s, t) && Ordered(s)
    ensures Ordered(t)
  {
  }

  lemma {:induction false} ExpiredKeeps(s: State, now: int)
    requires Linked(s, {}) && Ordered(s)
    ensures var t := Expired(s, now); Linked(t, {}) && Ordered(t) && Kept(s, t) && !HeadStale(t, now)
    ensures forall a :: a in s.live && a !in Expired(s, now).live ==> now - s.store[a].touchedAt >= ASSEMBLY_STALE_MS
    decreases |s.live|
  {
    if HeadStale(s, now) {
      var t := Evicted(s, s.live[0]);
      EvictedHead(s, {});
      KeptOrder(s, t, {});
      ExpiredKeeps(t, now);
      KeptTransitive(s, t, Expired(t, now));
    } else {
      KeptSelf(s, {});
    }
  }

  /** expireStale evicts exactly the stale assemblies, although it stops at the first one that is not. */
  lemma ExpiredExactly(s: State, now: int)
    requires Linked(s, {}) && Ordered(s)
    ensures forall a :: a in Expired(s, now).live <==> a in s.live && now - s.store[a].touchedAt < ASSEMBLY_STALE_MS
  {
    ExpiredKeeps(s, now);
    var t := Expired(s, now);
    forall a | a in t.live ensures now - s.store[a].touchedAt < ASSEMBLY_STALE_MS {
      var i :| 0 <= i < |t.live| && t.live[i] == a;
      assert t.store[t.live[0]].touchedAt <= t.store[t.live[i]].touchedAt;
    }
  }

  lemma {:induction false} SumAppend(store: map<Id, Assembly>, live: seq<Id>, a: Id)
    ensures Sum(store, live + [a]) == Sum(store, live) + Sum(store, [a])
  {
    if live == [] {
      assert [] + [a] == [a];
    } else {
      SumAppend(store, live[1..], a);
      assert (live + [a])[1..] == live[1..] + [a];
    }
  }

  lemma {:induction false} SumRemove(store: map<Id, Assembly>, live: seq<Id>, a: Id)
    requires a in live && a in store
    ensures Sum(store, Remove(live, a)) == Sum(store, live) - store[a].bytes
  {
    if live[0] != a {
      SumRemove(store, live[1..], a);
    }
  }

  lemma {:induction false} SumSame(store: map<Id, Assembly>, other: map<Id, Assembly>, live: seq<Id>)
    requires forall a :: a in live ==> a in store && a in other && store[a].bytes == other[a].bytes
    ensures Sum(store, live) == Sum(other, live)
  {
    if live != [] {
      SumSame(store, other, live[1..]);
    }
  }

  /** A state in which charge is making room for the most recently touched assembly. */
  ghost predicate Making(s: State, a: Id, delta: nat)
  {
    && Linked(s, {a}) && Ordered(s)
    && s.live != [] && s.live[|s.live| - 1] == a
    && s.store[a].bytes + delta <= MAX_TOTAL_ASSEMBLY_BYTES
    && s.total == Sum(s.store, s.live) + delta
  }

  lemma AloneFits(s: State, a: Id, delta: nat)
    requires Making(s, a, delta)
    ensures s.live[0] == a ==> s.live == [a] && s.total <= MAX_TOTAL_ASSEMBLY_BYTES
  {
    if s.live[0] == a {
      assert s.live[0] == s.live[|s.live| - 1];
      assert s.live == [a];
      assert Sum(s.store, s.live) == s.store[a].bytes + Sum(s.store, s.live[1..]);
    }
  }

  /** charge never refuses an assembly that fits the budget alone, so with the default caps never; it
      leaves the longest run of recently touched assemblies that fits. */
  lemma {:induction false} MadeRoomKeeps(s: State, a: Id, delta: nat)
    requires Making(s, a, delta)
    ensures MadeRoom(s, a, delta).Accepted?
    ensures var t := MadeRoom(s, a, delta).state;
            Making(t, a, delta) && Kept(s, t) && t.total <= MAX_TOTAL_ASSEMBLY_BYTES
    ensures var t := MadeRoom(s, a, delta).state;
            |t.live| < |s.live| ==>
              t.total + Sum(s.store, [s.live[|s.live| - |t.live| - 1]]) > MAX_TOTAL_ASSEMBLY_BYTES
    decreases |s.live|
  {
    if s.total > MAX_TOTAL_ASSEMBLY_BYTES {
      AloneFits(s, a, delta);
      var t := Evicted(s, s.live[0]);
      EvictedHead(s, {a});
      KeptOrder(s, t, {a});
      MadeRoomKeeps(t, a, delta);
      KeptTransitive(s, t, MadeRoom(t, a, delta).state);
    } else {
      KeptSelf(s, {a});
    }
  }

  // ---------------------------------------------------------------- the maps' operations

  /** How many entries one map has. */
  function CountOf(order: seq<Slot>, owner: Owner): nat
  {
    if order == [] then 0 else (if order[0].owner == owner then 1 else 0) + CountOf(order[1..], owner)
  }

  /** The entry of one map that was inserted first. */
  ghost predicate IsOldest(order: seq<Slot>, owner: Owner, slot: Slot)
  {
    exists i :: 0 <= i < |order| && order[i] == slot && slot.owner == owner && NoneBefore(order, owner, i)
  }

  ghost predicate NoneBefore(order: seq<Slot>, owner: Owner, i: nat)
  {
    forall j :: 0 <= j < i && j < |order| ==> order[j].owner != owner
  }

  lemma OldestBehind(order: seq<Slot>, owner: Owner, slot: Slot)
    requires order != [] && order[0].owner != owner && IsOldest(order[1..], owner, slot)
    ensures IsOldest(order, owner, slot)
  {
    var i :| 0 <= i < |order[1..]| && order[1..][i] == slot && slot.owner == owner && NoneBefore(order[1..], owner, i);
    forall j | 0 <= j < i + 1 ensures order[j].owner != owner {
      assert j > 0 ==> order[j] == order[1..][j - 1];
    }
    assert NoneBefore(order, owner, i + 1);
  }

  /** The first entry of one map, in insertion order. */
  function OldestOf(order: seq<Slot>, owner: Owner): (r: seq<Slot>)
    ensures |r| <= 1 && (forall slot :: slot in r ==> slot in order && slot.owner == owner)
    ensures r == [] <==> CountOf(order, owner) == 0
    ensures r != [] ==> IsOldest(order, owner, r[0])
  {
    if order == [] then []
    else if order[0].owner == owner then assert NoneBefore(order, owner, 0); [order[0]]
    else
      var r := OldestOf(order[1..], owner);
      assert r != [] ==> IsOldest(order, owner, r[0]) by {
        if r != [] {
          OldestBehind(order, owner, r[0]);
        }
      }
      r
  }

  /** discard. */
  function Discarded(s: State, slot: Slot): State
  {
    if slot in s.pages then Deleted(Released(s, s.pages[slot]), slot) else Deleted(s, slot)
  }

  datatype Grown = Dropped(state: State) | Grown(state: State, assembly: Id)

  /** A map that is full loses its oldest entry. maxPages is 0 for a map without a cap. */
  function Capped(s: State, owner: Owner, maxPages: nat): State
  {
    var oldest := OldestOf(s.order, owner);
    if maxPages > 0 && CountOf(s.order, owner) >= maxPages && oldest != [] then Discarded(s, oldest[0]) else s
  }

  function WithNew(s: State, slot: Slot): State
  {
    s.(store := s.store[s.next := Assembly([], 0, slot, 0)], next := s.next + 1)
  }

  /** The entry for a slot: the one in flight, or a new object, for which a full map makes place. */
  function Entered(s: State, slot: Slot, maxPages: nat): (State, Id)
  {
    if slot in s.pages then (s, s.pages[slot])
    else
      var s := Capped(s, slot.owner, maxPages);
      (WithNew(s, slot), s.next)
  }

  /** The end of accumulateChunk: the chunk is stored and the entry set. */
  function Stored(s: State, slot: Slot, a: Id, chunk: Bytes): State
    requires a in s.store
  {
    var was := s.store[a];
    var chunks := if |chunk| > 0 then was.chunks + [chunk] else was.chunks;
    s.(store := s.store[a := was.(chunks := chunks, bytes := was.bytes + |chunk|)],
       pages := s.pages[slot := a],
       order := if slot in s.pages then s.order else s.order + [slot])
  }

  predicate ExceedsBytes(a: Assembly, chunk: Bytes)
  {
    a.bytes + |chunk| > MAX_IMAGE_ASSEMBLY_BYTES
  }

  /** Empty chunks are not stored, so they do not count. */
  predicate ExceedsChunks(a: Assembly, chunk: Bytes)
  {
    |chunk| > 0 && |a.chunks| >= MAX_IMAGE_ASSEMBLY_CHUNKS
  }

  /** accumulateChunk, from its caps on. */
  function Grow(s: State, slot: Slot, a: Id, chunk: Bytes, now: int): Grown
    requires a in s.store
  {
    if ExceedsBytes(s.store[a], chunk) || ExceedsChunks(s.store[a], chunk) then Dropped(Discarded(s, slot))
    else
      match Charged(s, a, |chunk|, now)
      case Refused(s) => Dropped(Deleted(s, slot))
      case Accepted(s) => if a in s.store then Grown(Stored(s, slot, a, chunk), a) else Dropped(s)
  }

  /** accumulateChunk. */
  function Accumulated(s: State, slot: Slot, chunk: Bytes, maxPages: nat, now: int): Grown
  {
    var (s, a) := Entered(s, slot, maxPages);
    if a in s.store then Grow(s, slot, a, chunk, now) else Dropped(s)
  }

  // ---------------------------------------------------------------- every operation keeps the invariant

  lemma {:induction false} RemoveSubsequence<T(!new)>(s: seq<T>, x: T) returns (cut: nat)
    ensures cut <= |s| && (x in s ==> cut < |s|)
    ensures x in s ==> Remove(s, x) == s[..cut] + s[cut + 1..]
    ensures x !in s ==> Remove(s, x) == s
  {
    if s == [] {
      cut := 0;
    } else if s[0] == x {
      cut := 0;
      assert s[..0] == [];
    } else {
      var c := RemoveSubsequence(s[1..], x);
      cut := if x in s then c + 1 else |s|;
      if x in s {
        assert s[..cut] + s[cut + 1..] == [s[0]] + (s[1..][..c] + s[1..][c + 1..]);
      }
    }
  }

  lemma RemoveOrder(s: State, a: Id)
    requires Linked(s, {}) && Ordered(s)
    ensures Distinct(Remove(s.live, a)) && forall b :: b in Remove(s.live, a) ==> b in s.store
    ensures Ordered(s.(live := Remove(s.live, a)))
  {
    var cut := RemoveSubsequence(s.live, a);
    RemoveMeans(s.live, a);
  }

  lemma DiscardedParts(s: State, slot: Slot)
    requires Linked(s, {})
    ensures var t := Discarded(s, slot);
            && t.store == s.store && t.next == s.next && t.pages == s.pages - {slot}
            && t.order == Remove(s.order, slot)
            && t.live == (if slot in s.pages then Remove(s.live, s.pages[slot]) else s.live)
            && t.total == s.total - (if slot in s.pages then s.store[s.pages[slot]].bytes else 0)
  {
  }

  lemma DiscardedLinked(s: State, slot: Slot)
    requires Linked(s, {})
    ensures Linked(Discarded(s, slot), {})
  {
    var t := Discarded(s, slot);
    DiscardedParts(s, slot);
    RemoveMeans(s.order, slot);
    if slot in s.pages {
      RemoveMeans(s.live, s.pages[slot]);
    }
    forall a | a in t.live ensures Reached(t, a) {
      assert Reached(s, a);
    }
  }

  lemma DiscardedKeeps(s: State, slot: Slot)
    requires Valid(s)
    ensures Valid(Discarded(s, slot))
  {
    DiscardedParts(s, slot);
    DiscardedLinked(s, slot);
    if slot in s.pages {
      var a := s.pages[slot];
      RemoveMeans(s.live, a);
      SumRemove(s.store, s.live, a);
      RemoveOrder(s, a);
    }
  }

  /** The assembly to grow: the slot's own, or a new one that is in no map yet. */
  ghost predicate Entry(s: State, slot: Slot, a: Id)
  {
    && a in s.store && s.store[a].slot == slot && WellSized(s.store[a])
    && (slot in s.pages ==> s.pages[slot] == a)
    && (slot !in s.pages ==> a !in s.live && s.store[a].chunks == [])
  }

  /** Nothing was added: what is live in t is live in s, unchanged. */
  ghost predicate Shrunk(s: State, t: State)
  {
    && (forall a :: a in t.live ==> a in s.live && a in s.store && a in t.store && t.store[a] == s.store[a])
    && (forall slot :: slot in t.pages ==> slot in s.pages && t.pages[slot] == s.pages[slot])
  }

  lemma NewObject(s: State, slot: Slot)
    requires Valid(s) && slot !in s.pages
    ensures Valid(WithNew(s, slot)) && Entry(WithNew(s, slot), slot, s.next) && Shrunk(s, WithNew(s, slot))
  {
    var t := WithNew(s, slot);
    SumSame(s.store, t.store, s.live);
    assert s.next !in s.live;
    forall a | a in t.live ensures Reached(t, a) {
      assert Reached(s, a);
    }
  }

  lemma DiscardedShrunk(s: State, slot: Slot)
    requires Linked(s, {})
    ensures Shrunk(s, Discarded(s, slot)) && slot !in Discarded(s, slot).pages
  {
    DiscardedParts(s, slot);
    if slot in s.pages {
      RemoveMeans(s.live, s.pages[slot]);
    }
  }

  lemma CappedKeeps(s: State, owner: Owner, maxPages: nat)
    requires Valid(s)
    ensures Valid(Capped(s, owner, maxPages)) && Shrunk(s, Capped(s, owner, maxPages))
  {
    var oldest := OldestOf(s.order, owner);
    if oldest != [] {
      DiscardedKeeps(s, oldest[0]);
      DiscardedShrunk(s, oldest[0]);
    }
  }

  lemma EnteredKeeps(s: State, slot: Slot, maxPages: nat)
    requires Valid(s)
    ensures var (t, a) := Entered(s, slot, maxPages); Valid(t) && Entry(t, slot, a) && Shrunk(s, t)
  {
    if slot in s.pages {
      assert WellSized(s.store[s.pages[slot]]);
    } else {
      CappedKeeps(s, slot.owner, maxPages);
      NewObject(Capped(s, slot.owner, maxPages), slot);
    }
  }

  /** Touching a live assembly moves it to the end of the order. */
  lemma TouchedLive(s: State, slot: Slot, a: Id, delta: nat, now: int)
    requires Valid(s) && Entry(s, slot, a) && a in s.live && NotBefore(s, now)
    requires s.store[a].bytes + delta <= MAX_IMAGE_ASSEMBLY_BYTES
    ensures Making(Touched(s, a, delta, now), a, delta)
  {
    var without := s.(live := Remove(s.live, a));
    var t := Touched(s, a, delta, now);
    RemoveMeans(s.live, a);
    RemoveOrder(s, a);
    SumRemove(s.store, s.live, a);
    TouchedSum(s.store, without.live, a, now);
    DistinctSnoc(without.live, a);
    assert t.live == without.live + [a];
    TouchedLinked(s, t, slot, a);
    TouchedOrdered(without, t, a, now);
  }

  lemma TouchedSum(store: map<Id, Assembly>, live: seq<Id>, a: Id, now: int)
    requires a in store && forall b :: b in live ==> b in store
    ensures Sum(store[a := store[a].(touchedAt := now)], live + [a]) == Sum(store, live) + store[a].bytes
  {
    var touched := store[a := store[a].(touchedAt := now)];
    SumSame(store, touched, live);
    SumAppend(touched, live, a);
    assert Sum(touched, [a]) == touched[a].bytes;
  }

  lemma TouchedLinked(s: State, t: State, slot: Slot, a: Id)
    requires Linked(s, {}) && Entry(s, slot, a) && Distinct(t.live)
    requires t.next == s.next && t.pages == s.pages && t.order == s.order
    requires a in t.store && t.store == s.store[a := t.store[a]] && t.store[a].slot == slot
    requires forall b :: b in t.live <==> b in s.live || b == a
    ensures Linked(t, {a})
  {
    forall b | b in t.live && b != a ensures Reached(t, b) {
      assert Reached(s, b);
    }
  }

  lemma TouchedOrdered(s: State, t: State, a: Id, now: int)
    requires (forall b :: b in s.live ==> b in s.store) && Ordered(s) && NotBefore(s, now) && a !in s.live
             && a in s.store
    requires t.live == s.live + [a] && t.store == s.store[a := s.store[a].(touchedAt := now)]
    ensures (forall b :: b in t.live ==> b in t.store) && Ordered(t)
  {
  }

  lemma KeptEntry(s: State, t: State, slot: Slot, a: Id, now: int)
    requires Linked(s, {}) && Entry(s, slot, a) && slot !in s.pages && NotBefore(s, now) && Kept(s, t)
    ensures Entry(t, slot, a) && NotBefore(t, now) && slot !in t.pages && a !in t.live
  {
  }

  /** A new assembly goes to the end of the order, once the stale ones are gone. */
  lemma TouchedNew(s: State, slot: Slot, a: Id, delta: nat, now: int)
    requires Valid(s) && Entry(s, slot, a) && slot !in s.pages && NotBefore(s, now)
    requires s.store[a].bytes + delta <= MAX_IMAGE_ASSEMBLY_BYTES
    ensures Making(Touched(s, a, delta, now), a, delta)
  {
    ExpiredKeeps(s, now);
    KeptEntry(s, Expired(s, now), slot, a, now);
    AppendedMaking(Expired(s, now), slot, a, delta, now);
  }

  lemma AppendedMaking(e: State, slot: Slot, a: Id, delta: nat, now: int)
    requires Linked(e, {}) && Ordered(e) && Entry(e, slot, a) && slot !in e.pages && NotBefore(e, now)
    requires e.total == Sum(e.store, e.live) && e.store[a].bytes + delta <= MAX_IMAGE_ASSEMBLY_BYTES
    ensures Making(Appended(e, a, delta, now), a, delta)
  {
    var t := Appended(e, a, delta, now);
    TouchedSum(e.store, e.live, a, now);
    DistinctSnoc(e.live, a);
    TouchedLinked(e, t, slot, a);
    TouchedOrdered(e, t, a, now);
  }

  lemma {:induction false} SumUpdate(store: map<Id, Assembly>, live: seq<Id>, a: Id, grown: Assembly)
    requires Distinct(live) && a in live && a in store && forall b :: b in live ==> b in store
    ensures Sum(store[a := grown], live) == Sum(store, live) - store[a].bytes + grown.bytes
  {
    DistinctTail(live);
    if live[0] == a {
      SumSame(store, store[a := grown], live[1..]);
    } else {
      SumUpdate(store, live[1..], a, grown);
    }
  }

  lemma {:induction false} SizeAppend(chunks: seq<Bytes>, chunk: Bytes)
    ensures Size(chunks + [chunk]) == Size(chunks) + |chunk|
  {
    if chunks == [] {
      assert [] + [chunk] == [chunk];
    } else {
      SizeAppend(chunks[1..], chunk);
      assert (chunks + [chunk])[1..] == chunks[1..] + [chunk];
    }
  }

  lemma GrownWellSized(a: Assembly, chunk: Bytes)
    requires WellSized(a) && a.bytes + |chunk| <= MAX_IMAGE_ASSEMBLY_BYTES
    requires |chunk| > 0 ==> |a.chunks| < MAX_IMAGE_ASSEMBLY_CHUNKS
    ensures WellSized(a.(chunks := if |chunk| > 0 then a.chunks + [chunk] else a.chunks, bytes := a.bytes + |chunk|))
  {
    SizeAppend(a.chunks, chunk);
  }

  /** The state of accumulateChunk when charge has accepted the assembly. */
  ghost predicate ReadyToStore(u: State, slot: Slot, a: Id, chunk: Bytes)
  {
    && Making(u, a, |chunk|) && AllWellSized(u) && u.total <= MAX_TOTAL_ASSEMBLY_BYTES
    && u.store[a].slot == slot && (slot in u.pages ==> u.pages[slot] == a)
    && u.store[a].bytes + |chunk| <= MAX_IMAGE_ASSEMBLY_BYTES
    && (|chunk| > 0 ==> |u.store[a].chunks| < MAX_IMAGE_ASSEMBLY_CHUNKS)
  }

  lemma StoredReached(u: State, slot: Slot, a: Id, chunk: Bytes, b: Id)
    requires ReadyToStore(u, slot, a, chunk) && b in u.live
    ensures Reached(Stored(u, slot, a, chunk), b)
  {
    if b != a {
      assert Reached(u, b);
    }
  }

  lemma StoredOrder(u: State, slot: Slot, a: Id, chunk: Bytes)
    requires Linked(u, {a}) && a in u.store
    ensures var t := Stored(u, slot, a, chunk);
            Distinct(t.order) && forall other :: other in t.order <==> other in t.pages
  {
    if slot !in u.pages {
      DistinctSnoc(u.order, slot);
    }
  }

  lemma StoredTargets(u: State, slot: Slot, a: Id, chunk: Bytes, other: Slot)
    requires ReadyToStore(u, slot, a, chunk) && other in Stored(u, slot, a, chunk).pages
    ensures var t := Stored(u, slot, a, chunk);
            t.pages[other] in t.live && t.pages[other] in t.store && t.store[t.pages[other]].slot == other
  {
    assert a in u.live;
  }

  lemma StoredLinked(u: State, slot: Slot, a: Id, chunk: Bytes)
    requires ReadyToStore(u, slot, a, chunk)
    ensures Linked(Stored(u, slot, a, chunk), {})
  {
    var t := Stored(u, slot, a, chunk);
    StoredOrder(u, slot, a, chunk);
    forall other | other in t.pages ensures t.pages[other] in t.live && t.store[t.pages[other]].slot == other {
      StoredTargets(u, slot, a, chunk, other);
    }
    forall b | b in t.live ensures Reached(t, b) {
      StoredReached(u, slot, a, chunk, b);
    }
  }

  lemma StoredKeeps(u: State, slot: Slot, a: Id, chunk: Bytes)
    requires ReadyToStore(u, slot, a, chunk)
    ensures Valid(Stored(u, slot, a, chunk))
  {
    StoredLinked(u, slot, a, chunk);
    GrownWellSized(u.store[a], chunk);
    SumUpdate(u.store, u.live, a, Stored(u, slot, a, chunk).store[a]);
  }

  /** Touching changes one time of last touch, and can only lose entries. */
  ghost predicate TouchedFrom(s: State, t: State, slot: Slot, a: Id, now: int)
    requires a in s.store
  {
    && t.store == s.store[a := s.store[a].(touchedAt := now)]
    && (forall b :: b in t.live ==> b in s.live || b == a)
    && (forall other :: other in t.pages ==> other in s.pages && t.pages[other] == s.pages[other])
    && (slot in s.pages ==> t.pages == s.pages)
  }

  lemma TouchedParts(s: State, slot: Slot, a: Id, delta: nat, now: int)
    requires Linked(s, {}) && Ordered(s) && Entry(s, slot, a)
    ensures TouchedFrom(s, Touched(s, a, delta, now), slot, a, now)
  {
    if slot in s.pages {
      RemoveMeans(s.live, a);
    } else {
      ExpiredKeeps(s, now);
    }
  }

  lemma TouchedSizes(s: State, t: State, slot: Slot, a: Id, now: int)
    requires Entry(s, slot, a) && AllWellSized(s) && NotBefore(s, now) && TouchedFrom(s, t, slot, a, now)
    ensures AllWellSized(t) && NotBefore(t, now)
  {
  }

  lemma TouchedKeeps(s: State, slot: Slot, a: Id, delta: nat, now: int)
    requires Valid(s) && Entry(s, slot, a) && NotBefore(s, now) && s.store[a].bytes + delta <= MAX_IMAGE_ASSEMBLY_BYTES
    ensures var t := Touched(s, a, delta, now);
            Making(t, a, delta) && AllWellSized(t) && NotBefore(t, now) && TouchedFrom(s, t, slot, a, now)
  {
    TouchedParts(s, slot, a, delta, now);
    TouchedSizes(s, Touched(s, a, delta, now), slot, a, now);
    if slot in s.pages {
      TouchedLive(s, slot, a, delta, now);
    } else {
      TouchedNew(s, slot, a, delta, now);
    }
  }

  lemma ReadyKept(t: State, u: State, slot: Slot, a: Id, chunk: Bytes)
    requires Making(t, a, |chunk|) && AllWellSized(t) && Kept(t, u) && Making(u, a, |chunk|)
    requires u.total <= MAX_TOTAL_ASSEMBLY_BYTES
    requires t.store[a].slot == slot && (slot in t.pages ==> t.pages[slot] == a)
    requires t.store[a].bytes + |chunk| <= MAX_IMAGE_ASSEMBLY_BYTES
    requires |chunk| > 0 ==> |t.store[a].chunks| < MAX_IMAGE_ASSEMBLY_CHUNKS
    ensures ReadyToStore(u, slot, a, chunk)
  {
  }

  /** accumulateChunk past its caps: charge accepts, and the state is ready to store the chunk. */
  lemma ChargedKeeps(s: State, slot: Slot, a: Id, chunk: Bytes, now: int)
    requires Valid(s) && Entry(s, slot, a) && NotBefore(s, now)
    requires !ExceedsBytes(s.store[a], chunk) && !ExceedsChunks(s.store[a], chunk)
    ensures var c := Charged(s, a, |chunk|, now);
            && c.Accepted? && ReadyToStore(c.state, slot, a, chunk)
            && NotBefore(c.state, now) && Kept(Touched(s, a, |chunk|, now), c.state)
  {
    TouchedKeeps(s, slot, a, |chunk|, now);
    var t := Touched(s, a, |chunk|, now);
    MadeRoomKeeps(t, a, |chunk|);
    ReadyKept(t, MadeRoom(t, a, |chunk|).state, slot, a, chunk);
    KeptNotBefore(t, MadeRoom(t, a, |chunk|).state, now);
  }

  lemma KeptNotBefore(t: State, u: State, now: int)
    requires Kept(t, u) && NotBefore(t, now)
    ensures NotBefore(u, now)
  {
  }

  lemma GrowKeeps(s: State, slot: Slot, a: Id, chunk: Bytes, now: int)
    requires Valid(s) && Entry(s, slot, a) && NotBefore(s, now)
    ensures Valid(Grow(s, slot, a, chunk, now).state)
  {
    if ExceedsBytes(s.store[a], chunk) || ExceedsChunks(s.store[a], chunk) {
      DiscardedKeeps(s, slot);
    } else {
      ChargedKeeps(s, slot, a, chunk, now);
      StoredKeeps(Charged(s, a, |chunk|, now).state, slot, a, chunk);
    }
  }

  lemma ShrunkNotBefore(s: State, t: State, now: int)
    requires Shrunk(s, t) && NotBefore(s, now)
    ensures NotBefore(t, now)
  {
  }

  lemma GrowNotBefore(s: State, slot: Slot, a: Id, chunk: Bytes, now: int)
    requires Valid(s) && Entry(s, slot, a) && NotBefore(s, now)
    ensures NotBefore(Grow(s, slot, a, chunk, now).state, now)
  {
    if ExceedsBytes(s.store[a], chunk) || ExceedsChunks(s.store[a], chunk) {
      DiscardedShrunk(s, slot);
      ShrunkNotBefore(s, Discarded(s, slot), now);
    } else {
      ChargedKeeps(s, slot, a, chunk, now);
    }
  }

  /** accumulateChunk keeps the invariant, whatever it drops; the aggregate budget never refuses. */
  lemma AccumulatedKeeps(s: State, slot: Slot, chunk: Bytes, maxPages: nat, now: int)
    requires Valid(s) && NotBefore(s, now)
    ensures Valid(Accumulated(s, slot, chunk, maxPages, now).state)
    ensures NotBefore(Accumulated(s, slot, chunk, maxPages, now).state, now)
  {
    var (t, a) := Entered(s, slot, maxPages);
    EnteredKeeps(s, slot, maxPages);
    ShrunkNotBefore(s, t, now);
    GrowKeeps(t, slot, a, chunk, now);
    GrowNotBefore(t, slot, a, chunk, now);
  }

  // ---------------------------------------------------------------- how many entries a map has

  ghost function OwnSlots(order: seq<Slot>, owner: Owner): set<Slot>
  {
    set slot | slot in order && slot.owner == owner
  }

  lemma OwnSlotsCons(slot: Slot, order: seq<Slot>, owner: Owner)
    ensures OwnSlots([slot] + order, owner)
         == if slot.owner == owner then OwnSlots(order, owner) + {slot} else OwnSlots(order, owner)
  {
  }

  lemma {:induction false} CountIsSize(order: seq<Slot>, owner: Owner)
    requires Distinct(order)
    ensures CountOf(order, owner) == |OwnSlots(order, owner)|
  {
    if order == [] {
      assert OwnSlots(order, owner) == {};
    } else {
      DistinctTail(order);
      CountIsSize(order[1..], owner);
      OwnSlotsCons(order[0], order[1..], owner);
    }
  }

  /** t has no entry that s does not have, except perhaps one. */
  lemma OneMoreEntry(s: State, t: State, slot: Slot, owner: Owner)
    requires Linked(s, {}) && Linked(t, {}) && forall other :: other in t.pages ==> other in s.pages || other == slot
    ensures CountOf(t.order, owner) <= CountOf(s.order, owner) + (if slot.owner == owner then 1 else 0)
  {
    CountIsSize(s.order, owner);
    CountIsSize(t.order, owner);
    SubsetSize(OwnSlots(t.order, owner),
               OwnSlots(s.order, owner) + (if slot.owner == owner then {slot} else {}));
  }

  lemma NoMoreEntries(s: State, t: State, owner: Owner)
    requires Linked(s, {}) && Linked(t, {}) && forall other :: other in t.pages ==> other in s.pages
    ensures CountOf(t.order, owner) <= CountOf(s.order, owner)
  {
    CountIsSize(s.order, owner);
    CountIsSize(t.order, owner);
    SubsetSize(OwnSlots(t.order, owner), OwnSlots(s.order, owner));
  }

  /** A map with a cap has room after the oldest entry has gone. */
  lemma CappedRoom(s: State, owner: Owner, maxPages: nat)
    requires Valid(s) && 0 < maxPages && CountOf(s.order, owner) <= maxPages
    ensures CountOf(Capped(s, owner, maxPages).order, owner) < maxPages
  {
    var oldest := OldestOf(s.order, owner);
    if CountOf(s.order, owner) == maxPages {
      var t := Discarded(s, oldest[0]);
      RemoveMeans(s.order, oldest[0]);
      CountIsSize(s.order, owner);
      CountIsSize(t.order, owner);
      assert OwnSlots(t.order, owner) == OwnSlots(s.order, owner) - {oldest[0]};
    }
  }

  lemma ChargedPages(s: State, slot: Slot, a: Id, chunk: Bytes, now: int)
    requires Valid(s) && Entry(s, slot, a) && NotBefore(s, now)
    requires !ExceedsBytes(s.store[a], chunk) && !ExceedsChunks(s.store[a], chunk)
    ensures forall other :: other in Charged(s, a, |chunk|, now).state.pages ==> other in s.pages
  {
    ChargedKeeps(s, slot, a, chunk, now);
    TouchedParts(s, slot, a, |chunk|, now);
  }

  lemma GrowPages(s: State, slot: Slot, a: Id, chunk: Bytes, now: int)
    requires Valid(s) && Entry(s, slot, a) && NotBefore(s, now)
    ensures forall other :: other in Grow(s, slot, a, chunk, now).state.pages ==> other in s.pages || other == slot
  {
    if ExceedsBytes(s.store[a], chunk) || ExceedsChunks(s.store[a], chunk) {
      DiscardedParts(s, slot);
    } else {
      ChargedKeeps(s, slot, a, chunk, now);
      ChargedPages(s, slot, a, chunk, now);
    }
  }

  /** A chunk makes no entry but its own. */
  lemma AccumulatedPages(s: State, slot: Slot, chunk: Bytes, maxPages: nat, now: int)
    requires Valid(s) && NotBefore(s, now)
    ensures var (t, a) := Entered(s, slot, maxPages);
            forall other :: other in Accumulated(s, slot, chunk, maxPages, now).state.pages ==>
              (other in t.pages && other in s.pages) || other == slot
  {
    var (t, a) := Entered(s, slot, maxPages);
    EnteredKeeps(s, slot, maxPages);
    ShrunkNotBefore(s, t, now);
    GrowPages(t, slot, a, chunk, now);
  }

  lemma AccumulatedOther(s: State, slot: Slot, chunk: Bytes, maxPages: nat, now: int, owner: Owner)
    requires Valid(s) && NotBefore(s, now) && (slot in s.pages || slot.owner != owner)
    ensures CountOf(Accumulated(s, slot, chunk, maxPages, now).state.order, owner) <= CountOf(s.order, owner)
  {
    AccumulatedKeeps(s, slot, chunk, maxPages, now);
    AccumulatedPages(s, slot, chunk, maxPages, now);
    var t := Accumulated(s, slot, chunk, maxPages, now).state;
    if slot in s.pages {
      NoMoreEntries(s, t, owner);
    } else {
      OneMoreEntry(s, t, slot, owner);
    }
  }

  /** A map that is fed with a cap stays within it. */
  lemma AccumulatedCount(s: State, slot: Slot, chunk: Bytes, maxPages: nat, now: int, owner: Owner, cap: nat)
    requires Valid(s) && NotBefore(s, now) && CountOf(s.order, owner) <= cap
    requires slot.owner == owner ==> maxPages == cap > 0
    ensures CountOf(Accumulated(s, slot, chunk, maxPages, now).state.order, owner) <= cap
  {
    if slot in s.pages || slot.owner != owner {
      AccumulatedOther(s, slot, chunk, maxPages, now, owner);
    } else {
      var (t, a) := Entered(s, slot, maxPages);
      EnteredKeeps(s, slot, maxPages);
      CappedRoom(s, owner, maxPages);
      AccumulatedKeeps(s, slot, chunk, maxPages, now);
      AccumulatedPages(s, slot, chunk, maxPages, now);
      OneMoreEntry(t, Accumulated(s, slot, chunk, maxPages, now).state, slot, owner);
    }
  }

  // ---------------------------------------------------------------- what is in flight

  /** The chunks in flight, by slot. */
  ghost function Contents(s: State): map<Slot, seq<Bytes>>
    requires Linked(s, {})
  {
    map slot | slot in s.pages :: s.store[s.pages[slot]].chunks
  }

  function Chunks(contents: map<Slot, seq<Bytes>>, slot: Slot): seq<Bytes>
  {
    if slot in contents then contents[slot] else []
  }

  function WithChunk(chunks: seq<Bytes>, chunk: Bytes): seq<Bytes>
  {
    if |chunk| > 0 then chunks + [chunk] else chunks
  }

  /** No cap trips and nothing expires when a chunk arrives for a slot. */
  ghost predicate Quiet(s: State, slot: Slot, chunk: Bytes, maxPages: nat, now: int)
    requires Linked(s, {})
  {
    && (slot !in s.pages ==> !HeadStale(s, now) && (maxPages == 0 || CountOf(s.order, slot.owner) < maxPages))
    && Size(Chunks(Contents(s), slot)) + |chunk| <= MAX_IMAGE_ASSEMBLY_BYTES
    && (|chunk| > 0 ==> |Chunks(Contents(s), slot)| < MAX_IMAGE_ASSEMBLY_CHUNKS)
    && s.total + |chunk| <= MAX_TOTAL_ASSEMBLY_BYTES
  }

  lemma WithNewContents(s: State, slot: Slot)
    requires Valid(s) && slot !in s.pages
    ensures Valid(WithNew(s, slot)) && Contents(WithNew(s, slot)) == Contents(s)
  {
    NewObject(s, slot);
  }

  lemma EntryFits(s: State, slot: Slot, a: Id, chunk: Bytes)
    requires Linked(s, {}) && Entry(s, slot, a)
    requires Size(Chunks(Contents(s), slot)) + |chunk| <= MAX_IMAGE_ASSEMBLY_BYTES
    requires |chunk| > 0 ==> |Chunks(Contents(s), slot)| < MAX_IMAGE_ASSEMBLY_CHUNKS
    ensures s.store[a].chunks == Chunks(Contents(s), slot)
    ensures !ExceedsBytes(s.store[a], chunk) && !ExceedsChunks(s.store[a], chunk)
  {
  }

  lemma QuietEntered(s: State, slot: Slot, chunk: Bytes, maxPages: nat, now: int)
    requires Valid(s) && Quiet(s, slot, chunk, maxPages, now)
    ensures var (t, a) := Entered(s, slot, maxPages);
            && t == (if slot in s.pages then s else WithNew(s, slot)) && a in t.store
            && t.store[a].chunks == Chunks(Contents(s), slot)
            && Valid(t) && Entry(t, slot, a) && Contents(t) == Contents(s)
            && !ExceedsBytes(t.store[a], chunk) && !ExceedsChunks(t.store[a], chunk)
  {
    var (t, a) := Entered(s, slot, maxPages);
    EnteredKeeps(s, slot, maxPages);
    if slot !in s.pages {
      WithNewContents(s, slot);
    }
    EntryFits(t, slot, a, chunk);
  }

  /** charge evicts nothing in a quiet state. */
  lemma QuietCharged(s: State, slot: Slot, a: Id, chunk: Bytes, now: int)
    requires Valid(s) && Entry(s, slot, a) && NotBefore(s, now)
    requires !ExceedsBytes(s.store[a], chunk) && !ExceedsChunks(s.store[a], chunk)
    requires slot !in s.pages ==> !HeadStale(s, now)
    requires s.total + |chunk| <= MAX_TOTAL_ASSEMBLY_BYTES
    ensures Charged(s, a, |chunk|, now) == Accepted(Touched(s, a, |chunk|, now))
    ensures Touched(s, a, |chunk|, now).pages == s.pages
    ensures Touched(s, a, |chunk|, now).store == s.store[a := s.store[a].(touchedAt := now)]
  {
    TouchedKeeps(s, slot, a, |chunk|, now);
  }

  lemma StoredContents(s: State, t: State, slot: Slot, a: Id, chunk: Bytes)
    requires Linked(s, {}) && Entry(s, slot, a) && t.pages == s.pages && a in t.store
    requires t.store == s.store[a := s.store[a].(touchedAt := t.store[a].touchedAt)]
    requires Linked(Stored(t, slot, a, chunk), {})
    ensures Contents(Stored(t, slot, a, chunk)) == Contents(s)[slot := WithChunk(s.store[a].chunks, chunk)]
  {
  }

  /** A chunk in a quiet state grows its own slot and touches no other. */
  lemma QuietAccumulated(s: State, slot: Slot, chunk: Bytes, maxPages: nat, now: int)
    requires Valid(s) && NotBefore(s, now) && Quiet(s, slot, chunk, maxPages, now)
    ensures var r := Accumulated(s, slot, chunk, maxPages, now);
            && r.Grown? && Valid(r.state) && slot in r.state.pages && r.state.pages[slot] == r.assembly
            && Contents(r.state) == Contents(s)[slot := WithChunk(Chunks(Contents(s), slot), chunk)]
  {
    AccumulatedKeeps(s, slot, chunk, maxPages, now);
    QuietEntered(s, slot, chunk, maxPages, now);
    var (t, a) := Entered(s, slot, maxPages);
    ShrunkNotBefore(s, t, now);
    QuietCharged(t, slot, a, chunk, now);
    StoredContents(t, Touched(t, a, |chunk|, now), slot, a, chunk);
  }
}
