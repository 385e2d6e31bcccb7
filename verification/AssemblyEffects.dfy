/** What one chunk does to the assemblies of a connection: which grow, which expire, and which make room. */
module AssemblyEffects {
  import opened AssemblyBudgets
  import opened Sequences

  // ---------------------------------------------------------------- lists of identities

  /** The elements of a list that are to be kept, in their order. */
  function Only(s: seq<Id>, keep: set<Id>): seq<Id>
  {
    if s == [] then [] else (if s[0] in keep then [s[0]] else []) + Only(s[1..], keep)
  }

  lemma {:induction false} OnlyHas(s: seq<Id>, keep: set<Id>)
    ensures forall a :: a in Only(s, keep) <==> a in s && a in keep
  {
    if s != [] {
      OnlyHas(s[1..], keep);
    }
  }

  lemma {:induction false} OnlySame(s: seq<Id>, keep: set<Id>, other: set<Id>)
    requires forall a :: a in s ==> (a in keep <==> a in other)
    ensures Only(s, keep) == Only(s, other)
  {
    if s != [] {
      OnlySame(s[1..], keep, other);
    }
  }

  lemma {:induction false} OnlyAll(s: seq<Id>, keep: set<Id>)
    requires forall a :: a in s ==> a in keep
    ensures Only(s, keep) == s
  {
    if s != [] {
      OnlyAll(s[1..], keep);
    }
  }

  lemma {:induction false} OnlyNone(s: seq<Id>, keep: set<Id>)
    requires forall a :: a in s ==> a !in keep
    ensures Only(s, keep) == []
  {
    if s != [] {
      OnlyNone(s[1..], keep);
    }
  }

  lemma {:induction false} OnlyConcat(s: seq<Id>, t: seq<Id>, keep: set<Id>)
    ensures Only(s + t, keep) == Only(s, keep) + Only(t, keep)
  {
    if s == [] {
      assert s + t == t;
    } else {
      OnlyConcat(s[1..], t, keep);
      ConcatTail(s, t);
      ConcatAssoc(if s[0] in keep then [s[0]] else [], Only(s[1..], keep), Only(t, keep));
    }
  }

  lemma {:induction false} OnlyTwice(s: seq<Id>, keep: set<Id>, other: set<Id>)
    ensures Only(Only(s, keep), other) == Only(s, keep * other)
  {
    if s != [] {
      OnlyTwice(s[1..], keep, other);
      OnlyConcat(if s[0] in keep then [s[0]] else [], Only(s[1..], keep), other);
    }
  }

  lemma {:induction false} RemoveIsOnly(s: seq<Id>, a: Id, keep: set<Id>)
    requires Distinct(s) && forall b :: b in s ==> (b in keep <==> b != a)
    ensures Remove(s, a) == Only(s, keep)
  {
    if s != [] {
      DistinctTail(s);
      if s[0] == a {
        OnlyAll(s[1..], keep);
      } else {
        RemoveIsOnly(s[1..], a, keep);
      }
    }
  }

  /** The end of a list is what is kept of it, if it has exactly the elements to keep. */
  lemma SuffixIsOnly(s: seq<Id>, n: nat, keep: set<Id>)
    requires Distinct(s) && n <= |s| && forall a :: a in s ==> (a in keep <==> a in s[n..])
    ensures s[n..] == Only(s, keep)
  {
    assert s == s[..n] + s[n..];
    forall a | a in s[..n] ensures a !in s[n..] {
      var i :| 0 <= i < n && s[i] == a;
    }
    OnlyConcat(s[..n], s[n..], keep);
    OnlyNone(s[..n], keep);
    OnlyAll(s[n..], keep);
  }

  // ---------------------------------------------------------------- what stays

  ghost predicate Stale(s: State, a: Id, now: int)
    requires a in s.store
  {
    now - s.store[a].touchedAt >= ASSEMBLY_STALE_MS
  }

  /** The entry that a full map loses to a new one: the one that was inserted first. */
  ghost predicate GivesWay(s: State, slot: Slot, maxPages: nat, a: Id)
    requires a in s.store
  {
    && maxPages > 0 && CountOf(s.order, slot.owner) >= maxPages
    && IsOldest(s.order, slot.owner, s.store[a].slot)
  }

  /** The other assemblies that are still wanted when a chunk arrives for a slot: all of them if the slot has
      one, and otherwise those that are not stale and do not give way. */
  ghost function Wanted(s: State, slot: Slot, maxPages: nat, now: int): set<Id>
    requires Linked(s, {})
  {
    set a | a in s.live && s.store[a].slot != slot
            && (slot in s.pages || (!Stale(s, a, now) && !GivesWay(s, slot, maxPages, a)))
  }

  /** The chunk is within the caps of its own assembly. */
  ghost predicate Fits(s: State, slot: Slot, chunk: Bytes)
    requires Linked(s, {})
  {
    && Size(Chunks(Contents(s), slot)) + |chunk| <= MAX_IMAGE_ASSEMBLY_BYTES
    && (|chunk| > 0 ==> |Chunks(Contents(s), slot)| < MAX_IMAGE_ASSEMBLY_CHUNKS)
  }

  /** The others that stay are the most recently touched of those wanted, untouched themselves, and the next
      one would not fit the total. */
  ghost predicate Stays(s: State, u: State, rest: seq<Id>, wanted: seq<Id>)
  {
    && |rest| <= |wanted| && rest == wanted[|wanted| - |rest|..]
    && (forall a :: a in rest ==> a in s.store && a in u.store && u.store[a] == s.store[a])
    && (|rest| < |wanted| ==>
          var next := wanted[|wanted| - |rest| - 1];
          next in s.store && u.total + s.store[next].bytes > MAX_TOTAL_ASSEMBLY_BYTES)
  }

  /** The slot's assembly, or a new one, has the chunk behind those it had and is touched now. */
  ghost predicate OwnGrew(s: State, u: State, a: Id, slot: Slot, chunk: Bytes, now: int)
    requires Linked(s, {})
  {
    && slot in u.pages && u.pages[slot] == a && a in u.store
    && (if slot in s.pages then a == s.pages[slot] else a !in s.store)
    && u.store[a].chunks == WithChunk(Chunks(Contents(s), slot), chunk) && u.store[a].touchedAt == now
  }

  /** What a chunk that fits does: its own assembly grows and comes last; before it come the others that stay. */
  ghost predicate Grew(s: State, u: State, a: Id, slot: Slot, chunk: Bytes, maxPages: nat, now: int)
    requires Linked(s, {})
  {
    && OwnGrew(s, u, a, slot, chunk, now)
    && u.live != [] && u.live[|u.live| - 1] == a
    && Stays(s, u, u.live[..|u.live| - 1], Only(s.live, Wanted(s, slot, maxPages, now)))
  }

  // ---------------------------------------------------------------- making room

  /** charge keeps the end of the list that fits. */
  lemma RoomCut(t: State, a: Id, delta: nat) returns (u: State, n: nat)
    requires Making(t, a, delta)
    ensures MadeRoom(t, a, delta) == Accepted(u) && u.store == t.store
    ensures n < |t.live| && u.live == t.live[n..]
    ensures n > 0 ==> t.live[n - 1] in t.store
                      && u.total + t.store[t.live[n - 1]].bytes > MAX_TOTAL_ASSEMBLY_BYTES
  {
    MadeRoomKeeps(t, a, delta);
    u := MadeRoom(t, a, delta).state;
    n := |t.live| - |u.live|;
    if n > 0 {
      assert t.live[n - 1] in t.live;
      assert Sum(t.store, [t.live[n - 1]]) == t.store[t.live[n - 1]].bytes;
    }
  }

  lemma CutStays(s: State, u: State, base: seq<Id>, a: Id, n: nat)
    requires n <= |base| && u.live == (base + [a])[n..]
    requires forall b :: b in base ==> b in s.store && b in u.store && u.store[b] == s.store[b]
    requires n > 0 ==> base[n - 1] in u.store
                       && u.total + u.store[base[n - 1]].bytes > MAX_TOTAL_ASSEMBLY_BYTES
    ensures u.live != [] && u.live[|u.live| - 1] == a
    ensures Stays(s, u, u.live[..|u.live| - 1], base)
  {
    assert u.live[..|u.live| - 1] == base[n..];
  }

  lemma RoomStays(s: State, t: State, base: seq<Id>, a: Id, delta: nat) returns (u: State)
    requires Making(t, a, delta) && t.live == base + [a] && a !in base
    requires forall b :: b in base ==> b in s.store && b in t.store && t.store[b] == s.store[b]
    ensures MadeRoom(t, a, delta) == Accepted(u) && u.store == t.store
    ensures u.live != [] && u.live[|u.live| - 1] == a && a !in u.live[..|u.live| - 1]
    ensures Stays(s, u, u.live[..|u.live| - 1], base)
  {
    var v, n := RoomCut(t, a, delta);
    u := v;
    CutStays(s, u, base, a, n);
  }

  /** Storing the chunk changes no other assembly. */
  lemma StoredStays(s: State, u: State, slot: Slot, a: Id, chunk: Bytes, base: seq<Id>)
    requires a in u.store && u.live != [] && u.live[|u.live| - 1] == a && a !in u.live[..|u.live| - 1]
    requires Stays(s, u, u.live[..|u.live| - 1], base)
    ensures var t := Stored(u, slot, a, chunk); t.live == u.live && Stays(s, t, t.live[..|t.live| - 1], base)
  {
  }

  lemma StoredGrew(s: State, u: State, slot: Slot, a: Id, chunk: Bytes, now: int)
    requires Linked(s, {}) && a in u.store && u.store[a].chunks == Chunks(Contents(s), slot)
    requires u.store[a].touchedAt == now && if slot in s.pages then a == s.pages[slot] else a !in s.store
    ensures OwnGrew(s, Stored(u, slot, a, chunk), a, slot, chunk, now)
  {
  }

  /** From the state that charge makes room in to the end of accumulateChunk. */
  lemma GrewFrom(s: State, t: State, slot: Slot, a: Id, chunk: Bytes, maxPages: nat, now: int, base: seq<Id>)
    requires Linked(s, {}) && Making(t, a, |chunk|) && t.live == base + [a] && a !in base
    requires forall b :: b in base ==> b in s.store && b in t.store && t.store[b] == s.store[b]
    requires base == Only(s.live, Wanted(s, slot, maxPages, now))
    requires a in t.store && t.store[a].chunks == Chunks(Contents(s), slot) && t.store[a].touchedAt == now
    requires if slot in s.pages then a == s.pages[slot] else a !in s.store
    ensures var c := MadeRoom(t, a, |chunk|);
            && c.Accepted? && a in c.state.store
            && Grew(s, Stored(c.state, slot, a, chunk), a, slot, chunk, maxPages, now)
  {
    var u := RoomStays(s, t, base, a, |chunk|);
    StoredStays(s, u, slot, a, chunk, base);
    StoredGrew(s, u, slot, a, chunk, now);
  }

  // ---------------------------------------------------------------- exactly what charge does

  /** An assembly that charge can be asked for: a slot's own or a new one, within its own cap. */
  ghost predicate Chargeable(s: State, a: Id, delta: nat, now: int)
  {
    && Valid(s) && NotBefore(s, now) && a in s.store && Entry(s, s.store[a].slot, a)
    && s.store[a].bytes + delta <= MAX_IMAGE_ASSEMBLY_BYTES
  }

  /** The others when charge starts to make room: all if the assembly is live, and otherwise the recent ones. */
  ghost function Others(s: State, a: Id, now: int): set<Id>
    requires forall b :: b in s.live ==> b in s.store
  {
    set b | b in s.live && b != a && (a in s.live || !Stale(s, b, now))
  }

  /** The assembly is touched now and comes last; before it come the others that stay. */
  ghost predicate TouchedLast(s: State, u: State, a: Id, now: int)
    requires a in s.store && forall b :: b in s.live ==> b in s.store
  {
    && u.store == s.store[a := s.store[a].(touchedAt := now)]
    && u.live != [] && u.live[|u.live| - 1] == a
    && Stays(s, u, u.live[..|u.live| - 1], Only(s.live, Others(s, a, now)))
  }

  /** charge never refuses. The assembly becomes the most recently touched; if it is new, the stale ones go; and
      the least recently touched make room, no more of them than must. */
  lemma ChargedExactly(s: State, a: Id, delta: nat, now: int)
    requires Chargeable(s, a, delta, now)
    ensures var c := Charged(s, a, delta, now); c.Accepted? && TouchedLast(s, c.state, a, now)
  {
    var slot, others := s.store[a].slot, Others(s, a, now);
    var base;
    OnlyHas(s.live, others);
    if a in s.live {
      RemoveMeans(s.live, a);
      RemoveIsOnly(s.live, a, others);
      assert Reached(s, a);
      TouchedLive(s, slot, a, delta, now);
      base := Remove(s.live, a);
    } else {
      assert slot !in s.pages;
      ExpiredLive(s, now, others);
      TouchedNew(s, slot, a, delta, now);
      base := Expired(s, now).live;
    }
    var u := RoomStays(s, Touched(s, a, delta, now), base, a, delta);
  }

  /** The same of the state and the answer that charge leaves behind. */
  ghost predicate TakenOn(s: State, u: State, a: Id, delta: nat, now: int, ok: bool)
  {
    Chargeable(s, a, delta, now) ==> ok && TouchedLast(s, u, a, now)
  }

  lemma TakenOnExactly(s: State, u: State, a: Id, delta: nat, now: int, ok: bool)
    requires Charged(s, a, delta, now) == if ok then Accepted(u) else Refused(u)
    ensures TakenOn(s, u, a, delta, now, ok)
  {
    if Chargeable(s, a, delta, now) {
      ChargedExactly(s, a, delta, now);
    }
  }

  // ---------------------------------------------------------------- a chunk for an assembly in flight

  lemma OthersWanted(s: State, slot: Slot, maxPages: nat, now: int)
    requires Linked(s, {}) && slot in s.pages
    ensures Remove(s.live, s.pages[slot]) == Only(s.live, Wanted(s, slot, maxPages, now))
  {
    forall b | b in s.live ensures b in Wanted(s, slot, maxPages, now) <==> b != s.pages[slot] {
      assert Reached(s, b);
    }
    RemoveIsOnly(s.live, s.pages[slot], Wanted(s, slot, maxPages, now));
  }

  lemma GrowsOn(s: State, slot: Slot, chunk: Bytes, maxPages: nat, now: int)
    requires Valid(s) && NotBefore(s, now) && slot in s.pages && Fits(s, slot, chunk)
    ensures var r := Accumulated(s, slot, chunk, maxPages, now);
            r.Grown? && Grew(s, r.state, r.assembly, slot, chunk, maxPages, now)
  {
    var a := s.pages[slot];
    EnteredKeeps(s, slot, maxPages);
    EntryFits(s, slot, a, chunk);
    var u, base := TouchedOnParts(s, slot, a, |chunk|, maxPages, now);
    GrewFrom(s, u, slot, a, chunk, maxPages, now, base);
    GrowStores(s, slot, a, chunk, now);
  }

  lemma TouchedOnParts(s: State, slot: Slot, a: Id, delta: nat, maxPages: nat, now: int)
    returns (u: State, base: seq<Id>)
    requires Valid(s) && Entry(s, slot, a) && slot in s.pages && NotBefore(s, now)
    requires s.store[a].bytes + delta <= MAX_IMAGE_ASSEMBLY_BYTES
    ensures u == Touched(s, a, delta, now) && Making(u, a, delta)
    ensures u.live == base + [a] && a !in base && u.store == s.store[a := s.store[a].(touchedAt := now)]
    ensures base == Only(s.live, Wanted(s, slot, maxPages, now))
    ensures forall b :: b in base ==> b in s.store && b in u.store && u.store[b] == s.store[b]
  {
    TouchedLive(s, slot, a, delta, now);
    OthersWanted(s, slot, maxPages, now);
    RemoveMeans(s.live, a);
    u, base := Touched(s, a, delta, now), Remove(s.live, a);
  }

  // ---------------------------------------------------------------- a chunk for a new assembly

  /** What is left of the list when a full map has lost its oldest entry. */
  lemma CappedLive(s: State, slot: Slot, maxPages: nat, keep: set<Id>)
    requires Valid(s) && keep == set a | a in s.live && !GivesWay(s, slot, maxPages, a)
    ensures var t := Capped(s, slot.owner, maxPages);
            t.live == Only(s.live, keep) && t.store == s.store && t.next == s.next
  {
    var oldest := OldestOf(s.order, slot.owner);
    if maxPages > 0 && CountOf(s.order, slot.owner) >= maxPages && oldest != [] {
      var a := s.pages[oldest[0]];
      DiscardedParts(s, oldest[0]);
      forall b | b in s.live ensures b in keep <==> b != a {
        assert Reached(s, b);
        if GivesWay(s, slot, maxPages, b) {
          OldestIsOne(s.order, slot.owner, s.store[b].slot, oldest[0]);
        }
      }
      RemoveIsOnly(s.live, a, keep);
    } else {
      forall b | b in s.live ensures b in keep {
        if GivesWay(s, slot, maxPages, b) {
          SomeEntry(s.order, slot.owner);
        }
      }
      OnlyAll(s.live, keep);
    }
  }

  lemma OldestIsOne(order: seq<Slot>, owner: Owner, a: Slot, b: Slot)
    requires IsOldest(order, owner, a) && IsOldest(order, owner, b)
    ensures a == b
  {
    var i :| 0 <= i < |order| && order[i] == a && a.owner == owner && NoneBefore(order, owner, i);
    var j :| 0 <= j < |order| && order[j] == b && b.owner == owner && NoneBefore(order, owner, j);
    assert !(i < j) && !(j < i);
  }

  lemma SomeEntry(order: seq<Slot>, owner: Owner)
    requires CountOf(order, owner) > 0
    ensures OldestOf(order, owner) != []
  {
  }

  /** What is left of it when the stale ones are gone. */
  lemma ExpiredLive(s: State, now: int, keep: set<Id>)
    requires Linked(s, {}) && Ordered(s) && keep == set a | a in s.live && !Stale(s, a, now)
    ensures Expired(s, now).live == Only(s.live, keep) && Expired(s, now).store == s.store
  {
    ExpiredKeeps(s, now);
    ExpiredExactly(s, now);
    SuffixIsOnly(s.live, |s.live| - |Expired(s, now).live|, keep);
  }

  /** Both together: the wanted ones. */
  lemma NewWanted(s: State, slot: Slot, maxPages: nat, now: int)
    requires Valid(s) && slot !in s.pages
    ensures var t := WithNew(Capped(s, slot.owner, maxPages), slot);
            && Linked(t, {}) && Ordered(t)
            && Expired(t, now).live == Only(s.live, Wanted(s, slot, maxPages, now)) && Expired(t, now).store == t.store
            && t.store == s.store[s.next := Assembly([], 0, slot, 0)]
  {
    var c := Capped(s, slot.owner, maxPages);
    var t := WithNew(c, slot);
    CappedKeeps(s, slot.owner, maxPages);
    NewObject(c, slot);
    var staying := set a | a in s.live && !GivesWay(s, slot, maxPages, a);
    var recent := set a | a in t.live && !Stale(t, a, now);
    CappedLive(s, slot, maxPages, staying);
    ExpiredLive(t, now, recent);
    OnlyTwice(s.live, staying, recent);
    OnlyHas(s.live, staying);
    forall a | a in s.live ensures a in staying * recent <==> a in Wanted(s, slot, maxPages, now) {
      NotThatSlot(s, slot, a);
    }
    OnlySame(s.live, staying * recent, Wanted(s, slot, maxPages, now));
  }

  lemma NotThatSlot(s: State, slot: Slot, a: Id)
    requires Linked(s, {}) && slot !in s.pages && a in s.live
    ensures a in s.store && s.store[a].slot != slot && a != s.next
  {
    assert Reached(s, a);
  }

  lemma TouchedNewParts(t: State, slot: Slot, a: Id, delta: nat, now: int, base: seq<Id>) returns (u: State)
    requires Valid(t) && Entry(t, slot, a) && slot !in t.pages && NotBefore(t, now)
    requires t.store[a].bytes + delta <= MAX_IMAGE_ASSEMBLY_BYTES
    requires Expired(t, now).live == base && Expired(t, now).store == t.store
    ensures u == Touched(t, a, delta, now) && Making(u, a, delta)
    ensures u.live == base + [a] && u.store == t.store[a := t.store[a].(touchedAt := now)]
  {
    TouchedNew(t, slot, a, delta, now);
    u := Touched(t, a, delta, now);
  }

  lemma StartsFrom(s: State, u: State, slot: Slot, a: Id, chunk: Bytes, maxPages: nat, now: int, base: seq<Id>)
    requires Linked(s, {}) && slot !in s.pages && a == s.next && Making(u, a, |chunk|)
    requires u.live == base + [a] && u.store == s.store[a := Assembly([], 0, slot, now)]
    requires base == Only(s.live, Wanted(s, slot, maxPages, now))
    ensures var c := MadeRoom(u, a, |chunk|);
            && c.Accepted? && a in c.state.store
            && Grew(s, Stored(c.state, slot, a, chunk), a, slot, chunk, maxPages, now)
  {
    OnlyHas(s.live, Wanted(s, slot, maxPages, now));
    NewUntouched(s, u, slot, base, a);
    GrewFrom(s, u, slot, a, chunk, maxPages, now, base);
  }

  lemma NewEntry(s: State, slot: Slot, maxPages: nat, now: int) returns (t: State, a: Id, base: seq<Id>)
    requires Valid(s) && NotBefore(s, now) && slot !in s.pages
    ensures (t, a) == Entered(s, slot, maxPages) && a == s.next
    ensures Valid(t) && Entry(t, slot, a) && slot !in t.pages && NotBefore(t, now)
    ensures t.store == s.store[a := Assembly([], 0, slot, 0)]
    ensures base == Only(s.live, Wanted(s, slot, maxPages, now))
    ensures Expired(t, now).live == base && Expired(t, now).store == t.store
  {
    var entered := Entered(s, slot, maxPages);
    t, a := entered.0, entered.1;
    base := Expired(t, now).live;
    EnteredKeeps(s, slot, maxPages);
    ShrunkNotBefore(s, t, now);
    NewWanted(s, slot, maxPages, now);
  }

  lemma FitsNew(s: State, slot: Slot, chunk: Bytes)
    requires Linked(s, {}) && slot !in s.pages && Fits(s, slot, chunk)
    ensures |chunk| <= MAX_IMAGE_ASSEMBLY_BYTES
  {
  }

  lemma StartsNew(s: State, slot: Slot, chunk: Bytes, maxPages: nat, now: int)
    requires Valid(s) && NotBefore(s, now) && slot !in s.pages && Fits(s, slot, chunk)
    ensures var r := Accumulated(s, slot, chunk, maxPages, now);
            r.Grown? && Grew(s, r.state, r.assembly, slot, chunk, maxPages, now)
  {
    var t, a, base := NewEntry(s, slot, maxPages, now);
    FitsNew(s, slot, chunk);
    NewFits(t, a, chunk);
    var u := TouchedNewParts(t, slot, a, |chunk|, now, base);
    SetTwice(s.store, t.store, u.store, slot, a, now);
    Started(s, t, u, slot, a, chunk, maxPages, now, base);
  }

  lemma SetTwice(s: map<Id, Assembly>, t: map<Id, Assembly>, u: map<Id, Assembly>, slot: Slot, a: Id, now: int)
    requires t == s[a := Assembly([], 0, slot, 0)] && u == t[a := t[a].(touchedAt := now)]
    ensures a in t && u == s[a := Assembly([], 0, slot, now)]
  {
  }

  lemma Started(s: State, t: State, u: State, slot: Slot, a: Id, chunk: Bytes, maxPages: nat, now: int, base: seq<Id>)
    requires Linked(s, {}) && slot !in s.pages && a == s.next && (t, a) == Entered(s, slot, maxPages) && a in t.store
    requires !ExceedsBytes(t.store[a], chunk) && !ExceedsChunks(t.store[a], chunk)
    requires u == Touched(t, a, |chunk|, now) && Making(u, a, |chunk|)
    requires u.live == base + [a] && u.store == s.store[a := Assembly([], 0, slot, now)]
    requires base == Only(s.live, Wanted(s, slot, maxPages, now))
    ensures var r := Accumulated(s, slot, chunk, maxPages, now);
            r.Grown? && Grew(s, r.state, r.assembly, slot, chunk, maxPages, now)
  {
    StartsFrom(s, u, slot, a, chunk, maxPages, now, base);
    GrowStores(t, slot, a, chunk, now);
    EnteredGrows(s, slot, chunk, maxPages, now, t, a);
  }

  lemma EnteredGrows(s: State, slot: Slot, chunk: Bytes, maxPages: nat, now: int, t: State, a: Id)
    requires (t, a) == Entered(s, slot, maxPages) && a in t.store
    ensures Accumulated(s, slot, chunk, maxPages, now) == Grow(t, slot, a, chunk, now)
  {
  }

  lemma GrowStores(t: State, slot: Slot, a: Id, chunk: Bytes, now: int)
    requires a in t.store && !ExceedsBytes(t.store[a], chunk) && !ExceedsChunks(t.store[a], chunk)
    requires var c := Charged(t, a, |chunk|, now); c.Accepted? && a in c.state.store
    ensures Grow(t, slot, a, chunk, now) == Grown(Stored(Charged(t, a, |chunk|, now).state, slot, a, chunk), a)
  {
  }

  lemma NewFits(t: State, a: Id, chunk: Bytes)
    requires a in t.store && t.store[a].chunks == [] && t.store[a].bytes == 0 && |chunk| <= MAX_IMAGE_ASSEMBLY_BYTES
    ensures !ExceedsBytes(t.store[a], chunk) && !ExceedsChunks(t.store[a], chunk)
  {
  }

  lemma NewUntouched(s: State, u: State, slot: Slot, base: seq<Id>, a: Id)
    requires Linked(s, {}) && a == s.next && a in u.store && u.store == s.store[a := u.store[a]]
    requires forall b :: b in base ==> b in s.live
    ensures a !in base && a !in s.store
    ensures forall b :: b in base ==> b in s.store && b in u.store && u.store[b] == s.store[b]
  {
  }

  // ---------------------------------------------------------------- exactly what a chunk does

  /** A chunk beyond the caps of its own assembly drops it. */
  lemma BeyondCaps(s: State, slot: Slot, chunk: Bytes, maxPages: nat, now: int)
    requires Valid(s) && NotBefore(s, now) && !Fits(s, slot, chunk)
    ensures var r := Accumulated(s, slot, chunk, maxPages, now); r.Dropped? && slot !in r.state.pages
    ensures slot in s.pages ==> Accumulated(s, slot, chunk, maxPages, now).state == Discarded(s, slot)
  {
    var (t, a) := Entered(s, slot, maxPages);
    EnteredKeeps(s, slot, maxPages);
    DiscardedShrunk(t, slot);
  }

  /** A chunk drops its assembly if it exceeds a cap of it. Otherwise the assembly, or a new one, has the chunk
      behind those it had; if it is new, the stale assemblies go, and the oldest entry of a full map; and the
      least recently touched make room, no more of them than must. */
  lemma AccumulatedExactly(s: State, slot: Slot, chunk: Bytes, maxPages: nat, now: int)
    requires Valid(s) && NotBefore(s, now)
    ensures var r := Accumulated(s, slot, chunk, maxPages, now);
            && Valid(r.state)
            && if Fits(s, slot, chunk) then r.Grown? && Grew(s, r.state, r.assembly, slot, chunk, maxPages, now)
               else r.Dropped? && slot !in r.state.pages
  {
    AccumulatedKeeps(s, slot, chunk, maxPages, now);
    if !Fits(s, slot, chunk) {
      BeyondCaps(s, slot, chunk, maxPages, now);
    } else if slot in s.pages {
      GrowsOn(s, slot, chunk, maxPages, now);
    } else {
      StartsNew(s, slot, chunk, maxPages, now);
    }
  }

  lemma NewFitsAlone(s: State, slot: Slot, chunk: Bytes)
    requires Linked(s, {}) && slot !in s.pages && |chunk| <= MAX_IMAGE_ASSEMBLY_BYTES
    ensures Fits(s, slot, chunk) && Chunks(Contents(s), slot) == []
  {
  }

  lemma GrewChunks(s: State, u: State, a: Id, slot: Slot, chunk: Bytes, maxPages: nat, now: int)
    requires Linked(s, {}) && Grew(s, u, a, slot, chunk, maxPages, now)
    ensures slot in u.pages && u.pages[slot] == a && a in u.store
    ensures u.store[a].chunks == WithChunk(Chunks(Contents(s), slot), chunk)
  {
  }

  /** A slot without an assembly starts one with the chunk alone. */
  lemma NewGrows(s: State, slot: Slot, chunk: Bytes, maxPages: nat, now: int) returns (u: State, a: Id)
    requires Valid(s) && NotBefore(s, now) && slot !in s.pages && |chunk| <= MAX_IMAGE_ASSEMBLY_BYTES
    ensures Accumulated(s, slot, chunk, maxPages, now) == Grown(u, a)
    ensures Valid(u) && a in u.store && u.store[a].chunks == WithChunk([], chunk)
  {
    NewFitsAlone(s, slot, chunk);
    AccumulatedExactly(s, slot, chunk, maxPages, now);
    u, a := Accumulated(s, slot, chunk, maxPages, now).state, Accumulated(s, slot, chunk, maxPages, now).assembly;
    GrewChunks(s, u, a, slot, chunk, maxPages, now);
  }

  /** The same of the state and the answer that accumulateChunk leaves behind. */
  ghost predicate ChunkTaken(s: State, u: State, slot: Slot, chunk: Bytes, maxPages: nat, now: int, grown: bool, a: Id)
  {
    && Valid(s) && Valid(u) && (grown <==> Fits(s, slot, chunk))
    && if grown then Grew(s, u, a, slot, chunk, maxPages, now) else slot !in u.pages
  }

  lemma TakenExactly(s: State, u: State, slot: Slot, chunk: Bytes, maxPages: nat, now: int, grown: bool, a: Id)
    requires Valid(s) && NotBefore(s, now)
    requires Accumulated(s, slot, chunk, maxPages, now) == if grown then Grown(u, a) else Dropped(u)
    ensures ChunkTaken(s, u, slot, chunk, maxPages, now, grown, a)
  {
    AccumulatedExactly(s, slot, chunk, maxPages, now);
  }

  lemma StaysWanted(s: State, u: State, a: Id, wanted: seq<Id>, b: Id)
    requires u.live != [] && u.live[|u.live| - 1] == a && Stays(s, u, u.live[..|u.live| - 1], wanted)
    requires b in u.live && b != a
    ensures b in wanted && b in s.store && b in u.store && u.store[b] == s.store[b]
  {
    var i :| 0 <= i < |u.live| && u.live[i] == b;
    assert u.live[..|u.live| - 1][i] == b;
  }

  lemma OtherEntry(u: State, slot: Slot, a: Id, other: Slot)
    requires Linked(u, {}) && slot in u.pages && u.pages[slot] == a && other in u.pages && other != slot
    ensures u.pages[other] in u.live && u.pages[other] != a && u.store[u.pages[other]].slot == other
  {
  }

  lemma WantedEntry(s: State, slot: Slot, maxPages: nat, now: int, b: Id)
    requires Linked(s, {}) && b in Wanted(s, slot, maxPages, now)
    ensures b in s.live && s.store[b].slot in s.pages && s.pages[s.store[b].slot] == b
    ensures slot !in s.pages ==> now - s.store[b].touchedAt < 30000
  {
    assert Reached(s, b);
  }

  /** Seen from the slots: when a chunk starts a new assembly, no other entry that is left was last touched 30
      seconds ago or more, and each has its chunks and its time of last touch as before. */
  lemma NoStaleLeft(s: State, slot: Slot, chunk: Bytes, maxPages: nat, now: int, other: Slot)
    requires Valid(s) && NotBefore(s, now) && Fits(s, slot, chunk)
    requires other != slot && other in Accumulated(s, slot, chunk, maxPages, now).state.pages
    ensures var u := Accumulated(s, slot, chunk, maxPages, now).state;
            && other in s.pages && u.pages[other] == s.pages[other] && u.pages[other] in u.store
            && u.store[u.pages[other]] == s.store[s.pages[other]]
            && (slot !in s.pages ==> now - u.store[u.pages[other]].touchedAt < 30000)
  {
    AccumulatedExactly(s, slot, chunk, maxPages, now);
    var r := Accumulated(s, slot, chunk, maxPages, now);
    EntryStays(s, r.state, r.assembly, slot, chunk, maxPages, now, other);
  }

  lemma EntryStays(s: State, u: State, a: Id, slot: Slot, chunk: Bytes, maxPages: nat, now: int, other: Slot)
    requires Linked(s, {}) && Linked(u, {}) && Grew(s, u, a, slot, chunk, maxPages, now)
    requires other != slot && other in u.pages
    ensures other in s.pages && u.pages[other] == s.pages[other] && u.pages[other] in u.store
    ensures u.store[u.pages[other]] == s.store[s.pages[other]]
    ensures slot !in s.pages ==> now - u.store[u.pages[other]].touchedAt < 30000
  {
    var b := u.pages[other];
    OtherEntry(u, slot, a, other);
    StaysWanted(s, u, a, Only(s.live, Wanted(s, slot, maxPages, now)), b);
    OnlyHas(s.live, Wanted(s, slot, maxPages, now));
    WantedEntry(s, slot, maxPages, now, b);
  }
}
