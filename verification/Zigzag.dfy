/** The zigzag order of the coefficients of a block. */
module Zigzag {
  import opened EntropyCoding
  import opened Sequences

  const ZIGZAG: seq<nat> := ZIGZAG_UPPER + ZIGZAG_LOWER
  const ZIGZAG_UPPER: seq<nat> := ZIGZAG_0 + ZIGZAG_1 + ZIGZAG_2 + ZIGZAG_3
  const ZIGZAG_LOWER: seq<nat> := ZIGZAG_4 + ZIGZAG_5 + ZIGZAG_6 + ZIGZAG_7

  const ZIGZAG_0: seq<nat> := [0, 1, 8, 16, 9, 2, 3, 10]
  const ZIGZAG_1: seq<nat> := [17, 24, 32, 25, 18, 11, 4, 5]
  const ZIGZAG_2: seq<nat> := [12, 19, 26, 33, 40, 48, 41, 34]
  const ZIGZAG_3: seq<nat> := [27, 20, 13, 6, 7, 14, 21, 28]
  const ZIGZAG_4: seq<nat> := [35, 42, 49, 56, 57, 50, 43, 36]
  const ZIGZAG_5: seq<nat> := [29, 22, 15, 23, 30, 37, 44, 51]
  const ZIGZAG_6: seq<nat> := [58, 59, 52, 45, 38, 31, 39, 46]
  const ZIGZAG_7: seq<nat> := [53, 60, 61, 54, 47, 55, 62, 63]

  /** An entry of the table, masked to an index. */
  function ZigzagAt(i: nat): (z: nat)
    requires i < 64
    ensures z < 64
  {
    ZigzagSize();
    ZIGZAG[i] % 64
  }

  lemma ZigzagSize()
    ensures |ZIGZAG| == 64 && ZIGZAG[0] == 0
  {
  }

  // ---------------------------------------------------------------- the table is the zigzag walk

  /** The place after z on the zigzag walk (Figure A.6 of T.81): along the diagonals, in turn up to the
      right and down to the left, turning at the edges. */
  function NextPlace(z: nat): nat
  {
    var row, column := z / 8, z % 8;
    if (row + column) % 2 == 0 then
      if column == 7 then z + 8 else if row == 0 then z + 1 else z - 7
    else
      if row == 7 then z + 1 else if column == 0 then z + 8 else z + 7
  }

  predicate Walks(s: seq<nat>)
  {
    forall i, j :: 0 <= i < |s| && j == i + 1 < |s| ==> s[j] == NextPlace(s[i])
  }

  lemma WalksOn(a: seq<nat>, b: seq<nat>)
    requires Walks(a) && Walks(b) && a != [] && b != [] && b[0] == NextPlace(a[|a| - 1])
    ensures Walks(a + b) && (a + b)[0] == a[0] && (a + b)[|a + b| - 1] == b[|b| - 1]
  {
  }

  lemma FourWalks(a: seq<nat>, b: seq<nat>, c: seq<nat>, d: seq<nat>)
    requires Walks(a) && Walks(b) && Walks(c) && Walks(d) && |a| == |b| == |c| == |d| == 8
    requires b[0] == NextPlace(a[7]) && c[0] == NextPlace(b[7]) && d[0] == NextPlace(c[7])
    ensures var all := a + b + c + d; Walks(all) && |all| == 32 && all[0] == a[0] && all[31] == d[7]
  {
    WalksOn(a, b);
    WalksOn(a + b, c);
    WalksOn(a + b + c, d);
  }

  lemma EightWalk(s: seq<nat>)
    requires |s| == 8
    requires s[1] == NextPlace(s[0]) && s[2] == NextPlace(s[1]) && s[3] == NextPlace(s[2]) && s[4] == NextPlace(s[3])
    requires s[5] == NextPlace(s[4]) && s[6] == NextPlace(s[5]) && s[7] == NextPlace(s[6])
    ensures Walks(s)
  {
  }

  lemma UpperWalks()
    ensures Walks(ZIGZAG_UPPER) && |ZIGZAG_UPPER| == 32 && ZIGZAG_UPPER[31] == 28
  {
    EightWalk(ZIGZAG_0);
    EightWalk(ZIGZAG_1);
    EightWalk(ZIGZAG_2);
    EightWalk(ZIGZAG_3);
    FourWalks(ZIGZAG_0, ZIGZAG_1, ZIGZAG_2, ZIGZAG_3);
  }

  lemma LowerWalks()
    ensures Walks(ZIGZAG_LOWER) && |ZIGZAG_LOWER| == 32 && ZIGZAG_LOWER[0] == 35
  {
    EightWalk(ZIGZAG_4);
    EightWalk(ZIGZAG_5);
    EightWalk(ZIGZAG_6);
    EightWalk(ZIGZAG_7);
    FourWalks(ZIGZAG_4, ZIGZAG_5, ZIGZAG_6, ZIGZAG_7);
  }

  /** The table is the zigzag walk from place 0 on. */
  lemma ZigzagWalks()
    ensures Walks(ZIGZAG) && ZIGZAG[0] == 0
  {
    UpperWalks();
    LowerWalks();
    WalksOn(ZIGZAG_UPPER, ZIGZAG_LOWER);
    ZigzagSize();
  }

  // ---------------------------------------------------------------- the table is a permutation

  ghost function PlacesBelow(n: nat): (r: set<nat>)
    ensures |r| == n && forall z: nat :: z in r <==> z < n
  {
    if n == 0 then {} else PlacesBelow(n - 1) + {n - 1}
  }

  lemma ZigzagHolds(z: nat)
    requires z < 64
    ensures z in ZIGZAG
  {
  }

  /** The table holds every place of a block exactly once. */
  lemma ZigzagPermutation()
    ensures Distinct(ZIGZAG) && forall z: nat :: z in ZIGZAG <==> z < 64
  {
    forall z: nat | z < 64 ensures z in ZIGZAG {
      ZigzagHolds(z);
    }
    ZigzagSize();
    HoldsEach(ZIGZAG, PlacesBelow(64));
  }

  lemma PermutationEntry(table: seq<nat>, i: nat)
    requires Distinct(table) && (forall z: nat :: z in table <==> z < 64) && i < |table|
    ensures table[i] < 64 && (i > 0 ==> table[i] != table[0])
  {
    assert table[i] in table;
  }

  /** Only the first entry is the DC coefficient, and no entry needs the mask. */
  lemma ZigzagEntry(i: nat)
    requires i < 64
    ensures |ZIGZAG| == 64 && ZigzagAt(i) == ZIGZAG[i] && (ZigzagAt(i) == 0 <==> i == 0)
  {
    ZigzagSize();
    ZigzagPermutation();
    PermutationEntry(ZIGZAG, i);
  }

  ghost function IndexIn(table: seq<nat>, z: nat): (k: nat)
    requires z in table
    ensures k < |table| && table[k] == z
  {
    var k :| 0 <= k < |table| && table[k] == z;
    k
  }

  /** Where the table holds a place. */
  ghost function ZigzagIndex(z: nat): (k: nat)
    requires z < 64
    ensures k < 64 && ZigzagAt(k) == z
  {
    ZigzagHolds(z);
    ZigzagSize();
    ZigzagEntry(IndexIn(ZIGZAG, z));
    IndexIn(ZIGZAG, z)
  }

  /** What a decoder makes of the values of a block in zigzag order: each goes back to its place. */
  ghost function Unzigzag(q: Block): Block
  {
    seq(64, z requires 0 <= z < 64 => q[ZigzagIndex(z)])
  }

  lemma UnzigzagIs(q: Block, z: nat)
    requires z < 64
    ensures Unzigzag(q)[z] == q[ZigzagIndex(z)]
  {
  }

  lemma SameIndex(s: seq<nat>, i: nat, j: nat)
    requires Distinct(s) && i < |s| && j < |s| && s[i] == s[j]
    ensures i == j
  {
  }

  lemma IndexBack(k: nat, z: nat)
    requires k < 64 && z == ZigzagAt(k)
    ensures ZigzagIndex(z) == k
  {
    ZigzagEntry(k);
    ZigzagEntry(ZigzagIndex(z));
    ZigzagPermutation();
    SameIndex(ZIGZAG, k, ZigzagIndex(z));
  }

  /** Undoing the zigzag order puts every value at the place that the table names. */
  lemma UnzigzagAt(q: Block, k: nat)
    requires k < 64
    ensures Unzigzag(q)[ZigzagAt(k)] == q[k]
  {
    IndexBack(k, ZigzagAt(k));
    UnzigzagIs(q, ZigzagAt(k));
  }
}
