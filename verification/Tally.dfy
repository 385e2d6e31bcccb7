/** Pass 1 of the two-pass scan: counting the symbols that pass 2 will look up. */
module Tally {
  import opened Bits
  import opened EntropyCoding
  import opened HuffmanCode
  import opened HuffmanMerge
  import opened Scan

  // ---------------------------------------------------------------- counting symbols

  function CountSymbol(items: seq<Item>, s: nat): nat
  {
    if items == [] then 0 else (if items[0].symbol == s then 1 else 0) + CountSymbol(items[1..], s)
  }

  /** The frequencies after counting the items. */
  function AddItems(freq: seq<nat>, items: seq<Item>): (r: seq<nat>)
    requires |freq| == SYMBOLS
    ensures |r| == SYMBOLS
    decreases |items|
  {
    if items == [] then freq
    else
      var s := items[0].symbol;
      AddItems(freq[s := freq[s] + 1], items[1..])
  }

  lemma {:induction false} AddItemsConcat(freq: seq<nat>, a: seq<Item>, b: seq<Item>)
    requires |freq| == SYMBOLS
    ensures AddItems(freq, a + b) == AddItems(AddItems(freq, a), b)
    decreases |a|
  {
    if a == [] {
      assert a + b == b;
    } else {
      var s := a[0].symbol;
      assert (a + b)[1..] == a[1..] + b;
      AddItemsConcat(freq[s := freq[s] + 1], a[1..], b);
    }
  }

  lemma {:induction false} AddItemsCounts(freq: seq<nat>, items: seq<Item>)
    requires |freq| == SYMBOLS
    ensures forall s :: 0 <= s < SYMBOLS ==> AddItems(freq, items)[s] == freq[s] + CountSymbol(items, s)
    ensures Sum(AddItems(freq, items)) == Sum(freq) + |items|
    decreases |items|
  {
    if items != [] {
      var s := items[0].symbol;
      SumUpdate(freq, s, freq[s] + 1);
      AddItemsCounts(freq[s := freq[s] + 1], items[1..]);
    }
  }

  lemma {:induction false} Counted(items: seq<Item>, k: nat)
    requires k < |items|
    ensures CountSymbol(items, items[k].symbol) > 0
  {
    if k > 0 {
      Counted(items[1..], k - 1);
    }
  }

  lemma {:induction false} NotCounted(items: seq<Item>, s: nat)
    requires forall k :: 0 <= k < |items| ==> items[k].symbol != s
    ensures CountSymbol(items, s) == 0
  {
    if items != [] {
      NotCounted(items[1..], s);
    }
  }

  /** Frequencies with nothing but the reserved symbol counted. */
  function Reserved(): (r: seq<nat>)
    ensures |r| == SYMBOLS && r[256] == 1 && forall s :: 0 <= s < 256 ==> r[s] == 0
  {
    seq(256, _ => 0) + [1]
  }

  /** The tally of a list of items. */
  function TallyOf(items: seq<Item>): (r: seq<nat>)
    ensures |r| == SYMBOLS
  {
    AddItems(Reserved(), items)
  }

  lemma TallyMeans(items: seq<Item>)
    ensures TallyOf(items)[256] == 1
    ensures forall s :: 0 <= s < 256 ==> TallyOf(items)[s] == CountSymbol(items, s)
    ensures Sum(TallyOf(items)) == 1 + |items|
  {
    AddItemsCounts(Reserved(), items);
    NotCounted(items, 256);
    AllZero(Reserved()[..256]);
  }

  // ---------------------------------------------------------------- the loops of pass 1

  /** get_num_bits: the same category as get_code finds, for every 16-bit value. */
  method GetNumBits(value: int16) returns (numBits: nat)
    ensures numBits == GetCode(value).0
  {
    var v: int := value;
    if v < 0 {
      v := if v == -0x8000 then -0x8000 else -v;
    }
    numBits := 0;
    while v > 0
      invariant numBits + (if v > 0 then BitLength(v) else 0) == CategoryOf(value)
      decreases v
    {
      numBits := numBits + 1;
      v := v / 2;
    }
    GetCodeValue(value);
  }

  /** Counts the symbol of a DC difference. */
  method TallyDc(diff: int16, dcFreq: array<nat>)
    requires dcFreq.Length == SYMBOLS
    modifies dcFreq
    ensures dcFreq[..] == AddItems(old(dcFreq[..]), [DcItem(diff)])
  {
    CountFirst(dcFreq[..], DcItem(diff), []);
    var numBits := GetNumBits(diff);
    ExtendGetCode(diff);
    dcFreq[numBits] := dcFreq[numBits] + 1;
  }

  /** The items of one coefficient after a run of zeros. */
  function RunItems(run: nat, value: int16): seq<Item>
  {
    if run > 15 then [ZRL] + RunItems(run - 16, value) else [AcItem(run, value)]
  }

  lemma {:induction false} RunThenRest(block: Block, k: nat, run: nat)
    requires k < 64 && block[k] != 0
    ensures AcItems(block, k, run) == RunItems(run, block[k]) + AcItems(block, k + 1, 0)
    decreases run
  {
    if run > 15 {
      RunThenRest(block, k, run - 16);
    }
  }

  method TallyCoefficient(run: nat, value: int16, acFreq: array<nat>)
    requires acFreq.Length == SYMBOLS
    modifies acFreq
    ensures acFreq[..] == AddItems(old(acFreq[..]), RunItems(run, value))
  {
    ghost var all := AddItems(acFreq[..], RunItems(run, value));
    var zeroRun := run;
    while zeroRun > 15
      invariant 0 <= zeroRun
      invariant AddItems(acFreq[..], RunItems(zeroRun, value)) == all
    {
      CountFirst(acFreq[..], ZRL, RunItems(zeroRun - 16, value));
      acFreq[0xF0] := acFreq[0xF0] + 1;
      zeroRun := zeroRun - 16;
    }
    CountFirst(acFreq[..], AcItem(zeroRun, value), []);
    var numBits := GetNumBits(value);
    ExtendGetCode(value);
    SymbolParts(zeroRun, numBits);
    var symbol := BitOr(zeroRun * 16, numBits);
    acFreq[symbol] := acFreq[symbol] + 1;
  }

  lemma CountFirst(freq: seq<nat>, i: Item, tail: seq<Item>)
    requires |freq| == SYMBOLS
    ensures AddItems(freq, [i] + tail) == AddItems(freq[i.symbol := freq[i.symbol] + 1], tail)
    ensures [i] + [] == [i]
  {
    assert ([i] + tail)[1..] == tail;
  }

  /** Counts the AC symbols of a block. */
  method TallyAc(block: Block, acFreq: array<nat>)
    requires acFreq.Length == SYMBOLS
    modifies acFreq
    ensures acFreq[..] == AddItems(old(acFreq[..]), AcItems(block, 1, 0))
  {
    ghost var all := AddItems(acFreq[..], AcItems(block, 1, 0));
    var zeroRun := 0;
    for k := 1 to 64
      invariant zeroRun < k
      invariant AddItems(acFreq[..], AcItems(block, k, zeroRun)) == all
    {
      if block[k] == 0 {
        zeroRun := zeroRun + 1;
      } else {
        RunThenRest(block, k, zeroRun);
        AddItemsConcat(acFreq[..], RunItems(zeroRun, block[k]), AcItems(block, k + 1, 0));
        TallyCoefficient(zeroRun, block[k], acFreq);
        zeroRun := 0;
      }
    }
    if zeroRun > 0 {
      CountFirst(acFreq[..], EOB, []);
      acFreq[0] := acFreq[0] + 1;
    }
  }

  // ---------------------------------------------------------------- the items of one table

  /** The DC items coded with table t. */
  function DcItems(components: seq<Component>, t: nat, units: seq<Unit>, preds: Predictions): seq<Item>
    requires Known(components, units)
    decreases |units|
  {
    if units == [] then []
    else OwnDc(components, t, units[0], preds) + DcItems(components, t, units[1..], After(preds, units[0]))
  }

  function OwnDc(components: seq<Component>, t: nat, u: Unit, preds: Predictions): seq<Item>
    requires u.component < |components|
  {
    if components[u.component].dcTable == t then [DcItem(Diff(u, preds))] else []
  }

  /** The AC items coded with table t. */
  function AcItemsOf(components: seq<Component>, t: nat, units: seq<Unit>): seq<Item>
    requires Known(components, units)
  {
    if units == [] then [] else OwnAc(components, t, units[0]) + AcItemsOf(components, t, units[1..])
  }

  function OwnAc(components: seq<Component>, t: nat, u: Unit): seq<Item>
    requires u.component < |components|
  {
    if components[u.component].acTable == t then AcItems(u.block, 1, 0) else []
  }

  ghost predicate HasDc(components: seq<Component>, table: nat, u: Unit)
  {
    u.component < |components| && components[u.component].dcTable == table
  }

  ghost predicate HasAc(components: seq<Component>, table: nat, u: Unit)
  {
    u.component < |components| && components[u.component].acTable == table
  }

  /** Every table has a code for every item that is coded with it. */
  ghost predicate AllCovered(components: seq<Component>, tables: Tables, units: seq<Unit>, preds: Predictions)
    requires Known(components, units)
  {
    forall t :: 0 <= t < 2 ==>
      Covers(tables[t].dc, DcItems(components, t, units, preds))
        && Covers(tables[t].ac, AcItemsOf(components, t, units))
  }

  lemma CoversParts(t: HuffmanTable, a: seq<Item>, b: seq<Item>)
    requires Covers(t, a + b)
    ensures Covers(t, a) && Covers(t, b)
  {
    forall i | 0 <= i < |a| ensures a[i].symbol in t.values {
      assert (a + b)[i] == a[i];
    }
    forall i | 0 <= i < |b| ensures b[i].symbol in t.values {
      assert (a + b)[|a| + i] == b[i];
    }
  }

  /** Tables that cover the items by destination cover every unit. */
  lemma {:induction false} CoveredByTables(components: seq<Component>, tables: Tables, units: seq<Unit>,
                                           preds: Predictions)
    requires Known(components, units) && AllCovered(components, tables, units, preds)
    ensures Covered(components, tables, units, preds)
    decreases |units|
  {
    if units != [] {
      var u := units[0];
      var c := components[u.component];
      var rest, after := units[1..], After(preds, u);
      forall t | 0 <= t < 2
        ensures Covers(tables[t].dc, OwnDc(components, t, u, preds))
                && Covers(tables[t].dc, DcItems(components, t, rest, after))
        ensures Covers(tables[t].ac, OwnAc(components, t, u)) && Covers(tables[t].ac, AcItemsOf(components, t, rest))
      {
        CoversParts(tables[t].dc, OwnDc(components, t, u, preds), DcItems(components, t, rest, after));
        CoversParts(tables[t].ac, OwnAc(components, t, u), AcItemsOf(components, t, rest));
      }
      var own := OwnDc(components, c.dcTable, u, preds);
      assert own[0] == DcItem(Diff(u, preds));
      CoveredByTables(components, tables, rest, after);
    }
  }

  // ---------------------------------------------------------------- the loop over the blocks

  /** Counts the symbols of one block that are coded with this table. */
  method TallyUnit(components: seq<Component>, table: nat, u: Unit, prevDc: Predictions, dc: array<nat>, ac: array<nat>)
    returns (isDc: bool, isAc: bool)
    requires u.component < |components|
    requires dc.Length == ac.Length == SYMBOLS && dc != ac
    modifies dc, ac
    ensures dc[..] == AddItems(old(dc[..]), OwnDc(components, table, u, prevDc))
    ensures ac[..] == AddItems(old(ac[..]), OwnAc(components, table, u))
    ensures isDc <==> HasDc(components, table, u)
    ensures isAc <==> HasAc(components, table, u)
  {
    isDc := components[u.component].dcTable == table;
    isAc := components[u.component].acTable == table;
    if isDc {
      TallyDc(Sub16(u.block[0], prevDc[u.component]), dc);
    }
    if isAc {
      TallyAc(u.block, ac);
    }
  }

  /** The frequencies of both classes for one table: exactly the items that pass 2 codes with it. */
  method CountSymbols(components: seq<Component>, table: nat, blocks: seq<Unit>)
    returns (dcFreq: seq<nat>, acFreq: seq<nat>, hadDc: bool, hadAc: bool)
    requires Known(components, blocks)
    ensures dcFreq == TallyOf(DcItems(components, table, blocks, NO_PREDICTIONS))
    ensures acFreq == TallyOf(AcItemsOf(components, table, blocks))
    ensures hadDc <==> exists i :: 0 <= i < |blocks| && HasDc(components, table, blocks[i])
    ensures hadAc <==> exists i :: 0 <= i < |blocks| && HasAc(components, table, blocks[i])
  {
    var dc := new nat[SYMBOLS](i requires 0 <= i < SYMBOLS => Reserved()[i]);
    var ac := new nat[SYMBOLS](i requires 0 <= i < SYMBOLS => Reserved()[i]);
    assert dc[..] == ac[..] == Reserved();
    var prevDc := NO_PREDICTIONS;
    hadDc, hadAc := false, false;
    ghost var dcDone, acDone: seq<Item> := [], [];
    for i := 0 to |blocks|
      invariant DcItems(components, table, blocks, NO_PREDICTIONS)
        == dcDone + DcItems(components, table, blocks[i..], prevDc)
      invariant AcItemsOf(components, table, blocks) == acDone + AcItemsOf(components, table, blocks[i..])
      invariant dc[..] == TallyOf(dcDone) && ac[..] == TallyOf(acDone)
      invariant hadDc <==> exists j :: 0 <= j < i && HasDc(components, table, blocks[j])
      invariant hadAc <==> exists j :: 0 <= j < i && HasAc(components, table, blocks[j])
    {
      var u := blocks[i];
      NextUnit(components, table, blocks, i, prevDc, dcDone, acDone);
      ghost var dcOwn, acOwn := OwnDc(components, table, u, prevDc), OwnAc(components, table, u);
      AddItemsConcat(Reserved(), dcDone, dcOwn);
      AddItemsConcat(Reserved(), acDone, acOwn);
      var isDc, isAc := TallyUnit(components, table, u, prevDc, dc, ac);
      hadDc, hadAc := hadDc || isDc, hadAc || isAc;
      prevDc := After(prevDc, u);
      dcDone, acDone := dcDone + dcOwn, acDone + acOwn;
    }
    NoUnits(components, table, blocks, prevDc, dcDone, acDone);
    dcFreq, acFreq := dc[..], ac[..];
  }

  /** The items of unit i come next. */
  lemma {:induction false} NextUnit(components: seq<Component>, table: nat, blocks: seq<Unit>, i: nat,
                                    preds: Predictions, dcDone: seq<Item>, acDone: seq<Item>)
    requires i < |blocks| && Known(components, blocks)
    ensures dcDone + DcItems(components, table, blocks[i..], preds)
         == (dcDone + OwnDc(components, table, blocks[i], preds))
            + DcItems(components, table, blocks[i + 1..], After(preds, blocks[i]))
    ensures acDone + AcItemsOf(components, table, blocks[i..])
         == (acDone + OwnAc(components, table, blocks[i])) + AcItemsOf(components, table, blocks[i + 1..])
  {
    var units := blocks[i..];
    assert units[0] == blocks[i] && units[1..] == blocks[i + 1..];
  }

  lemma NoUnits(components: seq<Component>, table: nat, blocks: seq<Unit>, preds: Predictions, dcDone: seq<Item>,
                acDone: seq<Item>)
    ensures dcDone + DcItems(components, table, blocks[|blocks|..], preds) == dcDone
    ensures acDone + AcItemsOf(components, table, blocks[|blocks|..]) == acDone
  {
  }
}
