/** Coding with the standard tables: what a block must be like to come through. */
module StandardCoding {
  import opened Words
  import opened Huffman
  import opened DhtTables
  import opened StandardTables
  import opened BlockCode
  import opened Scan
  import opened Stuffing

  // ---- entries and values ----

  lemma {:induction false} EntryIsFirst(es: seq<Entry>, sym: Byte, ind: nat)
    requires ind <= |es|
    ensures forall i :: ind <= i < EntryOf(es, sym, ind) ==> es[i].code != sym
    decreases |es| - ind
  {
    if ind < |es| && es[ind].code != sym {
      EntryIsFirst(es, sym, ind + 1);
    }
  }

  /** In a table whose last value occurs once, a symbol has a code if it is a value, and a usable one if it is not
      the last. */
  lemma CodesOfValues(es: seq<Entry>, vals: seq<Byte>, sym: Byte)
    requires |vals| == |es| > 0 && forall k :: 0 <= k < |es| ==> es[k].code == vals[k]
    requires vals[|vals| - 1] !in vals[..|vals| - 1]
    ensures HasCode(es, sym) <==> sym in vals
    ensures Usable(es, sym) <==> sym in vals && sym != vals[|vals| - 1]
  {
    hide EntryOf;
    EntryIsFirst(es, sym, 0);
    var k, last := EntryOf(es, sym, 0), |vals| - 1;
    if k < |es| {
      assert vals[k] == sym;
    }
    if k < last {
      assert vals[..last][k] == sym;
    }
    if sym in vals {
      var i :| 0 <= i < |vals| && vals[i] == sym;
      assert es[i].code == sym;
    }
  }

  lemma CanonicalCodes(lens: seq<nat>, vals: seq<Byte>)
    requires |vals| == |lens| && forall k :: 0 <= k < |lens| ==> lens[k] <= 32
    ensures forall k :: 0 <= k < |lens| ==> Canonical(lens, vals)[k].code == vals[k]
  {
    hide Shifted;
  }

  /** A table for DC differences: categories 0 to 11 have codes, 11 the last one. */
  ghost predicate DcCoding(es: seq<Entry>) {
    forall sym: Byte :: (HasCode(es, sym) <==> sym <= 11) && (Usable(es, sym) <==> sym <= 10)
  }

  /** A table for AC symbols, the last one being 0xfa. */
  ghost predicate AcCoding(es: seq<Entry>) {
    forall sym: Byte :: (HasCode(es, sym) <==> AcSymbol(sym)) && (Usable(es, sym) <==> AcSymbol(sym) && sym != 0xfa)
  }

  lemma DcValuesCode(es: seq<Entry>)
    requires |es| == 12 && |DC_VALUES| == 12 && forall k :: 0 <= k < 12 ==> es[k].code == DC_VALUES[k]
    ensures DcCoding(es)
  {
    hide HasCode, Usable;
    forall sym: Byte
      ensures (HasCode(es, sym) <==> sym <= 11) && (Usable(es, sym) <==> sym <= 10)
    {
      DcSet(sym);
      CodesOfValues(es, DC_VALUES, sym);
    }
  }

  lemma DcSet(x: Byte)
    ensures |DC_VALUES| == 12 && DC_VALUES[11] == 11 && 11 !in DC_VALUES[..11]
    ensures x in DC_VALUES <==> x <= 11
  {
    assert forall i :: 0 <= i < 12 ==> DC_VALUES[i] == i;
  }

  lemma AcValuesCode(es: seq<Entry>, vals: seq<Byte>)
    requires |es| == |vals| == 162 && forall k :: 0 <= k < 162 ==> es[k].code == vals[k]
    requires vals == AC_VALUES_Y || vals == AC_VALUES_C
    ensures AcCoding(es)
  {
    hide HasCode, Usable, AC_VALUES_Y, AC_VALUES_C;
    LastY();
    LastC();
    forall sym: Byte
      ensures (HasCode(es, sym) <==> AcSymbol(sym)) && (Usable(es, sym) <==> AcSymbol(sym) && sym != 0xfa)
    {
      SymbolsY(sym);
      SymbolsC(sym);
      CodesOfValues(es, vals, sym);
    }
  }

  lemma LastY()
    ensures |AC_VALUES_Y| == 162 && AC_VALUES_Y[161] == 0xfa && 0xfa !in AC_VALUES_Y[..161]
  {
    LastRowY();
    SetY1(0xfa);
    SetY2(0xfa);
    SetY3(0xfa);
    SetY4(0xfa);
    hide AC_Y1, AC_Y2, AC_Y3, AC_Y4, AC_Y5;
    assert AC_VALUES_Y[..161] == AC_Y1 + AC_Y2 + AC_Y3 + AC_Y4 + AC_Y5[..25];
  }

  lemma LastRowY()
    ensures |AC_Y5| == 26 && AC_Y5[25] == 0xfa && 0xfa !in AC_Y5[..25]
  {
    assert forall i :: 0 <= i < 25 ==> AC_Y5[i] != 0xfa;
  }

  lemma LastC()
    ensures |AC_VALUES_C| == 162 && AC_VALUES_C[161] == 0xfa && 0xfa !in AC_VALUES_C[..161]
  {
    LastRowC();
    SetC1(0xfa);
    SetC2(0xfa);
    SetC3(0xfa);
    SetC4(0xfa);
    hide AC_C1, AC_C2, AC_C3, AC_C4, AC_C5;
    assert AC_VALUES_C[..161] == AC_C1 + AC_C2 + AC_C3 + AC_C4 + AC_C5[..25];
  }

  lemma LastRowC()
    ensures |AC_C5| == 26 && AC_C5[25] == 0xfa && 0xfa !in AC_C5[..25]
  {
    assert forall i :: 0 <= i < 25 ==> AC_C5[i] != 0xfa;
  }

  // ---- blocks ----

  /** The zeros directly before coefficient k, coefficient 0 not counted. */
  function ZeroRun(block: seq<int>, k: nat): nat
    requires 1 <= k <= |block|
  {
    if k == 1 || block[k - 1] != 0 then 0 else 1 + ZeroRun(block, k - 1)
  }

  /** AC coefficients have at most ten bits. */
  predicate SmallFrom(block: seq<int>, k: nat)
    requires |block| == 64
  {
    forall i :: k <= i < 64 ==> Category(block[i]) <= 10
  }

  /** A coefficient of ten bits behind fifteen zeros, groups of sixteen left out: the symbol 0xfa. */
  predicate Lost(block: seq<int>, i: nat)
    requires |block| == 64 && 1 <= i < 64
  {
    Category(block[i]) == 10 && ZeroRun(block, i) % 16 == 15
  }

  predicate NoneLost(block: seq<int>, k: nat)
    requires |block| == 64 && 1 <= k
  {
    forall i :: k <= i < 64 ==> !Lost(block, i)
  }

  lemma CoefficientSymbol(es: seq<Entry>, r: nat, v: int)
    requires AcCoding(es) && r <= 15 && v != 0
    ensures CodableItem(es, Coefficient(r, v)) <==> Category(v) <= 10
    ensures Category(v) <= 10 ==> (UsableItem(es, Coefficient(r, v)) <==> !(r == 15 && Category(v) == 10))
  {
    hide HasCode, Usable;
    var c := Category(v);
    if c <= 15 {
      NibblesOf(r, c);
    }
  }

  lemma MarkSymbols(es: seq<Entry>)
    requires AcCoding(es)
    ensures CodableItem(es, End) && UsableItem(es, End) && CodableItem(es, Sixteen) && UsableItem(es, Sixteen)
  {
    hide HasCode, Usable;
  }

  lemma MoreItems(es: seq<Entry>, item: Item, rest: seq<Item>)
    ensures CodableItems(es, [item] + rest) <==> CodableItem(es, item) && CodableItems(es, rest)
    ensures CodableItems(es, [item] + rest) ==>
              (UsableItems(es, [item] + rest) <==> UsableItem(es, item) && UsableItems(es, rest))
  {
    hide CodableItem, UsableItem;
    assert ([item] + rest)[1..] == rest;
  }

  lemma NoItems(es: seq<Entry>)
    ensures CodableItems(es, []) && UsableItems(es, [])
  {
  }

  /** Coding the coefficients from k on, r zeros pending. */
  lemma {:induction false} StandardItems(es: seq<Entry>, block: seq<int>, k: nat, r: nat)
    requires AcCoding(es) && |block| == 64 && 1 <= k <= 64 && r % 16 == ZeroRun(block, k) % 16
    ensures CodableItems(es, Items(block, k, r)) <==> SmallFrom(block, k)
    ensures SmallFrom(block, k) ==> (UsableItems(es, Items(block, k, r)) <==> NoneLost(block, k))
    decreases 64 - k, r
  {
    hide AcCoding, CodableItems, UsableItems, CodableItem, UsableItem, Category, ZeroRun, SmallFrom, NoneLost, Lost;
    if k == 64 {
      LastItems(es, block, r);
    } else if block[k] == 0 {
      ZeroGoesOn(block, k, r);
      StandardItems(es, block, k + 1, r + 1);
    } else if r > 15 {
      SixteenLess(r);
      StandardItems(es, block, k, r - 16);
      MarkSymbols(es);
      MoreItems(es, Sixteen, Items(block, k, r - 16));
    } else {
      NewRun(block, k, r);
      StandardItems(es, block, k + 1, 0);
      CoefficientSymbol(es, r, block[k]);
      MoreItems(es, Coefficient(r, block[k]), Items(block, k + 1, 0));
      OneMoreCoefficient(block, k);
    }
  }

  lemma LastItems(es: seq<Entry>, block: seq<int>, r: nat)
    requires AcCoding(es) && |block| == 64
    ensures CodableItems(es, Items(block, 64, r)) && UsableItems(es, Items(block, 64, r))
    ensures SmallFrom(block, 64) && NoneLost(block, 64)
  {
    hide AcCoding, CodableItem, UsableItem, CodableItems, UsableItems;
    NoItems(es);
    MarkSymbols(es);
    MoreItems(es, End, []);
    assert [End] + [] == [End];
  }

  lemma SixteenLess(r: nat)
    requires r > 15
    ensures (r - 16) % 16 == r % 16
  {
  }

  lemma NewRun(block: seq<int>, k: nat, r: nat)
    requires |block| == 64 && 1 <= k < 64 && block[k] != 0 && r <= 15 && r % 16 == ZeroRun(block, k) % 16
    ensures ZeroRun(block, k + 1) == 0
    ensures Lost(block, k) <==> r == 15 && Category(block[k]) == 10
  {
    hide Category;
  }

  lemma ZeroGoesOn(block: seq<int>, k: nat, r: nat)
    requires |block| == 64 && 1 <= k < 64 && block[k] == 0 && r % 16 == ZeroRun(block, k) % 16
    ensures (r + 1) % 16 == ZeroRun(block, k + 1) % 16
    ensures SmallFrom(block, k) <==> SmallFrom(block, k + 1)
    ensures NoneLost(block, k) <==> NoneLost(block, k + 1)
  {
    OneMoreCoefficient(block, k);
    SameRemainder(r, ZeroRun(block, k));
  }

  lemma SameRemainder(a: nat, b: nat)
    requires a % 16 == b % 16
    ensures (a + 1) % 16 == (b + 1) % 16
  {
  }

  lemma OneMoreCoefficient(block: seq<int>, k: nat)
    requires |block| == 64 && 1 <= k < 64
    ensures SmallFrom(block, k) <==> Category(block[k]) <= 10 && SmallFrom(block, k + 1)
    ensures NoneLost(block, k) <==> !Lost(block, k) && NoneLost(block, k + 1)
  {
    hide Lost, Category;
  }

  /** A block of eight-bit samples: its DC difference has at most eleven bits, its other coefficients at most ten. */
  predicate Baseline(block: seq<int>, lastDC: int) {
    |block| == 64 && Category(block[0] - lastDC) <= 11 && SmallFrom(block, 1)
  }

  /** Such a block that needs no last entry. */
  predicate Safe(block: seq<int>, lastDC: int)
    requires |block| == 64
  {
    Category(block[0] - lastDC) <= 10 && NoneLost(block, 1)
  }

  /** With the standard tables every block of eight-bit samples can be coded, and it comes through unless its DC
      difference has eleven bits or a coefficient of ten bits stands behind fifteen zeros. */
  lemma StandardBlock(dc: seq<Entry>, ac: seq<Entry>, block: seq<int>, lastDC: int)
    requires DcCoding(dc) && AcCoding(ac)
    ensures CodableBlock(dc, ac, block, lastDC) <==> Baseline(block, lastDC)
    ensures Baseline(block, lastDC) ==> (UsableBlock(dc, ac, block, lastDC) <==> Safe(block, lastDC))
  {
    hide HasCode, Usable, AcCoding, CodableItems, UsableItems, Items, Category, SmallFrom, NoneLost;
    if |block| == 64 {
      StandardItems(ac, block, 1, 0);
    }
  }

  /** A difference that T.81 allows and the decoder loses: 1024 has eleven bits, and its code is the last. */
  lemma LostDifference(dc: seq<Entry>, ac: seq<Entry>, s: Stream, p: nat)
    requires LegalTable(dc) && LegalTable(ac) && DcCoding(dc) && AcCoding(ac)
    ensures HasCode(dc, 11) && !Usable(dc, 11) && CodableBlock(dc, ac, Fresh(1024), 0)
    ensures At(s, p, EncodeBlock(dc, ac, Fresh(1024), 0)) ==> DecodeBlock(dc, ac, s, p, 0) == Fail
  {
    hide LegalTable, AcCoding, At, EncodeBlock, DecodeBlock, CodableBlock, UsableBlock, HasCode, Usable;
    ElevenBits();
    StandardBlock(dc, ac, Fresh(1024), 0);
    if At(s, p, EncodeBlock(dc, ac, Fresh(1024), 0)) {
      BlockRoundTrip(dc, ac, s, p, Fresh(1024), 0);
    }
  }

  lemma ElevenBits()
    ensures Baseline(Fresh(1024), 0) && !Safe(Fresh(1024), 0)
  {
    assert Pow2(5) == 32 && Pow2(10) == 32 * Pow2(5) && Pow2(11) == 2 * Pow2(10);
    CategoryUnique(1024, 11);
    assert Category(0) == 0;
    assert forall i :: 1 <= i < 64 ==> Fresh(1024)[i] == 0;
  }

  // ---- the tables that dht_data loads ----

  ghost predicate StandardCoded(ts: seq<seq<Entry>>) {
    |ts| == 4 && DcCoding(ts[0]) && AcCoding(ts[1]) && DcCoding(ts[2]) && AcCoding(ts[3])
  }

  function TableOf(s: Spec): seq<Entry>
    requires Writable(s)
  {
    Canonical(Lengths(s.counts, 16), s.values)
  }

  lemma InstallFour(ts: seq<seq<Entry>>, a: Spec, b: Spec, c: Spec, d: Spec)
    requires |ts| == 4 && Writable(a) && Writable(b) && Writable(c) && Writable(d)
    requires Slot(a.target) == 0 && Slot(b.target) == 2 && Slot(c.target) == 1 && Slot(d.target) == 3
    ensures Install(ts, [a, b, c, d]) == [TableOf(a), TableOf(c), TableOf(b), TableOf(d)]
  {
    hide Canonical, Lengths, Writable, Slot;
    assert [a, b, c, d][1..] == [b, c, d] && [b, c, d][1..] == [c, d] && [c, d][1..] == [d] && [d][1..] == [];
    var t1 := ts[0 := TableOf(a)];
    var t2 := t1[2 := TableOf(b)];
    var t3 := t2[1 := TableOf(c)];
    var t4 := t3[3 := TableOf(d)];
    assert Install(t3, [d]) == Install(t4, []) == t4;
    assert Install(t2, [c, d]) == Install(t3, [d]);
    assert Install(t1, [b, c, d]) == Install(t2, [c, d]);
  }

  lemma TableCodes(s: Spec)
    requires Writable(s)
    ensures |TableOf(s)| == |s.values| && forall k :: 0 <= k < |s.values| ==> TableOf(s)[k].code == s.values[k]
  {
    CanonicalCodes(Lengths(s.counts, 16), s.values);
  }

  lemma AllWritable()
    ensures forall i :: 0 <= i < 4 ==> Writable(StandardSpecs()[i])
  {
    hide Writable, StandardSpecs;
    SpecsGood();
    forall i | 0 <= i < 4
      ensures Writable(StandardSpecs()[i])
    {
      assert Good(StandardSpecs()[i]);
    }
  }

  /** The tables of section K.3 of T.81 in the decoder's slots. */
  function FourTables(): (ts: seq<seq<Entry>>)
    ensures |ts| == 4
  {
    AllWritable();
    var s := StandardSpecs();
    [TableOf(s[0]), TableOf(s[2]), TableOf(s[1]), TableOf(s[3])]
  }

  /** They are what the decoder holds after loading dht_data, whatever it held before. */
  lemma StandardLoaded(ts: seq<seq<Entry>>, payload: seq<Byte>)
    requires |ts| == 4 && DhtData() == [0xff, 0xc4, 0x01, 0xa2] + payload
    ensures |payload| == 416 && SegmentOk(payload, 0, 416) && Loaded(ts, payload, 0, 416) == FourTables()
    ensures forall t :: 0 <= t < 4 ==> LegalTable(FourTables()[t])
  {
    hide LegalTable, SegmentOk, Loaded, SegmentBytes, Writable, TableOf, Install;
    hide DC_COUNTS_Y, DC_COUNTS_C, AC_COUNTS_Y, AC_COUNTS_C, DC_VALUES, AC_VALUES_Y, AC_VALUES_C;
    StandardTablesLegal(ts, payload);
    AllWritable();
    var s := StandardSpecs();
    assert Writable(s[0]) && Writable(s[1]) && Writable(s[2]) && Writable(s[3]);
    assert payload == DhtData()[4..] == SegmentBytes(s) == payload[0..];
    SegmentRoundTrip(ts, s, payload, 0);
    InstallFour(ts, s[0], s[1], s[2], s[3]);
  }

  lemma FourTablesLegal()
    ensures forall t :: 0 <= t < 4 ==> LegalTable(FourTables()[t])
  {
    hide LegalTable, FourTables, DhtData;
    DhtDataShape();
    MarkerAndLength();
    StandardLoaded([[], [], [], []], DhtData()[4..]);
  }

  lemma MarkerAndLength()
    ensures |DhtData()| >= 4 && DhtData() == [0xff, 0xc4, 0x01, 0xa2] + DhtData()[4..]
  {
    hide SegmentBytes;
  }

  lemma FourTablesCoded()
    ensures StandardCoded(FourTables())
  {
    hide Writable, DcCoding, AcCoding, TableOf;
    hide DC_COUNTS_Y, DC_COUNTS_C, AC_COUNTS_Y, AC_COUNTS_C, DC_VALUES, AC_VALUES_Y, AC_VALUES_C;
    AllWritable();
    var s := StandardSpecs();
    assert Writable(s[0]) && Writable(s[1]) && Writable(s[2]) && Writable(s[3]);
    TableCodes(s[0]);
    TableCodes(s[1]);
    TableCodes(s[2]);
    TableCodes(s[3]);
    DcTables();
    AcTableY();
    AcTableC();
    DcValuesCode(TableOf(s[0]));
    DcValuesCode(TableOf(s[1]));
    AcValuesCode(TableOf(s[2]), AC_VALUES_Y);
    AcValuesCode(TableOf(s[3]), AC_VALUES_C);
  }

  // ---- scans ----

  /** Every block is one of eight-bit samples, given the DC value before it in its own component. */
  predicate BaselineGroups(groups: seq<Group>, u: int, v: int, w: int)
    decreases |groups|, u
  {
    |groups| == 0
    || var g := groups[0];
       && Baseline(g.y1, u) && Baseline(g.y2, g.y1[0]) && Baseline(g.c1, v) && Baseline(g.c2, w)
       && BaselineGroups(groups[1..], g.y2[0], g.c1[0], g.c2[0])
  }

  predicate SafeGroups(groups: seq<Group>, u: int, v: int, w: int)
    requires BaselineGroups(groups, u, v, w)
    decreases |groups|, u
  {
    |groups| == 0
    || var g := groups[0];
       && Safe(g.y1, u) && Safe(g.y2, g.y1[0]) && Safe(g.c1, v) && Safe(g.c2, w)
       && SafeGroups(groups[1..], g.y2[0], g.c1[0], g.c2[0])
  }

  lemma {:induction false} StandardGroups(ts: seq<seq<Entry>>, groups: seq<Group>, u: int, v: int, w: int)
    requires StandardCoded(ts) && BaselineGroups(groups, u, v, w)
    ensures CodableGroups(ts, 0, 1, groups, u, v, w)
    ensures UsableGroups(ts, 0, 1, groups, u, v, w) <==> SafeGroups(groups, u, v, w)
    decreases |groups|
  {
    hide DcCoding, AcCoding, CodableBlock, UsableBlock, Safe, SmallFrom, Category;
    if |groups| > 0 {
      var g := groups[0];
      StandardBlock(ts[0], ts[1], g.y1, u);
      StandardBlock(ts[0], ts[1], g.y2, g.y1[0]);
      StandardBlock(ts[2], ts[3], g.c1, v);
      StandardBlock(ts[2], ts[3], g.c2, w);
      StandardGroups(ts, groups[1..], g.y2[0], g.c1[0], g.c2[0]);
    }
  }

  /** The code of a scan of eight-bit samples. */
  function StandardCode(groups: seq<Group>): Bits
    requires BaselineGroups(groups, 0, 0, 0)
  {
    FourTablesCoded();
    StandardGroups(FourTables(), groups, 0, 0, 0);
    EncodeGroups(FourTables(), 0, 1, groups, 0, 0, 0)
  }

  /** A frame with the tables of dht_data: every list of groups of eight-bit samples, coded and stuffed, comes out of
      the decoder if and only if no DC difference has eleven bits and no coefficient of ten bits stands behind
      fifteen zeros. */
  lemma StandardRoundTrip(mem: Memory, start: nat, groups: seq<Group>, t: seq<Byte>)
    requires BaselineGroups(groups, 0, 0, 0) && StandardCode(groups) <= BytesBits(t)
    requires Readable(t) && Holds(mem, start, Stuff(t))
    ensures DecodeGroups(FourTables(), 0, 1, ScanBits(mem, start), 0, 0, 0, 0, |groups|) ==
            if SafeGroups(groups, 0, 0, 0) then Ok(groups, |StandardCode(groups)|) else Fail
  {
    hide LegalTable, FourTables, StandardCoded, BaselineGroups, SafeGroups, Readable, Holds, Stuff;
    hide CodableGroups, UsableGroups, EncodeGroups, DecodeGroups, ScanBits, BytesBits;
    FourTablesLegal();
    FourTablesCoded();
    StandardGroups(FourTables(), groups, 0, 0, 0);
    ScanRoundTrip(FourTables(), 0, 1, mem, start, groups, t);
  }

  // ---- a chroma block of zeros ----

  /** The codes of two bits or more begin with 00. */
  lemma FirstCode(counts: seq<Byte>, vals: seq<Byte>)
    requires |counts| == 16 && counts[0] == 0 && counts[1] > 0 && 0 < |vals| == |Lengths(counts, 16)|
    ensures var e := Canonical(Lengths(counts, 16), vals)[0];
            e.bitlen == 2 && e.code == vals[0] && Code(e) == [false, false]
  {
    var lens := Lengths(counts, 16);
    LengthsPrefix(counts, 2, 16);
    assert Lengths(counts, 2) == Lengths(counts, 1) + seq(counts[1], _ => 2);
    assert Lengths(counts, 1) == Lengths(counts, 0) + seq(counts[0], _ => 1);
    assert |Lengths(counts, 1)| == 0;
    hide Lengths;
    assert lens[0] == 2 && LeftSum(lens, 0) == 0;
    ZeroBits(32);
    assert Zeros(32)[..2] == [false, false];
  }

  lemma FirstSymbol(es: seq<Entry>, s: Stream, p: nat)
    requires |es| > 1 && es[0].bitlen == 2 && Code(es[0]) == [false, false] && !s(p) && !s(p + 1)
    ensures DecodeSymbol(es, s, p) == Ok(es[0].code, p + 2)
  {
    hide Code;
    assert Take(s, p, 1) == Take(s, p, 0) + [s(p)];
    assert Take(s, p, 2) == Take(s, p, 1) + [s(p + 1)];
    assert At(s, p, [false, false]);
  }

  lemma ZeroSymbols(dc: seq<Entry>, ac: seq<Entry>, s: Stream, p: nat, q: nat, lastDC: int)
    requires DecodeSymbol(dc, s, p) == Ok(0, p + 2) && DecodeSymbol(ac, s, p + 2) == Ok(0, q)
    ensures DecodeBlock(dc, ac, s, p, lastDC) == Ok(Fresh(lastDC), q)
  {
    hide DecodeSymbol;
    assert DecodeDC(dc, s, p, lastDC) == Ok(lastDC, p + 2);
    assert DecodeItem(ac, s, p + 2) == Ok(End, q);
  }

  /** In the chroma tables the four bits 0000 are a block of zeros behind the predictor. */
  lemma ZeroChromaBlock(s: Stream, p: nat, lastDC: int)
    requires !s(p) && !s(p + 1) && !s(p + 2) && !s(p + 3)
    ensures DecodeBlock(FourTables()[2], FourTables()[3], s, p, lastDC) == Ok(Fresh(lastDC), p + 4)
  {
    var dc, ac := FourTables()[2], FourTables()[3];
    ChromaTables();
    hide FourTables;
    FirstSymbol(dc, s, p);
    FirstSymbol(ac, s, p + 2);
    ZeroSymbols(dc, ac, s, p, p + 4, lastDC);
  }

  /** Both chroma tables have more than one code, and 00 stands for the symbol 0. */
  lemma ChromaTables()
    ensures forall k :: 2 <= k < 4 ==>
              var es := FourTables()[k];
              |es| > 1 && es[0].bitlen == 2 && es[0].code == 0 && Code(es[0]) == [false, false]
  {
    hide Canonical, Lengths, Code, AC_VALUES_C, DC_VALUES, AC_COUNTS_C, DC_COUNTS_C, Writable, TableOf;
    AllWritable();
    var s := StandardSpecs();
    assert Writable(s[1]) && Writable(s[3]);
    ChromaFirst();
    FirstOfTable(s[1]);
    FirstOfTable(s[3]);
  }

  lemma FirstOfTable(s: Spec)
    requires Writable(s) && s.counts[0] == 0 && s.counts[1] > 0 && |s.values| > 1
    ensures var es := TableOf(s);
            |es| > 1 && es[0].bitlen == 2 && es[0].code == s.values[0] && Code(es[0]) == [false, false]
  {
    hide Canonical, Lengths, Code;
    FirstCode(s.counts, s.values);
  }

  lemma ChromaFirst()
    ensures |DC_COUNTS_C| == |AC_COUNTS_C| == 16 && DC_COUNTS_C[0] == AC_COUNTS_C[0] == 0
    ensures DC_COUNTS_C[1] > 1 && AC_COUNTS_C[1] > 1
    ensures |DC_VALUES| == 12 && DC_VALUES[0] == 0 && |AC_VALUES_C| == 162 && AC_VALUES_C[0] == 0
  {
    AcTableC();
    assert AC_C1[0] == 0;
    hide AC_C1, AC_C2, AC_C3, AC_C4, AC_C5;
    SetC1(0);
  }

  // ---- a group of zeros ----

  /** After two codes of two bits and one of three comes 1010. */
  lemma FourthCode(counts: seq<Byte>, vals: seq<Byte>)
    requires |counts| == 16 && counts[..4] == [0, 2, 1, 3] && |vals| == |Lengths(counts, 16)|
    ensures |vals| >= 6
    ensures var e := Canonical(Lengths(counts, 16), vals)[3];
            e.bitlen == 4 && e.code == vals[3] && Code(e) == [true, false, true, false]
  {
    hide Lengths;
    FourLengths(counts);
    FourthEntry(Lengths(counts, 16), vals);
  }

  lemma FourthEntry(lens: seq<nat>, vals: seq<Byte>)
    requires |lens| >= 6 && lens[0] == lens[1] == 2 && lens[2] == 3 && lens[3] == 4 && |vals| == |lens|
    requires forall k :: 0 <= k < |lens| ==> lens[k] <= 32
    ensures var e := Canonical(lens, vals)[3];
            e.bitlen == 4 && e.code == vals[3] && Code(e) == [true, false, true, false]
  {
    hide LeftSum, Shifted, Pow2, Code;
    ThreeShares(lens);
    TopTen();
    TenCode(Canonical(lens, vals)[3]);
  }

  lemma FourLengths(counts: seq<Byte>)
    requires |counts| == 16 && counts[..4] == [0, 2, 1, 3]
    ensures var lens := Lengths(counts, 16);
            |lens| >= 6 && lens[0] == lens[1] == 2 && lens[2] == 3 && lens[3] == 4
  {
    FirstLengths(counts);
    LengthsPrefix(counts, 4, 16);
    hide Lengths;
    assert Lengths(counts, 16)[..6] == [2, 2, 3, 4, 4, 4];
  }

  lemma TenCode(e: Entry)
    requires e.bits == Shifted(10, 28) && e.bitlen == 4
    ensures Code(e) == [true, false, true, false]
  {
    hide Shifted;
    OfNatShifted(10, 4, 28);
    assert (OfNat(10, 4) + Zeros(28))[..4] == OfNat(10, 4) == [true, false, true, false];
  }

  lemma ThreeShares(lens: seq<nat>)
    requires |lens| >= 3 && lens[0] == lens[1] == 2 && lens[2] == 3
    ensures LeftSum(lens, 3) == Pow2(30) + Pow2(30) + Pow2(29)
  {
    hide Pow2;
    assert LeftSum(lens, 0) == 0;
    assert LeftSum(lens, 1) == Pow2(30);
    assert LeftSum(lens, 2) == LeftSum(lens, 1) + Pow2(30);
    assert LeftSum(lens, 3) == LeftSum(lens, 2) + Pow2(29);
  }

  lemma FirstLengths(counts: seq<Byte>)
    requires |counts| == 16 && counts[..4] == [0, 2, 1, 3]
    ensures Lengths(counts, 4) == [2, 2, 3, 4, 4, 4]
  {
    assert counts[0] == counts[..4][0] && counts[1] == counts[..4][1];
    assert counts[2] == counts[..4][2] && counts[3] == counts[..4][3];
    assert Lengths(counts, 1) == [];
    assert Lengths(counts, 2) == [2, 2];
    assert Lengths(counts, 3) == [2, 2, 3];
  }

  lemma TopTen()
    ensures Pow2(30) + Pow2(30) + Pow2(29) == Shifted(10, 28) < 0x1_0000_0000
  {
    var q := Pow2(28);
    assert Pow2(29) == 2 * q && Pow2(30) == 2 * Pow2(29) && Pow2(31) == 2 * Pow2(30) && Pow2(32) == 2 * Pow2(31);
    Pow2Of32();
    TenTimes(28);
  }

  lemma {:induction false} TenTimes(n: nat)
    ensures Shifted(10, n) == 10 * Pow2(n)
  {
    if n > 0 {
      TenTimes(n - 1);
    }
  }

  /** In the luma tables 00 1010 is a block of zeros behind the predictor. */
  lemma ZeroLumaBlock(s: Stream, p: nat, lastDC: int)
    requires !s(p) && !s(p + 1) && s(p + 2) && !s(p + 3) && s(p + 4) && !s(p + 5)
    ensures DecodeBlock(FourTables()[0], FourTables()[1], s, p, lastDC) == Ok(Fresh(lastDC), p + 6)
  {
    hide DecodeSymbol, DecodeBlock, LegalTable, Code;
    var dc, ac := FourTables()[0], FourTables()[1];
    LumaTables();
    FourTablesLegal();
    hide FourTables;
    FirstSymbol(dc, s, p);
    EndOfBlock(ac, s, p + 2);
    ZeroSymbols(dc, ac, s, p, p + 6, lastDC);
  }

  lemma EndOfBlock(ac: seq<Entry>, s: Stream, p: nat)
    requires LegalTable(ac) && |ac| >= 6 && ac[3].bitlen == 4 && ac[3].code == 0
    requires Code(ac[3]) == [true, false, true, false] && s(p) && !s(p + 1) && s(p + 2) && !s(p + 3)
    ensures DecodeSymbol(ac, s, p) == Ok(0, p + 4)
  {
    hide Code, WellFormed, PrefixFree, DecodeSymbol, Take;
    FourBits(s, p);
    SymbolDecodes(ac, s, p, 3);
  }

  lemma FourBits(s: Stream, p: nat)
    ensures At(s, p, [s(p), s(p + 1), s(p + 2), s(p + 3)])
  {
    assert Take(s, p, 1) == Take(s, p, 0) + [s(p)];
    assert Take(s, p, 2) == Take(s, p, 1) + [s(p + 1)];
    assert Take(s, p, 3) == Take(s, p, 2) + [s(p + 2)];
    assert Take(s, p, 4) == Take(s, p, 3) + [s(p + 3)];
  }

  lemma LumaTables()
    ensures var dc, ac := FourTables()[0], FourTables()[1];
            && |dc| > 1 && dc[0].bitlen == 2 && dc[0].code == 0 && Code(dc[0]) == [false, false]
            && |ac| >= 6 && ac[3].bitlen == 4 && ac[3].code == 0 && Code(ac[3]) == [true, false, true, false]
  {
    hide Canonical, Lengths, Code, AC_VALUES_Y, DC_VALUES, AC_COUNTS_Y, DC_COUNTS_Y, Writable, TableOf;
    AllWritable();
    var s := StandardSpecs();
    assert Writable(s[0]) && Writable(s[2]);
    LumaFirst();
    FirstOfTable(s[0]);
    FourthOfTable(s[2]);
  }

  lemma FourthOfTable(s: Spec)
    requires Writable(s) && s.counts[..4] == [0, 2, 1, 3]
    ensures var es := TableOf(s);
            |es| == |s.values| >= 6 && es[3].bitlen == 4 && es[3].code == s.values[3]
            && Code(es[3]) == [true, false, true, false]
  {
    hide Canonical, Lengths, Code;
    FourthCode(s.counts, s.values);
  }

  lemma LumaFirst()
    ensures |DC_COUNTS_Y| == |AC_COUNTS_Y| == 16 && DC_COUNTS_Y[..2] == [0, 1] && AC_COUNTS_Y[..4] == [0, 2, 1, 3]
    ensures |DC_VALUES| == 12 && DC_VALUES[0] == 0 && |AC_VALUES_Y| == 162 && AC_VALUES_Y[3] == 0
  {
    AcTableY();
    assert AC_Y1[3] == 0;
    hide AC_Y1, AC_Y2, AC_Y3, AC_Y4, AC_Y5;
    SetY1(0);
  }

  /** With the standard tables the twenty bits 00 1010 00 1010 00 00 00 00 are a group without any detail: the DC
      values stay, luminance from block to block, the two chrominance components each on its own. */
  lemma ZeroGroup(s: Stream, p: nat, u: int, v: int, w: int)
    requires !s(p) && !s(p + 1) && s(p + 2) && !s(p + 3) && s(p + 4) && !s(p + 5)
    requires !s(p + 6) && !s(p + 7) && s(p + 8) && !s(p + 9) && s(p + 10) && !s(p + 11)
    requires !s(p + 12) && !s(p + 13) && !s(p + 14) && !s(p + 15)
    requires !s(p + 16) && !s(p + 17) && !s(p + 18) && !s(p + 19)
    ensures DecodeGroup(FourTables(), 0, 1, s, p, u, v, w) ==
            Ok(Group(Fresh(u), Fresh(u), Fresh(v), Fresh(w)), p + 20)
  {
    hide FourTables, DecodeBlock;
    ZeroLumaBlock(s, p, u);
    ZeroLumaBlock(s, p + 6, u);
    ZeroChromaBlock(s, p + 12, v);
    ZeroChromaBlock(s, p + 16, w);
  }
}
