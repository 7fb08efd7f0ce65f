/** dht_data: the DHT segment with the tables of section K.3 of ITU-T T.81. */
module StandardTables {
  import opened Words
  import opened Huffman
  import opened DhtTables

  const DC_COUNTS_Y: seq<Byte> := [0, 1, 5, 1, 1, 1, 1, 1, 1, 0, 0, 0, 0, 0, 0, 0]
  const DC_COUNTS_C: seq<Byte> := [0, 3, 1, 1, 1, 1, 1, 1, 1, 1, 1, 0, 0, 0, 0, 0]
  const AC_COUNTS_Y: seq<Byte> := [0, 2, 1, 3, 3, 2, 4, 3, 5, 5, 4, 4, 0, 0, 1, 0x7d]
  const AC_COUNTS_C: seq<Byte> := [0, 2, 1, 2, 4, 4, 3, 4, 7, 5, 4, 4, 0, 1, 2, 0x77]
  const DC_VALUES: seq<Byte> := [0, 1, 2, 3, 4, 5, 6, 7, 8, 9, 10, 11]
  const AC_Y1: seq<Byte> := [
    0x01, 0x02, 0x03, 0x00, 0x04, 0x11, 0x05, 0x12, 0x21, 0x31, 0x41, 0x06, 0x13, 0x51, 0x61, 0x07, 0x22,
    0x71, 0x14, 0x32, 0x81, 0x91, 0xa1, 0x08, 0x23, 0x42, 0xb1, 0xc1, 0x15, 0x52, 0xd1, 0xf0, 0x24, 0x33]
  const AC_Y2: seq<Byte> := [
    0x62, 0x72, 0x82, 0x09, 0x0a, 0x16, 0x17, 0x18, 0x19, 0x1a, 0x25, 0x26, 0x27, 0x28, 0x29, 0x2a, 0x34,
    0x35, 0x36, 0x37, 0x38, 0x39, 0x3a, 0x43, 0x44, 0x45, 0x46, 0x47, 0x48, 0x49, 0x4a, 0x53, 0x54, 0x55]
  const AC_Y3: seq<Byte> := [
    0x56, 0x57, 0x58, 0x59, 0x5a, 0x63, 0x64, 0x65, 0x66, 0x67, 0x68, 0x69, 0x6a, 0x73, 0x74, 0x75, 0x76,
    0x77, 0x78, 0x79, 0x7a, 0x83, 0x84, 0x85, 0x86, 0x87, 0x88, 0x89, 0x8a, 0x92, 0x93, 0x94, 0x95, 0x96]
  const AC_Y4: seq<Byte> := [
    0x97, 0x98, 0x99, 0x9a, 0xa2, 0xa3, 0xa4, 0xa5, 0xa6, 0xa7, 0xa8, 0xa9, 0xaa, 0xb2, 0xb3, 0xb4, 0xb5,
    0xb6, 0xb7, 0xb8, 0xb9, 0xba, 0xc2, 0xc3, 0xc4, 0xc5, 0xc6, 0xc7, 0xc8, 0xc9, 0xca, 0xd2, 0xd3, 0xd4]
  const AC_Y5: seq<Byte> := [
    0xd5, 0xd6, 0xd7, 0xd8, 0xd9, 0xda, 0xe1, 0xe2, 0xe3, 0xe4, 0xe5, 0xe6, 0xe7, 0xe8, 0xe9, 0xea, 0xf1,
    0xf2, 0xf3, 0xf4, 0xf5, 0xf6, 0xf7, 0xf8, 0xf9, 0xfa]
  const AC_VALUES_Y: seq<Byte> := AC_Y1 + AC_Y2 + AC_Y3 + AC_Y4 + AC_Y5
  const AC_C1: seq<Byte> := [
    0x00, 0x01, 0x02, 0x03, 0x11, 0x04, 0x05, 0x21, 0x31, 0x06, 0x12, 0x41, 0x51, 0x07, 0x61, 0x71, 0x13,
    0x22, 0x32, 0x81, 0x08, 0x14, 0x42, 0x91, 0xa1, 0xb1, 0xc1, 0x09, 0x23, 0x33, 0x52, 0xf0, 0x15, 0x62]
  const AC_C2: seq<Byte> := [
    0x72, 0xd1, 0x0a, 0x16, 0x24, 0x34, 0xe1, 0x25, 0xf1, 0x17, 0x18, 0x19, 0x1a, 0x26, 0x27, 0x28, 0x29,
    0x2a, 0x35, 0x36, 0x37, 0x38, 0x39, 0x3a, 0x43, 0x44, 0x45, 0x46, 0x47, 0x48, 0x49, 0x4a, 0x53, 0x54]
  const AC_C3: seq<Byte> := [
    0x55, 0x56, 0x57, 0x58, 0x59, 0x5a, 0x63, 0x64, 0x65, 0x66, 0x67, 0x68, 0x69, 0x6a, 0x73, 0x74, 0x75,
    0x76, 0x77, 0x78, 0x79, 0x7a, 0x82, 0x83, 0x84, 0x85, 0x86, 0x87, 0x88, 0x89, 0x8a, 0x92, 0x93, 0x94]
  const AC_C4: seq<Byte> := [
    0x95, 0x96, 0x97, 0x98, 0x99, 0x9a, 0xa2, 0xa3, 0xa4, 0xa5, 0xa6, 0xa7, 0xa8, 0xa9, 0xaa, 0xb2, 0xb3,
    0xb4, 0xb5, 0xb6, 0xb7, 0xb8, 0xb9, 0xba, 0xc2, 0xc3, 0xc4, 0xc5, 0xc6, 0xc7, 0xc8, 0xc9, 0xca, 0xd2]
  const AC_C5: seq<Byte> := [
    0xd3, 0xd4, 0xd5, 0xd6, 0xd7, 0xd8, 0xd9, 0xda, 0xe2, 0xe3, 0xe4, 0xe5, 0xe6, 0xe7, 0xe8, 0xe9, 0xea,
    0xf2, 0xf3, 0xf4, 0xf5, 0xf6, 0xf7, 0xf8, 0xf9, 0xfa]
  const AC_VALUES_C: seq<Byte> := AC_C1 + AC_C2 + AC_C3 + AC_C4 + AC_C5

  function StandardSpecs(): (specs: seq<Spec>)
    ensures |specs| == 4
  {
    [Spec(0x00, DC_COUNTS_Y, DC_VALUES), Spec(0x01, DC_COUNTS_C, DC_VALUES),
     Spec(0x10, AC_COUNTS_Y, AC_VALUES_Y), Spec(0x11, AC_COUNTS_C, AC_VALUES_C)]
  }

  /** Marker, segment length 0x01a2, the four specifications. */
  function DhtData(): seq<Byte> { [0xff, 0xc4, 0x01, 0xa2] + SegmentBytes(StandardSpecs()) }

  lemma DcTables()
    ensures |DC_COUNTS_Y| == |DC_COUNTS_C| == 16 && |DC_VALUES| == 12
    ensures 255 !in DC_COUNTS_Y && 255 !in DC_COUNTS_C && 255 !in DC_VALUES
  {
  }

  /** The AC symbols of T.81 for eight-bit samples: end of block, sixteen zeros, and up to fifteen zeros before a
      value of one to ten bits. */
  predicate AcSymbol(x: Byte) { x == 0x00 || x == 0xf0 || 1 <= x % 16 <= 10 }

  predicate InY1(x: Byte) {
    0x00 <= x <= 0x08 || 0x11 <= x <= 0x15 || 0x21 <= x <= 0x24 || 0x31 <= x <= 0x33 ||
    0x41 <= x <= 0x42 || 0x51 <= x <= 0x52 || x == 0x61 || x == 0x71 || x == 0x81 ||
    x == 0x91 || x == 0xa1 || x == 0xb1 || x == 0xc1 || x == 0xd1 || x == 0xf0
  }

  lemma SetY1(x: Byte)
    ensures |AC_Y1| == 34
    ensures x in AC_Y1 <==> InY1(x)
  {
  }

  predicate InY2(x: Byte) {
    0x09 <= x <= 0x0a || 0x16 <= x <= 0x1a || 0x25 <= x <= 0x2a || 0x34 <= x <= 0x3a ||
    0x43 <= x <= 0x4a || 0x53 <= x <= 0x55 || x == 0x62 || x == 0x72 || x == 0x82
  }

  lemma SetY2(x: Byte)
    ensures |AC_Y2| == 34
    ensures x in AC_Y2 <==> InY2(x)
  {
  }

  predicate InY3(x: Byte) {
    0x56 <= x <= 0x5a || 0x63 <= x <= 0x6a || 0x73 <= x <= 0x7a || 0x83 <= x <= 0x8a ||
    0x92 <= x <= 0x96
  }

  lemma SetY3(x: Byte)
    ensures |AC_Y3| == 34
    ensures x in AC_Y3 <==> InY3(x)
  {
  }

  predicate InY4(x: Byte) {
    0x97 <= x <= 0x9a || 0xa2 <= x <= 0xaa || 0xb2 <= x <= 0xba || 0xc2 <= x <= 0xca ||
    0xd2 <= x <= 0xd4
  }

  lemma SetY4(x: Byte)
    ensures |AC_Y4| == 34
    ensures x in AC_Y4 <==> InY4(x)
  {
  }

  predicate InY5(x: Byte) {
    0xd5 <= x <= 0xda || 0xe1 <= x <= 0xea || 0xf1 <= x <= 0xfa
  }

  lemma SetY5(x: Byte)
    ensures |AC_Y5| == 26
    ensures x in AC_Y5 <==> InY5(x)
  {
  }

  lemma SymbolsY(x: Byte)
    ensures x in AC_VALUES_Y <==> AcSymbol(x)
  {
    hide AC_Y1, AC_Y2, AC_Y3, AC_Y4, AC_Y5;
    SetY1(x);
    SetY2(x);
    SetY3(x);
    SetY4(x);
    SetY5(x);
    var r, c := x / 16, x % 16;
    assert x == 16 * r + c;
  }

  lemma AcTableY()
    ensures |AC_COUNTS_Y| == 16 && |AC_VALUES_Y| == 162 && 255 !in AC_COUNTS_Y && 255 !in AC_VALUES_Y
  {
    hide AC_Y1, AC_Y2, AC_Y3, AC_Y4, AC_Y5;
    SymbolsY(255);
    SetY1(255);
    SetY2(255);
    SetY3(255);
    SetY4(255);
    SetY5(255);
  }

  predicate InC1(x: Byte) {
    0x00 <= x <= 0x09 || 0x11 <= x <= 0x15 || 0x21 <= x <= 0x23 || 0x31 <= x <= 0x33 ||
    0x41 <= x <= 0x42 || 0x51 <= x <= 0x52 || 0x61 <= x <= 0x62 || x == 0x71 || x == 0x81 ||
    x == 0x91 || x == 0xa1 || x == 0xb1 || x == 0xc1 || x == 0xf0
  }

  lemma SetC1(x: Byte)
    ensures |AC_C1| == 34
    ensures x in AC_C1 <==> InC1(x)
  {
  }

  predicate InC2(x: Byte) {
    x == 0x0a || 0x16 <= x <= 0x1a || 0x24 <= x <= 0x2a || 0x34 <= x <= 0x3a ||
    0x43 <= x <= 0x4a || 0x53 <= x <= 0x54 || x == 0x72 || x == 0xd1 || x == 0xe1 || x == 0xf1
  }

  lemma SetC2(x: Byte)
    ensures |AC_C2| == 34
    ensures x in AC_C2 <==> InC2(x)
  {
  }

  predicate InC3(x: Byte) {
    0x55 <= x <= 0x5a || 0x63 <= x <= 0x6a || 0x73 <= x <= 0x7a || 0x82 <= x <= 0x8a ||
    0x92 <= x <= 0x94
  }

  lemma SetC3(x: Byte)
    ensures |AC_C3| == 34
    ensures x in AC_C3 <==> InC3(x)
  {
  }

  predicate InC4(x: Byte) {
    0x95 <= x <= 0x9a || 0xa2 <= x <= 0xaa || 0xb2 <= x <= 0xba || 0xc2 <= x <= 0xca ||
    x == 0xd2
  }

  lemma SetC4(x: Byte)
    ensures |AC_C4| == 34
    ensures x in AC_C4 <==> InC4(x)
  {
  }

  predicate InC5(x: Byte) {
    0xd3 <= x <= 0xda || 0xe2 <= x <= 0xea || 0xf2 <= x <= 0xfa
  }

  lemma SetC5(x: Byte)
    ensures |AC_C5| == 26
    ensures x in AC_C5 <==> InC5(x)
  {
  }

  lemma SymbolsC(x: Byte)
    ensures x in AC_VALUES_C <==> AcSymbol(x)
  {
    hide AC_C1, AC_C2, AC_C3, AC_C4, AC_C5;
    SetC1(x);
    SetC2(x);
    SetC3(x);
    SetC4(x);
    SetC5(x);
    var r, c := x / 16, x % 16;
    assert x == 16 * r + c;
  }

  lemma AcTableC()
    ensures |AC_COUNTS_C| == 16 && |AC_VALUES_C| == 162 && 255 !in AC_COUNTS_C && 255 !in AC_VALUES_C
  {
    hide AC_C1, AC_C2, AC_C3, AC_C4, AC_C5;
    SymbolsC(255);
    SetC1(255);
    SetC2(255);
    SetC3(255);
    SetC4(255);
    SetC5(255);
  }

  ghost predicate Good(s: Spec) { Writable(s) && Kraft(Lengths(s.counts, 16)) }

  lemma GoodDcY()
    ensures Good(Spec(0x00, DC_COUNTS_Y, DC_VALUES))
  {
    hide Kraft, Lengths, CodeVal;
    KraftIffCodeVal(DC_COUNTS_Y);
    CodeVal16(DC_COUNTS_Y);
    Count16(DC_COUNTS_Y);
    DcTables();
  }

  lemma GoodDcC()
    ensures Good(Spec(0x01, DC_COUNTS_C, DC_VALUES))
  {
    hide Kraft, Lengths, CodeVal;
    KraftIffCodeVal(DC_COUNTS_C);
    CodeVal16(DC_COUNTS_C);
    Count16(DC_COUNTS_C);
    DcTables();
  }

  lemma GoodAcY()
    ensures Good(Spec(0x10, AC_COUNTS_Y, AC_VALUES_Y))
  {
    hide Kraft, Lengths, CodeVal;
    KraftIffCodeVal(AC_COUNTS_Y);
    CodeVal16(AC_COUNTS_Y);
    Count16(AC_COUNTS_Y);
    AcTableY();
  }

  lemma GoodAcC()
    ensures Good(Spec(0x11, AC_COUNTS_C, AC_VALUES_C))
  {
    hide Kraft, Lengths, CodeVal;
    KraftIffCodeVal(AC_COUNTS_C);
    CodeVal16(AC_COUNTS_C);
    Count16(AC_COUNTS_C);
    AcTableC();
  }

  lemma SegmentOfFour(a: Spec, b: Spec, c: Spec, d: Spec)
    ensures SegmentBytes([a, b, c, d]) == SpecBytes(a) + SpecBytes(b) + SpecBytes(c) + SpecBytes(d)
  {
    hide SpecBytes;
    assert [a, b, c, d][1..] == [b, c, d] && [b, c, d][1..] == [c, d] && [c, d][1..] == [d] && [d][1..] == [];
    assert SegmentBytes([d]) == SpecBytes(d);
    assert SegmentBytes([c, d]) == SpecBytes(c) + SpecBytes(d);
  }

  /** Only the marker starts with 0xff. */
  lemma DhtDataShape()
    ensures |DhtData()| == 420 && DhtData()[0] == 0xff && DhtData()[1] == 0xc4
    ensures forall i :: 1 <= i < 420 ==> DhtData()[i] != 0xff
  {
    hide DC_COUNTS_Y, DC_COUNTS_C, AC_COUNTS_Y, AC_COUNTS_C, DC_VALUES, AC_VALUES_Y, AC_VALUES_C;
    DcTables();
    AcTableY();
    AcTableC();
    var s := StandardSpecs();
    SegmentOfFour(s[0], s[1], s[2], s[3]);
    assert 255 !in SegmentBytes(s);
    var t := [0xc4, 0x01, 0xa2] + SegmentBytes(s);
    assert 255 !in t;
    assert DhtData() == [0xff] + t;
    forall i | 1 <= i < 420
      ensures DhtData()[i] != 0xff
    {
      assert DhtData()[i] == t[i - 1] && t[i - 1] in t;
    }
  }

  /** The decoder loads the segment's payload into four legal tables, whatever its arrays held before. */
  lemma StandardTablesLegal(ts: seq<seq<Entry>>, payload: seq<Byte>)
    requires |ts| == 4 && DhtData() == [0xff, 0xc4, 0x01, 0xa2] + payload
    ensures |payload| == 416 && SegmentOk(payload, 0, 416)
    ensures forall t :: 0 <= t < 4 ==> LegalTable(Loaded(ts, payload, 0, 416)[t])
  {
    hide Kraft, Lengths, LegalTable, Install, Loaded, SegmentOk, SegmentBytes, Writable, Targeted;
    DhtDataShape();
    AllTargeted();
    var specs := StandardSpecs();
    assert payload == DhtData()[4..] == SegmentBytes(specs) == payload[0..];
    hide StandardSpecs, DhtData;
    SpecsGood();
    forall i | 0 <= i < 4
      ensures Writable(specs[i]) && Kraft(Lengths(specs[i].counts, 16))
    {
      assert Good(specs[i]);
    }
    SegmentRoundTrip(ts, specs, payload, 0);
    InstallLegal(ts, specs);
  }

  lemma AllTargeted()
    ensures forall t :: 0 <= t < 4 ==> Targeted(StandardSpecs(), t)
  {
    hide DC_COUNTS_Y, DC_COUNTS_C, AC_COUNTS_Y, AC_COUNTS_C, DC_VALUES, AC_VALUES_Y, AC_VALUES_C;
    var s := StandardSpecs();
    assert Slot(s[0].target) == 0 && Slot(s[1].target) == 2 && Slot(s[2].target) == 1 && Slot(s[3].target) == 3;
  }

  lemma SpecsGood()
    ensures forall i :: 0 <= i < 4 ==> Good(StandardSpecs()[i])
  {
    hide Good, DC_COUNTS_Y, DC_COUNTS_C, AC_COUNTS_Y, AC_COUNTS_C, DC_VALUES, AC_VALUES_Y, AC_VALUES_C;
    GoodDcY();
    GoodDcC();
    GoodAcY();
    GoodAcC();
  }
}
