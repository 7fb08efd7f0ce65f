/** Loading a DHT segment into the decoder's lookup arrays. */
module DhtTables {
  import opened Words
  import opened Huffman

  const CAPACITY := 162

  // One table specification starts at pos: a class/destination byte, sixteen counts, the values.

  function Slot(uc: Byte): nat { (uc % 16) * 2 + uc / 16 }

  function SpecLengths(buffer: seq<Byte>, pos: nat): seq<nat>
    requires pos + 17 <= |buffer|
  {
    Lengths(buffer[pos + 1..pos + 17], 16)
  }

  /** What the loader takes for granted: the slot exists, the values fit the arrays and the buffer. */
  predicate SpecOk(buffer: seq<Byte>, pos: nat) {
    pos + 17 <= |buffer| && Slot(buffer[pos]) < 4
    && |SpecLengths(buffer, pos)| <= CAPACITY
    && pos + 17 + |SpecLengths(buffer, pos)| <= |buffer|
  }

  function SpecEnd(buffer: seq<Byte>, pos: nat): nat
    requires SpecOk(buffer, pos)
  {
    pos + 17 + |SpecLengths(buffer, pos)|
  }

  function SpecTable(buffer: seq<Byte>, pos: nat): seq<Entry>
    requires SpecOk(buffer, pos)
  {
    Canonical(SpecLengths(buffer, pos), buffer[pos + 17..SpecEnd(buffer, pos)])
  }

  predicate SegmentOk(buffer: seq<Byte>, pos: nat, limit: nat)
    decreases |buffer| - pos
  {
    SpecOk(buffer, pos) && (SpecEnd(buffer, pos) < limit ==> SegmentOk(buffer, SpecEnd(buffer, pos), limit))
  }

  /** The four tables after the specifications from pos on have been read in order. */
  function Loaded(ts: seq<seq<Entry>>, buffer: seq<Byte>, pos: nat, limit: nat): (r: seq<seq<Entry>>)
    requires |ts| == 4 && SegmentOk(buffer, pos, limit)
    ensures |r| == 4
    decreases |buffer| - pos
  {
    var ts' := ts[Slot(buffer[pos]) := SpecTable(buffer, pos)];
    if SpecEnd(buffer, pos) < limit then Loaded(ts', buffer, SpecEnd(buffer, pos), limit) else ts'
  }

  /** The lookup arrays; dht_lookup_bits, _mask, _bitlen and _code are one array of entries per table. */
  class Tables {
    const lookup: array2<Entry>
    const size: array<nat>

    ghost predicate Valid()
      reads size
    {
      lookup.Length0 == size.Length == 4 && lookup.Length1 == CAPACITY == 162
      && forall t :: 0 <= t < 4 ==> size[t] <= CAPACITY
    }

    ghost function Table(t: nat): (es: seq<Entry>)
      requires t < 4 && Valid()
      reads lookup, size
      ensures |es| == size[t]
      ensures forall k :: 0 <= k < |es| ==> es[k] == lookup[t, k]
    {
      Prefix(t, size[t])
    }

    ghost function Prefix(t: nat, n: nat): (es: seq<Entry>)
      requires t < 4 && n <= CAPACITY && Valid()
      reads lookup, size
      ensures |es| == n
      ensures forall k :: 0 <= k < n ==> es[k] == lookup[t, k]
    {
      if n == 0 then [] else Prefix(t, n - 1) + [lookup[t, n - 1]]
    }

    ghost function All(): seq<seq<Entry>>
      requires Valid()
      reads lookup, size
    {
      [Table(0), Table(1), Table(2), Table(3)]
    }

    constructor ()
      ensures Valid() && fresh(lookup) && fresh(size)
    {
      lookup := new Entry[4, CAPACITY];
      size := new nat[4](_ => 0);
    }

    /** The loader's inner loop: the codes of length len. */
    method LoadLength(tab: nat, first: nat, values: seq<Byte>, firstCode: nat, len: nat,
                      ghost lens: seq<nat>, ghost es: seq<Entry>)
      returns (tableInd: nat, codeVal: nat)
      requires Valid() && tab < 4 && 1 <= len <= 16
      requires first + |values| <= |lens| == |es| && first + |values| <= CAPACITY
      requires AreEntries(es, lens, first, values, len)
      requires Shifted(firstCode, 32 - len) == LeftSum(lens, first)
      modifies lookup
      ensures Valid()
      ensures tableInd == first + |values| && Shifted(codeVal, 32 - len) == LeftSum(lens, tableInd)
      ensures forall k :: first <= k < tableInd ==> lookup[tab, k] == es[k]
      ensures forall t, j :: 0 <= t < 4 && 0 <= j < CAPACITY && !(t == tab && first <= j < tableInd) ==>
                lookup[t, j] == old(lookup[t, j])
    {
      tableInd, codeVal := first, firstCode;
      while tableInd < first + |values|
        invariant first <= tableInd <= first + |values| && Valid()
        invariant Shifted(codeVal, 32 - len) == LeftSum(lens, tableInd)
        invariant forall k :: first <= k < tableInd ==> lookup[tab, k] == es[k]
        invariant forall t, j :: 0 <= t < 4 && 0 <= j < CAPACITY && !(t == tab && first <= j < tableInd) ==>
                    lookup[t, j] == old(lookup[t, j])
      {
        lookup[tab, tableInd] := EntryAt(Shifted(codeVal, 32 - len), len, values[tableInd - first]);
        ShiftedNext(codeVal, 32 - len);
        tableInd, codeVal := tableInd + 1, codeVal + 1;
      }
    }

    /** The loader's outer loop: all lengths from 1 to 16. */
    method FillRow(buffer: seq<Byte>, pos: nat) returns (tableInd: nat, pos2: nat)
      requires Valid() && SpecOk(buffer, pos)
      modifies lookup
      ensures Valid() && tableInd == |SpecTable(buffer, pos)| && pos2 == SpecEnd(buffer, pos)
      ensures forall k :: 0 <= k < tableInd ==> lookup[Slot(buffer[pos]), k] == SpecTable(buffer, pos)[k]
      ensures forall t, k :: 0 <= t < 4 && 0 <= k < CAPACITY && t != Slot(buffer[pos]) ==>
                lookup[t, k] == old(lookup[t, k])
    {
      hide Shifted, EntryAt, AreEntries, Canonical;
      var tab := Slot(buffer[pos]);
      var codesLen := buffer[pos + 1..pos + 17];
      tableInd, pos2 := 0, pos + 17;
      var codeVal := 0;
      ghost var lens, es := SpecLengths(buffer, pos), SpecTable(buffer, pos);
      var iLen := 1;
      ShiftedZero(31);
      while iLen <= 16
        invariant 1 <= iLen <= 17 && Valid()
        invariant tableInd == |Lengths(codesLen, iLen - 1)| <= |lens| && pos2 == pos + 17 + tableInd
        invariant iLen <= 16 ==> Shifted(codeVal, 32 - iLen) == LeftSum(lens, tableInd)
        invariant forall k :: 0 <= k < tableInd ==> lookup[tab, k] == es[k]
        invariant forall t, k :: 0 <= t < 4 && 0 <= k < CAPACITY && t != tab ==> lookup[t, k] == old(lookup[t, k])
      {
        var count := codesLen[iLen - 1];
        SpecEntries(buffer, pos, iLen, tableInd, pos2);
        tableInd, codeVal := LoadLength(tab, tableInd, buffer[pos2..pos2 + count], codeVal, iLen, lens, es);
        pos2 := pos2 + count;
        ShiftedTwice(codeVal, 32 - iLen);
        codeVal := codeVal * 2;
        iLen := iLen + 1;
      }
    }

    /** One pass of the loader's do loop. */
    method LoadTable(buffer: seq<Byte>, pos: nat) returns (next: nat)
      requires Valid() && SpecOk(buffer, pos)
      modifies lookup, size
      ensures Valid()
      ensures next == SpecEnd(buffer, pos)
      ensures All() == old(All())[Slot(buffer[pos]) := SpecTable(buffer, pos)]
    {
      hide Lengths;
      var tab := Slot(buffer[pos]);
      var tableInd: nat;
      tableInd, next := FillRow(buffer, pos);
      size[tab] := tableInd;
      assert |Table(tab)| == tableInd;
      assert Table(tab) == SpecTable(buffer, pos);
      forall t | 0 <= t < 4 && t != tab
        ensures Table(t) == old(Table(t))
      {
        SameRow(t);
      }
    }

    twostate lemma SameRow(t: nat)
      requires t < 4 && old(Valid()) && Valid() && size[t] == old(size[t])
      requires forall k :: 0 <= k < CAPACITY ==> lookup[t, k] == old(lookup[t, k])
      ensures Table(t) == old(Table(t))
    {
    }

    /** The whole DHT segment: at least one table, and further ones while input remains. */
    method LoadSegment(buffer: seq<Byte>, limit: nat)
      requires Valid() && SegmentOk(buffer, 0, limit)
      modifies lookup, size
      ensures Valid()
      ensures All() == Loaded(old(All()), buffer, 0, limit)
    {
      ghost var was := All();
      var pos := LoadTable(buffer, 0);
      while pos < limit
        invariant Valid()
        invariant pos < limit ==> SegmentOk(buffer, pos, limit)
        invariant Loaded(was, buffer, 0, limit)
          == if pos < limit then Loaded(All(), buffer, pos, limit) else All()
        decreases |buffer| - pos
      {
        pos := LoadTable(buffer, pos);
      }
    }
  }

  ghost predicate AreEntries(es: seq<Entry>, lens: seq<nat>, first: nat, values: seq<Byte>, len: nat)
    requires first + |values| <= |lens| == |es| && 1 <= len <= 16
  {
    && (forall k {:trigger lens[k]} :: first <= k < first + |values| ==> lens[k] == len)
    && (forall k {:trigger es[k]} :: first <= k < first + |values| ==>
          es[k] == EntryAt(LeftSum(lens, k), len, values[k - first]))
  }

  /** A loaded table is usable bit by bit whatever its counts say, and it is prefix-free exactly when
      the counts satisfy Kraft's inequality, which the loader does not test. */
  lemma SpecTableLegal(buffer: seq<Byte>, pos: nat)
    requires SpecOk(buffer, pos)
    ensures WellFormed(SpecTable(buffer, pos))
    ensures LegalTable(SpecTable(buffer, pos)) <==> Kraft(SpecLengths(buffer, pos))
  {
    var lens, vals := SpecLengths(buffer, pos), buffer[pos + 17..SpecEnd(buffer, pos)];
    LengthsValid(buffer[pos + 1..pos + 17], 16);
    CanonicalWellFormed(lens, vals);
    LegalIffKraft(lens, vals);
  }

  /** One table specification as section B.2.4.2 of T.81 lays it out. */
  datatype Spec = Spec(target: Byte, counts: seq<Byte>, values: seq<Byte>)

  predicate Writable(s: Spec) {
    |s.counts| == 16 && Slot(s.target) < 4 && |Lengths(s.counts, 16)| == |s.values| <= CAPACITY
  }

  function SpecBytes(s: Spec): seq<Byte> { [s.target] + s.counts + s.values }

  function SegmentBytes(specs: seq<Spec>): seq<Byte> {
    if specs == [] then [] else SpecBytes(specs[0]) + SegmentBytes(specs[1..])
  }

  function Install(ts: seq<seq<Entry>>, specs: seq<Spec>): (r: seq<seq<Entry>>)
    requires |ts| == 4 && forall i :: 0 <= i < |specs| ==> Writable(specs[i])
    ensures |r| == 4
    decreases |specs|
  {
    if |specs| == 0 then ts else
      var s := specs[0];
      assert Writable(s);
      Install(ts[Slot(s.target) := Canonical(Lengths(s.counts, 16), s.values)], specs[1..])
  }

  lemma Sub(s: seq<Byte>, lo: nat, hi: nat, i: nat, j: nat)
    requires lo <= hi <= |s| && i <= j <= hi - lo
    ensures s[lo..hi][i..j] == s[lo + i..lo + j]
  {
    var sub, direct := s[lo..hi][i..j], s[lo + i..lo + j];
    forall k | 0 <= k < j - i
      ensures sub[k] == direct[k]
    {
      assert sub[k] == s[lo..hi][i + k] == s[lo + i + k];
    }
  }

  lemma SpecRead(buffer: seq<Byte>, pos: nat, s: Spec)
    requires Writable(s) && pos + 17 + |s.values| <= |buffer|
    requires buffer[pos..pos + 17 + |s.values|] == SpecBytes(s)
    ensures SpecOk(buffer, pos) && SpecEnd(buffer, pos) == pos + |SpecBytes(s)|
    ensures buffer[pos] == s.target
    ensures SpecTable(buffer, pos) == Canonical(Lengths(s.counts, 16), s.values)
  {
    hide Lengths;
    var w := buffer[pos..pos + 17 + |s.values|];
    assert w[0] == buffer[pos];
    assert w[1..17] == s.counts && w[17..] == s.values;
    Sub(buffer, pos, pos + |w|, 1, 17);
    Sub(buffer, pos, pos + |w|, 17, |w|);
  }

  /** Reading back a written segment installs exactly its tables, each in its own slot, later ones
      over earlier ones. */
  lemma {:induction false} SegmentRoundTrip(ts: seq<seq<Entry>>, specs: seq<Spec>, buffer: seq<Byte>, pos: nat)
    requires |ts| == 4 && specs != [] && forall i :: 0 <= i < |specs| ==> Writable(specs[i])
    requires pos <= |buffer| && SegmentBytes(specs) <= buffer[pos..]
    ensures var limit := pos + |SegmentBytes(specs)|;
            SegmentOk(buffer, pos, limit) && Loaded(ts, buffer, pos, limit) == Install(ts, specs)
    decreases |specs|
  {
    hide SpecTable, SpecOk, SpecEnd, Lengths, Canonical;
    var s, rest := specs[0], SegmentBytes(specs[1..]);
    var n := |SpecBytes(s)|;
    assert buffer[pos..][..n] == buffer[pos..pos + n] == (SpecBytes(s) + rest)[..n];
    SpecRead(buffer, pos, s);
    if |specs| > 1 {
      assert buffer[pos + n..] == buffer[pos..][n..];
      assert rest == (SpecBytes(s) + rest)[n..] <= buffer[pos..][n..];
      SegmentRoundTrip(ts[Slot(s.target) := SpecTable(buffer, pos)], specs[1..], buffer, pos + n);
    }
  }

  /** Some specification is for slot t. */
  ghost predicate Targeted(specs: seq<Spec>, t: nat) {
    exists i :: 0 <= i < |specs| && Slot(specs[i].target) == t
  }

  /** Specifications that satisfy Kraft leave four legal tables, the ones scan decoding needs, if the slots
      they do not fill hold legal tables before. */
  lemma {:induction false} InstallLegal(ts: seq<seq<Entry>>, specs: seq<Spec>)
    requires |ts| == 4 && forall t :: 0 <= t < 4 ==> Targeted(specs, t) || LegalTable(ts[t])
    requires forall i :: 0 <= i < |specs| ==> Writable(specs[i]) && Kraft(Lengths(specs[i].counts, 16))
    ensures forall t :: 0 <= t < 4 ==> LegalTable(Install(ts, specs)[t])
    decreases |specs|
  {
    hide LegalTable, Kraft, Lengths, Canonical;
    if |specs| > 0 {
      var s := specs[0];
      assert Writable(s) && Kraft(Lengths(s.counts, 16));
      LengthsValid(s.counts, 16);
      LegalIffKraft(Lengths(s.counts, 16), s.values);
      var ts' := ts[Slot(s.target) := Canonical(Lengths(s.counts, 16), s.values)];
      forall t | 0 <= t < 4
        ensures Targeted(specs[1..], t) || LegalTable(ts'[t])
      {
        if Targeted(specs, t) && Slot(s.target) != t {
          LaterTarget(specs, t);
        }
      }
      InstallLegal(ts', specs[1..]);
    }
  }

  lemma LaterTarget(specs: seq<Spec>, t: nat)
    requires |specs| > 0 && Targeted(specs, t) && Slot(specs[0].target) != t
    ensures Targeted(specs[1..], t)
  {
    var i :| 0 <= i < |specs| && Slot(specs[i].target) == t;
    assert specs[1..][i - 1] == specs[i];
  }

  lemma {:induction false} ShiftedTwice(c: nat, n: nat)
    ensures n > 0 ==> Shifted(c * 2, n - 1) == Shifted(c, n)
  {
    if n > 1 {
      ShiftedTwice(c, n - 1);
    }
  }

  /** The codes of length i sit in the table where the loader puts them. */
  lemma SpecEntries(buffer: seq<Byte>, pos: nat, i: nat, first: nat, pos2: nat)
    requires SpecOk(buffer, pos) && 1 <= i <= 16
    requires first == |Lengths(buffer[pos + 1..pos + 17], i - 1)| && pos2 == pos + 17 + first
    ensures var count := buffer[pos + 1..pos + 17][i - 1];
            && first + count == |Lengths(buffer[pos + 1..pos + 17], i)| <= |SpecLengths(buffer, pos)|
            && pos2 + count <= |buffer|
            && AreEntries(SpecTable(buffer, pos), SpecLengths(buffer, pos), first, buffer[pos2..pos2 + count], i)
  {
    var counts, lens := buffer[pos + 1..pos + 17], SpecLengths(buffer, pos);
    LengthsPrefix(counts, i, 16);
    var values := buffer[pos2..pos2 + counts[i - 1]];
    forall k | first <= k < first + |values|
      ensures lens[k] == i && SpecTable(buffer, pos)[k] == EntryAt(LeftSum(lens, k), i, values[k - first])
    {
      assert lens[k] == Lengths(counts, i)[k] == i;
      SpecEntry(buffer, pos, k, values, first);
    }
  }

  lemma SpecEntry(buffer: seq<Byte>, pos: nat, k: nat, values: seq<Byte>, first: nat)
    requires SpecOk(buffer, pos) && first <= k < first + |values| <= |SpecLengths(buffer, pos)|
    requires values == buffer[pos + 17 + first..pos + 17 + first + |values|]
    ensures var lens := SpecLengths(buffer, pos);
            SpecTable(buffer, pos)[k] == EntryAt(LeftSum(lens, k), lens[k], values[k - first])
  {
    assert values[k - first] == buffer[pos + 17 + k];
  }

  lemma {:induction false} LengthsPrefix(counts: seq<Byte>, i: nat, j: nat)
    requires i <= j <= |counts|
    ensures Lengths(counts, i) <= Lengths(counts, j)
    decreases j - i
  {
    if i < j {
      LengthsPrefix(counts, i, j - 1);
    }
  }

  /** The loader's code_val after the codes of the first upTo lengths. */
  function CodeVal(counts: seq<Byte>, upTo: nat): nat
    requires upTo <= |counts|
    decreases upTo
  {
    if upTo == 0 then 0 else 2 * CodeVal(counts, upTo - 1) + counts[upTo - 1]
  }

  lemma {:induction false} CodeValIsLeftSum(counts: seq<Byte>, upTo: nat)
    requires upTo <= |counts| && upTo <= 32
    ensures LeftSum(Lengths(counts, upTo), |Lengths(counts, upTo)|) == Shifted(CodeVal(counts, upTo), 32 - upTo)
    decreases upTo
  {
    hide Shifted;
    if upTo == 0 {
      ShiftedZero(32);
    } else {
      CodeValIsLeftSum(counts, upTo - 1);
      CodeValStep(counts, upTo);
    }
  }

  lemma CodeValStep(counts: seq<Byte>, upTo: nat)
    requires 0 < upTo <= |counts| && upTo <= 32
    requires LeftSum(Lengths(counts, upTo - 1), |Lengths(counts, upTo - 1)|)
      == Shifted(CodeVal(counts, upTo - 1), 33 - upTo)
    ensures LeftSum(Lengths(counts, upTo), |Lengths(counts, upTo)|) == Shifted(CodeVal(counts, upTo), 32 - upTo)
  {
    hide LeftSum, Shifted;
    var before, code := Lengths(counts, upTo - 1), CodeVal(counts, upTo - 1);
    assert Lengths(counts, upTo) == before + seq(counts[upTo - 1], _ => upTo);
    assert CodeVal(counts, upTo) == 2 * code + counts[upTo - 1];
    hide Lengths, CodeVal;
    ShiftedTwice(code, 33 - upTo);
    SameLengths(before, upTo, counts[upTo - 1], 2 * code);
  }

  lemma {:induction false} SameLengths(lens: seq<nat>, len: nat, n: nat, code: nat)
    requires len <= 32 && LeftSum(lens, |lens|) == Shifted(code, 32 - len)
    ensures LeftSum(lens + seq(n, _ => len), |lens| + n) == Shifted(code + n, 32 - len)
  {
    if n == 0 {
      assert lens + seq(0, _ => len) == lens;
    } else {
      SameLengths(lens, len, n - 1, code);
      LeftSumPrefix(lens + seq(n - 1, _ => len), lens + seq(n, _ => len), |lens| + n - 1);
      ShiftedNext(code + n - 1, 32 - len);
    }
  }

  lemma {:induction false} LeftSumPrefix(a: seq<nat>, b: seq<nat>, k: nat)
    requires k <= |a| <= |b| && a == b[..|a|]
    ensures LeftSum(a, k) == LeftSum(b, k)
  {
    if k > 0 {
      assert a[k - 1] == b[k - 1];
      LeftSumPrefix(a, b, k - 1);
    }
  }

  /** Kraft's inequality says that code_val ends within sixteen bits. */
  lemma KraftIffCodeVal(counts: seq<Byte>)
    requires |counts| == 16
    ensures Kraft(Lengths(counts, 16)) <==> CodeVal(counts, 16) <= 0x10000
  {
    hide Shifted, CodeVal, LeftSum, Lengths;
    CodeValIsLeftSum(counts, 16);
    WordCount(16);
    Pow2Of16();
    if CodeVal(counts, 16) > 0x10000 {
      ShiftedMono(0x10000, CodeVal(counts, 16), 16);
    } else if CodeVal(counts, 16) < 0x10000 {
      ShiftedMono(CodeVal(counts, 16), 0x10000, 16);
    }
  }

  lemma Pow2Of16()
    ensures Pow2(16) == 0x10000
  {
    assert Pow2(8) == 256;
    Times256(8);
  }

  lemma FourLengths(c: seq<Byte>, n: nat)
    requires n + 4 <= |c|
    ensures CodeVal(c, n + 4) == 2 * (2 * (2 * (2 * CodeVal(c, n) + c[n]) + c[n + 1]) + c[n + 2]) + c[n + 3]
  {
    assert CodeVal(c, n + 4) == 2 * CodeVal(c, n + 3) + c[n + 3];
    assert CodeVal(c, n + 2) == 2 * CodeVal(c, n + 1) + c[n + 1];
  }

  lemma CodeVal16(c: seq<Byte>)
    requires |c| == 16
    ensures CodeVal(c, 4) == 2 * (2 * (2 * (2 * CodeVal(c, 0) + c[0]) + c[1]) + c[2]) + c[3]
    ensures CodeVal(c, 8) == 2 * (2 * (2 * (2 * CodeVal(c, 4) + c[4]) + c[5]) + c[6]) + c[7]
    ensures CodeVal(c, 12) == 2 * (2 * (2 * (2 * CodeVal(c, 8) + c[8]) + c[9]) + c[10]) + c[11]
    ensures CodeVal(c, 16) == 2 * (2 * (2 * (2 * CodeVal(c, 12) + c[12]) + c[13]) + c[14]) + c[15]
    ensures CodeVal(c, 0) == 0
  {
    FourLengths(c, 0);
    FourLengths(c, 4);
    FourLengths(c, 8);
    FourLengths(c, 12);
  }

  lemma FourCounts(c: seq<Byte>, n: nat)
    requires n + 4 <= |c|
    ensures |Lengths(c, n + 4)| == |Lengths(c, n)| + c[n] + c[n + 1] + c[n + 2] + c[n + 3]
  {
    assert |Lengths(c, n + 4)| == |Lengths(c, n + 3)| + c[n + 3];
    assert |Lengths(c, n + 2)| == |Lengths(c, n + 1)| + c[n + 1];
  }

  lemma NoCounts(c: seq<Byte>)
    ensures Lengths(c, 0) == []
  {
  }

  lemma Count16(c: seq<Byte>)
    requires |c| == 16
    ensures |Lengths(c, 4)| == |Lengths(c, 0)| + c[0] + c[1] + c[2] + c[3]
    ensures |Lengths(c, 8)| == |Lengths(c, 4)| + c[4] + c[5] + c[6] + c[7]
    ensures |Lengths(c, 12)| == |Lengths(c, 8)| + c[8] + c[9] + c[10] + c[11]
    ensures |Lengths(c, 16)| == |Lengths(c, 12)| + c[12] + c[13] + c[14] + c[15]
    ensures Lengths(c, 0) == []
  {
    hide Lengths;
    NoCounts(c);
    FourCounts(c, 0);
    FourCounts(c, 4);
    FourCounts(c, 8);
    FourCounts(c, 12);
  }

  /** Three codes of one bit, which nothing stops. */
  const BAD_COUNTS: seq<Byte> := [3, 0, 0, 0, 0, 0, 0, 0, 0, 0, 0, 0, 0, 0, 0, 0]

  /** A specification that the loader takes although it breaks Kraft: its table is not prefix-free. */
  lemma BadCounts(buffer: seq<Byte>)
    requires buffer == [0] + BAD_COUNTS + [10, 11, 12]
    ensures SpecOk(buffer, 0) && !LegalTable(SpecTable(buffer, 0))
  {
    hide LegalTable, Lengths, CodeVal, Kraft;
    assert buffer[1..17] == BAD_COUNTS;
    CodeVal16(BAD_COUNTS);
    Count16(BAD_COUNTS);
    KraftIffCodeVal(BAD_COUNTS);
    SpecTableLegal(buffer, 0);
  }
}
