/** Entropy coding of one 8x8 block: the decoder's functions, the encoder of section F.1.2 of
    ITU-T T.81, and the proof that the first undoes the second. */
module BlockCode {
  import opened Words
  import opened Wrappers
  import opened Huffman

  type Stream = nat -> bool

  datatype Decoded<T> = Fail | Ok(value: T, next: nat)

  /** The n bits from position p on. */
  function Take(s: Stream, p: nat, n: nat): (w: Bits)
    ensures |w| == n
    decreases n, p
  {
    if n == 0 then [] else Take(s, p, n - 1) + [s(p + n - 1)]
  }

  /** The bits w come next at position p. */
  predicate At(s: Stream, p: nat, w: Bits) { Take(s, p, |w|) == w }

  lemma {:induction false} TakeIndex(s: Stream, p: nat, n: nat, i: nat)
    requires i < n
    ensures Take(s, p, n)[i] == s(p + i)
  {
    if i < n - 1 {
      TakeIndex(s, p, n - 1, i);
    }
  }

  lemma {:induction false} TakeSplit(s: Stream, p: nat, m: nat, n: nat)
    ensures Take(s, p, m + n) == Take(s, p, m) + Take(s, p + m, n)
  {
    if n > 0 {
      TakeSplit(s, p, m, n - 1);
    }
  }

  lemma AtConcat(s: Stream, p: nat, a: Bits, b: Bits)
    ensures At(s, p, a + b) <==> At(s, p, a) && At(s, p + |a|, b)
  {
    TakeSplit(s, p, |a|, |b|);
    if At(s, p, a + b) {
      assert a == (a + b)[..|a|] && b == (a + b)[|a|..];
    }
  }

  lemma AtPrefix(s: Stream, p: nat, a: Bits, b: Bits)
    requires At(s, p, a) && At(s, p, b)
    ensures a <= b || b <= a
  {
    if |a| <= |b| {
      TakeSplit(s, p, |a|, |b| - |a|);
    } else {
      TakeSplit(s, p, |b|, |a| - |b|);
    }
  }

  // ---- symbols ----

  /** The first entry from ind on whose code is next in the stream. */
  function FirstMatch(es: seq<Entry>, s: Stream, p: nat, ind: nat): (k: nat)
    requires ind <= |es|
    ensures ind <= k <= |es|
    decreases |es| - ind
  {
    if ind == |es| || At(s, p, Code(es[ind])) then ind else FirstMatch(es, s, p, ind + 1)
  }

  lemma {:induction false} FirstMatchIsFirst(es: seq<Entry>, s: Stream, p: nat, ind: nat)
    requires ind <= |es|
    ensures var k := FirstMatch(es, s, p, ind);
            (k < |es| ==> At(s, p, Code(es[k]))) && forall i :: ind <= i < k ==> !At(s, p, Code(es[i]))
    decreases |es| - ind
  {
    hide At, Code;
    if ind < |es| {
      FirstMatchIsFirst(es, s, p, ind + 1);
    }
  }

  /** readXC: the search gives up after looking at the last entry, even when that entry matches. */
  function DecodeSymbol(es: seq<Entry>, s: Stream, p: nat): Decoded<Byte>
  {
    var k := FirstMatch(es, s, p, 0);
    if k + 1 < |es| then Ok(es[k].code, p + es[k].bitlen) else Fail
  }

  /** A code in the stream is decoded exactly when its entry is not the table's last. */
  lemma SymbolDecodes(es: seq<Entry>, s: Stream, p: nat, k: nat)
    requires WellFormed(es) && PrefixFree(es) && k < |es| && At(s, p, Code(es[k]))
    ensures DecodeSymbol(es, s, p) ==
            if k + 1 < |es| then Ok(es[k].code, p + es[k].bitlen) else Fail
  {
    var m := FirstMatch(es, s, p, 0);
    FirstMatchIsFirst(es, s, p, 0);
    AtPrefix(s, p, Code(es[m]), Code(es[k]));
  }

  // ---- magnitudes ----

  /** HUFF_EXTEND; a value of no bits is 0. */
  function HuffExtend(x: int, s: nat): int {
    if s > 0 && x < Pow2(s - 1) then x + ((-1) * Pow2(s) + 1) else x
  }

  /** SSSS: how many bits the magnitude of v needs. */
  function Category(v: int): (s: nat)
    ensures if v == 0 then s == 0 else s > 0 && Pow2(s - 1) <= Abs(v) < Pow2(s)
    decreases Abs(v)
  {
    if v == 0 then 0 else 1 + Category(Abs(v) / 2)
  }

  /** The additional bits T.81 sends for v: v itself, or v - 1 in two's complement when negative. */
  function Magnitude(v: int): (x: nat)
    ensures x < Pow2(Category(v))
  {
    if v < 0 then v + Pow2(Category(v)) - 1 else v
  }

  lemma CategoryUnique(v: int, s: nat)
    requires if v == 0 then s == 0 else s > 0 && Pow2(s - 1) <= Abs(v) < Pow2(s)
    ensures Category(v) == s
  {
    var c := Category(v);
    if c < s {
      Pow2Mono(c, s - 1);
    } else if s < c {
      Pow2Mono(s, c - 1);
    }
  }

  /** HUFF_EXTEND is a bijection from the s-bit numbers to the values of category s; Magnitude is
      its inverse. */
  lemma ExtendBijection(x: nat, v: int, s: nat)
    ensures x < Pow2(s) ==> Category(HuffExtend(x, s)) == s && Magnitude(HuffExtend(x, s)) == x
    ensures Category(v) == s ==> HuffExtend(Magnitude(v), s) == v
  {
    if x < Pow2(s) {
      CategoryUnique(HuffExtend(x, s), s);
    }
  }

  function ValueBits(v: int): Bits { OfNat(Magnitude(v), Category(v)) }

  lemma {:induction false} ComplementBits(n: nat, len: nat, i: nat)
    requires n < Pow2(len) && i < len
    ensures Pow2(len) - 1 - n >= 0 && OfNat(Pow2(len) - 1 - n, len)[i] == !OfNat(n, len)[i]
  {
    var m := Pow2(len) - 1 - n;
    assert m / 2 == Pow2(len - 1) - 1 - n / 2 && m % 2 != n % 2;
    if i < len - 1 {
      ComplementBits(n / 2, len - 1, i);
    }
  }

  /** Section F.1.2.1 of T.81: a positive value is sent as itself, a negative one as the complement of what is sent
      for its absolute value. */
  lemma SentBits(v: int, i: nat)
    requires i < Category(v)
    ensures |ValueBits(v)| == |ValueBits(-v)| == Category(v) && ValueBits(-v)[i] == !ValueBits(v)[i]
    ensures v > 0 ==> Value(ValueBits(v)) == v
  {
    hide OfNat, Value, Category, Pow2;
    var a, c := Abs(v), Category(v);
    CategoryUnique(-v, c);
    ComplementBits(a, c, i);
    ValueOfNat(a, c);
    assert if v > 0 then Magnitude(v) == a && Magnitude(-v) == Pow2(c) - 1 - a
           else Magnitude(-v) == a && Magnitude(v) == Pow2(c) - 1 - a;
  }

  lemma ValueDecodes(s: Stream, p: nat, v: int)
    requires At(s, p, ValueBits(v))
    ensures HuffExtend(Value(Take(s, p, Category(v))), Category(v)) == v
  {
    ValueOfNat(Magnitude(v), Category(v));
    ExtendBijection(0, v, Category(v));
  }

  // ---- decoder ----

  const EOB: Byte := 0x00
  const ZRL: Byte := 0xF0

  /** What one pass of the AC loop reads. */
  datatype Item = End | Sixteen | Coefficient(zeros: nat, value: int)

  function DecodeItem(es: seq<Entry>, s: Stream, p: nat): (d: Decoded<Item>)
    ensures d.Ok? && d.value.Coefficient? ==> d.value.zeros <= 15
  {
    match DecodeSymbol(es, s, p)
    case Fail => Fail
    case Ok(comb, q) =>
      var val, repeat := comb % 16, comb / 16;
      if val != 0 then Ok(Coefficient(repeat, HuffExtend(Value(Take(s, q, val)), val)), q + val)
      else if repeat == 15 then Ok(Sixteen, q)
      else Ok(End, q)
  }

  /** The AC loop on the 64 coefficients of a block, those up to j being there already. Running past
      coefficient 63 fails. */
  function DecodeAC(es: seq<Entry>, s: Stream, p: nat, j: nat, table: seq<int>): (d: Decoded<seq<int>>)
    requires |table| == 64
    ensures d.Ok? ==> |d.value| == 64
    decreases 100 - j, |table|
  {
    if j > 63 then Fail
    else if j == 63 then Ok(table, p)
    else match DecodeItem(es, s, p)
      case Fail => Fail
      case Ok(End, q) => Ok(table, q)
      case Ok(Sixteen, q) => DecodeAC(es, s, q, j + 16, table)
      case Ok(Coefficient(repeat, v), q) =>
        if j + repeat + 1 > 63 then Fail
        else DecodeAC(es, s, q, j + repeat + 1, table[j + repeat + 1 := v])
  }

  function DecodeDC(dc: seq<Entry>, s: Stream, p: nat, lastDC: int): Decoded<int>
  {
    match DecodeSymbol(dc, s, p)
    case Fail => Fail
    case Ok(size, q) => Ok(HuffExtend(Value(Take(s, q, size)), size) + lastDC, q + size)
  }

  /** The coefficients after clearing and storing the first. */
  function Fresh(dc: int): (r: seq<int>)
    ensures |r| == 64
  {
    [dc] + seq(63, _ => 0)
  }

  /** readTable: the block, its first coefficient being also the new predictor. */
  function DecodeBlock(dc: seq<Entry>, ac: seq<Entry>, s: Stream, p: nat, lastDC: int): (d: Decoded<seq<int>>)
    ensures d.Ok? ==> |d.value| == 64
  {
    match DecodeDC(dc, s, p, lastDC)
    case Fail => Fail
    case Ok(v, q) => DecodeAC(ac, s, q, 0, Fresh(v))
  }

  // ---- encoder ----

  /** The entry the encoder uses for a symbol. */
  function EntryOf(es: seq<Entry>, sym: Byte, ind: nat): (k: nat)
    requires ind <= |es|
    ensures ind <= k <= |es| && (k < |es| ==> es[k].code == sym)
    decreases |es| - ind
  {
    if ind == |es| || es[ind].code == sym then ind else EntryOf(es, sym, ind + 1)
  }

  predicate HasCode(es: seq<Entry>, sym: Byte) { EntryOf(es, sym, 0) < |es| }

  /** The symbol's code is not in the last entry. */
  predicate Usable(es: seq<Entry>, sym: Byte) { EntryOf(es, sym, 0) + 1 < |es| }

  function SymbolBits(es: seq<Entry>, sym: Byte): Bits
    requires HasCode(es, sym)
  {
    Code(es[EntryOf(es, sym, 0)])
  }

  /** Figure F.2 of T.81: the AC coefficients from k on as items, with r zeros pending. */
  function Items(block: seq<int>, k: nat, r: nat): seq<Item>
    requires |block| == 64 && k <= 64
    decreases 64 - k, r, |block|
  {
    if k == 64 then if r > 0 then [End] else []
    else if block[k] == 0 then Items(block, k + 1, r + 1)
    else if r > 15 then [Sixteen] + Items(block, k, r - 16)
    else [Coefficient(r, block[k])] + Items(block, k + 1, 0)
  }

  /** The symbol RRRRSSSS of an item; values of more than 15 bits have none. */
  function SymbolOf(item: Item): (sym: int)
  {
    match item
    case End => EOB
    case Sixteen => ZRL
    case Coefficient(r, v) => 16 * r + Category(v)
  }

  /** The item has a symbol of four plus four bits, and the table a code for it. */
  predicate CodableItem(es: seq<Entry>, item: Item) {
    (item.Coefficient? ==> item.zeros <= 15 && Category(item.value) <= 15) && HasCode(es, SymbolOf(item))
  }

  predicate UsableItem(es: seq<Entry>, item: Item)
    requires CodableItem(es, item)
  {
    Usable(es, SymbolOf(item))
  }

  function ItemBits(es: seq<Entry>, item: Item): Bits
    requires CodableItem(es, item)
  {
    SymbolBits(es, SymbolOf(item)) + if item.Coefficient? then ValueBits(item.value) else []
  }

  predicate CodableItems(es: seq<Entry>, items: seq<Item>) {
    items == [] || (CodableItem(es, items[0]) && CodableItems(es, items[1..]))
  }

  predicate UsableItems(es: seq<Entry>, items: seq<Item>)
    requires CodableItems(es, items)
  {
    items == [] || (UsableItem(es, items[0]) && UsableItems(es, items[1..]))
  }

  function ItemsBits(es: seq<Entry>, items: seq<Item>): Bits
    requires CodableItems(es, items)
  {
    if items == [] then [] else ItemBits(es, items[0]) + ItemsBits(es, items[1..])
  }

  /** A block that can be coded in these tables. */
  predicate CodableBlock(dc: seq<Entry>, ac: seq<Entry>, block: seq<int>, lastDC: int) {
    |block| == 64 && CodableItem(dc, Coefficient(0, block[0] - lastDC)) && CodableItems(ac, Items(block, 1, 0))
  }

  /** Its coding needs no last entry. */
  predicate UsableBlock(dc: seq<Entry>, ac: seq<Entry>, block: seq<int>, lastDC: int)
    requires CodableBlock(dc, ac, block, lastDC)
  {
    UsableItem(dc, Coefficient(0, block[0] - lastDC)) && UsableItems(ac, Items(block, 1, 0))
  }

  function EncodeBlock(dc: seq<Entry>, ac: seq<Entry>, block: seq<int>, lastDC: int): Bits
    requires CodableBlock(dc, ac, block, lastDC)
  {
    ItemBits(dc, Coefficient(0, block[0] - lastDC)) + ItemsBits(ac, Items(block, 1, 0))
  }

  // ---- round trip ----

  lemma CodeDecodes(es: seq<Entry>, s: Stream, p: nat, sym: Byte)
    requires LegalTable(es) && HasCode(es, sym) && At(s, p, SymbolBits(es, sym))
    ensures DecodeSymbol(es, s, p) == if Usable(es, sym) then Ok(sym, p + |SymbolBits(es, sym)|) else Fail
  {
    SymbolDecodes(es, s, p, EntryOf(es, sym, 0));
  }

  /** What the AC loop does with a list of items; None when it would not stop at the list's end. */
  function Run(items: seq<Item>, j: nat, table: seq<int>): Option<seq<int>>
    requires |table| == 64
  {
    if j >= 63 || items == [] then if j == 63 && items == [] then Some(table) else None
    else match items[0]
      case End => if |items| == 1 then Some(table) else None
      case Sixteen => Run(items[1..], j + 16, table)
      case Coefficient(r, v) =>
        if j + r + 1 <= 63 then Run(items[1..], j + r + 1, table[j + r + 1 := v]) else None
  }

  /** The table holds the block up to j and zeros from there to coefficient 63. */
  ghost predicate Rebuilt(table: seq<int>, block: seq<int>, j: nat) {
    |table| == |block| == 64
    && (forall i :: 0 <= i < 64 && i <= j ==> table[i] == block[i])
    && (forall i :: j < i < 64 ==> table[i] == 0)
  }

  lemma RunSixteen(items: seq<Item>, j: nat, table: seq<int>)
    requires |table| == 64 && j < 63
    ensures Run([Sixteen] + items, j, table) == Run(items, j + 16, table)
  {
    assert ([Sixteen] + items)[1..] == items;
  }

  lemma RunCoefficient(r: nat, v: int, items: seq<Item>, j: nat, table: seq<int>)
    requires |table| == 64 && j + r + 1 <= 63
    ensures Run([Coefficient(r, v)] + items, j, table) == Run(items, j + r + 1, table[j + r + 1 := v])
  {
    assert ([Coefficient(r, v)] + items)[1..] == items;
  }

  /** At the end only the End item may be left. */
  lemma RunEnd(r: nat, j: nat, table: seq<int>)
    requires |table| == 64 && j == 63 - r
    ensures Run(if r > 0 then [End] else [], j, table) == Some(table)
  {
  }

  /** The coefficients between these two are zero. */
  ghost predicate ZerosBetween(block: seq<int>, lo: int, hi: nat)
    requires hi <= |block| && -1 <= lo
  {
    forall i :: lo < i < hi ==> block[i] == 0
  }

  lemma NothingBetween(block: seq<int>)
    requires |block| == 64
    ensures ZerosBetween(block, 0, 1)
  {
  }

  lemma NextStored(table: seq<int>, block: seq<int>, j: nat, k: nat)
    requires j < k < 64 && Rebuilt(table, block, j) && ZerosBetween(block, j, k)
    ensures Rebuilt(table[k := block[k]], block, k) && ZerosBetween(block, k, k + 1)
    ensures block[k] == 0 ==> ZerosBetween(block, j, k + 1)
  {
  }

  lemma SixteenSkipped(table: seq<int>, block: seq<int>, j: nat, k: nat)
    requires j + 16 < k <= 64 && Rebuilt(table, block, j) && ZerosBetween(block, j, k)
    ensures Rebuilt(table, block, j + 16) && ZerosBetween(block, j + 16, k)
  {
  }

  lemma AllStored(table: seq<int>, block: seq<int>, j: nat)
    requires j < 64 && Rebuilt(table, block, j) && ZerosBetween(block, j, 64)
    ensures table == block
  {
  }

  /** Run-length coding loses nothing. */
  lemma {:induction false} ItemsRebuild(block: seq<int>, k: nat, r: nat, table: seq<int>)
    requires |block| == 64 && r < k <= 64
    requires Rebuilt(table, block, k - 1 - r) && ZerosBetween(block, k - 1 - r, k)
    ensures |table| == 64 && Run(Items(block, k, r), k - 1 - r, table) == Some(block)
    decreases 64 - k, r
  {
    assert |table| == 64;
    hide Run, Rebuilt, ZerosBetween;
    var j := k - 1 - r;
    if k == 64 {
      AllStored(table, block, j);
      RunEnd(r, j, table);
    } else {
      NextStored(table, block, j, k);
      if block[k] == 0 {
        ItemsRebuild(block, k + 1, r + 1, table);
      } else if r > 15 {
        SixteenSkipped(table, block, j, k);
        ItemsRebuild(block, k, r - 16, table);
        RunSixteen(Items(block, k, r - 16), j, table);
      } else {
        ItemsRebuild(block, k + 1, 0, table[k := block[k]]);
        RunCoefficient(r, block[k], Items(block, k + 1, 0), j, table);
      }
    }
  }

  lemma CoefficientDecodes(es: seq<Entry>, s: Stream, p: nat, r: nat, v: int) returns (q: nat)
    requires LegalTable(es) && CodableItem(es, Coefficient(r, v)) && At(s, p, ItemBits(es, Coefficient(r, v)))
    ensures DecodeSymbol(es, s, p) == if UsableItem(es, Coefficient(r, v)) then Ok(16 * r + Category(v), q) else Fail
    ensures HuffExtend(Value(Take(s, q, Category(v))), Category(v)) == v
    ensures q + Category(v) == p + |ItemBits(es, Coefficient(r, v))|
  {
    hide LegalTable, At, Category, Magnitude, HuffExtend, Value, Take, OfNat, DecodeSymbol, Usable, HasCode;
    var sym: Byte := 16 * r + Category(v);
    AtConcat(s, p, SymbolBits(es, sym), ValueBits(v));
    CodeDecodes(es, s, p, sym);
    q := p + |SymbolBits(es, sym)|;
    ValueDecodes(s, q, v);
  }

  /** An item of an AC table: a coefficient in it is not zero. */
  lemma ItemDecodes(es: seq<Entry>, s: Stream, p: nat, item: Item)
    requires LegalTable(es) && CodableItem(es, item) && At(s, p, ItemBits(es, item))
    requires item.Coefficient? ==> item.value != 0
    ensures DecodeItem(es, s, p) == if UsableItem(es, item) then Ok(item, p + |ItemBits(es, item)|) else Fail
  {
    hide LegalTable, At, Category, HuffExtend, Value, Take, DecodeSymbol, DecodeItem;
    if item.Coefficient? {
      var q := CoefficientDecodes(es, s, p, item.zeros, item.value);
      if UsableItem(es, item) {
        CoefficientItem(es, s, p, item.zeros, Category(item.value), q);
      } else {
        NoItem(es, s, p);
      }
    } else {
      var w := SymbolBits(es, SymbolOf(item));
      assert w + [] == w;
      CodeDecodes(es, s, p, SymbolOf(item));
      if UsableItem(es, item) {
        MarkItem(es, s, p, item, p + |w|);
      } else {
        NoItem(es, s, p);
      }
    }
  }

  lemma NoItem(es: seq<Entry>, s: Stream, p: nat)
    requires DecodeSymbol(es, s, p) == Fail
    ensures DecodeItem(es, s, p) == Fail
  {
  }

  lemma CoefficientItem(es: seq<Entry>, s: Stream, p: nat, r: nat, c: nat, q: nat)
    requires r <= 15 && 0 < c <= 15 && DecodeSymbol(es, s, p) == Ok(16 * r + c, q)
    ensures DecodeItem(es, s, p) == Ok(Coefficient(r, HuffExtend(Value(Take(s, q, c)), c)), q + c)
  {
    hide DecodeSymbol, HuffExtend, Take, Value;
    NibblesOf(r, c);
  }

  lemma MarkItem(es: seq<Entry>, s: Stream, p: nat, item: Item, q: nat)
    requires !item.Coefficient? && DecodeSymbol(es, s, p) == Ok(SymbolOf(item), q)
    ensures DecodeItem(es, s, p) == Ok(item, q)
  {
    hide DecodeSymbol, Category, HuffExtend, Take, Value;
  }

  lemma NibblesOf(r: nat, c: nat)
    requires c <= 15
    ensures (16 * r + c) % 16 == c && (16 * r + c) / 16 == r
  {
  }

  predicate NoZeroCoefficient(items: seq<Item>) {
    items == [] || ((items[0].Coefficient? ==> items[0].value != 0) && NoZeroCoefficient(items[1..]))
  }

  lemma {:induction false} ItemsNonZero(block: seq<int>, k: nat, r: nat)
    requires |block| == 64 && k <= 64
    ensures NoZeroCoefficient(Items(block, k, r))
    decreases 64 - k, r
  {
    if k < 64 {
      if block[k] == 0 {
        ItemsNonZero(block, k + 1, r + 1);
      } else if r > 15 {
        ItemsNonZero(block, k, r - 16);
      } else {
        ItemsNonZero(block, k + 1, 0);
      }
    }
  }

  function Next(item: Item, j: nat): nat {
    match item
    case End => j
    case Sixteen => j + 16
    case Coefficient(r, _) => j + r + 1
  }

  function Stored(item: Item, j: nat, table: seq<int>): (r: seq<int>)
    requires Next(item, j) < |table|
    ensures |r| == |table|
  {
    if item.Coefficient? then table[Next(item, j) := item.value] else table
  }

  /** One pass of the AC loop against one step of Run. */
  lemma StepAC(es: seq<Entry>, s: Stream, p: nat, j: nat, table: seq<int>, items: seq<Item>, q: nat)
    requires |table| == 64 && items != [] && Run(items, j, table).Some? && DecodeItem(es, s, p) == Ok(items[0], q)
    ensures Next(items[0], j) < 64
    ensures items[0] == End ==> items == [End] && DecodeAC(es, s, p, j, table) == Ok(Run(items, j, table).value, q)
    ensures items[0] != End ==>
              && Run(items, j, table) == Run(items[1..], Next(items[0], j), Stored(items[0], j, table))
              && DecodeAC(es, s, p, j, table)
                 == DecodeAC(es, s, q, Next(items[0], j), Stored(items[0], j, table))
  {
  }

  lemma DoneAC(es: seq<Entry>, s: Stream, p: nat, j: nat, table: seq<int>)
    requires |table| == 64 && Run([], j, table).Some?
    ensures DecodeAC(es, s, p, j, table) == Ok(Run([], j, table).value, p)
  {
  }

  lemma FailAC(es: seq<Entry>, s: Stream, p: nat, j: nat, table: seq<int>, items: seq<Item>)
    requires |table| == 64 && items != [] && Run(items, j, table).Some? && DecodeItem(es, s, p) == Fail
    ensures DecodeAC(es, s, p, j, table) == Fail
  {
  }

  /** Decoding the bits of a list of items does what the list says, or fails if the list needs the
      last entry. */
  lemma {:induction false} ItemsDecode(es: seq<Entry>, s: Stream, p: nat, items: seq<Item>, j: nat, table: seq<int>)
    requires LegalTable(es) && CodableItems(es, items) && NoZeroCoefficient(items) && |table| == 64
    requires Run(items, j, table).Some? && At(s, p, ItemsBits(es, items))
    ensures DecodeAC(es, s, p, j, table)
      == if UsableItems(es, items) then Ok(Run(items, j, table).value, p + |ItemsBits(es, items)|) else Fail
    decreases |items|
  {
    hide LegalTable, DecodeItem, At, ItemBits, UsableItem, CodableItem, DecodeAC, Run, Next, Stored;
    if items == [] {
      DoneAC(es, s, p, j, table);
    } else {
      var item, rest := items[0], items[1..];
      AtConcat(s, p, ItemBits(es, item), ItemsBits(es, rest));
      ItemDecodes(es, s, p, item);
      if UsableItem(es, item) {
        var q := p + |ItemBits(es, item)|;
        StepAC(es, s, p, j, table, items, q);
        if item != End {
          ItemsDecode(es, s, q, rest, Next(item, j), Stored(item, j, table));
        }
      } else {
        FailAC(es, s, p, j, table, items);
      }
    }
  }

  lemma DCRoundTrip(dc: seq<Entry>, s: Stream, p: nat, diff: int, lastDC: int)
    requires LegalTable(dc) && CodableItem(dc, Coefficient(0, diff)) && At(s, p, ItemBits(dc, Coefficient(0, diff)))
    ensures DecodeDC(dc, s, p, lastDC) ==
            if UsableItem(dc, Coefficient(0, diff))
            then Ok(diff + lastDC, p + |ItemBits(dc, Coefficient(0, diff))|) else Fail
  {
    hide LegalTable, UsableItem, CodableItem, At, ItemBits, HuffExtend, Category, DecodeSymbol, Take, Value;
    var q := CoefficientDecodes(dc, s, p, 0, diff);
  }

  lemma ACRoundTrip(ac: seq<Entry>, s: Stream, p: nat, block: seq<int>, table: seq<int>)
    requires LegalTable(ac) && |block| == 64 && |table| == 64 && Rebuilt(table, block, 0)
    requires CodableItems(ac, Items(block, 1, 0)) && At(s, p, ItemsBits(ac, Items(block, 1, 0)))
    ensures DecodeAC(ac, s, p, 0, table) ==
            if UsableItems(ac, Items(block, 1, 0)) then Ok(block, p + |ItemsBits(ac, Items(block, 1, 0))|) else Fail
  {
    hide *;
    NothingBetween(block);
    ItemsRebuild(block, 1, 0, table);
    ItemsNonZero(block, 1, 0);
    ItemsDecode(ac, s, p, Items(block, 1, 0), 0, table);
  }

  /** Decoding what the encoder wrote gives the block back and uses exactly its bits, if and only if the
      block needs neither table's last entry; otherwise it fails. */
  lemma BlockRoundTrip(dc: seq<Entry>, ac: seq<Entry>, s: Stream, p: nat, block: seq<int>, lastDC: int)
    requires LegalTable(dc) && LegalTable(ac)
    requires CodableBlock(dc, ac, block, lastDC) && At(s, p, EncodeBlock(dc, ac, block, lastDC))
    ensures DecodeBlock(dc, ac, s, p, lastDC) ==
            if UsableBlock(dc, ac, block, lastDC)
            then Ok(block, p + |EncodeBlock(dc, ac, block, lastDC)|) else Fail
  {
    hide LegalTable, At, ItemBits, ItemsBits, UsableItem, UsableItems, CodableItem, CodableItems;
    hide DecodeDC, DecodeAC, Items;
    var diff := block[0] - lastDC;
    var first := ItemBits(dc, Coefficient(0, diff));
    AtConcat(s, p, first, ItemsBits(ac, Items(block, 1, 0)));
    DCRoundTrip(dc, s, p, diff, lastDC);
    ACRoundTrip(ac, s, p + |first|, block, Fresh(block[0]));
  }

  /** The AC loop only writes past the coefficients it has, and gives a whole block or fails. */
  lemma {:induction false} DecodeACKeeps(es: seq<Entry>, s: Stream, p: nat, j: nat, table: seq<int>)
    requires |table| == 64
    ensures var d := DecodeAC(es, s, p, j, table);
            d.Ok? ==> j <= 63 && |d.value| == 64 && d.value[..j + 1] == table[..j + 1]
    decreases 100 - j
  {
    hide DecodeItem;
    if j < 63 {
      match DecodeItem(es, s, p) {
        case Fail =>
        case Ok(End, q) =>
        case Ok(Sixteen, q) =>
          DecodeACKeeps(es, s, q, j + 16, table);
          if j + 16 <= 63 { assert table[..j + 17][..j + 1] == table[..j + 1]; }
        case Ok(Coefficient(repeat, v), q) =>
          var j' := j + repeat + 1;
          if j' <= 63 {
            DecodeACKeeps(es, s, q, j', table[j' := v]);
            assert table[j' := v][..j' + 1][..j + 1] == table[..j + 1];
          }
      }
    }
  }
}
