/** Blocks and whole scans: readTable, the loop over the groups of four blocks with three DC
    predictors, and the scan round trip. */
module Scan {
  import opened Words
  import opened Huffman
  import opened Stuffing
  import opened BlockCode
  import opened DhtTables
  import opened BitReader

  // ---- a whole scan as functions ----

  /** What one pass of the scan loop reads: two luma blocks and one of each chroma component. */
  datatype Group = Group(y1: seq<int>, y2: seq<int>, c1: seq<int>, c2: seq<int>)

  predicate Whole(g: Group) { |g.y1| == |g.y2| == |g.c1| == |g.c2| == 64 }

  /** The first luma block in tables dcY and acY with predictor u, the second with the first one's DC; the chroma
      blocks in tables 2 and 3 with predictors v and w. */
  function DecodeGroup(ts: seq<seq<Entry>>, dcY: nat, acY: nat, s: Stream, p: nat, u: int, v: int, w: int)
    : (d: Decoded<Group>)
    requires |ts| == 4 && dcY < 4 && acY < 4
    ensures d.Ok? ==> Whole(d.value)
  {
    match DecodeBlock(ts[dcY], ts[acY], s, p, u)
    case Fail => Fail
    case Ok(y1, p1) =>
      match DecodeBlock(ts[dcY], ts[acY], s, p1, y1[0])
      case Fail => Fail
      case Ok(y2, p2) =>
        match DecodeBlock(ts[2], ts[3], s, p2, v)
        case Fail => Fail
        case Ok(c1, p3) =>
          match DecodeBlock(ts[2], ts[3], s, p3, w)
          case Fail => Fail
          case Ok(c2, p4) => Ok(Group(y1, y2, c1, c2), p4)
  }

  /** n groups; each starts with the DC values the one before it ended with. */
  function DecodeGroups(ts: seq<seq<Entry>>, dcY: nat, acY: nat, s: Stream, p: nat, u: int, v: int, w: int, n: nat)
    : Decoded<seq<Group>>
    requires |ts| == 4 && dcY < 4 && acY < 4
    decreases n, p
  {
    if n == 0 then Ok([], p)
    else match DecodeGroup(ts, dcY, acY, s, p, u, v, w)
      case Fail => Fail
      case Ok(g, q) => Prepend(g, DecodeGroups(ts, dcY, acY, s, q, g.y2[0], g.c1[0], g.c2[0], n - 1))
  }

  function Prepend(g: Group, d: Decoded<seq<Group>>): Decoded<seq<Group>> {
    match d
    case Fail => Fail
    case Ok(rest, q) => Ok([g] + rest, q)
  }

  /** The first coefficient of a decoded block is its DC value: the AC loop leaves it alone. */
  lemma FirstIsDC(dc: seq<Entry>, ac: seq<Entry>, s: Stream, p: nat, lastDC: int)
    ensures var d := DecodeBlock(dc, ac, s, p, lastDC);
            d.Ok? ==> DecodeDC(dc, s, p, lastDC).Ok? && d.value[0] == DecodeDC(dc, s, p, lastDC).value
  {
    hide DecodeAC, DecodeSymbol, HuffExtend, DecodeDC;
    var d := DecodeDC(dc, s, p, lastDC);
    if d.Ok? {
      DecodeACKeeps(ac, s, d.next, 0, Fresh(d.value));
    }
  }

  // ---- the encoder ----

  /** Every block of the group can be coded, with the predictor of section F.1.1.5.1 of T.81: the DC value of the
      block before it in its own component. */
  predicate CodableGroup(ts: seq<seq<Entry>>, dcY: nat, acY: nat, g: Group, u: int, v: int, w: int)
    requires |ts| == 4 && dcY < 4 && acY < 4
  {
    CodableBlock(ts[dcY], ts[acY], g.y1, u) && CodableBlock(ts[dcY], ts[acY], g.y2, g.y1[0])
    && CodableBlock(ts[2], ts[3], g.c1, v) && CodableBlock(ts[2], ts[3], g.c2, w)
  }

  /** None of them needs the last entry of a table. */
  predicate UsableGroup(ts: seq<seq<Entry>>, dcY: nat, acY: nat, g: Group, u: int, v: int, w: int)
    requires |ts| == 4 && dcY < 4 && acY < 4 && CodableGroup(ts, dcY, acY, g, u, v, w)
  {
    UsableBlock(ts[dcY], ts[acY], g.y1, u) && UsableBlock(ts[dcY], ts[acY], g.y2, g.y1[0])
    && UsableBlock(ts[2], ts[3], g.c1, v) && UsableBlock(ts[2], ts[3], g.c2, w)
  }

  function EncodeGroup(ts: seq<seq<Entry>>, dcY: nat, acY: nat, g: Group, u: int, v: int, w: int): Bits
    requires |ts| == 4 && dcY < 4 && acY < 4 && CodableGroup(ts, dcY, acY, g, u, v, w)
  {
    EncodeBlock(ts[dcY], ts[acY], g.y1, u)
    + (EncodeBlock(ts[dcY], ts[acY], g.y2, g.y1[0])
       + (EncodeBlock(ts[2], ts[3], g.c1, v) + EncodeBlock(ts[2], ts[3], g.c2, w)))
  }

  predicate CodableGroups(ts: seq<seq<Entry>>, dcY: nat, acY: nat, groups: seq<Group>, u: int, v: int, w: int)
    requires |ts| == 4 && dcY < 4 && acY < 4
    decreases |groups|, u
  {
    |groups| == 0
    || (CodableGroup(ts, dcY, acY, groups[0], u, v, w)
        && CodableGroups(ts, dcY, acY, groups[1..], groups[0].y2[0], groups[0].c1[0], groups[0].c2[0]))
  }

  predicate UsableGroups(ts: seq<seq<Entry>>, dcY: nat, acY: nat, groups: seq<Group>, u: int, v: int, w: int)
    requires |ts| == 4 && dcY < 4 && acY < 4 && CodableGroups(ts, dcY, acY, groups, u, v, w)
    decreases |groups|, u
  {
    |groups| == 0
    || (UsableGroup(ts, dcY, acY, groups[0], u, v, w)
        && UsableGroups(ts, dcY, acY, groups[1..], groups[0].y2[0], groups[0].c1[0], groups[0].c2[0]))
  }

  function EncodeGroups(ts: seq<seq<Entry>>, dcY: nat, acY: nat, groups: seq<Group>, u: int, v: int, w: int): Bits
    requires |ts| == 4 && dcY < 4 && acY < 4 && CodableGroups(ts, dcY, acY, groups, u, v, w)
    decreases |groups|, u
  {
    if |groups| == 0 then []
    else
      var g := groups[0];
      EncodeGroup(ts, dcY, acY, g, u, v, w)
      + EncodeGroups(ts, dcY, acY, groups[1..], g.y2[0], g.c1[0], g.c2[0])
  }

  lemma GroupRoundTrip(ts: seq<seq<Entry>>, dcY: nat, acY: nat, s: Stream, p: nat, g: Group, u: int, v: int, w: int)
    requires |ts| == 4 && dcY < 4 && acY < 4 && forall t :: 0 <= t < 4 ==> LegalTable(ts[t])
    requires CodableGroup(ts, dcY, acY, g, u, v, w) && At(s, p, EncodeGroup(ts, dcY, acY, g, u, v, w))
    ensures DecodeGroup(ts, dcY, acY, s, p, u, v, w) ==
            if UsableGroup(ts, dcY, acY, g, u, v, w)
            then Ok(g, p + |EncodeGroup(ts, dcY, acY, g, u, v, w)|) else Fail
  {
    hide LegalTable, UsableBlock, EncodeBlock, DecodeBlock, At, CodableItem, CodableItems, Items;
    var a := EncodeBlock(ts[dcY], ts[acY], g.y1, u);
    var b := EncodeBlock(ts[dcY], ts[acY], g.y2, g.y1[0]);
    var c, d := EncodeBlock(ts[2], ts[3], g.c1, v), EncodeBlock(ts[2], ts[3], g.c2, w);
    AtConcat(s, p, a, b + (c + d));
    AtConcat(s, p + |a|, b, c + d);
    AtConcat(s, p + |a| + |b|, c, d);
    BlockRoundTrip(ts[dcY], ts[acY], s, p, g.y1, u);
    BlockRoundTrip(ts[dcY], ts[acY], s, p + |a|, g.y2, g.y1[0]);
    BlockRoundTrip(ts[2], ts[3], s, p + |a| + |b|, g.c1, v);
    BlockRoundTrip(ts[2], ts[3], s, p + |a| + |b| + |c|, g.c2, w);
  }

  /** The decoder gives the encoded groups back, absolute DC values included, if and only if no block
      needs a last entry. */
  lemma {:induction false} GroupsRoundTrip(ts: seq<seq<Entry>>, dcY: nat, acY: nat, s: Stream, p: nat,
                                           groups: seq<Group>, u: int, v: int, w: int)
    requires |ts| == 4 && dcY < 4 && acY < 4 && forall t :: 0 <= t < 4 ==> LegalTable(ts[t])
    requires CodableGroups(ts, dcY, acY, groups, u, v, w)
    requires At(s, p, EncodeGroups(ts, dcY, acY, groups, u, v, w))
    ensures DecodeGroups(ts, dcY, acY, s, p, u, v, w, |groups|) ==
            if UsableGroups(ts, dcY, acY, groups, u, v, w)
            then Ok(groups, p + |EncodeGroups(ts, dcY, acY, groups, u, v, w)|) else Fail
    decreases |groups|
  {
    hide LegalTable, UsableGroup, EncodeGroup, DecodeGroup, At, CodableItem, CodableItems, Items;
    if |groups| > 0 {
      var g, rest := groups[0], groups[1..];
      var first := EncodeGroup(ts, dcY, acY, g, u, v, w);
      AtConcat(s, p, first, EncodeGroups(ts, dcY, acY, rest, g.y2[0], g.c1[0], g.c2[0]));
      GroupRoundTrip(ts, dcY, acY, s, p, g, u, v, w);
      GroupsRoundTrip(ts, dcY, acY, s, p + |first|, rest, g.y2[0], g.c1[0], g.c2[0]);
      assert [g] + rest == groups;
    }
  }

  // ---- prediction ----

  /** The four blocks decoded with predictor 0: coefficient 0 is the difference the stream holds. */
  function RawGroup(ts: seq<seq<Entry>>, dcY: nat, acY: nat, s: Stream, p: nat): (d: Decoded<Group>)
    requires |ts| == 4 && dcY < 4 && acY < 4
    ensures d.Ok? ==> Whole(d.value)
  {
    match DecodeBlock(ts[dcY], ts[acY], s, p, 0)
    case Fail => Fail
    case Ok(y1, p1) =>
      match DecodeBlock(ts[dcY], ts[acY], s, p1, 0)
      case Fail => Fail
      case Ok(y2, p2) =>
        match DecodeBlock(ts[2], ts[3], s, p2, 0)
        case Fail => Fail
        case Ok(c1, p3) =>
          match DecodeBlock(ts[2], ts[3], s, p3, 0)
          case Fail => Fail
          case Ok(c2, p4) => Ok(Group(y1, y2, c1, c2), p4)
  }

  function RawGroups(ts: seq<seq<Entry>>, dcY: nat, acY: nat, s: Stream, p: nat, n: nat): Decoded<seq<Group>>
    requires |ts| == 4 && dcY < 4 && acY < 4
    decreases n, p
  {
    if n == 0 then Ok([], p)
    else match RawGroup(ts, dcY, acY, s, p)
      case Fail => Fail
      case Ok(g, q) => Prepend(g, RawGroups(ts, dcY, acY, s, q, n - 1))
  }

  /** The differences of a raw group added to predictors: the luma ones one after the other. */
  function Added(raw: Group, u: int, v: int, w: int): (g: Group)
    requires Whole(raw)
    ensures Whole(g)
  {
    Group(raw.y1[0 := u + raw.y1[0]], raw.y2[0 := u + raw.y1[0] + raw.y2[0]],
          raw.c1[0 := v + raw.c1[0]], raw.c2[0 := w + raw.c2[0]])
  }

  ghost predicate AllWhole(raw: seq<Group>) { forall j :: 0 <= j < |raw| ==> Whole(raw[j]) }

  /** The sums of the differences of each component in the first k groups. */
  function LumaSum(raw: seq<Group>, k: nat): int
    requires k <= |raw| && AllWhole(raw)
  {
    if k == 0 then 0 else LumaSum(raw, k - 1) + raw[k - 1].y1[0] + raw[k - 1].y2[0]
  }

  function FirstChromaSum(raw: seq<Group>, k: nat): int
    requires k <= |raw| && AllWhole(raw)
  {
    if k == 0 then 0 else FirstChromaSum(raw, k - 1) + raw[k - 1].c1[0]
  }

  function SecondChromaSum(raw: seq<Group>, k: nat): int
    requires k <= |raw| && AllWhole(raw)
  {
    if k == 0 then 0 else SecondChromaSum(raw, k - 1) + raw[k - 1].c2[0]
  }

  lemma {:induction false} SumsOfRest(raw: seq<Group>, k: nat)
    requires 0 < k <= |raw| && AllWhole(raw)
    ensures AllWhole(raw[1..])
    ensures LumaSum(raw, k) == raw[0].y1[0] + raw[0].y2[0] + LumaSum(raw[1..], k - 1)
    ensures FirstChromaSum(raw, k) == raw[0].c1[0] + FirstChromaSum(raw[1..], k - 1)
    ensures SecondChromaSum(raw, k) == raw[0].c2[0] + SecondChromaSum(raw[1..], k - 1)
  {
    if k > 1 {
      SumsOfRest(raw, k - 1);
      assert raw[1..][k - 2] == raw[k - 1];
    }
  }

  /** Raw group k added to the start predictors and the sums of the differences before it. */
  function AddedSums(raw: seq<Group>, u: int, v: int, w: int, k: nat): Group
    requires AllWhole(raw) && k < |raw|
  {
    Added(raw[k], u + LumaSum(raw, k), v + FirstChromaSum(raw, k), w + SecondChromaSum(raw, k))
  }

  /** Group by group. */
  ghost predicate Accumulated(groups: seq<Group>, raw: seq<Group>, u: int, v: int, w: int) {
    && |groups| == |raw| && AllWhole(raw)
    && forall k :: 0 <= k < |raw| ==>
         groups[k] == AddedSums(raw, u, v, w, k)
  }

  /** The AC loop neither reads nor writes coefficient 0. */
  lemma {:induction false} ACIgnoresDC(es: seq<Entry>, s: Stream, p: nat, j: nat, table: seq<int>, x: int)
    requires |table| == 64
    ensures DecodeAC(es, s, p, j, table[0 := x]) ==
            match DecodeAC(es, s, p, j, table)
            case Fail => Fail
            case Ok(block, q) => Ok(block[0 := x], q)
    decreases 100 - j
  {
    hide DecodeItem;
    if j < 63 {
      match DecodeItem(es, s, p) {
        case Fail =>
        case Ok(End, q) =>
        case Ok(Sixteen, q) => ACIgnoresDC(es, s, q, j + 16, table, x);
        case Ok(Coefficient(repeat, v), q) =>
          var j' := j + repeat + 1;
          if j' <= 63 {
            ACIgnoresDC(es, s, q, j', table[j' := v], x);
            assert table[j' := v][0 := x] == table[0 := x][j' := v];
          }
      }
    }
  }

  /** A predictor only adds to coefficient 0. */
  lemma PredictorAdds(dc: seq<Entry>, ac: seq<Entry>, s: Stream, p: nat, last: int)
    ensures DecodeBlock(dc, ac, s, p, last) ==
            match DecodeBlock(dc, ac, s, p, 0)
            case Fail => Fail
            case Ok(raw, q) => Ok(raw[0 := last + raw[0]], q)
  {
    hide DecodeAC, DecodeSymbol, HuffExtend, Take, Value;
    var d := DecodeDC(dc, s, p, 0);
    if d.Ok? {
      FirstIsDC(dc, ac, s, p, 0);
      ACIgnoresDC(ac, s, d.next, 0, Fresh(d.value), last + d.value);
      assert Fresh(d.value)[0 := last + d.value] == Fresh(last + d.value);
    }
  }

  lemma GroupAdds(ts: seq<seq<Entry>>, dcY: nat, acY: nat, s: Stream, p: nat, u: int, v: int, w: int)
    requires |ts| == 4 && dcY < 4 && acY < 4
    ensures DecodeGroup(ts, dcY, acY, s, p, u, v, w) ==
            match RawGroup(ts, dcY, acY, s, p)
            case Fail => Fail
            case Ok(raw, q) => Ok(Added(raw, u, v, w), q)
  {
    hide DecodeBlock;
    PredictorAdds(ts[dcY], ts[acY], s, p, u);
    var d1 := DecodeBlock(ts[dcY], ts[acY], s, p, 0);
    if d1.Ok? {
      PredictorAdds(ts[dcY], ts[acY], s, d1.next, u + d1.value[0]);
      var d2 := DecodeBlock(ts[dcY], ts[acY], s, d1.next, 0);
      if d2.Ok? {
        PredictorAdds(ts[2], ts[3], s, d2.next, v);
        var d3 := DecodeBlock(ts[2], ts[3], s, d2.next, 0);
        if d3.Ok? {
          PredictorAdds(ts[2], ts[3], s, d3.next, w);
        }
      }
    }
  }

  lemma AccumulatedCons(groups: seq<Group>, raw: seq<Group>, first: Group, u: int, v: int, w: int)
    requires Whole(first)
    requires var g := Added(first, u, v, w); Accumulated(groups, raw, g.y2[0], g.c1[0], g.c2[0])
    ensures Accumulated([Added(first, u, v, w)] + groups, [first] + raw, u, v, w)
  {
    hide Added, Whole, LumaSum, FirstChromaSum, SecondChromaSum;
    var rs := [first] + raw;
    WholeCons(raw, first);
    NoSums(rs);
    forall k | 0 < k < |rs|
      ensures AddedSums(rs, u, v, w, k) == groups[k - 1]
    {
      NextAccumulated(groups, raw, first, u, v, w, k);
    }
  }

  lemma WholeCons(raw: seq<Group>, first: Group)
    requires AllWhole(raw) && Whole(first)
    ensures AllWhole([first] + raw)
  {
    hide Whole;
  }

  lemma NextAccumulated(groups: seq<Group>, raw: seq<Group>, first: Group, u: int, v: int, w: int, k: nat)
    requires Whole(first) && 0 < k <= |raw| && AllWhole([first] + raw)
    requires var g := Added(first, u, v, w); Accumulated(groups, raw, g.y2[0], g.c1[0], g.c2[0])
    ensures AddedSums([first] + raw, u, v, w, k) == groups[k - 1]
  {
    var rs := [first] + raw;
    hide Added, Whole, LumaSum, FirstChromaSum, SecondChromaSum;
    AddedDCs(first, u, v, w);
    assert rs[1..] == raw && rs[k] == raw[k - 1];
    SumsOfRest(rs, k);
  }

  lemma NoSums(raw: seq<Group>)
    requires AllWhole(raw)
    ensures LumaSum(raw, 0) == FirstChromaSum(raw, 0) == SecondChromaSum(raw, 0) == 0
  {
  }

  lemma AddedDCs(raw: Group, u: int, v: int, w: int)
    requires Whole(raw)
    ensures var g := Added(raw, u, v, w);
            && |g.y2| == |g.c1| == |g.c2| == |raw.y1| == |raw.y2| == |raw.c1| == |raw.c2| == 64
            && g.y2[0] == u + raw.y1[0] + raw.y2[0] && g.c1[0] == v + raw.c1[0] && g.c2[0] == w + raw.c2[0]
  {
  }

  /** For every stream: the decoder succeeds exactly when the differences can be read, and then each block's
      DC is the start predictor of its component plus the sum of the differences read for that component. */
  lemma {:induction false} DcIsPrefixSum(ts: seq<seq<Entry>>, dcY: nat, acY: nat, s: Stream, p: nat, u: int, v: int,
                                         w: int, n: nat)
    requires |ts| == 4 && dcY < 4 && acY < 4
    ensures var d, raw := DecodeGroups(ts, dcY, acY, s, p, u, v, w, n), RawGroups(ts, dcY, acY, s, p, n);
            && (d.Ok? <==> raw.Ok?)
            && (d.Ok? ==> d.next == raw.next && |d.value| == n && Accumulated(d.value, raw.value, u, v, w))
    decreases n
  {
    hide DecodeGroup, RawGroup, Accumulated, Added;
    if n == 0 {
      NoneAccumulated(u, v, w);
    } else {
      GroupAdds(ts, dcY, acY, s, p, u, v, w);
      var d := RawGroup(ts, dcY, acY, s, p);
      if d.Ok? {
        var g := Added(d.value, u, v, w);
        DcIsPrefixSum(ts, dcY, acY, s, d.next, g.y2[0], g.c1[0], g.c2[0], n - 1);
        var rest := DecodeGroups(ts, dcY, acY, s, d.next, g.y2[0], g.c1[0], g.c2[0], n - 1);
        var raw := RawGroups(ts, dcY, acY, s, d.next, n - 1);
        if rest.Ok? {
          AccumulatedCons(rest.value, raw.value, d.value, u, v, w);
        }
      }
    }
  }

  lemma NoneAccumulated(u: int, v: int, w: int)
    ensures Accumulated([], [], u, v, w)
  {
  }

  /** Components do not interfere: runs from start predictors u, v, w and u', v', w' succeed or fail together, end at
      the same place, and differ in each block only by its own component's difference in coefficient 0. */
  lemma NoInterference(ts: seq<seq<Entry>>, dcY: nat, acY: nat, s: Stream, p: nat, u: int, v: int, w: int,
                       u': int, v': int, w': int, n: nat)
    requires |ts| == 4 && dcY < 4 && acY < 4
    ensures var a := DecodeGroups(ts, dcY, acY, s, p, u, v, w, n);
            var b := DecodeGroups(ts, dcY, acY, s, p, u', v', w', n);
            && (a.Ok? <==> b.Ok?)
            && (a.Ok? ==>
                  && a.next == b.next && |a.value| == |b.value| == n
                  && forall k :: 0 <= k < n ==>
                       var g, h := a.value[k], b.value[k];
                       && Whole(g)
                       && h.y1 == g.y1[0 := g.y1[0] + u' - u] && h.y2 == g.y2[0 := g.y2[0] + u' - u]
                       && h.c1 == g.c1[0 := g.c1[0] + v' - v] && h.c2 == g.c2[0 := g.c2[0] + w' - w])
  {
    hide DecodeGroups, RawGroups, Added, Accumulated;
    DcIsPrefixSum(ts, dcY, acY, s, p, u, v, w, n);
    DcIsPrefixSum(ts, dcY, acY, s, p, u', v', w', n);
    var a := DecodeGroups(ts, dcY, acY, s, p, u, v, w, n);
    var b := DecodeGroups(ts, dcY, acY, s, p, u', v', w', n);
    var raw := RawGroups(ts, dcY, acY, s, p, n);
    if a.Ok? {
      forall k | 0 <= k < n
        ensures var g, h := a.value[k], b.value[k];
                && Whole(g) && |g.y1| == |g.y2| == |g.c1| == |g.c2| == 64
                && h.y1 == g.y1[0 := g.y1[0] + u' - u] && h.y2 == g.y2[0 := g.y2[0] + u' - u]
                && h.c1 == g.c1[0 := g.c1[0] + v' - v] && h.c2 == g.c2[0 := g.c2[0] + w' - w]
      {
        OffsetAt(a.value, b.value, raw.value, u, v, w, u', v', w', k);
      }
    }
  }

  lemma OffsetAt(a: seq<Group>, b: seq<Group>, raw: seq<Group>, u: int, v: int, w: int, u': int, v': int, w': int,
                 k: nat)
    requires Accumulated(a, raw, u, v, w) && Accumulated(b, raw, u', v', w') && k < |a|
    ensures |b| == |a|
    ensures var g, h := a[k], b[k];
            && Whole(g)
            && h.y1 == g.y1[0 := g.y1[0] + u' - u] && h.y2 == g.y2[0 := g.y2[0] + u' - u]
            && h.c1 == g.c1[0 := g.c1[0] + v' - v] && h.c2 == g.c2[0 := g.c2[0] + w' - w]
  {
    hide LumaSum, FirstChromaSum, SecondChromaSum;
    var y, c, d := LumaSum(raw, k), FirstChromaSum(raw, k), SecondChromaSum(raw, k);
    assert a[k] == Added(raw[k], u + y, v + c, w + d) && b[k] == Added(raw[k], u' + y, v' + c, w' + d);
  }

  // ---- from bytes in memory ----

  function BytesBits(t: seq<Byte>): Bits {
    if t == [] then [] else BytesBits(t[..|t| - 1]) + ByteBits(t[|t| - 1])
  }

  lemma {:induction false} BytesBitsLength(t: seq<Byte>)
    ensures |BytesBits(t)| == 8 * |t|
  {
    hide ByteBits;
    if t != [] {
      BytesBitsLength(t[..|t| - 1]);
    }
  }

  lemma {:induction false} HeldBits(mem: Memory, start: nat, t: seq<Byte>, n: nat)
    requires Holds(mem, start, Stuff(t)) && Readable(t) && n <= |t|
    ensures At(ScanBits(mem, start), 0, BytesBits(t[..n]))
  {
    hide Holds, Readable, ScanBits, ScanByte, ByteBits, Stuff, Take;
    BytesBitsLength(t[..n]);
    if n == 0 {
      TakeSplit(ScanBits(mem, start), 0, 0, 0);
      assert |Take(ScanBits(mem, start), 0, 0)| == 0;
    } else {
      HeldBits(mem, start, t, n - 1);
      ReadsStuffedScan(mem, start, t);
      assert ReadsBack(mem, start, t) ==> ScanByte(mem, start, n - 1) == t[n - 1];
      assert t[..n][..n - 1] == t[..n - 1] && t[..n][n - 1] == t[n - 1];
      BytesBitsLength(t[..n - 1]);
      TakeByte(mem, start, n - 1, BytesBits(t[..n - 1]));
    }
  }

  /** End to end: when memory holds, stuffed, bytes whose bits start with a coded scan, the decoder
      recovers every block, whatever the padding is and whatever follows in memory; it does so exactly
      when no block needs a last entry. */
  lemma ScanRoundTrip(ts: seq<seq<Entry>>, dcY: nat, acY: nat, mem: Memory, start: nat, groups: seq<Group>,
                      t: seq<Byte>)
    requires |ts| == 4 && dcY < 4 && acY < 4 && forall k :: 0 <= k < 4 ==> LegalTable(ts[k])
    requires CodableGroups(ts, dcY, acY, groups, 0, 0, 0)
    requires EncodeGroups(ts, dcY, acY, groups, 0, 0, 0) <= BytesBits(t)
    requires Readable(t) && Holds(mem, start, Stuff(t))
    ensures DecodeGroups(ts, dcY, acY, ScanBits(mem, start), 0, 0, 0, 0, |groups|) ==
            if UsableGroups(ts, dcY, acY, groups, 0, 0, 0)
            then Ok(groups, |EncodeGroups(ts, dcY, acY, groups, 0, 0, 0)|) else Fail
  {
    hide LegalTable, CodableGroups, UsableGroups, EncodeGroups, DecodeGroups, ScanBits, Readable, Holds, Stuff;
    hide BytesBits, Take;
    var w := EncodeGroups(ts, dcY, acY, groups, 0, 0, 0);
    HeldBits(mem, start, t, |t|);
    assert t[..|t|] == t;
    TakeSplit(ScanBits(mem, start), 0, |w|, |BytesBits(t)| - |w|);
    assert At(ScanBits(mem, start), 0, w);
    GroupsRoundTrip(ts, dcY, acY, ScanBits(mem, start), 0, groups, 0, 0, 0);
  }

  /** From the two segments of a file: the tables written in a DHT segment, loaded from its bytes, decode
      every scan coded with them. The loader checks nothing; Kraft's inequality is what the tables need. */
  lemma FileRoundTrip(ts: seq<seq<Entry>>, specs: seq<Spec>, payload: seq<Byte>, dcY: nat, acY: nat, mem: Memory,
                      start: nat, groups: seq<Group>, t: seq<Byte>)
    requires |ts| == 4 && dcY < 4 && acY < 4 && specs != []
    requires forall k :: 0 <= k < 4 ==> Targeted(specs, k) || LegalTable(ts[k])
    requires forall i :: 0 <= i < |specs| ==> Writable(specs[i]) && Kraft(Lengths(specs[i].counts, 16))
    requires payload == SegmentBytes(specs)
    requires CodableGroups(Install(ts, specs), dcY, acY, groups, 0, 0, 0)
    requires EncodeGroups(Install(ts, specs), dcY, acY, groups, 0, 0, 0) <= BytesBits(t)
    requires Readable(t) && Holds(mem, start, Stuff(t))
    ensures SegmentOk(payload, 0, |payload|)
    ensures var loaded := Loaded(ts, payload, 0, |payload|);
            loaded == Install(ts, specs)
            && (DecodeGroups(loaded, dcY, acY, ScanBits(mem, start), 0, 0, 0, 0, |groups|) ==
                if UsableGroups(loaded, dcY, acY, groups, 0, 0, 0)
                then Ok(groups, |EncodeGroups(loaded, dcY, acY, groups, 0, 0, 0)|) else Fail)
  {
    hide LegalTable, Kraft, Lengths, Install, SegmentOk, Loaded, Writable, Targeted;
    hide CodableGroups, UsableGroups, EncodeGroups;
    hide DecodeGroups, ScanBits, Readable, Holds, Stuff, BytesBits, SegmentBytes;
    assert payload[0..] == payload;
    SegmentRoundTrip(ts, specs, payload, 0);
    InstallLegal(ts, specs);
    ScanRoundTrip(Install(ts, specs), dcY, acY, mem, start, groups, t);
  }

  // ---- the decoder's code ----

  /** The AC loop of readTable. */
  method ReadAC(r: Reader, t: Tables, tabAC: nat, table: array<int>) returns (ok: bool)
    requires r.Valid() && t.Valid() && tabAC < 4 && WellFormed(t.Table(tabAC)) && table.Length == 128
    modifies r, table
    ensures r.Valid()
    ensures match DecodeAC(t.Table(tabAC), r.Bit(), old(r.Consumed()), 0, old(table[..64]))
            case Fail => !ok
            case Ok(block, next) =>
              ok && table[..64] == block && table[64..] == old(table[64..]) && r.Consumed() == next
  {
    hide DecodeSymbol, HuffExtend, WellFormed, Value, Take;
    ghost var es, s := t.Table(tabAC), r.Bit();
    ghost var goal := DecodeAC(es, s, r.Consumed(), 0, table[..64]);
    var j, eob := 0, false;
    while j < 63 && !eob
      invariant j <= 78 && r.Valid() && t.Table(tabAC) == es && r.Bit() == s
      invariant eob ==> j < 63 && goal == Ok(table[..64], r.Consumed())
      invariant !eob ==> goal == if j <= 63 then DecodeAC(es, s, r.Consumed(), j, table[..64]) else Fail
      invariant j <= 63 ==> table[64..] == old(table[64..])
      decreases 100 - j, !eob
    {
      ghost var p, was := r.Consumed(), table[..64];
      var comb := r.ReadXC(t, tabAC);
      if comb < 0 {
        return false;
      }
      var val, repeat := comb % 16, comb / 16;
      if val == 0 {
        if repeat == 15 {
          j := j + 16;
        } else {
          eob := true;
        }
      } else {
        j := j + repeat;
        var v := r.ReadValue(val);
        table[j + 1] := v;
        j := j + 1;
        if j <= 63 {
          assert table[..64] == was[j := v];
        }
      }
    }
    ok := j <= 63;
  }

  /** readTable: rc and the new predictor. */
  method ReadTable(r: Reader, t: Tables, tabDC: nat, tabAC: nat, lastDC: int, table: array<int>)
    returns (rc: int, newDC: int)
    requires r.Valid() && t.Valid() && tabDC < 4 && tabAC < 4 && table.Length == 128
    requires WellFormed(t.Table(tabDC)) && WellFormed(t.Table(tabAC))
    requires forall k :: 0 <= k < |t.Table(tabDC)| ==> t.Table(tabDC)[k].code <= 16
    modifies r, table
    ensures r.Valid()
    ensures match DecodeBlock(t.Table(tabDC), t.Table(tabAC), r.Bit(), old(r.Consumed()), lastDC)
            case Fail => rc == -1
            case Ok(block, next) =>
              && rc == 0 && |block| == 64 && newDC == block[0] && table[..64] == block
              && table[64..] == old(table[64..]) && r.Consumed() == next
  {
    hide DecodeAC, HuffExtend, WellFormed, Value, Take, DecodeSymbol;
    newDC := lastDC;
    ghost var p, tail := r.Consumed(), table[64..];
    var j := 0;
    while j < 64
      invariant 0 <= j <= 64 && table[64..] == tail
      invariant r.Valid() && r.Consumed() == p
      invariant forall k :: 0 <= k < j ==> table[k] == 0
    {
      table[j] := 0;
      j := j + 1;
    }
    var sizeVal := r.ReadXC(t, tabDC);
    if sizeVal < 0 {
      return -1, newDC;
    }
    SymbolIsCode(t.Table(tabDC), r.Bit(), p, 16);
    var dc := r.ReadValue(sizeVal);
    newDC := dc + lastDC;
    table[0] := newDC;
    assert table[..64] == Fresh(newDC);
    FirstIsDC(t.Table(tabDC), t.Table(tabAC), r.Bit(), p, lastDC);
    var ok := ReadAC(r, t, tabAC, table);
    rc := if ok then 0 else -1;
  }

  lemma SymbolIsCode(es: seq<Entry>, s: Stream, p: nat, bound: nat)
    requires forall k :: 0 <= k < |es| ==> es[k].code <= bound
    ensures DecodeSymbol(es, s, p).Ok? ==> DecodeSymbol(es, s, p).value <= bound
  {
  }

  /** What the decoder takes for granted: its tables exist, and a DC size is at most 16. */
  ghost predicate Ready(t: Tables, dcY: nat, acY: nat)
    requires t.Valid() && dcY < 4 && acY < 4
    reads t.lookup, t.size
  {
    && (forall k :: 0 <= k < 4 ==> WellFormed(t.Table(k)))
    && (forall k :: 0 <= k < |t.Table(dcY)| ==> t.Table(dcY)[k].code <= 16)
    && (forall k :: 0 <= k < |t.Table(2)| ==> t.Table(2)[k].code <= 16)
  }

  /** readTable with the tables given by number, and what it filled. */
  method ReadBlock(r: Reader, t: Tables, tabDC: nat, tabAC: nat, lastDC: int, table: array<int>,
                   ghost ts: seq<seq<Entry>>)
    returns (rc: int, newDC: int, block: seq<int>)
    requires r.Valid() && t.Valid() && tabDC < 4 && tabAC < 4 && table.Length == 128 && ts == t.All()
    requires WellFormed(t.Table(tabDC)) && WellFormed(t.Table(tabAC))
    requires forall k :: 0 <= k < |t.Table(tabDC)| ==> t.Table(tabDC)[k].code <= 16
    modifies r, table
    ensures r.Valid()
    ensures match DecodeBlock(ts[tabDC], ts[tabAC], r.Bit(), old(r.Consumed()), lastDC)
            case Fail => rc < 0
            case Ok(b, next) => rc == 0 && block == b && newDC == b[0] && r.Consumed() == next
  {
    hide DecodeBlock, WellFormed, ScanBits;
    rc, newDC := ReadTable(r, t, tabDC, tabAC, lastDC, table);
    block := table[..64];
  }

  /** The body of the scan loop. */
  method ReadGroup(r: Reader, t: Tables, dcY: nat, acY: nat, lastDCY: int, lastDCCr: int, lastDCCb: int,
                   ghost ts: seq<seq<Entry>>)
    returns (rc: int, newY: int, newCr: int, newCb: int, g: Group)
    requires r.Valid() && t.Valid() && dcY < 4 && acY < 4 && Ready(t, dcY, acY) && ts == t.All()
    modifies r
    ensures r.Valid()
    ensures match DecodeGroup(ts, dcY, acY, r.Bit(), old(r.Consumed()), lastDCY, lastDCCr, lastDCCb)
            case Fail => rc < 0
            case Ok(h, next) =>
              rc == 0 && g == h && newY == h.y2[0] && newCr == h.c1[0] && newCb == h.c2[0] && r.Consumed() == next
  {
    hide DecodeBlock, ScanBits, WellFormed, Take;
    var table := new int[128];
    newY, newCr, newCb, g := lastDCY, lastDCCr, lastDCCb, Group([], [], [], []);
    var y1, y2, c1, c2;
    rc, newY, y1 := ReadBlock(r, t, dcY, acY, lastDCY, table, ts);
    if rc < 0 {
      return;
    }
    rc, newY, y2 := ReadBlock(r, t, dcY, acY, newY, table, ts);
    if rc < 0 {
      return;
    }
    rc, newCr, c1 := ReadBlock(r, t, 2, 3, lastDCCr, table, ts);
    if rc < 0 {
      return;
    }
    rc, newCb, c2 := ReadBlock(r, t, 2, 3, lastDCCb, table, ts);
    g := Group(y1, y2, c1, c2);
  }

  /** The loop over groups of four blocks. The tables readTable fills are collected; the C function adds up the
      first two of each group and ignores the others. */
  method DecodeScan(frame: Memory, gpos: nat, t: Tables, dcY: nat, acY: nat, cnt: nat)
    returns (ok: bool, groups: seq<Group>)
    requires t.Valid() && dcY < 4 && acY < 4 && Ready(t, dcY, acY)
    ensures match DecodeGroups(t.All(), dcY, acY, ScanBits(frame, gpos), 0, 0, 0, 0, cnt)
            case Fail => !ok
            case Ok(gs, _) => ok && groups == gs
  {
    hide Ready, ScanBits, DecodeGroups, DecodeGroup, After, Take, Delivered, ScanByte, OfNat, WellFormed;
    var r := new Reader(frame, gpos);
    var lastDCY, lastDCCr, lastDCCb := 0, 0, 0;
    groups := [];
    ghost var ts, s := t.All(), r.Bit();
    ghost var goal := DecodeGroups(ts, dcY, acY, s, 0, 0, 0, 0, cnt);
    AfterNone(goal);
    var i := 0;
    while i < cnt
      invariant 0 <= i <= cnt && r.Valid() && fresh(r) && r.Bit() == s
      invariant t.Valid() && Ready(t, dcY, acY) && ts == t.All()
      invariant goal == After(groups, DecodeGroups(ts, dcY, acY, s, r.Consumed(), lastDCY, lastDCCr, lastDCCb, cnt - i))
    {
      StepGroups(ts, dcY, acY, s, r.Consumed(), lastDCY, lastDCCr, lastDCCb, cnt - i, groups);
      var rc: int, g: Group;
      rc, lastDCY, lastDCCr, lastDCCb, g := ReadGroup(r, t, dcY, acY, lastDCY, lastDCCr, lastDCCb, ts);
      if rc < 0 {
        return false, [];
      }
      groups := groups + [g];
      i := i + 1;
    }
    ok := true;
    AfterAll(ts, dcY, acY, s, r.Consumed(), lastDCY, lastDCCr, lastDCCb, groups);
  }

  /** The decoding of further groups, with those already decoded put in front. */
  ghost function After(groups: seq<Group>, d: Decoded<seq<Group>>): Decoded<seq<Group>> {
    match d
    case Fail => Fail
    case Ok(rest, p) => Ok(groups + rest, p)
  }

  lemma AfterNone(d: Decoded<seq<Group>>)
    ensures After([], d) == d
  {
    if d.Ok? {
      assert [] + d.value == d.value;
    }
  }

  lemma AfterAll(ts: seq<seq<Entry>>, dcY: nat, acY: nat, s: Stream, p: nat, u: int, v: int, w: int,
                 groups: seq<Group>)
    requires |ts| == 4 && dcY < 4 && acY < 4
    ensures After(groups, DecodeGroups(ts, dcY, acY, s, p, u, v, w, 0)) == Ok(groups, p)
  {
    assert groups + [] == groups;
  }

  /** One group of the scan, told in terms of what DecodeGroup makes of it. */
  lemma StepGroups(ts: seq<seq<Entry>>, dcY: nat, acY: nat, s: Stream, p: nat, u: int, v: int, w: int, n: nat,
                   groups: seq<Group>)
    requires |ts| == 4 && dcY < 4 && acY < 4 && n > 0
    ensures After(groups, DecodeGroups(ts, dcY, acY, s, p, u, v, w, n)) ==
            match DecodeGroup(ts, dcY, acY, s, p, u, v, w)
            case Fail => Fail
            case Ok(g, q) =>
              After(groups + [g], DecodeGroups(ts, dcY, acY, s, q, g.y2[0], g.c1[0], g.c2[0], n - 1))
  {
    hide DecodeGroup;
    var d := DecodeGroup(ts, dcY, acY, s, p, u, v, w);
    if d.Ok? {
      var g := d.value;
      var rest := DecodeGroups(ts, dcY, acY, s, d.next, g.y2[0], g.c1[0], g.c2[0], n - 1);
      if rest.Ok? {
        assert groups + ([g] + rest.value) == (groups + [g]) + rest.value;
      }
    }
  }
}
