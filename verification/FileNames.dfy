/** The names of the files the file output writes, and the order in which a folder lists them. */
module FileNames {
  import opened Words

  type Name = seq<Byte>

  // ---- the order of names: alphasort in the C locale ----

  predicate Less(a: Name, b: Name) {
    if b == [] then false
    else if a == [] then true
    else a[0] < b[0] || (a[0] == b[0] && Less(a[1..], b[1..]))
  }

  lemma {:induction false} LessTransitive(a: Name, b: Name, c: Name)
    requires Less(a, b) && Less(b, c)
    ensures Less(a, c)
  {
    if a != [] && a[0] == b[0] == c[0] {
      LessTransitive(a[1..], b[1..], c[1..]);
    }
  }

  lemma {:induction false} LessIrreflexive(a: Name)
    ensures !Less(a, a)
  {
    if a != [] {
      LessIrreflexive(a[1..]);
    }
  }

  ghost predicate Ascending(l: seq<Name>) { forall i, j :: 0 <= i < j < |l| ==> Less(l[i], l[j]) }

  lemma {:induction false} LessTotal(a: Name, b: Name)
    requires a != b
    ensures Less(a, b) || Less(b, a)
  {
    if a != [] && b != [] && a[0] == b[0] {
      assert a == [a[0]] + a[1..] && b == [b[0]] + b[1..];
      LessTotal(a[1..], b[1..]);
    }
  }

  lemma {:induction false} LessAsymmetric(a: Name, b: Name)
    requires Less(a, b)
    ensures !Less(b, a)
  {
    if a != [] && a[0] == b[0] {
      LessAsymmetric(a[1..], b[1..]);
    }
  }

  // ---- names: %Y_%m_%d_%H_%M_%S_picture_%09llu.jpg ----

  /** Decimal digits, zero-padded to `width` and longer when the number is. */
  function Field(n: nat, width: nat): (t: seq<Byte>)
    decreases n + width
  {
    if n == 0 && width == 0 then []
    else Field(n / 10, if width == 0 then 0 else width - 1) + [48 + n % 10]
  }

  function Pow10(w: nat): (p: nat)
    ensures p > 0
  {
    if w == 0 then 1 else 10 * Pow10(w - 1)
  }

  function Render(fields: seq<nat>, widths: seq<nat>, seps: seq<seq<Byte>>): Name
    requires |fields| == |widths| == |seps|
  {
    if fields == [] then []
    else Field(fields[0], widths[0]) + (seps[0] + Render(fields[1..], widths[1..], seps[1..]))
  }

  /** Year, month, day, hour, minute, second. */
  type Time = seq<nat>

  const TIME_WIDTHS: seq<nat> := [4, 2, 2, 2, 2, 2]

  /** "_" five times, "_picture_" */
  const SEPARATORS: seq<seq<Byte>> := [[95], [95], [95], [95], [95], [95, 112, 105, 99, 116, 117, 114, 101, 95]]

  const JPG: seq<Byte> := [46, 106, 112, 103]

  const COUNTER_WIDTH: nat := 9

  function PictureName(time: Time, counter: nat): Name
    requires |time| == 6
  {
    Render(time, TIME_WIDTHS, SEPARATORS) + (Field(counter, COUNTER_WIDTH) + JPG)
  }

  predicate Fit(fields: seq<nat>, widths: seq<nat>) {
    |fields| == |widths| && forall i :: 0 <= i < |fields| ==> fields[i] < Pow10(widths[i])
  }

  /** The earlier of two field lists of equal length. */
  predicate Earlier(a: seq<nat>, b: seq<nat>)
    requires |a| == |b|
  {
    a != [] && (a[0] < b[0] || (a[0] == b[0] && Earlier(a[1..], b[1..])))
  }

  lemma {:induction false} FieldWidth(n: nat, width: nat)
    requires n < Pow10(width)
    ensures |Field(n, width)| == width
  {
    if width > 0 {
      FieldWidth(n / 10, width - 1);
    }
  }

  lemma {:induction false} LessAppend(a: Name, b: Name, x: Name, y: Name)
    requires |a| == |b| && Less(a, b)
    ensures Less(a + x, b + y)
  {
    if a[0] == b[0] {
      LessAppend(a[1..], b[1..], x, y);
      assert (a + x)[1..] == a[1..] + x && (b + y)[1..] == b[1..] + y;
    }
  }

  lemma {:induction false} LessPrefixed(p: Name, a: Name, b: Name)
    ensures Less(p + a, p + b) <==> Less(a, b)
  {
    if p == [] {
      assert p + a == a && p + b == b;
    } else {
      LessPrefixed(p[1..], a, b);
      assert (p + a)[1..] == p[1..] + a && (p + b)[1..] == p[1..] + b;
    }
  }

  /** Zero-padded fields of one width sort as their numbers. */
  lemma {:induction false} FieldOrder(m: nat, n: nat, width: nat)
    requires m < n < Pow10(width)
    ensures Less(Field(m, width), Field(n, width))
  {
    FieldWidth(m, width);
    FieldWidth(n, width);
    FieldWidth(m / 10, width - 1);
    FieldWidth(n / 10, width - 1);
    if m / 10 < n / 10 {
      FieldOrder(m / 10, n / 10, width - 1);
      LessAppend(Field(m / 10, width - 1), Field(n / 10, width - 1), [48 + m % 10], [48 + n % 10]);
    } else {
      LessPrefixed(Field(m / 10, width - 1), [48 + m % 10], [48 + n % 10]);
    }
  }

  /** Zero-padded fields sort as what they show. */
  lemma {:induction false} FieldsSort(a: seq<nat>, b: seq<nat>, widths: seq<nat>, seps: seq<seq<Byte>>)
    requires Fit(a, widths) && Fit(b, widths) && |seps| == |widths| && Earlier(a, b)
    ensures Less(Render(a, widths, seps), Render(b, widths, seps))
    decreases |a|
  {
    FieldWidth(a[0], widths[0]);
    FieldWidth(b[0], widths[0]);
    var x, y := Render(a[1..], widths[1..], seps[1..]), Render(b[1..], widths[1..], seps[1..]);
    if a[0] < b[0] {
      FieldOrder(a[0], b[0], widths[0]);
      LessAppend(Field(a[0], widths[0]), Field(b[0], widths[0]), seps[0] + x, seps[0] + y);
    } else {
      FieldsSort(a[1..], b[1..], widths[1..], seps[1..]);
      LessPrefixed(seps[0], x, y);
      LessPrefixed(Field(a[0], widths[0]), seps[0] + x, seps[0] + y);
    }
  }

  lemma {:induction false} SameLength(a: seq<nat>, b: seq<nat>, widths: seq<nat>, seps: seq<seq<Byte>>)
    requires Fit(a, widths) && Fit(b, widths) && |seps| == |widths|
    ensures |Render(a, widths, seps)| == |Render(b, widths, seps)|
    decreases |a|
  {
    if |a| > 0 {
      FieldWidth(a[0], widths[0]);
      FieldWidth(b[0], widths[0]);
      SameLength(a[1..], b[1..], widths[1..], seps[1..]);
    }
  }

  // ---- what a name says ----

  lemma NumberPush(t: seq<Byte>, c: Byte)
    ensures Number(t + [c]) == 10 * Number(t) + c - 48
  {
    assert (t + [c])[..|t|] == t;
  }

  /** A field shows its number; it is longer than its width only without leading zeros. */
  lemma {:induction false} FieldShows(n: nat, width: nat)
    ensures var t := Field(n, width); Number(t) == n && |t| >= width && (|t| > width ==> t[0] != 48)
    decreases n + width
  {
    if n > 0 || width > 0 {
      hide Number;
      var less := if width == 0 then 0 else width - 1;
      var front, last := Field(n / 10, less), 48 + n % 10;
      FieldShows(n / 10, less);
      NumberPush(front, last);
    }
  }

  predicate IsTime(t: Time) { |t| == 6 && Fit(t, TIME_WIDTHS) }

  /** A field of the date: its number in `width` digits. */
  predicate Shows(t: seq<Byte>, n: nat, width: nat) {
    |t| == width && Number(t) == n && forall i :: 0 <= i < width ==> 48 <= t[i] <= 57
  }

  /** A name in full: the date down to the second, and the counter in nine digits or, without leading zeros, more. */
  lemma NameSays(time: Time, counter: nat) returns (f: seq<seq<Byte>>, digits: seq<Byte>)
    requires IsTime(time)
    ensures |f| == 6 && Shows(f[0], time[0], 4) && forall i :: 1 <= i < 6 ==> Shows(f[i], time[i], 2)
    ensures Number(digits) == counter && |digits| >= 9 && (|digits| > 9 ==> digits[0] != 48)
    ensures PictureName(time, counter) ==
            f[0] + (Text("_") + (f[1] + (Text("_") + (f[2] + (Text("_") + (f[3] + (Text("_") + (f[4] + (Text("_") +
              (f[5] + (Text("_picture_") + (digits + Text(".jpg")))))))))))))
  {
    hide Field, Number, Text, Render;
    f := seq(6, i requires 0 <= i < 6 => Field(time[i], TIME_WIDTHS[i]));
    digits := Field(counter, 9);
    forall i | 0 <= i < 6
      ensures Shows(f[i], time[i], TIME_WIDTHS[i])
    {
      FieldShows(time[i], TIME_WIDTHS[i]);
      FieldWidth(time[i], TIME_WIDTHS[i]);
      DigitsOnly(time[i], TIME_WIDTHS[i]);
    }
    FieldShows(counter, 9);
    Literals();
    var w, s, tail := TIME_WIDTHS, SEPARATORS, digits + JPG;
    OneField(time, w, s, 0, tail);
    OneField(time, w, s, 1, tail);
    OneField(time, w, s, 2, tail);
    OneField(time, w, s, 3, tail);
    OneField(time, w, s, 4, tail);
    OneField(time, w, s, 5, tail);
    NoField(time, w, s, tail);
    assert time[0..] == time && w[0..] == w && s[0..] == s;
  }

  lemma Literals()
    ensures Text("_") == [95] && Text("_picture_") == SEPARATORS[5] && Text(".jpg") == JPG
  {
  }

  lemma OneField(t: seq<nat>, w: seq<nat>, s: seq<seq<Byte>>, i: nat, tail: seq<Byte>)
    requires i < |t| == |w| == |s|
    ensures Render(t[i..], w[i..], s[i..]) + tail ==
            Field(t[i], w[i]) + (s[i] + (Render(t[i + 1..], w[i + 1..], s[i + 1..]) + tail))
  {
    hide Field;
    assert t[i..][1..] == t[i + 1..] && w[i..][1..] == w[i + 1..] && s[i..][1..] == s[i + 1..];
    var rest := Render(t[i + 1..], w[i + 1..], s[i + 1..]);
    assert Render(t[i..], w[i..], s[i..]) == Field(t[i], w[i]) + (s[i] + rest);
  }

  lemma NoField(t: seq<nat>, w: seq<nat>, s: seq<seq<Byte>>, tail: seq<Byte>)
    requires |t| == |w| == |s|
    ensures Render(t[|t|..], w[|t|..], s[|t|..]) + tail == tail
  {
    assert t[|t|..] == [];
  }

  /** Names of different seconds sort by time, whatever the counters. */
  lemma LaterSecond(a: Time, b: Time, m: nat, n: nat)
    requires IsTime(a) && IsTime(b) && Earlier(a, b)
    ensures Less(PictureName(a, m), PictureName(b, n))
  {
    hide Render, Field, Less;
    FieldsSort(a, b, TIME_WIDTHS, SEPARATORS);
    SameLength(a, b, TIME_WIDTHS, SEPARATORS);
    LessAppend(Render(a, TIME_WIDTHS, SEPARATORS), Render(b, TIME_WIDTHS, SEPARATORS),
               Field(m, COUNTER_WIDTH) + JPG, Field(n, COUNTER_WIDTH) + JPG);
  }

  // ---- counters of any number of digits ----

  /** n without its last d digits. */
  function WithoutDigits(n: nat, d: nat): nat { if d == 0 then n else WithoutDigits(n / 10, d - 1) }

  lemma {:induction false} WithoutDigitsIff(m: nat, n: nat, d: nat)
    ensures m <= WithoutDigits(n, d) <==> m * Pow10(d) <= n
    decreases d
  {
    if d > 0 {
      WithoutDigitsIff(m, n / 10, d - 1);
      var p := m * Pow10(d - 1);
      assert m * Pow10(d) == 10 * p;
    }
  }

  /** A field is the field of its own length, which its number fits. */
  lemma {:induction false} OwnWidth(n: nat, width: nat)
    ensures var k := |Field(n, width)|; width <= k && n < Pow10(k) && Field(n, width) == Field(n, k)
    decreases n + width
  {
    if n > 0 || width > 0 {
      OwnWidth(n / 10, if width == 0 then 0 else width - 1);
    }
  }

  lemma {:induction false} LongerField(m: nat, n: nat, width: nat)
    requires m <= n
    ensures |Field(m, width)| <= |Field(n, width)|
    decreases n + width
  {
    if m > 0 || width > 0 {
      LongerField(m / 10, n / 10, if width == 0 then 0 else width - 1);
    }
  }

  /** The first digits of a field are the field of the number they show. */
  lemma {:induction false} LeadingDigits(n: nat, width: nat, d: nat)
    requires d <= width && n < Pow10(width)
    ensures |Field(n, width)| == width && WithoutDigits(n, d) < Pow10(width - d)
    ensures Field(n, width)[..width - d] == Field(WithoutDigits(n, d), width - d)
    decreases d
  {
    FieldWidth(n, width);
    if d > 0 {
      LeadingDigits(n / 10, width - 1, d - 1);
      assert Field(n, width)[..width - d] == Field(n / 10, width - 1)[..width - d];
    } else {
      assert Field(n, width)[..width] == Field(n, width);
    }
  }

  lemma {:induction false} DigitsOnly(n: nat, width: nat)
    ensures forall i :: 0 <= i < |Field(n, width)| ==> 48 <= Field(n, width)[i] <= 57
    decreases n + width
  {
    if n > 0 || width > 0 {
      DigitsOnly(n / 10, if width == 0 then 0 else width - 1);
    }
  }

  /** How many digits more n shows than m. */
  function MoreDigits(m: nat, n: nat): nat
    requires m <= n
  {
    LongerField(m, n, COUNTER_WIDTH);
    |Field(n, COUNTER_WIDTH)| - |Field(m, COUNTER_WIDTH)|
  }

  /** Counters followed by a suffix that sorts before every digit. */
  lemma CounterOrder(m: nat, n: nat)
    requires m < n
    ensures var x, y := Field(m, COUNTER_WIDTH) + JPG, Field(n, COUNTER_WIDTH) + JPG;
            if m * Pow10(MoreDigits(m, n)) <= n then Less(x, y) && !Less(y, x) else Less(y, x) && !Less(x, y)
  {
    hide Field, Less, Pow10, WithoutDigits;
    var a, b, d := Field(m, COUNTER_WIDTH), Field(n, COUNTER_WIDTH), MoreDigits(m, n);
    OwnWidth(m, COUNTER_WIDTH);
    OwnWidth(n, COUNTER_WIDTH);
    LeadingDigits(n, |b|, d);
    WithoutDigitsIff(m, n, d);
    var q := WithoutDigits(n, d);
    var top, rest := b[..|a|], b[|a|..];
    assert b + JPG == top + (rest + JPG);
    if m < q {
      FieldOrder(m, q, |a|);
      LessAppend(a, top, JPG, rest + JPG);
      LessAsymmetric(a + JPG, b + JPG);
    } else if q < m {
      FieldOrder(q, m, |a|);
      LessAppend(top, a, rest + JPG, JPG);
      LessAsymmetric(top + (rest + JPG), a + JPG);
    } else {
      LessPrefixed(a, JPG, rest + JPG);
      DigitsOnly(n, COUNTER_WIDTH);
      NoDigits(n, d);
      DotFirst(rest);
      LessAsymmetric(a + JPG, b + JPG);
    }
  }

  lemma NoDigits(n: nat, d: nat)
    ensures d == 0 ==> WithoutDigits(n, d) == n
  {
  }

  lemma DotFirst(rest: seq<Byte>)
    requires |rest| > 0 && 48 <= rest[0]
    ensures Less(JPG, rest + JPG)
  {
  }

  /** Two names of one second sort by their counters m < n exactly when m, with as many zeros appended as n has
      more digits, is at most n; otherwise they sort the other way round. */
  lemma SameSecond(time: Time, m: nat, n: nat)
    requires |time| == 6 && m < n
    ensures var x, y := PictureName(time, m), PictureName(time, n);
            && (Less(x, y) <==> m * Pow10(MoreDigits(m, n)) <= n)
            && (Less(y, x) <==> !Less(x, y))
  {
    hide Field, Less, Pow10, Render, MoreDigits;
    CounterOrder(m, n);
    var t, x, y := Render(time, TIME_WIDTHS, SEPARATORS), Field(m, COUNTER_WIDTH) + JPG, Field(n, COUNTER_WIDTH) + JPG;
    LessPrefixed(t, x, y);
    LessPrefixed(t, y, x);
  }

  const FULL: nat := 1_000_000_000

  lemma FullCounter()
    ensures Pow10(COUNTER_WIDTH) == FULL && MoreDigits(FULL - 1, FULL) == 1
  {
    assert Pow10(4) == 10000 && Pow10(5) == 100000 && Pow10(9) == 10 * Pow10(8) == 100 * Pow10(7) == 1000 * Pow10(6);
    FieldWidth(FULL - 1, COUNTER_WIDTH);
    FieldWidth(FULL, 10);
    OwnWidth(FULL, COUNTER_WIDTH);
  }

  /** The counter 1000000000 is listed before 999999999. */
  lemma WrongOrder(time: Time)
    requires |time| == 6
    ensures Less(PictureName(time, FULL), PictureName(time, FULL - 1))
  {
    hide PictureName, Field, Less;
    FullCounter();
    SameSecond(time, FULL - 1, FULL);
  }

  /** The names of one second with counters 0 to last sort exactly when the counters have at most nine digits. */
  lemma OneSecondSorts(time: Time, last: nat)
    requires |time| == 6
    ensures (forall m, n :: 0 <= m < n <= last ==> Less(PictureName(time, m), PictureName(time, n))) <==> last < FULL
  {
    hide PictureName, Field, Less;
    FullCounter();
    if last < FULL {
      forall m, n | 0 <= m < n <= last
        ensures Less(PictureName(time, m), PictureName(time, n))
      {
        SameSecond(time, m, n);
        FieldWidth(m, COUNTER_WIDTH);
        FieldWidth(n, COUNTER_WIDTH);
      }
    } else {
      SameSecond(time, FULL - 1, FULL);
    }
  }

  ghost predicate AreTimes(times: seq<Time>) { forall i {:trigger times[i]} :: 0 <= i < |times| ==> IsTime(times[i]) }

  /** The names a run gives to its files, one for each frame. */
  ghost function RunNames(times: seq<Time>): (names: seq<Name>)
    requires AreTimes(times)
    ensures |names| == |times| && forall i :: 0 <= i < |times| ==> names[i] == PictureName(times[i], i)
  {
    seq(|times|, i requires 0 <= i < |times| => PictureName(times[i], i))
  }

  lemma {:induction false} EarlierTotal(a: Time, b: Time)
    requires |a| == |b| && a != b
    ensures Earlier(a, b) || Earlier(b, a)
  {
    if a[0] == b[0] {
      assert a == [a[0]] + a[1..] && b == [b[0]] + b[1..];
      EarlierTotal(a[1..], b[1..]);
    }
  }

  lemma {:induction false} EarlierIrreflexive(a: Time)
    ensures !Earlier(a, a)
  {
    if a != [] {
      EarlierIrreflexive(a[1..]);
    }
  }

  /** The name of frame j is listed behind that of frame i exactly if the second is later, or is the same and the
      counters allow it. */
  lemma NamesOfRun(a: Time, b: Time, i: nat, j: nat)
    requires IsTime(a) && IsTime(b) && i < j
    ensures Less(PictureName(a, i), PictureName(b, j)) <==>
            Earlier(a, b) || (a == b && i * Pow10(MoreDigits(i, j)) <= j)
  {
    hide PictureName, Field, Less, MoreDigits, Pow10, Earlier;
    EarlierIrreflexive(a);
    if a == b {
      SameSecond(a, i, j);
    } else if Earlier(a, b) {
      LaterSecond(a, b, i, j);
    } else {
      EarlierTotal(a, b);
      LaterSecond(b, a, j, i);
      LessAsymmetric(PictureName(b, j), PictureName(a, i));
    }
  }

  /** Whatever the clock does, a run's names are in order exactly when every frame of a run is of a later second
      than those before it, or of the same and the counters allow it. */
  lemma RunSorts(times: seq<Time>)
    requires AreTimes(times)
    ensures Ascending(RunNames(times)) <==>
            forall i, j :: 0 <= i < j < |times| ==>
              Earlier(times[i], times[j]) || (times[i] == times[j] && i * Pow10(MoreDigits(i, j)) <= j)
  {
    hide PictureName, Field, Less, MoreDigits, Pow10, Earlier;
    var names := RunNames(times);
    forall i, j | 0 <= i < j < |times|
      ensures Less(names[i], names[j]) <==>
              Earlier(times[i], times[j]) || (times[i] == times[j] && i * Pow10(MoreDigits(i, j)) <= j)
    {
      NamesOfRun(times[i], times[j], i, j);
    }
  }

  /** The seconds at which frames are stored, by a clock that does not go back. */
  ghost predicate IsClock(times: seq<Time>) {
    && AreTimes(times)
    && forall i, j :: 0 <= i < j < |times| ==> !Earlier(times[j], times[i])
  }

  /** With such a clock the names of up to 10^9 frames are in order. */
  lemma ShortRunSorts(times: seq<Time>)
    requires IsClock(times) && |times| <= FULL
    ensures Ascending(RunNames(times))
  {
    hide PictureName, Field, Less, Earlier;
    RunSorts(times);
    FullCounter();
    forall i, j | 0 <= i < j < |times|
      ensures i * Pow10(MoreDigits(i, j)) <= j && (times[i] == times[j] || Earlier(times[i], times[j]))
    {
      if times[i] != times[j] {
        EarlierTotal(times[i], times[j]);
      }
      FieldWidth(i, COUNTER_WIDTH);
      FieldWidth(j, COUNTER_WIDTH);
    }
  }

  /** When the clock goes back between two frames, they are listed the wrong way round. */
  lemma ClockBack(a: Time, b: Time)
    requires IsTime(a) && IsTime(b) && Earlier(b, a)
    ensures Less(PictureName(b, 1), PictureName(a, 0)) && AreTimes([a, b]) && !Ascending(RunNames([a, b]))
  {
    assert |a| == |b| == 6;
    hide PictureName, Less, Field, IsTime, Earlier;
    LaterSecond(b, a, 1, 0);
    LessAsymmetric(PictureName(b, 1), PictureName(a, 0));
    assert [a, b][0] == a && [a, b][1] == b;
    var names := RunNames([a, b]);
    assert names[0] == PictureName(a, 0) && names[1] == PictureName(b, 1);
  }

  /** An hour that comes twice, as at the end of summer time. */
  lemma ClockGoesBack()
    ensures var a: Time, b: Time := [2024, 10, 27, 2, 59, 59], [2024, 10, 27, 2, 0, 0];
            AreTimes([a, b]) && !Ascending(RunNames([a, b]))
  {
    hide IsTime, Earlier, Less;
    TimesFit();
    ClockBack([2024, 10, 27, 2, 59, 59], [2024, 10, 27, 2, 0, 0]);
  }

  lemma TimesFit()
    ensures var a: Time, b: Time := [2024, 10, 27, 2, 59, 59], [2024, 10, 27, 2, 0, 0];
            IsTime(a) && IsTime(b) && Earlier(b, a)
  {
    var a: Time, b: Time := [2024, 10, 27, 2, 59, 59], [2024, 10, 27, 2, 0, 0];
    assert Pow10(2) == 100 && Pow10(4) == 100 * Pow10(2);
    assert a[1..] == [10, 27, 2, 59, 59] && b[1..] == [10, 27, 2, 0, 0];
    assert a[1..][1..] == [27, 2, 59, 59] && b[1..][1..] == [27, 2, 0, 0];
    assert a[1..][1..][1..] == [2, 59, 59] && b[1..][1..][1..] == [2, 0, 0];
    assert a[1..][1..][1..][1..] == [59, 59] && b[1..][1..][1..][1..] == [0, 0];
  }
}
