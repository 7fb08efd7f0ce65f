/** The file output: one file per frame, and deletion of the oldest ones. */
module FileRing {
  import opened FileNames

  /** What scandir returns: the folder's matching names in order. */
  ghost predicate IsListing(l: seq<Name>, files: set<Name>, ours: Name -> bool) {
    Ascending(l) && forall f :: f in l <==> f in files && ours(f)
  }

  /** A folder has one listing. */
  lemma {:induction false} OneListing(a: seq<Name>, b: seq<Name>)
    requires Ascending(a) && Ascending(b) && forall f :: f in a <==> f in b
    ensures a == b
    decreases |a|
  {
    if a == [] {
      var f := if b == [] then [] else b[0];
      assert f in a <==> f in b;
    } else {
      SameFirst(a, b);
      forall f
        ensures f in a[1..] <==> f in b[1..]
      {
        Rest(a, f);
        Rest(b, f);
      }
      OneListing(a[1..], b[1..]);
      assert a == [a[0]] + a[1..] && b == [b[0]] + b[1..];
    }
  }

  lemma Rest(l: seq<Name>, f: Name)
    requires Ascending(l) && l != []
    ensures f in l[1..] <==> f in l && f != l[0]
  {
    LessIrreflexive(l[0]);
  }

  lemma SameFirst(a: seq<Name>, b: seq<Name>)
    requires Ascending(a) && Ascending(b) && a != [] && forall f :: f in a <==> f in b
    ensures b != [] && a[0] == b[0]
  {
    assert a[0] in b;
    assert b[0] in a;
    if a[0] != b[0] {
      LessTransitive(a[0], b[0], a[0]);
      LessIrreflexive(a[0]);
    }
  }

  // ---- one clean-up and one iteration, on listings ----

  function Max(a: int, b: int): int { if a >= b then a else b }

  function Min(a: int, b: int): int { if a <= b then a else b }

  function Newest(l: seq<Name>, size: int): seq<Name> {
    if size < 0 then l else l[Max(|l| - size, 0)..]
  }

  /** The clean-up schedule; counter has already been incremented. */
  predicate Due(counter: nat, exceed: int) {
    exceed <= 0 || counter == 1 || counter % (exceed + 1) == 0
  }

  function Inserted(l: seq<Name>, f: Name): seq<Name> {
    if l == [] || Less(f, l[0]) then [f] + l else [l[0]] + Inserted(l[1..], f)
  }

  /** The listing with a file more; a name that is there already is overwritten. */
  function Added(l: seq<Name>, f: Name): seq<Name> { if f in l then l else Inserted(l, f) }

  function Merged(l: seq<Name>, names: seq<Name>): seq<Name> {
    if names == [] then l else Added(Merged(l, names[..|names| - 1]), names[|names| - 1])
  }

  /** How a clean-up goes: whether scandir works, and the names that unlink fails on. */
  datatype Luck = Luck(listed: bool, stuck: set<Name>)

  const FINE := Luck(true, {})

  function Only(l: seq<Name>, stuck: set<Name>): seq<Name> {
    if l == [] then [] else (if l[0] in stuck then [l[0]] else []) + Only(l[1..], stuck)
  }

  /** One clean-up: of the files before the newest ones only those stay that cannot be deleted. */
  function Cleaned(l: seq<Name>, size: int, luck: Luck): seq<Name> {
    if size < 0 || !luck.listed then l
    else
      var k := Max(|l| - size, 0);
      Only(l[..k], luck.stuck) + l[k..]
  }

  function Iterated(l: seq<Name>, name: Name, counter: nat, size: int, exceed: int, luck: Luck): seq<Name> {
    if Due(counter + 1, exceed) then Cleaned(Added(l, name), size, luck) else Added(l, name)
  }

  /** The listing after a run that stores these names, in this order. */
  function AfterRun(l: seq<Name>, names: seq<Name>, luck: seq<Luck>, size: int, exceed: int): seq<Name>
    requires |luck| == |names|
  {
    if names == [] then l
    else
      var n := |names| - 1;
      Iterated(AfterRun(l, names[..n], luck[..n], size, exceed), names[n], n, size, exceed, luck[n])
  }

  predicate AllFine(luck: seq<Luck>) { forall i :: 0 <= i < |luck| ==> luck[i] == FINE }

  /** Files beyond size that the schedule leaves after an iteration. */
  function Slack(counter: nat, exceed: int): nat
    requires counter > 0
  {
    if exceed <= 0 then 0 else if counter <= exceed then counter - 1 else counter % (exceed + 1)
  }

  /** The folder is cleaned up after the first file and after file exceed + 1, and not between. */
  lemma FirstCleanUps(n: nat, exceed: int)
    ensures exceed <= 0 ==> Due(n, exceed)
    ensures exceed > 0 ==> Due(1, exceed) && Due(exceed + 1, exceed)
    ensures 1 < n <= exceed ==> !Due(n, exceed)
  {
    if 1 < n <= exceed {
      Remainder(0, n, exceed + 1);
    }
  }

  /** From then on it is cleaned up after every exceed + 1 files. */
  lemma NextCleanUp(n: nat, exceed: int, d: nat)
    requires 0 < exceed < n && Due(n, exceed)
    ensures 0 < d <= exceed ==> !Due(n + d, exceed)
    ensures Due(n + exceed + 1, exceed)
  {
    var m := exceed + 1;
    var q := n / m;
    assert n == q * m;
    if 0 < d < m {
      Remainder(q, d, m);
    }
    assert n + m == (q + 1) * m + 0;
    Remainder(q + 1, 0, m);
  }

  lemma SlackStep(counter: nat, exceed: int)
    requires counter > 0
    ensures Slack(counter, exceed) <= Max(exceed, 0)
    ensures Slack(counter + 1, exceed) == if Due(counter + 1, exceed) then 0 else Slack(counter, exceed) + 1
  {
    if exceed > 0 {
      NextRemainder(counter, exceed + 1);
      if counter <= exceed {
        Remainder(0, counter, exceed + 1);
      }
    }
  }

  lemma NextRemainder(a: nat, m: nat)
    requires m > 1
    ensures (a + 1) % m == if a % m == m - 1 then 0 else a % m + 1
  {
    var q := a / m;
    if a % m == m - 1 {
      assert a + 1 == (q + 1) * m;
      Remainder(q + 1, 0, m);
    } else {
      assert a + 1 == q * m + (a % m + 1);
      Remainder(q, a % m + 1, m);
    }
  }

  lemma Remainder(q: nat, r: nat, m: nat)
    requires r < m
    ensures (q * m + r) % m == r
  {
    var s := (q * m + r) / m;
    assert q * m + r == s * m + (q * m + r) % m;
    assert (q - s) * m == (q * m + r) % m - r;
    if q - s >= 1 {
      AtLeastOnce(q - s, m);
    } else if s - q >= 1 {
      AtLeastOnce(s - q, m);
    }
  }

  lemma AtLeastOnce(k: int, m: nat)
    requires k >= 1
    ensures k * m >= m
  {
    assert (k - 1) * m >= 0;
  }

  lemma FirstIteration(exceed: int)
    ensures Slack(1, exceed) == 0 && Due(1, exceed)
  {
  }

  // ---- listings ----

  lemma {:induction false} InsertedMembers(l: seq<Name>, f: Name)
    ensures forall g :: g in Inserted(l, f) <==> g in l || g == f
    ensures |Inserted(l, f)| == |l| + 1
    decreases |l|
  {
    if l != [] && !Less(f, l[0]) {
      InsertedMembers(l[1..], f);
      assert l == [l[0]] + l[1..];
    }
  }

  lemma {:induction false} InsertedListing(l: seq<Name>, f: Name)
    requires Ascending(l) && f !in l
    ensures Ascending(Inserted(l, f)) && forall g :: g in Inserted(l, f) <==> g in l || g == f
    decreases |l|
  {
    InsertedMembers(l, f);
    if l == [] {
    } else if Less(f, l[0]) {
      forall i | 0 < i < |l|
        ensures Less(f, l[i])
      {
        LessTransitive(f, l[0], l[i]);
      }
    } else {
      LessTotal(f, l[0]);
      InsertedListing(l[1..], f);
      var r := Inserted(l[1..], f);
      forall i | 0 <= i < |r|
        ensures Less(l[0], r[i])
      {
        assert r[i] in l[1..] || r[i] == f;
      }
    }
  }

  lemma AddedListing(l: seq<Name>, f: Name)
    requires Ascending(l)
    ensures Ascending(Added(l, f)) && |Added(l, f)| <= |l| + 1
    ensures forall g :: g in Added(l, f) <==> g in l || g == f
  {
    if f !in l {
      InsertedListing(l, f);
      InsertedMembers(l, f);
    }
  }

  /** Insertion goes into the one or the other part. */
  lemma {:induction false} InsertedSplit(a: seq<Name>, b: seq<Name>, f: Name)
    requires Ascending(a + b) && f !in a
    ensures Inserted(a + b, f) ==
            if a != [] && Less(f, a[|a| - 1]) then Inserted(a, f) + b else a + Inserted(b, f)
    decreases |a|
  {
    if a == [] {
      assert a + b == b && [] + Inserted(b, f) == Inserted(b, f);
    } else {
      assert (a + b)[1..] == a[1..] + b && (a + b)[0] == a[0];
      if Less(f, a[0]) {
        FirstIsLess(a, b, f);
      } else {
        InsertedSplit(a[1..], b, f);
        if |a| > 1 {
          assert a[1..][|a| - 2] == a[|a| - 1];
        }
      }
    }
  }

  lemma FirstIsLess(a: seq<Name>, b: seq<Name>, f: Name)
    requires Ascending(a + b) && a != [] && Less(f, a[0])
    ensures Less(f, a[|a| - 1]) && Inserted(a + b, f) == [f] + (a + b) == Inserted(a, f) + b
  {
    hide Less;
    if |a| > 1 {
      assert (a + b)[0] == a[0] && (a + b)[|a| - 1] == a[|a| - 1];
      LessTransitive(f, a[0], a[|a| - 1]);
    }
  }

  /** A name later than all goes to the end. */
  lemma AddedLast(l: seq<Name>, f: Name)
    requires Ascending(l + [f])
    ensures Added(l, f) == l + [f]
  {
    LaterIsNew(l, f);
    assert l + [] == l;
    assert Ascending(l) by {
      assert forall i :: 0 <= i < |l| ==> (l + [f])[i] == l[i];
    }
    InsertedSplit(l, [], f);
    assert Inserted([], f) == [f];
    if l != [] {
      LastIsLess(l, f);
    }
  }

  lemma LastIsLess(l: seq<Name>, f: Name)
    requires Ascending(l + [f]) && l != []
    ensures !Less(f, l[|l| - 1])
  {
    var n := |l| - 1;
    assert (l + [f])[n] == l[n] && (l + [f])[|l|] == f;
    LessAsymmetric(l[n], f);
  }

  lemma LaterIsNew(l: seq<Name>, f: Name)
    requires Ascending(l + [f])
    ensures f !in l
  {
    LessIrreflexive(f);
    assert (l + [f])[|l|] == f;
    assert forall i :: 0 <= i < |l| ==> (l + [f])[i] == l[i];
  }

  /** Files deleted once would be deleted again: cleaning up before and after a new file is as good as cleaning up
      after it. */
  lemma NewestAdded(l: seq<Name>, f: Name, size: nat)
    requires Ascending(l)
    ensures Newest(Added(Newest(l, size), f), size) == Newest(Added(l, f), size)
  {
    hide Less, Inserted;
    if |l| > size {
      var d, n := l[..|l| - size], l[|l| - size..];
      assert l == d + n;
      if f in n {
      } else if f in d {
        DeletedAgain(d, n, f);
      } else {
        InsertedSplit(d, n, f);
        InsertedMembers(d, f);
        InsertedMembers(n, f);
        if Less(f, d[|d| - 1]) {
          BeforeAll(d, n, f);
        }
      }
    }
  }

  lemma DeletedAgain(d: seq<Name>, n: seq<Name>, f: Name)
    requires Ascending(d + n) && f in d && f !in n
    ensures Inserted(n, f) == [f] + n
  {
    if n != [] {
      var i :| 0 <= i < |d| && d[i] == f;
      assert (d + n)[i] == f && (d + n)[|d|] == n[0];
    }
  }

  lemma BeforeAll(d: seq<Name>, n: seq<Name>, f: Name)
    requires Ascending(d + n) && d != [] && Less(f, d[|d| - 1])
    ensures Inserted(n, f) == [f] + n
  {
    if n != [] {
      assert (d + n)[|d| - 1] == d[|d| - 1] && (d + n)[|d|] == n[0];
      LessTransitive(f, d[|d| - 1], n[0]);
    }
  }

  lemma {:induction false} MergedListing(l: seq<Name>, names: seq<Name>)
    requires Ascending(l)
    ensures Ascending(Merged(l, names)) && |Merged(l, names)| <= |l| + |names|
    ensures forall f :: f in Merged(l, names) <==> f in l || f in names
    decreases |names|
  {
    hide Added;
    if names != [] {
      MergedListing(l, names[..|names| - 1]);
      AddedListing(Merged(l, names[..|names| - 1]), names[|names| - 1]);
      assert names == names[..|names| - 1] + [names[|names| - 1]];
    }
  }

  lemma {:induction false} MergedTwice(l: seq<Name>, a: seq<Name>, b: seq<Name>)
    ensures Merged(Merged(l, a), b) == Merged(l, a + b)
    decreases |b|
  {
    hide Added;
    if b == [] {
      assert a + b == a;
    } else {
      MergedTwice(l, a, b[..|b| - 1]);
      assert (a + b)[..|a + b| - 1] == a + b[..|b| - 1] && (a + b)[|a + b| - 1] == b[|b| - 1];
    }
  }

  lemma NewestListing(l: seq<Name>, size: int)
    requires Ascending(l)
    ensures Ascending(Newest(l, size))
  {
  }

  lemma {:induction false} NewestMerged(l: seq<Name>, names: seq<Name>, size: nat)
    requires Ascending(l)
    ensures Newest(Merged(Newest(l, size), names), size) == Newest(Merged(l, names), size)
    decreases |names|
  {
    hide Added, Less;
    if names == [] {
      NewestTwice(l, size);
    } else {
      var r, f := names[..|names| - 1], names[|names| - 1];
      NewestMerged(l, r, size);
      NewestListing(l, size);
      MergedListing(l, r);
      MergedListing(Newest(l, size), r);
      NewestAdded(Merged(l, r), f, size);
      NewestAdded(Merged(Newest(l, size), r), f, size);
    }
  }

  lemma NewestTwice(l: seq<Name>, size: nat)
    ensures Newest(Newest(l, size), size) == Newest(l, size)
  {
  }

  lemma {:induction false} NoneStuck(l: seq<Name>)
    ensures Only(l, {}) == []
  {
    if l != [] {
      NoneStuck(l[1..]);
    }
  }

  lemma CleanedFine(l: seq<Name>, size: int)
    ensures Cleaned(l, size, FINE) == Newest(l, size)
  {
    if size >= 0 {
      NoneStuck(l[..Max(|l| - size, 0)]);
      assert [] + Newest(l, size) == Newest(l, size);
    }
  }

  // ---- what a run leaves ----

  /** One iteration without failures. */
  lemma FineIteration(l: seq<Name>, name: Name, counter: nat, size: int, exceed: int)
    ensures Iterated(l, name, counter, size, exceed, FINE)
      == if Due(counter + 1, exceed) then Newest(Added(l, name), size) else Added(l, name)
  {
    CleanedFine(Added(l, name), size);
  }

  /** A clean-up without failures restores the bound, whatever failed before. */
  lemma Recovers(l: seq<Name>, name: Name, counter: nat, size: nat, exceed: int)
    requires Due(counter + 1, exceed)
    ensures |Iterated(l, name, counter, size, exceed, FINE)| <= size
  {
    FineIteration(l, name, counter, size, exceed);
  }

  /** What the run leaves: of the names of the first `cleaned` iterations, and those before, the greatest, and
      behind them all names since. */
  function Left(l: seq<Name>, names: seq<Name>, cleaned: nat, size: nat): seq<Name>
    requires cleaned <= |names|
  {
    Merged(Newest(Merged(l, names[..cleaned]), size), names[cleaned..])
  }

  lemma LeftMore(l: seq<Name>, names: seq<Name>, cleaned: nat, size: nat)
    requires Ascending(l) && cleaned < |names|
    ensures var n := |names| - 1;
            && Added(Left(l, names[..n], cleaned, size), names[n]) == Left(l, names, cleaned, size)
            && Newest(Left(l, names, cleaned, size), size) == Left(l, names, |names|, size)
  {
    hide Added, Newest;
    var n := |names| - 1;
    var a, b := names[..cleaned], names[cleaned..];
    assert names[..n][..cleaned] == a && names[..n][cleaned..] == b[..|b| - 1] && b[|b| - 1] == names[n];
    MergedListing(l, a);
    NewestMerged(Merged(l, a), b, size);
    MergedTwice(l, a, b);
    assert a + b == names && names[..|names|] == names && names[|names|..] == [];
  }

  lemma NoneCleaned(l: seq<Name>, names: seq<Name>, size: nat)
    requires Ascending(l) && |names| == 1
    ensures Newest(Added(l, names[0]), size) == Left(l, names, 1, size)
  {
    hide Added, Newest;
    assert names[..0] == [] && names[..1] == names && names[1..] == [];
    assert Merged(l, names) == Added(Merged(l, names[..0]), names[0]);
  }

  /** For names in any order: a run without failures leaves the greatest `size` of the names there were at the last
      clean-up, and all names since; at most size + exceed files in all. */
  lemma {:induction false} SurvivorsAreGreatest(l: seq<Name>, names: seq<Name>, luck: seq<Luck>, size: nat, exceed: int)
    requires Ascending(l) && names != [] && |luck| == |names| && AllFine(luck)
    ensures Slack(|names|, exceed) <= Max(exceed, 0) && Slack(|names|, exceed) < |names|
    ensures var kept := AfterRun(l, names, luck, size, exceed);
            kept == Left(l, names, |names| - Slack(|names|, exceed), size) && |kept| <= size + Max(exceed, 0)
    decreases |names|
  {
    hide Slack, Due, Iterated, Left, Merged, Newest, Added;
    var n := |names| - 1;
    var before := AfterRun(l, names[..n], luck[..n], size, exceed);
    assert luck[n] == FINE;
    FineIteration(before, names[n], n, size, exceed);
    FirstIteration(exceed);
    if n == 0 {
      NoneCleaned(l, names, size);
    } else {
      SurvivorsAreGreatest(l, names[..n], luck[..n], size, exceed);
      SlackStep(n, exceed);
      SlackStep(n + 1, exceed);
      LeftMore(l, names, n - Slack(n, exceed), size);
    }
    LeftSize(l, names, |names| - Slack(|names|, exceed), size);
  }

  lemma LeftSize(l: seq<Name>, names: seq<Name>, cleaned: nat, size: nat)
    requires Ascending(l) && cleaned <= |names|
    ensures |Left(l, names, cleaned, size)| <= size + (|names| - cleaned)
  {
    MergedListing(l, names[..cleaned]);
    NewestListing(Merged(l, names[..cleaned]), size);
    MergedListing(Newest(Merged(l, names[..cleaned]), size), names[cleaned..]);
  }

  /** What one iteration makes of the newest files. */
  lemma IterationKeepsNewest(all: seq<Name>, l: seq<Name>, name: Name, counter: nat, size: nat, exceed: int)
    requires Ascending(all + [name]) && |l| <= |all| && l == all[|all| - |l|..]
    ensures var kept := Iterated(l, name, counter, size, exceed, FINE);
            && |kept| == (if Due(counter + 1, exceed) then Min(|l| + 1, size) else |l| + 1) <= |all| + 1
            && kept == (all + [name])[|all| + 1 - |kept|..]
  {
    hide Less, Due, Added;
    FineIteration(l, name, counter, size, exceed);
    assert l + [name] == (all + [name])[|all| - |l|..];
    AddedLast(l, name);
  }

  lemma OneName(l: seq<Name>, names: seq<Name>)
    requires Ascending(l + names) && names != []
    ensures var n := |names| - 1;
            l + names == l + names[..n] + [names[n]] && Ascending(l + names[..n])
  {
    hide Less;
    var n := |names| - 1;
    assert l + names == l + names[..n] + [names[n]];
    assert l + names[..n] == (l + names)[..|l| + n];
  }

  /** For names that ascend these are the newest files, and their exact number is known. */
  lemma {:induction false} SurvivorsAreNewest(l: seq<Name>, names: seq<Name>, luck: seq<Luck>, size: nat, exceed: int)
    requires Ascending(l + names) && names != [] && |luck| == |names| && AllFine(luck)
    ensures var all, kept := l + names, AfterRun(l, names, luck, size, exceed);
            && |kept| == Min(|all|, size + Slack(|names|, exceed)) <= size + Max(exceed, 0)
            && kept == all[|all| - |kept|..]
    decreases |names|
  {
    hide Slack, Due, Iterated, Less, Added, Ascending;
    var n := |names| - 1;
    var before := AfterRun(l, names[..n], luck[..n], size, exceed);
    OneName(l, names);
    assert luck[n] == FINE;
    FirstIteration(exceed);
    if n > 0 {
      SurvivorsAreNewest(l, names[..n], luck[..n], size, exceed);
      SlackStep(n, exceed);
      SlackStep(n + 1, exceed);
    }
    IterationKeepsNewest(l + names[..n], before, names[n], n, size, exceed);
  }

  /** With room for one file, the picture with counter 1000000000 is deleted as soon as it is stored, and the older
      999999999 stays. */
  lemma NewFileLost(time: Time, exceed: int)
    requires |time| == 6 && exceed <= 0
    ensures var older, newer := PictureName(time, FULL - 1), PictureName(time, FULL);
            Iterated([older], newer, FULL, 1, exceed, FINE) == [older]
  {
    hide PictureName, Less;
    var older, newer := PictureName(time, FULL - 1), PictureName(time, FULL);
    WrongOrder(time);
    LessIrreflexive(older);
    FineIteration([older], newer, FULL, 1, exceed);
    assert Added([older], newer) == [newer, older];
    assert [newer, older][1..] == [older];
  }

  // ---- the worker ----

  class Worker {
    var files: set<Name>
    var counter: nat
    const size: int
    const exceed: int
    const ours: Name -> bool

    constructor (files: set<Name>, size: int, exceed: int, ours: Name -> bool)
      ensures this.files == files && counter == 0
      ensures this.size == size && this.exceed == exceed && this.ours == ours
    {
      this.files, this.size, this.exceed, this.ours := files, size, exceed, ours;
      counter := 0;
    }

    /** maintain_ringbuffer(keep): n and namelist are scandir's results; unlink fails on `stuck`.
        The indices of namelist are freed in the order `freed`. */
    method MaintainRingbuffer(keep: int, n: int, namelist: seq<Name>, stuck: set<Name>)
      returns (ghost freed: seq<nat>)
      requires keep >= 0 && n >= 0 ==> n == |namelist| && IsListing(namelist, files, ours)
      modifies this`files
      ensures keep < 0 || n < 0 ==> files == old(files) && freed == []
      ensures keep >= 0 && n >= 0 ==>
                && files == old(files) - (set f | f in namelist[..Max(n - keep, 0)] && f !in stuck)
                && freed == seq(n, i => i)
    {
      freed := [];
      if keep < 0 {
        return;
      }
      if n < 0 {
        return;
      }
      var i := 0;
      while i < n - keep
        invariant 0 <= i <= Max(n - keep, 0) && freed == seq(i, k => k)
        invariant files == old(files) - (set f | f in namelist[..i] && f !in stuck)
      {
        assert namelist[..i + 1] == namelist[..i] + [namelist[i]];
        if namelist[i] !in stuck {
          files := files - {namelist[i]};
        }
        freed := freed + [i];
        i := i + 1;
      }
      i := Max(n - keep, 0);
      while i < n
        invariant Max(n - keep, 0) <= i <= n && freed == seq(i, k => k)
      {
        freed := freed + [i];
        i := i + 1;
      }
    }

    /** scandir with alphasort, when it succeeds. */
    method Scandir() returns (namelist: seq<Name>)
      ensures IsListing(namelist, files, ours)
    {
      namelist := [];
      var rest := files;
      while rest != {}
        invariant rest <= files && Ascending(namelist)
        invariant forall f :: f in namelist <==> f in files - rest && ours(f)
        decreases |rest|
      {
        var f :| f in rest;
        rest := rest - {f};
        if ours(f) {
          InsertedListing(namelist, f);
          namelist := Inserted(namelist, f);
        }
      }
    }

    /** One iteration for a frame stored under any name of the plugin's. */
    method StoreFrame(name: Name, luck: Luck, ghost l: seq<Name>)
      requires IsListing(l, files, ours) && ours(name)
      modifies this
      ensures counter == old(counter) + 1
      ensures IsListing(Iterated(l, name, old(counter), size, exceed, luck), files, ours)
      ensures forall f :: !ours(f) ==> (f in files <==> f in old(files))
    {
      hide IsListing, Less, Added, Cleaned;
      counter := counter + 1;
      files := files + {name};
      AddedFile(l, name, old(files), ours);
      if exceed <= 0 {
        CleanUp(Added(l, name), luck);
      } else if counter == 1 || counter % (exceed + 1) == 0 {
        CleanUp(Added(l, name), luck);
      }
    }

    method CleanUp(ghost l: seq<Name>, luck: Luck)
      requires IsListing(l, files, ours)
      modifies this`files
      ensures IsListing(Cleaned(l, size, luck), files, ours)
      ensures forall f :: !ours(f) ==> (f in files <==> f in old(files))
    {
      hide Less, Only;
      var namelist := Scandir();
      OneListing(l, namelist);
      var freed := MaintainRingbuffer(size, if luck.listed then |namelist| else -1, namelist, luck.stuck);
      if size >= 0 && luck.listed {
        CleanedListing(l, Max(|l| - size, 0), old(files), luck.stuck, ours);
      }
    }

    /** The worker's loop over the frames of a run, folders being what the folder holds after each, for any names
        and any failures. */
    method StoreAll(names: seq<Name>, luck: seq<Luck>, ghost l: seq<Name>) returns (ghost folders: seq<set<Name>>)
      requires counter == 0 && IsListing(l, files, ours) && |luck| == |names|
      requires forall i :: 0 <= i < |names| ==> ours(names[i])
      modifies this
      ensures counter == |folders| == |names|
      ensures forall i :: 0 <= i < |names| ==> Survivors(l, names[..i + 1], luck[..i + 1], folders[i])
      ensures forall f :: !ours(f) ==> (f in files <==> f in old(files))
    {
      hide IsListing, Less, AfterRun, Iterated, Left, Slack;
      folders := [];
      var i := 0;
      ghost var kept := l;
      assert names[..0] == [] && luck[..0] == [];
      NoRun(l, size, exceed);
      while i < |names|
        invariant 0 <= i <= |names| && counter == i == |folders|
        invariant kept == AfterRun(l, names[..i], luck[..i], size, exceed) && IsListing(kept, files, ours)
        invariant forall k :: 0 <= k < i ==> Survivors(l, names[..k + 1], luck[..k + 1], folders[k])
        invariant forall f :: !ours(f) ==> (f in files <==> f in old(files))
      {
        StoreFrame(names[i], luck[i], kept);
        RunMore(l, names, luck, i, size, exceed);
        kept := AfterRun(l, names[..i + 1], luck[..i + 1], size, exceed);
        folders := folders + [files];
        ListingAscends(l, old(files), ours);
        if size >= 0 && AllFine(luck[..i + 1]) {
          SurvivorsAreGreatest(l, names[..i + 1], luck[..i + 1], size, exceed);
        }
        i := i + 1;
      }
    }

    /** This folder holds, of the plugin's files, those the run leaves, and within the bound if nothing failed. */
    ghost predicate Survivors(l: seq<Name>, names: seq<Name>, luck: seq<Luck>, folder: set<Name>)
      requires |luck| == |names|
    {
      var kept := AfterRun(l, names, luck, size, exceed);
      IsListing(kept, folder, ours) && (size >= 0 && AllFine(luck) ==> |kept| <= size + Max(exceed, 0))
    }
  }

  lemma ListingAscends(l: seq<Name>, files: set<Name>, ours: Name -> bool)
    requires IsListing(l, files, ours)
    ensures Ascending(l)
  {
  }

  lemma NoRun(l: seq<Name>, size: int, exceed: int)
    ensures AfterRun(l, [], [], size, exceed) == l
  {
  }

  lemma RunMore(l: seq<Name>, names: seq<Name>, luck: seq<Luck>, i: nat, size: int, exceed: int)
    requires i < |names| == |luck|
    ensures AfterRun(l, names[..i + 1], luck[..i + 1], size, exceed)
      == Iterated(AfterRun(l, names[..i], luck[..i], size, exceed), names[i], i, size, exceed, luck[i])
  {
    assert names[..i + 1][..i] == names[..i] && luck[..i + 1][..i] == luck[..i];
  }

  lemma AddedFile(l: seq<Name>, name: Name, files: set<Name>, ours: Name -> bool)
    requires IsListing(l, files, ours) && ours(name)
    ensures IsListing(Added(l, name), files + {name}, ours)
  {
    AddedListing(l, name);
  }

  lemma {:induction false} OnlyMembers(a: seq<Name>, stuck: set<Name>)
    ensures forall f :: f in Only(a, stuck) <==> f in a && f in stuck
    decreases |a|
  {
    if a != [] {
      OnlyMembers(a[1..], stuck);
      assert a == [a[0]] + a[1..];
    }
  }

  lemma {:induction false} OnlyAscends(a: seq<Name>, b: seq<Name>, stuck: set<Name>)
    requires Ascending(a + b)
    ensures Ascending(Only(a, stuck) + b)
    decreases |a|
  {
    hide Less;
    if a == [] {
      assert a + b == b && [] + b == b;
    } else {
      assert (a + b)[1..] == a[1..] + b;
      OnlyAscends(a[1..], b, stuck);
      OnlyMembers(a[1..], stuck);
      var r := Only(a[1..], stuck) + b;
      assert forall i :: 0 <= i < |r| ==> r[i] in a[1..] + b;
      forall i | 0 <= i < |r|
        ensures Less(a[0], r[i])
      {
        var k :| 0 <= k < |a[1..] + b| && (a[1..] + b)[k] == r[i];
        assert (a + b)[k + 1] == r[i] && (a + b)[0] == a[0];
      }
      assert [a[0]] + Only(a[1..], stuck) + b == [a[0]] + r;
      assert [] + Only(a[1..], stuck) + b == r;
    }
  }

  lemma CleanedListing(l: seq<Name>, k: nat, files: set<Name>, stuck: set<Name>, ours: Name -> bool)
    requires IsListing(l, files, ours) && k <= |l|
    ensures IsListing(Only(l[..k], stuck) + l[k..], files - (set f | f in l[..k] && f !in stuck), ours)
  {
    assert l == l[..k] + l[k..];
    OnlyAscends(l[..k], l[k..], stuck);
    OnlyMembers(l[..k], stuck);
    SuffixMembers(l, k);
  }

  lemma SuffixMembers(l: seq<Name>, k: nat)
    requires Ascending(l) && k <= |l|
    ensures forall f :: f in l[k..] <==> f in l && f !in l[..k]
  {
    forall f
      ensures f in l[k..] <==> f in l && f !in l[..k]
    {
      LessIrreflexive(f);
      assert l == l[..k] + l[k..];
    }
  }
}
