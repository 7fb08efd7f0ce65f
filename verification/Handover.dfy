/** Hand-over of frames: one producer overwrites the global buffer under a mutex and broadcasts; any
    number of consumers wait, copy and release. A step system with the lock, the condition variable
    and copying in pieces made explicit. */
module Handover {
  import opened Words
  import opened Wrappers

  type Frame = seq<Byte>

  datatype Owner = Free | Producer | Consumer(id: nat)

  /** Where the producer is: outside the lock, writing (so many bytes of the frame are in the buffer),
      size stored, broadcast done. */
  datatype Making = Idle | Writing(offset: nat) | Stored | Announced

  /** Where a consumer is: outside the lock, inside before pthread_cond_wait, waiting, woken but
      without the lock, holding it again, copying (so many bytes done). */
  datatype Place = Outside | Entered | Waiting | Woken | Holding | Copying(done: nat)

  datatype Copy = Copy(number: nat, data: Frame)

  /** A consumer's local buffer (contents and capacity), the size it read, and its finished copies:
      publication number and contents. */
  datatype Reader = Reader(place: Place, frame: Frame, capacity: nat, frameSize: nat, copies: seq<Copy>)

  /** buf and size are the shared frame; frames lists every publication, frames[0] being the empty
      frame before the first. */
  datatype World =
    World(buf: Frame, size: nat, owner: Owner, making: Making, frames: seq<Frame>, readers: seq<Reader>)

  function Latest(w: World): nat
    requires |w.frames| > 0
  {
    |w.frames| - 1
  }

  // ---- steps ----

  datatype Step =
    | Lock
    | Write(data: seq<Byte>)
    | StoreSize
    | Broadcast
    | Unlock
    | Enter(i: nat)
    | Wait(i: nat)
    | Spurious(i: nat)
    | Reacquire(i: nat)
    | ReadSize(i: nat)
    | CopyByte(i: nat)
    | Leave(i: nat)

  /** realloc keeps a spare margin. */
  const TEN_K: nat := 10240

  function Rewoken(readers: seq<Reader>): (r: seq<Reader>)
    ensures |r| == |readers|
    ensures forall i :: 0 <= i < |r| ==>
              r[i] == if readers[i].place == Waiting then readers[i].(place := Woken) else readers[i]
  {
    seq(|readers|, i requires 0 <= i < |readers| =>
      if readers[i].place == Waiting then readers[i].(place := Woken) else readers[i])
  }

  predicate ProducerCan(w: World, s: Step) {
    match s
    case Lock => w.making == Idle && w.owner == Free
    case Write(data) => w.making.Writing? && w.making.offset + |data| <= |w.buf|
    case StoreSize => w.making.Writing?
    case Broadcast => w.making == Stored
    case Unlock => w.making == Announced
    case _ => false
  }

  function ProducerDoes(w: World, s: Step): World
    requires ProducerCan(w, s)
  {
    match s
    case Lock => w.(owner := Producer, making := Writing(0))
    case Write(data) =>
      var n := w.making.offset;
      w.(buf := w.buf[..n] + data + w.buf[n + |data|..], making := Writing(n + |data|))
    case StoreSize =>
      var n := w.making.offset;
      if n <= |w.buf| then w.(size := n, frames := w.frames + [w.buf[..n]], making := Stored) else w
    case Broadcast => w.(readers := Rewoken(w.readers), making := Announced)
    case Unlock => w.(owner := Free, making := Idle)
  }

  predicate ReaderCan(w: World, r: Reader, s: Step) {
    match s
    case Enter(i) => r.place == Outside && w.owner == Free
    case Wait(i) => r.place == Entered
    case Spurious(i) => r.place == Waiting
    case Reacquire(i) => r.place == Woken && w.owner == Free
    case ReadSize(i) => r.place == Holding
    case CopyByte(i) => r.place.Copying? && r.place.done < r.frameSize
    case Leave(i) => r.place.Copying? && r.place.done == r.frameSize
    case _ => false
  }

  function OwnerAfter(w: World, s: Step): Owner {
    match s
    case Enter(i) => Consumer(i)
    case Reacquire(i) => Consumer(i)
    case Wait(i) => Free
    case Leave(i) => Free
    case _ => w.owner
  }

  function ReaderDoes(w: World, r: Reader, s: Step): Reader
    requires |w.frames| > 0
  {
    match s
    case Enter(i) => r.(place := Entered)
    case Wait(i) => r.(place := Waiting)
    case Spurious(i) => r.(place := Woken)
    case Reacquire(i) => r.(place := Holding)
    case ReadSize(i) =>
      r.(place := Copying(0), frameSize := w.size, frame := [],
         capacity := if w.size > r.capacity then w.size + TEN_K else r.capacity)
    case CopyByte(i) =>
      if r.place.Copying? && r.place.done < |w.buf|
      then r.(place := Copying(r.place.done + 1), frame := r.frame + [w.buf[r.place.done]]) else r
    case Leave(i) => r.(place := Outside, copies := r.copies + [Copy(Latest(w), r.frame)])
    case _ => r
  }

  function Index(s: Step): Option<nat> {
    match s
    case Enter(i) => Some(i)
    case Wait(i) => Some(i)
    case Spurious(i) => Some(i)
    case Reacquire(i) => Some(i)
    case ReadSize(i) => Some(i)
    case CopyByte(i) => Some(i)
    case Leave(i) => Some(i)
    case _ => None
  }

  predicate Can(w: World, s: Step)
  {
    |w.frames| > 0 &&
    match Index(s)
    case None => ProducerCan(w, s)
    case Some(i) => i < |w.readers| && ReaderCan(w, w.readers[i], s)
  }

  function Do(w: World, s: Step): World
    requires Can(w, s)
  {
    match Index(s)
    case None => ProducerDoes(w, s)
    case Some(i) => w.(readers := w.readers[i := ReaderDoes(w, w.readers[i], s)], owner := OwnerAfter(w, s))
  }

  /** Before anything happened: nobody in the lock, an empty frame, consumers without buffers. */
  ghost predicate Initial(w: World) {
    w.size == 0 && w.owner == Free && w.making == Idle && w.frames == [[]]
    && forall i :: 0 <= i < |w.readers| ==> w.readers[i] == Reader(Outside, [], 0, 0, [])
  }

  /** The states of a run from an initial one. */
  ghost predicate Run(ws: seq<World>, steps: seq<Step>) {
    Path(ws, steps) && Initial(ws[0])
  }

  ghost predicate Path(ws: seq<World>, steps: seq<Step>) {
    && |ws| == |steps| + 1
    && forall k :: 0 <= k < |steps| ==> Can(ws[k], steps[k]) && ws[k + 1] == Do(ws[k], steps[k])
  }

  /** Only these consumers wake up spuriously. */
  predicate Allowed(s: Step, spurious: set<nat>) { s.Spurious? ==> s.i in spurious }

  // ---- invariant ----

  predicate InLock(p: Place) { p == Entered || p == Holding || p.Copying? }

  /** The producer's side: it is in the lock exactly while making a frame, and outside its writes the
      buffer starts with the latest publication. */
  ghost predicate ProducerInv(w: World) {
    && |w.frames| > 0 && w.frames[0] == []
    && (w.making == Idle <==> w.owner != Producer)
    && (w.making.Writing? ==> w.making.offset <= |w.buf|)
    && (!w.making.Writing? ==> w.size <= |w.buf| && w.buf[..w.size] == w.frames[Latest(w)])
  }

  /** The number of the last copy; 0, the placeholder's, before the first. */
  function LastNumber(r: Reader): nat { if r.copies == [] then 0 else r.copies[|r.copies| - 1].number }

  ghost predicate CopiesTrue(r: Reader, frames: seq<Frame>) {
    forall k :: 0 <= k < |r.copies| ==> r.copies[k].number < |frames| && r.copies[k].data == frames[r.copies[k].number]
  }

  /** Without spurious wake-ups publication numbers strictly increase from 1 on; with them they never decrease. */
  ghost predicate Ordered(r: Reader, spurious: bool) {
    && (forall k :: 0 < k < |r.copies| ==>
          if spurious then r.copies[k - 1].number <= r.copies[k].number
          else r.copies[k - 1].number < r.copies[k].number)
    && (!spurious && r.copies != [] ==> r.copies[0].number >= 1)
  }

  /** A consumer that is about to copy will copy something newer than its last copy. */
  ghost predicate Fresh(r: Reader, w: World, spurious: bool)
    requires |w.frames| > 0
  {
    && LastNumber(r) <= Latest(w)
    && (!spurious && (r.place == Woken || r.place == Holding || r.place.Copying?) ==> LastNumber(r) < Latest(w))
    && (!spurious && r.place == Waiting && w.making == Stored ==> LastNumber(r) < Latest(w))
  }

  ghost predicate ReaderInv(w: World, i: nat, r: Reader, spurious: bool)
    requires |w.frames| > 0
  {
    && (InLock(r.place) <==> w.owner == Consumer(i))
    && CopiesTrue(r, w.frames) && Ordered(r, spurious) && Fresh(r, w, spurious)
    && (r.place.Copying? ==>
          && r.frameSize == w.size <= r.capacity && r.place.done <= r.frameSize <= |w.buf|
          && r.frame == w.buf[..r.place.done])
  }

  ghost predicate Inv(w: World, spurious: set<nat>) {
    && ProducerInv(w)
    && (forall i :: 0 <= i < |w.readers| ==> ReaderInv(w, i, w.readers[i], i in spurious))
    && (w.owner.Consumer? ==> w.owner.id < |w.readers|)
  }

  // ---- every step keeps it ----

  lemma ProducerKeepsReader(w: World, s: Step, i: nat, spurious: set<nat>)
    requires Inv(w, spurious) && Index(s) == None && Can(w, s) && Allowed(s, spurious) && i < |w.readers|
    ensures var w' := Do(w, s); |w'.frames| > 0 && i < |w'.readers| && ReaderInv(w', i, w'.readers[i], i in spurious)
  {
    var w', r := Do(w, s), w.readers[i];
    assert ReaderInv(w, i, r, i in spurious);
    assert forall k :: 0 <= k < |w.frames| ==> w'.frames[k] == w.frames[k];
  }

  lemma ProducerKeeps(w: World, s: Step, spurious: set<nat>)
    requires Inv(w, spurious) && Index(s) == None && Can(w, s) && Allowed(s, spurious)
    ensures Inv(Do(w, s), spurious)
  {
    var w' := Do(w, s);
    assert ProducerInv(w') by {
      hide ReaderInv;
      if s.Write? {
        assert w'.buf[..w'.making.offset] == w.buf[..w.making.offset] + s.data;
      }
    }
    forall i | 0 <= i < |w'.readers|
      ensures ReaderInv(w', i, w'.readers[i], i in spurious)
    {
      ProducerKeepsReader(w, s, i, spurious);
    }
  }

  lemma SelfKept(w: World, s: Step, i: nat, spurious: set<nat>)
    requires Inv(w, spurious) && Index(s) == Some(i) && Can(w, s) && Allowed(s, spurious)
    ensures var w' := Do(w, s); ReaderInv(w', i, w'.readers[i], i in spurious)
  {
    var w', r := Do(w, s), w.readers[i];
    assert ReaderInv(w, i, r, i in spurious);
    if s.CopyByte? {
      assert w.buf[..r.place.done + 1] == w.buf[..r.place.done] + [w.buf[r.place.done]];
    }
    if s.Leave? {
      assert r.frame == w.buf[..w.size];
    }
  }

  lemma OtherKept(w: World, s: Step, i: nat, k: nat, spurious: set<nat>)
    requires Inv(w, spurious) && Index(s) == Some(i) && Can(w, s) && Allowed(s, spurious) && k < |w.readers| && k != i
    ensures var w' := Do(w, s); ReaderInv(w', k, w'.readers[k], k in spurious)
  {
    var r := w.readers[k];
    assert ReaderInv(w, k, r, k in spurious);
    assert ReaderInv(w, i, w.readers[i], i in spurious);
  }

  lemma ReaderKeeps(w: World, s: Step, i: nat, spurious: set<nat>)
    requires Inv(w, spurious) && Index(s) == Some(i) && Can(w, s) && Allowed(s, spurious)
    ensures Inv(Do(w, s), spurious)
  {
    hide CopiesTrue, Ordered, Fresh;
    var w' := Do(w, s);
    assert ReaderInv(w, i, w.readers[i], i in spurious);
    forall k | 0 <= k < |w'.readers|
      ensures ReaderInv(w', k, w'.readers[k], k in spurious)
    {
      if k == i { SelfKept(w, s, i, spurious); } else { OtherKept(w, s, i, k, spurious); }
    }
  }

  lemma InitialInv(w: World, spurious: set<nat>)
    requires Initial(w)
    ensures Inv(w, spurious)
  {
  }

  lemma StepKeeps(w: World, s: Step, spurious: set<nat>)
    requires Inv(w, spurious) && Can(w, s) && Allowed(s, spurious)
    ensures Inv(Do(w, s), spurious)
  {
    hide Inv;
    match Index(s) {
      case None => ProducerKeeps(w, s, spurious);
      case Some(i) => ReaderKeeps(w, s, i, spurious);
    }
  }

  lemma {:induction false} RunInv(ws: seq<World>, steps: seq<Step>, spurious: set<nat>, k: nat)
    requires Run(ws, steps) && k < |ws| && forall j :: 0 <= j < k ==> Allowed(steps[j], spurious)
    ensures Inv(ws[k], spurious)
    decreases k
  {
    hide Can, Do, Inv;
    if k == 0 {
      InitialInv(ws[0], spurious);
    } else {
      RunInv(ws, steps, spurious, k - 1);
      StepKeeps(ws[k - 1], steps[k - 1], spurious);
    }
  }

  /** The consumers that woke up spuriously in the first k steps. */
  function Disturbed(steps: seq<Step>, k: nat): set<nat>
    requires k <= |steps|
  {
    set j | 0 <= j < k && steps[j].Spurious? :: steps[j].i
  }

  lemma RunInvAt(ws: seq<World>, steps: seq<Step>, k: nat)
    requires Run(ws, steps) && k < |ws|
    ensures Inv(ws[k], Disturbed(steps, k))
  {
    hide Can, Do, Inv;
    RunInv(ws, steps, Disturbed(steps, k), k);
  }

  // ---- what it means ----

  /** In every state of every run: each finished copy is one whole entry of the list of publications, and a
      published one unless its number is 0. A consumer that has not woken up spuriously has published copies only,
      with strictly increasing numbers; any consumer's numbers never decrease. While copying, the frame fits both
      buffers. */
  lemma HandOver(ws: seq<World>, steps: seq<Step>, k: nat, i: nat)
    requires Run(ws, steps) && k < |ws| && i < |ws[k].readers|
    ensures var r, frames := ws[k].readers[i], ws[k].frames;
            && (forall c :: 0 <= c < |r.copies| ==>
                  && r.copies[c].number < |frames| && r.copies[c].data == frames[r.copies[c].number]
                  && (i !in Disturbed(steps, k) ==> r.copies[c].number >= 1))
            && (forall c, d :: 0 <= c < d < |r.copies| ==>
                  if i in Disturbed(steps, k) then r.copies[c].number <= r.copies[d].number
                  else r.copies[c].number < r.copies[d].number)
            && (r.place.Copying? ==>
                  |r.frame| == r.place.done <= r.frameSize <= r.capacity && r.frameSize <= |ws[k].buf|)
  {
    assert k <= |steps|;
    hide Can, Do, Run;
    RunInvAt(ws, steps, k);
    var r, spurious := ws[k].readers[i], i in Disturbed(steps, k);
    assert ReaderInv(ws[k], i, r, spurious);
    forall c, d | 0 <= c < d < |r.copies|
      ensures if spurious then r.copies[c].number <= r.copies[d].number
              else r.copies[c].number < r.copies[d].number
    {
      OrderedPair(r, spurious, c, d);
    }
    forall c | 0 <= c < |r.copies|
      ensures !spurious ==> r.copies[c].number >= 1
    {
      if c > 0 {
        OrderedPair(r, spurious, 0, c);
      }
    }
  }

  lemma {:induction false} OrderedPair(r: Reader, spurious: bool, c: nat, d: nat)
    requires Ordered(r, spurious) && c < d < |r.copies|
    ensures if spurious then r.copies[c].number <= r.copies[d].number else r.copies[c].number < r.copies[d].number
    decreases d
  {
    if c < d - 1 {
      OrderedPair(r, spurious, c, d - 1);
    }
  }

  /** The lock is exclusive: two parties are never in it together. */
  lemma Exclusive(ws: seq<World>, steps: seq<Step>, k: nat, i: nat, j: nat)
    requires Run(ws, steps) && k < |ws| && i < |ws[k].readers| && j < |ws[k].readers|
    requires InLock(ws[k].readers[i].place)
    ensures ws[k].making == Idle && (InLock(ws[k].readers[j].place) ==> i == j)
  {
    assert k <= |steps|;
    hide Can, Do, Run;
    RunInvAt(ws, steps, k);
    assert ReaderInv(ws[k], i, ws[k].readers[i], i in Disturbed(steps, k));
    assert ReaderInv(ws[k], j, ws[k].readers[j], j in Disturbed(steps, k));
  }

  // ---- whom a publication wakes ----

  /** In every run a broadcast wakes every consumer that waits, and touches no other. */
  lemma BroadcastWakesAll(ws: seq<World>, steps: seq<Step>, k: nat)
    requires Run(ws, steps) && k < |steps| && steps[k] == Broadcast
    ensures |ws[k + 1].readers| == |ws[k].readers|
    ensures forall i :: 0 <= i < |ws[k].readers| ==>
              && (ws[k].readers[i].place == Waiting ==>
                    ws[k + 1].readers[i] == ws[k].readers[i].(place := Woken))
              && (ws[k].readers[i].place != Waiting ==> ws[k + 1].readers[i] == ws[k].readers[i])
              && ws[k + 1].readers[i].place != Waiting
    ensures ws[k + 1].frames == ws[k].frames && ws[k + 1].buf == ws[k].buf && ws[k + 1].size == ws[k].size
  {
    assert Can(ws[k], steps[k]) && ws[k + 1] == Do(ws[k], steps[k]);
  }

  /** A woken consumer stays so until it takes the lock again, which it can whenever the lock is free. */
  lemma WokenKept(w: World, s: Step, i: nat)
    requires i < |w.readers| && w.readers[i].place == Woken && Can(w, s) && s != Reacquire(i)
    ensures i < |Do(w, s).readers| && Do(w, s).readers[i] == w.readers[i]
    ensures w.owner == Free ==> Can(w, Reacquire(i))
  {
  }

  lemma {:induction false} WokenUntil(ws: seq<World>, steps: seq<Step>, i: nat, a: nat, b: nat)
    requires Path(ws, steps) && a <= b <= |steps| && i < |ws[a].readers| && ws[a].readers[i].place == Woken
    requires forall k :: a <= k < b ==> steps[k] != Reacquire(i)
    ensures i < |ws[b].readers| && ws[b].readers[i] == ws[a].readers[i]
    ensures ws[b].owner == Free && |ws[b].frames| > 0 ==> Can(ws[b], Reacquire(i))
    decreases b
  {
    hide Do;
    if a < b {
      WokenUntil(ws, steps, i, a, b - 1);
      WokenKept(ws[b - 1], steps[b - 1], i);
    }
  }

  /** From the broadcast on until it does so, the consumer can take the lock again whenever it is free. */
  lemma CanReacquire(ws: seq<World>, steps: seq<Step>, i: nat, k: nat, j: nat)
    requires Run(ws, steps) && k < j <= |steps| && steps[k] == Broadcast
    requires i < |ws[k].readers| && ws[k].readers[i].place == Waiting
    requires forall m :: k < m < j ==> steps[m] != Reacquire(i)
    ensures i < |ws[j].readers| && ws[j].readers[i] == ws[k].readers[i].(place := Woken)
    ensures ws[j].owner == Free ==> Can(ws[j], Reacquire(i))
  {
    hide Can, Do;
    BroadcastWakesAll(ws, steps, k);
    WokenUntil(ws, steps, i, k + 1, j);
    SomeFrame(ws, steps, j);
  }

  /** Without a new Lock nothing is published behind a broadcast. */
  predicate Announcing(w: World) { w.making == Announced || w.making == Idle }

  lemma AnnouncingKept(w: World, s: Step)
    requires Announcing(w) && Can(w, s) && s != Lock
    ensures Announcing(Do(w, s)) && s != StoreSize && Do(w, s).frames == w.frames
  {
  }

  lemma {:induction false} AnnouncingUntil(ws: seq<World>, steps: seq<Step>, a: nat, b: nat)
    requires Path(ws, steps) && a <= b <= |steps| && Announcing(ws[a])
    requires forall k :: a <= k < b ==> steps[k] != Lock
    ensures Announcing(ws[b]) && ws[b].frames == ws[a].frames
    decreases b
  {
    hide Can, Do, Announcing;
    if a < b {
      AnnouncingUntil(ws, steps, a, b - 1);
      AnnouncingKept(ws[b - 1], steps[b - 1]);
    }
  }

  /** From taking the lock to Leave the consumer is in it, so the producer cannot lock. */
  predicate Inside(w: World, i: nat) {
    i < |w.readers| && w.owner == Consumer(i) && (w.readers[i].place == Holding || w.readers[i].place.Copying?)
  }

  lemma InsideKept(w: World, s: Step, i: nat, spurious: set<nat>)
    requires Inv(w, spurious) && Inside(w, i) && Can(w, s) && s != Leave(i)
    ensures Inside(Do(w, s), i) && s != Lock
  {
    if Index(s).Some? {
      var j := Index(s).value;
      assert ReaderInv(w, j, w.readers[j], j in spurious);
    }
  }

  lemma {:induction false} InsideUntil(ws: seq<World>, steps: seq<Step>, i: nat, a: nat, b: nat)
    requires Run(ws, steps) && a <= b <= |steps| && Inside(ws[a], i)
    requires forall k :: a <= k < b ==> steps[k] != Leave(i)
    ensures Inside(ws[b], i) && forall k :: a <= k < b ==> steps[k] != Lock
    decreases b
  {
    hide Can, Do, Inside, Inv;
    if a < b {
      InsideUntil(ws, steps, i, a, b - 1);
      RunInvAt(ws, steps, b - 1);
      InsideKept(ws[b - 1], steps[b - 1], i, Disturbed(steps, b - 1));
    }
  }

  /** Delivery: a consumer that waits when publication n is broadcast, at step k, and takes the lock again, at
      step r, before the producer does, has publication n as its next copy, finished at step b. */
  lemma Delivered(ws: seq<World>, steps: seq<Step>, i: nat, k: nat, r: nat, b: nat)
    requires Run(ws, steps) && k < r < b < |steps| && steps[k] == Broadcast
    requires i < |ws[k].readers| && ws[k].readers[i].place == Waiting
    requires steps[r] == Reacquire(i) && forall j :: k < j < r ==> steps[j] != Reacquire(i) && steps[j] != Lock
    requires steps[b] == Leave(i) && forall j :: k < j < b ==> steps[j] != Leave(i)
    ensures |ws[k].frames| > 0 && i < |ws[b + 1].readers|
    ensures ws[b + 1].readers[i].copies
      == ws[k].readers[i].copies + [Copy(Latest(ws[k]), ws[k].frames[Latest(ws[k])])]
  {
    hide Can, Do, Inv, Announcing, Inside;
    BroadcastWakesAll(ws, steps, k);
    BroadcastAnnounces(ws[k]);
    WokenUntil(ws, steps, i, k + 1, r);
    Reacquired(ws[r], i);
    InsideUntil(ws, steps, i, r + 1, b);
    AnnouncingUntil(ws, steps, k + 1, b);
    SameCopies(ws, steps, i, k + 1, b);
    RunInvAt(ws, steps, b);
    RunInvAt(ws, steps, b + 1);
    StepCounts(ws[b], Leave(i), i, Disturbed(steps, b));
    CopyIsPublication(ws[b + 1], i, Disturbed(steps, b + 1));
    LeaveKeepsFrames(ws[b], i);
  }

  lemma BroadcastAnnounces(w: World)
    requires Can(w, Broadcast)
    ensures Announcing(Do(w, Broadcast)) && Do(w, Broadcast).frames == w.frames && |w.frames| > 0
  {
  }

  lemma Reacquired(w: World, i: nat)
    requires Can(w, Reacquire(i))
    ensures Inside(Do(w, Reacquire(i)), i)
  {
  }

  lemma LeaveKeepsFrames(w: World, i: nat)
    requires Can(w, Leave(i))
    ensures Do(w, Leave(i)).frames == w.frames
  {
  }

  lemma CopyIsPublication(w: World, i: nat, spurious: set<nat>)
    requires Inv(w, spurious) && i < |w.readers| && w.readers[i].copies != []
    ensures var copies := w.readers[i].copies;
            var c := copies[|copies| - 1];
            c.number < |w.frames| && c.data == w.frames[c.number]
  {
    assert ReaderInv(w, i, w.readers[i], i in spurious);
  }

  // ---- what a publication is ----

  /** The bytes written since the producer last took the lock. */
  function Written(steps: seq<Step>, k: nat): Frame
    requires k <= |steps|
  {
    if k == 0 then []
    else match steps[k - 1]
      case Lock => []
      case Write(data) => Written(steps, k - 1) + data
      case _ => Written(steps, k - 1)
  }

  lemma WriteStep(w: World, s: Step, written: Frame)
    requires Can(w, s) && (w.making.Writing? ==> w.making.offset <= |w.buf| && w.buf[..w.making.offset] == written)
    ensures Do(w, s).making.Writing? ==>
              Do(w, s).making.offset <= |Do(w, s).buf|
              && Do(w, s).buf[..Do(w, s).making.offset]
                 == if s == Lock then [] else if s.Write? then written + s.data else written
  {
    if s.Write? {
      var n := w.making.offset;
      assert Do(w, s).buf[..n + |s.data|] == w.buf[..n] + s.data;
    }
  }

  lemma {:induction false} WrittenSoFar(ws: seq<World>, steps: seq<Step>, k: nat)
    requires Run(ws, steps) && k < |ws|
    ensures ws[k].making.Writing? ==>
              ws[k].making.offset <= |ws[k].buf| && ws[k].buf[..ws[k].making.offset] == Written(steps, k)
    decreases k
  {
    hide Can, Do;
    if k > 0 {
      WrittenSoFar(ws, steps, k - 1);
      WriteStep(ws[k - 1], steps[k - 1], Written(steps, k - 1));
    }
  }

  /** In every run what a publication adds to the list is exactly what has been written under the lock. */
  lemma PublishedIsWritten(ws: seq<World>, steps: seq<Step>, k: nat)
    requires Run(ws, steps) && k < |steps| && steps[k] == StoreSize
    ensures ws[k + 1].frames == ws[k].frames + [Written(steps, k)]
  {
    WrittenSoFar(ws, steps, k);
    assert Can(ws[k], steps[k]) && ws[k + 1] == Do(ws[k], steps[k]);
  }

  /** A write changes only the bytes it is about, and the buffer keeps its length. */
  lemma WritesInPlace(ws: seq<World>, steps: seq<Step>, k: nat, data: Frame)
    requires Run(ws, steps) && k < |steps| && steps[k] == Write(data)
    ensures ws[k].making.Writing?
    ensures var b, b', n := ws[k].buf, ws[k + 1].buf, ws[k].making.offset;
            && |b'| == |b| && n + |data| <= |b|
            && b'[..n] == b[..n] && b'[n..n + |data|] == data && b'[n + |data|..] == b[n + |data|..]
  {
    assert Can(ws[k], steps[k]) && ws[k + 1] == Do(ws[k], steps[k]);
  }

  // ---- when a frame comes twice ----

  /** Consumer i finishes a copy at step a and its next one at step b. */
  ghost predicate Consecutive(steps: seq<Step>, i: nat, a: nat, b: nat) {
    a < b < |steps| && steps[a] == Leave(i) && steps[b] == Leave(i)
    && forall k :: a < k < b ==> steps[k] != Leave(i)
  }

  ghost predicate Between(steps: seq<Step>, s: Step, a: nat, b: nat)
    requires b <= |steps|
  {
    exists k :: a < k < b && steps[k] == s
  }

  /** One step: a publication counts one up, nothing else does; copies end with Leave only. */
  lemma StepCounts(w: World, s: Step, i: nat, spurious: set<nat>)
    requires Inv(w, spurious) && Can(w, s) && i < |w.readers|
    ensures var w' := Do(w, s);
            && |w'.frames| == |w.frames| + (if s == StoreSize then 1 else 0)
            && |w'.readers| == |w.readers|
            && (s != Leave(i) ==> w'.readers[i].copies == w.readers[i].copies)
            && (s == Leave(i) ==> exists f ::
                  w'.readers[i].copies == w.readers[i].copies + [Copy(Latest(w), f)])
  {
  }

  lemma StepPublishes(w: World, s: Step, spurious: set<nat>)
    requires Inv(w, spurious) && Can(w, s)
    ensures |Do(w, s).frames| == |w.frames| + (if s == StoreSize then 1 else 0)
  {
  }

  lemma {:induction false} Publications(ws: seq<World>, steps: seq<Step>, a: nat, b: nat)
    requires Run(ws, steps) && a <= b <= |steps|
    ensures 0 < |ws[a].frames| <= |ws[b].frames|
    ensures |ws[a].frames| == |ws[b].frames| <==> forall k :: a <= k < b ==> steps[k] != StoreSize
    decreases b
  {
    hide Can, Do, Inv;
    if a < b {
      Publications(ws, steps, a, b - 1);
      RunInvAt(ws, steps, b - 1);
      StepPublishes(ws[b - 1], steps[b - 1], Disturbed(steps, b - 1));
    } else {
      SomeFrame(ws, steps, a);
    }
  }

  lemma {:induction false} SameCopies(ws: seq<World>, steps: seq<Step>, i: nat, a: nat, b: nat)
    requires Run(ws, steps) && a <= b <= |steps| && i < |ws[a].readers|
    requires forall k :: a <= k < b ==> steps[k] != Leave(i)
    ensures i < |ws[b].readers| && ws[b].readers[i].copies == ws[a].readers[i].copies
    decreases b
  {
    hide Can, Do, Inv;
    if a < b {
      SameCopies(ws, steps, i, a, b - 1);
      RunInvAt(ws, steps, b - 1);
      StepCounts(ws[b - 1], steps[b - 1], i, Disturbed(steps, b - 1));
    }
  }

  lemma SomeFrame(ws: seq<World>, steps: seq<Step>, k: nat)
    requires Run(ws, steps) && k < |ws|
    ensures |ws[k].frames| > 0
  {
    assert k <= |steps|;
    hide Can, Do, Run;
    RunInvAt(ws, steps, k);
  }

  /** Nothing can wake consumer i: no publication is under way and it is not past its wait. */
  predicate Still(w: World, i: nat) {
    && (w.making == Idle || w.making.Writing?)
    && i < |w.readers| && w.readers[i].place in {Outside, Entered, Waiting}
  }

  lemma StillKept(w: World, s: Step, i: nat)
    requires Still(w, i) && Can(w, s) && s != StoreSize && s != Spurious(i)
    ensures Still(Do(w, s), i) && s != Leave(i)
  {
  }

  lemma {:induction false} StillAfter(ws: seq<World>, steps: seq<Step>, i: nat, a: nat, b: nat)
    requires Path(ws, steps) && a <= b <= |steps| && Still(ws[a], i)
    requires forall k :: a <= k < b ==> steps[k] != StoreSize && steps[k] != Spurious(i)
    ensures Still(ws[b], i)
    decreases b
  {
    hide Can, Do, Still;
    if a < b {
      StillAfter(ws, steps, i, a, b - 1);
      StillKept(ws[b - 1], steps[b - 1], i);
    }
  }

  lemma StillAfterLeave(w: World, i: nat, spurious: set<nat>)
    requires Inv(w, spurious) && Can(w, Leave(i))
    ensures Still(Do(w, Leave(i)), i) && !Still(w, i)
  {
    assert ReaderInv(w, i, w.readers[i], i in spurious);
  }

  /** Two consecutive copies of a consumer are of the same publication exactly when none was made between them,
      and then that consumer woke up spuriously in between. */
  lemma RepeatIff(ws: seq<World>, steps: seq<Step>, i: nat, a: nat, b: nat)
    requires Run(ws, steps) && Consecutive(steps, i, a, b)
    ensures i < |ws[a].readers| && i < |ws[b + 1].readers|
    ensures var before, now := ws[a].readers[i].copies, ws[b + 1].readers[i].copies;
            && |now| == |before| + 2 && now[..|before|] == before
            && (now[|before|].number == now[|before| + 1].number <==> !Between(steps, StoreSize, a, b))
            && (now[|before|].number == now[|before| + 1].number ==> Between(steps, Spurious(i), a, b))
  {
    hide Can, Do, Inv, Still;
    CanLeave(ws, steps, i, a);
    RunInvAt(ws, steps, a);
    RunInvAt(ws, steps, b);
    StepCounts(ws[a], Leave(i), i, Disturbed(steps, a));
    StillAfterLeave(ws[a], i, Disturbed(steps, a));
    SameCopies(ws, steps, i, a + 1, b);
    Publications(ws, steps, a + 1, b);
    StepCounts(ws[b], Leave(i), i, Disturbed(steps, b));
    if !Between(steps, StoreSize, a, b) && !Between(steps, Spurious(i), a, b) {
      StillAfter(ws, steps, i, a + 1, b);
      StillKept(ws[b], Leave(i), i);
      assert false;
    }
  }

  lemma CanLeave(ws: seq<World>, steps: seq<Step>, i: nat, a: nat)
    requires Path(ws, steps) && a < |steps| && steps[a] == Leave(i)
    ensures Can(ws[a], Leave(i)) && i < |ws[a].readers|
  {
  }

  // ---- when the copy is of nothing published ----

  ghost predicate Before(steps: seq<Step>, s: Step, b: nat)
    requires b <= |steps|
  {
    exists k :: 0 <= k < b && steps[k] == s
  }

  /** A copy has number 0, the empty placeholder's, exactly when nothing was published before, and then that
      consumer woke up spuriously before. */
  lemma PlaceholderIff(ws: seq<World>, steps: seq<Step>, i: nat, b: nat)
    requires Run(ws, steps) && b < |steps| && steps[b] == Leave(i)
    ensures i < |ws[b].readers| && i < |ws[b + 1].readers|
    ensures var before, now := ws[b].readers[i].copies, ws[b + 1].readers[i].copies;
            && |now| == |before| + 1 && now[..|before|] == before
            && (now[|before|].number == 0 <==> !Before(steps, StoreSize, b))
            && (now[|before|].number == 0 ==> now[|before|].data == [] && Before(steps, Spurious(i), b))
  {
    hide Can, Do, Inv, Still;
    CanLeave(ws, steps, i, b);
    RunInvAt(ws, steps, b);
    RunInvAt(ws, steps, b + 1);
    StepCounts(ws[b], Leave(i), i, Disturbed(steps, b));
    Publications(ws, steps, 0, b);
    var now := ws[b + 1].readers[i].copies;
    LastCopyTrue(ws[b + 1], i, Disturbed(steps, b + 1));
    if !Before(steps, StoreSize, b) && !Before(steps, Spurious(i), b) {
      SameReaders(ws, steps, b);
      StillAtFirst(ws[0], i);
      StillAfter(ws, steps, i, 0, b);
      StillKept(ws[b], Leave(i), i);
      assert false;
    }
  }

  lemma LastCopyTrue(w: World, i: nat, spurious: set<nat>)
    requires Inv(w, spurious) && i < |w.readers| && w.readers[i].copies != []
    ensures var copies := w.readers[i].copies; copies[|copies| - 1].number == 0 ==> copies[|copies| - 1].data == []
  {
    assert ReaderInv(w, i, w.readers[i], i in spurious);
  }

  lemma StillAtFirst(w: World, i: nat)
    requires Initial(w) && i < |w.readers|
    ensures Still(w, i)
  {
  }

  lemma {:induction false} SameReaders(ws: seq<World>, steps: seq<Step>, k: nat)
    requires Path(ws, steps) && k < |ws|
    ensures |ws[k].readers| == |ws[0].readers|
  {
    if k > 0 {
      SameReaders(ws, steps, k - 1);
    }
  }

  // ---- a spurious wake-up can repeat a frame ----

  ghost predicate AllCan(w: World, steps: seq<Step>)
    decreases |steps|
  {
    steps == [] || (Can(w, steps[0]) && AllCan(Do(w, steps[0]), steps[1..]))
  }

  function After(w: World, steps: seq<Step>): World
    decreases |steps|
  {
    if steps == [] || !Can(w, steps[0]) then w else After(Do(w, steps[0]), steps[1..])
  }

  lemma {:induction false} Unfolded(w: World, steps: seq<Step>) returns (ws: seq<World>)
    requires AllCan(w, steps)
    ensures Path(ws, steps) && ws[0] == w && ws[|steps|] == After(w, steps)
    decreases |steps|
  {
    hide Can, Do;
    if steps == [] {
      ws := [w];
    } else {
      var rest := Unfolded(Do(w, steps[0]), steps[1..]);
      ws := [w] + rest;
      forall k | 0 <= k < |steps|
        ensures Can(ws[k], steps[k]) && ws[k + 1] == Do(ws[k], steps[k])
      {
        if k > 0 {
          assert steps[k] == steps[1..][k - 1] && ws[k] == rest[k - 1] && ws[k + 1] == rest[k];
        }
      }
    }
  }

  lemma {:induction false} AfterConcat(w: World, a: seq<Step>, b: seq<Step>)
    requires AllCan(w, a) && AllCan(After(w, a), b)
    ensures AllCan(w, a + b) && After(w, a + b) == After(After(w, a), b)
    decreases |a|
  {
    hide Can, Do;
    if a == [] {
      assert a + b == b;
    } else {
      assert (a + b)[1..] == a[1..] + b && (a + b)[0] == a[0];
      AfterConcat(Do(w, a[0]), a[1..], b);
    }
  }

  /** Two steps lead from v to v2. */
  ghost predicate Leads(v: World, s: Step, t: Step, v2: World) {
    Can(v, s) && Can(Do(v, s), t) && v2 == Do(Do(v, s), t)
  }

  lemma TwoMore(w: World, steps: seq<Step>, s: Step, t: Step, v2: World) returns (more: seq<Step>)
    requires AllCan(w, steps) && Leads(After(w, steps), s, t, v2)
    ensures more == steps + [s, t] && AllCan(w, more) && After(w, more) == v2
  {
    hide Can, Do;
    var v := After(w, steps);
    assert [s, t][1..] == [t] && [t][1..] == [];
    assert AllCan(Do(Do(v, s), t), []) && After(Do(Do(v, s), t), []) == Do(Do(v, s), t);
    assert AllCan(Do(v, s), [t]) && After(Do(v, s), [t]) == Do(Do(v, s), t);
    AfterConcat(w, steps, [s, t]);
    more := steps + [s, t];
  }

  lemma NoSteps(w: World)
    ensures AllCan(w, []) && After(w, []) == w
  {
  }

  /** A world with one consumer. */
  function Single(buf: Frame, size: nat, owner: Owner, making: Making, frames: seq<Frame>, r: Reader): World {
    World(buf, size, owner, making, frames, [r])
  }

  lemma Waits(buf: Frame, size: nat, frames: seq<Frame>, r: Reader)
    requires r.place == Outside && |frames| > 0
    ensures Leads(Single(buf, size, Free, Idle, frames, r), Enter(0), Wait(0),
                  Single(buf, size, Free, Idle, frames, r.(place := Waiting)))
  {
  }

  lemma Writes(buf: Frame, b: Byte, frames: seq<Frame>, r: Reader)
    requires |buf| == 1 && |frames| > 0
    ensures Leads(Single(buf, 0, Free, Idle, frames, r), Lock, Write([b]),
                  Single([b], 0, Producer, Writing(1), frames, r))
  {
    assert buf[..0] + [b] + buf[1..] == [b];
  }

  lemma Publishes(b: Byte, frames: seq<Frame>, r: Reader)
    requires r.place == Waiting && |frames| > 0
    ensures Leads(Single([b], 0, Producer, Writing(1), frames, r), StoreSize, Broadcast,
                  Single([b], 1, Producer, Announced, frames + [[b]], r.(place := Woken)))
  {
    assert [b][..1] == [b];
    assert Rewoken([r]) == [r.(place := Woken)];
  }

  lemma Resumes(buf: Frame, frames: seq<Frame>, r: Reader)
    requires r.place == Woken && |frames| > 0
    ensures Leads(Single(buf, 1, Producer, Announced, frames, r), Unlock, Reacquire(0),
                  Single(buf, 1, Consumer(0), Idle, frames, r.(place := Holding)))
  {
  }

  lemma Copies(b: Byte, frames: seq<Frame>, r: Reader)
    requires r.place == Holding && |frames| > 0
    ensures Leads(Single([b], 1, Consumer(0), Idle, frames, r), ReadSize(0), CopyByte(0),
                  Single([b], 1, Consumer(0), Idle, frames,
                         Reader(Copying(1), [b], if r.capacity < 1 then 1 + TEN_K else r.capacity, 1, r.copies)))
  {
    assert [] + [[b][0]] == [b];
  }

  lemma LeavesAndReturns(buf: Frame, frames: seq<Frame>, r: Reader)
    requires r.place == Copying(1) && r.frameSize == 1 && |frames| > 0
    ensures Leads(Single(buf, 1, Consumer(0), Idle, frames, r), Leave(0), Enter(0),
                  Single(buf, 1, Consumer(0), Idle, frames,
                         r.(place := Entered, copies := r.copies + [Copy(|frames| - 1, r.frame)])))
  {
  }

  lemma WaitsAndWakes(buf: Frame, frames: seq<Frame>, r: Reader)
    requires r.place == Entered && |frames| > 0
    ensures Leads(Single(buf, 1, Consumer(0), Idle, frames, r), Wait(0), Spurious(0),
                  Single(buf, 1, Free, Idle, frames, r.(place := Woken)))
  {
  }

  lemma ReadsAgain(buf: Frame, frames: seq<Frame>, r: Reader)
    requires r.place == Woken && r.capacity >= 1 && |frames| > 0
    ensures Leads(Single(buf, 1, Free, Idle, frames, r), Reacquire(0), ReadSize(0),
                  Single(buf, 1, Consumer(0), Idle, frames, r.(place := Copying(0), frame := [], frameSize := 1)))
  {
  }

  lemma CopiesAndLeaves(b: Byte, frames: seq<Frame>, r: Reader)
    requires r.place == Copying(0) && r.frame == [] && r.frameSize == 1 && |frames| > 0
    ensures Leads(Single([b], 1, Consumer(0), Idle, frames, r), CopyByte(0), Leave(0),
                  Single([b], 1, Free, Idle, frames,
                         r.(place := Outside, frame := [b], copies := r.copies + [Copy(|frames| - 1, [b])])))
  {
    assert [] + [[b][0]] == [b];
  }

  /** A run in which a consumer copies one published frame [b] twice: it waits while the frame is published, is
      woken and copies it, waits again, wakes up spuriously and copies it again. */
  lemma SpuriousRepeats(b: Byte) returns (ws: seq<World>, steps: seq<Step>)
    ensures Run(ws, steps)
    ensures var w := ws[|steps|];
            w.frames == [[], [b]] && |w.readers| == 1 && w.readers[0].copies == [Copy(1, [b]), Copy(1, [b])]
  {
    hide Can, Do, AllCan, After, Leads, Single;
    var fs: seq<Frame>, r := [[], [b]], Reader(Outside, [], 0, 0, []);
    var w := Single([0], 0, Free, Idle, [[]], r);
    NoSteps(w);
    Waits([0], 0, [[]], r);
    r := r.(place := Waiting);
    steps := TwoMore(w, [], Enter(0), Wait(0), Single([0], 0, Free, Idle, [[]], r));
    Writes([0], b, [[]], r);
    steps := TwoMore(w, steps, Lock, Write([b]), Single([b], 0, Producer, Writing(1), [[]], r));
    Publishes(b, [[]], r);
    assert [[]] + [[b]] == fs;
    r := r.(place := Woken);
    steps := TwoMore(w, steps, StoreSize, Broadcast, Single([b], 1, Producer, Announced, fs, r));
    Resumes([b], fs, r);
    r := r.(place := Holding);
    steps := TwoMore(w, steps, Unlock, Reacquire(0), Single([b], 1, Consumer(0), Idle, fs, r));
    Copies(b, fs, r);
    r := Reader(Copying(1), [b], 1 + TEN_K, 1, []);
    steps := TwoMore(w, steps, ReadSize(0), CopyByte(0), Single([b], 1, Consumer(0), Idle, fs, r));
    steps := SecondCopy(w, steps, b);
    ws := Unfolded(w, steps);
    LastWorld(w, ws, steps, b);
  }

  function Once(b: Byte): Reader { Reader(Copying(1), [b], 1 + TEN_K, 1, []) }

  function Twice(b: Byte): Reader { Reader(Outside, [b], 1 + TEN_K, 1, [Copy(1, [b]), Copy(1, [b])]) }

  lemma SecondCopy(w: World, first: seq<Step>, b: Byte) returns (steps: seq<Step>)
    requires AllCan(w, first) && After(w, first) == Single([b], 1, Consumer(0), Idle, [[], [b]], Once(b))
    ensures AllCan(w, steps) && After(w, steps) == Single([b], 1, Free, Idle, [[], [b]], Twice(b))
  {
    hide Can, Do, AllCan, After, Leads, Single;
    var fs: seq<Frame>, r := [[], [b]], Once(b);
    LeavesAndReturns([b], fs, r);
    r := r.(place := Entered, copies := [Copy(1, [b])]);
    assert [] + [Copy(1, [b])] == [Copy(1, [b])];
    steps := TwoMore(w, first, Leave(0), Enter(0), Single([b], 1, Consumer(0), Idle, fs, r));
    WaitsAndWakes([b], fs, r);
    r := r.(place := Woken);
    steps := TwoMore(w, steps, Wait(0), Spurious(0), Single([b], 1, Free, Idle, fs, r));
    ReadsAgain([b], fs, r);
    r := r.(place := Copying(0), frame := [], frameSize := 1);
    steps := TwoMore(w, steps, Reacquire(0), ReadSize(0), Single([b], 1, Consumer(0), Idle, fs, r));
    CopiesAndLeaves(b, fs, r);
    r := r.(place := Outside, frame := [b], copies := [Copy(1, [b]), Copy(1, [b])]);
    assert [Copy(1, [b])] + [Copy(1, [b])] == [Copy(1, [b]), Copy(1, [b])];
    steps := TwoMore(w, steps, CopyByte(0), Leave(0), Single([b], 1, Free, Idle, fs, r));
  }

  lemma WakesUp(buf: Frame, r: Reader)
    requires r.place == Waiting
    ensures Leads(Single(buf, 0, Free, Idle, [[]], r), Spurious(0), Reacquire(0),
                  Single(buf, 0, Consumer(0), Idle, [[]], r.(place := Holding)))
  {
  }

  lemma CopiesNothing(buf: Frame, r: Reader)
    requires r.place == Holding
    ensures Leads(Single(buf, 0, Consumer(0), Idle, [[]], r), ReadSize(0), Leave(0),
                  Single(buf, 0, Free, Idle, [[]], Reader(Outside, [], r.capacity, 0, r.copies + [Copy(0, [])])))
  {
  }

  /** A run in which nothing is published and a consumer finishes a copy all the same, after a spurious wake-up. */
  lemma SpuriousPlaceholder(buf: Frame) returns (ws: seq<World>, steps: seq<Step>)
    ensures Run(ws, steps) && steps == [Enter(0), Wait(0), Spurious(0), Reacquire(0), ReadSize(0), Leave(0)]
    ensures ws[|steps|].frames == [[]] && |ws[|steps|].readers| == 1 && ws[|steps|].readers[0].copies == [Copy(0, [])]
  {
    hide Can, Do, AllCan, After, Leads, Single;
    var r := Reader(Outside, [], 0, 0, []);
    var w := Single(buf, 0, Free, Idle, [[]], r);
    NoSteps(w);
    Waits(buf, 0, [[]], r);
    r := r.(place := Waiting);
    steps := TwoMore(w, [], Enter(0), Wait(0), Single(buf, 0, Free, Idle, [[]], r));
    WakesUp(buf, r);
    r := r.(place := Holding);
    steps := TwoMore(w, steps, Spurious(0), Reacquire(0), Single(buf, 0, Consumer(0), Idle, [[]], r));
    CopiesNothing(buf, r);
    assert [] + [Copy(0, [])] == [Copy(0, [])];
    r := Reader(Outside, [], 0, 0, [Copy(0, [])]);
    steps := TwoMore(w, steps, ReadSize(0), Leave(0), Single(buf, 0, Free, Idle, [[]], r));
    ws := Unfolded(w, steps);
    FirstAndLast(w, ws, steps, buf, r);
  }

  lemma FirstAndLast(w: World, ws: seq<World>, steps: seq<Step>, buf: Frame, r: Reader)
    requires w == Single(buf, 0, Free, Idle, [[]], Reader(Outside, [], 0, 0, []))
    requires Path(ws, steps) && ws[0] == w && ws[|steps|] == Single(buf, 0, Free, Idle, [[]], r)
    ensures Run(ws, steps) && ws[|steps|].frames == [[]] && ws[|steps|].readers == [r]
  {
    hide Can, Do;
  }

  lemma LastWorld(w: World, ws: seq<World>, steps: seq<Step>, b: Byte)
    requires w == Single([0], 0, Free, Idle, [[]], Reader(Outside, [], 0, 0, []))
    requires Path(ws, steps) && ws[0] == w && ws[|steps|] == Single([b], 1, Free, Idle, [[], [b]], Twice(b))
    ensures Run(ws, steps)
    ensures ws[|steps|].frames == [[], [b]] && ws[|steps|].readers == [Twice(b)]
  {
    hide Can, Do;
  }
}
