/** The lock-free log ring of mc_klog.c: a worker thread that writes entries and
    moves w_idx, and the collector thread that writes them out and moves r_idx.

    Each read or update of a shared index and each byte written to or read from
    the ring is a step of its own, and the steps of the two threads interleave
    freely; each thread works with the other's index as it was when it looked. */
module Klog {
  import opened Bytes

  const KLOG_ENTRY_SIZE := 384

  datatype Worker =
    | Idle
    | Looked(r: nat)
    | Filling(msg: Bytes, done: nat)

  datatype Collector =
    | Resting
    | Draining(w: nat, done: nat)

  /** buf, r and w are the ring; the last five fields only record what happened:
      the bytes of accepted entries, the bytes written out, how many of them r
      stands for, and how far each thread knew the other to be. */
  datatype World = World(
    buf: Bytes,
    r: nat,
    w: nat,
    worker: Worker,
    collector: Collector,
    accepted: Bytes,
    output: Bytes,
    taken: nat,
    seenTaken: nat,
    seenAccepted: nat)

  function Size(x: World): nat { |x.buf| }

  /** CIRCULAR_INCR */
  function Incr(i: nat, d: nat, size: nat): nat
    requires size > 0
  {
    (i + d) % size
  }

  /** klog_remain, on the index values read */
  function Remain(r: nat, w: nat, size: nat): int {
    (if r - w <= 0 then r - w + size else r - w) - 1
  }

  /** The bytes klog_read finds between the two indices. */
  function Available(r: nat, w: nat, size: nat): int {
    if r <= w then w - r else size - r + w
  }

  /** Position d after i, by the code's case split instead of a remainder. */
  function Ahead(i: nat, d: nat, size: nat): int {
    if i + d < size then i + d else i + d - size
  }

  /** Whether an entry is composed in the ring itself: then it is followed by the
      formatter's terminating zero. */
  predicate InPlace(x: World) { Size(x) - x.w >= KLOG_ENTRY_SIZE }

  function FillLength(x: World, msg: Bytes): nat {
    |msg| + if InPlace(x) then 1 else 0
  }

  datatype Step =
    | LookR
    | Discard
    | Compose(msg: Bytes)
    | Fill
    | Publish
    | LookW
    | Emit
    | Stop

  predicate Enabled(x: World, s: Step) {
    match s
    case LookR => x.worker.Idle?
    case Discard => x.worker.Looked? && Remain(x.worker.r, x.w, Size(x)) < KLOG_ENTRY_SIZE
    case Compose(msg) =>
      x.worker.Looked? && Remain(x.worker.r, x.w, Size(x)) >= KLOG_ENTRY_SIZE && |msg| < KLOG_ENTRY_SIZE
    case Fill => x.worker.Filling? && x.worker.done < FillLength(x, x.worker.msg)
    case Publish => x.worker.Filling? && x.worker.done == FillLength(x, x.worker.msg)
    case LookW => x.collector.Resting?
    case Emit => x.collector.Draining? && x.collector.done < Available(x.r, x.collector.w, Size(x))
    case Stop => x.collector.Draining?
  }

  predicate Indices(x: World) { x.r < Size(x) && x.w < Size(x) }

  /** The ring position of a step's byte; out of range only for a ring that is too
      small, which the invariant excludes. */
  function FillAt(x: World): int
    requires x.worker.Filling?
  {
    if InPlace(x) then x.w + x.worker.done else Ahead(x.w, x.worker.done, Size(x))
  }

  /** CIRCULAR_INCR, also of a ring of size zero, which no buffer has. */
  function Moved(i: nat, d: nat, size: nat): nat {
    if size == 0 then i else Incr(i, d, size)
  }

  function After(x: World, s: Step): World
    requires Enabled(x, s)
  {
    match s
    case LookR => x.(worker := Looked(x.r), seenTaken := x.taken)
    case Discard => x.(worker := Idle)
    case Compose(msg) => x.(worker := Filling(msg, 0))
    case Fill =>
      var Filling(msg, done) := x.worker;
      var at := FillAt(x);
      x.(buf := if 0 <= at < Size(x) then x.buf[at := if done < |msg| then msg[done] else 0] else x.buf,
         worker := Filling(msg, done + 1))
    case Publish =>
      x.(w := Moved(x.w, |x.worker.msg|, Size(x)), accepted := x.accepted + x.worker.msg, worker := Idle)
    case LookW => x.(collector := Draining(x.w, 0), seenAccepted := |x.accepted|)
    case Emit =>
      var at := Ahead(x.r, x.collector.done, Size(x));
      x.(output := if 0 <= at < Size(x) then x.output + [x.buf[at]] else x.output,
         collector := Draining(x.collector.w, x.collector.done + 1))
    case Stop =>
      x.(r := Moved(x.r, x.collector.done, Size(x)), taken := x.taken + x.collector.done, collector := Resting)
  }

  predicate ValidRun(x: World, steps: seq<Step>)
    decreases |steps|
  {
    steps == [] || (Enabled(x, steps[0]) && ValidRun(After(x, steps[0]), steps[1..]))
  }

  function Final(x: World, steps: seq<Step>): World
    requires ValidRun(x, steps)
    decreases |steps|
  {
    if steps == [] then x else Final(After(x, steps[0]), steps[1..])
  }

  /** klog_buf_create */
  predicate Init(x: World) {
    && Size(x) > 0 && x.r == 0 && x.w == 0 && x.worker.Idle? && x.collector.Resting?
    && x.accepted == [] && x.output == [] && x.taken == 0
  }

  // ---------- places in the ring ----------

  /** Where byte n of the log is kept. */
  function Place(n: nat, size: nat): (i: nat)
    requires size > 0
    ensures i < size
    decreases n
  {
    if n < size then n else Place(n - size, size)
  }

  lemma {:induction false} PlaceIsRemainder(n: nat, size: nat)
    requires size > 0
    ensures Place(n, size) == n % size
    decreases n
  {
    if n < size {
      RemainderUnique(n, size, 0, n);
    } else {
      PlaceIsRemainder(n - size, size);
      var q, m := (n - size) / size, (n - size) % size;
      assert n == size * (q + 1) + m;
      RemainderUnique(n, size, q + 1, m);
    }
  }

  lemma Multiples(size: nat, k: int)
    requires size > 0
    ensures k >= 1 ==> size * k >= size
    ensures k <= -1 ==> size * k <= 0 - size
  {
    if k >= 1 {
      assert size * k == size * (k - 1) + size;
    } else if k <= -1 {
      assert size * k == size * (k + 1) - size;
    }
  }

  /** A quotient and a remainder in range are the quotient and the remainder. */
  lemma RemainderUnique(n: nat, size: nat, q: int, m: nat)
    requires m < size && n == size * q + m
    ensures n % size == m
  {
    var q', m' := n / size, n % size;
    assert n == size * q' + m';
    assert size * (q - q') == m' - m;
    Multiples(size, q - q');
  }

  lemma {:induction false} PlaceAhead(n: nat, d: nat, size: nat)
    requires size > 0 && d < size
    ensures Place(n + d, size) == Ahead(Place(n, size), d, size)
    decreases n
  {
    if n >= size {
      PlaceAhead(n - size, d, size);
    }
  }

  lemma SmallMod(m: nat, size: nat)
    requires 0 < size && m < 2 * size
    ensures m % size == if m < size then m else m - size
  {
    if m < size {
      RemainderUnique(m, size, 0, m);
    } else {
      RemainderUnique(m, size, 1, m - size);
    }
  }

  lemma PlaceIncr(n: nat, d: nat, size: nat)
    requires size > 0 && d < size
    ensures Incr(Place(n, size), d, size) == Place(n + d, size)
  {
    PlaceAhead(n, d, size);
    SmallMod(Place(n, size) + d, size);
  }

  /** Bytes less than a ring's size apart are kept in different places. */
  lemma PlacesDiffer(n: nat, d: nat, size: nat)
    requires 0 < d < size
    ensures Place(n, size) != Place(n + d, size)
  {
    PlaceAhead(n, d, size);
  }

  /** The space computed from the indices is what the counts leave. */
  lemma RemainIs(taken: nat, n: nat, size: nat)
    requires size > 0 && taken <= n < taken + size
    ensures Remain(Place(taken, size), Place(n, size), size) == size - (n - taken) - 1
    ensures Available(Place(taken, size), Place(n, size), size) == n - taken
  {
    PlaceAhead(taken, n - taken, size);
  }

  // ---------- the invariant ----------

  /** The bytes of log from the given one on are in the ring where they belong. */
  ghost predicate Holds(buf: Bytes, log: Bytes, from: nat)
    requires |buf| > 0
  {
    forall n :: from <= n < |log| ==> buf[Place(n, |buf|)] == log[n]
  }

  /** Unread bytes are in the ring. */
  ghost predicate Kept(x: World)
    requires Size(x) > 0
  {
    Holds(x.buf, x.accepted, x.taken)
  }

  predicate Counts(x: World) {
    && Size(x) > 0 && x.taken <= |x.accepted| < x.taken + Size(x)
    && x.r == Place(x.taken, Size(x)) && x.w == Place(|x.accepted|, Size(x))
  }

  /** What the worker knows is old but errs on the safe side: there is room for a
      whole entry behind the accepted bytes. */
  predicate WorkerOk(x: World)
    requires Size(x) > 0
  {
    match x.worker
    case Idle => true
    case Looked(r) =>
      x.seenTaken <= x.taken && |x.accepted| < x.seenTaken + Size(x) && r == Place(x.seenTaken, Size(x))
    case Filling(msg, done) =>
      && |msg| < KLOG_ENTRY_SIZE && done <= FillLength(x, msg)
      && |x.accepted| + KLOG_ENTRY_SIZE < x.taken + Size(x)
  }

  /** The part of the entry written so far is in the ring. */
  ghost predicate FilledOk(x: World)
    requires Size(x) > 0
  {
    x.worker.Filling? ==> HoldsPart(x.buf, |x.accepted|, x.worker.msg, x.worker.done)
  }

  /** The first done bytes of msg are in the ring, for the log positions from at on. */
  ghost predicate HoldsPart(buf: Bytes, at: nat, msg: Bytes, done: nat)
    requires |buf| > 0
  {
    forall j :: 0 <= j < |msg| && j < done ==> buf[Place(at + j, |buf|)] == msg[j]
  }

  predicate CollectorOk(x: World)
    requires Size(x) > 0
  {
    match x.collector
    case Resting => x.taken <= |x.accepted| && x.output == x.accepted[..x.taken]
    case Draining(w, done) =>
      && x.taken + done <= x.seenAccepted <= |x.accepted| && w == Place(x.seenAccepted, Size(x))
      && x.output == x.accepted[..x.taken + done]
  }

  ghost predicate Inv(x: World) {
    Counts(x) && Kept(x) && WorkerOk(x) && FilledOk(x) && CollectorOk(x)
  }

  /** The byte being filled in goes behind the accepted ones and within the room. */
  lemma FillPlace(x: World)
    requires Inv(x) && Enabled(x, Fill)
    ensures FillAt(x) == Place(|x.accepted| + x.worker.done, Size(x))
  {
    PlaceAhead(|x.accepted|, x.worker.done, Size(x));
  }

  /** It disturbs no byte between taken and itself. */
  lemma FillDisturbsNothing(x: World, m: nat)
    requires Inv(x) && Enabled(x, Fill) && x.taken <= m < |x.accepted| + x.worker.done
    ensures After(x, Fill).buf[Place(m, Size(x))] == x.buf[Place(m, Size(x))]
  {
    FillPlace(x);
    PlacesDiffer(m, |x.accepted| + x.worker.done - m, Size(x));
  }

  lemma FillKeepsUnread(x: World)
    requires Inv(x) && Enabled(x, Fill)
    ensures Size(After(x, Fill)) == Size(x) && Kept(After(x, Fill))
  {
    var x' := After(x, Fill);
    forall n | x'.taken <= n < |x'.accepted| ensures x'.buf[Place(n, Size(x'))] == x'.accepted[n] {
      FillDisturbsNothing(x, n);
    }
  }

  lemma FillAdds(x: World)
    requires Inv(x) && Enabled(x, Fill)
    ensures Size(After(x, Fill)) == Size(x) && FilledOk(After(x, Fill))
  {
    var x' := After(x, Fill);
    forall j | 0 <= j < |x'.worker.msg| && j < x'.worker.done
      ensures x'.buf[Place(|x'.accepted| + j, Size(x'))] == x'.worker.msg[j]
    {
      FillAddsAt(x, j);
    }
  }

  lemma FillAddsAt(x: World, j: nat)
    requires Inv(x) && Enabled(x, Fill) && j < |x.worker.msg| && j <= x.worker.done
    ensures After(x, Fill).buf[Place(|x.accepted| + j, Size(x))] == x.worker.msg[j]
  {
    FillPlace(x);
    if j < x.worker.done {
      FillDisturbsNothing(x, |x.accepted| + j);
    }
  }

  lemma FillKeeps(x: World)
    requires Inv(x) && Enabled(x, Fill)
    ensures Inv(After(x, Fill))
  {
    FillKeepsUnread(x);
    FillAdds(x);
  }

  lemma PrefixKept(a: Bytes, b: Bytes, n: nat)
    requires n <= |a|
    ensures (a + b)[..n] == a[..n]
  {
  }

  lemma PartHeld(buf: Bytes, log: Bytes, from: nat, msg: Bytes)
    requires |buf| > 0 && Holds(buf, log, from) && HoldsPart(buf, |log|, msg, |msg|)
    ensures Holds(buf, log + msg, from)
  {
    forall n | from <= n < |log + msg| ensures buf[Place(n, |buf|)] == (log + msg)[n] {
      if n >= |log| {
        var j := n - |log|;
        assert buf[Place(|log| + j, |buf|)] == msg[j];
      }
    }
  }

  /** The entry joins the log and w moves to its end. */
  function Published(x: World): World
    requires Size(x) > 0 && x.worker.Filling?
  {
    var log := x.accepted + x.worker.msg;
    x.(w := Place(|log|, Size(x)), accepted := log, worker := Idle)
  }

  lemma PublishIs(x: World)
    requires Inv(x) && Enabled(x, Publish)
    ensures After(x, Publish) == Published(x)
  {
    PlaceIncr(|x.accepted|, |x.worker.msg|, Size(x));
  }

  lemma PublishedKeeps(x: World)
    requires Inv(x) && Enabled(x, Publish)
    ensures Inv(Published(x))
  {
    PublishedHeld(x);
    PublishedSeen(x);
  }

  lemma PublishedSeen(x: World)
    requires Inv(x) && Enabled(x, Publish)
    ensures CollectorOk(Published(x))
  {
    match x.collector
    case Resting => PrefixKept(x.accepted, x.worker.msg, x.taken);
    case Draining(w, done) => PrefixKept(x.accepted, x.worker.msg, x.taken + done);
  }

  lemma PublishedHeld(x: World)
    requires Inv(x) && Enabled(x, Publish)
    ensures Kept(Published(x))
  {
    PartHeld(x.buf, x.accepted, x.taken, x.worker.msg);
  }

  lemma PublishKeeps(x: World)
    requires Inv(x) && Enabled(x, Publish)
    ensures Inv(After(x, Publish))
  {
    PublishIs(x);
    PublishedKeeps(x);
  }

  /** The byte put out is the next accepted one. */
  lemma EmitsNext(x: World)
    requires Inv(x) && Enabled(x, Emit)
    ensures var n := x.taken + x.collector.done;
            && n < x.seenAccepted && n < |x.accepted|
            && After(x, Emit) == x.(output := x.output + [x.accepted[n]],
                                    collector := Draining(x.collector.w, x.collector.done + 1))
  {
    RemainIs(x.taken, x.seenAccepted, Size(x));
    PlaceAhead(x.taken, x.collector.done, Size(x));
  }

  lemma PrefixNext(a: Bytes, n: nat)
    requires n < |a|
    ensures a[..n+1] == a[..n] + [a[n]]
  {
  }

  lemma EmitKeeps(x: World)
    requires Inv(x) && Enabled(x, Emit)
    ensures Inv(After(x, Emit))
  {
    EmitsNext(x);
    PrefixNext(x.accepted, x.taken + x.collector.done);
    SameRing(x, After(x, Emit));
  }

  lemma SameRing(x: World, x': World)
    requires Inv(x) && x' == x.(output := x'.output, collector := x'.collector)
    ensures Counts(x') && Kept(x') && WorkerOk(x') && FilledOk(x')
  {
  }

  lemma ComposeKeeps(x: World, msg: Bytes)
    requires Inv(x) && Enabled(x, Compose(msg))
    ensures Inv(After(x, Compose(msg)))
  {
    RemainIs(x.seenTaken, |x.accepted|, Size(x));
  }

  lemma StopKeeps(x: World)
    requires Inv(x) && Enabled(x, Stop)
    ensures Inv(After(x, Stop))
  {
    PlaceIncr(x.taken, x.collector.done, Size(x));
  }

  lemma StepKeeps(x: World, s: Step)
    requires Inv(x) && Enabled(x, s)
    ensures Inv(After(x, s))
  {
    match s
    case Compose(msg) => ComposeKeeps(x, msg);
    case Fill => FillKeeps(x);
    case Publish => PublishKeeps(x);
    case Emit => EmitKeeps(x);
    case Stop => StopKeeps(x);
    case _ =>
  }

  lemma {:induction false} RunKeeps(x: World, steps: seq<Step>)
    requires Inv(x) && ValidRun(x, steps)
    ensures Inv(Final(x, steps))
    decreases |steps|
  {
    if steps != [] {
      StepKeeps(x, steps[0]);
      RunKeeps(After(x, steps[0]), steps[1..]);
    }
  }

  // ---------- the claims ----------

  /** In every interleaving the output is a prefix of the accepted bytes, and every
      accepted byte that is still unread is intact in the ring. */
  lemma FifoAlways(x: World, steps: seq<Step>)
    requires Init(x) && ValidRun(x, steps)
    ensures var f := Final(x, steps);
            && Size(f) > 0 && f.output <= f.accepted
            && (forall n :: |f.output| <= n < |f.accepted| ==> f.buf[Place(n, Size(f))] == f.accepted[n])
  {
    RunKeeps(x, steps);
  }

  /** Between passes of the collector, equal indices mean that nothing is left, and
      only that. */
  lemma EqualIndicesMeanEmpty(x: World, steps: seq<Step>)
    requires Init(x) && ValidRun(x, steps)
    requires var f := Final(x, steps); f.collector.Resting?
    ensures var f := Final(x, steps); f.r == f.w <==> f.output == f.accepted
  {
    RunKeeps(x, steps);
    var f := Final(x, steps);
    PlaceAhead(f.taken, |f.accepted| - f.taken, Size(f));
  }

  /** No step is ever stuck outside the ring: every index a byte is written to or
      read from is in range. */
  lemma BytesInRange(x: World, steps: seq<Step>)
    requires Init(x) && ValidRun(x, steps)
    ensures var f := Final(x, steps);
            && Indices(f)
            && (Enabled(f, Fill) ==> 0 <= FillAt(f) < Size(f))
            && (Enabled(f, Emit) ==> 0 <= Ahead(f.r, f.collector.done, Size(f)) < Size(f))
  {
    RunKeeps(x, steps);
    var f := Final(x, steps);
    if Enabled(f, Fill) {
      FillPlace(f);
    }
    if Enabled(f, Emit) {
      RemainIs(f.taken, f.seenAccepted, Size(f));
      PlaceAhead(f.taken, f.collector.done, Size(f));
    }
  }

  /** In every run, an entry is dropped exactly when what was accepted and not yet taken, as
      the worker has seen it, leaves less room than the largest entry needs; any other entry
      is accepted. */
  lemma DroppedOnlyForLackOfRoom(x: World, steps: seq<Step>, msg: Bytes)
    requires Init(x) && ValidRun(x, steps) && Final(x, steps).worker.Looked? && |msg| < KLOG_ENTRY_SIZE
    ensures var f := Final(x, steps);
            && f.seenTaken <= f.taken
            && (Enabled(f, Discard) <==> |f.accepted| - f.seenTaken + KLOG_ENTRY_SIZE >= Size(f))
            && (Enabled(f, Compose(msg)) <==> !Enabled(f, Discard))
  {
    RunKeeps(x, steps);
    var f := Final(x, steps);
    RemainIs(f.seenTaken, |f.accepted|, Size(f));
  }

  // ---------- failing writes ----------

  /** When a write fails, klog_read reports an error and leaves r_idx alone, whatever
      the pass has put out before. */
  function Fail(x: World): World { x.(collector := Resting) }

  /** A pass whose first write fails has put out nothing, and giving up is the same
      as stopping there; so it is among the runs above. */
  lemma FirstFailureIsHarmless(x: World)
    requires Inv(x) && x.collector.Draining? && x.collector.done == 0
    ensures Enabled(x, Stop) && Fail(x) == After(x, Stop) && Inv(Fail(x))
  {
    PlaceIncr(x.taken, 0, Size(x));
    StepKeeps(x, Stop);
  }

  /** The second write is made only after the whole first part, up to the end of the
      ring, is out. */
  predicate AtSecondWrite(x: World) {
    x.collector.Draining? && x.collector.w < x.r < Size(x) && x.collector.done == Size(x) - x.r
  }

  /** A pass of the collector that puts out n bytes. */
  function Pass(n: nat): seq<Step> {
    [LookW] + Emits(n)
  }

  function Emits(n: nat): seq<Step> {
    if n == 0 then [] else [Emit] + Emits(n - 1)
  }

  /** n bytes later. */
  function Emitted(x: World, n: nat): World
    requires x.collector.Draining? && x.taken + x.collector.done + n <= |x.accepted|
  {
    var at := x.taken + x.collector.done;
    x.(output := x.output + x.accepted[at..at+n], collector := Draining(x.collector.w, x.collector.done + n))
  }

  /** From a state in which the ring holds what it should, though the output may be
      anything, the collector puts out the bytes after r one by one. */
  lemma {:induction false} EmitsRun(x: World, n: nat)
    requires Counts(x) && Kept(x) && x.collector.Draining?
    requires x.seenAccepted == |x.accepted| && x.collector.w == Place(|x.accepted|, Size(x))
    requires x.taken + x.collector.done + n <= |x.accepted|
    ensures ValidRun(x, Emits(n)) && Final(x, Emits(n)) == Emitted(x, n)
    decreases n
  {
    EmittedInParts(x, n);
    if n > 0 {
      EmitsOne(x);
      EmitsRun(Emitted(x, 1), n - 1);
      OneStep(x, Emit, Emits(n - 1));
    }
  }

  lemma EmittedInParts(x: World, n: nat)
    requires x.collector.Draining? && x.taken + x.collector.done + n <= |x.accepted|
    ensures if n == 0 then Emitted(x, 0) == x else Emitted(Emitted(x, 1), n - 1) == Emitted(x, n)
  {
    var at := x.taken + x.collector.done;
    if n > 0 {
      assert x.accepted[at..at+1] + x.accepted[at+1..at+n] == x.accepted[at..at+n];
    }
  }

  lemma EmitsOne(x: World)
    requires Counts(x) && Kept(x) && x.collector.Draining?
    requires x.collector.w == Place(|x.accepted|, Size(x)) && x.taken + x.collector.done < |x.accepted|
    ensures Enabled(x, Emit) && After(x, Emit) == Emitted(x, 1)
  {
    RemainIs(x.taken, |x.accepted|, Size(x));
    PlaceAhead(x.taken, x.collector.done, Size(x));
  }

  /** A failing second write puts bytes out twice: a pass later the output is the
      first part followed by everything from the old read position again, longer than
      all that was ever accepted and so no prefix of it. */
  lemma SecondFailureRepeats(x: World)
    requires Inv(x) && AtSecondWrite(x)
    ensures var n := |x.accepted| - x.taken;
            && ValidRun(Fail(x), Pass(n))
            && Final(Fail(x), Pass(n)).output == x.accepted[..x.taken + x.collector.done] + x.accepted[x.taken..]
            && !(Final(Fail(x), Pass(n)).output <= x.accepted)
  {
    var n := |x.accepted| - x.taken;
    FailedPass(x);
    var out := x.accepted[..x.taken + x.collector.done] + x.accepted[x.taken..];
    assert |out| > |x.accepted|;
  }

  /** The next pass starts where the failed one did. */
  lemma FailedPass(x: World)
    requires Inv(x) && x.collector.Draining?
    ensures var n := |x.accepted| - x.taken;
            && ValidRun(Fail(x), Pass(n))
            && Final(Fail(x), Pass(n)).output == x.output + x.accepted[x.taken..]
  {
    var n := |x.accepted| - x.taken;
    Relooks(x);
    EmitsRun(Relooked(x), n);
    OneStep(Fail(x), LookW, Emits(n));
    RelookedOut(x);
  }

  lemma RelookedOut(x: World)
    requires x.taken <= |x.accepted|
    ensures Emitted(Relooked(x), |x.accepted| - x.taken).output == x.output + x.accepted[x.taken..]
  {
    assert x.accepted[x.taken..|x.accepted|] == x.accepted[x.taken..];
  }

  /** After the failure the collector looks at w again. */
  function Relooked(x: World): World {
    x.(collector := Draining(x.w, 0), seenAccepted := |x.accepted|)
  }

  lemma Relooks(x: World)
    requires Inv(x)
    ensures Enabled(Fail(x), LookW) && After(Fail(x), LookW) == Relooked(x)
    ensures Counts(Relooked(x)) && Kept(Relooked(x))
  {
  }

  lemma OneStep(x: World, s: Step, rest: seq<Step>)
    requires Enabled(x, s) && ValidRun(After(x, s), rest)
    ensures ValidRun(x, [s] + rest) && Final(x, [s] + rest) == Final(After(x, s), rest)
  {
    assert ([s] + rest)[1..] == rest;
  }

  // ---------- a run to the second write ----------

  lemma {:induction false} JoinRuns(x: World, one: seq<Step>, two: seq<Step>)
    requires ValidRun(x, one) && ValidRun(Final(x, one), two)
    ensures ValidRun(x, one + two) && Final(x, one + two) == Final(Final(x, one), two)
    decreases |one|
  {
    if one == [] {
      assert one + two == two;
    } else {
      JoinRuns(After(x, one[0]), one[1..], two);
      OneStep(x, one[0], one[1..] + two);
      assert one + two == [one[0]] + (one[1..] + two);
    }
  }

  lemma StepAfter(x: World, steps: seq<Step>, s: Step)
    requires ValidRun(x, steps) && Enabled(Final(x, steps), s)
    ensures ValidRun(x, steps + [s]) && Final(x, steps + [s]) == After(Final(x, steps), s)
  {
    var f := Final(x, steps);
    assert ValidRun(After(f, s), []) && Final(After(f, s), []) == After(f, s);
    OneStep(f, s, []);
    assert [s] + [] == [s];
    JoinRuns(x, steps, [s]);
  }

  /** Neither thread is in the middle of anything. */
  ghost predicate Quiet(x: World) {
    Inv(x) && x.worker.Idle? && x.collector.Resting?
  }

  function Fills(n: nat): seq<Step> {
    if n == 0 then [] else [Fill] + Fills(n - 1)
  }

  ghost predicate Reaches(x: World, steps: seq<Step>, f: World) {
    ValidRun(x, steps) && Final(x, steps) == f
  }

  lemma ReachesOne(x: World, s: Step, rest: seq<Step>, f: World)
    requires Enabled(x, s) && Reaches(After(x, s), rest, f)
    ensures Reaches(x, [s] + rest, f)
  {
    OneStep(x, s, rest);
  }

  lemma ReachesThen(x: World, one: seq<Step>, y: World, two: seq<Step>, f: World)
    requires Reaches(x, one, y) && Reaches(y, two, f)
    ensures Reaches(x, one + two, f)
  {
    JoinRuns(x, one, two);
  }

  lemma ReachesStep(x: World, steps: seq<Step>, y: World, s: Step)
    requires Reaches(x, steps, y) && Enabled(y, s)
    ensures Reaches(x, steps + [s], After(y, s))
  {
    StepAfter(x, steps, s);
  }

  /** Filling in n bytes changes only the ring and the count of them. */
  lemma {:induction false} FillsRun(x: World, n: nat) returns (f: World)
    requires Inv(x) && x.worker.Filling? && x.worker.done + n <= FillLength(x, x.worker.msg)
    ensures Reaches(x, Fills(n), f) && Inv(f) && Size(f) == Size(x)
    ensures f == x.(buf := f.buf, worker := Filling(x.worker.msg, x.worker.done + n))
    decreases n
  {
    f := x;
    if n > 0 {
      var y := FillOnce(x);
      f := FillsRun(y, n - 1);
      ReachesOne(x, Fill, Fills(n - 1), f);
    }
  }

  lemma FillOnce(x: World) returns (y: World)
    requires Inv(x) && Enabled(x, Fill)
    ensures y == After(x, Fill) && Inv(y) && Size(y) == Size(x)
    ensures y == x.(buf := y.buf, worker := Filling(x.worker.msg, x.worker.done + 1))
    ensures FillLength(y, y.worker.msg) == FillLength(x, x.worker.msg)
  {
    FillKeeps(x);
    y := After(x, Fill);
  }

  /** The worker looks at r and finds room. */
  lemma ComposeRun(x: World, msg: Bytes) returns (y: World)
    requires Quiet(x) && |msg| < KLOG_ENTRY_SIZE && |x.accepted| + KLOG_ENTRY_SIZE < x.taken + Size(x)
    ensures Reaches(x, [LookR] + [Compose(msg)], y) && Inv(y)
    ensures y == x.(worker := Filling(msg, 0), seenTaken := x.taken)
  {
    RemainIs(x.taken, |x.accepted|, Size(x));
    StepKeeps(x, LookR);
    y := After(After(x, LookR), Compose(msg));
    StepKeeps(After(x, LookR), Compose(msg));
    assert Reaches(y, [], y) && [Compose(msg)] + [] == [Compose(msg)];
    ReachesOne(After(x, LookR), Compose(msg), [], y);
    ReachesOne(x, LookR, [Compose(msg)], y);
  }

  /** A worker writes a whole entry. */
  lemma WholeWrite(x: World, msg: Bytes) returns (steps: seq<Step>, f: World)
    requires Quiet(x) && |msg| < KLOG_ENTRY_SIZE && |x.accepted| + KLOG_ENTRY_SIZE < x.taken + Size(x)
    ensures Reaches(x, steps, f) && Quiet(f) && Size(f) == Size(x)
    ensures f.taken == x.taken && f.accepted == x.accepted + msg
  {
    var y := ComposeRun(x, msg);
    var n := FillLength(y, msg);
    var z := FillsRun(y, n);
    ReachesThen(x, [LookR] + [Compose(msg)], y, Fills(n), z);
    steps := [LookR] + [Compose(msg)] + Fills(n);
    ReachesStep(x, steps, z, Publish);
    PublishKeeps(z);
    steps, f := steps + [Publish], After(z, Publish);
  }

  /** The collector puts out everything there is. */
  lemma WholeDrain(x: World) returns (steps: seq<Step>, f: World)
    requires Quiet(x)
    ensures Reaches(x, steps, f) && Quiet(f) && Size(f) == Size(x)
    ensures f.accepted == x.accepted && f.taken == |x.accepted|
  {
    var n := |x.accepted| - x.taken;
    var y := Relooked(x);
    Relooks(x);
    EmitsRun(y, n);
    var z := Emitted(y, n);
    ReachesOne(x, LookW, Emits(n), z);
    steps := [LookW] + Emits(n);
    RunKeeps(x, steps);
    ReachesStep(x, steps, z, Stop);
    StopKeeps(z);
    steps, f := steps + [Stop], After(z, Stop);
  }

  /** Writing and draining a byte at a time takes an empty ring to any position. */
  lemma {:induction false} SpinTo(x: World, k: nat) returns (steps: seq<Step>, f: World)
    requires Quiet(x) && x.taken == |x.accepted| <= k && Size(x) > KLOG_ENTRY_SIZE
    ensures Reaches(x, steps, f) && Quiet(f) && Size(f) == Size(x) && f.taken == |f.accepted| == k
    decreases k - |x.accepted|
  {
    steps, f := [], x;
    if |x.accepted| < k {
      var one, y := WholeWrite(x, [0]);
      var two, z := WholeDrain(y);
      ReachesThen(x, one, y, two, z);
      var three;
      three, f := SpinTo(z, k);
      ReachesThen(x, one + two, z, three, f);
      steps := one + two + three;
    }
  }

  /** From an empty ring at its last position: an entry of two bytes wraps around, and
      the collector has put out the first of them. */
  lemma WrapRun(x: World) returns (steps: seq<Step>, f: World)
    requires Quiet(x) && Size(x) > KLOG_ENTRY_SIZE && x.taken == |x.accepted| == Size(x) - 1
    ensures Reaches(x, steps, f) && AtSecondWrite(f)
  {
    var y;
    steps, y := WholeWrite(x, [0, 0]);
    Relooks(y);
    ReachesStep(x, steps, y, LookW);
    steps := steps + [LookW];
    EmitsOne(Relooked(y));
    ReachesStep(x, steps, Relooked(y), Emit);
    steps, f := steps + [Emit], Emitted(Relooked(y), 1);
  }

  /** A ring that is no larger than an entry never takes one. */
  lemma {:induction false} NothingFits(x: World, steps: seq<Step>)
    requires Inv(x) && Size(x) <= KLOG_ENTRY_SIZE && x.accepted == [] && !x.worker.Filling? && ValidRun(x, steps)
    ensures Inv(Final(x, steps)) && Final(x, steps).accepted == []
    decreases |steps|
  {
    if steps != [] {
      StepKeeps(x, steps[0]);
      NothingFits(After(x, steps[0]), steps[1..]);
    }
  }

  /** Some run reaches the second write exactly when the ring is larger than an entry,
      and then its failure makes the output no prefix of what was accepted. */
  lemma SecondFailureExactlyWhen(x: World)
    requires Init(x)
    ensures (exists steps, f :: Reaches(x, steps, f) && AtSecondWrite(f)) <==> Size(x) > KLOG_ENTRY_SIZE
    ensures Size(x) > KLOG_ENTRY_SIZE ==> exists steps, f, n :: Reaches(x, steps, f) && RepeatsAfter(f, n)
  {
    if Size(x) > KLOG_ENTRY_SIZE {
      var steps, f, n := RunToSecondWrite(x);
    }
    forall steps, f | Reaches(x, steps, f) && AtSecondWrite(f) ensures Size(x) > KLOG_ENTRY_SIZE {
      if Size(x) <= KLOG_ENTRY_SIZE {
        NothingFits(x, steps);
      }
    }
  }

  lemma RunToSecondWrite(x: World) returns (steps: seq<Step>, f: World, n: nat)
    requires Init(x) && Size(x) > KLOG_ENTRY_SIZE
    ensures Reaches(x, steps, f) && AtSecondWrite(f) && RepeatsAfter(f, n)
  {
    var one, y := SpinTo(x, Size(x) - 1);
    var two;
    two, f := WrapRun(y);
    ReachesThen(x, one, y, two, f);
    steps := one + two;
    RunKeeps(x, steps);
    SecondFailureRepeats(f);
    n := |f.accepted| - f.taken;
  }

  /** If the second write fails now, a pass of n bytes makes the output no prefix. */
  predicate RepeatsAfter(x: World, n: nat) {
    && AtSecondWrite(x) && ValidRun(Fail(x), Pass(n))
    && !(Final(Fail(x), Pass(n)).output <= x.accepted)
  }

  // ---------- the two routines ----------

  /** A ring whose threads do not overlap. */
  class Kbuf {
    var buf: array<Byte>
    var rIdx: nat
    var wIdx: nat
    ghost var pending: Bytes

    ghost predicate Valid()
      reads this, buf
    {
      && rIdx < buf.Length && wIdx < buf.Length
      && |pending| == Available(rIdx, wIdx, buf.Length)
      && forall j :: 0 <= j < |pending| ==> buf[Ahead(rIdx, j, buf.Length)] == pending[j]
    }

    /** klog_buf_create, for room for so many entries */
    constructor (entries: nat)
      requires entries > 0
      ensures Valid() && fresh(buf) && buf.Length == KLOG_ENTRY_SIZE * entries && pending == []
    {
      buf := new Byte[KLOG_ENTRY_SIZE * entries](_ => 0);
      rIdx, wIdx := 0, 0;
      pending := [];
    }

    /** Put an entry behind w_idx; in place it is followed by a zero. */
    method PutEntry(msg: Bytes)
      requires wIdx < buf.Length && |msg| < KLOG_ENTRY_SIZE <= buf.Length
      modifies buf
      ensures forall j :: 0 <= j < |msg| ==> buf[Ahead(wIdx, j, buf.Length)] == msg[j]
      ensures forall j :: KLOG_ENTRY_SIZE <= j < buf.Length ==>
                buf[Ahead(wIdx, j, buf.Length)] == old(buf[Ahead(wIdx, j, buf.Length)])
    {
      var remain := buf.Length - wIdx;
      if remain < KLOG_ENTRY_SIZE {
        if |msg| > remain {
          Copy(buf, wIdx, msg[..remain]);
          Copy(buf, 0, msg[remain..]);
        } else {
          Copy(buf, wIdx, msg);
        }
      } else {
        Copy(buf, wIdx, msg + [0]);
      }
    }

    /** _klog_write: the whole entry is taken, or none of it for want of room. */
    method Write(msg: Bytes) returns (logged: bool)
      requires Valid() && |msg| < KLOG_ENTRY_SIZE
      modifies this`wIdx, this`pending, buf
      ensures Valid()
      ensures logged <==> buf.Length - |old(pending)| - 1 >= KLOG_ENTRY_SIZE
      ensures pending == if logged then old(pending) + msg else old(pending)
    {
      if Remain(rIdx, wIdx, buf.Length) < KLOG_ENTRY_SIZE {
        return false;
      }
      PutEntry(msg);
      forall j | 0 <= j < |pending| ensures buf[Ahead(rIdx, j, buf.Length)] == pending[j] {
        Behind(rIdx, wIdx, j, buf.Length);
      }
      forall j | 0 <= j < |msg| ensures buf[Ahead(rIdx, |pending| + j, buf.Length)] == msg[j] {
        Behind(rIdx, wIdx, |pending| + j, buf.Length);
      }
      MoveW(rIdx, wIdx, |msg|, buf.Length);
      wIdx := Incr(wIdx, |msg|, buf.Length);
      pending := pending + msg;
      return true;
    }

    /** The bytes that klog_read hands to its output, which accepts at most first
        bytes of the first write and second bytes of the second. */
    method Collect(first: nat, second: nat) returns (out: Bytes)
      requires Valid()
      ensures |out| <= |pending| && out == pending[..|out|]
      ensures first >= buf.Length && second >= buf.Length ==> |out| == |pending|
    {
      if rIdx <= wIdx {
        var n := if first < wIdx - rIdx then first else wIdx - rIdx;
        out := buf[rIdx..rIdx + n];
      } else {
        var n := if first < buf.Length - rIdx then first else buf.Length - rIdx;
        out := buf[rIdx..rIdx + n];
        if n == buf.Length - rIdx {
          var m := if second < wIdx then second else wIdx;
          out := out + buf[..m];
        }
      }
      assert forall j :: 0 <= j < |out| ==> out[j] == buf[Ahead(rIdx, j, buf.Length)];
    }

    /** klog_read */
    method Read(first: nat, second: nat) returns (out: Bytes)
      requires Valid()
      modifies this`rIdx, this`pending
      ensures Valid() && old(pending) == out + pending
      ensures first >= buf.Length && second >= buf.Length ==> pending == []
    {
      out := Collect(first, second);
      MoveR(rIdx, wIdx, |out|, buf.Length);
      rIdx := Incr(rIdx, |out|, buf.Length);
      pending := pending[|out|..];
    }
  }

  /** Position j after r, counted from w instead. */
  lemma Behind(r: nat, w: nat, j: nat, size: nat)
    requires r < size && w < size && j < size
    ensures var a := Available(r, w, size);
            && 0 <= a < size
            && Ahead(r, j, size) == Ahead(w, if j < a then j - a + size else j - a, size)
  {
  }

  lemma MoveW(r: nat, w: nat, n: nat, size: nat)
    requires r < size && w < size && Available(r, w, size) + n < size
    ensures Incr(w, n, size) < size
    ensures Available(r, Incr(w, n, size), size) == Available(r, w, size) + n
  {
    SmallMod(w + n, size);
  }

  lemma MoveR(r: nat, w: nat, n: nat, size: nat)
    requires r < size && w < size && n <= Available(r, w, size)
    ensures Incr(r, n, size) < size
    ensures Available(Incr(r, n, size), w, size) == Available(r, w, size) - n
    ensures forall j :: 0 <= j && n + j < size ==> Ahead(Incr(r, n, size), j, size) == Ahead(r, n + j, size)
  {
    SmallMod(r + n, size);
  }
}
