/**
The UMAC receive ring: 256 descriptors that hardware fills and `umac_rx` empties, synchronised by
nothing but the owner bit of each descriptor. A turn of the receive loop is three steps: the test of
the owner bit, the store that gives the descriptor back, and the store that resets its length behind
that. Hardware steps fall anywhere between them. What the driver reads before it gives a descriptor
back is its own.
*/
module UmacRing {
  import opened Bytes

  const MAX_RX_DESC_ENTRIES: nat := 0x100
  const MAX_RX_FRAME_SIZE: nat := 0x600
  const MAX_FRAME_SIZE: nat := 1514
  const RING_ENTRY_HW_OWN: bv16 := 0x8000

  predicate HwOwned(status: bv16) {
    status & RING_ENTRY_HW_OWN != 0
  }

  lemma ClearedIsSoftware(bits: bv16)
    ensures !HwOwned(bits & !RING_ENTRY_HW_OWN)
    ensures HwOwned(RING_ENTRY_HW_OWN)
  {
  }

  // The descriptor k places behind descriptor i.
  function Around(i: nat, k: nat): nat {
    if i + k >= MAX_RX_DESC_ENTRIES then i + k - MAX_RX_DESC_ENTRIES else i + k
  }

  function TotalBytes(frames: seq<seq<byte>>): nat {
    if frames == [] then 0 else TotalBytes(frames[..|frames| - 1]) + |frames[|frames| - 1]|
  }

  function Joined(frames: seq<seq<byte>>): seq<byte> {
    if frames == [] then [] else frames[0] + Joined(frames[1..])
  }

  /** The byte statistics count the bytes of all frames, end to end. */
  lemma {:induction false} BytesCounted(frames: seq<seq<byte>>)
    ensures TotalBytes(frames) == |Joined(frames)|
    decreases |frames|
  {
    if frames != [] {
      var front, last := frames[..|frames| - 1], frames[|frames| - 1];
      BytesCounted(front);
      JoinedSnoc(front, last);
      assert frames == front + [last];
    }
  }

  lemma {:induction false} JoinedSnoc(frames: seq<seq<byte>>, f: seq<byte>)
    ensures |Joined(frames + [f])| == |Joined(frames)| + |f|
    decreases |frames|
  {
    var all := frames + [f];
    if frames == [] {
      assert all[1..] == [];
    } else {
      JoinedSnoc(frames[1..], f);
      assert all[1..] == frames[1..] + [f];
    }
  }

  // ----- The ring as a value -----

  function FrameIn(row: seq<byte>, n: nat): seq<byte> {
    row[..Min(n, |row|)]
  }

  // `first` is where the software-owned descriptors begin and `pending` how many there are.
  datatype Ring = Ring(status: seq<bv16>, count: seq<nat>, rows: seq<seq<byte>>, first: nat, pending: nat)

  ghost predicate Shaped(r: Ring) {
    && |r.status| == |r.count| == |r.rows| == MAX_RX_DESC_ENTRIES
    && r.first < MAX_RX_DESC_ENTRIES && r.pending <= MAX_RX_DESC_ENTRIES
    && (forall i :: 0 <= i < MAX_RX_DESC_ENTRIES ==> |r.rows[i]| == MAX_RX_FRAME_SIZE)
    && (forall i :: 0 <= i < MAX_RX_DESC_ENTRIES ==> r.count[i] <= MAX_RX_FRAME_SIZE)
  }

  // Software owns exactly the cyclic range of `pending` descriptors from `first` on.
  ghost predicate OwnsRange(r: Ring)
    requires Shaped(r)
  {
    forall k :: 0 <= k < MAX_RX_DESC_ENTRIES ==> (HwOwned(r.status[Around(r.first, k)]) <==> k >= r.pending)
  }

  // The frames in that range, in order.
  function PendingFrames(r: Ring): (q: seq<seq<byte>>)
    requires Shaped(r)
    ensures |q| == r.pending
  {
    seq(r.pending, k requires 0 <= k < r.pending =>
      FrameIn(r.rows[Around(r.first, k)], r.count[Around(r.first, k)]))
  }

  lemma HardwareFills(r: Ring, i: nat, row: seq<byte>, n: nat, status: bv16) returns (r': Ring)
    requires Shaped(r) && OwnsRange(r) && i == Around(r.first, r.pending) && HwOwned(r.status[i])
    requires |row| == MAX_RX_FRAME_SIZE && n <= MAX_RX_FRAME_SIZE && !HwOwned(status)
    ensures r' == Ring(r.status[i := status], r.count[i := n], r.rows[i := row], r.first, r.pending + 1)
    ensures r.pending < MAX_RX_DESC_ENTRIES && Shaped(r') && OwnsRange(r')
    ensures PendingFrames(r') == PendingFrames(r) + [FrameIn(row, n)]
    ensures Around(i, 1) == Around(r.first, r.pending + 1)
  {
    hide HwOwned;
    assert Around(r.first, 0) == r.first;
    r' := Ring(r.status[i := status], r.count[i := n], r.rows[i := row], r.first, r.pending + 1);
    assert forall k :: 0 <= k < MAX_RX_DESC_ENTRIES && k != r.pending ==> Around(r.first, k) != i;
    var q, q' := PendingFrames(r), PendingFrames(r');
    assert forall k :: 0 <= k < r.pending ==> q'[k] == q[k];
    assert q'[r.pending] == FrameIn(row, n);
    assert q' == q + [FrameIn(row, n)];
  }

  // Counting from the next descriptor instead of from this one.
  lemma NextAround(cur: nat)
    requires cur < MAX_RX_DESC_ENTRIES
    ensures Around(cur, 0) == cur == Around(Around(cur, 1), MAX_RX_DESC_ENTRIES - 1)
    ensures forall k :: 0 <= k < MAX_RX_DESC_ENTRIES - 1 ==>
      Around(Around(cur, 1), k) == Around(cur, k + 1) != cur
    ensures forall k :: 0 <= k <= MAX_RX_DESC_ENTRIES ==> Around(cur, k) < MAX_RX_DESC_ENTRIES
  {
    var next := Around(cur, 1);
    assert next == if cur == 0xFF then 0 else cur + 1;
    forall k | 0 <= k < MAX_RX_DESC_ENTRIES - 1 ensures Around(next, k) == Around(cur, k + 1) != cur {
    }
  }

  // The store to `status` that gives the first descriptor back takes the oldest frame out of the range.
  lemma StatusStored(r: Ring, status: bv16) returns (r': Ring)
    requires Shaped(r) && OwnsRange(r) && !HwOwned(r.status[r.first]) && HwOwned(status)
    ensures r.pending > 0
    ensures r' == Ring(r.status[r.first := status], r.count, r.rows, Around(r.first, 1), r.pending - 1)
    ensures Shaped(r') && OwnsRange(r')
    ensures PendingFrames(r) == [FrameIn(r.rows[r.first], r.count[r.first])] + PendingFrames(r')
    ensures Around(r.first, r.pending) == Around(r'.first, r'.pending)
  {
    hide HwOwned;
    var cur := r.first;
    assert Around(cur, 0) == cur;
    r' := Ring(r.status[cur := status], r.count, r.rows, Around(cur, 1), r.pending - 1);
    NextAround(cur);
    hide Around;
    var q, q' := PendingFrames(r), PendingFrames(r');
    assert forall k :: 0 <= k < r'.pending ==> q'[k] == q[k + 1];
    assert q == [q[0]] + q';
  }

  // The store to `count` behind it falls on the descriptor in front of the range. Only if the range
  // goes all the way round does that descriptor hold a frame again.
  lemma CountStored(r: Ring, cur: nat, n: nat) returns (r': Ring)
    requires Shaped(r) && OwnsRange(r) && cur < MAX_RX_DESC_ENTRIES && r.first == Around(cur, 1)
    requires n <= MAX_RX_FRAME_SIZE
    ensures r' == r.(count := r.count[cur := n]) && Shaped(r') && OwnsRange(r')
    ensures PendingFrames(r') == if r.pending < MAX_RX_DESC_ENTRIES then PendingFrames(r)
                                 else PendingFrames(r)[MAX_RX_DESC_ENTRIES - 1 := FrameIn(r.rows[cur], n)]
    ensures r.pending == MAX_RX_DESC_ENTRIES ==>
      PendingFrames(r)[MAX_RX_DESC_ENTRIES - 1] == FrameIn(r.rows[cur], r.count[cur])
  {
    hide HwOwned;
    r' := r.(count := r.count[cur := n]);
    NextAround(cur);
    hide Around;
    var q, q' := PendingFrames(r), PendingFrames(r');
    assert forall k :: 0 <= k < r.pending && k < MAX_RX_DESC_ENTRIES - 1 ==> q'[k] == q[k];
  }

  // ----- What the ring means: a bounded queue between two parties -----

  // A frame arriving at the hardware, with the status bits it reports.
  datatype Arrival = Arrival(frame: seq<byte>, bits: bv16)

  predicate FitsFrame(a: Arrival) {
    |a.frame| <= MAX_RX_FRAME_SIZE
  }

  // Where the driver is in a turn: before the test, before the store to `status`, or before the
  // store to `count`.
  datatype Phase = Idle | Found | Released

  datatype RxStep = Fill(a: Arrival) | Test | Take(allocOk: bool) | Finish

  datatype RxQueue = RxQueue(pending: seq<seq<byte>>, delivered: seq<seq<byte>>, dropped: nat, phase: Phase)

  // A step of the driver that is not due changes nothing.
  function QueueStep(q: RxQueue, s: RxStep): RxQueue {
    match s
    case Fill(a) =>
      if |q.pending| < MAX_RX_DESC_ENTRIES then q.(pending := q.pending + [a.frame]) else q
    case Test => if q.phase.Idle? && q.pending != [] then q.(phase := Found) else q
    case Take(allocOk) =>
      if !q.phase.Found? || q.pending == [] then q
      else if !allocOk then q.(dropped := q.dropped + 1, phase := Idle)
      else RxQueue(q.pending[1..], q.delivered + [q.pending[0]], q.dropped, Released)
    case Finish => if q.phase.Released? then q.(phase := Idle) else q
  }

  function QueueRun(q: RxQueue, steps: seq<RxStep>): RxQueue {
    if steps == [] then q
    else QueueStep(QueueRun(q, steps[..|steps| - 1]), steps[|steps| - 1])
  }

  // The frames that found a free descriptor, in order of arrival.
  function Received(q: RxQueue, steps: seq<RxStep>): seq<seq<byte>> {
    if steps == [] then []
    else
      var front, last := steps[..|steps| - 1], steps[|steps| - 1];
      Received(q, front)
      + (if last.Fill? && |QueueRun(q, front).pending| < MAX_RX_DESC_ENTRIES then [last.a.frame] else [])
  }

  // Everything that ever came in: delivered and pending.
  function Log(q: RxQueue): seq<seq<byte>> {
    q.delivered + q.pending
  }

  /**
  Exactly-once delivery in the queue. Over every interleaving of arrivals and driver steps, allocation
  failures included, what was delivered followed by what is pending is what was there before followed
  by what was received: no frame is lost, duplicated or reordered, and never more than 256 wait.
  */
  lemma {:induction false} DeliveredOnce(q: RxQueue, steps: seq<RxStep>)
    requires |q.pending| <= MAX_RX_DESC_ENTRIES
    ensures var q' := QueueRun(q, steps);
            && Log(q') == Log(q) + Received(q, steps)
            && q.delivered <= q'.delivered && |q'.pending| <= 256
    decreases |steps|
  {
    if steps != [] {
      var front, last := steps[..|steps| - 1], steps[|steps| - 1];
      DeliveredOnce(q, front);
      var q1 := QueueRun(q, front);
      StepConserves(q1, last);
      if last.Fill? && |q1.pending| < MAX_RX_DESC_ENTRIES {
        ConcatAssociative(Log(q), Received(q, front), [last.a.frame]);
      }
    }
  }

  lemma StepConserves(q: RxQueue, s: RxStep)
    ensures Log(QueueStep(q, s))
            == Log(q) + (if s.Fill? && |q.pending| < MAX_RX_DESC_ENTRIES then [s.a.frame] else [])
  {
    if s.Take? && q.phase.Found? && q.pending != [] {
      assert q.pending == [q.pending[0]] + q.pending[1..];
    }
  }

  // ----- The window between the two stores -----

  // The store to `count` falls on a descriptor that was filled again, and changes its length.
  predicate Disturbs(q: RxQueue, s: RxStep) {
    && s.Finish? && q.phase.Released?
    && |q.pending| == 256 && |q.pending[255]| != 1514
  }

  // No frame of another length than 1514 reaches a released descriptor before its length is reset.
  predicate Undisturbed(q: RxQueue, steps: seq<RxStep>) {
    forall k :: 0 <= k < |steps| ==> !Disturbs(QueueRun(q, steps[..k]), steps[k])
  }

  lemma RunSnoc(q: RxQueue, steps: seq<RxStep>, s: RxStep)
    ensures QueueRun(q, steps + [s]) == QueueStep(QueueRun(q, steps), s)
    ensures Undisturbed(q, steps + [s]) <==> Undisturbed(q, steps) && !Disturbs(QueueRun(q, steps), s)
  {
    hide QueueStep, Disturbs, QueueRun;
    var all := steps + [s];
    assert all[..|steps|] == steps && all[|steps|] == s;
    assert forall k :: 0 <= k < |steps| ==> all[..k] == steps[..k] && all[k] == steps[k];
    RunUnfolds(q, all);
  }

  lemma RunUnfolds(q: RxQueue, steps: seq<RxStep>)
    ensures steps == [] ==> QueueRun(q, steps) == q
    ensures steps != [] ==> QueueRun(q, steps) == QueueStep(QueueRun(q, steps[..|steps| - 1]), steps[|steps| - 1])
  {
  }

  function Fills(arrivals: seq<Arrival>): (s: seq<RxStep>)
    ensures |s| == |arrivals| && forall i :: 0 <= i < |s| ==> s[i] == Fill(arrivals[i])
  {
    seq(|arrivals|, i requires 0 <= i < |arrivals| => Fill(arrivals[i]))
  }

  function FramesOf(arrivals: seq<Arrival>): (f: seq<seq<byte>>)
    ensures |f| == |arrivals| && forall i :: 0 <= i < |f| ==> f[i] == arrivals[i].frame
  {
    seq(|arrivals|, i requires 0 <= i < |arrivals| => arrivals[i].frame)
  }

  lemma {:induction false} FillsRun(q: RxQueue, steps: seq<RxStep>, arrivals: seq<Arrival>)
    requires |QueueRun(q, steps).pending| <= MAX_RX_DESC_ENTRIES
    ensures var q1, q2 := QueueRun(q, steps), QueueRun(q, steps + Fills(arrivals));
            var m := Min(|arrivals|, MAX_RX_DESC_ENTRIES - |q1.pending|);
            && q2 == q1.(pending := q1.pending + FramesOf(arrivals[..m]))
            && (Undisturbed(q, steps + Fills(arrivals)) <==> Undisturbed(q, steps))
    decreases |arrivals|
  {
    hide QueueRun, Undisturbed;
    assert arrivals[..|arrivals|] == arrivals;
    if arrivals == [] {
      assert steps + Fills(arrivals) == steps;
    } else {
      var front, last := arrivals[..|arrivals| - 1], arrivals[|arrivals| - 1];
      FillsRun(q, steps, front);
      assert steps + Fills(arrivals) == (steps + Fills(front)) + [Fill(last)];
      RunSnoc(q, steps + Fills(front), Fill(last));
    }
  }

  /**
  A turn with arrivals in the window. Of the frames that arrive between the two stores, at most one
  can reach the released descriptor: the one that fills the ring. The turn leaves every length alone
  if and only if there is no such frame or its length is 1514; in a full ring it is the first one.
  */
  lemma WindowTurn(q: RxQueue, arrivals: seq<Arrival>)
    requires q.phase.Idle? && 0 < |q.pending| <= MAX_RX_DESC_ENTRIES
    ensures var room := MAX_RX_DESC_ENTRIES - |q.pending|;
            var steps := [Test] + [Take(true)] + Fills(arrivals) + [Finish];
            && (Undisturbed(q, steps) <==> |arrivals| <= room || |arrivals[room].frame| == MAX_FRAME_SIZE)
            && QueueRun(q, steps).pending
               == q.pending[1..] + FramesOf(arrivals[..Min(|arrivals|, room + 1)])
  {
    hide QueueRun, Undisturbed;
    assert QueueRun(q, []) == q && Undisturbed(q, []) by { RunNothing(q); }
    assert [] + [Test] == [Test];
    RunSnoc(q, [], Test);
    RunSnoc(q, [Test], Take(true));
    FillsRun(q, [Test] + [Take(true)], arrivals);
    RunSnoc(q, [Test] + [Take(true)] + Fills(arrivals), Finish);
  }

  /** In a full ring one frame in the window is enough, unless it happens to have the length stored. */
  lemma FullRingWindow(q: RxQueue, a: Arrival)
    requires q.phase.Idle? && |q.pending| == MAX_RX_DESC_ENTRIES
    ensures var steps := [Test] + [Take(true)] + Fills([a]) + [Finish];
            && (Undisturbed(q, steps) <==> |a.frame| == MAX_FRAME_SIZE)
            && QueueRun(q, steps).pending == q.pending[1..] + [a.frame]
  {
    hide QueueRun, Undisturbed, Fills;
    WindowTurn(q, [a]);
    assert [a][..1] == [a];
  }

  lemma RunNothing(q: RxQueue)
    ensures QueueRun(q, []) == q && Undisturbed(q, [])
  {
  }

  // ----- The ring against the queue -----

  // f is g, or g with its length made 1514: cut, or run on into what the buffer held behind it.
  predicate Resembles(f: seq<byte>, g: seq<byte>) {
    f == g || (|f| == 1514 && forall i :: 0 <= i < |f| && i < |g| ==> f[i] == g[i])
  }

  // The ring holds what the queue holds, frame for frame, but for lengths; and for lengths too
  // exactly if `intact`.
  ghost predicate Matches(q: RxQueue, ideal: RxQueue, intact: bool) {
    && q.phase == ideal.phase && q.dropped == ideal.dropped
    && |q.pending| == |ideal.pending| <= MAX_RX_DESC_ENTRIES && |q.delivered| == |ideal.delivered|
    && (forall i :: 0 <= i < |Log(q)| ==> Resembles(Log(q)[i], Log(ideal)[i]))
    && (Log(q) == Log(ideal) <==> intact)
    && (q.phase.Found? ==> q.pending != [])
    && (q.phase.Released? && |q.pending| == MAX_RX_DESC_ENTRIES ==>
          q.pending[MAX_RX_DESC_ENTRIES - 1] == ideal.pending[MAX_RX_DESC_ENTRIES - 1])
  }

  lemma IntactIsIdeal(q: RxQueue, ideal: RxQueue, intact: bool)
    requires Matches(q, ideal, intact)
    ensures q == ideal <==> intact
  {
    hide Resembles;
    if intact {
      assert q.delivered == Log(q)[..|q.delivered|] && q.pending == Log(q)[|q.delivered|..];
      assert ideal.delivered == Log(ideal)[..|q.delivered|] && ideal.pending == Log(ideal)[|q.delivered|..];
    }
  }

  // Every step but Finish does to the ring what it does to the queue.
  lemma StepMatches(q: RxQueue, ideal: RxQueue, intact: bool, s: RxStep)
    requires Matches(q, ideal, intact) && !s.Finish?
    ensures Matches(QueueStep(q, s), QueueStep(ideal, s), intact)
  {
    hide Resembles;
    StepConserves(q, s);
    StepConserves(ideal, s);
    assert Log(q) + [] == Log(q) && Log(ideal) + [] == Log(ideal);
    if s.Fill? && |q.pending| < MAX_RX_DESC_ENTRIES {
      SameAppended(Log(q), Log(ideal), s.a.frame);
      SelfResembles(s.a.frame);
    }
  }

  lemma SelfResembles(f: seq<byte>)
    ensures Resembles(f, f)
  {
  }

  lemma SameAppended<T>(a: seq<T>, b: seq<T>, x: T)
    requires |a| == |b|
    ensures a + [x] == b + [x] <==> a == b
  {
    assert (a + [x])[..|a|] == a && (b + [x])[..|b|] == b;
  }

  // Finish may change the length of the frame that fills the ring.
  function Finished(q: RxQueue, f: seq<byte>): RxQueue {
    if |q.pending| == MAX_RX_DESC_ENTRIES then q.(phase := Idle, pending := q.pending[MAX_RX_DESC_ENTRIES - 1 := f])
    else q.(phase := Idle)
  }

  lemma FinishMatches(q: RxQueue, ideal: RxQueue, intact: bool, f: seq<byte>)
    requires Matches(q, ideal, intact) && q.phase.Released?
    requires |f| == MAX_FRAME_SIZE
    requires |q.pending| == MAX_RX_DESC_ENTRIES ==> Resembles(f, q.pending[MAX_RX_DESC_ENTRIES - 1])
    ensures Matches(Finished(q, f), QueueStep(ideal, Finish), intact && !Disturbs(ideal, Finish))
  {
    if |q.pending| == MAX_RX_DESC_ENTRIES {
      var k := |Log(q)| - 1;
      assert Log(Finished(q, f)) == Log(q)[k := f];
      assert Log(q)[k] == Log(ideal)[k] == ideal.pending[MAX_RX_DESC_ENTRIES - 1];
      hide Resembles;
      LastChanged(Log(q), Log(ideal), f);
      assert f == Log(ideal)[k] <==> |Log(ideal)[k]| == MAX_FRAME_SIZE by { SameLength(f, Log(ideal)[k]); }
    }
  }

  lemma SameLength(f: seq<byte>, g: seq<byte>)
    requires |f| == MAX_FRAME_SIZE && Resembles(f, g)
    ensures f == g <==> |g| == MAX_FRAME_SIZE
  {
  }

  lemma LastChanged<T>(a: seq<T>, b: seq<T>, x: T)
    requires |a| == |b| > 0 && a[|a| - 1] == b[|b| - 1]
    ensures a[|a| - 1 := x] == b <==> a == b && x == b[|b| - 1]
  {
    var n := |a| - 1;
    if a[n := x] == b {
      assert forall i :: 0 <= i < n ==> a[i] == a[n := x][i] == b[i];
      assert a[n := x][n] == x;
    }
  }

  // ----- The driver and the hardware -----

  // What the environment does around one turn: arrivals before the test, between the test and the
  // store to `status`, and between the two stores; and whether the allocation works.
  datatype Turn = Turn(before: seq<Arrival>, during: seq<Arrival>, between: seq<Arrival>, allocOk: bool)

  predicate FitsTurn(t: Turn) {
    && (forall i :: 0 <= i < |t.before| ==> FitsFrame(t.before[i]))
    && (forall i :: 0 <= i < |t.during| ==> FitsFrame(t.during[i]))
    && (forall i :: 0 <= i < |t.between| ==> FitsFrame(t.between[i]))
  }

  // How a turn ends: with a frame delivered, or at one of the two exits.
  datatype TurnEnd = Delivered | RingEmpty | NoMemory

  // The steps of the turn, behind the steps before it.
  function TurnTrace(trace: seq<RxStep>, t: Turn, end: TurnEnd): seq<RxStep> {
    var tested := trace + Fills(t.before) + [Test];
    match end
    case RingEmpty => tested
    case NoMemory => tested + Fills(t.during) + [Take(false)]
    case Delivered => tested + Fills(t.during) + [Take(true)] + Fills(t.between) + [Finish]
  }

  // The steps of n turns that each deliver a frame.
  function Steps(env: nat -> Turn, n: nat): seq<RxStep> {
    if n == 0 then [] else TurnTrace(Steps(env, n - 1), env(n - 1), Delivered)
  }

  class RxRing {
    const status: array<bv16>
    const count: array<nat>
    const framelist: array<seq<byte>>
    var rxCur: nat
    var rxDropped: nat
    var rxPackets: nat
    var rxBytes: nat
    // The hardware's own position.
    var hwPtr: nat
    // Where the driver is in its turn.
    var phase: Phase
    // How many descriptors are software-owned, and every frame passed up the network stack.
    ghost var pending: nat
    ghost var delivered: seq<seq<byte>>
    // The queue after the same steps, and whether no length was changed so far.
    ghost var ideal: RxQueue
    ghost var intact: bool

    ghost function State(): Ring
      reads this, status, count, framelist
    {
      Ring(status[..], count[..], framelist[..], if phase.Released? then Around(rxCur, 1) else rxCur, pending)
    }

    // The software-owned descriptors are exactly the cyclic range to the hardware pointer.
    ghost predicate RingValid()
      reads this, status, count, framelist
    {
      && status as object != count && status as object != framelist && count as object != framelist
      && rxCur < MAX_RX_DESC_ENTRIES
      && Shaped(State()) && OwnsRange(State()) && hwPtr == Around(State().first, pending)
    }

    // The statistics count the deliveries of finished turns.
    ghost predicate StatsValid()
      reads this
    {
      var n := |delivered| - if phase.Released? then 1 else 0;
      n >= 0 && rxPackets == n && rxBytes == TotalBytes(delivered[..n])
    }

    ghost predicate Valid()
      reads this, status, count, framelist
    {
      RingValid() && StatsValid() && Matches(View(), ideal, intact)
    }

    ghost function View(): RxQueue
      requires RingValid()
      reads this, status, count, framelist
    {
      RxQueue(PendingFrames(State()), delivered, rxDropped, phase)
    }

    // The queue has gone through these steps, from q0.
    ghost predicate Follows(q0: RxQueue, i0: bool, trace: seq<RxStep>)
      reads this
    {
      ideal == QueueRun(q0, trace) && intact == (i0 && Undisturbed(q0, trace))
    }

    // umac_init_ring_descriptors, receive part.
    constructor ()
      ensures Valid() && View() == ideal == RxQueue([], [], 0, Idle) && intact
      ensures fresh(status) && fresh(count) && fresh(framelist)
    {
      status := new bv16[MAX_RX_DESC_ENTRIES](_ => RING_ENTRY_HW_OWN);
      count := new nat[MAX_RX_DESC_ENTRIES](_ => MAX_RX_FRAME_SIZE);
      framelist := new seq<byte>[MAX_RX_DESC_ENTRIES](_ => Zeros(MAX_RX_FRAME_SIZE));
      rxCur, hwPtr, rxDropped, rxPackets, rxBytes := 0, 0, 0, 0, 0;
      pending, delivered, phase := 0, [], Idle;
      ideal, intact := RxQueue([], [], 0, Idle), true;
      new;
      ClearedIsSoftware(0);
    }

    // A hardware step: fill the next descriptor if it is owned, miss the frame otherwise.
    method HwFill(a: Arrival)
      requires Valid() && FitsFrame(a)
      modifies this`hwPtr, this`pending, this`ideal, status, count, framelist
      ensures Valid() && View() == QueueStep(old(View()), Fill(a))
      ensures ideal == QueueStep(old(ideal), Fill(a))
    {
      hide HwOwned, TotalBytes, Splice, PendingFrames, FrameIn, Matches;
      StepMatches(View(), ideal, intact, Fill(a));
      ghost var v := QueueStep(View(), Fill(a));
      FillDescriptor(a);
      ideal := QueueStep(ideal, Fill(a));
      assert View() == v;
    }

    method FillDescriptor(a: Arrival)
      requires RingValid() && FitsFrame(a)
      modifies this`hwPtr, this`pending, status, count, framelist
      ensures RingValid() && View() == QueueStep(old(View()), Fill(a))
    {
      hide HwOwned, TotalBytes, Splice, PendingFrames, FrameIn;
      var i := hwPtr;
      if HwOwned(status[i]) {
        ClearedIsSoftware(a.bits);
        FrontOfSplice(framelist[i], a.frame);
        ghost var row := Splice(framelist[i], 0, a.frame);
        ghost var r := HardwareFills(State(), i, row, |a.frame|, a.bits & !RING_ENTRY_HW_OWN);
        framelist[i] := Splice(framelist[i], 0, a.frame);
        count[i] := |a.frame|;
        status[i] := a.bits & !RING_ENTRY_HW_OWN;
        hwPtr := Around(hwPtr, 1);
        pending := pending + 1;
        assert State() == r;
      } else {
        FullWhenNotOwned(State());
      }
    }

    static lemma FullWhenNotOwned(r: Ring)
      requires Shaped(r) && OwnsRange(r) && !HwOwned(r.status[Around(r.first, r.pending)])
      ensures r.pending == MAX_RX_DESC_ENTRIES
    {
    }

    static lemma FrontOfSplice(row: seq<byte>, frame: seq<byte>)
      requires |frame| <= |row|
      ensures FrameIn(Splice(row, 0, frame), |frame|) == frame
    {
    }

    // Arrivals, one after the other.
    method HwFills(arrivals: seq<Arrival>, ghost q0: RxQueue, ghost i0: bool, ghost trace: seq<RxStep>)
      requires Valid() && Follows(q0, i0, trace)
      requires forall i :: 0 <= i < |arrivals| ==> FitsFrame(arrivals[i])
      modifies this`hwPtr, this`pending, this`ideal, status, count, framelist
      ensures Valid() && Follows(q0, i0, trace + Fills(arrivals))
      ensures old(View()).pending <= View().pending
    {
      hide QueueRun, Undisturbed, Disturbs, PendingFrames, HwOwned, TotalBytes, RingValid, Matches;
      assert trace + Fills(arrivals[..0]) == trace;
      for i := 0 to |arrivals|
        invariant Valid() && Follows(q0, i0, trace + Fills(arrivals[..i]))
        invariant old(View()).pending <= View().pending
      {
        var s := Fill(arrivals[i]);
        assert trace + Fills(arrivals[..i + 1]) == (trace + Fills(arrivals[..i])) + [s];
        RunSnoc(q0, trace + Fills(arrivals[..i]), s);
        assert !Disturbs(ideal, s) by { OnlyFinishDisturbs(ideal, s); }
        HwFill(arrivals[i]);
      }
      assert arrivals[..|arrivals|] == arrivals;
    }

    static lemma OnlyFinishDisturbs(q: RxQueue, s: RxStep)
      ensures !s.Finish? ==> !Disturbs(q, s)
    {
    }

    // Whether the descriptor at rxCur is software-owned says whether anything is pending.
    lemma OwnerBit()
      requires RingValid() && !phase.Released?
      ensures HwOwned(status[rxCur]) <==> View().pending == []
    {
      assert rxCur == Around(rxCur, 0);
    }

    // The test of the loop.
    method TestOwner() returns (found: bool)
      requires Valid() && phase.Idle?
      modifies this`phase, this`ideal
      ensures Valid() && View() == QueueStep(old(View()), Test) && ideal == QueueStep(old(ideal), Test)
      ensures found == phase.Found? == (View().pending != [])
    {
      hide HwOwned, PendingFrames, TotalBytes, Matches, OwnsRange;
      OwnerBit();
      StepMatches(View(), ideal, intact, Test);
      ghost var v := QueueStep(View(), Test);
      found := !HwOwned(status[rxCur]);
      if found {
        phase := Found;
      }
      ideal := QueueStep(ideal, Test);
      assert View() == v;
    }

    // Up to the store to `status`: allocate, copy the frame, pass it up, give the descriptor back.
    method TakeFrame(allocOk: bool) returns (rxlength: nat)
      requires Valid() && phase.Found?
      modifies this`phase, this`ideal, this`rxDropped, this`pending, this`delivered, status
      ensures Valid() && View() == QueueStep(old(View()), Take(allocOk))
      ensures ideal == QueueStep(old(ideal), Take(allocOk))
      ensures phase == if allocOk then Released else Idle
      ensures allocOk ==> rxlength == |delivered[|delivered| - 1]|
    {
      hide HwOwned, PendingFrames, TotalBytes, Matches, OwnsRange;
      assert View().pending != [] by { FoundPending(View(), ideal, intact); }
      StepMatches(View(), ideal, intact, Take(allocOk));
      ghost var v := QueueStep(View(), Take(allocOk));
      rxlength := count[rxCur];
      if !allocOk {
        rxDropped := rxDropped + 1;
        phase := Idle;
      } else {
        GiveBack();
      }
      ideal := QueueStep(ideal, Take(allocOk));
      assert View() == v;
    }

    static lemma FoundPending(q: RxQueue, ideal: RxQueue, intact: bool)
      requires Matches(q, ideal, intact) && q.phase.Found?
      ensures q.pending != []
    {
    }

    method GiveBack()
      requires RingValid() && StatsValid() && phase.Found? && View().pending != []
      modifies this`phase, this`pending, this`delivered, status
      ensures RingValid() && StatsValid() && View() == QueueStep(old(View()), Take(true))
      ensures phase.Released? && old(count[rxCur]) == |delivered[|delivered| - 1]|
    {
      hide HwOwned, PendingFrames, FrameIn, TotalBytes;
      OwnerBit();
      ClearedIsSoftware(0);
      ghost var r := StatusStored(State(), RING_ENTRY_HW_OWN);
      WholeFrame(framelist[rxCur], count[rxCur]);
      delivered := delivered + [FrameIn(framelist[rxCur], count[rxCur])];
      assert delivered[..|delivered| - 1] == old(delivered) == old(delivered)[..|old(delivered)|];
      status[rxCur] := RING_ENTRY_HW_OWN;
      pending := pending - 1;
      phase := Released;
      assert State() == r;
    }

    static lemma WholeFrame(row: seq<byte>, n: nat)
      requires n <= |row|
      ensures |FrameIn(row, n)| == n
    {
    }

    // Behind the store to `status`: reset the length, count the frame, go on to the next descriptor.
    method FinishTurn(rxlength: nat)
      requires Valid() && phase.Released? && rxlength == |delivered[|delivered| - 1]|
      modifies this`phase, this`ideal, this`intact, this`rxCur, this`rxPackets, this`rxBytes, count
      ensures Valid() && phase.Idle? && View().delivered == old(View()).delivered
      ensures ideal == QueueStep(old(ideal), Finish) && intact == (old(intact) && !Disturbs(old(ideal), Finish))
      ensures |View().pending| == |old(View()).pending|
    {
      hide HwOwned, PendingFrames, Matches, Shaped, OwnsRange, QueueStep, Disturbs, TotalBytes;
      ghost var f := StoreCount(rxlength);
      FinishMatches(old(View()), ideal, intact, f);
      intact := intact && !Disturbs(ideal, Finish);
      ideal := QueueStep(ideal, Finish);
    }

    method StoreCount(rxlength: nat) returns (ghost f: seq<byte>)
      requires RingValid() && StatsValid() && phase.Released? && rxlength == |delivered[|delivered| - 1]|
      modifies this`phase, this`rxCur, this`rxPackets, this`rxBytes, count
      ensures RingValid() && StatsValid() && View() == Finished(old(View()), f) && |f| == MAX_FRAME_SIZE
      ensures |old(View()).pending| == MAX_RX_DESC_ENTRIES ==>
        Resembles(f, old(View()).pending[MAX_RX_DESC_ENTRIES - 1])
    {
      hide HwOwned, PendingFrames, FrameIn, Resembles;
      ghost var r := CountStored(State(), rxCur, MAX_FRAME_SIZE);
      f := FrameIn(framelist[rxCur], MAX_FRAME_SIZE);
      WholeFrame(framelist[rxCur], MAX_FRAME_SIZE);
      SameRow(framelist[rxCur], count[rxCur]);
      assert delivered[..|delivered|] == delivered;
      count[rxCur] := MAX_FRAME_SIZE;
      rxPackets := rxPackets + 1;
      rxBytes := rxBytes + rxlength;
      rxCur := rxCur + 1;
      if rxCur >= MAX_RX_DESC_ENTRIES {
        rxCur := 0;
      }
      phase := Idle;
      assert State() == r;
    }

    static lemma SameRow(row: seq<byte>, n: nat)
      requires |row| == MAX_RX_FRAME_SIZE
      ensures Resembles(FrameIn(row, MAX_FRAME_SIZE), FrameIn(row, n))
    {
    }

    // One turn of the receive loop, with the arrivals around its steps.
    method ReceiveTurn(t: Turn, ghost q0: RxQueue, ghost i0: bool, ghost trace: seq<RxStep>) returns (end: TurnEnd)
      requires Valid() && phase.Idle? && FitsTurn(t) && Follows(q0, i0, trace)
      modifies this, status, count, framelist
      ensures Valid() && phase.Idle? && Follows(q0, i0, TurnTrace(trace, t, end))
      ensures |View().delivered| == |old(View()).delivered| + if end.Delivered? then 1 else 0
      ensures rxDropped == old(rxDropped) + if end.NoMemory? then 1 else 0
      ensures !end.RingEmpty? ==> end.Delivered? == t.allocOk
      ensures end.RingEmpty? ==> View().pending == []
      ensures end.NoMemory? ==> View().pending != []
    {
      hide QueueRun, Undisturbed, Disturbs, PendingFrames, HwOwned, TotalBytes, RingValid, Matches;
      HwFills(t.before, q0, i0, trace);
      var now := trace + Fills(t.before);
      RunSnoc(q0, now, Test);
      OnlyFinishDisturbs(ideal, Test);
      var found := TestOwner();
      now := now + [Test];
      if !found {
        return RingEmpty;
      }
      HwFills(t.during, q0, i0, now);
      now := now + Fills(t.during);
      RunSnoc(q0, now, Take(t.allocOk));
      OnlyFinishDisturbs(ideal, Take(t.allocOk));
      var rxlength := TakeFrame(t.allocOk);
      now := now + [Take(t.allocOk)];
      if !t.allocOk {
        return NoMemory;
      }
      CloseTurn(t.between, rxlength, q0, i0, now);
      return Delivered;
    }

    // The rest of the turn from the store to `status` on.
    method CloseTurn(arrivals: seq<Arrival>, rxlength: nat, ghost q0: RxQueue, ghost i0: bool, ghost trace: seq<RxStep>)
      requires Valid() && phase.Released? && rxlength == |delivered[|delivered| - 1]| && Follows(q0, i0, trace)
      requires forall i :: 0 <= i < |arrivals| ==> FitsFrame(arrivals[i])
      modifies this, status, count, framelist
      ensures Valid() && phase.Idle? && Follows(q0, i0, trace + Fills(arrivals) + [Finish])
      ensures delivered == old(delivered) && rxDropped == old(rxDropped)
    {
      hide QueueRun, Undisturbed, Disturbs, PendingFrames, HwOwned, TotalBytes, RingValid, Matches;
      HwFills(arrivals, q0, i0, trace);
      RunSnoc(q0, trace + Fills(arrivals), Finish);
      FinishTurn(rxlength);
    }

    /**
    One call of umac_rx, with arrivals and allocation failures decided by the environment around
    every step. It goes through whole turns that each deliver a frame, and it counts them: at most
    max(budget, 1). If it ends before its budget, its last turn found nothing pending, or found a
    frame and no memory for it, and then the frame is still pending.
    */
    method UmacRx(budget: int, env: nat -> Turn) returns (rxpktcount: nat, ghost end: TurnEnd)
      requires Valid() && phase.Idle? && forall i: nat :: FitsTurn(env(i))
      modifies this, status, count, framelist
      ensures Valid() && phase.Idle?
      ensures Follows(old(ideal), old(intact),
                      if end.Delivered? then Steps(env, rxpktcount)
                      else TurnTrace(Steps(env, rxpktcount), env(rxpktcount), end))
      ensures |View().delivered| == |old(View()).delivered| + rxpktcount
      ensures rxDropped == old(rxDropped) + if end.NoMemory? then 1 else 0
      ensures rxpktcount <= if budget >= 1 then budget else 1
      ensures end.Delivered? ==> rxpktcount >= budget && rxpktcount >= 1
      ensures end.RingEmpty? ==> View().pending == []
      ensures end.NoMemory? ==> View().pending != [] && !env(rxpktcount).allocOk
    {
      hide HwOwned, PendingFrames, TotalBytes, RingValid, Matches, QueueRun, Undisturbed, TurnTrace, FitsTurn;
      rxpktcount := 0;
      ghost var q0, i0 := ideal, intact;
      RunNothing(q0);
      while true
        invariant Valid() && phase.Idle? && Follows(q0, i0, Steps(env, rxpktcount))
        invariant |View().delivered| == |old(View()).delivered| + rxpktcount && rxDropped == old(rxDropped)
        invariant rxpktcount == 0 || rxpktcount < budget
        decreases budget - rxpktcount, rxpktcount == 0
      {
        var turn := ReceiveTurn(env(rxpktcount), q0, i0, Steps(env, rxpktcount));
        end := turn;
        if !turn.Delivered? {
          return;
        }
        rxpktcount := rxpktcount + 1;
        if rxpktcount >= budget {
          return;
        }
      }
    }
  }

  /**
  The ring and the queue. From a freshly initialised ring, any interleaving of hardware steps and
  driver steps, one shared access at a time: the ring does exactly what the queue does if and only if
  no frame of another length than 1514 reaches a released descriptor before its length is reset. In
  any case it holds and delivers the frames received, all of them, once and in order; only lengths
  may have changed.
  */
  method RunRing(steps: seq<RxStep>) returns (ring: RxRing)
    requires forall i :: 0 <= i < |steps| && steps[i].Fill? ==> FitsFrame(steps[i].a)
    ensures var q0 := RxQueue([], [], 0, Idle);
            && ring.Valid()
            && (ring.View() == QueueRun(q0, steps) <==> Undisturbed(q0, steps))
            && (Log(ring.View()) == Received(q0, steps) <==> Undisturbed(q0, steps))
            && |Log(ring.View())| == |Received(q0, steps)|
            && (forall i :: 0 <= i < |Received(q0, steps)| ==>
                  Resembles(Log(ring.View())[i], Received(q0, steps)[i]))
            && |ring.View().delivered| == |QueueRun(q0, steps).delivered|
  {
    hide QueueRun, Undisturbed, Disturbs, PendingFrames, HwOwned, TotalBytes, Matches, Received, Resembles;
    ghost var q0 := RxQueue([], [], 0, Idle);
    ring := new RxRing();
    RunNothing(q0);
    var rxlength := 0;
    for i := 0 to |steps|
      invariant fresh(ring) && fresh(ring.status) && fresh(ring.count) && fresh(ring.framelist)
      invariant ring.Valid() && ring.Follows(q0, true, steps[..i])
      invariant ring.phase.Released? ==> rxlength == |ring.delivered[|ring.delivered| - 1]|
    {
      rxlength := RunStep(ring, steps[i], rxlength, q0, steps[..i]);
      assert steps[..i + 1] == steps[..i] + [steps[i]];
    }
    assert steps[..|steps|] == steps;
    RunCompared(ring.View(), ring.ideal, ring.intact, q0, steps);
  }

  // One step of the two parties; the length read in TakeFrame is the driver's local variable.
  method RunStep(ring: RxRing, s: RxStep, rxlength: nat, ghost q0: RxQueue, ghost trace: seq<RxStep>)
    returns (rxlength': nat)
    requires ring.Valid() && ring.Follows(q0, true, trace) && (s.Fill? ==> FitsFrame(s.a))
    requires ring.phase.Released? ==> rxlength == |ring.delivered[|ring.delivered| - 1]|
    modifies ring, ring.status, ring.count, ring.framelist
    ensures ring.Valid() && ring.Follows(q0, true, trace + [s])
    ensures ring.phase.Released? ==> rxlength' == |ring.delivered[|ring.delivered| - 1]|
  {
    hide QueueRun, Undisturbed, PendingFrames, HwOwned, TotalBytes, RxRing.RingValid, Resembles;
    RunSnoc(q0, trace, s);
    rxlength' := rxlength;
    match s {
      case Fill(a) => ring.HwFill(a);
      case Test =>
        if ring.phase.Idle? { var _ := ring.TestOwner(); }
      case Take(allocOk) =>
        if ring.phase.Found? { rxlength' := ring.TakeFrame(allocOk); }
      case Finish =>
        if ring.phase.Released? { ring.FinishTurn(rxlength); }
    }
  }

  lemma RunCompared(q: RxQueue, ideal: RxQueue, intact: bool, q0: RxQueue, steps: seq<RxStep>)
    requires Matches(q, ideal, intact) && q0 == RxQueue([], [], 0, Idle)
    requires ideal == QueueRun(q0, steps) && intact == Undisturbed(q0, steps)
    ensures (q == ideal <==> intact) && (Log(q) == Received(q0, steps) <==> intact)
    ensures |Log(q)| == |Received(q0, steps)| && |q.delivered| == |ideal.delivered|
    ensures forall i :: 0 <= i < |Log(q)| ==> Resembles(Log(q)[i], Received(q0, steps)[i])
  {
    hide Resembles, QueueRun, Undisturbed;
    IntactIsIdeal(q, ideal, intact);
    DeliveredOnce(q0, steps);
    assert Log(q0) + Received(q0, steps) == Received(q0, steps);
  }
}
