/**
The CHIF driver's packet queue: a ring of fixed-size slots that refines a bounded FIFO of packets.
*/
module ChifQueue {
  import opened Bytes

  const QUEUE_RC_FULL := 1
  const QUEUE_RC_PKT_OVER_SIZE := 2
  const QUEUE_RC_EMPTY := 3
  const QUEUE_RC_BUF_TOO_SMALL := 4

  // ----- The bounded FIFO -----

  datatype QueueOp = Push(pkt: seq<byte>) | Pop(bufLen: nat)
  datatype QueueOut = Code(rc: int) | Packet(bytes: seq<byte>)

  function FifoOut(q: seq<seq<byte>>, cap: nat, maxLen: nat, op: QueueOp): QueueOut {
    match op
    case Push(pkt) =>
      if |q| == cap then Code(-QUEUE_RC_FULL)
      else if |pkt| > maxLen then Code(-QUEUE_RC_PKT_OVER_SIZE)
      else Code(0)
    case Pop(len) =>
      if q == [] then Code(-QUEUE_RC_EMPTY)
      else if len < |q[0]| then Code(-QUEUE_RC_BUF_TOO_SMALL)
      else Packet(q[0])
  }

  function FifoNext(q: seq<seq<byte>>, cap: nat, maxLen: nat, op: QueueOp): seq<seq<byte>> {
    var out := FifoOut(q, cap, maxLen, op);
    if op.Push? && out == Code(0) then q + [op.pkt]
    else if out.Packet? then q[1..]
    else q
  }

  function FifoRun(q: seq<seq<byte>>, cap: nat, maxLen: nat, ops: seq<QueueOp>): seq<seq<byte>>
    decreases |ops|
  {
    if ops == [] then q else FifoRun(FifoNext(q, cap, maxLen, ops[0]), cap, maxLen, ops[1..])
  }

  function FifoOuts(q: seq<seq<byte>>, cap: nat, maxLen: nat, ops: seq<QueueOp>): seq<QueueOut>
    decreases |ops|
  {
    if ops == [] then []
    else [FifoOut(q, cap, maxLen, ops[0])] + FifoOuts(FifoNext(q, cap, maxLen, ops[0]), cap, maxLen, ops[1..])
  }

  // The packets that a run's pushes put in, and the packets its pops hand out.
  function PushedIn(ops: seq<QueueOp>, outs: seq<QueueOut>): seq<seq<byte>>
    requires |ops| == |outs|
  {
    if ops == [] then []
    else In(ops[0], outs[0]) + PushedIn(ops[1..], outs[1..])
  }

  function HandedOut(outs: seq<QueueOut>): seq<seq<byte>> {
    if outs == [] then []
    else Out(outs[0]) + HandedOut(outs[1..])
  }

  /**
  Conservation and order. Over every run of pushes and pops, what was queued before, followed by
  the accepted pushes, is what the pops handed out, followed by what is queued after; and the
  queue never exceeds its capacity. So packets leave whole, once, and in order.
  */
  lemma {:induction false} FifoConserves(q: seq<seq<byte>>, cap: nat, maxLen: nat, ops: seq<QueueOp>)
    requires |q| <= cap
    ensures |FifoOuts(q, cap, maxLen, ops)| == |ops|
    ensures var outs := FifoOuts(q, cap, maxLen, ops);
            q + PushedIn(ops, outs) == HandedOut(outs) + FifoRun(q, cap, maxLen, ops)
    ensures |FifoRun(q, cap, maxLen, ops)| <= cap
    decreases |ops|
  {
    if ops != [] {
      FifoStepConserves(q, cap, maxLen, ops[0]);
      FifoConserves(FifoNext(q, cap, maxLen, ops[0]), cap, maxLen, ops[1..]);
      hide FifoNext, FifoOut;
      var q', out := FifoNext(q, cap, maxLen, ops[0]), FifoOut(q, cap, maxLen, ops[0]);
      var outs := FifoOuts(q, cap, maxLen, ops);
      assert outs[0] == out && outs[1..] == FifoOuts(q', cap, maxLen, ops[1..]);
      Rearrange(q, In(ops[0], out), PushedIn(ops[1..], outs[1..]), Out(out), HandedOut(outs[1..]), q',
                FifoRun(q', cap, maxLen, ops[1..]));
    }
  }

  // What one operation puts in and takes out.
  function In(op: QueueOp, out: QueueOut): seq<seq<byte>> {
    if op.Push? && out == Code(0) then [op.pkt] else []
  }

  function Out(out: QueueOut): seq<seq<byte>> {
    if out.Packet? then [out.bytes] else []
  }

  lemma FifoStepConserves(q: seq<seq<byte>>, cap: nat, maxLen: nat, op: QueueOp)
    requires |q| <= cap
    ensures var out := FifoOut(q, cap, maxLen, op);
            q + In(op, out) == Out(out) + FifoNext(q, cap, maxLen, op)
    ensures |FifoNext(q, cap, maxLen, op)| <= cap
  {
  }

  lemma Rearrange<T>(q: seq<T>, pushed: seq<T>, more: seq<T>, handed: seq<T>, gone: seq<T>, q': seq<T>, end: seq<T>)
    requires q + pushed == handed + q' && q' + more == gone + end
    ensures q + (pushed + more) == (handed + gone) + end
  {
    assert q + (pushed + more) == (q + pushed) + more;
    assert (handed + q') + more == handed + (q' + more);
    assert handed + (gone + end) == (handed + gone) + end;
  }

  // ----- The ring -----

  class Queue {
    const maxSize: nat
    const maxPktLen: nat
    const pkt: array<seq<byte>>
    const pktLen: array<nat>
    var head: nat
    var tail: nat
    var size: nat

    // The slot k places behind slot i.
    function Slot(i: nat, k: nat): nat {
      if i + k >= maxSize then i + k - maxSize else i + k
    }

    ghost predicate Valid()
      reads this, pkt, pktLen
    {
      && 0 < maxSize == pkt.Length == pktLen.Length && pkt as object != pktLen
      && head < maxSize && size <= maxSize && tail == Slot(head, size)
      && (forall i :: 0 <= i < maxSize ==> |pkt[i]| == maxPktLen && pktLen[i] <= maxPktLen)
    }

    // The packet in a slot.
    function PacketIn(i: nat): seq<byte>
      requires Valid() && i < maxSize
      reads this, pkt, pktLen
    {
      pkt[i][..pktLen[i]]
    }

    ghost function Contents(): (q: seq<seq<byte>>)
      requires Valid()
      reads this, pkt, pktLen
      ensures |q| == size && forall k :: 0 <= k < size ==> q[k] == PacketIn(Slot(head, k))
    {
      seq(size, k requires 0 <= k < size && Valid() reads this, pkt, pktLen => PacketIn(Slot(head, k)))
    }

    constructor (maxSize: nat, maxPktLen: nat)
      requires maxSize > 0
      ensures Valid() && Contents() == [] && this.maxSize == maxSize && this.maxPktLen == maxPktLen
      ensures fresh(pkt) && fresh(pktLen)
    {
      this.maxSize, this.maxPktLen := maxSize, maxPktLen;
      pkt := new seq<byte>[maxSize](_ => Zeros(maxPktLen));
      pktLen := new nat[maxSize](_ => 0);
      head, tail, size := 0, 0, 0;
    }

    /** tail is (head + size) modulo the number of slots. */
    lemma TailIsModulo()
      requires Valid()
      ensures tail == (head + size) % maxSize
    {
      ModOnce(head + size, maxSize);
    }

    static lemma ModOnce(n: nat, m: nat)
      requires 0 < m && n < 2 * m
      ensures n % m == if n < m then n else n - m
    {
      if n >= m {
        assert n == 1 * m + (n - m);
        assert n / m == 1;
      }
    }

    method PushPacket(src: seq<byte>) returns (rc: int)
      requires Valid()
      modifies this`tail, this`size, pkt, pktLen
      ensures Valid() && head == old(head)
      ensures Code(rc) == FifoOut(old(Contents()), maxSize, maxPktLen, Push(src))
      ensures Contents() == FifoNext(old(Contents()), maxSize, maxPktLen, Push(src))
      ensures rc == if old(size) == maxSize then -1 else if |src| > maxPktLen then -2 else 0
      ensures rc == 0 ==> Contents() == old(Contents()) + [src]
      ensures rc != 0 ==> tail == old(tail) && size == old(size)
      ensures rc != 0 ==> pkt[..] == old(pkt[..]) && pktLen[..] == old(pktLen[..])
    {
      if size == maxSize {
        return -QUEUE_RC_FULL;
      }
      if |src| > maxPktLen {
        return -QUEUE_RC_PKT_OVER_SIZE;
      }
      hide Splice;
      ghost var before := Contents();
      FreeSlot();
      SplicedPacket(pkt[tail], src);
      pkt[tail] := Splice(pkt[tail], 0, src);
      pktLen[tail] := |src|;
      size := size + 1;
      tail := tail + 1;
      if tail >= maxSize {
        tail := 0;
      }
      OneMore(before, src);
      rc := 0;
    }

    // No queued packet is in the slot at tail.
    lemma FreeSlot()
      requires Valid() && size < maxSize
      ensures forall k :: 0 <= k < size ==> Slot(head, k) != tail
    {
    }

    static lemma SplicedPacket(slot: seq<byte>, src: seq<byte>)
      requires |src| <= |slot|
      ensures Splice(slot, 0, src)[..|src|] == src
    {
    }

    // The contents once one more slot is counted in.
    lemma OneMore(before: seq<seq<byte>>, src: seq<byte>)
      requires Valid() && size == |before| + 1
      requires forall k :: 0 <= k < |before| ==> PacketIn(Slot(head, k)) == before[k]
      requires PacketIn(Slot(head, size - 1)) == src
      ensures Contents() == before + [src]
    {
    }

    // The buffer handed out is the slot itself; it is left as it is.
    method PopPacket(len: nat) returns (rc: int, slot: nat)
      requires Valid()
      modifies this`head, this`size
      ensures Valid() && tail == old(tail)
      ensures var out := FifoOut(old(Contents()), maxSize, maxPktLen, Pop(len));
              match out
              case Code(c) => rc == c && head == old(head) && size == old(size)
              case Packet(bytes) => slot < maxSize && rc == |bytes| && pkt[slot][..pktLen[slot]] == bytes
      ensures Contents() == FifoNext(old(Contents()), maxSize, maxPktLen, Pop(len))
      ensures old(size) == 0 ==> rc == -3
      ensures old(size) > 0 ==> rc == if len < |old(Contents())[0]| then -4 else |old(Contents())[0]|
      ensures rc >= 0 ==> Contents() == old(Contents())[1..]
    {
      slot := 0;
      if size == 0 {
        return -QUEUE_RC_EMPTY, 0;
      }
      assert Contents()[0] == PacketIn(head);
      if len < pktLen[head] {
        return -QUEUE_RC_BUF_TOO_SMALL, 0;
      }
      slot := head;
      rc := pktLen[head];
      size := size - 1;
      head := head + 1;
      if head >= maxSize {
        head := 0;
      }
    }

    /** Every sequence of calls behaves like the bounded FIFO, result for result. */
    method RunOps(ops: seq<QueueOp>) returns (outs: seq<QueueOut>)
      requires Valid()
      modifies this`head, this`tail, this`size, pkt, pktLen
      ensures Valid()
      ensures outs == FifoOuts(old(Contents()), maxSize, maxPktLen, ops)
      ensures Contents() == FifoRun(old(Contents()), maxSize, maxPktLen, ops)
    {
      hide FifoNext, FifoOut, FifoRun, FifoOuts;
      outs := [];
      ghost var q0 := Contents();
      FifoRunNone(q0, maxSize, maxPktLen);
      assert ops[0..] == ops;
      for i := 0 to |ops|
        invariant Valid()
        invariant outs + FifoOuts(Contents(), maxSize, maxPktLen, ops[i..]) == FifoOuts(q0, maxSize, maxPktLen, ops)
        invariant FifoRun(Contents(), maxSize, maxPktLen, ops[i..]) == FifoRun(q0, maxSize, maxPktLen, ops)
      {
        FifoRunStep(Contents(), maxSize, maxPktLen, ops[i..]);
        assert ops[i..][1..] == ops[i + 1..];
        var out := RunOp(ops[i]);
        outs := outs + [out];
      }
      FifoRunNone(Contents(), maxSize, maxPktLen);
      assert ops[|ops|..] == [];
    }

    method RunOp(op: QueueOp) returns (out: QueueOut)
      requires Valid()
      modifies this`head, this`tail, this`size, pkt, pktLen
      ensures Valid()
      ensures out == FifoOut(old(Contents()), maxSize, maxPktLen, op)
      ensures Contents() == FifoNext(old(Contents()), maxSize, maxPktLen, op)
    {
      match op {
        case Push(src) =>
          var rc := PushPacket(src);
          out := Code(rc);
        case Pop(len) =>
          var rc, slot := PopPacket(len);
          out := if rc < 0 then Code(rc) else Packet(PacketIn(slot));
      }
    }
  }

  lemma FifoRunNone(q: seq<seq<byte>>, cap: nat, maxLen: nat)
    ensures FifoRun(q, cap, maxLen, []) == q && FifoOuts(q, cap, maxLen, []) == []
  {
  }

  lemma FifoRunStep(q: seq<seq<byte>>, cap: nat, maxLen: nat, ops: seq<QueueOp>)
    requires ops != []
    ensures FifoRun(q, cap, maxLen, ops) == FifoRun(FifoNext(q, cap, maxLen, ops[0]), cap, maxLen, ops[1..])
    ensures FifoOuts(q, cap, maxLen, ops)
            == [FifoOut(q, cap, maxLen, ops[0])] + FifoOuts(FifoNext(q, cap, maxLen, ops[0]), cap, maxLen, ops[1..])
  {
  }
}
