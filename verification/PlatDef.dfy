/**
`parseI2cSegments` and the join of `buildSegmentBusMap`: from the decompressed PlatDef records to
the map from BIOS segment to kernel bus.
*/
module PlatDef {
  import opened Bytes

  const RECORD_HEADER_SIZE: nat := 32
  const TABLE_DATA_SIZE: nat := 112
  const ENGINE_FIXED_SIZE: nat := 48
  const SEGMENT_SIZE: nat := 32

  const RECORD_TYPE_I2C_ENGINE: byte := 14
  const RECORD_TYPE_END_OF_TABLE: byte := 255
  const I2C_MUX_TYPE_CPLD: byte := 1

  datatype I2cSegmentMapping = I2cSegmentMapping(cpldRegister: byte, channelValue: byte)

  type SegmentMap = map<byte, I2cSegmentMapping>

  // ----- Fields -----

  // The record's type and its length in bytes, counted in 16-byte units.
  function RecordType(b: seq<byte>, pos: nat): byte
    requires pos + RECORD_HEADER_SIZE <= |b|
  {
    b[pos]
  }

  function RecordBytes(b: seq<byte>, pos: nat): nat
    requires pos + RECORD_HEADER_SIZE <= |b|
  {
    (b[pos + 1] as int) * 16
  }

  // The CPLD-mux segment at off, if its mux is of that type.
  datatype Segment = Segment(id: byte, muxType: byte, mapping: I2cSegmentMapping)

  function SegmentAt(b: seq<byte>, off: nat): Segment
    requires off + SEGMENT_SIZE <= |b|
  {
    Segment(b[off + 5], b[off + 16], I2cSegmentMapping(b[off + 17], b[off + 19]))
  }

  // ----- What the walk reaches -----

  // The segments i.. of an engine record, up to the first that is not wholly inside the record.
  function SegmentsFrom(b: seq<byte>, start: nat, recordEnd: nat, i: nat, count: nat): seq<Segment>
    decreases count - i
  {
    if i >= count || start + i * SEGMENT_SIZE + SEGMENT_SIZE > Min(|b|, recordEnd) then []
    else [SegmentAt(b, start + i * SEGMENT_SIZE)] + SegmentsFrom(b, start, recordEnd, i + 1, count)
  }

  // The walk stops at the end marker, a zero length, or a record that does not fit.
  predicate WalkStops(b: seq<byte>, pos: nat) {
    || pos + RECORD_HEADER_SIZE > |b|
    || RecordType(b, pos) == RECORD_TYPE_END_OF_TABLE || RecordBytes(b, pos) == 0
    || pos + RecordBytes(b, pos) > |b|
    || (RecordType(b, pos) == RECORD_TYPE_I2C_ENGINE && pos + RECORD_HEADER_SIZE + ENGINE_FIXED_SIZE > |b|)
  }

  // All segments of the engine records reached from pos, in order.
  function SegmentsReached(b: seq<byte>, pos: nat): seq<Segment>
    decreases |b| - pos
  {
    if WalkStops(b, pos) then []
    else
      (if RecordType(b, pos) == RECORD_TYPE_I2C_ENGINE
       then SegmentsFrom(b, pos + 80, pos + RecordBytes(b, pos), 0, b[pos + 70])
       else [])
      + SegmentsReached(b, pos + RecordBytes(b, pos))
  }

  // The first record must be the 112-byte table header.
  predicate HasTable(b: seq<byte>) {
    |b| >= RECORD_HEADER_SIZE && RecordBytes(b, 0) == TABLE_DATA_SIZE
  }

  function AllSegments(b: seq<byte>): seq<Segment> {
    if HasTable(b) then SegmentsReached(b, 0) else []
  }

  // Later entries overwrite earlier ones; segments behind other muxes are skipped.
  function LastWins(m: SegmentMap, segs: seq<Segment>): SegmentMap
    decreases |segs|
  {
    if segs == [] then m
    else LastWins(if segs[0].muxType == I2C_MUX_TYPE_CPLD then m[segs[0].id := segs[0].mapping] else m, segs[1..])
  }

  lemma {:induction false} LastWinsAppend(m: SegmentMap, a: seq<Segment>, b: seq<Segment>)
    ensures LastWins(m, a + b) == LastWins(LastWins(m, a), b)
    decreases |a|
  {
    if a == [] {
      assert a + b == b;
    } else {
      LastWinsAppend(if a[0].muxType == I2C_MUX_TYPE_CPLD then m[a[0].id := a[0].mapping] else m, a[1..], b);
      assert (a + b)[1..] == a[1..] + b;
    }
  }

  // j is the last CPLD-mux segment with this id.
  predicate LastWithId(segs: seq<Segment>, id: byte, j: nat) {
    && j < |segs| && segs[j].muxType == I2C_MUX_TYPE_CPLD && segs[j].id == id
    && forall k :: j < k < |segs| ==> !(segs[k].muxType == I2C_MUX_TYPE_CPLD && segs[k].id == id)
  }

  /** The map holds an id exactly when a CPLD-mux segment has it, with the last such mapping. */
  lemma {:induction false} LastWinsMeans(segs: seq<Segment>, id: byte)
    ensures id in LastWins(map[], segs) <==> exists j: nat :: LastWithId(segs, id, j)
    ensures forall j: nat :: LastWithId(segs, id, j) ==>
      id in LastWins(map[], segs) && LastWins(map[], segs)[id] == segs[j].mapping
    decreases |segs|
  {
    hide LastWins;
    if segs == [] {
      LastWinsNone(map[]);
    } else {
      var n := |segs| - 1;
      var front, last := segs[..n], segs[n];
      assert segs == front + [last];
      LastWinsAppend(map[], front, [last]);
      LastWinsOne(LastWins(map[], front), last);
      LastWinsMeans(front, id);
      if last.muxType == I2C_MUX_TYPE_CPLD && last.id == id {
        assert LastWithId(segs, id, n);
      } else {
        forall j: nat ensures LastWithId(segs, id, j) <==> LastWithId(front, id, j) {
          if LastWithId(front, id, j) || LastWithId(segs, id, j) {
            assert forall k :: 0 <= k < n ==> segs[k] == front[k];
          }
        }
      }
    }
  }

  lemma LastWinsNone(m: SegmentMap)
    ensures LastWins(m, []) == m
  {
  }

  lemma LastWinsOne(m: SegmentMap, s: Segment)
    ensures LastWins(m, [s]) == if s.muxType == I2C_MUX_TYPE_CPLD then m[s.id := s.mapping] else m
  {
    assert [s][1..] == [];
  }

  // ----- The code -----

  method ParseI2cSegments(platDef: seq<byte>) returns (result: SegmentMap)
    ensures result == LastWins(map[], AllSegments(platDef))
  {
    hide SegmentsReached, SegmentsFrom, LastWins;
    result := map[];
    LastWinsNone(map[]);
    if |platDef| < RECORD_HEADER_SIZE {
      return;
    }
    if RecordBytes(platDef, 0) != TABLE_DATA_SIZE {
      return;
    }
    var pos := 0;
    while pos + RECORD_HEADER_SIZE <= |platDef|
      invariant LastWins(result, SegmentsReached(platDef, pos)) == LastWins(map[], SegmentsReached(platDef, 0))
      decreases |platDef| - pos
    {
      ReachedStep(platDef, pos);
      LastWinsNone(result);
      var recordType := RecordType(platDef, pos);
      if recordType == RECORD_TYPE_END_OF_TABLE || platDef[pos + 1] == 0 {
        return;
      }
      var recordBytes := RecordBytes(platDef, pos);
      if pos + recordBytes > |platDef| {
        return;
      }
      ghost var rest := SegmentsReached(platDef, pos + recordBytes);
      if recordType == RECORD_TYPE_I2C_ENGINE {
        var fixedEnd := pos + RECORD_HEADER_SIZE + ENGINE_FIXED_SIZE;
        if fixedEnd > |platDef| {
          return;
        }
        LastWinsAppend(result, SegmentsFrom(platDef, fixedEnd, pos + recordBytes, 0, platDef[pos + 70]), rest);
        result := AddEngine(platDef, fixedEnd, pos + recordBytes, platDef[pos + 70], result);
      } else {
        assert [] + rest == rest;
      }
      pos := pos + recordBytes;
    }
    ReachedStep(platDef, pos);
    LastWinsNone(result);
  }

  // The loop over the segments of one engine record.
  method AddEngine(b: seq<byte>, segStart: nat, recordEnd: nat, count: byte, before: SegmentMap)
    returns (result: SegmentMap)
    ensures result == LastWins(before, SegmentsFrom(b, segStart, recordEnd, 0, count))
  {
    hide SegmentsFrom, LastWins;
    result := before;
    var i := 0;
    while i < count
      invariant 0 <= i <= count
      invariant LastWins(result, SegmentsFrom(b, segStart, recordEnd, i, count))
             == LastWins(before, SegmentsFrom(b, segStart, recordEnd, 0, count))
    {
      SegmentsStep(b, segStart, recordEnd, i, count);
      LastWinsNone(result);
      var segOff := segStart + i * SEGMENT_SIZE;
      if segOff + SEGMENT_SIZE > |b| || segOff + SEGMENT_SIZE > recordEnd {
        return;
      }
      var seg := SegmentAt(b, segOff);
      LastWinsAppend(result, [seg], SegmentsFrom(b, segStart, recordEnd, i + 1, count));
      LastWinsOne(result, seg);
      if seg.muxType == I2C_MUX_TYPE_CPLD {
        result := result[seg.id := seg.mapping];
      }
      i := i + 1;
    }
    SegmentsStep(b, segStart, recordEnd, i, count);
    LastWinsNone(result);
  }

  lemma SegmentsStep(b: seq<byte>, start: nat, recordEnd: nat, i: nat, count: nat)
    ensures SegmentsFrom(b, start, recordEnd, i, count) ==
            if i >= count || start + i * SEGMENT_SIZE + SEGMENT_SIZE > Min(|b|, recordEnd) then []
            else [SegmentAt(b, start + i * SEGMENT_SIZE)] + SegmentsFrom(b, start, recordEnd, i + 1, count)
  {
  }

  lemma ReachedStep(b: seq<byte>, pos: nat)
    ensures SegmentsReached(b, pos) ==
            if WalkStops(b, pos) then []
            else (if RecordType(b, pos) == RECORD_TYPE_I2C_ENGINE
                  then SegmentsFrom(b, pos + 80, pos + RecordBytes(b, pos), 0, b[pos + 70])
                  else [])
                 + SegmentsReached(b, pos + RecordBytes(b, pos))
  {
    hide SegmentsFrom;
  }

  // ----- What is reached, declaratively -----

  // A record that does not end the walk: not the end marker 255, a length in 16-byte units that is not
  // zero and inside the blob, and for an I2C engine (type 14) the fixed part inside it too.
  predicate WholeRecord(b: seq<byte>, pos: nat) {
    && pos + 32 <= |b| && b[pos] != 255 && b[pos + 1] != 0 && pos + 16 * b[pos + 1] as int <= |b|
    && (b[pos] == 14 ==> pos + 80 <= |b|)
  }

  // A chain of whole records from pos to at.
  ghost predicate Chain(b: seq<byte>, pos: nat, at: nat)
    decreases |b| - pos
  {
    pos == at || (WholeRecord(b, pos) && Chain(b, pos + 16 * b[pos + 1] as int, at))
  }

  // Segment number i of an engine record at `at` that the walk reaches, wholly inside it.
  ghost predicate ReachedSegment(b: seq<byte>, pos: nat, at: nat, i: nat, s: Segment) {
    && Chain(b, pos, at) && WholeRecord(b, at) && b[at] == 14
    && i < b[at + 70] && 80 + (i + 1) * 32 <= 16 * b[at + 1] as int
    && var o := at + 80 + i * 32;
       s == Segment(b[o + 5], b[o + 16], I2cSegmentMapping(b[o + 17], b[o + 19]))
  }

  lemma StopsExactly(b: seq<byte>, pos: nat)
    ensures WalkStops(b, pos) <==> !WholeRecord(b, pos)
    ensures WholeRecord(b, pos) ==> RecordType(b, pos) == b[pos] && RecordBytes(b, pos) == 16 * b[pos + 1] as int
  {
  }

  lemma {:induction false} SegmentsFromMembers(b: seq<byte>, start: nat, recordEnd: nat, i: nat, count: nat, s: Segment)
    requires recordEnd <= |b|
    ensures s in SegmentsFrom(b, start, recordEnd, i, count) <==>
            exists k: nat :: i <= k < count && start + (k + 1) * SEGMENT_SIZE <= recordEnd
                             && SegmentAt(b, start + k * SEGMENT_SIZE) == s
    decreases count - i
  {
    if i < count && start + i * SEGMENT_SIZE + SEGMENT_SIZE <= recordEnd {
      SegmentsFromMembers(b, start, recordEnd, i + 1, count, s);
      if SegmentAt(b, start + i * SEGMENT_SIZE) == s {
        assert i <= i < count && start + (i + 1) * SEGMENT_SIZE <= recordEnd;
      }
    }
  }

  lemma SegmentsHere(b: seq<byte>, pos: nat, s: Segment)
    requires !WalkStops(b, pos)
    ensures (RecordType(b, pos) == RECORD_TYPE_I2C_ENGINE
             && s in SegmentsFrom(b, pos + 80, pos + RecordBytes(b, pos), 0, b[pos + 70]))
            <==> exists i: nat :: ReachedSegment(b, pos, pos, i, s)
  {
    hide SegmentsFrom, RecordBytes;
    StopsExactly(b, pos);
    assert Chain(b, pos, pos);
    if RecordType(b, pos) == RECORD_TYPE_I2C_ENGINE {
      var next := pos + RecordBytes(b, pos);
      SegmentsFromMembers(b, pos + 80, next, 0, b[pos + 70], s);
      if s in SegmentsFrom(b, pos + 80, next, 0, b[pos + 70]) {
        var k: nat :| 0 <= k < b[pos + 70] && pos + 80 + (k + 1) * SEGMENT_SIZE <= next
                      && SegmentAt(b, pos + 80 + k * SEGMENT_SIZE) == s;
        assert ReachedSegment(b, pos, pos, k, s);
      }
    }
  }

  lemma ReachedLater(b: seq<byte>, pos: nat, at: nat, i: nat, s: Segment)
    requires !WalkStops(b, pos) && at != pos
    ensures ReachedSegment(b, pos, at, i, s) <==> ReachedSegment(b, pos + RecordBytes(b, pos), at, i, s)
  {
  }

  lemma ChainAdvances(b: seq<byte>, pos: nat, at: nat)
    requires Chain(b, pos, at)
    ensures at >= pos
    decreases |b| - pos
  {
  }

  /** A segment is collected exactly when it lies wholly inside an engine record the walk reaches. */
  lemma {:induction false} SegmentsReachedMembers(b: seq<byte>, pos: nat, s: Segment)
    ensures s in SegmentsReached(b, pos) <==> exists at: nat, i: nat :: ReachedSegment(b, pos, at, i, s)
    decreases |b| - pos
  {
    hide SegmentsReached, SegmentsFrom, SegmentAt, Chain, ReachedSegment;
    ReachedStep(b, pos);
    if WalkStops(b, pos) {
      forall at: nat, i: nat ensures !ReachedSegment(b, pos, at, i, s) {
        NothingReached(b, pos, at, i, s);
      }
    } else {
      var next := pos + RecordBytes(b, pos);
      SegmentsReachedMembers(b, next, s);
      SegmentsHere(b, pos, s);
      if at: nat, i: nat :| ReachedSegment(b, pos, at, i, s) {
        if at != pos { ReachedLater(b, pos, at, i, s); }
      }
      if at: nat, i: nat :| ReachedSegment(b, next, at, i, s) {
        BehindStart(b, next, at, i, s);
        ReachedLater(b, pos, at, i, s);
      }
    }
  }

  lemma NothingReached(b: seq<byte>, pos: nat, at: nat, i: nat, s: Segment)
    requires WalkStops(b, pos)
    ensures !ReachedSegment(b, pos, at, i, s)
  {
  }

  lemma BehindStart(b: seq<byte>, pos: nat, at: nat, i: nat, s: Segment)
    requires ReachedSegment(b, pos, at, i, s)
    ensures at >= pos
  {
    ChainAdvances(b, pos, at);
  }

  // ----- Which segment wins -----

  // Updating by a list keeps what the list says, and elsewhere what was there.
  lemma {:induction false} LastWinsOver(m: SegmentMap, segs: seq<Segment>, id: byte)
    ensures var over, only := LastWins(m, segs), LastWins(map[], segs);
            && (id in over <==> id in only || id in m)
            && (id in over ==> over[id] == if id in only then only[id] else m[id])
    decreases |segs|
  {
    hide LastWins;
    LastWinsNone(m);
    LastWinsNone(map[]);
    if segs != [] {
      var front, last := segs[..|segs| - 1], segs[|segs| - 1];
      assert segs == front + [last];
      LastWinsOver(m, front, id);
      LastWinsAppend(m, front, [last]);
      LastWinsAppend(map[], front, [last]);
      LastWinsOne(LastWins(m, front), last);
      LastWinsOne(LastWins(map[], front), last);
    }
  }

  // The mux type of a CPLD mux is 1.
  predicate IsCpldWith(s: Segment, id: byte) {
    s.muxType == 1 && s.id == id
  }

  // Segment k of an engine record lies inside it and maps id.
  predicate Maps(b: seq<byte>, start: nat, recordEnd: nat, count: nat, k: nat, id: byte) {
    && k < count && start + (k + 1) * SEGMENT_SIZE <= recordEnd <= |b|
    && IsCpldWith(SegmentAt(b, start + k * SEGMENT_SIZE), id)
  }

  lemma {:induction false} LastInEngine(b: seq<byte>, start: nat, recordEnd: nat, i: nat, count: nat, id: byte)
    returns (last: nat)
    requires recordEnd <= |b|
    ensures var m := LastWins(map[], SegmentsFrom(b, start, recordEnd, i, count));
            && (forall k: nat :: i <= k && Maps(b, start, recordEnd, count, k, id) ==> id in m)
            && (id in m ==>
                  && i <= last && Maps(b, start, recordEnd, count, last, id)
                  && m[id] == SegmentAt(b, start + last * SEGMENT_SIZE).mapping
                  && forall k: nat :: Maps(b, start, recordEnd, count, k, id) ==> k <= last)
    decreases count - i
  {
    hide SegmentsFrom, LastWins, SegmentAt;
    SegmentsStep(b, start, recordEnd, i, count);
    LastWinsNone(map[]);
    if i < count && start + i * SEGMENT_SIZE + SEGMENT_SIZE <= recordEnd {
      var seg, rest := SegmentAt(b, start + i * SEGMENT_SIZE), SegmentsFrom(b, start, recordEnd, i + 1, count);
      last := LastInEngine(b, start, recordEnd, i + 1, count, id);
      LastWinsAppend(map[], [seg], rest);
      LastWinsOne(map[], seg);
      LastWinsOver(LastWins(map[], [seg]), rest, id);
      if id !in LastWins(map[], rest) {
        last := i;
      }
    } else {
      last := i;
    }
  }

  // The walk from pos reaches segment i of the engine record at `at`, and it maps id.
  ghost predicate ReachedFor(b: seq<byte>, pos: nat, at: nat, i: nat, s: Segment, id: byte) {
    ReachedSegment(b, pos, at, i, s) && IsCpldWith(s, id)
  }

  // And no segment for id is reached later: in a later record, or later in the same one.
  ghost predicate LastReached(b: seq<byte>, pos: nat, at: nat, i: nat, s: Segment, id: byte) {
    && ReachedFor(b, pos, at, i, s, id)
    && forall at': nat, i': nat, s' :: ReachedFor(b, pos, at', i', s', id) ==> at' < at || (at' == at && i' <= i)
  }

  lemma ReachedHere(b: seq<byte>, pos: nat, i: nat, s: Segment, id: byte)
    requires !WalkStops(b, pos)
    ensures ReachedFor(b, pos, pos, i, s, id) <==>
            && RecordType(b, pos) == RECORD_TYPE_I2C_ENGINE
            && Maps(b, pos + 80, pos + RecordBytes(b, pos), b[pos + 70], i, id)
            && s == SegmentAt(b, pos + 80 + i * SEGMENT_SIZE)
  {
    hide RecordBytes, IsCpldWith;
    StopsExactly(b, pos);
    assert Chain(b, pos, pos);
  }

  lemma ReachedSplit(b: seq<byte>, pos: nat, at: nat, i: nat, s: Segment, id: byte)
    requires !WalkStops(b, pos)
    ensures at != pos ==> (ReachedFor(b, pos, at, i, s, id) <==> ReachedFor(b, pos + RecordBytes(b, pos), at, i, s, id))
    ensures ReachedFor(b, pos + RecordBytes(b, pos), at, i, s, id) ==> at > pos
  {
    hide Chain, ReachedSegment;
    if at != pos { ReachedLater(b, pos, at, i, s); }
    if ReachedSegment(b, pos + RecordBytes(b, pos), at, i, s) {
      BehindStart(b, pos + RecordBytes(b, pos), at, i, s);
    }
  }

  lemma {:induction false} LastReachedWins(b: seq<byte>, pos: nat, id: byte) returns (at: nat, i: nat, s: Segment)
    ensures var m := LastWins(map[], SegmentsReached(b, pos));
            && (forall at': nat, i': nat, s' :: ReachedFor(b, pos, at', i', s', id) ==> id in m)
            && (id in m ==> LastReached(b, pos, at, i, s, id) && m[id] == s.mapping)
    decreases |b| - pos
  {
    hide SegmentsReached, SegmentsFrom, SegmentAt, ReachedFor, LastWins, Maps, WalkStops, RecordType, RecordBytes;
    at, i, s := 0, 0, Segment(0, 0, I2cSegmentMapping(0, 0));
    LastWinsNone(map[]);
    if WalkStops(b, pos) {
      NothingCollected(b, pos);
      forall at': nat, i': nat, s' ensures !ReachedFor(b, pos, at', i', s', id) {
        NothingReachedFor(b, pos, at', i', s', id);
      }
    } else {
      var next := NextRecord(b, pos);
      at, i, s := LastReachedWins(b, next, id);
      var here, rest := RecordSegments(b, pos), SegmentsReached(b, next);
      ReachedNext(b, pos);
      LastWinsAppend(map[], here, rest);
      LastWinsOver(LastWins(map[], here), rest, id);
      forall at': nat, i': nat, s'
        ensures at' != pos ==> (ReachedFor(b, pos, at', i', s', id) <==> ReachedFor(b, next, at', i', s', id))
        ensures ReachedFor(b, next, at', i', s', id) ==> at' > pos
      {
        ReachedSplit(b, pos, at', i', s', id);
      }
      var last, seg := LastHere(b, pos, id);
      if id !in LastWins(map[], rest) && id in LastWins(map[], here) {
        at, i, s := pos, last, seg;
      }
    }
  }

  function NextRecord(b: seq<byte>, pos: nat): (next: nat)
    requires !WalkStops(b, pos)
    ensures next == pos + RecordBytes(b, pos) && pos < next <= |b|
  {
    pos + RecordBytes(b, pos)
  }

  // The same for the record at pos alone.
  lemma LastHere(b: seq<byte>, pos: nat, id: byte) returns (i: nat, s: Segment)
    requires !WalkStops(b, pos)
    ensures var m := LastWins(map[], RecordSegments(b, pos));
            && (forall i': nat, s' :: ReachedFor(b, pos, pos, i', s', id) ==> id in m)
            && (id in m ==>
                  && ReachedFor(b, pos, pos, i, s, id) && m[id] == s.mapping
                  && forall i': nat, s' :: ReachedFor(b, pos, pos, i', s', id) ==> i' <= i)
  {
    hide SegmentsFrom, SegmentAt, ReachedFor, LastWins, Maps, RecordBytes;
    LastWinsNone(map[]);
    i, s := 0, Segment(0, 0, I2cSegmentMapping(0, 0));
    forall i': nat, s'
      ensures ReachedFor(b, pos, pos, i', s', id) <==>
              && RecordType(b, pos) == RECORD_TYPE_I2C_ENGINE
              && Maps(b, pos + 80, pos + RecordBytes(b, pos), b[pos + 70], i', id)
              && s' == MappedSegment(b, pos + 80, pos + RecordBytes(b, pos), b[pos + 70], i', id)
    {
      ReachedHere(b, pos, i', s', id);
    }
    if RecordType(b, pos) == RECORD_TYPE_I2C_ENGINE {
      i := LastInEngine(b, pos + 80, pos + RecordBytes(b, pos), 0, b[pos + 70], id);
      if id in LastWins(map[], RecordSegments(b, pos)) {
        s := MappedSegment(b, pos + 80, pos + RecordBytes(b, pos), b[pos + 70], i, id);
      }
    }
  }

  function MappedSegment(b: seq<byte>, start: nat, recordEnd: nat, count: nat, k: nat, id: byte): (s: Segment)
    requires Maps(b, start, recordEnd, count, k, id)
    ensures start + k * SEGMENT_SIZE + SEGMENT_SIZE <= |b| && s == SegmentAt(b, start + k * SEGMENT_SIZE)
  {
    SegmentAt(b, start + k * SEGMENT_SIZE)
  }

  lemma NothingCollected(b: seq<byte>, pos: nat)
    requires WalkStops(b, pos)
    ensures SegmentsReached(b, pos) == []
  {
  }

  lemma NothingReachedFor(b: seq<byte>, pos: nat, at: nat, i: nat, s: Segment, id: byte)
    requires WalkStops(b, pos)
    ensures !ReachedFor(b, pos, at, i, s, id)
  {
    NothingReached(b, pos, at, i, s);
  }

  /**
  What the walk returns, told by the bytes alone: behind a first record of seven 16-byte units, an id
  is mapped exactly when the walk reaches a CPLD-mux segment for it inside an engine record, and to
  the mapping of the last one reached, by position of its record and then by its number in the record.
  */
  lemma ParsedMeans(b: seq<byte>, id: byte)
    ensures var m := LastWins(map[], AllSegments(b));
            var table := |b| >= 32 && b[1] == 7;
            && (id in m <==> table && exists at: nat, i: nat, s :: ReachedFor(b, 0, at, i, s, id))
            && (id in m <==> table && exists at: nat, i: nat, s :: LastReached(b, 0, at, i, s, id))
            && (id in m ==> forall at: nat, i: nat, s :: LastReached(b, 0, at, i, s, id) ==> m[id] == s.mapping)
  {
    hide SegmentsReached, LastWins, IsCpldWith, Chain;
    LastWinsNone(map[]);
    var at, i, s := LastReachedWins(b, 0, id);
    forall at': nat, i': nat, s' | LastReached(b, 0, at', i', s', id) ensures at' == at && i' == i && s' == s {
    }
  }

  // ----- Round trip -----

  // A record of another type, or an I2C engine with its segments.
  datatype Record = Other(recordType: byte, rest: seq<byte>) | Engine(engineId: byte, segments: seq<Segment>)

  function RecordLength(r: Record): nat {
    match r
    case Other(_, rest) => 2 + |rest|
    case Engine(_, segs) => 80 + SEGMENT_SIZE * |segs|
  }

  predicate EncodableRecord(r: Record) {
    && RecordLength(r) % 16 == 0 && RECORD_HEADER_SIZE <= RecordLength(r) <= 255 * 16
    && (r.Other? ==> r.recordType != RECORD_TYPE_I2C_ENGINE && r.recordType != RECORD_TYPE_END_OF_TABLE)
  }

  function EncodeSegment(s: Segment): (e: seq<byte>)
    ensures |e| == SEGMENT_SIZE
  {
    Zeros(5) + [s.id] + Zeros(10) + [s.muxType, s.mapping.cpldRegister, 0, s.mapping.channelValue] + Zeros(12)
  }

  function EncodeSegments(segs: seq<Segment>): (e: seq<byte>)
    ensures |e| == SEGMENT_SIZE * |segs|
  {
    if segs == [] then [] else EncodeSegment(segs[0]) + EncodeSegments(segs[1..])
  }

  function EncodeRecord(r: Record): (e: seq<byte>)
    requires EncodableRecord(r)
    ensures |e| == RecordLength(r)
  {
    match r
    case Other(t, rest) => [t, RecordLength(r) / 16] + rest
    case Engine(id, segs) =>
      [RECORD_TYPE_I2C_ENGINE, RecordLength(r) / 16] + Zeros(67) + [id, |segs|] + Zeros(9) + EncodeSegments(segs)
  }

  predicate EncodableRecords(rs: seq<Record>) {
    forall i :: 0 <= i < |rs| ==> EncodableRecord(rs[i])
  }

  function EncodeRecords(rs: seq<Record>): seq<byte>
    requires EncodableRecords(rs)
  {
    if rs == [] then [] else EncodeRecord(rs[0]) + EncodeRecords(rs[1..])
  }

  function SegmentsOf(rs: seq<Record>): seq<Segment> {
    if rs == [] then []
    else (if rs[0].Engine? then rs[0].segments else []) + SegmentsOf(rs[1..])
  }

  lemma EncodedSegment(b: seq<byte>, off: nat, s: Segment)
    requires At(b, off, EncodeSegment(s))
    ensures SegmentAt(b, off) == s
  {
    var g := b[off..off + SEGMENT_SIZE];
    assert b[off + 5] == g[5] && b[off + 16] == g[16] && b[off + 17] == g[17] && b[off + 19] == g[19];
  }

  lemma {:induction false} EncodedSegments(b: seq<byte>, start: nat, recordEnd: nat, i: nat, segs: seq<Segment>)
    requires At(b, start + i * SEGMENT_SIZE, EncodeSegments(segs))
    requires recordEnd == start + (i + |segs|) * SEGMENT_SIZE
    ensures SegmentsFrom(b, start, recordEnd, i, i + |segs|) == segs
    decreases |segs|
  {
    hide SegmentsFrom, EncodeSegment, SegmentAt;
    SegmentsStep(b, start, recordEnd, i, i + |segs|);
    if segs != [] {
      AtSplit(b, start + i * SEGMENT_SIZE, EncodeSegment(segs[0]), EncodeSegments(segs[1..]));
      EncodedSegment(b, start + i * SEGMENT_SIZE, segs[0]);
      EncodedSegments(b, start, recordEnd, i + 1, segs[1..]);
    }
  }

  lemma EncodedRecordFields(b: seq<byte>, pos: nat, r: Record)
    requires EncodableRecord(r) && At(b, pos, EncodeRecord(r))
    ensures !WalkStops(b, pos) && RecordBytes(b, pos) == RecordLength(r)
    ensures r.Other? ==> RecordType(b, pos) != RECORD_TYPE_I2C_ENGINE
    ensures r.Engine? ==> RecordType(b, pos) == RECORD_TYPE_I2C_ENGINE && b[pos + 70] == |r.segments|
                          && At(b, pos + 80, EncodeSegments(r.segments))
  {
    hide EncodeSegments;
    var e := EncodeRecord(r);
    var g := b[pos..pos + |e|];
    assert b[pos] == g[0] && b[pos + 1] == g[1];
    if r.Engine? {
      var units := RecordLength(r) / 16;
      var front: seq<byte> := [RECORD_TYPE_I2C_ENGINE, units];
      var mid: seq<byte> := [r.engineId, |r.segments|];
      assert e == (front + Zeros(67) + mid + Zeros(9)) + EncodeSegments(r.segments);
      assert b[pos + 70] == g[70];
      AtSplit(b, pos, front + Zeros(67) + mid + Zeros(9), EncodeSegments(r.segments));
    }
  }

  // The segments the walk takes from the record at pos.
  function RecordSegments(b: seq<byte>, pos: nat): seq<Segment>
    requires !WalkStops(b, pos)
  {
    if RecordType(b, pos) == RECORD_TYPE_I2C_ENGINE
    then SegmentsFrom(b, pos + 80, pos + RecordBytes(b, pos), 0, b[pos + 70])
    else []
  }

  lemma EncodedRecordSegments(b: seq<byte>, pos: nat, r: Record)
    requires EncodableRecord(r) && At(b, pos, EncodeRecord(r))
    ensures !WalkStops(b, pos) && RecordBytes(b, pos) == RecordLength(r)
    ensures RecordSegments(b, pos) == if r.Engine? then r.segments else []
  {
    hide SegmentsFrom, EncodeRecord, EncodeSegments, At;
    EncodedRecordFields(b, pos, r);
    if r.Engine? {
      assert pos + 80 + 0 * SEGMENT_SIZE == pos + 80;
      EncodedSegments(b, pos + 80, pos + RecordLength(r), 0, r.segments);
    }
  }

  lemma ReachedNext(b: seq<byte>, pos: nat)
    requires !WalkStops(b, pos)
    ensures SegmentsReached(b, pos) == RecordSegments(b, pos) + SegmentsReached(b, pos + RecordBytes(b, pos))
  {
    hide SegmentsReached, SegmentsFrom;
    ReachedStep(b, pos);
  }

  lemma {:induction false} EncodedReached(b: seq<byte>, pos: nat, rs: seq<Record>)
    requires EncodableRecords(rs) && pos <= |b| && b[pos..] == EncodeRecords(rs)
    ensures SegmentsReached(b, pos) == SegmentsOf(rs)
    decreases |rs|
  {
    hide SegmentsReached, RecordSegments, EncodeRecord, EncodableRecord, WalkStops, RecordBytes, At;
    if rs == [] {
      NothingLeft(b, pos);
    } else {
      TailSplit(b, pos, EncodeRecord(rs[0]), EncodeRecords(rs[1..]));
      EncodedRecordSegments(b, pos, rs[0]);
      ReachedNext(b, pos);
      EncodedReached(b, pos + RecordLength(rs[0]), rs[1..]);
    }
  }

  lemma NothingLeft(b: seq<byte>, pos: nat)
    requires pos + RECORD_HEADER_SIZE > |b|
    ensures SegmentsReached(b, pos) == []
  {
  }

  /**
  Round trip. Encoding any list of well-formed records that starts with a 112-byte table record
  and collecting the segments again gives exactly the list's segments, in order.
  */
  lemma ParseOfEncoded(rs: seq<Record>)
    requires EncodableRecords(rs) && rs != [] && RecordLength(rs[0]) == TABLE_DATA_SIZE
    ensures AllSegments(EncodeRecords(rs)) == SegmentsOf(rs)
  {
    hide SegmentsReached, SegmentsOf, EncodeRecord;
    var b := EncodeRecords(rs);
    assert b[0..] == b;
    AtSplit(b, 0, EncodeRecord(rs[0]), EncodeRecords(rs[1..]));
    EncodedRecordFields(b, 0, rs[0]);
    EncodedReached(b, 0, rs);
  }

  // ----- Joining with the kernel's mux topology -----

  const CPLD_REGISTER_BASE: byte := 0x84

  // (muxIndex << 8) | channelNumber
  function MuxKey(m: I2cSegmentMapping): u16
    requires m.cpldRegister >= CPLD_REGISTER_BASE
  {
    (m.cpldRegister as int - CPLD_REGISTER_BASE) * 0x100 + m.channelValue
  }

  /** The key counts the channel in its low byte and the mux, from register 0x84 on, in its high byte. */
  lemma MuxKeyDigits(m: I2cSegmentMapping, k: int)
    requires m.cpldRegister >= CPLD_REGISTER_BASE
    ensures k == MuxKey(m) <==>
            0 <= k && m.cpldRegister as int == 0x84 + k / 0x100 && m.channelValue as int == k % 0x100
  {
  }

  /** Distinct muxes or channels never share a key. */
  lemma MuxKeyInjective(a: I2cSegmentMapping, b: I2cSegmentMapping)
    requires a.cpldRegister >= CPLD_REGISTER_BASE && b.cpldRegister >= CPLD_REGISTER_BASE
    ensures MuxKey(a) == MuxKey(b) <==> a == b
  {
    MuxKeyDigits(a, MuxKey(a));
    MuxKeyDigits(b, MuxKey(b));
  }

  // The segment's register is 0x84 plus the mux, and the topology holds bus t for mux and channel.
  predicate OnBus(segments: SegmentMap, topology: map<u16, int>, id: byte, t: int) {
    && id in segments
    && exists k :: k in topology && topology[k] == t
                   && segments[id].cpldRegister as int == 0x84 + k / 0x100
                   && segments[id].channelValue as int == k % 0x100
  }

  lemma OnBusExactly(segments: SegmentMap, topology: map<u16, int>, id: byte, t: int)
    ensures OnBus(segments, topology, id, t) <==>
            && id in segments && segments[id].cpldRegister >= CPLD_REGISTER_BASE
            && MuxKey(segments[id]) in topology && topology[MuxKey(segments[id])] == t
  {
    hide MuxKey;
    if id in segments && segments[id].cpldRegister >= CPLD_REGISTER_BASE {
      MuxKeyDigits(segments[id], MuxKey(segments[id]));
      forall k | k in topology && segments[id].cpldRegister as int == 0x84 + k / 0x100
                 && segments[id].channelValue as int == k % 0x100
        ensures k == MuxKey(segments[id])
      {
        MuxKeyDigits(segments[id], k);
      }
    }
  }

  /** Exactly the segments behind a known mux channel get a bus, and it is that channel's bus. */
  method BuildSegmentBusMap(segments: SegmentMap, topology: map<u16, int>) returns (result: map<byte, int>)
    ensures forall id, t :: (id in result && result[id] == t) <==> OnBus(segments, topology, id, t)
  {
    hide OnBus, MuxKey;
    result := map[];
    var todo := segments.Keys;
    forall id, t { OnBusExactly(segments, topology, id, t); }
    while todo != {}
      invariant todo <= segments.Keys
      invariant forall id :: id in result ==> id !in todo
      invariant forall id, t ::
        (id in result && result[id] == t) <==> id !in todo && OnBus(segments, topology, id, t)
      decreases todo
    {
      var segId :| segId in todo;
      todo := todo - {segId};
      var mapping := segments[segId];
      forall t { OnBusExactly(segments, topology, segId, t); }
      if mapping.cpldRegister >= CPLD_REGISTER_BASE {
        var key := MuxKey(mapping);
        if key in topology {
          result := result[segId := topology[key]];
        }
      }
    }
  }
}
