/**
`SmbiosWriter`: accumulates SMBIOS records unwrapped from host blobs and writes them behind an
MDR header and a SMBIOS 3.0 64-bit entry point (DMTF DSP0134, section 5.2.2).
*/
module Smbios {
  import opened Bytes

  const MAX_SMBIOS_DATA_SIZE: nat := 1024 * 1024
  const MAX_RECORDS_PER_BLOB: nat := 1000
  const ENTRY_POINT_SIZE: nat := 24
  const MDR_HEADER_SIZE: nat := 10

  // ----- Blobs -----

  function Flatten(recs: seq<seq<byte>>): seq<byte> {
    if recs == [] then [] else recs[0] + Flatten(recs[1..])
  }

  // Each record behind its 16-bit length.
  function Wrap(recs: seq<seq<byte>>): seq<byte> {
    if recs == [] then [] else Le16(|recs[0]|) + recs[0] + Wrap(recs[1..])
  }

  function WrapBlob(recs: seq<seq<byte>>): seq<byte> {
    Le32(|recs|) + Wrap(recs)
  }

  // The records taken from off on: at most n of them and at most `room` bytes.
  function AcceptedFrom(blob: seq<byte>, off: nat, n: nat, room: nat): seq<seq<byte>>
    decreases n
  {
    if n == 0 || off + 2 > |blob| then []
    else
      var size := U16At(blob, off);
      var next := off + 2 + size;
      if size == 0 || next > |blob| || size > room then []
      else [blob[off + 2..next]] + AcceptedFrom(blob, next, n - 1, room - size)
  }

  function BlobCount(blob: seq<byte>): nat
    requires |blob| >= 4
  {
    Min(U32At(blob, 0), MAX_RECORDS_PER_BLOB)
  }

  // The records a blob adds when `have` bytes are accumulated already.
  function BlobRecords(blob: seq<byte>, have: nat): seq<seq<byte>>
    requires have <= MAX_SMBIOS_DATA_SIZE
  {
    if |blob| < 6 then [] else AcceptedFrom(blob, 4, BlobCount(blob), MAX_SMBIOS_DATA_SIZE - have)
  }

  predicate WellSized(recs: seq<seq<byte>>) {
    forall i :: 0 <= i < |recs| ==> 0 < |recs[i]| < 0x1_0000
  }

  // The bytes at off start with these records, wrapped, within the count and the budget.
  predicate RunAt(blob: seq<byte>, off: nat, n: nat, room: nat, recs: seq<seq<byte>>) {
    && off <= |blob| && Wrap(recs) <= blob[off..]
    && WellSized(recs) && |recs| <= n && |Flatten(recs)| <= room
  }

  lemma {:induction false} FlattenAppend(a: seq<seq<byte>>, b: seq<seq<byte>>)
    ensures Flatten(a + b) == Flatten(a) + Flatten(b)
  {
    if a == [] {
      assert a + b == b;
    } else {
      FlattenAppend(a[1..], b);
      assert (a + b)[1..] == a[1..] + b;
      ConcatAssociative(a[0], Flatten(a[1..]), Flatten(b));
    }
  }

  // One turn of the unwrapping loop.
  lemma AcceptedStep(blob: seq<byte>, off: nat, n: nat, room: nat)
    ensures AcceptedFrom(blob, off, n, room) ==
            if n == 0 || off + 2 > |blob| then []
            else
              var size := U16At(blob, off);
              var next := off + 2 + size;
              if size == 0 || next > |blob| || size > room then []
              else [blob[off + 2..next]] + AcceptedFrom(blob, next, n - 1, room - size)
  {
  }

  lemma AppendRecord(front: seq<byte>, done: seq<seq<byte>>, rec: seq<byte>)
    ensures front + Flatten(done) + rec == front + Flatten(done + [rec])
  {
    FlattenAppend(done, [rec]);
    FlattenOne(rec);
  }

  lemma FlattenNone()
    ensures Flatten([]) == []
  {
  }

  lemma FlattenOne(r: seq<byte>)
    ensures Flatten([r]) == r
  {
    var one: seq<seq<byte>> := [r];
    assert one[1..] == [];
  }

  lemma {:induction false} AcceptedIsRun(blob: seq<byte>, off: nat, n: nat, room: nat)
    requires off <= |blob|
    ensures RunAt(blob, off, n, room, AcceptedFrom(blob, off, n, room))
    decreases n
  {
    var recs := AcceptedFrom(blob, off, n, room);
    if recs != [] {
      var size := U16At(blob, off);
      var next := off + 2 + size;
      AcceptedIsRun(blob, next, n - 1, room - size);
      var rest := AcceptedFrom(blob, next, n - 1, room - size);
      assert recs[1..] == rest;
      assert Le16(size) == blob[off..off + 2];
      assert blob[off..] == Le16(size) + recs[0] + blob[next..];
    }
  }

  lemma RunHead(blob: seq<byte>, off: nat, n: nat, room: nat, recs: seq<seq<byte>>)
    requires recs != [] && RunAt(blob, off, n, room, recs)
    ensures var size := |recs[0]|; var next := off + 2 + size;
            && next <= |blob| && U16At(blob, off) == size && blob[off + 2..next] == recs[0]
            && 0 < size <= room && n > 0 && RunAt(blob, next, n - 1, room - size, recs[1..])
  {
    var size := |recs[0]|;
    var next := off + 2 + size;
    var head, rest := Le16(size) + recs[0], Wrap(recs[1..]);
    var seen := blob[off..];
    assert head + rest <= seen;
    assert seen[..|head|] == head;
    assert blob[off] == head[0] && blob[off + 1] == head[1];
    Le16At([], size, []);
    assert [] + Le16(size) + [] == Le16(size);
    assert blob[off + 2..next] == seen[..|head|][2..];
    assert blob[next..] == seen[|head|..];
    assert WellSized(recs[1..]);
  }

  lemma {:induction false} LongestRun(blob: seq<byte>, off: nat, n: nat, room: nat, recs: seq<seq<byte>>)
    requires RunAt(blob, off, n, room, recs)
    ensures recs <= AcceptedFrom(blob, off, n, room)
    decreases n
  {
    hide RunAt, U16At;
    if recs != [] {
      RunHead(blob, off, n, room, recs);
      LongestRun(blob, off + 2 + |recs[0]|, n - 1, room - |recs[0]|, recs[1..]);
      assert recs == [recs[0]] + recs[1..];
    }
  }

  // A leading run of a blob: records behind the count field, within every limit.
  predicate LeadingRun(blob: seq<byte>, have: nat, recs: seq<seq<byte>>)
    requires have <= MAX_SMBIOS_DATA_SIZE
  {
    recs == [] || (|blob| >= 4 && |recs| <= U32At(blob, 0) && RunAt(blob, 4, 1000, 0x10_0000 - have, recs))
  }

  lemma CountedRun(blob: seq<byte>, room: nat, recs: seq<seq<byte>>)
    requires |blob| >= 4
    ensures RunAt(blob, 4, BlobCount(blob), room, recs) <==>
            |recs| <= U32At(blob, 0) && RunAt(blob, 4, 1000, room, recs)
  {
    hide Wrap, WellSized, Flatten, U32At;
  }

  /**
  Blob parsing. For every blob, the accepted records are a leading run of non-empty records
  inside the blob, among its first 1000 and within the 1 MiB total, and every other such run is
  a prefix of them.
  */
  lemma BlobTakesLongestRun(blob: seq<byte>, have: nat, recs: seq<seq<byte>>)
    requires have <= MAX_SMBIOS_DATA_SIZE
    ensures LeadingRun(blob, have, BlobRecords(blob, have))
    ensures LeadingRun(blob, have, recs) ==> recs <= BlobRecords(blob, have)
    ensures have + |Flatten(BlobRecords(blob, have))| <= MAX_SMBIOS_DATA_SIZE
  {
    hide AcceptedFrom, Wrap, BlobCount, WellSized, U16At, U32At, Flatten;
    FlattenNone();
    if |blob| >= 4 {
      CountedRun(blob, MAX_SMBIOS_DATA_SIZE - have, recs);
      CountedRun(blob, MAX_SMBIOS_DATA_SIZE - have, BlobRecords(blob, have));
    }
    if |blob| >= 6 {
      AcceptedIsRun(blob, 4, BlobCount(blob), MAX_SMBIOS_DATA_SIZE - have);
    }
    if recs != [] && LeadingRun(blob, have, recs) {
      RunHead(blob, 4, BlobCount(blob), MAX_SMBIOS_DATA_SIZE - have, recs);
      LongestRun(blob, 4, BlobCount(blob), MAX_SMBIOS_DATA_SIZE - have, recs);
    }
  }

  /** Unwrapping a wrapped list of records within the limits gives the list back. */
  lemma UnwrapWrapped(recs: seq<seq<byte>>, have: nat)
    requires WellSized(recs) && |recs| <= MAX_RECORDS_PER_BLOB
    requires have + |Flatten(recs)| <= MAX_SMBIOS_DATA_SIZE
    ensures BlobRecords(WrapBlob(recs), have) == recs
  {
    hide WrapBlob, Wrap, Flatten, AcceptedFrom, Le32, WellSized, BlobCount;
    var blob := WrapBlob(recs);
    BlobHeader(recs);
    var room := MAX_SMBIOS_DATA_SIZE - have;
    assert RunAt(blob, 4, |recs|, room, recs);
    if recs != [] {
      RunHead(blob, 4, |recs|, room, recs);
    }
    AcceptedExactly(blob, 4, room, recs);
  }

  // A count that covers just these records leaves no room for more.
  lemma AcceptedExactly(blob: seq<byte>, off: nat, room: nat, recs: seq<seq<byte>>)
    requires RunAt(blob, off, |recs|, room, recs)
    ensures AcceptedFrom(blob, off, |recs|, room) == recs
  {
    LongestRun(blob, off, |recs|, room, recs);
    AcceptedIsRun(blob, off, |recs|, room);
  }

  lemma BlobHeader(recs: seq<seq<byte>>)
    requires |recs| <= MAX_RECORDS_PER_BLOB
    ensures var blob := WrapBlob(recs);
            |blob| >= 4 && BlobCount(blob) == |recs| && blob[4..] == Wrap(recs)
  {
    hide Wrap, Le32, U32At;
    Le32At([], |recs|, Wrap(recs));
    assert [] + Le32(|recs|) + Wrap(recs) == WrapBlob(recs);
  }

  // ----- The output file -----

  function Sum(s: seq<byte>): nat {
    if s == [] then 0 else s[0] + Sum(s[1..])
  }

  lemma {:induction false} SumAppend(a: seq<byte>, b: seq<byte>)
    ensures Sum(a + b) == Sum(a) + Sum(b)
  {
    if a == [] {
      assert a + b == b;
    } else {
      SumAppend(a[1..], b);
      assert (a + b)[1..] == a[1..] + b;
    }
  }

  lemma SumNone()
    ensures Sum([]) == 0
  {
  }

  lemma SumNext(s: seq<byte>, i: nat)
    requires i < |s|
    ensures Sum(s[..i + 1]) == Sum(s[..i]) + s[i]
  {
    assert s[..i + 1] == s[..i] + [s[i]];
    SumAppend(s[..i], [s[i]]);
    assert [s[i]][1..] == [];
  }

  // Filling in one byte that was zero adds it to the sum.
  lemma SumWith(s: seq<byte>, i: nat, c: byte)
    requires i < |s| && s[i] == 0
    ensures Sum(s[i := c]) == Sum(s) + c
  {
    hide Sum;
    var t := s[i := c];
    SumNext(s, i);
    SumNext(t, i);
    SumAppend(s[..i + 1], s[i + 1..]);
    SumAppend(t[..i + 1], s[i + 1..]);
    assert t[..i] == s[..i];
    assert s[..i + 1] + s[i + 1..] == s && t[..i + 1] + s[i + 1..] == t;
  }

  const CHECKSUM_OFFSET: nat := 5

  // The entry point with a given checksum byte: anchor _SM3_, version 3.3, revision 1.
  function EntryPointWith(checksum: byte, n: nat): (ep: seq<byte>)
    ensures |ep| == ENTRY_POINT_SIZE
  {
    [0x5F, 0x53, 0x4D, 0x33, 0x5F] + [checksum, 0x18, 3, 3, 0, 0x01, 0] + Le32(n) + Zeros(8)
  }

  function EntryPoint(n: nat): (ep: seq<byte>)
    ensures |ep| == ENTRY_POINT_SIZE
  {
    EntryPointWith((0x100 - Sum(EntryPointWith(0, n)) % 0x100) % 0x100, n)
  }

  function MdrHeader(version: byte, epoch: nat, n: nat): (h: seq<byte>)
    ensures |h| == MDR_HEADER_SIZE
  {
    [version, 2] + Le32(epoch) + Le32(ENTRY_POINT_SIZE + n)
  }

  function SmbiosFile(version: byte, epoch: nat, records: seq<byte>): seq<byte> {
    MdrHeader(version, epoch, |records|) + EntryPoint(|records|) + records
  }

  lemma ChecksumByte(c: byte, n: nat)
    ensures Sum(EntryPointWith(c, n)) == Sum(EntryPointWith(0, n)) + c
    ensures EntryPointWith(c, n) == EntryPointWith(0, n)[CHECKSUM_OFFSET := c]
  {
    hide Sum, Le32, Zeros;
    SumWith(EntryPointWith(0, n), CHECKSUM_OFFSET, c);
    assert EntryPointWith(c, n) == EntryPointWith(0, n)[CHECKSUM_OFFSET := c];
  }

  /** Among all checksum bytes, exactly the entry point's own makes the bytes sum to zero modulo 256. */
  lemma EntryPointSumsToZero(n: nat, c: byte)
    ensures Sum(EntryPoint(n)) % 0x100 == 0
    ensures Sum(EntryPointWith(c, n)) % 0x100 == 0 <==> EntryPointWith(c, n) == EntryPoint(n)
  {
    hide Sum, EntryPointWith;
    var s := Sum(EntryPointWith(0, n));
    ChecksumByte((0x100 - s % 0x100) % 0x100, n);
    ChecksumByte(c, n);
    OneComplement(s, c);
  }

  lemma OneComplement(s: nat, c: byte)
    ensures (s + (0x100 - s % 0x100) % 0x100) % 0x100 == 0
    ensures (s + c) % 0x100 == 0 <==> c == (0x100 - s % 0x100) % 0x100
  {
  }

  // A whole output file for these records, told by its fields alone: the MDR header, the entry point
  // _SM3_ of length 24 for version 3.3, and the records.
  predicate WholeFile(f: seq<byte>, version: byte, epoch: nat, records: seq<byte>) {
    var n := |records|;
    && |f| == 34 + n && f[0] == version && f[1] == 2
    && U32At(f, 2) == epoch % 0x1_0000_0000 && U32At(f, 6) == 24 + n
    && f[10..15] == [0x5F, 0x53, 0x4D, 0x33, 0x5F] && f[16..22] == [24, 3, 3, 0, 1, 0]
    && U32At(f, 22) == n && f[26..34] == Zeros(8)
    && Sum(f[10..34]) % 0x100 == 0 && f[34..] == records
  }

  /** Every field of the output file, at its offset, for any accumulated data within the limit. */
  lemma SmbiosFileFields(version: byte, epoch: nat, records: seq<byte>)
    requires |records| <= MAX_SMBIOS_DATA_SIZE
    ensures WholeFile(SmbiosFile(version, epoch, records), version, epoch, records)
  {
    var f, n := SmbiosFile(version, epoch, records), |records|;
    var mdr, ep := MdrHeader(version, epoch, n), EntryPoint(n);
    EntryPointSumsToZero(n, 0);
    hide EntryPoint, MdrHeader, Sum;
    MdrFields(version, epoch, n);
    EntryPointFields(n);
    assert f[10..34] == ep && f[34..] == records && f[..10] == mdr;
    hide SmbiosFile;
    FieldInside(f, 0, mdr, 2);
    FieldInside(f, 0, mdr, 6);
    FieldInside(f, 10, ep, 12);
    assert f[0] == mdr[0] && f[1] == mdr[1];
    assert f[10..15] == ep[..5] && f[16..22] == ep[6..12] && f[26..34] == ep[16..24];
  }

  lemma FieldInside(f: seq<byte>, at: nat, part: seq<byte>, off: nat)
    requires at + |part| <= |f| && f[at..at + |part|] == part && off + 4 <= |part|
    ensures U32At(f, at + off) == U32At(part, off)
  {
    var g := f[at..at + |part|];
    assert f[at + off] == g[off] && f[at + off + 1] == g[off + 1];
    assert f[at + off + 2] == g[off + 2] && f[at + off + 3] == g[off + 3];
  }

  lemma MdrFields(version: byte, epoch: nat, n: nat)
    requires n <= MAX_SMBIOS_DATA_SIZE
    ensures var mdr := MdrHeader(version, epoch, n);
            mdr[0] == version && mdr[1] == 2 && U32At(mdr, 2) == epoch % 0x1_0000_0000 && U32At(mdr, 6) == 24 + n
  {
    var mdr := MdrHeader(version, epoch, n);
    var front: seq<byte> := [version, 2];
    hide Le32, U32At;
    Le32At(front, epoch, Le32(24 + n));
    Le32At(front + Le32(epoch), 24 + n, []);
    assert mdr + [] == mdr;
  }

  lemma EntryPointFields(n: nat)
    requires n <= MAX_SMBIOS_DATA_SIZE
    ensures var ep := EntryPoint(n);
            && ep[..5] == [0x5F, 0x53, 0x4D, 0x33, 0x5F] && ep[6..12] == [24, 3, 3, 0, 1, 0]
            && U32At(ep, 12) == n && ep[16..24] == Zeros(8)
  {
    var ep := EntryPoint(n);
    var anchor: seq<byte> := [0x5F, 0x53, 0x4D, 0x33, 0x5F];
    var middle: seq<byte> := [ep[5], 0x18, 3, 3, 0, 0x01, 0];
    hide Le32, U32At, Zeros, Sum;
    assert ep == (anchor + middle) + Le32(n) + Zeros(8);
    Le32At(anchor + middle, n, Zeros(8));
  }

  // ----- The writer -----

  // How the file steps of `finalize` went. Nothing is checked after the stream is closed: bytes
  // still buffered may be lost there, and the temporary file, cut after `kept` bytes, is renamed
  // like a whole one.
  datatype FinalizeOutcome = Written | CloseLost(kept: nat) | DirFailed | OpenFailed | WriteFailed | RenameFailed

  predicate Renamed(o: FinalizeOutcome) {
    o.Written? || o.CloseLost?
  }

  // Whether a file of n bytes lost some of them at close.
  predicate LosesBytes(o: FinalizeOutcome, n: nat) {
    o.CloseLost? && o.kept < n
  }

  function AfterClose(f: seq<byte>, o: FinalizeOutcome): seq<byte> {
    if LosesBytes(o, |f|) then f[..o.kept] else f
  }

  /** The renamed file is whole exactly when nothing was lost at close; else it is cut where the loss began. */
  lemma FileAfterClose(version: byte, epoch: nat, records: seq<byte>, o: FinalizeOutcome)
    requires |records| <= MAX_SMBIOS_DATA_SIZE
    ensures var whole, n := SmbiosFile(version, epoch, records), 34 + |records|;
            var f := AfterClose(whole, o);
            && (WholeFile(f, version, epoch, records) <==> !LosesBytes(o, n))
            && |whole| == n && f <= whole && |f| == if LosesBytes(o, n) then o.kept else n
  {
    SmbiosFileFields(version, epoch, records);
    hide SmbiosFile, Sum, U32At;
  }

  datatype WriterState = WriterState(records: seq<byte>, version: byte, file: Option<seq<byte>>)

  function AfterBegin(s: WriterState): WriterState {
    s.(records := [])
  }

  function AfterAdd(s: WriterState, blob: seq<byte>): WriterState
    requires |s.records| <= MAX_SMBIOS_DATA_SIZE
  {
    s.(records := s.records + Flatten(BlobRecords(blob, |s.records|)))
  }

  // The version counter advances even when writing the file then fails.
  function AfterFinalize(s: WriterState, epoch: nat, o: FinalizeOutcome): WriterState {
    if s.records == [] || o.DirFailed? then s
    else
      var version := (s.version + 1) % 0x100;
      WriterState(s.records, version,
                  if Renamed(o) then Some(AfterClose(SmbiosFile(version, epoch, s.records), o)) else s.file)
  }

  class SmbiosWriter {
    var records: seq<byte>
    var directoryVersion: byte
    var file: Option<seq<byte>>

    ghost predicate Valid()
      reads this
    {
      |records| <= MAX_SMBIOS_DATA_SIZE
    }

    function State(): WriterState
      reads this
    {
      WriterState(records, directoryVersion, file)
    }

    constructor (file: Option<seq<byte>>)
      ensures State() == WriterState([], 0, file) && Valid()
    {
      records, directoryVersion, this.file := [], 0, file;
    }

    method Begin()
      modifies this
      ensures Valid() && State() == AfterBegin(old(State()))
    {
      records := [];
    }

    method AddRecord(record: seq<byte>)
      requires Valid()
      modifies this
      ensures Valid() && State() == AfterAdd(old(State()), record)
    {
      BlobTakesLongestRun(record, |records|, []);
      if |record| < 6 {
        assert records == old(records) + [];
        return;
      }
      var count := U32At(record, 0);
      if count > MAX_RECORDS_PER_BLOB {
        count := MAX_RECORDS_PER_BLOB;
      }
      UnwrapRecords(record, count);
    }

    method UnwrapRecords(record: seq<byte>, count: nat)
      requires Valid()
      modifies this`records
      ensures records == old(records)
                         + Flatten(AcceptedFrom(record, 4, count, MAX_SMBIOS_DATA_SIZE - |old(records)|))
    {
      hide AcceptedFrom, Flatten, U16At;
      ghost var all := AcceptedFrom(record, 4, count, MAX_SMBIOS_DATA_SIZE - |records|);
      ghost var done: seq<seq<byte>> := [];
      FlattenNone();
      assert records == old(records) + [];
      var offset: nat := 4;
      var i := 0;
      while i < count && offset + 2 <= |record|
        invariant 0 <= i <= count && |records| <= MAX_SMBIOS_DATA_SIZE
        invariant records == old(records) + Flatten(done)
        invariant all == done + AcceptedFrom(record, offset, count - i, MAX_SMBIOS_DATA_SIZE - |records|)
      {
        AcceptedStep(record, offset, count - i, MAX_SMBIOS_DATA_SIZE - |records|);
        var recSize := U16At(record, offset);
        offset := offset + 2;
        if recSize == 0 || offset + recSize > |record| {
          assert all == done;
          return;
        }
        if |records| + recSize > MAX_SMBIOS_DATA_SIZE {
          assert all == done;
          return;
        }
        ghost var rec := record[offset..offset + recSize];
        AppendRecord(old(records), done, rec);
        records := records + record[offset..offset + recSize];
        offset := offset + recSize;
        ConcatAssociative(done, [rec], AcceptedFrom(record, offset, count - i - 1, MAX_SMBIOS_DATA_SIZE - |records|));
        done := done + [rec];
        i := i + 1;
      }
      AcceptedStep(record, offset, count - i, MAX_SMBIOS_DATA_SIZE - |records|);
      assert all == done;
    }

    // -(sum of all other bytes), so that all the bytes sum to zero.
    static method ComputeChecksum(ep: seq<byte>) returns (c: byte)
      requires |ep| == ENTRY_POINT_SIZE
      ensures Sum(ep[CHECKSUM_OFFSET := c]) % 0x100 == 0
    {
      hide Sum;
      ghost var cleared := ep[CHECKSUM_OFFSET := 0];
      var sum: byte := 0;
      SumNone();
      for i := 0 to |ep|
        invariant sum == Sum(cleared[..i]) % 0x100
      {
        SumNext(cleared, i);
        if i != CHECKSUM_OFFSET {
          sum := (sum as int + ep[i]) % 0x100;
        }
      }
      assert cleared[..|ep|] == cleared;
      c := (0x100 - sum as int) % 0x100;
      SumWith(cleared, CHECKSUM_OFFSET, c);
      assert cleared[CHECKSUM_OFFSET := c] == ep[CHECKSUM_OFFSET := c];
    }

    // The entry point as finalize fills it in: every field, then the checksum.
    static method BuildEntryPoint(size: nat) returns (ep: seq<byte>)
      ensures ep == EntryPoint(size)
    {
      hide Sum, Le32, Zeros, EntryPoint;
      ep := EntryPointWith(0, size);
      var checksum := ComputeChecksum(ep);
      ChecksumByte(checksum, size);
      EntryPointSumsToZero(size, checksum);
      ep := ep[CHECKSUM_OFFSET := checksum];
    }

    method Finalize(epoch: nat, o: FinalizeOutcome) returns (ok: bool)
      requires Valid()
      modifies this
      ensures Valid() && State() == AfterFinalize(old(State()), epoch, o)
      ensures ok == (old(records) != [] && Renamed(o))
    {
      hide EntryPoint, MdrHeader;
      if records == [] {
        return false;
      }
      if o.DirFailed? {
        return false;
      }
      var ep := BuildEntryPoint(|records|);
      directoryVersion := (directoryVersion as int + 1) % 0x100;
      var mdr := MdrHeader(directoryVersion, epoch, |records|);
      if !Renamed(o) {
        return false;
      }
      file := Some(AfterClose(mdr + ep + records, o));
      ok := true;
    }
  }
}
