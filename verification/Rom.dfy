/**
`RomService`: the Begin/Record/Blob/End session of service 0x02, and what every file it writes
at End contains, whatever commands came before.
*/
module Rom {
  import opened Bytes
  import opened Packet
  import opened Smbios

  const CMD_BEGIN: u16 := 0x0003
  const CMD_RECORD: u16 := 0x0004
  const CMD_END: u16 := 0x0005
  const CMD_POWER_DATA: u16 := 0x0006
  const CMD_THERMAL: u16 := 0x0007
  const CMD_BLOB: u16 := 0x000C

  // The clock and the file system as finalize finds them.
  datatype RomEnv = RomEnv(epoch: nat, outcome: FinalizeOutcome)

  predicate KnownCommand(c: u16) {
    c in {CMD_BEGIN, CMD_RECORD, CMD_END, CMD_POWER_DATA, CMD_THERMAL, CMD_BLOB}
  }

  // Header only, without the response bit; unknown commands are dropped.
  function RomReply(req: seq<byte>, cap: nat): Option<seq<byte>> {
    if |req| < HEADER_LEN || !KnownCommand(ParseHeader(req).command) || cap < HEADER_LEN then None
    else Some(EncodeHeader(RomResponseHeader(ParseHeader(req), HEADER_LEN)))
  }

  function RomNext(s: WriterState, req: seq<byte>, env: RomEnv): WriterState
    requires |s.records| <= MAX_SMBIOS_DATA_SIZE
  {
    if |req| < HEADER_LEN then s
    else
      var c, data := ParseHeader(req).command, Payload(req);
      if c == CMD_BEGIN then AfterBegin(s)
      else if (c == CMD_RECORD || c == CMD_BLOB) && data != [] then AfterAdd(s, data)
      else if c == CMD_END then AfterFinalize(s, env.epoch, env.outcome)
      else s
  }

  // An End command that finds records and gets a file renamed into place.
  predicate WritesFile(s: WriterState, req: seq<byte>, env: RomEnv) {
    |req| >= HEADER_LEN && ParseHeader(req).command == CMD_END && s.records != [] && Renamed(env.outcome)
  }

  // The D-Bus proxy; only that it was called matters here.
  class MdrBridge {
    var calls: nat

    constructor ()
      ensures calls == 0
    {
      calls := 0;
    }

    method Synchronize()
      modifies this
      ensures calls == old(calls) + 1
    {
      calls := calls + 1;
    }
  }

  class RomService {
    const writer: SmbiosWriter
    const mdrBridge: MdrBridge?

    constructor (writer: SmbiosWriter, mdrBridge: MdrBridge?)
      ensures this.writer == writer && this.mdrBridge == mdrBridge
    {
      this.writer := writer;
      this.mdrBridge := mdrBridge;
    }

    static method BuildHeaderOnlyResponse(h: ChifPktHeader, response: array<byte>) returns (r: int)
      modifies response
      ensures Answered(old(response[..]), response[..], r,
                       if response.Length < HEADER_LEN then None
                       else Some(EncodeHeader(RomResponseHeader(h, HEADER_LEN))))
    {
      if response.Length < HEADER_LEN {
        return -1;
      }
      InitRomResponse(response, h, HEADER_LEN);
      r := HEADER_LEN;
    }

    method HandleData(h: ChifPktHeader, request: seq<byte>, response: array<byte>) returns (r: int)
      requires writer.Valid()
      modifies writer, response
      ensures writer.Valid()
      ensures writer.State() == if Payload(request) == [] then old(writer.State())
                                else AfterAdd(old(writer.State()), Payload(request))
      ensures Answered(old(response[..]), response[..], r,
                       if response.Length < HEADER_LEN then None
                       else Some(EncodeHeader(RomResponseHeader(h, HEADER_LEN))))
    {
      var data := Payload(request);
      if data == [] {
        r := BuildHeaderOnlyResponse(h, response);
        return;
      }
      writer.AddRecord(data);
      r := BuildHeaderOnlyResponse(h, response);
    }

    method HandleEnd(h: ChifPktHeader, response: array<byte>, env: RomEnv) returns (r: int)
      requires writer.Valid()
      modifies writer, response, mdrBridge
      ensures writer.Valid()
      ensures writer.State() == AfterFinalize(old(writer.State()), env.epoch, env.outcome)
      ensures mdrBridge != null ==>
        mdrBridge.calls == old(mdrBridge.calls) + if old(writer.records) != [] && Renamed(env.outcome) then 1 else 0
      ensures Answered(old(response[..]), response[..], r,
                       if response.Length < HEADER_LEN then None
                       else Some(EncodeHeader(RomResponseHeader(h, HEADER_LEN))))
    {
      var ok := writer.Finalize(env.epoch, env.outcome);
      r := BuildHeaderOnlyResponse(h, response);
      if ok && mdrBridge != null {
        mdrBridge.Synchronize();
      }
    }

    method Handle(request: seq<byte>, response: array<byte>, env: RomEnv) returns (r: int)
      requires writer.Valid()
      modifies writer, response, mdrBridge
      ensures writer.Valid()
      ensures writer.State() == RomNext(old(writer.State()), request, env)
      ensures mdrBridge != null ==>
        mdrBridge.calls == old(mdrBridge.calls) + if WritesFile(old(writer.State()), request, env) then 1 else 0
      ensures Answered(old(response[..]), response[..], r, RomReply(request, response.Length))
    {
      if |request| < HEADER_LEN {
        return -1;
      }
      var h := ParseHeader(request);
      match h.command {
        case 0x0003 =>
          writer.Begin();
          r := BuildHeaderOnlyResponse(h, response);
        case 0x0004 => r := HandleData(h, request, response);
        case 0x0005 => r := HandleEnd(h, response, env);
        case 0x0006 => r := BuildHeaderOnlyResponse(h, response);
        case 0x0007 => r := BuildHeaderOnlyResponse(h, response);
        case 0x000C => r := HandleData(h, request, response);
        case _ => r := -1;
      }
    }
  }

  // ----- Sessions -----

  datatype RomEvent = RomEvent(req: seq<byte>, env: RomEnv)

  function RomRun(s: WriterState, evs: seq<RomEvent>): (s': WriterState)
    requires |s.records| <= MAX_SMBIOS_DATA_SIZE
    ensures |s'.records| <= MAX_SMBIOS_DATA_SIZE
  {
    if evs == [] then s
    else
      var last := evs[|evs| - 1];
      var before := RomRun(s, evs[..|evs| - 1]);
      BlobTakesLongestRun(Payload(last.req), |before.records|, []);
      RomNext(before, last.req, last.env)
  }

  predicate IsCommand(e: RomEvent, c: u16) {
    |e.req| >= HEADER_LEN && U16At(e.req, 4) == c
  }

  // The records accepted since the last Begin, one by one, read off the command history alone.
  function SessionRecords(evs: seq<RomEvent>): (recs: seq<seq<byte>>)
    ensures |Flatten(recs)| <= MAX_SMBIOS_DATA_SIZE
  {
    if evs == [] then []
    else
      var last := evs[|evs| - 1];
      var before := SessionRecords(evs[..|evs| - 1]);
      if IsCommand(last, CMD_BEGIN) then []
      else if IsCommand(last, CMD_RECORD) || IsCommand(last, CMD_BLOB) then
        var more := BlobRecords(Payload(last.req), |Flatten(before)|);
        BlobTakesLongestRun(Payload(last.req), |Flatten(before)|, []);
        FlattenAppend(before, more);
        before + more
      else before
  }

  lemma {:induction false} RunAccumulates(s: WriterState, evs: seq<RomEvent>)
    requires s.records == []
    ensures RomRun(s, evs).records == Flatten(SessionRecords(evs))
    decreases |evs|
  {
    hide Flatten, BlobRecords, ParseHeader, SmbiosFile, U16At;
    FlattenNone();
    if evs != [] {
      var last, prior := evs[|evs| - 1], evs[..|evs| - 1];
      if |last.req| >= HEADER_LEN { CommandAt(last.req); }
      RunAccumulates(s, prior);
      var before := SessionRecords(prior);
      var more := BlobRecords(Payload(last.req), |Flatten(before)|);
      FlattenAppend(before, more);
      if Payload(last.req) == [] {
        EmptyBlob(|Flatten(before)|);
        assert before + [] == before;
      }
    }
  }

  lemma EmptyBlob(have: nat)
    requires have <= MAX_SMBIOS_DATA_SIZE
    ensures BlobRecords([], have) == []
  {
  }

  // How often a run has come to an End command that found records and a directory.
  function Finalizes(evs: seq<RomEvent>): nat {
    if evs == [] then 0
    else
      var last, front := evs[|evs| - 1], evs[..|evs| - 1];
      var counts := IsCommand(last, CMD_END) && Flatten(SessionRecords(front)) != [] && !last.env.outcome.DirFailed?;
      Finalizes(front) + if counts then 1 else 0
  }

  /** The directory version counts exactly those End commands, modulo 256, whatever then happens to the file. */
  lemma {:induction false} VersionCounts(s: WriterState, evs: seq<RomEvent>)
    requires s.records == []
    ensures RomRun(s, evs).version == (s.version + Finalizes(evs)) % 0x100
    decreases |evs|
  {
    hide Flatten, BlobRecords, ParseHeader, SmbiosFile, SessionRecords, IsCommand, U16At;
    if evs != [] {
      var last, front := evs[|evs| - 1], evs[..|evs| - 1];
      VersionCounts(s, front);
      RunAccumulates(s, front);
      VersionStep(RomRun(s, front), last);
    }
  }

  // What one command does to the version.
  lemma VersionStep(s: WriterState, e: RomEvent)
    requires |s.records| <= MAX_SMBIOS_DATA_SIZE
    ensures RomNext(s, e.req, e.env).version
            == if IsCommand(e, CMD_END) && s.records != [] && !e.env.outcome.DirFailed? then (s.version + 1) % 0x100
               else s.version
  {
    hide BlobRecords, SmbiosFile, U16At;
    if |e.req| >= HEADER_LEN { CommandAt(e.req); }
  }

  lemma CommandAt(req: seq<byte>)
    requires |req| >= HEADER_LEN
    ensures ParseHeader(req).command == U16At(req, 4)
  {
  }

  /**
  ROM session. Over every command run, an End command whose file is renamed into place leaves a whole
  file exactly when nothing was lost at close: an MDR header announcing 24 + n, an entry point
  announcing n whose 24 bytes sum to zero modulo 256, and behind them the concatenation of exactly
  the records accepted since the last Begin. Its first byte counts the finalizations so far, this one
  included. Otherwise the file is cut where the loss began. n is between 1 and 1 MiB, so no size is
  truncated. Nothing else writes the file.
  */
  lemma RomSession(s: WriterState, evs: seq<RomEvent>, e: RomEvent)
    requires s.records == []
    ensures var before := RomRun(s, evs);
            var after := RomNext(before, e.req, e.env);
            var recs := Flatten(SessionRecords(evs));
            var n, o := |recs|, e.env.outcome;
            var version := (s.version + Finalizes(evs) + 1) % 0x100;
            && n <= 0x10_0000
            && (if IsCommand(e, CMD_END) && Renamed(o) && n > 0 then
                  && after.file.Some?
                  && (WholeFile(after.file.value, version, e.env.epoch, recs) <==> !LosesBytes(o, 34 + n))
                  && |after.file.value| == (if LosesBytes(o, 34 + n) then o.kept else 34 + n)
                  && after.file.value <= SmbiosFile(version, e.env.epoch, recs)
                else after.file == before.file)
  {
    hide Flatten, SessionRecords, RomRun, WholeFile, BlobRecords, SmbiosFile, AfterClose, ParseHeader, U16At, Finalizes;
    RunAccumulates(s, evs);
    VersionCounts(s, evs);
    if |e.req| >= HEADER_LEN { CommandAt(e.req); }
    var before := RomRun(s, evs);
    FileAfterClose((before.version + 1) % 0x100, e.env.epoch, before.records, e.env.outcome);
  }

  /** The session told by the numbers on the wire: what each command does, and which are answered and how. */
  lemma RomOnBytes(s: WriterState, req: seq<byte>, env: RomEnv, cap: nat)
    requires |s.records| <= MAX_SMBIOS_DATA_SIZE && |req| >= 8
    ensures var c, s' := U16At(req, 4), RomNext(s, req, env);
            && (c == 0x0003 ==> s' == WriterState([], s.version, s.file))
            && (c in {0x0004, 0x000C} && |req| > 8 ==>
                  s' == WriterState(s.records + Flatten(BlobRecords(req[8..], |s.records|)), s.version, s.file))
            && (c == 0x0005 ==> s' == AfterFinalize(s, env.epoch, env.outcome))
            && (c !in {0x0003, 0x0004, 0x0005, 0x000C} || (c != 0x0003 && c != 0x0005 && |req| == 8) ==> s' == s)
    ensures RomReply(req, cap)
            == if cap >= 8 && U16At(req, 4) in {0x0003, 0x0004, 0x0005, 0x0006, 0x0007, 0x000C}
               then Some([8, 0] + req[2..8]) else None
  {
    hide U16At, BlobRecords, Flatten, EncodeHeader;
    CommandAt(req);
    RomEcho(req);
  }

  // The answer is the request's header with its size set to eight.
  lemma RomEcho(req: seq<byte>)
    requires |req| >= 8
    ensures EncodeHeader(RomResponseHeader(ParseHeader(req), 8)) == [8, 0] + req[2..8]
  {
  }

  /** Everything before a Begin is forgotten: the session only depends on what follows it. */
  lemma {:induction false} BeginForgets(before: seq<RomEvent>, begin: RomEvent, evs: seq<RomEvent>)
    requires IsCommand(begin, CMD_BEGIN)
    ensures SessionRecords(before + [begin] + evs) == SessionRecords([begin] + evs) == SessionRecords(evs)
    decreases |evs|
  {
    hide Flatten, BlobRecords, ParseHeader;
    var all := before + [begin] + evs;
    if evs == [] {
      assert all[|all| - 1] == begin;
      assert [begin] + evs == [begin];
    } else {
      var prior := evs[..|evs| - 1];
      BeginForgets(before, begin, prior);
      assert all[..|all| - 1] == before + [begin] + prior;
      assert ([begin] + evs)[..|evs|] == [begin] + prior;
    }
  }

  // ----- A host that sends its records in wrapped blobs -----

  function Request(h: ChifPktHeader, command: u16, data: seq<byte>): seq<byte> {
    EncodeHeader(h.(command := command)) + data
  }

  function Concat(lists: seq<seq<seq<byte>>>): seq<seq<byte>> {
    if lists == [] then [] else Concat(lists[..|lists| - 1]) + lists[|lists| - 1]
  }

  // Begin, then one Blob command for each list of records.
  function BlobSession(h: ChifPktHeader, env: RomEnv, lists: seq<seq<seq<byte>>>): seq<RomEvent> {
    if lists == [] then [RomEvent(Request(h, CMD_BEGIN, []), env)]
    else BlobSession(h, env, lists[..|lists| - 1])
         + [RomEvent(Request(h, CMD_BLOB, WrapBlob(lists[|lists| - 1])), env)]
  }

  lemma RequestMeans(h: ChifPktHeader, command: u16, data: seq<byte>, env: RomEnv)
    ensures IsCommand(RomEvent(Request(h, command, data), env), command)
    ensures forall c: u16 :: c != command ==> !IsCommand(RomEvent(Request(h, command, data), env), c)
    ensures Payload(Request(h, command, data)) == data
  {
    HeaderRoundTrip(h.(command := command), data);
  }

  lemma ConcatPrefix(lists: seq<seq<seq<byte>>>)
    requires lists != []
    ensures |Flatten(Concat(lists))| == |Flatten(Concat(lists[..|lists| - 1]))| + |Flatten(lists[|lists| - 1])|
  {
    FlattenAppend(Concat(lists[..|lists| - 1]), lists[|lists| - 1]);
  }

  lemma {:induction false} BlobSessionRecords(h: ChifPktHeader, env: RomEnv, lists: seq<seq<seq<byte>>>)
    requires forall i :: 0 <= i < |lists| ==> WellSized(lists[i]) && |lists[i]| <= MAX_RECORDS_PER_BLOB
    requires |Flatten(Concat(lists))| <= MAX_SMBIOS_DATA_SIZE
    ensures SessionRecords(BlobSession(h, env, lists)) == Concat(lists)
    decreases |lists|
  {
    hide Flatten, BlobRecords, WrapBlob, Request, IsCommand, WellSized;
    var evs := BlobSession(h, env, lists);
    if lists == [] {
      RequestMeans(h, CMD_BEGIN, [], env);
    } else {
      var front, last := lists[..|lists| - 1], lists[|lists| - 1];
      ConcatPrefix(lists);
      BlobSessionRecords(h, env, front);
      RequestMeans(h, CMD_BLOB, WrapBlob(last), env);
      UnwrapWrapped(last, |Flatten(Concat(front))|);
      assert evs[..|evs| - 1] == BlobSession(h, env, front);
    }
  }

  /**
  End to end. A host that sends Begin, its records in wrapped blobs, and End, with any earlier
  traffic, has the MDR bridge told of a new file when it is renamed into place. The file is whole,
  with exactly the host's records behind its headers, if and only if nothing was lost at close.
  */
  lemma BlobSessionWritten(s: WriterState, earlier: seq<RomEvent>, h: ChifPktHeader, env: RomEnv,
                           lists: seq<seq<seq<byte>>>, end: RomEvent)
    requires s.records == []
    requires forall i :: 0 <= i < |lists| ==> WellSized(lists[i]) && |lists[i]| <= MAX_RECORDS_PER_BLOB
    requires 0 < |Flatten(Concat(lists))| <= MAX_SMBIOS_DATA_SIZE
    requires IsCommand(end, CMD_END) && Renamed(end.env.outcome)
    ensures var before, recs := RomRun(s, earlier + BlobSession(h, env, lists)), Flatten(Concat(lists));
            var after, n := RomNext(before, end.req, end.env), 34 + |Flatten(Concat(lists))|;
            && WritesFile(before, end.req, end.env) && after.file.Some?
            && (WholeFile(after.file.value, (s.version + Finalizes(earlier + BlobSession(h, env, lists)) + 1) % 0x100,
                          end.env.epoch, recs)
                <==> !LosesBytes(end.env.outcome, n))
            && |after.file.value| == (if LosesBytes(end.env.outcome, n) then end.env.outcome.kept else n)
  {
    hide Flatten, SessionRecords, RomRun, RomNext, WholeFile, BlobSession, WrapBlob, WellSized, Concat,
         ParseHeader, SmbiosFile;
    var session := BlobSession(h, env, lists);
    BlobSessionRecords(h, env, lists);
    var begin, rest := BlobSessionStart(h, env, lists);
    assert session == [begin] + rest;
    assert earlier + session == earlier + [begin] + rest;
    BeginForgets(earlier, begin, rest);
    RunAccumulates(s, earlier + session);
    CommandAt(end.req);
    RomSession(s, earlier + session, end);
  }

  /**
  The header comment promises an atomic write; the code does not give it. One record is sent, the
  bytes behind the MDR header are lost at close, and still the file is renamed into place, End is
  answered as usual and the MDR bridge is told to read it.
  */
  lemma CutFileAnnounced(h: ChifPktHeader)
    ensures var end := RomEvent(Request(h, CMD_END, []), RomEnv(0, CloseLost(MDR_HEADER_SIZE)));
            var before := RomRun(WriterState([], 0, None), BlobSession(h, end.env, [[[7]]]));
            var after := RomNext(before, end.req, end.env);
            && WritesFile(before, end.req, end.env) && RomReply(end.req, MAX_PACKET_SIZE).Some?
            && after.file.Some? && |after.file.value| == MDR_HEADER_SIZE
  {
    var recs: seq<seq<byte>> := [[7]];
    var env := RomEnv(0, CloseLost(MDR_HEADER_SIZE));
    assert Concat([recs]) == recs by {
      assert [recs][..0] == [];
      assert [] + recs == recs;
    }
    FlattenOne([7]);
    hide Flatten, Concat, BlobSession, RomRun, RomNext, ParseHeader, WholeFile;
    RequestMeans(h, CMD_END, [], env);
    assert [] + BlobSession(h, env, [recs]) == BlobSession(h, env, [recs]);
    BlobSessionWritten(WriterState([], 0, None), [], h, env, [recs], RomEvent(Request(h, CMD_END, []), env));
  }

  lemma {:induction false} BlobSessionStart(h: ChifPktHeader, env: RomEnv, lists: seq<seq<seq<byte>>>)
    returns (begin: RomEvent, rest: seq<RomEvent>)
    ensures BlobSession(h, env, lists) == [begin] + rest && IsCommand(begin, CMD_BEGIN)
    decreases |lists|
  {
    if lists == [] {
      RequestMeans(h, CMD_BEGIN, [], env);
      begin, rest := RomEvent(Request(h, CMD_BEGIN, []), env), [];
    } else {
      begin, rest := BlobSessionStart(h, env, lists[..|lists| - 1]);
      rest := rest + [RomEvent(Request(h, CMD_BLOB, WrapBlob(lists[|lists| - 1])), env)];
    }
  }
}
