/**
`ChifDaemon`: the packet loop. One read gives at most one request, the registered service answers
it into a reused buffer, and the answer is offered to the channel.
*/
module Daemon {
  import opened Bytes
  import opened Packet
  import opened EvFormat
  import opened EvStore
  import opened Smif
  import opened SmifRuns
  import opened Smbios
  import opened Rom

  // ----- The health service: error code 0 for every command -----

  function HealthReply(req: seq<byte>, cap: nat): Option<seq<byte>> {
    if |req| < HEADER_LEN || cap < 12 then None
    else Some(SimpleReply(ParseHeader(req), 0))
  }

  lemma HealthOnBytes(req: seq<byte>, cap: nat)
    requires |req| >= 8 && cap >= 12
    ensures var reply := HealthReply(req, cap);
            reply.Some? && |reply.value| == 12 && U32At(reply.value, 8) == 0
  {
    SimpleReplyFramed(ParseHeader(req), 0);
  }

  method HealthHandle(request: seq<byte>, response: array<byte>) returns (r: int)
    modifies response
    ensures Answered(old(response[..]), response[..], r, HealthReply(request, response.Length))
  {
    hide Splice, EncodeHeader, Zeros, ParseHeader, Le32, ResponseHeader;
    if |request| < HEADER_LEN {
      return -1;
    }
    if response.Length < 12 {
      return -1;
    }
    var h := ParseHeader(request);
    FieldLayout(response[..], EncodeHeader(ResponseHeader(h, 12)), 8, [], 12);
    NothingSpliced(response[..], EncodeHeader(ResponseHeader(h, 12)));
    FillZero(response, 12);
    InitResponse(response, h, 12);
    r := 12;
  }

  lemma NothingSpliced(s: seq<byte>, hdr: seq<byte>)
    requires |hdr| == 8 && |s| >= 12
    ensures var t := Splice(Splice(s, 0, Zeros(12)), 0, hdr);
            Splice(t, 8, []) == t
    ensures Le32(0) == Zeros(4) && Zeros(0) == []
  {
    ZeroFields();
    SpliceIndex(Splice(Splice(s, 0, Zeros(12)), 0, hdr), 8, []);
  }

  // ----- Services and the state behind them -----

  datatype ServiceKind = RomKind | SmifKind | HealthKind

  function ServiceId(k: ServiceKind): byte {
    match k
    case RomKind => ROM_SERVICE_ID
    case SmifKind => SMIF_SERVICE_ID
    case HealthKind => HEALTH_SERVICE_ID
  }

  type Handlers = map<byte, ServiceKind>

  datatype World = World(store: Option<Store>, bus: map<byte, int>, rom: WriterState)

  predicate WorldValid(w: World) {
    && (w.store.Some? ==> InLimits(w.store.value.entries))
    && |w.rom.records| <= MAX_SMBIOS_DATA_SIZE
  }

  datatype Env = Env(smif: SmifEnv, rom: RomEnv)

  function Respond(hs: Handlers, w: World, req: seq<byte>, env: Env): Option<seq<byte>>
    requires WorldValid(w)
  {
    if |req| < HEADER_LEN || ParseHeader(req).serviceId !in hs then None
    else
      match hs[ParseHeader(req).serviceId]
      case RomKind => RomReply(req, MAX_PACKET_SIZE)
      case SmifKind => SmifReply(w.store, w.bus, req, env.smif, MAX_PACKET_SIZE)
      case HealthKind => HealthReply(req, MAX_PACKET_SIZE)
  }

  function After(hs: Handlers, w: World, req: seq<byte>, env: Env): World
    requires WorldValid(w)
  {
    if |req| < HEADER_LEN || ParseHeader(req).serviceId !in hs then w
    else
      match hs[ParseHeader(req).serviceId]
      case RomKind => w.(rom := RomNext(w.rom, req, env.rom))
      case SmifKind =>
        if w.store.None? then w
        else w.(store := Some(SmifNext(w.store.value, req, env.smif.save, MAX_PACKET_SIZE)))
      case HealthKind => w
  }

  lemma PutInLimits(es: seq<EvEntry>, n: seq<byte>, d: seq<byte>)
    requires InLimits(es) && SetAccepted(es, n, d)
    ensures InLimits(Put(es, n, d))
  {
  }

  lemma RemoveInLimits(es: seq<EvEntry>, n: seq<byte>)
    requires InLimits(es)
    ensures InLimits(Remove(es, n))
  {
    RemoveSize(es, n);
  }

  lemma SetDeleteInLimits(s: Store, p: seq<byte>, o: SaveOutcome)
    requires InLimits(s.entries)
    ensures InLimits(SetDelete(s, p, o).0.entries)
  {
    hide CStr, U16At, InLimits, Serialize, Find, Put, Remove, SetAccepted;
    assert InLimits([]) by { NothingInLimits(); }
    if |p| >= 36 { RemoveInLimits(s.entries, CStr(p[4..36])); }
    if |p| >= 38 {
      RemoveInLimits(s.entries, CStr(p[4..35]));
      if |p| >= 38 + U16At(p, 36) && SetAccepted(s.entries, CStr(p[4..35]), p[38..38 + U16At(p, 36)]) {
        PutInLimits(s.entries, CStr(p[4..35]), p[38..38 + U16At(p, 36)]);
      }
    }
  }

  lemma NothingInLimits()
    ensures InLimits([])
  {
  }

  lemma AfterValid(hs: Handlers, w: World, req: seq<byte>, env: Env)
    requires WorldValid(w)
    ensures WorldValid(After(hs, w, req, env))
  {
    hide SetDelete, ParseHeader, InLimits, BlobRecords, SmbiosFile;
    if w.store.Some? {
      SetDeleteInLimits(w.store.value, Payload(req), env.smif.save);
    }
    BlobTakesLongestRun(Payload(req), |w.rom.records|, []);
  }

  // ----- The channel, as a script of reads -----

  // What `read` returns next: the bytes of one packet, or an error. Whether a write then succeeds
  // makes no difference to the daemon, which only logs a failure.
  datatype ReadEvent = Packet(bytes: seq<byte>, env: Env) | ReadError

  // The request a read delivers into the 4096-byte buffer.
  function RequestOf(e: ReadEvent): seq<byte> {
    match e
    case Packet(bytes, _) => bytes[..Min(|bytes|, MAX_PACKET_SIZE)]
    case ReadError => []
  }

  function WorldAt(hs: Handlers, w: World, evs: seq<ReadEvent>): (w': World)
    requires WorldValid(w)
    ensures WorldValid(w')
  {
    if evs == [] then w
    else
      var last, before := evs[|evs| - 1], WorldAt(hs, w, evs[..|evs| - 1]);
      if last.ReadError? then before
      else
        AfterValid(hs, before, RequestOf(last), last.env);
        After(hs, before, RequestOf(last), last.env)
  }

  // The answer that the i-th read leads to, given everything read before it.
  function AnswerTo(hs: Handlers, w: World, evs: seq<ReadEvent>, i: nat): Option<seq<byte>>
    requires WorldValid(w) && i < |evs|
  {
    if evs[i].ReadError? then None
    else Respond(hs, WorldAt(hs, w, evs[..i]), RequestOf(evs[i]), evs[i].env)
  }

  // The packets offered to `write`, in order.
  function Trace(hs: Handlers, w: World, evs: seq<ReadEvent>): seq<seq<byte>>
    requires WorldValid(w)
  {
    if evs == [] then []
    else
      var reply := AnswerTo(hs, w, evs, |evs| - 1);
      Trace(hs, w, evs[..|evs| - 1]) + (if reply.Some? && |reply.value| >= HEADER_LEN then [reply.value] else [])
  }

  lemma TraceStep(hs: Handlers, w: World, evs: seq<ReadEvent>, i: nat)
    requires WorldValid(w) && i < |evs|
    ensures var reply := AnswerTo(hs, w, evs, i);
            Trace(hs, w, evs[..i + 1])
            == Trace(hs, w, evs[..i]) + (if reply.Some? && |reply.value| >= HEADER_LEN then [reply.value] else [])
    ensures WorldAt(hs, w, evs[..i + 1])
            == if evs[i].ReadError? then WorldAt(hs, w, evs[..i])
               else After(hs, WorldAt(hs, w, evs[..i]), RequestOf(evs[i]), evs[i].env)
  {
    hide After, Respond, RequestOf;
    var prefix := evs[..i + 1];
    assert prefix[..i] == evs[..i] && prefix[i] == evs[i];
  }

  class ChifDaemon {
    const smif: SmifService
    const rom: RomService
    const recvBuf: array<byte>
    const respBuf: array<byte>
    var handlers: Handlers
    // Every packet handed to channel_->write.
    var offered: seq<seq<byte>>

    ghost predicate Valid()
      reads this, smif.evStorage, rom.writer
    {
      && smif.Valid() && rom.writer.Valid()
      && recvBuf != respBuf
      && recvBuf.Length == respBuf.Length == MAX_PACKET_SIZE
    }

    function WorldNow(): (w: World)
      reads this, smif.evStorage, rom.writer
      ensures Valid() ==> WorldValid(w)
    {
      World(smif.StoreNow(), smif.segmentToBus, rom.writer.State())
    }

    constructor (smif: SmifService, rom: RomService)
      requires smif.Valid() && rom.writer.Valid()
      ensures Valid() && handlers == map[] && offered == []
      ensures this.smif == smif && this.rom == rom && fresh(recvBuf) && fresh(respBuf)
    {
      this.smif, this.rom := smif, rom;
      recvBuf := new byte[MAX_PACKET_SIZE](_ => 0);
      respBuf := new byte[MAX_PACKET_SIZE](_ => 0);
      handlers, offered := map[], [];
    }

    // Overwrites any prior handler for the same service id.
    method RegisterHandler(k: ServiceKind)
      modifies this`handlers
      ensures handlers == old(handlers)[ServiceId(k) := k]
    {
      handlers := handlers[ServiceId(k) := k];
    }

    // The handler's virtual call.
    method CallHandler(k: ServiceKind, req: seq<byte>, env: Env) returns (r: int)
      requires Valid() && |req| >= HEADER_LEN
      requires ParseHeader(req).serviceId in handlers && handlers[ParseHeader(req).serviceId] == k
      modifies respBuf, smif.evStorage, rom.writer, rom.mdrBridge
      ensures Valid()
      ensures WorldNow() == After(handlers, old(WorldNow()), req, env)
      ensures Answered(old(respBuf[..]), respBuf[..], r, Respond(handlers, old(WorldNow()), req, env))
    {
      hide SmifReply, SmifNext, RomReply, RomNext, HealthReply, ParseHeader, InLimits;
      match k {
        case RomKind => r := rom.Handle(req, respBuf, env.rom);
        case SmifKind => r := smif.Handle(req, respBuf, env.smif);
        case HealthKind => r := HealthHandle(req, respBuf);
      }
    }

    // The loop runs until stop(); the script ends where it does.
    method Run(script: seq<ReadEvent>)
      requires Valid()
      modifies this`offered, recvBuf, respBuf, smif.evStorage, rom.writer, rom.mdrBridge
      ensures Valid()
      ensures offered == old(offered) + Trace(handlers, old(WorldNow()), script)
      ensures WorldNow() == WorldAt(handlers, old(WorldNow()), script)
    {
      hide WorldAt, Trace, After, Respond, WorldValid;
      ghost var w := WorldNow();
      TraceStart(handlers, w);
      assert script[..0] == [];
      for i := 0 to |script|
        invariant Valid()
        invariant WorldNow() == WorldAt(handlers, w, script[..i])
        invariant offered == old(offered) + Trace(handlers, w, script[..i])
      {
        TraceStep(handlers, w, script, i);
        Turn(script[i]);
      }
      assert script[..|script|] == script;
    }

    // One turn of the loop.
    method Turn(e: ReadEvent)
      requires Valid()
      modifies this`offered, recvBuf, respBuf, smif.evStorage, rom.writer, rom.mdrBridge
      ensures Valid()
      ensures WorldNow() == if e.ReadError? then old(WorldNow())
                            else After(handlers, old(WorldNow()), RequestOf(e), e.env)
      ensures var reply := if e.ReadError? then None else Respond(handlers, old(WorldNow()), RequestOf(e), e.env);
              offered == old(offered) + (if reply.Some? && |reply.value| >= HEADER_LEN then [reply.value] else [])
    {
      hide SmifReply, SmifNext, RomReply, RomNext, HealthReply, Splice, InLimits;
      if e.ReadError? {
        return;
      }
      var n := Min(|e.bytes|, MAX_PACKET_SIZE);
      CopyInto(recvBuf, 0, e.bytes[..n]);
      SplicedFront(old(recvBuf[..]), e.bytes[..n]);
      if n <= 0 {
        return;
      }
      if n < HEADER_LEN {
        return;
      }
      var req := recvBuf[..n];
      assert req == RequestOf(e);
      var svc := ParseHeader(req).serviceId;
      if svc !in handlers {
        return;
      }
      var respSize := CallHandler(handlers[svc], req, e.env);
      if respSize > 0 {
        if respSize < HEADER_LEN {
          return;
        }
        offered := offered + [respBuf[..respSize]];
      }
    }
  }

  lemma SplicedFront(s: seq<byte>, src: seq<byte>)
    requires |src| <= |s|
    ensures Splice(s, 0, src)[..|src|] == src
  {
  }

  lemma TraceStart(hs: Handlers, w: World)
    requires WorldValid(w)
    ensures WorldAt(hs, w, []) == w && Trace(hs, w, []) == []
  {
  }

  // ----- What the trace means -----

  // A request that names a registered service and is long enough to be one.
  predicate Addressed(hs: Handlers, e: ReadEvent) {
    |RequestOf(e)| >= HEADER_LEN && ParseHeader(RequestOf(e)).serviceId in hs
  }

  // The positions of the reads that are answered.
  function AnsweredReads(hs: Handlers, w: World, evs: seq<ReadEvent>): seq<nat>
    requires WorldValid(w)
  {
    if evs == [] then []
    else
      var reply := AnswerTo(hs, w, evs, |evs| - 1);
      AnsweredReads(hs, w, evs[..|evs| - 1]) + (if reply.Some? then [|evs| - 1] else [])
  }

  lemma RomReplyEchoes(req: seq<byte>, cap: nat)
    requires RomReply(req, cap).Some?
    ensures var b := RomReply(req, cap).value;
            |b| == HEADER_LEN && ParseHeader(b) == ParseHeader(req).(pktSize := HEADER_LEN)
  {
    var h := RomResponseHeader(ParseHeader(req), HEADER_LEN);
    HeaderRoundTrip(h, []);
    assert EncodeHeader(h) + [] == EncodeHeader(h);
  }

  // Every answer is a whole packet that echoes its request's sequence number, service and version.
  lemma RespondEchoes(hs: Handlers, w: World, req: seq<byte>, env: Env)
    requires WorldValid(w) && Respond(hs, w, req, env).Some?
    ensures var b := Respond(hs, w, req, env).value;
            && |req| >= HEADER_LEN && HEADER_LEN <= |b| <= MAX_PACKET_SIZE
            && ParseHeader(b).pktSize == |b|
            && ParseHeader(b).sequence == ParseHeader(req).sequence
            && ParseHeader(b).serviceId == ParseHeader(req).serviceId
            && ParseHeader(b).version == ParseHeader(req).version
  {
    hide SmifReply, RomReply, ParseHeader, SimpleReply, InLimits;
    match hs[ParseHeader(req).serviceId]
    case RomKind => RomReplyEchoes(req, MAX_PACKET_SIZE);
    case SmifKind => DispatchWellFormed(w.store, w.bus, req, env.smif, MAX_PACKET_SIZE);
    case HealthKind => SimpleReplyFramed(ParseHeader(req), 0);
  }

  // An addressed request gets an answer unless it is a ROM command nobody knows.
  lemma AnsweredExactly(hs: Handlers, w: World, evs: seq<ReadEvent>, i: nat)
    requires WorldValid(w) && i < |evs|
    ensures AnswerTo(hs, w, evs, i).Some? <==>
            && Addressed(hs, evs[i])
            && (hs[ParseHeader(RequestOf(evs[i])).serviceId].RomKind? ==>
                  KnownCommand(ParseHeader(RequestOf(evs[i])).command))
  {
    hide ParseHeader, KnownCommand, SmifReply, SimpleReply, WorldAt, InLimits;
    if !evs[i].ReadError? && Addressed(hs, evs[i]) {
      var w' := WorldAt(hs, w, evs[..i]);
      DispatchWellFormed(w'.store, w'.bus, RequestOf(evs[i]), evs[i].env.smif, MAX_PACKET_SIZE);
    }
  }

  // Packet b is the whole answer to read i and echoes its request's sequence number.
  predicate IsAnswerTo(hs: Handlers, w: World, evs: seq<ReadEvent>, i: nat, b: seq<byte>)
    requires WorldValid(w) && i < |evs|
  {
    && AnswerTo(hs, w, evs, i) == Some(b)
    && HEADER_LEN <= |b| <= MAX_PACKET_SIZE
    && |RequestOf(evs[i])| >= HEADER_LEN
    && ParseHeader(b).sequence == ParseHeader(RequestOf(evs[i])).sequence
  }

  /**
  Daemon trace. For every sequence of reads, the packets offered to `write` are, in order, the
  answers to exactly the reads that are answered, one packet a read, each a whole packet echoing
  its request's sequence number; nothing is dropped for being too short.
  */
  lemma {:induction false} DaemonTrace(hs: Handlers, w: World, evs: seq<ReadEvent>)
    requires WorldValid(w)
    ensures var at, sent := AnsweredReads(hs, w, evs), Trace(hs, w, evs);
            && |at| == |sent| <= |evs|
            && (forall j, k :: 0 <= j < k < |at| ==> at[j] < at[k])
            && (forall i :: 0 <= i < |evs| ==> (i in at <==> AnswerTo(hs, w, evs, i).Some?))
            && (forall j :: 0 <= j < |at| ==> at[j] < |evs| && IsAnswerTo(hs, w, evs, at[j], sent[j]))
    decreases |evs|
  {
    hide AnswerTo, ParseHeader, RequestOf, WorldValid, IsAnswerTo, WorldAt, Trace, AnsweredReads;
    if evs == [] {
      TraceUnfolds(hs, w, evs);
    } else {
      var n := |evs| - 1;
      DaemonTrace(hs, w, evs[..n]);
      TraceUnfolds(hs, w, evs);
      forall i | 0 <= i < n ensures AnswerTo(hs, w, evs, i) == AnswerTo(hs, w, evs[..n], i) {
        AnswerPrefix(hs, w, evs, i, []);
      }
      forall i, b | 0 <= i < n ensures IsAnswerTo(hs, w, evs, i, b) <==> IsAnswerTo(hs, w, evs[..n], i, b) {
        AnswerPrefix(hs, w, evs, i, b);
      }
    }
  }

  lemma TraceUnfolds(hs: Handlers, w: World, evs: seq<ReadEvent>)
    requires WorldValid(w)
    ensures evs == [] ==> AnsweredReads(hs, w, evs) == [] && Trace(hs, w, evs) == []
    ensures evs != [] ==>
      var n := |evs| - 1;
      var reply := AnswerTo(hs, w, evs, n);
      && (reply.Some? ==> IsAnswerTo(hs, w, evs, n, reply.value))
      && AnsweredReads(hs, w, evs) == AnsweredReads(hs, w, evs[..n]) + (if reply.Some? then [n] else [])
      && Trace(hs, w, evs) == Trace(hs, w, evs[..n]) + (if reply.Some? then [reply.value] else [])
  {
    hide AnswerTo, ParseHeader, RequestOf, WorldValid, WorldAt;
    if evs != [] && AnswerTo(hs, w, evs, |evs| - 1).Some? {
      AnswerEchoes(hs, w, evs, |evs| - 1);
    }
  }

  lemma AnswerPrefix(hs: Handlers, w: World, evs: seq<ReadEvent>, i: nat, b: seq<byte>)
    requires WorldValid(w) && i < |evs| - 1
    ensures AnswerTo(hs, w, evs, i) == AnswerTo(hs, w, evs[..|evs| - 1], i)
    ensures IsAnswerTo(hs, w, evs, i, b) <==> IsAnswerTo(hs, w, evs[..|evs| - 1], i, b)
  {
    hide Respond, WorldAt, RequestOf, WorldValid, ParseHeader;
    assert evs[..|evs| - 1][..i] == evs[..i];
  }

  lemma AnswerEchoes(hs: Handlers, w: World, evs: seq<ReadEvent>, i: nat)
    requires WorldValid(w) && i < |evs| && AnswerTo(hs, w, evs, i).Some?
    ensures IsAnswerTo(hs, w, evs, i, AnswerTo(hs, w, evs, i).value)
  {
    hide Respond, ParseHeader, WorldAt, RequestOf, WorldValid;
    RespondEchoes(hs, WorldAt(hs, w, evs[..i]), RequestOf(evs[i]), evs[i].env);
  }
}
