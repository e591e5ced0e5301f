/**
The daemon and its services together: a value stored through one packet is what a later packet
reads, whatever else the host sends to any service in between.
*/
module WholeSystem {
  import opened Bytes
  import opened Packet
  import opened EvFormat
  import opened EvStore
  import opened EvRuns
  import opened Smif
  import opened SmifRuns
  import opened Smbios
  import opened Rom
  import opened Daemon
  import opened PlatDef

  // The packet is handled by the SMIF service.
  predicate ToSmif(hs: Handlers, req: seq<byte>) {
    |req| >= HEADER_LEN && req[6] in hs && hs[req[6]].SmifKind?
  }

  // No read of the script asks the SMIF service to set n, delete n or delete everything.
  predicate LeavesAlone(hs: Handlers, evs: seq<ReadEvent>, n: Name) {
    forall i :: 0 <= i < |evs| ==> ToSmif(hs, RequestOf(evs[i])) ==> !Touches(RequestOf(evs[i]), n)
  }

  // Splitting a script: the world after both halves is the world after the second, begun in the
  // world after the first.
  lemma {:induction false} WorldAtAppend(hs: Handlers, w: World, a: seq<ReadEvent>, b: seq<ReadEvent>)
    requires WorldValid(w)
    ensures WorldAt(hs, w, a + b) == WorldAt(hs, WorldAt(hs, w, a), b)
    decreases |b|
  {
    hide After, RequestOf, WorldValid;
    if b == [] {
      assert a + b == a;
    } else {
      assert (a + b)[..|a + b| - 1] == a + b[..|b| - 1];
      WorldAtAppend(hs, w, a, b[..|b| - 1]);
    }
  }

  lemma OneReadKeeps(hs: Handlers, w: World, req: seq<byte>, env: Env, n: Name)
    requires WorldValid(w) && w.store.Some? && Storable(w.store.value.entries)
    requires ToSmif(hs, req) ==> !Touches(req, n)
    ensures var w' := After(hs, w, req, env);
            && w'.store.Some? && Storable(w'.store.value.entries)
            && Lookup(w'.store.value.entries, n) == Lookup(w.store.value.entries, n)
  {
    hide Storable, Lookup, Touches, SmifNext, RomNext, WorldValid, InSync, ParseHeader;
    if |req| >= 8 { RequestFields(req); }
    if ToSmif(hs, req) {
      RequestKeeps(w.store.value, req, env.smif.save, MAX_PACKET_SIZE);
      UntouchedLookup(w.store.value, req, env.smif.save, MAX_PACKET_SIZE, n);
    }
  }

  lemma {:induction false} ScriptKeeps(hs: Handlers, w: World, evs: seq<ReadEvent>, n: Name)
    requires WorldValid(w) && w.store.Some? && Storable(w.store.value.entries)
    requires LeavesAlone(hs, evs, n)
    ensures var w' := WorldAt(hs, w, evs);
            && w'.store.Some? && Storable(w'.store.value.entries)
            && Lookup(w'.store.value.entries, n) == Lookup(w.store.value.entries, n)
    decreases |evs|
  {
    hide After, RequestOf, WorldValid, Storable, Lookup, ToSmif, Touches;
    if evs != [] {
      var last, front := evs[|evs| - 1], evs[..|evs| - 1];
      ScriptKeeps(hs, w, front, n);
      if last.Packet? {
        OneReadKeeps(hs, WorldAt(hs, w, front), RequestOf(last), last.env, n);
      }
    }
  }

  lemma {:induction false} ScriptStorable(hs: Handlers, w: World, evs: seq<ReadEvent>)
    requires WorldValid(w) && w.store.Some? && Storable(w.store.value.entries)
    ensures WorldAt(hs, w, evs).store.Some? && Storable(WorldAt(hs, w, evs).store.value.entries)
    decreases |evs|
  {
    hide RequestOf, WorldValid, Storable, SmifNext, RomNext, InSync, ParseHeader;
    if evs != [] {
      var last, front := evs[|evs| - 1], evs[..|evs| - 1];
      ScriptStorable(hs, w, front);
      if last.Packet? {
        var w0 := WorldAt(hs, w, front);
        RequestKeeps(w0.store.value, RequestOf(last), last.env.smif.save, MAX_PACKET_SIZE);
      }
    }
  }

  // A packet read whole that the SMIF service handles.
  predicate SmifPacket(hs: Handlers, e: ReadEvent, req: seq<byte>) {
    e.Packet? && e.bytes == req && |req| <= MAX_PACKET_SIZE && ToSmif(hs, req)
  }

  // In this script, `put` is an acknowledged Set packet for n and d, nothing after it touches n,
  // and `get` at the end is a GetEvByName packet for n.
  predicate StoreAndFetch(hs: Handlers, w: World, before: seq<ReadEvent>, put: ReadEvent,
                          between: seq<ReadEvent>, get: ReadEvent, n: Name, d: seq<byte>)
    requires WorldValid(w)
  {
    && put.Packet? && SmifPacket(hs, put, put.bytes) && IsSetRequest(put.bytes, n, d)
    && (var answer := AnswerTo(hs, w, before + [put], |before|);
        answer.Some? && |answer.value| >= 12 && DecodeAnswer(answer.value) == EvError(EV_SUCCESS))
    && LeavesAlone(hs, between, n)
    && get.Packet? && SmifPacket(hs, get, get.bytes) && IsGetRequest(get.bytes, n)
  }

  /**
  End to end through the daemon. Take any script of reads in which a Set packet for name n and data
  d is answered with success, other packets and read errors follow, none of which touches n, and a
  GetEvByName packet for n comes at the end. Then the last packet the daemon offers to the channel
  decodes to exactly n, |d| and d, whatever the saves and the other services did.
  */
  lemma DaemonEndToEnd(hs: Handlers, w: World, before: seq<ReadEvent>, put: ReadEvent,
                       between: seq<ReadEvent>, get: ReadEvent, n: Name, d: seq<byte>)
    requires WorldValid(w) && w.store.Some? && Storable(w.store.value.entries) && d != []
    ensures StoreAndFetch(hs, w, before, put, between, get, n, d) ==>
      var sent := Trace(hs, w, before + [put] + between + [get]);
      && sent != [] && |sent[|sent| - 1]| == 46 + |d|
      && DecodeAnswer(sent[|sent| - 1]) == EvFound(n, |d|, d)
  {
    hide WorldValid, DecodeAnswer, Storable, LeavesAlone, IsSetRequest, IsGetRequest, SmifReply, SmifNext, InLimits,
         ParseHeader, After, WorldAt, Trace, Lookup, ToSmif, Respond, AnswerTo, InSync;
    if StoreAndFetch(hs, w, before, put, between, get, n, d) {
      var w0, w1 := WorldAt(hs, w, before), WorldAt(hs, w, before + [put]);
      assert RequestOf(put) == put.bytes && RequestOf(get) == get.bytes;
      ScriptStorable(hs, w, before);
      assert InLimits(w0.store.value.entries) by { StorableIs(w0.store.value.entries); }
      OneTurn(hs, w, before, put);
      SmifAfter(hs, w0, put.bytes, put.env);
      SmifAnswer(hs, w0, put.bytes, put.env);
      AcknowledgedSet(w0.store.value, w0.bus, put.bytes, put.env.smif, n, d);
      ScriptKeeps(hs, w1, between, n);
      var script := before + [put] + between;
      WorldAtAppend(hs, w, before + [put], between);
      var w2 := WorldAt(hs, w, script);
      OneTurn(hs, w, script, get);
      SmifAnswer(hs, w2, get.bytes, get.env);
      LookupDelivered(w2.store.value, w2.bus, get.bytes, get.env.smif, n, d);
    }
  }

  // What the last read of a script does to the world and to the trace.
  lemma OneTurn(hs: Handlers, w: World, evs: seq<ReadEvent>, e: ReadEvent)
    requires WorldValid(w) && e.Packet?
    ensures WorldAt(hs, w, evs + [e]) == After(hs, WorldAt(hs, w, evs), RequestOf(e), e.env)
    ensures AnswerTo(hs, w, evs + [e], |evs|) == Respond(hs, WorldAt(hs, w, evs), RequestOf(e), e.env)
    ensures var reply := AnswerTo(hs, w, evs + [e], |evs|);
            reply.Some? && |reply.value| >= HEADER_LEN ==>
              Trace(hs, w, evs + [e]) == Trace(hs, w, evs) + [reply.value]
  {
    hide After, Respond, RequestOf, WorldValid;
    assert (evs + [e])[..|evs|] == evs;
  }

  lemma SmifAfter(hs: Handlers, w: World, req: seq<byte>, env: Env)
    requires WorldValid(w) && w.store.Some? && ToSmif(hs, req)
    ensures After(hs, w, req, env).store == Some(SmifNext(w.store.value, req, env.smif.save, MAX_PACKET_SIZE))
  {
    hide SmifNext, RomNext, ParseHeader, WorldValid;
    RequestFields(req);
  }

  lemma SmifAnswer(hs: Handlers, w: World, req: seq<byte>, env: Env)
    requires WorldValid(w) && ToSmif(hs, req)
    ensures Respond(hs, w, req, env) == SmifReply(w.store, w.bus, req, env.smif, MAX_PACKET_SIZE)
  {
    hide SmifReply, RomReply, ParseHeader, InLimits;
    RequestFields(req);
  }

  // ----- Each service sees its own traffic -----

  // The packet is handled by the ROM service.
  predicate ToRom(hs: Handlers, req: seq<byte>) {
    |req| >= HEADER_LEN && req[6] in hs && hs[req[6]].RomKind?
  }

  // The part of a script that the ROM service handles.
  function RomTraffic(hs: Handlers, evs: seq<ReadEvent>): seq<RomEvent> {
    if evs == [] then []
    else
      var last := evs[|evs| - 1];
      RomTraffic(hs, evs[..|evs| - 1])
      + if last.Packet? && ToRom(hs, RequestOf(last)) then [RomEvent(RequestOf(last), last.env.rom)] else []
  }

  // The part of a script that the SMIF service handles.
  function SmifTraffic(hs: Handlers, evs: seq<ReadEvent>): seq<ServiceEvent> {
    if evs == [] then []
    else
      var last := evs[|evs| - 1];
      SmifTraffic(hs, evs[..|evs| - 1])
      + if last.Packet? && ToSmif(hs, RequestOf(last)) then [SmifRuns.Request(RequestOf(last), last.env.smif)] else []
  }

  /**
  Separation. After any script of reads, the ROM service is where its own packets alone would have
  brought it, and so is the EV store; read errors and packets for other services leave no trace.
  */
  lemma {:induction false} Separation(hs: Handlers, w: World, evs: seq<ReadEvent>)
    requires WorldValid(w)
    ensures var w' := WorldAt(hs, w, evs);
            && w'.rom == RomRun(w.rom, RomTraffic(hs, evs))
            && w'.store == (if w.store.None? then None else Some(Serve(w.store.value, SmifTraffic(hs, evs))))
            && w'.bus == w.bus
    decreases |evs|
  {
    hide ServeOne, RomNext, After, RequestOf, WorldValid, ToRom, ToSmif, RomRun;
    SeparationStart(hs, w);
    if evs != [] {
      var last, front := evs[|evs| - 1], evs[..|evs| - 1];
      Separation(hs, w, front);
      if last.Packet? {
        OneSeparates(hs, WorldAt(hs, w, front), RequestOf(last), last.env);
      }
      RomSeparates(hs, w.rom, evs);
      if w.store.Some? { SmifSeparates(hs, w.store.value, evs); }
    }
  }

  lemma SeparationStart(hs: Handlers, w: World)
    requires WorldValid(w)
    ensures RomRun(w.rom, RomTraffic(hs, [])) == w.rom
    ensures w.store.Some? ==> Serve(w.store.value, SmifTraffic(hs, [])) == w.store.value
  {
  }

  // What the last read adds to each service's traffic.
  lemma RomSeparates(hs: Handlers, s: WriterState, evs: seq<ReadEvent>)
    requires evs != [] && |s.records| <= MAX_SMBIOS_DATA_SIZE
    ensures var last, before := evs[|evs| - 1], RomRun(s, RomTraffic(hs, evs[..|evs| - 1]));
            RomRun(s, RomTraffic(hs, evs))
            == if last.Packet? && ToRom(hs, RequestOf(last)) then RomNext(before, RequestOf(last), last.env.rom)
               else before
  {
    hide RomNext, RequestOf, ToRom;
    var last, front, all := evs[|evs| - 1], RomTraffic(hs, evs[..|evs| - 1]), RomTraffic(hs, evs);
    if last.Packet? && ToRom(hs, RequestOf(last)) {
      assert all[..|all| - 1] == front;
    } else {
      assert all == front;
    }
  }

  lemma SmifSeparates(hs: Handlers, s: Store, evs: seq<ReadEvent>)
    requires evs != []
    ensures var last, before := evs[|evs| - 1], Serve(s, SmifTraffic(hs, evs[..|evs| - 1]));
            Serve(s, SmifTraffic(hs, evs))
            == if last.Packet? && ToSmif(hs, RequestOf(last))
               then ServeOne(before, SmifRuns.Request(RequestOf(last), last.env.smif)) else before
  {
    hide ServeOne, RequestOf, ToSmif, Serve;
    var last, front, all := evs[|evs| - 1], SmifTraffic(hs, evs[..|evs| - 1]), SmifTraffic(hs, evs);
    if last.Packet? && ToSmif(hs, RequestOf(last)) {
      assert all[..|all| - 1] == front;
      ServeSnoc(s, all);
    } else {
      assert all == front;
    }
  }

  lemma OneSeparates(hs: Handlers, w: World, req: seq<byte>, env: Env)
    requires WorldValid(w)
    ensures var w' := After(hs, w, req, env);
            && w'.rom == (if ToRom(hs, req) then RomNext(w.rom, req, env.rom) else w.rom)
            && (w.store.Some? ==>
                  w'.store == Some(if ToSmif(hs, req) then ServeOne(w.store.value, SmifRuns.Request(req, env.smif))
                                   else w.store.value))
            && (w.store.None? ==> w'.store.None?) && w'.bus == w.bus
  {
    hide SmifNext, RomNext, ParseHeader, InLimits;
    if |req| >= 8 { RequestFields(req); }
  }

  /**
  The ROM session with everything else going on: at an End packet whose file is renamed into place,
  the file is whole, with exactly the records that the ROM packets of the script brought since the
  last Begin, if and only if nothing was lost at close. Any other packet leaves the file alone.
  */
  lemma DaemonRomSession(hs: Handlers, w: World, evs: seq<ReadEvent>, e: ReadEvent)
    requires WorldValid(w) && w.rom.records == [] && e.Packet?
    ensures var before, after := WorldAt(hs, w, evs).rom, WorldAt(hs, w, evs + [e]).rom;
            var recs, o := Flatten(SessionRecords(RomTraffic(hs, evs))), e.env.rom.outcome;
            if ToRom(hs, RequestOf(e)) && IsCommand(RomEvent(RequestOf(e), e.env.rom), CMD_END)
               && Renamed(o) && recs != [] then
              && after.file.Some?
              && (WholeFile(after.file.value, (w.rom.version + Finalizes(RomTraffic(hs, evs)) + 1) % 0x100,
                            e.env.rom.epoch, recs)
                  <==> !LosesBytes(o, 34 + |recs|))
            else after.file == before.file
  {
    hide RomRun, RomNext, After, RequestOf, WorldValid, WorldAt, ToRom, Flatten, SessionRecords, RomTraffic, WholeFile,
         IsCommand, SmbiosFile;
    Separation(hs, w, evs);
    OneTurn(hs, w, evs, e);
    OneSeparates(hs, WorldAt(hs, w, evs), RequestOf(e), e.env);
    RomSession(w.rom, RomTraffic(hs, evs), RomEvent(RequestOf(e), e.env.rom));
  }

  /** The store's invariant holds after any script that started with a store that had it. */
  lemma DaemonKeepsInvariant(hs: Handlers, w: World, evs: seq<ReadEvent>)
    requires WorldValid(w) && w.store.Some? && ServiceInv(w.store.value)
    ensures var w' := WorldAt(hs, w, evs);
            w'.store.Some? && ServiceInv(w'.store.value) && |w'.store.value.entries| <= 1927
  {
    hide WorldValid, WorldAt, ServiceInv, Serve, RomRun, RomTraffic, SmifTraffic;
    Separation(hs, w, evs);
    ServiceKeepsInvariant(w.store.value, SmifTraffic(hs, evs));
  }

  // ----- The program -----

  // The three services that main registers.
  const MAIN_HANDLERS: Handlers :=
    map[ROM_SERVICE_ID := RomKind, SMIF_SERVICE_ID := SmifKind, HEALTH_SERVICE_ID := HealthKind]

  /** With main's handlers, byte 6 of a packet picks the service: 0x00 SMIF, 0x02 ROM, 0x10 health. */
  lemma MainServices(w: World, req: seq<byte>, env: Env)
    requires WorldValid(w)
    ensures ToSmif(MAIN_HANDLERS, req) <==> |req| >= 8 && req[6] == 0x00
    ensures ToRom(MAIN_HANDLERS, req) <==> |req| >= 8 && req[6] == 0x02
    ensures Respond(MAIN_HANDLERS, w, req, env)
            == if |req| < 8 then None
               else if req[6] == 0x00 then SmifReply(w.store, w.bus, req, env.smif, 4096)
               else if req[6] == 0x02 then RomReply(req, 4096)
               else if req[6] == 0x10 then HealthReply(req, 4096)
               else None
  {
    hide ParseHeader, SmifReply, RomReply, HealthReply, InLimits;
    if |req| >= 8 { RequestFields(req); }
  }

  /** With main's handlers, a read is answered exactly when it is a packet of a service that knows it. */
  lemma MainAnswers(w: World, evs: seq<ReadEvent>, i: nat)
    requires WorldValid(w) && i < |evs|
    ensures var req := RequestOf(evs[i]);
            AnswerTo(MAIN_HANDLERS, w, evs, i).Some? <==>
            && |req| >= 8
            && (|| req[6] == 0x00 || req[6] == 0x10
                || (req[6] == 0x02 && U16At(req, 4) in {3, 4, 5, 6, 7, 12}))
  {
    hide ParseHeader, AnswerTo, RequestOf, WorldValid, U16At;
    if |RequestOf(evs[i])| >= 8 { RequestFields(RequestOf(evs[i])); }
    AnsweredExactly(MAIN_HANDLERS, w, evs, i);
  }

  // The bus map main builds: exactly the segments of the blob behind a known mux channel.
  ghost predicate BusMapOf(bus: map<byte, int>, blob: seq<byte>, topology: map<u16, int>) {
    var segments := LastWins(map[], AllSegments(blob));
    forall id, t :: (id in bus && bus[id] == t) <==> OnBus(segments, topology, id, t)
  }

  // What main sets up before the first read.
  method StartService(disk: Disk, canOpen: bool, blob: seq<byte>, topology: map<u16, int>, smbios: Option<seq<byte>>)
    returns (daemon: ChifDaemon)
    ensures fresh(daemon) && fresh(daemon.recvBuf) && fresh(daemon.respBuf)
    ensures fresh(daemon.rom.writer) && fresh(daemon.rom.mdrBridge) && fresh(daemon.smif.evStorage)
    ensures daemon.Valid() && daemon.handlers == MAIN_HANDLERS && daemon.offered == []
    ensures daemon.WorldNow().store == Some(Store(LoadDisk(disk, canOpen).entries, disk))
    ensures daemon.WorldNow().rom == WriterState([], 0, smbios)
    ensures BusMapOf(daemon.WorldNow().bus, blob, topology)
  {
    hide LoadDisk, InLimits, Clean, BusMapOf, WorldValid;
    var writer := new SmbiosWriter(smbios);
    var mdrBridge := new MdrBridge();
    var evStorage := new EvStorage(disk);
    var _ := evStorage.Load(canOpen);
    var bus := LoadBusMap(blob, topology);
    var rom := new RomService(writer, mdrBridge);
    var smif := new SmifService(evStorage, bus);
    daemon := new ChifDaemon(smif, rom);
    daemon.RegisterHandler(RomKind);
    daemon.RegisterHandler(SmifKind);
    daemon.RegisterHandler(HealthKind);
  }

  method LoadBusMap(blob: seq<byte>, topology: map<u16, int>) returns (bus: map<byte, int>)
    ensures BusMapOf(bus, blob, topology)
  {
    hide LastWins, AllSegments, OnBus;
    var segments := ParseI2cSegments(blob);
    bus := BuildSegmentBusMap(segments, topology);
  }

  /**
  main: load the store, build the bus map, register the services, and run until the script ends. A
  store that does not load starts out empty.
  */
  method RunService(disk: Disk, canOpen: bool, blob: seq<byte>, topology: map<u16, int>, smbios: Option<seq<byte>>,
                    script: seq<ReadEvent>)
    returns (offered: seq<seq<byte>>, w: World, w': World)
    ensures w.store == Some(Store(LoadDisk(disk, canOpen).entries, disk)) && w.rom == WriterState([], 0, smbios)
    ensures BusMapOf(w.bus, blob, topology)
    ensures WorldValid(w) && offered == Trace(MAIN_HANDLERS, w, script) && w' == WorldAt(MAIN_HANDLERS, w, script)
    ensures ServiceDisk(disk) ==> w'.store.Some? && ServiceInv(w'.store.value)
  {
    hide Trace, WorldAt, LoadDisk, BusMapOf, InLimits, ServiceDisk, ServiceInv, MAIN_HANDLERS;
    var daemon := StartService(disk, canOpen, blob, topology, smbios);
    w := daemon.WorldNow();
    daemon.Run(script);
    offered, w' := daemon.offered, daemon.WorldNow();
    if ServiceDisk(disk) {
      LoadedInv(disk, canOpen);
      DaemonKeepsInvariant(MAIN_HANDLERS, w, script);
    }
  }

  lemma LoadedInv(disk: Disk, canOpen: bool)
    requires ServiceDisk(disk)
    ensures ServiceInv(Store(LoadDisk(disk, canOpen).entries, disk))
  {
    LoadedStore(disk, canOpen);
  }
}
