/**
What the host can rely on when it talks to `SmifService` in bytes: every answer is a well-formed
packet, an acknowledged value is what later requests read, and enumeration lists the store.
*/
module SmifRuns {
  import opened Bytes
  import opened Packet
  import opened EvFormat
  import opened EvStore
  import opened EvRuns
  import opened Smif

  // ----- Dispatch -----

  lemma FramedReply(h: ChifPktHeader, size: u16, body: seq<byte>)
    ensures var b := EncodeHeader(ResponseHeader(h, size)) + body;
            ParseHeader(b) == ResponseHeader(h, size) && |b| == 8 + |body|
  {
    HeaderRoundTrip(ResponseHeader(h, size), body);
  }

  // A packet that fits, announces its own length and answers the request with header h.
  predicate Framed(h: ChifPktHeader, b: seq<byte>, cap: nat) {
    12 <= |b| <= Min(cap, MAX_PACKET_SIZE) && ParseHeader(b) == ResponseHeader(h, |b|)
  }

  lemma FoundReplyFramed(h: ChifPktHeader, e: EvEntry, cap: nat)
    requires EntryInLimits(e) && cap >= 12
    ensures Framed(h, FoundReply(h, e, cap), cap)
    ensures cap >= 4012 ==> FoundReply(h, e, cap) == EvDataReply(h, e)
  {
    SimpleReplyFramed(h, 3);
    var rest := Le32(EV_SUCCESS) + (e.name + Zeros(MAX_EV_NAME_LEN - |e.name|)) + Le16(EvDataSize(e))
                + (if e.data == [] then Zeros(4) else e.data);
    assert EvDataReply(h, e) == EncodeHeader(ResponseHeader(h, 46 + EvDataSize(e))) + rest;
    FramedReply(h, 46 + EvDataSize(e), rest);
  }

  lemma LookupRepliesFramed(h: ChifPktHeader, sto: Option<Store>, p: seq<byte>, cap: nat)
    requires sto.Some? ==> InLimits(sto.value.entries)
    requires cap >= 12
    ensures Framed(h, GetByIndexReply(h, sto, p, cap), cap)
    ensures Framed(h, GetByNameReply(h, sto, p, cap), cap)
  {
    hide SimpleReply, FoundReply, CStr, U32At, ParseHeader, ResponseHeader, SerializedSize;
    SimpleReplyFramed(h, EV_DEVICE_ERROR);
    SimpleReplyFramed(h, EV_NO_SUCH_EV);
    SimpleReplyFramed(h, EV_NAME_TOO_LONG);
    if sto.Some? {
      var es := sto.value.entries;
      forall i | 0 <= i < |es| ensures EntryInLimits(es[i]) && Framed(h, FoundReply(h, es[i], cap), cap) {
        FoundReplyFramed(h, es[i], cap);
      }
    }
  }

  lemma SimpleReplyFramed(h: ChifPktHeader, err: nat)
    ensures var b := SimpleReply(h, err);
            |b| == 12 && ParseHeader(b) == ResponseHeader(h, 12)
            && (0 < err < 0x1_0000_0000 ==> DecodeAnswer(b) == EvError(err))
            && U32At(b, 8) == err % 0x1_0000_0000
  {
    FramedReply(h, 12, Le32(err));
    Le32At(EncodeHeader(ResponseHeader(h, 12)), err, []);
    assert SimpleReply(h, err) + [] == SimpleReply(h, err);
  }

  lemma FixedRepliesFramed(h: ChifPktHeader, sto: Option<Store>, res: I2cResult)
    requires |res.data| <= 32
    ensures |EvStatsReply(h, sto)| == 20 && ParseHeader(EvStatsReply(h, sto)) == ResponseHeader(h, 20)
    ensures |EvStateReply(h)| == 16 && ParseHeader(EvStateReply(h)) == ResponseHeader(h, 16)
    ensures |AuthStatusReply(h)| == 132 && ParseHeader(AuthStatusReply(h)) == ResponseHeader(h, 132)
    ensures |PlatDefReply(h)| == 4032 && ParseHeader(PlatDefReply(h)) == ResponseHeader(h, 4032)
    ensures |I2cReply(h, res)| == 57 && ParseHeader(I2cReply(h, res)) == ResponseHeader(h, 57)
  {
    hide EncodeHeader, ParseHeader, ResponseHeader, Le32, Le16, Zeros, EntriesSize;
    FramedTail(h, 20, EvStatsReply(h, sto));
    FramedTail(h, 16, EvStateReply(h));
    FramedTail(h, 132, AuthStatusReply(h));
    FramedTail(h, 4032, PlatDefReply(h));
    FramedTail(h, 57, I2cReply(h, res));
  }

  lemma FramedTail(h: ChifPktHeader, size: u16, b: seq<byte>)
    requires EncodeHeader(ResponseHeader(h, size)) <= b
    ensures |b| >= 8 && ParseHeader(b) == ResponseHeader(h, size)
  {
    var hdr := EncodeHeader(ResponseHeader(h, size));
    assert b == hdr + b[8..];
    FramedReply(h, size, b[8..]);
  }

  /**
  Dispatch. Whatever the request and the response buffer, an answer fits the buffer, is at least
  12 bytes long, announces its own length, echoes sequence, service and version, and carries the
  command with the response bit. A 4096-byte buffer always gets an answer.
  */
  lemma DispatchWellFormed(sto: Option<Store>, bus: map<byte, int>, req: seq<byte>, env: SmifEnv, cap: nat)
    requires sto.Some? ==> InLimits(sto.value.entries)
    requires |req| >= HEADER_LEN
    ensures var reply := SmifReply(sto, bus, req, env, cap);
            var h := ParseHeader(req);
            && (reply.Some? ==>
                  && 12 <= |reply.value| <= Min(cap, MAX_PACKET_SIZE)
                  && ParseHeader(reply.value)
                     == ChifPktHeader(|reply.value|, h.sequence, SetResponseBit(h.command), h.serviceId, h.version))
            && (reply.None? ==> cap < 132)
  {
    hide ParseHeader, SimpleReply, EvStatsReply, EvStateReply, AuthStatusReply, PlatDefReply, I2cReply,
         SetDelete, I2cTransfer, GetByIndexReply, GetByNameReply, InLimits, DecodeAnswer, U32At,
         SerializedSize, Payload;
    if cap >= 12 {
      var h, p := ParseHeader(req), Payload(req);
      LookupRepliesFramed(h, sto, p, cap);
      FixedRepliesFramed(h, sto, I2cTransfer(bus, p, env.i2c));
      var err := if sto.Some? then SetDelete(sto.value, p, env.save).1 else EV_NO_SUCH_EV;
      SimpleReplyFramed(h, err);
      SimpleReplyFramed(h, 1);
      SimpleReplyFramed(h, EV_SUCCESS);
    }
  }

  /** With a full-size buffer the too-small fallback of buildEvDataResponse is never taken. */
  lemma FallbackUnreachable(h: ChifPktHeader, es: seq<EvEntry>, i: nat, cap: nat)
    requires InLimits(es) && i < |es|
    ensures FoundReply(h, es[i], MAX_PACKET_SIZE) == EvDataReply(h, es[i])
    ensures 12 <= cap < 46 + EvDataSize(es[i]) ==> FoundReply(h, es[i], cap) == SimpleReply(h, EV_NAME_TOO_LONG)
  {
    FoundReplyFramed(h, es[i], MAX_PACKET_SIZE);
  }

  // ----- What the host reads in an answer -----

  datatype EvAnswer = EvError(code: nat) | EvFound(name: seq<byte>, dataLen: nat, data: seq<byte>)

  function DecodeAnswer(pkt: seq<byte>): EvAnswer
    requires |pkt| >= 12
  {
    var err := U32At(pkt, 8);
    if err != 0 || |pkt| < 46 then EvError(err)
    else EvFound(CStr(pkt[12..44]), U16At(pkt, 44), pkt[46..])
  }

  // What the protocol shows of an entry.
  function Shown(e: EvEntry): EvAnswer {
    EvFound(e.name, EvDataSize(e), if e.data == [] then Zeros(4) else e.data)
  }

  lemma EvDataDecodes(h: ChifPktHeader, e: EvEntry)
    requires EntryInLimits(e) && 0 !in e.name
    ensures |EvDataReply(h, e)| >= 46 && DecodeAnswer(EvDataReply(h, e)) == Shown(e)
  {
    var hdr, data := EncodeHeader(ResponseHeader(h, 46 + EvDataSize(e))), if e.data == [] then Zeros(4) else e.data;
    var pad := Zeros(MAX_EV_NAME_LEN - |e.name|);
    assert EvDataReply(h, e) == hdr + Le32(0) + (e.name + pad) + Le16(EvDataSize(e)) + data;
    hide EvDataReply, EncodeHeader;
    FieldsDecode(hdr, e.name, pad, EvDataSize(e), data);
  }

  lemma FieldsDecode(hdr: seq<byte>, name: seq<byte>, pad: seq<byte>, n: u16, data: seq<byte>)
    requires |hdr| == 8 && |name| + |pad| == 32 && pad != [] && pad[0] == 0 && 0 !in name
    ensures DecodeAnswer(hdr + Le32(0) + (name + pad) + Le16(n) + data) == EvFound(name, n, data)
  {
    var b := hdr + Le32(0) + (name + pad) + Le16(n) + data;
    assert U32At(b, 8) == 0 by {
      Le32At(hdr, 0, (name + pad) + Le16(n) + data);
      assert b == hdr + Le32(0) + ((name + pad) + Le16(n) + data);
    }
    assert U16At(b, 44) == n by {
      Le16At(hdr + Le32(0) + (name + pad), n, data);
    }
    hide U16At, U32At, Le16, Le32;
    assert b[12..44] == name + pad;
    assert CStr(b[12..44]) == name by {
      CStrOfPadded(name, pad);
    }
    assert b[46..] == data;
  }

  // ----- Looking up one name while others change -----

  lemma PutLookup(es: seq<EvEntry>, m: Name, d: seq<byte>, n: Name)
    ensures Lookup(Put(es, m, d), n) == if n == m then Some(d) else Lookup(es, n)
  {
    hide Find;
    var at, es' := Find(es, m), Put(es, m, d);
    var old', new' := Find(es, n), Find(es', n);
    if at.Some? {
      assert forall i :: 0 <= i < |es| ==> es'[i].name == es[i].name;
    } else {
      assert forall i :: 0 <= i < |es| ==> es'[i] == es[i];
      assert es'[|es|].name == m;
    }
    if n == m {
      assert es'[if at.Some? then at.value else |es|] == EvEntry(m, d);
    }
  }

  lemma RemoveLookup(es: seq<EvEntry>, m: Name, n: Name)
    requires n != m
    ensures Lookup(Remove(es, m), n) == Lookup(es, n)
  {
    hide Find;
    var at, es' := Find(es, m), Remove(es, m);
    if at.Some? {
      var i := at.value;
      assert forall j :: 0 <= j < |es'| ==> es'[j] == es[if j < i then j else j + 1];
      var found := Find(es, n);
      if found.Some? {
        var k := if found.value < i then found.value else found.value - 1;
        assert es'[k] == es[found.value];
      }
    }
  }

  // ----- Requests, by what their bytes say -----

  predicate IsSetRequest(req: seq<byte>, n: Name, d: seq<byte>) {
    && |req| >= 46 + |d|
    && U16At(req, 4) == CMD_SET_DELETE_EV && req[8] % 8 == 1
    && CStr(req[12..43]) == n
    && U16At(req, 44) == |d| && req[46..46 + |d|] == d
  }

  predicate IsGetRequest(req: seq<byte>, n: Name) {
    && |req| >= 40
    && U16At(req, 4) == CMD_GET_EV_BY_NAME
    && req[39] == 0 && CStr(req[8..39]) == n
  }

  // The request asks to set n, to delete n, or to delete everything.
  predicate Touches(req: seq<byte>, n: Name) {
    && |req| >= 12
    && U16At(req, 4) == CMD_SET_DELETE_EV
    && (|| req[8] % 8 >= 4
        || (req[8] % 8 in {2, 3} && |req| >= 44 && CStr(req[12..44]) == n)
        || (req[8] % 8 == 1 && |req| >= 46 && CStr(req[12..43]) == n))
  }

  // What the handler sees of a request, in terms of its bytes.
  lemma RequestFields(req: seq<byte>)
    requires |req| >= HEADER_LEN
    ensures ParseHeader(req).command == U16At(req, 4) && ParseHeader(req).serviceId == req[6]
    ensures |req| > 8 ==> |Payload(req)| > 0 && Payload(req)[0] == req[8] && Payload(req) == req[8..]
    ensures |req| > 8 ==> (FlagDeleteAll(req[8]) <==> req[8] % 8 >= 4)
    ensures |req| > 8 ==> (!FlagDeleteAll(req[8]) && FlagDelete(req[8]) <==> req[8] % 8 in {2, 3})
    ensures |req| > 8 ==>
      (!FlagDeleteAll(req[8]) && !FlagDelete(req[8]) && FlagSet(req[8]) <==> req[8] % 8 == 1)
  {
    hide U16At;
  }

  // The request a host would send.
  function SetRequest(h: ChifPktHeader, n: Name, d: seq<byte>): seq<byte>
    requires |n| < MAX_EV_NAME_LEN && |d| <= MAX_EV_DATA_SIZE
  {
    EncodeHeader(h.(command := CMD_SET_DELETE_EV))
    + ([1, 0, 0, 0] + (n + Zeros(MAX_EV_NAME_LEN - |n|)) + Le16(|d|) + d)
  }

  lemma SetRequestMeans(h: ChifPktHeader, n: Name, d: seq<byte>)
    requires |n| < MAX_EV_NAME_LEN && |d| <= MAX_EV_DATA_SIZE && 0 !in n
    ensures IsSetRequest(SetRequest(h, n, d), n, d)
  {
    var hdr := EncodeHeader(h.(command := CMD_SET_DELETE_EV));
    var req := SetRequest(h, n, d);
    var flags: seq<byte> := [1, 0, 0, 0];
    HeaderRoundTrip(h.(command := CMD_SET_DELETE_EV), flags + (n + Zeros(32 - |n|)) + Le16(|d|) + d);
    assert req == hdr + flags + (n + Zeros(32 - |n|)) + Le16(|d|) + d;
    hide EncodeHeader, SetRequest, Le16, Zeros, ParseHeader;
    assert req[8] == flags[0];
    assert req[12..43] == n + Zeros(32 - |n|)[..31 - |n|];
    CStrOfPadded(n, Zeros(32 - |n|)[..31 - |n|]);
    Le16At(hdr + flags + (n + Zeros(32 - |n|)), |d|, d);
    assert req[46..46 + |d|] == d;
  }

  // ----- Runs -----

  datatype ServiceEvent = Request(req: seq<byte>, env: SmifEnv) | Restart(canOpen: bool)

  function ServeOne(s: Store, e: ServiceEvent): Store {
    match e
    case Request(req, env) => SmifNext(s, req, env.save, MAX_PACKET_SIZE)
    case Restart(canOpen) => Store(LoadDisk(s.disk, canOpen).entries, s.disk)
  }

  function Serve(s: Store, evs: seq<ServiceEvent>): Store
    decreases |evs|
  {
    if evs == [] then s else Serve(ServeOne(s, evs[0]), evs[1..])
  }

  lemma SetStorable(s: Store, n: Name, d: seq<byte>, o: SaveOutcome)
    requires Storable(s.entries) && 0 !in n
    ensures Storable(AfterSet(s, n, d, o).entries)
    ensures AfterSet(s, n, d, Saved) == s || InSync(AfterSet(s, n, d, Saved))
  {
    if SetAccepted(s.entries, n, d) { PutStorable(s.entries, n, d); }
  }

  lemma DelStorable(s: Store, n: Name, o: SaveOutcome)
    requires Storable(s.entries)
    ensures Storable(AfterDel(s, n, o).entries)
    ensures AfterDel(s, n, Saved) == s || InSync(AfterDel(s, n, Saved))
  {
    RemoveStorable(s.entries, n);
  }

  // The store stays within its limits, and the file stays in step if saves succeed.
  predicate Kept(s: Store, s': Store, o: SaveOutcome) {
    Storable(s'.entries) && (o.Saved? ==> s' == s || InSync(s'))
  }

  lemma DeleteNamedKeeps(s: Store, p: seq<byte>, o: SaveOutcome)
    requires Storable(s.entries)
    ensures Kept(s, DeleteNamed(s, p, o).0, o)
  {
    hide AfterDel, Storable, CStr, InSync, Find;
    if |p| >= 36 {
      DelStorable(s, CStr(p[4..36]), o);
    }
  }

  lemma SetNamedKeeps(s: Store, p: seq<byte>, o: SaveOutcome)
    requires Storable(s.entries)
    ensures Kept(s, SetNamed(s, p, o).0, o)
  {
    hide AfterSet, AfterDel, Storable, CStr, U16At, InSync, Find, SetAccepted;
    if |p| >= 38 {
      DelStorable(s, CStr(p[4..35]), o);
      if |p| >= 38 + U16At(p, 36) {
        SetStorable(s, CStr(p[4..35]), p[38..38 + U16At(p, 36)], o);
      }
    }
  }

  lemma RequestKeeps(s: Store, req: seq<byte>, o: SaveOutcome, cap: nat)
    requires Storable(s.entries)
    ensures Kept(s, SmifNext(s, req, o, cap), o)
  {
    hide AfterDeleteAll, DeleteNamed, SetNamed, Storable, InSync, ParseHeader;
    DeleteNamedKeeps(s, Payload(req), o);
    SetNamedKeeps(s, Payload(req), o);
    ClearedStore(s, o);
  }

  lemma ClearedStore(s: Store, o: SaveOutcome)
    ensures Storable(AfterDeleteAll(s, o).entries) && InSync(AfterDeleteAll(s, Saved))
  {
  }

  lemma DeleteNamedLookup(s: Store, p: seq<byte>, o: SaveOutcome, n: Name)
    requires |p| >= 36 ==> CStr(p[4..36]) != n
    ensures Lookup(DeleteNamed(s, p, o).0.entries, n) == Lookup(s.entries, n)
  {
    hide Lookup, Remove, CStr, Find;
    if |p| >= 36 {
      RemoveLookup(s.entries, CStr(p[4..36]), n);
    }
  }

  lemma SetNamedLookup(s: Store, p: seq<byte>, o: SaveOutcome, n: Name)
    requires |p| >= 38 ==> CStr(p[4..35]) != n
    ensures Lookup(SetNamed(s, p, o).0.entries, n) == Lookup(s.entries, n)
  {
    hide Lookup, Put, Remove, CStr, U16At, Find, SetAccepted;
    if |p| >= 38 {
      RemoveLookup(s.entries, CStr(p[4..35]), n);
      if |p| >= 38 + U16At(p, 36) {
        PutLookup(s.entries, CStr(p[4..35]), p[38..38 + U16At(p, 36)], n);
      }
    }
  }

  // A request that does not touch n leaves n's value alone, whatever its save does.
  lemma UntouchedLookup(s: Store, req: seq<byte>, o: SaveOutcome, cap: nat, n: Name)
    requires !Touches(req, n)
    ensures Lookup(SmifNext(s, req, o, cap).entries, n) == Lookup(s.entries, n)
  {
    hide Lookup, DeleteNamed, SetNamed, CStr, ParseHeader;
    var p := Payload(req);
    if |req| >= 12 {
      RequestFields(req);
      if |p| >= 36 { assert p[4..36] == req[12..44]; }
      if |p| >= 38 { assert p[4..35] == req[12..43]; }
      if FlagDelete(p[0]) && !FlagDeleteAll(p[0]) && ParseHeader(req).command == CMD_SET_DELETE_EV {
        DeleteNamedLookup(s, p, o, n);
      }
      if FlagSet(p[0]) && !FlagDelete(p[0]) && !FlagDeleteAll(p[0]) && ParseHeader(req).command == CMD_SET_DELETE_EV {
        SetNamedLookup(s, p, o, n);
      }
    }
  }

  // ----- Requests are store operations -----

  predicate CleanOps(ops: seq<EvOp>) {
    forall i :: 0 <= i < |ops| ==> CleanOp(ops[i])
  }

  lemma RunOne(s: Store, op: EvOp)
    ensures Run(s, [op]) == Step(s, op)
  {
    hide Step;
    assert [op][1..] == [];
  }

  lemma {:induction false} RunAppend(s: Store, a: seq<EvOp>, b: seq<EvOp>)
    ensures Run(s, a + b) == Run(Run(s, a), b)
    decreases |a|
  {
    hide Step;
    if a == [] {
      assert a + b == b;
    } else {
      assert (a + b)[1..] == a[1..] + b;
      RunAppend(Step(s, a[0]), a[1..], b);
    }
  }

  // The store operation a Set/Delete packet asks for, if any.
  function OpOf(p: seq<byte>, o: SaveOutcome): Option<EvOp> {
    if |p| < 4 then None
    else if FlagDeleteAll(p[0]) then Some(OpDeleteAll(o))
    else if FlagDelete(p[0]) then
      if |p| < 36 || p[35] != 0 then None else Some(OpDel(CStr(p[4..36]), o))
    else if FlagSet(p[0]) then
      if |p| < 38 then None
      else
        var len := U16At(p, 36);
        if len > MAX_EV_DATA_SIZE then None
        else if len == 0 then Some(OpDel(CStr(p[4..35]), o))
        else if |p| < 38 + len then None
        else Some(OpSet(CStr(p[4..35]), p[38..38 + len], o))
    else None
  }

  /** Every request acts on the store as at most one operation, on a name without NULs. */
  lemma RequestIsOperation(s: Store, req: seq<byte>, o: SaveOutcome, cap: nat) returns (ops: seq<EvOp>)
    ensures SmifNext(s, req, o, cap) == Run(s, ops)
    ensures CleanOps(ops) && |ops| <= 1
  {
    hide AfterSet, AfterDel, AfterDeleteAll, U16At, ParseHeader, Run;
    var op := OpOf(Payload(req), o);
    if |req| >= HEADER_LEN && cap >= 12 && ParseHeader(req).command == CMD_SET_DELETE_EV && op.Some? {
      ops := [op.value];
      RunOne(s, op.value);
    } else {
      ops := [];
      assert Run(s, []) == s by { RunNone(s); }
    }
  }

  lemma RunNone(s: Store)
    ensures Run(s, []) == s
  {
  }

  lemma {:induction false} ServeIsRun(s: Store, evs: seq<ServiceEvent>) returns (ops: seq<EvOp>)
    ensures Serve(s, evs) == Run(s, ops) && CleanOps(ops)
    decreases |evs|
  {
    hide Run, SmifNext, Step, CleanOp;
    if evs == [] {
      ops := [];
      RunNone(s);
    } else {
      var first: seq<EvOp>;
      match evs[0] {
        case Request(req, env) => first := RequestIsOperation(s, req, env.save, MAX_PACKET_SIZE);
        case Restart(canOpen) =>
          first := [OpRestart(canOpen)];
          RunOne(s, OpRestart(canOpen));
          RestartStep(s, canOpen);
      }
      var rest := ServeIsRun(ServeOne(s, evs[0]), evs[1..]);
      RunAppend(s, first, rest);
      ops := first + rest;
    }
  }

  lemma RestartStep(s: Store, canOpen: bool)
    ensures Step(s, OpRestart(canOpen)) == ServeOne(s, Restart(canOpen)) && CleanOp(OpRestart(canOpen))
  {
  }

  /**
  Whatever packets arrive, with any save outcomes and with restarts anywhere: a store that started
  out empty or service-written keeps unique, NUL-free names and every limit, and so does the file.
  */
  lemma ServiceKeepsInvariant(s: Store, evs: seq<ServiceEvent>)
    requires ServiceInv(s)
    ensures ServiceInv(Serve(s, evs)) && |Serve(s, evs).entries| <= 1927
  {
    hide Serve, Run, CleanOp, ServiceInv;
    var ops := ServeIsRun(s, evs);
    RunInvariant(s, ops);
  }

  // ----- What survives a run -----

  // No packet sets n, deletes n or deletes everything.
  predicate Untouched(evs: seq<ServiceEvent>, n: Name) {
    forall i :: 0 <= i < |evs| && evs[i].Request? ==> !Touches(evs[i].req, n)
  }

  // The packet makes the store save itself.
  predicate Saves(s: Store, req: seq<byte>) {
    && |req| >= HEADER_LEN && ParseHeader(req).command == CMD_SET_DELETE_EV
    && var op := OpOf(Payload(req), Saved);
       op.Some? && (op.value.OpDeleteAll? || Succeeds(s, op.value))
  }

  // The event changes the file.
  predicate Writes(s: Store, e: ServiceEvent) {
    e.Request? && Saves(s, e.req) && ChangesFile(e.env.save)
  }

  // Event j is the last one before r that changes the file.
  predicate LastWrite(s: Store, evs: seq<ServiceEvent>, r: nat, j: nat) {
    && j < r <= |evs| && Writes(Serve(s, evs[..j]), evs[j])
    && forall i :: j < i < r ==> !Writes(Serve(s, evs[..i]), evs[i])
  }

  // Event q is the last restart before r.
  predicate LastRestart(evs: seq<ServiceEvent>, r: nat, q: nat) {
    && q < r <= |evs| && evs[q].Restart?
    && forall i :: q < i < r ==> !evs[i].Restart?
  }

  // Before event r the value of n is in memory: the last restart, if any, opened the file and found
  // n there.
  ghost predicate InMemory(s: Store, evs: seq<ServiceEvent>, r: nat, n: Name)
    decreases r
  {
    forall q :: 0 <= q < r && LastRestart(evs, r, q) ==> evs[q].canOpen && InFile(s, evs, q, n)
  }

  // Before event r the value of n is in the file: the last save that changed the file, if any, was
  // made while n was in memory and kept its bytes.
  ghost predicate InFile(s: Store, evs: seq<ServiceEvent>, r: nat, n: Name)
    decreases r
  {
    forall j :: 0 <= j < r && LastWrite(s, evs, r, j) ==>
      InMemory(s, evs, j, n) && KeepsBytes(Serve(s, evs[..j + 1]).entries, n, evs[j].env.save)
  }

  // The value of n is in memory at the end.
  ghost predicate Survives(s: Store, evs: seq<ServiceEvent>, n: Name) {
    InMemory(s, evs, |evs|, n)
  }

  lemma {:induction false} ServeSnoc(s: Store, evs: seq<ServiceEvent>)
    requires evs != []
    ensures Serve(s, evs) == ServeOne(Serve(s, evs[..|evs| - 1]), evs[|evs| - 1])
    decreases |evs|
  {
    hide ServeOne;
    if |evs| > 1 {
      ServeSnoc(ServeOne(s, evs[0]), evs[1..]);
      assert evs[1..][..|evs| - 2] == evs[..|evs| - 1][1..];
    }
  }

  // The conditions before event r do not depend on what comes after it.
  lemma {:induction false} HeldPrefix(s: Store, evs: seq<ServiceEvent>, r: nat, n: Name)
    requires evs != [] && r < |evs|
    ensures InMemory(s, evs, r, n) <==> InMemory(s, evs[..|evs| - 1], r, n)
    ensures InFile(s, evs, r, n) <==> InFile(s, evs[..|evs| - 1], r, n)
    decreases r
  {
    hide Serve, Writes, KeepsBytes;
    var prior := evs[..|evs| - 1];
    assert forall i :: 0 <= i < |evs| ==> evs[..i] == prior[..i];
    assert forall j :: 0 <= j < r ==> (LastWrite(s, evs, r, j) <==> LastWrite(s, prior, r, j));
    assert forall q :: 0 <= q < r ==> (LastRestart(evs, r, q) <==> LastRestart(prior, r, q));
    forall k | 0 <= k < r
      ensures InMemory(s, evs, k, n) <==> InMemory(s, prior, k, n)
      ensures InFile(s, evs, k, n) <==> InFile(s, prior, k, n)
    {
      HeldPrefix(s, evs, k, n);
    }
  }

  // What the last event does to the value in memory and to the value in the file.
  lemma MemorySnoc(s: Store, evs: seq<ServiceEvent>, n: Name)
    requires evs != []
    ensures var prior, last := evs[..|evs| - 1], evs[|evs| - 1];
            InMemory(s, evs, |evs|, n) <==>
            if last.Restart? then last.canOpen && InFile(s, prior, |prior|, n) else InMemory(s, prior, |prior|, n)
  {
    hide InFile, LastRestart;
    HeldPrefix(s, evs, |evs| - 1, n);
    LastRestartSnoc(evs);
  }

  lemma LastRestartSnoc(evs: seq<ServiceEvent>)
    requires evs != []
    ensures var k := |evs| - 1;
            forall q :: 0 <= q < |evs| ==>
              (LastRestart(evs, |evs|, q) <==> if evs[k].Restart? then q == k else q < k && LastRestart(evs, k, q))
  {
  }

  lemma FileSnoc(s: Store, evs: seq<ServiceEvent>, n: Name)
    requires evs != []
    ensures var prior, last := evs[..|evs| - 1], evs[|evs| - 1];
            InFile(s, evs, |evs|, n) <==>
            if Writes(Serve(s, prior), last)
            then InMemory(s, prior, |prior|, n) && KeepsBytes(Serve(s, evs).entries, n, last.env.save)
            else InFile(s, prior, |prior|, n)
  {
    hide Serve, Writes, KeepsBytes, InMemory, LastWrite;
    var k := |evs| - 1;
    assert evs[..|evs|] == evs;
    HeldPrefix(s, evs, k, n);
    LastWriteSnoc(s, evs);
  }

  lemma LastWriteSnoc(s: Store, evs: seq<ServiceEvent>)
    requires evs != []
    ensures var k := |evs| - 1;
            forall j :: 0 <= j < |evs| ==>
              (LastWrite(s, evs, |evs|, j) <==>
               if Writes(Serve(s, evs[..k]), evs[k]) then j == k else j < k && LastWrite(s, evs, k, j))
  {
    hide Serve, Writes;
  }

  // A request commits its new entries with its save outcome, or leaves the store as it is.
  lemma RequestCommits(s: Store, req: seq<byte>, o: SaveOutcome)
    ensures var s' := SmifNext(s, req, o, MAX_PACKET_SIZE);
            s' == if Saves(s, req) then Commit(s, s'.entries, o) else s
  {
    hide CStr, U16At, ParseHeader, Find, SetAccepted, Put, Remove, Serialize, DiskAfterSave;
  }

  lemma RequestOnDisk(s: Store, req: seq<byte>, env: SmifEnv, n: Name)
    requires Storable(s.entries) && !Touches(req, n)
    ensures var s' := SmifNext(s, req, env.save, MAX_PACKET_SIZE);
            && Storable(s'.entries) && Lookup(s'.entries, n) == Lookup(s.entries, n)
            && OnDisk(s'.disk, n) == if !Writes(s, Request(req, env)) then OnDisk(s.disk, n)
                                     else if KeepsBytes(s'.entries, n, env.save) then Lookup(s.entries, n) else None
  {
    hide SmifNext, Storable, Lookup, Touches, InSync, OnDisk, KeepsBytes, Saves, Serialize;
    RequestKeeps(s, req, env.save, MAX_PACKET_SIZE);
    UntouchedLookup(s, req, env.save, MAX_PACKET_SIZE, n);
    RequestCommits(s, req, env.save);
    if ChangesFile(env.save) {
      DiskLookup(SmifNext(s, req, env.save, MAX_PACKET_SIZE).entries, s.disk, n, env.save);
    }
  }

  lemma RestartOnDisk(s: Store, canOpen: bool, n: Name)
    ensures var s' := ServeOne(s, Restart(canOpen));
            && Storable(s'.entries) && s'.disk == s.disk
            && Lookup(s'.entries, n) == if canOpen then OnDisk(s.disk, n) else None
  {
    if s.disk.File? {
      Canonicalisation(s.disk.bytes);
    }
  }

  /**
  What survives a run. From a store in step with its file, over any packets that do not touch n, with
  any outcome of every save, and restarts anywhere that open the file or fail to: the value of n is
  there if and only if the last restart opened the file and the last save before it that changed the
  file kept the bytes of n and was made while n was there. A further restart that opens the file
  finds it if and only if the last save that changed the file was of that kind.
  */
  lemma {:induction false} ValueSurvives(s: Store, evs: seq<ServiceEvent>, n: Name)
    requires Storable(s.entries) && InSync(s) && Untouched(evs, n)
    ensures var s' := Serve(s, evs);
            && Storable(s'.entries)
            && Lookup(s'.entries, n) == (if Survives(s, evs, n) then Lookup(s.entries, n) else None)
            && OnDisk(s'.disk, n) == (if InFile(s, evs, |evs|, n) then Lookup(s.entries, n) else None)
    decreases |evs|
  {
    hide ServeOne, Storable, Lookup, OnDisk, InMemory, InFile, Touches, KeepsBytes, Saves, ChangesFile;
    if evs == [] {
      NothingHappened(s, n);
    } else {
      var prior, last := evs[..|evs| - 1], evs[|evs| - 1];
      ValueSurvives(s, prior, n);
      ServeSnoc(s, evs);
      MemorySnoc(s, evs, n);
      FileSnoc(s, evs, n);
      EventOnDisk(Serve(s, prior), last, n);
    }
  }

  lemma EventOnDisk(s: Store, e: ServiceEvent, n: Name)
    requires Storable(s.entries) && (e.Request? ==> !Touches(e.req, n))
    ensures var s' := ServeOne(s, e);
            && Storable(s'.entries)
            && Lookup(s'.entries, n) == (if e.Request? then Lookup(s.entries, n)
                                         else if e.canOpen then OnDisk(s.disk, n) else None)
            && OnDisk(s'.disk, n) == if !Writes(s, e) then OnDisk(s.disk, n)
                                     else if KeepsBytes(s'.entries, n, e.env.save) then Lookup(s.entries, n) else None
  {
    hide SmifNext, Storable, Lookup, OnDisk, Touches, KeepsBytes, Saves;
    match e
    case Request(req, env) => RequestOnDisk(s, req, env, n);
    case Restart(canOpen) => RestartOnDisk(s, canOpen, n);
  }

  lemma NothingHappened(s: Store, n: Name)
    requires Storable(s.entries) && InSync(s)
    ensures Serve(s, []) == s && InMemory(s, [], 0, n) && InFile(s, [], 0, n)
    ensures OnDisk(s.disk, n) == Lookup(s.entries, n)
  {
    RoundTrip(s.entries);
  }

  /**
  A restart that fails to open the file empties the store but leaves the file: a value still in the
  file comes back at the next restart that opens it, and no other value does.
  */
  lemma ComesBack(s: Store, evs: seq<ServiceEvent>, n: Name)
    requires Storable(s.entries) && InSync(s) && Untouched(evs, n)
    ensures Lookup(Serve(s, evs + [Restart(false)]).entries, n) == None
    ensures Lookup(Serve(s, evs + [Restart(false)] + [Restart(true)]).entries, n)
            == if InFile(s, evs, |evs|, n) then Lookup(s.entries, n) else None
  {
    hide ServeOne, Storable, Lookup, OnDisk, InFile, InMemory, InSync, Touches;
    ValueSurvives(s, evs, n);
    var closed := evs + [Restart(false)];
    assert closed[..|closed| - 1] == evs;
    ServeSnoc(s, closed);
    RestartOnDisk(Serve(s, evs), false, n);
    var reopened := closed + [Restart(true)];
    assert reopened[..|reopened| - 1] == closed;
    ServeSnoc(s, reopened);
    RestartOnDisk(Serve(s, closed), true, n);
  }

  /** No restart at all, or saves that never cut the file and restarts that open it, lose nothing. */
  lemma IntactFilesSurvive(s: Store, evs: seq<ServiceEvent>, n: Name)
    requires (forall i :: 0 <= i < |evs| ==> evs[i].Request?)
          || (forall i :: 0 <= i < |evs| ==>
                if evs[i].Request? then evs[i].env.save in {Saved, TempFailed, CopyFailed(None)} else evs[i].canOpen)
    ensures Survives(s, evs, n)
  {
    if !(forall i :: 0 <= i < |evs| ==> evs[i].Request?) {
      AllHeld(s, evs, |evs|, n);
    }
  }

  lemma {:induction false} AllHeld(s: Store, evs: seq<ServiceEvent>, r: nat, n: Name)
    requires r <= |evs|
    requires forall i :: 0 <= i < |evs| ==>
      if evs[i].Request? then evs[i].env.save in {Saved, TempFailed, CopyFailed(None)} else evs[i].canOpen
    ensures InMemory(s, evs, r, n) && InFile(s, evs, r, n)
    decreases r
  {
    hide Serve, Saves;
    forall k | 0 <= k < r ensures InMemory(s, evs, k, n) && InFile(s, evs, k, n) {
      AllHeld(s, evs, k, n);
    }
  }

  lemma SetReplied(s: Store, bus: map<byte, int>, req: seq<byte>, env: SmifEnv, n: Name, d: seq<byte>)
    requires InLimits(s.entries) && IsSetRequest(req, n, d) && 0 < |d|
    ensures DecodeAnswer(SmifReply(Some(s), bus, req, env, MAX_PACKET_SIZE).value) == EvError(EV_SUCCESS) ==>
              SetAccepted(s.entries, n, d) && SmifNext(s, req, env.save, MAX_PACKET_SIZE) == AfterSet(s, n, d, Saved)
  {
    hide CStr, SimpleReply, AfterSet, AfterDel, AfterDeleteAll, SetAccepted, InLimits, U16At, ParseHeader,
         FlagSet, FlagDelete, FlagDeleteAll;
    var h, p := ParseHeader(req), Payload(req);
    RequestFields(req);
    assert p[4..35] == req[12..43];
    PayloadField(req, 36);
    var res := SetDelete(s, p, env.save);
    SimpleReplyFramed(h, res.1);
    if |d| <= MAX_EV_DATA_SIZE {
      assert p[38..38 + |d|] == d;
    }
  }

  lemma GetReplied(s: Store, bus: map<byte, int>, req: seq<byte>, env: SmifEnv, n: Name)
    requires InLimits(s.entries) && IsGetRequest(req, n)
    ensures SmifReply(Some(s), bus, req, env, MAX_PACKET_SIZE)
            == match Find(s.entries, n)
               case None => Some(SimpleReply(ParseHeader(req), EV_NO_SUCH_EV))
               case Some(i) => Some(EvDataReply(ParseHeader(req), s.entries[i]))
  {
    var p := Payload(req);
    assert p[..31] == req[8..39];
    if Find(s.entries, n).Some? {
      FallbackUnreachable(ParseHeader(req), s.entries, Find(s.entries, n).value, 0);
    }
  }

  // The packet is answered with success.
  predicate Acknowledged(s: Store, bus: map<byte, int>, req: seq<byte>, env: SmifEnv)
    requires InLimits(s.entries)
  {
    var reply := SmifReply(Some(s), bus, req, env, MAX_PACKET_SIZE);
    reply.Some? && |reply.value| >= 12 && DecodeAnswer(reply.value) == EvError(EV_SUCCESS)
  }

  // The packet is answered with this error code, 0 being success.
  predicate Answers(s: Store, bus: map<byte, int>, req: seq<byte>, env: SmifEnv, code: nat)
    requires InLimits(s.entries)
  {
    var reply := SmifReply(Some(s), bus, req, env, MAX_PACKET_SIZE);
    reply.Some? && |reply.value| == 12 && DecodeAnswer(reply.value) == EvError(code)
  }

  // The packet is answered with a whole EV packet that decodes to exactly n, |d| and d.
  predicate Delivers(s: Store, bus: map<byte, int>, req: seq<byte>, env: SmifEnv, n: Name, d: seq<byte>)
    requires InLimits(s.entries)
  {
    var reply := SmifReply(Some(s), bus, req, env, MAX_PACKET_SIZE);
    reply.Some? && |reply.value| == 46 + |d| && DecodeAnswer(reply.value) == EvFound(n, |d|, d)
  }

  /**
  End to end on bytes. Once a Set packet for name n and data d is answered with success, take any
  packets that neither set nor delete n nor delete everything, with any outcome of their saves, and
  restarts anywhere that open the file or fail to. If the last restart opened the file, and the last
  save before it that changed the file kept the bytes of n and was made while n was there, a
  GetEvByName packet for n is answered by a packet that decodes to exactly n, |d| and d; otherwise it
  is answered with noSuchEv.
  */
  lemma EndToEnd(s: Store, bus: map<byte, int>, setReq: seq<byte>, env: SmifEnv,
                 evs: seq<ServiceEvent>, getReq: seq<byte>, env': SmifEnv, n: Name, d: seq<byte>)
    requires Storable(s.entries) && d != []
    ensures IsSetRequest(setReq, n, d) && Acknowledged(s, bus, setReq, env) && Untouched(evs, n)
            && IsGetRequest(getReq, n)
      ==> var s1 := SmifNext(s, setReq, env.save, MAX_PACKET_SIZE);
          var s' := Serve(s1, evs);
          && InLimits(s'.entries)
          && (if Survives(s1, evs, n) then Delivers(s', bus, getReq, env', n, d)
              else Answers(s', bus, getReq, env', EV_NO_SUCH_EV))
  {
    hide Serve, SmifNext, IsGetRequest, InSync, Storable, InLimits, Delivers, Answers, Lookup, Untouched,
         Survives, OnDisk;
    StorableIs(s.entries);
    if IsSetRequest(setReq, n, d) && Acknowledged(s, bus, setReq, env) && Untouched(evs, n) && IsGetRequest(getReq, n) {
      var s1 := SmifNext(s, setReq, env.save, MAX_PACKET_SIZE);
      assert Storable(s1.entries) && InSync(s1) && Lookup(s1.entries, n) == Some(d) by {
        AcknowledgedSet(s, bus, setReq, env, n, d);
      }
      ValueSurvives(s1, evs, n);
      if Survives(s1, evs, n) {
        LookupDelivered(Serve(s1, evs), bus, getReq, env', n, d);
      } else {
        LookupDenied(Serve(s1, evs), bus, getReq, env', n);
      }
    }
  }

  lemma LookupDenied(s: Store, bus: map<byte, int>, req: seq<byte>, env: SmifEnv, n: Name)
    requires Storable(s.entries) && IsGetRequest(req, n) && Lookup(s.entries, n) == None
    ensures InLimits(s.entries) && Answers(s, bus, req, env, EV_NO_SUCH_EV)
  {
    hide SmifReply, SimpleReply, DecodeAnswer, EntriesSize, CStr;
    GetReplied(s, bus, req, env, n);
    ErrorReplied(ParseHeader(req), EV_NO_SUCH_EV);
  }

  lemma AcknowledgedSet(s: Store, bus: map<byte, int>, req: seq<byte>, env: SmifEnv, n: Name, d: seq<byte>)
    requires Storable(s.entries) && IsSetRequest(req, n, d) && d != []
    ensures Acknowledged(s, bus, req, env) ==>
              var s1 := SmifNext(s, req, env.save, MAX_PACKET_SIZE);
              Storable(s1.entries) && InSync(s1) && Lookup(s1.entries, n) == Some(d)
  {
    hide SmifReply, SmifNext, DecodeAnswer, EntriesSize, Find;
    SetReplied(s, bus, req, env, n, d);
    SetStorable(s, n, d, Saved);
    PutLookup(s.entries, n, d, n);
  }

  lemma LookupDelivered(s: Store, bus: map<byte, int>, req: seq<byte>, env: SmifEnv, n: Name, d: seq<byte>)
    requires Storable(s.entries) && IsGetRequest(req, n) && Lookup(s.entries, n) == Some(d) && d != []
    ensures InLimits(s.entries) && Delivers(s, bus, req, env, n, d)
  {
    hide SmifReply, EvDataReply, DecodeAnswer, EntriesSize, CStr;
    GetReplied(s, bus, req, env, n);
    EvDataDecodes(ParseHeader(req), s.entries[Find(s.entries, n).value]);
  }

  /** The promise is not empty: a Set packet whose result fits is acknowledged when its save succeeds. */
  lemma SetAcknowledged(s: Store, bus: map<byte, int>, h: ChifPktHeader, env: SmifEnv, n: Name, d: seq<byte>)
    requires InLimits(s.entries) && SetAccepted(s.entries, n, d) && 0 !in n && d != []
    ensures IsSetRequest(SetRequest(h, n, d), n, d)
    ensures Acknowledged(s, bus, SetRequest(h, n, d), env) <==> env.save.Saved?
  {
    hide SmifReply, SetRequest, IsSetRequest, DecodeAnswer, EntriesSize, Find;
    SetRequestMeans(h, n, d);
    FailedSaveStillApplies(s, bus, SetRequest(h, n, d), env, n, d);
  }

  /**
  An error answer does not mean that nothing happened. A well-formed Set packet whose save fails is
  answered with nameTooLong, and yet the new value is what later requests read; the store is left
  alone exactly when the result would not fit (or the value was already there).
  */
  lemma FailedSaveStillApplies(s: Store, bus: map<byte, int>, req: seq<byte>, env: SmifEnv, n: Name, d: seq<byte>)
    requires InLimits(s.entries) && IsSetRequest(req, n, d) && 0 < |d| <= MAX_EV_DATA_SIZE
    ensures var reply := SmifReply(Some(s), bus, req, env, MAX_PACKET_SIZE);
            var s' := SmifNext(s, req, env.save, MAX_PACKET_SIZE);
            && reply.Some? && |reply.value| == 12
            && (DecodeAnswer(reply.value) == EvError(EV_SUCCESS) <==> SetAccepted(s.entries, n, d) && env.save.Saved?)
            && (DecodeAnswer(reply.value) != EvError(EV_SUCCESS) ==>
                  DecodeAnswer(reply.value) == EvError(EV_NAME_TOO_LONG))
            && (Lookup(s'.entries, n) == Some(d) <==>
                  SetAccepted(s.entries, n, d) || Lookup(s.entries, n) == Some(d))
  {
    hide CStr, SimpleReply, SetAccepted, InLimits, U16At, Find, Put, Lookup, DecodeAnswer;
    var h, p := ParseHeader(req), Payload(req);
    assert p[4..35] == req[12..43];
    assert U16At(p, 36) == U16At(req, 44) by { PayloadField(req, 36); }
    assert p[38..38 + |d|] == d;
    ErrorReplied(h, EV_SUCCESS);
    SimpleReplyFramed(h, EV_NAME_TOO_LONG);
    PutLookup(s.entries, n, d, n);
  }

  predicate IsDeleteRequest(req: seq<byte>, n: Name) {
    && |req| >= 44
    && U16At(req, 4) == CMD_SET_DELETE_EV && req[8] % 8 in {2, 3}
    && req[43] == 0 && CStr(req[12..44]) == n
  }

  predicate IsDeleteAllRequest(req: seq<byte>) {
    |req| >= 12 && U16At(req, 4) == CMD_SET_DELETE_EV && req[8] % 8 >= 4
  }

  /**
  The same holds for deletions: the entry goes whether or not the save works, and only the answer
  differs. A Set packet without data deletes too, and is answered with success in every case.
  */
  lemma FailedDeleteStillApplies(s: Store, bus: map<byte, int>, req: seq<byte>, env: SmifEnv, n: Name)
    requires InLimits(s.entries)
    requires IsDeleteRequest(req, n) || IsSetRequest(req, n, [])
    ensures Answers(s, bus, req, env, if IsSetRequest(req, n, []) || (Find(s.entries, n).Some? && env.save.Saved?)
                                      then EV_SUCCESS else EV_DEVICE_ERROR)
    ensures var es := SmifNext(s, req, env.save, MAX_PACKET_SIZE).entries;
            && es == Remove(s.entries, n)
            && (Unique(s.entries) ==> Lookup(es, n) == None)
            && forall m :: m != n ==> Lookup(es, m) == Lookup(s.entries, m)
  {
    hide CStr, SimpleReply, InLimits, U16At, Find, Remove, Lookup, DecodeAnswer, Serialize, ParseHeader, Unique;
    RequestFields(req);
    assert Payload(req)[4..36] == req[12..44];
    assert Payload(req)[4..35] == req[12..43];
    if |req| >= 46 { PayloadField(req, 36); }
    ErrorReplied(ParseHeader(req), EV_SUCCESS);
    ErrorReplied(ParseHeader(req), EV_DEVICE_ERROR);
    assert Find(s.entries, n).None? ==> Remove(s.entries, n) == s.entries by { RemoveAbsent(s.entries, n); }
    RemovedLookup(s.entries, n);
  }

  lemma RemoveAbsent(es: seq<EvEntry>, n: Name)
    ensures Find(es, n).None? ==> Remove(es, n) == es
  {
  }

  lemma RemovedLookup(es: seq<EvEntry>, n: Name)
    ensures Unique(es) ==> Lookup(Remove(es, n), n) == None
    ensures forall m :: m != n ==> Lookup(Remove(es, n), m) == Lookup(es, m)
  {
    hide Find;
    if Unique(es) && Find(es, n).Some? {
      var i, es' := Find(es, n).value, Remove(es, n);
      assert forall j :: 0 <= j < |es'| ==> es'[j] == es[if j < i then j else j + 1];
    }
    hide Remove, Lookup, Unique;
    forall m | m != n ensures Lookup(Remove(es, n), m) == Lookup(es, m) {
      RemoveLookup(es, n, m);
    }
  }

  /** DeleteAll empties the store whatever its save does; the answer alone tells the two apart. */
  lemma FailedDeleteAllStillApplies(s: Store, bus: map<byte, int>, req: seq<byte>, env: SmifEnv)
    requires InLimits(s.entries) && IsDeleteAllRequest(req)
    ensures Answers(s, bus, req, env, if env.save.Saved? then EV_SUCCESS else EV_NAME_TOO_LONG)
    ensures SmifNext(s, req, env.save, MAX_PACKET_SIZE).entries == []
  {
    hide SimpleReply, InLimits, DecodeAnswer, Serialize, ParseHeader;
    RequestFields(req);
    ErrorReplied(ParseHeader(req), EV_SUCCESS);
    ErrorReplied(ParseHeader(req), EV_NAME_TOO_LONG);
  }

  lemma PayloadField(req: seq<byte>, off: nat)
    requires |req| >= 8 + off + 2
    ensures |Payload(req)| >= off + 2 && U16At(Payload(req), off) == U16At(req, 8 + off)
  {
  }

  lemma ErrorReplied(h: ChifPktHeader, err: u16)
    ensures |SimpleReply(h, err)| == 12 && DecodeAnswer(SimpleReply(h, err)) == EvError(err)
  {
    SimpleReplyFramed(h, err);
  }

  // ----- Enumeration -----

  function IndexRequest(h: ChifPktHeader, i: nat): seq<byte> {
    EncodeHeader(h.(command := CMD_GET_EV_BY_INDEX)) + Le32(i)
  }

  function NameRequest(h: ChifPktHeader, n: Name): seq<byte>
    requires |n| < MAX_EV_NAME_LEN
  {
    EncodeHeader(h.(command := CMD_GET_EV_BY_NAME)) + (n + Zeros(MAX_EV_NAME_LEN - |n|))
  }

  lemma IndexReplied(s: Store, bus: map<byte, int>, h: ChifPktHeader, env: SmifEnv, i: nat)
    requires Storable(s.entries) && i <= |s.entries|
    ensures var reply := SmifReply(Some(s), bus, IndexRequest(h, i), env, MAX_PACKET_SIZE);
            && reply.Some? && |reply.value| >= 12
            && DecodeAnswer(reply.value) == if i < |s.entries| then Shown(s.entries[i]) else EvError(EV_NO_SUCH_EV)
  {
    StorableIs(s.entries);
    CountBound(s.entries);
    IndexRequestIs(h, i);
    IndexLookup(h.(command := CMD_GET_EV_BY_INDEX), s, i);
    hide Storable, InLimits, Clean, EncodeHeader, IndexRequest, ParseHeader, GetByIndexReply, DecodeAnswer, Payload;
  }

  lemma IndexLookup(h: ChifPktHeader, s: Store, i: nat)
    requires InLimits(s.entries) && Clean(s.entries) && i <= |s.entries| <= 1927
    ensures var b := GetByIndexReply(h, Some(s), Le32(i), MAX_PACKET_SIZE);
            && |b| >= 12
            && DecodeAnswer(b) == if i < |s.entries| then Shown(s.entries[i]) else EvError(EV_NO_SUCH_EV)
  {
    hide EvDataReply, SimpleReply, FoundReply, EntriesSize, DecodeAnswer, Shown;
    assert U32At(Le32(i), 0) == i by {
      Le32At([], i, []);
      assert [] + Le32(i) + [] == Le32(i);
    }
    hide Le32, U32At;
    if i < |s.entries| {
      FoundShown(h, s.entries, i);
    } else {
      SimpleReplyFramed(h, EV_NO_SUCH_EV);
    }
  }

  lemma FoundShown(h: ChifPktHeader, es: seq<EvEntry>, i: nat)
    requires InLimits(es) && Clean(es) && i < |es|
    ensures var b := FoundReply(h, es[i], MAX_PACKET_SIZE);
            |b| >= 12 && DecodeAnswer(b) == Shown(es[i])
  {
    hide EntriesSize, EvDataReply, FoundReply, DecodeAnswer, Shown;
    FallbackUnreachable(h, es, i, 0);
    EvDataDecodes(h, es[i]);
  }

  lemma StorableIs(es: seq<EvEntry>)
    requires Storable(es)
    ensures InLimits(es) && Clean(es)
  {
  }

  lemma IndexRequestIs(h: ChifPktHeader, i: nat)
    ensures |IndexRequest(h, i)| == 12
    ensures ParseHeader(IndexRequest(h, i)) == h.(command := CMD_GET_EV_BY_INDEX)
    ensures Payload(IndexRequest(h, i)) == Le32(i)
  {
    HeaderRoundTrip(h.(command := CMD_GET_EV_BY_INDEX), Le32(i));
  }

  lemma NameRequestMeans(h: ChifPktHeader, n: Name)
    requires |n| < MAX_EV_NAME_LEN && 0 !in n
    ensures IsGetRequest(NameRequest(h, n), n)
  {
    var h' := h.(command := CMD_GET_EV_BY_NAME);
    var req, pad := NameRequest(h, n), Zeros(MAX_EV_NAME_LEN - |n|);
    HeaderRoundTrip(h', n + pad);
    assert req == EncodeHeader(h') + n + pad;
    hide EncodeHeader, NameRequest, ParseHeader;
    assert req[39] == pad[|pad| - 1];
    assert req[8..39] == n + pad[..|pad| - 1];
    CStrOfPadded(n, pad[..|pad| - 1]);
  }

  // What the host decodes from the answer to a GetEvByIndex packet.
  function AnswerByIndex(s: Store, bus: map<byte, int>, h: ChifPktHeader, env: SmifEnv, i: nat): (a: EvAnswer)
    requires Storable(s.entries) && i <= |s.entries|
    ensures a == if i < |s.entries| then Shown(s.entries[i]) else EvError(EV_NO_SUCH_EV)
  {
    IndexReplied(s, bus, h, env, i);
    DecodeAnswer(SmifReply(Some(s), bus, IndexRequest(h, i), env, MAX_PACKET_SIZE).value)
  }

  // What the host decodes from the answer to a GetEvByName packet for the name of entry i.
  function AnswerByName(s: Store, bus: map<byte, int>, h: ChifPktHeader, env: SmifEnv, i: nat): (a: EvAnswer)
    requires Storable(s.entries) && i < |s.entries|
  {
    var reply := SmifReply(Some(s), bus, NameRequest(h, s.entries[i].name), env, MAX_PACKET_SIZE);
    if reply.Some? && |reply.value| >= 12 then DecodeAnswer(reply.value) else EvError(0)
  }

  /** The host's loop: asking for index 0, 1, ... until noSuchEv lists every entry once, in order. */
  method Enumerate(s: Store, bus: map<byte, int>, h: ChifPktHeader, env: SmifEnv) returns (seen: seq<EvAnswer>)
    requires Storable(s.entries)
    ensures |seen| == |s.entries|
    ensures forall i :: 0 <= i < |seen| ==> seen[i] == Shown(s.entries[i])
  {
    hide AnswerByIndex, Storable;
    seen := [];
    var answer := AnswerByIndex(s, bus, h, env, 0);
    while answer != EvError(EV_NO_SUCH_EV)
      invariant |seen| <= |s.entries|
      invariant forall i :: 0 <= i < |seen| ==> seen[i] == Shown(s.entries[i])
      invariant answer == if |seen| < |s.entries| then Shown(s.entries[|seen|]) else EvError(EV_NO_SUCH_EV)
      decreases |s.entries| - |seen|
    {
      seen := seen + [answer];
      answer := AnswerByIndex(s, bus, h, env, |seen|);
    }
  }

  /** With unique names, asking for an entry by name or by index gives the same answer. */
  lemma EnumerationAgrees(s: Store, bus: map<byte, int>, h: ChifPktHeader, env: SmifEnv, i: nat)
    requires Storable(s.entries) && Unique(s.entries) && i < |s.entries|
    ensures AnswerByName(s, bus, h, env, i) == AnswerByIndex(s, bus, h, env, i) == Shown(s.entries[i])
  {
    hide Storable, Unique, AnswerByIndex, SmifReply, DecodeAnswer, Shown, NameRequest;
    NameReplied(s, bus, h, env, i);
  }

  lemma NameReplied(s: Store, bus: map<byte, int>, h: ChifPktHeader, env: SmifEnv, i: nat)
    requires Storable(s.entries) && Unique(s.entries) && i < |s.entries|
    ensures var reply := SmifReply(Some(s), bus, NameRequest(h, s.entries[i].name), env, MAX_PACKET_SIZE);
            reply.Some? && |reply.value| >= 12 && DecodeAnswer(reply.value) == Shown(s.entries[i])
  {
    var e := s.entries[i];
    StorableIs(s.entries);
    assert Find(s.entries, e.name) == Some(i) by { FindUnique(s.entries, i); }
    assert IsGetRequest(NameRequest(h, e.name), e.name) by { NameRequestMeans(h, e.name); }
    hide Storable, EntriesSize, Unique, Find, SmifReply, IsGetRequest, DecodeAnswer, EvDataReply, Shown, NameRequest;
    GetReplied(s, bus, NameRequest(h, e.name), env, e.name);
    EvDataDecodes(ParseHeader(NameRequest(h, e.name)), e);
  }

  /** EvStats reports exactly the entry count, the bytes left of the budget, and 64 KiB as the maximum. */
  lemma StatsExact(h: ChifPktHeader, s: Store)
    requires Storable(s.entries)
    ensures var b := EvStatsReply(h, Some(s));
            |b| == 20 && U32At(b, 12) + SerializedSize(s.entries) == MAX_EV_FILE_SIZE
            && U16At(b, 16) == |s.entries| && U16At(b, 18) == 64
  {
    var hdr := EncodeHeader(ResponseHeader(h, 20));
    var rem, n := MAX_EV_FILE_SIZE - SerializedSize(s.entries), |s.entries|;
    assert EvStatsReply(h, Some(s)) == hdr + Le32(0) + Le32(rem) + Le16(n) + Le16(64);
    CountBound(s.entries);
    hide EvStatsReply, EncodeHeader, EntriesSize;
    StatsFields(hdr + Le32(0), rem, n, 64);
  }

  lemma StatsFields(front: seq<byte>, rem: u32, n: u16, max: u16)
    requires |front| == 12
    ensures var b := front + Le32(rem) + Le16(n) + Le16(max);
            U32At(b, 12) == rem && U16At(b, 16) == n && U16At(b, 18) == max
  {
    hide Le32, Le16, U32At, U16At;
    var b := front + Le32(rem) + Le16(n) + Le16(max);
    assert U32At(b, 12) == rem by {
      Le32At(front, rem, Le16(n) + Le16(max));
      assert b == front + Le32(rem) + (Le16(n) + Le16(max));
    }
    assert U16At(b, 16) == n by { Le16At(front + Le32(rem), n, Le16(max)); }
    Le16At(front + Le32(rem) + Le16(n), max, []);
    assert b + [] == b;
  }

  /** The packet for an entry gives a host the entry's own data exactly when that data is not empty. */
  lemma DecodesExactly(h: ChifPktHeader, e: EvEntry)
    requires EntryInLimits(e) && 0 !in e.name
    ensures DecodeAnswer(EvDataReply(h, e)) == EvFound(e.name, |e.data|, e.data) <==> e.data != []
  {
    hide EvDataReply, DecodeAnswer;
    EvDataDecodes(h, e);
  }
}
