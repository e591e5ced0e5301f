/**
The SMIF protocol told by the bytes of the packets alone: command numbers, flag bits, offsets and
error codes as they go over the channel.
*/
module SmifWire {
  import opened Bytes
  import opened Streams
  import opened Packet
  import opened EvFormat
  import opened EvStore
  import opened EvRuns
  import opened Smif
  import opened SmifRuns

  // A twelve-byte answer that carries nothing but an error code.
  predicate CodeOnly(reply: Option<seq<byte>>, code: nat) {
    reply.Some? && |reply.value| == 12 && U32At(reply.value, 8) == code
  }

  // An answer that carries an entry: its name and data, or four zero bytes for an empty value.
  predicate CarriesEntry(reply: Option<seq<byte>>, e: EvEntry) {
    && reply.Some? && |reply.value| == 46 + (if e.data == [] then 4 else |e.data|)
    && DecodeAnswer(reply.value)
       == if e.data == [] then EvFound(e.name, 4, [0, 0, 0, 0]) else EvFound(e.name, |e.data|, e.data)
  }

  lemma CodeAnswered(h: ChifPktHeader, err: u16)
    ensures CodeOnly(Some(SimpleReply(h, err)), err)
  {
    SimpleReplyFramed(h, err);
  }

  // ----- 0x012C: set, delete, delete all -----

  lemma FlagBits(b0: nat, b1: nat, b2: nat, hi: nat)
    requires b0 < 2 && b1 < 2 && b2 < 2 && hi < 32
    ensures var f := b0 + 2 * b1 + 4 * b2 + 8 * hi;
            (FlagSet(f) <==> b0 == 1) && (FlagDelete(f) <==> b1 == 1) && (FlagDeleteAll(f) <==> b2 == 1)
  {
    var f := b0 + 2 * b1 + 4 * b2 + 8 * hi;
    assert f / 2 == b1 + 2 * b2 + 4 * hi && f / 4 == b2 + 2 * hi;
  }

  /**
  What a Set/Delete packet does and how it is answered, by the bits of its flag byte: bit 2 clears the
  store; else bit 1 deletes the name at offset 12; else bit 0 sets it to the data at offset 46; else
  nothing happens.
  */
  lemma SetDeleteOnBytes(s: Store, bus: map<byte, int>, req: seq<byte>, env: SmifEnv,
                         b0: nat, b1: nat, b2: nat, hi: nat)
    requires InLimits(s.entries) && |req| >= 12 && U16At(req, 4) == 0x012C
    requires b0 < 2 && b1 < 2 && b2 < 2 && hi < 32 && req[8] == b0 + 2 * b1 + 4 * b2 + 8 * hi
    ensures var reply := SmifReply(Some(s), bus, req, env, 4096);
            var s' := SmifNext(s, req, env.save, 4096);
            if b2 == 1 then
              s' == Commit(s, [], env.save) && CodeOnly(reply, if env.save.Saved? then 0 else 3)
            else if b1 == 1 then
              if |req| < 44 then s' == s && CodeOnly(reply, 2)
              else if req[43] != 0 then s' == s && CodeOnly(reply, 3)
              else
                var n := CStr(req[12..44]);
                var found := Find(s.entries, n).Some?;
                && s' == (if found then Commit(s, Remove(s.entries, n), env.save) else s)
                && CodeOnly(reply, if found && env.save.Saved? then 0 else 1)
            else if b0 == 1 then
              if |req| < 46 then s' == s && CodeOnly(reply, 2)
              else
                var n, len := CStr(req[12..43]), U16At(req, 44);
                if len > 3966 then s' == s && CodeOnly(reply, 4)
                else if len == 0 then
                  && s' == (if Find(s.entries, n).Some? then Commit(s, Remove(s.entries, n), env.save) else s)
                  && CodeOnly(reply, 0)
                else if |req| < 46 + len then s' == s && CodeOnly(reply, 2)
                else
                  var d := req[46..46 + len];
                  var fits := SetAccepted(s.entries, n, d);
                  && s' == (if fits then Commit(s, Put(s.entries, n, d), env.save) else s)
                  && CodeOnly(reply, if fits && env.save.Saved? then 0 else 3)
            else s' == s && CodeOnly(reply, 5)
  {
    hide CStr, SimpleReply, SetAccepted, InLimits, U16At, Find, Put, Remove, Serialize, DiskAfterSave, ParseHeader,
         FlagSet, FlagDelete, FlagDeleteAll, CodeOnly;
    var h, p := ParseHeader(req), Payload(req);
    RequestFields(req);
    FlagBits(b0, b1, b2, hi);
    forall err: u16 ensures CodeOnly(Some(SimpleReply(h, err)), err) { CodeAnswered(h, err); }
    if |req| >= 44 { assert p[4..36] == req[12..44]; }
    if |req| >= 46 {
      assert p[4..35] == req[12..43];
      PayloadField(req, 36);
      if |req| >= 46 + U16At(req, 44) { assert p[38..38 + U16At(req, 44)] == req[46..46 + U16At(req, 44)]; }
    }
  }

  /** Without flags in the packet, or without a store, nothing happens. */
  lemma SetDeleteRefused(sto: Option<Store>, bus: map<byte, int>, req: seq<byte>, env: SmifEnv)
    requires (sto.Some? ==> InLimits(sto.value.entries)) && |req| >= 8 && U16At(req, 4) == 0x012C
    requires sto.None? || |req| < 12
    ensures CodeOnly(SmifReply(sto, bus, req, env, 4096), 2)
    ensures sto.Some? ==> SmifNext(sto.value, req, env.save, 4096) == sto.value
  {
    hide SimpleReply, InLimits, U16At, ParseHeader, CodeOnly;
    RequestFields(req);
    CodeAnswered(ParseHeader(req), 2);
  }

  // The packets a host sends to delete a name, and to delete everything.
  function DeleteRequest(h: ChifPktHeader, n: Name): seq<byte>
    requires |n| < MAX_EV_NAME_LEN
  {
    EncodeHeader(h.(command := CMD_SET_DELETE_EV)) + ([2, 0, 0, 0] + (n + Zeros(MAX_EV_NAME_LEN - |n|)))
  }

  function DeleteAllRequest(h: ChifPktHeader): seq<byte> {
    EncodeHeader(h.(command := CMD_SET_DELETE_EV)) + [4, 0, 0, 0]
  }

  /** A host's delete packets are read as what they are, and take effect whatever their saves do. */
  lemma HostDeletes(s: Store, bus: map<byte, int>, h: ChifPktHeader, env: SmifEnv, n: Name)
    requires InLimits(s.entries) && |n| < MAX_EV_NAME_LEN && 0 !in n
    ensures IsDeleteRequest(DeleteRequest(h, n), n) && IsDeleteAllRequest(DeleteAllRequest(h))
    ensures var found := Find(s.entries, n).Some?;
            && SmifNext(s, DeleteRequest(h, n), env.save, 4096).entries == Remove(s.entries, n)
            && Answers(s, bus, DeleteRequest(h, n), env, if found && env.save.Saved? then 0 else 1)
    ensures SmifNext(s, DeleteAllRequest(h), env.save, 4096).entries == []
    ensures Answers(s, bus, DeleteAllRequest(h), env, if env.save.Saved? then 0 else 3)
  {
    hide SmifNext, Answers, IsDeleteRequest, IsDeleteAllRequest, IsSetRequest, InLimits, DeleteRequest,
         DeleteAllRequest;
    DeleteRequestMeans(h, n);
    FailedDeleteStillApplies(s, bus, DeleteRequest(h, n), env, n);
    FailedDeleteAllStillApplies(s, bus, DeleteAllRequest(h), env);
  }

  lemma DeleteRequestMeans(h: ChifPktHeader, n: Name)
    requires |n| < MAX_EV_NAME_LEN && 0 !in n
    ensures IsDeleteRequest(DeleteRequest(h, n), n) && !IsSetRequest(DeleteRequest(h, n), n, [])
    ensures IsDeleteAllRequest(DeleteAllRequest(h))
  {
    hide EncodeHeader, U16At;
    var h' := h.(command := CMD_SET_DELETE_EV);
    var pad := Zeros(MAX_EV_NAME_LEN - |n|);
    var flags: seq<byte> := [2, 0, 0, 0];
    EncodedPlaces(h', flags + (n + pad));
    EncodedPlaces(h', [4, 0, 0, 0]);
    var req := DeleteRequest(h, n);
    assert req[8] == flags[0];
    assert req[12..44] == n + pad && req[43] == pad[|pad| - 1];
    CStrOfPadded(n, pad);
    assert DeleteAllRequest(h)[8] == 4;
  }

  // ----- 0x012B and 0x0130: lookups -----

  lemma EntryCarried(h: ChifPktHeader, es: seq<EvEntry>, i: nat)
    requires Storable(es) && i < |es|
    ensures CarriesEntry(Some(FoundReply(h, es[i], 4096)), es[i])
  {
    hide EvDataReply, DecodeAnswer, EntriesSize;
    FallbackUnreachable(h, es, i, 0);
    EvDataDecodes(h, es[i]);
    assert Zeros(4) == [0, 0, 0, 0];
  }

  /**
  By index: entry i for any 32-bit i below the count, noSuchEv (2) for any other, and deviceError (1)
  without an index or a store.
  */
  lemma IndexOnBytes(sto: Option<Store>, bus: map<byte, int>, req: seq<byte>, env: SmifEnv)
    requires (sto.Some? ==> Storable(sto.value.entries)) && |req| >= 8 && U16At(req, 4) == 0x012B
    ensures sto.Some? ==> InLimits(sto.value.entries)
    ensures var reply := SmifReply(sto, bus, req, env, 4096);
            if sto.None? || |req| < 12 then CodeOnly(reply, 1)
            else
              var i, es := U32At(req, 8), sto.value.entries;
              if i < |es| then CarriesEntry(reply, es[i]) else CodeOnly(reply, 2)
  {
    hide SimpleReply, U16At, ParseHeader, CodeOnly, FoundReply, EntriesSize, CarriesEntry, Clean;
    if sto.Some? { StorableIs(sto.value.entries); }
    RequestFields(req);
    CodeAnswered(ParseHeader(req), 1);
    CodeAnswered(ParseHeader(req), 2);
    if sto.Some? && |req| >= 12 {
      assert U32At(Payload(req), 0) == U32At(req, 8) by { PayloadField(req, 0); PayloadField(req, 2); }
      if U32At(req, 8) < |sto.value.entries| {
        EntryCarried(ParseHeader(req), sto.value.entries, U32At(req, 8));
      }
    }
  }

  /** By name: the value stored for the name at offset 8, or the error of the first check that fails. */
  lemma NameOnBytes(sto: Option<Store>, bus: map<byte, int>, req: seq<byte>, env: SmifEnv)
    requires (sto.Some? ==> Storable(sto.value.entries)) && |req| >= 8 && U16At(req, 4) == 0x0130
    ensures sto.Some? ==> InLimits(sto.value.entries)
    ensures var reply := SmifReply(sto, bus, req, env, 4096);
            if |req| < 40 then CodeOnly(reply, 2)
            else if sto.None? then CodeOnly(reply, 1)
            else if req[39] != 0 then CodeOnly(reply, 3)
            else
              var n := CStr(req[8..39]);
              match Lookup(sto.value.entries, n)
              case None => CodeOnly(reply, 2)
              case Some(d) => CarriesEntry(reply, EvEntry(n, d))
  {
    hide SimpleReply, U16At, ParseHeader, CodeOnly, FoundReply, EntriesSize, CarriesEntry, CStr, Clean;
    if sto.Some? { StorableIs(sto.value.entries); }
    RequestFields(req);
    var h := ParseHeader(req);
    CodeAnswered(h, 1);
    CodeAnswered(h, 2);
    CodeAnswered(h, 3);
    if |req| >= 40 && sto.Some? {
      assert Payload(req)[..31] == req[8..39];
      var at := Find(sto.value.entries, CStr(req[8..39]));
      if at.Some? { EntryCarried(h, sto.value.entries, at.value); }
    }
  }

  // ----- The fixed answers -----

  /**
  The answers that carry numbers, by command: 0x0132 the bytes left, the entry count and 64, 0x0133 one
  flag, 0x012D four ones, 0x0200 the code 6 and nothing else.
  */
  lemma FixedOnBytes(sto: Option<Store>, bus: map<byte, int>, req: seq<byte>, env: SmifEnv)
    requires (sto.Some? ==> Storable(sto.value.entries)) && |req| >= 8
    ensures sto.Some? ==> InLimits(sto.value.entries)
    ensures var reply, c := SmifReply(sto, bus, req, env, 4096), U16At(req, 4);
            && (c in {0x0132, 0x0133, 0x012D, 0x0200} ==> reply.Some?)
            && (c == 0x0132 ==>
                  && |reply.value| == 20 && U32At(reply.value, 8) == 0 && U16At(reply.value, 18) == 64
                  && U32At(reply.value, 12) == (if sto.None? then 0 else 65536 - SerializedSize(sto.value.entries))
                  && U16At(reply.value, 16) == (if sto.None? then 0 else |sto.value.entries|))
            && (c == 0x0133 ==> |reply.value| == 16 && reply.value[8..] == [0, 0, 0, 0, 1, 0, 0, 0])
            && (c == 0x012D ==>
                  |reply.value| == 132 && reply.value[8..] == [0, 0, 0, 0, 1, 0, 0, 0, 1, 1, 1] + Zeros(113))
            && (c == 0x0200 ==> |reply.value| == 4032 && reply.value[8..] == [6, 0, 0, 0] + Zeros(4020))
  {
    hide U16At, U32At, ParseHeader, EntriesSize, EvStatsReply, EvStateReply, AuthStatusReply, PlatDefReply, Clean,
         GetByIndexReply, GetByNameReply, SetDelete, I2cTransfer, I2cReply, Storable;
    if sto.Some? { StorableIs(sto.value.entries); }
    RequestFields(req);
    var h := ParseHeader(req);
    StatsBytes(h, sto);
    FixedBytes(h);
  }

  lemma StatsBytes(h: ChifPktHeader, sto: Option<Store>)
    requires sto.Some? ==> Storable(sto.value.entries)
    ensures var b := EvStatsReply(h, sto);
            && |b| == 20 && U32At(b, 8) == 0 && U16At(b, 18) == 64
            && U32At(b, 12) == (if sto.None? then 0 else 65536 - SerializedSize(sto.value.entries))
            && U16At(b, 16) == if sto.None? then 0 else |sto.value.entries|
  {
    hide U16At, U32At, Le16, Le32, EncodeHeader, EntriesSize;
    var hdr := EncodeHeader(ResponseHeader(h, 20));
    var rem := if sto.None? then 0 else 65536 - SerializedSize(sto.value.entries);
    var n := if sto.None? then 0 else |sto.value.entries|;
    if sto.Some? { CountBound(sto.value.entries); }
    assert EvStatsReply(h, sto) == hdr + Le32(0) + Le32(rem) + Le16(n) + Le16(64);
    StatsFields(hdr + Le32(0), rem, n, 64);
    Le32At(hdr, 0, Le32(rem) + Le16(n) + Le16(64));
    assert EvStatsReply(h, sto) == hdr + Le32(0) + (Le32(rem) + Le16(n) + Le16(64));
  }

  lemma FixedBytes(h: ChifPktHeader)
    ensures |EvStateReply(h)| == 16 && EvStateReply(h)[8..] == [0, 0, 0, 0, 1, 0, 0, 0]
    ensures |AuthStatusReply(h)| == 132
    ensures AuthStatusReply(h)[8..] == [0, 0, 0, 0, 1, 0, 0, 0, 1, 1, 1] + Zeros(113)
    ensures |PlatDefReply(h)| == 4032 && PlatDefReply(h)[8..] == [6, 0, 0, 0] + Zeros(4020)
  {
    SmallNumbers();
    hide EncodeHeader, Zeros, Le32;
  }

  lemma SmallNumbers()
    ensures Le32(0) == [0, 0, 0, 0] && Le32(1) == [1, 0, 0, 0] && Le32(6) == [6, 0, 0, 0]
  {
  }

  /** Every other command is answered with success and nothing else. */
  lemma OtherOnBytes(sto: Option<Store>, bus: map<byte, int>, req: seq<byte>, env: SmifEnv)
    requires (sto.Some? ==> InLimits(sto.value.entries)) && |req| >= 8
    requires U16At(req, 4) !in {0x0072, 0x012B, 0x012C, 0x012D, 0x0130, 0x0132, 0x0133, 0x0200}
    ensures CodeOnly(SmifReply(sto, bus, req, env, 4096), 0)
  {
    hide U16At, ParseHeader, SimpleReply, InLimits, CodeOnly;
    RequestFields(req);
    CodeAnswered(ParseHeader(req), 0);
  }

  /** Only command 0x012C changes the store. */
  lemma OnlySetDeleteChanges(s: Store, req: seq<byte>, o: SaveOutcome, cap: nat)
    ensures SmifNext(s, req, o, cap) != s ==> |req| >= 12 && cap >= 12 && U16At(req, 4) == 0x012C && req[8] % 8 != 0
  {
    hide U16At, ParseHeader, DeleteNamed, SetNamed, AfterDeleteAll;
    if |req| >= 8 { RequestFields(req); }
  }

  /** A request goes unanswered exactly when it has no header or its answer does not fit the buffer. */
  lemma UnansweredExactly(sto: Option<Store>, bus: map<byte, int>, req: seq<byte>, env: SmifEnv, cap: nat)
    requires sto.Some? ==> InLimits(sto.value.entries)
    ensures SmifReply(sto, bus, req, env, cap) == None <==>
            || |req| < 8 || cap < 12
            || (U16At(req, 4) == 0x0132 && cap < 20) || (U16At(req, 4) == 0x0133 && cap < 16)
            || (U16At(req, 4) == 0x012D && cap < 132) || (U16At(req, 4) == 0x0072 && cap < 57)
  {
    hide U16At, ParseHeader, SimpleReply, InLimits, GetByIndexReply, GetByNameReply, SetDelete, I2cTransfer, I2cReply,
         EvStatsReply, AuthStatusReply, PlatDefReply, EvStateReply;
    if |req| >= 8 { RequestFields(req); }
  }

  /** With a buffer too small for its 4032 bytes, command 0x0200 is answered with the code 1. */
  lemma SmallBuffer(sto: Option<Store>, bus: map<byte, int>, req: seq<byte>, env: SmifEnv, cap: nat)
    requires (sto.Some? ==> InLimits(sto.value.entries)) && |req| >= 8 && U16At(req, 4) == 0x0200
    requires 12 <= cap < 4032
    ensures CodeOnly(SmifReply(sto, bus, req, env, cap), 1)
  {
    hide U16At, ParseHeader, SimpleReply, InLimits, CodeOnly, PlatDefReply;
    RequestFields(req);
    CodeAnswered(ParseHeader(req), 1);
  }

  // ----- 0x0072: the I2C proxy -----

  /**
  The I2C proxy, byte by byte: address and segment come back from offsets 20 and 22 to the same
  offsets; the code at offset 8 is that of the first check that fails; the length read and the bytes
  read follow from offset 24, and nothing but zeros when there is an error or nothing to do.
  */
  lemma I2cOnBytes(sto: Option<Store>, bus: map<byte, int>, req: seq<byte>, env: SmifEnv)
    requires (sto.Some? ==> InLimits(sto.value.entries)) && |req| >= 8 && U16At(req, 4) == 0x0072
    ensures var reply := SmifReply(sto, bus, req, env, 4096);
            && reply.Some? && |reply.value| == 57
            && (|req| < 25 ==> U32At(reply.value, 8) == 101 && reply.value[12..] == Zeros(45))
            && (|req| >= 25 ==>
                  var b, w, r := reply.value, req[23], req[24];
                  && b[12..20] == Zeros(8) && b[20..22] == req[20..22] && b[22] == req[22] && b[23] == 0
                  && U32At(b, 8) == (if w == 0 && r == 0 then 0
                                     else if w > 32 || r > 32 then 101
                                     else if req[22] !in bus then 108
                                     else if env.i2c.OpenFailed? || w as int > |req| - 25 then 101
                                     else if env.i2c.IoctlFailed? then
                                       match env.i2c.errno
                                       case ENXIO => 116
                                       case ETIMEDOUT => 105
                                       case OtherErrno => 101
                                     else 0)
                  && b[24..] == if U32At(b, 8) == 0 && (w > 0 || r > 0)
                                then [r] + Window(env.i2c.readBuf, 0, r) + Zeros(32 - r as int)
                                else Zeros(33))
  {
    hide U16At, U32At, ParseHeader, I2cReply, InLimits, Window, Zeros, I2cErrorFromErrno, SimpleReply, I2cTransfer;
    RequestFields(req);
    var h, p := ParseHeader(req), Payload(req);
    var res := I2cTransfer(bus, p, env.i2c);
    I2cResultBytes(h, res);
    I2cResults(bus, p, env.i2c);
    if |req| >= 25 {
      assert p[14] == req[22] && p[15] == req[23] && p[16] == req[24];
      PayloadField(req, 12);
      StoredBack(req, 20);
    }
  }

  // The answer for a result, byte by byte.
  lemma I2cResultBytes(h: ChifPktHeader, res: I2cResult)
    requires |res.data| <= 32
    ensures var b := I2cReply(h, res);
            && |b| == 57 && U32At(b, 8) == res.err % 0x1_0000_0000
            && b[12..20] == Zeros(8) && b[20..22] == Le16(res.address) && b[22] == res.segment && b[23] == 0
            && b[24..] == [|res.data|] + res.data + Zeros(32 - |res.data|)
            && (res.address == 0 && res.segment == 0 && res.data == [] ==> b[12..] == Zeros(45))
            && (res.data == [] ==> b[24..] == Zeros(33))
  {
    hide EncodeHeader, Le32, U32At, Le16;
    var hdr, err := EncodeHeader(ResponseHeader(h, 57)), Le32(res.err);
    var rest := Zeros(8) + Le16(res.address) + [res.segment, 0, |res.data|] + res.data + Zeros(32 - |res.data|);
    assert I2cReply(h, res) == hdr + err + rest;
    Le32At(hdr, res.err, rest);
    assert Le16(0) == Zeros(2) by { ZeroFields(); }
  }

  lemma I2cResults(bus: map<byte, int>, p: seq<byte>, o: I2cOutcome)
    ensures var res := I2cTransfer(bus, p, o);
            && (|p| < 17 ==> res == I2cResult(101, 0, 0, []))
            && (|p| >= 17 ==>
                  var w, r := p[15], p[16];
                  && res.address == U16At(p, 12) && res.segment == p[14]
                  && res.err == (if w == 0 && r == 0 then 0
                                 else if w > 32 || r > 32 then 101
                                 else if p[14] !in bus then 108
                                 else if o.OpenFailed? || w as int > |p| - 17 then 101
                                 else if o.IoctlFailed? then
                                   match o.errno
                                   case ENXIO => 116
                                   case ETIMEDOUT => 105
                                   case OtherErrno => 101
                                 else 0)
                  && res.data == if res.err == 0 && (w > 0 || r > 0) then Window(o.readBuf, 0, r) else [])
  {
    hide U16At, Window;
  }

  // Storing what a field reads gives its bytes back.
  lemma StoredBack(s: seq<byte>, off: nat)
    requires off + 2 <= |s|
    ensures Le16(U16At(s, off)) == s[off..off + 2]
  {
  }
}
