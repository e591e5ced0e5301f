/**
`SmifService`: the request handlers of service 0x00. Each answers by writing into the response
buffer in place; `SmifReply` and `SmifNext` say what the answer and the new store are as functions
of the request, the store and the outcomes of external calls alone.
*/
module Smif {
  import opened Bytes
  import opened Streams
  import opened Packet
  import opened EvFormat
  import opened EvStore

  const CMD_I2C_TRANSACTION: u16 := 0x0072
  const CMD_GET_EV_BY_INDEX: u16 := 0x012B
  const CMD_SET_DELETE_EV: u16 := 0x012C
  const CMD_GET_EV_AUTH_STATUS: u16 := 0x012D
  const CMD_GET_EV_BY_NAME: u16 := 0x0130
  const CMD_EV_STATS: u16 := 0x0132
  const CMD_EV_STATE: u16 := 0x0133
  const CMD_PLATDEF_UPLOAD: u16 := 0x0200

  const EV_SUCCESS: nat := 0
  const EV_DEVICE_ERROR: nat := 1
  const EV_NO_SUCH_EV: nat := 2
  const EV_NAME_TOO_LONG: nat := 3
  const EV_DATA_TOO_LARGE: nat := 4
  const EV_UNSUPPORTED: nat := 5

  predicate FlagSet(flags: byte) { flags % 2 == 1 }
  predicate FlagDelete(flags: byte) { flags / 2 % 2 == 1 }
  predicate FlagDeleteAll(flags: byte) { flags / 4 % 2 == 1 }

  // ----- Outcomes of external calls -----

  datatype Errno = ENXIO | ETIMEDOUT | OtherErrno
  datatype I2cOutcome = OpenFailed | IoctlFailed(errno: Errno) | IoctlDone(readBuf: seq<byte>)
  datatype SmifEnv = SmifEnv(save: SaveOutcome, i2c: I2cOutcome)

  // ----- What each command answers -----

  function SimpleReply(h: ChifPktHeader, err: nat): seq<byte> {
    EncodeHeader(ResponseHeader(h, 12)) + Le32(err)
  }

  // A zero-length value is answered as four zero bytes.
  function EvDataSize(e: EvEntry): nat {
    if e.data == [] then 4 else |e.data|
  }

  function EvDataReply(h: ChifPktHeader, e: EvEntry): (r: seq<byte>)
    requires EntryInLimits(e)
    ensures |r| == 46 + EvDataSize(e)
  {
    EncodeHeader(ResponseHeader(h, 46 + EvDataSize(e)))
    + Le32(EV_SUCCESS)
    + (e.name + Zeros(MAX_EV_NAME_LEN - |e.name|))
    + Le16(EvDataSize(e))
    + (if e.data == [] then Zeros(4) else e.data)
  }

  function EvStatsReply(h: ChifPktHeader, sto: Option<Store>): seq<byte> {
    var used := if sto.Some? then SerializedSize(sto.value.entries) else MAX_EV_FILE_SIZE;
    var remaining := if used < MAX_EV_FILE_SIZE then MAX_EV_FILE_SIZE - used else 0;
    var count := if sto.Some? then |sto.value.entries| else 0;
    EncodeHeader(ResponseHeader(h, 20)) + Le32(EV_SUCCESS) + Le32(remaining) + Le16(count)
    + Le16(MAX_EV_FILE_SIZE / 1024)
  }

  function EvStateReply(h: ChifPktHeader): seq<byte> {
    EncodeHeader(ResponseHeader(h, 16)) + Le32(EV_SUCCESS) + Le32(1)
  }

  function AuthStatusReply(h: ChifPktHeader): seq<byte> {
    EncodeHeader(ResponseHeader(h, 132)) + Le32(EV_SUCCESS) + Le32(1) + [1, 1, 1] + Zeros(113)
  }

  function PlatDefReply(h: ChifPktHeader): seq<byte> {
    EncodeHeader(ResponseHeader(h, 4032)) + Le32(6) + Zeros(4020)
  }

  datatype I2cResult = I2cResult(err: nat, address: u16, segment: byte, data: seq<byte>)

  function I2cErrorFromErrno(e: Errno): nat {
    match e
    case ENXIO => 116
    case ETIMEDOUT => 105
    case OtherErrno => 101
  }

  function I2cTransfer(bus: map<byte, int>, p: seq<byte>, o: I2cOutcome): (res: I2cResult)
    ensures |res.data| <= 32
  {
    if |p| < 17 then I2cResult(101, 0, 0, [])
    else
      var address, segment, writeLen, readLen := U16At(p, 12), p[14], p[15], p[16];
      if writeLen == 0 && readLen == 0 then I2cResult(0, address, segment, [])
      else if writeLen > 32 || readLen > 32 then I2cResult(101, address, segment, [])
      else if segment !in bus then I2cResult(108, address, segment, [])
      else if o.OpenFailed? || writeLen > |p| - 17 then I2cResult(101, address, segment, [])
      else if o.IoctlFailed? then I2cResult(I2cErrorFromErrno(o.errno), address, segment, [])
      else I2cResult(0, address, segment, Window(o.readBuf, 0, readLen))
  }

  function I2cReply(h: ChifPktHeader, res: I2cResult): seq<byte>
    requires |res.data| <= 32
  {
    I2cBytes(EncodeHeader(ResponseHeader(h, 57)), Le32(res.err), Le16(res.address), res.segment, res.data)
  }

  // ----- Set, delete and delete all -----

  function DeleteNamed(s: Store, p: seq<byte>, o: SaveOutcome): (Store, nat) {
    if |p| < 36 then (s, EV_NO_SUCH_EV)
    else if p[35] != 0 then (s, EV_NAME_TOO_LONG)
    else
      var name := CStr(p[4..36]);
      (AfterDel(s, name, o),
       if Find(s.entries, name).Some? && o.Saved? then EV_SUCCESS else EV_DEVICE_ERROR)
  }

  // Setting a name to zero bytes deletes it, and always reports success.
  function SetNamed(s: Store, p: seq<byte>, o: SaveOutcome): (Store, nat) {
    if |p| < 38 then (s, EV_NO_SUCH_EV)
    else
      var name, len := CStr(p[4..35]), U16At(p, 36);
      if len > MAX_EV_DATA_SIZE then (s, EV_DATA_TOO_LARGE)
      else if len == 0 then (AfterDel(s, name, o), EV_SUCCESS)
      else if |p| < 38 + len then (s, EV_NO_SUCH_EV)
      else
        var data := p[38..38 + len];
        (AfterSet(s, name, data, o),
         if SetAccepted(s.entries, name, data) && o.Saved? then EV_SUCCESS else EV_NAME_TOO_LONG)
  }

  function SetDelete(s: Store, p: seq<byte>, o: SaveOutcome): (Store, nat) {
    if |p| < 4 then (s, EV_NO_SUCH_EV)
    else if FlagDeleteAll(p[0]) then
      (AfterDeleteAll(s, o), if o.Saved? then EV_SUCCESS else EV_NAME_TOO_LONG)
    else if FlagDelete(p[0]) then DeleteNamed(s, p, o)
    else if FlagSet(p[0]) then SetNamed(s, p, o)
    else (s, EV_UNSUPPORTED)
  }

  // ----- Lookups -----

  function GetByIndexReply(h: ChifPktHeader, sto: Option<Store>, p: seq<byte>, cap: nat): seq<byte>
    requires sto.Some? ==> InLimits(sto.value.entries)
  {
    if sto.None? || |p| < 4 then SimpleReply(h, EV_DEVICE_ERROR)
    else
      var index := U32At(p, 0);
      if index >= |sto.value.entries| then SimpleReply(h, EV_NO_SUCH_EV)
      else FoundReply(h, sto.value.entries[index], cap)
  }

  function GetByNameReply(h: ChifPktHeader, sto: Option<Store>, p: seq<byte>, cap: nat): seq<byte>
    requires sto.Some? ==> InLimits(sto.value.entries)
  {
    if |p| < MAX_EV_NAME_LEN then SimpleReply(h, EV_NO_SUCH_EV)
    else if sto.None? then SimpleReply(h, EV_DEVICE_ERROR)
    else if p[MAX_EV_NAME_LEN - 1] != 0 then SimpleReply(h, EV_NAME_TOO_LONG)
    else
      match Find(sto.value.entries, CStr(p[..MAX_EV_NAME_LEN - 1]))
      case None => SimpleReply(h, EV_NO_SUCH_EV)
      case Some(i) => FoundReply(h, sto.value.entries[i], cap)
  }

  function FoundReply(h: ChifPktHeader, e: EvEntry, cap: nat): seq<byte>
    requires EntryInLimits(e)
  {
    if cap < 46 + EvDataSize(e) then SimpleReply(h, 3) else EvDataReply(h, e)
  }

  // ----- Dispatch -----

  // The answer to a request given a response buffer of `cap` bytes; None is "no response".
  function SmifReply(sto: Option<Store>, bus: map<byte, int>, req: seq<byte>, env: SmifEnv, cap: nat)
    : Option<seq<byte>>
    requires sto.Some? ==> InLimits(sto.value.entries)
  {
    if |req| < HEADER_LEN || cap < 12 then None
    else
      var h, p := ParseHeader(req), Payload(req);
      if h.command == CMD_GET_EV_BY_INDEX then Some(GetByIndexReply(h, sto, p, cap))
      else if h.command == CMD_SET_DELETE_EV then
        Some(SimpleReply(h, if sto.Some? then SetDelete(sto.value, p, env.save).1 else EV_NO_SUCH_EV))
      else if h.command == CMD_GET_EV_BY_NAME then Some(GetByNameReply(h, sto, p, cap))
      else if h.command == CMD_EV_STATS then
        if cap < 20 then None else Some(EvStatsReply(h, sto))
      else if h.command == CMD_EV_STATE then
        if cap < 16 then None else Some(EvStateReply(h))
      else if h.command == CMD_GET_EV_AUTH_STATUS then
        if cap < 132 then None else Some(AuthStatusReply(h))
      else if h.command == CMD_I2C_TRANSACTION then
        if cap < 57 then None else Some(I2cReply(h, I2cTransfer(bus, p, env.i2c)))
      else if h.command == CMD_PLATDEF_UPLOAD then
        Some(if cap < 4032 then SimpleReply(h, 1) else PlatDefReply(h))
      else Some(SimpleReply(h, EV_SUCCESS))
  }

  function SmifNext(s: Store, req: seq<byte>, o: SaveOutcome, cap: nat): Store {
    if |req| < HEADER_LEN || cap < 12 || ParseHeader(req).command != CMD_SET_DELETE_EV then s
    else SetDelete(s, Payload(req), o).0
  }

  // ----- In-place writes, as layouts -----

  // Four writes, later ones on top.
  lemma FourSplices(s: seq<byte>, o0: nat, b0: seq<byte>, o1: nat, b1: seq<byte>,
                    o2: nat, b2: seq<byte>, o3: nat, b3: seq<byte>) returns (r: seq<byte>)
    requires o0 + |b0| <= |s| && o1 + |b1| <= |s| && o2 + |b2| <= |s| && o3 + |b3| <= |s|
    ensures r == Splice(Splice(Splice(Splice(s, o0, b0), o1, b1), o2, b2), o3, b3)
    ensures forall i :: 0 <= i < |s| ==>
      r[i] == if o3 <= i < o3 + |b3| then b3[i - o3]
              else if o2 <= i < o2 + |b2| then b2[i - o2]
              else if o1 <= i < o1 + |b1| then b1[i - o1]
              else if o0 <= i < o0 + |b0| then b0[i - o0]
              else s[i]
  {
    hide Splice;
    var t0 := Splice(s, o0, b0);
    var t1 := Splice(t0, o1, b1);
    var t2 := Splice(t1, o2, b2);
    SpliceIndex(s, o0, b0);
    SpliceIndex(t0, o1, b1);
    SpliceIndex(t1, o2, b2);
    SpliceIndex(t2, o3, b3);
    r := Splice(t2, o3, b3);
  }

  // The fields that buildEvDataResponse writes into a zeroed buffer, side by side.
  lemma EvDataLayout(s: seq<byte>, hdr: seq<byte>, name: seq<byte>, len: seq<byte>, data: seq<byte>, n: nat)
    requires |hdr| == 8 && |name| < 32 && |len| == 2
    requires n == 46 + (if data == [] then 4 else |data|) && n <= |s|
    ensures var s1 := Splice(Splice(Splice(Splice(s, 0, Zeros(n)), 0, hdr), 12, name), 44, len);
            (if data == [] then s1 else Splice(s1, 46, data))
            == hdr + Zeros(4) + (name + Zeros(32 - |name|)) + len + (if data == [] then Zeros(4) else data) + s[n..]
  {
    hide Zeros, Splice;
    var s1 := FourSplices(s, 0, Zeros(n), 0, hdr, 12, name, 44, len);
    assert s1 == hdr + Zeros(4) + (name + Zeros(32 - |name|)) + len + Zeros(n - 46) + s[n..];
    if data != [] {
      TailLayout(hdr + Zeros(4) + (name + Zeros(32 - |name|)) + len, Zeros(n - 46), s[n..], data);
    }
  }

  // Overwriting the middle of three pieces.
  lemma TailLayout(a: seq<byte>, b: seq<byte>, c: seq<byte>, b': seq<byte>)
    requires |b| == |b'|
    ensures Splice(a + b + c, |a|, b') == a + b' + c
  {
  }

  // A zeroed buffer with a header and one more field written into it.
  lemma FieldLayout(s: seq<byte>, hdr: seq<byte>, off: nat, field: seq<byte>, n: nat)
    requires |hdr| == 8 <= off && off + |field| <= n <= |s|
    ensures Splice(Splice(Splice(s, 0, Zeros(n)), 0, hdr), off, field)
            == hdr + Zeros(off - 8) + field + Zeros(n - off - |field|) + s[n..]
  {
    hide Zeros;
  }

  lemma EvStatsLayout(s: seq<byte>, hdr: seq<byte>, rem: seq<byte>, count: seq<byte>, max: seq<byte>)
    requires |hdr| == 8 && |rem| == 4 && |count| == 2 && |max| == 2 && |s| >= 20
    ensures Splice(Splice(Splice(Splice(Splice(s, 0, Zeros(20)), 0, hdr), 12, rem), 16, count), 18, max)
            == hdr + Zeros(4) + rem + count + max + s[20..]
  {
    hide Zeros, Splice;
    var s1 := FourSplices(s, 0, Zeros(20), 0, hdr, 12, rem, 16, count);
    SpliceIndex(s1, 18, max);
  }

  function I2cBytes(hdr: seq<byte>, err: seq<byte>, address: seq<byte>, segment: byte, data: seq<byte>): (b: seq<byte>)
    requires |hdr| == 8 && |err| == 4 && |address| == 2 && |data| <= 32
    ensures |b| == 57
  {
    hdr + err + Zeros(8) + address + [segment, 0, |data|] + data + Zeros(32 - |data|)
  }

  lemma I2cLayout(s: seq<byte>, hdr: seq<byte>, address: seq<byte>, segment: byte)
    requires |hdr| == 8 && |address| == 2 && |s| >= 57
    ensures var s1 := Splice(Splice(s, 0, Zeros(57)), 0, hdr);
            && Splice(Splice(s1, 20, address), 22, [segment]) == I2cBytes(hdr, Zeros(4), address, segment, []) + s[57..]
            && s1 == I2cBytes(hdr, Zeros(4), Zeros(2), 0, []) + s[57..]
  {
    hide Zeros, Splice;
    var _ := FourSplices(s, 0, Zeros(57), 0, hdr, 20, address, 22, [segment]);
    SpliceIndex(s, 0, Zeros(57));
    SpliceIndex(Splice(s, 0, Zeros(57)), 0, hdr);
  }

  lemma I2cErrorLayout(tail: seq<byte>, hdr: seq<byte>, address: seq<byte>, segment: byte, err: seq<byte>)
    requires |hdr| == 8 && |address| == 2 && |err| == 4
    ensures Splice(I2cBytes(hdr, Zeros(4), address, segment, []) + tail, 8, err)
            == I2cBytes(hdr, err, address, segment, []) + tail
  {
    hide Zeros, Splice;
    var back := Zeros(8) + address + [segment, 0, 0] + Zeros(32) + tail;
    assert I2cBytes(hdr, Zeros(4), address, segment, []) + tail == hdr + Zeros(4) + back;
    TailLayout(hdr, Zeros(4), back, err);
    assert I2cBytes(hdr, err, address, segment, []) + tail == hdr + err + back;
  }

  lemma I2cDataLayout(tail: seq<byte>, hdr: seq<byte>, address: seq<byte>, segment: byte, data: seq<byte>)
    requires |hdr| == 8 && |address| == 2 && |data| <= 32
    ensures Splice(Splice(I2cBytes(hdr, Zeros(4), address, segment, []) + tail, 24, [|data|]), 25, data)
            == I2cBytes(hdr, Zeros(4), address, segment, data) + tail
  {
    hide Zeros, Splice;
    var front := hdr + Zeros(4) + Zeros(8) + address + [segment, 0];
    var n := |data|;
    assert Zeros(32) == Zeros(n) + Zeros(32 - n);
    assert I2cBytes(hdr, Zeros(4), address, segment, []) + tail == front + [0] + (Zeros(32) + tail);
    TailLayout(front, [0], Zeros(32) + tail, [n]);
    assert front + [n] + (Zeros(32) + tail) == (front + [n]) + Zeros(n) + (Zeros(32 - n) + tail);
    TailLayout(front + [n], Zeros(n), Zeros(32 - n) + tail, data);
    assert I2cBytes(hdr, Zeros(4), address, segment, data) + tail
        == (front + [n]) + data + (Zeros(32 - n) + tail);
  }

  lemma EvStatsFields(h: ChifPktHeader, sto: Option<Store>, remaining: nat, count: nat)
    requires match sto
             case None => remaining == 0 && count == 0
             case Some(s) => remaining + SerializedSize(s.entries) == MAX_EV_FILE_SIZE && count == |s.entries|
    ensures EvStatsReply(h, sto)
            == EncodeHeader(ResponseHeader(h, 20)) + Le32(EV_SUCCESS) + Le32(remaining) + Le16(count)
               + Le16(MAX_EV_FILE_SIZE / 1024)
    ensures |EvStatsReply(h, sto)| == 20
  {
    hide EncodeHeader, Le32, Le16, EntriesSize;
  }

  lemma InLimitsCount(es: seq<EvEntry>)
    requires InLimits(es)
    ensures |es| <= 1927
  {
    CountBound(es);
  }

  lemma ZeroFields()
    ensures Le32(0) == Zeros(4) && Le16(0) == Zeros(2)
  {
  }

  // ----- The service -----

  class SmifService {
    const evStorage: EvStorage?
    const segmentToBus: map<byte, int>

    constructor (evStorage: EvStorage?, segmentToBus: map<byte, int>)
      ensures this.evStorage == evStorage && this.segmentToBus == segmentToBus
    {
      this.evStorage := evStorage;
      this.segmentToBus := segmentToBus;
    }

    ghost predicate Valid()
      reads evStorage
    {
      evStorage != null ==> evStorage.Valid()
    }

    function StoreNow(): (s: Option<Store>)
      reads evStorage
      ensures s.Some? && Valid() ==> InLimits(s.value.entries)
    {
      if evStorage == null then None else Some(evStorage.State())
    }

    static method BuildSimpleResponse(h: ChifPktHeader, response: array<byte>, err: nat) returns (r: int)
      modifies response
      ensures Answered(old(response[..]), response[..], r,
                       if response.Length < 12 then None else Some(SimpleReply(h, err)))
    {
      if response.Length < 12 {
        return -1;
      }
      InitResponse(response, h, 12);
      CopyInto(response, 8, Le32(err));
      r := 12;
    }

    static method BuildEvDataResponse(h: ChifPktHeader, response: array<byte>, ev: EvEntry) returns (r: int)
      requires EntryInLimits(ev) && response.Length >= 12
      modifies response
      ensures Answered(old(response[..]), response[..], r, Some(FoundReply(h, ev, response.Length)))
    {
      var dataSize := if ev.data == [] then 4 else |ev.data|;
      var respSize := HEADER_LEN + 4 + MAX_EV_NAME_LEN + 2 + dataSize;
      if response.Length < respSize {
        r := BuildSimpleResponse(h, response, 3);
        return;
      }
      FillEvData(h, response, ev, dataSize);
      r := respSize;
    }

    // The writes of buildEvDataResponse, once the buffer is known to be large enough.
    static method FillEvData(h: ChifPktHeader, response: array<byte>, ev: EvEntry, dataSize: nat)
      requires EntryInLimits(ev) && dataSize == EvDataSize(ev) && response.Length >= 46 + dataSize
      modifies response
      ensures response[..] == EvDataReply(h, ev) + old(response[46 + dataSize..])
    {
      hide EncodeHeader, ResponseHeader, Le16, Le32, Zeros, Splice;
      var respSize := 46 + dataSize;
      ghost var hdr := EncodeHeader(ResponseHeader(h, respSize));
      ZeroFields();
      EvDataLayout(response[..], hdr, ev.name, Le16(dataSize), ev.data, respSize);
      FillZero(response, respSize);
      InitResponse(response, h, respSize);
      var nameLen := Min(|ev.name|, MAX_EV_NAME_LEN - 1);
      assert ev.name[..nameLen] == ev.name;
      CopyInto(response, 12, ev.name[..nameLen]);
      CopyInto(response, 44, Le16(dataSize));
      if ev.data != [] {
        CopyInto(response, 46, ev.data);
      }
    }

    method HandleGetEvByIndex(h: ChifPktHeader, p: seq<byte>, response: array<byte>) returns (r: int)
      requires Valid() && response.Length >= 12
      modifies response
      ensures Answered(old(response[..]), response[..], r,
                       Some(GetByIndexReply(h, StoreNow(), p, response.Length)))
    {
      if evStorage == null || |p| < 4 {
        r := BuildSimpleResponse(h, response, EV_DEVICE_ERROR);
        return;
      }
      var index := U32At(p, 0);
      var entry := evStorage.GetByIndex(index);
      if entry.None? {
        r := BuildSimpleResponse(h, response, EV_NO_SUCH_EV);
        return;
      }
      r := BuildEvDataResponse(h, response, entry.value);
    }

    method HandleSetDeleteEv(h: ChifPktHeader, p: seq<byte>, response: array<byte>, o: SaveOutcome)
      returns (r: int)
      requires Valid() && response.Length >= 12
      modifies response, evStorage
      ensures Valid()
      ensures evStorage != null ==> evStorage.State() == SetDelete(old(StoreNow()).value, p, o).0
      ensures Answered(old(response[..]), response[..], r,
                       Some(SimpleReply(h, if evStorage == null then EV_NO_SUCH_EV
                                           else SetDelete(old(StoreNow()).value, p, o).1)))
    {
      hide SetDelete, SimpleReply;
      var err := EV_NO_SUCH_EV;
      if evStorage != null {
        err := ApplySetDelete(evStorage, p, o);
      }
      r := BuildSimpleResponse(h, response, err);
    }

    // The branches of handleSetDeleteEv, each with the error code it answers.
    static method ApplySetDelete(store: EvStorage, p: seq<byte>, o: SaveOutcome) returns (err: nat)
      requires store.Valid()
      modifies store
      ensures store.Valid()
      ensures (store.State(), err) == SetDelete(old(store.State()), p, o)
    {
      hide AfterSet, AfterDel, AfterDeleteAll, SetAccepted, CStr, U16At, InLimits, Find;
      if |p| < 4 {
        return EV_NO_SUCH_EV;
      }
      var flags := p[0];
      if FlagDeleteAll(flags) {
        var ok := store.DeleteAll(o);
        return if ok then EV_SUCCESS else EV_NAME_TOO_LONG;
      }
      if FlagDelete(flags) {
        if |p| < 4 + MAX_EV_NAME_LEN {
          return EV_NO_SUCH_EV;
        }
        var nameRegion := p[4..4 + MAX_EV_NAME_LEN];
        if nameRegion[MAX_EV_NAME_LEN - 1] != 0 {
          return EV_NAME_TOO_LONG;
        }
        var ok := store.Del(CStr(nameRegion), o);
        return if ok then EV_SUCCESS else EV_DEVICE_ERROR;
      }
      if FlagSet(flags) {
        var minSetPayload := 4 + MAX_EV_NAME_LEN + 2;
        if |p| < minSetPayload {
          return EV_NO_SUCH_EV;
        }
        var nameBuf := p[4..4 + MAX_EV_NAME_LEN - 1] + [0];
        CStrTerminated(p[4..4 + MAX_EV_NAME_LEN - 1]);
        var dataLen := U16At(p, 4 + MAX_EV_NAME_LEN);
        if dataLen > MAX_EV_DATA_SIZE {
          return EV_DATA_TOO_LARGE;
        }
        if dataLen == 0 {
          var _ := store.Del(CStr(nameBuf), o);
          return EV_SUCCESS;
        }
        if |p| < minSetPayload + dataLen {
          return EV_NO_SUCH_EV;
        }
        var data := p[minSetPayload..minSetPayload + dataLen];
        var ok := store.Set(CStr(nameBuf), data, o);
        return if ok then EV_SUCCESS else EV_NAME_TOO_LONG;
      }
      err := EV_UNSUPPORTED;
    }

    method HandleGetEvByName(h: ChifPktHeader, p: seq<byte>, response: array<byte>) returns (r: int)
      requires Valid() && response.Length >= 12
      modifies response
      ensures Answered(old(response[..]), response[..], r,
                       Some(GetByNameReply(h, StoreNow(), p, response.Length)))
    {
      if |p| < MAX_EV_NAME_LEN {
        r := BuildSimpleResponse(h, response, EV_NO_SUCH_EV);
        return;
      }
      if evStorage == null {
        r := BuildSimpleResponse(h, response, EV_DEVICE_ERROR);
        return;
      }
      if p[MAX_EV_NAME_LEN - 1] != 0 {
        r := BuildSimpleResponse(h, response, EV_NAME_TOO_LONG);
        return;
      }
      var nameBuf := p[..MAX_EV_NAME_LEN - 1] + [0];
      CStrTerminated(p[..MAX_EV_NAME_LEN - 1]);
      var entry := evStorage.GetByName(CStr(nameBuf));
      if entry.None? {
        r := BuildSimpleResponse(h, response, EV_NO_SUCH_EV);
        return;
      }
      r := BuildEvDataResponse(h, response, entry.value);
    }

    method HandleEvStats(h: ChifPktHeader, response: array<byte>) returns (r: int)
      requires Valid()
      modifies response
      ensures Answered(old(response[..]), response[..], r,
                       if response.Length < 20 then None else Some(EvStatsReply(h, StoreNow())))
    {
      hide EncodeHeader, ResponseHeader, Le16, Le32, Zeros, Splice, EntriesSize, EvStatsReply, InLimits;
      if response.Length < 20 {
        return -1;
      }
      var remaining := 0;
      var count := 0;
      if evStorage != null {
        remaining := evStorage.RemainingSize();
        assert |evStorage.entries| <= 1927 by { InLimitsCount(evStorage.entries); }
        count := evStorage.Count();
      }
      EvStatsFields(h, StoreNow(), remaining, count);
      ZeroFields();
      EvStatsLayout(response[..], EncodeHeader(ResponseHeader(h, 20)), Le32(remaining), Le16(count),
                    Le16(MAX_EV_FILE_SIZE / 1024));
      FillZero(response, 20);
      InitResponse(response, h, 20);
      CopyInto(response, 12, Le32(remaining));
      CopyInto(response, 16, Le16(count));
      CopyInto(response, 18, Le16(MAX_EV_FILE_SIZE / 1024));
      r := 20;
    }

    static method HandleEvState(h: ChifPktHeader, response: array<byte>) returns (r: int)
      modifies response
      ensures Answered(old(response[..]), response[..], r,
                       if response.Length < 16 then None else Some(EvStateReply(h)))
    {
      if response.Length < 16 {
        return -1;
      }
      hide EncodeHeader, ResponseHeader, Le32, Zeros, Splice;
      ZeroFields();
      FieldLayout(response[..], EncodeHeader(ResponseHeader(h, 16)), 12, Le32(1), 16);
      FillZero(response, 16);
      InitResponse(response, h, 16);
      CopyInto(response, 12, Le32(1));
      r := 16;
    }

    static method HandleGetEvAuthStatus(h: ChifPktHeader, response: array<byte>) returns (r: int)
      modifies response
      ensures Answered(old(response[..]), response[..], r,
                       if response.Length < 132 then None else Some(AuthStatusReply(h)))
    {
      if response.Length < 132 {
        return -1;
      }
      hide EncodeHeader, ResponseHeader, Le32, Zeros, Splice;
      ghost var hdr := EncodeHeader(ResponseHeader(h, 132));
      ghost var tail := response[132..];
      ZeroFields();
      FieldLayout(response[..], hdr, 12, Le32(1), 132);
      FillZero(response, 132);
      InitResponse(response, h, 132);
      CopyInto(response, 12, Le32(1));
      assert Zeros(116) == Zeros(3) + Zeros(113);
      assert response[..] == (hdr + Zeros(4) + Le32(1)) + Zeros(3) + (Zeros(113) + tail);
      TailLayout(hdr + Zeros(4) + Le32(1), Zeros(3), Zeros(113) + tail, [1, 1, 1]);
      CopyInto(response, 16, [1, 1, 1]);
      r := 132;
      assert response[..] == AuthStatusReply(h) + tail;
    }

    static method HandlePlatDefDownload(h: ChifPktHeader, response: array<byte>) returns (r: int)
      requires response.Length >= 12
      modifies response
      ensures Answered(old(response[..]), response[..], r,
                       Some(if response.Length < 4032 then SimpleReply(h, 1) else PlatDefReply(h)))
    {
      if response.Length < 4032 {
        r := BuildSimpleResponse(h, response, 1);
        return;
      }
      hide EncodeHeader, ResponseHeader, Le32, Zeros, Splice, SimpleReply;
      FieldLayout(response[..], EncodeHeader(ResponseHeader(h, 4032)), 8, Le32(6), 4032);
      assert Zeros(0) == [];
      FillZero(response, 4032);
      InitResponse(response, h, 4032);
      CopyInto(response, 8, Le32(6));
      r := 4032;
      assert response[..] == PlatDefReply(h) + old(response[4032..]);
    }

    method HandleI2cProxy(h: ChifPktHeader, p: seq<byte>, response: array<byte>, o: I2cOutcome)
      returns (r: int)
      modifies response
      ensures Answered(old(response[..]), response[..], r,
                       if response.Length < 57 then None
                       else Some(I2cReply(h, I2cTransfer(segmentToBus, p, o))))
    {
      if response.Length < 57 {
        return -1;
      }
      hide EncodeHeader, ResponseHeader, Le16, Le32, Zeros, Splice, U16At, Window, I2cBytes;
      ghost var hdr, tail := EncodeHeader(ResponseHeader(h, 57)), response[57..];
      ghost var before := response[..];
      ZeroFields();
      FillZero(response, 57);
      InitResponse(response, h, 57);
      r := 57;
      if |p| < 17 {
        I2cLayout(before, hdr, Zeros(2), 0);
        I2cErrorLayout(tail, hdr, Zeros(2), 0, Le32(101));
        CopyInto(response, 8, Le32(101));
        return;
      }
      var address, segment, writeLen, readLen := U16At(p, 12), p[14], p[15], p[16];
      CopyInto(response, 20, Le16(address));
      CopyInto(response, 22, [segment]);
      I2cLayout(before, hdr, Le16(address), segment);
      assert response[..] == I2cBytes(hdr, Zeros(4), Le16(address), segment, []) + tail;
      if writeLen == 0 && readLen == 0 {
        return;
      }
      var err := 0;
      if writeLen > 32 || readLen > 32 {
        err := 101;
      } else if segment !in segmentToBus {
        err := 108;
      } else if o.OpenFailed? {
        err := 101;
      } else if writeLen > 0 && writeLen > |p| - 17 {
        err := 101;
      } else if o.IoctlFailed? {
        err := I2cErrorFromErrno(o.errno);
      }
      if err != 0 {
        I2cErrorLayout(tail, hdr, Le16(address), segment, Le32(err));
        CopyInto(response, 8, Le32(err));
        return;
      }
      var readBuf := Window(o.readBuf, 0, readLen);
      I2cDataLayout(tail, hdr, Le16(address), segment, readBuf);
      CopyInto(response, 24, [readLen]);
      CopyInto(response, 25, readBuf);
    }

    method Handle(request: seq<byte>, response: array<byte>, env: SmifEnv) returns (r: int)
      requires Valid()
      modifies response, evStorage
      ensures Valid()
      ensures evStorage != null ==>
        evStorage.State() == SmifNext(old(StoreNow()).value, request, env.save, response.Length)
      ensures Answered(old(response[..]), response[..], r,
                       SmifReply(old(StoreNow()), segmentToBus, request, env, response.Length))
    {
      if |request| < HEADER_LEN {
        return -1;
      }
      if response.Length < 12 {
        return -1;
      }
      var h := ParseHeader(request);
      var p := Payload(request);
      match h.command {
        case 0x012B => r := HandleGetEvByIndex(h, p, response);
        case 0x012C => r := HandleSetDeleteEv(h, p, response, env.save);
        case 0x0130 => r := HandleGetEvByName(h, p, response);
        case 0x0132 => r := HandleEvStats(h, response);
        case 0x0133 => r := HandleEvState(h, response);
        case 0x012D => r := HandleGetEvAuthStatus(h, response);
        case 0x0072 => r := HandleI2cProxy(h, p, response, env.i2c);
        case 0x0200 => r := HandlePlatDefDownload(h, response);
        case _ => r := BuildSimpleResponse(h, response, 0);
      }
    }
  }
}
