/** The 8-byte CHIF packet header and the views of a packet behind it. */
module Packet {
  import opened Bytes

  const HEADER_LEN: nat := 8
  const MAX_PACKET_SIZE: nat := 4096
  const RESPONSE_BIT: nat := 0x8000

  const SMIF_SERVICE_ID: byte := 0x00
  const ROM_SERVICE_ID: byte := 0x02
  const HEALTH_SERVICE_ID: byte := 0x10

  datatype ChifPktHeader = ChifPktHeader(
    pktSize: u16, sequence: u16, command: u16, serviceId: byte, version: byte)

  function EncodeHeader(h: ChifPktHeader): (s: seq<byte>)
    ensures |s| == HEADER_LEN
  {
    Le16(h.pktSize) + Le16(h.sequence) + Le16(h.command) + [h.serviceId, h.version]
  }

  function ParseHeader(buf: seq<byte>): ChifPktHeader
    requires |buf| >= HEADER_LEN
  {
    ChifPktHeader(U16At(buf, 0), U16At(buf, 2), U16At(buf, 4), buf[6], buf[7])
  }

  function Payload(pkt: seq<byte>): seq<byte> {
    if |pkt| <= HEADER_LEN then [] else pkt[HEADER_LEN..]
  }

  // command | 0x8000
  function SetResponseBit(command: u16): u16 {
    if command < RESPONSE_BIT then command + RESPONSE_BIT else command
  }

  function ResponseHeader(req: ChifPktHeader, size: u16): ChifPktHeader {
    req.(pktSize := size, command := SetResponseBit(req.command))
  }

  // ROM responses echo the command unchanged.
  function RomResponseHeader(req: ChifPktHeader, size: u16): ChifPktHeader {
    req.(pktSize := size)
  }

  /** Parsing undoes encoding, whatever follows the header. */
  lemma HeaderRoundTrip(h: ChifPktHeader, rest: seq<byte>)
    ensures ParseHeader(EncodeHeader(h) + rest) == h
    ensures Payload(EncodeHeader(h) + rest) == rest
  {
    var s := EncodeHeader(h) + rest;
    var a, b, c := Le16(h.pktSize), Le16(h.sequence), Le16(h.command);
    assert s[0] == a[0] && s[1] == a[1] && s[2] == b[0] && s[3] == b[1] && s[4] == c[0] && s[5] == c[1];
  }

  /** Where each field of a header lies: a number stored at offset 0, 2 or 4 is one field and no other. */
  lemma FieldPlaces(p: seq<byte>, v: u16, q: seq<byte>)
    requires |p| + 2 + |q| >= HEADER_LEN
    ensures var buf := p + Le16(v) + q;
            var h := ParseHeader(buf);
            && (|p| == 0 ==> h.pktSize == v) && (|p| == 2 ==> h.sequence == v) && (|p| == 4 ==> h.command == v)
            && h.serviceId == buf[6] && h.version == buf[7]
  {
    hide U16At, Le16;
    Le16At(p, v, q);
  }

  // The same of the bytes of a header, and of any buffer that starts with them.
  lemma EncodedPlaces(h: ChifPktHeader, rest: seq<byte>)
    ensures var buf := EncodeHeader(h) + rest;
            && U16At(buf, 0) == h.pktSize && U16At(buf, 2) == h.sequence && U16At(buf, 4) == h.command
            && buf[6] == h.serviceId && buf[7] == h.version
  {
    hide U16At, Le16;
    var buf := EncodeHeader(h) + rest;
    var size, seqNo, cmd, tail := Le16(h.pktSize), Le16(h.sequence), Le16(h.command), [h.serviceId, h.version] + rest;
    assert buf == [] + size + (seqNo + cmd + tail) == size + seqNo + (cmd + tail) == (size + seqNo) + cmd + tail;
    Le16At([], h.pktSize, seqNo + cmd + tail);
    Le16At(size, h.sequence, cmd + tail);
    Le16At(size + seqNo, h.command, tail);
  }

  // A buffer whose first bytes were overwritten by a header.
  lemma SplicedPlaces(buf: seq<byte>, h: ChifPktHeader)
    requires |buf| >= HEADER_LEN
    ensures var out := Splice(buf, 0, EncodeHeader(h));
            && U16At(out, 0) == h.pktSize && U16At(out, 2) == h.sequence && U16At(out, 4) == h.command
            && out[6] == h.serviceId && out[7] == h.version && out[8..] == buf[8..]
  {
    hide EncodeHeader, U16At;
    EncodedPlaces(h, buf[8..]);
    assert Splice(buf, 0, EncodeHeader(h)) == EncodeHeader(h) + buf[8..];
  }

  method InitResponse(resp: array<byte>, req: ChifPktHeader, size: u16)
    requires resp.Length >= HEADER_LEN
    modifies resp
    ensures resp[..] == Splice(old(resp[..]), 0, EncodeHeader(ResponseHeader(req, size)))
    ensures U16At(resp[..], 0) == size && U16At(resp[..], 2) == req.sequence
    ensures U16At(resp[..], 4) == if req.command < 0x8000 then req.command + 0x8000 else req.command
    ensures resp[6] == req.serviceId && resp[7] == req.version && resp[8..] == old(resp[8..])
  {
    hide EncodeHeader, U16At, Splice;
    SplicedPlaces(resp[..], ResponseHeader(req, size));
    CopyInto(resp, 0, EncodeHeader(ResponseHeader(req, size)));
  }

  method InitRomResponse(resp: array<byte>, req: ChifPktHeader, size: u16)
    requires resp.Length >= HEADER_LEN
    modifies resp
    ensures resp[..] == Splice(old(resp[..]), 0, EncodeHeader(RomResponseHeader(req, size)))
    ensures U16At(resp[..], 0) == size && U16At(resp[..], 2) == req.sequence && U16At(resp[..], 4) == req.command
    ensures resp[6] == req.serviceId && resp[7] == req.version && resp[8..] == old(resp[8..])
  {
    hide EncodeHeader, U16At, Splice;
    SplicedPlaces(resp[..], RomResponseHeader(req, size));
    CopyInto(resp, 0, EncodeHeader(RomResponseHeader(req, size)));
  }

  // A handler's answer at the front of the buffer, with the rest of the buffer as it was.
  predicate Answered(before: seq<byte>, after: seq<byte>, r: int, reply: Option<seq<byte>>) {
    match reply
    case None => r == -1 && after == before
    case Some(bytes) => r == |bytes| && |bytes| <= |before| && after == bytes + before[|bytes|..]
  }
}
