/**
`extractFfsFile`: the scan of a flash image for firmware volumes (UEFI PI Specification, Volume 3,
section 3.2) and of a volume for a file. Offsets are unbounded integers.
*/
module UefiFv {
  import opened Bytes
  import opened Streams

  const FV_HEADER_SIZE: nat := 56
  const FV_EXT_HEADER_SIZE: nat := 20
  const FFS_HEADER_SIZE: nat := 24
  const FV_ALIGNMENT: nat := 0x10000

  const FVH_SIGNATURE: u32 := 0x4856465F
  const FILE_TYPE_FREEFORM: byte := 0x02
  const SECTION_RAW: byte := 0x19
  const SECTION_GUID_DEFINED: byte := 0x02
  const GUID_SECTION_HEADER_SIZE: nat := 20

  const FFS2_GUID: seq<byte> :=
    [0x78, 0xE5, 0x8C, 0x8C, 0x3D, 0x8A, 0x1C, 0x4F, 0x99, 0x35, 0x89, 0x61, 0x85, 0xC3, 0x2D, 0xD3]

  predicate GuidIsAllFf(g: seq<byte>) {
    |g| == 16 && forall i :: 0 <= i < 16 ==> g[i] == 0xFF
  }

  // ----- Header fields -----

  datatype FvHeader = FvHeader(fileSystem: seq<byte>, fvLength: nat, signature: u32, extHeaderOffset: u16)

  function FvHeaderOf(buf: seq<byte>): FvHeader
    requires |buf| == FV_HEADER_SIZE
  {
    FvHeader(buf[16..32], U64At(buf, 32), U32At(buf, 40), U16At(buf, 52))
  }

  datatype FfsHeader = FfsHeader(name: seq<byte>, fileType: byte, attributes: byte, size: nat)

  // ffsFileSize: a 24-bit little-endian number.
  function FfsHeaderOf(buf: seq<byte>): FfsHeader
    requires |buf| == FFS_HEADER_SIZE
  {
    FfsHeader(buf[..16], buf[18], buf[19],
              buf[20] as int + 0x100 * (buf[21] as int) + 0x1_0000 * (buf[22] as int))
  }

  /** Where the fields of a volume header lie, for all contents of the header. */
  lemma VolumeHeaderPlaces(zero: seq<byte>, fs: seq<byte>, length: nat, sig: u32, attributes: seq<byte>,
                           headerLength: seq<byte>, checksum: seq<byte>, ext: u16, tail: seq<byte>)
    requires |zero| == |fs| == 16 && length < 0x1_0000_0000_0000_0000
    requires |attributes| == 4 && |headerLength| == |checksum| == |tail| == 2
    ensures FvHeaderOf(zero + fs + (Le32(length) + Le32(length / 0x1_0000_0000)) + Le32(sig)
                       + attributes + headerLength + checksum + Le16(ext) + tail)
            == FvHeader(fs, length, sig, ext)
  {
    hide Le16, Le32, U16At, U32At;
    var lo, hi := Le32(length), Le32(length / 0x1_0000_0000);
    var mid := attributes + headerLength + checksum;
    var back := mid + Le16(ext) + tail;
    var h := zero + fs + (lo + hi) + Le32(sig) + attributes + headerLength + checksum + Le16(ext) + tail;
    var p := zero + fs;
    assert h == p + lo + (hi + Le32(sig) + back) == (p + lo) + hi + (Le32(sig) + back);
    assert h == (p + lo + hi) + Le32(sig) + back == (p + lo + hi + Le32(sig) + mid) + Le16(ext) + tail;
    Le32At(p, length, hi + Le32(sig) + back);
    Le32At(p + lo, length / 0x1_0000_0000, Le32(sig) + back);
    Le32At(p + lo + hi, sig, back);
    Le16At(p + lo + hi + Le32(sig) + mid, ext, tail);
    assert h[16..32] == fs;
  }

  /** Where the fields of a file header lie. */
  lemma FileHeaderPlaces(name: seq<byte>, check: seq<byte>, fileType: byte, attributes: byte,
                         s0: byte, s1: byte, s2: byte, state: byte)
    requires |name| == 16 && |check| == 2
    ensures FfsHeaderOf(name + check + [fileType, attributes, s0, s1, s2, state])
            == FfsHeader(name, fileType, attributes, s0 as int + 0x100 * s1 as int + 0x1_0000 * s2 as int)
  {
    var h := name + check + [fileType, attributes, s0, s1, s2, state];
    assert h[..16] == name;
  }

  /** The FFS2 GUID is {8C8CE578-8A3D-4F1C-9935-896185C32DD3}, and the signature spells _FVH. */
  lemma Spelled()
    ensures U32At(FFS2_GUID, 0) == 0x8C8CE578 && U16At(FFS2_GUID, 4) == 0x8A3D && U16At(FFS2_GUID, 6) == 0x4F1C
    ensures FFS2_GUID[8..] == [0x99, 0x35, 0x89, 0x61, 0x85, 0xC3, 0x2D, 0xD3]
    ensures Le32(FVH_SIGNATURE) == ['_' as int, 'F' as int, 'V' as int, 'H' as int]
  {
  }

  function Align8(n: nat): (m: nat)
    ensures n <= m < n + 8 && m % 8 == 0
    ensures n % 8 == 0 ==> m == n
  {
    if n % 8 != 0 then n - n % 8 + 8 else n
  }

  // The least positive multiple of 64 KiB that covers the length.
  predicate IsStep(fvLength: nat, step: int) {
    && step % FV_ALIGNMENT == 0 && step >= FV_ALIGNMENT && step >= fvLength
    && (step == FV_ALIGNMENT || step < fvLength + FV_ALIGNMENT)
  }

  // The distance to the next volume: the length rounded up to 64 KiB, and at least that.
  function VolumeStep(fvLength: nat): (step: nat)
    ensures IsStep(fvLength, step)
  {
    if fvLength == 0 then FV_ALIGNMENT
    else if fvLength % FV_ALIGNMENT != 0 then fvLength - fvLength % FV_ALIGNMENT + FV_ALIGNMENT
    else fvLength
  }

  // ----- The walk through one volume -----

  // Stop ends the whole extraction; Miss goes on to the next volume, if the stream still works.
  datatype WalkResult = Stop(data: seq<byte>) | Miss(good: bool)

  // What is extracted from a matching file whose contents start at off.
  function FilePayload(b: seq<byte>, h: FfsHeader, off: nat): WalkResult
    requires h.size >= FFS_HEADER_SIZE && off <= |b|
  {
    var size := h.size - FFS_HEADER_SIZE;
    if h.fileType == FILE_TYPE_FREEFORM && size > 4 then
      if off + 4 > |b| then Stop([])
      else if b[off + 3] == SECTION_RAW then Stop(Slice(b, off + 4, size - 4))
      else if b[off + 3] == SECTION_GUID_DEFINED then
        if size <= GUID_SECTION_HEADER_SIZE then Miss(true) else Stop(Slice(b, off + 20, size - 20))
      else Stop(Slice(b, off, size))
    else Stop(Slice(b, off, size))
  }

  // The n bytes at off, or nothing if the image ends before them.
  function Slice(b: seq<byte>, off: nat, n: nat): seq<byte> {
    if off + n <= |b| then b[off..off + n] else []
  }

  function WalkFiles(b: seq<byte>, off: nat, end: nat, fileGuid: seq<byte>): WalkResult
    decreases end - off
  {
    if off + FFS_HEADER_SIZE >= end then Miss(true)
    else
      var at := Align8(off);
      if at + FFS_HEADER_SIZE > |b| then Miss(false)
      else
        var h := FfsHeaderOf(b[at..at + FFS_HEADER_SIZE]);
        if GuidIsAllFf(h.name) || h.size < FFS_HEADER_SIZE then Miss(true)
        else if h.name == fileGuid && h.attributes % 2 == 0 then FilePayload(b, h, at + FFS_HEADER_SIZE)
        else WalkFiles(b, at + h.size, end, fileGuid)
  }

  // ----- The scan for volumes -----

  function ScanVolumes(b: seq<byte>, romSize: nat, off: nat, fvGuid: seq<byte>, fileGuid: seq<byte>): seq<byte>
    decreases romSize - off
  {
    if off + FV_HEADER_SIZE >= romSize || off + FV_HEADER_SIZE > |b| then []
    else
      var h := FvHeaderOf(b[off..off + FV_HEADER_SIZE]);
      var next := off + VolumeStep(h.fvLength);
      if h.signature != FVH_SIGNATURE then ScanVolumes(b, romSize, off + FV_ALIGNMENT, fvGuid, fileGuid)
      else if h.fileSystem != FFS2_GUID || h.extHeaderOffset == 0 then
        ScanVolumes(b, romSize, next, fvGuid, fileGuid)
      else
        var ext := off + h.extHeaderOffset;
        if ext + FV_EXT_HEADER_SIZE > |b| then []
        else if b[ext..ext + 16] != fvGuid then ScanVolumes(b, romSize, next, fvGuid, fileGuid)
        else
          match WalkFiles(b, ext + U32At(b, ext + 16), Min(off + h.fvLength, romSize), fileGuid)
          case Stop(data) => data
          case Miss(good) => if good then ScanVolumes(b, romSize, next, fvGuid, fileGuid) else []
  }

  // ----- The code -----

  // Unfolding one turn of each loop.
  lemma WalkStep(b: seq<byte>, off: nat, end: nat, fileGuid: seq<byte>)
    requires off + FFS_HEADER_SIZE < end && Align8(off) + FFS_HEADER_SIZE <= |b|
    ensures var at := Align8(off);
            var h := FfsHeaderOf(b[at..at + FFS_HEADER_SIZE]);
            WalkFiles(b, off, end, fileGuid) ==
            if GuidIsAllFf(h.name) || h.size < FFS_HEADER_SIZE then Miss(true)
            else if h.name == fileGuid && h.attributes % 2 == 0 then FilePayload(b, h, at + FFS_HEADER_SIZE)
            else WalkFiles(b, at + h.size, end, fileGuid)
  {
  }

  lemma WalkEnds(b: seq<byte>, off: nat, end: nat, fileGuid: seq<byte>)
    ensures off + FFS_HEADER_SIZE >= end ==> WalkFiles(b, off, end, fileGuid) == Miss(true)
    ensures off + FFS_HEADER_SIZE < end && Align8(off) + FFS_HEADER_SIZE > |b|
            ==> WalkFiles(b, off, end, fileGuid) == Miss(false)
  {
  }

  lemma ScanEnds(b: seq<byte>, romSize: nat, off: nat, fvGuid: seq<byte>, fileGuid: seq<byte>)
    requires off + FV_HEADER_SIZE >= romSize || off + FV_HEADER_SIZE > |b|
    ensures ScanVolumes(b, romSize, off, fvGuid, fileGuid) == []
  {
  }

  lemma ScanStep(b: seq<byte>, romSize: nat, off: nat, fvGuid: seq<byte>, fileGuid: seq<byte>)
    requires off + FV_HEADER_SIZE < romSize && off + FV_HEADER_SIZE <= |b|
    ensures var h := FvHeaderOf(b[off..off + FV_HEADER_SIZE]);
            var next := off + VolumeStep(h.fvLength);
            var ext := off + h.extHeaderOffset;
            ScanVolumes(b, romSize, off, fvGuid, fileGuid) ==
            if h.signature != FVH_SIGNATURE then ScanVolumes(b, romSize, off + FV_ALIGNMENT, fvGuid, fileGuid)
            else if h.fileSystem != FFS2_GUID || h.extHeaderOffset == 0 then
              ScanVolumes(b, romSize, next, fvGuid, fileGuid)
            else if ext + FV_EXT_HEADER_SIZE > |b| then []
            else if b[ext..ext + 16] != fvGuid then ScanVolumes(b, romSize, next, fvGuid, fileGuid)
            else
              match WalkFiles(b, ext + U32At(b, ext + 16), Min(off + h.fvLength, romSize), fileGuid)
              case Stop(data) => data
              case Miss(good) => if good then ScanVolumes(b, romSize, next, fvGuid, fileGuid) else []
  {
    hide FvHeaderOf, WalkFiles, VolumeStep, U32At;
  }

  // Reads the contents of a matching file; None where the loop breaks off.
  method ReadPayload(rom: InputStream, h: FfsHeader, off: nat) returns (data: Option<seq<byte>>)
    requires rom.good && h.size >= FFS_HEADER_SIZE && off <= |rom.data|
    modifies rom
    ensures match FilePayload(rom.data, h, off)
            case Stop(d) => data == Some(d)
            case Miss(_) => data == None && rom.good
  {
    var dataSize := h.size - FFS_HEADER_SIZE;
    var dataOffset := off;
    if h.fileType == FILE_TYPE_FREEFORM && dataSize > 4 {
      rom.Seek(dataOffset);
      var secHdr := rom.Read(4);
      if !rom.good {
        return Some([]);
      }
      if secHdr[3] == SECTION_RAW {
        dataOffset := dataOffset + 4;
        dataSize := dataSize - 4;
      } else if secHdr[3] == SECTION_GUID_DEFINED {
        if dataSize <= GUID_SECTION_HEADER_SIZE {
          return None;
        }
        dataOffset := dataOffset + GUID_SECTION_HEADER_SIZE;
        dataSize := dataSize - GUID_SECTION_HEADER_SIZE;
      }
    }
    rom.Seek(dataOffset);
    var bytes := rom.Read(dataSize);
    if !rom.good {
      return Some([]);
    }
    data := Some(bytes);
  }

  // The loop over FFS file entries; Miss carries the state of the stream afterwards.
  method WalkVolume(rom: InputStream, start: nat, fvEnd: nat, fileGuid: seq<byte>) returns (res: WalkResult)
    requires rom.good
    modifies rom
    ensures res == WalkFiles(rom.data, start, fvEnd, fileGuid)
    ensures res.Miss? ==> rom.good == res.good
  {
    hide WalkFiles, FfsHeaderOf, FilePayload;
    var fileOffset := start;
    while fileOffset + FFS_HEADER_SIZE < fvEnd
      invariant rom.good
      invariant WalkFiles(rom.data, start, fvEnd, fileGuid) == WalkFiles(rom.data, fileOffset, fvEnd, fileGuid)
      decreases fvEnd - fileOffset
    {
      WalkEnds(rom.data, fileOffset, fvEnd, fileGuid);
      ghost var entered := fileOffset;
      if fileOffset % 8 != 0 {
        fileOffset := fileOffset - fileOffset % 8 + 8;
      }
      rom.Seek(fileOffset);
      var buf := rom.Read(FFS_HEADER_SIZE);
      if !rom.good {
        return Miss(false);
      }
      WalkStep(rom.data, entered, fvEnd, fileGuid);
      var fileHdr := FfsHeaderOf(buf);
      if GuidIsAllFf(fileHdr.name) {
        return Miss(true);
      }
      if fileHdr.size < FFS_HEADER_SIZE {
        return Miss(true);
      }
      if fileHdr.name == fileGuid && fileHdr.attributes % 2 == 0 {
        var data := ReadPayload(rom, fileHdr, fileOffset + FFS_HEADER_SIZE);
        MissIsGood(rom.data, fileHdr, fileOffset + FFS_HEADER_SIZE);
        return if data.Some? then Stop(data.value) else Miss(true);
      }
      fileOffset := fileOffset + fileHdr.size;
    }
    WalkEnds(rom.data, fileOffset, fvEnd, fileGuid);
    res := Miss(true);
  }

  lemma MissIsGood(b: seq<byte>, h: FfsHeader, off: nat)
    requires h.size >= FFS_HEADER_SIZE && off <= |b|
    ensures FilePayload(b, h, off).Miss? ==> FilePayload(b, h, off) == Miss(true)
  {
  }

  method ExtractFfsFile(rom: InputStream, romSize: nat, fvGuid: seq<byte>, fileGuid: seq<byte>)
    returns (r: seq<byte>)
    modifies rom
    ensures r == if old(rom.good) then ScanVolumes(rom.data, romSize, 0, fvGuid, fileGuid) else []
  {
    hide FvHeaderOf, WalkFiles, ScanVolumes, U32At, FFS2_GUID;
    ghost var b := rom.data;
    ghost var all := if rom.good then ScanVolumes(b, romSize, 0, fvGuid, fileGuid) else [];
    var fvOffset := 0;
    while fvOffset + FV_HEADER_SIZE < romSize
      invariant all == if rom.good then ScanVolumes(b, romSize, fvOffset, fvGuid, fileGuid) else []
      decreases romSize - fvOffset
    {
      if fvOffset + FV_HEADER_SIZE <= |b| {
        ScanStep(b, romSize, fvOffset, fvGuid, fileGuid);
      } else {
        ScanEnds(b, romSize, fvOffset, fvGuid, fileGuid);
      }
      rom.Seek(fvOffset);
      var buf := rom.Read(FV_HEADER_SIZE);
      if !rom.good {
        return [];
      }
      var fvHdr := FvHeaderOf(buf);
      if fvHdr.signature != FVH_SIGNATURE {
        fvOffset := fvOffset + FV_ALIGNMENT;
        continue;
      }
      var fvLen := fvHdr.fvLength;
      if fvLen % FV_ALIGNMENT != 0 {
        fvLen := fvLen - fvLen % FV_ALIGNMENT + FV_ALIGNMENT;
      }
      if fvLen == 0 {
        fvLen := FV_ALIGNMENT;
      }
      assert fvLen == VolumeStep(fvHdr.fvLength);
      if fvHdr.fileSystem != FFS2_GUID {
        fvOffset := fvOffset + fvLen;
        continue;
      }
      if fvHdr.extHeaderOffset == 0 {
        fvOffset := fvOffset + fvLen;
        continue;
      }
      var ext := fvOffset + fvHdr.extHeaderOffset;
      rom.Seek(ext);
      var extHdr := rom.Read(FV_EXT_HEADER_SIZE);
      if !rom.good {
        fvOffset := fvOffset + fvLen;
        continue;
      }
      ExtFields(b, ext, extHdr);
      if extHdr[..16] != fvGuid {
        fvOffset := fvOffset + fvLen;
        continue;
      }
      var fvEnd := fvOffset + fvHdr.fvLength;
      if fvEnd > romSize {
        fvEnd := romSize;
      }
      var walk := WalkVolume(rom, ext + U32At(extHdr, 16), fvEnd, fileGuid);
      if walk.Stop? {
        return walk.data;
      }
      fvOffset := fvOffset + fvLen;
    }
    ScanEnds(b, romSize, fvOffset, fvGuid, fileGuid);
    r := [];
  }

  lemma ExtFields(b: seq<byte>, ext: nat, extHdr: seq<byte>)
    requires ext + FV_EXT_HEADER_SIZE <= |b| && extHdr == b[ext..ext + FV_EXT_HEADER_SIZE]
    ensures extHdr[..16] == b[ext..ext + 16] && U32At(extHdr, 16) == U32At(b, ext + 16)
  {
  }

  // ----- Soundness -----

  // r is what is behind an FFS header for fileGuid, in a freeform file (type 2) behind the header of a
  // raw section (0x19) or a GUID-defined one (0x02).
  ghost predicate FoundFile(b: seq<byte>, fileGuid: seq<byte>, fileOff: nat, r: seq<byte>) {
    && fileOff % 8 == 0 && fileOff + FFS_HEADER_SIZE <= |b|
    && var h := FfsHeaderOf(b[fileOff..fileOff + FFS_HEADER_SIZE]);
       && h.name == fileGuid && h.attributes % 2 == 0 && h.size >= FFS_HEADER_SIZE
       && fileOff + h.size <= |b|
       && var body := b[fileOff + FFS_HEADER_SIZE..fileOff + h.size];
          if h.fileType == 0x02 && |body| > 4 && body[3] == 0x19 then r == body[4..]
          else if h.fileType == 0x02 && |body| > 4 && body[3] == 0x02 then |body| > 20 && r == body[20..]
          else r == body
  }

  // A volume header at fvOff names fvGuid and its file area reaches from `first` to `end`.
  ghost predicate NamedVolume(b: seq<byte>, romSize: nat, fvGuid: seq<byte>, fvOff: nat, first: nat, end: nat) {
    && fvOff % FV_ALIGNMENT == 0 && fvOff + FV_HEADER_SIZE < romSize && fvOff + FV_HEADER_SIZE <= |b|
    && var h := FvHeaderOf(b[fvOff..fvOff + FV_HEADER_SIZE]);
       && h.signature == FVH_SIGNATURE && h.fileSystem == FFS2_GUID && h.extHeaderOffset != 0
       && var ext := fvOff + h.extHeaderOffset;
          && ext + FV_EXT_HEADER_SIZE <= |b| && b[ext..ext + 16] == fvGuid
          && first == ext + U32At(b, ext + 16) && end == Min(fvOff + h.fvLength, romSize)
  }

  function HeaderAt(b: seq<byte>, at: nat): FfsHeader
    requires at + FFS_HEADER_SIZE <= |b|
  {
    FfsHeaderOf(b[at..at + FFS_HEADER_SIZE])
  }

  // The header of an ordinary (not large) file with this name.
  predicate Matches(b: seq<byte>, at: nat, fileGuid: seq<byte>) {
    at + FFS_HEADER_SIZE <= |b| && HeaderAt(b, at).name == fileGuid && HeaderAt(b, at).attributes % 2 == 0
  }

  // The chain of file headers from off on, each on the next 8-byte boundary behind the file before
  // it, reaches the header at fileOff, and no header passed on the way matches.
  ghost predicate FileChain(b: seq<byte>, off: nat, end: nat, fileGuid: seq<byte>, fileOff: nat)
    decreases end - off
  {
    && off + FFS_HEADER_SIZE < end && Align8(off) + FFS_HEADER_SIZE <= |b|
    && var h := HeaderAt(b, Align8(off));
       && !GuidIsAllFf(h.name) && h.size >= FFS_HEADER_SIZE
       && (fileOff == Align8(off)
           || (!Matches(b, Align8(off), fileGuid) && FileChain(b, Align8(off) + h.size, end, fileGuid, fileOff)))
  }

  // A matching file whose GUID-defined section is too short for its header: passed over.
  predicate ShortGuided(b: seq<byte>, fileOff: nat) {
    && fileOff + 28 <= |b| && b[fileOff + 27] == 0x02 && HeaderAt(b, fileOff).fileType == 0x02
    && 4 < HeaderAt(b, fileOff).size - 24 <= 20
  }

  // The file area holds no file to extract: the first match, if its chain reaches one, is too short.
  ghost predicate NoFile(b: seq<byte>, first: nat, end: nat, fileGuid: seq<byte>) {
    forall fileOff: nat ::
      FileChain(b, first, end, fileGuid, fileOff) && Matches(b, fileOff, fileGuid) ==> ShortGuided(b, fileOff)
  }

  // The walk through a file area comes to a header that is not wholly in the image, before it finds
  // a match or the end of the area.
  predicate RunsOff(b: seq<byte>, off: nat, end: nat, fileGuid: seq<byte>)
    decreases end - off
  {
    && off + FFS_HEADER_SIZE < end
    && (|| Align8(off) + FFS_HEADER_SIZE > |b|
        || var h := HeaderAt(b, Align8(off));
           && !GuidIsAllFf(h.name) && h.size >= FFS_HEADER_SIZE && !Matches(b, Align8(off), fileGuid)
           && RunsOff(b, Align8(off) + h.size, end, fileGuid))
  }

  // The scan ends at fvOff with a short read: of the volume header, of its extended header, or of a
  // file header in a volume named fvGuid.
  predicate ShortRead(b: seq<byte>, romSize: nat, fvGuid: seq<byte>, fileGuid: seq<byte>, fvOff: nat) {
    && fvOff + FV_HEADER_SIZE < romSize
    && (|| fvOff + FV_HEADER_SIZE > |b|
        || var h := FvHeaderOf(b[fvOff..fvOff + FV_HEADER_SIZE]);
           var ext := fvOff + h.extHeaderOffset;
           && h.signature == FVH_SIGNATURE && h.fileSystem == FFS2_GUID && h.extHeaderOffset != 0
           && (|| ext + FV_EXT_HEADER_SIZE > |b|
               || (&& b[ext..ext + 16] == fvGuid
                   && RunsOff(b, ext + U32At(b, ext + 16), Min(fvOff + h.fvLength, romSize), fileGuid))))
  }

  // The chain of volumes from off on reaches fvOff without a short read, and no volume passed that
  // is named fvGuid has a file to extract.
  ghost predicate VolumeChain(b: seq<byte>, romSize: nat, off: nat, fvGuid: seq<byte>, fileGuid: seq<byte>, fvOff: nat)
    decreases romSize - off
  {
    || fvOff == off
    || (&& off + FV_HEADER_SIZE < romSize && off + FV_HEADER_SIZE <= |b|
        && !ShortRead(b, romSize, fvGuid, fileGuid, off)
        && (forall first: nat, end: nat ::
              NamedVolume(b, romSize, fvGuid, off, first, end) ==> NoFile(b, first, end, fileGuid))
        && exists next: nat ::
             IsNext(b, off, next) && VolumeChain(b, romSize, next, fvGuid, fileGuid, fvOff))
  }

  // The next place for a volume: 64 KiB on where there is none, else the least multiple of 64 KiB that
  // covers the volume.
  predicate IsNext(b: seq<byte>, off: nat, next: nat) {
    && next > off && off + FV_HEADER_SIZE <= |b|
    && var h := FvHeaderOf(b[off..off + FV_HEADER_SIZE]);
       if h.signature != FVH_SIGNATURE then next == off + FV_ALIGNMENT else IsStep(h.fvLength, next - off)
  }

  lemma StepUnique(fvLength: nat, a: nat, b: nat)
    requires IsStep(fvLength, a) && IsStep(fvLength, b)
    ensures a == b
  {
  }

  lemma NextIs(b: seq<byte>, off: nat, next: nat)
    requires off + FV_HEADER_SIZE <= |b|
    ensures IsNext(b, off, next) <==> next == NextVolume(b, off)
  {
    hide FvHeaderOf, IsStep, VolumeStep;
    var h := FvHeaderOf(b[off..off + FV_HEADER_SIZE]);
    if h.signature == FVH_SIGNATURE && IsNext(b, off, next) {
      StepUnique(h.fvLength, next - off, VolumeStep(h.fvLength));
    }
    StepPositive(h.fvLength);
  }

  lemma StepPositive(fvLength: nat)
    ensures VolumeStep(fvLength) > 0
  {
  }

  // Where the scan looks next.
  function NextVolume(b: seq<byte>, off: nat): (next: nat)
    requires off + FV_HEADER_SIZE <= |b|
    ensures next >= off + FV_ALIGNMENT
  {
    var h := FvHeaderOf(b[off..off + FV_HEADER_SIZE]);
    off + if h.signature != FVH_SIGNATURE then FV_ALIGNMENT else VolumeStep(h.fvLength)
  }

  lemma NextAligned(b: seq<byte>, off: nat)
    requires off + FV_HEADER_SIZE <= |b| && off % FV_ALIGNMENT == 0
    ensures NextVolume(b, off) % FV_ALIGNMENT == 0
  {
    hide FvHeaderOf, VolumeStep;
    var step := NextVolume(b, off) - off;
    assert step % FV_ALIGNMENT == 0;
    SumAligned(off, step);
  }

  lemma SumAligned(a: nat, b: nat)
    ensures a % FV_ALIGNMENT == 0 && b % FV_ALIGNMENT == 0 ==> (a + b) % FV_ALIGNMENT == 0
    ensures a % 8 == 0 && b % 8 == 0 ==> (a + b) % 8 == 0
  {
  }

  lemma PayloadFound(b: seq<byte>, fileGuid: seq<byte>, at: nat)
    requires Matches(b, at, fileGuid) && at % 8 == 0 && HeaderAt(b, at).size >= FFS_HEADER_SIZE
    ensures var res := FilePayload(b, HeaderAt(b, at), at + FFS_HEADER_SIZE);
            res.Stop? && res.data != [] ==> FoundFile(b, fileGuid, at, res.data)
  {
    hide FfsHeaderOf;
  }

  // A walk that goes on to the next volume has found no file to extract.
  lemma {:induction false} WalkMissed(b: seq<byte>, off: nat, end: nat, fileGuid: seq<byte>, fileOff: nat)
    requires WalkFiles(b, off, end, fileGuid).Miss?
    requires FileChain(b, off, end, fileGuid, fileOff) && Matches(b, fileOff, fileGuid)
    ensures ShortGuided(b, fileOff)
    decreases end - off
  {
    hide FfsHeaderOf;
    var at := Align8(off);
    if !Matches(b, at, fileGuid) {
      WalkMissed(b, at + HeaderAt(b, at).size, end, fileGuid, fileOff);
    }
  }

  lemma {:induction false} RunsOffExactly(b: seq<byte>, off: nat, end: nat, fileGuid: seq<byte>)
    ensures WalkFiles(b, off, end, fileGuid) == Miss(false) <==> RunsOff(b, off, end, fileGuid)
    decreases end - off
  {
    hide FfsHeaderOf, GuidIsAllFf, FilePayload;
    var at := Align8(off);
    if off + FFS_HEADER_SIZE < end && at + FFS_HEADER_SIZE <= |b| && HeaderAt(b, at).size >= FFS_HEADER_SIZE {
      MissIsGood(b, HeaderAt(b, at), at + FFS_HEADER_SIZE);
      if !Matches(b, at, fileGuid) {
        RunsOffExactly(b, at + HeaderAt(b, at).size, end, fileGuid);
      }
    }
  }

  // A matching file on the chain decides the walk, and only such a file stops it.
  lemma {:induction false} ChainDecides(b: seq<byte>, off: nat, end: nat, fileGuid: seq<byte>, fileOff: nat)
    requires FileChain(b, off, end, fileGuid, fileOff) && Matches(b, fileOff, fileGuid)
    ensures HeaderAt(b, fileOff).size >= FFS_HEADER_SIZE
    ensures WalkFiles(b, off, end, fileGuid) == FilePayload(b, HeaderAt(b, fileOff), fileOff + FFS_HEADER_SIZE)
    decreases end - off
  {
    hide FfsHeaderOf, GuidIsAllFf, FilePayload;
    var at := Align8(off);
    if !Matches(b, at, fileGuid) {
      ChainDecides(b, at + HeaderAt(b, at).size, end, fileGuid, fileOff);
    }
  }

  lemma {:induction false} StoppedAt(b: seq<byte>, off: nat, end: nat, fileGuid: seq<byte>) returns (fileOff: nat)
    requires WalkFiles(b, off, end, fileGuid).Stop?
    ensures FileChain(b, off, end, fileGuid, fileOff) && Matches(b, fileOff, fileGuid)
    decreases end - off
  {
    hide FfsHeaderOf, GuidIsAllFf, FilePayload;
    var at := Align8(off);
    if Matches(b, at, fileGuid) {
      fileOff := at;
    } else {
      fileOff := StoppedAt(b, at + HeaderAt(b, at).size, end, fileGuid);
    }
  }

  // What a matching file gives: nothing to extract, an empty result, or its contents.
  lemma PayloadCases(b: seq<byte>, at: nat)
    requires at + FFS_HEADER_SIZE <= |b| && HeaderAt(b, at).size >= FFS_HEADER_SIZE
    ensures var h := HeaderAt(b, at);
            var res := FilePayload(b, h, at + FFS_HEADER_SIZE);
            && (res.Miss? <==> ShortGuided(b, at))
            && (res == Stop([]) <==> !ShortGuided(b, at) && (at + h.size > |b| || h.size == FFS_HEADER_SIZE))
  {
    hide FfsHeaderOf;
  }

  // The file area is passed over exactly when it can be read and holds no file to extract.
  lemma WalkPasses(b: seq<byte>, first: nat, end: nat, fileGuid: seq<byte>)
    ensures WalkFiles(b, first, end, fileGuid) == Miss(true)
            <==> NoFile(b, first, end, fileGuid) && !RunsOff(b, first, end, fileGuid)
  {
    hide WalkFiles, FileChain, Matches, ShortGuided, RunsOff, HeaderAt, FilePayload;
    RunsOffExactly(b, first, end, fileGuid);
    var res := WalkFiles(b, first, end, fileGuid);
    if res.Stop? {
      var fileOff := StoppedAt(b, first, end, fileGuid);
      ChainDecides(b, first, end, fileGuid, fileOff);
      MatchInside(b, fileOff, fileGuid);
      PayloadCases(b, fileOff);
    } else {
      forall fileOff: nat | FileChain(b, first, end, fileGuid, fileOff) && Matches(b, fileOff, fileGuid)
        ensures ShortGuided(b, fileOff)
      {
        WalkMissed(b, first, end, fileGuid, fileOff);
      }
    }
  }

  lemma MatchInside(b: seq<byte>, at: nat, fileGuid: seq<byte>)
    requires Matches(b, at, fileGuid)
    ensures at + FFS_HEADER_SIZE <= |b|
  {
  }

  // Passing one volume of the chain.
  lemma VolumePassed(b: seq<byte>, romSize: nat, off: nat, fvGuid: seq<byte>, fileGuid: seq<byte>)
    requires off % FV_ALIGNMENT == 0 && off + FV_HEADER_SIZE < romSize && off + FV_HEADER_SIZE <= |b|
    requires !ShortRead(b, romSize, fvGuid, fileGuid, off)
    requires forall first: nat, end: nat ::
      NamedVolume(b, romSize, fvGuid, off, first, end) ==> NoFile(b, first, end, fileGuid)
    ensures ScanVolumes(b, romSize, off, fvGuid, fileGuid)
            == ScanVolumes(b, romSize, NextVolume(b, off), fvGuid, fileGuid)
  {
    hide FvHeaderOf, WalkFiles, ScanVolumes, RunsOff, NoFile, VolumeStep, U32At, FFS2_GUID;
    ScanStep(b, romSize, off, fvGuid, fileGuid);
    var h := FvHeaderOf(b[off..off + FV_HEADER_SIZE]);
    var ext := off + h.extHeaderOffset;
    if h.signature == FVH_SIGNATURE && h.fileSystem == FFS2_GUID && h.extHeaderOffset != 0
       && b[ext..ext + 16] == fvGuid {
      var first, end := ext + U32At(b, ext + 16), Min(off + h.fvLength, romSize);
      assert NamedVolume(b, romSize, fvGuid, off, first, end);
      WalkPasses(b, first, end, fileGuid);
    }
  }

  // The scan from the start of a chain is the scan from its end.
  lemma {:induction false} ChainScanned(b: seq<byte>, romSize: nat, off: nat, fvGuid: seq<byte>, fileGuid: seq<byte>,
                                        fvOff: nat)
    requires off % FV_ALIGNMENT == 0 && VolumeChain(b, romSize, off, fvGuid, fileGuid, fvOff)
    ensures ScanVolumes(b, romSize, off, fvGuid, fileGuid) == ScanVolumes(b, romSize, fvOff, fvGuid, fileGuid)
    ensures fvOff % FV_ALIGNMENT == 0
    decreases romSize - off
  {
    hide ScanVolumes, ShortRead, NamedVolume, NoFile, FvHeaderOf, NextVolume, IsNext;
    if fvOff != off {
      var next: nat :| IsNext(b, off, next) && VolumeChain(b, romSize, next, fvGuid, fileGuid, fvOff);
      NextIs(b, off, next);
      VolumePassed(b, romSize, off, fvGuid, fileGuid);
      NextAligned(b, off);
      ChainScanned(b, romSize, NextVolume(b, off), fvGuid, fileGuid, fvOff);
    }
  }

  // The scan of a volume named fvGuid whose chain of files has a match to extract.
  lemma VolumeDecides(b: seq<byte>, romSize: nat, fvGuid: seq<byte>, fileGuid: seq<byte>, fvOff: nat,
                      first: nat, end: nat, fileOff: nat)
    ensures NamedVolume(b, romSize, fvGuid, fvOff, first, end) && FileChain(b, first, end, fileGuid, fileOff)
            && Matches(b, fileOff, fileGuid) && !ShortGuided(b, fileOff)
      ==> && HeaderAt(b, fileOff).size >= FFS_HEADER_SIZE
          && Stop(ScanVolumes(b, romSize, fvOff, fvGuid, fileGuid))
             == FilePayload(b, HeaderAt(b, fileOff), fileOff + FFS_HEADER_SIZE)
  {
    hide FvHeaderOf, WalkFiles, ScanVolumes, FileChain, FilePayload, ShortGuided, VolumeStep, U32At, HeaderAt,
         FFS2_GUID;
    if NamedVolume(b, romSize, fvGuid, fvOff, first, end) && FileChain(b, first, end, fileGuid, fileOff)
       && Matches(b, fileOff, fileGuid) && !ShortGuided(b, fileOff) {
      ScanStep(b, romSize, fvOff, fvGuid, fileGuid);
      ChainDecides(b, first, end, fileGuid, fileOff);
      MatchInside(b, fileOff, fileGuid);
      PayloadCases(b, fileOff);
    }
  }

  // The scan has nothing to return at fvOff: the image ends there, a read comes up short, or the
  // first match of a volume named fvGuid is empty or not wholly in the image.
  ghost predicate NothingAt(b: seq<byte>, romSize: nat, fvGuid: seq<byte>, fileGuid: seq<byte>, fvOff: nat) {
    || fvOff + FV_HEADER_SIZE >= romSize
    || ShortRead(b, romSize, fvGuid, fileGuid, fvOff)
    || exists first: nat, end: nat, fileOff: nat ::
         NamedVolume(b, romSize, fvGuid, fvOff, first, end) && EmptyMatch(b, first, end, fileGuid, fileOff)
  }

  ghost predicate EmptyMatch(b: seq<byte>, first: nat, end: nat, fileGuid: seq<byte>, fileOff: nat) {
    && FileChain(b, first, end, fileGuid, fileOff) && Matches(b, fileOff, fileGuid) && !ShortGuided(b, fileOff)
    && (fileOff + HeaderAt(b, fileOff).size > |b| || HeaderAt(b, fileOff).size == FFS_HEADER_SIZE)
  }

  lemma NothingScanned(b: seq<byte>, romSize: nat, fvGuid: seq<byte>, fileGuid: seq<byte>, fvOff: nat)
    requires NothingAt(b, romSize, fvGuid, fileGuid, fvOff)
    ensures ScanVolumes(b, romSize, fvOff, fvGuid, fileGuid) == []
  {
    hide FvHeaderOf, WalkFiles, ScanVolumes, FileChain, FilePayload, ShortGuided, VolumeStep, U32At, HeaderAt, RunsOff,
         FFS2_GUID;
    if fvOff + FV_HEADER_SIZE >= romSize || fvOff + FV_HEADER_SIZE > |b| {
      ScanEnds(b, romSize, fvOff, fvGuid, fileGuid);
    } else if ShortRead(b, romSize, fvGuid, fileGuid, fvOff) {
      ScanStep(b, romSize, fvOff, fvGuid, fileGuid);
      var h := FvHeaderOf(b[fvOff..fvOff + FV_HEADER_SIZE]);
      var ext := fvOff + h.extHeaderOffset;
      if ext + FV_EXT_HEADER_SIZE <= |b| {
        RunsOffExactly(b, ext + U32At(b, ext + 16), Min(fvOff + h.fvLength, romSize), fileGuid);
      }
    } else {
      var first: nat, end: nat, fileOff: nat :|
        NamedVolume(b, romSize, fvGuid, fvOff, first, end) && EmptyMatch(b, first, end, fileGuid, fileOff);
      VolumeDecides(b, romSize, fvGuid, fileGuid, fvOff, first, end, fileOff);
      MatchInside(b, fileOff, fileGuid);
      PayloadCases(b, fileOff);
    }
  }

  // An empty result, traced to the place it comes from.
  lemma {:induction false} WhereNothing(b: seq<byte>, romSize: nat, off: nat, fvGuid: seq<byte>, fileGuid: seq<byte>)
    returns (fvOff: nat)
    requires off % FV_ALIGNMENT == 0 && ScanVolumes(b, romSize, off, fvGuid, fileGuid) == []
    ensures VolumeChain(b, romSize, off, fvGuid, fileGuid, fvOff) && NothingAt(b, romSize, fvGuid, fileGuid, fvOff)
    decreases romSize - off
  {
    hide FvHeaderOf, ScanVolumes, ShortRead, NamedVolume, NoFile, EmptyMatch, NextVolume, IsNext;
    fvOff := off;
    if off + FV_HEADER_SIZE < romSize && !ShortRead(b, romSize, fvGuid, fileGuid, off) {
      HeaderInside(b, romSize, off, fvGuid, fileGuid);
      if first: nat, end: nat :|
        NamedVolume(b, romSize, fvGuid, off, first, end) && !NoFile(b, first, end, fileGuid)
      {
        var fileOff := EmptyMatchThere(b, romSize, off, fvGuid, fileGuid, first, end);
      } else {
        VolumePassed(b, romSize, off, fvGuid, fileGuid);
        NextAligned(b, off);
        NextIs(b, off, NextVolume(b, off));
        fvOff := WhereNothing(b, romSize, NextVolume(b, off), fvGuid, fileGuid);
      }
    }
  }

  lemma HeaderInside(b: seq<byte>, romSize: nat, off: nat, fvGuid: seq<byte>, fileGuid: seq<byte>)
    requires off + FV_HEADER_SIZE < romSize && !ShortRead(b, romSize, fvGuid, fileGuid, off)
    ensures off + FV_HEADER_SIZE <= |b|
  {
  }

  lemma EmptyMatchThere(b: seq<byte>, romSize: nat, off: nat, fvGuid: seq<byte>, fileGuid: seq<byte>,
                        first: nat, end: nat) returns (fileOff: nat)
    ensures NamedVolume(b, romSize, fvGuid, off, first, end) && !NoFile(b, first, end, fileGuid)
            && ScanVolumes(b, romSize, off, fvGuid, fileGuid) == []
      ==> EmptyMatch(b, first, end, fileGuid, fileOff)
  {
    hide FvHeaderOf, ScanVolumes, FileChain, FilePayload, ShortGuided, NamedVolume, HeaderAt, Matches;
    fileOff := 0;
    if NamedVolume(b, romSize, fvGuid, off, first, end) && !NoFile(b, first, end, fileGuid) {
      fileOff :| FileChain(b, first, end, fileGuid, fileOff) && Matches(b, fileOff, fileGuid)
                 && !ShortGuided(b, fileOff);
      VolumeDecides(b, romSize, fvGuid, fileGuid, off, first, end, fileOff);
      MatchInside(b, fileOff, fileGuid);
      PayloadCases(b, fileOff);
    }
  }

  /**
  When nothing comes out. On every image the result is empty if and only if the chain of volumes,
  past volumes named fvGuid without a file to extract, comes to the end of the ROM, to a short read,
  or to a volume named fvGuid whose first match is empty or runs off the image.
  */
  lemma ExtractEmpty(b: seq<byte>, romSize: nat, fvGuid: seq<byte>, fileGuid: seq<byte>)
    ensures ScanVolumes(b, romSize, 0, fvGuid, fileGuid) == [] <==>
            exists fvOff: nat ::
              VolumeChain(b, romSize, 0, fvGuid, fileGuid, fvOff) && NothingAt(b, romSize, fvGuid, fileGuid, fvOff)
  {
    hide ScanVolumes, VolumeChain, NothingAt;
    if ScanVolumes(b, romSize, 0, fvGuid, fileGuid) == [] {
      var fvOff := WhereNothing(b, romSize, 0, fvGuid, fileGuid);
    }
    if fvOff: nat :|
      VolumeChain(b, romSize, 0, fvGuid, fileGuid, fvOff) && NothingAt(b, romSize, fvGuid, fileGuid, fvOff)
    {
      ChainScanned(b, romSize, 0, fvGuid, fileGuid, fvOff);
      NothingScanned(b, romSize, fvGuid, fileGuid, fvOff);
    }
  }

  /**
  Completeness. A non-empty file that is the first match of a volume named fvGuid, on the chain of
  volumes, is what comes out.
  */
  lemma ExtractComplete(b: seq<byte>, romSize: nat, fvGuid: seq<byte>, fileGuid: seq<byte>,
                        fvOff: nat, first: nat, end: nat, fileOff: nat, r: seq<byte>)
    ensures VolumeChain(b, romSize, 0, fvGuid, fileGuid, fvOff) && NamedVolume(b, romSize, fvGuid, fvOff, first, end)
            && FileChain(b, first, end, fileGuid, fileOff) && FoundFile(b, fileGuid, fileOff, r)
      ==> ScanVolumes(b, romSize, 0, fvGuid, fileGuid) == r
  {
    hide ScanVolumes, VolumeChain, NamedVolume, FileChain, FoundFile, FfsHeaderOf, WalkFiles;
    if VolumeChain(b, romSize, 0, fvGuid, fileGuid, fvOff) && FoundFile(b, fileGuid, fileOff, r) {
      ChainScanned(b, romSize, 0, fvGuid, fileGuid, fvOff);
      FoundPayload(b, fileGuid, fileOff, r);
      VolumeDecides(b, romSize, fvGuid, fileGuid, fvOff, first, end, fileOff);
    }
  }

  lemma FoundPayload(b: seq<byte>, fileGuid: seq<byte>, at: nat, r: seq<byte>)
    requires FoundFile(b, fileGuid, at, r)
    ensures Matches(b, at, fileGuid) && !ShortGuided(b, at) && HeaderAt(b, at).size >= FFS_HEADER_SIZE
    ensures FilePayload(b, HeaderAt(b, at), at + FFS_HEADER_SIZE) == Stop(r)
  {
    hide FfsHeaderOf;
  }

  /**
  Soundness. Any non-empty result is a contiguous slice of the image behind an FFS header that
  carries fileGuid, which is the first such header on the chain of files of a 64 KiB-aligned FFS2
  volume whose extended header names fvGuid; that volume is on the chain of volumes, and no volume
  before it that is named fvGuid has such a file to extract.
  */
  lemma {:induction false} ExtractSound(b: seq<byte>, romSize: nat, off: nat, fvGuid: seq<byte>, fileGuid: seq<byte>)
    returns (fvOff: nat, first: nat, end: nat, fileOff: nat)
    requires off % FV_ALIGNMENT == 0
    requires ScanVolumes(b, romSize, off, fvGuid, fileGuid) != []
    ensures VolumeChain(b, romSize, off, fvGuid, fileGuid, fvOff)
    ensures NamedVolume(b, romSize, fvGuid, fvOff, first, end)
    ensures FileChain(b, first, end, fileGuid, fileOff)
    ensures FoundFile(b, fileGuid, fileOff, ScanVolumes(b, romSize, off, fvGuid, fileGuid))
    decreases romSize - off
  {
    hide FvHeaderOf, ScanVolumes, NamedVolume, NoFile, ShortRead, FoundFile, FileChain, NextVolume, IsNext;
    if ShortRead(b, romSize, fvGuid, fileGuid, off) || off + FV_HEADER_SIZE >= romSize {
      NothingScanned(b, romSize, fvGuid, fileGuid, off);
      assert false;
    }
    HeaderInside(b, romSize, off, fvGuid, fileGuid);
    if first', end' : nat :| NamedVolume(b, romSize, fvGuid, off, first', end') && !NoFile(b, first', end', fileGuid) {
      fvOff, first, end := off, first', end';
      fileOff := FileThere(b, romSize, off, fvGuid, fileGuid, first, end);
    } else {
      VolumePassed(b, romSize, off, fvGuid, fileGuid);
      NextAligned(b, off);
      NextIs(b, off, NextVolume(b, off));
      fvOff, first, end, fileOff := ExtractSound(b, romSize, NextVolume(b, off), fvGuid, fileGuid);
    }
  }

  lemma FileThere(b: seq<byte>, romSize: nat, off: nat, fvGuid: seq<byte>, fileGuid: seq<byte>,
                  first: nat, end: nat) returns (fileOff: nat)
    ensures NamedVolume(b, romSize, fvGuid, off, first, end) && !NoFile(b, first, end, fileGuid)
            && ScanVolumes(b, romSize, off, fvGuid, fileGuid) != []
      ==> && FileChain(b, first, end, fileGuid, fileOff)
          && FoundFile(b, fileGuid, fileOff, ScanVolumes(b, romSize, off, fvGuid, fileGuid))
  {
    hide FvHeaderOf, ScanVolumes, FilePayload, ShortGuided, NamedVolume, HeaderAt, Matches, WalkFiles, FoundFile;
    fileOff := 0;
    if NamedVolume(b, romSize, fvGuid, off, first, end) && !NoFile(b, first, end, fileGuid) {
      fileOff :| FileChain(b, first, end, fileGuid, fileOff) && Matches(b, fileOff, fileGuid)
                 && !ShortGuided(b, fileOff);
      VolumeDecides(b, romSize, fvGuid, fileGuid, off, first, end, fileOff);
      MatchInside(b, fileOff, fileGuid);
      ChainAligned(b, first, end, fileGuid, fileOff);
      PayloadFound(b, fileGuid, fileOff);
    }
  }

  lemma {:induction false} ChainAligned(b: seq<byte>, off: nat, end: nat, fileGuid: seq<byte>, fileOff: nat)
    requires FileChain(b, off, end, fileGuid, fileOff)
    ensures fileOff % 8 == 0
    decreases end - off
  {
    hide HeaderAt, Matches, GuidIsAllFf;
    if fileOff != Align8(off) {
      ChainAligned(b, Align8(off) + HeaderAt(b, Align8(off)).size, end, fileGuid, fileOff);
    }
  }

  // ----- Completeness: well-laid-out images -----

  datatype FfsFile = FfsFile(name: seq<byte>, fileType: byte, attributes: byte, body: seq<byte>)

  // What a 64 KiB-aligned place of an image holds: no volume, a volume without usable FFS2
  // files, or an FFS2 volume with a name and a list of files.
  datatype Item = Gap | Foreign | Volume(name: seq<byte>, files: seq<FfsFile>)

  // The contents of a file, or None for a GUID-defined section too short for its header.
  function Contents(f: FfsFile): Option<seq<byte>> {
    if f.fileType == FILE_TYPE_FREEFORM && |f.body| > 4 && f.body[3] == SECTION_RAW then Some(f.body[4..])
    else if f.fileType == FILE_TYPE_FREEFORM && |f.body| > 4 && f.body[3] == SECTION_GUID_DEFINED then
      if |f.body| <= GUID_SECTION_HEADER_SIZE then None else Some(f.body[20..])
    else Some(f.body)
  }

  // The contents of the first ordinary (not large) file with this name.
  function PickFile(files: seq<FfsFile>, fileGuid: seq<byte>): Option<seq<byte>> {
    if files == [] then None
    else if files[0].name == fileGuid && files[0].attributes % 2 == 0 then Contents(files[0])
    else PickFile(files[1..], fileGuid)
  }

  function FirstMatch(items: seq<Item>, fvGuid: seq<byte>, fileGuid: seq<byte>): seq<byte> {
    if items == [] then []
    else if items[0].Volume? && items[0].name == fvGuid && PickFile(items[0].files, fileGuid).Some? then
      PickFile(items[0].files, fileGuid).value
    else FirstMatch(items[1..], fvGuid, fileGuid)
  }

  predicate FileAt(b: seq<byte>, at: nat, f: FfsFile) {
    && at + FFS_HEADER_SIZE + |f.body| <= |b|
    && FfsHeaderOf(b[at..at + FFS_HEADER_SIZE])
       == FfsHeader(f.name, f.fileType, f.attributes, FFS_HEADER_SIZE + |f.body|)
    && b[at + FFS_HEADER_SIZE..at + FFS_HEADER_SIZE + |f.body|] == f.body
    && !GuidIsAllFf(f.name)
  }

  // Files one after the other on 8-byte boundaries, up to the end or an all-FF name.
  predicate FilesAt(b: seq<byte>, off: nat, end: nat, files: seq<FfsFile>)
    decreases |files|
  {
    var at := Align8(off);
    if files == [] then
      off + FFS_HEADER_SIZE >= end || (at + FFS_HEADER_SIZE <= |b| && GuidIsAllFf(b[at..at + 16]))
    else
      && off + FFS_HEADER_SIZE < end && FileAt(b, at, files[0])
      && FilesAt(b, at + FFS_HEADER_SIZE + |files[0].body|, end, files[1..])
  }

  predicate VolumeAt(b: seq<byte>, romSize: nat, off: nat, v: Item)
    requires v.Volume? && off + FV_HEADER_SIZE <= |b|
  {
    var h := FvHeaderOf(b[off..off + FV_HEADER_SIZE]);
    var ext := off + h.extHeaderOffset;
    && h.signature == FVH_SIGNATURE && h.fileSystem == FFS2_GUID && h.extHeaderOffset != 0
    && ext + FV_EXT_HEADER_SIZE <= |b| && b[ext..ext + 16] == v.name
    && FilesAt(b, ext + U32At(b, ext + 16), Min(off + h.fvLength, romSize), v.files)
  }

  // The image from off on is laid out as these items.
  ghost predicate ItemsAt(b: seq<byte>, romSize: nat, off: nat, items: seq<Item>)
    decreases |items|
  {
    if items == [] then off + FV_HEADER_SIZE >= romSize
    else
      && off + FV_HEADER_SIZE < romSize && off + FV_HEADER_SIZE <= |b|
      && var h := FvHeaderOf(b[off..off + FV_HEADER_SIZE]);
         && (match items[0]
             case Gap => h.signature != FVH_SIGNATURE
             case Foreign => h.signature == FVH_SIGNATURE && (h.fileSystem != FFS2_GUID || h.extHeaderOffset == 0)
             case Volume(_, _) => VolumeAt(b, romSize, off, items[0]))
         && exists next: nat :: IsNext(b, off, next) && ItemsAt(b, romSize, next, items[1..])
  }

  lemma PayloadOfFile(b: seq<byte>, at: nat, f: FfsFile)
    requires FileAt(b, at, f)
    ensures var h := FfsHeaderOf(b[at..at + FFS_HEADER_SIZE]);
            FilePayload(b, h, at + FFS_HEADER_SIZE)
            == match Contents(f) case Some(d) => Stop(d) case None => Miss(true)
  {
    hide FfsHeaderOf;
    var body := b[at + FFS_HEADER_SIZE..at + FFS_HEADER_SIZE + |f.body|];
    assert forall i :: 0 <= i < |body| ==> body[i] == b[at + FFS_HEADER_SIZE + i];
    assert |body| > 4 ==> body[4..] == b[at + FFS_HEADER_SIZE + 4..at + FFS_HEADER_SIZE + |f.body|];
    assert |body| > 20 ==> body[20..] == b[at + FFS_HEADER_SIZE + 20..at + FFS_HEADER_SIZE + |f.body|];
  }

  lemma {:induction false} WalkPicks(b: seq<byte>, off: nat, end: nat, files: seq<FfsFile>, fileGuid: seq<byte>)
    requires FilesAt(b, off, end, files)
    ensures WalkFiles(b, off, end, fileGuid)
            == match PickFile(files, fileGuid) case Some(d) => Stop(d) case None => Miss(true)
    decreases |files|
  {
    hide FfsHeaderOf, FilePayload, Contents;
    var at := Align8(off);
    if files == [] {
      if off + FFS_HEADER_SIZE < end {
        HeaderName(b, at);
      }
    } else {
      PayloadOfFile(b, at, files[0]);
      WalkPicks(b, at + FFS_HEADER_SIZE + |files[0].body|, end, files[1..], fileGuid);
    }
  }

  lemma HeaderName(b: seq<byte>, at: nat)
    requires at + FFS_HEADER_SIZE <= |b|
    ensures FfsHeaderOf(b[at..at + FFS_HEADER_SIZE]).name == b[at..at + 16]
  {
  }

  /**
  Completeness. On an image laid out from 64 KiB-aligned volumes, and other blocks between them,
  the result is the contents of the first match: the first volume named fvGuid that has an
  ordinary file named fileGuid, and the first such file in it.
  */
  lemma {:induction false} ExtractFirstMatch(b: seq<byte>, romSize: nat, off: nat, items: seq<Item>,
                                             fvGuid: seq<byte>, fileGuid: seq<byte>)
    ensures ItemsAt(b, romSize, off, items) ==>
              ScanVolumes(b, romSize, off, fvGuid, fileGuid) == FirstMatch(items, fvGuid, fileGuid)
    decreases |items|
  {
    hide FvHeaderOf, WalkFiles, FilesAt, PickFile, ScanVolumes, FFS2_GUID, VolumeStep, U32At, IsNext;
    if items == [] && ItemsAt(b, romSize, off, items) {
      ScanEnds(b, romSize, off, fvGuid, fileGuid);
    } else if ItemsAt(b, romSize, off, items) {
      ScanStep(b, romSize, off, fvGuid, fileGuid);
      var h := FvHeaderOf(b[off..off + FV_HEADER_SIZE]);
      var next: nat :| IsNext(b, off, next) && ItemsAt(b, romSize, next, items[1..]);
      NextIs(b, off, next);
      ExtractFirstMatch(b, romSize, next, items[1..], fvGuid, fileGuid);
      match items[0]
      case Gap =>
      case Foreign =>
      case Volume(name, files) =>
        var ext := off + h.extHeaderOffset;
        WalkPicks(b, ext + U32At(b, ext + 16), Min(off + h.fvLength, romSize), files, fileGuid);
    }
  }
}
