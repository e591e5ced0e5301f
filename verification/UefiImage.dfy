/**
Building flash images from volumes and files, and the round trip through `extractFfsFile`.
*/
module UefiImage {
  import opened Bytes
  import opened UefiFv

  function Ones(n: nat): (s: seq<byte>)
    ensures |s| == n && forall i :: 0 <= i < n ==> s[i] == 0xFF
  {
    seq(n, i => 0xFF)
  }

  predicate EncodableFile(f: FfsFile) {
    |f.name| == 16 && !GuidIsAllFf(f.name) && FFS_HEADER_SIZE + |f.body| < 0x100_0000
  }

  function FileHeader(f: FfsFile): (h: seq<byte>)
    requires EncodableFile(f)
    ensures |h| == FFS_HEADER_SIZE
  {
    var size := FFS_HEADER_SIZE + |f.body|;
    f.name + [0, 0, f.fileType, f.attributes, size % 0x100, size / 0x100 % 0x100, size / 0x1_0000, 0xF8]
  }

  // A file, padded to the next 8-byte boundary.
  function EncodeFile(f: FfsFile): (e: seq<byte>)
    requires EncodableFile(f)
    ensures |e| == Align8(FFS_HEADER_SIZE + |f.body|)
  {
    FileHeader(f) + f.body + Ones(Align8(FFS_HEADER_SIZE + |f.body|) - (FFS_HEADER_SIZE + |f.body|))
  }

  predicate EncodableFiles(files: seq<FfsFile>) {
    forall i :: 0 <= i < |files| ==> EncodableFile(files[i])
  }

  function EncodeFiles(files: seq<FfsFile>): (e: seq<byte>)
    requires EncodableFiles(files)
    ensures |e| % 8 == 0
  {
    if files == [] then []
    else
      SumAligned(|EncodeFile(files[0])|, |EncodeFiles(files[1..])|);
      EncodeFile(files[0]) + EncodeFiles(files[1..])
  }

  // Headers, file area, and at least one all-FF file header behind it, in whole 64 KiB blocks.
  function VolumeLength(files: seq<FfsFile>): (n: nat)
    requires EncodableFiles(files)
    ensures n % FV_ALIGNMENT == 0 && n >= 80 + |EncodeFiles(files)| + 32
  {
    VolumeStep(80 + |EncodeFiles(files)| + 32)
  }

  predicate EncodableVolume(v: Item) {
    v.Volume? && |v.name| == 16 && EncodableFiles(v.files)
    && VolumeLength(v.files) < 0x1_0000_0000_0000_0000
  }

  function VolumeHeader(length: nat): (h: seq<byte>)
    ensures |h| == FV_HEADER_SIZE
  {
    Zeros(16) + FFS2_GUID + (Le32(length) + Le32(length / 0x1_0000_0000)) + Le32(FVH_SIGNATURE)
    + Zeros(4) + Le16(FV_HEADER_SIZE) + Le16(0) + Le16(FV_HEADER_SIZE) + [0, 2]
  }

  function EncodeVolume(v: Item): (e: seq<byte>)
    requires EncodableVolume(v)
    ensures |e| == VolumeLength(v.files)
  {
    var files := EncodeFiles(v.files);
    VolumeHeader(VolumeLength(v.files)) + (v.name + Le32(24)) + Zeros(4) + files
    + Ones(VolumeLength(v.files) - 80 - |files|)
  }

  predicate EncodableImage(vols: seq<Item>) {
    forall i :: 0 <= i < |vols| ==> EncodableVolume(vols[i])
  }

  function EncodeImage(vols: seq<Item>): seq<byte>
    requires EncodableImage(vols)
  {
    if vols == [] then [] else EncodeVolume(vols[0]) + EncodeImage(vols[1..])
  }

  lemma HeaderFields(f: FfsFile)
    requires EncodableFile(f)
    ensures FfsHeaderOf(FileHeader(f)) == FfsHeader(f.name, f.fileType, f.attributes, FFS_HEADER_SIZE + |f.body|)
  {
    var h, size := FileHeader(f), FFS_HEADER_SIZE + |f.body|;
    assert h[..16] == f.name;
    assert h[20] == size % 0x100 && h[21] == size / 0x100 % 0x100 && h[22] == size / 0x1_0000;
  }

  lemma EncodedFileAt(b: seq<byte>, at: nat, f: FfsFile)
    requires EncodableFile(f) && At(b, at, EncodeFile(f))
    ensures FileAt(b, at, f)
  {
    hide FfsHeaderOf, FileHeader;
    var pad := Ones(Align8(FFS_HEADER_SIZE + |f.body|) - (FFS_HEADER_SIZE + |f.body|));
    AtSplit(b, at, FileHeader(f) + f.body, pad);
    AtSplit(b, at, FileHeader(f), f.body);
    HeaderFields(f);
  }

  lemma FilesAtUnaligned(b: seq<byte>, off: nat, end: nat, files: seq<FfsFile>)
    requires FilesAt(b, Align8(off), end, files) && Align8(off) + FFS_HEADER_SIZE < end
    ensures FilesAt(b, off, end, files)
  {
    hide FileAt;
  }

  // The padding of a file ends at the next 8-byte boundary.
  lemma AlignedSize(off: nat, f: FfsFile)
    requires EncodableFile(f) && off % 8 == 0
    ensures Align8(off + FFS_HEADER_SIZE + |f.body|) == off + |EncodeFile(f)|
    ensures Align8(off + FFS_HEADER_SIZE + |f.body|) % 8 == 0
  {
    hide EncodeFile;
  }

  lemma AllOnes(b: seq<byte>, off: nat)
    requires At(b, off, Ones(FFS_HEADER_SIZE))
    ensures off + FFS_HEADER_SIZE <= |b| && GuidIsAllFf(b[off..off + 16])
  {
    assert b[off..off + 16] == b[off..off + FFS_HEADER_SIZE][..16];
  }

  lemma {:induction false} EncodedFilesAt(b: seq<byte>, off: nat, end: nat, files: seq<FfsFile>)
    requires EncodableFiles(files) && off % 8 == 0
    requires At(b, off, EncodeFiles(files) + Ones(FFS_HEADER_SIZE))
    requires off + |EncodeFiles(files)| + FFS_HEADER_SIZE < end
    ensures FilesAt(b, off, end, files)
    decreases |files|
  {
    hide FileAt, EncodeFile, At, GuidIsAllFf, Align8;
    if files == [] {
      assert EncodeFiles(files) + Ones(24) == Ones(24);
      AllOnes(b, off);
    } else {
      var f, rest := files[0], EncodeFiles(files[1..]) + Ones(FFS_HEADER_SIZE);
      ConcatAssociative(EncodeFile(f), EncodeFiles(files[1..]), Ones(FFS_HEADER_SIZE));
      AtSplit(b, off, EncodeFile(f), rest);
      EncodedFileAt(b, off, f);
      var next := off + FFS_HEADER_SIZE + |f.body|;
      AlignedSize(off, f);
      EncodedFilesAt(b, Align8(next), end, files[1..]);
      FilesAtUnaligned(b, next, end, files[1..]);
    }
  }

  lemma VolumeHeaderFields(length: nat)
    requires length < 0x1_0000_0000_0000_0000
    ensures FvHeaderOf(VolumeHeader(length)) == FvHeader(FFS2_GUID, length, FVH_SIGNATURE, FV_HEADER_SIZE)
  {
    hide FvHeaderOf, Le16, Le32, Zeros, FFS2_GUID;
    GuidLength();
    var tail: seq<byte> := [0, 2];
    VolumeHeaderPlaces(Zeros(16), FFS2_GUID, length, FVH_SIGNATURE, Zeros(4), Le16(FV_HEADER_SIZE), Le16(0),
                       FV_HEADER_SIZE, tail);
  }

  lemma GuidLength()
    ensures |FFS2_GUID| == 16
  {
  }

  // Where the pieces of an encoded volume sit.
  lemma VolumePieces(b: seq<byte>, off: nat, v: Item)
    requires EncodableVolume(v) && At(b, off, EncodeVolume(v))
    ensures At(b, off, VolumeHeader(VolumeLength(v.files)))
    ensures At(b, off + 56, v.name) && At(b, off + 72, Le32(24))
    ensures At(b, off + 80, EncodeFiles(v.files) + Ones(FFS_HEADER_SIZE))
  {
    hide At, VolumeHeader, EncodeFiles, EncodableFiles, VolumeLength, Le32, Zeros, Ones;
    var n, files := VolumeLength(v.files), EncodeFiles(v.files);
    var fill := n - 80 - |files|;
    var hdr := VolumeHeader(n);
    var rest := Zeros(4) + (files + Ones(fill));
    assert EncodeVolume(v) == hdr + (v.name + (Le32(24) + rest));
    AtSplit(b, off, hdr, v.name + (Le32(24) + rest));
    AtSplit(b, off + 56, v.name, Le32(24) + rest);
    AtSplit(b, off + 72, Le32(24), rest);
    AtSplit(b, off + 76, Zeros(4), files + Ones(fill));
    assert files + Ones(fill) == (files + Ones(24)) + Ones(fill - 24);
    AtSplit(b, off + 80, files + Ones(24), Ones(fill - 24));
  }

  lemma EncodedVolumeAt(b: seq<byte>, romSize: nat, off: nat, v: Item)
    requires EncodableVolume(v) && off % FV_ALIGNMENT == 0
    requires At(b, off, EncodeVolume(v)) && off + VolumeLength(v.files) <= romSize
    ensures off + FV_HEADER_SIZE <= |b|
    ensures FvHeaderOf(b[off..off + FV_HEADER_SIZE]).fvLength == VolumeLength(v.files)
    ensures VolumeAt(b, romSize, off, v)
  {
    hide FvHeaderOf, FilesAt, VolumeHeader, EncodeFiles, EncodeVolume, EncodableFiles, VolumeLength,
         Le32, Ones, U32At, FFS2_GUID;
    var n := VolumeLength(v.files);
    assert (off + 80) % 8 == 0 by { AlignedArea(off); }
    EncodedFileArea(b, romSize, off, v);
    VolumeHeaderFields(n);
    assert b[off..off + 56] == VolumeHeader(n);
    SizeField(b, off + 72);
  }

  lemma AlignedArea(off: nat)
    requires off % FV_ALIGNMENT == 0
    ensures (off + 80) % 8 == 0
  {
  }

  lemma EncodedFileArea(b: seq<byte>, romSize: nat, off: nat, v: Item)
    requires EncodableVolume(v) && (off + 80) % 8 == 0
    requires At(b, off, EncodeVolume(v)) && off + VolumeLength(v.files) <= romSize
    ensures FilesAt(b, off + 80, Min(off + VolumeLength(v.files), romSize), v.files)
    ensures At(b, off, VolumeHeader(VolumeLength(v.files)))
    ensures At(b, off + 56, v.name) && At(b, off + 72, Le32(24))
  {
    hide FilesAt, VolumeHeader, EncodeFiles, EncodeVolume, EncodableFiles, VolumeLength, At;
    VolumePieces(b, off, v);
    EncodedFilesAt(b, off + 80, Min(off + VolumeLength(v.files), romSize), v.files);
  }

  lemma SizeField(b: seq<byte>, off: nat)
    requires At(b, off, Le32(24))
    ensures U32At(b, off) == 24
  {
    var g := b[off..off + 4];
    assert b[off] == g[0] && b[off + 1] == g[1] && b[off + 2] == g[2] && b[off + 3] == g[3];
  }

  lemma {:induction false} EncodedItemsAt(b: seq<byte>, off: nat, vols: seq<Item>)
    requires EncodableImage(vols) && off % FV_ALIGNMENT == 0
    requires off <= |b| && b[off..] == EncodeImage(vols)
    ensures ItemsAt(b, |b|, off, vols)
    decreases |vols|
  {
    hide FvHeaderOf, VolumeAt, EncodeVolume, VolumeLength;
    if vols != [] {
      var v := vols[0];
      var n := VolumeLength(v.files);
      TailSplit(b, off, EncodeVolume(v), EncodeImage(vols[1..]));
      EncodedVolumeAt(b, |b|, off, v);
      EncodedItemsAt(b, off + n, vols[1..]);
      WholeStep(b, off, v);
    }
  }

  // The next volume follows where this one ends.
  lemma WholeStep(b: seq<byte>, off: nat, v: Item)
    requires EncodableVolume(v) && off + FV_HEADER_SIZE <= |b| && VolumeAt(b, |b|, off, v)
    requires FvHeaderOf(b[off..off + FV_HEADER_SIZE]).fvLength == VolumeLength(v.files)
    ensures IsNext(b, off, off + VolumeLength(v.files))
  {
    hide FvHeaderOf, VolumeLength, EncodeFiles, FilesAt, EncodableFiles;
  }

  /**
  Round trip. Extracting from an encoded list of volumes gives the contents of the first match in
  that list, and nothing when there is none.
  */
  lemma ExtractFromEncoded(vols: seq<Item>, fvGuid: seq<byte>, fileGuid: seq<byte>)
    requires EncodableImage(vols)
    ensures var b := EncodeImage(vols);
            ScanVolumes(b, |b|, 0, fvGuid, fileGuid) == FirstMatch(vols, fvGuid, fileGuid)
  {
    hide ScanVolumes, FirstMatch, EncodeImage, ItemsAt;
    var b := EncodeImage(vols);
    assert b[0..] == b;
    EncodedItemsAt(b, 0, vols);
    ExtractFirstMatch(b, |b|, 0, vols, fvGuid, fileGuid);
  }
}
