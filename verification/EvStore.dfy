/**
`EvStorage`: the in-memory entry list, the file behind it, and the operations on both.
A `save` may fail in every way the file system allows, so each mutation takes the outcome of
its save as a parameter.
*/
module EvStore {
  import opened Bytes
  import opened Streams
  import opened EvFormat

  // ----- The file behind the store -----

  datatype Disk = NoFile | File(bytes: seq<byte>)

  // How writing the temporary file and copying it over the real one went. The copy is not
  // atomic: when it fails, the target is untouched or holds the first `copied` bytes.
  datatype SaveOutcome = Saved | TempFailed | CopyFailed(copied: Option<nat>)

  function DiskAfterSave(disk: Disk, file: seq<byte>, o: SaveOutcome): Disk {
    match o
    case Saved => File(file)
    case TempFailed => disk
    case CopyFailed(None) => disk
    case CopyFailed(Some(k)) => File(file[..Min(k, |file|)])
  }

  function LoadDisk(disk: Disk, canOpen: bool): LoadResult {
    match disk
    case NoFile => LoadResult(0, [])
    case File(b) => if canOpen then Parse(b) else LoadResult(-1, [])
  }

  // ----- Operations on the entry list -----

  // The position of the first entry with this name.
  function Find(es: seq<EvEntry>, name: seq<byte>): (r: Option<nat>)
    ensures r.Some? ==> r.value < |es| && es[r.value].name == name
    ensures r.Some? ==> forall i :: 0 <= i < r.value ==> es[i].name != name
    ensures r.None? ==> forall i :: 0 <= i < |es| ==> es[i].name != name
  {
    if es == [] then None
    else if es[0].name == name then Some(0)
    else
      var r := Find(es[1..], name);
      assert forall i :: 1 <= i < |es| ==> es[i] == es[1..][i - 1];
      if r.Some? then Some(r.value + 1) else None
  }

  function Put(es: seq<EvEntry>, name: seq<byte>, data: seq<byte>): seq<EvEntry> {
    match Find(es, name)
    case Some(i) => es[i := EvEntry(name, data)]
    case None => es + [EvEntry(name, data)]
  }

  function Remove(es: seq<EvEntry>, name: seq<byte>): seq<EvEntry> {
    match Find(es, name)
    case Some(i) => es[..i] + es[i + 1..]
    case None => es
  }

  // A `set` is accepted exactly when its arguments are well-formed and the result fits.
  predicate SetAccepted(es: seq<EvEntry>, name: seq<byte>, data: seq<byte>) {
    && 0 < |name| < MAX_EV_NAME_LEN
    && |data| <= MAX_EV_DATA_SIZE
    && SerializedSize(Put(es, name, data)) <= MAX_EV_FILE_SIZE
  }

  datatype Store = Store(entries: seq<EvEntry>, disk: Disk)

  function Commit(s: Store, es: seq<EvEntry>, o: SaveOutcome): Store {
    Store(es, DiskAfterSave(s.disk, Serialize(es), o))
  }

  function AfterSet(s: Store, name: seq<byte>, data: seq<byte>, o: SaveOutcome): Store {
    if SetAccepted(s.entries, name, data) then Commit(s, Put(s.entries, name, data), o) else s
  }

  function AfterDel(s: Store, name: seq<byte>, o: SaveOutcome): Store {
    if Find(s.entries, name).Some? then Commit(s, Remove(s.entries, name), o) else s
  }

  function AfterDeleteAll(s: Store, o: SaveOutcome): Store {
    Commit(s, [], o)
  }

  lemma PutSize(es: seq<EvEntry>, name: seq<byte>, data: seq<byte>)
    ensures SerializedSize(Put(es, name, data)) ==
            match Find(es, name)
            case Some(i) => SerializedSize(es) - |es[i].data| + |data|
            case None => SerializedSize(es) + ENTRY_OVERHEAD + |data|
  {
    var e := EvEntry(name, data);
    match Find(es, name)
    case Some(i) =>
      var es' := es[i := e];
      SizeSplit(es, i);
      SizeSplit(es', i);
      assert es'[..i] == es[..i] && es'[i + 1..] == es[i + 1..];
    case None =>
      SizeAppend(es, [e]);
      assert [e][1..] == [];
  }

  lemma RemoveSize(es: seq<EvEntry>, name: seq<byte>)
    ensures SerializedSize(Remove(es, name)) <= SerializedSize(es)
  {
    var r := Find(es, name);
    if r.Some? {
      SizeSplit(es, r.value);
      SizeAppend(es[..r.value], es[r.value + 1..]);
    }
  }

  class EvStorage {
    var entries: seq<EvEntry>
    var disk: Disk

    // What only `load` and `set` establish, and nothing breaks.
    ghost predicate Valid()
      reads this
    {
      InLimits(entries)
    }

    function State(): Store
      reads this
    {
      Store(entries, disk)
    }

    constructor (disk: Disk)
      ensures State() == Store([], disk) && Valid()
    {
      entries := [];
      this.disk := disk;
    }

    method Load(canOpen: bool) returns (code: int)
      modifies this`entries
      ensures LoadResult(code, entries) == LoadDisk(disk, canOpen)
      ensures disk.NoFile? ==> code == 0 && entries == []
      ensures disk.File? && !canOpen ==> code == -1 && entries == []
      ensures Valid() && Clean(entries)
    {
      entries := [];
      if disk.NoFile? {
        return 0;
      }
      if !canOpen {
        return -1;
      }
      assert Storable(Parse(disk.bytes).entries) by {
        Canonicalisation(disk.bytes);
      }
      var file := new InputStream(disk.bytes);
      var field := file.Read(4);
      var magic := U32At(field, 0);
      field := file.Read(4);
      var count := U32At(field, 0);
      if magic != EV_FILE_MAGIC {
        return -1;
      }
      if count > MAX_LOAD_COUNT {
        return -1;
      }
      LoadEntries(file, count);
      return 0;
    }

    method LoadEntries(file: InputStream, count: nat)
      requires entries == []
      requires file.good ==> file.pos == HEADER_SIZE
      requires !file.good ==> |file.data| < HEADER_SIZE
      modifies this`entries, file
      ensures entries == ParseEntries(file.data, HEADER_SIZE, count)
    {
      hide EntryAt, ParseEntries;
      var totalRead: nat := HEADER_SIZE;
      ghost var all := ParseEntries(file.data, HEADER_SIZE, count);
      if !file.good { NoEntryAt(file.data, HEADER_SIZE); }
      assert [] + all == all;
      var i := 0;
      while i < count && file.good
        invariant 0 <= i <= count
        invariant file.good ==> file.pos == totalRead
        invariant !file.good ==> EntryAt(file.data, totalRead) == None
        invariant entries + ParseEntries(file.data, totalRead, count - i) == all
      {
        ParseStep(file.data, totalRead, count - i);
        var e := ReadEntry(file, totalRead);
        if e.None? {
          return;
        }
        totalRead := totalRead + ENTRY_OVERHEAD + |e.value.data|;
        ConcatAssociative(entries, [e.value], ParseEntries(file.data, totalRead, count - i - 1));
        entries := entries + [e.value];
        i := i + 1;
      }
      if i < count {
        ParseStep(file.data, totalRead, count - i);
      } else {
        ParseNone(file.data, totalRead);
      }
    }

    static lemma NoEntryAt(b: seq<byte>, pos: nat)
      requires |b| < pos + ENTRY_OVERHEAD
      ensures EntryAt(b, pos) == None
    {
    }

    // One turn of the load loop: an entry, or None where the loop breaks off.
    static method ReadEntry(file: InputStream, totalRead: nat) returns (e: Option<EvEntry>)
      requires file.good && file.pos == totalRead
      modifies file
      ensures e == EntryAt(file.data, totalRead)
      ensures e.Some? ==> file.good && file.pos == totalRead + ENTRY_OVERHEAD + |e.value.data|
    {
      var nameBuf := file.Read(MAX_EV_NAME_LEN);
      var field := file.Read(2);
      var dataLen := U16At(field, 0);
      if dataLen > MAX_EV_DATA_SIZE || totalRead + ENTRY_OVERHEAD + dataLen > MAX_EV_FILE_SIZE || !file.good {
        return None;
      }
      var data := Zeros(dataLen);
      if dataLen > 0 {
        data := file.Read(dataLen);
      }
      if !file.good {
        return None;
      }
      nameBuf := nameBuf[MAX_EV_NAME_LEN - 1 := 0];
      var name := file.data[totalRead..totalRead + MAX_EV_NAME_LEN - 1];
      assert nameBuf == name + [0];
      CStrTerminated(name);
      e := Some(EvEntry(CStr(nameBuf), data));
    }

    function GetByIndex(index: nat): Option<EvEntry>
      reads this
    {
      if index >= |entries| then None else Some(entries[index])
    }

    function GetByName(name: seq<byte>): Option<EvEntry>
      reads this
    {
      match Find(entries, name)
      case None => None
      case Some(i) => Some(entries[i])
    }

    function Count(): u32
      reads this
    {
      |entries| % 0x1_0000_0000
    }

    method SerializedBytes() returns (total: nat)
      ensures total == SerializedSize(entries)
    {
      total := HEADER_SIZE;
      for i := 0 to |entries|
        invariant total == SerializedSize(entries[..i])
      {
        SizeSplit(entries, i);
        total := total + ENTRY_OVERHEAD + |entries[i].data|;
      }
      assert entries[..|entries|] == entries;
    }

    method RemainingSize() returns (n: nat)
      ensures n == if SerializedSize(entries) < MAX_EV_FILE_SIZE then MAX_EV_FILE_SIZE - SerializedSize(entries) else 0
      ensures Valid() ==> n + SerializedSize(entries) == MAX_EV_FILE_SIZE
    {
      var used := SerializedBytes();
      n := if used < MAX_EV_FILE_SIZE then MAX_EV_FILE_SIZE - used else 0;
    }

    method Save(o: SaveOutcome) returns (ok: bool)
      modifies this`disk
      ensures disk == DiskAfterSave(old(disk), Serialize(entries), o)
      ensures ok == o.Saved?
    {
      var file := Le32(EV_FILE_MAGIC) + Le32(|entries|);
      ghost var header := file;
      for i := 0 to |entries|
        invariant disk == old(disk)
        invariant file == header + EncodeEntries(entries[..i])
      {
        SizeSplit(entries, i);
        ConcatAssociative(header, EncodeEntries(entries[..i]), EncodeEntry(entries[i]));
        file := WriteEntry(file, entries[i]);
      }
      assert entries[..|entries|] == entries;
      match o {
        case Saved => disk := File(file); ok := true;
        case TempFailed => ok := false;
        case CopyFailed(copied) =>
          if copied.Some? {
            disk := File(file[..Min(copied.value, |file|)]);
          }
          ok := false;
      }
    }

    static method WriteEntry(file: seq<byte>, entry: EvEntry) returns (file': seq<byte>)
      ensures file' == file + EncodeEntry(entry)
    {
      var nameBuf := NameField(entry.name);
      file' := file + nameBuf;
      var dataLen := |entry.data| % 0x1_0000;
      file' := file' + Le16(|entry.data|);
      if dataLen > 0 {
        file' := file' + entry.data[..dataLen];
      }
      AppendFields(file, nameBuf, Le16(|entry.data|), entry.data[..dataLen]);
    }

    method Set(name: seq<byte>, data: seq<byte>, o: SaveOutcome) returns (ok: bool)
      requires Valid()
      modifies this
      ensures Valid()
      ensures State() == AfterSet(old(State()), name, data, o)
      ensures ok == (SetAccepted(old(entries), name, data) && o.Saved?)
    {
      if |name| == 0 || |name| >= MAX_EV_NAME_LEN {
        return false;
      }
      if |data| > MAX_EV_DATA_SIZE {
        return false;
      }
      PutSize(entries, name, data);
      var it := Find(entries, name);
      if it.Some? {
        var i := it.value;
        if |data| > |entries[i].data| {
          var delta := |data| - |entries[i].data|;
          var used := SerializedBytes();
          if used + delta > MAX_EV_FILE_SIZE {
            return false;
          }
        }
        entries := entries[i := entries[i].(data := data)];
        ok := Save(o);
        return;
      }
      var needed := ENTRY_OVERHEAD + |data|;
      var used := SerializedBytes();
      if used + needed > MAX_EV_FILE_SIZE {
        return false;
      }
      entries := entries + [EvEntry(name, data)];
      ok := Save(o);
    }

    method Del(name: seq<byte>, o: SaveOutcome) returns (ok: bool)
      requires Valid()
      modifies this
      ensures Valid()
      ensures State() == AfterDel(old(State()), name, o)
      ensures ok == (Find(old(entries), name).Some? && o.Saved?)
    {
      var it := Find(entries, name);
      if it.None? {
        return false;
      }
      RemoveSize(entries, name);
      entries := entries[..it.value] + entries[it.value + 1..];
      ok := Save(o);
    }

    method DeleteAll(o: SaveOutcome) returns (ok: bool)
      modifies this
      ensures Valid()
      ensures State() == AfterDeleteAll(old(State()), o)
      ensures ok == o.Saved?
    {
      entries := [];
      ok := Save(o);
    }
  }
}
