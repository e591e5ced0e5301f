/**
The EV file: its byte format, the tolerant parser that reads it back, and the theorems that
relate the two (torn files, canonical form, exact sizes).
*/
module EvFormat {
  import opened Bytes
  import opened Streams

  const MAX_EV_FILE_SIZE: nat := 65536
  const MAX_EV_NAME_LEN: nat := 32
  const MAX_EV_DATA_SIZE: nat := 3966
  const EV_FILE_MAGIC: u32 := 0x31535645
  const ENTRY_OVERHEAD: nat := 34
  const HEADER_SIZE: nat := 8

  datatype EvEntry = EvEntry(name: seq<byte>, data: seq<byte>)

  // ----- Writing -----

  // strncpy of at most 31 characters into a zeroed 32-byte field.
  function NameField(name: seq<byte>): (f: seq<byte>)
    ensures |f| == MAX_EV_NAME_LEN
  {
    var c := CStr(name);
    var k := Min(|c|, MAX_EV_NAME_LEN - 1);
    c[..k] + Zeros(MAX_EV_NAME_LEN - k)
  }

  function EncodeEntry(e: EvEntry): (enc: seq<byte>)
    ensures |e.data| < 0x1_0000 ==> |enc| == ENTRY_OVERHEAD + |e.data|
  {
    NameField(e.name) + Le16(|e.data|) + e.data[..|e.data| % 0x1_0000]
  }

  function EncodeEntries(es: seq<EvEntry>): seq<byte> {
    if es == [] then [] else EncodeEntry(es[0]) + EncodeEntries(es[1..])
  }

  function Serialize(es: seq<EvEntry>): seq<byte> {
    Le32(EV_FILE_MAGIC) + Le32(|es|) + EncodeEntries(es)
  }

  function EntriesSize(es: seq<EvEntry>): nat {
    if es == [] then 0 else ENTRY_OVERHEAD + |es[0].data| + EntriesSize(es[1..])
  }

  function SerializedSize(es: seq<EvEntry>): nat {
    HEADER_SIZE + EntriesSize(es)
  }

  // ----- What a store may hold -----

  predicate EntryInLimits(e: EvEntry) {
    |e.name| < MAX_EV_NAME_LEN && |e.data| <= MAX_EV_DATA_SIZE
  }

  // Entries that the format can hold without loss.
  predicate Encodable(es: seq<EvEntry>) {
    forall i :: 0 <= i < |es| ==> EntryInLimits(es[i]) && 0 !in es[i].name
  }

  predicate InLimits(es: seq<EvEntry>) {
    && (forall i :: 0 <= i < |es| ==> EntryInLimits(es[i]))
    && SerializedSize(es) <= MAX_EV_FILE_SIZE
  }

  // Names that came out of a C string hold no NUL.
  predicate Clean(es: seq<EvEntry>) {
    forall i :: 0 <= i < |es| ==> 0 !in es[i].name
  }

  predicate Storable(es: seq<EvEntry>) {
    InLimits(es) && Clean(es)
  }

  // ----- Reading -----

  datatype LoadResult = LoadResult(code: int, entries: seq<EvEntry>)

  const MAX_LOAD_COUNT: nat := 10000

  // The entry at pos, unless it is torn or over a limit.
  function EntryAt(b: seq<byte>, pos: nat): (r: Option<EvEntry>)
    ensures r.Some? ==>
      EntryInLimits(r.value) && 0 !in r.value.name
      && pos + ENTRY_OVERHEAD + |r.value.data| <= Min(|b|, MAX_EV_FILE_SIZE)
  {
    if pos + ENTRY_OVERHEAD > |b| then
      None
    else
      var len := U16At(b, pos + MAX_EV_NAME_LEN);
      var next := pos + ENTRY_OVERHEAD + len;
      if len > MAX_EV_DATA_SIZE || next > MAX_EV_FILE_SIZE || next > |b| then
        None
      else
        Some(EvEntry(CStr(b[pos..pos + MAX_EV_NAME_LEN - 1]), b[pos + ENTRY_OVERHEAD..next]))
  }

  // At most n entries read from pos on, up to the first unreadable one.
  function ParseEntries(b: seq<byte>, pos: nat, n: nat): seq<EvEntry>
    decreases n
  {
    if n == 0 then []
    else
      match EntryAt(b, pos)
      case None => []
      case Some(e) => [e] + ParseEntries(b, pos + ENTRY_OVERHEAD + |e.data|, n - 1)
  }

  function Parse(b: seq<byte>): LoadResult {
    var magic := U32At(Window(b, 0, 4), 0);
    var count := U32At(Window(b, 4, 4), 0);
    if magic != EV_FILE_MAGIC then LoadResult(-1, [])
    else if count > MAX_LOAD_COUNT then LoadResult(-1, [])
    else LoadResult(0, ParseEntries(b, HEADER_SIZE, count))
  }

  // ----- Sizes -----

  lemma {:induction false} EncodeAppend(a: seq<EvEntry>, b: seq<EvEntry>)
    ensures EncodeEntries(a + b) == EncodeEntries(a) + EncodeEntries(b)
  {
    if a == [] {
      assert a + b == b;
    } else {
      EncodeAppend(a[1..], b);
      assert (a + b)[1..] == a[1..] + b;
      ConcatAssociative(EncodeEntry(a[0]), EncodeEntries(a[1..]), EncodeEntries(b));
    }
  }

  lemma {:induction false} SizeAppend(a: seq<EvEntry>, b: seq<EvEntry>)
    ensures EntriesSize(a + b) == EntriesSize(a) + EntriesSize(b)
  {
    if a == [] {
      assert a + b == b;
    } else {
      SizeAppend(a[1..], b);
      assert (a + b)[1..] == a[1..] + b;
    }
  }

  // Splitting a store at one entry.
  lemma SizeSplit(es: seq<EvEntry>, i: nat)
    requires i < |es|
    ensures EntriesSize(es) == EntriesSize(es[..i]) + ENTRY_OVERHEAD + |es[i].data| + EntriesSize(es[i + 1..])
    ensures EntriesSize(es[..i + 1]) == EntriesSize(es[..i]) + ENTRY_OVERHEAD + |es[i].data|
    ensures EncodeEntries(es[..i + 1]) == EncodeEntries(es[..i]) + EncodeEntry(es[i])
  {
    var one := [es[i]];
    assert one[1..] == [];
    assert es[..i + 1] == es[..i] + one;
    assert es == es[..i + 1] + es[i + 1..];
    SizeAppend(es[..i], one);
    SizeAppend(es[..i + 1], es[i + 1..]);
    EncodeAppend(es[..i], one);
    assert EncodeEntries(one) == EncodeEntry(es[i]) + [];
  }

  /** The running total that `serializedSize` computes is the length of the file `save` writes. */
  lemma {:induction false} SerializedLength(es: seq<EvEntry>)
    requires forall i :: 0 <= i < |es| ==> EntryInLimits(es[i])
    ensures |Serialize(es)| == SerializedSize(es)
    ensures |EncodeEntries(es)| == EntriesSize(es)
  {
    hide EncodeEntry;
    if es != [] {
      assert EntryInLimits(es[0]);
      SerializedLength(es[1..]);
    }
  }

  /** A store within the byte budget has at most 1927 entries. */
  lemma {:induction false} CountBound(es: seq<EvEntry>)
    ensures ENTRY_OVERHEAD * |es| <= EntriesSize(es)
    ensures SerializedSize(es) <= MAX_EV_FILE_SIZE ==> |es| <= 1927
  {
    if es != [] {
      CountBound(es[1..]);
    }
  }

  // ----- Torn files -----

  // The first m entries lie wholly inside the first k bytes of the file, and no further one does.
  predicate WholeEntries(es: seq<EvEntry>, k: nat, m: nat) {
    && m <= |es|
    && (m > 0 ==> SerializedSize(es[..m]) <= k)
    && (m < |es| ==> k < SerializedSize(es[..m + 1]))
  }

  lemma SizeMonotone(es: seq<EvEntry>, m: nat, m': nat)
    requires m < m' <= |es|
    ensures SerializedSize(es[..m]) < SerializedSize(es[..m']) <= SerializedSize(es)
  {
    SizeAppend(es[..m], es[m..m']);
    assert es[..m] + es[m..m'] == es[..m'];
    SizeAppend(es[..m'], es[m'..]);
    assert es[..m'] + es[m'..] == es;
  }

  lemma WholeEntriesUnique(es: seq<EvEntry>, k: nat, m: nat, m': nat)
    requires WholeEntries(es, k, m) && WholeEntries(es, k, m')
    ensures m == m'
  {
    if m < m' {
      if m + 1 < m' { SizeMonotone(es, m + 1, m'); }
    } else if m' < m {
      if m' + 1 < m { SizeMonotone(es, m' + 1, m); }
    }
  }

  // What an encoded entry shows at each offset.
  lemma EncodedFields(e: EvEntry)
    requires EntryInLimits(e) && 0 !in e.name
    ensures var enc := EncodeEntry(e);
            && |enc| == ENTRY_OVERHEAD + |e.data|
            && CStr(enc[..MAX_EV_NAME_LEN - 1]) == e.name
            && U16At(enc, MAX_EV_NAME_LEN) == |e.data|
            && enc[ENTRY_OVERHEAD..] == e.data
  {
    var enc := EncodeEntry(e);
    CStrOfPadded(e.name, []);
    assert e.name + [] == e.name;
    var pad := Zeros(MAX_EV_NAME_LEN - 1 - |e.name|);
    assert enc[..MAX_EV_NAME_LEN - 1] == e.name + pad;
    CStrOfPadded(e.name, pad);
    Le16At(NameField(e.name), |e.data|, e.data);
  }

  // What the parser needs to see of one encoded entry.
  predicate Encodes(enc: seq<byte>, e: EvEntry) {
    && EntryInLimits(e)
    && |enc| == ENTRY_OVERHEAD + |e.data|
    && CStr(enc[..MAX_EV_NAME_LEN - 1]) == e.name
    && U16At(enc, MAX_EV_NAME_LEN) == |e.data|
    && enc[ENTRY_OVERHEAD..] == e.data
  }

  lemma WholeEntryAt(b: seq<byte>, pos: nat, enc: seq<byte>, e: EvEntry)
    requires Encodes(enc, e)
    requires pos + |enc| <= |b| && pos + |enc| <= MAX_EV_FILE_SIZE && b[pos..pos + |enc|] == enc
    ensures EntryAt(b, pos) == Some(e)
  {
    assert b[pos..pos + 31] == enc[..31];
    assert b[pos + 34..pos + |enc|] == enc[34..];
    assert enc[32] == b[pos + 32] && enc[33] == b[pos + 33];
  }

  lemma CutEntryAt(b: seq<byte>, pos: nat, enc: seq<byte>, e: EvEntry)
    requires Encodes(enc, e)
    requires pos <= |b| < pos + |enc| && b[pos..] == enc[..|b| - pos]
    ensures EntryAt(b, pos) == None
  {
    if pos + 34 <= |b| {
      assert enc[32] == b[pos..][32] && enc[33] == b[pos..][33];
    }
  }

  // Reading back encoded entries from a file that ends inside the first entry of `torn`.
  lemma {:induction false} ParseTorn(b: seq<byte>, pos: nat, whole: seq<EvEntry>, torn: seq<EvEntry>, n: nat)
    requires n == |whole| + |torn|
    requires Encodable(whole) && Encodable(torn)
    requires pos + EntriesSize(whole) <= |b| && pos + EntriesSize(whole) <= MAX_EV_FILE_SIZE
    requires b[pos..] <= EncodeEntries(whole) + EncodeEntries(torn)
    requires torn != [] ==> |b| < pos + EntriesSize(whole) + ENTRY_OVERHEAD + |torn[0].data|
    ensures ParseEntries(b, pos, n) == whole
    decreases n
  {
    hide EntryAt, EncodeEntry, EntryInLimits, ParseEntries;
    if n == 0 {
      assert ParseEntries(b, pos, 0) == [] by { ParseNone(b, pos); }
    } else if whole == [] {
      TornEntryAt(b, pos, torn);
      ParseStep(b, pos, n);
    } else {
      var e, rest := whole[0], whole[1..];
      var enc, more := EncodeEntry(e), EncodeEntries(rest) + EncodeEntries(torn);
      var next := pos + ENTRY_OVERHEAD + |e.data|;
      assert next == pos + |enc| && b[pos..next] == enc && b[next..] <= more by {
        EncodedFields(e);
        ConcatAssociative(enc, EncodeEntries(rest), EncodeEntries(torn));
        PrefixSplit(b, pos, enc, more);
      }
      assert EntryAt(b, pos) == Some(e) by {
        EncodedFields(e);
        WholeEntryAt(b, pos, enc, e);
      }
      ParseTorn(b, next, rest, torn, n - 1);
      ParseStep(b, pos, n);
      assert whole == [e] + rest;
    }
  }

  lemma TornEntryAt(b: seq<byte>, pos: nat, torn: seq<EvEntry>)
    requires torn != [] && Encodable(torn)
    requires pos <= |b| < pos + ENTRY_OVERHEAD + |torn[0].data|
    requires b[pos..] <= EncodeEntries(torn)
    ensures EntryAt(b, pos) == None
  {
    hide EntryAt, EncodeEntry;
    var enc, more := EncodeEntry(torn[0]), EncodeEntries(torn[1..]);
    EncodedFields(torn[0]);
    assert b[pos..] == (enc + more)[..|b| - pos] == enc[..|b| - pos];
    CutEntryAt(b, pos, enc, torn[0]);
  }

  lemma ParseNone(b: seq<byte>, pos: nat)
    ensures ParseEntries(b, pos, 0) == []
  {
  }

  lemma ParseStep(b: seq<byte>, pos: nat, n: nat)
    requires n > 0
    ensures ParseEntries(b, pos, n) ==
            match EntryAt(b, pos)
            case None => []
            case Some(e) => [e] + ParseEntries(b, pos + ENTRY_OVERHEAD + |e.data|, n - 1)
  {
  }

  lemma PrefixSplit(b: seq<byte>, pos: nat, enc: seq<byte>, more: seq<byte>)
    requires pos + |enc| <= |b| && b[pos..] <= enc + more
    ensures b[pos..pos + |enc|] == enc && b[pos + |enc|..] <= more
  {
    var seen := b[pos..];
    assert seen[..|enc|] == (enc + more)[..|enc|] == enc;
    assert seen[|enc|..] == (enc + more)[|enc|..|seen|] == more[..|seen| - |enc|];
  }

  lemma WholeEntriesExist(es: seq<EvEntry>, k: nat) returns (m: nat)
    ensures WholeEntries(es, k, m)
  {
    m := 0;
    while m < |es| && SerializedSize(es[..m + 1]) <= k
      invariant m <= |es|
      invariant m > 0 ==> SerializedSize(es[..m]) <= k
    {
      m := m + 1;
    }
  }

  /**
  Torn-file recovery. Cut the file that `save` writes after any k bytes. If at least the magic
  number survives, loading it succeeds and yields exactly the entries that lie wholly inside
  those k bytes; otherwise it fails and yields the empty store.
  */
  lemma TornFileRecovery(es: seq<EvEntry>, k: nat, m: nat)
    requires Storable(es) && k <= |Serialize(es)| && WholeEntries(es, k, m)
    ensures Parse(Serialize(es)[..k]) == if k < 4 then LoadResult(-1, []) else LoadResult(0, es[..m])
  {
    var file := Serialize(es);
    var b := file[..k];
    FileHeader(es);
    if k < 4 {
      assert Window(b, 0, 4)[3] == 0 && file[3] == 0x31;
    } else {
      assert Window(b, 0, 4) == file[..4];
      CountBound(es);
      if k < 8 {
        PartialCount(file, k, |es|);
        assert ParseEntries(b, HEADER_SIZE, U32At(Window(b, 4, 4), 0)) == [];
      } else {
        assert Window(b, 4, 4) == file[4..8];
        assert b[8..] == file[8..][..k - 8];
        ParseTornBody(b, es, m);
      }
    }
  }

  lemma ParseTornBody(b: seq<byte>, es: seq<EvEntry>, m: nat)
    requires Storable(es) && |b| >= HEADER_SIZE && WholeEntries(es, |b|, m)
    requires b[HEADER_SIZE..] <= EncodeEntries(es)
    ensures ParseEntries(b, HEADER_SIZE, |es|) == es[..m]
  {
    hide EncodeEntry, EntryAt;
    var whole, torn := es[..m], es[m..];
    assert whole + torn == es;
    EncodeAppend(whole, torn);
    if m < |es| { SizeSplit(es, m); }
    SizeAppend(whole, torn);
    ParseTorn(b, HEADER_SIZE, whole, torn, |es|);
  }

  // The eight bytes in front of the entries.
  lemma FileHeader(es: seq<EvEntry>)
    requires SerializedSize(es) <= MAX_EV_FILE_SIZE
    ensures var file := Serialize(es);
            && |file| >= HEADER_SIZE
            && U32At(file[..4], 0) == EV_FILE_MAGIC && file[3] == 0x31
            && U32At(file[4..8], 0) == U32At(file, 4) == |es|
            && file[HEADER_SIZE..] == EncodeEntries(es)
  {
    hide Le32, EncodeEntries, U32At, EntriesSize;
    var file := Serialize(es);
    var magic, count, body := Le32(EV_FILE_MAGIC), Le32(|es|), EncodeEntries(es);
    assert file[..4] == [] + magic + [];
    Le32At([], EV_FILE_MAGIC, []);
    assert file[3] == magic[3] == 0x31 by { MagicByte(); }
    CountBound(es);
    Le32At(magic, |es|, body);
    assert file[4..8] == [] + count + [];
    Le32At([], |es|, []);
  }

  lemma MagicByte()
    ensures Le32(EV_FILE_MAGIC)[3] == 0x31
  {
  }

  // A count field cut short reads as its low bytes, so never as more than the count itself.
  lemma PartialCount(file: seq<byte>, k: nat, n: nat)
    requires 4 <= k < 8 <= |file|
    requires U32At(file, 4) == n
    ensures U32At(Window(file[..k], 4, 4), 0) <= n
  {
    var c := Window(file[..k], 4, 4);
    assert forall i :: 0 <= i < 4 ==> c[i] == if 4 + i < k then file[4 + i] else 0;
    assert c[0] <= file[4] && c[1] <= file[5] && c[2] <= file[6] && c[3] <= file[7];
  }

  /** Loading what `save` wrote gives the store back, entry for entry and in order. */
  lemma RoundTrip(es: seq<EvEntry>)
    requires Storable(es)
    ensures Parse(Serialize(es)) == LoadResult(0, es)
  {
    var file := Serialize(es);
    SerializedLength(es);
    if |es| > 0 { assert es[..|es|] == es; }
    TornFileRecovery(es, |file|, |es|);
    assert file[..|file|] == file;
    assert es[..|es|] == es;
  }

  // ----- Canonical form -----

  lemma {:induction false} ParsedEntriesStorable(b: seq<byte>, pos: nat, n: nat)
    requires pos <= MAX_EV_FILE_SIZE
    ensures var es := ParseEntries(b, pos, n);
            && Encodable(es)
            && pos + EntriesSize(es) <= MAX_EV_FILE_SIZE
            && |es| <= n
    decreases n
  {
    if n > 0 {
      var first := EntryAt(b, pos);
      if first.Some? {
        var next := pos + ENTRY_OVERHEAD + |first.value.data|;
        ParsedEntriesStorable(b, next, n - 1);
        var es := ParseEntries(b, pos, n);
        assert es[1..] == ParseEntries(b, next, n - 1);
        forall i | 0 <= i < |es| ensures EntryInLimits(es[i]) && 0 !in es[i].name {
          if i > 0 { assert es[i] == es[1..][i - 1]; }
        }
      }
    }
  }

  /**
  Canonicalisation. Whatever bytes the file holds, the loaded store is within every limit, and
  saving it and loading it again changes nothing, even if names repeat or are empty.
  */
  lemma Canonicalisation(b: seq<byte>)
    ensures Storable(Parse(b).entries)
    ensures Parse(Serialize(Parse(b).entries)) == LoadResult(0, Parse(b).entries)
  {
    ParsedEntriesStorable(b, HEADER_SIZE, U32At(Window(b, 4, 4), 0));
    RoundTrip(Parse(b).entries);
  }

  // ----- What the loader takes -----

  // The bytes at pos are a whole entry within the limits: a name of at most 31 bytes ended by a NUL
  // unless it has all 31, the length of the data at 32, and the data from 34 on.
  predicate EntryOn(b: seq<byte>, pos: nat, e: EvEntry) {
    var k, n := |e.name|, |e.data|;
    && n <= 3966 && pos + 34 + n <= |b| && pos + 34 + n <= 65536
    && U16At(b, pos + 32) == n && b[pos + 34..pos + 34 + n] == e.data
    && k <= 31 && b[pos..pos + k] == e.name && 0 !in e.name && (k == 31 || b[pos + k] == 0)
  }

  // Entries one behind the other from pos on.
  predicate EntriesOn(b: seq<byte>, pos: nat, es: seq<EvEntry>)
    decreases |es|
  {
    es == [] || (EntryOn(b, pos, es[0]) && EntriesOn(b, pos + 34 + |es[0].data|, es[1..]))
  }

  lemma EntryAtExactly(b: seq<byte>, pos: nat, e: EvEntry)
    ensures EntryAt(b, pos) == Some(e) <==> EntryOn(b, pos, e)
  {
    hide U16At, CStr;
    if pos + 34 <= |b| {
      var field := b[pos..pos + 31];
      CStrExactly(field, e.name);
      assert |e.name| <= 31 ==> field[..|e.name|] == b[pos..pos + |e.name|];
    }
  }

  lemma {:induction false} LongestEntries(b: seq<byte>, pos: nat, n: nat, es: seq<EvEntry>)
    ensures EntriesOn(b, pos, ParseEntries(b, pos, n)) && |ParseEntries(b, pos, n)| <= n
    ensures EntriesOn(b, pos, es) && |es| <= n ==> es <= ParseEntries(b, pos, n)
    decreases n
  {
    hide EntryAt, EntryOn;
    var first := EntryAt(b, pos);
    if es != [] { EntryAtExactly(b, pos, es[0]); }
    if n > 0 && first.Some? {
      EntryAtExactly(b, pos, first.value);
      LongestEntries(b, pos + 34 + |first.value.data|, n - 1, if es == [] then [] else es[1..]);
      assert ParseEntries(b, pos, n)[1..] == ParseEntries(b, pos + 34 + |first.value.data|, n - 1);
      if es != [] { assert es == [es[0]] + es[1..]; }
    }
  }

  /**
  What loading takes from any bytes. A file of at least eight bytes loads if and only if it starts with
  "EVS1" and its count is at most 10000; then the entries are the longest leading run, among the first
  `count`, of whole entries within the limits. Otherwise the code is -1 and there are none.
  */
  lemma LoadTakesLongestRun(b: seq<byte>, es: seq<EvEntry>)
    requires |b| >= 8
    ensures var r, count := Parse(b), U32At(b, 4);
            var good := b[..4] == ['E' as int, 'V' as int, 'S' as int, '1' as int] && count <= 10000;
            && r.code == (if good then 0 else -1)
            && (!good ==> r.entries == [])
            && EntriesOn(b, 8, r.entries) && |r.entries| <= count
            && (good && EntriesOn(b, 8, es) && |es| <= count ==> es <= r.entries)
  {
    hide EntryOn, ParseEntries, U16At;
    assert U32At(Window(b, 4, 4), 0) == U32At(b, 4) by { FieldAt(b, 4); }
    MagicSpelled(b[..4]);
    assert Window(b, 0, 4) == b[..4];
    LongestEntries(b, 8, U32At(b, 4), es);
  }

  // A file cut inside its header holds no entries; without the magic number it does not load.
  lemma ShortFile(b: seq<byte>)
    requires |b| < 8
    ensures Parse(b).entries == [] && (|b| < 4 ==> Parse(b).code == -1)
  {
    assert EntryAt(b, HEADER_SIZE) == None;
    if |b| < 4 { assert Window(b, 0, 4)[3] == 0; }
  }

  lemma FieldAt(b: seq<byte>, off: nat)
    requires off + 4 <= |b|
    ensures U32At(Window(b, off, 4), 0) == U32At(b, off)
  {
  }

  lemma MagicSpelled(m: seq<byte>)
    requires |m| == 4
    ensures U32At(m, 0) == EV_FILE_MAGIC <==> m == ['E' as int, 'V' as int, 'S' as int, '1' as int]
  {
    LittleEndian(m, 0);
  }
}
