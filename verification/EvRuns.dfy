/**
Whole runs of the EV store: it refines a finite map that remembers insertion order, its
invariants survive every failed save and every restart, and what was saved comes back.
*/
module EvRuns {
  import opened Bytes
  import opened Streams
  import opened EvFormat
  import opened EvStore

  datatype EvOp =
    | OpSet(name: seq<byte>, data: seq<byte>, outcome: SaveOutcome)
    | OpDel(name: seq<byte>, outcome: SaveOutcome)
    | OpDeleteAll(outcome: SaveOutcome)
    | OpRestart(canOpen: bool)

  function Step(s: Store, op: EvOp): Store {
    match op
    case OpSet(name, data, o) => AfterSet(s, name, data, o)
    case OpDel(name, o) => AfterDel(s, name, o)
    case OpDeleteAll(o) => AfterDeleteAll(s, o)
    case OpRestart(canOpen) => Store(LoadDisk(s.disk, canOpen).entries, s.disk)
  }

  function Run(s: Store, ops: seq<EvOp>): Store
    decreases |ops|
  {
    if ops == [] then s else Run(Step(s, ops[0]), ops[1..])
  }

  // ----- The finite map -----

  type Name = seq<byte>
  datatype AbsStore = AbsStore(order: seq<Name>, values: map<Name, seq<byte>>)

  function AbsEntriesSize(order: seq<Name>, values: map<Name, seq<byte>>): nat
    requires forall n :: n in order ==> n in values
  {
    if order == [] then 0
    else 34 + |values[order[0]]| + AbsEntriesSize(order[1..], values)
  }

  function Without(order: seq<Name>, n: Name): seq<Name> {
    if order == [] then []
    else if order[0] == n then Without(order[1..], n)
    else [order[0]] + Without(order[1..], n)
  }

  ghost predicate AbsValid(a: AbsStore) {
    forall n :: n in a.order <==> n in a.values
  }

  function AbsPut(a: AbsStore, n: Name, d: seq<byte>): (a': AbsStore)
    requires AbsValid(a)
    ensures AbsValid(a')
  {
    AbsStore(if n in a.values then a.order else a.order + [n], a.values[n := d])
  }

  lemma {:induction false} WithoutMembers(order: seq<Name>, n: Name)
    ensures forall x :: x in Without(order, n) <==> x in order && x != n
  {
    if order != [] {
      WithoutMembers(order[1..], n);
    }
  }

  function AbsStep(a: AbsStore, op: EvOp): (a': AbsStore)
    requires AbsValid(a) && !op.OpRestart?
    ensures AbsValid(a')
  {
    match op
    case OpSet(n, d, _) =>
      var a' := AbsPut(a, n, d);
      if 0 < |n| < 32 && |d| <= 3966 && 8 + AbsEntriesSize(a'.order, a'.values) <= 65536 then a' else a
    case OpDel(n, _) =>
      WithoutMembers(a.order, n);
      AbsStore(Without(a.order, n), a.values - {n})
    case OpDeleteAll(_) => AbsStore([], map[])
  }

  function AbsRun(a: AbsStore, ops: seq<EvOp>): (a': AbsStore)
    requires AbsValid(a) && forall i :: 0 <= i < |ops| ==> !ops[i].OpRestart?
    ensures AbsValid(a')
    decreases |ops|
  {
    if ops == [] then a else AbsRun(AbsStep(a, ops[0]), ops[1..])
  }

  // ----- What the entry list means -----

  ghost predicate Unique(es: seq<EvEntry>) {
    forall i, j :: 0 <= i < j < |es| ==> es[i].name != es[j].name
  }

  function Names(es: seq<EvEntry>): (ns: seq<Name>)
    ensures |ns| == |es| && forall i :: 0 <= i < |es| ==> ns[i] == es[i].name
  {
    if es == [] then [] else [es[0].name] + Names(es[1..])
  }

  function Values(es: seq<EvEntry>): (m: map<Name, seq<byte>>)
    ensures forall n :: n in m <==> Find(es, n).Some?
    ensures forall n :: n in m ==> m[n] == es[Find(es, n).value].data
  {
    map n | n in Names(es) :: es[Find(es, n).value].data
  }

  function Abs(es: seq<EvEntry>): (a: AbsStore)
    ensures AbsValid(a)
  {
    AbsStore(Names(es), Values(es))
  }

  /** `getByName` is lookup in the map. */
  lemma LookupRefines(st: EvStorage, n: Name)
    ensures var a := Abs(st.entries);
            st.GetByName(n) == if n in a.values then Some(EvEntry(n, a.values[n])) else None
  {
  }

  lemma FindUnique(es: seq<EvEntry>, i: nat)
    requires Unique(es) && i < |es|
    ensures Find(es, es[i].name) == Some(i)
  {
  }

  lemma {:induction false} AbsSize(es: seq<EvEntry>, m: map<Name, seq<byte>>)
    requires forall i :: 0 <= i < |es| ==> es[i].name in m && m[es[i].name] == es[i].data
    ensures forall n :: n in Names(es) ==> n in m
    ensures AbsEntriesSize(Names(es), m) == EntriesSize(es)
  {
    if es != [] {
      assert Names(es)[1..] == Names(es[1..]);
      assert es[0].name in m;
      AbsSize(es[1..], m);
    }
  }

  ghost predicate HoldsEach(es: seq<EvEntry>, m: map<Name, seq<byte>>) {
    forall i :: 0 <= i < |es| ==> es[i].name in m && m[es[i].name] == es[i].data
  }

  lemma HeldAt(es: seq<EvEntry>, m: map<Name, seq<byte>>, i: nat)
    requires HoldsEach(es, m) && i < |es|
    ensures es[i].name in m && m[es[i].name] == es[i].data
  {
  }

  // A map with the list's names as keys, holding each entry's data, is the map of the list.
  lemma ValuesAre(es: seq<EvEntry>, m: map<Name, seq<byte>>)
    requires Unique(es)
    requires forall n :: n in m <==> n in Names(es)
    requires HoldsEach(es, m)
    ensures Values(es) == m
  {
    assert forall n :: n in Values(es) <==> n in m;
    hide Unique, Find, Values, HoldsEach;
    forall n | n in m ensures Values(es)[n] == m[n] {
      var i := IndexIn(Names(es), n);
      FindUnique(es, i);
      HeldAt(es, m, i);
    }
  }

  lemma IndexIn(ns: seq<Name>, n: Name) returns (i: nat)
    requires n in ns
    ensures i < |ns| && ns[i] == n
  {
    i :| 0 <= i < |ns| && ns[i] == n;
  }

  lemma ValueAt(es: seq<EvEntry>, i: nat)
    requires Unique(es) && i < |es|
    ensures es[i].name in Values(es) && Values(es)[es[i].name] == es[i].data
  {
    FindUnique(es, i);
  }

  lemma PutUnique(es: seq<EvEntry>, n: Name, d: seq<byte>)
    requires Unique(es)
    ensures Unique(Put(es, n, d))
    ensures Names(Put(es, n, d)) == if Find(es, n).Some? then Names(es) else Names(es) + [n]
  {
    hide Names, Find;
  }

  lemma PutRefines(es: seq<EvEntry>, n: Name, d: seq<byte>)
    requires Unique(es)
    ensures Unique(Put(es, n, d))
    ensures Abs(Put(es, n, d)) == AbsPut(Abs(es), n, d)
  {
    PutUnique(es, n, d);
    PutValues(es, n, d);
    assert n in Values(es) <==> Find(es, n).Some?;
  }

  lemma PutValues(es: seq<EvEntry>, n: Name, d: seq<byte>)
    requires Unique(es) && Unique(Put(es, n, d))
    ensures Values(Put(es, n, d)) == Values(es)[n := d]
  {
    var es', m := Put(es, n, d), Values(es)[n := d];
    PutUnique(es, n, d);
    assert HoldsEach(es', m) by {
      forall i | 0 <= i < |es'| ensures es'[i].name in m && m[es'[i].name] == es'[i].data {
        if es'[i].name != n { ValueAt(es, i); }
      }
    }
    ValuesAre(es', m);
  }

  lemma {:induction false} WithoutSplit(order: seq<Name>, i: nat)
    requires i < |order|
    requires forall j, k :: 0 <= j < k < |order| ==> order[j] != order[k]
    ensures Without(order, order[i]) == order[..i] + order[i + 1..]
  {
    if i == 0 {
      WithoutAbsent(order[1..], order[0]);
      assert order[1..] == order[..0] + order[1..];
    } else {
      WithoutSplit(order[1..], i - 1);
      assert order[..i] + order[i + 1..] == [order[0]] + (order[1..][..i - 1] + order[1..][i..]);
    }
  }

  lemma {:induction false} WithoutAbsent(order: seq<Name>, n: Name)
    requires n !in order
    ensures Without(order, n) == order
  {
    if order != [] {
      WithoutAbsent(order[1..], n);
    }
  }

  lemma RemoveUnique(es: seq<EvEntry>, i: nat)
    requires Unique(es) && i < |es|
    ensures Unique(es[..i] + es[i + 1..])
    ensures Names(es[..i] + es[i + 1..]) == Without(Names(es), es[i].name)
  {
    hide Names, Without;
    var es' := es[..i] + es[i + 1..];
    assert forall j :: 0 <= j < |es'| ==> es'[j] == es[if j < i then j else j + 1];
    NamesWithout(es, i);
    WithoutSplit(Names(es), i);
  }

  lemma NamesWithout(es: seq<EvEntry>, i: nat)
    requires i < |es|
    ensures Names(es[..i] + es[i + 1..]) == Names(es)[..i] + Names(es)[i + 1..]
  {
    hide Names;
  }

  lemma RemoveRefines(es: seq<EvEntry>, n: Name)
    requires Unique(es)
    ensures Unique(Remove(es, n))
    ensures Abs(Remove(es, n)) == AbsStore(Without(Names(es), n), Values(es) - {n})
  {
    var at := Find(es, n);
    if at.None? {
      WithoutAbsent(Names(es), n);
      assert Values(es) - {n} == Values(es);
    } else {
      RemoveUnique(es, at.value);
      RemoveValues(es, at.value);
    }
  }

  lemma RemoveHolds(es: seq<EvEntry>, i: nat)
    requires Unique(es) && i < |es|
    ensures HoldsEach(es[..i] + es[i + 1..], Values(es) - {es[i].name})
  {
    hide Values, Find;
    var es', m := es[..i] + es[i + 1..], Values(es) - {es[i].name};
    forall j | 0 <= j < |es'| ensures es'[j].name in m && m[es'[j].name] == es'[j].data {
      ValueAt(es, if j < i then j else j + 1);
    }
  }

  lemma NamedValues(es: seq<EvEntry>)
    ensures forall n :: n in Values(es) <==> n in Names(es)
  {
  }

  lemma RemoveValues(es: seq<EvEntry>, i: nat)
    requires Unique(es) && i < |es| && Unique(es[..i] + es[i + 1..])
    ensures Values(es[..i] + es[i + 1..]) == Values(es) - {es[i].name}
  {
    hide Unique, HoldsEach, Names, Values, Find;
    var es', m := es[..i] + es[i + 1..], Values(es) - {es[i].name};
    RemoveUnique(es, i);
    NamedValues(es);
    WithoutMembers(Names(es), es[i].name);
    RemoveHolds(es, i);
    ValuesAre(es', m);
  }

  lemma SetAcceptedRefines(es: seq<EvEntry>, n: Name, d: seq<byte>)
    requires Unique(es)
    ensures var a' := AbsPut(Abs(es), n, d);
            SetAccepted(es, n, d) <==>
            0 < |n| < 32 && |d| <= 3966 && 8 + AbsEntriesSize(a'.order, a'.values) <= 65536
  {
    PutRefines(es, n, d);
    var es' := Put(es, n, d);
    forall i | 0 <= i < |es'| ensures es'[i].name in Values(es') && Values(es')[es'[i].name] == es'[i].data {
      FindUnique(es', i);
    }
    AbsSize(es', Values(es'));
  }

  lemma StepRefines(s: Store, op: EvOp)
    requires Unique(s.entries) && !op.OpRestart?
    ensures Unique(Step(s, op).entries)
    ensures Abs(Step(s, op).entries) == AbsStep(Abs(s.entries), op)
  {
    match op
    case OpSet(n, d, _) =>
      PutRefines(s.entries, n, d);
      SetAcceptedRefines(s.entries, n, d);
    case OpDel(n, _) =>
      RemoveRefines(s.entries, n);
      assert Find(s.entries, n).None? ==> Remove(s.entries, n) == s.entries;
    case OpDeleteAll(_) =>
      assert Values([]) == map[];
  }

  /**
  Map refinement over all runs. Whatever is set, deleted or cleared, and whether or not each
  save succeeds, the entry list means what the finite map with insertion order means: an update
  keeps its place, an insertion appends, a deletion takes out one name and closes the gap.
  */
  lemma {:induction false} RunRefinesMap(s: Store, ops: seq<EvOp>)
    requires Unique(s.entries)
    requires forall i :: 0 <= i < |ops| ==> !ops[i].OpRestart?
    ensures Unique(Run(s, ops).entries)
    ensures Abs(Run(s, ops).entries) == AbsRun(Abs(s.entries), ops)
    decreases |ops|
  {
    if ops != [] {
      StepRefines(s, ops[0]);
      RunRefinesMap(Step(s, ops[0]), ops[1..]);
    }
  }

  // ----- Invariants over failures and restarts -----

  // A file the service wrote, perhaps cut short by a failed copy.
  ghost predicate CutFile(b: seq<byte>, es: seq<EvEntry>, k: nat) {
    Storable(es) && Unique(es) && k <= |Serialize(es)| && b == Serialize(es)[..k]
  }

  ghost predicate ServiceDisk(d: Disk) {
    d.File? ==> exists es: seq<EvEntry>, k: nat :: CutFile(d.bytes, es, k)
  }

  ghost predicate ServiceInv(s: Store) {
    Storable(s.entries) && Unique(s.entries) && ServiceDisk(s.disk)
  }

  // Names reach the store as C strings.
  predicate CleanOp(op: EvOp) {
    op.OpSet? ==> 0 !in op.name
  }

  lemma SavedDisk(d: Disk, es: seq<EvEntry>, o: SaveOutcome)
    requires ServiceDisk(d) && Storable(es) && Unique(es)
    ensures ServiceDisk(DiskAfterSave(d, Serialize(es), o))
  {
    var file := Serialize(es);
    assert file == file[..|file|];
    match o
    case Saved => assert CutFile(file, es, |file|);
    case TempFailed =>
    case CopyFailed(None) =>
    case CopyFailed(Some(k)) => assert CutFile(file[..Min(k, |file|)], es, Min(k, |file|));
  }

  lemma LoadedStore(d: Disk, canOpen: bool)
    requires ServiceDisk(d)
    ensures Storable(LoadDisk(d, canOpen).entries) && Unique(LoadDisk(d, canOpen).entries)
  {
    if d.File? && canOpen {
      var es: seq<EvEntry>, k: nat :| CutFile(d.bytes, es, k);
      var m := WholeEntriesExist(es, k);
      TornFileRecovery(es, k, m);
      Canonicalisation(d.bytes);
    }
  }

  lemma PutStorable(es: seq<EvEntry>, n: Name, d: seq<byte>)
    requires Storable(es) && SetAccepted(es, n, d) && 0 !in n
    ensures Storable(Put(es, n, d))
  {
  }

  lemma RemoveStorable(es: seq<EvEntry>, n: Name)
    requires Storable(es)
    ensures Storable(Remove(es, n))
  {
    RemoveSize(es, n);
  }

  lemma StepInv(s: Store, op: EvOp)
    requires ServiceInv(s) && CleanOp(op)
    ensures ServiceInv(Step(s, op))
  {
    match op
    case OpSet(n, d, o) =>
      if SetAccepted(s.entries, n, d) {
        PutStorable(s.entries, n, d);
        PutRefines(s.entries, n, d);
        SavedDisk(s.disk, Put(s.entries, n, d), o);
      }
    case OpDel(n, o) =>
      if Find(s.entries, n).Some? {
        RemoveStorable(s.entries, n);
        RemoveRefines(s.entries, n);
        SavedDisk(s.disk, Remove(s.entries, n), o);
      }
    case OpDeleteAll(o) =>
      SavedDisk(s.disk, [], o);
    case OpRestart(canOpen) =>
      LoadedStore(s.disk, canOpen);
  }

  /**
  Over every run, with failed saves, torn files and restarts anywhere in it: names stay unique
  and NUL-free, every limit holds, the file never exceeds the budget, there are at most 1927
  entries, and the loader's count guard accepts what the service saved.
  */
  lemma {:induction false} RunInvariant(s: Store, ops: seq<EvOp>)
    requires ServiceInv(s) && forall i :: 0 <= i < |ops| ==> CleanOp(ops[i])
    ensures var s' := Run(s, ops);
            && ServiceInv(s')
            && SerializedSize(s'.entries) <= MAX_EV_FILE_SIZE
            && |s'.entries| <= 1927
            && |Serialize(s'.entries)| == SerializedSize(s'.entries)
            && Parse(Serialize(s'.entries)) == LoadResult(0, s'.entries)
    decreases |ops|
  {
    if ops == [] {
      CountBound(s.entries);
      SerializedLength(s.entries);
      RoundTrip(s.entries);
    } else {
      StepInv(s, ops[0]);
      RunInvariant(Step(s, ops[0]), ops[1..]);
    }
  }

  /**
  From the empty store, over any sets, deletes and clears with any save outcomes: the entries mean
  exactly what the same run gives on the empty map, and every limit holds.
  */
  lemma RunFromEmpty(ops: seq<EvOp>)
    requires forall i :: 0 <= i < |ops| ==> CleanOp(ops[i]) && !ops[i].OpRestart?
    ensures var s' := Run(Store([], NoFile), ops);
            && Abs(s'.entries) == AbsRun(AbsStore([], map[]), ops)
            && ServiceInv(s') && |s'.entries| <= 1927
  {
    hide Run, AbsRun, CleanOp;
    EmptyStoreInv();
    RunInvariant(Store([], NoFile), ops);
    RunRefinesMap(Store([], NoFile), ops);
  }

  lemma EmptyStoreInv()
    ensures ServiceInv(Store([], NoFile))
    ensures Abs([]) == AbsStore([], map[])
  {
    assert Values([]) == map[];
  }

  // ----- Durability -----

  // Whether the operation reports success to its caller.
  predicate Succeeds(s: Store, op: EvOp) {
    match op
    case OpSet(n, d, o) => SetAccepted(s.entries, n, d) && o.Saved?
    case OpDel(n, o) => Find(s.entries, n).Some? && o.Saved?
    case OpDeleteAll(o) => o.Saved?
    case OpRestart(canOpen) => LoadDisk(s.disk, canOpen).code == 0
  }

  predicate InSync(s: Store) {
    s.disk == File(Serialize(s.entries))
  }

  /**
  Durability. After any run, a mutation that reports success leaves the file equal to the
  serialized store, and restarting reproduces that store entry for entry and in order.
  */
  lemma Durability(s: Store, ops: seq<EvOp>, op: EvOp)
    requires ServiceInv(s) && CleanOp(op) && forall i :: 0 <= i < |ops| ==> CleanOp(ops[i])
    requires !op.OpRestart? && Succeeds(Run(s, ops), op)
    ensures var s' := Step(Run(s, ops), op);
            InSync(s') && Step(s', OpRestart(true)) == s'
  {
    hide Run, Step, Succeeds, ServiceInv, CleanOp, InSync;
    RunInvariant(s, ops);
    StepDurable(Run(s, ops), op);
  }

  // One mutation that reports success.
  lemma StepDurable(s: Store, op: EvOp)
    requires ServiceInv(s) && CleanOp(op) && !op.OpRestart? && Succeeds(s, op)
    ensures InSync(Step(s, op)) && Step(Step(s, op), OpRestart(true)) == Step(s, op)
  {
    hide Serialize, SetAccepted, Find, Put, Remove, ServiceInv, CleanOp, Storable;
    assert Storable(Step(s, op).entries) by {
      StepInv(s, op);
      InvStorable(Step(s, op));
    }
    RestartInSync(Step(s, op));
  }

  lemma InvStorable(s: Store)
    requires ServiceInv(s)
    ensures Storable(s.entries)
  {
  }

  lemma RestartInSync(s: Store)
    requires Storable(s.entries) && InSync(s)
    ensures Step(s, OpRestart(true)) == s
  {
    hide Serialize, Parse;
    RoundTrip(s.entries);
  }

  // The value of the first entry with this name.
  function Lookup(es: seq<EvEntry>, n: Name): Option<seq<byte>> {
    match Find(es, n)
    case None => None
    case Some(i) => Some(es[i].data)
  }

  // What a restart would find.
  function OnDisk(d: Disk, n: Name): Option<seq<byte>> {
    Lookup(LoadDisk(d, true).entries, n)
  }

  // The save changes the file.
  predicate ChangesFile(o: SaveOutcome) {
    o.Saved? || (o.CopyFailed? && o.copied.Some?)
  }

  // What a save of es leaves of the file includes the last byte of the first entry named n.
  predicate KeepsBytes(es: seq<EvEntry>, n: Name, o: SaveOutcome) {
    o.CopyFailed? && o.copied.Some? ==>
      Find(es, n).Some? && SerializedSize(es[..Find(es, n).value + 1]) <= o.copied.value
  }

  /**
  What an interrupted copy costs. After a failed copy that left k bytes of the new file, a restart
  finds the value of n exactly when the last byte of its entry is among them.
  */
  lemma SurvivesCut(es: seq<EvEntry>, d: Disk, k: nat, n: Name)
    requires Storable(es)
    ensures var o := CopyFailed(Some(k));
            OnDisk(DiskAfterSave(d, Serialize(es), o), n) == if KeepsBytes(es, n, o) then Lookup(es, n) else None
  {
    hide EntriesSize, Serialize, Parse, Find;
    var cut := Min(k, |Serialize(es)|);
    assert |Serialize(es)| == SerializedSize(es) by { SerializedLength(es); }
    var m := WholeEntriesExist(es, cut);
    TornFileRecovery(es, cut, m);
    var at := Find(es, n);
    if at.Some? {
      WholeBefore(es, cut, m, at.value);
      assert SerializedSize(es[..at.value + 1]) <= k <==> SerializedSize(es[..at.value + 1]) <= cut by {
        SizeUpTo(es, at.value + 1);
      }
    }
    FindPrefix(es, m, n);
  }

  // Entry i lies wholly inside the first k bytes exactly when it is one of the first m.
  lemma WholeBefore(es: seq<EvEntry>, k: nat, m: nat, i: nat)
    requires WholeEntries(es, k, m) && i < |es|
    ensures i < m <==> SerializedSize(es[..i + 1]) <= k
    ensures i < m ==> k >= 4
  {
    hide EntriesSize;
    if i + 1 < m { SizeMonotone(es, i + 1, m); }
    if m < i { SizeMonotone(es, m + 1, i + 1); }
  }

  lemma SizeUpTo(es: seq<EvEntry>, m: nat)
    requires m <= |es|
    ensures SerializedSize(es[..m]) <= SerializedSize(es)
  {
    hide EntriesSize;
    if m < |es| { SizeMonotone(es, m, |es|); }
    assert es[..|es|] == es;
  }

  lemma FindPrefix(es: seq<EvEntry>, m: nat, n: Name)
    requires m <= |es|
    ensures Find(es[..m], n) == if Find(es, n).Some? && Find(es, n).value < m then Find(es, n) else None
  {
    hide Find;
    var at, cut := Find(es, n), Find(es[..m], n);
    if at.Some? && at.value < m {
      assert es[..m][at.value].name == n;
    }
  }

  /** What a restart finds after any save that changed the file. */
  lemma DiskLookup(es: seq<EvEntry>, d: Disk, n: Name, o: SaveOutcome)
    requires Storable(es) && ChangesFile(o)
    ensures OnDisk(DiskAfterSave(d, Serialize(es), o), n) == if KeepsBytes(es, n, o) then Lookup(es, n) else None
  {
    hide Serialize, Parse, Lookup, EntriesSize, Find;
    if o.Saved? {
      RoundTrip(es);
    } else {
      SurvivesCut(es, d, o.copied.value, n);
    }
  }

  /**
  The header comment promises atomic persistence; the code does not give it. A value whose
  `set` succeeded is lost by a later failed `set` of another name followed by a restart.
  */
  lemma AcknowledgedValueLost()
    ensures var s0 := Store([], NoFile);
            var first := OpSet([65], [1], Saved);
            var s1 := Step(s0, first);
            && Succeeds(s0, first)
            && Find(s1.entries, [65]).Some?
            && Find(Run(s1, [OpSet([66], [2], CopyFailed(Some(0))), OpRestart(true)]).entries, [65]).None?
  {
    var e, f := EvEntry([65], [1]), EvEntry([66], [2]);
    var s1 := Step(Store([], NoFile), OpSet([65], [1], Saved));
    assert Put([], [65], [1]) == [e];
    assert [e][1..] == [];
    assert s1.entries == [e];
    var es := Put([e], [66], [2]);
    assert es == [e, f];
    assert es[1..] == [f] && [f][1..] == [];
    var second, third := OpSet([66], [2], CopyFailed(Some(0))), OpRestart(true);
    var s2 := Step(s1, second);
    assert s2.disk == File([]);
    assert [second, third][1..] == [third] && [third][1..] == [];
    assert Window([], 0, 4)[3] == 0;
  }

  /**
  Whole files are not enough either. After a restart that fails to open the file, the service goes on
  with an empty store, and its next successful save replaces what the file still held.
  */
  lemma UnopenedFileLost()
    ensures var s0 := Store([], NoFile);
            var first, second := OpSet([65], [1], Saved), OpSet([66], [2], Saved);
            var s1 := Step(s0, first);
            var s2 := Step(s1, OpRestart(false));
            var s3 := Step(s2, second);
            && Succeeds(s0, first) && Succeeds(s2, second)
            && Lookup(s1.entries, [65]) == Some([1]) && OnDisk(s2.disk, [65]) == Some([1])
            && Lookup(s3.entries, [65]) == None && OnDisk(s3.disk, [65]) == None
  {
    hide Serialize, Parse, Step, Succeeds, Lookup, OnDisk;
    OnlySet(NoFile, [65], [1]);
    OnlySet(File(Serialize([EvEntry([65], [1])])), [66], [2]);
    NothingLoaded(File(Serialize([EvEntry([65], [1])])));
    OnlyEntry([65], [1], [65]);
    OnlyEntry([66], [2], [65]);
  }

  // A set of a short name to a short value in an empty store.
  lemma OnlySet(disk: Disk, n: Name, d: seq<byte>)
    requires 0 < |n| < MAX_EV_NAME_LEN && |d| <= MAX_EV_DATA_SIZE
    ensures var s, op, es := Store([], disk), OpSet(n, d, Saved), [EvEntry(n, d)];
            Succeeds(s, op) && Step(s, op) == Store(es, File(Serialize(es)))
  {
    hide Serialize, EntriesSize;
    OneSize(EvEntry(n, d));
    assert Put([], n, d) == [EvEntry(n, d)];
  }

  lemma OneSize(e: EvEntry)
    ensures EntriesSize([e]) == ENTRY_OVERHEAD + |e.data|
  {
    assert [e][1..] == [];
  }

  lemma NothingLoaded(disk: Disk)
    ensures forall s: Store :: s.disk == disk && disk.File? ==> Step(s, OpRestart(false)) == Store([], disk)
  {
  }

  lemma OnlyEntry(n: Name, d: seq<byte>, m: Name)
    requires 0 < |n| < MAX_EV_NAME_LEN && |d| <= MAX_EV_DATA_SIZE && 0 !in n
    ensures var es := [EvEntry(n, d)];
            Lookup(es, m) == OnDisk(File(Serialize(es)), m) == if m == n then Some(d) else None
  {
    hide Serialize, Parse, EntriesSize;
    var es := [EvEntry(n, d)];
    OneSize(es[0]);
    RoundTrip(es);
    assert Find(es, m) == if m == n then Some(0) else None;
  }
}
