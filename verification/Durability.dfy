/** A file's bytes survive everything that is not about the file. */
module Durability {
  import opened Bytes
  import opened Inodes
  import opened Volumes
  import opened Ownership
  import opened Writing
  import opened Directories
  import opened Invariant
  import opened Runs
  import opened Content
  import opened Effects

  /** No step of the run writes or removes the inode. */
  ghost predicate Spared(s: FS, steps: seq<Step>, id: int)
    requires Inv(s) && AllAllowed(steps)
    decreases |steps|
  {
    steps == [] || (Target(s, steps[0]) != id && Spared(Next(s, steps[0]), steps[1..], id))
  }

  lemma UntouchedTransitive(u: Volume, v: Volume, w: Volume, id: int)
    requires Untouched(u, v, id) && Untouched(v, w, id)
    ensures Untouched(u, w, id)
  {
    forall k | 0 <= k < NUM_ENTRIES
      ensures Pointer(u, id, k) == Pointer(v, id, k)
    {}
  }

  /** Isolation over whole runs: record, bits and bytes of an inode no step is about stay. */
  lemma {:induction false} RunIsolates(s: FS, steps: seq<Step>, id: int)
    requires Inv(s) && AllAllowed(steps)
    ensures id in s.vol.iused && Spared(s, steps, id) ==> Untouched(s.vol, Run(s, steps).vol, id)
    decreases |steps|
  {
    if id in s.vol.iused && Spared(s, steps, id) {
      if steps == [] {
        SameIsolates(s.vol, s.vol, id);
      } else {
        StepIsolates(s, steps[0], id);
        var t := Next(s, steps[0]);
        RunIsolates(t, steps[1..], id);
        UntouchedTransitive(s.vol, t.vol, Run(s, steps).vol, id);
      }
    }
  }

  /** In a state with nothing lost and unique names, reading a live file's path reads its record. */
  lemma ReadsTheRecord(s: FS, id: int)
    requires Inv(s) && NoneLost(s) && UniqueNames(s.vol) && id in s.vol.iused
    requires Good(s.vol.recs[id], id) && s.vol.recs[id].kind == FILE_KIND
    requires forall k :: 0 <= k < Count(s.vol.recs[id].num, 0) ==> s.vol.recs[id].num[k] in s.vol.data
    ensures ReadNow(s, s.vol.recs[id].name) == Read(ReadFile(s.vol, s.vol.recs[id]))
  {
    hide ReadFile;
    assert id in LiveIds(s.table);
    var i :| 0 <= i < INODES && s.table[i].id == id && id != -1;
    LiveSlot(s, i);
    FirstMatchIsOnlyMatch(s, s.vol.recs[id].name, i);
  }

  lemma RecordReadable(s: FS, id: int)
    requires Inv(s) && id in s.vol.iused
    ensures Good(s.vol.recs[id], id)
    ensures forall k :: 0 <= k < Count(s.vol.recs[id].num, 0) ==> s.vol.recs[id].num[k] in s.vol.data
  {
    assert Good(s.vol.recs[id], id);
    OwnChain(s.vol, id);
  }

  /** Reading a file gives the same before and after any run that spares it. */
  lemma ReadSurvivesRun(s: FS, steps: seq<Step>, id: int)
    requires Inv(s) && AllAllowed(steps) && NoneLost(s) && UniqueNames(s.vol) && Clean(s, steps)
    requires id in s.vol.iused && s.vol.recs[id].kind == FILE_KIND && Spared(s, steps, id)
    ensures ReadNow(Run(s, steps), s.vol.recs[id].name) == ReadNow(s, s.vol.recs[id].name)
  {
    hide ReadFile, Sound, UniqueNames, NoneLost, ReadNow, Clean, Spared;
    var t := Run(s, steps);
    RunIsolates(s, steps, id);
    NoneLostOverRuns(s, steps);
    UniqueNamesOverRuns(s, steps);
    RecordReadable(s, id);
    RecordReadable(t, id);
    ReadsTheRecord(s, id);
    ReadsTheRecord(t, id);
    UntouchedReadsAlike(s.vol, t.vol, id);
  }

  /** A write that lands is read back after any further run, remounts included, that creates files
      only while there are slots and does not write or remove the file itself. */
  lemma WriteIsDurable(s: FS, path: string, buf: seq<byte>, size: int, beyond: seq<byte>, steps: seq<Step>)
    requires Inv(s) && NoneLost(s) && UniqueNames(s.vol)
    requires 0 < size < MAX_SIZE && |beyond| == BLOCK_SIZE && FindFile(s.table, path, 0) < |s.table|
    requires PathWriteLands(s, path, buf, size, beyond)
    requires AllAllowed(steps) && Clean(Next(s, WriteTo(path, buf, size, beyond)), steps)
    requires Spared(Next(s, WriteTo(path, buf, size, beyond)), steps, s.table[FindFile(s.table, path, 0)].id)
    ensures ReadNow(Run(Next(s, WriteTo(path, buf, size, beyond)), steps), path)
      == Read(Contents(StrNCpy(buf, size) + [0]))
  {
    hide ReadFile, ReadNow, Clean, Spared, PathWriteLands, Next;
    var step, id := WriteTo(path, buf, size, beyond), s.table[FindFile(s.table, path, 0)].id;
    PathRoundTripIff(s, path, buf, size, beyond);
    assert !InsertFails(s, step);
    LostOnlyByFailedInsert(s, step);
    UniqueNamesStep(s, step);
    var t := Next(s, step);
    WrittenRecord(s, path, buf, size, beyond);
    ReadSurvivesRun(t, steps, id);
  }

  lemma WrittenRecord(s: FS, path: string, buf: seq<byte>, size: int, beyond: seq<byte>)
    requires Inv(s)
    requires 0 < size < MAX_SIZE && |beyond| == BLOCK_SIZE && FindFile(s.table, path, 0) < |s.table|
    ensures var t, id := Next(s, WriteTo(path, buf, size, beyond)), s.table[FindFile(s.table, path, 0)].id;
      && 0 <= id < INODES && id in t.vol.iused && |t.vol.recs| == INODES
      && t.vol.recs[id].name == path && t.vol.recs[id].kind == FILE_KIND
  {
    hide WriteFile, Disjoint, Accounted, RecordsGood, RootInPlace, SlotsSuffice, Representable, GivenUp, Dropped;
    var slot := FindFile(s.table, path, 0);
    InvReadable(s);
    LiveSlot(s, slot);
    WriteKeepsSound(s.vol, s.table[slot].(size := size), StrNCpy(buf, size) + beyond);
  }

  // ---------------------------------------------------------- empty files

  /** A file that is found reads as one NUL exactly when its size is 0. */
  lemma EmptyReadsIff(s: FS, path: string, slot: int)
    requires Inv(s) && FirstNode(s.table, path, FILE_KIND, slot)
    ensures ReadNow(s, path) == Read(Contents([0])) <==> s.table[slot].size == 0
  {
    hide Inv, ReadNow;
    ReadNowIs(s, path);
  }

  /** A live file of size 0, in the table or not, reads as one NUL after every run that spares it,
      remounts included. */
  lemma EmptyStaysEmpty(s: FS, steps: seq<Step>, id: int)
    requires Inv(s) && AllAllowed(steps) && NoneLost(s) && UniqueNames(s.vol) && Clean(s, steps)
    requires id in s.vol.iused && 0 <= id < |s.vol.recs| && Spared(s, steps, id)
    requires s.vol.recs[id].kind == FILE_KIND && s.vol.recs[id].size == 0
    ensures ReadNow(Run(s, steps), s.vol.recs[id].name) == Read(Contents([0]))
  {
    hide Sound, RootInPlace, SlotsSuffice, UniqueNames, NoneLost, ReadNow, Clean, Spared;
    var path := s.vol.recs[id].name;
    SlotOf(s, id);
    var slot := FindFile(s.table, path, 0);
    assert IsNode(s.table[slot], path, FILE_KIND);
    EmptyReadsIff(s, path, slot);
    ReadSurvivesRun(s, steps, id);
  }

  lemma SlotOf(s: FS, id: int)
    requires Inv(s) && NoneLost(s) && UniqueNames(s.vol) && id in s.vol.iused && 0 <= id < |s.vol.recs|
    requires s.vol.recs[id].kind == FILE_KIND
    ensures var slot := FindFile(s.table, s.vol.recs[id].name, 0);
      slot < |s.table| && s.table[slot] == s.vol.recs[id]
  {
    hide Disjoint, Accounted, RootInPlace, SlotsSuffice, UniqueNames;
    assert id in LiveIds(s.table);
    var i :| 0 <= i < INODES && s.table[i].id == id && id != -1;
    LiveSlot(s, i);
    FirstMatchIsOnlyMatch(s, s.vol.recs[id].name, i);
  }

  /** A file that create_file has put into a slot reads as one NUL. */
  lemma NewFileReadsEmpty(s: FS, pwd: string, name: string)
    requires Inv(s) && Allowed(MakeFile(pwd, name)) && EmptySlots(s.table) != {}
    requires |pwd| + |name| <= 32 && FindFile(s.table, Cut(Join(pwd, name)), 0) == |s.table|
    ensures ReadNow(Next(s, MakeFile(pwd, name)), Cut(Join(pwd, name))) == Read(Contents([0]))
  {
    hide Sound, RootInPlace, SlotsSuffice, ReadNow, CreateFile;
    var path, t := Cut(Join(pwd, name)), Next(s, MakeFile(pwd, name));
    InvReadable(s);
    var made := NewFileIs(s, pwd, name);
    var slot := FindFile(t.table, path, 0);
    EmptyReadsIff(t, path, slot);
  }

  /** The slot a lookup of it finds, and its record. */
  lemma NewFileIs(s: FS, pwd: string, name: string) returns (made: Inode)
    requires Inv(s) && IsCString(pwd) && IsCString(name) && EmptySlots(s.table) != {}
    requires |pwd| + |name| <= 32 && FindFile(s.table, Cut(Join(pwd, name)), 0) == |s.table|
    ensures made.size == 0 && made.kind == FILE_KIND && made.name == Cut(Join(pwd, name))
    ensures 0 <= made.id < INODES == |s.vol.recs|
    ensures var t, path := CreateFile(s, pwd, name).0, Cut(Join(pwd, name));
      && made.id in t.vol.iused && |t.vol.recs| == INODES && t.vol.recs[made.id] == made
      && FirstNode(t.table, path, FILE_KIND, FindFile(t.table, path, 0))
      && t.table[FindFile(t.table, path, 0)] == made
  {
    hide Disjoint, Accounted, RecordsGood;
    var slot: nat;
    slot, made := CreateFills(s, pwd, name);
    var path, t := Cut(Join(pwd, name)), CreateFile(s, pwd, name).0;
    VacantNames(s, slot);
    FoundAtSlot(s.table, path, slot, made);
    assert IsNode(t.table[slot], path, FILE_KIND);
  }

  /** And it does so until the first step that is about it, over every run and remount. */
  lemma NewFileStaysEmpty(s: FS, pwd: string, name: string, steps: seq<Step>)
    requires Inv(s) && NoneLost(s) && UniqueNames(s.vol) && AllAllowed(steps)
    requires Allowed(MakeFile(pwd, name)) && EmptySlots(s.table) != {}
    requires |pwd| + |name| <= 32 && FindFile(s.table, Cut(Join(pwd, name)), 0) == |s.table|
    requires Clean(Next(s, MakeFile(pwd, name)), steps)
    requires
      var t, path := Next(s, MakeFile(pwd, name)), Cut(Join(pwd, name));
      FindFile(t.table, path, 0) < |t.table| && Spared(t, steps, t.table[FindFile(t.table, path, 0)].id)
    ensures ReadNow(Run(Next(s, MakeFile(pwd, name)), steps), Cut(Join(pwd, name))) == Read(Contents([0]))
  {
    hide Sound, RootInPlace, SlotsSuffice, UniqueNames, NoneLost, ReadNow, Clean, Spared, CreateFile;
    var made := NewFileIs(s, pwd, name);
    InvReadable(s);
    LostOnlyByFailedInsert(s, MakeFile(pwd, name));
    UniqueNamesStep(s, MakeFile(pwd, name));
    EmptyStaysEmpty(Next(s, MakeFile(pwd, name)), steps, made.id);
  }
}
