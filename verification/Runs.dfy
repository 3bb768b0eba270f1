/** Runs of the file system: any sequence of operations after the first mount. The theorems here
    hold in every state such a run reaches. */
module Runs {
  import opened Bytes
  import opened Inodes
  import opened Volumes
  import opened Ownership
  import opened Writing
  import opened Directories
  import opened Invariant

  datatype Step =
    | MakeFile(pwd: string, name: string)
    | MakeDir(pwd: string, name: string, statSize: int)
    | WriteTo(path: string, buf: seq<byte>, size: int, beyond: seq<byte>)
    | ReadFrom(path: string)
    | RemoveFile(path: string)
    | RemoveDir(pwd: string, name: string)
    | Remount

  /** Arguments as the command loop can pass them, sizes below 22528, and never the root for removal. */
  predicate Allowed(step: Step) {
    match step
    case MakeFile(pwd, name) => IsCString(pwd) && IsCString(name)
    case MakeDir(pwd, name, statSize) => IsCString(pwd) && IsCString(name) && Int32(statSize)
    case WriteTo(path, buf, size, beyond) => size < MAX_SIZE && |beyond| == BLOCK_SIZE
    case ReadFrom(path) => true
    case RemoveFile(path) => path != ""
    case RemoveDir(pwd, name) => Join(pwd, name) != "/"
    case Remount => true
  }

  /** One step. Every step keeps the global invariant. */
  ghost function Next(s: FS, step: Step): (t: FS)
    requires Inv(s) && Allowed(step)
    ensures Inv(t)
  {
    InvReadable(s);
    match step
    case MakeFile(pwd, name) =>
      CreateFileKeepsInv(s, pwd, name);
      CreateFile(s, pwd, name).0
    case MakeDir(pwd, name, statSize) =>
      CreateDirKeepsInv(s, pwd, name, statSize);
      CreateDir(s, pwd, name, statSize).0
    case WriteTo(path, buf, size, beyond) =>
      WriteKeepsInv(s, path, buf, size, beyond);
      WriteFileByPath(s, path, buf, size, beyond).0
    case ReadFrom(path) => s
    case RemoveFile(path) =>
      DeleteFileKeepsInv(s, path);
      DeleteFileByPath(s, path).0
    case RemoveDir(pwd, name) =>
      DeleteDirKeepsInv(s, pwd, name);
      DeleteDir(s, pwd, name).0
    case Remount =>
      RemountKeepsInv(s);
      InitDir(s.vol)
  }

  /** What a read of the path gives in a state. */
  ghost function ReadNow(s: FS, path: string): ReadResult
    requires Inv(s)
  {
    InvReadable(s);
    ReadFileByPath(s, path)
  }

  /** The two notions as relations. */
  ghost predicate IsStep(s: FS, step: Step, t: FS) {
    Inv(s) && Allowed(step) && t == Next(s, step)
  }

  ghost predicate IsReading(s: FS, path: string, result: ReadResult) {
    Inv(s) && result == ReadNow(s, path)
  }

  predicate AllAllowed(steps: seq<Step>) {
    forall i :: 0 <= i < |steps| ==> Allowed(steps[i])
  }

  /** The state after a sequence of steps; the invariant holds at every point on the way. */
  ghost function Run(s: FS, steps: seq<Step>): (t: FS)
    requires Inv(s) && AllAllowed(steps)
    ensures Inv(t)
    decreases |steps|
  {
    if steps == [] then s else Run(Next(s, steps[0]), steps[1..])
  }

  /** A freshly formatted image, mounted, then used. */
  ghost function RunFromFormat(v: Volume, steps: seq<Step>): (t: FS)
    requires Formatted(v) && AllAllowed(steps)
    ensures Inv(t)
  {
    FirstMountEstablishesInv(v);
    Run(InitDir(v), steps)
  }

  // ------------------------------------------------------------- ownership

  /** In every state a run reaches: no block has two owners; owned blocks are data blocks with
      their bits set; the first 514 bits stay set; below the id limit a data bit is set exactly
      when some live inode points at the block. */
  lemma OwnershipOverRuns(v: Volume, steps: seq<Step>)
    requires Formatted(v) && AllAllowed(steps)
    ensures var w := RunFromFormat(v, steps).vol;
      && (forall a, j, b, k ::
            (a in w.iused && b in w.iused && 0 <= j < NUM_ENTRIES && 0 <= k < NUM_ENTRIES
             && Pointer(w, a, j) == Pointer(w, b, k) != 0)
            ==> a == b && j == k)
      && (forall a, j :: a in w.iused && 0 <= j < NUM_ENTRIES && Pointer(w, a, j) != 0 ==>
            FIRST_DATA <= Pointer(w, a, j) < BLOCKS && Pointer(w, a, j) in w.used)
      && (forall x :: 0 <= x < FIRST_DATA ==> x in w.used)
      && (forall x :: FIRST_DATA <= x < ID_LIMIT ==>
            (x in w.used <==> exists a, j :: a in w.iused && 0 <= j < NUM_ENTRIES && Pointer(w, a, j) == x))
  {
    var w := RunFromFormat(v, steps).vol;
    forall a, j | a in w.iused && 0 <= j < NUM_ENTRIES && Pointer(w, a, j) != 0
      ensures FIRST_DATA <= Pointer(w, a, j) < BLOCKS && Pointer(w, a, j) in w.used
    {
      assert Good(w.recs[a], a);
      assert Pointer(w, a, j) in Owned(w);
    }
    forall x | FIRST_DATA <= x < ID_LIMIT
      ensures x in w.used <==> exists a, j :: a in w.iused && 0 <= j < NUM_ENTRIES && Pointer(w, a, j) == x
    {
      assert x in w.used <==> x in Owned(w);
    }
  }

  /** In every state a run reaches each live record has at most eleven pointers, all in front. */
  lemma PointerShapeOverRuns(v: Volume, steps: seq<Step>, id: int)
    requires Formatted(v) && AllAllowed(steps)
    requires id in RunFromFormat(v, steps).vol.iused
    ensures var w := RunFromFormat(v, steps).vol;
      && (forall j, k :: 0 <= j < k < NUM_ENTRIES && Pointer(w, id, k) != 0 ==> Pointer(w, id, j) != 0)
      && (forall k :: DIRECT - 1 <= k < NUM_ENTRIES ==> Pointer(w, id, k) == 0)
  {
    assert Good(RunFromFormat(v, steps).vol.recs[id], id);
  }

  // ------------------------------------------------- lost inodes and remount

  /** The records the table holds. */
  ghost function LiveRecords(table: seq<Inode>): set<Inode> {
    set i | 0 <= i < |table| && table[i].id != -1 :: table[i]
  }

  ghost function LiveIds(table: seq<Inode>): set<int> {
    set i | 0 <= i < |table| && table[i].id != -1 :: table[i].id
  }

  /** Every set inode bit belongs to a slot of the table. */
  ghost predicate NoneLost(s: FS) {
    s.vol.iused <= LiveIds(s.table)
  }

  lemma LiveIdsAreUsed(s: FS)
    requires Inv(s)
    ensures LiveIds(s.table) <= s.vol.iused
    ensures forall r :: r in LiveRecords(s.table) ==> r.id in LiveIds(s.table) && r == s.vol.recs[r.id]
    ensures forall id :: id in LiveIds(s.table) ==> s.vol.recs[id] in LiveRecords(s.table)
  {
    forall i | 0 <= i < INODES && s.table[i].id != -1
      ensures s.table[i].id in s.vol.iused && s.table[i] == s.vol.recs[s.table[i].id]
    {
      LiveSlot(s, i);
    }
  }

  /** Remounting brings back exactly the records of the set inode bits. */
  lemma RemountRecords(s: FS)
    requires Inv(s)
    ensures LiveRecords(InitDir(s.vol).table) == set id | id in s.vol.iused :: s.vol.recs[id]
    ensures LiveIds(InitDir(s.vol).table) == s.vol.iused
  {
    RemountSlots(s);
    var t := InitDir(s.vol).table;
    forall id | id in s.vol.iused
      ensures s.vol.recs[id] in LiveRecords(t)
    {
      assert t[id].id == id;
    }
    forall id | id in s.vol.iused
      ensures id in LiveIds(t)
    {
      assert t[id].id == id;
    }
    forall i | 0 <= i < INODES && t[i].id != -1
      ensures t[i].id in s.vol.iused && t[i] == s.vol.recs[i] && i == t[i].id
    {}
    assert LiveIds(t) <= s.vol.iused;
  }

  lemma RemountSlots(s: FS)
    requires Inv(s)
    ensures var t := InitDir(s.vol).table;
      && |t| == INODES
      && (forall i :: 0 <= i < INODES && i in s.vol.iused ==> t[i] == s.vol.recs[i] && t[i].id == i)
      && (forall i :: 0 <= i < INODES && i !in s.vol.iused ==> t[i].id == -1)
  {
    RemountKeepsInv(s);
    forall i | 0 <= i < INODES
      ensures i in s.vol.iused ==> s.vol.recs[i].id == i
    {
      assert i in s.vol.iused ==> Good(s.vol.recs[i], i);
    }
  }

  /** Remounting yields exactly the live records held in memory, if and only if no inode is
      missing from the table. */
  lemma RemountEquivalence(s: FS)
    requires Inv(s)
    ensures LiveRecords(InitDir(s.vol).table) == LiveRecords(s.table) <==> NoneLost(s)
  {
    hide Disjoint, Accounted, TableAgrees, RootInPlace, SlotsSuffice, InitDir, DirectShape;
    RemountRecords(s);
    LiveIdsAreUsed(s);
    if NoneLost(s) {
      assert LiveIds(s.table) == s.vol.iused;
      forall r | r in LiveRecords(s.table)
        ensures r in LiveRecords(InitDir(s.vol).table)
      {
        assert r.id in s.vol.iused && r == s.vol.recs[r.id];
      }
    }
    if LiveRecords(InitDir(s.vol).table) == LiveRecords(s.table) {
      forall id | id in s.vol.iused
        ensures id in LiveIds(s.table)
      {
        assert Good(s.vol.recs[id], id);
        assert s.vol.recs[id] in LiveRecords(s.table);
      }
    }
  }

  /** create_file takes an inode but finds no empty slot, and reports success. */
  ghost predicate InsertFails(s: FS, step: Step)
    requires Inv(s)
  {
    && step.MakeFile?
    && |step.pwd| + |step.name| <= 32
    && FindFile(s.table, Cut(Join(step.pwd, step.name)), 0) == |s.table|
    && FirstFreeInode(s.vol.iused, 0) != -1
    && EmptySlots(s.table) == {}
  }

  lemma InsertFailsIffNoSlot(s: FS)
    requires Inv(s)
    ensures EmptySlots(s.table) == {} <==> FindEmpty(s.table, 0) == |s.table|
  {
    forall i | 0 <= i < |s.table|
      ensures s.table[i].name == "" ==> s.table[i].id == -1
    {
      VacantNames(s, i);
    }
    if FindEmpty(s.table, 0) < |s.table| {
      assert FindEmpty(s.table, 0) in EmptySlots(s.table);
    }
  }

  lemma LiveIdsAfterUpdate(table: seq<Inode>, slot: int, node: Inode)
    requires 0 <= slot < |table|
    requires forall i, j :: 0 <= i < j < |table| && table[i].id == table[j].id ==> table[i].id == -1
    ensures LiveIds(table[slot := node]) ==
      LiveIds(table) - {table[slot].id} + (if node.id == -1 then {} else {node.id})
  {
    var t := table[slot := node];
    forall x | x in LiveIds(t)
      ensures x in LiveIds(table) - {table[slot].id} + (if node.id == -1 then {} else {node.id})
    {
      var i :| 0 <= i < |t| && t[i].id == x && x != -1;
      assert i != slot ==> t[i] == table[i];
    }
    forall x | x in LiveIds(table) && x != table[slot].id
      ensures x in LiveIds(t)
    {
      var i :| 0 <= i < |table| && table[i].id == x && x != -1;
      assert t[i] == table[i];
    }
    if node.id != -1 {
      assert t[slot] == node;
    }
  }

  /** Among all steps only a failed insertion loses an inode. */
  lemma LostOnlyByFailedInsert(s: FS, step: Step)
    requires Inv(s) && Allowed(step) && NoneLost(s)
    ensures NoneLost(Next(s, step)) <==> !InsertFails(s, step)
  {
    hide LiveIds, Sound, TableAgrees, CreateFile, CreateDir, DeleteDir, WriteFileByPath, DeleteFileByPath, InitDir;
    InvReadable(s);
    LiveIdsAreUsed(s);
    assert LiveIds(s.table) == s.vol.iused;
    match step
    case MakeFile(pwd, name) => MakeFileAndLoss(s, pwd, name);
    case MakeDir(pwd, name, statSize) =>
      MakeDirLosesNone(s, pwd, name, statSize);
    case WriteTo(path, buf, size, beyond) => WriteLosesNone(s, path, buf, size, beyond);
    case ReadFrom(path) =>
    case RemoveFile(path) => RemoveFileLosesNone(s, path);
    case RemoveDir(pwd, name) => RemoveDirLosesNone(s, pwd, name);
    case Remount => RemountRecords(s); RemountKeepsInv(s);
  }

  lemma RemoveDirLosesNone(s: FS, pwd: string, name: string)
    requires Inv(s) && NoneLost(s)
    ensures NoneLost(DeleteDir(s, pwd, name).0)
  {
    hide LiveIds, Sound, RootInPlace, SlotsSuffice, ListDir;
    var slot := FindDir(s.table, Join(pwd, name), 0);
    if slot < |s.table| {
      LiveIdsAfterUpdate(s.table, slot, s.table[slot].(nameLen := 0, kind := FREE_KIND, id := -1, name := ""));
    }
  }

  lemma WriteLosesNone(s: FS, path: string, buf: seq<byte>, size: int, beyond: seq<byte>)
    requires Inv(s) && Allowed(WriteTo(path, buf, size, beyond)) && NoneLost(s) && Readable(s)
    requires forall i :: 0 <= i < |s.table| && s.table[i].id != -1 ==>
      DirectShape(s.table[i].num) && 0 <= s.table[i].id < |s.vol.recs|
    ensures NoneLost(WriteFileByPath(s, path, buf, size, beyond).0)
  {
    hide LiveIds, WriteFile, Sound;
    var slot := FindFile(s.table, path, 0);
    if size > 0 && slot < |s.table| {
      LiveSlot(s, slot);
      var node, mem := s.table[slot].(size := size), StrNCpy(buf, size) + beyond;
      WriteKeepsSound(s.vol, node, mem);
      LiveIdsAfterUpdate(s.table, slot, WriteFile(s.vol, node, mem).1);
    }
  }

  lemma RemoveFileLosesNone(s: FS, path: string)
    requires Inv(s) && path != "" && NoneLost(s)
    requires forall i :: 0 <= i < |s.table| && s.table[i].id != -1 ==> DirectShape(s.table[i].num)
    ensures NoneLost(DeleteFileByPath(s, path).0)
  {
    hide LiveIds, DeleteFile, Sound;
    var slot := FindFile(s.table, path, 0);
    if slot < |s.table| {
      LiveSlot(s, slot);
      assert FindId(s.table, s.table[slot].id, 0) == slot;
      DeleteKeepsSound(s.vol, s.table[slot].id);
      LiveIdsAfterUpdate(s.table, slot, Tombstone(s.table[slot]));
    }
  }

  lemma MakeFileAndLoss(s: FS, pwd: string, name: string)
    requires Inv(s) && Allowed(MakeFile(pwd, name)) && LiveIds(s.table) == s.vol.iused
    ensures NoneLost(CreateFile(s, pwd, name).0) <==> !InsertFails(s, MakeFile(pwd, name))
  {
    if |pwd| + |name| <= 32 && FindFile(s.table, Cut(Join(pwd, name)), 0) == |s.table| {
      var node := NewFile(pwd, name);
      CutIsGood(pwd, name);
      NoPointersShape();
      NewRecord(s.vol, node);
      InsertFailsIffNoSlot(s);
      var r := CreateInode(s.vol, node);
      var slot := FindEmpty(s.table, 0);
      if r.2 && slot < |s.table| {
        LiveIdsAfterUpdate(s.table, slot, r.1);
      } else if r.2 {
        assert r.1.id in r.0.iused && r.1.id !in LiveIds(s.table);
      }
    }
  }

  lemma MakeDirLosesNone(s: FS, pwd: string, name: string, statSize: int)
    requires Inv(s) && Allowed(MakeDir(pwd, name, statSize)) && LiveIds(s.table) == s.vol.iused
    ensures NoneLost(CreateDir(s, pwd, name, statSize).0)
  {
    if !SearchDir(s.table, pwd, name) {
      hide PlaceDir, LiveIds, Disjoint, Accounted, RecordsGood;
      CutIsGood(pwd, name);
      var slot, made := PlaceDirFinds(s, Cut(Join(pwd, name)), statSize, 0);
      if slot < INODES {
        VacantNames(s, slot);
        LiveIdsAfterUpdate(s.table, slot, made);
      }
    }
  }

  /** No step of the run is a failed insertion. */
  ghost predicate Clean(s: FS, steps: seq<Step>)
    requires Inv(s) && AllAllowed(steps)
    decreases |steps|
  {
    steps == [] || (!InsertFails(s, steps[0]) && Clean(Next(s, steps[0]), steps[1..]))
  }

  /** Over every run without failed insertion no inode goes missing from the table. */
  lemma {:induction false} NoneLostOverRuns(s: FS, steps: seq<Step>)
    requires Inv(s) && AllAllowed(steps)
    ensures NoneLost(s) && Clean(s, steps) ==> NoneLost(Run(s, steps))
    decreases |steps|
  {
    if steps != [] && NoneLost(s) && Clean(s, steps) {
      LostOnlyByFailedInsert(s, steps[0]);
      NoneLostOverRuns(Next(s, steps[0]), steps[1..]);
    }
  }

  /** Remount equivalence over runs: from a fresh image on, as long as every create_file found a
      slot, reloading the image gives back exactly the records in memory. */
  lemma RemountEquivalenceOverRuns(v: Volume, steps: seq<Step>)
    requires Formatted(v) && AllAllowed(steps)
    ensures Inv(InitDir(v))
    ensures var s := RunFromFormat(v, steps);
      Clean(InitDir(v), steps) ==> LiveRecords(InitDir(s.vol).table) == LiveRecords(s.table)
  {
    FirstMountIsClean(v);
    NoneLostOverRuns(InitDir(v), steps);
    RemountEquivalence(RunFromFormat(v, steps));
  }

  // --------------------------------------------------------- slot accounting

  ghost function LiveSlots(table: seq<Inode>): set<int> {
    set i | 0 <= i < |table| && table[i].id != -1
  }

  ghost function Tombstones(table: seq<Inode>): set<int> {
    set i | 0 <= i < |table| && table[i].id == -1 && table[i].name == " "
  }

  /** Live, tombstone and empty slots make up the table; inodes missing from it never outnumber the
      tombstones, so a failed insertion proves that there is one. */
  lemma SlotAccounting(s: FS)
    requires Inv(s)
    ensures |LiveSlots(s.table)| + |Tombstones(s.table)| + |EmptySlots(s.table)| == INODES
    ensures |s.vol.iused| - |LiveSlots(s.table)| <= |Tombstones(s.table)|
    ensures EmptySlots(s.table) == {} && FirstFreeInode(s.vol.iused, 0) != -1 ==> Tombstones(s.table) != {}
  {
    hide LiveSlots, Tombstones, LiveIds, Sound, TableAgrees, RootInPlace;
    InvDistinctIds(s);
    SlotsPartition(s);
    FirstFreeInodeIsLeast(s.vol.iused, 0);
    BoundedCard(s.vol.iused, INODES);
    LiveSlotsAreIds(s.table, INODES);
    LiveIdsAreUsed(s);
    SubsetCard(LiveIds(s.table), s.vol.iused);
    assert s.table[..INODES] == s.table;
  }

  lemma InvDistinctIds(s: FS)
    requires Inv(s)
    ensures |s.table| == INODES
    ensures forall i, j :: 0 <= i < j < INODES && s.table[i].id == s.table[j].id ==> s.table[i].id == -1
    ensures forall x :: x in s.vol.iused ==> 0 <= x < INODES
  {}

  lemma SlotsPartition(s: FS)
    requires Sound(s.vol) && TableAgrees(s)
    ensures |LiveSlots(s.table)| + |Tombstones(s.table)| + |EmptySlots(s.table)| == INODES
  {
    var live, tombs, empty := LiveSlots(s.table), Tombstones(s.table), EmptySlots(s.table);
    forall i | 0 <= i < INODES
      ensures i in live || i in tombs || i in empty
      ensures !(i in live && i in empty) && !(i in live && i in tombs)
    {
      VacantNames(s, i);
    }
    FullCard(live + tombs + empty, INODES);
    assert live !! tombs && (live + tombs) !! empty;
    assert |live + tombs + empty| == |live + tombs| + |empty|;
  }

  /** Distinct ids: as many live slots as live inodes. */
  lemma {:induction false} LiveSlotsAreIds(table: seq<Inode>, k: nat)
    requires k <= |table|
    requires forall i, j :: 0 <= i < j < |table| && table[i].id == table[j].id ==> table[i].id == -1
    ensures |LiveSlots(table[..k])| == |LiveIds(table[..k])|
  {
    if k == 0 {
      assert LiveSlots(table[..k]) == {} && LiveIds(table[..k]) == {};
    } else {
      LiveSlotsAreIds(table, k - 1);
      var a, x := table[..k - 1], table[k - 1];
      assert table[..k] == a + [x];
      SlotsAppend(a, x);
      forall i | 0 <= i < k - 1
        ensures a[i].id == x.id ==> x.id == -1
      {
        assert a[i] == table[i];
      }
    }
  }

  lemma SlotsAppend(table: seq<Inode>, x: Inode)
    ensures LiveSlots(table + [x]) == if x.id == -1 then LiveSlots(table) else LiveSlots(table) + {|table|}
    ensures LiveIds(table + [x]) == if x.id == -1 then LiveIds(table) else LiveIds(table) + {x.id}
  {
    var t := table + [x];
    assert forall i :: 0 <= i < |table| ==> t[i] == table[i];
    if x.id != -1 {
      assert t[|table|].id in LiveIds(t);
    }
    forall id | id in LiveIds(table)
      ensures id in LiveIds(t)
    {
      var i :| 0 <= i < |table| && table[i].id == id && id != -1;
      assert t[i].id == id;
    }
  }

  /** With no inode lost, live slots and set inode bits are in bijection. */
  lemma LiveSlotsMatchInodes(s: FS)
    requires Inv(s)
    ensures NoneLost(s) <==> |LiveSlots(s.table)| == |s.vol.iused|
    ensures NoneLost(s) ==> forall id :: id in s.vol.iused ==>
      exists i ::
        0 <= i < INODES && s.table[i].id == id && forall j :: 0 <= j < INODES && s.table[j].id == id ==> i == j
  {
    LiveIdsAreUsed(s);
    LiveSlotsAreIds(s.table, INODES);
    assert s.table[..INODES] == s.table;
    if |LiveIds(s.table)| == |s.vol.iused| {
      var rest := s.vol.iused - LiveIds(s.table);
      assert s.vol.iused == LiveIds(s.table) + rest;
      assert rest == {};
    }
    if NoneLost(s) {
      assert LiveIds(s.table) == s.vol.iused;
      forall id | id in s.vol.iused
        ensures exists i ::
          0 <= i < INODES && s.table[i].id == id && forall j :: 0 <= j < INODES && s.table[j].id == id ==> i == j
      {
        var i :| 0 <= i < INODES && s.table[i].id == id && id != -1;
      }
    }
  }

  // ------------------------------------------------------- unique file names

  /** No two live inodes are files of the same name. */
  ghost predicate UniqueNames(v: Volume) {
    forall a, b ::
      a in v.iused && b in v.iused && 0 <= a < |v.recs| && 0 <= b < |v.recs|
      && v.recs[a].kind == FILE_KIND && v.recs[b].kind == FILE_KIND && v.recs[a].name == v.recs[b].name
      ==> a == b
  }

  lemma UniqueNamesStep(s: FS, step: Step)
    requires Inv(s) && Allowed(step) && NoneLost(s) && UniqueNames(s.vol)
    ensures UniqueNames(Next(s, step).vol)
  {
    hide UniqueNames, NoneLost, Sound, TableAgrees, RootInPlace, SlotsSuffice, CreateFile, CreateDir;
    match step
    case MakeFile(pwd, name) => MakeFileStaysUnique(s, pwd, name);
    case MakeDir(pwd, name, statSize) => MakeDirStaysUnique(s, pwd, name, statSize);
    case WriteTo(path, buf, size, beyond) => WriteStaysUnique(s, path, buf, size, beyond);
    case ReadFrom(path) =>
    case RemoveFile(path) => RemoveFileStaysUnique(s, path);
    case RemoveDir(pwd, name) => NoNewNames(s.vol, DeleteDir(s, pwd, name).0.vol);
    case Remount => RemountKeepsInv(s);
  }

  lemma WriteStaysUnique(s: FS, path: string, buf: seq<byte>, size: int, beyond: seq<byte>)
    requires Inv(s) && Allowed(WriteTo(path, buf, size, beyond)) && UniqueNames(s.vol)
    ensures UniqueNames(Next(s, WriteTo(path, buf, size, beyond)).vol)
  {
    hide UniqueNames, Sound, WriteFile;
    InvReadable(s);
    var slot := FindFile(s.table, path, 0);
    if size > 0 && slot < |s.table| {
      LiveSlot(s, slot);
      var node, mem := s.table[slot].(size := size), StrNCpy(buf, size) + beyond;
      WriteKeepsSound(s.vol, node, mem);
      NoNewNames(s.vol, WriteFile(s.vol, node, mem).0);
    }
  }

  lemma RemoveFileStaysUnique(s: FS, path: string)
    requires Inv(s) && Allowed(RemoveFile(path)) && UniqueNames(s.vol)
    ensures UniqueNames(Next(s, RemoveFile(path)).vol)
  {
    hide UniqueNames, Sound, DeleteFile;
    InvReadable(s);
    var slot := FindFile(s.table, path, 0);
    if slot < |s.table| {
      LiveSlot(s, slot);
      DeleteKeepsSound(s.vol, s.table[slot].id);
      NoNewNames(s.vol, DeleteFile(s.vol, s.table[slot]));
    }
  }

  lemma NoNewNames(v: Volume, w: Volume)
    requires UniqueNames(v) && w.iused <= v.iused && |w.recs| == |v.recs|
    requires forall a :: a in w.iused && 0 <= a < |v.recs| ==>
      w.recs[a].name == v.recs[a].name && w.recs[a].kind == v.recs[a].kind
    ensures UniqueNames(w)
  {}

  /** Some live inode is of that name and kind, in the table or not. */
  ghost predicate NodeOnDisk(v: Volume, path: string, kind: int) {
    exists a :: a in v.iused && 0 <= a < |v.recs| && v.recs[a].kind == kind && v.recs[a].name == path
  }

  /** A create_file that gets an inode keeps the names distinct exactly when no live record on disk
      has the cut path. The code looks in the table only, so an inode missing there is overlooked. */
  lemma CreationStaysUniqueIff(s: FS, pwd: string, name: string)
    requires Inv(s) && Allowed(MakeFile(pwd, name)) && UniqueNames(s.vol)
    requires |pwd| + |name| <= 32 && FindFile(s.table, Cut(Join(pwd, name)), 0) == |s.table|
    requires FirstFreeInode(s.vol.iused, 0) != -1
    ensures UniqueNames(CreateFile(s, pwd, name).0.vol) <==> !NodeOnDisk(s.vol, Cut(Join(pwd, name)), FILE_KIND)
  {
    hide Sound, CreateInode, UniqueNames, NodeOnDisk;
    CutIsGood(pwd, name);
    NoPointersShape();
    NewRecord(s.vol, NewFile(pwd, name));
    var r := CreateInode(s.vol, NewFile(pwd, name));
    UniqueAfterAdd(s.vol, r.0, r.1);
  }

  lemma UniqueAfterAdd(v: Volume, w: Volume, made: Inode)
    requires UniqueNames(v) && 0 <= made.id < |v.recs| && made.id !in v.iused && made.kind == FILE_KIND
    requires w.recs == v.recs[made.id := made] && w.iused == v.iused + {made.id}
    ensures UniqueNames(w) <==> !NodeOnDisk(v, made.name, FILE_KIND)
  {
    if a :| a in v.iused && 0 <= a < |v.recs| && v.recs[a].kind == FILE_KIND && v.recs[a].name == made.name {
      assert w.recs[a].name == w.recs[made.id].name && a != made.id;
    }
  }

  lemma MakeFileStaysUnique(s: FS, pwd: string, name: string)
    requires Inv(s) && Allowed(MakeFile(pwd, name)) && NoneLost(s) && UniqueNames(s.vol)
    ensures UniqueNames(CreateFile(s, pwd, name).0.vol)
  {
    hide Sound, CreateInode, NoneLost, UniqueNames;
    var path := Cut(Join(pwd, name));
    if |pwd| + |name| <= 32 && FindFile(s.table, path, 0) == |s.table| {
      if FirstFreeInode(s.vol.iused, 0) != -1 {
        NoSuchName(s, path);
        CreationStaysUniqueIff(s, pwd, name);
      } else {
        NoInodeLeft(s.vol, NewFile(pwd, name));
      }
    }
  }

  lemma NoInodeLeft(v: Volume, node: Inode)
    requires |v.recs| == INODES && FirstFreeInode(v.iused, 0) == -1
    ensures CreateInode(v, node).0 == v && !CreateInode(v, node).2
  {}

  /** With nothing lost, a lookup that fails means that no record on disk has the name. */
  lemma NoSuchName(s: FS, path: string)
    requires Inv(s) && NoneLost(s) && FindFile(s.table, path, 0) == |s.table|
    ensures !NodeOnDisk(s.vol, path, FILE_KIND)
  {
    forall a | a in s.vol.iused && s.vol.recs[a].kind == FILE_KIND
      ensures s.vol.recs[a].name != path
    {
      assert a in LiveIds(s.table);
      var i :| 0 <= i < INODES && s.table[i].id == a && a != -1;
      LiveSlot(s, i);
    }
  }

  lemma MakeDirStaysUnique(s: FS, pwd: string, name: string, statSize: int)
    requires Inv(s) && Allowed(MakeDir(pwd, name, statSize)) && UniqueNames(s.vol)
    ensures UniqueNames(CreateDir(s, pwd, name, statSize).0.vol)
  {
    if !SearchDir(s.table, pwd, name) {
      hide Sound, UniqueNames, PlaceDir;
      CutIsGood(pwd, name);
      var slot, made := PlaceDirFinds(s, Cut(Join(pwd, name)), statSize, 0);
      if slot < INODES {
        AddDirStaysUnique(s.vol, CreateDir(s, pwd, name, statSize).0.vol, made);
      }
    }
  }

  lemma AddDirStaysUnique(v: Volume, w: Volume, made: Inode)
    requires UniqueNames(v) && 0 <= made.id < |v.recs| && made.kind == DIR_KIND
    requires w.recs == v.recs[made.id := made] && w.iused == v.iused + {made.id}
    ensures UniqueNames(w)
  {}

  lemma {:induction false} UniqueNamesOverRuns(s: FS, steps: seq<Step>)
    requires Inv(s) && AllAllowed(steps)
    ensures NoneLost(s) && UniqueNames(s.vol) && Clean(s, steps) ==> UniqueNames(Run(s, steps).vol)
    decreases |steps|
  {
    if steps != [] && NoneLost(s) && UniqueNames(s.vol) && Clean(s, steps) {
      LostOnlyByFailedInsert(s, steps[0]);
      UniqueNamesStep(s, steps[0]);
      UniqueNamesOverRuns(Next(s, steps[0]), steps[1..]);
    }
  }

  /** Hence the first match of get_inode_from_path is the only one, and delete_inode_from_table
      hits that same slot. */
  lemma FirstMatchIsOnlyMatch(s: FS, path: string, i: int)
    requires Inv(s) && UniqueNames(s.vol)
    requires 0 <= i < INODES && s.table[i].id != -1 && s.table[i].name == path && s.table[i].kind == FILE_KIND
    ensures FindFile(s.table, path, 0) == i && FindId(s.table, s.table[i].id, 0) == i
  {
    LiveSlot(s, i);
    var slot := FindFile(s.table, path, 0);
    LiveSlot(s, slot);
  }

  /** The state after the first mount: nothing lost, no files. */
  lemma FirstMountIsClean(v: Volume)
    requires Formatted(v)
    ensures Inv(InitDir(v)) && NoneLost(InitDir(v)) && UniqueNames(InitDir(v).vol)
  {
    FirstMountEstablishesInv(v);
    FirstMountView(v);
    var s := InitDir(v);
    assert s.table[0].id in LiveIds(s.table);
  }

  /** From a fresh image on, live files have distinct names after every run without failed insertion. */
  lemma UniqueNamesFromFormat(v: Volume, steps: seq<Step>)
    requires Formatted(v) && AllAllowed(steps)
    ensures Inv(InitDir(v))
    ensures Clean(InitDir(v), steps) ==> UniqueNames(RunFromFormat(v, steps).vol)
  {
    FirstMountIsClean(v);
    UniqueNamesOverRuns(InitDir(v), steps);
  }
}
