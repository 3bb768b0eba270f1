/** What one operation leaves alone, and what a file's life gives back. */
module Effects {
  import opened Bytes
  import opened Inodes
  import opened Volumes
  import opened Ownership
  import opened Writing
  import opened Directories
  import opened Invariant
  import opened Runs
  import opened Content

  // -------------------------------------------------------------- isolation

  /** The inode a step is about, -1 if none: the file written or removed, the directory removed. */
  ghost function Target(s: FS, step: Step): int
    requires Inv(s)
  {
    match step
    case WriteTo(path, buf, size, beyond) =>
      var slot := FindFile(s.table, path, 0);
      if size > 0 && slot < |s.table| then s.table[slot].id else -1
    case RemoveFile(path) =>
      var slot := FindFile(s.table, path, 0);
      if slot < |s.table| then s.table[slot].id else -1
    case RemoveDir(pwd, name) =>
      var slot := FindDir(s.table, Join(pwd, name), 0);
      if slot < |s.table| then s.table[slot].id else -1
    case _ => -1
  }

  /** Record, bits and data of one live inode are the same in both volumes. */
  ghost predicate Untouched(v: Volume, w: Volume, id: int) {
    && 0 <= id < |v.recs| == |w.recs| && id in w.iused
    && w.recs[id] == v.recs[id]
    && forall k :: 0 <= k < NUM_ENTRIES && Pointer(v, id, k) != 0 ==>
         && Pointer(v, id, k) in w.used
         && Pointer(v, id, k) in v.data && Pointer(v, id, k) in w.data
         && w.data[Pointer(v, id, k)] == v.data[Pointer(v, id, k)]
  }

  lemma UntouchedBy(v: Volume, w: Volume, id: int)
    requires Sound(v) && id in v.iused && id in w.iused && |w.recs| == INODES && w.recs[id] == v.recs[id]
    requires w.data.Keys == v.data.Keys
    requires forall k :: 0 <= k < NUM_ENTRIES && Pointer(v, id, k) != 0 ==>
      Pointer(v, id, k) in w.used && Pointer(v, id, k) in w.data && Pointer(v, id, k) in v.data
      && w.data[Pointer(v, id, k)] == v.data[Pointer(v, id, k)]
    ensures Untouched(v, w, id)
  {}

  /** Pointers of another live inode are in use and not among the given one's. */
  lemma OthersPointers(v: Volume, id: int, other: int)
    requires Sound(v) && id in v.iused && other in v.iused && id != other
    ensures forall k :: 0 <= k < NUM_ENTRIES && Pointer(v, id, k) != 0 ==>
      && Pointer(v, id, k) in v.used && Pointer(v, id, k) in v.data
      && Pointer(v, id, k) !in Pointers(v.recs[other].num)
  {
    assert Good(v.recs[other], other) && Good(v.recs[id], id);
    OwnChain(v, id);
    forall k | 0 <= k < NUM_ENTRIES && Pointer(v, id, k) != 0
      ensures Pointer(v, id, k) !in Pointers(v.recs[other].num)
    {
      NotAmong(v, id, k, other);
    }
  }

  lemma WriteIsolates(v: Volume, node: Inode, mem: seq<byte>, id: int)
    requires LiveFile(v, node) && Writable(v, node, mem) && id in v.iused && id != node.id
    ensures Untouched(v, WriteFile(v, node, mem).0, id)
  {
    hide WriteFile;
    LiveFileGood(v, node);
    OthersPointers(v, id, node.id);
    WriteKeepsSound(v, node, mem);
    var w := WriteFile(v, node, mem).0;
    assert w.recs[id] == v.recs[id];
    forall k | 0 <= k < NUM_ENTRIES && Pointer(v, id, k) != 0
      ensures Pointer(v, id, k) in w.used
    {
      assert Pointer(w, id, k) == Pointer(v, id, k);
      assert Pointer(w, id, k) in Owned(w);
    }
    UntouchedBy(v, w, id);
  }

  lemma DeleteIsolates(v: Volume, other: int, id: int)
    requires Sound(v) && id in v.iused && other in v.iused && id != other
    requires DirectShape(v.recs[other].num) && v.recs[other].id == other
    ensures Untouched(v, DeleteFile(v, v.recs[other]), id)
  {
    hide DeleteFile;
    OthersPointers(v, id, other);
    DeleteKeepsSound(v, other);
    UntouchedBy(v, DeleteFile(v, v.recs[other]), id);
  }

  lemma AddIsolates(v: Volume, w: Volume, made: Inode, id: int)
    requires Sound(v) && id in v.iused && made.id !in v.iused && 0 <= made.id < INODES
    requires w.iused == v.iused + {made.id} && w.recs == v.recs[made.id := made]
    requires w.used == v.used && w.data == v.data
    ensures Untouched(v, w, id)
  {
    assert Good(v.recs[id], id);
    OwnChain(v, id);
    forall k | 0 <= k < NUM_ENTRIES && Pointer(v, id, k) != 0
      ensures Pointer(v, id, k) in v.used && Pointer(v, id, k) in v.data
    {
      assert Pointer(v, id, k) == v.recs[id].num[k];
    }
  }

  lemma SameIsolates(v: Volume, w: Volume, id: int)
    requires Sound(v) && id in v.iused && id in w.iused
    requires w.recs == v.recs && w.used == v.used && w.data == v.data
    ensures Untouched(v, w, id)
  {
    assert Good(v.recs[id], id);
    OwnChain(v, id);
    forall k | 0 <= k < NUM_ENTRIES && Pointer(v, id, k) != 0
      ensures Pointer(v, id, k) in v.used && Pointer(v, id, k) in v.data
    {
      assert Pointer(v, id, k) == v.recs[id].num[k];
    }
  }

  /** Writing, growing, shrinking, creating, deleting or remounting leaves every other live inode's
      record, bitmap bits and bytes as they were. */
  lemma StepIsolates(s: FS, step: Step, id: int)
    requires Inv(s) && Allowed(step) && id in s.vol.iused && id != Target(s, step)
    ensures Untouched(s.vol, Next(s, step).vol, id)
  {
    hide Sound, Untouched, CreateFile, CreateDir, DeleteDir, WriteFile, DeleteFile;
    InvReadable(s);
    SameIsolates(s.vol, s.vol, id);
    match step
    case MakeFile(pwd, name) => MakeFileIsolates(s, pwd, name, id);
    case MakeDir(pwd, name, statSize) => MakeDirIsolates(s, pwd, name, statSize, id);
    case WriteTo(path, buf, size, beyond) =>
      var slot := FindFile(s.table, path, 0);
      if size > 0 && slot < |s.table| {
        LiveSlot(s, slot);
        WriteIsolates(s.vol, s.table[slot].(size := size), StrNCpy(buf, size) + beyond, id);
      }
    case ReadFrom(path) =>
    case RemoveFile(path) =>
      var slot := FindFile(s.table, path, 0);
      if slot < |s.table| {
        LiveSlot(s, slot);
        DeleteIsolates(s.vol, s.table[slot].id, id);
      }
    case RemoveDir(pwd, name) => RemoveDirIsolates(s, pwd, name, id);
    case Remount => RemountKeepsInv(s);
  }

  lemma RemoveDirIsolates(s: FS, pwd: string, name: string, id: int)
    requires Inv(s) && Allowed(RemoveDir(pwd, name)) && id in s.vol.iused && id != Target(s, RemoveDir(pwd, name))
    ensures Untouched(s.vol, DeleteDir(s, pwd, name).0.vol, id)
  {
    hide Untouched;
    SameIsolates(s.vol, DeleteDir(s, pwd, name).0.vol, id);
  }

  lemma MakeFileIsolates(s: FS, pwd: string, name: string, id: int)
    requires Inv(s) && Allowed(MakeFile(pwd, name)) && id in s.vol.iused
    requires Untouched(s.vol, s.vol, id)
    ensures Untouched(s.vol, CreateFile(s, pwd, name).0.vol, id)
  {
    if |pwd| + |name| <= 32 {
      hide Untouched, CreateInode;
      CutIsGood(pwd, name);
      NoPointersShape();
      var node := NewFile(pwd, name);
      NewRecord(s.vol, node);
      var r := CreateInode(s.vol, node);
      if r.2 {
        AddIsolates(s.vol, r.0, r.1, id);
      }
    }
  }

  lemma MakeDirIsolates(s: FS, pwd: string, name: string, statSize: int, id: int)
    requires Inv(s) && Allowed(MakeDir(pwd, name, statSize)) && id in s.vol.iused
    requires Untouched(s.vol, s.vol, id)
    ensures Untouched(s.vol, CreateDir(s, pwd, name, statSize).0.vol, id)
  {
    if !SearchDir(s.table, pwd, name) {
      hide Untouched, PlaceDir;
      CutIsGood(pwd, name);
      var slot, made := PlaceDirFinds(s, Cut(Join(pwd, name)), statSize, 0);
      if slot < INODES {
        AddIsolates(s.vol, CreateDir(s, pwd, name, statSize).0.vol, made, id);
      }
    }
  }

  /** The blocks an inode owns, none when its bit is clear. */
  ghost function OwnBlocks(v: Volume, id: int): set<int> {
    if id in v.iused && 0 <= id < |v.recs| then Pointers(v.recs[id].num) else {}
  }

  /** The block bitmap after a step, exactly: the target's new blocks are set, those it gave up below
      the id limit are cleared, nothing else changes. The owned blocks follow its pointers. */
  ghost predicate BitsFollow(v: Volume, w: Volume, id: int) {
    var before, after := OwnBlocks(v, id), OwnBlocks(w, id);
    && w.used == v.used + after - GivenUp(before, after)
    && Owned(w) == Owned(v) - before + after
    && before <= Owned(v)
    && after - before <= FreeIds(v)
  }

  lemma StepBits(s: FS, step: Step)
    requires Inv(s) && Allowed(step)
    ensures BitsFollow(s.vol, Next(s, step).vol, Target(s, step))
  {
    hide BitsFollow, Sound, CreateInode, WriteFile, DeleteFile, DeleteDir, PlaceDir;
    InvReadable(s);
    SameBits(s.vol);
    match step
    case MakeFile(pwd, name) => MakeFileBits(s, pwd, name);
    case MakeDir(pwd, name, statSize) => MakeDirBits(s, pwd, name, statSize);
    case WriteTo(path, buf, size, beyond) =>
      var slot := FindFile(s.table, path, 0);
      if size > 0 && slot < |s.table| {
        LiveSlot(s, slot);
        WriteBits(s.vol, s.table[slot].(size := size), StrNCpy(buf, size) + beyond);
      }
    case ReadFrom(path) =>
    case RemoveFile(path) =>
      var slot := FindFile(s.table, path, 0);
      if slot < |s.table| {
        LiveSlot(s, slot);
        DeleteBits(s.vol, s.table[slot].id);
      }
    case RemoveDir(pwd, name) => DeleteDirBits(s, pwd, name);
    case Remount => RemountKeepsInv(s);
  }

  lemma SameBits(v: Volume)
    requires Sound(v)
    ensures forall id :: BitsFollow(v, v, id)
  {
    forall id
      ensures BitsFollow(v, v, id)
    {
      if id in v.iused {
        OwnChain(v, id);
      }
    }
  }

  lemma AddBits(v: Volume, w: Volume, made: Inode)
    requires Sound(v) && made.id !in v.iused && 0 <= made.id < INODES && made.num == NoPointers()
    requires w.iused == v.iused + {made.id} && w.recs == v.recs[made.id := made] && w.used == v.used
    ensures BitsFollow(v, w, -1)
  {
    OwnedAfterPut(v, w, made);
    assert Pointers(made.num) == {};
    assert -1 !in v.iused;
  }

  lemma MakeFileBits(s: FS, pwd: string, name: string)
    requires Inv(s) && Allowed(MakeFile(pwd, name))
    ensures BitsFollow(s.vol, CreateFile(s, pwd, name).0.vol, -1)
  {
    hide BitsFollow, CreateInode;
    SameBits(s.vol);
    if |pwd| + |name| <= 32 {
      CutIsGood(pwd, name);
      NoPointersShape();
      var node := NewFile(pwd, name);
      NewRecord(s.vol, node);
      var r := CreateInode(s.vol, node);
      if r.2 {
        AddBits(s.vol, r.0, r.1);
      }
    }
  }

  lemma MakeDirBits(s: FS, pwd: string, name: string, statSize: int)
    requires Inv(s) && Allowed(MakeDir(pwd, name, statSize))
    ensures BitsFollow(s.vol, CreateDir(s, pwd, name, statSize).0.vol, -1)
  {
    hide BitsFollow, PlaceDir;
    SameBits(s.vol);
    if !SearchDir(s.table, pwd, name) {
      CutIsGood(pwd, name);
      var slot, made := PlaceDirFinds(s, Cut(Join(pwd, name)), statSize, 0);
      if slot < INODES {
        AddBits(s.vol, CreateDir(s, pwd, name, statSize).0.vol, made);
      }
    }
  }

  lemma WriteBits(v: Volume, node: Inode, mem: seq<byte>)
    requires LiveFile(v, node) && Writable(v, node, mem)
    ensures BitsFollow(v, WriteFile(v, node, mem).0, node.id)
  {
    hide WriteFile;
    LiveFileGood(v, node);
    WriteKeepsSound(v, node, mem);
    var r := WriteFile(v, node, mem);
    assert r.0.iused == v.iused + {node.id};
    OwnedAfterPut(v, r.0, r.1);
  }

  lemma DeleteBits(v: Volume, id: int)
    requires Sound(v) && id in v.iused && 0 <= id < |v.recs| && DirectShape(v.recs[id].num)
    ensures BitsFollow(v, DeleteFile(v, v.recs[id]), id)
  {
    hide DeleteFile;
    OwnChain(v, id);
    DeleteKeepsSound(v, id);
    var w := DeleteFile(v, v.recs[id]);
    assert GivenUp(Pointers(v.recs[id].num), {}) == set x | x in Pointers(v.recs[id].num) && x < ID_LIMIT;
  }

  lemma DeleteDirBits(s: FS, pwd: string, name: string)
    requires Inv(s) && Allowed(RemoveDir(pwd, name))
    ensures BitsFollow(s.vol, DeleteDir(s, pwd, name).0.vol, Target(s, RemoveDir(pwd, name)))
  {
    SameBits(s.vol);
    var slot := FindDir(s.table, Join(pwd, name), 0);
    if DeleteDir(s, pwd, name).1 == 0 {
      assert !Vacant(s.table[slot]);
      LiveSlot(s, slot);
      var id := s.table[slot].id;
      assert Pointers(s.vol.recs[id].num) == {};
      OwnedAfterClear(s.vol, DeleteDir(s, pwd, name).0.vol, id);
    }
  }

  /** The only bitmap bits a step flips are those of blocks its target owns before or after. */
  lemma StepFlipsOwnBits(s: FS, step: Step, x: int)
    requires Inv(s) && Allowed(step)
    requires x !in OwnBlocks(s.vol, Target(s, step)) && x !in OwnBlocks(Next(s, step).vol, Target(s, step))
    ensures x in Next(s, step).vol.used <==> x in s.vol.used
  {
    hide Inv, Next, Target, OwnBlocks;
    StepBits(s, step);
  }

  /** So a read of an untouched file gives the same bytes before and after. */
  lemma UntouchedReadsAlike(v: Volume, w: Volume, id: int)
    requires Untouched(v, w, id) && DirectShape(v.recs[id].num) && 0 <= v.recs[id].size
    requires forall k :: 0 <= k < Count(v.recs[id].num, 0) ==> v.recs[id].num[k] in v.data
    requires forall k :: 0 <= k < Count(v.recs[id].num, 0) ==> v.recs[id].num[k] in w.data
    ensures ReadFile(w, w.recs[id]) == ReadFile(v, v.recs[id])
  {
    var num := v.recs[id].num;
    forall k | 0 <= k < Count(num, 0)
      ensures w.data[num[k]] == v.data[num[k]]
    {
      assert Pointer(v, id, k) == num[k];
    }
    JoinedAlike(v, w, num, Count(num, 0));
  }

  // ----------------------------------------------------------- conservation

  /** Data blocks are free, owned or leaked, and nothing else. Leaked ones lie at or above the id
      limit, and free plus owned makes up all data blocks exactly when there are none. */
  lemma BlockAccounting(v: Volume)
    requires Sound(v)
    ensures |FreeIds(v)| + |Owned(v)| + |Leaked(v)| == BLOCKS - FIRST_DATA
    ensures forall x :: x in Leaked(v) ==> ID_LIMIT <= x < BLOCKS
    ensures |FreeIds(v)| + |Owned(v)| == BLOCKS - FIRST_DATA <==> Leaked(v) == {}
  {
    hide Owned, Disjoint, RecordsGood;
    OwnedRange(v);
    var free, owned, leaked := FreeIds(v), Owned(v), Leaked(v);
    var reserved := set x | x in v.used && x < FIRST_DATA;
    FourParts(reserved, free, owned, leaked);
  }

  lemma FourParts(reserved: set<int>, a: set<int>, b: set<int>, c: set<int>)
    requires forall x :: x in reserved <==> 0 <= x < FIRST_DATA
    requires forall x :: 0 <= x < BLOCKS ==> x in reserved || x in a || x in b || x in c
    requires forall x :: x in a || x in b || x in c ==> FIRST_DATA <= x < BLOCKS
    requires a !! b && a !! c && b !! c
    ensures |a| + |b| + |c| == BLOCKS - FIRST_DATA
  {
    FullCard(reserved, FIRST_DATA);
    FullCard(reserved + a + b + c, BLOCKS);
    assert reserved !! a && (reserved + a) !! b && (reserved + a + b) !! c;
    assert |reserved + a + b + c| == |reserved + a + b| + |c|;
    assert |reserved + a + b| == |reserved + a| + |b|;
  }

  lemma OwnedRange(v: Volume)
    requires Sound(v)
    ensures forall x :: x in Owned(v) ==> FIRST_DATA <= x < BLOCKS && x in v.used
  {
    forall x | x in Owned(v)
      ensures FIRST_DATA <= x < BLOCKS
    {
      var id, k :| id in v.iused && 0 <= k < NUM_ENTRIES && Pointer(v, id, k) == x && x != 0;
      assert Good(v.recs[id], id);
    }
  }

  /** Two sound volumes with the same live records have the same bitmap below the id limit. */
  lemma SameRecordsSameBits(v: Volume, w: Volume)
    requires Sound(v) && Sound(w) && v.iused == w.iused
    requires forall id :: id in v.iused ==> v.recs[id] == w.recs[id]
    ensures Owned(v) == Owned(w)
    ensures forall x :: 0 <= x < ID_LIMIT ==> (x in v.used <==> x in w.used)
  {
    forall id, k | id in v.iused
      ensures Pointer(v, id, k) == Pointer(w, id, k)
    {
      assert v.recs[id] == w.recs[id];
    }
    forall x | x in Owned(v)
      ensures x in Owned(w)
    {
      var id, k :| id in v.iused && 0 <= k < NUM_ENTRIES && Pointer(v, id, k) == x && x != 0;
      assert Pointer(w, id, k) == x;
    }
    forall x | x in Owned(w)
      ensures x in Owned(v)
    {
      var id, k :| id in w.iused && 0 <= k < NUM_ENTRIES && Pointer(w, id, k) == x && x != 0;
      assert Pointer(v, id, k) == x;
    }
  }

  /** t is s with one more live inode, the file `path`. */
  ghost predicate OneMore(s: FS, t: FS, path: string, id: int) {
    && Inv(s) && Inv(t)
    && id !in s.vol.iused && t.vol.iused == s.vol.iused + {id}
    && (forall a :: a in s.vol.iused ==> t.vol.recs[a] == s.vol.recs[a])
    && FindFile(t.table, path, 0) < |t.table| && t.table[FindFile(t.table, path, 0)].id == id
  }

  /** The inode bitmap, the block bitmap below the id limit and every live record are as in s. */
  ghost predicate Restored(s: FS, u: FS) {
    && u.vol.iused == s.vol.iused
    && (forall x :: 0 <= x < ID_LIMIT ==> (x in u.vol.used <==> x in s.vol.used))
    && |s.vol.recs| == |u.vol.recs|
    && (forall a :: a in s.vol.iused && 0 <= a < |s.vol.recs| ==> u.vol.recs[a] == s.vol.recs[a])
  }

  datatype Job = Job(buf: seq<byte>, size: int, beyond: seq<byte>)

  function WritesTo(path: string, jobs: seq<Job>): (steps: seq<Step>)
    ensures |steps| == |jobs|
    ensures forall i :: 0 <= i < |jobs| ==> steps[i] == WriteTo(path, jobs[i].buf, jobs[i].size, jobs[i].beyond)
  {
    seq(|jobs|, (i: int) requires 0 <= i < |jobs| => WriteTo(path, jobs[i].buf, jobs[i].size, jobs[i].beyond))
  }

  /** What a successful create_file puts where. */
  lemma CreateFills(s: FS, pwd: string, name: string) returns (slot: nat, made: Inode)
    requires Inv(s) && IsCString(pwd) && IsCString(name)
    requires |pwd| + |name| <= 32 && FindFile(s.table, Cut(Join(pwd, name)), 0) == |s.table|
    requires EmptySlots(s.table) != {}
    ensures slot in EmptySlots(s.table) && CreateFile(s, pwd, name).0.table == s.table[slot := made]
    ensures made.name == Cut(Join(pwd, name)) && made.kind == FILE_KIND && made.num == NoPointers()
    ensures made.id !in s.vol.iused && 0 <= made.id < INODES == |s.vol.recs|
    ensures var w := CreateFile(s, pwd, name).0.vol;
      && w.iused == s.vol.iused + {made.id} && w.recs == s.vol.recs[made.id := made]
      && w.used == s.vol.used && w.data == s.vol.data
  {
    InsertFailsIffNoSlot(s);
    slot := FindEmpty(s.table, 0);
    assert slot in EmptySlots(s.table);
    EmptySlotMeansFreeInode(s, slot);
    CutIsGood(pwd, name);
    NoPointersShape();
    NewRecord(s.vol, NewFile(pwd, name));
    made := CreateInode(s.vol, NewFile(pwd, name)).1;
  }

  lemma CreateAddsOne(s: FS, pwd: string, name: string) returns (id: int)
    requires Inv(s) && IsCString(pwd) && IsCString(name)
    requires |pwd| + |name| <= 32 && FindFile(s.table, Cut(Join(pwd, name)), 0) == |s.table|
    requires EmptySlots(s.table) != {}
    ensures OneMore(s, CreateFile(s, pwd, name).0, Cut(Join(pwd, name)), id)
    ensures CreateFile(s, pwd, name).0.vol.recs[id].num == NoPointers()
  {
    hide Disjoint, Accounted, RecordsGood, CreateFile;
    CreateFileKeepsInv(s, pwd, name);
    var slot, made := CreateFills(s, pwd, name);
    id := made.id;
    FoundAtSlot(s.table, Cut(Join(pwd, name)), slot, made);
  }

  /** Under the path the caller meant the new file is found exactly when the name field held it whole:
      one of 32 or 33 characters is cut, and then no slot has it. */
  lemma FoundUnderOwnPathIff(s: FS, pwd: string, name: string)
    requires Inv(s) && IsCString(pwd) && IsCString(name)
    requires |pwd| + |name| <= 32 && FindFile(s.table, Cut(Join(pwd, name)), 0) == |s.table|
    requires EmptySlots(s.table) != {}
    ensures var t := CreateFile(s, pwd, name).0;
      FindFile(t.table, Join(pwd, name), 0) < |t.table| <==> |Join(pwd, name)| < NAME_FIELD
  {
    hide Disjoint, Accounted, RecordsGood, CreateFile;
    var id := CreateAddsOne(s, pwd, name);
    var t := CreateFile(s, pwd, name).0;
    var slot := FindFile(t.table, Join(pwd, name), 0);
    if slot < |t.table| {
      LiveSlot(t, slot);
    }
  }

  lemma FoundAtSlot(table: seq<Inode>, path: string, slot: nat, node: Inode)
    requires slot < |table| && FindFile(table, path, 0) == |table|
    requires node.id != -1 && node.name == path && node.kind == FILE_KIND
    ensures FindFile(table[slot := node], path, 0) == slot
  {
    var t := table[slot := node];
    forall j | 0 <= j < slot
      ensures !(t[j].id != -1 && t[j].name == path && t[j].kind == FILE_KIND)
    {
      assert t[j] == table[j];
    }
    assert t[slot] == node;
  }

  lemma WriteKeepsOneMore(s: FS, t: FS, path: string, id: int, job: Job)
    requires OneMore(s, t, path, id) && Allowed(WriteTo(path, job.buf, job.size, job.beyond))
    ensures OneMore(s, Next(t, WriteTo(path, job.buf, job.size, job.beyond)), path, id)
  {
    hide RootInPlace, SlotsSuffice, WriteFile, Disjoint, Accounted, RecordsGood;
    var step := WriteTo(path, job.buf, job.size, job.beyond);
    InvReadable(t);
    if job.size > 0 {
      var slot := FindFile(t.table, path, 0);
      LiveSlot(t, slot);
      var node, mem := t.table[slot].(size := job.size), StrNCpy(job.buf, job.size) + job.beyond;
      WriteKeepsSound(t.vol, node, mem);
      KeepsFinding(t.table, path, slot, WriteFile(t.vol, node, mem).1);
    }
  }

  lemma KeepsFinding(table: seq<Inode>, path: string, slot: nat, node: Inode)
    requires slot < |table| && FindFile(table, path, 0) == slot
    requires node.id == table[slot].id && node.name == path && node.kind == FILE_KIND
    ensures FindFile(table[slot := node], path, 0) == slot
  {
    var t := table[slot := node];
    forall j | 0 <= j < slot
      ensures !(t[j].id != -1 && t[j].name == path && t[j].kind == FILE_KIND)
    {
      assert t[j] == table[j];
    }
    assert t[slot] == node;
    assert FindFile(t, path, 0) <= slot;
  }

  lemma OneMoreInv(s: FS, t: FS, path: string, id: int)
    requires OneMore(s, t, path, id)
    ensures Inv(t)
  {
    hide Inv;
  }

  lemma {:induction false} WritesKeepOneMore(s: FS, t: FS, path: string, id: int, jobs: seq<Job>)
    requires OneMore(s, t, path, id) && AllAllowed(WritesTo(path, jobs))
    ensures OneMore(s, Run(t, WritesTo(path, jobs)), path, id)
    decreases |jobs|
  {
    hide Inv, OneMore, Next, Allowed;
    OneMoreInv(s, t, path, id);
    if jobs != [] {
      var steps := WritesTo(path, jobs);
      assert steps[0] == WriteTo(path, jobs[0].buf, jobs[0].size, jobs[0].beyond);
      assert Allowed(steps[0]);
      WriteKeepsOneMore(s, t, path, id, jobs[0]);
      assert steps[1..] == WritesTo(path, jobs[1..]);
      WritesKeepOneMore(s, Next(t, steps[0]), path, id, jobs[1..]);
    }
  }

  /** The state after writing a file any number of times and deleting it. */
  ghost function EndOfLife(t: FS, path: string, jobs: seq<Job>): FS
    requires Inv(t) && path != "" && AllAllowed(WritesTo(path, jobs))
  {
    Next(Run(t, WritesTo(path, jobs)), RemoveFile(path))
  }

  /** The same with the creation in front. */
  ghost function AfterFileLife(s: FS, pwd: string, name: string, jobs: seq<Job>): FS
    requires Inv(s) && Allowed(MakeFile(pwd, name)) && AllAllowed(WritesTo(Cut(Join(pwd, name)), jobs))
  {
    CutIsGood(pwd, name);
    EndOfLife(Next(s, MakeFile(pwd, name)), Cut(Join(pwd, name)), jobs)
  }

  /** A file's life restores the inode bitmap exactly, the block bitmap on every id below 2048, and
      every other record. */
  lemma FileLifeRestoresBitmaps(s: FS, pwd: string, name: string, jobs: seq<Job>)
    requires Inv(s) && Allowed(MakeFile(pwd, name)) && AllAllowed(WritesTo(Cut(Join(pwd, name)), jobs))
    requires |pwd| + |name| <= 32 && FindFile(s.table, Cut(Join(pwd, name)), 0) == |s.table|
    requires EmptySlots(s.table) != {}
    requires !EndsInSlash(Cut(Join(pwd, name)))
    ensures Restored(s, AfterFileLife(s, pwd, name, jobs))
  {
    hide Sound, TableAgrees, RootInPlace, SlotsSuffice, CreateInode, DeleteFileByPath, EmptySlots, Restored;
    CutIsGood(pwd, name);
    var path := Cut(Join(pwd, name));
    InvReadable(s);
    var id := CreateAddsOne(s, pwd, name);
    var t := Next(s, MakeFile(pwd, name));
    WritesKeepOneMore(s, t, path, id, jobs);
    RemoveUndoesOneMore(s, Run(t, WritesTo(path, jobs)), path, id);
  }

  lemma RemoveUndoesOneMore(s: FS, t: FS, path: string, id: int)
    requires OneMore(s, t, path, id) && path != "" && !EndsInSlash(path)
    ensures Restored(s, Next(t, RemoveFile(path)))
  {
    InvReadable(t);
    LiveSlot(t, FindFile(t.table, path, 0));
    DeleteKeepsSound(t.vol, id);
    var u := Next(t, RemoveFile(path));
    assert u.vol == DeleteFile(t.vol, t.vol.recs[id]);
    assert u.vol.iused == s.vol.iused;
    SameRecordsSameBits(s.vol, u.vol);
  }

  /** With distinct names a removed path is gone: no lookup finds it until it is created again. */
  lemma RemovedIsGone(s: FS, path: string)
    requires Inv(s) && UniqueNames(s.vol) && path != "" && !EndsInSlash(path)
    ensures FindFile(Next(s, RemoveFile(path)).table, path, 0) == INODES
  {
    hide Sound, UniqueNames, DeleteFile;
    InvReadable(s);
    var slot, t := FindFile(s.table, path, 0), Next(s, RemoveFile(path)).table;
    if slot < |s.table| {
      assert FindId(s.table, s.table[slot].id, 0) == slot by {
        FirstMatchIsOnlyMatch(s, path, slot);
      }
      assert t == s.table[slot := Tombstone(s.table[slot])];
      forall j | 0 <= j < INODES
        ensures !(t[j].id != -1 && t[j].name == path && t[j].kind == FILE_KIND)
      {
        if j != slot && s.table[j].id != -1 && s.table[j].name == path && s.table[j].kind == FILE_KIND {
          FirstMatchIsOnlyMatch(s, path, j);
        }
      }
    }
  }
}
