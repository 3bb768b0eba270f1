/** The departures from intent are not only conditions on paper: for each of them a run from a freshly
    formatted image, or from any state that meets a plain condition, ends in it. */
module Witnesses {
  import opened Bytes
  import opened Inodes
  import opened Volumes
  import opened Chains
  import opened Ownership
  import opened Writing
  import opened Directories
  import opened Invariant
  import opened Runs
  import opened Content
  import opened Effects
  import opened Leaks
  import opened Trees
  import opened Listings
  import opened Outcomes
  import opened Names

  // ------------------------------------------------------------ short runs

  lemma {:induction false} RunThen(s: FS, a: seq<Step>, b: seq<Step>)
    requires Inv(s) && AllAllowed(a) && AllAllowed(b)
    ensures AllAllowed(a + b) && Run(s, a + b) == Run(Run(s, a), b)
    decreases |a|
  {
    hide Inv, Next, Allowed;
    if a == [] {
      assert a + b == b;
    } else {
      assert (a + b)[1..] == a[1..] + b;
      assert AllAllowed(a[1..]);
      RunThen(Next(s, a[0]), a[1..], b);
    }
  }

  lemma RunOne(s: FS, step: Step)
    requires Inv(s) && Allowed(step)
    ensures AllAllowed([step]) && Run(s, [step]) == Next(s, step)
  {
    hide Inv, Next, Allowed;
  }

  lemma RunCons(s: FS, step: Step, steps: seq<Step>)
    requires Inv(s) && Allowed(step) && AllAllowed(steps)
    ensures AllAllowed([step] + steps) && Run(s, [step] + steps) == Run(Next(s, step), steps)
    ensures Clean(s, [step] + steps) <==> !InsertFails(s, step) && Clean(Next(s, step), steps)
  {
    hide Inv, Next, Allowed, InsertFails;
    assert ([step] + steps)[1..] == steps;
  }

  // ------------------------------------------------------- failed insertion

  lemma RootPath()
    ensures Cut(Join("/", "x")) == "/x" && !EndsInSlash("/x")
    ensures IsCString("/") && IsCString("x")
  {}

  /** Removing a file turns its slot into a tombstone and frees its id. */
  lemma RemovalMakesTombstone(s: FS, path: string)
    requires Inv(s) && path != "" && !EndsInSlash(path) && FindFile(s.table, path, 0) < |s.table|
    ensures var t := Next(s, RemoveFile(path));
      && |Tombstones(t.table)| == |Tombstones(s.table)| + 1
      && |t.vol.iused| == |s.vol.iused| - 1
      && FirstFreeInode(t.vol.iused, 0) != -1
  {
    hide DeleteFile, Disjoint, Accounted, RecordsGood, SlotsSuffice, RootInPlace, DirectShape;
    var slot, t := FindFile(s.table, path, 0), Next(s, RemoveFile(path));
    InvReadable(s);
    LiveSlot(s, slot);
    assert FindId(s.table, s.table[slot].id, 0) == slot;
    assert t.table == s.table[slot := Tombstone(s.table[slot])];
    assert Tombstones(t.table) == Tombstones(s.table) + {slot};
    DeleteKeepsSound(s.vol, s.table[slot].id);
    FirstFreeInodeIsLeast(t.vol.iused, 0);
    assert s.table[slot].id !in t.vol.iused;
  }

  /** A creation that finds a slot takes an empty one and makes no tombstone. */
  lemma CreationTakesEmpty(s: FS, pwd: string, name: string)
    requires Inv(s) && Allowed(MakeFile(pwd, name)) && EmptySlots(s.table) != {}
    requires |pwd| + |name| <= 32 && FindFile(s.table, Cut(Join(pwd, name)), 0) == |s.table|
    ensures var t := Next(s, MakeFile(pwd, name));
      && FindFile(t.table, Cut(Join(pwd, name)), 0) < |t.table|
      && Tombstones(t.table) == Tombstones(s.table)
      && |t.vol.iused| == |s.vol.iused| + 1
      && EmptySlots(t.table) < EmptySlots(s.table) && |EmptySlots(t.table)| == |EmptySlots(s.table)| - 1
  {
    hide CreateFile, Sound, SlotsSuffice, RootInPlace;
    InvReadable(s);
    CutIsGood(pwd, name);
    var slot, made := CreateFills(s, pwd, name);
    var id := CreateAddsOne(s, pwd, name);
    var t := Next(s, MakeFile(pwd, name));
    assert t.table == s.table[slot := made];
    assert EmptySlots(t.table) == EmptySlots(s.table) - {slot};
    assert Tombstones(t.table) == Tombstones(s.table);
  }

  /** From every state in which nothing is missing and an inode id is free or the file is there, a run
      that loses nothing leads to a state in which the next create_file does lose its inode: making
      and removing one path over and over turns every empty slot into a tombstone. */
  lemma {:induction false} ReachesFailedInsert(s: FS) returns (steps: seq<Step>)
    requires Inv(s) && NoneLost(s)
    requires FirstFreeInode(s.vol.iused, 0) != -1 || FindFile(s.table, "/x", 0) < |s.table|
    ensures AllAllowed(steps) && Clean(s, steps)
    ensures InsertFails(Run(s, steps), MakeFile("/", "x"))
    ensures |Run(s, steps).vol.iused| <= |s.vol.iused| - if FindFile(s.table, "/x", 0) < |s.table| then 1 else 0
    decreases INODES - |Tombstones(s.table)|, |EmptySlots(s.table)|
  {
    hide Inv, Next, EmptySlots, Tombstones, NoneLost;
    RootPath();
    SlotAccounting(s);
    var step := if FindFile(s.table, "/x", 0) < |s.table| then RemoveFile("/x") else MakeFile("/", "x");
    if step.MakeFile? && EmptySlots(s.table) == {} {
      steps := [];
    } else {
      if step.RemoveFile? {
        RemovalMakesTombstone(s, "/x");
      } else {
        CreationTakesEmpty(s, "/", "x");
      }
      LostOnlyByFailedInsert(s, step);
      SlotAccounting(Next(s, step));
      var rest := ReachesFailedInsert(Next(s, step));
      RunCons(s, step, rest);
      steps := [step] + rest;
    }
  }

  /** So insertion can always be made to fail, and then create_file reports success for a file that no
      lookup finds and that comes up at the next mount. */
  lemma InsertionCanFail(s: FS) returns (steps: seq<Step>)
    requires Inv(s) && NoneLost(s) && FirstFreeInode(s.vol.iused, 0) != -1
    ensures AllAllowed(steps) && Clean(s, steps)
    ensures var t := Run(s, steps);
      var u := Next(t, MakeFile("/", "x"));
      && |t.vol.recs| == INODES && CreateFile(t, "/", "x") == (u, 0)
      && ReadNow(u, "/x") == NoSuchFile
      && !NoneLost(u) && LiveRecords(InitDir(u.vol).table) != LiveRecords(u.table)
  {
    hide Inv, LiveRecords, NoneLost, Clean;
    steps := ReachesFailedInsert(s);
    NoneLostOverRuns(s, steps);
    var t := Run(s, steps);
    LostOnlyByFailedInsert(t, MakeFile("/", "x"));
    FailedInsert(t, Next(t, MakeFile("/", "x")));
    RemountEquivalence(Next(t, MakeFile("/", "x")));
  }

  lemma FailedInsert(t: FS, u: FS)
    requires IsStep(t, MakeFile("/", "x"), u) && InsertFails(t, MakeFile("/", "x"))
    ensures |t.vol.recs| == INODES && CreateFile(t, "/", "x") == (u, 0)
    ensures IsReading(u, "/x", NoSuchFile)
  {
    hide Sound, CreateInode, SlotsSuffice, RootInPlace, ReadFile;
    RootPath();
    InvReadable(t);
    InsertFailsIffNoSlot(t);
    InvReadable(u);
    assert u.table == t.table;
  }

  /** In particular from a fresh image. */
  lemma InsertionCanFailFromFormat(v: Volume) returns (steps: seq<Step>, t: FS)
    requires Formatted(v)
    ensures AllAllowed(steps) && t == RunFromFormat(v, steps) && Inv(t)
    ensures NoneLost(t) && InsertFails(t, MakeFile("/", "x"))
  {
    hide Inv, InitDir, NoneLost, Clean;
    FirstMountIsClean(v);
    FirstMountView(v);
    FirstFreeInodeIsLeast(InitDir(v).vol.iused, 0);
    steps := ReachesFailedInsert(InitDir(v));
    NoneLostOverRuns(InitDir(v), steps);
    t := RunFromFormat(v, steps);
  }

  /** What the failing create_file still does: one more inode on disk under the same name. */
  lemma LostInodeOnDisk(t: FS, u: FS) returns (id: int)
    requires IsStep(t, MakeFile("/", "x"), u) && InsertFails(t, MakeFile("/", "x"))
    ensures id !in t.vol.iused && 0 <= id < |t.vol.recs| && u.table == t.table
    ensures u.vol.iused == t.vol.iused + {id} && |u.vol.recs| == |t.vol.recs|
    ensures forall a :: a in t.vol.iused && 0 <= a < |t.vol.recs| ==> u.vol.recs[a] == t.vol.recs[a]
    ensures u.vol.recs[id].kind == FILE_KIND && u.vol.recs[id].name == "/x"
  {
    hide Disjoint, Accounted, RecordsGood, CreateInode, SlotsSuffice, RootInPlace;
    RootPath();
    CutIsGood("/", "x");
    NoPointersShape();
    InvReadable(t);
    InsertFailsIffNoSlot(t);
    NewRecord(t.vol, NewFile("/", "x"));
    id := CreateInode(t.vol, NewFile("/", "x")).1.id;
  }

  lemma SpareInode(s: FS)
    requires Inv(s) && |s.vol.iused| < INODES
    ensures FirstFreeInode(s.vol.iused, 0) != -1
  {
    FirstFreeInodeIsLeast(s.vol.iused, 0);
    if forall x :: 0 <= x < INODES ==> x in s.vol.iused {
      FullCard(s.vol.iused, INODES);
    }
  }

  /** Two failed insertions of one path in a row leave two files of one name, and after the next mount
      both are in the table. Any state with nothing missing and two spare inode ids leads there. */
  lemma NamesCanCollide(s: FS) returns (steps: seq<Step>, w: FS, a: int, b: int)
    requires Inv(s) && NoneLost(s) && |s.vol.iused| <= INODES - 2
    ensures AllAllowed(steps) && w == Run(s, steps) && Inv(w) && !UniqueNames(w.vol)
    ensures var table := InitDir(w.vol).table;
      && |table| == INODES && 0 <= a < b < INODES && table[a].id == a && table[b].id == b
      && table[a].kind == table[b].kind == FILE_KIND && table[a].name == table[b].name == "/x"
  {
    hide Inv, Next, NoneLost, Clean, EmptySlots, UniqueNames, InitDir, InsertFails;
    SpareInode(s);
    var step := MakeFile("/", "x");
    var prefix := ReachesFailedInsert(s);
    var t := Run(s, prefix);
    w, a, b := TwoFailures(t);
    RunOne(Next(t, step), step);
    RunCons(t, step, [step]);
    RunThen(s, prefix, [step] + [step]);
    steps := prefix + ([step] + [step]);
    SameNameTwice(w.vol, a, b);
    InvSize(w);
    RemountSlots(w);
    if b < a {
      a, b := b, a;
    }
  }

  lemma TwoFailures(t: FS) returns (w: FS, a: int, b: int)
    requires Inv(t) && InsertFails(t, MakeFile("/", "x")) && |t.vol.iused| <= INODES - 2
    ensures Allowed(MakeFile("/", "x"))
    ensures w == Next(Next(t, MakeFile("/", "x")), MakeFile("/", "x"))
    ensures a != b && a in w.vol.iused && b in w.vol.iused && 0 <= a < |w.vol.recs| && 0 <= b < |w.vol.recs|
    ensures w.vol.recs[a].kind == w.vol.recs[b].kind == FILE_KIND
    ensures w.vol.recs[a].name == w.vol.recs[b].name == "/x"
  {
    hide Inv, Next, EmptySlots;
    RootPath();
    var u := Next(t, MakeFile("/", "x"));
    a := LostInodeOnDisk(t, u);
    SpareInode(u);
    w := Next(u, MakeFile("/", "x"));
    b := LostInodeOnDisk(u, w);
  }

  lemma SameNameTwice(v: Volume, a: int, b: int)
    requires a != b && a in v.iused && b in v.iused && 0 <= a < |v.recs| && 0 <= b < |v.recs|
    requires v.recs[a].kind == v.recs[b].kind == FILE_KIND && v.recs[a].name == v.recs[b].name
    ensures !UniqueNames(v)
  {}

  // -------------------------------------------------------- lost contents

  /** What write_file_by_path does to volume and table. */
  lemma AfterWrite(s: FS, path: string, buf: seq<byte>, size: int, beyond: seq<byte>)
      returns (slot: nat, node: Inode, mem: seq<byte>)
    requires Inv(s) && 0 < size < MAX_SIZE && |beyond| == BLOCK_SIZE && FindFile(s.table, path, 0) < |s.table|
    ensures slot == FindFile(s.table, path, 0) < |s.table| && node == s.table[slot].(size := size)
    ensures mem == StrNCpy(buf, size) + beyond && LiveFile(s.vol, node) && Writable(s.vol, node, mem)
    ensures var t := Next(s, WriteTo(path, buf, size, beyond));
      && t.vol == WriteFile(s.vol, node, mem).0 && t.table == s.table[slot := WriteFile(s.vol, node, mem).1]
      && FindFile(t.table, path, 0) == slot
  {
    hide WriteFile, Disjoint, Accounted, RecordsGood, RootInPlace, SlotsSuffice;
    slot := FindFile(s.table, path, 0);
    InvReadable(s);
    LiveSlot(s, slot);
    node, mem := s.table[slot].(size := size), StrNCpy(buf, size) + beyond;
    AsLiveFile(s, slot, size);
    WriteKeepsSound(s.vol, node, mem);
    FindFileStable(s.table, path, slot, WriteFile(s.vol, node, mem).1, 0);
  }

  /** A new file, written with 22000 bytes and then with 3000, can no longer be read, whatever the bytes. */
  lemma ShrinkLosesTheFile(s: FS, pwd: string, name: string, big: Job, small: Job)
    requires Inv(s) && Allowed(MakeFile(pwd, name)) && |pwd| + |name| <= 32
    requires FindFile(s.table, Cut(Join(pwd, name)), 0) == |s.table| && EmptySlots(s.table) != {}
    requires |FreeIds(s.vol)| >= 11
    requires big.size == 22000 && small.size == 3000 && |big.beyond| == |small.beyond| == BLOCK_SIZE
    ensures var path := Cut(Join(pwd, name));
      AllAllowed(WritesTo(path, [big, small]))
      && ReadNow(Run(Next(s, MakeFile(pwd, name)), WritesTo(path, [big, small])), path) == Read(Undefined)
  {
    hide Inv, Next, FreeIds, ReadNow, EmptySlots, LowSoFar;
    var path := Cut(Join(pwd, name));
    var id, t := LifeStarts(s, pwd, name);
    FreshFile(s, t, path, id);
    ElevenBlocks(t, path, big);
    var u := Next(t, WriteTo(path, big.buf, big.size, big.beyond));
    TwoOfEleven(u, path, small);
    var steps := WritesTo(path, [big, small]);
    assert steps[1..] == [steps[1]];
    RunCons(t, steps[0], [steps[1]]);
    RunOne(u, steps[1]);
    assert steps == [steps[0]] + [steps[1]];
  }

  /** In particular on a fresh image. */
  lemma ShrinkLosesTheFileFromFormat(v: Volume, big: Job, small: Job) returns (s: FS)
    requires Formatted(v)
    requires big.size == 22000 && small.size == 3000 && |big.beyond| == |small.beyond| == BLOCK_SIZE
    ensures AllAllowed([MakeFile("/", "x")] + WritesTo("/x", [big, small]))
    ensures s == RunFromFormat(v, [MakeFile("/", "x")] + WritesTo("/x", [big, small]))
    ensures IsReading(s, "/x", Read(Undefined))
  {
    hide Inv, InitDir, Next, ReadNow, FreeIds, EmptySlots;
    RootPath();
    FreshMountHasRoom(v);
    ShrinkLosesTheFile(InitDir(v), "/", "x", big, small);
    RunCons(InitDir(v), MakeFile("/", "x"), WritesTo("/x", [big, small]));
    s := RunFromFormat(v, [MakeFile("/", "x")] + WritesTo("/x", [big, small]));
  }

  lemma FreshMountHasRoom(v: Volume)
    requires Formatted(v)
    ensures Inv(InitDir(v)) && EmptySlots(InitDir(v).table) != {} && |FreeIds(InitDir(v).vol)| >= 11
    ensures forall path :: FindFile(InitDir(v).table, path, 0) == |InitDir(v).table|
  {
    hide Inv, InitDir;
    FirstMountIsFilled(v);
    FirstMountView(v);
    FreeSplits(InitDir(v).vol);
    assert 1 in EmptySlots(InitDir(v).table);
  }

  lemma FreshFile(s: FS, t: FS, path: string, id: int)
    requires LowSoFar(s, t, path, id)
    ensures Inv(t) && FindFile(t.table, path, 0) < |t.table|
    ensures t.table[FindFile(t.table, path, 0)].num == t.vol.recs[id].num
    ensures Count(t.vol.recs[id].num, 0) == 0 ==> FreeIds(t.vol) == FreeIds(s.vol)
  {
    hide Sound, SlotsSuffice, RootInPlace;
    LiveSlot(t, FindFile(t.table, path, 0));
    PointerCount(t.vol, id);
  }

  lemma ElevenBlocks(t: FS, path: string, job: Job)
    requires Inv(t) && FindFile(t.table, path, 0) < |t.table| && |FreeIds(t.vol)| >= 11
    requires Count(t.table[FindFile(t.table, path, 0)].num, 0) == 0
    requires job.size == 22000 && |job.beyond| == BLOCK_SIZE
    ensures var u := Next(t, WriteTo(path, job.buf, job.size, job.beyond));
      FindFile(u.table, path, 0) < |u.table| && Count(u.table[FindFile(u.table, path, 0)].num, 0) == 11
  {
    hide Inv, Next, WriteFile, FreeIds, Sound;
    var slot, node, mem := AfterWrite(t, path, job.buf, job.size, job.beyond);
    WriteKeepsSound(t.vol, node, mem);
  }

  lemma TwoOfEleven(u: FS, path: string, job: Job)
    requires Inv(u) && FindFile(u.table, path, 0) < |u.table|
    requires Count(u.table[FindFile(u.table, path, 0)].num, 0) == 11
    requires job.size == 3000 && |job.beyond| == BLOCK_SIZE
    ensures ReadNow(Next(u, WriteTo(path, job.buf, job.size, job.beyond)), path) == Read(Undefined)
  {
    hide Inv, Next, WriteFile, Sound, ReadFile;
    var slot, node, mem := AfterWrite(u, path, job.buf, job.size, job.beyond);
    ShrinkElevenToTwoIsUnreadable(u.vol, node, mem);
  }

  // ------------------------------------------- the blocks from id 2048 on

  const FILES := 140

  function FileName(k: nat): (name: string)
    requires k < FILES
    ensures |name| == 1 && name[0] == (48 + k) as char
  {
    [(48 + k) as char]
  }

  function FilePath(k: nat): string
    requires k < FILES
  {
    "/" + FileName(k)
  }

  lemma FilePaths(k: nat)
    requires k < FILES
    ensures IsCString("/") && IsCString(FileName(k))
    ensures Cut(Join("/", FileName(k))) == FilePath(k) != "" && !EndsInSlash(FilePath(k))
    ensures forall j :: 0 <= j < FILES && j != k ==> FilePath(j) != FilePath(k)
  {
    forall j | 0 <= j < FILES && j != k
      ensures FilePath(j) != FilePath(k)
    {
      assert FilePath(j)[1] != FilePath(k)[1];
    }
  }

  /** 22000 bytes, eleven blocks. */
  function ElevenBlocksJob(): Job {
    Job(seq(22000, _ => 1), 22000, Zeros(BLOCK_SIZE))
  }

  /** File k is made and filled. */
  function FileSteps(k: nat): seq<Step>
    requires k < FILES
  {
    [MakeFile("/", FileName(k))] + WritesTo(FilePath(k), [ElevenBlocksJob()])
  }

  /** Files lo to 139 are made and filled, one after the other. */
  function FillSteps(lo: nat): seq<Step>
    requires lo <= FILES
    decreases FILES - lo
  {
    if lo == FILES then [] else FileSteps(lo) + FillSteps(lo + 1)
  }

  /** After k such files, from a fresh image on. */
  ghost predicate Filled(s: FS, k: nat) {
    && Inv(s) && k <= FILES
    && |LowFree(s.vol)| == ID_LIMIT - FIRST_DATA - 11 * k
    && |HighFree(s.vol)| == BLOCKS - ID_LIMIT
    && |EmptySlots(s.table)| == INODES - 1 - k
    && Leaked(s.vol) == {}
    && Absent(s.table, k)
  }

  lemma StillAbsent(table: seq<Inode>, path: string, slot: nat, node: Inode)
    requires slot < |table| && FindFile(table, path, 0) == |table| && node.name != path
    ensures FindFile(table[slot := node], path, 0) == |table|
  {
    var t := table[slot := node];
    forall j | 0 <= j < |t|
      ensures !(t[j].id != -1 && t[j].name == path && t[j].kind == FILE_KIND)
    {
      assert j != slot ==> t[j] == table[j];
    }
  }

  /** The files still to come are absent. */
  ghost predicate Absent(table: seq<Inode>, lo: nat) {
    forall j :: lo <= j < FILES ==> FindFile(table, FilePath(j), 0) == |table|
  }

  lemma StillAllAbsent(table: seq<Inode>, lo: nat, k: nat, slot: nat, node: Inode)
    requires Absent(table, lo) && k < lo <= FILES && slot < |table| && node.name == FilePath(k)
    ensures Absent(table[slot := node], lo)
  {
    FilePaths(k);
    forall j | lo <= j < FILES
      ensures FindFile(table[slot := node], FilePath(j), 0) == |table|
    {
      StillAbsent(table, FilePath(j), slot, node);
    }
  }

  lemma OneFileMade(s: FS, k: nat) returns (id: int, t: FS)
    requires Filled(s, k) && k < FILES
    ensures Inv(s) && Allowed(MakeFile("/", FileName(k))) && t == Next(s, MakeFile("/", FileName(k)))
    ensures LowSoFar(s, t, FilePath(k), id) && Count(t.vol.recs[id].num, 0) == 0
    ensures |EmptySlots(t.table)| == INODES - 2 - k && Leaked(t.vol) == {}
    ensures Absent(t.table, k + 1)
  {
    hide Sound, RootInPlace, SlotsSuffice, TableAgrees, CreateFile, EmptySlots, Leaked, FindFile;
    FilePaths(k);
    InvSize(s);
    id, t := LifeStarts(s, "/", FileName(k));
    CreationTakesEmpty(s, "/", FileName(k));
    LeakLaw(s, MakeFile("/", FileName(k)));
    assert LostBlocks(s, MakeFile("/", FileName(k))) == {} by { NoTarget(s); }
    InvReadable(s);
    var slot, made := CreateFills(s, "/", FileName(k));
    EmptyRange(s.table, slot);
    StillAllAbsent(s.table, k + 1, k, slot, made);
  }

  lemma NoTarget(s: FS)
    requires Inv(s)
    ensures OwnBlocks(s.vol, -1) == {}
  {}

  lemma EmptyRange(table: seq<Inode>, slot: int)
    requires slot in EmptySlots(table)
    ensures 0 <= slot < |table| && table[slot].name == ""
  {}

  lemma FileFilled(t: FS, k: nat)
    requires Inv(t) && k < FILES && FindFile(t.table, FilePath(k), 0) < |t.table| && Absent(t.table, k + 1)
    requires Count(t.table[FindFile(t.table, FilePath(k), 0)].num, 0) == 0
    ensures Allowed(WritesTo(FilePath(k), [ElevenBlocksJob()])[0])
    ensures var u := Next(t, WritesTo(FilePath(k), [ElevenBlocksJob()])[0]);
      Leaked(u.vol) == Leaked(t.vol) && EmptySlots(u.table) == EmptySlots(t.table) && Absent(u.table, k + 1)
  {
    hide Inv, Next, WriteFile, LiveFile, Absent, Leaked, FilePath, FindFile, EmptySlots, StrNCpy;
    var job := ElevenBlocksJob();
    FilePaths(k);
    WriteLeaksIff(t, FilePath(k), job.buf, job.size, job.beyond);
    var slot, node, mem := AfterWrite(t, FilePath(k), job.buf, job.size, job.beyond);
    AfterWriteIsLive(t.vol, node, mem);
    StillAllAbsent(t.table, k + 1, k, slot, WriteFile(t.vol, node, mem).1);
    SameEmptySlots(t.table, slot, WriteFile(t.vol, node, mem).1);
  }

  lemma SameEmptySlots(table: seq<Inode>, slot: nat, node: Inode)
    requires slot < |table| && node.name == table[slot].name
    ensures EmptySlots(table[slot := node]) == EmptySlots(table)
  {}

  /** One more file while the low ids last. */
  lemma FillOne(s: FS, k: nat)
    requires Filled(s, k) && k < FILES - 1
    ensures Inv(s) && AllAllowed(FileSteps(k)) && Filled(Run(s, FileSteps(k)), k + 1)
  {
    hide Inv, Next, LowSoFar, FindFile, Absent, LowFree, HighFree, FreeIds, EmptySlots;
    var job, path := ElevenBlocksJob(), FilePath(k);
    var id, t := OneFileMade(s, k);
    FreshFile(s, t, path, id);
    FileFilled(t, k);
    FilePaths(k);
    WriteStaysLow(s, t, path, id, job);
    var steps := WritesTo(path, [job]);
    assert steps == [steps[0]];
    var u := Next(t, steps[0]);
    LowCounts(s, u, path, id);
    RunOne(t, steps[0]);
    RunCons(s, MakeFile("/", FileName(k)), steps);
  }

  /** File `path` has five blocks below id 2048 and six from there on, and nothing is leaked so far. */
  ghost predicate Straddles(u: FS, path: string) {
    && Inv(u) && Leaked(u.vol) == {}
    && FindFile(u.table, path, 0) < |u.table|
    && (var num := u.table[FindFile(u.table, path, 0)].num;
        Count(num, 0) == 11 && forall i :: 0 <= i < 11 ==> (num[i] < ID_LIMIT <==> i < 5))
  }

  /** The last file gets the last five low ids and six high ones. */
  lemma FillLast(s: FS)
    requires Filled(s, FILES - 1)
    ensures Inv(s) && AllAllowed(FileSteps(FILES - 1))
    ensures Straddles(Run(s, FileSteps(FILES - 1)), FilePath(FILES - 1))
  {
    hide Inv, Next, LowSoFar, Absent, EmptySlots, LowFree, HighFree, FreeIds, WriteFile, Sound, Leaked;
    var k := FILES - 1;
    var job, path := ElevenBlocksJob(), FilePath(k);
    var id, t := OneFileMade(s, k);
    FreshFile(s, t, path, id);
    FileFilled(t, k);
    FilePaths(k);
    LowCounts(s, t, path, id);
    var slot, node, mem := AfterWrite(t, path, job.buf, job.size, job.beyond);
    WriteKeepsSound(t.vol, node, mem);
    GrownLow(t.vol, node, mem);
    var steps := WritesTo(path, [job]);
    assert steps == [steps[0]];
    RunOne(t, steps[0]);
    RunCons(s, MakeFile("/", FileName(k)), steps);
  }

  lemma {:induction false} FillFrom(s: FS, k: nat)
    requires Filled(s, k) && k < FILES
    ensures Inv(s) && AllAllowed(FillSteps(k)) && Straddles(Run(s, FillSteps(k)), FilePath(FILES - 1))
    decreases FILES - k
  {
    hide Inv, Next, Straddles, FilePath;
    if k == FILES - 1 {
      FillLast(s);
      assert FillSteps(FILES) == [];
      assert FillSteps(k) == FileSteps(k);
    } else {
      FillOne(s, k);
      FillFrom(Run(s, FileSteps(k)), k + 1);
      RunThen(s, FileSteps(k), FillSteps(k + 1));
    }
  }


  lemma FirstMountIsFilled(v: Volume)
    requires Formatted(v)
    ensures Filled(InitDir(v), 0)
  {
    hide InitDir, Inv;
    FirstMountEstablishesInv(v);
    FirstMountView(v);
    var s := InitDir(v);
    RangeCard(LowFree(s.vol), FIRST_DATA, ID_LIMIT);
    RangeCard(HighFree(s.vol), ID_LIMIT, BLOCKS);
    RangeCard(EmptySlots(s.table), 1, INODES);
    assert Leaked(s.vol) == {};
  }

  lemma {:induction false} RangeCard(x: set<int>, lo: int, hi: int)
    requires lo <= hi && forall e :: e in x <==> lo <= e < hi
    ensures |x| == hi - lo
    decreases hi - lo
  {
    if lo < hi {
      RangeCard(x - {lo}, lo + 1, hi);
      assert x == x - {lo} + {lo};
    } else {
      assert x == {};
    }
  }

  /** A leak on a fresh image: 140 files of 22000 bytes, then removing the
      last one. Before the removal nothing is leaked, after it six blocks are, for good. */
  lemma RemovalCanLeak(v: Volume) returns (s: FS, t: FS)
    requires Formatted(v)
    ensures AllAllowed(FillSteps(0)) && s == RunFromFormat(v, FillSteps(0))
    ensures IsStep(s, RemoveFile(FilePath(FILES - 1)), t) && Inv(t)
    ensures Leaked(s.vol) == {} && |Leaked(t.vol)| == 6
    ensures forall steps :: AllAllowed(steps) ==> Leaked(t.vol) <= Leaked(Run(t, steps).vol)
  {
    hide Inv, Next, Leaked, FillSteps, FilePath;
    FirstMountIsFilled(v);
    FillFrom(InitDir(v), 0);
    FilePaths(FILES - 1);
    var path := FilePath(FILES - 1);
    s := RunFromFormat(v, FillSteps(0));
    t := Next(s, RemoveFile(path));
    SixLeak(s, path);
    forall steps | AllAllowed(steps)
      ensures Leaked(t.vol) <= Leaked(Run(t, steps).vol)
    {
      LeaksStayOverRuns(t, steps);
    }
  }

  lemma SixLeak(s: FS, path: string)
    requires Straddles(s, path) && path != "" && !EndsInSlash(path)
    ensures |Leaked(Next(s, RemoveFile(path)).vol)| == 6
  {
    hide Next, Leaked, Sound, RootInPlace, SlotsSuffice, Pointers, Representable, Chain, Distinct, Elems;
    RemovalLeaksIff(s, path);
    var slot := FindFile(s.table, path, 0);
    LiveSlot(s, slot);
    var num := s.table[slot].num;
    OwnChain(s.vol, s.table[slot].id);
    DistinctSlice(s.vol, num);
    DistinctCard(num[5..11]);
    HighElems(num);
  }

  lemma DistinctSlice(v: Volume, num: seq<int>)
    requires |num| == NUM_ENTRIES && Chain(v, num, NUM_ENTRIES) && Count(num, 0) == 11
    ensures Distinct(num[5..11])
  {
    assert forall i :: 0 <= i < 6 ==> num[5..11][i] == num[5 + i];
  }

  lemma HighElems(num: seq<int>)
    requires DirectShape(num) && Count(num, 0) == 11 && forall i :: 0 <= i < 11 ==> (num[i] < ID_LIMIT <==> i < 5)
    ensures (set x | x in Pointers(num) && x >= ID_LIMIT) == Elems(num[5..11])
  {
    PrefixPointers(num);
    forall k | 5 <= k < 11
      ensures num[k] in Elems(num[5..11])
    {
      assert num[5..11][k - 5] == num[k];
    }
  }

  /** In the same state some 22000 bytes cannot be stored over that file: modify_block refuses its six
      high blocks, so the old bytes stay and are read. */
  lemma RewriteCanBeRefused(v: Volume) returns (s: FS, buf: seq<byte>)
    requires Formatted(v)
    ensures AllAllowed(FillSteps(0)) && s == RunFromFormat(v, FillSteps(0)) && Inv(s)
    ensures |buf| == 22000 && 0 !in buf && !ComesBack(s, FilePath(FILES - 1), buf, Zeros(BLOCK_SIZE))
  {
    hide Inv, Next, FillSteps, FilePath, ComesBack;
    FirstMountIsFilled(v);
    FillFrom(InitDir(v), 0);
    s := RunFromFormat(v, FillSteps(0));
    StraddlesRefuses(s, FilePath(FILES - 1));
    buf := RefusedContent(s, FilePath(FILES - 1), 22000, Zeros(BLOCK_SIZE));
  }

  lemma StraddlesRefuses(s: FS, path: string)
    requires Straddles(s, path)
    ensures !Reaches(s.table[FindFile(s.table, path, 0)].num, 22000, |FreeIds(s.vol)|)
  {
    hide Inv, FreeIds;
    var num := s.table[FindFile(s.table, path, 0)].num;
    assert num[10] >= ID_LIMIT;
    assert FinalCount(11, 11, |FreeIds(s.vol)|) == 11;
  }

  // ------------------------------------------------- a directory kept for nothing

  /** Names and kinds of the live slots. */
  ghost function Nodes(table: seq<Inode>): set<(string, int)> {
    set i | 0 <= i < |table| && table[i].id != -1 :: (table[i].name, table[i].kind)
  }

  lemma NodesAfterAdd(table: seq<Inode>, slot: nat, made: Inode)
    requires slot < |table| && table[slot].id == -1 && made.id != -1
    ensures Nodes(table[slot := made]) == Nodes(table) + {(made.name, made.kind)}
  {
    var t := table[slot := made];
    forall i | 0 <= i < |table| && table[i].id != -1
      ensures (table[i].name, table[i].kind) in Nodes(t)
    {
      assert t[i] == table[i];
    }
    assert t[slot] == made;
  }

  lemma DirAdded(s: FS, pwd: string, name: string)
    requires Inv(s) && Allowed(MakeDir(pwd, name, 0)) && !SearchDir(s.table, pwd, name) && EmptySlots(s.table) != {}
    ensures var t := Next(s, MakeDir(pwd, name, 0));
      && Nodes(t.table) == Nodes(s.table) + {(Cut(Join(pwd, name)), DIR_KIND)}
      && |EmptySlots(t.table)| == |EmptySlots(s.table)| - 1
  {
    hide Sound, PlaceDir, SearchDir, Nodes;
    CutIsGood(pwd, name);
    var slot, made := PlaceDirFinds(s, Cut(Join(pwd, name)), 0, 0);
    assert slot < INODES by {
      var i :| i in EmptySlots(s.table);
      assert s.table[i].name == "";
    }
    VacantNames(s, slot);
    NodesAfterAdd(s.table, slot, made);
    assert EmptySlots(s.table[slot := made]) == EmptySlots(s.table) - {slot};
  }

  lemma FileAdded(s: FS, pwd: string, name: string)
    requires Inv(s) && Allowed(MakeFile(pwd, name)) && EmptySlots(s.table) != {}
    requires |pwd| + |name| <= 32 && FindFile(s.table, Cut(Join(pwd, name)), 0) == |s.table|
    ensures Nodes(Next(s, MakeFile(pwd, name)).table) == Nodes(s.table) + {(Cut(Join(pwd, name)), FILE_KIND)}
  {
    hide Sound, CreateFile, Nodes;
    InvReadable(s);
    var slot, made := CreateFills(s, pwd, name);
    VacantNames(s, slot);
    NodesAfterAdd(s.table, slot, made);
  }

  /** What the nodes say about a slot. */
  lemma SlotIsNode(s: FS, i: int)
    requires Inv(s) && 0 <= i < |s.table|
    ensures s.table[i].name in {"", " "} || (s.table[i].name, s.table[i].kind) in Nodes(s.table)
  {
    InvSize(s);
    VacantNames(s, i);
  }

  function NeighbourSteps(): seq<Step> {
    [MakeDir("/", "ab", 0), MakeDir("/", "abcd", 0), MakeFile("/abcd", "e")]
  }

  lemma ShownNames()
    ensures Shown("/", "/") == "" && Shown("", "/") == "" && Shown(" ", "/") == ""
    ensures Shown("/ab", "/") == "ab"
    ensures Shown("/abcd/e", "/ab") == "d"
  {
    assert "/"[1..] == "" && "/ab"[1..] == "ab" && "ab"[1..] == "b" && "b"[1..] == "";
    assert UpToSlash("b") == "b";
    assert "/abcd/e"[4..] == "d/e" && "d/e"[1..] == "/e";
    assert "/abcd/e"[..3] == "/ab";
  }

  lemma Arguments()
    ensures AllAllowed(NeighbourSteps())
    ensures Allowed(MakeDir("/", "ab", 0)) && Allowed(MakeDir("/", "abcd", 0)) && Allowed(MakeFile("/abcd", "e"))
  {}

  lemma CutPaths()
    ensures Cut(Join("/", "ab")) == "/ab" && Cut(Join("/", "abcd")) == "/abcd"
    ensures Cut(Join("/abcd", "e")) == "/abcd/e"
  {}

  lemma RootShowsNothing(s: FS, name: string)
    requires Inv(s) && Nodes(s.table) == {("/", DIR_KIND)} && PlainName(name) && '\n' !in name
    ensures !SearchDir(s.table, "/", name)
  {
    hide Inv, Nodes, Shown, SearchDir;
    ShownNames();
    SearchDirIff(s.table, "/", name);
    forall i | 0 <= i < |s.table|
      ensures Shown(s.table[i].name, "/") == ""
    {
      SlotIsNode(s, i);
    }
  }

  lemma RootShowsAb(s: FS)
    requires Inv(s) && Nodes(s.table) == {("/", DIR_KIND), ("/ab", DIR_KIND)}
    ensures !SearchDir(s.table, "/", "abcd")
  {
    hide Inv, Nodes, Shown, SearchDir;
    ShownNames();
    SearchDirIff(s.table, "/", "abcd");
    forall i | 0 <= i < |s.table|
      ensures Shown(s.table[i].name, "/") == "" || Shown(s.table[i].name, "/") == "ab"
    {
      SlotIsNode(s, i);
    }
  }

  /** The two directories, and a file in the second. */
  lemma NeighbourNodes(v: Volume) returns (s: FS)
    requires Formatted(v)
    ensures AllAllowed(NeighbourSteps()) && s == RunFromFormat(v, NeighbourSteps()) && Inv(s)
    ensures Nodes(s.table) == {("/", DIR_KIND), ("/ab", DIR_KIND), ("/abcd", DIR_KIND), ("/abcd/e", FILE_KIND)}
  {
    hide Inv, Next, InitDir, Nodes, EmptySlots, SearchDir, Allowed;
    Arguments();
    CutPaths();
    FirstMountIsFilled(v);
    var s0 := InitDir(v);
    FreshNodes(v);
    var steps := NeighbourSteps();
    RootShowsNothing(s0, "ab");
    DirAdded(s0, "/", "ab");
    var s1 := Next(s0, steps[0]);
    RootShowsAb(s1);
    DirAdded(s1, "/", "abcd");
    var s2 := Next(s1, steps[1]);
    NoFileNode(s2, "/abcd/e");
    FileAdded(s2, "/abcd", "e");
    s := Next(s2, steps[2]);
    RunOne(s2, steps[2]);
    RunCons(s1, steps[1], [steps[2]]);
    RunCons(s0, steps[0], [steps[1]] + [steps[2]]);
    assert steps == [steps[0]] + ([steps[1]] + [steps[2]]);
  }

  lemma FreshNodes(v: Volume)
    requires Formatted(v)
    ensures Nodes(InitDir(v).table) == {("/", DIR_KIND)}
  {
    hide InitDir;
    FirstMountView(v);
    var t := InitDir(v).table;
    assert ("/", DIR_KIND) in Nodes(t) by {
      assert t[0].id != -1;
    }
  }

  lemma NoFileNode(s: FS, path: string)
    requires (path, FILE_KIND) !in Nodes(s.table)
    ensures FindFile(s.table, path, 0) == |s.table|
  {}

  /** list_dir compares raw prefixes, so a directory with nothing below it is kept by a neighbour whose
      name goes on where its own ends: on a fresh image mkdir /ab, mkdir /abcd, touch /abcd/e, and
      rmdir /ab is refused. */
  lemma NeighbourKeepsDirectory(v: Volume) returns (s: FS)
    requires Formatted(v)
    ensures AllAllowed(NeighbourSteps()) && s == RunFromFormat(v, NeighbourSteps())
    ensures exists i :: 0 <= i < |s.table| && s.table[i].name == "/ab" && s.table[i].kind == DIR_KIND
    ensures forall i :: 0 <= i < |s.table| ==> !Below(s.table[i].name, "/ab")
    ensures DeleteDir(s, "/", "ab") == (s, -1)
  {
    hide Inv, Below, DeleteDir, Nodes, RunFromFormat, NeighbourSteps;
    s := NeighbourNodes(v);
    NothingBelow(s);
    var i := NodeSlot(s.table, "/ab", DIR_KIND);
    var j := NodeSlot(s.table, "/abcd/e", FILE_KIND);
    KeptByNeighbour(s, j);
  }

  lemma NothingBelow(s: FS)
    requires Inv(s)
    requires Nodes(s.table) == {("/", DIR_KIND), ("/ab", DIR_KIND), ("/abcd", DIR_KIND), ("/abcd/e", FILE_KIND)}
    ensures forall i :: 0 <= i < |s.table| ==> !Below(s.table[i].name, "/ab")
  {
    hide Inv, Below, Nodes;
    NamesAbove();
    forall i | 0 <= i < |s.table|
      ensures !Below(s.table[i].name, "/ab")
    {
      SlotIsNode(s, i);
    }
  }

  lemma NodeSlot(table: seq<Inode>, name: string, kind: int) returns (i: int)
    requires (name, kind) in Nodes(table)
    ensures 0 <= i < |table| && table[i].name == name && table[i].kind == kind
  {
    i :| 0 <= i < |table| && table[i].id != -1 && (table[i].name, table[i].kind) == (name, kind);
  }

  lemma NamesAbove()
    ensures !Below("", "/ab") && !Below(" ", "/ab") && !Below("/", "/ab") && !Below("/ab", "/ab")
    ensures !Below("/abcd", "/ab") && !Below("/abcd/e", "/ab")
  {}

  /** In any table: a file /abcd/e keeps the directory /ab from being removed. */
  lemma KeptByNeighbour(s: FS, i: int)
    requires 0 <= i < |s.table| && s.table[i].name == "/abcd/e"
    ensures DeleteDir(s, "/", "ab") == (s, -1)
  {
    hide Shown;
    ShownNames();
    assert Join("/", "ab") == "/ab";
    TextEmptyIff(s.table, "/ab");
  }

  // ------------------------------------------------------------ second nodes

  /** The first mkdir on a fresh image. */
  lemma FirstDir(v: Volume, name: string) returns (s: FS)
    requires Formatted(v) && Allowed(MakeDir("/", name, 0)) && PlainName(name) && '\n' !in name
    ensures Inv(InitDir(v)) && s == Next(InitDir(v), MakeDir("/", name, 0)) && Inv(s)
    ensures NoneLost(s) && UniqueNodes(s.vol) && EmptySlots(s.table) != {}
    ensures NodeIn(s.table, Cut(Join("/", name)), DIR_KIND)
  {
    hide Inv, InitDir, Next, NoneLost, UniqueNodes, EmptySlots, Taken, NodeIn, Nodes, SearchDir, InsertFails;
    FirstMountIsFilled(v);
    FirstMountIsClean(v);
    FreshNodes(v);
    var s0, path := InitDir(v), Cut(Join("/", name));
    s := Next(s0, MakeDir("/", name, 0));
    RootShowsNothing(s0, name);
    DirAdded(s0, "/", name);
    FreshNames(v, path);
    StepUniqueIff(s0, MakeDir("/", name, 0));
    LostOnlyByFailedInsert(s0, MakeDir("/", name, 0));
    NoFailure(s0, MakeDir("/", name, 0));
    NodeOfSet(s.table, path, DIR_KIND);
  }

  lemma NoFailure(s: FS, step: Step)
    requires Inv(s) && !step.MakeFile?
    ensures !InsertFails(s, step)
  {}

  lemma NodeOfSet(table: seq<Inode>, path: string, kind: int)
    ensures (path, kind) in Nodes(table) <==> NodeIn(table, path, kind)
  {
    if i :| 0 <= i < |table| && IsNode(table[i], path, kind) {
      assert (table[i].name, table[i].kind) in Nodes(table);
    }
    if (path, kind) in Nodes(table) {
      var i :| 0 <= i < |table| && table[i].id != -1 && (table[i].name, table[i].kind) == (path, kind);
      assert IsNode(table[i], path, kind);
    }
  }

  /** On a fresh image only the name of the root is taken. */
  lemma FreshNames(v: Volume, path: string)
    requires Formatted(v)
    ensures UniqueNodes(InitDir(v).vol) && (Taken(InitDir(v).vol, path) <==> path == "/")
  {
    hide InitDir;
    FirstMountView(v);
    var w := InitDir(v).vol;
    assert 0 in w.iused && w.recs[0].name == "/";
  }

  /** touch of a directory: create_file reports success, and a file has the directory's name. */
  lemma TouchDoublesDirectory(v: Volume) returns (s: FS)
    requires Formatted(v)
    ensures AllAllowed([MakeDir("/", "a", 0), MakeFile("/", "a")])
    ensures s == RunFromFormat(v, [MakeDir("/", "a", 0), MakeFile("/", "a")]) && Inv(s) && !UniqueNodes(s.vol)
    ensures NodeIn(s.table, "/a", DIR_KIND) && NodeIn(s.table, "/a", FILE_KIND)
  {
    hide Inv, InitDir, Next, NoneLost, UniqueNodes, EmptySlots, NodeIn, Nodes, CreateFile;
    var make, touch := MakeDir("/", "a", 0), MakeFile("/", "a");
    assert Allowed(make) && Allowed(touch) && Cut(Join("/", "a")) == "/a";
    var s1 := FirstDir(v, "a");
    s := Next(s1, touch);
    RunOne(s1, touch);
    RunCons(InitDir(v), make, [touch]);
    assert [make, touch] == [make] + [touch];
    TouchAdds(s1, s);
  }

  lemma TouchAdds(s: FS, t: FS)
    requires IsStep(s, MakeFile("/", "a"), t) && NoneLost(s) && UniqueNodes(s.vol) && EmptySlots(s.table) != {}
    requires NodeIn(s.table, "/a", DIR_KIND)
    ensures !UniqueNodes(t.vol) && NodeIn(t.table, "/a", DIR_KIND) && NodeIn(t.table, "/a", FILE_KIND)
  {
    hide Inv, Next, NoneLost, UniqueNodes, EmptySlots, NodeIn, Nodes;
    var touch := MakeFile("/", "a");
    assert Allowed(touch) && Cut(Join("/", "a")) == "/a";
    if NodeIn(s.table, "/a", FILE_KIND) {
      NotBothKinds(s, "/a");
    }
    FileSlotIs(s, "/a");
    SlotAndInode(s);
    StepUniqueIff(s, touch);
    FileAdded(s, "/", "a");
    NodeOfSet(s.table, "/a", DIR_KIND);
    NodeOfSet(t.table, "/a", DIR_KIND);
    NodeOfSet(t.table, "/a", FILE_KIND);
  }

  lemma SlotAndInode(s: FS)
    requires Inv(s) && EmptySlots(s.table) != {}
    ensures FirstFreeInode(s.vol.iused, 0) != -1
  {
    var slot :| slot in EmptySlots(s.table);
    EmptySlotMeansFreeInode(s, slot);
  }

  /** A name of 31 letters. */
  function LongName(): string {
    seq(31, _ => 'a')
  }

  /** mkdir of a name the field cannot hold, twice: the second one is not refused, since strstr looks for
      the whole name, and there are two directories of one name. */
  lemma CutNameTwice(v: Volume) returns (s: FS)
    requires Formatted(v)
    ensures AllAllowed([MakeDir("/", LongName(), 0), MakeDir("/", LongName(), 0)])
    ensures s == RunFromFormat(v, [MakeDir("/", LongName(), 0), MakeDir("/", LongName(), 0)])
    ensures Inv(s) && !UniqueNodes(s.vol)
  {
    hide Inv, InitDir, Next, NoneLost, UniqueNodes, EmptySlots, NodeIn, Taken, LongName;
    var make := MakeDir("/", LongName(), 0);
    LongNameIs();
    var s1 := FirstDir(v, LongName());
    s := Next(s1, make);
    RunOne(s1, make);
    RunCons(InitDir(v), make, [make]);
    assert [make, make] == [make] + [make];
    TakenInTable(s1, Cut(Join("/", LongName())));
    StepUniqueIff(s1, make);
  }

  lemma LongNameIs()
    ensures Allowed(MakeDir("/", LongName(), 0)) && PlainName(LongName()) && '\n' !in LongName()
    ensures |Join("/", LongName())| >= NAME_FIELD
  {}
}
