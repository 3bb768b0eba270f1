/** What each operation answers and what it changes, told from the slots of the table, the bits and the
    records; and that removed names stay gone. */
module Outcomes {
  import opened Bytes
  import opened Inodes
  import opened Volumes
  import opened Ownership
  import opened Writing
  import opened Directories
  import opened Invariant
  import opened Runs
  import opened Trees
  import opened Listings

  // --------------------------------------------------------------- slots

  /** The first nameless slot. */
  ghost predicate FirstEmpty(table: seq<Inode>, slot: int) {
    0 <= slot < |table| && table[slot].name == "" && forall j :: 0 <= j < slot ==> table[j].name != ""
  }

  ghost predicate LeastFree(iused: set<int>, id: int) {
    0 <= id < INODES && id !in iused && forall x :: 0 <= x < id ==> x in iused
  }

  /** The volume with one more inode. */
  function WithInode(v: Volume, n: Inode): Volume
    requires 0 <= n.id < |v.recs|
  {
    v.(iused := v.iused + {n.id}, recs := v.recs[n.id := n])
  }

  lemma FileSlotIs(s: FS, path: string)
    requires Inv(s)
    ensures var slot := FindFile(s.table, path, 0);
      && (slot < |s.table| <==> NodeIn(s.table, path, FILE_KIND))
      && (slot < |s.table| ==> FirstNode(s.table, path, FILE_KIND, slot))
  {
    hide Inv;
    var slot := FindFile(s.table, path, 0);
    if slot < |s.table| {
      assert IsNode(s.table[slot], path, FILE_KIND);
    }
  }

  lemma DirSlotIs(s: FS, path: string)
    requires Inv(s)
    ensures var slot := FindDir(s.table, path, 0);
      && (slot < |s.table| <==> NodeIn(s.table, path, DIR_KIND))
      && (slot < |s.table| ==> FirstNode(s.table, path, DIR_KIND, slot))
  {
    hide Sound, RootInPlace, SlotsSuffice;
    var slot := FindDir(s.table, path, 0);
    if slot < |s.table| {
      assert !Vacant(s.table[slot]);
      assert IsNode(s.table[slot], path, DIR_KIND);
    }
  }

  // ------------------------------------------------------------- init_dir

  /** Some inode answers a query and is called "/". */
  ghost predicate HasRoot(v: Volume)
    requires |v.recs| == INODES
  {
    exists i :: 0 <= i < INODES && i in v.iused && v.recs[i].id == i && v.recs[i].name == "/"
  }

  /** init_dir on any image, also one no run leads to: slot i is what inode i answers; where no inode is
      the root, slot 0 becomes it, and the least free id gets its record if there is one. */
  lemma InitDirOutcome(v: Volume)
    requires |v.recs| == INODES
    ensures var t := InitDir(v);
      && |t.table| == INODES
      && (forall i :: 1 <= i < INODES ==> t.table[i] == QueryInode(v, i))
      && (HasRoot(v) ==> t.vol == v && t.table[0] == QueryInode(v, 0))
      && (!HasRoot(v) ==> RootMade(v, t))
  {
    hide RootMade, CreateInode;
    forall i | 0 <= i < INODES
      ensures QueryInode(v, i).name == "/" <==> i in v.iused && v.recs[i].id == i && v.recs[i].name == "/"
    {}
    RootIsMade(v, QueryInode(v, 0));
  }

  lemma RootIsMade(v: Volume, node: Inode)
    requires |v.recs| == INODES
    ensures var (w, made, ok) := CreateInode(v, node.(name := "/", nameLen := 1, kind := DIR_KIND, size := 0));
      forall t: FS ::
        t.vol == w && |t.table| == INODES && t.table[0] == made.(id := if ok then 0 else -1) ==> RootMade(v, t)
  {
    FirstFreeInodeIsLeast(v.iused, 0);
    var (w, made, ok) := CreateInode(v, node.(name := "/", nameLen := 1, kind := DIR_KIND, size := 0));
    if ok {
      assert LeastFree(v.iused, made.id) && made == RootRecord(made.id);
      assert w == WithInode(v, RootRecord(made.id));
    }
  }

  function RootRecord(id: int): Inode {
    Inode(id, 0, DIR_KIND, 1, 0, "/", 0, NoPointers())
  }

  ghost predicate RootMade(v: Volume, t: FS)
    requires |v.recs| == INODES == |t.table|
  {
    if forall x :: 0 <= x < INODES ==> x in v.iused then t.vol == v && t.table[0] == RootRecord(-1)
    else
      t.table[0] == RootRecord(0)
      && exists id :: LeastFree(v.iused, id) && t.vol == WithInode(v, RootRecord(id))
  }

  // ---------------------------------------------------------- create_file

  /** create_file, case by case: too long a name, a file of the cut path, no inode left; else the least
      free id gets a new empty file record, and the first nameless slot, if there is one, holds it. */
  lemma CreateFileOutcome(s: FS, pwd: string, name: string)
    requires Inv(s) && IsCString(pwd) && IsCString(name)
    ensures |s.vol.recs| == INODES
    ensures var (t, status) := CreateFile(s, pwd, name);
      var path := Cut(Join(pwd, name));
      if |pwd| + |name| > 32 then status == -1 && t == s
      else if NodeIn(s.table, path, FILE_KIND) then status == -2 && t == s
      else status == 0 && FileMade(s, t, path, |pwd| + |name|)
  {
    hide Inv, EmptySlots, NodeIn, FirstNode, FirstEmpty;
    InvSize(s);
    FileSlotIs(s, Cut(Join(pwd, name)));
    FirstFreeInodeIsLeast(s.vol.iused, 0);
    EmptySlotIs(s);
  }

  ghost predicate FileMade(s: FS, t: FS, path: string, nameLen: int)
    requires |s.vol.recs| == INODES
  {
    if forall x :: 0 <= x < INODES ==> x in s.vol.iused then t == s
    else
      exists id :: LeastFree(s.vol.iused, id)
        && var made := Inode(id, 0, FILE_KIND, nameLen, 0, path, 0, NoPointers());
           && t.vol == WithInode(s.vol, made)
           && if EmptySlots(s.table) == {} then t.table == s.table
              else exists slot :: FirstEmpty(s.table, slot) && t.table == s.table[slot := made]
  }

  lemma EmptySlotIs(s: FS)
    requires Inv(s)
    ensures var slot := FindEmpty(s.table, 0);
      && (slot < |s.table| <==> EmptySlots(s.table) != {})
      && (slot < |s.table| ==> FirstEmpty(s.table, slot))
  {
    hide Sound, RootInPlace, SlotsSuffice;
    InsertFailsIffNoSlot(s);
    forall j | 0 <= j < |s.table|
      ensures s.table[j].name == "" ==> s.table[j].id == -1
    {
      VacantNames(s, j);
    }
  }

  // ----------------------------------------------------------- create_dir

  /** create_dir, case by case: a shown component contains the name, or no slot is left: -1 and nothing
      changes; else the least free id gets a directory record in the first nameless slot. */
  lemma CreateDirOutcome(s: FS, pwd: string, name: string, size: int)
    requires Inv(s) && IsCString(pwd) && IsCString(name) && Int32(size) && '/' !in name && '\n' !in name
    ensures |s.vol.recs| == INODES
    ensures var (t, status) := CreateDir(s, pwd, name, size);
      if (NodeIn(s.table, pwd, DIR_KIND) && ShownWord(s.table, pwd, name)) || EmptySlots(s.table) == {}
      then status == -1 && t == s
      else status == 0 && DirMade(s, t, Cut(Join(pwd, name)), size)
  {
    hide Inv, SearchDir, ShownWord, DirMade;
    InvSize(s);
    SearchDirIs(s, pwd, name);
    CreateDirAdds(s, pwd, name, size);
  }

  lemma CreateDirAdds(s: FS, pwd: string, name: string, size: int)
    requires Inv(s) && IsCString(pwd) && IsCString(name) && Int32(size)
    ensures |s.vol.recs| == INODES
    ensures var (t, status) := CreateDir(s, pwd, name, size);
      if SearchDir(s.table, pwd, name) || EmptySlots(s.table) == {} then status == -1 && t == s
      else status == 0 && DirMade(s, t, Cut(Join(pwd, name)), size)
  {
    hide Sound, SearchDir, PlaceDir;
    InvSize(s);
    CutIsGood(pwd, name);
    var slot, made := PlaceDirFinds(s, Cut(Join(pwd, name)), size, 0);
    if slot < INODES {
      assert slot in EmptySlots(s.table) && FirstEmpty(s.table, slot);
      assert LeastFree(s.vol.iused, made.id);
    } else {
      assert EmptySlots(s.table) == {};
    }
  }

  ghost predicate DirMade(s: FS, t: FS, path: string, size: int)
    requires |s.vol.recs| == INODES
  {
    exists id, slot :: LeastFree(s.vol.iused, id) && FirstEmpty(s.table, slot)
      && var made := Inode(id, size, DIR_KIND, |path|, 0, path, 0, NoPointers());
         t.vol == WithInode(s.vol, made) && t.table == s.table[slot := made]
  }

  lemma SearchDirIs(s: FS, pwd: string, name: string)
    requires Inv(s) && '/' !in name && '\n' !in name
    ensures SearchDir(s.table, pwd, name) <==> NodeIn(s.table, pwd, DIR_KIND) && ShownWord(s.table, pwd, name)
  {
    hide Sound, RootInPlace, SlotsSuffice, ShownWord, SearchDir;
    SearchDirIff(s.table, pwd, name);
    DirSlotIs(s, pwd);
    if i :| 0 <= i < |s.table| && s.table[i].name == pwd && s.table[i].kind == DIR_KIND {
      assert !Vacant(s.table[i]);
      assert IsNode(s.table[i], pwd, DIR_KIND);
    }
  }

  // ----------------------------------------------------------- delete_dir

  /** delete_dir, case by case. Where it goes through, the inode bit of the first such directory is
      cleared and its slot is empty again; no other bit, record, block or slot changes. */
  lemma DeleteDirOutcome(s: FS, pwd: string, name: string)
    requires Inv(s) && Join(pwd, name) != "/"
    ensures var (t, status) := DeleteDir(s, pwd, name);
      var path := Join(pwd, name);
      if !NodeIn(s.table, path, DIR_KIND) || (exists i :: 0 <= i < INODES && Shown(s.table[i].name, path) != "")
      then status == -1 && t == s
      else status == 0 && DirRemoved(s, t, path)
  {
    hide Sound, RootInPlace, SlotsSuffice, Shown, ListDir;
    var path := Join(pwd, name);
    DirSlotIs(s, path);
    TextEmptyIff(s.table, path);
    if DeleteDir(s, pwd, name).1 == 0 {
      var slot := FindDir(s.table, path, 0);
      LiveSlot(s, slot);
      SlotEmptied(s.table, slot, DeleteDir(s, pwd, name).0.table);
    }
  }

  ghost predicate DirRemoved(s: FS, t: FS, path: string) {
    exists slot ::
      && FirstNode(s.table, path, DIR_KIND, slot) && s.table[slot].id in s.vol.iused
      && t.vol == s.vol.(iused := s.vol.iused - {s.table[slot].id})
      && |t.table| == |s.table|
      && (var was := s.table[slot];
          t.table[slot] == Inode(-1, was.size, FREE_KIND, 0, was.fileId, "", was.groupId, was.num))
      && (forall j :: 0 <= j < |s.table| && j != slot ==> t.table[j] == s.table[j])
      && EmptySlots(t.table) == EmptySlots(s.table) + {slot} && slot !in EmptySlots(s.table)
  }

  lemma SlotEmptied(table: seq<Inode>, slot: nat, after: seq<Inode>)
    requires slot < |table| == |after| && table[slot].name != "" && after[slot].name == ""
    requires forall j :: 0 <= j < |table| && j != slot ==> after[j] == table[j]
    ensures EmptySlots(after) == EmptySlots(table) + {slot} && slot !in EmptySlots(table)
  {}

  // ---------------------------------------------------------- delete_file

  /** delete_file_by_path, case by case. Where it goes through, the first file of that name loses its
      inode bit and its blocks below 2048, and a slot with its id becomes a tombstone. */
  lemma DeleteFileOutcome(s: FS, path: string)
    requires Inv(s) && path != ""
    ensures var t := Next(s, RemoveFile(path));
      if path[|path| - 1] == '/' then RemovalStatus(s.table, path) == -1 && t == s
      else if !NodeIn(s.table, path, FILE_KIND) then RemovalStatus(s.table, path) == -2 && t == s
      else RemovalStatus(s.table, path) == 0 && FileRemoved(s, t, path)
  {
    hide Disjoint, Accounted, RecordsGood, RootInPlace, SlotsSuffice, DeleteFile;
    InvReadable(s);
    FileSlotIs(s, path);
    var slot := FindFile(s.table, path, 0);
    if slot < |s.table| {
      LiveSlot(s, slot);
      DeleteKeepsSound(s.vol, s.table[slot].id);
      assert FindId(s.table, s.table[slot].id, 0) == slot;
    }
  }

  ghost predicate FileRemoved(s: FS, t: FS, path: string) {
    exists slot ::
      && FirstNode(s.table, path, FILE_KIND, slot) && s.table[slot].id in s.vol.iused
      && t.vol == s.vol.(iused := s.vol.iused - {s.table[slot].id},
                         used := s.vol.used - (set x | x in Pointers(s.table[slot].num) && x < ID_LIMIT))
      && |t.table| == |s.table| && t.table[slot] == Inode(-1, 0, FREE_KIND, 0, 0, " ", 0, s.table[slot].num)
      && (forall j :: 0 <= j < |s.table| && j != slot ==> t.table[j] == s.table[j])
  }

  // ----------------------------------------------------------- write_file

  /** write_file_by_path on records and slots: nothing for sizes up to 0 or without such a file; else
      the first file's record gets the size and new pointers, on disk and in its slot, and no other
      record, slot or inode bit changes. The bytes are in `BytesAfterWrite`. */
  lemma WriteOutcome(s: FS, path: string, buf: seq<byte>, size: int, beyond: seq<byte>)
    requires Inv(s) && Allowed(WriteTo(path, buf, size, beyond))
    ensures var t := Next(s, WriteTo(path, buf, size, beyond));
      if size <= 0 || !NodeIn(s.table, path, FILE_KIND) then t == s
      else FileWritten(s, t, path, size)
  {
    hide Disjoint, Accounted, RecordsGood, RootInPlace, SlotsSuffice, WriteFile, GivenUp, Dropped;
    InvReadable(s);
    FileSlotIs(s, path);
    var slot := FindFile(s.table, path, 0);
    if size > 0 && slot < |s.table| {
      LiveSlot(s, slot);
      WriteKeepsSound(s.vol, s.table[slot].(size := size), StrNCpy(buf, size) + beyond);
    }
  }

  ghost predicate FileWritten(s: FS, t: FS, path: string, size: int) {
    exists slot, num: seq<int> ::
      && FirstNode(s.table, path, FILE_KIND, slot) && 0 <= s.table[slot].id < |s.vol.recs|
      && (var made := s.table[slot].(size := size, num := num);
          t.table == s.table[slot := made] && t.vol.recs == s.vol.recs[made.id := made])
      && t.vol.iused == s.vol.iused
  }

  // ------------------------------------------------------- removed for good

  /** No live inode of that name and kind is more than the given one. */
  ghost predicate OnlyOne(v: Volume, path: string, kind: int) {
    forall a, b ::
      a in v.iused && b in v.iused && 0 <= a < |v.recs| && 0 <= b < |v.recs|
      && v.recs[a].kind == v.recs[b].kind == kind && v.recs[a].name == v.recs[b].name == path
      ==> a == b
  }

  lemma ClearedIsGoneIff(v: Volume, w: Volume, id: int, path: string, kind: int)
    requires id in v.iused && 0 <= id < |v.recs| && v.recs[id].kind == kind && v.recs[id].name == path
    requires w.recs == v.recs && w.iused == v.iused - {id}
    ensures !NodeOnDisk(w, path, kind) <==> OnlyOne(v, path, kind)
  {
    if OnlyOne(v, path, kind) {
      forall a | a in w.iused && 0 <= a < |w.recs| && w.recs[a].kind == kind
        ensures w.recs[a].name != path
      {
        assert a in v.iused && a != id;
      }
    }
    if !NodeOnDisk(w, path, kind) {
      forall a, b |
        a in v.iused && b in v.iused && 0 <= a < |v.recs| && 0 <= b < |v.recs|
        && v.recs[a].kind == v.recs[b].kind == kind && v.recs[a].name == v.recs[b].name == path
        ensures a == b
      {
        assert a != id ==> a in w.iused;
        assert b != id ==> b in w.iused;
      }
    }
  }

  /** A directory that delete_dir has removed is gone from the disk, so from the table and from every
      later mount too, exactly when no second live inode was a directory of that path. */
  lemma RemovedDirIsGoneIff(s: FS, pwd: string, name: string)
    requires Inv(s) && Join(pwd, name) != "/" && DeleteDir(s, pwd, name).1 == 0
    ensures !NodeOnDisk(DeleteDir(s, pwd, name).0.vol, Join(pwd, name), DIR_KIND)
      <==> OnlyOne(s.vol, Join(pwd, name), DIR_KIND)
  {
    hide Sound, RootInPlace, SlotsSuffice, DeleteDir, Shown, NodeOnDisk, OnlyOne;
    var path := Join(pwd, name);
    DeleteDirOutcome(s, pwd, name);
    var t := DeleteDir(s, pwd, name).0;
    var slot :| FirstNode(s.table, path, DIR_KIND, slot) && s.table[slot].id in s.vol.iused
                && t.vol == s.vol.(iused := s.vol.iused - {s.table[slot].id});
    LiveSlot(s, slot);
    ClearedIsGoneIff(s.vol, t.vol, s.table[slot].id, path, DIR_KIND);
  }

  lemma RemovedFileIsGoneIff(s: FS, path: string)
    requires Inv(s) && path != "" && !EndsInSlash(path) && NodeIn(s.table, path, FILE_KIND)
    ensures !NodeOnDisk(Next(s, RemoveFile(path)).vol, path, FILE_KIND) <==> OnlyOne(s.vol, path, FILE_KIND)
  {
    hide Sound, RootInPlace, SlotsSuffice, Next, NodeOnDisk, OnlyOne, Pointers;
    DeleteFileOutcome(s, path);
    var t := Next(s, RemoveFile(path));
    var slot :| FirstNode(s.table, path, FILE_KIND, slot) && s.table[slot].id in s.vol.iused
                && t.vol.iused == s.vol.iused - {s.table[slot].id} && t.vol.recs == s.vol.recs;
    LiveSlot(s, slot);
    ClearedIsGoneIff(s.vol, t.vol, s.table[slot].id, path, FILE_KIND);
  }

  /** The steps that can put a node of that name and kind on disk. */
  predicate Makes(step: Step, path: string, kind: int) {
    match step
    case MakeFile(pwd, name) => kind == FILE_KIND && Cut(Join(pwd, name)) == path
    case MakeDir(pwd, name, statSize) => kind == DIR_KIND && Cut(Join(pwd, name)) == path
    case _ => false
  }

  lemma GoneStaysGone(s: FS, step: Step, path: string, kind: int)
    requires Inv(s) && Allowed(step) && !NodeOnDisk(s.vol, path, kind) && !Makes(step, path, kind)
    ensures !NodeOnDisk(Next(s, step).vol, path, kind)
  {
    hide Inv, CreateFile, CreateDir, DeleteDir, DeleteFileByPath, WriteFileByPath, InitDir;
    match step
    case MakeFile(pwd, name) => MakeFileGone(s, pwd, name, path, kind);
    case MakeDir(pwd, name, statSize) => MakeDirGone(s, pwd, name, statSize, path, kind);
    case WriteTo(p, buf, size, beyond) => WriteGone(s, p, buf, size, beyond, path, kind);
    case ReadFrom(p) =>
    case RemoveFile(p) => RemoveFileGone(s, p, path, kind);
    case RemoveDir(pwd, name) => RemoveDirGone(s, pwd, name, path, kind);
    case Remount => RemountKeepsInv(s);
  }

  lemma MakeFileGone(s: FS, pwd: string, name: string, path: string, kind: int)
    requires Inv(s) && Allowed(MakeFile(pwd, name)) && !NodeOnDisk(s.vol, path, kind)
    requires !Makes(MakeFile(pwd, name), path, kind)
    ensures !NodeOnDisk(CreateFile(s, pwd, name).0.vol, path, kind)
  {
    hide Inv, CreateFile;
    CreateFileOutcome(s, pwd, name);
  }

  lemma MakeDirGone(s: FS, pwd: string, name: string, size: int, path: string, kind: int)
    requires Inv(s) && Allowed(MakeDir(pwd, name, size)) && !NodeOnDisk(s.vol, path, kind)
    requires !Makes(MakeDir(pwd, name, size), path, kind)
    ensures !NodeOnDisk(CreateDir(s, pwd, name, size).0.vol, path, kind)
  {
    hide Inv, CreateDir, SearchDir;
    CreateDirAdds(s, pwd, name, size);
  }

  lemma WriteGone(s: FS, p: string, buf: seq<byte>, size: int, beyond: seq<byte>, path: string, kind: int)
    requires Inv(s) && Allowed(WriteTo(p, buf, size, beyond)) && !NodeOnDisk(s.vol, path, kind)
    ensures !NodeOnDisk(Next(s, WriteTo(p, buf, size, beyond)).vol, path, kind)
  {
    hide Next, Sound, RootInPlace, SlotsSuffice;
    WriteOutcome(s, p, buf, size, beyond);
    var t := Next(s, WriteTo(p, buf, size, beyond));
    if t != s {
      var slot, num: seq<int> :| FirstNode(s.table, p, FILE_KIND, slot) && 0 <= s.table[slot].id < |s.vol.recs|
        && (var made := s.table[slot].(size := size, num := num); t.vol.recs == s.vol.recs[made.id := made]);
      LiveSlot(s, slot);
      forall a | a in t.vol.iused && 0 <= a < |t.vol.recs| && t.vol.recs[a].kind == kind
        ensures t.vol.recs[a].name != path
      {
        assert s.vol.recs[a].kind == kind && s.vol.recs[a].name == t.vol.recs[a].name;
      }
    }
  }

  lemma RemoveFileGone(s: FS, p: string, path: string, kind: int)
    requires Inv(s) && Allowed(RemoveFile(p)) && !NodeOnDisk(s.vol, path, kind)
    ensures !NodeOnDisk(Next(s, RemoveFile(p)).vol, path, kind)
  {
    hide Next, Inv, Pointers;
    DeleteFileOutcome(s, p);
  }

  lemma RemoveDirGone(s: FS, pwd: string, name: string, path: string, kind: int)
    requires Inv(s) && Allowed(RemoveDir(pwd, name)) && !NodeOnDisk(s.vol, path, kind)
    ensures !NodeOnDisk(DeleteDir(s, pwd, name).0.vol, path, kind)
  {
    hide Inv, DeleteDir, Shown;
    DeleteDirOutcome(s, pwd, name);
  }

  /** What is not on disk is not in the table. */
  lemma GoneIsNotFound(s: FS, path: string, kind: int)
    requires Inv(s) && !NodeOnDisk(s.vol, path, kind)
    ensures !NodeIn(s.table, path, kind)
    ensures kind == DIR_KIND ==> FindDir(s.table, path, 0) == |s.table|
    ensures kind == FILE_KIND ==> FindFile(s.table, path, 0) == |s.table|
  {
    hide Sound, RootInPlace, SlotsSuffice;
    forall i | 0 <= i < |s.table|
      ensures !IsNode(s.table[i], path, kind)
    {
      if s.table[i].id != -1 {
        LiveSlot(s, i);
      }
    }
    DirSlotIs(s, path);
    FileSlotIs(s, path);
  }

  predicate NoneMakes(steps: seq<Step>, path: string, kind: int) {
    forall i :: 0 <= i < |steps| ==> !Makes(steps[i], path, kind)
  }

  /** A name that is gone stays gone over every run that does not make it again, remounts and failed
      insertions included: no lookup finds it. */
  lemma {:induction false} GoneStaysGoneOverRuns(s: FS, steps: seq<Step>, path: string, kind: int)
    requires Inv(s) && AllAllowed(steps) && !NodeOnDisk(s.vol, path, kind) && NoneMakes(steps, path, kind)
    ensures !NodeOnDisk(Run(s, steps).vol, path, kind) && !NodeIn(Run(s, steps).table, path, kind)
    decreases |steps|
  {
    hide Inv, Next, NodeOnDisk, Makes;
    if steps == [] {
      GoneIsNotFound(s, path, kind);
    } else {
      GoneStaysGone(s, steps[0], path, kind);
      GoneStaysGoneOverRuns(Next(s, steps[0]), steps[1..], path, kind);
    }
  }

  /** rmdir, then anything that does not make the directory again: it is not there, in memory or after
      any number of mounts. */
  lemma RemovedDirStaysGone(s: FS, pwd: string, name: string, steps: seq<Step>)
    requires Inv(s) && Allowed(RemoveDir(pwd, name)) && DeleteDir(s, pwd, name).1 == 0 && AllAllowed(steps)
    requires OnlyOne(s.vol, Join(pwd, name), DIR_KIND) && NoneMakes(steps, Join(pwd, name), DIR_KIND)
    ensures !NodeIn(Run(Next(s, RemoveDir(pwd, name)), steps).table, Join(pwd, name), DIR_KIND)
  {
    hide Inv, DeleteDir, NodeOnDisk, OnlyOne, Makes;
    RemovedDirIsGoneIff(s, pwd, name);
    GoneStaysGoneOverRuns(Next(s, RemoveDir(pwd, name)), steps, Join(pwd, name), DIR_KIND);
  }
}
