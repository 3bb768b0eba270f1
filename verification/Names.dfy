/** When a name gets a second node: which creations are refused, which are not, and the exact
    condition under which the live names, files and directories together, stay distinct. */
module Names {
  import opened Bytes
  import opened Inodes
  import opened Volumes
  import opened Ownership
  import opened Directories
  import opened Invariant
  import opened Runs
  import opened Listings
  import opened Outcomes

  /** Some live inode has the name, whatever its kind, in the table or not. */
  ghost predicate Taken(v: Volume, path: string) {
    exists a :: a in v.iused && 0 <= a < |v.recs| && v.recs[a].name == path
  }

  /** No two live inodes have the same name, whatever their kinds. */
  ghost predicate UniqueNodes(v: Volume) {
    forall a, b ::
      a in v.iused && b in v.iused && 0 <= a < |v.recs| && 0 <= b < |v.recs| && v.recs[a].name == v.recs[b].name
      ==> a == b
  }

  lemma UniqueAfterMake(v: Volume, made: Inode)
    requires UniqueNodes(v) && 0 <= made.id < |v.recs| && made.id !in v.iused
    ensures UniqueNodes(WithInode(v, made)) <==> !Taken(v, made.name)
  {
    var w := WithInode(v, made);
    if a :| a in v.iused && 0 <= a < |v.recs| && v.recs[a].name == made.name {
      assert w.recs[a].name == w.recs[made.id].name && a != made.id;
    }
  }

  // ------------------------------------------------------------ refusals

  /** With nothing missing, a taken name is the name of a live slot, a file or a directory. */
  lemma TakenInTable(s: FS, path: string)
    requires Inv(s) && NoneLost(s)
    ensures Taken(s.vol, path) <==> NodeIn(s.table, path, FILE_KIND) || NodeIn(s.table, path, DIR_KIND)
  {
    hide Disjoint, Accounted, RootInPlace, SlotsSuffice;
    if a :| a in s.vol.iused && 0 <= a < |s.vol.recs| && s.vol.recs[a].name == path {
      assert a in LiveIds(s.table);
      var i :| 0 <= i < |s.table| && s.table[i].id == a && a != -1;
      LiveSlot(s, i);
      assert IsNode(s.table[i], path, s.table[i].kind);
    }
    forall i, kind | 0 <= i < |s.table| && IsNode(s.table[i], path, kind)
      ensures Taken(s.vol, path)
    {
      LiveSlot(s, i);
    }
  }

  /** mkdir of a name that a file or a directory in the table already has: refused, nothing changes. */
  lemma MkdirRefusesNames(s: FS, pwd: string, name: string, size: int, kind: int)
    requires Inv(s) && NodeIn(s.table, pwd, DIR_KIND) && '/' !in name && '\n' !in name
    requires NodeIn(s.table, Join(pwd, name), kind)
    ensures |s.vol.recs| == INODES && CreateDir(s, pwd, name, size) == (s, -1)
  {
    hide Sound, RootInPlace, SlotsSuffice, Shown, SearchDir, Occurs;
    var i :| 0 <= i < |s.table| && IsNode(s.table[i], Join(pwd, name), kind);
    if name == "" {
      EmptyNameIsFound(s, pwd);
    } else {
      DirNamesNonempty(s, pwd);
      JoinIsShown(pwd, name);
      OccursInItself(name);
      SearchDirIs(s, pwd, name);
    }
  }

  lemma OccursInItself(word: string)
    ensures Occurs(word, word)
  {
    assert word[0..] == word;
  }

  /** strstr finds the empty name in every text. */
  lemma EmptyNameIsFound(s: FS, pwd: string)
    requires Inv(s) && NodeIn(s.table, pwd, DIR_KIND)
    ensures SearchDir(s.table, pwd, "")
  {
    hide Sound, RootInPlace, SlotsSuffice, Shown, SearchDir;
    SearchDirIs(s, pwd, "");
    var c := Shown(s.table[0].name, pwd);
    assert "" <= c[0..];
    assert Occurs(c, "");
  }

  lemma DirNamesNonempty(s: FS, pwd: string)
    requires Inv(s) && NodeIn(s.table, pwd, DIR_KIND)
    ensures pwd != ""
  {
    hide Sound, RootInPlace, SlotsSuffice;
    var i :| 0 <= i < |s.table| && IsNode(s.table[i], pwd, DIR_KIND);
    VacantNames(s, i);
  }

  /** strstr looks for the name as given and finds only names as cut: one that its field cannot hold is
      never refused for being there already. */
  lemma CutNameIsNotFound(s: FS, pwd: string, name: string)
    requires Inv(s) && PlainName(name) && '\n' !in name && |Join(pwd, name)| >= NAME_FIELD
    ensures !SearchDir(s.table, pwd, name)
  {
    hide Disjoint, Accounted, RootInPlace, SlotsSuffice, Shown, SearchDir, Occurs;
    SearchDirIs(s, pwd, name);
    forall i | 0 <= i < |s.table|
      ensures !Occurs(Shown(s.table[i].name, pwd), name)
    {
      if s.table[i].id != -1 {
        LiveSlot(s, i);
      }
      ShownIsShort(s.table[i].name, pwd, name);
    }
  }

  lemma ShownIsShort(path: string, pwd: string, name: string)
    requires |path| < NAME_FIELD <= |Join(pwd, name)| && name != ""
    ensures !Occurs(Shown(path, pwd), name)
  {
    assert |Shown(path, pwd)| < |name|;
  }

  // ---------------------------------------------------------- exact conditions

  /** A create_file that gets an inode, exactly: the names stay distinct if and only if no live inode on
      disk, of either kind, has the path as cut. */
  lemma CreateFileUniqueIff(s: FS, pwd: string, name: string)
    requires Inv(s) && IsCString(pwd) && IsCString(name) && UniqueNodes(s.vol)
    requires |pwd| + |name| <= 32 && !NodeIn(s.table, Cut(Join(pwd, name)), FILE_KIND)
    requires FirstFreeInode(s.vol.iused, 0) != -1
    ensures |s.vol.recs| == INODES
    ensures UniqueNodes(CreateFile(s, pwd, name).0.vol) <==> !Taken(s.vol, Cut(Join(pwd, name)))
  {
    hide Inv, CreateFile, UniqueNodes, Taken;
    CreateFileOutcome(s, pwd, name);
    FirstFreeInodeIsLeast(s.vol.iused, 0);
    var path, t := Cut(Join(pwd, name)), CreateFile(s, pwd, name).0;
    var id :| LeastFree(s.vol.iused, id)
      && t.vol == WithInode(s.vol, Inode(id, 0, FILE_KIND, |pwd| + |name|, 0, path, 0, NoPointers()));
    UniqueAfterMake(s.vol, Inode(id, 0, FILE_KIND, |pwd| + |name|, 0, path, 0, NoPointers()));
  }

  /** The same for a create_dir that its guard lets pass. */
  lemma CreateDirUniqueIff(s: FS, pwd: string, name: string, size: int)
    requires Inv(s) && IsCString(pwd) && IsCString(name) && Int32(size) && UniqueNodes(s.vol)
    requires |s.vol.recs| == INODES && CreateDir(s, pwd, name, size).1 == 0
    ensures UniqueNodes(CreateDir(s, pwd, name, size).0.vol) <==> !Taken(s.vol, Cut(Join(pwd, name)))
  {
    hide Inv, CreateDir, SearchDir, UniqueNodes, Taken;
    CreateDirAdds(s, pwd, name, size);
    var path, t := Cut(Join(pwd, name)), CreateDir(s, pwd, name, size).0;
    var id, slot :| LeastFree(s.vol.iused, id) && FirstEmpty(s.table, slot)
      && t.vol == WithInode(s.vol, Inode(id, size, DIR_KIND, |path|, 0, path, 0, NoPointers()));
    UniqueAfterMake(s.vol, Inode(id, size, DIR_KIND, |path|, 0, path, 0, NoPointers()));
  }

  /** The two ways to a second node. create_file looks for files only, so it takes the name of a
      directory; create_dir misses a taken name that is cut, or that lies in no live directory. */
  ghost predicate SecondNode(s: FS, step: Step) {
    match step
    case MakeFile(pwd, name) =>
      && |pwd| + |name| <= 32 && NodeIn(s.table, Cut(Join(pwd, name)), DIR_KIND)
      && FirstFreeInode(s.vol.iused, 0) != -1
    case MakeDir(pwd, name, statSize) =>
      && Taken(s.vol, Cut(Join(pwd, name))) && EmptySlots(s.table) != {}
      && ((|Join(pwd, name)| >= NAME_FIELD && name != "") || !NodeIn(s.table, pwd, DIR_KIND))
    case _ => false
  }

  /** Directory names as the command layer splits them off, and without newline. */
  predicate OneName(step: Step) {
    step.MakeDir? ==> '/' !in step.name && '\n' !in step.name
  }

  /** The live names stay distinct over a step if and only if it does neither. */
  lemma StepUniqueIff(s: FS, step: Step)
    requires Inv(s) && Allowed(step) && OneName(step) && NoneLost(s) && UniqueNodes(s.vol)
    ensures UniqueNodes(Next(s, step).vol) <==> !SecondNode(s, step)
  {
    hide Inv, NoneLost, UniqueNodes, CreateFile, CreateDir, DeleteDir, DeleteFileByPath, WriteFileByPath, InitDir;
    match step
    case MakeFile(pwd, name) => MakeFileUniqueIff(s, pwd, name);
    case MakeDir(pwd, name, statSize) => MakeDirUniqueIff(s, pwd, name, statSize);
    case WriteTo(p, buf, size, beyond) => WriteAddsNoName(s, p, buf, size, beyond);
    case ReadFrom(p) =>
    case RemoveFile(p) => RemoveAddsNoName(s, p);
    case RemoveDir(pwd, name) => RemoveDirAddsNoName(s, pwd, name);
    case Remount => RemountKeepsInv(s);
  }

  lemma MakeFileUniqueIff(s: FS, pwd: string, name: string)
    requires Inv(s) && Allowed(MakeFile(pwd, name)) && NoneLost(s) && UniqueNodes(s.vol)
    ensures UniqueNodes(CreateFile(s, pwd, name).0.vol) <==> !SecondNode(s, MakeFile(pwd, name))
  {
    hide Inv, NoneLost, UniqueNodes, CreateFile, Taken, NodeIn;
    var path := Cut(Join(pwd, name));
    CreateFileOutcome(s, pwd, name);
    TakenInTable(s, path);
    FirstFreeInodeIsLeast(s.vol.iused, 0);
    if NodeIn(s.table, path, FILE_KIND) {
      NotBothKinds(s, path);
    } else if |pwd| + |name| <= 32 && FirstFreeInode(s.vol.iused, 0) != -1 {
      CreateFileUniqueIff(s, pwd, name);
    }
  }

  lemma NotBothKinds(s: FS, path: string)
    requires Inv(s) && UniqueNodes(s.vol) && NodeIn(s.table, path, FILE_KIND)
    ensures !NodeIn(s.table, path, DIR_KIND)
  {
    hide Sound, RootInPlace, SlotsSuffice;
    var i :| 0 <= i < |s.table| && IsNode(s.table[i], path, FILE_KIND);
    LiveSlot(s, i);
    forall j | 0 <= j < |s.table|
      ensures !IsNode(s.table[j], path, DIR_KIND)
    {
      if s.table[j].id != -1 {
        LiveSlot(s, j);
      }
    }
  }

  lemma MakeDirUniqueIff(s: FS, pwd: string, name: string, size: int)
    requires Inv(s) && Allowed(MakeDir(pwd, name, size)) && OneName(MakeDir(pwd, name, size))
    requires NoneLost(s) && UniqueNodes(s.vol)
    ensures UniqueNodes(CreateDir(s, pwd, name, size).0.vol) <==> !SecondNode(s, MakeDir(pwd, name, size))
  {
    hide Inv, NoneLost, UniqueNodes, CreateDir, Taken, NodeIn, SearchDir, DirMade, EmptySlots;
    var path := Cut(Join(pwd, name));
    CreateDirAdds(s, pwd, name, size);
    TakenInTable(s, path);
    SearchDirIs(s, pwd, name);
    if CreateDir(s, pwd, name, size).1 == 0 {
      CreateDirUniqueIff(s, pwd, name, size);
    }
    if name == "" && NodeIn(s.table, pwd, DIR_KIND) {
      EmptyNameIsFound(s, pwd);
    } else if |Join(pwd, name)| >= NAME_FIELD && name != "" {
      CutNameIsNotFound(s, pwd, name);
    } else if NodeIn(s.table, pwd, DIR_KIND) && Taken(s.vol, path) {
      MkdirRefusesNames(s, pwd, name, size, if NodeIn(s.table, path, FILE_KIND) then FILE_KIND else DIR_KIND);
    }
  }

  lemma NoNewNode(v: Volume, w: Volume)
    requires UniqueNodes(v) && w.iused <= v.iused && |w.recs| == |v.recs|
    requires forall a :: a in w.iused && 0 <= a < |v.recs| ==> w.recs[a].name == v.recs[a].name
    ensures UniqueNodes(w)
  {}

  lemma WriteAddsNoName(s: FS, p: string, buf: seq<byte>, size: int, beyond: seq<byte>)
    requires Inv(s) && Allowed(WriteTo(p, buf, size, beyond)) && UniqueNodes(s.vol)
    ensures UniqueNodes(Next(s, WriteTo(p, buf, size, beyond)).vol)
  {
    hide Next, Sound, RootInPlace, SlotsSuffice, UniqueNodes;
    WriteOutcome(s, p, buf, size, beyond);
    var t := Next(s, WriteTo(p, buf, size, beyond));
    if t != s {
      var slot, num: seq<int> :| FirstNode(s.table, p, FILE_KIND, slot) && 0 <= s.table[slot].id < |s.vol.recs|
        && (var made := s.table[slot].(size := size, num := num); t.vol.recs == s.vol.recs[made.id := made])
        && t.vol.iused == s.vol.iused;
      LiveSlot(s, slot);
      NoNewNode(s.vol, t.vol);
    }
  }

  lemma RemoveAddsNoName(s: FS, p: string)
    requires Inv(s) && Allowed(RemoveFile(p)) && UniqueNodes(s.vol)
    ensures UniqueNodes(Next(s, RemoveFile(p)).vol)
  {
    hide Next, Inv, Pointers, UniqueNodes;
    DeleteFileOutcome(s, p);
    NoNewNode(s.vol, Next(s, RemoveFile(p)).vol);
  }

  lemma RemoveDirAddsNoName(s: FS, pwd: string, name: string)
    requires Inv(s) && Allowed(RemoveDir(pwd, name)) && UniqueNodes(s.vol)
    ensures UniqueNodes(DeleteDir(s, pwd, name).0.vol)
  {
    hide Inv, DeleteDir, Shown, UniqueNodes;
    DeleteDirOutcome(s, pwd, name);
    NoNewNode(s.vol, DeleteDir(s, pwd, name).0.vol);
  }

  // ------------------------------------------------------------- over runs

  /** No insertion of the run fails and no step of it gives a taken name a second node. */
  ghost predicate NoSecond(s: FS, steps: seq<Step>)
    requires Inv(s) && AllAllowed(steps)
    decreases |steps|
  {
    steps == [] ||
    (!InsertFails(s, steps[0]) && OneName(steps[0]) && !SecondNode(s, steps[0])
     && NoSecond(Next(s, steps[0]), steps[1..]))
  }

  /** Files and directories together keep distinct names over every such run. */
  lemma {:induction false} UniqueNodesOverRuns(s: FS, steps: seq<Step>)
    requires Inv(s) && AllAllowed(steps)
    ensures NoneLost(s) && UniqueNodes(s.vol) && NoSecond(s, steps) ==> UniqueNodes(Run(s, steps).vol)
    decreases |steps|
  {
    hide Inv, Next, NoneLost, UniqueNodes, SecondNode, InsertFails, OneName;
    if steps != [] && NoneLost(s) && UniqueNodes(s.vol) && NoSecond(s, steps) {
      LostOnlyByFailedInsert(s, steps[0]);
      StepUniqueIff(s, steps[0]);
      UniqueNodesOverRuns(Next(s, steps[0]), steps[1..]);
    }
  }

  /** The same from a fresh image on. */
  lemma UniqueNodesFromFormat(v: Volume, steps: seq<Step>)
    requires Formatted(v) && AllAllowed(steps)
    ensures Inv(InitDir(v))
    ensures NoSecond(InitDir(v), steps) ==> UniqueNodes(RunFromFormat(v, steps).vol)
  {
    hide Inv, InitDir;
    FirstMountIsClean(v);
    FirstMountView(v);
    UniqueNodesOverRuns(InitDir(v), steps);
  }

  /** On a fresh image, after any run without failed insertion: mkdir in a live directory of a name that
      fits its field and is live, in the table or on disk, is refused and changes nothing. */
  lemma MkdirNeverDoubles(v: Volume, steps: seq<Step>, pwd: string, name: string, size: int)
    requires Formatted(v) && AllAllowed(steps) && '/' !in name && '\n' !in name && |Join(pwd, name)| < NAME_FIELD
    ensures Inv(InitDir(v))
    ensures var s := RunFromFormat(v, steps);
      Clean(InitDir(v), steps) && NodeIn(s.table, pwd, DIR_KIND) && Taken(s.vol, Join(pwd, name)) ==>
      |s.vol.recs| == INODES && CreateDir(s, pwd, name, size) == (s, -1)
  {
    hide Inv, InitDir, CreateDir, NoneLost, Taken, NodeIn;
    FirstMountIsClean(v);
    NoneLostOverRuns(InitDir(v), steps);
    var s := RunFromFormat(v, steps);
    if Clean(InitDir(v), steps) && NodeIn(s.table, pwd, DIR_KIND) && Taken(s.vol, Join(pwd, name)) {
      TakenInTable(s, Join(pwd, name));
      MkdirRefusesNames(s, pwd, name, size,
                        if NodeIn(s.table, Join(pwd, name), FILE_KIND) then FILE_KIND else DIR_KIND);
    }
  }
}
