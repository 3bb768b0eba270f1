/** The tree the full-path names describe: what list_dir shows, when delete_dir goes through, and
    why no live node is ever left without its parent directory. */
module Trees {
  import opened Bytes
  import opened Inodes
  import opened Volumes
  import opened Ownership
  import opened Writing
  import opened Directories
  import opened Invariant
  import opened Runs

  // ---------------------------------------------------------------- listing

  /** The listing of the first k slots: distinct names, exactly the nonempty components shown there,
      and an empty text only when there are none. */
  ghost predicate Lists(table: seq<Inode>, dir: string, k: nat, l: Listing)
    requires k <= |table|
  {
    && (forall i, j :: 0 <= i < j < |l.names| ==> l.names[i] != l.names[j])
    && (forall i :: 0 <= i < k && Shown(table[i].name, dir) != "" ==> Shown(table[i].name, dir) in l.names)
    && (forall c :: c in l.names ==> c != "" && exists i :: 0 <= i < k && Shown(table[i].name, dir) == c)
    && (l.text == "" <==> l.names == [])
  }

  /** list_dir shows each component once. */
  lemma {:induction false} ListingFacts(table: seq<Inode>, dir: string, k: nat)
    requires k <= |table|
    ensures Lists(table, dir, k, ListDir(table, dir, k))
  {
    hide Shown, Lists;
    if k == 0 {
      ListsNothing(table, dir);
    } else {
      ListingFacts(table, dir, k - 1);
      ListsOneMore(table, dir, k - 1, ListDir(table, dir, k - 1));
    }
  }

  lemma ListsNothing(table: seq<Inode>, dir: string)
    ensures Lists(table, dir, 0, Listing([], ""))
  {}

  lemma ListsOneMore(table: seq<Inode>, dir: string, k: nat, l: Listing)
    requires k < |table| && Lists(table, dir, k, l)
    ensures var c, entry := Shown(table[k].name, dir), if table[k].kind == FILE_KIND then "\n" else "/\n";
      Lists(table, dir, k + 1, if c == "" || c in l.names then l else Listing(l.names + [c], l.text + c + entry))
  {
    hide Shown;
    var c := Shown(table[k].name, dir);
    if c != "" && c !in l.names {
      assert forall x :: x in l.names + [c] <==> x in l.names || x == c;
    }
  }

  lemma TextEmptyIff(table: seq<Inode>, dir: string)
    ensures ListDir(table, dir, |table|).text == ""
      <==> forall i :: 0 <= i < |table| ==> Shown(table[i].name, dir) == ""
  {
    ListingFacts(table, dir, |table|);
    var l := ListDir(table, dir, |table|);
    if l.names != [] {
      assert l.names[0] in l.names;
    }
  }

  /** Something under `dir`: its name goes on behind the separator. */
  predicate Below(name: string, dir: string) {
    if dir == "/" then |name| > 1 && name[0] == '/' && name[1] != '/'
    else |name| > |dir| + 1 && dir <= name && name[|dir|] == '/' && name[|dir| + 1] != '/'
  }

  lemma BelowIsShown(name: string, dir: string)
    requires Below(name, dir)
    ensures Shown(name, dir) != ""
  {}

  /** delete_dir goes through exactly when the directory is there and no slot shows a component
      behind its raw prefix, so "/ab" is also kept by "/abcd/e". One source of refusals is outside the
      model: delete_dir clears only the first byte of a name, and on an exact match list_dir reads on
      behind the terminator, so a directory "/a" in the slot that held "/abc/d" shows "c" there and is
      kept by itself. Bytes behind a terminator count as zero here. */
  lemma DeleteDirIff(s: FS, pwd: string, name: string)
    ensures DeleteDir(s, pwd, name).1 == 0 <==>
      var path := Join(pwd, name);
      && (exists i :: 0 <= i < |s.table| && s.table[i].name == path && s.table[i].kind == DIR_KIND)
      && (forall i :: 0 <= i < |s.table| ==> Shown(s.table[i].name, path) == "")
  {
    TextEmptyIff(s.table, Join(pwd, name));
  }

  /** No directory with a live descendant is removed. */
  lemma DeleteDirSparesParents(s: FS, pwd: string, name: string, i: int)
    requires 0 <= i < |s.table| && Below(s.table[i].name, Join(pwd, name))
    ensures DeleteDir(s, pwd, name) == (s, -1)
  {
    BelowIsShown(s.table[i].name, Join(pwd, name));
    TextEmptyIff(s.table, Join(pwd, name));
  }

  // ------------------------------------------------------------------- tree

  /** `name` is an entry directly in `dir`. */
  predicate ChildOf(name: string, dir: string) {
    if dir == "/" then |name| > 1 && name[0] == '/' && '/' !in name[1..]
    else |name| > |dir| + 1 && dir <= name && name[|dir|] == '/' && '/' !in name[|dir| + 1..]
  }

  lemma JoinIsChild(pwd: string, name: string)
    requires PlainName(name) && pwd != ""
    ensures ChildOf(Join(pwd, name), pwd)
  {
    var path := Join(pwd, name);
    if pwd == "/" {
      assert path[1..] == name;
    } else {
      assert path[|pwd| + 1..] == name;
    }
  }

  lemma OneParent(name: string, a: string, b: string)
    requires ChildOf(name, a) && ChildOf(name, b) && a != "" && b != ""
    ensures a == b
  {
    LastSlashAt(name, a);
    LastSlashAt(name, b);
    var p, q := if a == "/" then 0 else |a|, if b == "/" then 0 else |b|;
    if p > 0 {
      assert a == name[..p] == b;
    }
  }

  lemma LastSlashAt(name: string, dir: string)
    requires ChildOf(name, dir)
    ensures var p := if dir == "/" then 0 else |dir|;
      p < |name| && name[p] == '/' && forall q :: p < q < |name| ==> name[q] != '/'
  {
    var p := if dir == "/" then 0 else |dir|;
    forall q | p < q < |name|
      ensures name[q] != '/'
    {
      assert name[p + 1..][q - p - 1] == name[q];
    }
  }

  lemma ChildIsShown(name: string, dir: string)
    requires ChildOf(name, dir)
    ensures Shown(name, dir) != ""
  {
    var p := if dir == "/" then 0 else |dir|;
    assert name[p + 1..][0] == name[p + 1];
    assert name[p + 1] in name[p + 1..];
  }

  ghost predicate HasParent(table: seq<Inode>, name: string) {
    exists j :: 0 <= j < |table| && table[j].id != -1 && table[j].kind == DIR_KIND && ChildOf(name, table[j].name)
  }

  /** Every live node but the root sits in a live directory. */
  ghost predicate IsTree(s: FS) {
    forall i :: 0 <= i < |s.table| && s.table[i].id != -1 && s.table[i].name != "/" ==>
      HasParent(s.table, s.table[i].name)
  }

  lemma ParentSurvives(table: seq<Inode>, t: seq<Inode>, slot: nat, name: string)
    requires slot < |table| == |t| && HasParent(table, name)
    requires forall j :: 0 <= j < |table| && j != slot ==> t[j] == table[j]
    requires table[slot].id != -1 && table[slot].kind == DIR_KIND && ChildOf(name, table[slot].name) ==>
      t[slot].id != -1 && t[slot].kind == DIR_KIND && t[slot].name == table[slot].name
    ensures HasParent(t, name)
  {
    var j :| 0 <= j < |table| && table[j].id != -1 && table[j].kind == DIR_KIND && ChildOf(name, table[j].name);
    assert t[j].id != -1 && t[j].kind == DIR_KIND && ChildOf(name, t[j].name);
  }

  /** Removing a directory never orphans a live node. */
  lemma DeleteDirKeepsTree(s: FS, pwd: string, name: string)
    requires Inv(s) && IsTree(s)
    ensures IsTree(DeleteDir(s, pwd, name).0)
  {
    var path := Join(pwd, name);
    var t := DeleteDir(s, pwd, name).0;
    if DeleteDir(s, pwd, name).1 == 0 {
      DeleteDirIff(s, pwd, name);
      var slot := FindDir(s.table, path, 0);
      forall i | 0 <= i < |t.table| && t.table[i].id != -1 && t.table[i].name != "/"
        ensures HasParent(t.table, t.table[i].name)
      {
        assert t.table[i] == s.table[i];
        if ChildOf(s.table[i].name, path) {
          ChildIsShown(s.table[i].name, path);
        }
        ParentSurvives(s.table, t.table, slot, s.table[i].name);
      }
    }
  }

  /** Replacing or clearing a slot that holds no directory orphans nothing either. */
  lemma FileSlotKeepsTree(s: FS, t: FS, slot: nat)
    requires Inv(s) && IsTree(s) && slot < |s.table| == |t.table| && s.table[slot].kind != DIR_KIND
    requires forall j :: 0 <= j < |s.table| && j != slot ==> t.table[j] == s.table[j]
    requires t.table[slot].id == -1 || (s.table[slot].id != -1 && t.table[slot].name == s.table[slot].name)
    ensures IsTree(t)
  {
    forall i | 0 <= i < |t.table| && t.table[i].id != -1 && t.table[i].name != "/"
      ensures HasParent(t.table, t.table[i].name)
    {
      ParentSurvives(s.table, t.table, slot, t.table[i].name);
    }
  }

  /** Filling an empty slot keeps the tree exactly when the name put there, cut or not, is that of an
      entry of a live directory, or the root itself. */
  lemma AddKeepsTreeIff(s: FS, t: FS, slot: nat, made: Inode)
    requires Inv(s) && IsTree(s) && slot < |s.table| && s.table[slot].name == ""
    requires t.table == s.table[slot := made] && made.id != -1
    ensures IsTree(t) <==> made.name == "/" || HasParent(s.table, made.name)
  {
    hide Sound, ChildOf, RootInPlace, SlotsSuffice;
    SlotIsFree(s, slot);
    NotOwnChild(made.name);
    assert t.table[slot] == made;
    if made.name == "/" || HasParent(s.table, made.name) {
      forall i | 0 <= i < |t.table| && t.table[i].id != -1 && t.table[i].name != "/"
        ensures HasParent(t.table, t.table[i].name)
      {
        assert i != slot ==> t.table[i] == s.table[i];
        ParentSurvives(s.table, t.table, slot, t.table[i].name);
      }
    }
    if IsTree(t) && made.name != "/" {
      assert HasParent(t.table, made.name);
      var j :| 0 <= j < |t.table| && t.table[j].id != -1 && t.table[j].kind == DIR_KIND
               && ChildOf(made.name, t.table[j].name);
      assert j != slot && t.table[j] == s.table[j];
    }
  }

  lemma SlotIsFree(s: FS, slot: nat)
    requires Inv(s) && slot < |s.table| && s.table[slot].name == ""
    ensures s.table[slot].id == -1 && s.table[slot].kind == FREE_KIND
  {
    VacantNames(s, slot);
  }

  lemma NotOwnChild(name: string)
    ensures !ChildOf(name, name)
  {}

  /** For a plain name that is not cut this means that the named directory is live. */
  lemma ParentIsPwd(s: FS, pwd: string, name: string)
    requires Inv(s) && PlainName(name) && pwd != ""
    ensures HasParent(s.table, Join(pwd, name)) <==> FindDir(s.table, pwd, 0) < |s.table|
  {
    hide Sound, ChildOf, RootInPlace, SlotsSuffice;
    JoinIsChild(pwd, name);
    var slot := FindDir(s.table, pwd, 0);
    if slot < |s.table| {
      VacantNames(s, slot);
      assert HasParent(s.table, Join(pwd, name));
    }
    if HasParent(s.table, Join(pwd, name)) {
      var j :| 0 <= j < |s.table| && s.table[j].id != -1 && s.table[j].kind == DIR_KIND
               && ChildOf(Join(pwd, name), s.table[j].name);
      VacantNames(s, j);
      OneParent(Join(pwd, name), pwd, s.table[j].name);
    }
  }

  /** What a creation puts into the table belongs into a live directory there. */
  ghost predicate InPlace(s: FS, step: Step) {
    match step
    case MakeFile(pwd, name) => Cut(Join(pwd, name)) == "/" || HasParent(s.table, Cut(Join(pwd, name)))
    case MakeDir(pwd, name, statSize) => Cut(Join(pwd, name)) == "/" || HasParent(s.table, Cut(Join(pwd, name)))
    case _ => true
  }

  lemma MakeFileKeepsTree(s: FS, pwd: string, name: string)
    requires Inv(s) && IsTree(s) && Allowed(MakeFile(pwd, name)) && InPlace(s, MakeFile(pwd, name))
    ensures IsTree(CreateFile(s, pwd, name).0)
  {
    var t := CreateFile(s, pwd, name).0;
    var slot := FindEmpty(s.table, 0);
    if t.table != s.table {
      hide Sound, IsTree, CreateInode;
      CutIsGood(pwd, name);
      NoPointersShape();
      NewRecord(s.vol, NewFile(pwd, name));
      AddKeepsTreeIff(s, t, slot, CreateInode(s.vol, NewFile(pwd, name)).1);
    }
  }

  lemma MakeDirKeepsTree(s: FS, pwd: string, name: string, statSize: int)
    requires Inv(s) && IsTree(s) && Allowed(MakeDir(pwd, name, statSize))
    requires InPlace(s, MakeDir(pwd, name, statSize))
    ensures IsTree(CreateDir(s, pwd, name, statSize).0)
  {
    if !SearchDir(s.table, pwd, name) {
      hide Sound, IsTree, PlaceDir;
      CutIsGood(pwd, name);
      var slot, made := PlaceDirFinds(s, Cut(Join(pwd, name)), statSize, 0);
      if slot < INODES {
        AddKeepsTreeIff(s, CreateDir(s, pwd, name, statSize).0, slot, made);
      }
    }
  }

  /** With nothing lost, remounting shuffles the slots but keeps the names. */
  lemma RemountKeepsTree(s: FS)
    requires Inv(s) && IsTree(s) && NoneLost(s)
    ensures IsTree(InitDir(s.vol))
  {
    var t := InitDir(s.vol);
    RemountSlots(s);
    LiveIdsAreUsed(s);
    forall i | 0 <= i < INODES && t.table[i].id != -1 && t.table[i].name != "/"
      ensures HasParent(t.table, t.table[i].name)
    {
      assert t.table[i] == s.vol.recs[i] && i in LiveIds(s.table);
      var k :| 0 <= k < INODES && s.table[k].id == i && i != -1;
      LiveSlot(s, k);
      assert HasParent(s.table, s.table[k].name);
      var j :| 0 <= j < INODES && s.table[j].id != -1 && s.table[j].kind == DIR_KIND
               && ChildOf(s.table[k].name, s.table[j].name);
      LiveSlot(s, j);
      var id := s.table[j].id;
      assert t.table[id] == s.table[j];
    }
  }

  lemma StepKeepsTree(s: FS, step: Step)
    requires Inv(s) && Allowed(step) && NoneLost(s) && IsTree(s) && InPlace(s, step)
    ensures IsTree(Next(s, step))
  {
    hide IsTree, NoneLost, Sound;
    InvReadable(s);
    match step
    case MakeFile(pwd, name) => MakeFileKeepsTree(s, pwd, name);
    case MakeDir(pwd, name, statSize) => MakeDirKeepsTree(s, pwd, name, statSize);
    case WriteTo(path, buf, size, beyond) => WriteKeepsTree(s, path, buf, size, beyond);
    case ReadFrom(path) =>
    case RemoveFile(path) => RemoveFileKeepsTree(s, path);
    case RemoveDir(pwd, name) => DeleteDirKeepsTree(s, pwd, name);
    case Remount => RemountKeepsTree(s);
  }

  lemma WriteKeepsTree(s: FS, path: string, buf: seq<byte>, size: int, beyond: seq<byte>)
    requires Inv(s) && IsTree(s) && Allowed(WriteTo(path, buf, size, beyond))
    ensures IsTree(Next(s, WriteTo(path, buf, size, beyond)))
  {
    hide IsTree, Sound, WriteFile;
    var slot := FindFile(s.table, path, 0);
    InvReadable(s);
    if size > 0 && slot < |s.table| {
      LiveSlot(s, slot);
      var node, mem := s.table[slot].(size := size), StrNCpy(buf, size) + beyond;
      WriteKeepsSound(s.vol, node, mem);
      FileSlotKeepsTree(s, Next(s, WriteTo(path, buf, size, beyond)), slot);
    }
  }

  lemma RemoveFileKeepsTree(s: FS, path: string)
    requires Inv(s) && IsTree(s) && Allowed(RemoveFile(path))
    ensures IsTree(Next(s, RemoveFile(path)))
  {
    hide IsTree, Sound, DeleteFile;
    var slot := FindFile(s.table, path, 0);
    InvReadable(s);
    if slot < |s.table| && !EndsInSlash(path) {
      LiveSlot(s, slot);
      assert FindId(s.table, s.table[slot].id, 0) == slot;
      FileSlotKeepsTree(s, Next(s, RemoveFile(path)), slot);
    }
  }

  /** Every creation of the run belongs into a directory that is live at that point, and no insertion
      fails. */
  ghost predicate Tidy(s: FS, steps: seq<Step>)
    requires Inv(s) && AllAllowed(steps)
    decreases |steps|
  {
    steps == [] ||
    (!InsertFails(s, steps[0]) && InPlace(s, steps[0]) && Tidy(Next(s, steps[0]), steps[1..]))
  }

  /** Over every such run each live node's parent stays a live directory, across removals and
      remounts. */
  lemma {:induction false} TreeOverRuns(s: FS, steps: seq<Step>)
    requires Inv(s) && AllAllowed(steps)
    ensures NoneLost(s) && IsTree(s) && Tidy(s, steps) ==> IsTree(Run(s, steps))
    decreases |steps|
  {
    if steps != [] && NoneLost(s) && IsTree(s) && Tidy(s, steps) {
      LostOnlyByFailedInsert(s, steps[0]);
      StepKeepsTree(s, steps[0]);
      TreeOverRuns(Next(s, steps[0]), steps[1..]);
    }
  }

  lemma FirstMountIsTree(v: Volume)
    requires Formatted(v)
    ensures Inv(InitDir(v)) && IsTree(InitDir(v))
  {
    hide InitDir;
    FirstMountEstablishesInv(v);
    FirstMountView(v);
  }

  /** The same from a fresh image on. */
  lemma TreeFromFormat(v: Volume, steps: seq<Step>)
    requires Formatted(v) && AllAllowed(steps)
    ensures Inv(InitDir(v))
    ensures Tidy(InitDir(v), steps) ==> IsTree(RunFromFormat(v, steps))
  {
    FirstMountIsTree(v);
    FirstMountIsClean(v);
    TreeOverRuns(InitDir(v), steps);
  }
}
