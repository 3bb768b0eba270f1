/** The global invariant: the table in memory agrees with the records and bitmaps on disk. Every
    operation of the directory layer keeps it. */
module Invariant {
  import opened Bytes
  import opened Inodes
  import opened Volumes
  import opened Ownership
  import opened Writing
  import opened Directories

  /** Slots create_dir and insert_inode_into_table may use. */
  ghost function EmptySlots(table: seq<Inode>): set<int> {
    set i | 0 <= i < |table| && table[i].name == ""
  }

  /** A slot without an inode is empty or a tombstone. */
  predicate Vacant(n: Inode) {
    n.id == -1 && (n.name == "" || n.name == " ") && n.kind == FREE_KIND
  }

  ghost predicate TableAgrees(s: FS) {
    && |s.table| == INODES == |s.vol.recs|
    && (forall i :: 0 <= i < INODES ==>
          (Vacant(s.table[i]) || (s.table[i].id in s.vol.iused && 0 <= s.table[i].id < INODES
                                  && s.table[i] == s.vol.recs[s.table[i].id])))
    && (forall i, j :: 0 <= i < j < INODES && s.table[i].id == s.table[j].id ==> s.table[i].id == -1)
  }

  ghost predicate RootInPlace(s: FS)
    requires |s.vol.recs| == INODES == |s.table|
  {
    0 in s.vol.iused && s.table[0].id == 0 && s.table[0].name == "/" && s.table[0].kind == DIR_KIND
  }

  /** Live inodes and empty slots never add up to more than the table: an inode that missed the
      table is paid for by a tombstone. */
  ghost predicate SlotsSuffice(s: FS) {
    |s.vol.iused| + |EmptySlots(s.table)| <= INODES
  }

  ghost predicate Inv(s: FS) {
    Sound(s.vol) && TableAgrees(s) && RootInPlace(s) && SlotsSuffice(s)
  }

  /** A live slot mirrors a good record. */
  lemma LiveSlot(s: FS, i: int)
    requires Sound(s.vol) && TableAgrees(s) && 0 <= i < INODES && s.table[i].id != -1
    ensures s.table[i].id in s.vol.iused && 0 <= s.table[i].id < INODES
    ensures s.table[i] == s.vol.recs[s.table[i].id] && Good(s.table[i], s.table[i].id)
  {
    assert !Vacant(s.table[i]);
    assert Good(s.vol.recs[s.table[i].id], s.table[i].id);
  }

  /** The preconditions of the reading and writing functions hold in every invariant state. */
  lemma InvReadable(s: FS)
    requires Sound(s.vol) && TableAgrees(s)
    ensures Readable(s)
    ensures forall i :: 0 <= i < |s.table| && s.table[i].id != -1 ==>
      DirectShape(s.table[i].num) && 0 <= s.table[i].id < |s.vol.recs|
  {
    forall i | 0 <= i < |s.table| && s.table[i].id != -1
      ensures DirectShape(s.table[i].num) && 0 <= s.table[i].id < |s.vol.recs|
      ensures s.table[i].kind == FILE_KIND ==> 0 <= s.table[i].size
      ensures forall k :: 0 <= k < Count(s.table[i].num, 0) ==> s.table[i].num[k] in s.vol.data
    {
      LiveSlot(s, i);
    }
  }

  // -------------------------------------------------------------- counting

  lemma {:induction false} BoundedCard(x: set<int>, n: nat)
    requires forall e :: e in x ==> 0 <= e < n
    ensures |x| <= n
    ensures |x| == n ==> forall e :: 0 <= e < n ==> e in x
  {
    if n > 0 {
      var y := x - {n - 1};
      BoundedCard(y, n - 1);
      assert x == if n - 1 in x then y + {n - 1} else y;
    } else {
      assert forall e :: e !in x;
    }
  }

  lemma FullCard(x: set<int>, n: nat)
    requires forall e :: 0 <= e < n ==> e in x
    requires forall e :: e in x ==> 0 <= e < n
    ensures |x| == n
  {
    if n > 0 {
      FullCard(x - {n - 1}, n - 1);
      assert x == x - {n - 1} + {n - 1};
    } else {
      assert forall e :: e !in x;
    }
  }

  /** By pigeonhole an empty slot means that create_inode finds a free id. */
  lemma EmptySlotMeansFreeInode(s: FS, slot: int)
    requires Sized(s.vol) && SlotsSuffice(s) && slot in EmptySlots(s.table)
    ensures FirstFreeInode(s.vol.iused, 0) != -1
  {
    FirstFreeInodeIsLeast(s.vol.iused, 0);
    SubsetCard({slot}, EmptySlots(s.table));
    if forall x :: 0 <= x < INODES ==> x in s.vol.iused {
      FullCard(s.vol.iused, INODES);
    }
  }

  // ----------------------------------------------------------- new records

  lemma NewRecord(v: Volume, node: Inode)
    requires Sound(v)
    requires Good(node.(id := 0, fileId := 0, groupId := 0, num := NoPointers()), 0)
    ensures var (w, made, ok) := CreateInode(v, node);
      && (ok <==> FirstFreeInode(v.iused, 0) != -1)
      && (ok ==>
            (Sound(w) && 0 <= made.id < INODES && made.id !in v.iused && w.iused == v.iused + {made.id}
             && w.recs == v.recs[made.id := made] && Good(made, made.id) && |w.iused| == |v.iused| + 1
             && w.used == v.used && w.data == v.data
             && made == node.(id := made.id, fileId := 0, groupId := 0, num := NoPointers())
             && (forall x :: 0 <= x < made.id ==> x in v.iused)))
      && (!ok ==> w == v)
  {
    CreateKeepsSound(v, node);
    FirstFreeInodeIsLeast(v.iused, 0);
    var r := CreateInode(v, node);
    if r.2 {
      assert Good(r.0.recs[r.1.id], r.1.id);
    }
  }

  /** Installing a freshly made inode in an empty slot. */
  lemma InstallKeepsInv(s: FS, w: Volume, made: Inode, slot: int)
    requires Inv(s) && Sound(w) && 0 <= slot < INODES && s.table[slot].name == ""
    requires 0 <= made.id < INODES && made.id !in s.vol.iused && Good(made, made.id)
    requires w.iused == s.vol.iused + {made.id} && w.recs == s.vol.recs[made.id := made]
    ensures Inv(FS(w, s.table[slot := made]))
    ensures EmptySlots(s.table[slot := made]) == EmptySlots(s.table) - {slot}
  {
    var t := FS(w, s.table[slot := made]);
    assert slot in EmptySlots(s.table);
    assert EmptySlots(t.table) == EmptySlots(s.table) - {slot};
    assert slot != 0;
    VacantNames(s, slot);
    forall i | 0 <= i < INODES && i != slot && !Vacant(t.table[i])
      ensures t.table[i].id in w.iused && 0 <= t.table[i].id < INODES && t.table[i].id != made.id
      ensures t.table[i] == w.recs[t.table[i].id]
    {
      assert t.table[i] == s.table[i];
    }
  }

  lemma VacantNames(s: FS, i: int)
    requires Sound(s.vol) && TableAgrees(s) && 0 <= i < INODES
    ensures s.table[i].name == "" || s.table[i].name == " " <==> s.table[i].id == -1
  {
    if s.table[i].id != -1 {
      LiveSlot(s, i);
    }
  }

  lemma CutIsGood(pwd: string, name: string)
    requires IsCString(pwd) && IsCString(name)
    ensures IsCString(Cut(Join(pwd, name)))
    ensures Cut(Join(pwd, name)) != "" && Cut(Join(pwd, name)) != " "
  {
    var j := Join(pwd, name);
    assert pwd != "/" ==> j[|pwd|] == '/';
    assert pwd == "/" ==> j[0] == '/';
  }

  // ------------------------------------------------------------ operations

  lemma CreateFileKeepsInv(s: FS, pwd: string, name: string)
    requires Inv(s) && IsCString(pwd) && IsCString(name)
    ensures Inv(CreateFile(s, pwd, name).0)
  {
    if |pwd| + |name| <= 32 && FindFile(s.table, Cut(Join(pwd, name)), 0) == |s.table| {
      var node := NewFile(pwd, name);
      CutIsGood(pwd, name);
      NoPointersShape();
      NewRecord(s.vol, node);
      var r := CreateInode(s.vol, node);
      var slot := FindEmpty(s.table, 0);
      if r.2 {
        if slot < |s.table| {
          InstallKeepsInv(s, r.0, r.1, slot);
        } else {
          LostInodeKeepsInv(s, r.0, r.1);
        }
      }
    }
  }

  /** When insertion fails the table has no empty slot, so the books still balance. */
  lemma LostInodeKeepsInv(s: FS, w: Volume, made: Inode)
    requires Inv(s) && Sound(w) && FindEmpty(s.table, 0) == |s.table|
    requires 0 <= made.id < INODES && made.id !in s.vol.iused
    requires w.iused == s.vol.iused + {made.id} && w.recs == s.vol.recs[made.id := made]
    ensures Inv(FS(w, s.table)) && EmptySlots(s.table) == {}
  {
    forall i | 0 <= i < |s.table|
      ensures s.table[i].name != ""
    {
      VacantNames(s, i);
    }
    assert EmptySlots(s.table) == {};
    BoundedCard(w.iused, INODES);
  }

  lemma CreateDirKeepsInv(s: FS, pwd: string, name: string, size: int)
    requires Inv(s) && IsCString(pwd) && IsCString(name) && Int32(size)
    ensures Inv(CreateDir(s, pwd, name, size).0)
  {
    if !SearchDir(s.table, pwd, name) {
      CutIsGood(pwd, name);
      var slot, made := PlaceDirFinds(s, Cut(Join(pwd, name)), size, 0);
    }
  }

  /** A directory record made for a slot: the least free id, a clean record, nothing else touched. */
  ghost predicate AddedDir(v: Volume, w: Volume, made: Inode, path: string, size: int) {
    && Sound(w) && 0 <= made.id < INODES && made.id !in v.iused && Good(made, made.id)
    && |v.recs| == INODES && w.iused == v.iused + {made.id} && w.recs == v.recs[made.id := made]
    && w.used == v.used && w.data == v.data && (forall x :: 0 <= x < made.id ==> x in v.iused)
    && made == Inode(made.id, size, DIR_KIND, |path|, 0, path, 0, NoPointers())
  }

  /** create_dir's search in an invariant state: either every slot is taken and nothing happens,
      or the first nameless slot gets the new directory. */
  lemma {:induction false} PlaceDirFinds(s: FS, path: string, size: int, i: nat)
      returns (slot: int, made: Inode)
    requires Inv(s) && i <= INODES && Int32(size)
    requires IsCString(path) && |path| < NAME_FIELD && path != "" && path != " "
    ensures i <= slot <= INODES && forall j :: i <= j < slot ==> s.table[j].name != ""
    ensures slot == INODES ==> PlaceDir(s, path, size, i) == (s, -1)
    ensures slot < INODES ==>
      var r := PlaceDir(s, path, size, i);
      && r.1 == 0 && s.table[slot].name == "" && r.0.table == s.table[slot := made]
      && AddedDir(s.vol, r.0.vol, made, path, size)
    ensures Inv(PlaceDir(s, path, size, i).0)
    decreases INODES - i
  {
    hide Inv, AddedDir;
    InvSize(s);
    slot, made := INODES, Blank();
    if i < INODES {
      if s.table[i].name != "" {
        slot, made := PlaceDirFinds(s, path, size, i + 1);
      } else {
        made := PlaceDirHere(s, path, size, i);
        slot := i;
      }
    }
  }

  lemma InvSize(s: FS)
    requires Inv(s)
    ensures |s.table| == INODES == |s.vol.recs|
  {}

  lemma PlaceDirHere(s: FS, path: string, size: int, i: nat) returns (made: Inode)
    requires Inv(s) && i < INODES && Int32(size) && s.table[i].name == ""
    requires IsCString(path) && |path| < NAME_FIELD && path != "" && path != " "
    ensures var r := PlaceDir(s, path, size, i);
      && r.1 == 0 && r.0.table == s.table[i := made] && Inv(r.0)
      && AddedDir(s.vol, r.0.vol, made, path, size)
  {
    hide Disjoint, Accounted, RecordsGood, TableAgrees, RootInPlace;
    InvSize(s);
    var node := s.table[i].(name := path, nameLen := |path|, kind := DIR_KIND, size := size);
    NoPointersShape();
    NewRecord(s.vol, node);
    assert i in EmptySlots(s.table);
    EmptySlotMeansFreeInode(s, i);
    var r := CreateInode(s.vol, node);
    made := r.1;
    InstallKeepsInv(s, r.0, made, i);
  }

  lemma DeleteDirKeepsInv(s: FS, pwd: string, name: string)
    requires Inv(s) && Join(pwd, name) != "/"
    ensures Inv(DeleteDir(s, pwd, name).0)
  {
    var slot := FindDir(s.table, Join(pwd, name), 0);
    if DeleteDir(s, pwd, name).1 == 0 {
      var id := s.table[slot].id;
      assert !Vacant(s.table[slot]);
      LiveSlot(s, slot);
      var w := s.vol.(iused := s.vol.iused - {id});
      assert Pointers(s.vol.recs[id].num) == {};
      ClearKeepsSound(s.vol, w, id);
      VacateKeepsInv(s, w, slot, s.table[slot].(nameLen := 0, kind := FREE_KIND, id := -1, name := ""));
    }
  }

  /** Taking a live, non-root inode out of the volume and out of its slot. */
  lemma VacateKeepsInv(s: FS, w: Volume, slot: int, left: Inode)
    requires Inv(s) && Sound(w) && 0 < slot < INODES && s.table[slot].id != -1 && Vacant(left)
    requires w.recs == s.vol.recs && w.iused == s.vol.iused - {s.table[slot].id}
    ensures Inv(FS(w, s.table[slot := left]))
  {
    var t := FS(w, s.table[slot := left]);
    LiveSlot(s, slot);
    assert s.table[slot].id != 0;
    VacateSlots(s.table, slot, left);
    assert |w.iused| == |s.vol.iused| - 1;
    forall i | 0 <= i < INODES && i != slot && !Vacant(t.table[i])
      ensures t.table[i].id in w.iused && 0 <= t.table[i].id < INODES
      ensures t.table[i] == w.recs[t.table[i].id]
    {
      assert t.table[i] == s.table[i];
    }
  }

  lemma VacateSlots(table: seq<Inode>, slot: int, left: Inode)
    requires 0 <= slot < |table|
    ensures |EmptySlots(table[slot := left])| <= |EmptySlots(table)| + 1
  {
    assert EmptySlots(table[slot := left]) <= EmptySlots(table) + {slot};
    SubsetCard(EmptySlots(table[slot := left]), EmptySlots(table) + {slot});
  }

  lemma SubsetCard(x: set<int>, y: set<int>)
    requires x <= y
    ensures |x| <= |y|
  {
    assert y == x + (y - x);
  }

  lemma DeleteFileKeepsInv(s: FS, path: string)
    requires Inv(s) && path != ""
    requires forall i :: 0 <= i < |s.table| && s.table[i].id != -1 ==> DirectShape(s.table[i].num)
    ensures Inv(DeleteFileByPath(s, path).0)
  {
    var slot := FindFile(s.table, path, 0);
    if DeleteFileByPath(s, path).1 == 0 {
      LiveSlot(s, slot);
      var node := s.table[slot];
      DeleteKeepsSound(s.vol, node.id);
      assert FindId(s.table, node.id, 0) == slot;
      VacateKeepsInv(s, DeleteFile(s.vol, node), slot, Tombstone(node));
    }
  }

  lemma WriteKeepsInv(s: FS, path: string, buf: seq<byte>, size: int, beyond: seq<byte>)
    requires Inv(s) && size < MAX_SIZE && |beyond| == BLOCK_SIZE
    requires forall i :: 0 <= i < |s.table| && s.table[i].id != -1 ==>
      DirectShape(s.table[i].num) && 0 <= s.table[i].id < |s.vol.recs|
    ensures Inv(WriteFileByPath(s, path, buf, size, beyond).0)
  {
    hide WriteFile, Disjoint, Accounted, RecordsGood, Representable, DirectShape, GivenUp, Dropped;
    var slot := FindFile(s.table, path, 0);
    if size > 0 && slot < |s.table| {
      LiveSlot(s, slot);
      var node, mem := s.table[slot].(size := size), StrNCpy(buf, size) + beyond;
      WriteKeepsSound(s.vol, node, mem);
      var r := WriteFile(s.vol, node, mem);
      ReplaceKeepsInv(s, r.0, slot, r.1);
    }
  }

  /** A rewritten record goes back to the slot it came from. */
  lemma ReplaceKeepsInv(s: FS, w: Volume, slot: int, node: Inode)
    requires Inv(s) && Sound(w) && 0 < slot < INODES && s.table[slot].id != -1
    requires node.id == s.table[slot].id && Good(node, node.id)
    requires w.iused == s.vol.iused && w.recs == s.vol.recs[node.id := node]
    ensures Inv(FS(w, s.table[slot := node]))
  {
    var t := FS(w, s.table[slot := node]);
    LiveSlot(s, slot);
    assert EmptySlots(t.table) == EmptySlots(s.table);
    forall i | 0 <= i < INODES && i != slot && !Vacant(t.table[i])
      ensures t.table[i].id in w.iused && 0 <= t.table[i].id < INODES
      ensures t.table[i] == w.recs[t.table[i].id]
    {
      assert t.table[i] == s.table[i];
    }
  }

  lemma RemountKeepsInv(s: FS)
    requires Inv(s)
    ensures var t := InitDir(s.vol);
      && Inv(t) && t.vol == s.vol
      && (forall i :: 0 <= i < INODES ==> t.table[i] == QueryInode(s.vol, i))
  {
    LiveSlot(s, 0);
    var q := seq(INODES, (i: int) requires 0 <= i < |s.vol.recs| => QueryInode(s.vol, i));
    assert q[0].name == "/";
    var t := InitDir(s.vol);
    assert t == FS(s.vol, q);
    forall i | 0 <= i < INODES
      ensures if i in s.vol.iused then q[i] == s.vol.recs[i] && q[i].id == i && q[i].name != "" else Vacant(q[i])
    {
      assert i in s.vol.iused ==> Good(s.vol.recs[i], i);
    }
    RemountSlotsSuffice(s.vol, q);
  }

  lemma RemountSlotsSuffice(v: Volume, q: seq<Inode>)
    requires Sized(v) && |q| == INODES
    requires forall i :: 0 <= i < INODES && i in v.iused ==> q[i].name != ""
    ensures |v.iused| + |EmptySlots(q)| <= INODES
  {
    var vacant := EmptySlots(q);
    assert vacant !! v.iused;
    BoundedCard(vacant + v.iused, INODES);
    assert |vacant + v.iused| == |vacant| + |v.iused|;
  }

  // --------------------------------------------------------- first mount

  /** The volume create_filesystem lays out: the first 514 bits set, everything else zero. */
  ghost predicate Formatted(v: Volume) {
    && Sized(v)
    && (forall x :: x in v.used <==> 0 <= x < FIRST_DATA)
    && v.iused == {}
    && (forall i :: 0 <= i < INODES ==> v.recs[i].name == "")
  }

  /** The first init_dir makes the root as inode 0 in slot 0. */
  lemma FirstMountEstablishesInv(v: Volume)
    requires Formatted(v)
    ensures Inv(InitDir(v))
  {
    var q := seq(INODES, (i: int) requires 0 <= i < |v.recs| => QueryInode(v, i));
    forall i | 0 <= i < INODES
      ensures q[i] == Blank()
    {}
    var root := q[0].(name := "/", nameLen := 1, kind := DIR_KIND, size := 0);
    NoPointersShape();
    NewRecord(v, root);
    FirstFreeInodeIsLeast(v.iused, 0);
    var r := CreateInode(v, root);
    assert r.1.id == 0;
    var t := InitDir(v);
    assert t == FS(r.0, q[0 := r.1]);
    BoundedCard(EmptySlots(t.table) + {0}, INODES);
    assert 0 !in EmptySlots(t.table);
  }

  /** What it leaves: the root in slot 0 as inode 0, no other inode, the bitmap as formatted. */
  lemma FirstMountView(v: Volume)
    requires Formatted(v)
    ensures var s := InitDir(v);
      && s.vol.iused == {0} && s.vol.used == v.used
      && |s.table| == INODES == |s.vol.recs| && s.table[0] == s.vol.recs[0]
      && s.table[0] == Inode(0, 0, DIR_KIND, 1, 0, "/", 0, NoPointers())
      && (forall i :: 0 < i < INODES ==> s.table[i] == Blank())
  {
    var q := seq(INODES, (i: int) requires 0 <= i < |v.recs| => QueryInode(v, i));
    forall i | 0 <= i < INODES
      ensures q[i] == Blank()
    {}
    FirstFreeInodeIsLeast(v.iused, 0);
  }
}
