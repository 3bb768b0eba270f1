/** directories_and_files.c: the in-memory inode table over an inode store. The object invariant is
    the global invariant, so every method below is a proof that its step keeps it. */
module DirectoryTables {
  import opened Bytes
  import opened Inodes
  import opened Volumes
  import opened Layout
  import opened InodeStores
  import opened Ownership
  import opened Directories
  import opened Invariant
  import opened Runs

  /** The table init_dir fills before it looks for the root. */
  function QueriedTable(v: Volume): (t: seq<Inode>)
    requires |v.recs| == INODES
    ensures |t| == INODES
    ensures forall i :: 0 <= i < INODES ==> t[i] == QueryInode(v, i)
  {
    seq(INODES, (i: int) requires 0 <= i < |v.recs| => QueryInode(v, i))
  }

  /** A live slot holding a file can be read and written. */
  lemma FileSlot(s: FS, slot: int)
    requires Inv(s) && 0 <= slot < INODES && s.table[slot].id != -1 && s.table[slot].kind == FILE_KIND
    ensures 0 <= s.table[slot].id < INODES
    ensures Representable(s.table[slot]) && DirectShape(s.table[slot].num) && 0 <= s.table[slot].size
    ensures forall k :: 0 <= k < Count(s.table[slot].num, 0) ==>
      s.table[slot].num[k] in s.vol.used && s.table[slot].num[k] in s.vol.data
  {
    LiveSlot(s, slot);
    OwnChain(s.vol, s.table[slot].id);
  }

  lemma InvSlots(s: FS)
    requires Inv(s)
    ensures Readable(s)
    ensures forall i :: 0 <= i < |s.table| && s.table[i].id != -1 ==>
      DirectShape(s.table[i].num) && 0 <= s.table[i].id < |s.vol.recs|
    ensures forall i :: 0 <= i < INODES && s.table[i].kind == DIR_KIND ==> 0 <= s.table[i].id < INODES
  {
    InvReadable(s);
    forall i | 0 <= i < INODES && s.table[i].kind == DIR_KIND
      ensures 0 <= s.table[i].id < INODES
    {
      assert !Vacant(s.table[i]);
    }
  }

  lemma SmallSize(node: Inode, size: int)
    requires Representable(node) && 0 <= size < MAX_SIZE
    ensures Representable(node.(size := size))
  {}

  lemma FirstMount(v: Volume)
    requires Formatted(v)
    ensures var s := Directories.InitDir(v);
      && Inv(s) && s.vol.iused == {0} && s.vol.used == v.used
      && |s.table| == INODES && s.table[0].name == "/"
  {
    FirstMountEstablishesInv(v);
    FirstMountView(v);
  }

  /** t is what a new process makes of the volume of s: init_dir of that volume, with the live records
      of s if and only if none of them was missing from its table. */
  ghost predicate ComesUpAs(s: FS, t: FS) {
    && |s.vol.recs| == INODES && t == Directories.InitDir(s.vol)
    && (LiveRecords(t.table) == LiveRecords(s.table) <==> NoneLost(s))
  }

  class Directory {
    const inodes: InodeStore
    const entries: array<Inode>

    ghost predicate Shaped()
      reads inodes.store.image, inodes.store.blockMap, inodes.superblock
    {
      inodes.Valid() && entries.Length == INODES
    }

    ghost function View(): (s: FS)
      requires Shaped()
      reads inodes.store.image, inodes.store.blockMap, inodes.superblock, entries
      ensures |s.table| == INODES == |s.vol.recs|
    {
      FS(inodes.View(), entries[..])
    }

    ghost predicate Valid()
      reads inodes.store.image, inodes.store.blockMap, inodes.superblock, entries
    {
      Shaped() && Inv(View())
    }

    /** create_filesystem followed by the first init_dir. */
    constructor Format()
      ensures Valid() && fresh(inodes) && fresh(entries)
      ensures exists v :: Formatted(v) && View() == Directories.InitDir(v)
      ensures View().vol.iused == {0} && View().table[0].name == "/"
      ensures forall x :: x in View().vol.used <==> 0 <= x < FIRST_DATA
    {
      inodes := new InodeStore.Format();
      entries := new Inode[INODES](_ => Blank());
      new;
      hide Inv, Directories.InitDir;
      ghost var v := inodes.View();
      inodes.ViewSized();
      inodes.ViewIsOnDisk();
      assert Formatted(v);
      InitDir();
      FirstMount(v);
    }

    /** The loop of init_dir: every inode is queried into the slot of its id. */
    method LoadTable() returns (rootFound: bool)
      requires Shaped()
      modifies entries
      ensures entries[..] == QueriedTable(inodes.View())
      ensures rootFound <==> exists j :: 0 <= j < INODES && entries[..][j].name == "/"
    {
      hide VolumeOf, BlocksOf, MapOf, Bits, Volumes.QueryInode;
      ghost var v := inodes.View();
      rootFound := false;
      for i := 0 to INODES
        invariant forall j :: 0 <= j < i ==> entries[j] == Volumes.QueryInode(v, j)
        invariant rootFound <==> exists j :: 0 <= j < i && entries[j].name == "/"
      {
        var node := inodes.QueryInode(i);
        entries[i] := node;
        if node.name == "/" {
          rootFound := true;
        }
      }
      assert entries[..] == QueriedTable(v);
      assert forall j :: 0 <= j < INODES ==> entries[..][j] == entries[j];
    }

    /** init_dir: read the inode bitmap, load the table; make the root if no slot is called "/". All of
        it comes from the image; superblock and table in memory may hold anything before. */
    method InitDir()
      requires inodes.Loaded() && entries.Length == INODES
      modifies inodes.store.image, inodes.superblock, entries
      ensures Shaped() && View() == Directories.InitDir(old(inodes.OnDisk()))
    {
      hide Inv, VolumeOf, BlocksOf, MapOf, Bits, ImageVolume, Volumes.QueryInode, Volumes.CreateInode;
      inodes.InitSuperblock();
      var rootFound := LoadTable();
      if !rootFound {
        entries[0] := entries[0].(name := "/", nameLen := 1, kind := DIR_KIND, size := 0);
        RootFits(entries[0]);
        var made, ok := inodes.CreateInode(entries[0]);
        entries[0] := made.(id := if ok then 0 else -1);
        assert entries[..] == QueriedTable(old(inodes.OnDisk()))[0 := made.(id := if ok then 0 else -1)];
      }
    }

    static lemma RootFits(node: Inode)
      requires node.name == "/" && node.nameLen == 1 && node.kind == DIR_KIND && node.size == 0
      ensures Representable(node.(id := 0, fileId := 0, groupId := 0, num := NoPointers()))
    {}

    /** load_filesystem and init_dir in a new process, on an image that stands for the volume of a
        state s: bitmaps, superblock and table in memory may hold anything. The state that comes up is
        what s remounts to, with the records s held if and only if none was missing. */
    method Remount(ghost s: FS)
      requires Inv(s) && inodes.Shaped() && inodes.store.Shaped() && entries.Length == INODES
      requires inodes.store.image[..][..HEADER_SIZE] == Header() && inodes.OnDisk() == s.vol
      modifies inodes.store.image, inodes.store.blockMap, inodes.superblock, entries
      ensures Valid() && ComesUpAs(s, View())
    {
      hide Inv, ImageVolume, Directories.InitDir, LiveRecords, NoneLost;
      RemountKeepsInv(s);
      RemountEquivalence(s);
      ReservedUsed(s);
      var status := inodes.Load();
      InitDir();
    }

    static lemma ReservedUsed(s: FS)
      requires Inv(s)
      ensures forall x :: 0 <= x < FIRST_DATA ==> x in s.vol.used
    {}

    /** A new process on an existing image, before it has loaded anything. */
    constructor Attach(bytes: seq<byte>)
      requires |bytes| == IMAGE_SIZE
      ensures inodes.Shaped() && inodes.store.Shaped() && entries.Length == INODES
      ensures inodes.store.image[..] == bytes && inodes.OnDisk() == ImageVolume(bytes)
      ensures fresh(inodes) && fresh(inodes.store) && fresh(inodes.store.image)
      ensures fresh(inodes.store.blockMap) && fresh(inodes.superblock) && fresh(entries)
    {
      inodes := new InodeStore.Attach(bytes);
      entries := new Inode[INODES](_ => Blank());
    }

    // --------------------------------------------------------------- lookups

    method GetInodeFromPath(path: string) returns (slot: nat)
      requires Shaped()
      ensures slot == FindFile(View().table, path, 0)
    {
      for i := 0 to INODES
        invariant FindFile(entries[..], path, 0) == FindFile(entries[..], path, i)
      {
        if entries[i].id != -1 && entries[i].name == path && entries[i].kind == FILE_KIND {
          return i;
        }
      }
      slot := INODES;
    }

    /** insert_inode_into_table: only a slot without id and without name is taken. */
    method InsertInode(node: Inode) returns (status: int)
      requires Shaped()
      modifies entries
      ensures var slot := FindEmpty(old(entries[..]), 0);
        && status == (if slot < INODES then 0 else -1)
        && entries[..] == if slot < INODES then old(entries[..])[slot := node] else old(entries[..])
    {
      for i := 0 to INODES
        invariant entries[..] == old(entries[..])
        invariant FindEmpty(entries[..], 0) == FindEmpty(entries[..], i)
      {
        if entries[i].id == -1 && |entries[i].name| < 1 {
          entries[i] := node;
          return 0;
        }
      }
      status := -1;
    }

    /** delete_inode_from_table: the first slot with that id becomes a tombstone. */
    method DeleteInodeFromTable(id: int) returns (status: int)
      requires Shaped()
      modifies entries
      ensures var slot := FindId(old(entries[..]), id, 0);
        && status == (if slot < INODES then 0 else -1)
        && entries[..] == if slot < INODES then old(entries[..])[slot := Tombstone(old(entries[..])[slot])]
                          else old(entries[..])
    {
      for i := 0 to INODES
        invariant entries[..] == old(entries[..])
        invariant FindId(entries[..], id, 0) == FindId(entries[..], id, i)
      {
        if entries[i].id == id {
          entries[i] := entries[i].(fileId := 0, id := -1, size := 0, groupId := 0, kind := FREE_KIND,
                                    nameLen := 0, name := " ");
          return 0;
        }
      }
      status := -1;
    }

    // --------------------------------------------------------------- listing

    static method Listed(names: seq<string>, c: string) returns (found: bool)
      ensures found <==> c in names
    {
      for j := 0 to |names|
        invariant c !in names[..j]
      {
        if names[j] == c {
          return true;
        }
      }
      found := false;
    }

    method ListDir(dir: string) returns (listing: Listing)
      requires Shaped()
      ensures listing == Directories.ListDir(View().table, dir, INODES)
    {
      hide Shown, VolumeOf, BlocksOf, MapOf, Bits;
      var names: seq<string>, text := [], "";
      for i := 0 to INODES
        invariant Listing(names, text) == Directories.ListDir(entries[..], dir, i)
      {
        var c := Shown(entries[i].name, dir);
        if |c| > 0 {
          var found := Listed(names, c);
          if !found {
            names := names + [c];
            text := text + c + if entries[i].kind == FILE_KIND then "\n" else "/\n";
          }
        }
      }
      listing := Listing(names, text);
    }

    method SearchDir(pwd: string, name: string) returns (found: bool)
      requires Shaped()
      ensures found <==> Directories.SearchDir(View().table, pwd, name)
    {
      found := false;
      var listing := ListDir(pwd);
      if Occurs(listing.text, name) {
        for i := 0 to INODES
          invariant found <==> exists j :: 0 <= j < i && entries[..][j].name == pwd && entries[..][j].kind == DIR_KIND
        {
          assert entries[..][i] == entries[i];
          if entries[i].name == pwd && entries[i].kind == DIR_KIND {
            found := true;
          }
        }
      }
    }

    // ------------------------------------------------------------ operations

    method CreateFile(pwd: string, name: string) returns (status: int)
      requires Valid() && IsCString(pwd) && IsCString(name)
      modifies inodes.store.image, inodes.superblock, entries
      ensures Valid() && (View(), status) == Directories.CreateFile(old(View()), pwd, name)
    {
      hide Inv, Volumes.CreateInode;
      ghost var s := View();
      CreateFileKeepsInv(s, pwd, name);
      var total := |pwd| + |name|;
      if total > 32 {
        return -1;
      }
      var path := Cut(Join(pwd, name));
      var slot := GetInodeFromPath(path);
      if slot < INODES {
        return -2;
      }
      CutIsGood(pwd, name);
      var made, ok := inodes.CreateInode(NewFile(pwd, name));
      if ok {
        var inserted := InsertInode(made);
      } else {
        FailedCreate(s.vol, NewFile(pwd, name));
      }
      status := 0;
    }

    static lemma FailedCreate(v: Volume, node: Inode)
      requires |v.recs| == INODES
      ensures !CreateInode(v, node).2 ==> CreateInode(v, node).0 == v
    {}

    method CreateDir(pwd: string, name: string, statSize: int) returns (status: int)
      requires Valid() && IsCString(pwd) && IsCString(name) && Int32(statSize)
      modifies inodes.store.image, inodes.superblock, entries
      ensures Valid() && (View(), status) == Directories.CreateDir(old(View()), pwd, name, statSize)
    {
      hide Inv, Volumes.CreateInode, VolumeOf, BlocksOf, MapOf, Bits, Directories.SearchDir;
      ghost var s := View();
      CreateDirKeepsInv(s, pwd, name, statSize);
      CutIsGood(pwd, name);
      var path := Cut(Join(pwd, name));
      var found := SearchDir(pwd, name);
      if found {
        return -1;
      }
      for i := 0 to INODES
        invariant Shaped()
        invariant PlaceDir(s, path, statSize, 0) == PlaceDir(View(), path, statSize, i)
      {
        if |entries[i].name| < 1 {
          ghost var table := entries[..];
          var node := entries[i].(name := path, nameLen := |path|, kind := DIR_KIND, size := statSize);
          entries[i] := node;
          var made, ok := inodes.CreateInode(node);
          entries[i] := made;
          assert entries[..] == table[i := made];
          if ok {
            return 0;
          }
        }
      }
      status := -1;
    }

    /** delete_dir: the first directory of that path, refused while list_dir shows anything. */
    method DeleteDir(pwd: string, name: string) returns (status: int)
      requires Valid() && Join(pwd, name) != "/"
      modifies inodes.store.image, inodes.superblock, entries
      ensures Valid() && (View(), status) == Directories.DeleteDir(old(View()), pwd, name)
    {
      hide Inv, VolumeOf, BlocksOf, MapOf, Bits, Directories.ListDir;
      ghost var s := View();
      InvSlots(s);
      DeleteDirKeepsInv(s, pwd, name);
      var path := Join(pwd, name);
      var slot := FindDirSlot(path);
      if slot == INODES {
        return -1;
      }
      var listing := ListDir(path);
      if |listing.text| > 0 {
        return -1;
      }
      inodes.DeleteInode(entries[slot].id);
      entries[slot] := entries[slot].(nameLen := 0, kind := FREE_KIND, id := -1, name := "");
      assert entries[..] == s.table[slot := s.table[slot].(nameLen := 0, kind := FREE_KIND, id := -1, name := "")];
      status := 0;
    }

    method FindDirSlot(path: string) returns (slot: nat)
      requires Shaped()
      ensures slot == FindDir(View().table, path, 0)
    {
      for i := 0 to INODES
        invariant FindDir(entries[..], path, 0) == FindDir(entries[..], path, i)
      {
        if entries[i].name == path && entries[i].kind == DIR_KIND {
          return i;
        }
      }
      slot := INODES;
    }

    method ReadFileByPath(path: string) returns (result: ReadResult)
      requires Valid()
      ensures IsReading(View(), path, result)
    {
      hide Inv, VolumeOf, BlocksOf, MapOf, Bits, Volumes.ReadFile;
      InvSlots(View());
      var slot := GetInodeFromPath(path);
      if slot == INODES {
        return NoSuchFile;
      }
      FileSlot(View(), slot);
      var outcome := inodes.ReadFile(entries[slot]);
      result := Read(outcome);
    }

    /** write_file_by_path: the new size is in the table before the write starts. */
    method WriteFileByPath(path: string, buf: seq<byte>, size: int, beyond: seq<byte>) returns (status: int)
      requires Valid() && size < MAX_SIZE && |beyond| == BLOCK_SIZE
      modifies inodes.store.image, inodes.store.blockMap, entries
      ensures status == if size > 0 && FindFile(old(entries[..]), path, 0) == INODES then -1 else 0
      ensures Valid() && IsStep(old(View()), WriteTo(path, buf, size, beyond), View())
    {
      hide Inv, VolumeOf, BlocksOf, MapOf, Bits, Volumes.WriteFile, StrNCpy, DirectShape, Representable;
      ghost var s := View();
      InvSlots(s);
      WriteKeepsInv(s, path, buf, size, beyond);
      if size <= 0 {
        return 0;
      }
      var slot := GetInodeFromPath(path);
      if slot == INODES {
        return -1;
      }
      FileSlot(s, slot);
      SmallSize(s.table[slot], size);
      var copy := StrNCpy(buf, size);
      entries[slot] := entries[slot].(size := size);
      var made := inodes.WriteFile(entries[slot], copy + beyond);
      entries[slot] := made;
      assert entries[..] == s.table[slot := made];
      status := 0;
    }

    method DeleteFileByPath(path: string) returns (status: int)
      requires Valid() && path != ""
      modifies inodes.store.image, inodes.store.blockMap, inodes.superblock, entries
      ensures status == RemovalStatus(old(entries[..]), path)
      ensures Valid() && IsStep(old(View()), RemoveFile(path), View())
    {
      hide Inv, VolumeOf, BlocksOf, MapOf, Bits, Volumes.DeleteFile, DirectShape;
      ghost var s := View();
      InvSlots(s);
      DeleteFileKeepsInv(s, path);
      if path[|path| - 1] == '/' {
        return -1;
      }
      var slot := GetInodeFromPath(path);
      if slot == INODES {
        return -2;
      }
      FileSlot(s, slot);
      var id := entries[slot].id;
      inodes.DeleteFile(entries[slot]);
      status := DeleteInodeFromTable(id);
    }
  }

  /** One process stops, another comes up on its image: the same volume, and the same live records if
      and only if none was missing from the old table. */
  method Restart(d: Directory) returns (e: Directory)
    requires d.Valid()
    ensures fresh(e) && e.Valid() && ComesUpAs(d.View(), e.View())
  {
    hide Inv, ImageVolume, VolumeOf, Directories.InitDir, LiveRecords, NoneLost;
    d.inodes.ViewIsOnDisk();
    ghost var s := d.View();
    e := new Directory.Attach(d.inodes.store.image[..]);
    e.Remount(s);
  }
}
