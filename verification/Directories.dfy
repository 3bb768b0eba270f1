/** The directory layer: a table of 4096 in-memory inodes keyed by full path, over a volume.
    The class in DirectoryTables.dfy is proved against these functions. */
module Directories {
  import opened Bytes
  import opened Inodes
  import opened Volumes

  datatype FS = FS(vol: Volume, table: seq<Inode>)

  // ------------------------------------------------------------------ paths

  /** "/name" under the root, "pwd/name" elsewhere. */
  function Join(pwd: string, name: string): (path: string)
    ensures path != ""
  {
    if pwd == "/" then "/" + name else pwd + "/" + name
  }

  /** `snprintf` into a 32-byte buffer keeps 31 characters. */
  function Cut(path: string): (name: string)
    ensures |name| < NAME_FIELD && name <= path
    ensures |name| < NAME_FIELD - 1 ==> name == path
  {
    if |path| < NAME_FIELD then path else path[..NAME_FIELD - 1]
  }

  /** A path component: nonempty and without separator. */
  predicate PlainName(name: string) {
    name != "" && '/' !in name
  }

  // ---------------------------------------------------------------- lookups

  /** A live slot of that name and kind. */
  ghost predicate NodeIn(table: seq<Inode>, path: string, kind: int) {
    exists i :: 0 <= i < |table| && IsNode(table[i], path, kind)
  }

  ghost predicate IsNode(n: Inode, path: string, kind: int) {
    n.id != -1 && n.kind == kind && n.name == path
  }

  /** The first live slot of that name and kind. */
  ghost predicate FirstNode(table: seq<Inode>, path: string, kind: int, slot: int) {
    && 0 <= slot < |table| && IsNode(table[slot], path, kind)
    && forall j :: 0 <= j < slot ==> !IsNode(table[j], path, kind)
  }

  /** get_inode_from_path: the first live slot holding a file of that name, |table| if none. */
  function FindFile(table: seq<Inode>, path: string, i: nat): (slot: nat)
    requires i <= |table|
    ensures i <= slot <= |table|
    ensures slot < |table| ==> table[slot].id != -1 && table[slot].name == path && table[slot].kind == FILE_KIND
    ensures forall j :: i <= j < slot ==> !(table[j].id != -1 && table[j].name == path && table[j].kind == FILE_KIND)
    decreases |table| - i
  {
    if i == |table| || (table[i].id != -1 && table[i].name == path && table[i].kind == FILE_KIND) then i
    else FindFile(table, path, i + 1)
  }

  /** The first slot holding a directory of that name, |table| if none. */
  function FindDir(table: seq<Inode>, path: string, i: nat): (slot: nat)
    requires i <= |table|
    ensures i <= slot <= |table|
    ensures slot < |table| ==> table[slot].name == path && table[slot].kind == DIR_KIND
    ensures forall j :: i <= j < slot ==> !(table[j].name == path && table[j].kind == DIR_KIND)
    decreases |table| - i
  {
    if i == |table| || (table[i].name == path && table[i].kind == DIR_KIND) then i
    else FindDir(table, path, i + 1)
  }

  /** The first slot holding the given inode id, |table| if none. */
  function FindId(table: seq<Inode>, id: int, i: nat): (slot: nat)
    requires i <= |table|
    ensures i <= slot <= |table|
    ensures slot < |table| ==> table[slot].id == id
    ensures forall j :: i <= j < slot ==> table[j].id != id
    decreases |table| - i
  {
    if i == |table| || table[i].id == id then i else FindId(table, id, i + 1)
  }

  /** Where insert_inode_into_table puts a node: the first slot without id and name, |table| if none. */
  function FindEmpty(table: seq<Inode>, i: nat): (slot: nat)
    requires i <= |table|
    ensures i <= slot <= |table|
    ensures slot < |table| ==> table[slot].id == -1 && table[slot].name == ""
    ensures forall j :: i <= j < slot ==> !(table[j].id == -1 && table[j].name == "")
    decreases |table| - i
  {
    if i == |table| || (table[i].id == -1 && table[i].name == "") then i else FindEmpty(table, i + 1)
  }

  // ---------------------------------------------------------------- listing

  function UpToSlash(s: string): (c: string)
    ensures c <= s && '/' !in c
    ensures c == "" <==> s == "" || s[0] == '/'
  {
    if s == "" || s[0] == '/' then "" else [s[0]] + UpToSlash(s[1..])
  }

  /** What list_dir shows of a path under `dir`: the component behind the raw string prefix.
      On an exact match the suffix read past the terminator counts as empty. */
  function Shown(name: string, dir: string): string {
    if !(dir <= name) then ""
    else if dir == "/" then UpToSlash(name[1..])
    else if |name| == |dir| then ""
    else UpToSlash(name[|dir| + 1..])
  }

  datatype Listing = Listing(names: seq<string>, text: string)

  /** list_dir: every shown component once, in table order. A slot that shows one is a file or a
      directory in every state the operations reach. */
  function ListDir(table: seq<Inode>, dir: string, k: nat): Listing
    requires k <= |table|
  {
    if k == 0 then Listing([], "")
    else
      var l := ListDir(table, dir, k - 1);
      var c := Shown(table[k - 1].name, dir);
      if c == "" || c in l.names then l
      else Listing(l.names + [c], l.text + c + if table[k - 1].kind == FILE_KIND then "\n" else "/\n")
  }

  /** `strstr(text, word) != NULL`. */
  predicate Occurs(text: string, word: string) {
    exists k :: 0 <= k <= |text| && word <= text[k..]
  }

  /** search_dir's guard: the name occurs somewhere in the listing text and pwd is a directory. */
  predicate SearchDir(table: seq<Inode>, pwd: string, name: string) {
    && Occurs(ListDir(table, pwd, |table|).text, name)
    && FindDir(table, pwd, 0) < |table|
  }

  // ------------------------------------------------------------- operations

  /** init_dir: the table is what the inode records say; the root is made if no slot is called "/". */
  function InitDir(v: Volume): FS
    requires |v.recs| == INODES
  {
    var t := seq(INODES, (i: int) requires 0 <= i < |v.recs| => QueryInode(v, i));
    if exists i :: 0 <= i < INODES && t[i].name == "/" then FS(v, t)
    else
      var (w, made, ok) := CreateInode(v, t[0].(name := "/", nameLen := 1, kind := DIR_KIND, size := 0));
      FS(w, t[0 := made.(id := if ok then 0 else -1)])
  }

  function NewFile(pwd: string, name: string): Inode {
    Inode(0, 0, FILE_KIND, |pwd| + |name|, 0, Cut(Join(pwd, name)), 0, NoPointers())
  }

  /** create_file: the status is 0 even when no inode or no table slot was left. */
  function CreateFile(s: FS, pwd: string, name: string): (FS, int)
    requires |s.vol.recs| == INODES
  {
    if |pwd| + |name| > 32 then (s, -1)
    else if FindFile(s.table, Cut(Join(pwd, name)), 0) < |s.table| then (s, -2)
    else
      var (w, made, ok) := CreateInode(s.vol, NewFile(pwd, name));
      if !ok then (s, 0)
      else
        var slot := FindEmpty(s.table, 0);
        (FS(w, if slot < |s.table| then s.table[slot := made] else s.table), 0)
  }

  /** create_dir once its guard has passed: the first nameless slot from i on that gets an inode. */
  function PlaceDir(s: FS, path: string, size: int, i: nat): (r: (FS, int))
    requires |s.vol.recs| == INODES && i <= |s.table|
    ensures |r.0.vol.recs| == INODES && |r.0.table| == |s.table|
    decreases |s.table| - i
  {
    if i == |s.table| then (s, -1)
    else if s.table[i].name != "" then PlaceDir(s, path, size, i + 1)
    else
      var node := s.table[i].(name := path, nameLen := |path|, kind := DIR_KIND, size := size);
      var (w, made, ok) := CreateInode(s.vol, node);
      var t := FS(w, s.table[i := made]);
      if ok then (t, 0) else PlaceDir(t, path, size, i + 1)
  }

  function CreateDir(s: FS, pwd: string, name: string, size: int): (FS, int)
    requires |s.vol.recs| == INODES
  {
    if SearchDir(s.table, pwd, name) then (s, -1)
    else PlaceDir(s, Cut(Join(pwd, name)), size, 0)
  }

  /** delete_dir: refused while the listing under the path is not empty. */
  function DeleteDir(s: FS, pwd: string, name: string): (FS, int) {
    var slot := FindDir(s.table, Join(pwd, name), 0);
    if slot == |s.table| || ListDir(s.table, Join(pwd, name), |s.table|).text != "" then (s, -1)
    else
      var node := s.table[slot];
      (FS(s.vol.(iused := s.vol.iused - {node.id}),
          s.table[slot := node.(nameLen := 0, kind := FREE_KIND, id := -1, name := "")]), 0)
  }

  /** delete_inode_from_table leaves a slot named " ", which insertion will not take. */
  function Tombstone(node: Inode): Inode {
    node.(fileId := 0, id := -1, size := 0, groupId := 0, kind := FREE_KIND, nameLen := 0, name := " ")
  }

  predicate EndsInSlash(path: string) {
    path != "" && path[|path| - 1] == '/'
  }

  function RemovalStatus(table: seq<Inode>, path: string): int {
    if EndsInSlash(path) then -1 else if FindFile(table, path, 0) == |table| then -2 else 0
  }

  function DeleteFileByPath(s: FS, path: string): (r: (FS, int))
    requires path != ""
    requires forall i :: 0 <= i < |s.table| && s.table[i].id != -1 ==> DirectShape(s.table[i].num)
    ensures r.1 == RemovalStatus(s.table, path)
  {
    var slot := FindFile(s.table, path, 0);
    if EndsInSlash(path) then (s, -1)
    else if slot == |s.table| then (s, -2)
    else
      var node := s.table[slot];
      var at := FindId(s.table, node.id, 0);
      (FS(DeleteFile(s.vol, node), s.table[at := Tombstone(s.table[at])]), 0)
  }

  datatype ReadResult = NoSuchFile | Read(outcome: Outcome)

  ghost predicate Readable(s: FS) {
    forall i :: 0 <= i < |s.table| && s.table[i].id != -1 && s.table[i].kind == FILE_KIND ==>
      && 0 <= s.table[i].size && DirectShape(s.table[i].num)
      && forall k :: 0 <= k < Count(s.table[i].num, 0) ==> s.table[i].num[k] in s.vol.data
  }

  function ReadFileByPath(s: FS, path: string): ReadResult
    requires Readable(s)
  {
    var slot := FindFile(s.table, path, 0);
    if slot == |s.table| then NoSuchFile else Read(ReadFile(s.vol, s.table[slot]))
  }

  /** write_file_by_path: `buf` is copied as a C string of at most `size` bytes; `beyond` is what
      happens to follow the copy in memory. */
  function WriteFileByPath(s: FS, path: string, buf: seq<byte>, size: int, beyond: seq<byte>): (r: (FS, int))
    requires size < MAX_SIZE && |beyond| == BLOCK_SIZE
    requires forall i :: 0 <= i < |s.table| && s.table[i].id != -1 ==>
      DirectShape(s.table[i].num) && 0 <= s.table[i].id < |s.vol.recs|
    ensures r.1 == if size > 0 && FindFile(s.table, path, 0) == |s.table| then -1 else 0
  {
    if size <= 0 then (s, 0)
    else
      var slot := FindFile(s.table, path, 0);
      if slot == |s.table| then (s, -1)
      else
        var (w, made) := WriteFile(s.vol, s.table[slot].(size := size), StrNCpy(buf, size) + beyond);
        (FS(w, s.table[slot := made]), 0)
  }
}
