/** Who owns which block: the invariant that ties the block bitmap, the inode bitmap and the
    pointers of the inode records together, and the proof that every volume operation keeps it. */
module Ownership {
  import opened Inodes
  import opened Volumes
  import opened Chains

  /** Pointer k of inode id, 0 when there is none. */
  function Pointer(v: Volume, id: int, k: int): int {
    if 0 <= id < |v.recs| && 0 <= k < |v.recs[id].num| then v.recs[id].num[k] else 0
  }

  /** The blocks an inode record points at. */
  ghost function Pointers(num: seq<int>): set<int> {
    set k | 0 <= k < |num| && num[k] != 0 :: num[k]
  }

  /** The blocks that live inode records point at. */
  ghost function Owned(v: Volume): set<int> {
    set id, k | id in v.iused && 0 <= k < NUM_ENTRIES && Pointer(v, id, k) != 0 :: Pointer(v, id, k)
  }

  /** A record under a set inode bit: its own id, a file or a directory, pointers of the direct shape. */
  predicate Good(n: Inode, id: int) {
    && n.id == id
    && Representable(n)
    && n.name != "" && n.name != " "
    && (n.kind == FILE_KIND || n.kind == DIR_KIND)
    && DirectShape(n.num)
    && (n.kind == FILE_KIND ==> 0 <= n.size < MAX_SIZE)
    && (n.kind == DIR_KIND ==> n.num[0] == 0)
  }

  ghost predicate RecordsGood(v: Volume)
    requires Sized(v)
  {
    forall id :: id in v.iused ==> Good(v.recs[id], id)
  }

  /** No block is owned by two (inode, index) pairs. */
  ghost predicate Disjoint(v: Volume) {
    forall a, j, b, k ::
      a in v.iused && b in v.iused && 0 <= j < NUM_ENTRIES && 0 <= k < NUM_ENTRIES
      && Pointer(v, a, j) == Pointer(v, b, k) != 0
      ==> a == b && j == k
  }

  /** The bit of every owned block is set, and below the id limit only theirs are. */
  ghost predicate Accounted(v: Volume) {
    && Owned(v) <= v.used
    && (forall x :: FIRST_DATA <= x < ID_LIMIT && x in v.used ==> x in Owned(v))
  }

  ghost predicate Sound(v: Volume) {
    Sized(v) && RecordsGood(v) && Disjoint(v) && Accounted(v)
  }

  /** The data-block bits no live inode accounts for; by `Accounted` they lie at or above the limit. */
  ghost function Leaked(v: Volume): set<int> {
    set x | x in v.used && FIRST_DATA <= x && x !in Owned(v)
  }

  // ------------------------------------------------- replacing one record

  /** The pointers of one record are distinct data blocks. */
  lemma OwnChain(v: Volume, id: int)
    requires Sound(v) && id in v.iused
    ensures Chain(v, v.recs[id].num, NUM_ENTRIES)
    ensures Pointers(v.recs[id].num) <= Owned(v)
  {
    var num := v.recs[id].num;
    forall i, j | 0 <= i < j < NUM_ENTRIES && num[i] == num[j]
      ensures num[i] == 0
    {
      assert Pointer(v, id, i) == Pointer(v, id, j);
    }
    forall i | 0 <= i < NUM_ENTRIES && num[i] != 0
      ensures num[i] in Owned(v) && FIRST_DATA <= num[i] < BLOCKS
    {
      assert Pointer(v, id, i) == num[i];
      assert Good(v.recs[id], id);
    }
  }

  /** A block of inode a is not among the blocks of another inode. */
  lemma NotAmong(v: Volume, a: int, k: int, id: int)
    requires Disjoint(v) && a in v.iused && id in v.iused && a != id
    requires 0 <= k < NUM_ENTRIES && Pointer(v, a, k) != 0
    requires 0 <= id < |v.recs| && |v.recs[id].num| == NUM_ENTRIES
    ensures Pointer(v, a, k) !in Pointers(v.recs[id].num)
  {
    forall j | 0 <= j < NUM_ENTRIES
      ensures v.recs[id].num[j] != Pointer(v, a, k)
    {
      assert v.recs[id].num[j] == Pointer(v, id, j);
    }
  }

  /** Installing a record for inode `node.id` (live already or newly made) takes its old blocks
      out of the owned set and puts its new ones in. */
  lemma OwnedAfterPut(v: Volume, w: Volume, node: Inode)
    requires Sized(v) && Disjoint(v)
    requires 0 <= node.id < INODES && |node.num| == NUM_ENTRIES
    requires w.recs == v.recs[node.id := node] && w.iused == v.iused + {node.id}
    requires node.id in v.iused ==> |v.recs[node.id].num| == NUM_ENTRIES
    ensures var mine := if node.id in v.iused then Pointers(v.recs[node.id].num) else {};
      Owned(w) == Owned(v) - mine + Pointers(node.num)
  {
    var mine := if node.id in v.iused then Pointers(v.recs[node.id].num) else {};
    var target := Owned(v) - mine + Pointers(node.num);
    forall x | x in Owned(w)
      ensures x in target
    {
      var id, k :| id in w.iused && 0 <= k < NUM_ENTRIES && Pointer(w, id, k) == x && x != 0;
      if id == node.id {
        assert node.num[k] == x;
      } else {
        assert Pointer(v, id, k) == x;
        if node.id in v.iused {
          NotAmong(v, id, k, node.id);
        }
      }
    }
    forall x | x in target
      ensures x in Owned(w)
    {
      if x in Pointers(node.num) {
        var k :| 0 <= k < NUM_ENTRIES && node.num[k] == x && x != 0;
        assert Pointer(w, node.id, k) == x;
      } else {
        var id, k :| id in v.iused && 0 <= k < NUM_ENTRIES && Pointer(v, id, k) == x && x != 0;
        assert id == node.id ==> x in mine;
        assert Pointer(w, id, k) == x;
      }
    }
  }

  /** The step every write, create and shrink goes through: a good record whose blocks are its
      own or fresh, and a block bitmap that follows, keep the volume sound. */
  lemma PutKeepsSound(v: Volume, w: Volume, node: Inode)
    requires Sound(v) && Sized(w) && Good(node, node.id) && 0 <= node.id < INODES
    requires w.recs == v.recs[node.id := node] && w.iused == v.iused + {node.id}
    requires Chain(w, node.num, NUM_ENTRIES)
    requires var mine := if node.id in v.iused then Pointers(v.recs[node.id].num) else {};
      && Pointers(node.num) !! Owned(v) - mine
      && (forall x :: FIRST_DATA <= x < ID_LIMIT ==> (x in w.used <==> x in Owned(v) - mine + Pointers(node.num)))
      && Owned(v) - mine <= w.used
    ensures Sound(w)
  {
    var mine := if node.id in v.iused then Pointers(v.recs[node.id].num) else {};
    assert node.id in v.iused ==> Good(v.recs[node.id], node.id);
    OwnedAfterPut(v, w, node);
    forall id | id in w.iused
      ensures Good(w.recs[id], id)
    {
      assert id != node.id ==> Good(v.recs[id], id);
    }
    DisjointAfterPut(v, w, node, mine);
  }

  lemma DisjointAfterPut(v: Volume, w: Volume, node: Inode, mine: set<int>)
    requires Sound(v) && Sized(w) && |node.num| == NUM_ENTRIES && 0 <= node.id < INODES
    requires w.recs == v.recs[node.id := node] && w.iused == v.iused + {node.id}
    requires Chain(w, node.num, NUM_ENTRIES)
    requires mine == if node.id in v.iused then Pointers(v.recs[node.id].num) else {}
    requires Pointers(node.num) !! Owned(v) - mine
    ensures Disjoint(w)
  {
    forall a, j, b, k |
      a in w.iused && b in w.iused && 0 <= j < NUM_ENTRIES && 0 <= k < NUM_ENTRIES
      && Pointer(w, a, j) == Pointer(w, b, k) != 0
      ensures a == b && j == k
    {
      if a == node.id && b == node.id {
      } else if a == node.id {
        NotShared(v, node, mine, b, k, j);
      } else if b == node.id {
        NotShared(v, node, mine, a, j, k);
      } else {
        assert Pointer(v, a, j) == Pointer(v, b, k);
      }
    }
  }

  /** A block of another inode is not among the new record's blocks. */
  lemma NotShared(v: Volume, node: Inode, mine: set<int>, id: int, k: int, j: int)
    requires Sound(v) && |node.num| == NUM_ENTRIES && 0 <= node.id < INODES
    requires id in v.iused && id != node.id && 0 <= k < NUM_ENTRIES && 0 <= j < NUM_ENTRIES
    requires mine == if node.id in v.iused then Pointers(v.recs[node.id].num) else {}
    requires Pointers(node.num) !! Owned(v) - mine
    ensures Pointer(v, id, k) != 0 ==> Pointer(v, id, k) != node.num[j]
  {
    var x := Pointer(v, id, k);
    if node.id in v.iused {
      assert Good(v.recs[node.id], node.id);
      if x != 0 {
        NotAmong(v, id, k, node.id);
      }
    }
    assert x != 0 ==> x in Owned(v) && x !in mine;
    assert node.num[j] != 0 ==> node.num[j] in Pointers(node.num);
  }

  // ------------------------------------------------------------- create

  lemma CreateKeepsSound(v: Volume, node: Inode)
    requires Sound(v)
    requires Good(node.(id := 0, fileId := 0, groupId := 0, num := NoPointers()), 0)
    ensures Sound(CreateInode(v, node).0)
    ensures Owned(CreateInode(v, node).0) == Owned(v)
  {
    var r := CreateInode(v, node);
    FirstFreeInodeIsLeast(v.iused, 0);
    if r.2 {
      assert Pointers(r.1.num) == {};
      OwnedAfterPut(v, r.0, r.1);
      NoPointersShape();
      PutKeepsSound(v, r.0, r.1);
    }
  }

  lemma NoPointersShape()
    ensures DirectShape(NoPointers()) && Count(NoPointers(), 0) == 0
  {}

  // -------------------------------------------------------------- delete

  lemma OwnedAfterClear(v: Volume, w: Volume, id: int)
    requires Sound(v) && id in v.iused
    requires w.recs == v.recs && w.iused == v.iused - {id}
    ensures Owned(w) == Owned(v) - Pointers(v.recs[id].num)
  {
    forall x | x in Owned(w)
      ensures x in Owned(v) && x !in Pointers(v.recs[id].num)
    {
      var a, k :| a in w.iused && 0 <= k < NUM_ENTRIES && Pointer(w, a, k) == x && x != 0;
      assert Pointer(v, a, k) == x;
      assert Good(v.recs[id], id);
      NotAmong(v, a, k, id);
    }
    forall x | x in Owned(v) && x !in Pointers(v.recs[id].num)
      ensures x in Owned(w)
    {
      var a, k :| a in v.iused && 0 <= k < NUM_ENTRIES && Pointer(v, a, k) == x && x != 0;
      assert Pointer(v, id, k) == v.recs[id].num[k];
      assert Pointer(w, a, k) == x;
    }
  }

  /** Dropping a live inode together with its blocks below the limit keeps the volume sound. */
  lemma ClearKeepsSound(v: Volume, w: Volume, id: int)
    requires Sound(v) && id in v.iused
    requires w.data == v.data && w.recs == v.recs && w.iused == v.iused - {id}
    requires w.used == v.used - (set x | x in Pointers(v.recs[id].num) && x < ID_LIMIT)
    ensures Sound(w)
    ensures Owned(w) == Owned(v) - Pointers(v.recs[id].num)
  {
    OwnedAfterClear(v, w, id);
    assert Good(v.recs[id], id);
    OwnChain(v, id);
    forall a | a in w.iused
      ensures Good(w.recs[a], a)
    {
      assert Good(v.recs[a], a);
    }
    forall a, j, b, k |
      a in w.iused && b in w.iused && 0 <= j < NUM_ENTRIES && 0 <= k < NUM_ENTRIES
      && Pointer(w, a, j) == Pointer(w, b, k) != 0
      ensures a == b && j == k
    {
      assert Pointer(v, a, j) == Pointer(v, b, k);
    }
  }

  /** The stop-at-first-zero loop of delete_file frees every owned block below the limit. */
  lemma DeleteKeepsSound(v: Volume, id: int)
    requires Sound(v) && id in v.iused
    ensures Good(v.recs[id], id)
    ensures var w := DeleteFile(v, v.recs[id]);
      && Sound(w)
      && w.data == v.data && w.recs == v.recs && w.iused == v.iused - {id}
      && Owned(w) == Owned(v) - Pointers(v.recs[id].num)
      && w.used == v.used - (set x | x in Pointers(v.recs[id].num) && x < ID_LIMIT)
  {
    assert Good(v.recs[id], id);
    var num := v.recs[id].num;
    var p := Count(num, 0);
    ReleaseFacts(v, num, 0, p, ID_LIMIT);
    assert Released(num, 0, p, ID_LIMIT) == set x | x in Pointers(num) && x < ID_LIMIT;
    ClearKeepsSound(v, DeleteFile(v, v.recs[id]), id);
  }
}
