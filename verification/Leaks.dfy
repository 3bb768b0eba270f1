/** Blocks lost for good. delete_block refuses ids from 2048 on, so a block up there whose inode gives
    it up keeps its bit and belongs to nobody. This module says exactly when that happens, that it
    does happen, and when a file's life gives the whole block bitmap back. */
module Leaks {
  import opened Bytes
  import opened Inodes
  import opened Volumes
  import opened Chains
  import opened Ownership
  import opened Writing
  import opened Directories
  import opened Invariant
  import opened Runs
  import opened Effects

  // --------------------------------------------------------------- the law

  /** No step clears a bit at or above the limit of delete_block. */
  lemma HighBitsStay(s: FS, step: Step)
    requires Inv(s) && Allowed(step)
    ensures forall x :: x in s.vol.used && x >= ID_LIMIT ==> x in Next(s, step).vol.used
  {
    hide Inv, Next, Target, OwnBlocks;
    StepBits(s, step);
  }

  lemma {:induction false} HighBitsStayOverRuns(s: FS, steps: seq<Step>)
    requires Inv(s) && AllAllowed(steps)
    ensures forall x :: x in s.vol.used && x >= ID_LIMIT ==> x in Run(s, steps).vol.used
    decreases |steps|
  {
    hide Inv, Next;
    if steps != [] {
      HighBitsStay(s, steps[0]);
      HighBitsStayOverRuns(Next(s, steps[0]), steps[1..]);
    }
  }

  /** The blocks a step takes off its target that delete_block would refuse. */
  ghost function LostBlocks(s: FS, step: Step): set<int>
    requires Inv(s) && Allowed(step)
  {
    var id := Target(s, step);
    set x | x in OwnBlocks(s.vol, id) && x !in OwnBlocks(Next(s, step).vol, id) && x >= ID_LIMIT
  }

  /** What a step leaks, exactly: the blocks from id 2048 on that its target owned before and no longer
      owns after. Nothing leaked is ever recovered. */
  lemma LeakLaw(s: FS, step: Step)
    requires Inv(s) && Allowed(step)
    ensures Leaked(Next(s, step).vol) == Leaked(s.vol) + LostBlocks(s, step)
    ensures Leaked(s.vol) !! LostBlocks(s, step)
  {
    hide Inv, Next, Target, OwnBlocks, Owned;
    StepBits(s, step);
    OwnedInUse(s);
    LeaksFollow(s.vol, Next(s, step).vol, Target(s, step));
  }

  lemma LeaksFollow(v: Volume, w: Volume, id: int)
    requires BitsFollow(v, w, id) && forall x :: x in Owned(v) ==> FIRST_DATA <= x && x in v.used
    ensures var lost := set x | x in OwnBlocks(v, id) && x !in OwnBlocks(w, id) && x >= ID_LIMIT;
      Leaked(w) == Leaked(v) + lost && Leaked(v) !! lost
  {
    hide OwnBlocks, Owned;
    var lost := set x | x in OwnBlocks(v, id) && x !in OwnBlocks(w, id) && x >= ID_LIMIT;
    forall x | x in Leaked(w)
      ensures x in Leaked(v) + lost
    {
      assert x !in GivenUp(OwnBlocks(v, id), OwnBlocks(w, id));
    }
    forall x | x in Leaked(v)
      ensures x in Leaked(w) && x !in lost
    {
      assert x !in OwnBlocks(v, id);
      assert x !in FreeIds(v) && x !in OwnBlocks(w, id) - OwnBlocks(v, id);
    }
    forall x | x in lost
      ensures x in Leaked(w)
    {
      assert x in Owned(v) && x !in GivenUp(OwnBlocks(v, id), OwnBlocks(w, id));
    }
  }

  lemma OwnedInUse(s: FS)
    requires Inv(s)
    ensures forall x :: x in Owned(s.vol) ==> FIRST_DATA <= x < BLOCKS && x in s.vol.used
  {
    OwnedRange(s.vol);
  }

  /** So leaks add up over runs and are never undone. */
  lemma {:induction false} LeaksStayOverRuns(s: FS, steps: seq<Step>)
    requires Inv(s) && AllAllowed(steps)
    ensures Leaked(s.vol) <= Leaked(Run(s, steps).vol)
    decreases |steps|
  {
    hide Inv, Next, Leaked;
    if steps != [] {
      LeakLaw(s, steps[0]);
      LeaksStayOverRuns(Next(s, steps[0]), steps[1..]);
    }
  }

  /** A removal leaks exactly the file's blocks from id 2048 on. */
  lemma RemovalLeaksIff(s: FS, path: string)
    requires Inv(s) && path != "" && !EndsInSlash(path) && FindFile(s.table, path, 0) < |s.table|
    ensures var num := s.table[FindFile(s.table, path, 0)].num;
      && Leaked(Next(s, RemoveFile(path)).vol) == Leaked(s.vol) + (set x | x in Pointers(num) && x >= ID_LIMIT)
      && (Leaked(Next(s, RemoveFile(path)).vol) == Leaked(s.vol) <==>
            forall k :: 0 <= k < Count(num, 0) ==> num[k] < ID_LIMIT)
  {
    hide Inv, Leaked, DeleteFile, DirectShape;
    var step := RemoveFile(path);
    LeakLaw(s, step);
    var num := FileRemoved(s, path);
    PrefixPointers(num);
    assert LostBlocks(s, step) == set x | x in Pointers(num) && x >= ID_LIMIT;
    NothingNew(Leaked(s.vol), LostBlocks(s, step));
    HighAmong(num, Pointers(num), 0);
  }

  /** No id from 2048 on among the pointers from lo on. */
  lemma HighAmong(num: seq<int>, ids: set<int>, lo: int)
    requires Count(num, 0) <= |num| && ids == set k | 0 <= k < Count(num, 0) && lo <= k :: num[k]
    ensures (set x | x in ids && x >= ID_LIMIT) == {}
      <==> forall k :: 0 <= k < Count(num, 0) && lo <= k ==> num[k] < ID_LIMIT
  {
    var high := set x | x in ids && x >= ID_LIMIT;
    forall k | 0 <= k < Count(num, 0) && lo <= k
      ensures num[k] in high <==> num[k] >= ID_LIMIT
    {}
  }

  lemma NothingNew(a: set<int>, b: set<int>)
    requires a !! b
    ensures a + b == a <==> b == {}
  {
    if a + b == a {
      assert forall x :: x in b ==> x in a + b;
    }
  }

  lemma FileRemoved(s: FS, path: string) returns (num: seq<int>)
    requires Inv(s) && path != "" && !EndsInSlash(path) && FindFile(s.table, path, 0) < |s.table|
    ensures num == s.table[FindFile(s.table, path, 0)].num && DirectShape(num)
    ensures var id := Target(s, RemoveFile(path));
      OwnBlocks(s.vol, id) == Pointers(num) && OwnBlocks(Next(s, RemoveFile(path)).vol, id) == {}
  {
    hide DeleteFile;
    var slot := FindFile(s.table, path, 0);
    InvReadable(s);
    LiveSlot(s, slot);
    num := s.table[slot].num;
    DeleteKeepsSound(s.vol, s.table[slot].id);
  }

  lemma PrefixPointers(num: seq<int>)
    requires DirectShape(num)
    ensures Pointers(num) == set k | 0 <= k < Count(num, 0) :: num[k]
  {}

  /** A write leaks exactly the blocks from id 2048 on among those its shrink branch drops; without
      shrinking, none. */
  lemma WriteLeaksIff(s: FS, path: string, buf: seq<byte>, size: int, beyond: seq<byte>)
    requires Inv(s) && 0 < size < MAX_SIZE && |beyond| == BLOCK_SIZE && FindFile(s.table, path, 0) < |s.table|
    ensures var t := Next(s, WriteTo(path, buf, size, beyond));
      var num := s.table[FindFile(s.table, path, 0)].num;
      var b, n := Count(num, 0), BlocksFor(size);
      && Leaked(t.vol) == Leaked(s.vol) + (set x | x in Dropped(num, n) && x >= ID_LIMIT)
      && (Leaked(t.vol) == Leaked(s.vol) <==> b <= n || forall k :: b - n <= k < b ==> num[k] < ID_LIMIT)
  {
    hide Inv, Leaked, WriteFile;
    var step := WriteTo(path, buf, size, beyond);
    LeakLaw(s, step);
    FileWritten(s, path, buf, size, beyond);
    var num, n := s.table[FindFile(s.table, path, 0)].num, BlocksFor(size);
    assert LostBlocks(s, step) == set x | x in Dropped(num, n) && x >= ID_LIMIT;
    NothingNew(Leaked(s.vol), LostBlocks(s, step));
    if Count(num, 0) > n {
      HighAmong(num, Dropped(num, n), Count(num, 0) - n);
    }
  }

  lemma FileWritten(s: FS, path: string, buf: seq<byte>, size: int, beyond: seq<byte>)
    requires Inv(s) && 0 < size < MAX_SIZE && |beyond| == BLOCK_SIZE && FindFile(s.table, path, 0) < |s.table|
    ensures var step := WriteTo(path, buf, size, beyond);
      var id, num := Target(s, step), s.table[FindFile(s.table, path, 0)].num;
      && OwnBlocks(s.vol, id) - OwnBlocks(Next(s, step).vol, id) == Dropped(num, BlocksFor(size))
      && Count(num, 0) < DIRECT
  {
    hide WriteFile, Disjoint, Accounted, RecordsGood, RootInPlace, SlotsSuffice, GivenUp;
    var slot := FindFile(s.table, path, 0);
    InvReadable(s);
    LiveSlot(s, slot);
    WriteKeepsSound(s.vol, s.table[slot].(size := size), StrNCpy(buf, size) + beyond);
  }

  // -------------------------------------------------------- first fit

  ghost function LowFree(v: Volume): set<int> {
    set x | FIRST_DATA <= x < ID_LIMIT && x !in v.used
  }

  ghost function HighFree(v: Volume): set<int> {
    set x | ID_LIMIT <= x < BLOCKS && x !in v.used
  }

  lemma FreeSplits(v: Volume)
    ensures |FreeIds(v)| == |LowFree(v)| + |HighFree(v)|
  {
    assert FreeIds(v) == LowFree(v) + HighFree(v) && LowFree(v) !! HighFree(v);
  }

  lemma LowOne(v: Volume, d: seq<byte>)
    requires Sized(v)
    ensures var (w, id) := WriteBlock(v, d);
      && (LowFree(v) != {} ==>
            0 < id < ID_LIMIT && FreeIds(v) != {} && |LowFree(w)| == |LowFree(v)| - 1)
      && (LowFree(v) == {} ==> LowFree(w) == {} && (FreeIds(v) != {} ==> id >= ID_LIMIT))
  {
    hide Sized, Padded;
    AllocateOne(v, d);
    FirstFreeIsLeast(v.used, FIRST_DATA);
    var (w, id) := WriteBlock(v, d);
    if LowFree(v) != {} {
      var x :| x in LowFree(v);
      assert x in FreeIds(v) && id in LowFree(v);
      assert LowFree(w) == LowFree(v) - {id};
    } else if FreeIds(v) != {} {
      FreeIdsRange(v);
      assert id !in LowFree(v);
      assert LowFree(w) <= LowFree(v);
    }
  }

  /** First fit uses up the free ids below the limit before it hands out any other. */
  lemma {:induction false} FirstFitLow(v: Volume, chunks: seq<seq<byte>>, k: nat)
    requires k <= |chunks| && Sized(v)
    ensures var r := Allocate(v, chunks, k);
      && (forall i :: 0 <= i < Min(k, |FreeIds(v)|) ==> (r.1[i] < ID_LIMIT <==> i < |LowFree(v)|))
      && |LowFree(r.0)| == |LowFree(v)| - Min(k, |LowFree(v)|)
  {
    hide WriteBlock, FreeIds, LowFree, HighFree, Sized, Elems, Distinct;
    if k > 0 {
      FirstFitLow(v, chunks, k - 1);
      AllocateFacts(v, chunks, k - 1);
      var q := Allocate(v, chunks, k - 1);
      LowOne(q.0, chunks[k - 1]);
      FreeSplits(v);
      FreeSplits(q.0);
      assert Allocate(v, chunks, k).1 == q.1 + [WriteBlock(q.0, chunks[k - 1]).1];
    }
  }

  /** The new pointers of a growing file: below the limit exactly as long as low ids last. */
  lemma GrownLow(v: Volume, node: Inode, mem: seq<byte>)
    requires LiveFile(v, node) && Writable(v, node, mem) && Count(node.num, 0) < BlocksFor(node.size)
    ensures var b, n, num := Count(node.num, 0), BlocksFor(node.size), WriteFile(v, node, mem).1.num;
      && |num| == NUM_ENTRIES && (forall i :: 0 <= i < b ==> num[i] == node.num[i])
      && (forall i :: b <= i < FinalCount(b, n, |FreeIds(v)|) && i < NUM_ENTRIES ==>
            (num[i] < ID_LIMIT <==> i - b < |LowFree(v)|))
  {
    hide Allocate, Rewrite, Chunks, FreeIds, LowFree, LiveFile, Good, DirectShape, Sized, Chain, Pointers, Count;
    LiveFileGood(v, node);
    var b, n := Count(node.num, 0), BlocksFor(node.size);
    var chunks := Chunks(mem, node.size);
    RewriteShell(v, node, chunks, b);
    var v1 := Rewrite(v, node.num, chunks, b, ID_LIMIT);
    FirstFitLow(v1, chunks[b..], n - b);
    SameLowFree(v, v1);
    var ids := Allocate(v1, chunks[b..], n - b).1;
    assert WriteFile(v, node, mem).1.num == node.num[..b] + ids + node.num[n..];
    GrownIndex(node.num, b, n, ids);
  }

  lemma SameLowFree(v: Volume, w: Volume)
    requires w.used == v.used
    ensures LowFree(w) == LowFree(v)
  {}

  lemma GrownIndex(num: seq<int>, b: nat, n: nat, ids: seq<int>)
    requires b <= n <= |num| && |ids| == n - b
    ensures var grown := num[..b] + ids + num[n..];
      && |grown| == |num| && (forall i :: 0 <= i < b ==> grown[i] == num[i])
      && (forall i :: b <= i < n ==> grown[i] == ids[i - b])
  {}

  // -------------------------------------------------- a file's whole life

  /** t is s plus the file `path`, and the block bitmap is that of s plus the file's blocks, none of
      them beyond the reach of delete_block. */
  ghost predicate LowSoFar(s: FS, t: FS, path: string, id: int) {
    && OneMore(s, t, path, id) && 0 <= id < |t.vol.recs|
    && (var mine := Pointers(t.vol.recs[id].num);
        t.vol.used == s.vol.used + mine && mine !! s.vol.used && forall x :: x in mine ==> x < ID_LIMIT)
  }

  /** From c blocks in use, `low` free ids below 2048 and `high` above when the file was made: does no
      write of the list have to take an id from 2048 on? */
  predicate StaysLow(low: nat, high: nat, c: nat, jobs: seq<Job>)
    requires c <= low
    decreases |jobs|
  {
    if jobs == [] then true
    else if jobs[0].size <= 0 then StaysLow(low, high, c, jobs[1..])
    else
      var n := BlocksFor(jobs[0].size);
      && (n <= c || n <= low || high == 0)
      && StaysLow(low, high, FinalCount(c, n, low - c + high), jobs[1..])
  }

  lemma {:induction false} DistinctCard(ids: seq<int>)
    requires Distinct(ids)
    ensures |Elems(ids)| == |ids|
  {
    if ids != [] {
      var k := |ids| - 1;
      DistinctCard(ids[..k]);
      assert ids == ids[..k] + [ids[k]];
      AppendId(ids[..k], ids[k]);
      InElems(ids[..k], ids[k]);
    }
  }

  /** As many blocks as the pointer prefix is long. */
  lemma PointerCount(v: Volume, id: int)
    requires Sound(v) && id in v.iused
    ensures Good(v.recs[id], id)
    ensures |Pointers(v.recs[id].num)| == Count(v.recs[id].num, 0)
    ensures forall x :: x in Pointers(v.recs[id].num) ==> FIRST_DATA <= x < BLOCKS
  {
    assert Good(v.recs[id], id);
    var num := v.recs[id].num;
    var ids := num[..Count(num, 0)];
    OwnChain(v, id);
    DistinctCard(ids);
    forall x | x in Pointers(num)
      ensures x in Elems(ids)
    {
      var k :| 0 <= k < |num| && num[k] == x && x != 0;
      assert ids[k] == x;
    }
    assert Pointers(num) == Elems(ids);
  }

  lemma LowCounts(s: FS, t: FS, path: string, id: int)
    requires LowSoFar(s, t, path, id)
    ensures Inv(t)
    ensures var c := Count(t.vol.recs[id].num, 0);
      && c <= |LowFree(s.vol)|
      && |LowFree(t.vol)| == |LowFree(s.vol)| - c
      && |FreeIds(t.vol)| == |LowFree(s.vol)| - c + |HighFree(s.vol)|
      && HighFree(t.vol) == HighFree(s.vol)
  {
    hide Sound, TableAgrees, RootInPlace, SlotsSuffice, Good, Pointers;
    PointerCount(t.vol, id);
    var mine := Pointers(t.vol.recs[id].num);
    assert mine <= LowFree(s.vol);
    assert LowFree(t.vol) == LowFree(s.vol) - mine;
    SubsetCard(mine, LowFree(s.vol));
    assert HighFree(t.vol) == HighFree(s.vol);
    FreeSplits(t.vol);
  }

  /** One write of the list: either the picture stays, or a bit from id 2048 on has been set that was
      clear when the file was made. */
  lemma WriteStaysLow(s: FS, t: FS, path: string, id: int, job: Job)
    requires LowSoFar(s, t, path, id) && Allowed(WriteTo(path, job.buf, job.size, job.beyond)) && job.size > 0
    ensures Count(t.vol.recs[id].num, 0) <= |LowFree(s.vol)|
    ensures var u := Next(t, WriteTo(path, job.buf, job.size, job.beyond));
      var c, n, low, high :=
        Count(t.vol.recs[id].num, 0), BlocksFor(job.size), |LowFree(s.vol)|, |HighFree(s.vol)|;
      if n <= c || n <= low || high == 0 then
        LowSoFar(s, u, path, id) && Count(u.vol.recs[id].num, 0) == FinalCount(c, n, low - c + high)
      else
        exists x :: x in u.vol.used && x !in s.vol.used && x >= ID_LIMIT
  {
    hide Sound, RootInPlace, SlotsSuffice, WriteFile, FreeIds, LowFree, HighFree;
    var step := WriteTo(path, job.buf, job.size, job.beyond);
    InvReadable(t);
    LowCounts(s, t, path, id);
    WriteKeepsOneMore(s, t, path, id, job);
    var slot := FindFile(t.table, path, 0);
    LiveSlot(t, slot);
    var node, mem := t.table[slot].(size := job.size), StrNCpy(job.buf, job.size) + job.beyond;
    LiveFileGood(t.vol, node);
    WriteKeepsSound(t.vol, node, mem);
    var num := WriteFile(t.vol, node, mem).1.num;
    var u := Next(t, step);
    assert u.vol == WriteFile(t.vol, node, mem).0 && u.vol.recs[id].num == num;
    HeightOfWrite(t.vol, node, mem, |LowFree(s.vol)|, |HighFree(s.vol)|);
    BitsOfWrite(s.vol, t.vol, u.vol, Pointers(node.num), Pointers(num));
  }

  /** Which of the pointers after a write lie below the limit. */
  lemma HeightOfWrite(v: Volume, node: Inode, mem: seq<byte>, low: nat, high: nat)
    requires LiveFile(v, node) && Writable(v, node, mem)
    requires forall x :: x in Pointers(node.num) ==> x < ID_LIMIT
    requires var c := Count(node.num, 0);
      c <= low && |LowFree(v)| == low - c && |FreeIds(v)| == low - c + high
    ensures var c, n := Count(node.num, 0), BlocksFor(node.size);
      (n <= c || n <= low || high == 0) <==>
        forall x :: x in Pointers(WriteFile(v, node, mem).1.num) ==> x < ID_LIMIT
  {
    hide Sound, WriteFile, FreeIds, LowFree, WriteEffect;
    LiveFileGood(v, node);
    WriteKeepsSound(v, node, mem);
    var c, n, num := Count(node.num, 0), BlocksFor(node.size), WriteFile(v, node, mem).1.num;
    PrefixPointers(num);
    PrefixPointers(node.num);
    if c < n {
      GrownLow(v, node, mem);
      forall i | 0 <= i < c
        ensures num[i] < ID_LIMIT
      {
        assert node.num[i] in Pointers(node.num);
      }
      if !(n <= low || high == 0) {
        assert num[low] in Pointers(num) && num[low] >= ID_LIMIT;
      }
    } else {
      assert Pointers(num) <= Pointers(node.num);
    }
  }

  lemma BitsOfWrite(s: Volume, v: Volume, w: Volume, before: set<int>, after: set<int>)
    requires v.used == s.used + before && before !! s.used && forall x :: x in before ==> x < ID_LIMIT
    requires w.used == v.used + after - GivenUp(before, after)
    requires forall x :: x in after ==> x in before || x in FreeIds(v)
    ensures if forall x :: x in after ==> x < ID_LIMIT then w.used == s.used + after && after !! s.used
            else exists x :: x in w.used && x !in s.used && x >= ID_LIMIT
  {
    FreeIdsRange(v);
    forall x | x in after
      ensures x !in s.used && x in w.used
    {
      assert x in before || x in FreeIds(v);
    }
    if forall x :: x in after ==> x < ID_LIMIT {
      assert GivenUp(before, after) == before - after;
    } else {
      var x :| x in after && x >= ID_LIMIT;
      assert x in w.used && x !in s.used;
    }
  }

  /** The rest of the life: the writes still to come, then the removal. */
  lemma {:induction false} RestOfLife(s: FS, t: FS, path: string, id: int, jobs: seq<Job>)
    requires LowSoFar(s, t, path, id) && AllAllowed(WritesTo(path, jobs)) && path != "" && !EndsInSlash(path)
    ensures Count(t.vol.recs[id].num, 0) <= |LowFree(s.vol)|
    ensures EndOfLife(t, path, jobs).vol.used == s.vol.used
      <==> StaysLow(|LowFree(s.vol)|, |HighFree(s.vol)|, Count(t.vol.recs[id].num, 0), jobs)
    decreases |jobs|
  {
    hide Inv, Next, LowSoFar, LowFree, HighFree, FinalCount;
    LowCounts(s, t, path, id);
    if jobs == [] {
      RemovalRestores(s, t, path, id);
    } else {
      var steps := WritesTo(path, jobs);
      assert steps[0] == WriteTo(path, jobs[0].buf, jobs[0].size, jobs[0].beyond);
      assert Allowed(steps[0]);
      assert steps[1..] == WritesTo(path, jobs[1..]);
      var u := Next(t, steps[0]);
      if jobs[0].size <= 0 {
        NothingWritten(t, path, jobs[0]);
        RestOfLife(s, t, path, id, jobs[1..]);
      } else {
        WriteStaysLow(s, t, path, id, jobs[0]);
        if x :| x in u.vol.used && x !in s.vol.used && x >= ID_LIMIT {
          HighBitsStayOverRuns(u, steps[1..]);
          HighBitsStay(Run(u, steps[1..]), RemoveFile(path));
        }
        if LowSoFar(s, u, path, id) {
          RestOfLife(s, u, path, id, jobs[1..]);
        }
      }
    }
  }

  lemma NothingWritten(t: FS, path: string, job: Job)
    requires Inv(t) && Allowed(WriteTo(path, job.buf, job.size, job.beyond)) && job.size <= 0
    ensures Next(t, WriteTo(path, job.buf, job.size, job.beyond)) == t
  {
    hide Sound;
    InvReadable(t);
  }

  lemma RemovalRestores(s: FS, t: FS, path: string, id: int)
    requires LowSoFar(s, t, path, id) && path != "" && !EndsInSlash(path)
    ensures Next(t, RemoveFile(path)).vol.used == s.vol.used
  {
    hide Sound, RootInPlace, SlotsSuffice, DeleteFile;
    InvReadable(t);
    LiveSlot(t, FindFile(t.table, path, 0));
    DeleteKeepsSound(t.vol, id);
    assert Next(t, RemoveFile(path)).vol == DeleteFile(t.vol, t.vol.recs[id]);
  }

  /** A file's life gives the whole block bitmap back if and only if none of its writes had to take
      an id from 2048 on, which the numbers of free ids on either side of 2048 decide beforehand. */
  lemma FileLifeConservesIff(s: FS, pwd: string, name: string, jobs: seq<Job>)
    requires Inv(s) && Allowed(MakeFile(pwd, name)) && AllAllowed(WritesTo(Cut(Join(pwd, name)), jobs))
    requires |pwd| + |name| <= 32 && FindFile(s.table, Cut(Join(pwd, name)), 0) == |s.table|
    requires EmptySlots(s.table) != {} && !EndsInSlash(Cut(Join(pwd, name)))
    ensures AfterFileLife(s, pwd, name, jobs).vol.used == s.vol.used
      <==> StaysLow(|LowFree(s.vol)|, |HighFree(s.vol)|, 0, jobs)
    ensures Leaked(AfterFileLife(s, pwd, name, jobs).vol) == Leaked(s.vol)
      <==> StaysLow(|LowFree(s.vol)|, |HighFree(s.vol)|, 0, jobs)
  {
    hide Inv, Next, LowFree, HighFree, EmptySlots, AfterFileLife, Restored;
    CutIsGood(pwd, name);
    var path := Cut(Join(pwd, name));
    var id, t := LifeStarts(s, pwd, name);
    assert AfterFileLife(s, pwd, name, jobs) == EndOfLife(t, path, jobs) by { LifeEnds(s, pwd, name, jobs); }
    RestOfLife(s, t, path, id, jobs);
    FileLifeRestoresBitmaps(s, pwd, name, jobs);
    SameOwnersSameLeaks(s, AfterFileLife(s, pwd, name, jobs));
  }

  lemma LifeEnds(s: FS, pwd: string, name: string, jobs: seq<Job>)
    requires Inv(s) && Allowed(MakeFile(pwd, name)) && AllAllowed(WritesTo(Cut(Join(pwd, name)), jobs))
    ensures Cut(Join(pwd, name)) != ""
    ensures AfterFileLife(s, pwd, name, jobs) == EndOfLife(Next(s, MakeFile(pwd, name)), Cut(Join(pwd, name)), jobs)
  {
    hide Inv, Next;
    CutIsGood(pwd, name);
  }

  /** With the same live records, two states leak the same blocks when their bitmaps agree. */
  lemma SameOwnersSameLeaks(s: FS, u: FS)
    requires Inv(s) && Inv(u) && Restored(s, u)
    ensures Leaked(u.vol) == Leaked(s.vol) <==> u.vol.used == s.vol.used
  {
    hide Owned, Leaked, TableAgrees, RootInPlace, SlotsSuffice, Disjoint, RecordsGood;
    SameRecordsSameBits(s.vol, u.vol);
    EveryBit(s.vol);
    EveryBit(u.vol);
    if u.vol.used == s.vol.used {
      LeakedOf(s.vol, u.vol);
    }
    if Leaked(u.vol) == Leaked(s.vol) {
      assert forall x :: x in u.vol.used <==> x in s.vol.used;
    }
  }

  lemma LeakedOf(v: Volume, w: Volume)
    requires w.used == v.used && Owned(w) == Owned(v)
    ensures Leaked(w) == Leaked(v)
  {}

  /** A set bit is reserved, owned or leaked. */
  lemma EveryBit(v: Volume)
    requires Sized(v) && Owned(v) <= v.used
    ensures forall x :: x in v.used <==> 0 <= x < FIRST_DATA || x in Owned(v) || x in Leaked(v)
  {
    hide Owned;
  }

  lemma LifeStarts(s: FS, pwd: string, name: string) returns (id: int, t: FS)
    requires Inv(s) && Allowed(MakeFile(pwd, name))
    requires |pwd| + |name| <= 32 && FindFile(s.table, Cut(Join(pwd, name)), 0) == |s.table|
    requires EmptySlots(s.table) != {}
    ensures t == Next(s, MakeFile(pwd, name)) && LowSoFar(s, t, Cut(Join(pwd, name)), id)
    ensures Count(t.vol.recs[id].num, 0) == 0
  {
    hide Sound, RootInPlace, SlotsSuffice, CreateFile, EmptySlots;
    InvReadable(s);
    id := CreateAddsOne(s, pwd, name);
    t := Next(s, MakeFile(pwd, name));
    assert t == CreateFile(s, pwd, name).0;
    NoPointersShape();
    MakeFileBits(s, pwd, name);
    assert -1 !in s.vol.iused && -1 !in t.vol.iused by { Ids(s.vol); Ids(t.vol); }
    assert Pointers(NoPointers()) == {};
  }

  lemma Ids(v: Volume)
    requires Sound(v)
    ensures forall x :: x in v.iused ==> 0 <= x < INODES
    ensures |v.recs| == INODES
  {}
}
