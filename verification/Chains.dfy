/** What runs of block operations over a pointer chain do, for any chain and any id limit. */
module Chains {
  import opened Bytes
  import opened Volumes

  /** The first k pointers are allocated data blocks or 0, and no block occurs twice. */
  ghost predicate Chain(v: Volume, ptrs: seq<int>, k: nat)
    requires k <= |ptrs|
  {
    && (forall i :: 0 <= i < k && ptrs[i] != 0 ==> ptrs[i] in v.used && ptrs[i] in v.data && ptrs[i] > 0)
    && (forall i, j :: 0 <= i < j < k && ptrs[i] == ptrs[j] ==> ptrs[i] == 0)
  }

  /** The data of the first k blocks of a chain are overlaid where the limit allows, all else is kept. */
  ghost predicate Rewritten(v: Volume, ptrs: seq<int>, chunks: seq<seq<byte>>, k: nat, limit: int, r: Volume)
    requires k <= |ptrs| && k <= |chunks|
  {
    && r.used == v.used && r.iused == v.iused && r.recs == v.recs && r.data.Keys == v.data.Keys
    && (forall i :: 0 <= i < k && ptrs[i] != 0 ==>
          (ptrs[i] in v.data && ptrs[i] in r.data && r.data[ptrs[i]] ==
             if ptrs[i] < limit then Overlay(v.data[ptrs[i]], chunks[i]) else v.data[ptrs[i]]))
    && (forall x :: x in v.data && x !in ptrs[..k] ==> x in r.data && r.data[x] == v.data[x])
  }

  /** Rewriting a chain touches the data of its blocks below the limit and nothing else. */
  lemma {:induction false} RewriteFacts(v: Volume, ptrs: seq<int>, chunks: seq<seq<byte>>, k: nat, limit: int)
    requires k <= |ptrs| && k <= |chunks| && Chain(v, ptrs, k)
    ensures Rewritten(v, ptrs, chunks, k, limit, Rewrite(v, ptrs, chunks, k, limit))
  {
    hide ModifyBlock, Rewritten, Chain;
    if k == 0 {
      NothingRewritten(v, ptrs, chunks, limit);
    } else {
      ChainPrefix(v, ptrs, k - 1, k);
      RewriteFacts(v, ptrs, chunks, k - 1, limit);
      RewriteOne(v, ptrs, chunks, k - 1, limit, Rewrite(v, ptrs, chunks, k - 1, limit));
    }
  }

  lemma RewrittenAt(v: Volume, ptrs: seq<int>, chunks: seq<seq<byte>>, k: nat, limit: int, r: Volume, i: nat)
    requires k <= |ptrs| && k <= |chunks| && i < k && ptrs[i] != 0 && Rewritten(v, ptrs, chunks, k, limit, r)
    ensures ptrs[i] in v.data && ptrs[i] in r.data
    ensures r.data[ptrs[i]] == if ptrs[i] < limit then Overlay(v.data[ptrs[i]], chunks[i]) else v.data[ptrs[i]]
  {}

  lemma NothingRewritten(v: Volume, ptrs: seq<int>, chunks: seq<seq<byte>>, limit: int)
    ensures Rewritten(v, ptrs, chunks, 0, limit, v)
  {}

  lemma RewriteOne(v: Volume, ptrs: seq<int>, chunks: seq<seq<byte>>, k: nat, limit: int, q: Volume)
    requires k < |ptrs| && k < |chunks| && Chain(v, ptrs, k + 1) && Rewritten(v, ptrs, chunks, k, limit, q)
    ensures Rewritten(v, ptrs, chunks, k + 1, limit, ModifyBlock(q, ptrs[k], chunks[k], limit))
  {
    hide Overlay;
    var id := ptrs[k];
    assert ptrs[..k + 1] == ptrs[..k] + [id];
    assert id != 0 ==> id !in ptrs[..k];
  }

  /** Two chains that agree on the rewritten part are rewritten alike. */
  lemma {:induction false} RewriteOfPrefix(v: Volume, ptrs: seq<int>, qtrs: seq<int>,
      chunks: seq<seq<byte>>, dhunks: seq<seq<byte>>, k: nat, limit: int)
    requires k <= |ptrs| && k <= |chunks| && k <= |qtrs| && k <= |dhunks|
    requires ptrs[..k] == qtrs[..k] && chunks[..k] == dhunks[..k]
    ensures Rewrite(v, ptrs, chunks, k, limit) == Rewrite(v, qtrs, dhunks, k, limit)
  {
    if k > 0 {
      assert ptrs[..k - 1] == ptrs[..k][..k - 1] == qtrs[..k - 1];
      assert chunks[..k - 1] == chunks[..k][..k - 1] == dhunks[..k - 1];
      RewriteOfPrefix(v, ptrs, qtrs, chunks, dhunks, k - 1, limit);
      assert ptrs[k - 1] == ptrs[..k][k - 1] == qtrs[k - 1];
      assert chunks[k - 1] == chunks[..k][k - 1] == dhunks[k - 1];
    }
  }

  function Min(a: nat, b: nat): nat {
    if a < b then a else b
  }

  ghost predicate Distinct(ids: seq<int>) {
    forall i, j :: 0 <= i < j < |ids| ==> ids[i] != ids[j]
  }

  ghost function Elems(ids: seq<int>): set<int> {
    set x | x in ids
  }

  /** What k allocations starting from v leave behind: fresh, distinct blocks until the disk is
      full and ids of 0 from then on, and exactly the bits of those blocks set. */
  ghost predicate Allocated(v: Volume, k: nat, w: Volume, ids: seq<int>) {
    var m := Min(k, |FreeIds(v)|);
    && |ids| == k
    && Sized(w) && w.iused == v.iused && w.recs == v.recs
    && w.used == v.used + Elems(ids[..m])
    && FreeIds(w) == FreeIds(v) - Elems(ids[..m])
    && |FreeIds(w)| == |FreeIds(v)| - m
    && Elems(ids[..m]) <= FreeIds(v)
    && (forall i :: m <= i < k ==> ids[i] == 0)
    && Distinct(ids[..m])
  }

  lemma {:induction false} AllocateFacts(v: Volume, chunks: seq<seq<byte>>, k: nat)
    requires k <= |chunks| && Sized(v)
    ensures Allocated(v, k, Allocate(v, chunks, k).0, Allocate(v, chunks, k).1)
  {
    var r := Allocate(v, chunks, k);
    if k > 0 {
      AllocateFacts(v, chunks, k - 1);
      var q := Allocate(v, chunks, k - 1);
      var u := WriteBlock(q.0, chunks[k - 1]);
      assert r == (u.0, q.1 + [u.1]);
      AllocateStep(v, k - 1, q.0, q.1, chunks[k - 1]);
    } else {
      assert Elems(r.1[..0]) == {};
      assert v.used + {} == v.used;
    }
  }

  lemma AllocateStep(v: Volume, k: nat, q: Volume, ids: seq<int>, d: seq<byte>)
    requires Allocated(v, k, q, ids)
    ensures Allocated(v, k + 1, WriteBlock(q, d).0, ids + [WriteBlock(q, d).1])
  {
    hide Sized, FreeIds, Distinct, Elems, WriteBlock;
    AllocateOne(q, d);
    var id := WriteBlock(q, d).1;
    var l, m := Min(k, |FreeIds(v)|), Min(k + 1, |FreeIds(v)|);
    var all := ids + [id];
    if k < |FreeIds(v)| {
      assert ids[..l] == ids && all[..m] == all;
      InElems(ids, id);
      AppendId(ids, id);
    } else {
      assert FreeIds(q) == {};
      assert all[..m] == ids[..l];
    }
  }

  lemma InElems(ids: seq<int>, x: int)
    ensures x in Elems(ids) <==> x in ids
  {}

  lemma AppendId(ids: seq<int>, x: int)
    ensures Elems(ids + [x]) == Elems(ids) + {x}
    ensures Distinct(ids) && x !in ids ==> Distinct(ids + [x])
  {
    assert forall y :: y in ids + [x] <==> y in ids || y == x;
  }

  /** Every block handed out holds its chunk padded with zeros; no other block's data changed. */
  ghost predicate Stored(v: Volume, chunks: seq<seq<byte>>, k: nat, w: Volume, ids: seq<int>)
    requires k <= |chunks|
  {
    && |ids| == k
    && (forall i :: 0 <= i < k && ids[i] != 0 ==> ids[i] in w.data && w.data[ids[i]] == Padded(chunks[i]))
    && (forall x :: x in v.data && x !in ids ==> x in w.data && w.data[x] == v.data[x])
  }

  lemma {:induction false} AllocateData(v: Volume, chunks: seq<seq<byte>>, k: nat)
    requires k <= |chunks| && Sized(v)
    ensures Stored(v, chunks, k, Allocate(v, chunks, k).0, Allocate(v, chunks, k).1)
  {
    hide Padded, Sized, FreeIds, Stored, Allocated, WriteBlock;
    var r := Allocate(v, chunks, k);
    if k > 0 {
      AllocateFacts(v, chunks, k - 1);
      AllocateData(v, chunks, k - 1);
      var q := Allocate(v, chunks, k - 1);
      var u := WriteBlock(q.0, chunks[k - 1]);
      assert r == (u.0, q.1 + [u.1]);
      StoreStep(v, chunks, k - 1, q.0, q.1);
    } else {
      StoreNone(v, chunks);
    }
  }

  lemma StoreNone(v: Volume, chunks: seq<seq<byte>>)
    ensures Stored(v, chunks, 0, v, [])
  {}

  lemma StoreStep(v: Volume, chunks: seq<seq<byte>>, k: nat, q: Volume, ids: seq<int>)
    requires k < |chunks| && Allocated(v, k, q, ids) && Stored(v, chunks, k, q, ids)
    ensures var u := WriteBlock(q, chunks[k]); Stored(v, chunks, k + 1, u.0, ids + [u.1])
  {
    hide Sized, FreeIds, Distinct, Elems, Padded, WriteBlock;
    AllocateOne(q, chunks[k]);
    var u := WriteBlock(q, chunks[k]);
    if FreeIds(q) != {} {
      var id, m := u.1, Min(k, |FreeIds(v)|);
      FreeIdsRange(v);
      InElems(ids[..m], id);
      assert id !in ids;
    }
  }

  lemma FreeIdsRange(v: Volume)
    ensures forall x :: x in FreeIds(v) ==> FIRST_DATA <= x < BLOCKS && x !in v.used
  {}

  lemma AllocateOne(v: Volume, d: seq<byte>)
    requires Sized(v)
    ensures var (w, id) := WriteBlock(v, d);
      && Sized(w) && w.iused == v.iused && w.recs == v.recs
      && (FreeIds(v) == {} ==> id == 0 && w == v)
      && (FreeIds(v) != {} ==>
            (id in FreeIds(v) && FreeIds(w) == FreeIds(v) - {id}
             && |FreeIds(w)| == |FreeIds(v)| - 1
             && w.used == v.used + {id} && w.data == v.data[id := Padded(d)]))
  {
    FirstFreeIsLeast(v.used, FIRST_DATA);
    var id := FirstFree(v.used, FIRST_DATA);
    if id == 0 {
      assert FreeIds(v) == {};
    } else {
      assert id in FreeIds(v);
    }
  }

  /** The ids of a pointer run that delete_block accepts. */
  ghost function Released(ptrs: seq<int>, lo: nat, k: nat, limit: int): set<int>
    requires lo + k <= |ptrs|
  {
    set i | lo <= i < lo + k && 0 < ptrs[i] < limit :: ptrs[i]
  }

  /** Releasing clears the bits of the run's blocks below the limit, and no data. */
  lemma {:induction false} ReleaseFacts(v: Volume, ptrs: seq<int>, lo: nat, k: nat, limit: int)
    requires lo + k <= |ptrs|
    ensures Release(v, ptrs, lo, k, limit) == v.(used := v.used - Released(ptrs, lo, k, limit))
  {
    if k == 0 {
      assert Released(ptrs, lo, k, limit) == {};
      assert v.used - {} == v.used;
    } else {
      ReleaseFacts(v, ptrs, lo, k - 1, limit);
      var x := ptrs[lo + k - 1];
      var before, after := Released(ptrs, lo, k - 1, limit), Released(ptrs, lo, k, limit);
      assert after == if 0 < x < limit then before + {x} else before;
      assert v.used - after == if 0 < x < limit then v.used - before - {x} else v.used - before;
    }
  }

  // ------------------------------------------------------------ small facts

  lemma CountIs(ptrs: seq<int>, p: nat)
    requires p <= |ptrs| && (forall i :: 0 <= i < p ==> ptrs[i] != 0) && (p < |ptrs| ==> ptrs[p] == 0)
    ensures Count(ptrs, 0) == p
  {}

  lemma ChainPrefix(v: Volume, ptrs: seq<int>, k: nat, l: nat)
    requires k <= l <= |ptrs| && Chain(v, ptrs, l)
    ensures Chain(v, ptrs, k)
  {}

  lemma SameKeys(v: Volume, w: Volume)
    requires Sized(v) && Sized(w)
    ensures v.data.Keys == w.data.Keys
  {
    forall x
      ensures x in v.data.Keys <==> x in w.data.Keys
    {
      assert x in v.data <==> x in w.data;
    }
  }

  lemma SameShell(v: Volume, w: Volume)
    requires Sized(v) && w.data.Keys == v.data.Keys && w.iused == v.iused && |w.recs| == |v.recs|
    requires w.used <= v.used && forall x :: x in v.used && 0 <= x < FIRST_DATA ==> x in w.used
    ensures Sized(w)
  {
    forall x
      ensures x in w.data <==> x in v.data
    {
      assert x in w.data.Keys <==> x in v.data.Keys;
    }
  }
}
