/**
 The service operations on the data file that the code really keeps: which disk operations each
 of them performs, when the file is what the blocks of the model say, and when it is not.
 */
module Backing {
  import opened Common
  import opened Blocks
  import opened Namespace
  import opened Invariant
  import opened Files
  import opened Runs
  import opened DataFile
  import opened Restart

  // ------------------------------------------------------------------ reading the file

  /** fread at a position. Nothing is ever read beyond the end of the file, as shown below. */
  function FileBytes(file: seq<Byte>, at: nat, n: nat): (r: seq<Byte>)
    ensures |r| == n
  {
    if at + n <= |file| then file[at..at + n] else seq(n, _ => 0)
  }

  /** read_block_table_slot for the block behind a slot. */
  function FileChunk(file: seq<Byte>, slot: nat, at: nat, n: nat): (r: seq<Byte>)
    requires slot > 0
    ensures |r| == n
  {
    FileBytes(file, (slot - 1) * BLOCK_SIZE + at, n)
  }

  /** The loop of read_inode on the data file. */
  function CodeRead(file: seq<Byte>, slots: seq<nat>, off: nat, n: nat): (r: ReadOut)
    requires SlotsInRange(slots)
    ensures r.ok ==> |r.data| == n
    decreases n
  {
    if n == 0 then ReadOut([], off, true)
    else if off / BLOCK_SIZE >= MAX_SLOTS || slots[off / BLOCK_SIZE] == 0 then ReadOut([], off, false)
    else
      var at := off % BLOCK_SIZE;
      var w := Min(n, BLOCK_SIZE - at);
      var r := CodeRead(file, slots, off + w, n - w);
      r.(data := FileChunk(file, slots[off / BLOCK_SIZE], at, w) + r.data)
  }

  /** A read goes on, at `at` in the block behind `slot`, for w bytes. */
  ghost predicate GoesOn(slots: seq<nat>, off: nat, n: nat, slot: nat, at: nat, w: nat)
    requires SlotsInRange(slots)
  {
    && n > 0 && off / BLOCK_SIZE < MAX_SLOTS && slots[off / BLOCK_SIZE] == slot != 0
    && at == off % BLOCK_SIZE && w == Min(n, BLOCK_SIZE - at)
  }

  lemma ModelStep(st: Store, slots: seq<nat>, off: nat, n: nat, slot: nat, at: nat, w: nat)
    requires Sized(st) && SlotsInRange(slots) && GoesOn(slots, off, n, slot, at, w)
    ensures at + w <= BLOCK_SIZE && 0 < w <= n
    ensures var r := ReadLoop(st, slots, off + w, n - w);
            ReadLoop(st, slots, off, n) == ReadOut(st.disk[slot - 1][at..at + w] + r.data, r.off, r.ok)
  {
  }

  lemma CodeStep(file: seq<Byte>, slots: seq<nat>, off: nat, n: nat, slot: nat, at: nat, w: nat)
    requires SlotsInRange(slots) && GoesOn(slots, off, n, slot, at, w)
    ensures at + w <= BLOCK_SIZE && 0 < w <= n
    ensures var r := CodeRead(file, slots, off + w, n - w);
            CodeRead(file, slots, off, n) == ReadOut(FileChunk(file, slot, at, w) + r.data, r.off, r.ok)
  {
  }

  /** Whether a read succeeds, how long it is and where it ends do not depend on the bytes. */
  lemma {:induction false} SameShape(st: Store, file: seq<Byte>, slots: seq<nat>, off: nat, n: nat)
    requires Sized(st) && SlotsInRange(slots)
    ensures var r, c := ReadLoop(st, slots, off, n), CodeRead(file, slots, off, n);
            c.ok == r.ok && c.off == r.off && |c.data| == |r.data|
    decreases n
  {
    if n > 0 && off / BLOCK_SIZE < MAX_SLOTS && slots[off / BLOCK_SIZE] != 0 {
      var at, slot := off % BLOCK_SIZE, slots[off / BLOCK_SIZE];
      var w := Min(n, BLOCK_SIZE - at);
      ModelStep(st, slots, off, n, slot, at, w);
      CodeStep(file, slots, off, n, slot, at, w);
      SameShape(st, file, slots, off + w, n - w);
    }
  }

  /** Every mapped slot names a used block. */
  ghost predicate Backed(st: Store, slots: seq<nat>) {
    Sized(st) && SlotsInRange(slots) && forall j :: 0 <= j < |slots| && slots[j] > 0 ==> st.table[slots[j] - 1].used
  }

  lemma SameRead(st: Store, file: seq<Byte>, slots: seq<nat>, off: nat, n: nat, slot: nat, at: nat, w: nat)
    requires Sized(st) && SlotsInRange(slots) && GoesOn(slots, off, n, slot, at, w) && w <= n
    requires at + w <= BLOCK_SIZE && FileChunk(file, slot, at, w) == st.disk[slot - 1][at..at + w]
    requires CodeRead(file, slots, off + w, n - w) == ReadLoop(st, slots, off + w, n - w)
    ensures CodeRead(file, slots, off, n) == ReadLoop(st, slots, off, n)
  {
    ModelStep(st, slots, off, n, slot, at, w);
    CodeStep(file, slots, off, n, slot, at, w);
  }

  /** On a file that mirrors the disk the code reads what the model reads. */
  lemma {:induction false} MirroredRead(st: Store, file: seq<Byte>, c: nat, slots: seq<nat>, off: nat, n: nat)
    requires Mirrors(st, file, c) && Backed(st, slots)
    ensures CodeRead(file, slots, off, n) == ReadLoop(st, slots, off, n)
    decreases n
  {
    if n > 0 && off / BLOCK_SIZE < MAX_SLOTS && slots[off / BLOCK_SIZE] != 0 {
      var at, slot := off % BLOCK_SIZE, slots[off / BLOCK_SIZE];
      var w := Min(n, BLOCK_SIZE - at);
      MirroredBytes(st, file, c, slot, at, w);
      MirroredRead(st, file, c, slots, off + w, n - w);
      SameRead(st, file, slots, off, n, slot, at, w);
    }
  }

  lemma MirroredBytes(st: Store, file: seq<Byte>, c: nat, slot: nat, at: nat, w: nat)
    requires Mirrors(st, file, c) && 0 < slot <= NUM_BLOCKS && st.table[slot - 1].used && at + w <= BLOCK_SIZE
    ensures FileChunk(file, slot, at, w) == st.disk[slot - 1][at..at + w]
  {
    var x := (slot - 1) * BLOCK_SIZE;
    ImageAt(st.disk, c, slot - 1);
    assert x + BLOCK_SIZE <= |file| && file[x..x + BLOCK_SIZE] == st.disk[slot - 1];
    SliceOfSlice(file, x, at, w);
    assert FileChunk(file, slot, at, w) == file[x + at..x + at + w];
  }

  lemma SliceOfSlice(file: seq<Byte>, x: nat, at: nat, w: nat)
    requires at + w <= BLOCK_SIZE && x + BLOCK_SIZE <= |file|
    ensures file[x..x + BLOCK_SIZE][at..at + w] == file[x + at..x + at + w]
  {
    var block, y, z := file[x..x + BLOCK_SIZE], x + at, x + at + w;
    assert |block[at..at + w]| == |file[y..z]| == w;
    forall k | 0 <= k < w ensures block[at..at + w][k] == file[y..z][k] {
      assert block[at..at + w][k] == block[at + k] == file[x + (at + k)];
      assert file[y..z][k] == file[y + k];
    }
  }

  // ------------------------------------------------------------------ disk operations in a row

  ghost predicate AllLegal(table: seq<Entry>, ops: seq<DiskOp>)
    decreases |ops|
  {
    |ops| > 0 ==> Legal(table, ops[0]) && AllLegal(TableStep(table, ops[0]), ops[1..])
  }

  function TableAfter(table: seq<Entry>, ops: seq<DiskOp>): (t: seq<Entry>)
    ensures |t| == |table|
    decreases |ops|
  {
    if |ops| == 0 then table else TableAfter(TableStep(table, ops[0]), ops[1..])
  }

  function FileAfter(table: seq<Entry>, file: seq<Byte>, ops: seq<DiskOp>): seq<Byte>
    decreases |ops|
  {
    if |ops| == 0 then file else FileAfter(TableStep(table, ops[0]), FileStep(table, file, ops[0]), ops[1..])
  }

  ghost function StoreAfter(st: Store, ops: seq<DiskOp>): (st': Store)
    requires Sized(st) && AllLegal(st.table, ops)
    ensures Sized(st')
    decreases |ops|
  {
    if |ops| == 0 then st else StoreAfter(DiskStep(st, ops[0]), ops[1..])
  }

  /** Each block that these operations take is placed where it belongs if and only if `good`. */
  ghost predicate PlacedIff(table: seq<Entry>, file: seq<Byte>, ops: seq<DiskOp>, good: bool)
    decreases |ops|
  {
    |ops| > 0 ==>
      && (Takes(table, ops[0]) ==> (Placed(table, file, ops[0]) <==> good))
      && PlacedIff(TableStep(table, ops[0]), FileStep(table, file, ops[0]), ops[1..], good)
  }

  ghost predicate ReleasesAny(table: seq<Entry>, ops: seq<DiskOp>)
    decreases |ops|
  {
    |ops| > 0 && (ReleasesUsed(table, ops[0]) || ReleasesAny(TableStep(table, ops[0]), ops[1..]))
  }

  predicate NoRelease(ops: seq<DiskOp>) {
    forall i :: 0 <= i < |ops| ==> !ops[i].Release?
  }

  predicate NoTake(ops: seq<DiskOp>) {
    forall i :: 0 <= i < |ops| ==> !ops[i].Take?
  }

  lemma {:induction false} OpsTracked(table: seq<Entry>, file: seq<Byte>, c: nat, released: nat, ops: seq<DiskOp>)
    returns (c': nat, released': nat)
    requires Tracked(table, file, c, released) && AllLegal(table, ops)
    ensures Tracked(TableAfter(table, ops), FileAfter(table, file, ops), c', released')
    ensures released' == 0 <==> released == 0 && !ReleasesAny(table, ops)
    decreases |ops|
  {
    c', released' := c, released;
    if |ops| == 0 {
    } else {
      c' := StepTracked(table, file, c, released, ops[0]);
      released' := if ReleasesUsed(table, ops[0]) then released + 1 else released;
      c', released' := OpsTracked(TableStep(table, ops[0]), FileStep(table, file, ops[0]), c', released', ops[1..]);
    }
  }

  lemma {:induction false} OpsPlaced(table: seq<Entry>, file: seq<Byte>, c: nat, released: nat, ops: seq<DiskOp>)
    requires Tracked(table, file, c, released) && AllLegal(table, ops) && (NoRelease(ops) || NoTake(ops))
    ensures PlacedIff(table, file, ops, released == 0)
    decreases |ops|
  {
    if |ops| == 0 {
    } else {
      if Takes(table, ops[0]) { TakePlacedIff(table, file, c, released, ops[0]); }
      var c' := StepTracked(table, file, c, released, ops[0]);
      var table', file' := TableStep(table, ops[0]), FileStep(table, file, ops[0]);
      if NoRelease(ops) {
        OpsPlaced(table', file', c', released, ops[1..]);
      } else {
        NothingTaken(table', file', ops[1..], released == 0);
      }
    }
  }

  lemma {:induction false} NothingTaken(table: seq<Entry>, file: seq<Byte>, ops: seq<DiskOp>, good: bool)
    requires NoTake(ops)
    ensures PlacedIff(table, file, ops, good)
    decreases |ops|
  {
    if |ops| == 0 {
    } else {
      NothingTaken(TableStep(table, ops[0]), FileStep(table, file, ops[0]), ops[1..], good);
    }
  }

  lemma {:induction false} OpsMirrored(st: Store, file: seq<Byte>, c: nat, ops: seq<DiskOp>) returns (c': nat)
    requires Mirrors(st, file, c) && AllLegal(st.table, ops) && NoRelease(ops)
    ensures Mirrors(StoreAfter(st, ops), FileAfter(st.table, file, ops), c')
    decreases |ops|
  {
    c' := c;
    if |ops| == 0 {
    } else {
      c' := StepMirrors(st, file, c, ops[0]);
      c' := OpsMirrored(DiskStep(st, ops[0]), FileStep(st.table, file, ops[0]), c', ops[1..]);
    }
  }

  lemma {:induction false} NothingReleased(table: seq<Entry>, ops: seq<DiskOp>)
    requires NoRelease(ops)
    ensures !ReleasesAny(table, ops)
    decreases |ops|
  {
    if |ops| == 0 {
    } else {
      NothingReleased(TableStep(table, ops[0]), ops[1..]);
    }
  }

  // ------------------------------------------------------------------ the disk operations of a write

  function FreshOps(table: seq<Entry>, owner: nat, rest: seq<Byte>, i: nat, total: nat): (r: seq<DiskOp>)
    requires i <= total
    ensures NoRelease(r)
    decreases total - i
  {
    if i == total then []
    else
      var w := Min(|rest|, BLOCK_SIZE);
      var op := Take(owner, rest[..w]);
      [op]
      + (if FirstFree(table, 0) == |table| then []
         else FreshOps(TableStep(table, op), owner, rest[w..], i + 1, total))
  }

  function WriteOps(table: seq<Entry>, slots: seq<nat>, owner: nat, off: nat, buf: seq<Byte>): (r: seq<DiskOp>)
    requires SlotsInRange(slots) && NewOffset(off, |buf|) <= BLOCK_SIZE * MAX_SLOTS
    ensures NoRelease(r)
  {
    var cur, total := off / BLOCK_SIZE, CeilDiv(NewOffset(off, |buf|), BLOCK_SIZE);
    if cur < total && slots[cur] != 0 then
      var w := Min(|buf|, BLOCK_SIZE - off % BLOCK_SIZE);
      [Change(slots[cur] - 1, off % BLOCK_SIZE, buf[..w])] + FreshOps(table, owner, buf[w..], cur + 1, total)
    else FreshOps(table, owner, buf, Min(cur, total), total)
  }

  lemma {:induction false} FreshOpsLegal(table: seq<Entry>, owner: nat, rest: seq<Byte>, i: nat, total: nat)
    requires i <= total
    ensures AllLegal(table, FreshOps(table, owner, rest, i, total))
    decreases total - i
  {
    if i == total {
    } else {
      var w := Min(|rest|, BLOCK_SIZE);
      var op, ops := Take(owner, rest[..w]), FreshOps(table, owner, rest, i, total);
      if FirstFree(table, 0) < |table| {
        assert ops[1..] == FreshOps(TableStep(table, op), owner, rest[w..], i + 1, total);
        FreshOpsLegal(TableStep(table, op), owner, rest[w..], i + 1, total);
      }
    }
  }

  /** The loop of write_inode performs these operations. */
  lemma {:induction false} FreshOpsAre(st: Store, slots: seq<nat>, owner: nat, rest: seq<Byte>, i: nat, total: nat)
    requires Sized(st) && i <= total <= |slots|
    ensures AllLegal(st.table, FreshOps(st.table, owner, rest, i, total))
    ensures StoreAfter(st, FreshOps(st.table, owner, rest, i, total)) == FreshLoop(st, slots, owner, rest, i, total).st
    decreases total - i
  {
    FreshOpsLegal(st.table, owner, rest, i, total);
    if i == total {
    } else {
      var w := Min(|rest|, BLOCK_SIZE);
      var op, ops := Take(owner, rest[..w]), FreshOps(st.table, owner, rest, i, total);
      var st' := DiskStep(st, op);
      if FirstFree(st.table, 0) < |st.table| {
        assert ops[1..] == FreshOps(st'.table, owner, rest[w..], i + 1, total);
        FreshOpsAre(st', slots[i := FirstFree(st.table, 0) + 1], owner, rest[w..], i + 1, total);
      }
    }
  }

  lemma WriteOpsAre(st: Store, slots: seq<nat>, owner: nat, off: nat, buf: seq<Byte>)
    requires Linked(st, slots, owner) && NewOffset(off, |buf|) <= BLOCK_SIZE * MAX_SLOTS
    ensures var ops := WriteOps(st.table, slots, owner, off, buf);
            AllLegal(st.table, ops) && StoreAfter(st, ops) == WriteBlocks(st, slots, owner, off, buf).st
  {
    var cur, total := off / BLOCK_SIZE, CeilDiv(NewOffset(off, |buf|), BLOCK_SIZE);
    if cur < total && slots[cur] != 0 {
      var op, rest := PatchFirst(st, slots, owner, off, buf);
      ThenFresh(st, op, slots, owner, rest, cur + 1, total);
    } else {
      FreshOpsAre(st, slots, owner, buf, Min(cur, total), total);
    }
  }

  lemma ThenFresh(st: Store, op: DiskOp, slots: seq<nat>, owner: nat, rest: seq<Byte>, i: nat, total: nat)
    requires Sized(st) && Legal(st.table, op) && TableStep(st.table, op) == st.table && i <= total <= |slots|
    ensures var ops := [op] + FreshOps(st.table, owner, rest, i, total);
            && AllLegal(st.table, ops)
            && StoreAfter(st, ops) == FreshLoop(DiskStep(st, op), slots, owner, rest, i, total).st
  {
    FreshOpsAre(DiskStep(st, op), slots, owner, rest, i, total);
    OneThen(st, op, FreshOps(st.table, owner, rest, i, total));
  }

  /** The in-place update of the first block, and what is left for the loop. */
  lemma PatchFirst(st: Store, slots: seq<nat>, owner: nat, off: nat, buf: seq<Byte>)
    returns (op: DiskOp, rest: seq<Byte>)
    requires Linked(st, slots, owner) && NewOffset(off, |buf|) <= BLOCK_SIZE * MAX_SLOTS
    requires off / BLOCK_SIZE < CeilDiv(NewOffset(off, |buf|), BLOCK_SIZE) && slots[off / BLOCK_SIZE] != 0
    ensures Legal(st.table, op) && TableStep(st.table, op) == st.table
    ensures var cur, total := off / BLOCK_SIZE, CeilDiv(NewOffset(off, |buf|), BLOCK_SIZE);
            && WriteOps(st.table, slots, owner, off, buf) == [op] + FreshOps(st.table, owner, rest, cur + 1, total)
            && WriteBlocks(st, slots, owner, off, buf)
                == FreshLoop(DiskStep(st, op), slots, owner, rest, cur + 1, total)
  {
    var at := off % BLOCK_SIZE;
    var w := Min(|buf|, BLOCK_SIZE - at);
    op, rest := Change(slots[off / BLOCK_SIZE] - 1, at, buf[..w]), buf[w..];
  }

  lemma OneThen(st: Store, op: DiskOp, more: seq<DiskOp>)
    requires Sized(st) && Legal(st.table, op) && AllLegal(TableStep(st.table, op), more)
    ensures AllLegal(st.table, [op] + more) && StoreAfter(st, [op] + more) == StoreAfter(DiskStep(st, op), more)
  {
    assert ([op] + more)[1..] == more;
  }

  /** Which blocks are taken does not depend on the bytes. */
  lemma {:induction false} SameTable(table: seq<Entry>, owner: nat, rest: seq<Byte>, other: seq<Byte>, i: nat,
                                     total: nat)
    requires i <= total
    ensures TableAfter(table, FreshOps(table, owner, rest, i, total))
        == TableAfter(table, FreshOps(table, owner, other, i, total))
    decreases total - i
  {
    if i == total {
    } else {
      var v, w := Min(|rest|, BLOCK_SIZE), Min(|other|, BLOCK_SIZE);
      var op, op' := Take(owner, rest[..v]), Take(owner, other[..w]);
      var ops, ops' := FreshOps(table, owner, rest, i, total), FreshOps(table, owner, other, i, total);
      if FirstFree(table, 0) < |table| {
        assert ops[1..] == FreshOps(TableStep(table, op), owner, rest[v..], i + 1, total);
        assert ops'[1..] == FreshOps(TableStep(table, op'), owner, other[w..], i + 1, total);
        SameTable(TableStep(table, op), owner, rest[v..], other[w..], i + 1, total);
      }
    }
  }

  lemma {:induction false} StoreTable(st: Store, ops: seq<DiskOp>)
    requires Sized(st) && AllLegal(st.table, ops)
    ensures StoreAfter(st, ops).table == TableAfter(st.table, ops)
    decreases |ops|
  {
    if |ops| == 0 {
    } else {
      StoreTable(DiskStep(st, ops[0]), ops[1..]);
    }
  }

  // ------------------------------------------------------------------ the disk operations of an unlink

  function FreeOps(slots: seq<nat>, i: nat): (r: seq<DiskOp>)
    requires i <= |slots|
    ensures NoTake(r)
    decreases |slots| - i
  {
    if i == |slots| || slots[i] == 0 then [] else [Release(slots[i] - 1)] + FreeOps(slots, i + 1)
  }

  lemma {:induction false} FreeOpsAre(table: seq<Entry>, slots: seq<nat>, i: nat)
    requires |table| == NUM_BLOCKS && SlotsInRange(slots) && i <= |slots|
    ensures AllLegal(table, FreeOps(slots, i)) && TableAfter(table, FreeOps(slots, i)) == FreeSlots(table, slots, i)
    decreases |slots| - i
  {
    if i < |slots| && slots[i] != 0 {
      FreeOpsAre(table[slots[i] - 1 := Entry(false, 0)], slots, i + 1);
      assert FreeOps(slots, i)[1..] == FreeOps(slots, i + 1);
    }
  }

  // ------------------------------------------------------------------ the disk operations of the service

  /** This unlink drops the last name of a file that has blocks. */
  predicate DropsBlocks(s: State, op: Op) {
    && op.OpUnlink? && Taken(s.names, op.name)
    && var p := FindInode(s.inodes, LookupOrZero(s.names, op.name));
    && p < |s.inodes| && s.inodes[p].refCount == 1 && |s.inodes[p].slots| > 0 && s.inodes[p].slots[0] != 0
  }

  function InodeOps(table: seq<Entry>, slots: seq<nat>, owner: nat, off: nat, buf: Buffer): (r: seq<DiskOp>)
    requires SlotsInRange(slots)
    ensures NoRelease(r)
  {
    if NewOffset(off, |buf|) > BLOCK_SIZE * MAX_SLOTS then [] else WriteOps(table, slots, owner, off, buf)
  }

  /** The writing half of a soft link, on what the reading half returned. */
  function CopyOps(table: seq<Entry>, owner: nat, size: nat, r: ReadOut): (ops: seq<DiskOp>)
    ensures NoRelease(ops)
  {
    if NewOffset(0, size) > BLOCK_SIZE * MAX_SLOTS || !r.ok || |r.data| >= U32 then []
    else InodeOps(table, NoSlots(), owner, 0, r.data)
  }

  /** create_soft_link gets as far as copying the inode at position p. */
  predicate Copies(s: State, uid: nat, gid: nat, name: string, link: string, p: nat) {
    && ReadAccess(s, uid, gid, name) == Success && Taken(s.names, name) && !Taken(s.names, link)
    && p == FindInode(s.inodes, LookupOrZero(s.names, name)) < |s.inodes|
  }

  /** What an operation does to the data file: a soft link copies the bytes that are there. */
  function CodeOps(s: State, file: seq<Byte>, op: Op): seq<DiskOp>
    requires forall i :: 0 <= i < |s.inodes| ==> SlotsInRange(s.inodes[i].slots)
  {
    match op
    case OpWrite(fd, buf) =>
      var d := FindDesc(s.descs, fd);
      if d == |s.descs| || s.descs[d].mode == READ_ONLY || Target(s, d) == |s.inodes| then []
      else
        var n := s.inodes[Target(s, d)];
        InodeOps(s.store.table, n.slots, n.index, s.descs[d].off, buf)
    case OpSymlink(uid, gid, _, name, link) =>
      var p := FindInode(s.inodes, LookupOrZero(s.names, name));
      if !Copies(s, uid, gid, name, link, p) then []
      else
        var n := s.inodes[p];
        CopyOps(s.store.table, NextIndex(s.inodes), n.size, CodeRead(file, n.slots, 0, n.size))
    case OpUnlink(name) =>
      var p := FindInode(s.inodes, LookupOrZero(s.names, name));
      if DropsBlocks(s, op) then FreeOps(s.inodes[p].slots, 0) else []
    case _ => []
  }

  /** The operations perform this change of the store. */
  ghost predicate Performs(st: Store, ops: seq<DiskOp>, st': Store) {
    Sized(st) && AllLegal(st.table, ops) && StoreAfter(st, ops) == st'
  }

  lemma InodeOpsAre(s: State, p: nat, off: nat, buf: Buffer)
    requires Typed(s) && p < |s.inodes| && Linked(s.store, s.inodes[p].slots, s.inodes[p].index)
    ensures Performs(s.store, InodeOps(s.store.table, s.inodes[p].slots, s.inodes[p].index, off, buf),
                     WriteInode(s, p, off, buf).0.store)
  {
    if NewOffset(off, |buf|) <= BLOCK_SIZE * MAX_SLOTS {
      WriteOpsAre(s.store, s.inodes[p].slots, s.inodes[p].index, off, buf);
    }
  }

  lemma WriteUnfold(s: State, file: seq<Byte>, fd: nat, buf: Buffer, now: int, d: nat, p: nat)
    requires Typed(s) && d == FindDesc(s.descs, fd) < |s.descs| && s.descs[d].mode != READ_ONLY
    requires p == Target(s, d) < |s.inodes|
    ensures CodeOps(s, file, OpWrite(fd, buf))
         == InodeOps(s.store.table, s.inodes[p].slots, s.inodes[p].index, s.descs[d].off, buf)
    ensures Write(s, fd, buf, now).0.store == WriteInode(s, p, s.descs[d].off, buf).0.store
  {
  }

  lemma NoWrite(s: State, file: seq<Byte>, fd: nat, buf: Buffer, now: int)
    requires Typed(s)
    requires var d := FindDesc(s.descs, fd);
             d == |s.descs| || s.descs[d].mode == READ_ONLY || Target(s, d) == |s.inodes|
    ensures CodeOps(s, file, OpWrite(fd, buf)) == [] && Write(s, fd, buf, now).0.store == s.store
  {
  }

  lemma WriteCode(s: State, file: seq<Byte>, fd: nat, buf: Buffer, now: int)
    requires Inv(s)
    ensures NoRelease(CodeOps(s, file, OpWrite(fd, buf)))
    ensures Performs(s.store, CodeOps(s, file, OpWrite(fd, buf)), Write(s, fd, buf, now).0.store)
  {
    var d := FindDesc(s.descs, fd);
    if d < |s.descs| && s.descs[d].mode != READ_ONLY && Target(s, d) < |s.inodes| {
      var p := Target(s, d);
      WriteUnfold(s, file, fd, buf, now, d, p);
      assert InodeOk(s.inodes[p], s.store);
      InodeOpsAre(s, p, s.descs[d].off, buf);
    } else {
      NoWrite(s, file, fd, buf, now);
    }
  }

  lemma NoSlotsLinked(st: Store, owner: nat)
    requires Sized(st)
    ensures Linked(st, NoSlots(), owner)
  {
  }

  lemma CopyUnfold(s: State, uid: nat, gid: nat, mode: int, name: string, link: string, now: int, p: nat, s1: State)
    requires Typed(s) && Copies(s, uid, gid, name, link, p) && s1 == SymlinkEntry(s, uid, gid, mode, p, link, now)
    ensures SoftLink(s, uid, gid, mode, name, link, now) == SoftLinkCopy(s1, s.inodes[p].slots, s.inodes[p].size)
    ensures s1.store == s.store && |s1.inodes| == |s.inodes| + 1 && Typed(s1)
    ensures s1.inodes[|s.inodes|].slots == NoSlots() && s1.inodes[|s.inodes|].index == NextIndex(s.inodes)
  {
  }

  lemma CopyPerforms(s1: State, slots: seq<nat>, size: nat, c: nat, owner: nat)
    requires Typed(s1) && SlotsInRange(slots) && |s1.inodes| == c + 1
    requires s1.inodes[c].slots == NoSlots() && s1.inodes[c].index == owner
    ensures Performs(s1.store, CopyOps(s1.store.table, owner, size, ReadLoop(s1.store, slots, 0, size)),
                     SoftLinkCopy(s1, slots, size).0.store)
  {
    var r := ReadLoop(s1.store, slots, 0, size);
    if NewOffset(0, size) <= BLOCK_SIZE * MAX_SLOTS && r.ok && |r.data| < U32 {
      NoSlotsLinked(s1.store, owner);
      InodeOpsAre(s1, c, 0, r.data);
    }
  }

  /** A soft link performs the copy of the model when the file returned the right bytes. */
  lemma CopyCode(s: State, uid: nat, gid: nat, mode: int, name: string, link: string, now: int, p: nat)
    requires Inv(s) && Copies(s, uid, gid, name, link, p)
    ensures var n := s.inodes[p];
            Performs(s.store, CopyOps(s.store.table, NextIndex(s.inodes), n.size,
                ReadLoop(s.store, n.slots, 0, n.size)),
                     SoftLink(s, uid, gid, mode, name, link, now).0.store)
  {
    var s1 := SymlinkEntry(s, uid, gid, mode, p, link, now);
    CopyUnfold(s, uid, gid, mode, name, link, now, p, s1);
    CopyPerforms(s1, s.inodes[p].slots, s.inodes[p].size, |s.inodes|, NextIndex(s.inodes));
  }

  /** The table after a copy depends only on the length of what was read. */
  lemma SameCopyTable(table: seq<Entry>, owner: nat, size: nat, r: ReadOut, other: ReadOut)
    requires r.ok == other.ok && |r.data| == |other.data|
    ensures TableAfter(table, CopyOps(table, owner, size, r)) == TableAfter(table, CopyOps(table, owner, size, other))
    ensures AllLegal(table, CopyOps(table, owner, size, r))
  {
    var n := |r.data|;
    if r.ok && n < U32 && NewOffset(0, n) <= BLOCK_SIZE * MAX_SLOTS {
      var total := CeilDiv(NewOffset(0, n), BLOCK_SIZE);
      SameTable(table, owner, r.data, other.data, 0, total);
      FreshOpsLegal(table, owner, r.data, 0, total);
      assert WriteOps(table, NoSlots(), owner, 0, r.data) == FreshOps(table, owner, r.data, 0, total);
      assert WriteOps(table, NoSlots(), owner, 0, other.data) == FreshOps(table, owner, other.data, 0, total);
    }
  }

  /** The operations lead from one table to another. */
  ghost predicate Leads(table: seq<Entry>, ops: seq<DiskOp>, table': seq<Entry>) {
    AllLegal(table, ops) && TableAfter(table, ops) == table'
  }

  lemma CopyTable(st: Store, owner: nat, size: nat, r: ReadOut, code: ReadOut, st': Store)
    requires Performs(st, CopyOps(st.table, owner, size, r), st') && r.ok == code.ok && |r.data| == |code.data|
    ensures Leads(st.table, CopyOps(st.table, owner, size, code), st'.table)
  {
    StoreTable(st, CopyOps(st.table, owner, size, r));
    SameCopyTable(st.table, owner, size, code, r);
  }

  /** The table part, for any file. */
  lemma SymlinkTable(s: State, file: seq<Byte>, uid: nat, gid: nat, mode: int, name: string, link: string, now: int)
    requires Inv(s)
    ensures var op, st' := OpSymlink(uid, gid, mode, name, link), SoftLink(s, uid, gid, mode, name, link, now).0.store;
            NoRelease(CodeOps(s, file, op)) && Leads(s.store.table, CodeOps(s, file, op), st'.table)
  {
    var p := FindInode(s.inodes, LookupOrZero(s.names, name));
    if Copies(s, uid, gid, name, link, p) {
      CopiedTable(s, file, uid, gid, mode, name, link, now, p);
    } else {
      NoCopy(s, uid, gid, mode, name, link, now);
    }
  }

  lemma CopiedTable(s: State, file: seq<Byte>, uid: nat, gid: nat, mode: int, name: string, link: string, now: int,
                    p: nat)
    requires Inv(s) && Copies(s, uid, gid, name, link, p)
    ensures var n := s.inodes[p];
            Leads(s.store.table, CopyOps(s.store.table, NextIndex(s.inodes), n.size,
                CodeRead(file, n.slots, 0, n.size)),
                  SoftLink(s, uid, gid, mode, name, link, now).0.store.table)
  {
    var slots, size := s.inodes[p].slots, s.inodes[p].size;
    CopyCode(s, uid, gid, mode, name, link, now, p);
    SameShape(s.store, file, slots, 0, size);
    CopyTable(s.store, NextIndex(s.inodes), size, ReadLoop(s.store, slots, 0, size), CodeRead(file, slots, 0, size),
              SoftLink(s, uid, gid, mode, name, link, now).0.store);
  }

  /** The whole effect, on a file that mirrors the disk. */
  lemma SymlinkCode(s: State, file: seq<Byte>, c: nat, uid: nat, gid: nat, mode: int, name: string, link: string,
                    now: int)
    requires Inv(s) && Mirrors(s.store, file, c)
    ensures var op, st' := OpSymlink(uid, gid, mode, name, link), SoftLink(s, uid, gid, mode, name, link, now).0.store;
            NoRelease(CodeOps(s, file, op)) && Performs(s.store, CodeOps(s, file, op), st')
  {
    var p := FindInode(s.inodes, LookupOrZero(s.names, name));
    if Copies(s, uid, gid, name, link, p) {
      var n := s.inodes[p];
      assert InodeOk(n, s.store);
      MirroredRead(s.store, file, c, n.slots, 0, n.size);
      CopyCode(s, uid, gid, mode, name, link, now, p);
    } else {
      NoCopy(s, uid, gid, mode, name, link, now);
    }
  }

  lemma NoCopy(s: State, uid: nat, gid: nat, mode: int, name: string, link: string, now: int)
    requires Typed(s) && !Copies(s, uid, gid, name, link, FindInode(s.inodes, LookupOrZero(s.names, name)))
    ensures SoftLink(s, uid, gid, mode, name, link, now).0 == s
  {
  }

  lemma FreeCode(st: Store, slots: seq<nat>, owner: nat)
    requires Linked(st, slots, owner)
    ensures Leads(st.table, FreeOps(slots, 0), FreeSlots(st.table, slots, 0))
    ensures ReleasesAny(st.table, FreeOps(slots, 0)) <==> slots[0] != 0
    ensures slots[0] == 0 ==> FreeSlots(st.table, slots, 0) == st.table
  {
    FreeOpsAre(st.table, slots, 0);
    assert slots[0] != 0 ==> ReleasesUsed(st.table, FreeOps(slots, 0)[0]);
  }

  lemma UnlinkOps(s: State, file: seq<Byte>, name: string, p: nat)
    requires Typed(s) && Taken(s.names, name) && p == FindInode(s.inodes, LookupOrZero(s.names, name)) < |s.inodes|
    ensures CodeOps(s, file, OpUnlink(name)) == if DropsBlocks(s, OpUnlink(name)) then FreeOps(s.inodes[p].slots, 0)
        else []
    ensures DropsBlocks(s, OpUnlink(name)) <==> s.inodes[p].refCount == 1 && s.inodes[p].slots[0] != 0
  {
  }

  lemma UnlinkStore(s: State, name: string, now: int, p: nat)
    requires Inv(s) && Taken(s.names, name) && p == FindInode(s.inodes, LookupOrZero(s.names, name))
    ensures p < |s.inodes|
    ensures Unlink(s, name, now).0.store
         == if s.inodes[p].refCount == 1 then s.store.(table := FreeSlots(s.store.table, s.inodes[p].slots, 0))
             else s.store
  {
    assert Live(s.inodes, s.names[FindName(s.names, name)].node);
    UnlinkUnfold(s, name, now, FindName(s.names, name), p);
  }

  lemma UnlinkCode(s: State, file: seq<Byte>, name: string, now: int)
    requires Inv(s)
    ensures var op, table, st' := OpUnlink(name), s.store.table, Unlink(s, name, now).0.store;
            && NoTake(CodeOps(s, file, op)) && Leads(table, CodeOps(s, file, op), st'.table)
            && (ReleasesAny(table, CodeOps(s, file, op)) <==> DropsBlocks(s, op))
            && (!DropsBlocks(s, op) ==> st' == s.store)
  {
    if Taken(s.names, name) {
      var p := FindInode(s.inodes, LookupOrZero(s.names, name));
      UnlinkStore(s, name, now, p);
      UnlinkOps(s, file, name, p);
      assert InodeOk(s.inodes[p], s.store);
      FreeCode(s.store, s.inodes[p].slots, s.inodes[p].index);
    }
  }

  /** The operations that leave the store alone. */
  lemma QuietCode(s: State, op: Op, now: int)
    requires Typed(s) && !op.OpWrite? && !op.OpSymlink? && !op.OpUnlink?
    ensures Apply(s, op, now).0.store == s.store
  {
    QuietStep(s, op, now);
  }

  /** Which blocks the code takes and releases is what the model says, whatever bytes are in the
      file; and used blocks are released exactly by the unlinks that drop a file with blocks. */
  lemma CodeTable(s: State, file: seq<Byte>, op: Op, now: int)
    requires Inv(s)
    ensures var ops, table := CodeOps(s, file, op), s.store.table;
            && Leads(table, ops, Apply(s, op, now).0.store.table)
            && (NoRelease(ops) || NoTake(ops))
            && (ReleasesAny(table, ops) <==> DropsBlocks(s, op))
  {
    var ops, table := CodeOps(s, file, op), s.store.table;
    match op
    case OpWrite(fd, buf) =>
      WriteCode(s, file, fd, buf, now);
      StoreTable(s.store, ops);
      NothingReleased(table, ops);
    case OpSymlink(uid, gid, mode, name, link) =>
      SymlinkTable(s, file, uid, gid, mode, name, link, now);
      NothingReleased(table, ops);
    case OpUnlink(name) => UnlinkCode(s, file, name, now);
    case _ => QuietCode(s, op, now);
  }

  lemma PerformedMirrors(st: Store, file: seq<Byte>, c: nat, ops: seq<DiskOp>, st': Store) returns (c': nat)
    requires Mirrors(st, file, c) && NoRelease(ops) && Performs(st, ops, st')
    ensures Mirrors(st', FileAfter(st.table, file, ops), c')
  {
    c' := OpsMirrored(st, file, c, ops);
  }

  lemma WriteMirrors(s: State, file: seq<Byte>, c: nat, fd: nat, buf: Buffer, now: int) returns (c': nat)
    requires Inv(s) && Mirrors(s.store, file, c)
    ensures Mirrors(Write(s, fd, buf, now).0.store, FileAfter(s.store.table, file, CodeOps(s, file, OpWrite(fd, buf))),
        c')
  {
    WriteCode(s, file, fd, buf, now);
    c' := PerformedMirrors(s.store, file, c, CodeOps(s, file, OpWrite(fd, buf)), Write(s, fd, buf, now).0.store);
  }

  lemma SymlinkMirrors(s: State, file: seq<Byte>, c: nat, uid: nat, gid: nat, mode: int, name: string, link: string,
                       now: int)
    returns (c': nat)
    requires Inv(s) && Mirrors(s.store, file, c)
    ensures Mirrors(SoftLink(s, uid, gid, mode, name, link, now).0.store,
                    FileAfter(s.store.table, file, CodeOps(s, file, OpSymlink(uid, gid, mode, name, link))), c')
  {
    SymlinkCode(s, file, c, uid, gid, mode, name, link, now);
    c' := PerformedMirrors(s.store, file, c, CodeOps(s, file, OpSymlink(uid, gid, mode, name, link)),
                           SoftLink(s, uid, gid, mode, name, link, now).0.store);
  }

  lemma UnlinkMirrors(s: State, file: seq<Byte>, c: nat, name: string, now: int)
    requires Inv(s) && Mirrors(s.store, file, c) && !DropsBlocks(s, OpUnlink(name))
    ensures Mirrors(Unlink(s, name, now).0.store, FileAfter(s.store.table, file, CodeOps(s, file, OpUnlink(name))), c)
  {
    UnlinkCode(s, file, name, now);
  }

  lemma QuietMirrors(s: State, file: seq<Byte>, c: nat, op: Op, now: int)
    requires Typed(s) && Mirrors(s.store, file, c) && !op.OpWrite? && !op.OpSymlink? && !op.OpUnlink?
    ensures Mirrors(Apply(s, op, now).0.store, FileAfter(s.store.table, file, CodeOps(s, file, op)), c)
  {
    QuietCode(s, op, now);
  }

  /** On a file that mirrors the disk, the code changes the file as the model changes the disk,
      unless it drops a file with blocks. */
  lemma CodeMirrors(s: State, file: seq<Byte>, c: nat, op: Op, now: int) returns (c': nat)
    requires Inv(s) && Mirrors(s.store, file, c) && !DropsBlocks(s, op)
    ensures Mirrors(Apply(s, op, now).0.store, FileAfter(s.store.table, file, CodeOps(s, file, op)), c')
  {
    c' := c;
    match op
    case OpWrite(fd, buf) => c' := WriteMirrors(s, file, c, fd, buf, now);
    case OpSymlink(uid, gid, mode, name, link) => c' := SymlinkMirrors(s, file, c, uid, gid, mode, name, link, now);
    case OpUnlink(name) => UnlinkMirrors(s, file, c, name, now);
    case _ => QuietMirrors(s, file, c, op, now);
  }

  // ------------------------------------------------------------------ runs

  /** One operation beside the data file that the code keeps, or a restart, which leaves the file
      alone. The operation is one after which the code goes on from the tables of the model. */
  ghost predicate FollowedStep(s: State, file: seq<Byte>, e: LongEvent, s': State, file': seq<Byte>) {
    && LongStep(s, e, s')
    && match e
       case Do(event) =>
         && Safe(s, event.op) && KeepsHeads(s, event.op)
         && file' == FileAfter(s.store.table, file, CodeOps(s, file, event.op))
       case Restart => file' == file
  }

  /** A run of the service and its data file, from the empty service on, with any number of
      restarts. No operation loses a list head. */
  ghost predicate IsCodeRun(states: seq<State>, files: seq<seq<Byte>>, events: seq<LongEvent>) {
    && |states| == |files| == |events| + 1 && states[0] == Empty() && files[0] == []
    && forall i :: 0 <= i < |events| ==> FollowedStep(states[i], files[i], events[i], states[i + 1], files[i + 1])
  }

  predicate Drops(s: State, e: LongEvent) {
    e.Do? && DropsBlocks(s, e.event.op)
  }

  /** Some unlink so far dropped a file that had blocks. */
  ghost predicate Dropped(states: seq<State>, events: seq<LongEvent>, i: nat)
    requires i <= |events| < |states|
  {
    exists j :: 0 <= j < i && Drops(states[j], events[j])
  }

  lemma EmptyTracked()
    ensures Inv(Empty()) && Tracked(Empty().store.table, [], 0, 0) && Mirrors(Empty().store, [], 0)
  {
    EmptyInv();
    assert Used(Empty().store.table) == {};
  }

  lemma FollowedInv(s: State, file: seq<Byte>, e: LongEvent, s': State, file': seq<Byte>)
    requires Inv(s) && FollowedStep(s, file, e, s', file')
    ensures Inv(s')
  {
    match e
    case Do(event) => StepInv(s, event.op, event.now);
    case Restart => RestartIs(s, s');
  }

  lemma {:induction false} CodeRunInv(states: seq<State>, files: seq<seq<Byte>>, events: seq<LongEvent>, i: nat)
    requires IsCodeRun(states, files, events) && i <= |events|
    ensures Inv(states[i])
  {
    if i == 0 {
      EmptyInv();
    } else {
      CodeRunInv(states, files, events, i - 1);
      assert FollowedStep(states[i - 1], files[i - 1], events[i - 1], states[i - 1 + 1], files[i - 1 + 1]);
      FollowedInv(states[i - 1], files[i - 1], events[i - 1], states[i], files[i]);
    }
  }

  /** The file keeps track of the table and, while nothing has been dropped, of the contents. */
  ghost predicate FollowsFile(st: Store, file: seq<Byte>, c: nat, released: nat) {
    && Tracked(st.table, file, c, released)
    && (released == 0 ==> exists m: nat :: Mirrors(st, file, m))
  }

  lemma CodeFollows(s: State, file: seq<Byte>, op: Op, now: int, c: nat, released: nat)
    returns (c': nat, released': nat)
    requires Inv(s) && FollowsFile(s.store, file, c, released)
    ensures FollowsFile(Apply(s, op, now).0.store, FileAfter(s.store.table, file, CodeOps(s, file, op)), c', released')
    ensures released' == 0 <==> released == 0 && !DropsBlocks(s, op)
  {
    CodeTable(s, file, op, now);
    c', released' := OpsTracked(s.store.table, file, c, released, CodeOps(s, file, op));
    if released' == 0 {
      var m: nat :| Mirrors(s.store, file, m);
      m := CodeMirrors(s, file, m, op, now);
    }
  }

  /** A step with the file beside it, or a restart. */
  lemma StepFollows(s: State, file: seq<Byte>, e: LongEvent, s': State, file': seq<Byte>, c: nat, released: nat)
    returns (c': nat, released': nat)
    requires Inv(s) && FollowedStep(s, file, e, s', file') && FollowsFile(s.store, file, c, released)
    ensures FollowsFile(s'.store, file', c', released')
    ensures released' == 0 <==> released == 0 && !Drops(s, e)
  {
    match e
    case Do(event) => c', released' := CodeFollows(s, file, event.op, event.now, c, released);
    case Restart =>
      RestartIs(s, s');
      c', released' := c, released;
  }

  lemma DroppedNext(states: seq<State>, events: seq<LongEvent>, i: nat)
    requires i < |events| < |states|
    ensures Dropped(states, events, i + 1) <==> Dropped(states, events, i) || Drops(states[i], events[i])
  {
  }

  lemma CodeRunStep(states: seq<State>, files: seq<seq<Byte>>, events: seq<LongEvent>, i: nat)
    requires IsCodeRun(states, files, events) && i < |events|
    ensures Inv(states[i]) && FollowedStep(states[i], files[i], events[i], states[i + 1], files[i + 1])
    ensures Dropped(states, events, i + 1) <==> Dropped(states, events, i) || Drops(states[i], events[i])
  {
    CodeRunInv(states, files, events, i);
    DroppedNext(states, events, i);
  }

  lemma {:induction false} CodeRunTracked(states: seq<State>, files: seq<seq<Byte>>, events: seq<LongEvent>, i: nat)
    returns (c: nat, released: nat)
    requires IsCodeRun(states, files, events) && i <= |events|
    ensures FollowsFile(states[i].store, files[i], c, released)
    ensures released == 0 <==> !Dropped(states, events, i)
  {
    if i == 0 {
      EmptyTracked();
      c, released := 0, 0;
    } else {
      CodeRunStep(states, files, events, i - 1);
      c, released := CodeRunTracked(states, files, events, i - 1);
      c, released := StepFollows(states[i - 1], files[i - 1], events[i - 1], states[i], files[i], c, released);
    }
  }

  /** Over every safe run of the service that loses no list head: each block that an operation
      takes is placed where it belongs if and only if no unlink before has dropped a file that
      had blocks. */
  lemma PlacedIffNothingDropped(states: seq<State>, files: seq<seq<Byte>>, events: seq<LongEvent>, i: nat)
    requires IsCodeRun(states, files, events) && i < |events| && events[i].Do?
    ensures Inv(states[i])
    ensures PlacedIff(states[i].store.table, files[i], CodeOps(states[i], files[i], events[i].event.op),
                      !Dropped(states, events, i))
  {
    var c, released := CodeRunTracked(states, files, events, i);
    CodeRunInv(states, files, events, i);
    CodeTable(states[i], files[i], events[i].event.op, events[i].event.now);
    OpsPlaced(states[i].store.table, files[i], c, released, CodeOps(states[i], files[i], events[i].event.op));
  }

  /** As long as none has, every read of the code returns what the model says, so all the
      theorems about contents hold of the code. */
  lemma CodeReadsRight(states: seq<State>, files: seq<seq<Byte>>, events: seq<LongEvent>, i: nat, p: nat, off: nat,
                       n: nat)
    requires IsCodeRun(states, files, events) && i <= |events| && !Dropped(states, events, i) && p < |states[i].inodes|
    ensures Typed(states[i])
    ensures var slots := states[i].inodes[p].slots;
            CodeRead(files[i], slots, off, n) == ReadLoop(states[i].store, slots, off, n)
  {
    CodeRunInv(states, files, events, i);
    var c, released := CodeRunTracked(states, files, events, i);
    var m: nat :| Mirrors(states[i].store, files[i], m);
    assert InodeOk(states[i].inodes[p], states[i].store);
    MirroredRead(states[i].store, files[i], m, states[i].inodes[p].slots, off, n);
  }

  /** In particular the data file then holds, for every file, the content that the theorems on
      writes, unlinks and soft links are about. */
  lemma CodeHoldsContent(states: seq<State>, files: seq<seq<Byte>>, events: seq<LongEvent>, i: nat, p: nat)
    requires IsCodeRun(states, files, events) && i <= |events| && !Dropped(states, events, i) && p < |states[i].inodes|
    ensures Typed(states[i])
    ensures var n := states[i].inodes[p];
            CodeRead(files[i], n.slots, 0, n.size) == ReadOut(Content(states[i].store, n), n.size, true)
  {
    CodeRunInv(states, files, events, i);
    var n := states[i].inodes[p];
    CodeReadsRight(states, files, events, i, p, 0, n.size);
    assert InodeOk(n, states[i].store);
    ReadExact(states[i].store, n.slots, 0, n.size, n.size);
  }
}
