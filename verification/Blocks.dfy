/**
 The block layer of service/inode.c: the table of allocation records, the disk of
 fixed-size blocks, and the block loops of write_inode and read_inode.

 An inode maps its bytes through an array of slots: slot value 0 is "unmapped" and
 slot value v is disk block v - 1.
 */
module Blocks {
  import opened Common

  datatype Entry = Entry(used: bool, owner: nat)

  datatype Store = Store(table: seq<Entry>, disk: seq<Block>)

  ghost predicate Sized(st: Store) {
    |st.table| == |st.disk| == NUM_BLOCKS
  }

  predicate SlotsInRange(slots: seq<nat>) {
    |slots| == MAX_SLOTS && forall j :: 0 <= j < |slots| ==> slots[j] <= NUM_BLOCKS
  }

  // ------------------------------------------------------------------ allocator

  /** The first-free scan of occupy_block_table_slot, from position i on. */
  function FirstFree(table: seq<Entry>, i: nat): (r: nat)
    requires i <= |table|
    ensures i <= r <= |table|
    ensures r < |table| ==> !table[r].used
    ensures forall j :: i <= j < r ==> table[j].used
    decreases |table| - i
  {
    if i == |table| || !table[i].used then i else FirstFree(table, i + 1)
  }

  function CountFree(table: seq<Entry>): (n: nat)
    ensures n <= |table|
  {
    if |table| == 0 then 0
    else CountFree(table[..|table| - 1]) + (if table[|table| - 1].used then 0 else 1)
  }

  ghost function Allocated(st: Store): set<nat> {
    set b | 0 <= b < |st.table| && st.table[b].used
  }

  /** A short write is zero-padded to a whole block. */
  function Pad(data: seq<Byte>): Block
    requires |data| <= BLOCK_SIZE
  {
    data + seq(BLOCK_SIZE - |data|, _ => 0)
  }

  /** Mark the first free block, tag it with its owner and fill it. */
  function Occupy(st: Store, owner: nat, data: seq<Byte>): (r: Option<(Store, nat)>)
    requires Sized(st) && |data| <= BLOCK_SIZE
    ensures r.Some? ==> Sized(r.value.0) && 0 < r.value.1 <= NUM_BLOCKS
  {
    var i := FirstFree(st.table, 0);
    if i == |st.table| then None
    else Some((Store(st.table[i := Entry(true, owner)], st.disk[i := Pad(data)]), i + 1))
  }

  /** Overwrite part of one block in place. */
  function Patch(b: Block, at: nat, data: seq<Byte>): Block
    requires at + |data| <= BLOCK_SIZE
  {
    b[..at] + data + b[at + |data|..]
  }

  // ------------------------------------------------------------------ write

  /** `next` is the slot the loop stopped at and `left` the number of bytes not stored. */
  datatype Written = Written(st: Store, slots: seq<nat>, next: nat, left: nat, ok: bool)

  /** Iterations i .. total of the loop in write_inode that take the allocating branch. */
  function FreshLoop(st: Store, slots: seq<nat>, owner: nat, rest: seq<Byte>, i: nat, total: nat): (r: Written)
    requires Sized(st) && i <= total <= |slots|
    ensures Sized(r.st) && |r.slots| == |slots| && r.left <= |rest|
    ensures i <= r.next <= total && (r.ok ==> r.next == total)
    decreases total - i
  {
    if i == total then Written(st, slots, i, |rest|, true)
    else
      var w := Min(|rest|, BLOCK_SIZE);
      match Occupy(st, owner, rest[..w])
      case None => Written(st, slots, i, |rest|, false)
      case Some((st', addr)) => FreshLoop(st', slots[i := addr], owner, rest[w..], i + 1, total)
  }

  /** `*offset + size` in 32-bit unsigned arithmetic. */
  function NewOffset(off: nat, n: nat): (r: nat)
    ensures off + n < U32 ==> r == off + n
  {
    (off + n) % U32
  }

  /** write_inode after its size check: the first block is updated in place when it is
      already mapped; every other block of the range is newly allocated. */
  function WriteBlocks(st: Store, slots: seq<nat>, owner: nat, off: nat, buf: seq<Byte>): (r: Written)
    requires Sized(st) && SlotsInRange(slots) && NewOffset(off, |buf|) <= BLOCK_SIZE * MAX_SLOTS
    ensures Sized(r.st) && |r.slots| == |slots| && r.left <= |buf|
  {
    var cur := off / BLOCK_SIZE;
    var total := CeilDiv(NewOffset(off, |buf|), BLOCK_SIZE);
    if cur < total && slots[cur] != 0 then
      var w := Min(|buf|, BLOCK_SIZE - off % BLOCK_SIZE);
      var b := slots[cur] - 1;
      var st' := st.(disk := st.disk[b := Patch(st.disk[b], off % BLOCK_SIZE, buf[..w])]);
      FreshLoop(st', slots, owner, buf[w..], cur + 1, total)
    else
      // total may be at most cur: then the loop body never runs.
      FreshLoop(st, slots, owner, buf, Min(cur, total), total)
  }

  // ------------------------------------------------------------------ read

  datatype ReadOut = ReadOut(data: seq<Byte>, off: nat, ok: bool)

  /** The loop of read_inode: it moves the offset itself and stops at an unmapped slot
      (slot 0 wraps to block index 2^32 - 1, which the range check rejects). */
  function ReadLoop(st: Store, slots: seq<nat>, off: nat, n: nat): (r: ReadOut)
    requires Sized(st) && SlotsInRange(slots)
    decreases n
  {
    if n == 0 then ReadOut([], off, true)
    else if off / BLOCK_SIZE >= MAX_SLOTS || slots[off / BLOCK_SIZE] == 0 then ReadOut([], off, false)
    else
      var at := off % BLOCK_SIZE;
      var w := Min(n, BLOCK_SIZE - at);
      var r := ReadLoop(st, slots, off + w, n - w);
      r.(data := st.disk[slots[off / BLOCK_SIZE] - 1][at..at + w] + r.data)
  }

  // ------------------------------------------------------------------ abstraction

  /** Number of leading mapped slots. */
  function Mapped(slots: seq<nat>, i: nat := 0): (k: nat)
    requires i <= |slots|
    ensures i <= k <= |slots|
    ensures forall j :: i <= j < k ==> slots[j] > 0
    ensures k < |slots| ==> slots[k] == 0
    decreases |slots| - i
  {
    if i == |slots| || slots[i] == 0 then i else Mapped(slots, i + 1)
  }

  /** The slots of one inode are well mapped: a prefix of the array, each slot a distinct
      allocated block tagged with this inode. */
  ghost predicate Linked(st: Store, slots: seq<nat>, owner: nat) {
    && Sized(st)
    && SlotsInRange(slots)
    && (forall i, j :: 0 <= i < j < |slots| && slots[i] == 0 ==> slots[j] == 0)
    && (forall i, j :: 0 <= i < j < |slots| && slots[i] > 0 ==> slots[i] != slots[j])
    && (forall j :: 0 <= j < |slots| && slots[j] > 0 ==> st.table[slots[j] - 1] == Entry(true, owner))
  }

  /** The block behind a slot; an unmapped slot stands for no block, any value will do. */
  ghost function BlockAt(disk: seq<Block>, slot: nat): Block {
    if 0 < slot <= |disk| then disk[slot - 1] else seq(BLOCK_SIZE, _ => 0)
  }

  /** The bytes of the first k slots. */
  ghost function Bytes(disk: seq<Block>, slots: seq<nat>, k: nat): (r: seq<Byte>)
    requires k <= |slots|
    ensures |r| == k * BLOCK_SIZE
  {
    Concat(disk, slots, k)
  }

  ghost function Concat(disk: seq<Block>, slots: seq<nat>, k: nat): (r: seq<Byte>)
    requires k <= |slots|
    ensures |r| == k * BLOCK_SIZE
  {
    if k == 0 then [] else Concat(disk, slots, k - 1) + BlockAt(disk, slots[k - 1])
  }

  /** All mapped bytes of an inode: the flat view that the block loops refine. */
  ghost function MappedBytes(st: Store, slots: seq<nat>): (r: seq<Byte>)
    ensures |r| == Mapped(slots) * BLOCK_SIZE
  {
    Bytes(st.disk, slots, Mapped(slots))
  }

  ghost function SlotBlocks(slots: seq<nat>, i: nat, j: nat): set<nat>
    requires i <= j <= |slots|
  {
    set x | i <= x < j && slots[x] > 0 :: slots[x] - 1
  }

  lemma MappedIs(slots: seq<nat>, k: nat)
    requires k <= |slots|
    requires forall j :: 0 <= j < k ==> slots[j] > 0
    requires k < |slots| ==> slots[k] == 0
    ensures Mapped(slots) == k
  {
  }

  /** Bytes looks at nothing but the listed blocks. */
  lemma {:induction false} BytesFrame(disk: seq<Block>, disk': seq<Block>, slots: seq<nat>, slots': seq<nat>, k: nat)
    requires k <= |slots| && k <= |slots'|
    requires forall j :: 0 <= j < k ==> BlockAt(disk', slots'[j]) == BlockAt(disk, slots[j])
    ensures Bytes(disk', slots', k) == Bytes(disk, slots, k)
  {
    if k == 0 {
    } else {
      BytesFrame(disk, disk', slots, slots', k - 1);
    }
  }

  ghost predicate Begins(all: seq<Byte>, front: seq<Byte>) {
    front <= all
  }

  lemma {:induction false} BytesPrefix(disk: seq<Block>, slots: seq<nat>, i: nat, k: nat)
    requires i <= k <= |slots|
    ensures Begins(Bytes(disk, slots, k), Bytes(disk, slots, i))
  {
    if i < k { BytesPrefix(disk, slots, i, k - 1); }
  }

  lemma BytesSlot(disk: seq<Block>, slots: seq<nat>, c: nat, k: nat)
    requires c < k <= |slots|
    ensures Begins(Bytes(disk, slots, k), Bytes(disk, slots, c) + BlockAt(disk, slots[c]))
  {
    assert Bytes(disk, slots, c + 1) == Bytes(disk, slots, c) + BlockAt(disk, slots[c]);
    BytesPrefix(disk, slots, c + 1, k);
  }

  lemma SliceOf(all: seq<Byte>, front: seq<Byte>, block: Block, at: nat, w: nat)
    requires Begins(all, front + block) && at + w <= BLOCK_SIZE
    ensures all[|front| + at..|front| + at + w] == block[at..at + w]
    ensures all[..|front| + at] == front + block[..at]
  {
    assert (front + block)[|front|..] == block;
  }

  /** A range of bytes that does not cross a block boundary is a slice of one block. */
  lemma BytesRange(disk: seq<Block>, slots: seq<nat>, k: nat, off: nat, w: nat)
    requires k <= |slots| && off / BLOCK_SIZE < k && off % BLOCK_SIZE + w <= BLOCK_SIZE
    ensures off + w <= k * BLOCK_SIZE
    ensures Bytes(disk, slots, k)[off..off + w]
            == BlockAt(disk, slots[off / BLOCK_SIZE])[off % BLOCK_SIZE..off % BLOCK_SIZE + w]
    ensures Bytes(disk, slots, k)[..off]
            == Bytes(disk, slots, off / BLOCK_SIZE) + BlockAt(disk, slots[off / BLOCK_SIZE])[..off % BLOCK_SIZE]
  {
    var c := off / BLOCK_SIZE;
    assert off == c * BLOCK_SIZE + off % BLOCK_SIZE;
    BytesSlot(disk, slots, c, k);
    SliceOf(Bytes(disk, slots, k), Bytes(disk, slots, c), BlockAt(disk, slots[c]), off % BLOCK_SIZE, w);
  }

  // ------------------------------------------------------------------ allocator lemmas

  lemma {:induction false} CountFreeUpdate(table: seq<Entry>, i: nat, e: Entry)
    requires i < |table| && !table[i].used && e.used
    ensures CountFree(table[i := e]) == CountFree(table) - 1
  {
    var n := |table| - 1;
    if i == n {
      assert table[i := e][..n] == table[..n];
    } else {
      assert table[i := e][..n] == table[..n][i := e];
      CountFreeUpdate(table[..n], i, e);
    }
  }

  lemma {:induction false} NoneFree(table: seq<Entry>)
    ensures CountFree(table) == 0 <==> FirstFree(table, 0) == |table|
  {
    var n := |table| - 1;
    if |table| == 0 {
    } else {
      NoneFree(table[..n]);
      if CountFree(table) == 0 {
        assert forall j :: 0 <= j < n ==> table[..n][j].used;
      }
      if FirstFree(table, 0) == |table| {
        assert forall j :: 0 <= j < n ==> table[..n][j].used;
      }
    }
  }

  // ------------------------------------------------------------------ the allocating loop

  /** Blocks allocated before the loop keep both their record and their contents: this is
      the only reason a write cannot disturb another file. */
  lemma {:induction false} FreshFrame(st: Store, slots: seq<nat>, owner: nat, rest: seq<Byte>, i: nat, total: nat)
    requires Sized(st) && i <= total <= |slots|
    ensures var r := FreshLoop(st, slots, owner, rest, i, total);
            && (forall b :: 0 <= b < NUM_BLOCKS && st.table[b].used ==>
                 r.st.table[b] == st.table[b] && r.st.disk[b] == st.disk[b])
            && (forall j :: 0 <= j < |slots| && !(i <= j < total) ==> r.slots[j] == slots[j])
    decreases total - i
  {
    if i == total {
    } else {
      var w := Min(|rest|, BLOCK_SIZE);
      match Occupy(st, owner, rest[..w])
      case None =>
      case Some((st', addr)) => FreshFrame(st', slots[i := addr], owner, rest[w..], i + 1, total);
    }
  }

  /** One allocation keeps the slots well mapped; it may replace a mapped slot. */
  lemma OccupyLinked(st: Store, slots: seq<nat>, owner: nat, data: seq<Byte>, i: nat)
    requires Linked(st, slots, owner) && |data| <= BLOCK_SIZE && i < MAX_SLOTS && i <= Mapped(slots)
    ensures match Occupy(st, owner, data)
            case None => true
            case Some((st', addr)) => Linked(st', slots[i := addr], owner) && i < Mapped(slots[i := addr])
                                      && Mapped(slots[i := addr])
                                          == (if i < Mapped(slots) then Mapped(slots) else i + 1)
  {
    match Occupy(st, owner, data)
    case None =>
    case Some((st', addr)) =>
      var s' := slots[i := addr];
      var k := Mapped(slots);
      assert forall j :: 0 <= j < |slots| && slots[j] > 0 ==> slots[j] != addr;
      assert forall j :: k <= j < |slots| ==> slots[j] == 0;
      MappedIs(s', if i < k then k else i + 1);
  }

  lemma {:induction false} FreshLinked(st: Store, slots: seq<nat>, owner: nat, rest: seq<Byte>, i: nat, total: nat)
    requires Linked(st, slots, owner) && i <= total <= MAX_SLOTS && i <= Mapped(slots)
    ensures var r := FreshLoop(st, slots, owner, rest, i, total);
            && Linked(r.st, r.slots, owner)
            && Mapped(r.slots) >= Mapped(slots)
            && (r.ok ==> Mapped(r.slots) == (if total <= Mapped(slots) then Mapped(slots) else total))
    decreases total - i
  {
    if i == total {
    } else {
      var w := Min(|rest|, BLOCK_SIZE);
      OccupyLinked(st, slots, owner, rest[..w], i);
      match Occupy(st, owner, rest[..w])
      case None =>
      case Some((st', addr)) => FreshLinked(st', slots[i := addr], owner, rest[w..], i + 1, total);
    }
  }

  /** `rest` cut into n blocks, the last ones padded with zeros. */
  ghost function Chunked(rest: seq<Byte>, n: nat): (r: seq<Byte>)
    ensures |r| == n * BLOCK_SIZE
  {
    Chunks(rest, n)
  }

  ghost function Chunks(rest: seq<Byte>, n: nat): (r: seq<Byte>)
    ensures |r| == n * BLOCK_SIZE
  {
    if n == 0 then []
    else var w := Min(|rest|, BLOCK_SIZE); Pad(rest[..w]) + Chunks(rest[w..], n - 1)
  }

  lemma {:induction false} ChunkedBegins(rest: seq<Byte>, n: nat)
    ensures Begins(Chunked(rest, n), rest[..Min(|rest|, n * BLOCK_SIZE)])
  {
    if n == 0 {
    } else {
      if |rest| >= BLOCK_SIZE {
        var tail := rest[BLOCK_SIZE..];
        ChunkedBegins(tail, n - 1);
        assert Pad(rest[..BLOCK_SIZE]) == rest[..BLOCK_SIZE];
        var d := Min(|tail|, (n - 1) * BLOCK_SIZE);
        assert rest[..BLOCK_SIZE + d] == rest[..BLOCK_SIZE] + tail[..d];
      } else {
        assert rest[..|rest|] == rest;
      }
    }
  }

  lemma Assoc(x: seq<Byte>, y: seq<Byte>, z: seq<Byte>)
    ensures x + y + z == x + (y + z)
  {
  }

  /** The first i slots hold allocated blocks. */
  ghost predicate Occupied(st: Store, slots: seq<nat>, i: nat)
    requires Sized(st) && i <= |slots|
  {
    forall j :: 0 <= j < i ==> 0 < slots[j] <= NUM_BLOCKS && st.table[slots[j] - 1].used
  }

  lemma {:induction false} FreshLeft(st: Store, slots: seq<nat>, owner: nat, rest: seq<Byte>, i: nat, total: nat,
                                     r: Written)
    requires Sized(st) && i <= total <= |slots| && r == FreshLoop(st, slots, owner, rest, i, total)
    ensures r.left == |rest| - Min(|rest|, (r.next - i) * BLOCK_SIZE)
    decreases total - i
  {
    if i == total {
    } else {
      var w := Min(|rest|, BLOCK_SIZE);
      match Occupy(st, owner, rest[..w])
      case None =>
      case Some((st', addr)) => FreshLeft(st', slots[i := addr], owner, rest[w..], i + 1, total, r);
    }
  }

  /** The loop appends the stored part of `rest` to the bytes of the first i slots, block by
      block, also when the disk fills up half way. */
  lemma {:induction false} FreshBytes(st: Store, slots: seq<nat>, owner: nat, rest: seq<Byte>, i: nat, total: nat,
                                      r: Written)
    requires Sized(st) && i <= total <= |slots| && Occupied(st, slots, i)
    requires r == FreshLoop(st, slots, owner, rest, i, total)
    ensures r.next <= |r.slots|
    ensures Bytes(r.st.disk, r.slots, r.next) == Bytes(st.disk, slots, i) + Chunked(rest, r.next - i)
    decreases total - i
  {
    var w := Min(|rest|, BLOCK_SIZE);
    if i < total && Occupy(st, owner, rest[..w]).Some? {
      var (st', addr) := Occupy(st, owner, rest[..w]).value;
      assert r == FreshLoop(st', slots[i := addr], owner, rest[w..], i + 1, total);
      var front, filled := Bytes(st.disk, slots, i), Bytes(st'.disk, slots[i := addr], i + 1);
      OccupyBytes(st, slots, owner, rest[..w], i);
      FreshBytes(st', slots[i := addr], owner, rest[w..], i + 1, total, r);
      ChunkedStep(Bytes(r.st.disk, r.slots, r.next), filled, front, rest, r.next - (i + 1), r.next - i);
    } else {
      assert r.st == st && r.slots == slots && r.next == i;
      assert Chunked(rest, r.next - i) == [];
      assert Bytes(st.disk, slots, i) + [] == Bytes(st.disk, slots, i);
    }
  }

  lemma OccupyBytes(st: Store, slots: seq<nat>, owner: nat, data: seq<Byte>, i: nat)
    requires Sized(st) && |data| <= BLOCK_SIZE && i < |slots| && Occupied(st, slots, i)
    requires Occupy(st, owner, data).Some?
    ensures var (st', addr) := Occupy(st, owner, data).value;
            && Occupied(st', slots[i := addr], i + 1)
            && Bytes(st'.disk, slots[i := addr], i + 1) == Bytes(st.disk, slots, i) + Pad(data)
  {
    var (st', addr) := Occupy(st, owner, data).value;
    BytesFrame(st.disk, st'.disk, slots, slots[i := addr], i);
  }

  lemma ChunkedStep(all: seq<Byte>, filled: seq<Byte>, front: seq<Byte>, rest: seq<Byte>, n: nat, m: nat)
    requires m == n + 1
    requires filled == front + Pad(rest[..Min(|rest|, BLOCK_SIZE)])
    requires all == filled + Chunked(rest[Min(|rest|, BLOCK_SIZE)..], n)
    ensures all == front + Chunked(rest, m)
  {
  }

  /** The loop fails exactly when there are fewer free blocks than slots to fill, and then
      it has used up every free block. */
  lemma {:induction false} FreshCount(st: Store, slots: seq<nat>, owner: nat, rest: seq<Byte>, i: nat, total: nat)
    requires Sized(st) && i <= total <= |slots|
    ensures var r := FreshLoop(st, slots, owner, rest, i, total);
            && (r.ok <==> total - i <= CountFree(st.table))
            && CountFree(r.st.table) == (if r.ok then CountFree(st.table) - (total - i) else 0)
    decreases total - i
  {
    if i == total {
    } else {
      var w := Min(|rest|, BLOCK_SIZE);
      NoneFree(st.table);
      match Occupy(st, owner, rest[..w])
      case None =>
      case Some((st', addr)) =>
        CountFreeUpdate(st.table, addr - 1, Entry(true, owner));
        FreshCount(st', slots[i := addr], owner, rest[w..], i + 1, total);
    }
  }

  /** The newly allocated blocks are exactly the ones now in the slots that the loop filled. */
  lemma {:induction false} FreshAllocated(st: Store, slots: seq<nat>, owner: nat, rest: seq<Byte>, i: nat, total: nat)
    requires Sized(st) && i <= total <= |slots|
    ensures var r := FreshLoop(st, slots, owner, rest, i, total);
            && Allocated(r.st) == Allocated(st) + SlotBlocks(r.slots, i, r.next)
            && Allocated(st) !! SlotBlocks(r.slots, i, r.next)
            && (forall j :: 0 <= j < |slots| && !(i <= j < r.next) ==> r.slots[j] == slots[j])
    decreases total - i
  {
    var r := FreshLoop(st, slots, owner, rest, i, total);
    var w := Min(|rest|, BLOCK_SIZE);
    if i < total && Occupy(st, owner, rest[..w]).Some? {
      var (st', addr) := Occupy(st, owner, rest[..w]).value;
      FreshAllocated(st', slots[i := addr], owner, rest[w..], i + 1, total);
      assert r.slots[i] == addr;
      assert Allocated(st') == Allocated(st) + {addr - 1};
      assert SlotBlocks(r.slots, i, r.next) == {addr - 1} + SlotBlocks(r.slots, i + 1, r.next);
    } else {
      assert SlotBlocks(r.slots, i, r.next) == {};
    }
  }

  // ------------------------------------------------------------------ write_inode

  /** How many blocks a write must allocate: one for every slot of its range, except that a
      mapped first slot is reused. Mapped slots after the first are replaced, not reused. */
  function Needed(slots: seq<nat>, off: nat, n: nat): (r: nat)
    requires SlotsInRange(slots) && off + n <= BLOCK_SIZE * MAX_SLOTS
  {
    var cur := off / BLOCK_SIZE;
    var total := CeilDiv(off + n, BLOCK_SIZE);
    if cur >= total then 0 else total - cur - (if slots[cur] != 0 then 1 else 0)
  }

  /** The mapped slots strictly after the first one, up to `next`, that a write replaces. */
  ghost function Replaced(slots: seq<nat>, off: nat, next: nat): set<nat>
    requires next <= |slots|
  {
    if off / BLOCK_SIZE + 1 >= next then {} else SlotBlocks(slots, off / BLOCK_SIZE + 1, next)
  }

  /** The store after the in-place update of the first block. */
  ghost function FirstPatched(st: Store, slots: seq<nat>, off: nat, buf: seq<Byte>): (st': Store)
    requires Sized(st) && SlotsInRange(slots)
    requires off / BLOCK_SIZE < MAX_SLOTS && slots[off / BLOCK_SIZE] != 0
    ensures Sized(st')
  {
    var b := slots[off / BLOCK_SIZE] - 1;
    var w := Min(|buf|, BLOCK_SIZE - off % BLOCK_SIZE);
    st.(disk := st.disk[b := Patch(st.disk[b], off % BLOCK_SIZE, buf[..w])])
  }

  /** The write starts inside a mapped block, which it updates in place. */
  ghost predicate InPlace(slots: seq<nat>, off: nat, n: nat)
    requires SlotsInRange(slots) && off + n <= BLOCK_SIZE * MAX_SLOTS
  {
    off / BLOCK_SIZE < CeilDiv(off + n, BLOCK_SIZE) && slots[off / BLOCK_SIZE] != 0
  }

  lemma UnfoldInPlace(st: Store, slots: seq<nat>, owner: nat, off: nat, buf: seq<Byte>)
    requires Linked(st, slots, owner) && off + |buf| <= BLOCK_SIZE * MAX_SLOTS && InPlace(slots, off, |buf|)
    ensures var cur := off / BLOCK_SIZE;
            var total := CeilDiv(off + |buf|, BLOCK_SIZE);
            var w := Min(|buf|, BLOCK_SIZE - off % BLOCK_SIZE);
            && cur < Mapped(slots) && cur < total <= MAX_SLOTS
            && Linked(FirstPatched(st, slots, off, buf), slots, owner)
            && WriteBlocks(st, slots, owner, off, buf)
               == FreshLoop(FirstPatched(st, slots, off, buf), slots, owner, buf[w..], cur + 1, total)
  {
  }

  /** Otherwise the offset is the end of the mapped blocks, or nothing is written at all. */
  lemma UnfoldFresh(st: Store, slots: seq<nat>, owner: nat, off: nat, buf: seq<Byte>)
    requires Linked(st, slots, owner) && off <= Mapped(slots) * BLOCK_SIZE
    requires off + |buf| <= BLOCK_SIZE * MAX_SLOTS && !InPlace(slots, off, |buf|)
    ensures var cur := off / BLOCK_SIZE;
            var total := CeilDiv(off + |buf|, BLOCK_SIZE);
            && cur <= Mapped(slots) && cur <= total <= MAX_SLOTS
            && off == cur * BLOCK_SIZE
            && (cur < total ==> cur == Mapped(slots))
            && WriteBlocks(st, slots, owner, off, buf) == FreshLoop(st, slots, owner, buf, cur, total)
  {
    var cur := off / BLOCK_SIZE;
    var total := CeilDiv(off + |buf|, BLOCK_SIZE);
    assert NewOffset(off, |buf|) == off + |buf|;
    assert WriteBlocks(st, slots, owner, off, buf) == FreshLoop(st, slots, owner, buf, Min(cur, total), total);
    RangeOfWrite(off, |buf|, Mapped(slots));
  }

  lemma RangeOfWrite(off: nat, n: nat, k: nat)
    requires off <= k * BLOCK_SIZE && off + n <= BLOCK_SIZE * MAX_SLOTS
    ensures var cur, total := off / BLOCK_SIZE, CeilDiv(off + n, BLOCK_SIZE);
            && cur <= k && cur <= total <= MAX_SLOTS
            && (cur == total || cur == k ==> off == cur * BLOCK_SIZE)
  {
    DivBlock(off, k);
  }

  /** A write keeps the slots well mapped, and maps every slot up to its last block. */
  lemma WriteLinked(st: Store, slots: seq<nat>, owner: nat, off: nat, buf: seq<Byte>)
    requires Linked(st, slots, owner) && off <= Mapped(slots) * BLOCK_SIZE
    requires off + |buf| <= BLOCK_SIZE * MAX_SLOTS
    ensures var r := WriteBlocks(st, slots, owner, off, buf);
            && Linked(r.st, r.slots, owner)
            && Mapped(r.slots) >= Mapped(slots)
            && (r.ok ==> Mapped(r.slots) == var t := CeilDiv(off + |buf|, BLOCK_SIZE);
                                            if t <= Mapped(slots) then Mapped(slots) else t)
  {
    var cur := off / BLOCK_SIZE;
    var total := CeilDiv(off + |buf|, BLOCK_SIZE);
    if InPlace(slots, off, |buf|) {
      UnfoldInPlace(st, slots, owner, off, buf);
      var w := Min(|buf|, BLOCK_SIZE - off % BLOCK_SIZE);
      FreshLinked(FirstPatched(st, slots, off, buf), slots, owner, buf[w..], cur + 1, total);
    } else {
      UnfoldFresh(st, slots, owner, off, buf);
      FreshLinked(st, slots, owner, buf, cur, total);
    }
  }

  /** A write leaves alone every record of an allocated block, and the contents of every
      allocated block that belongs to another inode. */
  lemma WriteFrame(st: Store, slots: seq<nat>, owner: nat, off: nat, buf: seq<Byte>)
    requires Linked(st, slots, owner) && off <= Mapped(slots) * BLOCK_SIZE
    requires off + |buf| <= BLOCK_SIZE * MAX_SLOTS
    ensures var r := WriteBlocks(st, slots, owner, off, buf);
            && (forall b :: 0 <= b < NUM_BLOCKS && st.table[b].used ==> r.st.table[b] == st.table[b])
            && (forall b :: 0 <= b < NUM_BLOCKS && st.table[b].used && st.table[b].owner != owner ==>
                 r.st.disk[b] == st.disk[b])
  {
    var cur := off / BLOCK_SIZE;
    var total := CeilDiv(off + |buf|, BLOCK_SIZE);
    if InPlace(slots, off, |buf|) {
      UnfoldInPlace(st, slots, owner, off, buf);
      var w := Min(|buf|, BLOCK_SIZE - off % BLOCK_SIZE);
      FreshFrame(FirstPatched(st, slots, off, buf), slots, owner, buf[w..], cur + 1, total);
    } else {
      UnfoldFresh(st, slots, owner, off, buf);
      FreshFrame(st, slots, owner, buf, cur, total);
    }
  }

  /** The refinement: the mapped bytes become the old bytes before the offset followed by
      the stored part of the buffer, all of it on success, and whatever was stored before
      the disk filled up otherwise. */
  lemma WriteBytes(st: Store, slots: seq<nat>, owner: nat, off: nat, buf: seq<Byte>)
    requires Linked(st, slots, owner) && off <= Mapped(slots) * BLOCK_SIZE
    requires off + |buf| <= BLOCK_SIZE * MAX_SLOTS
    ensures var r := WriteBlocks(st, slots, owner, off, buf);
            && (r.ok ==> r.left == 0)
            && Begins(MappedBytes(r.st, r.slots), MappedBytes(st, slots)[..off] + buf[..|buf| - r.left])
  {
    var r := WriteBlocks(st, slots, owner, off, buf);
    WriteNext(st, slots, owner, off, buf);
    WriteAll(st, slots, owner, off, buf);
    WriteFront(st, slots, owner, off, buf);
    BytesPrefix(r.st.disk, r.slots, r.next, Mapped(r.slots));
  }

  lemma WriteFront(st: Store, slots: seq<nat>, owner: nat, off: nat, buf: seq<Byte>)
    requires Linked(st, slots, owner) && off <= Mapped(slots) * BLOCK_SIZE
    requires off + |buf| <= BLOCK_SIZE * MAX_SLOTS
    ensures var r := WriteBlocks(st, slots, owner, off, buf);
            && r.next <= |r.slots|
            && Begins(Bytes(r.st.disk, r.slots, r.next), MappedBytes(st, slots)[..off] + buf[..|buf| - r.left])
  {
    var cur := off / BLOCK_SIZE;
    var total := CeilDiv(off + |buf|, BLOCK_SIZE);
    var r := WriteBlocks(st, slots, owner, off, buf);
    if InPlace(slots, off, |buf|) {
      WriteFrontInPlace(st, slots, owner, off, buf, r);
    } else {
      UnfoldFresh(st, slots, owner, off, buf);
      WriteBytesFresh(st, slots, owner, off, buf, cur, total, r);
    }
  }

  lemma WriteFrontInPlace(st: Store, slots: seq<nat>, owner: nat, off: nat, buf: seq<Byte>, r: Written)
    requires Linked(st, slots, owner) && off + |buf| <= BLOCK_SIZE * MAX_SLOTS && InPlace(slots, off, |buf|)
    requires r == WriteBlocks(st, slots, owner, off, buf)
    ensures r.next <= |r.slots|
    ensures Begins(Bytes(r.st.disk, r.slots, r.next), MappedBytes(st, slots)[..off] + buf[..|buf| - r.left])
  {
    UnfoldInPlace(st, slots, owner, off, buf);
    var i := off / BLOCK_SIZE + 1;
    var total := CeilDiv(off + |buf|, BLOCK_SIZE);
    var w := Min(|buf|, BLOCK_SIZE - off % BLOCK_SIZE);
    var st1 := FirstPatched(st, slots, off, buf);
    FreshLeft(st1, slots, owner, buf[w..], i, total, r);
    FreshBytes(st1, slots, owner, buf[w..], i, total, r);
    WriteBytesFirst(st, st1, slots, off, buf, i, w, r.next - i, r.left, Bytes(r.st.disk, r.slots, r.next));
  }

  /** Filling the range of a write stores the whole buffer. */
  lemma WriteAll(st: Store, slots: seq<nat>, owner: nat, off: nat, buf: seq<Byte>)
    requires Linked(st, slots, owner) && off <= Mapped(slots) * BLOCK_SIZE
    requires off + |buf| <= BLOCK_SIZE * MAX_SLOTS
    ensures var r := WriteBlocks(st, slots, owner, off, buf); r.ok ==> r.left == 0
  {
    var cur := off / BLOCK_SIZE;
    var total := CeilDiv(off + |buf|, BLOCK_SIZE);
    var r := WriteBlocks(st, slots, owner, off, buf);
    if InPlace(slots, off, |buf|) {
      UnfoldInPlace(st, slots, owner, off, buf);
      var w := Min(|buf|, BLOCK_SIZE - off % BLOCK_SIZE);
      FreshLeft(FirstPatched(st, slots, off, buf), slots, owner, buf[w..], cur + 1, total, r);
      DivBlock(off, total);
    } else {
      UnfoldFresh(st, slots, owner, off, buf);
      FreshLeft(st, slots, owner, buf, cur, total, r);
    }
  }

  /** The slots that the loop has passed are mapped. */
  lemma WriteNext(st: Store, slots: seq<nat>, owner: nat, off: nat, buf: seq<Byte>)
    requires Linked(st, slots, owner) && off <= Mapped(slots) * BLOCK_SIZE
    requires off + |buf| <= BLOCK_SIZE * MAX_SLOTS
    ensures var r := WriteBlocks(st, slots, owner, off, buf); r.next <= Mapped(r.slots)
  {
    if InPlace(slots, off, |buf|) {
      UnfoldInPlace(st, slots, owner, off, buf);
      FreshNext(FirstPatched(st, slots, off, buf), slots, owner, buf[Min(|buf|, BLOCK_SIZE - off % BLOCK_SIZE)..],
                off / BLOCK_SIZE + 1, CeilDiv(off + |buf|, BLOCK_SIZE));
    } else {
      UnfoldFresh(st, slots, owner, off, buf);
      FreshNext(st, slots, owner, buf, off / BLOCK_SIZE, CeilDiv(off + |buf|, BLOCK_SIZE));
    }
  }

  lemma {:induction false} FreshNext(st: Store, slots: seq<nat>, owner: nat, rest: seq<Byte>, i: nat, total: nat)
    requires Sized(st) && i <= total <= |slots| && i <= Mapped(slots)
    ensures var r := FreshLoop(st, slots, owner, rest, i, total); r.next <= Mapped(r.slots)
    decreases total - i
  {
    var w := Min(|rest|, BLOCK_SIZE);
    if i < total && Occupy(st, owner, rest[..w]).Some? {
      var (st', addr) := Occupy(st, owner, rest[..w]).value;
      assert i + 1 <= Mapped(slots[i := addr]);
      FreshNext(st', slots[i := addr], owner, rest[w..], i + 1, total);
    }
  }

  /** The case of WriteBytes in which the first block is updated in place. */
  lemma WriteBytesFirst(st: Store, st1: Store, slots: seq<nat>, off: nat, buf: seq<Byte>,
                        i: nat, w: nat, n: nat, left: nat, all: seq<Byte>)
    requires Sized(st) && SlotsInRange(slots) && i == off / BLOCK_SIZE + 1 <= Mapped(slots)
    requires forall j :: 0 <= j < i - 1 ==> slots[j] != slots[i - 1]
    requires w == Min(|buf|, BLOCK_SIZE - off % BLOCK_SIZE)
    requires st1 == FirstPatched(st, slots, off, buf)
    requires left == |buf[w..]| - Min(|buf[w..]|, n * BLOCK_SIZE)
    requires all == Bytes(st1.disk, slots, i) + Chunked(buf[w..], n)
    ensures Begins(all, MappedBytes(st, slots)[..off] + buf[..|buf| - left])
  {
    var cur := i - 1;
    var front, block, at := Bytes(st.disk, slots, cur), st.disk[slots[cur] - 1], off % BLOCK_SIZE;
    var patched, before := Bytes(st1.disk, slots, i), MappedBytes(st, slots)[..off];
    assert patched == front + Patch(block, at, buf[..w]) by {
      BytesFrame(st.disk, st1.disk, slots, slots, cur);
    }
    assert before == front + block[..at] by {
      BytesRange(st.disk, slots, Mapped(slots), off, 0);
    }
    Stitch(all, patched, before, front, block, at, buf, w, n, left);
  }

  /** The front of a block, new data in the rest of it, and more data in further blocks. */
  lemma Stitch(all: seq<Byte>, patched: seq<Byte>, before: seq<Byte>,
               front: seq<Byte>, block: Block, at: nat, buf: seq<Byte>, w: nat, n: nat, left: nat)
    requires at < BLOCK_SIZE && w == Min(|buf|, BLOCK_SIZE - at)
    requires left == |buf[w..]| - Min(|buf[w..]|, n * BLOCK_SIZE)
    requires patched == front + Patch(block, at, buf[..w]) && before == front + block[..at]
    requires all == patched + Chunked(buf[w..], n)
    ensures Begins(all, before + buf[..|buf| - left])
  {
    var d := Min(|buf[w..]|, n * BLOCK_SIZE);
    ChunkedBegins(buf[w..], n);
    assert |buf| - left == w + d;
    assert buf[..w + d] == buf[..w] + buf[w..][..d];
    if |buf| < BLOCK_SIZE - at {
      assert buf[w..][..d] == [];
    } else {
      assert Patch(block, at, buf[..w]) == block[..at] + buf[..w];
    }
  }

  /** The case of WriteBytes in which the write starts with a new block. */
  lemma WriteBytesFresh(st: Store, slots: seq<nat>, owner: nat, off: nat, buf: seq<Byte>,
                        cur: nat, total: nat, r: Written)
    requires Linked(st, slots, owner) && off == cur * BLOCK_SIZE && cur <= Mapped(slots)
    requires total == CeilDiv(off + |buf|, BLOCK_SIZE) && cur <= total <= MAX_SLOTS
    requires r == FreshLoop(st, slots, owner, buf, cur, total)
    ensures r.next <= |r.slots|
    ensures Begins(Bytes(r.st.disk, r.slots, r.next), MappedBytes(st, slots)[..off] + buf[..|buf| - r.left])
  {
    FreshLeft(st, slots, owner, buf, cur, total, r);
    FreshBytes(st, slots, owner, buf, cur, total, r);
    BytesPrefix(st.disk, slots, cur, Mapped(slots));
    assert MappedBytes(st, slots)[..off] == Bytes(st.disk, slots, cur);
    ChunkedBegins(buf, r.next - cur);
  }

  /** A write succeeds exactly when enough blocks are free, and then uses exactly that many. */
  lemma WriteSucceedsIff(st: Store, slots: seq<nat>, owner: nat, off: nat, buf: seq<Byte>)
    requires Linked(st, slots, owner) && off <= Mapped(slots) * BLOCK_SIZE
    requires off + |buf| <= BLOCK_SIZE * MAX_SLOTS
    ensures var r := WriteBlocks(st, slots, owner, off, buf);
            && (r.ok <==> Needed(slots, off, |buf|) <= CountFree(st.table))
            && CountFree(r.st.table) == (if r.ok then CountFree(st.table) - Needed(slots, off, |buf|) else 0)
  {
    var cur := off / BLOCK_SIZE;
    var total := CeilDiv(off + |buf|, BLOCK_SIZE);
    if InPlace(slots, off, |buf|) {
      UnfoldInPlace(st, slots, owner, off, buf);
      var w := Min(|buf|, BLOCK_SIZE - off % BLOCK_SIZE);
      FreshCount(FirstPatched(st, slots, off, buf), slots, owner, buf[w..], cur + 1, total);
    } else {
      UnfoldFresh(st, slots, owner, off, buf);
      FreshCount(st, slots, owner, buf, cur, total);
    }
  }

  /** A loop that fails has filled as many slots as there were free blocks. */
  lemma {:induction false} FreshStops(st: Store, slots: seq<nat>, owner: nat, rest: seq<Byte>, i: nat, total: nat,
                                      r: Written)
    requires Sized(st) && i <= total <= |slots| && r == FreshLoop(st, slots, owner, rest, i, total) && !r.ok
    ensures r.next == i + CountFree(st.table)
    decreases total - i
  {
    if i == total {
    } else {
      var w := Min(|rest|, BLOCK_SIZE);
      NoneFree(st.table);
      match Occupy(st, owner, rest[..w])
      case None =>
      case Some((st', addr)) =>
        CountFreeUpdate(st.table, addr - 1, Entry(true, owner));
        FreshStops(st', slots[i := addr], owner, rest[w..], i + 1, total, r);
    }
  }

  /** How much of a buffer that does not fit is stored: the rest of a mapped first block, and
      all free blocks. */
  function StoredOnFailure(slots: seq<nat>, off: nat, st: Store): nat {
    (if off / BLOCK_SIZE < |slots| && slots[off / BLOCK_SIZE] != 0 then BLOCK_SIZE - off % BLOCK_SIZE else 0)
    + CountFree(st.table) * BLOCK_SIZE
  }

  lemma WriteStores(st: Store, slots: seq<nat>, owner: nat, off: nat, buf: seq<Byte>)
    requires Linked(st, slots, owner) && off <= Mapped(slots) * BLOCK_SIZE
    requires off + |buf| <= BLOCK_SIZE * MAX_SLOTS && !WriteBlocks(st, slots, owner, off, buf).ok
    ensures |buf| - WriteBlocks(st, slots, owner, off, buf).left == StoredOnFailure(slots, off, st) < |buf|
  {
    var cur, total := off / BLOCK_SIZE, CeilDiv(off + |buf|, BLOCK_SIZE);
    var r := WriteBlocks(st, slots, owner, off, buf);
    if InPlace(slots, off, |buf|) {
      UnfoldInPlace(st, slots, owner, off, buf);
      StoresInPlace(st, slots, owner, off, buf, r);
    } else {
      UnfoldFresh(st, slots, owner, off, buf);
      FreshStops(st, slots, owner, buf, cur, total, r);
      FreshCount(st, slots, owner, buf, cur, total);
      FreshLeft(st, slots, owner, buf, cur, total, r);
      TooManyBlocks(CountFree(st.table), total - cur, |buf|);
    }
  }

  lemma StoresInPlace(st: Store, slots: seq<nat>, owner: nat, off: nat, buf: seq<Byte>, r: Written)
    requires Linked(st, slots, owner) && off + |buf| <= BLOCK_SIZE * MAX_SLOTS && InPlace(slots, off, |buf|)
    requires r == WriteBlocks(st, slots, owner, off, buf) && !r.ok
    ensures |buf| - r.left == StoredOnFailure(slots, off, st) < |buf|
  {
    UnfoldInPlace(st, slots, owner, off, buf);
    var i, total, at := off / BLOCK_SIZE + 1, CeilDiv(off + |buf|, BLOCK_SIZE), off % BLOCK_SIZE;
    var w := Min(|buf|, BLOCK_SIZE - at);
    var st1 := FirstPatched(st, slots, off, buf);
    FreshStops(st1, slots, owner, buf[w..], i, total, r);
    FreshCount(st1, slots, owner, buf[w..], i, total);
    FreshLeft(st1, slots, owner, buf[w..], i, total, r);
    FirstIsFull(off, |buf|, i, total, w);
    TooManyBlocks(CountFree(st.table), total - i, |buf| - w);
  }

  /** A write that goes beyond its first block fills that block. */
  lemma FirstIsFull(off: nat, n: nat, i: nat, total: nat, w: nat)
    requires i == off / BLOCK_SIZE + 1 < total == CeilDiv(off + n, BLOCK_SIZE)
        && w == Min(n, BLOCK_SIZE - off % BLOCK_SIZE)
    ensures w == BLOCK_SIZE - off % BLOCK_SIZE
    ensures total - i == CeilDiv(n - w, BLOCK_SIZE)
  {
    DivBlock(off, i);
  }

  lemma TooManyBlocks(free: nat, blocks: nat, n: nat)
    requires free < blocks == CeilDiv(n, BLOCK_SIZE)
    ensures free * BLOCK_SIZE < n
  {
    assert free <= blocks - 1;
  }

  /** Which blocks a write, successful or not, allocates, and which blocks its inode then
      refers to: the old ones, less the replaced ones, plus the new ones. */
  lemma WriteAllocates(st: Store, slots: seq<nat>, owner: nat, off: nat, buf: seq<Byte>)
    requires Linked(st, slots, owner) && off <= Mapped(slots) * BLOCK_SIZE
    requires off + |buf| <= BLOCK_SIZE * MAX_SLOTS
    ensures var r := WriteBlocks(st, slots, owner, off, buf);
            var added := Allocated(r.st) - Allocated(st);
            && Allocated(st) <= Allocated(r.st)
            && r.next <= MAX_SLOTS
            && SlotBlocks(r.slots, 0, MAX_SLOTS)
               == SlotBlocks(slots, 0, MAX_SLOTS) - Replaced(slots, off, r.next) + added
            && Replaced(slots, off, r.next) <= SlotBlocks(slots, 0, MAX_SLOTS)
  {
    if InPlace(slots, off, |buf|) {
      UnfoldInPlace(st, slots, owner, off, buf);
      var st1 := FirstPatched(st, slots, off, buf);
      assert Allocated(st1) == Allocated(st);
      AllocatesFrom(st1, slots, owner, buf[Min(|buf|, BLOCK_SIZE - off % BLOCK_SIZE)..],
                    off / BLOCK_SIZE + 1, CeilDiv(off + |buf|, BLOCK_SIZE), off);
    } else {
      UnfoldFresh(st, slots, owner, off, buf);
      AllocatesFrom(st, slots, owner, buf, off / BLOCK_SIZE, CeilDiv(off + |buf|, BLOCK_SIZE), off);
    }
  }

  lemma AllocatesFrom(st: Store, slots: seq<nat>, owner: nat, rest: seq<Byte>, i: nat, total: nat, off: nat)
    requires Linked(st, slots, owner) && i <= total <= MAX_SLOTS
    requires i == off / BLOCK_SIZE + 1 || (i == off / BLOCK_SIZE && (i < total ==> slots[i] == 0))
    ensures var r := FreshLoop(st, slots, owner, rest, i, total);
            var added := Allocated(r.st) - Allocated(st);
            && Allocated(st) <= Allocated(r.st)
            && SlotBlocks(r.slots, 0, MAX_SLOTS)
               == SlotBlocks(slots, 0, MAX_SLOTS) - Replaced(slots, off, r.next) + added
            && Replaced(slots, off, r.next) <= SlotBlocks(slots, 0, MAX_SLOTS)
  {
    var r := FreshLoop(st, slots, owner, rest, i, total);
    FreshAllocated(st, slots, owner, rest, i, total);
    SlotExchange(slots, r.slots, i, r.next);
    assert SlotBlocks(slots, i, r.next) == Replaced(slots, off, r.next);
  }

  /** Replacing the slots i .. j of an array without repeated slots. */
  lemma SlotExchange(slots: seq<nat>, slots': seq<nat>, i: nat, j: nat)
    requires |slots| == |slots'| == MAX_SLOTS && i <= j <= MAX_SLOTS
    requires forall x, y :: 0 <= x < y < |slots| && slots[x] > 0 ==> slots[x] != slots[y]
    requires forall x :: 0 <= x < |slots| && !(i <= x < j) ==> slots'[x] == slots[x]
    ensures SlotBlocks(slots', 0, MAX_SLOTS)
            == SlotBlocks(slots, 0, MAX_SLOTS) - SlotBlocks(slots, i, j) + SlotBlocks(slots', i, j)
  {
    var before, after := SlotBlocks(slots, 0, MAX_SLOTS), SlotBlocks(slots', 0, MAX_SLOTS);
    forall b | b in before && b !in SlotBlocks(slots, i, j) ensures b in after {
      var x :| 0 <= x < MAX_SLOTS && slots[x] > 0 && slots[x] - 1 == b;
      assert slots'[x] == slots[x];
    }
    forall b | b in after && b !in SlotBlocks(slots', i, j) ensures b in before && b !in SlotBlocks(slots, i, j) {
      var x :| 0 <= x < MAX_SLOTS && slots'[x] > 0 && slots'[x] - 1 == b;
      assert slots'[x] == slots[x];
    }
  }

  // ------------------------------------------------------------------ read_inode

  /** One iteration of the read loop: it moves inside one block, from i to j. */
  lemma ReadStep(st: Store, slots: seq<nat>, i: nat, n: nat, j: nat, m: nat, all: seq<Byte>)
    requires Sized(st) && SlotsInRange(slots) && all == MappedBytes(st, slots) && i < |all|
    requires n > 0 && j == i + Min(n, BLOCK_SIZE - i % BLOCK_SIZE) && m == n - (j - i)
    ensures j <= |all|
    ensures var r := ReadLoop(st, slots, j, m);
            ReadLoop(st, slots, i, n) == ReadOut(all[i..j] + r.data, r.off, r.ok)
  {
    DivBlock(i, Mapped(slots));
    var w, at := j - i, i % BLOCK_SIZE;
    var r := ReadLoop(st, slots, i + w, n - w);
    var block := BlockAt(st.disk, slots[i / BLOCK_SIZE]);
    assert ReadLoop(st, slots, i, n) == ReadOut(block[at..at + w] + r.data, r.off, r.ok);
    BytesRange(st.disk, slots, Mapped(slots), i, w);
  }

  /** A read inside the mapped bytes succeeds and returns exactly the requested bytes. */
  lemma ReadExact(st: Store, slots: seq<nat>, off: nat, n: nat, end: nat)
    requires Sized(st) && SlotsInRange(slots) && off + n == end <= Mapped(slots) * BLOCK_SIZE
    ensures ReadLoop(st, slots, off, n) == ReadOut(MappedBytes(st, slots)[off..end], end, true)
  {
    ReadFrom(st, slots, off, n, end, ReadLoop(st, slots, off, n), MappedBytes(st, slots));
  }

  lemma {:induction false} ReadFrom(st: Store, slots: seq<nat>, i: nat, n: nat, end: nat, r: ReadOut, all: seq<Byte>)
    requires Sized(st) && SlotsInRange(slots) && all == MappedBytes(st, slots) && i + n == end <= |all|
    requires r == ReadLoop(st, slots, i, n)
    ensures r == ReadOut(all[i..end], end, true)
    decreases n
  {
    if n == 0 {
      assert all[i..end] == [];
    } else {
      var j, m := NextBlock(i, n);
      ReadStep(st, slots, i, n, j, m, all);
      ReadFrom(st, slots, j, m, end, ReadLoop(st, slots, j, m), all);
      Join(all, i, j, end, all[i..j], all[j..end]);
    }
  }

  lemma NextBlock(i: nat, n: nat) returns (j: nat, m: nat)
    requires n > 0
    ensures j == i + Min(n, BLOCK_SIZE - i % BLOCK_SIZE) && m == n - (j - i) && i < j && m < n && j + m == i + n
  {
    j := i + Min(n, BLOCK_SIZE - i % BLOCK_SIZE);
    m := n - (j - i);
  }

  lemma Join(all: seq<Byte>, i: nat, j: nat, k: nat, x: seq<Byte>, y: seq<Byte>)
    requires i <= j <= k <= |all| && x == all[i..j] && y == all[j..k]
    ensures x + y == all[i..k]
  {
  }

  /** Any other read fails, having moved the offset over exactly the mapped blocks. */
  lemma {:induction false} ReadPastEnd(st: Store, slots: seq<nat>, off: nat, n: nat)
    requires Sized(st) && SlotsInRange(slots) && off <= Mapped(slots) * BLOCK_SIZE < off + n
    ensures !ReadLoop(st, slots, off, n).ok
    ensures ReadLoop(st, slots, off, n).off == Mapped(slots) * BLOCK_SIZE
    decreases n
  {
    var c := off / BLOCK_SIZE;
    if c < MAX_SLOTS && slots[c] != 0 {
      ReadPastEnd(st, slots, off + Min(n, BLOCK_SIZE - off % BLOCK_SIZE), n - Min(n, BLOCK_SIZE - off % BLOCK_SIZE));
    }
  }

  // ------------------------------------------------------------------ unlink

  /** The freeing loop of unlink_inode: it stops at the first unmapped slot. */
  function FreeSlots(table: seq<Entry>, slots: seq<nat>, i: nat): (r: seq<Entry>)
    requires |table| == NUM_BLOCKS && SlotsInRange(slots) && i <= |slots|
    ensures |r| == |table|
    decreases |slots| - i
  {
    if i == |slots| || slots[i] == 0 then table
    else FreeSlots(table[slots[i] - 1 := Entry(false, 0)], slots, i + 1)
  }

  lemma {:induction false} FreeSlotsAt(table: seq<Entry>, slots: seq<nat>, i: nat, b: nat)
    requires |table| == NUM_BLOCKS && SlotsInRange(slots) && i <= |slots| && b < NUM_BLOCKS
    ensures FreeSlots(table, slots, i)[b]
            == if b in SlotBlocks(slots, i, Mapped(slots, i)) then Entry(false, 0) else table[b]
    decreases |slots| - i
  {
    if i < |slots| && slots[i] != 0 {
      FreeSlotsAt(table[slots[i] - 1 := Entry(false, 0)], slots, i + 1, b);
      assert SlotBlocks(slots, i, Mapped(slots, i)) == {slots[i] - 1} + SlotBlocks(slots, i + 1, Mapped(slots, i + 1));
    }
  }

  /** Because mapped slots form a prefix, the freeing loop frees exactly the blocks tagged
      with the inode through its slots and no other block. */
  lemma FreeAllSlots(st: Store, slots: seq<nat>, owner: nat)
    requires Linked(st, slots, owner)
    ensures var t := FreeSlots(st.table, slots, 0);
            forall b :: 0 <= b < NUM_BLOCKS ==>
              t[b] == if b in SlotBlocks(slots, 0, MAX_SLOTS) then Entry(false, 0) else st.table[b]
  {
    assert SlotBlocks(slots, 0, Mapped(slots)) == SlotBlocks(slots, 0, MAX_SLOTS);
    forall b | 0 <= b < NUM_BLOCKS
      ensures FreeSlots(st.table, slots, 0)[b]
           == if b in SlotBlocks(slots, 0, MAX_SLOTS) then Entry(false, 0) else st.table[b]
    {
      FreeSlotsAt(st.table, slots, 0, b);
    }
  }

  // ------------------------------------------------------------------ 32-bit wrap-around

  /** A write whose end wraps around 2^32 allocates nothing and keeps everything well mapped;
      at most the rest of the block under the offset is overwritten. */
  lemma WriteWrapped(st: Store, slots: seq<nat>, owner: nat, off: nat, buf: seq<Byte>)
    requires Linked(st, slots, owner) && off <= Mapped(slots) * BLOCK_SIZE
    requires |buf| < U32 <= off + |buf| && NewOffset(off, |buf|) <= BLOCK_SIZE * MAX_SLOTS
    ensures var r := WriteBlocks(st, slots, owner, off, buf);
            && NewOffset(off, |buf|) < off
            && r.ok && r.left > 0 && r.slots == slots && r.st.table == st.table
            && Linked(r.st, r.slots, owner)
            && (forall b :: 0 <= b < NUM_BLOCKS && st.table[b].owner != owner ==> r.st.disk[b] == st.disk[b])
            && MappedBytes(r.st, r.slots)[..off] == MappedBytes(st, slots)[..off]
  {
    var cur := off / BLOCK_SIZE;
    var total := CeilDiv(NewOffset(off, |buf|), BLOCK_SIZE);
    assert total <= cur + 1;
    if cur < total && slots[cur] != 0 {
      assert WriteBlocks(st, slots, owner, off, buf).st == FirstPatched(st, slots, off, buf);
      PatchKeeps(st, slots, owner, off, buf);
    }
  }

  /** Updating the block under an offset keeps every byte before the offset. */
  lemma PatchKeeps(st: Store, slots: seq<nat>, owner: nat, off: nat, buf: seq<Byte>)
    requires Linked(st, slots, owner) && off / BLOCK_SIZE < Mapped(slots)
    ensures MappedBytes(FirstPatched(st, slots, off, buf), slots)[..off] == MappedBytes(st, slots)[..off]
  {
    var cur, at := off / BLOCK_SIZE, off % BLOCK_SIZE;
    var st' := FirstPatched(st, slots, off, buf);
    BytesRange(st.disk, slots, Mapped(slots), off, 0);
    BytesRange(st'.disk, slots, Mapped(slots), off, 0);
    assert forall j :: 0 <= j < cur ==> slots[j] != slots[cur];
    BytesFrame(st.disk, st'.disk, slots, slots, cur);
    assert st'.disk[slots[cur] - 1][..at] == st.disk[slots[cur] - 1][..at];
  }
}
