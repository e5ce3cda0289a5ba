/**
 Every byte that a write leaves in a file: the block loop of write_inode computes `Store` and
 `StoreWrapped` of the reference, on the bytes behind the slots.
 */
module StoredBytes {
  import opened Common
  import opened Blocks
  import opened Reference

  lemma {:induction false} BytesTail(disk: seq<Block>, disk': seq<Block>, slots: seq<nat>, slots': seq<nat>,
                                     i: nat, k: nat)
    requires i <= k <= |slots| && k <= |slots'|
    requires forall j :: i <= j < k ==> BlockAt(disk', slots'[j]) == BlockAt(disk, slots[j])
    ensures Bytes(disk', slots', k)[i * BLOCK_SIZE..] == Bytes(disk, slots, k)[i * BLOCK_SIZE..]
  {
    if i < k {
      BytesTail(disk, disk', slots, slots', i, k - 1);
      TailStep(Bytes(disk, slots, k - 1), Bytes(disk', slots', k - 1), BlockAt(disk, slots[k - 1]), i * BLOCK_SIZE);
    }
  }

  lemma TailStep(x: seq<Byte>, y: seq<Byte>, block: seq<Byte>, at: nat)
    requires at <= |x| == |y| && y[at..] == x[at..]
    ensures (y + block)[at..] == (x + block)[at..]
  {
    assert (y + block)[at..] == y[at..] + block;
    assert (x + block)[at..] == x[at..] + block;
  }

  lemma {:induction false} ChunkedIs(rest: seq<Byte>, n: nat)
    ensures var d := Min(|rest|, n * BLOCK_SIZE);
            Chunked(rest, n) == rest[..d] + Zeros(n * BLOCK_SIZE - d)
  {
    if n == 0 {
    } else {
      var w := Min(|rest|, BLOCK_SIZE);
      ChunkedIs(rest[w..], n - 1);
      ChunkJoin(rest, w, n, Chunked(rest[w..], n - 1));
    }
  }

  lemma ChunkJoin(rest: seq<Byte>, w: nat, n: nat, more: seq<Byte>)
    requires n > 0 && w == Min(|rest|, BLOCK_SIZE)
    requires var d := Min(|rest| - w, (n - 1) * BLOCK_SIZE); more == rest[w..][..d] + Zeros((n - 1) * BLOCK_SIZE - d)
    ensures var d := Min(|rest|, n * BLOCK_SIZE); Pad(rest[..w]) + more == rest[..d] + Zeros(n * BLOCK_SIZE - d)
  {
    var d := Min(|rest| - w, (n - 1) * BLOCK_SIZE);
    if |rest| >= BLOCK_SIZE {
      assert Pad(rest[..w]) == rest[..w];
      assert rest[..w] + rest[w..][..d] == rest[..w + d];
    } else {
      assert rest[w..][..d] == [];
      assert Zeros(BLOCK_SIZE - w) + Zeros((n - 1) * BLOCK_SIZE) == Zeros(n * BLOCK_SIZE - w);
    }
  }

  // ------------------------------------------------------------------ the allocating loop

  /** The slots that the loop has not reached are as before, so the prefix ends where it did. */
  lemma FreshMapped(st: Store, slots: seq<nat>, owner: nat, rest: seq<Byte>, i: nat, total: nat, r: Written)
    requires Linked(st, slots, owner) && i <= total <= MAX_SLOTS && i <= Mapped(slots)
    requires r == FreshLoop(st, slots, owner, rest, i, total)
    ensures Mapped(r.slots) == if r.next <= Mapped(slots) then Mapped(slots) else r.next
    ensures forall j :: r.next <= j < MAX_SLOTS ==> r.slots[j] == slots[j]
  {
    FreshNext(st, slots, owner, rest, i, total);
    FreshLinked(st, slots, owner, rest, i, total);
    FreshAllocated(st, slots, owner, rest, i, total);
    MappedIs(r.slots, if r.next <= Mapped(slots) then Mapped(slots) else r.next);
  }

  lemma FreshBehind(st: Store, slots: seq<nat>, owner: nat, rest: seq<Byte>, i: nat, total: nat, r: Written,
                    m: seq<Byte>, m': seq<Byte>)
    requires Linked(st, slots, owner) && i <= total <= MAX_SLOTS && i <= Mapped(slots)
    requires r == FreshLoop(st, slots, owner, rest, i, total)
    requires m == MappedBytes(st, slots) && m' == MappedBytes(r.st, r.slots)
    ensures Back(m', r.next * BLOCK_SIZE) == Back(m, r.next * BLOCK_SIZE)
    ensures r.next <= Mapped(r.slots)
  {
    FreshMapped(st, slots, owner, rest, i, total, r);
    FreshFrame(st, slots, owner, rest, i, total);
    SameBehind(st, r.st, slots, r.slots, r.next, m, m');
  }

  lemma SameBehind(st: Store, st': Store, slots: seq<nat>, slots': seq<nat>, next: nat, m: seq<Byte>, m': seq<Byte>)
    requires m == MappedBytes(st, slots) && m' == MappedBytes(st', slots') && |slots| == |slots'|
    requires Mapped(slots') == if next <= Mapped(slots) then Mapped(slots) else next
    requires forall j :: next <= j < |slots| ==> slots'[j] == slots[j]
    requires forall j :: next <= j < Mapped(slots) ==> BlockAt(st'.disk, slots[j]) == BlockAt(st.disk, slots[j])
    ensures Back(m', next * BLOCK_SIZE) == Back(m, next * BLOCK_SIZE)
  {
    if next <= Mapped(slots) { BytesTail(st.disk, st'.disk, slots, slots', next, Mapped(slots)); }
  }

  lemma FrontOf(st: Store, slots: seq<nat>, i: nat, front: seq<Byte>, m: seq<Byte>)
    requires i <= Mapped(slots) && front == Bytes(st.disk, slots, i) && m == MappedBytes(st, slots)
    ensures Begins(m, front) && |front| == i * BLOCK_SIZE
  {
    BytesPrefix(st.disk, slots, i, Mapped(slots));
  }

  /** The bytes of the slots that the loop has passed. */
  lemma FreshFront(st: Store, slots: seq<nat>, owner: nat, rest: seq<Byte>, i: nat, total: nat, r: Written,
                   m: seq<Byte>, m': seq<Byte>, front: seq<Byte>, chunks: seq<Byte>)
    requires Linked(st, slots, owner) && i <= total <= MAX_SLOTS && i <= Mapped(slots)
    requires r == FreshLoop(st, slots, owner, rest, i, total) && r.next <= Mapped(r.slots)
    requires m == MappedBytes(st, slots) && m' == MappedBytes(r.st, r.slots)
    requires front == Bytes(st.disk, slots, i) && chunks == Chunked(rest, r.next - i)
    ensures Begins(m, front) && |front| == i * BLOCK_SIZE && Begins(m', front + chunks)
  {
    FreshBytes(st, slots, owner, rest, i, total, r);
    FrontOf(st, slots, i, front, m);
    FrontOf(r.st, r.slots, r.next, front + chunks, m');
  }

  /** The bytes m with n blocks of chunks put over them. */
  ghost predicate Overlaid(m: seq<Byte>, m': seq<Byte>, at: nat, n: nat, rest: seq<Byte>) {
    at <= |m| && m' == m[..at] + Chunked(rest, n) + Back(m, at + n * BLOCK_SIZE)
  }

  /** What the loop makes of the bytes: those of the first i slots, the chunks, and the rest. */
  lemma FreshAll(st: Store, slots: seq<nat>, owner: nat, rest: seq<Byte>, i: nat, total: nat, r: Written,
                 m: seq<Byte>, m': seq<Byte>, at: nat, n: nat)
    requires Linked(st, slots, owner) && i <= total <= MAX_SLOTS && i <= Mapped(slots)
    requires r == FreshLoop(st, slots, owner, rest, i, total) && at == i * BLOCK_SIZE && n == r.next - i
    requires m == MappedBytes(st, slots) && m' == MappedBytes(r.st, r.slots)
    ensures Overlaid(m, m', at, n, rest)
  {
    var front, chunks := Bytes(st.disk, slots, i), Chunked(rest, n);
    FreshBehind(st, slots, owner, rest, i, total, r, m, m');
    FreshFront(st, slots, owner, rest, i, total, r, m, m', front, chunks);
    Glue(m, m', front, chunks, at, r.next * BLOCK_SIZE, n, rest);
  }

  lemma Glue(m: seq<Byte>, m': seq<Byte>, front: seq<Byte>, chunks: seq<Byte>, at: nat, end: nat, n: nat,
             rest: seq<Byte>)
    requires Begins(m, front) && |front| == at && Begins(m', front + chunks) && at + n * BLOCK_SIZE == end
    requires chunks == Chunked(rest, n) && Back(m', end) == Back(m, end)
    ensures Overlaid(m, m', at, n, rest)
  {
  }

  /** The loop as a function of the bytes and the number of free blocks. */
  ghost function StoreFresh(m: seq<Byte>, at: nat, rest: seq<Byte>, free: nat): Outcome {
    var need := CeilDiv(|rest|, BLOCK_SIZE);
    if need <= free then
      Outcome(Front(m, at) + rest + Zeros(need * BLOCK_SIZE - |rest|) + Back(m, at + need * BLOCK_SIZE),
              free - need, true)
    else Outcome(Front(m, at) + Front(rest, free * BLOCK_SIZE) + Back(m, at + free * BLOCK_SIZE), 0, false)
  }

  ghost function OutcomeOf(r: Written): Outcome {
    Outcome(MappedBytes(r.st, r.slots), CountFree(r.st.table), r.ok)
  }

  lemma FreshStored(st: Store, slots: seq<nat>, owner: nat, rest: seq<Byte>, i: nat, total: nat, r: Written,
                    m: seq<Byte>, m': seq<Byte>, at: nat)
    requires Linked(st, slots, owner) && i <= total <= MAX_SLOTS && i <= Mapped(slots) && at == i * BLOCK_SIZE
    requires total - i == CeilDiv(|rest|, BLOCK_SIZE)
    requires r == FreshLoop(st, slots, owner, rest, i, total)
    requires m == MappedBytes(st, slots) && m' == MappedBytes(r.st, r.slots)
    ensures Outcome(m', CountFree(r.st.table), r.ok) == StoreFresh(m, at, rest, CountFree(st.table))
  {
    var n, need, free := r.next - i, total - i, CountFree(st.table);
    FreshAll(st, slots, owner, rest, i, total, r, m, m', at, n);
    FreshCounts(st, slots, owner, rest, i, total, r, need, free);
    ChunksStored(m, m', at, n, rest, free, need);
  }

  lemma FreshCounts(st: Store, slots: seq<nat>, owner: nat, rest: seq<Byte>, i: nat, total: nat, r: Written,
                    need: nat, free: nat)
    requires Sized(st) && i <= total <= |slots| && r == FreshLoop(st, slots, owner, rest, i, total)
    requires need == total - i && free == CountFree(st.table)
    ensures r.ok == (need <= free) && r.next - i == (if need <= free then need else free)
    ensures CountFree(r.st.table) == if need <= free then free - need else 0
  {
    FreshCount(st, slots, owner, rest, i, total);
    if !r.ok { FreshStops(st, slots, owner, rest, i, total, r); }
  }

  lemma ChunksStored(m: seq<Byte>, m': seq<Byte>, at: nat, n: nat, rest: seq<Byte>, free: nat, need: nat)
    requires Overlaid(m, m', at, n, rest) && need == CeilDiv(|rest|, BLOCK_SIZE)
    requires n == if need <= free then need else free
    ensures Outcome(m', if need <= free then free - need else 0, need <= free) == StoreFresh(m, at, rest, free)
  {
    ChunkedIs(rest, n);
    if CeilDiv(|rest|, BLOCK_SIZE) <= free {
      assert rest[..|rest|] == rest;
    } else {
      TooManyBlocks(free, CeilDiv(|rest|, BLOCK_SIZE), |rest|);
      assert rest[..free * BLOCK_SIZE] + Zeros(0) == rest[..free * BLOCK_SIZE];
    }
  }

  // ------------------------------------------------------------------ the first block

  /** The bytes m with data written over them. */
  ghost predicate Overwritten(m: seq<Byte>, m': seq<Byte>, off: nat, data: seq<Byte>) {
    off + |data| <= |m| && m' == m[..off] + data + m[off + |data|..]
  }

  /** The bytes after the in-place update of the block under the offset. */
  lemma PatchedBytes(st: Store, st1: Store, slots: seq<nat>, owner: nat, off: nat, buf: seq<Byte>, w: nat)
    requires Linked(st, slots, owner) && off / BLOCK_SIZE < Mapped(slots)
    requires st1 == FirstPatched(st, slots, off, buf) && w == Min(|buf|, BLOCK_SIZE - off % BLOCK_SIZE)
    ensures Overwritten(MappedBytes(st, slots), MappedBytes(st1, slots), off, buf[..w])
  {
    var cur, at, k := off / BLOCK_SIZE, off % BLOCK_SIZE, Mapped(slots);
    var block := st.disk[slots[cur] - 1];
    assert st1.disk[slots[cur] - 1] == Patch(block, at, buf[..w]);
    OtherPieces(st.disk, st1.disk, slots, cur, k);
    BytesSlot(st.disk, slots, cur, k);
    BytesSlot(st1.disk, slots, cur, k);
    assert off == cur * BLOCK_SIZE + at;
    PatchMiddle(MappedBytes(st, slots), MappedBytes(st1, slots), Bytes(st.disk, slots, cur), block, at, buf[..w], off,
                (cur + 1) * BLOCK_SIZE);
  }

  /** Changing the block of one slot leaves the bytes before and behind it. */
  lemma OtherPieces(disk: seq<Block>, disk': seq<Block>, slots: seq<nat>, cur: nat, k: nat)
    requires cur < k <= |slots| && |disk| == |disk'|
    requires forall j :: 0 <= j < |disk| && j + 1 != slots[cur] ==> disk'[j] == disk[j]
    requires forall i, j :: 0 <= i < j < k ==> slots[i] != slots[j]
    ensures Bytes(disk', slots, cur) == Bytes(disk, slots, cur)
    ensures Bytes(disk', slots, k)[(cur + 1) * BLOCK_SIZE..] == Bytes(disk, slots, k)[(cur + 1) * BLOCK_SIZE..]
  {
    BytesFrame(disk, disk', slots, slots, cur);
    BytesTail(disk, disk', slots, slots, cur + 1, k);
  }

  lemma PatchMiddle(m: seq<Byte>, m': seq<Byte>, front: seq<Byte>, block: Block, at: nat, data: seq<Byte>, off: nat,
                    end: nat)
    requires at + |data| <= BLOCK_SIZE && |m'| == |m|
    requires Begins(m, front + block) && Begins(m', front + Patch(block, at, data))
    requires off == |front| + at && end == |front| + BLOCK_SIZE && m'[end..] == m[end..]
    ensures Overwritten(m, m', off, data)
  {
    assert m' == front + Patch(block, at, data) + m[end..];
    assert m == front + block + m[end..];
    assert m[..off] == front + block[..at];
    assert m[off + |data|..] == block[at + |data|..] + m[end..];
  }

  // ------------------------------------------------------------------ write_inode

  /** The whole loop, for an end within the size limit. */
  lemma WriteStored(st: Store, slots: seq<nat>, owner: nat, off: nat, buf: seq<Byte>)
    requires Linked(st, slots, owner) && off <= Mapped(slots) * BLOCK_SIZE
    requires off + |buf| <= BLOCK_SIZE * MAX_SLOTS
    ensures OutcomeOf(WriteBlocks(st, slots, owner, off, buf))
         == Reference.Store(MappedBytes(st, slots), off, buf, CountFree(st.table))
  {
    var cur, total := off / BLOCK_SIZE, CeilDiv(off + |buf|, BLOCK_SIZE);
    var r := WriteBlocks(st, slots, owner, off, buf);
    if InPlace(slots, off, |buf|) {
      UnfoldInPlace(st, slots, owner, off, buf);
      StoredInPlace(st, FirstPatched(st, slots, off, buf), slots, owner, off, buf,
                    Min(|buf|, BLOCK_SIZE - off % BLOCK_SIZE), cur + 1, total, r);
    } else {
      UnfoldFresh(st, slots, owner, off, buf);
      StoredFresh(st, slots, owner, off, buf, cur, total, r);
    }
  }

  lemma StoredFresh(st: Store, slots: seq<nat>, owner: nat, off: nat, buf: seq<Byte>, cur: nat, total: nat, r: Written)
    requires Linked(st, slots, owner) && off == cur * BLOCK_SIZE && cur <= Mapped(slots)
    requires total == CeilDiv(off + |buf|, BLOCK_SIZE) && cur <= total <= MAX_SLOTS
    requires cur < total ==> cur == Mapped(slots)
    requires r == FreshLoop(st, slots, owner, buf, cur, total)
    ensures OutcomeOf(r) == Reference.Store(MappedBytes(st, slots), off, buf, CountFree(st.table))
  {
    BlocksFrom(off, |buf|, cur, total);
    FreshStored(st, slots, owner, buf, cur, total, r, MappedBytes(st, slots), MappedBytes(r.st, r.slots), off);
    NewThenStored(MappedBytes(st, slots), off, buf, CountFree(st.table));
  }

  lemma BlocksFrom(off: nat, n: nat, cur: nat, total: nat)
    requires off == cur * BLOCK_SIZE && total == CeilDiv(off + n, BLOCK_SIZE)
    ensures total - cur == CeilDiv(n, BLOCK_SIZE)
    ensures cur == total ==> n == 0
  {
  }

  /** A write that starts with a new block, or that writes nothing. */
  lemma NewThenStored(m: seq<Byte>, off: nat, buf: seq<Byte>, free: nat)
    requires off == |m| || (off < |m| && buf == [])
    ensures StoreFresh(m, off, buf, free) == Reference.Store(m, off, buf, free)
  {
    if buf == [] {
      assert CeilDiv(0, BLOCK_SIZE) == 0 && Zeros(0) == [];
      assert Front(m, off) + buf + Zeros(0) + Back(m, off) == Front(m, off) + buf + Back(m, off);
    } else {
      assert CeilDiv(|buf|, BLOCK_SIZE) > 0;
    }
  }

  lemma StoredInPlace(st: Store, st1: Store, slots: seq<nat>, owner: nat, off: nat, buf: seq<Byte>, w: nat, i: nat,
                      total: nat, r: Written)
    requires Linked(st, slots, owner) && Linked(st1, slots, owner) && i == off / BLOCK_SIZE + 1 <= Mapped(slots)
    requires total == CeilDiv(off + |buf|, BLOCK_SIZE) && i <= total <= MAX_SLOTS
    requires st1 == FirstPatched(st, slots, off, buf) && w == Min(|buf|, BLOCK_SIZE - off % BLOCK_SIZE)
    requires r == FreshLoop(st1, slots, owner, buf[w..], i, total)
    ensures OutcomeOf(r) == Reference.Store(MappedBytes(st, slots), off, buf, CountFree(st.table))
  {
    var head := BLOCK_SIZE - off % BLOCK_SIZE;
    assert off + head == i * BLOCK_SIZE;
    PatchedBytes(st, st1, slots, owner, off, buf, w);
    BlocksBehind(off, |buf|, i, total, w);
    FreshStored(st1, slots, owner, buf[w..], i, total, r, MappedBytes(st1, slots), MappedBytes(r.st, r.slots),
                i * BLOCK_SIZE);
    HeadThenFresh(MappedBytes(st, slots), MappedBytes(st1, slots), off, buf, head, w, i * BLOCK_SIZE,
                  CountFree(st1.table));
  }

  lemma BlocksBehind(off: nat, n: nat, i: nat, total: nat, w: nat)
    requires i == off / BLOCK_SIZE + 1 <= total == CeilDiv(off + n, BLOCK_SIZE)
        && w == Min(n, BLOCK_SIZE - off % BLOCK_SIZE)
    ensures total - i == CeilDiv(n - w, BLOCK_SIZE)
    ensures n == w ==> total == i
  {
    DivBlock(off, i);
  }

  /** The rest of the first block and then new blocks are one write. */
  lemma HeadThenFresh(m: seq<Byte>, m1: seq<Byte>, off: nat, buf: seq<Byte>, head: nat, w: nat, at: nat, free: nat)
    requires head == BLOCK_SIZE - off % BLOCK_SIZE && w == Min(|buf|, head) && off < at == off + head <= |m|
    requires Overwritten(m, m1, off, buf[..w])
    ensures StoreFresh(m1, at, buf[w..], free) == Reference.Store(m, off, buf, free)
  {
    if |buf| <= head {
      assert buf[..w] == buf && buf[w..] == [];
      HeadOnly(m, m1, off, buf, at, free);
    } else {
      HeadFirst(m, m1, off, buf, head, at);
      var need := CeilDiv(|buf| - head, BLOCK_SIZE);
      var more := (if need <= free then need else free) * BLOCK_SIZE;
      BehindPatched(m, m1, at, more);
      if need <= free {
        HeadFits(m, m1, off, buf, head, at, free, need, more, Back(m, at + more));
      } else {
        HeadFull(m, m1, off, buf, head, at, free, more, Back(m, at + more));
      }
    }
  }

  lemma HeadOnly(m: seq<Byte>, m1: seq<Byte>, off: nat, buf: seq<Byte>, at: nat, free: nat)
    requires at == off + BLOCK_SIZE - off % BLOCK_SIZE <= |m| && off + |buf| <= at
    requires Overwritten(m, m1, off, buf)
    ensures StoreFresh(m1, at, [], free) == Reference.Store(m, off, buf, free)
  {
    assert Zeros(0) == [];
    assert m1 == Front(m1, at) + [] + [] + Back(m1, at);
  }

  /** The overwritten bytes up to the end of the first block, and those behind it. */
  lemma HeadFirst(m: seq<Byte>, m1: seq<Byte>, off: nat, buf: seq<Byte>, head: nat, at: nat)
    requires at == off + head <= |m| && head <= |buf| && Overwritten(m, m1, off, buf[..head])
    ensures Front(m1, at) == Front(m, off) + buf[..head]
    ensures |m1| == |m| && m1[at..] == m[at..]
  {
  }

  lemma HeadFits(m: seq<Byte>, m1: seq<Byte>, off: nat, buf: seq<Byte>, head: nat, at: nat, free: nat, need: nat,
                 more: nat, back: seq<Byte>)
    requires head == BLOCK_SIZE - off % BLOCK_SIZE && head < |buf| && off < at == off + head <= |m|
    requires Front(m1, at) == Front(m, off) + buf[..head] && Back(m1, at + more) == back == Back(m, at + more)
    requires need == CeilDiv(|buf| - head, BLOCK_SIZE) <= free && more == need * BLOCK_SIZE
    ensures StoreFresh(m1, at, buf[head..], free) == Reference.Store(m, off, buf, free)
  {
    var pad := Zeros(more - (|buf| - head));
    FreshFits(m1, at, buf[head..], free, need, more, pad, back);
    StoreFits(m, off, buf, free, head, need, more, pad, back);
    Pieces(Front(m1, at), Front(m, off), buf, head, buf[head..], pad, back);
  }

  lemma FreshFits(m: seq<Byte>, at: nat, rest: seq<Byte>, free: nat, need: nat, more: nat, pad: seq<Byte>,
                  back: seq<Byte>)
    requires need == CeilDiv(|rest|, BLOCK_SIZE) <= free && more == need * BLOCK_SIZE
    requires pad == Zeros(more - |rest|) && back == Back(m, at + more)
    ensures StoreFresh(m, at, rest, free) == Outcome(Front(m, at) + rest + pad + back, free - need, true)
  {
  }

  lemma StoreFits(m: seq<Byte>, off: nat, buf: seq<Byte>, free: nat, head: nat, need: nat, more: nat, pad: seq<Byte>,
                  back: seq<Byte>)
    requires head == BLOCK_SIZE - off % BLOCK_SIZE && off < |m| && |buf| > head
    requires need == CeilDiv(|buf| - head, BLOCK_SIZE) <= free && more == need * BLOCK_SIZE
    requires pad == Zeros(more - (|buf| - head)) && back == Back(m, off + head + more)
    ensures Reference.Store(m, off, buf, free) == Outcome(Front(m, off) + buf + pad + back, free - need, true)
  {
    assert off + |buf| + (more - (|buf| - head)) == off + head + more;
  }

  lemma Pieces(front1: seq<Byte>, front: seq<Byte>, buf: seq<Byte>, head: nat, rest: seq<Byte>, pad: seq<Byte>,
               back: seq<Byte>)
    requires head <= |buf| && front1 == front + buf[..head] && rest == buf[head..]
    ensures front1 + rest + pad + back == front + buf + pad + back
  {
    assert buf == buf[..head] + rest;
    assert front1 + rest == front + buf;
  }

  lemma HeadFull(m: seq<Byte>, m1: seq<Byte>, off: nat, buf: seq<Byte>, head: nat, at: nat, free: nat, more: nat,
                 back: seq<Byte>)
    requires head == BLOCK_SIZE - off % BLOCK_SIZE && head < |buf| && off < at == off + head <= |m|
    requires Front(m1, at) == Front(m, off) + buf[..head] && Back(m1, at + more) == back == Back(m, at + more)
    requires CeilDiv(|buf| - head, BLOCK_SIZE) > free && more == free * BLOCK_SIZE
    ensures StoreFresh(m1, at, buf[head..], free) == Reference.Store(m, off, buf, free)
  {
    FreshFull(m1, at, buf[head..], free, more, back);
    StoreFull(m, off, buf, free, head, more, back);
    FullPieces(Front(m1, at), Front(m, off), buf, head, more);
  }

  lemma FreshFull(m: seq<Byte>, at: nat, rest: seq<Byte>, free: nat, more: nat, back: seq<Byte>)
    requires CeilDiv(|rest|, BLOCK_SIZE) > free && more == free * BLOCK_SIZE && back == Back(m, at + more)
    ensures StoreFresh(m, at, rest, free) == Outcome(Front(m, at) + Front(rest, more) + back, 0, false)
  {
  }

  lemma StoreFull(m: seq<Byte>, off: nat, buf: seq<Byte>, free: nat, head: nat, more: nat, back: seq<Byte>)
    requires head == BLOCK_SIZE - off % BLOCK_SIZE && off < |m| && |buf| > head
    requires CeilDiv(|buf| - head, BLOCK_SIZE) > free && more == free * BLOCK_SIZE && back == Back(m, off + head + more)
    ensures Reference.Store(m, off, buf, free) == Outcome(Front(m, off) + Front(buf, head + more) + back, 0, false)
  {
  }

  lemma FullPieces(front1: seq<Byte>, front: seq<Byte>, buf: seq<Byte>, head: nat, more: nat)
    requires head <= |buf| && front1 == front + buf[..head]
    ensures front1 + Front(buf[head..], more) == front + Front(buf, head + more)
  {
    assert buf[..head] + Front(buf[head..], more) == Front(buf, head + more);
  }

  lemma BehindPatched(m: seq<Byte>, m1: seq<Byte>, at: nat, n: nat)
    requires at <= |m| == |m1| && m1[at..] == m[at..]
    ensures Back(m1, at + n) == Back(m, at + n)
  {
    if at + n <= |m| { assert m1[at + n..] == m1[at..][n..] && m[at + n..] == m[at..][n..]; }
  }

  // ------------------------------------------------------------------ 32-bit wrap-around

  lemma WrappedStored(st: Store, slots: seq<nat>, owner: nat, off: nat, buf: seq<Byte>, end: nat)
    requires Linked(st, slots, owner) && off <= Mapped(slots) * BLOCK_SIZE
    requires |buf| < U32 <= off + |buf| && end == NewOffset(off, |buf|) <= BLOCK_SIZE * MAX_SLOTS
    ensures OutcomeOf(WriteBlocks(st, slots, owner, off, buf))
         == Outcome(StoreWrapped(MappedBytes(st, slots), off, buf, end), CountFree(st.table), true)
  {
    var cur, total := off / BLOCK_SIZE, CeilDiv(end, BLOCK_SIZE);
    WriteWrapped(st, slots, owner, off, buf);
    WrappedRange(off, end, Mapped(slots));
    WrappedUnfold(st, slots, owner, off, buf, cur, total);
    if cur < total {
      PatchedBytes(st, FirstPatched(st, slots, off, buf), slots, owner, off, buf, BLOCK_SIZE - off % BLOCK_SIZE);
    }
  }

  lemma WrappedUnfold(st: Store, slots: seq<nat>, owner: nat, off: nat, buf: seq<Byte>, cur: nat, total: nat)
    requires Linked(st, slots, owner) && NewOffset(off, |buf|) <= BLOCK_SIZE * MAX_SLOTS
    requires cur == off / BLOCK_SIZE && total == CeilDiv(NewOffset(off, |buf|), BLOCK_SIZE) <= cur + 1
    requires cur < total ==> cur < Mapped(slots)
    ensures WriteBlocks(st, slots, owner, off, buf).st
         == if cur < total then FirstPatched(st, slots, off, buf) else st
  {
  }

  lemma WrappedRange(off: nat, end: nat, k: nat)
    requires end < off <= k * BLOCK_SIZE
    ensures var cur, total := off / BLOCK_SIZE, CeilDiv(end, BLOCK_SIZE);
            && total <= cur + 1
            && (cur < total <==> end / BLOCK_SIZE == off / BLOCK_SIZE && end % BLOCK_SIZE != 0)
            && (cur < total ==> cur < k)
  {
    DivBlock(off, k);
    DivBlock(end, k);
  }

  // ------------------------------------------------------------------ unlink

  /** Freeing the blocks of an inode makes as many free as there were mapped slots. */
  lemma {:induction false} FreedCount(table: seq<Entry>, slots: seq<nat>, i: nat)
    requires |table| == NUM_BLOCKS && SlotsInRange(slots) && i <= |slots|
    requires forall j :: i <= j < Mapped(slots, i) ==> table[slots[j] - 1].used
    requires forall j, k :: i <= j < k < Mapped(slots, i) ==> slots[j] != slots[k]
    ensures CountFree(FreeSlots(table, slots, i)) == CountFree(table) + Mapped(slots, i) - i
    decreases |slots| - i
  {
    if i < |slots| && slots[i] != 0 {
      var b := slots[i] - 1;
      CountFreeUpdate(table[b := Entry(false, 0)], b, table[b]);
      assert table[b := Entry(false, 0)][b := table[b]] == table;
      FreedCount(table[b := Entry(false, 0)], slots, i + 1);
    }
  }
}
