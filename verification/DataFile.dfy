/**
 The data file behind the blocks. occupy_block_table_slot opens it in append mode, so its seek
 has no effect and a new block always goes to the end of the file; update_block_table_slot and
 read_block_table_slot do seek. Elsewhere a new block is taken to be stored at its own place;
 here is exactly when the code does that.
 */
module DataFile {
  import opened Common
  import opened Blocks

  type Chunk = c: seq<Byte> | |c| <= BLOCK_SIZE

  /** fseek and fwrite: a gap before the data is filled with zeros. */
  function WriteFile(file: seq<Byte>, at: nat, data: seq<Byte>): seq<Byte> {
    if |file| < at then file + seq(at - |file|, _ => 0) + data
    else file[..at] + data + (if |file| <= at + |data| then [] else file[at + |data|..])
  }

  /** What the seek asks for: the block at position i, over whatever is there. */
  function PlaceBlock(file: seq<Byte>, i: nat, block: Block): seq<Byte> {
    WriteFile(file, i * BLOCK_SIZE, block)
  }

  /** What append mode does. */
  function AppendBlock(file: seq<Byte>, block: Block): seq<Byte> {
    file + block
  }

  /** The block that read_block_table_slot finds at position i. */
  function ReadBlock(file: seq<Byte>, i: nat): seq<Byte>
    requires i * BLOCK_SIZE + BLOCK_SIZE <= |file|
  {
    file[i * BLOCK_SIZE..i * BLOCK_SIZE + BLOCK_SIZE]
  }

  /** Appending is placing exactly when the file ends where the block belongs. */
  lemma AppendPlacesIff(file: seq<Byte>, i: nat, block: Block)
    ensures AppendBlock(file, block) == PlaceBlock(file, i, block) <==> |file| == i * BLOCK_SIZE
  {
    var at := i * BLOCK_SIZE;
    if |file| == at {
      assert file[..at] == file;
    } else if |file| < at {
      assert |PlaceBlock(file, i, block)| == at + BLOCK_SIZE;
    } else {
      assert |AppendBlock(file, block)| > at + BLOCK_SIZE;
      assert |PlaceBlock(file, i, block)| == if |file| < at + BLOCK_SIZE then at + BLOCK_SIZE else |file|;
    }
  }

  // ------------------------------------------------------------------ disk operations

  /** What the rest of the service does to table and blocks. */
  datatype DiskOp =
    | Take(owner: nat, data: Chunk)
    | Change(b: nat, at: nat, data: Chunk)
    | Release(b: nat)

  ghost predicate Legal(table: seq<Entry>, op: DiskOp) {
    match op
    case Take(_, _) => true
    case Change(b, at, data) => b < |table| && table[b].used && at + |data| <= BLOCK_SIZE
    case Release(b) => b < |table|
  }

  function TableStep(table: seq<Entry>, op: DiskOp): (t: seq<Entry>)
    ensures |t| == |table|
  {
    match op
    case Take(owner, _) =>
      var i := FirstFree(table, 0);
      if i == |table| then table else table[i := Entry(true, owner)]
    case Change(_, _, _) => table
    case Release(b) => if b < |table| then table[b := Entry(false, 0)] else table
  }

  /** The effect of the code on the file. */
  function FileStep(table: seq<Entry>, file: seq<Byte>, op: DiskOp): seq<Byte> {
    match op
    case Take(_, data) => if FirstFree(table, 0) == |table| then file else AppendBlock(file, Pad(data))
    case Change(b, at, data) => WriteFile(file, b * BLOCK_SIZE + at, data)
    case Release(_) => file
  }

  /** The intended effect, on blocks. */
  ghost function DiskStep(st: Store, op: DiskOp): (st': Store)
    requires Sized(st) && Legal(st.table, op)
    ensures Sized(st') && st'.table == TableStep(st.table, op)
  {
    match op
    case Take(owner, data) =>
      var r := Occupy(st, owner, data);
      if r.None? then st else r.value.0
    case Change(b, at, data) => st.(disk := st.disk[b := Patch(st.disk[b], at, data)])
    case Release(b) => st.(table := st.table[b := Entry(false, 0)])
  }

  /** A take finds a free block, and the code puts it where it belongs. */
  predicate Takes(table: seq<Entry>, op: DiskOp) {
    op.Take? && FirstFree(table, 0) < |table|
  }

  predicate Placed(table: seq<Entry>, file: seq<Byte>, op: DiskOp)
    requires Takes(table, op)
  {
    FileStep(table, file, op) == PlaceBlock(file, FirstFree(table, 0), Pad(op.data))
  }

  predicate ReleasesUsed(table: seq<Entry>, op: DiskOp) {
    op.Release? && op.b < |table| && table[op.b].used
  }

  // ------------------------------------------------------------------ when a take is placed

  ghost function Used(table: seq<Entry>): set<nat> {
    set b | 0 <= b < |table| && table[b].used
  }

  ghost function Below(c: nat): (s: set<nat>)
    ensures |s| == c && forall x :: x in s <==> 0 <= x < c
  {
    if c == 0 then {} else Below(c - 1) + {c - 1}
  }

  /** c blocks have been appended so far, and `released` used blocks have been released. */
  ghost predicate Tracked(table: seq<Entry>, file: seq<Byte>, c: nat, released: nat) {
    && |file| == c * BLOCK_SIZE
    && (forall b :: 0 <= b < |table| && table[b].used ==> b < c)
    && |Used(table)| + released == c
  }

  lemma FirstFreeIs(table: seq<Entry>, file: seq<Byte>, c: nat, released: nat)
    requires Tracked(table, file, c, released) && FirstFree(table, 0) < |table|
    ensures FirstFree(table, 0) <= c
    ensures FirstFree(table, 0) == c <==> released == 0
  {
    var i := FirstFree(table, 0);
    SubsetSize(Used(table), Below(c));
    SubsetSize(Below(i), Used(table));
    if released == 0 {
      assert i < c ==> i in Used(table);
    }
    if i == c {
      assert forall b :: b in Below(c) ==> b in Used(table);
      assert Below(c) <= Used(table);
      SubsetSize(Below(c), Used(table));
    }
  }

  /** In a tracked state a new block goes where it belongs exactly when no used block has been
      released. */
  lemma TakePlacedIff(table: seq<Entry>, file: seq<Byte>, c: nat, released: nat, op: DiskOp)
    requires Tracked(table, file, c, released) && Takes(table, op)
    ensures Placed(table, file, op) <==> released == 0
  {
    FirstFreeIs(table, file, c, released);
    AppendPlacesIff(file, FirstFree(table, 0), Pad(op.data));
  }

  /** Every operation keeps track. */
  lemma StepTracked(table: seq<Entry>, file: seq<Byte>, c: nat, released: nat, op: DiskOp) returns (c': nat)
    requires Tracked(table, file, c, released) && Legal(table, op)
    ensures Tracked(TableStep(table, op), FileStep(table, file, op), c',
                    if ReleasesUsed(table, op) then released + 1 else released)
  {
    c' := c;
    var table' := TableStep(table, op);
    match op
    case Take(owner, data) =>
      var i := FirstFree(table, 0);
      if i < |table| {
        FirstFreeIs(table, file, c, released);
        assert Used(table') == Used(table) + {i};
        c' := c + 1;
      }
    case Change(b, at, data) =>
      assert b * BLOCK_SIZE + BLOCK_SIZE <= c * BLOCK_SIZE;
    case Release(b) =>
      if table[b].used {
        assert Used(table') == Used(table) - {b};
      } else {
        assert Used(table') == Used(table);
      }
  }

  /** Tables and file side by side under the same operations. */
  ghost predicate IsDiskRun(tables: seq<seq<Entry>>, files: seq<seq<Byte>>, ops: seq<DiskOp>) {
    && |tables| == |files| == |ops| + 1
    && forall i :: 0 <= i < |ops| ==>
         && Legal(tables[i], ops[i])
         && tables[i + 1] == TableStep(tables[i], ops[i])
         && files[i + 1] == FileStep(tables[i], files[i], ops[i])
  }

  ghost predicate StartsEmpty(tables: seq<seq<Entry>>, files: seq<seq<Byte>>) {
    && |tables| > 0 && |files| > 0 && files[0] == []
    && forall b :: 0 <= b < |tables[0]| ==> !tables[0][b].used
  }

  ghost predicate ReleasedBefore(tables: seq<seq<Entry>>, ops: seq<DiskOp>, i: nat)
    requires i <= |ops| < |tables|
  {
    exists j :: 0 <= j < i && ReleasesUsed(tables[j], ops[j])
  }

  lemma {:induction false} RunTracked(tables: seq<seq<Entry>>, files: seq<seq<Byte>>, ops: seq<DiskOp>, i: nat)
    returns (c: nat, released: nat)
    requires IsDiskRun(tables, files, ops) && StartsEmpty(tables, files) && i <= |ops|
    ensures Tracked(tables[i], files[i], c, released) && (released == 0 <==> !ReleasedBefore(tables, ops, i))
  {
    if i == 0 {
      c, released := 0, 0;
      assert Used(tables[0]) == {};
    } else {
      c, released := RunTracked(tables, files, ops, i - 1);
      c := StepTracked(tables[i - 1], files[i - 1], c, released, ops[i - 1]);
      assert tables[i - 1 + 1] == TableStep(tables[i - 1], ops[i - 1]);
      if ReleasesUsed(tables[i - 1], ops[i - 1]) { released := released + 1; }
      assert ReleasedBefore(tables, ops, i)
        <==> (ReleasedBefore(tables, ops, i - 1) || ReleasesUsed(tables[i - 1], ops[i - 1]));
    }
  }

  /** Over every run from the empty file: a new block goes where it belongs exactly when no used
      block was released before. */
  lemma RunPlacedIff(tables: seq<seq<Entry>>, files: seq<seq<Byte>>, ops: seq<DiskOp>, i: nat)
    requires IsDiskRun(tables, files, ops) && StartsEmpty(tables, files) && i < |ops| && Takes(tables[i], ops[i])
    ensures Placed(tables[i], files[i], ops[i]) <==> !ReleasedBefore(tables, ops, i)
  {
    var c, released := RunTracked(tables, files, ops, i);
    TakePlacedIff(tables[i], files[i], c, released, ops[i]);
  }

  /** What a misplaced block does: the file still has the old bytes at its place, so reading it
      back gives the new data only if they are the same. */
  lemma ReuseIsMisplaced(table: seq<Entry>, file: seq<Byte>, c: nat, released: nat, op: DiskOp)
    requires Tracked(table, file, c, released) && Takes(table, op) && released > 0
    ensures var b, file' := FirstFree(table, 0), FileStep(table, file, op);
            && !Placed(table, file, op)
            && b * BLOCK_SIZE + BLOCK_SIZE <= |file| <= |file'|
            && ReadBlock(file', b) == ReadBlock(file, b)
            && (ReadBlock(file', b) == Pad(op.data) <==> ReadBlock(file, b) == Pad(op.data))
  {
    var b, file' := FirstFree(table, 0), FileStep(table, file, op);
    FirstFreeIs(table, file, c, released);
    TakePlacedIff(table, file, c, released, op);
    assert b < c;
    assert file'[..|file|] == file;
    assert ReadBlock(file', b) == file'[..|file|][b * BLOCK_SIZE..b * BLOCK_SIZE + BLOCK_SIZE];
  }

  // ------------------------------------------------------------------ the file as an image of the disk

  /** The first c blocks of a disk, end to end. */
  ghost function Image(disk: seq<Block>, c: nat): (r: seq<Byte>)
    requires c <= |disk|
    ensures |r| == c * BLOCK_SIZE
  {
    if c == 0 then [] else Image(disk, c - 1) + disk[c - 1]
  }

  /** The file holds exactly the allocated blocks, and these are the first c ones. */
  ghost predicate Mirrors(st: Store, file: seq<Byte>, c: nat) {
    && Sized(st) && c <= NUM_BLOCKS
    && (forall b :: 0 <= b < NUM_BLOCKS ==> (st.table[b].used <==> b < c))
    && file == Image(st.disk, c)
  }

  lemma {:induction false} ImageFrame(disk: seq<Block>, disk': seq<Block>, c: nat)
    requires c <= |disk| && c <= |disk'| && forall j :: 0 <= j < c ==> disk'[j] == disk[j]
    ensures Image(disk', c) == Image(disk, c)
  {
    if c == 0 {
    } else {
      ImageFrame(disk, disk', c - 1);
    }
  }

  lemma {:induction false} ImageAt(disk: seq<Block>, c: nat, i: nat)
    requires i < c <= |disk|
    ensures i * BLOCK_SIZE + BLOCK_SIZE <= c * BLOCK_SIZE
    ensures ReadBlock(Image(disk, c), i) == disk[i]
  {
    if i < c - 1 {
      ImageAt(disk, c - 1, i);
      assert Image(disk, c)[..(c - 1) * BLOCK_SIZE] == Image(disk, c - 1);
      assert ReadBlock(Image(disk, c), i)
          == Image(disk, c)[..(c - 1) * BLOCK_SIZE][i * BLOCK_SIZE..i * BLOCK_SIZE + BLOCK_SIZE];
    }
  }

  /** Changing part of one block of the disk changes its image in place. */
  lemma {:induction false} ImagePatch(disk: seq<Block>, c: nat, i: nat, at: nat, data: Chunk)
    requires i < c <= |disk| && at + |data| <= BLOCK_SIZE
    ensures Image(disk[i := Patch(disk[i], at, data)], c) == WriteFile(Image(disk, c), i * BLOCK_SIZE + at, data)
  {
    var front := Image(disk, c - 1);
    if i == c - 1 {
      ImageFrame(disk, disk[i := Patch(disk[i], at, data)], c - 1);
      PatchAtEnd(front, disk[i], at, data);
    } else {
      ImagePatch(disk, c - 1, i, at, data);
      assert i * BLOCK_SIZE + BLOCK_SIZE <= |front|;
      WriteInFront(front, disk[c - 1], i * BLOCK_SIZE + at, data);
    }
  }

  lemma PatchAtEnd(front: seq<Byte>, block: Block, at: nat, data: Chunk)
    requires at + |data| <= BLOCK_SIZE
    ensures front + Patch(block, at, data) == WriteFile(front + block, |front| + at, data)
  {
    assert (front + block)[..|front| + at] == front + block[..at];
    assert (front + block)[|front| + at + |data|..] == block[at + |data|..];
  }

  lemma WriteInFront(file: seq<Byte>, last: Block, at: nat, data: Chunk)
    requires at + |data| <= |file|
    ensures WriteFile(file + last, at, data) == WriteFile(file, at, data) + last
  {
    assert (file + last)[..at] == file[..at];
    assert (file + last)[at + |data|..] == file[at + |data|..] + last;
  }

  /** As long as no block is released, the file keeps mirroring the disk. */
  lemma StepMirrors(st: Store, file: seq<Byte>, c: nat, op: DiskOp) returns (c': nat)
    requires Mirrors(st, file, c) && Legal(st.table, op) && !op.Release?
    ensures Mirrors(DiskStep(st, op), FileStep(st.table, file, op), c')
  {
    c' := c;
    match op
    case Take(owner, data) =>
      if c < NUM_BLOCKS {
        assert !st.table[c].used;
        assert FirstFree(st.table, 0) == c;
        ImageFrame(st.disk, st.disk[c := Pad(data)], c);
        c' := c + 1;
      }
    case Change(b, at, data) =>
      ImagePatch(st.disk, c, b, at, data);
  }
}
