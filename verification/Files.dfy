/**
 What the file operations do to file contents: writes refine updates of a byte sequence,
 reads return exact ranges, soft links copy, unlink frees, and nobody disturbs anyone else.
 */
module Files {
  import opened Common
  import opened Blocks
  import opened Namespace
  import opened Invariant

  /** The contents of an inode: its mapped bytes cut at the file size. */
  ghost function Content(st: Store, node: Inode): seq<Byte> {
    var m := MappedBytes(st, node.slots);
    if node.size <= |m| then m[..node.size] else m
  }

  /** The contents of the file with this inode index. */
  ghost function File(s: State, index: nat): Option<seq<Byte>> {
    var p := FindInode(s.inodes, index);
    if p < |s.inodes| then Some(Content(s.store, s.inodes[p])) else None
  }

  /** The position of the inode behind an open descriptor. */
  function Target(s: State, d: nat): nat
    requires d < |s.descs|
  {
    FindInode(s.inodes, s.descs[d].node)
  }

  lemma TargetLive(s: State, d: nat)
    requires Inv(s) && d < |s.descs|
    ensures Target(s, d) < |s.inodes|
    ensures s.descs[d].off <= Mapped(s.inodes[Target(s, d)].slots) * BLOCK_SIZE
    ensures InodeOk(s.inodes[Target(s, d)], s.store)
  {
    assert DescOk(s.descs[d], s.inodes);
  }

  lemma WriteIsAt(s: State, fd: nat, buf: Buffer, now: int, d: nat)
    requires Typed(s) && d == FindDesc(s.descs, fd) < |s.descs| && s.descs[d].mode != READ_ONLY
    requires Target(s, d) < |s.inodes|
    ensures Write(s, fd, buf, now) == WriteAt(s, d, Target(s, d), buf, now)
  {
  }

  lemma ReadIsAt(s: State, fd: nat, n: nat, now: int, d: nat)
    requires Typed(s) && d == FindDesc(s.descs, fd) < |s.descs| && Target(s, d) < |s.inodes|
    ensures Read(s, fd, n, now) == ReadAt(s, d, Target(s, d), n, now)
  {
  }

  // ------------------------------------------------------------------ write

  /** A caller can compute this before a write: the end, in 32-bit arithmetic, is within the
      largest file, and, unless the end wraps around, enough blocks are free. */
  predicate Fits(slots: seq<nat>, off: nat, n: nat, st: Store)
    requires SlotsInRange(slots)
  {
    && NewOffset(off, n) <= BLOCK_SIZE * MAX_SLOTS
    && (off + n < U32 ==> Needed(slots, off, n) <= CountFree(st.table))
  }

  /** What a write through descriptor d on the inode at position p must achieve.
      It succeeds exactly when it fits. A successful write whose end does not wrap around makes
      the file the old bytes before the offset followed by the buffer; a wrapped one succeeds,
      stores nothing that can be read back, and cuts the file. A failed write changes neither
      size nor offset nor any byte before the offset; one within the size cap has stored as much
      of the buffer behind the offset as the free blocks hold, any other has stored nothing. */
  ghost predicate WriteSpec(s: State, d: nat, p: nat, buf: Buffer, s': State, ok: bool)
    requires d < |s.descs| && p < |s.inodes| && SlotsInRange(s.inodes[p].slots)
  {
    var off, node, n := s.descs[d].off, s.inodes[p], |buf|;
    var m := MappedBytes(s.store, node.slots);
    && off <= |m| && |s'.inodes| == |s.inodes| && |s'.descs| == |s.descs|
    && (ok <==> Fits(node.slots, off, n, s.store))
    && var node' := s'.inodes[p];
    var m' := MappedBytes(s'.store, node'.slots);
    && (ok ==> node'.size == s'.descs[d].off == NewOffset(off, n))
    && (ok && off + n < U32 ==> node'.size == off + n && Content(s'.store, node') == m[..off] + buf)
    && (ok && off + n >= U32 ==> node'.size < off && Content(s'.store, node') == m[..node'.size])
    && (!ok ==> node'.size == node.size && s'.descs == s.descs)
    && (!ok ==> Kept(node.slots, off, buf, s.store, m, m'))
  }

  /** What a failed write leaves in the mapped bytes. */
  ghost predicate Kept(slots: seq<nat>, off: nat, buf: Buffer, st: Store, m: seq<Byte>, m': seq<Byte>)
    requires off <= |m|
  {
    if NewOffset(off, |buf|) > BLOCK_SIZE * MAX_SLOTS then m' == m
    else
      var stored := StoredOnFailure(slots, off, st);
      stored < |buf| && Begins(m', m[..off] + buf[..stored])
  }

  /** The inode half of WriteSpec. */
  ghost predicate InodeWriteSpec(slots: seq<nat>, off: nat, buf: Buffer, size: nat, m: seq<Byte>,
                                 st: Store, size': nat, m': seq<Byte>, ok: bool)
    requires SlotsInRange(slots) && off <= |m|
  {
    && (ok <==> Fits(slots, off, |buf|, st))
    && off <= |m'| && m'[..off] == m[..off]
    && (ok && off + |buf| < U32 ==> size' == off + |buf| && Begins(m', m[..off] + buf))
    && (ok && off + |buf| >= U32 ==> size' == NewOffset(off, |buf|) < off)
    && (!ok ==> size' == size && Kept(slots, off, buf, st, m, m'))
  }

  lemma WriteInodeRefines(s: State, p: nat, off: nat, buf: Buffer)
    requires Inv(s) && p < |s.inodes| && off <= Mapped(s.inodes[p].slots) * BLOCK_SIZE
    ensures var (s', ok) := WriteInode(s, p, off, buf);
            var node, node' := s.inodes[p], s'.inodes[p];
            InodeWriteSpec(node.slots, off, buf, node.size, MappedBytes(s.store, node.slots),
                           s.store, node'.size, MappedBytes(s'.store, node'.slots), ok)
  {
    var node := s.inodes[p];
    assert InodeOk(node, s.store);
    if NewOffset(off, |buf|) <= BLOCK_SIZE * MAX_SLOTS {
      WriteBlocksSpec(s.store, node.slots, node.index, off, buf, node.size);
    }
  }

  lemma WriteBlocksSpec(st: Store, slots: seq<nat>, owner: nat, off: nat, buf: Buffer, size: nat)
    requires Linked(st, slots, owner) && off <= Mapped(slots) * BLOCK_SIZE
    requires NewOffset(off, |buf|) <= BLOCK_SIZE * MAX_SLOTS
    ensures var w := WriteBlocks(st, slots, owner, off, buf);
            InodeWriteSpec(slots, off, buf, size, MappedBytes(st, slots), st,
                           if w.ok then NewOffset(off, |buf|) else size, MappedBytes(w.st, w.slots), w.ok)
  {
    if off + |buf| < U32 {
      var w := WriteBlocks(st, slots, owner, off, buf);
      WriteBytes(st, slots, owner, off, buf);
      WriteSucceedsIff(st, slots, owner, off, buf);
      if !w.ok { WriteStores(st, slots, owner, off, buf); }
      BeginsCut(MappedBytes(w.st, w.slots), MappedBytes(st, slots)[..off], buf[..|buf| - w.left]);
      assert w.left == 0 ==> buf[..|buf| - w.left] == buf;
    } else {
      WriteWrapped(st, slots, owner, off, buf);
    }
  }

  lemma BeginsCut(all: seq<Byte>, front: seq<Byte>, more: seq<Byte>)
    requires Begins(all, front + more)
    ensures |front| <= |all| && all[..|front|] == front
  {
    assert (front + more)[..|front|] == front;
  }

  /** A descriptor with this number is open for writing. */
  predicate Writable(s: State, fd: nat) {
    exists d :: 0 <= d < |s.descs| && s.descs[d].fd == fd && s.descs[d].mode == WRITE_ONLY
  }

  /** The main theorem about writes, for every descriptor number and every buffer: one that is not
      open for writing is refused, and nothing happens. */
  lemma WriteRefines(s: State, fd: nat, buf: Buffer, now: int)
    requires Inv(s)
    ensures Typed(s)
    ensures var d, (s', reply) := FindDesc(s.descs, fd), Write(s, fd, buf, now);
            if Writable(s, fd) then
              && d < |s.descs| && Target(s, d) < |s.inodes|
              && WriteSpec(s, d, Target(s, d), buf, s', reply.status == Success)
              && (reply.status == Success || reply.status == Failure)
            else (s', reply) == (s, Fail(Failure))
  {
    var d := FindDesc(s.descs, fd);
    if Writable(s, fd) {
      WriteOpen(s, fd, buf, now, d);
    } else if d < |s.descs| {
      assert DescOk(s.descs[d], s.inodes);
    }
  }

  lemma WriteOpen(s: State, fd: nat, buf: Buffer, now: int, d: nat)
    requires Inv(s) && d == FindDesc(s.descs, fd) && Writable(s, fd)
    ensures d < |s.descs| && Target(s, d) < |s.inodes| && Typed(s)
    ensures var (s', reply) := Write(s, fd, buf, now);
            && WriteSpec(s, d, Target(s, d), buf, s', reply.status == Success)
            && (reply.status == Success || reply.status == Failure)
  {
    OnlyDesc(s, fd, d);
    TargetLive(s, d);
    WriteIsAt(s, fd, buf, now, d);
    WriteAtRefines(s, d, Target(s, d), buf, now);
  }

  /** Numbers are not used twice, so the search finds the one descriptor that has it. */
  lemma OnlyDesc(s: State, fd: nat, d: nat)
    requires Inv(s) && d == FindDesc(s.descs, fd)
    ensures forall i :: 0 <= i < |s.descs| && s.descs[i].fd == fd ==> i == d
  {
  }

  lemma WriteAtRefines(s: State, d: nat, p: nat, buf: Buffer, now: int)
    requires Inv(s) && d < |s.descs| && p < |s.inodes| && s.descs[d].node == s.inodes[p].index
    ensures Typed(s)
    ensures var (s', reply) := WriteAt(s, d, p, buf, now);
            WriteSpec(s, d, p, buf, s', reply.status == Success)
  {
    assert InodeOk(s.inodes[p], s.store);
    assert DescOk(s.descs[d], s.inodes);
    var off, x := s.descs[d].off, s.inodes[p].(atime := now, mtime := now);
    TouchInode(s, p, x);
    WriteInodeRefines(SetInode(s, p, x), p, off, buf);
    var (s2, ok) := WriteInode(SetInode(s, p, x), p, off, buf);
    WriteAssembled(s, d, p, buf, s2, ok, MappedBytes(s.store, x.slots), MappedBytes(s2.store, s2.inodes[p].slots));
  }

  /** The spec of a write from the one of its inode half. */
  lemma WriteAssembled(s: State, d: nat, p: nat, buf: Buffer, s2: State, ok: bool, m: seq<Byte>, m': seq<Byte>)
    requires d < |s.descs| && p < |s.inodes| == |s2.inodes| && s2.descs == s.descs && SlotsInRange(s.inodes[p].slots)
    requires m == MappedBytes(s.store, s.inodes[p].slots) && m' == MappedBytes(s2.store, s2.inodes[p].slots)
    requires s.descs[d].off <= |m|
    requires InodeWriteSpec(s.inodes[p].slots, s.descs[d].off, buf, s.inodes[p].size, m, s.store,
                            s2.inodes[p].size, m', ok)
    ensures WriteSpec(s, d, p, buf, if ok then SetOffset(s2, d, NewOffset(s.descs[d].off, |buf|)) else s2, ok)
  {
    if ok { WriteContent(m, m', s.descs[d].off, buf, s2.inodes[p].size); }
  }

  lemma WriteContent(m: seq<Byte>, m': seq<Byte>, off: nat, buf: seq<Byte>, size: nat)
    requires off <= |m| && off <= |m'| && m'[..off] == m[..off]
    ensures size <= off ==> m'[..size] == m[..size]
    ensures Begins(m', m[..off] + buf) && size == off + |buf| ==> size <= |m'| && m'[..size] == m[..off] + buf
  {
    assert size <= off ==> m'[..size] == m'[..off][..size];
  }

  /** A write, successful or not, leaves every other file, every name and every other
      descriptor as it was; the only reason is that blocks are not shared. */
  lemma WriteInodeFrame(s: State, p: nat, off: nat, buf: Buffer)
    requires Inv(s) && p < |s.inodes| && off <= Mapped(s.inodes[p].slots) * BLOCK_SIZE
    ensures var (s', ok) := WriteInode(s, p, off, buf);
            && s'.names == s.names && s'.descs == s.descs && |s'.inodes| == |s.inodes|
            && s'.inodes[p].index == s.inodes[p].index
            && forall i :: 0 <= i < |s.inodes| && i != p ==>
                 s'.inodes[i] == s.inodes[i] && Content(s'.store, s'.inodes[i]) == Content(s.store, s.inodes[i])
  {
    var node := s.inodes[p];
    var (s', ok) := WriteInode(s, p, off, buf);
    assert InodeOk(node, s.store);
    if NewOffset(off, |buf|) <= BLOCK_SIZE * MAX_SLOTS {
      WriteKeeps(s.store, node.slots, node.index, off, buf);
      OthersOk(s.inodes, s.store, s'.store, p);
    }
  }

  // ------------------------------------------------------------------ read

  /** What a read must return. It succeeds exactly when it stays within the mapped bytes,
      which may extend past the file size; it then returns exactly those bytes. A failed read
      within the size cap has moved the offset to the end of the mapped bytes. */
  ghost predicate ReadSpec(s: State, d: nat, p: nat, n: nat, s': State, reply: Reply)
    requires d < |s.descs| && p < |s.inodes|
  {
    var off, node := s.descs[d].off, s.inodes[p];
    var m := MappedBytes(s.store, node.slots);
    && |s'.inodes| == |s.inodes|
    && reply == (if off + n <= |m| then Reply(Success, 0, m[off..off + n]) else Fail(Failure))
    && s'.store == s.store
    && s'.inodes == s.inodes[p := node.(atime := s'.inodes[p].atime)]
    && s'.descs == s.descs[d := s.descs[d].(off := if off + n <= |m| then off + n
                                                  else if NewOffset(off, n) <= BLOCK_SIZE * MAX_SLOTS then |m|
                                                  else off)]
    && s'.names == s.names
  }

  /** A descriptor with this number is open. */
  predicate IsOpen(s: State, fd: nat) {
    exists d :: 0 <= d < |s.descs| && s.descs[d].fd == fd
  }

  lemma OpenIsFound(s: State, fd: nat)
    ensures IsOpen(s, fd) <==> FindDesc(s.descs, fd) < |s.descs|
  {
  }

  /** Reads are exact, for every number and every length, whatever the mode of the descriptor: one
      that is not open is refused, and nothing happens. */
  lemma ReadIsExact(s: State, fd: nat, n: nat, now: int)
    requires Inv(s)
    ensures Typed(s)
    ensures var d, (s', reply) := FindDesc(s.descs, fd), Read(s, fd, n, now);
            if IsOpen(s, fd) then
              && d < |s.descs| && Target(s, d) < |s.inodes|
              && ReadSpec(s, d, Target(s, d), n, s', reply)
            else (s', reply) == (s, Fail(Failure))
  {
    var d := FindDesc(s.descs, fd);
    OpenIsFound(s, fd);
    if d < |s.descs| {
      TargetLive(s, d);
      ReadIsAt(s, fd, n, now, d);
      ReadAtExact(s, d, Target(s, d), n, now);
    }
  }

  lemma ReadAtExact(s: State, d: nat, p: nat, n: nat, now: int)
    requires Typed(s) && d < |s.descs| && p < |s.inodes|
    requires s.descs[d].off <= Mapped(s.inodes[p].slots) * BLOCK_SIZE
    ensures var (s', reply) := ReadAt(s, d, p, n, now);
            ReadSpec(s, d, p, n, s', reply)
  {
    var off, node := s.descs[d].off, s.inodes[p];
    if off + n <= Mapped(node.slots) * BLOCK_SIZE {
      ReadExact(s.store, node.slots, off, n, off + n);
    } else {
      ReadPastEnd(s.store, node.slots, off, n);
    }
    SameOffset(s.descs, d);
  }

  lemma SameOffset(descs: seq<Desc>, d: nat)
    requires d < |descs|
    ensures descs[d := descs[d].(off := descs[d].off)] == descs
  {
    assert descs[d].(off := descs[d].off) == descs[d];
  }

  /** In particular a read inside the file never fails and returns that range of it. */
  lemma ReadInsideFile(s: State, fd: nat, n: nat, now: int)
    requires Inv(s) && n < U32 && FindDesc(s.descs, fd) < |s.descs|
    requires var d := FindDesc(s.descs, fd);
             Target(s, d) < |s.inodes| && s.descs[d].off + n <= s.inodes[Target(s, d)].size
    ensures Typed(s)
    ensures var d := FindDesc(s.descs, fd);
            var off, node := s.descs[d].off, s.inodes[Target(s, d)];
            var content := Content(s.store, node);
            && off + n <= |content|
            && Read(s, fd, n, now).1 == Reply(Success, 0, content[off..off + n])
  {
    var d := FindDesc(s.descs, fd);
    TargetLive(s, d);
    ReadIsAt(s, fd, n, now, d);
    ReadAtInside(s, d, Target(s, d), n, now);
  }

  lemma ReadAtInside(s: State, d: nat, p: nat, n: nat, now: int)
    requires Typed(s) && d < |s.descs| && p < |s.inodes| && n < U32
    requires s.descs[d].off + n <= s.inodes[p].size <= Mapped(s.inodes[p].slots) * BLOCK_SIZE
    ensures var off, content := s.descs[d].off, Content(s.store, s.inodes[p]);
            && off + n <= |content|
            && ReadAt(s, d, p, n, now).1 == Reply(Success, 0, content[off..off + n])
  {
    ReadExact(s.store, s.inodes[p].slots, s.descs[d].off, n, s.descs[d].off + n);
  }

  // ------------------------------------------------------------------ seek and close

  /** A seek succeeds exactly when the descriptor is open and the offset is within the file's
      content; then that descriptor's offset changes and nothing else. */
  lemma SeekMoves(s: State, fd: nat, off: nat)
    requires Inv(s)
    ensures var d, (s', reply) := FindDesc(s.descs, fd), Seek(s, fd, off);
            if IsOpen(s, fd) && File(s, s.descs[d].node).Some? && off <= |File(s, s.descs[d].node).value| then
              && reply == Ok() && s.descs[d].fd == fd
              && s' == s.(descs := s.descs[d := s.descs[d].(off := off)])
            else (s', reply) == (s, Fail(Failure))
    ensures IsOpen(s, fd) ==> File(s, s.descs[FindDesc(s.descs, fd)].node).Some?
  {
    OpenIsFound(s, fd);
    var d := FindDesc(s.descs, fd);
    if d < |s.descs| {
      TargetLive(s, d);
      SeekOpen(s, fd, off, d, Target(s, d));
    }
  }

  lemma SeekOpen(s: State, fd: nat, off: nat, d: nat, p: nat)
    requires d == FindDesc(s.descs, fd) < |s.descs| && p == Target(s, d) < |s.inodes|
    requires s.inodes[p].size <= Mapped(s.inodes[p].slots) * BLOCK_SIZE
    ensures File(s, s.descs[d].node).Some? && s.descs[d].fd == fd
    ensures Seek(s, fd, off) == if off <= |File(s, s.descs[d].node).value|
                                then (s.(descs := s.descs[d := s.descs[d].(off := off)]), Ok())
                                else (s, Fail(Failure))
  {
  }

  /** A close succeeds exactly when the descriptor is open. Afterwards no descriptor has the number,
      and every other descriptor is there as before, in the same order. */
  lemma CloseRemoves(s: State, fd: nat)
    requires Inv(s)
    ensures var (s', reply) := Close(s, fd);
            && reply == (if IsOpen(s, fd) then Ok() else Fail(Failure))
            && (!IsOpen(s, fd) ==> s' == s)
            && !IsOpen(s', fd)
            && s' == s.(descs := s'.descs)
            && (forall x :: x in s'.descs <==> x in s.descs && x.fd != fd)
            && (forall i, j :: 0 <= i < j < |s'.descs| ==> s'.descs[i].fd < s'.descs[j].fd)
  {
    OpenIsFound(s, fd);
    var d := FindDesc(s.descs, fd);
    if d < |s.descs| { OthersStay(s, d, RemoveAt(s.descs, d)); }
  }

  lemma OthersStay(s: State, d: nat, rest: seq<Desc>)
    requires Inv(s) && d < |s.descs| && rest == RemoveAt(s.descs, d)
    ensures forall x :: x in rest <==> x in s.descs && x.fd != s.descs[d].fd
    ensures forall i, j :: 0 <= i < j < |rest| ==> rest[i].fd < rest[j].fd
  {
    RemovedAt(s.descs, d);
    forall x | x in s.descs && x.fd != s.descs[d].fd ensures x in rest {
      var i :| 0 <= i < |s.descs| && s.descs[i] == x;
      assert rest[if i < d then i else i - 1] == x;
    }
  }

  // ------------------------------------------------------------------ soft links

  /** What create_soft_link must achieve for an existing name and a free link name: a snapshot
      of the parent, or, exactly when the disk is too full, an empty file under the new name.
      Nobody's contents change, the parent's included. */
  ghost predicate SoftLinkSpec(s: State, p: nat, link: string, s': State, ok: bool)
    requires p < |s.inodes|
  {
    var c, parent := |s.inodes|, s.inodes[p];
    && |s'.inodes| == c + 1 && s'.descs == s.descs
    && s'.names == s.names + [Name(s'.inodes[c].index, link)]
    && s'.inodes[c].index == NextIndex(s.inodes) && s'.inodes[c].refCount == 1
    && (ok <==> CeilDiv(parent.size, BLOCK_SIZE) <= CountFree(s.store.table))
    && Content(s'.store, s'.inodes[c]) == (if ok then Content(s.store, parent) else [])
    && s'.inodes[p] == parent.(atime := s'.inodes[p].atime)
    && (forall i :: 0 <= i < c && i != p ==> s'.inodes[i] == s.inodes[i])
    && (forall i :: 0 <= i < c ==> Content(s'.store, s'.inodes[i]) == Content(s.store, s.inodes[i]))
  }

  lemma SoftLinkIsSnapshot(s: State, uid: nat, gid: nat, mode: int, name: string, link: string, now: int)
    requires Inv(s) && Taken(s.names, name) && !Taken(s.names, link)
    ensures Typed(s)
    ensures var p := FindInode(s.inodes, LookupOrZero(s.names, name));
            && p < |s.inodes|
            && var (s', reply) := CreateSoftLink(s, uid, gid, mode, name, link, now);
            SoftLinkSpec(s, p, link, s', reply.status == Success)
  {
    var e := FindName(s.names, name);
    assert Live(s.inodes, s.names[e].node);
    var p := FindInode(s.inodes, s.names[e].node);
    var s1 := SymlinkEntry(s, uid, gid, mode, p, link, now);
    assert CreateSoftLink(s, uid, gid, mode, name, link, now)
        == SoftLinkCopy(s1, s.inodes[p].slots, s.inodes[p].size);
    EntryIs(s, uid, gid, mode, p, link, now);
    CopyIsSnapshot(s, s1, p, link);
  }

  lemma EntryIs(s: State, uid: nat, gid: nat, mode: int, p: nat, link: string, now: int)
    requires Inv(s) && p < |s.inodes| && !Taken(s.names, link)
    ensures var s1 := SymlinkEntry(s, uid, gid, mode, p, link, now);
            Inv(s1) && Entered(s, s1, p, link)
  {
    SymlinkEntryInv(s, uid, gid, mode, p, link, now);
  }

  /** s1 is s with an empty inode appended under the new name, and the parent's atime set. */
  ghost predicate Entered(s: State, s1: State, p: nat, link: string)
    requires p < |s.inodes|
  {
    var c := |s.inodes|;
    && |s1.inodes| == c + 1 && s1.store == s.store && s1.descs == s.descs
    && s1.inodes[c].slots == NoSlots() && s1.inodes[c].size == 0
    && s1.inodes[c].index == NextIndex(s.inodes) && s1.inodes[c].refCount == 1
    && s1.names == s.names + [Name(s1.inodes[c].index, link)]
    && s1.inodes[p] == s.inodes[p].(atime := s1.inodes[p].atime)
    && (forall i :: 0 <= i < c && i != p ==> s1.inodes[i] == s.inodes[i])
  }

  /** The copy when its read half succeeds. */
  lemma CopyIs(s1: State, slots: seq<nat>, size: nat, data: Buffer)
    requires Typed(s1) && SlotsInRange(slots) && |s1.inodes| > 0
    requires NewOffset(0, size) <= BLOCK_SIZE * MAX_SLOTS
        && ReadLoop(s1.store, slots, 0, size) == ReadOut(data, size, true)
    ensures var (s', ok) := WriteInode(s1, |s1.inodes| - 1, 0, data);
            SoftLinkCopy(s1, slots, size) == (s', if ok then Ok() else Fail(Failure))
  {
  }

  lemma CopyIsSnapshot(s: State, s1: State, p: nat, link: string)
    requires Inv(s1) && p < |s.inodes| && Entered(s, s1, p, link)
    ensures var (s', reply) := SoftLinkCopy(s1, s.inodes[p].slots, s.inodes[p].size);
            SoftLinkSpec(s, p, link, s', reply.status == Success)
  {
    var c, parent := |s.inodes|, s.inodes[p];
    var data := CopiedData(s1, p);
    assert parent.slots == s1.inodes[p].slots && parent.size == s1.inodes[p].size;
    var (s', ok) := WriteInode(s1, c, 0, data);
    CopyIs(s1, parent.slots, parent.size, data);
    var r := SoftLinkCopy(s1, s.inodes[p].slots, s.inodes[p].size);
    assert r.0 == s' && (r.1.status == Success) == ok;
    CopyWrites(s1, c, data);
    FrameOfCopy(s1, c, data);
    EnteredContents(s, s1, p, link);
    SnapshotIs(s, s1, p, link, data, s', ok);
    assert SoftLinkSpec(s, p, link, r.0, r.1.status == Success);
  }

  /** The spec from the two halves of the copy. */
  lemma SnapshotIs(s: State, s1: State, p: nat, link: string, data: seq<Byte>, s': State, ok: bool)
    requires p < |s.inodes| && Entered(s, s1, p, link) && |s'.inodes| == |s1.inodes|
    requires data == Content(s.store, s.inodes[p]) && |data| == s.inodes[p].size
    requires ok <==> CeilDiv(|data|, BLOCK_SIZE) <= CountFree(s1.store.table)
    requires var c := |s.inodes|;
             && Content(s'.store, s'.inodes[c]) == (if ok then data else [])
             && s'.inodes[c] == s1.inodes[c].(slots := s'.inodes[c].slots, size := s'.inodes[c].size)
    requires s'.names == s1.names && s'.descs == s1.descs
    requires forall i :: 0 <= i < |s.inodes| ==>
               s'.inodes[i] == s1.inodes[i] && Content(s'.store, s'.inodes[i]) == Content(s.store, s.inodes[i])
    ensures SoftLinkSpec(s, p, link, s', ok)
  {
  }

  lemma EnteredContents(s: State, s1: State, p: nat, link: string)
    requires p < |s.inodes| && Entered(s, s1, p, link)
    ensures forall i :: 0 <= i < |s.inodes| ==> Content(s1.store, s1.inodes[i]) == Content(s.store, s.inodes[i])
  {
  }

  /** The read half of the copy returns the parent's contents. */
  lemma CopiedData(s1: State, p: nat) returns (data: Buffer)
    requires Inv(s1) && p < |s1.inodes|
    ensures var node := s1.inodes[p];
            && data == Content(s1.store, node) && |data| == node.size <= BLOCK_SIZE * MAX_SLOTS
            && NewOffset(0, node.size) == node.size
            && ReadLoop(s1.store, node.slots, 0, node.size) == ReadOut(data, node.size, true)
  {
    var node := s1.inodes[p];
    assert InodeOk(node, s1.store);
    ReadExact(s1.store, node.slots, 0, node.size, node.size);
    data := MappedBytes(s1.store, node.slots)[0..node.size];
  }

  /** The write half of the copy, into an empty inode. */
  lemma CopyWrites(s: State, c: nat, data: Buffer)
    requires Inv(s) && c < |s.inodes| && s.inodes[c].slots == NoSlots() && s.inodes[c].size == 0
    requires |data| <= BLOCK_SIZE * MAX_SLOTS
    ensures var (s', ok) := WriteInode(s, c, 0, data);
            && (ok <==> CeilDiv(|data|, BLOCK_SIZE) <= CountFree(s.store.table))
            && Content(s'.store, s'.inodes[c]) == (if ok then data else [])
            && s'.inodes[c] == s.inodes[c].(slots := s'.inodes[c].slots, size := s'.inodes[c].size)
  {
    WriteInodeRefines(s, c, 0, data);
    var (s', ok) := WriteInode(s, c, 0, data);
    assert MappedBytes(s.store, s.inodes[c].slots)[..0] + data == data;
  }

  lemma FrameOfCopy(s: State, c: nat, data: Buffer)
    requires Inv(s) && c < |s.inodes|
    ensures var (s', ok) := WriteInode(s, c, 0, data);
            && s'.names == s.names && s'.descs == s.descs && |s'.inodes| == |s.inodes|
            && forall i :: 0 <= i < |s.inodes| && i != c ==>
                 s'.inodes[i] == s.inodes[i] && Content(s'.store, s'.inodes[i]) == Content(s.store, s.inodes[i])
  {
    WriteInodeFrame(s, c, 0, data);
  }

  // ------------------------------------------------------------------ unlink

  /** Dropping the last name frees exactly the blocks of that inode, removes exactly that inode
      and that name, and changes no other file. */
  lemma DropFileFrees(s: State, e: nat, p: nat)
    requires Inv(s) && e < |s.names| && p < |s.inodes|
    ensures var s' := DropFile(s, e, p);
            && Allocated(s'.store) == Allocated(s.store) - SlotBlocks(s.inodes[p].slots, 0, MAX_SLOTS)
            && s'.store.disk == s.store.disk
            && s'.inodes == RemoveAt(s.inodes, p) && s'.names == RemoveAt(s.names, e) && s'.descs == s.descs
            && forall i :: 0 <= i < |s.inodes| && i != p ==>
                 Content(s'.store, s.inodes[i]) == Content(s.store, s.inodes[i])
  {
    assert InodeOk(s.inodes[p], s.store);
    FreeAllSlots(s.store, s.inodes[p].slots, s.inodes[p].index);
    DropInodes(s.inodes, s.store, p);
    OthersOk(s.inodes, s.store, DropFile(s, e, p).store, p);
  }
}
