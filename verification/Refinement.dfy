/**
 The tables refine the reference: seen as a directory, files, handles and a count, every state of
 the tables goes, by every call, to the state that the reference gives, with the same reply.
 */
module Refinement {
  import opened Common
  import opened Blocks
  import opened Namespace
  import opened Invariant
  import opened Files
  import opened Runs
  import opened Directory
  import opened Permissions
  import opened Reference
  import opened StoredBytes
  import opened Views

  // ------------------------------------------------------------------ names and permissions

  lemma Resolved(s: State, name: string)
    ensures Resolve(View(s), name) == LookupOrZero(s.names, name)
    ensures name in View(s).dir <==> Taken(s.names, name)
  {
    DirLookup(s.names, name);
  }

  lemma AccessRefines(s: State, uid: nat, gid: nat, name: string)
    requires Inv(s)
    ensures ReadAccess(s, uid, gid, name)
         == if Reference.Granted(View(s), uid, gid, name, false) then Success else InsufficientPerms
    ensures WriteAccess(s, uid, gid, name)
         == if Reference.Granted(View(s), uid, gid, name, true) then Success else InsufficientPerms
  {
    Resolved(s, name);
    var p := FileOf(s, LookupOrZero(s.names, name));
    if p < |s.inodes| {
      RangesAreBits(uid, gid, s.inodes[p].owner, s.inodes[p].group, s.inodes[p].mode);
    }
  }

  // ------------------------------------------------------------------ calls on names

  lemma CreateRefines(s: State, uid: nat, gid: nat, mode: int, name: string, now: int)
    requires Inv(s)
    ensures var (s', reply) := Create(s, uid, gid, mode, name, now);
            ServeCreate(View(s), uid, gid, mode, name, now) == (View(s'), reply)
  {
    Resolved(s, name);
    if !Taken(s.names, name) {
      var x := NewInode(s.inodes, Regular, uid, gid, 1, mode, now);
      FilesAbove(s.inodes, s.store);
      FilesAdd(s.inodes, s.store, x);
      NoBytes(s.store);
      DirAppend(s.names, Name(x.index, name));
    }
  }

  lemma ChmodRefines(s: State, uid: nat, gid: nat, mode: int, name: string, now: int)
    requires Inv(s)
    ensures var (s', reply) := Chmod(s, uid, gid, mode, name, now);
            ServeChmod(View(s), uid, gid, mode, name, now) == (View(s'), reply)
  {
    Resolved(s, name);
    AccessRefines(s, uid, gid, name);
    var p := FileOf(s, LookupOrZero(s.names, name));
    if p < |s.inodes| { Touched(s, p, s.inodes[p].(mode := mode % U32, atime := now, ctime := now)); }
  }

  lemma StatRefines(s: State, uid: nat, gid: nat, name: string, now: int)
    requires Inv(s)
    ensures var (s', reply) := Stat(s, uid, gid, name, now);
            ServeStat(View(s), uid, gid, name, now) == (View(s'), reply)
  {
    Resolved(s, name);
    AccessRefines(s, uid, gid, name);
    var p := FileOf(s, LookupOrZero(s.names, name));
    if p < |s.inodes| { Touched(s, p, s.inodes[p].(atime := now)); }
  }

  lemma RenameRefines(s: State, name: string, newName: string)
    requires Inv(s)
    ensures var (s', reply) := Rename(s, name, newName);
            ServeRename(View(s), name, newName) == (View(s'), reply)
  {
    Resolved(s, name);
    Resolved(s, newName);
    var e := FindName(s.names, name);
    if e < |s.names| && !Taken(s.names, newName) { DirRename(s.names, e, newName); }
  }

  lemma LinkRefines(s: State, uid: nat, gid: nat, name: string, link: string, now: int)
    requires Inv(s)
    ensures var (s', reply) := Link(s, uid, gid, name, link, now);
            ServeLink(View(s), uid, gid, name, link, now) == (View(s'), reply)
  {
    Resolved(s, name);
    Resolved(s, link);
    AccessRefines(s, uid, gid, name);
    var p := FileOf(s, LookupOrZero(s.names, name));
    if p < |s.inodes| && !Taken(s.names, link) {
      LinkedView(s, p, name, link, now, s.inodes[p].(atime := now, ctime := now));
    }
  }

  lemma HardLinkIs(s: State, p: nat, name: string, link: string, now: int, x: Inode)
    requires p == FindInode(s.inodes, LookupOrZero(s.names, name)) < |s.inodes| && !Taken(s.names, link)
    requires x == s.inodes[p].(refCount := s.inodes[p].refCount + 1, atime := now, ctime := now)
    ensures HardLink(s, name, link, now)
         == (State(s.inodes[p := x], s.names + [Name(x.index, link)], s.descs, s.store), Ok())
  {
  }

  lemma LinkedView(s: State, p: nat, name: string, link: string, now: int, y: Inode)
    requires Rising(s.inodes) && Unique(s.names) && !Taken(s.names, link)
    requires p == FindInode(s.inodes, LookupOrZero(s.names, name)) < |s.inodes|
    requires y == s.inodes[p].(atime := now, ctime := now)
    ensures View(HardLink(s, name, link, now).0)
         == SetFile(View(s), y.index, RecordOf(y, s.store)).(dir := View(s).dir[link := y.index])
    ensures HardLink(s, name, link, now).1 == Ok()
  {
    var x := y.(refCount := y.refCount + 1);
    assert RecordOf(x, s.store) == RecordOf(y, s.store);
    HardLinkIs(s, p, name, link, now, x);
    FilesSet(s.inodes, s.store, s.store, p, x);
    DirAppend(s.names, Name(x.index, link));
  }

  lemma OpenRefines(s: State, uid: nat, gid: nat, name: string, flags: int, now: int)
    requires Inv(s)
    ensures var (s', reply) := Open(s, uid, gid, name, flags, now);
            ServeOpen(View(s), uid, gid, name, flags, now) == (View(s'), reply)
  {
    Resolved(s, name);
    AccessRefines(s, uid, gid, name);
    var node := LookupOrZero(s.names, name);
    var p := FileOf(s, node);
    WriterSeen(s, node);
    if p < |s.inodes| && (flags == READ_ONLY || flags == WRITE_ONLY) {
      FilesSet(s.inodes, s.store, s.store, p, s.inodes[p].(atime := now));
      HandlesAbove(s.descs);
      HandlesAdd(s.descs, Desc(NextFd(s.descs), flags, 0, node));
    }
  }

  lemma WriterSeen(s: State, node: nat)
    requires Inv(s)
    ensures HasWriter(View(s), node) <==> OpenedForWrite(s.descs, node)
  {
    if OpenedForWrite(s.descs, node) {
      var d :| 0 <= d < |s.descs| && s.descs[d].node == node && s.descs[d].mode == WRITE_ONLY;
      HandleAt(s.descs, s.descs[d].fd);
      assert FindDesc(s.descs, s.descs[d].fd) == d;
      assert View(s).handles[s.descs[d].fd].node == node;
    }
    if HasWriter(View(s), node) {
      var fd :| fd in View(s).handles && View(s).handles[fd].node == node && View(s).handles[fd].mode == WRITE_ONLY;
      HandleAt(s.descs, fd);
    }
  }

  // ------------------------------------------------------------------ calls on handles

  lemma CloseRefines(s: State, fd: nat)
    requires Inv(s)
    ensures var (s', reply) := Close(s, fd); ServeClose(View(s), fd) == (View(s'), reply)
  {
    var d := HandleIn(s, fd);
    if d < |s.descs| { HandlesDrop(s.descs, d); }
  }

  /** The handle and the file behind an open descriptor. */
  ghost predicate Behind(s: State, fd: nat, d: nat, p: nat, v: Fs) {
    && InodesOk(s.inodes, s.store) && RisingFds(s.descs) && v == View(s)
    && d == FindDesc(s.descs, fd) < |s.descs| && p == Target(s, d) < |s.inodes|
    && fd == s.descs[d].fd && fd in v.handles && v.handles[fd] == HandleOf(s.descs[d])
    && s.descs[d].node in v.files && v.files[s.descs[d].node] == RecordOf(s.inodes[p], s.store)
    && s.descs[d].off <= |v.files[s.descs[d].node].bytes|
  }

  lemma OpenBehind(s: State, fd: nat, d: nat)
    requires Inv(s) && d == FindDesc(s.descs, fd) < |s.descs|
    ensures Behind(s, fd, d, Target(s, d), View(s)) && Typed(s)
    ensures s.descs[d].mode == READ_ONLY || s.descs[d].mode == WRITE_ONLY
  {
    var _ := HandleIn(s, fd);
    TargetLive(s, d);
    var _ := FileOf(s, s.descs[d].node);
    assert DescOk(s.descs[d], s.inodes);
  }

  lemma SeekRefines(s: State, fd: nat, off: nat)
    requires Inv(s)
    ensures var (s', reply) := Seek(s, fd, off); ServeSeek(View(s), fd, off) == (View(s'), reply)
  {
    var d := HandleIn(s, fd);
    if d < |s.descs| {
      OpenBehind(s, fd, d);
      SeekBehind(s, fd, off, d, Target(s, d));
    }
  }

  lemma SeekBehind(s: State, fd: nat, off: nat, d: nat, p: nat)
    requires Behind(s, fd, d, p, View(s))
    ensures var (s', reply) := Seek(s, fd, off); ServeSeek(View(s), fd, off) == (View(s'), reply)
  {
    Moved(s, d, off);
  }

  lemma ReadRefines(s: State, fd: nat, n: nat, now: int)
    requires Inv(s)
    ensures var (s', reply) := Read(s, fd, n, now); ServeRead(View(s), fd, n, now) == (View(s'), reply)
  {
    var d := HandleIn(s, fd);
    if d < |s.descs| {
      OpenBehind(s, fd, d);
      ReadBehind(s, fd, n, now, d, Target(s, d));
    }
  }

  lemma ReadBehind(s: State, fd: nat, n: nat, now: int, d: nat, p: nat)
    requires Typed(s) && Behind(s, fd, d, p, View(s))
    ensures var (s', reply) := Read(s, fd, n, now); ServeRead(View(s), fd, n, now) == (View(s'), reply)
  {
    var x := s.inodes[p].(atime := now);
    ReadIsAt(s, fd, n, now, d);
    Touched(s, p, x);
    ReadAtRefines(s, fd, d, p, n, now, View(s), SetInode(s, p, x), RecordOf(s.inodes[p], s.store));
  }

  lemma ReadAtRefines(s: State, fd: nat, d: nat, p: nat, n: nat, now: int, v: Fs, s1: State, x: Record)
    requires Typed(s) && RisingFds(s.descs) && d < |s.descs| && p < |s.inodes| && x == RecordOf(s.inodes[p], s.store)
    requires fd == s.descs[d].fd && fd in v.handles && v.handles[fd] == HandleOf(s.descs[d])
    requires s.descs[d].node in v.files && v.files[s.descs[d].node] == x
    requires s1 == SetInode(s, p, s.inodes[p].(atime := now))
    requires View(s1) == SetFile(v, s.descs[d].node, x.(atime := now)) && s.descs[d].off <= |x.bytes|
    ensures var (s', reply) := ReadAt(s, d, p, n, now); ServeRead(v, fd, n, now) == (View(s'), reply)
  {
    var r := ReadLoop(s.store, s.inodes[p].slots, s.descs[d].off, n);
    LoopReads(s.store, s.inodes[p].slots, s.descs[d].off, n, x.bytes, r);
    DescReads(s, s.descs[d], d, p, n, now, s1, x.bytes, r);
    var (s', reply) := ReadAt(s, d, p, n, now);
    ServeReadIs(v, fd, n, now, HandleOf(s.descs[d]), x, View(s1), View(s'), reply);
  }

  lemma DescReads(s: State, h: Desc, d: nat, p: nat, n: nat, now: int, s1: State, m: seq<Byte>, r: ReadOut)
    requires Typed(s) && RisingFds(s.descs) && d < |s.descs| && s.descs[d] == h && p < |s.inodes|
    requires r == ReadLoop(s.store, s.inodes[p].slots, h.off, n) && s1 == SetInode(s, p, s.inodes[p].(atime := now))
    requires h.off <= |m| <= MAX_BYTES
    requires h.off + n <= |m| ==> r == ReadOut(m[h.off..h.off + n], h.off + n, true)
    requires h.off + n > |m| ==> !r.ok && r.off == |m|
    ensures var (s', reply) := ReadAt(s, d, p, n, now);
            ReadTo(View(s1), h.fd, HandleOf(h), n, m, View(s'), reply)
  {
    ReadAtIs(s, d, p, n, now, s1, r);
    Moved(s1, d, r.off);
    LoopIsRead(View(s1), View(SetOffset(s1, d, r.off)), h.fd, HandleOf(h), n, m, r);
  }

  lemma LoopIsRead(v1: Fs, v2: Fs, fd: nat, h: Handle, n: nat, m: seq<Byte>, r: ReadOut)
    requires h.off <= |m| <= MAX_BYTES && v2 == Move(v1, fd, h, r.off)
    requires h.off + n <= |m| ==> r == ReadOut(m[h.off..h.off + n], h.off + n, true)
    requires h.off + n > |m| ==> !r.ok && r.off == |m|
    ensures ReadTo(v1, fd, h, n, m, if (h.off + n) % U32 > MAX_BYTES then v1 else v2,
                   if (h.off + n) % U32 <= MAX_BYTES && r.ok then Reply(Success, 0, r.data) else Fail(Failure))
  {
  }

  lemma LoopReads(st: Blocks.Store, slots: seq<nat>, off: nat, n: nat, m: seq<Byte>, r: ReadOut)
    requires Sized(st) && SlotsInRange(slots) && off <= |m|
    requires r == ReadLoop(st, slots, off, n) && m == MappedBytes(st, slots)
    ensures |m| <= MAX_BYTES
    ensures off + n <= |m| ==> r == ReadOut(m[off..off + n], off + n, true)
    ensures off + n > |m| ==> !r.ok && r.off == |m|
  {
    if off + n <= |m| { ReadExact(st, slots, off, n, off + n); } else { ReadPastEnd(st, slots, off, n); }
  }

  lemma ReadAtIs(s: State, d: nat, p: nat, n: nat, now: int, s1: State, r: ReadOut)
    requires Typed(s) && d < |s.descs| && p < |s.inodes| && s1 == SetInode(s, p, s.inodes[p].(atime := now))
    requires r == ReadLoop(s.store, s.inodes[p].slots, s.descs[d].off, n)
    ensures ReadAt(s, d, p, n, now)
         == if (s.descs[d].off + n) % U32 > MAX_BYTES then (s1, Fail(Failure))
            else (SetOffset(s1, d, r.off), if r.ok then Reply(Success, 0, r.data) else Fail(Failure))
  {
  }

  /** What a read through a handle at off does, on the bytes m. */
  ghost predicate ReadTo(v1: Fs, fd: nat, h: Handle, n: nat, m: seq<Byte>, v': Fs, reply: Reply) {
    if h.off + n <= |m| then v' == Move(v1, fd, h, h.off + n) && reply == Reply(Success, 0, m[h.off..h.off + n])
    else
      && reply == Fail(Failure)
      && v' == if (h.off + n) % U32 <= MAX_BYTES then Move(v1, fd, h, |m|) else v1
  }

  lemma ServeReadIs(v: Fs, fd: nat, n: nat, now: int, h: Handle, x: Record, v1: Fs, v': Fs, reply: Reply)
    requires fd in v.handles && v.handles[fd] == h && h.node in v.files && v.files[h.node] == x
    requires v1 == SetFile(v, h.node, x.(atime := now)) && ReadTo(v1, fd, h, n, x.bytes, v', reply)
    ensures ServeRead(v, fd, n, now) == (v', reply)
  {
  }

  lemma StoreRefines(s: State, fd: nat, buf: Buffer, now: int)
    requires Inv(s)
    ensures var (s', reply) := Write(s, fd, buf, now); ServeWrite(View(s), fd, buf, now) == (View(s'), reply)
  {
    var d := HandleIn(s, fd);
    if d < |s.descs| {
      OpenBehind(s, fd, d);
      if s.descs[d].mode == WRITE_ONLY { WriteBehind(s, fd, buf, now, d, Target(s, d)); }
    }
  }

  lemma WriteBehind(s: State, fd: nat, buf: Buffer, now: int, d: nat, p: nat)
    requires Typed(s) && Behind(s, fd, d, p, View(s)) && s.descs[d].mode == WRITE_ONLY
    ensures var (s', reply) := Write(s, fd, buf, now); ServeWrite(View(s), fd, buf, now) == (View(s'), reply)
  {
    WriteIsAt(s, fd, buf, now, d);
    WriteDesc(s, s.descs[d], d, p, buf, now, s.inodes[p].(atime := now, mtime := now));
  }

  lemma WriteDesc(s: State, h: Desc, d: nat, p: nat, buf: Buffer, now: int, x: Inode)
    requires InodesOk(s.inodes, s.store) && RisingFds(s.descs) && d < |s.descs| && s.descs[d] == h
    requires p < |s.inodes| && h.node == s.inodes[p].index && h.off <= Mapped(s.inodes[p].slots) * BLOCK_SIZE
    requires x == s.inodes[p].(atime := now, mtime := now) && Typed(s)
    ensures var (s', reply) := WriteAt(s, d, p, buf, now);
            WriteThrough(View(s), h.fd, HandleOf(h), RecordOf(x, s.store), buf) == (View(s'), reply)
  {
    var s1, y, end := SetInode(s, p, x), RecordOf(x, s.store), NewOffset(h.off, |buf|);
    StampedView(s, s1, p, x, y, h.node);
    EndIs(h.off, |buf|);
    WriteGoes(s, s1, h, d, p, buf, now, x, y, end);
  }

  lemma StampedView(s: State, s1: State, p: nat, x: Inode, y: Record, node: nat)
    requires Rising(s.inodes) && p < |s.inodes| && x.index == s.inodes[p].index == node && x.slots == s.inodes[p].slots
    requires s1 == SetInode(s, p, x) && y == RecordOf(x, s.store)
    ensures View(s1) == SetFile(View(s), node, y) && |y.bytes| == Mapped(x.slots) * BLOCK_SIZE
  {
    Touched(s, p, x);
  }

  lemma WriteGoes(s: State, s1: State, h: Desc, d: nat, p: nat, buf: Buffer, now: int, x: Inode, y: Record, end: nat)
    requires InodesOk(s.inodes, s.store) && RisingFds(s.descs) && d < |s.descs| && s.descs[d] == h
    requires p < |s.inodes| && h.node == s.inodes[p].index && h.off <= |y.bytes| && y == RecordOf(x, s.store)
    requires x == s.inodes[p].(atime := now, mtime := now) && Typed(s) && s1 == SetInode(s, p, x)
    requires View(s1) == SetFile(View(s), h.node, y) && end == NewOffset(h.off, |buf|) == (h.off + |buf|) % U32
    ensures var (s', reply) := WriteAt(s, d, p, buf, now);
            WriteThrough(View(s), h.fd, HandleOf(h), y, buf) == (View(s'), reply)
  {
    if end <= MAX_BYTES {
      WriteFits(s, s1, h, d, p, buf, now, x, y, WriteOutcome(y.bytes, h.off, buf, CountFree(s.store.table)), end);
    } else {
      FarThrough(s, s1, h, d, p, buf, now, View(s), y, end);
    }
  }

  lemma WriteFits(s: State, s1: State, h: Desc, d: nat, p: nat, buf: Buffer, now: int, x: Inode, y: Record,
                  out: Outcome, end: nat)
    requires InodesOk(s.inodes, s.store) && RisingFds(s.descs) && d < |s.descs| && s.descs[d] == h
    requires p < |s.inodes| && h.node == s.inodes[p].index && h.off <= |y.bytes| && y == RecordOf(x, s.store)
    requires x == s.inodes[p].(atime := now, mtime := now) && Typed(s) && s1 == SetInode(s, p, x)
    requires View(s1) == SetFile(View(s), h.node, y) && end == NewOffset(h.off, |buf|) == (h.off + |buf|) % U32
    requires end <= MAX_BYTES && out == WriteOutcome(y.bytes, h.off, buf, CountFree(s.store.table))
    ensures var (s', reply) := WriteAt(s, d, p, buf, now);
            WriteThrough(View(s), h.fd, HandleOf(h), y, buf) == (View(s'), reply)
  {
    StampedWritten(s, p, h.off, buf, x, y, out, end);
    WroteThrough(s, s1, h, d, p, buf, now, View(s), y, out, end);
  }

  lemma StampedWritten(s: State, p: nat, off: nat, buf: Buffer, x: Inode, y: Record, out: Outcome, end: nat)
    requires InodesOk(s.inodes, s.store) && Typed(s) && p < |s.inodes|
    requires x.index == s.inodes[p].index && x.slots == s.inodes[p].slots && x.size == s.inodes[p].size
    requires y == RecordOf(x, s.store) && off <= |y.bytes| && end == NewOffset(off, |buf|) <= MAX_BYTES
    requires out == WriteOutcome(y.bytes, off, buf, CountFree(s.store.table))
    ensures Typed(SetInode(s, p, x)) && Wrote(SetInode(s, p, x), p, off, buf, y, out, end)
  {
    assert InodeOk(s.inodes[p], s.store);
    ReplaceInodes(s.inodes, s.store, p, x);
    InodeWritten(SetInode(s, p, x), p, off, buf, y, out, end);
  }

  /** write_inode leaves this outcome in the file. */
  ghost predicate Wrote(s: State, p: nat, off: nat, buf: Buffer, x: Record, out: Outcome, end: nat)
    requires Typed(s) && p < |s.inodes|
  {
    var (s', ok) := WriteInode(s, p, off, buf);
    && ok == out.ok && s'.descs == s.descs
    && View(s') == SetFile(View(s), s.inodes[p].index,
                           x.(size := if ok then end else x.size, bytes := out.bytes)).(free := out.free)
  }

  /** write_inode on the bytes of one file. */
  lemma InodeWritten(s: State, p: nat, off: nat, buf: Buffer, x: Record, out: Outcome, end: nat)
    requires InodesOk(s.inodes, s.store) && Typed(s)
    requires p < |s.inodes| && x == RecordOf(s.inodes[p], s.store) && off <= |x.bytes|
    requires end == NewOffset(off, |buf|) <= BLOCK_SIZE * MAX_SLOTS
    requires out == WriteOutcome(x.bytes, off, buf, CountFree(s.store.table))
    ensures Wrote(s, p, off, buf, x, out, end)
  {
    var node := s.inodes[p];
    assert InodeOk(node, s.store);
    var w := WriteBlocks(s.store, node.slots, node.index, off, buf);
    OutcomeIs(s.store, node.slots, node.index, off, buf);
    WriteKeeps(s.store, node.slots, node.index, off, buf);
    OthersOk(s.inodes, s.store, w.st, p);
    FilesSet(s.inodes, s.store, w.st, p, node.(slots := w.slots, size := if w.ok then end else node.size));
  }

  ghost function WriteOutcome(bytes: seq<Byte>, off: nat, buf: seq<Byte>, free: nat): Outcome {
    if off + |buf| >= U32 then Outcome(StoreWrapped(bytes, off, buf, (off + |buf|) % U32), free, true)
    else Reference.Store(bytes, off, buf, free)
  }

  lemma OutcomeIs(st: Blocks.Store, slots: seq<nat>, owner: nat, off: nat, buf: Buffer)
    requires Linked(st, slots, owner) && off <= Mapped(slots) * BLOCK_SIZE
    requires NewOffset(off, |buf|) <= BLOCK_SIZE * MAX_SLOTS
    ensures OutcomeOf(WriteBlocks(st, slots, owner, off, buf))
         == WriteOutcome(MappedBytes(st, slots), off, buf, CountFree(st.table))
  {
    if off + |buf| >= U32 {
      WrappedStored(st, slots, owner, off, buf, NewOffset(off, |buf|));
    } else {
      WriteStored(st, slots, owner, off, buf);
    }
  }

  lemma SetTwice(fs: Fs, node: nat, x: Record, y: Record)
    ensures SetFile(SetFile(fs, node, x), node, y) == SetFile(fs, node, y)
  {
    assert fs.files[node := x][node := y] == fs.files[node := y];
  }

  lemma EndIs(off: nat, n: nat)
    ensures NewOffset(off, n) == (off + n) % U32
  {
  }

  lemma WroteThrough(s: State, s1: State, h: Desc, d: nat, p: nat, buf: Buffer, now: int, v: Fs, x: Record,
                     out: Outcome, end: nat)
    requires Typed(s) && d < |s.descs| && p < |s.inodes| && RisingFds(s.descs) && s.descs[d] == h
    requires s1 == SetInode(s, p, s.inodes[p].(atime := now, mtime := now)) && h.node == s1.inodes[p].index
    requires View(s1) == SetFile(v, h.node, x) && end == NewOffset(h.off, |buf|) == (h.off + |buf|) % U32 <= MAX_BYTES
    requires out == WriteOutcome(x.bytes, h.off, buf, v.free)
    requires Typed(s1) && Wrote(s1, p, h.off, buf, x, out, end)
    ensures var (s', reply) := WriteAt(s, d, p, buf, now);
            WriteThrough(v, h.fd, HandleOf(h), x, buf) == (View(s'), reply)
  {
    var (s2, ok) := WriteInode(s1, p, h.off, buf);
    WriteAtIs(s, d, p, buf, now, s1, s2, ok);
    WrittenView(s1, s2, ok, h, d, buf, v, x, out, end);
  }

  lemma FarThrough(s: State, s1: State, h: Desc, d: nat, p: nat, buf: Buffer, now: int, v: Fs, x: Record, end: nat)
    requires Typed(s) && d < |s.descs| && p < |s.inodes| && s.descs[d] == h
    requires s1 == SetInode(s, p, s.inodes[p].(atime := now, mtime := now)) && h.node == s1.inodes[p].index
    requires View(s1) == SetFile(v, h.node, x) && end == NewOffset(h.off, |buf|) == (h.off + |buf|) % U32 > MAX_BYTES
    ensures var (s', reply) := WriteAt(s, d, p, buf, now);
            WriteThrough(v, h.fd, HandleOf(h), x, buf) == (View(s'), reply)
  {
    TooBig(s1, p, h.off, buf, end);
    WriteAtIs(s, d, p, buf, now, s1, s1, false);
    TooFar(v, h.fd, HandleOf(h), x, buf, end);
  }

  lemma TooBig(s: State, p: nat, off: nat, buf: Buffer, end: nat)
    requires Typed(s) && p < |s.inodes| && end == NewOffset(off, |buf|) > MAX_BYTES
    ensures WriteInode(s, p, off, buf) == (s, false)
  {
  }

  lemma WrittenView(s1: State, s2: State, ok: bool, desc: Desc, d: nat, buf: Buffer, v: Fs, x: Record, out: Outcome,
                    end: nat)
    requires d < |s2.descs| && s2.descs[d] == desc && RisingFds(s2.descs) && ok == out.ok
    requires View(s1) == SetFile(v, desc.node, x) && end == (desc.off + |buf|) % U32 <= MAX_BYTES
    requires out == WriteOutcome(x.bytes, desc.off, buf, v.free)
    requires View(s2) == SetFile(View(s1), desc.node, x.(size := if ok then end else x.size, bytes := out.bytes))
                         .(free := out.free)
    ensures WriteThrough(v, desc.fd, HandleOf(desc), x, buf)
         == (if ok then (View(SetOffset(s2, d, end)), Ok()) else (View(s2), Fail(Failure)))
  {
    Moved(s2, d, end);
    StoredThrough(v, View(s1), View(s2), desc.fd, HandleOf(desc), x, buf, out, end,
                  if ok then View(SetOffset(s2, d, end)) else View(s2), if ok then Ok() else Fail(Failure));
  }

  lemma WriteAtIs(s: State, d: nat, p: nat, buf: Buffer, now: int, s1: State, s2: State, ok: bool)
    requires Typed(s) && d < |s.descs| && p < |s.inodes|
    requires s1 == SetInode(s, p, s.inodes[p].(atime := now, mtime := now))
    requires Typed(s1) && (s2, ok) == WriteInode(s1, p, s.descs[d].off, buf)
    ensures WriteAt(s, d, p, buf, now)
         == if ok then (SetOffset(s2, d, NewOffset(s.descs[d].off, |buf|)), Ok()) else (s2, Fail(Failure))
  {
  }

  lemma TooFar(v: Fs, fd: nat, h: Handle, x: Record, buf: Buffer, end: nat)
    requires end == (h.off + |buf|) % U32 > MAX_BYTES
    ensures WriteThrough(v, fd, h, x, buf) == (SetFile(v, h.node, x), Fail(Failure))
  {
  }

  /** The times are set first, and then size and bytes: the reference sets all at once. */
  lemma StoredThrough(v: Fs, v1: Fs, v2: Fs, fd: nat, h: Handle, x: Record, buf: Buffer, out: Outcome, end: nat,
                      v': Fs, reply: Reply)
    requires v1 == SetFile(v, h.node, x) && end == (h.off + |buf|) % U32 <= MAX_BYTES
    requires out == WriteOutcome(x.bytes, h.off, buf, v.free)
    requires v2 == SetFile(v1, h.node, x.(size := if out.ok then end else x.size, bytes := out.bytes))
                   .(free := out.free)
    requires v' == (if out.ok then Move(v2, fd, h, end) else v2) && reply == if out.ok then Ok() else Fail(Failure)
    ensures WriteThrough(v, fd, h, x, buf) == (v', reply)
  {
    SetTwice(v, h.node, x, x.(size := if out.ok then end else x.size, bytes := out.bytes));
  }

  // ------------------------------------------------------------------ soft links

  lemma SymlinkRefines(s: State, uid: nat, gid: nat, mode: int, name: string, link: string, now: int)
    requires Inv(s)
    ensures var (s', reply) := SoftLink(s, uid, gid, mode, name, link, now);
            ServeSymlink(View(s), uid, gid, mode, name, link, now) == (View(s'), reply)
  {
    Resolved(s, name);
    Resolved(s, link);
    AccessRefines(s, uid, gid, name);
    var p := FileOf(s, LookupOrZero(s.names, name));
    if p < |s.inodes| && Taken(s.names, name) && !Taken(s.names, link) {
      CopyRefines(s, SymlinkEntry(s, uid, gid, mode, p, link, now), p, uid, gid, mode, link, now);
    }
  }

  /** The reference's soft link once everything has been checked. */
  ghost function Copied(v: Fs, node: nat, parent: Record, uid: nat, gid: nat, mode: int, link: string, now: int)
    : (Fs, Reply)
  {
    var child, copy := Above(v.files.Keys), Reference.Store([], 0, Front(parent.bytes, parent.size), v.free);
    var x := Record(Symlink, uid, gid, mode, if copy.ok then parent.size else 0, now, now, now, copy.bytes);
    (Fs(v.dir[link := child], v.files[node := parent.(atime := now)][child := x], v.handles, copy.free),
     if copy.ok then Ok() else Fail(Failure))
  }

  lemma CopyRefines(s: State, s1: State, p: nat, uid: nat, gid: nat, mode: int, link: string, now: int)
    requires Inv(s) && p < |s.inodes| && !Taken(s.names, link)
    requires s1 == SymlinkEntry(s, uid, gid, mode, p, link, now)
    ensures Typed(s1) && SlotsInRange(s.inodes[p].slots)
    ensures var (s', reply) := SoftLinkCopy(s1, s.inodes[p].slots, s.inodes[p].size);
            Copied(View(s), s.inodes[p].index, RecordOf(s.inodes[p], s.store), uid, gid, mode, link, now)
            == (View(s'), reply)
  {
    SymlinkEntryInv(s, uid, gid, mode, p, link, now);
    EntryView(s, p, uid, gid, mode, link, now);
    assert InodeOk(s.inodes[p], s.store);
    NoBytes(s.store);
    CopyStart(s1, p, View(s), s.inodes[p].index, RecordOf(s.inodes[p], s.store), uid, gid, mode, link, now);
  }

  /** The state of the view between the two halves of a soft link. */
  ghost function EnteredFs(v: Fs, node: nat, parent: Record, uid: nat, gid: nat, mode: int, link: string, now: int)
    : Fs
  {
    var child, x := Above(v.files.Keys), Record(Symlink, uid, gid, mode, 0, now, now, now, []);
    Fs(v.dir[link := child], v.files[node := parent.(atime := now)][child := x], v.handles, v.free)
  }

  /** The parent is there, and the last inode is the empty child. */
  ghost predicate Prepared(s1: State, p: nat, v: Fs, node: nat, parent: Record, uid: nat, gid: nat, mode: int,
                           link: string, now: int) {
    && p < |s1.inodes| && View(s1) == EnteredFs(v, node, parent, uid, gid, mode, link, now)
    && var c := s1.inodes[|s1.inodes| - 1];
    && c.slots == NoSlots() && c.index == Above(v.files.Keys)
    && RecordOf(c, s1.store) == Record(Symlink, uid, gid, mode, 0, now, now, now, [])
  }

  lemma CopyStart(s1: State, p: nat, v: Fs, node: nat, parent: Record, uid: nat, gid: nat, mode: int, link: string,
                  now: int)
    requires Inv(s1) && Prepared(s1, p, v, node, parent, uid, gid, mode, link, now)
    requires parent.(atime := now) == RecordOf(s1.inodes[p], s1.store)
    ensures Typed(s1)
    ensures var (s', reply) := SoftLinkCopy(s1, s1.inodes[p].slots, s1.inodes[p].size);
            Copied(v, node, parent, uid, gid, mode, link, now) == (View(s'), reply)
  {
    var data := ParentData(s1, p, parent, now);
    CopyFrom(s1, s1.inodes[p].slots, p, v, node, parent, uid, gid, mode, link, now, data);
  }

  lemma ParentData(s1: State, p: nat, parent: Record, now: int) returns (data: Buffer)
    requires Inv(s1) && p < |s1.inodes| && parent.(atime := now) == RecordOf(s1.inodes[p], s1.store)
    ensures data == Front(parent.bytes, parent.size) && |data| == parent.size == s1.inodes[p].size <= MAX_BYTES
    ensures Typed(s1) && ReadLoop(s1.store, s1.inodes[p].slots, 0, |data|) == ReadOut(data, |data|, true)
  {
    data := CopiedData(s1, p);
    FrontIs(s1.store, s1.inodes[p], parent, now, data);
  }

  lemma CopyFrom(s1: State, slots: seq<nat>, p: nat, v: Fs, node: nat, parent: Record, uid: nat, gid: nat, mode: int,
                 link: string, now: int, data: Buffer)
    requires InodesOk(s1.inodes, s1.store) && Typed(s1) && SlotsInRange(slots)
    requires Prepared(s1, p, v, node, parent, uid, gid, mode, link, now)
    requires data == Front(parent.bytes, parent.size) && |data| == parent.size <= MAX_BYTES
    requires ReadLoop(s1.store, slots, 0, |data|) == ReadOut(data, |data|, true)
    ensures var (s', reply) := SoftLinkCopy(s1, slots, |data|);
            Copied(v, node, parent, uid, gid, mode, link, now) == (View(s'), reply)
  {
    EndIs(0, |data|);
    CopyIs(s1, slots, |data|, data);
    CopyEnds(s1, |s1.inodes| - 1, v, node, parent, uid, gid, mode, link, now, data);
  }

  lemma CopyEnds(s1: State, c: nat, v: Fs, node: nat, parent: Record, uid: nat, gid: nat, mode: int, link: string,
                 now: int, data: Buffer)
    requires InodesOk(s1.inodes, s1.store) && c < |s1.inodes|
    requires View(s1) == EnteredFs(v, node, parent, uid, gid, mode, link, now)
    requires data == Front(parent.bytes, parent.size) && |data| == parent.size <= MAX_BYTES && Typed(s1)
    requires s1.inodes[c].slots == NoSlots() && s1.inodes[c].index == Above(v.files.Keys)
    requires RecordOf(s1.inodes[c], s1.store) == Record(Symlink, uid, gid, mode, 0, now, now, now, [])
    ensures var (s2, ok) := WriteInode(s1, c, 0, data);
            Copied(v, node, parent, uid, gid, mode, link, now) == (View(s2), if ok then Ok() else Fail(Failure))
  {
    var out, y := Reference.Store([], 0, data, CountFree(s1.store.table)), RecordOf(s1.inodes[c], s1.store);
    CopyWritten(s1, c, data, y, out);
    var (s2, ok) := WriteInode(s1, c, 0, data);
    assert CountFree(s1.store.table) == View(s1).free;
    CopiedIs(v, View(s1), View(s2), node, parent, uid, gid, mode, link, now, data, out, Above(v.files.Keys));
  }

  lemma FrontIs(st: Blocks.Store, n: Inode, parent: Record, now: int, data: seq<Byte>)
    requires parent.(atime := now) == RecordOf(n, st) && data == Content(st, n) && |data| == n.size
    ensures data == Front(parent.bytes, parent.size) && |data| == parent.size
  {
  }

  /** Writing the copy into the empty file. */
  lemma CopyWritten(s: State, c: nat, data: Buffer, y: Record, out: Outcome)
    requires InodesOk(s.inodes, s.store) && Typed(s) && c < |s.inodes| && s.inodes[c].slots == NoSlots()
    requires y == RecordOf(s.inodes[c], s.store) && |data| <= MAX_BYTES
    requires out == Reference.Store([], 0, data, CountFree(s.store.table))
    ensures var (s', ok) := WriteInode(s, c, 0, data);
            && ok == out.ok
            && View(s') == SetFile(View(s), s.inodes[c].index,
                                   y.(size := if ok then |data| else y.size, bytes := out.bytes)).(free := out.free)
  {
    NoBytes(s.store);
    EndIs(0, |data|);
    assert |data| < U32 && WriteOutcome([], 0, data, CountFree(s.store.table)) == out;
    InodeWritten(s, c, 0, data, y, out, |data|);
  }

  lemma CopiedIs(v: Fs, v1: Fs, v2: Fs, node: nat, parent: Record, uid: nat, gid: nat, mode: int, link: string,
                 now: int, data: seq<Byte>, out: Outcome, child: nat)
    requires data == Front(parent.bytes, parent.size) && |data| == parent.size && child == Above(v.files.Keys)
    requires v1 == EnteredFs(v, node, parent, uid, gid, mode, link, now)
    requires out == Reference.Store([], 0, data, v1.free)
    requires var x := Record(Symlink, uid, gid, mode, 0, now, now, now, []);
             v2 == SetFile(v1, child, x.(size := if out.ok then |data| else 0, bytes := out.bytes)).(free := out.free)
    ensures Copied(v, node, parent, uid, gid, mode, link, now) == (v2, if out.ok then Ok() else Fail(Failure))
  {
    var x := Record(Symlink, uid, gid, mode, 0, now, now, now, []);
    SetTwice(v.(files := v.files[node := parent.(atime := now)]), child, x,
             x.(size := if out.ok then |data| else 0, bytes := out.bytes));
  }

  lemma EntryView(s: State, p: nat, uid: nat, gid: nat, mode: int, link: string, now: int)
    requires Inv(s) && p < |s.inodes| && !Taken(s.names, link)
    ensures NextIndex(s.inodes) == Above(View(s).files.Keys)
    ensures View(SymlinkEntry(s, uid, gid, mode, p, link, now))
         == EnteredFs(View(s), s.inodes[p].index, RecordOf(s.inodes[p], s.store), uid, gid, mode, link, now)
  {
    var x, child := s.inodes[p].(atime := now), NewInode(s.inodes, Symlink, uid, gid, 0, mode, now);
    Touched(s, p, x);
    FilesAbove(s.inodes, s.store);
    FilesAdd(s.inodes[p := x], s.store, child.(refCount := 1));
    NoBytes(s.store);
    DirAppend(s.names, Name(child.index, link));
  }

  // ------------------------------------------------------------------ unlink

  lemma UnlinkRefines(s: State, name: string, now: int)
    requires Inv(s)
    ensures var (s', reply) := Unlink(s, name, now); ServeUnlink(View(s), name, now) == (View(s'), reply)
  {
    Resolved(s, name);
    var e := FindName(s.names, name);
    if e < |s.names| {
      assert Live(s.inodes, s.names[e].node);
      UnlinkFound(s, View(s), name, now, e, FindInode(s.inodes, s.names[e].node));
    }
  }

  /** The name stands for this file, dir is the directory without it, and this says whether it is
      the last name. */
  ghost predicate StandsFor(v: Fs, name: string, node: nat, x: Record, dir: map<string, nat>, last: bool) {
    && name in v.dir && v.dir[name] == node && node in v.files && v.files[node] == x
    && dir == v.dir - {name} && last == !HasName(dir, node)
  }

  lemma UnlinkFound(s: State, v: Fs, name: string, now: int, e: nat, p: nat)
    requires Inv(s) && e == FindName(s.names, name) < |s.names| && p == FindInode(s.inodes, s.names[e].node)
    requires v == View(s) && p < |s.inodes|
    ensures var (s', reply) := Unlink(s, name, now); ServeUnlink(v, name, now) == (View(s'), reply)
  {
    var n, dir := s.inodes[p], Dir(RemoveAt(s.names, e));
    UnlinkFacts(s, v, name, e, p, dir, RecordOf(n, s.store));
    UnlinkEither(s, v, name, now, e, p, dir, n, LessOne(n, now));
  }

  ghost function LessOne(n: Inode, now: int): Inode {
    n.(refCount := if n.refCount == 0 then 0 else n.refCount - 1, atime := now, ctime := now)
  }

  lemma UnlinkEither(s: State, v: Fs, name: string, now: int, e: nat, p: nat, dir: map<string, nat>, n: Inode,
                     m: Inode)
    requires InodesOk(s.inodes, s.store) && Typed(s) && v == View(s)
    requires e == FindName(s.names, name) < |s.names| && Dir(RemoveAt(s.names, e)) == dir
    requires p == FindInode(s.inodes, s.names[e].node) < |s.inodes|
    requires n == s.inodes[p] && n.refCount >= 1 && m == LessOne(n, now)
    requires StandsFor(v, name, n.index, RecordOf(n, s.store), dir, n.refCount == 1)
    ensures var (s', reply) := Unlink(s, name, now); ServeUnlink(v, name, now) == (View(s'), reply)
  {
    UnlinkTo(s, name, now, e, p, n, m);
    if n.refCount == 1 {
      LastUnlinked(s, v, name, now, e, p, dir, n);
    } else {
      OneUnlinked(s, v, name, now, e, p, dir, n, m);
    }
  }

  lemma UnlinkTo(s: State, name: string, now: int, e: nat, p: nat, n: Inode, m: Inode)
    requires Typed(s) && e == FindName(s.names, name) < |s.names|
    requires p == FindInode(s.inodes, s.names[e].node) < |s.inodes| && n == s.inodes[p] && n.refCount >= 1
    requires m == LessOne(n, now)
    ensures Unlink(s, name, now) == (if n.refCount == 1 then DropFile(s, e, p) else DropLink(s, e, p, m), Ok())
  {
  }

  lemma LastUnlinked(s: State, v: Fs, name: string, now: int, e: nat, p: nat, dir: map<string, nat>, n: Inode)
    requires InodesOk(s.inodes, s.store) && Typed(s) && v == View(s)
    requires e < |s.names| && p < |s.inodes| && n == s.inodes[p] && Dir(RemoveAt(s.names, e)) == dir
    requires StandsFor(v, name, n.index, RecordOf(n, s.store), dir, true)
    ensures ServeUnlink(v, name, now) == (View(DropFile(s, e, p)), Ok())
  {
    DroppedView(s, e, p, dir);
    ServeUnlinkIs(v, name, now, n.index, RecordOf(n, s.store), dir, true, View(DropFile(s, e, p)));
  }

  lemma OneUnlinked(s: State, v: Fs, name: string, now: int, e: nat, p: nat, dir: map<string, nat>, n: Inode, m: Inode)
    requires Rising(s.inodes) && v == View(s)
    requires e < |s.names| && p < |s.inodes| && n == s.inodes[p] && Dir(RemoveAt(s.names, e)) == dir
    requires m == n.(refCount := m.refCount, atime := now, ctime := now)
    requires StandsFor(v, name, n.index, RecordOf(n, s.store), dir, false)
    ensures ServeUnlink(v, name, now) == (View(DropLink(s, e, p, m)), Ok())
  {
    UnlinkedView(s, e, p, now, m.refCount, dir);
    ServeUnlinkIs(v, name, now, n.index, RecordOf(n, s.store), dir, false, View(DropLink(s, e, p, m)));
  }

  lemma UnlinkFacts(s: State, v: Fs, name: string, e: nat, p: nat, dir: map<string, nat>, x: Record)
    requires Inv(s) && e == FindName(s.names, name) < |s.names| && p < |s.inodes| && v == View(s)
    requires s.inodes[p].index == s.names[e].node && dir == Dir(RemoveAt(s.names, e))
    requires x == RecordOf(s.inodes[p], s.store)
    ensures StandsFor(v, name, s.inodes[p].index, x, dir, s.inodes[p].refCount == 1)
    ensures s.inodes[p].refCount >= 1 && Typed(s)
  {
    NameStands(s.names, v.dir, name, e, dir);
    FileStands(s, v, p, x);
    LastName(s, name, p);
  }

  lemma NameStands(names: seq<Name>, m: map<string, nat>, name: string, e: nat, dir: map<string, nat>)
    requires Unique(names) && e == FindName(names, name) < |names| && m == Dir(names) && dir == Dir(RemoveAt(names, e))
    ensures name in m && m[name] == names[e].node == LookupOrZero(names, name)
    ensures dir == m - {name} && Taken(names, name)
  {
    DirLookup(names, name);
    DirRemove(names, e);
  }

  lemma FileStands(s: State, v: Fs, p: nat, x: Record)
    requires Inv(s) && p < |s.inodes| && v == View(s) && x == RecordOf(s.inodes[p], s.store)
    ensures s.inodes[p].index in v.files && v.files[s.inodes[p].index] == x
    ensures s.inodes[p].refCount >= 1 && Typed(s)
  {
    var q := FileOf(s, s.inodes[p].index);
    assert p == q;
  }

  lemma ServeUnlinkIs(v: Fs, name: string, now: int, node: nat, x: Record, dir: map<string, nat>, last: bool, v': Fs)
    requires StandsFor(v, name, node, x, dir, last)
    requires v' == if last
                   then v.(dir := dir, files := v.files - {node}, free := v.free + |x.bytes| / BLOCK_SIZE)
                   else SetFile(v, node, x.(atime := now, ctime := now)).(dir := dir)
    ensures ServeUnlink(v, name, now) == (v', Ok())
  {
  }

  /** The count is 1 exactly when the directory has no other name of the file. */
  lemma LastName(s: State, name: string, p: nat)
    requires Inv(s) && Taken(s.names, name) && p < |s.inodes| && s.inodes[p].index == LookupOrZero(s.names, name)
    ensures s.inodes[p].refCount == 1 <==> !HasName(Dir(s.names) - {name}, s.inodes[p].index)
  {
    var m, node := Dir(s.names), s.inodes[p].index;
    DirLookup(s.names, name);
    OnlyName(s, name, p);
    LastOfNames(m, name, node);
  }

  lemma LastOfNames(m: map<string, nat>, name: string, node: nat)
    requires name in m && m[name] == node
    ensures NamesOf(m, node) == {name} <==> !HasName(m - {name}, node)
  {
    assert name in NamesOf(m, node);
    if HasName(m - {name}, node) {
      var x :| x in m - {name} && (m - {name})[x] == node;
      assert x in NamesOf(m, node) && x != name;
    } else {
      forall x | x in NamesOf(m, node) ensures x == name {
        assert x != name ==> x in m - {name};
      }
      assert NamesOf(m, node) == {name};
    }
  }

  lemma DroppedView(s: State, e: nat, p: nat, dir: map<string, nat>)
    requires InodesOk(s.inodes, s.store) && Typed(s) && e < |s.names| && p < |s.inodes|
    requires Dir(RemoveAt(s.names, e)) == dir
    ensures View(DropFile(s, e, p))
         == View(s).(dir := dir, files := View(s).files - {s.inodes[p].index},
                     free := View(s).free + |MappedBytes(s.store, s.inodes[p].slots)| / BLOCK_SIZE)
  {
    var n, st' := s.inodes[p], DropFile(s, e, p).store;
    assert InodeOk(n, s.store);
    DropInodes(s.inodes, s.store, p);
    OthersOk(s.inodes, s.store, st', p);
    FilesDrop(s.inodes, s.store, st', p);
    FreedCount(s.store.table, n.slots, 0);
  }

  lemma UnlinkedView(s: State, e: nat, p: nat, now: int, refs: nat, dir: map<string, nat>)
    requires Rising(s.inodes) && e < |s.names| && p < |s.inodes| && Dir(RemoveAt(s.names, e)) == dir
    ensures View(DropLink(s, e, p, s.inodes[p].(refCount := refs, atime := now, ctime := now)))
         == SetFile(View(s), s.inodes[p].index, RecordOf(s.inodes[p], s.store).(atime := now, ctime := now))
            .(dir := dir)
  {
    FilesSet(s.inodes, s.store, s.store, p, s.inodes[p].(refCount := refs, atime := now, ctime := now));
  }

  // ------------------------------------------------------------------ every call, every run

  /** Every call, in every good state, does to the view what the reference does, and is answered
      as the reference answers. */
  lemma StepRefines(s: State, op: Op, now: int)
    requires Inv(s)
    ensures Typed(s) && var (s', reply) := Apply(s, op, now); Serve(View(s), op, now) == (View(s'), reply)
  {
    if op.OpCreate? || op.OpChmod? || op.OpStat? { FileStepRefines(s, op, now); }
    else if op.OpOpen? || op.OpClose? || op.OpSeek? { HandleStepRefines(s, op, now); }
    else if op.OpRead? || op.OpWrite? { ByteStepRefines(s, op, now); }
    else { NameStepRefines(s, op, now); }
  }

  lemma FileIsCall(s: State, v: Fs, op: Op, now: int)
    requires Typed(s)
    ensures op.OpCreate? ==> Apply(s, op, now) == Create(s, op.uid, op.gid, op.mode, op.name, now)
                             && Serve(v, op, now) == ServeCreate(v, op.uid, op.gid, op.mode, op.name, now)
    ensures op.OpChmod? ==> Apply(s, op, now) == Chmod(s, op.uid, op.gid, op.mode, op.name, now)
                            && Serve(v, op, now) == ServeChmod(v, op.uid, op.gid, op.mode, op.name, now)
    ensures op.OpStat? ==> Apply(s, op, now) == Stat(s, op.uid, op.gid, op.name, now)
                           && Serve(v, op, now) == ServeStat(v, op.uid, op.gid, op.name, now)
  {
  }

  lemma FileStepRefines(s: State, op: Op, now: int)
    requires Inv(s) && (op.OpCreate? || op.OpChmod? || op.OpStat?)
    ensures Typed(s) && var (s', reply) := Apply(s, op, now); Serve(View(s), op, now) == (View(s'), reply)
  {
    FileIsCall(s, View(s), op, now);
    match op
    case OpCreate(uid, gid, mode, name) => CreateRefines(s, uid, gid, mode, name, now);
    case OpChmod(uid, gid, mode, name) => ChmodRefines(s, uid, gid, mode, name, now);
    case OpStat(uid, gid, name) => StatRefines(s, uid, gid, name, now);
  }

  lemma HandleIsCall(s: State, v: Fs, op: Op, now: int)
    requires Typed(s)
    ensures op.OpOpen? ==> Apply(s, op, now) == Open(s, op.uid, op.gid, op.name, op.flags, now)
                           && Serve(v, op, now) == ServeOpen(v, op.uid, op.gid, op.name, op.flags, now)
    ensures op.OpClose? ==> Apply(s, op, now) == Close(s, op.fd) && Serve(v, op, now) == ServeClose(v, op.fd)
    ensures op.OpSeek? ==> Apply(s, op, now) == Seek(s, op.fd, op.off)
                           && Serve(v, op, now) == ServeSeek(v, op.fd, op.off)
  {
  }

  lemma HandleStepRefines(s: State, op: Op, now: int)
    requires Inv(s) && (op.OpOpen? || op.OpClose? || op.OpSeek?)
    ensures Typed(s) && var (s', reply) := Apply(s, op, now); Serve(View(s), op, now) == (View(s'), reply)
  {
    HandleIsCall(s, View(s), op, now);
    match op
    case OpOpen(uid, gid, name, flags) => OpenRefines(s, uid, gid, name, flags, now);
    case OpClose(fd) => CloseRefines(s, fd);
    case OpSeek(fd, off) => SeekRefines(s, fd, off);
  }

  lemma NameStepRefines(s: State, op: Op, now: int)
    requires Inv(s) && (op.OpRename? || op.OpLink? || op.OpSymlink? || op.OpUnlink?)
    ensures Typed(s) && var (s', reply) := Apply(s, op, now); Serve(View(s), op, now) == (View(s'), reply)
  {
    NameIsCall(s, View(s), op, now);
    match op
    case OpRename(name, newName) => RenameRefines(s, name, newName);
    case OpLink(uid, gid, name, link) => LinkRefines(s, uid, gid, name, link, now);
    case OpSymlink(uid, gid, mode, name, link) => SymlinkRefines(s, uid, gid, mode, name, link, now);
    case OpUnlink(name) => UnlinkRefines(s, name, now);
  }

  lemma NameIsCall(s: State, v: Fs, op: Op, now: int)
    requires Typed(s)
    ensures op.OpRename? ==> Apply(s, op, now) == Rename(s, op.name, op.newName)
                             && Serve(v, op, now) == ServeRename(v, op.name, op.newName)
    ensures op.OpLink? ==> Apply(s, op, now) == Link(s, op.uid, op.gid, op.name, op.link, now)
                           && Serve(v, op, now) == ServeLink(v, op.uid, op.gid, op.name, op.link, now)
    ensures op.OpSymlink? ==>
              && Apply(s, op, now) == SoftLink(s, op.uid, op.gid, op.mode, op.name, op.link, now)
              && Serve(v, op, now) == ServeSymlink(v, op.uid, op.gid, op.mode, op.name, op.link, now)
    ensures op.OpUnlink? ==> Apply(s, op, now) == Unlink(s, op.name, now)
                             && Serve(v, op, now) == ServeUnlink(v, op.name, now)
  {
  }

  lemma ByteIsCall(s: State, v: Fs, op: Op, now: int)
    requires Typed(s)
    ensures op.OpRead? ==> Apply(s, op, now) == Read(s, op.fd, op.n, now)
                           && Serve(v, op, now) == ServeRead(v, op.fd, op.n, now)
    ensures op.OpWrite? ==> Apply(s, op, now) == Write(s, op.fd, op.buf, now)
                            && Serve(v, op, now) == ServeWrite(v, op.fd, op.buf, now)
  {
  }

  lemma ByteStepRefines(s: State, op: Op, now: int)
    requires Inv(s) && (op.OpRead? || op.OpWrite?)
    ensures Typed(s) && var (s', reply) := Apply(s, op, now); Serve(View(s), op, now) == (View(s'), reply)
  {
    ByteIsCall(s, View(s), op, now);
    if op.OpRead? { ReadRefines(s, op.fd, op.n, now); } else { StoreRefines(s, op.fd, op.buf, now); }
  }

  /** The service before anything was stored: nothing there, and all blocks free. */
  lemma EmptyView()
    ensures View(Empty()) == Fs(map[], map[], map[], NUM_BLOCKS)
  {
    AllFree(Empty().store.table);
    assert Dir([]) == map[];
  }

  lemma {:induction false} AllFree(table: seq<Entry>)
    requires forall i :: 0 <= i < |table| ==> !table[i].used
    ensures CountFree(table) == |table|
  {
    if |table| > 0 { AllFree(table[..|table| - 1]); }
  }

  /** A run of the reference: every state and every reply follows from the state before. */
  ghost predicate ReferenceRun(fss: seq<Fs>, events: seq<Event>, replies: seq<Reply>) {
    && |fss| == |events| + 1 && |replies| == |events|
    && forall k :: 0 <= k < |events| ==> Serves(fss[k], events[k], fss[k + 1], replies[k])
  }

  ghost predicate Serves(fs: Fs, e: Event, fs': Fs, reply: Reply) {
    Serve(fs, e.op, e.now) == (fs', reply)
  }

  /** Reply k is the one that the tables give to operation k. */
  ghost predicate Replied(s: State, e: Event, reply: Reply) {
    Typed(s) && reply == Apply(s, e.op, e.now).1
  }

  lemma StepServes(states: seq<State>, events: seq<Event>, k: nat) returns (reply: Reply)
    requires IsRun(states, events) && k < |events| && Inv(states[0]) && AllSafe(states, events)
    ensures StepAnswered(states, events, k, reply)
  {
    RunInv(states, events, k);
    assert Step(states[k], events[k], states[k + 1]);
    reply := Apply(states[k], events[k].op, events[k].now).1;
    StepRefines(states[k], events[k].op, events[k].now);
  }

  /** Over every safe run, the views of the states are a run of the reference on the same calls,
      with the replies of the tables. */
  lemma RunRefines(states: seq<State>, events: seq<Event>) returns (fss: seq<Fs>, replies: seq<Reply>)
    requires IsRun(states, events) && Inv(states[0]) && AllSafe(states, events)
    ensures ReferenceRun(fss, events, replies) && |fss| == |states|
    ensures forall i :: 0 <= i < |states| ==> fss[i] == View(states[i])
    ensures forall k :: 0 <= k < |events| ==> Replied(states[k], events[k], replies[k])
  {
    fss := seq(|states|, i requires 0 <= i < |states| => View(states[i]));
    replies := [];
    for k := 0 to |events|
      invariant |replies| == k && forall j :: 0 <= j < k ==> StepAnswered(states, events, j, replies[j])
    {
      var reply := StepServes(states, events, k);
      replies := replies + [reply];
    }
    Assembled(states, events, fss, replies);
  }

  lemma Assembled(states: seq<State>, events: seq<Event>, fss: seq<Fs>, replies: seq<Reply>)
    requires |fss| == |states| == |events| + 1 && |replies| == |events|
    requires forall i :: 0 <= i < |states| ==> fss[i] == View(states[i])
    requires forall k :: 0 <= k < |events| ==> StepAnswered(states, events, k, replies[k])
    ensures ReferenceRun(fss, events, replies)
    ensures forall k :: 0 <= k < |events| ==> Replied(states[k], events[k], replies[k])
  {
    forall k | 0 <= k < |events|
      ensures Serves(fss[k], events[k], fss[k + 1], replies[k]) && Replied(states[k], events[k], replies[k])
    {
      assert StepAnswered(states, events, k, replies[k]);
    }
  }

  ghost predicate StepAnswered(states: seq<State>, events: seq<Event>, k: nat, reply: Reply) {
    && k < |events| && k + 1 < |states|
    && Serves(View(states[k]), events[k], View(states[k + 1]), reply) && Replied(states[k], events[k], reply)
  }

  lemma {:induction false} SameAnswers(fss: seq<Fs>, fss': seq<Fs>, events: seq<Event>, replies: seq<Reply>,
                                       replies': seq<Reply>, i: nat)
    requires ReferenceRun(fss, events, replies) && ReferenceRun(fss', events, replies') && fss[0] == fss'[0]
    requires i <= |events|
    ensures fss[i] == fss'[i] && replies[..i] == replies'[..i]
  {
    if i > 0 {
      SameAnswers(fss, fss', events, replies, replies', i - 1);
      assert Serves(fss[i - 1], events[i - 1], fss[i - 1 + 1], replies[i - 1]);
      assert Serves(fss'[i - 1], events[i - 1], fss'[i - 1 + 1], replies'[i - 1]);
      assert replies[..i] == replies[..i - 1] + [replies[i - 1]];
      assert replies'[..i] == replies'[..i - 1] + [replies'[i - 1]];
    }
  }

  /** So what the tables keep beyond the view never shows: two services that look alike answer every
      history of calls alike, and look alike afterwards. */
  lemma LooksDecide(states: seq<State>, states': seq<State>, events: seq<Event>, k: nat)
    requires IsRun(states, events) && Inv(states[0]) && AllSafe(states, events)
    requires IsRun(states', events) && Inv(states'[0]) && AllSafe(states', events)
    requires View(states[0]) == View(states'[0]) && k < |events|
    ensures View(states[|events|]) == View(states'[|events|])
    ensures Typed(states[k]) && Typed(states'[k])
    ensures Apply(states[k], events[k].op, events[k].now).1 == Apply(states'[k], events[k].op, events[k].now).1
  {
    var fss, replies := RunRefines(states, events);
    var fss', replies' := RunRefines(states', events);
    SameAnswers(fss, fss', events, replies, replies', |events|);
    assert replies[k] == replies[..|events|][k] && replies'[k] == replies'[..|events|][k];
    assert Replied(states[k], events[k], replies[k]) && Replied(states'[k], events[k], replies'[k]);
  }
}
