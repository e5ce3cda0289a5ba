/**
 The tables of service/inode.c and the service operations of service/operations.c that act
 on them: inode list, filename list, descriptor list and block store. Lists are kept in
 their source order; an operation is a function from state to state and reply.
 */
module Namespace {
  import opened Common
  import opened Blocks

  datatype FileKind = Regular | Symlink

  datatype Inode = Inode(index: nat, kind: FileKind, owner: nat, group: nat, refCount: nat, mode: int,
                         size: nat, atime: int, mtime: int, ctime: int, slots: seq<nat>)

  datatype Name = Name(node: nat, name: string)

  datatype Desc = Desc(fd: nat, mode: nat, off: nat, node: nat)

  datatype State = State(inodes: seq<Inode>, names: seq<Name>, descs: seq<Desc>, store: Store)

  /** struct stat_t. */
  datatype StatRecord = StatRecord(size: nat, atime: int, mtime: int, ctime: int)

  datatype Reply = Reply(status: Status, value: nat, data: seq<Byte>, stat: Option<StatRecord> := None)

  /** A buffer whose length fits a C `unsigned`. */
  type Buffer = b: seq<Byte> | |b| < U32

  const READ_ONLY: nat := 0
  const WRITE_ONLY: nat := 1

  function NoSlots(): (r: seq<nat>)
    ensures |r| == MAX_SLOTS && forall j :: 0 <= j < |r| ==> r[j] == 0
  {
    seq(MAX_SLOTS, _ => 0)
  }

  /** The arrays of the C structures have their declared sizes and hold valid block numbers. */
  ghost predicate Typed(s: State) {
    Sized(s.store) && forall i :: 0 <= i < |s.inodes| ==> SlotsInRange(s.inodes[i].slots)
  }

  function Ok(): Reply { Reply(Success, 0, []) }

  function Fail(status: Status): Reply { Reply(status, 0, []) }

  // ------------------------------------------------------------------ list walks

  /** Position of the first inode with this index at or after i, or the length of the list. */
  function FindInode(inodes: seq<Inode>, index: nat, i: nat := 0): (r: nat)
    requires i <= |inodes|
    ensures i <= r <= |inodes|
    ensures r < |inodes| ==> inodes[r].index == index
    ensures forall j :: i <= j < r ==> inodes[j].index != index
    decreases |inodes| - i
  {
    if i == |inodes| || inodes[i].index == index then i else FindInode(inodes, index, i + 1)
  }

  function FindName(names: seq<Name>, name: string, i: nat := 0): (r: nat)
    requires i <= |names|
    ensures i <= r <= |names|
    ensures r < |names| ==> names[r].name == name
    ensures forall j :: i <= j < r ==> names[j].name != name
    decreases |names| - i
  {
    if i == |names| || names[i].name == name then i else FindName(names, name, i + 1)
  }

  function FindDesc(descs: seq<Desc>, fd: nat, i: nat := 0): (r: nat)
    requires i <= |descs|
    ensures i <= r <= |descs|
    ensures r < |descs| ==> descs[r].fd == fd
    ensures forall j :: i <= j < r ==> descs[j].fd != fd
    decreases |descs| - i
  {
    if i == |descs| || descs[i].fd == fd then i else FindDesc(descs, fd, i + 1)
  }

  predicate OpenedForWrite(descs: seq<Desc>, node: nat) {
    exists d :: 0 <= d < |descs| && descs[d].node == node && descs[d].mode == WRITE_ONLY
  }

  predicate Taken(names: seq<Name>, name: string) {
    FindName(names, name) < |names|
  }

  /** A lookup whose result is compared with -1 although a miss returns 1: a missing name is
      never noticed and stands for the index the caller initialised, 0. */
  function LookupOrZero(names: seq<Name>, name: string): nat {
    var p := FindName(names, name);
    if p < |names| then names[p].node else 0
  }

  function RemoveAt<T>(s: seq<T>, p: nat): seq<T>
    requires p < |s|
  {
    s[..p] + s[p + 1..]
  }

  // ------------------------------------------------------------------ permissions

  /** The C remainder, which takes the sign of the dividend. */
  function CMod(a: int, b: int): int
    requires b > 0
  {
    if a >= 0 then a % b else -((-a) % b)
  }

  /** The octal range test for reading, on the digit group that applies to the caller. */
  predicate LacksRead(uid: nat, gid: nat, owner: nat, group: nat, perms: int) {
    if uid == owner then perms < 256
    else if gid == group then CMod(perms, 64) < 32
    else CMod(perms, 8) < 4
  }

  predicate LacksWrite(uid: nat, gid: nat, owner: nat, group: nat, perms: int) {
    if uid == owner then perms < 128 || 256 <= perms < 384
    else if gid == group then CMod(perms, 64) < 16 || 32 <= CMod(perms, 64) < 48
    else CMod(perms, 8) < 2 || 4 <= CMod(perms, 8) < 6
  }

  /** get_file_owner_group_permissions followed by a range test; when the inode is missing the
      test runs on the zeros the caller initialised. */
  function AccessStatus(s: State, name: string, lacks: (nat, nat, int) -> bool): Status {
    var p := FindInode(s.inodes, LookupOrZero(s.names, name));
    if p < |s.inodes| then
      if lacks(s.inodes[p].owner, s.inodes[p].group, s.inodes[p].mode) then InsufficientPerms else Success
    else if lacks(0, 0, 0) then InsufficientPerms else Failure
  }

  function ReadAccess(s: State, uid: nat, gid: nat, name: string): Status {
    AccessStatus(s, name, (o: nat, g: nat, m: int) => LacksRead(uid, gid, o, g, m))
  }

  function WriteAccess(s: State, uid: nat, gid: nat, name: string): Status {
    AccessStatus(s, name, (o: nat, g: nat, m: int) => LacksWrite(uid, gid, o, g, m))
  }

  // ------------------------------------------------------------------ inode operations

  function NextIndex(inodes: seq<Inode>): nat {
    if |inodes| == 0 then 0 else inodes[|inodes| - 1].index + 1
  }

  function NewInode(inodes: seq<Inode>, kind: FileKind, uid: nat, gid: nat, refs: nat, mode: int, now: int): Inode {
    Inode(NextIndex(inodes), kind, uid, gid, refs, mode, 0, now, now, now, NoSlots())
  }

  function SetInode(s: State, p: nat, x: Inode): State
    requires p < |s.inodes|
  {
    s.(inodes := s.inodes[p := x])
  }

  /** Append an inode and its first name. */
  function AddFile(s: State, x: Inode, name: string): State {
    s.(inodes := s.inodes + [x], names := s.names + [Name(x.index, name)])
  }

  /** service_create. */
  function Create(s: State, uid: nat, gid: nat, mode: int, name: string, now: int): (State, Reply) {
    if Taken(s.names, name) then (s, Fail(FilenameTaken))
    else (AddFile(s, NewInode(s.inodes, Regular, uid, gid, 1, mode, now), name),
          Reply(Success, NextIndex(s.inodes), []))
  }

  /** chmod_inode, which does notice a missing name. */
  function ChmodInode(s: State, mode: int, name: string, now: int): (State, Reply) {
    var p := FindInode(s.inodes, LookupOrZero(s.names, name));
    if !Taken(s.names, name) then (s, Fail(FileNotFound))
    else if p == |s.inodes| then (s, Fail(Failure))
    else (SetInode(s, p, s.inodes[p].(mode := mode, atime := now, ctime := now)), Ok())
  }

  /** service_chmode: the requested long is passed on as an unsigned. */
  function Chmod(s: State, uid: nat, gid: nat, mode: int, name: string, now: int): (State, Reply) {
    var access := WriteAccess(s, uid, gid, name);
    if access != Success then (s, Fail(access)) else ChmodInode(s, mode % U32, name, now)
  }

  /** get_file_stat_from_inode: the record is copied before the access time is set. */
  function StatInode(s: State, name: string, now: int): (State, Reply) {
    var p := FindInode(s.inodes, LookupOrZero(s.names, name));
    if p == |s.inodes| then (s, Fail(Failure))
    else
      var n := s.inodes[p];
      (SetInode(s, p, n.(atime := now)), Reply(Success, 0, [], Some(StatRecord(n.size, n.atime, n.mtime, n.ctime))))
  }

  /** service_stat. */
  function Stat(s: State, uid: nat, gid: nat, name: string, now: int): (State, Reply) {
    var access := ReadAccess(s, uid, gid, name);
    if access != Success then (s, Fail(access)) else StatInode(s, name, now)
  }

  /** rename_file. */
  function RenameFile(s: State, oldName: string, newName: string): (State, Reply) {
    var p := FindName(s.names, oldName);
    if Taken(s.names, newName) then (s, Fail(FilenameTaken))
    else if p == |s.names| then (s, Fail(Failure))
    else (s.(names := s.names[p := s.names[p].(name := newName)]), Ok())
  }

  /** service_rename, whose reply reports a taken name as a plain failure. */
  function Rename(s: State, oldName: string, newName: string): (State, Reply) {
    var (s', reply) := RenameFile(s, oldName, newName);
    (s', if reply.status == Success then Ok() else Fail(Failure))
  }

  /** create_hard_link. */
  function HardLink(s: State, name: string, link: string, now: int): (State, Reply) {
    var p := FindInode(s.inodes, LookupOrZero(s.names, name));
    if Taken(s.names, link) then (s, Fail(FilenameTaken))
    else if p == |s.inodes| then (s, Fail(Failure))
    else
      var node := s.inodes[p];
      (s.(inodes := s.inodes[p := node.(refCount := node.refCount + 1, atime := now, ctime := now)],
          names := s.names + [Name(node.index, link)]), Ok())
  }

  /** service_link. */
  function Link(s: State, uid: nat, gid: nat, name: string, link: string, now: int): (State, Reply) {
    var access := ReadAccess(s, uid, gid, name);
    if access != Success then (s, Fail(access)) else HardLink(s, name, link, now)
  }

  function NextFd(descs: seq<Desc>): nat {
    if |descs| == 0 then 0 else descs[|descs| - 1].fd + 1
  }

  /** open_inode: any open of a file that has a write descriptor is refused. */
  function OpenInode(s: State, name: string, mode: nat, now: int): (State, Reply) {
    var node := LookupOrZero(s.names, name);
    var p := FindInode(s.inodes, node);
    if OpenedForWrite(s.descs, node) then (s, Fail(DoubleWrite))
    else if p == |s.inodes| then (s, Fail(Failure))
    else
      (s.(descs := s.descs + [Desc(NextFd(s.descs), mode, 0, node)],
          inodes := s.inodes[p := s.inodes[p].(atime := now)]), Reply(Success, NextFd(s.descs), []))
  }

  /** service_open: flags other than read-only and write-only are refused. */
  function Open(s: State, uid: nat, gid: nat, name: string, flags: int, now: int): (State, Reply) {
    var access := if flags == READ_ONLY then ReadAccess(s, uid, gid, name)
                  else if flags == WRITE_ONLY then WriteAccess(s, uid, gid, name)
                  else Failure;
    if access != Success then (s, Fail(access)) else OpenInode(s, name, flags, now)
  }

  /** service_close and remove_descriptor. */
  function Close(s: State, fd: nat): (State, Reply) {
    var d := FindDesc(s.descs, fd);
    if d == |s.descs| then (s, Fail(Failure))
    else (s.(descs := RemoveAt(s.descs, d)), Ok())
  }

  /** service_seek and seek_inode_fd. */
  function Seek(s: State, fd: nat, off: nat): (State, Reply) {
    var d := FindDesc(s.descs, fd);
    if d == |s.descs| then (s, Fail(Failure))
    else
      var p := FindInode(s.inodes, s.descs[d].node);
      if p == |s.inodes| || off > s.inodes[p].size then (s, Fail(Failure))
      else (s.(descs := s.descs[d := s.descs[d].(off := off)]), Ok())
  }

  /** write_inode on the inode at position p: the result says whether it succeeded. A failed
      write keeps the blocks it has already stored and does not change the size. */
  function WriteInode(s: State, p: nat, off: nat, buf: Buffer): (State, bool)
    requires Typed(s) && p < |s.inodes|
  {
    var node := s.inodes[p];
    var end := NewOffset(off, |buf|);
    if end > BLOCK_SIZE * MAX_SLOTS then (s, false)
    else
      var w := WriteBlocks(s.store, node.slots, node.index, off, buf);
      var node' := node.(slots := w.slots, size := if w.ok then end else node.size);
      (State(s.inodes[p := node'], s.names, s.descs, w.st), w.ok)
  }

  function SetOffset(s: State, d: nat, off: nat): State
    requires d < |s.descs|
  {
    s.(descs := s.descs[d := s.descs[d].(off := off)])
  }

  /** service_write and write_inode_fd. */
  function Write(s: State, fd: nat, buf: Buffer, now: int): (State, Reply)
    requires Typed(s)
  {
    var d := FindDesc(s.descs, fd);
    if d == |s.descs| || s.descs[d].mode == READ_ONLY then (s, Fail(Failure))
    else
      var p := FindInode(s.inodes, s.descs[d].node);
      if p == |s.inodes| then (s, Fail(Failure)) else WriteAt(s, d, p, buf, now)
  }

  function WriteAt(s: State, d: nat, p: nat, buf: Buffer, now: int): (State, Reply)
    requires Typed(s) && d < |s.descs| && p < |s.inodes|
  {
    var s1 := SetInode(s, p, s.inodes[p].(atime := now, mtime := now));
    var (s2, ok) := WriteInode(s1, p, s.descs[d].off, buf);
    if ok then (SetOffset(s2, d, NewOffset(s.descs[d].off, |buf|)), Ok()) else (s2, Fail(Failure))
  }

  /** service_read, read_inode_fd and read_inode. Only the offset and the access time move. */
  function Read(s: State, fd: nat, n: nat, now: int): (State, Reply)
    requires Typed(s)
  {
    var d := FindDesc(s.descs, fd);
    if d == |s.descs| then (s, Fail(Failure))
    else
      var p := FindInode(s.inodes, s.descs[d].node);
      if p == |s.inodes| then (s, Fail(Failure)) else ReadAt(s, d, p, n, now)
  }

  function ReadAt(s: State, d: nat, p: nat, n: nat, now: int): (State, Reply)
    requires Typed(s) && d < |s.descs| && p < |s.inodes|
  {
    var s1 := SetInode(s, p, s.inodes[p].(atime := now));
    if NewOffset(s.descs[d].off, n) > BLOCK_SIZE * MAX_SLOTS then (s1, Fail(Failure))
    else
      var r := ReadLoop(s.store, s.inodes[p].slots, s.descs[d].off, n);
      (SetOffset(s1, d, r.off), if r.ok then Reply(Success, 0, r.data) else Fail(Failure))
  }

  /** service_unlink and unlink_inode: the last name frees the blocks and the inode. */
  function Unlink(s: State, name: string, now: int): (State, Reply)
    requires Typed(s)
  {
    var e := FindName(s.names, name);
    if e == |s.names| then (s, Fail(FileNotFound))
    else
      var p := FindInode(s.inodes, s.names[e].node);
      if p == |s.inodes| then (s, Fail(Failure))
      else
        var node := s.inodes[p];
        // an unsigned counter: below zero it wraps
        var refs := if node.refCount == 0 then U32 - 1 else node.refCount - 1;
        if refs == 0 then (DropFile(s, e, p), Ok())
        else (DropLink(s, e, p, node.(refCount := refs, atime := now, ctime := now)), Ok())
  }

  function DropFile(s: State, e: nat, p: nat): State
    requires Typed(s) && e < |s.names| && p < |s.inodes|
  {
    State(RemoveAt(s.inodes, p), RemoveAt(s.names, e), s.descs,
          s.store.(table := FreeSlots(s.store.table, s.inodes[p].slots, 0)))
  }

  function DropLink(s: State, e: nat, p: nat, x: Inode): State
    requires e < |s.names| && p < |s.inodes|
  {
    s.(inodes := s.inodes[p := x], names := RemoveAt(s.names, e))
  }

  /** The state of create_soft_link before it copies: a new inode whose count went 0, then 1. */
  function SymlinkEntry(s: State, uid: nat, gid: nat, mode: int, p: nat, link: string, now: int): State
    requires p < |s.inodes|
  {
    var child := NewInode(s.inodes, Symlink, uid, gid, 0, mode, now);
    AddFile(SetInode(s, p, s.inodes[p].(atime := now)), child.(refCount := child.refCount + 1), link)
  }

  /** create_soft_link: the parent's bytes are copied into a new inode. When the copy runs
      out of blocks, the name and the partly filled inode stay. */
  function CreateSoftLink(s: State, uid: nat, gid: nat, mode: int, name: string, link: string, now: int): (State, Reply)
    requires Typed(s)
  {
    var p := FindInode(s.inodes, LookupOrZero(s.names, name));
    if !Taken(s.names, name) then (s, Fail(FileNotFound))
    else if Taken(s.names, link) then (s, Fail(FilenameTaken))
    else if p == |s.inodes| then (s, Fail(Failure)) // service_symlink has already excluded this
    else SoftLinkCopy(SymlinkEntry(s, uid, gid, mode, p, link, now), s.inodes[p].slots, s.inodes[p].size)
  }

  /** The copy of create_soft_link into the inode at the end of the list. */
  function SoftLinkCopy(s: State, slots: seq<nat>, n: nat): (State, Reply)
    requires Typed(s) && SlotsInRange(slots) && |s.inodes| > 0
  {
    var r := ReadLoop(s.store, slots, 0, n);
    if NewOffset(0, n) > BLOCK_SIZE * MAX_SLOTS || !r.ok || |r.data| >= U32 then (s, Fail(Failure))
    else
      var (s', ok) := WriteInode(s, |s.inodes| - 1, 0, r.data);
      (s', if ok then Ok() else Fail(Failure))
  }

  /** service_symlink. */
  function SoftLink(s: State, uid: nat, gid: nat, mode: int, name: string, link: string, now: int): (State, Reply)
    requires Typed(s)
  {
    var access := ReadAccess(s, uid, gid, name);
    if access != Success then (s, Fail(access)) else CreateSoftLink(s, uid, gid, mode, name, link, now)
  }
}
