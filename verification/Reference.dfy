/**
 The file system as its clients see it, without lists, slots, block numbers or reference counts:
 a directory, files, handles, and how many blocks are free. `Serve` gives the next state and the
 whole reply of each of the twelve calls. Names of types, operations and replies are shared with
 the tables; nothing else is.

 Five things in it are not what a client would expect, and are so because the code is: a missing
 name stands for file 0 in permission tests, stat, open and hard links; a write may replace
 blocks that stay allocated; a soft link that does not fit leaves an empty file; an end of a write
 beyond 32 bits wraps around; and a read may go past the size, up to the last stored byte.
 */
module Reference {
  import opened Common
  import opened Namespace
  import opened Permissions
  import opened Runs

  /** `bytes` is all that is stored for the file, in whole blocks; the first `size` of them are
      its content. */
  datatype Record = Record(kind: FileKind, owner: nat, group: nat, mode: int,
                           size: nat, atime: int, mtime: int, ctime: int, bytes: seq<Byte>)

  datatype Handle = Handle(mode: nat, off: nat, node: nat)

  datatype Fs = Fs(dir: map<string, nat>, files: map<nat, Record>, handles: map<nat, Handle>, free: nat)

  const MAX_BYTES: nat := 409600   // FILE_MAX_BLOCKS blocks

  // ------------------------------------------------------------------ parts

  /** The least number above all of them. */
  ghost function Above(numbers: set<nat>): (r: nat)
    ensures forall k :: k in numbers ==> k < r
    ensures r == 0 || r - 1 in numbers
  {
    if numbers == {} then 0
    else
      var k :| k in numbers;
      assert numbers == numbers - {k} + {k};
      var r := Above(numbers - {k});
      if k < r then r else k + 1
  }

  function Front(bytes: seq<Byte>, n: nat): seq<Byte> {
    if n <= |bytes| then bytes[..n] else bytes
  }

  function Back(bytes: seq<Byte>, n: nat): seq<Byte> {
    if n <= |bytes| then bytes[n..] else []
  }

  function Zeros(n: nat): seq<Byte> {
    seq(n, _ => 0)
  }

  function Resolve(fs: Fs, name: string): nat {
    if name in fs.dir then fs.dir[name] else 0
  }

  predicate Granted(fs: Fs, uid: nat, gid: nat, name: string, write: bool) {
    var node := Resolve(fs, name);
    node in fs.files && Allows(uid, gid, fs.files[node].owner, fs.files[node].group, fs.files[node].mode, write)
  }

  predicate HasWriter(fs: Fs, node: nat) {
    exists fd :: fd in fs.handles && fs.handles[fd].node == node && fs.handles[fd].mode == WRITE_ONLY
  }

  predicate HasName(dir: map<string, nat>, node: nat) {
    exists name :: name in dir && dir[name] == node
  }

  datatype Outcome = Outcome(bytes: seq<Byte>, free: nat, ok: bool)

  /** Store a buffer at an offset within the stored bytes, with this many blocks free. The rest of
      the block under the offset is written in place; further blocks are new ones, the last of
      them filled up with zeros, and stored blocks behind them stay. Without enough free blocks
      the part of the buffer that fits is stored. */
  function Store(bytes: seq<Byte>, off: nat, buf: seq<Byte>, free: nat): Outcome {
    var head := if off < |bytes| then BLOCK_SIZE - off % BLOCK_SIZE else 0;
    var need := if |buf| <= head then 0 else CeilDiv(|buf| - head, BLOCK_SIZE);
    if |buf| <= head then
      Outcome(Front(bytes, off) + buf + Back(bytes, off + |buf|), free, true)
    else if need <= free then
      var pad := need * BLOCK_SIZE - (|buf| - head);
      Outcome(Front(bytes, off) + buf + Zeros(pad) + Back(bytes, off + |buf| + pad), free - need, true)
    else
      var stored := head + free * BLOCK_SIZE;
      Outcome(Front(bytes, off) + Front(buf, stored) + Back(bytes, off + stored), 0, false)
  }

  /** A write whose end wraps around overwrites at most the rest of the block under the offset. */
  function StoreWrapped(bytes: seq<Byte>, off: nat, buf: seq<Byte>, end: nat): seq<Byte> {
    if end / BLOCK_SIZE == off / BLOCK_SIZE && end % BLOCK_SIZE != 0 then
      var rest := BLOCK_SIZE - off % BLOCK_SIZE;
      Front(bytes, off) + Front(buf, rest) + Back(bytes, off + rest)
    else bytes
  }

  function SetFile(fs: Fs, node: nat, x: Record): Fs {
    fs.(files := fs.files[node := x])
  }

  // ------------------------------------------------------------------ calls on names

  ghost function ServeCreate(fs: Fs, uid: nat, gid: nat, mode: int, name: string, now: int): (Fs, Reply) {
    if name in fs.dir then (fs, Fail(FilenameTaken))
    else
      var node := Above(fs.files.Keys);
      (SetFile(fs, node, Record(Regular, uid, gid, mode, 0, now, now, now, [])).(dir := fs.dir[name := node]),
       Reply(Success, node, []))
  }

  function ServeChmod(fs: Fs, uid: nat, gid: nat, mode: int, name: string, now: int): (Fs, Reply) {
    if !Granted(fs, uid, gid, name, true) then (fs, Fail(InsufficientPerms))
    else if name !in fs.dir then (fs, Fail(FileNotFound))
    else
      var x := fs.files[fs.dir[name]];
      (SetFile(fs, fs.dir[name], x.(mode := mode % U32, atime := now, ctime := now)), Ok())
  }

  function ServeStat(fs: Fs, uid: nat, gid: nat, name: string, now: int): (Fs, Reply) {
    if !Granted(fs, uid, gid, name, false) then (fs, Fail(InsufficientPerms))
    else
      var x := fs.files[Resolve(fs, name)];
      (SetFile(fs, Resolve(fs, name), x.(atime := now)),
       Reply(Success, 0, [], Some(StatRecord(x.size, x.atime, x.mtime, x.ctime))))
  }

  function ServeRename(fs: Fs, name: string, newName: string): (Fs, Reply) {
    if name in fs.dir && newName !in fs.dir then
      (fs.(dir := (fs.dir - {name})[newName := fs.dir[name]]), Ok())
    else (fs, Fail(Failure))
  }

  function ServeLink(fs: Fs, uid: nat, gid: nat, name: string, link: string, now: int): (Fs, Reply) {
    if !Granted(fs, uid, gid, name, false) then (fs, Fail(InsufficientPerms))
    else if link in fs.dir then (fs, Fail(FilenameTaken))
    else
      var node := Resolve(fs, name);
      (SetFile(fs, node, fs.files[node].(atime := now, ctime := now)).(dir := fs.dir[link := node]), Ok())
  }

  ghost function ServeSymlink(fs: Fs, uid: nat, gid: nat, mode: int, name: string, link: string, now: int)
    : (Fs, Reply)
  {
    if !Granted(fs, uid, gid, name, false) then (fs, Fail(InsufficientPerms))
    else if name !in fs.dir then (fs, Fail(FileNotFound))
    else if link in fs.dir then (fs, Fail(FilenameTaken))
    else
      var node, child := fs.dir[name], Above(fs.files.Keys);
      var parent := fs.files[node];
      var copy := Store([], 0, Front(parent.bytes, parent.size), fs.free);
      var x := Record(Symlink, uid, gid, mode, if copy.ok then parent.size else 0, now, now, now, copy.bytes);
      (Fs(fs.dir[link := child], fs.files[node := parent.(atime := now)][child := x], fs.handles, copy.free),
       if copy.ok then Ok() else Fail(Failure))
  }

  function ServeUnlink(fs: Fs, name: string, now: int): (Fs, Reply) {
    if name !in fs.dir || fs.dir[name] !in fs.files then (fs, Fail(FileNotFound))
    else
      var node, dir := fs.dir[name], fs.dir - {name};
      var x := fs.files[node];
      if HasName(dir, node) then
        (SetFile(fs, node, x.(atime := now, ctime := now)).(dir := dir), Ok())
      else
        (fs.(dir := dir, files := fs.files - {node}, free := fs.free + |x.bytes| / BLOCK_SIZE), Ok())
  }

  // ------------------------------------------------------------------ calls on handles

  ghost function ServeOpen(fs: Fs, uid: nat, gid: nat, name: string, flags: int, now: int): (Fs, Reply) {
    var node := Resolve(fs, name);
    if flags != READ_ONLY && flags != WRITE_ONLY then (fs, Fail(Failure))
    else if !Granted(fs, uid, gid, name, flags == WRITE_ONLY) then (fs, Fail(InsufficientPerms))
    else if HasWriter(fs, node) then (fs, Fail(DoubleWrite))
    else
      var fd := Above(fs.handles.Keys);
      (SetFile(fs, node, fs.files[node].(atime := now)).(handles := fs.handles[fd := Handle(flags, 0, node)]),
       Reply(Success, fd, []))
  }

  function ServeClose(fs: Fs, fd: nat): (Fs, Reply) {
    if fd in fs.handles then (fs.(handles := fs.handles - {fd}), Ok()) else (fs, Fail(Failure))
  }

  function Move(fs: Fs, fd: nat, h: Handle, off: nat): Fs {
    fs.(handles := fs.handles[fd := h.(off := off)])
  }

  function ServeSeek(fs: Fs, fd: nat, off: nat): (Fs, Reply) {
    if fd in fs.handles && fs.handles[fd].node in fs.files && off <= fs.files[fs.handles[fd].node].size then
      (Move(fs, fd, fs.handles[fd], off), Ok())
    else (fs, Fail(Failure))
  }

  function ServeWrite(fs: Fs, fd: nat, buf: Buffer, now: int): (Fs, Reply) {
    if fd in fs.handles && fs.handles[fd].mode == WRITE_ONLY && fs.handles[fd].node in fs.files then
      var h := fs.handles[fd];
      WriteThrough(fs, fd, h, fs.files[h.node].(atime := now, mtime := now), buf)
    else (fs, Fail(Failure))
  }

  /** A write through a handle on the file x, whose times have been set. */
  function WriteThrough(fs: Fs, fd: nat, h: Handle, x: Record, buf: Buffer): (Fs, Reply) {
    var end := (h.off + |buf|) % U32;
    if end > MAX_BYTES then (SetFile(fs, h.node, x), Fail(Failure))
    else if h.off + |buf| >= U32 then
      (Move(SetFile(fs, h.node, x.(size := end, bytes := StoreWrapped(x.bytes, h.off, buf, end))), fd, h, end), Ok())
    else
      var out := Store(x.bytes, h.off, buf, fs.free);
      if out.ok then
        (Move(SetFile(fs, h.node, x.(size := end, bytes := out.bytes)), fd, h, end).(free := out.free), Ok())
      else (SetFile(fs, h.node, x.(bytes := out.bytes)).(free := out.free), Fail(Failure))
  }

  function ServeRead(fs: Fs, fd: nat, n: nat, now: int): (Fs, Reply) {
    if fd in fs.handles && fs.handles[fd].node in fs.files then
      var h := fs.handles[fd];
      var x := fs.files[h.node];
      var fs1 := SetFile(fs, h.node, x.(atime := now));
      if h.off + n <= |x.bytes| then
        (Move(fs1, fd, h, h.off + n), Reply(Success, 0, x.bytes[h.off..h.off + n]))
      else if (h.off + n) % U32 <= MAX_BYTES then (Move(fs1, fd, h, |x.bytes|), Fail(Failure))
      else (fs1, Fail(Failure))
    else (fs, Fail(Failure))
  }

  // ------------------------------------------------------------------ all calls

  ghost function Serve(fs: Fs, op: Op, now: int): (Fs, Reply) {
    match op
    case OpCreate(uid, gid, mode, name) => ServeCreate(fs, uid, gid, mode, name, now)
    case OpChmod(uid, gid, mode, name) => ServeChmod(fs, uid, gid, mode, name, now)
    case OpStat(uid, gid, name) => ServeStat(fs, uid, gid, name, now)
    case OpRename(name, newName) => ServeRename(fs, name, newName)
    case OpLink(uid, gid, name, link) => ServeLink(fs, uid, gid, name, link, now)
    case OpSymlink(uid, gid, mode, name, link) => ServeSymlink(fs, uid, gid, mode, name, link, now)
    case OpOpen(uid, gid, name, flags) => ServeOpen(fs, uid, gid, name, flags, now)
    case OpClose(fd) => ServeClose(fs, fd)
    case OpWrite(fd, buf) => ServeWrite(fs, fd, buf, now)
    case OpRead(fd, n) => ServeRead(fs, fd, n, now)
    case OpSeek(fd, off) => ServeSeek(fs, fd, off)
    case OpUnlink(name) => ServeUnlink(fs, name, now)
  }
}
