/**
 Runs of the service: any sequence of operations, and what holds in every state of a run.
 */
module Runs {
  import opened Common
  import opened Blocks
  import opened Namespace
  import opened Invariant
  import opened Files
  import opened Permissions

  datatype Op =
    | OpCreate(uid: nat, gid: nat, mode: int, name: string)
    | OpChmod(uid: nat, gid: nat, mode: int, name: string)
    | OpStat(uid: nat, gid: nat, name: string)
    | OpRename(name: string, newName: string)
    | OpLink(uid: nat, gid: nat, name: string, link: string)
    | OpSymlink(uid: nat, gid: nat, mode: int, name: string, link: string)
    | OpOpen(uid: nat, gid: nat, name: string, flags: int)
    | OpClose(fd: nat)
    | OpWrite(fd: nat, buf: Buffer)
    | OpRead(fd: nat, n: nat)
    | OpSeek(fd: nat, off: nat)
    | OpUnlink(name: string)

  function Apply(s: State, op: Op, now: int): (State, Reply)
    requires Typed(s)
  {
    match op
    case OpCreate(uid, gid, mode, name) => Create(s, uid, gid, mode, name, now)
    case OpChmod(uid, gid, mode, name) => Chmod(s, uid, gid, mode, name, now)
    case OpStat(uid, gid, name) => Stat(s, uid, gid, name, now)
    case OpRename(name, newName) => Rename(s, name, newName)
    case OpLink(uid, gid, name, link) => Link(s, uid, gid, name, link, now)
    case OpSymlink(uid, gid, mode, name, link) => SoftLink(s, uid, gid, mode, name, link, now)
    case OpOpen(uid, gid, name, flags) => Open(s, uid, gid, name, flags, now)
    case OpClose(fd) => Close(s, fd)
    case OpWrite(fd, buf) => Write(s, fd, buf, now)
    case OpRead(fd, n) => Read(s, fd, n, now)
    case OpSeek(fd, off) => Seek(s, fd, off)
    case OpUnlink(name) => Unlink(s, name, now)
  }

  /** Everything but an unlink of the last name of an open file. */
  predicate Safe(s: State, op: Op) {
    op.OpUnlink? ==> !DropsOpenFile(s, op.name)
  }

  datatype Event = Event(op: Op, now: int)

  ghost predicate Step(s: State, e: Event, s': State) {
    Typed(s) && s' == Apply(s, e.op, e.now).0
  }

  /** states[i + 1] is the state after operation i. */
  ghost predicate IsRun(states: seq<State>, events: seq<Event>) {
    && |states| == |events| + 1
    && forall i :: 0 <= i < |events| ==> Step(states[i], events[i], states[i + 1])
  }

  ghost predicate AllSafe(states: seq<State>, events: seq<Event>)
    requires |states| == |events| + 1
  {
    forall i :: 0 <= i < |events| ==> Safe(states[i], events[i].op)
  }

  /** The removals of unlink leave the list heads right: the name is not the first one in its
      list and, if it is the last name of its inode, neither is the inode. The code never writes
      a new head back, so after any other unlink it goes on from a node that it has freed. */
  predicate KeepsHeads(s: State, op: Op) {
    op.OpUnlink? && Taken(s.names, op.name) ==>
      var p := FindInode(s.inodes, LookupOrZero(s.names, op.name));
      p < |s.inodes| ==> FindName(s.names, op.name) != 0 && (s.inodes[p].refCount == 1 ==> p != 0)
  }

  /** Some operation so far has lost a list head. */
  ghost predicate HeadLost(states: seq<State>, events: seq<Event>, i: nat)
    requires i <= |events| < |states|
  {
    exists j :: 0 <= j < i && !KeepsHeads(states[j], events[j].op)
  }

  /** The service before anything was stored. */
  ghost function Empty(): State {
    State([], [], [], Store(seq(NUM_BLOCKS, _ => Entry(false, 0)), seq(NUM_BLOCKS, _ => Pad([]))))
  }

  lemma EmptyInv()
    ensures Inv(Empty())
  {
  }

  // ------------------------------------------------------------------ array sizes

  lemma {:induction false} FreshInRange(st: Store, slots: seq<nat>, owner: nat, rest: seq<Byte>, i: nat, total: nat)
    requires Sized(st) && SlotsInRange(slots) && i <= total <= |slots|
    ensures SlotsInRange(FreshLoop(st, slots, owner, rest, i, total).slots)
    decreases total - i
  {
    if i == total {
    } else {
      var w := Min(|rest|, BLOCK_SIZE);
      match Occupy(st, owner, rest[..w])
      case None =>
      case Some((st', addr)) => FreshInRange(st', slots[i := addr], owner, rest[w..], i + 1, total);
    }
  }

  lemma WriteBlocksInRange(st: Store, slots: seq<nat>, owner: nat, off: nat, buf: Buffer)
    requires Sized(st) && SlotsInRange(slots) && NewOffset(off, |buf|) <= BLOCK_SIZE * MAX_SLOTS
    ensures SlotsInRange(WriteBlocks(st, slots, owner, off, buf).slots)
  {
    var cur, total := off / BLOCK_SIZE, CeilDiv(NewOffset(off, |buf|), BLOCK_SIZE);
    if cur < total && slots[cur] != 0 {
      var w, b := Min(|buf|, BLOCK_SIZE - off % BLOCK_SIZE), slots[cur] - 1;
      FreshInRange(st.(disk := st.disk[b := Patch(st.disk[b], off % BLOCK_SIZE, buf[..w])]), slots, owner, buf[w..],
                   cur + 1, total);
    } else {
      FreshInRange(st, slots, owner, buf, Min(cur, total), total);
    }
  }

  lemma WriteInodeTyped(s: State, p: nat, off: nat, buf: Buffer)
    requires Typed(s) && p < |s.inodes|
    ensures Typed(WriteInode(s, p, off, buf).0)
  {
    if NewOffset(off, |buf|) <= BLOCK_SIZE * MAX_SLOTS {
      WriteBlocksInRange(s.store, s.inodes[p].slots, s.inodes[p].index, off, buf);
    }
  }

  lemma WriteTyped(s: State, fd: nat, buf: Buffer, now: int)
    requires Typed(s)
    ensures Typed(Write(s, fd, buf, now).0)
  {
    var d := FindDesc(s.descs, fd);
    if d < |s.descs| {
      var p := FindInode(s.inodes, s.descs[d].node);
      if p < |s.inodes| {
        WriteInodeTyped(SetInode(s, p, s.inodes[p].(atime := now, mtime := now)), p, s.descs[d].off, buf);
      }
    }
  }

  lemma SoftLinkTyped(s: State, uid: nat, gid: nat, mode: int, name: string, link: string, now: int)
    requires Typed(s)
    ensures Typed(SoftLink(s, uid, gid, mode, name, link, now).0)
  {
    var p := FindInode(s.inodes, LookupOrZero(s.names, name));
    if p < |s.inodes| {
      var s1 := SymlinkEntry(s, uid, gid, mode, p, link, now);
      var r := ReadLoop(s.store, s.inodes[p].slots, 0, s.inodes[p].size);
      if |r.data| < U32 { WriteInodeTyped(s1, |s.inodes|, 0, r.data); }
    }
  }

  /** Every operation keeps the sizes of the arrays, in any state. */
  lemma StepTyped(s: State, op: Op, now: int)
    requires Typed(s)
    ensures Typed(Apply(s, op, now).0)
  {
    match op
    case OpWrite(fd, buf) => WriteTyped(s, fd, buf, now);
    case OpSymlink(uid, gid, mode, name, link) => SoftLinkTyped(s, uid, gid, mode, name, link, now);
    case _ =>
  }

  // ------------------------------------------------------------------ the invariant over runs

  /** One operation keeps the invariant exactly when it is safe. */
  lemma StepInv(s: State, op: Op, now: int)
    requires Inv(s)
    ensures Inv(Apply(s, op, now).0) <==> Safe(s, op)
  {
    match op
    case OpCreate(uid, gid, mode, name) => CreateInv(s, uid, gid, mode, name, now);
    case OpChmod(uid, gid, mode, name) => ChmodInv(s, uid, gid, mode, name, now);
    case OpStat(uid, gid, name) => StatInv(s, uid, gid, name, now);
    case OpRename(name, newName) => RenameInv(s, name, newName);
    case OpLink(uid, gid, name, link) => LinkInv(s, uid, gid, name, link, now);
    case OpSymlink(uid, gid, mode, name, link) => SoftLinkInv(s, uid, gid, mode, name, link, now);
    case OpOpen(uid, gid, name, flags) => OpenInv(s, uid, gid, name, flags, now);
    case OpClose(fd) => CloseInv(s, fd);
    case OpWrite(fd, buf) => WriteInv(s, fd, buf, now);
    case OpRead(fd, n) => ReadInv(s, fd, n, now);
    case OpSeek(fd, off) => SeekInv(s, fd, off);
    case OpUnlink(name) => UnlinkInv(s, name, now);
  }

  /** Every state of a run that starts well and makes only safe steps is well. */
  lemma {:induction false} RunInv(states: seq<State>, events: seq<Event>, i: nat)
    requires IsRun(states, events) && i < |states|
    requires Inv(states[0]) && AllSafe(states, events)
    ensures Inv(states[i])
  {
    if i == 0 {
    } else {
      RunInv(states, events, i - 1);
      assert Step(states[i - 1], events[i - 1], states[i]);
      StepInv(states[i - 1], events[i - 1].op, events[i - 1].now);
    }
  }

  // ------------------------------------------------------------------ where the code departs

  /** The file with this index exists, and its mode allows this use to the caller. */
  predicate MayUse(s: State, uid: nat, gid: nat, node: nat, write: bool) {
    var p := FindInode(s.inodes, node);
    && p < |s.inodes|
    && var n := s.inodes[p];
    Allows(uid, gid, n.owner, n.group, n.mode, write)
  }

  /** An open never reports a missing name: a missing name stands for the file with index 0. It is
      refused, in this order, for unknown flags, when that file does not exist or its mode does not
      allow it, and when somebody has it open for writing; otherwise the new descriptor is on that
      file, at offset 0. */
  lemma OpenTarget(s: State, uid: nat, gid: nat, name: string, flags: int, now: int)
    requires Inv(s)
    ensures var (s', reply) := Open(s, uid, gid, name, flags, now);
            var node := if Taken(s.names, name) then s.names[FindName(s.names, name)].node else 0;
            && reply.status == (if flags != READ_ONLY && flags != WRITE_ONLY then Failure
                                else if !MayUse(s, uid, gid, node, flags == WRITE_ONLY) then InsufficientPerms
                                else if OpenedForWrite(s.descs, node) then DoubleWrite
                                else Success)
            && (reply.status == Success ==>
                 && Live(s.inodes, node)
                 && s'.descs == s.descs + [Desc(reply.value, flags, 0, node)] && reply.value == NextFd(s.descs))
            && (reply.status != Success ==> s' == s)
  {
    AccessIs(s, uid, gid, name);
    if flags == READ_ONLY || flags == WRITE_ONLY { OpenInodeTarget(s, name, flags, now); }
  }

  lemma AccessIs(s: State, uid: nat, gid: nat, name: string)
    ensures var node := LookupOrZero(s.names, name);
            && ReadAccess(s, uid, gid, name)
               == (if MayUse(s, uid, gid, node, false) then Success else InsufficientPerms)
            && WriteAccess(s, uid, gid, name)
               == (if MayUse(s, uid, gid, node, true) then Success else InsufficientPerms)
  {
    var p := FindInode(s.inodes, LookupOrZero(s.names, name));
    if p < |s.inodes| {
      RangesAreBits(uid, gid, s.inodes[p].owner, s.inodes[p].group, s.inodes[p].mode);
    }
  }

  lemma OpenInodeTarget(s: State, name: string, flags: nat, now: int)
    ensures var (s', reply) := OpenInode(s, name, flags, now);
            var node := LookupOrZero(s.names, name);
            && reply.status == (if OpenedForWrite(s.descs, node) then DoubleWrite
                                else if Live(s.inodes, node) then Success else Failure)
            && (reply.status == Success ==>
                 s'.descs == s.descs + [Desc(reply.value, flags, 0, node)] && reply.value == NextFd(s.descs))
            && (reply.status != Success ==> s' == s)
  {
    var p := FindInode(s.inodes, LookupOrZero(s.names, name));
    if p < |s.inodes| { assert s.inodes[p].index == LookupOrZero(s.names, name); }
  }

  /** A stat never reports a missing name either: it succeeds exactly when the mode of the file that
      the name stands for allows the caller to read, and returns the record of that file. */
  lemma StatTarget(s: State, uid: nat, gid: nat, name: string, now: int)
    requires Inv(s)
    ensures var (s', reply) := Stat(s, uid, gid, name, now);
            var node := if Taken(s.names, name) then s.names[FindName(s.names, name)].node else 0;
            && reply.status == (if MayUse(s, uid, gid, node, false) then Success else InsufficientPerms)
            && (reply.status != Success ==> s' == s)
            && (reply.status == Success ==>
                 && File(s, node).Some?
                 && var n := s.inodes[FindInode(s.inodes, node)];
                 && reply.stat == Some(StatRecord(|File(s, node).value|, n.atime, n.mtime, n.ctime))
                 && n.index == node)
  {
    var node := LookupOrZero(s.names, name);
    AccessIs(s, uid, gid, name);
    if MayUse(s, uid, gid, node, false) { StatOf(s, name, now, node); }
  }

  lemma StatOf(s: State, name: string, now: int, node: nat)
    requires Inv(s) && node == LookupOrZero(s.names, name) && FindInode(s.inodes, node) < |s.inodes|
    ensures var n := s.inodes[FindInode(s.inodes, node)];
            && n.index == node && File(s, node).Some?
            && StatInode(s, name, now).1
               == Reply(Success, 0, [], Some(StatRecord(|File(s, node).value|, n.atime, n.mtime, n.ctime)))
  {
    assert InodeOk(s.inodes[FindInode(s.inodes, node)], s.store);
  }


  /** One file, "a" with index 0, nothing written. */
  ghost function OneFile(): State {
    Empty().(inodes := [Inode(0, Regular, 0, 0, 1, 511, 0, 0, 0, 0, NoSlots())], names := [Name(0, "a")])
  }

  lemma OneFileIs()
    ensures OneFile() == Create(Empty(), 0, 0, 511, "a", 0).0 && Inv(OneFile())
  {
    EmptyInv();
    CreateInv(Empty(), 0, 0, 511, "a", 0);
    assert Create(Empty(), 0, 0, 511, "a", 0).0 == OneFile();
  }

  /** The name "b" is missing, and stands for the file "a". */
  lemma MissingB()
    ensures !Taken(OneFile().names, "b") && LookupOrZero(OneFile().names, "b") == 0
    ensures FindInode(OneFile().inodes, 0) == 0 && ReadAccess(OneFile(), 0, 0, "b") == Success
  {
    var s := OneFile();
    assert "a"[0] != "b"[0];
    assert s.names[0].name == "a" && FindName(s.names, "b") == 1;
  }

  /** A concrete departure: opening the missing name "b" succeeds, on the file "a". */
  lemma MissingNameOpens()
    ensures Inv(OneFile()) && !Taken(OneFile().names, "b")
    ensures Open(OneFile(), 0, 0, "b", READ_ONLY, 0)
         == (OneFile().(descs := [Desc(0, READ_ONLY, 0, 0)]), Reply(Success, 0, []))
  {
    OneFileIs();
    MissingB();
    OpensAlone(OneFile(), "b");
  }

  lemma OpensAlone(s: State, name: string)
    requires s.descs == [] && LookupOrZero(s.names, name) == 0 && FindInode(s.inodes, 0) == 0 < |s.inodes|
    requires s.inodes[0].atime == 0 && ReadAccess(s, 0, 0, name) == Success
    ensures Open(s, 0, 0, name, READ_ONLY, 0) == (s.(descs := [Desc(0, READ_ONLY, 0, 0)]), Reply(Success, 0, []))
  {
    assert s.inodes[0] == s.inodes[0].(atime := 0);
    assert s.inodes[0 := s.inodes[0].(atime := 0)] == s.inodes;
    assert s.descs + [Desc(0, READ_ONLY, 0, 0)] == [Desc(0, READ_ONLY, 0, 0)];
    assert !OpenedForWrite(s.descs, 0);
  }

  /** The same for stat: the missing name "b" has the record of the file "a". */
  lemma MissingNameStats()
    ensures Inv(OneFile()) && !Taken(OneFile().names, "b")
    ensures Stat(OneFile(), 0, 0, "b", 7).1 == Reply(Success, 0, [], Some(StatRecord(0, 0, 0, 0)))
  {
    OneFileIs();
    MissingB();
  }

  /** A file "k" that is kept, empty, so that no removal is at a list head. */
  ghost function Alone(st: Store): State {
    State([Inode(0, Regular, 0, 0, 1, 511, 0, 0, 0, 0, NoSlots())], [Name(0, "k")], [], st)
  }

  /** Beside it a second file, with index 1, and these descriptors. */
  ghost function Holding(name: string, slots: seq<nat>, size: nat, descs: seq<Desc>, st: Store): State {
    State(Alone(st).inodes + [Inode(1, Regular, 0, 0, 1, 511, size, 0, 0, 0, slots)],
          Alone(st).names + [Name(1, name)], descs, st)
  }

  lemma HoldingFinds(name: string, slots: seq<nat>, size: nat, descs: seq<Desc>, st: Store)
    requires name != "k"
    ensures var s := Holding(name, slots, size, descs, st);
            FindName(s.names, name) == 1 && LookupOrZero(s.names, name) == 1 && FindInode(s.inodes, 1) == 1
  {
    var s := Holding(name, slots, size, descs, st);
    assert s.names[0].name == "k" && s.names[1].name == name;
  }

  lemma CreateKept(st: Store)
    ensures Create(State([], [], [], st), 0, 0, 511, "k", 0).0 == Alone(st)
  {
  }

  lemma CreateSecond(st: Store, name: string)
    requires name != "k"
    ensures Create(Alone(st), 0, 0, 511, name, 0).0 == Holding(name, NoSlots(), 0, [], st)
  {
    assert Alone(st).names[0].name != name;
    assert FindName(Alone(st).names, name) == 1;
  }

  lemma OpenSecond(st: Store, name: string, mode: nat)
    requires name != "k" && (mode == READ_ONLY || mode == WRITE_ONLY)
    ensures Open(Holding(name, NoSlots(), 0, [], st), 0, 0, name, mode, 0).0
         == Holding(name, NoSlots(), 0, [Desc(0, mode, 0, 1)], st)
  {
    var s := Holding(name, NoSlots(), 0, [], st);
    HoldingFinds(name, NoSlots(), 0, [], st);
    assert ReadAccess(s, 0, 0, name) == Success && WriteAccess(s, 0, 0, name) == Success;
    assert !OpenedForWrite(s.descs, 1);
    assert s.descs + [Desc(0, mode, 0, 1)] == [Desc(0, mode, 0, 1)];
    assert s.inodes[1 := s.inodes[1].(atime := 0)] == s.inodes;
  }

  /** The second file just opened for reading, reached by three calls from the empty service. */
  ghost function SecondOpen(): State {
    Holding("a", NoSlots(), 0, [Desc(0, READ_ONLY, 0, 1)], Empty().store)
  }

  lemma SecondOpenInv()
    ensures Inv(SecondOpen())
  {
    var st := Empty().store;
    assert "a"[0] != "k"[0];
    EmptyInv();
    CreateInv(Empty(), 0, 0, 511, "k", 0);
    CreateKept(st);
    CreateInv(Alone(st), 0, 0, 511, "a", 0);
    CreateSecond(st, "a");
    OpenInv(Holding("a", NoSlots(), 0, [], st), 0, 0, "a", READ_ONLY, 0);
    OpenSecond(st, "a", READ_ONLY);
  }

  /** A concrete unsafe step: unlinking "a" while it is open breaks the invariant, and the next
      file created takes over the index, so the old descriptor now refers to that file. No list
      head is involved. */
  lemma UnsafeUnlink()
    ensures var s := SecondOpen();
            && Inv(s) && Typed(s) && DropsOpenFile(s, "a") && KeepsHeads(s, OpUnlink("a"))
            && !Inv(Unlink(s, "a", 0).0)
            && Create(Unlink(s, "a", 0).0, 0, 0, 511, "c", 0).0.names == [Name(0, "k"), Name(s.descs[0].node, "c")]
  {
    var s, st := SecondOpen(), Empty().store;
    SecondOpenInv();
    assert "a"[0] != "k"[0];
    HoldingFinds("a", NoSlots(), 0, s.descs, st);
    assert s.descs[0].node == s.inodes[1].index;
    UnlinkInv(s, "a", 0);
    UnlinkUnfold(s, "a", 0, 1, 1);
    RemoveSecond("a", NoSlots(), 0, s.descs, st);
    CreateAfter(Unlink(s, "a", 0).0, st);
  }

  lemma CreateAfter(t: State, st: Store)
    requires t.names == Alone(st).names && t.inodes == Alone(st).inodes
    ensures Create(t, 0, 0, 511, "c", 0).0.names == [Name(0, "k"), Name(1, "c")]
  {
    assert "c"[0] != "k"[0] && t.names[0].name == "k";
    assert FindName(t.names, "c") == 1;
  }

  lemma RemoveSecond(name: string, slots: seq<nat>, size: nat, descs: seq<Desc>, st: Store)
    ensures var s := Holding(name, slots, size, descs, st);
            RemoveAt(s.names, 1) == Alone(st).names && RemoveAt(s.inodes, 1) == Alone(st).inodes
  {
  }

  /** Losing the heads is a failure of its own: creating a file and unlinking it is safe, and no
      block is involved, but it removes the first name and the first inode. */
  lemma FirstUnlinkLosesHeads()
    ensures Inv(OneFile()) && Safe(OneFile(), OpUnlink("a")) && !KeepsHeads(OneFile(), OpUnlink("a"))
    ensures OneFile().inodes[0].slots[0] == 0
  {
    OneFileIs();
    assert FindName(OneFile().names, "a") == 0;
  }

  // ------------------------------------------------------------------ what the invariant says

  /** No disk block is mapped twice, within one inode or across inodes, and each mapped block
      is allocated and tagged with its inode. */
  lemma BlocksAreOwnedOnce(s: State, p: nat, i: nat, q: nat, j: nat)
    requires Inv(s) && p < |s.inodes| && q < |s.inodes| && i < MAX_SLOTS && j < MAX_SLOTS
    ensures |s.inodes[p].slots| == |s.inodes[q].slots| == MAX_SLOTS
    ensures s.inodes[p].slots[i] != 0 && s.inodes[p].slots[i] == s.inodes[q].slots[j] ==> p == q && i == j
    ensures s.inodes[p].slots[i] != 0 ==>
              && 0 < s.inodes[p].slots[i] <= |s.store.table|
              && s.store.table[s.inodes[p].slots[i] - 1] == Entry(true, s.inodes[p].index)
  {
    assert InodeOk(s.inodes[p], s.store) && InodeOk(s.inodes[q], s.store);
  }

  /** The write descriptors on one inode: at most one, and no younger descriptor beside it. */
  lemma OneWriter(s: State, i: nat, j: nat)
    requires Inv(s) && i < |s.descs| && j < |s.descs| && s.descs[i].node == s.descs[j].node
    requires s.descs[i].mode == WRITE_ONLY
    ensures j <= i
    ensures s.descs[j].mode == WRITE_ONLY ==> i == j
    ensures forall name, flags, uid, gid, now :: LookupOrZero(s.names, name) == s.descs[i].node ==>
              Open(s, uid, gid, name, flags, now).1.status != Success
  {
  }

  // ------------------------------------------------------------------ stability of contents

  /** The operations that may change the contents of the file with this inode index: a write
      through a write descriptor on it, and an unlink of its last name. */
  predicate Touches(s: State, op: Op, index: nat) {
    match op
    case OpWrite(fd, _) =>
      var d := FindDesc(s.descs, fd);
      d < |s.descs| && s.descs[d].mode != READ_ONLY && s.descs[d].node == index
    case OpUnlink(name) =>
      var e := FindName(s.names, name);
      && e < |s.names| && s.names[e].node == index
      && var p := FindInode(s.inodes, index);
      p < |s.inodes| && s.inodes[p].refCount == 1
    case _ => false
  }

  /** s' holds the same file contents as s at every live index of s, except perhaps `but`. */
  ghost predicate KeepsFiles(s: State, s': State, but: Option<nat>) {
    forall x: nat :: File(s, x).Some? && but != Some(x) ==> File(s', x) == File(s, x)
  }

  /** Enough for KeepsFiles: every inode of s is still there, in order, with its contents. */
  lemma SameFiles(s: State, s': State)
    requires |s.inodes| <= |s'.inodes|
    requires forall i :: 0 <= i < |s.inodes| ==>
               && s'.inodes[i].index == s.inodes[i].index
               && Content(s'.store, s'.inodes[i]) == Content(s.store, s.inodes[i])
    ensures KeepsFiles(s, s', None)
  {
  }

  lemma SameFilesBut(s: State, s': State, p: nat)
    requires |s.inodes| == |s'.inodes| && p < |s.inodes|
    requires forall i :: 0 <= i < |s.inodes| ==> s'.inodes[i].index == s.inodes[i].index
    requires forall i :: 0 <= i < |s.inodes| && i != p ==>
               Content(s'.store, s'.inodes[i]) == Content(s.store, s.inodes[i])
    ensures KeepsFiles(s, s', Some(s.inodes[p].index))
  {
  }

  lemma WriteKeepsFiles(s: State, fd: nat, buf: Buffer, now: int)
    requires Inv(s) && FindDesc(s.descs, fd) < |s.descs|
    ensures KeepsFiles(s, Write(s, fd, buf, now).0, Some(s.descs[FindDesc(s.descs, fd)].node))
  {
    var d := FindDesc(s.descs, fd);
    TargetLive(s, d);
    if s.descs[d].mode != READ_ONLY {
      WriteIsAt(s, fd, buf, now, d);
      WriteAtKeepsFiles(s, d, Target(s, d), buf, now);
    }
  }

  lemma WriteAtKeepsFiles(s: State, d: nat, p: nat, buf: Buffer, now: int)
    requires Inv(s) && d < |s.descs| && p < |s.inodes| && s.inodes[p].index == s.descs[d].node
    ensures Typed(s) && KeepsFiles(s, WriteAt(s, d, p, buf, now).0, Some(s.descs[d].node))
  {
    var x := s.inodes[p].(atime := now, mtime := now);
    assert InodeOk(s.inodes[p], s.store);
    assert DescOk(s.descs[d], s.inodes);
    TouchInode(s, p, x);
    WriteInodeFrame(SetInode(s, p, x), p, s.descs[d].off, buf);
    SameFilesBut(s, WriteAt(s, d, p, buf, now).0, p);
  }

  lemma DropKeepsFiles(s: State, e: nat, p: nat)
    requires Inv(s) && e < |s.names| && p < |s.inodes|
    ensures KeepsFiles(s, DropFile(s, e, p), Some(s.inodes[p].index))
  {
    DropFileFrees(s, e, p);
    RemovedKeepsFiles(s, DropFile(s, e, p), p);
  }

  lemma RemovedKeepsFiles(s: State, s': State, p: nat)
    requires p < |s.inodes| && s'.inodes == RemoveAt(s.inodes, p)
    requires forall i :: 0 <= i < |s.inodes| && i != p ==>
               Content(s'.store, s.inodes[i]) == Content(s.store, s.inodes[i])
    ensures KeepsFiles(s, s', Some(s.inodes[p].index))
  {
    forall x: nat | File(s, x).Some? && x != s.inodes[p].index ensures File(s', x) == File(s, x) {
      FindAfterRemove(s.inodes, p, x);
    }
  }

  lemma FindAfterRemove(inodes: seq<Inode>, p: nat, x: nat)
    requires p < |inodes| && x != inodes[p].index && FindInode(inodes, x) < |inodes|
    ensures var i := FindInode(inodes, x);
            var k := if i < p then i else i - 1;
            FindInode(RemoveAt(inodes, p), x) == k && RemoveAt(inodes, p)[k] == inodes[i]
  {
    RemovedAt(inodes, p);
    var i := FindInode(inodes, x);
    var k := if i < p then i else i - 1;
    assert RemoveAt(inodes, p)[k] == inodes[i];
    assert forall j :: 0 <= j < k ==> RemoveAt(inodes, p)[j].index != x;
  }

  lemma UnlinkKeepsFiles(s: State, name: string, now: int, index: nat)
    requires Inv(s) && FindName(s.names, name) < |s.names|
    requires File(s, index).Some? && !Touches(s, OpUnlink(name), index)
    ensures File(Unlink(s, name, now).0, index) == File(s, index)
  {
    var e := FindName(s.names, name);
    var p := FindInode(s.inodes, s.names[e].node);
    assert Live(s.inodes, s.names[e].node);
    UnlinkUnfold(s, name, now, e, p);
    DropOrLinkKeepsFile(s, e, p, now, index);
  }

  lemma DropOrLinkKeepsFile(s: State, e: nat, p: nat, now: int, index: nat)
    requires Inv(s) && e < |s.names| && p < |s.inodes| && s.names[e].node == s.inodes[p].index
    requires s.inodes[p].refCount >= 1 && File(s, index).Some?
    requires !(s.inodes[p].refCount == 1 && s.inodes[p].index == index)
    ensures var n := s.inodes[p];
            var s' := if n.refCount == 1 then DropFile(s, e, p)
                      else DropLink(s, e, p, n.(refCount := n.refCount - 1, atime := now, ctime := now));
            File(s', index) == File(s, index)
  {
    if s.inodes[p].refCount == 1 {
      DropKeepsFiles(s, e, p);
    } else {
      DropLinkKeepsFiles(s, e, p, s.inodes[p].(refCount := s.inodes[p].refCount - 1, atime := now, ctime := now));
    }
  }

  /** The same when the name is missing. */
  lemma UnlinkKeepsFile(s: State, name: string, now: int, index: nat)
    requires Inv(s) && File(s, index).Some? && !Touches(s, OpUnlink(name), index)
    ensures File(Unlink(s, name, now).0, index) == File(s, index)
  {
    if FindName(s.names, name) < |s.names| { UnlinkKeepsFiles(s, name, now, index); }
  }

  lemma DropLinkKeepsFiles(s: State, e: nat, p: nat, x: Inode)
    requires e < |s.names| && p < |s.inodes|
    requires x.index == s.inodes[p].index && x.slots == s.inodes[p].slots && x.size == s.inodes[p].size
    ensures KeepsFiles(s, DropLink(s, e, p, x), None)
  {
    SameFiles(s, DropLink(s, e, p, x));
  }

  lemma SoftLinkKeepsFiles(s: State, uid: nat, gid: nat, mode: int, name: string, link: string, now: int)
    requires Inv(s)
    ensures KeepsFiles(s, SoftLink(s, uid, gid, mode, name, link, now).0, None)
  {
    var s' := CreateSoftLink(s, uid, gid, mode, name, link, now).0;
    assert SoftLink(s, uid, gid, mode, name, link, now).0 == s || SoftLink(s, uid, gid, mode, name, link, now).0 == s';
    if Taken(s.names, name) && !Taken(s.names, link) {
      SoftLinkIsSnapshot(s, uid, gid, mode, name, link, now);
      SnapshotKeepsFiles(s, FindInode(s.inodes, LookupOrZero(s.names, name)), link, s',
                         CreateSoftLink(s, uid, gid, mode, name, link, now).1.status == Success);
    }
  }

  lemma SnapshotKeepsFiles(s: State, p: nat, link: string, s': State, ok: bool)
    requires p < |s.inodes| && SoftLinkSpec(s, p, link, s', ok)
    ensures KeepsFiles(s, s', None)
  {
    SameFiles(s, s');
  }

  /** The operations that leave the store and everyone's slots and size alone. */
  ghost predicate SameInodes(s: State, s': State) {
    && s'.store == s.store && |s.inodes| <= |s'.inodes|
    && forall i :: 0 <= i < |s.inodes| ==>
         && s'.inodes[i].index == s.inodes[i].index
         && s'.inodes[i].slots == s.inodes[i].slots && s'.inodes[i].size == s.inodes[i].size
  }

  lemma QuietNameStep(s: State, op: Op, now: int)
    requires Typed(s) && (op.OpCreate? || op.OpChmod? || op.OpStat? || op.OpRename? || op.OpLink?)
    ensures SameInodes(s, Apply(s, op, now).0)
  {
  }

  lemma QuietFdStep(s: State, op: Op, now: int)
    requires Typed(s) && (op.OpOpen? || op.OpClose? || op.OpRead? || op.OpSeek?)
    ensures SameInodes(s, Apply(s, op, now).0)
  {
  }

  lemma QuietStep(s: State, op: Op, now: int)
    requires Typed(s) && !op.OpWrite? && !op.OpUnlink? && !op.OpSymlink?
    ensures SameInodes(s, Apply(s, op, now).0)
  {
    if op.OpOpen? || op.OpClose? || op.OpRead?
        || op.OpSeek? { QuietFdStep(s, op, now); } else { QuietNameStep(s, op, now); }
  }

  lemma SameInodesFiles(s: State, s': State)
    requires SameInodes(s, s')
    ensures KeepsFiles(s, s', None)
  {
    SameFiles(s, s');
  }

  /** No operation changes the contents of a file it does not touch. */
  lemma StepKeepsFile(s: State, op: Op, now: int, index: nat)
    requires Inv(s) && File(s, index).Some? && !Touches(s, op, index)
    ensures File(Apply(s, op, now).0, index) == File(s, index)
  {
    match op
    case OpWrite(fd, buf) => WriteKeepsFile(s, fd, buf, now, index);
    case OpUnlink(name) => UnlinkKeepsFile(s, name, now, index);
    case OpSymlink(uid, gid, mode, name, link) => SoftLinkKeepsFile(s, uid, gid, mode, name, link, now, index);
    case _ => QuietKeepsFile(s, op, now, index);
  }

  lemma WriteKeepsFile(s: State, fd: nat, buf: Buffer, now: int, index: nat)
    requires Inv(s) && File(s, index).Some? && !Touches(s, OpWrite(fd, buf), index)
    ensures File(Write(s, fd, buf, now).0, index) == File(s, index)
  {
    var d := FindDesc(s.descs, fd);
    if d < |s.descs| && s.descs[d].mode != READ_ONLY { WriteKeepsFiles(s, fd, buf, now); }
  }

  lemma SoftLinkKeepsFile(s: State, uid: nat, gid: nat, mode: int, name: string, link: string, now: int, index: nat)
    requires Inv(s) && File(s, index).Some?
    ensures File(SoftLink(s, uid, gid, mode, name, link, now).0, index) == File(s, index)
  {
    SoftLinkKeepsFiles(s, uid, gid, mode, name, link, now);
  }

  lemma QuietKeepsFile(s: State, op: Op, now: int, index: nat)
    requires Typed(s) && !op.OpWrite? && !op.OpUnlink? && !op.OpSymlink? && File(s, index).Some?
    ensures File(Apply(s, op, now).0, index) == File(s, index)
  {
    QuietStep(s, op, now);
    SameInodesFiles(s, Apply(s, op, now).0);
  }

  lemma KeptByStep(s: State, e: Event, s': State, index: nat)
    requires Inv(s) && Step(s, e, s') && File(s, index).Some? && !Touches(s, e.op, index)
    ensures File(s', index) == File(s, index)
  {
    StepKeepsFile(s, e.op, e.now, index);
  }

  ghost predicate Untouched(states: seq<State>, events: seq<Event>, index: nat)
    requires IsRun(states, events)
  {
    forall j :: 0 <= j < |events| ==> !Touches(states[j], events[j].op, index)
  }

  /** A file that no operation of a safe run touches has the same contents in every state of
      the run: in particular a soft link and its parent never influence each other again. */
  lemma {:induction false} RunKeepsFile(states: seq<State>, events: seq<Event>, i: nat, index: nat)
    requires IsRun(states, events) && i < |states|
    requires Inv(states[0]) && AllSafe(states, events) && Untouched(states, events, index)
    requires File(states[0], index).Some?
    ensures File(states[i], index) == File(states[0], index)
  {
    if i == 0 {
    } else {
      RunKeepsFile(states, events, i - 1, index);
      RunInv(states, events, i - 1);
      assert Step(states[i - 1], events[i - 1], states[i]);
      KeptByStep(states[i - 1], events[i - 1], states[i], index);
    }
  }
}
