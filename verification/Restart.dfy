/**
 Runs of the service that go on over restarts: when the service ends, its tables are saved, and
 when it starts they are loaded. What can be saved without loss stays so under all operations
 whose arguments can, so a restart never loses anything but the open descriptors.
 */
module Restart {
  import opened Common
  import opened Text
  import opened Blocks
  import opened Namespace
  import opened Invariant
  import opened Files
  import opened Runs
  import opened Persist

  // ------------------------------------------------------------------ states that can be saved

  predicate Int31(x: int) {
    -I31 <= x < I31
  }

  /** The name fits its array and one line of text. */
  predicate PlainName(name: string) {
    0 < |name| < 256 && forall i :: 0 <= i < |name| ==> name[i] != '\n'
  }

  predicate ModestInode(n: Inode) {
    n.index < U32 && n.owner < U32 && n.group < U32 && Int31(n.mode) && Int31(n.atime) && Int31(n.mtime)
        && Int31(n.ctime)
  }

  ghost predicate Modest(s: State) {
    && (forall i :: 0 <= i < |s.inodes| ==> ModestInode(s.inodes[i]))
    && (forall e :: 0 <= e < |s.names| ==> PlainName(s.names[e].name))
    && TableOk(s.store.table)
    && |s.names| < U32
  }

  lemma {:induction false} CountBound(names: seq<Name>, node: nat)
    ensures CountNames(names, node) <= |names|
  {
    if |names| == 0 {
    } else {
      CountBound(names[..|names| - 1], node);
    }
  }

  lemma ModestIsStorable(s: State)
    requires Inv(s) && Modest(s)
    ensures Storable(s)
  {
    forall i | 0 <= i < |s.inodes| ensures Typeable(s.inodes[i]) && IntFields(s.inodes[i]) {
      assert InodeOk(s.inodes[i], s.store) && ModestInode(s.inodes[i]);
      CountBound(s.names, s.inodes[i].index);
    }
    forall e | 0 <= e < |s.names| ensures Nameable(s.names[e]) && s.names[e].name != "" {
      assert PlainName(s.names[e].name) && Live(s.inodes, s.names[e].node);
      var i :| 0 <= i < |s.inodes| && s.inodes[i].index == s.names[e].node;
      assert ModestInode(s.inodes[i]);
    }
  }

  // ------------------------------------------------------------------ operations keep it so

  /** Arguments and time fit, and so does one more inode and one more name. */
  predicate ModestOp(s: State, op: Op, now: int) {
    && Int31(now) && NextIndex(s.inodes) < U32 && |s.names| + 1 < U32
    && match op
       case OpCreate(uid, gid, mode, name) => uid < U32 && gid < U32 && Int31(mode) && PlainName(name)
       case OpChmod(_, _, mode, _) => mode % U32 < I31
       case OpRename(_, newName) => PlainName(newName)
       case OpLink(_, _, _, link) => PlainName(link)
       case OpSymlink(uid, gid, mode, _, link) => uid < U32 && gid < U32 && Int31(mode) && PlainName(link)
       case _ => true
  }

  lemma {:induction false} FreshOwners(st: Store, slots: seq<nat>, owner: nat, rest: seq<Byte>, i: nat, total: nat)
    requires Sized(st) && TableOk(st.table) && owner < U32 && i <= total <= |slots|
    ensures TableOk(FreshLoop(st, slots, owner, rest, i, total).st.table)
    decreases total - i
  {
    if i == total {
    } else {
      var w := Min(|rest|, BLOCK_SIZE);
      match Occupy(st, owner, rest[..w])
      case None =>
      case Some((st', addr)) => FreshOwners(st', slots[i := addr], owner, rest[w..], i + 1, total);
    }
  }

  lemma WriteOwners(st: Store, slots: seq<nat>, owner: nat, off: nat, buf: Buffer)
    requires Sized(st) && TableOk(st.table) && owner < U32
    requires SlotsInRange(slots) && NewOffset(off, |buf|) <= BLOCK_SIZE * MAX_SLOTS
    ensures TableOk(WriteBlocks(st, slots, owner, off, buf).st.table)
  {
    var cur, total := off / BLOCK_SIZE, CeilDiv(NewOffset(off, |buf|), BLOCK_SIZE);
    if cur < total && slots[cur] != 0 {
      var w, b := Min(|buf|, BLOCK_SIZE - off % BLOCK_SIZE), slots[cur] - 1;
      FreshOwners(st.(disk := st.disk[b := Patch(st.disk[b], off % BLOCK_SIZE, buf[..w])]), slots, owner, buf[w..],
                  cur + 1, total);
    } else {
      FreshOwners(st, slots, owner, buf, Min(cur, total), total);
    }
  }

  lemma WriteInodeModest(s: State, p: nat, off: nat, buf: Buffer)
    requires Typed(s) && Modest(s) && p < |s.inodes|
    ensures Modest(WriteInode(s, p, off, buf).0)
  {
    assert ModestInode(s.inodes[p]);
    if NewOffset(off, |buf|) <= BLOCK_SIZE * MAX_SLOTS {
      WriteOwners(s.store, s.inodes[p].slots, s.inodes[p].index, off, buf);
    }
  }

  lemma SetInodeModest(s: State, p: nat, x: Inode)
    requires Modest(s) && p < |s.inodes| && ModestInode(x)
    ensures Modest(SetInode(s, p, x))
  {
  }

  lemma WriteModest(s: State, fd: nat, buf: Buffer, now: int)
    requires Typed(s) && Modest(s) && Int31(now)
    ensures Modest(Write(s, fd, buf, now).0)
  {
    var d := FindDesc(s.descs, fd);
    if d < |s.descs| {
      var p := FindInode(s.inodes, s.descs[d].node);
      if p < |s.inodes| {
        var x := s.inodes[p].(atime := now, mtime := now);
        assert ModestInode(s.inodes[p]);
        SetInodeModest(s, p, x);
        WriteInodeModest(SetInode(s, p, x), p, s.descs[d].off, buf);
      }
    }
  }

  lemma AddFileModest(s: State, x: Inode, name: string)
    requires Modest(s) && ModestInode(x) && PlainName(name) && |s.names| + 1 < U32
    ensures Modest(AddFile(s, x, name))
  {
  }

  lemma SoftLinkModest(s: State, uid: nat, gid: nat, mode: int, name: string, link: string, now: int)
    requires Typed(s) && Modest(s) && ModestOp(s, OpSymlink(uid, gid, mode, name, link), now)
    ensures Modest(SoftLink(s, uid, gid, mode, name, link, now).0)
  {
    var p := FindInode(s.inodes, LookupOrZero(s.names, name));
    if p < |s.inodes| {
      var x := s.inodes[p].(atime := now);
      var child := NewInode(s.inodes, Symlink, uid, gid, 0, mode, now);
      var s1 := SymlinkEntry(s, uid, gid, mode, p, link, now);
      assert ModestInode(s.inodes[p]);
      SetInodeModest(s, p, x);
      AddFileModest(SetInode(s, p, x), child.(refCount := child.refCount + 1), link);
      SoftLinkCopyIs(s1, s.inodes[p].slots, s.inodes[p].size);
      var data := ReadLoop(s1.store, s.inodes[p].slots, 0, s.inodes[p].size).data;
      if |data| < U32 { WriteInodeModest(s1, |s.inodes|, 0, data); }
      SoftLinkIs(s, uid, gid, mode, name, link, now, p);
    }
  }

  lemma SoftLinkIs(s: State, uid: nat, gid: nat, mode: int, name: string, link: string, now: int, p: nat)
    requires Typed(s) && p == FindInode(s.inodes, LookupOrZero(s.names, name)) < |s.inodes|
    ensures var s1, s' := SymlinkEntry(s, uid, gid, mode, p, link, now), SoftLink(s, uid, gid, mode, name, link, now).0;
            s' == s || s' == SoftLinkCopy(s1, s.inodes[p].slots, s.inodes[p].size).0
  {
  }

  lemma {:induction false} FreeOwners(table: seq<Entry>, slots: seq<nat>, i: nat)
    requires TableOk(table) && SlotsInRange(slots) && i <= |slots|
    ensures TableOk(FreeSlots(table, slots, i))
    decreases |slots| - i
  {
    if i < |slots| && slots[i] != 0 { FreeOwners(table[slots[i] - 1 := Entry(false, 0)], slots, i + 1); }
  }

  lemma DropFileModest(s: State, e: nat, p: nat)
    requires Typed(s) && Modest(s) && e < |s.names| && p < |s.inodes|
    ensures Modest(DropFile(s, e, p))
  {
    FreeOwners(s.store.table, s.inodes[p].slots, 0);
    RemovedAt(s.inodes, p);
    RemovedAt(s.names, e);
  }

  lemma DropLinkModest(s: State, e: nat, p: nat, x: Inode)
    requires Modest(s) && e < |s.names| && p < |s.inodes| && ModestInode(x)
    ensures Modest(DropLink(s, e, p, x))
  {
    RemovedAt(s.names, e);
  }

  lemma UnlinkModest(s: State, name: string, now: int)
    requires Inv(s) && Modest(s) && Int31(now)
    ensures Modest(Unlink(s, name, now).0)
  {
    var e := FindName(s.names, name);
    if e < |s.names| {
      var p := FindInode(s.inodes, s.names[e].node);
      assert Live(s.inodes, s.names[e].node);
      UnlinkUnfold(s, name, now, e, p);
      if s.inodes[p].refCount == 1 {
        DropFileModest(s, e, p);
      } else {
        assert ModestInode(s.inodes[p]);
        DropLinkModest(s, e, p, s.inodes[p].(refCount := s.inodes[p].refCount - 1, atime := now, ctime := now));
      }
    }
  }

  lemma TouchingModest(s: State, op: Op, now: int)
    requires Inv(s) && Modest(s) && ModestOp(s, op, now) && (op.OpWrite? || op.OpSymlink? || op.OpUnlink?)
    ensures Modest(Apply(s, op, now).0)
  {
    match op
    case OpWrite(fd, buf) => WriteModest(s, fd, buf, now);
    case OpSymlink(uid, gid, mode, name, link) => SoftLinkModest(s, uid, gid, mode, name, link, now);
    case OpUnlink(name) => UnlinkModest(s, name, now);
  }

  /** A state that can be saved without loss stays so. */
  lemma StepModest(s: State, op: Op, now: int)
    requires Inv(s) && Modest(s) && ModestOp(s, op, now)
    ensures Modest(Apply(s, op, now).0)
  {
    if op.OpWrite? || op.OpSymlink? || op.OpUnlink? { TouchingModest(s, op, now); } else { QuietModest(s, op, now); }
  }

  lemma QuietModest(s: State, op: Op, now: int)
    requires Typed(s) && Modest(s) && ModestOp(s, op, now) && !op.OpWrite? && !op.OpSymlink? && !op.OpUnlink?
    ensures Modest(Apply(s, op, now).0)
  {
    if op.OpOpen? || op.OpClose? || op.OpRead? || op.OpSeek? { FdModest(s, op, now); } else { NameModest(s, op, now); }
  }

  lemma NameModest(s: State, op: Op, now: int)
    requires Typed(s) && Modest(s) && ModestOp(s, op, now)
    requires op.OpCreate? || op.OpChmod? || op.OpStat? || op.OpRename? || op.OpLink?
    ensures Modest(Apply(s, op, now).0)
  {
  }

  lemma FdModest(s: State, op: Op, now: int)
    requires Typed(s) && Modest(s) && ModestOp(s, op, now) && (op.OpOpen? || op.OpClose? || op.OpRead? || op.OpSeek?)
    ensures Modest(Apply(s, op, now).0)
  {
  }

  // ------------------------------------------------------------------ restarts

  /** s' is what the service finds when it starts after it ended in s: the loaded tables, the
      same data file, and no descriptor. */
  ghost predicate Restarts(s: State, s': State)
    requires Storable(s)
  {
    && LoadInodes(SaveInodes(s.inodes)) == Some(s'.inodes)
    && LoadNames(SaveNames(s.names)) == Some(s'.names)
    && (exists status :: LoadBlocks(SaveBlocks(s.store.table), NoEntries(), 0) == Some((s'.store.table, status)))
    && s'.store.disk == s.store.disk && s'.descs == []
  }

  lemma LoadedTable(s: State)
    requires Inv(s) && Storable(s)
    ensures Restarts(s, s.(descs := []))
  {
    RestartRestores(s);
    assert LoadBlocks(SaveBlocks(s.store.table), NoEntries(), 0) == Some((s.store.table, Failure));
  }

  lemma RestartFinds(s: State, s': State)
    requires Inv(s) && Storable(s) && Restarts(s, s')
    ensures s' == s.(descs := [])
  {
    RestartRestores(s);
    assert s'.inodes == s.inodes && s'.names == s.names;
    assert s'.store.table == s.store.table && s'.store == s.store;
  }

  /** A restart restores everything but the descriptors. */
  lemma RestartIs(s: State, s': State)
    requires Inv(s) && Storable(s)
    ensures Restarts(s, s') <==> s' == s.(descs := [])
    ensures Inv(s.(descs := []))
    ensures forall x: nat :: File(s.(descs := []), x) == File(s, x)
  {
    LoadedTable(s);
    if Restarts(s, s') { RestartFinds(s, s'); }
    RestartRestores(s);
  }

  datatype LongEvent = Do(event: Event) | Restart

  ghost predicate LongStep(s: State, e: LongEvent, s': State) {
    match e
    case Do(event) => Step(s, event, s')
    case Restart => Storable(s) && Restarts(s, s')
  }

  ghost predicate IsLongRun(states: seq<State>, events: seq<LongEvent>) {
    && |states| == |events| + 1
    && forall i :: 0 <= i < |events| ==> LongStep(states[i], events[i], states[i + 1])
  }

  /** Every operation is safe and its arguments fit. */
  ghost predicate AllModest(states: seq<State>, events: seq<LongEvent>)
    requires |states| == |events| + 1
  {
    forall i :: 0 <= i < |events| && events[i].Do? ==>
      Safe(states[i], events[i].event.op) && ModestOp(states[i], events[i].event.op, events[i].event.now)
  }

  /** Over every run with restarts the invariant holds, and at any point the service can be
      restarted, which then loses nothing but the open descriptors. */
  lemma {:induction false} LongRunInv(states: seq<State>, events: seq<LongEvent>, i: nat)
    requires IsLongRun(states, events) && i <= |events|
    requires Inv(states[0]) && Modest(states[0]) && AllModest(states, events)
    ensures Inv(states[i]) && Modest(states[i]) && Storable(states[i])
    ensures i < |events| && events[i] == Restart ==> states[i + 1] == states[i].(descs := [])
  {
    if i == 0 {
    } else {
      LongRunInv(states, events, i - 1);
      LongStepInv(states[i - 1], events[i - 1], states[i]);
    }
    ModestIsStorable(states[i]);
    if i < |events| && events[i] == Restart {
      assert LongStep(states[i], events[i], states[i + 1]);
      RestartIs(states[i], states[i + 1]);
    }
  }

  lemma LongStepInv(s: State, e: LongEvent, s': State)
    requires Inv(s) && Modest(s) && LongStep(s, e, s')
    requires e.Do? ==> Safe(s, e.event.op) && ModestOp(s, e.event.op, e.event.now)
    ensures Inv(s') && Modest(s')
  {
    match e
    case Do(event) =>
      StepInv(s, event.op, event.now);
      StepModest(s, event.op, event.now);
    case Restart =>
      RestartIs(s, s');
  }

  ghost predicate LeavesFile(s: State, e: LongEvent, index: nat) {
    e.Do? ==> !Touches(s, e.event.op, index)
  }

  lemma LongStepKeeps(s: State, e: LongEvent, s': State, index: nat)
    requires Inv(s) && Storable(s) && LongStep(s, e, s') && LeavesFile(s, e, index) && File(s, index).Some?
    ensures File(s', index) == File(s, index)
  {
    match e
    case Do(event) => KeptByStep(s, event, s', index);
    case Restart => RestartIs(s, s');
  }

  ghost predicate AllLeave(states: seq<State>, events: seq<LongEvent>, index: nat)
    requires |states| == |events| + 1
  {
    forall j :: 0 <= j < |events| ==> LeavesFile(states[j], events[j], index)
  }

  lemma LongStepAt(states: seq<State>, events: seq<LongEvent>, i: nat, index: nat)
    requires IsLongRun(states, events) && i < |events| && AllLeave(states, events, index)
    requires Inv(states[0]) && Modest(states[0]) && AllModest(states, events) && File(states[i], index).Some?
    ensures File(states[i + 1], index) == File(states[i], index)
  {
    LongRunInv(states, events, i);
    assert LongStep(states[i], events[i], states[i + 1]);
    LongStepKeeps(states[i], events[i], states[i + 1], index);
  }

  /** A file that no operation touches keeps its contents over any number of restarts. */
  lemma {:induction false} LongRunKeepsFile(states: seq<State>, events: seq<LongEvent>, i: nat, index: nat)
    requires IsLongRun(states, events) && i <= |events| && AllLeave(states, events, index)
    requires Inv(states[0]) && Modest(states[0]) && AllModest(states, events) && File(states[0], index).Some?
    ensures File(states[i], index) == File(states[0], index)
  {
    if i == 0 {
    } else {
      LongRunKeepsFile(states, events, i - 1, index);
      LongStepAt(states, events, i - 1, index);
    }
  }
}
