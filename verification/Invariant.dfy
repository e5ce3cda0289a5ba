/**
 The global invariant of the file system, and the proof that every service operation keeps
 it. Unlink keeps it exactly when it does not drop the last name of an open file.
 */
module Invariant {
  import opened Common
  import opened Blocks
  import opened Namespace

  // ------------------------------------------------------------------ the invariant

  ghost predicate InodeOk(n: Inode, st: Store) {
    && Linked(st, n.slots, n.index)
    && n.size <= Mapped(n.slots) * BLOCK_SIZE
  }

  ghost predicate InodesOk(inodes: seq<Inode>, st: Store) {
    && Sized(st)
    && (forall i, j :: 0 <= i < j < |inodes| ==> inodes[i].index < inodes[j].index)
    && (forall i :: 0 <= i < |inodes| ==> InodeOk(inodes[i], st))
  }

  ghost predicate Live(inodes: seq<Inode>, index: nat) {
    exists i :: 0 <= i < |inodes| && inodes[i].index == index
  }

  function CountNames(names: seq<Name>, node: nat): nat {
    if |names| == 0 then 0
    else CountNames(names[..|names| - 1], node) + (if names[|names| - 1].node == node then 1 else 0)
  }

  /** Names are unique and live, and every count is the number of names, at least one. */
  ghost predicate NamesOk(names: seq<Name>, inodes: seq<Inode>) {
    && (forall i, j :: 0 <= i < j < |names| ==> names[i].name != names[j].name)
    && (forall e :: 0 <= e < |names| ==> Live(inodes, names[e].node))
    && (forall i :: 0 <= i < |inodes| ==> inodes[i].refCount == CountNames(names, inodes[i].index) >= 1)
  }

  ghost predicate DescOk(d: Desc, inodes: seq<Inode>) {
    && (d.mode == READ_ONLY || d.mode == WRITE_ONLY)
    && Live(inodes, d.node)
    && (forall i :: 0 <= i < |inodes| && inodes[i].index == d.node ==> d.off <= Mapped(inodes[i].slots) * BLOCK_SIZE)
  }

  /** A write descriptor is the youngest descriptor of its file. */
  ghost predicate SingleWriter(descs: seq<Desc>) {
    forall i, j :: 0 <= i < j < |descs| && descs[i].node == descs[j].node ==> descs[i].mode != WRITE_ONLY
  }

  ghost predicate DescsOk(descs: seq<Desc>, inodes: seq<Inode>) {
    && (forall i, j :: 0 <= i < j < |descs| ==> descs[i].fd < descs[j].fd)
    && SingleWriter(descs)
    && (forall d :: 0 <= d < |descs| ==> DescOk(descs[d], inodes))
  }

  ghost predicate Inv(s: State) {
    InodesOk(s.inodes, s.store) && NamesOk(s.names, s.inodes) && DescsOk(s.descs, s.inodes)
  }

  // ------------------------------------------------------------------ frame

  /** st' agrees with st on every block tagged with this inode. */
  ghost predicate KeepsBlocks(st: Store, st': Store, owner: nat) {
    && Sized(st) && Sized(st')
    && forall b :: 0 <= b < NUM_BLOCKS && st.table[b] == Entry(true, owner) ==>
         st'.table[b] == st.table[b] && st'.disk[b] == st.disk[b]
  }

  /** Ownership is a frame: what happens to other blocks cannot matter to an inode. */
  lemma OwnedFrame(st: Store, st': Store, slots: seq<nat>, owner: nat)
    requires Linked(st, slots, owner) && KeepsBlocks(st, st', owner)
    ensures Linked(st', slots, owner)
    ensures MappedBytes(st', slots) == MappedBytes(st, slots)
  {
    BytesFrame(st.disk, st'.disk, slots, slots, Mapped(slots));
  }

  lemma OthersOk(inodes: seq<Inode>, st: Store, st': Store, p: nat)
    requires InodesOk(inodes, st) && p < |inodes| && Sized(st')
    requires forall o :: o != inodes[p].index ==> KeepsBlocks(st, st', o)
    ensures forall i :: 0 <= i < |inodes| && i != p ==>
              InodeOk(inodes[i], st') && MappedBytes(st', inodes[i].slots) == MappedBytes(st, inodes[i].slots)
  {
    forall i | 0 <= i < |inodes| && i != p
      ensures InodeOk(inodes[i], st') && MappedBytes(st', inodes[i].slots) == MappedBytes(st, inodes[i].slots)
    {
      OwnedFrame(st, st', inodes[i].slots, inodes[i].index);
    }
  }

  // ------------------------------------------------------------------ replacing one inode

  /** x may stand for the inode n in the tables: same index and count, no slot unmapped. */
  ghost predicate Extends(n: Inode, x: Inode) {
    x.index == n.index && x.refCount == n.refCount && Mapped(x.slots) >= Mapped(n.slots)
  }

  lemma LiveAfterReplace(inodes: seq<Inode>, p: nat, x: Inode, node: nat)
    requires p < |inodes| && x.index == inodes[p].index
    ensures Live(inodes[p := x], node) <==> Live(inodes, node)
  {
    if Live(inodes, node) {
      var i :| 0 <= i < |inodes| && inodes[i].index == node;
      assert inodes[p := x][i].index == node;
    }
    if Live(inodes[p := x], node) {
      var i :| 0 <= i < |inodes| && inodes[p := x][i].index == node;
      assert inodes[i].index == node;
    }
  }

  lemma ReplaceNames(names: seq<Name>, inodes: seq<Inode>, p: nat, x: Inode)
    requires NamesOk(names, inodes) && p < |inodes| && Extends(inodes[p], x)
    ensures NamesOk(names, inodes[p := x])
  {
    forall e | 0 <= e < |names| ensures Live(inodes[p := x], names[e].node) {
      LiveAfterReplace(inodes, p, x, names[e].node);
    }
  }

  lemma ReplaceDescs(descs: seq<Desc>, inodes: seq<Inode>, p: nat, x: Inode)
    requires DescsOk(descs, inodes) && p < |inodes| && Extends(inodes[p], x)
    ensures DescsOk(descs, inodes[p := x])
  {
    forall d | 0 <= d < |descs| ensures DescOk(descs[d], inodes[p := x]) {
      LiveAfterReplace(inodes, p, x, descs[d].node);
      assert DescOk(descs[d], inodes);
    }
  }

  lemma ReplaceInodes(inodes: seq<Inode>, st: Store, p: nat, x: Inode)
    requires InodesOk(inodes, st) && p < |inodes| && x.index == inodes[p].index && InodeOk(x, st)
    ensures InodesOk(inodes[p := x], st)
  {
  }

  /** Replacing an inode record and its blocks, in a store that keeps everyone else's blocks. */
  lemma ReplaceInode(s: State, p: nat, x: Inode, st': Store)
    requires Inv(s) && p < |s.inodes| && Extends(s.inodes[p], x) && InodeOk(x, st')
    requires forall o :: o != s.inodes[p].index ==> KeepsBlocks(s.store, st', o)
    ensures Inv(State(s.inodes[p := x], s.names, s.descs, st'))
    ensures forall i :: 0 <= i < |s.inodes| && i != p ==>
              MappedBytes(st', s.inodes[i].slots) == MappedBytes(s.store, s.inodes[i].slots)
  {
    OthersOk(s.inodes, s.store, st', p);
    ReplaceNames(s.names, s.inodes, p, x);
    ReplaceDescs(s.descs, s.inodes, p, x);
  }

  /** Changing times, mode, or a size within the mapped bytes. */
  lemma TouchInode(s: State, p: nat, x: Inode)
    requires Inv(s) && p < |s.inodes| && Extends(s.inodes[p], x)
    requires x.slots == s.inodes[p].slots && x.size <= Mapped(x.slots) * BLOCK_SIZE
    ensures Inv(SetInode(s, p, x))
  {
    assert InodeOk(s.inodes[p], s.store);
    ReplaceInodes(s.inodes, s.store, p, x);
    ReplaceNames(s.names, s.inodes, p, x);
    ReplaceDescs(s.descs, s.inodes, p, x);
  }

  lemma MoveOffset(descs: seq<Desc>, inodes: seq<Inode>, d: nat, p: nat, off: nat)
    requires DescsOk(descs, inodes) && d < |descs| && p < |inodes| && descs[d].node == inodes[p].index
    requires forall i, j :: 0 <= i < j < |inodes| ==> inodes[i].index < inodes[j].index
    requires off <= Mapped(inodes[p].slots) * BLOCK_SIZE
    ensures DescsOk(descs[d := descs[d].(off := off)], inodes)
  {
    assert DescOk(descs[d], inodes);
    assert DescOk(descs[d].(off := off), inodes);
  }

  // ------------------------------------------------------------------ counting names

  lemma {:induction false} CountFresh(names: seq<Name>, node: nat)
    requires forall e :: 0 <= e < |names| ==> names[e].node != node
    ensures CountNames(names, node) == 0
  {
    if |names| == 0 {
    } else {
      CountFresh(names[..|names| - 1], node);
    }
  }

  lemma CountAppend(names: seq<Name>, x: Name, node: nat)
    ensures CountNames(names + [x], node) == CountNames(names, node) + (if x.node == node then 1 else 0)
  {
    assert (names + [x])[..|names|] == names;
  }

  lemma {:induction false} CountRemove(names: seq<Name>, e: nat, node: nat)
    requires e < |names|
    ensures CountNames(names, node) == CountNames(RemoveAt(names, e), node) + (if names[e].node == node then 1 else 0)
  {
    var n := |names| - 1;
    if e == n {
      assert RemoveAt(names, e) == names[..n];
    } else {
      CountRemove(names[..n], e, node);
      assert RemoveAt(names, e) == RemoveAt(names[..n], e) + [names[n]];
      CountAppend(RemoveAt(names[..n], e), names[n], node);
    }
  }

  lemma {:induction false} CountRename(names: seq<Name>, e: nat, x: Name, node: nat)
    requires e < |names| && x.node == names[e].node
    ensures CountNames(names[e := x], node) == CountNames(names, node)
  {
    var n := |names| - 1;
    if e == n {
      assert names[e := x][..n] == names[..n];
    } else {
      assert names[e := x][..n] == names[..n][e := x];
      CountRename(names[..n], e, x, node);
    }
  }

  // ------------------------------------------------------------------ appending

  lemma LiveAfterAppend(inodes: seq<Inode>, x: Inode, node: nat)
    requires Live(inodes, node) || x.index == node
    ensures Live(inodes + [x], node)
  {
    if x.index == node {
      assert (inodes + [x])[|inodes|].index == node;
    } else {
      var i :| 0 <= i < |inodes| && inodes[i].index == node;
      assert (inodes + [x])[i].index == node;
    }
  }

  lemma NewIndexFresh(inodes: seq<Inode>, st: Store)
    requires InodesOk(inodes, st)
    ensures forall i :: 0 <= i < |inodes| ==> inodes[i].index < NextIndex(inodes)
  {
  }

  /** Appending an empty inode together with its first name. */
  lemma AppendInode(s: State, x: Inode, name: string)
    requires Inv(s) && !Taken(s.names, name)
    requires x.index == NextIndex(s.inodes) && x.refCount == 1 && x.size == 0 && x.slots == NoSlots()
    ensures Inv(AddFile(s, x, name))
  {
    NewIndexFresh(s.inodes, s.store);
    AppendInodes(s.inodes, x, s.store);
    AppendNames(s.names, s.inodes, x, name);
    AppendDescs(s.descs, s.inodes, x);
  }

  lemma AppendInodes(inodes: seq<Inode>, x: Inode, st: Store)
    requires InodesOk(inodes, st) && x.index == NextIndex(inodes) && x.size == 0 && x.slots == NoSlots()
    ensures InodesOk(inodes + [x], st)
  {
    NewIndexFresh(inodes, st);
    assert InodeOk(x, st);
  }

  lemma AppendNames(names: seq<Name>, inodes: seq<Inode>, x: Inode, name: string)
    requires NamesOk(names, inodes) && !Taken(names, name) && x.refCount == 1
    requires forall i :: 0 <= i < |inodes| ==> inodes[i].index < x.index
    ensures NamesOk(names + [Name(x.index, name)], inodes + [x])
  {
    var names', inodes' := names + [Name(x.index, name)], inodes + [x];
    forall e | 0 <= e < |names'| ensures Live(inodes', names'[e].node) {
      LiveAfterAppend(inodes, x, names'[e].node);
    }
    forall i | 0 <= i < |inodes'| ensures inodes'[i].refCount == CountNames(names', inodes'[i].index) >= 1 {
      CountAppend(names, Name(x.index, name), inodes'[i].index);
      if i == |inodes| {
        assert forall e :: 0 <= e < |names| ==> Live(inodes, names[e].node);
        CountFresh(names, x.index);
      }
    }
  }

  lemma AppendDescs(descs: seq<Desc>, inodes: seq<Inode>, x: Inode)
    requires DescsOk(descs, inodes)
    requires forall i :: 0 <= i < |inodes| ==> inodes[i].index < x.index
    ensures DescsOk(descs, inodes + [x])
  {
    forall d | 0 <= d < |descs| ensures DescOk(descs[d], inodes + [x]) {
      assert DescOk(descs[d], inodes);
      LiveAfterAppend(inodes, x, descs[d].node);
    }
  }

  // ------------------------------------------------------------------ one lemma per operation

  lemma CreateInv(s: State, uid: nat, gid: nat, mode: int, name: string, now: int)
    requires Inv(s)
    ensures Inv(Create(s, uid, gid, mode, name, now).0)
  {
    if !Taken(s.names, name) {
      AppendInode(s, NewInode(s.inodes, Regular, uid, gid, 1, mode, now), name);
    }
  }

  lemma ChmodInv(s: State, uid: nat, gid: nat, mode: int, name: string, now: int)
    requires Inv(s)
    ensures Inv(Chmod(s, uid, gid, mode, name, now).0)
  {
    ChmodInodeInv(s, mode % U32, name, now);
  }

  lemma ChmodInodeInv(s: State, mode: int, name: string, now: int)
    requires Inv(s)
    ensures Inv(ChmodInode(s, mode, name, now).0)
  {
    var p := FindInode(s.inodes, LookupOrZero(s.names, name));
    if p < |s.inodes| {
      assert InodeOk(s.inodes[p], s.store);
      TouchInode(s, p, s.inodes[p].(mode := mode, atime := now, ctime := now));
    }
  }

  lemma StatInv(s: State, uid: nat, gid: nat, name: string, now: int)
    requires Inv(s)
    ensures Inv(Stat(s, uid, gid, name, now).0)
  {
    StatInodeInv(s, name, now);
  }

  lemma StatInodeInv(s: State, name: string, now: int)
    requires Inv(s)
    ensures Inv(StatInode(s, name, now).0)
  {
    var p := FindInode(s.inodes, LookupOrZero(s.names, name));
    if p < |s.inodes| {
      assert InodeOk(s.inodes[p], s.store);
      TouchInode(s, p, s.inodes[p].(atime := now));
    }
  }

  lemma RenameInv(s: State, oldName: string, newName: string)
    requires Inv(s)
    ensures Inv(Rename(s, oldName, newName).0)
  {
    var p := FindName(s.names, oldName);
    if p < |s.names| && !Taken(s.names, newName) {
      var x := s.names[p].(name := newName);
      var names' := s.names[p := x];
      forall e | 0 <= e < |names'| ensures Live(s.inodes, names'[e].node) {
        assert names'[e].node == s.names[e].node;
      }
      forall i | 0 <= i < |s.inodes| ensures s.inodes[i].refCount == CountNames(names', s.inodes[i].index) >= 1 {
        CountRename(s.names, p, x, s.inodes[i].index);
      }
    }
  }

  lemma LinkInv(s: State, uid: nat, gid: nat, name: string, link: string, now: int)
    requires Inv(s)
    ensures Inv(Link(s, uid, gid, name, link, now).0)
  {
    var p := FindInode(s.inodes, LookupOrZero(s.names, name));
    if p < |s.inodes| && !Taken(s.names, link) {
      var x := s.inodes[p].(refCount := s.inodes[p].refCount + 1, atime := now, ctime := now);
      assert InodeOk(s.inodes[p], s.store);
      ReplaceInodes(s.inodes, s.store, p, x);
      AddName(s.names, s.inodes, p, x, link);
      AddNameDescs(s.descs, s.inodes, p, x);
    }
  }

  lemma AddName(names: seq<Name>, inodes: seq<Inode>, p: nat, x: Inode, link: string)
    requires NamesOk(names, inodes) && p < |inodes| && !Taken(names, link)
    requires forall i, j :: 0 <= i < j < |inodes| ==> inodes[i].index < inodes[j].index
    requires x.index == inodes[p].index && x.refCount == inodes[p].refCount + 1
    ensures NamesOk(names + [Name(x.index, link)], inodes[p := x])
  {
    var names', inodes' := names + [Name(x.index, link)], inodes[p := x];
    forall e | 0 <= e < |names'| ensures Live(inodes', names'[e].node) {
      if e == |names| {
        assert inodes'[p].index == x.index;
      } else {
        LiveAfterReplace(inodes, p, x, names[e].node);
      }
    }
    forall i | 0 <= i < |inodes'| ensures inodes'[i].refCount == CountNames(names', inodes'[i].index) >= 1 {
      CountAppend(names, Name(x.index, link), inodes'[i].index);
    }
  }

  /** Descriptors only depend on the index and the slots of an inode. */
  lemma AddNameDescs(descs: seq<Desc>, inodes: seq<Inode>, p: nat, x: Inode)
    requires DescsOk(descs, inodes) && p < |inodes|
    requires x.index == inodes[p].index && x.slots == inodes[p].slots
    ensures DescsOk(descs, inodes[p := x])
  {
    forall d | 0 <= d < |descs| ensures DescOk(descs[d], inodes[p := x]) {
      assert DescOk(descs[d], inodes);
      LiveAfterReplace(inodes, p, x, descs[d].node);
    }
  }

  lemma OpenInv(s: State, uid: nat, gid: nat, name: string, flags: int, now: int)
    requires Inv(s)
    ensures Inv(Open(s, uid, gid, name, flags, now).0)
  {
    if flags == READ_ONLY || flags == WRITE_ONLY { OpenInodeInv(s, name, flags, now); }
  }

  lemma OpenInodeInv(s: State, name: string, mode: nat, now: int)
    requires Inv(s) && (mode == READ_ONLY || mode == WRITE_ONLY)
    ensures Inv(OpenInode(s, name, mode, now).0)
  {
    var node := LookupOrZero(s.names, name);
    var p := FindInode(s.inodes, node);
    if p < |s.inodes| && !OpenedForWrite(s.descs, node) {
      var x := s.inodes[p].(atime := now);
      assert InodeOk(s.inodes[p], s.store);
      ReplaceInodes(s.inodes, s.store, p, x);
      ReplaceNames(s.names, s.inodes, p, x);
      AddNameDescs(s.descs, s.inodes, p, x);
      AppendDesc(s.descs, s.inodes[p := x], p, Desc(NextFd(s.descs), mode, 0, node));
    }
  }

  lemma AppendDesc(descs: seq<Desc>, inodes: seq<Inode>, p: nat, x: Desc)
    requires DescsOk(descs, inodes) && p < |inodes| && inodes[p].index == x.node
    requires x.mode == READ_ONLY || x.mode == WRITE_ONLY
    requires x.off == 0 && x.fd == NextFd(descs)
    requires !OpenedForWrite(descs, x.node)
    ensures DescsOk(descs + [x], inodes)
  {
    assert DescOk(x, inodes);
  }

  lemma CloseInv(s: State, fd: nat)
    requires Inv(s)
    ensures Inv(Close(s, fd).0)
  {
    var d := FindDesc(s.descs, fd);
    if d < |s.descs| { RemoveDesc(s.descs, s.inodes, d); }
  }

  lemma RemoveDesc(descs: seq<Desc>, inodes: seq<Inode>, d: nat)
    requires DescsOk(descs, inodes) && d < |descs|
    ensures DescsOk(RemoveAt(descs, d), inodes)
  {
  }

  lemma SeekInv(s: State, fd: nat, off: nat)
    requires Inv(s)
    ensures Inv(Seek(s, fd, off).0)
  {
    var d := FindDesc(s.descs, fd);
    if d < |s.descs| {
      var p := FindInode(s.inodes, s.descs[d].node);
      if p < |s.inodes| && off <= s.inodes[p].size {
        assert InodeOk(s.inodes[p], s.store);
        MoveOffset(s.descs, s.inodes, d, p, off);
      }
    }
  }

  // ------------------------------------------------------------------ write and read

  /** What the invariant needs to know about write_inode, wrapped around or not. */
  lemma WriteKeeps(st: Store, slots: seq<nat>, owner: nat, off: nat, buf: Buffer)
    requires Linked(st, slots, owner) && off <= Mapped(slots) * BLOCK_SIZE
    requires NewOffset(off, |buf|) <= BLOCK_SIZE * MAX_SLOTS
    ensures var r := WriteBlocks(st, slots, owner, off, buf);
            && Linked(r.st, r.slots, owner)
            && Mapped(r.slots) >= Mapped(slots)
            && (r.ok ==> NewOffset(off, |buf|) <= Mapped(r.slots) * BLOCK_SIZE)
            && (forall o :: o != owner ==> KeepsBlocks(st, r.st, o))
  {
    if off + |buf| < U32 {
      WriteLinked(st, slots, owner, off, buf);
      WriteFrame(st, slots, owner, off, buf);
    } else {
      WriteWrapped(st, slots, owner, off, buf);
    }
  }

  lemma WriteInodeInv(s: State, p: nat, off: nat, buf: Buffer)
    requires Inv(s) && p < |s.inodes| && off <= Mapped(s.inodes[p].slots) * BLOCK_SIZE
    ensures var (s', ok) := WriteInode(s, p, off, buf);
            && Inv(s') && s'.descs == s.descs && |s'.inodes| == |s.inodes| && s'.inodes[p].index == s.inodes[p].index
            && (ok ==> NewOffset(off, |buf|) <= Mapped(s'.inodes[p].slots) * BLOCK_SIZE)
  {
    var node := s.inodes[p];
    assert InodeOk(node, s.store);
    if NewOffset(off, |buf|) <= BLOCK_SIZE * MAX_SLOTS {
      var w := WriteBlocks(s.store, node.slots, node.index, off, buf);
      WriteKeeps(s.store, node.slots, node.index, off, buf);
      ReplaceInode(s, p, WriteInode(s, p, off, buf).0.inodes[p], w.st);
    }
  }

  lemma SetOffsetInv(s: State, d: nat, p: nat, off: nat)
    requires Inv(s) && d < |s.descs| && p < |s.inodes| && s.descs[d].node == s.inodes[p].index
    requires off <= Mapped(s.inodes[p].slots) * BLOCK_SIZE
    ensures Inv(SetOffset(s, d, off))
  {
    MoveOffset(s.descs, s.inodes, d, p, off);
  }

  lemma WriteInv(s: State, fd: nat, buf: Buffer, now: int)
    requires Inv(s)
    ensures Inv(Write(s, fd, buf, now).0)
  {
    var d := FindDesc(s.descs, fd);
    if d < |s.descs| {
      var p := FindInode(s.inodes, s.descs[d].node);
      if p < |s.inodes| { WriteAtInv(s, d, p, buf, now); }
    }
  }

  lemma WriteAtInv(s: State, d: nat, p: nat, buf: Buffer, now: int)
    requires Inv(s) && d < |s.descs| && p < |s.inodes| && s.descs[d].node == s.inodes[p].index
    ensures Inv(WriteAt(s, d, p, buf, now).0)
  {
    assert InodeOk(s.inodes[p], s.store);
    assert DescOk(s.descs[d], s.inodes);
    var s1 := SetInode(s, p, s.inodes[p].(atime := now, mtime := now));
    TouchInode(s, p, s.inodes[p].(atime := now, mtime := now));
    WriteInodeInv(s1, p, s.descs[d].off, buf);
    var (s2, ok) := WriteInode(s1, p, s.descs[d].off, buf);
    if ok { SetOffsetInv(s2, d, p, NewOffset(s.descs[d].off, |buf|)); }
  }

  lemma ReadInv(s: State, fd: nat, n: nat, now: int)
    requires Inv(s)
    ensures Inv(Read(s, fd, n, now).0)
  {
    var d := FindDesc(s.descs, fd);
    if d < |s.descs| {
      var p := FindInode(s.inodes, s.descs[d].node);
      if p < |s.inodes| { ReadAtInv(s, d, p, n, now); }
    }
  }

  lemma ReadAtInv(s: State, d: nat, p: nat, n: nat, now: int)
    requires Inv(s) && d < |s.descs| && p < |s.inodes| && s.descs[d].node == s.inodes[p].index
    ensures Inv(ReadAt(s, d, p, n, now).0)
  {
    assert InodeOk(s.inodes[p], s.store);
    assert DescOk(s.descs[d], s.inodes);
    TouchInode(s, p, s.inodes[p].(atime := now));
    ReadOffset(s.store, s.inodes[p].slots, s.descs[d].off, n);
    SetOffsetInv(SetInode(s, p, s.inodes[p].(atime := now)), d, p,
                 ReadLoop(s.store, s.inodes[p].slots, s.descs[d].off, n).off);
  }

  /** A read starting within the mapped bytes ends within them. */
  lemma ReadOffset(st: Store, slots: seq<nat>, off: nat, n: nat)
    requires Sized(st) && SlotsInRange(slots) && off <= Mapped(slots) * BLOCK_SIZE
    ensures ReadLoop(st, slots, off, n).off <= Mapped(slots) * BLOCK_SIZE
  {
    if off + n <= Mapped(slots) * BLOCK_SIZE {
      ReadExact(st, slots, off, n, off + n);
    } else {
      ReadPastEnd(st, slots, off, n);
    }
  }

  // ------------------------------------------------------------------ soft links

  lemma SymlinkEntryInv(s: State, uid: nat, gid: nat, mode: int, p: nat, link: string, now: int)
    requires Inv(s) && p < |s.inodes| && !Taken(s.names, link)
    ensures Inv(SymlinkEntry(s, uid, gid, mode, p, link, now))
  {
    var x := s.inodes[p].(atime := now);
    var child := NewInode(s.inodes, Symlink, uid, gid, 0, mode, now);
    assert SymlinkEntry(s, uid, gid, mode, p, link, now)
        == AddFile(SetInode(s, p, x), child.(refCount := child.refCount + 1), link);
    assert InodeOk(s.inodes[p], s.store);
    TouchInode(s, p, x);
    SameNextIndex(s.inodes, p, x);
    AppendInode(SetInode(s, p, x), child.(refCount := child.refCount + 1), link);
  }

  lemma SameNextIndex(inodes: seq<Inode>, p: nat, x: Inode)
    requires p < |inodes| && x.index == inodes[p].index
    ensures NextIndex(inodes[p := x]) == NextIndex(inodes)
  {
  }

  lemma SoftLinkCopyIs(s: State, slots: seq<nat>, n: nat)
    requires Typed(s) && |s.inodes| > 0 && SlotsInRange(slots)
    ensures var data := ReadLoop(s.store, slots, 0, n).data;
            var s' := SoftLinkCopy(s, slots, n).0;
            s' == s || (|data| < U32 && s' == WriteInode(s, |s.inodes| - 1, 0, data).0)
  {
  }

  lemma SoftLinkCopyInv(s: State, slots: seq<nat>, n: nat)
    requires Inv(s) && |s.inodes| > 0 && SlotsInRange(slots)
    ensures Inv(SoftLinkCopy(s, slots, n).0)
  {
    var data := ReadLoop(s.store, slots, 0, n).data;
    var s' := SoftLinkCopy(s, slots, n).0;
    SoftLinkCopyIs(s, slots, n);
    if s' != s { WriteInodeInv(s, |s.inodes| - 1, 0, data); }
  }

  lemma SoftLinkInv(s: State, uid: nat, gid: nat, mode: int, name: string, link: string, now: int)
    requires Inv(s)
    ensures Inv(SoftLink(s, uid, gid, mode, name, link, now).0)
  {
    var p := FindInode(s.inodes, LookupOrZero(s.names, name));
    if p < |s.inodes| && !Taken(s.names, link) {
      assert InodeOk(s.inodes[p], s.store);
      SymlinkEntryInv(s, uid, gid, mode, p, link, now);
      SoftLinkCopyInv(SymlinkEntry(s, uid, gid, mode, p, link, now), s.inodes[p].slots, s.inodes[p].size);
    }
  }

  // ------------------------------------------------------------------ unlink

  /** This unlink drops the last name of a file that some descriptor still has open. */
  predicate DropsOpenFile(s: State, name: string) {
    var e := FindName(s.names, name);
    && e < |s.names|
    && var p := FindInode(s.inodes, s.names[e].node);
    && p < |s.inodes| && s.inodes[p].refCount == 1
    && exists d :: 0 <= d < |s.descs| && s.descs[d].node == s.inodes[p].index
  }

  /** Unlink keeps the invariant exactly when it does not drop an open file: descriptors do
      not count as references, so a descriptor would be left on an index without inode. */
  lemma UnlinkInv(s: State, name: string, now: int)
    requires Inv(s)
    ensures Inv(Unlink(s, name, now).0) <==> !DropsOpenFile(s, name)
  {
    var e := FindName(s.names, name);
    if e < |s.names| {
      var p := FindInode(s.inodes, s.names[e].node);
      assert Live(s.inodes, s.names[e].node);
      UnlinkUnfold(s, name, now, e, p);
      if s.inodes[p].refCount == 1 { DropInode(s, e, p, now); } else { DropName(s, e, p, now); }
    }
  }

  lemma UnlinkUnfold(s: State, name: string, now: int, e: nat, p: nat)
    requires Typed(s) && e == FindName(s.names, name) < |s.names|
    requires p == FindInode(s.inodes, s.names[e].node) < |s.inodes| && s.inodes[p].refCount >= 1
    ensures var n := s.inodes[p];
            Unlink(s, name, now)
            == (if n.refCount == 1 then DropFile(s, e, p)
                else DropLink(s, e, p, n.(refCount := n.refCount - 1, atime := now, ctime := now)), Ok())
    ensures DropsOpenFile(s, name)
            <==> s.inodes[p].refCount == 1 && exists d :: 0 <= d < |s.descs| && s.descs[d].node == s.inodes[p].index
  {
  }

  lemma DropName(s: State, e: nat, p: nat, now: int)
    requires Inv(s) && e < |s.names| && p < |s.inodes| && s.names[e].node == s.inodes[p].index
    requires s.inodes[p].refCount > 1
    ensures var x := s.inodes[p].(refCount := s.inodes[p].refCount - 1, atime := now, ctime := now);
            Inv(DropLink(s, e, p, x))
  {
    var x := s.inodes[p].(refCount := s.inodes[p].refCount - 1, atime := now, ctime := now);
    assert InodeOk(s.inodes[p], s.store);
    ReplaceInodes(s.inodes, s.store, p, x);
    AddNameDescs(s.descs, s.inodes, p, x);
    DropLinkNames(s.names, s.inodes, e, p, x);
  }

  lemma DropLinkNames(names: seq<Name>, inodes: seq<Inode>, e: nat, p: nat, x: Inode)
    requires NamesOk(names, inodes) && e < |names| && p < |inodes| && names[e].node == inodes[p].index
    requires forall i, j :: 0 <= i < j < |inodes| ==> inodes[i].index < inodes[j].index
    requires x.index == inodes[p].index && x.refCount == inodes[p].refCount - 1 >= 1
    ensures NamesOk(RemoveAt(names, e), inodes[p := x])
  {
    var names', inodes' := RemoveAt(names, e), inodes[p := x];
    forall f | 0 <= f < |names'| ensures Live(inodes', names'[f].node) {
      assert names'[f] == names[if f < e then f else f + 1];
      LiveAfterReplace(inodes, p, x, names'[f].node);
    }
    forall i | 0 <= i < |inodes'| ensures inodes'[i].refCount == CountNames(names', inodes'[i].index) >= 1 {
      CountRemove(names, e, inodes'[i].index);
    }
  }

  lemma {:induction false} CountZero(names: seq<Name>, node: nat)
    requires CountNames(names, node) == 0
    ensures forall e :: 0 <= e < |names| ==> names[e].node != node
  {
    if |names| == 0 {
    } else {
      CountZero(names[..|names| - 1], node);
    }
  }

  lemma LiveAfterRemove(inodes: seq<Inode>, p: nat, node: nat)
    requires p < |inodes|
    requires forall i, j :: 0 <= i < j < |inodes| ==> inodes[i].index < inodes[j].index
    ensures Live(RemoveAt(inodes, p), node) <==> Live(inodes, node) && node != inodes[p].index
  {
    var inodes' := RemoveAt(inodes, p);
    RemovedAt(inodes, p);
    if Live(inodes', node) {
      var i :| 0 <= i < |inodes'| && inodes'[i].index == node;
      assert inodes[if i < p then i else i + 1].index == node;
    }
    if Live(inodes, node) && node != inodes[p].index {
      var i :| 0 <= i < |inodes| && inodes[i].index == node;
      assert inodes'[if i < p then i else i - 1].index == node;
    }
  }

  lemma RemovedAt<T>(s: seq<T>, p: nat)
    requires p < |s|
    ensures forall i :: 0 <= i < |s| - 1 ==> RemoveAt(s, p)[i] == s[if i < p then i else i + 1]
  {
  }

  /** Dropping the last name: the blocks of the inode are freed and nobody else's. */
  lemma DropInode(s: State, e: nat, p: nat, now: int)
    requires Inv(s) && e < |s.names| && p < |s.inodes| && s.names[e].node == s.inodes[p].index
    requires s.inodes[p].refCount == 1
    ensures Inv(DropFile(s, e, p)) <==> !exists d :: 0 <= d < |s.descs| && s.descs[d].node == s.inodes[p].index
  {
    DropInodes(s.inodes, s.store, p);
    DropNames(s.names, s.inodes, e, p);
    DropDescs(s.descs, s.inodes, p);
  }

  lemma DropDescs(descs: seq<Desc>, inodes: seq<Inode>, p: nat)
    requires DescsOk(descs, inodes) && p < |inodes|
    requires forall i, j :: 0 <= i < j < |inodes| ==> inodes[i].index < inodes[j].index
    ensures DescsOk(descs, RemoveAt(inodes, p)) <==> !exists d :: 0 <= d < |descs| && descs[d].node == inodes[p].index
  {
    var inodes' := RemoveAt(inodes, p);
    if d :| 0 <= d < |descs| && descs[d].node == inodes[p].index {
      LiveAfterRemove(inodes, p, descs[d].node);
      assert !DescOk(descs[d], inodes');
    } else {
      forall d | 0 <= d < |descs| ensures DescOk(descs[d], inodes') {
        assert DescOk(descs[d], inodes);
        LiveAfterRemove(inodes, p, descs[d].node);
      }
    }
  }

  lemma DropInodes(inodes: seq<Inode>, st: Store, p: nat)
    requires InodesOk(inodes, st) && p < |inodes|
    ensures var st' := st.(table := FreeSlots(st.table, inodes[p].slots, 0));
            && InodesOk(RemoveAt(inodes, p), st')
            && forall o :: o != inodes[p].index ==> KeepsBlocks(st, st', o)
  {
    var st' := st.(table := FreeSlots(st.table, inodes[p].slots, 0));
    assert InodeOk(inodes[p], st);
    FreeAllSlots(st, inodes[p].slots, inodes[p].index);
    assert forall b :: b in SlotBlocks(inodes[p].slots, 0, MAX_SLOTS) ==> st.table[b].owner == inodes[p].index;
    OthersOk(inodes, st, st', p);
    var inodes' := RemoveAt(inodes, p);
    forall i | 0 <= i < |inodes'| ensures InodeOk(inodes'[i], st') {
      assert inodes'[i] == inodes[if i < p then i else i + 1];
    }
  }

  lemma DropNames(names: seq<Name>, inodes: seq<Inode>, e: nat, p: nat)
    requires NamesOk(names, inodes) && e < |names| && p < |inodes| && names[e].node == inodes[p].index
    requires forall i, j :: 0 <= i < j < |inodes| ==> inodes[i].index < inodes[j].index
    requires inodes[p].refCount == 1
    ensures NamesOk(RemoveAt(names, e), RemoveAt(inodes, p))
  {
    var names', inodes' := RemoveAt(names, e), RemoveAt(inodes, p);
    CountRemove(names, e, inodes[p].index);
    CountZero(names', inodes[p].index);
    forall f | 0 <= f < |names'| ensures Live(inodes', names'[f].node) {
      assert names'[f] == names[if f < e then f else f + 1];
      LiveAfterRemove(inodes, p, names'[f].node);
    }
    forall i | 0 <= i < |inodes'| ensures inodes'[i].refCount == CountNames(names', inodes'[i].index) >= 1 {
      assert inodes'[i] == inodes[if i < p then i else i + 1];
      CountRemove(names, e, inodes'[i].index);
    }
  }
}
