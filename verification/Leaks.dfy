/**
 Allocated blocks that no inode refers to. write_inode drops the old block of every mapped
 slot it fills anew without freeing it, so "allocated" and "referenced" drift apart; here is
 by exactly how much.
 */
module Leaks {
  import opened Common
  import opened Blocks
  import opened Namespace
  import opened Invariant
  import opened Files
  import opened Runs

  ghost function BlocksOf(n: Inode): set<nat>
    requires |n.slots| == MAX_SLOTS
  {
    SlotBlocks(n.slots, 0, MAX_SLOTS)
  }

  ghost predicate Refers(inodes: seq<Inode>, b: nat) {
    exists i :: 0 <= i < |inodes| && |inodes[i].slots| == MAX_SLOTS && b in BlocksOf(inodes[i])
  }

  /** The leaked set: allocated, and not referred to by any inode. */
  ghost function Leaked(s: State): set<nat> {
    set b | b in Allocated(s.store) && !Refers(s.inodes, b)
  }

  /** The blocks an operation replaces without freeing: the mapped slots strictly after the
      first one that a write fills. Nothing else leaks. */
  ghost function Lost(s: State, op: Op): set<nat>
    requires Typed(s)
  {
    match op
    case OpWrite(fd, buf) =>
      var d := FindDesc(s.descs, fd);
      if d < |s.descs| && s.descs[d].mode != READ_ONLY && Target(s, d) < |s.inodes| then
        LostAt(s, Target(s, d), s.descs[d].off, buf)
      else {}
    case _ => {}
  }

  ghost function LostAt(s: State, p: nat, off: nat, buf: Buffer): set<nat>
    requires Typed(s) && p < |s.inodes|
  {
    var node := s.inodes[p];
    if off + |buf| > BLOCK_SIZE * MAX_SLOTS then {}
    else Replaced(node.slots, off, WriteBlocks(s.store, node.slots, node.index, off, buf).next)
  }

  // ------------------------------------------------------------------ per state change

  lemma BlocksAreTagged(n: Inode, st: Store)
    requires Linked(st, n.slots, n.index)
    ensures forall b :: b in BlocksOf(n) ==> b < NUM_BLOCKS && st.table[b] == Entry(true, n.index)
  {
  }

  /** Nothing allocated, nothing freed, nobody's slots changed. */
  lemma SameLeaks(s: State, s': State)
    requires Allocated(s'.store) == Allocated(s.store)
    requires forall b :: Refers(s'.inodes, b) <==> Refers(s.inodes, b)
    ensures Leaked(s') == Leaked(s)
  {
  }

  lemma SameRefs(inodes: seq<Inode>, inodes': seq<Inode>)
    requires |inodes| <= |inodes'|
    requires forall i :: 0 <= i < |inodes| ==> inodes'[i].slots == inodes[i].slots
    requires forall i :: |inodes| <= i < |inodes'| ==> inodes'[i].slots == NoSlots()
    ensures forall b :: Refers(inodes', b) <==> Refers(inodes, b)
  {
    forall b ensures Refers(inodes', b) <==> Refers(inodes, b) {
      if Refers(inodes', b) {
        var i :| 0 <= i < |inodes'| && |inodes'[i].slots| == MAX_SLOTS && b in BlocksOf(inodes'[i]);
        assert i < |inodes| && b in BlocksOf(inodes[i]);
      }
      if Refers(inodes, b) {
        var i :| 0 <= i < |inodes| && |inodes[i].slots| == MAX_SLOTS && b in BlocksOf(inodes[i]);
        assert b in BlocksOf(inodes'[i]);
      }
    }
  }

  /** Replacing the slots of one inode: the other inodes refer to none of its old blocks. */
  lemma RefersAfterReplace(inodes: seq<Inode>, st: Store, p: nat, x: Inode, lost: set<nat>, added: set<nat>, b: nat)
    requires InodesOk(inodes, st) && p < |inodes| && x.index == inodes[p].index && |x.slots| == MAX_SLOTS
    requires BlocksOf(x) == BlocksOf(inodes[p]) - lost + added && lost <= BlocksOf(inodes[p])
    requires added !! Allocated(st)
    ensures Refers(inodes[p := x], b) <==> (Refers(inodes, b) && b !in lost) || b in added
  {
    assert InodeOk(inodes[p], st);
    BlocksAreTagged(inodes[p], st);
    var inodes' := inodes[p := x];
    if Refers(inodes', b) {
      var i :| 0 <= i < |inodes'| && |inodes'[i].slots| == MAX_SLOTS && b in BlocksOf(inodes'[i]);
      if i != p {
        assert InodeOk(inodes[i], st);
        BlocksAreTagged(inodes[i], st);
        assert b in BlocksOf(inodes[i]);
      } else if b !in added {
        assert b in BlocksOf(inodes[p]);
      }
    }
    if b in added { assert b in BlocksOf(inodes'[p]); }
    if Refers(inodes, b) && b !in lost {
      var i :| 0 <= i < |inodes| && |inodes[i].slots| == MAX_SLOTS && b in BlocksOf(inodes[i]);
      assert b in BlocksOf(inodes'[i]);
    }
  }

  /** A write leaks exactly the blocks it replaces, whether it succeeds or not. */
  lemma WriteInodeLeaks(s: State, p: nat, off: nat, buf: Buffer)
    requires Inv(s) && p < |s.inodes| && off <= Mapped(s.inodes[p].slots) * BLOCK_SIZE
    ensures Leaked(WriteInode(s, p, off, buf).0) == Leaked(s) + LostAt(s, p, off, buf)
  {
    var node := s.inodes[p];
    var s' := WriteInode(s, p, off, buf).0;
    assert InodeOk(node, s.store);
    if off + |buf| <= BLOCK_SIZE * MAX_SLOTS {
      var lost := LostAt(s, p, off, buf);
      WriteAllocates(s.store, node.slots, node.index, off, buf);
      WriteLinked(s.store, node.slots, node.index, off, buf);
      LeaksAfterReplace(s, s', p, lost, Allocated(s'.store) - Allocated(s.store));
    } else if NewOffset(off, |buf|) <= BLOCK_SIZE * MAX_SLOTS {
      WriteWrapped(s.store, node.slots, node.index, off, buf);
      SameRefs(s.inodes, s'.inodes);
      SameLeaks(s, s');
    }
  }

  lemma LeaksAfterReplace(s: State, s': State, p: nat, lost: set<nat>, added: set<nat>)
    requires InodesOk(s.inodes, s.store) && p < |s.inodes| && |s'.inodes| == |s.inodes|
    requires s'.inodes == s.inodes[p := s'.inodes[p]]
    requires s'.inodes[p].index == s.inodes[p].index && |s'.inodes[p].slots| == MAX_SLOTS
    requires Allocated(s.store) <= Allocated(s'.store) && added == Allocated(s'.store) - Allocated(s.store)
    requires BlocksOf(s'.inodes[p]) == BlocksOf(s.inodes[p]) - lost + added && lost <= BlocksOf(s.inodes[p])
    ensures Leaked(s') == Leaked(s) + lost
  {
    assert InodeOk(s.inodes[p], s.store);
    BlocksAreTagged(s.inodes[p], s.store);
    forall b: nat ensures b in Leaked(s') <==> b in Leaked(s) || b in lost {
      RefersAfterReplace(s.inodes, s.store, p, s'.inodes[p], lost, added, b);
      assert b in lost ==> b in Allocated(s.store);
    }
  }

  /** Dropping a file frees all its blocks, so it leaks none. */
  lemma DropFileLeaks(s: State, e: nat, p: nat)
    requires Inv(s) && e < |s.names| && p < |s.inodes|
    ensures Leaked(DropFile(s, e, p)) == Leaked(s)
  {
    DropFileFrees(s, e, p);
    var s' := DropFile(s, e, p);
    forall i | 0 <= i < |s.inodes|
      ensures |s.inodes[i].slots| == MAX_SLOTS
      ensures i != p ==> |s.inodes[p].slots| == MAX_SLOTS && BlocksOf(s.inodes[p]) !! BlocksOf(s.inodes[i])
    {
      assert InodeOk(s.inodes[i], s.store);
      if i != p { OtherBlocks(s.inodes, s.store, p, i); }
    }
    forall b: nat ensures b in Leaked(s') <==> b in Leaked(s) {
      RefersAfterDrop(s.inodes, p, b);
    }
  }

  lemma RefersAfterDrop(inodes: seq<Inode>, p: nat, b: nat)
    requires p < |inodes|
    requires forall i :: 0 <= i < |inodes| ==> |inodes[i].slots| == MAX_SLOTS
    requires forall i :: 0 <= i < |inodes| && i != p ==> BlocksOf(inodes[p]) !! BlocksOf(inodes[i])
    ensures Refers(RemoveAt(inodes, p), b) <==> Refers(inodes, b) && b !in BlocksOf(inodes[p])
  {
    RemovedAt(inodes, p);
    var inodes' := RemoveAt(inodes, p);
    if Refers(inodes', b) {
      var i :| 0 <= i < |inodes'| && |inodes'[i].slots| == MAX_SLOTS && b in BlocksOf(inodes'[i]);
      assert b in BlocksOf(inodes[if i < p then i else i + 1]);
    }
    if Refers(inodes, b) && b !in BlocksOf(inodes[p]) {
      var i :| 0 <= i < |inodes| && |inodes[i].slots| == MAX_SLOTS && b in BlocksOf(inodes[i]);
      assert b in BlocksOf(inodes'[if i < p then i else i - 1]);
    }
  }

  lemma OtherBlocks(inodes: seq<Inode>, st: Store, p: nat, q: nat)
    requires InodesOk(inodes, st) && p < |inodes| && q < |inodes| && p != q
    ensures |inodes[p].slots| == |inodes[q].slots| == MAX_SLOTS && BlocksOf(inodes[p]) !! BlocksOf(inodes[q])
  {
    assert InodeOk(inodes[p], st) && InodeOk(inodes[q], st);
    BlocksAreTagged(inodes[p], st);
    BlocksAreTagged(inodes[q], st);
  }

  // ------------------------------------------------------------------ per operation

  lemma LostIs(s: State, fd: nat, buf: Buffer, d: nat)
    requires Typed(s) && d == FindDesc(s.descs, fd) < |s.descs| && s.descs[d].mode != READ_ONLY
        && Target(s, d) < |s.inodes|
    ensures Lost(s, OpWrite(fd, buf)) == LostAt(s, Target(s, d), s.descs[d].off, buf)
  {
  }

  lemma WriteLeaks(s: State, fd: nat, buf: Buffer, now: int)
    requires Inv(s)
    ensures Leaked(Write(s, fd, buf, now).0) == Leaked(s) + Lost(s, OpWrite(fd, buf))
  {
    var d := FindDesc(s.descs, fd);
    if d < |s.descs| && s.descs[d].mode != READ_ONLY {
      TargetLive(s, d);
      WriteIsAt(s, fd, buf, now, d);
      LostIs(s, fd, buf, d);
      WriteAtLeaks(s, d, Target(s, d), buf, now);
    }
  }

  lemma WriteAtLeaks(s: State, d: nat, p: nat, buf: Buffer, now: int)
    requires Inv(s) && d < |s.descs| && p < |s.inodes| && s.inodes[p].index == s.descs[d].node
    ensures Leaked(WriteAt(s, d, p, buf, now).0) == Leaked(s) + LostAt(s, p, s.descs[d].off, buf)
  {
    var x := s.inodes[p].(atime := now, mtime := now);
    var s1 := SetInode(s, p, x);
    var s2 := WriteInode(s1, p, s.descs[d].off, buf).0;
    assert InodeOk(s.inodes[p], s.store);
    assert DescOk(s.descs[d], s.inodes);
    TouchInode(s, p, x);
    SameRefs(s.inodes, s1.inodes);
    SameLeaks(s, s1);
    WriteInodeLeaks(s1, p, s.descs[d].off, buf);
    assert WriteAt(s, d, p, buf, now).0.store == s2.store && WriteAt(s, d, p, buf, now).0.inodes == s2.inodes;
  }

  lemma SoftLinkLeaks(s: State, uid: nat, gid: nat, mode: int, name: string, link: string, now: int)
    requires Inv(s)
    ensures Leaked(SoftLink(s, uid, gid, mode, name, link, now).0) == Leaked(s)
  {
    var p := FindInode(s.inodes, LookupOrZero(s.names, name));
    if p < |s.inodes| && !Taken(s.names, link) {
      var s1 := SymlinkEntry(s, uid, gid, mode, p, link, now);
      CreateUnfold(s, uid, gid, mode, name, link, now, p);
      EntryIs(s, uid, gid, mode, p, link, now);
      assert InodeOk(s.inodes[p], s.store);
      EnteredLeaks(s, s1, p, link);
      CopyLeaks(s1, s.inodes[p].slots, s.inodes[p].size);
    }
  }

  lemma CreateUnfold(s: State, uid: nat, gid: nat, mode: int, name: string, link: string, now: int, p: nat)
    requires Typed(s) && p == FindInode(s.inodes, LookupOrZero(s.names, name)) < |s.inodes|
    ensures SoftLink(s, uid, gid, mode, name, link, now).0 == s
         || SoftLink(s, uid, gid, mode, name, link, now).0
            == SoftLinkCopy(SymlinkEntry(s, uid, gid, mode, p, link, now), s.inodes[p].slots, s.inodes[p].size).0
  {
  }

  lemma EnteredLeaks(s: State, s1: State, p: nat, link: string)
    requires p < |s.inodes| && Entered(s, s1, p, link)
    ensures Leaked(s1) == Leaked(s)
  {
    SameRefs(s.inodes, s1.inodes);
    SameLeaks(s, s1);
  }

  lemma CopyLeaks(s: State, slots: seq<nat>, n: nat)
    requires Inv(s) && |s.inodes| > 0 && s.inodes[|s.inodes| - 1].slots == NoSlots() && SlotsInRange(slots)
    ensures Leaked(SoftLinkCopy(s, slots, n).0) == Leaked(s)
  {
    var c, data := |s.inodes| - 1, ReadLoop(s.store, slots, 0, n).data;
    var s' := SoftLinkCopy(s, slots, n).0;
    assert s' == s || (|data| < U32 && s' == WriteInode(s, c, 0, data).0);
    if s' != s {
      WriteInodeLeaks(s, c, 0, data);
      assert LostAt(s, c, 0, data) == {};
    }
  }

  lemma UnlinkLeaks(s: State, name: string, now: int)
    requires Inv(s)
    ensures Leaked(Unlink(s, name, now).0) == Leaked(s)
  {
    var e := FindName(s.names, name);
    if e < |s.names| {
      var p := FindInode(s.inodes, s.names[e].node);
      assert Live(s.inodes, s.names[e].node);
      UnlinkUnfold(s, name, now, e, p);
      if s.inodes[p].refCount == 1 {
        DropFileLeaks(s, e, p);
      } else {
        var s' := Unlink(s, name, now).0;
        SameRefs(s.inodes, s'.inodes);
        SameLeaks(s, s');
      }
    }
  }

  lemma QuietLeaks(s: State, op: Op, now: int)
    requires Typed(s) && !op.OpWrite? && !op.OpUnlink? && !op.OpSymlink?
    ensures Leaked(Apply(s, op, now).0) == Leaked(s)
  {
    var s' := Apply(s, op, now).0;
    QuietStep(s, op, now);
    assert forall i :: |s.inodes| <= i < |s'.inodes| ==> s'.inodes[i].slots == NoSlots();
    SameRefs(s.inodes, s'.inodes);
    SameLeaks(s, s');
  }

  /** One operation adds to the leaked set exactly the blocks it replaces, and never removes
      a block from it: a leaked block stays leaked for ever. */
  lemma StepLeaks(s: State, op: Op, now: int)
    requires Inv(s)
    ensures Leaked(Apply(s, op, now).0) == Leaked(s) + Lost(s, op)
  {
    match op
    case OpWrite(fd, buf) => WriteLeaks(s, fd, buf, now);
    case OpUnlink(name) => UnlinkLeaks(s, name, now);
    case OpSymlink(uid, gid, mode, name, link) => SoftLinkLeaks(s, uid, gid, mode, name, link, now);
    case _ => QuietLeaks(s, op, now);
  }

  /** A write that starts in the last mapped block or right behind it replaces nothing. */
  lemma AppendLosesNothing(s: State, p: nat, off: nat, buf: Buffer)
    requires Inv(s) && p < |s.inodes|
    requires off / BLOCK_SIZE + 1 >= Mapped(s.inodes[p].slots)
    ensures LostAt(s, p, off, buf) == {}
  {
    assert InodeOk(s.inodes[p], s.store);
  }

  /** Exactly when a write that fits replaces nothing: it ends in the block it starts in, or it
      starts in the last mapped block or right behind it. */
  lemma LosesNothingIff(s: State, p: nat, off: nat, buf: Buffer)
    requires Inv(s) && p < |s.inodes| && off <= Mapped(s.inodes[p].slots) * BLOCK_SIZE
    requires off + |buf| <= BLOCK_SIZE * MAX_SLOTS && SlotsInRange(s.inodes[p].slots)
    requires Fits(s.inodes[p].slots, off, |buf|, s.store)
    ensures LostAt(s, p, off, buf) == {}
            <==> CeilDiv(off + |buf|, BLOCK_SIZE) <= off / BLOCK_SIZE + 1
                 || Mapped(s.inodes[p].slots) <= off / BLOCK_SIZE + 1
  {
    var node := s.inodes[p];
    assert InodeOk(node, s.store);
    WriteSucceedsIff(s.store, node.slots, node.index, off, buf);
    WriteEnds(s.store, node.slots, node.index, off, buf);
    var i, total := off / BLOCK_SIZE + 1, CeilDiv(off + |buf|, BLOCK_SIZE);
    if i < total {
      if i < Mapped(node.slots) {
        assert node.slots[i] - 1 in SlotBlocks(node.slots, i, total);
      } else {
        assert SlotBlocks(node.slots, i, total) == {};
      }
    }
  }

  lemma WriteEnds(st: Store, slots: seq<nat>, owner: nat, off: nat, buf: seq<Byte>)
    requires Linked(st, slots, owner) && off <= Mapped(slots) * BLOCK_SIZE
    requires off + |buf| <= BLOCK_SIZE * MAX_SLOTS && WriteBlocks(st, slots, owner, off, buf).ok
    ensures WriteBlocks(st, slots, owner, off, buf).next == CeilDiv(off + |buf|, BLOCK_SIZE)
  {
    if InPlace(slots, off, |buf|) {
      UnfoldInPlace(st, slots, owner, off, buf);
    } else {
      UnfoldFresh(st, slots, owner, off, buf);
    }
  }

  /** What the first i operations have replaced. */
  ghost function LostSoFar(states: seq<State>, events: seq<Event>, i: nat): set<nat>
    requires IsRun(states, events) && i <= |events|
  {
    if i == 0 then {}
    else
      assert Step(states[i - 1], events[i - 1], states[i]);
      LostSoFar(states, events, i - 1) + Lost(states[i - 1], events[i - 1].op)
  }

  /** Over any safe run the leaked set grows by exactly what the operations have replaced. */
  lemma {:induction false} RunLeaks(states: seq<State>, events: seq<Event>, i: nat)
    requires IsRun(states, events) && i <= |events|
    requires Inv(states[0]) && AllSafe(states, events)
    ensures Leaked(states[i]) == Leaked(states[0]) + LostSoFar(states, events, i)
  {
    if i == 0 {
    } else {
      var s, e := states[i - 1], events[i - 1];
      assert Step(s, e, states[i]);
      RunLeaks(states, events, i - 1);
      RunInv(states, events, i - 1);
      StepLeaks(s, e.op, e.now);
    }
  }

  /** The write, if it is one, starts in the last mapped block of its file or behind it. */
  predicate Appends(s: State, op: Op) {
    op.OpWrite? ==>
      var d := FindDesc(s.descs, op.fd);
      d < |s.descs| && Target(s, d) < |s.inodes| ==>
        s.descs[d].off / BLOCK_SIZE + 1 >= Mapped(s.inodes[Target(s, d)].slots)
  }

  ghost predicate AppendOnly(states: seq<State>, events: seq<Event>)
    requires |states| == |events| + 1
  {
    forall j :: 0 <= j < |events| ==> Appends(states[j], events[j].op)
  }

  lemma {:induction false} AppendsLoseNothing(states: seq<State>, events: seq<Event>, i: nat)
    requires IsRun(states, events) && i <= |events|
    requires Inv(states[0]) && AllSafe(states, events) && AppendOnly(states, events)
    ensures LostSoFar(states, events, i) == {}
  {
    if i == 0 {
    } else {
      var s, op := states[i - 1], events[i - 1].op;
      assert Step(s, events[i - 1], states[i]) && Appends(s, op);
      AppendsLoseNothing(states, events, i - 1);
      RunInv(states, events, i - 1);
      AppendLost(s, op);
    }
  }

  lemma AppendLost(s: State, op: Op)
    requires Inv(s) && Appends(s, op)
    ensures Lost(s, op) == {}
  {
    if op.OpWrite? {
      var d := FindDesc(s.descs, op.fd);
      if d < |s.descs| && Target(s, d) < |s.inodes| { AppendLosesNothing(s, Target(s, d), s.descs[d].off, op.buf); }
    }
  }

  /** Over any safe run of appending writes, and any other operations, the allocated blocks are
      exactly the referenced ones, if they were at the start. */
  lemma RunLeaksNothing(states: seq<State>, events: seq<Event>, i: nat)
    requires IsRun(states, events) && i <= |events|
    requires Inv(states[0]) && AllSafe(states, events) && AppendOnly(states, events) && Leaked(states[0]) == {}
    ensures Leaked(states[i]) == {}
    ensures forall b :: b in Allocated(states[i].store) <==> Refers(states[i].inodes, b)
  {
    RunLeaks(states, events, i);
    AppendsLoseNothing(states, events, i);
    RunInv(states, events, i);
    NoLeakMeansReferenced(states[i]);
  }

  lemma NoLeakMeansReferenced(s: State)
    requires Inv(s) && Leaked(s) == {}
    ensures forall b :: b in Allocated(s.store) <==> Refers(s.inodes, b)
  {
    forall b ensures b in Allocated(s.store) <==> Refers(s.inodes, b) {
      assert b in Leaked(s) <==> b in Allocated(s.store) && !Refers(s.inodes, b);
      if Refers(s.inodes, b) {
        var i :| 0 <= i < |s.inodes| && |s.inodes[i].slots| == MAX_SLOTS && b in BlocksOf(s.inodes[i]);
        assert InodeOk(s.inodes[i], s.store);
        BlocksAreTagged(s.inodes[i], s.store);
      }
    }
  }
}
