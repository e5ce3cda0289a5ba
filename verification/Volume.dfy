/**
 service/inode.c as it is written: linked lists of inodes, filenames and descriptors, walked and
 updated through pointers, and block loops over the table and the blocks. Every method is proved
 equal to the function of Namespace or Blocks that specifies it. Unlink, which forgets to write
 back the list heads, leaves the lists well formed exactly when it keeps the heads.
 */
module Volume {
  import opened Common
  import opened Blocks
  import opened Namespace
  import opened Runs
  import opened LinkedList

  /** One iteration of the loop in write_inode, on values. */
  function StoreSpec(st: Store, slots: seq<nat>, owner: nat, i: nat, first: bool, at: nat, rest: seq<Byte>)
    : (Option<(Store, nat)>, nat)
    requires Sized(st) && SlotsInRange(slots) && i < |slots| && at < BLOCK_SIZE
  {
    if first && slots[i] != 0 then
      var w, b := Min(|rest|, BLOCK_SIZE - at), slots[i] - 1;
      (Some((st.(disk := st.disk[b := Patch(st.disk[b], at, rest[..w])]), slots[i])), w)
    else
      var w := Min(|rest|, BLOCK_SIZE);
      (Occupy(st, owner, rest[..w]), w)
  }

  /** What the loop still computes when it is about to do slot i. */
  ghost function LoopSpec(st: Store, slots: seq<nat>, owner: nat, rest: seq<Byte>, i: nat, total: nat,
                          first: bool, at: nat): Written
    requires Sized(st) && SlotsInRange(slots) && total <= |slots| && at < BLOCK_SIZE
  {
    if i < total && first && slots[i] != 0 then
      var (r, w) := StoreSpec(st, slots, owner, i, first, at, rest);
      FreshLoop(r.value.0, slots, owner, rest[w..], i + 1, total)
    else
      FreshLoop(st, slots, owner, rest, if i < total then i else total, total)
  }

  lemma StartSpec(st: Store, slots: seq<nat>, owner: nat, off: nat, buf: seq<Byte>)
    requires Sized(st) && SlotsInRange(slots) && NewOffset(off, |buf|) <= BLOCK_SIZE * MAX_SLOTS
    ensures WriteBlocks(st, slots, owner, off, buf)
         == LoopSpec(st, slots, owner, buf, off / BLOCK_SIZE, CeilDiv(NewOffset(off, |buf|), BLOCK_SIZE),
                     true, off % BLOCK_SIZE)
  {
  }

  lemma LoopStep(st: Store, slots: seq<nat>, owner: nat, rest: seq<Byte>, i: nat, total: nat, first: bool, at: nat)
    requires Sized(st) && SlotsInRange(slots) && i < total <= |slots| && at < BLOCK_SIZE
    ensures var (r, w) := StoreSpec(st, slots, owner, i, first, at, rest);
            LoopSpec(st, slots, owner, rest, i, total, first, at)
            == match r
               case None => Written(st, slots, i, |rest|, false)
               case Some((st', addr)) => LoopSpec(st', slots[i := addr], owner, rest[w..], i + 1, total, false, at)
  {
    var (r, w) := StoreSpec(st, slots, owner, i, first, at, rest);
    if first && slots[i] != 0 { assert slots[i := slots[i]] == slots; }
  }

  function Prepend(front: seq<Byte>, r: ReadOut): ReadOut {
    r.(data := front + r.data)
  }

  /** One iteration of read_inode. */
  lemma ReadOne(st: Store, slots: seq<nat>, off: nat, n: nat, front: seq<Byte>, block: nat, at: nat, w: nat,
                piece: seq<Byte>)
    requires Sized(st) && SlotsInRange(slots) && n > 0
    requires block == off / BLOCK_SIZE < MAX_SLOTS && slots[block] != 0
    requires at == off % BLOCK_SIZE && w == Min(n, BLOCK_SIZE - at) && piece == st.disk[slots[block] - 1][at..at + w]
    ensures Prepend(front, ReadLoop(st, slots, off, n)) == Prepend(front + piece, ReadLoop(st, slots, off + w, n - w))
    ensures n - w > 0 ==> block + 1 == (off + w) / BLOCK_SIZE
  {
    Assoc(front, piece, ReadLoop(st, slots, off + w, n - w).data);
  }

  // ------------------------------------------------------------------ walks as searches

  lemma FindIsInode(items: seq<Inode>, index: nat, i: nat)
    requires i <= |items| && (i < |items| ==> items[i].index == index)
    requires forall j :: 0 <= j < i ==> items[j].index != index
    ensures i == FindInode(items, index)
  {
  }

  lemma FindIsName(items: seq<Name>, name: string, i: nat)
    requires i <= |items| && (i < |items| ==> items[i].name == name)
    requires forall j :: 0 <= j < i ==> items[j].name != name
    ensures i == FindName(items, name)
  {
  }

  lemma FindIsDesc(items: seq<Desc>, fd: nat, i: nat)
    requires i <= |items| && (i < |items| ==> items[i].fd == fd)
    requires forall j :: 0 <= j < i ==> items[j].fd != fd
    ensures i == FindDesc(items, fd)
  {
  }

  // ------------------------------------------------------------------ operations as list updates

  lemma OpenIs(s: State, name: string, mode: nat, now: int, p: nat, s1: State, s2: State)
    requires p == FindInode(s.inodes, LookupOrZero(s.names, name)) < |s.inodes|
    requires !OpenedForWrite(s.descs, LookupOrZero(s.names, name))
    requires s1 == s.(descs := s.descs + [Desc(NextFd(s.descs), mode, 0, LookupOrZero(s.names, name))])
    requires s2 == SetInode(s1, p, s.inodes[p].(atime := now))
    ensures OpenInode(s, name, mode, now) == (s2, Reply(Success, NextFd(s.descs), []))
  {
  }

  lemma LinkIs(s: State, name: string, link: string, now: int, p: nat, s1: State, s2: State)
    requires p == FindInode(s.inodes, LookupOrZero(s.names, name)) < |s.inodes| && !Taken(s.names, link)
    requires s1 == s.(names := s.names + [Name(s.inodes[p].index, link)])
    requires s2 == SetInode(s1, p, s.inodes[p].(refCount := s.inodes[p].refCount + 1, atime := now, ctime := now))
    ensures HardLink(s, name, link, now) == (s2, Ok())
  {
  }

  lemma UnlinkIs(s: State, name: string, now: int, e: nat, p: nat, s1: State, s2: State)
    requires Typed(s) && e == FindName(s.names, name) < |s.names|
    requires p == FindInode(s.inodes, LookupOrZero(s.names, name)) < |s.inodes|
    requires var n := s.inodes[p];
             if n.refCount == 1
             then s1 == s.(inodes := RemoveAt(s.inodes, p),
                 store := s.store.(table := FreeSlots(s.store.table, n.slots, 0)))
             else s1 == SetInode(s, p, n.(refCount := Decremented(n.refCount), atime := now, ctime := now))
    requires s2 == s1.(names := RemoveAt(s1.names, e))
    ensures Unlink(s, name, now) == (s2, Ok())
    ensures KeepsHeads(s, OpUnlink(name)) <==> e != 0 && (s.inodes[p].refCount == 1 ==> p != 0)
  {
  }

  /** An unsigned counter: below zero it wraps. */
  function Decremented(count: nat): nat {
    if count == 0 then U32 - 1 else count - 1
  }

  /** The access time of inode p is set, and the last inode gets its first name. */
  ghost function Entered(s: State, p: nat, now: int): State
    requires p < |s.inodes|
  {
    var s1 := SetInode(s, p, s.inodes[p].(atime := now));
    var c := |s.inodes| - 1;
    SetInode(s1, c, s1.inodes[c].(refCount := s1.inodes[c].refCount + 1))
  }

  lemma EntryIs(s: State, uid: nat, gid: nat, mode: int, p: nat, link: string, now: int, s1: State, s2: State)
    requires p < |s.inodes| && s1 == AddFile(s, NewInode(s.inodes, Symlink, uid, gid, 0, mode, now), link)
    requires s2 == Entered(s1, p, now)
    ensures s2 == SymlinkEntry(s, uid, gid, mode, p, link, now)
  {
  }

  ghost predicate SlotsOk(nodes: seq<Node<Inode>>)
    reads nodes
  {
    forall i :: 0 <= i < |nodes| ==> SlotsInRange(nodes[i].item.slots)
  }

  /** The head is a node that is not in the list. */
  ghost predicate Dangles<T(!new)>(l: List<T>)
    reads l
  {
    l.head != null && l.head !in l.nodes
  }

  /** After the removal of entry e: the list is well formed, unless the head was removed. */
  ghost predicate NameDropped(names: List<Name>, e: nat)
    reads names, names.nodes
  {
    && (names.Valid() <==> e != 0)
    && (e == 0 ==> Dangles(names))
  }

  /** The replies are those of the operations in the states of the run. */
  ghost predicate Answered(states: seq<State>, events: seq<Event>, replies: seq<Reply>) {
    && |replies| == |events| < |states|
    && forall i :: 0 <= i < |events| ==>
       Typed(states[i]) && replies[i] == Apply(states[i], events[i].op, events[i].now).1
  }

  lemma OneAnswer(states: seq<State>, events: seq<Event>, replies: seq<Reply>, i: nat, reply: Reply)
    requires i < |events| < |states| && Answered(states, events[..i], replies) && Typed(states[i])
    requires reply == Apply(states[i], events[i].op, events[i].now).1
    ensures Answered(states, events[..i + 1], replies + [reply])
    ensures HeadLost(states, events, i + 1) <==> HeadLost(states, events, i) || !KeepsHeads(states[i], events[i].op)
  {
    assert forall j :: 0 <= j < i ==> events[..i + 1][j] == events[..i][j];
  }

  class Volume {
    const inodes: List<Inode>
    const names: List<Name>
    const descs: List<Desc>
    const table: array<Entry>
    const disk: array<Block>

    ghost predicate ArraysOk() {
      table.Length == disk.Length == NUM_BLOCKS && (table as object) != (disk as object)
    }

    ghost predicate Valid()
      reads this, inodes, names, descs, inodes.nodes, names.nodes, descs.nodes
    {
      ArraysOk() && inodes.Valid() && names.Valid() && descs.Valid() && SlotsOk(inodes.nodes)
    }

    /** What is left of Valid when a head has been lost: the nodes are chained. */
    ghost predicate Linked()
      reads this, inodes, names, descs, inodes.nodes, names.nodes, descs.nodes
    {
      ArraysOk() && Chain(inodes.nodes) && Chain(names.nodes) && descs.Valid() && SlotsOk(inodes.nodes)
    }

    ghost function St(): (st: Store)
      reads this, table, disk
    {
      Store(table[..], disk[..])
    }

    ghost function Now(): (s: State)
      reads this, inodes, names, descs, inodes.nodes, names.nodes, descs.nodes, table, disk
      ensures ArraysOk() && SlotsOk(inodes.nodes) ==> Typed(s)
    {
      State(inodes.Contents(), names.Contents(), descs.Contents(), St())
    }

    constructor ()
      ensures Valid() && fresh(inodes) && fresh(names) && fresh(descs) && fresh(table) && fresh(disk)
      ensures Now() == State([], [], [], Store(seq(NUM_BLOCKS, _ => Entry(false, 0)), disk[..]))
    {
      inodes := new List<Inode>();
      names := new List<Name>();
      descs := new List<Desc>();
      table := new Entry[NUM_BLOCKS](_ => Entry(false, 0));
      disk := new Block[NUM_BLOCKS](_ => seq(BLOCK_SIZE, _ => 0));
      new;
      assert table[..] == seq(NUM_BLOCKS, _ => Entry(false, 0));
    }

    // ---------------------------------------------------------------- list walks

    method WalkInodes(index: nat) returns (node: Node?<Inode>, ghost p: nat)
      requires inodes.Valid()
      ensures p == FindInode(inodes.Contents(), index)
      ensures node == if p < |inodes.nodes| then inodes.nodes[p] else null
    {
      node, p := inodes.Seek((n: Inode) => n.index == index);
      FindIsInode(inodes.Contents(), index, p);
    }

    method WalkNames(name: string) returns (node: Node?<Name>, ghost p: nat)
      requires names.Valid()
      ensures p == FindName(names.Contents(), name)
      ensures node == if p < |names.nodes| then names.nodes[p] else null
    {
      node, p := names.Seek((n: Name) => n.name == name);
      FindIsName(names.Contents(), name, p);
    }

    method WalkDescs(fd: nat) returns (node: Node?<Desc>, ghost p: nat)
      requires descs.Valid()
      ensures p == FindDesc(descs.Contents(), fd)
      ensures node == if p < |descs.nodes| then descs.nodes[p] else null
    {
      node, p := descs.Seek((d: Desc) => d.fd == fd);
      FindIsDesc(descs.Contents(), fd, p);
    }

    /** get_inode_index_for_filename, leaving the caller's zero for a miss. */
    method LookupName(name: string) returns (found: bool, index: nat)
      requires names.Valid()
      ensures found == Taken(names.Contents(), name)
      ensures index == LookupOrZero(names.Contents(), name)
    {
      var node, p := WalkNames(name);
      if node == null { return false, 0; }
      return true, node.item.node;
    }

    method LookForOpenedWrite(index: nat) returns (found: bool)
      requires descs.Valid()
      ensures found == OpenedForWrite(descs.Contents(), index)
    {
      var node, p := descs.Seek((d: Desc) => d.node == index && d.mode == WRITE_ONLY);
      return node != null;
    }

    // ---------------------------------------------------------------- list updates

    method SetInodeAt(inode: Node<Inode>, ghost p: nat, x: Inode)
      requires Valid() && p < |inodes.nodes| && inode == inodes.nodes[p] && SlotsInRange(x.slots)
      modifies inode`item
      ensures Valid() && Now() == SetInode(old(Now()), p, x) && inode.item == x
    {
      inodes.Set(inode, p, x);
      assert names.Contents() == old(names.Contents()) && descs.Contents() == old(descs.Contents());
    }

    method SetDescAt(desc: Node<Desc>, ghost d: nat, x: Desc)
      requires Valid() && d < |descs.nodes| && desc == descs.nodes[d]
      modifies desc`item
      ensures Valid() && Now() == old(Now()).(descs := old(Now()).descs[d := x]) && desc.item == x
    {
      descs.Set(desc, d, x);
      assert names.Contents() == old(names.Contents()) && inodes.Contents() == old(inodes.Contents());
    }

    method SetNameAt(entry: Node<Name>, ghost e: nat, x: Name)
      requires Valid() && e < |names.nodes| && entry == names.nodes[e]
      modifies entry`item
      ensures Valid() && Now() == old(Now()).(names := old(Now()).names[e := x])
    {
      names.Set(entry, e, x);
      assert descs.Contents() == old(descs.Contents()) && inodes.Contents() == old(inodes.Contents());
    }

    /** add_inode. */
    method AddInode(kind: FileKind, uid: nat, gid: nat, refs: nat, mode: int, now: int) returns (node: Node<Inode>)
      requires Valid()
      modifies inodes, inodes.nodes
      ensures Valid() && fresh(node) && inodes.nodes == old(inodes.nodes) + [node]
      ensures node.item == NewInode(old(Now()).inodes, kind, uid, gid, refs, mode, now)
      ensures Now() == old(Now()).(inodes := old(Now()).inodes + [node.item])
    {
      var last := inodes.Last();
      var index := if last == null then 0 else last.item.index + 1;
      node := inodes.Append(last, Inode(index, kind, uid, gid, refs, mode, 0, now, now, now, NoSlots()));
      assert names.Contents() == old(names.Contents()) && descs.Contents() == old(descs.Contents());
    }

    /** add_filename_to_table, for a name that its callers have found to be free. */
    method AddName(name: string, index: nat)
      requires Valid()
      modifies names, names.nodes
      ensures Valid() && |names.nodes| == |old(names.nodes)| + 1
          && names.nodes[..|old(names.nodes)|] == old(names.nodes)
      ensures fresh(names.nodes[|old(names.nodes)|])
      ensures Now() == old(Now()).(names := old(Now()).names + [Name(index, name)])
    {
      var last := names.Last();
      var node := names.Append(last, Name(index, name));
    }

    /** add_opened_descriptor. */
    method AddDesc(mode: nat, index: nat) returns (fd: nat)
      requires Valid()
      modifies descs, descs.nodes
      ensures Valid() && |descs.nodes| == |old(descs.nodes)| + 1
          && descs.nodes[..|old(descs.nodes)|] == old(descs.nodes)
      ensures fresh(descs.nodes[|old(descs.nodes)|])
      ensures fd == NextFd(old(Now()).descs)
      ensures Now() == old(Now()).(descs := old(Now()).descs + [Desc(fd, mode, 0, index)])
    {
      var last := descs.Last();
      fd := if last == null then 0 else last.item.fd + 1;
      var node := descs.Append(last, Desc(fd, mode, 0, index));
    }

    /** A new inode and its first name. */
    method AddEntry(kind: FileKind, uid: nat, gid: nat, refs: nat, mode: int, name: string, now: int)
      returns (node: Node<Inode>)
      requires Valid()
      modifies inodes, inodes.nodes, names, names.nodes
      ensures Valid() && fresh(node) && inodes.nodes == old(inodes.nodes) + [node]
      ensures node.item == NewInode(old(Now()).inodes, kind, uid, gid, refs, mode, now)
      ensures Now() == AddFile(old(Now()), node.item, name)
      ensures fresh(NodeSet(names.nodes) - old(NodeSet(names.nodes)))
    {
      node := AddInode(kind, uid, gid, refs, mode, now);
      AddName(name, node.item.index);
    }

    // ---------------------------------------------------------------- blocks

    /** occupy_block_table_slot, writing the block at its own place. */
    method OccupySlot(owner: nat, data: seq<Byte>) returns (ok: bool, slot: nat)
      requires ArraysOk() && |data| <= BLOCK_SIZE
      modifies table, disk
      ensures match Occupy(old(St()), owner, data)
              case None => !ok && St() == old(St())
              case Some((st, addr)) => ok && slot == addr && St() == st
    {
      var i := 0;
      while i < NUM_BLOCKS
        invariant 0 <= i <= NUM_BLOCKS
        invariant St() == old(St())
        invariant FirstFree(table[..], 0) == FirstFree(table[..], i)
      {
        if !table[i].used {
          assert FirstFree(table[..], 0) == i;
          table[i] := Entry(true, owner);
          disk[i] := Pad(data);
          assert table[..] == old(table[..])[i := Entry(true, owner)];
          assert disk[..] == old(disk[..])[i := Pad(data)];
          return true, i + 1;
        }
        i := i + 1;
      }
      return false, 0;
    }

    /** update_block_table_slot; block numbers come from slots, so the range check passes. */
    method UpdateSlot(b: nat, at: nat, data: seq<Byte>)
      requires ArraysOk() && b < NUM_BLOCKS && at + |data| <= BLOCK_SIZE
      modifies disk
      ensures St() == old(St()).(disk := old(St()).disk[b := Patch(old(St()).disk[b], at, data)])
    {
      disk[b] := Patch(disk[b], at, data);
      assert disk[..] == old(disk[..])[b := Patch(old(disk[b]), at, data)];
    }

    /** The body of the loop in write_inode for slot i: either the mapped first block is
        updated in place, or a new block is allocated for the slot. */
    method StoreBlock(inode: Node<Inode>, i: nat, first: bool, at: nat, rest: seq<Byte>) returns (ok: bool, w: nat)
      requires ArraysOk() && SlotsInRange(inode.item.slots) && i < MAX_SLOTS && at < BLOCK_SIZE
      modifies inode`item, table, disk
      ensures SlotsInRange(inode.item.slots) && w <= |rest|
      ensures var n := old(inode.item);
              var (r, w') := StoreSpec(old(St()), n.slots, n.index, i, first, at, rest);
              match r
              case None => !ok && St() == old(St()) && inode.item == n
              case Some((st, addr)) => ok && w == w' && St() == st && inode.item == n.(slots := n.slots[i := addr])
    {
      var n := inode.item;
      if first && n.slots[i] != 0 {
        w := Min(|rest|, BLOCK_SIZE - at);
        UpdateSlot(n.slots[i] - 1, at, rest[..w]);
        assert n.slots[i := n.slots[i]] == n.slots;
        return true, w;
      } else {
        w := Min(|rest|, BLOCK_SIZE);
        var took, slot := OccupySlot(n.index, rest[..w]);
        if took { inode.item := n.(slots := n.slots[i := slot]); }
        return took, w;
      }
    }

    /** StoreBlock seen from the loop: it takes what is left to compute one slot further. */
    method StoreNext(inode: Node<Inode>, i: nat, ghost total: nat, first: bool, at: nat, rest: seq<Byte>,
                     ghost r: Written)
      returns (ok: bool, w: nat)
      requires ArraysOk() && SlotsInRange(inode.item.slots) && i < total <= MAX_SLOTS && at < BLOCK_SIZE
      requires r == LoopSpec(St(), inode.item.slots, inode.item.index, rest, i, total, first, at)
      modifies inode`item, table, disk
      ensures SlotsInRange(inode.item.slots) && w <= |rest|
      ensures inode.item == old(inode.item).(slots := inode.item.slots)
      ensures ok ==> r == LoopSpec(St(), inode.item.slots, inode.item.index, rest[w..], i + 1, total, false, at)
      ensures !ok ==> St() == r.st && inode.item.slots == r.slots && !r.ok
    {
      LoopStep(St(), inode.item.slots, inode.item.index, rest, i, total, first, at);
      ok, w := StoreBlock(inode, i, first, at, rest);
    }

    /** The loop of write_inode over the slots cur .. total; `at` is the offset in the first block. */
    method WriteLoop(inode: Node<Inode>, cur: nat, total: nat, at: nat, buf: seq<Byte>, ghost r: Written)
      returns (ok: bool)
      requires ArraysOk() && SlotsInRange(inode.item.slots) && total <= MAX_SLOTS && at < BLOCK_SIZE
      requires r == LoopSpec(St(), inode.item.slots, inode.item.index, buf, cur, total, true, at)
      modifies inode`item, table, disk
      ensures SlotsInRange(inode.item.slots) && ok == r.ok && St() == r.st
      ensures inode.item == old(inode.item).(slots := r.slots)
    {
      var copied := 0;
      var i := cur;
      assert buf[0..] == buf;
      while i < total
        invariant cur <= i && (i <= total || i == cur) && copied <= |buf|
        invariant SlotsInRange(inode.item.slots)
        invariant inode.item == old(inode.item).(slots := inode.item.slots)
        invariant r == LoopSpec(St(), inode.item.slots, inode.item.index, buf[copied..], i, total, i == cur, at)
      {
        var rest := buf[copied..];
        var took, w := StoreNext(inode, i, total, i == cur, at, rest, r);
        if !took { return false; }
        assert rest[w..] == buf[copied + w..];
        copied := copied + w;
        i := i + 1;
      }
      return true;
    }

    /** write_inode on one inode. */
    method WriteNode(inode: Node<Inode>, off: nat, buf: Buffer) returns (ok: bool)
      requires ArraysOk() && SlotsInRange(inode.item.slots)
      modifies inode`item, table, disk
      ensures SlotsInRange(inode.item.slots)
      ensures var n, end := old(inode.item), NewOffset(off, |buf|);
              if end > BLOCK_SIZE * MAX_SLOTS then !ok && inode.item == n && St() == old(St())
              else
                var w := WriteBlocks(old(St()), n.slots, n.index, off, buf);
                && ok == w.ok && St() == w.st
                && inode.item == n.(slots := w.slots, size := if w.ok then end else n.size)
    {
      var end := NewOffset(off, |buf|);
      if end > BLOCK_SIZE * MAX_SLOTS { return false; }
      ghost var n := inode.item;
      ghost var r := WriteBlocks(St(), n.slots, n.index, off, buf);
      ok := WriteLoop(inode, off / BLOCK_SIZE, CeilDiv(end, BLOCK_SIZE), off % BLOCK_SIZE, buf, r) by {
        StartSpec(St(), n.slots, n.index, off, buf);
      }
      if ok { inode.item := inode.item.(size := end); }
    }

    /** write_inode on the inode at position p of the list. */
    method WriteInodeAt(inode: Node<Inode>, ghost p: nat, off: nat, buf: Buffer) returns (ok: bool)
      requires Valid() && p < |inodes.nodes| && inode == inodes.nodes[p]
      modifies inode`item, table, disk
      ensures Valid()
      ensures Now() == WriteInode(old(Now()), p, off, buf).0 && ok == WriteInode(old(Now()), p, off, buf).1
    {
      ghost var items := inodes.Contents();
      ok := WriteNode(inode, off, buf);
      forall j: nat | j < |inodes.nodes| ensures Placed(inodes.nodes, j) {
        assert old(Placed(inodes.nodes, j));
      }
      assert inodes.Contents() == items[p := inode.item];
    }

    /** read_block_table_slot. */
    method ReadSlot(b: nat, at: nat, w: nat) returns (piece: seq<Byte>)
      requires ArraysOk() && b < NUM_BLOCKS && at + w <= BLOCK_SIZE
      ensures piece == St().disk[b][at..at + w]
    {
      piece := disk[b][at..at + w];
    }

    /** read_inode, with the block counter it keeps next to the moving offset. */
    method ReadNode(inode: Node<Inode>, off: nat, n: nat) returns (ok: bool, data: seq<Byte>, off': nat)
      requires ArraysOk() && SlotsInRange(inode.item.slots)
      ensures var r := ReadLoop(St(), inode.item.slots, off, n);
              ok == r.ok && off' == r.off && (ok ==> data == r.data)
    {
      var slots := inode.item.slots;
      var block := off / BLOCK_SIZE;
      var left := n;
      off', data := off, [];
      ghost var st := St();
      ghost var r := ReadLoop(st, slots, off, n);
      while left > 0
        invariant 0 <= left <= n && (left > 0 ==> block == off' / BLOCK_SIZE)
        invariant r == Prepend(data, ReadLoop(st, slots, off', left))
      {
        if block >= MAX_SLOTS || slots[block] == 0 { return false, data, off'; }
        var at := off' % BLOCK_SIZE;
        var w := Min(left, BLOCK_SIZE - at);
        var piece := ReadSlot(slots[block] - 1, at, w);
        ReadOne(st, slots, off', left, data, block, at, w, piece);
        data := data + piece;
        left := left - w;
        off' := off' + w;
        block := block + 1;
      }
      return true, data, off';
    }

    // ---------------------------------------------------------------- operations on descriptors

    /** write_inode_fd. */
    method WriteFd(fd: nat, buf: Buffer, now: int) returns (reply: Reply)
      requires Valid()
      modifies inodes.nodes, descs.nodes, table, disk
      ensures Valid() && (Now(), reply) == Write(old(Now()), fd, buf, now)
    {
      var desc, d := WalkDescs(fd);
      if desc == null || desc.item.mode == READ_ONLY { return Fail(Failure); }
      var inode, p := WalkInodes(desc.item.node);
      if inode == null { return Fail(Failure); }
      SetInodeAt(inode, p, inode.item.(atime := now, mtime := now));
      var ok := WriteInodeAt(inode, p, desc.item.off, buf);
      if !ok { return Fail(Failure); }
      SetDescAt(desc, d, desc.item.(off := NewOffset(desc.item.off, |buf|)));
      return Ok();
    }

    /** read_inode_fd. */
    method ReadFd(fd: nat, n: nat, now: int) returns (reply: Reply)
      requires Valid()
      modifies inodes.nodes, descs.nodes
      ensures Valid() && (Now(), reply) == Read(old(Now()), fd, n, now)
    {
      var desc, d := WalkDescs(fd);
      if desc == null { return Fail(Failure); }
      var inode, p := WalkInodes(desc.item.node);
      if inode == null { return Fail(Failure); }
      SetInodeAt(inode, p, inode.item.(atime := now));
      if NewOffset(desc.item.off, n) > BLOCK_SIZE * MAX_SLOTS { return Fail(Failure); }
      var ok, data, off := ReadNode(inode, desc.item.off, n);
      SetDescAt(desc, d, desc.item.(off := off));
      return if ok then Reply(Success, 0, data) else Fail(Failure);
    }

    /** seek_inode_fd. */
    method SeekFd(fd: nat, off: nat) returns (reply: Reply)
      requires Valid()
      modifies descs.nodes
      ensures Valid() && (Now(), reply) == Seek(old(Now()), fd, off)
    {
      var desc, d := WalkDescs(fd);
      if desc == null { return Fail(Failure); }
      var inode, p := WalkInodes(desc.item.node);
      if inode == null || off > inode.item.size { return Fail(Failure); }
      SetDescAt(desc, d, desc.item.(off := off));
      return Ok();
    }

    /** close_inode. */
    method CloseFd(fd: nat) returns (reply: Reply)
      requires Valid()
      modifies descs, descs.nodes
      ensures Valid() && (Now(), reply) == Close(old(Now()), fd)
    {
      var ok := RemoveDesc(fd);
      return if ok then Ok() else Fail(Failure);
    }

    /** remove_descriptor. */
    method RemoveDesc(fd: nat) returns (ok: bool)
      requires descs.Valid()
      modifies descs, descs.nodes
      ensures descs.Valid() && (ok <==> FindDesc(old(descs.Contents()), fd) < |old(descs.Contents())|)
      ensures descs.Contents() == var was := old(descs.Contents());
                                  if ok then RemoveAt(was, FindDesc(was, fd)) else was
    {
      var matches := (x: Desc) => x.fd == fd;
      FindIsDesc(descs.Contents(), fd, Find(descs.Contents(), matches));
      ok := descs.Remove(matches);
    }

    /** open_inode. */
    method OpenName(name: string, mode: nat, now: int) returns (reply: Reply)
      requires Valid()
      modifies inodes.nodes, descs, descs.nodes
      ensures Valid() && (Now(), reply) == OpenInode(old(Now()), name, mode, now)
    {
      var found, index := LookupName(name);
      var busy := LookForOpenedWrite(index);
      if busy { return Fail(DoubleWrite); }
      var inode, p := WalkInodes(index);
      if inode == null { return Fail(Failure); }
      reply := OpenNode(inode, p, name, index, mode, now);
    }

    /** The end of open_inode: a descriptor for the inode that was found. */
    method OpenNode(inode: Node<Inode>, ghost p: nat, ghost name: string, index: nat, mode: nat, now: int)
      returns (reply: Reply)
      requires Valid() && p == FindInode(Now().inodes, index) < |inodes.nodes| && inode == inodes.nodes[p]
      requires index == LookupOrZero(Now().names, name) && !OpenedForWrite(Now().descs, index)
      modifies inodes.nodes, descs, descs.nodes
      ensures Valid() && (Now(), reply) == OpenInode(old(Now()), name, mode, now)
    {
      ghost var s := Now();
      var fd := AddDesc(mode, index);
      ghost var s1 := Now();
      SetInodeAt(inode, p, inode.item.(atime := now));
      OpenIs(s, name, mode, now, p, s1, Now());
      reply := Reply(Success, fd, []);
    }

    // ---------------------------------------------------------------- operations on names

    /** The table half of service_create. */
    method CreateName(uid: nat, gid: nat, mode: int, name: string, now: int) returns (reply: Reply)
      requires Valid()
      modifies inodes, inodes.nodes, names, names.nodes
      ensures Valid() && (Now(), reply) == Create(old(Now()), uid, gid, mode, name, now)
      ensures fresh(NodeSet(inodes.nodes) - old(NodeSet(inodes.nodes)))
      ensures fresh(NodeSet(names.nodes) - old(NodeSet(names.nodes)))
    {
      var taken, _ := LookupName(name);
      if taken { return Fail(FilenameTaken); }
      var node := AddEntry(Regular, uid, gid, 1, mode, name, now);
      return Reply(Success, node.item.index, []);
    }

    /** chmod_inode. */
    method ChmodName(mode: int, name: string, now: int) returns (reply: Reply)
      requires Valid()
      modifies inodes.nodes
      ensures Valid() && (Now(), reply) == ChmodInode(old(Now()), mode, name, now)
    {
      var found, index := LookupName(name);
      if !found { return Fail(FileNotFound); }
      var inode, p := WalkInodes(index);
      if inode == null { return Fail(Failure); }
      SetInodeAt(inode, p, inode.item.(mode := mode, atime := now, ctime := now));
      return Ok();
    }

    /** get_file_stat_from_inode. */
    method StatName(name: string, now: int) returns (reply: Reply)
      requires Valid()
      modifies inodes.nodes
      ensures Valid() && (Now(), reply) == StatInode(old(Now()), name, now)
    {
      var found, index := LookupName(name);
      var inode, p := WalkInodes(index);
      if inode == null { return Fail(Failure); }
      var n := inode.item;
      reply := Reply(Success, 0, [], Some(StatRecord(n.size, n.atime, n.mtime, n.ctime)));
      SetInodeAt(inode, p, n.(atime := now));
    }

    /** rename_file. */
    method RenameName(oldName: string, newName: string) returns (reply: Reply)
      requires Valid()
      modifies names.nodes
      ensures Valid() && (Now(), reply) == RenameFile(old(Now()), oldName, newName)
    {
      var taken, _ := LookupName(newName);
      if taken { return Fail(FilenameTaken); }
      var entry, e := WalkNames(oldName);
      if entry == null { return Fail(Failure); }
      SetNameAt(entry, e, entry.item.(name := newName));
      return Ok();
    }

    /** create_hard_link. */
    method LinkName(name: string, link: string, now: int) returns (reply: Reply)
      requires Valid()
      modifies inodes.nodes, names, names.nodes
      ensures Valid() && (Now(), reply) == HardLink(old(Now()), name, link, now)
    {
      var found, index := LookupName(name);
      var taken, _ := LookupName(link);
      if taken { return Fail(FilenameTaken); }
      var inode, p := WalkInodes(index);
      if inode == null { return Fail(Failure); }
      reply := LinkNode(inode, p, name, link, now);
    }

    /** The end of create_hard_link: another name for the inode that was found. */
    method LinkNode(inode: Node<Inode>, ghost p: nat, ghost name: string, link: string, now: int) returns (reply: Reply)
      requires Valid() && p == FindInode(Now().inodes, LookupOrZero(Now().names, name)) < |inodes.nodes|
      requires inode == inodes.nodes[p] && !Taken(Now().names, link)
      modifies inodes.nodes, names, names.nodes
      ensures Valid() && (Now(), reply) == HardLink(old(Now()), name, link, now)
    {
      ghost var s := Now();
      AddName(link, inode.item.index);
      ghost var s1 := Now();
      SetInodeAt(inode, p, inode.item.(refCount := inode.item.refCount + 1, atime := now, ctime := now));
      LinkIs(s, name, link, now, p, s1, Now());
      reply := Ok();
    }

    /** create_soft_link. */
    method SoftLinkName(uid: nat, gid: nat, mode: int, name: string, link: string, now: int) returns (reply: Reply)
      requires Valid()
      modifies inodes, inodes.nodes, names, names.nodes, table, disk
      ensures Valid() && (Now(), reply) == CreateSoftLink(old(Now()), uid, gid, mode, name, link, now)
    {
      var found, index := LookupName(name);
      if !found { return Fail(FileNotFound); }
      var taken, _ := LookupName(link);
      if taken { return Fail(FilenameTaken); }
      var parent, p := WalkInodes(index);
      if parent == null { return Fail(Failure); }
      ghost var n := parent.item;
      var child := EnterLink(uid, gid, mode, parent, p, link, now);
      assert parent.item.slots == n.slots && parent.item.size == n.size;
      reply := CopyToLast(parent, child, parent.item.size);
    }

    /** The first half of create_soft_link: an inode whose count goes from 0 to 1, and its name. */
    method EnterLink(uid: nat, gid: nat, mode: int, parent: Node<Inode>, ghost p: nat, link: string, now: int)
      returns (child: Node<Inode>)
      requires Valid() && p < |inodes.nodes| && parent == inodes.nodes[p]
      modifies inodes, inodes.nodes, names, names.nodes
      ensures Valid() && Now() == SymlinkEntry(old(Now()), uid, gid, mode, p, link, now)
      ensures fresh(child) && inodes.nodes == old(inodes.nodes) + [child]
      ensures parent.item == old(parent.item).(atime := now)
    {
      ghost var s := Now();
      child := AddEntry(Symlink, uid, gid, 0, mode, link, now);
      ghost var s1 := Now();
      assert s1 == AddFile(s, NewInode(s.inodes, Symlink, uid, gid, 0, mode, now), link);
      assert parent.item == s1.inodes[p] == s.inodes[p];
      SetTwo(parent, p, child, now);
      EntryIs(s, uid, gid, mode, p, link, now, s1, Now());
    }

    /** The access time of the parent and the count of the child. */
    method SetTwo(parent: Node<Inode>, ghost p: nat, child: Node<Inode>, now: int)
      requires Valid() && p < |inodes.nodes| - 1 && parent == inodes.nodes[p]
          && child == inodes.nodes[|inodes.nodes| - 1]
      modifies parent`item, child`item
      ensures Valid() && parent.item == old(parent.item).(atime := now)
      ensures Now() == Entered(old(Now()), p, now)
    {
      SetInodeAt(parent, p, parent.item.(atime := now));
      SetInodeAt(child, |inodes.nodes| - 1, child.item.(refCount := child.item.refCount + 1));
    }

    /** The copying half of create_soft_link. */
    method CopyToLast(parent: Node<Inode>, child: Node<Inode>, n: nat) returns (reply: Reply)
      requires Valid() && |inodes.nodes| > 0 && child == inodes.nodes[|inodes.nodes| - 1]
      requires SlotsInRange(parent.item.slots)
      modifies child`item, table, disk
      ensures Valid() && (Now(), reply) == SoftLinkCopy(old(Now()), old(parent.item.slots), n)
    {
      var ok, data, _ := ReadNode(parent, 0, n);
      if NewOffset(0, n) > BLOCK_SIZE * MAX_SLOTS || !ok || |data| >= U32 { return Fail(Failure); }
      ok := WriteInodeAt(child, |inodes.nodes| - 1, 0, data);
      return if ok then Ok() else Fail(Failure);
    }

    /** The freeing loop of unlink_inode. */
    method FreeBlocks(slots: seq<nat>)
      requires ArraysOk() && SlotsInRange(slots)
      modifies table
      ensures table[..] == FreeSlots(old(table[..]), slots, 0)
    {
      var i := 0;
      while i < MAX_SLOTS
        invariant 0 <= i <= MAX_SLOTS
        invariant FreeSlots(old(table[..]), slots, 0) == FreeSlots(table[..], slots, i)
      {
        if slots[i] == 0 { break; }
        ghost var before := table[..];
        table[slots[i] - 1] := Entry(false, 0);
        assert table[..] == before[slots[i] - 1 := Entry(false, 0)];
        i := i + 1;
      }
    }

    /** The removal of an inode in unlink_inode, which does not write inode_table. */
    method DropNode(inode: Node<Inode>, ghost p: nat)
      requires Valid() && p < |inodes.nodes| && inode == inodes.nodes[p]
      modifies inodes`nodes, inodes.nodes, table
      ensures Linked() && names.Valid() && (inodes.Valid() <==> p != 0)
      ensures p == 0 ==> inodes.head == inode && inode !in inodes.nodes
      ensures var s := old(Now());
              Now() == s.(inodes := RemoveAt(s.inodes, p),
                          store := s.store.(table := FreeSlots(s.store.table, s.inodes[p].slots, 0)))
    {
      FreeBlocks(inode.item.slots);
      Unchain(inode, p);
    }

    method Unchain(inode: Node<Inode>, ghost p: nat)
      requires Valid() && p < |inodes.nodes| && inode == inodes.nodes[p]
      modifies inodes`nodes, inodes.nodes
      ensures Linked() && names.Valid() && (inodes.Valid() <==> p != 0)
      ensures p == 0 ==> inodes.head == inode && inode !in inodes.nodes
      ensures Now() == old(Now()).(inodes := RemoveAt(old(Now()).inodes, p))
    {
      ghost var was := inodes.nodes;
      inodes.RemoveKeepingHead(inode, p);
      assert names.Contents() == old(names.Contents()) && descs.Contents() == old(descs.Contents());
      forall j | 0 <= j < |inodes.nodes| ensures SlotsInRange(inodes.Contents()[j].slots) {
        assert inodes.nodes[j] == was[if j < p then j else j + 1];
      }
    }

    /** remove_filename_from_table, which does not write filename_table. */
    method DropName(name: string)
      requires Linked() && names.Valid() && Taken(Now().names, name)
      modifies names`nodes, names.nodes
      ensures Linked() && NameDropped(names, FindName(old(Now()).names, name))
      ensures Now() == old(Now()).(names := RemoveAt(old(Now()).names, FindName(old(Now()).names, name)))
    {
      var entry, e := WalkNames(name);
      names.RemoveKeepingHead(entry, e);
      assert inodes.Contents() == old(inodes.Contents()) && descs.Contents() == old(descs.Contents());
    }

    /** unlink_inode, as it is written: the tables change as they should, but the lists stay well
        formed exactly when no head is removed. Otherwise a head is left pointing at a freed node. */
    method UnlinkName(name: string, now: int) returns (reply: Reply)
      requires Valid()
      modifies inodes`nodes, inodes.nodes, names`nodes, names.nodes, table
      ensures Linked() && (Now(), reply) == Unlink(old(Now()), name, now)
      ensures Valid() <==> KeepsHeads(old(Now()), OpUnlink(name))
      ensures !inodes.Valid() ==> Dangles(inodes)
      ensures !names.Valid() ==> Dangles(names)
    {
      var found, index := LookupName(name);
      if !found { return Fail(FileNotFound); }
      var inode, p := WalkInodes(index);
      if inode == null { return Fail(Failure); }
      reply := UnlinkNode(inode, p, name, now);
    }

    /** unlink_inode from the inode it has found on. */
    method UnlinkNode(inode: Node<Inode>, ghost p: nat, name: string, now: int) returns (reply: Reply)
      requires Valid() && p == FindInode(Now().inodes, LookupOrZero(Now().names, name)) < |inodes.nodes|
      requires inode == inodes.nodes[p] && Taken(Now().names, name)
      modifies inodes`nodes, inodes.nodes, names`nodes, names.nodes, table
      ensures Linked() && (Now(), reply) == Unlink(old(Now()), name, now)
      ensures Valid() <==> KeepsHeads(old(Now()), OpUnlink(name))
      ensures !inodes.Valid() ==> Dangles(inodes)
      ensures !names.Valid() ==> Dangles(names)
    {
      ghost var s, last := Now(), inode.item.refCount == 1;
      LowerCount(inode, p, now);
      ghost var s1 := Now();
      DropName(name);
      UnlinkIs(s, name, now, FindName(s.names, name), p, s1, Now());
      reply := Ok();
    }

    /** One name less: the count is lowered, and an inode without names goes. */
    method LowerCount(inode: Node<Inode>, ghost p: nat, now: int)
      requires Valid() && p < |inodes.nodes| && inode == inodes.nodes[p]
      modifies inodes`nodes, inodes.nodes, table
      ensures Linked() && names.Valid()
      ensures inodes.Valid() <==> !(old(inode.item.refCount) == 1 && p == 0)
      ensures !inodes.Valid() ==> Dangles(inodes)
      ensures var s := old(Now()); var n := s.inodes[p];
              Now() == if n.refCount == 1
                       then s.(inodes := RemoveAt(s.inodes, p),
                               store := s.store.(table := FreeSlots(s.store.table, n.slots, 0)))
                       else SetInode(s, p, n.(refCount := Decremented(n.refCount), atime := now, ctime := now))
    {
      var refs := Decremented(inode.item.refCount);
      if refs == 0 {
        DropNode(inode, p);
      } else {
        SetInodeAt(inode, p, inode.item.(refCount := refs, atime := now, ctime := now));
      }
    }

    // ---------------------------------------------------------------- permission tests and dispatch

    /** get_file_owner_group_permissions on the caller's zeros, and the range test on what it
        leaves in them. */
    method Access(uid: nat, gid: nat, name: string, write: bool) returns (status: Status)
      requires Valid()
      ensures status == if write then WriteAccess(Now(), uid, gid, name) else ReadAccess(Now(), uid, gid, name)
    {
      var fileOwner, fileGroup, filePerms := 0, 0, 0;
      status := Failure;
      var found, index := LookupName(name);
      var inode, p := WalkInodes(index);
      if inode != null {
        fileOwner, fileGroup, filePerms := inode.item.owner, inode.item.group, inode.item.mode;
        status := Success;
      }
      if write {
        if LacksWrite(uid, gid, fileOwner, fileGroup, filePerms) { status := InsufficientPerms; }
      } else {
        if LacksRead(uid, gid, fileOwner, fileGroup, filePerms) { status := InsufficientPerms; }
      }
    }

    /** service_chmode. */
    method ServeChmod(uid: nat, gid: nat, mode: int, name: string, now: int) returns (reply: Reply)
      requires Valid()
      modifies inodes.nodes
      ensures Valid() && (Now(), reply) == Chmod(old(Now()), uid, gid, mode, name, now)
    {
      var access := Access(uid, gid, name, true);
      if access != Success { return Fail(access); }
      reply := ChmodName(mode % U32, name, now);
    }

    /** service_stat. */
    method ServeStat(uid: nat, gid: nat, name: string, now: int) returns (reply: Reply)
      requires Valid()
      modifies inodes.nodes
      ensures Valid() && (Now(), reply) == Stat(old(Now()), uid, gid, name, now)
    {
      var access := Access(uid, gid, name, false);
      if access != Success { return Fail(access); }
      reply := StatName(name, now);
    }

    /** service_rename. */
    method ServeRename(oldName: string, newName: string) returns (reply: Reply)
      requires Valid()
      modifies names.nodes
      ensures Valid() && (Now(), reply) == Rename(old(Now()), oldName, newName)
    {
      reply := RenameName(oldName, newName);
      return if reply.status == Success then Ok() else Fail(Failure);
    }

    /** service_link. */
    method ServeLink(uid: nat, gid: nat, name: string, link: string, now: int) returns (reply: Reply)
      requires Valid()
      modifies inodes.nodes, names, names.nodes
      ensures Valid() && (Now(), reply) == Link(old(Now()), uid, gid, name, link, now)
    {
      var access := Access(uid, gid, name, false);
      if access != Success { return Fail(access); }
      reply := LinkName(name, link, now);
    }

    /** service_symlink. */
    method ServeSymlink(uid: nat, gid: nat, mode: int, name: string, link: string, now: int) returns (reply: Reply)
      requires Valid()
      modifies inodes, inodes.nodes, names, names.nodes, table, disk
      ensures Valid() && (Now(), reply) == SoftLink(old(Now()), uid, gid, mode, name, link, now)
    {
      var access := Access(uid, gid, name, false);
      if access != Success { return Fail(access); }
      reply := SoftLinkName(uid, gid, mode, name, link, now);
    }

    /** service_open: flags other than read-only and write-only are refused. */
    method ServeOpen(uid: nat, gid: nat, name: string, flags: int, now: int) returns (reply: Reply)
      requires Valid()
      modifies inodes.nodes, descs, descs.nodes
      ensures Valid() && (Now(), reply) == Open(old(Now()), uid, gid, name, flags, now)
    {
      if flags != READ_ONLY && flags != WRITE_ONLY { return Fail(Failure); }
      var access := Access(uid, gid, name, flags == WRITE_ONLY);
      if access != Success { return Fail(access); }
      reply := OpenName(name, flags, now);
    }

    /** The switch of the worker: any of the twelve operations. The lists stay well formed exactly
        when the operation keeps the heads. */
    method Perform(op: Op, now: int) returns (reply: Reply)
      requires Valid()
      modifies inodes, inodes.nodes, names, names.nodes, descs, descs.nodes, table, disk
      ensures Linked() && (Now(), reply) == Apply(old(Now()), op, now)
      ensures Valid() <==> KeepsHeads(old(Now()), op)
    {
      match op
      case OpCreate(uid, gid, mode, name) => reply := CreateName(uid, gid, mode, name, now);
      case OpChmod(uid, gid, mode, name) => reply := ServeChmod(uid, gid, mode, name, now);
      case OpStat(uid, gid, name) => reply := ServeStat(uid, gid, name, now);
      case OpRename(name, newName) => reply := ServeRename(name, newName);
      case OpLink(uid, gid, name, link) => reply := ServeLink(uid, gid, name, link, now);
      case OpSymlink(uid, gid, mode, name, link) => reply := ServeSymlink(uid, gid, mode, name, link, now);
      case OpOpen(uid, gid, name, flags) => reply := ServeOpen(uid, gid, name, flags, now);
      case OpClose(fd) => reply := CloseFd(fd);
      case OpWrite(fd, buf) => reply := WriteFd(fd, buf, now);
      case OpRead(fd, n) => reply := ReadFd(fd, n, now);
      case OpSeek(fd, off) => reply := SeekFd(fd, off);
      case OpUnlink(name) => reply := UnlinkName(name, now);
    }

    /** One operation of a run. */
    method PerformNext(ghost states: seq<State>, events: seq<Event>, i: nat, replies: seq<Reply>)
      returns (replies': seq<Reply>)
      requires Valid() && IsRun(states, events) && i < |events| && Now() == states[i]
      requires Answered(states, events[..i], replies) && !HeadLost(states, events, i)
      modifies inodes, inodes.nodes, names, names.nodes, descs, descs.nodes, table, disk
      ensures Linked() && Now() == states[i + 1] && Answered(states, events[..i + 1], replies')
      ensures Valid() <==> !HeadLost(states, events, i + 1)
    {
      assert Step(states[i], events[i], states[i + 1]);
      var reply := Perform(events[i].op, events[i].now);
      OneAnswer(states, events, replies, i, reply);
      replies' := replies + [reply];
    }

    /** On a service without files. */
    method CreateAndUnlink()
      requires Valid() && Now().inodes == [] && Now().names == []
      modifies inodes, inodes.nodes, names, names.nodes, table
      ensures Now().inodes == [] && Now().names == [] && Dangles(inodes) && Dangles(names)
    {
      ghost var s := Now();
      var created := CreateName(0, 0, 511, "a", 0);
      ghost var s1 := Now();
      OnlyFile(s, s1);
      var unlinked := UnlinkName("a", 0);
    }

    /** The worker's loop over the operations of a run: the code goes through exactly the states of
        the tables, with their replies, up to the first operation that loses a list head. */
    method PerformAll(ghost states: seq<State>, events: seq<Event>) returns (replies: seq<Reply>)
      requires Valid() && IsRun(states, events) && states[0] == Now()
      requires |events| > 0 ==> !HeadLost(states, events, |events| - 1)
      modifies inodes, names, descs, table, disk
      modifies set n: Node<Inode> {:trigger n.item} | allocated(n)
      modifies set n: Node<Name> {:trigger n.item} | allocated(n)
      modifies set n: Node<Desc> {:trigger n.item} | allocated(n)
      ensures Linked() && Now() == states[|events|] && Answered(states, events, replies)
      ensures Valid() <==> !HeadLost(states, events, |events|)
    {
      replies := [];
      for i := 0 to |events|
        invariant Linked() && Now() == states[i]
        invariant Answered(states, events[..i], replies)
        invariant Valid() <==> !HeadLost(states, events, i)
      {
        replies := PerformNext(states, events, i, replies);
      }
      assert events[..|events|] == events;
    }
  }

  /** Two calls after which the code goes on from freed nodes: the only file is created and
      unlinked, and both heads are left pointing at what was removed. */
  method LoseHeads() returns (v: Volume)
    ensures v.Now().inodes == [] && v.Now().names == []
    ensures Dangles(v.inodes) && Dangles(v.names)
  {
    v := new Volume();
    v.CreateAndUnlink();
  }

  lemma OnlyFile(s: State, s1: State)
    requires Typed(s) && s.inodes == [] && s.names == [] && s1 == Create(s, 0, 0, 511, "a", 0).0
    ensures Typed(s1) && !KeepsHeads(s1, OpUnlink("a"))
    ensures FindName(s1.names, "a") == 0 && FindInode(s1.inodes, LookupOrZero(s1.names, "a")) == 0
    ensures Unlink(s1, "a", 0).0.inodes == [] && Unlink(s1, "a", 0).0.names == []
  {
    assert s1.inodes == [NewInode([], Regular, 0, 0, 1, 511, 0)] && s1.names == [Name(0, "a")];
    assert RemoveAt(s1.inodes, 0) == [] && RemoveAt(s1.names, 0) == [];
  }
}
