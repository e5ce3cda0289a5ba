/**
 The directory: the filename list read as a finite map from names to inode indices. Every
 operation acts on that map, and on nothing but the map, as a user would expect, except
 where a lookup takes a missing name for the file with index 0.
 */
module Directory {
  import opened Common
  import opened Blocks
  import opened Namespace
  import opened Invariant
  import opened Files
  import opened Runs

  ghost predicate Unique(names: seq<Name>) {
    forall i, j :: 0 <= i < j < |names| ==> names[i].name != names[j].name
  }

  ghost function NamesIn(names: seq<Name>): set<string> {
    set e | 0 <= e < |names| :: names[e].name
  }

  ghost function Dir(names: seq<Name>): map<string, nat> {
    map x | x in NamesIn(names) :: LookupOrZero(names, x)
  }

  lemma DirLookup(names: seq<Name>, x: string)
    ensures x in Dir(names) <==> Taken(names, x)
    ensures x in Dir(names) ==> Dir(names)[x] == LookupOrZero(names, x) == names[FindName(names, x)].node
  {
    var e := FindName(names, x);
    if e < |names| { assert names[e].name == x; }
  }

  /** The map is what the list says, entry by entry. */
  lemma DirEntry(names: seq<Name>, e: nat)
    requires Unique(names) && e < |names|
    ensures FindName(names, names[e].name) == e
    ensures names[e].name in Dir(names) && Dir(names)[names[e].name] == names[e].node
  {
    DirLookup(names, names[e].name);
  }

  /** A map with the right entries, for every entry of the list and no other, is the map. */
  lemma DirIs(names: seq<Name>, m: map<string, nat>)
    requires Unique(names) && m.Keys == NamesIn(names)
    requires forall e :: 0 <= e < |names| ==> names[e].name in m && m[names[e].name] == names[e].node
    ensures Dir(names) == m
  {
    forall x | x in m ensures x in Dir(names) && Dir(names)[x] == m[x] {
      var e :| 0 <= e < |names| && names[e].name == x;
      DirEntry(names, e);
    }
    assert Dir(names).Keys == m.Keys;
  }

  // ------------------------------------------------------------------ the three changes of the list

  lemma DirAppend(names: seq<Name>, x: Name)
    requires Unique(names) && !Taken(names, x.name)
    ensures Unique(names + [x]) && Dir(names + [x]) == Dir(names)[x.name := x.node]
  {
    var names', m := names + [x], Dir(names)[x.name := x.node];
    forall e | 0 <= e < |names'| ensures names'[e].name in m && m[names'[e].name] == names'[e].node {
      if e < |names| { DirEntry(names, e); }
    }
    assert names'[|names|] == x;
    forall n | n in m ensures n in NamesIn(names') {
      if n != x.name {
        var e :| 0 <= e < |names| && names[e].name == n;
        assert names'[e].name == n;
      }
    }
    assert m.Keys == NamesIn(names');
    DirIs(names', m);
  }

  lemma DirRename(names: seq<Name>, e: nat, name: string)
    requires Unique(names) && e < |names| && !Taken(names, name)
    ensures var names' := names[e := names[e].(name := name)];
            Unique(names') && Dir(names') == (Dir(names) - {names[e].name})[name := names[e].node]
  {
    var names' := names[e := names[e].(name := name)];
    var m := (Dir(names) - {names[e].name})[name := names[e].node];
    forall i | 0 <= i < |names'| ensures names'[i].name in m && m[names'[i].name] == names'[i].node {
      DirEntry(names, i);
    }
    forall n | n in m ensures n in NamesIn(names') {
      if n == name {
        assert names'[e].name == n;
      } else {
        var i :| 0 <= i < |names| && names[i].name == n;
        assert names'[i].name == n;
      }
    }
    assert m.Keys == NamesIn(names');
    DirIs(names', m);
  }

  lemma RemovedEntries(names: seq<Name>, e: nat)
    requires Unique(names) && e < |names|
    ensures Unique(RemoveAt(names, e))
    ensures NamesIn(RemoveAt(names, e)) == NamesIn(names) - {names[e].name}
  {
    var names' := RemoveAt(names, e);
    RemovedAt(names, e);
    forall n | n in NamesIn(names) && n != names[e].name ensures n in NamesIn(names') {
      var i :| 0 <= i < |names| && names[i].name == n;
      assert names'[if i < e then i else i - 1].name == n;
    }
    forall n | n in NamesIn(names') ensures n in NamesIn(names) && n != names[e].name {
      var i :| 0 <= i < |names'| && names'[i].name == n;
      assert names[if i < e then i else i + 1].name == n;
    }
  }

  lemma DirRemove(names: seq<Name>, e: nat)
    requires Unique(names) && e < |names|
    ensures Unique(RemoveAt(names, e)) && Dir(RemoveAt(names, e)) == Dir(names) - {names[e].name}
  {
    var names', m := RemoveAt(names, e), Dir(names) - {names[e].name};
    RemovedEntries(names, e);
    forall i | 0 <= i < |names'| ensures names'[i].name in m && m[names'[i].name] == names'[i].node {
      var k := if i < e then i else i + 1;
      assert names'[i] == names[k];
      DirEntry(names, k);
    }
    assert m.Keys == NamesIn(names) - {names[e].name};
    DirIs(names', m);
  }

  // ------------------------------------------------------------------ the operations on the map

  ghost function Added(m: map<string, nat>, name: string, node: nat): map<string, nat> {
    m[name := node]
  }

  ghost function Removed(m: map<string, nat>, name: string): map<string, nat> {
    m - {name}
  }

  /** No name of the map has this index. */
  ghost predicate Unused(m: map<string, nat>, node: nat) {
    forall x :: x in m ==> m[x] != node
  }

  /** The mode of the file that the name stands for allows the caller to read and so to link it. */
  predicate Granted(s: State, op: Op) {
    match op
    case OpLink(uid, gid, name, _) => MayUse(s, uid, gid, LookupOrZero(s.names, name), false)
    case OpSymlink(uid, gid, _, name, _) => MayUse(s, uid, gid, LookupOrZero(s.names, name), false)
    case _ => true
  }

  /** The disk has room for a copy of the linked file. */
  predicate Room(s: State, op: Op) {
    op.OpSymlink? ==>
      var p := FindInode(s.inodes, LookupOrZero(s.names, op.name));
      p < |s.inodes| && CeilDiv(s.inodes[p].size, BLOCK_SIZE) <= CountFree(s.store.table)
  }

  /** What an operation does to the map, and what it answers; both are decided by the map, the
      permissions and the room on the disk. `next` is the index that a new inode gets. A missing
      name stands for index 0 in a hard link. */
  ghost predicate DirSpec(m: map<string, nat>, op: Op, granted: bool, room: bool, reply: Reply, next: nat,
                          m': map<string, nat>) {
    match op
    case OpCreate(_, _, _, name) =>
      && Unused(m, next)
      && reply.status == (if name in m then FilenameTaken else Success)
      && m' == (if name in m then m else Added(m, name, next))
      && (name !in m ==> reply.value == next)
    case OpRename(name, newName) =>
      && reply.status == (if name in m && newName !in m then Success else Failure)
      && m' == (if name in m && newName !in m then Added(Removed(m, name), newName, m[name]) else m)
    case OpUnlink(name) =>
      && reply.status == (if name in m then Success else FileNotFound)
      && m' == (if name in m then Removed(m, name) else m)
    case OpLink(_, _, name, link) =>
      var node := if name in m then m[name] else 0;
      && reply.status == (if !granted then InsufficientPerms else if link in m then FilenameTaken else Success)
      && (granted ==> !Unused(m, node))
      && m' == (if granted && link !in m then Added(m, link, node) else m)
    case OpSymlink(_, _, _, name, link) =>
      var added := granted && name in m && link !in m;
      && Unused(m, next)
      && reply.status == (if !granted then InsufficientPerms
                          else if name !in m then FileNotFound
                          else if link in m then FilenameTaken
                          else if room then Success else Failure)
      && m' == (if added then Added(m, link, next) else m)
    case _ => m' == m
  }

  /** The operation does to the directory of s what it should. */
  ghost predicate ActsAs(s: State, op: Op, s': State, reply: Reply) {
    DirSpec(Dir(s.names), op, Granted(s, op), Room(s, op), reply, NextIndex(s.inodes), Dir(s'.names))
  }

  /** The live indices are exactly the indices that names have. */
  lemma LiveIsNamed(names: seq<Name>, inodes: seq<Inode>, node: nat)
    requires NamesOk(names, inodes)
    ensures Live(inodes, node) <==> !Unused(Dir(names), node)
  {
    if Live(inodes, node) {
      var i :| 0 <= i < |inodes| && inodes[i].index == node;
      assert CountNames(names, node) >= 1;
      if forall e :: 0 <= e < |names| ==> names[e].node != node { CountFresh(names, node); }
      var e :| 0 <= e < |names| && names[e].node == node;
      DirEntry(names, e);
    }
    if !Unused(Dir(names), node) {
      var x :| x in Dir(names) && Dir(names)[x] == node;
      DirLookup(names, x);
    }
  }

  lemma NextUnused(s: State)
    requires Inv(s)
    ensures Unused(Dir(s.names), NextIndex(s.inodes))
  {
    NewIndexFresh(s.inodes, s.store);
    assert !Live(s.inodes, NextIndex(s.inodes));
    LiveIsNamed(s.names, s.inodes, NextIndex(s.inodes));
  }

  /** Every operation acts on the directory as its map operation, in every good state. */
  lemma StepDirectory(s: State, op: Op, now: int)
    requires Inv(s)
    ensures var (s', reply) := Apply(s, op, now);
            ActsAs(s, op, s', reply)
  {
    match op
    case OpCreate(uid, gid, mode, name) => CreateDirectory(s, uid, gid, mode, name, now);
    case OpRename(name, newName) => RenameDirectory(s, name, newName);
    case OpUnlink(name) => UnlinkDirectory(s, name, now);
    case OpLink(uid, gid, name, link) => LinkDirectory(s, uid, gid, name, link, now);
    case OpSymlink(uid, gid, mode, name, link) => SymlinkDirectory(s, uid, gid, mode, name, link, now);
    case _ => SameNames(s, op, now);
  }

  lemma CreateDirectory(s: State, uid: nat, gid: nat, mode: int, name: string, now: int)
    requires Inv(s)
    ensures var (s', reply) := Create(s, uid, gid, mode, name, now);
            ActsAs(s, OpCreate(uid, gid, mode, name), s', reply)
  {
    NextUnused(s);
    DirLookup(s.names, name);
    if !Taken(s.names, name) { DirAppend(s.names, Name(NextIndex(s.inodes), name)); }
  }

  lemma RenameDirectory(s: State, name: string, newName: string)
    requires Inv(s)
    ensures var (s', reply) := Rename(s, name, newName);
            ActsAs(s, OpRename(name, newName), s', reply)
  {
    DirLookup(s.names, name);
    DirLookup(s.names, newName);
    var p := FindName(s.names, name);
    if p < |s.names| && !Taken(s.names, newName) { DirRename(s.names, p, newName); }
  }

  lemma UnlinkNames(s: State, name: string, now: int)
    requires Inv(s)
    ensures var e, (s', reply) := FindName(s.names, name), Unlink(s, name, now);
            && reply.status == (if e < |s.names| then Success else FileNotFound)
            && s'.names == if e < |s.names| then RemoveAt(s.names, e) else s.names
  {
    var e := FindName(s.names, name);
    if e < |s.names| {
      var p := FindInode(s.inodes, s.names[e].node);
      assert Live(s.inodes, s.names[e].node);
      UnlinkUnfold(s, name, now, e, p);
    }
  }

  lemma UnlinkDirectory(s: State, name: string, now: int)
    requires Inv(s)
    ensures var (s', reply) := Unlink(s, name, now);
            ActsAs(s, OpUnlink(name), s', reply)
  {
    UnlinkNames(s, name, now);
    RemovedName(s.names, Unlink(s, name, now).0.names, name);
  }

  lemma RemovedName(names: seq<Name>, names': seq<Name>, name: string)
    requires Unique(names)
    requires names' == if Taken(names, name) then RemoveAt(names, FindName(names, name)) else names
    ensures name in Dir(names) <==> Taken(names, name)
    ensures Dir(names') == if name in Dir(names) then Removed(Dir(names), name) else Dir(names)
  {
    DirLookup(names, name);
    if Taken(names, name) { DirRemove(names, FindName(names, name)); }
  }

  lemma LinkNames(s: State, uid: nat, gid: nat, name: string, link: string, now: int)
    ensures var node, granted := LookupOrZero(s.names, name), ReadAccess(s, uid, gid, name) == Success;
            var (s', reply) := Link(s, uid, gid, name, link, now);
            && (granted ==> Live(s.inodes, node))
            && reply.status == (if !granted then InsufficientPerms
                                else if Taken(s.names, link) then FilenameTaken else Success)
            && s'.names == if granted && !Taken(s.names, link) then s.names + [Name(node, link)] else s.names
  {
    var node := LookupOrZero(s.names, name);
    var p := FindInode(s.inodes, node);
    AccessIs(s, uid, gid, name);
    if p < |s.inodes| { assert s.inodes[p].index == node; }
  }

  lemma LinkDirectory(s: State, uid: nat, gid: nat, name: string, link: string, now: int)
    requires Inv(s)
    ensures var (s', reply) := Link(s, uid, gid, name, link, now);
            ActsAs(s, OpLink(uid, gid, name, link), s', reply)
  {
    var node := LookupOrZero(s.names, name);
    LinkNames(s, uid, gid, name, link, now);
    DirLookup(s.names, name);
    DirLookup(s.names, link);
    LiveIsNamed(s.names, s.inodes, node);
    AccessIs(s, uid, gid, name);
    assert ReadAccess(s, uid, gid, name) == Success <==> Granted(s, OpLink(uid, gid, name, link));
    if !Taken(s.names, link) { DirAppend(s.names, Name(node, link)); }
  }

  lemma SymlinkNames(s: State, uid: nat, gid: nat, mode: int, name: string, link: string, now: int)
    requires Inv(s)
    ensures var op, granted := OpSymlink(uid, gid, mode, name, link), ReadAccess(s, uid, gid, name) == Success;
            var (s', reply) := SoftLink(s, uid, gid, mode, name, link, now);
            var added := granted && Taken(s.names, name) && !Taken(s.names, link);
            && s'.names == (if added then s.names + [Name(NextIndex(s.inodes), link)] else s.names)
            && reply.status == (if !granted then InsufficientPerms
                                else if !Taken(s.names, name) then FileNotFound
                                else if Taken(s.names, link) then FilenameTaken
                                else if Room(s, op) then Success else Failure)
  {
    AccessIs(s, uid, gid, name);
    if ReadAccess(s, uid, gid, name) == Success && Taken(s.names, name) && !Taken(s.names, link) {
      SoftLinkIsSnapshot(s, uid, gid, mode, name, link, now);
      CopyStatus(s, uid, gid, mode, name, link, now);
    } else {
      NoSoftLink(s, uid, gid, mode, name, link, now);
    }
  }

  /** A copy that fails is a plain failure. */
  lemma CopyStatus(s: State, uid: nat, gid: nat, mode: int, name: string, link: string, now: int)
    requires Typed(s) && ReadAccess(s, uid, gid, name) == Success && Taken(s.names, name) && !Taken(s.names, link)
    ensures SoftLink(s, uid, gid, mode, name, link, now) == CreateSoftLink(s, uid, gid, mode, name, link, now)
    ensures SoftLink(s, uid, gid, mode, name, link, now).1.status in {Success, Failure}
  {
  }

  lemma NoSoftLink(s: State, uid: nat, gid: nat, mode: int, name: string, link: string, now: int)
    requires Typed(s) && !(ReadAccess(s, uid, gid, name) == Success && Taken(s.names, name) && !Taken(s.names, link))
    ensures var access, (s', reply) := ReadAccess(s, uid, gid, name), SoftLink(s, uid, gid, mode, name, link, now);
            && s' == s
            && reply.status == if access != Success then access else if !Taken(s.names, name) then FileNotFound
                else FilenameTaken
    ensures ReadAccess(s, uid, gid, name) in {Success, Failure, InsufficientPerms}
  {
  }

  lemma SymlinkDirectory(s: State, uid: nat, gid: nat, mode: int, name: string, link: string, now: int)
    requires Inv(s)
    ensures var (s', reply) := SoftLink(s, uid, gid, mode, name, link, now);
            ActsAs(s, OpSymlink(uid, gid, mode, name, link), s', reply)
  {
    SymlinkNames(s, uid, gid, mode, name, link, now);
    AccessIs(s, uid, gid, name);
    NextUnused(s);
    DirLookup(s.names, name);
    DirLookup(s.names, link);
    if !Taken(s.names, link) { DirAppend(s.names, Name(NextIndex(s.inodes), link)); }
  }

  lemma SameNames(s: State, op: Op, now: int)
    requires Typed(s)
    requires op.OpChmod? || op.OpStat? || op.OpOpen? || op.OpClose? || op.OpWrite? || op.OpRead? || op.OpSeek?
    ensures Apply(s, op, now).0.names == s.names
  {
  }

  // ------------------------------------------------------------------ unlink

  lemma NoFile(s: State, x: nat)
    ensures File(s, x) == None <==> !Live(s.inodes, x)
  {
    if FindInode(s.inodes, x) < |s.inodes| { assert s.inodes[FindInode(s.inodes, x)].index == x; }
  }

  /** Every file but the dropped one is there as before, and no other has come. */
  lemma FilesAfterDrop(s: State, e: nat, p: nat, x: nat)
    requires Inv(s) && e < |s.names| && p < |s.inodes|
    ensures File(DropFile(s, e, p), x) == if x == s.inodes[p].index then None else File(s, x)
  {
    DropKeepsFiles(s, e, p);
    NoFile(s, x);
    NoFile(DropFile(s, e, p), x);
    LiveAfterRemove(s.inodes, p, x);
  }

  lemma FilesAfterLink(s: State, e: nat, p: nat, n: Inode, x: nat)
    requires e < |s.names| && p < |s.inodes|
    requires n.index == s.inodes[p].index && n.slots == s.inodes[p].slots && n.size == s.inodes[p].size
    ensures File(DropLink(s, e, p, n), x) == File(s, x)
  {
    DropLinkKeepsFiles(s, e, p, n);
    NoFile(s, x);
    NoFile(DropLink(s, e, p, n), x);
    LiveAfterReplace(s.inodes, p, n, x);
  }

  /** The file at position p goes, if it is the last name, with exactly its blocks; no other
      file, no descriptor and no block changes. */
  ghost predicate Frees(s: State, p: nat, last: bool, s': State) {
    && p < |s.inodes| && |s.inodes[p].slots| == MAX_SLOTS
    && Allocated(s'.store) == Allocated(s.store) - (if last then SlotBlocks(s.inodes[p].slots, 0, MAX_SLOTS) else {})
    && SlotBlocks(s.inodes[p].slots, 0, MAX_SLOTS) <= Allocated(s.store)
    && s'.store.disk == s.store.disk && s'.descs == s.descs
    && forall x: nat :: File(s', x) == if last && x == s.inodes[p].index then None else File(s, x)
  }

  /** What an unlink must do: a missing name is reported and changes nothing; otherwise exactly
      the name goes, and its file with it exactly if it has no other name. */
  ghost predicate UnlinkSpec(s: State, name: string, s': State, reply: Reply) {
    var m := Dir(s.names);
    if name !in m then s' == s && reply.status == FileNotFound
    else
      && reply.status == Success && Dir(s'.names) == Removed(m, name)
      && Live(s.inodes, m[name])
      && Frees(s, FindInode(s.inodes, m[name]), NamesOf(m, m[name]) == {name}, s')
  }

  lemma SingleName(names: set<string>, name: string)
    requires name in names
    ensures |names| == 1 <==> names == {name}
  {
    if |names| == 1 {
      assert |names - {name}| == 0;
      assert names == {name};
    }
  }

  lemma OnlyName(s: State, name: string, p: nat)
    requires Inv(s) && name in Dir(s.names) && p < |s.inodes| && s.inodes[p].index == Dir(s.names)[name]
    ensures s.inodes[p].refCount == 1 <==> NamesOf(Dir(s.names), Dir(s.names)[name]) == {name}
  {
    CountIsNames(s.names, Dir(s.names)[name]);
    SingleName(NamesOf(Dir(s.names), Dir(s.names)[name]), name);
  }

  lemma DropFrees(s: State, e: nat, p: nat)
    requires Inv(s) && e < |s.names| && p < |s.inodes|
    ensures Frees(s, p, true, DropFile(s, e, p))
  {
    DropFileFrees(s, e, p);
    assert InodeOk(s.inodes[p], s.store);
    forall x: nat ensures File(DropFile(s, e, p), x) == if x == s.inodes[p].index then None else File(s, x) {
      FilesAfterDrop(s, e, p, x);
    }
  }

  lemma LinkFrees(s: State, e: nat, p: nat, n: Inode)
    requires Inv(s) && e < |s.names| && p < |s.inodes|
    requires n.index == s.inodes[p].index && n.slots == s.inodes[p].slots && n.size == s.inodes[p].size
    ensures Frees(s, p, false, DropLink(s, e, p, n))
  {
    assert InodeOk(s.inodes[p], s.store);
    forall x: nat ensures File(DropLink(s, e, p, n), x) == File(s, x) {
      FilesAfterLink(s, e, p, n, x);
    }
  }

  /** Unlink does exactly that, in every good state and for every name. */
  lemma UnlinkFrees(s: State, name: string, now: int)
    requires Inv(s)
    ensures var (s', reply) := Unlink(s, name, now); UnlinkSpec(s, name, s', reply)
  {
    DirLookup(s.names, name);
    var (s', reply) := Unlink(s, name, now);
    if Taken(s.names, name) {
      UnlinkNames(s, name, now);
      UnlinkNamed(s, name, now, FindName(s.names, name));
      UnlinkSpecIs(s, name, s', reply);
    }
  }

  lemma UnlinkSpecIs(s: State, name: string, s': State, reply: Reply)
    requires Unique(s.names) && Taken(s.names, name) && name in Dir(s.names) && reply.status == Success
    requires s'.names == RemoveAt(s.names, FindName(s.names, name)) && Live(s.inodes, Dir(s.names)[name])
    requires var m := Dir(s.names); Frees(s, FindInode(s.inodes, m[name]), NamesOf(m, m[name]) == {name}, s')
    ensures UnlinkSpec(s, name, s', reply)
  {
    RemovedName(s.names, s'.names, name);
  }

  lemma UnlinkNamed(s: State, name: string, now: int, e: nat)
    requires Inv(s) && e == FindName(s.names, name) < |s.names| && name in Dir(s.names)
    ensures var m := Dir(s.names);
            && Live(s.inodes, m[name])
            && Frees(s, FindInode(s.inodes, m[name]), NamesOf(m, m[name]) == {name}, Unlink(s, name, now).0)
  {
    var p := FindInode(s.inodes, s.names[e].node);
    DirLookup(s.names, name);
    assert Live(s.inodes, s.names[e].node);
    UnlinkUnfold(s, name, now, e, p);
    OnlyName(s, name, p);
    if s.inodes[p].refCount == 1 {
      DropFrees(s, e, p);
    } else {
      LinkFrees(s, e, p, s.inodes[p].(refCount := s.inodes[p].refCount - 1, atime := now, ctime := now));
    }
  }

  // ------------------------------------------------------------------ names and counts

  /** After any unlink, each other name still stands for the same file with the same contents,
      also another name of the file that was unlinked. */
  lemma UnlinkKeepsOtherNames(s: State, name: string, other: string, now: int)
    requires Inv(s) && other != name && other in Dir(s.names)
    ensures var s', node := Unlink(s, name, now).0, Dir(s.names)[other];
            && other in Dir(s'.names) && Dir(s'.names)[other] == node
            && File(s, node).Some? && File(s', node) == File(s, node)
  {
    UnlinkNames(s, name, now);
    OtherName(s.names, Unlink(s, name, now).0.names, name, other);
    NotLast(s, name, other);
    assert FindInode(s.inodes, Dir(s.names)[other]) < |s.inodes|;
    UnlinkKeepsFile(s, name, now, Dir(s.names)[other]);
  }

  lemma OtherName(names: seq<Name>, names': seq<Name>, name: string, other: string)
    requires Unique(names) && other != name && other in Dir(names)
    requires names' == if Taken(names, name) then RemoveAt(names, FindName(names, name)) else names
    ensures other in Dir(names') && Dir(names')[other] == Dir(names)[other]
  {
    RemovedName(names, names', name);
  }

  /** An unlink of one name of a file that has another name is not its last. */
  lemma NotLast(s: State, name: string, other: string)
    requires Inv(s) && other != name && other in Dir(s.names)
    ensures Live(s.inodes, Dir(s.names)[other])
    ensures !Touches(s, OpUnlink(name), Dir(s.names)[other])
  {
    DirLookup(s.names, other);
    NotLastEntry(s, FindName(s.names, name), FindName(s.names, other), name);
  }

  lemma NotLastEntry(s: State, e: nat, f: nat, name: string)
    requires Inv(s) && e == FindName(s.names, name) && f < |s.names| && s.names[f].name != name
    ensures Live(s.inodes, s.names[f].node) && !Touches(s, OpUnlink(name), s.names[f].node)
  {
    var node := s.names[f].node;
    assert Live(s.inodes, node);
    if e < |s.names| && s.names[e].node == node {
      TwoNames(s.names, e, f, node);
      assert s.inodes[FindInode(s.inodes, node)].refCount == CountNames(s.names, node);
    }
  }

  lemma TwoNames(names: seq<Name>, e: nat, f: nat, node: nat)
    requires e < |names| && f < |names| && e != f && names[e].node == names[f].node == node
    ensures CountNames(names, node) >= 2
  {
    CountRemove(names, e, node);
    RemovedAt(names, e);
    var rest := RemoveAt(names, e);
    assert rest[if f < e then f else f - 1].node == node;
    if CountNames(rest, node) == 0 { CountZero(rest, node); }
  }

  ghost function NamesOf(m: map<string, nat>, node: nat): set<string> {
    set x | x in m && m[x] == node
  }

  /** The reference count kept in an inode is the number of names of its index. */
  lemma {:induction false} CountIsNames(names: seq<Name>, node: nat)
    requires Unique(names)
    ensures CountNames(names, node) == |NamesOf(Dir(names), node)|
  {
    if |names| == 0 {
      assert NamesOf(Dir(names), node) == {};
    } else {
      var front, last := names[..|names| - 1], names[|names| - 1];
      assert names == front + [last] && forall e :: 0 <= e < |front| ==> front[e].name != last.name;
      CountIsNames(front, node);
      DirLookup(front, last.name);
      DirAppend(front, last);
      NamesAdded(Dir(front), last.name, last.node, node);
    }
  }

  lemma NamesAdded(m: map<string, nat>, name: string, node: nat, counted: nat)
    requires name !in m
    ensures |NamesOf(m[name := node], counted)| == |NamesOf(m, counted)| + (if node == counted then 1 else 0)
  {
    assert NamesOf(m[name := node], counted) == NamesOf(m, counted) + (if node == counted then {name} else {});
  }
}
