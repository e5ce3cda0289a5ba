/**
 The attributes of a file that decide who may use it: kind, owner, group and mode. They are
 set when the inode is created and only a successful chmod changes one of them.
 */
module Attributes {
  import opened Common
  import opened Blocks
  import opened Namespace
  import opened Invariant
  import opened Files
  import opened Runs
  import opened Permissions

  datatype Attr = Attr(kind: FileKind, owner: nat, group: nat, mode: int)

  function AttrOf(n: Inode): Attr {
    Attr(n.kind, n.owner, n.group, n.mode)
  }

  function AttrAt(inodes: seq<Inode>, index: nat): Option<Attr> {
    var p := FindInode(inodes, index);
    if p < |inodes| then Some(AttrOf(inodes[p])) else None
  }

  /** Every inode is still there, in order, with its attributes; others may follow. */
  ghost predicate SameAttrs(inodes: seq<Inode>, inodes': seq<Inode>) {
    && |inodes| <= |inodes'|
    && forall i :: 0 <= i < |inodes| ==>
         inodes'[i].index == inodes[i].index && AttrOf(inodes'[i]) == AttrOf(inodes[i])
  }

  lemma SameAttrAt(inodes: seq<Inode>, inodes': seq<Inode>, index: nat)
    requires SameAttrs(inodes, inodes') && AttrAt(inodes, index).Some?
    ensures AttrAt(inodes', index) == AttrAt(inodes, index)
  {
  }

  lemma QuietNameAttrs(s: State, op: Op, now: int)
    requires Typed(s) && (op.OpCreate? || op.OpStat? || op.OpRename? || op.OpLink?)
    ensures SameAttrs(s.inodes, Apply(s, op, now).0.inodes)
  {
  }

  lemma QuietFdAttrs(s: State, op: Op, now: int)
    requires Typed(s) && (op.OpOpen? || op.OpClose? || op.OpWrite? || op.OpRead? || op.OpSeek?)
    ensures SameAttrs(s.inodes, Apply(s, op, now).0.inodes)
  {
  }

  lemma CopyAttrs(s: State, slots: seq<nat>, n: nat)
    requires Typed(s) && SlotsInRange(slots) && |s.inodes| > 0
    ensures SameAttrs(s.inodes, SoftLinkCopy(s, slots, n).0.inodes)
    ensures SoftLinkCopy(s, slots, n).0.names == s.names
  {
  }

  lemma SymlinkUnfold(s: State, uid: nat, gid: nat, mode: int, name: string, link: string, now: int)
    returns (entered: bool, p: nat, s1: State)
    requires Inv(s)
    ensures var s' := SoftLink(s, uid, gid, mode, name, link, now).0;
            if !entered then s' == s
            else
              && p < |s.inodes| && s1 == SymlinkEntry(s, uid, gid, mode, p, link, now)
              && Typed(s1) && s' == SoftLinkCopy(s1, s.inodes[p].slots, s.inodes[p].size).0
  {
    p := FindInode(s.inodes, LookupOrZero(s.names, name));
    entered := ReadAccess(s, uid, gid, name) == Success && Taken(s.names, name) && !Taken(s.names, link)
        && p < |s.inodes|;
    s1 := if entered then SymlinkEntry(s, uid, gid, mode, p, link, now) else s;
  }

  lemma EntryAttrs(s: State, uid: nat, gid: nat, mode: int, p: nat, link: string, now: int)
    requires Inv(s) && p < |s.inodes|
    ensures var s1 := SymlinkEntry(s, uid, gid, mode, p, link, now);
            && SameAttrs(s.inodes, s1.inodes) && |s1.names| == |s.names| + 1
            && AttrAt(s1.inodes, NextIndex(s.inodes)) == Some(Attr(Symlink, uid, gid, mode))
  {
    LastAttr(s, SymlinkEntry(s, uid, gid, mode, p, link, now).inodes, Attr(Symlink, uid, gid, mode));
  }

  /** Whether or not the copy succeeds, a soft link leaves all attributes and, if it took the
      name, adds an inode with the caller's. */
  lemma SymlinkAttrs(s: State, uid: nat, gid: nat, mode: int, name: string, link: string, now: int)
    requires Inv(s)
    ensures var s' := SoftLink(s, uid, gid, mode, name, link, now).0;
            && SameAttrs(s.inodes, s'.inodes)
            && (s'.names == s.names ==> s' == s)
            && (s'.names != s.names ==> AttrAt(s'.inodes, NextIndex(s.inodes)) == Some(Attr(Symlink, uid, gid, mode)))
  {
    var entered, p, s1 := SymlinkUnfold(s, uid, gid, mode, name, link, now);
    if entered {
      EntryAttrs(s, uid, gid, mode, p, link, now);
      CopyAttrs(s1, s.inodes[p].slots, s.inodes[p].size);
      SameAttrAt(s1.inodes, SoftLinkCopy(s1, s.inodes[p].slots, s.inodes[p].size).0.inodes, NextIndex(s.inodes));
    }
  }

  lemma LastAttr(s: State, inodes': seq<Inode>, a: Attr)
    requires Inv(s) && SameAttrs(s.inodes, inodes') && |inodes'| == |s.inodes| + 1
    requires inodes'[|s.inodes|].index == NextIndex(s.inodes) && AttrOf(inodes'[|s.inodes|]) == a
    ensures AttrAt(inodes', NextIndex(s.inodes)) == Some(a)
  {
    NewIndexFresh(s.inodes, s.store);
  }

  /** A new file belongs to its creator, has the mode asked for, and is empty. */
  lemma CreateSets(s: State, uid: nat, gid: nat, mode: int, name: string, now: int)
    requires Inv(s) && !Taken(s.names, name)
    ensures var s', next := Create(s, uid, gid, mode, name, now).0, NextIndex(s.inodes);
            AttrAt(s'.inodes, next) == Some(Attr(Regular, uid, gid, mode)) && File(s', next) == Some([])
  {
    var s' := Create(s, uid, gid, mode, name, now).0;
    LastAttr(s, s'.inodes, Attr(Regular, uid, gid, mode));
    assert FindInode(s'.inodes, NextIndex(s.inodes)) == |s.inodes| by { NewIndexFresh(s.inodes, s.store); }
    assert Content(s'.store, s'.inodes[|s.inodes|]) == [];
  }

  /** There is such a file, and its mode allows the caller to write it. */
  predicate MayWrite(a: Option<Attr>, uid: nat, gid: nat) {
    a.Some? && Allows(uid, gid, a.value.owner, a.value.group, a.value.mode, true)
  }

  /** chmod is refused when the mode of the file that the name stands for does not allow the caller
      to write, and then for a missing name; otherwise it sets the mode of that file, as an
      unsigned, and changes the attributes of no other. */
  lemma ChmodSets(s: State, uid: nat, gid: nat, mode: int, name: string, now: int)
    requires Inv(s)
    ensures var (s', reply) := Chmod(s, uid, gid, mode, name, now);
            var node := LookupOrZero(s.names, name);
            && reply.status == (if !MayWrite(AttrAt(s.inodes, node), uid, gid) then InsufficientPerms
                                else if !Taken(s.names, name) then FileNotFound
                                else Success)
            && (reply.status != Success ==> s' == s)
            && (reply.status == Success ==>
                 && AttrAt(s.inodes, node).Some?
                 && AttrAt(s'.inodes, node) == Some(AttrAt(s.inodes, node).value.(mode := mode % U32)))
            && forall index :: index != node && AttrAt(s.inodes, index).Some? ==>
                 AttrAt(s'.inodes, index) == AttrAt(s.inodes, index)
  {
    var node := LookupOrZero(s.names, name);
    var p := FindInode(s.inodes, node);
    AccessIs(s, uid, gid, name);
    if p < |s.inodes| {
      var x := s.inodes[p].(mode := mode % U32, atime := now, ctime := now);
      SetAttr(s.inodes, p, x);
    }
  }

  lemma SetAttr(inodes: seq<Inode>, p: nat, x: Inode)
    requires p < |inodes| && x.index == inodes[p].index && p == FindInode(inodes, x.index)
    ensures AttrAt(inodes[p := x], x.index) == Some(AttrOf(x))
    ensures forall index :: index != x.index && AttrAt(inodes, index).Some? ==>
              AttrAt(inodes[p := x], index) == AttrAt(inodes, index)
  {
    forall index: nat | index != x.index && AttrAt(inodes, index).Some?
      ensures AttrAt(inodes[p := x], index) == AttrAt(inodes, index)
    {
      var i := FindInode(inodes, index);
      assert inodes[p := x][i] == inodes[i] && FindInode(inodes[p := x], index) == i;
    }
  }

  lemma UnlinkInodes(s: State, name: string, now: int) returns (p: nat, x: Inode)
    requires Inv(s) && Taken(s.names, name)
    ensures p < |s.inodes| && s.inodes[p].index == LookupOrZero(s.names, name)
    ensures x.index == s.inodes[p].index && AttrOf(x) == AttrOf(s.inodes[p])
    ensures var last := s.inodes[p].refCount == 1;
            && Unlink(s, name, now).0.inodes == (if last then RemoveAt(s.inodes, p) else s.inodes[p := x])
            && forall index :: Touches(s, OpUnlink(name), index) <==> last && index == s.inodes[p].index
  {
    var e := FindName(s.names, name);
    p := FindInode(s.inodes, s.names[e].node);
    assert Live(s.inodes, s.names[e].node);
    UnlinkUnfold(s, name, now, e, p);
    x := s.inodes[p].(refCount := s.inodes[p].refCount - 1, atime := now, ctime := now);
  }

  /** Unlink removes an inode exactly when it drops the last name of it. */
  lemma UnlinkAttrs(s: State, name: string, now: int, index: nat)
    requires Inv(s) && AttrAt(s.inodes, index).Some?
    ensures var after := AttrAt(Unlink(s, name, now).0.inodes, index);
            if Touches(s, OpUnlink(name), index) then after.None? else after == AttrAt(s.inodes, index)
  {
    if Taken(s.names, name) {
      var p, x := UnlinkInodes(s, name, now);
      DropAttrs(s.inodes, p, x, index);
    }
  }

  lemma DropAttrs(inodes: seq<Inode>, p: nat, x: Inode, index: nat)
    requires p < |inodes| && x.index == inodes[p].index && AttrOf(x) == AttrOf(inodes[p])
    requires AttrAt(inodes, index).Some?
    requires forall i, j :: 0 <= i < j < |inodes| ==> inodes[i].index < inodes[j].index
    ensures var after := AttrAt(RemoveAt(inodes, p), index);
            if index == inodes[p].index then after.None? else after == AttrAt(inodes, index)
    ensures AttrAt(inodes[p := x], index) == AttrAt(inodes, index)
  {
    RemovedAttr(inodes, p, index);
    SameAttrAt(inodes, inodes[p := x], index);
  }

  lemma RemovedAttr(inodes: seq<Inode>, p: nat, index: nat)
    requires p < |inodes| && AttrAt(inodes, index).Some?
    requires forall i, j :: 0 <= i < j < |inodes| ==> inodes[i].index < inodes[j].index
    ensures var after := AttrAt(RemoveAt(inodes, p), index);
            if index == inodes[p].index then after.None? else after == AttrAt(inodes, index)
  {
    if index != inodes[p].index {
      FindAfterRemove(inodes, p, index);
    } else {
      LiveAfterRemove(inodes, p, index);
    }
  }

  lemma SymlinkKeepsAttr(s: State, uid: nat, gid: nat, mode: int, name: string, link: string, now: int, index: nat)
    requires Inv(s) && AttrAt(s.inodes, index).Some?
    ensures AttrAt(SoftLink(s, uid, gid, mode, name, link, now).0.inodes, index) == AttrAt(s.inodes, index)
  {
    SymlinkAttrs(s, uid, gid, mode, name, link, now);
    SameAttrAt(s.inodes, SoftLink(s, uid, gid, mode, name, link, now).0.inodes, index);
  }

  lemma QuietKeepsAttr(s: State, op: Op, now: int, index: nat)
    requires Typed(s) && AttrAt(s.inodes, index).Some? && !op.OpChmod? && !op.OpUnlink? && !op.OpSymlink?
    ensures AttrAt(Apply(s, op, now).0.inodes, index) == AttrAt(s.inodes, index)
  {
    if op.OpCreate? || op.OpStat? || op.OpRename? || op.OpLink? {
      QuietNameAttrs(s, op, now);
    } else {
      QuietFdAttrs(s, op, now);
    }
    SameAttrAt(s.inodes, Apply(s, op, now).0.inodes, index);
  }

  /** A file disappears only when its last name is unlinked, and until then only a successful
      chmod of that very file changes its attributes. */
  lemma StepKeepsAttributes(s: State, op: Op, now: int, index: nat)
    requires Inv(s) && AttrAt(s.inodes, index).Some?
    requires op.OpChmod? ==> LookupOrZero(s.names, op.name) != index || Apply(s, op, now).1.status != Success
    ensures var after := AttrAt(Apply(s, op, now).0.inodes, index);
            if op.OpUnlink? && Touches(s, op, index) then after.None? else after == AttrAt(s.inodes, index)
  {
    match op
    case OpUnlink(name) => UnlinkAttrs(s, name, now, index);
    case OpChmod(uid, gid, mode, name) => ChmodSets(s, uid, gid, mode, name, now);
    case OpSymlink(uid, gid, mode, name, link) => SymlinkKeepsAttr(s, uid, gid, mode, name, link, now, index);
    case _ => QuietKeepsAttr(s, op, now, index);
  }
}
