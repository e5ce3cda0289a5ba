/**
 The twelve library calls as requests: which arguments each libfs_ function marshals, in which
 order, and what the service_ function of that request reads back.
 */
module Calls {
  import opened Common
  import opened Wire
  import opened Fragments
  import opened Namespace
  import opened Runs

  function KindOf(op: Op): RequestKind {
    match op
    case OpCreate(_, _, _, _) => CREATE
    case OpChmod(_, _, _, _) => CHMODE
    case OpStat(_, _, _) => STAT
    case OpRename(_, _) => RENAME
    case OpLink(_, _, _, _) => LINK
    case OpSymlink(_, _, _, _, _) => SYMLINK
    case OpOpen(_, _, _, _) => OPEN
    case OpClose(_) => CLOSE
    case OpWrite(_, _) => WRITE
    case OpRead(_, _) => READ
    case OpSeek(_, _) => SEEK
    case OpUnlink(_) => UNLINK
  }

  /** The arguments as the client lays them out. Calls whose permission nobody checks send the
      caller's identity as well, or, rename, not at all. */
  function Args(op: Op, uid: nat, gid: nat): seq<Arg> {
    match op
    case OpCreate(owner, group, mode, name) => [Word(owner), Word(group), Long(mode), Str(name)]
    case OpChmod(owner, group, mode, name) => [Word(owner), Word(group), Long(mode), Str(name)]
    case OpStat(owner, group, name) => [Word(owner), Word(group), Str(name)]
    case OpRename(name, newName) => [Str(name), Str(newName)]
    case OpLink(owner, group, name, link) => [Word(owner), Word(group), Str(name), Str(link)]
    case OpSymlink(owner, group, mode, name, link) => [Word(owner), Word(group), Long(mode), Str(name), Str(link)]
    case OpOpen(owner, group, name, flags) => [Word(owner), Word(group), Str(name), Int(flags)]
    case OpClose(fd) => [Word(uid), Word(gid), Word(fd)]
    case OpWrite(fd, buf) => [Word(uid), Word(gid), Word(fd), Word(|buf|), Raw(buf)]
    case OpRead(fd, n) => [Word(uid), Word(gid), Word(fd), Word(n)]
    case OpSeek(fd, off) => [Word(uid), Word(gid), Word(fd), Word(off)]
    case OpUnlink(name) => [Word(uid), Word(gid), Str(name)]
  }

  /** Arguments that their C types can hold. */
  predicate Sendable(op: Op, uid: nat, gid: nat) {
    AllStorable(Args(op, uid, gid), 0)
  }

  function Marshal(op: Op, uid: nat, gid: nat): seq<Byte>
    requires Sendable(op, uid, gid)
  {
    PackAll(Args(op, uid, gid), 0)
  }

  /** The arguments that each service function reads. */
  function Reading(kind: RequestKind): seq<Shape> {
    match kind
    case CREATE => [AWord, AWord, ALong, AStr]
    case CHMODE => [AWord, AWord, ALong, AStr]
    case STAT => [AWord, AWord, AStr]
    case RENAME => [AStr, AStr]
    case LINK => [AWord, AWord, AStr, AStr]
    case SYMLINK => [AWord, AWord, ALong, AStr, AStr]
    case OPEN => [AWord, AWord, AStr, AnInt]
    case CLOSE => [AWord, AWord, AWord]
    case WRITE => [AWord, AWord, AWord, AWord, ARaw]
    case READ => [AWord, AWord, AWord, AWord]
    case SEEK => [AWord, AWord, AWord, AWord]
    case UNLINK => [AWord, AWord, AStr]
  }

  /** The operation that a service function performs on the arguments it has read. */
  function Performed(kind: RequestKind, a: seq<Arg>): Option<Op>
    requires ShapesOf(a) == Reading(kind)
  {
    assert forall i :: 0 <= i < |a| ==> ShapeOf(a[i]) == Reading(kind)[i] by { ShapesAt(a); }
    match kind
    case CREATE => Some(OpCreate(a[0].x, a[1].x, a[2].l, a[3].s))
    case CHMODE => Some(OpChmod(a[0].x, a[1].x, a[2].l, a[3].s))
    case STAT => Some(OpStat(a[0].x, a[1].x, a[2].s))
    case RENAME => Some(OpRename(a[0].s, a[1].s))
    case LINK => Some(OpLink(a[0].x, a[1].x, a[2].s, a[3].s))
    case SYMLINK => Some(OpSymlink(a[0].x, a[1].x, a[2].l, a[3].s, a[4].s))
    case OPEN => Some(OpOpen(a[0].x, a[1].x, a[2].s, a[3].v))
    case CLOSE => Some(OpClose(a[2].x))
    case WRITE => if |a[4].data| < U32 then Some(OpWrite(a[2].x, a[4].data)) else None
    case READ => Some(OpRead(a[2].x, a[3].x))
    case SEEK => Some(OpSeek(a[2].x, a[3].x))
    case UNLINK => Some(OpUnlink(a[2].s))
  }

  lemma {:induction false} ShapesAt(a: seq<Arg>)
    ensures forall i :: 0 <= i < |a| ==> ShapesOf(a)[i] == ShapeOf(a[i])
  {
    if |a| == 0 {
    } else {
      ShapesAt(a[1..]);
      forall i | 0 < i < |a| ensures ShapesOf(a)[i] == ShapeOf(a[i]) {
        assert ShapesOf(a)[i] == ShapesOf(a[1..])[i - 1];
      }
    }
  }

  /** What the service does with a request. None stands for a request that is too short for its
      arguments, which no client sends. */
  function Unmarshal(kind: RequestKind, b: seq<Byte>): Option<Op> {
    var a := UnpackAll(Reading(kind), b, 0, 0);
    if a.None? then None else Performed(kind, a.value)
  }

  lemma ArgsHaveShape(op: Op, uid: nat, gid: nat)
    ensures ShapesOf(Args(op, uid, gid)) == Reading(KindOf(op))
    ensures Sendable(op, uid, gid) ==> Performed(KindOf(op), Args(op, uid, gid)) == Some(op)
  {
    var a := Args(op, uid, gid);
    ShapesAt(a);
    assert forall i :: 0 <= i < |a| ==> ShapesOf(a)[i] == Reading(KindOf(op))[i];
  }

  /** The service performs the operation that the client called, for each of the twelve calls. */
  lemma CallRoundTrip(op: Op, uid: nat, gid: nat)
    requires Sendable(op, uid, gid)
    ensures Unmarshal(KindOf(op), Marshal(op, uid, gid)) == Some(op)
  {
    var a, b := Args(op, uid, gid), Marshal(op, uid, gid);
    ArgsHaveShape(op, uid, gid);
    assert b[0..] == b;
    UnpackAllInverts(a, 0, b, 0);
  }

  datatype WriteArgs = WriteArgs(uid: nat, gid: nat, fd: nat, data: seq<Byte>)

  ghost predicate IsWrite(b: seq<Byte>, a: WriteArgs) {
    |a.data| < U32 && Sendable(OpWrite(a.fd, a.data), a.uid, a.gid) && b == Marshal(OpWrite(a.fd, a.data), a.uid, a.gid)
  }

  lemma NextWord(b: seq<Byte>, at: nat, x: nat, rest: seq<Byte>)
    requires x < U32 && Ends(b, at, Le(x, 4) + rest)
    ensures at + 4 <= |b| && ReadLe(b, at, 4) == x && Ends(b, at + 4, rest)
  {
    EndsWith(b, at, Le(x, 4), rest);
    Powers();
    LeInverts(x, 4, b, at);
  }

  lemma PackStep(args: seq<Arg>, last: nat, first: Arg, rest: seq<Arg>)
    requires AllStorable(args, last) && args == [first] + rest
    ensures Storable(first, last) && AllStorable(rest, Last(first, last))
    ensures PackAll(args, last) == Pack(first, last) + PackAll(rest, Last(first, last))
  {
    assert args[1..] == rest;
  }

  lemma WriteBytesAre(b: seq<Byte>, a: WriteArgs)
    requires IsWrite(b, a)
    ensures a.uid < U32 && a.gid < U32 && a.fd < U32
    ensures b == Le(a.uid, 4) + (Le(a.gid, 4) + (Le(a.fd, 4) + (Le(|a.data|, 4) + a.data)))
  {
    var n, end := |a.data|, [Raw(a.data)];
    PackStep(Args(OpWrite(a.fd, a.data), a.uid, a.gid), 0, Word(a.uid), [Word(a.gid), Word(a.fd), Word(n)] + end);
    PackStep([Word(a.gid), Word(a.fd), Word(n)] + end, a.uid, Word(a.gid), [Word(a.fd), Word(n)] + end);
    PackStep([Word(a.fd), Word(n)] + end, a.gid, Word(a.fd), [Word(n)] + end);
    PackStep([Word(n)] + end, a.fd, Word(n), end);
    PackStep(end, n, Raw(a.data), []);
    assert a.data + [] == a.data;
  }

  lemma WriteArgsRead(b: seq<Byte>, a: WriteArgs)
    requires IsWrite(b, a)
    ensures 16 + |a.data| == |b| && b[16..16 + |a.data|] == a.data
    ensures ReadLe(b, 0, 4) == a.uid && ReadLe(b, 4, 4) == a.gid && ReadLe(b, 8, 4) == a.fd
    ensures ReadLe(b, 12, 4) == |a.data|
  {
    WriteBytesAre(b, a);
    var last := Le(|a.data|, 4) + a.data;
    assert b[0..] == b;
    NextWord(b, 0, a.uid, Le(a.gid, 4) + (Le(a.fd, 4) + last));
    NextWord(b, 4, a.gid, Le(a.fd, 4) + last);
    NextWord(b, 8, a.fd, last);
    NextWord(b, 12, |a.data|, a.data);
  }

  /** service_write's reading of its arguments, at a moving offset: of a request that a client
      marshalled it reads exactly what the client put in. */
  method ReadWriteArgs(b: seq<Byte>) returns (a: Option<WriteArgs>)
    ensures forall x :: IsWrite(b, x) ==> a == Some(x)
  {
    forall x | IsWrite(b, x)
      ensures 16 + |x.data| == |b| && b[16..16 + |x.data|] == x.data && ReadLe(b, 12, 4) == |x.data|
      ensures ReadLe(b, 0, 4) == x.uid && ReadLe(b, 4, 4) == x.gid && ReadLe(b, 8, 4) == x.fd
    {
      WriteArgsRead(b, x);
    }
    if |b| < 16 { return None; }
    var copyOff := 0;
    var uid := ReadLe(b, copyOff, 4);
    copyOff := copyOff + 4;
    var gid := ReadLe(b, copyOff, 4);
    copyOff := copyOff + 4;
    var fd := ReadLe(b, copyOff, 4);
    copyOff := copyOff + 4;
    var size := ReadLe(b, copyOff, 4);
    copyOff := copyOff + 4;
    if copyOff + size > |b| { return None; }
    return Some(WriteArgs(uid, gid, fd, b[copyOff..copyOff + size]));
  }
}
