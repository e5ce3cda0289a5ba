/**
 From one client's write to another one's read, through the whole service: marshalling,
 fragmentation, the ring, the worker, storage, and the same way back, while other clients'
 requests are served in between.
 */
module EndToEnd {
  import opened Common
  import opened Fragments
  import opened RingBuffer
  import opened Delivery
  import opened Calls
  import opened Blocks
  import opened Namespace
  import opened Invariant
  import opened Files
  import opened Service
  import Runs
  import Backing
  import Restart

  // ------------------------------------------------------------------ the client side

  /** The messages of a payload as they arrive: first part first, the others in any order. */
  ghost predicate Arrives(inbox: seq<Part>, seqno: int, kind: RequestKind, payload: seq<Byte>, order: seq<nat>) {
    var n := NumParts(|payload|);
    && Order(order, n) && |order| == n - 1 && |inbox| == n
    && inbox[0] == PartAt(seqno, kind, payload, 0)
    && forall i :: 0 <= i < |order| ==> inbox[i + 1] == PartAt(seqno, kind, payload, order[i])
  }

  /** The receiving loop of libfs_read: it copies the first part to the front of the buffer and
      the others to their offsets, until all bytes are there. */
  method CollectResponse(inbox: seq<Part>, ghost seqno: int, ghost kind: RequestKind, ghost payload: seq<Byte>,
                         ghost order: seq<nat>, junk: seq<Byte>) returns (buf: seq<Byte>, taken: nat)
    requires Arrives(inbox, seqno, kind, payload, order) && |junk| == |payload|
    ensures buf == payload && taken == |inbox|
  {
    var size: nat := inbox[0].dataSize;
    var copied: nat := inbox[0].partSize;
    PartEnds(|payload|, 0);
    buf := Splice(junk, 0, inbox[0].data[..copied]);
    taken := 1;
    if |inbox| > 1 {
      FirstIsPartial(seqno, kind, payload, junk);
    } else {
      assert inbox[0].data[..copied] == payload;
    }
    while copied < size
      invariant 1 <= taken <= |inbox| && size == |payload|
      invariant taken < |inbox| ==>
                  Partial(Req(seqno, kind, InProgress, size, copied, buf), seqno, kind, payload, order[..taken - 1])
      invariant taken < |inbox| ==> copied < size
      invariant taken == |inbox| ==> copied == size && buf == payload
      decreases |inbox| - taken
    {
      var m := inbox[taken];
      ghost var front, x := order[..taken - 1], order[taken - 1];
      assert x !in front && front + [x] == order[..taken];
      NextPart(Req(seqno, kind, InProgress, size, copied, buf), seqno, kind, payload, front, x);
      NextOffset(size, front, x);
      buf := Splice(buf, m.dataOffset, m.data[..m.partSize]);
      copied := copied + m.partSize;
      taken := taken + 1;
    }
  }

  /** At the moment the worker dispatches a request, in any merge, its slot holds the request of
      one client, byte for byte, and so the operation called. */
  lemma RequestArrives(states: seq<Srv>, events: seq<SrvEvent>, fs: Tables, calls: seq<Call>,
                       tags: seq<nat>, size: nat, i: nat)
    requires ServiceRun(states, events, fs, calls, tags, size) && i < |events| && events[i].event == Finish
    requires Clear(Requests(calls), states[i].sys)
    ensures var s := states[i].sys;
            && RingOk(s.ring) && s.worker.Some? && s.worker.value < |s.ring.reqs| && 0 < |s.taken| <= |calls|
            && var q, c := s.ring.reqs[s.worker.value], calls[|s.taken| - 1];
            && WellCalled(c) && q.status == Ready && q.seqno == c.seqno && q.kind == KindOf(c.op)
            && q.data == Marshal(c.op, c.uid, c.gid)
            && Unmarshal(q.kind, q.data) == Some(c.op)
  {
    var s := states[i].sys;
    assert SrvStep(states[i], events[i], states[i + 1]);
    SystemRun(states, events, fs, calls, tags, size);
    WorkerKeepsRequest(Systems(states), Events(events), Requests(calls), tags, size, i);
    SlotIsCall(s.ring.reqs[s.worker.value], calls, |s.taken| - 1);
  }

  // ------------------------------------------------------------------ one descriptor among others

  ghost function DescAt(descs: seq<Desc>, fd: nat): Option<Desc> {
    var d := FindDesc(descs, fd);
    if d < |descs| then Some(descs[d]) else None
  }

  /** The operation names this descriptor. */
  predicate Uses(op: Runs.Op, fd: nat) {
    match op
    case OpClose(f) => f == fd
    case OpWrite(f, _) => f == fd
    case OpRead(f, _) => f == fd
    case OpSeek(f, _) => f == fd
    case _ => false
  }

  /** fd is this descriptor, and its file has this content. */
  ghost predicate OpenOn(s: State, fd: nat, d: Desc, content: seq<Byte>) {
    DescAt(s.descs, fd) == Some(d) && File(s, d.node) == Some(content)
  }

  lemma QuietDesc(s: State, op: Runs.Op, now: int, fd: nat)
    requires Typed(s) && !Uses(op, fd) && DescAt(s.descs, fd).Some?
    ensures DescAt(Runs.Apply(s, op, now).0.descs, fd) == DescAt(s.descs, fd)
  {
    DescChange(s, op, now);
    var descs, descs' := s.descs, Runs.Apply(s, op, now).0.descs;
    match op
    case OpClose(f) => if FindDesc(descs, f) < |descs| { RemoveOther(descs, FindDesc(descs, f), fd); }
    case _ => SameDesc(descs, descs', fd);
  }

  lemma SameDesc(descs: seq<Desc>, descs': seq<Desc>, fd: nat)
    requires FindDesc(descs, fd) < |descs| <= |descs'| && descs'[FindDesc(descs, fd)] == descs[FindDesc(descs, fd)]
    requires forall i :: 0 <= i < |descs| ==> descs'[i].fd == descs[i].fd
    ensures DescAt(descs', fd) == DescAt(descs, fd)
  {
    assert FindDesc(descs', fd) == FindDesc(descs, fd);
  }

  lemma RemoveOther(descs: seq<Desc>, e: nat, fd: nat)
    requires e < |descs| && FindDesc(descs, fd) < |descs| && descs[e].fd != fd
    ensures DescAt(RemoveAt(descs, e), fd) == DescAt(descs, fd)
  {
    var d := FindDesc(descs, fd);
    var k := if d < e then d else d - 1;
    RemovedAt(descs, e);
    assert RemoveAt(descs, e)[k] == descs[d];
    assert FindDesc(RemoveAt(descs, e), fd) == k;
  }

  /** What the operations do to the descriptor list. */
  lemma DescChange(s: State, op: Runs.Op, now: int)
    requires Typed(s)
    ensures var descs, descs' := s.descs, Runs.Apply(s, op, now).0.descs;
            match op
            case OpOpen(_, _, _, _) => descs' == descs || (|descs'| == |descs| + 1 && descs'[..|descs|] == descs)
            case OpClose(f) =>
              var e := FindDesc(descs, f);
              descs' == if e < |descs| then RemoveAt(descs, e) else descs
            case _ =>
              && |descs'| == |descs|
              && forall i :: 0 <= i < |descs| ==>
                   descs'[i].fd == descs[i].fd && (Uses(op, descs[i].fd) || descs'[i] == descs[i])
  {
  }

  /** In a safe step nobody but a user of the write descriptor touches its file. */
  lemma NotTouched(s: State, op: Runs.Op, fd: nat, d: Desc)
    requires Inv(s) && Runs.Safe(s, op) && !Uses(op, fd) && DescAt(s.descs, fd) == Some(d) && d.mode == WRITE_ONLY
    ensures !Runs.Touches(s, op, d.node)
  {
    var i := FindDesc(s.descs, fd);
    match op
    case OpWrite(f, _) =>
      var j := FindDesc(s.descs, f);
      if j < |s.descs| {
        assert DescOk(s.descs[j], s.inodes);
        assert i != j;
      }
    case OpUnlink(name) =>
      assert DescOk(s.descs[i], s.inodes);
    case _ =>
  }

  lemma QuietStep(s: State, e: Runs.Event, s': State, fd: nat, d: Desc, content: seq<Byte>)
    requires Inv(s) && Runs.Step(s, e, s') && Runs.Safe(s, e.op) && !Uses(e.op, fd)
    requires OpenOn(s, fd, d, content) && d.mode == WRITE_ONLY
    ensures OpenOn(s', fd, d, content)
  {
    QuietDesc(s, e.op, e.now, fd);
    NotTouched(s, e.op, fd, d);
    Runs.KeptByStep(s, e, s', d.node);
  }

  /** Whatever other requests are served meanwhile, a write descriptor and its file stay. */
  lemma {:induction false} QuietRun(states: seq<State>, events: seq<Runs.Event>, a: nat, b: nat, fd: nat, d: Desc,
                                    content: seq<Byte>)
    requires Runs.IsRun(states, events) && a <= b <= |events| && Inv(states[0]) && Runs.AllSafe(states, events)
    requires forall j :: a <= j < b ==> !Uses(events[j].op, fd)
    requires OpenOn(states[a], fd, d, content) && d.mode == WRITE_ONLY
    ensures OpenOn(states[b], fd, d, content)
    decreases b - a
  {
    if a < b {
      Runs.RunInv(states, events, a);
      assert Runs.Step(states[a], events[a], states[a + 1]);
      QuietStep(states[a], events[a], states[a + 1], fd, d, content);
      QuietRun(states, events, a + 1, b, fd, d, content);
    }
  }

  // ------------------------------------------------------------------ write, seek, read

  /** The write can succeed: fd is a write descriptor at this offset, and the data fits. */
  ghost predicate CanWrite(s: State, fd: nat, data: Buffer, off: nat) {
    var d := FindDesc(s.descs, fd);
    && d < |s.descs| && s.descs[d].mode == WRITE_ONLY && s.descs[d].off == off && off + |data| < U32
    && Target(s, d) < |s.inodes| && SlotsInRange(s.inodes[Target(s, d)].slots)
    && Fits(s.inodes[Target(s, d)].slots, off, |data|, s.store)
  }

  lemma AfterWrite(s: State, fd: nat, data: Buffer, now: int, off: nat) returns (d: Desc, front: seq<Byte>)
    requires Inv(s) && CanWrite(s, fd, data, off)
    ensures Typed(s) && |front| == off && d.mode == WRITE_ONLY
    ensures Write(s, fd, data, now).1.status == Success
    ensures OpenOn(Write(s, fd, data, now).0, fd, d, front + data)
  {
    var i := FindDesc(s.descs, fd);
    var p, s1 := Target(s, i), Write(s, fd, data, now).0;
    assert Writable(s, fd);
    WriteOpen(s, fd, data, now, i);
    WriteKeepsTables(s, fd, data, now, i, p);
    SameWalks(s, s1, fd, i, p);
    d, front := s1.descs[i], MappedBytes(s.store, s.inodes[p].slots)[..off];
  }

  /** A write keeps which descriptor and which inode are where. */
  lemma WriteKeepsTables(s: State, fd: nat, data: Buffer, now: int, d: nat, p: nat)
    requires Typed(s) && d == FindDesc(s.descs, fd) < |s.descs| && p == Target(s, d) < |s.inodes|
    ensures var s1 := Write(s, fd, data, now).0;
            && |s1.descs| == |s.descs| && |s1.inodes| == |s.inodes|
            && (forall i :: 0 <= i < |s.descs| ==>
                 s1.descs[i].fd == s.descs[i].fd && s1.descs[i].node == s.descs[i].node
                     && s1.descs[i].mode == s.descs[i].mode)
            && (forall i :: 0 <= i < |s.inodes| ==> s1.inodes[i].index == s.inodes[i].index)
  {
  }

  lemma SameWalks(s: State, s1: State, fd: nat, d: nat, p: nat)
    requires d == FindDesc(s.descs, fd) < |s.descs| && p == Target(s, d) < |s.inodes|
    requires |s1.descs| == |s.descs| && |s1.inodes| == |s.inodes|
    requires forall i :: 0 <= i < |s.descs| ==> s1.descs[i].fd == s.descs[i].fd && s1.descs[i].node == s.descs[i].node
    requires forall i :: 0 <= i < |s.inodes| ==> s1.inodes[i].index == s.inodes[i].index
    ensures FindDesc(s1.descs, fd) == d && Target(s1, d) == p
  {
  }

  /** The size of an open file is the length of its content. */
  lemma OpenSize(s: State, fd: nat, d: Desc, content: seq<Byte>) returns (i: nat, p: nat)
    requires Inv(s) && OpenOn(s, fd, d, content)
    ensures i == FindDesc(s.descs, fd) < |s.descs| && s.descs[i] == d && p == Target(s, i) < |s.inodes|
    ensures s.inodes[p].size == |content| && Content(s.store, s.inodes[p]) == content
  {
    i := FindDesc(s.descs, fd);
    p := Target(s, i);
    TargetLive(s, i);
  }

  lemma AfterSeek(s: State, fd: nat, off: nat, d: Desc, content: seq<Byte>)
    requires Inv(s) && OpenOn(s, fd, d, content) && off <= |content|
    ensures Seek(s, fd, off).1.status == Success
    ensures OpenOn(Seek(s, fd, off).0, fd, d.(off := off), content)
  {
    var i, p := OpenSize(s, fd, d, content);
    assert Seek(s, fd, off) == (SetOffset(s, i, off), Ok());
    SameWalks(s, SetOffset(s, i, off), fd, i, p);
  }

  lemma AfterRead(s: State, fd: nat, n: nat, now: int, d: Desc, content: seq<Byte>)
    requires Inv(s) && OpenOn(s, fd, d, content) && d.off + n <= |content| && n < U32
    ensures Typed(s) && Read(s, fd, n, now).1 == Reply(Success, 0, content[d.off..d.off + n])
  {
    var i, p := OpenSize(s, fd, d, content);
    ReadInsideFile(s, fd, n, now);
  }

  lemma WriteStep(s: State, e: Runs.Event, s': State, fd: nat, data: Buffer, off: nat)
    returns (d: Desc, front: seq<Byte>)
    requires Inv(s) && Runs.Step(s, e, s') && e.op == Runs.OpWrite(fd, data) && CanWrite(s, fd, data, off)
    ensures |front| == off && d.mode == WRITE_ONLY && OpenOn(s', fd, d, front + data)
    ensures Runs.Apply(s, e.op, e.now).1.status == Success
  {
    d, front := AfterWrite(s, fd, data, e.now, off);
  }

  lemma SeekStep(s: State, e: Runs.Event, s': State, fd: nat, off: nat, d: Desc, content: seq<Byte>)
    requires Inv(s) && Runs.Step(s, e, s') && e.op == Runs.OpSeek(fd, off) && OpenOn(s, fd, d, content)
        && off <= |content|
    ensures OpenOn(s', fd, d.(off := off), content) && Runs.Apply(s, e.op, e.now).1.status == Success
  {
    AfterSeek(s, fd, off, d, content);
  }

  lemma ReadStep(s: State, e: Runs.Event, s': State, fd: nat, n: nat, d: Desc, front: seq<Byte>, data: seq<Byte>)
    requires Inv(s) && Runs.Step(s, e, s') && e.op == Runs.OpRead(fd, n) && OpenOn(s, fd, d, front + data)
    requires d.off == |front| && n == |data| < U32
    ensures Runs.Apply(s, e.op, e.now).1 == Reply(Success, 0, data)
  {
    DataBehind(front, data);
    ReadThere(s, fd, n, e.now, d, front + data, data);
  }

  lemma ReadThere(s: State, fd: nat, n: nat, now: int, d: Desc, content: seq<Byte>, data: seq<Byte>)
    requires Inv(s) && OpenOn(s, fd, d, content) && d.off + n <= |content| && n < U32
        && content[d.off..d.off + n] == data
    ensures Typed(s) && Read(s, fd, n, now).1 == Reply(Success, 0, data)
  {
    AfterRead(s, fd, n, now, d, content);
  }

  lemma DataBehind(front: seq<Byte>, data: seq<Byte>)
    ensures (front + data)[|front|..|front| + |data|] == data
  {
  }

  /** Write, seek back, read, in this order and with any other operations in between that do not
      use the descriptor: all three succeed, and the bytes come back. */
  lemma StoredAndRead(states: seq<State>, events: seq<Runs.Event>, k: nat, l: nat, m: nat, fd: nat, data: Buffer,
                      off: nat)
    requires Runs.IsRun(states, events) && Inv(states[0]) && Runs.AllSafe(states, events)
    requires k < l < m < |events| && CanWrite(states[k], fd, data, off)
    requires events[k].op == Runs.OpWrite(fd, data) && events[l].op == Runs.OpSeek(fd, off)
    requires events[m].op == Runs.OpRead(fd, |data|)
    requires forall j :: k < j < m && j != l ==> !Uses(events[j].op, fd)
    ensures Typed(states[k]) && Runs.Apply(states[k], events[k].op, events[k].now).1.status == Success
    ensures Typed(states[l]) && Runs.Apply(states[l], events[l].op, events[l].now).1.status == Success
    ensures Typed(states[m]) && Runs.Apply(states[m], events[m].op, events[m].now).1 == Reply(Success, 0, data)
  {
    StepAt(states, events, k);
    var d, front := WriteStep(states[k], events[k], states[k + 1], fd, data, off);
    QuietRun(states, events, k + 1, l, fd, d, front + data);
    StepAt(states, events, l);
    SeekStep(states[l], events[l], states[l + 1], fd, off, d, front + data);
    QuietRun(states, events, l + 1, m, fd, d.(off := off), front + data);
    StepAt(states, events, m);
    ReadStep(states[m], events[m], states[m + 1], fd, |data|, d.(off := off), front, data);
  }

  lemma StepAt(states: seq<State>, events: seq<Runs.Event>, k: nat)
    requires Runs.IsRun(states, events) && Inv(states[0]) && Runs.AllSafe(states, events) && k < |events|
    ensures Inv(states[k]) && Runs.Step(states[k], events[k], states[k + 1])
  {
    Runs.RunInv(states, events, k);
  }

  // ------------------------------------------------------------------ all together

  /** The messages with which service_read answers: the data in parts, or one empty part. */
  function AnswerParts(answer: (int, Reply)): seq<Part> {
    Parts(answer.0, READ, if answer.1.status == Success then answer.1.data else [])
  }

  /** The whole path, for every byte string that fits. In any run of the service on contiguous
      requests, whatever the order of the parts after the first, the interleaving of the two
      threads and the other clients' calls in between: once a write, a seek back to where it
      began and a read of the same length have been served, the read has been answered, under
      its own number, with messages that join to the bytes written. */
  lemma WriteThenReadEndToEnd(states: seq<Srv>, events: seq<SrvEvent>, fs: Tables, calls: seq<Call>, tags: seq<nat>,
                              size: nat, i: nat, k: nat, l: nat, m: nat, fd: nat, data: Buffer, off: nat)
    requires ServiceRun(states, events, fs, calls, tags, size) && i <= |events|
    requires Contiguous(Requests(calls), [], tags)
    requires k < l < m < |calls| && m < |states[i].log| && Running(states[i])
    requires calls[k].op == Runs.OpWrite(fd, data) && calls[l].op == Runs.OpSeek(fd, off)
    requires calls[m].op == Runs.OpRead(fd, |data|)
    requires forall j :: k < j < m && j != l ==> !Uses(calls[j].op, fd)
    requires Inv(fs) && Runs.AllSafe(states[i].trace, states[i].log) && CanWrite(states[i].trace[k], fd, data, off)
    ensures |states[i].replies| == |states[i].log|
    ensures states[i].replies[k].1.status == Success && states[i].replies[l].1.status == Success
    ensures states[i].replies[m] == (calls[m].seqno, Reply(Success, 0, data))
    ensures var responses := AnswerParts(states[i].replies[m]);
            Arrives(responses, calls[m].seqno, READ, data, Upwards(NumParts(|data|))) && Joined(responses) == data
  {
    var s := states[i];
    CallsInOrder(states, events, fs, calls, tags, size, i);
    assert AsCalled(s, calls, k) && AsCalled(s, calls, l) && AsCalled(s, calls, m);
    forall j | k < j < m && j != l ensures !Uses(s.log[j].op, fd) {
      assert AsCalled(s, calls, j);
    }
    StoredAndRead(s.trace, s.log, k, l, m, fd, data, off);
    PartsArriveInOrder(calls[m].seqno, data);
    PartsTile(calls[m].seqno, READ, data);
  }

  ghost function Logged(log: seq<Runs.Event>): (r: seq<Restart.LongEvent>)
    ensures |r| == |log| && forall i :: 0 <= i < |r| ==> r[i] == Restart.Do(log[i])
  {
    seq(|log|, i requires 0 <= i < |log| => Restart.Do(log[i]))
  }

  /** The same of the data file that the code keeps: when the service started empty, no unlink has
      lost a list head and none before the read has dropped a file that had blocks, the bytes that
      the code reads for it are the bytes written. */
  lemma CodeReturnsBytes(states: seq<Srv>, events: seq<SrvEvent>, fs: Tables, calls: seq<Call>, tags: seq<nat>,
                         size: nat, i: nat, k: nat, l: nat, m: nat, fd: nat, data: Buffer, off: nat,
                         files: seq<seq<Byte>>)
    requires ServiceRun(states, events, fs, calls, tags, size) && i <= |events|
    requires Contiguous(Requests(calls), [], tags)
    requires k < l < m < |calls| && m < |states[i].log| && Running(states[i])
    requires calls[k].op == Runs.OpWrite(fd, data) && calls[l].op == Runs.OpSeek(fd, off)
    requires calls[m].op == Runs.OpRead(fd, |data|)
    requires forall j :: k < j < m && j != l ==> !Uses(calls[j].op, fd)
    requires Inv(fs) && Runs.AllSafe(states[i].trace, states[i].log) && CanWrite(states[i].trace[k], fd, data, off)
    requires Backing.IsCodeRun(states[i].trace, files, Logged(states[i].log))
    requires !Backing.Dropped(states[i].trace, Logged(states[i].log), m)
    ensures var s := states[i].trace[m];
            var d := FindDesc(s.descs, fd);
            && Typed(s) && d < |s.descs| && Target(s, d) < |s.inodes|
            && Backing.CodeRead(files[m], s.inodes[Target(s, d)].slots, s.descs[d].off, |data|).ok
            && Backing.CodeRead(files[m], s.inodes[Target(s, d)].slots, s.descs[d].off, |data|).data == data
  {
    var s := states[i].trace[m];
    CallsInOrder(states, events, fs, calls, tags, size, i);
    assert AsCalled(states[i], calls, m);
    WriteThenReadEndToEnd(states, events, fs, calls, tags, size, i, k, l, m, fd, data, off);
    var d := ReadReply(s, fd, |data|, states[i].log[m].now, data);
    Backing.CodeReadsRight(states[i].trace, files, Logged(states[i].log), m, Target(s, d), s.descs[d].off, |data|);
  }

  /** What a successful read says about the block loop. */
  lemma ReadReply(s: State, fd: nat, n: nat, now: int, data: seq<Byte>) returns (d: nat)
    requires Typed(s) && Read(s, fd, n, now).1 == Reply(Success, 0, data)
    ensures d == FindDesc(s.descs, fd) < |s.descs| && Target(s, d) < |s.inodes|
    ensures var r := ReadLoop(s.store, s.inodes[Target(s, d)].slots, s.descs[d].off, n); r.ok && r.data == data
  {
    d := FindDesc(s.descs, fd);
  }

  ghost function Upwards(n: nat): (order: seq<nat>)
    requires n >= 1
    ensures |order| == n - 1 && forall i :: 0 <= i < |order| ==> order[i] == i + 1
  {
    seq(n - 1, i => i + 1)
  }

  lemma PartsArriveInOrder(seqno: int, data: seq<Byte>)
    ensures Arrives(Parts(seqno, READ, data), seqno, READ, data, Upwards(NumParts(|data|)))
  {
  }

  /** The same in code: what the client finally holds is what was written. */
  method ClientReads(responses: seq<Part>, ghost readSeq: int, ghost data: seq<Byte>, junk: seq<Byte>)
    returns (buf: seq<Byte>)
    requires responses == Parts(readSeq, READ, data) && |junk| == |data|
    ensures buf == data
  {
    PartsArriveInOrder(readSeq, data);
    var taken;
    buf, taken := CollectResponse(responses, readSeq, READ, data, Upwards(NumParts(|data|)), junk);
  }
}
