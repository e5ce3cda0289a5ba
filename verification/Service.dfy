/**
 The whole service: the receiver, the ring, and a worker that performs each request it has
 taken on the file system, reading the arguments from its slot. Requests that travel through
 the ring have the effect of the same operations performed one after the other.
 */
module Service {
  import opened Common
  import opened Fragments
  import opened RingBuffer
  import opened Delivery
  import opened Calls
  import opened Blocks
  import opened Namespace
  import opened Invariant
  import Runs

  // ------------------------------------------------------------------ the system

  /** A file system state whose arrays have their declared sizes. */
  type Tables = s: State | Typed(s) ghost witness Runs.Empty()

  /** trace holds the file system states so far, one more than operations performed; log the
      operations and their times; replies the answers with the numbers of their requests. */
  datatype Srv = Srv(sys: Sys, trace: seq<Tables>, log: seq<Runs.Event>, replies: seq<(int, Reply)>)

  datatype SrvEvent = SrvEvent(event: Event, now: int)

  predicate Running(s: Srv) {
    |s.trace| == |s.log| + 1
  }

  function Fs(s: Srv): Tables
    requires Running(s)
  {
    s.trace[|s.log|]
  }

  ghost predicate SrvEnabled(s: Srv, e: SrvEvent) {
    Running(s) && Enabled(s.sys, e.event)
  }

  /** Between take and reset the worker dispatches the request in its slot; the moment is taken
      to be the reset. A request too short for its arguments has no defined effect; none is
      ever handed out. */
  ghost function SrvNext(s: Srv, e: SrvEvent): (s': Srv)
    requires SrvEnabled(s, e)
    ensures Running(s')
  {
    var sys' := Next(s.sys, e.event);
    if e.event != Finish then s.(sys := sys')
    else
      var q := s.sys.ring.reqs[s.sys.worker.value];
      var op := Unmarshal(q.kind, q.data);
      if op.None? then s.(sys := sys') else Perform(s.(sys := sys'), q.seqno, Runs.Event(op.value, e.now))
  }

  ghost function Perform(s: Srv, seqno: int, e: Runs.Event): (s': Srv)
    requires Running(s)
    ensures Running(s')
  {
    Runs.StepTyped(Fs(s), e.op, e.now);
    var (fs, reply) := Runs.Apply(Fs(s), e.op, e.now);
    Srv(s.sys, s.trace + [fs], s.log + [e], s.replies + [(seqno, reply)])
  }

  // ------------------------------------------------------------------ what the clients call

  datatype Call = Call(seqno: int, uid: nat, gid: nat, op: Runs.Op, order: seq<nat>)

  ghost predicate WellCalled(c: Call) {
    && Sendable(c.op, c.uid, c.gid)
    && WellSent(Sent(c.seqno, KindOf(c.op), Marshal(c.op, c.uid, c.gid), c.order))
  }

  ghost predicate AllWellCalled(calls: seq<Call>) {
    forall k :: 0 <= k < |calls| ==> WellCalled(calls[k])
  }

  ghost function Request(c: Call): (x: Sent)
    requires WellCalled(c)
    ensures WellSent(x)
  {
    Sent(c.seqno, KindOf(c.op), Marshal(c.op, c.uid, c.gid), c.order)
  }

  ghost function Requests(calls: seq<Call>): (xs: seq<Sent>)
    requires AllWellCalled(calls)
    ensures |xs| == |calls| && forall k :: 0 <= k < |xs| ==> xs[k] == Request(calls[k])
  {
    seq(|calls|, k requires 0 <= k < |calls| => Request(calls[k]))
  }

  // ------------------------------------------------------------------ runs

  ghost function Systems(states: seq<Srv>): (r: seq<Sys>)
    ensures |r| == |states| && forall i :: 0 <= i < |r| ==> r[i] == states[i].sys
  {
    seq(|states|, i requires 0 <= i < |states| => states[i].sys)
  }

  ghost function Events(events: seq<SrvEvent>): (r: seq<Event>)
    ensures |r| == |events| && forall i :: 0 <= i < |r| ==> r[i] == events[i].event
  {
    seq(|events|, i requires 0 <= i < |events| => events[i].event)
  }

  ghost predicate SrvStep(s: Srv, e: SrvEvent, s': Srv) {
    SrvEnabled(s, e) && s' == SrvNext(s, e)
  }

  /** A run of the service from a file system state, on the requests of these calls, merged as
      tags says, in which no add overwrites the slot that the worker holds. */
  ghost predicate ServiceRun(states: seq<Srv>, events: seq<SrvEvent>, fs: Tables, calls: seq<Call>, tags: seq<nat>,
                             size: nat) {
    && AllWellCalled(calls)
    && |states| == |events| + 1
    && (forall i :: 0 <= i < |events| ==> SrvStep(states[i], events[i], states[i + 1]))
    && size > 0 && Spaced(Requests(calls), size) && Merges(Requests(calls), [], tags)
    && states[0] == Srv(Start(size, Feed(Requests(calls), [], tags)), [fs], [], [])
    && forall i :: 0 <= i < |events| ==> Clean(states[i].sys, events[i].event)
  }

  lemma SystemRun(states: seq<Srv>, events: seq<SrvEvent>, fs: Tables, calls: seq<Call>, tags: seq<nat>, size: nat)
    requires ServiceRun(states, events, fs, calls, tags, size)
    ensures GoodRun(Systems(states), Events(events), Requests(calls), tags, size)
  {
    forall i | 0 <= i < |events|
      ensures Enabled(states[i].sys, events[i].event) && states[i + 1].sys == Next(states[i].sys, events[i].event)
    {
      assert SrvStep(states[i], events[i], states[i + 1]);
    }
  }

  // ------------------------------------------------------------------ refinement

  /** The operation performed is the one of the request handed out, and the answer carries its
      number and the result of the operation. */
  ghost predicate Performed(s: Srv, delivered: seq<Handed>, k: nat)
    requires Running(s) && k < |s.log| <= |delivered| && |s.replies| == |s.log|
  {
    && Unmarshal(delivered[k].kind, delivered[k].data) == Some(s.log[k].op)
    && Runs.Step(s.trace[k], s.log[k], s.trace[k + 1])
    && s.replies[k] == (delivered[k].seqno, Runs.Apply(s.trace[k], s.log[k].op, s.log[k].now).1)
  }

  /** What was performed is what was handed out, in that order, all but a request that the
      worker is still busy with; and the file system went through one operation after the other. */
  ghost predicate Refines(s: Srv, fs: Tables) {
    var delivered := Delivered(s.sys.taken);
    && Running(s) && |s.replies| == |s.log| && s.trace[0] == fs
    && |delivered| == |s.log| + (if s.sys.worker.Some? then 1 else 0)
    && forall k: nat :: k < |s.log| ==> Performed(s, delivered, k)
  }

  lemma TakenOne(taken: seq<Option<Handed>>, x: Option<Handed>)
    ensures Delivered(taken + [x]) == Delivered(taken) + (if x.Some? then [x.value] else [])
  {
    assert (taken + [x])[..|taken|] == taken;
  }

  lemma LastDelivered(taken: seq<Option<Handed>>)
    requires |taken| > 0 && taken[|taken| - 1].Some?
    ensures |Delivered(taken)| > 0 && Delivered(taken)[|Delivered(taken)| - 1] == taken[|taken| - 1].value
  {
  }

  /** Steps other than the worker's last one: nothing is performed. */
  lemma QuietRefines(s: Srv, s': Srv, fs: Tables, more: seq<Handed>)
    requires Refines(s, fs) && s' == s.(sys := s'.sys)
    requires Delivered(s'.sys.taken) == Delivered(s.sys.taken) + more
    requires |more| + (if s.sys.worker.Some? then 1 else 0) == if s'.sys.worker.Some? then 1 else 0
    ensures Refines(s', fs)
  {
    var delivered, delivered' := Delivered(s.sys.taken), Delivered(s'.sys.taken);
    forall k: nat | k < |s'.log| ensures Performed(s', delivered', k) {
      assert Performed(s, delivered, k) && delivered'[k] == delivered[k];
    }
  }

  /** The worker's last step performs the request in its slot, the last one handed out. */
  lemma PerformRefines(s: Srv, sys': Sys, fs: Tables, h: Handed, e: Runs.Event)
    requires Refines(s, fs) && s.sys.worker.Some?
    requires sys'.worker.None? && sys'.taken == s.sys.taken
    requires var delivered := Delivered(s.sys.taken); delivered[|delivered| - 1] == h
    requires Unmarshal(h.kind, h.data) == Some(e.op)
    ensures Refines(Perform(s.(sys := sys'), h.seqno, e), fs)
  {
    var s', delivered := Perform(s.(sys := sys'), h.seqno, e), Delivered(s.sys.taken);
    forall k: nat | k < |s'.log| ensures Performed(s', delivered, k) {
      if k < |s.log| {
        assert Performed(s, delivered, k);
        assert s'.trace[k + 1] == s.trace[k + 1];
      } else {
        assert Runs.Step(Fs(s), e, s'.trace[k + 1]);
      }
    }
  }

  /** A request in a slot is one that some client called. */
  lemma SlotIsCall(q: Req, calls: seq<Call>, k: nat)
    requires AllWellCalled(calls) && k < |calls| && Holds(q, Requests(calls)[k])
    ensures Unmarshal(q.kind, q.data) == Some(calls[k].op) && q.seqno == calls[k].seqno
  {
    assert WellCalled(calls[k]);
    CallRoundTrip(calls[k].op, calls[k].uid, calls[k].gid);
  }

  lemma TakeOrReceive(s: Sys, e: Event) returns (more: seq<Handed>)
    requires Enabled(s, e) && e != Finish && !Next(s, e).halted
    ensures Delivered(Next(s, e).taken) == Delivered(s.taken) + more
    ensures |more| + (if s.worker.Some? then 1 else 0) == if Next(s, e).worker.Some? then 1 else 0
  {
    more := [];
    if e == Take {
      var q := s.ring.reqs[s.ring.rd];
      var x := if q.status == InProgress then None else Some(Handed(q.seqno, q.kind, q.data));
      TakenOne(s.taken, x);
      if x.Some? { more := [x.value]; }
    }
  }

  /** The service also refines when it ends: nothing more is handed out or performed. */
  lemma EndRefines(s: Srv, s': Srv, fs: Tables)
    requires Refines(s, fs) && s' == s.(sys := s'.sys)
    requires s'.sys.taken == s.sys.taken && s'.sys.worker == s.sys.worker
    ensures Refines(s', fs)
  {
    QuietRefines(s, s', fs, []);
  }

  lemma StepRefines(s: Srv, e: SrvEvent, fs: Tables, calls: seq<Call>, h: nat)
    requires Refines(s, fs) && SrvEnabled(s, e) && AllWellCalled(calls)
    requires e.event == Finish ==>
      && h < |calls| && 0 < |s.sys.taken| && s.sys.taken[|s.sys.taken| - 1] == Some(Whole(Requests(calls)[h]))
      && Holds(s.sys.ring.reqs[s.sys.worker.value], Requests(calls)[h])
    ensures Refines(SrvNext(s, e), fs)
  {
    var sys' := Next(s.sys, e.event);
    if e.event == Finish {
      var q := s.sys.ring.reqs[s.sys.worker.value];
      SlotIsCall(q, calls, h);
      LastDelivered(s.sys.taken);
      PerformRefines(s, sys', fs, Whole(Requests(calls)[h]), Runs.Event(calls[h].op, e.now));
    } else if sys'.halted {
      EndRefines(s, SrvNext(s, e), fs);
    } else {
      var more := TakeOrReceive(s.sys, e.event);
      QuietRefines(s, SrvNext(s, e), fs, more);
    }
  }

  /** For any merge of the requests and any interleaving of receiver and worker: in every state
      of a run the operations performed are those of the requests handed out, in that order, and
      the file system is the one they lead to when performed one after the other. */
  lemma {:induction false} ServiceRefines(states: seq<Srv>, events: seq<SrvEvent>, fs: Tables, calls: seq<Call>,
                                          tags: seq<nat>, size: nat, i: nat)
    requires ServiceRun(states, events, fs, calls, tags, size) && i <= |events|
    requires Clear(Requests(calls), states[i].sys)
    ensures Refines(states[i], fs)
  {
    if i == 0 {
      assert Delivered(states[0].sys.taken) == [];
    } else {
      var s, e, xs := states[i - 1], events[i - 1], Requests(calls);
      SystemRun(states, events, fs, calls, tags, size);
      StepOfRun(Systems(states), Events(events), xs, tags, size, i - 1);
      assert SrvStep(s, e, states[i - 1 + 1]);
      ServiceRefines(states, events, fs, calls, tags, size, i - 1);
      if e.event == Finish { WorkerKeepsRequest(Systems(states), Events(events), xs, tags, size, i - 1); }
      StepRefines(s, e, fs, calls, if e.event == Finish then |s.sys.taken| - 1 else 0);
    }
  }

  /** Operation k is call k, its answer goes to that call, and it leads from one state to the next. */
  ghost predicate AsCalled(s: Srv, calls: seq<Call>, k: nat)
    requires Running(s) && |s.replies| == |s.log| && k < |s.log| && k < |calls|
  {
    && Runs.Step(s.trace[k], s.log[k], s.trace[k + 1])
    && s.log[k].op == calls[k].op
    && s.replies[k] == (calls[k].seqno, Runs.Apply(s.trace[k], calls[k].op, s.log[k].now).1)
  }

  lemma PerformedAsCalled(s: Srv, calls: seq<Call>, delivered: seq<Handed>, k: nat)
    requires Running(s) && |s.replies| == |s.log| && k < |s.log| <= |delivered| && k < |calls|
    requires Performed(s, delivered, k) && WellCalled(calls[k]) && delivered[k] == Whole(Request(calls[k]))
    ensures AsCalled(s, calls, k)
  {
    CallRoundTrip(calls[k].op, calls[k].uid, calls[k].gid);
  }

  /** In a contiguous run nothing is skipped, and what was handed out are the first requests. */
  lemma DeliveredCalls(states: seq<Srv>, events: seq<SrvEvent>, fs: Tables, calls: seq<Call>,
                       tags: seq<nat>, size: nat, i: nat)
    requires ServiceRun(states, events, fs, calls, tags, size) && i <= |events|
    requires Contiguous(Requests(calls), [], tags)
    ensures Skips(states[i].sys.taken) == 0
    ensures var delivered := Delivered(states[i].sys.taken);
            |delivered| <= |calls| && forall k :: 0 <= k < |delivered| ==> delivered[k] == Whole(Requests(calls)[k])
  {
    SystemRun(states, events, fs, calls, tags, size);
    var got, rest := RunOrderly(Systems(states), Events(events), Requests(calls), tags, size, i);
    DeliveredAll(states[i].sys.taken, Requests(calls));
  }

  /** When the parts of each request arrive together: the operations performed are exactly the
      first ones called, in the order of the calls, each answered under its own number. */
  lemma CallsInOrder(states: seq<Srv>, events: seq<SrvEvent>, fs: Tables, calls: seq<Call>,
                     tags: seq<nat>, size: nat, i: nat)
    requires ServiceRun(states, events, fs, calls, tags, size) && i <= |events|
    requires Contiguous(Requests(calls), [], tags)
    ensures var s := states[i];
            && Running(s) && |s.replies| == |s.log| <= |calls| && s.trace[0] == fs
            && forall k: nat :: k < |s.log| ==> AsCalled(s, calls, k)
    ensures Runs.IsRun(states[i].trace, states[i].log)
  {
    var s, delivered := states[i], Delivered(states[i].sys.taken);
    DeliveredCalls(states, events, fs, calls, tags, size, i);
    ServiceRefines(states, events, fs, calls, tags, size, i);
    forall k: nat | k < |s.log| ensures AsCalled(s, calls, k) {
      assert Performed(s, delivered, k) && delivered[k] == Whole(Requests(calls)[k]);
      PerformedAsCalled(s, calls, delivered, k);
    }
    forall k | 0 <= k < |s.log| ensures Runs.Step(s.trace[k], s.log[k], s.trace[k + 1]) {
      assert AsCalled(s, calls, k);
    }
  }

  /** So the file system keeps its invariant through every such run without an unsafe unlink. */
  lemma ServiceInv(states: seq<Srv>, events: seq<SrvEvent>, fs: Tables, calls: seq<Call>,
                   tags: seq<nat>, size: nat, i: nat)
    requires ServiceRun(states, events, fs, calls, tags, size) && i <= |events|
    requires Clear(Requests(calls), states[i].sys)
    requires Inv(fs) && Running(states[i]) && Runs.AllSafe(states[i].trace, states[i].log)
    ensures Inv(Fs(states[i]))
  {
    var s := states[i];
    ServiceRefines(states, events, fs, calls, tags, size, i);
    forall k: nat | k < |s.log| ensures Runs.Step(s.trace[k], s.log[k], s.trace[k + 1]) {
      assert Performed(s, Delivered(s.sys.taken), k);
    }
    Runs.RunInv(s.trace, s.log, |s.log|);
  }
}
