/**
 The transport as a protocol: service/service.c runs a receiver thread (handle_msg on one
 message after another) and a worker thread (get_service_req, dispatch, reset of the slot).
 Each step is atomic; a run is any interleaving of the two. The messages of different
 requests may be merged in any way: the theorems say exactly what each take finds, and that
 requests are delivered in order, exactly once and byte for byte when the parts of each
 request arrive together.
 */
module Delivery {
  import opened Common
  import opened Fragments
  import opened RingBuffer

  // ------------------------------------------------------------------ the system

  datatype Handed = Handed(seqno: int, kind: RequestKind, data: seq<Byte>)

  /** inbox is the message queue and worker the slot that the worker is processing. taken is the
      history of the takes: the request handed to a service operation, or None for a slot that
      was found in progress and skipped. */
  datatype Sys = Sys(ring: Ring, inbox: seq<Part>, worker: Option<nat>, taken: seq<Option<Handed>>, halted: bool)

  datatype Event = Receive(junk: seq<Byte>) | Take | Finish

  ghost predicate Enabled(s: Sys, e: Event) {
    && !s.halted && RingOk(s.ring)
    && match e
       case Receive(junk) =>
         && |s.inbox| > 0
         && (Starts(s.inbox[0]) ==> s.ring.empty > 0)
         && |junk| == s.inbox[0].dataSize
       case Take => s.worker.None? && s.ring.full > 0
       case Finish => s.worker.Some? && s.worker.value < |s.ring.reqs|
  }

  /** One step. A message that handle_msg refuses ends the service, and so does a slot that is
      neither ready nor in progress; a slot in progress is skipped, its request lost. A copy
      outside its buffer has no defined effect; it is shown below not to happen. */
  function Next(s: Sys, e: Event): Sys
    requires Enabled(s, e)
  {
    match e
    case Receive(junk) =>
      if !InBounds(s.ring, s.inbox[0], junk) then s.(halted := true)
      else
        var (ring, code) := HandleMsg(s.ring, s.inbox[0], junk);
        s.(ring := ring, inbox := s.inbox[1..], halted := code != Done)
    case Take =>
      var (ring, h) := GetReq(s.ring);
      var q := s.ring.reqs[h];
      if q.status == InProgress then s.(ring := ring, taken := s.taken + [None])
      else if q.status == Completed then s.(ring := ring, halted := true)
      else s.(ring := ring, worker := Some(h), taken := s.taken + [Some(Handed(q.seqno, q.kind, q.data))])
    case Finish => s.(ring := FinishReq(s.ring, s.worker.value), worker := None)
  }

  function Start(size: nat, inbox: seq<Part>): Sys
    requires size > 0
  {
    Sys(Ring(seq(size, _ => Req(0, CREATE, Completed, 0, 0, [])), 0, 0, size, 0), inbox, None, [], false)
  }

  // ------------------------------------------------------------------ what the clients send

  /** A request and the order in which its parts after the first arrive. */
  datatype Sent = Sent(seqno: int, kind: RequestKind, payload: seq<Byte>, order: seq<nat>)

  ghost predicate WellSent(x: Sent) {
    Order(x.order, NumParts(|x.payload|)) && |x.order| == NumParts(|x.payload|) - 1
  }

  ghost predicate AllWellSent(xs: seq<Sent>) {
    forall i :: 0 <= i < |xs| ==> WellSent(xs[i])
  }

  function Size(x: Sent): (n: nat)
    ensures n >= 1
  {
    NumParts(|x.payload|)
  }

  /** Message m of a request: the first part, then the others in their order. */
  function Message(x: Sent, m: nat): Part
    requires WellSent(x) && m < Size(x)
  {
    PartAt(x.seqno, x.kind, x.payload, if m == 0 then 0 else x.order[m - 1])
  }

  function Whole(x: Sent): Handed {
    Handed(x.seqno, x.kind, x.payload)
  }

  /** The requests are numbered by the arrival of their first parts, and got[k] messages of
      request k have arrived. The next message may be the next one of any request that has
      begun, or the first one of the next request. */
  ghost predicate Sends(xs: seq<Sent>, got: seq<nat>, k: nat) {
    k <= |got| && k < |xs| && (k < |got| ==> got[k] < Size(xs[k]))
  }

  function Advance(got: seq<nat>, k: nat): seq<nat>
    requires k <= |got|
  {
    if k == |got| then got + [1] else got[k := got[k] + 1]
  }

  /** tags says, message by message, whose message is next: any merge of the requests. */
  ghost predicate Merges(xs: seq<Sent>, got: seq<nat>, tags: seq<nat>)
    decreases |tags|
  {
    |tags| > 0 ==> Sends(xs, got, tags[0]) && Merges(xs, Advance(got, tags[0]), tags[1..])
  }

  ghost function Feed(xs: seq<Sent>, got: seq<nat>, tags: seq<nat>): seq<Part>
    requires AllWellSent(xs) && Merges(xs, got, tags)
    decreases |tags|
  {
    if |tags| == 0 then []
    else [Message(xs[tags[0]], if tags[0] < |got| then got[tags[0]] else 0)] + Feed(xs, Advance(got, tags[0]),
        tags[1..])
  }

  ghost predicate Complete(xs: seq<Sent>, got: seq<nat>)
    requires |got| <= |xs|
  {
    forall k :: 0 <= k < |got| ==> got[k] == Size(xs[k])
  }

  /** Every request has arrived completely before the next one begins. */
  ghost predicate Contiguous(xs: seq<Sent>, got: seq<nat>, tags: seq<nat>)
    decreases |tags|
  {
    |tags| > 0 ==>
      && tags[0] <= |got| <= |xs|
      && (tags[0] == |got| ==> Complete(xs, got))
      && Contiguous(xs, Advance(got, tags[0]), tags[1..])
  }

  /** Sequence numbers may be used again, but not within one ring length. */
  ghost predicate Spaced(xs: seq<Sent>, n: nat) {
    forall i, j :: 0 <= i < j < |xs| && j < i + n ==> xs[i].seqno != xs[j].seqno
  }

  ghost predicate Distinct(xs: seq<Sent>) {
    forall i, j :: 0 <= i < j < |xs| ==> xs[i].seqno != xs[j].seqno
  }

  // ------------------------------------------------------------------ the invariant

  /** The slot j places after the read index. */
  function Slot(r: Ring, j: nat): nat {
    if r.rd + j < |r.reqs| then r.rd + j else r.rd + j - |r.reqs|
  }

  ghost predicate Holds(q: Req, x: Sent) {
    q.status == Ready && q.seqno == x.seqno && q.kind == x.kind && q.data == x.payload
  }

  /** The slot of a request of which m messages have arrived. */
  ghost predicate SlotHas(q: Req, x: Sent, m: nat) {
    && WellSent(x) && 1 <= m <= Size(x)
    && if m == Size(x) then Holds(q, x) else Partial(q, x.seqno, x.kind, x.payload, x.order[..m - 1])
  }

  /** The live slots hold, in the order of their first parts, the requests from t on. */
  ghost predicate Queue(r: Ring, xs: seq<Sent>, t: nat, got: seq<nat>) {
    && RingOk(r) && t <= |got| <= |xs| && |got| - t <= |r.reqs|
    && forall j: nat :: j < |got| - t ==> SlotHas(r.reqs[Slot(r, j)], xs[t + j], got[t + j])
  }

  /** How many of the requests from t on have arrived completely. */
  ghost function ReadyCount(xs: seq<Sent>, got: seq<nat>, t: nat): nat
    requires |got| <= |xs|
    decreases |got| - t
  {
    if t >= |got| then 0 else (if got[t] == Size(xs[t]) then 1 else 0) + ReadyCount(xs, got, t + 1)
  }

  ghost predicate Counters(r: Ring, live: nat, ready: int) {
    RingOk(r) && live <= |r.reqs| && r.wr == Slot(r, live) && r.empty == |r.reqs| - live && r.full == ready
  }

  ghost predicate Progress(xs: seq<Sent>, got: seq<nat>) {
    |got| <= |xs| && AllWellSent(xs) && forall k :: 0 <= k < |got| ==> 1 <= got[k] <= Size(xs[k])
  }

  /** The ring between two steps: t slots were taken, `skips` of them in progress. Each skip
      has used up a post of the full semaphore that belongs to another request. */
  ghost predicate RingInv(r: Ring, xs: seq<Sent>, t: nat, got: seq<nat>, skips: nat) {
    && Progress(xs, got)
    && Queue(r, xs, t, got)
    && Counters(r, |got| - t, ReadyCount(xs, got, t) - skips)
  }

  ghost function Skips(taken: seq<Option<Handed>>): nat {
    if |taken| == 0 then 0 else Skips(taken[..|taken| - 1]) + (if taken[|taken| - 1].None? then 1 else 0)
  }

  /** Take j found request j: it was handed out whole, or skipped. */
  ghost predicate FoundInOrder(taken: seq<Option<Handed>>, xs: seq<Sent>) {
    |taken| <= |xs| && forall j :: 0 <= j < |taken| ==> taken[j].None? || taken[j] == Some(Whole(xs[j]))
  }

  /** Only complete requests were handed out. */
  ghost predicate Handled(taken: seq<Option<Handed>>, xs: seq<Sent>, got: seq<nat>) {
    && |taken| <= |got| <= |xs|
    && forall k :: 0 <= k < |taken| && taken[k].Some? ==> got[k] == Size(xs[k])
  }

  lemma {:induction false} SkippedCounts(taken: seq<Option<Handed>>, k: nat)
    requires k < |taken| && taken[k].None?
    ensures Skips(taken) > 0
  {
    if k < |taken| - 1 { SkippedCounts(taken[..|taken| - 1], k); }
  }

  /** The slot before the read index, the one that was taken last. */
  function Behind(r: Ring): (h: nat)
    requires RingOk(r)
    ensures h < |r.reqs|
  {
    if r.rd > 0 then r.rd - 1 else |r.reqs| - 1
  }

  /** The worker's slot is the last one taken, no live slot, and still holds its request. */
  ghost predicate WorkerHolds(s: Sys, xs: seq<Sent>, live: nat)
    requires RingOk(s.ring)
  {
    s.worker.Some? ==>
      && s.worker.value == Behind(s.ring) && live < |s.ring.reqs|
      && 0 < |s.taken| <= |xs| && s.taken[|s.taken| - 1].Some?
      && Holds(s.ring.reqs[s.worker.value], xs[|s.taken| - 1])
  }

  ghost predicate SysInv(s: Sys, xs: seq<Sent>, got: seq<nat>, tags: seq<nat>) {
    && !s.halted
    && RingInv(s.ring, xs, |s.taken|, got, Skips(s.taken))
    && Merges(xs, got, tags) && s.inbox == Feed(xs, got, tags)
    && FoundInOrder(s.taken, xs) && Handled(s.taken, xs, got)
    && WorkerHolds(s, xs, |got| - |s.taken|)
  }

  /** The slot that the worker still holds is not about to be overwritten. */
  predicate Clean(s: Sys, e: Event) {
    e.Receive? && |s.inbox| > 0 && Starts(s.inbox[0]) && s.worker.Some? ==> s.ring.empty > 1
  }

  /** Once a request has been skipped, its late parts must not be mistaken for another's. */
  ghost predicate Unambiguous(xs: seq<Sent>, n: nat, taken: seq<Option<Handed>>) {
    Spaced(xs, n) && (Skips(taken) > 0 ==> Distinct(xs))
  }

  // ------------------------------------------------------------------ ring steps

  lemma {:induction false} ReadyAppend(xs: seq<Sent>, got: seq<nat>, m: nat, t: nat)
    requires |got| < |xs| && t <= |got|
    ensures ReadyCount(xs, got + [m], t) == ReadyCount(xs, got, t) + (if m == Size(xs[|got|]) then 1 else 0)
    decreases |got| - t
  {
    if t < |got| {
      ReadyAppend(xs, got, m, t + 1);
    } else {
      assert ReadyCount(xs, got + [m], t + 1) == 0;
    }
  }

  lemma {:induction false} ReadyUpdate(xs: seq<Sent>, got: seq<nat>, k: nat, t: nat)
    requires k < |got| <= |xs| && got[k] < Size(xs[k])
    ensures ReadyCount(xs, got[k := got[k] + 1], t)
         == ReadyCount(xs, got, t) + (if t <= k && got[k] + 1 == Size(xs[k]) then 1 else 0)
    decreases |got| - t
  {
    if t < |got| {
      ReadyUpdate(xs, got, k, t + 1);
    } else {
      assert ReadyCount(xs, got[k := got[k] + 1], t) == 0;
    }
  }

  /** Another request in the slot behind the live ones. */
  lemma PutBehind(r: Ring, xs: seq<Sent>, t: nat, got: seq<nat>, skips: nat, q: Req)
    requires RingInv(r, xs, t, got, skips) && |got| < |xs| && r.empty > 0
    requires SlotHas(q, xs[|got|], 1)
    ensures RingInv(Put(r, q), xs, t, got + [1], skips)
  {
    var r', got' := Put(r, q), got + [1];
    forall j: nat | j < |got'| - t ensures SlotHas(r'.reqs[Slot(r', j)], xs[t + j], got'[t + j]) {
      assert Slot(r', j) == Slot(r, j);
      if j < |got| - t {
        assert Slot(r, j) != r.wr && SlotHas(r.reqs[Slot(r, j)], xs[t + j], got[t + j]);
      } else {
        assert t + j == |got|;
      }
    }
    assert q.status == Ready <==> Size(xs[|got|]) == 1;
    ReadyAppend(xs, got, 1, t);
  }

  /** The scan finds the slot of a live request exactly when the ring has not wrapped around. */
  lemma ScanFindsIff(r: Ring, xs: seq<Sent>, t: nat, got: seq<nat>, skips: nat, k: nat)
    requires RingInv(r, xs, t, got, skips) && t <= k < |got| && Spaced(xs, |r.reqs|)
    ensures Scan(r.reqs, xs[k].seqno, r.rd, r.wr) == if r.rd < r.wr then Some(Slot(r, k - t)) else None
  {
    if r.rd < r.wr {
      var p := Slot(r, k - t);
      assert SlotHas(r.reqs[Slot(r, k - t)], xs[t + (k - t)], got[t + (k - t)]);
      assert p == r.rd + (k - t) < r.wr;
      forall i | r.rd <= i < p ensures r.reqs[i].seqno != xs[k].seqno {
        var j: nat := i - r.rd;
        assert i == Slot(r, j) && SlotHas(r.reqs[Slot(r, j)], xs[t + j], got[t + j]);
      }
    }
  }

  /** The scan never finds the slot of a request that was skipped. */
  lemma ScanMissesLost(r: Ring, xs: seq<Sent>, t: nat, got: seq<nat>, skips: nat, k: nat)
    requires RingInv(r, xs, t, got, skips) && k < t && Distinct(xs)
    ensures Scan(r.reqs, xs[k].seqno, r.rd, r.wr) == None
  {
    forall i | r.rd <= i < r.wr ensures r.reqs[i].seqno != xs[k].seqno {
      var j: nat := i - r.rd;
      assert i == Slot(r, j) && SlotHas(r.reqs[Slot(r, j)], xs[t + j], got[t + j]);
    }
  }

  /** One more part in the slot of a live request. */
  lemma UpdateLive(r: Ring, r': Ring, xs: seq<Sent>, t: nat, got: seq<nat>, skips: nat, k: nat, q: Req)
    requires RingInv(r, xs, t, got, skips) && t <= k < |got| && got[k] < Size(xs[k])
    requires SlotHas(q, xs[k], got[k] + 1)
    requires r' == r.(reqs := r.reqs[Slot(r, k - t) := q],
                      full := r.full + (if got[k] + 1 == Size(xs[k]) then 1 else 0))
    ensures RingInv(r', xs, t, got[k := got[k] + 1], skips)
  {
    var got' := got[k := got[k] + 1];
    forall j: nat | j < |got'| - t ensures SlotHas(r'.reqs[Slot(r', j)], xs[t + j], got'[t + j]) {
      assert Slot(r', j) == Slot(r, j);
      if j != k - t {
        assert Slot(r, j) != Slot(r, k - t) && SlotHas(r.reqs[Slot(r, j)], xs[t + j], got[t + j]);
      }
    }
    ReadyUpdate(xs, got, k, t);
  }

  /** Handing out the slot at the read index: it holds the oldest live request, and if that one
      is still in progress it is skipped. */
  lemma GetOldest(r: Ring, xs: seq<Sent>, t: nat, got: seq<nat>, skips: nat)
    requires RingInv(r, xs, t, got, skips) && r.full > 0
    ensures t < |got| && SlotHas(r.reqs[r.rd], xs[t], got[t])
    ensures RingInv(GetReq(r).0, xs, t + 1, got, if got[t] == Size(xs[t]) then skips else skips + 1)
  {
    var r' := GetReq(r).0;
    assert t < |got|;
    assert Slot(r, 0) == r.rd && SlotHas(r.reqs[Slot(r, 0)], xs[t + 0], got[t + 0]);
    forall j: nat | j < |got| - (t + 1) ensures SlotHas(r'.reqs[Slot(r', j)], xs[t + 1 + j], got[t + 1 + j]) {
      assert Slot(r', j) == Slot(r, j + 1) && SlotHas(r.reqs[Slot(r, j + 1)], xs[t + (j + 1)], got[t + (j + 1)]);
    }
    assert Slot(r', |got| - (t + 1)) == Slot(r, |got| - t);
  }

  /** Resetting the slot behind the read index, which is not live. */
  lemma FinishKeeps(r: Ring, xs: seq<Sent>, t: nat, got: seq<nat>, skips: nat)
    requires RingInv(r, xs, t, got, skips) && |got| - t < |r.reqs|
    ensures RingInv(FinishReq(r, Behind(r)), xs, t, got, skips)
  {
    var r' := FinishReq(r, Behind(r));
    forall j: nat | j < |got| - t ensures SlotHas(r'.reqs[Slot(r', j)], xs[t + j], got[t + j]) {
      assert Slot(r', j) == Slot(r, j) != Behind(r);
      assert SlotHas(r.reqs[Slot(r, j)], xs[t + j], got[t + j]);
    }
  }

  // ------------------------------------------------------------------ messages

  /** The ring half of receiving a first part. */
  lemma TakeFirst(r: Ring, xs: seq<Sent>, t: nat, got: seq<nat>, skips: nat, part: Part, junk: seq<Byte>)
    requires RingInv(r, xs, t, got, skips) && |got| < |xs| && r.empty > 0 && |junk| == part.dataSize
    requires part == Message(xs[|got|], 0)
    ensures Starts(part) && InBounds(r, part, junk)
    ensures HandleMsg(r, part, junk).1 == Done && RingInv(HandleMsg(r, part, junk).0, xs, t, got + [1], skips)
    ensures exists q :: HandleMsg(r, part, junk).0 == Put(r, q)
  {
    var x := xs[|got|];
    PartEnds(|x.payload|, 0);
    if Size(x) == 1 {
      assert part.data == x.payload && part.data[..part.dataSize] == x.payload;
      PutBehind(r, xs, t, got, skips, SingleReq(part));
      assert HandleMsg(r, part, junk).0 == Put(r, SingleReq(part));
    } else {
      FirstIsPartial(x.seqno, x.kind, x.payload, junk);
      assert x.order[..0] == [];
      PutBehind(r, xs, t, got, skips, FirstReq(part, junk));
      assert HandleMsg(r, part, junk).0 == Put(r, FirstReq(part, junk));
    }
  }

  lemma LaterPart(x: Sent, m: nat)
    requires WellSent(x) && 0 < m < Size(x)
    ensures !Starts(Message(x, m))
  {
    PartEnds(|x.payload|, x.order[m - 1]);
  }

  /** A slot and one more part of its request. */
  lemma OneMore(q: Req, x: Sent, m: nat)
    requires m < Size(x) && SlotHas(q, x, m)
    ensures var part := Message(x, m);
            && part.partSize <= |part.data| && part.dataOffset + part.partSize <= |q.data|
            && SlotHas(Continued(q, part), x, m + 1)
            && Continued(q, part).offset <= Continued(q, part).size
            && (Continued(q, part).offset == Continued(q, part).size <==> m + 1 == Size(x))
  {
    var front, p := x.order[..m - 1], x.order[m - 1];
    assert p !in front && front + [p] == x.order[..m];
    NextPart(q, x.seqno, x.kind, x.payload, front, p);
    NextOffset(|x.payload|, front, p);
  }

  /** The ring half of receiving a further part of a live request, when the ring has not
      wrapped around. */
  lemma TakePart(r: Ring, xs: seq<Sent>, t: nat, got: seq<nat>, skips: nat, k: nat, part: Part, junk: seq<Byte>)
    requires RingInv(r, xs, t, got, skips) && t <= k < |got| && got[k] < Size(xs[k]) && Spaced(xs, |r.reqs|)
    requires part == Message(xs[k], got[k]) && r.rd < r.wr
    ensures !Starts(part) && InBounds(r, part, junk)
    ensures var (r', code) := HandleMsg(r, part, junk);
            && code == Done && RingInv(r', xs, t, got[k := got[k] + 1], skips)
            && r'.rd == r.rd && r'.reqs == r.reqs[Slot(r, k - t) := r'.reqs[Slot(r, k - t)]]
  {
    ScanFindsIff(r, xs, t, got, skips, k);
    LaterPart(xs[k], got[k]);
    assert SlotHas(r.reqs[Slot(r, k - t)], xs[t + (k - t)], got[t + (k - t)]);
    OneMore(r.reqs[Slot(r, k - t)], xs[k], got[k]);
    UpdateLive(r, HandleMsg(r, part, junk).0, xs, t, got, skips, k, Continued(r.reqs[Slot(r, k - t)], part));
  }

  /** Otherwise, or when the request was skipped, the scan finds nothing. */
  lemma RefusePart(r: Ring, xs: seq<Sent>, t: nat, got: seq<nat>, skips: nat, k: nat, part: Part, junk: seq<Byte>)
    requires RingInv(r, xs, t, got, skips) && k < |got| && got[k] < Size(xs[k]) && Spaced(xs, |r.reqs|)
    requires part == Message(xs[k], got[k])
    requires if k < t then Distinct(xs) else r.rd >= r.wr
    ensures !Starts(part) && InBounds(r, part, junk) && HandleMsg(r, part, junk) == (r, NoSequence)
  {
    LaterPart(xs[k], got[k]);
    if k < t { ScanMissesLost(r, xs, t, got, skips, k); } else { ScanFindsIff(r, xs, t, got, skips, k); }
  }

  // ------------------------------------------------------------------ system steps

  lemma FeedStep(xs: seq<Sent>, got: seq<nat>, tags: seq<nat>, inbox: seq<Part>)
    requires AllWellSent(xs) && Merges(xs, got, tags) && inbox == Feed(xs, got, tags) && |inbox| > 0
    ensures |tags| > 0 && Sends(xs, got, tags[0]) && Merges(xs, Advance(got, tags[0]), tags[1..])
    ensures inbox[0] == Message(xs[tags[0]], if tags[0] < |got| then got[tags[0]] else 0)
    ensures inbox[1..] == Feed(xs, Advance(got, tags[0]), tags[1..])
  {
  }

  lemma NextIs(s: Sys, junk: seq<Byte>)
    requires Enabled(s, Receive(junk)) && InBounds(s.ring, s.inbox[0], junk)
    ensures var (ring, code) := HandleMsg(s.ring, s.inbox[0], junk);
            Next(s, Receive(junk)) == s.(ring := ring, inbox := s.inbox[1..], halted := code != Done)
  {
  }

  /** A message that starts a request. */
  lemma ReceiveStart(s: Sys, xs: seq<Sent>, got: seq<nat>, tags: seq<nat>, junk: seq<Byte>)
    requires SysInv(s, xs, got, tags) && Enabled(s, Receive(junk)) && Clean(s, Receive(junk))
    requires |tags| > 0 && tags[0] == |got|
    ensures Starts(s.inbox[0])
    ensures SysInv(Next(s, Receive(junk)), xs, got + [1], tags[1..])
  {
    var r := s.ring;
    FeedStep(xs, got, tags, s.inbox);
    LiveStart(xs[|got|]);
    TakeFirst(r, xs, |s.taken|, got, Skips(s.taken), s.inbox[0], junk);
    NextIs(s, junk);
    var q :| HandleMsg(r, s.inbox[0], junk).0 == Put(r, q);
    if s.worker.Some? { assert r.wr != Behind(r); }
  }

  lemma LiveStart(x: Sent)
    requires WellSent(x)
    ensures Starts(Message(x, 0))
  {
  }

  /** A further part of a live request, when the ring has not wrapped around. */
  lemma ReceivePart(s: Sys, xs: seq<Sent>, got: seq<nat>, tags: seq<nat>, junk: seq<Byte>)
    requires SysInv(s, xs, got, tags) && Enabled(s, Receive(junk)) && Spaced(xs, |s.ring.reqs|)
    requires |tags| > 0 && |s.taken| <= tags[0] < |got| && s.ring.rd < s.ring.wr
    ensures !Starts(s.inbox[0])
    ensures SysInv(Next(s, Receive(junk)), xs, Advance(got, tags[0]), tags[1..])
  {
    FeedStep(xs, got, tags, s.inbox);
    var k, t := tags[0], |s.taken|;
    TakePart(s.ring, xs, t, got, Skips(s.taken), k, s.inbox[0], junk);
    NextIs(s, junk);
    if s.worker.Some? { assert Slot(s.ring, k - t) != Behind(s.ring); }
  }

  /** A further part that the scan misses ends the service. */
  lemma ReceiveRefused(s: Sys, xs: seq<Sent>, got: seq<nat>, tags: seq<nat>, junk: seq<Byte>)
    requires SysInv(s, xs, got, tags) && Enabled(s, Receive(junk)) && Spaced(xs, |s.ring.reqs|)
    requires |tags| > 0 && tags[0] < |got|
    requires if tags[0] < |s.taken| then Distinct(xs) else s.ring.rd >= s.ring.wr
    ensures !Starts(s.inbox[0])
    ensures Next(s, Receive(junk)) == s.(inbox := s.inbox[1..], halted := true)
  {
    FeedStep(xs, got, tags, s.inbox);
    RefusePart(s.ring, xs, |s.taken|, got, Skips(s.taken), tags[0], s.inbox[0], junk);
    NextIs(s, junk);
  }

  /** The histories after one more take. */
  lemma TakenOneMore(taken: seq<Option<Handed>>, xs: seq<Sent>, got: seq<nat>, x: Option<Handed>)
    requires FoundInOrder(taken, xs) && Handled(taken, xs, got) && |taken| < |got|
    requires x.Some? ==> x == Some(Whole(xs[|taken|])) && got[|taken|] == Size(xs[|taken|])
    ensures FoundInOrder(taken + [x], xs) && Handled(taken + [x], xs, got)
    ensures Skips(taken + [x]) == Skips(taken) + (if x.None? then 1 else 0)
  {
    assert (taken + [x])[..|taken|] == taken;
  }

  lemma TakeIs(s: Sys)
    requires Enabled(s, Take) && s.ring.reqs[s.ring.rd].status != Completed
    ensures var (ring, h), q := GetReq(s.ring), s.ring.reqs[s.ring.rd];
            Next(s, Take) == if q.status == InProgress then s.(ring := ring, taken := s.taken + [None])
                             else s.(ring := ring, worker := Some(h),
                                     taken := s.taken + [Some(Handed(q.seqno, q.kind, q.data))])
  {
  }

  /** A take never finds a completed slot; it finds the next request of the order. */
  lemma TakeStep(s: Sys, xs: seq<Sent>, got: seq<nat>, tags: seq<nat>)
    requires SysInv(s, xs, got, tags) && Enabled(s, Take)
    ensures var t, q, s' := |s.taken|, s.ring.reqs[s.ring.rd], Next(s, Take);
            && t < |got| && q.status == (if got[t] == Size(xs[t]) then Ready else InProgress)
            && s'.taken == s.taken + [if q.status == Ready then Some(Whole(xs[t])) else None]
            && SysInv(s', xs, got, tags)
  {
    var t, q := |s.taken|, s.ring.reqs[s.ring.rd];
    GetOldest(s.ring, xs, t, got, Skips(s.taken));
    assert q.status == if got[t] == Size(xs[t]) then Ready else InProgress;
    TakeIs(s);
    var x := if q.status == Ready then Some(Whole(xs[t])) else None;
    TakenOneMore(s.taken, xs, got, x);
    AfterTake(s, Next(s, Take), xs, got, tags, x);
  }

  lemma AfterTake(s: Sys, s': Sys, xs: seq<Sent>, got: seq<nat>, tags: seq<nat>, x: Option<Handed>)
    requires SysInv(s, xs, got, tags) && s.worker.None? && |s.taken| < |got|
    requires s' == s.(ring := s'.ring, worker := s'.worker, taken := s.taken + [x])
    requires RingInv(s'.ring, xs, |s.taken| + 1, got, Skips(s.taken + [x]))
    requires FoundInOrder(s'.taken, xs) && Handled(s'.taken, xs, got)
    requires s'.worker == (if x.Some? then Some(s.ring.rd) else None)
    requires RingOk(s.ring) && s'.ring == s.ring.(rd := s'.ring.rd, empty := s'.ring.empty, full := s'.ring.full)
    requires s'.ring.rd == Succ(s.ring.rd, |s.ring.reqs|)
    requires x.Some? ==> Holds(s.ring.reqs[s.ring.rd], xs[|s.taken|])
    ensures SysInv(s', xs, got, tags)
  {
    assert Behind(s'.ring) == s.ring.rd;
  }

  lemma FinishStep(s: Sys, xs: seq<Sent>, got: seq<nat>, tags: seq<nat>)
    requires SysInv(s, xs, got, tags) && Enabled(s, Finish)
    ensures SysInv(Next(s, Finish), xs, got, tags) && Next(s, Finish).taken == s.taken
  {
    FinishKeeps(s.ring, xs, |s.taken|, got, Skips(s.taken));
  }

  /** The event is a further part that the scan misses: the ring has wrapped around, or the
      request was skipped. */
  ghost predicate Refused(s: Sys, e: Event, got: seq<nat>, tags: seq<nat>) {
    e.Receive? && |tags| > 0 && tags[0] < |got| && (s.ring.rd >= s.ring.wr || tags[0] < |s.taken|)
  }

  /** Every clean step keeps the invariant or ends the service, and it ends the service exactly
      when a further part is refused. */
  lemma StepKeeps(s: Sys, xs: seq<Sent>, got: seq<nat>, tags: seq<nat>, e: Event)
    returns (got': seq<nat>, tags': seq<nat>)
    requires SysInv(s, xs, got, tags) && Enabled(s, e) && Clean(s, e) && Unambiguous(xs, |s.ring.reqs|, s.taken)
    ensures var s' := Next(s, e);
            && |s'.ring.reqs| == |s.ring.reqs|
            && (s'.halted <==> Refused(s, e, got, tags))
            && (s'.halted ==> s'.taken == s.taken && !Starts(s.inbox[0]))
            && (!s'.halted ==> SysInv(s', xs, got', tags'))
    ensures e.Receive? ==> |tags| > 0 && Sends(xs, got, tags[0]) && got' == Advance(got, tags[0]) && tags' == tags[1..]
    ensures !e.Receive? ==> got' == got && tags' == tags
  {
    got', tags' := got, tags;
    match e
    case Receive(junk) =>
      FeedStep(xs, got, tags, s.inbox);
      got', tags' := Advance(got, tags[0]), tags[1..];
      if tags[0] == |got| {
        ReceiveStart(s, xs, got, tags, junk);
      } else if s.ring.rd >= s.ring.wr || tags[0] < |s.taken| {
        RefusedHere(s, xs, got, tags, junk);
      } else {
        ReceivePart(s, xs, got, tags, junk);
      }
    case Take => TakeStep(s, xs, got, tags);
    case Finish => FinishStep(s, xs, got, tags);
  }

  /** A request behind the read index that is not complete was skipped, so numbers are distinct. */
  lemma RefusedHere(s: Sys, xs: seq<Sent>, got: seq<nat>, tags: seq<nat>, junk: seq<Byte>)
    requires SysInv(s, xs, got, tags) && Enabled(s, Receive(junk)) && Unambiguous(xs, |s.ring.reqs|, s.taken)
    requires |tags| > 0 && tags[0] < |got| && (s.ring.rd >= s.ring.wr || tags[0] < |s.taken|)
    ensures !Starts(s.inbox[0])
    ensures Next(s, Receive(junk)) == s.(inbox := s.inbox[1..], halted := true)
  {
    FeedStep(xs, got, tags, s.inbox);
    if tags[0] < |s.taken| { SkippedCounts(s.taken, tags[0]); }
    ReceiveRefused(s, xs, got, tags, junk);
  }

  // ------------------------------------------------------------------ contiguous requests

  /** Every request but the last that has begun is complete, and this will stay so. */
  ghost predicate Orderly(xs: seq<Sent>, got: seq<nat>, tags: seq<nat>) {
    && Contiguous(xs, got, tags)
    && |got| <= |xs| && forall k :: 0 <= k < |got| - 1 ==> got[k] == Size(xs[k])
  }

  /** Then a take finds a ready slot. */
  lemma OrderlyTake(r: Ring, xs: seq<Sent>, t: nat, got: seq<nat>, tags: seq<nat>)
    requires RingInv(r, xs, t, got, 0) && r.full > 0 && Orderly(xs, got, tags)
    ensures t < |got| && got[t] == Size(xs[t])
  {
    assert ReadyCount(xs, got, t) > 0;
    if t == |got| - 1 { assert ReadyCount(xs, got, t + 1) == 0; }
  }

  lemma OrderlyStep(s: Sys, xs: seq<Sent>, got: seq<nat>, tags: seq<nat>, e: Event)
    returns (got': seq<nat>, tags': seq<nat>)
    requires SysInv(s, xs, got, tags) && Skips(s.taken) == 0 && Orderly(xs, got, tags)
    requires Enabled(s, e) && Clean(s, e) && Spaced(xs, |s.ring.reqs|)
    ensures var s' := Next(s, e);
            && (s'.halted <==> HitsWrap(s, e))
            && Skips(s'.taken) == 0
            && (!s'.halted ==> SysInv(s', xs, got', tags') && Orderly(xs, got', tags'))
    ensures e == Take ==> s.ring.reqs[s.ring.rd].status == Ready
  {
    got', tags' := StepKeeps(s, xs, got, tags, e);
    if e == Take {
      OrderlyTake(s.ring, xs, |s.taken|, got, tags);
      TakeStep(s, xs, got, tags);
      assert Next(s, e).taken[..|s.taken|] == s.taken;
    }
    if e.Receive? {
      FeedStep(xs, got, tags, s.inbox);
      OrderlyParts(s, xs, got, tags);
    }
  }

  /** No request behind the read index is incomplete. */
  lemma OrderlyParts(s: Sys, xs: seq<Sent>, got: seq<nat>, tags: seq<nat>)
    requires SysInv(s, xs, got, tags) && Skips(s.taken) == 0 && |s.inbox| > 0 && |tags| > 0
    requires tags[0] <= |got|
    ensures tags[0] < |got| ==> tags[0] >= |s.taken|
    ensures Starts(s.inbox[0]) <==> tags[0] == |got|
  {
    FeedStep(xs, got, tags, s.inbox);
    if tags[0] == |got| {
      LiveStart(xs[|got|]);
    } else {
      LaterPart(xs[tags[0]], got[tags[0]]);
      if tags[0] < |s.taken| { SkippedCounts(s.taken, tags[0]); }
    }
  }

  /** The event is a further part that finds the ring wrapped around. */
  predicate HitsWrap(s: Sys, e: Event) {
    e.Receive? && |s.inbox| > 0 && !Starts(s.inbox[0]) && s.ring.rd >= s.ring.wr
  }

  // ------------------------------------------------------------------ runs

  ghost predicate IsRun(states: seq<Sys>, events: seq<Event>) {
    && |states| == |events| + 1
    && forall i :: 0 <= i < |events| ==> Enabled(states[i], events[i]) && states[i + 1] == Next(states[i], events[i])
  }

  /** A run of a buffer of this size on the messages of these requests, merged as tags says, in
      which no add overwrites the slot that the worker holds. */
  ghost predicate GoodRun(states: seq<Sys>, events: seq<Event>, xs: seq<Sent>, tags: seq<nat>, size: nat) {
    && size > 0 && AllWellSent(xs) && Spaced(xs, size) && Merges(xs, [], tags)
    && IsRun(states, events)
    && states[0] == Start(size, Feed(xs, [], tags))
    && forall i :: 0 <= i < |events| ==> Clean(states[i], events[i])
  }

  /** The state of a run: as described by the invariant, or ended with nothing delivered wrongly. */
  ghost predicate Fine(s: Sys, xs: seq<Sent>, size: nat, got: seq<nat>, tags: seq<nat>) {
    && |s.ring.reqs| == size && FoundInOrder(s.taken, xs)
    && (!s.halted ==> SysInv(s, xs, got, tags))
  }

  lemma StartFine(size: nat, xs: seq<Sent>, tags: seq<nat>)
    requires size > 0 && AllWellSent(xs) && Merges(xs, [], tags)
    ensures Fine(Start(size, Feed(xs, [], tags)), xs, size, [], tags)
  {
  }

  lemma TakenGrows(s: Sys, e: Event)
    requires Enabled(s, e)
    ensures Skips(Next(s, e).taken) >= Skips(s.taken)
  {
    var s' := Next(s, e);
    assert s'.taken != s.taken ==> s'.taken[..|s.taken|] == s.taken;
  }

  /** Requests have distinct numbers, or none has been skipped yet. */
  ghost predicate Clear(xs: seq<Sent>, s: Sys) {
    Distinct(xs) || Skips(s.taken) == 0
  }

  lemma StepFine(s: Sys, xs: seq<Sent>, size: nat, got: seq<nat>, tags: seq<nat>, e: Event)
    returns (got': seq<nat>, tags': seq<nat>)
    requires Fine(s, xs, size, got, tags) && Enabled(s, e) && Clean(s, e) && Unambiguous(xs, size, s.taken)
    ensures Fine(Next(s, e), xs, size, got', tags')
  {
    got', tags' := StepKeeps(s, xs, got, tags, e);
  }

  /** One step of a good run, and what is known before it. */
  lemma StepOfRun(states: seq<Sys>, events: seq<Event>, xs: seq<Sent>, tags: seq<nat>, size: nat, i: nat)
    requires GoodRun(states, events, xs, tags, size) && i < |events|
    ensures Enabled(states[i], events[i]) && Clean(states[i], events[i]) && states[i + 1] == Next(states[i], events[i])
    ensures Clear(xs, states[i + 1]) ==> Clear(xs, states[i])
    ensures Clear(xs, states[i]) ==> Unambiguous(xs, size, states[i].taken)
  {
    TakenGrows(states[i], events[i]);
  }

  lemma {:induction false} RunFine(states: seq<Sys>, events: seq<Event>, xs: seq<Sent>, tags: seq<nat>, size: nat,
                                   i: nat)
    returns (got: seq<nat>, rest: seq<nat>)
    requires GoodRun(states, events, xs, tags, size) && i <= |events| && Clear(xs, states[i])
    ensures Fine(states[i], xs, size, got, rest)
  {
    if i == 0 {
      got, rest := [], tags;
      StartFine(size, xs, tags);
    } else {
      StepOfRun(states, events, xs, tags, size, i - 1);
      got, rest := RunFine(states, events, xs, tags, size, i - 1);
      got, rest := StepFine(states[i - 1], xs, size, got, rest, events[i - 1]);
    }
  }

  /** In a contiguous run nothing is ever skipped. */
  lemma {:induction false} RunOrderly(states: seq<Sys>, events: seq<Event>, xs: seq<Sent>, tags: seq<nat>, size: nat,
                                      i: nat)
    returns (got: seq<nat>, rest: seq<nat>)
    requires GoodRun(states, events, xs, tags, size) && Contiguous(xs, [], tags) && i <= |events|
    ensures Skips(states[i].taken) == 0 && Fine(states[i], xs, size, got, rest)
    ensures !states[i].halted ==> Orderly(xs, got, rest)
  {
    if i == 0 {
      got, rest := [], tags;
      StartFine(size, xs, tags);
    } else {
      var s, e := states[i - 1], events[i - 1];
      assert Enabled(s, e) && Clean(s, e) && states[i - 1 + 1] == Next(s, e);
      got, rest := RunOrderly(states, events, xs, tags, size, i - 1);
      got, rest := OrderlyStep(s, xs, got, rest, e);
      var got1, rest1 := RunFine(states, events, xs, tags, size, i);
    }
  }

  // ------------------------------------------------------------------ what is delivered

  /** The requests handed to the service operations, in order. */
  function Delivered(taken: seq<Option<Handed>>): seq<Handed> {
    if |taken| == 0 then []
    else
      var last := taken[|taken| - 1];
      Delivered(taken[..|taken| - 1]) + (if last.Some? then [last.value] else [])
  }

  ghost predicate DeliveredPrefix(delivered: seq<Handed>, xs: seq<Sent>) {
    |delivered| <= |xs| && forall i :: 0 <= i < |delivered| ==> delivered[i] == Whole(xs[i])
  }

  function Takes(events: seq<Event>): nat {
    if |events| == 0 then 0 else Takes(events[..|events| - 1]) + (if events[|events| - 1] == Take then 1 else 0)
  }

  lemma {:induction false} DeliveredLength(taken: seq<Option<Handed>>)
    ensures |Delivered(taken)| + Skips(taken) == |taken|
  {
    if |taken| == 0 {
    } else {
      DeliveredLength(taken[..|taken| - 1]);
    }
  }

  /** The requests handed out are the first ones sent while nothing has been skipped. */
  lemma {:induction false} DeliveredAll(taken: seq<Option<Handed>>, xs: seq<Sent>)
    requires FoundInOrder(taken, xs) && Skips(taken) == 0
    ensures |Delivered(taken)| == |taken| && DeliveredPrefix(Delivered(taken), xs)
    ensures forall j :: 0 <= j < |taken| ==> taken[j] == Some(Whole(xs[j]))
  {
    if |taken| == 0 {
    } else {
      DeliveredAll(taken[..|taken| - 1], xs);
    }
  }

  /** From the first skip on they are the first ones sent exactly as long as nothing follows. */
  lemma PrefixIff(taken: seq<Option<Handed>>, xs: seq<Sent>)
    requires FoundInOrder(taken, xs) && Distinct(xs)
    ensures DeliveredPrefix(Delivered(taken), xs)
            <==> forall j, k :: 0 <= j < k < |taken| && taken[j].None? ==> taken[k].None?
  {
    if forall j :: 0 <= j < |taken| ==> taken[j].Some? {
      NoneSkipped(taken);
      DeliveredAll(taken, xs);
    } else {
      var j := FirstSkip(taken);
      SkipAt(taken, taken[..j], taken[j..], xs, j);
    }
  }

  lemma SkipAt(taken: seq<Option<Handed>>, front: seq<Option<Handed>>, late: seq<Option<Handed>>, xs: seq<Sent>, j: nat)
    requires FoundInOrder(taken, xs) && Distinct(xs) && j < |taken| && taken[j].None?
    requires front == taken[..j] && late == taken[j..] && forall k :: 0 <= k < j ==> taken[k].Some?
    ensures DeliveredPrefix(Delivered(taken), xs)
            <==> forall j, k :: 0 <= j < k < |taken| && taken[j].None? ==> taken[k].None?
  {
    DeliveredSplit(taken, j);
    NoneSkipped(front);
    DeliveredAll(front, xs);
    DeliveredAfter(late, xs, j);
    assert forall k :: 0 <= k < |late| ==> late[k] == taken[j + k];
  }

  lemma {:induction false} NoneSkipped(taken: seq<Option<Handed>>)
    requires forall j :: 0 <= j < |taken| ==> taken[j].Some?
    ensures Skips(taken) == 0
  {
    if |taken| == 0 {
    } else {
      NoneSkipped(taken[..|taken| - 1]);
    }
  }

  lemma FirstSkip(taken: seq<Option<Handed>>) returns (j: nat)
    requires exists j :: 0 <= j < |taken| && taken[j].None?
    ensures j < |taken| && taken[j].None? && forall k :: 0 <= k < j ==> taken[k].Some?
  {
    j := 0;
    while taken[j].Some?
      invariant j < |taken| && forall k :: 0 <= k < j ==> taken[k].Some?
      decreases |taken| - j
    {
      j := j + 1;
    }
  }

  lemma {:induction false} DeliveredSplit(taken: seq<Option<Handed>>, j: nat)
    requires j <= |taken|
    ensures Delivered(taken) == Delivered(taken[..j]) + Delivered(taken[j..])
  {
    if j == |taken| {
      assert taken[..j] == taken && taken[j..] == [];
    } else {
      var n := |taken| - 1;
      DeliveredSplit(taken[..n], j);
      assert taken[..n][..j] == taken[..j] && taken[..n][j..] == taken[j..n] == taken[j..][..n - j];
    }
  }

  /** What is handed out after a skip of request j is none of the first j + 1 requests. */
  lemma {:induction false} DeliveredAfter(late: seq<Option<Handed>>, xs: seq<Sent>, j: nat)
    requires |late| > 0 && j + |late| <= |xs| && late[0].None? && Distinct(xs)
    requires forall k :: 0 <= k < |late| ==> late[k].None? || late[k] == Some(Whole(xs[j + k]))
    ensures |Delivered(late)| == 0 <==> forall k :: 0 <= k < |late| ==> late[k].None?
    ensures |Delivered(late)| > 0 ==> Delivered(late)[0].seqno != xs[j].seqno
  {
    if |late| > 1 { DeliveredAfter(late[..|late| - 1], xs, j); }
  }

  // ------------------------------------------------------------------ the theorems

  /** All takes among the first i events found a ready slot. */
  ghost predicate AllReady(states: seq<Sys>, events: seq<Event>, i: nat)
    requires IsRun(states, events) && i <= |events|
  {
    forall j :: 0 <= j < i && events[j] == Take ==>
      RingOk(states[j].ring) && states[j].ring.reqs[states[j].ring.rd].status == Ready
  }

  lemma {:induction false} TakesCount(states: seq<Sys>, events: seq<Event>, i: nat)
    requires IsRun(states, events) && i <= |events| && states[0].taken == []
    ensures |states[i].taken| <= Takes(events[..i])
    ensures AllReady(states, events, i) <==> |states[i].taken| == Takes(events[..i]) && Skips(states[i].taken) == 0
  {
    if i == 0 {
    } else {
      var s, e := states[i - 1], events[i - 1];
      assert Enabled(s, e) && states[i - 1 + 1] == Next(s, e);
      TakesCount(states, events, i - 1);
      assert events[..i][..i - 1] == events[..i - 1];
      assert AllReady(states, events, i)
        <==> (AllReady(states, events, i - 1) && (e == Take ==> s.ring.reqs[s.ring.rd].status == Ready));
      StepCounts(s, e);
    }
  }

  lemma StepCounts(s: Sys, e: Event)
    requires Enabled(s, e)
    ensures var s' := Next(s, e);
            if e != Take then s'.taken == s.taken
            else if s.ring.reqs[s.ring.rd].status == Ready
            then |s'.taken| == |s.taken| + 1 && Skips(s'.taken) == Skips(s.taken)
            else |s'.taken| <= |s.taken| + 1 && (|s'.taken| == |s.taken| || Skips(s'.taken) == Skips(s.taken) + 1)
    ensures Skips(Next(s, e).taken) >= Skips(s.taken)
  {
    var s' := Next(s, e);
    assert |s'.taken| > |s.taken| ==> s'.taken[..|s.taken|] == s.taken;
  }

  /** For any merge of the requests: in every state of a run, the requests handed out are the
      first ones sent, one for each take, exactly if every take so far found a ready slot. */
  lemma FifoIff(states: seq<Sys>, events: seq<Event>, xs: seq<Sent>, tags: seq<nat>, size: nat, i: nat)
    requires GoodRun(states, events, xs, tags, size) && i <= |events|
    ensures var delivered := Delivered(states[i].taken);
            AllReady(states, events, i) <==> DeliveredPrefix(delivered, xs) && |delivered| == Takes(events[..i])
  {
    TakesCount(states, events, i);
    DeliveredLength(states[i].taken);
    if Skips(states[i].taken) == 0 {
      var got, rest := RunFine(states, events, xs, tags, size, i);
      DeliveredAll(states[i].taken, xs);
    }
  }

  /** For any merge of requests with distinct numbers: take j finds request j in every case, so
      a request that was skipped is lost, and the requests handed out are the first ones sent
      exactly if nothing was handed out after a skip. */
  lemma MergedDelivery(states: seq<Sys>, events: seq<Event>, xs: seq<Sent>, tags: seq<nat>, size: nat, i: nat)
    requires GoodRun(states, events, xs, tags, size) && Distinct(xs) && i <= |events|
    ensures var taken := states[i].taken;
            && FoundInOrder(taken, xs)
            && (DeliveredPrefix(Delivered(taken), xs)
                <==> forall j, k :: 0 <= j < k < |taken| && taken[j].None? ==> taken[k].None?)
  {
    var got, rest := RunFine(states, events, xs, tags, size, i);
    PrefixIff(states[i].taken, xs);
  }

  /** FIFO, exactly once, byte for byte: when the parts of each request arrive together, under
      any interleaving of the receiver and the worker, the requests handed out are, in every
      state of the run, the first ones sent. */
  lemma FifoExactlyOnce(states: seq<Sys>, events: seq<Event>, xs: seq<Sent>, tags: seq<nat>, size: nat, i: nat)
    requires GoodRun(states, events, xs, tags, size) && Contiguous(xs, [], tags) && i <= |events|
    ensures DeliveredPrefix(Delivered(states[i].taken), xs) && |Delivered(states[i].taken)| == |states[i].taken|
  {
    var got, rest := RunOrderly(states, events, xs, tags, size, i);
    DeliveredAll(states[i].taken, xs);
  }

  /** From the take until the worker is done, its slot holds the request it was handed. */
  lemma WorkerKeepsRequest(states: seq<Sys>, events: seq<Event>, xs: seq<Sent>, tags: seq<nat>, size: nat, i: nat)
    requires GoodRun(states, events, xs, tags, size) && i <= |events| && Clear(xs, states[i])
    requires !states[i].halted && states[i].worker.Some?
    ensures var s := states[i];
            && 0 < |s.taken| <= |xs| && s.taken[|s.taken| - 1] == Some(Whole(xs[|s.taken| - 1]))
            && s.worker.value < |s.ring.reqs| && Holds(s.ring.reqs[s.worker.value], xs[|s.taken| - 1])
  {
    var got, rest := RunFine(states, events, xs, tags, size, i);
  }

  /** In a contiguous run no request is handed out in progress, and the service ends exactly
      when a further part of a request finds the ring wrapped around. */
  lemma StepsOfRun(states: seq<Sys>, events: seq<Event>, xs: seq<Sent>, tags: seq<nat>, size: nat, i: nat)
    requires GoodRun(states, events, xs, tags, size) && Contiguous(xs, [], tags) && i < |events|
    ensures var s := states[i];
            && RingOk(s.ring)
            && (events[i] == Take ==> s.ring.reqs[s.ring.rd].status == Ready)
            && (states[i + 1].halted <==> HitsWrap(s, events[i]))
  {
    var s, e := states[i], events[i];
    assert Enabled(s, e) && Clean(s, e) && states[i + 1] == Next(s, e);
    var got, rest := RunOrderly(states, events, xs, tags, size, i);
    var got', rest' := OrderlyStep(s, xs, got, rest, e);
  }

  // ------------------------------------------------------------------ when a take skips

  function Receives(events: seq<Event>): nat {
    if |events| == 0 then 0 else Receives(events[..|events| - 1]) + (if events[|events| - 1].Receive? then 1 else 0)
  }

  /** How many messages of request k are among these. */
  function CountTag(tags: seq<nat>, k: nat): nat {
    if |tags| == 0 then 0 else CountTag(tags[..|tags| - 1], k) + (if tags[|tags| - 1] == k then 1 else 0)
  }

  /** How many of the first p messages belong to request k. */
  function Sofar(tags: seq<nat>, p: nat, k: nat): nat
    requires p <= |tags|
  {
    CountTag(tags[..p], k)
  }

  /** got counts the first p messages. */
  ghost predicate Counted(tags: seq<nat>, p: nat, got: seq<nat>, rest: seq<nat>) {
    p <= |tags| && rest == tags[p..] && forall k: nat :: Sofar(tags, p, k) == if k < |got| then got[k] else 0
  }

  lemma CountedOneMore(tags: seq<nat>, p: nat, got: seq<nat>, rest: seq<nat>)
    requires Counted(tags, p, got, rest) && |rest| > 0 && rest[0] <= |got|
    ensures Counted(tags, p + 1, Advance(got, rest[0]), rest[1..])
  {
    var p', got' := p + 1, Advance(got, rest[0]);
    assert tags[p'..] == rest[1..];
    forall k: nat ensures Sofar(tags, p', k) == (if k < |got'| then got'[k] else 0) {
      SofarOneMore(tags, p, k);
      assert Sofar(tags, p, k) == if k < |got| then got[k] else 0;
    }
    assert Counted(tags, p', got', rest[1..]);
  }

  lemma SofarOneMore(tags: seq<nat>, p: nat, k: nat)
    requires p < |tags|
    ensures Sofar(tags, p + 1, k) == Sofar(tags, p, k) + (if tags[p] == k then 1 else 0)
  {
    assert tags[..p + 1][..p] == tags[..p];
  }

  /** The state after p messages and t takes. */
  ghost predicate SysAt(s: Sys, xs: seq<Sent>, tags: seq<nat>, size: nat, got: seq<nat>, rest: seq<nat>, p: nat,
                        t: nat) {
    |s.ring.reqs| == size && |s.taken| == t && SysInv(s, xs, got, rest) && Counted(tags, p, got, rest)
  }

  lemma StepAt(s: Sys, e: Event, xs: seq<Sent>, tags: seq<nat>, size: nat, got: seq<nat>, rest: seq<nat>, p: nat,
               t: nat)
    returns (got': seq<nat>, rest': seq<nat>)
    requires SysAt(s, xs, tags, size, got, rest, p, t) && Enabled(s, e) && Clean(s, e)
    requires Unambiguous(xs, size, s.taken) && !Next(s, e).halted
    ensures SysAt(Next(s, e), xs, tags, size, got', rest', if e.Receive? then p + 1 else p, if e == Take then t + 1
        else t)
  {
    got', rest' := StepKeeps(s, xs, got, rest, e);
    StepCounts(s, e);
    if e.Receive? { CountedOneMore(tags, p, got, rest); }
    if e == Take { TakeStep(s, xs, got, rest); }
  }

  lemma {:induction false} RunCounted(states: seq<Sys>, events: seq<Event>, xs: seq<Sent>, tags: seq<nat>, size: nat,
                                      i: nat)
    returns (got: seq<nat>, rest: seq<nat>)
    requires GoodRun(states, events, xs, tags, size) && i <= |events| && Clear(xs, states[i]) && !states[i].halted
    ensures SysAt(states[i], xs, tags, size, got, rest, Receives(events[..i]), Takes(events[..i]))
  {
    if i == 0 {
      got, rest := [], tags;
      StartFine(size, xs, tags);
    } else {
      var s, e := states[i - 1], events[i - 1];
      assert Enabled(s, e) && Clean(s, e) && states[i - 1 + 1] == Next(s, e);
      assert events[..i][..i - 1] == events[..i - 1];
      TakenGrows(s, e);
      got, rest := RunCounted(states, events, xs, tags, size, i - 1);
      got, rest := StepAt(s, e, xs, tags, size, got, rest, Receives(events[..i - 1]), Takes(events[..i - 1]));
    }
  }

  /** Exactly when a take skips: the number of takes so far is the number of the request, and
      not all of its messages are among those received so far. Only the merge and the schedule
      decide this. */
  lemma TakeSkipsIff(states: seq<Sys>, events: seq<Event>, xs: seq<Sent>, tags: seq<nat>, size: nat, i: nat)
    requires GoodRun(states, events, xs, tags, size) && i < |events| && events[i] == Take && Clear(xs, states[i])
    ensures var t, p, r := Takes(events[..i]), Receives(events[..i]), states[i].ring;
            && t < |xs| && p <= |tags| && RingOk(r)
            && (r.reqs[r.rd].status == InProgress <==> Sofar(tags, p, t) < Size(xs[t]))
            && (r.reqs[r.rd].status == Ready <==> Sofar(tags, p, t) == Size(xs[t]))
  {
    assert Enabled(states[i], events[i]);
    var got, rest := RunCounted(states, events, xs, tags, size, i);
    TakeStep(states[i], xs, got, rest);
  }

  // ------------------------------------------------------------------ accounting

  /** The slot j places after the read index, in modular arithmetic. */
  function ModSlot(r: Ring, j: nat): nat
    requires |r.reqs| > 0
  {
    (r.rd + j) % |r.reqs|
  }

  lemma SlotIsMod(r: Ring, j: nat)
    requires RingOk(r) && j <= |r.reqs|
    ensures Slot(r, j) == ModSlot(r, j)
  {
    ModBelowTwice(r.rd + j, |r.reqs|);
  }

  lemma ModBelowTwice(x: nat, n: nat)
    requires x < 2 * n
    ensures x % n == if x < n then x else x - n
  {
    var q := x / n;
    assert x == q * n + x % n && 0 <= x % n < n;
    assert q >= 2 ==> q * n >= 2 * n;
    assert q == 1 ==> q * n == n;
    assert q == 0 ==> q * n == 0;
  }

  lemma ModQueue(r: Ring, xs: seq<Sent>, t: nat, got: seq<nat>)
    requires Queue(r, xs, t, got)
    ensures forall j: nat :: j < |got| - t ==> SlotHas(r.reqs[ModSlot(r, j)], xs[t + j], got[t + j])
  {
    forall j: nat | j < |got| - t ensures SlotHas(r.reqs[ModSlot(r, j)], xs[t + j], got[t + j]) {
      SlotIsMod(r, j);
      assert SlotHas(r.reqs[Slot(r, j)], xs[t + j], got[t + j]);
    }
  }

  /** The indices, semaphores and live slots of a ring from which t slots were taken. */
  ghost predicate Accounted(r: Ring, xs: seq<Sent>, t: nat, got: seq<nat>, skips: nat, size: nat) {
    && RingOk(r) && |r.reqs| == size && t <= |got| <= |xs| && |got| - t <= size
    && r.empty + (|got| - t) == size
    && r.full + skips == ReadyCount(xs, got, t)
    && r.wr == ModSlot(r, |got| - t)
    && forall j: nat :: j < |got| - t ==> SlotHas(r.reqs[ModSlot(r, j)], xs[t + j], got[t + j])
  }

  lemma RingAccounted(r: Ring, xs: seq<Sent>, t: nat, got: seq<nat>, skips: nat)
    requires RingInv(r, xs, t, got, skips)
    ensures Accounted(r, xs, t, got, skips, |r.reqs|)
  {
    SlotIsMod(r, |got| - t);
    ModQueue(r, xs, t, got);
  }

  /** Semaphore and ring accounting in every state of a run that has not ended, for any merge:
      the live slots hold consecutive requests, each with the messages that have arrived of it;
      the empty semaphore counts the other slots; the full semaphore counts the ready ones, less
      the skips, each of which has used up a post; and the write index follows the live slots. */
  lemma Accounting(states: seq<Sys>, events: seq<Event>, xs: seq<Sent>, tags: seq<nat>, size: nat, i: nat)
    returns (got: seq<nat>)
    requires GoodRun(states, events, xs, tags, size) && i <= |events| && Clear(xs, states[i]) && !states[i].halted
    ensures Accounted(states[i].ring, xs, Takes(events[..i]), got, Skips(states[i].taken), size)
    ensures var p := Receives(events[..i]);
            p <= |tags| && forall k: nat :: k < |got| ==> got[k] == Sofar(tags, p, k)
  {
    var rest;
    got, rest := RunCounted(states, events, xs, tags, size, i);
    RingAccounted(states[i].ring, xs, Takes(events[..i]), got, Skips(states[i].taken));
  }

  /** When the worker holds a slot, an add overwrites that slot exactly when one slot, this one,
      is left over: that is why Clean asks for more than one empty slot. */
  lemma AddOverwritesIff(s: Sys, xs: seq<Sent>, got: seq<nat>, tags: seq<nat>)
    requires SysInv(s, xs, got, tags) && s.worker.Some? && s.ring.empty > 0
    ensures s.ring.wr == s.worker.value <==> s.ring.empty == 1
    ensures s.ring.empty == 1 <==> |got| - |s.taken| == |s.ring.reqs| - 1
  {
  }

  // ------------------------------------------------------------------ after an unclean add

  /** The slot d places behind the read index is live, but the worker is about to reset it or has
      done so. */
  ghost predicate Spoiled(s: Sys, d: nat, live: nat) {
    && RingOk(s.ring) && d < live <= |s.ring.reqs|
    && s.ring.wr == Slot(s.ring, live) && s.ring.empty == |s.ring.reqs| - live
    && var q := s.ring.reqs[Slot(s.ring, d)];
    s.worker == Some(Slot(s.ring, d)) || (q.status == Completed && q.data == [])
  }

  /** Such a slot comes nearer with every take, and the take that reaches it ends the service. No
      message can repair it: a further part would be copied outside its buffer. */
  lemma SpoiledStep(s: Sys, e: Event, d: nat, live: nat) returns (d': nat, live': nat)
    requires Spoiled(s, d, live) && Enabled(s, e)
    ensures var s' := Next(s, e);
            && (e == Take && d == 0 ==> s'.halted)
            && (s'.halted ==> s'.taken == s.taken)
            && (!s'.halted ==> Spoiled(s', d', live') && |s'.taken| + d' == |s.taken| + d)
  {
    d', live' := d, live;
    match e
    case Receive(junk) => live' := SpoiledReceive(s, junk, d, live);
    case Take =>
      if d > 0 {
        d', live' := d - 1, live - 1;
        assert Slot(Next(s, e).ring, d - 1) == Slot(s.ring, d);
        assert Slot(Next(s, e).ring, live - 1) == Slot(s.ring, live);
      }
    case Finish =>
  }

  lemma SpoiledReceive(s: Sys, junk: seq<Byte>, d: nat, live: nat) returns (live': nat)
    requires Spoiled(s, d, live) && Enabled(s, Receive(junk))
    ensures var s' := Next(s, Receive(junk)); s'.taken == s.taken && (!s'.halted ==> Spoiled(s', d, live'))
  {
    live' := if Starts(s.inbox[0]) then live + 1 else live;
    var m, r := s.inbox[0], s.ring;
    if InBounds(r, m, junk) {
      NextIs(s, junk);
      if Starts(m) {
        assert r.wr != Slot(r, d);
      } else if Scan(r.reqs, m.seqno, r.rd, r.wr).Some? {
        assert m.dataOffset > 0;
      }
    }
  }

  lemma {:induction false} SpoiledRun(states: seq<Sys>, events: seq<Event>, i: nat, j: nat, d: nat, live: nat)
    requires IsRun(states, events) && i <= j <= |events| && Spoiled(states[i], d, live)
    ensures |states[j].taken| <= |states[i].taken| + d
    ensures j < |events| && events[j] == Take && |states[j].taken| == |states[i].taken| + d ==> states[j + 1].halted
    decreases j - i
  {
    if i < |events| {
      assert Enabled(states[i], events[i]) && states[i + 1] == Next(states[i], events[i]);
      var d', live' := SpoiledStep(states[i], events[i], d, live);
      assert i + 1 < |events| ==> Enabled(states[i + 1], events[i + 1]);
      if i < j && !states[i + 1].halted { SpoiledRun(states, events, i + 1, j, d', live'); }
    }
  }

  /** For every state of a good run in which the worker is busy and only its slot is left over: an
      add overwrites that slot, the request it brings is never handed out, whatever happens next,
      and the take whose turn it would be ends the service. */
  lemma UncleanAddEndsService(states: seq<Sys>, events: seq<Event>, xs: seq<Sent>, got: seq<nat>, tags: seq<nat>,
                              i: nat, j: nat)
    requires IsRun(states, events) && i < j <= |events|
    requires SysInv(states[i], xs, got, tags) && states[i].worker.Some? && states[i].ring.empty == 1
    requires events[i].Receive? && |tags| > 0 && tags[0] == |got|
    ensures !Clean(states[i], events[i])
    ensures var h := states[i].worker.value;
            && h < |states[i + 1].ring.reqs| && |got| < |xs| && states[i + 1].worker == Some(h)
            && SlotHas(states[i + 1].ring.reqs[h], xs[|got|], 1)
    ensures |states[j].taken| <= |got|
    ensures j < |events| && events[j] == Take && |states[j].taken| == |got| ==> states[j + 1].halted
  {
    var s, junk := states[i], events[i].junk;
    var r, t := s.ring, |s.taken|;
    assert Enabled(s, events[i]) && states[i + 1] == Next(s, events[i]);
    FeedStep(xs, got, tags, s.inbox);
    LiveStart(xs[|got|]);
    TakeFirst(r, xs, t, got, Skips(s.taken), s.inbox[0], junk);
    NextIs(s, junk);
    var r' := states[i + 1].ring;
    var d := |got| - t;
    assert Slot(r', d) == r.wr == s.worker.value;
    assert SlotHas(r'.reqs[Slot(r', d)], xs[t + d], (got + [1])[t + d]);
    SpoiledRun(states, events, i + 1, j, d, d + 1);
  }
}
