/**
 Concrete runs of the transport outside the conditions of the delivery theorems, with the ring of
 the service, 256 slots, and requests as clients send them.
 */
module TransportRuns {
  import opened Common
  import opened Fragments
  import opened RingBuffer
  import opened Delivery

  const RING_SIZE: nat := 256   // BUFFER_SIZE

  /** A close request: 12 bytes, one message. */
  function Short(i: nat): (x: Sent)
    ensures |x.payload| == 12
  {
    Sent(i, CLOSE, seq(12, _ => 0), [])
  }

  /** A write request of one byte more than fits a message: two messages. */
  function Long(i: nat): (x: Sent)
    ensures |x.payload| == MAX_PART + 1
  {
    Sent(i, WRITE, seq(MAX_PART + 1, _ => 0), [1])
  }

  lemma Sizes(i: nat)
    ensures WellSent(Short(i)) && Size(Short(i)) == 1
    ensures WellSent(Long(i)) && Size(Long(i)) == 2
  {
  }

  function Junk(n: nat): (b: seq<Byte>)
    ensures |b| == n
  {
    seq(n, _ => 0)
  }

  // ------------------------------------------------------------------ building runs

  /** A good run so far, and what its last state is like. */
  ghost predicate At(states: seq<Sys>, events: seq<Event>, xs: seq<Sent>, tags: seq<nat>, got: seq<nat>,
                     rest: seq<nat>) {
    && GoodRun(states, events, xs, tags, RING_SIZE) && Distinct(xs)
    && var s := states[|events|];
    |s.ring.reqs| == RING_SIZE && SysInv(s, xs, got, rest)
  }

  ghost function Final(states: seq<Sys>, events: seq<Event>): Sys
    requires |states| == |events| + 1
  {
    states[|events|]
  }

  lemma Begin(xs: seq<Sent>, tags: seq<nat>) returns (states: seq<Sys>)
    requires AllWellSent(xs) && Distinct(xs) && Merges(xs, [], tags)
    ensures At(states, [], xs, tags, [], tags) && states == [Start(RING_SIZE, Feed(xs, [], tags))]
  {
    states := [Start(RING_SIZE, Feed(xs, [], tags))];
    StartFine(RING_SIZE, xs, tags);
  }

  lemma Extend(states: seq<Sys>, events: seq<Event>, xs: seq<Sent>, tags: seq<nat>, e: Event)
    requires GoodRun(states, events, xs, tags, RING_SIZE)
    requires Enabled(Final(states, events), e) && Clean(Final(states, events), e)
    ensures GoodRun(states + [Next(Final(states, events), e)], events + [e], xs, tags, RING_SIZE)
  {
    var states', events' := states + [Next(Final(states, events), e)], events + [e];
    forall i | 0 <= i < |events'|
      ensures Enabled(states'[i], events'[i]) && Clean(states'[i], events'[i])
      ensures states'[i + 1] == Next(states'[i], events'[i])
    {
      if i < |events| { assert Enabled(states[i], events[i]) && Clean(states[i], events[i]); }
    }
  }

  /** One more clean step that does not end the service. */
  lemma Go(states: seq<Sys>, events: seq<Event>, xs: seq<Sent>, tags: seq<nat>, got: seq<nat>, rest: seq<nat>, e: Event)
    returns (states': seq<Sys>, events': seq<Event>, got': seq<nat>, rest': seq<nat>)
    requires At(states, events, xs, tags, got, rest)
    requires var s := Final(states, events); Enabled(s, e) && Clean(s, e) && !Refused(s, e, got, rest)
    ensures At(states', events', xs, tags, got', rest')
    ensures states' == states + [Next(Final(states, events), e)] && events' == events + [e]
    ensures e.Receive? ==> |rest| > 0 && rest[0] <= |got| && got' == Advance(got, rest[0]) && rest' == rest[1..]
    ensures !e.Receive? ==> got' == got && rest' == rest
  {
    var s := Final(states, events);
    states', events' := states + [Next(s, e)], events + [e];
    Extend(states, events, xs, tags, e);
    got', rest' := StepKeeps(s, xs, got, rest, e);
  }

  /** The first message of a request can be received while a slot is free. */
  lemma CanStart(s: Sys, xs: seq<Sent>, got: seq<nat>, rest: seq<nat>)
    requires SysInv(s, xs, got, rest) && |rest| > 0 && rest[0] == |got| && |got| - |s.taken| < |s.ring.reqs|
    ensures |got| < |xs| && Enabled(s, Receive(Junk(|xs[|got|].payload|))) && Starts(s.inbox[0])
  {
    FeedStep(xs, got, rest, s.inbox);
    LiveStart(xs[|got|]);
  }

  // ------------------------------------------------------------------ merged parts

  /** The first part of a write and a whole close request have arrived. */
  lemma TwoArrived(xs: seq<Sent>, tags: seq<nat>) returns (states: seq<Sys>, events: seq<Event>, rest: seq<nat>)
    requires xs == [Long(0), Short(1)] && tags == [0, 1, 0]
    ensures At(states, events, xs, tags, [1, 1], rest) && |events| == 2 && |states| == 3
    ensures states[2].taken == [] && states[2].worker == None
  {
    var got;
    Sizes(0);
    Sizes(1);
    MergedTags(xs);
    states := Begin(xs, tags);
    CanStart(Final(states, []), xs, [], tags);
    states, events, got, rest := Go(states, [], xs, tags, [], tags, Receive(Junk(MAX_PART + 1)));
    CanStart(Final(states, events), xs, got, rest);
    states, events, got, rest := Go(states, events, xs, tags, got, rest, Receive(Junk(12)));
    assert got == [1, 1];
  }

  lemma OneReady(xs: seq<Sent>)
    requires xs == [Long(0), Short(1)]
    ensures ReadyCount(xs, [1, 1], 0) == 1
  {
    Sizes(0);
    Sizes(1);
    assert ReadyCount(xs, [1, 1], 2) == 0 && ReadyCount(xs, [1, 1], 1) == 1;
  }

  /** When the parts of a request do not arrive together, the worker can be handed the request in
      progress: here a close request arrives between the two parts of a write, the full semaphore
      it posts lets the worker take the slot in front of it, and the write is lost. */
  lemma InterleavingLosesRequest() returns (states: seq<Sys>, events: seq<Event>)
    ensures GoodRun(states, events, [Long(0), Short(1)], [0, 1, 0], RING_SIZE)
    ensures |events| == 3 && events[2] == Take
    ensures RingOk(states[2].ring) && states[2].ring.reqs[states[2].ring.rd].status == InProgress
    ensures states[3].taken == [None] && states[3].worker == None && states[3].ring.full == 0
  {
    var xs, tags, got, rest := [Long(0), Short(1)], [0, 1, 0], [1, 1], [];
    states, events, rest := TwoArrived(xs, tags);
    OneReady(xs);
    Sizes(0);
    var s := states[2];
    assert s.ring.full == 1;
    TakeStep(s, xs, got, rest);
    states, events, got, rest := Go(states, events, xs, tags, got, rest, Take);
  }

  lemma OneTag(xs: seq<Sent>, got: seq<nat>, got': seq<nat>, k: nat, rest: seq<nat>)
    requires Sends(xs, got, k) && got' == Advance(got, k) && Merges(xs, got', rest)
    ensures Merges(xs, got, [k] + rest)
  {
    assert ([k] + rest)[1..] == rest;
  }

  lemma MergedTags(xs: seq<Sent>)
    requires xs == [Long(0), Short(1)]
    ensures AllWellSent(xs) && Distinct(xs) && Merges(xs, [], [0, 1, 0])
  {
    Sizes(0);
    Sizes(1);
    TagsMerge(xs);
  }

  lemma TagsMerge(xs: seq<Sent>)
    requires |xs| == 2 && Size(xs[0]) == 2
    ensures Merges(xs, [], [0, 1, 0])
  {
    OneTag(xs, [1, 1], [2, 1], 0, []);
    OneTag(xs, [1], [1, 1], 1, [0]);
    OneTag(xs, [], [1], 0, [1, 0]);
    assert [0] + [] == [0] && [1] + [0] == [1, 0] && [0] + [1, 0] == [0, 1, 0];
  }

  // ------------------------------------------------------------------ short requests in a row

  ghost function Ones(n: nat): (r: seq<nat>)
    ensures |r| == n && forall i :: 0 <= i < n ==> r[i] == 1
  {
    seq(n, _ => 1)
  }

  /** The first n requests are short ones, sent one after the other. */
  ghost predicate ShortFirst(xs: seq<Sent>, tags: seq<nat>, n: nat) {
    && n <= |xs| && n <= |tags| && AllWellSent(xs)
    && forall i :: 0 <= i < n ==> xs[i] == Short(i) && tags[i] == i
  }

  lemma OneMore(n: nat)
    ensures Advance(Ones(n), n) == Ones(n + 1)
  {
  }

  lemma {:induction false} ShortMerges(xs: seq<Sent>, tags: seq<nat>, n: nat, k: nat)
    requires ShortFirst(xs, tags, n) && k <= n && Merges(xs, Ones(n), tags[n..])
    ensures Merges(xs, Ones(k), tags[k..])
    decreases n - k
  {
    if k == n {
    } else {
      ShortMerges(xs, tags, n, k + 1);
      OneMore(k);
      assert tags[k..][0] == k && tags[k..][1..] == tags[k + 1..];
    }
  }

  lemma {:induction false} ShortContiguous(xs: seq<Sent>, tags: seq<nat>, n: nat, k: nat)
    requires ShortFirst(xs, tags, n) && k <= n && Contiguous(xs, Ones(n), tags[n..])
    ensures Contiguous(xs, Ones(k), tags[k..])
    decreases n - k
  {
    if k == n {
    } else {
      ShortContiguous(xs, tags, n, k + 1);
      OneMore(k);
      assert tags[k..][0] == k && tags[k..][1..] == tags[k + 1..];
      forall i | 0 <= i < k ensures Ones(k)[i] == Size(xs[i]) {
        Sizes(i);
      }
    }
  }

  lemma ReadyOne(xs: seq<Sent>, k: nat)
    requires k < |xs| && xs[k] == Short(k)
    ensures ReadyCount(xs, Ones(k + 1), k) == 1
  {
    Sizes(k);
    assert ReadyCount(xs, Ones(k + 1), k + 1) == 0;
  }

  /** Nothing skipped, the worker idle, the ring empty, and both indices at k. */
  ghost predicate Served(s: Sys, k: nat) {
    |s.taken| == k && Skips(s.taken) == 0 && s.worker == None && s.ring.rd == k
  }

  /** One more short request is received. */
  lemma ReceiveOne(states: seq<Sys>, events: seq<Event>, xs: seq<Sent>, tags: seq<nat>, n: nat, k: nat)
    returns (states': seq<Sys>, events': seq<Event>)
    requires ShortFirst(xs, tags, n) && k < n
    requires At(states, events, xs, tags, Ones(k), tags[k..])
    requires var s := Final(states, events);
             k - |s.taken| < RING_SIZE && Clean(s, Receive(Junk(12)))
    ensures At(states', events', xs, tags, Ones(k + 1), tags[k + 1..]) && |states'| == |events'| + 1
    ensures var s, s' := Final(states, events), Final(states', events');
            s'.taken == s.taken && s'.worker == s.worker && s'.ring.rd == s.ring.rd
  {
    var got, rest;
    Sizes(k);
    assert tags[k..][0] == k && tags[k..][1..] == tags[k + 1..];
    OneMore(k);
    CanStart(Final(states, events), xs, Ones(k), tags[k..]);
    states', events', got, rest := Go(states, events, xs, tags, Ones(k), tags[k..], Receive(Junk(12)));
  }

  /** And taken, when nothing is in front of it, and finished. */
  lemma TakeOne(states: seq<Sys>, events: seq<Event>, xs: seq<Sent>, tags: seq<nat>, n: nat, k: nat)
    returns (states': seq<Sys>, events': seq<Event>)
    requires ShortFirst(xs, tags, n) && k < n && At(states, events, xs, tags, Ones(k + 1), tags[k + 1..])
    requires var s := Final(states, events);
             |s.taken| == k && Skips(s.taken) == 0 && s.worker == None
    ensures At(states', events', xs, tags, Ones(k + 1), tags[k + 1..]) && |states'| == |events'| + 1
    ensures var s, s' := Final(states, events), Final(states', events');
            && |s'.taken| == k + 1 && Skips(s'.taken) == 0 && s'.worker == Some(s.ring.rd)
            && s'.ring.rd == Succ(s.ring.rd, RING_SIZE)
  {
    var got, rest;
    TakeOneStep(Final(states, events), xs, tags[k + 1..], k);
    states', events', got, rest := Go(states, events, xs, tags, Ones(k + 1), tags[k + 1..], Take);
  }

  lemma TakeOneStep(s: Sys, xs: seq<Sent>, rest: seq<nat>, k: nat)
    requires k < |xs| && xs[k] == Short(k) && SysInv(s, xs, Ones(k + 1), rest)
    requires |s.taken| == k && Skips(s.taken) == 0 && s.worker == None
    ensures Enabled(s, Take)
    ensures var s' := Next(s, Take);
            && |s'.taken| == k + 1 && Skips(s'.taken) == 0 && s'.worker == Some(s.ring.rd)
            && s'.ring.rd == Succ(s.ring.rd, |s.ring.reqs|)
  {
    Sizes(k);
    ReadyOne(xs, k);
    assert s.ring.full == 1;
    TakeStep(s, xs, Ones(k + 1), rest);
    TakenOneMore(s.taken, xs, Ones(k + 1), Some(Whole(xs[k])));
  }

  /** One more short request is received, taken and finished. */
  lemma ServeOne(states: seq<Sys>, events: seq<Event>, xs: seq<Sent>, tags: seq<nat>, n: nat, k: nat)
    returns (states': seq<Sys>, events': seq<Event>)
    requires ShortFirst(xs, tags, n) && k < n && k + 1 < RING_SIZE
    requires At(states, events, xs, tags, Ones(k), tags[k..]) && Served(Final(states, events), k)
    ensures At(states', events', xs, tags, Ones(k + 1), tags[k + 1..])
    ensures |states'| == |events'| + 1 && Served(Final(states', events'), k + 1)
  {
    states', events' := ReceiveOne(states, events, xs, tags, n, k);
    states', events' := TakeOne(states', events', xs, tags, n, k);
    var s, got, rest := Final(states', events'), Ones(k + 1), tags[k + 1..];
    FinishStep(s, xs, got, rest);
    states', events', got, rest := Go(states', events', xs, tags, got, rest, Finish);
  }

  lemma {:induction false} Serve(xs: seq<Sent>, tags: seq<nat>, n: nat, k: nat)
    returns (states: seq<Sys>, events: seq<Event>)
    requires ShortFirst(xs, tags, n) && Distinct(xs) && Merges(xs, [], tags) && k <= n && k < RING_SIZE
    ensures At(states, events, xs, tags, Ones(k), tags[k..])
    ensures |states| == |events| + 1 && Served(Final(states, events), k)
  {
    if k == 0 {
      states := Begin(xs, tags);
      events := [];
      assert Ones(0) == [] && tags[0..] == tags;
    } else {
      states, events := Serve(xs, tags, n, k - 1);
      states, events := ServeOne(states, events, xs, tags, n, k - 1);
    }
  }

  // ------------------------------------------------------------------ a wrapped scan

  /** 255 close requests and a write of two messages. */
  ghost function ManyThenLong(): (xs: seq<Sent>)
    ensures |xs| == RING_SIZE && forall i :: 0 <= i < |xs| ==> xs[i] == if i < RING_SIZE - 1 then Short(i) else Long(i)
  {
    seq(RING_SIZE, i requires 0 <= i < RING_SIZE => if i < RING_SIZE - 1 then Short(i) else Long(i))
  }

  ghost function Upto(n: nat): (r: seq<nat>)
    ensures |r| == n && forall i :: 0 <= i < n ==> r[i] == i
  {
    seq(n, i requires 0 <= i < n => i)
  }

  lemma ManyAreSent()
    ensures var xs, tags, n := ManyThenLong(), Upto(RING_SIZE) + [RING_SIZE - 1], RING_SIZE - 1;
            ShortFirst(xs, tags, n) && Distinct(xs) && Merges(xs, [], tags) && Contiguous(xs, [], tags)
  {
    var xs, tags, n := ManyThenLong(), Upto(RING_SIZE) + [RING_SIZE - 1], RING_SIZE - 1;
    forall i | 0 <= i < |xs| ensures WellSent(xs[i]) {
      Sizes(i);
    }
    Sizes(n);
    LongEnds(xs, tags[n..], n);
    ShortMerges(xs, tags, n, 0);
    ShortContiguous(xs, tags, n, 0);
    assert Ones(0) == [] && tags[0..] == tags;
  }

  lemma LongEnds(xs: seq<Sent>, rest: seq<nat>, n: nat)
    requires |xs| == n + 1 && AllWellSent(xs) && xs[n] == Long(n) && rest == [n, n]
    requires forall i :: 0 <= i < n ==> xs[i] == Short(i)
    ensures Merges(xs, Ones(n), rest) && Contiguous(xs, Ones(n), rest)
  {
    Sizes(n);
    forall i | 0 <= i < n ensures Ones(n)[i] == Size(xs[i]) {
      Sizes(i);
    }
    assert rest[1..] == [n] && [n][1..] == [];
    var got1 := Advance(Ones(n), n);
    var got2 := Advance(got1, n);
    assert Merges(xs, got2, []) && Contiguous(xs, got2, []);
    assert Merges(xs, got1, [n]) && Contiguous(xs, got1, [n]);
  }

  /** Contiguous parts are not enough either: after 255 requests the write index has wrapped around
      when the second part of the next request arrives, the scan misses the request in progress,
      and the service ends. */
  lemma WrappedScanEndsService() returns (states: seq<Sys>, events: seq<Event>)
    ensures var xs, tags := ManyThenLong(), Upto(RING_SIZE) + [RING_SIZE - 1];
            GoodRun(states, events, xs, tags, RING_SIZE) && Contiguous(xs, [], tags)
    ensures Final(states, events).halted
  {
    var xs, tags, n := ManyThenLong(), Upto(RING_SIZE) + [RING_SIZE - 1], RING_SIZE - 1;
    ManyAreSent();
    Sizes(n);
    states, events := Serve(xs, tags, n, n);
    assert tags[n..] == [n, n];
    var got, rest;
    CanStart(Final(states, events), xs, Ones(n), tags[n..]);
    states, events, got, rest := Go(states, events, xs, tags, Ones(n), tags[n..], Receive(Junk(MAX_PART + 1)));
    var s := Final(states, events);
    assert rest == [n] && got[n] == 1 && s.ring.rd == n;
    assert s.ring.wr == Slot(s.ring, |got| - |s.taken|) == 0;
    LastPart(s, xs, got, rest, n);
    var e := Receive(Junk(MAX_PART + 1));
    Extend(states, events, xs, tags, e);
    var got', rest' := StepKeeps(s, xs, got, rest, e);
    states, events := states + [Next(s, e)], events + [e];
  }

  lemma LastPart(s: Sys, xs: seq<Sent>, got: seq<nat>, rest: seq<nat>, n: nat)
    requires SysInv(s, xs, got, rest) && rest == [n] && n < |got| && got[n] == 1 && n < |xs| && xs[n] == Long(n)
    ensures var e := Receive(Junk(MAX_PART + 1)); Enabled(s, e) && Clean(s, e)
  {
    Sizes(n);
    FeedStep(xs, got, rest, s.inbox);
    LaterPart(xs[n], 1);
  }

  // ------------------------------------------------------------------ an unclean add

  ghost function Many(n: nat): (xs: seq<Sent>)
    ensures |xs| == n && forall i :: 0 <= i < n ==> xs[i] == Short(i)
  {
    seq(n, i requires 0 <= i < n => Short(i))
  }

  lemma ManyMerge(n: nat)
    ensures ShortFirst(Many(n), Upto(n), n) && Distinct(Many(n)) && Merges(Many(n), [], Upto(n))
  {
    forall i | 0 <= i < n ensures WellSent(Many(n)[i]) {
      Sizes(i);
    }
    assert Upto(n)[n..] == [] && Upto(n)[0..] == Upto(n) && Ones(0) == [];
    ShortMerges(Many(n), Upto(n), n, 0);
  }

  /** The worker is busy with the first request, and k have arrived. */
  lemma {:induction false} Fill(xs: seq<Sent>, tags: seq<nat>, n: nat, k: nat)
    returns (states: seq<Sys>, events: seq<Event>)
    requires ShortFirst(xs, tags, n) && Distinct(xs) && Merges(xs, [], tags) && 1 <= k <= n && k <= RING_SIZE
    ensures At(states, events, xs, tags, Ones(k), tags[k..])
    ensures |states| == |events| + 1 && |Final(states, events).taken| == 1 && Final(states, events).worker == Some(0)
  {
    if k == 1 {
      states, events := FillFirst(xs, tags, n);
    } else {
      states, events := Fill(xs, tags, n, k - 1);
      states, events := FillOne(states, events, xs, tags, n, k - 1);
    }
  }

  lemma FillFirst(xs: seq<Sent>, tags: seq<nat>, n: nat) returns (states: seq<Sys>, events: seq<Event>)
    requires ShortFirst(xs, tags, n) && Distinct(xs) && Merges(xs, [], tags) && n >= 1
    ensures At(states, events, xs, tags, Ones(1), tags[1..])
    ensures |states| == |events| + 1 && |Final(states, events).taken| == 1 && Final(states, events).worker == Some(0)
  {
    states, events := Serve(xs, tags, n, 0);
    states, events := ReceiveOne(states, events, xs, tags, n, 0);
    states, events := TakeOne(states, events, xs, tags, n, 0);
  }

  lemma FillOne(states: seq<Sys>, events: seq<Event>, xs: seq<Sent>, tags: seq<nat>, n: nat, k: nat)
    returns (states': seq<Sys>, events': seq<Event>)
    requires ShortFirst(xs, tags, n) && 1 <= k < n && k < RING_SIZE
    requires At(states, events, xs, tags, Ones(k), tags[k..])
    requires |Final(states, events).taken| == 1 && Final(states, events).worker == Some(0)
    ensures At(states', events', xs, tags, Ones(k + 1), tags[k + 1..])
    ensures |states'| == |events'| + 1 && |Final(states', events').taken| == 1
        && Final(states', events').worker == Some(0)
  {
    states', events' := ReceiveOne(states, events, xs, tags, n, k);
  }

  /** 257 close requests that come faster than the worker finishes the first one: the last of them
      overwrites the slot of the first. */
  lemma UncleanAddOverwrites() returns (states: seq<Sys>, events: seq<Event>)
    ensures GoodRun(states, events, Many(RING_SIZE + 1), Upto(RING_SIZE + 1), RING_SIZE)
    ensures var s, e := Final(states, events), Receive(Junk(12));
            && Enabled(s, e) && !Clean(s, e)
            && s.worker == Some(0) && s.ring.reqs[0].seqno == 0 && s.ring.reqs[0].status == Ready
            && |Next(s, e).ring.reqs| == RING_SIZE
            && Next(s, e).worker == Some(0) && Next(s, e).ring.reqs[0].seqno == RING_SIZE
  {
    var xs, tags, n := Many(RING_SIZE + 1), Upto(RING_SIZE + 1), RING_SIZE + 1;
    ManyMerge(n);
    states, events := Fill(xs, tags, n, RING_SIZE);
    var s, got, rest := Final(states, events), Ones(RING_SIZE), tags[RING_SIZE..];
    Sizes(RING_SIZE);
    CanStart(s, xs, got, rest);
    assert s.ring.empty == 1;
    FeedStep(xs, got, rest, s.inbox);
    TakeFirst(s.ring, xs, 1, got, Skips(s.taken), s.inbox[0], Junk(12));
    NextIs(s, Junk(12));
    var r' := Next(s, Receive(Junk(12))).ring;
    assert Slot(r', RING_SIZE - 1) == s.ring.wr == 0;
    assert SlotHas(r'.reqs[Slot(r', RING_SIZE - 1)], xs[1 + (RING_SIZE - 1)], (got + [1])[1 + (RING_SIZE - 1)]);
  }
}
