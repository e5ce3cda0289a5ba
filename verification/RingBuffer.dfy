/**
 The request buffer of service/req_buffer.c: a circular array guarded by two counting
 semaphores, in which the receiver reassembles multipart requests.
 */
module RingBuffer {
  import opened Common
  import opened Fragments

  datatype ReqStatus = Completed | InProgress | Ready

  datatype Req = Req(seqno: int, kind: RequestKind, status: ReqStatus, size: nat, offset: nat, data: seq<Byte>)

  /** empty and full are the values of the two semaphores. */
  datatype Ring = Ring(reqs: seq<Req>, rd: nat, wr: nat, empty: nat, full: nat)

  /** Return codes of handle_msg: 0, -1 and -3. */
  datatype Code = Done | NoSequence | CorruptedSize

  predicate RingOk(r: Ring) {
    r.rd < |r.reqs| && r.wr < |r.reqs|
  }

  /** A message that starts a request; it waits for a free slot. */
  predicate Starts(m: Part) {
    m.multipart == 0 || m.dataOffset == 0
  }

  function SingleReq(m: Part): Req
    requires m.dataSize <= |m.data|
  {
    Req(m.seqno, m.kind, Ready, m.dataSize, 0, m.data[..m.dataSize])
  }

  /** The first part goes into freshly allocated memory, whose other bytes are arbitrary. */
  function FirstReq(m: Part, junk: seq<Byte>): Req
    requires m.partSize <= |m.data| && m.partSize <= m.dataSize == |junk|
  {
    Req(m.seqno, m.kind, InProgress, m.dataSize, m.partSize, Splice(junk, 0, m.data[..m.partSize]))
  }

  function Continued(q: Req, m: Part): Req
    requires m.partSize <= |m.data| && m.dataOffset + m.partSize <= |q.data|
  {
    var offset := q.offset + m.partSize;
    q.(data := Splice(q.data, m.dataOffset, m.data[..m.partSize]), offset := offset,
       status := if offset == q.size then Ready else q.status)
  }

  /** The scan for the slot of a request: from rd up to wr, without wrapping around. */
  function Scan(reqs: seq<Req>, seqno: int, i: nat, wr: nat): (p: Option<nat>)
    requires wr <= |reqs|
    ensures p.Some? ==> i <= p.value < wr && reqs[p.value].seqno == seqno
    ensures p.Some? ==> forall j :: i <= j < p.value ==> reqs[j].seqno != seqno
    ensures p.None? ==> forall j :: i <= j < wr ==> reqs[j].seqno != seqno
    decreases wr - i
  {
    if i >= wr then None
    else if reqs[i].seqno == seqno then Some(i)
    else Scan(reqs, seqno, i + 1, wr)
  }

  /** The copies of handle_msg stay inside their buffers. */
  predicate InBounds(r: Ring, m: Part, junk: seq<Byte>)
    requires RingOk(r)
  {
    if m.multipart == 0 then m.dataSize <= |m.data|
    else if m.dataOffset == 0 then m.partSize <= |m.data| && m.partSize <= m.dataSize == |junk|
    else
      var p := Scan(r.reqs, m.seqno, r.rd, r.wr);
      p.Some? ==> m.partSize <= |m.data| && m.dataOffset + m.partSize <= |r.reqs[p.value].data|
  }

  /** The next index of a ring of n slots. */
  function Succ(i: nat, n: nat): (r: nat)
    requires i < n
    ensures r == if i + 1 == n then 0 else i + 1
  {
    (i + 1) % n
  }

  function Put(r: Ring, q: Req): (r': Ring)
    requires RingOk(r) && r.empty > 0
    ensures RingOk(r') && |r'.reqs| == |r.reqs|
  {
    Ring(r.reqs[r.wr := q], r.rd, Succ(r.wr, |r.reqs|), r.empty - 1,
         if q.status == Ready then r.full + 1 else r.full)
  }

  /** handle_msg, once the semaphore it waits for is available. */
  function HandleMsg(r: Ring, m: Part, junk: seq<Byte>): (r': (Ring, Code))
    requires RingOk(r) && InBounds(r, m, junk) && (Starts(m) ==> r.empty > 0)
    ensures RingOk(r'.0) && |r'.0.reqs| == |r.reqs|
  {
    if m.multipart == 0 then (Put(r, SingleReq(m)), Done)
    else if m.dataOffset == 0 then (Put(r, FirstReq(m, junk)), Done)
    else
      var p := Scan(r.reqs, m.seqno, r.rd, r.wr);
      if p.None? then (r, NoSequence)
      else
        var q := Continued(r.reqs[p.value], m);
        var r' := r.(reqs := r.reqs[p.value := q]);
        if q.offset == q.size then (r'.(full := r.full + 1), Done)
        else (r', if q.offset > q.size then CorruptedSize else Done)
  }

  /** get_service_req, once the full semaphore is available: the slot at rd is handed out and at
      once counted as empty, before the worker has used it. */
  function GetReq(r: Ring): (r': (Ring, nat))
    requires RingOk(r) && r.full > 0
    ensures RingOk(r'.0) && |r'.0.reqs| == |r.reqs|
  {
    (r.(rd := Succ(r.rd, |r.reqs|), full := r.full - 1, empty := r.empty + 1), r.rd)
  }

  /** What the worker does to its slot after dispatching the request. */
  function FinishReq(r: Ring, h: nat): (r': Ring)
    requires RingOk(r) && h < |r.reqs|
    ensures RingOk(r') && |r'.reqs| == |r.reqs|
  {
    r.(reqs := r.reqs[h := r.reqs[h].(data := [], offset := 0, size := 0, status := Completed)])
  }

  // ------------------------------------------------------------------ reassembly in any order

  /** q has received the first part of a payload and the parts of an order, but not all. */
  ghost predicate Partial(q: Req, seqno: int, kind: RequestKind, payload: seq<Byte>, order: seq<nat>) {
    var n := NumParts(|payload|);
    && q == Req(seqno, kind, InProgress, |payload|, Arrived(|payload|, order), q.data)
    && |q.data| == |payload|
    && Order(order, n) && |order| < n - 1
    && Agrees(q.data, payload, 0)
    && forall x: nat :: x in order && x < n ==> Agrees(q.data, payload, x)
  }

  lemma FirstIsPartial(seqno: int, kind: RequestKind, payload: seq<Byte>, junk: seq<Byte>)
    requires NumParts(|payload|) > 1 && |junk| == |payload|
    ensures Partial(FirstReq(PartAt(seqno, kind, payload, 0), junk), seqno, kind, payload, [])
  {
    PartEnds(|payload|, 0);
    SpliceAgrees(junk, payload, 0, 0);
    var m := PartAt(seqno, kind, payload, 0);
    assert m.data[..m.partSize] == payload[0..0 + PartLen(|payload|, 0)];
  }

  /** One more part, in whatever order: the request becomes ready exactly on the last one, and
      then holds exactly the payload. */
  lemma NextPart(q: Req, seqno: int, kind: RequestKind, payload: seq<Byte>, order: seq<nat>, x: nat)
    requires Partial(q, seqno, kind, payload, order)
    requires 1 <= x < NumParts(|payload|) && x !in order
    ensures var m := PartAt(seqno, kind, payload, x);
            && m.partSize <= |m.data| && m.dataOffset + m.partSize <= |q.data|
            && var q' := Continued(q, m);
            if |order| + 1 < NumParts(|payload|) - 1 then Partial(q', seqno, kind, payload, order + [x])
            else q' == Req(seqno, kind, Ready, |payload|, |payload|, payload)
  {
    var n, m := NumParts(|payload|), PartAt(seqno, kind, payload, x);
    PartEnds(|payload|, x);
    var q' := Continued(q, m);
    var order' := order + [x];
    assert m.data[..m.partSize] == m.data;
    NextOffset(|payload|, order, x);
    forall y: nat | y < n && (y == 0 || y in order') ensures Agrees(q'.data, payload, y) {
      SpliceAgrees(q.data, payload, x, y);
    }
    if |order'| == n - 1 {
      OrderSize(order', n);
      AllAgree(q'.data, payload);
    }
  }

  /** The running byte count reaches the payload size exactly with the last missing part. */
  lemma NextOffset(size: nat, order: seq<nat>, x: nat)
    requires var n := NumParts(size);
             Order(order, n) && |order| < n - 1 && 1 <= x < n && x !in order
    ensures var n, order' := NumParts(size), order + [x];
            && Order(order', n)
            && Arrived(size, order') == Arrived(size, order) + PartLen(size, x)
            && (Arrived(size, order') == size <==> |order'| == n - 1)
            && Arrived(size, order') <= size
  {
    var n, order' := NumParts(size), order + [x];
    assert Order(order', n);
    PartEnds(size, x);
    assert n - 1 in order' <==> n - 1 in order || x == n - 1;
    CountReaches(size, order');
  }

  lemma CountReaches(size: nat, order: seq<nat>)
    requires NumParts(size) > 1 && Order(order, NumParts(size))
    ensures Arrived(size, order) == size <==> |order| == NumParts(size) - 1
    ensures Arrived(size, order) <= size
  {
    var n := NumParts(size);
    OrderSize(order, n);
    if n - 1 in order {
      assert Arrived(size, order) == |order| * MAX_PART + (size - (n - 1) * MAX_PART);
    } else {
      assert (1 + |order|) * MAX_PART <= (n - 1) * MAX_PART < size;
    }
  }

  /** All parts of an order, one after the other. */
  ghost function Reassembled(q: Req, seqno: int, kind: RequestKind, payload: seq<Byte>, order: seq<nat>): Req {
    if |order| == 0 then q
    else
      var x := order[|order| - 1];
      var q' := Reassembled(q, seqno, kind, payload, order[..|order| - 1]);
      if x < NumParts(|payload|) && x * MAX_PART + PartLen(|payload|, x) <= |q'.data|
      then Continued(q', PartAt(seqno, kind, payload, x)) else q'
  }

  /** Fragmentation and reassembly are inverse, for every payload of more than one part, any
      memory contents, and any order of any of the parts after the first: the request is ready
      exactly when all parts have arrived, and then its data is the payload. */
  lemma {:induction false} ReassemblyInverts(seqno: int, kind: RequestKind, payload: seq<Byte>, junk: seq<Byte>,
                                             order: seq<nat>)
    requires NumParts(|payload|) > 1 && |junk| == |payload| && Order(order, NumParts(|payload|))
    ensures var n := NumParts(|payload|);
            var q := Reassembled(FirstReq(PartAt(seqno, kind, payload, 0), junk), seqno, kind, payload, order);
            && |order| <= n - 1
            && (|order| < n - 1 ==> Partial(q, seqno, kind, payload, order))
            && (|order| == n - 1 ==> q == Req(seqno, kind, Ready, |payload|, |payload|, payload))
  {
    var n := NumParts(|payload|);
    var q0 := FirstReq(PartAt(seqno, kind, payload, 0), junk);
    OrderSize(order, n);
    if |order| == 0 {
      FirstIsPartial(seqno, kind, payload, junk);
    } else {
      var front, x := order[..|order| - 1], order[|order| - 1];
      assert order == front + [x];
      ReassemblyInverts(seqno, kind, payload, junk, front);
      var q := Reassembled(q0, seqno, kind, payload, front);
      assert x !in front;
      NextPart(q, seqno, kind, payload, front, x);
    }
  }

  // ------------------------------------------------------------------ the buffer in place

  class ReqBuffer {
    const reqs: array<Req>
    var rd: nat
    var wr: nat
    var empty: nat
    var full: nat

    ghost predicate Valid()
      reads this
    {
      rd < reqs.Length && wr < reqs.Length
    }

    ghost function Now(): (r: Ring)
      reads this, reqs
      ensures Valid() ==> RingOk(r)
    {
      Ring(reqs[..], rd, wr, empty, full)
    }

    constructor (size: nat)
      requires size > 0
      ensures Valid() && fresh(reqs) && reqs.Length == size
      ensures Now() == Ring(seq(size, _ => Req(0, CREATE, Completed, 0, 0, [])), 0, 0, size, 0)
    {
      reqs := new Req[size](_ => Req(0, CREATE, Completed, 0, 0, []));
      rd, wr, empty, full := 0, 0, size, 0;
      new;
      assert reqs[..] == seq(size, _ => Req(0, CREATE, Completed, 0, 0, []));
    }

    /** req_buffer_create: a size of zero is refused. */
    static method Create(size: nat) returns (code: int, buf: ReqBuffer?)
      ensures code == 0 <==> size > 0
      ensures buf == null <==> size == 0
      ensures size > 0 ==> fresh(buf) && fresh(buf.reqs) && buf.Valid() && buf.Now().empty == |buf.Now().reqs| == size
      ensures size == 0 ==> code == -1
    {
      if size == 0 { return -1, null; }
      buf := new ReqBuffer(size);
      code := 0;
    }

    /** handle_msg. */
    method Handle(m: Part, junk: seq<Byte>) returns (code: Code)
      requires Valid() && InBounds(Now(), m, junk) && (Starts(m) ==> empty > 0)
      modifies this, reqs
      ensures Valid() && (Now(), code) == HandleMsg(old(Now()), m, junk)
    {
      if m.multipart == 0 {
        Add(SingleReq(m));
        full := full + 1;
        return Done;
      } else if m.dataOffset == 0 {
        Add(FirstReq(m, junk));
        return Done;
      }
      var i := rd;
      while i < wr
        invariant rd <= i && (i <= wr || i == rd)
        invariant Now() == old(Now())
        invariant Scan(reqs[..], m.seqno, rd, wr) == Scan(reqs[..], m.seqno, i, wr)
      {
        if reqs[i].seqno == m.seqno {
          var q := reqs[i];
          var offset := q.offset + m.partSize;
          reqs[i] := q.(data := Splice(q.data, m.dataOffset, m.data[..m.partSize]), offset := offset);
          if offset == q.size {
            reqs[i] := reqs[i].(status := Ready);
            full := full + 1;
          }
          assert reqs[..] == old(reqs[..])[i := Continued(q, m)];
          return if offset > q.size then CorruptedSize else Done;
        }
        i := i + 1;
      }
      return NoSequence;
    }

    /** Claim a free slot and move the write index around the ring. */
    method Add(q: Req)
      requires Valid() && empty > 0
      modifies this, reqs
      ensures Valid() && full == old(full)
      ensures Now() == Put(old(Now()), q).(full := full)
    {
      empty := empty - 1;
      reqs[wr] := q;
      wr := Succ(wr, reqs.Length);
      assert reqs[..] == old(reqs[..])[old(wr) := q];
    }

    /** get_service_req. */
    method Get() returns (slot: nat)
      requires Valid() && full > 0
      modifies this
      ensures Valid() && (Now(), slot) == GetReq(old(Now()))
    {
      full := full - 1;
      slot := rd;
      rd := Succ(rd, reqs.Length);
      empty := empty + 1;
    }

    /** The end of one turn of the worker loop. */
    method Finish(slot: nat)
      requires Valid() && slot < reqs.Length
      modifies reqs
      ensures Valid() && Now() == FinishReq(old(Now()), slot)
    {
      reqs[slot] := reqs[slot].(data := [], offset := 0, size := 0, status := Completed);
      assert reqs[..] == old(reqs[..])[slot := reqs[slot]];
    }
  }
}
