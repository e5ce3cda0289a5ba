/**
 Requests and responses travel as messages of at most MAX_MSG_SIZE bytes. The sender cuts a
 payload into parts; the receiver puts the parts back at their offsets. lib/libfs.c cuts
 requests and reassembles responses; service/operations.c cuts responses.
 */
module Fragments {
  import opened Common

  const MAX_MSG_SIZE: nat := 4096
  const HEADER_SIZE: nat := 32                                  // sizeof(struct request_t)
  const MAX_PART: nat := MAX_MSG_SIZE - HEADER_SIZE             // MAX_MSG_DATA_SIZE

  datatype RequestKind = CREATE | CHMODE | RENAME | UNLINK | OPEN | READ | WRITE | SEEK | CLOSE | STAT | LINK | SYMLINK

  /** A message; `multipart` is 0 for a message that is not part of a larger one. */
  datatype Part = Part(seqno: int, kind: RequestKind, multipart: nat, dataSize: nat, dataOffset: nat, partSize: nat,
                       data: seq<Byte>)

  function NumParts(size: nat): (n: nat)
    ensures n >= 1
    ensures size <= n * MAX_PART
    ensures n > 1 ==> (n - 1) * MAX_PART < size
  {
    var n := CeilDiv(size, MAX_PART);
    if n == 0 then 1 else n
  }

  function PartLen(size: nat, i: nat): nat
    requires i < NumParts(size)
  {
    Min(MAX_PART, size - i * MAX_PART)
  }

  /** Part i of a payload. */
  function PartAt(seqno: int, kind: RequestKind, payload: seq<Byte>, i: nat): (p: Part)
    requires i < NumParts(|payload|)
    ensures p.partSize == |p.data| <= MAX_PART
  {
    var n, at, len := NumParts(|payload|), i * MAX_PART, PartLen(|payload|, i);
    Part(seqno, kind, if n == 1 then 0 else n, |payload|, at, len, payload[at..at + len])
  }

  function Parts(seqno: int, kind: RequestKind, payload: seq<Byte>): (ps: seq<Part>)
    ensures |ps| == NumParts(|payload|)
  {
    seq(NumParts(|payload|), i requires 0 <= i < NumParts(|payload|) => PartAt(seqno, kind, payload, i))
  }

  /** The fragmentation loop: the bytes left to copy decrease part by part. */
  method Fragment(seqno: int, kind: RequestKind, payload: seq<Byte>) returns (parts: seq<Part>)
    ensures parts == Parts(seqno, kind, payload)
  {
    var numOfParts := |payload| / MAX_PART + (if |payload| % MAX_PART != 0 then 1 else 0);
    if numOfParts == 0 { numOfParts := 1; }
    var dataToCopy := |payload|;
    parts := [];
    var i := 0;
    ghost var all := Parts(seqno, kind, payload);
    while i < numOfParts
      invariant numOfParts == |all| && 0 <= i <= numOfParts
      invariant dataToCopy == Remaining(|payload|, i)
      invariant parts == all[..i]
    {
      var partDataSize := if dataToCopy > MAX_PART then MAX_PART else dataToCopy;
      var at := if i != 0 then i * MAX_PART else 0;
      PartIs(seqno, kind, payload, i, at, partDataSize);
      parts := parts + [Part(seqno, kind, if numOfParts == 1 then 0 else numOfParts, |payload|, at, partDataSize,
                             payload[at..at + partDataSize])];
      assert all[..i + 1] == all[..i] + [all[i]];
      dataToCopy := dataToCopy - partDataSize;
      i := i + 1;
    }
  }

  /** The bytes left after i parts. */
  function Remaining(size: nat, i: nat): nat {
    if i * MAX_PART <= size then size - i * MAX_PART else 0
  }

  lemma PartIs(seqno: int, kind: RequestKind, payload: seq<Byte>, i: nat, at: nat, len: nat)
    requires i < NumParts(|payload|) && at == i * MAX_PART && len == Min(MAX_PART, Remaining(|payload|, i))
    ensures at + len <= |payload| && Remaining(|payload|, i + 1) == Remaining(|payload|, i) - len
    ensures var n := NumParts(|payload|);
            Parts(seqno, kind, payload)[i]
            == Part(seqno, kind, if n == 1 then 0 else n, |payload|, at, len, payload[at..at + len])
  {
    assert len == PartLen(|payload|, i);
  }

  ghost function Joined(parts: seq<Part>): seq<Byte> {
    if |parts| == 0 then [] else Joined(parts[..|parts| - 1]) + parts[|parts| - 1].data
  }

  /** What each part of a payload satisfies. */
  ghost predicate Tiles(ps: seq<Part>, size: nat, i: nat)
    requires i < |ps|
  {
    && HEADER_SIZE + |ps[i].data| <= MAX_MSG_SIZE
    && ps[i].dataOffset + |ps[i].data| == (if i + 1 < |ps| then ps[i + 1].dataOffset else size)
    && (ps[i].dataOffset == 0 <==> i == 0)
    && (ps[i].multipart == 0 <==> |ps| == 1)
  }

  /** The parts tile the payload: joined in order they are the payload, with no gap and no
      overlap; each fits a message, and exactly the first has offset 0. */
  lemma PartsTile(seqno: int, kind: RequestKind, payload: seq<Byte>)
    ensures var ps := Parts(seqno, kind, payload);
            Joined(ps) == payload && forall i: nat :: i < |ps| ==> Tiles(ps, |payload|, i)
  {
    var ps := Parts(seqno, kind, payload);
    forall i: nat | i < |ps| ensures Tiles(ps, |payload|, i) {
      PartTiles(seqno, kind, payload, i);
    }
    JoinedUpTo(seqno, kind, payload, |ps|);
    assert ps[..|ps|] == ps && payload[..|payload|] == payload;
  }

  lemma PartTiles(seqno: int, kind: RequestKind, payload: seq<Byte>, i: nat)
    requires i < NumParts(|payload|)
    ensures Tiles(Parts(seqno, kind, payload), |payload|, i)
  {
    var ps := Parts(seqno, kind, payload);
    assert ps[i] == PartAt(seqno, kind, payload, i);
    if i + 1 < |ps| { assert ps[i + 1] == PartAt(seqno, kind, payload, i + 1); }
    PartEnds(|payload|, i);
  }

  lemma PartEnds(size: nat, i: nat)
    requires i < NumParts(size)
    ensures i * MAX_PART + PartLen(size, i) == if i + 1 < NumParts(size) then (i + 1) * MAX_PART else size
    ensures i + 1 < NumParts(size) ==> PartLen(size, i) == MAX_PART
    ensures i > 0 ==> PartLen(size, i) > 0
  {
  }

  /** One more part, joined to those before it. */
  lemma JoinedOneMore(ps: seq<Part>, payload: seq<Byte>, i: nat, at: nat, end: nat)
    requires i < |ps| && at <= end <= |payload| && ps[i].data == payload[at..end] && Joined(ps[..i]) == payload[..at]
    ensures Joined(ps[..i + 1]) == payload[..end]
  {
    assert ps[..i + 1][..i] == ps[..i];
    assert payload[..at] + payload[at..end] == payload[..end];
  }

  /** Where the first i parts of a payload end. */
  function PartsEnd(size: nat, i: nat): nat {
    if i < NumParts(size) then i * MAX_PART else size
  }

  lemma PartSpan(seqno: int, kind: RequestKind, payload: seq<Byte>, i: nat)
    requires i < NumParts(|payload|)
    ensures PartsEnd(|payload|, i) <= PartsEnd(|payload|, i + 1) <= |payload|
    ensures Parts(seqno, kind, payload)[i].data == payload[PartsEnd(|payload|, i)..PartsEnd(|payload|, i + 1)]
  {
    PartSpans(|payload|, i);
    assert Parts(seqno, kind, payload)[i] == PartAt(seqno, kind, payload, i);
  }

  lemma PartSpans(size: nat, i: nat)
    requires i < NumParts(size)
    ensures PartsEnd(size, i) == i * MAX_PART && PartsEnd(size, i + 1) == i * MAX_PART + PartLen(size, i) <= size
  {
    PartEnds(size, i);
  }

  lemma {:induction false} JoinedUpTo(seqno: int, kind: RequestKind, payload: seq<Byte>, i: nat)
    requires i <= NumParts(|payload|)
    ensures PartsEnd(|payload|, i) <= |payload|
    ensures Joined(Parts(seqno, kind, payload)[..i]) == payload[..PartsEnd(|payload|, i)]
  {
    if i == 0 {
    } else {
      var ps := Parts(seqno, kind, payload);
      PartSpan(seqno, kind, payload, i - 1);
      JoinedUpTo(seqno, kind, payload, i - 1);
      JoinedOneMore(ps, payload, i - 1, PartsEnd(|payload|, i - 1), PartsEnd(|payload|, i));
    }
  }

  // ------------------------------------------------------------------ reassembly

  /** memcpy of a piece into a buffer. */
  function Splice(buf: seq<Byte>, at: nat, piece: seq<Byte>): (r: seq<Byte>)
    requires at + |piece| <= |buf|
    ensures |r| == |buf|
  {
    buf[..at] + piece + buf[at + |piece|..]
  }

  /** An order in which the parts after the first arrive: any distinct ones of 1 .. n - 1. */
  predicate Order(order: seq<nat>, n: nat) {
    && (forall j :: 0 <= j < |order| ==> 1 <= order[j] < n)
    && (forall j, k :: 0 <= j < k < |order| ==> order[j] != order[k])
  }

  ghost function Range(n: nat): (s: set<nat>)
    ensures |s| == n
    ensures forall x :: x in s <==> 1 <= x <= n
  {
    if n == 0 then {} else Range(n - 1) + {n}
  }

  ghost function SetOf(order: seq<nat>): set<nat> {
    set j | 0 <= j < |order| :: order[j]
  }

  lemma {:induction false} DistinctSize(order: seq<nat>)
    requires forall j, k :: 0 <= j < k < |order| ==> order[j] != order[k]
    ensures |SetOf(order)| == |order|
  {
    if |order| > 0 {
      var n := |order| - 1;
      DistinctSize(order[..n]);
      assert SetOf(order) == SetOf(order[..n]) + {order[n]};
    } else {
      assert SetOf(order) == {};
    }
  }

  /** An order has at most n - 1 entries, and one that long names every part; one that does not
      name the last part is shorter. */
  lemma OrderSize(order: seq<nat>, n: nat)
    requires n >= 1 && Order(order, n)
    ensures |order| <= n - 1
    ensures |order| == n - 1 ==> forall x: nat :: 1 <= x < n ==> x in order
    ensures n > 1 && n - 1 !in order ==> |order| < n - 1
  {
    DistinctSize(order);
    assert SetOf(order) <= Range(n - 1);
    SubsetSize(SetOf(order), Range(n - 1));
    if |order| == n - 1 {
      forall x: nat | 1 <= x < n ensures x in order {
        assert x in SetOf(order);
        var j :| 0 <= j < |order| && order[j] == x;
      }
      assert n > 1 ==> n - 1 in order;
    }
  }

  /** The number of payload bytes in the first part and the ones of an order. */
  function Arrived(size: nat, order: seq<nat>): nat {
    var n := NumParts(size);
    if n - 1 in order then |order| * MAX_PART + (size - (n - 1) * MAX_PART) else (1 + |order|) * MAX_PART
  }

  /** Buffer and payload agree on part i. */
  ghost predicate Agrees(buf: seq<Byte>, payload: seq<Byte>, i: nat)
    requires |buf| == |payload| && i < NumParts(|payload|)
  {
    var at, len := i * MAX_PART, PartLen(|payload|, i);
    buf[at..at + len] == payload[at..at + len]
  }

  lemma SpliceAgrees(buf: seq<Byte>, payload: seq<Byte>, i: nat, k: nat)
    requires |buf| == |payload| && i < NumParts(|payload|) && k < NumParts(|payload|)
    requires i == k || Agrees(buf, payload, k)
    ensures i * MAX_PART + PartLen(|payload|, i) <= |buf|
    ensures var at, len := i * MAX_PART, PartLen(|payload|, i);
            Agrees(Splice(buf, at, payload[at..at + len]), payload, k)
  {
    var i0, i1 := i * MAX_PART, i * MAX_PART + PartLen(|payload|, i);
    var k0, k1 := k * MAX_PART, k * MAX_PART + PartLen(|payload|, k);
    assert i0 <= i1 <= |payload| && k0 <= k1 <= |payload| && (i == k || i1 <= k0 || k1 <= i0) by {
      PartEnds(|payload|, i);
      PartEnds(|payload|, k);
    }
    SpliceRange(buf, payload, i0, i1, k0, k1);
  }

  /** A splice of payload bytes keeps agreement on any range it equals or does not meet. */
  lemma SpliceRange(buf: seq<Byte>, payload: seq<Byte>, i: nat, j: nat, lo: nat, hi: nat)
    requires |buf| == |payload| && i <= j <= |buf| && lo <= hi <= |buf|
    requires (i == lo && j == hi) || (buf[lo..hi] == payload[lo..hi] && (j <= lo || hi <= i))
    ensures Splice(buf, i, payload[i..j])[lo..hi] == payload[lo..hi]
  {
    var buf' := Splice(buf, i, payload[i..j]);
    if i == lo && j == hi {
      assert buf'[lo..hi] == payload[i..j];
    } else {
      forall k | lo <= k < hi ensures buf'[k] == buf[k] {
      }
      assert buf'[lo..hi] == buf[lo..hi];
    }
  }

  /** The part that holds byte b. */
  lemma PartOf(b: nat, size: nat) returns (i: nat)
    requires b < size
    ensures i < NumParts(size) && i * MAX_PART <= b < i * MAX_PART + PartLen(size, i)
  {
    i := b / MAX_PART;
    var n := NumParts(size);
    assert b < n * MAX_PART;
  }

  /** Agreement on every part is equality. */
  lemma AllAgree(buf: seq<Byte>, payload: seq<Byte>)
    requires |buf| == |payload|
    requires forall i: nat :: i < NumParts(|payload|) ==> Agrees(buf, payload, i)
    ensures buf == payload
  {
    forall b | 0 <= b < |payload| ensures buf[b] == payload[b] {
      var i := PartOf(b, |payload|);
      assert Agrees(buf, payload, i);
      var at, len := i * MAX_PART, PartLen(|payload|, i);
      assert buf[b] == buf[at..at + len][b - at] && payload[b] == payload[at..at + len][b - at];
    }
  }
}
