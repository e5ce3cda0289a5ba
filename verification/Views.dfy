/**
 What the reference sees of the tables: the lists read as finite maps, the slots as bytes, and the
 block table as a number of free blocks.
 */
module Views {
  import opened Common
  import opened Blocks
  import opened Namespace
  import opened Invariant
  import opened Directory
  import opened Reference

  // ------------------------------------------------------------------ lists as maps

  ghost predicate Keyed<V>(ps: seq<(nat, V)>) {
    forall i, j :: 0 <= i < j < |ps| ==> ps[i].0 < ps[j].0
  }

  ghost function MapOf<V>(ps: seq<(nat, V)>): map<nat, V> {
    if |ps| == 0 then map[] else MapOf(ps[..|ps| - 1])[ps[|ps| - 1].0 := ps[|ps| - 1].1]
  }

  /** m has the pairs of the list, and no other. */
  ghost predicate Lists<V>(m: map<nat, V>, ps: seq<(nat, V)>) {
    && (forall i :: 0 <= i < |ps| ==> ps[i].0 in m && m[ps[i].0] == ps[i].1)
    && (forall k :: k in m ==> exists i :: 0 <= i < |ps| && ps[i].0 == k)
  }

  lemma {:induction false} MapLists<V>(ps: seq<(nat, V)>)
    requires Keyed(ps)
    ensures Lists(MapOf(ps), ps)
  {
    if |ps| > 0 {
      var front := ps[..|ps| - 1];
      MapLists(front);
      forall k | k in MapOf(ps) ensures exists i :: 0 <= i < |ps| && ps[i].0 == k {
        if k in MapOf(front) {
          var i :| 0 <= i < |front| && front[i].0 == k;
          assert ps[i].0 == k;
        } else {
          assert ps[|ps| - 1].0 == k;
        }
      }
      forall i | 0 <= i < |ps| ensures ps[i].0 in MapOf(ps) && MapOf(ps)[ps[i].0] == ps[i].1 {
        if i < |front| { assert front[i] == ps[i]; }
      }
    }
  }

  lemma MapIs<V>(ps: seq<(nat, V)>, m: map<nat, V>)
    requires Keyed(ps) && Lists(m, ps)
    ensures MapOf(ps) == m
  {
    MapLists(ps);
    forall k | k in m ensures k in MapOf(ps) && MapOf(ps)[k] == m[k] {
      var i :| 0 <= i < |ps| && ps[i].0 == k;
    }
    forall k | k in MapOf(ps) ensures k in m {
      var i :| 0 <= i < |ps| && ps[i].0 == k;
    }
  }

  lemma MapSet<V>(ps: seq<(nat, V)>, p: nat, v: V)
    requires Keyed(ps) && p < |ps|
    ensures MapOf(ps[p := (ps[p].0, v)]) == MapOf(ps)[ps[p].0 := v]
  {
    MapLists(ps);
    var ps', m := ps[p := (ps[p].0, v)], MapOf(ps)[ps[p].0 := v];
    forall k | k in m ensures exists i :: 0 <= i < |ps'| && ps'[i].0 == k {
      var i :| 0 <= i < |ps| && ps[i].0 == k;
      assert ps'[i].0 == k;
    }
    MapIs(ps', m);
  }

  lemma MapDrop<V>(ps: seq<(nat, V)>, p: nat)
    requires Keyed(ps) && p < |ps|
    ensures MapOf(RemoveAt(ps, p)) == MapOf(ps) - {ps[p].0}
  {
    MapLists(ps);
    var ps', m := RemoveAt(ps, p), MapOf(ps) - {ps[p].0};
    RemovedAt(ps, p);
    forall i | 0 <= i < |ps'| ensures ps'[i].0 in m && m[ps'[i].0] == ps'[i].1 {
      assert ps'[i] == ps[if i < p then i else i + 1];
    }
    forall k | k in m ensures exists i :: 0 <= i < |ps'| && ps'[i].0 == k {
      KeyStays(ps, p, k);
    }
    MapIs(ps', m);
  }

  lemma KeyStays<V>(ps: seq<(nat, V)>, p: nat, k: nat)
    requires p < |ps| && k != ps[p].0 && exists i :: 0 <= i < |ps| && ps[i].0 == k
    ensures exists i :: 0 <= i < |RemoveAt(ps, p)| && RemoveAt(ps, p)[i].0 == k
  {
    var i :| 0 <= i < |ps| && ps[i].0 == k;
    RemovedAt(ps, p);
    assert RemoveAt(ps, p)[if i < p then i else i - 1].0 == k;
  }

  lemma MapAdd<V>(ps: seq<(nat, V)>, x: (nat, V))
    ensures MapOf(ps + [x]) == MapOf(ps)[x.0 := x.1]
  {
    assert (ps + [x])[..|ps|] == ps;
  }

  /** The number behind the last key is above all of them. */
  lemma MapAbove<V>(ps: seq<(nat, V)>)
    requires Keyed(ps)
    ensures Above(MapOf(ps).Keys) == if |ps| == 0 then 0 else ps[|ps| - 1].0 + 1
  {
    MapLists(ps);
    var keys := MapOf(ps).Keys;
    if |ps| > 0 {
      var last := ps[|ps| - 1].0;
      assert last in keys;
      assert Above(keys) - 1 in keys;
    }
  }

  // ------------------------------------------------------------------ the view of a state

  ghost function RecordOf(n: Inode, st: Blocks.Store): Record {
    Record(n.kind, n.owner, n.group, n.mode, n.size, n.atime, n.mtime, n.ctime, MappedBytes(st, n.slots))
  }

  ghost function FilePairs(inodes: seq<Inode>, st: Blocks.Store): (r: seq<(nat, Record)>)
    ensures |r| == |inodes|
    ensures forall i :: 0 <= i < |r| ==> r[i] == (inodes[i].index, RecordOf(inodes[i], st))
  {
    seq(|inodes|, i requires 0 <= i < |inodes| => (inodes[i].index, RecordOf(inodes[i], st)))
  }

  ghost function HandleOf(d: Desc): Handle {
    Handle(d.mode, d.off, d.node)
  }

  ghost function HandlePairs(descs: seq<Desc>): (r: seq<(nat, Handle)>)
    ensures |r| == |descs| && forall i :: 0 <= i < |r| ==> r[i] == (descs[i].fd, HandleOf(descs[i]))
  {
    seq(|descs|, i requires 0 <= i < |descs| => (descs[i].fd, HandleOf(descs[i])))
  }

  ghost function FilesOf(inodes: seq<Inode>, st: Blocks.Store): map<nat, Record> {
    MapOf(FilePairs(inodes, st))
  }

  ghost function HandlesOf(descs: seq<Desc>): map<nat, Handle> {
    MapOf(HandlePairs(descs))
  }

  /** What the reference sees of the tables. */
  ghost function View(s: State): Fs {
    Fs(Dir(s.names), FilesOf(s.inodes, s.store), HandlesOf(s.descs), CountFree(s.store.table))
  }

  ghost predicate Rising(inodes: seq<Inode>) {
    forall i, j :: 0 <= i < j < |inodes| ==> inodes[i].index < inodes[j].index
  }

  ghost predicate RisingFds(descs: seq<Desc>) {
    forall i, j :: 0 <= i < j < |descs| ==> descs[i].fd < descs[j].fd
  }

  lemma FileAt(inodes: seq<Inode>, st: Blocks.Store, x: nat)
    requires Rising(inodes)
    ensures x in FilesOf(inodes, st) <==> FindInode(inodes, x) < |inodes|
    ensures x in FilesOf(inodes, st) ==> FilesOf(inodes, st)[x] == RecordOf(inodes[FindInode(inodes, x)], st)
  {
    var ps := FilePairs(inodes, st);
    MapLists(ps);
    if x in FilesOf(inodes, st) {
      var i :| 0 <= i < |ps| && ps[i].0 == x;
      assert inodes[i].index == x;
    }
    if FindInode(inodes, x) < |inodes| { assert ps[FindInode(inodes, x)].0 == x; }
  }

  lemma HandleAt(descs: seq<Desc>, fd: nat)
    requires RisingFds(descs)
    ensures fd in HandlesOf(descs) <==> FindDesc(descs, fd) < |descs|
    ensures fd in HandlesOf(descs) ==> HandlesOf(descs)[fd] == HandleOf(descs[FindDesc(descs, fd)])
  {
    var ps := HandlePairs(descs);
    MapLists(ps);
    if fd in HandlesOf(descs) {
      var i :| 0 <= i < |ps| && ps[i].0 == fd;
      assert descs[i].fd == fd;
    }
    if FindDesc(descs, fd) < |descs| { assert ps[FindDesc(descs, fd)].0 == fd; }
  }

  /** Replacing one inode in a store that keeps the bytes of the others. */
  lemma FilesSet(inodes: seq<Inode>, st: Blocks.Store, st': Blocks.Store, p: nat, x: Inode)
    requires Rising(inodes) && p < |inodes| && x.index == inodes[p].index
    requires forall i :: 0 <= i < |inodes| && i != p ==>
               MappedBytes(st', inodes[i].slots) == MappedBytes(st, inodes[i].slots)
    ensures FilesOf(inodes[p := x], st') == FilesOf(inodes, st)[x.index := RecordOf(x, st')]
  {
    var ps := FilePairs(inodes, st);
    MapSet(ps, p, RecordOf(x, st'));
    assert FilePairs(inodes[p := x], st') == ps[p := (ps[p].0, RecordOf(x, st'))];
  }

  lemma FilesAdd(inodes: seq<Inode>, st: Blocks.Store, x: Inode)
    ensures FilesOf(inodes + [x], st) == FilesOf(inodes, st)[x.index := RecordOf(x, st)]
  {
    MapAdd(FilePairs(inodes, st), (x.index, RecordOf(x, st)));
    assert FilePairs(inodes + [x], st) == FilePairs(inodes, st) + [(x.index, RecordOf(x, st))];
  }

  lemma FilesDrop(inodes: seq<Inode>, st: Blocks.Store, st': Blocks.Store, p: nat)
    requires Rising(inodes) && p < |inodes|
    requires forall i :: 0 <= i < |inodes| && i != p ==>
               MappedBytes(st', inodes[i].slots) == MappedBytes(st, inodes[i].slots)
    ensures FilesOf(RemoveAt(inodes, p), st') == FilesOf(inodes, st) - {inodes[p].index}
  {
    RemovedAt(inodes, p);
    RemovedAt(FilePairs(inodes, st), p);
    MapDrop(FilePairs(inodes, st), p);
    assert FilePairs(RemoveAt(inodes, p), st') == RemoveAt(FilePairs(inodes, st), p);
  }

  lemma FilesAbove(inodes: seq<Inode>, st: Blocks.Store)
    requires Rising(inodes)
    ensures Above(FilesOf(inodes, st).Keys) == NextIndex(inodes)
  {
    MapAbove(FilePairs(inodes, st));
  }

  lemma HandlesSet(descs: seq<Desc>, d: nat, x: Desc)
    requires RisingFds(descs) && d < |descs| && x.fd == descs[d].fd
    ensures HandlesOf(descs[d := x]) == HandlesOf(descs)[x.fd := HandleOf(x)]
  {
    var ps := HandlePairs(descs);
    MapSet(ps, d, HandleOf(x));
    assert HandlePairs(descs[d := x]) == ps[d := (ps[d].0, HandleOf(x))];
  }

  lemma HandlesAdd(descs: seq<Desc>, x: Desc)
    ensures HandlesOf(descs + [x]) == HandlesOf(descs)[x.fd := HandleOf(x)]
  {
    MapAdd(HandlePairs(descs), (x.fd, HandleOf(x)));
    assert HandlePairs(descs + [x]) == HandlePairs(descs) + [(x.fd, HandleOf(x))];
  }

  lemma HandlesDrop(descs: seq<Desc>, d: nat)
    requires RisingFds(descs) && d < |descs|
    ensures HandlesOf(RemoveAt(descs, d)) == HandlesOf(descs) - {descs[d].fd}
  {
    RemovedAt(descs, d);
    RemovedAt(HandlePairs(descs), d);
    MapDrop(HandlePairs(descs), d);
    assert HandlePairs(RemoveAt(descs, d)) == RemoveAt(HandlePairs(descs), d);
  }

  lemma HandlesAbove(descs: seq<Desc>)
    requires RisingFds(descs)
    ensures Above(HandlesOf(descs).Keys) == NextFd(descs)
  {
    MapAbove(HandlePairs(descs));
  }

  // ------------------------------------------------------------------ one inode

  lemma InvRises(s: State)
    requires Inv(s)
    ensures Rising(s.inodes) && RisingFds(s.descs)
  {
  }

  lemma FileOf(s: State, x: nat) returns (p: nat)
    requires Inv(s)
    ensures p == FindInode(s.inodes, x) && (x in View(s).files <==> p < |s.inodes|)
    ensures x in View(s).files ==> View(s).files[x] == RecordOf(s.inodes[p], s.store) && s.inodes[p].index == x
  {
    p := FindInode(s.inodes, x);
    FileAt(s.inodes, s.store, x);
  }

  lemma HandleIn(s: State, fd: nat) returns (d: nat)
    requires Inv(s)
    ensures d == FindDesc(s.descs, fd) && (fd in View(s).handles <==> d < |s.descs|)
    ensures fd in View(s).handles ==> View(s).handles[fd] == HandleOf(s.descs[d]) && s.descs[d].fd == fd
  {
    d := FindDesc(s.descs, fd);
    HandleAt(s.descs, fd);
  }

  /** Changing anything of one inode but its index and its slots. */
  lemma Touched(s: State, p: nat, x: Inode)
    requires Rising(s.inodes) && p < |s.inodes| && x.index == s.inodes[p].index && x.slots == s.inodes[p].slots
    ensures View(SetInode(s, p, x)) == SetFile(View(s), x.index, RecordOf(x, s.store))
  {
    FilesSet(s.inodes, s.store, s.store, p, x);
  }

  lemma Moved(s: State, d: nat, off: nat)
    requires RisingFds(s.descs) && d < |s.descs|
    ensures View(SetOffset(s, d, off)) == Move(View(s), s.descs[d].fd, HandleOf(s.descs[d]), off)
  {
    HandlesSet(s.descs, d, s.descs[d].(off := off));
  }

  lemma NoBytes(st: Blocks.Store)
    ensures MappedBytes(st, NoSlots()) == []
  {
    assert Mapped(NoSlots()) == 0;
  }
}
