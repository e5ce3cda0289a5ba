/**
 Concrete runs of the file operations: one that leaks a block, and one after which the code reads
 the bytes of a removed file from a new one. A file "k" is kept all the time, so that no removal
 is at a list head.
 */
module FileRuns {
  import opened Common
  import opened Blocks
  import opened Namespace
  import opened Invariant
  import opened Files
  import opened Runs
  import opened DataFile
  import opened Restart
  import opened Backing
  import opened EndToEnd
  import Leaks

  // ------------------------------------------------------------------ a write that leaks

  /** The second file, empty, opened for writing. */
  ghost function Writing(): State {
    Holding("a", NoSlots(), 0, [Desc(0, WRITE_ONLY, 0, 1)], Empty().store)
  }

  lemma WritingInv()
    ensures Inv(Writing()) && Leaks.Leaked(Writing()) == {}
  {
    var st := Empty().store;
    assert "a"[0] != "k"[0];
    EmptyInv();
    CreateInv(Empty(), 0, 0, 511, "k", 0);
    CreateKept(st);
    CreateInv(Alone(st), 0, 0, 511, "a", 0);
    CreateSecond(st, "a");
    OpenInv(Holding("a", NoSlots(), 0, [], st), 0, 0, "a", WRITE_ONLY, 0);
    OpenSecond(st, "a", WRITE_ONLY);
    assert Allocated(st) == {};
  }

  lemma {:induction false} AllFree(table: seq<Entry>)
    requires forall b :: 0 <= b < |table| ==> !table[b].used
    ensures CountFree(table) == |table|
  {
    if |table| == 0 {
    } else {
      AllFree(table[..|table| - 1]);
    }
  }

  /** The write of a block and a byte at the start of a file of that size or of an empty one. */
  lemma TwoBlocksFit(slots: seq<nat>, st: Store)
    requires SlotsInRange(slots) && CountFree(st.table) >= 2
    ensures Fits(slots, 0, BLOCK_SIZE + 1, st) && Needed(slots, 0, BLOCK_SIZE + 1) <= 2
  {
    assert CeilDiv(BLOCK_SIZE + 1, BLOCK_SIZE) == 2;
  }

  lemma WritingIs()
    ensures var s := Writing();
            && Typed(s) && FindDesc(s.descs, 0) == 0 && Target(s, 0) == 1 && s.inodes[1].slots == NoSlots()
            && CountFree(s.store.table) == NUM_BLOCKS && Linked(s.store, NoSlots(), 1)
  {
    AllFree(Writing().store.table);
    NoSlotsLinked(Writing().store, 1);
  }

  /** The blocks left over after the first write. */
  lemma FirstWriteRoom(buf: Buffer)
    requires |buf| == BLOCK_SIZE + 1
    ensures Typed(Writing()) && CountFree(Write(Writing(), 0, buf, 0).0.store.table) >= 2
  {
    var s := Writing();
    WritingIs();
    TwoBlocksFit(NoSlots(), s.store);
    WriteUnfold(s, [], 0, buf, 0, 0, 1);
    WriteSucceedsIff(s.store, NoSlots(), 1, 0, buf);
  }

  /** The state after the first write. */
  lemma FirstWrite(buf: Buffer) returns (s1: State, d: Desc)
    requires |buf| == BLOCK_SIZE + 1
    ensures Typed(Writing()) && s1 == Write(Writing(), 0, buf, 0).0 && Inv(s1)
    ensures Leaks.Leaked(s1) == {} && CountFree(s1.store.table) >= 2
    ensures OpenOn(s1, 0, d, buf) && d.mode == WRITE_ONLY
  {
    var s := Writing();
    WritingInv();
    WritingIs();
    TwoBlocksFit(NoSlots(), s.store);
    s1 := Write(s, 0, buf, 0).0;
    WriteInv(s, 0, buf, 0);
    var front;
    d, front := AfterWrite(s, 0, buf, 0, 0);
    assert front + buf == buf;
    NothingLost(s, buf);
    Leaks.WriteLeaks(s, 0, buf, 0);
    FirstWriteRoom(buf);
  }

  lemma NothingLost(s: State, buf: Buffer)
    requires s == Writing() && Inv(s)
    ensures Leaks.Lost(s, OpWrite(0, buf)) == {}
  {
    WritingIs();
    Leaks.LostIs(s, 0, buf, 0);
    Leaks.AppendLosesNothing(s, 1, 0, buf);
  }

  /** Writing a file of more than one block twice from its start: both writes succeed, the file is
      what was written, and blocks are leaked. */
  lemma RewriteLeaks(buf: Buffer) returns (s1: State, s2: State, s3: State)
    requires |buf| == BLOCK_SIZE + 1
    ensures Inv(Writing()) && Leaks.Leaked(Writing()) == {}
    ensures Typed(Writing()) && s1 == Write(Writing(), 0, buf, 0).0
    ensures s2 == Seek(s1, 0, 0).0 && Typed(s2) && s3 == Write(s2, 0, buf, 0).0
    ensures Inv(s3) && File(s3, 1) == File(s1, 1) == Some(buf) && Leaks.Leaked(s3) != {}
  {
    var d: Desc;
    WritingInv();
    s1, d := FirstWrite(buf);
    s2 := Seek(s1, 0, 0).0;
    SeekInv(s1, 0, 0);
    AfterSeek(s1, 0, 0, d, buf);
    assert s2.store == s1.store;
    s3 := Write(s2, 0, buf, 0).0;
    SecondWrite(s2, d.(off := 0), buf);
    NodeKept(buf, d);
  }

  lemma NodeKept(buf: Buffer, d: Desc)
    requires Typed(Writing()) && DescAt(Write(Writing(), 0, buf, 0).0.descs, 0) == Some(d)
    ensures d.node == 1
  {
    var s := Writing();
    assert FindDesc(s.descs, 0) == 0 && Target(s, 0) == 1;
    WriteKeepsTables(s, 0, buf, 0, 0, 1);
  }

  lemma SecondWrite(s: State, d: Desc, buf: Buffer)
    requires Inv(s) && OpenOn(s, 0, d, buf) && d.mode == WRITE_ONLY && d.off == 0 && |buf| == BLOCK_SIZE + 1
    requires CountFree(s.store.table) >= 2
    ensures Inv(Write(s, 0, buf, 0).0) && File(Write(s, 0, buf, 0).0, d.node) == Some(buf)
    ensures Leaks.Lost(s, OpWrite(0, buf)) != {} && Leaks.Leaked(Write(s, 0, buf, 0).0) != {}
  {
    var i, p := OpenSize(s, 0, d, buf);
    var slots := s.inodes[p].slots;
    assert InodeOk(s.inodes[p], s.store);
    TwoBlocksFit(slots, s.store);
    WriteInv(s, 0, buf, 0);
    var d', front := AfterWrite(s, 0, buf, 0, 0);
    assert front + buf == buf;
    WriteKeepsTables(s, 0, buf, 0, i, p);
    SameWalks(s, Write(s, 0, buf, 0).0, 0, i, p);
    assert Mapped(slots) >= 2;
    Leaks.LosesNothingIff(s, p, 0, buf);
    Leaks.LostIs(s, 0, buf, i);
    Leaks.WriteLeaks(s, 0, buf, 0);
  }

  // ------------------------------------------------------------------ a run that reads the wrong bytes

  ghost function FirstTaken(st: Store, x: Byte): Store
    requires Sized(st)
  {
    Store(st.table[0 := Entry(true, 1)], st.disk[0 := Pad([x])])
  }

  ghost function FirstSlot(): seq<nat> {
    NoSlots()[0 := 1]
  }

  lemma SetSecond(name: string, slots: seq<nat>, size: nat, descs: seq<Desc>, st: Store)
    ensures var s := Holding(name, slots, size, descs, st);
            s.inodes[1 := s.inodes[1].(atime := 0, mtime := 0)] == s.inodes
  {
  }

  lemma WriteRun(st: Store, name: string, x: Byte)
    requires Sized(st) && !st.table[0].used && name != "k"
    ensures var s := Holding(name, NoSlots(), 0, [Desc(0, WRITE_ONLY, 0, 1)], st);
            && Typed(s)
            && Write(s, 0, [x], 0).0 == Holding(name, FirstSlot(), 1, [Desc(0, WRITE_ONLY, 1, 1)], FirstTaken(st, x))
            && forall file :: CodeOps(s, file, OpWrite(0, [x])) == [Take(1, [x])]
  {
    var s := Holding(name, NoSlots(), 0, [Desc(0, WRITE_ONLY, 0, 1)], st);
    var data: seq<Byte> := [x];
    HoldingFinds(name, NoSlots(), 0, s.descs, st);
    assert FindDesc(s.descs, 0) == 0 && Target(s, 0) == 1;
    FreshOnce(st, data);
    SetSecond(name, NoSlots(), 0, s.descs, st);
    WriteIsAt(s, 0, data, 0, 0);
    assert SetInode(s, 1, s.inodes[1].(atime := 0, mtime := 0)) == s;
    forall file ensures CodeOps(s, file, OpWrite(0, data)) == [Take(1, data)] {
      assert WriteOps(st.table, NoSlots(), 1, 0, data) == FreshOps(st.table, 1, data, 0, 1);
    }
  }

  /** One round of the allocating loop with a free first block. */
  lemma FreshOnce(st: Store, data: seq<Byte>)
    requires Sized(st) && !st.table[0].used && |data| == 1
    ensures FreshLoop(st, NoSlots(), 1, data, 0, 1) == Written(FirstTaken(st, data[0]), FirstSlot(), 1, 0, true)
    ensures FreshOps(st.table, 1, data, 0, 1) == [Take(1, data)]
    ensures WriteBlocks(st, NoSlots(), 1, 0, data) == FreshLoop(st, NoSlots(), 1, data, 0, 1)
  {
    assert CeilDiv(1, BLOCK_SIZE) == 1;
    assert data[..1] == data == [data[0]] && data[1..] == [];
    assert FirstFree(st.table, 0) == 0;
    assert Occupy(st, 1, data) == Some((FirstTaken(st, data[0]), 1));
    assert FreshLoop(FirstTaken(st, data[0]), FirstSlot(), 1, [], 1, 1)
        == Written(FirstTaken(st, data[0]), FirstSlot(), 1, 0, true);
  }

  lemma CloseRun(st: Store, name: string)
    ensures Close(Holding(name, FirstSlot(), 1, [Desc(0, WRITE_ONLY, 1, 1)], st), 0).0
         == Holding(name, FirstSlot(), 1, [], st)
  {
    assert RemoveAt([Desc(0, WRITE_ONLY, 1, 1)], 0) == [];
  }

  ghost function Emptied(st: Store): Store
    requires Sized(st)
  {
    st.(table := st.table[0 := Entry(false, 0)])
  }

  lemma FreeOne(table: seq<Entry>)
    requires |table| == NUM_BLOCKS
    ensures FreeOps(FirstSlot(), 0) == [Release(0)] && FreeSlots(table, FirstSlot(), 0) == table[0 := Entry(false, 0)]
  {
    assert FirstSlot()[0] == 1 && FirstSlot()[1] == 0;
    assert FreeOps(FirstSlot(), 1) == [] && FreeOps(FirstSlot(), 0) == [Release(0)] + [];
    assert FreeSlots(table, FirstSlot(), 0) == FreeSlots(table[0 := Entry(false, 0)], FirstSlot(), 1);
  }

  lemma UnlinkRun(st: Store, name: string)
    requires Sized(st) && name != "k"
    ensures var s := Holding(name, FirstSlot(), 1, [], st);
            && Typed(s) && DropsBlocks(s, OpUnlink(name)) && !DropsOpenFile(s, name) && KeepsHeads(s, OpUnlink(name))
            && Unlink(s, name, 0).0 == Alone(Emptied(st))
            && forall file :: CodeOps(s, file, OpUnlink(name)) == [Release(0)]
  {
    var s := Holding(name, FirstSlot(), 1, [], st);
    HoldingFinds(name, FirstSlot(), 1, [], st);
    FreeOne(st.table);
    RemoveSecond(name, FirstSlot(), 1, [], st);
    UnlinkUnfold(s, name, 0, 1, 1);
  }

  lemma OneTake(table: seq<Entry>, file: seq<Byte>, op: DiskOp)
    requires Takes(table, op)
    ensures FileAfter(table, file, [op]) == file + Pad(op.data)
  {
    assert FileAfter(table, file, [op]) == FileAfter(TableStep(table, op), FileStep(table, file, op), []);
  }

  lemma OneRelease(table: seq<Entry>, file: seq<Byte>, b: nat)
    ensures FileAfter(table, file, [Release(b)]) == file
  {
    var op := Release(b);
    assert FileAfter(table, file, [op]) == FileAfter(TableStep(table, op), FileStep(table, file, op), []);
  }

  // ------------------------------------------------------------------ the steps

  function Call(op: Op): LongEvent {
    Do(Event(op, 0))
  }

  lemma KeptStep(st: Store, file: seq<Byte>)
    requires Sized(st)
    ensures FollowedStep(State([], [], [], st), file, Call(OpCreate(0, 0, 511, "k")), Alone(st), file)
  {
    CreateKept(st);
  }

  lemma CreateStep(st: Store, name: string, file: seq<Byte>)
    requires Sized(st) && name != "k"
    ensures FollowedStep(Alone(st), file, Call(OpCreate(0, 0, 511, name)), Holding(name, NoSlots(), 0, [], st), file)
  {
    CreateSecond(st, name);
  }

  lemma OpenStep(st: Store, name: string, file: seq<Byte>)
    requires Sized(st) && name != "k"
    ensures FollowedStep(Holding(name, NoSlots(), 0, [], st), file, Call(OpOpen(0, 0, name, WRITE_ONLY)),
                         Holding(name, NoSlots(), 0, [Desc(0, WRITE_ONLY, 0, 1)], st), file)
  {
    OpenSecond(st, name, WRITE_ONLY);
  }

  lemma WriteStep(st: Store, name: string, x: Byte, file: seq<Byte>)
    requires Sized(st) && !st.table[0].used && name != "k"
    ensures FollowedStep(Holding(name, NoSlots(), 0, [Desc(0, WRITE_ONLY, 0, 1)], st), file, Call(OpWrite(0, [x])),
                         Holding(name, FirstSlot(), 1, [Desc(0, WRITE_ONLY, 1, 1)], FirstTaken(st, x)), file + Pad([x]))
  {
    var s := Holding(name, NoSlots(), 0, [Desc(0, WRITE_ONLY, 0, 1)], st);
    WriteRun(st, name, x);
    assert CodeOps(s, file, OpWrite(0, [x])) == [Take(1, [x])];
    OneTake(st.table, file, Take(1, [x]));
  }

  lemma CloseStep(st: Store, name: string, file: seq<Byte>)
    requires Sized(st)
    ensures FollowedStep(Holding(name, FirstSlot(), 1, [Desc(0, WRITE_ONLY, 1, 1)], st), file, Call(OpClose(0)),
                         Holding(name, FirstSlot(), 1, [], st), file)
  {
    CloseRun(st, name);
  }

  lemma UnlinkStep(st: Store, name: string, file: seq<Byte>)
    requires Sized(st) && name != "k"
    ensures FollowedStep(Holding(name, FirstSlot(), 1, [], st), file, Call(OpUnlink(name)), Alone(Emptied(st)), file)
    ensures Drops(Holding(name, FirstSlot(), 1, [], st), Call(OpUnlink(name)))
  {
    UnlinkRun(st, name);
    assert CodeOps(Holding(name, FirstSlot(), 1, [], st), file, OpUnlink(name)) == [Release(0)];
    OneRelease(st.table, file, 0);
  }

  // ------------------------------------------------------------------ the run

  function ReuseEvents(): (r: seq<LongEvent>)
    ensures |r| == 9
  {
    [Call(OpCreate(0, 0, 511, "k")),
     Call(OpCreate(0, 0, 511, "a")), Call(OpOpen(0, 0, "a", WRITE_ONLY)), Call(OpWrite(0, [1])),
     Call(OpClose(0)), Call(OpUnlink("a")),
     Call(OpCreate(0, 0, 511, "b")), Call(OpOpen(0, 0, "b", WRITE_ONLY)), Call(OpWrite(0, [2]))]
  }

  ghost function ReuseStates(st0: Store, st1: Store, st2: Store, st3: Store): (r: seq<State>)
    ensures |r| == 10
  {
    [State([], [], [], st0), Alone(st0),
     Holding("a", NoSlots(), 0, [], st0), Holding("a", NoSlots(), 0, [Desc(0, WRITE_ONLY, 0, 1)], st0),
     Holding("a", FirstSlot(), 1, [Desc(0, WRITE_ONLY, 1, 1)], st1), Holding("a", FirstSlot(), 1, [], st1),
     Alone(st2),
     Holding("b", NoSlots(), 0, [], st2), Holding("b", NoSlots(), 0, [Desc(0, WRITE_ONLY, 0, 1)], st2),
     Holding("b", FirstSlot(), 1, [Desc(0, WRITE_ONLY, 1, 1)], st3)]
  }

  function ReuseFiles(file1: seq<Byte>, file2: seq<Byte>): (r: seq<seq<Byte>>)
    ensures |r| == 10
  {
    [[], [], [], [], file1, file1, file1, file1, file1, file2]
  }

  /** How the stores and files of the run are related. */
  ghost predicate Related(st0: Store, st1: Store, st2: Store, st3: Store, file1: seq<Byte>, file2: seq<Byte>) {
    && Sized(st0) && !st0.table[0].used && st1 == FirstTaken(st0, 1) && st2 == Emptied(st1) && st3 == FirstTaken(st2, 2)
    && file1 == [] + Pad([1]) && file2 == file1 + Pad([2])
  }

  /** Whether step i of the run is one of the service and its file. */
  ghost predicate Goes(states: seq<State>, files: seq<seq<Byte>>, i: nat)
    requires i < 9 && |states| == |files| == 10
  {
    FollowedStep(states[i], files[i], ReuseEvents()[i], states[i + 1], files[i + 1])
  }

  lemma ReuseStep(st0: Store, st1: Store, st2: Store, st3: Store, file1: seq<Byte>, file2: seq<Byte>, i: nat)
    requires Related(st0, st1, st2, st3, file1, file2) && i < 9
    ensures Goes(ReuseStates(st0, st1, st2, st3), ReuseFiles(file1, file2), i)
  {
    assert "a"[0] != "k"[0] && "b"[0] != "k"[0];
    match i
    case 0 => KeptStep(st0, []);
    case 1 => CreateStep(st0, "a", []);
    case 2 => OpenStep(st0, "a", []);
    case 3 => WriteStep(st0, "a", 1, []);
    case 4 => CloseStep(st1, "a", file1);
    case 5 => UnlinkStep(st1, "a", file1);
    case 6 => CreateStep(st2, "b", file1);
    case 7 => OpenStep(st2, "b", file1);
    case 8 => WriteStep(st2, "b", 2, file1);
  }

  /** Write a byte into a file, unlink it, write another byte into another file: the code then
      reads the first byte back from the second file. */
  lemma ReuseReadsOldBytes() returns (states: seq<State>, files: seq<seq<Byte>>)
    ensures IsCodeRun(states, files, ReuseEvents()) && Dropped(states, ReuseEvents(), 9)
    ensures Typed(states[9]) && |states[9].inodes| == 2
    ensures var slots := states[9].inodes[1].slots;
            && ReadLoop(states[9].store, slots, 0, 1) == ReadOut([2], 1, true)
            && CodeRead(files[9], slots, 0, 1) == ReadOut([1], 1, true)
  {
    var st0, file1 := Empty().store, [] + Pad([1]);
    var st1 := FirstTaken(st0, 1);
    var st2 := Emptied(st1);
    var st3, file2 := FirstTaken(st2, 2), file1 + Pad([2]);
    states, files := ReuseStates(st0, st1, st2, st3), ReuseFiles(file1, file2);
    forall i: nat | i < 9 ensures Goes(states, files, i) {
      ReuseStep(st0, st1, st2, st3, file1, file2, i);
    }
    GoesOnAll(states, files);
    assert "a"[0] != "k"[0];
    UnlinkStep(st1, "a", file1);
    assert Drops(states[5], ReuseEvents()[5]);
    ReadsByte(st3, file2);
  }

  lemma GoesOnAll(states: seq<State>, files: seq<seq<Byte>>)
    requires |states| == |files| == 10 && states[0] == Empty() && files[0] == []
    requires forall i: nat :: i < 9 ==> Goes(states, files, i)
    ensures IsCodeRun(states, files, ReuseEvents())
  {
    forall i | 0 <= i < 9 ensures FollowedStep(states[i], files[i], ReuseEvents()[i], states[i + 1], files[i + 1]) {
      assert Goes(states, files, i);
    }
  }

  lemma ReadsByte(st: Store, file: seq<Byte>)
    requires Sized(st) && |file| >= BLOCK_SIZE
    ensures ReadLoop(st, FirstSlot(), 0, 1) == ReadOut([st.disk[0][0]], 1, true)
    ensures CodeRead(file, FirstSlot(), 0, 1) == ReadOut([file[0]], 1, true)
  {
    assert FirstSlot()[0] == 1;
    ModelStep(st, FirstSlot(), 0, 1, 1, 0, 1);
    CodeStep(file, FirstSlot(), 0, 1, 1, 0, 1);
    assert st.disk[0][0..1] == [st.disk[0][0]] && file[0..1] == [file[0]];
  }
}
