/**
 Saving the tables as text when the service ends and loading them when it starts
 (the open_* and close_* functions of service/inode.c). Nanoseconds are not saved.
 */
module Persist {
  import opened Common
  import opened Text
  import opened Blocks
  import opened Namespace
  import opened Invariant

  // ------------------------------------------------------------------ lines of integers

  /** Integers separated by commas. */
  function JoinInts(xs: seq<int>): (s: string)
    requires |xs| > 0
    ensures forall i :: 0 <= i < |s| ==> s[i] != '\n'
    ensures |s| > 0
  {
    if |xs| == 1 then PrintInt(xs[0]) else PrintInt(xs[0]) + "," + JoinInts(xs[1..])
  }

  /** The strtok calls of open_inode_table: k tokens, the last one up to the newline. */
  function ParseInts(line: string, at: nat, k: nat): (r: Option<seq<int>>)
    requires k > 0
    ensures r.Some? ==> |r.value| == k
    decreases k
  {
    var t := Token(line, at, if k == 1 then '\n' else ',');
    if t.None? then None
    else if k == 1 then Some([Atoi(t.value)])
    else
      var rest := ParseInts(line, at + |t.value| + 1, k - 1);
      if rest.None? then None else Some([Atoi(t.value)] + rest.value)
  }

  function Prepended<T>(front: seq<T>, r: Option<seq<T>>): Option<seq<T>> {
    if r.None? then None else Some(front + r.value)
  }

  lemma PrependOne<T>(front: seq<T>, x: T, r: Option<seq<T>>)
    ensures Prepended(front + [x], r) == Prepended(front, Prepended([x], r))
  {
    if r.Some? { assert front + [x] + r.value == front + ([x] + r.value); }
  }

  lemma PrependNone<T>(r: Option<seq<T>>)
    ensures Prepended([], r) == r
  {
    if r.Some? { assert [] + r.value == r.value; }
  }

  function WrapAll(xs: seq<int>): (r: seq<int>)
    ensures |r| == |xs| && forall i :: 0 <= i < |xs| ==> r[i] == Wrap32(xs[i])
  {
    if |xs| == 0 then [] else [Wrap32(xs[0])] + WrapAll(xs[1..])
  }

  lemma AtoiPrinted(x: int)
    ensures Atoi(PrintInt(x)) == Wrap32(x)
  {
    assert PrintInt(x) + "" == PrintInt(x);
    AtoiPrint(x, "");
  }

  /** What is left of a line from an offset on. */
  ghost predicate At(line: string, at: nat, rest: string) {
    at <= |line| && line[at..] == rest
  }

  lemma ParseLast(line: string, at: nat, x: int)
    requires At(line, at, PrintInt(x) + "\n")
    ensures ParseInts(line, at, 1) == Some([Wrap32(x)])
  {
    TokenIs(line, at, '\n', PrintInt(x), "\n");
    AtoiPrinted(x);
  }

  /** The line continues with x and a comma. */
  ghost predicate CellAt(line: string, at: nat, x: int, next: nat) {
    next == at + |PrintInt(x)| + 1 <= |line| && line[at..next - 1] == PrintInt(x) && line[next - 1] == ','
  }

  lemma ParseNext(line: string, at: nat, x: int, next: nat, k: nat, left: nat)
    requires k == left + 1 > 1 && CellAt(line, at, x, next)
    ensures ParseInts(line, at, k) == Prepended([Wrap32(x)], ParseInts(line, next, left))
  {
    var rest := line[next - 1..];
    assert line[at..] == line[at..next - 1] + rest;
    TokenIs(line, at, ',', PrintInt(x), rest);
    AtoiPrinted(x);
  }

  ghost predicate JoinedAt(line: string, at: nat, xs: seq<int>)
    requires |xs| > 0
  {
    At(line, at, JoinInts(xs) + "\n")
  }

  lemma JoinStep(line: string, at: nat, xs: seq<int>, tail: seq<int>, next: nat)
    requires |tail| > 0 && |xs| > 0 && xs[1..] == tail && next == at + |PrintInt(xs[0])| + 1
    requires JoinedAt(line, at, xs)
    ensures CellAt(line, at, xs[0], next) && JoinedAt(line, next, tail)
  {
    var t, end := PrintInt(xs[0]), JoinInts(tail) + "\n";
    assert JoinInts(xs) + "\n" == t + "," + end;
    var here := line[at..];
    assert here[..|t|] == t && here[|t|] == ',' && here[|t| + 1..] == end;
    assert here[..|t|] == line[at..next - 1] && here[|t| + 1..] == line[next..];
  }

  ghost predicate Parses(line: string, at: nat, xs: seq<int>)
    requires |xs| > 0
  {
    ParseInts(line, at, |xs|) == Some(WrapAll(xs))
  }

  lemma ParsesOne(line: string, at: nat, xs: seq<int>)
    requires |xs| == 1 && JoinedAt(line, at, xs)
    ensures Parses(line, at, xs)
  {
    assert WrapAll(xs) == [Wrap32(xs[0])];
    ParseLast(line, at, xs[0]);
  }

  lemma ParsesMore(line: string, at: nat, next: nat, xs: seq<int>, tail: seq<int>)
    requires |tail| > 0 && |xs| > 0 && xs[1..] == tail
    requires ParseInts(line, at, |xs|) == Prepended([Wrap32(xs[0])], ParseInts(line, next, |tail|))
    requires Parses(line, next, tail)
    ensures Parses(line, at, xs)
  {
    assert WrapAll(xs) == [Wrap32(xs[0])] + WrapAll(tail);
  }

  lemma {:induction false} ParseJoined(line: string, at: nat, xs: seq<int>)
    requires |xs| > 0 && JoinedAt(line, at, xs)
    ensures Parses(line, at, xs)
    decreases |xs|
  {
    if |xs| == 1 {
      ParsesOne(line, at, xs);
    } else {
      var next, tail := at + |PrintInt(xs[0])| + 1, xs[1..];
      JoinStep(line, at, xs, tail, next);
      ParseNext(line, at, xs[0], next, |xs|, |tail|);
      ParseJoined(line, next, tail);
      ParsesMore(line, at, next, xs, tail);
    }
  }

  lemma {:induction false} JoinedLength(xs: seq<int>)
    requires |xs| > 0 && forall i :: 0 <= i < |xs| ==> -I63 <= xs[i] < I63
    ensures |JoinInts(xs)| <= 21 * |xs|
  {
    PrintLength(xs[0]);
    if |xs| > 1 { JoinedLength(xs[1..]); }
  }

  // ------------------------------------------------------------------ inodes

  const HEAD_FIELDS: nat := 10

  /** The C types of the fields of an inode. */
  ghost predicate Typeable(n: Inode) {
    && n.index < U32 && n.owner < U32 && n.group < U32 && n.refCount < U32 && n.size < I31
    && -I63 <= n.mode < I63 && -I63 <= n.atime < I63 && -I63 <= n.mtime < I63 && -I63 <= n.ctime < I63
    && |n.slots| == MAX_SLOTS && forall i :: 0 <= i < |n.slots| ==> n.slots[i] < U32
  }

  function Fields(n: Inode): (f: seq<int>)
    requires Typeable(n)
    ensures |f| == HEAD_FIELDS + MAX_SLOTS
    ensures forall i :: 0 <= i < |f| ==> -I63 <= f[i] < I63
  {
    [AsInt(n.index), if n.kind == Regular then 0 else 1, AsInt(n.owner), AsInt(n.group), AsInt(n.refCount),
     n.mode, n.size, n.atime, n.mtime, n.ctime]
    + seq(MAX_SLOTS, i requires 0 <= i < MAX_SLOTS => AsInt(n.slots[i]))
  }

  function SlotsOf(f: seq<int>): (slots: seq<nat>)
    requires |f| == HEAD_FIELDS + MAX_SLOTS
  {
    seq<nat>(MAX_SLOTS, i requires 0 <= i < MAX_SLOTS => AsUnsigned(f[HEAD_FIELDS + i]))
  }

  function FromFields(f: seq<int>): Inode
    requires |f| == HEAD_FIELDS + MAX_SLOTS
  {
    Inode(AsUnsigned(f[0]), if AsUnsigned(f[1]) == 0 then Regular else Symlink, AsUnsigned(f[2]), AsUnsigned(f[3]),
          AsUnsigned(f[4]), f[5], if f[6] < 0 then 0 else f[6], f[7], f[8], f[9],
          SlotsOf(f))
  }

  /** An inode as it comes back: the fields of type long have passed through an int. */
  function Reloaded(n: Inode): Inode {
    n.(mode := Wrap32(n.mode), atime := Wrap32(n.atime), mtime := Wrap32(n.mtime), ctime := Wrap32(n.ctime))
  }

  lemma FieldsRoundTrip(n: Inode)
    requires Typeable(n)
    ensures FromFields(WrapAll(Fields(n))) == Reloaded(n)
  {
    var f, g := Fields(n), FromFields(WrapAll(Fields(n)));
    UnsignedRoundTrip(n.index);
    UnsignedRoundTrip(n.owner);
    UnsignedRoundTrip(n.group);
    UnsignedRoundTrip(n.refCount);
    forall i | 0 <= i < MAX_SLOTS ensures g.slots[i] == n.slots[i] {
      assert f[HEAD_FIELDS + i] == AsInt(n.slots[i]);
      UnsignedRoundTrip(n.slots[i]);
    }
    assert g.slots == n.slots;
  }

  function SaveInodes(inodes: seq<Inode>): string
    requires forall i :: 0 <= i < |inodes| ==> Typeable(inodes[i])
  {
    if |inodes| == 0 then "" else JoinInts(Fields(inodes[0])) + "\n" + SaveInodes(inodes[1..])
  }

  /** None when strtok runs out of tokens, which the loader does not check. */
  function LoadInodes(text: string): Option<seq<Inode>>
    decreases |text|
  {
    if |text| == 0 then Some([])
    else
      var line := Fgets(text);
      var f := ParseInts(line, 0, HEAD_FIELDS + MAX_SLOTS);
      if f.None? then None
      else
        var rest := LoadInodes(text[|line|..]);
        if rest.None? then None else Some([FromFields(f.value)] + rest.value)
  }

  lemma InodesStep(n: Inode, rest: string)
    requires Typeable(n)
    ensures LoadInodes(JoinInts(Fields(n)) + "\n" + rest) == Prepended([Reloaded(n)], LoadInodes(rest))
  {
    var body := JoinInts(Fields(n));
    JoinedLength(Fields(n));
    FgetsLine(body, rest);
    assert (body + "\n")[0..] == body + "\n";
    ParseJoined(body + "\n", 0, Fields(n));
    FieldsRoundTrip(n);
  }

  function ReloadAll(inodes: seq<Inode>): (r: seq<Inode>)
    ensures |r| == |inodes| && forall i :: 0 <= i < |r| ==> r[i] == Reloaded(inodes[i])
  {
    if |inodes| == 0 then [] else [Reloaded(inodes[0])] + ReloadAll(inodes[1..])
  }

  /** Loading a saved inode list gives the same inodes in the same order, with the long fields
      cut down to int. */
  lemma {:induction false} InodesReload(inodes: seq<Inode>)
    requires forall i :: 0 <= i < |inodes| ==> Typeable(inodes[i])
    ensures LoadInodes(SaveInodes(inodes)) == Some(ReloadAll(inodes))
  {
    if |inodes| == 0 {
    } else {
      InodesStep(inodes[0], SaveInodes(inodes[1..]));
      InodesReload(inodes[1..]);
    }
  }

  ghost predicate IntFields(n: Inode) {
    -I31 <= n.mode < I31 && -I31 <= n.atime < I31 && -I31 <= n.mtime < I31 && -I31 <= n.ctime < I31
  }

  lemma ReloadedIff(n: Inode)
    ensures Reloaded(n) == n <==> IntFields(n)
  {
  }

  lemma ReloadAllIff(inodes: seq<Inode>)
    ensures ReloadAll(inodes) == inodes <==> forall i :: 0 <= i < |inodes| ==> IntFields(inodes[i])
  {
    forall i | 0 <= i < |inodes| ensures ReloadAll(inodes)[i] == inodes[i] <==> IntFields(inodes[i]) {
      ReloadedIff(inodes[i]);
    }
  }

  /** The round trip is exact exactly when every mode and every time fits an int: unsigned
      fields survive at any value. */
  lemma InodesRoundTripIff(inodes: seq<Inode>)
    requires forall i :: 0 <= i < |inodes| ==> Typeable(inodes[i])
    ensures LoadInodes(SaveInodes(inodes)) == Some(inodes)
            <==> forall i :: 0 <= i < |inodes| ==> IntFields(inodes[i])
  {
    InodesReload(inodes);
    ReloadAllIff(inodes);
  }

  // ------------------------------------------------------------------ filenames

  /** A filename array holds at most 255 characters. */
  ghost predicate Nameable(e: Name) {
    e.node < U32 && |e.name| < 256 && forall i :: 0 <= i < |e.name| ==> e.name[i] != '\n'
  }

  function NameLine(e: Name): (s: string)
    requires Nameable(e)
    ensures forall i :: 0 <= i < |s| ==> s[i] != '\n'
  {
    PrintInt(AsInt(e.node)) + "," + e.name
  }

  function ParseName(line: string): Option<Name> {
    var t := Token(line, 0, ',');
    if t.None? then None
    else
      var name := Token(line, |t.value| + 1, '\n');
      if name.None? then None else Some(Name(AsUnsigned(Atoi(t.value)), name.value))
  }

  function SaveNames(names: seq<Name>): string
    requires forall i :: 0 <= i < |names| ==> Nameable(names[i])
  {
    if |names| == 0 then "" else NameLine(names[0]) + "\n" + SaveNames(names[1..])
  }

  function LoadNames(text: string): Option<seq<Name>>
    decreases |text|
  {
    if |text| == 0 then Some([])
    else
      var line := Fgets(text);
      var e := ParseName(line);
      if e.None? then None
      else
        var rest := LoadNames(text[|line|..]);
        if rest.None? then None else Some([e.value] + rest.value)
  }

  /** The leading integer of a line, up to its comma. */
  lemma HeadToken(line: string, x: int, rest: string)
    requires At(line, 0, PrintInt(x) + ("," + rest))
    ensures Token(line, 0, ',') == Some(PrintInt(x)) && Atoi(PrintInt(x)) == Wrap32(x)
    ensures At(line, |PrintInt(x)| + 1, rest)
  {
    var t := PrintInt(x);
    assert line[|t| + 1..] == line[0..][|t| + 1..] == rest;
    TokenIs(line, 0, ',', t, "," + rest);
    AtoiPrinted(x);
  }

  lemma NameToken(line: string, at: nat, name: string)
    requires At(line, at, name + "\n") && forall i :: 0 <= i < |name| ==> name[i] != '\n'
    ensures Token(line, at, '\n') == if name == "" then None else Some(name)
  {
    if name == "" {
      assert line[at] == line[at..][0] == '\n' && |line| == at + 1;
    } else {
      TokenIs(line, at, '\n', name, "\n");
    }
  }

  /** One line: commas in the name do no harm, an empty name does. */
  lemma NameRoundTrip(e: Name)
    requires Nameable(e)
    ensures ParseName(NameLine(e) + "\n") == if e.name == "" then None else Some(e)
  {
    var line, t := NameLine(e) + "\n", PrintInt(AsInt(e.node));
    assert line[0..] == t + ("," + (e.name + "\n"));
    HeadToken(line, AsInt(e.node), e.name + "\n");
    NameToken(line, |t| + 1, e.name);
    UnsignedRoundTrip(e.node);
  }

  lemma NamesStep(e: Name, rest: string)
    requires Nameable(e)
    ensures LoadNames(NameLine(e) + "\n" + rest) == if e.name == "" then None else Prepended([e], LoadNames(rest))
  {
    var text := NameLine(e) + "\n" + rest;
    assert |text| > 0;
    PrintLength(AsInt(e.node));
    FgetsLine(NameLine(e), rest);
    NameRoundTrip(e);
    assert Fgets(text) == NameLine(e) + "\n" && text[|Fgets(text)|..] == rest;
  }

  predicate NoneEmpty(names: seq<Name>) {
    forall i :: 0 <= i < |names| ==> names[i].name != ""
  }

  lemma NoneEmptyStep(names: seq<Name>)
    requires |names| > 0
    ensures NoneEmpty(names) <==> names[0].name != "" && NoneEmpty(names[1..])
  {
    if names[0].name != "" && NoneEmpty(names[1..]) {
      forall i | 0 <= i < |names| ensures names[i].name != "" {
        if i > 0 { assert names[i] == names[1..][i - 1]; }
      }
    }
  }

  /** Loading saved filenames restores them exactly when none is empty; an empty name makes the
      loader fail. */
  lemma {:induction false} NamesRoundTripIff(names: seq<Name>)
    requires forall i :: 0 <= i < |names| ==> Nameable(names[i])
    ensures LoadNames(SaveNames(names)) == if NoneEmpty(names) then Some(names) else None
  {
    if |names| == 0 {
      assert names == [];
    } else {
      assert names == [names[0]] + names[1..];
      NamesStep(names[0], SaveNames(names[1..]));
      NamesRoundTripIff(names[1..]);
      NoneEmptyStep(names);
    }
  }

  // ------------------------------------------------------------------ block records

  function BlockLine(e: Entry): (s: string)
    requires e.owner < U32
    ensures forall i :: 0 <= i < |s| ==> s[i] != '\n'
  {
    PrintInt(if e.used then 1 else 0) + "," + PrintInt(AsInt(e.owner))
  }

  function ParseBlock(line: string): Option<Entry> {
    var t := Token(line, 0, ',');
    if t.None? then None
    else
      var o := Token(line, |t.value| + 1, ',');
      if o.None? then None else Some(Entry(Atoi(t.value) != 0, AsUnsigned(Atoi(o.value))))
  }

  /** The table as memset leaves it. */
  function NoEntries(): (t: seq<Entry>)
    ensures |t| == NUM_BLOCKS
  {
    seq(NUM_BLOCKS, _ => Entry(false, 0))
  }

  function SaveBlocks(table: seq<Entry>): string
    requires forall i :: 0 <= i < |table| ==> table[i].owner < U32
  {
    if |table| == 0 then "" else BlockLine(table[0]) + "\n" + SaveBlocks(table[1..])
  }

  /** The loop of open_data_block_table from record `index` on. It reports a failure as soon as
      the table is full. */
  function LoadBlocks(text: string, table: seq<Entry>, index: nat): Option<(seq<Entry>, Status)>
    requires |table| == NUM_BLOCKS && index < NUM_BLOCKS
    decreases NUM_BLOCKS - index
  {
    if |text| == 0 then Some((table, Success))
    else
      var line := Fgets(text);
      var e := ParseBlock(line);
      if e.None? then None
      else
        var table' := table[index := e.value];
        if index + 1 >= NUM_BLOCKS then Some((table', Failure))
        else LoadBlocks(text[|line|..], table', index + 1)
  }

  lemma BlockRoundTrip(e: Entry)
    requires e.owner < U32
    ensures ParseBlock(BlockLine(e) + "\n") == Some(e)
  {
    var t, o := PrintInt(if e.used then 1 else 0), PrintInt(AsInt(e.owner));
    var line := BlockLine(e) + "\n";
    assert line[0..] == t + ("," + o + "\n");
    TokenIs(line, 0, ',', t, "," + o + "\n");
    AtoiPrint(if e.used then 1 else 0, "");
    assert t + "" == t;
    assert line[|t| + 1..] == (o + "\n") + "";
    TokenIs(line, |t| + 1, ',', o + "\n", "");
    AtoiPrint(AsInt(e.owner), "\n");
    UnsignedRoundTrip(e.owner);
  }

  lemma BlocksStep(e: Entry, rest: string)
    requires e.owner < U32
    ensures var text := BlockLine(e) + "\n" + rest;
      |text| > 0 && ParseBlock(Fgets(text)) == Some(e) && text[|Fgets(text)|..] == rest
  {
    PrintLength(AsInt(e.owner));
    PrintLength(if e.used then 1 else 0);
    FgetsLine(BlockLine(e), rest);
    BlockRoundTrip(e);
  }

  ghost predicate TableOk(table: seq<Entry>) {
    |table| == NUM_BLOCKS && forall i :: 0 <= i < |table| ==> table[i].owner < U32
  }

  /** Loading the saved records from `index` on completes the table. */
  ghost predicate Restores(saved: seq<Entry>, table: seq<Entry>, index: nat)
    requires TableOk(saved) && |table| == NUM_BLOCKS && index < NUM_BLOCKS
  {
    LoadBlocks(SaveBlocks(saved[index..]), table, index) == Some((saved, Failure))
  }

  lemma LoadStep(saved: seq<Entry>, table: seq<Entry>, table': seq<Entry>, index: nat)
    requires TableOk(saved) && |table| == NUM_BLOCKS && index < NUM_BLOCKS
    requires table' == table[index := saved[index]]
    ensures index + 1 == NUM_BLOCKS && table' == saved ==> Restores(saved, table, index)
    ensures index + 1 < NUM_BLOCKS && Restores(saved, table', index + 1) ==> Restores(saved, table, index)
  {
    var e, rest := saved[index], SaveBlocks(saved[index + 1..]);
    assert saved[index..][0] == e && saved[index..][1..] == saved[index + 1..];
    assert SaveBlocks(saved[index..]) == BlockLine(e) + "\n" + rest;
    BlocksStep(e, rest);
  }

  lemma {:induction false} LoadBlocksFrom(saved: seq<Entry>, table: seq<Entry>, index: nat)
    requires TableOk(saved) && |table| == NUM_BLOCKS && index < NUM_BLOCKS
    requires table[..index] == saved[..index]
    ensures Restores(saved, table, index)
    decreases NUM_BLOCKS - index
  {
    var table' := table[index := saved[index]];
    assert table'[..index + 1] == saved[..index + 1];
    if index + 1 == NUM_BLOCKS {
      assert table' == table'[..index + 1] == saved[..index + 1] == saved;
    } else {
      LoadBlocksFrom(saved, table', index + 1);
    }
    LoadStep(saved, table, table', index);
  }

  /** Loading a saved block table restores it completely, and always reports a failure. */
  lemma BlocksRoundTrip(saved: seq<Entry>)
    requires TableOk(saved)
    ensures LoadBlocks(SaveBlocks(saved), NoEntries(), 0) == Some((saved, Failure))
  {
    assert saved[0..] == saved;
    LoadBlocksFrom(saved, NoEntries(), 0);
  }

  // ------------------------------------------------------------------ the whole service

  ghost predicate Storable(s: State) {
    && (forall i :: 0 <= i < |s.inodes| ==> Typeable(s.inodes[i]) && IntFields(s.inodes[i]))
    && (forall e :: 0 <= e < |s.names| ==> Nameable(s.names[e]) && s.names[e].name != "")
    && TableOk(s.store.table)
  }

  /** Stopping and starting the service: everything is restored but the open descriptors, and
      the invariant holds again. */
  lemma RestartRestores(s: State)
    requires Inv(s) && Storable(s)
    ensures LoadInodes(SaveInodes(s.inodes)) == Some(s.inodes)
    ensures LoadNames(SaveNames(s.names)) == Some(s.names)
    ensures LoadBlocks(SaveBlocks(s.store.table), NoEntries(), 0)
         == Some((s.store.table, Failure))
    ensures Inv(s.(descs := []))
  {
    InodesRoundTripIff(s.inodes);
    NamesRoundTripIff(s.names);
    BlocksRoundTrip(s.store.table);
  }

  // ------------------------------------------------------------------ the loops

  lemma SaveNamesFrom(front: string, names: seq<Name>, i: nat)
    requires i < |names| && forall j :: 0 <= j < |names| ==> Nameable(names[j])
    ensures front + SaveNames(names[i..]) == front + NameLine(names[i]) + "\n" + SaveNames(names[i + 1..])
  {
    var line, tail := NameLine(names[i]), SaveNames(names[i + 1..]);
    assert names[i..][0] == names[i] && names[i..][1..] == names[i + 1..];
    assert SaveNames(names[i..]) == line + "\n" + tail;
    assert front + (line + "\n" + tail) == front + line + "\n" + tail;
  }

  /** close_filename_table. */
  method WriteNames(names: seq<Name>) returns (text: string)
    requires forall i :: 0 <= i < |names| ==> Nameable(names[i])
    ensures text == SaveNames(names)
  {
    text := "";
    var i := 0;
    assert names[0..] == names;
    while i < |names|
      invariant 0 <= i <= |names|
      invariant SaveNames(names) == text + SaveNames(names[i..])
    {
      SaveNamesFrom(text, names, i);
      text := text + NameLine(names[i]) + "\n";
      i := i + 1;
    }
  }

  /** open_filename_table. */
  method ReadNames(text: string) returns (names: Option<seq<Name>>)
    ensures names == LoadNames(text)
  {
    var read: seq<Name> := [];
    var rest := text;
    PrependNone(LoadNames(text));
    while |rest| > 0
      invariant LoadNames(text) == Prepended(read, LoadNames(rest))
      decreases |rest|
    {
      var line := Fgets(rest);
      var e := ParseName(line);
      if e.None? { return None; }
      PrependOne(read, e.value, LoadNames(rest[|line|..]));
      read := read + [e.value];
      rest := rest[|line|..];
    }
    assert read + [] == read;
    return Some(read);
  }

  lemma SaveInodesFrom(front: string, inodes: seq<Inode>, i: nat)
    requires i < |inodes| && forall j :: 0 <= j < |inodes| ==> Typeable(inodes[j])
    ensures front + SaveInodes(inodes[i..]) == front + JoinInts(Fields(inodes[i])) + "\n" + SaveInodes(inodes[i + 1..])
  {
    var line, tail := JoinInts(Fields(inodes[i])), SaveInodes(inodes[i + 1..]);
    assert inodes[i..][0] == inodes[i] && inodes[i..][1..] == inodes[i + 1..];
    assert SaveInodes(inodes[i..]) == line + "\n" + tail;
    assert front + (line + "\n" + tail) == front + line + "\n" + tail;
  }

  /** close_inode_table. */
  method WriteInodes(inodes: seq<Inode>) returns (text: string)
    requires forall i :: 0 <= i < |inodes| ==> Typeable(inodes[i])
    ensures text == SaveInodes(inodes)
  {
    text := "";
    var i := 0;
    assert inodes[0..] == inodes;
    while i < |inodes|
      invariant 0 <= i <= |inodes|
      invariant SaveInodes(inodes) == text + SaveInodes(inodes[i..])
    {
      SaveInodesFrom(text, inodes, i);
      var line := WriteInts(Fields(inodes[i]));
      text := text + line + "\n";
      i := i + 1;
    }
  }

  lemma JoinFrom(front: string, xs: seq<int>, i: nat)
    requires i < |xs| - 1
    ensures front + JoinInts(xs[i..]) == front + PrintInt(xs[i]) + "," + JoinInts(xs[i + 1..])
  {
    var t, tail := PrintInt(xs[i]), JoinInts(xs[i + 1..]);
    assert xs[i..][0] == xs[i] && xs[i..][1..] == xs[i + 1..];
    assert JoinInts(xs[i..]) == t + "," + tail;
    assert front + (t + "," + tail) == front + t + "," + tail;
  }

  /** The printing of one line: every field but the last is followed by a comma. */
  method WriteInts(xs: seq<int>) returns (line: string)
    requires |xs| > 0
    ensures line == JoinInts(xs)
  {
    line := "";
    var i := 0;
    assert xs[0..] == xs;
    while i < |xs| - 1
      invariant 0 <= i < |xs|
      invariant JoinInts(xs) == line + JoinInts(xs[i..])
    {
      JoinFrom(line, xs, i);
      line := line + PrintInt(xs[i]) + ",";
      i := i + 1;
    }
    assert xs[i..] == [xs[i]];
    line := line + PrintInt(xs[i]);
  }

  /** open_inode_table. */
  method ReadInodes(text: string) returns (inodes: Option<seq<Inode>>)
    ensures inodes == LoadInodes(text)
  {
    var read: seq<Inode> := [];
    var rest := text;
    PrependNone(LoadInodes(text));
    while |rest| > 0
      invariant LoadInodes(text) == Prepended(read, LoadInodes(rest))
      decreases |rest|
    {
      var line := Fgets(rest);
      var f := ReadInts(line, HEAD_FIELDS + MAX_SLOTS);
      if f.None? { return None; }
      PrependOne(read, FromFields(f.value), LoadInodes(rest[|line|..]));
      read := read + [FromFields(f.value)];
      rest := rest[|line|..];
    }
    assert read + [] == read;
    return Some(read);
  }

  /** The strtok calls on one line, at a moving offset. */
  method ReadInts(line: string, k: nat) returns (xs: Option<seq<int>>)
    requires k > 0
    ensures xs == ParseInts(line, 0, k)
  {
    var read: seq<int> := [];
    var copyOff: nat := 0;
    var i := 0;
    PrependNone(ParseInts(line, 0, k));
    while i < k - 1
      invariant 0 <= i < k
      invariant ParseInts(line, 0, k) == Prepended(read, ParseInts(line, copyOff, k - i))
    {
      var t := Token(line, copyOff, ',');
      if t.None? { return None; }
      PrependOne(read, Atoi(t.value), ParseInts(line, copyOff + |t.value| + 1, k - i - 1));
      read := read + [Atoi(t.value)];
      copyOff := copyOff + |t.value| + 1;
      i := i + 1;
    }
    var t := Token(line, copyOff, '\n');
    if t.None? { return None; }
    return Some(read + [Atoi(t.value)]);
  }

  lemma SaveBlocksFrom(front: string, saved: seq<Entry>, i: nat)
    requires TableOk(saved) && i < |saved|
    ensures front + SaveBlocks(saved[i..]) == front + BlockLine(saved[i]) + "\n" + SaveBlocks(saved[i + 1..])
  {
    var line, tail := BlockLine(saved[i]), SaveBlocks(saved[i + 1..]);
    assert saved[i..][0] == saved[i] && saved[i..][1..] == saved[i + 1..];
    assert SaveBlocks(saved[i..]) == line + "\n" + tail;
    assert front + (line + "\n" + tail) == front + line + "\n" + tail;
  }

  /** close_data_block_table. */
  method WriteBlockTable(table: seq<Entry>) returns (text: string)
    requires TableOk(table)
    ensures text == SaveBlocks(table)
  {
    text := "";
    assert table[0..] == table;
    for i := 0 to NUM_BLOCKS
      invariant SaveBlocks(table) == text + SaveBlocks(table[i..])
    {
      SaveBlocksFrom(text, table, i);
      text := text + BlockLine(table[i]) + "\n";
    }
  }

  ghost predicate Loads(text: string, table: seq<Entry>, index: nat, r: Option<(seq<Entry>, Status)>) {
    |table| == NUM_BLOCKS && index < NUM_BLOCKS && LoadBlocks(text, table, index) == r
  }

  /** One iteration of the loading loop. */
  lemma LoadOne(text: string, table: seq<Entry>, index: nat, r: Option<(seq<Entry>, Status)>)
    requires |text| > 0 && Loads(text, table, index, r)
    ensures var line := Fgets(text); var e := ParseBlock(line);
      if e.None? then r == None
      else if index + 1 >= NUM_BLOCKS then r == Some((table[index := e.value], Failure))
      else Loads(text[|line|..], table[index := e.value], index + 1, r)
  {
  }

  /** open_data_block_table. */
  method ReadBlockTable(text: string) returns (r: Option<(seq<Entry>, Status)>)
    ensures r == LoadBlocks(text, NoEntries(), 0)
  {
    ghost var goal := LoadBlocks(text, NoEntries(), 0);
    var table, rest := NoEntries(), text;
    var index: nat := 0;
    while |rest| > 0
      invariant index < NUM_BLOCKS && |table| == NUM_BLOCKS && Loads(rest, table, index, goal)
      decreases |rest|
    {
      LoadOne(rest, table, index, goal);
      var line := Fgets(rest);
      var e := ParseBlock(line);
      if e.None? { return None; }
      table := table[index := e.value];
      if index + 1 >= NUM_BLOCKS { return Some((table, Failure)); }
      rest, index := rest[|line|..], index + 1;
    }
    return Some((table, Success));
  }
}
