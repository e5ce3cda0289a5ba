/**
 Argument marshalling: the client lays the arguments of a request out in one byte string and
 the service reads them back at a moving offset. An argument is a 32-bit word, a signed int or
 long, a string that ends at a NUL, or a block of bytes whose length is the word before it.
 Integers are little-endian.
 */
module Wire {
  import opened Common
  import opened Text

  function Pow256(n: nat): (r: nat)
    ensures r > 0
  {
    if n == 0 then 1 else 256 * Pow256(n - 1)
  }

  function Le(x: nat, n: nat): (b: seq<Byte>)
    ensures |b| == n
  {
    if n == 0 then [] else [x % 256] + Le(x / 256, n - 1)
  }

  function ReadLe(buf: seq<Byte>, at: nat, n: nat): (x: nat)
    requires at + n <= |buf|
    ensures x < Pow256(n)
    decreases n
  {
    if n == 0 then 0 else buf[at] + 256 * ReadLe(buf, at + 1, n - 1)
  }

  lemma {:induction false} LeInverts(x: nat, n: nat, buf: seq<Byte>, at: nat)
    requires x < Pow256(n) && at + n <= |buf| && buf[at..at + n] == Le(x, n)
    ensures ReadLe(buf, at, n) == x
    decreases n
  {
    if n == 0 {
    } else {
      assert buf[at] == buf[at..at + n][0];
      assert buf[at + 1..at + 1 + (n - 1)] == buf[at..at + n][1..];
      LeInverts(x / 256, n - 1, buf, at + 1);
    }
  }

  lemma Powers()
    ensures Pow256(4) == U32 && Pow256(8) == 2 * I63
  {
    assert Pow256(1) == 256 && Pow256(2) == 65536 && Pow256(3) == 16777216;
    assert Pow256(5) == 256 * U32 && Pow256(6) == 65536 * U32 && Pow256(7) == 16777216 * U32;
  }

  /** Two's complement in n bytes. */
  function Encode(v: int, n: nat): nat {
    v % Pow256(n)
  }

  function Signed(u: nat, n: nat): int {
    if 2 * u < Pow256(n) then u else u - Pow256(n)
  }

  // ------------------------------------------------------------------ arguments

  datatype Arg = Word(x: nat) | Int(v: int) | Long(l: int) | Str(s: string) | Raw(data: seq<Byte>)

  datatype Shape = AWord | AnInt | ALong | AStr | ARaw

  function ShapeOf(a: Arg): Shape {
    match a
    case Word(_) => AWord
    case Int(_) => AnInt
    case Long(_) => ALong
    case Str(_) => AStr
    case Raw(_) => ARaw
  }

  function ShapesOf(args: seq<Arg>): (r: seq<Shape>)
    ensures |r| == |args|
  {
    if |args| == 0 then [] else [ShapeOf(args[0])] + ShapesOf(args[1..])
  }

  /** A character string without NUL, of single-byte characters. */
  predicate CString(s: string) {
    forall i :: 0 <= i < |s| ==> 0 < s[i] as int < 256
  }

  function BytesOf(s: string): (b: seq<Byte>)
    requires CString(s)
    ensures |b| == |s| && forall i :: 0 <= i < |s| ==> b[i] == s[i] as int
  {
    if |s| == 0 then [] else [s[0] as int] + BytesOf(s[1..])
  }

  /** Values that their C types can hold; the length of a block is the word before it. */
  predicate Storable(a: Arg, last: nat) {
    match a
    case Word(x) => x < U32
    case Int(v) => -I31 <= v < I31
    case Long(l) => -I63 <= l < I63
    case Str(s) => CString(s)
    case Raw(data) => |data| == last < U32
  }

  function Last(a: Arg, last: nat): nat {
    if a.Word? then a.x else last
  }

  predicate AllStorable(args: seq<Arg>, last: nat)
    decreases |args|
  {
    |args| > 0 ==> Storable(args[0], last) && AllStorable(args[1..], Last(args[0], last))
  }

  function Pack(a: Arg, last: nat): seq<Byte>
    requires Storable(a, last)
  {
    match a
    case Word(x) => Le(x, 4)
    case Int(v) => Le(Encode(v, 4), 4)
    case Long(l) => Le(Encode(l, 8), 8)
    case Str(s) => BytesOf(s) + [0]
    case Raw(data) => data
  }

  /** The buffer that the client fills. */
  function PackAll(args: seq<Arg>, last: nat): seq<Byte>
    requires AllStorable(args, last)
    decreases |args|
  {
    if |args| == 0 then [] else Pack(args[0], last) + PackAll(args[1..], Last(args[0], last))
  }

  /** The end of the string at an offset, if there is one in the buffer. */
  function FindNul(buf: seq<Byte>, at: nat): (r: Option<nat>)
    requires at <= |buf|
    ensures r.Some? ==> at <= r.value < |buf| && buf[r.value] == 0
    ensures r.Some? ==> forall i :: at <= i < r.value ==> buf[i] != 0
    decreases |buf| - at
  {
    if at == |buf| then None else if buf[at] == 0 then Some(at) else FindNul(buf, at + 1)
  }

  function CharsOf(b: seq<Byte>): (s: string)
    ensures |s| == |b| && forall i :: 0 <= i < |b| ==> s[i] == b[i] as char
  {
    if |b| == 0 then "" else [b[0] as char] + CharsOf(b[1..])
  }

  /** One argument and the offset behind it. None stands for a read beyond the buffer, which C
      does not notice. */
  function Unpack(shape: Shape, buf: seq<Byte>, at: nat, last: nat): (r: Option<(Arg, nat)>)
    requires at <= |buf|
    ensures r.Some? ==> at <= r.value.1 <= |buf| && ShapeOf(r.value.0) == shape
  {
    match shape
    case AWord => if at + 4 <= |buf| then Some((Word(ReadLe(buf, at, 4)), at + 4)) else None
    case AnInt => if at + 4 <= |buf| then Some((Int(Signed(ReadLe(buf, at, 4), 4)), at + 4)) else None
    case ALong => if at + 8 <= |buf| then Some((Long(Signed(ReadLe(buf, at, 8), 8)), at + 8)) else None
    case AStr =>
      var z := FindNul(buf, at);
      if z.Some? then Some((Str(CharsOf(buf[at..z.value])), z.value + 1)) else None
    case ARaw => if at + last <= |buf| then Some((Raw(buf[at..at + last]), at + last)) else None
  }

  /** What the service reads back, argument by argument. */
  function UnpackAll(shapes: seq<Shape>, buf: seq<Byte>, at: nat, last: nat): (r: Option<seq<Arg>>)
    requires at <= |buf|
    ensures r.Some? ==> ShapesOf(r.value) == shapes
    decreases |shapes|
  {
    if |shapes| == 0 then Some([])
    else
      var a := Unpack(shapes[0], buf, at, last);
      if a.None? then None
      else
        var rest := UnpackAll(shapes[1..], buf, a.value.1, Last(a.value.0, last));
        if rest.None? then None else Some([a.value.0] + rest.value)
  }

  // ------------------------------------------------------------------ round trip

  lemma StringInverts(s: string, buf: seq<Byte>, at: nat)
    requires CString(s) && at + |s| + 1 <= |buf| && buf[at..at + |s| + 1] == BytesOf(s) + [0]
    ensures FindNul(buf, at) == Some(at + |s|) && CharsOf(buf[at..at + |s|]) == s
  {
    var here := buf[at..at + |s| + 1];
    assert forall i :: at <= i < at + |s| ==> buf[i] == here[i - at] == s[i - at] as int;
    assert buf[at + |s|] == here[|s|] == 0;
    NulIs(buf, at, at + |s|);
    assert buf[at..at + |s|] == BytesOf(s);
  }

  lemma {:induction false} NulIs(buf: seq<Byte>, at: nat, z: nat)
    requires at <= z < |buf| && buf[z] == 0 && forall i :: at <= i < z ==> buf[i] != 0
    ensures FindNul(buf, at) == Some(z)
    decreases z - at
  {
    if at < z { NulIs(buf, at + 1, z); }
  }

  lemma ModRange(v: int, p: int)
    requires p > 0 && 0 <= v + p && v < p
    ensures v % p == if v < 0 then v + p else v
  {
    if v < 0 { assert (v + p) % p == v % p; }
  }

  lemma IntegerInverts(v: int, n: nat, buf: seq<Byte>, at: nat)
    requires 0 <= 2 * v + Pow256(n) && 2 * v < Pow256(n)
    requires at + n <= |buf| && buf[at..at + n] == Le(Encode(v, n), n)
    ensures Signed(ReadLe(buf, at, n), n) == v
  {
    ModRange(v, Pow256(n));
    LeInverts(Encode(v, n), n, buf, at);
  }

  lemma UnpackInverts(a: Arg, last: nat, buf: seq<Byte>, at: nat)
    requires Storable(a, last) && at + |Pack(a, last)| <= |buf|
    requires buf[at..at + |Pack(a, last)|] == Pack(a, last)
    ensures Unpack(ShapeOf(a), buf, at, last) == Some((a, at + |Pack(a, last)|))
  {
    Powers();
    match a
    case Word(x) => LeInverts(x, 4, buf, at);
    case Int(v) => IntegerInverts(v, 4, buf, at);
    case Long(l) => IntegerInverts(l, 8, buf, at);
    case Str(s) => StringInverts(s, buf, at);
    case Raw(data) =>
  }

  /** The buffer goes on with these bytes, and nothing behind them. */
  ghost predicate Ends(buf: seq<Byte>, at: nat, bytes: seq<Byte>) {
    at <= |buf| && buf[at..] == bytes
  }

  lemma EndsWith(buf: seq<Byte>, at: nat, a: seq<Byte>, rest: seq<Byte>)
    requires Ends(buf, at, a + rest)
    ensures at + |a| <= |buf| && buf[at..at + |a|] == a && Ends(buf, at + |a|, rest)
  {
    assert buf[at..at + |a|] == buf[at..][..|a|] == a;
    assert buf[at + |a|..] == buf[at..][|a|..] == rest;
  }

  ghost predicate Reads(args: seq<Arg>, last: nat, buf: seq<Byte>, at: nat) {
    at <= |buf| && UnpackAll(ShapesOf(args), buf, at, last) == Some(args)
  }

  lemma ReadsStep(args: seq<Arg>, last: nat, buf: seq<Byte>, at: nat, next: nat)
    requires |args| > 0 && at <= |buf| && Unpack(ShapeOf(args[0]), buf, at, last) == Some((args[0], next))
    requires Reads(args[1..], Last(args[0], last), buf, next)
    ensures Reads(args, last, buf, at)
  {
    assert ShapesOf(args)[0] == ShapeOf(args[0]) && ShapesOf(args)[1..] == ShapesOf(args[1..]);
    assert args == [args[0]] + args[1..];
  }

  /** Unmarshalling inverts marshalling, for every list of arguments. */
  lemma {:induction false} UnpackAllInverts(args: seq<Arg>, last: nat, buf: seq<Byte>, at: nat)
    requires AllStorable(args, last) && Ends(buf, at, PackAll(args, last))
    ensures Reads(args, last, buf, at)
    decreases |args|
  {
    if |args| == 0 {
      assert args == [];
    } else {
      var a := Pack(args[0], last);
      EndsWith(buf, at, a, PackAll(args[1..], Last(args[0], last)));
      UnpackInverts(args[0], last, buf, at);
      UnpackAllInverts(args[1..], Last(args[0], last), buf, at + |a|);
      ReadsStep(args, last, buf, at, at + |a|);
    }
  }
}
