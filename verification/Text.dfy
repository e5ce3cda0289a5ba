/**
 The C text primitives that save and load of the tables use: printf of integers, atoi, strtok
 with one delimiter, and fgets.
 */
module Text {
  import opened Common

  const I31: int := 0x8000_0000
  const LINE_MAX: nat := 4096     // size of the line buffers
  const I63: int := 0x8000_0000_0000_0000

  /** What a conversion to `int` leaves of an integer. */
  function Wrap32(x: int): (r: int)
    ensures -I31 <= r < I31
    ensures r == x <==> -I31 <= x < I31
  {
    (x + I31) % U32 - I31
  }

  /** `unsigned` values as printed by %d, and `int` values assigned to an `unsigned`. */
  function AsInt(u: nat): (r: int)
    requires u < U32
    ensures -I31 <= r < I31
  {
    if u < I31 then u else u - U32
  }

  function AsUnsigned(x: int): (u: nat)
    ensures u < U32
  {
    x % U32
  }

  lemma UnsignedRoundTrip(u: nat)
    requires u < U32
    ensures AsUnsigned(Wrap32(AsInt(u))) == u
  {
  }

  // ------------------------------------------------------------------ printf and atoi

  predicate IsDigit(c: char) {
    '0' <= c <= '9'
  }

  function Digits(n: nat): (s: string)
    ensures |s| >= 1 && forall i :: 0 <= i < |s| ==> IsDigit(s[i])
  {
    if n < 10 then ['0' + n as char] else Digits(n / 10) + ['0' + (n % 10) as char]
  }

  function PrintInt(x: int): (s: string)
    ensures |s| >= 1 && forall i :: 0 <= i < |s| ==> IsDigit(s[i]) || (i == 0 && s[i] == '-')
  {
    if x < 0 then "-" + Digits(-x) else Digits(x)
  }

  function ParseDigits(s: string, acc: nat): nat {
    if |s| == 0 || !IsDigit(s[0]) then acc
    else ParseDigits(s[1..], acc * 10 + (s[0] - '0') as nat)
  }

  /** atoi: an optional minus sign and digits, up to the first other character; the result is
      what glibc returns, the value of strtol converted to int. */
  function Atoi(s: string): int {
    var negative := |s| > 0 && s[0] == '-';
    var n: int := ParseDigits(if negative then s[1..] else s, 0);
    Wrap32(if negative then -n else n)
  }

  lemma {:induction false} ParseAppend(a: string, b: string, acc: nat)
    requires forall i :: 0 <= i < |a| ==> IsDigit(a[i])
    ensures ParseDigits(a + b, acc) == ParseDigits(b, ParseDigits(a, acc))
  {
    if |a| == 0 {
      assert a + b == b;
    } else {
      assert (a + b)[1..] == a[1..] + b;
      ParseAppend(a[1..], b, acc * 10 + (a[0] - '0') as nat);
    }
  }

  lemma {:induction false} DigitsParse(n: nat)
    ensures ParseDigits(Digits(n), 0) == n
  {
    if n >= 10 {
      var last := ['0' + (n % 10) as char];
      DigitsParse(n / 10);
      ParseAppend(Digits(n / 10), last, 0);
      assert last[1..] == [];
      assert ParseDigits(last, n / 10) == n / 10 * 10 + n % 10;
    } else {
      assert Digits(n)[1..] == [];
    }
  }

  /** atoi of a printed integer, also with a line end behind it. */
  lemma AtoiPrint(x: int, end: string)
    requires end == "" || !IsDigit(end[0])
    ensures Atoi(PrintInt(x) + end) == Wrap32(x)
  {
    var n: nat := if x < 0 then -x else x;
    DigitsParse(n);
    ParseAppend(Digits(n), end, 0);
    if x < 0 {
      assert (PrintInt(x) + end)[1..] == Digits(n) + end;
    } else {
      assert IsDigit((PrintInt(x) + end)[0]);
    }
  }

  function Pow10(k: nat): nat {
    if k == 0 then 1 else 10 * Pow10(k - 1)
  }

  lemma {:induction false} DigitsLength(n: nat, k: nat)
    requires k >= 1 && n < Pow10(k)
    ensures |Digits(n)| <= k
  {
    if n >= 10 {
      assert Pow10(1) == 10;
      DigitsLength(n / 10, k - 1);
    }
  }

  /** A printed long takes at most 20 characters. */
  lemma PrintLength(x: int)
    requires -I63 <= x < I63
    ensures |PrintInt(x)| <= 20
  {
    assert Pow10(2) == 100 && Pow10(4) == 10_000 && Pow10(6) == 1_000_000 && Pow10(8) == 100_000_000;
    assert Pow10(10) == 10_000_000_000 && Pow10(12) == 1_000_000_000_000 && Pow10(14) == 100_000_000_000_000;
    assert Pow10(16) == 10_000_000_000_000_000 && Pow10(18) == 1_000_000_000_000_000_000;
    DigitsLength(if x < 0 then -x else x, 19);
  }

  // ------------------------------------------------------------------ strtok and fgets

  function TakeUntil(line: string, at: nat, d: char): (t: string)
    requires at <= |line|
    ensures at + |t| <= |line|
    decreases |line| - at
  {
    if at == |line| || line[at] == d then "" else [line[at]] + TakeUntil(line, at + 1, d)
  }

  /** strtok(line + at, d): skip leading delimiters, then take up to the next one. None is the
      null pointer, which the callers dereference. */
  function Token(line: string, at: nat, d: char): (t: Option<string>)
    decreases |line| - at
  {
    if at >= |line| then None
    else if line[at] == d then Token(line, at + 1, d)
    else Some(TakeUntil(line, at, d))
  }

  lemma {:induction false} TakeUntilIs(line: string, at: nat, d: char, t: string, rest: string)
    requires at <= |line| && line[at..] == t + rest
    requires forall i :: 0 <= i < |t| ==> t[i] != d
    requires rest == "" || rest[0] == d
    ensures TakeUntil(line, at, d) == t
    decreases |t|
  {
    if |t| == 0 {
      assert line[at..] == rest;
      if rest != "" { assert line[at] == line[at..][0]; }
    } else {
      assert line[at] == line[at..][0] == t[0];
      assert line[at + 1..] == line[at..][1..] == t[1..] + rest;
      TakeUntilIs(line, at + 1, d, t[1..], rest);
      assert t == [t[0]] + t[1..];
    }
  }

  /** A token that stands at the offset, ends at a delimiter or at the end, and is not empty. */
  lemma TokenIs(line: string, at: nat, d: char, t: string, rest: string)
    requires at <= |line| && line[at..] == t + rest && t != ""
    requires forall i :: 0 <= i < |t| ==> t[i] != d
    requires rest == "" || rest[0] == d
    ensures Token(line, at, d) == Some(t)
  {
    assert line[at] == line[at..][0] == t[0];
    TakeUntilIs(line, at, d, t, rest);
  }

  /** Length of the first line of a text, with its newline if it has one. */
  function LineLength(text: string): (n: nat)
    ensures n <= |text| && (|text| > 0 ==> n > 0)
  {
    if |text| == 0 then 0 else if text[0] == '\n' then 1 else 1 + LineLength(text[1..])
  }

  /** fgets: at most a buffer full, and no further than the first newline. */
  function Fgets(text: string): (line: string)
    ensures |text| > 0 ==> 0 < |line| <= |text|
    ensures line <= text
  {
    text[..Min(LineLength(text), LINE_MAX - 1)]
  }

  lemma {:induction false} LineLengthIs(body: string, rest: string)
    requires forall i :: 0 <= i < |body| ==> body[i] != '\n'
    ensures LineLength(body + "\n" + rest) == |body| + 1
  {
    var text := body + "\n" + rest;
    if |body| == 0 {
    } else {
      assert text[1..] == body[1..] + "\n" + rest;
      LineLengthIs(body[1..], rest);
    }
  }

  /** fgets returns the first line when it is short enough. */
  lemma FgetsLine(body: string, rest: string)
    requires (forall i :: 0 <= i < |body| ==> body[i] != '\n') && |body| + 1 < LINE_MAX
    ensures Fgets(body + "\n" + rest) == body + "\n"
    ensures (body + "\n" + rest)[|body + "\n"|..] == rest
  {
    LineLengthIs(body, rest);
  }
}
