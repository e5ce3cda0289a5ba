/**
 The permission tests of service/operations.c compare a mode with octal ranges. What they mean:
 the digit of the mode that is the caller's has bit 4 for reading, bit 2 for writing.
 */
module Permissions {
  import opened Namespace

  /** The octal digit of a mode that applies to the caller. */
  function Digit(uid: nat, gid: nat, owner: nat, group: nat, mode: nat): nat {
    if uid == owner then mode / 64 % 8
    else if gid == group then mode / 8 % 8
    else mode % 8
  }

  predicate DigitAllows(digit: nat, write: bool) {
    if write then digit / 2 % 2 == 1 else digit / 4 % 2 == 1
  }

  /** The caller's digit decides. No mode below zero allows anything, and a mode above 0777 allows
      its owner everything. */
  predicate Allows(uid: nat, gid: nat, owner: nat, group: nat, mode: int, write: bool) {
    mode >= 0 && (DigitAllows(Digit(uid, gid, owner, group, mode), write) || (uid == owner && mode > 511))
  }

  /** The range tests are the bits of the digit, for every mode. */
  lemma RangesAreBits(uid: nat, gid: nat, owner: nat, group: nat, mode: int)
    ensures !LacksRead(uid, gid, owner, group, mode) <==> Allows(uid, gid, owner, group, mode, false)
    ensures !LacksWrite(uid, gid, owner, group, mode) <==> Allows(uid, gid, owner, group, mode, true)
  {
    if mode >= 0 {
      LowDigits(mode);
      Ranges64(mode % 64);
      if mode < 512 { OwnerRanges(mode); }
    }
  }

  lemma LowDigits(mode: nat)
    ensures CMod(mode, 64) == mode % 64 && CMod(mode, 8) == mode % 64 % 8
    ensures mode % 8 == mode % 64 % 8 && mode / 8 % 8 == mode % 64 / 8
  {
    var q, r := mode / 64, mode % 64;
    assert mode == 8 * (8 * q + r / 8) + r % 8;
  }

  lemma OwnerRanges(mode: nat)
    requires mode < 512
    ensures mode < 256 <==> !DigitAllows(mode / 64 % 8, false)
    ensures mode < 128 || 256 <= mode < 384 <==> !DigitAllows(mode / 64 % 8, true)
  {
  }

  lemma Ranges64(m: nat)
    requires m < 64
    ensures m < 32 <==> !DigitAllows(m / 8, false)
    ensures m < 16 || 32 <= m < 48 <==> !DigitAllows(m / 8, true)
    ensures m % 8 < 4 <==> !DigitAllows(m % 8, false)
    ensures m % 8 < 2 || 4 <= m % 8 < 6 <==> !DigitAllows(m % 8, true)
  {
  }

  /** For the modes that users write, 0 to 0777, nothing but the digit decides. */
  lemma PlainModes(uid: nat, gid: nat, owner: nat, group: nat, mode: nat)
    requires mode <= 511
    ensures !LacksRead(uid, gid, owner, group, mode)
            <==> (if uid == owner then mode / 64 / 4 % 2 == 1
                  else if gid == group then mode / 8 % 8 / 4 % 2 == 1
                  else mode % 8 / 4 % 2 == 1)
    ensures !LacksWrite(uid, gid, owner, group, mode)
            <==> (if uid == owner then mode / 64 / 2 % 2 == 1
                  else if gid == group then mode / 8 % 8 / 2 % 2 == 1
                  else mode % 8 / 2 % 2 == 1)
  {
    RangesAreBits(uid, gid, owner, group, mode);
    assert mode / 64 % 8 == mode / 64;
  }
}
