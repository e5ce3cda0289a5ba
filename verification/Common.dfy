/** Constants and small types shared by the service and the client library (common.h). */
module Common {

  const BLOCK_SIZE: nat := 4096       // DATA_BLOCK_ALLOC_SIZE
  const NUM_BLOCKS: nat := 1000       // NUM_OF_DATA_BLOCKS
  const MAX_SLOTS: nat := 100         // FILE_MAX_BLOCKS
  const U32: int := 0x1_0000_0000     // number of values of a C `unsigned`

  type Byte = x: int | 0 <= x < 256

  type Block = b: seq<Byte> | |b| == BLOCK_SIZE witness seq(BLOCK_SIZE, _ => 0)

  datatype Option<+T> = None | Some(value: T)

  datatype Status = Success | Failure | FilenameTaken | FileNotFound | InsufficientPerms | DoubleWrite

  /** Integer division rounded up, as the C code spells it: a / b + (a % b != 0). */
  function CeilDiv(a: nat, b: nat): (r: nat)
    requires b > 0
    ensures (r - 1) * b < a <= r * b || a == r == 0
  {
    a / b + (if a % b != 0 then 1 else 0)
  }

  lemma DivBlock(off: nat, k: nat)
    ensures off == off / BLOCK_SIZE * BLOCK_SIZE + off % BLOCK_SIZE
    ensures off <= k * BLOCK_SIZE ==> off / BLOCK_SIZE <= k
    ensures off < k * BLOCK_SIZE <==> off / BLOCK_SIZE < k
    ensures off <= k * BLOCK_SIZE && off / BLOCK_SIZE == k ==> off == k * BLOCK_SIZE
  {
  }

  function Min(a: int, b: int): int {
    if a < b then a else b
  }

  lemma SubsetSize(a: set<nat>, b: set<nat>)
    requires a <= b
    ensures |a| <= |b| && (|a| == |b| ==> a == b)
  {
    assert b == a + (b - a);
    assert |b| == |a| + |b - a|;
  }
}
