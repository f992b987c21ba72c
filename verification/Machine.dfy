/** Machine words as bounded mathematical integers, and their big-endian bytes.
    Every place where the program's arithmetic can wrap says so explicitly. */
module Machine {

  const TWO31: int := 0x8000_0000
  const TWO32: int := 0x1_0000_0000
  const TWO62: int := 0x4000_0000_0000_0000
  const TWO63: int := 0x8000_0000_0000_0000
  const TWO64: int := 0x1_0000_0000_0000_0000

  type byte = b: int | 0 <= b < 0x100
  type uint32 = v: int | 0 <= v < 0x1_0000_0000
  type uint64 = v: int | 0 <= v < 0x1_0000_0000_0000_0000
  type int32 = v: int | -0x8000_0000 <= v < 0x8000_0000
  type int64 = v: int | -0x8000_0000_0000_0000 <= v < 0x8000_0000_0000_0000

  datatype Option<+T> = None | Some(value: T)

  datatype Result<+T, +E> = Ok(value: T) | Err(error: E)

  function Min(a: int, b: int): (r: int)
    ensures r <= a && r <= b && (r == a || r == b)
  {
    if a <= b then a else b
  }

  lemma ModAdd(a: nat, b: nat)
    ensures (a % TWO32 + b) % TWO32 == (a + b) % TWO32
  {}

  /** What a writer with this much room takes of p. */
  function Fits<T>(p: seq<T>, room: nat): (q: seq<T>)
    ensures |q| == Min(|p|, room) && q <= p
  {
    p[..Min(|p|, room)]
  }

  function Pow2(k: nat): (p: nat)
    ensures p >= 1
  {
    if k == 0 then 1 else 2 * Pow2(k - 1)
  }

  /** Two's complement reading of the low 64 bits. */
  function Wrap64(x: int): (r: int64)
    ensures -TWO63 <= x < TWO63 ==> r == x
    ensures TWO63 <= x < TWO64 ==> r == x - TWO64
  {
    var u := x % TWO64;
    if u < TWO63 then u else u - TWO64
  }

  function ToInt32(u: uint32): int32 { if u < TWO31 then u else u - TWO32 }

  function FromInt32(v: int32): (u: uint32)
    ensures ToInt32(u) == v
  {
    if v < 0 then v + TWO32 else v
  }

  function ToInt64(u: uint64): int64 { if u < TWO63 then u else u - TWO64 }

  function FromInt64(v: int64): (u: uint64)
    ensures ToInt64(u) == v
  {
    if v < 0 then v + TWO64 else v
  }

  function FromBE32(b: seq<byte>): uint32
    requires |b| == 4
  {
    var b0: int, b1: int, b2: int, b3: int := b[0], b[1], b[2], b[3];
    ((b0 * 0x100 + b1) * 0x100 + b2) * 0x100 + b3
  }

  function BE32(v: uint32): (b: seq<byte>)
    ensures |b| == 4 && FromBE32(b) == v
  {
    var hi3: int := v / 0x100;
    var hi2: int := hi3 / 0x100;
    [hi2 / 0x100, hi2 % 0x100, hi3 % 0x100, v % 0x100]
  }

  lemma BE32Unique(b: seq<byte>)
    requires |b| == 4
    ensures BE32(FromBE32(b)) == b
  {
    var b0: int, b1: int, b2: int := b[0], b[1], b[2];
    assert FromBE32(b) / 0x100 == (b0 * 0x100 + b1) * 0x100 + b2;
    assert ((b0 * 0x100 + b1) * 0x100 + b2) / 0x100 == b0 * 0x100 + b1;
  }

  function FromBE64(b: seq<byte>): uint64
    requires |b| == 8
  {
    FromBE32(b[..4]) * TWO32 + FromBE32(b[4..])
  }

  function BE64(v: uint64): (b: seq<byte>)
    ensures |b| == 8 && FromBE64(b) == v
  {
    var hi, lo := BE32(v / TWO32), BE32(v % TWO32);
    assert (hi + lo)[..4] == hi && (hi + lo)[4..] == lo;
    hi + lo
  }
}
