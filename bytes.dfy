/** Bytes, optional values and results, and the few Python sequence operations
    the tag code relies on (slicing, indexing, zero padding, UTF-8 encoding),
    written out with Python's semantics. */
module Bytes {

  /** A value of a Python `bytes` object or of a list the driver returns. */
  type Byte = b: int | 0 <= b < 256

  /** Size of one Mifare Classic block. */
  const BLOCK_SIZE: nat := 16

  datatype Option<+T> = None | Some(value: T) {
    function GetOr(default: T): T {
      match this
      case Some(v) => v
      case None => default
    }
  }

  /** An outcome of a Python call: a value, or the exception it raises. */
  datatype Result<+T, +E> = Ok(value: T) | Err(error: E)

  /** `b'\x00' * n` */
  function Zeros(n: nat): (z: seq<Byte>)
    ensures |z| == n
  {
    if n == 0 then [] else Zeros(n - 1) + [0]
  }

  lemma {:induction false} ZerosAt(n: nat)
    ensures forall i :: 0 <= i < n ==> Zeros(n)[i] == 0
  {
    if n > 0 {
      ZerosAt(n - 1);
    }
  }

  /** `data += b'\x00' * (16 - len(data))`, reached only when `len(data) <= 16`:
      the data stays the prefix and the block is filled up with zeros. */
  function PadBlock(data: seq<Byte>): (b: seq<Byte>)
    requires |data| <= BLOCK_SIZE
    ensures |b| == BLOCK_SIZE
  {
    data + Zeros(BLOCK_SIZE - |data|)
  }

  /** The padded block starts with the data and is zeros after it. */
  lemma PadBlockContents(data: seq<Byte>)
    requires |data| <= BLOCK_SIZE
    ensures PadBlock(data)[..|data|] == data
    ensures forall i :: |data| <= i < BLOCK_SIZE ==> PadBlock(data)[i] == 0
  {
    ZerosAt(BLOCK_SIZE - |data|);
  }

  lemma PadFullBlock(data: seq<Byte>)
    requires |data| == BLOCK_SIZE
    ensures PadBlock(data) == data
  {
  }

  /** Where a Python slice bound `i` falls in a sequence of length `n`
      (negative bounds count from the end, bounds are clamped). */
  function SliceBound(i: int, n: nat): (k: nat)
    ensures k <= n
    ensures 0 <= i <= n ==> k == i
    ensures i < 0 && n + i >= 0 ==> k == n + i
    ensures i > n ==> k == n
    ensures i < 0 && n + i < 0 ==> k == 0
  {
    if i < 0 then (if n + i < 0 then 0 else n + i)
    else if i > n then n
    else i
  }

  /** Python's `s[lo:hi]`. */
  function Slice<T>(s: seq<T>, lo: int, hi: int): (r: seq<T>)
    ensures |r| <= |s|
    ensures lo <= hi ==> |r| <= hi - lo
  {
    var a := SliceBound(lo, |s|);
    var b := SliceBound(hi, |s|);
    if a <= b then s[a..b] else []
  }

  /** On non-negative bounds a Python slice is the Dafny slice clamped to the end. */
  lemma SliceNonNegative<T>(s: seq<T>, lo: int, hi: int)
    requires 0 <= lo <= hi
    ensures Slice(s, lo, hi) == s[Min(lo, |s|)..Min(hi, |s|)]
    ensures |Slice(s, lo, hi)| <= hi - lo
  {
  }

  function Min(a: int, b: int): int {
    if a <= b then a else b
  }

  /** Python's `s[i]`; `None` stands for the IndexError it raises. */
  function At<T>(s: seq<T>, i: int): (r: Option<T>)
    ensures r.Some? <==> -|s| <= i < |s|
    ensures 0 <= i < |s| ==> r == Some(s[i])
  {
    if 0 <= i < |s| then Some(s[i])
    else if -|s| <= i < 0 then Some(s[|s| + i])
    else None
  }

  /** Python's `str.encode('utf-8')` for one Unicode scalar value. */
  function Utf8Char(c: char): (r: seq<Byte>)
    ensures 1 <= |r| <= 4
    ensures |r| == 1 <==> (c as int) < 0x80
    ensures |r| == 1 ==> r[0] == c as int
  {
    var n := c as int;
    if n < 0x80 then [n]
    else if n < 0x800 then [0xC0 + Bits(n, 6, 5), 0x80 + Bits(n, 0, 6)]
    else if n < 0x1_0000 then [0xE0 + Bits(n, 12, 4), 0x80 + Bits(n, 6, 6), 0x80 + Bits(n, 0, 6)]
    else [0xF0 + Bits(n, 18, 3), 0x80 + Bits(n, 12, 6), 0x80 + Bits(n, 6, 6), 0x80 + Bits(n, 0, 6)]
  }

  /** `(n >> shift) & ((1 << width) - 1)`: `width` bits of `n`, from bit `shift` on. */
  function Bits(n: nat, shift: nat, width: nat): (b: nat)
    ensures b < Pow2(width)
  {
    (n / Pow2(shift)) % Pow2(width)
  }

  function Pow2(k: nat): (p: nat)
    ensures p >= 1
  {
    if k == 0 then 1 else 2 * Pow2(k - 1)
  }

  /** Python's `str.encode('utf-8')`. */
  function Utf8(s: string): (r: seq<Byte>)
    ensures |r| >= |s|
  {
    if s == [] then [] else Utf8Char(s[0]) + Utf8(s[1..])
  }

  /** A string of ASCII characters encodes to one byte per character, its code. */
  lemma {:induction false} Utf8Ascii(s: string)
    requires forall i :: 0 <= i < |s| ==> (s[i] as int) < 0x80
    ensures |Utf8(s)| == |s|
    ensures forall i :: 0 <= i < |s| ==> Utf8(s)[i] == s[i] as int
  {
    if s != [] {
      Utf8Ascii(s[1..]);
      assert Utf8(s) == [s[0] as int] + Utf8(s[1..]);
    }
  }
}
