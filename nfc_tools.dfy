/** The tag layer of nfc_tools.py: authentication keys, the data-block layout
    of a Mifare Classic 1K card, and the block and multi-block operations of
    `NFCTag`, over the abstract block store. */
module NfcTools {
  import opened Bytes
  import opened BlockStore

  // ---------------------------------------------------------------- keys

  /** A key for Mifare Classic authentication: six bytes and a mode. */
  datatype Key = Key(key: seq<int>, mode: int)

  /** The ValueErrors `Key.__init__` raises. */
  datatype KeyError =
    | KeyLength   // "Key must be 6 bytes long"
    | KeyMode     // "Mode must be Key.A or Key.B"

  predicate IsKeyBytes(key: seq<int>) {
    |key| == 6 && forall i :: 0 <= i < |key| ==> 0 <= key[i] <= 255
  }

  /** What every constructed key satisfies. */
  predicate ValidKey(k: Key) {
    IsKeyBytes(k.key) && (k.mode == AUTHENT1A || k.mode == AUTHENT1B)
  }

  /** `Key(key, mode)`: the bytes are checked before the mode. */
  function NewKey(key: seq<int>, mode: int): (r: Result<Key, KeyError>)
    ensures r.Ok? <==> IsKeyBytes(key) && (mode == AUTHENT1A || mode == AUTHENT1B)
    ensures r.Ok? ==> r.value == Key(key, mode) && ValidKey(r.value)
    ensures r == Err(KeyLength) <==> !IsKeyBytes(key)
    ensures r == Err(KeyMode) <==> IsKeyBytes(key) && mode != AUTHENT1A && mode != AUTHENT1B
  {
    if !IsKeyBytes(key) then Err(KeyLength)
    else if mode != AUTHENT1A && mode != AUTHENT1B then Err(KeyMode)
    else Ok(Key(key, mode))
  }

  /** Construction accepts exactly the valid keys and gives them back unchanged. */
  lemma NewKeyAcceptsValid(k: Key)
    ensures NewKey(k.key, k.mode) == Ok(k) <==> ValidKey(k)
  {
  }

  /** The factory key of a Mifare Classic card: six 0xFF bytes. */
  const FACTORY_KEY: seq<int> := [0xFF, 0xFF, 0xFF, 0xFF, 0xFF, 0xFF]

  /** `Key.default()`: the factory key, used as key A. */
  const DEFAULT_KEY: Key := Key(FACTORY_KEY, AUTHENT1A)

  /** `Key.default()` is built by the constructor, so it is a valid key. */
  lemma DefaultKeyConstructed()
    ensures NewKey(FACTORY_KEY, AUTHENT1A) == Ok(DEFAULT_KEY)
    ensures ValidKey(DEFAULT_KEY)
  {
  }

  // ---------------------------------------------------------------- layout

  /** `NFCTag.DATA_BLOCKS`: every block of the card except the manufacturer
      block 0 and the sector trailers (the fourth block of each sector), in
      increasing order. `DataBlocksListed` shows it is the list the source
      spells out sector by sector. */
  const DATA_BLOCKS: seq<int> := DataBlocks()

  function DataBlocks(): (s: seq<int>)
    ensures |s| == 47
  {
    seq(47, DataBlockAt)
  }

  /** The `i`-th data block: three to a sector, block 0 left out. */
  function DataBlockAt(i: int): int {
    4 * ((i + 1) / 3) + (i + 1) % 3
  }

  /** A block that is neither the manufacturer block nor a sector trailer. */
  predicate IsDataBlock(a: int) {
    0 < a < BLOCK_COUNT as int && a % 4 != 3
  }

  /** Where data block `a` sits in the list. */
  function DataBlockIndex(a: int): int {
    3 * (a / 4) + a % 4 - 1
  }

  /** The list as the source spells it out, sector by sector. */
  const LISTED_BLOCKS: seq<int> := [
    0x01, 0x02,
    0x04, 0x05, 0x06,
    0x08, 0x09, 0x0A,
    0x0C, 0x0D, 0x0E,
    0x10, 0x11, 0x12,
    0x14, 0x15, 0x16,
    0x18, 0x19, 0x1A,
    0x1C, 0x1D, 0x1E] + [
    0x20, 0x21, 0x22,
    0x24, 0x25, 0x26,
    0x28, 0x29, 0x2A,
    0x2C, 0x2D, 0x2E,
    0x30, 0x31, 0x32,
    0x34, 0x35, 0x36,
    0x38, 0x39, 0x3A,
    0x3C, 0x3D, 0x3E]

  /** The formula gives exactly the list the source spells out. */
  lemma DataBlocksListed()
    ensures DATA_BLOCKS == LISTED_BLOCKS
  {
    assert forall i :: 0 <= i < 47 ==> LISTED_BLOCKS[i] == DataBlockAt(i);
  }

  lemma {:induction false} DataBlockAtIncreasing(i: int, j: int)
    requires 0 <= i < j
    ensures DataBlockAt(i) < DataBlockAt(j)
    decreases j - i
  {
    if j > i + 1 {
      DataBlockAtIncreasing(i + 1, j);
      DataBlockAtIncreasing(i, i + 1);
    }
  }

  /** Every entry of the list is a data block. */
  lemma DataBlockEntry(i: int)
    requires 0 <= i < |DATA_BLOCKS|
    ensures IsDataBlock(DATA_BLOCKS[i])
  {
  }

  /** Every data block is in the list, at `DataBlockIndex`. */
  lemma DataBlockCovered(a: int)
    requires IsDataBlock(a)
    ensures 0 <= DataBlockIndex(a) < |DATA_BLOCKS| && DATA_BLOCKS[DataBlockIndex(a)] == a
  {
  }

  /** Block `a` is in `DATA_BLOCKS` exactly when it is a data block. */
  lemma DataBlockMember(a: int)
    ensures a in DATA_BLOCKS <==> IsDataBlock(a)
  {
    if IsDataBlock(a) {
      DataBlockCovered(a);
    }
    if a in DATA_BLOCKS {
      var i :| 0 <= i < |DATA_BLOCKS| && DATA_BLOCKS[i] == a;
      DataBlockEntry(i);
    }
  }

  lemma DataBlocksDistinct()
    ensures forall i, j :: 0 <= i < j < |DATA_BLOCKS| ==> DATA_BLOCKS[i] != DATA_BLOCKS[j]
  {
    forall i, j | 0 <= i < j < 47 ensures DATA_BLOCKS[i] != DATA_BLOCKS[j] {
      DataBlockAtIncreasing(i, j);
    }
  }

  /** The data blocks are 47 strictly increasing addresses, and they are exactly
      the blocks that are neither block 0 nor a sector trailer. */
  lemma DataBlocksLayout()
    ensures |DATA_BLOCKS| == 47
    ensures forall i, j :: 0 <= i < j < |DATA_BLOCKS| ==> DATA_BLOCKS[i] < DATA_BLOCKS[j]
    ensures forall a :: a in DATA_BLOCKS <==> IsDataBlock(a)
  {
    forall i, j | 0 <= i < j < 47 ensures DATA_BLOCKS[i] < DATA_BLOCKS[j] {
      DataBlockAtIncreasing(i, j);
    }
    forall a ensures a in DATA_BLOCKS <==> IsDataBlock(a) {
      DataBlockMember(a);
    }
  }

  // ---------------------------------------------------------------- errors and inputs

  /** The exceptions the tag operations raise. */
  datatype TagError =
    | WriteCancelled    // `_write_block` without `force` on a block outside DATA_BLOCKS
    | BlockTooLong      // "Must be 16 bytes!"
    | InvalidStartpos   // "Invalid startpos!"
    | DataNotBytes      // "Data must be a string or bytes!"
    | DataTooLong       // "Data too long! ..."
    | IndexError        // `DATA_BLOCKS[i]` with `i` outside the list
    | ConcatTypeError   // `bytes + list` in `_override_block` as written

  /** What `data_write` may be given: a `str`, a `bytes` object, or any other value. */
  datatype Payload = Text(text: string) | Raw(bytes: seq<Byte>) | Unsupported

  /** The credentials `_authenticate_block` passes to the driver: a missing key
      stands for `Key.default()`. */
  function Creds(key: Option<Key>, uid: seq<Byte>): Credentials {
    var k := key.GetOr(DEFAULT_KEY);
    Credentials(k.mode, k.key, uid)
  }

  // ---------------------------------------------------------------- single blocks

  /** `_write_block`: refuse a block outside `DATA_BLOCKS` unless forced (the
      list holds exactly the blocks `IsDataBlock` names, `DataBlockMember`),
      refuse more than 16 bytes, zero-pad, then authenticate and write. */
  function WriteOutcome(rdr: Reader, m: Memory, addr: int, data: seq<Byte>, c: Credentials, force: bool)
    : (Result<bool, TagError>, Memory)
  {
    if !force && !IsDataBlock(addr) then (Err(WriteCancelled), m)
    else if |data| > BLOCK_SIZE then (Err(BlockTooLong), m)
    else
      var (ok, m') := StoreOutcome(rdr, m, addr, PadBlock(data), c);
      (Ok(ok), m')
  }

  /** What `_write_block` does to the card: it raises exactly for a guarded or
      an overlong block, and then changes nothing; it reports success exactly
      when authentication and the write get through, and only then does the
      block change, to the data followed by zeros; no other block ever changes. */
  lemma WriteBlockEffect(rdr: Reader, m: Memory, addr: int, data: seq<Byte>, c: Credentials, force: bool)
    ensures var (r, m') := WriteOutcome(rdr, m, addr, data, c, force);
            && (r.Err? <==> (!force && addr !in DATA_BLOCKS) || |data| > BLOCK_SIZE)
            && (!force && addr !in DATA_BLOCKS ==> r == Err(WriteCancelled))
            && (r == Ok(true) <==> (force || addr in DATA_BLOCKS) && |data| <= BLOCK_SIZE && StoreOk(rdr, |m|, addr, c))
            && |m'| == |m|
            && (forall a :: 0 <= a < |m| && a != addr ==> m'[a] == m[a])
            && (r != Ok(true) ==> m' == m)
            && (r == Ok(true) ==> |m'[addr]| == BLOCK_SIZE && m'[addr][..|data|] == data
                                  && forall i :: |data| <= i < BLOCK_SIZE ==> m'[addr][i] == 0)
  {
    DataBlockMember(addr);
    if |data| <= BLOCK_SIZE {
      PadBlockContents(data);
    }
  }

  /** `_override_block` as its text reads: when the old block cannot be read the
      fallback `b'\x00' * 16` is a `bytes` object, and `bytes + list` raises. */
  function OverrideAsWritten(rdr: Reader, m: Memory, addr: int, data: seq<Byte>, pos: int, c: Credentials, force: bool)
    : (Result<bool, TagError>, Memory)
  {
    if |data| + pos > BLOCK_SIZE then (Err(BlockTooLong), m)
    else match ReadOutcome(rdr, m, addr, c)
      case None => (Err(ConcatTypeError), m)
      case Some(prior) => WriteOutcome(rdr, m, addr, Splice(prior, data, pos), c, force)
  }

  /** `_override_block` as intended: an unreadable old block counts as sixteen
      zero bytes. */
  function OverrideOutcome(rdr: Reader, m: Memory, addr: int, data: seq<Byte>, pos: int, c: Credentials, force: bool)
    : (Result<bool, TagError>, Memory)
  {
    if |data| + pos > BLOCK_SIZE then (Err(BlockTooLong), m)
    else
      var prior := ReadOutcome(rdr, m, addr, c).GetOr(Zeros(BLOCK_SIZE));
      WriteOutcome(rdr, m, addr, Splice(prior, data, pos), c, force)
  }

  /** The override rejects data that does not fit before reading; when it fits
      at a non-negative position, the block written is the old block (or zeros)
      with exactly [pos, pos + len) replaced by the data. */
  lemma OverrideEffect(rdr: Reader, m: Memory, addr: int, data: seq<Byte>, pos: int, c: Credentials, force: bool)
    requires 0 <= pos
    ensures var (r, m') := OverrideOutcome(rdr, m, addr, data, pos, c, force);
            var prior := ReadOutcome(rdr, m, addr, c).GetOr(Zeros(BLOCK_SIZE));
            && (|data| + pos > BLOCK_SIZE ==> r == Err(BlockTooLong) && m' == m)
            && (|data| + pos <= BLOCK_SIZE ==>
                  && (r == Ok(true) <==> (force || addr in DATA_BLOCKS) && StoreOk(rdr, |m|, addr, c))
                  && (r != Ok(true) ==> m' == m)
                  && (r == Ok(true) ==>
                        && m' == m[addr := m'[addr]]
                        && |m'[addr]| == BLOCK_SIZE
                        && m'[addr][pos..pos + |data|] == data
                        && forall i :: 0 <= i < BLOCK_SIZE && !(pos <= i < pos + |data|) ==> m'[addr][i] == prior[i]))
  {
    DataBlockMember(addr);
    if |data| + pos <= BLOCK_SIZE {
      var prior := ReadOutcome(rdr, m, addr, c).GetOr(Zeros(BLOCK_SIZE));
      SpliceAt(prior, data, pos);
      PadFullBlock(Splice(prior, data, pos));
    }
  }

  /** The source as written fails where the intended override succeeds: for a
      fitting splice into a block that cannot be read but can be written, the
      text raises TypeError while the intended behaviour writes the data over
      zeros. */
  lemma OverrideAsWrittenRaises(rdr: Reader, m: Memory, addr: int, data: seq<Byte>, pos: int, c: Credentials, force: bool)
    requires 0 <= pos && |data| + pos <= BLOCK_SIZE
    requires ReadOutcome(rdr, m, addr, c).None?
    requires (force || addr in DATA_BLOCKS) && StoreOk(rdr, |m|, addr, c)
    ensures OverrideAsWritten(rdr, m, addr, data, pos, c, force) == (Err(ConcatTypeError), m)
    ensures OverrideOutcome(rdr, m, addr, data, pos, c, force) == (Ok(true), m[addr := Splice(Zeros(BLOCK_SIZE), data, pos)])
  {
    DataBlockMember(addr);
    SpliceAt(Zeros(BLOCK_SIZE), data, pos);
    PadFullBlock(Splice(Zeros(BLOCK_SIZE), data, pos));
  }

  // ---------------------------------------------------------------- data blocks

  /** `math.ceil(n / 16)`: the fewest blocks that hold `n` bytes. */
  function BlocksRequired(n: nat): (k: nat)
    ensures 16 * k >= n
    ensures k > 0 ==> 16 * (k - 1) < n
  {
    (n + 15) / 16
  }

  /** The checks at the head of `data_write`: a `str` is encoded as UTF-8 and,
      through the `elif` chain, its `startpos` is not checked; a `bytes` payload
      needs a `startpos` inside the list; any other value is refused; then the
      encoded bytes must fit into the data blocks from `startpos` on. */
  function DataWriteChecks(data: Payload, startpos: int): Result<seq<Byte>, TagError> {
    var encoded: Result<seq<Byte>, TagError> :=
      match data
      case Text(s) => Ok(Utf8(s))
      case Raw(b) => if startpos < 0 || startpos > |DATA_BLOCKS| - 1 then Err(InvalidStartpos) else Ok(b)
      case Unsupported => Err(DataNotBytes);
    match encoded
    case Err(e) => Err(e)
    case Ok(bytes) =>
      if BlocksRequired(|bytes|) > |DATA_BLOCKS| - startpos then Err(DataTooLong) else Ok(bytes)
  }

  /** What the checks decide: any other value is refused; `bytes` with a
      `startpos` outside the list is refused; otherwise the payload is
      accepted exactly when it fits into the 16-byte blocks from `startpos`
      to the end of the list, and is refused as too long when it does not. */
  lemma DataWriteChecksCases(data: Payload, startpos: int)
    ensures var r := DataWriteChecks(data, startpos);
            && (data.Unsupported? ==> r == Err(DataNotBytes))
            && (data.Raw? && (startpos < 0 || startpos >= |DATA_BLOCKS|) ==> r == Err(InvalidStartpos))
            && (data.Raw? && 0 <= startpos < |DATA_BLOCKS| ==>
                  r == (if |data.bytes| <= 16 * (|DATA_BLOCKS| - startpos) then Ok(data.bytes) else Err(DataTooLong)))
            && (data.Text? ==>
                  r == (if |Utf8(data.text)| <= 16 * (|DATA_BLOCKS| - startpos) then Ok(Utf8(data.text)) else Err(DataTooLong)))
  {
  }

  /** `data[i*16:(i+1)*16]`: the bytes that go to the `i`-th data block. For a
      negative `i` the bounds count from the end, as Python's do. */
  function Chunk(bytes: seq<Byte>, i: int): (r: seq<Byte>)
    ensures |r| <= BLOCK_SIZE
  {
    if 0 <= i then bytes[Min(16 * i, |bytes|)..Min(16 * i + 16, |bytes|)]
    else
      assert (i + 1) * 16 - i * 16 == 16;
      Slice(bytes, i * 16, (i + 1) * 16)
  }

  /** `Chunk` is the Python slice. */
  lemma ChunkIsSlice(bytes: seq<Byte>, i: int)
    ensures Chunk(bytes, i) == Slice(bytes, i * 16, (i + 1) * 16)
  {
    if 0 <= i {
      SliceNonNegative(bytes, i * 16, (i + 1) * 16);
    }
  }

  /** The loop of `data_write` from index `i` to `hi`: block `DATA_BLOCKS[i]`
      receives `data[i*16:(i+1)*16]`, and the loop stops at the first write that
      does not succeed. */
  function ChunkLoop(rdr: Reader, m: Memory, bytes: seq<Byte>, i: int, hi: int, c: Credentials)
    : (r: (Result<bool, TagError>, Memory))
    ensures |r.1| == |m|
    decreases hi - i, 1
  {
    if i >= hi then (Ok(true), m) else ChunkTurn(rdr, m, bytes, i, hi, c)
  }

  /** The turn of that loop for index `i < hi` and what follows it. */
  function ChunkTurn(rdr: Reader, m: Memory, bytes: seq<Byte>, i: int, hi: int, c: Credentials)
    : (r: (Result<bool, TagError>, Memory))
    requires i < hi
    ensures |r.1| == |m|
    decreases hi - i, 0
  {
    var step := ChunkStep(rdr, m, bytes, i, c);
    if step.0 != Ok(true) then step else ChunkLoop(rdr, step.1, bytes, i + 1, hi, c)
  }

  /** A turn of the loop either ends it with its outcome or leaves the rest
      of the loop to run on the new memory. */
  lemma ChunkLoopTurn(rdr: Reader, m: Memory, bytes: seq<Byte>, i: int, hi: int, c: Credentials)
    requires i < hi
    ensures var step := ChunkStep(rdr, m, bytes, i, c);
            ChunkLoop(rdr, m, bytes, i, hi, c) == if step.0 != Ok(true) then step else ChunkLoop(rdr, step.1, bytes, i + 1, hi, c)
  {
  }

  /** One turn of that loop: `self._write_block(self.DATA_BLOCKS[i], data[i*16:(i+1)*16], key)`,
      where an index outside the list raises IndexError. */
  function ChunkStep(rdr: Reader, m: Memory, bytes: seq<Byte>, i: int, c: Credentials)
    : (Result<bool, TagError>, Memory)
  {
    match At(DATA_BLOCKS, i)
    case None => (Err(IndexError), m)
    case Some(addr) => WriteOutcome(rdr, m, addr, Chunk(bytes, i), c, false)
  }

  /** `data_write(data, startpos, key)` */
  function DataWriteOutcome(rdr: Reader, m: Memory, data: Payload, startpos: int, c: Credentials)
    : (Result<bool, TagError>, Memory)
  {
    DataWriteAfterChecks(rdr, m, DataWriteChecks(data, startpos), startpos, c)
  }

  /** The rest of `data_write` once the checks are done: a refused payload
      raises before anything is written, an accepted one goes through the loop
      over `BlocksRequired` blocks from `startpos` on. */
  function DataWriteAfterChecks(rdr: Reader, m: Memory, checked: Result<seq<Byte>, TagError>, startpos: int, c: Credentials)
    : (Result<bool, TagError>, Memory)
  {
    match checked
    case Err(e) => (Err(e), m)
    case Ok(bytes) => ChunkLoop(rdr, m, bytes, startpos, startpos + BlocksRequired(|bytes|), c)
  }

  /** An accepted payload goes through the loop. */
  lemma AcceptedIsChunkLoop(rdr: Reader, m: Memory, bytes: seq<Byte>, startpos: int, c: Credentials)
    ensures DataWriteAfterChecks(rdr, m, Ok(bytes), startpos, c)
            == ChunkLoop(rdr, m, bytes, startpos, startpos + BlocksRequired(|bytes|), c)
  {
  }

  /** The writes the loop of `data_write` plans for indices `i` to `hi`. */
  function ChunkPlan(bytes: seq<Byte>, i: int, hi: int): (p: Plan)
    requires 0 <= i <= hi <= |DATA_BLOCKS|
    ensures |p| == hi - i
  {
    seq(hi - i, j requires 0 <= j < hi - i => (DATA_BLOCKS[i + j], PadBlock(Chunk(bytes, i + j))))
  }

  /** Inside the list of data blocks the loop of `data_write` is the plain
      sequence of its planned writes. */
  lemma {:induction false} ChunkLoopIsStoreAll(rdr: Reader, m: Memory, bytes: seq<Byte>, i: int, hi: int, c: Credentials)
    requires 0 <= i <= hi <= |DATA_BLOCKS|
    ensures ChunkLoop(rdr, m, bytes, i, hi, c)
         == (Ok(StoreAll(rdr, m, ChunkPlan(bytes, i, hi), c).0), StoreAll(rdr, m, ChunkPlan(bytes, i, hi), c).1)
    decreases hi - i
  {
    if i < hi {
      ChunkLoopTurn(rdr, m, bytes, i, hi, c);
      var plan := ChunkPlan(bytes, i, hi);
      DataBlockEntry(i);
      var store := StoreOutcome(rdr, m, DATA_BLOCKS[i], PadBlock(Chunk(bytes, i)), c);
      assert ChunkStep(rdr, m, bytes, i, c) == (Ok(store.0), store.1);
      assert plan[0] == (DATA_BLOCKS[i], PadBlock(Chunk(bytes, i)));
      assert plan[1..] == ChunkPlan(bytes, i + 1, hi);
      if store.0 {
        ChunkLoopIsStoreAll(rdr, store.1, bytes, i + 1, hi, c);
      }
    }
  }

  /** The chunk loop itself never raises DataTooLong: that error comes only
      from the checks. */
  lemma {:induction false} ChunkLoopNeverTooLong(rdr: Reader, m: Memory, bytes: seq<Byte>, i: int, hi: int, c: Credentials)
    ensures ChunkLoop(rdr, m, bytes, i, hi, c).0 != Err(DataTooLong)
    decreases hi - i
  {
    if i < hi {
      ChunkLoopTurn(rdr, m, bytes, i, hi, c);
    }
    if i < hi && At(DATA_BLOCKS, i).Some? {
      var (r, m1) := WriteOutcome(rdr, m, At(DATA_BLOCKS, i).value, Chunk(bytes, i), c, false);
      if r == Ok(true) {
        ChunkLoopNeverTooLong(rdr, m1, bytes, i + 1, hi, c);
      }
    }
  }

  /** `data_write` raises DataTooLong exactly when the accepted payload does not
      fit into the data blocks from `startpos` on, and then writes nothing. */
  lemma DataWriteTooLong(rdr: Reader, m: Memory, data: Payload, startpos: int, c: Credentials)
    ensures DataWriteOutcome(rdr, m, data, startpos, c).0 == Err(DataTooLong)
        <==> DataWriteChecks(data, startpos) == Err(DataTooLong)
    ensures DataWriteChecks(data, startpos).Err? ==> DataWriteOutcome(rdr, m, data, startpos, c).1 == m
  {
    AfterChecksTooLong(rdr, m, DataWriteChecks(data, startpos), startpos, c);
  }

  /** Past the checks only a refused payload raises, with the error of the
      checks, and the loop never raises DataTooLong. */
  lemma AfterChecksTooLong(rdr: Reader, m: Memory, checked: Result<seq<Byte>, TagError>, startpos: int, c: Credentials)
    ensures DataWriteAfterChecks(rdr, m, checked, startpos, c).0 == Err(DataTooLong) <==> checked == Err(DataTooLong)
    ensures checked.Err? ==> DataWriteAfterChecks(rdr, m, checked, startpos, c).1 == m
  {
    if checked.Ok? {
      ChunkLoopNeverTooLong(rdr, m, checked.value, startpos, startpos + BlocksRequired(|checked.value|), c);
    }
  }

  /** The planned writes of the loop of `data_write` over indices `lo` to
      `hi` get through exactly up to the first data block that refuses its write. */
  lemma ChunkPlanStops(rdr: Reader, m: Memory, bytes: seq<Byte>, lo: int, hi: int, c: Credentials)
    requires 0 <= lo <= hi <= |DATA_BLOCKS|
    ensures var k := FirstRejected(rdr, |m|, ChunkPlan(bytes, lo, hi), c);
            && lo + k <= hi
            && (StoreAll(rdr, m, ChunkPlan(bytes, lo, hi), c).0 <==> lo + k == hi)
            && (forall j :: lo <= j < lo + k ==> StoreOk(rdr, |m|, DATA_BLOCKS[j], c))
            && (lo + k < hi ==> !StoreOk(rdr, |m|, DATA_BLOCKS[lo + k], c))
  {
    var plan := ChunkPlan(bytes, lo, hi);
    var k := FirstRejected(rdr, |m|, plan, c);
    StoreAllSucceeds(rdr, m, plan, c);
    FirstRejectedAccepts(rdr, |m|, plan, c);
    forall j | lo <= j < lo + k ensures StoreOk(rdr, |m|, DATA_BLOCKS[j], c) {
      assert plan[j - lo].0 == DATA_BLOCKS[j];
    }
    if lo + k < hi {
      assert plan[k].0 == DATA_BLOCKS[lo + k];
    }
  }

  /** Every planned write that gets through leaves `data[16j:16j+16]`,
      zero-padded, in block `DATA_BLOCKS[j]`. */
  lemma ChunkPlanWrites(rdr: Reader, m: Memory, bytes: seq<Byte>, lo: int, hi: int, c: Credentials)
    requires 0 <= lo <= hi <= |DATA_BLOCKS|
    ensures var k := FirstRejected(rdr, |m|, ChunkPlan(bytes, lo, hi), c);
            var m' := StoreAll(rdr, m, ChunkPlan(bytes, lo, hi), c).1;
            forall j :: lo <= j < lo + k ==>
              0 <= DATA_BLOCKS[j] < |m| && m'[DATA_BLOCKS[j]] == PadBlock(Chunk(bytes, j))
  {
    var k := FirstRejected(rdr, |m|, ChunkPlan(bytes, lo, hi), c);
    forall j | lo <= j < lo + k
      ensures 0 <= DATA_BLOCKS[j] < |m| && StoreAll(rdr, m, ChunkPlan(bytes, lo, hi), c).1[DATA_BLOCKS[j]] == PadBlock(Chunk(bytes, j))
    {
      ChunkPlanWritten(rdr, m, bytes, lo, hi, c, j);
    }
  }

  lemma ChunkPlanWritten(rdr: Reader, m: Memory, bytes: seq<Byte>, lo: int, hi: int, c: Credentials, j: int)
    requires 0 <= lo <= hi <= |DATA_BLOCKS|
    requires lo <= j < lo + FirstRejected(rdr, |m|, ChunkPlan(bytes, lo, hi), c)
    ensures 0 <= DATA_BLOCKS[j] < |m| && StoreAll(rdr, m, ChunkPlan(bytes, lo, hi), c).1[DATA_BLOCKS[j]] == PadBlock(Chunk(bytes, j))
  {
    var plan := ChunkPlan(bytes, lo, hi);
    ChunkPlanDistinct(bytes, lo, hi);
    StoreAllWritten(rdr, m, plan, c, j - lo);
    assert plan[j - lo] == (DATA_BLOCKS[j], PadBlock(Chunk(bytes, j)));
  }

  /** The planned writes leave every block they did not reach as it was. */
  lemma ChunkPlanKeeps(rdr: Reader, m: Memory, bytes: seq<Byte>, lo: int, hi: int, c: Credentials)
    requires 0 <= lo <= hi <= |DATA_BLOCKS|
    ensures var k := FirstRejected(rdr, |m|, ChunkPlan(bytes, lo, hi), c);
            var m' := StoreAll(rdr, m, ChunkPlan(bytes, lo, hi), c).1;
            forall a :: 0 <= a < |m| && (forall j :: lo <= j < lo + k ==> DATA_BLOCKS[j] != a) ==> m'[a] == m[a]
  {
    var plan := ChunkPlan(bytes, lo, hi);
    var k := FirstRejected(rdr, |m|, plan, c);
    ChunkPlanDistinct(bytes, lo, hi);
    StoreAllEffect(rdr, m, plan, c);
  }

  /** The loop of `data_write` over indices `lo` to `hi` of the list writes, in
      order, block `DATA_BLOCKS[j]` := `data[16j:16j+16]` zero-padded for
      `j = lo, lo+1, ...`, stops at the first write that does not get through
      and returns True exactly when none failed; no other block changes. */
  lemma ChunkLoopLayout(rdr: Reader, m: Memory, bytes: seq<Byte>, lo: int, hi: int, c: Credentials)
    requires 0 <= lo <= hi <= |DATA_BLOCKS|
    ensures var k := FirstRejected(rdr, |m|, ChunkPlan(bytes, lo, hi), c);
            var o := ChunkLoop(rdr, m, bytes, lo, hi, c);
            && lo + k <= hi
            && |o.1| == |m|
            && o.0 == Ok(lo + k == hi)
            && (forall j :: lo <= j < lo + k ==> StoreOk(rdr, |m|, DATA_BLOCKS[j], c))
            && (lo + k < hi ==> !StoreOk(rdr, |m|, DATA_BLOCKS[lo + k], c))
            && (forall j :: lo <= j < lo + k ==>
                  0 <= DATA_BLOCKS[j] < |m| && o.1[DATA_BLOCKS[j]] == PadBlock(Chunk(bytes, j)))
            && (forall a :: 0 <= a < |m| && (forall j :: lo <= j < lo + k ==> DATA_BLOCKS[j] != a) ==> o.1[a] == m[a])
  {
    ChunkLoopIsStoreAll(rdr, m, bytes, lo, hi, c);
    ChunkPlanStops(rdr, m, bytes, lo, hi, c);
    ChunkPlanWrites(rdr, m, bytes, lo, hi, c);
    ChunkPlanKeeps(rdr, m, bytes, lo, hi, c);
  }

  /** `data_write` from `startpos = 0` of an accepted payload (a `str` or
      `bytes` that fits): block `DATA_BLOCKS[j]` receives `data[16j:16j+16]`,
      zero-padded, for `j = 0, 1, ...` in order, up to the first data block that
      refuses its write; the result is True exactly when all ceil(len/16)
      writes got through; every other block keeps its contents. */
  lemma DataWriteFromStart(rdr: Reader, m: Memory, data: Payload, c: Credentials)
    requires DataWriteChecks(data, 0).Ok?
    ensures var bytes := DataWriteChecks(data, 0).value;
            var n := BlocksRequired(|bytes|);
            var k := FirstRejected(rdr, |m|, ChunkPlan(bytes, 0, n), c);
            var o := DataWriteOutcome(rdr, m, data, 0, c);
            && k <= n <= |DATA_BLOCKS|
            && |o.1| == |m|
            && o.0 == Ok(k == n)
            && (forall j :: 0 <= j < k ==> StoreOk(rdr, |m|, DATA_BLOCKS[j], c))
            && (k < n ==> !StoreOk(rdr, |m|, DATA_BLOCKS[k], c))
            && (forall j :: 0 <= j < k ==>
                  16 * j < |bytes| && 0 <= DATA_BLOCKS[j] < |m| && o.1[DATA_BLOCKS[j]] == PadBlock(Chunk(bytes, j)))
            && (forall a :: 0 <= a < |m| && (forall j :: 0 <= j < k ==> DATA_BLOCKS[j] != a) ==> o.1[a] == m[a])
  {
    var bytes := DataWriteChecks(data, 0).value;
    var n := BlocksRequired(|bytes|);
    AcceptedFits(data, 0);
    DataWriteAccepted(rdr, m, data, 0, c);
    ChunkLoopLayout(rdr, m, bytes, 0, n, c);
    forall j | 0 <= j < n ensures 16 * j < |bytes| {
      ChunkInside(bytes, j);
    }
  }

  /** An accepted payload needs no more blocks than the list has from `startpos` on. */
  lemma AcceptedFits(data: Payload, startpos: int)
    requires DataWriteChecks(data, startpos).Ok?
    ensures BlocksRequired(|DataWriteChecks(data, startpos).value|) <= |DATA_BLOCKS| - startpos
  {
  }

  /** An accepted payload goes straight to the loop. */
  lemma DataWriteAccepted(rdr: Reader, m: Memory, data: Payload, startpos: int, c: Credentials)
    requires DataWriteChecks(data, startpos).Ok?
    ensures var bytes := DataWriteChecks(data, startpos).value;
            DataWriteOutcome(rdr, m, data, startpos, c)
            == ChunkLoop(rdr, m, bytes, startpos, startpos + BlocksRequired(|bytes|), c)
  {
    var checked := DataWriteChecks(data, startpos);
    assert checked == Ok(checked.value);
    AcceptedIsChunkLoop(rdr, m, checked.value, startpos, c);
  }

  /** Below `BlocksRequired` every chunk starts inside the payload. */
  lemma ChunkInside(bytes: seq<Byte>, j: int)
    requires 0 <= j < BlocksRequired(|bytes|)
    ensures 16 * j < |bytes|
  {
    var n := BlocksRequired(|bytes|);
    assert 16 * j <= 16 * (n - 1);
  }

  /** The data blocks are pairwise distinct, so a plan over them is too. */
  lemma ChunkPlanDistinct(bytes: seq<Byte>, i: int, hi: int)
    requires 0 <= i <= hi <= |DATA_BLOCKS|
    ensures DistinctTargets(ChunkPlan(bytes, i, hi))
  {
    DataBlocksDistinct();
    var p := ChunkPlan(bytes, i, hi);
    forall j, k | 0 <= j < k < |p| ensures p[j].0 != p[k].0 {
      assert p[j].0 == DATA_BLOCKS[i + j] && p[k].0 == DATA_BLOCKS[i + k];
    }
  }

  /** The slice `data[i*16:(i+1)*16]` starts at `startpos`, not at 0: with
      `startpos = 1` a 16-byte payload lands nowhere, and block
      `DATA_BLOCKS[1]` is written with sixteen zeros. */
  lemma DataWriteSkipsLeadingBytes(rdr: Reader, m: Memory, bytes: seq<Byte>, c: Credentials)
    requires |bytes| == BLOCK_SIZE
    requires StoreOk(rdr, |m|, DATA_BLOCKS[1], c)
    ensures DataWriteOutcome(rdr, m, Raw(bytes), 1, c) == (Ok(true), m[DATA_BLOCKS[1] := Zeros(BLOCK_SIZE)])
  {
    DataBlockEntry(1);
    assert DataWriteChecks(Raw(bytes), 1) == Ok(bytes);
    assert BlocksRequired(|bytes|) == 1;
    assert Chunk(bytes, 1) == [];
    assert PadBlock([]) == Zeros(BLOCK_SIZE);
    var m1 := m[DATA_BLOCKS[1] := Zeros(BLOCK_SIZE)];
    assert WriteOutcome(rdr, m, DATA_BLOCKS[1], [], c, false) == (Ok(true), m1);
    assert ChunkLoop(rdr, m1, bytes, 2, 2, c) == (Ok(true), m1);
  }

  /** Through the `elif` chain a `str` payload skips the `startpos` check that
      a `bytes` payload gets: at `startpos = 47` the empty text is written
      (nothing to do) while empty bytes are refused. */
  lemma DataWriteTextSkipsStartposCheck(rdr: Reader, m: Memory, c: Credentials)
    ensures DataWriteOutcome(rdr, m, Text(""), 47, c) == (Ok(true), m)
    ensures DataWriteOutcome(rdr, m, Raw([]), 47, c) == (Err(InvalidStartpos), m)
  {
  }

  /** A `str` payload with a negative `startpos` inside the list wraps round
      it: at `startpos = -1` a text of 17 to 32 bytes first writes block
      `DATA_BLOCKS[-1]` with `data[-16:0]`, which is empty, so sixteen zeros,
      and then `DATA_BLOCKS[0]` with `data[0:16]`; the rest of the text lands
      nowhere. */
  lemma DataWriteTextWrapsAround(rdr: Reader, m: Memory, s: string, c: Credentials)
    requires 16 < |Utf8(s)| <= 32
    requires StoreOk(rdr, |m|, DATA_BLOCKS[46], c) && StoreOk(rdr, |m|, DATA_BLOCKS[0], c)
    ensures DataWriteOutcome(rdr, m, Text(s), -1, c)
         == (Ok(true), m[DATA_BLOCKS[46] := Zeros(BLOCK_SIZE)][DATA_BLOCKS[0] := Utf8(s)[..16]])
  {
    var bytes := Utf8(s);
    assert BlocksRequired(|bytes|) == 2;
    assert DataWriteChecks(Text(s), -1) == Ok(bytes);
    DataWriteAccepted(rdr, m, Text(s), -1, c);
    DataBlockEntry(46);
    DataBlockEntry(0);
    var m1 := m[DATA_BLOCKS[46] := Zeros(BLOCK_SIZE)];
    var m2 := m1[DATA_BLOCKS[0] := bytes[..16]];
    assert Chunk(bytes, -1) == [];
    assert PadBlock([]) == Zeros(BLOCK_SIZE);
    ChunkLoopTurn(rdr, m, bytes, -1, 1, c);
    assert ChunkStep(rdr, m, bytes, -1, c) == (Ok(true), m1);
    assert Chunk(bytes, 0) == bytes[..16];
    PadFullBlock(bytes[..16]);
    ChunkLoopTurn(rdr, m1, bytes, 0, 1, c);
    assert ChunkStep(rdr, m1, bytes, 0, c) == (Ok(true), m2);
    assert ChunkLoop(rdr, m2, bytes, 1, 1, c) == (Ok(true), m2);
  }

  /** A `str` payload with a `startpos` before the start of the list raises
      IndexError at the first `DATA_BLOCKS[i]`, before anything is written. */
  lemma DataWriteTextNegativeStart(rdr: Reader, m: Memory, s: string, startpos: int, c: Credentials)
    requires startpos < -|DATA_BLOCKS| && s != []
    requires |Utf8(s)| <= 16 * (|DATA_BLOCKS| - startpos)
    ensures DataWriteOutcome(rdr, m, Text(s), startpos, c) == (Err(IndexError), m)
  {
    var bytes := Utf8(s);
    assert |bytes| > 0;
    assert DataWriteChecks(Text(s), startpos) == Ok(bytes);
    DataWriteAccepted(rdr, m, Text(s), startpos, c);
    ChunkLoopTurn(rdr, m, bytes, startpos, startpos + BlocksRequired(|bytes|), c);
    assert At(DATA_BLOCKS, startpos) == None;
  }

  /** One round of the loop of `data_clear`: clearing the `i`-th data block is
      the first write of the rest of the plan. */
  lemma ClearStep(rdr: Reader, m: Memory, i: int, c: Credentials)
    requires 0 <= i < |DATA_BLOCKS|
    ensures var s := StoreOutcome(rdr, m, DATA_BLOCKS[i], Zeros(BLOCK_SIZE), c);
            && WriteOutcome(rdr, m, DATA_BLOCKS[i], Zeros(BLOCK_SIZE), c, false) == (Ok(s.0), s.1)
            && StoreAll(rdr, m, ZeroPlan(DATA_BLOCKS[i..]), c)
               == if !s.0 then (false, s.1) else StoreAll(rdr, s.1, ZeroPlan(DATA_BLOCKS[i + 1..]), c)
  {
    PadFullBlock(Zeros(BLOCK_SIZE));
    assert DATA_BLOCKS[i] in DATA_BLOCKS;
    var rest := DATA_BLOCKS[i..];
    assert rest[0] == DATA_BLOCKS[i] && rest[1..] == DATA_BLOCKS[i + 1..];
    assert ZeroPlan(rest) == [(rest[0], Zeros(BLOCK_SIZE))] + ZeroPlan(rest[1..]);
  }

  /** `data_clear` zeroes the data blocks in order and stops at the first write
      that fails: it returns True exactly when every data block took the write,
      and then every data block is zero; block 0 and the sector trailers never change. */
  lemma DataClearOutcome(rdr: Reader, m: Memory, c: Credentials)
    ensures var (ok, m') := StoreAll(rdr, m, ZeroPlan(DATA_BLOCKS), c);
            && (ok <==> forall i :: 0 <= i < |DATA_BLOCKS| ==> StoreOk(rdr, |m|, DATA_BLOCKS[i], c))
            && (ok ==> forall a :: 0 <= a < |m| && IsDataBlock(a) ==> m'[a] == Zeros(BLOCK_SIZE))
            && (forall a :: 0 <= a < |m| && !IsDataBlock(a) ==> m'[a] == m[a])
  {
    DataBlocksDistinct();
    ZeroFillOk(rdr, m, DATA_BLOCKS, c);
    var (ok, m') := StoreAll(rdr, m, ZeroPlan(DATA_BLOCKS), c);
    if ok {
      forall a | 0 <= a < |m| && IsDataBlock(a) ensures m'[a] == Zeros(BLOCK_SIZE) {
        DataClearZeroes(rdr, m, c, a);
      }
    }
    forall a | 0 <= a < |m| && !IsDataBlock(a) ensures m'[a] == m[a] {
      DataClearKeeps(rdr, m, c, a);
    }
  }

  lemma DataClearZeroes(rdr: Reader, m: Memory, c: Credentials, a: int)
    requires 0 <= a < |m| && IsDataBlock(a)
    requires StoreAll(rdr, m, ZeroPlan(DATA_BLOCKS), c).0
    ensures StoreAll(rdr, m, ZeroPlan(DATA_BLOCKS), c).1[a] == Zeros(BLOCK_SIZE)
  {
    DataBlocksDistinct();
    StoreAllOutcome(rdr, m, ZeroPlan(DATA_BLOCKS), c);
    DataBlockCovered(a);
    ZeroFillZeroed(rdr, m, DATA_BLOCKS, c, DataBlockIndex(a));
  }

  lemma DataClearKeeps(rdr: Reader, m: Memory, c: Credentials, a: int)
    requires 0 <= a < |m| && !IsDataBlock(a)
    ensures StoreAll(rdr, m, ZeroPlan(DATA_BLOCKS), c).1[a] == m[a]
  {
    DataBlocksDistinct();
    var k := FirstRejected(rdr, |m|, ZeroPlan(DATA_BLOCKS), c);
    DataBlockMember(a);
    assert a !in DATA_BLOCKS[..k];
    ZeroFillKeeps(rdr, m, DATA_BLOCKS, c, a);
  }

  // ---------------------------------------------------------------- the tag

  /** A Mifare Classic 1K tag seen through the reader. */
  class NFCTag {
    const rdr: Reader
    const rawUid: seq<Byte>

    constructor (rdr: Reader, rawUid: seq<Byte>)
      ensures this.rdr == rdr && this.rawUid == rawUid
    {
      this.rdr := rdr;
      this.rawUid := rawUid;
    }

    /** `_authenticate_block`: authenticate with the key, or the default key. */
    method AuthenticateBlock(addr: int, key: Option<Key>) returns (ok: bool)
      ensures ok == Authenticates(rdr, Creds(key, rawUid), addr)
    {
      var k := if key.None? then DEFAULT_KEY else key.value;
      ok := rdr.Authenticate(Credentials(k.mode, k.key, rawUid), addr);
    }

    /** `_write_block` */
    method WriteBlock(addr: int, data: seq<Byte>, key: Option<Key>, force: bool) returns (r: Result<bool, TagError>)
      modifies rdr.mem
      ensures (r, rdr.mem[..]) == WriteOutcome(rdr, old(rdr.mem[..]), addr, data, Creds(key, rawUid), force)
    {
      DataBlockMember(addr);
      if !force && addr !in DATA_BLOCKS {
        return Err(WriteCancelled);
      } else if |data| > BLOCK_SIZE {
        return Err(BlockTooLong);
      }
      var block := data;
      if |block| < BLOCK_SIZE {
        block := block + Zeros(BLOCK_SIZE - |block|);
      }
      assert block == PadBlock(data);
      var authed := AuthenticateBlock(addr, key);
      if !authed {
        return Ok(false);
      }
      var written := rdr.MifareWrite(addr, block);
      r := Ok(written);
    }

    /** `_clear_block` */
    method ClearBlock(addr: int, key: Option<Key>, force: bool) returns (r: Result<bool, TagError>)
      modifies rdr.mem
      ensures (r, rdr.mem[..]) == WriteOutcome(rdr, old(rdr.mem[..]), addr, Zeros(BLOCK_SIZE), Creds(key, rawUid), force)
    {
      r := WriteBlock(addr, Zeros(BLOCK_SIZE), key, force);
    }

    /** `_read_block`: None when authentication fails, the read fails or the
        answer is not 16 bytes long; otherwise the 16 bytes of the block. */
    method ReadBlock(addr: int, key: Option<Key>) returns (block: Option<seq<Byte>>)
      ensures block == ReadOutcome(rdr, rdr.mem[..], addr, Creds(key, rawUid))
      ensures block.Some? <==> Authenticates(rdr, Creds(key, rawUid), addr)
                               && Reply(rdr, rdr.mem[..], addr).Some?
                               && |Reply(rdr, rdr.mem[..], addr).value| == BLOCK_SIZE
      ensures block.Some? ==> |block.value| == BLOCK_SIZE && block.value == rdr.mem[addr]
    {
      var authed := AuthenticateBlock(addr, key);
      if !authed {
        return None;
      }
      var reply := rdr.MifareRead(addr);
      if reply.None? {
        return None;
      }
      if |reply.value| != BLOCK_SIZE {
        return None;
      }
      block := reply;
    }

    /** `_override_block`, with an unreadable old block taken as zeros. */
    method OverrideBlock(addr: int, data: seq<Byte>, pos: int, key: Option<Key>, force: bool) returns (r: Result<bool, TagError>)
      modifies rdr.mem
      ensures (r, rdr.mem[..]) == OverrideOutcome(rdr, old(rdr.mem[..]), addr, data, pos, Creds(key, rawUid), force)
    {
      if |data| + pos > BLOCK_SIZE {
        return Err(BlockTooLong);
      }
      var prior := ReadBlock(addr, key);
      var olddata := if prior.Some? then prior.value else Zeros(BLOCK_SIZE);
      r := WriteBlock(addr, Splice(olddata, data, pos), key, force);
    }

    /** `read_blocks(addresses, key)` */
    method ReadBlocks(addresses: seq<int>, key: Option<Key>) returns (data: seq<seq<Byte>>)
      ensures data == ReadPrefix(rdr, rdr.mem[..], addresses, Creds(key, rawUid))
    {
      var c := Creds(key, rawUid);
      data := [];
      var i := 0;
      while i < |addresses|
        invariant 0 <= i <= |addresses|
        invariant data + ReadPrefix(rdr, rdr.mem[..], addresses[i..], c) == ReadPrefix(rdr, rdr.mem[..], addresses, c)
      {
        var block := ReadBlock(addresses[i], key);
        ReadPrefixStep(rdr, rdr.mem[..], addresses, i, data, c);
        if block.None? {
          break;
        }
        data := data + [block.value];
        i := i + 1;
      }
    }

    /** `data_read(startpos, key)` */
    method DataRead(startpos: int, key: Option<Key>) returns (r: Result<seq<seq<Byte>>, TagError>)
      ensures r.Err? <==> startpos < 0 || startpos > |DATA_BLOCKS| - 1
      ensures r.Err? ==> r.error == InvalidStartpos
      ensures r.Ok? ==> r.value == ReadPrefix(rdr, rdr.mem[..], DATA_BLOCKS[startpos..], Creds(key, rawUid))
    {
      if startpos < 0 || startpos > |DATA_BLOCKS| - 1 {
        return Err(InvalidStartpos);
      }
      var blocks := ReadBlocks(DATA_BLOCKS[startpos..], key);
      r := Ok(blocks);
    }

    /** `data_clear(key)` */
    method DataClear(key: Option<Key>) returns (ok: bool)
      modifies rdr.mem
      ensures (ok, rdr.mem[..]) == StoreAll(rdr, old(rdr.mem[..]), ZeroPlan(DATA_BLOCKS), Creds(key, rawUid))
    {
      ghost var c := Creds(key, rawUid);
      PadFullBlock(Zeros(BLOCK_SIZE));
      var i := 0;
      while i < |DATA_BLOCKS|
        invariant 0 <= i <= |DATA_BLOCKS|
        invariant StoreAll(rdr, old(rdr.mem[..]), ZeroPlan(DATA_BLOCKS), c)
               == StoreAll(rdr, rdr.mem[..], ZeroPlan(DATA_BLOCKS[i..]), c)
      {
        ClearStep(rdr, rdr.mem[..], i, c);
        var r := ClearBlock(DATA_BLOCKS[i], key, false);
        if r != Ok(true) {
          return false;
        }
        i := i + 1;
      }
      return true;
    }

    /** The checks at the head of `data_write(data, startpos, key)`. */
    static method CheckPayload(data: Payload, startpos: int) returns (r: Result<seq<Byte>, TagError>)
      ensures r == DataWriteChecks(data, startpos)
    {
      var bytes: seq<Byte>;
      match data {
        case Text(s) =>
          bytes := Utf8(s);
        case Raw(b) =>
          if startpos < 0 || startpos > |DATA_BLOCKS| - 1 {
            return Err(InvalidStartpos);
          }
          bytes := b;
        case Unsupported =>
          return Err(DataNotBytes);
      }
      var required := BlocksRequired(|bytes|);
      var available := |DATA_BLOCKS| - startpos;
      if required > available {
        return Err(DataTooLong);
      }
      r := Ok(bytes);
    }

    /** `data_write(data, startpos, key)` */
    method DataWrite(data: Payload, startpos: int, key: Option<Key>) returns (r: Result<bool, TagError>)
      modifies rdr.mem
      ensures (r, rdr.mem[..]) == DataWriteOutcome(rdr, old(rdr.mem[..]), data, startpos, Creds(key, rawUid))
    {
      var checked := CheckPayload(data, startpos);
      r := WriteChecked(checked, startpos, key);
    }

    /** `data_write` after its checks. */
    method WriteChecked(checked: Result<seq<Byte>, TagError>, startpos: int, key: Option<Key>) returns (r: Result<bool, TagError>)
      modifies rdr.mem
      ensures (r, rdr.mem[..]) == DataWriteAfterChecks(rdr, old(rdr.mem[..]), checked, startpos, Creds(key, rawUid))
    {
      match checked {
        case Err(e) =>
          r := Err(e);
        case Ok(bytes) =>
          r := WriteChunks(bytes, startpos, key);
      }
    }

    /** The body of the loop of `data_write` for index `i`, which either ends
        the loop with its outcome or leaves the rest of it to run. */
    method WriteChunk(bytes: seq<Byte>, i: int, hi: int, key: Option<Key>) returns (r: Result<bool, TagError>)
      requires i < hi
      modifies rdr.mem
      ensures (r, rdr.mem[..]) == ChunkStep(rdr, old(rdr.mem[..]), bytes, i, Creds(key, rawUid))
      ensures r != Ok(true) ==> (r, rdr.mem[..]) == ChunkLoop(rdr, old(rdr.mem[..]), bytes, i, hi, Creds(key, rawUid))
      ensures r == Ok(true) ==> ChunkLoop(rdr, old(rdr.mem[..]), bytes, i, hi, Creds(key, rawUid))
                                == ChunkLoop(rdr, rdr.mem[..], bytes, i + 1, hi, Creds(key, rawUid))
    {
      ChunkLoopTurn(rdr, rdr.mem[..], bytes, i, hi, Creds(key, rawUid));
      var addr := At(DATA_BLOCKS, i);
      if addr.None? {
        return Err(IndexError);
      }
      r := WriteBlock(addr.value, Chunk(bytes, i), key, false);
    }

    /** The loop `for i in range(startpos, startpos + blocks_required)` of
        `data_write`, for a payload that passed the checks. */
    method WriteChunks(bytes: seq<Byte>, startpos: int, key: Option<Key>) returns (r: Result<bool, TagError>)
      modifies rdr.mem
      ensures (r, rdr.mem[..]) == DataWriteAfterChecks(rdr, old(rdr.mem[..]), Ok(bytes), startpos, Creds(key, rawUid))
    {
      var lo, hi := startpos, startpos + BlocksRequired(|bytes|);
      ghost var c := Creds(key, rawUid);
      ghost var outcome := DataWriteAfterChecks(rdr, rdr.mem[..], Ok(bytes), startpos, c);
      AcceptedIsChunkLoop(rdr, rdr.mem[..], bytes, startpos, c);
      var i := lo;
      while i < hi
        invariant outcome == ChunkLoop(rdr, rdr.mem[..], bytes, i, hi, c)
        decreases hi - i
      {
        var w := WriteChunk(bytes, i, hi, key);
        if w != Ok(true) {
          return w;
        }
        i := i + 1;
      }
      return Ok(true);
    }
  }
}
