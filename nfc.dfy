/** The older tag layer of nfc.py. It differs from nfc_tools.py in that keys
    are plain lists always used as key A, `_write_block` has no `DATA_BLOCKS`
    guard and returns False instead of raising, `_override_block` returns
    None when the old block cannot be read, and `read_all` reads the whole
    card. */
module Nfc {
  import opened Bytes
  import opened BlockStore
  import NfcTools

  /** `NFCTag.DATA_BLOCKS`, spelled out in decimal over two lines. */
  const DATA_BLOCKS: seq<int> :=
    [1, 2, 4, 5, 6, 8, 9, 10, 12, 13, 14, 16, 17, 18, 20, 21, 22, 24, 25, 26, 28, 29, 30] +
    [32, 33, 34, 36, 37, 38, 40, 41, 42, 44, 45, 46, 48, 49, 50, 52, 53, 54, 56, 57, 58, 60, 61, 62]

  /** The list agrees element for element with the one of nfc_tools.py, so it
      too is the 47 blocks that are neither block 0 nor a sector trailer. */
  lemma DataBlocksAgree()
    ensures DATA_BLOCKS == NfcTools.DATA_BLOCKS
    ensures |DATA_BLOCKS| == 47
    ensures forall a :: a in DATA_BLOCKS <==> NfcTools.IsDataBlock(a)
  {
    NfcTools.DataBlocksListed();
    NfcTools.DataBlocksLayout();
  }

  /** `_authenticate_block` always authenticates with key A. */
  function Creds(key: seq<int>, uid: seq<Byte>): Credentials {
    Credentials(AUTHENT1A, key, uid)
  }

  /** `_write_block`: more than 16 bytes is refused, shorter data is padded
      with zeros, and the block is written after authentication. */
  function WriteOutcome(rdr: Reader, m: Memory, addr: int, data: seq<Byte>, c: Credentials): (bool, Memory)
  {
    if |data| > BLOCK_SIZE then (false, m)
    else StoreOutcome(rdr, m, addr, PadBlock(data), c)
  }

  /** What `_write_block` does to the card: it reports success exactly when the
      data fits and authentication and the write get through, whatever the
      address (there is no guard), and only then does the block change, to the
      data followed by zeros; no other block ever changes. */
  lemma WriteBlockEffect(rdr: Reader, m: Memory, addr: int, data: seq<Byte>, c: Credentials)
    ensures var (ok, m') := WriteOutcome(rdr, m, addr, data, c);
            && (ok <==> |data| <= BLOCK_SIZE && StoreOk(rdr, |m|, addr, c))
            && (!ok ==> m' == m)
            && (ok ==> && m' == m[addr := m'[addr]]
                       && |m'[addr]| == BLOCK_SIZE
                       && m'[addr][..|data|] == data
                       && forall i :: |data| <= i < BLOCK_SIZE ==> m'[addr][i] == 0)
  {
    if |data| <= BLOCK_SIZE {
      PadBlockContents(data);
    }
  }

  /** `_override_block`: `Some(false)` when the data does not fit, `None` (the
      bare `return`) when the old block cannot be read, and otherwise the
      outcome of writing the spliced block. */
  function OverrideOutcome(rdr: Reader, m: Memory, addr: int, data: seq<Byte>, start: int, c: Credentials)
    : (Option<bool>, Memory)
  {
    if |data| + start > BLOCK_SIZE then (Some(false), m)
    else match ReadOutcome(rdr, m, addr, c)
      case None => (None, m)
      case Some(prior) =>
        var (ok, m') := WriteOutcome(rdr, m, addr, Splice(prior, data, start), c);
        (Some(ok), m')
  }

  /** For a non-negative start: nothing is written unless the data fits and the
      old block reads; then the block written is the old block with exactly
      [start, start + len) replaced by the data. */
  lemma OverrideEffect(rdr: Reader, m: Memory, addr: int, data: seq<Byte>, start: int, c: Credentials)
    requires 0 <= start
    ensures var (r, m') := OverrideOutcome(rdr, m, addr, data, start, c);
            var prior := ReadOutcome(rdr, m, addr, c);
            && (|data| + start > BLOCK_SIZE ==> r == Some(false) && m' == m)
            && (r.None? <==> |data| + start <= BLOCK_SIZE && prior.None?)
            && (r == Some(true) <==> |data| + start <= BLOCK_SIZE && prior.Some? && StoreOk(rdr, |m|, addr, c))
            && (r != Some(true) ==> m' == m)
            && (r == Some(true) ==>
                  && m' == m[addr := m'[addr]]
                  && |m'[addr]| == BLOCK_SIZE
                  && m'[addr][start..start + |data|] == data
                  && forall i :: 0 <= i < BLOCK_SIZE && !(start <= i < start + |data|) ==> m'[addr][i] == prior.value[i])
  {
    var prior := ReadOutcome(rdr, m, addr, c);
    if |data| + start <= BLOCK_SIZE && prior.Some? {
      SpliceAt(prior.value, data, start);
      PadFullBlock(Splice(prior.value, data, start));
    }
  }

  /** What `clear_all_data` does to the card: it succeeds exactly when every
      data block can be written; after success every data block is zero; the
      block 0 and the sector trailers are never touched. */
  lemma ClearAllDataOutcome(rdr: Reader, m: Memory, c: Credentials)
    ensures var (ok, m') := StoreAll(rdr, m, ZeroPlan(DATA_BLOCKS), c);
            && (ok <==> forall i :: 0 <= i < |DATA_BLOCKS| ==> StoreOk(rdr, |m|, DATA_BLOCKS[i], c))
            && (ok ==> forall a :: 0 <= a < |m| && NfcTools.IsDataBlock(a) ==> m'[a] == Zeros(BLOCK_SIZE))
            && (forall a :: 0 <= a < |m| && !NfcTools.IsDataBlock(a) ==> m'[a] == m[a])
  {
    DataBlocksAgree();
    NfcTools.DataClearOutcome(rdr, m, c);
  }

  /** `range(lo, hi)` */
  function Range(lo: int, hi: int): (s: seq<int>)
    decreases hi - lo
  {
    if lo >= hi then [] else [lo] + Range(lo + 1, hi)
  }

  lemma {:induction false} RangeAt(lo: int, hi: int)
    requires lo <= hi
    ensures |Range(lo, hi)| == hi - lo
    ensures forall i :: 0 <= i < hi - lo ==> Range(lo, hi)[i] == lo + i
    decreases hi - lo
  {
    if lo < hi {
      RangeAt(lo + 1, hi);
    }
  }

  /** The addresses `range(0, 64)` that `read_all` walks. */
  function AllBlocks(): (s: seq<int>)
    ensures |s| == BLOCK_COUNT
    ensures forall i :: 0 <= i < |s| ==> s[i] == i
  {
    RangeAt(0, BLOCK_COUNT);
    Range(0, BLOCK_COUNT)
  }

  /** What `read_all` returns: the blocks 0, 1, 2, ... in order, each as it
      reads, up to the first block that cannot be read. */
  lemma ReadAllPrefix(rdr: Reader, m: Memory, c: Credentials)
    ensures var rs := ReadPrefix(rdr, m, AllBlocks(), c);
            && |rs| <= BLOCK_COUNT
            && (forall i :: 0 <= i < |rs| ==> ReadOutcome(rdr, m, i, c) == Some(rs[i]))
            && (|rs| < BLOCK_COUNT ==> ReadOutcome(rdr, m, |rs|, c).None?)
  {
    ReadPrefixLongest(rdr, m, AllBlocks(), c);
  }

  /** A Mifare Classic 1K tag seen through the reader, the nfc.py way. */
  class NFCTag {
    const rdr: Reader
    const rawUid: seq<Byte>

    constructor (rdr: Reader, rawUid: seq<Byte>)
      ensures this.rdr == rdr && this.rawUid == rawUid
    {
      this.rdr := rdr;
      this.rawUid := rawUid;
    }

    /** `_authenticate_block`: key A with the given key bytes. */
    method AuthenticateBlock(addr: int, key: seq<int>) returns (ok: bool)
      ensures ok == rdr.accepts(AUTHENT1A, addr, key, rawUid)
    {
      ok := rdr.Authenticate(Creds(key, rawUid), addr);
    }

    /** `_write_block` */
    method WriteBlock(addr: int, data: seq<Byte>, key: seq<int>) returns (ok: bool)
      modifies rdr.mem
      ensures (ok, rdr.mem[..]) == WriteOutcome(rdr, old(rdr.mem[..]), addr, data, Creds(key, rawUid))
    {
      if |data| > BLOCK_SIZE {
        return false;
      }
      var block := data;
      if |block| < BLOCK_SIZE {
        block := block + Zeros(BLOCK_SIZE - |block|);
      }
      assert block == PadBlock(data);
      var authed := AuthenticateBlock(addr, key);
      if !authed {
        return false;
      }
      ok := rdr.MifareWrite(addr, block);
    }

    /** `_clear_block` */
    method ClearBlock(addr: int, key: seq<int>) returns (ok: bool)
      modifies rdr.mem
      ensures (ok, rdr.mem[..]) == StoreOutcome(rdr, old(rdr.mem[..]), addr, Zeros(BLOCK_SIZE), Creds(key, rawUid))
    {
      PadFullBlock(Zeros(BLOCK_SIZE));
      ok := WriteBlock(addr, Zeros(BLOCK_SIZE), key);
    }

    /** `_read_block`: None when authentication fails, the driver returns None
        or the answer is not 16 bytes long; otherwise the 16 bytes of the block. */
    method ReadBlock(addr: int, key: seq<int>) returns (block: Option<seq<Byte>>)
      ensures block == ReadOutcome(rdr, rdr.mem[..], addr, Creds(key, rawUid))
      ensures block.Some? <==> Authenticates(rdr, Creds(key, rawUid), addr)
                               && Reply(rdr, rdr.mem[..], addr).Some?
                               && |Reply(rdr, rdr.mem[..], addr).value| == BLOCK_SIZE
      ensures block.Some? ==> |block.value| == BLOCK_SIZE && block.value == rdr.mem[addr]
    {
      var authed := AuthenticateBlock(addr, key);
      if !authed {
        return None;
      }
      var reply := rdr.MifareRead(addr);
      if reply.None? || |reply.value| != BLOCK_SIZE {
        return None;
      }
      block := reply;
    }

    /** `_override_block` */
    method OverrideBlock(addr: int, data: seq<Byte>, start: int, key: seq<int>) returns (r: Option<bool>)
      modifies rdr.mem
      ensures (r, rdr.mem[..]) == OverrideOutcome(rdr, old(rdr.mem[..]), addr, data, start, Creds(key, rawUid))
    {
      if |data| + start > BLOCK_SIZE {
        return Some(false);
      }
      var olddata := ReadBlock(addr, key);
      if olddata.None? {
        return None;
      }
      var ok := WriteBlock(addr, Splice(olddata.value, data, start), key);
      r := Some(ok);
    }

    /** `read_all(key)`: the blocks from 0 upwards, up to the first one that
        cannot be read. */
    method ReadAll(key: seq<int>) returns (data: seq<seq<Byte>>)
      ensures data == ReadPrefix(rdr, rdr.mem[..], AllBlocks(), Creds(key, rawUid))
    {
      data := ReadBlocks(AllBlocks(), key);
    }

    /** The loop of `read_all` over the addresses of `range(0, 64)`: append
        each block, and stop at the first one that does not read. */
    method ReadBlocks(blocks: seq<int>, key: seq<int>) returns (data: seq<seq<Byte>>)
      ensures data == ReadPrefix(rdr, rdr.mem[..], blocks, Creds(key, rawUid))
    {
      ghost var c := Creds(key, rawUid);
      data := [];
      var i := 0;
      while i < |blocks|
        invariant 0 <= i <= |blocks|
        invariant data + ReadPrefix(rdr, rdr.mem[..], blocks[i..], c) == ReadPrefix(rdr, rdr.mem[..], blocks, c)
      {
        var block := ReadBlock(blocks[i], key);
        ReadPrefixStep(rdr, rdr.mem[..], blocks, i, data, c);
        // `if not block`: a block that reads is never empty, so only a
        // failed read ends the loop.
        if block.None? {
          break;
        }
        data := data + [block.value];
        i := i + 1;
      }
    }

    /** `clear_all_data(key)`: zero the data blocks in order, stopping with
        False at the first block that cannot be cleared. */
    method ClearAllData(key: seq<int>) returns (ok: bool)
      modifies rdr.mem
      ensures (ok, rdr.mem[..]) == StoreAll(rdr, old(rdr.mem[..]), ZeroPlan(DATA_BLOCKS), Creds(key, rawUid))
    {
      ok := ClearBlocks(DATA_BLOCKS, key);
    }

    /** The loop `for i in self.DATA_BLOCKS` of `clear_all_data`, over any
        list of addresses. */
    method ClearBlocks(blocks: seq<int>, key: seq<int>) returns (ok: bool)
      modifies rdr.mem
      ensures (ok, rdr.mem[..]) == StoreAll(rdr, old(rdr.mem[..]), ZeroPlan(blocks), Creds(key, rawUid))
    {
      ghost var c := Creds(key, rawUid);
      var i := 0;
      while i < |blocks|
        invariant 0 <= i <= |blocks|
        invariant StoreAll(rdr, old(rdr.mem[..]), ZeroPlan(blocks), c)
               == StoreAll(rdr, rdr.mem[..], ZeroPlan(blocks[i..]), c)
      {
        assert ZeroPlan(blocks[i..])[0] == (blocks[i], Zeros(BLOCK_SIZE));
        assert ZeroPlan(blocks[i..])[1..] == ZeroPlan(blocks[i + 1..]);
        var cleared := ClearBlock(blocks[i], key);
        if !cleared {
          return false;
        }
        i := i + 1;
      }
      return true;
    }
  }
}
