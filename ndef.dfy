/** The NDEF layer of ndef.py: the fixed-offset record reader, the keys of an
    NDEF-formatted Mifare Classic card, the Mifare Application Directory that
    `format` writes, and the read loop that stops at the Terminator TLV. */
module Ndef {
  import opened Bytes
  import opened BlockStore
  import opened NfcTools

  // ---------------------------------------------------------------- records

  /** An `NDEFRecord`: the raw data and the fields read at fixed offsets. */
  datatype NdefRecord = NdefRecord(
    data: seq<Byte>,
    tnf: Byte,
    recordType: seq<Byte>,
    id: seq<Byte>,
    payloadLength: Byte,
    payload: seq<Byte>,
    recordLength: nat)

  /** `NDEFRecord(data)`: `None` stands for the IndexError of `data[0]` or
      `data[4]` on fewer than five bytes. The payload is cut short where the
      data ends, while the record length is always taken from the header. */
  function ParseRecord(data: seq<Byte>): (r: Option<NdefRecord>)
    ensures r.Some? <==> |data| >= 5
    ensures r.Some? ==> && r.value.data == data
                        && r.value.tnf == data[0]
                        && r.value.recordType == data[1..3]
                        && r.value.id == data[3..4]
                        && r.value.payloadLength == data[4]
                        && r.value.payload == data[5..Min(5 + data[4] as int, |data|)]
                        && |r.value.payload| <= r.value.payloadLength
                        && (|data| >= 5 + data[4] as int ==> |r.value.payload| == r.value.payloadLength)
                        && r.value.recordLength == 5 + r.value.payloadLength as int
  {
    match (At(data, 0), At(data, 4))
    case (Some(tnf), Some(len)) =>
      SliceNonNegative(data, 5, 5 + len as int);
      Some(NdefRecord(data, tnf, Slice(data, 1, 3), Slice(data, 3, 4), len, Slice(data, 5, 5 + len as int), 5 + len as int))
    case _ => None
  }

  /** The five header bytes and the payload, in the order the reader expects. */
  function EncodeRecord(tnf: Byte, recordType: seq<Byte>, id: seq<Byte>, payload: seq<Byte>): (s: seq<Byte>)
    requires |recordType| == 2 && |id| == 1 && |payload| < 256
    ensures |s| == 5 + |payload|
  {
    [tnf] + recordType + id + [|payload|] + payload
  }

  /** Reading back an encoded record, whatever follows it, gives the fields it
      was built from and its own length. */
  lemma ParseEncodeRecord(tnf: Byte, recordType: seq<Byte>, id: seq<Byte>, payload: seq<Byte>, rest: seq<Byte>)
    requires |recordType| == 2 && |id| == 1 && |payload| < 256
    ensures var s := EncodeRecord(tnf, recordType, id, payload);
            var r := ParseRecord(s + rest);
            && r.Some?
            && r.value.tnf == tnf && r.value.recordType == recordType && r.value.id == id
            && r.value.payloadLength == |payload| && r.value.payload == payload
            && r.value.recordLength == |s|
  {
    var s := EncodeRecord(tnf, recordType, id, payload);
    var d := s + rest;
    assert d[1..3] == recordType;
    assert d[3..4] == id;
    assert d[5..5 + |payload|] == payload;
  }

  // ---------------------------------------------------------------- keys

  /** `NDEFTag.KEYA0`: the MAD key A, A0 A1 A2 A3 A4 A5. */
  function KeyA0(): (k: Key)
    ensures ValidKey(k)
    ensures k.key == [0xA0, 0xA1, 0xA2, 0xA3, 0xA4, 0xA5] && k.mode == AUTHENT1A
  {
    NewKey([0xA0, 0xA1, 0xA2, 0xA3, 0xA4, 0xA5], AUTHENT1A).value
  }

  /** `NDEFTag.KEYA1`: the NDEF sector key A, D3 F7 D3 F7 D3 F7. */
  function KeyA1(): (k: Key)
    ensures ValidKey(k)
    ensures k.key == [0xD3, 0xF7, 0xD3, 0xF7, 0xD3, 0xF7] && k.mode == AUTHENT1A
  {
    NewKey([0xD3, 0xF7, 0xD3, 0xF7, 0xD3, 0xF7], AUTHENT1A).value
  }

  /** `NDEFTag.KEYB`: the factory key used as key B. */
  function KeyB(): (k: Key)
    ensures ValidKey(k)
    ensures k.key == [0xFF, 0xFF, 0xFF, 0xFF, 0xFF, 0xFF] && k.mode == AUTHENT1B
  {
    NewKey([0xFF, 0xFF, 0xFF, 0xFF, 0xFF, 0xFF], AUTHENT1B).value
  }

  // ---------------------------------------------------------------- the directory

  /** Block 1 as `format` writes it: the directory CRC 0x14, the info byte
      0x01, then the application entries of sectors 1 to 7. */
  const MAD_BLOCK_1: seq<Byte> :=
    [0x14, 0x01, 0x03, 0xE1, 0x03, 0xE1, 0x03, 0xE1, 0x03, 0xE1, 0x03, 0xE1, 0x03, 0xE1, 0x03, 0xE1]

  /** Block 2 as `format` writes it: the entries of sectors 8 to 15. */
  const MAD_BLOCK_2: seq<Byte> :=
    [0x03, 0xE1, 0x03, 0xE1, 0x03, 0xE1, 0x03, 0xE1, 0x03, 0xE1, 0x03, 0xE1, 0x03, 0xE1, 0x03, 0xE1]

  /** `n` directory entries, each the NDEF application identifier 03 E1. */
  function NdefEntries(n: nat): (s: seq<Byte>)
    ensures |s| == 2 * n
    ensures forall i :: 0 <= i < |s| ==> s[i] == if i % 2 == 0 then 0x03 else 0xE1
  {
    if n == 0 then [] else [0x03, 0xE1] + NdefEntries(n - 1)
  }

  /** The directory spans two whole blocks: block 1 is the CRC byte 0x14 and the
      info byte 0x01 followed by seven NDEF entries, block 2 is eight more, so
      each of the fifteen sectors 1 to 15 is given to the NDEF application. */
  lemma MadLayout()
    ensures |MAD_BLOCK_1| == BLOCK_SIZE && |MAD_BLOCK_2| == BLOCK_SIZE
    ensures MAD_BLOCK_1 == [0x14, 0x01] + NdefEntries(7)
    ensures MAD_BLOCK_2 == NdefEntries(8)
    ensures MAD_BLOCK_1[2..] + MAD_BLOCK_2 == NdefEntries(15)
  {
    var e7 := NdefEntries(7);
    var e8 := NdefEntries(8);
    assert MAD_BLOCK_1 == [0x14, 0x01] + e7;
    assert MAD_BLOCK_2 == e8;
    assert e7 + e8 == NdefEntries(15) by {
      NdefEntriesSplit(7, 8);
    }
  }

  lemma {:induction false} NdefEntriesSplit(a: nat, b: nat)
    ensures NdefEntries(a) + NdefEntries(b) == NdefEntries(a + b)
  {
    var l := NdefEntries(a) + NdefEntries(b);
    var r := NdefEntries(a + b);
    forall i | 0 <= i < |l| ensures l[i] == r[i] {
      if i >= 2 * a {
        assert (i - 2 * a) % 2 == i % 2;
      }
    }
  }

  /** `format(key)`: write the two directory blocks, ignoring whether the
      writes get through; the `Some` of the result would be an exception of
      `_write_block`. */
  function FormatOutcome(rdr: Reader, m: Memory, c: Credentials): (Option<TagError>, Memory)
  {
    var (r1, m1) := WriteOutcome(rdr, m, 0x01, MAD_BLOCK_1, c, false);
    if r1.Err? then (Some(r1.error), m1)
    else
      var (r2, m2) := WriteOutcome(rdr, m1, 0x02, MAD_BLOCK_2, c, false);
      if r2.Err? then (Some(r2.error), m2) else (None, m2)
  }

  /** `format` never raises: blocks 1 and 2 are data blocks and the directory
      blocks are whole. Each of the two blocks holds its directory block exactly
      when its write gets through and is unchanged otherwise; no other block
      changes. */
  lemma FormatEffect(rdr: Reader, m: Memory, c: Credentials)
    ensures var (r, m') := FormatOutcome(rdr, m, c);
            && r.None?
            && |m'| == |m|
            && (StoreOk(rdr, |m|, 1, c) ==> m'[1] == MAD_BLOCK_1)
            && (StoreOk(rdr, |m|, 2, c) ==> m'[2] == MAD_BLOCK_2)
            && (forall a :: 0 <= a < |m| && !(a == 1 && StoreOk(rdr, |m|, 1, c)) && !(a == 2 && StoreOk(rdr, |m|, 2, c))
                  ==> m'[a] == m[a])
  {
    PadFullBlock(MAD_BLOCK_1);
    PadFullBlock(MAD_BLOCK_2);
  }

  // ---------------------------------------------------------------- reading

  /** How `read` fails: `data += None` raises TypeError when a block cannot
      be read. */
  datatype ReadError = BlockUnreadable

  /** `d + x` for a result `x`, an error passing through. */
  function Prepend(d: seq<Byte>, r: Result<seq<Byte>, ReadError>): Result<seq<Byte>, ReadError> {
    match r
    case Ok(x) => Ok(d + x)
    case Err(e) => Err(e)
  }

  /** The loop of `read`: append each block in turn and stop after the first
      block holding 0xFE, the Terminator TLV. The result is whole blocks, at
      most one per address. */
  function ReadUntilTerminator(rdr: Reader, m: Memory, blocks: seq<int>, c: Credentials): (r: Result<seq<Byte>, ReadError>)
    ensures r.Ok? ==> |r.value| % BLOCK_SIZE == 0 && |r.value| <= BLOCK_SIZE * |blocks|
    decreases |blocks|
  {
    if blocks == [] then Ok([])
    else match ReadOutcome(rdr, m, blocks[0], c)
      case None => Err(BlockUnreadable)
      case Some(block) =>
        if 0xFE in block then Ok(block)
        else Prepend(block, ReadUntilTerminator(rdr, m, blocks[1..], c))
  }

  /** The blocks one after another. */
  function Flatten(rs: seq<seq<Byte>>): seq<Byte>
    decreases |rs|
  {
    if rs == [] then [] else rs[0] + Flatten(rs[1..])
  }

  /** The position of the first block holding 0xFE, or the number of blocks. */
  function TerminatorIndex(rs: seq<seq<Byte>>): (k: nat)
    ensures k <= |rs|
    ensures forall i :: 0 <= i < k ==> 0xFE !in rs[i]
    ensures k < |rs| ==> 0xFE in rs[k]
    decreases |rs|
  {
    if rs == [] || 0xFE in rs[0] then 0 else 1 + TerminatorIndex(rs[1..])
  }

  /** `Prepend` of nothing changes nothing, and two in a row are one. */
  lemma PrependLaws(a: seq<Byte>, b: seq<Byte>, r: Result<seq<Byte>, ReadError>)
    ensures Prepend([], r) == r
    ensures Prepend(a, Prepend(b, r)) == Prepend(a + b, r)
  {
    if r.Ok? {
      assert [] + r.value == r.value;
      assert a + (b + r.value) == (a + b) + r.value;
    }
  }

  /** What `read` should return given the blocks `rs` that read in order out
      of `n` addresses: the blocks up to and including the first holding
      0xFE; all blocks when none holds it and all read; TypeError otherwise. */
  function ReadExpected(rs: seq<seq<Byte>>, n: nat): Result<seq<Byte>, ReadError> {
    var k := TerminatorIndex(rs);
    if k < |rs| then Ok(Flatten(rs[..k + 1]))
    else if |rs| == n then Ok(Flatten(rs))
    else Err(BlockUnreadable)
  }

  lemma ReadExpectedCons(block: seq<Byte>, rs: seq<seq<Byte>>, n: nat)
    ensures ReadExpected([block] + rs, n + 1)
         == if 0xFE in block then Ok(block) else Prepend(block, ReadExpected(rs, n))
  {
    var l := [block] + rs;
    assert l[0] == block && l[1..] == rs;
    if 0xFE in block {
      assert TerminatorIndex(l) == 0;
      assert l[..1] == [block];
      assert [block][1..] == [];
      assert Flatten([block]) == block + [];
      assert block + [] == block;
    } else {
      var k := TerminatorIndex(rs);
      if k < |rs| {
        assert l[..k + 2][0] == block && l[..k + 2][1..] == rs[..k + 1];
      }
    }
  }

  /** The loop of `read` returns what `ReadExpected` says of the blocks that
      read in order. */
  lemma {:induction false} ReadUntilTerminatorExpected(rdr: Reader, m: Memory, blocks: seq<int>, c: Credentials)
    ensures ReadUntilTerminator(rdr, m, blocks, c) == ReadExpected(ReadPrefix(rdr, m, blocks, c), |blocks|)
    decreases |blocks|
  {
    if blocks != [] {
      match ReadOutcome(rdr, m, blocks[0], c)
      case None =>
      case Some(block) =>
        var rest := ReadPrefix(rdr, m, blocks[1..], c);
        assert ReadPrefix(rdr, m, blocks, c) == [block] + rest;
        ReadExpectedCons(block, rest, |blocks| - 1);
        if 0xFE !in block {
          ReadUntilTerminatorExpected(rdr, m, blocks[1..], c);
        }
    }
  }

  /** What `read` returns, in terms of the blocks that read in order
      (`ReadPrefix`): the blocks up to and including the first holding 0xFE
      (no earlier block holds it, `TerminatorIndex`); all blocks when none
      holds it; and TypeError when a block cannot be read before any block
      holding 0xFE. */
  lemma ReadUntilTerminatorCharacterized(rdr: Reader, m: Memory, blocks: seq<int>, c: Credentials)
    ensures var rs := ReadPrefix(rdr, m, blocks, c);
            var k := TerminatorIndex(rs);
            ReadUntilTerminator(rdr, m, blocks, c)
              == if k < |rs| then Ok(Flatten(rs[..k + 1]))
                 else if |rs| == |blocks| then Ok(Flatten(rs))
                 else Err(BlockUnreadable)
  {
    ReadUntilTerminatorExpected(rdr, m, blocks, c);
  }

  // ---------------------------------------------------------------- the tag

  /** An `NDEFTag` wrapping a tag of nfc_tools.py. */
  class NdefTag {
    const tag: NFCTag

    constructor (tag: NFCTag)
      ensures this.tag == tag
    {
      this.tag := tag;
    }

    /** `format(key)` */
    method Format(key: Key) returns (r: Option<TagError>)
      modifies tag.rdr.mem
      ensures (r, tag.rdr.mem[..]) == FormatOutcome(tag.rdr, old(tag.rdr.mem[..]), Creds(Some(key), tag.rawUid))
    {
      var w1 := tag.WriteBlock(0x01, MAD_BLOCK_1, Some(key), false);
      if w1.Err? {
        return Some(w1.error);
      }
      var w2 := tag.WriteBlock(0x02, MAD_BLOCK_2, Some(key), false);
      if w2.Err? {
        return Some(w2.error);
      }
      r := None;
    }

    /** `read(key)` over the data blocks `blocks`, returning the bytes that
        would be handed to `NDEFMessage.parse_from_data`. */
    method Read(blocks: seq<int>, key: Key) returns (r: Result<seq<Byte>, ReadError>)
      ensures r == ReadUntilTerminator(tag.rdr, tag.rdr.mem[..], blocks, Creds(Some(key), tag.rawUid))
    {
      ghost var c := Creds(Some(key), tag.rawUid);
      ghost var m := tag.rdr.mem[..];
      var data: seq<Byte> := [];
      var i := 0;
      assert blocks[0..] == blocks;
      PrependLaws([], [], ReadUntilTerminator(tag.rdr, m, blocks, c));
      while i < |blocks|
        invariant 0 <= i <= |blocks|
        invariant ReadUntilTerminator(tag.rdr, m, blocks, c) == Prepend(data, ReadUntilTerminator(tag.rdr, m, blocks[i..], c))
      {
        assert blocks[i..][0] == blocks[i] && blocks[i..][1..] == blocks[i + 1..];
        var block := tag.ReadBlock(blocks[i], Some(key));
        if block.None? {
          return Err(BlockUnreadable);
        }
        PrependLaws(data, block.value, ReadUntilTerminator(tag.rdr, m, blocks[i + 1..], c));
        data := data + block.value;
        if 0xFE in block.value {
          break;
        }
        i := i + 1;
      }
      assert i == |blocks| ==> blocks[i..] == [] && data + [] == data;
      r := Ok(data);
    }
  }
}
