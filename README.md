# circuitpy-nfc in Dafny

A model of the tag layer of circuitpy-nfc, a CircuitPython library for Mifare
Classic 1K cards read through an MFRC522 reader, with the properties it
promises proved.

The library has two generations of the tag layer:

- `nfc_tools.py`, with validated keys, a guard on the data blocks, and
  chunked writes;
- `nfc.py`, the older variant.

On top of them sit:

- `ndef.py`: a fixed-offset NDEF record reader, the keys and Mifare
  Application Directory (NXP AN10787) of an NDEF-formatted card, and a read
  loop that stops at the Terminator TLV (NXP AN1304);
- `nfc_utils.py`: hex formatters.

Modules:

- `Bytes`: the Python sequence semantics the code relies on. These are
  slices with negative and clamped bounds, indexing that raises, `b'\x00' *
  n` padding, and `str.encode('utf-8')`. Python exceptions are written as
  `Result`/`Option` values.
- `BlockStore`: the reader and its card, as the class `Reader`:
  - an array of 64 blocks;
  - an authentication predicate over (mode, block, key, uid);
  - the blocks whose reads or writes the card refuses.

  It also holds the block-level specification both tag layers share:
  - the authenticate-then-read and authenticate-then-write steps;
  - the read loop that stops at the first failure (`ReadPrefix`);
  - the write loop that stops at the first failure (`StoreAll`).

  These are stated on a snapshot of the memory.
- `NfcTools`: `Key`, `NFCTag.DATA_BLOCKS` and the methods of `NFCTag` from
  `nfc_tools.py`, as the class `NfcTools.NFCTag`. Each method's new state and
  result are tied to a function of the old memory, and the promised
  properties are lemmas about those functions.
- `Nfc`: the `NFCTag` of `nfc.py`, in the same style.
- `Ndef`: `NDEFRecord`, the `NDEFTag` keys, `format` and `read`.
- `NfcUtils`: `int2hex` and `list2hex`. nfc.py's `_int2hex` and `_list2hex`
  have the same bodies, so they are modelled once.

Driver inputs become parameters:

- authentication results, as the `accepts` function of the `Reader`;
- failed reads and writes, as its `readFails` and `writeFails` sets;
- the card's UID, as `rawUid`.

In these places the model follows the code as written:

- `NDEFTag.read` iterates over `self.tag.MAIN_DATA_BLOCKS`, an attribute that
  `NFCTag` does not define. The model reads an explicit block list, passed
  as a parameter.
- `read` does `data += block` before it tests `block`. A block that cannot
  be read is therefore a TypeError, modelled as `Err(BlockUnreadable)`.
  It is not a silent stop.
- `data_write` slices `data[i*16:(i+1)*16]` with `i` starting at
  `startpos`. It therefore skips the first `16 * startpos` bytes of the
  payload.
- The `elif` chain of `data_write` never checks `startpos` for a `str`
  payload.

These two `data_write` quirks are modelled as written, and lemmas exhibit
them.

## Model

| member | source | states |
|---|---|---|
| Bytes.Zeros | nfc_tools.py:100 | `b'\x00' * n` has exactly n bytes |
| Bytes.ZerosAt | nfc_tools.py:100 | every byte of `b'\x00' * n` is zero |
| Bytes.PadBlock | nfc_tools.py:85-86 | padding data of at most 16 bytes always gives a whole 16-byte block |
| Bytes.PadBlockContents | nfc_tools.py:85-86 | the padded block starts with the original data and is zero from its end to byte 16 |
| Bytes.PadFullBlock | nfc_tools.py:83-86 | data of exactly 16 bytes is written unchanged |
| Bytes.SliceBound | nfc_tools.py:125 | a Python slice bound lands inside the sequence: in-range bounds stay, negative ones count from the end, and out-of-range ones are clamped, to the length when too large and to 0 when too negative |
| Bytes.Slice | nfc_tools.py:125 | a Python slice is never longer than the sequence, nor than `hi - lo` |
| Bytes.SliceNonNegative | nfc_tools.py:167 | with non-negative bounds a Python slice is the sub-sequence clamped at the end, at most `hi - lo` long |
| Bytes.At | nfc_tools.py:167 | Python indexing succeeds exactly for `-len <= i < len`, and non-negative indices give that element |
| Bytes.Utf8Char | nfc_tools.py:154 | one character encodes to 1 to 4 bytes, and to one byte, its own code, exactly when it is ASCII |
| Bytes.Utf8 | nfc_tools.py:154 | a string's UTF-8 encoding has at least as many bytes as it has characters |
| Bytes.Utf8Ascii | nfc_tools.py:154 | an ASCII string encodes to one byte per character, equal to its code |
| BlockStore.Reader.constructor | nfc_tools.py:54-57 | the reader holds the given 64 blocks, authentication predicate and failing blocks |
| BlockStore.Reader.Authenticate | nfc_tools.py:69 | the driver's `auth` answers by the authentication predicate on (mode, block, key, uid) |
| BlockStore.Reader.MifareRead | nfc_tools.py:106 | the driver's read returns the block's contents unless the block is outside the card or its read fails |
| BlockStore.Reader.MifareWrite | nfc_tools.py:91 | the driver's write succeeds exactly for a block on the card whose writes are not refused; it then replaces only that block, otherwise nothing changes |
| BlockStore.Authenticates | nfc_tools.py:69-70 | the driver's `auth(mode, blockaddr, key, uid)` returns OK; a parameter of the model, characterised by `Reader.Authenticate` |
| BlockStore.Reply | nfc_tools.py:106-107 | the driver's read answer; its behaviour is stated by `Reader.MifareRead` |
| BlockStore.Writable | nfc_tools.py:91-92 | the driver's write returns OK; its behaviour is stated by `Reader.MifareWrite` |
| BlockStore.StoreOk | nfc_tools.py:88-94 | a write gets through: authentication and then the write return OK; `StoreOutcome` states that a write happens exactly then |
| BlockStore.ReadOutcome | nfc_tools.py:102-117 | `_read_block` yields a block only as a whole 16-byte block that is the block's current contents |
| BlockStore.StoreOutcome | nfc_tools.py:88-97 | authenticate-then-write succeeds exactly when authentication and write both get through; only then is that block replaced, otherwise memory is unchanged |
| BlockStore.ReadPrefix | nfc_tools.py:128-136 | the read loop of `read_blocks` / `read_all`; its own contract is only the bound of at most one block per address, and `ReadPrefixLongest` characterises it |
| BlockStore.ReadPrefixLongest | nfc_tools.py:128-136 | the read loop returns the longest prefix of the addresses that read: each block is what its address reads, and the next address does not read |
| BlockStore.ReadPrefixStep | nfc_tools.py:131-135 | one turn of the read loop: a failing read ends the loop with what was read so far, a successful one appends the block and continues |
| BlockStore.ReadPrefixBlocks | nfc_tools.py:128-136 | every block the read loop returns is 16 bytes long |
| BlockStore.StoreAll | nfc_tools.py:146-149 | the write loop of `data_clear` / `clear_all_data` / the chunk loop; its own contract is only that the card keeps its number of blocks, and `StoreAllOutcome` and `StoreAllEffect` characterise it |
| BlockStore.FirstRejected | nfc_tools.py:146-149 | the first write that would fail is inside the plan and is indeed refused |
| BlockStore.FirstRejectedAccepts | nfc_tools.py:146-149 | every write before the first refused one gets through |
| BlockStore.Applied | nfc_tools.py:146-149 | the memory after a list of writes, an independent reference for the loop; its own contract is only the block count, and `AppliedAt` gives its contents |
| BlockStore.StoreAllOutcome | nfc_tools.py:146-149 | a write loop performs exactly the writes before the first refused one, and succeeds exactly when none is refused |
| BlockStore.StoreAllSucceeds | nfc_tools.py:146-149 | a write loop returns True exactly when no write is refused |
| BlockStore.AppliedAt | nfc_tools.py:146-149 | after writes to distinct blocks each written block holds its data and every other block keeps its contents |
| BlockStore.StoreAllEffect | nfc_tools.py:146-149 | a write loop over distinct blocks: each write before the first refusal leaves its data in place, no other block changes, and it succeeds exactly when nothing is refused |
| BlockStore.StoreAllWritten | nfc_tools.py:146-149 | each write before the first refusal leaves its data in its block at the end |
| BlockStore.ZeroPlan | nfc_tools.py:146-147 | the writes `_clear_block` makes for a list of blocks; its own contract is only one write per address, and `ZeroPlanAt` gives each write |
| BlockStore.ZeroPlanAt | nfc_tools.py:146-147 | the i-th planned clear writes sixteen zeros to the i-th address |
| BlockStore.ZeroPlanDistinct | nfc_tools.py:146-147 | clearing distinct addresses plans writes to distinct blocks |
| BlockStore.ZeroFillOutcome | nfc_tools.py:144-149 | clearing distinct blocks succeeds exactly when every write gets through; the blocks before the first failure are zero, all others keep their contents |
| BlockStore.ZeroFillOk | nfc_tools.py:144-149 | clearing distinct blocks returns True exactly when every block takes the write |
| BlockStore.ZeroFillZeroed | nfc_tools.py:144-149 | every block cleared before the first failure ends up all zeros |
| BlockStore.ZeroFillKeeps | nfc_tools.py:144-149 | a block not cleared before the first failure keeps its contents |
| BlockStore.Splice | nfc_tools.py:125 | `olddata[:pos] + list(data) + olddata[pos + len(data):]` with Python slices, shared with nfc.py:83; `SpliceAt` states its contents |
| BlockStore.SpliceAt | nfc_tools.py:125 | `old[:pos] + data + old[pos+len:]` on a whole block is 16 bytes, carries the data at [pos, pos+len), and keeps every other byte |
| NfcTools.NewKey | nfc_tools.py:17-25 | a key is constructed exactly when it is six values in 0..255 and mode A or B; wrong bytes raise the length error (checked first), otherwise a wrong mode raises the mode error |
| NfcTools.NewKeyAcceptsValid | nfc_tools.py:17-25 | construction accepts exactly the valid keys and returns them unchanged |
| NfcTools.DefaultKeyConstructed | nfc_tools.py:27-29 | `Key.default()` is the constructed key of six 0xFF bytes with mode A, and is valid |
| NfcTools.DataBlocks | nfc_tools.py:35-52 | there are 47 data blocks |
| NfcTools.DataBlocksListed | nfc_tools.py:35-52 | the formula for the data blocks gives exactly the list the source spells out |
| NfcTools.DataBlockAtIncreasing | nfc_tools.py:35-52 | the data blocks are strictly increasing |
| NfcTools.DataBlockEntry | nfc_tools.py:35-52 | every listed block is below 64, not block 0 and not a sector trailer |
| NfcTools.DataBlockCovered | nfc_tools.py:35-52 | every block that is neither block 0 nor a sector trailer is in the list |
| NfcTools.DataBlockMember | nfc_tools.py:35-52 | a block is in the list exactly when it is neither block 0 nor a sector trailer |
| NfcTools.DataBlocksDistinct | nfc_tools.py:35-52 | no block is listed twice |
| NfcTools.DataBlocksLayout | nfc_tools.py:35-52 | 47 strictly increasing addresses, exactly the blocks below 64 other than block 0 and the sector trailers (`a % 4 == 3`) |
| NfcTools.Creds | nfc_tools.py:63-69 | the arguments of `rdr.auth`: the given key's mode and bytes, or those of `Key.default()` when no key is given; `NFCTag.AuthenticateBlock` states it |
| NfcTools.WriteOutcome | nfc_tools.py:79-97 | `_write_block` on a memory snapshot; `WriteBlockEffect` states its result and effect |
| NfcTools.WriteBlockEffect | nfc_tools.py:79-97 | `_write_block` raises exactly for an unforced block outside the list or data over 16 bytes, and then writes nothing; it returns True exactly when authentication and write get through; only then does the block change, to the data followed by zeros; no other block changes |
| NfcTools.OverrideAsWritten | nfc_tools.py:119-126 | `_override_block` as written, with the TypeError of `bytes + list` when the old block does not read; `OverrideAsWrittenRaises` states the failure |
| NfcTools.OverrideOutcome | nfc_tools.py:119-126 | the intended `_override_block`, an unreadable block counting as sixteen zeros; `OverrideEffect` states its result and effect |
| NfcTools.OverrideEffect | nfc_tools.py:119-126 | `_override_block` rejects `pos + len > 16` with no write; otherwise it succeeds exactly when the write gets through, and only that block changes, to 16 bytes holding the data at [pos, pos+len) and the old block elsewhere; this is the intended `_override_block`, in which a block that does not read counts as zeros (the code as written raises there, see Findings) |
| NfcTools.OverrideAsWrittenRaises | nfc_tools.py:123-125 | for a fitting splice into a block that does not read but can be written, the code as written raises TypeError, while the intended behaviour writes the data over zeros |
| NfcTools.BlocksRequired | nfc_tools.py:160 | `ceil(n / 16)` is the fewest 16-byte blocks that hold n bytes |
| NfcTools.DataWriteChecks | nfc_tools.py:153-164 | the type, startpos and capacity checks of `data_write`, in source order; `DataWriteChecksCases` states each case |
| NfcTools.DataWriteOutcome | nfc_tools.py:151-169 | `data_write` on a memory snapshot; `DataWriteFromStart`, `DataWriteTooLong` and the quirk lemmas state its result and effect |
| NfcTools.DataWriteAfterChecks | nfc_tools.py:160-169 | the part of `data_write` after the checks; `AfterChecksTooLong` and `AcceptedIsChunkLoop` state it |
| NfcTools.ChunkStep | nfc_tools.py:167-168 | one turn of the chunk loop: `_write_block(DATA_BLOCKS[i], data[i*16:(i+1)*16], key)`, IndexError outside the list; `ChunkLoopTurn` and `ChunkLoopIsStoreAll` state it |
| NfcTools.DataWriteChecksCases | nfc_tools.py:153-164 | any other value than `str` or `bytes` is refused; `bytes` with a startpos outside 0..46 is refused; otherwise, `str` with any startpos included, the payload is accepted exactly when it fits in the blocks from startpos on, and is too long otherwise |
| NfcTools.Chunk | nfc_tools.py:167 | a chunk `data[i*16:(i+1)*16]` is at most 16 bytes |
| NfcTools.ChunkIsSlice | nfc_tools.py:167 | the chunk is exactly Python's slice `data[i*16:(i+1)*16]`, including negative indices |
| NfcTools.ChunkLoop | nfc_tools.py:166-169 | the chunk loop never changes the number of blocks |
| NfcTools.ChunkTurn | nfc_tools.py:166-169 | one turn of the chunk loop and the rest of it never change the number of blocks |
| NfcTools.ChunkLoopTurn | nfc_tools.py:166-169 | a turn of the loop either ends it with a failed or raising write, or the rest of the loop runs on the new memory |
| NfcTools.AcceptedIsChunkLoop | nfc_tools.py:160-169 | an accepted payload goes through the loop over `ceil(len/16)` indices from startpos on |
| NfcTools.ChunkPlan | nfc_tools.py:166-167 | the loop over [i, hi) plans one write per index |
| NfcTools.ChunkLoopIsStoreAll | nfc_tools.py:166-169 | inside the list the chunk loop is the sequence of its planned writes, stopping at the first failure |
| NfcTools.ChunkLoopNeverTooLong | nfc_tools.py:166-169 | the chunk loop itself never raises "Data too long" |
| NfcTools.DataWriteTooLong | nfc_tools.py:160-164 | `data_write` raises "Data too long" exactly when the checks refuse the payload for length; a refused payload writes nothing |
| NfcTools.AfterChecksTooLong | nfc_tools.py:160-169 | after the checks only a refused payload raises, with the error of the checks, and nothing is written |
| NfcTools.ChunkPlanStops | nfc_tools.py:166-169 | the planned writes succeed exactly up to the first data block that refuses its write, and the loop is True exactly when no block refuses |
| NfcTools.ChunkPlanWrites | nfc_tools.py:166-167 | every block written before the first failure holds its zero-padded chunk |
| NfcTools.ChunkPlanWritten | nfc_tools.py:166-167 | block `DATA_BLOCKS[j]` before the first failure ends up holding `data[16j:16j+16]` zero-padded |
| NfcTools.ChunkPlanKeeps | nfc_tools.py:166-169 | blocks the loop did not reach keep their contents |
| NfcTools.ChunkLoopLayout | nfc_tools.py:166-169 | for a non-negative start, the loop over [lo, hi) writes `DATA_BLOCKS[j]` := chunk j padded, in order, stops at the first refused write, returns True exactly when none is refused, and changes no other block |
| NfcTools.DataWriteFromStart | nfc_tools.py:151-169 | with startpos 0, an accepted payload puts `data[16j:16j+16]`, zero-padded, in `DATA_BLOCKS[j]` for j = 0, 1, ... in order, up to the first block that refuses; it returns True exactly when all `ceil(len/16)` writes get through; every other block keeps its contents |
| NfcTools.AcceptedFits | nfc_tools.py:160-164 | an accepted payload needs no more blocks than the list has from startpos on |
| NfcTools.DataWriteAccepted | nfc_tools.py:151-169 | `data_write` of an accepted payload is the chunk loop over its `ceil(len/16)` indices |
| NfcTools.ChunkInside | nfc_tools.py:160-167 | below `ceil(len/16)` every chunk starts inside the payload |
| NfcTools.ChunkPlanDistinct | nfc_tools.py:166-167 | the loop writes distinct blocks |
| NfcTools.DataWriteSkipsLeadingBytes | nfc_tools.py:166-167 | with startpos 1 a 16-byte payload is not written anywhere: `DATA_BLOCKS[1]` receives sixteen zeros |
| NfcTools.DataWriteTextSkipsStartposCheck | nfc_tools.py:153-158 | at startpos 47 an empty `str` is accepted and writes nothing, while empty `bytes` raise "Invalid startpos" |
| NfcTools.DataWriteTextWrapsAround | nfc_tools.py:153-167 | a `str` of 17 to 32 bytes at startpos -1 wraps round the list: `DATA_BLOCKS[-1]` receives `data[-16:0]`, empty and so zero-padded to sixteen zeros, then `DATA_BLOCKS[0]` receives `data[0:16]`, and nothing else changes |
| NfcTools.DataWriteTextNegativeStart | nfc_tools.py:153-167 | a `str` with startpos below -47 passes the checks and raises IndexError at the first `DATA_BLOCKS[i]`, before any write |
| NfcTools.ClearStep | nfc_tools.py:146-148 | clearing the i-th data block is the first write of the rest of the clear loop |
| NfcTools.DataClearOutcome | nfc_tools.py:144-149 | `data_clear` returns True exactly when every data block takes the write; then every data block is zero; block 0 and the sector trailers never change |
| NfcTools.DataClearZeroes | nfc_tools.py:144-149 | after a successful `data_clear` each data block is sixteen zeros |
| NfcTools.DataClearKeeps | nfc_tools.py:144-149 | `data_clear` never changes block 0 or a sector trailer |
| NfcTools.NFCTag.constructor | nfc_tools.py:54-57 | the tag keeps its reader and UID |
| NfcTools.NFCTag.AuthenticateBlock | nfc_tools.py:63-73 | authentication uses the given key, or `Key.default()` when none is given, with its mode |
| NfcTools.NFCTag.WriteBlock | nfc_tools.py:79-97 | the result and new card memory are those of `WriteOutcome` on the old memory (properties in `WriteBlockEffect`) |
| NfcTools.NFCTag.ClearBlock | nfc_tools.py:99-100 | clearing is writing sixteen zeros |
| NfcTools.NFCTag.ReadBlock | nfc_tools.py:102-117 | None exactly when authentication fails, the read fails or the answer is not 16 bytes; otherwise the block's 16 bytes |
| NfcTools.NFCTag.OverrideBlock | nfc_tools.py:119-126 | the result and new memory are those of the intended override on the old memory (properties in `OverrideEffect`) |
| NfcTools.NFCTag.ReadBlocks | nfc_tools.py:128-136 | returns the blocks of the longest prefix of the addresses that read, in order |
| NfcTools.NFCTag.DataRead | nfc_tools.py:138-142 | raises "Invalid startpos" exactly for a startpos outside 0..46; otherwise reads the data blocks from startpos on, up to the first that fails |
| NfcTools.NFCTag.DataClear | nfc_tools.py:144-149 | the result and new memory are those of clearing the data blocks in order (properties in `DataClearOutcome`) |
| NfcTools.NFCTag.CheckPayload | nfc_tools.py:153-164 | the checks of `data_write` decide as `DataWriteChecks` (cases in `DataWriteChecksCases`) |
| NfcTools.NFCTag.DataWrite | nfc_tools.py:151-169 | the result and new memory are those of `data_write` on the old memory (properties in `DataWriteFromStart`, `DataWriteTooLong` and the quirk lemmas) |
| NfcTools.NFCTag.WriteChecked | nfc_tools.py:160-169 | after the checks, a refused payload raises and an accepted one runs the loop |
| NfcTools.NFCTag.WriteChunk | nfc_tools.py:167-168 | one turn of the loop: a write of chunk i to `DATA_BLOCKS[i]`, or IndexError; a write that is not True ends the loop with that outcome |
| NfcTools.NFCTag.WriteChunks | nfc_tools.py:166-169 | the loop over `range(startpos, startpos + blocks_required)` stops at the first write that is not True |
| Nfc.DataBlocksAgree | nfc.py:17-18 | the list equals nfc_tools.py's element for element, has 47 entries, and is exactly the blocks other than block 0 and the sector trailers |
| Nfc.WriteOutcome | nfc.py:39-55 | `_write_block` of nfc.py on a memory snapshot; `Nfc.WriteBlockEffect` states its result and effect |
| Nfc.WriteBlockEffect | nfc.py:39-55 | with no guard on the address, `_write_block` returns True exactly when the data has at most 16 bytes and authentication and write get through; only then does the block change, to the data followed by zeros; otherwise nothing changes |
| Nfc.OverrideOutcome | nfc.py:74-84 | `_override_block` of nfc.py: False, the bare `return`, or the write of the splice; `Nfc.OverrideEffect` states it |
| Nfc.OverrideEffect | nfc.py:74-84 | `_override_block` returns False with no write when the data does not fit, and None with no write exactly when it fits but the old block does not read; it returns True exactly when the old block reads and the write gets through, and then only that block changes, to the old block with [start, start+len) replaced by the data |
| Nfc.ClearAllDataOutcome | nfc.py:96-100 | `clear_all_data` returns True exactly when every data block takes the write; then every data block is zero; block 0 and the sector trailers never change |
| Nfc.Range | nfc.py:89 | `range(lo, hi)`; `Nfc.RangeAt` states its entries |
| Nfc.RangeAt | nfc.py:89 | `range(lo, hi)` has `hi - lo` entries, entry i being `lo + i` |
| Nfc.AllBlocks | nfc.py:89 | `range(0, 64)` is the 64 addresses 0 to 63 in order |
| Nfc.ReadAllPrefix | nfc.py:86-94 | `read_all` returns blocks 0, 1, 2, ... in order, each as it reads, up to the first that does not read |
| Nfc.NFCTag.constructor | nfc.py:20-23 | the tag keeps its reader and UID |
| Nfc.NFCTag.AuthenticateBlock | nfc.py:29-33 | authentication asks the reader with key A and the given key |
| Nfc.NFCTag.WriteBlock | nfc.py:39-55 | the result and new memory are those of `Nfc.WriteOutcome` on the old memory (properties in `Nfc.WriteBlockEffect`) |
| Nfc.NFCTag.ClearBlock | nfc.py:57-58 | clearing writes sixteen zeros after authentication |
| Nfc.NFCTag.ReadBlock | nfc.py:60-72 | None exactly when authentication fails, the driver returns None or the answer is not 16 bytes; otherwise the block's 16 bytes |
| Nfc.NFCTag.OverrideBlock | nfc.py:74-84 | the result and new memory are those of `Nfc.OverrideOutcome` (properties in `Nfc.OverrideEffect`) |
| Nfc.NFCTag.ReadAll | nfc.py:86-94 | returns the longest prefix of blocks 0..63 that read, in order |
| Nfc.NFCTag.ReadBlocks | nfc.py:89-93 | the loop appends each block and stops at the first that does not read |
| Nfc.NFCTag.ClearAllData | nfc.py:96-100 | the result and new memory are those of clearing the data blocks in order (properties in `Nfc.ClearAllDataOutcome`) |
| Nfc.NFCTag.ClearBlocks | nfc.py:97-100 | the clear loop stops with False at the first block that cannot be cleared |
| Ndef.ParseRecord | ndef.py:9-16 | a record is read exactly when there are at least 5 bytes, with tnf = data[0], type = data[1:3], id = data[3:4] and payload_length = data[4]; the payload is data[5:5+payload_length], cut short at the end of the data, and whole when the data is long enough; record_length is 5 + payload_length in every case |
| Ndef.EncodeRecord | ndef.py:9-16 | an encoded record is its payload plus five header bytes |
| Ndef.ParseEncodeRecord | ndef.py:9-16 | reading back an encoded record, whatever follows it, gives the fields it was built from and its own length |
| Ndef.KeyA0 | ndef.py:34 | `KEYA0` is the valid key A0 A1 A2 A3 A4 A5 with mode A |
| Ndef.KeyA1 | ndef.py:35 | `KEYA1` is the valid key D3 F7 D3 F7 D3 F7 with mode A |
| Ndef.KeyB | ndef.py:36 | `KEYB` is the valid key of six 0xFF with mode B |
| Ndef.NdefEntries | ndef.py:43-45 | n directory entries alternate 0x03 0xE1, the NDEF application identifier of NXP AN10787 |
| Ndef.NdefEntriesSplit | ndef.py:43-45 | entries for a sectors followed by entries for b sectors are the entries for a + b sectors |
| Ndef.MadLayout | ndef.py:41-45 | block 1 is 0x14 0x01 followed by seven 03 E1 pairs, block 2 is eight pairs, each exactly 16 bytes; together they give the NDEF application to all fifteen sectors 1 to 15 |
| Ndef.FormatOutcome | ndef.py:41-45 | `format` on a memory snapshot: the two directory writes, their results ignored and an exception passed on; `FormatEffect` states it |
| Ndef.FormatEffect | ndef.py:41-45 | `format` never raises; each directory block holds its bytes exactly when its write gets through and is unchanged otherwise; no other block changes |
| Ndef.ReadUntilTerminator | ndef.py:52-61 | what `read` collects is whole blocks, at most one per address |
| Ndef.TerminatorIndex | ndef.py:58 | the position of the first block holding 0xFE: no earlier block holds it |
| Ndef.PrependLaws | ndef.py:57 | adding nothing changes nothing, and two additions in a row are one |
| Ndef.ReadExpected | ndef.py:52-61 | an independent reference for `read` over the blocks that read: up to and including the first block holding 0xFE, all of them when they all read, TypeError otherwise; `ReadUntilTerminatorExpected` connects it to the loop |
| Ndef.ReadExpectedCons | ndef.py:55-59 | the expected result for one more block: that block alone if it holds 0xFE, otherwise the block followed by the rest |
| Ndef.ReadUntilTerminatorExpected | ndef.py:52-61 | the read loop returns the expected result for the blocks that read in order |
| Ndef.ReadUntilTerminatorCharacterized | ndef.py:52-61 | `read` returns the blocks up to and including the first holding 0xFE, all of them when none holds it, and TypeError when a block cannot be read before that |
| Ndef.NdefTag.constructor | ndef.py:38-39 | the NDEF tag keeps its tag |
| Ndef.NdefTag.Format | ndef.py:41-45 | the result and new memory are those of `FormatOutcome` (properties in `FormatEffect`) |
| Ndef.NdefTag.Read | ndef.py:52-61 | the loop returns what `ReadUntilTerminator` specifies (characterised by `ReadUntilTerminatorCharacterized`) |
| NfcUtils.HexDigit | nfc_utils.py:2 | every produced digit is a lowercase hex digit |
| NfcUtils.DigitValue | nfc_utils.py:2 | a hex digit's value is in 0..15 |
| NfcUtils.DigitValueOf | nfc_utils.py:2 | a digit reads back as its value |
| NfcUtils.Digits | nfc_utils.py:2 | the numeral is one digit exactly for values below 16 |
| NfcUtils.DigitsAreHex | nfc_utils.py:2 | the numeral is lowercase hex digits only |
| NfcUtils.Int2Hex | nfc_utils.py:1-2 | `"{:02x}"` output always has at least two characters |
| NfcUtils.Int2HexShape | nfc_utils.py:1-2 | the text is hex digits, after a '-' for a negative number, and never holds ':' |
| NfcUtils.DigitsRoundTrip | nfc_utils.py:2 | the numeral reads back as base 16 to the number |
| NfcUtils.ParseHexLeadingZero | nfc_utils.py:2 | a leading zero does not change the value |
| NfcUtils.Int2HexRoundTrip | nfc_utils.py:1-2 | reading `int2hex(x)` back as base 16 gives x |
| NfcUtils.Int2HexByte | nfc_utils.py:1-2 | a byte becomes exactly two lowercase hex digits, its high and low nibble, zero-padded |
| NfcUtils.Int2HexInjective | nfc_utils.py:1-2 | different bytes never print alike |
| NfcUtils.HexParts | nfc_utils.py:5 | `map(int2hex, data)` has one part per number |
| NfcUtils.HexPartsCons | nfc_utils.py:5 | the parts of a non-empty list are the first number's text, then the parts of the rest |
| NfcUtils.Join | nfc_utils.py:5 | `":".join(parts)`; `List2HexCons` and `SplitAtColon` state how it unfolds and splits |
| NfcUtils.List2Hex | nfc_utils.py:4-5 | `list2hex(data)`; `List2HexColons`, `List2HexDigits` and `SplitList2Hex` state its shape and its round trip |
| NfcUtils.List2HexEmpty | nfc_utils.py:4-5 | `list2hex([])` is the empty string |
| NfcUtils.List2HexCons | nfc_utils.py:4-5 | for two or more numbers the text is the first one's text, ':', then the text of the rest |
| NfcUtils.List2HexColons | nfc_utils.py:4-5 | for n >= 1 bytes the text is 3n - 1 characters, with ':' exactly at positions 2, 5, 8, ... |
| NfcUtils.List2HexLength | nfc_utils.py:4-5 | for n >= 1 bytes the text is 3n - 1 characters |
| NfcUtils.List2HexColonAt | nfc_utils.py:4-5 | position p holds ':' exactly when p % 3 == 2 |
| NfcUtils.List2HexDigits | nfc_utils.py:4-5 | the i-th byte's two digits sit at positions 3i and 3i + 1 |
| NfcUtils.List2HexDigitAt | nfc_utils.py:4-5 | positions 3i and 3i + 1 hold `int2hex` of the i-th byte |
| NfcUtils.Split | nfc_utils.py:5 | splitting on ':' gives at least one piece |
| NfcUtils.SplitNoColon | nfc_utils.py:5 | a string without ':' splits into itself |
| NfcUtils.SplitAtColon | nfc_utils.py:5 | a colon-free head, a ':' and a tail split into the head followed by the tail's pieces |
| NfcUtils.SplitList2Hex | nfc_utils.py:4-5 | splitting `list2hex(xs)` on ':' gives back `map(int2hex, xs)` for every non-empty list |

## Left out

- The MFRC522 driver (`nfc_driver` / `mfrc_driver`) is not part of this model: request, anticollision, select, Crypto-1 and SPI. Its behaviour is reduced to `BlockStore.Reader`: a fixed authentication predicate and fixed sets of blocks that do not read or write. Transient failures and the driver's status codes other than OK are not distinguished.
- `NFCReader.get_tag` / `scan_for_tag` (nfc_tools.py:172-200, nfc.py:103-122): hardware polling and an unbounded busy loop.
- `_print_block`, `bytes2str`, `_list2str`, the `verbose` flags and every `print`: console output only. The messages are not modelled.
- `__str__` of `NFCTag` and `NDEFRecord`, and `tag_type`: display only.
- code.py: board pins, LED, sleeps and the keyboard-interrupt loop of the demo application.
- `NDEFMessage.parse_from_data` (ndef.py:28-30) is an empty stub. `Ndef.NdefTag.Read` returns the bytes that would be handed to it.
- `NDEFTag.clean` and `NDEFTag.write` (ndef.py:47-50, 63-64): they pass a `blocks=` keyword that `data_write` and `data_clear` do not accept.
- `MAIN_DATA_BLOCKS` (ndef.py:49, 55, 64): `NFCTag` does not define it. `read` takes its block list as a parameter.
- `_authenticate_block`'s ValueError for a key that is not a `Key` (nfc_tools.py:66-67): keys are typed `Option<Key>`, so the error cannot arise.
- `Key.__init__`'s `list(key)` conversion: a key is always given as a sequence of integers.
- A `str` is modelled as a sequence of Unicode scalar values, so the UnicodeEncodeError that `data.encode('utf-8')` (nfc_tools.py:154) raises for a string holding a lone surrogate is not modelled.
- Python's dynamic types beyond what the model names are not modelled: data that is neither a sequence of bytes nor a list of ints, non-integer positions, and `bytes` versus `list` results. The one exception is the `bytes + list` error of the finding below.
- `math.ceil(len(data) / 16)` is modelled as the integer ceiling. Float rounding for lengths beyond 2^53 is not modelled.
- Nfc.OverrideEffect: states the splice only for a non-negative `start`. A negative start follows Python slicing in `Nfc.OverrideOutcome`, but no lemma describes the result.
- NfcTools.OverrideEffect: states the splice only for a non-negative `pos`, for the same reason.
- NfcTools.DataWriteFromStart: states the block layout only for `startpos = 0`. For other non-negative starts, `NfcTools.ChunkLoopLayout` gives the loop's layout and `NfcTools.DataWriteSkipsLeadingBytes` the skipped bytes. For a negative start, which only a `str` payload reaches, `NfcTools.ChunkLoopLayout` does not apply. No lemma gives the general layout; `NfcTools.DataWriteTextWrapsAround` shows the wrap-around at startpos -1, and `NfcTools.DataWriteTextNegativeStart` the IndexError below -47.
- Bytes.PadBlock: its own contract gives only the length. The prefix and zero-tail facts are in `Bytes.PadBlockContents`.
- In-place padding and default arguments: `data += b'\x00' * (16 - len(data))` (nfc_tools.py:86, nfc.py:44) extends a list argument in place, so a caller's list grows. The model works on values and does not capture that aliasing. Default arguments become explicit parameters: the default key of every nfc.py method, `read_blocks(addresses=range(0x00, 0x40))`, `format(key=KEYB)` and `read(key=KEYA1)`.
- Concurrency: there is none in the source.

## Findings

| source | as written | input that shows it | evidently intended | confidence | as-written member | corrected member |
|---|---|---|---|---|---|---|
| nfc_tools.py:123-125 | `olddata = self._read_block(...) or b'\x00' * 16` falls back to a `bytes` object. `olddata[:pos] + list(data) + ...` then adds a list to it, which raises TypeError whenever the old block cannot be read. | Any fitting `data` and `pos` on a block that authenticates and can be written but whose read fails or is not 16 bytes long: the call raises instead of writing. `NfcTools.OverrideAsWrittenRaises` states the outcomes. | An unreadable block counts as sixteen zero bytes, the data is spliced into them, and the block is written. | not executed | NfcTools.OverrideAsWritten | NfcTools.OverrideOutcome |
