/** The MFRC522 reader with a Mifare Classic 1K card in its field, reduced to an
    abstract block store: 64 blocks, an authentication predicate over
    (mode, block, key, uid), and the blocks whose reads or writes the card
    refuses. Both tag layers (nfc_tools.py and its older variant nfc.py) talk
    to the card only through it, so the block-level behaviour they share is
    specified here once, on a snapshot of the memory. */
module BlockStore {
  import opened Bytes

  /** Number of blocks of a Mifare Classic 1K card. */
  const BLOCK_COUNT: nat := 64

  /** The driver's authentication commands (MFRC522.AUTHENT1A / AUTHENT1B),
      the Mifare Classic "authenticate with key A / key B" command codes. */
  const AUTHENT1A: int := 0x60
  const AUTHENT1B: int := 0x61

  /** A snapshot of the card's memory, one entry per block. An entry is what the
      card answers to a read, so it need not be 16 bytes long. */
  type Memory = seq<seq<Byte>>

  /** The arguments a tag passes to the driver's `auth`. */
  datatype Credentials = Credentials(mode: int, key: seq<int>, uid: seq<Byte>)

  class Reader {
    const mem: array<seq<Byte>>
    const accepts: (int, int, seq<int>, seq<Byte>) -> bool
    const readFails: set<int>
    const writeFails: set<int>

    constructor (contents: Memory, accepts: (int, int, seq<int>, seq<Byte>) -> bool,
                 readFails: set<int>, writeFails: set<int>)
      requires |contents| == BLOCK_COUNT
      ensures fresh(mem) && mem[..] == contents
      ensures this.accepts == accepts && this.readFails == readFails && this.writeFails == writeFails
    {
      mem := new seq<Byte>[BLOCK_COUNT](i requires 0 <= i < BLOCK_COUNT => contents[i]);
      this.accepts := accepts;
      this.readFails := readFails;
      this.writeFails := writeFails;
    }

    /** `rdr.auth(mode, blockaddr, key, uid) == MFRC522.OK` */
    method Authenticate(c: Credentials, addr: int) returns (ok: bool)
      ensures ok == Authenticates(this, c, addr)
    {
      ok := accepts(c.mode, addr, c.key, c.uid);
    }

    /** `rdr.mifare_read(blockaddr)` (nfc_tools.py) / `rdr.read(blockaddr)` (nfc.py). */
    method MifareRead(addr: int) returns (reply: Option<seq<Byte>>)
      ensures reply == Reply(this, mem[..], addr)
    {
      if 0 <= addr < mem.Length && addr !in readFails {
        reply := Some(mem[addr]);
      } else {
        reply := None;
      }
    }

    /** `rdr.mifare_write(blockaddr, data)` (nfc_tools.py) / `rdr.write(blockaddr, data)` (nfc.py). */
    method MifareWrite(addr: int, data: seq<Byte>) returns (ok: bool)
      modifies mem
      ensures ok == Writable(this, |old(mem[..])|, addr)
      ensures mem[..] == if ok then old(mem[..])[addr := data] else old(mem[..])
    {
      ok := 0 <= addr < mem.Length && addr !in writeFails;
      if ok {
        mem[addr] := data;
      }
    }
  }

  predicate Authenticates(rdr: Reader, c: Credentials, addr: int) {
    rdr.accepts(c.mode, addr, c.key, c.uid)
  }

  /** What the card answers to a read of `addr`, `None` for a failed read. */
  function Reply(rdr: Reader, m: Memory, addr: int): Option<seq<Byte>> {
    if 0 <= addr < |m| && addr !in rdr.readFails then Some(m[addr]) else None
  }

  /** The card accepts a write to `addr` (the memory has `n` blocks). */
  predicate Writable(rdr: Reader, n: nat, addr: int) {
    0 <= addr < n && addr !in rdr.writeFails
  }

  /** A write of `addr` gets through: authentication and then the write succeed. */
  predicate StoreOk(rdr: Reader, n: nat, addr: int, c: Credentials) {
    Authenticates(rdr, c, addr) && Writable(rdr, n, addr)
  }

  /** `_read_block` of both variants: authenticate, read, and keep the answer
      only when it is a whole block. */
  function ReadOutcome(rdr: Reader, m: Memory, addr: int, c: Credentials): (r: Option<seq<Byte>>)
    ensures r.Some? ==> |r.value| == BLOCK_SIZE && 0 <= addr < |m| && r.value == m[addr]
  {
    if !Authenticates(rdr, c, addr) then None
    else match Reply(rdr, m, addr)
      case None => None
      case Some(data) => if |data| != BLOCK_SIZE then None else Some(data)
  }

  /** The authenticate-then-write step of `_write_block` of both variants, for a
      block that is already padded: the memory is touched only after the
      authentication succeeded. */
  function StoreOutcome(rdr: Reader, m: Memory, addr: int, block: seq<Byte>, c: Credentials): (r: (bool, Memory))
    ensures r.0 == StoreOk(rdr, |m|, addr, c)
    ensures r.1 == if r.0 then m[addr := block] else m
  {
    if !Authenticates(rdr, c, addr) then (false, m)
    else if !Writable(rdr, |m|, addr) then (false, m)
    else (true, m[addr := block])
  }

  /** `read_blocks` / `read_all`: read the addresses in order, stopping at the
      first block that cannot be read. The result is the longest prefix of
      `addrs` whose blocks all read, and those blocks in order. */
  function ReadPrefix(rdr: Reader, m: Memory, addrs: seq<int>, c: Credentials): (r: seq<seq<Byte>>)
    ensures |r| <= |addrs|
    decreases |addrs|
  {
    if addrs == [] then []
    else match ReadOutcome(rdr, m, addrs[0], c)
      case None => []
      case Some(block) => [block] + ReadPrefix(rdr, m, addrs[1..], c)
  }

  /** `ReadPrefix` is the longest prefix of `addrs` whose blocks all read:
      each of its blocks is what its address reads, and the next address, if
      there is one, does not read. */
  lemma {:induction false} ReadPrefixLongest(rdr: Reader, m: Memory, addrs: seq<int>, c: Credentials)
    ensures var r := ReadPrefix(rdr, m, addrs, c);
            && (forall i :: 0 <= i < |r| ==> ReadOutcome(rdr, m, addrs[i], c) == Some(r[i]))
            && (|r| < |addrs| ==> ReadOutcome(rdr, m, addrs[|r|], c).None?)
    decreases |addrs|
  {
    if addrs != [] {
      match ReadOutcome(rdr, m, addrs[0], c)
      case None =>
      case Some(block) =>
        var rest := ReadPrefix(rdr, m, addrs[1..], c);
        ReadPrefixLongest(rdr, m, addrs[1..], c);
        var r := ReadPrefix(rdr, m, addrs, c);
        assert r == [block] + rest;
        forall i | 1 <= i < |r| ensures ReadOutcome(rdr, m, addrs[i], c) == Some(r[i]) {
          assert addrs[1..][i - 1] == addrs[i];
        }
        if |r| < |addrs| {
          assert addrs[1..][|rest|] == addrs[|r|];
        }
    }
  }

  /** One step of the reading loop: with `data` read from `addrs[..i]`, a
      failed read at `addrs[i]` ends the result at `data`, and a good one
      extends `data` by that block. */
  lemma ReadPrefixStep(rdr: Reader, m: Memory, addrs: seq<int>, i: int, data: seq<seq<Byte>>, c: Credentials)
    requires 0 <= i < |addrs|
    requires data + ReadPrefix(rdr, m, addrs[i..], c) == ReadPrefix(rdr, m, addrs, c)
    ensures ReadOutcome(rdr, m, addrs[i], c).None? ==> data == ReadPrefix(rdr, m, addrs, c)
    ensures ReadOutcome(rdr, m, addrs[i], c).Some? ==>
              (data + [ReadOutcome(rdr, m, addrs[i], c).value]) + ReadPrefix(rdr, m, addrs[i + 1..], c) == ReadPrefix(rdr, m, addrs, c)
  {
    var tail := addrs[i..];
    assert tail[0] == addrs[i] && tail[1..] == addrs[i + 1..];
    match ReadOutcome(rdr, m, addrs[i], c)
    case None =>
      assert ReadPrefix(rdr, m, tail, c) == [];
      assert data + [] == data;
    case Some(block) =>
      var rest := ReadPrefix(rdr, m, addrs[i + 1..], c);
      assert ReadPrefix(rdr, m, tail, c) == [block] + rest;
      assert (data + [block]) + rest == data + ([block] + rest);
  }

  /** Every block read by `ReadPrefix` is a whole block. */
  lemma ReadPrefixBlocks(rdr: Reader, m: Memory, addrs: seq<int>, c: Credentials)
    ensures forall i :: 0 <= i < |ReadPrefix(rdr, m, addrs, c)| ==> |ReadPrefix(rdr, m, addrs, c)[i]| == BLOCK_SIZE
  {
    var r := ReadPrefix(rdr, m, addrs, c);
    ReadPrefixLongest(rdr, m, addrs, c);
    forall i | 0 <= i < |r| ensures |r[i]| == BLOCK_SIZE {
      assert ReadOutcome(rdr, m, addrs[i], c) == Some(r[i]);
    }
  }

  /** A planned write: an address and the full block to store there. */
  type Plan = seq<(int, seq<Byte>)>

  /** Carry out the writes of `plan` in order, stopping with `false` at the
      first one that does not get through (the loops of `data_clear`,
      `clear_all_data` and the chunk loop of `data_write`). */
  function StoreAll(rdr: Reader, m: Memory, plan: Plan, c: Credentials): (r: (bool, Memory))
    ensures |r.1| == |m|
    decreases |plan|
  {
    if plan == [] then (true, m)
    else
      var (ok, m1) := StoreOutcome(rdr, m, plan[0].0, plan[0].1, c);
      if !ok then (false, m1) else StoreAll(rdr, m1, plan[1..], c)
  }

  /** The index of the first planned write that does not get through, or the
      length of the plan when all of them do. */
  function FirstRejected(rdr: Reader, n: nat, plan: Plan, c: Credentials): (k: nat)
    ensures k <= |plan|
    ensures k < |plan| ==> !StoreOk(rdr, n, plan[k].0, c)
    decreases |plan|
  {
    if plan == [] || !StoreOk(rdr, n, plan[0].0, c) then 0
    else 1 + FirstRejected(rdr, n, plan[1..], c)
  }

  /** Every planned write before the first rejected one gets through. */
  lemma {:induction false} FirstRejectedAccepts(rdr: Reader, n: nat, plan: Plan, c: Credentials)
    ensures forall i :: 0 <= i < FirstRejected(rdr, n, plan, c) ==> StoreOk(rdr, n, plan[i].0, c)
    decreases |plan|
  {
    if plan != [] && StoreOk(rdr, n, plan[0].0, c) {
      FirstRejectedAccepts(rdr, n, plan[1..], c);
      forall i | 1 <= i < FirstRejected(rdr, n, plan, c) ensures StoreOk(rdr, n, plan[i].0, c) {
        assert plan[1..][i - 1] == plan[i];
      }
    }
  }

  /** The memory after the writes of `plan` (all of them in range). */
  function Applied(m: Memory, plan: Plan): (r: Memory)
    ensures |r| == |m|
    decreases |plan|
  {
    if plan == [] then m
    else if 0 <= plan[0].0 < |m| then Applied(m[plan[0].0 := plan[0].1], plan[1..])
    else Applied(m, plan[1..])
  }

  /** `StoreAll` performs exactly the writes before the first rejected one, and
      reports success exactly when none is rejected. */
  lemma {:induction false} StoreAllOutcome(rdr: Reader, m: Memory, plan: Plan, c: Credentials)
    ensures StoreAll(rdr, m, plan, c)
         == (FirstRejected(rdr, |m|, plan, c) == |plan|, Applied(m, plan[..FirstRejected(rdr, |m|, plan, c)]))
    decreases |plan|
  {
    if plan != [] {
      var (ok, m1) := StoreOutcome(rdr, m, plan[0].0, plan[0].1, c);
      if ok {
        StoreAllOutcome(rdr, m1, plan[1..], c);
        var k := FirstRejected(rdr, |m|, plan[1..], c);
        assert plan[..1 + k][1..] == plan[1..][..k];
      }
    }
  }

  /** A plan succeeds exactly when none of its writes is rejected. */
  lemma {:induction false} StoreAllSucceeds(rdr: Reader, m: Memory, plan: Plan, c: Credentials)
    ensures StoreAll(rdr, m, plan, c).0 <==> FirstRejected(rdr, |m|, plan, c) == |plan|
    decreases |plan|
  {
    if plan != [] {
      var (ok, m1) := StoreOutcome(rdr, m, plan[0].0, plan[0].1, c);
      if ok {
        StoreAllSucceeds(rdr, m1, plan[1..], c);
      }
    }
  }

  /** Addresses of a plan are pairwise distinct. */
  predicate DistinctTargets(plan: Plan) {
    forall i, j :: 0 <= i < j < |plan| ==> plan[i].0 != plan[j].0
  }

  predicate Targets(plan: Plan, a: int) {
    exists j :: 0 <= j < |plan| && plan[j].0 == a
  }

  /** After a plan of distinct addresses every targeted block holds its planned
      block, and every other block is unchanged. */
  lemma {:induction false} AppliedAt(m: Memory, plan: Plan)
    requires DistinctTargets(plan)
    ensures forall j :: 0 <= j < |plan| && 0 <= plan[j].0 < |m| ==> Applied(m, plan)[plan[j].0] == plan[j].1
    ensures forall a :: 0 <= a < |m| && !Targets(plan, a) ==> Applied(m, plan)[a] == m[a]
    decreases |plan|
  {
    if plan != [] {
      var m1 := if 0 <= plan[0].0 < |m| then m[plan[0].0 := plan[0].1] else m;
      assert Applied(m, plan) == Applied(m1, plan[1..]);
      AppliedAt(m1, plan[1..]);
      forall a | 0 <= a < |m| && !Targets(plan, a) ensures Applied(m, plan)[a] == m[a] {
        assert plan[0].0 != a;
      }
      forall j | 0 <= j < |plan| && 0 <= plan[j].0 < |m| ensures Applied(m, plan)[plan[j].0] == plan[j].1 {
        if j > 0 {
          assert plan[1..][j - 1] == plan[j];
        }
      }
    }
  }

  /** The effect of a plan of distinct addresses: exactly the writes before the
      first rejected one happen, each leaving its block in place, and every
      block those writes do not target keeps its contents. */
  lemma StoreAllEffect(rdr: Reader, m: Memory, plan: Plan, c: Credentials)
    requires DistinctTargets(plan)
    ensures var k := FirstRejected(rdr, |m|, plan, c);
            var (ok, m') := StoreAll(rdr, m, plan, c);
            && (ok <==> k == |plan|)
            && (forall j :: 0 <= j < k ==> 0 <= plan[j].0 < |m| && m'[plan[j].0] == plan[j].1)
            && (forall a :: 0 <= a < |m| && !Targets(plan[..k], a) ==> m'[a] == m[a])
  {
    var k := FirstRejected(rdr, |m|, plan, c);
    StoreAllOutcome(rdr, m, plan, c);
    FirstRejectedAccepts(rdr, |m|, plan, c);
    var done := plan[..k];
    assert DistinctTargets(done);
    AppliedAt(m, done);
    forall j | 0 <= j < k ensures 0 <= plan[j].0 < |m| && StoreAll(rdr, m, plan, c).1[plan[j].0] == plan[j].1 {
      assert done[j] == plan[j];
    }
  }

  /** One write of `StoreAllEffect`: the `j`-th planned block, for `j` before
      the first rejected write. */
  lemma StoreAllWritten(rdr: Reader, m: Memory, plan: Plan, c: Credentials, j: int)
    requires DistinctTargets(plan)
    requires 0 <= j < FirstRejected(rdr, |m|, plan, c)
    ensures 0 <= plan[j].0 < |m| && StoreAll(rdr, m, plan, c).1[plan[j].0] == plan[j].1
  {
    StoreAllEffect(rdr, m, plan, c);
  }

  /** The plan of `data_clear` / `clear_all_data`: sixteen zero bytes to each address. */
  function ZeroPlan(addrs: seq<int>): (p: Plan)
    ensures |p| == |addrs|
    decreases |addrs|
  {
    if addrs == [] then [] else [(addrs[0], Zeros(BLOCK_SIZE))] + ZeroPlan(addrs[1..])
  }

  /** The `i`-th write of the plan zeroes the `i`-th address. */
  lemma {:induction false} ZeroPlanAt(addrs: seq<int>, i: int)
    requires 0 <= i < |addrs|
    ensures ZeroPlan(addrs)[i] == (addrs[i], Zeros(BLOCK_SIZE))
    decreases i
  {
    if i > 0 {
      ZeroPlanAt(addrs[1..], i - 1);
      assert addrs[1..][i - 1] == addrs[i];
    }
  }

  lemma ZeroPlanDistinct(addrs: seq<int>)
    requires forall i, j :: 0 <= i < j < |addrs| ==> addrs[i] != addrs[j]
    ensures DistinctTargets(ZeroPlan(addrs))
  {
    forall i, j | 0 <= i < j < |addrs| ensures ZeroPlan(addrs)[i].0 != ZeroPlan(addrs)[j].0 {
      ZeroPlanAt(addrs, i);
      ZeroPlanAt(addrs, j);
    }
  }

  /** Zeroing a list of distinct addresses: it succeeds exactly when every write
      gets through; the blocks before the first rejected address are zero, all
      other blocks keep their contents. */
  lemma ZeroFillOutcome(rdr: Reader, m: Memory, addrs: seq<int>, c: Credentials)
    requires forall i, j :: 0 <= i < j < |addrs| ==> addrs[i] != addrs[j]
    ensures var k := FirstRejected(rdr, |m|, ZeroPlan(addrs), c);
            var (ok, m') := StoreAll(rdr, m, ZeroPlan(addrs), c);
            && (ok <==> forall i :: 0 <= i < |addrs| ==> StoreOk(rdr, |m|, addrs[i], c))
            && (forall i :: 0 <= i < k ==> 0 <= addrs[i] < |m| && m'[addrs[i]] == Zeros(BLOCK_SIZE))
            && (forall a :: 0 <= a < |m| && a !in addrs[..k] ==> m'[a] == m[a])
  {
    ZeroFillOk(rdr, m, addrs, c);
    var k := FirstRejected(rdr, |m|, ZeroPlan(addrs), c);
    var m' := StoreAll(rdr, m, ZeroPlan(addrs), c).1;
    forall i | 0 <= i < k ensures 0 <= addrs[i] < |m| && m'[addrs[i]] == Zeros(BLOCK_SIZE) {
      ZeroFillZeroed(rdr, m, addrs, c, i);
    }
    forall a | 0 <= a < |m| && a !in addrs[..k] ensures m'[a] == m[a] {
      ZeroFillKeeps(rdr, m, addrs, c, a);
    }
  }

  lemma ZeroFillOk(rdr: Reader, m: Memory, addrs: seq<int>, c: Credentials)
    requires forall i, j :: 0 <= i < j < |addrs| ==> addrs[i] != addrs[j]
    ensures StoreAll(rdr, m, ZeroPlan(addrs), c).0 <==> forall i :: 0 <= i < |addrs| ==> StoreOk(rdr, |m|, addrs[i], c)
  {
    var plan := ZeroPlan(addrs);
    var k := FirstRejected(rdr, |m|, plan, c);
    ZeroPlanDistinct(addrs);
    StoreAllOutcome(rdr, m, plan, c);
    if k < |plan| {
      ZeroPlanAt(addrs, k);
    } else {
      FirstRejectedAccepts(rdr, |m|, plan, c);
      forall i | 0 <= i < |addrs| ensures StoreOk(rdr, |m|, addrs[i], c) {
        ZeroPlanAt(addrs, i);
      }
    }
  }

  lemma ZeroFillZeroed(rdr: Reader, m: Memory, addrs: seq<int>, c: Credentials, i: int)
    requires forall i, j :: 0 <= i < j < |addrs| ==> addrs[i] != addrs[j]
    requires 0 <= i < FirstRejected(rdr, |m|, ZeroPlan(addrs), c)
    ensures 0 <= addrs[i] < |m| && StoreAll(rdr, m, ZeroPlan(addrs), c).1[addrs[i]] == Zeros(BLOCK_SIZE)
  {
    ZeroPlanDistinct(addrs);
    ZeroPlanAt(addrs, i);
    StoreAllWritten(rdr, m, ZeroPlan(addrs), c, i);
  }

  lemma ZeroFillKeeps(rdr: Reader, m: Memory, addrs: seq<int>, c: Credentials, a: int)
    requires forall i, j :: 0 <= i < j < |addrs| ==> addrs[i] != addrs[j]
    requires 0 <= a < |m| && a !in addrs[..FirstRejected(rdr, |m|, ZeroPlan(addrs), c)]
    ensures StoreAll(rdr, m, ZeroPlan(addrs), c).1[a] == m[a]
  {
    var plan := ZeroPlan(addrs);
    var k := FirstRejected(rdr, |m|, plan, c);
    ZeroPlanDistinct(addrs);
    StoreAllEffect(rdr, m, plan, c);
    forall j | 0 <= j < k ensures plan[..k][j].0 != a {
      ZeroPlanAt(addrs, j);
      assert addrs[..k][j] == addrs[j];
    }
    assert !Targets(plan[..k], a);
  }

  /** The splice of `_override_block` in both variants:
      `olddata[:pos] + list(data) + olddata[pos + len(data):]`. */
  function Splice(prior: seq<Byte>, data: seq<Byte>, pos: int): seq<Byte> {
    Slice(prior, 0, pos) + data + Slice(prior, pos + |data|, |prior|)
  }

  /** Splicing into a whole block at a non-negative position that fits keeps
      the block 16 bytes long, puts the data at [pos, pos + len), and leaves
      every other byte as it was. */
  lemma SpliceAt(prior: seq<Byte>, data: seq<Byte>, pos: int)
    requires |prior| == BLOCK_SIZE && 0 <= pos && pos + |data| <= BLOCK_SIZE
    ensures |Splice(prior, data, pos)| == BLOCK_SIZE
    ensures Splice(prior, data, pos)[pos..pos + |data|] == data
    ensures forall i :: 0 <= i < BLOCK_SIZE && !(pos <= i < pos + |data|) ==> Splice(prior, data, pos)[i] == prior[i]
  {
    var r := Splice(prior, data, pos);
    assert Slice(prior, 0, pos) == prior[..pos];
    assert Slice(prior, pos + |data|, |prior|) == prior[pos + |data|..];
    forall i | 0 <= i < BLOCK_SIZE && !(pos <= i < pos + |data|) ensures r[i] == prior[i] {
      if i >= pos + |data| {
        assert r[i] == prior[pos + |data|..][i - pos - |data|];
      }
    }
  }
}
