/**
  Loading, merging and sending the EEPROM image of the mt7996 driver.

  The firmware is a function from a request to its reply, so that reads are deterministic.
  `V0004` and `V0008` are the driver before and after the address bound was added.
 */
module Eeprom {
  import opened Wrappers

  const EEPROM_SIZE: nat := 7680
  const BLOCK_SIZE: nat := 16
  const EXT_BLOCK_SIZE: nat := 1024
  const PER_PAGE_SIZE: nat := 0x400
  const EINVAL: int := 22

  datatype Version = V0004 | V0008

  datatype Mode = DefaultBin | Efuse | Flash | Ext

  // err is the transport result; dataLen is only meaningful in Ext mode.
  datatype Reply = Reply(err: int, valid: bool, addr: u32, dataLen: u32, data: nat -> u8)

  // Fault stands for a copy that would leave the EEPROM buffer.
  datatype Outcome = Done(ret: int) | Fault

  datatype LoadResult = Aborted(ret: int) | Finished(useDefault: bool) | Crashed

  function BlockSize(mode: Mode): nat {
    if mode == Ext then EXT_BLOCK_SIZE else BLOCK_SIZE
  }

  function EffectiveLen(mode: Mode, bufLen: u32): nat {
    if bufLen == 0 || bufLen > BlockSize(mode) then BlockSize(mode) else bufLen
  }

  function CopyLen(mode: Mode, r: Reply, bufLen: u32): nat {
    var n := EffectiveLen(mode, bufLen);
    if mode == Ext && r.dataLen < n then r.dataLen else n
  }

  // What a reply that is not copied returns; 0 means that it is valid.
  function Code(r: Reply): int {
    if r.err != 0 then r.err else if r.valid then 0 else -EINVAL
  }

  // The bound 0008 puts on the address of a reply that goes to the EEPROM buffer.
  predicate Bounded(ver: Version, mode: Mode, r: Reply) {
    ver == V0008 ==> r.addr <= EEPROM_SIZE - BlockSize(mode)
  }

  // The code for a reply that goes to the EEPROM buffer.
  function BufferCode(ver: Version, mode: Mode, r: Reply): int {
    if Code(r) == 0 && !Bounded(ver, mode, r) then -EINVAL else Code(r)
  }

  function Patch(s: seq<u8>, base: nat, data: nat -> u8, n: nat): (t: seq<u8>)
    ensures |t| == |s|
  {
    seq(|s|, i requires 0 <= i < |s| => if base <= i < base + n then data(i - base) else s[i])
  }

  // With the bound, an accepted reply is copied inside the buffer, whatever address and length it
  // reports and whatever length was asked for; without it, that takes an honest address.
  lemma BoundedCopyFits(mode: Mode, r: Reply, bufLen: u32)
    ensures CopyLen(mode, r, bufLen) <= BlockSize(mode)
    ensures Bounded(V0008, mode, r) ==> r.addr + CopyLen(mode, r, bufLen) <= EEPROM_SIZE
    ensures Bounded(V0008, mode, r)
      <==> forall r': Reply, len: u32 :: r'.addr == r.addr ==> r'.addr + CopyLen(mode, r', len) <= EEPROM_SIZE
  {
    if !Bounded(V0008, mode, r) {
      var full := r.(dataLen := EXT_BLOCK_SIZE);
      assert full.addr + CopyLen(mode, full, 0) > EEPROM_SIZE;
    }
  }

  // ----- The image a block-wise load builds -----

  // The number of blocks, rounded up.
  function BlockCount(mode: Mode): (n: nat)
    ensures n == (EEPROM_SIZE + BlockSize(mode) - 1) / BlockSize(mode)
  {
    if mode == Ext then 8 else 480
  }

  function BlockAddr(mode: Mode, i: nat): (a: nat)
    ensures a == i * BlockSize(mode)
  {
    if mode == Ext then i * 1024 else i * 16
  }

  // The length requested for block i: the remainder for the last one, which is 0 for Efuse.
  function RequestLen(mode: Mode, i: nat): (n: u32)
    ensures n == if i == BlockCount(mode) - 1 then EEPROM_SIZE % BlockSize(mode) else BlockSize(mode)
  {
    if i == BlockCount(mode) - 1 then (if mode == Ext then 512 else 0) else BlockSize(mode)
  }

  type Firmware = (Mode, u32, u32) -> Reply

  // The Efuse request carries no length.
  function Ask(fw: Firmware, mode: Mode, addr: u32, bufLen: u32): Reply {
    fw(mode, addr, if mode == Ext then bufLen else 0)
  }

  function BlockReply(fw: Firmware, mode: Mode, i: nat): Reply
    requires i < BlockCount(mode)
  {
    Ask(fw, mode, BlockAddr(mode, i), RequestLen(mode, i))
  }

  ghost predicate Echoes(fw: Firmware, mode: Mode) {
    forall i: nat :: i < BlockCount(mode) ==> BlockReply(fw, mode, i).addr == BlockAddr(mode, i)
  }

  // A reply to be copied that would leave the buffer.
  predicate Overruns(ver: Version, mode: Mode, r: Reply, bufLen: u32) {
    BufferCode(ver, mode, r) == 0 && r.addr + CopyLen(mode, r, bufLen) > EEPROM_SIZE
  }

  // The buffer after a reply has been handled.
  function Stored(ver: Version, mode: Mode, s: seq<u8>, r: Reply, bufLen: u32): (t: seq<u8>)
    ensures |t| == |s|
  {
    if BufferCode(ver, mode, r) == 0 && !Overruns(ver, mode, r, bufLen)
    then Patch(s, r.addr, r.data, CopyLen(mode, r, bufLen))
    else s
  }

  function Zeros(): (s: seq<u8>)
    ensures |s| == EEPROM_SIZE && forall b :: 0 <= b < EEPROM_SIZE ==> s[b] == 0
  {
    seq(EEPROM_SIZE, b requires 0 <= b < EEPROM_SIZE => 0)
  }

  // The zeroed buffer after the first n blocks were read.
  function Image(fw: Firmware, ver: Version, mode: Mode, n: nat): (s: seq<u8>)
    requires n <= BlockCount(mode)
    ensures |s| == EEPROM_SIZE
  {
    if n == 0 then Zeros()
    else Stored(ver, mode, Image(fw, ver, mode, n - 1), BlockReply(fw, mode, n - 1), RequestLen(mode, n - 1))
  }

  // Whether byte b of an echoing device's block reaches the buffer.
  predicate Reaches(fw: Firmware, ver: Version, mode: Mode, b: nat)
    requires b < EEPROM_SIZE
  {
    var r := BlockReply(fw, mode, b / BlockSize(mode));
    && BufferCode(ver, mode, r) == 0
    && b % BlockSize(mode) < CopyLen(mode, r, RequestLen(mode, b / BlockSize(mode)))
  }

  // The replies of an echoing device never overrun the buffer, with or without the bound.
  lemma EchoFits(fw: Firmware, ver: Version, mode: Mode, i: nat)
    requires (mode == Efuse || mode == Ext) && Echoes(fw, mode) && i < BlockCount(mode)
    ensures !Overruns(ver, mode, BlockReply(fw, mode, i), RequestLen(mode, i))
  {
    assert BlockReply(fw, mode, i).addr == BlockAddr(mode, i);
  }

  // The image of an echoing device, byte by byte: no block disturbs another one.
  lemma {:induction false} ImageOfEcho(fw: Firmware, ver: Version, mode: Mode, n: nat, b: nat)
    requires (mode == Efuse || mode == Ext) && Echoes(fw, mode) && n <= BlockCount(mode) && b < EEPROM_SIZE
    ensures Image(fw, ver, mode, n)[b] ==
      if b / BlockSize(mode) < n && Reaches(fw, ver, mode, b)
      then BlockReply(fw, mode, b / BlockSize(mode)).data(b % BlockSize(mode))
      else 0
  {
    if n > 0 {
      var k := n - 1;
      ImageOfEcho(fw, ver, mode, k, b);
      EchoFits(fw, ver, mode, k);
      EchoStores(ver, mode, Image(fw, ver, mode, k), BlockReply(fw, mode, k), RequestLen(mode, k), k, b);
    }
  }

  // Handling the honest reply for block k changes bytes of block k only.
  lemma EchoStores(ver: Version, mode: Mode, s: seq<u8>, r: Reply, bufLen: u32, k: nat, b: nat)
    requires |s| == EEPROM_SIZE && b < EEPROM_SIZE
    requires r.addr == BlockAddr(mode, k) && !Overruns(ver, mode, r, bufLen)
    ensures Stored(ver, mode, s, r, bufLen)[b] ==
      if b / BlockSize(mode) == k && BufferCode(ver, mode, r) == 0 && b % BlockSize(mode) < CopyLen(mode, r, bufLen)
      then r.data(b % BlockSize(mode))
      else s[b]
  {
  }

  // Efuse: every byte of a valid block, the last one included although its computed length is 0,
  // is the device's; every byte of another block is zero.  The bound makes no difference.
  lemma EfuseImage(fw: Firmware, ver: Version, b: nat)
    requires Echoes(fw, Efuse) && b < EEPROM_SIZE
    ensures var r := fw(Efuse, b / 16 * 16, 0);
      Image(fw, ver, Efuse, 480)[b] == if r.err == 0 && r.valid then r.data(b % 16) else 0
  {
    ImageOfEcho(fw, ver, Efuse, 480, b);
    assert BlockReply(fw, Efuse, b / 16).addr == b / 16 * 16;
  }

  // Ext: the bytes a valid reply holds reach the buffer, up to the requested length; 0008 refuses
  // the last half block and leaves it zero.
  lemma ExtBytes(fw: Firmware, ver: Version, b: nat)
    requires Echoes(fw, Ext) && b < EEPROM_SIZE
    ensures var r := fw(Ext, b / 1024 * 1024, if b < 7168 then 1024 else 512);
      Image(fw, ver, Ext, 8)[b] ==
        if r.err == 0 && r.valid && b % 1024 < r.dataLen && (ver == V0004 || b < 7168) then r.data(b % 1024) else 0
  {
    ImageOfEcho(fw, ver, Ext, 8, b);
    assert BlockReply(fw, Ext, b / 1024).addr == b / 1024 * 1024;
    assert RequestLen(Ext, b / 1024) == if b < 7168 then 1024 else 512;
  }

  // With full-length valid replies 0004 fills the whole buffer and 0008 its first 7168 bytes.
  lemma ExtImage(fw: Firmware, ver: Version, b: nat)
    requires Echoes(fw, Ext) && b < EEPROM_SIZE
    requires forall i: nat :: i < 8 ==>
        var r := fw(Ext, i * 1024, if i == 7 then 512 else 1024);
        r.err == 0 && r.valid && r.dataLen >= if i == 7 then 512 else 1024
    ensures Image(fw, ver, Ext, 8)[b] ==
        if ver == V0004 || b < 7168
        then fw(Ext, b / 1024 * 1024, if b < 7168 then 1024 else 512).data(b % 1024)
        else 0
  {
    ExtBytes(fw, ver, b);
    var i := b / 1024;
    assert i < 8 && fw(Ext, i * 1024, if i == 7 then 512 else 1024).valid;
  }

  // What one reply puts into the buffer, from whichever device: a valid one is copied to the
  // address it reports, 16 bytes of it for Efuse and as many as it has for Ext, but no more than
  // asked for.
  lemma StoredBytes(ver: Version, mode: Mode, s: seq<u8>, r: Reply, bufLen: u32, b: nat)
    requires (mode == Efuse || mode == Ext) && |s| == 7680 && b < 7680
    ensures var most := if mode == Ext then 1024 else 16;
      var asked := if bufLen == 0 || bufLen > most then most else bufLen;
      var n := if mode == Ext && r.dataLen < asked then r.dataLen else asked;
      Stored(ver, mode, s, r, bufLen)[b] ==
        if && r.err == 0 && r.valid && r.addr + n <= 7680 && (ver == V0008 ==> r.addr <= 7680 - most)
           && r.addr <= b < r.addr + n
        then r.data(b - r.addr)
        else s[b]
  {
  }

  // Block i does no harm to a load: no copy leaves the buffer, the first block is valid, and another
  // one fails with nothing but -EINVAL.
  predicate GoodBlock(fw: Firmware, ver: Version, m: Mode, i: nat)
    requires i < BlockCount(m)
  {
    var r := BlockReply(fw, m, i);
    && !Overruns(ver, m, r, RequestLen(m, i))
    && (BufferCode(ver, m, r) == 0 || (i > 0 && BufferCode(ver, m, r) == -EINVAL))
  }

  // A load that succeeds: all blocks are good and the image of the first passes the check.
  ghost predicate Loads(fw: Firmware, ver: Version, m: Mode, check: seq<u8> -> bool) {
    (forall i: nat :: i < BlockCount(m) ==> GoodBlock(fw, ver, m, i)) && check(Image(fw, ver, m, 1))
  }

  // Whatever an echoing device replies, the bound costs exactly the last half block of an external
  // EEPROM.
  lemma BoundCost(fw: Firmware, b: nat)
    requires Echoes(fw, Ext) && b < EEPROM_SIZE
    ensures Image(fw, V0008, Ext, 8)[b] == if b < 7168 then Image(fw, V0004, Ext, 8)[b] else 0
  {
    ImageOfEcho(fw, V0004, Ext, 8, b);
    ImageOfEcho(fw, V0008, Ext, 8, b);
    assert BlockReply(fw, Ext, b / 1024).addr == b / 1024 * 1024;
  }

  // The reply to the request for block i.
  lemma Requests(fw: Firmware, i: nat)
    ensures i < 480 ==> BlockReply(fw, Efuse, i) == fw(Efuse, i * 16, 0)
    ensures i < 8 ==> BlockReply(fw, Ext, i) == fw(Ext, i * 1024, if i == 7 then 512 else 1024)
  {
  }

  // When a load from any device succeeds: no reply to be copied reaches past the buffer, the first
  // block is copied and passes the check, and each other one is copied, invalid, refused by the
  // bound or answered with -EINVAL.
  lemma LoadsIff(fw: Firmware, ver: Version, m: Mode, check: seq<u8> -> bool)
    requires m == Efuse || m == Ext
    ensures Loads(fw, ver, m, check) <==>
      && (forall i: nat :: i < (if m == Ext then 8 else 480) ==> Harmless(ver, m, i, BlockReply(fw, m, i)))
      && check(Image(fw, ver, m, 1))
  {
    forall i: nat | i < BlockCount(m)
      ensures GoodBlock(fw, ver, m, i) <==> Harmless(ver, m, i, BlockReply(fw, m, i))
    {
    }
  }

  predicate Harmless(ver: Version, m: Mode, i: nat, r: Reply) {
    var asked: nat := if m != Ext then 16 else if i == 7 then 512 else 1024;
    var n := if m == Ext && r.dataLen < asked then r.dataLen else asked;
    var copied := r.err == 0 && r.valid && (ver == V0008 ==> r.addr <= if m == Ext then 6656 else 7664);
    && (copied ==> r.addr + n <= 7680)
    && (copied || (i > 0 && r.err in {0, -22}))
  }

  // A load from an echoing device succeeds exactly if the first block is valid and passes the check
  // and every other block is valid, invalid or fails with -EINVAL, with or without the bound.
  lemma EchoLoads(fw: Firmware, ver: Version, m: Mode, check: seq<u8> -> bool)
    requires (m == Efuse || m == Ext) && Echoes(fw, m)
    ensures Loads(fw, ver, m, check) <==>
      && BlockReply(fw, m, 0).err == 0 && BlockReply(fw, m, 0).valid
      && (forall i: nat :: 0 < i < BlockCount(m) ==> BlockReply(fw, m, i).err in {0, -22})
      && check(Image(fw, ver, m, 1))
  {
    forall i: nat | i < BlockCount(m)
      ensures var r := BlockReply(fw, m, i);
        GoodBlock(fw, ver, m, i) <==> (r.err == 0 && r.valid) || (i > 0 && r.err in {0, -22})
    {
      EchoFits(fw, ver, m, i);
      assert BlockReply(fw, m, i).addr == BlockAddr(m, i);
    }
  }

  // The first block, which is checked, is the same under both versions.
  lemma SameFirstBlock(fw: Firmware, m: Mode)
    requires (m == Efuse || m == Ext) && Echoes(fw, m)
    ensures Image(fw, V0004, m, 1) == Image(fw, V0008, m, 1)
  {
    assert BlockReply(fw, m, 0).addr == 0;
    assert Image(fw, V0004, m, 0) == Image(fw, V0008, m, 0);
  }

  // memcpy of n bytes.
  method CopyTo(dst: array<u8>, base: nat, src: nat -> u8, n: nat)
    requires base + n <= dst.Length
    modifies dst
    ensures dst[..] == Patch(old(dst[..]), base, src, n)
  {
    forall i | base <= i < base + n {
      dst[i] := src(i - base);
    }
  }

  class Mt7996 {
    const ver: Version
    const fw: Firmware
    const data: array<u8>
    var mode: Mode

    ghost predicate Valid()
    {
      data.Length == EEPROM_SIZE
    }

    constructor (ver: Version, fw: Firmware)
      ensures Valid() && this.ver == ver && this.fw == fw
    {
      this.ver, this.fw, mode := ver, fw, DefaultBin;
      data := new u8[EEPROM_SIZE];
    }

    // mt7996_mcu_get_eeprom: buf == null selects the shared EEPROM buffer at the reported address.
    method GetEeprom(offset: u32, buf: array?<u8>, bufLen: u32, mode: Mode) returns (o: Outcome)
      requires Valid() && buf != data
      requires buf != null ==> buf.Length >= EffectiveLen(mode, bufLen)
      modifies data, buf
      ensures mode != Efuse && mode != Ext ==>
        o == Done(-EINVAL) && unchanged(data) && (buf != null ==> unchanged(buf))
      ensures (mode == Efuse || mode == Ext) && buf == null ==>
        var r := fw(mode, offset - offset % (if mode == Ext then 1024 else 16), if mode == Ext then bufLen else 0);
        && o == (if Overruns(ver, mode, r, bufLen) then Fault
               else if r.err != 0 then Done(r.err)
               else if r.valid && (ver == V0008 ==> r.addr <= if mode == Ext then 6656 else 7664) then Done(0)
               else Done(-22))
        && data[..] == Stored(ver, mode, old(data[..]), r, bufLen)
      ensures (mode == Efuse || mode == Ext) && buf != null ==>
        var r := fw(mode, offset - offset % (if mode == Ext then 1024 else 16), if mode == Ext then bufLen else 0);
        && o == Done(if r.err != 0 then r.err else if r.valid then 0 else -22) && unchanged(data)
        && buf[..] == if r.err == 0 && r.valid then Patch(old(buf[..]), 0, r.data, CopyLen(mode, r, bufLen)) else old(buf[..])
      ensures ver == V0008 ==> o.Done?
    {
      var addr: u32, reqLen := 0, 0;
      match mode {
        case Efuse =>
          addr := offset - offset % BLOCK_SIZE;
        case Ext =>
          addr := offset - offset % EXT_BLOCK_SIZE;
          reqLen := bufLen;
        case _ =>
          return Done(-EINVAL);
      }
      var r := fw(mode, addr, reqLen);
      if r.err != 0 {
        return Done(r.err);
      }
      if !r.valid {
        return Done(-EINVAL);
      }
      var dst, base := buf, 0;
      if buf == null {
        if ver == V0008 {
          var block := if mode == Ext then EXT_BLOCK_SIZE else BLOCK_SIZE;
          if r.addr > data.Length - block {
            return Done(-EINVAL);
          }
        }
        dst, base := data, r.addr;
      }
      var n := bufLen;
      if mode == Efuse {
        if n == 0 || n > BLOCK_SIZE {
          n := BLOCK_SIZE;
        }
      } else {
        if n == 0 || n > EXT_BLOCK_SIZE {
          n := EXT_BLOCK_SIZE;
        }
        n := if r.dataLen < n then r.dataLen else n;
      }
      if base + n > dst.Length {
        return Fault;
      }
      CopyTo(dst, base, r.data, n);
      return Done(0);
    }

    // mt7996_eeprom_load up to the check-or-default tail.  flashRet is the result of
    // mt76_eeprom_init, which has filled the buffer if positive; check is mt7996_check_eeprom.
    method Load(flashRet: int, hasExt: bool, freeRet: int, enough: bool, check: seq<u8> -> bool)
      returns (res: LoadResult)
      requires Valid()
      modifies data, this`mode
      ensures flashRet < 0 ==> res == Aborted(flashRet)
      ensures flashRet > 0 && check(old(data[..])) ==>
        res == Finished(false) && mode == Flash && data[..] == old(data[..])
      ensures flashRet == 0 || (flashRet > 0 && !check(old(data[..]))) ==>
        mode == if hasExt then Ext else Efuse
      ensures flashRet == 0 || (flashRet > 0 && !check(old(data[..]))) ==>
        if mode == Efuse && freeRet < 0 then res == Aborted(freeRet)
        else if mode == Efuse && !enough then res == Finished(true)
        else
          && (res == Finished(false) <==> Loads(fw, ver, mode, check))
          && (res == Finished(false) ==> data[..] == Image(fw, ver, mode, BlockCount(mode)))
          && (ver == V0008 || Echoes(fw, mode) ==> res.Finished?)
    {
      if flashRet < 0 {
        return Aborted(flashRet);
      }
      if flashRet != 0 && check(data[..]) {
        mode := Flash;
        return Finished(false);
      }
      forall i | 0 <= i < data.Length {
        data[i] := 0;
      }
      assert data[..] == Zeros();
      if hasExt {
        mode := Ext;
      } else {
        mode := Efuse;
        if freeRet < 0 {
          return Aborted(freeRet);
        }
        if !enough {
          return Finished(true);
        }
      }
      res := LoadBlocks(if hasExt then EXT_BLOCK_SIZE else BLOCK_SIZE, check);
    }

    method LoadBlocks(blk: u32, check: seq<u8> -> bool) returns (res: LoadResult)
      requires Valid() && (mode == Efuse || mode == Ext) && blk == BlockSize(mode)
      requires data[..] == Zeros()
      modifies data
      ensures res == Finished(false) <==> Loads(fw, ver, mode, check)
      ensures res == Finished(false) ==> data[..] == Image(fw, ver, mode, BlockCount(mode))
      ensures ver == V0008 || Echoes(fw, mode) ==> res.Finished?
      ensures !res.Aborted?
    {
      var o := ReadBlock(0, blk);
      if o.Fault? {
        assert !GoodBlock(fw, ver, mode, 0);
        return Crashed;
      }
      if o.ret != 0 || !check(data[..]) {
        assert o.ret != 0 ==> !GoodBlock(fw, ver, mode, 0);
        return Finished(true);
      }
      var num := (EEPROM_SIZE + blk - 1) / blk;
      var i := 1;
      while i < num
        invariant 1 <= i <= num == BlockCount(mode)
        invariant data[..] == Image(fw, ver, mode, i)
        invariant forall j: nat :: j < i ==> GoodBlock(fw, ver, mode, j)
      {
        var len := blk;
        if i == num - 1 {
          len := EEPROM_SIZE % blk;
        }
        o := ReadBlock(i, len);
        if o.Fault? {
          assert !GoodBlock(fw, ver, mode, i);
          return Crashed;
        }
        if o.ret != 0 && o.ret != -EINVAL {
          assert !GoodBlock(fw, ver, mode, i);
          return Finished(true);
        }
        i := i + 1;
      }
      return Finished(false);
    }

    // One iteration's mt7996_mcu_get_eeprom call.
    method ReadBlock(i: nat, len: u32) returns (o: Outcome)
      requires Valid() && (mode == Efuse || mode == Ext)
      requires i < BlockCount(mode) && len == RequestLen(mode, i)
      requires data[..] == Image(fw, ver, mode, i)
      modifies data
      ensures data[..] == Image(fw, ver, mode, i + 1)
      ensures var r := BlockReply(fw, mode, i);
        o == if Overruns(ver, mode, r, len) then Fault else Done(BufferCode(ver, mode, r))
      ensures ver == V0008 || Echoes(fw, mode) ==> o.Done?
    {
      if Echoes(fw, mode) {
        EchoFits(fw, ver, mode, i);
      }
      o := GetEeprom(BlockAddr(mode, i), null, len, mode);
    }
  }
}
