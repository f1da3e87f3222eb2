/**
  Merging calibration bytes from the efuse into the EEPROM image and sending the result in pages.

  The merge keeps the last efuse block it read.  `Merge` is the plain form, which reads the block
  of every byte afresh.
 */
module EepromMerge {
  import opened Wrappers
  import opened Eeprom

  const NO_BLOCK: u16 := 0xffff

  datatype Cal = Cal(adieOffs: u16, eepOffs: u16)

  // One band's table: base is its efuse offset, back the amount subtracted from EEPROM offsets.
  datatype Band = Band(base: u16, back: u16, cal: seq<Cal>)

  // An efuse byte offset and the EEPROM offset it goes to, after 16-bit wrap-around.
  datatype Move = Move(src: u16, dst: u16)

  function ToMove(b: Band, c: Cal): Move {
    Move((c.adieOffs + b.base) % 0x1_0000, (c.eepOffs - b.back) % 0x1_0000)
  }

  function Moves(b: Band, n: nat): (ms: seq<Move>)
    requires n <= |b.cal|
    ensures |ms| == |b.cal| - n
    ensures forall k :: 0 <= k < |ms| ==> ms[k] == ToMove(b, b.cal[n + k])
  {
    seq(|b.cal| - n, k requires 0 <= k < |b.cal| - n => ToMove(b, b.cal[n + k]))
  }

  function AllMoves(bands: seq<Band>): seq<Move> {
    if bands == [] then [] else Moves(bands[0], 0) + AllMoves(bands[1..])
  }

  ghost predicate InImage(bands: seq<Band>) {
    forall b, c :: b in bands && c in b.cal ==> (c.eepOffs - b.back) % 65536 < 7680
  }

  function Block(fw: Firmware, src: u16): Reply {
    Ask(fw, Efuse, src - src % BLOCK_SIZE, BLOCK_SIZE)
  }

  function ReadCode(fw: Firmware, m: Move): int {
    Code(Block(fw, m.src))
  }

  function ReadByte(fw: Firmware, m: Move): u8 {
    Block(fw, m.src).data(m.src % BLOCK_SIZE)
  }

  // The plain merge: unreadable blocks are skipped, any other error ends it.
  function Merge(fw: Firmware, e: seq<u8>, ms: seq<Move>): (res: (seq<u8>, int))
    ensures |res.0| == |e|
    decreases |ms|
  {
    if ms == [] then (e, 0)
    else if ReadCode(fw, ms[0]) == 0 then
      Merge(fw, if ms[0].dst < |e| then e[ms[0].dst := ReadByte(fw, ms[0])] else e, ms[1..])
    else if ReadCode(fw, ms[0]) == -EINVAL then Merge(fw, e, ms[1..])
    else (e, ReadCode(fw, ms[0]))
  }

  lemma {:induction false} MergeAppend(fw: Firmware, e: seq<u8>, ms: seq<Move>, ns: seq<Move>)
    ensures Merge(fw, e, ms + ns) ==
            var (f, ret) := Merge(fw, e, ms); if ret == 0 then Merge(fw, f, ns) else (f, ret)
    decreases |ms|
  {
    if ms == [] {
      assert ms + ns == ns;
    } else {
      assert (ms + ns)[1..] == ms[1..] + ns;
      var e' := if ms[0].dst < |e| then e[ms[0].dst := ReadByte(fw, ms[0])] else e;
      MergeAppend(fw, e', ms[1..], ns);
      MergeAppend(fw, e, ms[1..], ns);
    }
  }

  // ----- What the merge means -----

  predicate Hard(fw: Firmware, m: Move) {
    ReadCode(fw, m) !in {0, -EINVAL}
  }

  // Move k writes byte x.
  predicate Writes(fw: Firmware, ms: seq<Move>, x: nat, k: nat) {
    k < |ms| && ms[k].dst == x && ReadCode(fw, ms[k]) == 0 && forall j :: 0 <= j < k ==> !Hard(fw, ms[j])
  }

  predicate WritesLast(fw: Firmware, ms: seq<Move>, x: nat, k: nat) {
    Writes(fw, ms, x, k) && forall j: nat :: k < j < |ms| ==> !Writes(fw, ms, x, j)
  }

  // Each byte ends up as the efuse byte of its last readable table entry before the first hard
  // error, and keeps its value if it has none; the return value is that first hard error.
  lemma {:induction false} MergeMeaning(fw: Firmware, e: seq<u8>, ms: seq<Move>, x: nat)
    requires x < |e|
    ensures (exists k: nat :: WritesLast(fw, ms, x, k) && Merge(fw, e, ms).0[x] == ReadByte(fw, ms[k]))
         || ((forall k: nat :: !Writes(fw, ms, x, k)) && Merge(fw, e, ms).0[x] == e[x])
    decreases |ms|
  {
    if ms != [] && !Hard(fw, ms[0]) {
      var rest := ms[1..];
      var e' := if ReadCode(fw, ms[0]) == 0 && ms[0].dst < |e| then e[ms[0].dst := ReadByte(fw, ms[0])] else e;
      MergeMeaning(fw, e', rest, x);
      forall k: nat
        ensures Writes(fw, rest, x, k) <==> Writes(fw, ms, x, k + 1)
      {
        assert forall j :: 0 <= j < k && k < |rest| ==> rest[j] == ms[j + 1];
        if Writes(fw, rest, x, k) {
          assert forall j :: 0 <= j < k + 1 ==> !Hard(fw, ms[j]);
        }
        if Writes(fw, ms, x, k + 1) {
          assert forall j :: 0 <= j < k ==> !Hard(fw, rest[j]);
        }
      }
      if k: nat :| WritesLast(fw, rest, x, k) && Merge(fw, e', rest).0[x] == ReadByte(fw, rest[k]) {
        forall j: nat | k + 1 < j < |ms|
          ensures !Writes(fw, ms, x, j)
        {
          assert !Writes(fw, rest, x, j - 1);
        }
        assert WritesLast(fw, ms, x, k + 1);
      } else {
        forall j: nat | 0 < j
          ensures !Writes(fw, ms, x, j)
        {
          assert !Writes(fw, rest, x, j - 1);
        }
        if Writes(fw, ms, x, 0) {
          assert WritesLast(fw, ms, x, 0);
        }
      }
    }
  }

  lemma {:induction false} MergeReturns(fw: Firmware, e: seq<u8>, ms: seq<Move>)
    ensures var ret := Merge(fw, e, ms).1;
      if ret == 0 then forall k :: 0 <= k < |ms| ==> !Hard(fw, ms[k])
      else exists k :: 0 <= k < |ms| && Hard(fw, ms[k]) && ret == ReadCode(fw, ms[k])
                    && forall j :: 0 <= j < k ==> !Hard(fw, ms[j])
    decreases |ms|
  {
    if ms != [] && !Hard(fw, ms[0]) {
      var rest := ms[1..];
      var e' := if ReadCode(fw, ms[0]) == 0 && ms[0].dst < |e| then e[ms[0].dst := ReadByte(fw, ms[0])] else e;
      MergeReturns(fw, e', rest);
      var ret := Merge(fw, e, ms).1;
      if ret == 0 {
        assert forall k :: 0 < k < |ms| ==> ms[k] == rest[k - 1];
      } else {
        var k :| 0 <= k < |rest| && Hard(fw, rest[k]) && ret == ReadCode(fw, rest[k])
              && forall j :: 0 <= j < k ==> !Hard(fw, rest[j]);
        assert forall j :: 0 < j < k + 1 ==> ms[j] == rest[j - 1];
        assert Hard(fw, ms[k + 1]);
      }
    } else if ms != [] {
      assert Hard(fw, ms[0]);
    }
  }

  // Merging twice is merging once, duplicates and errors included.
  lemma MergeIdempotent(fw: Firmware, e: seq<u8>, ms: seq<Move>)
    ensures Merge(fw, Merge(fw, e, ms).0, ms) == Merge(fw, e, ms)
  {
    var once := Merge(fw, e, ms);
    var twice := Merge(fw, once.0, ms);
    forall x: nat | x < |e|
      ensures twice.0[x] == once.0[x]
    {
      MergeMeaning(fw, e, ms, x);
      MergeMeaning(fw, once.0, ms, x);
      LastIsUnique(fw, ms, x);
    }
    assert twice.0 == once.0;
    MergeReturns(fw, e, ms);
    MergeReturns(fw, once.0, ms);
  }

  lemma LastIsUnique(fw: Firmware, ms: seq<Move>, x: nat)
    ensures forall j: nat, k: nat :: WritesLast(fw, ms, x, j) && WritesLast(fw, ms, x, k) ==> j == k
  {
  }

  // ----- In terms of the tables -----

  // Entry k of band b comes before entry k' of band b'.
  predicate Before(b: nat, k: nat, b': nat, k': nat) {
    b < b' || (b == b' && k < k')
  }

  // What the firmware answers for a table entry.  Its efuse offset is a 16-bit sum, and the block
  // it lies in starts at the multiple of 16 below.
  function Answer(fw: Firmware, b: Band, c: Cal): Reply {
    var a := (c.adieOffs + b.base) % 65536;
    fw(Efuse, a - a % 16, 0)
  }

  // The answer for entry k of band b is an error that ends the merge.
  predicate Fails(fw: Firmware, bands: seq<Band>, b: nat, k: nat) {
    && b < |bands| && k < |bands[b].cal|
    && var r := Answer(fw, bands[b], bands[b].cal[k]);
    r.err != 0 && r.err != -22
  }

  // Entry k of band b is for byte x, it can be read, and no entry before it fails.
  ghost predicate Fills(fw: Firmware, bands: seq<Band>, x: nat, b: nat, k: nat) {
    && b < |bands| && k < |bands[b].cal|
    && var c := bands[b].cal[k];
    && (c.eepOffs - bands[b].back) % 65536 == x
    && Answer(fw, bands[b], c).err == 0 && Answer(fw, bands[b], c).valid
    && forall b': nat, k': nat :: Before(b', k', b, k) ==> !Fails(fw, bands, b', k')
  }

  ghost predicate FillsLast(fw: Firmware, bands: seq<Band>, x: nat, b: nat, k: nat) {
    && Fills(fw, bands, x, b, k)
    && forall b': nat, k': nat :: Before(b, k, b', k') ==> !Fills(fw, bands, x, b', k')
  }

  // Byte x, which was `older`, is now the efuse byte of its last readable table entry, in band and
  // table order up to the first failing entry; without one it is unchanged.
  ghost predicate ByteMerged(fw: Firmware, bands: seq<Band>, x: nat, older: u8, newer: u8) {
    || ((forall b: nat, k: nat :: !Fills(fw, bands, x, b, k)) && newer == older)
    || exists b: nat, k: nat ::
         && FillsLast(fw, bands, x, b, k)
         && var c := bands[b].cal[k];
         newer == Answer(fw, bands[b], c).data((c.adieOffs + bands[b].base) % 65536 % 16)
  }

  // ret is the error of the first failing entry, or 0 if none fails.
  ghost predicate Returned(fw: Firmware, bands: seq<Band>, ret: int) {
    || (ret == 0 && forall b: nat, k: nat :: !Fails(fw, bands, b, k))
    || exists b: nat, k: nat ::
         && Fails(fw, bands, b, k) && ret == Answer(fw, bands[b], bands[b].cal[k]).err
         && forall b': nat, k': nat :: Before(b', k', b, k) ==> !Fails(fw, bands, b', k')
  }

  // Where entry k of band b stands in AllMoves.
  function Index(bands: seq<Band>, b: nat, k: nat): nat
    requires b < |bands|
    decreases b
  {
    if b == 0 then k else |bands[0].cal| + Index(bands[1..], b - 1, k)
  }

  lemma {:induction false} IndexAt(bands: seq<Band>, b: nat, k: nat)
    requires b < |bands| && k < |bands[b].cal|
    ensures Index(bands, b, k) < |AllMoves(bands)|
    ensures AllMoves(bands)[Index(bands, b, k)] == ToMove(bands[b], bands[b].cal[k])
    decreases b
  {
    if b > 0 {
      IndexAt(bands[1..], b - 1, k);
    }
  }

  lemma {:induction false} IndexOrder(bands: seq<Band>, b: nat, k: nat, b': nat, k': nat)
    requires b < |bands| && k < |bands[b].cal| && b' < |bands| && k' < |bands[b'].cal|
    ensures Before(b, k, b', k') <==> Index(bands, b, k) < Index(bands, b', k')
    decreases b + b'
  {
    if b > 0 && b' > 0 {
      IndexOrder(bands[1..], b - 1, k, b' - 1, k');
    }
  }

  lemma {:induction false} EntryAt(bands: seq<Band>, j: nat) returns (b: nat, k: nat)
    requires j < |AllMoves(bands)|
    ensures b < |bands| && k < |bands[b].cal| && Index(bands, b, k) == j
    decreases |bands|
  {
    if j < |bands[0].cal| {
      b, k := 0, j;
    } else {
      b, k := EntryAt(bands[1..], j - |bands[0].cal|);
      b := b + 1;
    }
  }

  // m does what entry c of band b asks for.
  predicate IsEntry(fw: Firmware, m: Move, b: Band, c: Cal) {
    var r := Answer(fw, b, c);
    && m.dst == (c.eepOffs - b.back) % 65536
    && ReadCode(fw, m) == (if r.err != 0 then r.err else if r.valid then 0 else -22)
    && ReadByte(fw, m) == r.data((c.adieOffs + b.base) % 65536 % 16)
  }

  lemma MoveIsEntry(fw: Firmware, b: Band, c: Cal)
    ensures IsEntry(fw, ToMove(b, c), b, c)
  {
    assert Block(fw, ToMove(b, c).src) == Answer(fw, b, c);
  }

  lemma EntryIsMove(fw: Firmware, bands: seq<Band>, b: nat, k: nat)
    requires b < |bands| && k < |bands[b].cal|
    ensures Index(bands, b, k) < |AllMoves(bands)|
    ensures IsEntry(fw, AllMoves(bands)[Index(bands, b, k)], bands[b], bands[b].cal[k])
  {
    IndexAt(bands, b, k);
    MoveIsEntry(fw, bands[b], bands[b].cal[k]);
  }

  lemma FillsIsWrites(fw: Firmware, bands: seq<Band>, x: nat, b: nat, k: nat)
    requires b < |bands| && k < |bands[b].cal|
    ensures Fills(fw, bands, x, b, k) <==> Writes(fw, AllMoves(bands), x, Index(bands, b, k))
  {
    var ms, j := AllMoves(bands), Index(bands, b, k);
    EntryIsMove(fw, bands, b, k);
    if Fills(fw, bands, x, b, k) {
      forall i | 0 <= i < j
        ensures !Hard(fw, ms[i])
      {
        var b', k' := EntryAt(bands, i);
        IndexOrder(bands, b', k', b, k);
        EntryIsMove(fw, bands, b', k');
      }
    }
    if Writes(fw, ms, x, j) {
      forall b': nat, k': nat | Before(b', k', b, k)
        ensures !Fails(fw, bands, b', k')
      {
        if Fails(fw, bands, b', k') {
          IndexOrder(bands, b', k', b, k);
          EntryIsMove(fw, bands, b', k');
        }
      }
    }
  }

  lemma MergedByte(fw: Firmware, e: seq<u8>, bands: seq<Band>, x: nat)
    requires x < |e|
    ensures ByteMerged(fw, bands, x, e[x], Merge(fw, e, AllMoves(bands)).0[x])
  {
    var ms := AllMoves(bands);
    MergeMeaning(fw, e, ms, x);
    if j: nat :| WritesLast(fw, ms, x, j) && Merge(fw, e, ms).0[x] == ReadByte(fw, ms[j]) {
      var b, k := EntryAt(bands, j);
      FillsIsWrites(fw, bands, x, b, k);
      EntryIsMove(fw, bands, b, k);
      forall b': nat, k': nat | Before(b, k, b', k')
        ensures !Fills(fw, bands, x, b', k')
      {
        if Fills(fw, bands, x, b', k') {
          FillsIsWrites(fw, bands, x, b', k');
          IndexOrder(bands, b, k, b', k');
        }
      }
      assert FillsLast(fw, bands, x, b, k);
    } else {
      forall b: nat, k: nat
        ensures !Fills(fw, bands, x, b, k)
      {
        if Fills(fw, bands, x, b, k) {
          FillsIsWrites(fw, bands, x, b, k);
        }
      }
    }
  }

  lemma MergedResult(fw: Firmware, e: seq<u8>, bands: seq<Band>)
    ensures Returned(fw, bands, Merge(fw, e, AllMoves(bands)).1)
  {
    var ms := AllMoves(bands);
    MergeReturns(fw, e, ms);
    var ret := Merge(fw, e, ms).1;
    if ret == 0 {
      forall b: nat, k: nat
        ensures !Fails(fw, bands, b, k)
      {
        if Fails(fw, bands, b, k) {
          EntryIsMove(fw, bands, b, k);
        }
      }
    } else {
      var j :| 0 <= j < |ms| && Hard(fw, ms[j]) && ret == ReadCode(fw, ms[j]) && forall i :: 0 <= i < j ==> !Hard(fw, ms[i]);
      var b, k := EntryAt(bands, j);
      EntryIsMove(fw, bands, b, k);
      forall b': nat, k': nat | Before(b', k', b, k)
        ensures !Fails(fw, bands, b', k')
      {
        if Fails(fw, bands, b', k') {
          EntryIsMove(fw, bands, b', k');
          IndexOrder(bands, b', k', b, k);
        }
      }
    }
  }

  // ----- The cached loop -----

  // mt7996_mcu_get_cal_free_data, given the tables chosen for the chip.
  method GetCalFreeData(dev: Mt7996, bands: seq<Band>) returns (ret: int)
    requires dev.Valid() && InImage(bands)
    modifies dev.data
    ensures (dev.data[..], ret) == Merge(dev.fw, old(dev.data[..]), AllMoves(bands))
    ensures forall x: nat :: x < 7680 ==> ByteMerged(dev.fw, bands, x, old(dev.data[..])[x], dev.data[..][x])
    ensures Returned(dev.fw, bands, ret)
  {
    ghost var before := dev.data[..];
    ret := MergeBands(dev, bands);
    forall x: nat | x < 7680
      ensures ByteMerged(dev.fw, bands, x, before[x], dev.data[..][x])
    {
      MergedByte(dev.fw, before, bands, x);
    }
    MergedResult(dev.fw, before, bands);
  }

  // The loop over bands.
  method MergeBands(dev: Mt7996, bands: seq<Band>) returns (ret: int)
    requires dev.Valid() && InImage(bands)
    modifies dev.data
    ensures (dev.data[..], ret) == Merge(dev.fw, old(dev.data[..]), AllMoves(bands))
  {
    var band := 0;
    ghost var start := dev.data[..];
    assert AllMoves(bands) == AllMoves(bands[0..]);
    while band < |bands|
      invariant band <= |bands|
      invariant Merge(dev.fw, start, AllMoves(bands)) == Merge(dev.fw, dev.data[..], AllMoves(bands[band..]))
    {
      assert bands[band..][1..] == bands[band + 1..];
      MergeAppend(dev.fw, dev.data[..], Moves(bands[band], 0), AllMoves(bands[band + 1..]));
      ret := MergeBand(dev, bands[band]);
      if ret != 0 {
        return;
      }
      band := band + 1;
    }
    assert bands[band..] == [];
    return 0;
  }

  method MergeBand(dev: Mt7996, b: Band) returns (ret: int)
    requires dev.Valid() && InImage([b])
    modifies dev.data
    ensures (dev.data[..], ret) == Merge(dev.fw, old(dev.data[..]), Moves(b, 0))
  {
    var buf := new u8[BLOCK_SIZE](_ => 0);
    var prev: u16 := NO_BLOCK;
    ghost var start := dev.data[..];
    var i := 0;
    while i < |b.cal|
      invariant i <= |b.cal|
      invariant prev == NO_BLOCK || CacheHolds(dev.fw, prev, buf[..])
      invariant Merge(dev.fw, start, Moves(b, 0)) == Merge(dev.fw, dev.data[..], Moves(b, i))
    {
      assert ToMove(b, b.cal[i]).dst < EEPROM_SIZE by { assert b in [b] && b.cal[i] in b.cal; }
      assert Moves(b, i)[0] == ToMove(b, b.cal[i]) && Moves(b, i)[1..] == Moves(b, i + 1);
      MergeUnfold(dev.fw, dev.data[..], Moves(b, i));
      ret, prev := MergeEntry(dev, b, b.cal[i], buf, prev);
      if ret != 0 {
        return ret;
      }
      i := i + 1;
    }
    assert Moves(b, i) == [];
    return 0;
  }

  lemma MergeUnfold(fw: Firmware, e: seq<u8>, ms: seq<Move>)
    requires ms != []
    ensures Merge(fw, e, ms) ==
      if Hard(fw, ms[0]) then (e, ReadCode(fw, ms[0])) else Merge(fw, MergeOne(fw, e, ms[0]), ms[1..])
  {
  }

  // The effect of one table entry on the image.
  function MergeOne(fw: Firmware, e: seq<u8>, m: Move): seq<u8> {
    if ReadCode(fw, m) == 0 && m.dst < |e| then e[m.dst := ReadByte(fw, m)] else e
  }

  // The body of the loop over a band's table; prev is the index of the cached block.
  method MergeEntry(dev: Mt7996, b: Band, c: Cal, buf: array<u8>, prev: u16) returns (ret: int, prev': u16)
    requires dev.Valid() && buf != dev.data && buf.Length == BLOCK_SIZE && ToMove(b, c).dst < EEPROM_SIZE
    requires prev == NO_BLOCK || CacheHolds(dev.fw, prev, buf[..])
    modifies dev.data, buf
    ensures prev' == NO_BLOCK || CacheHolds(dev.fw, prev', buf[..])
    ensures ret == if Hard(dev.fw, ToMove(b, c)) then ReadCode(dev.fw, ToMove(b, c)) else 0
    ensures dev.data[..] == MergeOne(dev.fw, old(dev.data[..]), ToMove(b, c))
  {
    var adieOffset: u16 := (c.adieOffs + b.base) % 0x1_0000;
    var eepOffset: u16 := (c.eepOffs - b.back) % 0x1_0000;
    var blockIdx: u16 := adieOffset / BLOCK_SIZE;
    var offset := adieOffset % BLOCK_SIZE;
    if prev != blockIdx {
      var code := FillCache(dev, adieOffset, buf);
      if code != 0 {
        if code != -EINVAL {
          return code, NO_BLOCK;
        }
        return 0, NO_BLOCK;
      }
    }
    dev.data[eepOffset] := buf[offset];
    return 0, blockIdx;
  }

  // Zero the cache and read the block of src into it.
  method FillCache(dev: Mt7996, src: u16, buf: array<u8>) returns (code: int)
    requires dev.Valid() && buf != dev.data && buf.Length == BLOCK_SIZE
    modifies buf, dev.data
    ensures dev.data[..] == old(dev.data[..])
    ensures code == Code(Block(dev.fw, src))
    ensures code == 0 ==> CacheHolds(dev.fw, src / BLOCK_SIZE, buf[..])
  {
    forall k | 0 <= k < BLOCK_SIZE {
      buf[k] := 0;
    }
    var o := dev.GetEeprom(src, buf, BLOCK_SIZE, Efuse);
    return o.ret;
  }

  // buf is the readable block idx.
  ghost predicate CacheHolds(fw: Firmware, idx: u16, buf: seq<u8>) {
    && idx <= 4095
    && var r := Block(fw, idx * BLOCK_SIZE);
    && Code(r) == 0 && |buf| == BLOCK_SIZE
    && forall k :: 0 <= k < BLOCK_SIZE ==> buf[k] == r.data(k)
  }

  // ----- Sending -----

  function Concat(pages: seq<seq<u8>>): seq<u8> {
    if pages == [] then [] else Concat(pages[..|pages| - 1]) + pages[|pages| - 1]
  }

  // Page k: 1024 bytes, or what is left of them.
  function PageOf(s: seq<u8>, k: nat): seq<u8>
    requires 1024 * k < |s|
  {
    s[1024 * k..if 1024 * (k + 1) < |s| then 1024 * (k + 1) else |s|]
  }

  ghost predicate ArePages(s: seq<u8>, pages: seq<seq<u8>>) {
    forall k :: 0 <= k < |pages| ==> 1024 * k < |s| && pages[k] == PageOf(s, k)
  }

  // Pages in order hold a prefix of the buffer, and all of it if there are enough of them.
  lemma PagesHold(s: seq<u8>, pages: seq<seq<u8>>)
    requires ArePages(s, pages)
    ensures Concat(pages) <= s
    ensures |s| <= 1024 * |pages| ==> Concat(pages) == s
  {
    PagesConcat(s, pages);
  }

  lemma {:induction false} PagesConcat(s: seq<u8>, pages: seq<seq<u8>>)
    requires ArePages(s, pages)
    ensures Concat(pages) == s[..if 1024 * |pages| < |s| then 1024 * |pages| else |s|]
  {
    if pages != [] {
      PagesConcat(s, pages[..|pages| - 1]);
    }
  }

  lemma PagesAppend(s: seq<u8>, pages: seq<seq<u8>>, page: seq<u8>)
    requires ArePages(s, pages) && 1024 * |pages| < |s| && page == PageOf(s, |pages|)
    ensures ArePages(s, pages + [page])
  {
  }

  // The page loop of mt7996_mcu_set_eeprom for a buffer of any 16-bit size; send(i) is the result
  // of sending page i.  The pages handed to the firmware split the buffer in order and end early
  // only at a send error.
  method SendPages(eep: array<u8>, send: nat -> int) returns (ret: int, pages: seq<seq<u8>>)
    requires eep.Length < 0x1_0000
    ensures ArePages(eep[..], pages) && Concat(pages) <= eep[..]
    ensures forall k :: 0 <= k < |pages| - 1 ==> send(k) == 0
    ensures ret == if pages == [] then 0 else send(|pages| - 1)
    ensures ret == 0 ==> Concat(pages) == eep[..] && IsTotal(eep.Length, |pages|)
  {
    var total := PageTotal(eep.Length);
    var pos, i := 0, 0;
    pages := [];
    while i < total
      invariant i <= total && |pages| == i
      invariant i < total ==> pos == 1024 * i
      invariant forall k :: 0 <= k < i ==> send(k) == 0
      invariant ArePages(eep[..], pages)
    {
      var page := CutPage(eep, pos, i, total);
      PagesAppend(eep[..], pages, page);
      pages := pages + [page];
      if send(i) != 0 {
        PagesHold(eep[..], pages);
        return send(i), pages;
      }
      i, pos := i + 1, pos + |page|;
    }
    PagesHold(eep[..], pages);
    return 0, pages;
  }

  // The least number of 1024-byte pages that hold size bytes.
  predicate IsTotal(size: nat, total: nat) {
    1024 * total - 1024 < size <= 1024 * total
  }

  // The number of pages, an 8-bit number.
  method PageTotal(size: nat) returns (total: nat)
    requires size < 0x1_0000
    ensures IsTotal(size, total)
  {
    total := (size + PER_PAGE_SIZE - 1) / PER_PAGE_SIZE % 0x100;
  }

  // Page i of total, which starts at pos.
  method CutPage(eep: array<u8>, pos: nat, i: nat, total: nat) returns (page: seq<u8>)
    requires IsTotal(eep.Length, total) && i < total && pos == 1024 * i
    ensures 1024 * i < eep.Length && page == PageOf(eep[..], i)
    ensures pos + |page| == if 1024 * (i + 1) < eep.Length then 1024 * (i + 1) else eep.Length
  {
    var eepLen := PER_PAGE_SIZE;
    if i == total - 1 && eep.Length % PER_PAGE_SIZE != 0 {
      eepLen := eep.Length % PER_PAGE_SIZE;
    }
    page := eep[pos..pos + eepLen];
  }

  // mt7996_mcu_set_eeprom: a failed merge sends nothing; otherwise the merged image is sent.
  method SetEeprom(dev: Mt7996, bands: seq<Band>, send: nat -> int) returns (ret: int, pages: seq<seq<u8>>)
    requires dev.Valid() && InImage(bands)
    modifies dev.data
    ensures var (merged, code) := Merge(dev.fw, old(dev.data[..]), AllMoves(bands));
      && dev.data[..] == merged
      && (code != 0 ==> ret == code && pages == [])
      && ArePages(merged, pages)
      && (code == 0 && ret == 0 ==> Concat(pages) == merged && |pages| == 8)
  {
    ret := GetCalFreeData(dev, bands);
    if ret != 0 {
      return ret, [];
    }
    ret, pages := SendPages(dev.data, send);
  }
}
