/** The maccalc utility: MAC address text, arithmetic on the low three bytes, and safe reading. */
module MacCalc {
  import opened Wrappers
  import opened Strings
  import opened CNumbers

  const MAC_ADDRESS_LEN: nat := 6
  const ERR_INVALID := 1

  // ----- Text -----

  // %02x
  function Hex2(b: u8): string {
    [HexDigit(b / 16), HexDigit(b % 16)]
  }

  function PrintFrom(mac: seq<u8>): string {
    if mac == [] then "\n" else if |mac| == 1 then Hex2(mac[0]) + "\n" else Hex2(mac[0]) + ":" + PrintFrom(mac[1..])
  }

  // print_mac
  function Print(mac: seq<u8>): string
    requires |mac| == MAC_ADDRESS_LEN
  {
    PrintFrom(mac)
  }

  // %2hhx: after blanks, one or two hex digits; None if there is none.
  function ScanByte(s: string): Option<(u8, string)> {
    var t := SkipSpace(s);
    if t == [] || DigitValue(t[0]) >= 16 then None
    else if |t| == 1 || DigitValue(t[1]) >= 16 then Some((DigitValue(t[0]), t[1..]))
    else Some((DigitValue(t[0]) * 16 + DigitValue(t[1]), t[2..]))
  }

  // The bytes converted by n colon-separated %2hhx conversions before the first mismatch.
  function Scan(s: string, n: nat): (bs: seq<u8>)
    ensures |bs| <= n
    decreases n
  {
    if n == 0 then []
    else match ScanByte(s)
      case None => []
      case Some((b, rest)) => [b] + if rest != [] && rest[0] == ':' then Scan(rest[1..], n - 1) else []
  }

  // parse_mac; the bytes converted before a mismatch stay written.
  method ParseMac(macStr: string, buf: array<u8>) returns (err: int)
    requires buf.Length == MAC_ADDRESS_LEN
    modifies buf
    ensures buf[..] == Scan(macStr, 6) + old(buf[..])[|Scan(macStr, 6)|..]
    ensures err == if |Scan(macStr, 6)| == 6 then 0 else 1
  {
    var bs := Scan(macStr, 6);
    forall k | 0 <= k < |bs| {
      buf[k] := bs[k];
    }
    return if |bs| != MAC_ADDRESS_LEN then ERR_INVALID else 0;
  }

  lemma ScanHex2(b: u8, rest: string)
    ensures ScanByte(Hex2(b) + rest) == Some((b, rest))
  {
  }

  lemma ScanStep(s: string, n: nat, b: u8, rest: string)
    requires n > 0 && ScanByte(s) == Some((b, rest))
    ensures Scan(s, n) == [b] + if rest != [] && rest[0] == ':' then Scan(rest[1..], n - 1) else []
  {
  }

  lemma {:induction false} ScanPrinted(mac: seq<u8>, n: nat)
    requires |mac| == n
    ensures Scan(PrintFrom(mac), n) == mac
  {
    if n > 0 {
      var s := PrintFrom(mac);
      var rest := if n == 1 then "\n" else ":" + PrintFrom(mac[1..]);
      assert s == Hex2(mac[0]) + rest;
      ScanHex2(mac[0], rest);
      ScanStep(s, n, mac[0], rest);
      if n > 1 {
        assert rest[1..] == PrintFrom(mac[1..]);
        ScanPrinted(mac[1..], n - 1);
      }
    }
  }

  // Parsing what was printed gives the address back.
  lemma ParsePrint(mac: seq<u8>)
    requires |mac| == MAC_ADDRESS_LEN
    ensures Scan(Print(mac), 6) == mac
  {
    ScanPrinted(mac, 6);
  }

  // The text: two lower-case hex digits for each byte, separated by colons, and a newline.
  lemma PrintedText(mac: seq<u8>, k: nat)
    requires |mac| == 6 && k < 6
    ensures |Print(mac)| == 18
    ensures Print(mac)[3 * k..3 * k + 2] == ["0123456789abcdef"[mac[k] / 16], "0123456789abcdef"[mac[k] % 16]]
    ensures Print(mac)[3 * k + 2] == if k == 5 then '\n' else ':'
  {
    PrintSuffix(mac, k);
    var s, t := Print(mac), PrintFrom(mac[k..]);
    assert t[..2] == Hex2(mac[k]) && t[2] == if k == 5 then '\n' else ':';
    assert s[3 * k..3 * k + 2] == s[3 * k..][..2] && s[3 * k + 2] == s[3 * k..][2];
  }

  lemma {:induction false} PrintSuffix(mac: seq<u8>, k: nat)
    requires k < |mac|
    ensures |PrintFrom(mac)| == 3 * |mac|
    ensures PrintFrom(mac)[3 * k..] == PrintFrom(mac[k..])
  {
    var s := PrintFrom(mac);
    if k == 0 {
      assert mac[0..] == mac;
      if |mac| > 1 {
        PrintSuffix(mac[1..], 0);
      }
    } else {
      PrintSuffix(mac[1..], k - 1);
      assert s == Hex2(mac[0]) + ":" + PrintFrom(mac[1..]);
      assert s[3..] == PrintFrom(mac[1..]) && s[3 * k..] == s[3..][3 * (k - 1)..];
      assert mac[1..][k - 1..] == mac[k..];
    }
  }

  // One field: blanks and one or two hex digits.
  lemma FieldReads(ws: string, c: char, t: string)
    requires Blanks(ws) && DigitValue(c) < 16
    ensures ScanByte(ws + ([c] + t)) ==
      if t != [] && DigitValue(t[0]) < 16 then Some((16 * DigitValue(c) + DigitValue(t[0]), t[1..]))
      else Some((DigitValue(c), t))
  {
    var s := [c] + t;
    assert !IsSpace(c);
    SkipBlanks(ws, s);
    assert s[1..] == t && (t != [] ==> s[2..] == t[1..]);
  }

  // Anything else behind the blanks is a mismatch.
  lemma FieldMissing(ws: string, t: string)
    requires Blanks(ws) && (t == [] || (!Blanks([t[0]]) && DigitValue(t[0]) >= 16))
    ensures ScanByte(ws + t) == None
  {
    if t == [] {
      assert ws + t == ws;
      SkipAll(ws);
    } else {
      SpaceIsBlank(t[0]);
      SkipBlanks(ws, t);
    }
  }

  // Case plays no role in parsing, so that an address is also read in upper case.
  lemma {:induction false} ScanIgnoresCase(s: string, n: nat)
    ensures Scan(UpperCase(s), n) == Scan(s, n)
    decreases n
  {
    if n > 0 {
      ByteIgnoresCase(s);
      match ScanByte(s) {
        case None =>
        case Some((b, rest)) =>
          if rest != [] && rest[0] == ':' {
            assert UpperCase(rest)[1..] == UpperCase(rest[1..]);
            ScanIgnoresCase(rest[1..], n - 1);
          }
      }
    }
  }

  lemma ByteIgnoresCase(s: string)
    ensures ScanByte(UpperCase(s)) ==
      match ScanByte(s)
      case None => None
      case Some((b, rest)) => Some((b, UpperCase(rest)))
  {
    SkipIgnoresCase(s);
    var t := SkipSpace(s);
    if t != [] {
      assert UpperCase(t)[1..] == UpperCase(t[1..]);
      assert |t| > 1 ==> UpperCase(t)[2..] == UpperCase(t[2..]);
    }
  }

  lemma {:induction false} SkipIgnoresCase(s: string)
    ensures SkipSpace(UpperCase(s)) == UpperCase(SkipSpace(s))
  {
    if s != [] && IsSpace(s[0]) {
      assert UpperCase(s)[1..] == UpperCase(s[1..]);
      SkipIgnoresCase(s[1..]);
    }
  }

  // ----- Addition -----

  const LOW: nat := 0x100_0000

  function BigEndian(a: int, b: int, c: int): int {
    a * 65536 + b * 256 + c
  }

  lemma SplitBytes(t: nat)
    ensures BigEndian(t / 65536 % 256, t / 256 % 256, t % 256) == t % LOW
  {
    var t1, c := t / 256, t % 256;
    var t2, b := t1 / 256, t1 % 256;
    var t3, a := t2 / 256, t2 % 256;
    assert t == 256 * t1 + c && t1 == 256 * t2 + b && t2 == 256 * t3 + a;
    assert t / 65536 == t2;
    assert t == LOW * t3 + BigEndian(a, b, c);
    assert t / LOW == t3;
  }

  // The number in the last three bytes.
  function Low(mac: seq<u8>): (v: nat)
    requires |mac| == MAC_ADDRESS_LEN
    ensures v < LOW
  {
    BigEndian(mac[3], mac[4], mac[5])
  }

  // m is mac with i added to the low three bytes modulo 2^24.
  predicate IsSum(mac: seq<u8>, i: int, m: seq<u8>)
    requires |mac| == MAC_ADDRESS_LEN
  {
    |m| == MAC_ADDRESS_LEN && m[..3] == mac[..3] && Low(m) == (Low(mac) + i) % LOW
  }

  // The bytes maccalc_do_add stores, as a 24-bit number.
  lemma StoredLow(v: int, t: u32)
    requires t == v % 0x1_0000_0000
    ensures BigEndian(t / 65536 % 256, t / 256 % 256, t % 256) == v % LOW
  {
    SplitBytes(t);
    ModMod(v);
  }

  // maccalc_do_add computes in 32-bit wrap-around, yet adds modulo 2^24 to the low three bytes and
  // leaves the others alone.
  method AddInPlace(mac: array<u8>, i: int)
    requires mac.Length == MAC_ADDRESS_LEN
    modifies mac
    ensures IsSum(old(mac[..]), i, mac[..])
    ensures mac[0] == old(mac[0]) && mac[1] == old(mac[1]) && mac[2] == old(mac[2])
    ensures (mac[3] as int) * 65536 + (mac[4] as int) * 256 + mac[5]
      == ((old(mac[3]) as int) * 65536 + (old(mac[4]) as int) * 256 + old(mac[5]) + i) % 16777216
  {
    ghost var before := mac[..];
    var t: u32 := BigEndian(mac[3], mac[4], mac[5]);
    ghost var v := t + i;
    t := (t + i) % 0x1_0000_0000;
    StoredLow(v, t);
    StoreLow(mac, t);
    assert v == Low(before) + i;
  }

  method StoreLow(mac: array<u8>, t: u32)
    requires mac.Length == MAC_ADDRESS_LEN
    modifies mac
    ensures mac[..3] == old(mac[..3])
    ensures BigEndian(mac[3], mac[4], mac[5]) == BigEndian(t / 65536 % 256, t / 256 % 256, t % 256)
  {
    mac[3] := t / 65536 % 256;
    mac[4] := t / 256 % 256;
    mac[5] := t % 256;
  }

  lemma ModMod(v: int)
    ensures v % 0x1_0000_0000 % LOW == v % LOW
  {
  }

  lemma LowDetermines(a: seq<u8>, b: seq<u8>)
    requires |a| == |b| == MAC_ADDRESS_LEN && a[..3] == b[..3] && Low(a) == Low(b)
    ensures a == b
  {
    assert a[0] == a[..3][0] && a[1] == a[..3][1] && a[2] == a[..3][2];
    assert b[0] == b[..3][0] && b[1] == b[..3][1] && b[2] == b[..3][2];
    assert a[3] == b[3] && a[4] == b[4] && a[5] == b[5];
  }

  lemma WrapTwice(x: int, i: int, y: int, j: int, z: int)
    requires y == (x + i) % LOW && z == (y + j) % LOW
    ensures z == (x + (i + j)) % LOW
  {
  }

  // Adding i and then j is adding i + j.
  lemma SumsCompose(mac: seq<u8>, i: int, one: seq<u8>, j: int, two: seq<u8>)
    requires |mac| == MAC_ADDRESS_LEN && IsSum(mac, i, one) && IsSum(one, j, two)
    ensures IsSum(mac, i + j, two)
  {
    WrapTwice(Low(mac), i, Low(one), j, Low(two));
  }

  lemma SumIsUnique(mac: seq<u8>, i: int, one: seq<u8>, two: seq<u8>)
    requires |mac| == MAC_ADDRESS_LEN && IsSum(mac, i, one) && IsSum(mac, i, two)
    ensures one == two
    ensures i == 0 ==> one == mac
  {
    LowDetermines(one, two);
    if i == 0 {
      LowDetermines(one, mac);
    }
  }

  // maccalc_do_add; None is an error exit.  By ParsePrint the output parses to sum, so that
  // SumsCompose and SumIsUnique speak about feeding it to the next run.
  method DoAdd(args: seq<string>) returns (out: Option<string>, ghost sum: seq<u8>)
    ensures out.Some? <==> |args| == 2 && |Scan(args[0], 6)| == 6
    ensures out.Some? ==> IsSum(Scan(args[0], 6), ToInt(Strtol(args[1])), sum) && out.value == Print(sum)
  {
    if |args| != 2 {
      return None, [];
    }
    var mac := new u8[MAC_ADDRESS_LEN](_ => 0);
    var err := ParseMac(args[0], mac);
    if err != 0 {
      return None, [];
    }
    assert mac[..] == Scan(args[0], 6);
    var i := ToInt(Strtol(args[1]));
    AddInPlace(mac, i);
    return Some(Print(mac[..])), mac[..];
  }

  // ----- read_safe -----

  // One read call: some bytes (a signal may cut them short), end of file, EINTR or another error.
  datatype ReadResult = Data(chunk: seq<u8>) | Eof | Intr | Fail

  // What the descriptor delivers in all: its bytes up to the first end of file or error, and
  // whether an error follows them.  An exhausted schedule is at end of file.
  function Payload(sched: seq<ReadResult>): (seq<u8>, bool) {
    if sched == [] then ([], false)
    else match sched[0]
      case Intr => Payload(sched[1..])
      case Eof => ([], false)
      case Fail => ([], true)
      case Data(c) => if c == [] then ([], false) else var (p, f) := Payload(sched[1..]); (c + p, f)
  }

  // A chunk has at least one byte.
  predicate Chunks(rs: seq<ReadResult>) {
    forall k :: 0 <= k < |rs| ==> rs[k].Intr? || (rs[k].Data? && rs[k].chunk != [])
  }

  function Bytes(rs: seq<ReadResult>): seq<u8> {
    if rs == [] then [] else (if rs[0].Data? then rs[0].chunk else []) + Bytes(rs[1..])
  }

  // The payload is the chunks put together up to an end of file (or an empty read) or an error.
  lemma {:induction false} PayloadIsBytes(rs: seq<ReadResult>, last: ReadResult, rest: seq<ReadResult>)
    requires Chunks(rs) && last in {Eof, Data([]), Fail}
    ensures Payload(rs) == (Bytes(rs), false)
    ensures Payload(rs + [last] + rest) == (Bytes(rs), last == Fail)
    decreases |rs|
  {
    var all := rs + [last] + rest;
    if rs == [] {
      assert all[0] == last;
    } else {
      PayloadIsBytes(rs[1..], last, rest);
      assert all[0] == rs[0] && all[1..] == rs[1..] + [last] + rest;
      assert [] + Bytes(rs[1..]) == Bytes(rs[1..]);
    }
  }

  // An interruption anywhere makes no difference.
  lemma {:induction false} InterruptionIgnored(before: seq<ReadResult>, behind: seq<ReadResult>)
    ensures Payload(before + [Intr] + behind) == Payload(before + behind)
    decreases |before|
  {
    if before == [] {
      assert before + behind == behind && ([Intr] + behind)[1..] == behind && before + [Intr] + behind == [Intr] + behind;
    } else {
      InterruptionIgnored(before[1..], behind);
      assert (before + [Intr] + behind)[1..] == before[1..] + [Intr] + behind;
      assert (before + behind)[1..] == before[1..] + behind;
    }
  }

  // Nor does it matter where a chunk is cut.
  lemma {:induction false} CutsIgnored(before: seq<ReadResult>, c: seq<u8>, d: seq<u8>, behind: seq<ReadResult>)
    requires c != [] && d != []
    ensures Payload(before + [Data(c), Data(d)] + behind) == Payload(before + [Data(c + d)] + behind)
    decreases |before|
  {
    var two, one := before + [Data(c), Data(d)] + behind, before + [Data(c + d)] + behind;
    if before == [] {
      assert two[1..] == [Data(d)] + behind && two[1..][1..] == behind && one[1..] == behind;
      var p := Payload(behind).0;
      assert c + (d + p) == c + d + p;
    } else {
      CutsIgnored(before[1..], c, d, behind);
      assert two[1..] == before[1..] + [Data(c), Data(d)] + behind;
      assert one[1..] == before[1..] + [Data(c + d)] + behind;
    }
  }

  function Min(a: nat, b: nat): nat {
    if a < b then a else b
  }

  // However the bytes are cut into reads and however often a read is interrupted, read_safe
  // stores the first `count` bytes of the payload, or all of it, and returns their number; it
  // returns -1 exactly if the payload is too short and ends in an error.
  method ReadSafe(sched: seq<ReadResult>, buf: array<u8>, count: nat) returns (total: int)
    requires count <= buf.Length
    modifies buf
    ensures var (p, failed) := Payload(sched);
      && total == (if failed && |p| < count then -1 else Min(|p|, count))
      && buf[..Min(|p|, count)] == p[..Min(|p|, count)]
      && buf[Min(|p|, count)..] == old(buf[..])[Min(|p|, count)..]
  {
    total := 0;
    var left, k := count, 0;
    ghost var p := Payload(sched).0;
    assert sched[0..] == sched;
    while left > 0
      invariant k <= |sched| && 0 <= left <= count && total == count - left <= |p|
      invariant Payload(sched).1 == Payload(sched[k..]).1 || left == 0
      invariant left > 0 ==> p[total..] == Payload(sched[k..]).0
      invariant buf[..total] == p[..total] && buf[total..] == old(buf[..])[total..]
      decreases |sched| - k
    {
      if k == |sched| {
        break;
      }
      var r := sched[k];
      assert sched[k..][1..] == sched[k + 1..];
      k := k + 1;
      match r {
        case Eof =>
          break;
        case Intr =>
        case Fail =>
          total := -1;
          break;
        case Data(c) =>
          if c == [] {
            break;
          }
          var n := Min(|c|, left);
          assert p[total..] == c + Payload(sched[k..]).0;
          assert buf[total + n..] == buf[total..][n..] == old(buf[..])[total..][n..] == old(buf[..])[total + n..];
          Store(buf, total, c[..n], p);
          total, left := total + n, left - n;
      }
    }
  }

  // The bytes one read call puts at position at.
  method Store(buf: array<u8>, at: nat, c: seq<u8>, ghost p: seq<u8>)
    requires at + |c| <= buf.Length && at <= |p| && c <= p[at..] && buf[..at] == p[..at]
    modifies buf
    ensures at + |c| <= |p| && buf[..at + |c|] == p[..at + |c|]
    ensures buf[at + |c|..] == old(buf[..])[at + |c|..]
  {
    forall j | 0 <= j < |c| {
      buf[at + j] := c[j];
    }
    assert forall j :: at <= j < at + |c| ==> p[j] == p[at..][j - at] == c[j - at];
  }
}
