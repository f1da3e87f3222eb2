/**
  The radio list option of iw: parsing "all" or a comma-separated list of radio numbers into a bit
  mask, and printing a mask.
 */
module RadioMask {
  import opened Wrappers
  import opened Bits
  import opened CNumbers
  import opened Strings

  // mask | 1 << id
  function SetBit(m: nat, id: nat): nat {
    Or(m, Shl(1, id))
  }

  lemma SetBitBits(m: nat, i: nat, j: nat)
    ensures Bit(SetBit(m, i), j) <==> i == j || Bit(m, j)
  {
    OrBits(m, Shl(1, i), j);
    ShlBits(1, i, j);
    if i < j {
      ZeroBits(j - i - 1);
    }
  }

  function SetAll(m: nat, ids: seq<nat>): nat
    decreases |ids|
  {
    if ids == [] then m else SetAll(SetBit(m, ids[0]), ids[1..])
  }

  lemma {:induction false} SetAllBits(m: nat, ids: seq<nat>, j: nat)
    ensures Bit(SetAll(m, ids), j) <==> j in ids || Bit(m, j)
    decreases |ids|
  {
    if ids != [] {
      SetAllBits(SetBit(m, ids[0]), ids[1..], j);
      SetBitBits(m, ids[0], j);
    }
  }

  // ----- The parser -----

  // The items from s on, with `mask` collected so far; None is the error return.
  function ParseItems(s: string, mask: nat): Option<nat>
    decreases |s|
  {
    if s == [] then None
    else
      var (id, end) := Strtoul(s);
      StrtoulShort(s);
      if id > 31 then None
      else if end == [] then Some(SetBit(mask, id))
      else if end == s || end[0] != ',' then None
      else ParseItems(end[1..], SetBit(mask, id))
  }

  function ParseSpec(arg: Option<string>): Option<nat> {
    match arg
    case None => None
    case Some(s) => if s == "all" then Some(0) else ParseItems(s, 0)
  }

  // parse_radio_list; the mask is what is put into the message.
  method ParseRadioList(arg: Option<string>) returns (res: Option<nat>)
    ensures res == ParseSpec(arg)
  {
    if arg.None? {
      return None;
    }
    var mask, str := 0, arg.value;
    if str == "all" {
      return Some(mask);
    }
    while true
      invariant ParseItems(arg.value, 0) == ParseItems(str, mask)
      decreases |str|
    {
      if str == [] {
        return None;
      }
      var (id, end) := Strtoul(str);
      StrtoulShort(str);
      if id > 31 {
        return None;
      }
      mask := SetBit(mask, id);
      if end == [] {
        break;
      }
      if end == str || end[0] != ',' {
        return None;
      }
      str := end[1..];
    }
    return Some(mask);
  }

  // ----- What it accepts -----

  // A list item is a complete number of at most 31.
  predicate ItemOk(p: string) {
    p != [] && Strtoul(p).1 == [] && Strtoul(p).0 <= 31
  }

  function Values(parts: seq<string>): (ids: seq<nat>)
    ensures |ids| == |parts| && forall k :: 0 <= k < |ids| ==> ids[k] == Strtoul(parts[k]).0
  {
    seq(|parts|, k requires 0 <= k < |parts| => Strtoul(parts[k]).0)
  }

  predicate Stops(t: string) {
    StopsAt(t, ',')
  }

  lemma MagnitudeLocal(u: string, t: string)
    requires Stops(t)
    ensures Magnitude(u + t) == (Magnitude(u).0, Magnitude(u).1 + t)
  {
    DigitsLocal(u, t, 8, 0);
    DigitsLocal(u, t, 10, 0);
    if |u| >= 2 {
      assert (u + t)[2..] == u[2..] + t;
      DigitsLocal(u[2..], t, 16, 0);
    }
  }

  // Reading a number looks no further than the next comma.
  lemma StrtoulLocal(p: string, t: string)
    requires Stops(t)
    ensures Strtoul(p + t) == (Strtoul(p).0, Strtoul(p).1 + t)
  {
    SkipLocal(p, t, ',');
    var s := SkipSpace(p);
    var u := if s != [] && (s[0] == '-' || s[0] == '+') then s[1..] else s;
    MagnitudeLocal(u, t);
    if s != [] && (s[0] == '-' || s[0] == '+') {
      assert (s + t)[1..] == u + t;
    }
    SameTail(Magnitude(u).1, u, t);
  }

  lemma SameTail(a: string, b: string, t: string)
    ensures a + t == b + t <==> a == b
  {
    if a + t == b + t {
      assert a == (a + t)[..|a|] && b == (b + t)[..|b|];
    }
  }

  lemma {:induction false} SplitCases(s: string)
    ensures var p := Split(s, ',')[0];
      && ',' !in p
      && (if |Split(s, ',')| == 1 then s == p
          else |s| > |p| && s == p + [','] + s[|p| + 1..] && Split(s, ',')[1..] == Split(s[|p| + 1..], ','))
  {
    if s != [] {
      SplitCases(s[1..]);
      if s[0] != ',' {
        var r := s[1..];
        var q := Split(r, ',')[0];
        assert Split(s, ',')[0] == [s[0]] + q;
        if |Split(r, ',')| > 1 {
          assert Split(s, ',')[1..] == Split(r, ',')[1..];
          assert r[|q| + 1..] == s[|q| + 2..];
          assert s == [s[0]] + r;
        }
      }
    }
  }

  // The first item of a list: a bad one makes the parser fail, a good one sets its bit.
  lemma ParseFirst(p: string, t: string, mask: nat)
    requires ',' !in p && Stops(t)
    ensures ParseItems(p + t, mask) ==
      if !ItemOk(p) then None
      else if t == [] then Some(SetBit(mask, Strtoul(p).0))
      else ParseItems(t[1..], SetBit(mask, Strtoul(p).0))
  {
    StrtoulLocal(p, t);
    var rest := Strtoul(p).1;
    if rest != [] {
      RestIsSuffix(p);
      assert rest[0] in p;
      assert (rest + t)[0] == rest[0];
    } else {
      assert rest + t == t;
    }
  }

  // On every string, the parser succeeds exactly if each comma-separated item is a complete
  // number of at most 31, and then adds exactly those bits.
  lemma {:induction false} ParseMeaning(s: string, mask: nat)
    ensures var parts := Split(s, ',');
      ParseItems(s, mask) == if AllOk(parts) then Some(SetAll(mask, Values(parts))) else None
    decreases |s|
  {
    var parts := Split(s, ',');
    var p := parts[0];
    SplitCases(s);
    var t := s[|p|..];
    assert s == p + t;
    ParseFirst(p, t, mask);
    var ids := Values(parts);
    if |parts| > 1 {
      assert t[1..] == s[|p| + 1..];
      assert ids[1..] == Values(parts[1..]);
      AllOkCons(parts);
      ParseMeaning(s[|p| + 1..], SetBit(mask, Strtoul(p).0));
    } else {
      assert t == [] && parts == [p] && ids[1..] == [];
    }
  }

  predicate AllOk(parts: seq<string>) {
    forall p :: p in parts ==> ItemOk(p)
  }

  lemma AllOkCons(parts: seq<string>)
    requires parts != []
    ensures AllOk(parts) <==> ItemOk(parts[0]) && AllOk(parts[1..])
  {
  }

  lemma RestIsSuffix(s: string)
    ensures forall c :: c in Strtoul(s).1 ==> c in s
  {
    SkipSuffix(s);
    var t := SkipSpace(s);
    var u := if t != [] && (t[0] == '-' || t[0] == '+') then t[1..] else t;
    DigitsSuffix(u, 8, 0);
    DigitsSuffix(u, 10, 0);
    if |u| > 2 {
      DigitsSuffix(u[2..], 16, 0);
    }
  }

  // ----- Decimal lists -----

  lemma StrtoulDecimal(n: nat)
    ensures Strtoul(Decimal(n)) == (if n > ULONG_MAX then ULONG_MAX else n, "")
  {
    MagnitudeDecimal(n);
    assert SkipSpace(Decimal(n)) == Decimal(n);
  }

  // A single number in any notation strtoul knows, also behind blanks and a sign, is accepted
  // exactly if its 64-bit value is at most 31, and then selects that radio alone.
  lemma SingleItem(ws: string, sign: string, s: string, v: nat)
    requires Blanks(ws) && sign in {"", "+", "-"} && Writes(s, v) && v < 0x1_0000_0000_0000_0000
    ensures var id := if sign == "-" then (0x1_0000_0000_0000_0000 - v) % 0x1_0000_0000_0000_0000 else v;
      var res := ParseSpec(Some(ws + (sign + s)));
      && (res.Some? <==> id <= 31)
      && (res.Some? ==> forall j: nat :: Bit(res.value, j) <==> j == id)
  {
    var t := ws + (sign + s);
    StrtoulReads(ws, sign, s, v);
    assert t != [] && t != "all" by { MagnitudeReads(s, v); assert t[|t| - |s|] == s[0]; }
    var id := Strtoul(t).0;
    forall j: nat
      ensures Bit(SetBit(0, id), j) <==> j == id
    {
      SetBitBits(0, id, j);
      ZeroBits(j);
    }
  }

  // The mask is 0 for the word "all" and for nothing else.
  lemma ZeroMeansAll(arg: Option<string>)
    ensures ParseSpec(arg) == Some(0) <==> arg == Some("all")
  {
    if arg.Some? && arg.value != "all" {
      var ids := Values(Split(arg.value, ','));
      ParseMeaning(arg.value, 0);
      SetAllBits(0, ids, ids[0]);
      ZeroBits(ids[0]);
    }
  }

  function Texts(ids: seq<nat>): (ts: seq<string>)
    ensures |ts| == |ids| && forall k :: 0 <= k < |ts| ==> ts[k] == Decimal(ids[k])
  {
    seq(|ids|, k requires 0 <= k < |ids| => Decimal(ids[k]))
  }

  // A nonempty list of decimal numbers parses exactly if all of them are at most 31, and then bit
  // i is set exactly if i occurs in it.
  lemma DecimalLists(ids: seq<nat>)
    requires ids != []
    ensures var res := ParseSpec(Some(Join(Texts(ids), ',')));
      && (res.Some? <==> forall i :: i in ids ==> i <= 31)
      && (res.Some? ==> forall i: nat :: Bit(res.value, i) <==> i in ids)
  {
    var parts := Texts(ids);
    var s := Join(parts, ',');
    TextsOk(ids);
    SplitJoin(parts, ',');
    ParseMeaning(s, 0);
    NotAll(s, parts);
    if AllOk(parts) {
      assert Values(parts) == ids;
      forall i: nat
        ensures Bit(SetAll(0, ids), i) <==> i in ids
      {
        SetAllBits(0, ids, i);
        ZeroBits(i);
      }
    }
  }

  lemma TextsOk(ids: seq<nat>)
    ensures Free(Texts(ids), ',')
    ensures AllOk(Texts(ids)) <==> forall i :: i in ids ==> i <= 31
    ensures AllOk(Texts(ids)) ==> Values(Texts(ids)) == ids
  {
    var parts := Texts(ids);
    forall k | 0 <= k < |ids|
      ensures ItemOk(parts[k]) <==> ids[k] <= 31
      ensures ids[k] <= 31 ==> Values(parts)[k] == ids[k]
      ensures ',' !in parts[k]
    {
      StrtoulDecimal(ids[k]);
    }
    if AllOk(parts) {
      assert forall k :: 0 <= k < |ids| ==> parts[k] in parts;
      assert Values(parts) == ids;
    } else {
      var p :| p in parts && !ItemOk(p);
      var k :| 0 <= k < |parts| && parts[k] == p;
      assert ids[k] in ids;
    }
  }

  lemma NotAll(s: string, parts: seq<string>)
    requires parts != [] && s == Join(parts, ',') && AllDigits(parts[0]) && parts[0] != []
    ensures s != "all"
  {
    assert s[0] == parts[0][0];
  }

  // ----- Printing -----

  function BitsFrom(mask: nat, i: nat): seq<nat>
    decreases mask
  {
    if mask == 0 then [] else (if mask % 2 == 1 then [i] else []) + BitsFrom(mask / 2, i + 1)
  }

  function Listed(ids: seq<nat>): string {
    if ids == [] then "" else Listed(ids[..|ids| - 1]) + " " + Decimal(ids[|ids| - 1])
  }

  // The radio part of print_iface_handler.
  method PrintRadios(indent: string, mask0: nat) returns (text: string)
    ensures text == if mask0 == 0 then "" else indent + "\tRadios:" + Listed(BitsFrom(mask0, 0)) + "\n"
  {
    text := "";
    if mask0 != 0 {
      text := indent + "\tRadios:";
      var mask, i := mask0, 0;
      ghost var ids := [];
      while mask != 0
        invariant text == indent + "\tRadios:" + Listed(ids)
        invariant BitsFrom(mask0, 0) == ids + BitsFrom(mask, i)
        decreases mask
      {
        if mask % 2 == 1 {
          ghost var before := ids;
          ids := ids + [i];
          assert ids[..|ids| - 1] == before;
          text := text + " " + Decimal(i);
        }
        i, mask := i + 1, mask / 2;
      }
      assert ids + [] == ids;
      text := text + "\n";
    }
  }

  lemma {:induction false} BitsFromBits(mask: nat, i: nat, j: nat)
    ensures j in BitsFrom(mask, i) <==> i <= j && Bit(mask, j - i)
    decreases mask
  {
    if mask == 0 {
      if i <= j {
        ZeroBits(j - i);
      }
    } else {
      BitsFromBits(mask / 2, i + 1, j);
      if i < j {
        assert Bit(mask, j - i) <==> Bit(mask / 2, j - i - 1);
      }
    }
  }

  // The words of the printed text are the decimal ids.
  lemma {:induction false} ListedWords(ids: seq<nat>)
    ensures Split(Listed(ids), ' ') == [""] + Texts(ids)
  {
    ListedIsJoin(ids);
    var words := [""] + Texts(ids);
    SplitJoin(words, ' ');
  }

  lemma {:induction false} ListedIsJoin(ids: seq<nat>)
    ensures Listed(ids) == Join([""] + Texts(ids), ' ')
  {
    if ids == [] {
      assert Texts(ids) == [];
    } else {
      var n := |ids| - 1;
      ListedIsJoin(ids[..n]);
      assert [""] + Texts(ids) == [""] + Texts(ids[..n]) + [Decimal(ids[n])];
      JoinAppend([""] + Texts(ids[..n]), Decimal(ids[n]), ' ');
    }
  }

  predicate Ascending(ids: seq<nat>, from: nat) {
    && (forall k :: 0 <= k < |ids| ==> from <= ids[k])
    && forall a, b :: 0 <= a < b < |ids| ==> ids[a] < ids[b]
  }

  lemma AscendingCons(i: nat, rest: seq<nat>)
    requires Ascending(rest, i + 1)
    ensures Ascending([i] + rest, i)
  {
  }

  // The printed numbers ascend.
  lemma {:induction false} BitsAscend(mask: nat, i: nat)
    ensures Ascending(BitsFrom(mask, i), i)
    decreases mask
  {
    if mask != 0 {
      var rest := BitsFrom(mask / 2, i + 1);
      BitsAscend(mask / 2, i + 1);
      AscendingCons(i, rest);
      assert [] + rest == rest;
    }
  }

  // The numbers printed for any nonzero 32-bit mask, joined by commas, parse back to that mask.
  lemma RoundTrip(mask: u32)
    requires mask != 0
    ensures ParseSpec(Some(Join(Texts(BitsFrom(mask, 0)), ','))) == Some(mask)
  {
    var ids := BitsFrom(mask, 0);
    forall j: nat
      ensures j in ids <==> Bit(mask, j)
      ensures j in ids ==> j <= 31
    {
      BitsFromBits(mask, 0, j);
      if Bit(mask, j) {
        Pow32();
        BitBound(mask, 32, j);
      }
    }
    if ids == [] {
      forall i: nat
        ensures Bit(mask, i) <==> Bit(0, i)
      {
        ZeroBits(i);
      }
      SameBits(mask, 0);
    }
    DecimalLists(ids);
    SameBits(ParseSpec(Some(Join(Texts(ids), ','))).value, mask);
  }
}
