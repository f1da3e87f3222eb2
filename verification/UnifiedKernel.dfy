/**
  Building a unified kernel image: section addresses behind the EFI stub and the objcopy command
  line.
 */
module UnifiedKernel {
  import opened Wrappers
  import opened Strings
  import opened CNumbers

  // A section's name, address and size.
  datatype Section = Section(name: string, addr: nat, size: nat)

  // The source's rounding: always at least one byte past the given end.
  function NextAligned(end: nat, align: nat): nat
    requires align > 0
  {
    end + align - end % align
  }

  // It is the least aligned address strictly beyond the end.
  lemma NextAlignedIsLeast(end: nat, align: nat, a: nat)
    requires align > 0 && a % align == 0 && a > end
    ensures NextAligned(end, align) % align == 0
    ensures end < NextAligned(end, align) <= a && NextAligned(end, align) <= end + align
  {
    var q, k := end / align, a / align;
    assert end == align * q + end % align && a == align * k;
    assert NextAligned(end, align) == align * (q + 1) by { Distribute(align, q); }
    MulMod(align, q + 1);
    if k <= q {
      MulMonotone(align, k, q);
      assert false;
    }
    MulMonotone(align, q + 1, k);
  }

  lemma Distribute(a: nat, q: nat)
    ensures a * (q + 1) == a * q + a
  {
  }

  lemma MulMonotone(a: nat, x: nat, y: nat)
    requires x <= y
    ensures a * x <= a * y
  {
  }

  lemma MulMod(a: nat, q: nat)
    requires a > 0
    ensures a * q % a == 0
  {
    if q > 0 {
      MulMod(a, q - 1);
      assert a * q == a * (q - 1) + a;
      AddModulus(a * (q - 1), a);
    }
  }

  lemma AddModulus(x: nat, a: nat)
    requires a > 0 && x % a == 0
    ensures (x + a) % a == 0
  {
    var q := x / a;
    assert x + a == a * (q + 1);
    assert (x + a) / a == q + 1 by {
      if (x + a) / a <= q {
        MulMonotone(a, (x + a) / a, q);
      } else if (x + a) / a > q + 1 {
        MulMonotone(a, q + 2, (x + a) / a);
      }
    }
  }

  // ----- Layout -----

  datatype Sizes = Sizes(osrel: nat, cmdline: nat, dtb: Option<nat>, linux: nat, initrd: nat)

  // Each section lies at the next aligned address after the previous one.
  predicate Packed(end: nat, align: nat, secs: seq<Section>)
    requires align > 0
    decreases |secs|
  {
    secs == [] || (secs[0].addr == NextAligned(end, align) && Packed(secs[0].addr + secs[0].size, align, secs[1..]))
  }

  function Wanted(sz: Sizes): seq<(string, nat)> {
    [(".osrel", sz.osrel), (".cmdline", sz.cmdline)]
    + (if sz.dtb.Some? then [(".dtb", sz.dtb.value)] else [])
    + [(".linux", sz.linux), (".initrd", sz.initrd)]
  }

  // The wanted sections in order, packed behind the given end.
  predicate IsLayout(end: nat, align: nat, sz: Sizes, secs: seq<Section>)
    requires align > 0
  {
    && Packed(end, align, secs)
    && |secs| == |Wanted(sz)|
    && forall k :: 0 <= k < |secs| ==> secs[k].name == Wanted(sz)[k].0 && secs[k].size == Wanted(sz)[k].1
  }

  // The offset computation of do_prepare_partition; offset is the end of the stub.  Without a
  // dtb, linux takes the dtb's slot.
  method Layout(offset: nat, align: nat, sz: Sizes) returns (secs: seq<Section>)
    requires align > 0
    ensures IsLayout(offset, align, sz, secs)
    ensures |secs| == if sz.dtb.Some? then 5 else 4
    ensures secs[0].name == ".osrel" && secs[0].size == sz.osrel
    ensures secs[1].name == ".cmdline" && secs[1].size == sz.cmdline
    ensures sz.dtb.Some? ==> secs[2].name == ".dtb" && secs[2].size == sz.dtb.value
    ensures secs[|secs| - 2].name == ".linux" && secs[|secs| - 2].size == sz.linux
    ensures secs[|secs| - 1].name == ".initrd" && secs[|secs| - 1].size == sz.initrd
  {
    var osrelOff := offset + align - offset % align;
    var cmdlineOff := osrelOff + sz.osrel;
    cmdlineOff := cmdlineOff + align - cmdlineOff % align;
    var dtbOff := cmdlineOff + sz.cmdline;
    dtbOff := dtbOff + align - dtbOff % align;
    var linuxOff := dtbOff;
    var dtbs: seq<Section> := [];
    if sz.dtb.Some? {
      dtbs := [Section(".dtb", dtbOff, sz.dtb.value)];
      linuxOff := dtbOff + sz.dtb.value;
      linuxOff := linuxOff + align - linuxOff % align;
    }
    var initrdOff := linuxOff + sz.linux;
    initrdOff := initrdOff + align - initrdOff % align;
    var tail := [Section(".linux", linuxOff, sz.linux), Section(".initrd", initrdOff, sz.initrd)];
    assert Packed(dtbOff, align, []);
    assert tail[1..] == [Section(".initrd", initrdOff, sz.initrd)] && tail[1..][1..] == [];
    assert linuxOff == NextAligned(if sz.dtb.Some? then dtbOff + sz.dtb.value else cmdlineOff + sz.cmdline, align);
    assert Packed(if sz.dtb.Some? then dtbOff + sz.dtb.value else cmdlineOff + sz.cmdline, align, tail);
    var rest := dtbs + tail;
    assert sz.dtb.Some? ==> rest[1..] == tail;
    assert sz.dtb.None? ==> rest == tail;
    assert Packed(cmdlineOff + sz.cmdline, align, rest);
    var cmdline := Section(".cmdline", cmdlineOff, sz.cmdline);
    assert ([cmdline] + rest)[1..] == rest;
    secs := [Section(".osrel", osrelOff, sz.osrel)] + ([cmdline] + rest);
    assert secs[1..] == [cmdline] + rest;
  }

  lemma NextAlignedBounds(end: nat, align: nat)
    requires align > 0
    ensures NextAligned(end, align) % align == 0
    ensures end < NextAligned(end, align) <= end + align
  {
    MulMod(align, end / align + 1);
    Distribute(align, end / align);
    assert NextAligned(end, align) == align * (end / align + 1);
  }

  // All addresses are aligned, each lies 1 to align bytes past the previous end, and so sections
  // are strictly ordered and disjoint.
  lemma {:induction false} PackedSections(end: nat, align: nat, secs: seq<Section>, i: nat)
    requires align > 0 && Packed(end, align, secs) && i < |secs|
    ensures secs[i].addr % align == 0
    ensures var prev := if i == 0 then end else secs[i - 1].addr + secs[i - 1].size;
      prev < secs[i].addr <= prev + align
    ensures forall j :: 0 <= j < i ==> secs[j].addr + secs[j].size < secs[i].addr
    ensures end < secs[i].addr
    decreases |secs|
  {
    NextAlignedBounds(end, align);
    if i > 0 {
      PackedSections(secs[0].addr + secs[0].size, align, secs[1..], i - 1);
      forall j | 0 <= j < i
        ensures secs[j].addr + secs[j].size < secs[i].addr
      {
        if j > 0 {
          assert secs[j] == secs[1..][j - 1];
        }
      }
    }
  }

  // No other aligned layout that leaves at least one byte between sections puts any of them lower.
  lemma {:induction false} PackedIsTightest(end: nat, align: nat, secs: seq<Section>, addrs: seq<nat>, i: nat)
    requires align > 0 && Packed(end, align, secs) && |addrs| == |secs| && i < |secs|
    requires forall k :: 0 <= k < |addrs| ==> addrs[k] % align == 0
    requires addrs[0] > end && forall k :: 0 < k < |addrs| ==> addrs[k] > addrs[k - 1] + secs[k - 1].size
    ensures secs[i].addr <= addrs[i]
  {
    var before := if i == 0 then end else addrs[i - 1] + secs[i - 1].size;
    if i == 0 {
      NextAlignedIsLeast(end, align, addrs[0]);
    } else {
      PackedIsTightest(end, align, secs, addrs, i - 1);
      PackedAt(end, align, secs, i);
      NextAlignedIsLeast(secs[i - 1].addr + secs[i - 1].size, align, addrs[i]);
    }
  }

  lemma {:induction false} PackedAt(end: nat, align: nat, secs: seq<Section>, i: nat)
    requires align > 0 && Packed(end, align, secs) && 0 < i < |secs|
    ensures secs[i].addr == NextAligned(secs[i - 1].addr + secs[i - 1].size, align)
    decreases |secs|
  {
    if i > 1 {
      PackedAt(secs[0].addr + secs[0].size, align, secs[1..], i - 1);
    }
  }

  // ----- The objcopy command -----

  // Each token with the blank in front of it.
  function Spaced(ts: seq<string>): string {
    if ts == [] then "" else " " + ts[0] + Spaced(ts[1..])
  }

  lemma {:induction false} JoinSpaced(ts: seq<string>, us: seq<string>)
    requires ts != []
    ensures Join(ts + us, ' ') == Join(ts, ' ') + Spaced(us)
    decreases |ts| + |us|
  {
    if |ts| > 1 {
      assert (ts + us)[1..] == ts[1..] + us;
      JoinSpaced(ts[1..], us);
    } else if us != [] {
      assert (ts + us)[1..] == us && [us[0]] + us[1..] == us;
      JoinSpaced([us[0]], us[1..]);
    } else {
      assert ts + us == ts;
    }
  }

  // The last token of ts and the first of us run together.
  function Fuse(ts: seq<string>, us: seq<string>): seq<string>
    requires ts != [] && us != []
  {
    ts[..|ts| - 1] + [ts[|ts| - 1] + us[0]] + us[1..]
  }

  lemma {:induction false} JoinFuse(ts: seq<string>, us: seq<string>)
    requires ts != [] && us != []
    ensures Join(Fuse(ts, us), ' ') == Join(ts, ' ') + Join(us, ' ')
    decreases |ts|
  {
    if |ts| == 1 {
      var one := [ts[0] + us[0]];
      assert Fuse(ts, us) == one + us[1..];
      assert us == [us[0]] + us[1..];
      JoinSpaced(one, us[1..]);
      JoinSpaced([us[0]], us[1..]);
    } else {
      assert Fuse(ts, us)[1..] == Fuse(ts[1..], us);
      assert Fuse(ts, us)[0] == ts[0];
      JoinFuse(ts[1..], us);
    }
  }

  // The options that add one section: file is what follows the equals sign.
  function SectionTokens(name: string, path: string, addrText: string): seq<string> {
    ["--add-section", name + "=" + path, "--change-section-vma", name + "=" + addrText]
  }

  // A section with its file and its address as text.
  datatype Piece = Piece(name: string, path: string, addrText: string) {
    function Tokens(): seq<string> {
      SectionTokens(name, path, addrText)
    }
  }

  function Before(tool: string, osrel: Piece, cmdline: Piece): seq<string> {
    [tool, "--enable-deterministic-archives", "--preserve-dates"] + osrel.Tokens() + cmdline.Tokens()
  }

  function Behind(linux: Piece, initrd: Piece, stub: string, output: string): seq<string> {
    linux.Tokens() + initrd.Tokens() + [stub, output]
  }

  // The command as it is put together: dtb_params has no leading blank.
  method ObjcopyCommand(tool: string, osrel: Piece, cmdline: Piece, dtb: Option<Piece>, linux: Piece, initrd: Piece,
                        stub: string, output: string) returns (cmd: string)
    ensures cmd == Join(
      match dtb
      case None => Before(tool, osrel, cmdline) + Behind(linux, initrd, stub, output)
      case Some(d) => Fuse(Before(tool, osrel, cmdline), d.Tokens() + Behind(linux, initrd, stub, output)), ' ')
  {
    cmd := tool;
    cmd := cmd + Spaced(["--enable-deterministic-archives"]);
    cmd := cmd + Spaced(["--preserve-dates"]);
    cmd := cmd + Spaced(osrel.Tokens());
    cmd := cmd + Spaced(cmdline.Tokens());
    JoinBefore(tool, osrel, cmdline);
    cmd := AddRest(cmd, Before(tool, osrel, cmdline), dtb, linux, initrd, stub, output);
  }

  // The part from dtb_params on; ts are the words so far.
  method AddRest(start: string, ghost ts: seq<string>, dtb: Option<Piece>, linux: Piece, initrd: Piece,
                 stub: string, output: string) returns (cmd: string)
    requires ts != [] && start == Join(ts, ' ')
    ensures cmd == Join(
      match dtb
      case None => ts + Behind(linux, initrd, stub, output)
      case Some(d) => Fuse(ts, d.Tokens() + Behind(linux, initrd, stub, output)), ' ')
  {
    var dtbParams := "";
    if dtb.Some? {
      dtbParams := Join(dtb.value.Tokens(), ' ');
    }
    cmd := start + dtbParams;
    cmd := cmd + Spaced(linux.Tokens());
    cmd := cmd + Spaced(initrd.Tokens());
    cmd := cmd + Spaced([stub, output]);
    ghost var us := Behind(linux, initrd, stub, output);
    SpacedBehind(linux, initrd, stub, output);
    assert cmd == start + (dtbParams + Spaced(us));
    if dtb.Some? {
      JoinSpaced(dtb.value.Tokens(), us);
      JoinFuse(ts, dtb.value.Tokens() + us);
    } else {
      assert dtbParams + Spaced(us) == Spaced(us);
      JoinSpaced(ts, us);
    }
  }

  lemma SpacedBehind(linux: Piece, initrd: Piece, stub: string, output: string)
    ensures Spaced(Behind(linux, initrd, stub, output)) ==
            Spaced(linux.Tokens()) + Spaced(initrd.Tokens()) + Spaced([stub, output])
  {
    SpacedAppend(linux.Tokens(), initrd.Tokens());
    SpacedAppend(linux.Tokens() + initrd.Tokens(), [stub, output]);
  }

  lemma {:induction false} SpacedAppend(ts: seq<string>, us: seq<string>)
    ensures Spaced(ts + us) == Spaced(ts) + Spaced(us)
  {
    if ts == [] {
      assert ts + us == us;
    } else {
      assert (ts + us)[1..] == ts[1..] + us;
      SpacedAppend(ts[1..], us);
    }
  }

  lemma JoinBefore(tool: string, osrel: Piece, cmdline: Piece)
    ensures Join(Before(tool, osrel, cmdline), ' ') ==
      tool + Spaced(["--enable-deterministic-archives"]) + Spaced(["--preserve-dates"]) + Spaced(osrel.Tokens()) + Spaced(cmdline.Tokens())
  {
    var a, b := [tool, "--enable-deterministic-archives"], [tool, "--enable-deterministic-archives", "--preserve-dates"];
    assert a == [tool] + ["--enable-deterministic-archives"] && b == a + ["--preserve-dates"];
    JoinSpaced([tool], ["--enable-deterministic-archives"]);
    JoinSpaced(a, ["--preserve-dates"]);
    JoinSpaced(b, osrel.Tokens());
    JoinSpaced(b + osrel.Tokens(), cmdline.Tokens());
  }

  // The words the shell sees are the wanted options if and only if no dtb is given: with one, the
  // address of .cmdline and the first --add-section of the dtb are a single word.
  lemma CommandWords(tool: string, osrel: Piece, cmdline: Piece, dtb: Option<Piece>, linux: Piece, initrd: Piece,
                     stub: string, output: string, cmd: string)
    requires var us := Behind(linux, initrd, stub, output);
      && Free(Before(tool, osrel, cmdline), ' ') && Free(us, ' ') && (dtb.Some? ==> Free(dtb.value.Tokens(), ' '))
      && cmd == Join(match dtb
                     case None => Before(tool, osrel, cmdline) + us
                     case Some(d) => Fuse(Before(tool, osrel, cmdline), d.Tokens() + us), ' ')
    ensures Split(cmd, ' ') ==
            Before(tool, osrel, cmdline) + (if dtb.Some? then dtb.value.Tokens() else []) + Behind(linux, initrd, stub, output)
      <==> dtb.None?
    ensures dtb.Some? ==> |Split(cmd, ' ')| > 10 && Split(cmd, ' ')[10] == cmdline.name + "=" + cmdline.addrText + "--add-section"
  {
    var ts, us := Before(tool, osrel, cmdline), Behind(linux, initrd, stub, output);
    match dtb {
      case None =>
        assert ts + [] + us == ts + us;
        SplitJoin(ts + us, ' ');
      case Some(d) =>
        var ds := d.Tokens() + us;
        var all := Fuse(ts, ds);
        assert ' ' !in ts[10] && ' ' !in ds[0] by { assert ts[10] in ts && ds[0] in d.Tokens(); }
        assert Free(all, ' ');
        SplitJoin(all, ' ');
        assert |all| == |ts| + |ds| - 1;
    }
  }

  datatype Paths = Paths(osrel: string, cmdline: string, dtb: Option<string>, linux: string, initrd: string)

  // The layout and the command together: every section is added from its own file, and its address
  // in the layout is what follows --change-section-vma, in hexadecimal.
  method PrepareCommand(targetSys: string, ps: Paths, sz: Sizes, offset: nat, align: nat, stub: string, hdddir: string)
    returns (cmd: string, secs: seq<Section>)
    requires align > 0 && (ps.dtb.Some? <==> sz.dtb.Some?)
    ensures IsLayout(offset, align, sz, secs) && |secs| == if sz.dtb.Some? then 5 else 4
    ensures cmd == Join(
      [targetSys + "-objcopy", "--enable-deterministic-archives", "--preserve-dates",
       "--add-section", ".osrel=" + ps.osrel, "--change-section-vma", ".osrel=" + HexText(secs[0].addr),
       "--add-section", ".cmdline=" + ps.cmdline, "--change-section-vma"]
      + (if sz.dtb.None? then [".cmdline=" + HexText(secs[1].addr)]
         else [".cmdline=" + HexText(secs[1].addr) + "--add-section", ".dtb=" + ps.dtb.value,
               "--change-section-vma", ".dtb=" + HexText(secs[2].addr)])
      + ["--add-section", ".linux=" + ps.linux, "--change-section-vma", ".linux=" + HexText(secs[|secs| - 2].addr),
         "--add-section", ".initrd=" + ps.initrd, "--change-section-vma", ".initrd=" + HexText(secs[|secs| - 1].addr),
         stub, hdddir + "/EFI/Linux/linux.efi"], ' ')
  {
    secs := Layout(offset, align, sz);
    var osrel := Piece(".osrel", ps.osrel, HexText(secs[0].addr));
    var cmdline := Piece(".cmdline", ps.cmdline, HexText(secs[1].addr));
    var dtb := if sz.dtb.Some? then Some(Piece(".dtb", ps.dtb.value, HexText(secs[2].addr))) else None;
    var linux := Piece(".linux", ps.linux, HexText(secs[|secs| - 2].addr));
    var initrd := Piece(".initrd", ps.initrd, HexText(secs[|secs| - 1].addr));
    cmd := ObjcopyCommand(targetSys + "-objcopy", osrel, cmdline, dtb, linux, initrd, stub, hdddir + "/EFI/Linux/linux.efi");
    assert ".osrel" + "=" == ".osrel=" && ".cmdline" + "=" == ".cmdline=" && ".dtb" + "=" == ".dtb=";
    assert ".linux" + "=" == ".linux=" && ".initrd" + "=" == ".initrd=";
    AllWords(targetSys + "-objcopy", osrel, cmdline, dtb, linux, initrd, stub, hdddir + "/EFI/Linux/linux.efi");
  }

  // An address as Python's 0x%x gives it.
  function HexText(n: nat): string {
    "0x" + Hex(n)
  }

  // The words one after the other; with a dtb two of them are one.
  lemma AllWords(tool: string, osrel: Piece, cmdline: Piece, dtb: Option<Piece>, linux: Piece, initrd: Piece,
                 stub: string, output: string)
    ensures (match dtb
             case None => Before(tool, osrel, cmdline) + Behind(linux, initrd, stub, output)
             case Some(d) => Fuse(Before(tool, osrel, cmdline), d.Tokens() + Behind(linux, initrd, stub, output))) ==
      [tool, "--enable-deterministic-archives", "--preserve-dates",
       "--add-section", osrel.name + "=" + osrel.path, "--change-section-vma", osrel.name + "=" + osrel.addrText,
       "--add-section", cmdline.name + "=" + cmdline.path, "--change-section-vma"]
      + (match dtb
         case None => [cmdline.name + "=" + cmdline.addrText]
         case Some(d) => [cmdline.name + "=" + cmdline.addrText + "--add-section", d.name + "=" + d.path,
                          "--change-section-vma", d.name + "=" + d.addrText])
      + ["--add-section", linux.name + "=" + linux.path, "--change-section-vma", linux.name + "=" + linux.addrText,
         "--add-section", initrd.name + "=" + initrd.path, "--change-section-vma", initrd.name + "=" + initrd.addrText,
         stub, output]
  {
    var ts, us := Before(tool, osrel, cmdline), Behind(linux, initrd, stub, output);
    assert ts == ts[..10] + [cmdline.name + "=" + cmdline.addrText];
    match dtb {
      case None =>
      case Some(d) =>
        assert (d.Tokens() + us)[1..] == d.Tokens()[1..] + us;
        assert d.Tokens()[1..] == [d.name + "=" + d.path, "--change-section-vma", d.name + "=" + d.addrText];
    }
  }
}
