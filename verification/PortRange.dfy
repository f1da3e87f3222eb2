/**
  Port ranges of the TRIGGER target, from the text given to iptables to the packets the kernel
  matches.  None is xtables_error, which ends the program.
 */
module PortRange {
  import opened Wrappers
  import opened Strings
  import opened CNumbers
  import opened Bits
  import PT = PortTrigger
  import Runs = PortTriggerRuns

  const INT_MAX: nat := 0x7fff_ffff

  // The text up to the first colon, and the text after it if there is one.
  function CutColon(s: string): (string, Option<string>) {
    if s == [] then ("", None)
    else if s[0] == ':' then ("", Some(s[1..]))
    else var (a, b) := CutColon(s[1..]); ([s[0]] + a, b)
  }

  function PortsSpec(arg: string): Option<(u16, u16)> {
    match CutColon(arg).1
    case None =>
      var port := ToU16(ToInt(Strtol(arg)));
      if port == 0 || port > 65535 then None else Some((port, 0))
    case Some(after) =>
      var port := ToInt(Strtol(arg));
      var end := ToU16(ToInt(Strtol(after)));
      if end == 0 || end > 65535 || end < port then None else Some((ToU16(port), end))
  }

  // parse_ports.  atoi is the int conversion of strtol.
  method ParsePorts(arg: string, ports: array<u16>) returns (ok: bool)
    requires ports.Length == 2
    modifies ports
    ensures match PortsSpec(arg)
            case None => !ok
            case Some(p) => ok && ports[0] == p.0 && ports[1] == p.1
  {
    ports[0] := 0;
    ports[1] := 0;
    var (before, dash) := CutColon(arg);
    if dash.None? {
      var port := ToU16(ToInt(Strtol(arg)));
      if port == 0 || port > 65535 {
        return false;
      }
      ports[0] := port;
      ports[1] := 0;
    } else {
      var port := ToInt(Strtol(arg));
      var portEnd := ToU16(ToInt(Strtol(dash.value)));
      if portEnd == 0 || portEnd > 65535 || portEnd < port {
        return false;
      }
      ports[0] := ToU16(port);
      ports[1] := portEnd;
    }
    return true;
  }

  // ----- Decimal arguments -----

  // "lo" or "lo:hi", as digit strings.
  datatype Arg = Single(lo: string) | Range(lo: string, hi: string) {
    // Nonempty digit strings whose numbers fit an int; atoi is undefined beyond that.
    predicate Ok() {
      && lo != [] && AllDigits(lo) && Value(lo) <= INT_MAX
      && (Range? ==> hi != [] && AllDigits(hi) && Value(hi) <= INT_MAX)
    }

    function Text(): string {
      match this
      case Single(a) => a
      case Range(a, b) => a + ":" + b
    }

    function Lo(): nat
      requires Ok()
    {
      Value(lo)
    }

    function Hi(): nat
      requires Ok()
    {
      if Single? then Value(lo) else Value(hi)
    }
  }

  // The text is cut at its first colon, if it has one.
  lemma {:induction false} CutAtFirst(a: string, t: string)
    requires ':' !in a && StopsAt(t, ':')
    ensures CutColon(a + t) == (a, if t == [] then None else Some(t[1..]))
  {
    if a == [] {
      assert a + t == t;
    } else {
      assert (a + t)[1..] == a[1..] + t;
      CutAtFirst(a[1..], t);
      assert [a[0]] + a[1..] == a;
    }
  }

  lemma StrtolDigits(a: string, t: string)
    requires AllDigits(a) && a != [] && Value(a) <= INT_MAX && StopsAt(t, ':')
    ensures Strtol(a + t) == Value(a) && ToInt(Strtol(a + t)) == Value(a)
  {
    var s := a + t;
    DigitsOf(a, t);
    assert s[0] == a[0] && IsDigit(a[0]);
    assert SkipSpace(s) == s;
  }

  lemma DigitsOf(a: string, t: string)
    requires AllDigits(a) && StopsAt(t, ':')
    ensures Digits(a + t, 10, 0).0 == Value(a)
  {
    DigitsLocal(a, t, 10, 0);
    DigitsValue(a, 0, "");
    assert "" + a == a;
  }

  // What parse_ports makes of any argument: the number it holds modulo 2^16, unless that is 0, or
  // two numbers cut at the first colon, unless the end is 0 modulo 2^16 or below the start.
  lemma PortsOfText(a: string, b: string)
    requires ':' !in a
    ensures PortsSpec(a) == if Strtol(a) % 65536 == 0 then None else Some((Strtol(a) % 65536, 0))
    ensures var arg := a + ":" + b;
      var start, end := ToInt(Strtol(arg)), Strtol(b) % 65536;
      PortsSpec(arg) == if end == 0 || end < start then None else Some((start % 65536, end))
  {
    assert a + "" == a;
    CutAtFirst(a, "");
    var t := ":" + b;
    assert a + t == a + ":" + b && t[1..] == b;
    CutAtFirst(a, t);
    WrapTwice(Strtol(a));
    WrapTwice(Strtol(b));
  }

  lemma WrapTwice(v: int)
    ensures ToU16(ToInt(v)) == v % 65536
  {
  }

  // What parse_ports makes of a decimal argument.
  lemma PortsOfDecimal(arg: Arg)
    requires arg.Ok()
    ensures PortsSpec(arg.Text()) ==
      match arg
      case Single(_) => if arg.Lo() % 0x1_0000 == 0 then None else Some((arg.Lo() % 0x1_0000, 0))
      case Range(_, _) =>
        var end := arg.Hi() % 0x1_0000;
        if end == 0 || end < arg.Lo() then None else Some((arg.Lo(), end))
  {
    match arg {
      case Single(a) =>
        assert a + "" == a;
        CutAtFirst(a, "");
        StrtolDigits(a, "");
      case Range(a, b) =>
        RangeNumbers(a, b);
    }
  }

  lemma RangeNumbers(a: string, b: string)
    requires Range(a, b).Ok()
    ensures CutColon(a + ":" + b).1 == Some(b)
    ensures ToInt(Strtol(a + ":" + b)) == Value(a) && ToInt(Strtol(b)) == Value(b)
  {
    var t := ":" + b;
    assert a + t == a + ":" + b && t[1..] == b;
    CutAtFirst(a, t);
    StrtolDigits(a, t);
    assert b + "" == b;
    StrtolDigits(b, "");
  }

  // ----- The kernel side -----

  // trigger_check, given the hooks the rule is used from as a mask (PRE_ROUTING is bit 0 and
  // FORWARD bit 2).
  predicate TriggerCheck(hookMask: u32, r: PT.Rule) {
    && hookMask in {0, 1, 4, 5}
    && (r.kind == PT.Out ==>
          && r.proto in {PT.IPPROTO_TCP, PT.IPPROTO_UDP, PT.BOTH_PROTOCOLS}
          && r.ports.mlo != 0 && r.ports.rlo != 0)
  }

  // No hooks but PRE_ROUTING (bit 0) and FORWARD (bit 2); an `out` rule must be for TCP (6), UDP
  // (17) or both (253) and its ranges must not start at port 0.
  lemma KernelCheck(hookMask: u32, r: PT.Rule)
    ensures TriggerCheck(hookMask, r)
      <==> && HooksAllowed(hookMask)
           && (r.kind == PT.Out ==> r.proto in {6, 17, 253} && r.ports.mlo != 0 && r.ports.rlo != 0)
  {
    LowBits(hookMask);
    if hookMask < 8 {
      forall i: nat | i > 2
        ensures !Bit(hookMask, i)
      {
        ZeroBits(i - 3);
      }
      assert HooksAllowed(hookMask) <==> !Bit(hookMask, 1);
    } else {
      HighBit(hookMask);
    }
  }

  // Only bits 0 and 2 may be set.
  ghost predicate HooksAllowed(hookMask: u32) {
    forall i: nat :: Bit(hookMask, i) ==> i in {0, 2}
  }

  lemma HighBit(h: u32)
    requires h >= 8
    ensures !HooksAllowed(h)
  {
    LowBits(h);
    var i := SomeBit(h / 8);
    var j: nat := i + 3;
    assert Bit(h, j);
  }

  lemma LowBits(h: nat)
    ensures Bit(h, 0) <==> h % 2 == 1
    ensures Bit(h, 1) <==> h / 2 % 2 == 1
    ensures Bit(h, 2) <==> h / 4 % 2 == 1
    ensures forall i: nat :: Bit(h, i + 3) <==> Bit(h / 8, i)
    ensures forall i: nat :: i >= 3 ==> (Bit(h, i) <==> Bit(h / 8, i - 3))
  {
    forall i: nat
      ensures Bit(h, i + 3) <==> Bit(h / 8, i)
    {
      ShiftThree(h, i);
    }
    forall i: nat | i >= 3
      ensures Bit(h, i) <==> Bit(h / 8, i - 3)
    {
      ShiftThree(h, i - 3);
    }
    assert Bit(h, 1) <==> Bit(h / 2, 0);
    assert Bit(h, 2) <==> Bit(h / 2, 1);
  }

  lemma ShiftThree(h: nat, i: nat)
    ensures Bit(h, i + 3) <==> Bit(h / 8, i)
  {
    assert Bit(h, i + 3) <==> Bit(h / 2, i + 2);
    assert Bit(h / 2, i + 2) <==> Bit(h / 4, i + 1);
  }

  lemma {:induction false} SomeBit(m: nat) returns (i: nat)
    requires m > 0
    ensures Bit(m, i)
  {
    if m % 2 == 1 {
      i := 0;
    } else {
      i := SomeBit(m / 2);
      i := i + 1;
    }
  }

  // The trigger matches outbound (inbound) ports of protocol q exactly in the range of arg.
  ghost predicate OutAgrees(t: PT.Trig, q: u8, arg: Arg)
    requires arg.Ok()
  {
    forall d: u16 :: PT.OutMatched(t, q, d) <==> arg.Lo() <= d <= arg.Hi()
  }

  ghost predicate InAgrees(t: PT.Trig, q: u8, arg: Arg)
    requires arg.Ok()
  {
    forall d: u16 :: PT.InMatched(t, q, d) <==> arg.Lo() <= d <= arg.Hi()
  }

  // The rule iptables sends for an `out` trigger.
  function OutRule(proto: u16, m: (u16, u16), r: (u16, u16)): PT.Rule {
    PT.Rule(PT.Out, proto, PT.Ports(m.0, m.1, r.0, r.1))
  }

  // User space and kernel agree: if both accept decimal match and relate ranges, the trigger that
  // a packet creates matches outbound ports exactly in the match range and inbound ports exactly
  // in the relate range, provided the upper ends are real port numbers.  The proviso is exact up
  // to ends that wrap to 65535.
  lemma RangesAgree(cfg: PT.Config, now: nat, p: PT.Packet, hooks: u32, proto: u16, m: Arg, r: Arg)
    requires m.Ok() && r.Ok()
    requires PortsSpec(m.Text()).Some? && PortsSpec(r.Text()).Some?
    requires TriggerCheck(hooks, OutRule(proto, PortsSpec(m.Text()).value, PortsSpec(r.Text()).value))
    ensures var t := PT.NewTrig(cfg, now, p, OutRule(proto, PortsSpec(m.Text()).value, PortsSpec(r.Text()).value));
      && PT.ProtoMatches(t, PT.IPPROTO_TCP) == (proto in {PT.IPPROTO_TCP, PT.BOTH_PROTOCOLS})
      && PT.ProtoMatches(t, PT.IPPROTO_UDP) == (proto in {PT.IPPROTO_UDP, PT.BOTH_PROTOCOLS})
      && forall q: u8 :: PT.ProtoMatches(t, q) ==>
        && (OutAgrees(t, q, m) <==> Fits(m))
        && (InAgrees(t, q, r) <==> Fits(r))
  {
    var t := PT.NewTrig(cfg, now, p, OutRule(proto, PortsSpec(m.Text()).value, PortsSpec(r.Text()).value));
    forall q: u8 | PT.ProtoMatches(t, q)
      ensures OutAgrees(t, q, m) <==> Fits(m)
      ensures InAgrees(t, q, r) <==> Fits(r)
    {
      OutFits(t, q, m);
      InFits(t, q, r);
    }
  }

  // Whether a trigger's stored range comes from arg.
  predicate Stores(lo: u16, hi: u16, arg: Arg)
    requires arg.Ok()
  {
    && PortsSpec(arg.Text()).Some?
    && var p := PortsSpec(arg.Text()).value;
    p.0 != 0 && lo == p.0 && hi == if p.1 == 0 then p.0 else p.1
  }

  lemma OutFits(t: PT.Trig, q: u8, arg: Arg)
    requires arg.Ok() && PT.ProtoMatches(t, q) && Stores(t.ports.mlo, t.ports.mhi, arg)
    ensures OutAgrees(t, q, arg) <==> Fits(arg)
  {
    AcceptedEnds(arg);
    assert PT.OutMatched(t, q, t.ports.mhi);
    assert PT.OutMatched(t, q, 65535) <==> t.ports.mhi == 65535;
  }

  lemma InFits(t: PT.Trig, q: u8, arg: Arg)
    requires arg.Ok() && PT.ProtoMatches(t, q) && Stores(t.ports.rlo, t.ports.rhi, arg)
    ensures InAgrees(t, q, arg) <==> Fits(arg)
  {
    AcceptedEnds(arg);
    assert PT.InMatched(t, q, t.ports.rhi);
    assert PT.InMatched(t, q, 65535) <==> t.ports.rhi == 65535;
  }

  // The upper end is a port number, or wraps around to the last one.
  predicate Fits(arg: Arg)
    requires arg.Ok()
  {
    arg.Hi() <= 65535 || (arg.Range? && arg.Hi() % 0x1_0000 == 65535)
  }

  // The ends stored for an accepted argument after the kernel has filled in a zero end.
  lemma AcceptedEnds(arg: Arg)
    requires arg.Ok() && PortsSpec(arg.Text()).Some? && PortsSpec(arg.Text()).value.0 != 0
    ensures var p := PortsSpec(arg.Text()).value;
      var lo, hi := p.0, if p.1 == 0 then p.0 else p.1;
      && lo <= hi && hi == arg.Hi() % 0x1_0000
      && lo == if arg.Single? then hi else arg.Lo()
  {
    PortsOfDecimal(arg);
  }

  // ----- Option parsing -----

  datatype Flag = TypeDnat | TypeIn | TypeOut | ProtoUsed | MatchUsed | RelateUsed | Used

  // One option with its argument; inverted is a preceding `!`.
  datatype TriggerOption =
    | TypeOpt(arg: string)
    | ProtoOpt(arg: string)
    | MatchOpt(arg: string, inverted: bool)
    | RelateOpt(arg: string, inverted: bool)

  function Lower(c: char): char {
    if 'A' <= c <= 'Z' then (c as int + 32) as char else c
  }

  // !strncasecmp(s, key, n) with n no longer than key.
  predicate StartsWith(s: string, key: string, n: nat)
    requires n <= |key|
  {
    n <= |s| && forall k :: 0 <= k < n ==> Lower(s[k]) == key[k]
  }

  datatype Parsed = Parsed(rule: PT.Rule, flags: set<Flag>)

  // The rule type and the protocol an argument names, if any.
  function KindOf(a: string): Option<PT.RuleType> {
    if StartsWith(a, "dnat", 3) then Some(PT.Dnat)
    else if StartsWith(a, "in", 2) then Some(PT.In)
    else if StartsWith(a, "out", 3) then Some(PT.Out)
    else None
  }

  function ProtoOf(a: string): Option<u16> {
    if StartsWith(a, "tcp", 3) then Some(PT.IPPROTO_TCP)
    else if StartsWith(a, "udp", 3) then Some(PT.IPPROTO_UDP)
    else if StartsWith(a, "all", 3) || StartsWith(a, "both", 4) then Some(PT.BOTH_PROTOCOLS)
    else None
  }

  // An option that does not end the program.
  predicate Acceptable(o: TriggerOption) {
    match o
    case TypeOpt(a) => KindOf(a).Some?
    case ProtoOpt(a) => ProtoOf(a).Some?
    case MatchOpt(a, inverted) => !inverted && PortsSpec(a).Some?
    case RelateOpt(a, inverted) => !inverted && PortsSpec(a).Some?
  }

  // Option o raises flag f.
  predicate Raises(o: TriggerOption, f: Flag) {
    match f
    case TypeDnat => o.TypeOpt? && KindOf(o.arg) == Some(PT.Dnat)
    case TypeIn => o.TypeOpt? && KindOf(o.arg) == Some(PT.In)
    case TypeOut => o.TypeOpt? && KindOf(o.arg) == Some(PT.Out)
    case ProtoUsed => o.ProtoOpt?
    case MatchUsed => o.MatchOpt?
    case RelateUsed => o.RelateOpt?
    case Used => o.MatchOpt? || o.RelateOpt?
  }

  function Apply(st: Parsed, o: TriggerOption): Option<Parsed> {
    match o
    case TypeOpt(a) =>
      (match KindOf(a)
       case None => None
       case Some(kind) =>
         var flag := if kind == PT.Dnat then TypeDnat else if kind == PT.In then TypeIn else TypeOut;
         Some(Parsed(st.rule.(kind := kind), st.flags + {flag})))
    case ProtoOpt(a) =>
      (match ProtoOf(a)
       case None => None
       case Some(proto) => Some(Parsed(st.rule.(proto := proto), st.flags + {ProtoUsed})))
    case MatchOpt(a, inverted) =>
      if inverted || PortsSpec(a).None? then None
      else
        var p := PortsSpec(a).value;
        Some(Parsed(st.rule.(ports := st.rule.ports.(mlo := p.0, mhi := p.1)), st.flags + {MatchUsed, Used}))
    case RelateOpt(a, inverted) =>
      if inverted || PortsSpec(a).None? then None
      else
        var p := PortsSpec(a).value;
        Some(Parsed(st.rule.(ports := st.rule.ports.(rlo := p.0, rhi := p.1)), st.flags + {RelateUsed, Used}))
  }

  // Rule memory starts zeroed.
  const BLANK := Parsed(PT.Rule(PT.Unknown, 0, PT.Ports(0, 0, 0, 0)), {})

  function ApplyAll(os: seq<TriggerOption>): Option<Parsed> {
    if os == [] then Some(BLANK)
    else
      match ApplyAll(os[..|os| - 1])
      case None => None
      case Some(st) => Apply(st, os[|os| - 1])
  }

  // TRIGGER_final_check
  predicate FinalCheck(flags: set<Flag>) {
    TypeOut in flags ==> RelateUsed in flags && MatchUsed in flags && ProtoUsed in flags
  }

  // The last match (or relate) option, if any.
  function LastPorts(os: seq<TriggerOption>, relate: bool): Option<string> {
    if os == [] then None
    else
      var o := os[|os| - 1];
      if relate && o.RelateOpt? then Some(o.arg)
      else if !relate && o.MatchOpt? then Some(o.arg)
      else LastPorts(os[..|os| - 1], relate)
  }

  // A sequence of options is accepted exactly if each option is acceptable by itself.
  lemma {:induction false} AcceptedIffEach(os: seq<TriggerOption>)
    ensures ApplyAll(os).Some? <==> forall k :: 0 <= k < |os| ==> Acceptable(os[k])
  {
    if os != [] {
      var n := |os| - 1;
      AcceptedIffEach(os[..n]);
      assert forall k :: 0 <= k < n ==> os[k] == os[..n][k];
    }
  }

  // A flag is set exactly if some option raised it.
  lemma {:induction false} ParsedFlags(os: seq<TriggerOption>, f: Flag)
    requires ApplyAll(os).Some?
    ensures f in ApplyAll(os).value.flags <==> exists k :: 0 <= k < |os| && Raises(os[k], f)
  {
    if os != [] {
      var n := |os| - 1;
      ParsedFlags(os[..n], f);
      assert forall k :: 0 <= k < n ==> os[k] == os[..n][k];
      assert f in ApplyAll(os).value.flags <==> f in ApplyAll(os[..n]).value.flags || Raises(os[n], f);
    }
  }

  // The last type and protocol given.
  function LastKind(os: seq<TriggerOption>): Option<PT.RuleType> {
    if os == [] then None
    else if os[|os| - 1].TypeOpt? then KindOf(os[|os| - 1].arg)
    else LastKind(os[..|os| - 1])
  }

  function LastProto(os: seq<TriggerOption>): Option<u16> {
    if os == [] then None
    else if os[|os| - 1].ProtoOpt? then ProtoOf(os[|os| - 1].arg)
    else LastProto(os[..|os| - 1])
  }

  // The rule has the last type and protocol given, and none of either without such an option.
  lemma {:induction false} ParsedKind(os: seq<TriggerOption>)
    requires ApplyAll(os).Some?
    ensures var r := ApplyAll(os).value.rule;
      && r.kind == (if LastKind(os).Some? then LastKind(os).value else PT.Unknown)
      && r.proto == (if LastProto(os).Some? then LastProto(os).value else 0)
  {
    if os != [] {
      ParsedKind(os[..|os| - 1]);
    }
  }

  lemma {:induction false} LastPortsGiven(os: seq<TriggerOption>, relate: bool)
    ensures LastPorts(os, relate).Some?
      <==> exists k :: 0 <= k < |os| && if relate then os[k].RelateOpt? else os[k].MatchOpt?
  {
    if os != [] {
      var n := |os| - 1;
      LastPortsGiven(os[..n], relate);
      assert forall k :: 0 <= k < n ==> os[k] == os[..n][k];
    }
  }

  lemma {:induction false} LastProtoGiven(os: seq<TriggerOption>)
    requires ApplyAll(os).Some?
    ensures LastProto(os).Some? <==> exists k :: 0 <= k < |os| && os[k].ProtoOpt?
    ensures LastProto(os).Some? ==> LastProto(os).value in {PT.IPPROTO_TCP, PT.IPPROTO_UDP, PT.BOTH_PROTOCOLS}
  {
    if os != [] {
      var n := |os| - 1;
      LastProtoGiven(os[..n]);
      assert forall k :: 0 <= k < n ==> os[k] == os[..n][k];
    }
  }

  lemma {:induction false} LastKindGiven(os: seq<TriggerOption>) returns (k: nat)
    requires LastKind(os).Some?
    ensures k < |os| && os[k].TypeOpt? && KindOf(os[k].arg) == LastKind(os)
  {
    var n := |os| - 1;
    if os[n].TypeOpt? {
      k := n;
    } else {
      k := LastKindGiven(os[..n]);
    }
  }

  function PortsOf(r: PT.Rule, relate: bool): (u16, u16) {
    if relate then (r.ports.rlo, r.ports.rhi) else (r.ports.mlo, r.ports.mhi)
  }

  // The rule holds the ports of the last match and relate options, and zeros without one.
  lemma {:induction false} ParsedPorts(os: seq<TriggerOption>, relate: bool)
    requires ApplyAll(os).Some?
    ensures match LastPorts(os, relate)
            case None => PortsOf(ApplyAll(os).value.rule, relate) == (0, 0)
            case Some(a) => PortsSpec(a) == Some(PortsOf(ApplyAll(os).value.rule, relate))
  {
    if os != [] {
      ParsedPorts(os[..|os| - 1], relate);
    }
  }

  // An `out` rule that passes the final check has a protocol and both port ranges.
  lemma FinalCheckGuarantees(os: seq<TriggerOption>)
    requires ApplyAll(os).Some?
    requires ApplyAll(os).value.rule.kind == PT.Out && FinalCheck(ApplyAll(os).value.flags)
    ensures LastProto(os).Some? && LastPorts(os, false).Some? && LastPorts(os, true).Some?
    ensures PortsSpec(LastPorts(os, false).value).Some? && PortsSpec(LastPorts(os, true).value).Some?
  {
    ParsedKind(os);
    LastProtoGiven(os);
    LastPortsGiven(os, false);
    LastPortsGiven(os, true);
    var k := LastKindGiven(os);
    assert Raises(os[k], TypeOut);
    ParsedFlags(os, TypeOut);
    ParsedFlags(os, ProtoUsed);
    ParsedFlags(os, MatchUsed);
    ParsedFlags(os, RelateUsed);
    ParsedPorts(os, false);
    ParsedPorts(os, true);
  }

  // The kernel accepts such a rule exactly if neither of its ranges starts at port 0.
  lemma FinalCheckSuffices(os: seq<TriggerOption>, hooks: u32)
    requires ApplyAll(os).Some? && hooks in {1, 4, 5}
    requires ApplyAll(os).value.rule.kind == PT.Out && FinalCheck(ApplyAll(os).value.flags)
    ensures LastPorts(os, false).Some? && PortsSpec(LastPorts(os, false).value).Some?
    ensures LastPorts(os, true).Some? && PortsSpec(LastPorts(os, true).value).Some?
    ensures TriggerCheck(hooks, ApplyAll(os).value.rule)
      <==> PortsSpec(LastPorts(os, false).value).value.0 != 0 && PortsSpec(LastPorts(os, true).value).value.0 != 0
  {
    FinalCheckGuarantees(os);
    ParsedKind(os);
    LastProtoGiven(os);
    ParsedPorts(os, false);
    ParsedPorts(os, true);
  }

  // From the command line to the packets: if iptables and the kernel accept an `out` rule whose
  // last match and relate options are decimal, the trigger a packet creates from it serves the last
  // protocol given and matches exactly the two ranges, if and only if their upper ends fit.
  lemma OptionsToPackets(cfg: PT.Config, now: nat, p: PT.Packet, hooks: u32, os: seq<TriggerOption>, m: Arg, r: Arg)
    requires ApplyAll(os).Some? && ApplyAll(os).value.rule.kind == PT.Out
    requires FinalCheck(ApplyAll(os).value.flags) && TriggerCheck(hooks, ApplyAll(os).value.rule)
    requires m.Ok() && LastPorts(os, false) == Some(m.Text())
    requires r.Ok() && LastPorts(os, true) == Some(r.Text())
    ensures var t := PT.NewTrig(cfg, now, p, ApplyAll(os).value.rule);
      && LastProto(os).Some?
      && (forall q: u8 :: PT.ProtoMatches(t, q) <==> LastProto(os).value in {253, q as int})
      && forall q: u8 :: PT.ProtoMatches(t, q) ==>
        && (OutAgrees(t, q, m) <==> Fits(m))
        && (InAgrees(t, q, r) <==> Fits(r))
  {
    FinalCheckGuarantees(os);
    ParsedKind(os);
    ParsedPorts(os, false);
    ParsedPorts(os, true);
    var rule := ApplyAll(os).value.rule;
    assert rule == OutRule(rule.proto, PortsOf(rule, false), PortsOf(rule, true));
    RangesAgree(cfg, now, p, hooks, rule.proto, m, r);
  }

  // ----- From the texts to the packets -----

  // a begins with the given letters, in either case.
  predicate Begins(a: string, lower: string, upper: string)
    requires |lower| == |upper|
  {
    |lower| <= |a| && forall k :: 0 <= k < |lower| ==> a[k] in {lower[k], upper[k]}
  }

  // Option k is the last of its kind.
  predicate LastType(os: seq<TriggerOption>, k: nat) {
    k < |os| && os[k].TypeOpt? && forall j :: k < j < |os| ==> !os[j].TypeOpt?
  }

  predicate LastProtoAt(os: seq<TriggerOption>, k: nat) {
    k < |os| && os[k].ProtoOpt? && forall j :: k < j < |os| ==> !os[j].ProtoOpt?
  }

  predicate LastMatchAt(os: seq<TriggerOption>, k: nat) {
    k < |os| && os[k].MatchOpt? && forall j :: k < j < |os| ==> !os[j].MatchOpt?
  }

  predicate LastRelateAt(os: seq<TriggerOption>, k: nat) {
    k < |os| && os[k].RelateOpt? && forall j :: k < j < |os| ==> !os[j].RelateOpt?
  }

  lemma {:induction false} LastGiven(os: seq<TriggerOption>, k: nat)
    ensures LastType(os, k) ==> LastKind(os) == KindOf(os[k].arg)
    ensures LastProtoAt(os, k) ==> LastProto(os) == ProtoOf(os[k].arg)
    ensures LastMatchAt(os, k) ==> LastPorts(os, false) == Some(os[k].arg)
    ensures LastRelateAt(os, k) ==> LastPorts(os, true) == Some(os[k].arg)
  {
    var n := |os| - 1;
    if k < n {
      assert forall j :: 0 <= j < n ==> os[..n][j] == os[j];
      LastGiven(os[..n], k);
    }
  }

  // Which texts name a type or a protocol: as many letters as strncasecmp compares.
  lemma Names(a: string)
    ensures KindOf(a) == if Begins(a, "dna", "DNA") then Some(PT.Dnat) else if Begins(a, "in", "IN") then Some(PT.In)
                         else if Begins(a, "out", "OUT") then Some(PT.Out) else None
    ensures ProtoOf(a) == if Begins(a, "tcp", "TCP") then Some(6) else if Begins(a, "udp", "UDP") then Some(17)
                          else if Begins(a, "all", "ALL") || Begins(a, "both", "BOTH") then Some(253) else None
  {
    assert "dnat"[..3] == "dna";
    StartsIsBegins(a, "dnat", 3, "DNA");
    StartsIsBegins(a, "in", 2, "IN");
    StartsIsBegins(a, "out", 3, "OUT");
    StartsIsBegins(a, "tcp", 3, "TCP");
    StartsIsBegins(a, "udp", 3, "UDP");
    StartsIsBegins(a, "all", 3, "ALL");
    StartsIsBegins(a, "both", 4, "BOTH");
  }

  lemma StartsIsBegins(a: string, key: string, n: nat, upper: string)
    requires n <= |key| && |upper| == n
    requires forall k :: 0 <= k < n ==> 'a' <= key[k] <= 'z' && upper[k] as int == key[k] as int - 32
    ensures StartsWith(a, key, n) <==> Begins(a, key[..n], upper)
    ensures n == |key| ==> key[..n] == key
  {
  }

  // A sequence of options is accepted exactly if every type and protocol begins with a known name,
  // and every range is free of a preceding `!` and can be parsed.
  lemma AcceptedTexts(os: seq<TriggerOption>)
    ensures ApplyAll(os).Some? <==> forall k :: 0 <= k < |os| ==>
      var a := os[k].arg;
      match os[k]
      case TypeOpt(_) => Begins(a, "dna", "DNA") || Begins(a, "in", "IN") || Begins(a, "out", "OUT")
      case ProtoOpt(_) => Begins(a, "tcp", "TCP") || Begins(a, "udp", "UDP") || Begins(a, "all", "ALL") || Begins(a, "both", "BOTH")
      case MatchOpt(_, inverted) => !inverted && PortsSpec(a).Some?
      case RelateOpt(_, inverted) => !inverted && PortsSpec(a).Some?
  {
    AcceptedIffEach(os);
    forall k | 0 <= k < |os|
      ensures KindOf(os[k].arg).Some? <==>
        Begins(os[k].arg, "dna", "DNA") || Begins(os[k].arg, "in", "IN") || Begins(os[k].arg, "out", "OUT")
      ensures ProtoOf(os[k].arg).Some? <==>
        || Begins(os[k].arg, "tcp", "TCP") || Begins(os[k].arg, "udp", "UDP")
        || Begins(os[k].arg, "all", "ALL") || Begins(os[k].arg, "both", "BOTH")
    {
      Names(os[k].arg);
    }
  }

  // The final check asks for protocol, match and relate options exactly if some type option says
  // `out`.
  lemma FinalCheckIff(os: seq<TriggerOption>)
    requires ApplyAll(os).Some?
    ensures FinalCheck(ApplyAll(os).value.flags) <==> (SaysOut(os) ==> HasAll(os))
  {
    OutRaised(os);
    AllRaised(os);
  }

  lemma OutRaised(os: seq<TriggerOption>)
    requires ApplyAll(os).Some?
    ensures TypeOut in ApplyAll(os).value.flags <==> SaysOut(os)
  {
    ParsedFlags(os, TypeOut);
    forall k | 0 <= k < |os|
      ensures Raises(os[k], TypeOut) <==> os[k].TypeOpt? && Begins(os[k].arg, "out", "OUT")
    {
      OutNamed(os[k].arg);
    }
  }

  lemma AllRaised(os: seq<TriggerOption>)
    requires ApplyAll(os).Some?
    ensures {ProtoUsed, MatchUsed, RelateUsed} <= ApplyAll(os).value.flags <==> HasAll(os)
  {
    ParsedFlags(os, ProtoUsed);
    ParsedFlags(os, MatchUsed);
    ParsedFlags(os, RelateUsed);
    assert forall k :: 0 <= k < |os| ==> Raises(os[k], ProtoUsed) == os[k].ProtoOpt?;
    assert forall k :: 0 <= k < |os| ==> Raises(os[k], MatchUsed) == os[k].MatchOpt?;
    assert forall k :: 0 <= k < |os| ==> Raises(os[k], RelateUsed) == os[k].RelateOpt?;
  }

  predicate SaysOut(os: seq<TriggerOption>) {
    exists k :: 0 <= k < |os| && os[k].TypeOpt? && Begins(os[k].arg, "out", "OUT")
  }

  predicate HasAll(os: seq<TriggerOption>) {
    && (exists k :: 0 <= k < |os| && os[k].ProtoOpt?)
    && (exists k :: 0 <= k < |os| && os[k].MatchOpt?)
    && exists k :: 0 <= k < |os| && os[k].RelateOpt?
  }

  lemma OutNamed(a: string)
    ensures KindOf(a) == Some(PT.Out) <==> Begins(a, "out", "OUT")
  {
    Names(a);
    FirstLetter(a, "dna", "DNA");
    FirstLetter(a, "in", "IN");
    FirstLetter(a, "out", "OUT");
  }

  // The last type given is the kind of the rule.
  lemma TypeNamed(os: seq<TriggerOption>, k: nat)
    requires ApplyAll(os).Some? && LastType(os, k)
    ensures var r, a := ApplyAll(os).value.rule, os[k].arg;
      && (r.kind == PT.Dnat <==> Begins(a, "dna", "DNA"))
      && (r.kind == PT.In <==> Begins(a, "in", "IN"))
      && (r.kind == PT.Out <==> Begins(a, "out", "OUT"))
  {
    ParsedKind(os);
    LastGiven(os, k);
    var a := os[k].arg;
    Names(a);
    assert Acceptable(os[k]) by { AcceptedIffEach(os); }
    FirstLetter(a, "dna", "DNA");
    FirstLetter(a, "in", "IN");
    FirstLetter(a, "out", "OUT");
  }

  lemma FirstLetter(a: string, lower: string, upper: string)
    requires |lower| == |upper| > 0
    ensures Begins(a, lower, upper) ==> a[0] in {lower[0], upper[0]}
  {
  }

  // The text a of the protocol option covers protocol q.
  predicate Covers(a: string, q: u8) {
    || (q == 6 && Begins(a, "tcp", "TCP"))
    || (q == 17 && Begins(a, "udp", "UDP"))
    || (q in {6, 17} && (Begins(a, "all", "ALL") || Begins(a, "both", "BOTH")))
  }

  // The packet is of a protocol the text covers, and its port is in the range of arg.
  predicate Meant(a: string, arg: Arg, p: PT.Packet)
    requires arg.Ok()
  {
    Covers(a, p.proto) && arg.Lo() <= p.dport <= arg.Hi()
  }

  // From the texts on the command line to the packets, in any run.  Options k, m and r are the
  // last ones for protocol, match and relate, the latter two with decimal port numbers; the first
  // packet through the accepted `out` rule finds no trigger.  Until a timer fires or another packet
  // goes out, exactly the packets of the named protocol and relate range come back to its sender.
  lemma CommandLineToPackets(cfg: PT.Config, es: seq<PT.Event>, c: nat, n: nat, os: seq<TriggerOption>, hooks: u32,
                             k: nat, m: nat, r: nat, outward: Arg, inward: Arg)
    requires ApplyAll(os).Some? && FinalCheck(ApplyAll(os).value.flags) && TriggerCheck(hooks, ApplyAll(os).value.rule)
    requires LastProtoAt(os, k) && LastMatchAt(os, m) && LastRelateAt(os, r)
    requires outward.Ok() && outward.Hi() <= 65535 && os[m].arg == outward.Text()
    requires inward.Ok() && inward.Hi() <= 65535 && os[r].arg == inward.Text()
    requires Runs.Opens(cfg, es, c, n) && es[c].rule == ApplyAll(os).value.rule && es[n].Arrive?
    ensures es[n].rule.kind == PT.In ==>
      Runs.VerdictAt(cfg, es, n) == if Meant(os[k].arg, inward, es[n].pkt) then PT.Accept else PT.Continue
    ensures es[n].rule.kind == PT.Dnat && es[c].pkt.saddr != 0 ==>
      Runs.VerdictAt(cfg, es, n) == if Meant(os[k].arg, inward, es[n].pkt) then PT.Rewrite(es[c].pkt.saddr) else PT.Continue
    ensures es[n].rule.kind == PT.Out && Meant(os[k].arg, outward, es[n].pkt) ==>
      |PT.After(cfg, es, n + 1).trigs| == |PT.After(cfg, es, n).trigs|
  {
    RuleFromTexts(os, hooks, k, m, r, outward, inward);
    Runs.PacketBack(cfg, es, c, n);
    if es[n].rule.kind == PT.Out && Covers(os[k].arg, es[n].pkt.proto) {
      Runs.StaysOpen(cfg, es, c, n);
      Runs.OutboundPacket(cfg, es, n);
    }
  }

  lemma RuleFromTexts(os: seq<TriggerOption>, hooks: u32, k: nat, m: nat, r: nat, outward: Arg, inward: Arg)
    requires ApplyAll(os).Some? && TriggerCheck(hooks, ApplyAll(os).value.rule) && ApplyAll(os).value.rule.kind == PT.Out
    requires LastProtoAt(os, k) && LastMatchAt(os, m) && LastRelateAt(os, r)
    requires outward.Ok() && outward.Hi() <= 65535 && os[m].arg == outward.Text()
    requires inward.Ok() && inward.Hi() <= 65535 && os[r].arg == inward.Text()
    ensures var rule := ApplyAll(os).value.rule;
      && (forall q: u8 :: Covers(os[k].arg, q) <==> q in {6, 17} && rule.proto in {253, q as int})
      && (forall d: u16 :: Runs.InRelateRange(rule, d) <==> inward.Lo() <= d <= inward.Hi())
      && rule.ports.mlo == outward.Lo() && (if rule.ports.mhi == 0 then rule.ports.mlo else rule.ports.mhi) == outward.Hi()
  {
    var rule := ApplyAll(os).value.rule;
    ProtoNamed(os, k);
    LastGiven(os, m);
    ParsedPorts(os, false);
    StoredEnds(outward, rule.ports.mlo, rule.ports.mhi);
    LastGiven(os, r);
    ParsedPorts(os, true);
    StoredEnds(inward, rule.ports.rlo, rule.ports.rhi);
  }

  // The last protocol given is the one the rule stands for.
  lemma ProtoNamed(os: seq<TriggerOption>, k: nat)
    requires ApplyAll(os).Some? && LastProtoAt(os, k)
    ensures var proto := ApplyAll(os).value.rule.proto;
      && proto in {6, 17, 253}
      && forall q: u8 :: Covers(os[k].arg, q) <==> q in {6, 17} && proto in {253, q as int}
  {
    ParsedKind(os);
    LastGiven(os, k);
    var a := os[k].arg;
    Names(a);
    assert Acceptable(os[k]) by { AcceptedIffEach(os); }
    FirstLetter(a, "tcp", "TCP");
    FirstLetter(a, "udp", "UDP");
    FirstLetter(a, "all", "ALL");
    FirstLetter(a, "both", "BOTH");
  }

  lemma StoredEnds(arg: Arg, lo: u16, hi: u16)
    requires arg.Ok() && arg.Hi() <= 65535 && PortsSpec(arg.Text()) == Some((lo, hi)) && lo != 0
    ensures lo == arg.Lo() && (if hi == 0 then lo else hi) == arg.Hi()
  {
    AcceptedEnds(arg);
  }

  // An accepted argument whose upper end does not fit: port 65616 is stored as port 80.
  lemma WrapExample()
    ensures Single("65616").Ok() && PortsSpec("65616") == Some((80, 0)) && !Fits(Single("65616"))
  {
    assert Decimal(65616) == "65616";
    ValueDecimal(65616);
    PortsOfDecimal(Single("65616"));
  }

  // TRIGGER_parse on the target being built.
  class TriggerOptions {
    var rule: PT.Rule
    var flags: set<Flag>

    constructor ()
      ensures Parsed(rule, flags) == BLANK
    {
      rule, flags := BLANK.rule, {};
    }

    method Parse(o: TriggerOption) returns (ok: bool)
      modifies this
      ensures match Apply(Parsed(old(rule), old(flags)), o)
              case None => !ok
              case Some(st) => ok && Parsed(rule, flags) == st
    {
      match o {
        case TypeOpt(a) =>
          if StartsWith(a, "dnat", 3) {
            rule, flags := rule.(kind := PT.Dnat), flags + {TypeDnat};
          } else if StartsWith(a, "in", 2) {
            rule, flags := rule.(kind := PT.In), flags + {TypeIn};
          } else if StartsWith(a, "out", 3) {
            rule, flags := rule.(kind := PT.Out), flags + {TypeOut};
          } else {
            return false;
          }
        case ProtoOpt(a) =>
          if StartsWith(a, "tcp", 3) {
            rule := rule.(proto := PT.IPPROTO_TCP);
          } else if StartsWith(a, "udp", 3) {
            rule := rule.(proto := PT.IPPROTO_UDP);
          } else if StartsWith(a, "all", 3) || StartsWith(a, "both", 4) {
            rule := rule.(proto := PT.BOTH_PROTOCOLS);
          } else {
            return false;
          }
          flags := flags + {ProtoUsed};
        case MatchOpt(a, inverted) =>
          if inverted {
            return false;
          }
          var ports := new u16[2](_ => 0);
          var fine := ParsePorts(a, ports);
          if !fine {
            return false;
          }
          rule := rule.(ports := rule.ports.(mlo := ports[0], mhi := ports[1]));
          flags := flags + {MatchUsed, Used};
        case RelateOpt(a, inverted) =>
          if inverted {
            return false;
          }
          var ports := new u16[2](_ => 0);
          var fine := ParsePorts(a, ports);
          if !fine {
            return false;
          }
          rule := rule.(ports := rule.ports.(rlo := ports[0], rhi := ports[1]));
          flags := flags + {RelateUsed, Used};
      }
      return true;
    }
  }
}
