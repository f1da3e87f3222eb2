/**
  The port-triggering protocol of the ipt_TRIGGER target, as a state machine over values.

  An event is one packet traversing the target, one timer expiry or the passing of time; each is
  atomic.  `Config.armed` selects how a new trigger's timer is set up: true is the first patch
  (`add_timer`), false the second one (`timer_setup` only, so that the timer is never queued).
  `IptTrigger.dfy` shows that the pointer-manipulating code performs exactly these steps.
 */
module PortTrigger {
  import opened Wrappers

  const IPPROTO_TCP: u8 := 6
  const IPPROTO_UDP: u8 := 17
  const BOTH_PROTOCOLS: u16 := 253
  const TRIGGER_TIMEOUT: nat := 120

  datatype RuleType = Dnat | In | Out | Unknown

  datatype Ports = Ports(mlo: u16, mhi: u16, rlo: u16, rhi: u16)

  datatype Rule = Rule(kind: RuleType, proto: u16, ports: Ports)

  datatype Packet = Packet(proto: u8, saddr: u32, daddr: u32, dport: u16)

  datatype Config = Config(armed: bool, hz: nat)

  datatype Trig = Trig(
    srcip: u32, dstip: u32, trigProto: u16, rproto: u16, ports: Ports, reply: bool,
    pending: bool, expires: nat, live: bool)

  // Triggers are numbered in order of allocation; `listed` is the one a traversal finds.
  datatype State = State(now: nat, trigs: seq<Trig>, listed: Option<nat>)

  datatype Event =
    | Arrive(pkt: Packet, rule: Rule, allocOk: bool)
    | Tick(delta: nat)
    | Fire(trig: nat)

  datatype Verdict = Continue | Accept | Rewrite(to: u32)

  const INIT := State(0, [], None)

  function Timeout(cfg: Config): nat {
    TRIGGER_TIMEOUT * cfg.hz
  }

  predicate ProtoMatches(t: Trig, proto: u8) {
    t.trigProto == BOTH_PROTOCOLS || t.trigProto == proto
  }

  predicate OutMatched(t: Trig, proto: u8, dport: u16) {
    ProtoMatches(t, proto) && t.ports.mlo <= dport <= t.ports.mhi
  }

  predicate InMatched(t: Trig, proto: u8, dport: u16) {
    ProtoMatches(t, proto) && t.ports.rlo <= dport <= t.ports.rhi
  }

  predicate Matched(outward: bool, t: Trig, proto: u8, dport: u16) {
    if outward then OutMatched(t, proto, dport) else InMatched(t, proto, dport)
  }

  function Find(s: State, outward: bool, p: Packet): Option<nat> {
    if s.listed.Some? && s.listed.value < |s.trigs| && Matched(outward, s.trigs[s.listed.value], p.proto, p.dport)
    then s.listed
    else None
  }

  function Refresh(cfg: Config, now: nat, t: Trig): Trig {
    if t.pending then t.(expires := now + Timeout(cfg)) else t
  }

  // A zero upper bound stands for a single port.
  function Normalize(p: Ports): Ports {
    p.(rhi := if p.rhi == 0 then p.rlo else p.rhi, mhi := if p.mhi == 0 then p.mlo else p.mhi)
  }

  function NewTrig(cfg: Config, now: nat, p: Packet, r: Rule): Trig {
    Trig(p.saddr, p.daddr, r.proto, p.proto, Normalize(r.ports), false, cfg.armed, now + Timeout(cfg), true)
  }

  function HandleOut(cfg: Config, s: State, p: Packet, r: Rule, allocOk: bool): State {
    match Find(s, true, p)
    case Some(i) =>
      var t := Refresh(cfg, s.now, s.trigs[i]);
      s.(trigs := s.trigs[i := if t.reply then t.(srcip := p.saddr) else t])
    case None =>
      if allocOk then s.(trigs := s.trigs + [NewTrig(cfg, s.now, p, r)], listed := Some(|s.trigs|)) else s
  }

  function HandleIn(cfg: Config, s: State, p: Packet): (State, Verdict) {
    match Find(s, false, p)
    case Some(i) => (s.(trigs := s.trigs[i := Refresh(cfg, s.now, s.trigs[i])]), Accept)
    case None => (s, Continue)
  }

  function HandleDnat(s: State, p: Packet): (State, Verdict) {
    match Find(s, false, p)
    case Some(i) =>
      if s.trigs[i].srcip == 0 then (s, Continue)
      else (s.(trigs := s.trigs[i := s.trigs[i].(reply := true)]), Rewrite(s.trigs[i].srcip))
    case None => (s, Continue)
  }

  predicate Supported(p: Packet) {
    p.proto == IPPROTO_TCP || p.proto == IPPROTO_UDP
  }

  function Target(cfg: Config, s: State, p: Packet, r: Rule, allocOk: bool): (State, Verdict) {
    if !Supported(p) then (s, Continue)
    else match r.kind
      case Out => (HandleOut(cfg, s, p, r, allocOk), Continue)
      case In => HandleIn(cfg, s, p)
      case Dnat => HandleDnat(s, p)
      case Unknown => (s, Continue)
  }

  predicate CanFire(s: State, i: nat) {
    i < |s.trigs| && s.trigs[i].live && s.trigs[i].pending && s.trigs[i].expires <= s.now
  }

  // Unlinking any trigger leaves the head pointing at itself, whether or not that trigger was the listed one.
  function Expire(s: State, i: nat): State
    requires i < |s.trigs|
  {
    s.(trigs := s.trigs[i := s.trigs[i].(live := false, pending := false)], listed := None)
  }

  function Step(cfg: Config, s: State, e: Event): (State, Verdict) {
    match e
    case Arrive(p, r, allocOk) => Target(cfg, s, p, r, allocOk)
    case Tick(d) => (s.(now := s.now + d), Continue)
    case Fire(i) => (if CanFire(s, i) then Expire(s, i) else s, Continue)
  }

  // The state after the first n events of a run.
  function After(cfg: Config, es: seq<Event>, n: nat): State
    requires n <= |es|
  {
    if n == 0 then INIT else Step(cfg, After(cfg, es, n - 1), es[n - 1]).0
  }
}
