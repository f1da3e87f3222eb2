/**
  The ipt_TRIGGER kernel code on its intrusive list.

  `struct ipt_trigger` starts with its `list_head`, so the list head and the triggers are both
  `Trigger` objects; of the head only the links are ever used.  The ghost field `state` is the
  protocol state of `PortTrigger` that the pointers and fields represent.
 */
module IptTrigger {
  import opened Wrappers
  import opened PortTrigger
  import Runs = PortTriggerRuns

  class Trigger {
    var next: Trigger?
    var prev: Trigger?
    var pending: bool
    var expires: nat
    var srcip: u32
    var dstip: u32
    var trigProto: u16
    var rproto: u16
    var ports: Ports
    var reply: bool

    // Zeroed memory, followed by INIT_LIST_HEAD.
    constructor ()
      ensures next == this && prev == this && !pending
    {
      pending, expires, srcip, dstip, trigProto, rproto, reply := false, 0, 0, 0, 0, 0, false;
      ports := Ports(0, 0, 0, 0);
      new;
      next, prev := this, this;
    }

    ghost predicate Represents(t: Trig)
      reads this
    {
      && srcip == t.srcip && dstip == t.dstip && trigProto == t.trigProto && rproto == t.rproto
      && ports == t.ports && reply == t.reply && pending == t.pending && expires == t.expires
    }
  }

  // The kernel's list_add(new, head): link nw between hd and its successor.
  method ListAdd(nw: Trigger, hd: Trigger)
    requires hd.next != null && nw != hd && nw != hd.next
    modifies nw`next, nw`prev, hd`next, hd`prev, hd.next`prev
    ensures nw.prev == hd && nw.next == old(hd.next) && hd.next == nw && old(hd.next).prev == nw
    ensures old(hd.next) != hd ==> hd.prev == old(hd.prev)
  {
    var next := hd.next;
    next.prev := nw;
    nw.next := next;
    nw.prev := hd;
    hd.next := nw;
  }

  // The kernel's list_del(entry); the poison values left in the entry are modelled as null.
  method ListDel(entry: Trigger)
    requires entry.next != null && entry.prev != null
    modifies entry`next, entry`prev, entry.next`prev, entry.prev`next
    ensures old(entry.next) != entry ==> old(entry.next).prev == old(entry.prev)
    ensures old(entry.prev) != entry ==> old(entry.prev).next == old(entry.next)
    ensures entry.next == null && entry.prev == null
  {
    var prev, next := entry.prev, entry.next;
    next.prev := prev;
    prev.next := next;
    entry.next, entry.prev := null, null;
  }

  class TriggerModule {
    const cfg: Config
    const head: Trigger
    var jiffies: nat
    // Every trigger ever allocated, in order: the pointers that timers carry.
    var all: seq<Trigger>
    ghost var state: State

    ghost predicate Valid()
      reads this, head, all
    {
      && Data()
      && Shape()
    }

    ghost predicate Data()
      reads this, all
    {
      && state.now == jiffies
      && |state.trigs| == |all|
      && head !in all
      && (forall i, j :: 0 <= i < j < |all| ==> all[i] != all[j])
      && forall i :: 0 <= i < |all| ==> all[i].Represents(state.trigs[i])
    }

    // The links: every live trigger points to the head both ways; the head points both ways to
    // itself or to one live trigger.
    ghost predicate Shape()
      requires |state.trigs| == |all|
      reads this, head, all
    {
      && (forall i :: 0 <= i < |all| && state.trigs[i].live ==> all[i].next == head && all[i].prev == head)
      && head.next == head.prev
      && match state.listed
         case None => head.next == head
         case Some(i) => i < |all| && state.trigs[i].live && head.next == all[i]
    }

    constructor (cfg: Config)
      ensures Valid() && fresh(head) && state == INIT && all == [] && this.cfg == cfg
    {
      this.cfg := cfg;
      head := new Trigger();
      jiffies := 0;
      all := [];
      state := INIT;
    }

    // The object `next` hops from the head.
    ghost function Hop(n: nat): Trigger?
      reads this, head, all
      requires Valid()
      ensures Hop(n) == head || exists i :: 0 <= i < |all| && state.trigs[i].live && Hop(n) == all[i]
    {
      if n == 0 then head
      else
        var p := Hop(n - 1);
        p.next
    }

    // Following the links for any number of steps only ever visits the head and the listed
    // trigger: no freed and no older trigger is reachable.
    lemma {:induction false} WalkAlternates(n: nat)
      requires Valid()
      ensures Hop(n) == if n % 2 == 0 || state.listed.None? then head else all[state.listed.value]
    {
      if n > 0 {
        WalkAlternates(n - 1);
      }
    }

    // LIST_FIND over trigger_list, with trigger_out_matched or trigger_in_matched.
    method ListFind(outward: bool, p: Packet) returns (found: Trigger?)
      requires Valid()
      ensures match Find(state, outward, p)
              case None => found == null
              case Some(i) => found == all[i] && state.trigs[i].live
    {
      var pos := head.next;
      while pos != head
        invariant pos == head || pos == head.next
        invariant pos == head ==> Find(state, outward, p).None?
        decreases pos != head
      {
        if TriggerMatched(outward, pos, p.proto, p.dport) {
          return pos;
        }
        pos := pos.next;
      }
      return null;
    }

    static predicate TriggerMatched(outward: bool, i: Trigger, proto: u8, dport: u16)
      reads i
    {
      if i.trigProto != BOTH_PROTOCOLS && i.trigProto != proto then false
      else if outward then i.ports.mlo <= dport && i.ports.mhi >= dport
      else i.ports.rlo <= dport && i.ports.rhi >= dport
    }

    method TriggerRefresh(trig: Trigger, extra: nat, ghost i: nat)
      requires Valid() && i < |all| && all[i] == trig && extra == Timeout(cfg)
      modifies trig`pending, trig`expires, this`state
      ensures Valid()
      ensures state == old(state).(trigs := old(state).trigs[i := Refresh(cfg, old(state).now, old(state).trigs[i])])
    {
      var wasPending := trig.pending;
      trig.pending := false;  // del_timer
      if wasPending {
        trig.expires := jiffies + extra;
        trig.pending := true;  // add_timer
      }
      state := state.(trigs := state.trigs[i := Refresh(cfg, state.now, state.trigs[i])]);
    }

    // __del_trigger, called from the expired timer: unlink and free.
    method TriggerTimeout(trig: Trigger, ghost i: nat)
      requires Valid() && i < |all| && all[i] == trig && state.trigs[i].live && trig.pending
      modifies this`state, head`next, head`prev, trig`next, trig`prev, trig`pending
      ensures Valid() && state == Expire(old(state), i)
    {
      trig.pending := false;  // the timer core dequeues a timer before running it
      ListDel(trig);
      state := Expire(state, i);
    }

    // One timer interrupt for trig: its callback runs if it is queued and due.
    method RunTimer(trig: Trigger, ghost i: nat)
      requires Valid() && i < |all| && all[i] == trig && state.trigs[i].live
      modifies this`state, head`next, head`prev, trig`next, trig`prev, trig`pending
      ensures Valid() && state == Step(cfg, old(state), Fire(i)).0
    {
      if trig.pending && trig.expires <= jiffies {
        TriggerTimeout(trig, i);
      }
    }

    method Advance(delta: nat)
      requires Valid()
      modifies this`state, this`jiffies
      ensures Valid() && state == Step(cfg, old(state), Tick(delta)).0
    {
      jiffies := jiffies + delta;
      state := state.(now := state.now + delta);
    }

    // add_new_trigger.  The list_add call passes the global head where the new entry belongs.
    method AddNewTrigger(p: Packet, r: Rule, ports: Ports, allocOk: bool)
      requires Valid() && Find(state, true, p).None? && ports == Normalize(r.ports)
      modifies this`state, this`all, head`next, head`prev
      ensures Valid() && state == HandleOut(cfg, old(state), p, r, allocOk)
      ensures if allocOk then |all| == |old(all)| + 1 && all[..|old(all)|] == old(all) && fresh(all[|old(all)|])
              else all == old(all)
    {
      if !allocOk {
        return;
      }
      var nw := AllocateTrigger(p, r, ports);
      ListAdd(head, nw);
      Record(nw, NewTrig(cfg, state.now, p, r));
    }

    // The node as add_new_trigger leaves it, apart from its list links.
    method AllocateTrigger(p: Packet, r: Rule, ports: Ports) returns (nw: Trigger)
      requires state.now == jiffies && ports == Normalize(r.ports)
      ensures fresh(nw) && nw.next == nw && nw.prev == nw && nw.Represents(NewTrig(cfg, state.now, p, r))
    {
      nw := new Trigger();
      nw.srcip, nw.dstip, nw.trigProto, nw.rproto, nw.ports := p.saddr, p.daddr, r.proto, p.proto, ports;
      nw.reply := false;
      nw.expires := jiffies + TRIGGER_TIMEOUT * cfg.hz;
      nw.pending := cfg.armed;
    }

    // Bookkeeping for a linked new entry.
    method Record(nw: Trigger, ghost t: Trig)
      requires Data() && nw.Represents(t) && nw != head && nw !in all && t.live
      requires head.next == nw && head.prev == nw && nw.next == head && nw.prev == head
      requires forall i :: 0 <= i < |all| && state.trigs[i].live ==> all[i].next == head && all[i].prev == head
      modifies this`state, this`all
      ensures Valid() && all == old(all) + [nw]
      ensures state == State(old(state).now, old(state).trigs + [t], Some(|old(all)|))
    {
      state := State(state.now, state.trigs + [t], Some(|all|));
      all := all + [nw];
    }

    // A host takes over a trigger that has seen a reply.
    method TakeOver(trig: Trigger, saddr: u32, ghost i: nat)
      requires Valid() && i < |all| && all[i] == trig
      modifies this`state, trig`srcip
      ensures Valid() && state == old(state).(trigs := old(state).trigs[i := old(state).trigs[i].(srcip := saddr)])
    {
      trig.srcip := saddr;
      state := state.(trigs := state.trigs[i := state.trigs[i].(srcip := saddr)]);
    }

    method TriggerOut(p: Packet, r: Rule, allocOk: bool)
      requires Valid()
      modifies this`state, this`all, head, all
      ensures Valid() && state == HandleOut(cfg, old(state), p, r, allocOk)
      ensures |old(all)| <= |all| && all[..|old(all)|] == old(all)
      ensures fresh(set x | x in all[|old(all)|..])
    {
      var found := ListFind(true, p);
      if found != null {
        ghost var i := Find(state, true, p).value;
        TriggerRefresh(found, TRIGGER_TIMEOUT * cfg.hz, i);
        if found.reply {
          TakeOver(found, p.saddr, i);
        }
        assert state.trigs == HandleOut(cfg, old(state), p, r, allocOk).trigs;
      } else {
        var ports := r.ports;
        if ports.rhi == 0 {
          ports := ports.(rhi := ports.rlo);
        }
        if ports.mhi == 0 {
          ports := ports.(mhi := ports.mlo);
        }
        AddNewTrigger(p, r, ports, allocOk);
      }
    }

    method TriggerIn(p: Packet) returns (v: Verdict)
      requires Valid()
      modifies this`state, all
      ensures Valid() && (state, v) == HandleIn(cfg, old(state), p)
    {
      var found := ListFind(false, p);
      if found != null {
        TriggerRefresh(found, TRIGGER_TIMEOUT * cfg.hz, Find(state, false, p).value);
        return Accept;
      }
      return Continue;
    }

    method TriggerDnat(p: Packet) returns (v: Verdict)
      requires Valid()
      modifies this`state, all
      ensures Valid() && (state, v) == HandleDnat(old(state), p)
    {
      var found := ListFind(false, p);
      if found == null || found.srcip == 0 {
        return Continue;
      }
      ghost var i := Find(state, false, p).value;
      found.reply := true;
      state := state.(trigs := state.trigs[i := state.trigs[i].(reply := true)]);
      return Rewrite(found.srcip);
    }

    // trigger_target: one packet through the target.
    method TriggerTarget(p: Packet, r: Rule, allocOk: bool) returns (v: Verdict)
      requires Valid()
      modifies this`state, this`all, head, all
      ensures Valid() && (state, v) == Step(cfg, old(state), Arrive(p, r, allocOk))
      ensures |old(all)| <= |all| && all[..|old(all)|] == old(all)
      ensures fresh(set x | x in all[|old(all)|..])
    {
      if p.proto != IPPROTO_TCP && p.proto != IPPROTO_UDP {
        return Continue;
      }
      match r.kind {
        case Out =>
          TriggerOut(p, r, allocOk);
          v := Continue;
        case In =>
          v := TriggerIn(p);
        case Dnat =>
          v := TriggerDnat(p);
        case Unknown =>
          v := Continue;
      }
    }

    // One event of a run.  Timers fire through the pointer they carry, and only while queued.
    method Perform(e: Event) returns (v: Verdict)
      requires Valid() && Runs.Inv(cfg, state)
      modifies this`state, this`all, this`jiffies, head, all
      ensures Valid() && (state, v) == Step(cfg, old(state), e)
      ensures |old(all)| <= |all| && all[..|old(all)|] == old(all)
      ensures fresh(set x | x in all[|old(all)|..])
    {
      match e {
        case Arrive(p, r, allocOk) =>
          v := TriggerTarget(p, r, allocOk);
        case Tick(delta) =>
          Advance(delta);
          v := Continue;
        case Fire(i) =>
          if i < |all| && all[i].pending {
            RunTimer(all[i], i);
          }
          v := Continue;
      }
    }
  }

  // Event n of a run.
  method PerformNth(m: TriggerModule, es: seq<Event>, n: nat) returns (v: Verdict)
    requires n < |es| && m.Valid() && m.state == After(m.cfg, es, n)
    modifies m, m.head, m.all
    ensures m.Valid() && m.state == After(m.cfg, es, n + 1) && v == Runs.VerdictAt(m.cfg, es, n)
    ensures forall t :: t in m.all ==> t in old(m.all) || fresh(t)
  {
    Runs.InvHolds(m.cfg, es, n);
    ghost var before := m.all;
    v := m.Perform(es[n]);
    assert m.all == before + m.all[|before|..];
  }

  // The pointer code, started on an empty list, goes through exactly the states and verdicts of
  // the protocol, on every run and for both ways of setting up timers.
  method RunModule(cfg: Config, es: seq<Event>) returns (m: TriggerModule, verdicts: seq<Verdict>)
    ensures m.Valid() && m.cfg == cfg && m.state == After(cfg, es, |es|)
    ensures |verdicts| == |es| && forall k :: 0 <= k < |es| ==> verdicts[k] == Runs.VerdictAt(cfg, es, k)
  {
    m := new TriggerModule(cfg);
    verdicts := [];
    var n := 0;
    while n < |es|
      invariant n == |verdicts| <= |es| && m.Valid() && m.cfg == cfg && m.state == After(cfg, es, n)
      invariant fresh(m) && fresh(m.head) && fresh(set t | t in m.all)
      invariant forall k :: 0 <= k < n ==> verdicts[k] == Runs.VerdictAt(cfg, es, k)
    {
      var v := PerformNth(m, es, n);
      verdicts := verdicts + [v];
      n := n + 1;
    }
  }
}
