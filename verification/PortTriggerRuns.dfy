/**
  What every run of the port-triggering protocol keeps.

  All statements quantify over arbitrary event sequences.  Positions in a run are event indices:
  event k takes the state After(k) to After(k + 1).
 */
module PortTriggerRuns {
  import opened Wrappers
  import opened PortTrigger

  // ----- What one event does to trigger i -----

  predicate Creation(s: State, e: Event, i: nat) {
    i == |s.trigs| && Sees(e, Out) && e.allocOk && Find(s, true, e.pkt).None?
  }

  predicate Freeing(s: State, e: Event, i: nat) {
    e == Fire(i) && CanFire(s, i)
  }

  predicate Sees(e: Event, kind: RuleType) {
    e.Arrive? && Supported(e.pkt) && e.rule.kind == kind
  }

  predicate OutHit(s: State, e: Event, i: nat) {
    Sees(e, Out) && Find(s, true, e.pkt) == Some(i)
  }

  predicate InHit(s: State, e: Event, i: nat) {
    Sees(e, In) && Find(s, false, e.pkt) == Some(i)
  }

  predicate Redirection(s: State, e: Event, i: nat) {
    Sees(e, Dnat) && Find(s, false, e.pkt) == Some(i) && s.trigs[i].srcip != 0
  }

  lemma StepOld(cfg: Config, s: State, e: Event, i: nat)
    requires i < |s.trigs|
    ensures var s' := Step(cfg, s, e).0;
      && |s.trigs| <= |s'.trigs| <= |s.trigs| + 1
      && s.now <= s'.now
      && var t, t' := s.trigs[i], s'.trigs[i];
      && t'.srcip == (if OutHit(s, e, i) && t.reply then e.pkt.saddr else t.srcip)
      && t'.reply == (t.reply || Redirection(s, e, i))
      && t'.expires == (if t.pending && (OutHit(s, e, i) || InHit(s, e, i)) then s.now + Timeout(cfg) else t.expires)
      && t'.live == (t.live && !Freeing(s, e, i))
      && t'.trigProto == t.trigProto && t'.ports == t.ports && t'.dstip == t.dstip && t'.rproto == t.rproto
  {
  }

  lemma StepNew(cfg: Config, s: State, e: Event)
    ensures var ts' := Step(cfg, s, e).0.trigs;
      if Creation(s, e, |s.trigs|) then ts' == s.trigs + [NewTrig(cfg, s.now, e.pkt, e.rule)] else |ts'| == |s.trigs|
  {
  }

  predicate Rewiring(s: State, e: Event) {
    Creation(s, e, |s.trigs|) || (e.Fire? && Freeing(s, e, e.trig))
  }

  lemma StepListed(cfg: Config, s: State, e: Event)
    ensures Step(cfg, s, e).0.listed ==
            if Creation(s, e, |s.trigs|) then Some(|s.trigs|)
            else if Rewiring(s, e) then None
            else s.listed
  {
  }

  // ----- The same at position k of a run -----

  predicate Creates(cfg: Config, es: seq<Event>, k: nat, i: nat)
    requires k < |es|
  {
    Creation(After(cfg, es, k), es[k], i)
  }

  predicate Frees(cfg: Config, es: seq<Event>, k: nat, i: nat)
    requires k < |es|
  {
    Freeing(After(cfg, es, k), es[k], i)
  }

  predicate HitsOut(cfg: Config, es: seq<Event>, k: nat, i: nat)
    requires k < |es|
  {
    OutHit(After(cfg, es, k), es[k], i)
  }

  predicate HitsIn(cfg: Config, es: seq<Event>, k: nat, i: nat)
    requires k < |es|
  {
    InHit(After(cfg, es, k), es[k], i)
  }

  predicate Redirects(cfg: Config, es: seq<Event>, k: nat, i: nat)
    requires k < |es|
  {
    Redirection(After(cfg, es, k), es[k], i)
  }

  // Creation and every hit that refreshes the timer; a redirect does not.
  predicate Touches(cfg: Config, es: seq<Event>, k: nat, i: nat)
    requires k < |es|
  {
    Creates(cfg, es, k, i) || HitsOut(cfg, es, k, i) || HitsIn(cfg, es, k, i)
  }

  predicate Rewires(cfg: Config, es: seq<Event>, k: nat)
    requires k < |es|
  {
    Rewiring(After(cfg, es, k), es[k])
  }

  function VerdictAt(cfg: Config, es: seq<Event>, k: nat): Verdict
    requires k < |es|
  {
    Step(cfg, After(cfg, es, k), es[k]).1
  }

  // ----- Shape: what a traversal of the list can find -----

  ghost predicate Inv(cfg: Config, s: State) {
    && (s.listed.Some? ==> s.listed.value < |s.trigs| && s.trigs[s.listed.value].live)
    && forall i :: 0 <= i < |s.trigs| ==> s.trigs[i].pending == (s.trigs[i].live && cfg.armed)
  }

  // In particular a queued timer always belongs to a trigger that has not been freed.
  lemma {:induction false} InvHolds(cfg: Config, es: seq<Event>, n: nat)
    requires n <= |es|
    ensures Inv(cfg, After(cfg, es, n))
  {
    if n > 0 {
      InvHolds(cfg, es, n - 1);
    }
  }

  lemma {:induction false} Grows(cfg: Config, es: seq<Event>, m: nat, n: nat)
    requires m <= n <= |es|
    ensures |After(cfg, es, m).trigs| <= |After(cfg, es, n).trigs|
    ensures After(cfg, es, m).now <= After(cfg, es, n).now
    decreases n - m
  {
    if m < n {
      Grows(cfg, es, m, n - 1);
    }
  }

  // Event c created trigger i, and no event after c created or freed any trigger.
  ghost predicate NewestSince(cfg: Config, es: seq<Event>, n: nat, i: nat, c: nat)
    requires n <= |es|
  {
    c < n && Creates(cfg, es, c, i) && forall k: nat :: c < k < n ==> !Rewires(cfg, es, k)
  }

  // The list holds trigger i exactly when i is the newest trigger and no trigger, whichever it
  // was, has expired since i was created.
  lemma {:induction false} ListedIsNewest(cfg: Config, es: seq<Event>, n: nat, i: nat)
    requires n <= |es|
    ensures After(cfg, es, n).listed == Some(i) <==> exists c: nat :: NewestSince(cfg, es, n, i, c)
  {
    if n > 0 {
      ListedIsNewest(cfg, es, n - 1, i);
      StepListed(cfg, After(cfg, es, n - 1), es[n - 1]);
      if Rewires(cfg, es, n - 1) {
        assert forall c: nat :: NewestSince(cfg, es, n, i, c) ==> c == n - 1;
        assert Creates(cfg, es, n - 1, i) ==> NewestSince(cfg, es, n, i, n - 1);
      } else {
        var m := n - 1;
        if c: nat :| NewestSince(cfg, es, m, i, c) {
          assert NewestSince(cfg, es, n, i, c);
        }
        if c: nat :| NewestSince(cfg, es, n, i, c) {
          assert NewestSince(cfg, es, m, i, c);
        }
      }
    }
  }

  // Once any trigger has expired, no packet is redirected or accepted until a new trigger is
  // created, however much time the remaining triggers have left.
  lemma NothingFoundAfterExpiry(cfg: Config, es: seq<Event>, f: nat, j: nat, n: nat)
    requires f < n < |es| && Frees(cfg, es, f, j)
    requires forall k: nat, i: nat :: f < k < n ==> !Creates(cfg, es, k, i)
    ensures VerdictAt(cfg, es, n) == Continue
  {
    var s := After(cfg, es, n);
    if s.listed.Some? {
      ListedIsNewest(cfg, es, n, s.listed.value);
      var c: nat :| NewestSince(cfg, es, n, s.listed.value, c);
      assert Rewires(cfg, es, f);
      assert false;
    }
  }

  // ----- Provenance of redirected packets -----

  ghost predicate RepliedBefore(cfg: Config, es: seq<Event>, n: nat, i: nat)
    requires n <= |es|
  {
    exists r: nat :: r < n && Redirects(cfg, es, r, i)
  }

  // Event l is where trigger i, created by event c, took the address it holds after n events:
  // its creation, as long as no outbound hit followed a redirect, and otherwise the last
  // outbound hit, which then did follow a redirect.
  ghost predicate Source(cfg: Config, es: seq<Event>, n: nat, i: nat, c: nat, l: nat)
    requires n <= |es|
  {
    && c <= l < n
    && Creates(cfg, es, c, i)
    && Sees(es[c], Out) && Sees(es[l], Out)
    && if l == c then forall k: nat :: c < k < n && HitsOut(cfg, es, k, i) ==> !RepliedBefore(cfg, es, k, i)
       else
         && HitsOut(cfg, es, l, i) && RepliedBefore(cfg, es, l, i)
         && forall k: nat :: l < k < n ==> !HitsOut(cfg, es, k, i)
  }

  lemma {:induction false} Provenance(cfg: Config, es: seq<Event>, n: nat, i: nat) returns (c: nat, l: nat)
    requires n <= |es| && i < |After(cfg, es, n).trigs|
    ensures Source(cfg, es, n, i, c, l)
    ensures var t := After(cfg, es, n).trigs[i];
      && t.srcip == es[l].pkt.saddr
      && t.reply == RepliedBefore(cfg, es, n, i)
      && t.trigProto == es[c].rule.proto && t.ports == Normalize(es[c].rule.ports)
      && t.dstip == es[c].pkt.daddr && t.rproto == es[c].pkt.proto
  {
    var s, e := After(cfg, es, n - 1), es[n - 1];
    if i == |s.trigs| {
      c, l := n - 1, n - 1;
      StepNew(cfg, s, e);
      NotYetRedirected(cfg, es, n, i);
    } else {
      StepOld(cfg, s, e, i);
      StepNew(cfg, s, e);
      c, l := Provenance(cfg, es, n - 1, i);
      SourceStep(cfg, es, n, i, c, l);
      if HitsOut(cfg, es, n - 1, i) && RepliedBefore(cfg, es, n - 1, i) {
        l := n - 1;
      }
    }
  }

  lemma NotYetRedirected(cfg: Config, es: seq<Event>, n: nat, i: nat)
    requires 0 < n <= |es| && i == |After(cfg, es, n - 1).trigs|
    ensures !RepliedBefore(cfg, es, n, i)
  {
    forall r: nat | r < n
      ensures !Redirects(cfg, es, r, i)
    {
      Grows(cfg, es, r, n - 1);
    }
  }

  // One more event moves the source exactly if it is an outbound hit after a redirect.
  lemma SourceStep(cfg: Config, es: seq<Event>, n: nat, i: nat, c: nat, l: nat)
    requires 0 < n <= |es| && Source(cfg, es, n - 1, i, c, l)
    ensures RepliedBefore(cfg, es, n, i) == (RepliedBefore(cfg, es, n - 1, i) || Redirects(cfg, es, n - 1, i))
    ensures Source(cfg, es, n, i, c,
              if HitsOut(cfg, es, n - 1, i) && RepliedBefore(cfg, es, n - 1, i) then n - 1 else l)
  {
  }

  // Every redirected packet goes to a host that sent an earlier TCP or UDP packet through an
  // `out` rule: the last outbound host since the first redirect, or else the creator.  The
  // trigger used is the newest one, nothing has expired since it was created, and the packet
  // lies in its protocol and relate range.
  lemma DnatProvenance(cfg: Config, es: seq<Event>, n: nat)
    requires n < |es| && VerdictAt(cfg, es, n).Rewrite?
    ensures exists i: nat, c: nat, l: nat ::
      && Source(cfg, es, n, i, c, l)
      && Redirects(cfg, es, n, i)
      && VerdictAt(cfg, es, n).to == es[l].pkt.saddr != 0
      && (!RepliedBefore(cfg, es, n, i) ==> l == c)
      && NewestSince(cfg, es, n, i, c)
      && (es[c].rule.proto == BOTH_PROTOCOLS || es[c].rule.proto == es[n].pkt.proto)
      && var p := Normalize(es[c].rule.ports);
         p.rlo <= es[n].pkt.dport <= p.rhi
  {
    InvHolds(cfg, es, n);
    var i := After(cfg, es, n).listed.value;
    var c, l := Provenance(cfg, es, n, i);
    ListedIsNewest(cfg, es, n, i);
    var c': nat :| NewestSince(cfg, es, n, i, c');
    CreatedOnce(cfg, es, c, c', i);
    if l != c {
      var r: nat :| r < l && Redirects(cfg, es, r, i);
    }
  }

  lemma CreatedOnce(cfg: Config, es: seq<Event>, c: nat, d: nat, i: nat)
    requires c < |es| && d < |es| && Creates(cfg, es, c, i) && Creates(cfg, es, d, i)
    ensures c == d
  {
    if c < d {
      Grows(cfg, es, c + 1, d);
    } else if d < c {
      Grows(cfg, es, d + 1, c);
    }
  }

  // ----- Timers and freeing, first patch -----

  // k is the last event before n that created or refreshed trigger i.
  ghost predicate LastTouch(cfg: Config, es: seq<Event>, n: nat, i: nat, k: nat)
    requires n <= |es|
  {
    k < n && Touches(cfg, es, k, i) && forall m: nat :: k < m < n ==> !Touches(cfg, es, m, i)
  }

  // With add_timer, a live trigger has one queued timer, due 120 s after the last event that
  // created it or matched it outbound or in the forward chain; redirects do not move it.
  lemma {:induction false} DueAfterLastTouch(cfg: Config, es: seq<Event>, n: nat, i: nat) returns (k: nat)
    requires cfg.armed && n <= |es| && i < |After(cfg, es, n).trigs|
    requires After(cfg, es, n).trigs[i].live
    ensures LastTouch(cfg, es, n, i, k)
    ensures After(cfg, es, n).trigs[i].pending
    ensures After(cfg, es, n).trigs[i].expires == After(cfg, es, k).now + 120 * cfg.hz
  {
    InvHolds(cfg, es, n);
    InvHolds(cfg, es, n - 1);
    StepDue(cfg, After(cfg, es, n - 1), es[n - 1], i);
    if Touches(cfg, es, n - 1, i) {
      k := n - 1;
    } else {
      k := DueAfterLastTouch(cfg, es, n - 1, i);
    }
  }

  // One event: only creation and hits set the expiry.
  lemma StepDue(cfg: Config, s: State, e: Event, i: nat)
    requires cfg.armed && Inv(cfg, s) && i < |Step(cfg, s, e).0.trigs| && Step(cfg, s, e).0.trigs[i].live
    ensures var t := Step(cfg, s, e).0.trigs[i];
      if Creation(s, e, i) || OutHit(s, e, i) || InHit(s, e, i) then t.expires == s.now + 120 * cfg.hz
      else i < |s.trigs| && s.trigs[i].live && t.expires == s.trigs[i].expires
  {
    StepNew(cfg, s, e);
    if i < |s.trigs| {
      StepOld(cfg, s, e, i);
    }
  }

  // A trigger is freed no earlier than 120 s after every event that touched it.
  lemma NeverFreedEarly(cfg: Config, es: seq<Event>, f: nat, i: nat, k: nat)
    requires cfg.armed && k < f < |es| && Frees(cfg, es, f, i) && Touches(cfg, es, k, i)
    ensures After(cfg, es, f).now >= After(cfg, es, k).now + 120 * cfg.hz
  {
    var m := DueAfterLastTouch(cfg, es, f, i);
    assert k <= m;
    Grows(cfg, es, k, m);
  }

  lemma {:induction false} DeadStaysDead(cfg: Config, es: seq<Event>, m: nat, n: nat, i: nat)
    requires m <= n <= |es| && i < |After(cfg, es, m).trigs| && !After(cfg, es, m).trigs[i].live
    ensures i < |After(cfg, es, n).trigs| && !After(cfg, es, n).trigs[i].live
    decreases n - m
  {
    if m < n {
      DeadStaysDead(cfg, es, m, n - 1, i);
      InvHolds(cfg, es, n - 1);
    }
  }

  // A trigger is no longer live exactly when one earlier timer expiry freed it, and there is
  // only ever one such expiry.
  lemma {:induction false} FreedExactlyOnce(cfg: Config, es: seq<Event>, n: nat, i: nat)
    requires n <= |es| && i < |After(cfg, es, n).trigs|
    ensures !After(cfg, es, n).trigs[i].live <==> exists f: nat :: f < n && Frees(cfg, es, f, i)
    ensures forall f: nat, g: nat :: f < n && g < n && Frees(cfg, es, f, i) && Frees(cfg, es, g, i) ==> f == g
  {
    if i < |After(cfg, es, n - 1).trigs| {
      FreedExactlyOnce(cfg, es, n - 1, i);
      InvHolds(cfg, es, n - 1);
      if Frees(cfg, es, n - 1, i) {
        assert forall f: nat :: f < n - 1 ==> !Frees(cfg, es, f, i);
      }
    } else {
      forall f: nat | f < n
        ensures !Frees(cfg, es, f, i)
      {
        Grows(cfg, es, f, n - 1);
      }
    }
  }

  function LiveCount(ts: seq<Trig>): nat {
    if ts == [] then 0 else LiveCount(ts[..|ts| - 1]) + if ts[|ts| - 1].live then 1 else 0
  }

  function FreeCount(cfg: Config, es: seq<Event>, n: nat): nat
    requires n <= |es|
  {
    if n == 0 then 0
    else FreeCount(cfg, es, n - 1) + if es[n - 1].Fire? && Frees(cfg, es, n - 1, es[n - 1].trig) then 1 else 0
  }

  lemma {:induction false} LiveCountUpdate(ts: seq<Trig>, i: nat, t: Trig)
    requires i < |ts|
    ensures LiveCount(ts[i := t]) ==
            LiveCount(ts) - (if ts[i].live then 1 else 0) + if t.live then 1 else 0
  {
    var k := |ts| - 1;
    if i == k {
      assert ts[i := t][..k] == ts[..k];
    } else {
      assert ts[i := t][..k] == ts[..k][i := t];
      LiveCountUpdate(ts[..k], i, t);
    }
  }

  lemma StepLiveCount(cfg: Config, s: State, e: Event)
    requires Inv(cfg, s)
    ensures var s' := Step(cfg, s, e).0;
      LiveCount(s'.trigs) + (if e.Fire? && Freeing(s, e, e.trig) then 1 else 0) + |s.trigs| == LiveCount(s.trigs) + |s'.trigs|
  {
    var s' := Step(cfg, s, e).0;
    if Creation(s, e, |s.trigs|) {
      StepNew(cfg, s, e);
      assert s'.trigs[..|s.trigs|] == s.trigs;
    } else if e.Fire? {
      if CanFire(s, e.trig) {
        LiveCountUpdate(s.trigs, e.trig, s'.trigs[e.trig]);
      }
    } else if s.listed.Some? {
      StepOld(cfg, s, e, s.listed.value);
      LiveCountUpdate(s.trigs, s.listed.value, s'.trigs[s.listed.value]);
    }
  }

  // Allocations equal live triggers plus frees, in every state of every run.
  lemma {:induction false} Conservation(cfg: Config, es: seq<Event>, n: nat)
    requires n <= |es|
    ensures LiveCount(After(cfg, es, n).trigs) + FreeCount(cfg, es, n) == |After(cfg, es, n).trigs|
  {
    if n > 0 {
      Conservation(cfg, es, n - 1);
      InvHolds(cfg, es, n - 1);
      StepLiveCount(cfg, After(cfg, es, n - 1), es[n - 1]);
    }
  }

  // ----- Timers, second patch -----

  // With timer_setup alone no timer is ever queued: refreshing changes nothing, nothing is ever
  // freed, and every trigger keeps its creation-time expiry forever.
  lemma {:induction false} NeverFreed(cfg: Config, es: seq<Event>, n: nat, i: nat)
    requires !cfg.armed && n <= |es| && i < |After(cfg, es, n).trigs|
    ensures After(cfg, es, n).trigs[i].live && !After(cfg, es, n).trigs[i].pending
    ensures Refresh(cfg, After(cfg, es, n).now, After(cfg, es, n).trigs[i]) == After(cfg, es, n).trigs[i]
    ensures exists c: nat ::
      c < n && Creates(cfg, es, c, i) && After(cfg, es, n).trigs[i].expires == After(cfg, es, c).now + 120 * cfg.hz
  {
    InvHolds(cfg, es, n - 1);
    if i < |After(cfg, es, n - 1).trigs| {
      NeverFreed(cfg, es, n - 1, i);
    } else {
      assert Creates(cfg, es, n - 1, i);
    }
  }

  // Hence the newest trigger stays on the list until the next one replaces it.
  lemma NewestStaysListed(cfg: Config, es: seq<Event>, n: nat)
    requires !cfg.armed && n <= |es|
    ensures var s := After(cfg, es, n); s.listed == if |s.trigs| == 0 then None else Some(|s.trigs| - 1)
  {
    if n > 0 {
      NewestStaysListed(cfg, es, n - 1);
      InvHolds(cfg, es, n - 1);
    }
  }

  // ----- When a packet meets a trigger -----

  predicate RuleCovers(r: Rule, lo: u16, hi: u16, p: Packet) {
    (r.proto == BOTH_PROTOCOLS || r.proto == p.proto) && lo <= p.dport <= hi
  }

  // An outbound packet hits trigger i exactly when i is the newest trigger with no expiry since
  // its creation and the match range of the rule that created it covers the packet; a new
  // trigger is created exactly when none is hit and the allocation succeeds.
  lemma OutboundHitsOrCreates(cfg: Config, es: seq<Event>, n: nat, i: nat)
    requires n < |es| && Sees(es[n], Out)
    ensures HitsOut(cfg, es, n, i)
      <==> (exists c: nat ::
              && NewestSince(cfg, es, n, i, c)
              && var p := Normalize(es[c].rule.ports); RuleCovers(es[c].rule, p.mlo, p.mhi, es[n].pkt))
    ensures |After(cfg, es, n + 1).trigs| > |After(cfg, es, n).trigs|
      <==> es[n].allocOk && forall j: nat :: !HitsOut(cfg, es, n, j)
  {
    ListedIsNewest(cfg, es, n, i);
    InvHolds(cfg, es, n);
    if After(cfg, es, n).listed == Some(i) {
      var c, l := Provenance(cfg, es, n, i);
      forall d: nat | NewestSince(cfg, es, n, i, d)
        ensures d == c
      {
        CreatedOnce(cfg, es, c, d, i);
      }
    }
    if After(cfg, es, n).listed.Some? {
      assert OutHit(After(cfg, es, n), es[n], After(cfg, es, n).listed.value) ==>
          HitsOut(cfg, es, n, After(cfg, es, n).listed.value);
    }
    StepNew(cfg, After(cfg, es, n), es[n]);
  }

  // An inbound packet is redirected by trigger i exactly when i is the newest trigger with no
  // expiry since its creation, the relate range of its creating rule covers the packet and its
  // address is set.  Being live with time left is not enough.
  lemma InboundRedirected(cfg: Config, es: seq<Event>, n: nat, i: nat)
    requires n < |es| && Sees(es[n], Dnat) && i < |After(cfg, es, n).trigs|
    ensures Redirects(cfg, es, n, i)
      <==> After(cfg, es, n).trigs[i].srcip != 0
           && (exists c: nat ::
              && NewestSince(cfg, es, n, i, c)
              && var p := Normalize(es[c].rule.ports); RuleCovers(es[c].rule, p.rlo, p.rhi, es[n].pkt))
    ensures Redirects(cfg, es, n, i) ==> VerdictAt(cfg, es, n) == Rewrite(After(cfg, es, n).trigs[i].srcip)
  {
    ListedIsNewest(cfg, es, n, i);
    var c, l := Provenance(cfg, es, n, i);
    forall d: nat | NewestSince(cfg, es, n, i, d)
      ensures d == c
    {
      CreatedOnce(cfg, es, c, d, i);
    }
  }

  // An inbound packet is accepted in the forward chain under the same condition.
  lemma InboundAccepted(cfg: Config, es: seq<Event>, n: nat)
    requires n < |es| && Sees(es[n], In)
    ensures VerdictAt(cfg, es, n) == Accept
      <==> (exists i: nat, c: nat ::
              && NewestSince(cfg, es, n, i, c)
              && var p := Normalize(es[c].rule.ports); RuleCovers(es[c].rule, p.rlo, p.rhi, es[n].pkt))
  {
    InvHolds(cfg, es, n);
    forall i: nat, c: nat | NewestSince(cfg, es, n, i, c)
      ensures After(cfg, es, n).listed == Some(i)
      ensures var p := Normalize(es[c].rule.ports);
        InHit(After(cfg, es, n), es[n], i) <==> RuleCovers(es[c].rule, p.rlo, p.rhi, es[n].pkt)
    {
      ListedIsNewest(cfg, es, n, i);
      var d, l := Provenance(cfg, es, n, i);
      CreatedOnce(cfg, es, c, d, i);
    }
    if After(cfg, es, n).listed.Some? {
      ListedIsNewest(cfg, es, n, After(cfg, es, n).listed.value);
    }
  }

  // ----- In numbers -----

  // Only TCP (6) and UDP (17) are handled: any other packet goes on and changes nothing, whatever
  // the rule; so does every packet under a rule without a type.
  lemma OnlyTcpAndUdp(cfg: Config, es: seq<Event>, n: nat)
    requires n < |es| && es[n].Arrive?
    requires es[n].pkt.proto !in {6, 17} || es[n].rule.kind == Unknown
    ensures After(cfg, es, n + 1) == After(cfg, es, n) && VerdictAt(cfg, es, n) == Continue
  {
  }

  // The listed trigger serves protocol proto (253 stands for every one) on port dport, which has
  // to lie in its match range or in its relate range.
  predicate ListedServes(s: State, matchRange: bool, proto: u8, dport: u16) {
    && s.listed.Some? && s.listed.value < |s.trigs|
    && var t := s.trigs[s.listed.value];
    && (t.trigProto == 253 || t.trigProto == proto)
    && if matchRange then t.ports.mlo <= dport <= t.ports.mhi else t.ports.rlo <= dport <= t.ports.rhi
  }

  // A TCP or UDP packet through an `out` rule always goes on.  If the listed trigger does not
  // serve it a trigger is added, provided there is memory, that remembers the packet's addresses
  // and the rule's ranges for 120 s; otherwise that trigger's timer is moved to 120 s from now if
  // it is queued, and after a redirect it takes over the packet's source address.
  lemma OutboundPacket(cfg: Config, es: seq<Event>, n: nat)
    requires n < |es| && es[n].Arrive? && es[n].rule.kind == Out
    ensures VerdictAt(cfg, es, n) == Continue
    ensures var s, s', p, r := After(cfg, es, n), After(cfg, es, n + 1), es[n].pkt, es[n].rule.ports;
      && (|s'.trigs| == |s.trigs| + 1
          <==> p.proto in {6, 17} && es[n].allocOk && !ListedServes(s, true, p.proto, p.dport))
      && (|s'.trigs| == |s.trigs| + 1 ==>
            && s'.listed == Some(|s.trigs|) && s'.now == s.now
            && s'.trigs == s.trigs + [Trig(p.saddr, p.daddr, es[n].rule.proto, p.proto,
                 Ports(r.mlo, if r.mhi == 0 then r.mlo else r.mhi, r.rlo, if r.rhi == 0 then r.rlo else r.rhi),
                 false, cfg.armed, s.now + 120 * cfg.hz, true)])
      && (p.proto in {6, 17} && ListedServes(s, true, p.proto, p.dport) ==>
            var i := s.listed.value;
            var t := s.trigs[i];
            s' == s.(trigs := s.trigs[i := t.(
              srcip := if t.reply then p.saddr else t.srcip,
              expires := if t.pending then s.now + 120 * cfg.hz else t.expires)]))
      && (!es[n].allocOk && !ListedServes(s, true, p.proto, p.dport) ==> s' == s)
  {
  }

  // A TCP or UDP packet through an `in` rule is accepted exactly if the listed trigger serves it,
  // whose queued timer is then moved.
  lemma ForwardedPacket(cfg: Config, es: seq<Event>, n: nat)
    requires n < |es| && es[n].Arrive? && es[n].rule.kind == In && es[n].pkt.proto in {6, 17}
    ensures var s, s', p := After(cfg, es, n), After(cfg, es, n + 1), es[n].pkt;
      if ListedServes(s, false, p.proto, p.dport) then
        var i := s.listed.value;
        && VerdictAt(cfg, es, n) == Accept
        && s' == s.(trigs := s.trigs[i := s.trigs[i].(
             expires := if s.trigs[i].pending then s.now + 120 * cfg.hz else s.trigs[i].expires)])
      else VerdictAt(cfg, es, n) == Continue && s' == s
  {
  }

  // A TCP or UDP packet through a `dnat` rule is redirected to the address of the listed trigger
  // exactly if that serves it and the address is not zero; the trigger then counts as replied to.
  lemma ReturningPacket(cfg: Config, es: seq<Event>, n: nat)
    requires n < |es| && es[n].Arrive? && es[n].rule.kind == Dnat && es[n].pkt.proto in {6, 17}
    ensures var s, s', p := After(cfg, es, n), After(cfg, es, n + 1), es[n].pkt;
      if ListedServes(s, false, p.proto, p.dport) && s.trigs[s.listed.value].srcip != 0 then
        var i := s.listed.value;
        && VerdictAt(cfg, es, n) == Rewrite(s.trigs[i].srcip)
        && s' == s.(trigs := s.trigs[i := s.trigs[i].(reply := true)])
      else VerdictAt(cfg, es, n) == Continue && s' == s
  {
  }

  // An expiry frees its trigger exactly if that is still allocated and its queued timer is due,
  // and it empties the list; time passes with ticks alone.
  lemma TimerEvent(cfg: Config, es: seq<Event>, n: nat)
    requires n < |es| && !es[n].Arrive?
    ensures VerdictAt(cfg, es, n) == Continue
    ensures var s, s' := After(cfg, es, n), After(cfg, es, n + 1);
      match es[n]
      case Tick(d) => s' == s.(now := s.now + d)
      case Fire(i) =>
        if i < |s.trigs| && s.trigs[i].live && s.trigs[i].pending && s.now >= s.trigs[i].expires
        then s' == State(s.now, s.trigs[i := s.trigs[i].(live := false, pending := false)], None)
        else s' == s
  {
  }

  // The port numbers a rule gives for packets coming back; a zero upper end stands for one port.
  predicate InRelateRange(r: Rule, dport: u16) {
    r.ports.rlo <= dport <= if r.ports.rhi == 0 then r.ports.rlo else r.ports.rhi
  }

  // Event c is a TCP or UDP packet through an `out` rule that finds no trigger and has memory for
  // one, and up to event n no timer fires and no other packet goes out.
  predicate Opens(cfg: Config, es: seq<Event>, c: nat, n: nat) {
    && c < n < |es|
    && es[c].Arrive? && es[c].rule.kind == Out && es[c].pkt.proto in {6, 17} && es[c].allocOk
    && !ListedServes(After(cfg, es, c), true, es[c].pkt.proto, es[c].pkt.dport)
    && forall k :: c < k < n ==> !es[k].Fire? && (es[k].Arrive? ==> es[k].rule.kind != Out)
  }

  // From the packet out to a packet back, in terms of the events alone.  A TCP or UDP packet that
  // finds no trigger opens the relate range of its rule: until a timer fires or another packet
  // goes out, a TCP or UDP packet of the rule's protocol (or of any, under 253) in that range is
  // accepted, and redirected to the sender of the first; every other packet passes by.
  lemma PacketBack(cfg: Config, es: seq<Event>, c: nat, n: nat)
    requires Opens(cfg, es, c, n) && es[n].Arrive?
    ensures var q, host := es[n].pkt, es[c].pkt.saddr;
      var meant := q.proto in {6, 17} && es[c].rule.proto in {253, q.proto} && InRelateRange(es[c].rule, q.dport);
      && (es[n].rule.kind == In ==> VerdictAt(cfg, es, n) == if meant then Accept else Continue)
      && (es[n].rule.kind == Dnat ==> VerdictAt(cfg, es, n) == if meant && host != 0 then Rewrite(host) else Continue)
  {
    StaysOpen(cfg, es, c, n);
  }

  lemma {:induction false} StaysOpen(cfg: Config, es: seq<Event>, c: nat, n: nat)
    requires Opens(cfg, es, c, n)
    ensures var s := After(cfg, es, n);
      && s.listed.Some? && s.listed.value < |s.trigs|
      && var t := s.trigs[s.listed.value];
      && t.srcip == es[c].pkt.saddr && t.trigProto == es[c].rule.proto
      && t.ports.mlo == es[c].rule.ports.mlo && t.ports.rlo == es[c].rule.ports.rlo
      && t.ports.mhi == (if es[c].rule.ports.mhi == 0 then es[c].rule.ports.mlo else es[c].rule.ports.mhi)
      && t.ports.rhi == if es[c].rule.ports.rhi == 0 then es[c].rule.ports.rlo else es[c].rule.ports.rhi
  {
    if n == c + 1 {
      OutboundPacket(cfg, es, c);
    } else {
      StaysOpen(cfg, es, c, n - 1);
    }
  }

  // In any run at all: a packet that is accepted or redirected is TCP or UDP and was asked for by
  // an earlier TCP or UDP packet through an `out` rule with its protocol (or 253) and its port.
  lemma AskedFor(cfg: Config, es: seq<Event>, n: nat) returns (c: nat)
    requires n < |es| && VerdictAt(cfg, es, n) != Continue
    ensures es[n].Arrive? && es[n].pkt.proto in {6, 17}
    ensures c < n && es[c].Arrive? && es[c].rule.kind == Out && es[c].pkt.proto in {6, 17}
    ensures es[c].rule.proto in {253, es[n].pkt.proto} && InRelateRange(es[c].rule, es[n].pkt.dport)
  {
    InvHolds(cfg, es, n);
    var l: nat;
    c, l := Provenance(cfg, es, n, After(cfg, es, n).listed.value);
  }

  // A run in which a fresh trigger with half its time left is not found, because an older one
  // expired in between.
  lemma FreshTriggerLost()
    ensures var cfg := Config(true, 1);
      var older := Rule(Out, BOTH_PROTOCOLS, Ports(100, 0, 200, 0));
      var newer := Rule(Out, BOTH_PROTOCOLS, Ports(300, 0, 400, 0));
      var es := [Arrive(Packet(6, 1, 9, 100), older, true), Tick(60), Arrive(Packet(6, 2, 9, 300), newer, true),
                 Tick(60), Fire(0), Arrive(Packet(6, 9, 5, 400), Rule(Dnat, 0, Ports(0, 0, 0, 0)), true)];
      && |After(cfg, es, 5).trigs| == 2
      && After(cfg, es, 5).trigs[1].live && After(cfg, es, 5).trigs[1].expires == After(cfg, es, 5).now + 60
      && InMatched(After(cfg, es, 5).trigs[1], 6, 400)
      && VerdictAt(cfg, es, 5) == Continue
  {
    var cfg := Config(true, 1);
    var older := Rule(Out, BOTH_PROTOCOLS, Ports(100, 0, 200, 0));
    var newer := Rule(Out, BOTH_PROTOCOLS, Ports(300, 0, 400, 0));
    var es := [Arrive(Packet(6, 1, 9, 100), older, true), Tick(60), Arrive(Packet(6, 2, 9, 300), newer, true),
               Tick(60), Fire(0), Arrive(Packet(6, 9, 5, 400), Rule(Dnat, 0, Ports(0, 0, 0, 0)), true)];
    assert After(cfg, es, 1).trigs == [NewTrig(cfg, 0, es[0].pkt, older)];
    assert After(cfg, es, 2).now == 60;
    assert After(cfg, es, 3).trigs == [NewTrig(cfg, 0, es[0].pkt, older), NewTrig(cfg, 60, es[2].pkt, newer)];
    assert After(cfg, es, 4) == After(cfg, es, 3).(now := 120);
    assert CanFire(After(cfg, es, 4), 0);
    assert After(cfg, es, 5) == Expire(After(cfg, es, 4), 0);
  }
}
