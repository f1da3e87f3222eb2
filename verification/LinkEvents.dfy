/**
  The Ethernet link monitor: a polling loop that reports changes of the running flag of up to ten
  interfaces through a callback.
 */
module LinkEvents {
  const ETH_INTF_MAX: nat := 10

  datatype Prev = FirstRun | WasDown | WasUp

  // What one poll of one interface yields: no link object, or the running flag.
  datatype Sample = Missing | Present(running: bool)

  // One turn of the endless loop: without a callback nothing is polled.
  datatype Round = Idle | Poll(samples: seq<Sample>)

  // A callback invocation.
  datatype Report = Report(intf: nat, up: bool)

  predicate WellFormed(rounds: seq<Round>) {
    forall k :: 0 <= k < |rounds| && rounds[k].Poll? ==> |rounds[k].samples| == ETH_INTF_MAX
  }

  // ----- What should be reported -----

  // The running flags seen on interface x, in order.
  function Seen(rounds: seq<Round>, x: nat): seq<bool>
    requires WellFormed(rounds) && x < ETH_INTF_MAX
  {
    if rounds == [] then []
    else
      var r := rounds[|rounds| - 1];
      Seen(rounds[..|rounds| - 1], x) +
      if r.Poll? && r.samples[x].Present? then [r.samples[x].running] else []
  }

  // A sequence with consecutive repeats removed.
  function Dedup(s: seq<bool>): seq<bool> {
    if s == [] then []
    else
      var d := Dedup(s[..|s| - 1]);
      if |s| > 1 && s[|s| - 2] == s[|s| - 1] then d else d + [s[|s| - 1]]
  }

  // The states reported for interface x.
  function Reported(log: seq<Report>, x: nat): seq<bool> {
    if log == [] then []
    else
      var e := log[|log| - 1];
      Reported(log[..|log| - 1], x) + if e.intf == x then [e.up] else []
  }

  // Interface x has something to report in round r: its first sample, or one that differs from the
  // last sample before.
  predicate Changed(history: seq<Round>, r: Round, x: nat)
    requires WellFormed(history) && (r.Poll? ==> |r.samples| == ETH_INTF_MAX) && x < ETH_INTF_MAX
  {
    && r.Poll? && r.samples[x].Present?
    && var s := Seen(history, x);
    s == [] || s[|s| - 1] != r.samples[x].running
  }

  // The reports of the interfaces below x in round r, in interface order.
  function RoundLog(history: seq<Round>, r: Round, x: nat): seq<Report>
    requires WellFormed(history) && (r.Poll? ==> |r.samples| == ETH_INTF_MAX) && x <= ETH_INTF_MAX
  {
    if x == 0 then []
    else if Changed(history, r, x - 1) then RoundLog(history, r, x - 1) + [Report(x - 1, r.samples[x - 1].running)]
    else RoundLog(history, r, x - 1)
  }

  // All reports, round by round.
  function FullLog(rounds: seq<Round>): seq<Report>
    requires WellFormed(rounds)
  {
    if rounds == [] then []
    else
      var n := |rounds| - 1;
      FullLog(rounds[..n]) + RoundLog(rounds[..n], rounds[n], ETH_INTF_MAX)
  }

  predicate Ascends(log: seq<Report>, x: nat) {
    && (forall a :: 0 <= a < |log| ==> log[a].intf < x)
    && forall a, b :: 0 <= a < b < |log| ==> log[a].intf < log[b].intf
  }

  // The reports of one round come in the order of the interfaces.
  lemma {:induction false} RoundAscends(history: seq<Round>, r: Round, x: nat)
    requires WellFormed(history) && (r.Poll? ==> |r.samples| == ETH_INTF_MAX) && x <= ETH_INTF_MAX
    ensures Ascends(RoundLog(history, r, x), x)
  {
    if x > 0 {
      RoundAscends(history, r, x - 1);
    }
  }

  // They are the running flags of this round, of every interface that had none before or another
  // one at its last sample.
  lemma {:induction false} RoundReports(history: seq<Round>, r: Round, x: nat, e: Report)
    requires WellFormed(history) && (r.Poll? ==> |r.samples| == ETH_INTF_MAX) && x <= ETH_INTF_MAX
    ensures e in RoundLog(history, r, x) <==>
      && e.intf < x && r.Poll? && r.samples[e.intf] == Present(e.up)
      && var s := Seen(history, e.intf);
      (s == [] || s[|s| - 1] != e.up)
  {
    if x > 0 {
      RoundReports(history, r, x - 1, e);
    }
  }

  // Dedup drops nothing but repeats: neighbours differ, the first and last samples stay, and the
  // result has one entry per change.
  lemma {:induction false} DedupAlternates(s: seq<bool>)
    ensures var d := Dedup(s);
      && (forall k :: 0 <= k < |d| - 1 ==> d[k] != d[k + 1])
      && (s == [] <==> d == [])
      && (s != [] ==> d[0] == s[0] && d[|d| - 1] == s[|s| - 1])
  {
    if |s| > 0 {
      DedupAlternates(s[..|s| - 1]);
    }
  }

  // It is the only alternating sequence whose runs make up s: any alternating d that starts like s
  // and has one more entry than s has changes is Dedup(s).
  function Changes(s: seq<bool>): nat {
    if |s| < 2 then 0 else Changes(s[..|s| - 1]) + if s[|s| - 2] == s[|s| - 1] then 0 else 1
  }

  lemma {:induction false} DedupLength(s: seq<bool>)
    requires s != []
    ensures |Dedup(s)| == Changes(s) + 1
  {
    if |s| > 1 {
      DedupLength(s[..|s| - 1]);
    }
  }

  lemma {:induction false} AlternatingIsUnique(d: seq<bool>, e: seq<bool>)
    requires |d| == |e| && (d != [] ==> d[0] == e[0])
    requires forall k :: 0 <= k < |d| - 1 ==> d[k] != d[k + 1]
    requires forall k :: 0 <= k < |e| - 1 ==> e[k] != e[k + 1]
    ensures d == e
  {
    if |d| > 1 {
      var n := |d| - 1;
      AlternatingIsUnique(d[..n], e[..n]);
      assert d[n - 1] == d[..n][n - 1] == e[..n][n - 1] == e[n - 1];
    }
  }

  lemma DedupIsUnique(s: seq<bool>, d: seq<bool>)
    requires s != [] && |d| == Changes(s) + 1 && d[0] == s[0]
    requires forall k :: 0 <= k < |d| - 1 ==> d[k] != d[k + 1]
    ensures d == Dedup(s)
  {
    DedupAlternates(s);
    DedupLength(s);
    AlternatingIsUnique(d, Dedup(s));
  }

  // ----- The monitor -----

  function Status(seen: seq<bool>): Prev {
    if seen == [] then FirstRun else if seen[|seen| - 1] then WasUp else WasDown
  }

  class Monitor {
    const linkStatuses: array<Prev>
    var log: seq<Report>
    ghost var history: seq<Round>

    // The reports so far are the whole log of the history and, for every interface, its
    // de-duplicated samples.
    ghost predicate Valid()
      reads this, linkStatuses
    {
      && linkStatuses.Length == ETH_INTF_MAX && WellFormed(history)
      && UpTo(log, linkStatuses[..], history, [], 0)
      && log == FullLog(history)
    }

    constructor ()
      ensures Valid() && log == [] && history == [] && fresh(linkStatuses)
    {
      linkStatuses := new Prev[ETH_INTF_MAX](_ => FirstRun);
      log, history := [], [];
    }

    // One turn of the loop in ethsw_thread_main.
    method Turn(r: Round)
      requires Valid() && (r.Poll? ==> |r.samples| == ETH_INTF_MAX)
      modifies this, linkStatuses
      ensures Valid() && history == old(history) + [r]
      ensures r.Idle? ==> log == old(log)
    {
      TurnStep(log, linkStatuses[..], history, r);
      if r.Poll? {
        PollAll(r);
        TurnStep(log, linkStatuses[..], history, r);
      }
      history := history + [r];
    }

    // The loop over interfaces.
    method PollAll(r: Round)
      requires Valid() && r.Poll? && |r.samples| == ETH_INTF_MAX && WellFormed(history + [r])
      modifies this`log, linkStatuses
      ensures UpTo(log, linkStatuses[..], history, history + [r], ETH_INTF_MAX)
      ensures log == FullLog(history) + RoundLog(history, r, ETH_INTF_MAX)
    {
      ghost var next := history + [r];
      var x := 0;
      assert UpTo(log, linkStatuses[..], history, next, 0);
      while x < ETH_INTF_MAX
        invariant x <= ETH_INTF_MAX
        invariant UpTo(log, linkStatuses[..], history, next, x)
        invariant log == FullLog(history) + RoundLog(history, r, x)
      {
        UpToStep(log, linkStatuses[..], history, r, x);
        LogStep(log, history, r, x);
        PollLink(x, r.samples[x]);
        x := x + 1;
      }
    }

    // The body of the loop over interfaces.
    method PollLink(x: nat, s: Sample)
      requires linkStatuses.Length == ETH_INTF_MAX && x < ETH_INTF_MAX
      modifies this`log, linkStatuses
      ensures log == LogAfter(old(log), old(linkStatuses[x]), x, s)
      ensures linkStatuses[..] == old(linkStatuses[..])[x := StatusAfter(old(linkStatuses[x]), s)]
    {
      if s.Missing? {
        return;
      }
      if s.running {
        if linkStatuses[x] != WasUp {
          log := log + [Report(x, true)];
          linkStatuses[x] := WasUp;
        }
      } else if linkStatuses[x] != WasDown {
        log := log + [Report(x, false)];
        linkStatuses[x] := WasDown;
      }
    }
  }

  function StatusAfter(p: Prev, s: Sample): Prev {
    if s.Missing? then p else if s.running then WasUp else WasDown
  }

  function LogAfter(log: seq<Report>, p: Prev, x: nat, s: Sample): seq<Report> {
    if s.Missing? || StatusAfter(p, s) == p then log else log + [Report(x, s.running)]
  }

  // Status and reports of interface y are those of the given history.
  ghost predicate Tracks(log: seq<Report>, p: Prev, rounds: seq<Round>, y: nat)
    requires WellFormed(rounds) && y < ETH_INTF_MAX
  {
    p == Status(Seen(rounds, y)) && Reported(log, y) == Dedup(Seen(rounds, y))
  }

  // Interfaces below x have reported the history `next`, the others the history `prev`.
  ghost predicate UpTo(log: seq<Report>, st: seq<Prev>, prev: seq<Round>, next: seq<Round>, x: nat)
    requires WellFormed(prev) && WellFormed(next)
  {
    && |st| == ETH_INTF_MAX
    && (forall y: nat :: y < ETH_INTF_MAX ==> st[y] == Status(Seen(if y < x then next else prev, y)))
    && (forall y: nat :: y < ETH_INTF_MAX ==> Reported(log, y) == Dedup(Seen(if y < x then next else prev, y)))
    && forall e :: e in log ==> e.intf < ETH_INTF_MAX
  }

  lemma {:induction false} IdleLog(history: seq<Round>, r: Round, x: nat)
    requires WellFormed(history) && r.Idle? && x <= ETH_INTF_MAX
    ensures RoundLog(history, r, x) == []
  {
    if x > 0 {
      IdleLog(history, r, x - 1);
    }
  }

  // The end of a turn.
  lemma TurnStep(log: seq<Report>, st: seq<Prev>, history: seq<Round>, r: Round)
    requires WellFormed(history) && WellFormed(history + [r]) && (r.Poll? ==> |r.samples| == ETH_INTF_MAX)
    ensures FullLog(history + [r]) == FullLog(history) + RoundLog(history, r, ETH_INTF_MAX)
    ensures r.Idle? ==> FullLog(history + [r]) == FullLog(history)
    ensures UpTo(log, st, history, if r.Idle? then [] else history + [r], if r.Idle? then 0 else ETH_INTF_MAX)
            ==> UpTo(log, st, history + [r], [], 0)
  {
    var next := history + [r];
    assert next[..|history|] == history;
    if r.Idle? {
      IdleLog(history, r, ETH_INTF_MAX);
      assert forall x: nat :: x < ETH_INTF_MAX ==> Seen(next, x) == Seen(history, x);
    }
  }

  lemma LogStep(log: seq<Report>, history: seq<Round>, r: Round, x: nat)
    requires WellFormed(history) && r.Poll? && |r.samples| == ETH_INTF_MAX && x < ETH_INTF_MAX
    requires log == FullLog(history) + RoundLog(history, r, x)
    ensures LogAfter(log, Status(Seen(history, x)), x, r.samples[x]) == FullLog(history) + RoundLog(history, r, x + 1)
  {
  }

  lemma UpToStep(log: seq<Report>, st: seq<Prev>, history: seq<Round>, r: Round, x: nat)
    requires WellFormed(history) && WellFormed(history + [r]) && r.Poll? && |r.samples| == ETH_INTF_MAX && x < ETH_INTF_MAX
    requires UpTo(log, st, history, history + [r], x)
    ensures UpTo(LogAfter(log, st[x], x, r.samples[x]), st[x := StatusAfter(st[x], r.samples[x])],
                 history, history + [r], x + 1)
  {
    var log' := LogAfter(log, st[x], x, r.samples[x]);
    var st' := st[x := StatusAfter(st[x], r.samples[x])];
    forall y: nat | y < ETH_INTF_MAX
      ensures Reported(log', y) == Dedup(Seen(if y < x + 1 then history + [r] else history, y))
      ensures Tracks(log', st'[y], if y < x + 1 then history + [r] else history, y)
    {
      assert Tracks(log, st[y], if y < x then history + [r] else history, y);
      if y == x {
        TracksSample(log, st[x], history, r, x);
      } else if log' != log {
        Append(log, x, r.samples[x].running, y);
      }
    }
  }

  // The polled interface.
  lemma TracksSample(log: seq<Report>, p: Prev, history: seq<Round>, r: Round, x: nat)
    requires WellFormed(history) && WellFormed(history + [r]) && r.Poll? && |r.samples| == ETH_INTF_MAX && x < ETH_INTF_MAX
    requires Tracks(log, p, history, x)
    ensures Tracks(LogAfter(log, p, x, r.samples[x]), StatusAfter(p, r.samples[x]), history + [r], x)
  {
    SeenStep(history, r, x);
    var s := Seen(history, x);
    if r.samples[x].Present? {
      DedupStep(s, r.samples[x].running);
      Append(log, x, r.samples[x].running, x);
    }
  }

  lemma DedupStep(s: seq<bool>, up: bool)
    ensures Dedup(s + [up]) == if Status(s) == (if up then WasUp else WasDown) then Dedup(s) else Dedup(s) + [up]
    ensures Status(s + [up]) == if up then WasUp else WasDown
  {
    assert (s + [up])[..|s|] == s;
  }

  lemma SeenStep(history: seq<Round>, r: Round, x: nat)
    requires WellFormed(history) && WellFormed(history + [r]) && (r.Poll? ==> |r.samples| == ETH_INTF_MAX) && x < ETH_INTF_MAX
    ensures Seen(history + [r], x) ==
      if r.Poll? && r.samples[x].Present? then Seen(history, x) + [r.samples[x].running] else Seen(history, x)
  {
    assert (history + [r])[..|history|] == history;
  }

  lemma Append(log: seq<Report>, x: nat, up: bool, y: nat)
    ensures Reported(log + [Report(x, up)], y) == Reported(log, y) + if x == y then [up] else []
  {
  }

  // The whole loop over any poll history: the callbacks come round by round and in interface order,
  // each in the round of its sample.  For each interface they are exactly its samples with
  // consecutive repeats removed, so Up and Down alternate and the first sample is reported; and
  // while no callback is registered nothing is.
  method ThreadMain(rounds: seq<Round>) returns (log: seq<Report>)
    requires WellFormed(rounds)
    ensures log == FullLog(rounds)
    ensures forall x: nat :: x < 10 ==> Reported(log, x) == Dedup(Seen(rounds, x))
    ensures forall e :: e in log ==> e.intf < 10
    ensures (forall k :: 0 <= k < |rounds| ==> rounds[k].Idle?) ==> log == []
  {
    var m := new Monitor();
    var i := 0;
    while i < |rounds|
      invariant i <= |rounds| && m.Valid() && m.history == rounds[..i] && fresh(m) && fresh(m.linkStatuses)
      invariant (forall k :: 0 <= k < i ==> rounds[k].Idle?) ==> m.log == []
    {
      m.Turn(rounds[i]);
      assert rounds[..i] + [rounds[i]] == rounds[..i + 1];
      i := i + 1;
    }
    assert rounds[..i] == rounds;
    return m.log;
  }

  // A longer history never changes reports already made.
  lemma {:induction false} SeenGrows(rounds: seq<Round>, more: seq<Round>, x: nat)
    requires WellFormed(rounds + more) && WellFormed(rounds) && x < ETH_INTF_MAX
    ensures Seen(rounds, x) <= Seen(rounds + more, x)
    ensures Dedup(Seen(rounds, x)) <= Dedup(Seen(rounds + more, x))
  {
    if more == [] {
      assert rounds + more == rounds;
    } else {
      var n := |more| - 1;
      var all, r := rounds + more[..n], more[n];
      assert rounds + more == all + [r];
      assert forall k :: 0 <= k < |all| ==> all[k] == (rounds + more)[k];
      assert (rounds + more)[|all|] == r;
      SeenGrows(rounds, more[..n], x);
      SeenStep(all, r, x);
      if r.Poll? && r.samples[x].Present? {
        DedupStep(Seen(all, x), r.samples[x].running);
      }
    }
  }
}
