// The port scanner of src/scan.c: rounds of probes, interleaved with replies.
module Scanner {
  const PROBES: nat := 8        // opt_scan_probes
  const SECOND: int := 1000000  // in microseconds

  /** struct portinfo: `retry` is the number of probes left. */
  datatype Port = Port(active: bool, retry: int)

  /** struct scan_state; `pauseUntil` is -1 when no pause is pending. */
  datatype State = State(
    pi: seq<Port>, round: int, nextPort: nat, probed: nat, interval: int, start: int, nextSend: int, pauseUntil: int,
    finishing: bool)

  datatype Outcome = Wait | Probe(port: nat) | Complete

  // --- what the steps compute ---------------------------------------------------------------

  /** scan_setup: the ports selected have all their probes left, the others none. */
  function Setup(selected: seq<bool>, interval: int, start: int): (s: State)
    ensures |s.pi| == |selected|
  {
    State(seq(|selected|, i requires 0 <= i < |selected| => Port(selected[i], if selected[i] then PROBES else 0)),
          1, 0, 0, interval, start, start, -1, false)
  }

  predicate Due(p: Port) {
    p.active && p.retry != 0
  }

  /** The first port from n on that is to be probed. */
  function FirstDue(pi: seq<Port>, n: nat): (p: nat)
    requires n <= |pi|
    ensures n <= p <= |pi| && (p < |pi| ==> Due(pi[p]))
    ensures forall i | n <= i < p :: !Due(pi[i])
    decreases |pi| - n
  {
    if n < |pi| && !Due(pi[n]) then FirstDue(pi, n + 1) else n
  }

  /** Some port answered before its probes ran out. */
  predicate SomeAnswered(pi: seq<Port>) {
    exists i :: 0 <= i < |pi| && !pi[i].active && pi[i].retry != 0
  }

  /** scan_round_done. `rtt` is the average round trip in microseconds, 0 if none. */
  function RoundDone(s: State, now: int, rtt: int): (r: (Outcome, State)) {
    var received := SomeAnswered(s.pi);
    if s.probed == 0 then
      if !received && !s.finishing then (Wait, s.(finishing := true, pauseUntil := now + SECOND)) else (Complete, s)
    else
      var pause := if s.round >= 3 then now + (if rtt != 0 then rtt else SECOND) else s.pauseUntil;
      var slow := (!received && s.interval == 0 && now - s.start > 500000) || PROBES - s.round <= 2;
      (Wait, s.(pauseUntil := pause, interval := if slow then s.interval * 10 + 1 else s.interval, round := s.round + 1,
                nextPort := 0, probed := 0))
  }

  /** scan_step */
  function Stepped(s: State, now: int, rtt: int): (r: (Outcome, State))
    requires s.nextPort <= |s.pi|
  {
    if s.pauseUntil != -1 && now < s.pauseUntil then (Wait, s)
    else if s.pauseUntil != -1 && s.finishing then (Complete, s.(pauseUntil := -1))
    else
      var s' := s.(pauseUntil := -1);
      if now < s.nextSend then (Wait, s')
      else
        var p := FirstDue(s.pi, s.nextPort);
        if p == |s.pi| then RoundDone(s'.(nextPort := p), now, rtt)
        else (Probe(p), s'.(pi := s.pi[p := s.pi[p].(retry := s.pi[p].retry - 1)], nextPort := p + 1,
                            probed := s.probed + 1, nextSend := now + s.interval))
  }

  /** The table update of scan_process_packet; a port that is not active is left alone. */
  function Replied(s: State, port: nat): State
    requires port < |s.pi|
  {
    s.(pi := s.pi[port := s.pi[port].(active := false)])
  }

  /** scan_finish_report */
  predicate Reported(s: State, port: nat)
    requires port < |s.pi|
  {
    s.pi[port].active && s.pi[port].retry == 0
  }

  // --- the scanner object ---------------------------------------------------------------------

  class Scan {
    const pi: array<Port>
    var round: int
    var nextPort: nat
    var probed: nat
    var interval: int
    var start: int
    var nextSend: int
    var pauseUntil: int
    var finishing: bool

    function Abs(): State
      reads this, pi
    {
      State(pi[..], round, nextPort, probed, interval, start, nextSend, pauseUntil, finishing)
    }

    /** scan_setup, and the times scan_run starts with. */
    constructor (selected: seq<bool>, interval: int, now: int)
      ensures Abs() == Setup(selected, interval, now) && fresh(pi)
    {
      pi := new Port[|selected|](i requires 0 <= i < |selected| => Port(selected[i], PROBES));
      round, nextPort, probed, this.interval := 1, 0, 0, interval;
      start, nextSend, pauseUntil, finishing := now, now, -1, false;
      new;
      var i := 0;
      while i < pi.Length
        invariant 0 <= i <= pi.Length
        invariant forall j | 0 <= j < pi.Length ::
                    pi[j] == Port(selected[j], if j < i && !selected[j] then 0 else PROBES)
        modifies pi
      {
        if !pi[i].active {
          pi[i] := pi[i].(retry := 0);
        }
        i := i + 1;
      }
      assert pi[..] == Setup(selected, interval, now).pi;
    }

    /** scan_round_done */
    method RoundDoneStep(now: int, rtt: int) returns (r: Outcome)
      modifies this
      ensures (r, Abs()) == RoundDone(old(Abs()), now, rtt)
    {
      var i, recvd := 0, 0;
      while i < pi.Length
        invariant 0 <= i <= pi.Length && recvd >= 0
        invariant recvd > 0 <==> exists j :: 0 <= j < i && !pi[j].active && pi[j].retry != 0
      {
        if !pi[i].active && pi[i].retry != 0 {
          recvd := recvd + 1;
        }
        i := i + 1;
      }
      assert recvd > 0 <==> SomeAnswered(pi[..]) by {
        if recvd > 0 {
          var j :| 0 <= j < i && !pi[j].active && pi[j].retry != 0;
          assert pi[..][j] == pi[j];
        }
      }
      if probed == 0 {
        if recvd == 0 && !finishing {
          finishing := true;
          pauseUntil := now + SECOND;
          return Wait;
        }
        return Complete;
      }
      if round >= 3 {
        pauseUntil := now + if rtt != 0 then rtt else SECOND;
      }
      if (recvd == 0 && interval == 0 && now - start > 500000) || PROBES - round <= 2 {
        interval := interval * 10 + 1;
      }
      round := round + 1;
      nextPort := 0;
      probed := 0;
      return Wait;
    }

    /** scan_step; the probe itself is sent outside. */
    method Step(now: int, rtt: int) returns (r: Outcome)
      requires nextPort <= pi.Length
      modifies this, pi
      ensures (r, Abs()) == Stepped(old(Abs()), now, rtt)
    {
      if pauseUntil != -1 {
        if now < pauseUntil {
          return Wait;
        }
        pauseUntil := -1;
        if finishing {
          return Complete;
        }
      }
      if now < nextSend {
        return Wait;
      }
      while nextPort < pi.Length
        invariant nextPort <= pi.Length
        invariant FirstDue(old(pi[..]), old(nextPort)) == FirstDue(old(pi[..]), nextPort)
        invariant pi[..] == old(pi[..]) && Abs() == old(Abs()).(pauseUntil := -1, nextPort := nextPort)
        decreases pi.Length - nextPort
      {
        var port := nextPort;
        nextPort := nextPort + 1;
        if pi[port].active && pi[port].retry != 0 {
          pi[port] := pi[port].(retry := pi[port].retry - 1);
          probed := probed + 1;
          nextSend := now + interval;
          return Probe(port);
        }
      }
      r := RoundDoneStep(now, rtt);
    }

    /** scan_process_packet, once the frame is known to answer a probe of `port`. */
    method Reply(port: nat) returns (updated: bool)
      requires port < pi.Length
      modifies pi
      ensures updated == old(pi[port].active) && Abs() == Replied(old(Abs()), port)
    {
      updated := pi[port].active;
      if updated {
        pi[port] := pi[port].(active := false);
      }
      assert pi[..] == Replied(old(Abs()), port).pi;
    }

    /** scan_finish_report */
    method Report() returns (ports: seq<nat>)
      ensures forall i :: i in ports <==> 0 <= i < pi.Length && Reported(Abs(), i)
      ensures forall i, j | 0 <= i < j < |ports| :: ports[i] < ports[j]
    {
      ports := [];
      var i := 0;
      while i < pi.Length
        invariant 0 <= i <= pi.Length
        invariant forall p :: p in ports <==> 0 <= p < i && Reported(Abs(), p)
        invariant forall a, b | 0 <= a < b < |ports| :: ports[a] < ports[b]
      {
        if pi[i].active && pi[i].retry == 0 {
          assert forall a | 0 <= a < |ports| :: ports[a] in ports;
          ports := ports + [i];
        }
        i := i + 1;
      }
    }
  }

  // --- runs: steps at any time, replies at any time ---------------------------------------------

  /** The scan so far: how often each port was probed, which ports answered, and whether
      the scan is complete. */
  datatype World = World(s: State, sent: seq<nat>, answered: set<nat>, done: bool)

  datatype Event = Tick(now: int, rtt: int) | Answer(port: nat)

  function Start(selected: seq<bool>, interval: int, now: int): World {
    World(Setup(selected, interval, now), seq(|selected|, i => 0), {}, false)
  }

  predicate Enabled(w: World, e: Event) {
    !w.done && w.s.nextPort <= |w.s.pi| == |w.sent| && (e.Answer? ==> e.port < |w.s.pi|)
  }

  function Next(w: World, e: Event): World
    requires Enabled(w, e)
  {
    match e
    case Tick(now, rtt) =>
      var (r, s) := Stepped(w.s, now, rtt);
      w.(s := s, sent := if r.Probe? then w.sent[r.port := w.sent[r.port] + 1] else w.sent, done := r == Complete)
    case Answer(port) => w.(s := Replied(w.s, port), answered := w.answered + {port})
  }

  /** Probes left to an active port in the round, before and after its turn. */
  function Left(round: int, visited: bool): int {
    var n := PROBES + 1 - round - if visited then 1 else 0;
    if n < 0 then 0 else n
  }

  ghost predicate PortInv(selected: seq<bool>, w: World, i: nat)
    requires i < |selected| == |w.s.pi| == |w.sent|
  {
    var p := w.s.pi[i];
    && (p.active <==> selected[i] && i !in w.answered)
    && p.retry >= 0 && w.sent[i] + p.retry == (if selected[i] then PROBES else 0)
    && (p.active ==> p.retry == Left(w.s.round, i < w.s.nextPort))
    && (p.active && i < w.s.nextPort && w.s.probed == 0 ==> w.s.round == 9)
  }

  ghost predicate Inv(selected: seq<bool>, w: World) {
    var s := w.s;
    && |s.pi| == |selected| == |w.sent| && s.nextPort <= |s.pi| && 1 <= s.round <= 9
    && (forall i | 0 <= i < |selected| :: PortInv(selected, w, i))
    && (s.probed > 0 ==> s.round <= 8)
    && (s.finishing || w.done ==> s.probed == 0 && s.nextPort == |s.pi|)
  }

  lemma StartInv(selected: seq<bool>, interval: int, now: int)
    ensures Inv(selected, Start(selected, interval, now))
  {
  }

  lemma AnswerKeepsInv(selected: seq<bool>, w: World, port: nat)
    requires Inv(selected, w) && Enabled(w, Answer(port))
    ensures Inv(selected, Next(w, Answer(port)))
  {
    var v := Next(w, Answer(port));
    forall i | 0 <= i < |selected|
      ensures PortInv(selected, v, i)
    {
      assert PortInv(selected, w, i);
    }
  }

  /** Going on to port p past ports that are not due. */
  lemma VisitKeepsInv(selected: seq<bool>, w: World, p: nat)
    requires Inv(selected, w) && w.s.nextPort <= p <= |w.s.pi|
    requires forall i | w.s.nextPort <= i < p :: !Due(w.s.pi[i])
    ensures Inv(selected, w.(s := w.s.(nextPort := p)))
  {
    var v := w.(s := w.s.(nextPort := p));
    forall i | 0 <= i < |selected|
      ensures PortInv(selected, v, i)
    {
      assert PortInv(selected, w, i);
    }
  }

  lemma ProbeKeepsInv(selected: seq<bool>, w: World, v: World)
    requires Inv(selected, w) && w.s.nextPort < |w.s.pi| && Due(w.s.pi[w.s.nextPort])
    requires var p := w.s.nextPort; var pi := w.s.pi;
             && v.s == w.s.(pi := pi[p := pi[p].(retry := pi[p].retry - 1)], nextPort := p + 1,
                            probed := w.s.probed + 1, nextSend := v.s.nextSend)
             && v == w.(s := v.s, sent := w.sent[p := w.sent[p] + 1])
    requires !w.done
    ensures Inv(selected, v)
  {
    assert PortInv(selected, w, w.s.nextPort);
    forall i | 0 <= i < |selected|
      ensures PortInv(selected, v, i)
    {
      assert PortInv(selected, w, i);
    }
  }

  lemma RoundKeepsInv(selected: seq<bool>, w: World, now: int, rtt: int)
    requires Inv(selected, w) && w.s.nextPort == |w.s.pi| && !w.done
    ensures var (r, s) := RoundDone(w.s, now, rtt); Inv(selected, w.(s := s, done := r == Complete))
  {
    var (r, s) := RoundDone(w.s, now, rtt);
    var v := w.(s := s, done := r == Complete);
    forall i | 0 <= i < |selected|
      ensures PortInv(selected, v, i)
    {
      assert PortInv(selected, w, i);
    }
  }

  lemma TimesDoNotMatter(selected: seq<bool>, w: World, v: World)
    requires Inv(selected, w) && v == w.(s := v.s) && v.s == w.s.(pauseUntil := v.s.pauseUntil)
    ensures Inv(selected, v)
  {
    forall i | 0 <= i < |selected|
      ensures PortInv(selected, v, i)
    {
      assert PortInv(selected, w, i);
    }
  }

  lemma Stopped(selected: seq<bool>, w: World, v: World)
    requires Inv(selected, w) && v.s == w.s.(pauseUntil := v.s.pauseUntil)
    requires v == w.(s := v.s, done := v.done) && (v.done ==> w.done || w.s.finishing)
    ensures Inv(selected, v)
  {
    TimesDoNotMatter(selected, w, w.(s := v.s));
    forall i | 0 <= i < |selected|
      ensures PortInv(selected, v, i)
    {
      assert PortInv(selected, w, i);
    }
  }

  lemma TickKeepsInv(selected: seq<bool>, w: World, now: int, rtt: int)
    requires Inv(selected, w) && Enabled(w, Tick(now, rtt))
    ensures Inv(selected, Next(w, Tick(now, rtt)))
  {
    var s := w.s;
    var v := Next(w, Tick(now, rtt));
    var w' := w.(s := s.(pauseUntil := -1));
    TimesDoNotMatter(selected, w, w');
    if s.pauseUntil != -1 && (now < s.pauseUntil || s.finishing) {
      Stopped(selected, w, v);
    } else if now >= s.nextSend {
      var p := FirstDue(s.pi, s.nextPort);
      VisitKeepsInv(selected, w', p);
      var u := w'.(s := w'.s.(nextPort := p));
      if p == |s.pi| {
        RoundKeepsInv(selected, u, now, rtt);
      } else {
        ProbeKeepsInv(selected, u, v);
      }
    }
  }

  ghost predicate IsRun(w: World, es: seq<Event>)
    decreases |es|
  {
    |es| == 0 || (Enabled(w, es[0]) && IsRun(Next(w, es[0]), es[1..]))
  }

  function After(w: World, es: seq<Event>): World
    requires IsRun(w, es)
    decreases |es|
  {
    if |es| == 0 then w else After(Next(w, es[0]), es[1..])
  }

  lemma {:induction false} RunKeepsInv(selected: seq<bool>, w: World, es: seq<Event>)
    requires Inv(selected, w) && IsRun(w, es)
    ensures Inv(selected, After(w, es))
    decreases |es|
  {
    hide Inv, Next;
    if |es| > 0 {
      var e := es[0];
      if e.Tick? {
        TickKeepsInv(selected, w, e.now, e.rtt);
      } else {
        AnswerKeepsInv(selected, w, e.port);
      }
      RunKeepsInv(selected, Next(w, e), es[1..]);
    }
  }

  /** No port is probed more than eight times, none that was not selected; the active
      ports are probed evenly, once a round. */
  lemma ProbesAreFair(selected: seq<bool>, interval: int, now: int, es: seq<Event>, i: nat)
    requires IsRun(Start(selected, interval, now), es) && i < |selected|
    ensures var w := After(Start(selected, interval, now), es);
            && |w.sent| == |w.s.pi| == |selected| && w.sent[i] <= PROBES && (!selected[i] ==> w.sent[i] == 0)
            && (selected[i] && i !in w.answered && w.s.round <= 8 ==>
                  w.sent[i] == if i < w.s.nextPort then w.s.round else w.s.round - 1)
  {
    StartInv(selected, interval, now);
    RunKeepsInv(selected, Start(selected, interval, now), es);
    assert PortInv(selected, After(Start(selected, interval, now), es), i);
  }

  /** The port probed next, if any, was selected, has not answered, and has a probe left. */
  lemma NoProbeAfterAnswer(selected: seq<bool>, interval: int, now: int, es: seq<Event>, t: int, rtt: int)
    requires IsRun(Start(selected, interval, now), es)
    requires var w := After(Start(selected, interval, now), es);
             Enabled(w, Tick(t, rtt)) && Stepped(w.s, t, rtt).0.Probe?
    ensures var w := After(Start(selected, interval, now), es); var p := Stepped(w.s, t, rtt).0.port;
            p < |selected| == |w.sent| && selected[p] && p !in w.answered && w.sent[p] < PROBES
  {
    StartInv(selected, interval, now);
    RunKeepsInv(selected, Start(selected, interval, now), es);
    var w := After(Start(selected, interval, now), es);
    assert PortInv(selected, w, Stepped(w.s, t, rtt).0.port);
  }

  /** When the scan is complete the report lists exactly the selected ports that never
      answered, and each of them was probed eight times. */
  lemma ReportIsExact(selected: seq<bool>, interval: int, now: int, es: seq<Event>, i: nat)
    requires IsRun(Start(selected, interval, now), es) && After(Start(selected, interval, now), es).done
    requires i < |selected|
    ensures var w := After(Start(selected, interval, now), es);
            && |w.s.pi| == |w.sent| == |selected|
            && (Reported(w.s, i) <==> selected[i] && i !in w.answered)
            && (Reported(w.s, i) ==> w.sent[i] == PROBES)
  {
    StartInv(selected, interval, now);
    RunKeepsInv(selected, Start(selected, interval, now), es);
    assert PortInv(selected, After(Start(selected, interval, now), es), i);
  }

  // --- the scan ends -----------------------------------------------------------------------------------

  /** The deadline of the step has come. */
  predicate IsDue(s: State, now: int) {
    && (s.pauseUntil == -1 || now >= s.pauseUntil)
    && (now >= s.nextSend || (s.finishing && s.pauseUntil != -1))
  }

  /** How many due steps are left at most, but for the last. */
  function Rank(s: State): int {
    if s.finishing then 0 else 1 + (9 - s.round) * (|s.pi| + 2) + (|s.pi| + 1 - s.nextPort)
  }

  /** A due step completes the scan or brings it nearer to its end. */
  lemma DueStepsCount(selected: seq<bool>, w: World, now: int, rtt: int)
    requires Inv(selected, w) && Enabled(w, Tick(now, rtt)) && IsDue(w.s, now)
    ensures var v := Next(w, Tick(now, rtt)); v.done || 0 <= Rank(v.s) < Rank(w.s)
  {
    hide SomeAnswered, PortInv;
    var s := w.s;
    var n := |s.pi| + 2;
    assert (9 - s.round) * n == (9 - (s.round + 1)) * n + n;
    assert (9 - s.round) * n >= 0;
    if s.round <= 8 {
      assert (9 - (s.round + 1)) * n >= 0;
    }
  }

  lemma OtherEventsKeepRank(w: World, e: Event)
    requires Enabled(w, e) && (e.Tick? ==> !IsDue(w.s, e.now))
    ensures Rank(Next(w, e).s) == Rank(w.s) && !Next(w, e).done
  {
  }

  /** The due steps of a run. */
  function DueSteps(w: World, es: seq<Event>): nat
    requires IsRun(w, es)
    decreases |es|
  {
    if |es| == 0 then 0
    else (if es[0].Tick? && IsDue(w.s, es[0].now) then 1 else 0) + DueSteps(Next(w, es[0]), es[1..])
  }

  lemma RankIsNat(selected: seq<bool>, w: World)
    requires Inv(selected, w)
    ensures Rank(w.s) >= 0
  {
    assert (9 - w.s.round) * (|w.s.pi| + 2) >= 0;
  }

  lemma NothingAfterDone(w: World, es: seq<Event>)
    requires IsRun(w, es) && w.done
    ensures es == []
  {
  }

  lemma {:induction false} RankBoundsSteps(selected: seq<bool>, w: World, es: seq<Event>)
    requires Inv(selected, w) && IsRun(w, es)
    ensures Rank(w.s) >= 0 && DueSteps(w, es) <= Rank(w.s) + 1
    ensures !After(w, es).done ==> DueSteps(w, es) + Rank(After(w, es).s) <= Rank(w.s)
    decreases |es|
  {
    RankIsNat(selected, w);
    hide Inv, Next, Rank, IsDue;
    if |es| > 0 {
      var e := es[0];
      var v := Next(w, e);
      if e.Tick? {
        TickKeepsInv(selected, w, e.now, e.rtt);
      } else {
        AnswerKeepsInv(selected, w, e.port);
      }
      if e.Tick? && IsDue(w.s, e.now) {
        DueStepsCount(selected, w, e.now, e.rtt);
      } else {
        OtherEventsKeepRank(w, e);
      }
      RankBoundsSteps(selected, v, es[1..]);
      if v.done {
        NothingAfterDone(v, es[1..]);
      }
    }
  }

  /** Every scan ends: whatever replies come in between, it takes at most as many due
      steps as eight rounds over all the ports and their ends. */
  lemma ScanEnds(selected: seq<bool>, interval: int, now: int, es: seq<Event>)
    requires IsRun(Start(selected, interval, now), es)
    ensures DueSteps(Start(selected, interval, now), es) <= 9 * (|selected| + 2) + 1
  {
    StartInv(selected, interval, now);
    RankBoundsSteps(selected, Start(selected, interval, now), es);
  }

  // --- the pace --------------------------------------------------------------------------------------------

  lemma StepKeepsPace(w: World, e: Event)
    requires Enabled(w, e) && w.s.interval >= 0
    ensures Next(w, e).s.interval >= w.s.interval && Next(w, e).s.nextSend >= w.s.nextSend
  {
  }

  lemma {:induction false} RunKeepsPace(w: World, es: seq<Event>)
    requires IsRun(w, es) && w.s.interval >= 0
    ensures After(w, es).s.interval >= w.s.interval && After(w, es).s.nextSend >= w.s.nextSend
    decreases |es|
  {
    hide Next;
    if |es| > 0 {
      StepKeepsPace(w, es[0]);
      RunKeepsPace(Next(w, es[0]), es[1..]);
    }
  }

  /** Whatever happens between two probes, the second is at least an interval after the
      first and outside a pause, and the interval never shrinks. */
  lemma ProbesAreSpaced(w: World, t: int, rtt: int, es: seq<Event>, t': int, rtt': int)
    requires Enabled(w, Tick(t, rtt)) && Stepped(w.s, t, rtt).0.Probe? && w.s.interval >= 0
    requires IsRun(Next(w, Tick(t, rtt)), es)
    requires var v := After(Next(w, Tick(t, rtt)), es); Enabled(v, Tick(t', rtt')) && Stepped(v.s, t', rtt').0.Probe?
    ensures var v := After(Next(w, Tick(t, rtt)), es);
            t' >= t + w.s.interval && v.s.interval >= w.s.interval && (v.s.pauseUntil == -1 || t' >= v.s.pauseUntil)
  {
    RunKeepsPace(Next(w, Tick(t, rtt)), es);
  }

  // --- what a step does, in numbers -------------------------------------------------------------------------

  /** A step does nothing before the pause and the deadline are over. */
  lemma StepWaits(s: State, now: int, rtt: int)
    requires s.nextPort <= |s.pi|
    requires (s.pauseUntil != -1 && now < s.pauseUntil) || (now < s.nextSend && !s.finishing)
    ensures var (r, t) := Stepped(s, now, rtt); r == Wait && t == s.(pauseUntil := t.pauseUntil)
    ensures s.pauseUntil != -1 && now < s.pauseUntil ==> Stepped(s, now, rtt).1 == s
  {
  }

  /** Neither the pause nor the deadline is in the way. */
  predicate MayAct(s: State, now: int) {
    (s.pauseUntil == -1 || (now >= s.pauseUntil && !s.finishing)) && now >= s.nextSend
  }

  /** It probes the first port that was selected, did not answer and has a probe left. */
  lemma StepProbes(s: State, now: int, rtt: int, p: nat)
    requires MayAct(s, now) && s.nextPort <= p < |s.pi| && s.pi[p].active && s.pi[p].retry != 0
    requires forall i | s.nextPort <= i < p :: !(s.pi[i].active && s.pi[i].retry != 0)
    ensures Stepped(s, now, rtt) ==
            (Probe(p), s.(pi := s.pi[p := Port(true, s.pi[p].retry - 1)], nextPort := p + 1, probed := s.probed + 1,
                          nextSend := now + s.interval, pauseUntil := -1))
  {
    assert FirstDue(s.pi, s.nextPort) == p;
  }

  /** No port is left in the round. */
  predicate RoundOver(s: State, now: int) {
    && MayAct(s, now) && s.nextPort <= |s.pi|
    && forall i | s.nextPort <= i < |s.pi| :: !(s.pi[i].active && s.pi[i].retry != 0)
  }

  predicate NoneAnswered(s: State) {
    forall i | 0 <= i < |s.pi| :: s.pi[i].active || s.pi[i].retry == 0
  }

  /** A round with probes is followed by the next: from the third on after a pause of one
      round trip, or of one second when there is none; and slower after the sixth, or when
      half a second went by at full speed without an answer. */
  lemma RoundFollows(s: State, now: int, rtt: int)
    requires RoundOver(s, now) && s.probed > 0
    ensures var (r, t) := Stepped(s, now, rtt);
            && r == Wait
            && t.pauseUntil == (if s.round < 3 then -1 else if rtt == 0 then now + 1000000 else now + rtt)
            && t.interval == (if s.round >= 6 || (NoneAnswered(s) && s.interval == 0 && now - s.start > 500000)
                              then 10 * s.interval + 1 else s.interval)
            && t == s.(round := s.round + 1, nextPort := 0, probed := 0, pauseUntil := t.pauseUntil,
                       interval := t.interval)
  {
    assert FirstDue(s.pi, s.nextPort) == |s.pi|;
  }

  /** A round without probes ends the scan; but if no port answered with probes left, late
      replies get one more second: steps do nothing before it is over, and the first one
      after it ends the scan, whatever answers come in meanwhile. */
  lemma LastSecond(s: State, now: int, rtt: int, pi: seq<Port>, later: int, rtt': int)
    requires RoundOver(s, now) && s.probed == 0 && now >= 0 && |pi| == |s.pi|
    ensures var (r, t) := Stepped(s, now, rtt);
            if s.finishing || !NoneAnswered(s) then r == Complete
            else
              && r == Wait && t.pi == s.pi && t.nextPort <= |pi|
              && (later < now + 1000000 ==> Stepped(t.(pi := pi), later, rtt') == (Wait, t.(pi := pi)))
              && (later >= now + 1000000 ==> Stepped(t.(pi := pi), later, rtt').0 == Complete)
  {
    assert FirstDue(s.pi, s.nextPort) == |s.pi|;
  }
}
