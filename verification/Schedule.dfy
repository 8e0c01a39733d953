// The sending schedule: the event loop of src/lifecycle.c under an arbitrary clock.
module Schedule {
  import opened Arith

  /** HPING_STOP_* */
  datatype Reason = Running | Signal | Count | Sent | Traceroute | Eof | Error

  const COUNTREACHED_TIMEOUT: int := 1  // seconds
  const SECOND: int := 1000000          // in microseconds

  /** What does not change during a run; a count of -1 means no limit. */
  datatype Config = Config(interval: int, count: int, receiveOnly: bool, dryRun: bool) {
    predicate Valid() {
      interval >= 0 && (count == -1 || count >= 1)
    }
  }

  datatype State = State(nextSend: int, endDeadline: int, stop: Reason, sent: nat)

  /** What one turn of the loop meets: a pending stop signal, the clock before and after
      sending, whether sending and waiting succeed, the reason to stop that a packet read
      in this turn gives, if any, and a stop signal that ends the sleep of a dry run. */
  datatype Input = Input(
    signal: bool, now: int, sendOk: bool, later: int, waitOk: bool, packet: Reason, woken: bool)

  /** all_probes_sent */
  predicate AllSent(c: Config, sent: nat) {
    c.count != -1 && sent >= c.count
  }

  /** hping_stop: the first reason stays. */
  function Stopped(s: State, r: Reason): State {
    if s.stop == Running then s.(stop := r) else s
  }

  /** send_due_probe after a successful send_packet */
  function Scheduled(c: Config, s: State, now: int): State {
    var sent := s.sent + 1;
    if AllSent(c, sent) then s.(sent := sent, endDeadline := now + COUNTREACHED_TIMEOUT * SECOND)
    else
      var next := s.nextSend + c.interval;
      s.(sent := sent, nextSend := if next < now then now else next)
  }

  /** Whether the turn sends a probe. */
  predicate Sends(c: Config, s: State, i: Input) {
    && s.stop == Running && !i.signal && !(s.endDeadline != -1 && i.now >= s.endDeadline)
    && !c.receiveOnly && !AllSent(c, s.sent) && i.now >= s.nextSend
  }

  /** One turn of main_loop. */
  function Turned(c: Config, s: State, i: Input): State {
    var s1 := if i.signal then Stopped(s, Signal) else s;
    if s1.stop != Running then s1
    else if s1.endDeadline != -1 && i.now >= s1.endDeadline then Stopped(s1, Sent)
    else if Sends(c, s, i) && !i.sendOk then Stopped(s1, Error)
    else
      var s2 := if Sends(c, s, i) then Scheduled(c, s1, i.now) else s1;
      if c.dryRun then if i.woken then Stopped(s2, Signal) else s2
      else if !i.waitOk then Stopped(s2, Error)
      else if i.packet != Running then Stopped(s2, i.packet)
      else s2
  }

  /** How long the turn may sleep: to the next probe, or to the late-reply deadline. */
  function Timeout(c: Config, s: State, later: int): (t: int)
    ensures t >= 0
  {
    var t := if c.receiveOnly then 0 else if AllSent(c, s.sent) then s.endDeadline - later else s.nextSend - later;
    if t < 0 then 0 else t
  }

  class Loop {
    const c: Config
    var nextSend: int
    var endDeadline: int
    var stop: Reason
    var sent: nat

    function Abs(): State
      reads this
    {
      State(nextSend, endDeadline, stop, sent)
    }

    constructor (c: Config, now: int)
      ensures this.c == c && Abs() == State(now, -1, Running, 0)
    {
      this.c := c;
      nextSend, endDeadline, stop, sent := now, -1, Running, 0;
    }

    /** hping_stop */
    method Stop(r: Reason)
      modifies this`stop
      ensures Abs() == Stopped(old(Abs()), r)
    {
      if stop == Running {
        stop := r;
      }
    }

    /** send_due_probe */
    method SendDueProbe(now: int, sendOk: bool) returns (ok: bool)
      modifies this`sent, this`nextSend, this`endDeadline
      ensures ok == sendOk && Abs() == if sendOk then Scheduled(c, old(Abs()), now) else old(Abs())
    {
      if !sendOk {
        return false;
      }
      sent := sent + 1;
      if c.count != -1 && sent >= c.count {
        endDeadline := now + COUNTREACHED_TIMEOUT * SECOND;
        return true;
      }
      nextSend := nextSend + c.interval;
      if nextSend < now {
        nextSend := now;
      }
      return true;
    }

    /** One turn of main_loop; `asked` is the timeout it waits or, in a dry run, sleeps with. */
    method Turn(i: Input) returns (asked: int)
      modifies this
      ensures Abs() == Turned(c, old(Abs()), i)
      ensures c.receiveOnly && stop == Running ==> asked == 0
      ensures stop == Running ==> asked == Timeout(c, Abs(), if Sends(c, old(Abs()), i) then i.later else i.now)
    {
      asked := 0;
      if i.signal {
        Stop(Signal);
      }
      if stop != Running {
        return;
      }
      var now := i.now;
      if endDeadline != -1 && now >= endDeadline {
        Stop(Sent);
        return;
      }
      if !c.receiveOnly && !(c.count != -1 && sent >= c.count) && now >= nextSend {
        var ok := SendDueProbe(now, i.sendOk);
        if !ok {
          Stop(Error);
          return;
        }
        now := i.later;
      }
      if c.receiveOnly {
        asked := 0;
      } else if !(c.count != -1 && sent >= c.count) {
        asked := nextSend - now;
      } else {
        asked := endDeadline - now;
      }
      if asked < 0 {
        asked := 0;
      }
      if c.dryRun {
        if i.woken {
          Stop(Signal);
        }
        return;
      }
      if !i.waitOk {
        Stop(Error);
        return;
      }
      if i.packet != Running {
        Stop(i.packet);
      }
    }
  }

  // --- whole runs ------------------------------------------------------------------------------

  /** The loop so far: its state, and the clock at each probe. */
  datatype World = World(s: State, times: seq<int>, clock: int)

  function Start(now: int): World {
    World(State(now, -1, Running, 0), [], now)
  }

  function Next(c: Config, w: World, i: Input): World {
    World(Turned(c, w.s, i), if Sends(c, w.s, i) && i.sendOk then w.times + [i.now] else w.times, i.later)
  }

  /** The reasons wait_packet stops for. */
  predicate GivenByPacket(r: Reason) {
    r == Running || r == Count || r == Traceroute || r == Eof
  }

  /** The turns of a run under a monotone clock; stalls may be of any length. Turns after
      the stop do no harm, as `FirstReasonStays` shows. */
  ghost predicate IsRun(c: Config, w: World, turns: seq<Input>)
    decreases |turns|
  {
    |turns| == 0 ||
    (GivenByPacket(turns[0].packet) && w.clock <= turns[0].now <= turns[0].later &&
     IsRun(c, Next(c, w, turns[0]), turns[1..]))
  }

  function After(c: Config, w: World, turns: seq<Input>): World
    decreases |turns|
  {
    if |turns| == 0 then w else After(c, Next(c, w, turns[0]), turns[1..])
  }

  /** k intervals. */
  function Intervals(c: Config, k: nat): int {
    k * c.interval
  }

  lemma OneMoreInterval(c: Config, k: nat)
    ensures Intervals(c, k + 1) == Intervals(c, k) + c.interval
  {
    MulDistrib(k, 1, c.interval);
  }

  predicate Spaced(c: Config, t: seq<int>, i: nat, j: nat)
    requires i < j < |t|
  {
    t[i] + Intervals(c, j - 1 - i) <= t[j]
  }

  predicate NotEarly(c: Config, start: int, t: seq<int>, k: nat)
    requires k < |t|
  {
    start + Intervals(c, k) <= t[k]
  }

  predicate LeavesRoom(c: Config, next: int, t: seq<int>, i: nat)
    requires i < |t|
  {
    t[i] + Intervals(c, |t| - 1 - i) <= next
  }

  ghost predicate TimesInv(c: Config, start: int, t: seq<int>) {
    && (forall k | 0 <= k < |t| :: NotEarly(c, start, t, k))
    && (forall i, j | 0 <= i < j < |t| :: Spaced(c, t, i, j))
  }

  ghost predicate NextInv(c: Config, start: int, next: int, t: seq<int>) {
    start + Intervals(c, |t|) <= next && forall i | 0 <= i < |t| :: LeavesRoom(c, next, t, i)
  }

  /** The last probe was sent a second ago. */
  predicate SecondAfterLast(t: seq<int>, clock: int) {
    |t| > 0 && clock >= t[|t| - 1] + 1000000
  }

  ghost predicate Inv(c: Config, start: int, w: World) {
    var n := |w.times|;
    && w.s.sent == n && (c.count != -1 ==> n <= c.count) && TimesInv(c, start, w.times)
    && (AllSent(c, n) ==> n > 0 && w.s.endDeadline == w.times[n - 1] + SECOND)
    && (!AllSent(c, n) ==> w.s.endDeadline == -1 && NextInv(c, start, w.s.nextSend, w.times))
    && (w.s.stop == Sent ==> AllSent(c, n) && SecondAfterLast(w.times, w.clock))
  }

  /** A probe that was due keeps its distance from the others. */
  lemma TimesStay(c: Config, start: int, next: int, t: seq<int>, now: int)
    requires TimesInv(c, start, t) && NextInv(c, start, next, t) && now >= next
    ensures TimesInv(c, start, t + [now])
  {
    hide Intervals;
    var t' := t + [now];
    forall i, j | 0 <= i < j < |t'|
      ensures Spaced(c, t', i, j)
    {
      if j == |t| {
        assert LeavesRoom(c, next, t, i);
      } else {
        assert Spaced(c, t, i, j);
      }
    }
    forall k | 0 <= k < |t'|
      ensures NotEarly(c, start, t', k)
    {
      if k < |t| {
        assert NotEarly(c, start, t, k);
      }
    }
  }

  lemma RoomStays(c: Config, start: int, next: int, t: seq<int>, now: int, next': int)
    requires NextInv(c, start, next, t) && now >= next && next' >= next + c.interval && next' >= now
    ensures NextInv(c, start, next', t + [now])
  {
    OneMoreInterval(c, |t|);
    assert Intervals(c, 0) == 0;
    hide Intervals;
    var t' := t + [now];
    forall i | 0 <= i < |t'|
      ensures LeavesRoom(c, next', t', i)
    {
      if i < |t| {
        assert LeavesRoom(c, next, t, i);
        OneMoreInterval(c, |t| - 1 - i);
      }
    }
  }

  lemma StillAhead(c: Config, s: State, now: int)
    requires !AllSent(c, s.sent + 1)
    ensures Scheduled(c, s, now).nextSend >= s.nextSend + c.interval && Scheduled(c, s, now).nextSend >= now
  {
  }

  lemma SendKeepsInv(c: Config, start: int, w: World, now: int, later: int)
    requires c.Valid() && Inv(c, start, w) && w.s.stop == Running && !AllSent(c, w.s.sent) && now >= w.s.nextSend
    ensures Inv(c, start, World(Scheduled(c, w.s, now), w.times + [now], later))
  {
    hide TimesInv, NextInv;
    var v := Scheduled(c, w.s, now);
    TimesStay(c, start, w.s.nextSend, w.times, now);
    if !AllSent(c, v.sent) {
      StillAhead(c, w.s, now);
      RoomStays(c, start, w.s.nextSend, w.times, now, v.nextSend);
    }
  }

  lemma StopKeepsInv(c: Config, start: int, w: World, r: Reason, clock: int)
    requires Inv(c, start, w) && clock >= w.clock
    requires r == Sent && w.s.stop == Running ==> AllSent(c, |w.times|) && SecondAfterLast(w.times, clock)
    ensures Inv(c, start, World(Stopped(w.s, r), w.times, clock))
  {
    hide TimesInv, NextInv;
  }

  lemma ClockKeepsInv(c: Config, start: int, w: World, clock: int)
    requires Inv(c, start, w) && clock >= w.clock
    ensures Inv(c, start, w.(clock := clock))
  {
    hide TimesInv, NextInv;
  }

  lemma TurnKeepsInv(c: Config, start: int, w: World, i: Input)
    requires c.Valid() && Inv(c, start, w)
    requires w.clock <= i.now <= i.later && GivenByPacket(i.packet)
    ensures Inv(c, start, Next(c, w, i))
  {
    hide TimesInv, NextInv;
    if w.s.stop != Running {
      ClockKeepsInv(c, start, w, i.later);
    } else if i.signal {
      StopKeepsInv(c, start, w, Signal, i.later);
    } else if w.s.endDeadline != -1 && i.now >= w.s.endDeadline {
      StopKeepsInv(c, start, w, Sent, i.later);
    } else if Sends(c, w.s, i) && !i.sendOk {
      StopKeepsInv(c, start, w, Error, i.later);
    } else {
      var v := w.(clock := i.later);
      if Sends(c, w.s, i) {
        v := World(Scheduled(c, w.s, i.now), w.times + [i.now], i.later);
        SendKeepsInv(c, start, w, i.now, i.later);
      } else {
        ClockKeepsInv(c, start, w, i.later);
      }
      hide Inv, Scheduled;
      StopKeepsInv(c, start, v, Signal, i.later);
      StopKeepsInv(c, start, v, Error, i.later);
      StopKeepsInv(c, start, v, i.packet, i.later);
    }
  }

  lemma {:induction false} RunKeepsInv(c: Config, start: int, w: World, turns: seq<Input>)
    requires c.Valid() && Inv(c, start, w) && IsRun(c, w, turns)
    ensures Inv(c, start, After(c, w, turns))
    decreases |turns|
  {
    hide Inv;
    if |turns| > 0 {
      TurnKeepsInv(c, start, w, turns[0]);
      RunKeepsInv(c, start, Next(c, w, turns[0]), turns[1..]);
    }
  }

  lemma StartInv(c: Config, start: int)
    requires c.Valid()
    ensures Inv(c, start, Start(start))
  {
    assert Intervals(c, 0) == 0;
  }

  /** The schedule, over every run and whatever the stalls: probe k is not sent before
      start + k intervals; the (m + 1)-st probe after any one is at least m intervals
      later; and never more than --count are sent. */
  lemma ScheduleIsKept(c: Config, start: int, turns: seq<Input>)
    requires c.Valid() && IsRun(c, Start(start), turns)
    ensures var w := After(c, Start(start), turns); var t := w.times;
            && w.s.sent == |t| && (c.count != -1 ==> |t| <= c.count)
            && (forall k | 0 <= k < |t| :: t[k] >= start + Intervals(c, k))
            && (forall i, j | 0 <= i < j < |t| :: t[j] >= t[i] + Intervals(c, j - 1 - i))
  {
    StartInv(c, start);
    RunKeepsInv(c, start, Start(start), turns);
    hide IsRun, After, Intervals;
    var t := After(c, Start(start), turns).times;
    forall k | 0 <= k < |t|
      ensures t[k] >= start + Intervals(c, k)
    {
      assert NotEarly(c, start, t, k);
    }
    forall i, j | 0 <= i < j < |t|
      ensures t[j] >= t[i] + Intervals(c, j - 1 - i)
    {
      assert Spaced(c, t, i, j);
    }
  }

  /** The loop stops for "all sent" only when the count is reached and a full second was
      left for late replies. */
  lemma RepliesGetASecond(c: Config, start: int, turns: seq<Input>)
    requires c.Valid() && IsRun(c, Start(start), turns)
    ensures var w := After(c, Start(start), turns);
            w.s.stop == Sent ==> |w.times| == c.count && SecondAfterLast(w.times, w.clock)
  {
    StartInv(c, start);
    RunKeepsInv(c, start, Start(start), turns);
    hide IsRun, After, TimesInv, NextInv;
  }

  // --- why it stops --------------------------------------------------------------------------------

  /** A running loop stops in a turn for the first of these reasons: a signal; a deadline for
      late replies that has passed; a probe that cannot be sent; in a dry run a signal that
      ends its sleep; else a wait that fails, or the packet read. */
  lemma WhyItStops(c: Config, w: World, i: Input)
    requires w.s.stop == Running
    ensures var due := !c.receiveOnly && (c.count == -1 || w.s.sent < c.count) && i.now >= w.s.nextSend;
            Next(c, w, i).s.stop ==
            if i.signal then Signal
            else if w.s.endDeadline != -1 && i.now >= w.s.endDeadline then Sent
            else if due && !i.sendOk then Error
            else if c.dryRun && i.woken then Signal
            else if c.dryRun then Running
            else if !i.waitOk then Error
            else i.packet
  {
  }

  // --- when it wakes up --------------------------------------------------------------------------

  /** A turn of a running loop that meets no signal sends a probe exactly when one is due. */
  lemma DueProbeIsSent(c: Config, start: int, turns: seq<Input>, i: Input)
    requires c.Valid() && IsRun(c, Start(start), turns)
    requires After(c, Start(start), turns).s.stop == Running && !i.signal && i.sendOk
    ensures var w := After(c, Start(start), turns);
            Next(c, w, i).times ==
            if !c.receiveOnly && (c.count == -1 || |w.times| < c.count) && i.now >= w.s.nextSend then w.times + [i.now]
            else w.times
  {
    StartInv(c, start);
    RunKeepsInv(c, start, Start(start), turns);
    hide IsRun, After, TimesInv, NextInv;
  }

  lemma IntervalsPositive(c: Config, k: nat)
    requires c.interval >= 0
    ensures Intervals(c, k) >= 0
  {
  }

  /** A deadline once set is not taken for none. */
  lemma DeadlineIsSet(c: Config, start: int, w: World)
    requires c.Valid() && start >= 0 && Inv(c, start, w) && AllSent(c, |w.times|)
    ensures w.s.endDeadline >= SECOND && |w.times| == c.count
  {
    var n := |w.times|;
    assert NotEarly(c, start, w.times, n - 1);
    IntervalsPositive(c, n - 1);
    hide Intervals;
  }

  lemma WakesInTime(c: Config, start: int, v: World, slept: int, j: Input)
    requires c.Valid() && start >= 0 && Inv(c, start, v) && v.s.stop == Running && !c.receiveOnly
    requires !j.signal && j.sendOk && GivenByPacket(j.packet) && j.now >= slept
    ensures j.now >= slept + Timeout(c, v.s, slept) <==>
            Next(c, v, j).times == v.times + [j.now] || Next(c, v, j).s.stop == Sent
    ensures Next(c, v, j).s.stop == Sent ==> |v.times| == c.count
  {
    hide TimesInv, NextInv;
    if AllSent(c, |v.times|) {
      DeadlineIsSet(c, start, v);
    }
  }

  /** A turn sleeps exactly until there is something to do: the next one sends a probe or
      ends the loop for having waited out the replies if the time it asked for has passed,
      and does neither if it was woken before. */
  lemma SleepIsExact(c: Config, start: int, turns: seq<Input>, i: Input, j: Input)
    requires c.Valid() && IsRun(c, Start(start), turns) && start >= 0 && !c.receiveOnly
    requires var w := After(c, Start(start), turns);
             && w.clock <= i.now <= i.later && GivenByPacket(i.packet) && Next(c, w, i).s.stop == Running
             && !j.signal && j.sendOk && GivenByPacket(j.packet) && i.later <= j.now
    ensures var w := After(c, Start(start), turns);
            var v, slept := Next(c, w, i), if Sends(c, w.s, i) then i.later else i.now;
            && (j.now >= slept + Timeout(c, v.s, slept) <==>
                  Next(c, v, j).times == v.times + [j.now] || Next(c, v, j).s.stop == Sent)
            && (Next(c, v, j).s.stop == Sent ==> |v.times| == c.count)
  {
    StartInv(c, start);
    RunKeepsInv(c, start, Start(start), turns);
    hide IsRun, After, Inv, Next, Timeout, Sends;
    var w := After(c, Start(start), turns);
    TurnKeepsInv(c, start, w, i);
    WakesInTime(c, start, Next(c, w, i), if Sends(c, w.s, i) then i.later else i.now, j);
  }

  // --- the first reason ----------------------------------------------------------------------------

  /** A stopped loop sends nothing and keeps its reason, whatever a turn meets: a pending
      signal, a deadline that has passed, a packet that would stop it, an error. */
  lemma StoppedTurn(c: Config, w: World, i: Input)
    requires w.s.stop != Running
    ensures Turned(c, w.s, i) == w.s && Next(c, w, i).times == w.times
  {
  }

  lemma {:induction false} StaysStopped(c: Config, w: World, turns: seq<Input>)
    requires w.s.stop != Running
    ensures After(c, w, turns).s == w.s && After(c, w, turns).times == w.times
    decreases |turns|
  {
    if |turns| > 0 {
      StoppedTurn(c, w, turns[0]);
      StaysStopped(c, Next(c, w, turns[0]), turns[1..]);
    }
  }

  lemma {:induction false} AfterComposes(c: Config, w: World, a: seq<Input>, b: seq<Input>)
    ensures After(c, w, a + b) == After(c, After(c, w, a), b)
    decreases |a|
  {
    if |a| == 0 {
      assert a + b == b;
    } else {
      assert (a + b)[1..] == a[1..] + b;
      AfterComposes(c, Next(c, w, a[0]), a[1..], b);
    }
  }

  /** The first reason stays: after the turns `a` that stopped the loop no turns `b`, not
      even ones that meet another reason, change the reason, a deadline or the probes. */
  lemma FirstReasonStays(c: Config, w: World, a: seq<Input>, b: seq<Input>)
    requires After(c, w, a).s.stop != Running
    ensures var stopped, end := After(c, w, a), After(c, w, a + b);
            end.s == stopped.s && end.times == stopped.times
  {
    AfterComposes(c, w, a, b);
    StaysStopped(c, After(c, w, a), b);
  }

  // --- no drift ------------------------------------------------------------------------------------

  /** Every probe so far was less than an interval late, or just as late. */
  ghost predicate Punctual(c: Config, start: int, t: seq<int>) {
    forall k | 0 <= k < |t| :: t[k] <= start + Intervals(c, k + 1)
  }

  lemma {:induction false} TimesGrow(c: Config, w: World, turns: seq<Input>)
    ensures w.times <= After(c, w, turns).times
    decreases |turns|
  {
    if |turns| > 0 {
      TimesGrow(c, Next(c, w, turns[0]), turns[1..]);
    }
  }

  lemma {:induction false} DriftFreeFrom(c: Config, start: int, w: World, turns: seq<Input>)
    requires c.Valid() && IsRun(c, w, turns) && Punctual(c, start, After(c, w, turns).times)
    requires w.s.sent == |w.times| && (!AllSent(c, |w.times|) ==> w.s.nextSend == start + Intervals(c, |w.times|))
    ensures var v := After(c, w, turns);
            && w.times <= v.times && v.s.sent == |v.times|
            && (!AllSent(c, |v.times|) ==> v.s.nextSend == start + Intervals(c, |v.times|))
    decreases |turns|
  {
    hide Intervals;
    if |turns| > 0 {
      var v := Next(c, w, turns[0]);
      TimesGrow(c, v, turns[1..]);
      OneMoreInterval(c, |w.times|);
      var end := After(c, w, turns).times;
      if |v.times| > |w.times| {
        assert end[|w.times|] == v.times[|w.times|] == turns[0].now;
      }
      DriftFreeFrom(c, start, v, turns[1..]);
    }
  }

  /** Lateness does not add up: as long as no probe is more than an interval late, the
      next one is due at exactly start + k intervals. */
  lemma NoDrift(c: Config, start: int, turns: seq<Input>)
    requires c.Valid() && IsRun(c, Start(start), turns)
    requires Punctual(c, start, After(c, Start(start), turns).times)
    ensures var w := After(c, Start(start), turns);
            !AllSent(c, |w.times|) ==> w.s.nextSend == start + Intervals(c, |w.times|)
  {
    assert Intervals(c, 0) == 0;
    DriftFreeFrom(c, start, Start(start), turns);
  }
}
