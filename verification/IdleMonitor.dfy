/** The idle monitor of a relay: a sleep that is re-armed until the stream has been inactive for
    longer than the deadline.  Instants are counted in nanoseconds, activity in whole seconds. */
module IdleMonitor {
  const SECOND: nat := 1_000_000_000
  const U32: nat := 0x1_0000_0000

  function Seconds(ticks: nat): nat {
    ticks / SECOND
  }

  lemma SecondsOfDifference(a: nat, b: nat)
    requires a <= b
    ensures Seconds(a) <= Seconds(b)
    ensures SECOND * (Seconds(b) - Seconds(a)) < b - a + SECOND
    ensures b - a < SECOND * (Seconds(b) - Seconds(a) + 1)
  {
    assert a == SECOND * Seconds(a) + a % SECOND && b == SECOND * Seconds(b) + b % SECOND;
  }

  // ---- the monitor as a value -----------------------------------------------------------------

  datatype Monitor = Monitor(created: nat, lastActive: nat, deadline: nat, sleep: nat)

  datatype Check = Fired | Rearmed(next: Monitor) | Asleep | Underflow

  function PollAt(m: Monitor, now: nat): Check {
    if now < m.sleep then Asleep
    else if now < m.created || Seconds(now - m.created) < m.lastActive then Underflow
    else if Seconds(now - m.created) - m.lastActive > m.deadline then Fired
    else Rearmed(m.(sleep := now + m.deadline * SECOND))
  }

  function TouchAt(m: Monitor, now: nat): Monitor
    requires m.created <= now
  {
    m.(lastActive := Seconds(now - m.created))
  }

  // ---- runs ------------------------------------------------------------------------------------------

  datatype Event = Activity(at: nat) | Poll(at: nat)

  /** The monitor after some events, with the instant of the last event and of the last activity
      (the creation counts as one). */
  datatype Watch = Watch(monitor: Monitor, now: nat, active: nat, fired: bool, underflow: bool)

  function Start(slept: nat, created: nat, deadline: nat): Watch
    requires slept <= created
  {
    Watch(Monitor(created, 0, Seconds(deadline), slept + deadline), created, created, false, false)
  }

  /** One event; nothing happens any more once the monitor has fired. */
  function Step(w: Watch, e: Event): Watch
    requires w.monitor.created <= e.at
  {
    if w.fired || w.underflow then w
    else
      match e
      case Activity(at) => w.(monitor := TouchAt(w.monitor, at), now := at, active := at)
      case Poll(at) =>
        match PollAt(w.monitor, at)
        case Asleep => w.(now := at)
        case Rearmed(m) => w.(now := at, monitor := m)
        case Fired => w.(now := at, fired := true)
        case Underflow => w.(now := at, underflow := true)
  }

  predicate Ordered(from: nat, es: seq<Event>)
    decreases |es|
  {
    es == [] || (from <= es[0].at && Ordered(es[0].at, es[1..]))
  }

  function Run(w: Watch, es: seq<Event>): Watch
    requires w.monitor.created <= w.now && Ordered(w.now, es)
    decreases |es|
  {
    if es == [] then w
    else if w.fired || w.underflow then w
    else Run(Step(w, es[0]), es[1..])
  }

  /** The sleep never reaches beyond twice the deadline and a second after the last activity, and
      the monitor has fired only if the deadline has passed without any. */
  predicate Inv(w: Watch) {
    var m := w.monitor;
    && m.created <= w.active <= w.now && m.lastActive == Seconds(w.active - m.created)
    && !w.underflow
    && m.sleep < w.active + (2 * m.deadline + 1) * SECOND
    && (w.fired ==> w.now - w.active > m.deadline * SECOND)
  }

  lemma StartInv(slept: nat, created: nat, deadline: nat)
    requires slept <= created
    ensures Inv(Start(slept, created, deadline))
  {
    assert deadline < (Seconds(deadline) + 1) * SECOND;
  }

  lemma StepKeepsInv(w: Watch, e: Event)
    requires Inv(w) && w.now <= e.at
    ensures Inv(Step(w, e)) && Step(w, e).monitor.deadline == w.monitor.deadline
    ensures w.fired || w.underflow || Step(w, e).now == e.at
  {
    hide Seconds;
    var m := w.monitor;
    SecondsOfDifference(w.active - m.created, e.at - m.created);
  }

  lemma {:induction false} RunKeepsInv(w: Watch, es: seq<Event>)
    requires Inv(w) && Ordered(w.now, es)
    ensures Inv(Run(w, es)) && Run(w, es).monitor.deadline == w.monitor.deadline
    decreases |es|
  {
    hide Seconds, Inv, PollAt, Step;
    ClockAfterCreation(w);
    if es != [] && !w.fired && !w.underflow {
      StepKeepsInv(w, es[0]);
      RunKeepsInv(Step(w, es[0]), es[1..]);
    }
  }

  lemma ClockAfterCreation(w: Watch)
    requires Inv(w)
    ensures w.monitor.created <= w.now
  {
  }

  /** In every run of the monitor the subtraction does not underflow; it fires only after
      strictly more than the deadline without activity; and while it has not fired and is polled
      within delay of its sleep, less than twice the deadline, a second and the delay have passed
      since the last activity. */
  lemma EveryRunIsTimely(slept: nat, created: nat, deadline: nat, es: seq<Event>, delay: nat)
    requires slept <= created && Ordered(created, es)
    ensures var w := Run(Start(slept, created, deadline), es);
            var d := Seconds(deadline);
            && !w.underflow
            && (w.fired ==> w.now - w.active > d * SECOND)
            && (!w.fired && w.now <= w.monitor.sleep + delay ==>
                  w.now < w.active + (2 * d + 1) * SECOND + delay)
  {
    hide Seconds;
    StartInv(slept, created, deadline);
    RunKeepsInv(Start(slept, created, deadline), es);
  }

  /** Three polls of an inactive monitor, the first when its sleep is over and each other one a
      deadline or more after the one before: one of them fires. */
  lemma ThirdCheckFires(m: Monitor, active: nat, t1: nat, t2: nat, t3: nat)
    requires m.created <= active <= t1 && m.lastActive == Seconds(active - m.created) && m.deadline >= 1
    requires m.sleep <= t1 && t1 + m.deadline * SECOND <= t2 && t2 + m.deadline * SECOND <= t3
    ensures var c1 := PollAt(m, t1);
            c1.Fired?
            || (c1.Rearmed?
                && var c2 := PollAt(c1.next, t2);
                   c2.Fired? || (c2.Rearmed? && PollAt(c2.next, t3).Fired?))
  {
    hide Seconds;
    SecondsOfDifference(active - m.created, t1 - m.created);
    SecondsOfDifference(active - m.created, t2 - m.created);
    SecondsOfDifference(active - m.created, t3 - m.created);
    var d := m.deadline;
    assert t3 >= active + 2 * d * SECOND;
    ThirdIsLate(d, t3 - active, Seconds(t3 - m.created) - Seconds(active - m.created));
  }

  lemma ThirdIsLate(d: nat, elapsed: nat, idle: nat)
    requires d >= 1 && elapsed >= 2 * d * SECOND && elapsed < SECOND * (idle + 1)
    ensures idle > d
  {
    assert SECOND * (d + 1) <= 2 * d * SECOND;
  }

  // ---- the monitor as an object ----------------------------------------------------------------------

  class TimeoutMonitor {
    const created: nat
    var lastActive: nat
    const deadline: nat
    var sleep: nat
    /** The instant of the last activity, and of the last event. */
    ghost var active: nat
    ghost var clock: nat

    function View(): Monitor
      reads this
    {
      Monitor(created, lastActive, deadline, sleep)
    }

    ghost predicate Valid()
      reads this
    {
      Inv(Watch(View(), clock, active, false, false))
    }

    /** The sleep is armed before the creation is recorded. */
    constructor (slept: nat, now: nat, deadline: nat)
      requires slept <= now && Seconds(deadline) < U32
      ensures Valid() && View() == Start(slept, now, deadline).monitor && active == now && clock == now
    {
      created, lastActive, sleep := now, 0, slept + deadline;
      this.deadline := Seconds(deadline);
      active, clock := now, now;
    }

    /** Whether the monitor fires; the seconds since its creation fit 32 bits. */
    method Poll(now: nat) returns (ready: bool)
      requires Valid() && clock <= now && Seconds(now - created) < U32
      modifies this`sleep, this`clock
      ensures clock == now
      ensures match PollAt(old(View()), now)
              case Asleep => !ready && View() == old(View())
              case Rearmed(m) => !ready && View() == m
              case Fired => ready && View() == old(View())
              case Underflow => false
      ensures !ready ==> Valid()
      ensures ready ==> now - active > deadline * SECOND
    {
      hide Seconds;
      StepKeepsInv(Watch(View(), clock, active, false, false), Event.Poll(now));
      clock := now;
      if now < sleep {
        return false;
      }
      var timeElapsed := Seconds(now - created);
      var inactiveTime: nat := timeElapsed - lastActive;
      if inactiveTime > deadline {
        return true;
      } else {
        sleep := now + deadline * SECOND;
        return false;
      }
    }

    /** What a ready poll of the watched stream does. */
    method Touch(now: nat)
      requires Valid() && clock <= now && Seconds(now - created) < U32
      modifies this`lastActive, this`active, this`clock
      ensures Valid() && View() == TouchAt(old(View()), now) && active == now == clock
    {
      hide Seconds;
      lastActive := Seconds(now - created);
      active, clock := now, now;
    }
  }
}
