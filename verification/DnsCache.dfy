/** The DNS cache loop: entries are stamped with a counter of timer ticks and served while the
    stamp is that of the current or the previous tick.  The timer is twenty times slower after
    two ticks without a query. */
module DnsCache {
  type Name = seq<int>
  type Ip = seq<int>

  const PERIOD: nat := 240
  const SLOWNESS: nat := 20

  // ---- the loop as a state machine ------------------------------------------------------------

  datatype Entry = Entry(ip: Ip, timestamp: nat)

  datatype Timer = Timer(instant: nat, counter: nat, slow: nat)

  datatype Resolver = Resolver(cache: map<Name, Entry>, timer: Timer)

  function Due(t: Timer): nat {
    t.instant + (if t.slow == 0 then PERIOD * SLOWNESS else PERIOD)
  }

  datatype Event = Tick | CacheUpdate(query: Name, ip: Ip) | Query(query: Name)

  /** The answer from the cache, if there is a fresh enough one. */
  datatype Reply = Cached(ip: Ip) | LookUp

  function ReplyTo(r: Resolver, query: Name): Reply {
    if query in r.cache && r.timer.counter - r.cache[query].timestamp < 2 then Cached(r.cache[query].ip) else LookUp
  }

  function Next(r: Resolver, e: Event, now: nat): Resolver {
    var t := r.timer;
    match e
    case Tick => r.(timer := Timer(now, t.counter + 1, if t.slow > 0 then t.slow - 1 else 0))
    case CacheUpdate(query, ip) => r.(cache := r.cache[query := Entry(ip, t.counter)])
    case Query(_) => r.(timer := t.(slow := 2))
  }

  // ---- runs ----------------------------------------------------------------------------------------

  /** When and how an entry came into the cache. */
  datatype Birth = Birth(ip: Ip, at: nat, fast: bool)

  /** The resolver, the last event's instant, the instant the sleep is armed for, and the origin
      of each cache entry. */
  datatype World = World(resolver: Resolver, now: nat, armed: nat, births: map<Name, Birth>)

  /** The sleep is computed anew for every event: a query while the timer is slow makes it due at
      the fast period, or at once when that is over. */
  function Rearm(w: World, e: Event, now: nat): nat {
    var due := Due(Next(w.resolver, e, now).timer);
    if e.Tick? then due
    else if due == Due(w.resolver.timer) then w.armed
    else Least(w.armed, if due < now then now else due)
  }

  function Least(a: nat, b: nat): nat {
    if a < b then a else b
  }

  function Step(w: World, e: Event, now: nat): World {
    World(Next(w.resolver, e, now), now, Rearm(w, e, now),
          if e.CacheUpdate? then w.births[e.query := Birth(e.ip, now, w.resolver.timer.slow > 0)] else w.births)
  }

  /** Ticks happen when the sleep is over, and nothing happens later than delay after that. */
  predicate Prompt(w: World, e: Event, now: nat, delay: nat) {
    w.now <= now <= w.armed + delay && (e.Tick? ==> w.armed <= now)
  }

  predicate PromptRun(w: World, es: seq<(Event, nat)>, delay: nat)
    decreases |es|
  {
    es == [] || (Prompt(w, es[0].0, es[0].1, delay) && PromptRun(Step(w, es[0].0, es[0].1), es[1..], delay))
  }

  function Run(w: World, es: seq<(Event, nat)>): World
    decreases |es|
  {
    if es == [] then w else Run(Step(w, es[0].0, es[0].1), es[1..])
  }

  function Start(now: nat): World {
    World(Resolver(map[], Timer(now, 0, 0)), now, now + PERIOD * SLOWNESS, map[])
  }

  /** How long after its insertion an entry can live to the end of its tick, and of the next. */
  function LifeInTick(b: Birth): nat {
    if b.fast then PERIOD else PERIOD * SLOWNESS
  }

  /** What every run keeps, whatever the timing. */
  ghost predicate Inv(w: World) {
    var r := w.resolver;
    && r.timer.slow <= 2 && r.timer.instant <= w.now && r.cache.Keys == w.births.Keys
    && forall q :: q in r.cache ==>
         r.cache[q].timestamp <= r.timer.counter && r.cache[q].ip == w.births[q].ip && w.births[q].at <= w.now
  }

  /** What runs with prompt ticks keep. */
  ghost predicate Armed(w: World, delay: nat) {
    var r := w.resolver;
    && w.armed <= w.now + PERIOD * SLOWNESS
    && (r.timer.slow > 0 ==> w.armed <= w.now + PERIOD)
    && forall q :: q in r.cache && q in w.births ==> Ages(r.cache[q], w.births[q], r.timer.counter, w.armed, delay)
  }

  predicate Ages(e: Entry, b: Birth, counter: nat, armed: nat, delay: nat) {
    && (e.timestamp == counter ==> armed <= b.at + LifeInTick(b))
    && (e.timestamp + 1 == counter ==> armed <= b.at + LifeInTick(b) + delay + PERIOD * SLOWNESS)
  }

  lemma StepKeepsInv(w: World, e: Event, now: nat)
    requires Inv(w) && w.now <= now
    ensures Inv(Step(w, e, now))
  {
  }

  lemma StepKeepsArmed(w: World, e: Event, now: nat, delay: nat)
    requires Inv(w) && Armed(w, delay) && Prompt(w, e, now, delay)
    ensures Armed(Step(w, e, now), delay)
  {
    var w' := Step(w, e, now);
    forall q | q in w'.resolver.cache && q in w'.births
      ensures Ages(w'.resolver.cache[q], w'.births[q], w'.resolver.timer.counter, w'.armed, delay)
    {
      if !(e.CacheUpdate? && q == e.query) {
        assert Ages(w.resolver.cache[q], w.births[q], w.resolver.timer.counter, w.armed, delay);
      }
    }
  }

  lemma {:induction false} RunKeeps(w: World, es: seq<(Event, nat)>, delay: nat)
    requires Inv(w) && Armed(w, delay) && PromptRun(w, es, delay)
    ensures Inv(Run(w, es)) && Armed(Run(w, es), delay)
    decreases |es|
  {
    hide Inv, Armed, Step;
    if es != [] {
      StepKeepsInv(w, es[0].0, es[0].1);
      StepKeepsArmed(w, es[0].0, es[0].1, delay);
      RunKeeps(Step(w, es[0].0, es[0].1), es[1..], delay);
    }
  }

  predicate Ordered(from: nat, es: seq<(Event, nat)>)
    decreases |es|
  {
    es == [] || (from <= es[0].1 && Ordered(es[0].1, es[1..]))
  }

  /** Whatever the timing, stamps are never ahead of the counter, so that the age of an entry
      does not underflow, slow is at most 2, and a cached answer is at most one tick old. */
  lemma {:induction false} StampsAreNeverAhead(w: World, es: seq<(Event, nat)>)
    requires Inv(w) && Ordered(w.now, es)
    ensures Inv(Run(w, es))
    ensures forall q :: ReplyTo(Run(w, es).resolver, q).Cached? ==>
              q in Run(w, es).births && Run(w, es).births[q].ip == ReplyTo(Run(w, es).resolver, q).ip
              && Run(w, es).resolver.timer.counter <= Run(w, es).resolver.cache[q].timestamp + 1
    decreases |es|
  {
    hide Step;
    if es != [] {
      StepKeepsInv(w, es[0].0, es[0].1);
      NowAfter(w, es[0].0, es[0].1);
      StampsAreNeverAhead(Step(w, es[0].0, es[0].1), es[1..]);
    }
  }

  lemma NowAfter(w: World, e: Event, now: nat)
    ensures Step(w, e, now).now == now
  {
  }

  /** With ticks that are late by at most delay, an answer from the cache was inserted for the same query, in
      this tick or the one before, and at most 40 periods and twice the delay ago; at most 21
      periods if the timer was fast when it was inserted. */
  lemma CacheIsFresh(start: nat, es: seq<(Event, nat)>, delay: nat, query: Name, now: nat)
    requires PromptRun(Start(start), es, delay)
    requires Prompt(Run(Start(start), es), Query(query), now, delay)
    ensures var w := Run(Start(start), es);
            var r := w.resolver;
            && (ReplyTo(r, query).Cached? ==>
                  && query in w.births && w.births[query].ip == ReplyTo(r, query).ip
                  && w.births[query].at <= now <= w.births[query].at + 2 * SLOWNESS * PERIOD + 2 * delay
                  && (w.births[query].fast ==> now <= w.births[query].at + (SLOWNESS + 1) * PERIOD + 2 * delay))
  {
    hide PromptRun;
    RunKeeps(Start(start), es, delay);
    var w := Run(Start(start), es);
    if ReplyTo(w.resolver, query).Cached? {
      assert Ages(w.resolver.cache[query], w.births[query], w.resolver.timer.counter, w.armed, delay);
    }
  }

  /** Both bounds are reached, for every delay. */
  lemma BoundsAreReached(query: Name, ip: Ip, delay: nat)
    ensures var es := [(CacheUpdate(query, ip), 0), (Tick, SLOWNESS * PERIOD + delay)];
            var now := 2 * SLOWNESS * PERIOD + 2 * delay;
            var w := Run(Start(0), es);
            && PromptRun(Start(0), es, delay) && Prompt(w, Query(query), now, delay)
            && ReplyTo(w.resolver, query) == Cached(ip)
            && query in w.births && w.births[query].at == 0
    ensures var at := PERIOD + delay;
            var es := [(Query(query), 0), (Tick, at), (CacheUpdate(query, ip), at), (Tick, at + PERIOD + delay)];
            var now := at + (SLOWNESS + 1) * PERIOD + 2 * delay;
            var w := Run(Start(0), es);
            && PromptRun(Start(0), es, delay) && Prompt(w, Query(query), now, delay)
            && ReplyTo(w.resolver, query) == Cached(ip)
            && query in w.births && w.births[query] == Birth(ip, at, true)
  {
    hide Run, PromptRun;
    RunTwo(Start(0), CacheUpdate(query, ip), 0, Tick, SLOWNESS * PERIOD + delay, delay);
    var at := PERIOD + delay;
    var w := Step(Step(Start(0), Query(query), 0), Tick, at);
    RunTwo(w, CacheUpdate(query, ip), at, Tick, at + PERIOD + delay, delay);
    var es := [(Query(query), 0), (Tick, at), (CacheUpdate(query, ip), at), (Tick, at + PERIOD + delay)];
    RunUnfold(Start(0), es, delay);
    RunUnfold(Step(Start(0), Query(query), 0), es[1..], delay);
    assert es[1..][1..] == [(CacheUpdate(query, ip), at), (Tick, at + PERIOD + delay)];
  }

  lemma RunUnfold(w: World, es: seq<(Event, nat)>, delay: nat)
    requires es != []
    ensures Run(w, es) == Run(Step(w, es[0].0, es[0].1), es[1..])
    ensures PromptRun(w, es, delay)
            <==> Prompt(w, es[0].0, es[0].1, delay) && PromptRun(Step(w, es[0].0, es[0].1), es[1..], delay)
  {
  }

  lemma RunTwo(w: World, e1: Event, t1: nat, e2: Event, t2: nat, delay: nat)
    ensures var w1 := Step(w, e1, t1);
            && Run(w, [(e1, t1), (e2, t2)]) == Step(w1, e2, t2)
            && (PromptRun(w, [(e1, t1), (e2, t2)], delay) <==> Prompt(w, e1, t1, delay) && Prompt(w1, e2, t2, delay))
  {
    hide Step, Prompt, Run, PromptRun;
    var last := [(e2, t2)];
    RunUnfold(w, [(e1, t1), (e2, t2)], delay);
    RunUnfold(Step(w, e1, t1), last, delay);
    assert [(e1, t1), (e2, t2)][1..] == last && last[1..] == [];
    RunNothing(Step(Step(w, e1, t1), e2, t2), delay);
  }

  lemma RunNothing(w: World, delay: nat)
    ensures Run(w, []) == w && PromptRun(w, [], delay)
  {
  }

  /** An entry's origin is the last update for its name, and its stamp the number of ticks up to
      then. */
  lemma {:induction false} EntriesComeFromUpdates(w: World, es: seq<(Event, nat)>, query: Name)
    requires query in Run(w, es).resolver.cache
    ensures var e := Run(w, es).resolver.cache[query];
            || (query in w.resolver.cache && e == w.resolver.cache[query] && NoUpdate(es, query))
            || exists i :: LastUpdate(es, query, e, w.resolver.timer.counter, i)
    decreases |es|
  {
    hide Step;
    if es != [] {
      var w', e := Step(w, es[0].0, es[0].1), Run(w, es).resolver.cache[query];
      EntriesComeFromUpdates(w', es[1..], query);
      StepEntry(w, es[0].0, es[0].1, query);
      if i :| LastUpdate(es[1..], query, e, w'.resolver.timer.counter, i) {
        assert es[i + 1..] == es[1..][i..] && es[..i + 1] == [es[0]] + es[1..][..i];
        TicksCons(es[0], es[1..][..i]);
        assert es[i + 1 + 1..] == es[1..][i + 1..];
        assert LastUpdate(es, query, e, w.resolver.timer.counter, i + 1);
      } else {
        if es[0].0.CacheUpdate? && es[0].0.query == query {
          assert es[0 + 1..] == es[1..] && es[..0] == [];
          assert LastUpdate(es, query, e, w.resolver.timer.counter, 0);
        }
      }
    }
  }

  function Ticks(es: seq<(Event, nat)>): nat
    decreases |es|
  {
    if es == [] then 0 else (if es[0].0.Tick? then 1 else 0) + Ticks(es[1..])
  }

  lemma TicksCons(e: (Event, nat), es: seq<(Event, nat)>)
    ensures Ticks([e] + es) == (if e.0.Tick? then 1 else 0) + Ticks(es)
  {
    assert ([e] + es)[1..] == es;
  }

  predicate NoUpdate(es: seq<(Event, nat)>, query: Name) {
    forall i :: 0 <= i < |es| && es[i].0.CacheUpdate? ==> es[i].0.query != query
  }

  /** Event i is the last update for the query, it carries e's address, and e is stamped with the
      counter of that moment. */
  predicate LastUpdate(es: seq<(Event, nat)>, query: Name, e: Entry, counter: nat, i: int) {
    && 0 <= i < |es| && es[i].0 == CacheUpdate(query, e.ip)
    && e.timestamp == counter + Ticks(es[..i]) && NoUpdate(es[i + 1..], query)
  }

  lemma StepEntry(w: World, e: Event, now: nat, query: Name)
    ensures var w' := Step(w, e, now);
            && w'.resolver.timer.counter == w.resolver.timer.counter + (if e.Tick? then 1 else 0)
            && if e.CacheUpdate? && e.query == query
               then query in w'.resolver.cache && w'.resolver.cache[query] == Entry(e.ip, w.resolver.timer.counter)
               else (query in w'.resolver.cache <==> query in w.resolver.cache)
                    && (query in w.resolver.cache ==> w'.resolver.cache[query] == w.resolver.cache[query])
  {
  }

  /** Event i is the last update for the query, and fewer than two ticks came after it. */
  predicate Answers(es: seq<(Event, nat)>, query: Name, ip: Ip, i: int) {
    0 <= i < |es| && es[i].0 == CacheUpdate(query, ip) && NoUpdate(es[i + 1..], query) && Ticks(es[i + 1..]) < 2
  }

  /** A query is answered from the cache if and only if the last update for its name came after
      the last tick but one, and then with the address of that update. */
  lemma CachedIff(start: nat, es: seq<(Event, nat)>, query: Name, ip: Ip)
    ensures ReplyTo(Run(Start(start), es).resolver, query) == Cached(ip) <==> exists i :: Answers(es, query, ip, i)
  {
    hide Run, Ticks, NoUpdate;
    var w := Start(start);
    CountsTicks(w, es);
    if ReplyTo(Run(w, es).resolver, query) == Cached(ip) {
      EntriesComeFromUpdates(w, es, query);
      var i :| LastUpdate(es, query, Run(w, es).resolver.cache[query], 0, i);
      TicksSplit(es, i);
      assert Answers(es, query, ip, i);
    }
    if i :| Answers(es, query, ip, i) {
      UpdateIsKept(w, es, query, ip, i);
      TicksSplit(es, i);
    }
  }

  lemma {:induction false} CountsTicks(w: World, es: seq<(Event, nat)>)
    ensures Run(w, es).resolver.timer.counter == w.resolver.timer.counter + Ticks(es)
    decreases |es|
  {
    if es != [] {
      CountsTicks(Step(w, es[0].0, es[0].1), es[1..]);
    }
  }

  lemma {:induction false} TicksSplit(es: seq<(Event, nat)>, i: nat)
    requires i < |es|
    ensures Ticks(es) == Ticks(es[..i]) + (if es[i].0.Tick? then 1 else 0) + Ticks(es[i + 1..])
    decreases i
  {
    if i == 0 {
      assert es[..0] == [];
    } else {
      TicksSplit(es[1..], i - 1);
      assert es[..i] == [es[0]] + es[1..][..i - 1] && es[i + 1..] == es[1..][i..];
      TicksCons(es[0], es[1..][..i - 1]);
    }
  }

  lemma {:induction false} UpdateIsKept(w: World, es: seq<(Event, nat)>, query: Name, ip: Ip, i: nat)
    requires i < |es| && es[i].0 == CacheUpdate(query, ip) && NoUpdate(es[i + 1..], query)
    ensures var r := Run(w, es).resolver;
            query in r.cache && r.cache[query] == Entry(ip, w.resolver.timer.counter + Ticks(es[..i]))
    decreases i
  {
    hide Step, Ticks;
    var w' := Step(w, es[0].0, es[0].1);
    StepEntry(w, es[0].0, es[0].1, query);
    if i == 0 {
      assert es[..0] == [] && es[0 + 1..] == es[1..];
      TicksNone();
      EntryIsKept(w', es[1..], query);
    } else {
      assert es[1..][i..] == es[i + 1..] && es[..i] == [es[0]] + es[1..][..i - 1];
      TicksCons(es[0], es[1..][..i - 1]);
      UpdateIsKept(w', es[1..], query, ip, i - 1);
    }
  }

  lemma TicksNone()
    ensures Ticks([]) == 0
  {
  }

  lemma {:induction false} EntryIsKept(w: World, es: seq<(Event, nat)>, query: Name)
    requires query in w.resolver.cache && NoUpdate(es, query)
    ensures query in Run(w, es).resolver.cache && Run(w, es).resolver.cache[query] == w.resolver.cache[query]
    decreases |es|
  {
    hide Step;
    if es != [] {
      StepEntry(w, es[0].0, es[0].1, query);
      EntryIsKept(Step(w, es[0].0, es[0].1), es[1..], query);
    }
  }

  // ---- the loop as an object -----------------------------------------------------------------------

  class DnsResolver {
    var cache: map<Name, (Ip, nat)>
    var instant: nat
    var counter: nat
    var slow: nat

    ghost function View(): Resolver
      reads this
    {
      Resolver(map q | q in cache :: Entry(cache[q].0, cache[q].1), Timer(instant, counter, slow))
    }

    ghost predicate Valid()
      reads this
    {
      slow <= 2 && forall q :: q in cache ==> cache[q].1 <= counter
    }

    constructor (now: nat)
      ensures Valid() && View() == Start(now).resolver
    {
      cache, instant, counter, slow := map[], now, 0, 0;
    }

    /** When the sleep of the next turn is over: a period after the last tick if and only if there
        was a query in the last two, and twenty periods otherwise. */
    method Sleep() returns (until: nat)
      ensures instant + PERIOD <= until <= instant + SLOWNESS * PERIOD
      ensures until == instant + PERIOD <==> slow > 0
      ensures until == instant + SLOWNESS * PERIOD <==> slow == 0
    {
      until := instant + (if slow == 0 then PERIOD * 20 else PERIOD);
    }

    method OnTick(now: nat)
      requires Valid()
      modifies this`instant, this`counter, this`slow
      ensures Valid() && View() == Next(old(View()), Tick, now)
    {
      counter := counter + 1;
      instant := now;
      if slow > 0 {
        slow := slow - 1;
      }
    }

    method OnCacheUpdate(query: Name, ip: Ip, now: nat)
      requires Valid()
      modifies this`cache
      ensures Valid() && View() == Next(old(View()), CacheUpdate(query, ip), now)
    {
      cache := cache[query := (ip, counter)];
    }

    /** LookUp stands for a lookup that will come back as a cache update. */
    method OnQuery(query: Name, now: nat) returns (reply: Reply)
      requires Valid()
      modifies this`slow
      ensures Valid() && View() == Next(old(View()), Query(query), now)
      ensures reply == ReplyTo(old(View()), query)
    {
      slow := 2;
      if query in cache {
        var (ip, timestamp) := cache[query];
        var age: nat := counter - timestamp;
        if age < 2 {
          return Cached(ip);
        }
      }
      return LookUp;
    }
  }
}
