/**
 The crash-loop breaker. Class CrashDetector follows the source; a Guard is what
 it remembers about one server, and the bounds are proved over runs of a Guard.
 Times are nanoseconds; each call of time.Now is a separate reading.
 */
module CrashBreaker {
  import opened Wrappers

  type Time = int

  const SIX_HOURS: int := 6 * 3600 * 1_000_000_000

  datatype CrashRecord = CrashRecord(timestamp: Time, exitCode: int, cleanExit: bool, autoRestarted: bool)

  /** time.Duration: nanoseconds in a signed 64-bit integer. */
  type Duration = d: int | -0x8000_0000_0000_0000 <= d < 0x8000_0000_0000_0000

  datatype Thresholds = Thresholds(maxCrashes: int, window: Duration, cooldown: Duration, maxEscalations: int)

  /** What NewCrashDetector guarantees after replacing unusable values. */
  predicate Usable(th: Thresholds) {
    th.maxCrashes >= 1 && th.window > 0 && th.cooldown > 0 && th.maxEscalations >= 1
  }

  datatype Config = Config(th: Thresholds, countClean: bool)

  datatype Guard = Guard(records: seq<CrashRecord>, cooldown: Option<Time>, trips: int)

  const FRESH := Guard([], None, 0)

  // ----- what each operation does to a guard -----

  function Trim(records: seq<CrashRecord>, cutoff: Time): seq<CrashRecord> {
    if records != [] && records[0].timestamp < cutoff then Trim(records[1..], cutoff) else records
  }

  predicate Counts(c: Config, r: CrashRecord) {
    !r.cleanExit || c.countClean
  }

  function CrashCount(c: Config, records: seq<CrashRecord>): nat {
    if records == [] then 0
    else CrashCount(c, records[..|records| - 1]) + if Counts(c, records[|records| - 1]) then 1 else 0
  }

  function Doubled(d: int, n: nat): int {
    if n == 0 then d else 2 * Doubled(d, n - 1)
  }

  /** The cooldown after so many trips: doubled each time, capped at six hours. */
  function Escalated(th: Thresholds, trips: int): int {
    var wanted := Doubled(th.cooldown, if trips < 1 then 0 else trips - 1);
    if wanted < SIX_HOURS then wanted else SIX_HOURS
  }

  /** A crash recorded at one reading of the clock and trimmed at the next. */
  function Recorded(c: Config, g: Guard, r: CrashRecord, now: Time): Guard {
    g.(records := Trim(g.records + [r], now - c.th.window))
  }

  predicate Open(c: Config, g: Guard) {
    g.trips >= c.th.maxEscalations
  }

  /** The guard once an expired cooldown is dropped and old records are trimmed. */
  function Refreshed(c: Config, g: Guard, now: Time): Guard {
    if g.cooldown.Some? then Guard([], None, g.trips) else g.(records := Trim(g.records, now - c.th.window))
  }

  /** ShouldAutoRestart with its three readings of the clock: the new guard and the answer. */
  function Asked(c: Config, g: Guard, t0: Time, t1: Time, t2: Time): (Guard, bool) {
    if Open(c, g) || (g.cooldown.Some? && t0 < g.cooldown.value) then (g, false)
    else
      var h := Refreshed(c, g, t1);
      if CrashCount(c, h.records) >= c.th.maxCrashes then
        var tripped := h.(trips := h.trips + 1);
        (if Open(c, tripped) then tripped else tripped.(cooldown := Some(t2 + Escalated(c.th, tripped.trips))), false)
      else (h, true)
  }

  function Larger(a: int, b: int): int {
    if a < b then b else a
  }

  // ----- the detector -----

  class CrashDetector {
    const config: Config
    var records: map<string, seq<CrashRecord>>
    var cooldowns: map<string, Time>
    var escalations: map<string, int>

    constructor (th: Thresholds, countClean: bool)
      ensures Usable(config.th) && config.countClean == countClean
      ensures config.th.maxCrashes == if th.maxCrashes < 1 then 3 else th.maxCrashes
      ensures config.th.window == if th.window <= 0 then 600 * 1_000_000_000 else th.window
      ensures config.th.cooldown == if th.cooldown <= 0 then 1800 * 1_000_000_000 else th.cooldown
      ensures config.th.maxEscalations == if th.maxEscalations < 1 then 5 else th.maxEscalations
      ensures forall id :: GuardOf(id) == FRESH
    {
      config := Config(
        Thresholds(
          if th.maxCrashes < 1 then 3 else th.maxCrashes,
          if th.window <= 0 then 600 * 1_000_000_000 else th.window,
          if th.cooldown <= 0 then 1800 * 1_000_000_000 else th.cooldown,
          if th.maxEscalations < 1 then 5 else th.maxEscalations),
        countClean);
      records, cooldowns, escalations := map[], map[], map[];
    }

    function GuardOf(id: string): Guard
      reads this
    {
      Guard(
        if id in records then records[id] else [],
        if id in cooldowns then Some(cooldowns[id]) else None,
        if id in escalations then escalations[id] else 0)
    }

    twostate predicate OnlyChanges(id: string)
      reads this
    {
      forall other :: other != id ==> GuardOf(other) == old(GuardOf(other))
    }

    method RecordCrash(id: string, exitCode: int, cleanExit: bool, t0: Time, t1: Time)
      modifies this
      ensures OnlyChanges(id)
      ensures GuardOf(id) == Recorded(config, old(GuardOf(id)), CrashRecord(t0, exitCode, cleanExit, false), t1)
    {
      var record := CrashRecord(t0, exitCode, cleanExit, false);
      records := records[id := (if id in records then records[id] else []) + [record]];
      TrimOldRecords(id, t1);
    }

    method TrimOldRecords(id: string, now: Time)
      modifies this`records
      ensures OnlyChanges(id)
      ensures GuardOf(id) == old(GuardOf(id)).(records := Trim(old(GuardOf(id)).records, now - config.th.window))
    {
      var cutoff := now - config.th.window;
      var rs := if id in records then records[id] else [];
      var start := 0;
      while start < |rs| && rs[start].timestamp < cutoff
        invariant 0 <= start <= |rs|
        invariant Trim(rs, cutoff) == Trim(rs[start..], cutoff)
      {
        assert rs[start..][1..] == rs[start + 1..];
        start := start + 1;
      }
      rs := rs[start..];
      records := if rs == [] then records - {id} else records[id := rs];
    }

    /** `peak` is the largest value the duration takes on the way; no doubling leaves its type. */
    method EscalatedCooldown(id: string) returns (cooldown: Duration, ghost peak: int)
      requires Usable(config.th)
      ensures cooldown == Escalated(config.th, GuardOf(id).trips)
      ensures cooldown <= peak && (peak <= config.th.cooldown || peak <= SIX_HOURS)
    {
      var trips := if id in escalations then escalations[id] else 0;
      if trips < 1 { trips := 1; }
      cooldown := config.th.cooldown;
      peak := cooldown;
      for i := 1 to trips
        invariant 0 < cooldown == Doubled(config.th.cooldown, i - 1)
        invariant cooldown <= peak && (peak <= config.th.cooldown || peak <= SIX_HOURS)
      {
        if cooldown >= SIX_HOURS / 2 {
          DoubledGrows(config.th.cooldown, i, trips - 1);
          return SIX_HOURS, Larger(peak, SIX_HOURS);
        }
        cooldown := cooldown * 2;
        peak := Larger(peak, cooldown);
      }
      if cooldown > SIX_HOURS { return SIX_HOURS, Larger(peak, SIX_HOURS); }
    }

    method ShouldAutoRestart(id: string, t0: Time, t1: Time, t2: Time) returns (granted: bool)
      requires Usable(config.th)
      modifies this
      ensures OnlyChanges(id)
      ensures (GuardOf(id), granted) == Asked(config, old(GuardOf(id)), t0, t1, t2)
    {
      if CircuitOpen(id) { return false; }
      if id in cooldowns {
        if t0 < cooldowns[id] { return false; }
        cooldowns := cooldowns - {id};
        records := records - {id};
      }
      TrimOldRecords(id, t1);
      assert GuardOf(id) == Refreshed(config, old(GuardOf(id)), t1);
      var crashCount := CountCrashes(if id in records then records[id] else []);
      if crashCount >= config.th.maxCrashes {
        Trip(id, t2);
        return false;
      }
      return true;
    }

    method CountCrashes(rs: seq<CrashRecord>) returns (crashCount: int)
      ensures crashCount == CrashCount(config, rs)
    {
      crashCount := 0;
      for i := 0 to |rs|
        invariant crashCount == CrashCount(config, rs[..i])
      {
        assert rs[..i + 1][..i] == rs[..i];
        if !rs[i].cleanExit || config.countClean { crashCount := crashCount + 1; }
      }
      assert rs[..|rs|] == rs;
    }

    /** Count a trip and, below the ceiling, start the escalated cooldown. */
    method Trip(id: string, now: Time)
      requires Usable(config.th)
      modifies this`escalations, this`cooldowns
      ensures OnlyChanges(id)
      ensures var tripped := old(GuardOf(id)).(trips := old(GuardOf(id)).trips + 1);
        GuardOf(id) == if Open(config, tripped) then tripped
                       else tripped.(cooldown := Some(now + Escalated(config.th, tripped.trips)))
    {
      escalations := escalations[id := (if id in escalations then escalations[id] else 0) + 1];
      if !CircuitOpen(id) {
        var cooldown;
        ghost var peak;
        cooldown, peak := EscalatedCooldown(id);
        cooldowns := cooldowns[id := now + cooldown];
      }
    }

    predicate CircuitOpen(id: string)
      reads this
    {
      (if id in escalations then escalations[id] else 0) >= config.th.maxEscalations
    }

    /** Reset does the same. */
    method MarkHealthyObserved(id: string)
      modifies this
      ensures OnlyChanges(id) && GuardOf(id) == FRESH
    {
      records := records - {id};
      cooldowns := cooldowns - {id};
      escalations := escalations - {id};
    }
  }

  lemma {:induction false} DoubledGrows(d: int, i: nat, n: nat)
    requires 1 <= i <= n && d > 0 && Doubled(d, i - 1) >= SIX_HOURS / 2
    ensures Doubled(d, n) >= SIX_HOURS
    decreases n
  {
    if i < n {
      DoubledGrows(d, i, n - 1);
    }
  }

  // ----- runs of one server without a reset -----

  /** `first` and `last` are the earliest and latest readings of the clock during the event. */
  datatype Event =
    | Crash(record: CrashRecord, now: Time)
    | Ask(t0: Time, t1: Time, t2: Time)
  {
    function First(): Time {
      if Crash? then record.timestamp else t0
    }

    function Last(): Time {
      if Crash? then now else t2
    }

    ghost predicate Ordered() {
      if Crash? then record.timestamp <= now else t0 <= t1 <= t2
    }
  }

  function After(c: Config, g: Guard, e: Event): Guard {
    match e
    case Crash(r, now) => Recorded(c, g, r, now)
    case Ask(t0, t1, t2) => Asked(c, g, t0, t1, t2).0
  }

  function Run(c: Config, g: Guard, events: seq<Event>): Guard
    decreases |events|
  {
    if events == [] then g else Run(c, After(c, g, events[0]), events[1..])
  }

  /** The clock never goes back. */
  ghost predicate Monotone(events: seq<Event>) {
    && (forall e :: e in events ==> e.Ordered())
    && (forall i, j :: 0 <= i < j < |events| ==> events[i].Last() <= events[j].First())
  }

  ghost predicate Within(events: seq<Event>, from: Time, to: Time) {
    forall e :: e in events ==> from <= e.First() && e.Last() <= to
  }

  /** How often a crash that counts, followed at once by an ask, was answered with a restart. */
  function Grants(c: Config, g: Guard, events: seq<Event>): nat
    decreases |events|
  {
    if |events| < 2 then 0
    else if events[0].Crash? && Counts(c, events[0].record) && events[1].Ask? then
      var e := events[1];
      var (h, granted) := Asked(c, After(c, g, events[0]), e.t0, e.t1, e.t2);
      (if granted then 1 else 0) + Grants(c, h, events[2..])
    else Grants(c, After(c, g, events[0]), events[1..])
  }

  /** A guard any run from FRESH can reach: a cooldown is only ever set by a trip. */
  ghost predicate Possible(c: Config, g: Guard) {
    0 <= g.trips <= c.th.maxEscalations && (g.cooldown.Some? ==> 1 <= g.trips < c.th.maxEscalations)
  }

  lemma StepIsPossible(c: Config, g: Guard, e: Event)
    requires Usable(c.th) && Possible(c, g)
    ensures Possible(c, After(c, g, e)) && g.trips <= After(c, g, e).trips <= g.trips + 1
  {
  }

  /** Escalations never exceed the ceiling, in any run. */
  lemma {:induction false} RunIsPossible(c: Config, g: Guard, events: seq<Event>)
    requires Usable(c.th) && Possible(c, g)
    ensures Possible(c, Run(c, g, events)) && g.trips <= Run(c, g, events).trips
    decreases |events|
  {
    if events != [] {
      StepIsPossible(c, g, events[0]);
      RunIsPossible(c, After(c, g, events[0]), events[1..]);
    }
  }

  /** Once the ceiling is reached no later ask is granted. */
  lemma OpenStaysOpen(c: Config, g: Guard, events: seq<Event>, t0: Time, t1: Time, t2: Time)
    requires Usable(c.th) && Possible(c, g) && Open(c, g)
    ensures !Asked(c, Run(c, g, events), t0, t1, t2).1
  {
    RunIsPossible(c, g, events);
  }

  // ----- at most maxCrashes * maxEscalations - 1 grants in a window -----

  /** Crashes that count and are not older than `from`. */
  function Recent(c: Config, records: seq<CrashRecord>, from: Time): nat {
    if records == [] then 0
    else
      var r := records[|records| - 1];
      Recent(c, records[..|records| - 1], from) + if Counts(c, r) && r.timestamp >= from then 1 else 0
  }

  lemma {:induction false} RecentIsCounted(c: Config, records: seq<CrashRecord>, from: Time)
    ensures Recent(c, records, from) <= CrashCount(c, records)
  {
    if records != [] {
      RecentIsCounted(c, records[..|records| - 1], from);
    }
  }

  lemma RecentSnoc(c: Config, records: seq<CrashRecord>, r: CrashRecord, from: Time)
    ensures Recent(c, records + [r], from) == Recent(c, records, from) +
      if Counts(c, r) && r.timestamp >= from then 1 else 0
  {
    assert (records + [r])[..|records|] == records;
  }

  lemma {:induction false} DropOld(c: Config, records: seq<CrashRecord>, from: Time)
    requires records != [] && records[0].timestamp < from
    ensures Recent(c, records, from) == Recent(c, records[1..], from)
  {
    var n := |records| - 1;
    if n > 0 {
      DropOld(c, records[..n], from);
      assert records[1..] == records[..n][1..] + [records[n]];
      RecentSnoc(c, records[..n][1..], records[n], from);
    }
  }

  /** Trimming at the window's edge loses nothing recent. */
  lemma {:induction false} TrimKeepsRecent(c: Config, records: seq<CrashRecord>, cutoff: Time, from: Time)
    requires cutoff <= from
    ensures Recent(c, Trim(records, cutoff), from) == Recent(c, records, from)
  {
    if records != [] && records[0].timestamp < cutoff {
      DropOld(c, records, from);
      TrimKeepsRecent(c, records[1..], cutoff, from);
    }
  }

  /** How many more grants the guard can still give inside the window that starts at `from`. */
  function Budget(c: Config, g: Guard, from: Time): int {
    var m, left := c.th.maxCrashes, c.th.maxEscalations - g.trips;
    if left <= 0 then 0
    else if g.cooldown.Some? then left * m
    else
      var n := Recent(c, g.records, from);
      left * m - 1 - if n < m - 1 then n else m - 1
  }

  lemma OneLess(left: int, m: int)
    ensures (left - 1) * m == left * m - m
  {
  }

  lemma BudgetBounds(c: Config, g: Guard, from: Time)
    requires Usable(c.th) && Possible(c, g)
    ensures 0 <= Budget(c, g, from) <= c.th.maxCrashes * c.th.maxEscalations - 1
  {
    var m, left, most := c.th.maxCrashes, c.th.maxEscalations - g.trips, c.th.maxEscalations;
    OneLess(most, m);
    TimesGrows(1, most, m);
    if left > 0 {
      TimesGrows(1, left, m);
      TimesGrows(left, most, m);
      if g.cooldown.Some? { TimesGrows(left, most - 1, m); }
    }
  }

  lemma TimesGrows(a: int, b: int, m: int)
    requires a <= b && m >= 0
    ensures a * m <= b * m
  {
    assert b * m - a * m == (b - a) * m;
  }

  lemma CrashSpends(c: Config, g: Guard, r: CrashRecord, now: Time, from: Time)
    requires Usable(c.th) && Possible(c, g) && from <= r.timestamp && now <= from + c.th.window
    ensures var h := Recorded(c, g, r, now);
      && h.trips == g.trips && h.cooldown == g.cooldown
      && Recent(c, h.records, from) == Recent(c, g.records, from) + (if Counts(c, r) then 1 else 0)
      && Budget(c, h, from) <= Budget(c, g, from)
  {
    TrimKeepsRecent(c, g.records + [r], now - c.th.window, from);
    RecentSnoc(c, g.records, r, from);
  }

  lemma AskSpends(c: Config, g: Guard, t0: Time, t1: Time, t2: Time, from: Time)
    requires Usable(c.th) && Possible(c, g) && t1 <= from + c.th.window
    ensures Budget(c, Asked(c, g, t0, t1, t2).0, from) <= Budget(c, g, from)
    ensures Asked(c, g, t0, t1, t2).1 ==>
      var h := Asked(c, g, t0, t1, t2).0;
      && h.trips == g.trips < c.th.maxEscalations && h.cooldown.None?
      && Recent(c, h.records, from) == (if g.cooldown.Some? then 0 else Recent(c, g.records, from))
      && Recent(c, h.records, from) < c.th.maxCrashes
  {
    var h := Refreshed(c, g, t1);
    TrimKeepsRecent(c, g.records, t1 - c.th.window, from);
    RecentIsCounted(c, h.records, from);
    OneLess(c.th.maxEscalations - g.trips, c.th.maxCrashes);
  }

  /** A crash and a granted ask use up one unit of the budget. */
  lemma PairSpends(c: Config, g: Guard, r: CrashRecord, now: Time, t0: Time, t1: Time, t2: Time, from: Time)
    requires Usable(c.th) && Possible(c, g) && Counts(c, r)
    requires from <= r.timestamp && now <= from + c.th.window && t1 <= from + c.th.window
    ensures var (h, granted) := Asked(c, Recorded(c, g, r, now), t0, t1, t2);
      Budget(c, h, from) + (if granted then 1 else 0) <= Budget(c, g, from)
  {
    var crashed := Recorded(c, g, r, now);
    CrashSpends(c, g, r, now, from);
    AskSpends(c, crashed, t0, t1, t2, from);
    if Asked(c, crashed, t0, t1, t2).1 { GrantSpends(c, g, Asked(c, crashed, t0, t1, t2).0, from); }
  }

  lemma GrantSpends(c: Config, g: Guard, h: Guard, from: Time)
    requires h.trips == g.trips < c.th.maxEscalations && h.cooldown.None?
    requires Recent(c, h.records, from) == if g.cooldown.Some? then 0 else Recent(c, g.records, from) + 1
    requires Recent(c, h.records, from) < c.th.maxCrashes
    ensures Budget(c, h, from) + 1 <= Budget(c, g, from)
  {
  }

  lemma {:induction false} GrantsWithinBudget(c: Config, g: Guard, events: seq<Event>, from: Time)
    requires Usable(c.th) && Possible(c, g)
    requires (forall e :: e in events ==> e.Ordered()) && Within(events, from, from + c.th.window)
    ensures Grants(c, g, events) <= Budget(c, g, from)
    decreases |events|
  {
    BudgetBounds(c, g, from);
    if |events| >= 2 {
      var e := events[0];
      assert e in events && events[1] in events;
      assert forall x :: x in events[1..] || x in events[2..] ==> x in events;
      StepIsPossible(c, g, e);
      var h := After(c, g, e);
      if e.Crash? && Counts(c, e.record) && events[1].Ask? {
        var a := events[1];
        PairSpends(c, g, e.record, e.now, a.t0, a.t1, a.t2, from);
        StepIsPossible(c, h, a);
        GrantsWithinBudget(c, Asked(c, h, a.t0, a.t1, a.t2).0, events[2..], from);
      } else {
        if e.Crash? { CrashSpends(c, g, e.record, e.now, from); } else { AskSpends(c, g, e.t0, e.t1, e.t2, from); }
        GrantsWithinBudget(c, h, events[1..], from);
      }
    }
  }

  /** The bound, from any guard that a run can reach and over any interval no longer than the window. */
  lemma GrantBound(c: Config, before: seq<Event>, events: seq<Event>, from: Time, to: Time)
    requires Usable(c.th) && to - from <= c.th.window
    requires (forall e :: e in events ==> e.Ordered()) && Within(events, from, to)
    ensures Grants(c, Run(c, FRESH, before), events) <= c.th.maxCrashes * c.th.maxEscalations - 1
  {
    RunIsPossible(c, FRESH, before);
    GrantsWithinBudget(c, Run(c, FRESH, before), events, from);
    BudgetBounds(c, Run(c, FRESH, before), from);
  }

  // ----- the bound is attained -----

  function Failure(t: Time): CrashRecord {
    CrashRecord(t, 1, false, false)
  }

  /** A crash and an ask at one moment. */
  function Pair(t: Time): seq<Event> {
    [Crash(Failure(t), t), Ask(t, t, t)]
  }

  /**
   The grants when every crash is followed by an ask, the breaker trips, crashes
   again the moment its cooldown runs out, and so on until it opens; from k trips
   and j crashes on.
   */
  function Steps(c: Config, k: nat, j: nat): nat
    requires k < c.th.maxEscalations && j < c.th.maxCrashes
    decreases c.th.maxEscalations - k, c.th.maxCrashes - j
  {
    if j + 1 < c.th.maxCrashes then 1 + Steps(c, k, j + 1)
    else if k + 1 == c.th.maxEscalations then 0
    else 1 + Steps(c, k + 1, 0)
  }

  lemma {:induction false} StepsAre(c: Config, k: nat, j: nat)
    requires k < c.th.maxEscalations && j < c.th.maxCrashes
    ensures Steps(c, k, j) == (c.th.maxEscalations - k) * c.th.maxCrashes - 1 - j
    decreases c.th.maxEscalations - k, c.th.maxCrashes - j
  {
    if j + 1 < c.th.maxCrashes {
      StepsAre(c, k, j + 1);
    } else {
      OneLess(c.th.maxEscalations - k, c.th.maxCrashes);
      if k + 1 < c.th.maxEscalations {
        StepsAre(c, k + 1, 0);
      }
    }
  }

  /** The time the remaining cooldowns take. */
  function Span(c: Config, k: nat): int
    requires k < c.th.maxEscalations
    decreases c.th.maxEscalations - k
  {
    if k + 1 == c.th.maxEscalations then 0 else Escalated(c.th, k + 1) + Span(c, k + 1)
  }

  /** The guard after j crashes at one moment. */
  function Crashed(t: Time, j: nat, k: nat): Guard {
    Guard(seq(j, _ => Failure(t)), None, k)
  }

  lemma {:induction false} CrashedCounts(c: Config, t: Time, j: nat)
    requires Usable(c.th)
    ensures CrashCount(c, seq(j, _ => Failure(t))) == j
    ensures Trim(seq(j, _ => Failure(t)), t - c.th.window) == seq(j, _ => Failure(t))
  {
    if j > 0 {
      CrashedCounts(c, t, j - 1);
      assert seq(j, _ => Failure(t))[..j - 1] == seq(j - 1, _ => Failure(t));
    }
  }

  function AfterPair(c: Config, g: Guard, t: Time): (Guard, bool) {
    Asked(c, Recorded(c, g, Failure(t), t), t, t, t)
  }

  /** One more crash and ask at the same moment: granted below the limit, a trip at it. */
  lemma OnePair(c: Config, t: Time, j: nat, k: nat)
    requires Usable(c.th) && j < c.th.maxCrashes && k < c.th.maxEscalations
    ensures var (h, granted) := AfterPair(c, Crashed(t, j, k), t);
      if j + 1 < c.th.maxCrashes then granted && h == Crashed(t, j + 1, k)
      else !granted && h.trips == k + 1 &&
           (k + 1 < c.th.maxEscalations ==> h.cooldown == Some(t + Escalated(c.th, k + 1)))
  {
    assert seq(j, _ => Failure(t)) + [Failure(t)] == seq(j + 1, _ => Failure(t));
    CrashedCounts(c, t, j + 1);
  }

  /** The crash that finds its cooldown run out is forgotten with the others. */
  lemma CooledPair(c: Config, h: Guard, k: nat, next: Time)
    requires Usable(c.th) && k < c.th.maxEscalations && h.trips == k && h.cooldown == Some(next)
    ensures AfterPair(c, h, next) == (Crashed(next, 0, k), true)
  {
    assert seq(0, _ => Failure(next)) == [];
  }

  lemma PairGrants(c: Config, g: Guard, t: Time, rest: seq<Event>)
    ensures var (h, granted) := AfterPair(c, g, t);
      Grants(c, g, Pair(t) + rest) == (if granted then 1 else 0) + Grants(c, h, rest)
  {
    var events := Pair(t) + rest;
    assert events[0] == Crash(Failure(t), t) && events[1] == Ask(t, t, t) && events[2..] == rest;
  }

  /** A trip, then the crash as its cooldown runs out. */
  lemma TripGrants(c: Config, g: Guard, t: Time, h: Guard, k: nat, next: Time, rest: seq<Event>)
    requires Usable(c.th) && AfterPair(c, g, t) == (h, false)
    requires k < c.th.maxEscalations && h.trips == k && h.cooldown == Some(next)
    ensures Grants(c, g, Pair(t) + (Pair(next) + rest)) == 1 + Grants(c, Crashed(next, 0, k), rest)
  {
    PairGrants(c, g, t, Pair(next) + rest);
    PairGrants(c, h, next, rest);
    CooledPair(c, h, k, next);
  }

  lemma BelowGrants(c: Config, k: nat, j: nat, t: Time, rest: seq<Event>)
    requires Usable(c.th) && k < c.th.maxEscalations && j + 1 < c.th.maxCrashes
    ensures Grants(c, Crashed(t, j, k), Pair(t) + rest) == 1 + Grants(c, Crashed(t, j + 1, k), rest)
  {
    OnePair(c, t, j, k);
    PairGrants(c, Crashed(t, j, k), t, rest);
  }

  lemma LimitGrants(c: Config, k: nat, j: nat, t: Time, next: Time, rest: seq<Event>)
    requires Usable(c.th) && k + 1 < c.th.maxEscalations && j + 1 == c.th.maxCrashes &&
      next == t + Escalated(c.th, k + 1)
    ensures Grants(c, Crashed(t, j, k), Pair(t) + (Pair(next) + rest)) == 1 + Grants(c, Crashed(next, 0, k + 1), rest)
  {
    OnePair(c, t, j, k);
    TripGrants(c, Crashed(t, j, k), t, AfterPair(c, Crashed(t, j, k), t).0, k + 1, next, rest);
  }

  lemma EndGrants(c: Config, k: nat, j: nat, t: Time)
    requires Usable(c.th) && k + 1 == c.th.maxEscalations && j + 1 == c.th.maxCrashes
    ensures Grants(c, Crashed(t, j, k), Pair(t)) == 0
  {
    OnePair(c, t, j, k);
    PairGrants(c, Crashed(t, j, k), t, []);
    assert Pair(t) + [] == Pair(t);
  }

  lemma EscalatedIsPositive(th: Thresholds, trips: int)
    requires Usable(th)
    ensures Escalated(th, trips) > 0
  {
    DoubledIsPositive(th.cooldown, if trips < 1 then 0 else trips - 1);
  }

  lemma {:induction false} DoubledIsPositive(d: int, n: nat)
    requires d > 0
    ensures Doubled(d, n) > 0
  {
    if n > 0 {
      DoubledIsPositive(d, n - 1);
    }
  }

  /** All events lie between two times. */
  ghost predicate Spread(events: seq<Event>, from: Time, to: Time) {
    Monotone(events) && Within(events, from, to)
  }

  lemma PairSpread(t: Time, rest: seq<Event>, from: Time, to: Time)
    requires from <= t <= to && Spread(rest, t, to)
    ensures Spread(Pair(t) + rest, from, to)
  {
    var events := Pair(t) + rest;
    forall i, j | 0 <= i < j < |events| ensures events[i].Last() <= events[j].First() {
      if j >= 2 {
        assert events[j] == rest[j - 2] && rest[j - 2] in rest;
      }
      if i >= 2 {
        assert events[i] == rest[i - 2];
      }
    }
  }

  lemma {:induction false} Staircase(c: Config, k: nat, j: nat, t: Time) returns (events: seq<Event>)
    requires Usable(c.th) && k < c.th.maxEscalations && j < c.th.maxCrashes
    ensures Grants(c, Crashed(t, j, k), events) == Steps(c, k, j)
    ensures Span(c, k) >= 0 && Spread(events, t, t + Span(c, k))
    decreases c.th.maxEscalations - k, c.th.maxCrashes - j
  {
    if j + 1 < c.th.maxCrashes {
      var rest := Staircase(c, k, j + 1, t);
      BelowGrants(c, k, j, t, rest);
      PairSpread(t, rest, t, t + Span(c, k));
      events := Pair(t) + rest;
    } else if k + 1 == c.th.maxEscalations {
      EndGrants(c, k, j, t);
      PairSpread(t, [], t, t);
      assert Pair(t) + [] == Pair(t);
      events := Pair(t);
    } else {
      var next := t + Escalated(c.th, k + 1);
      EscalatedIsPositive(c.th, k + 1);
      var rest := Staircase(c, k + 1, 0, next);
      LimitGrants(c, k, j, t, next, rest);
      PairSpread(next, rest, t, t + Span(c, k));
      PairSpread(t, Pair(next) + rest, t, t + Span(c, k));
      events := Pair(t) + (Pair(next) + rest);
    }
  }

  /** When the cooldowns fit into the window, the bound is reached from a fresh detector. */
  lemma GrantBoundIsTight(c: Config, from: Time) returns (events: seq<Event>)
    requires Usable(c.th) && Span(c, 0) <= c.th.window
    ensures Monotone(events) && Within(events, from, from + c.th.window)
    ensures Grants(c, FRESH, events) == c.th.maxCrashes * c.th.maxEscalations - 1
  {
    events := Staircase(c, 0, 0, from);
    assert seq(0, _ => Failure(from)) == [];
    StepsAre(c, 0, 0);
  }

  // ----- trips are at least a cooldown apart -----

  /** The cooldown set by a trip is only cleared by an ask after it has run out. */
  lemma {:induction false} CooldownHolds(c: Config, g: Guard, events: seq<Event>)
    requires Usable(c.th) && Possible(c, g) && g.cooldown.Some?
    requires forall e :: e in events && e.Ask? ==> e.t0 < g.cooldown.value
    ensures Run(c, g, events).cooldown == g.cooldown && Run(c, g, events).trips == g.trips
    decreases |events|
  {
    if events != [] {
      assert events[0] in events && forall x :: x in events[1..] ==> x in events;
      StepIsPossible(c, g, events[0]);
      CooldownHolds(c, After(c, g, events[0]), events[1..]);
    }
  }

  predicate Trips(c: Config, g: Guard, e: Event) {
    After(c, g, e).trips == g.trips + 1
  }

  /** Two trips, whatever lies between them, are at least the first one's cooldown apart. */
  lemma TripsAreSpaced(c: Config, g: Guard, first: Event, between: seq<Event>, second: Event)
    requires Usable(c.th) && Possible(c, g) && Monotone([first] + between + [second])
    requires Trips(c, g, first) && Trips(c, Run(c, After(c, g, first), between), second)
    ensures second.First() >= first.Last() + Escalated(c.th, g.trips + 1)
  {
    var h := After(c, g, first);
    var all := [first] + between + [second];
    StepIsPossible(c, g, first);
    RunIsPossible(c, h, between);
    assert first.Ask? && second.Ask?;
    if forall e :: e in between && e.Ask? ==> e.t0 < h.cooldown.value {
      CooldownHolds(c, h, between);
    } else {
      var e :| e in between && e.Ask? && e.t0 >= h.cooldown.value;
      var i :| 0 <= i < |between| && between[i] == e;
      assert all[i + 1] == e && all[|between| + 1] == second;
      assert e in all;
    }
  }

  // ----- the answer in terms of the history -----

  /** A cooldown is set and this ask comes after it. */
  ghost predicate RunsOut(c: Config, events: seq<Event>, k: nat)
    requires k < |events|
  {
    events[k].Ask? &&
    var g := Run(c, FRESH, events[..k]);
    g.cooldown.Some? && g.cooldown.value <= events[k].t0
  }

  /** The events from s on are those since a cooldown last ran out. */
  ghost predicate SinceExpiry(c: Config, events: seq<Event>, s: nat) {
    && s <= |events| && (s > 0 ==> RunsOut(c, events, s - 1))
    && forall k :: s <= k < |events| ==> !RunsOut(c, events, k)
  }

  /** The unclean crashes from s on that are not older than `from`, and the clean ones too if those count. */
  ghost function CrashesSince(c: Config, events: seq<Event>, s: nat, from: Time): set<int> {
    set k | s <= k < |events| && Matters(c, events[k], from)
  }

  predicate Matters(c: Config, e: Event, from: Time) {
    e.Crash? && e.record.timestamp >= from && (!e.record.cleanExit || c.countClean)
  }

  lemma {:induction false} RunSnoc(c: Config, g: Guard, events: seq<Event>, e: Event)
    ensures Run(c, g, events + [e]) == After(c, Run(c, g, events), e)
    decreases |events|
  {
    if events == [] {
      assert events + [e] == [e] && [e][1..] == [];
    } else {
      RunSnoc(c, After(c, g, events[0]), events[1..], e);
      assert (events + [e])[1..] == events[1..] + [e];
    }
  }

  /** In the order they were recorded, none after `last`. */
  ghost predicate InOrder(records: seq<CrashRecord>, last: Time) {
    && (forall i, j :: 0 <= i < j < |records| ==> records[i].timestamp <= records[j].timestamp)
    && (forall i :: 0 <= i < |records| ==> records[i].timestamp <= last)
  }

  lemma {:induction false} TrimInOrder(records: seq<CrashRecord>, cutoff: Time, last: Time)
    requires InOrder(records, last)
    ensures InOrder(Trim(records, cutoff), last)
    ensures forall r :: r in Trim(records, cutoff) ==> r.timestamp >= cutoff
  {
    if records != [] && records[0].timestamp < cutoff {
      TrimInOrder(records[1..], cutoff, last);
    }
  }

  lemma {:induction false} AllRecent(c: Config, records: seq<CrashRecord>, from: Time)
    requires forall r :: r in records ==> r.timestamp >= from
    ensures CrashCount(c, records) == Recent(c, records, from)
  {
    if records != [] {
      AllRecent(c, records[..|records| - 1], from);
    }
  }

  /** Trimmed at an earlier time, the records still show what is recent later. */
  lemma TrimKeepsHistory(c: Config, records: seq<CrashRecord>, cutoff: Time, last: Time, from: Time)
    requires InOrder(records, last) && cutoff <= from
    ensures InOrder(Trim(records, cutoff), last)
    ensures Recent(c, Trim(records, cutoff), from) == Recent(c, records, from)
  {
    TrimInOrder(records, cutoff, last);
    TrimKeepsRecent(c, records, cutoff, from);
  }

  /** The guard after a crash, or after an ask that finds no cooldown run out. */
  lemma EventKeepsHistory(c: Config, g: Guard, e: Event, last: Time, from: Time)
    requires Usable(c.th) && e.Ordered() && InOrder(g.records, last) && last <= e.First()
    requires from >= e.Last() - c.th.window
    requires e.Ask? && g.cooldown.Some? ==> e.t0 < g.cooldown.value
    ensures InOrder(After(c, g, e).records, e.Last())
    ensures Recent(c, After(c, g, e).records, from) == Recent(c, g.records, from) +
      if Matters(c, e, from) then 1 else 0
  {
    match e
    case Crash(r, now) =>
      TrimKeepsHistory(c, g.records + [r], now - c.th.window, now, from);
      RecentSnoc(c, g.records, r, from);
    case Ask(t0, t1, t2) =>
      TrimKeepsHistory(c, g.records, t1 - c.th.window, t2, from);
  }

  lemma CrashesSnoc(c: Config, events: seq<Event>, e: Event, s: nat, from: Time)
    requires s <= |events|
    ensures |CrashesSince(c, events + [e], s, from)| == |CrashesSince(c, events, s, from)| +
      if Matters(c, e, from) then 1 else 0
  {
    var all, n := events + [e], |events|;
    var before, after := CrashesSince(c, events, s, from), CrashesSince(c, all, s, from);
    assert all[n] == e && n !in before;
    assert forall k :: 0 <= k < n ==> all[k] == events[k];
    if Matters(c, e, from) {
      assert after == before + {n};
    } else {
      assert after == before;
    }
  }

  /** What the guard still holds of the crashes is what matters of the whole history. */
  lemma {:induction false} HistoryIsKept(c: Config, events: seq<Event>, s: nat, last: Time, from: Time)
    requires Usable(c.th) && Monotone(events) && SinceExpiry(c, events, s)
    requires (forall e :: e in events ==> e.Last() <= last) && from >= last - c.th.window
    ensures InOrder(Run(c, FRESH, events).records, last)
    ensures Recent(c, Run(c, FRESH, events).records, from) == |CrashesSince(c, events, s, from)|
  {
    if events != [] {
      var n := |events| - 1;
      var before, e := events[..n], events[n];
      assert events == before + [e] && e in events;
      RunSnoc(c, FRESH, before, e);
      if s == n + 1 {
        RunIsPossible(c, FRESH, before);
        assert RunsOut(c, events, n);
      } else {
        SinceBefore(c, before, e, s);
        UpTo(before, e);
        HistoryIsKept(c, before, s, e.First(), from);
        EventKeepsHistory(c, Run(c, FRESH, before), e, e.First(), from);
        CrashesSnoc(c, before, e, s, from);
      }
    }
  }

  lemma SinceBefore(c: Config, before: seq<Event>, e: Event, s: nat)
    requires SinceExpiry(c, before + [e], s) && s <= |before| && Monotone(before + [e])
    ensures SinceExpiry(c, before, s)
    ensures e.Ask? && Run(c, FRESH, before).cooldown.Some? ==> e.t0 < Run(c, FRESH, before).cooldown.value
  {
    var all, n := before + [e], |before|;
    assert all[..n] == before && all[n] == e && !RunsOut(c, all, n);
    assert forall i :: 0 <= i < n ==> all[i] == before[i];
    forall k | 0 <= k < n ensures RunsOut(c, before, k) <==> RunsOut(c, all, k) {
      assert before[..k] == all[..k];
    }
  }

  /**
   The answer to an ask, whatever came before. It is refused above the ceiling and
   during a cooldown, and leaves the guard alone. Otherwise it is granted iff fewer
   than the threshold of crashes since the last cooldown ran out lie in the window;
   a refusal counts as a trip and, below the ceiling, starts the next cooldown.
   */
  lemma AskIsJudged(c: Config, events: seq<Event>, s: nat, t0: Time, t1: Time, t2: Time)
    requires Usable(c.th) && Monotone(events + [Ask(t0, t1, t2)]) && SinceExpiry(c, events, s)
    ensures Judged(c, Run(c, FRESH, events), |CrashesSince(c, events, s, t1 - c.th.window)|, t0, t1, t2)
  {
    var g := Run(c, FRESH, events);
    UpTo(events, Ask(t0, t1, t2));
    HistoryIsKept(c, events, s, t0, t1 - c.th.window);
    CountInWindow(c, g.records, t0, t1 - c.th.window);
    JudgedByCount(c, g, t0, t1, t2);
  }

  /** What becomes of an ask when that many crashes matter. */
  ghost predicate Judged(c: Config, g: Guard, recent: int, t0: Time, t1: Time, t2: Time) {
    var (h, granted) := Asked(c, g, t0, t1, t2);
    var crashes := if g.cooldown.Some? then 0 else recent;
    if g.trips >= c.th.maxEscalations || (g.cooldown.Some? && t0 < g.cooldown.value) then !granted && h == g
    else
      && (granted <==> crashes < c.th.maxCrashes)
      && h.trips == g.trips + (if granted then 0 else 1)
      && h.cooldown == if granted || h.trips >= c.th.maxEscalations then None else Some(t2 + Escalated(c.th, h.trips))
  }

  lemma JudgedByCount(c: Config, g: Guard, t0: Time, t1: Time, t2: Time)
    requires Usable(c.th)
    ensures Judged(c, g, CrashCount(c, Trim(g.records, t1 - c.th.window)), t0, t1, t2)
  {
  }

  lemma UpTo(events: seq<Event>, e: Event)
    requires Monotone(events + [e])
    ensures Monotone(events) && e.Ordered() && forall x :: x in events ==> x.Last() <= e.First()
  {
    var all := events + [e];
    assert all[|events|] == e && e in all;
    assert forall i :: 0 <= i < |events| ==> all[i] == events[i];
    forall x | x in events ensures x in all && x.Last() <= e.First() {
      var i :| 0 <= i < |events| && events[i] == x;
      assert all[i] == x;
    }
  }

  lemma CountInWindow(c: Config, records: seq<CrashRecord>, last: Time, from: Time)
    requires InOrder(records, last)
    ensures CrashCount(c, Trim(records, from)) == Recent(c, records, from)
  {
    TrimInOrder(records, from, last);
    TrimKeepsRecent(c, records, from, from);
    AllRecent(c, Trim(records, from), from);
  }

  /** The first cooldown is the configured one and each further trip doubles it, never beyond six hours. */
  lemma CooldownDoubles(th: Thresholds, trips: int)
    requires Usable(th)
    ensures Escalated(th, 1) == if th.cooldown < 6 * 3600 * 1_000_000_000 then th.cooldown else 6 * 3600 * 1_000_000_000
    ensures trips >= 1 ==>
      var next := 2 * Escalated(th, trips);
      Escalated(th, trips + 1) == if next < 6 * 3600 * 1_000_000_000 then next else 6 * 3600 * 1_000_000_000
  {
    if trips >= 1 {
      assert Doubled(th.cooldown, trips) == 2 * Doubled(th.cooldown, trips - 1);
    }
  }
}
