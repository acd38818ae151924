/** The GOOSE publisher application (goose-publisher-app.cc): steady retransmission every T0 and bursts of
    shortened intervals after an event, driven by simulator timers and limited by a packet budget. */
module GooseScheduler {
  import opened Octets

  /** Times are in nanoseconds.  factors[n] is what the floating-point std::pow(rate, n - 1) yields, rate being
      std::pow(T0 / T1, 1.0 / eventMessages) with an integer quotient. */
  datatype Config = Config(t0: nat, t1: nat, eventInterval: nat, eventMessages: byte, factors: seq<real>)

  /** T1 is positive and at most T0, and the factors used in a burst lie between 1 and the quotient. */
  predicate ValidConfig(c: Config) {
    && 0 < c.t1 <= c.t0 && |c.factors| == 256
    && forall n :: 2 <= n <= c.eventMessages ==> 1.0 <= c.factors[n] <= (c.t0 / c.t1) as real
  }

  /** The interval T(n). */
  function Interval(c: Config, n: byte): (t: int) {
    if n == 0 then c.t0
    else if n == 1 then c.t1
    else if n < |c.factors| then (c.t1 as real * c.factors[n]).Floor
    else 0
  }

  /** No interval of a burst is longer than T0. */
  lemma IntervalBound(c: Config, n: byte)
    requires ValidConfig(c) && n <= c.eventMessages
    ensures 0 < Interval(c, n) <= c.t0
  {
    if n >= 2 {
      var p, q := c.factors[n], c.t0 / c.t1;
      ScaleBetween(c.t1 as real, p, q as real);
      assert c.t1 as real * q as real == (c.t1 * q) as real;
      assert c.t1 * q <= c.t0;
      FloorBetween(c.t1 as real * p, c.t1, c.t0);
    }
  }

  lemma FloorBetween(x: real, a: int, b: int)
    requires a as real <= x <= b as real
    ensures a <= x.Floor <= b
  {
  }

  lemma FirstInterval(c: Config)
    ensures Interval(c, 1) == c.t1
  {
  }

  lemma ScaleBetween(t: real, p: real, q: real)
    requires t >= 1.0 && 1.0 <= p <= q
    ensures t <= t * p <= t * q
  {
  }

  // ----- rounding of the factors

  function Power(x: real, n: nat): (p: real) {
    if n == 0 then 1.0 else x * Power(x, n - 1)
  }

  /** The factors are the powers of the exact root of the quotient, each up to a relative error of 2^-10; the powers
      of one are exact.  The error of double arithmetic is far smaller. */
  predicate RoundedPowers(c: Config, root: real) {
    && 0 < c.t1 && root >= 1.0 && |c.factors| == 256
    && (c.eventMessages > 0 ==> Power(root, c.eventMessages) == (c.t0 / c.t1) as real)
    && forall n :: 2 <= n <= c.eventMessages ==>
         if c.t0 / c.t1 == 1 then c.factors[n] == 1.0
         else Power(root, n - 1) * (1.0 - 1.0 / 1024.0) <= c.factors[n] <= Power(root, n - 1) * (1.0 + 1.0 / 1024.0)
  }

  lemma {:induction false} PowerMonotone(x: real, m: nat, n: nat)
    requires x >= 1.0 && m <= n
    ensures 1.0 <= Power(x, m) <= Power(x, n)
    decreases n
  {
    if m < n {
      PowerMonotone(x, m, n - 1);
      GrowthStep(x, Power(x, n - 1));
    } else if m > 0 {
      PowerMonotone(x, m - 1, m - 1);
      GrowthStep(x, Power(x, m - 1));
    }
  }

  lemma GrowthStep(x: real, p: real)
    requires x >= 1.0 && p >= 1.0
    ensures x * p >= p
  {
  }

  lemma {:induction false} PowerBound(x: real, n: nat)
    requires x >= 0.0
    ensures Power(1.0 + x, n) * (1.0 - n as real * x) <= 1.0
  {
    if n > 0 {
      var p, m := Power(1.0 + x, n - 1), (n - 1) as real;
      PowerBound(x, n - 1);
      PowerMonotone(1.0 + x, 0, n - 1);
      BoundStep(x, p, m);
    }
  }

  lemma BoundStep(x: real, p: real, m: real)
    requires x >= 0.0 && p >= 1.0 && m >= 0.0 && p * (1.0 - m * x) <= 1.0
    ensures (1.0 + x) * p * (1.0 - (m + 1.0) * x) <= 1.0
  {
    var left, right := (1.0 + x) * (1.0 - (m + 1.0) * x), 1.0 - m * x;
    assert left == right - (m + 1.0) * (x * x);
    assert x * x >= 0.0;
    assert (m + 1.0) * (x * x) >= 0.0;
    assert p * left <= p * right;
    assert (1.0 + x) * p * (1.0 - (m + 1.0) * x) == p * left;
  }

  lemma PowerSmall(x: real, n: nat)
    requires 0.0 <= x < 1.0 / 512.0 && n <= 255
    ensures Power(1.0 + x, n) < 2.0
  {
    var p, y := Power(1.0 + x, n), n as real * x;
    PowerBound(x, n);
    PowerMonotone(1.0 + x, 0, n);
    assert y <= 255.0 * x;
    var z := 512.0 * (1.0 - y);
    assert z >= 257.0;
    assert p * 257.0 <= p * z;
    assert p * z == 512.0 * (p * (1.0 - y));
    assert p * 257.0 <= 512.0;
  }

  /** The root of a quotient of two or more is well above one. */
  lemma RootAbove(root: real, n: nat)
    requires root >= 1.0 && n <= 255 && Power(root, n) >= 2.0
    ensures root >= 1.0 + 1.0 / 512.0
  {
    if root < 1.0 + 1.0 / 512.0 {
      PowerSmall(root - 1.0, n);
    }
  }

  /** So rounding does no harm: with factors computed to within 2^-10 a configuration with 0 < T1 <= T0 is valid. */
  lemma RoundingHarmless(c: Config, root: real)
    requires 0 < c.t1 <= c.t0 && RoundedPowers(c, root)
    ensures ValidConfig(c)
  {
    hide Power;
    var q := c.t0 / c.t1;
    QuotientPositive(c.t0, c.t1);
    forall n | 2 <= n <= c.eventMessages ensures 1.0 <= c.factors[n] <= q as real {
      if q > 1 {
        FactorValid(root, n, c.eventMessages, q as real, c.factors[n]);
      }
    }
  }

  lemma FactorValid(root: real, n: nat, top: nat, q: real, f: real)
    requires 2 <= n <= top <= 255 && root >= 1.0 && Power(root, top) == q >= 2.0
    requires Power(root, n - 1) * (1.0 - 1.0 / 1024.0) <= f <= Power(root, n - 1) * (1.0 + 1.0 / 1024.0)
    ensures 1.0 <= f <= q
  {
    hide Power;
    RootAbove(root, top);
    PowerMonotone(root, 1, n - 1);
    PowerMonotone(root, n - 1, top - 1);
    FirstPower(root);
    PowerStep(root, top);
    FactorBetween(root, Power(root, n - 1), Power(root, top - 1), f);
  }

  lemma FirstPower(x: real)
    ensures Power(x, 1) == x
  {
    assert Power(x, 0) == 1.0;
  }

  lemma PowerStep(x: real, n: nat)
    requires n > 0
    ensures Power(x, n) == x * Power(x, n - 1)
  {
  }

  lemma QuotientPositive(a: nat, b: nat)
    requires 0 < b <= a
    ensures a / b >= 1
  {
  }

  lemma FactorBetween(root: real, p: real, top: real, f: real)
    requires root >= 1.0 + 1.0 / 512.0 && root <= p <= top
    requires p * (1.0 - 1.0 / 1024.0) <= f <= p * (1.0 + 1.0 / 1024.0)
    ensures 1.0 <= f <= root * top
  {
    var up, down := 1.0 + 1.0 / 1024.0, 1.0 - 1.0 / 1024.0;
    assert p * up <= p * root;
    assert p * root <= top * root;
    assert root * down <= p * down;
    assert 1.0 <= root * down;
  }

  // ----- the simulator's timers

  datatype Handler = Send | SendEvent

  datatype Timer = Timer(handler: Handler, at: nat)

  /** The application and the simulator's pending timers.  eventId and gooseEventId are the ids the application
      remembers; log holds the time of every publication. */
  datatype App = App(
    now: nat, pending: map<nat, Timer>, nextId: nat, eventId: nat, gooseEventId: nat,
    count: nat, sent: nat, eventCount: byte, log: seq<nat>)

  function Schedule(s: App, delay: nat, h: Handler): (r: App) {
    s.(pending := s.pending[s.nextId := Timer(h, s.now + delay)], nextId := s.nextId + 1)
  }

  function Cancel(s: App, id: nat): (r: App) {
    s.(pending := s.pending - {id})
  }

  /** A publication: the budget shrinks and the time is logged. */
  function Published(s: App): (r: App)
    requires s.count > 0
  {
    s.(sent := s.sent + 1, count := s.count - 1, log := s.log + [s.now])
  }

  const UNLIMITED := 0xffff_ffff_ffff_ffff

  /** StartApplication; a budget of 0 means unlimited, which is the largest 64-bit number. */
  function Started(c: Config, start: nat, budget: nat): (s: App) {
    var s0 := App(start, map[], 0, 0, 0, if budget == 0 then UNLIMITED else budget, 0, 1, []);
    var s1 := if c.eventInterval != 0 then Schedule(s0, c.eventInterval, SendEvent).(gooseEventId := 0) else s0;
    Schedule(s1, 0, Send).(eventId := s1.nextId)
  }

  /** Send. */
  function DoSend(c: Config, s: App): (r: App) {
    if s.count == 0 then s
    else
      var p := Published(s);
      Schedule(p, c.t0, Send).(eventId := p.nextId)
  }

  /** SendEvent: the end of a burst falls back to Send, any other round publishes and schedules the next. */
  function DoSendEvent(c: Config, s: App): (r: App) {
    if s.count == 0 then s
    else
      var a := Cancel(s, s.eventId);
      if a.eventCount > c.eventMessages then
        var g := Schedule(a.(eventCount := 1), c.eventInterval, SendEvent).(gooseEventId := a.nextId);
        DoSend(c, g)
      else
        var p := Published(a);
        var d := Interval(c, p.eventCount);
        Schedule(p, if d < 0 then 0 else d, SendEvent).(eventId := p.nextId, eventCount := (p.eventCount + 1) % 256)
  }

  /** A timer no other pending timer precedes.  Timers due at the same instant may fire in either order. */
  predicate Due(s: App, id: nat) {
    id in s.pending && forall j :: j in s.pending ==> s.pending[id].at <= s.pending[j].at
  }

  /** The simulator advances to a due timer and runs its handler. */
  function Fire(c: Config, s: App, id: nat): (r: App)
    requires Due(s, id)
  {
    var a := s.(now := s.pending[id].at, pending := s.pending - {id});
    if s.pending[id].handler == Send then DoSend(c, a) else DoSendEvent(c, a)
  }

  // ----- the invariant

  /** Steady: one Send and, with events on, one event trigger are pending, and nothing else. */
  predicate Steady(c: Config, s: App) {
    && s.eventCount == 1
    && s.eventId in s.pending && s.pending[s.eventId].handler == Send
    && (if c.eventInterval == 0 then s.pending.Keys == {s.eventId}
        else s.gooseEventId != s.eventId && s.pending.Keys == {s.eventId, s.gooseEventId}
             && s.pending[s.gooseEventId].handler == SendEvent)
  }

  /** Burst: a single SendEvent is pending, and no Send. */
  predicate Burst(c: Config, s: App) {
    && c.eventInterval != 0
    && s.pending.Keys == {s.eventId} && s.pending[s.eventId].handler == SendEvent
    && (c.eventMessages <= 254 ==> 2 <= s.eventCount <= c.eventMessages + 1)
  }

  predicate FreshIds(s: App) {
    forall j :: j in s.pending ==> j < s.nextId
  }

  predicate NothingOverdue(s: App) {
    forall j :: j in s.pending ==> s.now <= s.pending[j].at
  }

  /** The timer that publishes next is due within T0 of the last publication. */
  predicate Prompt(c: Config, s: App) {
    && (s.log != [] ==> s.eventId in s.pending && s.pending[s.eventId].at <= s.log[|s.log| - 1] + c.t0)
    && (s.log != [] ==> s.log[|s.log| - 1] <= s.now)
    && forall i :: 0 < i < |s.log| ==> s.log[i - 1] <= s.log[i] <= s.log[i - 1] + c.t0
  }

  ghost predicate Invariant(c: Config, s: App, budget: nat) {
    && s.sent + s.count == budget && |s.log| == s.sent
    && FreshIds(s) && NothingOverdue(s) && Prompt(c, s)
    && (Steady(c, s) || Burst(c, s))
  }

  lemma StartInvariant(c: Config, start: nat, budget: nat)
    requires ValidConfig(c)
    ensures Steady(c, Started(c, start, budget))
    ensures Invariant(c, Started(c, start, budget), if budget == 0 then UNLIMITED else budget)
  {
  }

  // ----- every step with budget left keeps it

  /** What a step changes besides the timers: one message is published, at the time of the timer. */
  predicate PublishesOnce(s: App, id: nat, r: App)
    requires id in s.pending
  {
    && r.now == s.pending[id].at && r.log == s.log + [r.now]
    && r.sent == s.sent + 1 && r.count == s.count - 1
  }

  lemma LogExtended(c: Config, s: App, id: nat, r: App)
    requires Prompt(c, s) && NothingOverdue(s) && Due(s, id) && PublishesOnce(s, id, r)
    requires r.eventId in r.pending && r.pending[r.eventId].at <= r.now + c.t0
    ensures Prompt(c, r)
  {
    if s.log != [] {
      assert s.pending[id].at <= s.pending[s.eventId].at;
    }
  }

  lemma SteadySend(c: Config, s: App, budget: nat)
    requires ValidConfig(c) && Invariant(c, s, budget) && s.count > 0 && Steady(c, s) && Due(s, s.eventId)
    ensures var r := Fire(c, s, s.eventId);
            PublishesOnce(s, s.eventId, r) && Invariant(c, r, budget) && Steady(c, r)
  {
    var r := Fire(c, s, s.eventId);
    assert r.eventId == s.nextId && r.pending == (s.pending - {s.eventId})[s.nextId := Timer(Send, r.now + c.t0)];
    LogExtended(c, s, s.eventId, r);
  }

  /** An event in the steady state: the pending Send is cancelled; the burst starts, unless bursts are empty. */
  lemma SteadyEvent(c: Config, s: App, budget: nat)
    requires ValidConfig(c) && Invariant(c, s, budget) && s.count > 0 && Steady(c, s)
    requires c.eventInterval != 0 && Due(s, s.gooseEventId)
    ensures var r := Fire(c, s, s.gooseEventId);
            && PublishesOnce(s, s.gooseEventId, r) && Invariant(c, r, budget)
            && (if c.eventMessages == 0 then Steady(c, r) else Burst(c, r) && r.eventCount == 2)
  {
    hide Interval, ValidConfig, Prompt;
    FirstInterval(c);
    var r := Fire(c, s, s.gooseEventId);
    assert (s.pending - {s.gooseEventId}) - {s.eventId} == map[];
    if c.eventMessages == 0 {
      assert r.pending == map[s.nextId := Timer(SendEvent, r.now + c.eventInterval),
          s.nextId + 1 := Timer(Send, r.now + c.t0)];
    } else {
      IntervalBound(c, 1);
      assert r.pending == map[s.nextId := Timer(SendEvent, r.now + c.t1)];
    }
    LogExtended(c, s, s.gooseEventId, r);
  }

  /** A round of a burst: one more message, or the end of the burst and a Send. */
  lemma BurstRound(c: Config, s: App, budget: nat)
    requires ValidConfig(c) && Invariant(c, s, budget) && s.count > 0 && Burst(c, s)
    ensures Due(s, s.eventId)
    ensures var r := Fire(c, s, s.eventId);
            && PublishesOnce(s, s.eventId, r) && Invariant(c, r, budget)
            && (if s.eventCount > c.eventMessages then Steady(c, r)
                else Burst(c, r) && r.eventCount == (s.eventCount + 1) % 256)
  {
    hide Interval, ValidConfig, Prompt;
    var r := Fire(c, s, s.eventId);
    assert s.pending - {s.eventId} == map[];
    if s.eventCount > c.eventMessages {
      assert r.pending == map[s.nextId := Timer(SendEvent, r.now + c.eventInterval),
          s.nextId + 1 := Timer(Send, r.now + c.t0)];
    } else {
      IntervalBound(c, s.eventCount);
      assert r.pending == map[s.nextId := Timer(SendEvent, r.now + Interval(c, s.eventCount))];
    }
    LogExtended(c, s, s.eventId, r);
  }

  lemma StepInvariant(c: Config, s: App, id: nat, budget: nat)
    requires ValidConfig(c) && Invariant(c, s, budget) && s.count > 0 && Due(s, id)
    ensures Invariant(c, Fire(c, s, id), budget) && PublishesOnce(s, id, Fire(c, s, id))
  {
    hide Fire, Prompt, PublishesOnce;
    if Burst(c, s) {
      BurstRound(c, s, budget);
    } else if id == s.eventId {
      SteadySend(c, s, budget);
    } else {
      SteadyEvent(c, s, budget);
    }
  }

  // ----- whole runs

  ghost predicate Step(c: Config, s: App, r: App) {
    s.count > 0 && exists id :: Due(s, id) && r == Fire(c, s, id)
  }

  /** A run of the application, from its start and for as long as every step had budget left. */
  ghost predicate Run(c: Config, start: nat, budget: nat, run: seq<App>) {
    && run != [] && run[0] == Started(c, start, budget)
    && forall i :: 0 < i < |run| ==> Step(c, run[i - 1], run[i])
  }

  /** Throughout every run the application is steady or in a burst, nothing is overdue, consecutive publications
      are at most T0 apart, each step publishes once, and sent plus remaining budget never changes. */
  lemma {:induction false} RunInvariant(c: Config, start: nat, budget: nat, run: seq<App>, n: nat)
    requires ValidConfig(c) && Run(c, start, budget, run) && n < |run|
    ensures Invariant(c, run[n], if budget == 0 then UNLIMITED else budget)
    ensures run[n].sent == n
  {
    hide Invariant, Started, Fire, PublishesOnce;
    if n == 0 {
      StartInvariant(c, start, budget);
      NothingSentYet(c, start, budget);
    } else {
      RunInvariant(c, start, budget, run, n - 1);
      assert Step(c, run[n - 1], run[n]);
      var id :| Due(run[n - 1], id) && run[n] == Fire(c, run[n - 1], id);
      StepInvariant(c, run[n - 1], id, if budget == 0 then UNLIMITED else budget);
      OneMore(run[n - 1], id, run[n]);
    }
  }

  lemma NothingSentYet(c: Config, start: nat, budget: nat)
    ensures Started(c, start, budget).sent == 0
  {
  }

  lemma OneMore(s: App, id: nat, r: App)
    requires id in s.pending && PublishesOnce(s, id, r)
    ensures r.sent == s.sent + 1 && r.count == s.count - 1
  {
  }

  /** k rounds of a burst. */
  function Rounds(c: Config, s: App, k: nat): (r: App)
    requires forall j :: j in s.pending ==> j == s.eventId
    requires s.eventId in s.pending
    decreases k
  {
    if k == 0 then s
    else
      var r := Fire(c, s, s.eventId);
      if r.eventId in r.pending && (forall j :: j in r.pending ==> j == r.eventId) then Rounds(c, r, k - 1) else r
  }

  lemma {:induction false} RoundsOfBurst(c: Config, s: App, budget: nat, k: nat)
    requires ValidConfig(c) && Invariant(c, s, budget) && Burst(c, s) && s.count >= k
    requires c.eventMessages == 255 || s.eventCount + k <= c.eventMessages + 1
    ensures var r := Rounds(c, s, k);
            && Invariant(c, r, budget) && Burst(c, r) && r.sent == s.sent + k
            && (c.eventMessages <= 254 ==> r.eventCount == s.eventCount + k)
    decreases k
  {
    hide Invariant, Fire, PublishesOnce;
    if k > 0 {
      BurstRound(c, s, budget);
      var r := Fire(c, s, s.eventId);
      OneMore(s, s.eventId, r);
      RoundsOfBurst(c, r, budget, k - 1);
    }
  }

  /** A burst of N messages, N being 1 to 254: the event and N - 1 rounds publish one message each, and the next
      round returns to the steady state with a Send.  The budget allows for all of them. */
  lemma BurstExact(c: Config, s: App, budget: nat)
    requires ValidConfig(c) && Invariant(c, s, budget) && Steady(c, s) && c.eventInterval != 0
    requires Due(s, s.gooseEventId) && 1 <= c.eventMessages <= 254 && s.count > c.eventMessages
    ensures var first := Fire(c, s, s.gooseEventId);
            var last := Rounds(c, first, c.eventMessages - 1);
            && Burst(c, first) && Burst(c, last) && last.sent == s.sent + c.eventMessages
            && last.eventCount == c.eventMessages + 1
            && Due(last, last.eventId) && Steady(c, Fire(c, last, last.eventId))
            && Fire(c, last, last.eventId).sent == s.sent + c.eventMessages + 1
  {
    hide Invariant, Fire, PublishesOnce, Rounds;
    SteadyEvent(c, s, budget);
    var first := Fire(c, s, s.gooseEventId);
    OneMore(s, s.gooseEventId, first);
    RoundsOfBurst(c, first, budget, c.eventMessages - 1);
    var last := Rounds(c, first, c.eventMessages - 1);
    BudgetKept(c, s, last, budget);
    BurstRound(c, last, budget);
    OneMore(last, last.eventId, Fire(c, last, last.eventId));
  }

  lemma BudgetKept(c: Config, s: App, r: App, budget: nat)
    requires Invariant(c, s, budget) && Invariant(c, r, budget)
    ensures s.sent + s.count == r.sent + r.count
  {
  }

  /** With 255 event messages a burst never ends: the 8-bit event counter cannot exceed 255, so every round, as
      long as the budget lasts, stays in the burst. */
  lemma BurstNeverEnds(c: Config, s: App, budget: nat, k: nat)
    requires ValidConfig(c) && Invariant(c, s, budget) && Burst(c, s) && c.eventMessages == 255 && k <= s.count
    ensures Burst(c, Rounds(c, s, k)) && !Steady(c, Rounds(c, s, k))
  {
    hide Invariant, Fire;
    RoundsOfBurst(c, s, budget, k);
  }

  /** Such a burst is reached from the start whenever the first event comes before the first retransmission: the first
      Send, the event, and from then on k rounds for every k the budget allows, all of them in the burst. */
  lemma EndlessBurst(c: Config, start: nat, budget: nat, k: nat)
    requires ValidConfig(c) && c.eventMessages == 255 && 0 < c.eventInterval < c.t0 && budget != 1
    ensures var s0 := Started(c, start, budget);
            && Due(s0, s0.eventId)
            && var s1 := Fire(c, s0, s0.eventId);
            && Due(s1, s1.gooseEventId)
            && var s2 := Fire(c, s1, s1.gooseEventId);
            && Run(c, start, budget, [s0, s1, s2]) && Burst(c, s2) && s2.sent == 2
            && (k <= s2.count ==> Burst(c, Rounds(c, s2, k)) && Rounds(c, s2, k).sent == 2 + k)
  {
    hide Invariant, PublishesOnce, Rounds;
    var all := if budget == 0 then UNLIMITED else budget;
    var s0 := Started(c, start, budget);
    StartInvariant(c, start, budget);
    assert s0.pending == map[0 := Timer(SendEvent, start + c.eventInterval), 1 := Timer(Send, start)];
    SteadySend(c, s0, all);
    var s1 := Fire(c, s0, s0.eventId);
    assert s1.pending == map[0 := Timer(SendEvent, start + c.eventInterval), 2 := Timer(Send, start + c.t0)];
    SteadyEvent(c, s1, all);
    var s2 := Fire(c, s1, s1.gooseEventId);
    OneMore(s0, s0.eventId, s1);
    OneMore(s1, s1.gooseEventId, s2);
    assert Step(c, s0, s1) && Step(c, s1, s2);
    if k <= s2.count {
      RoundsOfBurst(c, s2, all, k);
    }
  }

  /** T0 and T1 of one second, an event every half second, 255 messages per event. */
  const ENDLESS := Config(1_000_000_000, 1_000_000_000, 500_000_000, 255, seq(256, _ => 1.0))

  lemma {:induction false} PowerOfOne(n: nat)
    ensures Power(1.0, n) == 1.0
  {
    if n > 0 {
      PowerOfOne(n - 1);
    }
  }

  lemma EndlessConfig()
    ensures RoundedPowers(ENDLESS, 1.0) && ValidConfig(ENDLESS)
    ensures ENDLESS.eventMessages == 255 && 0 < ENDLESS.eventInterval < ENDLESS.t0
  {
    PowerOfOne(255);
    RoundingHarmless(ENDLESS, 1.0);
  }
}
