/** The timers driven by clock readings: how fast they run, and when a timer fires by the clock. */
module WallClock {
  import opened Agenda
  import opened Arithmetic

  /** The clock after more readings. */
  function ReadFrom(c: Clock, readings: seq<int>): Clock
    decreases |readings|
  {
    if |readings| == 0 then c else ReadClock(ReadFrom(c, readings[..|readings| - 1]), readings[|readings| - 1])
  }

  /** Readings that go on from `prev`, never back, and at most `g` milliseconds apart. */
  predicate Ordinary(prev: int, readings: seq<int>, g: nat)
    decreases |readings|
  {
    |readings| == 0 ||
    var n := |readings| - 1;
    Ordinary(prev, readings[..n], g) && 0 <= readings[n] - Last(prev, readings[..n]) <= g
  }

  function Last(prev: int, readings: seq<int>): int {
    if |readings| == 0 then prev else readings[|readings| - 1]
  }

  /** The last reading that counted is less than a second old. */
  predicate UpToDate(c: Clock, now: int) {
    0 < c.lastTs <= now < c.lastTs + 1000
  }

  /**
    From any moment on, an ordinary clock makes the wheel turn: between 1000 and 1000 + g milliseconds of
    readings go by from one tick to the next.
   */
  lemma {:induction false} KeepsUp(c: Clock, prev: int, readings: seq<int>, g: nat)
    requires UpToDate(c, prev) && Ordinary(prev, readings, g)
    ensures
      var c' := ReadFrom(c, readings);
      && UpToDate(c', Last(prev, readings)) && c'.ticks >= c.ticks
      && 1000 * (c'.ticks - c.ticks) <= c'.lastTs - c.lastTs <= (1000 + g) * (c'.ticks - c.ticks)
    decreases |readings|
  {
    if |readings| > 0 {
      var n := |readings| - 1;
      KeepsUp(c, prev, readings[..n], g);
      MulSucc(ReadFrom(c, readings[..n]).ticks - c.ticks, 1000 + g);
      Commutes(1000 + g, ReadFrom(c, readings[..n]).ticks - c.ticks);
      Commutes(1000 + g, ReadFrom(c, readings[..n]).ticks - c.ticks + 1);
    }
  }

  lemma Commutes(a: int, b: int)
    ensures a * b == b * a
  {
  }

  lemma {:induction false} ReadAllIs(first: int, readings: seq<int>)
    requires first > 0
    ensures ReadAll([first] + readings) == ReadFrom(Clock(first, 0), readings)
    decreases |readings|
  {
    if |readings| == 0 {
      assert [first] + readings == [first] && [first][..0] == [];
      assert ReadAll([first]) == ReadClock(ReadAll([]), first);
    } else {
      var n := |readings| - 1;
      assert ([first] + readings)[..n + 1] == [first] + readings[..n];
      ReadAllIs(first, readings[..n]);
    }
  }

  /** A wheel that has seen nothing yet: its ticks keep up with an ordinary clock. */
  lemma TicksKeepUp(first: int, readings: seq<int>, g: nat)
    requires first > 0 && Ordinary(first, readings, g)
    ensures
      var ticks, past := ReadAll([first] + readings).ticks, Last(first, readings) - first;
      1000 * ticks <= past < 1000 + (1000 + g) * ticks
  {
    ReadAllIs(first, readings);
    KeepsUp(Clock(first, 0), first, readings, g);
  }

  /** Readings exactly a second apart. */
  predicate EverySecond(prev: int, readings: seq<int>) {
    forall i :: 0 <= i < |readings| ==> readings[i] == prev + 1000 * (i + 1)
  }

  lemma {:induction false} TicksEverySecond(first: int, readings: seq<int>)
    requires first > 0 && EverySecond(first, readings)
    ensures ReadAll([first] + readings) == Clock(first + 1000 * |readings|, |readings|)
    decreases |readings|
  {
    ReadAllIs(first, readings);
    SecondBySecond(first, readings);
  }

  lemma {:induction false} SecondBySecond(first: int, readings: seq<int>)
    requires first > 0 && EverySecond(first, readings)
    ensures ReadFrom(Clock(first, 0), readings) == Clock(first + 1000 * |readings|, |readings|)
    decreases |readings|
  {
    if |readings| > 0 {
      SecondBySecond(first, readings[..|readings| - 1]);
    }
  }

  // ---------------------------------------------------------------------------------------------
  // Timers by the clock
  // ---------------------------------------------------------------------------------------------

  /** What happens to the wheel: the event loop reads the clock, or somebody asks for a timer. */
  datatype Event = Reading(now: int) | Request(op: Op)

  function Happen(c: Clock, s: Timers, ev: Event): (Clock, Timers) {
    match ev
    case Reading(now) =>
      var c' := ReadClock(c, now);
      (c', if c'.ticks == c.ticks then s else Tick(s))
    case Request(op) => (c, Step(s, op))
  }

  function HappenAll(c: Clock, s: Timers, evs: seq<Event>): (Clock, Timers)
    decreases |evs|
  {
    if |evs| == 0 then (c, s)
    else
      var (c', s') := HappenAll(c, s, evs[..|evs| - 1]);
      Happen(c', s', evs[|evs| - 1])
  }

  function Readings(evs: seq<Event>): seq<int> {
    if |evs| == 0 then []
    else Readings(evs[..|evs| - 1]) + if evs[|evs| - 1].Reading? then [evs[|evs| - 1].now] else []
  }

  /** Requests ask for timers; seconds pass only by the clock. */
  predicate Asks(evs: seq<Event>) {
    forall ev :: ev in evs && ev.Request? ==> !ev.op.Second?
  }

  predicate LeavesAlone(evs: seq<Event>, e: Entry) {
    forall ev :: ev in evs && ev.Request? ==> !Touches(ev.op, e)
  }

  predicate Spares(ops: seq<Op>, e: Entry) {
    forall op :: op in ops ==> !Touches(op, e)
  }

  lemma SparesMore(ops: seq<Op>, op: Op, e: Entry)
    requires Spares(ops, e) && !Touches(op, e)
    ensures Spares(ops + [op], e)
  {
  }

  /** The events so far came to `ops`. */
  ghost predicate CameTo(c: Clock, s: Timers, evs: seq<Event>, ops: seq<Op>) {
    && HappenAll(c, s, evs) == (ReadFrom(c, Readings(evs)), Run(s, ops))
    && Seconds(ops) == ReadFrom(c, Readings(evs)).ticks - c.ticks
  }

  /** The same as operations on the timers alone. */
  lemma {:induction false} AsRun(c: Clock, s: Timers, evs: seq<Event>, e: Entry) returns (ops: seq<Op>)
    requires Asks(evs) && LeavesAlone(evs, e)
    ensures CameTo(c, s, evs, ops) && Spares(ops, e)
    decreases |evs|
  {
    if |evs| == 0 {
      ops := [];
    } else {
      var n := |evs| - 1;
      Shorter(evs, e);
      var before := AsRun(c, s, evs[..n], e);
      hide CameTo, Spares, Asks, LeavesAlone;
      match evs[n] {
        case Reading(now) =>
          var seconds := ReadingCameTo(c, s, evs, before, now);
          ops := before + seconds;
          SparesMore(before, Second, e);
          assert before + [] == before;
        case Request(op) =>
          RequestCameTo(c, s, evs, before, op);
          ops := before + [op];
          SparesMore(before, op, e);
      }
    }
  }

  lemma Shorter(evs: seq<Event>, e: Entry)
    requires |evs| > 0 && Asks(evs) && LeavesAlone(evs, e)
    ensures Asks(evs[..|evs| - 1]) && LeavesAlone(evs[..|evs| - 1], e)
    ensures var ev := evs[|evs| - 1]; ev.Request? ==> !Touches(ev.op, e) && !ev.op.Second?
  {
    assert evs[|evs| - 1] in evs;
  }

  lemma ReadingCameTo(c: Clock, s: Timers, evs: seq<Event>, before: seq<Op>, now: int) returns (seconds: seq<Op>)
    requires |evs| > 0 && evs[|evs| - 1] == Reading(now) && CameTo(c, s, evs[..|evs| - 1], before)
    ensures seconds in [[], [Second]] && CameTo(c, s, evs, before + seconds)
  {
    hide Step, Tick, Run, Seconds, ReadFrom;
    var readings := Readings(evs[..|evs| - 1]);
    var c1 := ReadFrom(c, readings);
    SnocReading(c, readings, now);
    if ReadClock(c1, now).ticks == c1.ticks {
      seconds := [];
      assert before + [] == before;
    } else {
      seconds := [Second];
      SnocOp(s, before, Second);
      SecondIsTick(Run(s, before));
    }
  }

  lemma RequestCameTo(c: Clock, s: Timers, evs: seq<Event>, before: seq<Op>, op: Op)
    requires |evs| > 0 && evs[|evs| - 1] == Request(op) && !op.Second? && CameTo(c, s, evs[..|evs| - 1], before)
    ensures CameTo(c, s, evs, before + [op])
  {
    hide Step, Run, Seconds, ReadFrom;
    var readings := Readings(evs[..|evs| - 1]);
    assert readings + [] == readings;
    SnocOp(s, before, op);
  }

  lemma SecondIsTick(s: Timers)
    ensures Step(s, Second) == Tick(s)
  {
  }

  lemma SnocReading(c: Clock, readings: seq<int>, now: int)
    ensures ReadFrom(c, readings + [now]) == ReadClock(ReadFrom(c, readings), now)
    ensures ReadFrom(c, readings + [now]).ticks - ReadFrom(c, readings).ticks in {0, 1}
  {
    assert (readings + [now])[..|readings|] == readings;
  }

  lemma SnocOp(s: Timers, ops: seq<Op>, op: Op)
    ensures Run(s, ops + [op]) == Step(Run(s, ops), op)
    ensures Seconds(ops + [op]) == Seconds(ops) + if op.Second? then 1 else 0
  {
    assert (ops + [op])[..|ops|] == ops;
  }

  /**
    A timer of `d` seconds by the clock, whatever other timers do. Before `1000 * (d - 60)` milliseconds of
    readings have gone by (`1000 * (d - 1)` if `d` is below a minute) it has not fired; once
    `(1000 + g) * d` have, it has, exactly once and at the tick that was due.
   */
  lemma FiresInTime(c: Clock, prev: int, s: Timers, d: nat, e: Entry, evs: seq<Event>, g: nat)
    requires UpToDate(c, prev) && Ordinary(prev, Readings(evs), g) && Asks(evs) && LeavesAlone(evs, e)
    requires 1 <= d < HOUR && e.period == 0 && Fresh(s, e)
    ensures
      var past := Last(prev, Readings(evs)) - prev;
      var due := if d < 60 then s.tick + d else s.tick + d - s.tick % 60;
      var s' := HappenAll(c, Add(s, d, e), evs).1;
      && (past >= (1000 + g) * d ==> FiredOnce(s', e, due))
      && (past <= 1000 * (d - if d < 60 then 1 else 60) ==> Silent(s', e))
  {
    hide Fresh, Add, Run, HappenAll, ReadFrom, Readings, Ordinary, DueTick;
    var ops := AsRun(c, Add(s, d, e), evs, e);
    var s' := Run(Add(s, d, e), ops);
    assert HappenAll(c, Add(s, d, e), evs).1 == s';
    KeepsUp(c, prev, Readings(evs), g);
    FiringLaw(s, d, e, ops);
    TickCounts(Add(s, d, e), ops);
    AddKeepsTick(s, d, e);
    var due := if d < 60 then s.tick + d else s.tick + d - s.tick % 60;
    var n, past := Seconds(ops), Last(prev, Readings(evs)) - prev;
    FiredIff(s', e, due);
    hide FiredOnce, Silent;
    if past >= (1000 + g) * d {
      Enough(past, g, n, d);
    }
  }

  lemma FiredIff(s: Timers, e: Entry, due: nat)
    requires forall t :: s.log[(t, e)] == if t == due && t <= s.tick then 1 else 0
    ensures if due <= s.tick then FiredOnce(s, e, due) else Silent(s, e)
  {
  }

  /** More than `(1000 + g) * d` milliseconds are at least `d` ticks. */
  lemma Enough(past: int, g: nat, n: nat, d: nat)
    requires (1000 + g) * d <= past < 1000 + (1000 + g) * n
    ensures n >= d
  {
    if n < d {
      Commutes(1000 + g, n);
      Commutes(1000 + g, d);
      MulSucc(n, 1000 + g);
      if n + 1 < d {
        MulLess(n + 1, d, 1000 + g);
      }
    }
  }

  ghost predicate FiredOnce(s: Timers, e: Entry, t: nat) {
    t <= s.tick && forall u :: s.log[(u, e)] == if u == t then 1 else 0
  }

  ghost predicate Silent(s: Timers, e: Entry) {
    forall t :: s.log[(t, e)] == 0
  }
}
