/**
  Timers as a reference sees them: a set of dates, each with the entry that is kept alive until then.

  An entry stands for a reference-counted object whose destructor is the timer's callback. It may have
  several dates; the callback runs when the last of them has passed. A recurring timer's callback
  registers the timer anew.
 */
module Agenda {
  import opened Arithmetic
  import opened Wrappers

  const MINUTE: nat := 60
  const HOUR: nat := 3600
  const DAY: nat := 86400

  /** `period` is 0 for a one-shot timer and for connection timeouts. */
  datatype Entry = Entry(id: nat, period: nat)

  /** `parked` entries sit in the hour and day wheels. `log` counts the callbacks run at each tick. */
  datatype Timers = Timers(tick: nat, agenda: set<(nat, Entry)>, parked: set<Entry>, log: multiset<(nat, Entry)>)

  /** The recurring timers that can be registered anew from their own callback. */
  predicate Sound(e: Entry) {
    e.period / DAY <= 30
  }

  /** When an entry inserted at `tick` with delay `d` is due. */
  function DueTick(tick: nat, d: nat): (due: nat)
    requires 1 <= d < HOUR
    ensures due > tick
  {
    if d < MINUTE then tick + d else tick - tick % MINUTE + d
  }

  predicate HasDate(agenda: set<(nat, Entry)>, e: Entry) {
    exists p :: p in agenda && p.1 == e
  }

  predicate Held(s: Timers, e: Entry) {
    e in s.parked || HasDate(s.agenda, e)
  }

  /** `InsertEntry`: a delay of zero, or of 31 days and more, leaves no reference behind. */
  function Place(s: Timers, d: nat, e: Entry): Timers {
    if d == 0 then s
    else if d < HOUR then s.(agenda := s.agenda + {(DueTick(s.tick, d), e)})
    else if d / DAY <= 30 then s.(parked := s.parked + {e})
    else s
  }

  /** The destructor's effect. */
  function Fire(s: Timers, e: Entry): Timers {
    var s' := s.(log := s.log + multiset{(s.tick, e)});
    if e.period > 0 then Place(s', e.period, e) else s'
  }

  /** A reference is dropped: if it was the last one, the callback runs. */
  function Release(s: Timers, e: Entry): Timers {
    if Held(s, e) then s else Fire(s, e)
  }

  /** `AddTimer`, and `EnableCheckIdleTimeout`: insert, then drop the local reference. */
  function Add(s: Timers, d: nat, e: Entry): Timers {
    Release(Place(s, d, e), e)
  }

  /** `ExtendLife`: insert once more if the entry is still alive. */
  function Extend(s: Timers, d: nat, e: Entry): Timers {
    if Held(s, e) then Place(s, d, e) else s
  }

  /** An entry whose last date is `t`, and that nothing else holds. */
  predicate Expires(s: Timers, t: nat, e: Entry) {
    (t, e) in s.agenda && e !in s.parked && forall p :: p in s.agenda && p.1 == e ==> p.0 == t
  }

  /** One second passes: the dates of this tick go, and entries that had no other fire. */
  function Tick(s: Timers): Timers {
    var now := s.tick + 1;
    var fired := set p | p in s.agenda && Expires(s, now, p.1) :: (now, p.1);
    var again :=
      set p | p in s.agenda && Expires(s, now, p.1) && 0 < p.1.period < HOUR :: (DueTick(now, p.1.period), p.1);
    var parked := set p | p in s.agenda && Expires(s, now, p.1) && p.1.period >= HOUR :: p.1;
    Timers(now, (set p | p in s.agenda && p.0 != now) + again, s.parked + parked, s.log + multiset(fired))
  }

  // ---------------------------------------------------------------------------------------------
  // A tick, entry by entry
  // ---------------------------------------------------------------------------------------------

  /** One entry's date of this tick goes. */
  function Drop(s: Timers, e: Entry): Timers {
    Release(s.(agenda := s.agenda - {(s.tick, e)}), e)
  }

  /** `s` is what becomes of `before` in the middle of a tick, when the entries in `gone` are dealt with. */
  ghost predicate Midtick(before: Timers, gone: set<Entry>, s: Timers) {
    && s.tick == before.tick + 1
    && (forall e :: e in gone ==> (s.tick, e) in before.agenda)
    && MidAgenda(before, gone, s.agenda)
    && MidParked(before, gone, s.parked)
    && MidLog(before, gone, s.log)
  }

  /** The callback of `e` registers the timer anew, for the date `due`. */
  predicate Renewed(before: Timers, e: Entry, due: nat) {
    var now := before.tick + 1;
    Expires(before, now, e) && 0 < e.period < HOUR && due == DueTick(now, e.period)
  }

  ghost predicate MidAgenda(before: Timers, gone: set<Entry>, agenda: set<(nat, Entry)>) {
    forall p :: p in agenda <==>
      || (p in before.agenda && !(p.0 == before.tick + 1 && p.1 in gone))
      || (p.1 in gone && Renewed(before, p.1, p.0))
  }

  ghost predicate MidParked(before: Timers, gone: set<Entry>, parked: set<Entry>) {
    forall e :: e in parked <==>
      e in before.parked || (e in gone && Expires(before, before.tick + 1, e) && e.period >= HOUR)
  }

  ghost predicate MidLog(before: Timers, gone: set<Entry>, log: multiset<(nat, Entry)>) {
    var now := before.tick + 1;
    forall p :: log[p] == before.log[p] + if p.0 == now && p.1 in gone && Expires(before, now, p.1) then 1 else 0
  }

  /** Entries may be dealt with in any order. */
  lemma MidtickStep(before: Timers, gone: set<Entry>, s: Timers, e: Entry)
    requires Midtick(before, gone, s) && e !in gone && (before.tick + 1, e) in before.agenda && Sound(e)
    ensures Midtick(before, gone + {e}, Drop(s, e))
  {
    hide MidAgenda, MidParked, MidLog, Drop, Expires;
    DropIs(before, gone, s, e);
    StepAgenda(before, gone, s.agenda, e);
    StepParked(before, gone, s.parked, e);
    StepLog(before, gone, s.log, e);
  }

  function AgendaWithout(before: Timers, agenda: set<(nat, Entry)>, e: Entry): set<(nat, Entry)> {
    var now := before.tick + 1;
    var left := agenda - {(now, e)};
    if Expires(before, now, e) && 0 < e.period < HOUR then left + {(DueTick(now, e.period), e)} else left
  }

  function ParkedWith(before: Timers, parked: set<Entry>, e: Entry): set<Entry> {
    if Expires(before, before.tick + 1, e) && e.period >= HOUR then parked + {e} else parked
  }

  function LogWith(before: Timers, log: multiset<(nat, Entry)>, e: Entry): multiset<(nat, Entry)> {
    var now := before.tick + 1;
    if Expires(before, now, e) then log + multiset{(now, e)} else log
  }

  /** What dropping the date of this tick does, in terms of the state before the tick. */
  lemma DropIs(before: Timers, gone: set<Entry>, s: Timers, e: Entry)
    requires Midtick(before, gone, s) && e !in gone && (before.tick + 1, e) in before.agenda && Sound(e)
    ensures
      Drop(s, e) ==
      Timers(s.tick, AgendaWithout(before, s.agenda, e), ParkedWith(before, s.parked, e), LogWith(before, s.log, e))
  {
    hide Expires, Held, DueTick;
    var now := before.tick + 1;
    var s1 := s.(agenda := s.agenda - {(now, e)});
    forall t ensures (t, e) in s1.agenda <==> (t, e) in before.agenda && t != now {
    }
    SameHold(before, s1, now, e);
  }

  lemma StepAgenda(before: Timers, gone: set<Entry>, agenda: set<(nat, Entry)>, e: Entry)
    requires MidAgenda(before, gone, agenda) && e !in gone && (before.tick + 1, e) in before.agenda
    ensures MidAgenda(before, gone + {e}, AgendaWithout(before, agenda, e))
  {
    hide Expires, DueTick;
    forall p: (nat, Entry) ensures p == (p.0, p.1) {
    }
  }

  lemma StepParked(before: Timers, gone: set<Entry>, parked: set<Entry>, e: Entry)
    requires MidParked(before, gone, parked)
    ensures MidParked(before, gone + {e}, ParkedWith(before, parked, e))
  {
    hide Expires;
  }

  lemma StepLog(before: Timers, gone: set<Entry>, log: multiset<(nat, Entry)>, e: Entry)
    requires MidLog(before, gone, log) && e !in gone
    ensures MidLog(before, gone + {e}, LogWith(before, log, e))
  {
    hide Expires;
    forall p: (nat, Entry) ensures p == (p.0, p.1) {
    }
  }

  lemma SameHold(before: Timers, s: Timers, now: nat, e: Entry)
    requires (now, e) in before.agenda && (e in s.parked <==> e in before.parked)
    requires forall t :: (t, e) in s.agenda <==> (t, e) in before.agenda && t != now
    ensures Held(s, e) <==> !Expires(before, now, e)
  {
    if HasDate(s.agenda, e) {
      var p :| p in s.agenda && p.1 == e;
      assert (p.0, e) in before.agenda && p.0 != now;
    } else {
      forall p | p in before.agenda && p.1 == e ensures p.0 == now {
        assert p.0 != now ==> (p.0, e) in s.agenda;
      }
    }
  }

  lemma TickLog(before: Timers, p: (nat, Entry))
    ensures
      var now := before.tick + 1;
      Tick(before).log[p] == before.log[p] + if p.0 == now && Expires(before, now, p.1) then 1 else 0
  {
    var now := before.tick + 1;
    var fired := set p | p in before.agenda && Expires(before, now, p.1) :: (now, p.1);
    assert multiset(fired)[p] == if p in fired then 1 else 0;
    if p.0 == now && Expires(before, now, p.1) {
      assert (now, p.1) in before.agenda;
      assert p == (now, p.1);
    }
  }

  lemma TickParked(before: Timers, e: Entry)
    ensures e in Tick(before).parked <==>
      e in before.parked || (Expires(before, before.tick + 1, e) && e.period >= HOUR)
  {
    if Expires(before, before.tick + 1, e) {
      assert (before.tick + 1, e) in before.agenda;
    }
  }

  lemma TickAgenda(before: Timers, p: (nat, Entry))
    ensures
      var now := before.tick + 1;
      p in Tick(before).agenda <==>
        || (p in before.agenda && p.0 != now)
        || (Expires(before, now, p.1) && 0 < p.1.period < HOUR && p.0 == DueTick(now, p.1.period))
  {
    var now := before.tick + 1;
    if Expires(before, now, p.1) {
      assert (now, p.1) in before.agenda;
    }
    assert p == (p.0, p.1);
  }

  /** When every date of the tick is gone, the tick is done. */
  lemma MidtickDone(before: Timers, gone: set<Entry>, s: Timers)
    requires Midtick(before, gone, s)
    requires forall e :: (before.tick + 1, e) in before.agenda ==> e in gone
    ensures s == Tick(before)
  {
    hide MidAgenda, MidParked, MidLog;
    assert Tick(before).tick == s.tick;
    hide Tick, Expires;
    DoneAgenda(before, gone, s.agenda);
    DoneParked(before, gone, s.parked);
    DoneLog(before, gone, s.log);
  }

  ghost predicate AllGone(before: Timers, gone: set<Entry>) {
    && (forall e :: e in gone ==> (before.tick + 1, e) in before.agenda)
    && (forall e :: (before.tick + 1, e) in before.agenda ==> e in gone)
  }

  lemma ExpiringGone(before: Timers, gone: set<Entry>, e: Entry)
    requires AllGone(before, gone)
    ensures Expires(before, before.tick + 1, e) ==> e in gone
  {
  }

  lemma DoneAgenda(before: Timers, gone: set<Entry>, agenda: set<(nat, Entry)>)
    requires AllGone(before, gone) && MidAgenda(before, gone, agenda)
    ensures agenda == Tick(before).agenda
  {
    hide Tick, DueTick, Expires;
    forall p ensures p in agenda <==> p in Tick(before).agenda {
      TickAgenda(before, p);
      ExpiringGone(before, gone, p.1);
      assert p == (p.0, p.1);
    }
  }

  lemma DoneParked(before: Timers, gone: set<Entry>, parked: set<Entry>)
    requires AllGone(before, gone) && MidParked(before, gone, parked)
    ensures parked == Tick(before).parked
  {
    hide Tick, Expires;
    forall e ensures e in parked <==> e in Tick(before).parked {
      TickParked(before, e);
      ExpiringGone(before, gone, e);
    }
  }

  lemma DoneLog(before: Timers, gone: set<Entry>, log: multiset<(nat, Entry)>)
    requires AllGone(before, gone) && MidLog(before, gone, log)
    ensures log == Tick(before).log
  {
    hide Tick, Expires;
    forall p ensures log[p] == Tick(before).log[p] {
      TickLog(before, p);
      ExpiringGone(before, gone, p.1);
    }
  }

  // ---------------------------------------------------------------------------------------------
  // Runs
  // ---------------------------------------------------------------------------------------------

  datatype Op =
    | Second
    | AddTimer(d: nat, e: Entry)
    | ExtendLife(d: nat, e: Entry)

  function Step(s: Timers, op: Op): Timers {
    match op
    case Second => Tick(s)
    case AddTimer(d, e) => Add(s, d, e)
    case ExtendLife(d, e) => Extend(s, d, e)
  }

  function Run(s: Timers, ops: seq<Op>): Timers
    decreases |ops|
  {
    if |ops| == 0 then s else Step(Run(s, ops[..|ops| - 1]), ops[|ops| - 1])
  }

  /** The operation inserts `e`, unless it only extends the life of an entry that has none left. */
  predicate Touches(op: Op, e: Entry) {
    (op.AddTimer? || op.ExtendLife?) && op.e == e
  }

  function Seconds(ops: seq<Op>): nat {
    if |ops| == 0 then 0 else Seconds(ops[..|ops| - 1]) + if ops[|ops| - 1].Second? then 1 else 0
  }

  lemma TickCounts(s: Timers, ops: seq<Op>)
    ensures Run(s, ops).tick == s.tick + Seconds(ops)
    decreases |ops|
  {
    if |ops| > 0 {
      TickCounts(s, ops[..|ops| - 1]);
    }
  }

  /** Operations on other entries leave `e` alone. */
  lemma OthersApart(s: Timers, op: Op, e: Entry)
    requires !Touches(op, e) && !op.Second?
    ensures
      var s' := Step(s, op);
      && s'.tick == s.tick
      && (e in s'.parked <==> e in s.parked)
      && (forall t :: (t, e) in s'.agenda <==> (t, e) in s.agenda)
      && (forall t :: s'.log[(t, e)] == s.log[(t, e)])
  {
  }

  // ---------------------------------------------------------------------------------------------
  // One-shot timers, and timeouts that reading postpones
  // ---------------------------------------------------------------------------------------------

  /** A connection's idle watch: the tick of the last read, and when the timeout struck. */
  datatype Watch = Watch(now: nat, last: nat, struck: Option<nat>)

  /** The timeout as one would state it: it strikes once, when the last read is `limit` old. */
  function Observe(w: Watch, op: Op, limit: nat, e: Entry): Watch
    requires 1 <= limit < HOUR
  {
    match op
    case Second =>
      var now := w.now + 1;
      if w.struck.None? && now == DueTick(w.last, limit) then Watch(now, w.last, Some(now)) else w.(now := now)
    case ExtendLife(_, x) => if x == e && w.struck.None? then w.(last := w.now) else w
    case AddTimer(_, _) => w
  }

  function ObserveAll(w: Watch, ops: seq<Op>, limit: nat, e: Entry): Watch
    requires 1 <= limit < HOUR
    decreases |ops|
  {
    if |ops| == 0 then w
    else Observe(ObserveAll(w, ops[..|ops| - 1], limit, e), ops[|ops| - 1], limit, e)
  }

  /** The timers agree with the watch. */
  ghost predicate Watched(s: Timers, w: Watch, limit: nat, e: Entry)
    requires 1 <= limit < HOUR
  {
    && s.tick == w.now && w.last <= w.now && e !in s.parked && e.period == 0
    && (w.struck.None? ==>
        && w.now < DueTick(w.last, limit) && (DueTick(w.last, limit), e) in s.agenda
        && (forall t :: (t, e) in s.agenda ==> w.now < t <= DueTick(w.last, limit))
        && (forall t :: s.log[(t, e)] == 0))
    && (w.struck.Some? ==>
        && w.struck.value <= w.now
        && (forall t :: (t, e) !in s.agenda)
        && (forall t :: s.log[(t, e)] == if t == w.struck.value then 1 else 0))
  }

  /** After a tick, one-shot entries keep their later dates, and are logged if they had none. */
  lemma TickOneShot(s: Timers, e: Entry)
    requires e.period == 0
    ensures
      var s' := Tick(s);
      && (e in s'.parked <==> e in s.parked)
      && (forall t :: (t, e) in s'.agenda <==> (t, e) in s.agenda && t != s.tick + 1)
      && (forall t :: s'.log[(t, e)] == s.log[(t, e)] + if t == s.tick + 1 && Expires(s, t, e) then 1 else 0)
  {
    var now := s.tick + 1;
    var fired := set p | p in s.agenda && Expires(s, now, p.1) :: (now, p.1);
    forall t ensures Tick(s).log[(t, e)] == s.log[(t, e)] + if t == now && Expires(s, t, e) then 1 else 0 {
      assert multiset(fired)[(t, e)] == if (t, e) in fired then 1 else 0;
      if t == now && Expires(s, now, e) {
        assert (now, e) in s.agenda;
      }
    }
  }

  lemma WatchedStep(s: Timers, w: Watch, op: Op, limit: nat, e: Entry)
    requires 1 <= limit < HOUR && Watched(s, w, limit, e)
    requires Touches(op, e) ==> op == ExtendLife(limit, e)
    ensures Watched(Step(s, op), Observe(w, op, limit, e), limit, e)
  {
    match op {
      case Second =>
        TickOneShot(s, e);
        var now := s.tick + 1;
        if w.struck.None? {
          assert Expires(s, now, e) <==> now == DueTick(w.last, limit) by {
            assert (DueTick(w.last, limit), e) in s.agenda;
            forall p | p in s.agenda && p.1 == e ensures now <= p.0 <= DueTick(w.last, limit) {
              assert (p.0, e) in s.agenda;
            }
          }
        }
      case ExtendLife(d, x) =>
        if x == e {
          if w.struck.None? {
            assert (DueTick(w.last, limit), e) in s.agenda;
            assert HasDate(s.agenda, e);
          } else {
            NoDate(s.agenda, e);
          }
        } else {
          OthersApart(s, op, e);
        }
      case AddTimer(_, _) =>
        OthersApart(s, op, e);
    }
  }

  lemma NoDate(agenda: set<(nat, Entry)>, e: Entry)
    requires forall t :: (t, e) !in agenda
    ensures !HasDate(agenda, e)
  {
    forall p | p in agenda ensures p.1 != e {
      assert p == (p.0, p.1);
    }
  }

  /** Nobody has heard of `e` yet. */
  ghost predicate Fresh(s: Timers, e: Entry) {
    e !in s.parked && (forall t :: (t, e) !in s.agenda) && (forall t :: s.log[(t, e)] == 0)
  }

  /**
    Idle timeouts: an entry armed once, and extended by every read while it lives, strikes exactly when
    the watch says, once, whatever other timers do in between.
   */
  lemma {:induction false} IdleTimeout(s: Timers, limit: nat, e: Entry, ops: seq<Op>)
    requires 1 <= limit < 3600 && e.period == 0 && Fresh(s, e)
    requires forall op :: op in ops && Touches(op, e) ==> op == ExtendLife(limit, e)
    ensures Watched(Run(Add(s, limit, e), ops), ObserveAll(Watch(s.tick, s.tick, None), ops, limit, e), limit, e)
    decreases |ops|
  {
    if |ops| == 0 {
      var s' := Place(s, limit, e);
      assert (DueTick(s.tick, limit), e) in s'.agenda;
      assert HasDate(s'.agenda, e);
    } else {
      var n := |ops| - 1;
      assert ops[n] in ops;
      IdleTimeout(s, limit, e, ops[..n]);
      WatchedStep(Run(Add(s, limit, e), ops[..n]), ObserveAll(Watch(s.tick, s.tick, None), ops[..n], limit, e),
                  ops[n], limit, e);
    }
  }

  /** Without reads the watch strikes at the one date the entry was given. */
  lemma {:induction false} Untouched(now: nat, limit: nat, e: Entry, ops: seq<Op>)
    requires 1 <= limit < HOUR && forall op :: op in ops ==> !Touches(op, e)
    ensures
      var due := DueTick(now, limit);
      var later := now + Seconds(ops);
      ObserveAll(Watch(now, now, None), ops, limit, e)
      == Watch(later, now, if later >= due then Some(due) else None)
    decreases |ops|
  {
    if |ops| > 0 {
      var n := |ops| - 1;
      assert ops[n] in ops;
      Untouched(now, limit, e, ops[..n]);
    }
  }

  /**
    The firing law: a timer set at tick `t` with a delay `d` below an hour fires exactly once, at
    `t + d` if `d` is below a minute, and otherwise at `t + d` less the seconds of the running minute.
   */
  lemma FiringLaw(s: Timers, d: nat, e: Entry, ops: seq<Op>)
    requires 1 <= d < 3600 && e.period == 0 && Fresh(s, e)
    requires forall op :: op in ops ==> !Touches(op, e)
    ensures
      var due := DueTick(s.tick, d);
      var s' := Run(Add(s, d, e), ops);
      && due == (if d < 60 then s.tick + d else s.tick + d - s.tick % 60) && s.tick + d - 60 < due <= s.tick + d
      && (forall t :: s'.log[(t, e)] == if t == due && t <= s'.tick then 1 else 0)
      && (Held(s', e) <==> s'.tick < due)
  {
    IdleTimeout(s, d, e, ops);
    Untouched(s.tick, d, e, ops);
    var due := DueTick(s.tick, d);
    var s' := Run(Add(s, d, e), ops);
    if s'.tick < due {
      assert (due, e) in s'.agenda;
    } else {
      NoDate(s'.agenda, e);
    }
  }

  lemma {:induction false} RunAppend(s: Timers, a: seq<Op>, b: seq<Op>)
    ensures Run(s, a + b) == Run(Run(s, a), b)
    decreases |b|
  {
    hide Step;
    if |b| == 0 {
      assert a + b == a;
    } else {
      var n := |b| - 1;
      assert (a + b)[..|a| + n] == a + b[..n] && (a + b)[|a| + n] == b[n];
      RunAppend(s, a, b[..n]);
    }
  }

  /** From any moment at which the timers agree with the watch, they go on agreeing. */
  lemma {:induction false} WatchedRun(s: Timers, w: Watch, limit: nat, e: Entry, ops: seq<Op>)
    requires 1 <= limit < HOUR && Watched(s, w, limit, e)
    requires forall op :: op in ops && Touches(op, e) ==> op == ExtendLife(limit, e)
    ensures Watched(Run(s, ops), ObserveAll(w, ops, limit, e), limit, e)
    decreases |ops|
  {
    hide Watched, Observe, Step;
    if |ops| > 0 {
      var n := |ops| - 1;
      assert ops[n] in ops;
      WatchedRun(s, w, limit, e, ops[..n]);
      WatchedStep(Run(s, ops[..n]), ObserveAll(w, ops[..n], limit, e), ops[n], limit, e);
    }
  }

  /**
    The last read counts: while the timeout has not struck, a read postpones it to `limit` after the read
    (less the seconds of the running minute for limits from a minute on), whatever was read before; without
    further reads it strikes exactly then, once.
   */
  lemma LastReadCounts(s: Timers, limit: nat, e: Entry, before: seq<Op>, after: seq<Op>)
    requires 1 <= limit < 3600 && e.period == 0 && Fresh(s, e)
    requires forall op :: op in before && Touches(op, e) ==> op == ExtendLife(limit, e)
    requires forall op :: op in after ==> !Touches(op, e)
    requires Held(Run(Add(s, limit, e), before), e)
    ensures
      var read := Run(Add(s, limit, e), before).tick;
      var due := if limit < 60 then read + limit else read + limit - read % 60;
      var s' := Run(Add(s, limit, e), before + [ExtendLife(limit, e)] + after);
      && (forall t :: s'.log[(t, e)] == if t == due && t <= s'.tick then 1 else 0)
      && (Held(s', e) <==> s'.tick < due) && s'.tick == read + Seconds(after)
  {
    hide Run, Add, Observe, ObserveAll, DueTick, Step, Fresh;
    var s0, read := Add(s, limit, e), ExtendLife(limit, e);
    var s1 := Run(s0, before);
    var w1 := ObserveAll(Watch(s.tick, s.tick, None), before, limit, e);
    IdleTimeout(s, limit, e, before);
    StillUnstruck(s1, w1, limit, e);
    WatchedStep(s1, w1, read, limit, e);
    ReadNoted(s1, w1, limit, e);
    RunSnoc(s0, before, read);
    WatchedRun(Step(s1, read), Watch(w1.now, w1.now, None), limit, e, after);
    RunAppend(s0, before + [read], after);
    Untouched(w1.now, limit, e, after);
    Struck(Run(Step(s1, read), after), w1.now, Seconds(after), limit, e);
  }

  lemma RunSnoc(s: Timers, ops: seq<Op>, op: Op)
    ensures Run(s, ops + [op]) == Step(Run(s, ops), op)
  {
    assert (ops + [op])[..|ops|] == ops;
  }

  lemma StillUnstruck(s: Timers, w: Watch, limit: nat, e: Entry)
    requires 1 <= limit < HOUR && Watched(s, w, limit, e) && Held(s, e)
    ensures w.struck == None && w.now == s.tick
  {
    if w.struck.Some? {
      NoDate(s.agenda, e);
    }
  }

  lemma ReadNoted(s: Timers, w: Watch, limit: nat, e: Entry)
    requires 1 <= limit < HOUR && w.struck == None
    ensures Observe(w, ExtendLife(limit, e), limit, e) == Watch(w.now, w.now, None)
  {
  }

  /** What the watch says after `n` seconds without reads. */
  lemma Struck(s: Timers, read: nat, n: nat, limit: nat, e: Entry)
    requires 1 <= limit < HOUR
    requires
      var struck := if read + n >= DueTick(read, limit) then Some(DueTick(read, limit)) else None;
      Watched(s, Watch(read + n, read, struck), limit, e)
    ensures
      var due := if limit < 60 then read + limit else read + limit - read % 60;
      && s.tick == read + n
      && (forall t :: s.log[(t, e)] == if t == due && t <= s.tick then 1 else 0)
      && (Held(s, e) <==> s.tick < due)
  {
    var due := DueTick(read, limit);
    if s.tick < due {
      assert (due, e) in s.agenda;
    } else {
      NoDate(s.agenda, e);
    }
  }

  /** The delays that fire at once: none at all, and those rejected as 31 days and more. */
  lemma FiresAtOnce(s: Timers, d: nat, e: Entry)
    requires e.period == 0 && Fresh(s, e)
    ensures Add(s, d, e).log[(s.tick, e)] == 1 <==> d == 0 || d >= 2678400
  {
    NoDate(s.agenda, e);
    if d != 0 && d < HOUR {
      assert (DueTick(s.tick, d), e) in Place(s, d, e).agenda;
    }
  }

  /**
    A recurring timer's callback registers the timer anew, with nothing else holding it. That leaves a
    reference behind exactly if the delay is neither zero nor 31 days and more. If it leaves none, the
    new entry's destructor runs the callback again at once, and so on without end.
   */
  lemma RegistersAnewIff(s: Timers, d: nat, e: Entry)
    requires !Held(s, e)
    ensures Held(Place(s, d, e), e) <==> 0 < d < 2678400
  {
    if 0 < d < HOUR {
      assert (DueTick(s.tick, d), e) in Place(s, d, e).agenda;
    }
  }

  /** A tick leaves an entry of the hour and day wheels where it is. */
  lemma ParkedStays(s: Timers, e: Entry)
    requires e in s.parked
    ensures e in Tick(s).parked
    ensures forall t :: (t, e) in Tick(s).agenda <==> (t, e) in s.agenda && t != s.tick + 1
    ensures forall t :: Tick(s).log[(t, e)] == s.log[(t, e)]
  {
    hide Tick, DueTick;
    TickParked(s, e);
    forall t ensures (t, e) in Tick(s).agenda <==> (t, e) in s.agenda && t != s.tick + 1 {
      TickAgenda(s, (t, e));
    }
    forall t ensures Tick(s).log[(t, e)] == s.log[(t, e)] {
      TickLog(s, (t, e));
    }
  }

  /**
    A delay from an hour to less than 31 days is never served, be the timer recurring or not: the entry is
    kept, and never fires.
   */
  lemma {:induction false} NeverServed(s: Timers, d: nat, e: Entry, ops: seq<Op>)
    requires 3600 <= d < 2678400 && Fresh(s, e)
    requires forall op :: op in ops ==> !Touches(op, e)
    ensures
      var s' := Run(Add(s, d, e), ops);
      && e in s'.parked
      && (forall t :: (t, e) !in s'.agenda && s'.log[(t, e)] == 0)
    decreases |ops|
  {
    if |ops| > 0 {
      var n := |ops| - 1;
      assert ops[n] in ops;
      NeverServed(s, d, e, ops[..n]);
      var s' := Run(Add(s, d, e), ops[..n]);
      if ops[n].Second? {
        ParkedStays(s', e);
      } else {
        OthersApart(s', ops[n], e);
      }
    }
  }

  // ---------------------------------------------------------------------------------------------
  // Recurring timers
  // ---------------------------------------------------------------------------------------------

  /** The distance between two callbacks of a recurring timer: its period, in whole minutes from 60 on. */
  function Gap(period: nat): (gap: nat)
    requires 1 <= period < HOUR
    ensures gap > 0
  {
    if period < MINUTE then period else period - period % MINUTE
  }

  /** The first `k` dates of an arithmetic progression. */
  function Dates(first: nat, gap: nat, k: nat): (dates: set<nat>)
    ensures forall t :: t in dates ==> t < first + k * gap || gap == 0
  {
    if k == 0 then {}
    else
      MulSucc(k - 1, gap);
      Dates(first, gap, k - 1) + {first + (k - 1) * gap}
  }

  /** How many of the dates have come by tick `now`. */
  function Passed(first: nat, gap: nat, now: nat): nat
    requires gap > 0
  {
    if now < first then 0 else (now - first) / gap + 1
  }

  /** `e` has fired at the first `k` dates, and the next one is its only date. */
  ghost predicate Recurs(s: Timers, first: nat, gap: nat, k: nat, e: Entry) {
    && e !in s.parked
    && (forall t :: (t, e) in s.agenda <==> t == first + k * gap)
    && (forall t :: s.log[(t, e)] == if t in Dates(first, gap, k) then 1 else 0)
    && s.tick < first + k * gap
  }

  lemma WholeMinutes(a: nat, b: nat)
    requires b % MINUTE == 0
    ensures (a + b) % MINUTE == a % MINUTE
  {
  }

  /** All dates of a recurring timer with a period above a minute fall on the same second of a minute. */
  lemma {:induction false} SameSecond(start: nat, period: nat, k: nat)
    requires MINUTE <= period < HOUR
    ensures (DueTick(start, period) + k * Gap(period)) % MINUTE == period % MINUTE
  {
    var first, gap := DueTick(start, period), Gap(period);
    if k == 0 {
      assert first == start / MINUTE * MINUTE + period / MINUTE * MINUTE + period % MINUTE;
    } else {
      SameSecond(start, period, k - 1);
      MulSucc(k - 1, gap);
      WholeMinutes(first + (k - 1) * gap, gap);
    }
  }

  /** The date after the one at which a recurring timer fires. */
  lemma NextDate(start: nat, period: nat, k: nat)
    requires 1 <= period < HOUR
    ensures DueTick(DueTick(start, period) + k * Gap(period), period) == DueTick(start, period) + (k + 1) * Gap(period)
  {
    var gap := Gap(period);
    MulSucc(k, gap);
    if period >= MINUTE {
      SameSecond(start, period, k);
    }
  }

  /** A tick for a recurring entry with the single date `due`. */
  lemma TickRecurring(s: Timers, due: nat, e: Entry)
    requires 1 <= e.period < HOUR && e !in s.parked && s.tick < due
    requires forall t :: (t, e) in s.agenda <==> t == due
    ensures
      var s' := Tick(s);
      var now := s.tick + 1;
      && e !in s'.parked
      && (forall t :: (t, e) in s'.agenda <==> t == if now == due then DueTick(due, e.period) else due)
      && (forall t :: s'.log[(t, e)] == s.log[(t, e)] + if t == now == due then 1 else 0)
  {
    hide DueTick;
    var now := s.tick + 1;
    var s' := Tick(s);
    assert (due, e) in s.agenda;
    assert Expires(s, now, e) <==> now == due;
    var fired := set p | p in s.agenda && Expires(s, now, p.1) :: (now, p.1);
    forall t ensures s'.log[(t, e)] == s.log[(t, e)] + if t == now == due then 1 else 0 {
      assert multiset(fired)[(t, e)] == if (t, e) in fired then 1 else 0;
    }
  }

  lemma RecursTick(s: Timers, start: nat, k: nat, e: Entry)
    requires 1 <= e.period < HOUR && Recurs(s, DueTick(start, e.period), Gap(e.period), k, e)
    ensures
      var first, gap := DueTick(start, e.period), Gap(e.period);
      Recurs(Tick(s), first, gap, if s.tick + 1 == first + k * gap then k + 1 else k, e)
  {
    hide DueTick, Gap, Tick;
    var first, gap := DueTick(start, e.period), Gap(e.period);
    TickAdvances(s);
    TickRecurring(s, first + k * gap, e);
    NextDate(start, e.period, k);
    MulSucc(k, gap);
  }

  lemma RecursOther(s: Timers, op: Op, first: nat, gap: nat, k: nat, e: Entry)
    requires Recurs(s, first, gap, k, e) && !Touches(op, e) && !op.Second?
    ensures Recurs(Step(s, op), first, gap, k, e)
  {
    OthersApart(s, op, e);
  }

  /** The number of dates passed steps exactly when the next date comes. */
  lemma PassedStep(first: nat, gap: nat, now: nat)
    requires gap > 0
    ensures now < first + Passed(first, gap, now) * gap
    ensures
      var k := Passed(first, gap, now);
      Passed(first, gap, now + 1) == if now + 1 == first + k * gap then k + 1 else k
  {
    if now >= first {
      DivSucc(now - first, gap);
      MulSucc((now - first) / gap, gap);
    } else {
      Quotient(0, gap, 0, 0);
    }
  }

  /**
    Recurring timers: one set at tick `t` with period `p` has, at every later tick, fired once at each
    date from the first on that has passed, and at no other. The dates are `Gap(p)` apart, which is `p`
    only if `p` is below a minute or a whole number of minutes.
   */
  lemma {:induction false} RecurringLaw(s: Timers, e: Entry, ops: seq<Op>)
    requires 1 <= e.period < 3600 && Fresh(s, e)
    requires forall op :: op in ops ==> !Touches(op, e)
    ensures
      var first, gap := DueTick(s.tick, e.period), Gap(e.period);
      var s' := Run(Add(s, e.period, e), ops);
      Recurs(s', first, gap, Passed(first, gap, s'.tick), e)
    decreases |ops|
  {
    var first, gap := DueTick(s.tick, e.period), Gap(e.period);
    if |ops| == 0 {
      RecursFirst(s, e);
    } else {
      hide Recurs, Passed, Add, DueTick, Gap, Step;
      var n := |ops| - 1;
      assert ops[n] in ops;
      RecurringLaw(s, e, ops[..n]);
      RecurringStep(Run(Add(s, e.period, e), ops[..n]), s.tick, ops[n], e);
    }
  }

  lemma RecurringStep(s: Timers, start: nat, op: Op, e: Entry)
    requires 1 <= e.period < HOUR && !Touches(op, e)
    requires
      var first, gap := DueTick(start, e.period), Gap(e.period);
      Recurs(s, first, gap, Passed(first, gap, s.tick), e)
    ensures
      var first, gap, s' := DueTick(start, e.period), Gap(e.period), Step(s, op);
      Recurs(s', first, gap, Passed(first, gap, s'.tick), e)
  {
    hide Recurs, Passed, Add, DueTick, Gap, Tick, Extend;
    var first, gap := DueTick(start, e.period), Gap(e.period);
    PassedStep(first, gap, s.tick);
    if op.Second? {
      RecursTick(s, start, Passed(first, gap, s.tick), e);
      TickAdvances(s);
    } else {
      OthersApart(s, op, e);
      RecursOther(s, op, first, gap, Passed(first, gap, s.tick), e);
    }
  }

  lemma TickAdvances(s: Timers)
    ensures Tick(s).tick == s.tick + 1
  {
  }

  lemma RecursFirst(s: Timers, e: Entry)
    requires 1 <= e.period < HOUR && Fresh(s, e)
    ensures
      var first, gap := DueTick(s.tick, e.period), Gap(e.period);
      Recurs(Add(s, e.period, e), first, gap, Passed(first, gap, s.tick), e)
  {
    var first, gap := DueTick(s.tick, e.period), Gap(e.period);
    assert (first, e) in Place(s, e.period, e).agenda;
    assert Dates(first, gap, 0) == {};
  }

  /** `k` dates of a progression are `k` different ticks. */
  lemma {:induction false} DatesCount(first: nat, gap: nat, k: nat)
    requires gap > 0
    ensures |Dates(first, gap, k)| == k
  {
    if k > 0 {
      DatesCount(first, gap, k - 1);
    }
  }

  /** Below a minute, exactly `n / period` dates have come after `n` seconds. */
  lemma PassedCount(start: nat, period: nat, n: nat)
    requires 1 <= period < MINUTE
    ensures Passed(DueTick(start, period), Gap(period), start + n) == n / period
  {
    if n >= period {
      DivStep(n, period);
    } else {
      Quotient(n, period, 0, n);
    }
  }

  /**
    A recurring timer with a period below a minute: whatever happens to other timers, after `n` seconds
    its callback has run at exactly `n / period` ticks, once at each of them.
   */
  lemma FiredCount(s: Timers, e: Entry, ops: seq<Op>) returns (dates: set<nat>)
    requires 1 <= e.period < 60 && Fresh(s, e)
    requires forall op :: op in ops ==> !Touches(op, e)
    ensures |dates| == Seconds(ops) / e.period
    ensures forall t :: Run(Add(s, e.period, e), ops).log[(t, e)] == if t in dates then 1 else 0
  {
    hide DueTick, Gap, Passed, Add, Run, Dates;
    var first, gap, n := DueTick(s.tick, e.period), Gap(e.period), Seconds(ops);
    RecurringLaw(s, e, ops);
    TickCounts(Add(s, e.period, e), ops);
    AddKeepsTick(s, e.period, e);
    PassedCount(s.tick, e.period, n);
    DatesCount(first, gap, n / e.period);
    dates := Dates(first, gap, n / e.period);
  }

  lemma AddKeepsTick(s: Timers, d: nat, e: Entry)
    ensures Add(s, d, e).tick == s.tick
  {
  }

  /** The dates are the multiples of the gap, counted from the first one. */
  lemma {:induction false} WhichDate(first: nat, gap: nat, k: nat, t: nat) returns (i: nat)
    requires t in Dates(first, gap, k)
    ensures i < k && t == first + i * gap
  {
    if t == first + (k - 1) * gap {
      i := k - 1;
    } else {
      i := WhichDate(first, gap, k - 1, t);
    }
  }

  lemma {:induction false} DateIn(first: nat, gap: nat, k: nat, i: nat)
    requires i < k
    ensures first + i * gap in Dates(first, gap, k)
  {
    if i < k - 1 {
      DateIn(first, gap, k - 1, i);
    }
  }

  /** With a period below a minute the callback runs at the multiples of the period, and only there. */
  lemma FiresAtMultiples(s: Timers, e: Entry, ops: seq<Op>, t: nat)
    requires 1 <= e.period < 60 && Fresh(s, e)
    requires forall op :: op in ops ==> !Touches(op, e)
    ensures
      Run(Add(s, e.period, e), ops).log[(t, e)] ==
      if s.tick < t <= s.tick + Seconds(ops) && (t - s.tick) % e.period == 0 then 1 else 0
  {
    hide Passed, Add, Run, Dates;
    var first, n := s.tick + e.period, Seconds(ops);
    RecurringLaw(s, e, ops);
    TickCounts(Add(s, e.period, e), ops);
    AddKeepsTick(s, e.period, e);
    PassedCount(s.tick, e.period, n);
    var k := n / e.period;
    if t in Dates(first, e.period, k) {
      var i := WhichDate(first, e.period, k, t);
      MulSucc(i, e.period);
      Remainder(t - s.tick, e.period, i + 1, 0);
      QuotientBound(n, e.period, i + 1);
    } else if s.tick < t <= s.tick + n && (t - s.tick) % e.period == 0 {
      var i := (t - s.tick) / e.period - 1;
      WholeQuotient(t - s.tick, e.period);
      MulSucc(i, e.period);
      QuotientBound(n, e.period, i + 1);
      DateIn(first, e.period, k, i);
    }
  }

  lemma WholeQuotient(a: nat, c: nat)
    requires 0 < a && c > 0 && a % c == 0
    ensures a == a / c * c && a / c > 0
  {
    assert a == c * (a / c) + a % c;
  }

  lemma QuotientBound(n: nat, c: nat, q: nat)
    requires c > 0
    ensures q * c <= n <==> q <= n / c
  {
    assert n == c * (n / c) + n % c;
    if q < n / c {
      MulLess(q, n / c, c);
    } else if q > n / c {
      MulSucc(n / c, c);
      if q > n / c + 1 {
        MulLess(n / c + 1, q, c);
      }
    }
  }

  /** Two callbacks of a recurring timer in a row, with none in between. */
  ghost predicate InARow(s: Timers, e: Entry, t1: nat, t2: nat) {
    t1 < t2 && s.log[(t1, e)] > 0 && s.log[(t2, e)] > 0 && forall t :: t1 < t < t2 ==> s.log[(t, e)] == 0
  }

  lemma OneGapApart(s: Timers, e: Entry, ops: seq<Op>, t1: nat, t2: nat)
    requires 1 <= e.period < HOUR && Fresh(s, e)
    requires forall op :: op in ops ==> !Touches(op, e)
    requires InARow(Run(Add(s, e.period, e), ops), e, t1, t2)
    ensures t2 - t1 == Gap(e.period)
  {
    hide DueTick, Gap, Passed, Add, Run, Dates;
    var first, gap := DueTick(s.tick, e.period), Gap(e.period);
    var s' := Run(Add(s, e.period, e), ops);
    var k := Passed(first, gap, s'.tick);
    RecurringLaw(s, e, ops);
    var i := WhichDate(first, gap, k, t1);
    var j := WhichDate(first, gap, k, t2);
    Spacing(i, j, gap);
    if j > i + 1 {
      DateIn(first, gap, k, i + 1);
    }
  }

  /** In every run, callbacks in a row are the period apart, less the seconds in it from a minute on. */
  lemma CallbacksApart(s: Timers, e: Entry, ops: seq<Op>, t1: nat, t2: nat)
    requires 1 <= e.period < 3600 && Fresh(s, e)
    requires forall op :: op in ops ==> !Touches(op, e)
    requires InARow(Run(Add(s, e.period, e), ops), e, t1, t2)
    ensures t2 - t1 == if e.period < 60 then e.period else e.period - e.period % 60
  {
    hide Run, Add, InARow, Fresh;
    OneGapApart(s, e, ops, t1, t2);
  }

  lemma Spacing(i: nat, j: nat, gap: nat)
    requires gap > 0 && i * gap < j * gap
    ensures i < j && (i + 1) * gap == i * gap + gap
    ensures j > i + 1 ==> (i + 1) * gap < j * gap
  {
    MulSucc(i, gap);
    if j < i {
      MulLess(j, i, gap);
    } else if j > i + 1 {
      MulLess(i + 1, j, gap);
    }
  }

  /**
    A recurring timer keeps its period exactly when that is below a minute or a whole number of minutes:
    then, and only then, callbacks in a row are `e.period` ticks apart, in every run.
   */
  lemma PeriodKept(s: Timers, e: Entry, ops: seq<Op>, t1: nat, t2: nat)
    requires 1 <= e.period < 3600 && Fresh(s, e)
    requires forall op :: op in ops ==> !Touches(op, e)
    requires InARow(Run(Add(s, e.period, e), ops), e, t1, t2)
    ensures t2 - t1 == e.period <==> e.period < 60 || e.period % 60 == 0
  {
    CallbacksApart(s, e, ops, t1, t2);
  }

  // ---------------------------------------------------------------------------------------------
  // The clock
  // ---------------------------------------------------------------------------------------------

  /** The last reading that counted, zero before the first, and the seconds counted. */
  datatype Clock = Clock(lastTs: int, ticks: nat)

  /** A clock reading in milliseconds counts as one second if it is that far from the last that counted. */
  function ReadClock(c: Clock, now: int): Clock {
    var start := if c.lastTs == 0 then now else c.lastTs;
    if now - start < 1000 then Clock(start, c.ticks) else Clock(now, c.ticks + 1)
  }

  function ReadAll(readings: seq<int>): Clock {
    if |readings| == 0 then Clock(0, 0) else ReadClock(ReadAll(readings[..|readings| - 1]), readings[|readings| - 1])
  }

  function FirstNonZero(readings: seq<int>): int {
    if |readings| == 0 then 0 else if readings[0] != 0 then readings[0] else FirstNonZero(readings[1..])
  }

  lemma {:induction false} FirstNonZeroSnoc(readings: seq<int>, now: int)
    ensures
      FirstNonZero(readings + [now])
      == if FirstNonZero(readings) != 0 then FirstNonZero(readings) else now
  {
    if |readings| > 0 {
      assert (readings + [now])[1..] == readings[1..] + [now];
      FirstNonZeroSnoc(readings[1..], now);
    } else {
      assert readings + [now] == [now];
    }
  }

  /**
    Where a reading of zero is directly followed by a negative one, the first reading other than zero was
    above -1000, or there was none yet.
   */
  predicate ZeroNotCrossed(readings: seq<int>) {
    forall i :: 0 < i < |readings| && readings[i - 1] == 0 > readings[i] ==> FirstNonZero(readings[..i]) > -1000
  }

  /** The wheel forgets its last reading only on a reading of zero. */
  lemma ForgetsAtZero(readings: seq<int>)
    requires |readings| > 0 && ReadAll(readings).lastTs == 0
    ensures readings[|readings| - 1] == 0
  {
  }

  /** `c` is not ahead of `last`, counted from the first reading that was not zero. */
  predicate NotAhead(c: Clock, readings: seq<int>) {
    var first := FirstNonZero(readings);
    if first == 0 then c == Clock(0, 0)
    else c.lastTs in readings && 1000 * c.ticks <= c.lastTs - first && (c.ticks == 0 ==> c.lastTs == first)
  }

  /**
    Ticks never run ahead of the clock, whatever it reads and whichever way it goes, unless it starts at
    -1000 or below and falls below zero right after reading zero: 1000 times the ticks is at most the last
    reading that counted less the first reading other than zero.
   */
  lemma {:induction false} NeverAhead(readings: seq<int>)
    requires ZeroNotCrossed(readings)
    ensures NotAhead(ReadAll(readings), readings)
  {
    if |readings| > 0 {
      var n := |readings| - 1;
      ShorterNotCrossed(readings, n);
      NeverAhead(readings[..n]);
      assert readings == readings[..n] + [readings[n]];
      FirstNonZeroSnoc(readings[..n], readings[n]);
      if n > 0 && ReadAll(readings[..n]).lastTs == 0 {
        ForgetsAtZero(readings[..n]);
        assert readings[n - 1] == 0;
      }
      hide ZeroNotCrossed, FirstNonZero;
      assert readings[n] in readings;
    }
  }

  lemma ShorterNotCrossed(readings: seq<int>, n: nat)
    requires ZeroNotCrossed(readings) && n <= |readings|
    ensures ZeroNotCrossed(readings[..n])
    ensures 0 < n < |readings| && readings[n - 1] == 0 > readings[n] ==> FirstNonZero(readings[..n]) > -1000
  {
    hide FirstNonZero;
    forall i | 0 < i < n && readings[..n][i - 1] == 0 > readings[..n][i]
      ensures FirstNonZero(readings[..n][..i]) > -1000
    {
      assert readings[..n][..i] == readings[..i];
      assert readings[i - 1] == 0 > readings[i];
    }
  }

  /** A clock that falls from zero to -1000 again and again. */
  function Zigzag(first: int, k: nat): seq<int> {
    if k == 0 then [first] else Zigzag(first, k - 1) + [0, -1000]
  }

  lemma {:induction false} ZigzagTicks(first: int, k: nat)
    requires first <= -1000
    ensures ReadAll(Zigzag(first, k)) == Clock(if k == 0 then first else -1000, k)
    ensures FirstNonZero(Zigzag(first, k)) == first && forall r :: r in Zigzag(first, k) ==> r <= 0
  {
    if k == 0 {
      assert [first][..0] == [];
    } else {
      ZigzagTicks(first, k - 1);
      hide ReadAll, FirstNonZero;
      TwoReadings(Zigzag(first, k - 1), 0, -1000);
    }
  }

  lemma TwoReadings(before: seq<int>, a: int, b: int)
    ensures ReadAll(before + [a, b]) == ReadClock(ReadClock(ReadAll(before), a), b)
    ensures FirstNonZero(before) != 0 ==> FirstNonZero(before + [a, b]) == FirstNonZero(before)
  {
    hide ReadClock, FirstNonZero;
    var readings := before + [a, b];
    assert readings[..|readings| - 1] == before + [a] && (before + [a])[..|before|] == before;
    assert readings == before + [a] + [b];
    FirstNonZeroSnoc(before, a);
    FirstNonZeroSnoc(before + [a], b);
  }

  /**
    The condition is needed from wherever the clock starts: with any first reading of -1000 or below, a
    clock that keeps crossing zero makes the ticks run ahead of every reading.
   */
  lemma AheadFromAnywhere(first: int)
    requires first <= -1000
    ensures
      var readings := Zigzag(first, -first / 1000 + 1);
      forall r :: r in readings ==> 1000 * ReadAll(readings).ticks > r - FirstNonZero(readings)
  {
    hide Zigzag;
    ZigzagTicks(first, -first / 1000 + 1);
  }

  /**
    One crossing is enough, to any negative reading `b`: zero makes the wheel forget its last reading, a
    second is counted twice, and no reading is that far from the first.
   */
  lemma AheadAcrossZero(b: int)
    requires b < 0
    ensures
      var readings := [-1000, 0, b, b + 1000];
      forall r :: r in readings ==> 1000 * ReadAll(readings).ticks > r - FirstNonZero(readings)
  {
    var readings := [-1000, 0, b, b + 1000];
    assert readings[..3] == [-1000, 0, b] && readings[..3][..2] == [-1000, 0];
    assert [-1000, 0][..1] == [-1000] && [-1000][..0] == [];
    assert ReadAll([-1000]) == Clock(-1000, 0);
    assert ReadAll([-1000, 0]) == Clock(0, 1);
    assert ReadAll([-1000, 0, b]) == Clock(b, 1);
  }
}
