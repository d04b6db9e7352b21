/**
  The hierarchical timing wheel: 60 second slots and 60 minute slots that turn, 24 hour slots and 30 day
  slots that do not. A slot holds references; dropping the last reference to an entry runs its callback.
 */
module TimingWheels {
  import opened Agenda
  import opened Arithmetic

  /** A reference in a slot: to a timed entry, or to a wrapper that will insert the entry later. */
  datatype Ref = Direct(e: Entry) | Wrapped(second: nat, e: Entry)

  type Slots = seq<set<Ref>>

  predicate Holds(slot: set<Ref>, e: Entry) {
    exists r :: r in slot && r.e == e
  }

  predicate AnyHolds(slots: Slots, e: Entry) {
    exists i | 0 <= i < |slots| :: Holds(slots[i], e)
  }

  lemma HoldsAfterInsert(slots: Slots, i: nat, r: Ref, e: Entry)
    requires i < |slots|
    ensures AnyHolds(slots[i := slots[i] + {r}], e) <==> AnyHolds(slots, e) || e == r.e
  {
    var slots' := slots[i := slots[i] + {r}];
    if AnyHolds(slots, e) {
      var j :| 0 <= j < |slots| && Holds(slots[j], e);
      var x: Ref :| x in slots[j] && x.e == e;
      assert x in slots'[j];
      assert Holds(slots'[j], e);
    }
    if e == r.e {
      assert r in slots'[i];
      assert Holds(slots'[i], e);
    }
    if AnyHolds(slots', e) {
      var j :| 0 <= j < |slots'| && Holds(slots'[j], e);
      var x: Ref :| x in slots'[j] && x.e == e;
      if x in slots[j] {
        assert Holds(slots[j], e);
      }
    }
  }

  /** A timer that recurs every 60 seconds or more keeps to one second of the minute. */
  predicate InPhase(e: Entry, due: nat) {
    e.period < MINUTE || (e.period < HOUR && e.period % 60 == due % 60 != 0)
  }

  /** What a minute slot holds: a wrapper with less than a minute to go. */
  predicate MinuteRef(r: Ref) {
    r.Wrapped? && r.second < 60 && (r.e.period == 0 || (MINUTE <= r.e.period < HOUR && r.second == r.e.period % 60))
  }

  class TimingWheel {
    var seconds: Slots
    var minutes: Slots
    var hours: Slots
    var days: Slots
    var lastTs: int
    var tick: nat

    /** The slot taken out by `PopUp`, while its references are being dropped. */
    var dying: set<Ref>
    /** The callbacks run so far, with the tick at which each ran. */
    var fired: seq<(nat, Entry)>

    /** How often the minute wheel has turned. */
    ghost var minuteTurns: nat
    ghost var agenda: set<(nat, Entry)>
    ghost var parked: set<Entry>

    /** Some reference keeps `e` alive until tick `t`. */
    ghost predicate DueAt(t: nat, e: Entry)
      requires |seconds| == 60 && |minutes| == 60
      reads `seconds, `minutes, `tick, `dying, `minuteTurns
    {
      || (tick < t <= tick + 60 && Direct(e) in seconds[t - tick - 1])
      || (minuteTurns < t / 60 <= minuteTurns + 60 && Wrapped(t % 60, e) in minutes[t / 60 - minuteTurns - 1])
      || (t == tick && Direct(e) in dying)
      || (tick <= t && Wrapped(t - tick, e) in dying)
    }

    predicate Sizes()
      reads `seconds, `minutes, `hours, `days
    {
      |seconds| == 60 && |minutes| == 60 && |hours| == 24 && |days| == 30
    }

    /** Second slots hold entries, minute slots wrappers with less than a minute to go. */
    ghost predicate Kinds()
      requires Sizes()
      reads `seconds, `minutes, `hours, `days, `tick, `dying, `minuteTurns
    {
      && (forall i, r :: 0 <= i < 60 && r in seconds[i] ==> r.Direct? && InPhase(r.e, tick + i + 1))
      && (forall i, r :: 0 <= i < 60 && r in minutes[i] ==> MinuteRef(r))
      && (forall r :: r in dying ==>
            if r.Direct? then InPhase(r.e, tick)
            else MinuteRef(r) && minuteTurns == tick / 60 && tick % 60 == 0)
    }

    ghost predicate Invariant()
      reads `seconds, `minutes, `hours, `days, `tick, `dying, `minuteTurns, `agenda, `parked
    {
      && Sizes() && Kinds()
      && (forall t: nat, e :: (t, e) in agenda <==> DueAt(t, e))
      && (forall e :: e in parked <==> AnyHolds(hours, e) || AnyHolds(days, e))
      && (forall p :: p in agenda ==> Sound(p.1))
    }

    /** Between two calls: no slot is being dropped, and the minute wheel has kept up. */
    ghost predicate Valid()
      reads this
    {
      Invariant() && dying == {} && minuteTurns == tick / 60
    }

    ghost function State(): Timers
      reads this
    {
      Timers(tick, agenda, parked, multiset(fired))
    }

    constructor ()
      ensures Valid() && State() == Timers(0, {}, {}, multiset{}) && lastTs == 0
    {
      seconds := seq(60, _ => {});
      minutes := seq(60, _ => {});
      hours := seq(24, _ => {});
      days := seq(30, _ => {});
      lastTs, tick, dying, fired := 0, 0, {}, [];
      minuteTurns, agenda, parked := 0, {}, {};
    }

    /** What the reference count tells the source: does anything still refer to `e`? */
    predicate IsHeld(e: Entry)
      reads this
    {
      AnyHolds(seconds, e) || AnyHolds(minutes, e) || AnyHolds(hours, e) || AnyHolds(days, e) || Holds(dying, e)
    }

    lemma HeldIff(e: Entry)
      requires Invariant()
      ensures IsHeld(e) <==> Held(State(), e)
    {
      if IsHeld(e) && e !in parked {
        var t := DateOf(e);
        assert (t, e) in agenda;
      }
      if HasDate(agenda, e) {
        var p :| p in agenda && p.1 == e;
        assert p == (p.0, e);
        DateHolds(p.0, e);
      }
    }

    /** A date of an entry that some turning slot, or the dying one, refers to. */
    lemma DateOf(e: Entry) returns (t: nat)
      requires Invariant() && (AnyHolds(seconds, e) || AnyHolds(minutes, e) || Holds(dying, e))
      ensures DueAt(t, e)
    {
      if i :| 0 <= i < |seconds| && Holds(seconds[i], e) {
        var r :| r in seconds[i] && r.e == e;
        t := tick + i + 1;
      } else if i :| 0 <= i < |minutes| && Holds(minutes[i], e) {
        var r :| r in minutes[i] && r.e == e;
        assert MinuteRef(r);
        t := 60 * (minuteTurns + i + 1) + r.second;
        assert t / 60 == minuteTurns + i + 1 && t % 60 == r.second;
      } else {
        var r :| r in dying && r.e == e;
        t := if r.Direct? then tick else tick + r.second;
      }
    }

    lemma DateHolds(t: nat, e: Entry)
      requires Invariant() && DueAt(t, e)
      ensures IsHeld(e)
    {
      if tick < t <= tick + 60 && Direct(e) in seconds[t - tick - 1] {
        assert Direct(e).e == e;
        assert Holds(seconds[t - tick - 1], e);
      } else if minuteTurns < t / 60 <= minuteTurns + 60 && Wrapped(t % 60, e) in minutes[t / 60 - minuteTurns - 1] {
        assert Wrapped(t % 60, e).e == e;
        assert Holds(minutes[t / 60 - minuteTurns - 1], e);
      } else if t == tick && Direct(e) in dying {
        assert Direct(e).e == e;
      } else {
        assert Wrapped(t - tick, e).e == e;
      }
    }

    // -------------------------------------------------------------------------------------------
    // Inserting
    // -------------------------------------------------------------------------------------------

    /** A recurring timer may only be inserted with its own period, or what is left of it. */
    predicate Fits(d: nat, e: Entry)
      reads this
    {
      && Sound(e)
      && (1 <= d < MINUTE ==> InPhase(e, tick + d))
      && (MINUTE <= d < HOUR ==> e.period == 0 || (MINUTE <= e.period < HOUR && e.period % 60 == d % 60))
    }

    method InsertSecondEntry(d: nat, e: Entry)
      requires Invariant() && 1 <= d < MINUTE && Fits(d, e)
      modifies `seconds, `agenda
      ensures Invariant() && agenda == old(agenda) + {(tick + d, e)}
    {
      hide AnyHolds, InPhase;
      seconds := seconds[d - 1 := seconds[d - 1] + {Direct(e)}];
      agenda := agenda + {(tick + d, e)};
      forall t: nat, x ensures (t, x) in agenda <==> DueAt(t, x) {
        assert DueAt(t, x) <==> old(DueAt(t, x)) || (t == tick + d && x == e);
      }
    }

    method InsertMinuteEntry(d: nat, e: Entry)
      requires Invariant() && MINUTE <= d < HOUR && Fits(d, e)
      modifies `minutes, `agenda
      ensures Invariant() && agenda == old(agenda) + {(60 * (minuteTurns + d / 60) + d % 60, e)}
    {
      var minute := d / MINUTE;
      var second := d % MINUTE;
      minutes := minutes[minute - 1 := minutes[minute - 1] + {Wrapped(second, e)}];
      ghost var due := 60 * (minuteTurns + minute) + second;
      assert due / 60 == minuteTurns + minute && due % 60 == second;
      agenda := agenda + {(due, e)};
      forall t: nat, x ensures (t, x) in agenda <==> DueAt(t, x) {
        assert t == 60 * (t / 60) + t % 60;
        assert DueAt(t, x) <==> old(DueAt(t, x)) || (t == due && x == e);
      }
    }

    method InsertHourEntry(d: nat, e: Entry)
      requires Invariant() && HOUR <= d < DAY
      modifies `hours, `parked
      ensures Invariant() && parked == old(parked) + {e}
    {
      var hour := d / HOUR;
      var second := d % HOUR;
      forall x
        ensures AnyHolds(hours[hour - 1 := hours[hour - 1] + {Wrapped(second, e)}], x) <==> AnyHolds(hours, x) || x == e
      {
        HoldsAfterInsert(hours, hour - 1, Wrapped(second, e), x);
      }
      hours := hours[hour - 1 := hours[hour - 1] + {Wrapped(second, e)}];
      parked := parked + {e};
    }

    method InsertDayEntry(d: nat, e: Entry)
      requires Invariant() && d >= DAY && d / DAY <= 30
      modifies `days, `parked
      ensures Invariant() && parked == old(parked) + {e}
    {
      var day := d / DAY;
      var second := d % DAY;
      forall x
        ensures AnyHolds(days[day - 1 := days[day - 1] + {Wrapped(second, e)}], x) <==> AnyHolds(days, x) || x == e
      {
        HoldsAfterInsert(days, day - 1, Wrapped(second, e), x);
      }
      days := days[day - 1 := days[day - 1] + {Wrapped(second, e)}];
      parked := parked + {e};
    }

    /** Inserting gives the entry the date the agenda says, provided the minute wheel has kept up. */
    method InsertEntry(delay: nat, e: Entry)
      requires Invariant() && Fits(delay, e)
      requires MINUTE <= delay < HOUR ==> minuteTurns == tick / 60
      modifies `seconds, `minutes, `hours, `days, `agenda, `parked
      ensures Invariant() && State() == Place(old(State()), delay, e)
    {
      hide Invariant, Fits;
      if delay <= 0 {
        // The parameter is reset: nothing keeps the entry.
      } else if delay < MINUTE {
        InsertSecondEntry(delay, e);
      } else if delay < HOUR {
        InsertMinuteEntry(delay, e);
      } else if delay < DAY {
        InsertHourEntry(delay, e);
      } else {
        var day := delay / DAY;
        if day > 30 {
          return;
        }
        InsertDayEntry(delay, e);
      }
    }

    // -------------------------------------------------------------------------------------------
    // Dropping references
    // -------------------------------------------------------------------------------------------

    /** The callback of a recurring timer can register it anew right now. */
    predicate Renewable(e: Entry)
      reads this
    {
      e.period > 0 ==> Fits(e.period, e)
    }

    /** A reference to `e` goes away; the destructor runs if it was the last one. */
    method Release(e: Entry)
      requires Invariant() && Sound(e)
      requires !Held(State(), e) ==> Renewable(e) && (MINUTE <= e.period < HOUR ==> minuteTurns == tick / 60)
      modifies `seconds, `minutes, `hours, `days, `agenda, `parked, `fired
      ensures Invariant() && State() == Agenda.Release(old(State()), e)
    {
      HeldIff(e);
      if !IsHeld(e) {
        hide HasDate, DueAt, Kinds, AnyHolds, Place;
        RunCallback(e);
        if e.period > 0 {
          InsertEntry(e.period, e);
        }
      }
    }

    method RunCallback(e: Entry)
      requires Invariant()
      modifies `fired
      ensures Invariant() && fired == old(fired) + [(tick, e)]
    {
      fired := fired + [(tick, e)];
    }

    /** `AddTimer`: a new entry is inserted, and the local reference to it dropped. */
    method AddTimer(delay: nat, e: Entry)
      requires Valid() && Sound(e) && (e.period > 0 ==> delay == e.period)
      modifies `seconds, `minutes, `hours, `days, `agenda, `parked, `fired
      ensures Valid() && State() == Add(old(State()), delay, e)
    {
      hide Invariant, Place, HasDate;
      FreshFits(delay, e);
      InsertEntry(delay, e);
      FreshFits(delay, e);
      Release(e);
    }

    lemma FreshFits(delay: nat, e: Entry)
      requires Sound(e) && (e.period > 0 ==> delay == e.period)
      ensures Fits(delay, e) && Renewable(e)
    {
    }

    /** `ExtendLife`: a further reference for an entry that is still alive. */
    method ExtendLife(limit: nat, e: Entry)
      requires Valid() && e.period == 0
      modifies `seconds, `minutes, `hours, `days, `agenda, `parked
      ensures Valid() && State() == Extend(old(State()), limit, e)
    {
      HeldIff(e);
      hide Invariant, Place, HasDate;
      if IsHeld(e) {
        FreshFits(limit, e);
        InsertEntry(limit, e);
      }
    }

    // -------------------------------------------------------------------------------------------
    // Turning the wheels
    // -------------------------------------------------------------------------------------------

    ghost predicate Turning()
      reads this
    {
      minuteTurns == tick / 60 || (tick % 60 == 0 && minuteTurns + 1 == tick / 60)
    }

    /** Takes `r` out of the dying slot. Its date stays only if another reference has the same one. */
    method Detach(r: Ref)
      requires Invariant() && r in dying
      modifies `dying, `agenda
      ensures Invariant() && dying == old(dying) - {r}
      ensures
        var date := if r.Direct? then tick else tick + r.second;
        && (date, r.e) in old(agenda)
        && (agenda == old(agenda) || agenda == old(agenda) - {(date, r.e)})
    {
      hide Sound, AnyHolds, InPhase, DueAt, Kinds;
      ghost var date := if r.Direct? then tick else tick + r.second;
      LetGo(r, date);
      if !DueAt(date, r.e) {
        agenda := agenda - {(date, r.e)};
      }
      assert forall t: nat, x :: (t, x) in agenda <==> DueAt(t, x);
    }

    /** Without the reference, at most its own date is gone. */
    method LetGo(r: Ref, ghost date: nat)
      requires Sizes() && Kinds() && r in dying && date == (if r.Direct? then tick else tick + r.second)
      modifies `dying
      ensures Sizes() && Kinds() && dying == old(dying) - {r}
      ensures old(DueAt(date, r.e))
      ensures forall t: nat, x :: old(DueAt(t, x)) <==> DueAt(t, x) || (t == date && x == r.e)
    {
      hide MinuteRef, InPhase;
      dying := dying - {r};
    }

    /** The destructor of one reference: a wrapper inserts its entry first. */
    method Destroy(r: Ref)
      requires Invariant() && Turning() && r in dying
      modifies `seconds, `minutes, `hours, `days, `agenda, `parked, `fired, `dying
      ensures Invariant() && dying == old(dying) - {r}
      ensures
        || State() == old(State())
        || ((tick, r.e) in old(agenda) && State() == Drop(old(State()), r.e))
    {
      DyingFits(r);
      hide Invariant, Fits, HasDate, Agenda.Release, Drop;
      if r.Direct? || r.second == 0 {
        Detach(r);
        DropReference(old(agenda), r.e);
      } else {
        Rewrap(r);
        DropReference(agenda, r.e);
      }
    }

    /** A wrapper with time left moves its entry to the second wheel; the entry's date stays the same. */
    method Rewrap(r: Ref)
      requires Invariant() && r in dying && r.Wrapped? && 0 < r.second < 60 && Fits(r.second, r.e)
      modifies `seconds, `minutes, `hours, `days, `agenda, `parked, `dying
      ensures Invariant() && dying == old(dying) - {r}
      ensures State() == old(State()) && HasDate(agenda, r.e)
    {
      hide Invariant, HasDate;
      Detach(r);
      InsertEntry(r.second, r.e);
      assert agenda == old(agenda);
      Witness(agenda, (tick + r.second, r.e));
    }

    /** The reference itself goes, and with it the date of this tick unless that is still held elsewhere. */
    method DropReference(ghost was: set<(nat, Entry)>, e: Entry)
      requires Invariant() && Sound(e) && Renewable(e) && (MINUTE <= e.period < HOUR ==> minuteTurns == tick / 60)
      requires if agenda == was then HasDate(agenda, e) || (tick, e) in agenda else agenda == was - {(tick, e)}
      modifies `seconds, `minutes, `hours, `days, `agenda, `parked, `fired
      ensures Invariant()
      ensures State() == if old(agenda) == was then old(State()) else Drop(old(State()).(agenda := was), e)
    {
      hide Invariant, HasDate;
      if agenda == was && (tick, e) in agenda {
        Witness(agenda, (tick, e));
      }
      Release(e);
    }

    lemma Witness(agenda: set<(nat, Entry)>, p: (nat, Entry))
      requires p in agenda
      ensures HasDate(agenda, p.1)
    {
    }

    lemma DyingFits(r: Ref)
      requires Invariant() && Turning() && r in dying
      ensures Sound(r.e) && Renewable(r.e)
      ensures MINUTE <= r.e.period < HOUR ==> minuteTurns == tick / 60
      ensures r.Wrapped? ==> r.second < 60 && Fits(r.second, r.e)
    {
      var date := if r.Direct? then tick else tick + r.second;
      assert DueAt(date, r.e);
      assert (date, r.e) in agenda;
    }

    /** Destroys what the slot held, in any order. */
    method Drain(ghost before: Timers, ghost gone0: set<Entry>) returns (ghost gone: set<Entry>)
      requires Invariant() && Turning() && Midtick(before, gone0, State())
      modifies `seconds, `minutes, `hours, `days, `agenda, `parked, `fired, `dying
      ensures Invariant() && dying == {} && Midtick(before, gone, State())
    {
      gone := gone0;
      while dying != {}
        invariant Invariant() && Midtick(before, gone, State())
        decreases dying
      {
        var r :| r in dying;
        assert Sound(r.e) by { DyingFits(r); }
        DateOfTick(before, gone, r.e);
        ghost var s := State();
        Destroy(r);
        if State() != s {
          MidtickStep(before, gone, s, r.e);
          gone := gone + {r.e};
        }
      }
    }

    lemma DateOfTick(before: Timers, gone: set<Entry>, e: Entry)
      requires Midtick(before, gone, State())
      ensures (tick, e) in agenda ==> (tick, e) in before.agenda && e !in gone
    {
      var p: (nat, Entry) := (tick, e);
      assert p in State().agenda <==> p in agenda;
    }

    /** `++tick_`, and the first half of `PopUp` on the second wheel: the due slot is taken out. */
    method TurnSeconds()
      requires Valid()
      modifies `tick, `seconds, `dying
      ensures Invariant() && Turning() && minuteTurns == old(tick) / 60
      ensures tick == old(tick) + 1 && Midtick(old(State()), {}, State())
    {
      tick := tick + 1;
      dying := seconds[0];
      seconds := seconds[1..] + [{}];
      assert forall r :: r in dying ==> r.Direct?;
      assert seconds[59] == {} && forall i :: 0 <= i < 59 ==> seconds[i] == old(seconds)[i + 1];
      forall t: nat, e ensures DueAt(t, e) <==> old(DueAt(t, e)) {
      }
      forall i, r | 0 <= i < 60 && r in seconds[i] ensures r.Direct? && InPhase(r.e, tick + i + 1) {
        assert r in old(seconds)[i + 1];
      }
    }

    /** The first half of `PopUp` on the minute wheel. */
    method TurnMinutes()
      requires Invariant() && dying == {} && tick % 60 == 0 && minuteTurns + 1 == tick / 60
      modifies `minutes, `minuteTurns, `dying
      ensures Invariant() && minuteTurns == tick / 60
    {
      dying := minutes[0];
      assert forall r :: r in dying ==> MinuteRef(r);
      minutes := minutes[1..] + [{}];
      minuteTurns := minuteTurns + 1;
      assert minutes[59] == {} && forall i :: 0 <= i < 59 ==> minutes[i] == old(minutes)[i + 1];
      forall t: nat, e ensures DueAt(t, e) <==> old(DueAt(t, e)) {
        assert t == 60 * (t / 60) + t % 60 && tick == 60 * (tick / 60);
        var i := t / 60 - minuteTurns - 1;
        assert Direct(e) !in dying;
        if i == -1 {
          assert t - tick == t % 60;
        } else if 0 <= i < 59 {
          assert minutes[i] == old(minutes)[i + 1];
        }
        if t >= tick && Wrapped(t - tick, e) in dying {
          assert MinuteRef(Wrapped(t - tick, e));
          assert i == -1;
        }
      }
      forall i, r | 0 <= i < 60 && r in minutes[i] ensures MinuteRef(r) {
        assert i < 59 ==> r in old(minutes)[i + 1];
      }
    }

    /** A multiple of an hour, or of a day, is a multiple of a minute. */
    static lemma LongTurns(t: nat)
      ensures t % HOUR == 0 ==> t % MINUTE == 0
      ensures t % DAY == 0 ==> t % MINUTE == 0
    {
      if t % HOUR == 0 {
        Remainder(t, MINUTE, 60 * (t / HOUR), 0);
      }
      if t % DAY == 0 {
        Remainder(t, MINUTE, 1440 * (t / DAY), 0);
      }
    }

    /** One second passes. */
    method Turn()
      requires Valid()
      modifies `seconds, `minutes, `hours, `days, `agenda, `parked, `fired, `dying, `tick, `minuteTurns
      ensures Valid() && State() == Tick(old(State()))
    {
      hide Midtick, Invariant, Tick;
      ghost var before := State();
      LongTurns(tick + 1);
      TurnSeconds();
      ghost var gone := Drain(before, {});
      if tick % MINUTE == 0 {
        TurnMinutes();
        gone := Drain(before, gone);
      } else if tick % HOUR == 0 {
        // The hour wheel never turns.
        assert false;
      } else if tick % DAY == 0 {
        assert false;
      }
      NothingDue(before, gone);
    }

    /** Once both wheels have turned, no date of this tick is left. */
    lemma NothingDue(before: Timers, gone: set<Entry>)
      requires Valid() && Midtick(before, gone, State())
      ensures State() == Tick(before)
    {
      forall e | (tick, e) in before.agenda ensures e in gone {
        assert !DueAt(tick, e);
        var p: (nat, Entry) := (tick, e);
        assert p !in State().agenda;
      }
      MidtickDone(before, gone, State());
    }

    /** The event loop's clock reading: at most one second passes, and only if one has. */
    method OnTimer(now: int)
      requires Valid()
      modifies this
      ensures Valid()
      ensures Clock(lastTs, tick) == ReadClock(Clock(old(lastTs), old(tick)), now)
      ensures State() == if tick == old(tick) then old(State()) else Tick(old(State()))
    {
      hide Invariant;
      if lastTs == 0 {
        lastTs := now;
      }
      if now - lastTs < 1000 {
        return;
      }
      lastTs := now;
      Turn();
    }
  }
}
