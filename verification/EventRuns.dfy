/** How often and how fast an event is called, over any run of the scheduler. */
module EventRuns {
  import opened Common
  import opened Events

  /** A step of a run: someone uses the API, or the main loop makes a pass. */
  datatype Step = Use(a: Action, now: Time) | RunPass(now: Time, script: Script)

  function Perform(s: Sched, step: Step): Sched {
    match step
    case Use(a, now) => Act(s, a, now)
    case RunPass(now, script) => Pass(s, now, script)
  }

  // ---------------------------------------------------------------- the history of one event

  function Num(calls: seq<Call>, x: nat): nat {
    if calls == [] then 0
    else Num(calls[..|calls| - 1], x) + if calls[|calls| - 1].id == x then 1 else 0
  }

  function LastCall(calls: seq<Call>, x: nat): Option<Time> {
    if calls == [] then None
    else if calls[|calls| - 1].id == x then Some(calls[|calls| - 1].at)
    else LastCall(calls[..|calls| - 1], x)
  }

  /** Between two calls of `x` more than `every` - 1 milliseconds pass. */
  ghost predicate Spaced(calls: seq<Call>, x: nat, every: int) {
    calls != [] ==>
      var before, c := calls[..|calls| - 1], calls[|calls| - 1];
      && Spaced(before, x, every)
      && (c.id == x && LastCall(before, x).Some? ==>
            Elapsed(LastCall(before, x).value, c.at) > (every - 1) * 1000)
  }

  lemma CallAdded(calls: seq<Call>, c: Call)
    ensures (calls + [c])[..|calls|] == calls
    ensures forall x :: Num(calls + [c], x) == Num(calls, x) + if c.id == x then 1 else 0
    ensures forall x :: LastCall(calls + [c], x) == if c.id == x then Some(c.at) else LastCall(calls, x)
  {
    var all := calls + [c];
    assert all[..|all| - 1] == calls && all[|all| - 1] == c;
  }

  /** An event that was never called. */
  lemma {:induction false} NeverCalled(calls: seq<Call>, x: nat)
    requires forall i | 0 <= i < |calls| :: calls[i].id != x
    ensures Num(calls, x) == 0 && LastCall(calls, x).None? && forall every :: Spaced(calls, x, every)
  {
    if calls != [] {
      NeverCalled(calls[..|calls| - 1], x);
    }
  }

  /** No one sets the count or the interval of `x`. */
  predicate Keeps(a: Action, x: nat) {
    a.ModEvent? && a.id == x ==> a.newCount.None? && a.newEvery.None?
  }

  ghost predicate ScriptKeeps(script: Script, x: nat) {
    forall id, n, i | 0 <= i < |script(id, n)| :: Keeps(script(id, n)[i], x)
  }

  /** The settings of event `x`, while it is listed and not deleted, are as in `s`. */
  ghost predicate SameSettings(s: Sched, t: Sched, x: nat) {
    forall j | 0 <= j < |t.events| && t.events[j].id == x && !t.events[j].deleted ::
      exists i | 0 <= i < |s.events| :: SameIn(s.events[i], t.events[j])
  }

  predicate SameIn(e: Event, f: Event) {
    e.id == f.id && !e.deleted && e.count == f.count && e.every == f.every && e.last == f.last
  }

  lemma ActSettings(s: Sched, a: Action, now: Time, x: nat)
    requires Keeps(a, x) && x < s.nextId
    ensures SameSettings(s, Act(s, a, now), x)
  {
    var t := Act(s, a, now);
    forall j | 0 <= j < |t.events| && t.events[j].id == x && !t.events[j].deleted
      ensures exists i | 0 <= i < |s.events| :: SameIn(s.events[i], t.events[j])
    {
      var i := j - (|t.events| - |s.events|);
      assert i >= 0;
      assert SameIn(s.events[i], t.events[j]);
    }
  }

  lemma {:induction false} ActAllSettings(s: Sched, acts: seq<Action>, now: Time, x: nat)
    requires x < s.nextId && forall i | 0 <= i < |acts| :: Keeps(acts[i], x)
    ensures SameSettings(s, ActAll(s, acts, now), x)
    decreases acts
  {
    if acts == [] {
      forall j | 0 <= j < |s.events| && s.events[j].id == x && !s.events[j].deleted
        ensures exists i | 0 <= i < |s.events| :: SameIn(s.events[i], s.events[j])
      {
        assert SameIn(s.events[j], s.events[j]);
      }
    } else {
      var t := Act(s, acts[0], now);
      var u := ActAll(t, acts[1..], now);
      ActSettings(s, acts[0], now, x);
      ActExtends(s, acts[0], now);
      ActAllSettings(t, acts[1..], now, x);
      forall j | 0 <= j < |u.events| && u.events[j].id == x && !u.events[j].deleted
        ensures exists i | 0 <= i < |s.events| :: SameIn(s.events[i], u.events[j])
      {
        var k :| 0 <= k < |t.events| && SameIn(t.events[k], u.events[j]);
        var i :| 0 <= i < |s.events| && SameIn(s.events[i], t.events[k]);
        assert SameIn(s.events[i], u.events[j]);
      }
    }
  }

  // ---------------------------------------------------------------- what holds of one event

  /** While listed, the event has its interval, was last called at the time it remembers, and has the
      calls to go that it has not had. */
  predicate OnTrack(e: Event, calls: seq<Call>, x: nat, count: int, every: int) {
    e.id == x && !e.deleted ==>
      && e.every == every
      && (LastCall(calls, x).Some? && every > 0 ==> e.last == LastCall(calls, x).value)
      && (count > 0 ==> e.count > 0 && Num(calls, x) + e.count == count)
  }

  /** Event `x`, set up with this count (0: no limit) and interval. */
  ghost predicate Tracked(s: Sched, x: nat, count: int, every: int) {
    && x < s.nextId
    && (count > 0 ==> Num(s.calls, x) <= count)
    && (every > 0 ==> Spaced(s.calls, x, every))
    && (LastCall(s.calls, x).Some? ==> LastCall(s.calls, x).value.sec != 0)
    && (forall i | 0 <= i < |s.events| :: OnTrack(s.events[i], s.calls, x, count, every))
  }

  lemma SettingsTracked(s: Sched, t: Sched, x: nat, count: int, every: int)
    requires Tracked(s, x, count, every) && SameSettings(s, t, x) && t.calls == s.calls && s.nextId <= t.nextId
    ensures Tracked(t, x, count, every)
  {
    forall j | 0 <= j < |t.events| ensures OnTrack(t.events[j], t.calls, x, count, every) {
      if t.events[j].id == x && !t.events[j].deleted {
        var i :| 0 <= i < |s.events| && SameIn(s.events[i], t.events[j]);
        assert OnTrack(s.events[i], s.calls, x, count, every);
      }
    }
  }

  lemma SetTracked(s: Sched, k: nat, e: Event, x: nat, count: int, every: int)
    requires Tracked(s, x, count, every) && k < |s.events| && OnTrack(e, s.calls, x, count, every)
    ensures Tracked(s.(events := s.events[k := e]), x, count, every)
  {
  }

  lemma LoggedTracked(s: Sched, rest: nat, now: Time, x: nat, count: int, every: int) returns (s0: Sched)
    requires 0 < rest <= |s.events| && Tracked(s, x, count, every) && At(s, rest).id != x
    ensures s0 == Logged(s, rest, now) && Tracked(s0, x, count, every)
  {
    s0 := Logged(s, rest, now);
    CallAdded(s.calls, Call(At(s, rest).id, now));
    forall i | 0 <= i < |s0.events| ensures OnTrack(s0.events[i], s0.calls, x, count, every) {
      assert OnTrack(s.events[i], s.calls, x, count, every);
    }
  }

  /** Calling another event. */
  lemma CallOtherTracked(s: Sched, rest: nat, now: Time, script: Script, x: nat, count: int, every: int)
    requires Ok(s) && 0 < rest <= |s.events| && Tracked(s, x, count, every)
    requires At(s, rest).id != x && ScriptKeeps(script, x)
    ensures Tracked(CallAt(s, rest, now, script), x, count, every)
  {
    var s0 := LoggedTracked(s, rest, now, x, count, every);
    var acts := script(At(s, rest).id, |s.calls|);
    assert forall i | 0 <= i < |acts| :: Keeps(script(At(s, rest).id, |s.calls|)[i], x);
    var s1 := ActsTracked(s0, acts, rest, now, x, count, every);
    SetTracked(s1, |s1.events| - rest, Counted(At(s1, rest)), x, count, every);
  }

  lemma ActsTracked(s: Sched, acts: seq<Action>, rest: nat, now: Time, x: nat, count: int, every: int)
    returns (t: Sched)
    requires 0 < rest <= |s.events| && Tracked(s, x, count, every)
    requires forall i | 0 <= i < |acts| :: Keeps(acts[i], x)
    ensures t == ActAll(s, acts, now) && Tracked(t, x, count, every)
    ensures |s.events| <= |t.events| && At(t, rest).id == At(s, rest).id
  {
    t := ActAll(s, acts, now);
    ActAllSettings(s, acts, now, x);
    var _ := SelfStays(s, acts, rest, now);
    SettingsTracked(s, t, x, count, every);
  }

  /** Calling the event itself, when its interval has passed. */
  lemma CallSelfTracked(s: Sched, rest: nat, now: Time, script: Script, x: nat, count: int, every: int)
    requires Ok(s) && 0 < rest <= |s.events| && now.sec != 0 && ScriptKeeps(script, x)
    requires x < s.nextId && At(s, rest).id == x && !At(s, rest).deleted && At(s, rest).every == every
    requires every > 0 ==> At(s, rest).last == now && Spaced(s.calls, x, every)
    requires every > 0 && LastCall(s.calls, x).Some? ==>
               Elapsed(LastCall(s.calls, x).value, now) > (every - 1) * 1000
    requires count > 0 ==> At(s, rest).count > 0 && Num(s.calls, x) + At(s, rest).count == count
    ensures Tracked(CallAt(s, rest, now, script), x, count, every)
  {
    var s0 := LoggedSelf(s, rest, now, x, count, every);
    var acts := script(x, |s.calls|);
    assert forall i | 0 <= i < |acts| :: Keeps(script(x, |s.calls|)[i], x);
    ActAllSettings(s0, acts, now, x);
    var s1 := LoggedActsOk(s, rest, acts, now);
    var _ := SelfStays(s0, acts, rest, now);
    CountedSelfTracked(s0, s1, rest, x, count, every);
  }

  /** The call of event `x` has been logged, but not yet counted. */
  ghost predicate JustCalled(s: Sched, rest: nat, x: nat, count: int, every: int) {
    && 0 < rest <= |s.events| && At(s, rest).id == x && At(s, rest).every == every
    && (forall i | 0 <= i < |s.events| && i != |s.events| - rest :: s.events[i].id != x)
    && LastCall(s.calls, x).Some? && LastCall(s.calls, x).value.sec != 0
    && (every > 0 ==> Spaced(s.calls, x, every) && At(s, rest).last == LastCall(s.calls, x).value)
    && (count > 0 ==> At(s, rest).count > 0 && Num(s.calls, x) + At(s, rest).count == count + 1)
  }

  lemma LoggedSelf(s: Sched, rest: nat, now: Time, x: nat, count: int, every: int) returns (s0: Sched)
    requires Ok(s) && 0 < rest <= |s.events| && now.sec != 0
    requires At(s, rest).id == x && At(s, rest).every == every
    requires every > 0 ==> At(s, rest).last == now && Spaced(s.calls, x, every)
    requires every > 0 && LastCall(s.calls, x).Some? ==>
               Elapsed(LastCall(s.calls, x).value, now) > (every - 1) * 1000
    requires count > 0 ==> At(s, rest).count > 0 && Num(s.calls, x) + At(s, rest).count == count
    ensures s0 == Logged(s, rest, now) && JustCalled(s0, rest, x, count, every)
  {
    s0 := Logged(s, rest, now);
    CallAdded(s.calls, Call(x, now));
  }

  lemma SelfStays(s: Sched, acts: seq<Action>, rest: nat, now: Time) returns (t: Sched)
    requires 0 < rest <= |s.events|
    ensures t == ActAll(s, acts, now)
    ensures |s.events| <= |t.events| && At(t, rest).id == At(s, rest).id
    ensures t.calls == s.calls && s.nextId <= t.nextId
  {
    t := ActAll(s, acts, now);
    ActKeepsRest(s, acts, now);
    ExtendsAt(s, t, rest);
  }

  /** Counting the call just logged puts the event back on track. */
  lemma CountedSelfTracked(s: Sched, t: Sched, rest: nat, x: nat, count: int, every: int)
    requires JustCalled(s, rest, x, count, every) && Ok(t) && SameSettings(s, t, x)
    requires |s.events| <= |t.events| && t.calls == s.calls && x < t.nextId && At(t, rest).id == x
    ensures Tracked(SetAt(t, rest, Counted(At(t, rest))), x, count, every)
  {
    var k := |t.events| - rest;
    var u := SetAt(t, rest, Counted(At(t, rest)));
    forall j | 0 <= j < |u.events| ensures OnTrack(u.events[j], u.calls, x, count, every) {
      if j == k {
        if !t.events[k].deleted {
          var i :| 0 <= i < |s.events| && SameIn(s.events[i], t.events[k]);
          assert i == |s.events| - rest;
        }
      } else {
        assert u.events[j].id != x;
      }
    }
  }

  lemma TurnTracked(s: Sched, rest: nat, now: Time, script: Script, x: nat, count: int, every: int)
    returns (t: Sched)
    requires Ok(s) && 0 < rest <= |s.events| && now.sec != 0 && ScriptKeeps(script, x)
    requires Tracked(s, x, count, every)
    ensures t == Turn(s, rest, now, script)
    ensures Tracked(t, x, count, every)
  {
    t := Turn(s, rest, now, script);
    var e := At(s, rest);
    var k := |s.events| - rest;
    assert OnTrack(s.events[k], s.calls, x, count, every);
    if e.deleted {
    } else if e.count == -1 {
      SetTracked(s, k, Deleted(e), x, count, every);
    } else if e.every == 0 {
      if e.id == x {
        CallSelfTracked(s, rest, now, script, x, count, every);
      } else {
        CallOtherTracked(s, rest, now, script, x, count, every);
      }
    } else {
      TimedTurnTracked(s, rest, now, script, x, count, every);
    }
  }

  lemma TimedTurnTracked(s: Sched, rest: nat, now: Time, script: Script, x: nat, count: int, every: int)
    requires Ok(s) && 0 < rest <= |s.events| && now.sec != 0 && ScriptKeeps(script, x)
    requires Tracked(s, x, count, every)
    requires !At(s, rest).deleted && At(s, rest).count != -1 && At(s, rest).every != 0
    ensures Tracked(Turn(s, rest, now, script), x, count, every)
  {
    var e := At(s, rest);
    var k := |s.events| - rest;
    assert OnTrack(s.events[k], s.calls, x, count, every);
    var (last, due) := SinceLastRun(e.last, now, e.every);
    var e1 := e.(last := last);
    assert Sound(e, s.nextId);
    SetOk(s, k, e1);
    if e.id != x {
      SetTracked(s, k, e1, x, count, every);
      CallOtherTracked(SetAt(s, rest, e1), rest, now, script, x, count, every);
    } else if due {
      DueExactly(e.last, now, e.every);
      CallSelfTracked(SetAt(s, rest, e1), rest, now, script, x, count, every);
    } else {
      SetTracked(s, k, e1, x, count, every);
    }
  }

  lemma {:induction false} LoopTracked(
    s: Sched, rest: nat, now: Time, script: Script, x: nat, count: int, every: int) returns (u: Sched)
    requires Ok(s) && rest <= |s.events| && now.sec != 0 && ScriptKeeps(script, x)
    requires Tracked(s, x, count, every)
    ensures u == Loop(s, rest, now, script)
    ensures Tracked(u, x, count, every)
    decreases rest
  {
    if rest == 0 {
      u := s;
    } else {
      var t := TurnOk(s, rest, now, script);
      var _ := TurnTracked(s, rest, now, script, x, count, every);
      u := LoopTracked(t, rest - 1, now, script, x, count, every);
    }
  }

  // ---------------------------------------------------------------- runs

  /** The clock is set, and nobody changes the count or the interval of `x`. */
  ghost predicate StepKeeps(step: Step, x: nat) {
    match step
    case Use(a, now) => Keeps(a, x)
    case RunPass(now, script) => now.sec != 0 && ScriptKeeps(script, x)
  }

  lemma StepTracked(s: Sched, step: Step, x: nat, count: int, every: int) returns (t: Sched)
    requires Ok(s) && Tracked(s, x, count, every) && StepKeeps(step, x)
    ensures t == Perform(s, step)
    ensures Ok(t) && Tracked(t, x, count, every)
  {
    t := Perform(s, step);
    match step
    case Use(a, now) =>
      ActOk(s, a, now);
      ActSettings(s, a, now, x);
      ActExtends(s, a, now);
      SettingsTracked(s, t, x, count, every);
    case RunPass(now, script) =>
      PassCleansUp(s, now, script);
      var u := LoopTracked(s, |s.events|, now, script, x, count, every);
      LiveMembers(u.events);
      forall i | 0 <= i < |t.events| ensures OnTrack(t.events[i], t.calls, x, count, every) {
        assert t.events[i] in u.events;
      }
  }

  /** A new event starts on track. */
  lemma AddTracked(s: Sched, name: string, every: int, count: int, owner: Option<nat>, now: Time)
    requires Ok(s) && every >= 0 && count >= 0
    ensures Tracked(Act(s, AddEvent(name, every, count, owner), now), s.nextId, count, every)
  {
    NeverCalled(s.calls, s.nextId);
    var t := Act(s, AddEvent(name, every, count, owner), now);
    forall i | 0 <= i < |t.events| ensures OnTrack(t.events[i], t.calls, s.nextId, count, every) {
      if i > 0 {
        assert t.events[i] == s.events[i - 1] && Sound(s.events[i - 1], s.nextId);
      }
    }
  }

  /** Over any run after it was added, an event whose count and interval nobody changes is called at most
      `count` times, if that is not 0, and never less than `every` - 1 milliseconds after the call
      before. */
  lemma {:induction false} CallsOverRun(ss: seq<Sched>, steps: seq<Step>, name: string, every: int,
                                        count: int, owner: Option<nat>, now: Time, t: nat)
    requires |ss| == |steps| + 1 && t <= |steps| && Ok(ss[0]) && every >= 0 && count >= 0 && t > 0
    requires steps[0] == Use(AddEvent(name, every, count, owner), now)
    requires forall i | 0 <= i < |steps| :: ss[i + 1] == Perform(ss[i], steps[i])
    requires forall i | 0 < i < |steps| :: StepKeeps(steps[i], ss[0].nextId)
    ensures Ok(ss[t]) && Tracked(ss[t], ss[0].nextId, count, every)
    ensures count > 0 ==> Num(ss[t].calls, ss[0].nextId) <= count
    ensures every > 0 ==> Spaced(ss[t].calls, ss[0].nextId, every)
  {
    assert ss[t - 1 + 1] == Perform(ss[t - 1], steps[t - 1]);
    if t == 1 {
      ActOk(ss[0], steps[0].a, now);
      AddTracked(ss[0], name, every, count, owner, now);
    } else {
      CallsOverRun(ss, steps, name, every, count, owner, now, t - 1);
      var u := StepTracked(ss[t - 1], steps[t - 1], ss[0].nextId, count, every);
    }
  }
}
