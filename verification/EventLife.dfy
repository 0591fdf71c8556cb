/** How long an event lives: it is called as often as asked, and no call, its own or another's, ends it
    before that. */
module EventLife {
  import opened Common
  import opened Events
  import opened EventRuns

  // ---------------------------------------------------------------- what the operations change

  /** EventDel marks, disowns and relabels, and changes nothing else. */
  lemma DelEffect(e: Event)
    ensures var f := Deleted(e);
            && f.deleted && f.owner.None?
            && f.id == e.id && f.count == e.count && f.every == e.every && f.last == e.last
            && |f.name| <= 127 && (|e.name| <= 119 ==> f.name == "deleted:" + e.name)
  {
  }

  /** EventMod changes exactly the fields it is given. */
  lemma ModEffect(e: Event, a: Action)
    requires a.ModEvent?
    ensures var f := Modified(e, a);
            && (a.newEvery == Some(f.every) || (a.newEvery.None? && f.every == e.every))
            && (a.newCount == Some(f.count) || (a.newCount.None? && f.count == e.count))
            && (a.newName == Some(f.name) || (a.newName.None? && f.name == e.name))
            && f.id == e.id && f.last == e.last && f.deleted == e.deleted && f.owner == e.owner
  {
  }

  /** EventAdd lists one new event in front, or nothing. */
  lemma AddEffect(s: Sched, a: Action, now: Time)
    requires a.AddEvent?
    ensures var t := Act(s, a, now);
            if a.every < 0 || a.count < 0 then t == s
            else && |t.events| == |s.events| + 1 && t.events[1..] == s.events && t.nextId == s.nextId + 1
                 && t.calls == s.calls
                 && var e := t.events[0];
                 && e.id == s.nextId && e.name == a.name && e.count == a.count && e.every == a.every
                 && e.owner == a.owner && e.last == now && !e.deleted
  {
  }

  /** The time kept is moved to now exactly when the interval is over, or on the first call ever. */
  lemma TimeKept(last: Time, now: Time, minimum: int)
    ensures var (kept, due) := SinceLastRun(last, now, minimum);
            && kept == (if due || last.sec == 0 then now else last)
            && (last.sec == 0 ==> !due)
  {
  }

  /** An event whose count has been set to -1 is not called any more, and is deleted in its turn. */
  lemma MinusOneEnds(s: Sched, rest: nat, now: Time, script: Script)
    requires 0 < rest <= |s.events| && !At(s, rest).deleted && At(s, rest).count == -1
    ensures var t := Turn(s, rest, now, script);
            t.calls == s.calls && t == SetAt(s, rest, At(t, rest)) && At(t, rest).deleted
  {
  }

  // ---------------------------------------------------------------- alive and over

  /** Event `x`, set up for `count` calls (0: for ever), stands at position `p`, with the calls to go that
      it has not had. */
  ghost predicate AliveAt(s: Sched, p: nat, x: nat, count: nat) {
    && p < |s.events| && s.events[p].id == x && !s.events[p].deleted
    && if count == 0 then s.events[p].count == 0
       else s.events[p].count > 0 && Num(s.calls, x) + s.events[p].count == count
  }

  ghost predicate Alive(s: Sched, x: nat, count: nat) { exists p: nat :: AliveAt(s, p, x, count) }

  /** It has had its calls, and is at most listed as deleted. */
  ghost predicate Over(s: Sched, x: nat, count: nat) {
    && count > 0 && Num(s.calls, x) == count && x < s.nextId
    && forall i | 0 <= i < |s.events| && s.events[i].id == x :: s.events[i].deleted
  }

  /** No one deletes `x` or sets its count. */
  predicate Spares(a: Action, x: nat) {
    !(a.DelEvent? && a.id == x) && (a.ModEvent? && a.id == x ==> a.newCount.None?)
  }

  ghost predicate ScriptSpares(script: Script, x: nat) {
    forall id, n, i | 0 <= i < |script(id, n)| :: Spares(script(id, n)[i], x)
  }

  /** The event at `p` of `s` stands in `t`, alive and with the same count. */
  ghost predicate StandsIn(s: Sched, t: Sched, p: nat) {
    && p < |s.events| <= |t.events|
    && var e, f := s.events[p], t.events[p + |t.events| - |s.events|];
    e.id == f.id && e.deleted == f.deleted && e.count == f.count
  }

  lemma ActStands(s: Sched, a: Action, now: Time, p: nat)
    requires p < |s.events| && Spares(a, s.events[p].id)
    ensures StandsIn(s, Act(s, a, now), p)
  {
  }

  lemma {:induction false} ActAllStands(s: Sched, acts: seq<Action>, now: Time, p: nat)
    requires p < |s.events| && forall i | 0 <= i < |acts| :: Spares(acts[i], s.events[p].id)
    ensures StandsIn(s, ActAll(s, acts, now), p)
    decreases acts
  {
    if acts != [] {
      var t := Act(s, acts[0], now);
      assert Spares(acts[0], s.events[p].id);
      ActStands(s, acts[0], now, p);
      ActAllStands(t, acts[1..], now, p + |t.events| - |s.events|);
    }
  }

  lemma ActsKeepCalls(s: Sched, acts: seq<Action>, now: Time)
    ensures ActAll(s, acts, now).calls == s.calls
  {
    ActKeepsRest(s, acts, now);
  }

  /** After the function of the event at `rest` has run: the event at `p` still stands, and the call is
      logged. */
  lemma ActsAfterCall(s: Sched, rest: nat, now: Time, script: Script, p: nat) returns (s1: Sched)
    requires Ok(s) && 0 < rest <= |s.events| && p < |s.events| && ScriptSpares(script, s.events[p].id)
    ensures s1 == ActAll(Logged(s, rest, now), script(At(s, rest).id, |s.calls|), now)
    ensures Ok(s1) && StandsIn(s, s1, p) && s1.calls == s.calls + [Call(At(s, rest).id, now)]
  {
    var acts := script(At(s, rest).id, |s.calls|);
    assert forall i | 0 <= i < |acts| :: Spares(script(At(s, rest).id, |s.calls|)[i], s.events[p].id);
    s1 := LoggedActsOk(s, rest, acts, now);
    ActAllStands(Logged(s, rest, now), acts, now, p);
    ActsKeepCalls(Logged(s, rest, now), acts, now);
  }

  /** Calling an event with no limit leaves it as it was; a limited one has one call less to go, and is
      over with its last. */
  lemma CountedEffect(e: Event)
    ensures var f := Counted(e);
            && f.id == e.id
            && (e.count <= 0 ==> f == e)
            && (e.count == 1 ==> f.deleted)
            && (e.count > 1 ==> f == e.(count := e.count - 1))
  {
  }

  lemma CallAlive(s: Sched, rest: nat, now: Time, script: Script, p: nat, x: nat, count: nat)
    returns (t: Sched)
    requires Ok(s) && 0 < rest <= |s.events| && AliveAt(s, p, x, count) && ScriptSpares(script, x)
    ensures t == CallAt(s, rest, now, script) && |s.events| <= |t.events|
    ensures AliveAt(t, p + |t.events| - |s.events|, x, count) || Over(t, x, count)
  {
    var s1 := ActsAfterCall(s, rest, now, script, p);
    CallAdded(s.calls, Call(At(s, rest).id, now));
    t := SetAt(s1, rest, Counted(At(s1, rest)));
    if p == |s.events| - rest {
      CountsDown(s, s1, p, x, count);
    } else {
      OtherId(s, p, |s.events| - rest);
    }
  }

  /** The call of the event itself, logged and now counted. */
  lemma CountsDown(s: Sched, s1: Sched, p: nat, x: nat, count: nat)
    requires AliveAt(s, p, x, count) && StandsIn(s, s1, p) && Ok(s1) && Num(s1.calls, x) == Num(s.calls, x) + 1
    ensures var q := p + |s1.events| - |s.events|;
            var t := s1.(events := s1.events[q := Counted(s1.events[q])]);
            AliveAt(t, q, x, count) || Over(t, x, count)
  {
    var q := p + |s1.events| - |s.events|;
    var e := s1.events[q];
    CountedEffect(e);
    assert Sound(e, s1.nextId);
    SetOk(s1, q, Counted(e));
    var t := s1.(events := s1.events[q := Counted(e)]);
    if count > 0 && e.count == 1 {
      OnlyOne(t, q, x, count);
    }
  }

  lemma OtherId(s: Sched, p: nat, q: nat)
    requires Ok(s) && p < |s.events| && q < |s.events| && p != q
    ensures s.events[p].id != s.events[q].id
  {
  }

  lemma OnlyOne(s: Sched, p: nat, x: nat, count: nat)
    requires Ok(s) && p < |s.events| && s.events[p].id == x && s.events[p].deleted
    requires count > 0 && Num(s.calls, x) == count
    ensures Over(s, x, count)
  {
    assert Sound(s.events[p], s.nextId);
    forall i | 0 <= i < |s.events| && i != p ensures s.events[i].id != x {
      OtherId(s, i, p);
    }
  }

  /** One turn of the loop. */
  lemma TurnAlive(s: Sched, rest: nat, now: Time, script: Script, p: nat, x: nat, count: nat)
    returns (t: Sched)
    requires Ok(s) && 0 < rest <= |s.events| && AliveAt(s, p, x, count) && ScriptSpares(script, x)
    ensures t == Turn(s, rest, now, script) && |s.events| <= |t.events|
    ensures AliveAt(t, p + |t.events| - |s.events|, x, count) || Over(t, x, count)
    ensures count == 0 ==> AliveAt(t, p + |t.events| - |s.events|, x, count)
  {
    t := Turn(s, rest, now, script);
    var e := At(s, rest);
    if e.deleted {
    } else if e.count == -1 {
      assert p != |s.events| - rest;
    } else if e.every == 0 {
      var _ := CallAlive(s, rest, now, script, p, x, count);
    } else {
      var _ := TimedTurnAlive(s, rest, now, script, p, x, count);
    }
  }

  lemma TimedTurnAlive(s: Sched, rest: nat, now: Time, script: Script, p: nat, x: nat, count: nat)
    returns (t: Sched)
    requires Ok(s) && 0 < rest <= |s.events| && AliveAt(s, p, x, count) && ScriptSpares(script, x)
    requires !At(s, rest).deleted && At(s, rest).count != -1 && At(s, rest).every != 0
    ensures t == Turn(s, rest, now, script) && |s.events| <= |t.events|
    ensures AliveAt(t, p + |t.events| - |s.events|, x, count) || Over(t, x, count)
  {
    var e := At(s, rest);
    var e1 := e.(last := SinceLastRun(e.last, now, e.every).0);
    var s1 := SetAt(s, rest, e1);
    assert Sound(e, s.nextId);
    SetOk(s, |s.events| - rest, e1);
    assert AliveAt(s1, p, x, count);
    t := Turn(s, rest, now, script);
    if SinceLastRun(e.last, now, e.every).1 {
      var _ := CallAlive(s1, rest, now, script, p, x, count);
    }
  }

  lemma TurnOver(s: Sched, rest: nat, now: Time, script: Script, x: nat, count: nat)
    requires Ok(s) && 0 < rest <= |s.events| && Over(s, x, count)
    ensures Over(Turn(s, rest, now, script), x, count)
  {
    var t := Turn(s, rest, now, script);
    TurnKeepsRest(s, rest, now, script);
    TurnCalls(s, rest, now, script);
    if t.calls != s.calls {
      CallAdded(s.calls, Call(At(s, rest).id, now));
      assert At(s, rest).id != x;
    }
    ExtendsOver(s, t, x, count);
  }

  lemma ExtendsOver(s: Sched, t: Sched, x: nat, count: nat)
    requires Over(s, x, count) && Extends(s, t) && Num(t.calls, x) == Num(s.calls, x)
    ensures Over(t, x, count)
  {
    var d := |t.events| - |s.events|;
    forall i | 0 <= i < |t.events| && t.events[i].id == x ensures t.events[i].deleted {
      assert i >= d;
      assert Continues(s.events[i - d], t.events[i - d + d]);
    }
  }

  lemma {:induction false} LoopOver(s: Sched, rest: nat, now: Time, script: Script, x: nat, count: nat)
    returns (u: Sched)
    requires Ok(s) && rest <= |s.events| && Over(s, x, count)
    ensures u == Loop(s, rest, now, script) && Over(u, x, count)
    decreases rest
  {
    if rest == 0 {
      u := s;
    } else {
      var t := TurnOk(s, rest, now, script);
      TurnOver(s, rest, now, script, x, count);
      u := LoopOver(t, rest - 1, now, script, x, count);
    }
  }

  lemma {:induction false} LoopAlive(
    s: Sched, rest: nat, now: Time, script: Script, p: nat, x: nat, count: nat) returns (u: Sched)
    requires Ok(s) && rest <= |s.events| && AliveAt(s, p, x, count) && ScriptSpares(script, x)
    ensures u == Loop(s, rest, now, script) && (Alive(u, x, count) || Over(u, x, count))
    decreases rest
  {
    if rest == 0 {
      u := s;
    } else {
      var t := TurnAlive(s, rest, now, script, p, x, count);
      var _ := TurnOk(s, rest, now, script);
      if AliveAt(t, p + |t.events| - |s.events|, x, count) {
        u := LoopAlive(t, rest - 1, now, script, p + |t.events| - |s.events|, x, count);
      } else {
        u := LoopOver(t, rest - 1, now, script, x, count);
      }
    }
  }

  /** After a pass an event that was alive is alive, or over because it has had all its calls. */
  lemma PassAlive(s: Sched, now: Time, script: Script, x: nat, count: nat)
    requires Ok(s) && ScriptSpares(script, x) && (Alive(s, x, count) || Over(s, x, count))
    ensures Alive(Pass(s, now, script), x, count) || Over(Pass(s, now, script), x, count)
  {
    var u;
    if Alive(s, x, count) {
      var p: nat :| AliveAt(s, p, x, count);
      u := LoopAlive(s, |s.events|, now, script, p, x, count);
    } else {
      u := LoopOver(s, |s.events|, now, script, x, count);
    }
    LiveAlive(u, x, count);
  }

  lemma LiveAlive(u: Sched, x: nat, count: nat)
    requires Alive(u, x, count) || Over(u, x, count)
    ensures var t := u.(events := Live(u.events)); Alive(t, x, count) || Over(t, x, count)
  {
    var t := u.(events := Live(u.events));
    LiveMembers(u.events);
    if Alive(u, x, count) {
      var p: nat :| AliveAt(u, p, x, count);
      assert u.events[p] in t.events;
      var q :| 0 <= q < |t.events| && t.events[q] == u.events[p];
      assert AliveAt(t, q, x, count);
    } else {
      forall e | e in t.events ensures e.id != x {
        var i :| 0 <= i < |u.events| && u.events[i] == e;
      }
    }
  }

  // ---------------------------------------------------------------- runs

  ghost predicate StepSpares(step: Step, x: nat) {
    match step
    case Use(a, now) => Spares(a, x)
    case RunPass(now, script) => ScriptSpares(script, x)
  }

  lemma ActAlive(s: Sched, a: Action, now: Time, x: nat, count: nat)
    requires Spares(a, x) && (Alive(s, x, count) || Over(s, x, count))
    ensures Alive(Act(s, a, now), x, count) || Over(Act(s, a, now), x, count)
  {
    if Alive(s, x, count) {
      var p: nat :| AliveAt(s, p, x, count);
      ActStands(s, a, now, p);
      ActCalls(s, a, now);
      assert AliveAt(Act(s, a, now), p + |Act(s, a, now).events| - |s.events|, x, count);
    } else {
      ActExtends(s, a, now);
      ExtendsOver(s, Act(s, a, now), x, count);
    }
  }

  lemma ActCalls(s: Sched, a: Action, now: Time)
    ensures Act(s, a, now).calls == s.calls
  {
  }

  lemma StepAlive(s: Sched, step: Step, x: nat, count: nat)
    requires Ok(s) && StepSpares(step, x) && (Alive(s, x, count) || Over(s, x, count))
    ensures Ok(Perform(s, step))
    ensures Alive(Perform(s, step), x, count) || Over(Perform(s, step), x, count)
  {
    match step
    case Use(a, now) =>
      ActOk(s, a, now);
      ActAlive(s, a, now, x, count);
    case RunPass(now, script) =>
      PassCleansUp(s, now, script);
      PassAlive(s, now, script, x, count);
  }

  /** While an event is alive it has calls to go. */
  lemma AliveNotOver(s: Sched, x: nat, count: nat)
    ensures !(Alive(s, x, count) && Over(s, x, count))
  {
    if Alive(s, x, count) {
      var p: nat :| AliveAt(s, p, x, count);
    }
  }

  /** Over any run after it was added, an event that nobody deletes or sets the count of is listed and
      alive exactly as long as it has had fewer calls than asked for, and for ever if no number was
      given. */
  lemma {:induction false} LivesUntilCalled(ss: seq<Sched>, steps: seq<Step>, name: string, every: int,
                                            count: nat, owner: Option<nat>, now: Time, t: nat)
    requires |ss| == |steps| + 1 && t <= |steps| && Ok(ss[0]) && every >= 0 && t > 0
    requires steps[0] == Use(AddEvent(name, every, count, owner), now)
    requires forall i | 0 <= i < |steps| :: ss[i + 1] == Perform(ss[i], steps[i])
    requires forall i | 0 < i < |steps| :: StepSpares(steps[i], ss[0].nextId)
    ensures Ok(ss[t]) && (Alive(ss[t], ss[0].nextId, count) || Over(ss[t], ss[0].nextId, count))
    ensures Alive(ss[t], ss[0].nextId, count) <==> count == 0 || Num(ss[t].calls, ss[0].nextId) < count
  {
    var x := ss[0].nextId;
    assert ss[t - 1 + 1] == Perform(ss[t - 1], steps[t - 1]);
    if t == 1 {
      ActOk(ss[0], steps[0].a, now);
      NeverCalled(ss[0].calls, x);
      assert AliveAt(ss[1], 0, x, count);
    } else {
      LivesUntilCalled(ss, steps, name, every, count, owner, now, t - 1);
      StepAlive(ss[t - 1], steps[t - 1], x, count);
    }
    AliveNotOver(ss[t], x, count);
  }
}
