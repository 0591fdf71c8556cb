/** The event scheduler: functions called at intervals, over a list that the called functions
    themselves extend, change and mark entries of as deleted. */
module Events {
  import opened Common

  /** A `struct timeval`. */
  datatype Time = Time(sec: int, usec: int)

  /** `id` is the address of the struct. A count of 0 means "for ever". */
  datatype Event = Event(
    id: nat, name: string, count: int, every: int, last: Time, deleted: bool, owner: Option<nat>)

  /** What a called function, or anyone else, may do to the scheduler. */
  datatype Action =
    | AddEvent(name: string, every: int, count: int, owner: Option<nat>)
    | DelEvent(id: nat)
    | ModEvent(id: nat, newEvery: Option<int>, newCount: Option<int>, newName: Option<string>)

  datatype Call = Call(id: nat, at: Time)

  /** `calls` is the history of functions called. */
  datatype Sched = Sched(events: seq<Event>, nextId: nat, calls: seq<Call>)

  /** What the n-th call ever made, if it is one of event `id`, does to the scheduler. */
  type Script = (nat, nat) -> seq<Action>

  // ---------------------------------------------------------------- operations

  function FindEvent(events: seq<Event>, id: nat): (k: nat)
    ensures k <= |events|
    ensures k < |events| ==> events[k].id == id
    ensures forall i | 0 <= i < k :: events[i].id != id
  {
    if events == [] || events[0].id == id then 0 else 1 + FindEvent(events[1..], id)
  }

  /** EventDel: mark, relabel and disown. */
  function Deleted(e: Event): Event {
    e.(deleted := true, name := Clip("deleted:" + e.name, 128), owner := None)
  }

  /** EventMod. */
  function Modified(e: Event, a: Action): Event
    requires a.ModEvent?
  {
    e.(every := if a.newEvery.Some? then a.newEvery.value else e.every,
       count := if a.newCount.Some? then a.newCount.value else e.count,
       name := if a.newName.Some? then a.newName.value else e.name)
  }

  function Act(s: Sched, a: Action, now: Time): Sched {
    match a
    case AddEvent(name, every, count, owner) =>
      if every < 0 || count < 0 then s
      else s.(events := [Event(s.nextId, name, count, every, now, false, owner)] + s.events,
              nextId := s.nextId + 1)
    case DelEvent(id) =>
      var k := FindEvent(s.events, id);
      if k == |s.events| then s else s.(events := s.events[k := Deleted(s.events[k])])
    case ModEvent(id, _, _, _) =>
      var k := FindEvent(s.events, id);
      if k == |s.events| then s else s.(events := s.events[k := Modified(s.events[k], a)])
  }

  function ActAll(s: Sched, acts: seq<Action>, now: Time): Sched
    decreases acts
  {
    if acts == [] then s else ActAll(Act(s, acts[0], now), acts[1..], now)
  }

  /** C division, which rounds toward zero. */
  function TruncDiv(a: int, b: int): int
    requires b > 0
  {
    if a >= 0 then a / b else -((-a) / b)
  }

  /** minimum_msec_since_last_run: the new value of the time it keeps, and its answer. */
  function SinceLastRun(last: Time, now: Time, minimum: int): (Time, bool) {
    if last.sec == 0 then (now, false)
    else
      var v := (now.sec - last.sec) * 1000 + TruncDiv(now.usec - last.usec, 1000);
      if v >= minimum then (now, true) else (last, false)
  }

  /** The number of events behind the front of the list stands for the pointer of the loop: the list
      only grows in front while the loop runs. */
  function At(s: Sched, rest: nat): Event
    requires 0 < rest <= |s.events|
  {
    s.events[|s.events| - rest]
  }

  function SetAt(s: Sched, rest: nat, e: Event): Sched
    requires 0 < rest <= |s.events|
  {
    s.(events := s.events[|s.events| - rest := e])
  }

  function Logged(s: Sched, rest: nat, now: Time): Sched
    requires 0 < rest <= |s.events|
  {
    s.(calls := s.calls + [Call(At(s, rest).id, now)])
  }

  /** A limited event has one call less to go, and is deleted when none is left. */
  function Counted(e: Event): Event {
    if e.count <= 0 then e
    else if e.count == 1 then Deleted(e.(count := 0))
    else e.(count := e.count - 1)
  }

  /** Call the function of the event at `rest`, and count the call. */
  function CallAt(s: Sched, rest: nat, now: Time, script: Script): Sched
    requires 0 < rest <= |s.events|
  {
    var acts := script(At(s, rest).id, |s.calls|);
    var s1 := ActAll(Logged(s, rest, now), acts, now);
    ActKeepsRest(Logged(s, rest, now), acts, now);
    SetAt(s1, rest, Counted(At(s1, rest)))
  }

  /** One turn of the loop of DoEvents. */
  function Turn(s: Sched, rest: nat, now: Time, script: Script): Sched
    requires 0 < rest <= |s.events|
  {
    var e := At(s, rest);
    if e.deleted then s
    else if e.count == -1 then SetAt(s, rest, Deleted(e))
    else if e.every == 0 then CallAt(s, rest, now, script)
    else
      var (last, due) := SinceLastRun(e.last, now, e.every);
      var s1 := SetAt(s, rest, e.(last := last));
      if due then CallAt(s1, rest, now, script) else s1
  }

  function Loop(s: Sched, rest: nat, now: Time, script: Script): Sched
    requires rest <= |s.events|
    decreases rest
  {
    if rest == 0 then s
    else
      TurnKeepsRest(s, rest, now, script);
      Loop(Turn(s, rest, now, script), rest - 1, now, script)
  }

  /** CleanupEvents. */
  function Live(events: seq<Event>): seq<Event> {
    if events == [] then []
    else if events[0].deleted then Live(events[1..])
    else [events[0]] + Live(events[1..])
  }

  /** DoEvents. */
  function Pass(s: Sched, now: Time, script: Script): Sched {
    var s1 := Loop(s, |s.events|, now, script);
    s1.(events := Live(s1.events))
  }

  // ---------------------------------------------------------------- the list while it is walked

  /** The same event later on: nothing is undeleted. */
  predicate Continues(e: Event, f: Event) { e.id == f.id && (e.deleted ==> f.deleted) }

  /** The same events at the end of the list, and in front of them only new ones. */
  ghost predicate Extends(s: Sched, t: Sched) {
    && |s.events| <= |t.events| && s.nextId <= t.nextId && s.calls <= t.calls
    && (forall i | 0 <= i < |s.events| ::
          Continues(s.events[i], t.events[i + |t.events| - |s.events|]))
    && (forall i | 0 <= i < |t.events| - |s.events| :: s.nextId <= t.events[i].id < t.nextId)
  }

  lemma ExtendsTrans(s: Sched, t: Sched, u: Sched)
    requires Extends(s, t) && Extends(t, u)
    ensures Extends(s, u)
  {
    var d, d1 := |t.events| - |s.events|, |u.events| - |t.events|;
    forall i | 0 <= i < |s.events| ensures Continues(s.events[i], u.events[i + d + d1]) {
      assert Continues(s.events[i], t.events[i + d]);
      assert Continues(t.events[i + d], u.events[i + d + d1]);
    }
    forall i | 0 <= i < d + d1 ensures s.nextId <= u.events[i].id < u.nextId {
      if i >= d1 {
        assert Continues(t.events[i - d1], u.events[i]);
      }
    }
  }

  /** The same place of the list holds the same event. */
  lemma ExtendsAt(s: Sched, t: Sched, rest: nat)
    requires Extends(s, t) && 0 < rest <= |s.events|
    ensures Continues(At(s, rest), At(t, rest))
  {
    var i := |s.events| - rest;
    assert Continues(s.events[i], t.events[i + |t.events| - |s.events|]);
  }

  lemma SetExtends(s: Sched, k: nat, e: Event)
    requires k < |s.events| && Continues(s.events[k], e)
    ensures Extends(s, s.(events := s.events[k := e]))
  {
  }

  lemma LoggedExtends(s: Sched, rest: nat, now: Time)
    requires 0 < rest <= |s.events|
    ensures Extends(s, Logged(s, rest, now))
  {
  }

  lemma ActExtends(s: Sched, a: Action, now: Time)
    ensures Extends(s, Act(s, a, now)) && Act(s, a, now).calls == s.calls
  {
    if !a.AddEvent? {
      var k := FindEvent(s.events, a.id);
      if k < |s.events| {
        SetExtends(s, k, if a.DelEvent? then Deleted(s.events[k]) else Modified(s.events[k], a));
      }
    }
  }

  lemma {:induction false} ActKeepsRest(s: Sched, acts: seq<Action>, now: Time)
    ensures Extends(s, ActAll(s, acts, now)) && ActAll(s, acts, now).calls == s.calls
    decreases acts
  {
    if acts != [] {
      ActExtends(s, acts[0], now);
      ActKeepsRest(Act(s, acts[0], now), acts[1..], now);
      ExtendsTrans(s, Act(s, acts[0], now), ActAll(s, acts, now));
    }
  }

  lemma LoggedActsExtend(s: Sched, rest: nat, acts: seq<Action>, now: Time) returns (s1: Sched)
    requires 0 < rest <= |s.events|
    ensures s1 == ActAll(Logged(s, rest, now), acts, now) && Extends(s, s1)
  {
    var s0 := Logged(s, rest, now);
    s1 := ActAll(s0, acts, now);
    LoggedExtends(s, rest, now);
    ActKeepsRest(s0, acts, now);
    ExtendsTrans(s, s0, s1);
  }

  lemma CountedExtends(s: Sched, s1: Sched, rest: nat)
    requires 0 < rest <= |s1.events| && Extends(s, s1)
    ensures Extends(s, SetAt(s1, rest, Counted(At(s1, rest))))
  {
    var e := At(s1, rest);
    assert Continues(e, Counted(e));
    SetExtends(s1, |s1.events| - rest, Counted(e));
    ExtendsTrans(s, s1, SetAt(s1, rest, Counted(e)));
  }

  lemma CallKeepsRest(s: Sched, rest: nat, now: Time, script: Script)
    requires 0 < rest <= |s.events|
    ensures Extends(s, CallAt(s, rest, now, script))
  {
    var s1 := LoggedActsExtend(s, rest, script(At(s, rest).id, |s.calls|), now);
    CountedExtends(s, s1, rest);
  }

  lemma TurnKeepsRest(s: Sched, rest: nat, now: Time, script: Script)
    requires 0 < rest <= |s.events|
    ensures Extends(s, Turn(s, rest, now, script))
  {
    var e := At(s, rest);
    if e.deleted {
    } else if e.count == -1 {
      SetExtends(s, |s.events| - rest, Deleted(e));
    } else if e.every == 0 {
      CallKeepsRest(s, rest, now, script);
    } else {
      var s1 := SetAt(s, rest, e.(last := SinceLastRun(e.last, now, e.every).0));
      SetExtends(s, |s.events| - rest, e.(last := SinceLastRun(e.last, now, e.every).0));
      CallKeepsRest(s1, rest, now, script);
      ExtendsTrans(s, s1, CallAt(s1, rest, now, script));
    }
  }

  // ---------------------------------------------------------------- which events a pass calls

  ghost predicate Increasing(at: seq<nat>) {
    forall i, j | 0 <= i < j < |at| :: at[i] < at[j]
  }

  /** The calls made at `now` are those of the events at positions `at`, none of them deleted. */
  ghost predicate CallsOf(calls: seq<Call>, events: seq<Event>, at: seq<nat>, now: Time) {
    && |calls| == |at| && Increasing(at)
    && (forall i | 0 <= i < |at| ::
          at[i] < |events| && !events[at[i]].deleted && calls[i] == Call(events[at[i]].id, now))
  }

  lemma TurnCalls(s: Sched, rest: nat, now: Time, script: Script)
    requires 0 < rest <= |s.events|
    ensures var t := Turn(s, rest, now, script);
            t.calls == s.calls || (t.calls == s.calls + [Call(At(s, rest).id, now)] && !At(s, rest).deleted)
  {
    var e := At(s, rest);
    CallLog(s, rest, now, script);
    CallLog(SetAt(s, rest, e.(last := SinceLastRun(e.last, now, e.every).0)), rest, now, script);
  }

  lemma CallLog(s: Sched, rest: nat, now: Time, script: Script)
    requires 0 < rest <= |s.events|
    ensures CallAt(s, rest, now, script).calls == s.calls + [Call(At(s, rest).id, now)]
  {
    ActKeepsRest(Logged(s, rest, now), script(At(s, rest).id, |s.calls|), now);
  }

  /** From any point of a pass on, the events called are events still ahead and not deleted at that
      point, in list order and each at most once: no event added since, and none deleted since. */
  lemma {:induction false} LoopCalls(s: Sched, rest: nat, now: Time, script: Script)
    returns (u: Sched, at: seq<nat>)
    requires rest <= |s.events|
    ensures u == Loop(s, rest, now, script)
    ensures Extends(s, u)
    ensures CallsOf(u.calls[|s.calls|..], s.events, at, now)
    ensures forall i | 0 <= i < |at| :: |s.events| - rest <= at[i]
    decreases rest
  {
    if rest == 0 {
      u, at := s, [];
    } else {
      TurnKeepsRest(s, rest, now, script);
      TurnCalls(s, rest, now, script);
      var t := Turn(s, rest, now, script);
      u, at := LoopCalls(t, rest - 1, now, script);
      ExtendsTrans(s, t, u);
      at := EarlierCalls(s, t, u.calls, at, now, rest);
    }
  }

  /** The calls made from `t` on, and the one, if any, that led from `s` to `t`. */
  lemma EarlierCalls(s: Sched, t: Sched, calls: seq<Call>, at1: seq<nat>, now: Time, rest: nat)
    returns (at: seq<nat>)
    requires 0 < rest <= |s.events| && Extends(s, t) && t.calls <= calls
    requires t.calls == s.calls || (t.calls == s.calls + [Call(At(s, rest).id, now)] && !At(s, rest).deleted)
    requires CallsOf(calls[|t.calls|..], t.events, at1, now)
    requires forall i | 0 <= i < |at1| :: |t.events| - rest + 1 <= at1[i]
    ensures CallsOf(calls[|s.calls|..], s.events, at, now)
    ensures forall i | 0 <= i < |at| :: |s.events| - rest <= at[i]
  {
    var lo := |t.events| - rest + 1;
    at := Shift(at1, |t.events| - |s.events|, lo);
    ShiftedCalls(s, t, calls[|t.calls|..], at1, at, now, lo);
    if t.calls != s.calls {
      assert calls[|s.calls|..] == [Call(At(s, rest).id, now)] + calls[|t.calls|..];
      at := OneMoreCall(calls[|t.calls|..], s.events, at, now, |s.events| - rest);
    }
  }

  lemma OneMoreCall(calls: seq<Call>, events: seq<Event>, at: seq<nat>, now: Time, k: nat)
    returns (at1: seq<nat>)
    requires CallsOf(calls, events, at, now) && k < |events| && !events[k].deleted
    requires forall i | 0 <= i < |at| :: k < at[i]
    ensures CallsOf([Call(events[k].id, now)] + calls, events, at1, now)
    ensures forall i | 0 <= i < |at1| :: k <= at1[i]
  {
    at1 := [k] + at;
  }

  function Shift(at: seq<nat>, d: nat, lo: nat): seq<nat>
    requires d <= lo && forall i | 0 <= i < |at| :: lo <= at[i]
  {
    seq(|at|, i requires 0 <= i < |at| => at[i] - d)
  }

  lemma ShiftedCalls(s: Sched, t: Sched, calls: seq<Call>, at: seq<nat>, back: seq<nat>, now: Time, lo: nat)
    requires Extends(s, t) && CallsOf(calls, t.events, at, now) && |t.events| - |s.events| <= lo
    requires forall i | 0 <= i < |at| :: lo <= at[i]
    requires back == Shift(at, |t.events| - |s.events|, lo)
    ensures CallsOf(calls, s.events, back, now)
  {
    var d := |t.events| - |s.events|;
    forall i | 0 <= i < |back|
      ensures back[i] < |s.events| && !s.events[back[i]].deleted &&
              calls[i] == Call(s.events[back[i]].id, now)
    {
      assert Continues(s.events[at[i] - d], t.events[at[i] - d + d]);
    }
  }

  /** DoEvents calls only events that were listed and not deleted when it started, each at most once, in
      list order. */
  lemma PassCalls(s: Sched, now: Time, script: Script) returns (at: seq<nat>)
    ensures s.calls <= Pass(s, now, script).calls
    ensures CallsOf(Pass(s, now, script).calls[|s.calls|..], s.events, at, now)
  {
    var u;
    u, at := LoopCalls(s, |s.events|, now, script);
  }

  lemma {:induction false} LiveMembers(events: seq<Event>)
    ensures forall e :: e in Live(events) <==> e in events && !e.deleted
  {
    if events != [] {
      LiveMembers(events[1..]);
    }
  }

  // ---------------------------------------------------------------- what every operation keeps

  /** Ids are unique and known, a deleted event has no owner, and only known events were called. */
  ghost predicate Ok(s: Sched) {
    && (forall i, j | 0 <= i < j < |s.events| :: s.events[i].id != s.events[j].id)
    && (forall i | 0 <= i < |s.events| :: Sound(s.events[i], s.nextId))
    && (forall i | 0 <= i < |s.calls| :: s.calls[i].id < s.nextId)
  }

  predicate Sound(e: Event, nextId: nat) { e.id < nextId && (e.deleted ==> e.owner.None?) }

  lemma SetOk(s: Sched, k: nat, e: Event)
    requires Ok(s) && k < |s.events| && e.id == s.events[k].id && (e.deleted ==> e.owner.None?)
    ensures Ok(s.(events := s.events[k := e]))
  {
    assert Sound(s.events[k], s.nextId);
  }

  lemma AddEventOk(s: Sched, e: Event)
    requires Ok(s) && e.id == s.nextId && !e.deleted
    ensures Ok(s.(events := [e] + s.events, nextId := s.nextId + 1))
  {
    var events := [e] + s.events;
    forall i | 0 <= i < |events| ensures Sound(events[i], s.nextId + 1) && (i > 0 ==> events[i].id < s.nextId) {
      assert i > 0 ==> Sound(s.events[i - 1], s.nextId);
    }
  }

  lemma ActOk(s: Sched, a: Action, now: Time)
    requires Ok(s)
    ensures Ok(Act(s, a, now))
  {
    if a.AddEvent? {
      if a.every >= 0 && a.count >= 0 {
        AddEventOk(s, Event(s.nextId, a.name, a.count, a.every, now, false, a.owner));
      }
    } else {
      var k := FindEvent(s.events, a.id);
      if k < |s.events| {
        assert Sound(s.events[k], s.nextId);
        SetOk(s, k, if a.DelEvent? then Deleted(s.events[k]) else Modified(s.events[k], a));
      }
    }
  }

  lemma {:induction false} ActAllOk(s: Sched, acts: seq<Action>, now: Time)
    requires Ok(s)
    ensures Ok(ActAll(s, acts, now))
    decreases acts
  {
    if acts != [] {
      ActOk(s, acts[0], now);
      ActAllOk(Act(s, acts[0], now), acts[1..], now);
    }
  }

  lemma LoggedActsOk(s: Sched, rest: nat, acts: seq<Action>, now: Time) returns (s1: Sched)
    requires Ok(s) && 0 < rest <= |s.events|
    ensures s1 == ActAll(Logged(s, rest, now), acts, now)
    ensures Ok(s1) && |s.events| <= |s1.events|
  {
    var s0 := Logged(s, rest, now);
    s1 := ActAll(s0, acts, now);
    assert Ok(s0) by {
      assert Sound(At(s, rest), s.nextId);
    }
    ActAllOk(s0, acts, now);
    ActKeepsRest(s0, acts, now);
  }

  lemma CallOk(s: Sched, rest: nat, now: Time, script: Script)
    requires Ok(s) && 0 < rest <= |s.events|
    ensures Ok(CallAt(s, rest, now, script))
  {
    var s1 := LoggedActsOk(s, rest, script(At(s, rest).id, |s.calls|), now);
    assert Sound(At(s1, rest), s1.nextId);
    SetOk(s1, |s1.events| - rest, Counted(At(s1, rest)));
  }

  lemma TurnGrows(s: Sched, rest: nat, now: Time, script: Script)
    requires 0 < rest <= |s.events|
    ensures |Turn(s, rest, now, script).events| >= |s.events|
  {
    TurnKeepsRest(s, rest, now, script);
  }

  lemma TurnOk(s: Sched, rest: nat, now: Time, script: Script) returns (t: Sched)
    requires Ok(s) && 0 < rest <= |s.events|
    ensures t == Turn(s, rest, now, script)
    ensures Ok(t) && |t.events| >= |s.events|
  {
    t := Turn(s, rest, now, script);
    TurnGrows(s, rest, now, script);
    var e := At(s, rest);
    assert Sound(e, s.nextId);
    if e.deleted {
    } else if e.count == -1 {
      SetOk(s, |s.events| - rest, Deleted(e));
    } else if e.every == 0 {
      CallOk(s, rest, now, script);
    } else {
      var e1 := e.(last := SinceLastRun(e.last, now, e.every).0);
      SetOk(s, |s.events| - rest, e1);
      CallOk(SetAt(s, rest, e1), rest, now, script);
    }
  }

  lemma {:induction false} LoopOk(s: Sched, rest: nat, now: Time, script: Script) returns (u: Sched)
    requires Ok(s) && rest <= |s.events|
    ensures u == Loop(s, rest, now, script)
    ensures Ok(u)
    decreases rest
  {
    if rest == 0 {
      u := s;
    } else {
      var t := TurnOk(s, rest, now, script);
      u := LoopOk(t, rest - 1, now, script);
    }
  }

  lemma {:induction false} LiveOk(events: seq<Event>, nextId: nat, calls: seq<Call>)
    requires Ok(Sched(events, nextId, calls))
    ensures Ok(Sched(Live(events), nextId, calls))
  {
    if events != [] {
      var tail := Sched(events[1..], nextId, calls);
      assert forall i | 0 <= i < |tail.events| :: tail.events[i] == events[i + 1];
      LiveOk(events[1..], nextId, calls);
      LiveMembers(events[1..]);
      forall e | e in Live(events[1..]) ensures e.id != events[0].id {
        var i :| 0 <= i < |events[1..]| && events[1..][i] == e;
        assert events[i + 1] == e;
      }
    }
  }

  /** A pass leaves no deleted event listed, and every other one that was listed or added. */
  lemma PassCleansUp(s: Sched, now: Time, script: Script)
    requires Ok(s)
    ensures Ok(Pass(s, now, script))
    ensures forall e | e in Pass(s, now, script).events :: !e.deleted
    ensures forall e | e in Loop(s, |s.events|, now, script).events ::
              !e.deleted ==> e in Pass(s, now, script).events
  {
    var s1 := LoopOk(s, |s.events|, now, script);
    LiveOk(s1.events, s1.nextId, s1.calls);
    LiveMembers(s1.events);
  }

  // ---------------------------------------------------------------- events that are left alone

  predicate Targets(a: Action, x: nat) { !a.AddEvent? && a.id == x }

  /** No called function deletes or changes event `x`. */
  ghost predicate LeavesAlone(script: Script, x: nat) {
    forall id, n, i | 0 <= i < |script(id, n)| :: !Targets(script(id, n)[i], x)
  }

  predicate Due(e: Event, now: Time) {
    !e.deleted && e.count != -1 && (e.every == 0 || SinceLastRun(e.last, now, e.every).1)
  }

  /** The event at position `p` of `s` stands unchanged in `t`, with everything behind it. */
  ghost predicate StaysAt(s: Sched, t: Sched, p: nat) {
    p < |s.events| <= |t.events| && t.events[p + |t.events| - |s.events|] == s.events[p]
  }

  lemma {:induction false} ActLeaves(s: Sched, acts: seq<Action>, now: Time, p: nat)
    requires Ok(s) && p < |s.events|
    requires forall i | 0 <= i < |acts| :: !Targets(acts[i], s.events[p].id)
    ensures StaysAt(s, ActAll(s, acts, now), p)
    decreases acts
  {
    if acts != [] {
      var t := Act(s, acts[0], now);
      assert !Targets(acts[0], s.events[p].id);
      ActOk(s, acts[0], now);
      assert StaysAt(s, t, p);
      ActLeaves(t, acts[1..], now, p + |t.events| - |s.events|);
    }
  }

  lemma CallLeaves(s: Sched, rest: nat, now: Time, script: Script, p: nat)
    requires Ok(s) && 0 < rest <= |s.events| && |s.events| - rest < p < |s.events|
    requires LeavesAlone(script, s.events[p].id)
    ensures StaysAt(s, CallAt(s, rest, now, script), p)
  {
    var s0, acts := Logged(s, rest, now), script(At(s, rest).id, |s.calls|);
    assert Sound(At(s, rest), s.nextId);
    assert Ok(s0);
    assert forall i | 0 <= i < |acts| :: !Targets(script(At(s, rest).id, |s.calls|)[i], s.events[p].id);
    ActLeaves(s0, acts, now, p);
  }

  lemma TurnLeaves(s: Sched, rest: nat, now: Time, script: Script, p: nat) returns (t: Sched)
    requires Ok(s) && 0 < rest <= |s.events| && |s.events| - rest < p < |s.events|
    requires LeavesAlone(script, s.events[p].id)
    ensures t == Turn(s, rest, now, script)
    ensures StaysAt(s, t, p)
  {
    t := Turn(s, rest, now, script);
    var e := At(s, rest);
    if !e.deleted && e.count != -1 {
      if e.every == 0 {
        CallLeaves(s, rest, now, script, p);
      } else {
        var e1 := e.(last := SinceLastRun(e.last, now, e.every).0);
        SetOk(s, |s.events| - rest, e1);
        CallLeaves(SetAt(s, rest, e1), rest, now, script, p);
      }
    }
  }

  lemma TurnCallsDue(s: Sched, rest: nat, now: Time, script: Script)
    requires 0 < rest <= |s.events| && Due(At(s, rest), now)
    ensures Turn(s, rest, now, script).calls == s.calls + [Call(At(s, rest).id, now)]
  {
    var e := At(s, rest);
    CallLog(s, rest, now, script);
    CallLog(SetAt(s, rest, e.(last := SinceLastRun(e.last, now, e.every).0)), rest, now, script);
  }

  /** A pass does call every event that is due and left alone by the others. */
  lemma {:induction false} LoopCallsDue(s: Sched, rest: nat, now: Time, script: Script, p: nat)
    returns (u: Sched)
    requires Ok(s) && rest <= |s.events| && |s.events| - rest <= p < |s.events|
    requires Due(s.events[p], now) && LeavesAlone(script, s.events[p].id)
    ensures u == Loop(s, rest, now, script)
    ensures s.calls <= u.calls && Call(s.events[p].id, now) in u.calls[|s.calls|..]
    decreases rest
  {
    var t := TurnOk(s, rest, now, script);
    var at;
    if p == |s.events| - rest {
      TurnCallsDue(s, rest, now, script);
      u, at := LoopCalls(t, rest - 1, now, script);
      assert u.calls[|s.calls|..][0] == Call(s.events[p].id, now);
    } else {
      t := TurnLeaves(s, rest, now, script, p);
      TurnCalls(s, rest, now, script);
      u := LoopCallsDue(t, rest - 1, now, script, p + |t.events| - |s.events|);
      var i :| 0 <= i < |u.calls[|t.calls|..]| && u.calls[|t.calls|..][i] == Call(s.events[p].id, now);
      assert u.calls[|s.calls|..][i + |t.calls| - |s.calls|] == Call(s.events[p].id, now);
    }
  }

  lemma PassCallsDue(s: Sched, now: Time, script: Script, p: nat)
    requires Ok(s) && p < |s.events| && Due(s.events[p], now) && LeavesAlone(script, s.events[p].id)
    ensures s.calls <= Pass(s, now, script).calls
    ensures Call(s.events[p].id, now) in Pass(s, now, script).calls[|s.calls|..]
  {
    var u := LoopCallsDue(s, |s.events|, now, script, p);
  }

  // ---------------------------------------------------------------- intervals

  function Elapsed(a: Time, b: Time): int { (b.sec - a.sec) * 1000000 + b.usec - a.usec }

  /** "At least this many milliseconds" holds exactly if they have passed, or if the microseconds ran
      backwards over the second and less than one millisecond is missing. */
  lemma DueExactly(last: Time, now: Time, minimum: int)
    requires last.sec != 0
    ensures SinceLastRun(last, now, minimum).1 <==>
            || Elapsed(last, now) >= minimum * 1000
            || (now.usec < last.usec && Elapsed(last, now) > (minimum - 1) * 1000)
  {
    var du := now.usec - last.usec;
    var q := TruncDiv(du, 1000);
    if du >= 0 {
      assert q * 1000 <= du < q * 1000 + 1000;
    } else {
      assert (-q) * 1000 <= -du < (-q) * 1000 + 1000;
    }
  }

  /** An interval of one millisecond is over after one microsecond, if a second ended in between. */
  lemma DueTooEarly()
    ensures SinceLastRun(Time(1, 999999), Time(2, 0), 1) == (Time(2, 0), true)
    ensures Elapsed(Time(1, 999999), Time(2, 0)) == 1
  {
    assert TruncDiv(-999999, 1000) == -999;
  }
}
