/** The code of the event scheduler. Every method is tied to the operation of Events it performs. */
module EventApi {
  import opened Common
  import opened Events

  class Scheduler {
    var events: seq<Event>
    var nextId: nat
    var calls: seq<Call>
    /** timeofday_tv. */
    var now: Time

    ghost function State(): Sched
      reads this
    {
      Sched(events, nextId, calls)
    }

    constructor (start: Time)
      ensures State() == Sched([], 0, []) && now == start && Ok(State())
    {
      events, nextId, calls, now := [], 0, [], start;
    }

    /** EventAdd. Intervals below 100 milliseconds are accepted; only negative numbers are refused. */
    method EventAdd(name: string, every: int, count: int, owner: Option<nat>) returns (id: Option<nat>)
      modifies this`events, this`nextId
      ensures State() == Act(old(State()), AddEvent(name, every, count, owner), now)
      ensures id == if every < 0 || count < 0 then None else Some(old(nextId))
    {
      if every < 0 || count < 0 {
        return None;
      }
      events := [Event(nextId, name, count, every, now, false, owner)] + events;
      id := Some(nextId);
      nextId := nextId + 1;
    }

    method FindPosition(id: nat) returns (k: nat)
      ensures k == FindEvent(events, id)
    {
      k := 0;
      while k < |events| && events[k].id != id
        invariant k <= |events| && FindEvent(events, id) == k + FindEvent(events[k..], id)
      {
        k := k + 1;
      }
    }

    /** EventDel. */
    method EventDel(id: nat)
      modifies this`events
      ensures State() == Act(old(State()), DelEvent(id), now)
    {
      var k := FindPosition(id);
      if k < |events| {
        var e := events[k].(deleted := true);
        e := e.(name := Clip("deleted:" + e.name, 128));
        if e.owner.Some? {
          e := e.(owner := None);
        }
        events := events[k := e];
      }
    }

    /** EventMod. */
    method EventMod(id: nat, newEvery: Option<int>, newCount: Option<int>, newName: Option<string>)
      modifies this`events
      ensures State() == Act(old(State()), ModEvent(id, newEvery, newCount, newName), now)
    {
      var k := FindPosition(id);
      if k < |events| {
        var e := events[k];
        if newEvery.Some? { e := e.(every := newEvery.value); }
        if newCount.Some? { e := e.(count := newCount.value); }
        if newName.Some? { e := e.(name := newName.value); }
        events := events[k := e];
      }
    }

    /** What a called function does. */
    method Run(acts: seq<Action>)
      modifies this`events, this`nextId
      ensures State() == ActAll(old(State()), acts, now)
    {
      var i := 0;
      assert acts[0..] == acts;
      while i < |acts|
        invariant i <= |acts|
        invariant ActAll(State(), acts[i..], now) == ActAll(old(State()), acts, now)
      {
        assert acts[i..][0] == acts[i] && acts[i..][1..] == acts[i + 1..];
        match acts[i] {
          case AddEvent(name, every, count, owner) => var _ := EventAdd(name, every, count, owner);
          case DelEvent(id) => EventDel(id);
          case ModEvent(id, e, c, n) => EventMod(id, e, c, n);
        }
        i := i + 1;
      }
    }

    /** EventDelReal: the two conditions on which the server would abort. */
    method EventDelReal(k: nat)
      requires k < |events| && events[k].deleted && events[k].owner.None?
      modifies this`events
      ensures events == RemoveAt(old(events), k)
    {
      events := RemoveAt(events, k);
    }

    /** CleanupEvents: neither condition ever fails. */
    method CleanupEvents()
      requires Ok(State())
      modifies this`events
      ensures events == Live(old(events))
    {
      var k := 0;
      ghost var seen := 0;
      assert events[0..] == events;
      while k < |events|
        invariant k <= seen <= |old(events)| && k <= |events|
        invariant events[k..] == old(events)[seen..]
        invariant events[..k] == Live(old(events)[..seen])
        decreases |events| - k
      {
        LiveSplit(old(events), seen);
        assert events[k] == events[k..][0] == old(events)[seen];
        assert events[k + 1..] == events[k..][1..] == old(events)[seen + 1..];
        assert Sound(old(events)[seen], nextId);
        if events[k].deleted {
          ghost var was := events;
          EventDelReal(k);
          assert events[..k] == was[..k] && events[k..] == was[k + 1..];
        } else {
          assert events[..k + 1] == events[..k] + [events[k]];
          k := k + 1;
        }
        seen := seen + 1;
      }
      assert events[..k] == events;
      assert |old(events)[seen..]| == 0;
      assert old(events)[..seen] == old(events);
    }

    /** DoEvents. The cursor stays on its event while events are added in front of it. */
    method DoEvents(script: Script)
      requires Ok(State())
      modifies this`events, this`nextId, this`calls
      ensures State() == Pass(old(State()), now, script) && Ok(State())
    {
      var rest: nat := |events|;
      while rest > 0
        invariant rest <= |events| && Ok(State())
        invariant Loop(State(), rest, now, script) == Loop(old(State()), |old(events)|, now, script)
      {
        ghost var s := State();
        ghost var t := TurnOk(s, rest, now, script);
        OneTurn(rest, script);
        rest := rest - 1;
      }
      PassCleansUp(old(State()), now, script);
      CleanupEvents();
    }

    method OneTurn(rest: nat, script: Script)
      requires 0 < rest <= |events|
      modifies this`events, this`nextId, this`calls
      ensures State() == Turn(old(State()), rest, now, script)
    {
      var k := |events| - rest;
      var e := events[k];
      if e.deleted {
        return;
      }
      if e.count == -1 {
        events := events[k := Deleted(e)];
        return;
      }
      if e.every == 0 {
        CallFunction(rest, script);
      } else {
        var (last, due) := SinceLastRun(e.last, now, e.every);
        events := events[k := e.(last := last)];
        if due {
          CallFunction(rest, script);
        }
      }
    }

    method CallFunction(rest: nat, script: Script)
      requires 0 < rest <= |events|
      modifies this`events, this`nextId, this`calls
      ensures State() == CallAt(old(State()), rest, now, script)
    {
      var e := events[|events| - rest];
      var acts := script(e.id, |calls|);
      calls := calls + [Call(e.id, now)];
      ActGrows(State(), acts, now);
      Run(acts);
      CountCall(|events| - rest);
    }

    /** The end of a call: one call less to go, unless the number is unlimited. */
    method CountCall(k: nat)
      requires k < |events|
      modifies this`events
      ensures events == old(events)[k := Counted(old(events)[k])]
    {
      var e := events[k];
      if e.count > 0 {
        e := e.(count := e.count - 1);
        events := events[k := if e.count == 0 then Deleted(e) else e];
      }
    }
  }

  lemma ActGrows(s: Sched, acts: seq<Action>, now: Time)
    ensures |ActAll(s, acts, now).events| >= |s.events|
  {
    ActKeepsRest(s, acts, now);
  }

  lemma {:induction false} LiveSplit(events: seq<Event>, k: nat)
    requires k < |events|
    ensures Live(events[..k + 1]) == Live(events[..k]) + if events[k].deleted then [] else [events[k]]
  {
    if k > 0 {
      LiveSplit(events[1..], k - 1);
      assert events[..k + 1][1..] == events[1..][..k] && events[..k][1..] == events[1..][..k - 1];
    }
  }
}
