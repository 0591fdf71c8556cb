/** Parameter cells that outlive their data: unloading a mode frees its parameter on every channel but
    leaves the pointer, and the slot may go to another mode. This module says, over whole runs, when a
    handler is given such a pointer. */
module ChannelModeStale {
  import opened Common
  import opened ChannelModes
  import opened ChannelModeInvariant
  import opened ChannelModeParameters
  import opened ChannelModeRuns

  ghost predicate IsStale(w: World, c: nat, s: nat) {
    c in w.channels && s < |w.channels[c].cells| && w.channels[c].cells[s] == Stale
  }

  /** The parameter mode in slot `s`, set on channel `c`. */
  ghost predicate SetInSlot(w: World, m: Cmode, c: nat, s: nat) {
    m in w.modes && HasSlot(m) && m.slot == s && m.bit.Some? && SetThere(w, c, m.bit.value)
  }

  /** The step that takes mode `m` off the list. */
  predicate Unloads(w: World, op: Op, m: Cmode) {
    !w.crashed && ((op.DelMode? && op.id == m.id && !w.rehashing) || (op.FinishRehash? && Unused(m)))
  }

  /** The step frees the parameter in slot `s` of channel `c`. */
  ghost predicate Frees(w: World, op: Op, c: nat, s: nat) {
    exists m | m in w.modes :: SetInSlot(w, m, c, s) && Unloads(w, op, m)
  }

  /** The step stores a new pointer, or none, in that cell. */
  ghost predicate Writes(w: World, op: Op, c: nat, s: nat) {
    && !w.crashed && (op.SetMode? || (op.ClearMode? && !op.resisted)) && op.c == c
    && exists m | m in w.modes ::
         m.id == op.id && HasSlot(m) && m.slot == s && (op.ClearMode? ==> SetInSlot(w, m, c, s))
  }

  lemma CommitCell(w: World, k: nat, c: nat, s: nat)
    requires Inv(w) && CellsFit(w) && k < |w.modes| && c in w.channels
    ensures IsStale(Commit(w, k), c, s) <==> IsStale(w, c, s) || (s < SLOTS && SetInSlot(w, w.modes[k], c, s))
  {
    var m := w.modes[k];
    assert m in w.modes && WellFormed(m);
    if HasSlot(m) {
      assert SlotOf(w.slotOf, m.letter) == m.slot;
    }
  }

  /** Committing one mode changes nothing for another. */
  lemma CommitSetInSlot(w: World, k: nat, m: Cmode, c: nat, s: nat)
    requires Inv(w) && CellsFit(w) && k < |w.modes| && c in w.channels
    ensures SetInSlot(Commit(w, k), m, c, s) <==> m != w.modes[k] && SetInSlot(w, m, c, s)
  {
    RemoveMembers(w.modes, k);
    if m in w.modes && m != w.modes[k] && m.bit.Some? {
      SameOrApart(w.modes, m, w.modes[k]);
      assert w.modes[k].bit != m.bit;
      CommitLeavesBit(w, k, m.bit.value);
    }
  }

  ghost predicate Swept(w: World, ids: seq<nat>, c: nat, s: nat) {
    exists m | m in w.modes :: SetInSlot(w, m, c, s) && Unused(m) && m.id in ids
  }

  lemma {:induction false} CommitUnusedCell(w: World, ids: seq<nat>, c: nat, s: nat)
    requires Inv(w) && CellsFit(w) && c in w.channels && s < SLOTS
    ensures IsStale(CommitUnused(w, ids), c, s) <==> IsStale(w, c, s) || Swept(w, ids, c, s)
    decreases ids
  {
    if ids != [] {
      var k := FindId(w.modes, ids[0]);
      if k < |w.modes| && Unused(w.modes[k]) {
        var w1 := Commit(w, k);
        CommitFits(w, k);
        CommitKeepsInv(w, k);
        CommitUnusedCell(w1, ids[1..], c, s);
        CommitCell(w, k, c, s);
        SweptCommit(w, ids, k, c, s);
      } else {
        CommitUnusedCell(w, ids[1..], c, s);
        SweptSkip(w, ids, c, s);
      }
    }
  }

  lemma SweptCommit(w: World, ids: seq<nat>, k: nat, c: nat, s: nat)
    requires Inv(w) && CellsFit(w) && c in w.channels && k < |w.modes| && Unused(w.modes[k])
    requires ids != [] && w.modes[k].id == ids[0]
    ensures Swept(w, ids, c, s) <==> SetInSlot(w, w.modes[k], c, s) || Swept(Commit(w, k), ids[1..], c, s)
  {
    RemoveMembers(w.modes, k);
    forall m | m in w.modes ensures m == w.modes[k] || m.id != ids[0] {
      SameOrApart(w.modes, m, w.modes[k]);
    }
    forall m ensures SetInSlot(Commit(w, k), m, c, s) <==> m != w.modes[k] && SetInSlot(w, m, c, s) {
      CommitSetInSlot(w, k, m, c, s);
    }
    if Swept(Commit(w, k), ids[1..], c, s) {
      var m :| m in Commit(w, k).modes && SetInSlot(Commit(w, k), m, c, s) && Unused(m) && m.id in ids[1..];
      assert m in w.modes && m.id in ids;
    }
    if SetInSlot(w, w.modes[k], c, s) {
      assert w.modes[k] in w.modes && w.modes[k].id in ids;
    }
  }

  lemma SweptSkip(w: World, ids: seq<nat>, c: nat, s: nat)
    requires Inv(w) && ids != []
    requires var k := FindId(w.modes, ids[0]); k < |w.modes| ==> !Unused(w.modes[k])
    ensures Swept(w, ids, c, s) <==> Swept(w, ids[1..], c, s)
  {
    var k := FindId(w.modes, ids[0]);
    forall m | m in w.modes && m.id == ids[0] ensures k < |w.modes| && m == w.modes[k] {
      var i :| 0 <= i < |w.modes| && w.modes[i] == m;
      SameOrApart(w.modes, m, w.modes[k]);
    }
  }

  /** One step: a cell is stale afterwards exactly if the step frees it, or it was stale and the step does
      not write it. */
  lemma StaleStep(w: World, op: Op, c: nat, s: nat)
    requires Inv(w) && CellsFit(w) && c in w.channels && c in Step(w, op).channels && s < SLOTS
    ensures IsStale(Step(w, op), c, s) <==> Frees(w, op, c, s) || (IsStale(w, c, s) && !Writes(w, op, c, s))
  {
    if !w.crashed {
      if op.DelMode? {
        DelStale(w, op.id, c, s);
      } else if op.FinishRehash? {
        FinishStale(w, c, s);
      } else if op.SetMode? || op.ClearMode? {
        ModeStale(w, op, c, s);
      } else {
        OtherStale(w, op, c, s);
      }
    }
  }

  /** The other steps leave the cells of a channel alone. */
  lemma OtherStale(w: World, op: Op, c: nat, s: nat)
    requires CellsFit(w) && c in w.channels && c in Step(w, op).channels
    requires !op.DelMode? && !op.FinishRehash? && !op.SetMode? && !op.ClearMode?
    ensures IsStale(Step(w, op), c, s) <==> IsStale(w, c, s)
  {
  }

  /** There is at most one mode with an id. */
  lemma OnlyWithId(w: World, id: nat)
    requires Inv(w)
    ensures var k := FindId(w.modes, id); forall m | m in w.modes && m.id == id :: k < |w.modes| && m == w.modes[k]
  {
    var k := FindId(w.modes, id);
    forall m | m in w.modes && m.id == id ensures k < |w.modes| && m == w.modes[k] {
      var i :| 0 <= i < |w.modes| && w.modes[i] == m;
      SameOrApart(w.modes, m, w.modes[k]);
    }
  }

  lemma DelStale(w: World, id: nat, c: nat, s: nat)
    requires Inv(w) && CellsFit(w) && c in w.channels && s < SLOTS && !w.crashed
    ensures IsStale(Del(w, id), c, s) <==> Frees(w, DelMode(id), c, s) || IsStale(w, c, s)
  {
    var k := FindId(w.modes, id);
    OnlyWithId(w, id);
    if k < |w.modes| && !w.rehashing {
      CommitCell(w, k, c, s);
      assert w.modes[k] in w.modes;
    }
  }

  lemma FinishStale(w: World, c: nat, s: nat)
    requires Inv(w) && CellsFit(w) && c in w.channels && s < SLOTS && !w.crashed
    ensures IsStale(Step(w, FinishRehash), c, s) <==> Frees(w, FinishRehash, c, s) || IsStale(w, c, s)
  {
    var ids := Ids(w.modes);
    CommitUnusedCell(w, ids, c, s);
    forall m | m in w.modes ensures m.id in ids {
      var i :| 0 <= i < |w.modes| && w.modes[i] == m;
      assert ids[i] == m.id;
    }
  }

  lemma ModeStale(w: World, op: Op, c: nat, s: nat)
    requires Inv(w) && CellsFit(w) && c in w.channels && s < SLOTS && !w.crashed
    requires op.SetMode? || op.ClearMode?
    ensures IsStale(Step(w, op), c, s) <==> IsStale(w, c, s) && !Writes(w, op, c, s)
  {
    if op.c == c {
      OnlyWithId(w, op.id);
      var k := FindId(w.modes, op.id);
      if k < |w.modes| {
        var m := w.modes[k];
        assert m in w.modes && WellFormed(m);
        WritesIs(w, op, m, s);
        ModeCell(w, k, op, s);
      }
    }
  }

  lemma WritesIs(w: World, op: Op, m: Cmode, s: nat)
    requires !w.crashed && (op.SetMode? || op.ClearMode?) && m in w.modes && m.id == op.id
    requires forall x | x in w.modes && x.id == op.id :: x == m
    ensures Writes(w, op, op.c, s) <==>
            && HasSlot(m) && m.slot == s
            && (op.ClearMode? ==> !op.resisted && m.bit.Some? && SetThere(w, op.c, m.bit.value))
  {
  }

  /** The cell of a parameter mode is the one that MODE writes. */
  lemma ModeCell(w: World, k: nat, op: Op, s: nat)
    requires Inv(w) && CellsFit(w) && (op.SetMode? || op.ClearMode?) && op.c in w.channels && s < SLOTS
    requires k < |w.modes| && k == FindId(w.modes, op.id)
    ensures var m, ch, ch1 := w.modes[k], w.channels[op.c], ChannelStep(w, w.channels[op.c], op);
            && |ch1.cells| == SLOTS + 1
            && if HasSlot(m) && m.slot == s && m.bit.Some? &&
                  (op.SetMode? || (!op.resisted && m.bit.value in ch.word))
               then ch1.cells[s] != Stale else ch1.cells[s] == ch.cells[s]
  {
    var m := w.modes[k];
    assert m in w.modes && WellFormed(m);
    if HasSlot(m) {
      assert SlotOf(w.slotOf, m.letter) == m.slot;
    }
  }

  // ---------------------------------------------------------------- runs

  /** Step `k` freed the parameter, and up to `t` the channel has lived on and nothing was stored. */
  ghost predicate LeftStale(ws: seq<World>, ops: seq<Op>, k: nat, t: nat, c: nat, s: nat)
    requires |ws| == |ops| + 1 && k < t < |ws|
  {
    && Frees(ws[k], ops[k], c, s)
    && (forall i | k < i <= t :: c in ws[i].channels)
    && (forall i | k < i < t :: !Writes(ws[i], ops[i], c, s))
  }

  ghost predicate LeftBySomeStep(ws: seq<World>, ops: seq<Op>, t: nat, c: nat, s: nat)
    requires |ws| == |ops| + 1 && t < |ws|
  {
    exists k | 0 <= k < t :: LeftStale(ws, ops, k, t, c, s)
  }

  /** In any run, a cell holds a freed pointer exactly if the mode in that slot was unloaded while set on
      the channel, and since then no mode stored or cleared a parameter there. */
  lemma {:induction false} StaleIff(ws: seq<World>, ops: seq<Op>, t: nat, c: nat, s: nat)
    requires IsRun(ws, ops) && t < |ws| && c in ws[t].channels && s < SLOTS
    ensures IsStale(ws[t], c, s) <==> LeftBySomeStep(ws, ops, t, c, s)
  {
    if t > 0 {
      LastStep(ws, ops, t, c, s);
      StaleAfter(ws, ops, t, c, s);
      if c in ws[t - 1].channels {
        StaleIff(ws, ops, t - 1, c, s);
      }
    }
  }

  lemma StaleAfter(ws: seq<World>, ops: seq<Op>, t: nat, c: nat, s: nat)
    requires IsRun(ws, ops) && 0 < t < |ws| && c in ws[t].channels && s < SLOTS
    ensures IsStale(ws[t], c, s) <==>
            || Frees(ws[t - 1], ops[t - 1], c, s)
            || (IsStale(ws[t - 1], c, s) && !Writes(ws[t - 1], ops[t - 1], c, s))
  {
    assert StepsTo(ws[t - 1], ops[t - 1], ws[t]);
    RunKeepsInv(ws, ops, t - 1);
    if c in ws[t - 1].channels {
      StaleStep(ws[t - 1], ops[t - 1], c, s);
    } else {
      NewChannelClean(ws[t - 1], ops[t - 1], c, s);
    }
  }

  lemma LastStep(ws: seq<World>, ops: seq<Op>, t: nat, c: nat, s: nat)
    requires |ws| == |ops| + 1 && 0 < t < |ws| && c in ws[t].channels
    ensures LeftBySomeStep(ws, ops, t, c, s) <==>
            || Frees(ws[t - 1], ops[t - 1], c, s)
            || (c in ws[t - 1].channels && LeftBySomeStep(ws, ops, t - 1, c, s) &&
                !Writes(ws[t - 1], ops[t - 1], c, s))
  {
    forall k | 0 <= k < t
      ensures LeftStale(ws, ops, k, t, c, s) <==> StillStale(ws, ops, k, t, c, s)
    {
      LeftStaleStep(ws, ops, k, t, c, s);
    }
    if Frees(ws[t - 1], ops[t - 1], c, s) {
      assert LeftStale(ws, ops, t - 1, t, c, s);
    } else if c in ws[t - 1].channels && LeftBySomeStep(ws, ops, t - 1, c, s) {
      var k :| 0 <= k < t - 1 && LeftStale(ws, ops, k, t - 1, c, s);
      assert StillStale(ws, ops, k, t, c, s) <==> !Writes(ws[t - 1], ops[t - 1], c, s);
    }
  }

  /** The same, by what the last step did. */
  ghost predicate StillStale(ws: seq<World>, ops: seq<Op>, k: nat, t: nat, c: nat, s: nat)
    requires |ws| == |ops| + 1 && k < t < |ws|
  {
    && c in ws[t].channels
    && if k == t - 1 then Frees(ws[k], ops[k], c, s)
       else c in ws[t - 1].channels && LeftStale(ws, ops, k, t - 1, c, s) && !Writes(ws[t - 1], ops[t - 1], c, s)
  }

  lemma LeftStaleStep(ws: seq<World>, ops: seq<Op>, k: nat, t: nat, c: nat, s: nat)
    requires |ws| == |ops| + 1 && k < t < |ws|
    ensures LeftStale(ws, ops, k, t, c, s) <==> StillStale(ws, ops, k, t, c, s)
  {
  }

  lemma NewChannelClean(w: World, op: Op, c: nat, s: nat)
    requires CellsFit(w) && c !in w.channels && c in Step(w, op).channels
    ensures !IsStale(Step(w, op), c, s) && !Frees(w, op, c, s)
  {
    if op.FinishRehash? {
      UnloadKeepsChannels(w, Ids(w.modes));
    }
  }

  lemma {:induction false} UnloadKeepsChannels(w: World, ids: seq<nat>)
    requires CellsFit(w)
    ensures CommitUnused(w, ids).channels.Keys == w.channels.Keys
    decreases ids
  {
    if ids != [] {
      var k := FindId(w.modes, ids[0]);
      if k < |w.modes| && Unused(w.modes[k]) {
        CommitFits(w, k);
        UnloadKeepsChannels(Commit(w, k), ids[1..]);
      } else {
        UnloadKeepsChannels(w, ids[1..]);
      }
    }
  }

  /** The handler of a registered parameter mode is given a freed pointer for a channel (to overwrite, to
      copy or to free) exactly in that case; and never while its own mode is set there. */
  lemma HandlerGivenStaleIff(ws: seq<World>, ops: seq<Op>, t: nat, c: nat, m: Cmode)
    requires IsRun(ws, ops) && t < |ws| && c in ws[t].channels && m in ws[t].modes && HasSlot(m)
    requires CellsFit(ws[t])
    ensures CellOf(ws[t], ws[t].channels[c].cells, m.letter) == Stale <==>
            LeftBySomeStep(ws, ops, t, c, m.slot)
    ensures LeftBySomeStep(ws, ops, t, c, m.slot) ==> m.bit.Some? && !SetThere(ws[t], c, m.bit.value)
  {
    RunKeepsInv(ws, ops, t);
    assert WellFormed(m) && ChannelOk(ws[t].modes, ws[t].channels[c]);
    StaleIff(ws, ops, t, c, m.slot);
  }
}
