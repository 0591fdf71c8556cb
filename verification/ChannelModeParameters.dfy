/** Parameters of channel modes: reading, storing, freeing and copying them by way of the slot
    tables. */
module ChannelModeParameters {
  import opened Common
  import opened ChannelModes
  import opened ChannelModeInvariant

  /** GETPARASTRUCT: the cell that belongs to a letter. */
  function CellOf(w: World, cells: seq<Cell>, letter: char): Cell
    requires CellsFit(w) && |cells| == SLOTS + 1
  {
    cells[SlotOf(w.slotOf, letter)]
  }

  /** The parameter of one letter is the business of one mode: its handler is found in the table,
      what was stored is what is read, and what was freed is gone. */
  lemma OwnParameter(w: World, ch: Channel, m: Cmode, value: string)
    requires Inv(w) && CellsFit(w) && |ch.cells| == SLOTS + 1 && m in w.modes && HasSlot(m)
    ensures w.table[SlotOf(w.slotOf, m.letter)] == Some(m.id)
    ensures var slot := SlotOf(w.slotOf, m.letter);
            var set1 := SetOn(ch, m, slot, value);
            && m.bit.value in set1.word && CellOf(w, set1.cells, m.letter) == Data(value)
            && ClearOn(set1, m, slot, false).word == ch.word - {m.bit.value}
            && CellOf(w, ClearOn(set1, m, slot, false).cells, m.letter) == Null
            && CellOf(w, Unset(set1, m, slot).cells, m.letter) == Stale
  {
  }

  /** Storing, freeing or unloading the parameter of one letter never changes what another letter
      reads. */
  lemma OtherParameters(w: World, ch: Channel, a: Cmode, b: Cmode, value: string, resisted: bool)
    requires Inv(w) && CellsFit(w) && |ch.cells| == SLOTS + 1
    requires a in w.modes && b in w.modes && a != b && HasSlot(b)
    ensures var slot := SlotOf(w.slotOf, a.letter);
            && CellOf(w, SetOn(ch, a, slot, value).cells, b.letter) == CellOf(w, ch.cells, b.letter)
            && CellOf(w, ClearOn(ch, a, slot, resisted).cells, b.letter) == CellOf(w, ch.cells, b.letter)
            && CellOf(w, Unset(ch, a, slot).cells, b.letter) == CellOf(w, ch.cells, b.letter)
  {
    SameOrApart(w.modes, a, b);
  }

  /** The handler at a slot of the table is listed and sits in that slot. */
  predicate HandlersInPlace(modes: seq<Cmode>, table: seq<Option<nat>>) {
    forall s | 0 <= s < |table| && table[s].Some? ::
      var k := FindId(modes, table[s].value); k < |modes| && modes[k].slot == s < SLOTS
  }

  lemma InvHandlers(w: World)
    requires Inv(w)
    ensures HandlersInPlace(w.modes, w.table)
  {
    forall s | 0 <= s < |w.table| && w.table[s].Some?
      ensures var k := FindId(w.modes, w.table[s].value);
              k < |w.modes| && w.modes[k].slot == s < SLOTS
    {
      assert SlotOwned(w.modes, s, w.table[s].value);
      var m :| m in w.modes && HasSlot(m) && m.id == w.table[s].value && m.slot == s;
      var k := FindId(w.modes, m.id);
      var i :| 0 <= i < |w.modes| && w.modes[i] == m;
      assert k <= i;
      SameOrApart(w.modes, w.modes[k], m);
    }
  }

  /** Every parameter mode set on a channel has its parameter in its slot. */
  lemma SetParameterPresent(w: World, ch: Channel, m: Cmode)
    requires Inv(w) && ChannelOk(w.modes, ch) && m in w.modes && HasSlot(m) && m.bit.value in ch.word
    ensures m.slot < SLOTS && w.table[m.slot].Some? && ch.cells[m.slot].Data?
  {
  }
}
