/** The code of the channel mode registry: the searches, the sorted list, the slot tables and the
    loops over all channels. Every method is tied to the operation of ChannelModes it performs. */
module ChannelModeApi {
  import opened Common
  import opened LetterOrder
  import opened ChannelModes
  import opened ChannelModeInvariant
  import opened ChannelModeParameters

  class Registry {
    var modes: seq<Cmode>
    const paramTable: array<Option<nat>>
    var slotMap: map<char, nat>
    var nextId: nat
    var rehashing: bool
    var crashed: bool
    var channelList: seq<nat>
    var channels: map<nat, Channel>

    ghost function State(): World
      reads this, paramTable
    {
      World(modes, paramTable[..], slotMap, nextId, rehashing, crashed, channels)
    }

    ghost predicate Valid()
      reads this, paramTable
    {
      && paramTable.Length == SLOTS + 1
      && CellsFit(State())
      && NoRepeats(channelList)
      && (forall c :: c in channelList <==> c in channels)
    }

    constructor ()
      ensures Valid() && State() == Boot() && fresh(paramTable)
    {
      modes, slotMap, nextId, rehashing, crashed := [], map[], 0, false, false;
      channelList, channels := [], map[];
      paramTable := new Option<nat>[SLOTS + 1](_ => None);
      new;
      assert paramTable[..] == Boot().table;
    }

    /** The search of CmodeAdd for an entry with the same letter or name. */
    method FindExisting(req: Request) returns (k: nat)
      ensures k == FindMatch(modes, req)
    {
      k := 0;
      while k < |modes| && !Matches(modes[k], req)
        invariant k <= |modes|
        invariant FindMatch(modes, req) == k + FindMatch(modes[k..], req)
      {
        k := k + 1;
      }
    }

    method FindEntry(id: nat) returns (k: nat)
      ensures k == FindId(modes, id)
    {
      k := 0;
      while k < |modes| && modes[k].id != id
        invariant k <= |modes|
        invariant FindId(modes, id) == k + FindId(modes[k..], id)
      {
        k := k + 1;
      }
    }

    /** The search for an unused bit: for each bit, the whole list. */
    method AllocateBit() returns (b: nat)
      ensures b == FreeBit(modes, 0)
    {
      b := 0;
      while b < BITS
        invariant b <= BITS
        invariant FreeBit(modes, 0) == FreeBit(modes, b)
      {
        var i, found := 0, false;
        while i < |modes| && !found
          invariant i <= |modes|
          invariant found <==> exists m | m in modes[..i] :: m.bit == Some(b)
        {
          assert modes[..i + 1] == modes[..i] + [modes[i]];
          found := modes[i].bit == Some(b);
          i := i + 1;
        }
        if !found {
          assert modes[..i] == modes;
          return;
        }
        assert BitTaken(modes, b);
        b := b + 1;
      }
    }

    method AllocateSlot() returns (s: nat)
      requires Valid()
      ensures s == FreeSlot(paramTable[..], 0)
    {
      s := 0;
      while s < SLOTS && paramTable[s].Some?
        invariant s <= SLOTS
        invariant FreeSlot(paramTable[..], 0) == FreeSlot(paramTable[..], s)
      {
        s := s + 1;
      }
    }

    /** channelmode_add_sorted. */
    method AddSorted(n: Cmode) returns (aborted: bool, k: nat)
      requires Valid() && n.slot < SLOTS
      modifies this
      ensures Valid()
      ensures match InsertPosition(old(modes), n.letter)
              case None => aborted && State() == old(State()).(crashed := true)
              case Some(p) =>
                !aborted && k == p && State() == old(State()).(modes := InsertAt(old(modes), p, n))
    {
      aborted, k := false, 0;
      while k < |modes|
        invariant k <= |modes| && Valid()
        invariant State() == old(State())
        invariant InsertPosition(modes, n.letter) ==
                  match InsertPosition(modes[k..], n.letter)
                  case None => None
                  case Some(p) => Some(k + p)
      {
        if modes[k].letter == NUL {
          crashed := true;
          return true, k;
        }
        if SortBefore(n.letter, modes[k].letter) {
          break;
        }
        assert modes[k..][1..] == modes[k + 1..];
        k := k + 1;
      }
      modes := InsertAt(modes, k, n);
    }

    /** extcmode_para_addslot. */
    method ParaAddSlot(k: nat, slot: nat)
      requires Valid() && k < |modes| && slot < SLOTS + 1
      modifies this, paramTable
      ensures Valid()
      ensures State() == old(State()).(
                modes := old(modes)[k := old(modes)[k].(slot := slot)],
                table := old(paramTable[..])[slot := Some(old(modes)[k].id)],
                slotOf := old(slotMap)[old(modes)[k].letter := slot])
      ensures channelList == old(channelList)
    {
      modes := modes[k := modes[k].(slot := slot)];
      paramTable[slot] := Some(modes[k].id);
      slotMap := slotMap[modes[k].letter := slot];
      assert paramTable[..] == old(paramTable[..])[slot := Some(old(modes)[k].id)];
    }

    /** extcmode_para_delslot. */
    method ParaDelSlot(letter: char, slot: nat)
      requires Valid() && slot < SLOTS + 1
      modifies this, paramTable
      ensures Valid() && channelList == old(channelList)
      ensures State() == old(State()).(
                table := old(paramTable[..])[slot := None], slotOf := old(slotMap)[letter := 0])
    {
      paramTable[slot] := None;
      slotMap := slotMap[letter := 0];
      assert paramTable[..] == old(paramTable[..])[slot := None];
    }

    /** CmodeAdd. */
    method CmodeAdd(req: Request) returns (outcome: Outcome)
      requires Valid()
      modifies this, paramTable
      ensures Valid()
      ensures State() == Add(old(State()), req).0 && outcome == Add(old(State()), req).1
    {
      if req.name == "" {
        return Invalid;
      }
      var k := FindExisting(req);
      if k == |modes| {
        outcome := CmodeAddNew(req);
      } else if modes[k].unloaded {
        outcome := Registered(modes[k].id, modes[k].bit);
        Fill(k, req, modes[k].slot);
      } else {
        outcome := Exists;
      }
    }

    /** The fields a registration sets, and the slot tables. */
    method Fill(k: nat, req: Request, slot: nat)
      requires Valid() && k < |modes| && slot < SLOTS + 1
      modifies this, paramTable
      ensures Valid() && State() == Install(old(State()), k, req, slot)
    {
      modes := modes[k := Filled(modes[k], req, slot)];
      if req.kind.Normal? && req.param {
        ParaAddSlot(k, slot);
        assert modes == Install(old(State()), k, req, slot).modes;
      }
    }

    method CmodeAddNew(req: Request) returns (outcome: Outcome)
      requires Valid()
      modifies this, paramTable
      ensures Valid()
      ensures State() == AddNew(old(State()), req).0 && outcome == AddNew(old(State()), req).1
    {
      var bit := None;
      if req.kind.Normal? {
        var b := AllocateBit();
        if b == BITS {
          return NoSpace;
        }
        bit := Some(b);
      } else if req.prefix == NUL || req.sjoinPrefix == NUL || !req.param || !req.unsetWithParam ||
                req.rank == 0 {
        return Invalid;
      }
      outcome := ListAndInstall(req, bit);
    }

    /** The half of a new registration that follows the choice of a bit. */
    method ListAndInstall(req: Request, bit: Option<nat>) returns (outcome: Outcome)
      requires Valid() && bit == NewBit(State(), req)
      modifies this, paramTable
      ensures Valid()
      ensures match InsertPosition(old(modes), req.letter)
              case None => State() == old(State()).(crashed := true) && outcome == Aborted
              case Some(p) => (State(), outcome) == AddAt(old(State()), req, p)
    {
      ghost var w := State();
      var aborted, k := AddSorted(Bare(nextId, req.letter, bit));
      if aborted {
        return Aborted;
      }
      outcome := Registered(nextId, bit);
      nextId := nextId + 1;
      assert State() == w.(modes := InsertAt(w.modes, k, Bare(w.nextId, req.letter, bit)),
                           nextId := w.nextId + 1);
      var room := InstallListed(k, req);
      if !room {
        outcome := NoSpace;
      }
    }

    /** Find a parameter slot for a listed entry, if it needs one, and fill the entry in. */
    method InstallListed(k: nat, req: Request) returns (room: bool)
      requires Valid() && k < |modes|
      modifies this, paramTable
      ensures Valid()
      ensures var slot := if Slotted(req.kind, req.param) then FreeSlot(old(paramTable[..]), 0) else 0;
              && room == (slot != SLOTS)
              && State() == if room then Install(old(State()), k, req, slot) else old(State())
    {
      var slot := 0;
      if req.param && req.kind.Normal? {
        slot := AllocateSlot();
        if slot == SLOTS {
          return false;
        }
      }
      Fill(k, req, slot);
      room := true;
    }

    /** The loops of unload_extcmode_commit that unset the mode on every channel. */
    method UnsetOnAllChannels(m: Cmode)
      requires Valid()
      modifies this`channels
      ensures Valid()
      ensures channels == UnsetAll(old(channels), m, SlotOf(slotMap, m.letter))
    {
      var slot := SlotOf(slotMap, m.letter);
      var i := 0;
      while i < |channelList|
        invariant i <= |channelList|
        invariant channels.Keys == old(channels).Keys
        invariant forall j | 0 <= j < i ::
                    channels[channelList[j]] == Unset(old(channels)[channelList[j]], m, slot)
        invariant forall j | i <= j < |channelList| ::
                    channels[channelList[j]] == old(channels)[channelList[j]]
      {
        var c := channelList[i];
        var ch := UnsetOn(channels[c], m, slot);
        channels := channels[c := ch];
        i := i + 1;
      }
    }

    static method UnsetOn(ch: Channel, m: Cmode, slot: nat) returns (after: Channel)
      requires slot < |ch.cells|
      ensures after == Unset(ch, m, slot)
    {
      after := ch;
      if m.kind.Normal? {
        if m.bit.Some? && m.bit.value in after.word {
          if m.param {
            after := after.(cells := after.cells[slot := Stale]);
          }
          after := after.(word := after.word - {m.bit.value});
        }
      } else {
        var seats := RevokeFromAll(ch.seats, m.letter);
        after := after.(seats := seats);
      }
    }

    static method RevokeFromAll(seats: seq<Seat>, letter: char) returns (after: seq<Seat>)
      ensures after == RevokeAll(seats, letter)
    {
      after := seats;
      for i := 0 to |seats|
        invariant |after| == |seats|
        invariant forall j | 0 <= j < i :: after[j] == RevokeAll(seats, letter)[j]
        invariant forall j | i <= j < |seats| :: after[j] == seats[j]
      {
        if letter in after[i].modes {
          after := after[i := Revoke(after[i], letter)];
        }
      }
    }

    /** unload_extcmode_commit. */
    method UnloadCommit(k: nat)
      requires Valid() && k < |modes|
      modifies this, paramTable
      ensures Valid() && State() == Commit(old(State()), k)
    {
      var m := modes[k];
      CommitFits(State(), k);
      UnsetOnAllChannels(m);
      if m.kind.Normal? && m.param {
        ParaDelSlot(m.letter, m.slot);
      }
      modes := RemoveAt(modes, k);
    }

    /** CmodeDel. */
    method CmodeDel(id: nat)
      requires Valid()
      modifies this, paramTable
      ensures Valid() && State() == Del(old(State()), id)
    {
      var k := FindEntry(id);
      if k < |modes| {
        if rehashing {
          modes := modes[k := modes[k].(unloaded := true)];
        } else {
          UnloadCommit(k);
        }
      }
    }

    /** unload_all_unused_extcmodes: the successor is read before an entry is freed. */
    method UnloadAllUnused()
      requires Valid() && IdsDiffer(modes)
      modifies this, paramTable
      ensures Valid() && State() == CommitUnused(old(State()), Ids(old(modes)))
    {
      var k := 0;
      assert modes[0..] == modes;
      while k < |modes|
        invariant Valid() && IdsDiffer(modes) && k <= |modes|
        invariant CommitUnused(State(), Ids(modes[k..])) == CommitUnused(old(State()), Ids(old(modes)))
        decreases |modes| - k
      {
        VisitOne(State(), k);
        if modes[k].letter != NUL && modes[k].unloaded {
          UnloadCommit(k);
        } else {
          k := k + 1;
        }
      }
    }

    /** cm_putparameter: `value` is what the handler made of the string and of the pointer `given`. */
    method PutParameter(c: nat, letter: char, value: string) returns (given: Cell)
      requires Valid() && c in channels
      modifies this`channels
      ensures Valid() && channels.Keys == old(channels.Keys)
      ensures forall d | d in channels && d != c :: channels[d] == old(channels[d])
      ensures channels[c] == old(channels[c]).(cells := channels[c].cells)
      ensures given == CellOf(State(), old(channels[c].cells), letter)
      ensures CellOf(State(), channels[c].cells, letter) == Data(value)
      ensures Inv(State()) ==> forall m, b | m in modes && b in modes && m.letter == letter &&
                                             HasSlot(m) && HasSlot(b) && b != m ::
                CellOf(State(), channels[c].cells, b.letter) ==
                CellOf(State(), old(channels[c].cells), b.letter)
    {
      var ch := channels[c];
      given := ch.cells[SlotOf(slotMap, letter)];
      channels := channels[c := ch.(cells := ch.cells[SlotOf(slotMap, letter) := Data(value)])];
      if Inv(State()) {
        forall m, b | m in modes && b in modes && m.letter == letter && HasSlot(m) && HasSlot(b) && b != m
          ensures CellOf(State(), channels[c].cells, b.letter) == CellOf(State(), ch.cells, b.letter)
        {
          SameOrApart(modes, m, b);
        }
      }
    }

    /** extcmode_duplicate_paramlist. The tables send every handler to its own slot; with
        SetParameterPresent, the parameter of every mode set on a channel is copied. A handler may be
        given a freed pointer to copy; its copy is then worth as little. */
    method DuplicateParamList(xi: array<Cell>, xo: array<Cell>) returns (givenStale: bool)
      requires Valid() && HandlersInPlace(modes, paramTable[..])
      requires xi.Length == SLOTS + 1 && xo.Length == SLOTS + 1 && xi != xo
      modifies xo
      ensures forall s | 0 <= s <= SLOTS ::
                xo[s] == if paramTable[s].Some? && xi[s] != Null then xi[s] else old(xo[s])
      ensures givenStale <==> exists s | 0 <= s < SLOTS :: paramTable[s].Some? && xi[s] == Stale
    {
      givenStale := false;
      for i := 0 to SLOTS
        invariant forall s | 0 <= s < i ::
                    xo[s] == if paramTable[s].Some? && xi[s] != Null then xi[s] else old(xo[s])
        invariant forall s | i <= s <= SLOTS :: xo[s] == old(xo[s])
        invariant givenStale <==> exists s | 0 <= s < i :: paramTable[s].Some? && xi[s] == Stale
      {
        if paramTable[i].Some? {
          assert paramTable[..][i].Some?;
          var k := FindEntry(paramTable[i].value);
          var inx := xi[modes[k].slot];
          if inx != Null {
            givenStale := givenStale || inx == Stale;
            xo[modes[k].slot] := inx;
          }
        }
      }
      assert paramTable[..][SLOTS].None?;
    }

    /** extcmode_free_paramlist: afterwards no registered mode has a parameter in the list. A handler may
        be given a freed pointer to free. */
    method FreeParamList(ar: array<Cell>) returns (givenStale: bool)
      requires Valid() && HandlersInPlace(modes, paramTable[..]) && ar.Length == SLOTS + 1
      modifies ar
      ensures forall s | 0 <= s <= SLOTS :: ar[s] == if paramTable[s].Some? then Null else old(ar[s])
      ensures givenStale <==> exists s | 0 <= s < SLOTS :: paramTable[s].Some? && old(ar[s]) == Stale
    {
      givenStale := false;
      for i := 0 to SLOTS
        invariant forall s | 0 <= s < i :: ar[s] == if paramTable[s].Some? then Null else old(ar[s])
        invariant forall s | i <= s <= SLOTS :: ar[s] == old(ar[s])
        invariant givenStale <==> exists s | 0 <= s < i :: paramTable[s].Some? && old(ar[s]) == Stale
      {
        if paramTable[i].Some? {
          assert paramTable[..][i].Some?;
          var k := FindEntry(paramTable[i].value);
          givenStale := givenStale || ar[modes[k].slot] == Stale;
          ar[modes[k].slot] := Null;
        }
      }
      assert paramTable[..][SLOTS].None?;
    }
  }

  ghost predicate IdsDiffer(modes: seq<Cmode>) {
    forall i, j | 0 <= i < j < |modes| :: modes[i].id != modes[j].id
  }

  /** Visiting entry `k`: either it goes and its successor takes its place, or it stays. */
  lemma VisitOne(w: World, k: nat)
    requires CellsFit(w) && IdsDiffer(w.modes) && k < |w.modes|
    ensures CellsFit(Commit(w, k)) && IdsDiffer(Commit(w, k).modes)
    ensures CommitUnused(w, Ids(w.modes[k..])) ==
            if Unused(w.modes[k]) then CommitUnused(Commit(w, k), Ids(Commit(w, k).modes[k..]))
            else CommitUnused(w, Ids(w.modes[k + 1..]))
  {
    CommitFits(w, k);
    VisitEntry(w, Ids(w.modes[k..]), k);
    IdsFrom(w.modes, k);
    assert Commit(w, k).modes == RemoveAt(w.modes, k);
  }

  /** The ids from entry `k` on, and how removing that entry leaves them. */
  lemma IdsFrom(modes: seq<Cmode>, k: nat)
    requires k < |modes|
    ensures Ids(modes[k..])[1..] == Ids(modes[k + 1..]) == Ids(RemoveAt(modes, k)[k..])
    ensures IdsDiffer(modes) ==> IdsDiffer(RemoveAt(modes, k))
  {
    assert RemoveAt(modes, k)[k..] == modes[k + 1..];
  }

  lemma VisitEntry(w: World, ids: seq<nat>, k: nat)
    requires CellsFit(w) && IdsDiffer(w.modes) && k < |w.modes| && ids != [] && ids[0] == w.modes[k].id
    requires CellsFit(Commit(w, k))
    ensures CommitUnused(w, ids) ==
            if Unused(w.modes[k]) then CommitUnused(Commit(w, k), ids[1..]) else CommitUnused(w, ids[1..])
  {
    assert FindId(w.modes, ids[0]) == k;
  }
}
