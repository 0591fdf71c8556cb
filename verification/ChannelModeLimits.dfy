/** Where the channel mode registry departs from what one would expect of it, and exactly when. */
module ChannelModeLimits {
  import opened Common
  import opened ChannelModes
  import opened ChannelModeInvariant

  // ---------------------------------------------------------------- modes without a letter

  /** Name-only modes are allowed, but once one is listed the next new registration that passes its
      checks aborts the server. */
  lemma AbortsExactlyAfterLetterless(w: World, req: Request)
    requires Inv(w) && CellsFit(w) && FindMatch(w.modes, req) == |w.modes| && req.name != ""
    requires req.kind.Normal? ==> FreeBit(w.modes, 0) < BITS
    requires req.kind.Member? ==> MemberRequestComplete(req)
    ensures Add(w, req).1 == Aborted <==> exists m | m in w.modes :: m.letter == NUL
  {
    InsertPositionExists(w.modes, req.letter);
  }

  /** After a rehash the list holds what it held, minus the modes no module asked for again; but an
      unloaded mode without letter is never removed. */
  lemma RehashRemovesExactlyUnused(w: World)
    requires Inv(w) && CellsFit(w) && !w.crashed
    ensures forall m :: m in Step(w, FinishRehash).modes <==> m in w.modes && !Unused(m)
  {
    var ids := Ids(w.modes);
    forall m | m in w.modes ensures m.id in ids {
      var i :| 0 <= i < |w.modes| && w.modes[i] == m;
      assert ids[i] == m.id;
    }
    CommitUnusedModes(w, ids);
  }

  lemma {:induction false} CommitUnusedModes(w: World, ids: seq<nat>)
    requires Inv(w) && CellsFit(w)
    ensures forall m ::
              m in CommitUnused(w, ids).modes <==> m in w.modes && !(Unused(m) && m.id in ids)
    decreases ids
  {
    if ids != [] {
      var k := FindId(w.modes, ids[0]);
      if k < |w.modes| {
        forall m | m in w.modes && m.id == ids[0] ensures m == w.modes[k] {
          SameOrApart(w.modes, m, w.modes[k]);
        }
      }
      if k < |w.modes| && Unused(w.modes[k]) {
        CommitFits(w, k);
        CommitKeepsInv(w, k);
        RemoveMembers(w.modes, k);
        CommitUnusedModes(Commit(w, k), ids[1..]);
      } else {
        CommitUnusedModes(w, ids[1..]);
      }
    }
  }

  // ---------------------------------------------------------------- running out of space

  ghost predicate LeftBehind(w: World, w1: World, req: Request) {
    exists m | m in w1.modes ::
      m !in w.modes && m.name.None? && m.letter == req.letter && m.bit.Some? && !m.param
  }

  /** "Out of space" leaves the registry alone only if it was bits that ran out. If it was parameter
      slots, a nameless entry stays behind that holds the letter and a bit. */
  lemma OutOfSpace(w: World, req: Request)
    requires Inv(w) && CellsFit(w) && Add(w, req).1 == NoSpace
    ensures if forall b | 0 <= b < 63 :: BitTaken(w.modes, b) then Add(w, req).0 == w
            else LeftBehind(w, Add(w, req).0, req) && forall s | 0 <= s < 16 :: w.table[s].Some?
  {
    assert FindMatch(w.modes, req) == |w.modes|;
    if FreeBit(w.modes, 0) < BITS {
      var p := InsertPosition(w.modes, req.letter).value;
      assert Add(w, req) == AddAt(w, req, p);
      SlotsUsedUp(w, req, p);
      assert !BitTaken(w.modes, FreeBit(w.modes, 0));
    }
  }

  lemma SlotsUsedUp(w: World, req: Request, p: nat)
    requires Inv(w) && p <= |w.modes| && AddAt(w, req, p).1 == NoSpace
    ensures LeftBehind(w, AddAt(w, req, p).0, req)
    ensures forall s | 0 <= s < SLOTS :: w.table[s].Some?
  {
    var n := Bare(w.nextId, req.letter, NewBit(w, req));
    InsertMembers(w.modes, p, n);
    assert n in AddAt(w, req, p).0.modes && n !in w.modes;
  }

  /** The letter left behind blocks every later registration of it. */
  lemma LeftoverBlocksLetter(w: World, m: Cmode, req: Request)
    requires Inv(w) && CellsFit(w) && m in w.modes && m.letter == req.letter != NUL
    requires req.name != "" && forall x | x in w.modes :: x.name != Some(req.name)
    ensures if m.unloaded then Add(w, req).1 == Registered(m.id, m.bit) else Add(w, req).1 == Exists
  {
    var k := FindMatch(w.modes, req);
    var i :| 0 <= i < |w.modes| && w.modes[i] == m;
    assert k <= i;
    SameOrApart(w.modes, w.modes[k], m);
  }

  // ---------------------------------------------------------------- reviving with a changed request

  /** The request revives entry `k`. */
  predicate Revives(w: World, k: nat, req: Request) {
    req.name != "" && k < |w.modes| && k == FindMatch(w.modes, req) && w.modes[k].unloaded
  }

  ghost predicate SetSomewhere(w: World, m: Cmode) {
    exists c | c in w.channels :: m.bit.Some? && m.bit.value in w.channels[c].word
  }

  ghost predicate EverySetBitOwned(w: World) {
    forall c | c in w.channels :: forall b | b in w.channels[c].word :: BitOwned(w.modes, b)
  }

  /** A revived mode that comes back as a member mode orphans its bit exactly when some channel has
      it set; unloading the mode then no longer clears it. */
  lemma ReviveKeepsBitsIff(w: World, k: nat, req: Request)
    requires Inv(w) && CellsFit(w) && Revives(w, k, req)
    ensures EverySetBitOwned(Add(w, req).0) <==>
            (req.kind.Normal? || !SetSomewhere(w, w.modes[k]))
  {
    if w.modes[k].kind.Normal? {
      InstallKeepsBitsIff(w, k, req);
    } else {
      InstallMemberKeepsBits(w, k, req);
    }
  }

  lemma InstallMemberKeepsBits(w: World, k: nat, req: Request)
    requires Inv(w) && CellsFit(w) && k < |w.modes| && w.modes[k].kind.Member?
    ensures EverySetBitOwned(Install(w, k, req, w.modes[k].slot)) && !SetSomewhere(w, w.modes[k])
  {
    var w1 := Install(w, k, req, w.modes[k].slot);
    assert WellFormed(w.modes[k]);
    forall c, b | c in w.channels && b in w.channels[c].word ensures BitOwned(w1.modes, b) {
      assert BitOwned(w.modes, b);
      var x :| x in w.modes && x.kind.Normal? && x.bit == Some(b);
      var i :| 0 <= i < |w.modes| && w.modes[i] == x;
      assert w1.modes[i] == x && w1.modes[i] in w1.modes;
    }
  }

  lemma InstallKeepsBitsIff(w: World, k: nat, req: Request)
    requires Inv(w) && CellsFit(w) && k < |w.modes| && w.modes[k].kind.Normal?
    ensures EverySetBitOwned(Install(w, k, req, w.modes[k].slot)) <==>
            (req.kind.Normal? || !SetSomewhere(w, w.modes[k]))
  {
    var m := w.modes[k];
    var w1 := Install(w, k, req, m.slot);
    var n := w1.modes[k];
    assert m in w.modes;
    forall i | 0 <= i < |w.modes| && i != k ensures w.modes[i].bit != m.bit {
      assert if i < k then Apart(w.modes[i], w.modes[k]) else Apart(w.modes[k], w.modes[i]);
    }
    forall x | x in w1.modes && x.bit == m.bit ensures x == n {
      var i :| 0 <= i < |w1.modes| && w1.modes[i] == x;
    }
    if req.kind.Normal? || !SetSomewhere(w, m) {
      forall c, b | c in w.channels && b in w.channels[c].word ensures BitOwned(w1.modes, b) {
        assert BitOwned(w.modes, b);
        var x :| x in w.modes && x.kind.Normal? && x.bit == Some(b);
        var i :| 0 <= i < |w.modes| && w.modes[i] == x;
        assert w1.modes[i] == if i == k then n else x;
        assert w1.modes[i] in w1.modes;
      }
    } else {
      var c :| c in w.channels && m.bit.value in w.channels[c].word;
      assert !BitOwned(w1.modes, m.bit.value);
    }
  }

  /** No other parameter mode has this slot or this letter. */
  ghost predicate RoomFor(w: World, k: nat, req: Request)
    requires k < |w.modes|
  {
    forall i | 0 <= i < |w.modes| && i != k && HasSlot(w.modes[i]) ::
      w.modes[i].slot != w.modes[k].slot && w.modes[i].letter != req.letter
  }

  /** The slot tables survive a revival exactly when the mode does not drop its parameter and, if it
      has one, no other parameter mode sits in its slot or under its letter. A mode that had no
      parameter comes back with slot 0. */
  lemma ReviveKeepsTablesIff(w: World, k: nat, req: Request)
    requires Inv(w) && CellsFit(w) && Revives(w, k, req)
    ensures var w1 := Add(w, req).0;
            TablesOk(w1.modes, w1.table, w1.slotOf) <==>
            if Slotted(req.kind, req.param) then RoomFor(w, k, req) else !HasSlot(w.modes[k])
  {
    InstallKeepsTablesIff(w, k, req);
  }

  lemma InstallKeepsTablesIff(w: World, k: nat, req: Request)
    requires Inv(w) && CellsFit(w) && k < |w.modes|
    ensures var w1 := Install(w, k, req, w.modes[k].slot);
            TablesOk(w1.modes, w1.table, w1.slotOf) <==>
            if Slotted(req.kind, req.param) then RoomFor(w, k, req) else !HasSlot(w.modes[k])
  {
    var m := w.modes[k];
    var w1 := Install(w, k, req, m.slot);
    var n := w1.modes[k];
    assert m in w.modes && n in w1.modes;
    forall i | 0 <= i < |w.modes| && i != k ensures w1.modes[i] == w.modes[i] && Apart(w.modes[i], m) {
      assert if i < k then Apart(w.modes[i], w.modes[k]) else Apart(w.modes[k], w.modes[i]);
    }
    if Slotted(req.kind, req.param) {
      if RoomFor(w, k, req) {
        RevivedTablesOk(w, k, req);
      } else {
        var i :| 0 <= i < |w.modes| && i != k && HasSlot(w.modes[i]) &&
                 (w.modes[i].slot == m.slot || w.modes[i].letter == req.letter);
        assert w1.modes[i] in w1.modes;
      }
    } else if !HasSlot(m) {
      RevivedTablesOk(w, k, req);
    } else {
      assert w1.table[m.slot] == Some(m.id);
      forall x | x in w1.modes ensures !(HasSlot(x) && x.id == m.id) {
        var i :| 0 <= i < |w1.modes| && w1.modes[i] == x;
      }
    }
  }

  lemma RevivedTablesOk(w: World, k: nat, req: Request)
    requires Inv(w) && CellsFit(w) && k < |w.modes|
    requires if Slotted(req.kind, req.param) then RoomFor(w, k, req) else !HasSlot(w.modes[k])
    ensures var w1 := Install(w, k, req, w.modes[k].slot); TablesOk(w1.modes, w1.table, w1.slotOf)
  {
    var m := w.modes[k];
    var w1 := Install(w, k, req, m.slot);
    var n := w1.modes[k];
    assert m in w.modes && n in w1.modes;
    forall x | x in w1.modes && HasSlot(x)
      ensures x.slot < SLOTS && w1.table[x.slot] == Some(x.id) && SlotOf(w1.slotOf, x.letter) == x.slot
    {
      var i :| 0 <= i < |w1.modes| && w1.modes[i] == x;
      assert i != k ==> w.modes[i] == x && x in w.modes;
    }
    forall s | 0 <= s < |w1.table| && w1.table[s].Some?
      ensures SlotOwned(w1.modes, s, w1.table[s].value)
    {
      if !(Slotted(req.kind, req.param) && s == m.slot) {
        assert SlotOwned(w.modes, s, w.table[s].value);
        var x :| x in w.modes && HasSlot(x) && x.id == w.table[s].value && x.slot == s;
        var i :| 0 <= i < |w.modes| && w.modes[i] == x;
        assert i != k;
        assert w1.modes[i] == x;
      }
    }
  }

  // ---------------------------------------------------------------- parameters and ranks after a revival

  ghost predicate ParametersPresent(w: World) {
    forall c, m | c in w.channels && m in w.modes && HasSlot(m) && m.bit.Some? &&
                  m.bit.value in w.channels[c].word ::
      m.slot < |w.channels[c].cells| && w.channels[c].cells[m.slot].Data?
  }

  /** Wherever the mode is set, its slot holds data already. */
  ghost predicate HasDataWhereSet(w: World, m: Cmode) {
    forall c | c in w.channels && m.bit.Some? && m.bit.value in w.channels[c].word ::
      m.slot < |w.channels[c].cells| && w.channels[c].cells[m.slot].Data?
  }

  /** After a revival every parameter mode that is set has its parameter exactly when the mode comes back
      without one, or its slot holds data on every channel where it is set. */
  lemma ReviveKeepsParametersIff(w: World, k: nat, req: Request)
    requires Inv(w) && CellsFit(w) && Revives(w, k, req)
    ensures ParametersPresent(Add(w, req).0) <==>
            (Slotted(req.kind, req.param) ==> HasDataWhereSet(w, w.modes[k]))
  {
    var w1 := Add(w, req).0;
    var n := w1.modes[k];
    assert n in w1.modes && n.bit == w.modes[k].bit && n.slot == w.modes[k].slot;
    forall c, m | c in w.channels && m in w1.modes && m != n && HasSlot(m) && m.bit.Some? &&
                  m.bit.value in w.channels[c].word
      ensures m.slot < |w.channels[c].cells| && w.channels[c].cells[m.slot].Data?
    {
      var i :| 0 <= i < |w1.modes| && w1.modes[i] == m;
      assert w.modes[i] == m && m in w.modes;
      assert ChannelOk(w.modes, w.channels[c]);
    }
  }

  /** Every member string of every channel is ranked. */
  ghost predicate SeatsRanked(w: World) {
    forall c, i | c in w.channels && 0 <= i < |w.channels[c].seats| ::
      Ranked(w.modes, w.channels[c].seats[i].modes)
  }

  ghost predicate AllAbove(modes: seq<Cmode>, c: char, rank: int) {
    forall x | x in modes && x.letter == c :: x.rank > rank
  }

  ghost predicate AllBelow(modes: seq<Cmode>, c: char, rank: int) {
    forall x | x in modes && x.letter == c :: x.rank < rank
  }

  /** A letter of this rank is in its place at index `i`. */
  ghost predicate InPlace(modes: seq<Cmode>, s: string, i: nat, rank: int)
    requires i < |s|
  {
    && (forall j | 0 <= j < i :: AllAbove(modes, s[j], rank))
    && (forall j | i < j < |s| :: AllBelow(modes, s[j], rank))
  }

  /** The string takes the request: it does not use the letter the mode had, unless the mode comes back
      as a member mode of that letter; and where it uses the letter asked for, the rank asked for is in
      its place. */
  ghost predicate Takes(modes: seq<Cmode>, k: nat, req: Request, s: string)
    requires k < |modes|
  {
    && (modes[k].letter in s && modes[k].kind.Member? ==> req.letter == modes[k].letter && req.kind.Member?)
    && (forall i | 0 <= i < |s| && s[i] == req.letter :: InPlace(modes, s, i, req.rank))
  }

  /** After a revival the member strings are in order of rank exactly when each takes the request. */
  lemma ReviveKeepsRankedIff(w: World, k: nat, req: Request)
    requires Inv(w) && CellsFit(w) && Revives(w, k, req)
    ensures SeatsRanked(Add(w, req).0) <==>
            forall c, i | c in w.channels && 0 <= i < |w.channels[c].seats| ::
              Takes(w.modes, k, req, w.channels[c].seats[i].modes)
  {
    var w1 := Add(w, req).0;
    forall c, i | c in w.channels && 0 <= i < |w.channels[c].seats|
      ensures Ranked(w1.modes, w.channels[c].seats[i].modes) <==>
              Takes(w.modes, k, req, w.channels[c].seats[i].modes)
    {
      assert ChannelOk(w.modes, w.channels[c]) && SeatOk(w.modes, w.channels[c].seats[i]);
      RefilledRankedIff(w.modes, k, req, w.channels[c].seats[i].modes);
    }
  }

  function Refilled(modes: seq<Cmode>, k: nat, req: Request): seq<Cmode>
    requires k < |modes|
  {
    modes[k := Filled(modes[k], req, modes[k].slot)]
  }

  /** What is listed after a revival. */
  lemma RefilledMembers(modes: seq<Cmode>, k: nat, req: Request)
    requires ModesOk(modes) && k < |modes|
    ensures forall x :: x in Refilled(modes, k, req) <==>
                        x == Filled(modes[k], req, modes[k].slot) || (x in modes && x.letter != modes[k].letter)
  {
    var n, after := Filled(modes[k], req, modes[k].slot), Refilled(modes, k, req);
    assert after[k] == n;
    forall x | x in modes ensures x == modes[k] || x.letter != modes[k].letter {
      SameOrApart(modes, x, modes[k]);
    }
    forall i | 0 <= i < |modes| && i != k ensures modes[i].letter != modes[k].letter && after[i] == modes[i] {
      assert if i < k then Apart(modes[i], modes[k]) else Apart(modes[k], modes[i]);
    }
  }

  lemma RefilledRankedIff(modes: seq<Cmode>, k: nat, req: Request, s: string)
    requires ModesOk(modes) && k < |modes| && Ranked(modes, s)
    ensures Ranked(Refilled(modes, k, req), s) <==> Takes(modes, k, req, s)
  {
    if Takes(modes, k, req, s) {
      TakesRanked(modes, k, req, s);
    } else if Ranked(Refilled(modes, k, req), s) {
      RankedTakes(modes, k, req, s);
    }
  }

  lemma TakesRanked(modes: seq<Cmode>, k: nat, req: Request, s: string)
    requires ModesOk(modes) && k < |modes| && Ranked(modes, s) && Takes(modes, k, req, s)
    ensures Ranked(Refilled(modes, k, req), s)
  {
    var n, after := Filled(modes[k], req, modes[k].slot), Refilled(modes, k, req);
    RefilledMembers(modes, k, req);
    forall i | 0 <= i < |s| ensures MemberLetter(after, s[i]) {
      assert MemberLetter(modes, s[i]);
      var m :| m in modes && m.kind.Member? && m.letter == s[i];
      if m.letter == modes[k].letter {
        SameOrApart(modes, m, modes[k]);
        assert n in after;
      }
    }
    forall i, j | 0 <= i < j < |s| ensures Outranks(after, s[i], s[j]) {
      assert Outranks(modes, s[i], s[j]) && s[i] != s[j] by {
        RankedDistinct(modes, s);
      }
      assert s[i] == req.letter ==> InPlace(modes, s, i, req.rank) && AllBelow(modes, s[j], req.rank);
      assert s[j] == req.letter ==> InPlace(modes, s, j, req.rank) && AllAbove(modes, s[i], req.rank);
    }
  }

  lemma RankedTakes(modes: seq<Cmode>, k: nat, req: Request, s: string)
    requires ModesOk(modes) && k < |modes| && Ranked(modes, s) && Ranked(Refilled(modes, k, req), s)
    ensures Takes(modes, k, req, s)
  {
    var n, after := Filled(modes[k], req, modes[k].slot), Refilled(modes, k, req);
    RefilledMembers(modes, k, req);
    assert n in after;
    forall i | 0 <= i < |s| && s[i] == modes[k].letter
      ensures req.letter == modes[k].letter && req.kind.Member?
    {
      assert MemberLetter(after, s[i]);
    }
    forall i | 0 <= i < |s| && s[i] == req.letter ensures InPlace(modes, s, i, req.rank) {
      forall j | 0 <= j < i ensures AllAbove(modes, s[j], req.rank) {
        OthersStay(modes, k, req, s, j, i);
        assert Outranks(after, s[j], s[i]);
      }
      forall j | i < j < |s| ensures AllBelow(modes, s[j], req.rank) {
        OthersStay(modes, k, req, s, j, i);
        assert Outranks(after, s[i], s[j]);
      }
    }
  }

  /** The other letters of the string are listed as before. */
  lemma OthersStay(modes: seq<Cmode>, k: nat, req: Request, s: string, j: nat, i: nat)
    requires ModesOk(modes) && k < |modes| && Ranked(modes, s) && Ranked(Refilled(modes, k, req), s)
    requires i < |s| && j < |s| && i != j && s[i] == req.letter
    ensures forall x | x in modes && x.letter == s[j] :: x in Refilled(modes, k, req)
  {
    RefilledMembers(modes, k, req);
    RankedDistinct(modes, s);
    assert MemberLetter(Refilled(modes, k, req), s[j]);
  }
}
