/** Runs from boot that show each departure of the channel mode registry from what one would expect. */
module ChannelModeExamples {
  import opened Common
  import opened LetterOrder
  import opened ChannelModes
  import opened ChannelModeInvariant
  import opened ChannelModeRuns
  import opened ChannelModeLimits
  import opened ChannelModeOrder
  import opened ChannelModeStale

  /** A step, whatever the caller asks for. */
  function Do(w: World, op: Op): (w1: World)
    requires CellsFit(w)
    ensures CellsFit(w1)
  {
    StepFits(w, op);
    Step(w, op)
  }

  lemma StepFits(w: World, op: Op)
    requires CellsFit(w)
    ensures CellsFit(Step(w, op))
  {
    match op
    case AddMode(req) => AddFits(w, req);
    case DelMode(id) => DelFits(w, id);
    case FinishRehash => UnusedFits(w, Ids(w.modes));
    case _ =>
  }

  lemma DelFits(w: World, id: nat)
    requires CellsFit(w)
    ensures CellsFit(Del(w, id))
  {
    var k := FindId(w.modes, id);
    if k < |w.modes| {
      CommitFits(w, k);
      assert w.modes[k] in w.modes;
    }
  }

  lemma AddFits(w: World, req: Request)
    requires CellsFit(w)
    ensures CellsFit(Add(w, req).0)
  {
    var k := FindMatch(w.modes, req);
    if k < |w.modes| {
      assert w.modes[k] in w.modes;
      InstallFits(w, k, req, w.modes[k].slot);
    } else {
      var p := InsertPosition(w.modes, req.letter);
      if p.Some? {
        AddAtFits(w, req, p.value);
      }
    }
  }

  lemma InstallFits(w: World, k: nat, req: Request, slot: nat)
    requires CellsFit(w) && k < |w.modes| && slot < |w.table|
    ensures CellsFit(Install(w, k, req, slot))
  {
    forall m | m in Install(w, k, req, slot).modes ensures m.slot < |w.table| {
      assert m == Filled(w.modes[k], req, slot) || m in w.modes;
    }
  }

  lemma AddAtFits(w: World, req: Request, p: nat)
    requires CellsFit(w) && p <= |w.modes|
    ensures CellsFit(AddAt(w, req, p).0)
  {
    var n := Bare(w.nextId, req.letter, NewBit(w, req));
    var w1 := w.(modes := InsertAt(w.modes, p, n), nextId := w.nextId + 1);
    InsertMembers(w.modes, p, n);
    assert CellsFit(w1);
    var slot := if Slotted(req.kind, req.param) then FreeSlot(w.table, 0) else 0;
    if slot != SLOTS {
      InstallFits(w1, p, req, slot);
    }
  }

  lemma {:induction false} UnusedFits(w: World, ids: seq<nat>)
    requires CellsFit(w)
    ensures CellsFit(CommitUnused(w, ids))
    decreases ids
  {
    if ids != [] {
      var k := FindId(w.modes, ids[0]);
      if k < |w.modes| && Unused(w.modes[k]) {
        CommitFits(w, k);
        UnusedFits(Commit(w, k), ids[1..]);
      } else {
        UnusedFits(w, ids[1..]);
      }
    }
  }

  function Plain(name: string, letter: char): Request {
    Request(name, letter, Normal, NUL, NUL, 0, false, false)
  }

  function WithParam(name: string, letter: char): Request {
    Request(name, letter, Normal, NUL, NUL, 0, true, false)
  }

  function AsMember(name: string, letter: char): Request {
    Request(name, letter, Member, '+', '+', 5, true, true)
  }

  /** The first mode ever registered gets bit 0. */
  lemma FirstMode(req: Request)
    requires req.name != "" && req.kind.Normal?
    ensures var w := Do(Boot(), AddMode(req));
            && w.modes == [Cmode(0, Some(req.name), req.letter, Normal, Some(0), req.prefix, req.sjoinPrefix,
                                 req.rank, req.param, req.unsetWithParam, 0, false)]
            && w.nextId == 1 && !w.crashed && !w.rehashing && w.channels == map[]
            && (if req.param then w.table == Boot().table[0 := Some(0)] && w.slotOf == map[req.letter := 0]
                else w.table == Boot().table && w.slotOf == map[])
  {
    var none: seq<Cmode> := [];
    assert !BitTaken(none, 0);
    assert FreeSlot(Boot().table, 0) == 0;
    assert InsertAt(none, 0, Bare(0, req.letter, Some(0))) == [Bare(0, req.letter, Some(0))];
  }

  /** A mode without a letter, then any other new one. */
  lemma LetterlessThenAbort(req: Request)
    requires req.name != "" && req.name != "nameonly" && req.kind.Normal?
    ensures Do(Do(Boot(), AddMode(Plain("nameonly", NUL))), AddMode(req)).crashed
  {
    FirstMode(Plain("nameonly", NUL));
    var w := Do(Boot(), AddMode(Plain("nameonly", NUL)));
    assert !BitTaken(w.modes, 1);
    assert FindMatch(w.modes, req) == 1;
  }

  /** One channel with one mode set on it. */
  function SetOnce(req: Request): World {
    Do(Do(Do(Boot(), AddMode(req)), CreateChannel(0)), SetMode(0, 0, "v"))
  }

  lemma SetOnceIs(req: Request)
    requires req.name != "" && req.kind.Normal?
    ensures var v, w := Do(Boot(), AddMode(req)), SetOnce(req);
            && w.modes == v.modes && w.table == v.table && w.slotOf == v.slotOf && w.nextId == 1
            && !w.crashed && !w.rehashing && SetThere(w, 0, 0)
            && (req.param ==> w.channels[0].cells[0] == Data("v"))
  {
    FirstMode(req);
    var v := Do(Boot(), AddMode(req));
    assert FindId(v.modes, 0) == 0;
  }

  /** Its module goes in a rehash and comes back with another request. */
  function ComesBack(w: World, id: nat, req: Request): World
    requires CellsFit(w)
  {
    Do(Do(Do(w, StartRehash), DelMode(id)), AddMode(req))
  }

  /** A mode that is set and comes back as a member mode: its bit stays set and belongs to nobody. */
  lemma ComesBackAsMember()
    ensures var w := ComesBack(SetOnce(Plain("x", 'x')), 0, AsMember("x", 'x'));
            SetThere(w, 0, 0) && !BitOwned(w.modes, 0)
  {
    FirstMode(Plain("x", 'x'));
    SetOnceIs(Plain("x", 'x'));
    var w := SetOnce(Plain("x", 'x'));
    assert FindId(w.modes, 0) == 0;
    var w1 := Do(Do(w, StartRehash), DelMode(0));
    assert w1.modes == [w.modes[0].(unloaded := true)];
    assert FindMatch(w1.modes, AsMember("x", 'x')) == 0;
  }

  /** A parameter mode that comes back without its parameter: the table still names it for its slot. */
  lemma ComesBackWithoutParameter()
    ensures var w := ComesBack(Do(Boot(), AddMode(WithParam("x", 'x'))), 0, Plain("x", 'x'));
            w.table[0] == Some(0) && !SlotOwned(w.modes, 0, 0)
  {
    FirstMode(WithParam("x", 'x'));
    var w := Do(Boot(), AddMode(WithParam("x", 'x')));
    assert FindId(w.modes, 0) == 0;
    var w1 := Do(Do(w, StartRehash), DelMode(0));
    assert w1.modes == [w.modes[0].(unloaded := true)];
    assert FindMatch(w1.modes, Plain("x", 'x')) == 0;
  }

  /** Unloading a set parameter mode outside a rehash leaves a freed pointer in the slot, and the next
      parameter mode gets that slot: its handler is given the pointer. */
  lemma NextModeGetsStaleCell()
    ensures var w := Do(Do(SetOnce(WithParam("x", 'x')), DelMode(0)), AddMode(WithParam("y", 'y')));
            w.modes != [] && w.modes[0].name == Some("y") && w.modes[0].slot == 0 && IsStale(w, 0, 0)
  {
    FirstMode(WithParam("x", 'x'));
    SetOnceIs(WithParam("x", 'x'));
    var w := SetOnce(WithParam("x", 'x'));
    assert FindId(w.modes, 0) == 0;
    var w1 := Do(w, DelMode(0));
    assert w1.modes == [] && w1.table[0] == None;
    assert IsStale(w1, 0, 0);
    var y := WithParam("y", 'y');
    assert !BitTaken(w1.modes, 0) && FreeSlot(w1.table, 0) == 0;
    assert InsertAt(w1.modes, 0, Bare(1, 'y', Some(0))) == [Bare(1, 'y', Some(0))];
  }

  /** Three letters on which the order goes round in a circle: the list is out of order in any case. */
  lemma CyclicLetters()
    ensures SortBefore('A', '_') && SortBefore('_', 'a') && SortBefore('a', 'A')
    ensures var w := Do(Do(Do(Boot(), AddMode(Plain("x", 'A'))), AddMode(Plain("y", '_'))), AddMode(Plain("z", 'a')));
            |w.modes| == 3 && !Sorted(w.modes)
  {
    FirstMode(Plain("x", 'A'));
    var w1 := Do(Boot(), AddMode(Plain("x", 'A')));
    var w2 := SecondMode(w1, Plain("y", '_'));
    assert FindMatch(w2.modes, Plain("z", 'a')) == 2;
    assert BitTaken(w2.modes, 0) by { assert w2.modes[0].bit == Some(0) && w2.modes[0] in w2.modes; }
    assert BitTaken(w2.modes, 1) by { assert w2.modes[1].bit == Some(1) && w2.modes[1] in w2.modes; }
    assert !BitTaken(w2.modes, 2);
    assert FreeBit(w2.modes, 0) == 2;
    assert InsertPosition(w2.modes, 'a') == Some(0);
    var w3 := Do(w2, AddMode(Plain("z", 'a')));
    assert w3.modes[0].letter == 'a' && w3.modes[2].letter == '_';
    assert !SortBefore('a', '_');
  }

  /** A second mode, listed behind the first. */
  lemma SecondMode(w: World, req: Request) returns (w1: World)
    requires CellsFit(w) && |w.modes| == 1 && w.modes[0].bit == Some(0) && !w.crashed
    requires w.modes[0].letter != NUL && !SortBefore(req.letter, w.modes[0].letter)
    requires req.name != "" && req.kind.Normal? && !req.param && !Matches(w.modes[0], req)
    ensures w1 == Do(w, AddMode(req)) && |w1.modes| == 2 && !w1.crashed
    ensures w1.modes[0] == w.modes[0] && w1.modes[1].letter == req.letter
    ensures w1.modes[1].bit == Some(1) && w1.modes[1].name == Some(req.name)
    ensures w1.modes[1].id == w.nextId && w1.modes[1].slot == 0 && !w1.modes[1].param && w1.modes[1].kind.Normal?
    ensures w1.table == w.table && w1.slotOf == w.slotOf && w1.rehashing == w.rehashing
  {
    w1 := Do(w, AddMode(req));
    assert FindMatch(w.modes, req) == 1;
    assert BitTaken(w.modes, 0) by { assert w.modes[0] in w.modes; }
    assert !BitTaken(w.modes, 1);
    assert FreeBit(w.modes, 0) == 1;
    assert InsertPosition(w.modes[1..], req.letter) == Some(0);
    assert InsertPosition(w.modes, req.letter) == Some(1);
  }

  /** A mode without parameter, which has slot 0 like the parameter mode before it, comes back with a
      parameter: the two then share slot 0, and the table names only one of them. */
  lemma ComesBackWithParameter()
    ensures var w := ComesBack(Do(Do(Boot(), AddMode(WithParam("x", 'x'))), AddMode(Plain("y", 'y'))), 1,
                               WithParam("y", 'y'));
            && |w.modes| == 2 && HasSlot(w.modes[0]) && HasSlot(w.modes[1])
            && w.modes[0].slot == w.modes[1].slot == 0 && w.table[0] != Some(w.modes[0].id)
  {
    FirstMode(WithParam("x", 'x'));
    var w1 := Do(Boot(), AddMode(WithParam("x", 'x')));
    var w2 := SecondMode(w1, Plain("y", 'y'));
    assert FindId(w2.modes, 1) == 1;
    var w3 := Do(Do(w2, StartRehash), DelMode(1));
    assert w3.modes == w2.modes[1 := w2.modes[1].(unloaded := true)];
    assert FindMatch(w3.modes, WithParam("y", 'y')) == 1;
  }

  /** A mode without a letter is marked in a rehash, and still listed when the rehash is over. */
  lemma LetterlessOutlivesRehash()
    ensures var w := Do(Do(Do(Do(Boot(), AddMode(Plain("nameonly", NUL))), StartRehash), DelMode(0)), FinishRehash);
            w.modes != [] && w.modes[0].id == 0 && w.modes[0].unloaded && !w.rehashing
  {
    FirstMode(Plain("nameonly", NUL));
    var w := Do(Boot(), AddMode(Plain("nameonly", NUL)));
    assert FindId(w.modes, 0) == 0;
    var w1 := Do(Do(w, StartRehash), DelMode(0));
    assert w1.modes == [w.modes[0].(unloaded := true)];
    var ids := Ids(w1.modes);
    assert ids == [0] && ids[1..] == [];
    assert CommitUnused(w1, ids) == w1;
  }

  /** A mode that is set and comes back with a parameter: it is set, its bit is owned and the tables agree,
      but there is no parameter. */
  lemma ComesBackNeedingParameter()
    ensures var w := ComesBack(SetOnce(Plain("x", 'x')), 0, WithParam("x", 'x'));
            && w.modes != [] && HasSlot(w.modes[0]) && w.modes[0].bit == Some(0) && w.modes[0].slot == 0
            && w.table[0] == Some(0) && SetThere(w, 0, 0) && w.channels[0].cells[0] == Null
  {
    FirstMode(Plain("x", 'x'));
    SetOnceIs(Plain("x", 'x'));
    var w := SetOnce(Plain("x", 'x'));
    assert w.channels[0].cells[0] == Null;
    assert FindId(w.modes, 0) == 0;
    var w1 := Do(Do(w, StartRehash), DelMode(0));
    assert w1.modes == [w.modes[0].(unloaded := true)];
    assert FindMatch(w1.modes, WithParam("x", 'x')) == 0;
  }

  function Ranking(name: string, letter: char, rank: int): Request {
    Request(name, letter, Member, '+', '+', rank, true, true)
  }

  /** The entry of a member mode. */
  function Entry(id: nat, req: Request): Cmode {
    Cmode(id, Some(req.name), req.letter, Member, None, req.prefix, req.sjoinPrefix, req.rank, true, true, 0, false)
  }

  /** Two member modes, registered one after the other. */
  function TwoMembers(): World {
    Do(Do(Boot(), AddMode(Ranking("x", 'a', 5))), AddMode(Ranking("y", 'b', 3)))
  }

  lemma TwoMembersAre()
    ensures var w := TwoMembers();
            && w.modes == [Entry(0, Ranking("x", 'a', 5)), Entry(1, Ranking("y", 'b', 3))]
            && !w.crashed && !w.rehashing && w.channels == map[]
  {
    var x, y := Ranking("x", 'a', 5), Ranking("y", 'b', 3);
    var none: seq<Cmode> := [];
    assert InsertAt(none, 0, Bare(0, 'a', None)) == [Bare(0, 'a', None)];
    var w1 := Do(Boot(), AddMode(x));
    assert w1.modes == [Entry(0, x)] && w1.nextId == 1;
    assert FindMatch(w1.modes, y) == 1;
    assert InsertPosition(w1.modes[1..], 'b') == Some(0);
    assert InsertPosition(w1.modes, 'b') == Some(1);
    assert InsertAt(w1.modes, 1, Bare(1, 'b', None)) == [Entry(0, x), Bare(1, 'b', None)];
  }

  /** A user joins with both. */
  function JoinedWithBoth(): World {
    Do(Do(TwoMembers(), CreateChannel(0)), Join(0, 7, "ab"))
  }

  lemma JoinedWithBothIs()
    ensures var w := JoinedWithBoth();
            && w.modes == TwoMembers().modes && !w.crashed && !w.rehashing && 0 in w.channels
            && w.channels[0].seats == [Seat(7, "ab", "ab")]
  {
    TwoMembersAre();
    LettersInOrder(TwoMembers().modes);
    var w := Do(TwoMembers(), CreateChannel(0));
    assert w.channels[0] == EmptyChannel() && w.modes == TwoMembers().modes;
    FirstToJoin(w);
  }

  lemma FirstToJoin(w: World)
    requires CellsFit(w) && !w.crashed && 0 in w.channels && w.channels[0].seats == []
    requires AddLetters(w.modes, "", "ab") == "ab"
    ensures var w1 := Do(w, Join(0, 7, "ab"));
            && w1 == w.(channels := w1.channels) && 0 in w1.channels
            && w1.channels[0].seats == [Seat(7, "ab", "ab")]
  {
  }

  lemma LettersInOrder(modes: seq<Cmode>)
    requires modes == [Entry(0, Ranking("x", 'a', 5)), Entry(1, Ranking("y", 'b', 3))]
    ensures AddLetters(modes, "", "ab") == "ab"
  {
    assert FindLetter(modes, 'a') == 0;
    assert FindLetter(modes, 'b') == 1;
    assert InsertByRank(modes, "", 'a', 5) == "a";
    assert AddLetter(modes, "", 'a') == "a";
    assert "a"[1..] == "" && InsertByRank(modes, "", 'b', 3) == "b" && ['a'] + "b" == "ab";
    assert InsertByRank(modes, "a", 'b', 3) == "ab";
    assert AddLetter(modes, "a", 'b') == "ab";
    assert "ab"[1..] == "b" && "b"[1..] == "";
    assert AddLetters(modes, "ab", "") == "ab";
    assert AddLetters(modes, "a", "b") == "ab";
    assert AddLetters(modes, "", "ab") == "ab";
  }

  /** A member mode that comes back with a lower rank: the user's letters are no longer in order. */
  lemma ComesBackWithRank()
    ensures var w := ComesBack(JoinedWithBoth(), 0, Ranking("x", 'a', 1));
            && 0 in w.channels && w.channels[0].seats == [Seat(7, "ab", "ab")]
            && !Ranked(w.modes, "ab")
  {
    TwoMembersAre();
    JoinedWithBothIs();
    var w := JoinedWithBoth();
    assert FindId(w.modes, 0) == 0;
    var w1 := Do(Do(w, StartRehash), DelMode(0));
    assert w1.modes == w.modes[0 := w.modes[0].(unloaded := true)];
    assert FindMatch(w1.modes, Ranking("x", 'a', 1)) == 0;
    var w2 := Do(w1, AddMode(Ranking("x", 'a', 1)));
    assert w2.modes[0].letter == 'a' && w2.modes[0].rank == 1 && w2.modes[1].letter == 'b' && w2.modes[1].rank == 3;
    assert w2.modes[0] in w2.modes && w2.modes[1] in w2.modes;
    assert !Outranks(w2.modes, "ab"[0], "ab"[1]);
  }

  // ---------------------------------------------------------------- seventeen parameter modes

  function Letter(i: nat): char
    requires i < 26
  {
    ('a' as int + i) as char
  }

  /** The registry after `n` parameter modes a, b, c, ... have been registered. */
  function Stock(n: nat): World
    requires n <= SLOTS
  {
    if n == 0 then Boot() else Do(Stock(n - 1), AddMode(WithParam([Letter(n - 1)], Letter(n - 1))))
  }

  ghost predicate Stocked(w: World, n: nat) {
    && !w.crashed && |w.table| == SLOTS + 1
    && (forall m | m in w.modes :: 'a' as int <= m.letter as int < 'a' as int + n && m.name == Some([m.letter]))
    && (forall b: nat :: BitTaken(w.modes, b) <==> b < n)
    && (forall s | 0 <= s <= SLOTS :: w.table[s].Some? <==> s < n)
  }

  lemma {:induction false} PositionFound(modes: seq<Cmode>, letter: char)
    requires forall m | m in modes :: m.letter != NUL
    ensures InsertPosition(modes, letter).Some?
  {
    if modes != [] {
      assert modes[0] in modes;
      forall m | m in modes[1..] ensures m in modes { }
      PositionFound(modes[1..], letter);
    }
  }

  lemma {:induction false} StockIs(n: nat)
    requires n <= SLOTS
    ensures Stocked(Stock(n), n)
  {
    if n > 0 {
      StockIs(n - 1);
      StockMore(Stock(n - 1), n - 1);
    }
  }

  /** What the searches of a registration find there. */
  lemma StockSearches(w: World, n: nat, letter: char)
    requires CellsFit(w) && Stocked(w, n) && n <= SLOTS && 'a' as int + n <= letter as int
    ensures FindMatch(w.modes, WithParam([letter], letter)) == |w.modes|
    ensures InsertPosition(w.modes, letter).Some?
    ensures FreeBit(w.modes, 0) == n && FreeSlot(w.table, 0) == n
  {
    var req := WithParam([letter], letter);
    forall m | m in w.modes ensures !Matches(m, req) {
      assert [m.letter][0] != [letter][0];
    }
    PositionFound(w.modes, letter);
    assert FreeBit(w.modes, 0) <= n && !BitTaken(w.modes, n);
    var f := FreeSlot(w.table, 0);
    assert w.table[n].None? && (f == SLOTS || w.table[f].None?);
  }

  lemma StockMore(w: World, n: nat)
    requires CellsFit(w) && Stocked(w, n) && n < SLOTS
    ensures Stocked(Do(w, AddMode(WithParam([Letter(n)], Letter(n)))), n + 1)
  {
    var req := WithParam([Letter(n)], Letter(n));
    StockSearches(w, n, req.letter);
    var p := InsertPosition(w.modes, req.letter).value;
    var w1 := AddAt(w, req, p).0;
    assert Do(w, AddMode(req)) == w1;
    StockBits(w, req, p, n);
  }

  lemma StockBits(w: World, req: Request, p: nat, n: nat)
    requires Stocked(w, n) && n < SLOTS && req == WithParam([Letter(n)], Letter(n)) && p <= |w.modes|
    requires FreeBit(w.modes, 0) == n && FreeSlot(w.table, 0) == n
    ensures Stocked(AddAt(w, req, p).0, n + 1)
  {
    var m1 := Filled(Bare(w.nextId, req.letter, Some(n)), req, n);
    AddedAt(w, req, p, n, n);
    InsertMembers(w.modes, p, m1);
    OneBitMore(w.modes, p, m1, n);
  }

  /** A registration with bit `b` and slot `s`. */
  lemma AddedAt(w: World, req: Request, p: nat, b: nat, s: nat)
    requires |w.table| == SLOTS + 1 && p <= |w.modes| && Slotted(req.kind, req.param)
    requires FreeBit(w.modes, 0) == b && FreeSlot(w.table, 0) == s < SLOTS
    ensures var w1 := AddAt(w, req, p).0;
            && w1.modes == InsertAt(w.modes, p, Filled(Bare(w.nextId, req.letter, Some(b)), req, s))
            && w1.table == w.table[s := Some(w.nextId)] && w1.crashed == w.crashed
  {
  }

  lemma OneBitMore(modes: seq<Cmode>, p: nat, m1: Cmode, n: nat)
    requires p <= |modes| && m1.bit == Some(n) && forall b: nat :: BitTaken(modes, b) <==> b < n
    ensures forall b: nat :: BitTaken(InsertAt(modes, p, m1), b) <==> b < n + 1
  {
    InsertMembers(modes, p, m1);
    assert m1 in InsertAt(modes, p, m1);
    forall b: nat ensures BitTaken(InsertAt(modes, p, m1), b) <==> b < n + 1 {
      if BitTaken(modes, b) {
        var m :| m in modes && m.bit == Some(b);
        assert m in InsertAt(modes, p, m1);
      }
    }
  }

  /** With all sixteen slots in use, one more parameter mode is refused, but stays listed without a name. */
  lemma SeventeenthParameter(n: nat) returns (w: World)
    requires n == 16
    ensures w == Stock(n)
    ensures Add(w, WithParam(['q'], 'q')).1 == NoSpace
    ensures LeftBehind(w, Add(w, WithParam(['q'], 'q')).0, WithParam(['q'], 'q'))
  {
    w := Stock(n);
    StockIs(n);
    FullRefuses(w);
  }

  lemma FullRefuses(w: World)
    requires CellsFit(w) && Stocked(w, SLOTS)
    ensures Add(w, WithParam(['q'], 'q')).1 == NoSpace
    ensures LeftBehind(w, Add(w, WithParam(['q'], 'q')).0, WithParam(['q'], 'q'))
  {
    StockSearches(w, SLOTS, 'q');
    RefusedButListed(w, WithParam(['q'], 'q'), InsertPosition(w.modes, 'q').value);
  }

  lemma RefusedButListed(w: World, req: Request, p: nat)
    requires Stocked(w, SLOTS) && req == WithParam(['q'], 'q') && p <= |w.modes|
    requires FreeBit(w.modes, 0) == SLOTS && FreeSlot(w.table, 0) == SLOTS
    ensures AddAt(w, req, p).1 == NoSpace && LeftBehind(w, AddAt(w, req, p).0, req)
  {
    var left := Bare(w.nextId, 'q', Some(SLOTS));
    InsertMembers(w.modes, p, left);
    assert left in AddAt(w, req, p).0.modes && left !in w.modes;
  }
}
