/** What each operation on the channel mode registry does, in terms of what is listed, set and shown
    before and after it. */
module ChannelModeEffects {
  import opened Common
  import opened ChannelModes
  import opened ChannelModeInvariant
  import opened ChannelModeRuns
  import opened ChannelModeLimits

  // ---------------------------------------------------------------- registering

  /** The entry a registration promises: everything the module asked for, and no unload mark. */
  predicate AsRequested(m: Cmode, req: Request) {
    && m.name == Some(req.name) && m.letter == req.letter && m.kind == req.kind
    && m.prefix == req.prefix && m.sjoinPrefix == req.sjoinPrefix && m.rank == req.rank
    && m.param == req.param && m.unsetWithParam == req.unsetWithParam && !m.unloaded
  }

  /** The module is told the id and the bit of an entry that is as requested. It is a new entry exactly if
      nothing matched. All others stay, no other is added, and no channel changes. */
  lemma AddRegisters(w: World, req: Request) returns (m: Cmode)
    requires Inv(w) && CellsFit(w) && Add(w, req).1.Registered?
    ensures var (w1, o) := Add(w, req);
            && m in w1.modes && m.id == o.id && m.bit == o.bit && AsRequested(m, req)
            && (forall x | x in w1.modes :: x == m || x in w.modes)
            && (forall x | x in w.modes :: x.id == m.id || x in w1.modes)
            && w1.channels == w.channels && w1.rehashing == w.rehashing && w1.crashed == w.crashed
    ensures (exists x | x in w.modes :: x.id == m.id) <==> FindMatch(w.modes, req) < |w.modes|
  {
    var k := FindMatch(w.modes, req);
    if k == |w.modes| {
      m := NewRegisters(w, req);
      forall x | x in w.modes ensures x.id != m.id {
      }
    } else {
      m := RevivedRegisters(w, req);
    }
  }

  lemma NewRegisters(w: World, req: Request) returns (m: Cmode)
    requires Inv(w) && CellsFit(w) && Add(w, req).1.Registered? && FindMatch(w.modes, req) == |w.modes|
    ensures var (w1, o) := Add(w, req);
            && m in w1.modes && m.id == o.id == w.nextId && m.bit == o.bit && AsRequested(m, req)
            && (forall x :: x in w1.modes <==> x == m || x in w.modes)
            && w1.channels == w.channels && w1.rehashing == w.rehashing && w1.crashed == w.crashed
  {
    var p := InsertPosition(w.modes, req.letter).value;
    m := NewEntry(w, req);
    AddAtResult(w, req, p);
    InsertMembers(w.modes, p, m);
  }

  lemma RevivedRegisters(w: World, req: Request) returns (m: Cmode)
    requires Inv(w) && CellsFit(w) && Add(w, req).1.Registered? && FindMatch(w.modes, req) < |w.modes|
    ensures var (w1, o) := Add(w, req);
            && m in w1.modes && m.id == o.id && m.bit == o.bit && AsRequested(m, req)
            && (forall x | x in w1.modes :: x == m || x in w.modes)
            && (forall x | x in w.modes :: x.id == m.id || x in w1.modes)
            && w1.channels == w.channels && w1.rehashing == w.rehashing && w1.crashed == w.crashed
    ensures m.id == w.modes[FindMatch(w.modes, req)].id && m.bit == w.modes[FindMatch(w.modes, req)].bit
  {
    var k := FindMatch(w.modes, req);
    m := Filled(w.modes[k], req, w.modes[k].slot);
    assert Add(w, req).0.modes == w.modes[k := m];
    OneReplaced(w.modes, k, m);
  }

  lemma OneReplaced(modes: seq<Cmode>, k: nat, m: Cmode)
    requires k < |modes| && m.id == modes[k].id
    ensures m in modes[k := m]
    ensures forall x | x in modes[k := m] :: x == m || x in modes
    ensures forall x | x in modes :: x.id == m.id || x in modes[k := m]
  {
    var after := modes[k := m];
    assert after[k] == m;
    forall x | x in modes ensures x.id == m.id || x in after {
      var i :| 0 <= i < |modes| && modes[i] == x;
      assert i != k ==> after[i] == x;
    }
  }

  /** A member mode needs a prefix on both sides, a parameter to set and unset it, and a rank. */
  ghost predicate Incomplete(req: Request) {
    req.kind.Member? &&
    (req.prefix == NUL || req.sjoinPrefix == NUL || !req.param || !req.unsetWithParam || req.rank == 0)
  }

  /** When a registration is refused as invalid or as existing; then nothing changes. */
  lemma AddRefusesIff(w: World, req: Request)
    requires Inv(w) && CellsFit(w)
    ensures var (w1, o) := Add(w, req);
            var k := FindMatch(w.modes, req);
            && (o == Invalid <==> req.name == "" || (k == |w.modes| && Incomplete(req)))
            && (o == Exists <==> req.name != "" && k < |w.modes| && !w.modes[k].unloaded)
            && (o == Invalid || o == Exists ==> w1 == w)
  {
  }

  // ---------------------------------------------------------------- deleting

  /** Deleting a listed mode marks it during a rehash, and takes it off the list otherwise; the other
      entries stay as they are. */
  lemma DelEffect(w: World, m: Cmode)
    requires Inv(w) && CellsFit(w) && m in w.modes
    ensures var w1 := Del(w, m.id);
            && (forall x :: x in w1.modes <==>
                            (x in w.modes && x != m) || (w.rehashing && x == m.(unloaded := true)))
            && (w.rehashing ==> w1.channels == w.channels)
  {
    var k := FindId(w.modes, m.id);
    var i :| 0 <= i < |w.modes| && w.modes[i] == m;
    SameOrApart(w.modes, m, w.modes[k]);
    RemoveMembers(w.modes, k);
    if w.rehashing {
      MarkedList(w.modes, k);
    }
  }

  lemma MarkedList(modes: seq<Cmode>, k: nat)
    requires ModesOk(modes) && k < |modes|
    ensures forall x :: x in modes[k := modes[k].(unloaded := true)] <==>
                        (x in modes && x != modes[k]) || x == modes[k].(unloaded := true)
  {
    var after := modes[k := modes[k].(unloaded := true)];
    assert after[k] in after;
    forall i | 0 <= i < |modes| && i != k ensures modes[i] != modes[k] && after[i] == modes[i] {
      assert if i < k then Apart(modes[i], modes[k]) else Apart(modes[k], modes[i]);
    }
  }

  // ---------------------------------------------------------------- a rehash

  ghost predicate ListedAs(w: World, x: nat, unloaded: bool) {
    exists m | m in w.modes :: m.id == x && m.unloaded == unloaded
  }

  /** The request finds entry `x`. */
  predicate Claims(w: World, req: Request, x: nat) {
    var k := FindMatch(w.modes, req);
    req.name != "" && k < |w.modes| && w.modes[k].id == x
  }

  /** Whether mode `x`, listed at `s`, bears an unload mark at `t`: the last module to delete it or to ask
      for it decides. */
  ghost predicate Marked(ws: seq<World>, ops: seq<Op>, s: nat, t: nat, x: nat)
    requires |ws| == |ops| + 1 && s <= t < |ws|
    decreases t
  {
    if t == s then ListedAs(ws[s], x, true)
    else MarkedBy(ws[t - 1], ops[t - 1], x, Marked(ws, ops, s, t - 1, x))
  }

  lemma StepMark(w: World, op: Op, x: nat, u: bool)
    requires Inv(w) && CellsFit(w) && !w.crashed && w.rehashing && ListedAs(w, x, u) && !op.FinishRehash?
    ensures ListedAs(Step(w, op), x, MarkedBy(w, op, x, u))
  {
    var m :| m in w.modes && m.id == x && m.unloaded == u;
    if op.DelMode? {
      DelMark(w, op.id, m);
    } else if op.AddMode? {
      AddMark(w, op.req, m);
    }
  }

  lemma DelMark(w: World, id: nat, m: Cmode)
    requires Inv(w) && CellsFit(w) && w.rehashing && m in w.modes
    ensures ListedAs(Del(w, id), m.id, if id == m.id then true else m.unloaded)
  {
    var k := FindId(w.modes, id);
    if k < |w.modes| {
      DelEffect(w, w.modes[k]);
      SameOrApart(w.modes, m, w.modes[k]);
      assert m.(unloaded := true) in Del(w, id).modes || m in Del(w, id).modes;
    }
  }

  lemma AddMark(w: World, req: Request, m: Cmode)
    requires Inv(w) && CellsFit(w) && m in w.modes
    ensures ListedAs(Add(w, req).0, m.id, if Claims(w, req, m.id) then false else m.unloaded)
  {
    var k := FindMatch(w.modes, req);
    if k < |w.modes| {
      SameOrApart(w.modes, m, w.modes[k]);
    }
    if Add(w, req).1.Registered? {
      var n := AddRegisters(w, req);
      if k < |w.modes| {
        var r := RevivedRegisters(w, req);
        assert ListedAs(Add(w, req).0, r.id, false);
      }
      if m in Add(w, req).0.modes {
        assert ListedAs(Add(w, req).0, m.id, m.unloaded);
      }
      if k == |w.modes| {
        var r := NewRegisters(w, req);
      }
    } else {
      AddKeepsListed(w, req, m);
    }
  }

  lemma AddKeepsListed(w: World, req: Request, m: Cmode)
    requires Inv(w) && CellsFit(w) && m in w.modes && !Add(w, req).1.Registered?
    ensures m in Add(w, req).0.modes
    ensures Claims(w, req, m.id) ==> !m.unloaded
  {
    var k := FindMatch(w.modes, req);
    if k < |w.modes| {
      SameOrApart(w.modes, m, w.modes[k]);
    } else if req.name != "" && InsertPosition(w.modes, req.letter).Some? {
      var p := InsertPosition(w.modes, req.letter).value;
      AddAtResult(w, req, p);
      InsertMembers(w.modes, p, NewEntry(w, req));
    }
  }

  /** From `s` to `t` a rehash is going on. */
  ghost predicate Rehashing(ws: seq<World>, ops: seq<Op>, s: nat, t: nat)
    requires |ws| == |ops| + 1 && s <= t < |ws|
  {
    forall i | s <= i <= t :: ws[i].rehashing && !ws[i].crashed && (i < t ==> !ops[i].FinishRehash?)
  }

  /** What one step makes of a mark. */
  ghost predicate MarkedBy(w: World, op: Op, x: nat, u: bool) {
    if op.DelMode? && op.id == x then true
    else if op.AddMode? && Claims(w, op.req, x) then false
    else u
  }

  /** The step changes the mark of `x` so. */
  ghost predicate Carries(w: World, op: Op, w1: World, x: nat) {
    forall u | ListedAs(w, x, u) :: ListedAs(w1, x, MarkedBy(w, op, x, u))
  }

  lemma RunCarries(ws: seq<World>, ops: seq<Op>, i: nat, x: nat)
    requires IsRun(ws, ops) && i < |ops| && ws[i].rehashing && !ws[i].crashed && !ops[i].FinishRehash?
    ensures Carries(ws[i], ops[i], ws[i + 1], x)
  {
    RunKeepsInv(ws, ops, i);
    assert StepsTo(ws[i], ops[i], ws[i + 1]);
    forall u | ListedAs(ws[i], x, u) ensures ListedAs(ws[i + 1], x, MarkedBy(ws[i], ops[i], x, u)) {
      StepMark(ws[i], ops[i], x, u);
    }
  }

  lemma {:induction false} MarkCarried(ws: seq<World>, ops: seq<Op>, s: nat, t: nat, x: nat)
    requires |ws| == |ops| + 1 && s <= t < |ws| && ListedAs(ws[s], x, ListedAs(ws[s], x, true))
    requires forall i | s <= i < t :: Carries(ws[i], ops[i], ws[i + 1], x)
    ensures ListedAs(ws[t], x, Marked(ws, ops, s, t, x))
    decreases t
  {
    if t > s {
      MarkCarried(ws, ops, s, t - 1, x);
      assert Carries(ws[t - 1], ops[t - 1], ws[t - 1 + 1], x);
    }
  }

  lemma MarkOverRun(ws: seq<World>, ops: seq<Op>, s: nat, t: nat, x: nat, u: bool)
    requires IsRun(ws, ops) && s <= t < |ws| && Rehashing(ws, ops, s, t) && ListedAs(ws[s], x, u)
    ensures ListedAs(ws[t], x, Marked(ws, ops, s, t, x))
  {
    RunKeepsInv(ws, ops, s);
    OneMark(ws[s], x, u);
    forall i | s <= i < t ensures Carries(ws[i], ops[i], ws[i + 1], x) {
      assert ws[i].rehashing && !ws[i].crashed && !ops[i].FinishRehash?;
      RunCarries(ws, ops, i, x);
    }
    MarkCarried(ws, ops, s, t, x);
  }

  lemma OneMark(w: World, x: nat, u: bool)
    requires Inv(w) && ListedAs(w, x, u)
    ensures !ListedAs(w, x, !u)
  {
    var m :| m in w.modes && m.id == x && m.unloaded == u;
    forall y | y in w.modes && y.id == x ensures y == m {
      SameOrApart(w.modes, y, m);
    }
  }

  /** A mode listed at some moment of a rehash is listed when the rehash is over exactly if the last
      module that deleted it or asked for it, if any since then, asked for it; or if it has no letter. */
  lemma RehashKeepsReclaimed(ws: seq<World>, ops: seq<Op>, s: nat, t: nat, x: nat, u: bool)
    requires IsRun(ws, ops) && s <= t < |ops| && Rehashing(ws, ops, s, t) && ops[t].FinishRehash?
    requires ListedAs(ws[s], x, u)
    ensures (exists m | m in ws[t + 1].modes :: m.id == x) <==>
            !Marked(ws, ops, s, t, x) || exists m | m in ws[t].modes :: m.id == x && m.letter == NUL
  {
    RunKeepsInv(ws, ops, t);
    assert StepsTo(ws[t], ops[t], ws[t + 1]);
    RehashRemovesExactlyUnused(ws[t]);
    MarkOverRun(ws, ops, s, t, x, u);
    var marked := Marked(ws, ops, s, t, x);
    var m :| m in ws[t].modes && m.id == x && m.unloaded == marked;
    forall y | y in ws[t].modes && y.id == x ensures y == m {
      SameOrApart(ws[t].modes, y, m);
    }
    assert m in ws[t + 1].modes <==> !Unused(m);
  }

  // ---------------------------------------------------------------- channels

  /** The state but for one channel. */
  ghost predicate OnlyChannel(w: World, w1: World, c: nat) {
    && w1 == w.(channels := w1.channels) && w1.channels.Keys == w.channels.Keys
    && forall d | d in w.channels && d != c :: w1.channels[d] == w.channels[d]
  }

  /** What MODE with a normal mode makes of a channel: it sets its bit, or clears it, and no other; it
      stores its parameter, or removes it, in the slot of the mode, and touches no other cell. */
  ghost predicate ModeChanged(m: Cmode, op: Op, ch: Channel, ch1: Channel)
    requires op.SetMode? || op.ClearMode?
  {
    && m.bit.Some? && m.slot < SLOTS && |ch1.cells| == |ch.cells| == SLOTS + 1 && ch1.seats == ch.seats
    && ch1.word == (if op.SetMode? then ch.word + {m.bit.value} else ch.word - {m.bit.value})
    && (forall s | 0 <= s <= SLOTS && !(HasSlot(m) && s == m.slot) :: ch1.cells[s] == ch.cells[s])
    && (HasSlot(m) && op.SetMode? ==> ch1.cells[m.slot] == Data(op.value))
    && (HasSlot(m) && op.ClearMode? ==>
          ch1.cells[m.slot] == if m.bit.value in ch.word && !op.resisted then Null else ch.cells[m.slot])
  }

  lemma ModeEffect(w: World, op: Op, m: Cmode)
    requires Inv(w) && CellsFit(w) && !w.crashed && m in w.modes && m.kind.Normal?
    requires (op.SetMode? || op.ClearMode?) && op.id == m.id && op.c in w.channels
    ensures OnlyChannel(w, Step(w, op), op.c)
    ensures ModeChanged(m, op, w.channels[op.c], Step(w, op).channels[op.c])
  {
    var k := FindId(w.modes, m.id);
    var i :| 0 <= i < |w.modes| && w.modes[i] == m;
    SameOrApart(w.modes, m, w.modes[k]);
    assert WellFormed(m);
    ModeOnChannel(m, op, w.channels[op.c], SlotOf(w.slotOf, m.letter));
  }

  lemma ModeOnChannel(m: Cmode, op: Op, ch: Channel, slot: nat)
    requires WellFormed(m) && m.kind.Normal? && |ch.cells| == SLOTS + 1 && slot < |ch.cells|
    requires (op.SetMode? || op.ClearMode?) && (HasSlot(m) ==> slot == m.slot)
    ensures op.SetMode? ==> ModeChanged(m, op, ch, SetOn(ch, m, slot, op.value))
    ensures op.ClearMode? ==> ModeChanged(m, op, ch, ClearOn(ch, m, slot, op.resisted))
  {
  }

  /** A new channel is empty; a destroyed one is gone; the registry and the other channels stay. */
  lemma ChannelComesAndGoes(w: World, c: nat)
    requires CellsFit(w) && !w.crashed
    ensures var w1 := Step(w, CreateChannel(c));
            && w1 == w.(channels := w1.channels) && w1.channels.Keys == w.channels.Keys + {c}
            && (c !in w.channels ==>
                  && w1.channels[c].word == {} && w1.channels[c].seats == []
                  && forall i | 0 <= i < |w1.channels[c].cells| :: w1.channels[c].cells[i] == Null)
            && forall d | d in w.channels :: w1.channels[d] == w.channels[d]
    ensures var w1 := Step(w, DestroyChannel(c));
            && w1 == w.(channels := w1.channels) && w1.channels.Keys == w.channels.Keys - {c}
            && forall d | d in w1.channels :: w1.channels[d] == w.channels[d]
  {
  }

  // ---------------------------------------------------------------- members

  /** `t` is `s` without one occurrence of the letter, the first. */
  ghost predicate FirstRemoved(s: string, letter: char, t: string) {
    exists p | 0 <= p < |s| :: s[p] == letter && letter !in s[..p] && t == s[..p] + s[p + 1..]
  }

  /** Deleting a letter removes its first occurrence; every other letter stays, in order. */
  lemma DelLetterEffect(s: string, letter: char)
    ensures if letter in s then FirstRemoved(s, letter, DelLetter(s, letter)) else DelLetter(s, letter) == s
    ensures forall c | c != letter :: c in DelLetter(s, letter) <==> c in s
  {
    var p := IndexOf(s, letter);
    if p < |s| {
      assert s[p] == letter && letter !in s[..p];
      forall c | c != letter && c in s ensures c in DelLetter(s, letter) {
        var i :| 0 <= i < |s| && s[i] == c;
        assert DelLetter(s, letter)[if i < p then i else i - 1] == c;
      }
    }
  }

  /** Unloading a member mode takes its letter, and nothing else, from every user; unloading a normal mode
      takes no letter. */
  lemma CommitSeats(w: World, k: nat, c: nat, i: nat)
    requires Inv(w) && CellsFit(w) && k < |w.modes| && c in w.channels && i < |w.channels[c].seats|
    ensures var ch1 := Commit(w, k).channels[c];
            var m, seat := w.modes[k], w.channels[c].seats[i];
            && |ch1.seats| == |w.channels[c].seats| && ch1.seats[i].client == seat.client
            && (if m.kind.Member? && m.letter in seat.modes
                then FirstRemoved(seat.modes, m.letter, ch1.seats[i].modes) && ch1.seats[i].modes == ch1.seats[i].mirror
                else ch1.seats[i] == seat)
  {
    assert ChannelOk(w.modes, w.channels[c]) && SeatOk(w.modes, w.channels[c].seats[i]);
    DelLetterEffect(w.channels[c].seats[i].modes, w.modes[k].letter);
  }

  /** An operation on a channel changes that channel only. */
  lemma OneChannelEffect(w: World, op: Op)
    requires CellsFit(w) && !w.crashed && (op.Give? || op.Take? || op.Join? || op.Part?) && op.c in w.channels
    ensures var w1 := Step(w, op);
            && OnlyChannel(w, w1, op.c)
            && w1.channels[op.c] == ChannelStep(w, w.channels[op.c], op)
            && w1.channels[op.c] == w.channels[op.c].(seats := w1.channels[op.c].seats)
  {
  }

  /** What granting or taking a letter makes of one user's letters. */
  ghost predicate LetterChanged(modes: seq<Cmode>, seat: Seat, op: Op, seat1: Seat)
    requires op.Give? || op.Take?
  {
    && seat1.client == seat.client
    && if op.Give? then Given(modes, seat.modes, op.letter, seat1.modes)
       else if op.letter in seat.modes then FirstRemoved(seat.modes, op.letter, seat1.modes)
       else seat1 == seat
  }

  /** Granting and taking a letter change one string of one user. */
  lemma LetterEffect(w: World, op: Op)
    requires Inv(w) && CellsFit(w) && !w.crashed && (op.Give? || op.Take?) && op.c in w.channels
    requires op.letter != NUL
    ensures var seats, seats1 := w.channels[op.c].seats, ChannelStep(w, w.channels[op.c], op).seats;
            var k := FindSeat(seats, op.client);
            && |seats1| == |seats|
            && (forall i | 0 <= i < |seats| && i != k :: seats1[i] == seats[i])
            && (k < |seats| ==> LetterChanged(w.modes, seats[k], op, seats1[k]))
  {
    var ch := w.channels[op.c];
    var k := FindSeat(ch.seats, op.client);
    assert ChannelOk(w.modes, ch);
    if k < |ch.seats| {
      assert SeatOk(w.modes, ch.seats[k]);
      SeatEffect(w.modes, ch.seats[k], op);
    }
  }

  lemma SeatEffect(modes: seq<Cmode>, seat: Seat, op: Op)
    requires ModesOk(modes) && SeatOk(modes, seat) && (op.Give? || op.Take?)
    ensures op.Give? ==> LetterChanged(modes, seat, op, if op.letter in seat.modes then seat
                                                       else Grant(modes, seat, op.letter))
    ensures op.Take? ==> LetterChanged(modes, seat, op, if op.letter !in seat.modes then seat
                                                       else Revoke(seat, op.letter))
  {
    DelLetterEffect(seat.modes, op.letter);
    AddLetterKeepsRanked(modes, seat.modes, op.letter);
  }

  /** The letter was there, or cannot be added, or has been put in somewhere. */
  ghost predicate Given(modes: seq<Cmode>, s: string, letter: char, t: string) {
    if letter !in s && MemberLetter(modes, letter) && |s| + 1 < MEMBER_MODES_LEN
    then exists p | 0 <= p <= |s| :: t == InsertAt(s, p, letter)
    else t == s
  }

  lemma {:induction false} AddLettersGives(modes: seq<Cmode>, s: string, letters: string)
    requires ModesOk(modes) && Ranked(modes, s) && NoRepeats(letters) && forall c | c in letters :: c !in s
    requires |s| + |letters| < MEMBER_MODES_LEN
    ensures forall c :: c in AddLetters(modes, s, letters) <==>
                        c in s || (c in letters && MemberLetter(modes, c))
    decreases letters
  {
    if letters != [] {
      var a, rest := letters[0], letters[1..];
      var t := AddLetter(modes, s, a);
      AddLetterKeepsRanked(modes, s, a);
      OneMoreLetter(modes, s, a, t);
      forall c | c in rest ensures c !in t && c in letters {
      }
      AddLettersGives(modes, t, rest);
      assert forall c :: c in letters <==> c == a || c in rest;
    }
  }

  lemma OneMoreLetter(modes: seq<Cmode>, s: string, a: char, t: string)
    requires a !in s && |s| + 1 < MEMBER_MODES_LEN
    requires if MemberLetter(modes, a) then exists p | 0 <= p <= |s| :: t == InsertAt(s, p, a) else t == s
    ensures |t| <= |s| + 1 && forall c :: c in t <==> c in s || (c == a && MemberLetter(modes, a))
  {
    if MemberLetter(modes, a) {
      var p :| 0 <= p <= |s| && t == InsertAt(s, p, a);
      assert t[p] == a;
      forall c | c in s ensures c in t {
        var i :| 0 <= i < |s| && s[i] == c;
        assert t[if i < p then i else i + 1] == c;
      }
    }
  }

  /** A user who joins is seated in front, with exactly those of up to seven letters that are member
      modes. */
  lemma JoinEffect(w: World, ch: Channel, c: nat, client: nat, letters: string)
    requires Inv(w) && CellsFit(w) && |ch.cells| == SLOTS + 1
    requires NUL !in letters && NoRepeats(letters) && |letters| <= 7
    ensures var seats1 := ChannelStep(w, ch, Join(c, client, letters)).seats;
            if FindSeat(ch.seats, client) < |ch.seats| then seats1 == ch.seats
            else && |seats1| == |ch.seats| + 1 && seats1[1..] == ch.seats && seats1[0].client == client
                 && forall a :: a in seats1[0].modes <==> a in letters && MemberLetter(w.modes, a)
  {
    AddLettersGives(w.modes, "", letters);
  }

  // ---------------------------------------------------------------- one seat each

  ghost predicate OneSeatEach(ch: Channel) {
    forall i, j | 0 <= i < j < |ch.seats| :: ch.seats[i].client != ch.seats[j].client
  }

  ghost predicate AllSeatedOnce(w: World) { forall c | c in w.channels :: OneSeatEach(w.channels[c]) }

  lemma SameClients(ch: Channel, ch1: Channel)
    requires OneSeatEach(ch) && |ch1.seats| == |ch.seats|
    requires forall i | 0 <= i < |ch.seats| :: ch1.seats[i].client == ch.seats[i].client
    ensures OneSeatEach(ch1)
  {
  }

  /** A user who leaves is gone, and the others stay seated. */
  lemma PartEffect(w: World, ch: Channel, c: nat, client: nat)
    requires CellsFit(w) && |ch.cells| == SLOTS + 1 && OneSeatEach(ch)
    ensures var ch1 := ChannelStep(w, ch, Part(c, client));
            OneSeatEach(ch1) && forall x :: x in ch1.seats <==> x in ch.seats && x.client != client
  {
    var k := FindSeat(ch.seats, client);
    var ch1 := ChannelStep(w, ch, Part(c, client));
    if k < |ch.seats| {
      forall i | 0 <= i < |ch1.seats| ensures ch1.seats[i] == ch.seats[if i < k then i else i + 1] {
      }
      forall x | x in ch.seats && x.client != client ensures x in ch1.seats {
        var i :| 0 <= i < |ch.seats| && ch.seats[i] == x;
        assert ch1.seats[if i < k then i else i - 1] == x;
      }
    }
  }

  lemma ChannelStepSeats(w: World, ch: Channel, op: Op)
    requires CellsFit(w) && |ch.cells| == SLOTS + 1 && OneSeatEach(ch)
    ensures OneSeatEach(ChannelStep(w, ch, op))
  {
    var ch1 := ChannelStep(w, ch, op);
    if op.Part? {
      PartEffect(w, ch, op.c, op.client);
    } else if !op.Join? {
      SameClients(ch, ch1);
    }
  }

  lemma CommitSeated(w: World, k: nat)
    requires CellsFit(w) && k < |w.modes| && AllSeatedOnce(w)
    ensures AllSeatedOnce(Commit(w, k))
  {
    forall c | c in w.channels ensures OneSeatEach(Commit(w, k).channels[c]) {
      SameClients(w.channels[c], Commit(w, k).channels[c]);
    }
  }

  lemma {:induction false} CommitUnusedSeated(w: World, ids: seq<nat>)
    requires CellsFit(w) && AllSeatedOnce(w)
    ensures AllSeatedOnce(CommitUnused(w, ids))
    decreases ids
  {
    if ids != [] {
      var k := FindId(w.modes, ids[0]);
      if k < |w.modes| && Unused(w.modes[k]) {
        CommitFits(w, k);
        CommitSeated(w, k);
        CommitUnusedSeated(Commit(w, k), ids[1..]);
      } else {
        CommitUnusedSeated(w, ids[1..]);
      }
    }
  }

  lemma StepSeated(w: World, op: Op)
    requires CellsFit(w) && AllSeatedOnce(w)
    ensures AllSeatedOnce(Step(w, op))
  {
    match op
    case AddMode(_) =>
    case DelMode(id) =>
      var k := FindId(w.modes, id);
      if k < |w.modes| { CommitSeated(w, k); }
    case StartRehash =>
    case FinishRehash => CommitUnusedSeated(w, Ids(w.modes));
    case CreateChannel(_) =>
    case DestroyChannel(_) =>
    case _ =>
      if op.c in w.channels { ChannelStepSeats(w, w.channels[op.c], op); }
  }

  /** In every reachable state nobody is seated twice on a channel. */
  lemma {:induction false} RunSeatedOnce(ws: seq<World>, ops: seq<Op>, t: nat)
    requires IsRun(ws, ops) && t < |ws|
    ensures AllSeatedOnce(ws[t])
  {
    if t > 0 {
      RunSeatedOnce(ws, ops, t - 1);
      RunKeepsInv(ws, ops, t - 1);
      assert StepsTo(ws[t - 1], ops[t - 1], ws[t]);
      StepSeated(ws[t - 1], ops[t - 1]);
    }
  }

  // ---------------------------------------------------------------- the letter map

  /** A letter that is not that of a parameter mode is mapped to slot 0. */
  ghost predicate MapsOnlyListed(modes: seq<Cmode>, slotOf: map<char, nat>) {
    forall c | SlotOf(slotOf, c) != 0 :: Parametric(modes, c)
  }

  ghost predicate Parametric(modes: seq<Cmode>, c: char) {
    exists m | m in modes :: HasSlot(m) && m.letter == c
  }

  lemma CommitMaps(w: World, k: nat)
    requires Inv(w) && CellsFit(w) && k < |w.modes| && MapsOnlyListed(w.modes, w.slotOf)
    ensures MapsOnlyListed(Commit(w, k).modes, Commit(w, k).slotOf)
  {
    var w1 := Commit(w, k);
    RemoveMembers(w.modes, k);
    forall c | SlotOf(w1.slotOf, c) != 0 ensures Parametric(w1.modes, c) {
      assert SlotOf(w.slotOf, c) != 0;
      assert Parametric(w.modes, c);
      var m :| m in w.modes && HasSlot(m) && m.letter == c;
      SameOrApart(w.modes, m, w.modes[k]);
    }
  }

  lemma {:induction false} CommitUnusedMaps(w: World, ids: seq<nat>)
    requires Inv(w) && CellsFit(w) && MapsOnlyListed(w.modes, w.slotOf)
    ensures MapsOnlyListed(CommitUnused(w, ids).modes, CommitUnused(w, ids).slotOf)
    decreases ids
  {
    if ids != [] {
      var k := FindId(w.modes, ids[0]);
      if k < |w.modes| && Unused(w.modes[k]) {
        CommitFits(w, k);
        CommitMaps(w, k);
        CommitKeepsInv(w, k);
        CommitUnusedMaps(Commit(w, k), ids[1..]);
      } else {
        CommitUnusedMaps(w, ids[1..]);
      }
    }
  }

  lemma AddMaps(w: World, req: Request)
    requires Inv(w) && CellsFit(w) && Legal(w, AddMode(req)) && MapsOnlyListed(w.modes, w.slotOf)
    ensures MapsOnlyListed(Add(w, req).0.modes, Add(w, req).0.slotOf)
  {
    var k := FindMatch(w.modes, req);
    if req.name != "" && k < |w.modes| && w.modes[k].unloaded {
      ReviveIsUnmark(w, k, req);
      MarkMaps(w.modes, k, false, w.slotOf, Add(w, req).0.slotOf);
    } else if req.name != "" && k == |w.modes| && InsertPosition(w.modes, req.letter).Some? {
      var p := InsertPosition(w.modes, req.letter).value;
      AddAtResult(w, req, p);
      NewMaps(w, p, NewEntry(w, req));
    }
  }

  lemma MarkMaps(modes: seq<Cmode>, k: nat, mark: bool, a: map<char, nat>, b: map<char, nat>)
    requires k < |modes| && MapsOnlyListed(modes, a) && forall c :: SlotOf(b, c) == SlotOf(a, c)
    ensures MapsOnlyListed(ChannelModeInvariant.Marked(modes, k, mark), b)
  {
    var after := ChannelModeInvariant.Marked(modes, k, mark);
    forall c | SlotOf(b, c) != 0 ensures Parametric(after, c) {
      assert Parametric(modes, c);
      var i :| 0 <= i < |modes| && HasSlot(modes[i]) && modes[i].letter == c;
      assert HasSlot(after[i]) && after[i].letter == c && after[i] in after;
    }
  }

  lemma NewMaps(w: World, p: nat, n: Cmode)
    requires p <= |w.modes| && n.slot < |w.table| && MapsOnlyListed(w.modes, w.slotOf)
    ensures var w1 := Entered(w, InsertAt(w.modes, p, n), n); MapsOnlyListed(w1.modes, w1.slotOf)
  {
    var w1 := Entered(w, InsertAt(w.modes, p, n), n);
    InsertMembers(w.modes, p, n);
    assert n in w1.modes;
    forall c | SlotOf(w1.slotOf, c) != 0 ensures Parametric(w1.modes, c) {
      if !(HasSlot(n) && c == n.letter) {
        assert Parametric(w.modes, c);
        var m :| m in w.modes && HasSlot(m) && m.letter == c;
        assert m in w1.modes;
      }
    }
  }

  lemma StepMaps(w: World, op: Op)
    requires Inv(w) && CellsFit(w) && Legal(w, op) && MapsOnlyListed(w.modes, w.slotOf)
    ensures MapsOnlyListed(Step(w, op).modes, Step(w, op).slotOf)
  {
    if op.AddMode? {
      AddMaps(w, op.req);
    } else if op.DelMode? {
      var k := FindId(w.modes, op.id);
      if k < |w.modes| {
        CommitMaps(w, k);
        MarkMaps(w.modes, k, true, w.slotOf, w.slotOf);
      }
    } else if op.FinishRehash? {
      CommitUnusedMaps(w, Ids(w.modes));
    }
  }

  /** In every reachable state the letter map names a slot other than 0 only for the letters of parameter
      modes. */
  lemma {:induction false} RunMapsOnlyListed(ws: seq<World>, ops: seq<Op>, t: nat)
    requires IsRun(ws, ops) && t < |ws|
    ensures MapsOnlyListed(ws[t].modes, ws[t].slotOf)
  {
    if t > 0 {
      RunMapsOnlyListed(ws, ops, t - 1);
      RunKeepsInv(ws, ops, t - 1);
      assert StepsTo(ws[t - 1], ops[t - 1], ws[t]);
      StepMaps(ws[t - 1], ops[t - 1]);
    }
  }
}
