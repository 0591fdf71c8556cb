/** Safety of the channel mode registry over whole runs: loads, unloads and rehashes of modes mixed
    with users joining, leaving and changing modes on channels. */
module ChannelModeRuns {
  import opened Common
  import opened ChannelModes
  import opened ChannelModeInvariant
  import opened ChannelModeTokens

  // ---------------------------------------------------------------- steps on a channel

  lemma SetKeepsChannel(w: World, ch: Channel, m: Cmode, value: string)
    requires Inv(w) && m in w.modes && ChannelOk(w.modes, ch)
    ensures ChannelOk(w.modes, SetOn(ch, m, SlotOf(w.slotOf, m.letter), value))
  {
    var ch1 := SetOn(ch, m, SlotOf(w.slotOf, m.letter), value);
    forall b | b in ch1.word ensures BitOwned(w.modes, b) {
      if b in ch.word {
        assert BitOwned(w.modes, b);
      }
    }
    forall x | x in w.modes && HasSlot(x) && x.bit.value in ch1.word ensures ch1.cells[x.slot].Data? {
      SameOrApart(w.modes, x, m);
    }
  }

  lemma ClearKeepsChannel(w: World, ch: Channel, m: Cmode, resisted: bool)
    requires Inv(w) && m in w.modes && ChannelOk(w.modes, ch)
    ensures ChannelOk(w.modes, ClearOn(ch, m, SlotOf(w.slotOf, m.letter), resisted))
  {
    var ch1 := ClearOn(ch, m, SlotOf(w.slotOf, m.letter), resisted);
    forall b | b in ch1.word ensures BitOwned(w.modes, b) {
      assert b in ch.word;
    }
    forall x | x in w.modes && HasSlot(x) && x.bit.value in ch1.word ensures ch1.cells[x.slot].Data? {
      SameOrApart(w.modes, x, m);
    }
  }

  ghost predicate RankAtLeast(modes: seq<Cmode>, c: char, rank: int) {
    forall x | x in modes && x.letter == c :: x.rank >= rank
  }

  ghost predicate RankBelow(modes: seq<Cmode>, c: char, rank: int) {
    forall x | x in modes && x.letter == c :: x.rank < rank
  }

  lemma RankOfLetter(modes: seq<Cmode>, c: char, rank: int)
    requires ModesOk(modes)
    ensures var k := FindLetter(modes, c);
            if k < |modes| && modes[k].rank < rank then RankBelow(modes, c, rank)
            else RankAtLeast(modes, c, rank)
  {
    forall x | x in modes && x.letter == c ensures x == modes[FindLetter(modes, c)] {
      LetterFound(modes, x);
    }
  }

  lemma InsertBehind(c: char, s: string, q: nat, letter: char)
    requires q <= |s|
    ensures [c] + InsertAt(s, q, letter) == InsertAt([c] + s, q + 1, letter)
  {
    assert ([c] + s)[..q + 1] == [c] + s[..q] && ([c] + s)[q + 1..] == s[q..];
  }

  lemma PlaceBehind(modes: seq<Cmode>, s: string, q: nat, rank: int)
    requires q < |s| && RankAtLeast(modes, s[0], rank)
    requires forall i | 0 <= i < q :: RankAtLeast(modes, s[1..][i], rank)
    ensures forall i | 0 <= i < q + 1 :: RankAtLeast(modes, s[i], rank)
  {
    forall i | 0 <= i < q + 1 ensures RankAtLeast(modes, s[i], rank) {
      assert i > 0 ==> s[i] == s[1..][i - 1];
    }
  }

  /** The letter goes after every letter of at least its rank and right before the first of lower
      rank. */
  lemma {:induction false} InsertByRankPlace(modes: seq<Cmode>, s: string, letter: char, rank: int)
    returns (p: nat)
    requires ModesOk(modes)
    ensures p <= |s| && InsertByRank(modes, s, letter, rank) == InsertAt(s, p, letter)
    ensures forall i | 0 <= i < p :: RankAtLeast(modes, s[i], rank)
    ensures p < |s| ==> RankBelow(modes, s[p], rank)
  {
    p := 0;
    if s != [] {
      RankOfLetter(modes, s[0], rank);
      var k := FindLetter(modes, s[0]);
      if !(k < |modes| && modes[k].rank < rank) {
        var rest := s[1..];
        var q := InsertByRankPlace(modes, rest, letter, rank);
        p := q + 1;
        assert InsertByRank(modes, s, letter, rank) == [s[0]] + InsertByRank(modes, rest, letter, rank);
        InsertBehind(s[0], rest, q, letter);
        assert s == [s[0]] + rest;
        PlaceBehind(modes, s, q, rank);
        assert p < |s| ==> s[p] == rest[q];
      }
    }
  }

  /** Adding the letter of a member mode to a ranked string puts the letter in it, unless the string is
      full. The result is ranked exactly when that letter was not there already. */
  lemma AddLetterKeepsRanked(modes: seq<Cmode>, s: string, letter: char)
    requires ModesOk(modes) && Ranked(modes, s) && |s| < MEMBER_MODES_LEN
    ensures var t := AddLetter(modes, s, letter);
            && (Ranked(modes, t) <==> t == s || letter !in s) && |t| < MEMBER_MODES_LEN
            && (if MemberLetter(modes, letter) && |s| + 1 < MEMBER_MODES_LEN
                then exists p | 0 <= p <= |s| :: t == InsertAt(s, p, letter)
                else t == s)
  {
    var k := FindLetter(modes, letter);
    if MemberLetter(modes, letter) {
      var m :| m in modes && m.kind.Member? && m.letter == letter;
      LetterFound(modes, m);
    }
    if k < |modes| && modes[k].kind.Member? && |s| + 1 < MEMBER_MODES_LEN {
      var p := InsertByRankPlace(modes, s, letter, modes[k].rank);
      if letter in s {
        Repeated(modes, s, p, modes[k]);
      } else {
        RankedInsert(modes, s, p, modes[k]);
      }
    }
  }

  lemma Repeated(modes: seq<Cmode>, s: string, p: nat, m: Cmode)
    requires p <= |s| && m in modes && m.letter in s
    ensures !Ranked(modes, InsertAt(s, p, m.letter))
  {
    var t := InsertAt(s, p, m.letter);
    var i :| 0 <= i < |s| && s[i] == m.letter;
    var j := if i < p then i else i + 1;
    assert t[j] == m.letter && t[p] == m.letter;
    assert !Outranks(modes, t[j], t[p]) && !Outranks(modes, t[p], t[j]);
  }

  lemma RankedInsert(modes: seq<Cmode>, s: string, p: nat, m: Cmode)
    requires ModesOk(modes) && Ranked(modes, s) && p <= |s|
    requires m in modes && m.kind.Member? && m.letter !in s
    requires forall i | 0 <= i < p :: RankAtLeast(modes, s[i], m.rank)
    requires p < |s| ==> RankBelow(modes, s[p], m.rank)
    ensures Ranked(modes, InsertAt(s, p, m.letter))
  {
    var t := InsertAt(s, p, m.letter);
    forall i | 0 <= i < |t| ensures MemberLetter(modes, t[i]) {
      if i != p {
        assert t[i] == s[if i < p then i else i - 1];
      }
    }
    forall i, j | 0 <= i < j < |t| ensures Outranks(modes, t[i], t[j]) {
      if j == p {
        assert t[i] == s[i];
        AboveNew(modes, s[i], m);
      } else if i == p {
        assert t[j] == s[j - 1];
        BelowNew(modes, s, p, j - 1, m);
      } else {
        OldPair(modes, s, p, m.letter, i, j);
      }
    }
  }

  lemma OldPair(modes: seq<Cmode>, s: string, p: nat, c: char, i: nat, j: nat)
    requires Ranked(modes, s) && p <= |s| && i < j <= |s| && i != p && j != p
    ensures Outranks(modes, InsertAt(s, p, c)[i], InsertAt(s, p, c)[j])
  {
    var i0, j0 := if i < p then i else i - 1, if j < p then j else j - 1;
    assert InsertAt(s, p, c)[i] == s[i0] && InsertAt(s, p, c)[j] == s[j0];
    assert Outranks(modes, s[i0], s[j0]);
  }

  lemma AboveNew(modes: seq<Cmode>, c: char, m: Cmode)
    requires ModesOk(modes) && m in modes && m.kind.Member? && MemberLetter(modes, c)
    requires c != m.letter && RankAtLeast(modes, c, m.rank)
    ensures Outranks(modes, c, m.letter)
  {
    forall x, y | x in modes && y in modes && x.letter == c && y.letter == m.letter
      ensures x.rank > y.rank
    {
      var z :| z in modes && z.kind.Member? && z.letter == c;
      SameOrApart(modes, x, z);
      SameOrApart(modes, y, m);
      SameOrApart(modes, x, m);
    }
  }

  lemma BelowNew(modes: seq<Cmode>, s: string, p: nat, j: nat, m: Cmode)
    requires ModesOk(modes) && Ranked(modes, s) && p <= j < |s| && m in modes
    requires RankBelow(modes, s[p], m.rank)
    ensures Outranks(modes, m.letter, s[j])
  {
    assert MemberLetter(modes, s[p]);
    var z :| z in modes && z.kind.Member? && z.letter == s[p];
    assert p < j ==> Outranks(modes, s[p], s[j]);
    forall x, y | x in modes && y in modes && x.letter == m.letter && y.letter == s[j]
      ensures x.rank > y.rank
    {
      SameOrApart(modes, x, m);
    }
  }

  lemma {:induction false} AddLettersKeepsRanked(modes: seq<Cmode>, s: string, letters: string)
    requires ModesOk(modes) && Ranked(modes, s) && |s| < MEMBER_MODES_LEN
    requires NoRepeats(letters) && forall c | c in letters :: c !in s
    ensures Ranked(modes, AddLetters(modes, s, letters))
    ensures forall c | c in AddLetters(modes, s, letters) :: c in s || c in letters
    ensures |AddLetters(modes, s, letters)| < MEMBER_MODES_LEN
    decreases letters
  {
    if letters != [] {
      AddLetterKeepsRanked(modes, s, letters[0]);
      var t := AddLetter(modes, s, letters[0]);
      forall c | c in letters[1..] ensures c !in t {
        assert c in letters;
      }
      AddLettersKeepsRanked(modes, t, letters[1..]);
    }
  }

  lemma ChannelStepKeepsOk(w: World, ch: Channel, op: Op)
    requires Inv(w) && CellsFit(w) && ChannelOk(w.modes, ch) && Legal(w, op)
    ensures ChannelOk(w.modes, ChannelStep(w, ch, op))
  {
    match op
    case SetMode(_, id, value) =>
      var k := FindId(w.modes, id);
      if k < |w.modes| { SetKeepsChannel(w, ch, w.modes[k], value); }
    case ClearMode(_, id, resisted) =>
      var k := FindId(w.modes, id);
      if k < |w.modes| { ClearKeepsChannel(w, ch, w.modes[k], resisted); }
    case Join(_, client, letters) =>
      var s := JoinKeepsSeat(w.modes, client, letters);
    case Give(_, client, letter) =>
      var k := FindSeat(ch.seats, client);
      if k < |ch.seats| && letter != NUL && letter !in ch.seats[k].modes {
        GrantKeepsSeat(w.modes, ch.seats[k], letter);
      }
    case Take(_, client, letter) =>
      var k := FindSeat(ch.seats, client);
      if k < |ch.seats| { RevokeKeepsSeat(w.modes, ch.seats[k], letter); }
    case _ =>
  }

  lemma JoinKeepsSeat(modes: seq<Cmode>, client: nat, letters: string) returns (s: string)
    requires ModesOk(modes) && NoRepeats(letters) && NUL !in letters
    ensures s == AddLetters(modes, "", letters) && SeatOk(modes, Seat(client, s, s))
  {
    s := AddLetters(modes, "", letters);
    AddLettersKeepsRanked(modes, "", letters);
  }

  lemma GrantKeepsSeat(modes: seq<Cmode>, s: Seat, letter: char)
    requires ModesOk(modes) && SeatOk(modes, s) && letter != NUL && letter !in s.modes
    ensures SeatOk(modes, Grant(modes, s, letter))
  {
    AddLetterKeepsRanked(modes, s.modes, letter);
  }

  lemma RevokeKeepsSeat(modes: seq<Cmode>, s: Seat, letter: char)
    requires SeatOk(modes, s)
    ensures SeatOk(modes, Revoke(s, letter))
  {
    DelLetterKeepsRanked(modes, s.modes, letter);
  }

  // ---------------------------------------------------------------- runs

  lemma StepKeepsInv(w: World, op: Op)
    requires Inv(w) && CellsFit(w) && Legal(w, op)
    ensures Inv(Step(w, op))
  {
    match op
    case AddMode(req) => AddKeepsInv(w, req);
    case DelMode(id) =>
      var k := FindId(w.modes, id);
      if k < |w.modes| {
        MarkKeepsInv(w, k, true);
        CommitKeepsInv(w, k);
      }
    case FinishRehash => CommitUnusedKeepsInv(w, Ids(w.modes));
    case CreateChannel(c) =>
      assert ChannelOk(w.modes, EmptyChannel());
    case DestroyChannel(c) =>
    case StartRehash =>
    case _ =>
      if op.c in w.channels { ChannelStepKeepsOk(w, w.channels[op.c], op); }
  }

  ghost predicate StepsTo(v: World, op: Op, w: World) {
    CellsFit(v) && Legal(v, op) && w == Step(v, op)
  }

  /** `ws` are the states the server goes through from boot as it performs `ops`. */
  ghost predicate IsRun(ws: seq<World>, ops: seq<Op>) {
    && |ws| == |ops| + 1
    && ws[0] == Boot()
    && (forall i | 0 <= i < |ops| :: StepsTo(ws[i], ops[i], ws[i + 1]))
  }

  /** Every reachable state satisfies the invariant. */
  lemma {:induction false} RunKeepsInv(ws: seq<World>, ops: seq<Op>, k: nat)
    requires IsRun(ws, ops) && k < |ws|
    ensures Inv(ws[k]) && CellsFit(ws[k])
  {
    if k > 0 {
      RunKeepsInv(ws, ops, k - 1);
      assert StepsTo(ws[k - 1], ops[k - 1], ws[k]);
      StepKeepsInv(ws[k - 1], ops[k - 1]);
    }
    InvFits(ws[k]);
  }

  // ---------------------------------------------------------------- bits

  ghost predicate Holds(w: World, b: nat, id: nat) {
    exists m | m in w.modes :: m.kind.Normal? && m.bit == Some(b) && m.id == id
  }

  ghost predicate ClearEverywhere(w: World, b: nat) {
    forall c | c in w.channels :: b !in w.channels[c].word
  }

  /** At most one registered mode holds a bit. */
  lemma OneHolder(w: World, b: nat, x: nat, y: nat)
    requires Inv(w) && Holds(w, b, x) && Holds(w, b, y)
    ensures x == y
  {
    var p :| p in w.modes && p.bit == Some(b) && p.id == x;
    var q :| q in w.modes && q.bit == Some(b) && q.id == y;
    SameOrApart(w.modes, p, q);
  }

  ghost predicate SetThere(w: World, c: nat, b: nat) {
    c in w.channels && b in w.channels[c].word
  }

  /** Committing an unload clears the bit of that mode everywhere and no other. */
  lemma CommitBits(w: World, k: nat, b: nat, x: nat)
    requires Inv(w) && CellsFit(w) && k < |w.modes| && Holds(w, b, x)
    ensures if w.modes[k].id == x then ClearEverywhere(Commit(w, k), b)
            else Holds(Commit(w, k), b, x) && forall c :: SetThere(Commit(w, k), c, b) <==> SetThere(w, c, b)
  {
    var p :| p in w.modes && p.kind.Normal? && p.bit == Some(b) && p.id == x;
    RemoveMembers(w.modes, k);
    SameOrApart(w.modes, p, w.modes[k]);
    if w.modes[k].id != x {
      CommitLeavesBit(w, k, b);
    }
  }

  lemma CommitLeavesBit(w: World, k: nat, b: nat)
    requires CellsFit(w) && k < |w.modes| && w.modes[k].bit != Some(b)
    ensures forall c :: SetThere(Commit(w, k), c, b) <==> SetThere(w, c, b)
  {
  }

  /** Unloading never sets a bit. */
  lemma {:induction false} CommitUnusedClears(w: World, ids: seq<nat>, b: nat)
    requires CellsFit(w) && ClearEverywhere(w, b)
    ensures ClearEverywhere(CommitUnused(w, ids), b)
    decreases ids
  {
    if ids != [] {
      var k := FindId(w.modes, ids[0]);
      if k < |w.modes| && Unused(w.modes[k]) {
        CommitFits(w, k);
        CommitUnusedClears(Commit(w, k), ids[1..], b);
      } else {
        CommitUnusedClears(w, ids[1..], b);
      }
    }
  }

  lemma {:induction false} CommitUnusedBits(w: World, ids: seq<nat>, b: nat, x: nat)
    requires Inv(w) && CellsFit(w) && Holds(w, b, x)
    ensures Holds(CommitUnused(w, ids), b, x) || ClearEverywhere(CommitUnused(w, ids), b)
    decreases ids
  {
    if ids != [] {
      var k := FindId(w.modes, ids[0]);
      if k < |w.modes| && Unused(w.modes[k]) {
        CommitFits(w, k);
        CommitKeepsInv(w, k);
        CommitBits(w, k, b, x);
        if w.modes[k].id == x {
          CommitUnusedClears(Commit(w, k), ids[1..], b);
        } else {
          CommitUnusedBits(Commit(w, k), ids[1..], b, x);
        }
      } else {
        CommitUnusedBits(w, ids[1..], b, x);
      }
    }
  }

  /** One step leaves a bit with its mode, or leaves no channel with the bit set. */
  lemma StepBits(w: World, op: Op, b: nat, x: nat)
    requires Inv(w) && CellsFit(w) && Legal(w, op) && Holds(w, b, x)
    ensures Holds(Step(w, op), b, x) || ClearEverywhere(Step(w, op), b)
  {
    match op
    case AddMode(req) => AddBits(w, req, b, x);
    case DelMode(id) =>
      var k := FindId(w.modes, id);
      if k < |w.modes| {
        CommitBits(w, k, b, x);
        MarkedMembers(w.modes, k, true);
      }
    case FinishRehash =>
      CommitUnusedBits(w, Ids(w.modes), b, x);
    case _ =>
  }

  lemma AddBits(w: World, req: Request, b: nat, x: nat)
    requires Inv(w) && CellsFit(w) && Legal(w, AddMode(req)) && Holds(w, b, x)
    ensures Holds(Add(w, req).0, b, x)
  {
    var k := FindMatch(w.modes, req);
    if req.name != "" && k < |w.modes| && w.modes[k].unloaded {
      ReviveIsUnmark(w, k, req);
      MarkedMembers(w.modes, k, false);
    } else if req.name != "" && k == |w.modes| && InsertPosition(w.modes, req.letter).Some? {
      var p := InsertPosition(w.modes, req.letter).value;
      AddAtResult(w, req, p);
      InsertMembers(w.modes, p, NewEntry(w, req));
    }
  }

  /** In any run, a bit passes from one mode to another only by way of a state in which no channel
      has it set. */
  lemma {:induction false} BitPassesOnlyWhenClear(
    ws: seq<World>, ops: seq<Op>, k: nat, l: nat, b: nat, x: nat, y: nat)
    requires IsRun(ws, ops) && k <= l < |ws|
    requires Holds(ws[k], b, x) && Holds(ws[l], b, y) && x != y
    ensures exists t | k < t <= l :: ClearEverywhere(ws[t], b)
    decreases l - k
  {
    RunKeepsInv(ws, ops, k);
    if k == l {
      OneHolder(ws[k], b, x, y);
    } else {
      assert StepsTo(ws[k], ops[k], ws[k + 1]);
      StepBits(ws[k], ops[k], b, x);
      if !ClearEverywhere(ws[k + 1], b) {
        BitPassesOnlyWhenClear(ws, ops, k + 1, l, b, x, y);
      }
    }
  }

  /** As long as a bit stays set on a channel, it belongs to the same registration, however many modes
      are loaded, unloaded and revived. */
  lemma {:induction false} SetBitKeepsItsMode(
    ws: seq<World>, ops: seq<Op>, k: nat, l: nat, c: nat, b: nat, x: nat)
    requires IsRun(ws, ops) && k <= l < |ws| && Holds(ws[k], b, x)
    requires forall t | k <= t <= l :: SetThere(ws[t], c, b)
    ensures Holds(ws[l], b, x)
    ensures forall y | Holds(ws[l], b, y) :: y == x
    decreases l - k
  {
    RunKeepsInv(ws, ops, k);
    if k < l {
      assert StepsTo(ws[k], ops[k], ws[k + 1]);
      StepBits(ws[k], ops[k], b, x);
      assert SetThere(ws[k + 1], c, b);
      SetBitKeepsItsMode(ws, ops, k + 1, l, c, b, x);
    } else {
      forall y | Holds(ws[l], b, y) ensures y == x {
        OneHolder(ws[l], b, x, y);
      }
    }
  }

  lemma CommitSetsNothing(w: World, k: nat, c: nat, b: nat)
    requires CellsFit(w) && k < |w.modes|
    ensures SetThere(Commit(w, k), c, b) ==> SetThere(w, c, b)
  {
  }

  lemma {:induction false} UnloadSetsNothing(w: World, ids: seq<nat>, c: nat, b: nat)
    requires CellsFit(w)
    ensures SetThere(CommitUnused(w, ids), c, b) ==> SetThere(w, c, b)
    decreases ids
  {
    if ids != [] {
      var k := FindId(w.modes, ids[0]);
      if k < |w.modes| && Unused(w.modes[k]) {
        CommitFits(w, k);
        CommitSetsNothing(w, k, c, b);
        UnloadSetsNothing(Commit(w, k), ids[1..], c, b);
      } else {
        UnloadSetsNothing(w, ids[1..], c, b);
      }
    }
  }

  lemma ChannelStepSets(w: World, ch: Channel, op: Op, b: nat)
    requires CellsFit(w) && |ch.cells| == SLOTS + 1 && b in ChannelStep(w, ch, op).word && b !in ch.word
    ensures op.SetMode? && Holds(w, b, op.id)
  {
    if op.SetMode? {
      var k := FindId(w.modes, op.id);
      assert k < |w.modes| && w.modes[k] in w.modes;
    }
  }

  lemma RegistryStepSets(w: World, op: Op, c: nat, b: nat)
    requires CellsFit(w) && (op.AddMode? || op.DelMode? || op.StartRehash? || op.FinishRehash?)
    ensures SetThere(Step(w, op), c, b) ==> SetThere(w, c, b)
  {
    if op.FinishRehash? {
      UnloadSetsNothing(w, Ids(w.modes), c, b);
    }
  }

  /** Only MODE sets a bit, and then it is that of the mode it names. */
  lemma OnlySetModeSets(w: World, op: Op, c: nat, b: nat)
    requires CellsFit(w) && SetThere(Step(w, op), c, b) && !SetThere(w, c, b)
    ensures op.SetMode? && op.c == c && Holds(w, b, op.id) && Step(w, op).modes == w.modes
  {
    if op.AddMode? || op.DelMode? || op.StartRehash? || op.FinishRehash? {
      RegistryStepSets(w, op, c, b);
    } else if !op.CreateChannel? && !op.DestroyChannel? {
      assert op.c == c && c in w.channels;
      ChannelStepSets(w, w.channels[c], op, b);
    }
  }

  /** The step `k` set bit `b` on the channel, for mode `x`, and it has stayed set up to `t`. */
  ghost predicate SetAtStep(ws: seq<World>, ops: seq<Op>, k: nat, t: nat, c: nat, b: nat, x: nat)
    requires |ws| == |ops| + 1 && k < t < |ws|
  {
    && ops[k].SetMode? && ops[k].c == c && ops[k].id == x
    && Holds(ws[k], b, x) && !SetThere(ws[k], c, b)
    && forall i | k < i <= t :: SetThere(ws[i], c, b)
  }

  /** Whenever a bit is set on a channel, some earlier MODE set it there, it has stayed set since, and it
      still belongs to the very registration that was named then, and to no other. */
  lemma {:induction false} SetBitHasItsSetter(ws: seq<World>, ops: seq<Op>, t: nat, c: nat, b: nat)
    returns (k: nat, x: nat)
    requires IsRun(ws, ops) && t < |ws| && SetThere(ws[t], c, b)
    ensures k < t && SetAtStep(ws, ops, k, t, c, b, x)
    ensures Holds(ws[t], b, x) && forall y | Holds(ws[t], b, y) :: y == x
  {
    k := LastSetting(ws, ops, t, c, b);
    x := ops[k].id;
    RunKeepsInv(ws, ops, k);
    assert StepsTo(ws[k], ops[k], ws[k + 1]) && SetThere(ws[k + 1], c, b);
    OnlySetModeSets(ws[k], ops[k], c, b);
    SetBitKeepsItsMode(ws, ops, k + 1, t, c, b, x);
  }

  /** The last step up to `t` that found the bit clear. */
  lemma {:induction false} LastSetting(ws: seq<World>, ops: seq<Op>, t: nat, c: nat, b: nat)
    returns (k: nat)
    requires IsRun(ws, ops) && t < |ws| && SetThere(ws[t], c, b)
    ensures k < t && !SetThere(ws[k], c, b) && ops[k].SetMode?
    ensures forall i | k < i <= t :: SetThere(ws[i], c, b)
  {
    assert t > 0;
    if SetThere(ws[t - 1], c, b) {
      k := LastSetting(ws, ops, t - 1, c, b);
    } else {
      k := t - 1;
      RunKeepsInv(ws, ops, k);
      assert StepsTo(ws[k], ops[k], ws[k + 1]);
      OnlySetModeSets(ws[k], ops[k], c, b);
    }
  }

  // ---------------------------------------------------------------- members

  /** In every reachable state both copies of a user's member modes are the same string: at most seven
      letters of registered member modes, in descending rank; and the prefixes shown for it are, in
      order, some of those in STATUSMSG. */
  lemma ReachableSeat(ws: seq<World>, ops: seq<Op>, t: nat, c: nat, i: nat, order: seq<Cmode>)
    requires IsRun(ws, ops) && t < |ws| && c in ws[t].channels && i < |ws[t].channels[c].seats|
    requires multiset(order) == multiset(Pick(ws[t].modes, Status)) && Descending(order)
    ensures var seat := ws[t].channels[c].seats[i];
            && seat.modes == seat.mirror
            && |seat.modes| <= 7
            && Ranked(ws[t].modes, seat.modes)
            && IsSubsequence(Clip(Converted(ToPrefix(ws[t].modes), seat.modes), MEMBER_MODES_LEN),
                             Prefixes(order))
  {
    RunKeepsInv(ws, ops, t);
    assert ChannelOk(ws[t].modes, ws[t].channels[c]);
    PrefixesFollowStatusmsg(ws[t].modes, order, ws[t].channels[c].seats[i].modes);
  }
}
