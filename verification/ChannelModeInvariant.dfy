/** What every operation on the channel mode registry keeps. */
module ChannelModeInvariant {
  import opened Common
  import opened ChannelModes

  // ---------------------------------------------------------------- the invariant

  /** Two entries share no struct, letter, bit, name, parameter slot or member rank. */
  ghost predicate Apart(a: Cmode, b: Cmode) {
    && a.id != b.id
    && a.letter != b.letter
    && (a.bit.Some? ==> a.bit != b.bit)
    && (a.name.Some? ==> a.name != b.name)
    && (HasSlot(a) && HasSlot(b) ==> a.slot != b.slot)
    && (a.kind.Member? && b.kind.Member? ==> a.rank != b.rank)
  }

  predicate HasSlot(m: Cmode) { Slotted(m.kind, m.param) }

  ghost predicate WellFormed(m: Cmode) {
    && m.slot < SLOTS
    && (m.kind.Normal? ==> m.bit.Some? && m.bit.value < BITS)
    && (m.kind.Member? ==> m.bit.None? && m.prefix != NUL && m.sjoinPrefix != NUL && m.param &&
                           m.unsetWithParam && m.rank != 0)
  }

  ghost predicate ModesOk(modes: seq<Cmode>) {
    && (forall i, j | 0 <= i < j < |modes| :: Apart(modes[i], modes[j]))
    && (forall m | m in modes :: WellFormed(m))
    && (forall i | 0 < i < |modes| :: modes[i].letter != NUL)
  }

  /** ParamTable, param_slot and param_to_slot_mapping agree. */
  ghost predicate TablesOk(modes: seq<Cmode>, table: seq<Option<nat>>, slotOf: map<char, nat>) {
    && |table| == SLOTS + 1
    && (forall c | c in slotOf :: slotOf[c] < SLOTS)
    && (forall m | m in modes && HasSlot(m) ::
          m.slot < SLOTS && table[m.slot] == Some(m.id) && SlotOf(slotOf, m.letter) == m.slot)
    && (forall s | 0 <= s < |table| && table[s].Some? :: SlotOwned(modes, s, table[s].value))
  }

  ghost predicate SlotOwned(modes: seq<Cmode>, s: nat, id: nat) {
    exists m | m in modes :: HasSlot(m) && m.id == id && m.slot == s
  }

  ghost predicate BitOwned(modes: seq<Cmode>, b: nat) {
    exists m | m in modes :: m.kind.Normal? && m.bit == Some(b)
  }

  ghost predicate MemberLetter(modes: seq<Cmode>, c: char) {
    exists m | m in modes :: m.kind.Member? && m.letter == c
  }

  ghost predicate Outranks(modes: seq<Cmode>, a: char, b: char) {
    forall x, y | x in modes && y in modes && x.letter == a && y.letter == b :: x.rank > y.rank
  }

  /** Letters of registered member modes, in descending rank. */
  ghost predicate Ranked(modes: seq<Cmode>, s: string) {
    && (forall i | 0 <= i < |s| :: MemberLetter(modes, s[i]))
    && (forall i, j | 0 <= i < j < |s| :: Outranks(modes, s[i], s[j]))
  }

  ghost predicate SeatOk(modes: seq<Cmode>, s: Seat) {
    && s.modes == s.mirror
    && |s.modes| < MEMBER_MODES_LEN
    && NUL !in s.modes
    && Ranked(modes, s.modes)
  }

  ghost predicate ChannelOk(modes: seq<Cmode>, ch: Channel) {
    && |ch.cells| == SLOTS + 1
    && (forall b | b in ch.word :: BitOwned(modes, b))
    && (forall m | m in modes && HasSlot(m) && m.bit.Some? && m.bit.value in ch.word ::
          m.slot < |ch.cells| && ch.cells[m.slot].Data?)
    && (forall i | 0 <= i < |ch.seats| :: SeatOk(modes, ch.seats[i]))
  }

  ghost predicate Inv(w: World) {
    && ModesOk(w.modes)
    && (forall m | m in w.modes :: m.id < w.nextId)
    && TablesOk(w.modes, w.table, w.slotOf)
    && (forall c | c in w.channels :: ChannelOk(w.modes, w.channels[c]))
  }

  /** The request leaves a revived entry as it was, apart from the unload mark. */
  predicate Keeps(m: Cmode, req: Request) {
    Filled(m, req, m.slot) == m.(unloaded := false)
  }

  /** What the registry relies on from its callers: a module that comes back after a rehash asks
      for the mode it had, member modes have distinct ranks, and a user joins with distinct
      letters (a C string, so without NUL). */
  predicate Legal(w: World, op: Op) {
    match op
    case AddMode(req) =>
      var k := FindMatch(w.modes, req);
      if k < |w.modes| then w.modes[k].unloaded ==> Keeps(w.modes[k], req)
      else req.kind.Member? ==> forall m | m in w.modes && m.kind.Member? :: m.rank != req.rank
    case Join(_, _, letters) =>
      NUL !in letters && forall i, j | 0 <= i < j < |letters| :: letters[i] != letters[j]
    case _ => true
  }

  lemma InvFits(w: World)
    requires Inv(w)
    ensures CellsFit(w)
  {
  }

  // ---------------------------------------------------------------- looking entries up

  /** Two entries of the list are one and the same, or share nothing. */
  lemma SameOrApart(modes: seq<Cmode>, a: Cmode, b: Cmode)
    requires ModesOk(modes) && a in modes && b in modes
    ensures a == b || (Apart(a, b) && Apart(b, a))
  {
    var i :| 0 <= i < |modes| && modes[i] == a;
    var j :| 0 <= j < |modes| && modes[j] == b;
    if i < j {
      assert Apart(modes[i], modes[j]);
    } else if j < i {
      assert Apart(modes[j], modes[i]);
    }
  }

  /** A lookup by letter finds the entry that has it. */
  lemma LetterFound(modes: seq<Cmode>, m: Cmode)
    requires ModesOk(modes) && m in modes
    ensures FindLetter(modes, m.letter) < |modes|
    ensures modes[FindLetter(modes, m.letter)] == m
  {
    var k := FindLetter(modes, m.letter);
    var i :| 0 <= i < |modes| && modes[i] == m;
    assert k < |modes|;
    SameOrApart(modes, modes[k], m);
  }

  // ---------------------------------------------------------------- unload marks

  /** Entry `k` with its unload mark set to `mark`. */
  function Marked(modes: seq<Cmode>, k: nat, mark: bool): seq<Cmode>
    requires k < |modes|
  {
    modes[k := modes[k].(unloaded := mark)]
  }

  lemma MarkedMembers(modes: seq<Cmode>, k: nat, mark: bool)
    requires k < |modes|
    ensures forall m | m in modes ::
              m in Marked(modes, k, mark) || m.(unloaded := mark) in Marked(modes, k, mark)
    ensures forall m | m in Marked(modes, k, mark) :: m in modes || m == modes[k].(unloaded := mark)
  {
    var after := Marked(modes, k, mark);
    forall m | m in modes ensures m in after || m.(unloaded := mark) in after {
      var i :| 0 <= i < |modes| && modes[i] == m;
      assert after[i] == m || after[i] == m.(unloaded := mark);
    }
  }

  lemma MarkKeepsChannel(modes: seq<Cmode>, k: nat, mark: bool, ch: Channel)
    requires k < |modes| && ChannelOk(modes, ch)
    ensures ChannelOk(Marked(modes, k, mark), ch)
  {
    var after := Marked(modes, k, mark);
    MarkedMembers(modes, k, mark);
    forall b | b in ch.word ensures BitOwned(after, b) {
      assert BitOwned(modes, b);
    }
    forall i | 0 <= i < |ch.seats| ensures SeatOk(after, ch.seats[i]) {
      MarkKeepsRanked(modes, k, mark, ch.seats[i].modes);
    }
  }

  lemma MarkKeepsRanked(modes: seq<Cmode>, k: nat, mark: bool, s: string)
    requires k < |modes| && Ranked(modes, s)
    ensures Ranked(Marked(modes, k, mark), s)
  {
    var after := Marked(modes, k, mark);
    MarkedMembers(modes, k, mark);
    forall i | 0 <= i < |s| ensures MemberLetter(after, s[i]) {
      assert MemberLetter(modes, s[i]);
    }
    forall i, j | 0 <= i < j < |s| ensures Outranks(after, s[i], s[j]) {
      assert Outranks(modes, s[i], s[j]);
    }
  }

  lemma MarkKeepsTables(w: World, k: nat, mark: bool)
    requires k < |w.modes| && TablesOk(w.modes, w.table, w.slotOf)
    ensures TablesOk(Marked(w.modes, k, mark), w.table, w.slotOf)
  {
    var after := Marked(w.modes, k, mark);
    MarkedMembers(w.modes, k, mark);
    forall s | 0 <= s < |w.table| && w.table[s].Some? ensures SlotOwned(after, s, w.table[s].value) {
      assert SlotOwned(w.modes, s, w.table[s].value);
    }
  }

  /** Setting or clearing an unload mark keeps the invariant. */
  lemma MarkKeepsInv(w: World, k: nat, mark: bool)
    requires Inv(w) && k < |w.modes|
    ensures Inv(w.(modes := Marked(w.modes, k, mark)))
  {
    var w1 := w.(modes := Marked(w.modes, k, mark));
    MarkedMembers(w.modes, k, mark);
    forall m | m in w1.modes ensures WellFormed(m) && m.id < w.nextId {
      assert WellFormed(w.modes[k]) && w.modes[k].id < w.nextId;
    }
    forall i, j | 0 <= i < j < |w1.modes| ensures Apart(w1.modes[i], w1.modes[j]) {
      assert Apart(w.modes[i], w.modes[j]);
    }
    MarkKeepsTables(w, k, mark);
    forall c | c in w1.channels ensures ChannelOk(w1.modes, w1.channels[c]) {
      MarkKeepsChannel(w.modes, k, mark, w.channels[c]);
    }
  }

  /** Reviving an entry with a request that keeps it only clears the unload mark. */
  lemma ReviveIsUnmark(w: World, k: nat, req: Request)
    requires Inv(w) && k < |w.modes| && Keeps(w.modes[k], req)
    ensures w.modes[k].slot < |w.table|
    ensures Install(w, k, req, w.modes[k].slot) == w.(modes := Marked(w.modes, k, false))
              .(slotOf := Install(w, k, req, w.modes[k].slot).slotOf)
    ensures forall c :: SlotOf(Install(w, k, req, w.modes[k].slot).slotOf, c) == SlotOf(w.slotOf, c)
    ensures Inv(Install(w, k, req, w.modes[k].slot))
  {
    ReviveSlots(w, k, req);
    MarkKeepsInv(w, k, false);
    var w0, w1 := w.(modes := Marked(w.modes, k, false)), Install(w, k, req, w.modes[k].slot);
    SameSlots(w0.modes, w0.table, w0.slotOf, w1.slotOf);
    assert w1.channels == w0.channels && w1.nextId == w0.nextId;
  }

  lemma ReviveSlots(w: World, k: nat, req: Request)
    requires Inv(w) && k < |w.modes| && Keeps(w.modes[k], req)
    ensures w.modes[k].slot < |w.table|
    ensures var w1 := Install(w, k, req, w.modes[k].slot);
            && w1 == w.(modes := Marked(w.modes, k, false)).(slotOf := w1.slotOf)
            && (forall c | c in w1.slotOf :: w1.slotOf[c] < SLOTS)
            && forall c :: SlotOf(w1.slotOf, c) == SlotOf(w.slotOf, c)
  {
    var m := w.modes[k];
    assert m in w.modes && WellFormed(m) && Filled(m, req, m.slot) == m.(unloaded := false);
    if HasSlot(m) {
      assert w.table[m.slot := Some(m.id)] == w.table;
    }
  }

  lemma SameSlots(modes: seq<Cmode>, table: seq<Option<nat>>, a: map<char, nat>, b: map<char, nat>)
    requires TablesOk(modes, table, a) && (forall c | c in b :: b[c] < SLOTS)
    requires forall c :: SlotOf(b, c) == SlotOf(a, c)
    ensures TablesOk(modes, table, b)
  {
  }

  // ---------------------------------------------------------------- new entries

  lemma InsertMembers<T>(s: seq<T>, k: nat, x: T)
    requires k <= |s|
    ensures forall y :: y in InsertAt(s, k, x) <==> y in s || y == x
  {
    var t := InsertAt(s, k, x);
    forall y | y in s ensures y in t {
      var i :| 0 <= i < |s| && s[i] == y;
      assert t[if i < k then i else i + 1] == y;
    }
    assert t[k] == x;
  }

  /** The new entry has its own letter, bit, slot and rank. */
  ghost predicate Fresh(modes: seq<Cmode>, n: Cmode) {
    forall m | m in modes :: Apart(m, n) && Apart(n, m)
  }

  lemma InsertKeepsModes(modes: seq<Cmode>, k: nat, n: Cmode)
    requires ModesOk(modes) && k <= |modes| && Fresh(modes, n) && WellFormed(n)
    requires forall m | m in modes :: m.letter != NUL
    requires n.letter == NUL ==> k == 0
    ensures ModesOk(InsertAt(modes, k, n))
  {
    var after := InsertAt(modes, k, n);
    InsertMembers(modes, k, n);
    forall i, j | 0 <= i < j < |after| ensures Apart(after[i], after[j]) {
      var i0, j0 := if i < k then i else i - 1, if j < k then j else j - 1;
      if i == k {
        assert after[j] == modes[j0];
      } else if j == k {
        assert after[i] == modes[i0];
      } else {
        assert after[i] == modes[i0] && after[j] == modes[j0];
        assert Apart(modes[i0], modes[j0]);
      }
    }
    forall i | 0 < i < |after| ensures after[i].letter != NUL {
      if i != k {
        assert after[i] == modes[if i < k then i else i - 1];
      }
    }
  }

  lemma InsertKeepsChannel(modes: seq<Cmode>, k: nat, n: Cmode, ch: Channel)
    requires k <= |modes| && ChannelOk(modes, ch) && Fresh(modes, n)
    ensures ChannelOk(InsertAt(modes, k, n), ch)
  {
    var after := InsertAt(modes, k, n);
    InsertMembers(modes, k, n);
    forall b | b in ch.word ensures BitOwned(after, b) && n.bit != Some(b) {
      assert BitOwned(modes, b);
    }
    forall i | 0 <= i < |ch.seats| ensures SeatOk(after, ch.seats[i]) {
      var s := ch.seats[i].modes;
      forall j | 0 <= j < |s| ensures MemberLetter(after, s[j]) && n.letter != s[j] {
        assert MemberLetter(modes, s[j]);
      }
      forall x, y | 0 <= x < y < |s| ensures Outranks(after, s[x], s[y]) {
        assert Outranks(modes, s[x], s[y]);
      }
    }
  }

  /** The sorted insertion goes through exactly when no listed mode is without letter, and a mode
      without letter goes to the front. */
  lemma {:induction false} InsertPositionExists(modes: seq<Cmode>, letter: char)
    requires forall i | 0 < i < |modes| :: modes[i].letter != NUL
    ensures InsertPosition(modes, letter).Some? <==> forall m | m in modes :: m.letter != NUL
    ensures letter == NUL && InsertPosition(modes, letter).Some? ==>
              InsertPosition(modes, letter) == Some(0)
  {
    if modes != [] && modes[0].letter != NUL {
      InsertPositionExists(modes[1..], letter);
      assert forall m | m in modes :: m == modes[0] || m in modes[1..];
    }
  }

  /** What the list holds after a new registration, slots used up or not. */
  function NewEntry(w: World, req: Request): Cmode
    requires |w.table| == SLOTS + 1
  {
    var bare := Bare(w.nextId, req.letter, NewBit(w, req));
    var slot := if Slotted(req.kind, req.param) then FreeSlot(w.table, 0) else 0;
    if slot == SLOTS then bare else Filled(bare, req, slot)
  }

  lemma NewEntryFresh(w: World, req: Request)
    requires Inv(w) && Legal(w, AddMode(req)) && FindMatch(w.modes, req) == |w.modes|
    requires InsertPosition(w.modes, req.letter).Some?
    requires req.kind.Normal? ==> FreeBit(w.modes, 0) < BITS
    requires req.kind.Member? ==> MemberRequestComplete(req)
    ensures Fresh(w.modes, NewEntry(w, req)) && WellFormed(NewEntry(w, req))
  {
    var n := NewEntry(w, req);
    InsertPositionExists(w.modes, req.letter);
    forall m | m in w.modes ensures Apart(m, n) && Apart(n, m) {
      assert !Matches(m, req);
      if HasSlot(m) {
        assert w.table[m.slot].Some?;
      }
    }
  }

  /** The tables with entry `n` entered in them, if it has a slot. */
  function Entered(w: World, modes: seq<Cmode>, n: Cmode): World
    requires n.slot < |w.table|
  {
    var w1 := w.(modes := modes);
    if HasSlot(n) then
      w1.(table := w.table[n.slot := Some(n.id)], slotOf := w.slotOf[n.letter := n.slot])
    else w1
  }

  lemma EnterKeepsTables(w: World, k: nat, n: Cmode)
    requires TablesOk(w.modes, w.table, w.slotOf) && k <= |w.modes| && Fresh(w.modes, n)
    requires n.slot < SLOTS && (HasSlot(n) ==> w.table[n.slot].None?)
    ensures var w2 := Entered(w, InsertAt(w.modes, k, n), n);
            TablesOk(w2.modes, w2.table, w2.slotOf)
  {
    var w2 := Entered(w, InsertAt(w.modes, k, n), n);
    InsertMembers(w.modes, k, n);
    forall m | m in w2.modes && HasSlot(m)
      ensures w2.table[m.slot] == Some(m.id) && SlotOf(w2.slotOf, m.letter) == m.slot
    {
      if m != n {
        assert Apart(m, n);
      }
    }
    forall s | 0 <= s < |w2.table| && w2.table[s].Some?
      ensures SlotOwned(w2.modes, s, w2.table[s].value)
    {
      if HasSlot(n) && s == n.slot {
        assert n in w2.modes;
      } else {
        assert SlotOwned(w.modes, s, w.table[s].value);
      }
    }
  }

  /** A registration that gets as far as the list adds one entry, whatever happens next. */
  lemma AddAtResult(w: World, req: Request, k: nat)
    requires |w.table| == SLOTS + 1 && k <= |w.modes|
    ensures NewEntry(w, req).slot < |w.table|
    ensures AddAt(w, req, k).0 ==
            Entered(w, InsertAt(w.modes, k, NewEntry(w, req)), NewEntry(w, req)).(nextId := w.nextId + 1)
  {
    var bare := Bare(w.nextId, req.letter, NewBit(w, req));
    var n := NewEntry(w, req);
    assert InsertAt(w.modes, k, bare)[k := n] == InsertAt(w.modes, k, n);
  }

  lemma AddNewKeepsInv(w: World, req: Request)
    requires Inv(w) && Legal(w, AddMode(req)) && FindMatch(w.modes, req) == |w.modes|
    ensures Inv(AddNew(w, req).0)
  {
    var p := InsertPosition(w.modes, req.letter);
    if p.Some? && (req.kind.Normal? ==> FreeBit(w.modes, 0) < BITS) &&
       (req.kind.Member? ==> MemberRequestComplete(req)) {
      NewEntryFresh(w, req);
      InsertPositionExists(w.modes, req.letter);
      AddAtResult(w, req, p.value);
      EnteredKeepsInv(w, p.value, NewEntry(w, req));
    }
  }

  lemma EnteredKeepsInv(w: World, k: nat, n: Cmode)
    requires Inv(w) && k <= |w.modes| && Fresh(w.modes, n) && WellFormed(n) && n.id == w.nextId
    requires HasSlot(n) ==> w.table[n.slot].None?
    requires forall m | m in w.modes :: m.letter != NUL
    requires n.letter == NUL ==> k == 0
    ensures Inv(Entered(w, InsertAt(w.modes, k, n), n).(nextId := w.nextId + 1))
  {
    var w2 := Entered(w, InsertAt(w.modes, k, n), n).(nextId := w.nextId + 1);
    InsertKeepsModes(w.modes, k, n);
    InsertMembers(w.modes, k, n);
    EnterKeepsTables(w, k, n);
    forall c | c in w2.channels ensures ChannelOk(w2.modes, w2.channels[c]) {
      InsertKeepsChannel(w.modes, k, n, w.channels[c]);
    }
  }

  lemma AddKeepsInv(w: World, req: Request)
    requires Inv(w) && Legal(w, AddMode(req)) && CellsFit(w)
    ensures Inv(Add(w, req).0)
  {
    var k := FindMatch(w.modes, req);
    if req.name != "" {
      if k == |w.modes| {
        AddNewKeepsInv(w, req);
      } else if w.modes[k].unloaded {
        ReviveIsUnmark(w, k, req);
      }
    }
  }

  // ---------------------------------------------------------------- unloading

  lemma RemoveMembers(modes: seq<Cmode>, k: nat)
    requires ModesOk(modes) && k < |modes|
    ensures forall m :: m in RemoveAt(modes, k) <==> m in modes && m != modes[k]
  {
    var after := RemoveAt(modes, k);
    forall m | m in modes && m != modes[k] ensures m in after {
      var i :| 0 <= i < |modes| && modes[i] == m;
      assert after[if i < k then i else i - 1] == m;
    }
    forall m | m in after ensures m in modes && m != modes[k] {
      var i :| 0 <= i < |after| && after[i] == m;
      var j := if i < k then i else i + 1;
      assert modes[j] == m;
      assert if j < k then Apart(modes[j], modes[k]) else Apart(modes[k], modes[j]);
    }
  }

  lemma RemoveKeepsModes(modes: seq<Cmode>, k: nat)
    requires ModesOk(modes) && k < |modes|
    ensures ModesOk(RemoveAt(modes, k))
  {
    var after := RemoveAt(modes, k);
    RemoveMembers(modes, k);
    forall i, j | 0 <= i < j < |after| ensures Apart(after[i], after[j]) {
      assert Apart(modes[if i < k then i else i + 1], modes[if j < k then j else j + 1]);
    }
  }

  lemma CommitKeepsTables(w: World, k: nat)
    requires Inv(w) && CellsFit(w) && k < |w.modes|
    ensures TablesOk(Commit(w, k).modes, Commit(w, k).table, Commit(w, k).slotOf)
  {
    var m := w.modes[k];
    var w1 := Commit(w, k);
    RemoveMembers(w.modes, k);
    forall x | x in w1.modes ensures Apart(x, m) {
      SameOrApart(w.modes, x, m);
    }
    forall s | 0 <= s < |w1.table| && w1.table[s].Some?
      ensures SlotOwned(w1.modes, s, w1.table[s].value)
    {
      assert SlotOwned(w.modes, s, w.table[s].value);
      if HasSlot(m) {
        assert s != m.slot;
      }
    }
  }

  lemma RankedDistinct(modes: seq<Cmode>, s: string)
    requires Ranked(modes, s)
    ensures NoRepeats(s)
  {
    forall i, j | 0 <= i < j < |s| ensures s[i] != s[j] {
      assert Outranks(modes, s[i], s[j]);
      assert MemberLetter(modes, s[i]);
    }
  }

  lemma RemoveAtKeepsRanked(modes: seq<Cmode>, s: string, k: nat)
    requires Ranked(modes, s) && k < |s|
    ensures Ranked(modes, RemoveAt(s, k))
  {
    var t := RemoveAt(s, k);
    forall i | 0 <= i < |t| ensures MemberLetter(modes, t[i]) {
      assert t[i] == s[if i < k then i else i + 1];
    }
    forall i, j | 0 <= i < j < |t| ensures Outranks(modes, t[i], t[j]) {
      var i0, j0 := if i < k then i else i + 1, if j < k then j else j + 1;
      assert t[i] == s[i0] && t[j] == s[j0];
      assert Outranks(modes, s[i0], s[j0]);
    }
  }

  /** Taking a letter out of a ranked string leaves a ranked string without it. */
  lemma DelLetterKeepsRanked(modes: seq<Cmode>, s: string, letter: char)
    requires Ranked(modes, s)
    ensures Ranked(modes, DelLetter(s, letter))
    ensures letter !in DelLetter(s, letter)
    ensures forall c | c in DelLetter(s, letter) :: c in s
    ensures |DelLetter(s, letter)| <= |s|
  {
    var k := IndexOf(s, letter);
    if k < |s| {
      RemoveAtKeepsRanked(modes, s, k);
      RankedDistinct(modes, s);
    }
  }

  /** A ranked string that does not use the letter of entry `k` outlives that entry. */
  lemma RemoveKeepsRanked(modes: seq<Cmode>, k: nat, s: string)
    requires ModesOk(modes) && k < |modes| && Ranked(modes, s)
    requires forall i | 0 <= i < |s| :: s[i] != modes[k].letter
    ensures Ranked(RemoveAt(modes, k), s)
  {
    var after := RemoveAt(modes, k);
    RemoveMembers(modes, k);
    forall i | 0 <= i < |s| ensures MemberLetter(after, s[i]) {
      assert MemberLetter(modes, s[i]);
    }
    forall i, j | 0 <= i < j < |s| ensures Outranks(after, s[i], s[j]) {
      assert Outranks(modes, s[i], s[j]);
    }
  }

  lemma CommitKeepsSeat(modes: seq<Cmode>, k: nat, s: Seat)
    requires ModesOk(modes) && k < |modes| && SeatOk(modes, s)
    ensures modes[k].kind.Normal? ==> SeatOk(RemoveAt(modes, k), s)
    ensures modes[k].letter !in s.modes ==> SeatOk(RemoveAt(modes, k), s)
    ensures SeatOk(RemoveAt(modes, k), Revoke(s, modes[k].letter))
  {
    var m := modes[k];
    if m.kind.Normal? {
      forall i | 0 <= i < |s.modes| ensures s.modes[i] != m.letter {
        assert MemberLetter(modes, s.modes[i]);
        var x :| x in modes && x.kind.Member? && x.letter == s.modes[i];
        SameOrApart(modes, x, m);
      }
    }
    if m.letter !in s.modes {
      RemoveKeepsRanked(modes, k, s.modes);
    }
    DelLetterKeepsRanked(modes, s.modes, m.letter);
    RemoveKeepsRanked(modes, k, DelLetter(s.modes, m.letter));
  }

  lemma CommitKeepsChannel(w: World, k: nat, ch: Channel)
    requires Inv(w) && k < |w.modes| && ChannelOk(w.modes, ch)
    ensures ChannelOk(RemoveAt(w.modes, k),
                      Unset(ch, w.modes[k], SlotOf(w.slotOf, w.modes[k].letter)))
  {
    var m := w.modes[k];
    var after := RemoveAt(w.modes, k);
    var ch1 := Unset(ch, m, SlotOf(w.slotOf, m.letter));
    RemoveMembers(w.modes, k);
    forall b | b in ch1.word ensures BitOwned(after, b) {
      assert BitOwned(w.modes, b);
    }
    forall x | x in after && HasSlot(x) && x.bit.value in ch1.word ensures ch1.cells[x.slot].Data? {
      SameOrApart(w.modes, x, m);
      assert ch.cells[x.slot].Data?;
    }
    forall i | 0 <= i < |ch1.seats| ensures SeatOk(after, ch1.seats[i]) {
      CommitKeepsSeat(w.modes, k, ch.seats[i]);
    }
  }

  lemma CommitKeepsInv(w: World, k: nat)
    requires Inv(w) && CellsFit(w) && k < |w.modes|
    ensures Inv(Commit(w, k))
  {
    var w1 := Commit(w, k);
    RemoveKeepsModes(w.modes, k);
    RemoveMembers(w.modes, k);
    CommitKeepsTables(w, k);
    forall c | c in w1.channels ensures ChannelOk(w1.modes, w1.channels[c]) {
      CommitKeepsChannel(w, k, w.channels[c]);
    }
  }

  lemma {:induction false} CommitUnusedKeepsInv(w: World, ids: seq<nat>)
    requires Inv(w) && CellsFit(w)
    ensures Inv(CommitUnused(w, ids))
    decreases ids
  {
    if ids != [] {
      var k := FindId(w.modes, ids[0]);
      if k < |w.modes| && Unused(w.modes[k]) {
        CommitKeepsInv(w, k);
        CommitFits(w, k);
        CommitUnusedKeepsInv(Commit(w, k), ids[1..]);
      } else {
        CommitUnusedKeepsInv(w, ids[1..]);
      }
    }
  }
}
