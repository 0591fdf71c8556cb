/** The channel mode registry: which modes exist, which bit and which parameter slot each one
    holds, and what every channel has set. This module gives the data and the operations; what
    they keep is in ChannelModeInvariant, and the code that performs them in ChannelModeApi. */
module ChannelModes {
  import opened Common
  import opened LetterOrder

  /** Mode bits are 2^0, ..., 2^62: the search stops below ULLONG_MAX / 2. */
  const BITS: nat := 63

  /** MAXPARAMMODES. The tables have one cell more, which is never used. */
  const SLOTS: nat := 16

  /** MEMBERMODESLEN, terminator included. */
  const MEMBER_MODES_LEN: nat := 8

  datatype Kind = Normal | Member

  /** A registered mode. `id` is the address of its struct: a new one for every allocation.
      `name` is missing only in an entry whose registration ran out of parameter slots. */
  datatype Cmode = Cmode(
    id: nat, name: Option<string>, letter: char, kind: Kind, bit: Option<nat>,
    prefix: char, sjoinPrefix: char, rank: int, param: bool, unsetWithParam: bool,
    slot: nat, unloaded: bool)

  datatype Request = Request(
    name: string, letter: char, kind: Kind, prefix: char, sjoinPrefix: char, rank: int,
    param: bool, unsetWithParam: bool)

  /** A parameter cell of a channel. `Stale` is a pointer whose data has been freed. */
  datatype Cell = Null | Data(value: string) | Stale

  /** A user on a channel: the Member and the Membership copy of the member modes. */
  datatype Seat = Seat(client: nat, modes: string, mirror: string)

  datatype Channel = Channel(word: set<nat>, cells: seq<Cell>, seats: seq<Seat>)

  datatype World = World(
    modes: seq<Cmode>, table: seq<Option<nat>>, slotOf: map<char, nat>, nextId: nat,
    rehashing: bool, crashed: bool, channels: map<nat, Channel>)

  datatype Outcome = Invalid | Exists | NoSpace | Aborted | Registered(id: nat, bit: Option<nat>)

  function EmptyChannel(): Channel { Channel({}, seq(SLOTS + 1, _ => Null), []) }

  function Boot(): World {
    World([], seq(SLOTS + 1, _ => None), map[], 0, false, false, map[])
  }

  // ---------------------------------------------------------------- searches

  function SlotOf(slotOf: map<char, nat>, letter: char): nat {
    if letter in slotOf then slotOf[letter] else 0
  }

  predicate Matches(m: Cmode, req: Request) {
    (req.letter != NUL && m.letter == req.letter) || m.name == Some(req.name)
  }

  /** The entry a request collides with, or |modes|. */
  function FindMatch(modes: seq<Cmode>, req: Request): (k: nat)
    ensures k <= |modes|
    ensures k < |modes| ==> Matches(modes[k], req)
    ensures forall i | 0 <= i < k :: !Matches(modes[i], req)
  {
    if modes == [] || Matches(modes[0], req) then 0 else 1 + FindMatch(modes[1..], req)
  }

  function FindId(modes: seq<Cmode>, id: nat): (k: nat)
    ensures k <= |modes|
    ensures k < |modes| ==> modes[k].id == id
    ensures forall i | 0 <= i < k :: modes[i].id != id
  {
    if modes == [] || modes[0].id == id then 0 else 1 + FindId(modes[1..], id)
  }

  /** find_channel_mode_handler: the first entry with this letter, or |modes|. */
  function FindLetter(modes: seq<Cmode>, letter: char): (k: nat)
    ensures k <= |modes|
    ensures k < |modes| ==> modes[k].letter == letter
    ensures forall i | 0 <= i < k :: modes[i].letter != letter
  {
    if modes == [] || modes[0].letter == letter then 0 else 1 + FindLetter(modes[1..], letter)
  }

  predicate BitTaken(modes: seq<Cmode>, b: nat) {
    exists m | m in modes :: m.bit == Some(b)
  }

  /** The lowest bit at or above `from` that no entry holds, or BITS. */
  function FreeBit(modes: seq<Cmode>, from: nat): (b: nat)
    requires from <= BITS
    ensures from <= b <= BITS
    ensures b < BITS ==> !BitTaken(modes, b)
    ensures forall i | from <= i < b :: BitTaken(modes, i)
    decreases BITS - from
  {
    if from == BITS || !BitTaken(modes, from) then from else FreeBit(modes, from + 1)
  }

  /** The lowest free slot at or above `from`, or SLOTS. */
  function FreeSlot(table: seq<Option<nat>>, from: nat): (s: nat)
    requires |table| == SLOTS + 1 && from <= SLOTS
    ensures from <= s <= SLOTS
    ensures s < SLOTS ==> table[s].None?
    ensures forall i | from <= i < s :: table[i].Some?
    decreases SLOTS - from
  {
    if from == SLOTS || table[from].None? then from else FreeSlot(table, from + 1)
  }

  /** Where the sorted list takes an entry; nothing when the walk meets an entry without letter,
      on which the server aborts. */
  function InsertPosition(modes: seq<Cmode>, letter: char): (p: Option<nat>)
    ensures p.Some? ==> p.value <= |modes|
  {
    if modes == [] then Some(0)
    else if modes[0].letter == NUL then None
    else if SortBefore(letter, modes[0].letter) then Some(0)
    else match InsertPosition(modes[1..], letter)
      case None => None
      case Some(k) => Some(k + 1)
  }

  // ---------------------------------------------------------------- registering

  /** What a request leaves in an entry, whether new or revived. */
  function Filled(m: Cmode, req: Request, slot: nat): Cmode {
    Cmode(m.id, Some(req.name), req.letter, req.kind, m.bit, req.prefix, req.sjoinPrefix,
          req.rank, req.param, req.unsetWithParam, slot, false)
  }

  /** A freshly allocated entry: everything but the letter and the bit is zero. */
  function Bare(id: nat, letter: char, bit: Option<nat>): Cmode {
    Cmode(id, None, letter, Normal, bit, NUL, NUL, 0, false, false, 0, false)
  }

  predicate Slotted(kind: Kind, param: bool) { kind.Normal? && param }

  /** The last half of CmodeAdd: fill in entry `k` and enter it in the slot tables. */
  function Install(w: World, k: nat, req: Request, slot: nat): World
    requires k < |w.modes| && slot < |w.table|
  {
    var m := Filled(w.modes[k], req, slot);
    var w1 := w.(modes := w.modes[k := m]);
    if Slotted(req.kind, req.param) then
      w1.(table := w.table[slot := Some(m.id)], slotOf := w.slotOf[req.letter := slot])
    else
      w1
  }

  predicate MemberRequestComplete(req: Request) {
    req.prefix != NUL && req.sjoinPrefix != NUL && req.param && req.unsetWithParam && req.rank != 0
  }

  /** The bit a new entry holds: none for a member mode. */
  function NewBit(w: World, req: Request): Option<nat> {
    if req.kind.Normal? then Some(FreeBit(w.modes, 0)) else None
  }

  /** List a new entry at position `k`, then look for a parameter slot if it needs one. */
  function AddAt(w: World, req: Request, k: nat): (World, Outcome)
    requires |w.table| == SLOTS + 1 && k <= |w.modes|
  {
    var w1 := w.(modes := InsertAt(w.modes, k, Bare(w.nextId, req.letter, NewBit(w, req))),
                 nextId := w.nextId + 1);
    var slot := if Slotted(req.kind, req.param) then FreeSlot(w.table, 0) else 0;
    if slot == SLOTS then
      (w1, NoSpace)  // the entry stays listed
    else
      (Install(w1, k, req, slot), Registered(w.nextId, NewBit(w, req)))
  }

  function AddNew(w: World, req: Request): (World, Outcome)
    requires |w.table| == SLOTS + 1
  {
    if req.kind.Normal? && FreeBit(w.modes, 0) == BITS then (w, NoSpace)
    else if req.kind.Member? && !MemberRequestComplete(req) then (w, Invalid)
    else match InsertPosition(w.modes, req.letter)
      case None => (w.(crashed := true), Aborted)
      case Some(k) => AddAt(w, req, k)
  }

  /** CmodeAdd. */
  function Add(w: World, req: Request): (World, Outcome)
    requires |w.table| == SLOTS + 1
    requires forall m | m in w.modes :: m.slot < |w.table|
  {
    var k := FindMatch(w.modes, req);
    if req.name == "" then (w, Invalid)
    else if k == |w.modes| then AddNew(w, req)
    else if w.modes[k].unloaded then
      (Install(w, k, req, w.modes[k].slot), Registered(w.modes[k].id, w.modes[k].bit))
    else (w, Exists)
  }

  // ---------------------------------------------------------------- member modes

  /** addlettertomstring: insert before the first letter of lower rank. */
  function InsertByRank(modes: seq<Cmode>, s: string, letter: char, rank: int): string {
    if s == [] then [letter]
    else
      var k := FindLetter(modes, s[0]);
      if k < |modes| && modes[k].rank < rank then [letter] + s
      else [s[0]] + InsertByRank(modes, s[1..], letter, rank)
  }

  function AddLetter(modes: seq<Cmode>, s: string, letter: char): string {
    var k := FindLetter(modes, letter);
    if k == |modes| || !modes[k].kind.Member? || |s| >= MEMBER_MODES_LEN - 1 then s
    else InsertByRank(modes, s, letter, modes[k].rank)
  }

  /** delletterfromstring: the first occurrence only. */
  function DelLetter(s: string, letter: char): string {
    var k := IndexOf(s, letter);
    if k == |s| then s else RemoveAt(s, k)
  }

  function AddLetters(modes: seq<Cmode>, s: string, letters: string): string
    decreases letters
  {
    if letters == [] then s else AddLetters(modes, AddLetter(modes, s, letters[0]), letters[1..])
  }

  function Grant(modes: seq<Cmode>, s: Seat, letter: char): Seat {
    s.(modes := AddLetter(modes, s.modes, letter), mirror := AddLetter(modes, s.mirror, letter))
  }

  function Revoke(s: Seat, letter: char): Seat {
    s.(modes := DelLetter(s.modes, letter), mirror := DelLetter(s.mirror, letter))
  }

  function RevokeAll(seats: seq<Seat>, letter: char): seq<Seat> {
    seq(|seats|, i requires 0 <= i < |seats| =>
      if letter in seats[i].modes then Revoke(seats[i], letter) else seats[i])
  }

  // ---------------------------------------------------------------- unloading

  /** What committing the unload of `m` does to one channel. The parameter is freed, but its cell
      keeps the old pointer. */
  function Unset(ch: Channel, m: Cmode, slot: nat): Channel
    requires slot < |ch.cells|
  {
    if m.kind.Normal? then
      if m.bit.Some? && m.bit.value in ch.word then
        ch.(word := ch.word - {m.bit.value},
            cells := if m.param then ch.cells[slot := Stale] else ch.cells)
      else ch
    else
      ch.(seats := RevokeAll(ch.seats, m.letter))
  }

  function UnsetAll(channels: map<nat, Channel>, m: Cmode, slot: nat): map<nat, Channel>
    requires forall c | c in channels :: slot < |channels[c].cells|
  {
    map c | c in channels :: Unset(channels[c], m, slot)
  }

  predicate CellsFit(w: World) {
    && |w.table| == SLOTS + 1
    && (forall m | m in w.modes :: m.slot < |w.table|)
    && (forall c | c in w.slotOf :: w.slotOf[c] < |w.table|)
    && (forall c | c in w.channels :: |w.channels[c].cells| == SLOTS + 1)
  }

  /** unload_extcmode_commit of entry `k`. */
  function Commit(w: World, k: nat): World
    requires CellsFit(w) && k < |w.modes|
  {
    var m := w.modes[k];
    var slot := SlotOf(w.slotOf, m.letter);
    var w1 := w.(modes := RemoveAt(w.modes, k),
                 channels := UnsetAll(w.channels, m, slot));
    if Slotted(m.kind, m.param) then
      w1.(table := w.table[m.slot := None], slotOf := w.slotOf[m.letter := 0])
    else
      w1
  }

  /** CmodeDel. */
  function Del(w: World, id: nat): World
    requires CellsFit(w)
  {
    var k := FindId(w.modes, id);
    if k == |w.modes| then w
    else if w.rehashing then w.(modes := w.modes[k := w.modes[k].(unloaded := true)])
    else Commit(w, k)
  }

  /** Committing keeps the tables and the cells of every channel in range. */
  lemma CommitFits(w: World, k: nat)
    requires CellsFit(w) && k < |w.modes|
    ensures CellsFit(Commit(w, k))
  {
    var w1 := Commit(w, k);
    forall m | m in w1.modes ensures m.slot < |w1.table| {
      assert m in w.modes;
    }
  }

  predicate Unused(m: Cmode) { m.letter != NUL && m.unloaded }

  function Ids(modes: seq<Cmode>): seq<nat> {
    seq(|modes|, i requires 0 <= i < |modes| => modes[i].id)
  }

  /** unload_all_unused_extcmodes: visit the entries listed at the start, in order. */
  function CommitUnused(w: World, ids: seq<nat>): World
    requires CellsFit(w)
    decreases ids
  {
    if ids == [] then w
    else
      var k := FindId(w.modes, ids[0]);
      if k < |w.modes| && Unused(w.modes[k]) then
        CommitFits(w, k);
        CommitUnused(Commit(w, k), ids[1..])
      else CommitUnused(w, ids[1..])
  }

  // ---------------------------------------------------------------- steps

  datatype Op =
    | AddMode(req: Request)
    | DelMode(id: nat)
    | StartRehash
    | FinishRehash
    | CreateChannel(c: nat)
    | DestroyChannel(c: nat)
    | SetMode(c: nat, id: nat, value: string)
    | ClearMode(c: nat, id: nat, resisted: bool)
    | Join(c: nat, client: nat, letters: string)
    | Part(c: nat, client: nat)
    | Give(c: nat, client: nat, letter: char)
    | Take(c: nat, client: nat, letter: char)

  /** MODE +x: set the bit, then store the parameter in the cell of the letter. */
  function SetOn(ch: Channel, m: Cmode, slot: nat, value: string): Channel
    requires slot < |ch.cells|
  {
    if m.kind.Member? || m.bit.None? then ch
    else ch.(word := ch.word + {m.bit.value},
             cells := if m.param then ch.cells[slot := Data(value)] else ch.cells)
  }

  /** MODE -x. The handler may resist freeing its parameter, which then stays. */
  function ClearOn(ch: Channel, m: Cmode, slot: nat, resisted: bool): Channel
    requires slot < |ch.cells|
  {
    if m.kind.Member? || m.bit.None? || m.bit.value !in ch.word then ch
    else ch.(word := ch.word - {m.bit.value},
             cells := if m.param && !resisted then ch.cells[slot := Null] else ch.cells)
  }

  function FindSeat(seats: seq<Seat>, client: nat): (k: nat)
    ensures k <= |seats|
    ensures k < |seats| ==> seats[k].client == client
    ensures forall i | 0 <= i < k :: seats[i].client != client
  {
    if seats == [] || seats[0].client == client then 0 else 1 + FindSeat(seats[1..], client)
  }

  /** One change of a channel; operations on an absent mode or user change nothing. */
  function ChannelStep(w: World, ch: Channel, op: Op): Channel
    requires CellsFit(w) && |ch.cells| == SLOTS + 1
  {
    match op
    case SetMode(_, id, value) =>
      var k := FindId(w.modes, id);
      if k == |w.modes| then ch
      else SetOn(ch, w.modes[k], SlotOf(w.slotOf, w.modes[k].letter), value)
    case ClearMode(_, id, resisted) =>
      var k := FindId(w.modes, id);
      if k == |w.modes| then ch
      else ClearOn(ch, w.modes[k], SlotOf(w.slotOf, w.modes[k].letter), resisted)
    case Join(_, client, letters) =>
      if FindSeat(ch.seats, client) < |ch.seats| then ch
      else
        var s := AddLetters(w.modes, "", letters);
        ch.(seats := [Seat(client, s, s)] + ch.seats)
    case Part(_, client) =>
      var k := FindSeat(ch.seats, client);
      if k == |ch.seats| then ch else ch.(seats := RemoveAt(ch.seats, k))
    case Give(_, client, letter) =>
      var k := FindSeat(ch.seats, client);
      if k == |ch.seats| || letter == NUL || letter in ch.seats[k].modes then ch
      else ch.(seats := ch.seats[k := Grant(w.modes, ch.seats[k], letter)])
    case Take(_, client, letter) =>
      var k := FindSeat(ch.seats, client);
      if k == |ch.seats| || letter !in ch.seats[k].modes then ch
      else ch.(seats := ch.seats[k := Revoke(ch.seats[k], letter)])
    case _ => ch
  }

  function Step(w: World, op: Op): World
    requires CellsFit(w)
  {
    if w.crashed then w
    else match op
      case AddMode(req) => Add(w, req).0
      case DelMode(id) => Del(w, id)
      case StartRehash => w.(rehashing := true)
      case FinishRehash => CommitUnused(w, Ids(w.modes)).(rehashing := false)
      case CreateChannel(c) =>
        if c in w.channels then w else w.(channels := w.channels[c := EmptyChannel()])
      case DestroyChannel(c) => w.(channels := w.channels - {c})
      case _ =>
        if op.c !in w.channels then w
        else w.(channels := w.channels[op.c := ChannelStep(w, w.channels[op.c], op)])
  }
}
