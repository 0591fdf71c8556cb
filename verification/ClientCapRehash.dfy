/** The rehash protocol of the client capabilities: a snapshot, what modules delete and ask for again,
    the clean-up, and what is stripped from clients and announced. */
module ClientCapRehash {
  import opened Common
  import opened ClientCaps

  // ---------------------------------------------------------------- a rehash, for one client

  /** A `long` stored in an `int` and used as a `long` again: the high bits go, and bit 31 becomes the
      sign and fills them. */
  function ThroughInt(w: Word): (r: Word)
    ensures forall b: nat :: b in r <==> (b in w && b < 32) || (31 in w && 32 <= b < LONG_BITS)
  {
    (set b | b in w && b < 32) + if 31 in w then Range(32, LONG_BITS) else {}
  }

  datatype Saved = Saved(name: string, proto: Word)

  /** clicap_pre_rehash: the names and, as `int`, the bits of the first MAXCLICAPS capabilities. */
  function Snapshot(caps: seq<Cap>): seq<Saved> {
    seq(Min(|caps|, MAXCLICAPS), i requires 0 <= i < Min(|caps|, MAXCLICAPS) =>
      Saved(caps[i].name, ThroughInt(Bit(caps[i]))))
  }

  predicate HasName(caps: seq<Cap>, name: string) { exists c | c in caps :: c.name == name }

  /** What clicap_check_for_changes leaves of a client's word. */
  function Strip(w: Word, saved: seq<Saved>, caps: seq<Cap>): Word
    decreases saved
  {
    if saved == [] then w
    else Strip(if HasName(caps, saved[0].name) then w else w - saved[0].proto, saved[1..], caps)
  }

  /** The bits of the capabilities of `before` that `after` no longer has. */
  function Gone(before: seq<Cap>, after: seq<Cap>): (w: Word)
    ensures forall b ::
      b in w <==> exists i | 0 <= i < |before| :: before[i].bit == Some(b) && !HasName(after, before[i].name)
  {
    if before == [] then {}
    else
      var rest := Gone(before[1..], after);
      assert forall i | 0 < i < |before| :: before[i] == before[1..][i - 1];
      assert forall i | 0 <= i < |before[1..]| :: before[1..][i] == before[i + 1];
      (if HasName(after, before[0].name) then {} else Bit(before[0])) + rest
  }

  lemma {:induction false} StripIs(w: Word, before: seq<Cap>, after: seq<Cap>)
    requires |before| <= MAXCLICAPS
    ensures Strip(w, Snapshot(before), after) == w - ThroughInt(Gone(before, after))
  {
    if before != [] {
      var saved := Snapshot(before);
      assert saved[1..] == Snapshot(before[1..]);
      var w1 := if HasName(after, before[0].name) then w else w - saved[0].proto;
      StripIs(w1, before[1..], after);
      var rest := Gone(before[1..], after);
      assert ThroughInt(Bit(before[0]) + rest) == ThroughInt(Bit(before[0])) + ThroughInt(rest);
      assert {} + rest == rest;
    }
  }

  /** Clearing by way of `int` clears exactly the bits that went if and only if those are all below 31,
      or include every bit from 31 up. */
  lemma ThroughIntIff(w: Word)
    requires forall b | b in w :: b < LONG_BITS
    ensures ThroughInt(w) == w <==> IntSafe(w)
  {
    if ThroughInt(w) == w {
      forall b, x: nat | b in w && b >= 31 && 31 <= x < LONG_BITS ensures x in w {
        assert b in ThroughInt(w);
        assert x in ThroughInt(w);
      }
    }
    if IntSafe(w) {
      assert forall b :: b in ThroughInt(w) <==> b in w;
    }
  }

  /** All below 31, or everything from 31 up. */
  ghost predicate IntSafe(w: Word) {
    (forall b | b in w :: b < 31) || (forall b: nat | 31 <= b < LONG_BITS :: b in w)
  }

  lemma GoneInRange(before: seq<Cap>, after: seq<Cap>)
    requires Ok(before)
    ensures forall b | b in Gone(before, after) :: b < LONG_BITS
  {
    forall b | b in Gone(before, after) ensures b < LONG_BITS {
      var i :| 0 <= i < |before| && before[i].bit == Some(b);
      assert GoodBit(before[i]);
    }
  }

  /** The capabilities that the snapshot has room for. */
  function Kept(caps: seq<Cap>): seq<Cap> { caps[..Min(|caps|, MAXCLICAPS)] }

  lemma StripKept(w: Word, before: seq<Cap>, after: seq<Cap>)
    ensures Strip(w, Snapshot(before), after) == w - ThroughInt(Gone(Kept(before), after))
  {
    assert Snapshot(before) == Snapshot(Kept(before));
    StripIs(w, Kept(before), after);
  }

  /** What went is cleared exactly: each gone bit up to 31 was saved, and either bit 31 went, and all bits
      above it too, or no bit above it went. */
  ghost predicate Unharmed(before: seq<Cap>, after: seq<Cap>) {
    Covers(Gone(Kept(before), after), Gone(before, after))
  }

  ghost predicate Covers(kept: Word, gone: Word) {
    && (forall b | b in gone && b <= 31 :: b in kept)
    && (if 31 in gone then forall b: nat | 31 <= b < LONG_BITS :: b in gone else forall b | b in gone :: b < 31)
  }

  lemma CoversIff(kept: Word, gone: Word)
    requires kept <= gone && forall b | b in gone :: b < LONG_BITS
    ensures ThroughInt(kept) == gone <==> Covers(kept, gone)
  {
    if ThroughInt(kept) == gone {
      assert 31 in gone ==> 31 in kept;
    }
    if Covers(kept, gone) {
      assert forall b :: b in ThroughInt(kept) <==> b in gone;
    }
  }

  lemma CoversItself(gone: Word)
    ensures Covers(gone, gone) <==> IntSafe(gone)
  {
  }

  lemma KeptGone(before: seq<Cap>, after: seq<Cap>)
    ensures Gone(Kept(before), after) <= Gone(before, after)
  {
    forall b | b in Gone(Kept(before), after) ensures b in Gone(before, after) {
      var i :| 0 <= i < |Kept(before)| && Kept(before)[i].bit == Some(b) && !HasName(after, Kept(before)[i].name);
      assert before[i] == Kept(before)[i];
    }
  }

  lemma UnharmedIff(before: seq<Cap>, after: seq<Cap>)
    requires Ok(before)
    ensures ThroughInt(Gone(Kept(before), after)) == Gone(before, after) <==> Unharmed(before, after)
    ensures |before| <= MAXCLICAPS ==> (Unharmed(before, after) <==> IntSafe(Gone(before, after)))
  {
    KeptGone(before, after);
    GoneInRange(before, after);
    CoversIff(Gone(Kept(before), after), Gone(before, after));
    if |before| <= MAXCLICAPS {
      assert Kept(before) == before;
      CoversItself(Gone(before, after));
    }
  }

  /** The word of a client after a rehash is its old word minus the bits of the capabilities that went,
      whatever the word was, if and only if those bits pass through the snapshot unharmed. */
  lemma RehashWordIff(before: seq<Cap>, after: seq<Cap>)
    requires Ok(before)
    ensures (forall w: Word :: Strip(w, Snapshot(before), after) == w - Gone(before, after)) <==>
            Unharmed(before, after)
  {
    if Unharmed(before, after) {
      forall w: Word ensures Strip(w, Snapshot(before), after) == w - Gone(before, after) {
        StripUnharmed(w, before, after);
      }
    } else {
      var w := StripHarmed(before, after);
    }
  }

  lemma StripUnharmed(w: Word, before: seq<Cap>, after: seq<Cap>)
    requires Ok(before) && Unharmed(before, after)
    ensures Strip(w, Snapshot(before), after) == w - Gone(before, after)
  {
    UnharmedIff(before, after);
    StripKept(w, before, after);
  }

  lemma StripHarmed(before: seq<Cap>, after: seq<Cap>) returns (w: Word)
    requires Ok(before) && !Unharmed(before, after)
    ensures Strip(w, Snapshot(before), after) != w - Gone(before, after)
  {
    var gone, cleared := Gone(before, after), ThroughInt(Gone(Kept(before), after));
    UnharmedIff(before, after);
    w := gone + cleared;
    StripKept(w, before, after);
    Differ(gone, cleared);
  }

  lemma Differ(a: Word, b: Word)
    requires a != b
    ensures a + b - a != a + b - b
  {
    var x :| (x in a) != (x in b);
    assert (x in a + b - a) != (x in a + b - b);
  }

  // ---------------------------------------------------------------- what a client has enabled

  /** The names of the capabilities whose bit is in the word. */
  ghost function Enabled(caps: seq<Cap>, w: Word): set<string> {
    set i | 0 <= i < |caps| && caps[i].bit.Some? && caps[i].bit.value in w :: caps[i].name
  }

  ghost function Names(caps: seq<Cap>): set<string> {
    set i | 0 <= i < |caps| :: caps[i].name
  }

  /** Every bit of the word, the marker aside, is that of a registered capability. */
  ghost predicate Owned(caps: seq<Cap>, w: Word) {
    forall b | b in w && b != CAP_INVERT :: Taken(caps, b)
  }

  /** The actions between the snapshot and the clean-up: none of them removes anything. */
  predicate InRehash(acts: seq<Action>) { forall i | 0 <= i < |acts| :: !acts[i].DropUnused? }

  /** The capabilities after a rehash in which modules did `acts`. */
  function Rehashed(caps: seq<Cap>, acts: seq<Action>): seq<Cap> { Used(ActAll(caps, acts)) }

  lemma {:induction false} RehashWithin(caps: seq<Cap>, acts: seq<Action>)
    requires Ok(caps) && InRehash(acts)
    ensures Ok(ActAll(caps, acts)) && Within(caps, ActAll(caps, acts))
    decreases acts
  {
    if acts == [] {
      forall i | 0 <= i < |caps| ensures Listed(caps[i], caps) {
        assert SameCap(caps[i], caps[i]);
      }
    } else {
      ActOk(caps, acts[0]);
      RehashWithin(Act(caps, acts[0]), acts[1..]);
      WithinTrans(caps, Act(caps, acts[0]), ActAll(caps, acts));
    }
  }

  /** A capability that comes through a rehash keeps its bit, and no bit passes to another one. */
  lemma BitsStay(before: seq<Cap>, acts: seq<Action>, i: nat, j: nat)
    requires Ok(before) && InRehash(acts)
    requires i < |before| && j < |Rehashed(before, acts)|
    ensures var d := Rehashed(before, acts)[j];
            && (before[i].name == d.name ==> before[i].bit == d.bit)
            && (before[i].bit.Some? && before[i].bit == d.bit ==> before[i].name == d.name)
  {
    RehashWithin(before, acts);
    var all := ActAll(before, acts);
    UsedMembers(all);
    var d := Rehashed(before, acts)[j];
    assert d in all;
    var y :| 0 <= y < |all| && all[y] == d;
    assert Listed(before[i], all);
    var x :| 0 <= x < |all| && SameCap(before[i], all[x]);
    if x != y {
      Distinct(all, x, y);
    }
  }

  /** After a rehash a client has enabled exactly what it had enabled before and still exists; no
      capability is switched on for it, none that stayed is switched off. */
  lemma RehashKeepsEnabled(before: seq<Cap>, acts: seq<Action>, w: Word)
    requires Ok(before) && InRehash(acts) && Owned(before, w)
    requires Unharmed(before, Rehashed(before, acts))
    ensures var after := Rehashed(before, acts);
            var w1 := Strip(w, Snapshot(before), after);
            && Ok(after) && Owned(after, w1) && w1 <= w
            && Enabled(after, w1) == Enabled(before, w) * Names(after)
  {
    var after := Rehashed(before, acts);
    var w1 := Strip(w, Snapshot(before), after);
    RehashWithin(before, acts);
    UsedOk(ActAll(before, acts));
    StripUnharmed(w, before, after);
    OwnedAfter(before, acts, w);
    EnabledForward(before, acts, w);
    EnabledBackward(before, acts, w);
  }

  lemma OwnedAfter(before: seq<Cap>, acts: seq<Action>, w: Word)
    requires Ok(before) && InRehash(acts) && Owned(before, w)
    ensures var after := Rehashed(before, acts); Owned(after, w - Gone(before, after))
  {
    var after := Rehashed(before, acts);
    forall b | b in w - Gone(before, after) && b != CAP_INVERT ensures Taken(after, b) {
      assert Taken(before, b);
      var i :| 0 <= i < |before| && before[i].bit == Some(b);
      assert HasName(after, before[i].name);
      var d :| d in after && d.name == before[i].name;
      var j :| 0 <= j < |after| && after[j] == d;
      BitsStay(before, acts, i, j);
    }
  }

  lemma EnabledForward(before: seq<Cap>, acts: seq<Action>, w: Word)
    requires Ok(before) && InRehash(acts) && Owned(before, w)
    ensures var after := Rehashed(before, acts);
            Enabled(after, w - Gone(before, after)) <= Enabled(before, w) * Names(after)
  {
    var after := Rehashed(before, acts);
    var w1 := w - Gone(before, after);
    forall n | n in Enabled(after, w1) ensures n in Enabled(before, w) && n in Names(after) {
      var j :| 0 <= j < |after| && after[j].bit.Some? && after[j].bit.value in w1 && after[j].name == n;
      var b := after[j].bit.value;
      RehashWithin(before, acts);
      UsedOk(ActAll(before, acts));
      assert GoodBit(after[j]);
      assert Taken(before, b);
      var c :| c in before && c.bit == Some(b);
      var i :| 0 <= i < |before| && before[i] == c;
      BitsStay(before, acts, i, j);
    }
  }

  lemma EnabledBackward(before: seq<Cap>, acts: seq<Action>, w: Word)
    requires Ok(before) && InRehash(acts)
    ensures var after := Rehashed(before, acts);
            Enabled(before, w) * Names(after) <= Enabled(after, w - Gone(before, after))
  {
    var after := Rehashed(before, acts);
    var w1 := w - Gone(before, after);
    forall n | n in Enabled(before, w) && n in Names(after) ensures n in Enabled(after, w1) {
      var i :| 0 <= i < |before| && before[i].bit.Some? && before[i].bit.value in w && before[i].name == n;
      var j :| 0 <= j < |after| && after[j].name == n;
      BitsStay(before, acts, i, j);
      assert HasName(after, before[i].name) by { assert after[j] in after; }
      forall k | 0 <= k < |before| ensures k == i || before[k].bit != before[i].bit {
        if k != i {
          Distinct(before, i, k);
        }
      }
    }
  }

  // ---------------------------------------------------------------- whole runs

  /** One client and the registry it lives in. */
  datatype View = View(caps: seq<Cap>, word: Word)

  datatype Move = Enable(name: string) | Disable(name: string) | Rehash(acts: seq<Action>)

  function Perform(v: View, m: Move): View {
    match m
    case Enable(name) =>
      var k := Find(v.caps, name);
      if k == |v.caps| then v else v.(word := v.word + Bit(v.caps[k]))
    case Disable(name) =>
      var k := Find(v.caps, name);
      if k == |v.caps| then v else v.(word := v.word - Bit(v.caps[k]))
    case Rehash(acts) =>
      View(Rehashed(v.caps, acts), Strip(v.word, Snapshot(v.caps), Rehashed(v.caps, acts)))
  }

  /** The same, as the protocol describes it: a set of enabled names, of which a rehash keeps those that
      still exist. */
  ghost function PerformOnNames(caps: seq<Cap>, names: set<string>, m: Move): set<string> {
    match m
    case Enable(name) =>
      var k := Find(caps, name);
      if k < |caps| && caps[k].bit.Some? then names + {caps[k].name} else names
    case Disable(name) =>
      var k := Find(caps, name);
      if k < |caps| then names - {caps[k].name} else names
    case Rehash(acts) => names * Names(Rehashed(caps, acts))
  }

  /** A rehash whose snapshot loses nothing that matters. */
  ghost predicate WithinLimits(v: View, m: Move) {
    m.Rehash? ==> InRehash(m.acts) && Unharmed(v.caps, Rehashed(v.caps, m.acts))
  }

  ghost predicate Good(v: View) { Ok(v.caps) && Owned(v.caps, v.word) }

  lemma PerformRefines(v: View, m: Move)
    requires Good(v) && WithinLimits(v, m)
    ensures Good(Perform(v, m))
    ensures Enabled(Perform(v, m).caps, Perform(v, m).word) ==
            PerformOnNames(v.caps, Enabled(v.caps, v.word), m)
  {
    match m
    case Enable(name) => EnableRefines(v, name);
    case Disable(name) => DisableRefines(v, name);
    case Rehash(acts) => RehashKeepsEnabled(v.caps, acts, v.word);
  }

  lemma EnableRefines(v: View, name: string)
    requires Good(v)
    ensures Good(Perform(v, Enable(name)))
    ensures Enabled(v.caps, Perform(v, Enable(name)).word) ==
            PerformOnNames(v.caps, Enabled(v.caps, v.word), Enable(name))
  {
    var k := Find(v.caps, name);
    if k < |v.caps| && v.caps[k].bit.Some? {
      var w := Perform(v, Enable(name)).word;
      OnlyOneChanges(v.caps, k);
      forall b | b in w && b != CAP_INVERT ensures Taken(v.caps, b) {
        assert b != v.caps[k].bit.value ==> Taken(v.caps, b);
      }
      assert v.caps[k].name in Enabled(v.caps, w);
      assert forall n :: n in Enabled(v.caps, v.word) ==> n in Enabled(v.caps, w);
    }
  }

  lemma DisableRefines(v: View, name: string)
    requires Good(v)
    ensures Good(Perform(v, Disable(name)))
    ensures Enabled(v.caps, Perform(v, Disable(name)).word) ==
            PerformOnNames(v.caps, Enabled(v.caps, v.word), Disable(name))
  {
    var k := Find(v.caps, name);
    if k < |v.caps| {
      OnlyOneChanges(v.caps, k);
    }
  }

  /** The other capabilities have other bits and other names. */
  lemma OnlyOneChanges(caps: seq<Cap>, k: nat)
    requires Ok(caps) && k < |caps|
    ensures forall i | 0 <= i < |caps| && i != k ::
              caps[i].name != caps[k].name && (caps[k].bit.Some? ==> caps[i].bit != caps[k].bit)
  {
    forall i | 0 <= i < |caps| && i != k
      ensures caps[i].name != caps[k].name && (caps[k].bit.Some? ==> caps[i].bit != caps[k].bit)
    {
      Distinct(caps, i, k);
    }
  }

  /** Through any number of rehashes, what the bits of a client's word stand for is what the client
      enabled, did not disable, and has existed ever since. */
  lemma {:induction false} RunRefines(vs: seq<View>, names: seq<set<string>>, moves: seq<Move>, t: nat)
    requires |vs| == |names| == |moves| + 1 && t <= |moves|
    requires Good(vs[0]) && names[0] == Enabled(vs[0].caps, vs[0].word)
    requires forall i | 0 <= i < |moves| :: MovesTo(vs[i], names[i], moves[i], vs[i + 1], names[i + 1])
    ensures Good(vs[t]) && names[t] == Enabled(vs[t].caps, vs[t].word)
  {
    if t > 0 {
      RunRefines(vs, names, moves, t - 1);
      assert MovesTo(vs[t - 1], names[t - 1], moves[t - 1], vs[t], names[t]);
      PerformRefines(vs[t - 1], moves[t - 1]);
    }
  }

  ghost predicate MovesTo(v: View, n: set<string>, m: Move, v1: View, n1: set<string>) {
    WithinLimits(v, m) && v1 == Perform(v, m) && n1 == PerformOnNames(v.caps, n, m)
  }

  /** A rehash of at most 79 capabilities, never more than 30 of them with a bit. */
  ghost predicate AtMostThirty(v: View, m: Move) {
    m.Rehash? ==> InRehash(m.acts) && |v.caps| <= MAXCLICAPS && NeverMoreThan(v.caps, m.acts, 30)
  }

  /** Then the snapshot loses nothing, and the bits stay low for the next time. */
  lemma ThirtySuffice(v: View, m: Move)
    requires Good(v) && BitsUpTo(v.caps, 30) && AtMostThirty(v, m)
    ensures WithinLimits(v, m) && BitsUpTo(Perform(v, m).caps, 30)
  {
    if m.Rehash? {
      var after := Rehashed(v.caps, m.acts);
      forall b | b in Gone(v.caps, after) ensures b < 31 {
        var i :| 0 <= i < |v.caps| && v.caps[i].bit == Some(b);
      }
      UnharmedIff(v.caps, after);
      LowBitsOnly(v.caps, m.acts, 30);
      UsedMembers(ActAll(v.caps, m.acts));
      forall i | 0 <= i < |after| && after[i].bit.Some? ensures after[i].bit.value <= 30 {
        assert after[i] in ActAll(v.caps, m.acts);
      }
    }
  }

  ghost predicate LowMovesTo(v: View, n: set<string>, m: Move, v1: View, n1: set<string>) {
    AtMostThirty(v, m) && v1 == Perform(v, m) && n1 == PerformOnNames(v.caps, n, m)
  }

  /** With never more than 30 bits the run theorem needs no condition on what goes. */
  lemma {:induction false} RunWithThirty(vs: seq<View>, names: seq<set<string>>, moves: seq<Move>, t: nat)
    requires |vs| == |names| == |moves| + 1 && t <= |moves|
    requires Good(vs[0]) && BitsUpTo(vs[0].caps, 30) && names[0] == Enabled(vs[0].caps, vs[0].word)
    requires forall i | 0 <= i < |moves| :: LowMovesTo(vs[i], names[i], moves[i], vs[i + 1], names[i + 1])
    ensures Good(vs[t]) && BitsUpTo(vs[t].caps, 30) && names[t] == Enabled(vs[t].caps, vs[t].word)
  {
    if t > 0 {
      RunWithThirty(vs, names, moves, t - 1);
      assert LowMovesTo(vs[t - 1], names[t - 1], moves[t - 1], vs[t], names[t]);
      ThirtySuffice(vs[t - 1], moves[t - 1]);
      PerformRefines(vs[t - 1], moves[t - 1]);
    }
  }

  // ---------------------------------------------------------------- outside a rehash

  /** Deleting a capability outside a rehash strips no client: its bit stays behind exactly on the
      clients that had it enabled. */
  lemma DropOutsideRehash(caps: seq<Cap>, k: nat, w: Word)
    requires Ok(caps) && k < |caps| && Owned(caps, w)
    ensures Owned(RemoveAt(caps, k), w) <==> Bit(caps[k]) !! w
  {
    var after := RemoveAt(caps, k);
    assert GoodBit(caps[k]);
    OnlyOneChanges(caps, k);
    forall b | b in w && b != CAP_INVERT && b !in Bit(caps[k]) ensures Taken(after, b) {
      assert Taken(caps, b);
      var c :| c in caps && c.bit == Some(b);
      var i :| 0 <= i < |caps| && caps[i] == c;
      assert after[if i < k then i else i - 1] == c;
    }
    forall b | b in Bit(caps[k]) ensures !Taken(after, b) {
      forall c | c in after ensures c.bit != Some(b) {
        var i :| 0 <= i < |after| && after[i] == c;
        assert c == caps[if i < k then i else i + 1];
      }
    }
  }

  /** The next capability then gets that bit, and the client gets a capability it never asked for. */
  lemma LeftoverBitIsReused()
    ensures var caps := [Cap("a", Some(1), false, false, false)];
            var after := Add(RemoveAt(caps, 0), Request("b", true, false)).0;
            Enabled(caps, {1}) == {"a"} && Enabled(after, {1}) == {"b"}
  {
    var caps := [Cap("a", Some(1), false, false, false)];
    assert RemoveAt(caps, 0) == [];
    var none: seq<Cap> := [];
    assert !Taken(none, 1);
    var after := Add(none, Request("b", true, false)).0;
    assert after == [Cap("b", Some(1), false, false, false)];
    assert caps[0].name in Enabled(caps, {1});
    assert after[0].name in Enabled(after, {1});
  }

  // ---------------------------------------------------------------- announcements

  /** The CAP DEL messages, in order. */
  function Deleted(saved: seq<Saved>, caps: seq<Cap>): seq<string> {
    if saved == [] then []
    else (if HasName(caps, saved[0].name) then [] else [saved[0].name]) + Deleted(saved[1..], caps)
  }

  predicate WasSaved(saved: seq<Saved>, name: string) { exists s | s in saved :: s.name == name }

  /** The CAP NEW messages, in order. */
  function Added(saved: seq<Saved>, caps: seq<Cap>): seq<string> {
    if caps == [] then []
    else (if WasSaved(saved, caps[0].name) then [] else [caps[0].name]) + Added(saved, caps[1..])
  }

  lemma {:induction false} DeletedMembers(saved: seq<Saved>, caps: seq<Cap>)
    ensures forall n :: n in Deleted(saved, caps) <==> WasSaved(saved, n) && !HasName(caps, n)
  {
    if saved != [] {
      DeletedMembers(saved[1..], caps);
      assert forall x :: x in saved <==> x == saved[0] || x in saved[1..];
    }
  }

  lemma {:induction false} AddedMembers(saved: seq<Saved>, caps: seq<Cap>)
    ensures forall n :: n in Added(saved, caps) <==> HasName(caps, n) && !WasSaved(saved, n)
  {
    if caps != [] {
      AddedMembers(saved, caps[1..]);
      assert forall x :: x in caps <==> x == caps[0] || x in caps[1..];
    }
  }

  /** The messages come in the order of the saved names, and of the list. */
  lemma {:induction false} MessagesInOrder(a: seq<Saved>, b: seq<Saved>, caps: seq<Cap>)
    ensures Deleted(a + b, caps) == Deleted(a, caps) + Deleted(b, caps)
    decreases |a|
  {
    if a == [] {
      assert a + b == b && Deleted(a, caps) == [];
    } else {
      MessagesInOrder(a[1..], b, caps);
      assert (a + b)[1..] == a[1..] + b && (a + b)[0] == a[0];
      var first := if HasName(caps, a[0].name) then [] else [a[0].name];
      assert first + (Deleted(a[1..], caps) + Deleted(b, caps)) == first + Deleted(a[1..], caps) + Deleted(b, caps);
    }
  }

  lemma {:induction false} NewMessagesInOrder(saved: seq<Saved>, a: seq<Cap>, b: seq<Cap>)
    ensures Added(saved, a + b) == Added(saved, a) + Added(saved, b)
    decreases |a|
  {
    if a == [] {
      assert a + b == b && Added(saved, a) == [];
    } else {
      NewMessagesInOrder(saved, a[1..], b);
      AddedCons(saved, a[0], a[1..] + b);
      AddedCons(saved, a[0], a[1..]);
      assert a + b == [a[0]] + (a[1..] + b) && a == [a[0]] + a[1..];
      var first := AddedOne(saved, a[0]);
      assert first + (Added(saved, a[1..]) + Added(saved, b)) == first + Added(saved, a[1..]) + Added(saved, b);
    }
  }

  function AddedOne(saved: seq<Saved>, c: Cap): seq<string> { if WasSaved(saved, c.name) then [] else [c.name] }

  lemma AddedCons(saved: seq<Saved>, c: Cap, caps: seq<Cap>)
    ensures Added(saved, [c] + caps) == AddedOne(saved, c) + Added(saved, caps)
  {
    assert ([c] + caps)[1..] == caps;
  }

  /** One message for a name that went or came, none for one that stayed. */
  lemma OneMessage(saved: seq<Saved>, s: Saved, c: Cap, caps: seq<Cap>)
    ensures Deleted([s], caps) == if HasName(caps, s.name) then [] else [s.name]
    ensures Added(saved, [c]) == if WasSaved(saved, c.name) then [] else [c.name]
  {
  }

  /** CAP DEL goes out for exactly the names that went and CAP NEW for exactly those that came; a
      capability beyond the saved ones is announced as new although it was there. */
  lemma Announcements(before: seq<Cap>, after: seq<Cap>)
    ensures var saved := Snapshot(before);
            var kept := before[..Min(|before|, MAXCLICAPS)];
            forall n ::
              && (n in Deleted(saved, after) <==> HasName(kept, n) && !HasName(after, n))
              && (n in Added(saved, after) <==> HasName(after, n) && !HasName(kept, n))
  {
    var saved := Snapshot(before);
    var kept := before[..Min(|before|, MAXCLICAPS)];
    DeletedMembers(saved, after);
    AddedMembers(saved, after);
    forall n ensures WasSaved(saved, n) <==> HasName(kept, n) {
      if WasSaved(saved, n) {
        var i :| 0 <= i < |saved| && saved[i].name == n;
        assert kept[i].name == n;
      }
      if HasName(kept, n) {
        var i :| 0 <= i < |kept| && kept[i].name == n;
        assert saved[i].name == n;
      }
    }
  }

  // ---------------------------------------------------------------- what survives

  /** Whether a capability bears an unload mark after these actions: the last module to delete it or to
      ask for it decides. */
  predicate MarkedAfter(acts: seq<Action>, name: string, marked: bool) {
    if acts == [] then marked
    else
      var a := acts[|acts| - 1];
      if a.MarkCap? && Fold(a.name) == Fold(name) then true
      else if a.AddCap? && Fold(a.req.name) == Fold(name) then false
      else MarkedAfter(acts[..|acts| - 1], name, marked)
  }

  /** The capability `c`, with this mark. */
  ghost predicate ListedAs(caps: seq<Cap>, c: Cap, marked: bool) {
    exists j | 0 <= j < |caps| :: SameCap(c, caps[j]) && caps[j].unloaded == marked
  }

  lemma ActMark(caps: seq<Cap>, a: Action, c: Cap, marked: bool)
    requires Ok(caps) && !a.DropUnused? && ListedAs(caps, c, marked)
    ensures ListedAs(Act(caps, a), c,
                     if a.MarkCap? && Fold(a.name) == Fold(c.name) then true
                     else if a.AddCap? && Fold(a.req.name) == Fold(c.name) then false else marked)
  {
    var j :| 0 <= j < |caps| && SameCap(c, caps[j]) && caps[j].unloaded == marked;
    if a.MarkCap? {
      MarkMark(caps, a.name, j);
    } else {
      AddMark(caps, a.req, j);
    }
  }

  /** The entry of this name is the only one. */
  lemma FindsOnly(caps: seq<Cap>, name: string, j: nat)
    requires Ok(caps) && j < |caps|
    ensures Find(caps, name) == j <==> Fold(name) == Fold(caps[j].name)
  {
    var k := Find(caps, name);
    if k < |caps| && k != j {
      Distinct(caps, j, k);
    }
  }

  lemma MarkMark(caps: seq<Cap>, name: string, j: nat)
    requires Ok(caps) && j < |caps|
    ensures ListedAs(Mark(caps, name), caps[j], if Fold(name) == Fold(caps[j].name) then true else caps[j].unloaded)
  {
    FindsOnly(caps, name, j);
    assert SameCap(caps[j], Mark(caps, name)[j]);
  }

  lemma AddMark(caps: seq<Cap>, req: Request, j: nat)
    requires Ok(caps) && j < |caps|
    ensures ListedAs(Add(caps, req).0, caps[j],
                     if Fold(req.name) == Fold(caps[j].name) then false else caps[j].unloaded)
  {
    FindsOnly(caps, req.name, j);
    var after := Add(caps, req).0;
    assert SameCap(caps[j], after[j + |after| - |caps|]);
  }

  lemma {:induction false} ActAllSnoc(caps: seq<Cap>, acts: seq<Action>)
    requires acts != []
    ensures ActAll(caps, acts) == Act(ActAll(caps, acts[..|acts| - 1]), acts[|acts| - 1])
    decreases acts
  {
    var n := |acts| - 1;
    if n > 0 {
      ActAllSnoc(Act(caps, acts[0]), acts[1..]);
      assert acts[1..][..n - 1] == acts[..n][1..] && acts[1..][n - 1] == acts[n];
    } else {
      assert acts[..0] == [] && acts[1..] == [];
    }
  }

  lemma {:induction false} ActAllMark(caps: seq<Cap>, acts: seq<Action>, c: Cap, marked: bool)
    requires Ok(caps) && InRehash(acts) && ListedAs(caps, c, marked)
    ensures Ok(ActAll(caps, acts)) && ListedAs(ActAll(caps, acts), c, MarkedAfter(acts, c.name, marked))
    decreases acts
  {
    if acts != [] {
      var before := acts[..|acts| - 1];
      assert forall i | 0 <= i < |before| :: before[i] == acts[i];
      ActAllMark(caps, before, c, marked);
      ActAllSnoc(caps, acts);
      var mid := ActAll(caps, before);
      ActOk(mid, acts[|acts| - 1]);
      ActMark(mid, acts[|acts| - 1], c, MarkedAfter(before, c.name, marked));
    }
  }

  /** A capability is there after a rehash, with its bit, exactly if the last module that deleted it or
      asked for it, if any did, asked for it. */
  lemma RehashKeepsReclaimed(before: seq<Cap>, acts: seq<Action>, i: nat)
    requires Ok(before) && InRehash(acts) && i < |before|
    ensures Listed(before[i], Rehashed(before, acts)) <==> !MarkedAfter(acts, before[i].name, before[i].unloaded)
  {
    var c, all := before[i], ActAll(before, acts);
    assert SameCap(c, before[i]);
    ActAllMark(before, acts, c, c.unloaded);
    UsedMembers(all);
    var marked := MarkedAfter(acts, c.name, c.unloaded);
    var j :| 0 <= j < |all| && SameCap(c, all[j]) && all[j].unloaded == marked;
    OnlyOneChanges(all, j);
    forall d | d in all && SameCap(c, d) ensures d == all[j] {
      var y :| 0 <= y < |all| && all[y] == d;
    }
    if Listed(c, Used(all)) {
      var x :| 0 <= x < |Used(all)| && SameCap(c, Used(all)[x]);
      assert Used(all)[x] in Used(all);
    }
    if !marked {
      assert all[j] in Used(all);
      var x :| 0 <= x < |Used(all)| && Used(all)[x] == all[j];
    }
  }

  /** Reloading the module that a capability belongs to keeps it and its bit. */
  lemma ReloadKeeps(before: seq<Cap>, i: nat, affects: bool)
    requires Ok(before) && i < |before|
    ensures var name := before[i].name;
            Listed(before[i], Rehashed(before, [MarkCap(name), AddCap(Request(name, true, affects))]))
  {
    var name := before[i].name;
    RehashKeepsReclaimed(before, [MarkCap(name), AddCap(Request(name, true, affects))], i);
  }
}
