/** The client capability registry: a list of capabilities, each with its own bit. */
module ClientCaps {
  import opened Common

  /** A word of capability bits, by bit number: 0 to 63 in a `long`. */
  type Word = set<nat>

  const LONG_BITS: nat := 64

  /** Bit 0 is CAP_INVERT, a marker that is never allocated. */
  const CAP_INVERT: nat := 0

  /** Room in the arrays that save the capabilities: 63 bits and 16 advertise-only ones. */
  const MAXCLICAPS: nat := 79

  datatype Cap = Cap(name: string, bit: Option<nat>, affects: bool, tagged: bool, unloaded: bool)

  /** `wantsBit` is false for a capability that is only advertised. */
  datatype Request = Request(name: string, wantsBit: bool, affects: bool)

  datatype Outcome = Exists | NoSpace | Aborted | Registered(bit: Option<nat>)

  datatype Action = AddCap(req: Request) | MarkCap(name: string) | DropUnused

  // ---------------------------------------------------------------- the list

  function FoldChar(c: char): char {
    if IsUpper(c) then (c as int + 32) as char else c
  }

  /** Names are compared without regard to case. */
  function Fold(s: string): string { seq(|s|, i requires 0 <= i < |s| => FoldChar(s[i])) }

  /** Two names are the same exactly if they differ at most in the case of letters. */
  lemma FoldIff(a: string, b: string)
    ensures Fold(a) == Fold(b) <==>
            && |a| == |b|
            && forall i | 0 <= i < |a| ::
                 || a[i] == b[i]
                 || (IsUpper(a[i]) && IsLower(b[i]) && b[i] as int == a[i] as int + 32)
                 || (IsLower(a[i]) && IsUpper(b[i]) && a[i] as int == b[i] as int + 32)
  {
    if Fold(a) == Fold(b) {
      assert |a| == |Fold(a)| == |b|;
      forall i | 0 <= i < |a| ensures FoldChar(a[i]) == FoldChar(b[i]) {
        assert Fold(a)[i] == Fold(b)[i];
      }
    } else if |a| == |b| {
      var i :| 0 <= i < |a| && Fold(a)[i] != Fold(b)[i];
      assert FoldChar(a[i]) != FoldChar(b[i]);
    }
  }

  function Find(caps: seq<Cap>, name: string): (k: nat)
    ensures k <= |caps|
    ensures k < |caps| ==> Fold(caps[k].name) == Fold(name)
    ensures forall i | 0 <= i < k :: Fold(caps[i].name) != Fold(name)
  {
    if caps == [] || Fold(caps[0].name) == Fold(name) then 0 else 1 + Find(caps[1..], name)
  }

  predicate Taken(caps: seq<Cap>, b: nat) { exists c | c in caps :: c.bit == Some(b) }

  /** The lowest bit at or above `from` that no capability has, or LONG_BITS. */
  function FreeBit(caps: seq<Cap>, from: nat): (b: nat)
    requires from <= LONG_BITS
    ensures from <= b <= LONG_BITS
    ensures b < LONG_BITS ==> !Taken(caps, b)
    ensures forall i | from <= i < b :: Taken(caps, i)
    decreases LONG_BITS - from
  {
    if from == LONG_BITS || !Taken(caps, from) then from else FreeBit(caps, from + 1)
  }

  function Bit(c: Cap): Word { if c.bit.Some? then {c.bit.value} else {} }

  /** All bits held by the capabilities of the list. */
  function Bits(caps: seq<Cap>): (w: Word)
    ensures forall b :: b in w <==> Taken(caps, b)
  {
    if caps == [] then {} else Bit(caps[0]) + Bits(caps[1..])
  }

  /** ClientCapabilityAdd. New capabilities go to the front of the list. */
  function Add(caps: seq<Cap>, req: Request): (seq<Cap>, Outcome) {
    var k := Find(caps, req.name);
    if k < |caps| then
      if !caps[k].unloaded then (caps, Exists)
      else
        var c := caps[k].(unloaded := false, affects := req.affects);
        (caps[k := c], if c.bit.Some? && !req.wantsBit then Aborted else Registered(c.bit))
    else
      var b := FreeBit(caps, 1);
      if req.wantsBit && b == LONG_BITS then (caps, NoSpace)
      else
        var held := if req.wantsBit then Some(b) else None;
        ([Cap(req.name, held, req.affects, false, false)] + caps, Registered(held))
  }

  function Mark(caps: seq<Cap>, name: string): seq<Cap> {
    var k := Find(caps, name);
    if k == |caps| then caps else caps[k := caps[k].(unloaded := true)]
  }

  /** unload_all_unused_caps. */
  function Used(caps: seq<Cap>): seq<Cap> {
    if caps == [] then []
    else if caps[0].unloaded then Used(caps[1..])
    else [caps[0]] + Used(caps[1..])
  }

  function Act(caps: seq<Cap>, a: Action): seq<Cap> {
    match a
    case AddCap(req) => Add(caps, req).0
    case MarkCap(name) => Mark(caps, name)
    case DropUnused => Used(caps)
  }

  function ActAll(caps: seq<Cap>, acts: seq<Action>): seq<Cap>
    decreases acts
  {
    if acts == [] then caps else ActAll(Act(caps, acts[0]), acts[1..])
  }

  // ---------------------------------------------------------------- what every action keeps

  ghost predicate Apart(c: Cap, d: Cap) {
    Fold(c.name) != Fold(d.name) && (c.bit.Some? ==> c.bit != d.bit)
  }

  ghost predicate GoodBit(c: Cap) { c.bit.Some? ==> CAP_INVERT < c.bit.value < LONG_BITS }

  /** Names differ, and so do bits; no capability has the marker bit. */
  ghost predicate Ok(caps: seq<Cap>) {
    && (forall i, j | 0 <= i < j < |caps| :: Apart(caps[i], caps[j]))
    && (forall i | 0 <= i < |caps| :: GoodBit(caps[i]))
  }

  lemma OkTail(caps: seq<Cap>)
    requires Ok(caps) && caps != []
    ensures Ok(caps[1..])
    ensures forall c | c in caps[1..] :: Apart(caps[0], c)
  {
    forall i, j | 0 <= i < j < |caps[1..]| ensures Apart(caps[1..][i], caps[1..][j]) {
      assert Apart(caps[i + 1], caps[j + 1]);
    }
    forall i | 0 <= i < |caps[1..]| ensures GoodBit(caps[1..][i]) {
      assert GoodBit(caps[i + 1]);
    }
    forall c | c in caps[1..] ensures Apart(caps[0], c) {
      var i :| 0 <= i < |caps[1..]| && caps[1..][i] == c;
      assert Apart(caps[0], caps[i + 1]);
    }
  }

  lemma OkCons(c: Cap, caps: seq<Cap>)
    requires Ok(caps) && GoodBit(c) && forall d | d in caps :: Apart(c, d)
    ensures Ok([c] + caps)
  {
    var all := [c] + caps;
    forall i, j | 0 <= i < j < |all| ensures Apart(all[i], all[j]) {
      assert i > 0 ==> Apart(caps[i - 1], caps[j - 1]);
      assert all[j] in caps;
    }
  }

  /** `d` is the capability `c`, perhaps with other flags. */
  predicate SameCap(c: Cap, d: Cap) { c.name == d.name && c.bit == d.bit }

  /** Each capability of the one list is in the other. */
  ghost predicate Within(before: seq<Cap>, after: seq<Cap>) {
    forall i | 0 <= i < |before| :: Listed(before[i], after)
  }

  ghost predicate Listed(c: Cap, caps: seq<Cap>) {
    exists j | 0 <= j < |caps| :: SameCap(c, caps[j])
  }

  lemma {:induction false} UsedSplit(caps: seq<Cap>, k: nat)
    requires k < |caps|
    ensures Used(caps[..k + 1]) == Used(caps[..k]) + if caps[k].unloaded then [] else [caps[k]]
  {
    if k > 0 {
      UsedSplit(caps[1..], k - 1);
      assert caps[..k + 1][1..] == caps[1..][..k] && caps[..k][1..] == caps[1..][..k - 1];
    }
  }

  lemma {:induction false} UsedMembers(caps: seq<Cap>)
    ensures forall c :: c in Used(caps) <==> c in caps && !c.unloaded
  {
    if caps != [] {
      UsedMembers(caps[1..]);
    }
  }

  lemma {:induction false} UsedOk(caps: seq<Cap>)
    requires Ok(caps)
    ensures Ok(Used(caps))
  {
    if caps != [] {
      OkTail(caps);
      UsedOk(caps[1..]);
      UsedMembers(caps[1..]);
      if !caps[0].unloaded {
        OkCons(caps[0], Used(caps[1..]));
      }
    }
  }

  /** Changing only the flags of an entry keeps the list well-formed, with the same capabilities. */
  lemma FlagsOk(caps: seq<Cap>, k: nat, c: Cap)
    requires Ok(caps) && k < |caps| && SameCap(caps[k], c)
    ensures Ok(caps[k := c]) && Within(caps, caps[k := c])
  {
    var after := caps[k := c];
    forall i, j | 0 <= i < j < |after| ensures Apart(after[i], after[j]) {
      assert Apart(caps[i], caps[j]);
    }
    forall i | 0 <= i < |after| ensures GoodBit(after[i]) {
      assert GoodBit(caps[i]);
    }
    forall i | 0 <= i < |caps| ensures Listed(caps[i], after) {
      assert SameCap(caps[i], after[i]);
    }
  }

  lemma AddOk(caps: seq<Cap>, req: Request)
    requires Ok(caps)
    ensures Ok(Add(caps, req).0) && Within(caps, Add(caps, req).0)
  {
    var (after, outcome) := Add(caps, req);
    var k := Find(caps, req.name);
    if k < |caps| {
      FlagsOk(caps, k, caps[k]);
      FlagsOk(caps, k, caps[k].(unloaded := false, affects := req.affects));
    } else if |after| > |caps| {
      NewOk(caps, after[0]);
    } else {
      forall i | 0 <= i < |caps| ensures Listed(caps[i], caps) {
        assert SameCap(caps[i], caps[i]);
      }
    }
  }

  lemma NewOk(caps: seq<Cap>, c: Cap)
    requires Ok(caps) && GoodBit(c) && Find(caps, c.name) == |caps|
    requires c.bit.Some? ==> !Taken(caps, c.bit.value)
    ensures Ok([c] + caps) && Within(caps, [c] + caps)
  {
    forall d | d in caps ensures Apart(c, d) {
    }
    OkCons(c, caps);
    forall i | 0 <= i < |caps| ensures Listed(caps[i], [c] + caps) {
      assert SameCap(caps[i], ([c] + caps)[i + 1]);
    }
  }

  lemma ActOk(caps: seq<Cap>, a: Action)
    requires Ok(caps)
    ensures Ok(Act(caps, a))
    ensures !a.DropUnused? ==> Within(caps, Act(caps, a))
  {
    match a
    case AddCap(req) => AddOk(caps, req);
    case MarkCap(name) =>
      var k := Find(caps, name);
      if k < |caps| {
        FlagsOk(caps, k, caps[k].(unloaded := true));
      } else {
        forall i | 0 <= i < |caps| ensures Listed(caps[i], caps) {
          assert SameCap(caps[i], caps[i]);
        }
      }
    case DropUnused => UsedOk(caps);
  }

  /** In a well-formed list, different entries have different names and bits. */
  lemma Distinct(caps: seq<Cap>, i: nat, j: nat)
    requires Ok(caps) && i < |caps| && j < |caps| && i != j
    ensures Apart(caps[i], caps[j]) && Apart(caps[j], caps[i])
  {
    assert if i < j then Apart(caps[i], caps[j]) else Apart(caps[j], caps[i]);
  }

  lemma WithinTrans(a: seq<Cap>, b: seq<Cap>, c: seq<Cap>)
    requires Within(a, b) && Within(b, c)
    ensures Within(a, c)
  {
    forall i | 0 <= i < |a| ensures Listed(a[i], c) {
      assert Listed(a[i], b);
      var j :| 0 <= j < |b| && SameCap(a[i], b[j]);
      assert Listed(b[j], c);
      var k :| 0 <= k < |c| && SameCap(b[j], c[k]);
      assert SameCap(a[i], c[k]);
    }
  }

  // ---------------------------------------------------------------- what the actions do

  /** A registration that succeeds tells the module the bit of a capability of that name that bears no
      unload mark and has the flags asked for. The others stay as they are, and no other is added. */
  lemma AddRegisters(caps: seq<Cap>, req: Request) returns (c: Cap)
    requires Ok(caps) && Add(caps, req).1.Registered?
    ensures var (after, o) := Add(caps, req);
            && c in after && Fold(c.name) == Fold(req.name) && c.bit == o.bit && !c.unloaded
            && c.affects == req.affects && (c.bit.Some? ==> req.wantsBit)
            && (Find(caps, req.name) == |caps| ==> c.name == req.name && (req.wantsBit ==> c.bit.Some?))
            && (forall d :: d in after && d != c ==> d in caps)
            && (forall d :: d in caps && Fold(d.name) != Fold(req.name) ==> d in after)
    ensures c in Used(Add(caps, req).0)
  {
    var after := Add(caps, req).0;
    var k := Find(caps, req.name);
    UsedMembers(after);
    if k < |caps| {
      c := after[k];
      forall d | d in caps && Fold(d.name) != Fold(req.name) ensures d in after {
        var i :| 0 <= i < |caps| && caps[i] == d;
        assert after[i] == d;
      }
    } else {
      c := after[0];
    }
  }

  /** When a registration is refused, which leaves the list as it was, or aborts the server. */
  lemma AddRefusesIff(caps: seq<Cap>, req: Request)
    requires Ok(caps)
    ensures var (after, o) := Add(caps, req);
            var k := Find(caps, req.name);
            && (o == Exists <==> k < |caps| && !caps[k].unloaded)
            && (o == NoSpace <==> k == |caps| && req.wantsBit && AllTaken(caps))
            && (o == Aborted <==> k < |caps| && caps[k].unloaded && caps[k].bit.Some? && !req.wantsBit)
            && (o == Exists || o == NoSpace ==> after == caps)
  {
    NoFreeBit(caps);
  }

  ghost predicate AllTaken(caps: seq<Cap>) { forall b | 1 <= b < 64 :: Taken(caps, b) }

  lemma NoFreeBit(caps: seq<Cap>)
    ensures FreeBit(caps, 1) == LONG_BITS <==> AllTaken(caps)
  {
  }

  // ---------------------------------------------------------------- lowest free bits

  function WithBit(caps: seq<Cap>): nat {
    if caps == [] then 0 else WithBit(caps[1..]) + if caps[0].bit.Some? then 1 else 0
  }

  lemma {:induction false} BitsCount(caps: seq<Cap>)
    requires Ok(caps)
    ensures |Bits(caps)| == WithBit(caps)
  {
    if caps != [] {
      OkTail(caps);
      BitsCount(caps[1..]);
      if caps[0].bit.Some? {
        assert !Taken(caps[1..], caps[0].bit.value);
      }
    }
  }

  /** The allocated bit is at most one more than the number of bits in use. */
  lemma LowestFree(caps: seq<Cap>)
    requires Ok(caps)
    ensures FreeBit(caps, 1) <= WithBit(caps) + 1
  {
    var b := FreeBit(caps, 1);
    BitsCount(caps);
    forall i | i in Range(1, b) ensures i in Bits(caps) {
      assert Taken(caps, i);
    }
    RangeSize(1, b);
    SubsetSize(Range(1, b), Bits(caps));
  }

  ghost predicate BitsUpTo(caps: seq<Cap>, n: nat) {
    forall i | 0 <= i < |caps| && caps[i].bit.Some? :: caps[i].bit.value <= n
  }

  /** At no point more than `n` capabilities with a bit. */
  ghost predicate NeverMoreThan(caps: seq<Cap>, acts: seq<Action>, n: nat)
    decreases acts
  {
    WithBit(caps) <= n && (acts != [] ==> NeverMoreThan(Act(caps, acts[0]), acts[1..], n))
  }

  lemma ActBits(caps: seq<Cap>, a: Action, n: nat)
    requires Ok(caps) && BitsUpTo(caps, n) && WithBit(Act(caps, a)) <= n
    ensures BitsUpTo(Act(caps, a), n)
  {
    match a
    case AddCap(req) =>
      LowestFree(caps);
      var after := Add(caps, req).0;
      if |after| > |caps| {
        assert after[1..] == caps;
      }
    case MarkCap(name) =>
    case DropUnused =>
      UsedMembers(caps);
      forall i | 0 <= i < |Used(caps)| && Used(caps)[i].bit.Some?
        ensures Used(caps)[i].bit.value <= n
      {
        assert Used(caps)[i] in caps;
      }
  }

  /** If no more than `n` capabilities with a bit are ever registered at once, no bit above `n` is ever
      used; with 30, the bits fit an `int`. */
  lemma {:induction false} LowBitsOnly(caps: seq<Cap>, acts: seq<Action>, n: nat)
    requires Ok(caps) && BitsUpTo(caps, n) && NeverMoreThan(caps, acts, n)
    ensures Ok(ActAll(caps, acts)) && BitsUpTo(ActAll(caps, acts), n)
    decreases acts
  {
    if acts != [] {
      ActOk(caps, acts[0]);
      assert WithBit(Act(caps, acts[0])) <= n;
      ActBits(caps, acts[0], n);
      LowBitsOnly(Act(caps, acts[0]), acts[1..], n);
    }
  }
}
