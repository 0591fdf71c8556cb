/** Extended bans, ~letter:rest or ~name:rest: the registry, parsing and printing, and the handlers
    that check and convert a ban stacked behind another. */
module ExtBans {
  import opened Common
  import opened LetterOrder
  import opened BanMask

  /** MAXBANLEN + 1. */
  const BAN_SIZE: nat := 201

  /** A ban's check, and its conversion: the shared ones of this file, or its own. A check may be
      missing. */
  datatype Checker = NoCheck | SharedCheck | OwnCheck
  datatype Converter = SharedConv | OwnConv

  datatype Extban = Extban(
    letter: char, name: string, checker: Checker, converter: Converter,
    actModifier: bool, noStackChild: bool, unloaded: bool, preregistered: bool)

  // ---------------------------------------------------------------- parsing and printing

  /** is_extended_ban. */
  predicate IsExtended(s: string) { s != "" && s[0] == '~' && ':' in s[1..] }

  predicate Labels(e: Extban, lab: string) {
    (|lab| == 1 && e.letter == lab[0]) || e.name == lab
  }

  /** findmod_by_bantype_raw: the first entry with this letter or name, or |bans|. */
  function FindLabel(bans: seq<Extban>, lab: string): (k: nat)
    ensures k <= |bans|
    ensures k < |bans| ==> Labels(bans[k], lab)
    ensures forall i | 0 <= i < k :: !Labels(bans[i], lab)
  {
    if bans == [] || Labels(bans[0], lab) then 0 else 1 + FindLabel(bans[1..], lab)
  }

  datatype Found = Malformed | Unknown(rest: string) | Known(k: nat, rest: string)

  /** findmod_by_bantype. The first character, normally ~, is not looked at. */
  function FindMod(bans: seq<Extban>, s: string): (f: Found)
    ensures f.Known? ==> f.k < |bans| && |f.rest| < |s|
  {
    var p := IndexOf(s, ':');
    if p >= |s| - 1 then Malformed
    else if p == 0 then Unknown(s[1..])
    else
      var k := FindLabel(bans, s[1..p]);
      if k == |bans| then Unknown(s[p + 1..]) else Known(k, s[p + 1..])
  }

  function Label(e: Extban, named: bool): string { if named then e.name else [e.letter] }

  /** prefix_with_extban, into a buffer. */
  function Prefixed(e: Extban, named: bool, rest: string, size: nat): string {
    Clip("~" + Label(e, named) + ":" + rest, size)
  }

  /** prefix_with_extban accepts, and returns, a missing remainder. */
  function PrefixedIfAny(e: Extban, named: bool, rest: Option<string>): Option<string> {
    if rest.None? then None else Some(Prefixed(e, named, rest.value, BAN_SIZE))
  }

  predicate NameChar(c: char) { IsLower(c) || IsDigit(c) || c == '_' || c == '-' }

  /** is_valid_extban_name. */
  predicate ValidName(name: string) {
    0 < |name| <= 32 && forall i | 0 <= i < |name| :: NameChar(name[i])
  }

  predicate Sound(e: Extban) { IsAlnum(e.letter) && ValidName(e.name) }

  /** What registration guarantees. Names need not differ. */
  ghost predicate Ok(bans: seq<Extban>) {
    && (forall i | 0 <= i < |bans| :: Sound(bans[i]))
    && (forall i, j | 0 <= i < j < |bans| :: SortBefore(bans[i].letter, bans[j].letter))
  }

  /** No entry before `k` answers to its label. */
  ghost predicate FirstOfItsLabel(bans: seq<Extban>, k: nat, named: bool)
    requires k < |bans|
  {
    forall i | 0 <= i < k ::
      if named then bans[i].name != bans[k].name && [bans[i].letter] != bans[k].name
      else bans[i].name != [bans[k].letter]
  }

  lemma LetterDiffers(bans: seq<Extban>, i: nat, k: nat)
    requires Ok(bans) && i < k < |bans|
    ensures bans[i].letter != bans[k].letter
  {
    assert SortBefore(bans[i].letter, bans[k].letter);
  }

  lemma LabelPlain(bans: seq<Extban>, k: nat, named: bool)
    requires Ok(bans) && k < |bans|
    ensures Label(bans[k], named) != "" && ':' !in Label(bans[k], named)
  {
    assert Sound(bans[k]);
  }

  lemma FindsLabelIff(bans: seq<Extban>, k: nat, named: bool)
    requires Ok(bans) && k < |bans|
    ensures FindLabel(bans, Label(bans[k], named)) == k <==> FirstOfItsLabel(bans, k, named)
  {
    var lab := Label(bans[k], named);
    assert Labels(bans[k], lab);
    forall i | 0 <= i < k
      ensures Labels(bans[i], lab) <==>
              if named then bans[i].name == bans[k].name || [bans[i].letter] == bans[k].name
              else bans[i].name == [bans[k].letter]
    {
      LetterDiffers(bans, i, k);
    }
  }

  /** Reading back what was printed gives the same extended ban and remainder exactly when it was not cut,
      there is a remainder and no extended ban listed before answers to the label. */
  lemma PrintParseIff(bans: seq<Extban>, k: nat, named: bool, rest: string, size: nat)
    requires Ok(bans) && k < |bans|
    ensures FindMod(bans, Prefixed(bans[k], named, rest, size)) == Known(k, rest) <==>
            && |Label(bans[k], named)| + |rest| + 2 < size
            && rest != "" && FirstOfItsLabel(bans, k, named)
  {
    var lab := Label(bans[k], named);
    var s := "~" + lab + ":" + rest;
    LabelPlain(bans, k, named);
    assert s == ("~" + lab) + [':'] + rest;
    IndexOfFirst("~" + lab, ':', rest);
    if |s| < size {
      ClipShort(s, size);
      assert s[1..|lab| + 1] == lab && s[|lab| + 2..] == rest;
      FindsLabelIff(bans, k, named);
    } else {
      CutRestDiffers(bans, s, size);
    }
  }

  /** What is read from a ban that was cut is not its whole remainder. */
  lemma CutRestDiffers(bans: seq<Extban>, s: string, size: nat)
    requires |s| >= size && |s| > 0
    ensures var f := FindMod(bans, Clip(s, size));
            f.Known? ==> |f.rest| < |s| - IndexOf(s, ':') - 1
  {
    var t := Clip(s, size);
    var q := IndexOf(t, ':');
    if q < |t| {
      assert s[q] == ':';
      assert forall i | 0 <= i < q :: s[i] == t[i];
      assert IndexOf(s, ':') == q;
    }
  }

  /** Distinct names of at least two characters are enough. */
  lemma DistinctNamesSuffice(bans: seq<Extban>, k: nat, named: bool)
    requires Ok(bans) && k < |bans|
    requires forall i | 0 <= i < |bans| :: |bans[i].name| >= 2
    requires forall i, j | 0 <= i < j < |bans| :: bans[i].name != bans[j].name
    ensures FirstOfItsLabel(bans, k, named)
  {
  }

  // ---------------------------------------------------------------- registering

  datatype Stage = Testing | Initialising | Loaded
  datatype Request = Request(
    letter: char, name: string, checker: Checker, converter: Converter, actModifier: bool,
    noStackChild: bool)
  datatype Outcome = Invalid | Exists | Registered | Untouched

  function FindLetterOf(bans: seq<Extban>, letter: char): (k: nat)
    ensures k <= |bans|
    ensures k < |bans| ==> bans[k].letter == letter
    ensures forall i | 0 <= i < k :: bans[i].letter != letter
  {
    if bans == [] || bans[0].letter == letter then 0 else 1 + FindLetterOf(bans[1..], letter)
  }

  function Place(bans: seq<Extban>, letter: char): (p: nat)
    ensures p <= |bans|
    ensures p < |bans| ==> SortBefore(letter, bans[p].letter)
    ensures forall i | 0 <= i < p :: !SortBefore(letter, bans[i].letter)
  {
    if bans == [] || SortBefore(letter, bans[0].letter) then 0 else 1 + Place(bans[1..], letter)
  }

  /** The fields a registration sets; `Testing` is the stage at which an entry is only preregistered. */
  function Filled(e: Extban, req: Request, stage: Stage): Extban {
    Extban(req.letter, req.name, req.checker, req.converter, req.actModifier, req.noStackChild,
           e.unloaded, e.preregistered || stage.Testing?)
  }

  /** ExtbanAdd. */
  function Add(bans: seq<Extban>, req: Request, stage: Stage): (seq<Extban>, Outcome) {
    var k := FindLetterOf(bans, req.letter);
    if !IsAlnum(req.letter) || !ValidName(req.name) then (bans, Invalid)
    else if k == |bans| then
      var bare := Extban(req.letter, "", NoCheck, SharedConv, false, false, false, false);
      (InsertAt(bans, Place(bans, req.letter), Filled(bare, req, stage)), Registered)
    else if bans[k].unloaded then
      (bans[k := Filled(bans[k].(unloaded := false), req, stage)], Registered)
    else if stage.Initialising? && bans[k].preregistered then
      (bans[k := Filled(bans[k].(preregistered := false), req, stage)], Registered)
    else if stage.Testing? then (bans, Untouched)
    else (bans, Exists)
  }

  /** The entry a registration promises. It is only preregistered while a configuration is tested, or
      if it was when it had been unloaded. */
  predicate AsRequested(e: Extban, req: Request) {
    && e.letter == req.letter && e.name == req.name && e.checker == req.checker
    && e.converter == req.converter && e.actModifier == req.actModifier
    && e.noStackChild == req.noStackChild && !e.unloaded
  }

  /** A registration that succeeds lists the extended ban as requested, without an unload mark, and leaves
      the others as they are. */
  lemma AddRegisters(bans: seq<Extban>, req: Request, stage: Stage) returns (e: Extban)
    requires Ok(bans) && Add(bans, req, stage).1 == Registered
    ensures var after := Add(bans, req, stage).0;
            && e in after && AsRequested(e, req) && (stage.Testing? ==> e.preregistered)
            && (forall x :: x in after <==> x == e || (x in bans && x.letter != req.letter))
    ensures var k := FindLetterOf(bans, req.letter);
            e.preregistered <==> stage.Testing? || (k < |bans| && bans[k].unloaded && bans[k].preregistered)
  {
    var after := Add(bans, req, stage).0;
    var k := FindLetterOf(bans, req.letter);
    if k == |bans| {
      var p := Place(bans, req.letter);
      e := after[p];
      forall x | x in bans ensures x in after {
        var i :| 0 <= i < |bans| && bans[i] == x;
        assert after[if i < p then i else i + 1] == x;
      }
      forall x | x in after ensures x == e || x in bans {
        var i :| 0 <= i < |after| && after[i] == x;
        assert i != p ==> x == bans[if i < p then i else i - 1];
      }
    } else {
      e := after[k];
      forall i | 0 <= i < |bans| && i != k ensures bans[i].letter != req.letter && after[i] == bans[i] {
        LetterDiffers(bans, if i < k then i else k, if i < k then k else i);
      }
    }
  }

  /** When a registration is refused, or does nothing; the list is then as it was. */
  lemma AddRefusesIff(bans: seq<Extban>, req: Request, stage: Stage)
    requires Ok(bans)
    ensures var (after, o) := Add(bans, req, stage);
            var k := FindLetterOf(bans, req.letter);
            && (o == Invalid <==> !IsAlnum(req.letter) || !ValidName(req.name))
            && (o == Untouched <==> o != Invalid && k < |bans| && !bans[k].unloaded && stage.Testing?)
            && (o == Exists <==>
                  && o != Invalid && k < |bans| && !bans[k].unloaded && !stage.Testing?
                  && !(stage.Initialising? && bans[k].preregistered))
            && (o != Registered ==> after == bans)
  {
  }

  /** unload_all_unused_extbans. */
  function Used(bans: seq<Extban>): seq<Extban> {
    if bans == [] then []
    else if bans[0].unloaded then Used(bans[1..])
    else [bans[0]] + Used(bans[1..])
  }

  lemma {:induction false} UsedMembers(bans: seq<Extban>)
    ensures forall e :: e in Used(bans) <==> e in bans && !e.unloaded
  {
    if bans != [] {
      UsedMembers(bans[1..]);
    }
  }

  lemma {:induction false} UsedSplit(bans: seq<Extban>, k: nat)
    requires k < |bans|
    ensures Used(bans[..k + 1]) == Used(bans[..k]) + if bans[k].unloaded then [] else [bans[k]]
  {
    if k > 0 {
      UsedSplit(bans[1..], k - 1);
      assert bans[..k + 1][1..] == bans[1..][..k] && bans[..k][1..] == bans[1..][..k - 1];
    }
  }

  /** The sweep keeps the list in order. */
  lemma {:induction false} UsedOk(bans: seq<Extban>)
    requires Ok(bans)
    ensures Ok(Used(bans))
  {
    if bans != [] {
      var rest := bans[1..];
      assert forall i | 0 <= i < |rest| :: rest[i] == bans[i + 1];
      UsedOk(rest);
      UsedMembers(rest);
      forall e | e in Used(rest) ensures SortBefore(bans[0].letter, e.letter) {
        var i :| 0 <= i < |rest| && rest[i] == e;
        assert bans[i + 1] == e;
      }
    }
  }

  /** An extended ban that a module asks for during a rehash is there when it is over. */
  lemma ReclaimedSurvives(bans: seq<Extban>, req: Request, stage: Stage)
    requires Ok(bans) && Add(bans, req, stage).1 == Registered
    ensures exists e | e in Used(Add(bans, req, stage).0) :: AsRequested(e, req)
  {
    var e := AddRegisters(bans, req, stage);
    UsedMembers(Add(bans, req, stage).0);
  }

  /** Registration keeps the letters distinct, alphanumeric and sorted. */
  lemma AddOk(bans: seq<Extban>, req: Request, stage: Stage)
    requires Ok(bans)
    ensures Ok(Add(bans, req, stage).0)
  {
    var k := FindLetterOf(bans, req.letter);
    if IsAlnum(req.letter) && ValidName(req.name) {
      if k == |bans| {
        PlaceSplits(bans, req.letter);
        var bare := Extban(req.letter, "", NoCheck, SharedConv, false, false, false, false);
        InsertOk(bans, Place(bans, req.letter), Filled(bare, req, stage));
      } else {
        ReplaceOk(bans, k, Filled(bans[k].(unloaded := false), req, stage));
        ReplaceOk(bans, k, Filled(bans[k].(preregistered := false), req, stage));
      }
    }
  }

  lemma ReplaceOk(bans: seq<Extban>, k: nat, e: Extban)
    requires Ok(bans) && k < |bans| && Sound(e) && e.letter == bans[k].letter
    ensures Ok(bans[k := e])
  {
  }

  lemma InsertOk(bans: seq<Extban>, p: nat, e: Extban)
    requires Ok(bans) && p <= |bans| && Sound(e)
    requires forall i | 0 <= i < |bans| ::
               if i < p then SortBefore(bans[i].letter, e.letter) else SortBefore(e.letter, bans[i].letter)
    ensures Ok(InsertAt(bans, p, e))
  {
    var after := InsertAt(bans, p, e);
    forall i | 0 <= i < |after| ensures Sound(after[i]) {
      assert i != p ==> after[i] == bans[if i < p then i else i - 1];
    }
    forall i, j | 0 <= i < j < |after| ensures SortBefore(after[i].letter, after[j].letter) {
      assert i != p ==> after[i] == bans[if i < p then i else i - 1];
      assert j != p ==> after[j] == bans[if j < p then j else j - 1];
    }
  }

  lemma PlaceSplits(bans: seq<Extban>, c: char)
    requires Ok(bans) && IsAlnum(c) && FindLetterOf(bans, c) == |bans|
    ensures var p := Place(bans, c);
            forall i | 0 <= i < |bans| ::
              if i < p then SortBefore(bans[i].letter, c) else SortBefore(c, bans[i].letter)
  {
    var p := Place(bans, c);
    forall i | 0 <= i < |bans|
      ensures if i < p then SortBefore(bans[i].letter, c) else SortBefore(c, bans[i].letter)
    {
      assert Sound(bans[i]);
      OrderIsTotalOtherwise(c, bans[i].letter, c);
      if i > p {
        assert Sound(bans[p]);
        assert SortBefore(bans[p].letter, bans[i].letter);
        OrderIsTotalOtherwise(c, bans[p].letter, bans[i].letter);
      }
    }
  }

  // ---------------------------------------------------------------- stacked bans

  /** The handlers that modules bring along, by the letter of their extended ban. */
  datatype Own = Own(ok: (char, string) -> bool, conv: (char, string) -> Option<string>)

  predicate Forbidden(e: Extban) { e.actModifier || e.noStackChild }

  /** extban_is_ok_nuh_extban; `nested` when called from itself by way of another handler. */
  function Check(bans: seq<Extban>, own: Own, adding: bool, s: string, nested: bool): bool
    decreases |s|
  {
    if !IsExtended(s) then true
    else if nested then false
    else match FindMod(bans, s)
      case Known(k, rest) =>
        if Forbidden(bans[k]) then false
        else (match bans[k].checker
              case NoCheck => true
              case SharedCheck => Check(bans, own, adding, rest, true)
              case OwnCheck => own.ok(bans[k].letter, rest))
      case _ => !adding
  }

  /** extban_conv_param_nuh_or_extban. */
  function Conv(bans: seq<Extban>, own: Own, named: bool, s: string, nested: bool): Option<string>
    decreases |s|
  {
    if !IsExtended(s) then ConvertCopy(s)
    else if nested then None
    else match FindMod(bans, Clip(s, BAN_SIZE))
      case Known(k, rest) =>
        if Forbidden(bans[k]) then None
        else
          PrefixedIfAny(bans[k], named,
                        if bans[k].converter.SharedConv? then Conv(bans, own, named, rest, true)
                        else own.conv(bans[k].letter, rest))
      case _ => Some(s)
  }

  /** What may stand behind an extended ban that uses the shared check: a plain ban, or one more known
      extended ban, not an action modifier nor one that refuses to be stacked, in turn followed by a
      plain ban if it uses the shared check too. */
  lemma CheckIff(bans: seq<Extban>, own: Own, s: string)
    ensures Check(bans, own, true, s, false) <==>
            || !IsExtended(s)
            || (var f := FindMod(bans, s);
                && f.Known? && !bans[f.k].actModifier && !bans[f.k].noStackChild
                && (bans[f.k].checker.SharedCheck? ==> !IsExtended(f.rest))
                && (bans[f.k].checker.OwnCheck? ==> own.ok(bans[f.k].letter, f.rest)))
  {
  }

  /** When a ban is removed, the check is the same, but a ban of unknown type always passes. */
  lemma CheckRemovingIff(bans: seq<Extban>, own: Own, s: string)
    ensures Check(bans, own, false, s, false) <==>
            Check(bans, own, true, s, false) || (IsExtended(s) && !FindMod(bans, s).Known?)
  {
    var f := FindMod(bans, s);
    if f.Known? {
      assert Check(bans, own, false, f.rest, true) == Check(bans, own, true, f.rest, true);
    }
  }

  /** What the conversion gives: the converted mask; the label of the stacked ban before what the shared
      conversion or the ban's own makes of the rest; an unknown ban as it is. */
  lemma ConvGives(bans: seq<Extban>, own: Own, named: bool, s: string)
    requires Conv(bans, own, named, s, false).Some?
    ensures var r := Conv(bans, own, named, s, false).value;
            var f := FindMod(bans, Clip(s, BAN_SIZE));
            if !IsExtended(s) then Some(r) == Convert(Clip(s, MASK_SIZE))
            else if !f.Known? then r == s
            else
              var e := bans[f.k];
              var inner := if e.converter.SharedConv? then Convert(Clip(f.rest, MASK_SIZE))
                           else own.conv(e.letter, f.rest);
              inner.Some? && r == Clip("~" + (if named then e.name else [e.letter]) + ":" + inner.value, BAN_SIZE)
  {
  }

  /** What the shared conversion lets through: the same, with a convertible plain ban at the end; but an
      unknown ban passes as it is. */
  lemma ConvIff(bans: seq<Extban>, own: Own, named: bool, s: string)
    ensures Conv(bans, own, named, s, false).Some? <==>
            if !IsExtended(s) then Convertible(s)
            else
              var f := FindMod(bans, Clip(s, BAN_SIZE));
              f.Known? ==>
                && !bans[f.k].actModifier && !bans[f.k].noStackChild
                && (if bans[f.k].converter.SharedConv? then !IsExtended(f.rest) && Convertible(f.rest)
                    else own.conv(bans[f.k].letter, f.rest).Some?)
  {
    ConvertCopyFacts(s);
    var f := FindMod(bans, Clip(s, BAN_SIZE));
    if f.Known? {
      ConvertCopyFacts(f.rest);
    }
  }

  /** Modules use the two shared handlers together or bring both of their own. */
  ghost predicate Paired(bans: seq<Extban>) {
    forall i | 0 <= i < |bans| ::
      if bans[i].converter.SharedConv? then bans[i].checker.SharedCheck? else bans[i].checker.OwnCheck?
  }

  lemma LongLabelUnknown(bans: seq<Extban>, lab: string)
    requires Ok(bans) && |lab| > 32
    ensures FindLabel(bans, lab) == |bans|
  {
    forall i | 0 <= i < |bans| ensures !Labels(bans[i], lab) {
      assert Sound(bans[i]);
    }
  }

  lemma SliceOfPrefix(s: string, n: nat, i: nat, j: nat)
    requires i <= j <= n <= |s|
    ensures s[..n][i..j] == s[i..j]
  {
  }

  /** The conversion works on a copy that may be cut; the label, and with it the entry found, never is. */
  lemma CutKeepsLabel(bans: seq<Extban>, s: string)
    requires Ok(bans)
    ensures var f, g := FindMod(bans, s), FindMod(bans, Clip(s, BAN_SIZE));
            && (f.Known? <==> g.Known?)
            && (f.Known? ==> f.k == g.k && g.rest <= f.rest)
  {
    var t := Clip(s, BAN_SIZE);
    var p, q := IndexOf(s, ':'), IndexOf(t, ':');
    if p < |t| - 1 {
      assert s[p] == t[p] && p == q;
      if p > 0 {
        SliceOfPrefix(s, |t|, 1, p);
      }
      assert t[p + 1..] == s[p + 1..][..|t| - p - 1];
    } else {
      assert q >= |t| - 1 by {
        assert q < |t| ==> s[q] == ':';
      }
      if p < |s| - 1 {
        LongLabelUnknown(bans, s[1..p]);
      }
    }
  }

  /** When the check and the conversion of a ban being added agree on it. A plain ban must be
      convertible. A stacked one must be known; then it is forbidden, or has own handlers that agree on
      what they get, or the shared ones: then, if it is stacked twice, that must show in the copy or the
      copy must not be convertible, and otherwise the copy must be convertible. */
  ghost predicate AgreeOn(bans: seq<Extban>, own: Own, s: string) {
    if !IsExtended(s) then Convertible(s)
    else
      var f, g := FindMod(bans, s), FindMod(bans, Clip(s, BAN_SIZE));
      && f.Known? && g.Known?
      && (|| Forbidden(bans[f.k])
          || (if bans[f.k].converter.OwnConv? then
                own.ok(bans[f.k].letter, f.rest) == own.conv(bans[f.k].letter, g.rest).Some?
              else if IsExtended(f.rest) then IsExtended(g.rest) || !Convertible(g.rest)
              else Convertible(g.rest)))
  }

  lemma CheckAndConvAgreeIff(bans: seq<Extban>, own: Own, named: bool, s: string)
    requires Ok(bans) && Paired(bans)
    ensures (Check(bans, own, true, s, false) <==> Conv(bans, own, named, s, false).Some?) <==>
            AgreeOn(bans, own, s)
  {
    CheckIff(bans, own, s);
    ConvIff(bans, own, named, s);
    CutKeepsLabel(bans, s);
    var f, g := FindMod(bans, s), FindMod(bans, Clip(s, BAN_SIZE));
    if f.Known? && !IsExtended(f.rest) {
      PrefixStaysPlain(f.rest, g.rest);
    }
  }

  lemma PrefixStaysPlain(s: string, t: string)
    requires !IsExtended(s) && t <= s
    ensures !IsExtended(t)
  {
    assert t != "" ==> s[0] == t[0] && t[1..] == s[1..][..|t| - 1];
  }

  /** A registry with one ban that uses the shared handlers. */
  function OneShared(): seq<Extban> {
    [Extban('a', "aa", SharedCheck, SharedConv, false, false, false, false)]
  }

  lemma OneSharedOk()
    ensures Ok(OneShared()) && Paired(OneShared())
  {
    assert ValidName("aa");
  }

  /** A ban stacked twice, the second time behind a long mask. */
  function LongBan(xs: string): string { "~a:" + ("~@" + xs + ":y") }

  /** The cut can hide the second stacking: a long ban that the check refuses is converted. */
  lemma CutHidesStacking(own: Own, named: bool, xs: string)
    requires |xs| >= 195 && forall i | 0 <= i < |xs| :: xs[i] == 'x'
    ensures Ok(OneShared()) && Paired(OneShared())
    ensures !Check(OneShared(), own, true, LongBan(xs), false)
    ensures Conv(OneShared(), own, named, LongBan(xs), false).Some?
  {
    var rest, cut := "~@" + xs + ":y", "~@" + xs[..195];
    OneSharedOk();
    FindsShared(rest);
    FindsShared(cut);
    HiddenColon(xs);
    LongBanCut(xs);
    SlipsThrough(own, named, LongBan(xs), rest, cut);
  }

  lemma LongBanCut(xs: string)
    requires |xs| >= 195
    ensures Clip(LongBan(xs), BAN_SIZE) == "~a:" + ("~@" + xs[..195]) && IsExtended(LongBan(xs))
  {
    assert LongBan(xs)[1..][1] == ':';
  }

  lemma SlipsThrough(own: Own, named: bool, s: string, rest: string, cut: string)
    requires IsExtended(s) && IsExtended(rest) && !IsExtended(cut) && Convertible(cut)
    requires FindMod(OneShared(), s) == Known(0, rest)
    requires FindMod(OneShared(), Clip(s, BAN_SIZE)) == Known(0, cut)
    ensures !Check(OneShared(), own, true, s, false) && Conv(OneShared(), own, named, s, false).Some?
  {
    CheckIff(OneShared(), own, s);
    ConvIff(OneShared(), own, named, s);
  }

  lemma HiddenColon(xs: string)
    requires |xs| >= 195 && forall i | 0 <= i < |xs| :: xs[i] == 'x'
    ensures IsExtended("~@" + xs + ":y")
    ensures !IsExtended("~@" + xs[..195]) && Convertible("~@" + xs[..195])
  {
    var rest, cut := "~@" + xs + ":y", "~@" + xs[..195];
    assert rest[1..][1 + |xs|] == ':';
    assert forall i | 0 <= i < |cut[1..]| :: cut[1..][i] != ':';
    assert Clip(cut, MASK_SIZE)[1] == '@';
  }

  lemma FindsShared(rest: string)
    requires rest != ""
    ensures FindMod(OneShared(), "~a:" + rest) == Known(0, rest)
  {
    var s := "~a:" + rest;
    assert s == "~a" + [':'] + rest;
    IndexOfFirst("~a", ':', rest);
    assert s[1..2] == "a" && s[3..] == rest;
    assert Labels(OneShared()[0], "a");
  }

  /** A ban of a type nobody registered is refused by the check and passed on by the conversion. */
  lemma UnknownDisagrees(own: Own, named: bool)
    ensures Ok(OneShared()) && Paired(OneShared())
    ensures !Check(OneShared(), own, true, "~b:c", false)
    ensures Conv(OneShared(), own, named, "~b:c", false) == Some("~b:c")
  {
    OneSharedOk();
    var s := "~b:c";
    assert s == "~b" + [':'] + "c";
    IndexOfFirst("~b", ':', "c");
    assert s[1..2] == "b" && s[3..] == "c";
    assert FindMod(OneShared(), s) == Unknown("c");
    ClipShort(s, BAN_SIZE);
  }

  // ---------------------------------------------------------------- converting twice

  /** A module's own conversion gives something, and gives it again. */
  ghost predicate OwnStable(own: Own) {
    forall c, r | own.conv(c, r).Some? ::
      own.conv(c, r).value != "" && own.conv(c, own.conv(c, r).value) == own.conv(c, r)
  }

  /** A plain ban does not turn into an extended one. */
  lemma ConvertedStaysPlain(s: string)
    requires !IsExtended(s) && ConvertCopy(s).Some?
    ensures !IsExtended(ConvertCopy(s).value)
  {
    var mask := Clip(s, MASK_SIZE);
    var n, u, h := ConvertedIsProper(mask);
    var r := n + "!" + u + "@" + h;
    assert r[0] == n[0];
    if r[0] == '~' {
      forall i | 0 <= i < |mask| ensures mask[i] != ':' {
        assert i > 0 ==> mask[i] == s[1..][i - 1];
      }
      assert ':' !in n && ':' !in u && ':' !in h;
      assert ':' !in r;
      assert forall c | c in r[1..] :: c in r;
    }
  }

  /** What the inner conversion gives, it gives again. */
  lemma InnerStable(bans: seq<Extban>, own: Own, named: bool, e: Extban, rest: string, inner: string)
    requires OwnStable(own)
    requires Some(inner) == if e.converter.SharedConv? then Conv(bans, own, named, rest, true)
                            else own.conv(e.letter, rest)
    ensures inner != ""
    ensures Some(inner) == if e.converter.SharedConv? then Conv(bans, own, named, inner, true)
                           else own.conv(e.letter, inner)
  {
    if e.converter.SharedConv? {
      ConvertCopyFacts(rest);
      ConvertedStaysPlain(rest);
    }
  }

  /** What the conversion finds behind the label of a stacked ban, converted. */
  function Inner(bans: seq<Extban>, own: Own, named: bool, k: nat, rest: string): Option<string>
    requires k < |bans|
  {
    if bans[k].converter.SharedConv? then Conv(bans, own, named, rest, true) else own.conv(bans[k].letter, rest)
  }

  /** What is printed for a stacked ban fits the buffer. */
  predicate Fits(e: Extban, named: bool, inner: string) { |Label(e, named)| + |inner| + 2 < BAN_SIZE }

  /** A stacked ban is printed under an unambiguous label and without being cut. */
  ghost predicate PrintsWell(bans: seq<Extban>, own: Own, named: bool, s: string) {
    var g := FindMod(bans, Clip(s, BAN_SIZE));
    IsExtended(s) && g.Known? ==>
      && FirstOfItsLabel(bans, g.k, named)
      && (Inner(bans, own, named, g.k, g.rest).Some? ==>
            Fits(bans[g.k], named, Inner(bans, own, named, g.k, g.rest).value))
  }

  /** With the shared conversion it always fits. */
  lemma SharedFits(bans: seq<Extban>, own: Own, named: bool, k: nat, rest: string)
    requires Ok(bans) && k < |bans| && bans[k].converter.SharedConv?
    ensures Inner(bans, own, named, k, rest).Some? ==>
              Fits(bans[k], named, Inner(bans, own, named, k, rest).value)
  {
    ConvertCopyFacts(rest);
    assert Sound(bans[k]);
  }

  /** Converting a converted ban changes nothing, when it was not cut and its label is unambiguous. */
  lemma ConvIdempotent(bans: seq<Extban>, own: Own, named: bool, s: string)
    requires Ok(bans) && OwnStable(own) && Conv(bans, own, named, s, false).Some?
    requires PrintsWell(bans, own, named, s)
    ensures Conv(bans, own, named, Conv(bans, own, named, s, false).value, false) ==
            Conv(bans, own, named, s, false)
  {
    if !IsExtended(s) {
      ConvertCopyFacts(s);
      ConvertedStaysPlain(s);
    } else {
      var f := FindMod(bans, Clip(s, BAN_SIZE));
      if f.Known? {
        StackedIdempotent(bans, own, named, s, f.k, f.rest);
      }
    }
  }

  lemma StackedIdempotent(bans: seq<Extban>, own: Own, named: bool, s: string, k: nat, rest: string)
    requires Ok(bans) && OwnStable(own) && IsExtended(s) && Conv(bans, own, named, s, false).Some?
    requires FindMod(bans, Clip(s, BAN_SIZE)) == Known(k, rest) && PrintsWell(bans, own, named, s)
    ensures Conv(bans, own, named, Conv(bans, own, named, s, false).value, false) ==
            Conv(bans, own, named, s, false)
  {
    var e := bans[k];
    var inner := Inner(bans, own, named, k, rest).value;
    assert Conv(bans, own, named, s, false) == Some(Prefixed(e, named, inner, BAN_SIZE));
    InnerStable(bans, own, named, e, rest, inner);
    ConvOfPrefixed(bans, own, named, k, inner);
  }

  /** Converting something printed converts what is behind the label. */
  lemma ConvOfPrefixed(bans: seq<Extban>, own: Own, named: bool, k: nat, inner: string)
    requires Ok(bans) && k < |bans| && FirstOfItsLabel(bans, k, named) && inner != ""
    requires Fits(bans[k], named, inner) && !Forbidden(bans[k])
    requires Some(inner) == if bans[k].converter.SharedConv? then Conv(bans, own, named, inner, true)
                            else own.conv(bans[k].letter, inner)
    ensures Conv(bans, own, named, Prefixed(bans[k], named, inner, BAN_SIZE), false) ==
            Some(Prefixed(bans[k], named, inner, BAN_SIZE))
  {
    var r := Prefixed(bans[k], named, inner, BAN_SIZE);
    var lab := Label(bans[k], named);
    assert |"~" + lab + ":" + inner| < BAN_SIZE;
    ClipShort("~" + lab + ":" + inner, BAN_SIZE);
    ClipShort(r, BAN_SIZE);
    LabelPlain(bans, k, named);
    assert r[1..][|lab|] == ':';
    PrintParseIff(bans, k, named, inner, BAN_SIZE);
  }
}
