/** The code of the extended bans: the registry, and the two shared handlers, which call each other
    through the handlers of the stacked ban and limit themselves with a counter each. */
module ExtBanApi {
  import opened Common
  import opened LetterOrder
  import opened BanMask
  import opened ExtBans

  class Registry {
    var bans: seq<Extban>
    var rehashing: bool
    /** extban_is_ok_recursion and extban_recursion. */
    var checkDepth: nat
    var convDepth: nat

    constructor ()
      ensures bans == [] && Ok(bans) && !rehashing && checkDepth == 0 && convDepth == 0
    {
      bans, rehashing, checkDepth, convDepth := [], false, 0, 0;
    }

    /** findmod_by_bantype_raw. */
    method FindRaw(lab: string) returns (k: nat)
      ensures k == FindLabel(bans, lab)
    {
      k := 0;
      while k < |bans| && !((|lab| == 1 && bans[k].letter == lab[0]) || bans[k].name == lab)
        invariant k <= |bans| && FindLabel(bans, lab) == k + FindLabel(bans[k..], lab)
      {
        k := k + 1;
      }
    }

    /** findmod_by_bantype. */
    method FindByBantype(s: string) returns (f: Found)
      ensures f == FindMod(bans, s)
    {
      var p := IndexOf(s, ':');
      if p == |s| || p == |s| - 1 {
        return Malformed;
      }
      if p == 0 {
        return Unknown(s[1..]);
      }
      var k := FindRaw(s[1..p]);
      f := if k == |bans| then Unknown(s[p + 1..]) else Known(k, s[p + 1..]);
    }

    /** extban_add_sorted. */
    method AddSorted(e: Extban)
      modifies this`bans
      ensures bans == InsertAt(old(bans), Place(old(bans), e.letter), e)
    {
      var p := 0;
      while p < |bans| && !SortBefore(e.letter, bans[p].letter)
        invariant p <= |bans| && Place(bans, e.letter) == p + Place(bans[p..], e.letter)
      {
        p := p + 1;
      }
      bans := InsertAt(bans, p, e);
    }

    /** ExtbanAdd. */
    method ExtbanAdd(req: Request, stage: Stage) returns (outcome: Outcome)
      requires Ok(bans)
      modifies this`bans
      ensures (bans, outcome) == Add(old(bans), req, stage) && Ok(bans)
    {
      AddOk(bans, req, stage);
      if !IsAlnum(req.letter) || !ValidName(req.name) {
        return Invalid;
      }
      var k := 0;
      while k < |bans| && bans[k].letter != req.letter
        invariant k <= |bans| && FindLetterOf(bans, req.letter) == k + FindLetterOf(bans[k..], req.letter)
      {
        k := k + 1;
      }
      if k == |bans| {
        AddSorted(Filled(Extban(req.letter, "", NoCheck, SharedConv, false, false, false, false), req, stage));
      } else if bans[k].unloaded {
        bans := bans[k := Filled(bans[k].(unloaded := false), req, stage)];
      } else if stage.Initialising? && bans[k].preregistered {
        bans := bans[k := Filled(bans[k].(preregistered := false), req, stage)];
      } else if stage.Testing? {
        return Untouched;
      } else {
        return Exists;
      }
      outcome := Registered;
    }

    /** ExtbanDel. */
    method ExtbanDel(k: nat)
      requires Ok(bans) && k < |bans|
      modifies this`bans
      ensures Ok(bans)
      ensures bans == if rehashing then old(bans)[k := old(bans)[k].(unloaded := true)]
                      else RemoveAt(old(bans), k)
    {
      if rehashing {
        bans := bans[k := bans[k].(unloaded := true)];
      } else {
        bans := RemoveAt(bans, k);
      }
    }

    /** unload_all_unused_extbans: the successor is read before an entry is freed. */
    method UnloadAllUnused()
      requires Ok(bans)
      modifies this`bans
      ensures Ok(bans) && bans == Used(old(bans))
    {
      ghost var all := bans;
      ghost var seen := 0;
      var k := 0;
      UsedOk(bans);
      while k < |bans|
        invariant k <= |bans| && seen <= |all| && bans[k..] == all[seen..] && bans[..k] == Used(all[..seen])
        decreases |bans| - k
      {
        UsedSplit(all, seen);
        assert bans[k] == bans[k..][0] == all[seen];
        assert all[seen..][1..] == all[seen + 1..];
        if bans[k].unloaded {
          ghost var was := bans;
          bans := RemoveAt(bans, k);
          assert bans[k..] == was[k..][1..] && bans[..k] == was[..k];
        } else {
          assert bans[k + 1..] == bans[k..][1..] && bans[..k + 1] == bans[..k] + [bans[k]];
          k := k + 1;
        }
        seen := seen + 1;
      }
      assert all[..seen] == all && bans[..k] == bans;
    }

    /** is_valid_extban_name. */
    static method IsValidName(p: string) returns (ok: bool)
      ensures ok == ValidName(p)
      ensures ok <==> p != "" && |p| <= 32 && forall i | 0 <= i < |p| ::
                'a' <= p[i] <= 'z' || '0' <= p[i] <= '9' || p[i] == '_' || p[i] == '-'
    {
      if p == "" || |p| > 32 {
        return false;
      }
      for i := 0 to |p|
        invariant forall j | 0 <= j < i :: NameChar(p[j])
      {
        if !IsLower(p[i]) && !IsDigit(p[i]) && p[i] !in "_-" {
          return false;
        }
      }
      ok := true;
    }

    /** is_extended_ban. */
    static method IsExtendedBan(s: string) returns (extended: bool)
      ensures extended <==> |s| > 0 && s[0] == '~' && exists i | 0 < i < |s| :: s[i] == ':'
      ensures extended == IsExtended(s)
    {
      if s == "" || s[0] != '~' {
        return false;
      }
      extended := false;
      var i := 1;
      while i < |s|
        invariant 1 <= i <= |s| && !extended && ':' !in s[1..i]
      {
        if !IsAlnum(s[i]) {
          if s[i] == ':' {
            assert s[1..][i - 1] == ':';
            return true;
          }
        }
        assert s[1..i + 1] == s[1..i] + [s[i]];
        i := i + 1;
      }
      assert s[1..i] == s[1..];
      forall j | 0 < j < |s| ensures s[j] != ':' {
        assert s[1..][j - 1] == s[j];
      }
    }

    /** extban_is_ok_nuh_extban. Called from outside, with the counter at 0, it stops after one stacked
        ban; the counter is back at its value whatever happens. */
    method IsOkNuhExtban(own: Own, adding: bool, banstr: string) returns (isok: bool)
      modifies this`checkDepth
      ensures checkDepth == old(checkDepth)
      ensures isok == Check(bans, own, adding, banstr, old(checkDepth) > 0)
      decreases |banstr|
    {
      if IsExtended(banstr) {
        if checkDepth > 0 {
          return false;
        }
        var f := FindByBantype(banstr);
        if !f.Known? {
          return !adding;
        }
        var e := bans[f.k];
        if e.actModifier || e.noStackChild {
          return false;
        }
        if !e.checker.NoCheck? {
          checkDepth := checkDepth + 1;
          if e.checker.SharedCheck? {
            isok := IsOkNuhExtban(own, adding, f.rest);
          } else {
            isok := own.ok(e.letter, f.rest);
          }
          checkDepth := checkDepth - 1;
          return;
        }
      }
      isok := true;
    }

    /** extban_conv_param_nuh_or_extban. */
    method ConvNuhOrExtban(own: Own, named: bool, banstr: string) returns (ret: Option<string>)
      modifies this`convDepth
      ensures convDepth == old(convDepth)
      ensures ret == Conv(bans, own, named, banstr, old(convDepth) > 0)
      decreases |banstr|
    {
      if !IsExtended(banstr) {
        return ConvertCopy(banstr);
      }
      if convDepth > 0 {
        return None;
      }
      var f := FindByBantype(Clip(banstr, BAN_SIZE));
      if !f.Known? {
        return Some(banstr);
      }
      var e := bans[f.k];
      if e.actModifier || e.noStackChild {
        return None;
      }
      convDepth := convDepth + 1;
      if e.converter.SharedConv? {
        ret := ConvNuhOrExtban(own, named, f.rest);
      } else {
        ret := own.conv(e.letter, f.rest);
      }
      convDepth := convDepth - 1;
      ret := PrefixedIfAny(e, named, ret);
    }
  }
}
