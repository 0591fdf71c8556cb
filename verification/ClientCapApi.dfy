/** The code of the client capability registry. Every method is tied to the operation of ClientCaps or ClientCapRehash
    it performs. */
module ClientCapApi {
  import opened Common
  import opened ClientCaps
  import opened ClientCapRehash

  /** The union of the bits of the capabilities that affect message tags. */
  function Affecting(caps: seq<Cap>): Word {
    if caps == [] then {}
    else Affecting(caps[..|caps| - 1]) +
         (if caps[|caps| - 1].tagged || caps[|caps| - 1].affects then Bit(caps[|caps| - 1]) else {})
  }

  /** A bit is in it exactly if it belongs to a capability that has a message tag handler or says that it
      affects message tags. */
  lemma {:induction false} AffectingBits(caps: seq<Cap>, b: nat)
    ensures b in Affecting(caps) <==> exists c | c in caps :: c.bit == Some(b) && (c.tagged || c.affects)
  {
    if caps != [] {
      var n := |caps| - 1;
      AffectingBits(caps[..n], b);
      assert caps[n] in caps;
      forall c | c in caps ensures c == caps[n] || c in caps[..n] {
        var i :| 0 <= i < |caps| && caps[i] == c;
        assert i < n ==> caps[..n][i] == c;
      }
    }
  }

  class Registry {
    var caps: seq<Cap>
    var affecting: Word
    var rehashing: bool
    const oldCaps: array<Option<string>>
    const oldProto: array<Word>
    var clients: seq<Word>
    /** CAP DEL (false) and CAP NEW (true) messages sent. */
    var sent: seq<(bool, string)>

    ghost predicate Valid()
      reads this
    {
      oldCaps.Length == MAXCLICAPS && oldProto.Length == MAXCLICAPS
    }

    /** The arrays hold this snapshot. */
    ghost predicate HoldsSnapshot(saved: seq<Saved>)
      requires Valid()
      reads this, oldCaps, oldProto
    {
      && |saved| <= MAXCLICAPS
      && (forall i | 0 <= i < |saved| :: oldCaps[i] == Some(saved[i].name) && oldProto[i] == saved[i].proto)
      && (forall i | |saved| <= i < MAXCLICAPS :: oldCaps[i].None?)
    }

    constructor ()
      ensures Valid() && caps == [] && clients == [] && sent == [] && affecting == {} && !rehashing
      ensures fresh(oldCaps) && fresh(oldProto) && HoldsSnapshot([])
    {
      caps, clients, sent, affecting, rehashing := [], [], [], {}, false;
      oldCaps := new Option<string>[MAXCLICAPS](_ => None);
      oldProto := new Word[MAXCLICAPS](_ => {});
    }

    /** ClientCapabilityFindReal. */
    method FindReal(token: string) returns (k: nat)
      ensures k == Find(caps, token)
    {
      k := 0;
      while k < |caps| && Fold(caps[k].name) != Fold(token)
        invariant k <= |caps| && Find(caps, token) == k + Find(caps[k..], token)
      {
        k := k + 1;
      }
    }

    /** clicap_allocate_cap. */
    method AllocateCap() returns (b: nat)
      ensures b == FreeBit(caps, 1)
    {
      b := 1;
      while b < LONG_BITS
        invariant 1 <= b <= LONG_BITS && FreeBit(caps, 1) == FreeBit(caps, b)
      {
        var i, found := 0, false;
        while i < |caps| && !found
          invariant i <= |caps|
          invariant found <==> exists c | c in caps[..i] :: c.bit == Some(b)
        {
          assert caps[..i + 1] == caps[..i] + [caps[i]];
          found := caps[i].bit == Some(b);
          i := i + 1;
        }
        if !found {
          assert caps[..i] == caps;
          return;
        }
        assert Taken(caps, b);
        b := b + 1;
      }
    }

    /** clicap_update_affecting. */
    method UpdateAffecting()
      modifies this`affecting
      ensures affecting == Affecting(caps)
    {
      var v: Word := {};
      for i := 0 to |caps|
        invariant v == Affecting(caps[..i])
      {
        assert caps[..i + 1][..i] == caps[..i];
        if caps[i].tagged || caps[i].affects {
          v := v + Bit(caps[i]);
        }
      }
      assert caps[..|caps|] == caps;
      affecting := v;
    }

    /** ClientCapabilityAdd. */
    method CapabilityAdd(req: Request) returns (outcome: Outcome)
      modifies this`caps, this`affecting
      ensures (caps, outcome) == Add(old(caps), req)
      ensures outcome.Registered? ==> affecting == Affecting(caps)
    {
      var k := FindReal(req.name);
      if k < |caps| {
        if !caps[k].unloaded {
          return Exists;
        }
        caps := caps[k := caps[k].(unloaded := false, affects := req.affects)];
        if caps[k].bit.Some? && !req.wantsBit {
          return Aborted;
        }
        outcome := Registered(caps[k].bit);
      } else {
        var held := None;
        if req.wantsBit {
          var b := AllocateCap();
          if b == LONG_BITS {
            return NoSpace;
          }
          held := Some(b);
        }
        caps := [Cap(req.name, held, req.affects, false, false)] + caps;
        outcome := Registered(held);
      }
      UpdateAffecting();
    }

    /** ClientCapabilityDel of entry `k`: a mark during a rehash, otherwise gone at once. */
    method CapabilityDel(k: nat)
      requires k < |caps| && Ok(caps)
      modifies this`caps, this`affecting
      ensures caps == if rehashing then Mark(old(caps), old(caps)[k].name) else RemoveAt(old(caps), k)
      ensures !rehashing ==> affecting == Affecting(caps)
    {
      if rehashing {
        forall i | 0 <= i < k ensures Fold(caps[i].name) != Fold(caps[k].name) {
          Distinct(caps, i, k);
        }
        assert Find(caps, caps[k].name) == k;
        caps := caps[k := caps[k].(unloaded := true)];
      } else {
        caps := RemoveAt(caps, k);
        UpdateAffecting();
      }
    }

    /** unload_all_unused_caps. */
    method UnloadAllUnused()
      modifies this`caps, this`affecting
      ensures caps == Used(old(caps))
      ensures caps != old(caps) ==> affecting == Affecting(caps)
    {
      var k := 0;
      ghost var seen := 0;
      assert caps[0..] == caps;
      while k < |caps|
        invariant k <= |caps| && seen <= |old(caps)| && caps[k..] == old(caps)[seen..]
        invariant caps[..k] == Used(old(caps)[..seen]) && k <= seen
        invariant k < seen ==> affecting == Affecting(caps)
        invariant k == seen ==> caps == old(caps)
        decreases |caps| - k
      {
        UsedSplit(old(caps), seen);
        assert caps[k] == caps[k..][0] == old(caps)[seen];
        assert caps[k + 1..] == caps[k..][1..] == old(caps)[seen + 1..];
        if caps[k].unloaded {
          ghost var was := caps;
          caps := RemoveAt(caps, k);
          assert caps[..k] == was[..k] && caps[k..] == was[k + 1..];
          UpdateAffecting();
        } else {
          assert caps[..k + 1] == caps[..k] + [caps[k]];
          k := k + 1;
        }
        seen := seen + 1;
      }
      assert caps[..k] == caps;
      assert |old(caps)[seen..]| == 0;
      assert old(caps)[..seen] == old(caps);
    }

    /** clicap_pre_rehash. */
    method PreRehash()
      requires Valid()
      modifies oldCaps, oldProto
      ensures HoldsSnapshot(Snapshot(caps))
    {
      for i := 0 to MAXCLICAPS
        invariant forall j | 0 <= j < i :: oldCaps[j].None?
      {
        oldCaps[i], oldProto[i] := None, {};
      }
      var i := 0;
      ghost var saved := Snapshot(caps);
      while i < |caps| && i < MAXCLICAPS
        invariant i <= |saved|
        invariant forall j | 0 <= j < i :: oldCaps[j] == Some(saved[j].name) && oldProto[j] == saved[j].proto
        invariant forall j | i <= j < MAXCLICAPS :: oldCaps[j].None?
      {
        oldCaps[i], oldProto[i] := Some(caps[i].name), ThroughInt(Bit(caps[i]));
        i := i + 1;
      }
    }

    /** clear_cap_for_users. */
    method ClearCapForUsers(cap: Word)
      modifies this`clients
      ensures |clients| == |old(clients)|
      ensures forall i | 0 <= i < |clients| :: clients[i] == old(clients)[i] - cap
    {
      if cap == {} {
        return;
      }
      for i := 0 to |clients|
        invariant |clients| == |old(clients)|
        invariant forall j | 0 <= j < i :: clients[j] == old(clients)[j] - cap
        invariant forall j | i <= j < |clients| :: clients[j] == old(clients)[j]
      {
        clients := clients[i := clients[i] - cap];
      }
    }

    method NameListed(name: string) returns (found: bool)
      ensures found == HasName(caps, name)
    {
      found := false;
      var i := 0;
      while i < |caps| && !found
        invariant i <= |caps| && (found <==> HasName(caps[..i], name))
      {
        assert caps[..i + 1] == caps[..i] + [caps[i]];
        found := caps[i].name == name;
        i := i + 1;
      }
      assert !found ==> caps[..i] == caps;
      assert forall c | c in caps[..i] :: c in caps;
    }

    method NameSaved(name: string, ghost saved: seq<Saved>) returns (found: bool)
      requires Valid() && HoldsSnapshot(saved)
      ensures found == WasSaved(saved, name)
    {
      found := false;
      var i := 0;
      while i < MAXCLICAPS && oldCaps[i].Some? && !found
        invariant i <= |saved|
        invariant found <==> exists j | 0 <= j < i :: saved[j].name == name
      {
        found := oldCaps[i].value == name;
        i := i + 1;
      }
    }

    /** clicap_check_for_changes. */
    method CheckForChanges(ghost saved: seq<Saved>)
      requires Valid() && HoldsSnapshot(saved)
      modifies this`clients, this`sent, oldCaps
      ensures !rehashing ==> clients == old(clients) && sent == old(sent)
      ensures rehashing ==> |clients| == |old(clients)|
      ensures rehashing ==>
                forall i | 0 <= i < |clients| :: clients[i] == Strip(old(clients)[i], saved, caps)
      ensures rehashing ==> sent == old(sent) + Messages(false, Deleted(saved, caps)) +
                                    Messages(true, Added(saved, caps))
      ensures rehashing ==> HoldsSnapshot([])
    {
      if !rehashing {
        return;
      }
      AnnounceDeleted(saved);
      AnnounceAdded(saved);
      var i := 0;
      while i < MAXCLICAPS && oldCaps[i].Some?
        invariant i <= |saved|
        invariant forall j | 0 <= j < i :: oldCaps[j].None?
        invariant forall j | i <= j < MAXCLICAPS :: oldCaps[j] == old(oldCaps[j])
        modifies oldCaps
      {
        oldCaps[i] := None;
        i := i + 1;
      }
    }

    method AnnounceDeleted(ghost saved: seq<Saved>)
      requires Valid() && HoldsSnapshot(saved)
      modifies this`clients, this`sent
      ensures |clients| == |old(clients)|
      ensures forall i | 0 <= i < |clients| :: clients[i] == Strip(old(clients)[i], saved, caps)
      ensures sent == old(sent) + Messages(false, Deleted(saved, caps))
    {
      var i := 0;
      assert saved[0..] == saved;
      while i < MAXCLICAPS && oldCaps[i].Some?
        invariant i <= |saved| && |clients| == |old(clients)|
        invariant forall j | 0 <= j < |clients| ::
                    Strip(clients[j], saved[i..], caps) == Strip(old(clients)[j], saved, caps)
        invariant sent + Messages(false, Deleted(saved[i..], caps)) ==
                  old(sent) + Messages(false, Deleted(saved, caps))
      {
        assert saved[i..][0] == saved[i] && saved[i..][1..] == saved[i + 1..];
        var name := oldCaps[i].value;
        var found := NameListed(name);
        if !found {
          MessagesCons(false, name, Deleted(saved[i + 1..], caps));
          sent := sent + [(false, name)];
          ClearCapForUsers(oldProto[i]);
        }
        i := i + 1;
      }
      assert saved[i..] == [];
    }

    method AnnounceAdded(ghost saved: seq<Saved>)
      requires Valid() && HoldsSnapshot(saved)
      modifies this`sent
      ensures sent == old(sent) + Messages(true, Added(saved, caps))
    {
      var i := 0;
      assert caps[0..] == caps;
      while i < |caps|
        invariant i <= |caps|
        invariant sent + Messages(true, Added(saved, caps[i..])) ==
                  old(sent) + Messages(true, Added(saved, caps))
      {
        assert caps[i..][1..] == caps[i + 1..];
        var found := NameSaved(caps[i].name, saved);
        if !found {
          MessagesCons(true, caps[i].name, Added(saved, caps[i + 1..]));
          sent := sent + [(true, caps[i].name)];
        }
        i := i + 1;
      }
    }
  }

  function Messages(isNew: bool, names: seq<string>): seq<(bool, string)> {
    seq(|names|, i requires 0 <= i < |names| => (isNew, names[i]))
  }

  lemma MessagesCons(isNew: bool, name: string, rest: seq<string>)
    ensures Messages(isNew, [name] + rest) == [(isNew, name)] + Messages(isNew, rest)
  {
  }
}
