/** Registrations and rehashes that show where the snapshot of the capabilities loses something. */
module ClientCapExamples {
  import opened Common
  import opened ClientCaps
  import opened ClientCapRehash

  function Name(i: nat): string { seq(i + 1, _ => 'a') }

  function Nth(i: nat, k: nat): Cap { Cap(Name(i), if i < k then Some(i + 1) else None, false, false, false) }

  /** The list after `n` capabilities have been registered, of which the first `k` want a bit. */
  function Tower(n: nat, k: nat): (caps: seq<Cap>)
    ensures |caps| == n
    ensures forall j | 0 <= j < n :: caps[j] == Nth(n - 1 - j, k)
  {
    if n == 0 then [] else [Nth(n - 1, k)] + Tower(n - 1, k)
  }

  function Adds(i: nat, n: nat, k: nat): seq<Action>
    decreases n - i
  {
    if i >= n then [] else [AddCap(Request(Name(i), i < k, false))] + Adds(i + 1, n, k)
  }

  lemma NamesDiffer(i: nat, j: nat)
    requires i != j
    ensures Fold(Name(i)) != Fold(Name(j)) && Name(i) != Name(j)
  {
    assert |Fold(Name(i))| == i + 1 && |Fold(Name(j))| == j + 1;
  }

  lemma TowerTaken(n: nat, k: nat, b: nat)
    ensures Taken(Tower(n, k), b) <==> 1 <= b <= Min(n, k)
  {
    var caps := Tower(n, k);
    if 1 <= b <= Min(n, k) {
      assert caps[n - b] == Nth(b - 1, k);
      assert caps[n - b] in caps;
    }
    if Taken(caps, b) {
      var c :| c in caps && c.bit == Some(b);
      var j :| 0 <= j < n && caps[j] == c;
      assert c == Nth(n - 1 - j, k);
    }
  }

  lemma TowerOk(n: nat, k: nat)
    requires k < LONG_BITS
    ensures Ok(Tower(n, k))
  {
    var caps := Tower(n, k);
    forall i, j | 0 <= i < j < n ensures ClientCaps.Apart(caps[i], caps[j]) {
      NamesDiffer(n - 1 - i, n - 1 - j);
    }
  }

  lemma TowerFind(n: nat, k: nat, i: nat)
    ensures Find(Tower(n, k), Name(i)) == if i < n then n - 1 - i else n
  {
    var caps := Tower(n, k);
    forall j | 0 <= j < n && n - 1 - j != i ensures Fold(caps[j].name) != Fold(Name(i)) {
      NamesDiffer(n - 1 - j, i);
    }
    if i < n {
      assert caps[n - 1 - i].name == Name(i);
    }
  }

  /** Registering them one after the other does give this list. */
  lemma {:induction false} Registering(i: nat, n: nat, k: nat)
    requires i <= n && k < LONG_BITS - 1
    ensures ActAll(Tower(i, k), Adds(i, n, k)) == Tower(n, k)
    decreases n - i
  {
    if i < n {
      RegisterOne(i, k);
      var acts := Adds(i, n, k);
      assert acts[1..] == Adds(i + 1, n, k);
      Registering(i + 1, n, k);
    }
  }

  lemma RegisterOne(i: nat, k: nat)
    requires k < LONG_BITS - 1
    ensures Act(Tower(i, k), AddCap(Request(Name(i), i < k, false))) == Tower(i + 1, k)
  {
    var caps := Tower(i, k);
    TowerFind(i, k, i);
    if i < k {
      var b := FreeBit(caps, 1);
      TowerTaken(i, k, i + 1);
      if b < i + 1 {
        TowerTaken(i, k, b);
      }
      assert b == i + 1;
    }
  }

  /** The list of `n` after a rehash in which the module of capability `i` does not come back. */
  function Without(n: nat, k: nat, i: nat): seq<Cap> { Rehashed(Tower(n, k), [MarkCap(Name(i))]) }

  lemma WithoutNames(n: nat, k: nat, i: nat, j: nat)
    requires i < n && j < n
    ensures HasName(Without(n, k, i), Name(j)) <==> i != j
  {
    var caps := Tower(n, k);
    TowerFind(n, k, i);
    var marked := caps[n - 1 - i := caps[n - 1 - i].(unloaded := true)];
    var acts := [MarkCap(Name(i))];
    assert acts[1..] == [] && ActAll(caps, acts) == marked;
    UsedMembers(marked);
    assert marked[n - 1 - j].name == Name(j) && marked[n - 1 - j] in marked;
    forall x | 0 <= x < n && x != n - 1 - i ensures marked[x].name != Name(i) {
      NamesDiffer(n - 1 - x, i);
    }
  }

  /** Of the first `m` entries, what is gone is the bit of capability `i`, if it is among them. */
  lemma PartGone(n: nat, k: nat, i: nat, b: nat, m: nat)
    requires i < n && m <= n
    ensures b in Gone(Tower(n, k)[..m], Without(n, k, i)) <==> i < k && b == i + 1 && n - 1 - i < m
  {
    var part, after := Tower(n, k)[..m], Without(n, k, i);
    forall j | 0 <= j < m
      ensures part[j] == Nth(n - 1 - j, k) && (HasName(after, part[j].name) <==> n - 1 - j != i)
    {
      assert part[j] == Tower(n, k)[j];
      WithoutNames(n, k, i, n - 1 - j);
    }
    OneGone(part, after, n, k, i, b);
  }

  lemma OneGone(part: seq<Cap>, after: seq<Cap>, n: nat, k: nat, i: nat, b: nat)
    requires i < n && |part| <= n
    requires forall j | 0 <= j < |part| ::
               part[j] == Nth(n - 1 - j, k) && (HasName(after, part[j].name) <==> n - 1 - j != i)
    ensures b in Gone(part, after) <==> i < k && b == i + 1 && n - 1 - i < |part|
  {
    if n - 1 - i < |part| {
      assert part[n - 1 - i] == Nth(i, k);
    }
  }

  lemma WithoutGone(n: nat, k: nat, i: nat, b: nat)
    requires i < n
    ensures b in Gone(Tower(n, k), Without(n, k, i)) <==> i < k && b == i + 1
    ensures b in Gone(Kept(Tower(n, k)), Without(n, k, i)) <==> i < k && b == i + 1 && n - 1 - i < MAXCLICAPS
  {
    PartGone(n, k, i, b, n);
    PartGone(n, k, i, b, Min(n, MAXCLICAPS));
    assert Tower(n, k)[..n] == Tower(n, k);
  }

  /** With 32 bits in use, the capability with bit 32 goes: clients keep its bit. */
  lemma HighBitStays(n: nat)
    requires n == 32
    ensures Ok(Tower(n, n)) && n in Gone(Tower(n, n), Without(n, n, n - 1))
    ensures Strip({n}, Snapshot(Tower(n, n)), Without(n, n, n - 1)) == {n}
  {
    TowerOk(n, n);
    WithoutGone(n, n, n - 1, n);
    WithoutGone(n, n, n - 1, n - 1);
    StripKept({n}, Tower(n, n), Without(n, n, n - 1));
  }

  /** The one with bit 31 goes: clients lose bit 32 as well, although that capability is still there. */
  lemma SignBitTakesOthers(n: nat)
    requires n == 32
    ensures n !in Gone(Tower(n, n), Without(n, n, n - 2))
    ensures Strip({n}, Snapshot(Tower(n, n)), Without(n, n, n - 2)) == {}
  {
    WithoutGone(n, n, n - 2, n);
    WithoutGone(n, n, n - 2, n - 1);
    StripKept({n}, Tower(n, n), Without(n, n, n - 2));
  }

  /** With 80 capabilities the first one registered is not in the snapshot: when it goes, clients keep
      its bit. */
  lemma UnsavedBitStays(n: nat, k: nat)
    requires n == 80 && k == 1
    ensures Ok(Tower(n, k)) && 1 in Gone(Tower(n, k), Without(n, k, 0))
    ensures Strip({1}, Snapshot(Tower(n, k)), Without(n, k, 0)) == {1}
  {
    TowerOk(n, k);
    WithoutGone(n, k, 0, 1);
    LowBitStays(Tower(n, k), Without(n, k, 0), 1);
  }

  lemma LowBitStays(caps: seq<Cap>, after: seq<Cap>, b: nat)
    requires b < 32 && b !in Gone(Kept(caps), after)
    ensures Strip({b}, Snapshot(caps), after) == {b}
  {
    StripKept({b}, caps, after);
    assert b !in ThroughInt(Gone(Kept(caps), after));
  }
}
