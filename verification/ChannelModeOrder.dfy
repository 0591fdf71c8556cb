/** The order of the mode list: lower case first, which is an order only if the characters between the
    cases stay out of it. */
module ChannelModeOrder {
  import opened Common
  import opened LetterOrder
  import opened ChannelModes
  import opened ChannelModeInvariant
  import opened ChannelModeRuns

  ghost predicate Sorted(modes: seq<Cmode>) {
    forall i, j | 0 <= i < j < |modes| :: SortBefore(modes[i].letter, modes[j].letter)
  }

  ghost predicate HasUpper(modes: seq<Cmode>) { exists m | m in modes :: IsUpper(m.letter) }

  ghost predicate HasLower(modes: seq<Cmode>) { exists m | m in modes :: IsLower(m.letter) }

  ghost predicate HasBetween(modes: seq<Cmode>) { exists m | m in modes :: BetweenTheCases(m.letter) }

  /** Upper case, lower case and one of the six characters between them all occur. */
  ghost predicate Mixed(modes: seq<Cmode>) { HasUpper(modes) && HasLower(modes) && HasBetween(modes) }

  /** A sorted list never mixes the three. */
  lemma SortedNotMixed(modes: seq<Cmode>)
    requires Sorted(modes)
    ensures !Mixed(modes)
  {
    if Mixed(modes) {
      var i :| 0 <= i < |modes| && IsUpper(modes[i].letter);
      var j :| 0 <= j < |modes| && BetweenTheCases(modes[j].letter);
      var k :| 0 <= k < |modes| && IsLower(modes[k].letter);
      NoCircle(modes, i, j, k);
    }
  }

  lemma NoCircle(modes: seq<Cmode>, i: nat, j: nat, k: nat)
    requires Sorted(modes) && i < |modes| && j < |modes| && k < |modes|
    ensures !(IsUpper(modes[i].letter) && BetweenTheCases(modes[j].letter) && IsLower(modes[k].letter))
  {
    assert i < j ==> SortBefore(modes[i].letter, modes[j].letter);
    assert j < i ==> SortBefore(modes[j].letter, modes[i].letter);
    assert j < k ==> SortBefore(modes[j].letter, modes[k].letter);
    assert k < j ==> SortBefore(modes[k].letter, modes[j].letter);
    assert i < k ==> SortBefore(modes[i].letter, modes[k].letter);
    assert k < i ==> SortBefore(modes[k].letter, modes[i].letter);
  }

  /** The new entry goes before the first one that it sorts before. */
  lemma {:induction false} FirstGreater(modes: seq<Cmode>, c: char)
    requires InsertPosition(modes, c).Some?
    ensures var p := InsertPosition(modes, c).value;
            && (forall i | 0 <= i < p :: !SortBefore(c, modes[i].letter))
            && (p < |modes| ==> SortBefore(c, modes[p].letter))
  {
    if modes != [] && !SortBefore(c, modes[0].letter) {
      FirstGreater(modes[1..], c);
      forall i | 0 <= i < InsertPosition(modes, c).value ensures !SortBefore(c, modes[i].letter) {
        assert i > 0 ==> modes[i] == modes[1..][i - 1];
      }
    }
  }

  lemma BehindFits(modes: seq<Cmode>, n: Cmode, p: nat, i: nat)
    requires Sorted(modes) && p <= i < |modes| && SortBefore(n.letter, modes[p].letter)
    requires !Mixed(InsertAt(modes, p, n))
    ensures SortBefore(n.letter, modes[i].letter)
  {
    if p < i {
      var all := InsertAt(modes, p, n);
      assert all[p] == n && all[p + 1] == modes[p] && all[i + 1] == modes[i];
      assert n in all && modes[p] in all && modes[i] in all;
      assert SortBefore(modes[p].letter, modes[i].letter);
      OrderTransitiveIff(n.letter, modes[p].letter, modes[i].letter);
    }
  }

  /** The sorted insertion of a letter not yet listed keeps a sorted list sorted exactly when the list and
      the new letter do not mix upper case, lower case and a character between the cases. */
  lemma InsertKeepsSortedIff(modes: seq<Cmode>, n: Cmode)
    requires Sorted(modes) && InsertPosition(modes, n.letter).Some?
    requires forall m | m in modes :: m.letter != n.letter
    ensures var after := InsertAt(modes, InsertPosition(modes, n.letter).value, n);
            Sorted(after) <==> !Mixed(after)
  {
    var p := InsertPosition(modes, n.letter).value;
    var after := InsertAt(modes, p, n);
    if Sorted(after) {
      SortedNotMixed(after);
    }
    if !Mixed(after) {
      FirstGreater(modes, n.letter);
      forall i | p <= i < |modes| ensures SortBefore(n.letter, modes[i].letter) {
        BehindFits(modes, n, p, i);
      }
      PlacedSorted(modes, n, p);
    }
  }

  lemma PlacedSorted(modes: seq<Cmode>, n: Cmode, p: nat)
    requires Sorted(modes) && p <= |modes| && forall m | m in modes :: m.letter != n.letter
    requires forall i | 0 <= i < p :: !SortBefore(n.letter, modes[i].letter)
    requires forall i | p <= i < |modes| :: SortBefore(n.letter, modes[i].letter)
    ensures Sorted(InsertAt(modes, p, n))
  {
    var after := InsertAt(modes, p, n);
    forall i, j | 0 <= i < j < |after| ensures SortBefore(after[i].letter, after[j].letter) {
      var i0, j0 := if i < p then i else i - 1, if j < p then j else j - 1;
      assert i != p ==> after[i] == modes[i0] && modes[i0] in modes;
      assert j != p ==> after[j] == modes[j0];
    }
  }

  /** In particular without the characters between the cases. */
  lemma InsertKeepsSorted(modes: seq<Cmode>, n: Cmode)
    requires Sorted(modes) && InsertPosition(modes, n.letter).Some?
    requires forall m | m in modes :: m.letter != n.letter && !BetweenTheCases(m.letter)
    requires !BetweenTheCases(n.letter)
    ensures Sorted(InsertAt(modes, InsertPosition(modes, n.letter).value, n))
  {
    InsertMembers(modes, InsertPosition(modes, n.letter).value, n);
    InsertKeepsSortedIff(modes, n);
  }

  // ---------------------------------------------------------------- runs

  ghost predicate SameLetters(a: seq<Cmode>, b: seq<Cmode>) {
    |a| == |b| && forall i | 0 <= i < |a| :: a[i].letter == b[i].letter
  }

  lemma SameLettersMix(a: seq<Cmode>, b: seq<Cmode>)
    requires SameLetters(a, b) && Mixed(a)
    ensures Mixed(b)
  {
    var i :| 0 <= i < |a| && IsUpper(a[i].letter);
    var j :| 0 <= j < |a| && BetweenTheCases(a[j].letter);
    var k :| 0 <= k < |a| && IsLower(a[k].letter);
    assert b[i] in b && b[j] in b && b[k] in b;
  }

  lemma SameLettersSort(a: seq<Cmode>, b: seq<Cmode>)
    requires SameLetters(a, b) && Sorted(a)
    ensures Sorted(b)
  {
  }

  lemma AddKeepsSorted(w: World, req: Request)
    requires Inv(w) && CellsFit(w) && Legal(w, AddMode(req)) && Sorted(w.modes)
    requires !Mixed(Add(w, req).0.modes)
    ensures Sorted(Add(w, req).0.modes)
  {
    var k := FindMatch(w.modes, req);
    if req.name != "" {
      if k == |w.modes| {
        AddNewKeepsSorted(w, req);
      } else if w.modes[k].unloaded {
        ReviveSameLetters(w, k, req);
        SameLettersSort(w.modes, Add(w, req).0.modes);
      }
    }
  }

  lemma ReviveSameLetters(w: World, k: nat, req: Request)
    requires CellsFit(w) && k < |w.modes| && Keeps(w.modes[k], req)
    ensures SameLetters(w.modes, Install(w, k, req, w.modes[k].slot).modes)
  {
  }

  lemma AddNewKeepsSorted(w: World, req: Request)
    requires Inv(w) && CellsFit(w) && Sorted(w.modes) && FindMatch(w.modes, req) == |w.modes|
    requires !Mixed(AddNew(w, req).0.modes)
    ensures Sorted(AddNew(w, req).0.modes)
  {
    var pos := InsertPosition(w.modes, req.letter);
    if AddNew(w, req).0.modes != w.modes && pos.Some? {
      forall m | m in w.modes ensures m.letter != req.letter {
        NewLetter(w, req, m);
      }
      AddAtKeepsSorted(w, req, pos.value);
    }
  }

  lemma AddAtKeepsSorted(w: World, req: Request, p: nat)
    requires |w.table| == SLOTS + 1 && Sorted(w.modes) && InsertPosition(w.modes, req.letter) == Some(p)
    requires forall m | m in w.modes :: m.letter != req.letter
    requires !Mixed(AddAt(w, req, p).0.modes)
    ensures Sorted(AddAt(w, req, p).0.modes)
  {
    var n := Bare(w.nextId, req.letter, NewBit(w, req));
    var listed, after := InsertAt(w.modes, p, n), AddAt(w, req, p).0.modes;
    assert SameLetters(listed, after);
    if Mixed(listed) {
      SameLettersMix(listed, after);
    }
    InsertKeepsSortedIff(w.modes, n);
    SameLettersSort(listed, after);
  }

  lemma NewLetter(w: World, req: Request, m: Cmode)
    requires Inv(w) && FindMatch(w.modes, req) == |w.modes| && InsertPosition(w.modes, req.letter).Some?
    requires m in w.modes
    ensures m.letter != req.letter
  {
    InsertPositionExists(w.modes, req.letter);
    assert !Matches(m, req);
  }

  lemma RemoveKeepsSorted(modes: seq<Cmode>, k: nat)
    requires Sorted(modes) && k < |modes|
    ensures Sorted(RemoveAt(modes, k))
  {
    var after := RemoveAt(modes, k);
    forall i, j | 0 <= i < j < |after| ensures SortBefore(after[i].letter, after[j].letter) {
      var i0, j0 := if i < k then i else i + 1, if j < k then j else j + 1;
      assert after[i] == modes[i0] && after[j] == modes[j0];
    }
  }

  lemma {:induction false} UnusedKeepsSorted(w: World, ids: seq<nat>)
    requires CellsFit(w) && Sorted(w.modes)
    ensures Sorted(CommitUnused(w, ids).modes)
    decreases ids
  {
    if ids != [] {
      var k := FindId(w.modes, ids[0]);
      if k < |w.modes| && Unused(w.modes[k]) {
        CommitFits(w, k);
        RemoveKeepsSorted(w.modes, k);
        UnusedKeepsSorted(Commit(w, k), ids[1..]);
      } else {
        UnusedKeepsSorted(w, ids[1..]);
      }
    }
  }

  lemma StepKeepsSorted(w: World, op: Op)
    requires Inv(w) && CellsFit(w) && Legal(w, op) && Sorted(w.modes) && !Mixed(Step(w, op).modes)
    ensures Sorted(Step(w, op).modes)
  {
    if !w.crashed {
      if op.AddMode? {
        AddKeepsSorted(w, op.req);
      } else if op.DelMode? {
        var k := FindId(w.modes, op.id);
        if k < |w.modes| {
          RemoveKeepsSorted(w.modes, k);
          assert SameLetters(w.modes[k := w.modes[k].(unloaded := true)], w.modes);
        }
      } else if op.FinishRehash? {
        UnusedKeepsSorted(w, Ids(w.modes));
      }
    }
  }

  ghost predicate AlwaysSorted(ws: seq<World>, t: nat)
    requires t < |ws|
  {
    forall i | 0 <= i <= t :: Sorted(ws[i].modes)
  }

  ghost predicate NeverMixed(ws: seq<World>, t: nat)
    requires t < |ws|
  {
    forall i | 0 <= i <= t :: !Mixed(ws[i].modes)
  }

  /** Over any run, the list has been in order all along exactly when it has never mixed upper case, lower
      case and a character between the cases. */
  lemma {:induction false} RunSortedIff(ws: seq<World>, ops: seq<Op>, t: nat)
    requires IsRun(ws, ops) && t < |ws|
    ensures AlwaysSorted(ws, t) <==> NeverMixed(ws, t)
  {
    if AlwaysSorted(ws, t) {
      forall i | 0 <= i <= t ensures !Mixed(ws[i].modes) {
        SortedNotMixed(ws[i].modes);
      }
    } else if NeverMixed(ws, t) {
      NeverMixedSorted(ws, ops, t);
    }
  }

  lemma {:induction false} NeverMixedSorted(ws: seq<World>, ops: seq<Op>, t: nat)
    requires IsRun(ws, ops) && t < |ws| && NeverMixed(ws, t)
    ensures AlwaysSorted(ws, t)
  {
    if t > 0 {
      NeverMixedSorted(ws, ops, t - 1);
      RunKeepsInv(ws, ops, t - 1);
      assert StepsTo(ws[t - 1], ops[t - 1], ws[t]);
      StepKeepsSorted(ws[t - 1], ops[t - 1]);
    }
  }
}
