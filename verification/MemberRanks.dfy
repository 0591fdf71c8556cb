/** Expanding member modes to "this rank or higher": what it is for, what it computes, and when the
    two are the same. */
module MemberRanks {
  import opened Common
  import opened ChannelModes
  import opened ChannelModeInvariant
  import opened ChannelModeTokens

  const INT_MAX: int := 2147483647

  function ModeToRank(modes: seq<Cmode>, c: char): int {
    if modes == [] then 0
    else if modes[0].kind.Member? && modes[0].letter == c then modes[0].rank
    else ModeToRank(modes[1..], c)
  }

  function RankToMode(modes: seq<Cmode>, rank: int): char {
    if modes == [] then NUL
    else if modes[0].kind.Member? && modes[0].rank == rank then modes[0].letter
    else RankToMode(modes[1..], rank)
  }

  /** The lowest rank of the letters of `s`, or INT_MAX when it is empty. */
  function LowestRank(modes: seq<Cmode>, s: string): (r: int)
    ensures forall i | 0 <= i < |s| :: r <= ModeToRank(modes, s[i])
    ensures r == INT_MAX || exists i | 0 <= i < |s| :: r == ModeToRank(modes, s[i])
  {
    if s == [] then INT_MAX
    else
      var c := s[|s| - 1];
      var rest := LowestRank(modes, s[..|s| - 1]);
      assert forall i | 0 <= i < |s| - 1 :: s[..|s| - 1][i] == s[i];
      if ModeToRank(modes, c) < rest then ModeToRank(modes, c) else rest
  }

  /** The letter of the member mode that has this rank, if there is one. */
  function LowestLetter(modes: seq<Cmode>, s: string): char {
    if LowestRank(modes, s) == INT_MAX then NUL else RankToMode(modes, LowestRank(modes, s))
  }

  /** lowest_ranking_mode. */
  method LowestRankingMode(modes: seq<Cmode>, s: string) returns (c: char)
    ensures c == LowestLetter(modes, s)
  {
    var winning := INT_MAX;
    for i := 0 to |s|
      invariant winning == LowestRank(modes, s[..i])
    {
      assert s[..i + 1][..i] == s[..i];
      if ModeToRank(modes, s[i]) < winning {
        winning := ModeToRank(modes, s[i]);
      }
    }
    assert s[..|s|] == s;
    c := if winning == INT_MAX then NUL else RankToMode(modes, winning);
  }

  function AtLeast(rank: int): Cmode -> bool { m => Status(m) && m.rank >= rank }

  /** What channel_member_modes_generate_equal_or_greater is for: "o" should give "oaq". */
  function Wanted(modes: seq<Cmode>, s: string): string {
    Letters(Pick(modes, AtLeast(LowestRank(modes, s))))
  }

  /** channel_member_modes_generate_equal_or_greater: the variable called rank receives the letter of
      the lowest ranking mode. */
  method GenerateEqualOrGreater(modes: seq<Cmode>, s: string, buflen: nat) returns (buf: string)
    ensures buf == Clip(Generated(modes, s), buflen)
  {
    buf := "";
    var letter := LowestRankingMode(modes, s);
    var rank := letter as int;
    if rank == 0 {
      return;
    }
    for i := 0 to |modes|
      invariant buf == Clip(Letters(Pick(modes[..i], AtLeast(rank))), buflen)
    {
      PickSplit(modes, i, AtLeast(rank));
      if modes[i].kind.Member? && modes[i].rank >= rank && modes[i].letter != NUL && |buf| + 1 < buflen {
        buf := buf + [modes[i].letter];
      }
    }
    assert modes[..|modes|] == modes;
  }

  function Generated(modes: seq<Cmode>, s: string): string {
    var letter := LowestLetter(modes, s);
    if letter == NUL then "" else Letters(Pick(modes, AtLeast(letter as int)))
  }

  lemma {:induction false} RankLookup(modes: seq<Cmode>, m: Cmode)
    requires forall i, j | 0 <= i < j < |modes| :: Apart(modes[i], modes[j])
    requires m in modes && m.kind.Member?
    ensures ModeToRank(modes, m.letter) == m.rank && RankToMode(modes, m.rank) == m.letter
  {
    if modes[0] != m {
      var i :| 0 <= i < |modes| && modes[i] == m;
      assert Apart(modes[0], modes[i]);
      RankLookup(modes[1..], m);
    }
  }

  /** Two selections of modes with distinct letters read the same exactly when they are the same. */
  lemma {:induction false} SameSelection(modes: seq<Cmode>, p: Cmode -> bool, q: Cmode -> bool)
    requires forall i, j | 0 <= i < j < |modes| :: Apart(modes[i], modes[j])
    ensures Letters(Pick(modes, p)) == Letters(Pick(modes, q)) <==> forall m | m in modes :: p(m) == q(m)
  {
    if forall m | m in modes :: p(m) == q(m) {
      SamePick(modes, p, q);
    } else {
      var m :| m in modes && p(m) != q(m);
      SelectionShows(modes, p, m);
      SelectionShows(modes, q, m);
    }
  }

  lemma {:induction false} SamePick(modes: seq<Cmode>, p: Cmode -> bool, q: Cmode -> bool)
    requires forall m | m in modes :: p(m) == q(m)
    ensures Pick(modes, p) == Pick(modes, q)
  {
    if modes != [] {
      SamePick(modes[1..], p, q);
    }
  }

  lemma SelectionShows(modes: seq<Cmode>, p: Cmode -> bool, m: Cmode)
    requires forall i, j | 0 <= i < j < |modes| :: Apart(modes[i], modes[j])
    requires m in modes
    ensures m.letter in Letters(Pick(modes, p)) <==> p(m)
  {
    PickMembers(modes, p);
    var ms := Pick(modes, p);
    var k :| 0 <= k < |modes| && modes[k] == m;
    if p(m) {
      var i :| 0 <= i < |ms| && ms[i] == m;
      assert Letters(ms)[i] == m.letter;
    }
    forall i | 0 <= i < |ms| ensures ms[i] == m || ms[i].letter != m.letter {
      assert ms[i] in ms;
      var j :| 0 <= j < |modes| && modes[j] == ms[i];
      assert j < k ==> Apart(modes[j], modes[k]);
      assert k < j ==> Apart(modes[k], modes[j]);
    }
  }

  lemma NothingSelected(modes: seq<Cmode>, p: Cmode -> bool)
    ensures Letters(Pick(modes, p)) == "" <==> forall m | m in modes :: !p(m)
  {
    PickMembers(modes, p);
    var ms := Pick(modes, p);
    assert ms != [] ==> ms[0] in ms;
  }

  /** The member mode whose rank, because it lies between the one asked for and the number that the code
      compares with, makes the expansion wrong. Without a letter the code gives nothing at all. */
  predicate Misplaced(m: Cmode, rank: int, letter: char) {
    if letter == NUL then m.rank >= rank
    else Min(letter as int, rank) <= m.rank < Max(letter as int, rank)
  }

  /** The expansion is right exactly when no member mode has a rank from the lowest rank asked for up
      to the character code of the letter of that rank, or the other way round; or, if that rank belongs
      to no letter, exactly when no member mode has it or a higher one. */
  lemma EqualOrGreaterIff(modes: seq<Cmode>, s: string)
    requires ModesOk(modes)
    ensures Generated(modes, s) == Wanted(modes, s) <==>
            forall m | m in modes && Status(m) :: !Misplaced(m, LowestRank(modes, s), LowestLetter(modes, s))
  {
    var rank, letter := LowestRank(modes, s), LowestLetter(modes, s);
    if letter == NUL {
      NothingSelected(modes, AtLeast(rank));
    } else {
      SameSelection(modes, AtLeast(letter as int), AtLeast(rank));
    }
  }

  /** Which letter that is: one of the string of lowest rank, if all letters are registered. */
  lemma LowestIsRegistered(modes: seq<Cmode>, s: string) returns (lowest: Cmode)
    requires ModesOk(modes) && s != ""
    requires forall i | 0 <= i < |s| :: MemberLetter(modes, s[i])
    requires forall m | m in modes :: m.rank < INT_MAX
    ensures lowest in modes && lowest.kind.Member? && lowest.letter in s
    ensures forall m | m in modes && m.kind.Member? && m.letter in s :: lowest.rank <= m.rank
    ensures LowestRank(modes, s) == lowest.rank && LowestLetter(modes, s) == lowest.letter
  {
    forall m | m in modes && m.kind.Member?
      ensures ModeToRank(modes, m.letter) == m.rank && RankToMode(modes, m.rank) == m.letter
    {
      RankLookup(modes, m);
    }
    assert MemberLetter(modes, s[0]);
    var i :| 0 <= i < |s| && LowestRank(modes, s) == ModeToRank(modes, s[i]);
    assert MemberLetter(modes, s[i]);
    lowest :| lowest in modes && lowest.kind.Member? && lowest.letter == s[i];
    forall m | m in modes && m.kind.Member? && m.letter in s ensures lowest.rank <= m.rank {
      var j :| 0 <= j < |s| && s[j] == m.letter;
      assert LowestRank(modes, s) <= ModeToRank(modes, s[j]);
    }
  }

  lemma {:induction false} NoSuchLetter(modes: seq<Cmode>, c: char)
    requires !MemberLetter(modes, c)
    ensures ModeToRank(modes, c) == 0
  {
    if modes != [] {
      assert modes[0] in modes;
      forall m | m in modes[1..] ensures m in modes { }
      NoSuchLetter(modes[1..], c);
    }
  }

  lemma {:induction false} NoSuchRank(modes: seq<Cmode>, rank: int)
    requires forall m | m in modes && m.kind.Member? :: m.rank != rank
    ensures RankToMode(modes, rank) == NUL
  {
    if modes != [] {
      assert modes[0] in modes;
      forall m | m in modes[1..] ensures m in modes { }
      NoSuchRank(modes[1..], rank);
    }
  }

  /** One letter that nobody registered makes the whole expansion empty, unless another letter of the
      string has a negative rank. */
  lemma UnregisteredLetter(modes: seq<Cmode>, s: string, c: char)
    requires ModesOk(modes) && c in s && !MemberLetter(modes, c)
    requires forall m | m in modes && m.kind.Member? && m.letter in s :: m.rank > 0
    ensures LowestRank(modes, s) == 0 && LowestLetter(modes, s) == NUL && Generated(modes, s) == ""
  {
    NoSuchLetter(modes, c);
    forall i | 0 <= i < |s| ensures ModeToRank(modes, s[i]) >= 0 {
      if MemberLetter(modes, s[i]) {
        var m :| m in modes && m.kind.Member? && m.letter == s[i];
        RankLookup(modes, m);
      } else {
        NoSuchLetter(modes, s[i]);
      }
    }
    forall m | m in modes && m.kind.Member? ensures m.rank != 0 {
      assert WellFormed(m);
    }
    NoSuchRank(modes, 0);
  }

  /** Without half-operators, "ho" expands to nothing, although operators exist. */
  lemma NoHalfOperators(modes: seq<Cmode>, o: Cmode)
    requires ModesOk(modes) && o in modes && !MemberLetter(modes, 'h')
    requires o.kind.Member? && o.letter == 'o' && o.rank == 2000
    ensures Generated(modes, "ho") == "" && 'o' in Wanted(modes, "ho")
  {
    forall m | m in modes && m.kind.Member? && m.letter in "ho" ensures m == o {
      assert m.letter == 'h' || m.letter == 'o';
      SameOrApart(modes, m, o);
    }
    UnregisteredLetter(modes, "ho", 'h');
    SelectionShows(modes, AtLeast(0), o);
  }

  /** With the shipped ranks, "o" also lets half-operators in, and "v" leaves voiced users out. */
  lemma ShippedRanks(modes: seq<Cmode>, v: Cmode, h: Cmode, o: Cmode)
    requires ModesOk(modes) && v in modes && h in modes && o in modes
    requires v.kind.Member? && v.letter == 'v' && v.rank == -1
    requires h.kind.Member? && h.letter == 'h' && h.rank == 1000
    requires o.kind.Member? && o.letter == 'o' && o.rank == 2000
    ensures 'h' in Generated(modes, "o") && 'h' !in Wanted(modes, "o")
    ensures 'v' !in Generated(modes, "v") && 'v' in Wanted(modes, "v")
  {
    RankLookup(modes, o);
    RankLookup(modes, v);
    assert LowestRank(modes, "o") == 2000 by { assert "o"[..0] == ""; }
    assert LowestRank(modes, "v") == -1 by { assert "v"[..0] == ""; }
    SelectionShows(modes, AtLeast('o' as int), h);
    SelectionShows(modes, AtLeast(2000), h);
    SelectionShows(modes, AtLeast('v' as int), v);
    SelectionShows(modes, AtLeast(-1), v);
  }
}
