/** Member mode strings as the code keeps them: NUL-terminated buffers edited in place. */
module MemberModeStrings {
  import opened Common
  import opened ChannelModes
  import opened CStrings

  /** addlettertomstring. */
  method AddLetterInPlace(modes: seq<Cmode>, buf: array<char>, letter: char)
    requires buf.Length == MEMBER_MODES_LEN && Terminated(buf) && letter != NUL
    modifies buf
    ensures Terminated(buf) && Str(buf) == AddLetter(modes, old(Str(buf)), letter)
  {
    var k := FindLetter(modes, letter);
    if k == |modes| || !modes[k].kind.Member? {
      return;
    }
    var n := StrLen(buf);
    ghost var s := Str(buf);
    if n >= MEMBER_MODES_LEN - 1 {
      return;
    }
    var p := RankPosition(modes, buf, n, letter, modes[k].rank);
    ShiftRight(buf, p, n);
    buf[p] := letter;
    ghost var t := s[..p] + [letter] + s[p..];
    assert buf[p + 1..n + 2] == s[p..] + [NUL];
    forall i | 0 <= i < |t| ensures buf[i] == t[i] {
      assert i < p ==> buf[..p][i] == s[..p][i];
      assert i > p ==> buf[p + 1..n + 2][i - p - 1] == s[p..][i - p - 1];
    }
    assert buf[p + 1..n + 2][n - p] == NUL;
    assert buf[..n + 1] == t;
    StrIs(buf, t);
  }

  /** The walk over the string to the first letter of lower rank. */
  method RankPosition(modes: seq<Cmode>, buf: array<char>, n: nat, letter: char, rank: int)
    returns (p: nat)
    requires n < buf.Length
    ensures p <= n
    ensures InsertByRank(modes, buf[..n], letter, rank) == buf[..n][..p] + [letter] + buf[..n][p..]
  {
    ghost var s := buf[..n];
    p := 0;
    while p < n
      invariant p <= n
      invariant InsertByRank(modes, s, letter, rank) == s[..p] + InsertByRank(modes, s[p..], letter, rank)
    {
      RankStep(modes, s, p, letter, rank);
      var h := FindLetter(modes, buf[p]);
      if h < |modes| && modes[h].rank < rank {
        return;
      }
      p := p + 1;
    }
  }

  lemma RankStep(modes: seq<Cmode>, s: string, p: nat, letter: char, rank: int)
    requires p < |s|
    ensures var h := FindLetter(modes, s[p]);
            s[..p] + InsertByRank(modes, s[p..], letter, rank) ==
            if h < |modes| && modes[h].rank < rank then s[..p] + [letter] + s[p..]
            else s[..p + 1] + InsertByRank(modes, s[p + 1..], letter, rank)
  {
    assert s[p..][0] == s[p] && s[p..][1..] == s[p + 1..];
    assert s[..p + 1] == s[..p] + [s[p]];
  }

  /** The memmove: the string from `p` on, terminator included, moves up by one. */
  method ShiftRight(buf: array<char>, p: nat, n: nat)
    requires p <= n < buf.Length - 1
    modifies buf
    ensures buf[..p] == old(buf[..p]) && buf[p + 1..n + 2] == old(buf[p..n + 1])
  {
    var i := n + 1;
    while i > p
      invariant p <= i <= n + 1
      invariant buf[..i + 1] == old(buf[..i + 1])
      invariant forall j | i < j <= n + 1 :: buf[j] == old(buf[j - 1])
    {
      buf[i] := buf[i - 1];
      i := i - 1;
    }
    assert buf[..p] == buf[..p + 1][..p] && old(buf[..p]) == old(buf[..p + 1])[..p];
  }

  /** delletterfromstring. */
  method DelLetterInPlace(buf: array<char>, letter: char)
    requires Terminated(buf)
    modifies buf
    ensures Terminated(buf) && Str(buf) == DelLetter(old(Str(buf)), letter)
  {
    var n := StrLen(buf);
    ghost var s := Str(buf);
    var p := 0;
    while p < n && buf[p] != letter
      invariant p <= n && IndexOf(s, letter) == p + IndexOf(s[p..], letter)
    {
      assert s[p..][1..] == s[p + 1..];
      p := p + 1;
    }
    if p < n {
      assert buf[..n + 1] == s + [NUL];
      ShiftLeft(buf, p, n);
      ghost var t := RemoveAt(s, p);
      assert RemoveAt(s + [NUL], p) == t + [NUL];
      assert buf[..n][..n - 1] == t && buf[..n][n - 1] == NUL;
      StrIs(buf, t);
    }
  }

  /** Move everything after `p`, up to the terminator at `n`, one place to the left. */
  method ShiftLeft(buf: array<char>, p: nat, n: nat)
    requires p < n < buf.Length
    modifies buf
    ensures buf[..n] == RemoveAt(old(buf[..n + 1]), p)
  {
    var i := p;
    while i < n
      invariant p <= i <= n
      invariant forall j | 0 <= j < p :: buf[j] == old(buf[j])
      invariant forall j | p <= j < i :: buf[j] == old(buf[j + 1])
      invariant forall j | i <= j <= n :: buf[j] == old(buf[j])
    {
      buf[i] := buf[i + 1];
      i := i + 1;
    }
    ghost var o := old(buf[..n + 1]);
    forall j | 0 <= j < n ensures buf[j] == RemoveAt(o, p)[j] {
      assert j < p ==> buf[j] == o[j];
      assert j >= p ==> buf[j] == o[j + 1];
    }
  }
}
