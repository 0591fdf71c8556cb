/** What the registry advertises and converts: the PREFIX, STATUSMSG and CHANMODES tokens, and the
    conversions between member modes, prefixes and server-to-server prefixes. */
module ChannelModeTokens {
  import opened Common
  import opened ChannelModes
  import opened ChannelModeInvariant

  function Pick(modes: seq<Cmode>, p: Cmode -> bool): seq<Cmode> {
    if modes == [] then []
    else if p(modes[0]) then [modes[0]] + Pick(modes[1..], p)
    else Pick(modes[1..], p)
  }

  function Letters(modes: seq<Cmode>): string {
    seq(|modes|, i requires 0 <= i < |modes| => modes[i].letter)
  }

  function Prefixes(modes: seq<Cmode>): string {
    seq(|modes|, i requires 0 <= i < |modes| => modes[i].prefix)
  }

  lemma {:induction false} PickMembers(modes: seq<Cmode>, p: Cmode -> bool)
    ensures forall m :: m in Pick(modes, p) <==> m in modes && p(m)
  {
    if modes != [] {
      PickMembers(modes[1..], p);
    }
  }

  lemma {:induction false} PickSplit(modes: seq<Cmode>, k: nat, p: Cmode -> bool)
    requires k < |modes|
    ensures Pick(modes[..k + 1], p) == Pick(modes[..k], p) + if p(modes[k]) then [modes[k]] else []
  {
    if k > 0 {
      PickSplit(modes[1..], k - 1, p);
      assert modes[..k + 1][1..] == modes[1..][..k];
      assert modes[..k][1..] == modes[1..][..k - 1];
    }
  }

  lemma {:induction false} PickKeepsModesOk(modes: seq<Cmode>, p: Cmode -> bool)
    requires forall i, j | 0 <= i < j < |modes| :: Apart(modes[i], modes[j])
    ensures forall i, j | 0 <= i < j < |Pick(modes, p)| :: Apart(Pick(modes, p)[i], Pick(modes, p)[j])
  {
    if modes != [] {
      PickKeepsModesOk(modes[1..], p);
      PickMembers(modes[1..], p);
      var rest := Pick(modes[1..], p);
      forall x | x in rest ensures Apart(modes[0], x) {
        var i :| 0 <= i < |modes[1..]| && modes[1..][i] == x;
        assert modes[i + 1] == x;
      }
    }
  }

  // ---------------------------------------------------------------- CHANMODES

  /** Parameter to set and to unset; parameter to set only; no parameter. */
  predicate ClassB(m: Cmode) { m.param && m.letter != NUL && m.unsetWithParam && !m.kind.Member? }

  predicate ClassC(m: Cmode) { m.param && m.letter != NUL && !m.unsetWithParam }

  predicate ClassD(m: Cmode) { !m.param && m.letter != NUL }

  /** Which modes go in which class, as CHANMODES divides them: B always has a parameter, C has one only
      when set, D never. */
  lemma ClassesMean(modes: seq<Cmode>, m: Cmode)
    requires ModesOk(modes) && m in modes && m.kind.Normal? && m.letter != NUL
    ensures m.letter in Letters(Pick(modes, ClassB)) <==> m.param && m.unsetWithParam
    ensures m.letter in Letters(Pick(modes, ClassC)) <==> m.param && !m.unsetWithParam
    ensures m.letter in Letters(Pick(modes, ClassD)) <==> !m.param
  {
    LetterPicked(modes, ClassB, m);
    LetterPicked(modes, ClassC, m);
    LetterPicked(modes, ClassD, m);
  }

  lemma LetterPicked(modes: seq<Cmode>, p: Cmode -> bool, m: Cmode)
    requires ModesOk(modes) && m in modes
    ensures m.letter in Letters(Pick(modes, p)) <==> p(m)
  {
    PickMembers(modes, p);
    var ms := Pick(modes, p);
    if p(m) {
      var i :| 0 <= i < |ms| && ms[i] == m;
      assert Letters(ms)[i] == m.letter;
    }
    forall i | 0 <= i < |ms| ensures ms[i] == m || ms[i].letter != m.letter {
      assert ms[i] in ms;
      SameOrApart(modes, ms[i], m);
    }
  }

  /** Every lettered normal mode is in exactly one class, a member mode in none. */
  lemma OneClass(modes: seq<Cmode>, m: Cmode)
    requires ModesOk(modes) && m in modes
    ensures ClassB(m) || ClassC(m) || ClassD(m) <==> m.kind.Normal? && m.letter != NUL
    ensures !(ClassB(m) && ClassC(m)) && !(ClassB(m) && ClassD(m)) && !(ClassC(m) && ClassD(m))
  {
  }

  lemma {:induction false} DistinctBits(ms: seq<Cmode>)
    requires forall i, j | 0 <= i < j < |ms| :: Apart(ms[i], ms[j])
    requires forall m | m in ms :: m.bit.Some? && m.bit.value < BITS
    ensures |set m | m in ms :: m.bit.value| == |ms|
  {
    var bits := set m | m in ms :: m.bit.value;
    if ms != [] {
      var rest := set m | m in ms[1..] :: m.bit.value;
      DistinctBits(ms[1..]);
      assert ms[0].bit.value !in rest;
      assert bits == {ms[0].bit.value} + rest;
    }
  }

  /** There are never more than 63 normal modes. */
  lemma AtMostBits(modes: seq<Cmode>, p: Cmode -> bool)
    requires ModesOk(modes) && forall m | m in modes && p(m) :: m.kind.Normal?
    ensures |Pick(modes, p)| <= BITS
  {
    var ms := Pick(modes, p);
    PickMembers(modes, p);
    PickKeepsModesOk(modes, p);
    DistinctBits(ms);
    RangeSize(0, BITS);
    SubsetSize(set m | m in ms :: m.bit.value, Range(0, BITS));
  }

  /** make_extcmodestr. Each class string fits its buffer of 64 bytes, terminator included. */
  method MakeExtCmodeStr(modes: seq<Cmode>) returns (b: string, c: string, d: string)
    requires ModesOk(modes)
    ensures b == Letters(Pick(modes, ClassB)) && c == Letters(Pick(modes, ClassC))
    ensures d == Letters(Pick(modes, ClassD))
    ensures |b| + 1 <= 64 && |c| + 1 <= 64 && |d| + 1 <= 64
    ensures |b| + |c| + |d| <= BITS
  {
    b, c, d := "", "", "";
    for i := 0 to |modes|
      invariant b == Letters(Pick(modes[..i], ClassB))
    {
      PickSplit(modes, i, ClassB);
      if modes[i].param && modes[i].letter != NUL && modes[i].unsetWithParam && !modes[i].kind.Member? {
        b := b + [modes[i].letter];
      }
    }
    for i := 0 to |modes|
      invariant c == Letters(Pick(modes[..i], ClassC))
    {
      PickSplit(modes, i, ClassC);
      if modes[i].param && modes[i].letter != NUL && !modes[i].unsetWithParam {
        c := c + [modes[i].letter];
      }
    }
    for i := 0 to |modes|
      invariant d == Letters(Pick(modes[..i], ClassD))
    {
      PickSplit(modes, i, ClassD);
      if !modes[i].param && modes[i].letter != NUL {
        d := d + [modes[i].letter];
      }
    }
    assert modes[..|modes|] == modes;
    AtMostBits(modes, m => ClassB(m) || ClassC(m) || ClassD(m));
    ClassesAdd(modes);
  }

  lemma {:induction false} ClassesAdd(modes: seq<Cmode>)
    ensures |Pick(modes, ClassB)| + |Pick(modes, ClassC)| + |Pick(modes, ClassD)| ==
            |Pick(modes, m => ClassB(m) || ClassC(m) || ClassD(m))|
  {
    if modes != [] {
      ClassesAdd(modes[1..]);
    }
  }

  // ---------------------------------------------------------------- PREFIX and STATUSMSG

  predicate Status(m: Cmode) { m.kind.Member? && m.letter != NUL }

  ghost predicate Descending(order: seq<Cmode>) {
    forall i, j | 0 <= i < j < |order| :: order[i].rank >= order[j].rank
  }

  /** The three parallel arrays of make_prefix, read at the same index, describe the modes of
      `order`. */
  ghost predicate Aligned(prefixes: array<char>, letters: array<char>, rank: array<int>, order: seq<Cmode>)
    reads prefixes, letters, rank
  {
    && |order| <= prefixes.Length && |order| <= letters.Length && |order| <= rank.Length
    && (forall i | 0 <= i < |order| ::
          prefixes[i] == order[i].prefix && letters[i] == order[i].letter && rank[i] == order[i].rank)
  }

  function Swap<T>(s: seq<T>, i: nat, j: nat): seq<T>
    requires i < |s| && j < |s|
  {
    s[i := s[j]][j := s[i]]
  }

  lemma SwapPermutes<T>(s: seq<T>, i: nat, j: nat)
    requires i < j < |s|
    ensures multiset(Swap(s, i, j)) == multiset(s)
  {
    assert s == s[..i] + [s[i]] + s[i + 1..j] + [s[j]] + s[j + 1..];
    assert Swap(s, i, j) == s[..i] + [s[j]] + s[i + 1..j] + [s[i]] + s[j + 1..];
  }

  /** One exchange in all three arrays. */
  method Exchange(prefixes: array<char>, letters: array<char>, rank: array<int>, i: nat, j: nat,
                  ghost order: seq<Cmode>)
    requires Aligned(prefixes, letters, rank, order) && prefixes != letters && i < j < |order|
    modifies prefixes, letters, rank
    ensures Aligned(prefixes, letters, rank, Swap(order, i, j))
  {
    var save := prefixes[i];
    prefixes[i] := prefixes[j];
    prefixes[j] := save;
    save := letters[i];
    letters[i] := letters[j];
    letters[j] := save;
    var saveRank := rank[i];
    rank[i] := rank[j];
    rank[j] := saveRank;
  }

  /** Everything before `i` outranks, or equals, everything after it. */
  ghost predicate Settled(order: seq<Cmode>, i: nat) {
    forall a, b | 0 <= a < i && a < b < |order| :: order[a].rank >= order[b].rank
  }

  /** The exchange sort of make_prefix. */
  method SortByRank(prefixes: array<char>, letters: array<char>, rank: array<int>, ghost before: seq<Cmode>,
                    n: nat)
    returns (ghost order: seq<Cmode>)
    requires Aligned(prefixes, letters, rank, before) && prefixes != letters && n == |before|
    modifies prefixes, letters, rank
    ensures Aligned(prefixes, letters, rank, order) && |order| == n
    ensures multiset(order) == multiset(before) && Descending(order)
  {
    order := before;
    var i := 0;
    while i < n
      invariant i <= n && |order| == n
      invariant Aligned(prefixes, letters, rank, order)
      invariant multiset(order) == multiset(before) && Settled(order, i)
    {
      var j := i + 1;
      while j < n
        invariant i < j <= n && |order| == n
        invariant Aligned(prefixes, letters, rank, order)
        invariant multiset(order) == multiset(before) && Settled(order, i)
        invariant forall b | i < b < j :: order[i].rank >= order[b].rank
      {
        if rank[i] < rank[j] {
          Exchange(prefixes, letters, rank, i, j, order);
          SwapPermutes(order, i, j);
          order := Swap(order, i, j);
        }
        j := j + 1;
      }
      i := i + 1;
    }
  }

  /** The PREFIX token for modes in this order, and what a buffer of 256 bytes keeps of it. */
  function PrefixToken(order: seq<Cmode>): string {
    if order == [] then "" else Clip("(" + Letters(order) + ")" + Prefixes(order), 256)
  }

  /** A PREFIX token that fits: the letters in parentheses, and as many prefixes, each in the place of its
      own letter. */
  lemma PrefixTokenReads(order: seq<Cmode>)
    requires order != [] && 2 * |order| + 2 < 256
    ensures var t, n := PrefixToken(order), |order|;
            && |t| == 2 * n + 2 && t[0] == '(' && t[n + 1] == ')'
            && (forall i | 0 <= i < n :: t[1 + i] == order[i].letter && t[n + 2 + i] == order[i].prefix)
  {
    var t := "(" + Letters(order) + ")" + Prefixes(order);
    ClipShort(t, 256);
  }

  lemma {:induction false} DistinctLetters(ms: seq<Cmode>)
    requires forall i, j | 0 <= i < j < |ms| :: Apart(ms[i], ms[j])
    ensures |set m | m in ms :: m.letter as nat| == |ms|
  {
    var codes := set m | m in ms :: m.letter as nat;
    if ms != [] {
      var rest := set m | m in ms[1..] :: m.letter as nat;
      DistinctLetters(ms[1..]);
      assert ms[0].letter as nat !in rest;
      assert codes == {ms[0].letter as nat} + rest;
    }
  }

  /** Member modes have distinct letters, and there are only 255 of those. */
  lemma AtMostLetters(modes: seq<Cmode>)
    requires ModesOk(modes) && forall m | m in modes :: (m.letter as nat) < 256
    ensures |Pick(modes, Status)| <= 255
  {
    var ms := Pick(modes, Status);
    PickMembers(modes, Status);
    PickKeepsModesOk(modes, Status);
    DistinctLetters(ms);
    RangeSize(1, 256);
    SubsetSize(set m | m in ms :: m.letter as nat, Range(1, 256));
  }

  /** `order` is the registered member modes by descending rank; the tokens list their letters and, in
      the same order, their prefixes. */
  ghost predicate TokensOf(modes: seq<Cmode>, order: seq<Cmode>, prefix: string, statusmsg: string) {
    && multiset(order) == multiset(Pick(modes, Status)) && Descending(order)
    && statusmsg == Prefixes(order) && prefix == PrefixToken(order)
  }

  /** make_prefix. */
  method MakePrefix(modes: seq<Cmode>) returns (prefix: string, statusmsg: string)
    requires ModesOk(modes) && forall m | m in modes :: (m.letter as nat) < 256
    ensures exists order :: TokensOf(modes, order, prefix, statusmsg)
  {
    var prefixes := new char[256];
    var letters := new char[256];
    var rank := new int[256];
    AtMostLetters(modes);
    var n, k := 0, 0;
    ghost var order := [];
    while k < |modes|
      invariant k <= |modes| && n == |order| <= 255
      invariant order == Pick(modes[..k], Status)
      invariant Aligned(prefixes, letters, rank, order)
    {
      PickSplit(modes, k, Status);
      if modes[k].kind.Member? && modes[k].letter != NUL {
        PickPrefix(modes, k + 1, Status);
        prefixes[n], letters[n], rank[n] := modes[k].prefix, modes[k].letter, modes[k].rank;
        order := order + [modes[k]];
        n := n + 1;
      }
      k := k + 1;
    }
    assert modes[..k] == modes;
    prefix := "";
    if n > 0 {
      order := SortByRank(prefixes, letters, rank, order, n);
      prefix := Clip("(" + letters[..n] + ")" + prefixes[..n], 256);
      assert letters[..n] == Letters(order);
    }
    statusmsg := prefixes[..n];
    assert prefixes[..n] == Prefixes(order);
    assert TokensOf(modes, order, prefix, statusmsg);
  }

  lemma {:induction false} PickPrefix(modes: seq<Cmode>, k: nat, p: Cmode -> bool)
    requires k <= |modes|
    ensures |Pick(modes[..k], p)| <= |Pick(modes, p)|
    decreases |modes| - k
  {
    if k == |modes| {
      assert modes[..k] == modes;
    } else {
      PickSplit(modes, k, p);
      PickPrefix(modes, k + 1, p);
    }
  }

  // ---------------------------------------------------------------- member modes to prefixes

  /** mode_to_prefix. */
  function ModeToPrefix(modes: seq<Cmode>, c: char): char {
    if c == NUL || modes == [] then NUL
    else if modes[0].letter == c && modes[0].kind.Member? then modes[0].prefix
    else ModeToPrefix(modes[1..], c)
  }

  lemma {:induction false} ModeToPrefixFinds(modes: seq<Cmode>, m: Cmode)
    requires forall i, j | 0 <= i < j < |modes| :: Apart(modes[i], modes[j])
    requires m in modes && m.kind.Member? && m.letter != NUL
    ensures ModeToPrefix(modes, m.letter) == m.prefix
  {
    if modes[0] != m {
      var i :| 0 <= i < |modes| && modes[i] == m;
      assert Apart(modes[0], modes[i]);
      ModeToPrefixFinds(modes[1..], m);
    }
  }

  function ToPrefix(modes: seq<Cmode>): char -> char { c => ModeToPrefix(modes, c) }

  /** What a letter-by-letter conversion makes of a string; letters without counterpart vanish. */
  function Converted(f: char -> char, s: string): string {
    if s == [] then [] else (if f(s[0]) == NUL then [] else [f(s[0])]) + Converted(f, s[1..])
  }

  /** The loop of modes_to_prefix and modes_to_sjoin_prefix, into a buffer of MEMBERMODESLEN bytes. */
  method ConvertModes(f: char -> char, s: string) returns (buf: string)
    ensures buf == Clip(Converted(f, s), MEMBER_MODES_LEN)
  {
    buf := "";
    for i := 0 to |s|
      invariant buf == Clip(Converted(f, s[..i]), MEMBER_MODES_LEN)
    {
      ConvertedSplit(f, s, i);
      var c := f(s[i]);
      if c != NUL && |buf| < MEMBER_MODES_LEN - 1 {
        buf := buf + [c];
      }
    }
    assert s[..|s|] == s;
  }

  lemma {:induction false} ConvertedSplit(f: char -> char, s: string, i: nat)
    requires i < |s|
    ensures Converted(f, s[..i + 1]) ==
            Converted(f, s[..i]) + if f(s[i]) == NUL then [] else [f(s[i])]
  {
    if i > 0 {
      ConvertedSplit(f, s[1..], i - 1);
      assert s[..i + 1][1..] == s[1..][..i] && s[..i][1..] == s[1..][..i - 1];
    }
  }

  lemma {:induction false} ConvertedPointwise(f: char -> char, s: string)
    requires forall i | 0 <= i < |s| :: f(s[i]) != NUL
    ensures |Converted(f, s)| == |s| && forall i | 0 <= i < |s| :: Converted(f, s)[i] == f(s[i])
  {
    if s != [] {
      ConvertedPointwise(f, s[1..]);
    }
  }

  lemma {:induction false} ConvertedEqualIff(f: char -> char, t: string, s: string)
    requires |t| == |s| && NUL !in s
    ensures |Converted(f, t)| <= |t|
    ensures Converted(f, t) == s <==> forall i | 0 <= i < |s| :: f(t[i]) == s[i]
  {
    if t != [] {
      ConvertedEqualIff(f, t[1..], s[1..]);
      assert s == [s[0]] + s[1..];
      assert forall i | 0 < i < |s| :: t[i] == t[1..][i - 1] && s[i] == s[1..][i - 1];
      if f(t[0]) != NUL {
        assert Converted(f, t)[1..] == Converted(f, t[1..]);
      }
    }
  }

  ghost predicate Embeds(a: string, b: string, at: seq<nat>) {
    && |at| == |a|
    && (forall i | 0 <= i < |a| :: at[i] < |b| && b[at[i]] == a[i])
    && (forall i, j | 0 <= i < j < |at| :: at[i] < at[j])
  }

  ghost predicate IsSubsequence(a: string, b: string) {
    exists at :: Embeds(a, b, at)
  }

  /** The prefixes shown for a user are those of STATUSMSG, in its order, with some left out. */
  lemma PrefixesFollowStatusmsg(modes: seq<Cmode>, order: seq<Cmode>, s: string)
    requires ModesOk(modes) && Ranked(modes, s) && NUL !in s && |s| < MEMBER_MODES_LEN
    requires multiset(order) == multiset(Pick(modes, Status)) && Descending(order)
    ensures var shown := Clip(Converted(ToPrefix(modes), s), MEMBER_MODES_LEN);
            |shown| == |s| && IsSubsequence(shown, Prefixes(order))
  {
    AllShown(modes, order, s);
    ConvertedPointwise(ToPrefix(modes), s);
    var shown := Converted(ToPrefix(modes), s);
    EmbedRanked(modes, order, s, shown);
    ClipShort(shown, MEMBER_MODES_LEN);
  }

  lemma AllShown(modes: seq<Cmode>, order: seq<Cmode>, s: string)
    requires ModesOk(modes) && Ranked(modes, s) && NUL !in s
    requires multiset(order) == multiset(Pick(modes, Status))
    ensures forall i | 0 <= i < |s| :: Shown(modes, order, s[i])
  {
    forall i | 0 <= i < |s| ensures Shown(modes, order, s[i]) {
      assert MemberLetter(modes, s[i]);
      ShownOnce(modes, order, s[i]);
    }
  }

  lemma EmbedRanked(modes: seq<Cmode>, order: seq<Cmode>, s: string, shown: string)
    requires Ranked(modes, s) && Descending(order) && |shown| == |s|
    requires forall i | 0 <= i < |s| :: Shown(modes, order, s[i]) && shown[i] == ModeToPrefix(modes, s[i])
    ensures IsSubsequence(shown, Prefixes(order))
  {
    var at := Positions(order, s);
    forall i, j | 0 <= i < j < |s| ensures at[i] < at[j] {
      assert Outranks(modes, s[i], s[j]);
      assert Shown(modes, order, s[i]) && Shown(modes, order, s[j]);
    }
    assert Embeds(shown, Prefixes(order), at);
  }

  function Positions(order: seq<Cmode>, s: string): seq<nat> {
    seq(|s|, i requires 0 <= i < |s| => FindLetter(order, s[i]))
  }

  /** The letter stands in the order, next to its own prefix. */
  ghost predicate Shown(modes: seq<Cmode>, order: seq<Cmode>, c: char) {
    var k := FindLetter(order, c);
    k < |order| && order[k] in modes && order[k].prefix == ModeToPrefix(modes, c) != NUL
  }

  lemma ShownOnce(modes: seq<Cmode>, order: seq<Cmode>, c: char)
    requires ModesOk(modes) && MemberLetter(modes, c) && c != NUL
    requires multiset(order) == multiset(Pick(modes, Status))
    ensures Shown(modes, order, c)
  {
    PickMembers(modes, Status);
    var m :| m in modes && m.kind.Member? && m.letter == c;
    assert m in multiset(order);
    var k := FindLetter(order, c);
    assert k < |order|;
    assert order[k] in multiset(order);
    assert order[k] in Pick(modes, Status);
    ModeToPrefixFinds(modes, order[k]);
  }

  // ---------------------------------------------------------------- server-to-server prefixes

  predicate ListLetter(c: char) { c == 'b' || c == 'e' || c == 'I' }

  predicate ListSymbol(c: char) { c == '&' || c == '\"' || c == '\'' }

  function FindSjoin(modes: seq<Cmode>, s: char): char {
    if modes == [] then NUL
    else if modes[0].sjoinPrefix == s && modes[0].kind.Member? then modes[0].letter
    else FindSjoin(modes[1..], s)
  }

  function FindMemberSjoin(modes: seq<Cmode>, c: char): char {
    if modes == [] then NUL
    else if modes[0].letter == c && modes[0].kind.Member? then modes[0].sjoinPrefix
    else FindMemberSjoin(modes[1..], c)
  }

  /** sjoin_prefix_to_mode. */
  function SjoinPrefixToMode(modes: seq<Cmode>, s: char): char {
    if s == NUL then NUL
    else if s == '&' then 'b'
    else if s == '\"' then 'e'
    else if s == '\'' then 'I'
    else FindSjoin(modes, s)
  }

  /** mode_to_sjoin_prefix. */
  function ModeToSjoinPrefix(modes: seq<Cmode>, c: char): char {
    if c == NUL then NUL
    else if c == 'b' then '&'
    else if c == 'e' then '\"'
    else if c == 'I' then '\''
    else FindMemberSjoin(modes, c)
  }

  /** The three list modes have fixed symbols; a letter or symbol that nobody has gives nothing. */
  lemma SjoinFixed(modes: seq<Cmode>)
    ensures ModeToSjoinPrefix(modes, 'b') == '&' && SjoinPrefixToMode(modes, '&') == 'b'
    ensures ModeToSjoinPrefix(modes, 'e') == '\"' && SjoinPrefixToMode(modes, '\"') == 'e'
    ensures ModeToSjoinPrefix(modes, 'I') == '\'' && SjoinPrefixToMode(modes, '\'') == 'I'
    ensures ModeToSjoinPrefix(modes, NUL) == NUL && SjoinPrefixToMode(modes, NUL) == NUL
  {
  }

  lemma {:induction false} SjoinUnknown(modes: seq<Cmode>, c: char)
    ensures (forall m | m in modes && m.kind.Member? :: m.letter != c) ==> FindMemberSjoin(modes, c) == NUL
    ensures (forall m | m in modes && m.kind.Member? :: m.sjoinPrefix != c) ==> FindSjoin(modes, c) == NUL
  {
    if modes != [] {
      SjoinUnknown(modes[1..], c);
      assert modes[0] in modes && forall m | m in modes[1..] :: m in modes;
    }
  }

  function ToSjoin(modes: seq<Cmode>): char -> char { c => ModeToSjoinPrefix(modes, c) }

  function FromSjoin(modes: seq<Cmode>): char -> char { c => SjoinPrefixToMode(modes, c) }

  /** The prefix of entry `k` is not a list symbol, and no member mode listed before has it. */
  ghost predicate SjoinUnambiguous(modes: seq<Cmode>, k: nat)
    requires k < |modes|
  {
    && !ListSymbol(modes[k].sjoinPrefix)
    && (forall i | 0 <= i < k && modes[i].kind.Member? :: modes[i].sjoinPrefix != modes[k].sjoinPrefix)
  }

  lemma {:induction false} FindMemberSjoinFinds(modes: seq<Cmode>, k: nat)
    requires forall i, j | 0 <= i < j < |modes| :: Apart(modes[i], modes[j])
    requires k < |modes| && modes[k].kind.Member?
    ensures FindMemberSjoin(modes, modes[k].letter) == modes[k].sjoinPrefix
  {
    if k > 0 {
      assert Apart(modes[0], modes[k]);
      FindMemberSjoinFinds(modes[1..], k - 1);
    }
  }

  lemma {:induction false} FindSjoinFinds(modes: seq<Cmode>, k: nat)
    requires forall i, j | 0 <= i < j < |modes| :: Apart(modes[i], modes[j])
    requires k < |modes| && modes[k].kind.Member?
    ensures FindSjoin(modes, modes[k].sjoinPrefix) == modes[k].letter <==>
            forall i | 0 <= i < k && modes[i].kind.Member? :: modes[i].sjoinPrefix != modes[k].sjoinPrefix
  {
    if k > 0 {
      assert Apart(modes[0], modes[k]);
      FindSjoinFinds(modes[1..], k - 1);
      assert forall i | 0 <= i < k - 1 :: modes[1..][i] == modes[i + 1];
      if forall i | 0 <= i < k - 1 && modes[1..][i].kind.Member? ::
           modes[1..][i].sjoinPrefix != modes[k].sjoinPrefix {
        assert forall i | 0 < i < k && modes[i].kind.Member? ::
            modes[1..][i - 1].sjoinPrefix == modes[i].sjoinPrefix;
      }
    }
  }

  /** A member letter survives the trip to its server-to-server prefix and back exactly when it is
      one of the list letters or its prefix is unambiguous. */
  lemma SjoinRoundTripIff(modes: seq<Cmode>, k: nat)
    requires ModesOk(modes) && k < |modes| && modes[k].kind.Member? && modes[k].letter != NUL
    ensures ModeToSjoinPrefix(modes, modes[k].letter) != NUL
    ensures SjoinPrefixToMode(modes, ModeToSjoinPrefix(modes, modes[k].letter)) == modes[k].letter <==>
            SjoinSurvives(modes, k)
  {
    assert modes[k] in modes;
    FindMemberSjoinFinds(modes, k);
    FindSjoinFinds(modes, k);
  }

  /** Whole member mode strings survive the trip, with no truncation, exactly when each letter does. */
  lemma SjoinStringRoundTripIff(modes: seq<Cmode>, s: string)
    requires ModesOk(modes) && Ranked(modes, s) && NUL !in s && |s| < MEMBER_MODES_LEN
    ensures var there := Clip(Converted(ToSjoin(modes), s), MEMBER_MODES_LEN);
            var back := Clip(Converted(FromSjoin(modes), there), MEMBER_MODES_LEN);
            && |there| == |s|
            && (back == s <==> forall k | 0 <= k < |modes| && modes[k].letter in s :: SjoinSurvives(modes, k))
  {
    var f, g := ToSjoin(modes), FromSjoin(modes);
    AllSjoin(modes, s);
    ConvertedPointwise(f, s);
    var there := Converted(f, s);
    ClipShort(there, MEMBER_MODES_LEN);
    ConvertedEqualIff(g, there, s);
    ClipShort(Converted(g, there), MEMBER_MODES_LEN);
    LettersOrEntries(modes, s);
  }

  lemma AllSjoin(modes: seq<Cmode>, s: string)
    requires ModesOk(modes) && Ranked(modes, s) && NUL !in s
    ensures forall i | 0 <= i < |s| :: ToSjoin(modes)(s[i]) != NUL
    ensures forall i | 0 <= i < |s| ::
              FromSjoin(modes)(ToSjoin(modes)(s[i])) == s[i] <==> LetterSurvives(modes, s[i])
  {
    forall i | 0 <= i < |s|
      ensures ToSjoin(modes)(s[i]) != NUL
      ensures FromSjoin(modes)(ToSjoin(modes)(s[i])) == s[i] <==> LetterSurvives(modes, s[i])
    {
      assert MemberLetter(modes, s[i]);
      SjoinLetter(modes, s[i]);
    }
  }

  ghost predicate SjoinSurvives(modes: seq<Cmode>, k: nat)
    requires k < |modes|
  {
    ListLetter(modes[k].letter) || SjoinUnambiguous(modes, k)
  }

  ghost predicate LetterSurvives(modes: seq<Cmode>, c: char) {
    var k := FindLetter(modes, c);
    k < |modes| && SjoinSurvives(modes, k)
  }

  lemma SjoinLetter(modes: seq<Cmode>, c: char)
    requires ModesOk(modes) && MemberLetter(modes, c) && c != NUL
    ensures ModeToSjoinPrefix(modes, c) != NUL
    ensures SjoinPrefixToMode(modes, ModeToSjoinPrefix(modes, c)) == c <==> LetterSurvives(modes, c)
  {
    var m :| m in modes && m.kind.Member? && m.letter == c;
    LetterFound(modes, m);
    SjoinRoundTripIff(modes, FindLetter(modes, c));
  }

  lemma LettersOrEntries(modes: seq<Cmode>, s: string)
    requires ModesOk(modes) && Ranked(modes, s)
    ensures (forall i | 0 <= i < |s| :: LetterSurvives(modes, s[i])) <==>
            (forall k | 0 <= k < |modes| && modes[k].letter in s :: SjoinSurvives(modes, k))
  {
    forall k | 0 <= k < |modes| ensures FindLetter(modes, modes[k].letter) == k {
      LetterIndex(modes, k);
    }
    forall i | 0 <= i < |s| ensures FindLetter(modes, s[i]) < |modes| {
      assert MemberLetter(modes, s[i]);
    }
  }

  lemma LetterIndex(modes: seq<Cmode>, k: nat)
    requires ModesOk(modes) && k < |modes|
    ensures FindLetter(modes, modes[k].letter) == k
  {
    forall i | 0 <= i < k ensures modes[i].letter != modes[k].letter {
      assert Apart(modes[i], modes[k]);
    }
  }
}
