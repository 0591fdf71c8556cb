/** Alias expansion, first half: extracting a range of words. */
module Aliases {
  import opened Common

  // ---------------------------------------------------------------- words, the way one would say it

  function Split(s: string, sep: char): (ts: seq<string>)
    ensures |ts| > 0
  {
    var p := IndexOf(s, sep);
    if p == |s| then [s] else [s[..p]] + Split(s[p + 1..], sep)
  }

  function Join(ts: seq<string>, sep: char): string {
    if ts == [] then ""
    else if |ts| == 1 then ts[0]
    else ts[0] + [sep] + Join(ts[1..], sep)
  }

  /** Entries `n` to `m`, counted from 1; to the end when `m` is 0. */
  function Span(ts: seq<string>, n: nat, m: nat): seq<string>
    requires n >= 1
  {
    var hi := if m == 0 then |ts| else Min(m, |ts|);
    if n - 1 < hi then ts[n - 1..hi] else []
  }

  /** Words `n` to `m` of `s`. */
  function Words(s: string, sep: char, n: nat, m: nat): string
    requires n >= 1
  {
    Join(Span(Split(s, sep), n, m), sep)
  }

  // ---------------------------------------------------------------- strrangetok

  predicate Included(count: int, first: int, last: int) {
    count >= first && (count <= last || last == -1)
  }

  function Prepend(o: string, r: Option<string>): Option<string> {
    if r.None? then None else Some(o + r.value)
  }

  lemma PrependTwice(o: string, c: char, r: Option<string>)
    ensures Prepend(o, Prepend([c], r)) == Prepend(o + [c], r)
    ensures Prepend("", r) == r
  {
    if r.Some? {
      assert o + ([c] + r.value) == o + [c] + r.value;
      assert "" + r.value == r.value;
    }
  }

  /** The loop of strrangetok from index `i` on, with `count` separators seen; nothing when it reads past
      the end of the string. */
  function RangeTok(s: string, sep: char, first: int, last: int, i: nat, count: int): Option<string>
    decreases |s| - i
  {
    if i >= |s| then Some("")
    else
      var count1 := if s[i] == sep then count + 1 else count;
      var j := if s[i] == sep && count1 == first then i + 1 else i;
      if j >= |s| then None
      else
        var rest := RangeTok(s, sep, first, last, j + 1, count1);
        if Included(count1, first, last) then Prepend([s[j]], rest) else rest
  }

  /** strrangetok, into a buffer. */
  method StrRangeTok(s: string, out: array<char>, sep: char, n: int, m: int) returns (overrun: bool)
    requires out.Length > |s|
    modifies out
    ensures overrun <==> RangeTok(s, sep, n - 1, m - 1, 0, 0).None?
    ensures !overrun ==> var r := RangeTok(s, sep, n - 1, m - 1, 0, 0).value;
                         |r| < out.Length && out[..|r|] == r && out[|r|] == NUL
  {
    var first, last := n - 1, m - 1;
    var i, tokcount, j := 0, 0, 0;
    ghost var result := RangeTok(s, sep, first, last, 0, 0);
    PrependTwice("", sep, result);
    while i < |s|
      invariant i <= |s| && j <= i
      invariant Prepend(out[..j], RangeTok(s, sep, first, last, i, tokcount)) == result
    {
      if s[i] == sep {
        tokcount := tokcount + 1;
        if tokcount == first {
          i := i + 1;
          if i == |s| {
            return true;
          }
        }
      }
      ghost var rest := RangeTok(s, sep, first, last, i + 1, tokcount);
      if tokcount >= first && (tokcount <= last || last == -1) {
        PrependTwice(out[..j], s[i], rest);
        out[j] := s[i];
        j := j + 1;
        assert out[..j] == out[..j - 1] + [s[i]];
      }
      i := i + 1;
    }
    assert out[..j] + "" == out[..j];
    out[j] := NUL;
    overrun := false;
  }

  // ---------------------------------------------------------------- what it gives

  function Seps(s: string, sep: char): nat {
    if s == "" then 0 else Seps(s[1..], sep) + if s[0] == sep then 1 else 0
  }

  /** `s` up to its separator number `k` + 1. */
  function TakeWords(s: string, sep: char, k: nat): string {
    if s == "" || (s[0] == sep && k == 0) then ""
    else [s[0]] + TakeWords(s[1..], sep, if s[0] == sep then k - 1 else k)
  }

  /** What follows separator number `k` of `s`, if it has so many. */
  function After(s: string, sep: char, k: nat): Option<string> {
    if k == 0 then Some(s)
    else if s == "" then None
    else After(s[1..], sep, if s[0] == sep then k - 1 else k)
  }

  /** `t` up to its separator number `room` + 1, or all of it when `room` is -1. */
  function Limited(t: string, sep: char, room: int): string {
    if room < 0 then t else TakeWords(t, sep, room)
  }

  function Room(first: int, last: int): int { if last == -1 then -1 else last - first }

  /** Past the separator it looks for, the loop copies everything or up to a number of separators. */
  lemma {:induction false} TailIs(s: string, sep: char, first: int, last: int, i: nat, count: int)
    requires i <= |s| && count >= first && (last == -1 || last >= first)
    ensures RangeTok(s, sep, first, last, i, count) ==
            Some(if last == -1 then s[i..]
                 else if count <= last then TakeWords(s[i..], sep, last - count) else "")
    decreases |s| - i
  {
    if i == |s| {
      assert s[i..] == "";
    } else {
      assert s[i..][0] == s[i] && s[i..][1..] == s[i + 1..] && s[i..] == [s[i]] + s[i + 1..];
      TailIs(s, sep, first, last, i + 1, if s[i] == sep then count + 1 else count);
    }
  }

  /** What comes out, given what follows the separator looked for: the next character is copied without
      a look. */
  function FromThere(rest: Option<string>, sep: char, room: int): Option<string> {
    if rest.None? then Some("")
    else if rest.value == "" then None
    else Some([rest.value[0]] + Limited(rest.value[1..], sep, room))
  }

  /** Before that separator nothing is copied. */
  lemma {:induction false} HeadIs(s: string, sep: char, first: int, last: int, i: nat, count: nat)
    requires i <= |s| && count < first && (last == -1 || last >= first)
    ensures RangeTok(s, sep, first, last, i, count) ==
            FromThere(After(s[i..], sep, first - count), sep, Room(first, last))
    decreases |s| - i
  {
    if i < |s| {
      assert s[i..][0] == s[i] && s[i..][1..] == s[i + 1..];
      if s[i] == sep && count + 1 == first {
        SkipIs(s, sep, first, last, i);
      } else {
        var count1 := if s[i] == sep then count + 1 else count;
        assert RangeTok(s, sep, first, last, i, count) == RangeTok(s, sep, first, last, i + 1, count1);
        HeadIs(s, sep, first, last, i + 1, count1);
      }
    }
  }

  lemma SkipIs(s: string, sep: char, first: int, last: int, i: nat)
    requires i < |s| && s[i] == sep && first > 0 && (last == -1 || last >= first)
    ensures RangeTok(s, sep, first, last, i, first - 1) ==
            FromThere(After(s[i..], sep, 1), sep, Room(first, last))
  {
    var t := s[i + 1..];
    assert s[i..][0] == sep && s[i..][1..] == t;
    assert After(s[i..], sep, 1) == Some(t);
    if i + 1 < |s| {
      TailIs(s, sep, first, last, i + 2, first);
      assert t[0] == s[i + 1] && t[1..] == s[i + 2..];
    }
  }

  // ---------------------------------------------------------------- the two compared

  lemma {:induction false} SplitCount(s: string, sep: char)
    ensures |Split(s, sep)| == Seps(s, sep) + 1
    decreases |s|
  {
    SplitCons(s, sep);
    if s != "" {
      SplitCount(s[1..], sep);
    }
  }

  /** Splitting, one character at a time. */
  lemma {:induction false} SplitCons(s: string, sep: char)
    ensures Split(s, sep) ==
            if s == "" then [""]
            else if s[0] == sep then [""] + Split(s[1..], sep)
            else [[s[0]] + Split(s[1..], sep)[0]] + Split(s[1..], sep)[1..]
  {
    if s != "" {
      var p := IndexOf(s, sep);
      if s[0] == sep {
        assert s[..0] == "";
      } else {
        var q := IndexOf(s[1..], sep);
        assert p == q + 1;
        if q < |s[1..]| {
          assert s[..p] == [s[0]] + s[1..][..q] && s[p + 1..] == s[1..][q + 1..];
        } else {
          assert s == [s[0]] + s[1..];
        }
      }
    }
  }

  /** The first `k` + 1 words, joined, are the text up to separator number `k` + 1. */
  lemma {:induction false} TakeWordsJoins(s: string, sep: char, k: nat)
    ensures TakeWords(s, sep, k) == Join(Span(Split(s, sep), 1, k + 1), sep)
    decreases |s|
  {
    SplitCons(s, sep);
    if s == "" {
      assert Span([""], 1, k + 1) == [""];
    } else if s[0] != sep {
      TakeWordsJoins(s[1..], sep, k);
      JoinMore(s[0], Split(s[1..], sep), sep, k);
    } else if k > 0 {
      TakeWordsJoins(s[1..], sep, k - 1);
      JoinNext(Split(s[1..], sep), sep, k);
    } else {
      assert Span([""] + Split(s[1..], sep), 1, 1) == [""];
    }
  }

  /** A character before the first word. */
  lemma JoinMore(c: char, us: seq<string>, sep: char, k: nat)
    requires us != []
    ensures Join(Span([[c] + us[0]] + us[1..], 1, k + 1), sep) == [c] + Join(Span(us, 1, k + 1), sep)
  {
    var hi := Min(k + 1, |us|);
    assert Span([[c] + us[0]] + us[1..], 1, k + 1) == [[c] + us[0]] + us[1..hi];
    assert Span(us, 1, k + 1) == [us[0]] + us[1..hi];
    JoinHead([c], us[0], us[1..hi], sep);
  }

  /** A separator before the first word. */
  lemma JoinNext(us: seq<string>, sep: char, k: nat)
    requires us != [] && k > 0
    ensures Join(Span([""] + us, 1, k + 1), sep) == [sep] + Join(Span(us, 1, k), sep)
  {
    var hi := Min(k, |us|);
    var ts := Span([""] + us, 1, k + 1);
    assert ts == [""] + us[..hi];
    assert ts[1..] == us[..hi] == Span(us, 1, k);
  }

  lemma JoinHead(a: string, b: string, ts: seq<string>, sep: char)
    ensures Join([a + b] + ts, sep) == a + Join([b] + ts, sep)
  {
    assert ([a + b] + ts)[1..] == ts && ([b] + ts)[1..] == ts;
  }

  lemma {:induction false} JoinAll(s: string, sep: char)
    ensures Join(Split(s, sep), sep) == s
    decreases |s|
  {
    SplitCons(s, sep);
    if s != "" {
      JoinAll(s[1..], sep);
      var us := Split(s[1..], sep);
      if s[0] != sep {
        JoinHead([s[0]], us[0], us[1..], sep);
        assert us == [us[0]] + us[1..];
      } else {
        assert ([""] + us)[1..] == us;
      }
    }
  }

  /** What follows separator number `k` splits into the words from number `k` + 1 on. */
  lemma {:induction false} AfterSplits(s: string, sep: char, k: nat)
    ensures After(s, sep, k).Some? <==> k <= Seps(s, sep)
    ensures After(s, sep, k).Some? ==>
              && k < |Split(s, sep)| && Split(After(s, sep, k).value, sep) == Split(s, sep)[k..]
              && Seps(After(s, sep, k).value, sep) == Seps(s, sep) - k
    decreases |s|
  {
    SplitCount(s, sep);
    if k > 0 && s != "" {
      SplitCons(s, sep);
      AfterSplits(s[1..], sep, if s[0] == sep then k - 1 else k);
    }
  }

  /** Two cuts of the same text are the same only if the first already takes it all. */
  lemma {:induction false} TakeWordsSame(s: string, sep: char, k: nat)
    requires k > 0
    ensures TakeWords(s, sep, k) == TakeWords(s, sep, k - 1) <==> Seps(s, sep) < k
    decreases |s|
  {
    if s != "" {
      if s[0] != sep {
        TakeWordsSame(s[1..], sep, k);
        assert TakeWords(s, sep, k)[1..] == TakeWords(s[1..], sep, k);
        assert TakeWords(s, sep, k - 1)[1..] == TakeWords(s[1..], sep, k - 1);
      } else if k > 1 {
        TakeWordsSame(s[1..], sep, k - 1);
        assert TakeWords(s, sep, k)[1..] == TakeWords(s[1..], sep, k - 1);
        assert TakeWords(s, sep, k - 1)[1..] == TakeWords(s[1..], sep, k - 2);
      }
    }
  }

  lemma SpanFrom(ts: seq<string>, us: seq<string>, n: nat, m: nat)
    requires 1 <= n <= |ts| && us == ts[n - 1..] && (m == 0 || n <= m)
    ensures Span(ts, n, m) == if m == 0 then us else Span(us, 1, m - n + 1)
  {
  }

  /** The words asked for, in terms of the text. */
  lemma WordsAre(s: string, sep: char, n: nat, m: nat)
    requires n >= 1 && (m == 0 || n <= m)
    ensures var rest := After(s, sep, n - 1);
            Words(s, sep, n, m) ==
            if rest.None? then "" else if m == 0 then rest.value else TakeWords(rest.value, sep, m - n)
  {
    AfterSplits(s, sep, n - 1);
    var ts, rest := Split(s, sep), After(s, sep, n - 1);
    if rest.Some? {
      var t := rest.value;
      SpanFrom(ts, Split(t, sep), n, m);
      if m == 0 {
        JoinAll(t, sep);
      } else {
        TakeWordsJoins(t, sep, m - n);
      }
    } else {
      SplitCount(s, sep);
      assert Span(ts, n, m) == [];
    }
  }

  /** The separator before word `n` is the last character. */
  ghost predicate EndsThere(s: string, sep: char, n: nat)
    requires n >= 1
  {
    n >= 2 && After(s, sep, n - 1) == Some("")
  }

  /** The separator before word `n` is followed by another one. */
  ghost predicate DoubledThere(s: string, sep: char, n: nat)
    requires n >= 1
  {
    n >= 2 && After(s, sep, n - 1).Some? &&
    After(s, sep, n - 1).value != "" && After(s, sep, n - 1).value[0] == sep
  }

  /** strrangetok reads past the string exactly when the separator before word `n` ends it. */
  lemma OverrunIff(s: string, sep: char, n: nat, m: nat)
    requires n >= 1 && (m == 0 || n <= m)
    ensures RangeTok(s, sep, n - 1, m - 1, 0, 0).None? <==> EndsThere(s, sep, n)
  {
    assert s[0..] == s;
    if n == 1 {
      TailIs(s, sep, 0, m - 1, 0, 0);
    } else {
      HeadIs(s, sep, n - 1, m - 1, 0, 0);
    }
  }

  /** strrangetok gives words `n` to `m` exactly when the separator before word `n` does not end the
      string and is not doubled, or is but the words wanted run to the end. */
  lemma RangeTokIff(s: string, sep: char, n: nat, m: nat)
    requires n >= 1 && (m == 0 || n <= m)
    ensures RangeTok(s, sep, n - 1, m - 1, 0, 0) == Some(Words(s, sep, n, m)) <==>
            !EndsThere(s, sep, n) && (DoubledThere(s, sep, n) ==> m == 0 || Seps(s, sep) < m)
  {
    var r, w := BothAre(s, sep, n, m);
    if n >= 2 {
      AfterSplits(s, sep, n - 1);
      var rest := After(s, sep, n - 1);
      if rest.Some? && rest.value != "" {
        FromThereIff(rest.value, sep, Room(n - 1, m - 1));
      }
    }
  }

  /** What comes out and what was asked for, in terms of what follows separator number `n` - 1. */
  lemma BothAre(s: string, sep: char, n: nat, m: nat) returns (r: Option<string>, w: string)
    requires n >= 1 && (m == 0 || n <= m)
    ensures r == RangeTok(s, sep, n - 1, m - 1, 0, 0) && w == Words(s, sep, n, m)
    ensures var rest := After(s, sep, n - 1);
            && w == (if rest.None? then "" else Limited(rest.value, sep, Room(n - 1, m - 1)))
            && r == if n == 1 then Some(w) else FromThere(rest, sep, Room(n - 1, m - 1))
  {
    r, w := RangeTok(s, sep, n - 1, m - 1, 0, 0), Words(s, sep, n, m);
    assert s[0..] == s;
    WordsAre(s, sep, n, m);
    if n == 1 {
      TailIs(s, sep, 0, m - 1, 0, 0);
    } else {
      HeadIs(s, sep, n - 1, m - 1, 0, 0);
    }
  }

  /** Copying one character without a look makes a difference only if it is a separator and there is a
      limit that bites. */
  lemma FromThereIff(t: string, sep: char, room: int)
    requires t != "" && room >= -1
    ensures FromThere(Some(t), sep, room) == Some(Limited(t, sep, room)) <==>
            (t[0] == sep ==> room == -1 || Seps(t, sep) <= room)
  {
    assert [t[0]] + t[1..] == t;
    if t[0] == sep && room >= 0 {
      DoubledIff(t, sep, room);
    }
  }

  lemma DoubledIff(t: string, sep: char, k: nat)
    requires t != "" && t[0] == sep
    ensures [t[0]] + TakeWords(t[1..], sep, k) == TakeWords(t, sep, k) <==> Seps(t, sep) <= k
  {
    if k > 0 {
      TakeWordsSame(t[1..], sep, k);
      assert ([t[0]] + TakeWords(t[1..], sep, k))[1..] == TakeWords(t[1..], sep, k);
      assert TakeWords(t, sep, k)[1..] == TakeWords(t[1..], sep, k - 1);
    }
  }

  /** In text without doubled or trailing separators the words are always right. */
  lemma CleanText(s: string, sep: char, n: nat, m: nat)
    requires n >= 1 && (m == 0 || n <= m)
    requires s != "" ==> s[|s| - 1] != sep
    requires forall i | 0 <= i < |s| - 1 :: !(s[i] == sep && s[i + 1] == sep)
    ensures RangeTok(s, sep, n - 1, m - 1, 0, 0) == Some(Words(s, sep, n, m))
  {
    if n >= 2 {
      AfterClean(s, sep, n - 1);
    }
    RangeTokIff(s, sep, n, m);
  }

  lemma {:induction false} AfterClean(s: string, sep: char, k: nat)
    requires k > 0
    requires s != "" ==> s[|s| - 1] != sep
    requires forall i | 0 <= i < |s| - 1 :: !(s[i] == sep && s[i + 1] == sep)
    ensures After(s, sep, k).Some? ==>
              After(s, sep, k).value != "" && After(s, sep, k).value[0] != sep
    decreases |s|
  {
    if s != "" {
      var t := s[1..];
      assert forall i | 0 <= i < |t| :: t[i] == s[i + 1];
      var k1 := if s[0] == sep then k - 1 else k;
      if k1 > 0 {
        AfterClean(t, sep, k1);
      }
    }
  }

  /** Asking for the second word of a text that ends in the separator reads past it. */
  lemma TrailingSeparatorOverruns()
    ensures RangeTok("a ", ' ', 1, 1, 0, 0) == None
  {
    assert RangeTok("a ", ' ', 1, 1, 1, 0) == None;
  }

  /** The second word of a text with a doubled separator is empty, but more comes out. */
  lemma DoubledSeparatorGivesMore()
    ensures RangeTok("a  b", ' ', 1, 1, 0, 0) == Some(" b")
    ensures Words("a  b", ' ', 2, 2) == ""
  {
    var s := "a  b";
    assert [s[3]] + "" == "b" && [s[2]] + "b" == " b";
    assert RangeTok(s, ' ', 1, 1, 4, 1) == Some("");
    assert RangeTok(s, ' ', 1, 1, 3, 1) == Some("b");
    assert RangeTok(s, ' ', 1, 1, 1, 0) == Some(" b");
    WordsAre(s, ' ', 2, 2);
    assert s[1..] == "  b" && s[1..][1..] == " b";
    assert After(" b", ' ', 0) == Some(" b");
    assert After("  b", ' ', 1) == Some(" b");
    assert After(s, ' ', 1) == Some(" b");
  }
}
