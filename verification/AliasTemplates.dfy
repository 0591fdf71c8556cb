/** Alias expansion, second half: filling in a template. */
module AliasTemplates {
  import opened Common
  import opened CStrings
  import opened Aliases

  /** The pieces of a template. A reference to words remembers the character it ends in; a lone percent
      sign can only be at the end. */
  datatype Piece =
    | Text(c: char)
    | Percent
    | Name
    | Raw(c: char)
    | Ref(n: nat, toEnd: bool, ending: char)
    | Lone

  function Digit(c: char): nat
    requires IsDigit(c)
  {
    c as int - '0' as int
  }

  /** How many digits are read: at most two. */
  function Digits(t: string, i: nat): (k: nat)
    requires i < |t| && IsDigit(t[i])
    ensures 1 <= k <= 2 && i + k <= |t|
  {
    if i + 1 < |t| && IsDigit(t[i + 1]) then 2 else 1
  }

  function Number(t: string, i: nat): nat
    requires i < |t| && IsDigit(t[i])
  {
    if Digits(t, i) == 2 then 10 * Digit(t[i]) + Digit(t[i + 1]) else Digit(t[i])
  }

  /** The piece at index `i`, and the index behind it. */
  function PieceAt(t: string, i: nat): (r: (Piece, nat))
    requires i < |t|
    ensures i < r.1 && (r.0.Lone? <==> r.1 > |t|)
    ensures r.0.Ref? ==> i + 1 < r.1 <= |t| && r.0.ending == t[r.1 - 1] != '%'
  {
    if t[i] != '%' then (Text(t[i]), i + 1)
    else if i + 1 == |t| then (Lone, i + 2)
    else
      var c := t[i + 1];
      if c == '%' then (Percent, i + 2)
      else if IsDigit(c) then
        var e := i + 1 + Digits(t, i + 1);
        if e < |t| && t[e] == '-' then (Ref(Number(t, i + 1), true, '-'), e + 1)
        else (Ref(Number(t, i + 1), false, t[e - 1]), e)
      else if c == 'n' || c == 'N' then (Name, i + 2)
      else (Raw(c), i + 2)
  }

  function Pieces(t: string, i: nat): seq<Piece>
    decreases |t| - i
  {
    if i >= |t| then [] else [PieceAt(t, i).0] + Pieces(t, PieceAt(t, i).1)
  }

  // ---------------------------------------------------------------- how a template is written

  /** The number that one or two digits stand for. */
  predicate Decimal(d: string, n: nat) {
    || (|d| == 1 && IsDigit(d[0]) && n == Digit(d[0]))
    || (|d| == 2 && IsDigit(d[0]) && IsDigit(d[1]) && n == 10 * Digit(d[0]) + Digit(d[1]))
  }

  /** `x` is a way to write this piece. */
  ghost predicate Spells(p: Piece, x: string) {
    match p
    case Text(c) => x == [c] && c != '%'
    case Percent => x == "%%"
    case Name => x == "%n" || x == "%N"
    case Raw(c) => x == ['%', c] && c != '%' && c != 'n' && c != 'N' && !IsDigit(c)
    case Ref(n, toEnd, ending) =>
      exists d :: Decimal(d, n) && x == "%" + d + (if toEnd then "-" else "") && ending == x[|x| - 1]
    case Lone => x == "%"
  }

  /** What follows does not run into it: a reference that does not end in a dash is not followed by one,
      nor, if it has one digit, by another digit; nothing follows a lone percent sign. */
  predicate Ends(p: Piece, x: string, rest: string) {
    && (p.Lone? ==> rest == "")
    && (p.Ref? && !p.toEnd && rest != "" ==> rest[0] != '-' && (|x| == 2 ==> !IsDigit(rest[0])))
  }

  /** A piece, once written, is read as that piece, up to where it ends. */
  lemma ReadsSpelled(before: string, p: Piece, x: string, rest: string)
    requires Spells(p, x) && Ends(p, x, rest)
    ensures x != "" && PieceAt(before + x + rest, |before|).0 == p
    ensures !p.Lone? ==> PieceAt(before + x + rest, |before|).1 == |before| + |x|
  {
    var t, i := before + x + rest, |before|;
    assert x != "" && forall j | 0 <= j < |x| :: t[i + j] == x[j];
    assert rest != "" ==> t[i + |x|] == rest[0];
    if p.Ref? {
      ReadsRef(t, i, p, x, rest);
    }
  }

  lemma ReadsRef(t: string, i: nat, p: Piece, x: string, rest: string)
    requires p.Ref? && Spells(p, x) && Ends(p, x, rest)
    requires |t| == i + |x| + |rest| && forall j | 0 <= j < |x| :: t[i + j] == x[j]
    requires rest != "" ==> t[i + |x|] == rest[0]
    ensures |x| >= 2 && PieceAt(t, i) == (p, i + |x|)
  {
    var d :| Decimal(d, p.n) && x == "%" + d + (if p.toEnd then "-" else "") && p.ending == x[|x| - 1];
    assert x[0] == '%' && x[1] == d[0];
    assert t[i] == '%' && t[i + 1] == d[0];
    if |d| == 2 {
      assert x[2] == d[1] && t[i + 2] == d[1];
    }
    if p.toEnd {
      assert x[|d| + 1] == '-' && t[i + |d| + 1] == '-';
    }
    assert Digits(t, i + 1) == |d| && Number(t, i + 1) == p.n;
  }

  /** What is read at a place is what is written there. */
  lemma ReadIsSpelled(t: string, i: nat)
    requires i < |t|
    ensures var (p, e) := PieceAt(t, i);
            var x, rest := t[i..Min(e, |t|)], t[Min(e, |t|)..];
            Spells(p, x) && Ends(p, x, rest)
  {
    var (p, e) := PieceAt(t, i);
    var x := t[i..Min(e, |t|)];
    if p.Ref? {
      var d := t[i + 1..i + 1 + Digits(t, i + 1)];
      assert Decimal(d, p.n);
      assert x == "%" + d + (if p.toEnd then "-" else "");
    } else if p.Lone? {
      assert x == "%";
    } else if p.Text? {
      assert x == [t[i]];
    } else {
      assert x == [t[i], t[i + 1]];
    }
  }

  function Concat(xs: seq<string>): string {
    if xs == [] then "" else xs[0] + Concat(xs[1..])
  }

  /** These texts, one after the other, are a way to write these pieces. */
  ghost predicate AllSpelled(ps: seq<Piece>, xs: seq<string>) {
    && |ps| == |xs|
    && (ps != [] ==>
          && Spells(ps[0], xs[0]) && Ends(ps[0], xs[0], Concat(xs[1..]))
          && AllSpelled(ps[1..], xs[1..]))
  }

  /** Reading a template gives the pieces it was written from. */
  lemma {:induction false} ReadsAll(before: string, ps: seq<Piece>, xs: seq<string>) returns (t: string)
    requires AllSpelled(ps, xs)
    ensures t == before + Concat(xs) && Pieces(t, |before|) == ps
    decreases ps
  {
    if ps == [] {
      t := before;
      assert before + "" == before;
    } else {
      t := ReadsAll(before + xs[0], ps[1..], xs[1..]);
      ConcatCons(before, xs);
      if ps[0].Lone? {
        NothingMore(xs[1..], ps[1..]);
      }
      ReadsOn(before, ps[0], xs[0], Concat(xs[1..]), ps[1..], t);
      assert ps == [ps[0]] + ps[1..];
    }
  }

  lemma ReadsOn(before: string, p: Piece, x: string, rest: string, ps: seq<Piece>, t: string)
    requires Spells(p, x) && Ends(p, x, rest) && t == before + x + rest
    requires Pieces(t, |before| + |x|) == ps && (p.Lone? ==> ps == [])
    ensures Pieces(t, |before|) == [p] + ps
  {
    ReadsSpelled(before, p, x, rest);
    PiecesCons(t, |before|, p, |before| + |x|, ps);
  }

  lemma ConcatCons(before: string, xs: seq<string>)
    requires xs != []
    ensures before + Concat(xs) == before + xs[0] + Concat(xs[1..])
  {
  }

  lemma PiecesCons(t: string, i: nat, p: Piece, e: nat, rest: seq<Piece>)
    requires i < |t| && PieceAt(t, i).0 == p && Pieces(t, e) == rest && i < e <= |t|
    requires PieceAt(t, i).1 == e || (p.Lone? && rest == [])
    ensures Pieces(t, i) == [p] + rest
  {
  }

  lemma NothingMore(xs: seq<string>, ps: seq<Piece>)
    requires AllSpelled(ps, xs)
    ensures ps != [] ==> Concat(xs) != ""
  {
    if ps != [] {
      assert Spells(ps[0], xs[0]);
      assert |xs[0]| > 0;
    }
  }

  /** Every template is written from the pieces that are read. */
  lemma {:induction false} AllReadSpelled(t: string, i: nat) returns (xs: seq<string>)
    requires i <= |t|
    ensures Concat(xs) == t[i..] && AllSpelled(Pieces(t, i), xs)
    decreases |t| - i
  {
    if i == |t| {
      xs := [];
    } else {
      var (p, e) := PieceAt(t, i);
      var e1 := Min(e, |t|);
      var ys := AllReadSpelled(t, e1);
      ReadIsSpelled(t, i);
      xs := [t[i..e1]] + ys;
      assert xs[1..] == ys && t[i..] == t[i..e1] + t[e1..];
      assert Pieces(t, i) == [p] + Pieces(t, e1);
      ConsSpelled(p, t[i..e1], Pieces(t, e1), ys);
    }
  }

  lemma ConsSpelled(p: Piece, x: string, ps: seq<Piece>, xs: seq<string>)
    requires AllSpelled(ps, xs) && Spells(p, x) && Ends(p, x, Concat(xs))
    ensures AllSpelled([p] + ps, [x] + xs)
  {
    assert ([p] + ps)[1..] == ps && ([x] + xs)[1..] == xs;
  }

  // ---------------------------------------------------------------- what a template means

  /** The last word of a reference; 0 stands for the end of the request. */
  function RefEnd(n: nat, toEnd: bool): nat { if toEnd then 0 else n }

  /** The words a reference stands for: one, or all from one on; reference 0 is the whole request. */
  function Meaning(p: Piece, request: string, nick: string): string {
    match p
    case Text(c) => [c]
    case Percent => "%"
    case Name => nick
    case Raw(c) => ['%', c]
    case Ref(n, toEnd, _) => if n == 0 then request else Words(request, ' ', n, RefEnd(n, toEnd))
    case Lone => ""
  }

  /** Plain text and unknown sequences stand for themselves, %% for a percent sign, %n and %N for the
      name. */
  lemma PieceMeans(p: Piece, x: string, request: string, nick: string)
    requires Spells(p, x) && !p.Ref? && !p.Lone?
    ensures Meaning(p, request, nick) ==
            if x == "%%" then "%" else if x == "%n" || x == "%N" then nick else x
  {
  }

  /** A reference to word n stands for that word, if there are so many; with a dash, for all words from
      there on, separated as they were; reference 0 for the whole request. */
  lemma ReferenceMeans(n: nat, ending: char, request: string, nick: string)
    ensures var ws := Split(request, ' ');
            var one, rest := Meaning(Ref(n, false, ending), request, nick), Meaning(Ref(n, true, '-'), request, nick);
            if n == 0 then one == request && rest == request
            else if n <= |ws| then one == ws[n - 1] && rest == Join(ws[n - 1..], ' ')
            else one == "" && rest == ""
  {
    var ws := Split(request, ' ');
    if 1 <= n <= |ws| {
      assert ws[n - 1..n] == [ws[n - 1]] && ws[n - 1..|ws|] == ws[n - 1..];
    }
  }

  /** "%1-" hands the request on as it is, and "%1" its first word. */
  lemma FirstWordAndRest(request: string, nick: string)
    ensures Pieces("%1-", 0) == [Ref(1, true, '-')] && Pieces("%1", 0) == [Ref(1, false, '1')]
    ensures Meaning(Ref(1, true, '-'), request, nick) == request
    ensures Meaning(Ref(1, false, '1'), request, nick) == Split(request, ' ')[0]
  {
    assert PieceAt("%1-", 0) == (Ref(1, true, '-'), 3) && Pieces("%1-", 3) == [];
    assert PieceAt("%1", 0) == (Ref(1, false, '1'), 2) && Pieces("%1", 2) == [];
    ReferenceMeans(1, '1', request, nick);
    JoinAll(request, ' ');
    assert Split(request, ' ')[0..] == Split(request, ' ');
  }

  function Meanings(ps: seq<Piece>, request: string, nick: string): string {
    if ps == [] then "" else Meaning(ps[0], request, nick) + Meanings(ps[1..], request, nick)
  }

  // ---------------------------------------------------------------- what the code makes of it

  /** What strrangetok gives for a reference; nothing when it reads past the request. */
  function Referred(p: Piece, request: string): Option<string>
    requires p.Ref?
  {
    RangeTok(request, ' ', p.n - 1, RefEnd(p.n, p.toEnd) - 1, 0, 0)
  }

  predicate Missing(p: Piece, request: string) { p.Ref? && Referred(p, request) == Some("") }

  /** What the loop makes of a piece. A reference for which nothing is found gives the last character of
      the reference itself, because the loop does not step over it. */
  function Shown(p: Piece, request: string, nick: string): Option<string> {
    if p.Lone? then None
    else if !p.Ref? then Some(Meaning(p, request, nick))
    else if Missing(p, request) then Some([p.ending])
    else Referred(p, request)
  }

  /** The limit on the expansion. */
  const LIMIT: nat := 500

  predicate TooLong(p: Piece, o: string, x: string, request: string) {
    p.Ref? && !Missing(p, request) && |o| + |x| + 1 >= LIMIT
  }

  /** The expansion, continued after `o`; nothing when something is read out of bounds. */
  function Expanded(ps: seq<Piece>, o: string, request: string, nick: string): Option<string>
    decreases ps
  {
    if ps == [] || |o| >= LIMIT then Some(o)
    else
      var x := Shown(ps[0], request, nick);
      if x.None? then None
      else if TooLong(ps[0], o, x.value, request) then Some(o)
      else Expanded(ps[1..], o + x.value, request, nick)
  }

  /** A reference is appended exactly while the expansion stays below 499 characters; it is the last piece
      otherwise. */
  lemma ReferenceFitsIff(p: Piece, o: string, x: string, request: string, nick: string)
    requires p.Ref? && Referred(p, request) == Some(x) && x != ""
    ensures Expanded([p], o, request, nick) == Some(if |o| < 500 && |o| + |x| < 499 then o + x else o)
  {
    assert [p][1..] == [];
  }

  /** One turn of the loop. */
  lemma ExpandedStep(t: string, i: nat, o: string, request: string, nick: string)
    requires i < |t| && |o| < LIMIT
    ensures var (p, e) := PieceAt(t, i);
            var x := Shown(p, request, nick);
            Expanded(Pieces(t, i), o, request, nick) ==
            if x.None? then None
            else if TooLong(p, o, x.value, request) then Some(o)
            else Expanded(Pieces(t, e), o + x.value, request, nick)
  {
    var (p, e) := PieceAt(t, i);
    assert ([p] + Pieces(t, e))[1..] == Pieces(t, e);
  }

  /** Going on at the last character of a reference for which nothing is found. */
  lemma MissingStep(t: string, i: nat, o: string, request: string, nick: string)
    requires i < |t| && |o| < LIMIT && Missing(PieceAt(t, i).0, request)
    ensures Expanded(Pieces(t, i), o, request, nick) ==
            Expanded(Pieces(t, PieceAt(t, i).1 - 1), o, request, nick)
  {
    ExpandedStep(t, i, o, request, nick);
    ExpandedStep(t, PieceAt(t, i).1 - 1, o, request, nick);
  }

  lemma {:induction false} RangeTokChars(s: string, sep: char, first: int, last: int, i: nat, count: int, c: char)
    requires c !in s
    ensures var r := RangeTok(s, sep, first, last, i, count); r.Some? ==> c !in r.value
    decreases |s| - i
  {
    if i < |s| {
      var count1 := if s[i] == sep then count + 1 else count;
      var j := if s[i] == sep && count1 == first then i + 1 else i;
      RangeTokChars(s, sep, first, last, j + 1, count1, c);
    }
  }

  // ---------------------------------------------------------------- the loop

  const BUFSIZE: nat := 512

  method ReadNumber(t: string, i: nat) returns (n: nat, e: nat)
    requires i < |t| && IsDigit(t[i])
    ensures e == i + Digits(t, i) && n == Number(t, i)
  {
    var k := 0;
    e, n := i, 0;
    while e < |t| && IsDigit(t[e]) && k < 2
      invariant k <= Digits(t, i) && e == i + k
      invariant n == if k == 0 then 0 else if k == 1 then Digit(t[i]) else Number(t, i)
      decreases 2 - k
    {
      n := 10 * n + Digit(t[e]);
      e, k := e + 1, k + 1;
    }
  }

  /** A buffer that holds `o` and nothing after it. */
  ghost predicate Holds(buf: array<char>, o: string)
    reads buf
  {
    |o| < buf.Length && buf[..|o|] == o && NUL !in o && forall k | |o| <= k < buf.Length :: buf[k] == NUL
  }

  method Put(output: array<char>, j: nat, c: char)
    requires j + 1 < output.Length && Holds(output, output[..j]) && c != NUL
    modifies output
    ensures Holds(output, old(output[..j]) + [c])
  {
    output[j] := c;
    assert output[..j + 1] == old(output[..j]) + [c];
  }

  method Append(output: array<char>, j: nat, x: string)
    requires j + |x| < output.Length && Holds(output, output[..j]) && NUL !in x
    modifies output
    ensures Holds(output, old(output[..j]) + x)
  {
    ghost var o, was := output[..j], output[..];
    StrIs(output, o);
    StrLCat(output, x);
    ClipShort(o + x, output.Length);
    forall k | j + |x| < k < output.Length ensures output[k] == NUL {
      assert output[k] == output[j + |x|..][1..][k - j - |x| - 1] == was[j + |x|..][1..][k - j - |x| - 1];
    }
  }

  /** The words of a reference, or an empty string. */
  method Look(request: string, current: array<char>, p: Piece) returns (len: nat, overrun: bool)
    requires p.Ref? && |request| < current.Length && NUL !in request
    modifies current
    ensures overrun <==> Referred(p, request).None?
    ensures !overrun ==> len < current.Length && Referred(p, request) == Some(current[..len]) && NUL !in current[..len]
  {
    if p.toEnd {
      overrun := StrRangeTok(request, current, ' ', p.n, 0);
    } else {
      overrun := StrRangeTok(request, current, ' ', p.n, p.n);
    }
    len := 0;
    if !overrun {
      ghost var r := Referred(p, request).value;
      RangeTokChars(request, ' ', p.n - 1, RefEnd(p.n, p.toEnd) - 1, 0, 0, NUL);
      StrIs(current, r);
      len := StrLen(current);
    }
  }

  /** How a turn of the loop ends: it goes on, stops, or has read out of bounds. */
  datatype Flow = Next | Stop | Overrun

  /** What a turn leaves to be done: the expansion `whole` is what remains from `i` on, after what the
      buffer holds. */
  ghost predicate Remains(t: string, i: nat, request: string, nick: string, output: array<char>, j: nat,
                          flow: Flow, whole: Option<string>)
    reads output
  {
    match flow
    case Overrun => whole.None?
    case Stop => j < output.Length && Holds(output, output[..j]) && whole == Some(output[..j])
    case Next => j < output.Length && Holds(output, output[..j]) &&
                 whole == Expanded(Pieces(t, i), output[..j], request, nick)
  }

  /** The reference at `i`, whose last character is at `last`. */
  lemma RefRead(t: string, i: nat, last: nat)
    requires i + 1 < |t| && t[i] == '%' && IsDigit(t[i + 1])
    requires var e := i + 1 + Digits(t, i + 1);
             last == if e < |t| && t[e] == '-' then e else e - 1
    ensures var e := i + 1 + Digits(t, i + 1);
            last < |t| && PieceAt(t, i) == (Ref(Number(t, i + 1), e < |t| && t[e] == '-', t[last]), last + 1)
  {
  }

  /** A reference; on return `next` is at its last character when nothing was found for it. */
  method PutReference(t: string, i: nat, request: string, nick: string,
                      output: array<char>, current: array<char>, j: nat)
    returns (next: nat, k: nat, flow: Flow)
    requires i + 1 < |t| && t[i] == '%' && IsDigit(t[i + 1]) && j < LIMIT
    requires output != current && output.Length == current.Length == 1024
    requires NUL !in request && |request| < BUFSIZE && Holds(output, output[..j])
    modifies output, current
    ensures i < next <= |t| && k < LIMIT
    ensures Remains(t, next, request, nick, output, k, flow,
                    Expanded(Pieces(t, i), old(output[..j]), request, nick))
  {
    var n, e := ReadNumber(t, i + 1);
    var toEnd := e < |t| && t[e] == '-';
    next := if toEnd then e else e - 1;
    RefRead(t, i, next);
    next, k, flow := PutWords(t, i, Ref(n, toEnd, t[next]), next, request, nick, output, current, j);
  }

  /** The words of the reference `p` at `i`, whose last character is at `last`. */
  method PutWords(ghost t: string, ghost i: nat, p: Piece, last: nat, request: string, ghost nick: string,
                  output: array<char>, current: array<char>, j: nat)
    returns (next: nat, k: nat, flow: Flow)
    requires i < last < |t| && p.Ref? && PieceAt(t, i) == (p, last + 1) && j < LIMIT
    requires output != current && output.Length == current.Length == 1024
    requires NUL !in request && |request| < BUFSIZE && Holds(output, output[..j])
    modifies output, current
    ensures i < next <= |t| && k < LIMIT
    ensures Remains(t, next, request, nick, output, k, flow,
                    Expanded(Pieces(t, i), old(output[..j]), request, nick))
  {
    ghost var o := output[..j];
    ExpandedStep(t, i, o, request, nick);
    next, k := last, j;
    var len, over := Look(request, current, p);
    if over {
      flow := Overrun;
    } else if len == 0 {
      MissingStep(t, i, o, request, nick);
      flow := Next;
    } else if j + len + 1 >= LIMIT {
      flow := Stop;
    } else {
      Append(output, j, current[..len]);
      next, k := last + 1, j + len;
      flow := Next;
    }
  }

  /** What follows a percent sign. */
  method PutPercent(t: string, i: nat, request: string, nick: string,
                    output: array<char>, current: array<char>, j: nat)
    returns (next: nat, k: nat, flow: Flow)
    requires i < |t| && t[i] == '%' && j < LIMIT
    requires output != current && output.Length == current.Length == 1024
    requires NUL !in t && NUL !in request && NUL !in nick && |request| < BUFSIZE && |nick| <= HOSTLEN
    requires Holds(output, output[..j])
    modifies output, current
    ensures flow.Next? ==> i < next <= |t|
    ensures k <= LIMIT + HOSTLEN
    ensures Remains(t, next, request, nick, output, k, flow,
                    Expanded(Pieces(t, i), old(output[..j]), request, nick))
  {
    ghost var o := output[..j];
    ExpandedStep(t, i, o, request, nick);
    next, k, flow := i + 2, j, Next;
    if i + 1 == |t| {
      flow := Overrun;
    } else if t[i + 1] == '%' {
      Put(output, j, '%');
      k := j + 1;
    } else if IsDigit(t[i + 1]) {
      next, k, flow := PutReference(t, i, request, nick, output, current, j);
    } else if t[i + 1] == 'n' || t[i + 1] == 'N' {
      Append(output, j, nick);
      k := j + |nick|;
    } else {
      Put(output, j, '%');
      Put(output, j + 1, t[i + 1]);
      k := j + 2;
      assert output[..k] == o + ['%', t[i + 1]];
    }
  }

  /** One turn of the loop. */
  method Turn(t: string, i: nat, request: string, nick: string,
              output: array<char>, current: array<char>, j: nat)
    returns (next: nat, k: nat, flow: Flow)
    requires i < |t| && j < LIMIT
    requires output != current && output.Length == current.Length == 1024
    requires NUL !in t && NUL !in request && NUL !in nick && |request| < BUFSIZE && |nick| <= HOSTLEN
    requires Holds(output, output[..j])
    modifies output, current
    ensures flow.Next? ==> i < next <= |t|
    ensures k <= LIMIT + HOSTLEN
    ensures Remains(t, next, request, nick, output, k, flow,
                    Expanded(Pieces(t, i), old(output[..j]), request, nick))
  {
    if t[i] == '%' {
      next, k, flow := PutPercent(t, i, request, nick, output, current, j);
    } else {
      ExpandedStep(t, i, output[..j], request, nick);
      Put(output, j, t[i]);
      next, k, flow := i + 1, j + 1, Next;
    }
  }

  /** Filling in a template. */
  method Expand(t: string, request: string, nick: string) returns (output: array<char>, overrun: bool)
    requires NUL !in t && NUL !in request && NUL !in nick
    requires |request| < BUFSIZE && |nick| <= HOSTLEN
    ensures overrun <==> Expanded(Pieces(t, 0), "", request, nick).None?
    ensures !overrun ==> Terminated(output) && Some(Str(output)) == Expanded(Pieces(t, 0), "", request, nick)
  {
    output := new char[1024](_ => NUL);
    var current := new char[1024](_ => NUL);
    var i: nat, j: nat, flow := 0, 0, Next;
    ghost var whole := Expanded(Pieces(t, 0), "", request, nick);
    assert output[..0] == "";
    while i < |t| && j < LIMIT && flow.Next?
      invariant flow.Next? ==> i <= |t|
      invariant j <= LIMIT + HOSTLEN && output.Length == current.Length == 1024 && output != current
      invariant fresh(output) && fresh(current)
      invariant Remains(t, i, request, nick, output, j, flow, whole)
      decreases flow.Next?, |t| - i
    {
      i, j, flow := Turn(t, i, request, nick, output, current, j);
    }
    assert |output[..j]| == j;
    overrun := flow.Overrun?;
    if !overrun {
      output[j] := NUL;
      StrIs(output, output[..j]);
    }
  }

  // ---------------------------------------------------------------- what the code gives

  /** The expansion never exceeds 562 characters, in a buffer of 1024. */
  lemma {:induction false} ExpandedBound(ps: seq<Piece>, o: string, request: string, nick: string)
    requires |o| <= LIMIT - 1 + HOSTLEN && |nick| <= HOSTLEN
    ensures Expanded(ps, o, request, nick).Some? ==>
              |Expanded(ps, o, request, nick).value| <= LIMIT - 1 + HOSTLEN == 562
    decreases ps
  {
    if ps != [] && |o| < LIMIT {
      var x := Shown(ps[0], request, nick);
      if x.Some? && !TooLong(ps[0], o, x.value, request) {
        ExpandedBound(ps[1..], o + x.value, request, nick);
      }
    }
  }

  ghost predicate InBounds(p: Piece, request: string) {
    !p.Lone? && (p.Ref? && p.n >= 1 ==> !EndsThere(request, ' ', p.n))
  }

  /** A piece is shown exactly when it is not a lone percent sign, nor a reference whose word is cut off by
      the end of the request. */
  lemma ShownIff(p: Piece, request: string, nick: string)
    ensures Shown(p, request, nick).Some? <==> InBounds(p, request)
  {
    if p.Ref? {
      if p.n == 0 {
        WholeRequest(p, request);
      } else {
        OverrunIff(request, ' ', p.n, RefEnd(p.n, p.toEnd));
      }
    }
  }

  /** Reference 0 gives the whole request. */
  lemma WholeRequest(p: Piece, request: string)
    requires p.Ref? && p.n == 0
    ensures Referred(p, request) == Some(request)
  {
    TailIs(request, ' ', -1, -1, 0, 0);
    assert request[0..] == request;
  }

  /** strrangetok gives the words a reference means, or something where it means nothing. */
  lemma WordsOrMore(n: nat, m: nat, request: string) returns (r: Option<string>, w: string)
    requires n >= 1 && (m == 0 || m == n) && !EndsThere(request, ' ', n)
    ensures r == RangeTok(request, ' ', n - 1, m - 1, 0, 0) && w == Words(request, ' ', n, m)
    ensures r == Some(w) || (w == "" && r.Some? && r.value != "")
  {
    r, w := RangeTok(request, ' ', n - 1, m - 1, 0, 0), Words(request, ' ', n, m);
    RangeTokIff(request, ' ', n, m);
    if DoubledThere(request, ' ', n) && m == n {
      WordsAre(request, ' ', n, m);
      assert request[0..] == request;
      HeadIs(request, ' ', n - 1, n - 1, 0, 0);
    }
  }

  lemma ReferredIs(p: Piece, request: string, nick: string) returns (r: Option<string>, w: string)
    requires p.Ref? && InBounds(p, request)
    ensures r == Referred(p, request) && w == Meaning(p, request, nick)
    ensures r == Some(w) || (w == "" && r.Some? && r.value != "")
  {
    if p.n == 0 {
      r, w := Some(request), request;
      WholeRequest(p, request);
    } else {
      r, w := ReferredWords(p, request, nick);
    }
  }

  lemma ReferredWords(p: Piece, request: string, nick: string) returns (r: Option<string>, w: string)
    requires p.Ref? && p.n >= 1 && !EndsThere(request, ' ', p.n)
    ensures r == Referred(p, request) && w == Meaning(p, request, nick)
    ensures r == Some(w) || (w == "" && r.Some? && r.value != "")
  {
    r, w := WordsOrMore(p.n, RefEnd(p.n, p.toEnd), request);
  }

  /** A piece shows what it means, unless it is a reference that means nothing; that shows something. */
  lemma ShownRightIff(p: Piece, request: string, nick: string)
    requires InBounds(p, request)
    ensures Shown(p, request, nick).Some?
    ensures var x, y := Shown(p, request, nick).value, Meaning(p, request, nick);
            if p.Ref? && y == "" then |x| > |y| else x == y
  {
    if p.Ref? {
      var r, _ := ReferredIs(p, request, nick);
      assert Shown(p, request, nick) == if r == Some("") then Some([p.ending]) else r;
    }
  }

  ghost predicate AllInBounds(ps: seq<Piece>, request: string) {
    forall i | 0 <= i < |ps| :: InBounds(ps[i], request)
  }

  /** What is shown in all, without the limit. */
  ghost function AllShown(ps: seq<Piece>, request: string, nick: string): string {
    if ps == [] then ""
    else
      var x := Shown(ps[0], request, nick);
      (if x.None? then "" else x.value) + AllShown(ps[1..], request, nick)
  }

  ghost predicate Stops(p: Piece, o: string, request: string, nick: string) {
    |o| >= LIMIT || (Shown(p, request, nick).Some? && TooLong(p, o, Shown(p, request, nick).value, request))
  }

  /** The expansion is what is shown of the pieces before some cut; there is a next piece only if it does
      not fit. */
  lemma {:induction false} ExpandedIsPrefix(ps: seq<Piece>, o: string, request: string, nick: string)
    returns (cut: nat)
    requires AllInBounds(ps, request)
    ensures cut <= |ps|
    ensures Expanded(ps, o, request, nick) == Some(o + AllShown(ps[..cut], request, nick))
    ensures cut < |ps| ==> Stops(ps[cut], o + AllShown(ps[..cut], request, nick), request, nick)
    decreases ps
  {
    cut := 0;
    assert ps[..0] == [] && o + "" == o;
    if ps != [] {
      assert InBounds(ps[0], request);
      ShownIff(ps[0], request, nick);
      if !Stops(ps[0], o, request, nick) {
        var x, rest := Shown(ps[0], request, nick).value, ps[1..];
        assert forall i | 0 <= i < |rest| :: rest[i] == ps[i + 1];
        var c := ExpandedIsPrefix(rest, o + x, request, nick);
        cut := c + 1;
        assert ps[..cut][0] == ps[0] && ps[..cut][1..] == rest[..c];
        var more := AllShown(rest[..c], request, nick);
        assert o + (x + more) == o + x + more;
      }
    }
  }

  /** The loop comes to piece `c`: none of the pieces before it is out of bounds or stops the loop. */
  ghost predicate Reaches(ps: seq<Piece>, o: string, c: nat, request: string, nick: string)
    requires c <= |ps|
  {
    forall i | 0 <= i < c ::
      InBounds(ps[i], request) && !Stops(ps[i], o + AllShown(ps[..i], request, nick), request, nick)
  }

  /** At piece `c` the loop reads out of bounds. */
  ghost predicate OverrunsAt(ps: seq<Piece>, o: string, c: nat, request: string, nick: string)
    requires c < |ps|
  {
    && Reaches(ps, o, c, request, nick)
    && !InBounds(ps[c], request) && |o + AllShown(ps[..c], request, nick)| < LIMIT
  }

  lemma ShownFirst(ps: seq<Piece>, o: string, i: nat, request: string, nick: string)
    requires i < |ps| && Shown(ps[0], request, nick).Some?
    ensures o + AllShown(ps[..i + 1], request, nick) ==
            o + Shown(ps[0], request, nick).value + AllShown(ps[1..][..i], request, nick)
  {
    assert ps[..i + 1][0] == ps[0] && ps[..i + 1][1..] == ps[1..][..i];
    var x, more := Shown(ps[0], request, nick).value, AllShown(ps[1..][..i], request, nick);
    assert o + (x + more) == o + x + more;
  }

  lemma ReachesFirst(ps: seq<Piece>, o: string, c: nat, request: string, nick: string)
    requires c < |ps| && InBounds(ps[0], request) && !Stops(ps[0], o, request, nick)
    requires Shown(ps[0], request, nick).Some?
    ensures Reaches(ps, o, c + 1, request, nick) <==>
            Reaches(ps[1..], o + Shown(ps[0], request, nick).value, c, request, nick)
  {
    var rest := ps[1..];
    assert ps[..0] == [] && o + "" == o;
    forall i | 0 <= i < c
      ensures o + AllShown(ps[..i + 1], request, nick) ==
              o + Shown(ps[0], request, nick).value + AllShown(rest[..i], request, nick)
      ensures rest[i] == ps[i + 1]
    {
      ShownFirst(ps, o, i, request, nick);
    }
    if Reaches(rest, o + Shown(ps[0], request, nick).value, c, request, nick) {
      forall i | 0 <= i < c + 1
        ensures InBounds(ps[i], request) && !Stops(ps[i], o + AllShown(ps[..i], request, nick), request, nick)
      {
        assert i > 0 ==> ps[i] == rest[i - 1] && InBounds(rest[i - 1], request);
      }
    }
    if Reaches(ps, o, c + 1, request, nick) {
      forall i | 0 <= i < c
        ensures InBounds(rest[i], request)
        ensures !Stops(rest[i], o + Shown(ps[0], request, nick).value + AllShown(rest[..i], request, nick),
                       request, nick)
      {
        assert InBounds(ps[i + 1], request);
      }
    }
  }

  lemma OverrunsFirst(ps: seq<Piece>, o: string, c: nat, request: string, nick: string)
    requires c + 1 < |ps| && InBounds(ps[0], request) && !Stops(ps[0], o, request, nick)
    requires Shown(ps[0], request, nick).Some?
    ensures OverrunsAt(ps, o, c + 1, request, nick) <==>
            OverrunsAt(ps[1..], o + Shown(ps[0], request, nick).value, c, request, nick)
  {
    ReachesFirst(ps, o, c, request, nick);
    ShownFirst(ps, o, c, request, nick);
  }

  ghost predicate Overruns(ps: seq<Piece>, o: string, request: string, nick: string) {
    exists c | 0 <= c < |ps| :: OverrunsAt(ps, o, c, request, nick)
  }

  /** The loop reads out of bounds exactly when, before it stops, it comes to a lone percent sign or to a
      reference whose word is cut off by the end of the request. */
  lemma {:induction false} ExpandedNoneIff(ps: seq<Piece>, o: string, request: string, nick: string)
    ensures Expanded(ps, o, request, nick).None? <==> Overruns(ps, o, request, nick)
    decreases ps
  {
    if ps != [] {
      ShownIff(ps[0], request, nick);
      assert ps[..0] == [] && o + "" == o;
      if !InBounds(ps[0], request) {
        OverrunsOnlyFirst(ps, o, request, nick);
      } else if Stops(ps[0], o, request, nick) {
        StopsFirst(ps, o, request, nick);
      } else {
        var x := Shown(ps[0], request, nick).value;
        ExpandedNoneIff(ps[1..], o + x, request, nick);
        OverrunsLater(ps, o, request, nick);
      }
    }
  }

  lemma OverrunsOnlyFirst(ps: seq<Piece>, o: string, request: string, nick: string)
    requires ps != [] && !InBounds(ps[0], request)
    ensures Overruns(ps, o, request, nick) <==> |o| < LIMIT
  {
    assert ps[..0] == [] && o + "" == o;
    assert OverrunsAt(ps, o, 0, request, nick) <==> |o| < LIMIT;
    forall c | 0 < c < |ps| ensures !OverrunsAt(ps, o, c, request, nick) {
      assert !InBounds(ps[0], request);
    }
  }

  lemma StopsFirst(ps: seq<Piece>, o: string, request: string, nick: string)
    requires ps != [] && InBounds(ps[0], request) && Stops(ps[0], o, request, nick)
    ensures !Overruns(ps, o, request, nick)
  {
    assert ps[..0] == [] && o + "" == o;
    forall c | 0 <= c < |ps| ensures !OverrunsAt(ps, o, c, request, nick) {
      assert Stops(ps[0], o + AllShown(ps[..0], request, nick), request, nick);
    }
  }

  lemma OverrunsLater(ps: seq<Piece>, o: string, request: string, nick: string)
    requires ps != [] && InBounds(ps[0], request) && !Stops(ps[0], o, request, nick)
    requires Shown(ps[0], request, nick).Some?
    ensures Overruns(ps, o, request, nick) <==>
            Overruns(ps[1..], o + Shown(ps[0], request, nick).value, request, nick)
  {
    var rest, o1 := ps[1..], o + Shown(ps[0], request, nick).value;
    if Overruns(ps, o, request, nick) {
      var c :| 0 <= c < |ps| && OverrunsAt(ps, o, c, request, nick);
      OverrunsFirst(ps, o, c - 1, request, nick);
      assert OverrunsAt(rest, o1, c - 1, request, nick);
    }
    if Overruns(rest, o1, request, nick) {
      var c :| 0 <= c < |rest| && OverrunsAt(rest, o1, c, request, nick);
      OverrunsFirst(ps, o, c, request, nick);
      assert OverrunsAt(ps, o, c + 1, request, nick);
    }
  }

  /** No piece stops the loop. */
  ghost predicate Whole(ps: seq<Piece>, request: string, nick: string) {
    forall c | 0 <= c < |ps| :: !Stops(ps[c], AllShown(ps[..c], request, nick), request, nick)
  }

  lemma {:induction false} ShownPart(ps: seq<Piece>, c: nat, request: string, nick: string)
    requires AllInBounds(ps, request) && c < |ps|
    ensures Shown(ps[c], request, nick).Some?
    ensures |AllShown(ps[..c], request, nick)| + |Shown(ps[c], request, nick).value| <=
            |AllShown(ps, request, nick)|
    decreases ps
  {
    assert InBounds(ps[c], request) && InBounds(ps[0], request);
    ShownIff(ps[c], request, nick);
    ShownIff(ps[0], request, nick);
    var rest := ps[1..];
    assert forall i | 0 <= i < |rest| :: rest[i] == ps[i + 1];
    if c > 0 {
      ShownPart(rest, c - 1, request, nick);
      assert ps[..c][0] == ps[0] && ps[..c][1..] == rest[..c - 1];
    }
  }

  /** A template that shows fewer than 499 characters is never stopped. */
  lemma ShortIsWhole(ps: seq<Piece>, request: string, nick: string)
    requires AllInBounds(ps, request) && |AllShown(ps, request, nick)| + 1 < LIMIT
    ensures Whole(ps, request, nick)
  {
    forall c | 0 <= c < |ps| ensures !Stops(ps[c], AllShown(ps[..c], request, nick), request, nick) {
      ShownPart(ps, c, request, nick);
    }
  }

  /** No reference stands for nothing. */
  ghost predicate NoneEmpty(ps: seq<Piece>, request: string, nick: string) {
    forall i | 0 <= i < |ps| :: ps[i].Ref? ==> Meaning(ps[i], request, nick) != ""
  }

  /** What is shown is never shorter than what is meant, and the same only if no reference is empty. */
  lemma {:induction false} AllShownIff(ps: seq<Piece>, request: string, nick: string)
    requires AllInBounds(ps, request)
    ensures |AllShown(ps, request, nick)| >= |Meanings(ps, request, nick)|
    ensures NoneEmpty(ps, request, nick) ==> AllShown(ps, request, nick) == Meanings(ps, request, nick)
    ensures !NoneEmpty(ps, request, nick) ==> |AllShown(ps, request, nick)| > |Meanings(ps, request, nick)|
  {
    if ps != [] {
      var rest := ps[1..];
      assert forall i | 0 <= i < |rest| :: rest[i] == ps[i + 1];
      assert InBounds(ps[0], request);
      ShownRightIff(ps[0], request, nick);
      AllShownIff(rest, request, nick);
      NoneEmptyCons(ps, request, nick);
    }
  }

  lemma NoneEmptyCons(ps: seq<Piece>, request: string, nick: string)
    requires ps != []
    ensures NoneEmpty(ps, request, nick) <==>
            (ps[0].Ref? ==> Meaning(ps[0], request, nick) != "") && NoneEmpty(ps[1..], request, nick)
  {
    var rest := ps[1..];
    assert forall i | 0 <= i < |rest| :: rest[i] == ps[i + 1];
    if NoneEmpty(rest, request, nick) && (ps[0].Ref? ==> Meaning(ps[0], request, nick) != "") {
      forall i | 0 <= i < |ps| ensures ps[i].Ref? ==> Meaning(ps[i], request, nick) != "" {
        assert i > 0 ==> ps[i] == rest[i - 1];
      }
    }
  }

  lemma {:induction false} FirstOutOfBounds(ps: seq<Piece>, n: nat, request: string) returns (c: nat)
    requires n <= |ps| && !AllInBounds(ps[..n], request)
    ensures c < n && !InBounds(ps[c], request) && forall i | 0 <= i < c :: InBounds(ps[i], request)
  {
    if n > 1 && !AllInBounds(ps[..n - 1], request) {
      c := FirstOutOfBounds(ps, n - 1, request);
    } else {
      c := n - 1;
      forall i | 0 <= i < c ensures InBounds(ps[i], request) {
        assert ps[..n - 1][i] == ps[i];
      }
      var j :| 0 <= j < n && !InBounds(ps[..n][j], request);
      assert ps[..n][j] == ps[j];
    }
  }

  /** A template that nothing stops expands to what it means exactly when all of it is in bounds and no
      reference in it stands for nothing. */
  lemma ExpansionRightIff(t: string, request: string, nick: string)
    requires Whole(Pieces(t, 0), request, nick)
    ensures Expanded(Pieces(t, 0), "", request, nick) == Some(Meanings(Pieces(t, 0), request, nick)) <==>
            AllInBounds(Pieces(t, 0), request) && NoneEmpty(Pieces(t, 0), request, nick)
  {
    var ps := Pieces(t, 0);
    if AllInBounds(ps, request) {
      WholeExpands(ps, request, nick);
      AllShownIff(ps, request, nick);
    } else {
      OutOfBoundsFails(ps, request, nick);
    }
  }

  lemma WholeExpands(ps: seq<Piece>, request: string, nick: string)
    requires Whole(ps, request, nick) && AllInBounds(ps, request)
    ensures Expanded(ps, "", request, nick) == Some(AllShown(ps, request, nick))
  {
    var cut := ExpandedIsPrefix(ps, "", request, nick);
    assert "" + AllShown(ps[..cut], request, nick) == AllShown(ps[..cut], request, nick);
    assert ps[..|ps|] == ps;
  }

  lemma OutOfBoundsFails(ps: seq<Piece>, request: string, nick: string)
    requires Whole(ps, request, nick) && !AllInBounds(ps, request)
    ensures Expanded(ps, "", request, nick).None?
  {
    assert ps[..|ps|] == ps;
    var c := FirstOutOfBounds(ps, |ps|, request);
    forall i | 0 <= i <= c ensures "" + AllShown(ps[..i], request, nick) == AllShown(ps[..i], request, nick) {
    }
    assert !Stops(ps[c], AllShown(ps[..c], request, nick), request, nick);
    assert OverrunsAt(ps, "", c, request, nick);
    ExpandedNoneIff(ps, "", request, nick);
  }

  /** A template that is a percent sign is read past its end. */
  lemma LonePercentOverruns(request: string, nick: string)
    ensures Expanded(Pieces("%", 0), "", request, nick) == None
  {
    assert PieceAt("%", 0) == (Lone, 2);
    assert Pieces("%", 0) == [Lone];
  }

  /** A reference to the second of one word shows its own digit. */
  lemma MissingWordShowsDigit(nick: string)
    ensures Expanded(Pieces("%2", 0), "", "a", nick) == Some("2")
    ensures Meanings(Pieces("%2", 0), "a", nick) == ""
  {
    var t, p := "%2", Ref(2, false, '2');
    assert PieceAt(t, 0) == (p, 2);
    assert Pieces(t, 2) == [];
    assert Pieces(t, 0) == [p];
    assert RangeTok("a", ' ', 1, 1, 1, 0) == Some("");
    assert Referred(p, "a") == Some("");
    assert Split("a", ' ') == ["a"];
    assert Meaning(p, "a", nick) == "";
    assert Shown(p, "a", nick) == Some("2") && [p][1..] == [] && "" + "2" == "2";
    assert Expanded([], "2", "a", nick) == Some("2");
    assert Expanded([p], "", "a", nick) == Some("2");
  }
}
