/** Normalising a plain ban to nick!user@host. */
module BanMask {
  import opened Common

  const NICKLEN: nat := 30
  const USERLEN: nat := 10

  /** The size of the buffers for nick!user@host: NICKLEN + USERLEN + HOSTLEN + 3. */
  const MASK_SIZE: nat := 106

  /** The position of the last `c` in `s`, or |s| when there is none (strrchr). */
  function LastIndexOf(s: string, c: char): (k: nat)
    ensures k <= |s|
    ensures k < |s| ==> s[k] == c
    ensures forall i | 0 <= i < |s| && s[i] == c :: i <= k < |s|
  {
    if s == [] then 0
    else if s[|s| - 1] == c then |s| - 1
    else
      var k := LastIndexOf(s[..|s| - 1], c);
      assert forall i | 0 <= i < |s| - 1 :: s[..|s| - 1][i] == s[i];
      if k == |s| - 1 then |s| else k
  }

  /** trim_str: keep the end, with a star for what was cut. */
  function Trim(s: string, len: nat): string
    requires len > 0
  {
    if |s| > len then "*" + s[|s| - len + 1..] else s
  }

  function Star(s: string): string { if s == "" then "*" else s }

  /** make_nick_user_host_r; a missing part is passed as "". */
  function Mask(nick: string, user: string, host: string): string {
    Star(nick) + "!" + Star(user) + "@" + Star(host)
  }

  datatype Parts = Parts(nick: string, user: string, host: string)

  /** How convert_regular_ban takes a ban apart; what is missing is "". */
  function Split(mask: string): Parts {
    var bang := IndexOf(mask, '!');
    if bang < |mask| then
      var rest := mask[bang + 1..];
      var at := LastIndexOf(rest, '@');
      Parts(mask[..bang], rest[..at], if at < |rest| then rest[at + 1..] else "")
    else
      var at := LastIndexOf(mask, '@');
      if at < |mask| then Parts("", mask[..at], mask[at + 1..])
      else if '.' in mask || ':' in mask then Parts("", "", mask)
      else Parts(mask, "", "")
  }

  /** convert_regular_ban. */
  function Convert(mask: string): Option<string> {
    if mask == "" || (mask[0] == '~' && '@' !in mask) then None
    else
      var p := Split(mask);
      Some(Mask(Trim(p.nick, NICKLEN), Trim(p.user, USERLEN), Trim(p.host, HOSTLEN)))
  }

  /** A proper mask: each part present, within its length, and free of the separator around it. */
  ghost predicate Proper(n: string, u: string, h: string) {
    && 0 < |n| <= NICKLEN && '!' !in n
    && 0 < |u| <= USERLEN
    && 0 < |h| <= HOSTLEN && '@' !in h
  }

  ghost predicate MadeOf(s: string, mask: string) {
    forall i | 0 <= i < |s| :: s[i] == '*' || s[i] in mask
  }

  lemma SplitFacts(mask: string)
    ensures var p := Split(mask);
            && '!' !in p.nick && '@' !in p.host
            && MadeOf(p.nick, mask) && MadeOf(p.user, mask) && MadeOf(p.host, mask)
            && (p.nick != "" ==> p.nick[0] == mask[0])
  {
    var bang := IndexOf(mask, '!');
    if bang < |mask| {
      var rest := mask[bang + 1..];
      var at := LastIndexOf(rest, '@');
      assert forall i | 0 <= i < |rest| :: rest[i] == mask[i + bang + 1];
    }
  }

  /** Trimming and starring keep a part within its length and free of a separator. */
  lemma TrimFacts(s: string, len: nat, mask: string)
    requires len > 0 && MadeOf(s, mask)
    ensures 0 < |Star(Trim(s, len))| <= len && MadeOf(Star(Trim(s, len)), mask)
    ensures forall c | c != '*' && c !in s :: c !in Star(Trim(s, len))
    ensures Star(Trim(s, len))[0] == '*' || (s != "" && Star(Trim(s, len))[0] == s[0])
  {
  }

  /** The result is a proper mask, made of the characters of the input and stars and separators. */
  lemma ConvertedIsProper(mask: string) returns (n: string, u: string, h: string)
    requires Convert(mask).Some?
    ensures Proper(n, u, h) && Convert(mask).value == n + "!" + u + "@" + h
    ensures MadeOf(n, mask) && MadeOf(u, mask) && MadeOf(h, mask)
    ensures n[0] == '~' ==> mask[0] == '~'
  {
    var p := Split(mask);
    SplitFacts(mask);
    TrimFacts(p.nick, NICKLEN, mask);
    TrimFacts(p.user, USERLEN, mask);
    TrimFacts(p.host, HOSTLEN, mask);
    n, u, h := Star(Trim(p.nick, NICKLEN)), Star(Trim(p.user, USERLEN)), Star(Trim(p.host, HOSTLEN));
  }

  /** Trimming keeps a part that fits, and otherwise its end behind a star. */
  lemma TrimKeepsEnd(s: string, len: nat)
    requires len > 0
    ensures |s| <= len ==> Trim(s, len) == s
    ensures |s| > len ==>
              && |Trim(s, len)| == len && Trim(s, len)[0] == '*'
              && forall i | 0 < i < len :: Trim(s, len)[i] == s[|s| - len + i]
  {
  }

  /** A nick may have 30 characters, a user 10 and a host 63. */
  lemma PartLengths(s: string)
    ensures Trim(s, NICKLEN) == s <==> |s| <= 30
    ensures Trim(s, USERLEN) == s <==> |s| <= 10
    ensures Trim(s, HOSTLEN) == s <==> |s| <= 63
  {
  }

  /** An address, which has no ! and no @ but a dot or a colon, is a host. */
  lemma AddressIsHost(mask: string)
    requires '!' !in mask && '@' !in mask && ('.' in mask || ':' in mask) && mask[0] != '~'
    ensures Convert(mask) == Some("*!*@" + Trim(mask, HOSTLEN))
  {
    assert Trim(mask, HOSTLEN) != "";
    assert "*" + "!" + "*" + "@" + Trim(mask, HOSTLEN) == "*!*@" + Trim(mask, HOSTLEN);
  }

  /** Anything else without ! and @ is a nick. */
  lemma WordIsNick(mask: string)
    requires mask != "" && '!' !in mask && '@' !in mask && '.' !in mask && ':' !in mask && mask[0] != '~'
    ensures Convert(mask) == Some(Trim(mask, NICKLEN) + "!*@*")
  {
    assert Trim(mask, NICKLEN) != "";
    assert Trim(mask, NICKLEN) + "!" + "*" + "@" + "*" == Trim(mask, NICKLEN) + "!*@*";
  }

  /** Without !, what is before the last @ is the user and what is behind it is the host. */
  lemma UserAtHost(user: string, host: string)
    requires '!' !in user && '!' !in host && '@' !in host
    ensures Convert(user + "@" + host) ==
            Some("*!" + Star(Trim(user, USERLEN)) + "@" + Star(Trim(host, HOSTLEN)))
  {
    var mask := user + "@" + host;
    LastIndexOfLast(user, '@', host);
    assert mask[..|user|] == user && mask[|user| + 1..] == host;
    assert mask[|user|] == '@' && '!' !in mask;
    assert IndexOf(mask, '!') == |mask|;
    assert Split(mask) == Parts("", user, host);
    assert Star(Trim("", NICKLEN)) == "*" && "*" + "!" == "*!";
  }

  /** The first ! ends the nick; behind it, without @, everything is the user. */
  lemma NickAndUser(nick: string, user: string)
    requires '!' !in nick && '@' !in user && (nick != "" && nick[0] == '~' ==> '@' in nick)
    ensures Convert(nick + "!" + user) ==
            Some(Star(Trim(nick, NICKLEN)) + "!" + Star(Trim(user, USERLEN)) + "@*")
  {
    var mask := nick + "!" + user;
    IndexOfFirst(nick, '!', user);
    assert mask[..|nick|] == nick && mask[|nick| + 1..] == user && user[..|user|] == user;
    if '@' in nick {
      var i :| 0 <= i < |nick| && nick[i] == '@';
      assert mask[i] == '@';
    }
    assert Star(Trim("", HOSTLEN)) == "*";
    var a, b := Star(Trim(nick, NICKLEN)), Star(Trim(user, USERLEN));
    assert a + "!" + b + "@" + "*" == a + "!" + b + "@*";
  }

  /** With both, the first ! and the last @ behind it divide the mask. */
  lemma NickUserHost(nick: string, user: string, host: string)
    requires '!' !in nick && '@' !in host
    ensures Convert(nick + "!" + user + "@" + host) ==
            Some(Star(Trim(nick, NICKLEN)) + "!" + Star(Trim(user, USERLEN)) + "@" + Star(Trim(host, HOSTLEN)))
  {
    SplitMask(nick, user, host);
    var mask := nick + "!" + user + "@" + host;
    assert mask[|nick| + 1 + |user|] == '@';
  }

  /** Nothing is made of an empty mask, or of one that looks like an extended ban and has no @. */
  lemma RefusedIff(mask: string)
    ensures Convert(mask).None? <==> mask == "" || (mask[0] == '~' && '@' !in mask)
  {
  }

  lemma IndexOfFirst(a: string, c: char, b: string)
    requires c !in a
    ensures IndexOf(a + [c] + b, c) == |a|
  {
    var s := a + [c] + b;
    assert s[|a|] == c;
    assert forall i | 0 <= i < |a| :: s[i] == a[i];
  }

  lemma {:induction false} LastIndexOfLast(a: string, c: char, b: string)
    requires c !in b
    ensures LastIndexOf(a + [c] + b, c) == |a|
  {
    var s := a + [c] + b;
    if b != "" {
      LastIndexOfLast(a, c, b[..|b| - 1]);
      assert s[..|s| - 1] == a + [c] + b[..|b| - 1];
    }
  }

  /** Taking a mask apart gives the parts it was put together from. */
  lemma SplitMask(n: string, u: string, h: string)
    requires '!' !in n && '@' !in h
    ensures Split(n + "!" + u + "@" + h) == Parts(n, u, h)
  {
    var rest := u + "@" + h;
    var mask := n + "!" + rest;
    assert mask == n + "!" + u + "@" + h;
    IndexOfFirst(n, '!', rest);
    LastIndexOfLast(u, '@', h);
    assert mask[..|n|] == n && mask[|n| + 1..] == rest;
    assert rest[..|u|] == u && rest[|u| + 1..] == h;
  }

  /** A proper mask is left as it is. */
  lemma ProperUnchanged(n: string, u: string, h: string)
    requires Proper(n, u, h)
    ensures Convert(n + "!" + u + "@" + h) == Some(n + "!" + u + "@" + h)
  {
    SplitMask(n, u, h);
    var mask := n + "!" + u + "@" + h;
    assert mask[|n| + 1 + |u|] == '@';
  }

  /** Converting twice is converting once. */
  lemma ConvertIdempotent(mask: string)
    requires Convert(mask).Some?
    ensures Convert(Convert(mask).value) == Convert(mask)
  {
    var n, u, h := ConvertedIsProper(mask);
    ProperUnchanged(n, u, h);
  }

  /** extban_conv_param_nuh: convert a copy in a buffer. */
  function ConvertCopy(mask: string): Option<string> { Convert(Clip(mask, MASK_SIZE)) }

  /** What it takes for a plain ban to be convertible. */
  predicate Convertible(mask: string) {
    mask != "" && (mask[0] == '~' ==> '@' in Clip(mask, MASK_SIZE))
  }

  lemma ConvertCopyFacts(mask: string)
    ensures ConvertCopy(mask).Some? <==> Convertible(mask)
    ensures ConvertCopy(mask).Some? ==> 0 < |ConvertCopy(mask).value| < MASK_SIZE
    ensures ConvertCopy(mask).Some? ==> ConvertCopy(ConvertCopy(mask).value) == ConvertCopy(mask)
  {
    if ConvertCopy(mask).Some? {
      var n, u, h := ConvertedIsProper(Clip(mask, MASK_SIZE));
      ClipShort(ConvertCopy(mask).value, MASK_SIZE);
      ConvertIdempotent(Clip(mask, MASK_SIZE));
    }
  }
}
