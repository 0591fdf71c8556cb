/** NUL-terminated strings in fixed-size buffers. */
module CStrings {
  import opened Common

  ghost predicate Terminated(buf: array<char>)
    reads buf
  {
    NUL in buf[..]
  }

  /** The C string in a buffer. */
  ghost function Str(buf: array<char>): string
    reads buf
  {
    buf[..IndexOf(buf[..], NUL)]
  }

  /** A buffer whose first NUL is at `n` holds the `n` characters before it. */
  lemma StrIs(buf: array<char>, s: string)
    requires |s| < buf.Length && buf[..|s|] == s && buf[|s|] == NUL && NUL !in s
    ensures Terminated(buf) && Str(buf) == s
  {
    assert buf[..][|s|] == NUL;
    forall i | 0 <= i < |s| ensures buf[..][i] != NUL {
      assert buf[..|s|][i] == s[i];
    }
  }

  method StrLen(buf: array<char>) returns (n: nat)
    requires Terminated(buf)
    ensures n < buf.Length && n == |Str(buf)| && buf[n] == NUL
    ensures Str(buf) == buf[..n] && NUL !in Str(buf)
  {
    n := 0;
    ghost var k := IndexOf(buf[..], NUL);
    assert k < buf.Length;
    while buf[n] != NUL
      invariant n <= k
      decreases k - n
    {
      n := n + 1;
    }
    assert buf[..][n] == NUL;
  }

  /** strlcat: what does not fit is dropped. */
  method StrLCat(dst: array<char>, src: string)
    requires Terminated(dst) && NUL !in src
    modifies dst
    ensures Terminated(dst) && Str(dst) == Clip(old(Str(dst)) + src, dst.Length)
    ensures dst[|Str(dst)|..][1..] == old(dst[..])[|Str(dst)|..][1..]
  {
    var n := StrLen(dst);
    ghost var was, s := dst[..], Str(dst);
    var len := |src|;
    if len >= dst.Length - n {
      len := dst.Length - n - 1;
    }
    for i := 0 to len
      invariant dst[..n] == s && dst[n..n + i] == src[..i]
      invariant dst[n + i..] == was[n + i..]
    {
      dst[n + i] := src[i];
    }
    assert dst[..n + len] == s + src[..len];
    dst[n + len] := NUL;
    StrIs(dst, s + src[..len]);
  }
}
