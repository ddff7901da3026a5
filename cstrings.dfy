/** NUL-terminated character buffers and the C library calls the tracker makes on them:
    snprintf/sprintf of an already formatted text, strlen and strcat. */
module CStrings {

  const NUL: char := '\0'

  function Min(a: nat, b: nat): nat { if a < b then a else b }

  /** The string a char pointer to the start of s denotes: everything before the first NUL. */
  function CString(s: seq<char>): (r: seq<char>)
    ensures NUL !in r
    ensures |r| <= |s| && r == s[..|r|]
    ensures |r| < |s| ==> s[|r|] == NUL
    ensures NUL in s ==> |r| < |s|
  {
    if s == [] || s[0] == NUL then [] else [s[0]] + CString(s[1..])
  }

  /** Three NUL-free strings joined: no NUL, and the first and last are where they were put. */
  lemma JoinParts(a: seq<char>, b: seq<char>, c: seq<char>)
    requires NUL !in a && NUL !in b && NUL !in c
    ensures NUL !in a + b + c
    ensures (a + b + c)[..|a|] == a && (a + b + c)[|a| + |b|..] == c
  {
  }

  /** A text followed by its terminator is read back as that text, whatever comes after. */
  lemma {:induction false} CStringOfTerminated(t: seq<char>, rest: seq<char>)
    requires NUL !in t
    ensures CString(t + [NUL] + rest) == t
  {
    if t != [] {
      assert (t + [NUL] + rest)[1..] == t[1..] + [NUL] + rest;
      CStringOfTerminated(t[1..], rest);
    }
  }

  /** A char array of the given size initialised from a string literal, as in
      char buf[size] = "init": the literal, then NUL up to the end. */
  method InitBuffer(init: seq<char>, size: nat) returns (buf: array<char>)
    requires NUL !in init && |init| < size
    ensures fresh(buf) && buf.Length == size
    ensures buf[..|init|] == init && forall i :: |init| <= i < size ==> buf[i] == NUL
    ensures CString(buf[..]) == init
  {
    buf := new char[size](i => if 0 <= i < |init| then init[i] else NUL);
    assert buf[..] == init + [NUL] + buf[|init| + 1..];
    CStringOfTerminated(init, buf[|init| + 1..]);
  }

  /** snprintf(buf + off, size, fmt, ...) once fmt has been expanded to text: at most size - 1
      characters of text, then the terminator; the rest of buf is untouched. Like snprintf it
      returns the length of the whole text, truncated or not. */
  method PutString(buf: array<char>, off: nat, size: nat, text: seq<char>) returns (n: nat)
    requires 1 <= size && off + size <= buf.Length
    modifies buf
    ensures n == |text|
    ensures buf[..] == old(buf[..])[..off] + text[..Min(|text|, size - 1)] + [NUL]
      + old(buf[..])[off + Min(|text|, size - 1) + 1..]
  {
    var k := Min(|text|, size - 1);
    var i := 0;
    while i < k
      invariant 0 <= i <= k
      invariant buf[..] == old(buf[..])[..off] + text[..i] + old(buf[..])[off + i..]
    {
      buf[off + i] := text[i];
      i := i + 1;
      assert text[..i] == text[..i - 1] + [text[i - 1]];
    }
    buf[off + k] := NUL;
    n := |text|;
  }

  /** sprintf(buf, fmt, ...) once fmt has been expanded to text; the text and its terminator
      must fit in buf, which is all the C library asks of its callers. */
  method Sprintf(buf: array<char>, text: seq<char>)
    requires |text| < buf.Length
    modifies buf
    ensures buf[..] == text + [NUL] + old(buf[..])[|text| + 1..]
  {
    var _ := PutString(buf, 0, buf.Length, text);
  }

  /** strlen: the index of the first NUL. */
  method StrLen(a: array<char>) returns (n: nat)
    requires NUL in a[..]
    ensures n == |CString(a[..])| && n < a.Length && a[n] == NUL
  {
    ghost var s := CString(a[..]);
    n := 0;
    while a[n] != NUL
      invariant n <= |s|
      decreases |s| - n
    {
      n := n + 1;
    }
  }

  /** strcat(dst, src): the string in src, with its terminator, is copied over the terminator
      of the string in dst; dst must have room for both strings and one terminator. */
  method StrCat(dst: array<char>, src: array<char>)
    requires dst != src
    requires NUL in dst[..] && NUL in src[..]
    requires |CString(dst[..])| + |CString(src[..])| < dst.Length
    modifies dst
    ensures var k, t := |old(CString(dst[..]))|, CString(src[..]);
      dst[..] == old(dst[..])[..k] + t + [NUL] + old(dst[..])[k + |t| + 1..]
    ensures CString(dst[..]) == old(CString(dst[..])) + CString(src[..])
  {
    var k := StrLen(dst);
    var n := StrLen(src);
    var t := src[..n];
    ghost var head := dst[..k];
    ghost var rest := dst[k + n + 1..];
    var _ := PutString(dst, k, n + 1, t);
    assert dst[..] == head + t + [NUL] + rest;
    assert NUL !in head + t by {
      assert head == old(CString(dst[..])) && t == CString(src[..]);
    }
    CStringOfTerminated(head + t, rest);
  }
}
