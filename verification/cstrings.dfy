/**
 A model of the C string operations the queue relies on: the content of a
 NUL-terminated string, `strcmp`, and the bounded copy into a caller's buffer
 that `q_remove_head` / `q_remove_tail` perform with `strncpy`.
 */
module CStrings {

  /** True iff no character of `s` is the terminator. */
  predicate NulFree(s: seq<char>) {
    forall i :: 0 <= i < |s| ==> s[i] != '\0'
  }

  /**
   The characters of a C string before its terminator. One `char` stands for
   one byte of the C string, so only characters up to '\u00FF' have a C
   counterpart; lengths, `strncpy` bounds and `strcmp` order count bytes.
   */
  type CString = s: seq<char> | NulFree(s)

  function Min(a: int, b: int): int {
    if a <= b then a else b
  }

  /**
   `strcmp` up to the sign of its result: the first differing character
   decides, and the terminator of the shorter string compares below every
   character of the longer one (it holds no terminator of its own).
   */
  function Strcmp(a: CString, b: CString): (r: int)
    ensures -1 <= r <= 1
    ensures r == 0 <==> a == b
    decreases |a|
  {
    if |a| == 0 && |b| == 0 then 0
    else if |a| == 0 then -1
    else if |b| == 0 then 1
    else if a[0] < b[0] then -1
    else if a[0] > b[0] then 1
    else
      assert a == [a[0]] + a[1..] && b == [b[0]] + b[1..];
      Strcmp(a[1..], b[1..])
  }

  /**
   Lexicographic order: `a` is a proper prefix of `b`, or at the first
   position where they differ `a` holds the smaller character.
   */
  predicate LexBefore(a: seq<char>, b: seq<char>) {
    || (|a| < |b| && a == b[..|a|])
    || exists k :: 0 <= k < |a| && k < |b| && a[..k] == b[..k] && a[k] < b[k]
  }

  /** A common first character does not change lexicographic order. */
  lemma {:induction false} LexBeforeTail(a: seq<char>, b: seq<char>)
    requires |a| > 0 && |b| > 0 && a[0] == b[0]
    ensures LexBefore(a, b) <==> LexBefore(a[1..], b[1..])
  {
    var a', b' := a[1..], b[1..];
    if |a| < |b| && a == b[..|a|] {
      assert a' == b'[..|a'|];
    }
    if |a'| < |b'| && a' == b'[..|a'|] {
      assert a == [a[0]] + a' && b[..|a|] == [b[0]] + b'[..|a'|];
    }
    if k :| 0 <= k < |a| && k < |b| && a[..k] == b[..k] && a[k] < b[k] {
      assert k > 0;
      assert a'[..k - 1] == a[1..k] && b'[..k - 1] == b[1..k];
      assert a'[k - 1] < b'[k - 1];
    }
    if k :| 0 <= k < |a'| && k < |b'| && a'[..k] == b'[..k] && a'[k] < b'[k] {
      assert a[..k + 1] == [a[0]] + a'[..k] && b[..k + 1] == [b[0]] + b'[..k];
      assert a[k + 1] < b[k + 1];
    }
  }

  /** `strcmp(a, b) < 0` holds exactly when `a` comes first in lexicographic order. */
  lemma {:induction false} StrcmpLexicographic(a: CString, b: CString)
    ensures Strcmp(a, b) < 0 <==> LexBefore(a, b)
    decreases |a|
  {
    if |a| == 0 {
      assert |b| > 0 ==> a == b[..0];
    } else if |b| == 0 {
    } else if a[0] < b[0] {
      assert a[..0] == b[..0];
    } else if a[0] > b[0] {
    } else {
      StrcmpLexicographic(a[1..], b[1..]);
      LexBeforeTail(a, b);
    }
  }

  /** Exchanging the operands negates the comparison. */
  lemma {:induction false} StrcmpAntisymmetric(a: CString, b: CString)
    ensures Strcmp(b, a) == -Strcmp(a, b)
    decreases |a|
  {
    if |a| > 0 && |b| > 0 && a[0] == b[0] {
      StrcmpAntisymmetric(a[1..], b[1..]);
    }
  }

  /** The order `strcmp(a, b) <= 0` is transitive. */
  lemma {:induction false} StrcmpTransitive(a: CString, b: CString, c: CString)
    requires Strcmp(a, b) <= 0 && Strcmp(b, c) <= 0
    ensures Strcmp(a, c) <= 0
    decreases |a|
  {
    if |a| > 0 && |b| > 0 && |c| > 0 && a[0] == b[0] && b[0] == c[0] {
      StrcmpTransitive(a[1..], b[1..], c[1..]);
    }
  }

  /** A strict step followed by a non-strict one is strict. */
  lemma {:induction false} StrcmpStrictTransitive(a: CString, b: CString, c: CString)
    requires Strcmp(a, b) < 0 && Strcmp(b, c) <= 0
    ensures Strcmp(a, c) < 0
  {
    StrcmpTransitive(a, b, c);
    if Strcmp(a, c) == 0 {
      StrcmpAntisymmetric(a, b);
    }
  }

  /**
   The string a C reader sees in a character buffer: every character before
   the first terminator, or the whole buffer when it holds none.
   */
  function ReadCString(buf: seq<char>): (s: CString)
    ensures |s| <= |buf| && s == buf[..|s|]
    ensures |s| < |buf| ==> buf[|s|] == '\0'
  {
    if |buf| == 0 || buf[0] == '\0' then []
    else [buf[0]] + ReadCString(buf[1..])
  }

  /**
   `strncpy(dst, src, n)`: the first `n` positions receive the characters of
   `src` and, past its end, terminators; later positions are untouched.
   */
  function Strncpy(dst: seq<char>, src: CString, n: nat): (r: seq<char>)
    requires n <= |dst|
    ensures |r| == |dst|
    ensures r[n..] == dst[n..]
  {
    seq(|dst|, i requires 0 <= i < |dst| =>
      if i < n then (if i < |src| then src[i] else '\0') else dst[i])
  }

  /**
   The copy-out into a buffer of at least `size` characters: `strncpy` of at
   most `size - 1` characters, then a terminator at index `size - 1`. Nothing
   from index `size` on is written.
   */
  function CopyOut(buf: seq<char>, value: CString, size: nat): (r: seq<char>)
    requires 1 <= size <= |buf|
    ensures |r| == |buf|
    ensures r[size..] == buf[size..]
  {
    Strncpy(buf, value, size - 1)[size - 1 := '\0']
  }

  /** A NUL-free prefix followed by a terminator reads back as that prefix. */
  lemma {:induction false} ReadCStringOfTerminated(p: CString, rest: seq<char>)
    requires |rest| >= 1 && rest[0] == '\0'
    ensures ReadCString(p + rest) == p
    decreases |p|
  {
    if |p| == 0 {
      assert (p + rest)[0] == '\0';
    } else {
      assert (p + rest)[0] == p[0];
      assert (p + rest)[1..] == p[1..] + rest;
      ReadCStringOfTerminated(p[1..], rest);
    }
  }

  /**
   The copied-out buffer holds the first min(|value|, size - 1) characters
   of the value, terminated: a reader gets exactly that truncation, and every
   later position up to index `size - 1` holds a terminator.
   */
  lemma {:induction false} CopyOutReadsBack(buf: seq<char>, value: CString, size: nat)
    requires 1 <= size <= |buf|
    ensures ReadCString(CopyOut(buf, value, size)) == value[..Min(|value|, size - 1)]
    ensures forall i :: Min(|value|, size - 1) <= i < size ==> CopyOut(buf, value, size)[i] == '\0'
  {
    var m := Min(|value|, size - 1);
    var r := CopyOut(buf, value, size);
    var p: CString := value[..m];
    assert r == p + r[m..];
    ReadCStringOfTerminated(p, r[m..]);
  }
}
