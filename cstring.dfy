/** C strings as they live in a character buffer: a pointer is an index, the
    string it denotes runs up to the first NUL. */
module CString {

  /** A `char *`: NULL, or an index into the buffer it points into. */
  datatype Ptr = Null | At(i: nat)

  /** A buffer that holds C strings ends with a NUL. */
  predicate Terminated(s: seq<char>) {
    |s| > 0 && s[|s| - 1] == '\0'
  }

  /** Index of the first NUL at or after `i`. */
  function Nul(s: seq<char>, i: nat): (j: nat)
    requires Terminated(s) && i < |s|
    ensures i <= j < |s| && s[j] == '\0'
    decreases |s| - i
  {
    if s[i] == '\0' then i else Nul(s, i + 1)
  }

  /** The C string a pointer at index `i` denotes. */
  function CStr(s: seq<char>, i: nat): (r: string)
    requires Terminated(s) && i < |s|
    ensures i + |r| < |s| && s[i + |r|] == '\0'
  {
    s[i..Nul(s, i)]
  }

  /** No NUL comes before the terminator of a C string. */
  lemma {:induction false} NulFirst(s: seq<char>, i: nat, x: nat)
    requires Terminated(s) && i < |s| && i <= x < Nul(s, i)
    ensures s[x] != '\0'
    decreases x - i
  {
    if x > i {
      NulFirst(s, i + 1, x);
    }
  }

  /** A NUL with no NUL before it is the terminator. */
  lemma {:induction false} NulAt(s: seq<char>, i: nat, j: nat)
    requires Terminated(s) && i <= j < |s| && s[j] == '\0'
    requires forall x :: i <= x < j ==> s[x] != '\0'
    ensures Nul(s, i) == j
    decreases j - i
  {
    if i < j {
      NulAt(s, i + 1, j);
    }
  }

  /** Starting later inside a C string finds the same terminator. */
  lemma {:induction false} NulLater(s: seq<char>, i: nat, j: nat)
    requires Terminated(s) && i < |s| && i <= j <= Nul(s, i)
    ensures Nul(s, j) == Nul(s, i)
    decreases j - i
  {
    if i < j {
      NulLater(s, i + 1, j);
    }
  }

  /** A suffix of a C string is the C string that starts further on. */
  lemma CStrSuffix(s: seq<char>, i: nat, j: nat)
    requires Terminated(s) && i < |s| && i <= j <= Nul(s, i)
    ensures CStr(s, j) == CStr(s, i)[j - i..]
  {
    NulLater(s, i, j);
  }

  /** A non-empty C string is its first character and the C string after it. */
  lemma CStrCons(s: seq<char>, i: nat)
    requires Terminated(s) && i < |s| && s[i] != '\0'
    ensures CStr(s, i) == [s[i]] + CStr(s, i + 1)
  {
    NulLater(s, i, i + 1);
  }

  /** A C string depends only on the bytes it spans and its terminator. */
  lemma {:induction false} NulFrame(s: seq<char>, s': seq<char>, i: nat)
    requires Terminated(s) && Terminated(s') && |s| == |s'| && i < |s|
    requires forall x :: i <= x <= Nul(s, i) ==> s'[x] == s[x]
    ensures Nul(s', i) == Nul(s, i) && CStr(s', i) == CStr(s, i)
    decreases |s| - i
  {
    if s[i] != '\0' {
      NulFrame(s, s', i + 1);
    }
  }

  /** Writing a NUL inside a C string ends it there. */
  lemma NulCut(s: seq<char>, i: nat, j: nat)
    requires Terminated(s) && i < |s| && i <= j < Nul(s, i)
    ensures Terminated(s[j := '\0']) && Nul(s[j := '\0'], i) == j
  {
    forall x | i <= x < j
      ensures s[x] != '\0'
    {
      NulFirst(s, i, x);
    }
    NulAt(s[j := '\0'], i, j);
  }

  /** The C string of a freshly copied string is that string. */
  lemma CStrOfCopy(env: string)
    requires '\0' !in env
    ensures Terminated(env + ['\0']) && CStr(env + ['\0'], 0) == env
  {
    var b := env + ['\0'];
    assert forall x :: 0 <= x < |env| ==> b[x] == env[x];
    NulAt(b, 0, |env|);
    assert b[..|env|] == env;
  }

  /** Number of occurrences of `ch` in `s`. */
  function Count(s: string, ch: char): (n: nat)
    ensures n <= |s|
    ensures n == 0 <==> ch !in s
  {
    if s == [] then 0
    else
      assert s == s[..|s| - 1] + [s[|s| - 1]];
      Count(s[..|s| - 1], ch) + (if s[|s| - 1] == ch then 1 else 0)
  }

  lemma {:induction false} CountAppend(a: string, b: string, ch: char)
    ensures Count(a + b, ch) == Count(a, ch) + Count(b, ch)
    decreases |b|
  {
    if b != [] {
      var b' := b[..|b| - 1];
      assert (a + b)[..|a + b| - 1] == a + b';
      CountAppend(a, b', ch);
    } else {
      assert a + b == a;
    }
  }

  /** Counting around one occurrence splits the count in three. */
  lemma CountAround(t: string, e: nat, ch: char)
    requires e < |t| && t[e] == ch
    ensures Count(t, ch) == Count(t[..e], ch) + 1 + Count(t[e + 1..], ch)
  {
    var a, b := t[..e + 1], t[e + 1..];
    assert t == a + b;
    CountAppend(a, b, ch);
    assert a[..|a| - 1] == t[..e];
  }

  /** strlen: walks to the terminating NUL. */
  method StrLen(buf: array<char>, i: nat) returns (len: nat)
    requires Terminated(buf[..]) && i < buf.Length
    ensures len == |CStr(buf[..], i)|
  {
    len := 0;
    while buf[i + len] != '\0'
      invariant i + len <= Nul(buf[..], i)
      invariant Nul(buf[..], i + len) == Nul(buf[..], i)
      decreases Nul(buf[..], i) - (i + len)
    {
      len := len + 1;
    }
  }

  /** Occurrences of `ch` in `s[i..j]`, counted in place. */
  function Occ(s: seq<char>, i: nat, j: nat, ch: char): nat
    requires i <= j <= |s|
    decreases j - i
  {
    if i == j then 0 else Occ(s, i, j - 1, ch) + (if s[j - 1] == ch then 1 else 0)
  }

  /** Counting in place counts the characters of the slice. */
  lemma {:induction false} OccCount(s: seq<char>, i: nat, j: nat, ch: char)
    requires i <= j <= |s|
    ensures Occ(s, i, j, ch) == Count(s[i..j], ch)
    decreases j - i
  {
    if i < j {
      OccCount(s, i, j - 1, ch);
      assert s[i..j][..j - i - 1] == s[i..j - 1];
    }
  }

  /** `_chrnstr`: -1 for NULL, otherwise how often `ch` occurs in the C string. */
  method ChrNStr(buf: array<char>, p: Ptr, ch: char) returns (n: int)
    requires Terminated(buf[..])
    requires p.At? ==> p.i < buf.Length
    ensures p.Null? ==> n == -1
    ensures p.At? ==> n == Count(CStr(buf[..], p.i), ch)
  {
    if p.Null? {
      return -1;
    }
    var len := StrLen(buf, p.i);
    var count, i := 0, 0;
    while i < len
      invariant 0 <= i <= len
      invariant count == Occ(buf[..], p.i, p.i + i, ch)
    {
      if buf[p.i + i] == ch {
        count := count + 1;
      }
      i := i + 1;
    }
    OccCount(buf[..], p.i, p.i + len, ch);
    return count;
  }

  /** A copy of the C string at `i`, as `strdup` or the table's own copy
      of a key or value makes it. */
  method StrDup(buf: array<char>, i: nat) returns (s: string)
    requires Terminated(buf[..]) && i < buf.Length
    ensures s == CStr(buf[..], i)
  {
    var len := StrLen(buf, i);
    s := buf[i..i + len];
  }
}
