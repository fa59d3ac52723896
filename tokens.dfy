/** The scans of the C library's `strspn`, `strcspn` and `strtok` on a
    one-character delimiter, over a NUL-terminated buffer. */
module Tokens {
  import opened CString

  /** `strspn(b + i, d)` as an index: the first position from `i` on that
      holds the terminator or a character other than `d`. */
  function Spn(b: seq<char>, i: nat, d: char): (j: nat)
    requires Terminated(b) && i < |b|
    ensures i <= j < |b|
    decreases |b| - i
  {
    if b[i] != '\0' && b[i] == d then Spn(b, i + 1, d) else i
  }

  /** `strspn` skips only delimiters, stops on a non-delimiter or on the
      terminator of the C string, and never passes that terminator. */
  lemma {:induction false} SpnStops(b: seq<char>, i: nat, d: char)
    requires Terminated(b) && i < |b|
    ensures Spn(b, i, d) <= Nul(b, i)
    ensures b[Spn(b, i, d)] == '\0' ==> Spn(b, i, d) == Nul(b, i)
    ensures b[Spn(b, i, d)] != '\0' ==> b[Spn(b, i, d)] != d
    decreases |b| - i
  {
    if b[i] != '\0' && b[i] == d {
      SpnStops(b, i + 1, d);
    }
  }

  /** `strcspn(b + i, d)` as an index: the first position from `i` on that
      holds the terminator or `d`. */
  function CSpn(b: seq<char>, i: nat, d: char): (j: nat)
    requires Terminated(b) && i < |b|
    ensures i <= j < |b|
    decreases |b| - i
  {
    if b[i] != '\0' && b[i] != d then CSpn(b, i + 1, d) else i
  }

  /** `strcspn` skips only non-delimiters, stops on a delimiter or on the
      terminator, and never passes that terminator. */
  lemma {:induction false} CSpnStops(b: seq<char>, i: nat, d: char)
    requires Terminated(b) && i < |b|
    ensures CSpn(b, i, d) <= Nul(b, i)
    ensures b[CSpn(b, i, d)] == '\0' ==> CSpn(b, i, d) == Nul(b, i)
    ensures b[CSpn(b, i, d)] != '\0' ==> b[CSpn(b, i, d)] == d
    decreases |b| - i
  {
    if b[i] != '\0' && b[i] != d {
      CSpnStops(b, i + 1, d);
    }
  }

  /** The tokens that successive `strtok` calls deliver from `i` on: skip
      delimiters, take the run up to the next delimiter or the terminator,
      and go on after that delimiter. */
  function TokensFrom(b: seq<char>, i: nat, d: char): seq<string>
    requires Terminated(b) && i < |b|
    decreases |b| - i, 1
  {
    var s := Spn(b, i, d);
    if b[s] == '\0' then [] else [b[s..CSpn(b, s, d)]] + TokensAfter(b, CSpn(b, s, d), d)
  }

  /** The tokens after one that ended at `e`: none at the terminator, else
      those after the delimiter. */
  function TokensAfter(b: seq<char>, e: nat, d: char): seq<string>
    requires Terminated(b) && e < |b|
    decreases |b| - e, 0
  {
    if b[e] == '\0' then [] else TokensFrom(b, e + 1, d)
  }

  /** Reference split: every piece between two delimiters, empty ones too. */
  function Pieces(b: seq<char>, i: nat, d: char): seq<string>
    requires Terminated(b) && i < |b|
    decreases |b| - i, 1
  {
    [b[i..CSpn(b, i, d)]] + PiecesAfter(b, CSpn(b, i, d), d)
  }

  /** The pieces after one that ended at `e`. */
  function PiecesAfter(b: seq<char>, e: nat, d: char): seq<string>
    requires Terminated(b) && e < |b|
    decreases |b| - e, 0
  {
    if b[e] == '\0' then [] else Pieces(b, e + 1, d)
  }

  /** The pieces that are not empty. */
  function NonEmpty(ps: seq<string>): (qs: seq<string>)
    ensures |qs| <= |ps|
  {
    if ps == [] then []
    else (if ps[0] == [] then [] else [ps[0]]) + NonEmpty(ps[1..])
  }

  /** An empty piece is dropped. */
  lemma NonEmptyDrop(ps: seq<string>)
    ensures NonEmpty([[]] + ps) == NonEmpty(ps)
  {
    assert ([[]] + ps)[1..] == ps;
  }

  /** A non-empty piece is kept. */
  lemma NonEmptyKeep(p: string, ps: seq<string>)
    requires p != []
    ensures NonEmpty([p] + ps) == [p] + NonEmpty(ps)
  {
    assert ([p] + ps)[1..] == ps;
  }

  /** No token is left once the skipped delimiters reach the terminator. */
  lemma TokensNone(b: seq<char>, i: nat, d: char)
    requires Terminated(b) && i < |b| && b[Spn(b, i, d)] == '\0'
    ensures TokensFrom(b, i, d) == []
  {
  }

  /** A token that runs to the terminator is the last one. */
  lemma TokensLast(b: seq<char>, i: nat, s: nat, e: nat, d: char)
    requires Terminated(b) && i < |b| && s == Spn(b, i, d) && b[s] != '\0'
    requires e == CSpn(b, s, d) && b[e] == '\0'
    ensures TokensFrom(b, i, d) == [b[s..e]]
  {
  }

  /** A token ended by a delimiter is followed by the tokens after it. */
  lemma TokensMore(b: seq<char>, i: nat, s: nat, e: nat, d: char)
    requires Terminated(b) && i < |b| && s == Spn(b, i, d) && b[s] != '\0'
    requires e == CSpn(b, s, d) && b[e] != '\0'
    ensures e + 1 < |b| && TokensFrom(b, i, d) == [b[s..e]] + TokensFrom(b, e + 1, d)
  {
  }

  /** A delimiter where a scan starts is skipped. */
  lemma TokensSkip(b: seq<char>, i: nat, d: char)
    requires Terminated(b) && i < |b| && b[i] != '\0' && b[i] == d
    ensures TokensFrom(b, i, d) == TokensFrom(b, i + 1, d)
    ensures Pieces(b, i, d) == [[]] + Pieces(b, i + 1, d)
  {
    assert b[i..i] == [];
  }

  /** A scan that starts on a token skips nothing, and the token is not empty. */
  lemma TokenStart(b: seq<char>, i: nat, e: nat, d: char)
    requires Terminated(b) && i < |b| && b[i] != '\0' && b[i] != d && e == CSpn(b, i, d)
    ensures Spn(b, i, d) == i && i < e && b[i..e] != []
  {
  }

  /** The last piece runs to the terminator. */
  lemma PiecesLast(b: seq<char>, i: nat, e: nat, d: char)
    requires Terminated(b) && i < |b| && e == CSpn(b, i, d) && b[e] == '\0'
    ensures Pieces(b, i, d) == [b[i..e]]
  {
  }

  /** strtok's tokens are exactly the non-empty pieces between delimiters. */
  lemma {:induction false} TokensArePieces(b: seq<char>, i: nat, d: char)
    requires Terminated(b) && i < |b|
    ensures TokensFrom(b, i, d) == NonEmpty(Pieces(b, i, d))
    decreases |b| - i, 1
  {
    if b[i] == '\0' {
      TokensNone(b, i, d);
      PiecesLast(b, i, i, d);
      assert b[i..i] == [];
      NonEmptyDrop([]);
    } else if b[i] == d {
      TokensSkip(b, i, d);
      TokensArePieces(b, i + 1, d);
      NonEmptyDrop(Pieces(b, i + 1, d));
    } else {
      var e := CSpn(b, i, d);
      TokenStart(b, i, e, d);
      TokensTok(b, i, i, d);
      AfterArePieces(b, e, d);
      NonEmptyKeep(b[i..e], PiecesAfter(b, e, d));
    }
  }

  /** After a token, too, the tokens are the non-empty pieces. */
  lemma {:induction false} AfterArePieces(b: seq<char>, e: nat, d: char)
    requires Terminated(b) && e < |b|
    ensures TokensAfter(b, e, d) == NonEmpty(PiecesAfter(b, e, d))
    decreases |b| - e, 0
  {
    if b[e] != '\0' {
      TokensArePieces(b, e + 1, d);
    }
  }

  /** Two pointers whose C strings agree character by character, the
      terminators included. */
  ghost predicate Same(b: seq<char>, i: nat, b2: seq<char>, j: nat)
    requires Terminated(b) && i < |b| && Terminated(b2) && j < |b2|
  {
    && Nul(b, i) - i == Nul(b2, j) - j
    && forall x :: i <= x <= Nul(b, i) ==> b[x] == b2[x - i + j]
  }

  /** Agreement carries over one character further on. */
  lemma SameNext(b: seq<char>, i: nat, b2: seq<char>, j: nat)
    requires Terminated(b) && i < |b| && Terminated(b2) && j < |b2|
    requires Same(b, i, b2, j) && b[i] != '\0'
    ensures i + 1 < |b| && j + 1 < |b2| && Same(b, i + 1, b2, j + 1)
  {
    NulLater(b, i, i + 1);
    NulLater(b2, j, j + 1);
  }

  /** Agreeing C strings give the same `strspn` length. */
  lemma {:induction false} SpnSame(b: seq<char>, i: nat, b2: seq<char>, j: nat, d: char)
    requires Terminated(b) && i < |b| && Terminated(b2) && j < |b2|
    requires Same(b, i, b2, j)
    ensures Spn(b, i, d) - i == Spn(b2, j, d) - j
    ensures Spn(b, i, d) <= Nul(b, i)
    decreases |b| - i
  {
    if b[i] != '\0' && b[i] == d {
      SameNext(b, i, b2, j);
      SpnSame(b, i + 1, b2, j + 1, d);
      NulLater(b, i, i + 1);
    }
  }

  /** Agreeing C strings give the same `strcspn` length. */
  lemma {:induction false} CSpnSame(b: seq<char>, i: nat, b2: seq<char>, j: nat, d: char)
    requires Terminated(b) && i < |b| && Terminated(b2) && j < |b2|
    requires Same(b, i, b2, j)
    ensures CSpn(b, i, d) - i == CSpn(b2, j, d) - j
    ensures CSpn(b, i, d) <= Nul(b, i)
    decreases |b| - i
  {
    if b[i] != '\0' && b[i] != d {
      SameNext(b, i, b2, j);
      CSpnSame(b, i + 1, b2, j + 1, d);
      NulLater(b, i, i + 1);
    }
  }

  /** Agreement holds from any point of the C string on. */
  lemma {:induction false} SameFrom(b: seq<char>, i: nat, b2: seq<char>, j: nat, x: nat, y: nat)
    requires Terminated(b) && i < |b| && Terminated(b2) && j < |b2|
    requires Same(b, i, b2, j) && i <= x <= Nul(b, i) && y == x - i + j
    ensures y < |b2| && Same(b, x, b2, y) && Nul(b, x) == Nul(b, i)
    decreases x - i
  {
    if i < x {
      NulFirst(b, i, i);
      SameNext(b, i, b2, j);
      NulLater(b, i, i + 1);
      SameFrom(b, i + 1, b2, j + 1, x, y);
    }
  }

  /** Agreeing C strings hold the same characters in any stretch of them. */
  lemma SameSlice(b: seq<char>, i: nat, b2: seq<char>, j: nat, e: nat, e2: nat)
    requires Terminated(b) && i < |b| && Terminated(b2) && j < |b2|
    requires Same(b, i, b2, j) && i <= e <= Nul(b, i) && e2 == e - i + j
    ensures e2 <= |b2| && b[i..e] == b2[j..e2]
  {
  }

  /** A scan that finds a token delivers it and then the tokens after it. */
  lemma TokensTok(b: seq<char>, i: nat, s: nat, d: char)
    requires Terminated(b) && i < |b| && s == Spn(b, i, d) && b[s] != '\0'
    ensures TokensFrom(b, i, d) == [b[s..CSpn(b, s, d)]] + TokensAfter(b, CSpn(b, s, d), d)
  {
  }

  /** The tokens from a pointer depend only on the C string it points to. */
  lemma {:induction false} TokensSame(b: seq<char>, i: nat, b2: seq<char>, j: nat, d: char)
    requires Terminated(b) && i < |b| && Terminated(b2) && j < |b2|
    requires Same(b, i, b2, j)
    ensures TokensFrom(b, i, d) == TokensFrom(b2, j, d)
    decreases |b| - i, 2
  {
    var s, s2 := Spn(b, i, d), Spn(b2, j, d);
    SpnSame(b, i, b2, j, d);
    SameFrom(b, i, b2, j, s, s2);
    if b[s] == '\0' {
      TokensNone(b, i, d);
      TokensNone(b2, j, d);
    } else {
      TokensTok(b, i, s, d);
      TokensTok(b2, j, s2, d);
      RunSame(b, s, b2, s2, d);
    }
  }

  /** Agreeing C strings that start with a token hold the same token and
      the same tokens after it. */
  lemma {:induction false} RunSame(b: seq<char>, s: nat, b2: seq<char>, s2: nat, d: char)
    requires Terminated(b) && s < |b| && Terminated(b2) && s2 < |b2|
    requires Same(b, s, b2, s2)
    ensures b[s..CSpn(b, s, d)] == b2[s2..CSpn(b2, s2, d)]
    ensures TokensAfter(b, CSpn(b, s, d), d) == TokensAfter(b2, CSpn(b2, s2, d), d)
    decreases |b| - s, 1
  {
    var e, e2 := CSpn(b, s, d), CSpn(b2, s2, d);
    CSpnSame(b, s, b2, s2, d);
    SameSlice(b, s, b2, s2, e, e2);
    SameFrom(b, s, b2, s2, e, e2);
    AfterSame(b, e, b2, e2, d);
  }

  /** Agreeing C strings have the same tokens after a token ends. */
  lemma {:induction false} AfterSame(b: seq<char>, e: nat, b2: seq<char>, e2: nat, d: char)
    requires Terminated(b) && e < |b| && Terminated(b2) && e2 < |b2|
    requires Same(b, e, b2, e2)
    ensures TokensAfter(b, e, d) == TokensAfter(b2, e2, d)
    decreases |b| - e, 0
  {
    if b[e] != '\0' {
      SameNext(b, e, b2, e2);
      TokensSame(b, e + 1, b2, e2 + 1, d);
    }
  }

  /** The tokens of a string, as `strtok` finds them in a NUL-terminated copy. */
  function Split(t: string, d: char): seq<string>
  {
    TokensFrom(t + ['\0'], 0, d)
  }

  /** Every piece of a string between delimiters, empty ones too. */
  function SplitAll(t: string, d: char): seq<string>
  {
    Pieces(t + ['\0'], 0, d)
  }

  /** strtok drops exactly the empty pieces. */
  lemma SplitIsNonEmptyPieces(t: string, d: char)
    ensures Split(t, d) == NonEmpty(SplitAll(t, d))
  {
    TokensArePieces(t + ['\0'], 0, d);
  }

  /** A C string agrees with a fresh copy of it. */
  lemma SameAsCopy(b: seq<char>, i: nat)
    requires Terminated(b) && i < |b|
    ensures '\0' !in CStr(b, i)
    ensures Terminated(CStr(b, i) + ['\0']) && Same(b, i, CStr(b, i) + ['\0'], 0)
  {
    var c := CStr(b, i);
    var c0 := c + ['\0'];
    forall x | i <= x < Nul(b, i)
      ensures b[x] != '\0'
    {
      NulFirst(b, i, x);
    }
    assert forall x :: 0 <= x < |c| ==> c0[x] == b[i + x];
    CStrOfCopy(c);
    NulAt(c0, 0, |c|);
  }

  /** The tokens `strtok` delivers from a pointer are those of its C string. */
  lemma TokensAreSplit(b: seq<char>, i: nat, d: char)
    requires Terminated(b) && i < |b|
    ensures TokensFrom(b, i, d) == Split(CStr(b, i), d)
  {
    SameAsCopy(b, i);
    TokensSame(b, i, CStr(b, i) + ['\0'], 0, d);
  }

  /** A buffer whose tail from `k` on is `c` agrees with `c` there. */
  lemma SameSuffix(b: seq<char>, k: nat, c: seq<char>)
    requires Terminated(c) && k < |b| && b[k..] == c
    ensures Terminated(b) && Same(b, k, c, 0)
  {
    var j := Nul(c, 0);
    assert forall x :: k <= x < |b| ==> b[x] == c[x - k];
    forall x | k <= x < k + j
      ensures b[x] != '\0'
    {
      NulFirst(c, 0, x - k);
    }
    NulAt(b, k, k + j);
  }

  /** `strcspn` stops at the first delimiter or terminator. */
  lemma {:induction false} CSpnAt(b: seq<char>, i: nat, j: nat, d: char)
    requires Terminated(b) && i <= j < |b| && (b[j] == '\0' || b[j] == d)
    requires forall x :: i <= x < j ==> b[x] != '\0' && b[x] != d
    ensures CSpn(b, i, d) == j
    decreases j - i
  {
    if i < j {
      CSpnAt(b, i + 1, j, d);
    }
  }

  /** A token that a delimiter ends comes first; the string after that
      delimiter is split on. */
  lemma SplitCut(a: string, r: string, d: char)
    requires a != [] && d !in a && '\0' !in a && d != '\0'
    ensures Split(a + [d] + r, d) == [a] + Split(r, d)
  {
    var b := a + [d] + r + ['\0'];
    var c := r + ['\0'];
    assert b == (a + [d] + r) + ['\0'];
    assert forall x :: 0 <= x < |a| ==> b[x] == a[x];
    assert b[0] == a[0] && b[|a|] == d;
    CSpnAt(b, 0, |a|, d);
    TokensTok(b, 0, 0, d);
    assert b[0..|a|] == a;
    assert b[|a| + 1..] == c;
    SameSuffix(b, |a| + 1, c);
    TokensSame(b, |a| + 1, c, 0, d);
  }

  /** A string without delimiters is one token. */
  lemma SplitWhole(a: string, d: char)
    requires a != [] && d !in a && '\0' !in a
    ensures Split(a, d) == [a]
  {
    var b := a + ['\0'];
    assert forall x :: 0 <= x < |a| ==> b[x] == a[x];
    assert b[0] == a[0];
    CSpnAt(b, 0, |a|, d);
    TokensLast(b, 0, 0, |a|, d);
    assert b[0..|a|] == a;
  }

  /** A leading delimiter is skipped. */
  lemma SplitLead(r: string, d: char)
    requires d != '\0'
    ensures Split([d] + r, d) == Split(r, d)
  {
    var b := [d] + r + ['\0'];
    var c := r + ['\0'];
    assert b == ([d] + r) + ['\0'];
    TokensSkip(b, 0, d);
    assert b[1..] == c;
    SameSuffix(b, 1, c);
    TokensSame(b, 1, c, 0, d);
  }

  /** Nothing is split off the empty string. */
  lemma SplitEmpty(d: char)
    ensures Split([], d) == []
  {
    assert [] + ['\0'] == ['\0'];
  }

  /** A piece that a delimiter ends comes first, empty or not; the string
      after that delimiter is split on. */
  lemma SplitAllCut(a: string, r: string, d: char)
    requires d !in a && '\0' !in a && d != '\0'
    ensures SplitAll(a + [d] + r, d) == [a] + SplitAll(r, d)
  {
    var b := a + [d] + r + ['\0'];
    var c := r + ['\0'];
    assert b == (a + [d] + r) + ['\0'];
    assert forall x :: 0 <= x < |a| ==> b[x] == a[x];
    assert b[|a|] == d;
    CSpnAt(b, 0, |a|, d);
    assert Pieces(b, 0, d) == [b[0..|a|]] + PiecesAfter(b, |a|, d);
    assert PiecesAfter(b, |a|, d) == Pieces(b, |a| + 1, d);
    assert b[0..|a|] == a;
    assert b[|a| + 1..] == c;
    SameSuffix(b, |a| + 1, c);
    PiecesSame(b, |a| + 1, c, 0, d);
  }

  /** A string without delimiters is one piece. */
  lemma SplitAllWhole(a: string, d: char)
    requires d !in a && '\0' !in a
    ensures SplitAll(a, d) == [a]
  {
    var b := a + ['\0'];
    assert forall x :: 0 <= x < |a| ==> b[x] == a[x];
    CSpnAt(b, 0, |a|, d);
    PiecesLast(b, 0, |a|, d);
    assert b[0..|a|] == a;
  }

  /** The pieces from a pointer depend only on the C string it points to. */
  lemma {:induction false} PiecesSame(b: seq<char>, i: nat, b2: seq<char>, j: nat, d: char)
    requires Terminated(b) && i < |b| && Terminated(b2) && j < |b2|
    requires Same(b, i, b2, j)
    ensures Pieces(b, i, d) == Pieces(b2, j, d)
    decreases |b| - i, 1
  {
    var e, e2 := CSpn(b, i, d), CSpn(b2, j, d);
    CSpnSame(b, i, b2, j, d);
    SameSlice(b, i, b2, j, e, e2);
    SameFrom(b, i, b2, j, e, e2);
    PiecesAfterSame(b, e, b2, e2, d);
  }

  /** Agreeing C strings have the same pieces after a piece ends. */
  lemma {:induction false} PiecesAfterSame(b: seq<char>, e: nat, b2: seq<char>, e2: nat, d: char)
    requires Terminated(b) && e < |b| && Terminated(b2) && e2 < |b2|
    requires Same(b, e, b2, e2)
    ensures PiecesAfter(b, e, d) == PiecesAfter(b2, e2, d)
    decreases |b| - e, 0
  {
    if b[e] != '\0' {
      SameNext(b, e, b2, e2);
      PiecesSame(b, e + 1, b2, e2 + 1, d);
    }
  }
}
