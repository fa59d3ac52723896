/** The socket file text of a `bind` rule: an optional octal mode, a ':',
    and the path the Unix socket is bound to. */
module Target {
  import opened CString
  import opened Tokens

  /** Where to bind and the mode to give the socket file; -1 when the
      text names no mode. */
  datatype Target = Target(mode: int, path: string)

  /** The text a rule maps to, read: rejected (`bind` fails with
      EADDRNOTAVAIL) or a target. */
  datatype Parsed = Rejected | Parsed(target: Target)

  predicate IsOctal(s: string) {
    forall i :: 0 <= i < |s| ==> '0' <= s[i] <= '7'
  }

  /** The value of a string of octal digits; the empty string is 0. */
  function Octal(s: string): (n: int)
    requires IsOctal(s)
    ensures n >= 0
  {
    if s == [] then 0 else Octal(s[..|s| - 1]) * 8 + (s[|s| - 1] as int - '0' as int)
  }

  /** Reference reading of the text: empty or ending in ':' is rejected;
      without ':' it is the path; with one ':' the part before it must be
      octal digits and is the mode, the part after it the path; with more
      than one ':' it is rejected. */
  function ParseTarget(t: string): Parsed
  {
    if t == [] || t[|t| - 1] == ':' then Rejected
    else
      var ps := SplitAll(t, ':');
      if |ps| == 1 then Parsed(Target(-1, t))
      else if |ps| == 2 && IsOctal(ps[0]) then Parsed(Target(Octal(ps[0]), ps[1]))
      else Rejected
  }

  /** `strchr(s + p, ch)`: the next `ch` at or after `p`, or NULL at the end. */
  method StrChr(s: string, p: nat, ch: char) returns (r: Ptr)
    requires '\0' !in s && p <= |s| && ch != '\0'
    ensures r.Null? <==> CSpn(s + ['\0'], p, ch) == |s|
    ensures r.At? ==> r.i == CSpn(s + ['\0'], p, ch) < |s| && s[r.i] == ch
  {
    ghost var b := s + ['\0'];
    var q := p;
    while q < |s| && s[q] != ch
      invariant p <= q <= |s|
      invariant CSpn(b, q, ch) == CSpn(b, p, ch)
      decreases |s| - q
    {
      assert b[q] == s[q];
      q := q + 1;
    }
    if q == |s| {
      return Null;
    }
    assert b[q] == s[q];
    return At(q);
  }

  /** The mode digits between `p` and `np`, as the loop of `bind` reads
      them; it gives up on the first character that is not an octal digit. */
  method ReadMode(t: string, p: nat, np: nat) returns (mode: int, ok: bool)
    requires p <= np <= |t|
    ensures ok <==> IsOctal(t[p..np])
    ensures ok ==> mode == Octal(t[p..np])
  {
    mode := 0;
    var q := p;
    while q < np
      invariant p <= q <= np
      invariant IsOctal(t[p..q]) && mode == Octal(t[p..q])
    {
      assert t[p..q + 1][..q - p] == t[p..q];
      if '0' <= t[q] <= '7' {
        mode := mode * 8 + (t[q] as int - '0' as int);
      } else {
        assert t[p..np][q - p] == t[q];
        return mode, false;
      }
      q := q + 1;
    }
    return mode, true;
  }

  /** The scan `bind` makes of the socket file text its rule maps to. */
  method ScanTarget(sockfile: string) returns (r: Parsed)
    requires '\0' !in sockfile
    ensures r == ParseTarget(sockfile)
  {
    var sfl := |sockfile|;
    if sfl == 0 || sockfile[sfl - 1] == ':' {
      return Rejected;
    }
    ghost var b := sockfile + ['\0'];
    var mode := -1;
    var i: nat := 0;
    var p: nat := 0;
    var np := StrChr(sockfile, p, ':');
    while np.At?
      invariant i <= 1 && p <= |sockfile|
      invariant np.Null? <==> CSpn(b, p, ':') == |sockfile|
      invariant np.At? ==> np.i == CSpn(b, p, ':') < |sockfile|
      invariant i == 0 ==> p == 0 && mode == -1
      invariant i == 1 ==>
        && 0 < p && IsOctal(sockfile[..p - 1]) && mode == Octal(sockfile[..p - 1])
        && SplitAll(sockfile, ':') == [sockfile[..p - 1]] + Pieces(b, p, ':')
      decreases 1 - i
    {
      if i == 0 {
        var ok;
        mode, ok := ReadMode(sockfile, p, np.i);
        if !ok {
          FirstPiece(sockfile, np.i);
          return Rejected;
        }
        FirstPiece(sockfile, np.i);
      } else {
        MorePieces(b, p);
        return Rejected;
      }
      i, p := i + 1, np.i + 1;
      np := StrChr(sockfile, p, ':');
    }
    LastPiece(b, p);
    if i == 0 {
      assert sockfile[0..] == sockfile;
    }
    return Parsed(Target(mode, sockfile[p..]));
  }

  /** The first ':' splits off the first piece, and the pieces after it
      are those from the next position on. */
  lemma FirstPiece(t: string, e: nat)
    requires '\0' !in t && e < |t| && t[e] == ':' && e == CSpn(t + ['\0'], 0, ':')
    ensures SplitAll(t, ':') == [t[..e]] + Pieces(t + ['\0'], e + 1, ':')
  {
    var b := t + ['\0'];
    assert b[0..e] == t[..e];
    assert b[e] == t[e];
    assert Pieces(b, 0, ':') == [b[0..e]] + PiecesAfter(b, e, ':');
    assert PiecesAfter(b, e, ':') == Pieces(b, e + 1, ':');
  }

  /** A ':' after the position gives at least two pieces from there on. */
  lemma MorePieces(b: seq<char>, p: nat)
    requires Terminated(b) && p < |b| && b[CSpn(b, p, ':')] != '\0'
    ensures |Pieces(b, p, ':')| >= 2
  {
    var e := CSpn(b, p, ':');
    assert PiecesAfter(b, e, ':') == Pieces(b, e + 1, ':');
  }

  /** No ':' after the position leaves one piece, the rest of the text. */
  lemma LastPiece(b: seq<char>, p: nat)
    requires Terminated(b) && p < |b| && b[CSpn(b, p, ':')] == '\0' && CSpn(b, p, ':') == |b| - 1
    ensures Pieces(b, p, ':') == [b[p..|b| - 1]]
  {
    PiecesLast(b, p, CSpn(b, p, ':'), ':');
  }

  /** A text without ':' is a path and gives no mode. */
  lemma PlainPath(t: string)
    requires t != [] && ':' !in t && '\0' !in t
    ensures ParseTarget(t) == Parsed(Target(-1, t))
  {
    SplitAllWhole(t, ':');
  }

  /** `mode:path` with octal digits before the ':' gives that mode; no
      digits at all give mode 0. */
  lemma ModeAndPath(m: string, path: string)
    requires IsOctal(m) && path != [] && ':' !in path && '\0' !in path
    ensures ParseTarget(m + ":" + path) == Parsed(Target(Octal(m), path))
  {
    assert ':' !in m && '\0' !in m by {
      assert forall i :: 0 <= i < |m| ==> '0' <= m[i] <= '7';
    }
    SplitAllCut(m, path, ':');
    SplitAllWhole(path, ':');
    var t := m + ":" + path;
    assert t[|t| - 1] == path[|path| - 1];
  }

  /** A mode that is not all octal digits is rejected. */
  lemma BadMode(m: string, path: string)
    requires !IsOctal(m) && ':' !in m && '\0' !in m && path != [] && ':' !in path && '\0' !in path
    ensures ParseTarget(m + ":" + path) == Rejected
  {
    SplitAllCut(m, path, ':');
    SplitAllWhole(path, ':');
    var t := m + ":" + path;
    assert t[|t| - 1] == path[|path| - 1];
  }

  /** A second ':' is rejected, whatever surrounds it. */
  lemma TwoColons(m: string, x: string, y: string)
    requires ':' !in m && '\0' !in m && ':' !in x && '\0' !in x
    ensures ParseTarget(m + ":" + x + ":" + y) == Rejected
  {
    SplitAllCut(m, x + ":" + y, ':');
    SplitAllCut(x, y, ':');
    assert m + ":" + x + ":" + y == m + [':'] + (x + [':'] + y);
  }

  /** `0660:/tmp/app.sock` binds `/tmp/app.sock` with mode 0660. */
  lemma ModeExample()
    ensures ParseTarget("0660:/tmp/app.sock") == Parsed(Target(432, "/tmp/app.sock"))
  {
    assert "0660:/tmp/app.sock" == "0660" + ":" + "/tmp/app.sock";
    ModeAndPath("0660", "/tmp/app.sock");
    assert "0660"[..3] == "066" && "066"[..2] == "06" && "06"[..1] == "0" && "0"[..0] == "";
  }
}
