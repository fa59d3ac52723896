/** The C library's `strtok` on a one-character delimiter: one buffer that
    it writes NULs into and one saved cursor that every call passing NULL
    continues from. */
module Strtok {
  import opened CString
  import opened Tokens

  /** The state one `strtok` call leaves behind: the buffer, the saved
      cursor and the token it returned. */
  datatype Scan = Scan(buf: seq<char>, save: nat, tok: Ptr)

  /** One `strtok` call that starts scanning at `p`: skip delimiters; at
      the terminator there is no token and the cursor stays there; a token
      that runs to the terminator leaves the cursor on it; otherwise the
      delimiter that ends the token is overwritten with a NUL and the cursor
      moves just past it. */
  function Step(b: seq<char>, p: nat, d: char): (r: Scan)
    requires Terminated(b) && p < |b|
    ensures |r.buf| == |b| && Terminated(r.buf) && p <= r.save < |b|
    ensures r.tok.At? ==> p <= r.tok.i < r.save
  {
    var s := Spn(b, p, d);
    if b[s] == '\0' then Scan(b, s, Null)
    else
      var e := CSpn(b, s, d);
      if b[e] == '\0' then Scan(b, e, At(s))
      else Scan(b[e := '\0'], e + 1, At(s))
  }

  /** The token a call returned, as a list of at most one C string. */
  function Got(r: Scan): seq<string>
    requires Terminated(r.buf) && (r.tok.At? ==> r.tok.i < |r.buf|)
  {
    if r.tok.At? then [CStr(r.buf, r.tok.i)] else []
  }

  /** Positions at or past `k` hold the same characters in both buffers. */
  lemma SameTail(b: seq<char>, b2: seq<char>, k: nat)
    requires Terminated(b) && Terminated(b2) && |b| == |b2| && k < |b|
    requires forall x :: k <= x < |b| ==> b2[x] == b[x]
    ensures Same(b, k, b2, k)
  {
    NulFrame(b, b2, k);
  }

  /** A call with nothing but delimiters left returns NULL. */
  lemma StepNone(b: seq<char>, p: nat, d: char)
    requires Terminated(b) && p < |b| && b[Spn(b, p, d)] == '\0'
    ensures var r := Step(b, p, d);
      && r == Scan(b, Spn(b, p, d), Null)
      && TokensFrom(b, p, d) == [] == Got(r) + TokensFrom(r.buf, r.save, d)
  {
    var s := Spn(b, p, d);
    assert Spn(b, s, d) == s;
  }

  /** A token that runs to the terminator is returned whole, and the cursor
      left on the terminator finds nothing more. */
  lemma StepAtEnd(b: seq<char>, p: nat, s: nat, e: nat, d: char)
    requires Terminated(b) && p < |b| && s == Spn(b, p, d) && b[s] != '\0'
    requires e == CSpn(b, s, d) && b[e] == '\0'
    ensures var r := Step(b, p, d);
      && r == Scan(b, e, At(s))
      && TokensFrom(b, p, d) == [CStr(b, s)] == Got(r) + TokensFrom(r.buf, r.save, d)
  {
    TokensLast(b, p, s, e, d);
    CSpnStops(b, s, d);
    assert Spn(b, e, d) == e;
  }

  /** A token ended by a delimiter is cut off by the NUL written over it,
      and the tokens after it are untouched. */
  lemma StepCut(b: seq<char>, p: nat, s: nat, e: nat, d: char)
    requires Terminated(b) && p < |b| && s == Spn(b, p, d) && b[s] != '\0'
    requires e == CSpn(b, s, d) && b[e] != '\0'
    ensures var r := Step(b, p, d);
      && e + 1 < |b| && r == Scan(b[e := '\0'], e + 1, At(s))
      && TokensFrom(b, p, d) == Got(r) + TokensFrom(r.buf, r.save, d)
  {
    var b2 := b[e := '\0'];
    TokensMore(b, p, s, e, d);
    CSpnStops(b, s, d);
    NulCut(b, s, e);
    assert CStr(b2, s) == b[s..e];
    SameTail(b, b2, e + 1);
    TokensSame(b, e + 1, b2, e + 1, d);
  }

  /** A call removes the token it returns from the front of the tokens
      still to come, and returns NULL exactly when none is left. */
  lemma StepTokens(b: seq<char>, p: nat, d: char)
    requires Terminated(b) && p < |b|
    ensures var r := Step(b, p, d);
      && TokensFrom(b, p, d) == Got(r) + TokensFrom(r.buf, r.save, d)
      && (r.tok.Null? <==> TokensFrom(b, p, d) == [])
  {
    var s := Spn(b, p, d);
    if b[s] == '\0' {
      StepNone(b, p, d);
    } else {
      var e := CSpn(b, s, d);
      if b[e] == '\0' {
        StepAtEnd(b, p, s, e, d);
      } else {
        StepCut(b, p, s, e, d);
      }
    }
  }

  /** A call writes only inside the C string it scans, leaves the cursor
      in it, and the token it returns ends before the cursor. */
  lemma StepFrame(b: seq<char>, p: nat, d: char)
    requires Terminated(b) && p < |b|
    ensures var r := Step(b, p, d);
      && (forall x :: 0 <= x < |b| && (x < p || Nul(b, p) <= x) ==> r.buf[x] == b[x])
      && r.save <= Nul(b, p) && Nul(r.buf, r.save) == Nul(b, p)
      && (r.tok.At? ==> Nul(r.buf, r.tok.i) <= r.save)
  {
    var s := Spn(b, p, d);
    SpnStops(b, p, d);
    if b[s] != '\0' {
      var e := CSpn(b, s, d);
      CSpnStops(b, s, d);
      NulLater(b, p, s);
      if b[e] != '\0' {
        CutFrame(b, p, s, e, d);
      }
    }
  }

  /** The cut case of `StepFrame`. */
  lemma CutFrame(b: seq<char>, p: nat, s: nat, e: nat, d: char)
    requires Terminated(b) && p < |b| && s == Spn(b, p, d) && b[s] != '\0'
    requires e == CSpn(b, s, d) && b[e] != '\0'
    ensures e + 1 < |b| && Terminated(b[e := '\0'])
    ensures Nul(b[e := '\0'], e + 1) == Nul(b, p) && Nul(b[e := '\0'], s) == e
  {
    CutBounds(b, p, s, e, d);
    NulCut(b, s, e);
    NulLater(b, p, e + 1);
    NulFrame(b, b[e := '\0'], e + 1);
  }

  /** With no delimiter left a call empties the cursor; with at most one,
      what is left after it holds none. */
  lemma StepDrains(b: seq<char>, p: nat, d: char)
    requires Terminated(b) && p < |b|
    ensures var r := Step(b, p, d);
      && (d !in CStr(b, p) ==> r.buf[r.save] == '\0')
      && (Count(CStr(b, p), d) <= 1 ==> d !in CStr(r.buf, r.save))
  {
    var s := Spn(b, p, d);
    if b[s] != '\0' {
      var e := CSpn(b, s, d);
      if b[e] != '\0' {
        DrainCut(b, p, s, e, d);
      }
    }
  }

  /** Where a token that a delimiter ends lies in the C string scanned. */
  lemma CutBounds(b: seq<char>, p: nat, s: nat, e: nat, d: char)
    requires Terminated(b) && p < |b| && s == Spn(b, p, d) && b[s] != '\0'
    requires e == CSpn(b, s, d) && b[e] != '\0'
    ensures p <= s <= e < Nul(b, p) && Nul(b, s) == Nul(b, p) && b[e] == d
  {
    SpnStops(b, p, d);
    CSpnStops(b, s, d);
    NulLater(b, p, s);
  }

  /** The cut case of `StepDrains`: the delimiter overwritten is one of the
      C string's, and the cursor holds what followed it. */
  lemma DrainCut(b: seq<char>, p: nat, s: nat, e: nat, d: char)
    requires Terminated(b) && p < |b| && s == Spn(b, p, d) && b[s] != '\0'
    requires e == CSpn(b, s, d) && b[e] != '\0'
    ensures p <= e < p + |CStr(b, p)| && Terminated(b[e := '\0'])
    ensures d in CStr(b, p)
    ensures Count(CStr(b, p), d) == Count(CStr(b, p)[..e - p], d) + 1 + Count(CStr(b[e := '\0'], e + 1), d)
  {
    CutBounds(b, p, s, e, d);
    var c := CStr(b, p);
    assert c[e - p] == d;
    CountAround(c, e - p, d);
    RestKept(b, p, e);
  }

  /** Overwriting one character of a C string leaves the C string after it alone. */
  lemma RestKept(b: seq<char>, p: nat, e: nat)
    requires Terminated(b) && p < |b| && p <= e < Nul(b, p)
    ensures Terminated(b[e := '\0'])
    ensures CStr(b[e := '\0'], e + 1) == CStr(b, p)[e + 1 - p..]
  {
    NulFrame(b, b[e := '\0'], e + 1);
    CStrSuffix(b, p, e + 1);
  }

  /** Two calls in a row, the second passing NULL. */
  function Twice(b: seq<char>, p: nat, d: char): (r: Scan)
    requires Terminated(b) && p < |b|
    ensures |r.buf| == |b| && Terminated(r.buf) && r.save < |b|
  {
    var r1 := Step(b, p, d);
    Step(r1.buf, r1.save, d)
  }

  /** Two calls return the first two tokens of the C string they scan, in
      the buffer as the second call leaves it, and NULL where there are
      fewer. */
  lemma TwiceTokens(b: seq<char>, p: nat, d: char)
    requires Terminated(b) && p < |b|
    ensures var r1 := Step(b, p, d); var r2 := Twice(b, p, d); var ts := Split(CStr(b, p), d);
      && (r1.tok.At? <==> |ts| >= 1)
      && (r2.tok.At? <==> |ts| >= 2)
      && (r1.tok.At? ==> r1.tok.i < |b| && CStr(r2.buf, r1.tok.i) == ts[0])
      && (r2.tok.At? ==> r1.tok.At? && r2.tok.i < |b| && CStr(r2.buf, r2.tok.i) == ts[1])
      && (r2.tok.At? ==> Nul(r2.buf, r1.tok.i) < r2.tok.i)
  {
    var r1 := Step(b, p, d);
    var r2 := Step(r1.buf, r1.save, d);
    TokensAreSplit(b, p, d);
    StepTokens(b, p, d);
    StepTokens(r1.buf, r1.save, d);
    StepFrame(r1.buf, r1.save, d);
    if r1.tok.At? {
      TokenKept(b, p, d);
    }
  }

  /** The token the first call returns survives the second call. */
  lemma TokenKept(b: seq<char>, p: nat, d: char)
    requires Terminated(b) && p < |b| && Step(b, p, d).tok.At?
    ensures var r1 := Step(b, p, d); var r2 := Step(r1.buf, r1.save, d);
      && CStr(r2.buf, r1.tok.i) == CStr(r1.buf, r1.tok.i)
      && Nul(r2.buf, r1.tok.i) == Nul(r1.buf, r1.tok.i) <= r1.save
  {
    var r1 := Step(b, p, d);
    var r2 := Step(r1.buf, r1.save, d);
    StepFrame(b, p, d);
    StepFrame(r1.buf, r1.save, d);
    NulFrame(r1.buf, r2.buf, r1.tok.i);
  }

  /** Two calls write only inside the C string they scan and leave the
      cursor in it. */
  lemma TwiceFrame(b: seq<char>, p: nat, d: char)
    requires Terminated(b) && p < |b|
    ensures var r := Twice(b, p, d);
      && (forall x :: 0 <= x < |b| && (x < p || Nul(b, p) <= x) ==> r.buf[x] == b[x])
      && Nul(r.buf, r.save) == Nul(b, p)
  {
    var r1 := Step(b, p, d);
    StepFrame(b, p, d);
    StepFrame(r1.buf, r1.save, d);
  }

  /** With at most one delimiter in the C string, two calls leave the
      cursor on a terminator: a later call passing NULL returns NULL. */
  lemma TwiceDrains(b: seq<char>, p: nat, d: char)
    requires Terminated(b) && p < |b| && Count(CStr(b, p), d) <= 1
    ensures var r := Twice(b, p, d); r.buf[r.save] == '\0'
  {
    var r1 := Step(b, p, d);
    StepDrains(b, p, d);
    StepDrains(r1.buf, r1.save, d);
  }

  class Tokenizer {
    /** The copy of the rule string that the scans cut up. */
    var buf: array<char>
    /** The saved cursor, shared by every call. */
    var save: nat

    ghost predicate Valid()
      reads this, buf
    {
      Terminated(buf[..]) && save < buf.Length
    }

    /** `_strdup` of the rule string; the cursor rests on its terminator
        until the first scan gives a start. */
    constructor (env: string)
      requires '\0' !in env
      ensures Valid() && fresh(buf)
      ensures buf[..] == env + ['\0'] && save == |env|
    {
      var b := new char[|env| + 1](i requires 0 <= i <= |env| => if i < |env| then env[i] else '\0');
      assert b[..] == env + ['\0'] by {
        assert forall x :: 0 <= x < |env| ==> b[x] == env[x];
      }
      buf := b;
      save := |env|;
    }

    /** Where a scan starts: the given pointer, or the saved cursor for NULL. */
    function Start(from: Ptr): nat
      reads this
    {
      if from.At? then from.i else save
    }

    /** The `strspn` loop. */
    method StrSpn(p: nat, d: char) returns (s: nat)
      requires Valid() && p < buf.Length
      ensures s == Spn(buf[..], p, d)
    {
      s := p;
      while buf[s] != '\0' && buf[s] == d
        invariant p <= s < buf.Length
        invariant Spn(buf[..], s, d) == Spn(buf[..], p, d)
        decreases buf.Length - s
      {
        s := s + 1;
      }
    }

    /** The `strcspn` loop. */
    method StrCSpn(s: nat, d: char) returns (e: nat)
      requires Valid() && s < buf.Length
      ensures e == CSpn(buf[..], s, d)
    {
      e := s;
      while buf[e] != '\0' && buf[e] != d
        invariant s <= e < buf.Length
        invariant CSpn(buf[..], e, d) == CSpn(buf[..], s, d)
        decreases buf.Length - e
      {
        e := e + 1;
      }
    }

    /** `strtok(from, d)`: one `Step` from where the scan starts. */
    method Next(from: Ptr, d: char) returns (tok: Ptr)
      requires Valid()
      requires from.At? ==> from.i < buf.Length
      modifies this, buf
      ensures Valid() && buf == old(buf)
      ensures Scan(buf[..], save, tok) == Step(old(buf[..]), old(Start(from)), d)
    {
      var p := if from.At? then from.i else save;
      var s := StrSpn(p, d);
      if buf[s] == '\0' {
        save := s;
        tok := Null;
        return;
      }
      var e := StrCSpn(s, d);
      if buf[e] == '\0' {
        save := e;
      } else {
        buf[e] := '\0';
        save := e + 1;
      }
      tok := At(s);
    }
  }
}
