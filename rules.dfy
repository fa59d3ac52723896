/** `_etohm`: reading a rule string of comma-separated `host:port=sockfile`
    entries into a table, with the scans `strtok` makes over one shared
    cursor. */
module Rules {
  import opened CString
  import opened Tokens
  import opened Strtok
  import opened Keys

  /** One table entry: a key built by `ssprintf` and the socket file text. */
  datatype Mapping = Mapping(key: string, file: string)

  /** What the loop does with one comma-separated entry. */
  datatype Verdict =
    | Pass                              // not exactly one '=': go on to the next entry
    | Ignore                            // the address has not exactly one ':'
    | Break                             // nothing after the '='
    | Add(key: string, file: string)    // insert this mapping

  /** The verdict on one entry `c`: its address is the first '='-token,
      its socket file the second. */
  function Entry(c: string): Verdict
  {
    if Count(c, '=') != 1 then Pass
    else
      var eq := Split(c, '=');
      if eq == [] || Count(eq[0], ':') != 1 then Ignore
      else AddrVerdict(eq[0], if |eq| >= 2 then Some(eq[1]) else None)
  }

  /** The verdict on an address with one ':' and the socket file, if any:
      the host is the first ':'-token of the address, the port the second,
      each `*` when missing. */
  function AddrVerdict(a: string, file: Option<string>): Verdict
  {
    if file.None? then Break
    else
      var col := Split(a, ':');
      var host := if |col| >= 1 then col[0] else "*";
      var port := if |col| >= 2 then col[1] else "*";
      Add(KeyText(host, port), file.value)
  }

  /** The mapping a sequence of entries yields. Entries passed over let the
      loop go on; any other entry is the last one read, because its own
      scans leave the shared cursor on a terminator. */
  function ParseTokens(ts: seq<string>): Option<Mapping>
  {
    if ts == [] then None
    else match Entry(ts[0])
      case Pass => ParseTokens(ts[1..])
      case Add(k, f) => Some(Mapping(k, f))
      case _ => None
  }

  /** The mapping a rule string yields; no string, no mapping. */
  function ParseRules(env: Option<string>): Option<Mapping>
  {
    if env.None? then None else ParseTokens(Split(env.value, ','))
  }

  /** A table after the mapping, if any, is inserted. */
  function Apply(m: map<string, string>, r: Option<Mapping>): map<string, string>
  {
    if r.None? then m else m[r.value.key := r.value.file]
  }

  /** An entry with exactly one '=': split at the '=' with two calls, count
      the address's ':', split it with two more calls, then check for a
      socket file and fill in a missing host or port with `*`. */
  method ParseEntry(tk: Tokenizer, cur: nat) returns (v: Verdict)
    requires tk.Valid() && cur < tk.buf.Length
    requires Count(CStr(tk.buf[..], cur), '=') == 1
    modifies tk, tk.buf
    ensures tk.Valid() && tk.buf == old(tk.buf)
    ensures v == Entry(old(CStr(tk.buf[..], cur))) && !v.Pass?
    ensures tk.buf[tk.save] == '\0'
  {
    ghost var eq := Split(CStr(tk.buf[..], cur), '=');
    var addr, sockfile := SplitEntry(tk, cur);
    var n := ChrNStr(tk.buf, addr, ':');
    if n != 1 {
      return Ignore;
    }
    v := ParseAddr(tk, addr.i, sockfile);
  }

  /** The two '=' calls on an entry with one '=': the address and the
      socket file, NULL where the entry has fewer pieces; the socket file
      lies past the address's terminator, and the cursor is left on a
      terminator. */
  method SplitEntry(tk: Tokenizer, cur: nat) returns (addr: Ptr, sockfile: Ptr)
    requires tk.Valid() && cur < tk.buf.Length
    requires Count(CStr(tk.buf[..], cur), '=') == 1
    modifies tk, tk.buf
    ensures tk.Valid() && tk.buf == old(tk.buf) && tk.buf[tk.save] == '\0'
    ensures var eq := Split(old(CStr(tk.buf[..], cur)), '=');
      && (addr.At? <==> eq != [])
      && (addr.At? ==> addr.i < tk.buf.Length && CStr(tk.buf[..], addr.i) == eq[0])
      && (sockfile.At? <==> |eq| >= 2)
      && (sockfile.At? ==>
            && addr.At? && sockfile.i < tk.buf.Length && CStr(tk.buf[..], sockfile.i) == eq[1]
            && Nul(tk.buf[..], addr.i) < sockfile.i)
  {
    ghost var b0 := tk.buf[..];
    EqualsScan(b0, cur);
    addr := tk.Next(At(cur), '=');
    sockfile := tk.Next(Null, '=');
    assert tk.buf[..] == Twice(b0, cur, '=').buf && tk.save == Twice(b0, cur, '=').save;
  }

  /** An address with one ':': split it with two calls, then check for a
      socket file and fill in a missing host or port with `*`. */
  method ParseAddr(tk: Tokenizer, addr: nat, sockfile: Ptr) returns (v: Verdict)
    requires tk.Valid() && addr < tk.buf.Length && Count(CStr(tk.buf[..], addr), ':') == 1
    requires sockfile.At? ==> Nul(tk.buf[..], addr) < sockfile.i < tk.buf.Length
    modifies tk, tk.buf
    ensures tk.Valid() && tk.buf == old(tk.buf)
    ensures v == AddrVerdict(old(CStr(tk.buf[..], addr)),
                             if sockfile.At? then Some(old(CStr(tk.buf[..], sockfile.i))) else None)
    ensures !v.Pass?
    ensures tk.buf[tk.save] == '\0'
  {
    ghost var b1 := tk.buf[..];
    ghost var col := Split(CStr(b1, addr), ':');
    ColonScan(b1, addr, sockfile);
    var host := tk.Next(At(addr), ':');
    var port := tk.Next(Null, ':');
    assert tk.buf[..] == Twice(b1, addr, ':').buf && tk.save == Twice(b1, addr, ':').save;
    if sockfile.Null? {
      return Break;
    }
    var h := "*";
    if host.At? {
      h := StrDup(tk.buf, host.i);
    }
    var p := "*";
    if port.At? {
      p := StrDup(tk.buf, port.i);
    }
    var f := StrDup(tk.buf, sockfile.i);
    AddrAdded(CStr(b1, addr), Some(f), h, p);
    v := Add(KeyText(h, p), f);
  }

  /** An address with a socket file adds the mapping of its host and port. */
  lemma AddrAdded(a: string, file: Option<string>, h: string, p: string)
    requires file.Some?
    requires var col := Split(a, ':');
      && h == (if |col| >= 1 then col[0] else "*")
      && p == (if |col| >= 2 then col[1] else "*")
    ensures AddrVerdict(a, file) == Add(KeyText(h, p), file.value)
  {
  }

  /** What the two '=' calls deliver from an entry with one '='. */
  lemma EqualsScan(b: seq<char>, cur: nat)
    requires Terminated(b) && cur < |b| && Count(CStr(b, cur), '=') == 1
    ensures var r1 := Step(b, cur, '='); var r2 := Twice(b, cur, '=');
      var eq := Split(CStr(b, cur), '=');
      && (r1.tok.At? <==> eq != [])
      && (r1.tok.At? ==> r1.tok.i < |b| && CStr(r2.buf, r1.tok.i) == eq[0])
      && (r2.tok.At? <==> |eq| >= 2)
      && (r2.tok.At? ==>
            && r1.tok.At? && r2.tok.i < |b| && CStr(r2.buf, r2.tok.i) == eq[1]
            && Nul(r2.buf, r1.tok.i) < r2.tok.i)
      && r2.buf[r2.save] == '\0'
  {
    TwiceTokens(b, cur, '=');
    TwiceDrains(b, cur, '=');
  }

  /** What the two ':' calls deliver from an address with one ':', and the
      socket file after it, which they do not touch. */
  lemma ColonScan(b: seq<char>, a: nat, sockfile: Ptr)
    requires Terminated(b) && a < |b| && Count(CStr(b, a), ':') == 1
    requires sockfile.At? ==> Nul(b, a) < sockfile.i < |b|
    ensures var r3 := Step(b, a, ':'); var r4 := Twice(b, a, ':');
      var col := Split(CStr(b, a), ':');
      && (r3.tok.At? <==> |col| >= 1)
      && (r3.tok.At? ==> r3.tok.i < |b| && CStr(r4.buf, r3.tok.i) == col[0])
      && (r4.tok.At? <==> |col| >= 2)
      && (r4.tok.At? ==> r4.tok.i < |b| && CStr(r4.buf, r4.tok.i) == col[1])
      && (sockfile.At? ==> CStr(r4.buf, sockfile.i) == CStr(b, sockfile.i))
      && r4.buf[r4.save] == '\0'
  {
    TwiceTokens(b, a, ':');
    TwiceDrains(b, a, ':');
    if sockfile.At? {
      var r4 := Twice(b, a, ':');
      TwiceFrame(b, a, ':');
      NulFrame(b, r4.buf, sockfile.i);
    }
  }

  /** The two tables the library reads: one for `bind`, one for `connect`. */
  class RuleTable {
    var entries: map<string, string>

    /** `ohm_init`: an empty table. */
    constructor ()
      ensures entries == map[]
    {
      entries := map[];
    }

    /** The iteration on an entry with one '=': read it, insert its
        mapping if it has one, and unless it stopped the loop make the
        ',' call of the loop condition, which finds no entry after it. */
    method LastIteration(tk: Tokenizer, cur: nat)
      requires tk.Valid() && cur < tk.buf.Length && Count(CStr(tk.buf[..], cur), '=') == 1
      modifies this, tk, tk.buf
      ensures tk.Valid() && tk.buf == old(tk.buf)
      ensures var v := old(Entry(CStr(tk.buf[..], cur)));
        entries == if v.Add? then old(entries)[v.key := v.file] else old(entries)
    {
      var v := ParseEntry(tk, cur);
      if v.Add? {
        entries := entries[v.key := v.file];
      }
      if !v.Break? {
        StepAtNul(tk.buf[..], tk.save, ',');
        var next := tk.Next(Null, ',');
        assert next.Null?;
      }
    }

    /** `_etohm(table, env)`: copy the rule string, cut it at ',' with
        `strtok`, and read the entries from the first one on. */
    method Etohm(env: Option<string>)
      requires env.Some? ==> '\0' !in env.value
      modifies this
      ensures entries == Apply(old(entries), ParseRules(env))
    {
      if env.None? {
        return;
      }
      var tk := new Tokenizer(env.value);
      FirstScan(env.value);
      var current := tk.Next(At(0), ',');
      if current.Null? {
        return;
      }
      ReadEntries(tk, current.i);
    }

    /** The `do … while (strtok(NULL, ","))` loop of `_etohm`, from the
        entry at `cur` on: an entry without exactly one '=' is passed over,
        any other is read and ends the loop. */
    method ReadEntries(tk: Tokenizer, cur: nat)
      requires tk.Valid() && cur < tk.buf.Length
      modifies this, tk, tk.buf
      ensures entries == Apply(old(entries), old(Pending(tk.buf[..], cur, tk.save)))
    {
      ghost var goal := Pending(tk.buf[..], cur, tk.save);
      var current := At(cur);
      var more := true;
      while more
        invariant tk.Valid() && tk.buf == old(tk.buf)
        invariant more ==> && current.At? && current.i < tk.buf.Length && entries == old(entries)
                           && Pending(tk.buf[..], current.i, tk.save) == goal
        invariant !more ==> entries == Apply(old(entries), goal)
        decreases if more then 1 + |TokensFrom(tk.buf[..], tk.save, ',')| else 0
      {
        var n := ChrNStr(tk.buf, current, '=');
        if n != 1 {
          PassOver(tk.buf[..], current.i, tk.save);
          current := tk.Next(Null, ',');
          more := current.At?;
        } else {
          LastEntry(tk.buf[..], current.i, tk.save);
          LastIteration(tk, current.i);
          more := false;
        }
      }
    }
  }

  /** The mapping still to come while the loop holds the entry at `cur`
      and the cursor rests at `save`. */
  function Pending(b: seq<char>, cur: nat, save: nat): Option<Mapping>
    requires Terminated(b) && cur < |b| && save < |b|
  {
    ParseTokens([CStr(b, cur)] + TokensFrom(b, save, ','))
  }

  /** The first ',' call on the copy of the rule string starts the loop
      on the first entry, or finds none. */
  lemma FirstScan(env: string)
    requires '\0' !in env
    ensures var b := env + ['\0']; var r := Step(b, 0, ',');
      && Terminated(b)
      && (r.tok.Null? ==> ParseRules(Some(env)) == None)
      && (r.tok.At? ==> r.tok.i < |b| && Pending(r.buf, r.tok.i, r.save) == ParseRules(Some(env)))
  {
    StepTokens(env + ['\0'], 0, ',');
  }

  /** An entry passed over: the next ',' call moves the loop to the entry
      after it, or ends it with nothing inserted. */
  lemma PassOver(b: seq<char>, cur: nat, save: nat)
    requires Terminated(b) && cur < |b| && save < |b| && Count(CStr(b, cur), '=') != 1
    ensures var r := Step(b, save, ',');
      && (r.tok.Null? ==> Pending(b, cur, save) == None)
      && (r.tok.At? ==>
            && r.tok.i < |b| && Pending(r.buf, r.tok.i, r.save) == Pending(b, cur, save)
            && |TokensFrom(r.buf, r.save, ',')| < |TokensFrom(b, save, ',')|)
  {
    var c := CStr(b, cur);
    var rest := TokensFrom(b, save, ',');
    assert ([c] + rest)[0] == c && ([c] + rest)[1..] == rest;
    assert Entry(c) == Pass;
    assert Pending(b, cur, save) == ParseTokens(rest);
    StepTokens(b, save, ',');
  }

  /** Any other entry decides the mapping on its own. */
  lemma LastEntry(b: seq<char>, cur: nat, save: nat)
    requires Terminated(b) && cur < |b| && save < |b| && Count(CStr(b, cur), '=') == 1
    ensures var v := Entry(CStr(b, cur));
      Pending(b, cur, save) == if v.Add? then Some(Mapping(v.key, v.file)) else None
  {
    var c := CStr(b, cur);
    var rest := TokensFrom(b, save, ',');
    assert ([c] + rest)[0] == c;
  }

  /** A call that starts on a terminator returns NULL. */
  lemma StepAtNul(b: seq<char>, p: nat, d: char)
    requires Terminated(b) && p < |b| && b[p] == '\0'
    ensures Step(b, p, d).tok.Null?
  {
  }

  /** No occurrence in either part means none in the whole. */
  lemma CountNone3(a: string, b: string, c: string, ch: char)
    requires ch !in a && ch !in b && ch !in c
    ensures Count(a + b + c, ch) == 0
  {
    CountAppend(a + b, c, ch);
    CountAppend(a, b, ch);
  }

  /** One occurrence between two parts without it. */
  lemma CountOne(a: string, b: string, ch: char)
    requires ch !in a && ch !in b
    ensures Count(a + [ch] + b, ch) == 1
  {
    CountAppend(a + [ch], b, ch);
    CountAppend(a, [ch], ch);
    assert [ch][..0] == [];
  }

  /** The '=' splits an entry `a=f` into its address and its socket file. */
  lemma SplitAtEquals(a: string, f: string)
    requires a != [] && '=' !in a && '\0' !in a && '=' !in f && '\0' !in f
    ensures Count(a + "=" + f, '=') == 1
    ensures Split(a + "=" + f, '=') == if f == [] then [a] else [a, f]
  {
    CountOne(a, f, '=');
    SplitCut(a, f, '=');
    if f == [] {
      SplitEmpty('=');
    } else {
      SplitWhole(f, '=');
    }
  }

  /** `host:port=file` adds the key of host and port, mapped to the file. */
  lemma EntryAdd(h: string, p: string, f: string)
    requires h != [] && ':' !in h && '=' !in h && '\0' !in h
    requires p != [] && ':' !in p && '=' !in p && '\0' !in p
    requires f != [] && '=' !in f && '\0' !in f
    ensures Entry(h + ":" + p + "=" + f) == Add(KeyText(h, p), f)
  {
    var a := h + ":" + p;
    SplitAtEquals(a, f);
    CountOne(h, p, ':');
    SplitCut(h, p, ':');
    SplitWhole(p, ':');
  }

  /** `host:=file` has no port; the port is `*`. */
  lemma EntryAnyPort(h: string, f: string)
    requires h != [] && ':' !in h && '=' !in h && '\0' !in h
    requires f != [] && '=' !in f && '\0' !in f
    ensures Entry(h + ":=" + f) == Add(KeyText(h, "*"), f)
  {
    var a := h + ":";
    assert h + ":=" + f == a + "=" + f;
    SplitAtEquals(a, f);
    CountOne(h, [], ':');
    assert h + [':'] + [] == a;
    SplitCut(h, [], ':');
    SplitEmpty(':');
  }

  /** `:port=file`: `strtok` skips the leading ':', so the port text lands
      in the host place and the port becomes `*`. */
  lemma EntryNoHost(p: string, f: string)
    requires p != [] && ':' !in p && '=' !in p && '\0' !in p
    requires f != [] && '=' !in f && '\0' !in f
    ensures Entry(":" + p + "=" + f) == Add(KeyText(p, "*"), f)
  {
    var a := ":" + p;
    SplitAtEquals(a, f);
    CountOne([], p, ':');
    assert [] + [':'] + p == a;
    SplitLead(p, ':');
    SplitWhole(p, ':');
  }

  /** `:=file` has neither host nor port: both are `*`. */
  lemma EntryNoHostNoPort(f: string)
    requires f != [] && '=' !in f && '\0' !in f
    ensures Entry(":=" + f) == Add(KeyText("*", "*"), f)
  {
    assert ":=" + f == ":" + "=" + f;
    SplitAtEquals(":", f);
    assert Count(":", ':') == 1;
    assert ":" == [':'] + [];
    SplitLead([], ':');
    SplitEmpty(':');
  }

  /** A good address with nothing after the '=' stops the loop. */
  lemma EntryNoFile(a: string)
    requires Count(a, ':') == 1 && '=' !in a && '\0' !in a
    ensures Entry(a + "=") == Break
  {
    assert a + "=" == a + "=" + [];
    SplitAtEquals(a, []);
  }

  /** An address without exactly one ':' is ignored, whatever follows it. */
  lemma EntryBadAddress(a: string, f: string)
    requires a != [] && Count(a, ':') != 1 && '=' !in a && '\0' !in a
    requires '=' !in f && '\0' !in f
    ensures Entry(a + "=" + f) == Ignore
  {
    SplitAtEquals(a, f);
  }

  /** An entry without exactly one '=' is passed over: the rest of the
      string decides. */
  lemma RulesPassOver(c: string, rest: string)
    requires c != [] && ',' !in c && '\0' !in c && Count(c, '=') != 1
    ensures ParseRules(Some(c + "," + rest)) == ParseRules(Some(rest))
  {
    SplitCut(c, rest, ',');
    var ts := [c] + Split(rest, ',');
    assert ts[0] == c && ts[1..] == Split(rest, ',');
  }

  /** An entry with one '=' decides on its own: nothing after it is read. */
  lemma RulesFirstDecides(c: string, rest: string)
    requires c != [] && ',' !in c && '\0' !in c && Count(c, '=') == 1
    ensures ParseRules(Some(c + "," + rest)) == ParseRules(Some(c))
  {
    SplitCut(c, rest, ',');
    SplitWhole(c, ',');
    var ts := [c] + Split(rest, ',');
    assert ts[0] == c;
    assert [c][0] == c;
  }

  /** A well-formed first entry is the whole table, whatever entries
      follow it. */
  lemma FirstRuleWins(h: string, p: string, f: string, rest: string)
    requires h != [] && ':' !in h && '=' !in h && ',' !in h && '\0' !in h
    requires p != [] && ':' !in p && '=' !in p && ',' !in p && '\0' !in p
    requires f != [] && '=' !in f && ',' !in f && '\0' !in f
    ensures ParseRules(Some(h + ":" + p + "=" + f + "," + rest)) == Some(Mapping(KeyText(h, p), f))
  {
    var a := h + ":" + p;
    var c := a + "=" + f;
    EntryAdd(h, p, f);
    CountOne(a, f, '=');
    RulesFirstDecides(c, rest);
    SplitWhole(c, ',');
    assert [c][0] == c && [c][1..] == [];
  }

  /** Rules and lookups build their keys the same way, so the rule read
      for an address and a port is what the lookup finds for them. */
  lemma RuleMatches(ip: Ipv4, port: port16, f: string)
    requires f != [] && '=' !in f && ',' !in f && '\0' !in f
    ensures var env := Ntoa(ip) + ":" + Decimal(port as nat) + "=" + f + ",";
      FindSockmap(Apply(map[], ParseRules(Some(env))), ip, port) == Some(f)
  {
    var env := Ntoa(ip) + ":" + Decimal(port as nat) + "=" + f + ",";
    FirstRuleWins(Ntoa(ip), Decimal(port as nat), f, "");
    assert env + "" == env;
  }

  /** A rule for a single-digit port of a host is filed under the host's
      any-port key, so it answers every port of that host. */
  lemma DigitRuleAnyPort(ip: Ipv4, d: port16, port: port16, f: string)
    requires d < 10
    requires f != [] && '=' !in f && ',' !in f && '\0' !in f
    ensures var env := Ntoa(ip) + ":" + Decimal(d as nat) + "=" + f + ",";
      FindSockmap(Apply(map[], ParseRules(Some(env))), ip, port) == Some(f)
  {
    var h := Ntoa(ip);
    var env := h + ":" + Decimal(d as nat) + "=" + f + ",";
    FirstRuleWins(h, Decimal(d as nat), f, "");
    assert env + "" == env;
    KeyOfPort(h, d as nat);
    KeyDropsLast(h, "*");
    var anyHost := KeyText("*", Decimal(port as nat));
    KeyDropsLast("*", Decimal(port as nat));
    assert anyHost[0] == '*' && (h + ":")[0] == h[0];
    assert h[0] in h;
  }

  /** A rule `*:d=f` for a single-digit port is filed under the catch-all
      key, so it answers every address and every port. */
  lemma DigitRuleAnyHost(d: port16, ip: Ipv4, port: port16, f: string)
    requires d < 10
    requires f != [] && '=' !in f && ',' !in f && '\0' !in f
    ensures var env := "*:" + Decimal(d as nat) + "=" + f + ",";
      FindSockmap(Apply(map[], ParseRules(Some(env))), ip, port) == Some(f)
  {
    var env := "*:" + Decimal(d as nat) + "=" + f + ",";
    FirstRuleWins("*", Decimal(d as nat), f, "");
    assert env + "" == env && "*" + ":" + Decimal(d as nat) == "*:" + Decimal(d as nat);
    KeyOfPort("*", d as nat);
    KeyDropsLast("*", "*");
    CatchAll(f, ip, port);
  }
}
