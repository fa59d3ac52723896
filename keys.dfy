/** The keys of the two rule tables and the lookup that consults them:
    `ssprintf`, the text of an IPv4 address and of a port, and
    `_find_sockmap`. */
module Keys {

  datatype Option<T> = None | Some(value: T)

  newtype byte = x: int | 0 <= x < 256

  /** A TCP port number, in host order. */
  newtype port16 = x: int | 0 <= x < 0x1_0000

  /** An IPv4 address as its four bytes in network order, the order in
      which `inet_ntoa` prints them. */
  datatype Ipv4 = Ipv4(a: byte, b: byte, c: byte, d: byte)

  /** The digit character of a value below ten. */
  function Digit(n: nat): (c: char)
    requires n < 10
    ensures '0' <= c <= '9'
  {
    "0123456789"[n]
  }

  /** `%d` of a non-negative value: its decimal digits, no leading zero. */
  function Decimal(n: nat): (s: string)
    ensures s != [] && ':' !in s && '*' !in s && '.' !in s && '\0' !in s
    ensures '=' !in s && ',' !in s
  {
    if n < 10 then [Digit(n)] else Decimal(n / 10) + [Digit(n % 10)]
  }

  /** `inet_ntoa`: the dotted-quad text of an address. */
  function Ntoa(ip: Ipv4): (s: string)
    ensures s != [] && ':' !in s && '*' !in s && '\0' !in s
    ensures '=' !in s && ',' !in s
  {
    Decimal(ip.a as nat) + "." + Decimal(ip.b as nat) + "." + Decimal(ip.c as nat) + "." + Decimal(ip.d as nat)
  }

  /** `ssprintf` applied to the text `text` the format produces: the buffer
      is one longer than the text, but `vsnprintf` is told its size is the
      text's length, so it keeps one character less and the terminator
      written after it ends the string there. */
  function Ssprintf(text: string): (r: string)
    ensures |text| > 0 ==> |r| == |text| - 1 && r + [text[|text| - 1]] == text
    ensures |text| == 0 ==> r == []
  {
    if text == [] then [] else text[..|text| - 1]
  }

  /** The key `ssprintf("%s:%s", host, port)` builds: the text `host:port`
      short of its last character. */
  function KeyText(host: string, port: string): (k: string)
    ensures |k| == |host| + |port| && k <= host + ":" + port
  {
    Ssprintf(host + ":" + port)
  }

  /** The key built from a host and a non-empty port text loses the last
      character of the port; an empty port text loses the colon. */
  lemma KeyDropsLast(host: string, port: string)
    ensures port != [] ==> KeyText(host, port) == host + ":" + port[..|port| - 1]
    ensures port == [] ==> KeyText(host, port) == host
  {
    var t := host + ":" + port;
    if port != [] {
      assert t[..|t| - 1] == host + ":" + port[..|port| - 1];
    } else {
      assert t[..|t| - 1] == host;
    }
  }

  /** The key for a numeric port keeps every digit but the last. */
  lemma KeyOfPort(host: string, port: nat)
    ensures port < 10 ==> KeyText(host, Decimal(port)) == host + ":"
    ensures port >= 10 ==> KeyText(host, Decimal(port)) == host + ":" + Decimal(port / 10)
  {
    KeyDropsLast(host, Decimal(port));
    var s := Decimal(port);
    if port >= 10 {
      assert s[..|s| - 1] == Decimal(port / 10);
    }
  }

  /** The four keys, in the order `_find_sockmap` prefers them: this host
      and port, any host with this port, this host with any port, any host
      and port. */
  function Candidates(ip: Ipv4, port: port16): (ks: seq<string>)
    ensures |ks| == 4
  {
    [ KeyText(Ntoa(ip), Decimal(port as nat)),
      KeyText("*", Decimal(port as nat)),
      KeyText(Ntoa(ip), "*"),
      KeyText("*", "*") ]
  }

  /** Reference lookup: the value of the first key of `ks` the table holds. */
  function FirstHit(m: map<string, string>, ks: seq<string>): Option<string>
  {
    if ks == [] then None
    else if ks[0] in m then Some(m[ks[0]])
    else FirstHit(m, ks[1..])
  }

  /** The reference lookup finds nothing exactly when no key is present,
      and otherwise the value of a present key with none present before it. */
  lemma {:induction false} FirstHitSpec(m: map<string, string>, ks: seq<string>)
    ensures FirstHit(m, ks).None? <==> forall i :: 0 <= i < |ks| ==> ks[i] !in m
    ensures FirstHit(m, ks).Some? ==>
      exists i :: 0 <= i < |ks| && ks[i] in m && FirstHit(m, ks).value == m[ks[i]]
        && forall j :: 0 <= j < i ==> ks[j] !in m
  {
    if ks != [] && ks[0] !in m {
      FirstHitSpec(m, ks[1..]);
      if FirstHit(m, ks[1..]).Some? {
        var i :| 0 <= i < |ks| - 1 && ks[1..][i] in m && FirstHit(m, ks[1..]).value == m[ks[1..][i]]
          && forall j :: 0 <= j < i ==> ks[1..][j] !in m;
        assert ks[i + 1] == ks[1..][i];
        assert forall j :: 1 <= j < i + 1 ==> ks[j] == ks[1..][j - 1];
      }
      assert forall i :: 1 <= i < |ks| ==> ks[i] == ks[1..][i - 1];
    }
  }

  /** `_find_sockmap`: try the four keys in order, return the first value found. */
  function FindSockmap(m: map<string, string>, ip: Ipv4, port: port16): (r: Option<string>)
    ensures r.Some? ==> r.value in m.Values
  {
    var host := Ntoa(ip);
    var exact := KeyText(host, Decimal(port as nat));
    var anyHost := KeyText("*", Decimal(port as nat));
    var anyPort := KeyText(host, "*");
    var any := KeyText("*", "*");
    if exact in m then Some(m[exact])
    else if anyHost in m then Some(m[anyHost])
    else if anyPort in m then Some(m[anyPort])
    else if any in m then Some(m[any])
    else None
  }

  /** The lookup is the reference lookup over the four keys in order of
      preference: it finds nothing exactly when none of them is in the
      table, and otherwise the value of the most preferred one present. */
  lemma FindSockmapSpec(m: map<string, string>, ip: Ipv4, port: port16)
    ensures FindSockmap(m, ip, port) == FirstHit(m, Candidates(ip, port))
    ensures FindSockmap(m, ip, port).None? <==> forall i :: 0 <= i < 4 ==> Candidates(ip, port)[i] !in m
    ensures FindSockmap(m, ip, port).Some? ==>
      exists i :: 0 <= i < 4 && Candidates(ip, port)[i] in m
        && FindSockmap(m, ip, port).value == m[Candidates(ip, port)[i]]
        && forall j :: 0 <= j < i ==> Candidates(ip, port)[j] !in m
  {
    var ks := Candidates(ip, port);
    assert ks[1..] == ks[1..4] && ks[1..][1..] == ks[2..4] && ks[2..4][1..] == ks[3..4];
    assert ks[3..4][0] == ks[3] && ks[3..4][1..] == [];
    assert FirstHit(m, ks[3..4]) == if ks[3] in m then Some(m[ks[3]]) else None;
    assert FirstHit(m, ks[2..4]) == if ks[2] in m then Some(m[ks[2]]) else FirstHit(m, ks[3..4]);
    assert FirstHit(m, ks[1..4]) == if ks[1] in m then Some(m[ks[1]]) else FirstHit(m, ks[2..4]);
    FirstHitSpec(m, ks);
  }

  /** A table holding only the catch-all rule answers every address and port. */
  lemma CatchAll(t: string, ip: Ipv4, port: port16)
    ensures FindSockmap(map[KeyText("*", "*") := t], ip, port) == Some(t)
  {
  }

  /** As built, the key of a port carries all its digits but the last, so
      two ports of ten or more that differ only in the last digit (80
      and 81, say) are looked up under the same keys. */
  lemma PortsAlias(m: map<string, string>, ip: Ipv4, p: port16, q: port16)
    requires p >= 10 && q >= 10 && p / 10 == q / 10
    ensures Candidates(ip, p) == Candidates(ip, q)
    ensures FindSockmap(m, ip, p) == FindSockmap(m, ip, q)
  {
    KeyOfPort(Ntoa(ip), p as nat);
    KeyOfPort(Ntoa(ip), q as nat);
    KeyOfPort("*", p as nat);
    KeyOfPort("*", q as nat);
  }

  /** As built, the keys of a single-digit port are those of the wildcard
      port: the exact key is the host's any-port key and the any-host key
      is the catch-all key. */
  lemma SingleDigitPort(ip: Ipv4, p: port16)
    requires p < 10
    ensures Candidates(ip, p)[0] == Candidates(ip, p)[2]
    ensures Candidates(ip, p)[1] == Candidates(ip, p)[3]
  {
    KeyOfPort(Ntoa(ip), p as nat);
    KeyOfPort("*", p as nat);
    KeyDropsLast(Ntoa(ip), "*");
    KeyDropsLast("*", "*");
  }
}
