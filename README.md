# ttu interception engine, modelled in Dafny

`libttu` is a preloaded library that turns TCP sockets into Unix sockets
without the program noticing. It reads two rule strings from the
environment, one for `bind` and one for `connect`. Each is a
comma-separated list of `host:port=target` entries. When the program
binds or connects a socket to an address that has a rule, the library
does three things:

- it swaps the socket for a Unix socket on the same descriptor number;
- it binds or connects that socket to the path the rule names;
- for `bind`, it removes a stale socket file first and can apply a mode
  given as `mode:path`.

This project models the library's engine (`src/ttu.c`) and proves what
it does:

- **`_chrnstr` and `strtok`** (`cstring.dfy`, `tokens.dfy`, `strtok.dfy`).
  A rule string is a C character buffer, and a pointer is an index into
  it. `strtok` is a class with the buffer array and the one saved cursor
  that every call passing NULL continues from. Its `Next` method writes
  NULs into the buffer, as the C library does. A reference function
  `Split` gives the tokens of a C string.
- **`_etohm`** (`rules.dfy`). The `do … while` loop over the shared
  cursor runs as a method on the table class `RuleTable`. It is proved
  to insert exactly the mapping the reference reading `ParseRules`
  gives.
- **Key building and lookup** (`keys.dfy`). `ssprintf` gives too small a
  size to `vsnprintf`, so every key it builds loses its last character.
  `_find_sockmap` tries the keys exact, `*:port`, `host:*` and `*:*`, in
  that order, and returns the first hit. This is proved equal to a
  reference first-hit search over the four keys.
- **Reading the target of a `bind` rule** (`target.dfy`). The `strchr`
  loop with its octal mode accumulator is proved to compute the
  reference reading `ParseTarget`.
- **The socket calls** (`kernel.dfy`, `intercept.dfy`):
  - `getblocking`, `setblocking`, `_ttusock`, `bind_unix` (with its
    liveness probe and its reclaiming of stale socket files), `bind` and
    `connect`.
  - They run as methods on a `Kernel` object. It holds the open
    descriptors, the socket files present, `errno`, and a log of every
    call made into the system.
  - Each method is proved to leave the state, the result and the log
    that a specification function of the starting state gives. The
    properties of each call are then proved about those functions.

Behaviour of the code as written that the model reproduces and proves:

- **Keys lose their last character.** The key of `10.0.0.1:8080` is
  `10.0.0.1:808`, and `*:*` becomes `*:`. Rules and lookups build keys
  the same way, so a rule for an address and port is still found for
  them (`RuleMatches`). But two ports of ten or more that differ only in
  their last digit share every key (`PortsAlias`). The keys of a
  single-digit port are the wildcard keys (`SingleDigitPort`). On the
  rule side this means a rule `h:8=f` answers every port of `h`
  (`DigitRuleAnyPort`), and `*:8=f` answers every address and port
  (`DigitRuleAnyHost`).
- **Only one table entry is read.** After an entry with exactly one `=`
  has been read, the cursor shared by all the `strtok` calls rests on a
  terminator, so the loop's next `strtok(NULL, ",")` ends the loop.
  Only entries without exactly one `=` are passed over to reach the
  next one (`RulesPassOver`, `RulesFirstDecides`, `FirstRuleWins`).
- **A leading ':' is skipped.** `strtok` skips a ':' at the start of an
  address, so `:80=f` files its port text in the host place and gets
  the port `*` (`EntryNoHost`).
- **The "restore" inverts the blocking mode.** `getblocking` reports 1
  for a blocking socket, but `setblocking(fd, 1)` sets `O_NONBLOCK`. So
  after a successful converted `bind`, the socket's mode is the opposite
  of what it was (`RestoreInverts`).
- **The liveness probe connects in blocking mode.** `bind_unix` calls
  `setblocking(s, 0)` on its probe socket, which clears `O_NONBLOCK`. The
  new socket is blocking already, so the probe's `connect` blocks
  (`ProbeBlocking`, `ProbeVerdict`).
- **`_ttusock` leaks a descriptor.** It keeps the descriptor number and
  the socket type, but the descriptor `socket` returned stays open
  (`ConvertKeepsFd`).
- **`connect` uses the rule text as it is.** It does not read a mode
  out of it: a rule `0660:/tmp/app.sock` connects to the path
  `0660:/tmp/app.sock` (`ConnectKeepsModeText`).
- **A redirected `connect` is blocking.** The conversion puts a new,
  blocking socket on the descriptor, and `connect` neither saves nor
  restores the caller's mode. So a non-blocking caller's redirected
  `connect` blocks (`ConnectBlocks`).

The kernel's own answers are inputs of the model (`Replies`): whether
`socket`, `bind`, the probe's `connect` and `chmod` succeed, and with
which errno. So is whether the library is built for Linux.

## Model

| member | source | states |
|---|---|---|
| CString.StrLen | src/ttu.c:89 | the length found is that of the C string at the pointer |
| CString.ChrNStr | src/ttu.c:85-95 | -1 for NULL; otherwise the number of occurrences of the character in the C string |
| CString.StrDup | src/ttu.c:356-357 | the copy is the C string at the pointer, as the table stores a key or a value |
| CString.CStrOfCopy | src/ttu.c:320 | the copied rule string with its terminator holds the rule string as its C string |
| Strtok.Step | src/ttu.c:322 | one `strtok` call keeps the buffer length and terminator, and the token starts at or after the scan's start and before the new cursor |
| Strtok.Tokenizer.constructor | src/ttu.c:320 | the buffer is the rule string followed by a NUL |
| Strtok.Tokenizer.Next | src/ttu.c:322 | the buffer, cursor and token after the call are those of one `Step` from the given pointer, or from the saved cursor for NULL |
| Strtok.Tokenizer.StrSpn | src/ttu.c:322 | stops at the first non-delimiter at or after the start |
| Strtok.Tokenizer.StrCSpn | src/ttu.c:322 | stops at the first delimiter or terminator at or after the start |
| Strtok.StepTokens | src/ttu.c:322 | a call returns the first of the tokens still to come, NULL exactly when none is left, and the tokens from the new cursor are the rest |
| Strtok.TwiceTokens | src/ttu.c:334-335 | two calls, the second passing NULL, return the first two tokens of the C string, or NULL where it has fewer |
| Strtok.TwiceDrains | src/ttu.c:334-335 | with at most one delimiter in the C string, two calls leave the cursor on a terminator |
| Keys.Decimal | src/ttu.c:131-132 | `%d` of a port is non-empty and holds no ':', '*', '.', '=', ',' or NUL |
| Keys.Ntoa | src/ttu.c:128 | the dotted quad is non-empty and holds no ':', '*', '=', ',' or NUL |
| Keys.Ssprintf | src/ttu.c:98-113 | the built string is the formatted text without its last character, or empty for empty text |
| Keys.KeyText | src/ttu.c:356 | the key `ssprintf("%s:%s", host, port)` builds, for the rules and the lookups alike, is the text `host:port` short of its last character |
| Keys.KeyDropsLast | src/ttu.c:131-134 | the key of `host` and `port` is `host:` plus the port text without its last character; an empty port text gives only `host` |
| Keys.KeyOfPort | src/ttu.c:131-132 | the key of a numeric port is `host:` followed by the port divided by ten, or just `host:` below ten |
| Keys.Candidates | src/ttu.c:130-134 | there are four keys to try |
| Keys.FirstHitSpec | src/ttu.c:136-145 | the reference search finds nothing exactly when no key is present; otherwise it gives the value of a present key with none present before it |
| Keys.FindSockmap | src/ttu.c:127-152 | a value found is one the table holds |
| Keys.FindSockmapSpec | src/ttu.c:127-152 | the lookup is the reference search over the keys in order of preference; it misses exactly when all four miss, and otherwise gives the value of the most preferred key present |
| Keys.CatchAll | src/ttu.c:134 | a table with only the `*:*` rule answers every address and port |
| Keys.PortsAlias | src/ttu.c:131-132 | two ports of ten or more with the same tens give the same keys and the same lookup result |
| Keys.SingleDigitPort | src/ttu.c:131-134 | for a port below ten, the exact key equals the host's any-port key and the any-host key equals the catch-all key |
| Rules.ParseEntry | src/ttu.c:334-340 | on an entry with one '=', the verdict is the reference verdict `Entry` of the entry, and the cursor is left on a terminator |
| Rules.SplitEntry | src/ttu.c:334-335 | the two '=' calls return the first and second '=' pieces of the entry, or NULL where it has fewer; the socket file lies past the address |
| Rules.ParseAddr | src/ttu.c:342-357 | on an address with one ':': no socket file stops the loop; otherwise it adds the key of the first two ':' pieces, `*` for a missing one, mapped to the socket file |
| Rules.AddrAdded | src/ttu.c:348-357 | with a socket file, the verdict adds the key of host and port mapped to that file |
| Rules.EqualsScan | src/ttu.c:334-335 | the two '=' calls deliver the '=' pieces of the entry and leave the cursor on a terminator |
| Rules.ColonScan | src/ttu.c:342-343 | the two ':' calls deliver the ':' pieces of the address, do not touch the socket file, and leave the cursor on a terminator |
| Rules.RuleTable.constructor | src/ttu.c:375-376 | a new table is empty |
| Rules.RuleTable.LastIteration | src/ttu.c:329-361 | an entry with one '=' inserts its mapping, if it has one, and nothing else |
| Rules.RuleTable.ReadEntries | src/ttu.c:328-361 | the loop inserts exactly the mapping the reference reading gives for the entries still to come |
| Rules.RuleTable.Etohm | src/ttu.c:316-364 | the table afterwards is the old table with the mapping of `ParseRules` inserted; no rule string inserts nothing |
| Rules.FirstScan | src/ttu.c:322-326 | the first ',' call finds no entry exactly when the reference reading gives nothing to insert, or starts the loop on the first entry |
| Rules.PassOver | src/ttu.c:329-332 | an entry without exactly one '=' inserts nothing, and the next ',' call moves on to the next entry |
| Rules.LastEntry | src/ttu.c:334-361 | an entry with exactly one '=' decides the mapping on its own |
| Rules.StepAtNul | src/ttu.c:361 | a ',' call from a terminator returns NULL |
| Rules.CountOne | src/ttu.c:329 | one occurrence between two parts without it is counted once |
| Rules.SplitAtEquals | src/ttu.c:334-335 | `a=f` has one '=' and splits into `a` and `f`, or only `a` when `f` is empty |
| Rules.EntryAdd | src/ttu.c:342-357 | `host:port=file` adds the key of `host` and `port` mapped to the whole file text |
| Rules.EntryAnyPort | src/ttu.c:351-352 | `host:=file` uses the port `*` |
| Rules.EntryNoHost | src/ttu.c:342-352 | `:port=file` uses the port text as the host and `*` as the port |
| Rules.EntryNoHostNoPort | src/ttu.c:342-352 | `:=file` uses `*` for both host and port |
| Rules.EntryNoFile | src/ttu.c:345-346 | a good address with nothing after the '=' stops the loop |
| Rules.EntryBadAddress | src/ttu.c:337-340 | an address without exactly one ':' inserts nothing |
| Rules.RulesPassOver | src/ttu.c:329-332 | an entry without exactly one '=' is skipped: the rest of the string decides |
| Rules.RulesFirstDecides | src/ttu.c:334-361 | an entry with one '=' decides on its own; nothing after it is read |
| Rules.FirstRuleWins | src/ttu.c:316-364 | a well-formed first entry gives the whole result, whatever follows it |
| Rules.RuleMatches | src/ttu.c:127-152 | a rule string `ip:port=f,` read into an empty table makes the lookup of `ip` and `port` find `f` |
| Rules.DigitRuleAnyPort | src/ttu.c:131-134 | a rule for a single-digit port of an address answers every port of that address |
| Rules.DigitRuleAnyHost | src/ttu.c:131-134 | a rule `*:d=f` for a single-digit port answers every address and port |
| Target.Octal | src/ttu.c:239 | the value of octal digits is never negative |
| Target.StrChr | src/ttu.c:233 | NULL exactly when no ':' follows; otherwise the position of the first ':' at or after the start |
| Target.ReadMode | src/ttu.c:235-245 | succeeds exactly when the first part is all octal digits, and then gives their base-8 value |
| Target.ScanTarget | src/ttu.c:221-251 | the scan computes the reference reading `ParseTarget` of the rule's target text |
| Target.FirstPiece | src/ttu.c:232-234 | the first ':' splits off the first piece, and the pieces after it begin after that ':' |
| Target.MorePieces | src/ttu.c:246-250 | a further ':' gives at least two more pieces |
| Target.LastPiece | src/ttu.c:232-233 | with no further ':', the rest of the text is the last piece |
| Target.PlainPath | src/ttu.c:221-251 | a target without ':' is the path, with no mode |
| Target.ModeAndPath | src/ttu.c:232-245 | `mode:path` with octal digits gives that mode in base 8, and empty digits give mode 0 |
| Target.BadMode | src/ttu.c:238-244 | a mode part that is not all octal digits is rejected |
| Target.TwoColons | src/ttu.c:246-250 | a second ':' is rejected |
| Target.ModeExample | src/ttu.c:237-239 | `0660:/tmp/app.sock` gives mode 432 and path `/tmp/app.sock` |
| Kernel.FlagWord | src/ttu.c:156-159 | the flags word of an open socket has the non-blocking bit exactly when the socket is non-blocking |
| Kernel.RealBindSpec | src/ttu.c:193 | the system `bind` logs one call; it succeeds exactly when the kernel allows it, a Unix bind then creates the socket file, and a failure gives -1 with the kernel's errno |
| Kernel.RealConnectSpec | src/ttu.c:296 | the system `connect` logs one call and succeeds exactly when the kernel allows it; a failure gives -1 with the kernel's errno |
| Kernel.Kernel.FcntlGetFl | src/ttu.c:156 | the flags word of an open descriptor; -1 and EBADF otherwise |
| Kernel.Kernel.FcntlSetFl | src/ttu.c:173 | sets the descriptor's non-blocking mode from the word's bit; -1 and EBADF on a closed descriptor |
| Kernel.Kernel.GetSockOptType | src/ttu.c:121 | 0 and the socket type of an open descriptor; -1 and EBADF otherwise |
| Kernel.Kernel.Socket | src/ttu.c:122 | a new blocking socket on a fresh descriptor, or -1 with the kernel's errno |
| Kernel.Kernel.Dup2 | src/ttu.c:124 | the target descriptor names the source's socket, and nothing else changes; -1 and EBADF when the source is not open |
| Kernel.Kernel.Close | src/ttu.c:202 | the descriptor is no longer open; -1 and EBADF if it was not |
| Kernel.Kernel.Unlink | src/ttu.c:207 | the socket file is gone; -1 and ENOENT if it was not there |
| Kernel.Kernel.Chmod | src/ttu.c:262 | logs the call; 0, or -1 with the kernel's errno |
| Kernel.Kernel.RealBind | src/ttu.c:193 | state, result and log are those of `RealBindSpec` |
| Kernel.Kernel.RealConnect | src/ttu.c:296 | state, result and log are those of `RealConnectSpec` |
| Intercept.GetBlocking | src/ttu.c:154-162 | 0 exactly when the descriptor is open and non-blocking, otherwise 1; an unreadable descriptor sets EBADF |
| Intercept.AfterGetFl | src/ttu.c:156 | reading the flags changes only errno, to EBADF for a closed descriptor |
| Intercept.BlockingOf | src/ttu.c:154-162 | the report is 0 or 1, and 0 exactly for an open non-blocking descriptor |
| Intercept.WithNonBlock | src/ttu.c:169-172 | the word written back has the non-blocking bit exactly when `v` is non-zero, and every other bit of the word read |
| Intercept.FlipBit | src/ttu.c:170 | or-ing in the non-blocking bit sets it and keeps every other bit |
| Intercept.SetBlockingSpec | src/ttu.c:164-174 | 0 exactly for an open descriptor, whose mode becomes non-blocking exactly when `v` is non-zero, with every other descriptor unchanged; 1 and EBADF otherwise |
| Intercept.SetBlocking | src/ttu.c:164-174 | state, result and log are those of `SetBlockingSpec` |
| Intercept.ConvertSpec | src/ttu.c:115-125 | the calls are `getsockopt`, `socket` of a Unix socket of the same type, then `dup2` onto the descriptor; the socket files are unchanged |
| Intercept.ConvertKeepsFd | src/ttu.c:115-125 | the result is the descriptor, turned into a blocking Unix socket of its old type, or -1 with EBADF; the new descriptor stays open as a second name of that socket; no other descriptor changes |
| Intercept.TtuSock | src/ttu.c:115-125 | state, result and log are those of `ConvertSpec` |
| Intercept.Live | src/ttu.c:199-201 | the probe finds a server when the probe socket cannot be opened, or its `connect` succeeds or fails with EALREADY or EINPROGRESS; `ProbeVerdict` proves this is the source's condition |
| Intercept.ProbeCalls | src/ttu.c:198-200 | the probe's calls neither bind nor unlink |
| Intercept.ProbeBlocking | src/ttu.c:198-200 | the probe opens a socket and reads its flags; when it is open, the word written back is the blocking `O_RDWR`, and then the socket is connected to the file |
| Intercept.ProbeVerdict | src/ttu.c:198-201 | `setblocking(s, 0)` fails exactly when the probe socket could not be opened, and otherwise leaves it blocking; `Live` holds exactly when the source's condition on those calls' results does |
| Intercept.ReclaimSpec | src/ttu.c:198-208 | the reclaim leaves every descriptor as it was |
| Intercept.Reclaim | src/ttu.c:198-208 | state, result and log are those of `ReclaimSpec` |
| Intercept.ReclaimLive | src/ttu.c:199-205 | a live socket file: the probe socket is closed, and the result is -1 with EADDRINUSE, with no file removed |
| Intercept.ReclaimStale | src/ttu.c:206-208 | a stale socket file: the probe socket is closed, the file unlinked and bound again, and that bind decides the result |
| Intercept.BindUnixSpec | src/ttu.c:176-209 | the state stays consistent: every open descriptor is below the next one |
| Intercept.BindUnix | src/ttu.c:176-209 | state, result and log are those of `BindUnixSpec` |
| Intercept.PathTooLong | src/ttu.c:182-186 | a path that does not fit `sun_path` with its terminator gives -1 and EADDRNOTAVAIL with no call made, so the socket is not converted |
| Intercept.FirstBindDecides | src/ttu.c:191-197 | when the first bind succeeds, or fails with another errno than EADDRINUSE, the calls are the conversion and that bind, and its result and errno are returned |
| Intercept.InUseReclaims | src/ttu.c:196-198 | a first bind failing with EADDRINUSE hands over to the reclaim |
| Intercept.LiveFileKept | src/ttu.c:198-205 | a live socket file gives -1 and EADDRINUSE: no unlink, no second bind, the file kept, and closing the probe socket is the last call |
| Intercept.LiveLog | src/ttu.c:191-205 | the log of that call is the conversion, the first bind, the probe and closing the probe socket |
| Intercept.LiveCounts | src/ttu.c:198-205 | that log holds no unlink and one bind |
| Intercept.StaleFileReclaimed | src/ttu.c:206-208 | a stale socket file: the second bind's result is the call's, with the file present on success and absent, with the bind's errno, on failure |
| Intercept.StaleLog | src/ttu.c:191-208 | the log of that call is the conversion, the first bind, the probe, then close, unlink and bind |
| Intercept.StaleCounts | src/ttu.c:198-208 | that log holds one unlink and two binds |
| Intercept.StaleFileCalls | src/ttu.c:206-208 | the file is unlinked exactly once and bound exactly twice, and close, unlink and bind are the last three calls |
| Intercept.LogTail | src/ttu.c:202-208 | a call absent from the middle part of a log is counted in the outer parts, and the log ends with its last part |
| Intercept.BindBypassed | src/ttu.c:212-219 | `bind` passes the call through when the address is not IPv4 of full length, or the table has no rule for it; `BindBypass` states what follows |
| Intercept.BindSpec | src/ttu.c:211-275 | the state stays consistent |
| Intercept.BindTargetSpec | src/ttu.c:253-275 | the state stays consistent |
| Intercept.BindBlockingSpec | src/ttu.c:255-275 | the state stays consistent |
| Intercept.FinishSpec | src/ttu.c:258-274 | the state stays consistent |
| Intercept.Bind | src/ttu.c:211-275 | state, result and log are those of `BindSpec` |
| Intercept.BindTarget | src/ttu.c:253-275 | state, result and log are those of `BindTargetSpec` |
| Intercept.BindBlocking | src/ttu.c:255-275 | state, result and log are those of `BindBlockingSpec` |
| Intercept.Finish | src/ttu.c:258-274 | state, result and log are those of `FinishSpec` |
| Intercept.BindBypass | src/ttu.c:211-219 | without an IPv4 address of full length, or without a rule, `bind` is the system's `bind` with exactly the caller's descriptor, address and length |
| Intercept.BindRejected | src/ttu.c:223-250 | a rule whose target is rejected gives -1 and EADDRNOTAVAIL with no call made |
| Intercept.BindFollowsRule | src/ttu.c:221-253 | a rule with a valid target goes on with that target's mode and path |
| Intercept.BindUnixFails | src/ttu.c:255-256 | when `bind_unix` fails, `bind` fails with its errno, and the blocking mode is not restored |
| Intercept.RestoreInverts | src/ttu.c:253-258 | after a successful converted `bind`, the socket's blocking mode is the opposite of what it was |
| Intercept.FdSurvives | src/ttu.c:176-209 | `bind_unix` never closes the descriptor it binds |
| Intercept.ModeApplied | src/ttu.c:260-274 | with no mode the bound socket is a success; with a mode on Linux, `chmod` of the path is the last call and decides success; without Linux, or after a failed `chmod`, the result is -1 and EACCES |
| Intercept.SunPath | src/ttu.c:288 | `sun_path` holds the first 108 characters of the rule's text, or the whole text when it is shorter |
| Intercept.ConnectRule | src/ttu.c:278-282 | only IPv4 and IPv6 addresses are looked up |
| Intercept.ConnectSpec | src/ttu.c:277-297 | the state stays consistent |
| Intercept.Connect | src/ttu.c:277-297 | state, result and log are those of `ConnectSpec` |
| Intercept.ConnectRewrites | src/ttu.c:277-297 | without a rule, the caller's address and length go to the system's `connect` unchanged; with one, the socket is converted, then connected to the Unix address of the rule's text with the `sockaddr_un` length; the result is the kernel's |
| Intercept.ConnectKeepsModeText | src/ttu.c:280-292 | a rule `0660:/tmp/app.sock` connects to the path `0660:/tmp/app.sock` |
| Intercept.ConnectBlocks | src/ttu.c:277-297 | with a rule and a successful conversion, the descriptor is blocking after `connect`, whatever its mode was |

## Left out

- `init` and `fini` (src/ttu.c:366-398) are not modelled: `dlopen`, `dlsym`, the rule strings read with `getenv`, and the abort on failure. A consequence not modelled: the `unlink` they make of every bind-table value is made with the raw text, so a value with a mode prefix names the wrong file.
- The launcher program (option handling, the `PATH` search, `LD_PRELOAD` editing, `execvp`) is not part of this model.
- `_bail`, `_warn` and `_info` only write to stderr, and are left out.
- The `ohm` hash table is a Dafny `map`. Its overwrite order and its iteration are not visible. `ohm_insert` and `ohm_search`, given a key with its terminator, become an update and a lookup.
- `vsnprintf` and `inet_ntoa` appear only through the text they produce. The repeated `va_start` and the `malloc` abort are left out.
- Kernel behaviour is abstracted. The answers to `socket`, `bind`, the probe's `connect` and `chmod` are inputs. Timing, blocking and races with other processes are not modelled.
- Kernel.Kernel.Socket: descriptors are handed out from a counter, not the lowest free number.
- Kernel.Kernel.Dup2: copies the socket's description by value, so later changes to one descriptor do not show on the other.
- Kernel.Kernel.FcntlSetFl: keeps only the `O_NONBLOCK` bit of the flags written. No other status flag is modelled.
- Kernel.Kernel.RealBind: a successful bind of a Unix address records its socket file, and an IPv4 bind records none. Whether the bind fails, and with which errno, is the kernel's answer. It is not derived from the socket files present.
- The probe's `connect` in `bind_unix` (src/ttu.c:200) names the library's own `connect`. For a Unix address that simply calls the system's `connect`, so the model logs a system `connect`.
- Byte layouts are not modelled:
  - an address is its family, IPv4 bytes and host-order port;
  - `connect` reads an IPv6 address through the IPv4 layout (src/ttu.c:279);
  - the 108-byte `memcpy` (src/ttu.c:288) may read past a shorter string. It is modelled as the rule text cut to 108 characters. A path of exactly 108 characters therefore has no terminator in `sun_path`.
- Target.ReadMode: the mode is an unbounded integer. In C, `mode * 8` can overflow `int` for a mode of more than ten digits, which is undefined behaviour.
- Intercept.Bind: requires the table's values to hold no NUL. The values are C strings, so this comes from how they are stored.
- Malformed rule entries: the warning "ignoring phony argument" and the `continue` at src/ttu.c:337-340 read as if a malformed entry is skipped and the rest of the string still read. The code skips only entries without exactly one '='. An entry with one '=' and a bad address ends the reading, like any other entry with one '='. The model follows the code.
