# WSL Linux init: bind tracking, DNS tunnelling and path translation

A Dafny model of the parts of WSL's Linux-side `init` that hold state, run concurrently or rewrite buffers in
place, with proofs of what they guarantee. `dafny verify dfyconfig.toml` covers the whole project.

**Bind tracking** (`PortTable`, `SeccompFilter`, `BindProtocol`, `BindInvariants`, `BindTheorems`, `BindTurns`,
`BindHistory`). A seccomp filter stops every `bind`; a dispatcher hands it to the port tracker, which asks the
Windows host for the port; a third thread lists bound sockets so that ports can be given back. The three threads
share two one-slot mailboxes and a pair of promises. `BindProtocol` is their step relation: every blocking wait
is the guard of a step, the clock may show anything, the host may answer anything, and no step guards against
misuse of a promise or against a port that is already reserved. `BindInvariants` has the inductive invariant,
`BindTheorems` what follows for every run, including that every posted bind is answered within a bounded number
of tracker steps; `BindTurns` says what one turn of the tracker loop does and `BindHistory` traces a release
back to the listing behind it. The filter is run by an interpreter for classic BPF. The table itself and its
erase-while-iterating loop are the class `PortTable.Tracker`; its refresh and the refresh phase of the step
relation are proved equal to one and the same map comprehension.

**DNS tunnel** (`DnsReassembly`, `DnsRouting`). Length-prefixed requests (section 4.2.2 of RFC 1035, section 8
of RFC 7766) are cut out of a TCP stream that `recv` splits as it likes; replies that come back in any order
(section 7 of RFC 7766) are routed by a 32-bit id that wraps.

**Paths** (`CString`, `CollapsePath`, `CollapseMeaning`, `EscapeBits`, `PathEscape`, `PathLegal`,
`PathRoundTrip`, `WslShare`, `MountLookup`, `MountSources`, `WinPathTranslate`). In-place algorithms on
NUL-terminated buffers. Each method is proved against a function on byte strings, and the functions are related
to each other and to simple references: a forward stack, the identity, "the last longest match".

**Mount text** (`DrvfsOptions`, `DrvfsNames`, `MountInfo`, `MountInfoLine`). Parsers, and printers they invert.

**Reconcilers, samplers, lists** (`RelayScan`, `ReclaimWindow`, `ListEntry`).

## Where the code does less than its comments or its callers expect

For each of these a lemma gives a concrete input, and another says exactly when the code does meet the
expectation.

- The comment at src/linux/init/GnsPortTracker.cpp:265 says that a zero reply renews the port's timeout.
  `emplace` does not overwrite, so it does only when the port was not tracked (or its deadline already was
  that far away): `ZeroReplyShieldsIff`. `ZeroReplyThenRelease` is a whole run in which a port gets a zero
  reply and is released in the next turn of the loop.
- The refresher lists the bound sockets by four dumps and reads the time of the listing afterwards, so a port
  can be released on a listing made before the port was even asked for: `ListedBeforeInserted` is such a run.
  `ListedBeforeInsertedIff` says that a dump misses a port in this way exactly when the port is inserted after
  that dump and before the time is read.
- The TCP offset has 16 bits and the buffer up to 65537 bytes. Requests come through whole exactly while all
  frames that have arrived declare 1..65533 bytes: `ReassemblyMeetsStandardIff`. `ZeroLengthIsLost` and
  `OversizedIsLost` are streams on which a request that has arrived is not tunnelled, for the lengths 0, 65534
  and 65535; `ZeroLengthStops` and `OversizedNeverCompletes` say that nothing after it is either.
- `CollapsePath` spends a pending `..` on a `.` or an empty segment: `/a/./..` becomes `/a/`
  (`FillerUnderParentIsMisspent`). `CollapseMeetsStackIff` says when it agrees with a forward stack.
- A path that already holds three bytes that look escaped, such as U+FF01, does not survive the way to
  \\wsl.localhost and back: `FullWidthExclamationIsLost`, `RoundTripIff`.
- A name on a mount is escaped on the way to Windows and never unescaped on the way back: `/a:b` behind the
  mount point comes back with three bytes for the colon (`ColonIsNotRestored`). `MountRoundTripIff` says
  exactly when a path on a mount comes back.
- A mount without a source is not recovered from its mountinfo line: it is dropped, or taken with the first
  word of the super block options for its source (`EmptySourceExamples`, `EmptySourceReads`). A line is
  recovered exactly when there is a source: `ParseOfPrintIff`.
- A DrvFs option that holds a semicolon is read back as several, `uid=1;x` as `uid=1` and `x`
  (`SemicolonSplitsOption`); all others land as they are: `Plan9OptionsLandIff`.
- A drive or UNC source with a comma or a semicolon is cut short, `C:\a,b` to `C:\a` (`CommaCutsSource`); all
  others come back: `SourceRoundTripIff`.

## Model

| member | source | states |
|---|---|---|
| PortTable.LessIsStrictTotalOrder | src/linux/init/GnsPortTracker.h:52-92 | The key comparison is irreflexive and transitive, and two keys are incomparable exactly when all four fields are equal, so the table never merges two allocations. |
| PortTable.LessIsLexicographic | src/linux/init/GnsPortTracker.h:52-92 | One key is less than another exactly when it has the smaller word where they first differ: port, family, protocol, then the address byte by byte. |
| PortTable.RefreshedIff | src/linux/init/GnsPortTracker.cpp:203-241 | A port stays exactly when the snapshot shows it, which clears its deadline, or its deadline is there and not past, which keeps it. |
| PortTable.KeptIsRefreshed | src/linux/init/GnsPortTracker.cpp:203-241 | What the erase-while-iterating loop leaves of a sorted table is, as a map, the comprehension over the snapshot. |
| PortTable.Tracker.OnRefreshAllocatedPorts | src/linux/init/GnsPortTracker.cpp:203-241 | The loop turns the table into that comprehension, keeps it sorted, and sends the host one release for each dropped entry, in table order, and nothing else. |
| PortTable.Tracker.HandleRequest | src/linux/init/GnsPortTracker.cpp:92-108 | A tracked port is answered 0 without asking the host and without touching its entry; any other port is asked for once, and enters the table with a deadline of now plus 60 exactly when the host answers 0. |
| PortTable.Tracker.Emplace | src/linux/init/GnsPortTracker.cpp:101 | Inserting keeps the table sorted, adds a missing key and leaves a present one as it was. |
| PortTable.Tracker.Contains | src/linux/init/GnsPortTracker.cpp:267 | The ordered lookup finds a key exactly when the table, as a map, has it. |
| PortTable.HostChannel.Transaction | src/linux/init/GnsPortTracker.cpp:243-259 | Each transaction sends one message and returns the host's answer to that message. |
| SeccompFilter.CheckedFilterReturns | src/linux/init/main.cpp:3575-3630 | Every filter that passes the kernel's static test, started anywhere on any record, ends in one of its own return statements. |
| SeccompFilter.FilterIsChecked | src/linux/init/main.cpp:3575-3630 | Both compiled filters pass that test. |
| SeccompFilter.FilterDecidesIntent | src/linux/init/main.cpp:3575-3630 | For every seccomp record the filter notifies exactly on a native bind, a native ioctl with SIOCSIFFLAGS, a 32-bit socketcall(SYS_BIND) or an ARMv7 bind, and allows everything else. |
| SeccompFilter.X64Filter | src/linux/init/main.cpp:3575-3630 | The x86_64 filter and its handlers in numbers: bind 49, ioctl 16 with 0x8914, 32-bit socketcall 102 with 2. |
| SeccompFilter.Arm64Filter | src/linux/init/main.cpp:3575-3630 | The ARM64 filter and its handlers in numbers: bind 200, ioctl 29 with 0x8914, 32-bit bind 282. |
| SeccompFilter.Is64BitIsTopBit | src/linux/init/main.cpp:3583-3586 | The JSET test on the architecture word is the comparison with 0x80000000. |
| SeccompFilter.NotifiedCallsAreHandled | src/linux/init/localhost.cpp:519-549 | Every notified call finds a handler, a bind handler exactly for binds and the ioctl handler exactly for interface changes, although handlers are keyed on the number alone. |
| SeccompFilter.RegisteredNumbersAreNotified | src/linux/init/localhost.cpp:519-549 | No registered number is dead: for each there is a record that the filter notifies. |
| BindInvariants.InvKept | src/linux/init/GnsPortTracker.cpp:38-144 | Every step of every party keeps the whole invariant: one call in flight, accounts of decisions and answers, tables that match a legal log, and the promise handshake. |
| BindInvariants.RunsKeepInv | src/linux/init/GnsPortTracker.cpp:38-144 | The invariant holds in every state of every run. |
| BindTheorems.PortSafety | src/linux/init/GnsPortTracker.cpp:92-134 | In every state of every run, a release and its erasure taken as one step, every tracked port is reserved on the host, grants and releases of each port alternate, and with a host that honours releases nothing but the tracked ports and the one being inserted is reserved. |
| BindTheorems.DealingsAlternate | src/linux/init/GnsPortTracker.cpp:203-278 | For each port grants and releases strictly alternate, grant first; it is tracked after an odd number of them, and reserved exactly when the last was a grant or a refused release. |
| BindTheorems.TrackedIsReserved | src/linux/init/GnsPortTracker.cpp:203-278 | Tracked ports are reserved, however the host treats releases. |
| BindTheorems.LeakedIffReleaseRefused | src/linux/init/GnsPortTracker.cpp:219-230 | The host holds a port the tracker has let go of exactly when it refused the last release. |
| BindTheorems.HonestHostMirrorsTracker | src/linux/init/GnsPortTracker.cpp:203-278 | With a host that honours releases both sides hold the same ports. |
| BindTheorems.EntryOrigin | src/linux/init/GnsPortTracker.cpp:99-101 | A tracked entry comes from one insertion not undone since; its deadline is that insertion's time plus 60, or none if a snapshot has shown the port since. |
| BindTheorems.ReleaseIsJustified | src/linux/init/GnsPortTracker.cpp:203-241 | In every legal history a port is released only by a snapshot that lacks it, and one never confirmed since its insertion only by a snapshot stamped later than the insertion plus 60 seconds. |
| BindHistory.SnapshotOrigin | src/linux/init/GnsPortTracker.cpp:43-47 | In every run every snapshot published or held is what the four dumps of one listing found, with the time of a later reading of the clock; the refresher is past a dump and before that reading exactly from the one step to the other. |
| BindHistory.ReleaseInRun | src/linux/init/GnsPortTracker.cpp:203-241 | In every run the step that releases a port follows the step that inserted it, with no other insertion or release of it between, and acts on a listing that lacks the port; unless a snapshot has shown the port in between, that listing was stamped more than 60 seconds after the insertion. |
| BindHistory.ConfirmedIsListedLater | src/linux/init/GnsPortTracker.cpp:234-237 | A port that a snapshot has shown is released only on a listing all of whose dumps were made after its insertion. |
| BindHistory.ListedBeforeInsertedIff | src/linux/init/GnsPortTracker.cpp:44 | In every run whose clock does not go back, a dump of the listing a port is released on was made before the port was inserted if and only if, at the insertion, the refresher was past that very dump and had not yet read the time for its listing. |
| BindTheorems.ListedBeforeInserted | src/linux/init/GnsPortTracker.cpp:44 | A run from the initial state that begins with a whole listing and ends by releasing, on that listing, a port asked for and granted afterwards. |
| BindTheorems.DecisionOrigin | src/linux/init/GnsPortTracker.cpp:92-118 | In every run each decision was taken at one step, and its reason holds there: no port named, the port in the table, a grant of that port as the last event, or the host's refusal of a port not in the table at that very step. |
| BindTheorems.EveryCallAnsweredOnce | src/linux/init/SecCompDispatcher.cpp:77-150 | The mailboxes are never both full; every notification but the one in hand has exactly one answer, in order; the answers to binds are the tracker's decisions on those same notifications, each taken at one earlier step for a reason that holds there. |
| BindTheorems.BindProceedsIff | src/linux/init/SecCompDispatcher.cpp:132-144 | In every run the response to a bind carries that call's id; at the step that decided it, the call goes ahead exactly when it named no port, its port was in the table or the host had just granted it; otherwise that step was the host's refusal, with the error told. |
| BindTheorems.ZeroReplyMeansReserved | src/linux/init/GnsPortTracker.cpp:92-118 | When a zero reply is posted for a parsed port, the dispatcher waits for that very call and the port is tracked and reserved. |
| BindTheorems.RefresherNeverStranded | src/linux/init/GnsPortTracker.cpp:38-58 | No promise gets two get_future or two set_value calls; the refresher waits exactly while a result is published or held; at the loop head a held result means that nothing is tracked. |
| BindTheorems.PromiseNeverContended | src/linux/init/GnsPortTracker.cpp:121-142 | The tracker replaces or re-reads the shared promise only while the refresher waits to be resumed. |
| BindTheorems.TrackerNeverBlocks | src/linux/init/waitablevalue.h:24-66 | In every reachable state the tracker has a step, posting a call never waits, and neither does fetching a posted reply. |
| BindTheorems.DistanceShrinks | src/linux/init/GnsPortTracker.cpp:80-143 | While a call waits, every tracker step brings its reply nearer and no step of another party moves it away, also when the read times out just as the call is posted. |
| BindTheorems.BindAnsweredInTime | src/linux/init/GnsPortTracker.cpp:61-143 | In any continuation of a run a posted bind is answered before the tracker has taken 11 steps more than there are tracked ports. |
| BindTheorems.RefreshPhaseIsRefreshed | src/linux/init/GnsPortTracker.cpp:121-134 | From taking a snapshot to the end of the refresh loop, in any order of entries and any interleaving, the table becomes its comprehension over that snapshot. |
| BindTurns.NoRefreshAfterBind | src/linux/init/GnsPortTracker.cpp:121-143 | In every run, from the answer to a bind to the next loop head no port is tracked, confirmed or released, whatever snapshot arrives in that turn. |
| BindTurns.SnapshotUsedIff | src/linux/init/GnsPortTracker.cpp:127-133 | In every run a snapshot that is taken is used on the whole table when the read of that turn timed out, and not at all when the turn answered a bind. |
| BindTurns.RefreshFollowsTimeout | src/linux/init/GnsPortTracker.cpp:127-133 | In every run a port is confirmed or released only after a read that timed out, with no bind answered and no turn begun in between. |
| BindTurns.ResumedOnlyForPorts | src/linux/init/GnsPortTracker.cpp:136-142 | In every run the refresher is resumed only while some port is tracked. |
| BindTurns.AnswerOrigin | src/linux/init/SecCompDispatcher.cpp:103-139 | In every run the answer to a call that is not a bind is what its handler returned when it was received, or zero if the number has no handler. |
| BindTurns.RefresherBlocksIff | src/linux/init/GnsPortTracker.cpp:38-58 | The refresher has a step in every reachable state, except exactly while it is parked and not yet resumed; the listing can fail at any dump. |
| BindTurns.NothingIsAsked | src/linux/init/GnsPortTracker.cpp:203-278 | Whatever the calls, the host's answers to allocations and releases, and the clock: each is possible in every phase where it matters. |
| BindTurns.PostedCallIsRead | src/linux/init/waitablevalue.h:55-66 | A posted call can be read at once, found on entry it is read, and it can just miss a read that times out. |
| BindTheorems.ZeroReplyShieldsIff | src/linux/init/GnsPortTracker.cpp:261-271 | A zero reply protects the port for another 60 seconds if and only if it was not tracked or its deadline was at least that far away. |
| BindTheorems.ZeroReplyThenRelease | src/linux/init/GnsPortTracker.cpp:261-271 | A run from the initial state in which a zero reply is followed by the release of the port on a snapshot of the same second. |
| BindTheorems.NotifiedBindsReachTracker | src/linux/init/SecCompDispatcher.cpp:118-125 | With the registered handlers a notified call goes to the tracker exactly when it is a bind. |
| DnsReassembly.TcpConnectionContext.HandleNewTcpData | src/linux/init/DnsServer.cpp:204-275 | A failed or empty read drops the connection and leaves its context; any other moves the context and yields a request as the one-read function says, with the offset kept in 16 bits. |
| DnsReassembly.ReassemblyIsExact | src/linux/init/DnsServer.cpp:204-275 | For every byte stream and every way recv splits it, the requests tunnelled are the frames of the stream up to the first length that is not carriable, each whole and with its prefix, and the context holds the rest. |
| DnsReassembly.ReassemblyMeetsStandardIff | src/linux/init/DnsServer.cpp:204-275 | They are the frames of RFC 1035 if and only if every frame that has arrived declares 1..65533 bytes. |
| DnsReassembly.FramesAreRfcFramesIff | src/linux/init/DnsServer.h:41-61 | The same, about the cut of the stream alone. |
| DnsReassembly.FramesPartition | src/linux/init/DnsServer.cpp:204-275 | The frames and the rest, joined, are the stream. |
| DnsReassembly.FramesExtend | src/linux/init/DnsServer.cpp:204-275 | More bytes leave the frames already cut and continue the rest. |
| DnsReassembly.NothingLost | src/linux/init/DnsServer.cpp:204-275 | While the request being read is carriable, requests and buffered part joined are all bytes received, and the offset counts them without having wrapped. |
| DnsReassembly.ZeroLengthStops | src/linux/init/DnsServer.cpp:204-275 | After a declared length of zero there is nothing to ask recv for, so the next read looks like a close. |
| DnsReassembly.OversizedNeverCompletes | src/linux/init/DnsServer.h:46-61 | After a declared length of 65534 or 65535 nothing more is ever tunnelled, whatever arrives. |
| DnsReassembly.ZeroLengthIsLost | src/linux/init/DnsServer.cpp:204-275 | The stream 0, 0 holds one request of RFC 1035, and nothing is tunnelled. |
| DnsReassembly.OversizedIsLost | src/linux/init/DnsServer.h:46-61 | For the lengths 65534 and 65535, prefix and request arrive whole in two reads, and nothing is tunnelled. |
| DnsRouting.DnsServer.HandleUdpDnsRequest | src/linux/init/DnsServer.cpp:351-412 | An empty datagram changes nothing; any other issues the current id to its sender and advances the counter, which wraps. |
| DnsRouting.DnsServer.RemoveRequestOnError | src/linux/init/DnsServer.cpp:351-412 | A request that cannot be tunnelled is forgotten, and nothing else. |
| DnsRouting.DnsServer.HandleUdpDnsResponse | src/linux/init/DnsServer.cpp:107-137 | A reply goes to the holder of its id, and goes out exactly when some request still holds it; the id is used up and no other. |
| DnsRouting.DnsServer.HandleNewTcpConnection | src/linux/init/DnsServer.cpp:174-202 | A connection is issued the current id; if it cannot be registered that id is closed again. |
| DnsRouting.DnsServer.RemoveConnection | src/linux/init/DnsServer.cpp:204-275 | A dropped connection closes its id, and nothing else. |
| DnsRouting.DnsServer.HandleTcpDnsResponse | src/linux/init/DnsServer.cpp:139-172 | A reply goes to the connection that holds its id, and goes out exactly when some connection still holds it; the table stays as it is. |
| DnsRouting.HolderOrigin | src/linux/init/DnsServer.h:100-121 | A live id was put there by one issue that found it free, and nothing has ended it since. |
| DnsRouting.HolderStays | src/linux/init/DnsServer.cpp:107-202 | An issue that found its id free holds it until something ends that very id. |
| DnsRouting.LiveIff | src/linux/init/DnsServer.cpp:107-202 | An id is live exactly when some issue that found it free has not been ended since. |
| DnsRouting.TwoOpenRequests | src/linux/init/DnsServer.cpp:107-137 | A legal history: two requests are open, the reply to the first leaves the second open, and both replies go out. |
| DnsRouting.ReplyGoesToHolder | src/linux/init/DnsServer.cpp:107-172 | Over every history each reply goes to the party of one issue that found the id free and was not ended in between, so a UDP request is answered at most once. |
| DnsRouting.ReplyReachesLatestIff | src/linux/init/DnsServer.cpp:107-202 | A reply reaches whoever was issued its id last exactly when that issue found the id free or held by that same party. |
| DnsRouting.CounterCountsIssues | src/linux/init/DnsServer.h:100-121 | The counter is the number of ids issued modulo 2^32. |
| DnsRouting.WrapIsHarmless | src/linux/init/DnsServer.h:100-121 | The id about to be issued is live only if its holder is a positive multiple of 2^32 issues old. |
| CollapsePath.CollapsePath | src/linux/init/wslpath.cpp:159-228 | The in-place right-to-left scan stays in bounds, returns 0 when the string has a collapsed form and -EINVAL otherwise, leaves that form in the buffer, and touches nothing behind the original terminator. |
| CollapsePath.TreatSegment | src/linux/init/wslpath.cpp:199-224 | One turn drops, keeps or counts a segment and keeps the buffer in step with the scan of the string. |
| CollapsePath.TreatName | src/linux/init/wslpath.cpp:210-224 | The half of a turn for a segment other than `..`: it is removed if a `..` is pending or it is `.` or empty, and kept otherwise. |
| CollapsePath.RemoveSegment | src/linux/init/wslpath.cpp:212-221 | The memmove closes the gap over one segment and pays one pending parent. |
| CollapsePath.Classify | src/linux/init/wslpath.cpp:199-214 | The two character tests recognise `..`, and `.` or nothing, as whole segments. |
| CollapseMeaning.SplitCutsEverywhere | distributions/validate-modern.py:289-307 | Cutting a path into segments loses nothing and leaves no separator in a segment. |
| CollapseMeaning.CollapsedHasKept | src/linux/init/wslpath.cpp:159-228 | The collapsed string has the first component of the path and exactly the segments the scan keeps, and exists exactly when the scan succeeds. |
| CollapseMeaning.LinuxRealPath | distributions/validate-modern.py:289-307 | The reference, with its loop, its join and the leading separator, computes the joined forward stack that stays at the root. |
| CollapseMeaning.RealPathReads | distributions/validate-modern.py:289-307 | Cut again, the text the reference returns has exactly the segments on that stack. |
| CollapseMeaning.RealPathAbsoluteIff | distributions/validate-modern.py:303-307 | What the reference returns is absolute exactly when the path was. |
| CollapseMeaning.StackedIsRealPath | distributions/validate-modern.py:289-307 | Where the strict stack does not underflow, it is the stack of the reference. |
| CollapseMeaning.ScanFailsIff | src/linux/init/wslpath.cpp:159-228 | The scan fails exactly when, up to some point, more than a half of the segments in front are `..`. |
| CollapseMeaning.ScanAgainstStack | src/linux/init/wslpath.cpp:159-228 | A scan that fails means an underflow; one that succeeds keeps as many segments more than the stack as it spent on fillers. |
| CollapseMeaning.ScanIsPoppedStack | src/linux/init/wslpath.cpp:159-228 | With nothing spent on fillers the right-to-left scan with n pending is the forward stack without its top n segments. |
| CollapseMeaning.ScanIsStackIff | src/linux/init/wslpath.cpp:159-228 | Scan and strict stack agree if and only if the path climbs out (more `..` than other segments, up to some point) right behind no `.` or empty segment, or climbs out from its start. |
| CollapseMeaning.CollapseMeetsStackIff | src/linux/init/wslpath.cpp:159-228 | The same for strings: failure, first component and segments of the result all agree with the stack under exactly that condition. |
| CollapseMeaning.CollapseIsRealPath | src/linux/init/wslpath.cpp:159-228 | Without a filler under a pending `..` the call fails exactly when a stack underflows and otherwise keeps the segments linux_real_path keeps. |
| CollapseMeaning.AbsoluteHead | distributions/validate-modern.py:289-307 | The empty component in front of an absolute path makes no difference to the reference. |
| CollapseMeaning.FillerUnderParentIsMisspent | src/linux/init/wslpath.cpp:212-221 | `/a/./..` collapses to `/a/`, although the real path is the root. |
| PathEscape.EscapePathForNtLength | src/linux/init/escape.cpp:255-296 | The length loop returns the length of the escaped string. |
| PathEscape.EscapePathForNt | src/linux/init/escape.cpp:196-253 | The loop writes exactly the escaped string, as many bytes as EscapePathForNtLength says, and nothing else in the target. |
| PathEscape.CanonicalisePathSeparator | src/linux/init/util.cpp:348-408 | In place, every separator becomes the given one and repeats after the second byte disappear; the new length is returned, the string terminated, and no byte outside is touched. |
| PathEscape.UnescapePathInplace | src/linux/init/escape.cpp:298-340 | In place, every sequence that decodes to an illegal character is replaced by it, from left to right. |
| PathEscape.UnescapeAt | src/linux/init/escape.cpp:328-337 | One turn replaces a sequence that decodes to an illegal character and closes the gap, or leaves the byte. |
| PathLegal.EscapeOfByte | src/linux/init/escape.cpp:20-193 | What each byte becomes, in numbers: the slash a backslash, a byte that no NTFS name may hold three bytes of the private range at U+F000, every other byte itself. |
| PathLegal.EscapeConcat | src/linux/init/escape.cpp:196-253 | Escaping goes byte by byte. |
| PathLegal.EscapeIsLegal | src/linux/init/escape.cpp:196-253 | An escaped path holds no byte that NTFS refuses and no slash. |
| PathLegal.AsteriskIsEscaped | src/linux/init/escape.cpp:196-253 | `/a*b` becomes `\a`, the bytes 0xEF 0x80 0xAA, and `b`. |
| PathLegal.CanonicalShape | src/linux/init/util.cpp:348-408 | Canonicalised, a path has only the one separator, none twice behind the second byte, and the same other bytes in the same order. |
| PathLegal.CanonicalIsIdle | src/linux/init/util.cpp:348-408 | A path of that form already is left as it is. |
| EscapeBits.Decode | src/linux/init/escape.cpp:331 | In an 8-bit word the shift by six and the mask keep two bits of the second byte and six of the third. |
| EscapeBits.EncodeSecond | src/linux/init/escape.cpp:248 | The shifted bits of a character below 0x80 make the second byte 0x80 or 0x81. |
| EscapeBits.EncodeThird | src/linux/init/escape.cpp:249 | The masked bits of a character below 0x80 make the third byte. |
| EscapeBits.HasHighBit | src/linux/init/escape.cpp:328-329 | The masked test on a byte is the comparison with 0x80. |
| PathRoundTrip.EscapeKeepsLengthIff | src/linux/init/escape.cpp:255-296 | The escaped length is the length of the path exactly when nothing needs escaping. |
| PathRoundTrip.SqueezedIff | src/linux/init/util.cpp:348-408 | Dropping repeated slashes changes a path exactly when it has one after its second byte. |
| PathRoundTrip.CanonicalOfEscape | src/linux/init/util.cpp:3082-3128 | Canonicalising an escaped path is escaping the path without its repeated slashes. |
| PathRoundTrip.UnescapeOfEscape | src/linux/init/escape.cpp:298-340 | Unescaping sees through the escape: it decodes what it would decode in the path itself. |
| PathRoundTrip.ThereAndBack | src/linux/init/util.cpp:3082-3128 | For every path, escape, canonicalise and unescape amount to dropping repeated slashes and decoding what already looked escaped. |
| PathRoundTrip.UnescapeIff | src/linux/init/escape.cpp:298-340 | Unescaping changes a string, and shortens it, exactly when some three bytes in it look escaped. |
| PathRoundTrip.RoundTripIff | src/linux/init/util.cpp:3082-3128 | There and back is the identity on C strings if and only if the path repeats no slash after its second byte and holds nothing that looks escaped. |
| PathRoundTrip.NoLeadNoSequence | src/linux/init/escape.cpp:298-340 | Without byte 0xEF nothing looks escaped. |
| PathRoundTrip.FullWidthExclamationIsLost | src/linux/init/escape.cpp:298-340 | U+FF01 comes back as the control character 0x01. |
| PathRoundTrip.TranslationBranchesAgreeIff | src/linux/init/util.cpp:2965-3025 | Where the lengths are equal, copying and canonicalising gives the escaped suffix exactly when no slash is repeated. |
| WslShare.WinPathTranslateInternal | src/linux/init/util.cpp:3035-3129 | Both directions of the \\wsl.localhost translation, with the prefix and distribution tests and the failing cases, computed through the in-place routines. |
| WslShare.RestoreInPlace | src/linux/init/util.cpp:3115-3128 | Canonicalising and then unescaping in one buffer leaves, as a C string, the restored path. |
| WslShare.ShareRoundTripIff | src/linux/init/util.cpp:3035-3129 | For every distribution and every non-empty path, to the share and back is the identity exactly under the condition of RoundTripIff. |
| WslShare.ShareRoundTrip | src/linux/init/util.cpp:3035-3129 | In particular for every absolute path without byte 0xEF and without a repeated slash. |
| WslShare.FromShareIff | src/linux/init/util.cpp:3092-3125 | A name is one of the share exactly when it starts, up to case, with \\wsl.localhost or \\wsl$ and the distribution; what follows is the path. |
| WslShare.ToShareText | src/linux/init/util.cpp:3070-3089 | The name of a path is \\wsl.localhost, the distribution and the escaped path. |
| WslShare.CompatRoundTripIff | src/linux/init/util.cpp:3092-3125 | The old name \\wsl$ leads back to the path under the same condition. |
| MountLookup.FindMount | src/linux/init/util.cpp:807-990 | On any mount list: from Linux it succeeds exactly when the last entry whose mount point prefixes the path is translatable; from Windows it returns the last entry of maximal match length exactly when no later entry is mounted over it; the length returned is that entry's. |
| MountLookup.FoundUnique | src/linux/init/util.cpp:807-990 | The description of FindMount's result fits one result only. |
| MountLookup.ConsiderMount | src/linux/init/util.cpp:876-976 | One entry discards a result it shadows and replaces it if it matches at least as long. |
| MountLookup.LinuxNext | src/linux/init/util.cpp:876-976 | What one more entry does to the declarative answer from Linux. |
| MountLookup.WindowsNext | src/linux/init/util.cpp:876-976 | What one more entry does to the declarative answer from Windows, although the length is never reset. |
| MountSources.LinuxPrefixIff | src/linux/init/util.cpp:1417-1476 | A Linux path lies on a prefix exactly when it is the prefix, or the prefix, a slash and something. |
| MountSources.WindowsPrefixIff | src/linux/init/util.cpp:1417-1476 | A Windows path lies on a name exactly when it starts with it up to case and then ends or goes on with a backslash. |
| MountSources.DriveMountSource | src/linux/init/util.cpp:892-948 | A 9p mount of a drive, with the options MountDrvfs assembles, has the name of the drive without a backslash. |
| MountSources.BindMountSource | src/linux/init/util.cpp:936-948 | A bind mount of a directory of that drive has the name of the directory. |
| MountSources.VirtiofsMountSource | src/linux/init/util.cpp:2011-2044 | `drvfsC` and `drvfsaC` both have the name `C:`. |
| MountSources.DrvfsMountSource | src/linux/init/util.cpp:912-934 | A drvfs mount has its source's name, with the slashes turned and one at the end dropped. |
| MountSources.OtherMountSource | src/linux/init/util.cpp:892-924 | No other file system has a Windows name. |
| WinPathTranslate.TranslateOnMount | src/linux/init/util.cpp:2965-3027 | The buffer built behind the mount's name holds the canonicalised or the escaped suffix, or the lone backslash for the root of a drive. |
| WinPathTranslate.RootName | src/linux/init/util.cpp:2965-3013 | The root of a drive is named with its backslash, the root of any other mount by its source alone. |
| WinPathTranslate.CopyCanonical | src/linux/init/util.cpp:3016-3025 | Canonicalising the suffix in the buffer leaves the name in front of it alone. |
| WinPathTranslate.TranslatePath | src/linux/init/util.cpp:2914-3028 | The whole translation: over the mount that the search finds, over the share if it finds none. |
| WinPathTranslate.TranslationUnique | src/linux/init/util.cpp:2914-3028 | A path has at most one translation in each direction. |
| WinPathTranslate.SuffixComesBackIff | src/linux/init/util.cpp:2965-3025 | A suffix is the same again, over a mount and back, exactly when nothing in it needs escaping, no slash is repeated and it is not the root of a drive. |
| WinPathTranslate.NameThereAndBackIff | src/linux/init/util.cpp:2965-3027 | The Windows name of any path on a mount matches the whole source of that mount again, and translates back to the path exactly under that condition; the root of a drive gains a slash. |
| WinPathTranslate.ColonIsNotRestored | src/linux/init/util.cpp:2997-3025 | `/a:b` behind a mount point comes back with the three bytes 0xEF 0x80 0xBA for the colon. |
| WinPathTranslate.ReturnsOverItself | src/linux/init/util.cpp:2914-3028 | If the search from Windows leads back to the path over any mount at all, that is the mount the path lies on. |
| WinPathTranslate.MountRoundTripIff | src/linux/init/util.cpp:2914-3028 | On any mount list a path on a mount with a Windows name has a name under it, and the search from Windows leads back to the path if and only if that mount is the best match for the name and not mounted over, nothing behind the mount point needs escaping, no slash is repeated there, and the path is not the root of a drive. |
| WinPathTranslate.TranslationReturnsIff | src/linux/init/util.cpp:2949-2957 | For every distribution a name translates to the path exactly when it does over a mount, or when no mount is found and it does over the share. |
| WinPathTranslate.MountTripIff | src/linux/init/util.cpp:2914-3028 | The whole trip over a mount and back, for every distribution whose share the name is not on, gives the path exactly under the condition of MountRoundTripIff. |
| WinPathTranslate.ShareTripIff | src/linux/init/util.cpp:2914-3129 | The whole trip over the share and back, for a path and a name on no mount, gives the path exactly when it is not empty, repeats no slash after its second byte and holds nothing that looks escaped. |
| DrvfsOptions.StringNextToken | src/linux/init/util.cpp:2784-2822 | The token is the text before the first separator, the rest what follows it. |
| DrvfsOptions.ConvertDrvfsMountOptionsToPlan9 | src/linux/init/drvfs.cpp:44-98 | The token loop builds both lists, with the symlink root appended to the 9p one. |
| DrvfsOptions.AppendOption | src/linux/init/drvfs.cpp:71-92 | One option goes to one list, to the other, or nowhere. |
| DrvfsNames.ServerOptionGoes | src/linux/init/drvfs.cpp:71-83 | `metadata` and what starts with case=, uid=, gid=, umask=, dmask=, fmask= or symlinkroot= goes to the 9p list behind a semicolon, and nowhere else. |
| DrvfsNames.CaseForceGoes | src/linux/init/drvfs.cpp:75-79 | `case=force` goes there as `case=dir`. |
| DrvfsNames.FallbackGoes | src/linux/init/drvfs.cpp:84-87 | What starts with fallback= goes nowhere. |
| DrvfsNames.StandardOptionGoes | src/linux/init/drvfs.cpp:88-92 | Every other option goes to the standard list with a comma behind it, and nowhere else. |
| DrvfsNames.OptionsGo | src/linux/init/drvfs.cpp:68-93 | A list is treated option by option. |
| DrvfsNames.UidAndGidGo | src/linux/init/drvfs.cpp:71-83 | `uid=1,gid=2` gives `;uid=1;gid=2` for the server and nothing else. |
| DrvfsNames.MountOptionsText | src/linux/init/drvfs.cpp:370-394 | The assembled text for a drive, written out. |
| DrvfsNames.MountOptionsOfShare | src/linux/init/drvfs.cpp:350-394 | The assembled text for a UNC path, written out, whichever separators it has. |
| DrvfsNames.PathValueIff | src/linux/init/util.cpp:1980-2008 | A path= value names a Windows source exactly when it starts with a letter and a colon, or with UNC and a backslash. |
| DrvfsOptions.StandardOptionsLand | src/linux/init/drvfs.cpp:44-98 | Read back, the standard list is exactly the given options that are neither DrvFs options nor fallback=, in order. |
| DrvfsOptions.Plan9OptionsLandIff | src/linux/init/drvfs.cpp:44-98 | Read back, the 9p list is exactly the given DrvFs options, in order, with case=force rewritten, if and only if none of them holds a semicolon. |
| DrvfsOptions.SemicolonSplitsOption | src/linux/init/drvfs.cpp:71-92 | An option such as `uid=1;x` is one option of the list and two sub-options of the result. |
| DrvfsOptions.ParsePlan9MountSource | src/linux/init/util.cpp:1933-2009 | The loop over the options computes the mount source, or none. |
| DrvfsOptions.AssembledOptionsParse | src/linux/init/drvfs.cpp:350-394 | For every source and whatever options surround it, parsing the assembled option string gives what the name handed to the 9p server stands for up to its first comma or semicolon. |
| DrvfsOptions.SourceRoundTripIff | src/linux/init/drvfs.cpp:350-394 | For every drive or UNC source it gives the source with its separators canonicalised if and only if the source holds neither a comma nor a semicolon. |
| DrvfsOptions.CommaCutsSource | src/linux/init/util.cpp:1960-2008 | `C:\a,b` comes back as `C:\a`. |
| MountInfo.FieldUnescapeOctal | src/linux/mountutil/mountutil.c:143-164 | Three octal digits are recognised and valued in eight bits without reading behind the terminator. |
| MountInfo.MountFieldUnescape | src/linux/mountutil/mountutil.c:112-140 | The two-pointer loop leaves the unescaped field, terminated, in place. |
| MountInfo.UnescapedIff | src/linux/mountutil/mountutil.c:112-164 | A field changes exactly when it holds a backslash and three digits from 0 to 7. |
| MountInfo.UnescapedEscape | src/linux/mountutil/mountutil.c:143-164 | Such an escape stands for the byte of its octal value, in eight bits. |
| MountInfoLine.ParseMountInfoLine | src/linux/mountutil/mountutil.c:210-286 | The field loop computes the entry of a line, or none if it is malformed. |
| MountInfoLine.FindOptionalEnd | src/linux/mountutil/mountutil.c:248-255 | The inner loop skips the optional fields up to the lone hyphen. |
| MountInfoLine.AtoiOfDecimal | src/linux/mountutil/mountutil.c:210-286 | Reading a printed number gives the number. |
| MountInfoLine.AtoiReads | src/linux/mountutil/mountutil.c:200-226 | A number may have a sign, and ends at the first byte that is no digit. |
| MountInfoLine.AtoiBlank | src/linux/mountutil/mountutil.c:200-226 | White space in front of a number is passed over. |
| MountInfoLine.DeviceRoundTrip | src/linux/mountutil/mountutil.c:184-207 | Reading a printed major:minor gives the pair. |
| MountInfoLine.UnescapedOfEscaped | src/linux/mountutil/mountutil.c:112-164 | Unescaping inverts octal escaping of any set of bytes that has the backslash in it. |
| MountInfoLine.ParseOfPrintIff | src/linux/mountutil/mountutil.c:210-286 | For every entry as proc(5) prints it, any list of optional fields and any set of escaped bytes with space and backslash, parsing the printed line recovers every field if and only if the source is not empty. |
| MountInfoLine.ExampleLine | src/linux/mountutil/mountutil.c:210-286 | The line `1 2 3:4 / /m rw - 9p x rw`, byte by byte, and its entry. |
| MountInfoLine.EmptySourceReads | src/linux/mountutil/mountutil.c:168-286 | The line of a mount with an empty source is dropped as malformed unless its super block options have a non-space, a later space and something behind that; then it is read with their first word as the source and the rest as the options. |
| MountInfoLine.EmptySourceExamples | src/linux/mountutil/mountutil.c:168-286 | A tmpfs line with an empty source and options `rw` is dropped; with options `rw x` it is read as a mount of `rw` with options `x`. |
| RelayScan.Scanner.StopMissing | src/linux/init/localhost.cpp:347-363 | Keeps exactly the relays still listening, sends Stop only for relays that are gone, and reports success exactly when every message went out. |
| RelayScan.Scanner.StartNew | src/linux/init/localhost.cpp:365-380 | Adds the sockets without a relay, sends Start only for those, and reports success exactly when every message went out. |
| RelayScan.Scanner.Scan | src/linux/init/localhost.cpp:320-395 | When every message goes out the relays are the listening sockets without duplicates and the fold of all messages sent; a socket that goes on listening gets none; and whether or not a message fails, no relay is started twice or stopped when it is not running. |
| RelayScan.Scanner.Run | src/linux/init/localhost.cpp:320-395 | Over every run of scans: -1 exactly when a message failed, 1 when neither file opens, and until then the relays are the sockets of the last scan and the fold of all messages; the messages sent are sensible in any case. |
| RelayScan.MessagesAlternate | src/linux/init/localhost.cpp:320-395 | For every address the messages of such a log alternate Start, Stop, and an odd number means it is relayed. |
| ReclaimWindow.Run | src/linux/init/main.cpp:335-420 | Iteration by iteration the sampler acts exactly as the declarative rule over the whole sample history says, and never in the first window-length minus one iterations. |
| ReclaimWindow.Decide | src/linux/init/main.cpp:384-416 | One decision in either mode, with the flag written before it is read. |
| ReclaimWindow.FirstActs | src/linux/init/main.cpp:335-420 | Without any use of the CPU caches are dropped once, in iteration 20, and memory is reclaimed from iteration 6 on whenever more than a gigabyte is in use. |
| ReclaimWindow.ActsOnlyIfIdle | src/linux/init/main.cpp:380-382 | The sampler acts only if less CPU time than the threshold passed since the last sample, and less than 7 (gradual) or 21 (drop cache) thresholds over the last 6 or 20. |
| ReclaimWindow.OldestSlot | src/linux/init/main.cpp:380-382 | The slot about to be overwritten holds the sample of a whole window ago, or the initial value. |
| ReclaimWindow.WindowAdvances | src/linux/init/main.cpp:418-419 | Writing the new sample keeps every other recent sample in its slot. |
| ReclaimWindow.RestingStep | src/linux/init/main.cpp:384-412 | How the state of rest of the gradual mode follows from the history, one iteration at a time. |
| ReclaimWindow.DecisionFits | src/linux/init/main.cpp:384-416 | A decision made from the flag is the one the history asks for, and the flag stays in step. |
| ListEntry.InitializeListHead | src/linux/inc/lxdef.h:200-203 | The head alone is an empty list. |
| ListEntry.IsListEmpty | src/linux/inc/lxdef.h:205-208 | Tells whether the ring has no entry. |
| ListEntry.InsertTailList | src/linux/inc/lxdef.h:210-217 | The ring stays circular both ways and the entry is its last. |
| ListEntry.RemoveEntryList | src/linux/inc/lxdef.h:219-226 | The ring loses just that entry, the result is true exactly when it becomes empty, and the entry's own links stay. |

## Left out

- System calls, sockets, epoll, netlink, hvsocket and /proc reads: their results are parameters, host answers or contents of the clock.
- GetCallInfo's reads of process memory and its protocol lookup: a notification carries what it makes of the call, a port or nothing.
- WaitableValue, promises and the three threads are values in a step relation, not classes: a wait is a guard, a critical section one step.
- The window before the handlers are registered, and exceptions that end a thread: a failed host transaction, or an error of the listing that is not a NetlinkTransactionError (those are retried, which is the step ListFails).
- The release of a port by the host and the erasure of its entry (lines 219-230) are one step: the table is private to the tracker thread, so no other party can see the moment between them.
- The DNS server's event loop and the channel framing around it: each handler is one call.
- HandleNewTcpData: the send to the tunnel and the scope guard that then drops the connection are RemoveConnection in DnsRouting.
- CollapsePath: on failure the buffer's contents are not described; no caller looks at them.
- AbsolutePath and DosToCanonicalPath, which call CollapsePath around file system queries.
- TranslatePath: the result is what a C caller reads of it; bytes of the std::string behind the first NUL are not described.
- WinPathTranslateInternal: likewise, for the string that is shortened in place.
- ParseMountInfoLine: the NUL bytes strtok_r writes into the line are not modelled; only the unescape works in place. Numbers are unbounded and the device stays a pair instead of a dev_t.
- IsSameSockAddr's fatal exit on an unknown family, and ParseTcpFile, whose result is the input of a scan.
- ReclaimWindow.Run: memory sizes are reals, the compaction half of the loop is absent, and samples for which the 64-bit subtraction would overflow are excluded.
- The list operations take the entries of the ring as ghost parameters; CONTAINING_RECORD is not modelled.
- GnsEngine, NetworkManager and the other netlink managers, which assemble messages for the kernel; config, init, binfmt and plan9, which mount, fork, exec and relay; telemetry; the parser of mount flags and the environment block, which are a fold over a table and an association list.
