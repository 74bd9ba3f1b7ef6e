# ping, traceroute and subnet scanner — a Dafny model

This project models the sequential logic of three small network tools written in C++:

- `task1.cpp`, a ping tool. It fills an ICMP echo request, stores its Internet checksum and sends `counts` requests. It counts what is sent and received, and prints loss and min/avg/max round-trip times.
- `task2.cpp`, a traceroute. One 64-byte echo request buffer is stamped with the sequence number `ttl * 3 + i` for up to three tries per TTL, 1 to 30. Replies are classified by ICMP type. The trace stops at an option failure (exit status 1), at a port unreachable (status 0), or when an echo reply, time-exceeded or port-unreachable reply was received at that hop and the last responder's dotted quad equals the destination's.
- `task3.cpp`, a subnet scanner. It takes the first non-loopback IPv4 interface and cuts its address at the last dot. It sweeps `prefix.1` … `prefix.10`, appending every host whose name lookup succeeds to a fixed 256-entry host list. It probes ports 1 … 10 of each target with a non-blocking connect, then lists the recorded hosts.

Modules:

- `Icmp` (checksum.dfy): the checksum loop over an `array` of 16-bit words, its RFC 1071 specification and the ICMP header layout. `task2.cpp:21-34` is a verbatim copy of `task1.cpp:19-32` and is modelled once.
- `Inet` (inet.dfy): IPv4 addresses, the decimal digits `%d` prints, and dotted-quad text. The lemmas prove that both are injective.
- `Ping` (ping.dfy): `create_packet` over the send buffer, the request loop's counters, and the statistics.
- `Traceroute` (traceroute.dfy): the tries loop of one hop (`ProbeHop`, with the `rtt_times` array and its reply handling `RecordTry`) and the TTL loop (`Trace`). `HopSummary` describes a hop without the loop, and `FirstStop` describes where the trace ends.
- `Scanner` (scanner.dfy): the `HostList` class, `get_local_ip`, the prefix cut, target generation, `scan_host`'s append and port loop, `scan_network` and the listing in `main`.

All system calls are inputs to the model:

- `sendto`/`recvfrom`/`setsockopt` results are `Exchange`, `Probe` and `HopInput` values.
- `getifaddrs` is a list of `Interface` values.
- `gethostbyaddr` is an `Option<string>` per target.
- A `PortProbe` gives the `socket`/`connect`/`select`/`getsockopt` results for one port.
- `getpid()` is a parameter.
- Durations are given whole numbers.

## Model

| member | source | states |
|---|---|---|
| Icmp.Operands | task1.cpp:24-27 | the values added are the first len/2 words followed, for an odd length, by the next word's first byte as a low-order value |
| Icmp.OnesSum | task1.cpp:24-29 | RFC 1071's ones'-complement sum of the words, always a 16-bit value |
| Icmp.EndAroundCarry | task1.cpp:28-29 | folding the carries of a plain sum gives a 16-bit value that is 0 exactly when the sum is 0 |
| Icmp.FirstFold | task1.cpp:28 | the first fold keeps the accumulator congruent modulo 0xFFFF, keeps it nonzero when it was nonzero, and leaves at most 0x1FFFE |
| Icmp.TwoFoldsSuffice | task1.cpp:28-29 | for every 32-bit accumulator value the two folds, truncated to 16 bits, equal the end-around-carry fold, so no third fold is needed |
| Icmp.OnesAddFolds | task1.cpp:24-29 | adding a word in ones'-complement arithmetic to a folded sum is the same as folding the plain sum with that word |
| Icmp.OnesSumIsEndAroundCarry | task1.cpp:24-29 | RFC 1071's word-by-word ones'-complement sum equals the end-around-carry fold of the plain sum |
| Icmp.SumBound | task1.cpp:24-25 | n words sum to at most n · 0xFFFF |
| Icmp.NoAccumulatorOverflow | task1.cpp:21-27 | the 32-bit `unsigned int` sum cannot wrap for any length up to 131074 bytes, which covers the 64-byte packets |
| Icmp.ExactBelowBound | task1.cpp:19-32 | up to 131074 bytes the C result equals the RFC 1071 checksum (complement of the ones'-complement sum) |
| Icmp.SumUpdate | task1.cpp:24-25 | replacing one word changes the word sum by exactly the difference |
| Icmp.VerifiesToZero | task1.cpp:40-41 | storing the checksum into a zeroed word the checksum covers makes the checksum of the same bytes 0 |
| Icmp.OperandsSplit | task1.cpp:24-27 | after the word loop, the sum of the operands is the sum of the words read plus the odd byte exactly when the length is odd |
| Icmp.SumStep | task1.cpp:24-25 | one pass of the word loop adds the next word to the wrapped sum of the words before it |
| Icmp.AccumulatedOperands | task1.cpp:26-27 | after the word loop, adding the odd byte when the length is odd gives the wrapped sum of all operands |
| Icmp.Accumulate | task1.cpp:21-27 | the word loop and the odd byte leave the 32-bit accumulator holding the sum of the operands modulo 2^32 |
| Icmp.FoldedComplement | task1.cpp:28-31 | complementing the twice-folded accumulator gives the C result, and up to 131074 bytes the RFC 1071 checksum |
| Icmp.Checksum | task1.cpp:19-32 | the loop, with its wrapping 32-bit accumulator, returns the complement of the fully folded sum; up to 131074 bytes that is the RFC 1071 checksum |
| Icmp.WrappedChecksum | task1.cpp:24-31 | definition, no contract: the complement of the end-around-carry fold of the accumulator after it wrapped modulo 2^32; `Icmp.ExactBelowBound` ties it to RFC 1071 and `Icmp.FoldedComplement` to the loop |
| Icmp.FoldTwice | task1.cpp:28-31 | definition, no contract: the source's two carry folds of the 32-bit accumulator, keeping 16 bits; `Icmp.TwoFoldsSuffice` proves they equal the complete end-around-carry fold |
| Inet.Decimal | task3.cpp:113 | `%d` of a number has 1, 2 or 3 digits for numbers below 10, 100 and 1000, and only digits |
| Inet.DecimalRoundTrip | task3.cpp:113 | reading back the digits of a number gives the number |
| Inet.DecimalInjective | task3.cpp:113 | different numbers print differently |
| Inet.DecimalHasNoDot | task3.cpp:107-113 | printed numbers contain no dot, so the last dot of a dotted quad is the one before its last octet |
| Inet.SplitAtFirstDot | task2.cpp:156 | a dot-free head and the rest are recovered from `head + "." + rest` |
| Inet.LeadingNumber | task2.cpp:156 | the leading octet and the rest of a dotted text are determined by the text |
| Inet.DottedQuadInjective | task2.cpp:155-156 | two addresses with the same dotted-quad text are the same address, so comparing the texts compares the addresses |
| Ping.CreatePacket | task1.cpp:35-42 | sets type ICMP_ECHO, code 0, the 16-bit id and sequence number, stores the checksum of the header with its checksum field zeroed, leaves the rest of the buffer alone, and for 4 ≤ length ≤ 131074 the buffer then checksums to 0 |
| Ping.IsOwnReplyAsWritten | task1.cpp:117-118 | definition, no contract: an echo reply whose 16-bit `icmp_id` equals the whole process id; `Ping.AsWrittenRejectsWidePid` and `Ping.LargePidRejectsOwnReply` show what it rejects |
| Ping.IsOwnReply | task1.cpp:117-118 | definition, no contract: an echo reply whose id equals the 16 bits `create_packet` stored; `Ping.OwnReplyAccepted` shows it accepts the echo of every request built |
| Ping.SentCount | task1.cpp:95-100 | definition, no contract: `sent_packets`, one per exchange whose `sendto` succeeds; bounded by `Ping.CountersOrdered` |
| Ping.Rtts | task1.cpp:102-112 | definition, no contract: `times`, one duration per exchange that received a packet of any kind, in order; bounded by `Ping.CountersOrdered` |
| Ping.ReceivedCount | task1.cpp:117-122 | definition, no contract: the corrected `received_packets`, one per reply passing `Ping.IsOwnReply`; bounded by `Ping.CountersOrdered` |
| Ping.ReceivedCountAsWritten | task1.cpp:117-122 | definition, no contract: `received_packets` as written, one per reply passing `Ping.IsOwnReplyAsWritten`; `Ping.ReceivedCountsAgree` relates it to the corrected count |
| Ping.LargePidRejectsOwnReply | task1.cpp:117-118 | with process id 70000 the as-written test rejects the echo of our own request while the corrected test accepts it |
| Ping.OwnReplyAccepted | task1.cpp:117-118 | a reply carrying the id that `create_packet` sent passes the corrected test, and passes the as-written test exactly when the process id fits 16 bits |
| Ping.AsWrittenRejectsWidePid | task1.cpp:117-118 | for every process id outside 0 … 65535, the as-written test rejects every reply, whatever its id |
| Ping.ReceivedCountsAgree | task1.cpp:117-122 | for all outcomes, the source's `received_packets` equals the corrected count when the process id fits 16 bits, and is 0 otherwise |
| Ping.CountersOrdered | task1.cpp:87-126 | received ≤ number of durations ≤ sent ≤ number of requests, for every sequence of outcomes |
| Ping.AllSendsFailedMeansNothingSent | task1.cpp:95-100 | when every `sendto` fails, `sent_packets` stays 0, the divisor of the loss formula |
| Ping.CDiv | task1.cpp:134 | definition, no contract: C's `/` on `int`, truncating toward zero, written over Dafny's Euclidean division |
| Ping.LossAsWritten | task1.cpp:134 | definition, no contract: the loss formula with C division, defined only for a nonzero divisor; `Ping.LossInRange` bounds it and `Ping.AllSendsFailedMeansNothingSent` shows when the divisor is 0 |
| Ping.PingLoop | task1.cpp:87-129 | the loop's counters and `times` are those of its first `counts` outcomes (for a process id that fits 16 bits, `received` is the count of the test as written), stay ordered, and every request built is an echo header with its own sequence number, zero payload words and a checksum that verifies |
| Ping.LossInRange | task1.cpp:134 | when something was sent the loss formula, with C's truncating division, is between 0 and 100, and is 100 for no replies and 0 for all replies |
| Ping.PacketLoss | task1.cpp:134 | the corrected loss: in 0..100, the formula's value whenever something was sent, 0 instead of a division by zero otherwise |
| Ping.MinOf | task1.cpp:135-136 | the minimum is one of the durations and no duration is smaller |
| Ping.MaxOf | task1.cpp:135-137 | the maximum is one of the durations and no duration is larger |
| Ping.Statistics | task1.cpp:133-141 | loss in 0..100; for no durations all of min, avg and max are 0; otherwise min ≤ avg ≤ max, min and max are durations bounding them all, and avg is the floored mean |
| Traceroute.SeqNumbersOrdered | task2.cpp:96-99 | sequence numbers strictly increase with (ttl, i), so they are pairwise distinct |
| Traceroute.SeqNumber | task2.cpp:99 | definition, no contract: try i at a TTL carries `ttl * 3 + i`; `Traceroute.SeqNumbersOrdered` and `Traceroute.SeqNumberFits` are its properties |
| Traceroute.SeqNumberFits | task2.cpp:99 | every sequence number fits the 16-bit `icmp_seq` unchanged |
| Traceroute.EchoTemplate | task2.cpp:62-70 | the buffer prepared before the TTL loop is PACKET_WORDS words holding an echo header of this process with sequence number 0 |
| Traceroute.Stamp | task2.cpp:99-101 | the packet of one try carries the sequence number, agrees with the buffer on every word but the checksum and the sequence number, and checksums to 0 |
| Traceroute.StampOnTemplate | task2.cpp:99-101 | stamping any buffer that agrees with the template outside the checksum and sequence words gives the same packet as stamping the template |
| Traceroute.RequestsAt | task2.cpp:96-107 | one request built and passed to `sendto` per try made, whether or not that `sendto` succeeds |
| Traceroute.RequestsAtContents | task2.cpp:96-107 | try j at a TTL builds and passes to `sendto` the template stamped with sequence number ttl·3 + j |
| Traceroute.RequestsAtValid | task2.cpp:96-101 | every request built at a hop is an echo header of this process with its own sequence number and a valid checksum |
| Traceroute.FirstEnd | task2.cpp:124-137 | the first try that ends the tries loop is an echo reply or a port unreachable, and no earlier try is |
| Traceroute.ReplyRtts | task2.cpp:118 | at most one duration is recorded per try |
| Traceroute.AnyMarksMeans | task2.cpp:124-131 | `received_response` is set exactly when some processed reply is an echo reply, time exceeded or port unreachable |
| Traceroute.NoReplyChangesNothing | task2.cpp:103-114 | a failed send or a timeout leaves the counted durations, `received_response` and `ip_address` unchanged |
| Traceroute.CountedReply | task2.cpp:118-139 | a time-exceeded reply, or one of an unrecognised kind, is counted and becomes the responder; only time exceeded sets `received_response` |
| Traceroute.EchoReplyNotCounted | task2.cpp:124-126 | an echo reply sets `received_response`, names the responder and ends the hop, but its duration is not among those counted |
| Traceroute.EndingReply | task2.cpp:124-137 | the hop's result when try i is the first to end it |
| Traceroute.TriesMade | task2.cpp:96-140 | no more tries are made than a hop has |
| Traceroute.AllTriesMade | task2.cpp:96-140 | the hop's result when no try ends it |
| Traceroute.HopSummary | task2.cpp:91-140 | definition, no contract: the hop's durations, `received_response`, responder and ending, read off its tries up to the first that ends the loop; `Traceroute.EndingReply`, `Traceroute.AllTriesMade` and `Traceroute.ProbeHop` are about it |
| Traceroute.ReceivedHasResponder | task2.cpp:142-148 | a hop that received a response always has an address to print |
| Traceroute.LineOf | task2.cpp:142-153 | definition, no contract: the hop line, the counted durations and the responder after a response, "*" otherwise; `Traceroute.TraceLinesContents` places it in the output |
| Traceroute.NumberRequest | task2.cpp:99-101 | the send buffer becomes the template stamped with the sequence number, and stays on the template |
| Traceroute.RecordTry | task2.cpp:103-139 | one try's effect on `recv_count`, `rtt_times`, `received_response` and `ip_address`, and whether the loop stops; the write to `rtt_times[recv_count]` is in bounds because `recv_count ≤ i < 3` |
| Traceroute.ProbeHop | task2.cpp:91-140 | the tries loop yields exactly `HopSummary` of its tries, builds and passes to `sendto` one stamped request per try made, and leaves the buffer on the template |
| Traceroute.ReachedMeansResponder | task2.cpp:155-158 | comparing `ip_address` with the destination's text is the same as comparing the responder's address with the destination ("*" is never a dotted quad) |
| Traceroute.ResponderText | task2.cpp:92-119 | definition, no contract: `ip_address`, "*" until a reply names its sender, then that sender's dotted quad |
| Traceroute.ReachedAsText | task2.cpp:155-156 | definition, no contract: the destination test on texts; `Traceroute.ReachedMeansResponder` turns it into a test on addresses |
| Traceroute.ViewOf | task2.cpp:73-140 | definition, no contract: what the TTL loop keeps of a hop, its option outcome, `HopSummary` of its tries and how many tries it made |
| Traceroute.Views | task2.cpp:72 | definition, no contract: the view of each hop, hop k at TTL k + 1 |
| Traceroute.ViewsOfWellFormed | task2.cpp:72-96 | the views of 30 hops of 3 tries each are 30 views of at most 3 tries made |
| Traceroute.HopStops | task2.cpp:73-158 | definition, no contract: a hop ends the trace when its options fail, a port unreachable ends its tries, or a response came from the destination; `Traceroute.TraceHop` shows the source's text comparison decides the same |
| Traceroute.FirstStopFrom | task2.cpp:72-159 | the first stopping hop from k on lies between k and the number of hops |
| Traceroute.FirstStop | task2.cpp:72-159 | definition, no contract: the first hop that stops the trace, or 30 when none does; `Traceroute.FirstStopMeans` and `Traceroute.FirstStopIs` characterise it |
| Traceroute.FirstStopFromMeans | task2.cpp:72-159 | the first stopping hop from k on stops the trace and no hop between k and it does |
| Traceroute.FirstStopMeans | task2.cpp:72-159 | the hop where the trace ends stops it, and no earlier hop does |
| Traceroute.FirstStopIs | task2.cpp:72-159 | a hop that stops the trace with none stopping before it is where the trace ends |
| Traceroute.ExitStatus | task2.cpp:73-162 | definition, no contract: 1 when the hop that stops the trace failed its options, else 0; `Traceroute.StopsAt`, `Traceroute.PortUnreachableEndsTrace` and `Traceroute.NeverStops` state its value |
| Traceroute.PortUnreachableEndsTrace | task2.cpp:129-136 | a port unreachable at the first stopping hop ends the program with status 0 after printing that hop |
| Traceroute.StopsAtDestination | task2.cpp:155-158 | the trace ends no later than the first hop whose response came from the destination |
| Traceroute.StopsAt | task2.cpp:73-158 | the exit status and the number of printed lines when a given hop stops the trace |
| Traceroute.NeverStops | task2.cpp:159-162 | when no hop stops the trace, all 30 hops are printed and the status is 0 |
| Traceroute.TraceContinues | task2.cpp:72-159 | past a hop that does not stop the trace, the first stopping hop is unchanged and the lines and requests grow by that hop's line and requests |
| Traceroute.LinesPrinted | task2.cpp:72 | at most MAX_HOPS hop lines are printed |
| Traceroute.TraceLines | task2.cpp:142-153 | one line per hop printed |
| Traceroute.TraceLinesContents | task2.cpp:142-153 | line k of the output is the line of hop k |
| Traceroute.SentUpTo | task2.cpp:72-107 | definition, no contract: the requests built and passed to `sendto` by the first n hops, hop by hop, including those whose `sendto` fails |
| Traceroute.SentRequestsValid | task2.cpp:72-101 | every request the trace builds and passes to `sendto` is an echo request of this process with a valid checksum, numbered 3 … 3n + 2 |
| Traceroute.SentNumbersIncrease | task2.cpp:72-101 | the sequence numbers of all requests built strictly increase |
| Traceroute.TraceHop | task2.cpp:73-158 | one TTL: a failed option stops with status 1, prints no line and builds no request; otherwise it prints the hop's line, builds that hop's requests, and stops exactly at a port unreachable or when the responder's text equals the destination's, which is when the responder is the destination |
| Traceroute.PrepareSendBuffer | task2.cpp:62-70 | the send buffer before the TTL loop is a fresh array holding `EchoTemplate` of the process id |
| Traceroute.TraceStepAt | task2.cpp:72-159 | one pass of the TTL loop: either the trace ends at this hop, with the exit status, all lines and all requests of the whole trace, or no hop so far stops it and the lines and requests grow by this hop's |
| Traceroute.Trace | task2.cpp:62-162 | for all hop inputs, the exit status, every printed hop line and every request built are those of the hops up to the first that stops the trace |
| Scanner.HostList.constructor | task3.cpp:120 | the host list starts empty |
| Scanner.HostList.Append | task3.cpp:57 | appends exactly one entry at index `count`, increments `count`, keeps earlier entries and the array |
| Scanner.HostList.Listing | task3.cpp:124-127 | the listing is the recorded entries, all `count` of them, in insertion order |
| Scanner.IsLoopbackName | task3.cpp:36 | definition, no contract: the loopback test, a name whose first two characters are "lo" |
| Scanner.Selectable | task3.cpp:33-41 | definition, no contract: an entry with an AF_INET address whose name does not start with "lo"; `Scanner.FirstSelectable` finds the first |
| Scanner.FirstSelectable | task3.cpp:33-36 | the first entry with family AF_INET and a name not starting with "lo", with none before it |
| Scanner.LocalAddress | task3.cpp:33-41 | definition, no contract: the dotted quad of the first selectable entry, else the buffer unchanged; `Scanner.GetLocalIp` computes it and `Scanner.LocalAddressChosen` characterises it |
| Scanner.GetLocalIp | task3.cpp:29-43 | the buffer receives the dotted quad of the first selectable interface, or keeps its contents when there is none |
| Scanner.LocalAddressChosen | task3.cpp:33-41 | whenever some interface qualifies, the chosen address belongs to a qualifying interface with no qualifying one before it |
| Scanner.LastIndexOf | task3.cpp:107 | `strrchr`: no result exactly when the character is absent, otherwise its last position |
| Scanner.NetworkPrefix | task3.cpp:107-109 | the text before the last dot, which is followed by that dot and no later one; the whole text when there is no dot |
| Scanner.PrefixOfDottedQuad | task3.cpp:103-109 | the prefix of a dotted quad a.b.c.d is the text a.b.c |
| Scanner.PrefixOfDottedQuadIsShort | task3.cpp:103-109 | the prefix of a dotted quad has at most 11 characters |
| Scanner.Clip | task3.cpp:113 | `snprintf` into 16 bytes keeps a prefix of at most 15 characters, and everything when it fits |
| Scanner.Target | task3.cpp:113 | definition, no contract: `prefix + "." + decimal(i)`, clipped to the 16-byte buffer; `Scanner.TargetOfDottedQuad` and `Scanner.TargetsDistinct` are its properties |
| Scanner.TargetsUpTo | task3.cpp:111-116 | one target per host swept |
| Scanner.TargetsUpToContents | task3.cpp:111-116 | the targets are, in ascending order, `prefix + "." + decimal(i)` for i = 1 … 10, each clipped as `snprintf` clips into 16 bytes (a dotted quad's prefix is never clipped, see `Scanner.PrefixOfDottedQuadIsShort`) |
| Scanner.TargetOfDottedQuad | task3.cpp:111-113 | for a local address a.b.c.d, target i is the address a.b.c.i |
| Scanner.TargetsAvoidNetworkAndBroadcast | task3.cpp:111-113 | no target is a.b.c.0 or a.b.c.255 |
| Scanner.TargetsDistinct | task3.cpp:111-113 | the targets are pairwise distinct when nothing is truncated |
| Scanner.IsOpen | task3.cpp:62-91 | definition, no contract: socket created, connect succeeded or in progress, select returned 1 and SO_ERROR 0; `Scanner.OpenPortsMeans` uses it |
| Scanner.OpenPortsUpTo | task3.cpp:61-95 | at most one open port per port tried |
| Scanner.OpenPortsMeans | task3.cpp:61-97 | a port is reported open exactly when it is in 1 … 10 and its socket was created, connect succeeded or is in progress, select returned 1 and SO_ERROR is 0 |
| Scanner.OpenPortsAscend | task3.cpp:61 | reported ports strictly ascend within 1 … 10, so each is reported at most once |
| Scanner.SocketsCreated | task3.cpp:62-64 | at most one socket per port |
| Scanner.ScanPorts | task3.cpp:61-98 | ports 1 … 10 are tried in order, the open ones are those `OpenPortsMeans` characterises, and every socket created is closed |
| Scanner.Label | task3.cpp:93 | definition, no contract: the host column, the looked-up name or "Unknown" |
| Scanner.ReportsFor | task3.cpp:91-94 | one report line per open port |
| Scanner.Added | task3.cpp:52-58 | a lookup adds at most one host |
| Scanner.ScanHost | task3.cpp:45-99 | a successful lookup appends exactly one host {name, ip}, a failed one changes nothing, and one line is reported per open port |
| Scanner.Discovered | task3.cpp:111-116 | at most one host is recorded per target |
| Scanner.DiscoveredDistinct | task3.cpp:111-115 | every recorded host is one of the targets and no address is recorded twice |
| Scanner.ReportsUpTo | task3.cpp:111-116 | definition, no contract: the report lines of targets 1 … n, target by target, each the `Scanner.ReportsFor` of its label, address and open ports |
| Scanner.ScanTarget | task3.cpp:111-115 | one pass of the sweep: target i is built and scanned, so targets, recorded hosts and reports grow from those of targets 1 … i − 1 to those of 1 … i |
| Scanner.ScanTargets | task3.cpp:111-116 | the sweep scans targets 1 … 10 in order and leaves the host list holding its old entries followed by the hosts discovered, and the reports of all ten targets |
| Scanner.ScanNetwork | task3.cpp:101-117 | the local address, the ten targets, the hosts appended and the reports are those determined by the inputs |
| Scanner.RunScanner | task3.cpp:119-130 | from an empty list, the listing printed is exactly the hosts discovered by the sweep, in order |
| Scanner.ListingHasNoDuplicates | task3.cpp:111-115 | with an interface address, at most 10 hosts are recorded, each a target, no address twice, so the unchecked append into 256 entries cannot overflow |

## Left out

- The failing `socket` call of ping (task1.cpp:74-78), which returns before the loop and prints no statistics, is not modelled: `PingLoop` starts with an open socket. The same holds for traceroute's `socket` failure (task2.cpp:56-60).
- Sockets, the resolver and the OS are not modelled; their outcomes are inputs. This covers `socket` in the port scan, `sendto`, `recvfrom`, `connect`, `fcntl`, `select`, `getsockopt`, `setsockopt`, `close`, `getaddrinfo`, `gethostbyname`, `gethostbyaddr`, `getifaddrs`, `inet_pton` and `getpid`. `gethostbyaddr` is passed the address text at task3.cpp:52, so its result is an opaque oracle.
- Clocks, `sleep_for` and the `double` round-trip times with their `setprecision` output (task1.cpp:94-111, task2.cpp:93-118, 132-146) are left out; durations are given whole numbers.
- Parsing of received IP/ICMP headers through `ip_hl << 2` (task1.cpp:114-115, task2.cpp:121-122) is left out; the ICMP type, code, id and the sender are given.
- Argument handling and destination lookup are left out: `resolve_hostname`, `resolve_address` and `main` of task1.cpp (task1.cpp:44-62, 153-201), and the start of `main` in task2.cpp (task2.cpp:36-60). The PING banner (task1.cpp:84-85), the per-reply "bytes from … icmp_seq … ttl … time" line (task1.cpp:119-121) and the printed statistics lines (task1.cpp:143-150) are left out as output formatting.
- Host byte order and `struct icmp` are modelled as 16-bit words on a little-endian host: type in the low byte of word 0, code in its high byte, checksum, id and sequence number in words 1-3.
- Printed text is modelled as values, not characters: the hop lines (`HopLine`), open-port reports (`OpenReport`), the local address, targets and listing. The per-try "  *" of a timeout (task2.cpp:112), the `%3d` TTL column, perror messages and the "Received packet with ICMP type" line are not modelled.
- Ping.PingLoop: counts `received` with the corrected 16-bit id test `IsOwnReply`, not the source's comparison with the whole process id (see Findings). For process ids outside 0 … 65535 the source counts no reply at all (`Ping.ReceivedCountsAgree`), while the model counts the echo replies carrying the truncated id.
- Ping.PingLoop: requires `length ≤ 64`, because a larger `-l` value makes `sendto` and `checksum` read past the 64-byte send buffer.
- Ping.LossAsWritten: the `int` overflow of `(sent - received) * 100` for more than about 21 million requests is not modelled.
- Ping.Statistics: the `int` overflow of `std::accumulate` over very many durations is not modelled.
- Traceroute.Trace: `requests` holds every request built and passed to `sendto`, including those of tries whose `sendto` failed (task2.cpp:103-107); which of them actually left the host is not distinguished.
- Scanner.ScanNetwork: requires room for 10 more hosts, because the append at task3.cpp:57 has no capacity check; `RunScanner` meets this from an empty list.
- Scanner.ScanHost: requires room for one more host even when the lookup fails, for the same reason.
- Scanner.GetLocalIp: requires every interface to have an address, since a null `ifa_addr` would be dereferenced (task3.cpp:34). When no interface qualifies, `base_ip` is uninitialised in the source; the model takes its contents as the `buffer` input.
- Scanner.CutAtLastDot: the NUL written in place into `base_ip` is modelled as taking the prefix of a string value.
- Scanner.ScanHost: the `strcpy` of a host name longer than `NI_MAXHOST` into `Host.hostname` is not modelled.
- The scanner sweeps a fixed `/24`-style string prefix. The source has no netmask or broadcast arithmetic, no concurrency, no closed/filtered port states and no configurable ranges, so none is modelled.

## Findings

| source | as written | input that shows it | evidently intended | confidence | as-written member | corrected member |
|---|---|---|---|---|---|---|
| task1.cpp:117-118 | the 16-bit `icmp_id` of the reply is compared with the full `int` from `getpid()` | process id 70000: the request carries id 70000 mod 65536 = 4464, and the echo of it never equals 70000, so every reply is reported as foreign | compare with the 16 bits `create_packet` stored (task1.cpp:38) | not executed | Ping.LargePidRejectsOwnReply and Ping.ReceivedCountsAgree (about Ping.IsOwnReplyAsWritten and Ping.ReceivedCountAsWritten) | Ping.OwnReplyAccepted (about Ping.IsOwnReply, used by Ping.PingLoop) |
| task1.cpp:134 | loss is `((sent - received) * 100) / sent_packets` with no guard | `counts = 0` or every `sendto` failing leaves `sent_packets = 0`, an integer division by zero | report 0 % when nothing was sent | not executed | Ping.AllSendsFailedMeansNothingSent (the divisor of Ping.LossAsWritten is 0) | Ping.PacketLoss (used by Ping.Statistics) |
