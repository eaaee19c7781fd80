# Network traffic profile, modelled in Dafny

This project models the core of `network_profile.py`, a small tool that
profiles the traffic of one host from a packet capture. The model covers
four parts:

- **The capture filter** (`CaptureFilter`). It holds the table from
  application name to protocol clause, and it builds the expression handed
  to the external capture tool: `"<clause> and host <ip>"` when an
  application is given, `"host <ip>"` otherwise. A parser inverts the
  builder, and the round trip is proved.
- **The profiler** (`Profiling`). `ProfileSessions` is a single pass over
  the decoded packets. It keeps the packets that have both an IP and a TCP
  layer, and it tracks the first and the last timestamp the way the source
  does, including Python truthiness. It then groups the kept packets into
  sessions and computes:
  - the duration;
  - the packet and session counts;
  - `avg_pps`, which is duration divided by packet count;
  - the packets-to-sessions ratio.

  The method is proved equal to the specification function `ProfileOf`, and
  the lemmas state what the profile means.
- **Sessions** (`Sessions`). The packet library's session grouping is
  modelled as a map from a session key to the in-order packets carrying that
  key. The key function is a parameter of the model.
- **The application filters** (`Filters`). `FilterHttp`, `FilterDns` and
  `FilterIcmp` are loops that keep, in order, the packets whose HTTP method,
  DNS query type or ICMP message type is accepted. Each is proved to return
  exactly the in-order selection `Select` of its predicate. The HTTP filter
  fails on an HTTP layer without a method, and the DNS filter on a DNS query
  with an empty question section.

Supporting modules:

- `Wrappers` defines `Option` and `Result`.
- `Packets` holds the decoded packet as a value: timestamp, which layers are
  present, and the HTTP, DNS and ICMP fields the filters read.
- `Selection` defines the generic in-order selection and proves it:
  - it is a subsequence of its input;
  - it keeps every satisfying element with its multiplicity;
  - it is the only subsequence with these properties.

## Behaviour the model reproduces

- **Missing DNS question.** `filter_dns` reads the first question of every
  UDP DNS query without checking that one exists. A query with an empty
  question section therefore raises, and the whole filter aborts with it.
- **Missing HTTP method.** `filter_http` reads the `Method` field of every
  HTTP layer on a TCP packet without checking that it exists. A layer
  without it, such as a response, aborts the filter in the same way.
- **The profile's only error.** `profile_sessions` fails only when no packet
  has both IP and TCP: the first timestamp is then still `None`, and
  converting it raises. Whenever a packet is kept there is at least one
  session, so the two divisions never divide by zero.
- **Port clauses.** The table maps `DNS` to `tcp port 53` and `ICMP` to
  `tcp port 8`, both TCP clauses, and `http` and `HTTP` to the same clause.

## Model

| member | source | states |
|---|---|---|
| Selection.Select | network_profile.py:16-29 | the kept packets are no more than the input, all satisfy the test, and a packet is kept iff it is in the input and passes the test |
| Selection.SelectPrefixStep | network_profile.py:42-48 | one more input element appends itself to the selection exactly when it passes the test, as the loops' `append` does |
| Selection.SelectEmpty | network_profile.py:16-29 | nothing is kept iff no input element passes the test |
| Selection.SelectIsSubsequence | network_profile.py:41-49 | the filtered list is the input with elements dropped, order kept |
| Selection.SelectCounts | network_profile.py:41-49 | every passing element is kept as often as it occurs, and no failing one is kept |
| Selection.SelectUnique | network_profile.py:41-49 | any subsequence that keeps exactly the passing elements equals the selection, so the filters' result is determined |
| Sessions.SessionsOf | network_profile.py:32 | the sessions are keyed by the distinct keys of the packets, and each session holds, in order, exactly the packets with its key |
| Sessions.SessionCountBounds | network_profile.py:35-37 | there are at most as many sessions as packets, and at least one when there is a packet |
| Sessions.SessionsPartition | network_profile.py:32 | every packet belongs to the session of its own key and to no other |
| Profiling.IsTcpIp | network_profile.py:17-20 | a packet is kept by the profiler iff it has an IP layer and a TCP layer |
| Profiling.Truthy | network_profile.py:21-24 | a running timestamp counts as set iff it is present and not 0.0, as `not x` decides |
| Profiling.Step | network_profile.py:21-28 | one loop iteration on a kept timestamp: falsy running values are replaced by it, then it lowers the first or else raises the last |
| Profiling.StepKeepsOrder | network_profile.py:21-28 | one timestamp update keeps first <= last and sets both; on truthy running values it takes the minimum and the maximum |
| Profiling.ObserveTimestamp | network_profile.py:21-28 | the truthiness resets followed by the `<` / `elif >` updates are one scan step |
| Profiling.Scan | network_profile.py:14-29 | the running timestamps are set exactly when some TCP/IP packet was seen |
| Profiling.ScanOrdered | network_profile.py:21-28 | after any scan, first <= last, and both are timestamps of kept packets |
| Profiling.ProfileOf | network_profile.py:11-38 | the profile of a capture: the scan over the TCP/IP packets' timestamps, the session grouping and the record; it fails iff no TCP/IP packet was kept |
| Profiling.MakeProfile | network_profile.py:33-37 | duration is end minus start; `avg_pps` times the packet count is the duration; the ratio times the session count is the packet count, and the ratio is at least 1 when sessions <= packets |
| Profiling.ProfileSessions | network_profile.py:11-38 | the single pass returns exactly the profile `ProfileOf` defines, or its failure |
| Profiling.ProfileCounts | network_profile.py:30-37 | the profile fails iff no packet has IP and TCP; otherwise it counts the TCP/IP packets and their distinct sessions, 1 <= sessions <= packets, `avg_pps` times the packet count is the duration, and the ratio is at least 1 |
| Profiling.ProfileTimestamps | network_profile.py:21-34 | start <= end, the duration is their non-negative difference, both are kept timestamps, and without zero timestamps they bound every kept timestamp |
| Profiling.StepFixed | network_profile.py:21-28 | the corrected loop iteration: running values are replaced only when `None` |
| Profiling.ScanFixed | network_profile.py:14-29 | the corrected scan, folding `StepFixed` over the kept timestamps |
| Profiling.ScanFixedIsMinMax | network_profile.py:21-28 | the scan with `None` tests yields the minimum and the maximum of any non-empty timestamp sequence |
| Profiling.ScanAgreesWithoutZero | network_profile.py:21-24 | without a zero timestamp, the truthiness tests and the `None` tests agree |
| Profiling.ZeroTimestampLosesStart | network_profile.py:21-24 | for TCP packets at 0.0 and 5.0, the profile as written starts at 5.0 with duration 0, while the corrected scan gives 0.0 and 5.0 |
| Profiling.TwoPacketSession | network_profile.py:11-38 | two packets of one session at 10.0 and 12.5 give duration 2.5, two packets, one session, `avg_pps` 1.25 and ratio 2.0 |
| Filters.HttpMatch | network_profile.py:43-48 | a packet is kept by the HTTP filter iff it has TCP and an HTTP layer whose method is accepted |
| Filters.LacksMethod | network_profile.py:43-47 | a TCP packet whose HTTP layer has no method, on which the method read fails |
| Filters.DnsMatch | network_profile.py:56-61 | a packet is kept by the DNS filter iff it has UDP and a DNS query (`qr` 0) whose first question's type is accepted |
| Filters.LacksQuestion | network_profile.py:56-60 | a UDP DNS query with no question, on which `qd[0]` fails |
| Filters.IcmpMatch | network_profile.py:68-73 | a packet is kept by the ICMP filter iff it has IP and an ICMP layer whose type is accepted |
| Filters.FilterHttp | network_profile.py:40-49 | it fails iff some TCP packet's HTTP layer has no method, reporting the first one; otherwise the result is exactly the in-order TCP packets whose HTTP method is accepted |
| Filters.FilterDns | network_profile.py:52-62 | it fails iff some DNS query over UDP has no question, reporting the first one; otherwise the result is exactly the in-order UDP DNS queries whose first question type is accepted |
| Filters.FilterIcmp | network_profile.py:64-74 | the result is exactly the in-order IP packets whose ICMP type is accepted |
| Filters.HttpGetScenario | network_profile.py:40-49 | filtering GET, POST, GET requests for GET keeps the first and the third, in order |
| Filters.DnsResponseIgnored | network_profile.py:60 | a DNS response (`qr` not 0) is never kept and never makes the filter fail |
| CaptureFilter.AppFilters | network_profile.py:8 | the six application names and their protocol clauses |
| CaptureFilter.ClausesAreTableValues | network_profile.py:8 | the parser's clause list holds exactly the clauses of the table |
| CaptureFilter.PacketFilter | network_profile.py:88-93 | the lookup fails iff a non-empty application name is missing from the table; on success the expression ends with `host <ip>` |
| CaptureFilter.ParseBuild | network_profile.py:88-93 | the built expression parses back to the table's clause for the application (or none) and the host |
| CaptureFilter.ClauseOfBuilt | network_profile.py:8 | no table clause followed by " and host " is a prefix of another clause's expression, so the clause is recovered |

## Left out

- Reading the capture file and running the external capture tool with the filter expression are I/O. The model starts from the decoded packets and ends at the filter string.
- The packet library's decoding is not part of this model. Packets are values that record which layers are present and the fields that are read.
- The session key is a parameter `key`. How the library derives it from addresses, ports and protocol is not part of this model.
- Argument parsing, progress messages and writing the profile as JSON are I/O and are not modelled.
- Profiling.ProfileSessions: timestamps and the profile's fractions are exact reals, not IEEE doubles. `float(...)` conversions and rounding are not modelled.
- Filters.FilterHttp: the accepted methods are a set of strings. The source calls `methods()` to get them, and the result of that call is the parameter.
- Filters.FilterHttp: the HTTP method is kept as a decoded string. `.decode()` on bytes, and its failure on invalid UTF-8, are not modelled.
- CaptureFilter.PacketFilter: the argument parser only admits names from the table. The lookup failure is still modelled, because the lookup itself raises on any other name.

## Findings

| source | as written | input that shows it | evidently intended | confidence | as-written member | corrected member |
|---|---|---|---|---|---|---|
| network_profile.py:21-24 | `if not first_timestamp` / `if not last_timestamp` treat a 0.0 timestamp like a missing one and overwrite it | TCP/IP packets at 0.0 and 5.0 give start 5.0 and duration 0 | test `is None`, so that start and end are the minimum and the maximum timestamp | not executed | Profiling.ZeroTimestampLosesStart | Profiling.ScanFixedIsMinMax |
