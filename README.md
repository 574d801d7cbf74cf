# Network protocol testing: ARP-table parser and UDP echo / ping tester

A Dafny model of the two parsing and probing components of a small
network-diagnostics toolkit:

- `ARPRetriever.get_arp_table` asks a Cisco device over SSH for `show ip arp`.
  It splits the text it gets back into lines (`str.splitlines`) and searches
  each line for three patterns, with Python `re.search`:
  - an IPv4-shaped run `\d+\.\d+\.\d+\.\d+`;
  - a Cisco dotted MAC `([a-fA-F0-9]{4}\.){2}[a-fA-F0-9]{4}`;
  - a trailing token `(\S+)$`.

  A line becomes an entry `{ip, mac, interface}` only when all three searches
  succeed. Entries keep the order of their lines.
- `UDP_echo_tester` owns a UDP socket bound to a source address, with a fixed
  destination and a 2-second receive timeout.
  - `send_and_receive` sends one message and returns the text of the first
    datagram that comes back, or the sentinel `"No response (timeout)"`.
  - `ping` runs `ping -n <count> -l <size> <destination>` and reads the loss
    percentage from `(N% loss)` and the average round-trip time from
    `Average = Nms` in the output.

The modules:

| file | module | what it holds |
|---|---|---|
| `wrappers.dfy` | `Wrappers` | `Option` and `Result` |
| `chars.dfy` | `Chars` | character classes (`\d`, `\S`, line boundaries) and maximal runs |
| `lines.dfy` | `Lines` | `str.splitlines()` |
| `regex.dfy` | `Regex` | the five patterns, three ways: what each matches (a relation), a greedy matcher, and `re.search`. `re.search` is proved to report the leftmost match and the longest one at that start. `$` is read as the end of the text (see "Left out"). |
| `decimal.dfy` | `Decimal` | `str(int)` and reading it back |
| `arp_retriever.dfy` | `ArpRetriever` | line parsing, the table loop, and its properties |
| `udp_echo_tester.dfy` | `UdpEchoTester` | the reply mapping, the ping command line, and the parsing of ping's report |

Inputs the model does not compute are parameters:

- The text the SSH command printed is the `command` argument of `ParseTable` and `GetArpTable`.
- What the socket received is a `ReceiveOutcome` (`Received(data, sender)` or `TimedOut`).
- Running the `ping` process is a function from the argument vector to a `ProcessOutcome`.

Behaviour of the code worth noting:

- `ping` returns the two statistics as the digit strings the regular
  expressions captured (for example `"100"` and `"3"`), not as integers.
- The comment above the command line calls it the Linux/macOS variant. The
  flags are Windows `ping` flags: `-n` is the count and `-l` the size. The
  model builds the vector as written.
- The trailing-token search returns the last whitespace-free run only when
  the line ends in a non-whitespace character. A row with trailing blanks
  yields no entry.
- A time-out and a missing pattern are handled differently. A time-out of
  `send_and_receive` becomes the in-band sentinel text (`SentinelIsInBand`: an
  echo of that very text cannot be told apart from a time-out). A missing
  pattern in `ping` output is an error: Python raises there, by calling
  `.group(1)` on `None`.

## Model

| member | source | states |
|---|---|---|
| ArpRetriever.GetArpTable | ARP_retriever.py:47-70 | The loop over the lines returns exactly `ParseTable(command)`: for each line in turn, the entry of that line when it has one. |
| ArpRetriever.ParseTable | ARP_retriever.py:47-70 | There are never more entries than lines. Empty command output gives an empty table. |
| ArpRetriever.ParseTableFilter | ARP_retriever.py:57-68 | Entry `k` comes from line `idx[k]`. The indices strictly increase, so line order is kept. Every line that yields an entry is among them, so no entry is lost or invented. |
| ArpRetriever.Somes | ARP_retriever.py:63-68 | Keeping only the accepted outcomes never gives more values than there were outcomes. |
| ArpRetriever.ParseLine | ARP_retriever.py:58-68 | When a line yields an entry, the ip is non-empty, the mac is 14 characters long, and the interface is non-empty and ends the line. |
| ArpRetriever.ParseLineIff | ARP_retriever.py:58-63 | A line yields an entry if and only if all three patterns occur in it. |
| ArpRetriever.ParseLineFields | ARP_retriever.py:58-68 | Each field is the text of its pattern's leftmost match, that is, the longest match at the leftmost start. The interface is a match that ends at the end of the line. |
| ArpRetriever.EntryShape | ARP_retriever.py:52-68 | The ip is four dot-separated digit groups. The mac has the dotted hex shape and is 14 characters long. The interface is non-empty, holds no whitespace and is a suffix of the line. |
| ArpRetriever.TrailingTokenIff | ARP_retriever.py:54-60 | `(\S+)$` occurs in a line if and only if the line is non-empty and ends in a non-whitespace character. |
| ArpRetriever.TrailingSpaceSkipped | ARP_retriever.py:54-63 | A line ending in whitespace yields no entry, whatever else it holds. |
| ArpRetriever.NoDigitSkipped | ARP_retriever.py:52-63 | A line without a digit yields no entry. |
| ArpRetriever.HeaderSkipped | ARP_retriever.py:57-63 | The column-heading line yields no entry. |
| ArpRetriever.WellFormedRow | ARP_retriever.py:51-68 | In a row laid out as `Internet  <ip>   <age>   <mac>  ARPA  <interface>`, five conditions suffice to yield exactly those three fields: the ip is four dotted digit groups with no MAC in it, the age has no dot, the mac has the dotted hex shape, and the interface is non-empty and has no whitespace. |
| ArpRetriever.SampleRow | ARP_retriever.py:51 | The sample row, the literal text `Internet  192.168.1.1   10   aabb.cc00.0110  ARPA  Ethernet0/1`, yields `192.168.1.1`, `aabb.cc00.0110` and `Ethernet0/1`. |
| ArpRetriever.DigitGroupsChars | ARP_retriever.py:52 | A text an IPv4 match covers consists of digits and dots only. |
| Regex.MatchAt | ARP_retriever.py:52-54 | A match at a start position ends after it and within the text. |
| Regex.SearchFrom | ARP_retriever.py:58-60 | A search from a position reports a non-empty match that starts at or after it. |
| Regex.Search | ARP_retriever.py:58-60 | `re.search` reports a non-empty match within the text. |
| Regex.MatchAtLongest | ARP_retriever.py:52-54 | At one start position, the greedy matcher reports a match exactly when the pattern can match there, and its match is the longest one there. |
| Regex.SearchLeftmostLongest | ARP_retriever.py:58-60 | `re.search` reports a match that starts no later than any other match. At that start it reports the longest match. |
| Regex.SearchNoneIff | ARP_retriever.py:58-63 | `re.search` reports nothing if and only if the pattern occurs nowhere in the text. |
| Regex.SearchMatches | UDP_echo_tester.py:56-60 | What `re.search` reports is a match of the pattern. |
| Regex.LeftmostLongestUnique | UDP_echo_tester.py:56-60 | A leftmost-longest match is the one `re.search` reports. |
| Lines.SplitLines | ARP_retriever.py:57 | No line holds a line boundary. There are at most as many lines as characters. Only the empty text has no lines. The lemmas `SplitLast`, `SplitAtBoundary` and `SplitAtCrLf` below fix the lines of every text. |
| Lines.SplitLast | ARP_retriever.py:57 | Non-empty text without a boundary is exactly one line, so a last line without a newline is kept. |
| Lines.SplitAtBoundary | ARP_retriever.py:57 | A single boundary character (`\n`, `\r`, `\v`, `\f`, `\x1c`-`\x1e`, `\x85`, `\u2028`, `\u2029`) ends the line before it. The text after it is split on its own. A `\r` followed by `\n` is the exception. |
| Lines.SplitAtCrLf | ARP_retriever.py:57 | `\r\n` ends the line before it as one boundary, and the text after it is split on its own. |
| Lines.SplitJoin | ARP_retriever.py:57 | Splitting text of boundary-free lines, each ended by a newline, gives those lines back. |
| Chars.RunEnd | ARP_retriever.py:52-54 | A greedy `\d+` or `\S+` run (or a run of non-boundary characters) holds only characters of its class. It stops at the end of the text or before a character outside the class. |
| Chars.RunEndLongest | ARP_retriever.py:52-54 | No run of the class from the same start reaches past where the greedy run stops. |
| Decimal.IntToString | UDP_echo_tester.py:50 | `str(n)` starts with a minus sign exactly when `n` is negative, followed by digits with no leading zero; a non-negative `n` gives digits only, starting with `0` only for zero. |
| Decimal.NatToString | UDP_echo_tester.py:50 | `str` of a natural number is a non-empty digit string without a leading zero, except for zero itself. |
| Decimal.IntToStringRoundTrip | UDP_echo_tester.py:50 | The text `str` gives an integer reads back as that integer. |
| Decimal.IntToStringInjective | UDP_echo_tester.py:50 | Different integers get different texts. |
| UdpEchoTester.Tester.constructor | UDP_echo_tester.py:13-26 | The source and destination are the (address, port) pairs given, by default `("192.168.1.4", 1233)` and `("8.8.8.8", 53)`. The timeout is 2 seconds, and nothing has been sent yet. |
| UdpEchoTester.Tester.SendAndReceive | UDP_echo_tester.py:34-39 | Exactly one datagram, the message to the destination, is added to what was sent. A timeout returns `"No response (timeout)"`, and a received datagram returns its text. |
| UdpEchoTester.Reply | UDP_echo_tester.py:36-39 | A time-out gives the sentinel. A received datagram gives its text. |
| UdpEchoTester.ReplyIgnoresSender | UDP_echo_tester.py:36-37 | The reply does not depend on who sent the datagram. |
| UdpEchoTester.SentinelIsInBand | UDP_echo_tester.py:37-39 | A received `"No response (timeout)"` reads the same as a timeout, though the two outcomes differ. |
| UdpEchoTester.Tester.PingCommand | UDP_echo_tester.py:50 | The vector has six elements: `ping`, `-n`, the count's decimal text, `-l`, the size's decimal text, and the destination address. The two texts are exactly `str(count)` and `str(packet_size)`, and they read back as the count and the size. |
| UdpEchoTester.Tester.Ping | UDP_echo_tester.py:50-65 | A report is produced only when the process ran and exited with status 0. An exit with status 0 yields exactly the parse of its output. A process that could not start gives `CommandNotStarted`, and a non-zero exit gives `CommandFailed` with that status. |
| UdpEchoTester.ParsePingOutput | UDP_echo_tester.py:55-60 | Parsing fails only because one of the two patterns is missing. |
| UdpEchoTester.ParsePingOutcome | UDP_echo_tester.py:55-60 | A report is produced if and only if both patterns occur. A missing loss pattern is the error reported when it is absent, whether or not the average is there. A missing average is reported only when the loss pattern is present. |
| UdpEchoTester.ParsePingFields | UDP_echo_tester.py:55-65 | The packet loss is the digit group of the first `(N% loss)`. The average RTT is the digit group of the first `Average = Nms`. |
| UdpEchoTester.ReportDigits | UDP_echo_tester.py:55-65 | Both statistics are non-empty strings of decimal digits. |
| UdpEchoTester.ReportOfFigures | UDP_echo_tester.py:54-65 | An output with `(L% loss)` and later `Average = Rms` yields exactly `L` and `R` when nothing before them could start an earlier match. |
| UdpEchoTester.SampleReport | UDP_echo_tester.py:54-58 | The two sample lines, `... Lost = 1 (100% loss)` and `... Maximum = 3ms, Average = 3ms`, give `"100"` and `"3"`. |

## Left out

- The SSH session (`ConnectHandler`, `send_command('show ip arp')`) is not modelled: the text it returns is the input of `ParseTable`.
- Socket I/O is not modelled:
  - `socket`, `bind`, `settimeout` and the wait itself are left out. `timeoutSeconds` records the configured value only.
  - The 1024-byte limit of `recvfrom` is left out.
  - UTF-8 encoding and decoding act as the identity on strings: messages are `string`, not bytes.
  - Bind failures and other socket errors are left out.
- `subprocess.check_output` is a function parameter from the argument vector to a `ProcessOutcome`:
  - a non-zero exit, which Python raises as `CalledProcessError`, becomes `CommandFailed`;
  - a missing executable becomes `CommandNotStarted`.
- A missing pattern in `ping` output, which Python raises as `AttributeError` on `None.group(1)`, becomes a `Failure` value.
- `\d` is ASCII digits only; Python's `\d` on `str` also accepts other Unicode decimal digits.
- Regex.Matches: `$` in `(\S+)$` is modelled as the end of the text only. Python's `$` also matches just before a final `"\n"`, so `re.search(r'(\S+)$', "ab\n")` finds `ab` where `Search(TrailingToken, "ab\n")` finds nothing. The two agree on every text without a line boundary, which includes every line `splitlines` produces and so every line the scanner searches. `TrailingTokenIff` and `TrailingSpaceSkipped` are stated for any text. For a text that ends in `"\n"` they describe the model's `$`, not Python's.
- `\s` and the `splitlines` boundaries use Python's sets of whitespace and line-boundary characters.
- `Napalm_interfaces.py` and the `__main__` demonstration blocks of both files are not part of this model.
- UdpEchoTester.SampleReport: the sample round-trip line is preceded by the statistics line and a newline, and followed by a final newline, to form one output text. The rest of a real Windows `ping` report (the per-reply lines) is not included.
- ArpRetriever.WellFormedRow: it covers rows with the column spacing of the sample row. Other spacings are covered by the general lemmas only (`ParseLineIff`, `ParseLineFields`, `EntryShape`).
