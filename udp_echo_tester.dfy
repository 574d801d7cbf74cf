/**
 * The UDP echo tester: a socket bound to a source address that sends a
 * message to a fixed destination and reads back one datagram, and a wrapper
 * around the system `ping` command that reads the packet loss and the
 * average round-trip time out of its report.
 *
 * The network and the `ping` process are not modelled: what the socket
 * receives and what the process prints are inputs.
 */
module UdpEchoTester {
  import opened Wrappers
  import opened Chars
  import opened Regex
  import opened Decimal

  /** An IPv4 address and a port, as the socket API takes them. */
  type Address = (string, int)

  /** A message the socket sent, and where to. */
  datatype Datagram = Datagram(payload: string, to: Address)

  /** What `recvfrom` gives back within the timeout: a datagram's text and its sender, or nothing. */
  datatype ReceiveOutcome = Received(data: string, sender: Address) | TimedOut

  /** How the `ping` process ended: its exit status and what it printed, or it could not be started. */
  datatype ProcessOutcome = Exited(returnCode: int, output: string) | NotStarted

  /** The two statistics `ping` reports, kept as the digit strings found in its output. */
  datatype PingReport = PingReport(packetLoss: string, avgRtt: string)

  /** Why `ping` produced no report. */
  datatype PingError =
    | CommandNotStarted          // the executable could not be run
    | CommandFailed(code: int)   // it exited with a non-zero status
    | LossNotFound               // no "(N% loss)" in the output
    | AverageNotFound            // no "Average = Nms" in the output

  /** The text returned in place of an echo when nothing arrives in time. */
  const NoResponse: string := "No response (timeout)"

  /** The text `send_and_receive` returns for what the socket received. */
  function Reply(outcome: ReceiveOutcome): (reply: string)
    ensures outcome.Received? ==> reply == outcome.data
    ensures outcome.TimedOut? ==> reply == NoResponse
  {
    match outcome
    case Received(data, _) => data
    case TimedOut => NoResponse
  }

  /** A reply depends on the datagram's text only: who sent it is not checked. */
  lemma ReplyIgnoresSender(data: string, a: Address, b: Address)
    ensures Reply(Received(data, a)) == Reply(Received(data, b)) == data
  {
  }

  /** The sentinel is in-band: an echo of that very text reads the same as a timeout. */
  lemma SentinelIsInBand(sender: Address)
    ensures Reply(Received(NoResponse, sender)) == Reply(TimedOut)
    ensures Received(NoResponse, sender) != TimedOut
  {
  }

  /** The digits of the loss percentage and the average round-trip time, from `ping`'s output. */
  function ParsePingOutput(out: string): (r: Result<PingReport, PingError>)
    ensures r.Failure? ==> r.error == LossNotFound || r.error == AverageNotFound
  {
    match Search(LossToken, out)
    case None => Failure(LossNotFound)
    case Some(loss) =>
      match Search(AverageToken, out)
      case None => Failure(AverageNotFound)
      case Some(avg) =>
        SearchMatches(LossToken, out);
        SearchMatches(AverageToken, out);
        Success(PingReport(out[loss.start + 1..loss.end - 7], out[avg.start + 10..avg.end - 2]))
  }

  /**
   * The output yields a report exactly when both patterns occur in it; the
   * loss pattern is looked for first, so its absence is the error reported
   * whenever it is missing.
   */
  lemma ParsePingOutcome(out: string)
    ensures ParsePingOutput(out).Success? <==> HasMatch(LossToken, out) && HasMatch(AverageToken, out)
    ensures ParsePingOutput(out) == Failure(LossNotFound) <==> !HasMatch(LossToken, out)
    ensures ParsePingOutput(out) == Failure(AverageNotFound) <==> HasMatch(LossToken, out) && !HasMatch(AverageToken, out)
  {
    SearchNoneIff(LossToken, out);
    SearchNoneIff(AverageToken, out);
  }

  /** Each statistic is the digit group of its pattern's first occurrence in the output. */
  lemma ParsePingFields(out: string)
    requires ParsePingOutput(out).Success?
    ensures exists i: nat, e: nat ::
      LeftmostLongest(LossToken, out, i, e) && i + 1 <= e - 7 && ParsePingOutput(out).value.packetLoss == out[i + 1..e - 7]
    ensures exists i: nat, e: nat ::
      LeftmostLongest(AverageToken, out, i, e) && i + 10 <= e - 2 && ParsePingOutput(out).value.avgRtt == out[i + 10..e - 2]
  {
    var loss, avg := Search(LossToken, out).value, Search(AverageToken, out).value;
    SearchLeftmostLongest(LossToken, out);
    SearchLeftmostLongest(AverageToken, out);
    assert LeftmostLongest(LossToken, out, loss.start, loss.end);
    assert LeftmostLongest(AverageToken, out, avg.start, avg.end);
  }

  /** The digit group of a loss match is a non-empty string of digits. */
  lemma LossDigits(s: string, i: nat, e: nat)
    requires Matches(LossToken, s, i, e)
    ensures i + 1 < e - 7 && All(s[i + 1..e - 7], Digit)
  {
    var t, d := s[i..e], s[i + 1..e - 7];
    assert |t| >= 9 && All(t[1..|t| - 7], Digit);
    forall k | 0 <= k < |d|
      ensures In(d[k], Digit)
    {
      assert d[k] == t[1..|t| - 7][k];
    }
  }

  /** The digit group of an average match is a non-empty string of digits. */
  lemma AverageDigits(s: string, i: nat, e: nat)
    requires Matches(AverageToken, s, i, e)
    ensures i + 10 < e - 2 && All(s[i + 10..e - 2], Digit)
  {
    var t, d := s[i..e], s[i + 10..e - 2];
    assert |t| >= 13 && All(t[10..|t| - 2], Digit);
    forall k | 0 <= k < |d|
      ensures In(d[k], Digit)
    {
      assert d[k] == t[10..|t| - 2][k];
    }
  }

  /** Both statistics are non-empty strings of decimal digits. */
  lemma ReportDigits(out: string)
    requires ParsePingOutput(out).Success?
    ensures |ParsePingOutput(out).value.packetLoss| > 0 && All(ParsePingOutput(out).value.packetLoss, Digit)
    ensures |ParsePingOutput(out).value.avgRtt| > 0 && All(ParsePingOutput(out).value.avgRtt, Digit)
  {
    var loss, avg := Search(LossToken, out).value, Search(AverageToken, out).value;
    SearchMatches(LossToken, out);
    SearchMatches(AverageToken, out);
    LossDigits(out, loss.start, loss.end);
    AverageDigits(out, avg.start, avg.end);
  }

  /**
   * Where "(", a run of digits up to `e`, and "% loss)" stand at `i`, and no
   * "(" comes before `i`, the loss pattern is found there.
   */
  lemma LossFoundAt(s: string, i: nat, e: nat)
    requires i + 1 < e && e + 7 <= |s|
    requires s[i] == '(' && All(s[i + 1..e], Digit) && s[e..e + 7] == "% loss)"
    requires forall j: nat :: j < i ==> s[j] != '('
    ensures Search(LossToken, s) == Some(Span(i, e + 7))
  {
    assert s[e] == s[e..e + 7][0];
    RunEndUnique(s, i + 1, Digit, e);
    MatchAtLongest(LossToken, s, i);
    forall j: nat, f: nat | Matches(LossToken, s, j, f)
      ensures i <= j
    {
      assert s[j] == s[j..f][0];
    }
    LeftmostLongestUnique(LossToken, s, i, e + 7);
  }

  /**
   * Where "Average = ", a run of digits up to `e`, and "ms" stand at `i`, and
   * no "Av" comes before `i`, the average pattern is found there.
   */
  lemma AverageFoundAt(s: string, i: nat, e: nat)
    requires i + 10 < e && e + 2 <= |s|
    requires s[i..i + 10] == "Average = " && All(s[i + 10..e], Digit) && s[e..e + 2] == "ms"
    requires forall j: nat :: j + 1 < i ==> s[j] != 'A' || s[j + 1] != 'v'
    ensures Search(AverageToken, s) == Some(Span(i, e + 2))
  {
    assert s[e] == s[e..e + 2][0];
    assert s[i] == s[i..i + 10][0];
    RunEndUnique(s, i + 10, Digit, e);
    MatchAtLongest(AverageToken, s, i);
    forall j: nat, f: nat | Matches(AverageToken, s, j, f)
      ensures i <= j
    {
      var t := s[j..f];
      assert s[j] == t[0] && s[j + 1] == t[1];
    }
    LeftmostLongestUnique(AverageToken, s, i, e + 2);
  }

  /**
   * Where both patterns stand where `LossFoundAt` and `AverageFoundAt` find
   * them, the report holds the two digit runs.
   */
  lemma ReportAt(s: string, i: nat, e: nat, k: nat, f: nat)
    requires i + 1 < e && e + 7 <= |s|
    requires s[i] == '(' && All(s[i + 1..e], Digit) && s[e..e + 7] == "% loss)"
    requires forall j: nat :: j < i ==> s[j] != '('
    requires k + 10 < f && f + 2 <= |s|
    requires s[k..k + 10] == "Average = " && All(s[k + 10..f], Digit) && s[f..f + 2] == "ms"
    requires forall j: nat :: j + 1 < k ==> s[j] != 'A' || s[j + 1] != 'v'
    ensures ParsePingOutput(s) == Success(PingReport(s[i + 1..e], s[k + 10..f]))
  {
    LossFoundAt(s, i, e);
    AverageFoundAt(s, k, f);
  }

  /**
   * A report with the loss figure in "(N% loss)" and the average in
   * "Average = Nms" yields exactly those digits, provided nothing before them
   * could start an earlier match: no "(" and no "A" before the loss figure,
   * and no "v" between it and the average.
   */
  lemma ReportOfFigures(pre: string, loss: string, mid: string, rtt: string, post: string)
    requires |loss| > 0 && All(loss, Digit) && |rtt| > 0 && All(rtt, Digit)
    requires '(' !in pre && 'A' !in pre && 'v' !in mid
    ensures ParsePingOutput(pre + "(" + loss + "% loss)" + mid + "Average = " + rtt + "ms" + post)
      == Success(PingReport(loss, rtt))
  {
    var s := pre + "(" + loss + "% loss)" + mid + "Average = " + rtt + "ms" + post;
    var i, e := |pre|, |pre| + 1 + |loss|;
    var k, f := e + 7 + |mid|, e + 17 + |mid| + |rtt|;
    assert s[i] == '(';
    assert s[i + 1..e] == loss;
    assert s[e..e + 7] == "% loss)";
    assert s[k..k + 10] == "Average = ";
    assert s[k + 10..f] == rtt;
    assert s[f..f + 2] == "ms";
    forall j: nat | j < i
      ensures s[j] != '('
    {
      assert s[j] == pre[j];
    }
    forall j: nat | j + 1 < k
      ensures s[j] != 'A' || s[j + 1] != 'v'
    {
      if j < i {
        assert s[j] == pre[j];
      } else if i < j < e {
        assert s[j] == loss[j - i - 1];
      } else if e <= j < e + 7 {
        assert s[j] == "% loss)"[j - e];
      } else if e + 7 <= j {
        assert s[j + 1] == mid[j + 1 - (e + 7)];
      }
    }
    ReportAt(s, i, e, k, f);
  }

  /** The statistics line of the sample report, up to the loss figure. */
  const SampleStats: string := "Packets: " + "Sent = 1, " + "Received " + "= 0, " + "Lost = 1 "

  /** The round-trip line of the sample report, up to the average. */
  const SampleTimes: string :=
    "\nApproximate " + "round trip " + "times in " + "milli-seconds: " + "Minimum = 3ms, " + "Maximum = 3ms, "

  lemma SampleStatsFree()
    ensures '(' !in SampleStats && 'A' !in SampleStats
  {
    assert '(' !in "Packets: " && 'A' !in "Packets: ";
    assert '(' !in "Sent = 1, " && 'A' !in "Sent = 1, ";
    assert '(' !in "Received " && 'A' !in "Received ";
    assert '(' !in "= 0, " && 'A' !in "= 0, ";
    assert '(' !in "Lost = 1 " && 'A' !in "Lost = 1 ";
  }

  lemma SampleTimesFree()
    ensures 'v' !in SampleTimes
  {
    assert 'v' !in "\nApproximate ";
    assert 'v' !in "round trip ";
    assert 'v' !in "times in ";
    assert 'v' !in "milli-seconds: ";
    assert 'v' !in "Minimum = 3ms, ";
    assert 'v' !in "Maximum = 3ms, ";
  }

  /** The sample lines: "Lost = 1 (100% loss)" and "... Average = 3ms" give "100" and "3". */
  lemma SampleReport()
    ensures ParsePingOutput(SampleStats + "(" + "100" + "% loss)" + SampleTimes + "Average = " + "3" + "ms" + "\n")
      == Success(PingReport("100", "3"))
  {
    SampleStatsFree();
    SampleTimesFree();
    assert All("100", Digit) && All("3", Digit);
    ReportOfFigures(SampleStats, "100", SampleTimes, "3", "\n");
  }

  /** The tester object: its socket's addresses, its receive timeout, and what it has sent. */
  class Tester {
    const src: Address
    const dst: Address
    const timeoutSeconds: nat
    /** The datagrams handed to the socket so far, oldest first. */
    var sent: seq<Datagram>

    constructor (srcIp: string := "192.168.1.4", srcPort: int := 1233,
                 dstIp: string := "8.8.8.8", dstPort: int := 53)
      ensures src == (srcIp, srcPort) && dst == (dstIp, dstPort)
      ensures timeoutSeconds == 2 && sent == []
    {
      src := (srcIp, srcPort);
      dst := (dstIp, dstPort);
      timeoutSeconds := 2;
      sent := [];
    }

    /** Sends `message` to the destination, then returns the text of what comes back. */
    method SendAndReceive(message: string, outcome: ReceiveOutcome) returns (reply: string)
      modifies this
      ensures sent == old(sent) + [Datagram(message, dst)]
      ensures outcome.TimedOut? ==> reply == NoResponse
      ensures outcome.Received? ==> reply == outcome.data
    {
      sent := sent + [Datagram(message, dst)];
      reply := Reply(outcome);
    }

    /** The argument vector `ping` is run with. */
    function PingCommand(packetSize: int, count: int): (argv: seq<string>)
      ensures |argv| == 6 && argv[0] == "ping" && argv[1] == "-n" && argv[3] == "-l"
      ensures argv[2] == IntToString(count) && argv[4] == IntToString(packetSize)
      ensures ParseInt(argv[2]) == Some(count) && ParseInt(argv[4]) == Some(packetSize)
      ensures argv[5] == dst.0
    {
      IntToStringRoundTrip(count);
      IntToStringRoundTrip(packetSize);
      ["ping", "-n", IntToString(count), "-l", IntToString(packetSize), dst.0]
    }

    /** Runs `ping` against the destination through `run` and reads the report from its output. */
    function Ping(run: seq<string> -> ProcessOutcome, packetSize: int := 100, count: int := 10)
      : (r: Result<PingReport, PingError>)
      ensures r.Success? ==>
        run(PingCommand(packetSize, count)).Exited? && run(PingCommand(packetSize, count)).returnCode == 0
      ensures run(PingCommand(packetSize, count)).Exited? && run(PingCommand(packetSize, count)).returnCode == 0 ==>
        r == ParsePingOutput(run(PingCommand(packetSize, count)).output)
      ensures run(PingCommand(packetSize, count)).NotStarted? ==> r == Failure(CommandNotStarted)
      ensures run(PingCommand(packetSize, count)).Exited? && run(PingCommand(packetSize, count)).returnCode != 0 ==>
        r == Failure(CommandFailed(run(PingCommand(packetSize, count)).returnCode))
    {
      match run(PingCommand(packetSize, count))
      case NotStarted => Failure(CommandNotStarted)
      case Exited(code, out) =>
        if code != 0 then Failure(CommandFailed(code)) else ParsePingOutput(out)
    }
  }
}
