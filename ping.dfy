/**
 * The ping tool (task1.cpp): filling an ICMP echo request, the per-request counters
 * of the send/receive loop, and the summary statistics.
 *
 * Socket calls, clocks and `getpid()` are inputs: each request's outcome is an
 * `Exchange`, durations are whole milliseconds, and the process id is a parameter.
 */
module Ping {
  import opened Icmp

  /**
   * `create_packet(icmph, seq, length)`: sets type, code, id and sequence number, zeroes
   * the checksum field and then stores the checksum of the first `length` bytes in it.
   */
  method CreatePacket(buf: array<uint16>, seqNo: int, length: int, pid: int)
    requires buf.Length >= 4 && length <= 2 * buf.Length
    modifies buf
    ensures IsEchoHeader(buf[..], seqNo, pid)
    ensures buf[CKSUM_WORD] == WrappedChecksum(buf[..][CKSUM_WORD := 0], length)
    ensures forall k :: 4 <= k < buf.Length ==> buf[k] == old(buf[k])
    ensures 4 <= length <= MAX_EXACT_LEN ==> InternetChecksum(buf[..], length) == 0
  {
    buf[TYPE_CODE_WORD] := TypeCodeWord(ICMP_ECHO, 0);
    buf[ID_WORD] := Truncate16(pid);
    buf[SEQ_WORD] := Truncate16(seqNo);
    buf[CKSUM_WORD] := 0;
    ghost var zeroed := buf[..];
    var c := Checksum(buf, length);
    buf[CKSUM_WORD] := c;
    assert buf[..] == zeroed[CKSUM_WORD := c];
    assert buf[..][CKSUM_WORD := 0] == zeroed;
    if 4 <= length <= MAX_EXACT_LEN {
      VerifiesToZero(zeroed, length, CKSUM_WORD);
    }
  }

  /** What one pass of the request loop observes. */
  datatype Exchange =
    | SendFailed                                      // sendto returned <= 0
    | NoReply                                         // recvfrom returned <= 0
    | Reply(rtt: nat, icmpType: int, icmpId: uint16)  // a packet came back after rtt milliseconds

  /** The reply test as written: the 16-bit `icmp_id` is compared with the whole process id. */
  predicate IsOwnReplyAsWritten(icmpType: int, icmpId: uint16, pid: int)
  {
    icmpType == ICMP_ECHOREPLY && icmpId as int == pid
  }

  /** The reply test as intended: compared with the 16 bits of the id that create_packet sent. */
  predicate IsOwnReply(icmpType: int, icmpId: uint16, pid: int)
  {
    icmpType == ICMP_ECHOREPLY && icmpId == Truncate16(pid)
  }

  /** With a process id of 70000 the echo of our own request (id 70000 mod 65536) is rejected as written. */
  lemma LargePidRejectsOwnReply()
    ensures !IsOwnReplyAsWritten(ICMP_ECHOREPLY, Truncate16(70000), 70000)
    ensures IsOwnReply(ICMP_ECHOREPLY, Truncate16(70000), 70000)
  {
  }

  /**
   * An echo reply carrying the id of a request built by CreatePacket is recognised by the
   * intended test, and by the test as written exactly when the process id fits 16 bits.
   */
  lemma OwnReplyAccepted(packet: seq<uint16>, seqNo: int, pid: int)
    requires |packet| >= 4 && IsEchoHeader(packet, seqNo, pid)
    ensures IsOwnReply(ICMP_ECHOREPLY, packet[ID_WORD], pid)
    ensures IsOwnReplyAsWritten(ICMP_ECHOREPLY, packet[ID_WORD], pid) <==> 0 <= pid < 0x1_0000
  {
  }

  /** `sent_packets` after the given exchanges. */
  function SentCount(xs: seq<Exchange>): nat
  {
    if xs == [] then 0 else SentCount(xs[..|xs| - 1]) + (if xs[|xs| - 1].SendFailed? then 0 else 1)
  }

  /** `times` after the given exchanges: one duration per packet received, of any kind. */
  function Rtts(xs: seq<Exchange>): seq<nat>
  {
    if xs == [] then []
    else Rtts(xs[..|xs| - 1]) + (if xs[|xs| - 1].Reply? then [xs[|xs| - 1].rtt] else [])
  }

  /** `received_packets` after the given exchanges: the echo replies to this process. */
  function ReceivedCount(xs: seq<Exchange>, pid: int): nat
  {
    if xs == [] then 0
    else
      var x := xs[|xs| - 1];
      ReceivedCount(xs[..|xs| - 1], pid) + (if x.Reply? && IsOwnReply(x.icmpType, x.icmpId, pid) then 1 else 0)
  }

  /** `received_packets` as the source counts it, with the reply test as written. */
  function ReceivedCountAsWritten(xs: seq<Exchange>, pid: int): nat
  {
    if xs == [] then 0
    else
      var x := xs[|xs| - 1];
      ReceivedCountAsWritten(xs[..|xs| - 1], pid) + (if x.Reply? && IsOwnReplyAsWritten(x.icmpType, x.icmpId, pid) then 1 else 0)
  }

  /** The as-written test never accepts a reply once the process id does not fit 16 bits. */
  lemma AsWrittenRejectsWidePid(icmpType: int, icmpId: uint16, pid: int)
    requires pid < 0 || pid >= 0x1_0000
    ensures !IsOwnReplyAsWritten(icmpType, icmpId, pid)
  {
  }

  /**
   * The two counts agree for every process id that fits 16 bits; for any other id the
   * source counts no reply at all, whatever comes back.
   */
  lemma {:induction false} ReceivedCountsAgree(xs: seq<Exchange>, pid: int)
    ensures 0 <= pid < 0x1_0000 ==> ReceivedCountAsWritten(xs, pid) == ReceivedCount(xs, pid)
    ensures (pid < 0 || pid >= 0x1_0000) ==> ReceivedCountAsWritten(xs, pid) == 0
  {
    if xs != [] {
      ReceivedCountsAgree(xs[..|xs| - 1], pid);
    }
  }

  /** The counters stay ordered: received <= |times| <= sent <= requests. */
  lemma {:induction false} CountersOrdered(xs: seq<Exchange>, pid: int)
    ensures ReceivedCount(xs, pid) <= |Rtts(xs)| <= SentCount(xs) <= |xs|
  {
    if xs != [] {
      CountersOrdered(xs[..|xs| - 1], pid);
    }
  }

  /** When every sendto fails nothing is counted as sent, so the loss formula's divisor is 0. */
  lemma {:induction false} AllSendsFailedMeansNothingSent(xs: seq<Exchange>)
    requires forall k :: 0 <= k < |xs| ==> xs[k].SendFailed?
    ensures SentCount(xs) == 0
  {
    if xs != [] {
      AllSendsFailedMeansNothingSent(xs[..|xs| - 1]);
    }
  }

  /** The requests the loop makes: the first `counts` outcomes, none when `counts` is not positive. */
  function Requests(xs: seq<Exchange>, counts: int): seq<Exchange>
    requires counts <= |xs|
  {
    if counts <= 0 then [] else xs[..counts]
  }

  /**
   * The request loop of `ping`: builds each request in the zeroed send buffer, then
   * counts sends, received durations and echo replies to this process.  Replies are
   * matched with the 16-bit id test `IsOwnReply`; for a process id that fits 16 bits
   * the count is the one the test as written gives.
   */
  method PingLoop(counts: int, length: int, pid: int, xs: seq<Exchange>)
    returns (sent: nat, received: nat, times: seq<nat>, requests: seq<seq<uint16>>)
    requires length <= PACKET_SIZE
    requires counts <= |xs|
    ensures sent == SentCount(Requests(xs, counts))
    ensures received == ReceivedCount(Requests(xs, counts), pid)
    ensures 0 <= pid < 0x1_0000 ==> received == ReceivedCountAsWritten(Requests(xs, counts), pid)
    ensures times == Rtts(Requests(xs, counts))
    ensures received <= |times| <= sent <= |requests|
    ensures |requests| == |Requests(xs, counts)|
    ensures forall i :: 0 <= i < |requests| ==>
      |requests[i]| == PACKET_WORDS && IsEchoHeader(requests[i], i, pid) &&
      (4 <= length ==> InternetChecksum(requests[i], length) == 0)
    ensures forall i, k :: 0 <= i < |requests| && 4 <= k < PACKET_WORDS ==> requests[i][k] == 0
  {
    var sendPacket := new uint16[PACKET_WORDS];
    sent, received, times, requests := 0, 0, [], [];
    var i := 0;
    while i < counts
      invariant 0 <= i <= if counts <= 0 then 0 else counts
      invariant sent == SentCount(xs[..i]) && received == ReceivedCount(xs[..i], pid)
      invariant times == Rtts(xs[..i])
      invariant |requests| == i
      invariant forall j :: 0 <= j < i ==>
        |requests[j]| == PACKET_WORDS && IsEchoHeader(requests[j], j, pid) &&
        (4 <= length ==> InternetChecksum(requests[j], length) == 0)
      invariant forall j, k :: 0 <= j < i && 4 <= k < PACKET_WORDS ==> requests[j][k] == 0
    {
      forall k | 0 <= k < sendPacket.Length {
        sendPacket[k] := 0;
      }
      CreatePacket(sendPacket, i, length, pid);
      requests := requests + [sendPacket[..]];
      assert xs[..i + 1][..i] == xs[..i];
      var x := xs[i];
      if x.SendFailed? {
        i := i + 1;
        continue;
      }
      sent := sent + 1;
      if x.NoReply? {
        i := i + 1;
        continue;
      }
      times := times + [x.rtt];
      if IsOwnReply(x.icmpType, x.icmpId, pid) {
        received := received + 1;
      }
      i := i + 1;
    }
    assert Requests(xs, counts) == xs[..i];
    CountersOrdered(xs[..i], pid);
    ReceivedCountsAgree(xs[..i], pid);
  }

  /** C `/`, which truncates toward zero. */
  function CDiv(a: int, b: int): int
    requires b != 0
  {
    if (a >= 0) == (b > 0) then (if a >= 0 then a / b else (-a) / (-b))
    else -((if a >= 0 then a else -a) / (if b > 0 then b else -b))
  }

  /** The loss formula as written: lost requests times 100, divided by the sent count; defined only when something was sent. */
  function LossAsWritten(sent: int, received: int): int
    requires sent != 0
  {
    CDiv((sent - received) * 100, sent)
  }

  lemma LossInRange(sent: nat, received: nat)
    requires 0 < sent && received <= sent
    ensures 0 <= LossAsWritten(sent, received) <= 100
    ensures received == 0 ==> LossAsWritten(sent, received) == 100
    ensures received == sent ==> LossAsWritten(sent, received) == 0
  {
    var lost: nat := sent - received;
    var scaled: nat := lost * 100;
    assert LossAsWritten(sent, received) == scaled / sent;
    assert scaled <= sent * 100 by {
      MulMonotone(100, lost, sent);
    }
    DivAtMost(scaled, sent, 100);
    if received == 0 {
      assert scaled == sent * 100;
      DivAtLeast(scaled, sent, 100);
    }
  }

  lemma DivAtMost(a: nat, b: nat, c: nat)
    requires b > 0 && a <= b * c
    ensures a / b <= c
  {
    var q, r := a / b, a % b;
    assert a == b * q + r;
    assert b * (c + 1) == b * c + b;
    if q > c {
      MulMonotone(b, c + 1, q);
      assert false;
    }
  }

  /** Packet loss in percent, returning 0 when nothing was sent instead of dividing by zero. */
  function PacketLoss(sent: nat, received: nat): (r: int)
    requires received <= sent
    ensures 0 <= r <= 100
    ensures sent > 0 ==> r == LossAsWritten(sent, received)
    ensures sent == 0 ==> r == 0
  {
    if sent == 0 then 0 else LossInRange(sent, received); LossAsWritten(sent, received)
  }

  function SumOf(s: seq<nat>): nat
  {
    if s == [] then 0 else SumOf(s[..|s| - 1]) + s[|s| - 1]
  }

  /** The smallest duration, which the minimum search of the statistics reports. */
  function MinOf(s: seq<nat>): (m: nat)
    requires |s| > 0
    ensures m in s && forall k :: 0 <= k < |s| ==> m <= s[k]
  {
    if |s| == 1 then s[0] else var m := MinOf(s[..|s| - 1]); if s[|s| - 1] < m then s[|s| - 1] else m
  }

  /** The largest duration, which the maximum search of the statistics reports. */
  function MaxOf(s: seq<nat>): (m: nat)
    requires |s| > 0
    ensures m in s && forall k :: 0 <= k < |s| ==> s[k] <= m
  {
    if |s| == 1 then s[0] else var m := MaxOf(s[..|s| - 1]); if s[|s| - 1] > m then s[|s| - 1] else m
  }

  /** A sum of n values, each between lo and hi, lies between n * lo and n * hi. */
  lemma {:induction false} SumBetween(s: seq<nat>, lo: nat, hi: nat)
    requires forall k :: 0 <= k < |s| ==> lo <= s[k] <= hi
    ensures |s| * lo <= SumOf(s) <= |s| * hi
  {
    if s != [] {
      var init := s[..|s| - 1];
      SumBetween(init, lo, hi);
      MulSucc(|init|, lo);
      MulSucc(|init|, hi);
    }
  }

  lemma MulSucc(n: nat, x: nat)
    ensures (n + 1) * x == n * x + x
  {
  }

  lemma MulMonotone(n: nat, x: nat, y: nat)
    requires x <= y
    ensures n * x <= n * y
  {
  }

  lemma DivAtLeast(a: nat, b: nat, c: nat)
    requires b > 0 && b * c <= a
    ensures c <= a / b
  {
    var q, r := a / b, a % b;
    assert a == b * q + r && r < b;
    assert b * (q + 1) == b * q + b;
    if q < c {
      MulMonotone(b, q + 1, c);
      assert false;
    }
  }

  datatype Stats = Stats(loss: int, minTime: nat, avgTime: nat, maxTime: nat)

  /**
   * The summary after the loop: loss in percent, and min/avg/max of the durations,
   * all three 0 when no packet came back.  The average is the floored mean.
   */
  function Statistics(sent: nat, received: nat, times: seq<nat>): (st: Stats)
    requires received <= sent
    ensures 0 <= st.loss <= 100
    ensures sent > 0 ==> st.loss == LossAsWritten(sent, received)
    ensures times == [] ==> st.minTime == 0 && st.avgTime == 0 && st.maxTime == 0
    ensures times != [] ==> st.minTime <= st.avgTime <= st.maxTime
    ensures times != [] ==> st.minTime in times && st.maxTime in times
    ensures times != [] ==> forall k :: 0 <= k < |times| ==> st.minTime <= times[k] <= st.maxTime
    ensures times != [] ==> st.avgTime == SumOf(times) / |times|
  {
    if times == [] then Stats(PacketLoss(sent, received), 0, 0, 0)
    else
      SumBetween(times, MinOf(times), MaxOf(times));
      DivAtLeast(SumOf(times), |times|, MinOf(times));
      DivAtMost(SumOf(times), |times|, MaxOf(times));
      Stats(PacketLoss(sent, received), MinOf(times), SumOf(times) / |times|, MaxOf(times))
  }
}
