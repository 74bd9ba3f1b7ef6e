/**
 * The traceroute tool (task2.cpp): for TTL 1..MAX_HOPS it builds up to TRIES echo
 * requests in one 64-byte send buffer and passes each to `sendto` and classifies what comes back.
 *
 * Each `recvfrom` result is an input `Probe`; each hop's two `setsockopt` calls are
 * one input flag.  Round-trip times are given whole numbers.
 */
module Traceroute {
  import opened Icmp
  import opened Inet

  const MAX_HOPS: int := 30
  const TRIES: int := 3

  const ICMP_DEST_UNREACH: int := 3
  const ICMP_PORT_UNREACH: int := 3
  const ICMP_TIME_EXCEEDED: int := 11

  /** The sequence number of try i at a TTL: TRIES numbers per TTL, in order. */
  function SeqNumber(ttl: int, i: int): int
  {
    ttl * TRIES + i
  }

  /**
   * Sequence numbers grow with (ttl, i) in lexicographic order, so they are pairwise
   * distinct.
   */
  lemma SeqNumbersOrdered(ttl: int, i: int, ttl': int, i': int)
    requires 1 <= ttl <= MAX_HOPS && 0 <= i < TRIES
    requires 1 <= ttl' <= MAX_HOPS && 0 <= i' < TRIES
    requires ttl < ttl' || (ttl == ttl' && i < i')
    ensures SeqNumber(ttl, i) < SeqNumber(ttl', i')
  {
  }

  /** A sequence number fits the 16-bit field unchanged. */
  lemma SeqNumberFits(ttl: int, i: int)
    requires 1 <= ttl <= MAX_HOPS && 0 <= i < TRIES
    ensures Truncate16(SeqNumber(ttl, i)) as int == SeqNumber(ttl, i)
  {
  }

  /** The send buffer after `memset` and the header assignments before the hop loop. */
  function EchoTemplate(pid: int): (t: seq<uint16>)
    ensures |t| == PACKET_WORDS && IsEchoHeader(t, 0, pid)
  {
    [TypeCodeWord(ICMP_ECHO, 0), 0, Truncate16(pid), 0] + seq(PACKET_WORDS - 4, _ => 0)
  }

  /**
   * The buffer agrees with the template, the send buffer as main prepared it, except in
   * the checksum and sequence words, the only ones a try writes.
   */
  predicate OnTemplate(buf: seq<uint16>, template: seq<uint16>)
  {
    |buf| == |template| == PACKET_WORDS &&
    forall k :: 0 <= k < PACKET_WORDS && k != CKSUM_WORD && k != SEQ_WORD ==> buf[k] == template[k]
  }

  /**
   * The packet built on one try: the sequence number stored, the checksum zeroed and then
   * set to the checksum of all PACKET_SIZE bytes.
   */
  function Stamp(buf: seq<uint16>, seqNo: int): (p: seq<uint16>)
    requires |buf| == PACKET_WORDS
    ensures |p| == PACKET_WORDS && p[SEQ_WORD] == Truncate16(seqNo)
    ensures forall k :: 0 <= k < PACKET_WORDS && k != CKSUM_WORD && k != SEQ_WORD ==> p[k] == buf[k]
    ensures InternetChecksum(p, PACKET_SIZE) == 0
  {
    var z := buf[SEQ_WORD := Truncate16(seqNo)][CKSUM_WORD := 0];
    VerifiesToZero(z, PACKET_SIZE, CKSUM_WORD);
    z[CKSUM_WORD := InternetChecksum(z, PACKET_SIZE)]
  }

  lemma StampOnTemplate(buf: seq<uint16>, template: seq<uint16>, seqNo: int)
    requires OnTemplate(buf, template)
    ensures Stamp(buf, seqNo) == Stamp(template, seqNo)
  {
    assert buf[SEQ_WORD := Truncate16(seqNo)][CKSUM_WORD := 0] == template[SEQ_WORD := Truncate16(seqNo)][CKSUM_WORD := 0];
  }

  /**
   * The requests built and passed to `sendto` by the first n tries at a TTL.  A try whose
   * `sendto` fails has built its request too, although nothing of it left the host.
   */
  function RequestsAt(ttl: int, template: seq<uint16>, n: nat): (ps: seq<seq<uint16>>)
    requires |template| == PACKET_WORDS
    ensures |ps| == n
  {
    if n == 0 then [] else RequestsAt(ttl, template, n - 1) + [Stamp(template, SeqNumber(ttl, n - 1))]
  }

  /** Try j at a TTL passes to `sendto` the template stamped with the sequence number of (ttl, j). */
  lemma {:induction false} RequestsAtContents(ttl: int, template: seq<uint16>, n: nat, j: nat)
    requires |template| == PACKET_WORDS && j < n
    ensures RequestsAt(ttl, template, n)[j] == Stamp(template, SeqNumber(ttl, j))
  {
    if j < n - 1 {
      RequestsAtContents(ttl, template, n - 1, j);
    }
  }

  /** Every request of a hop is an echo request of this process carrying its own sequence number and a valid checksum. */
  lemma RequestsAtValid(ttl: int, pid: int, n: nat)
    requires 1 <= ttl <= MAX_HOPS && n <= TRIES
    ensures forall j :: 0 <= j < n ==>
      var p := RequestsAt(ttl, EchoTemplate(pid), n)[j];
      |p| == PACKET_WORDS && IsEchoHeader(p, SeqNumber(ttl, j), pid) &&
      p[SEQ_WORD] as int == SeqNumber(ttl, j) && InternetChecksum(p, PACKET_SIZE) == 0
  {
    forall j | 0 <= j < n
      ensures var p := RequestsAt(ttl, EchoTemplate(pid), n)[j];
        |p| == PACKET_WORDS && IsEchoHeader(p, SeqNumber(ttl, j), pid) &&
        p[SEQ_WORD] as int == SeqNumber(ttl, j) && InternetChecksum(p, PACKET_SIZE) == 0
    {
      RequestsAtContents(ttl, EchoTemplate(pid), n, j);
      SeqNumberFits(ttl, j);
    }
  }

  lemma RequestsAtStep(ttl: int, template: seq<uint16>, n: nat)
    requires |template| == PACKET_WORDS
    ensures RequestsAt(ttl, template, n + 1) == RequestsAt(ttl, template, n) + [Stamp(template, SeqNumber(ttl, n))]
  {
  }

  /** What one try observes. */
  datatype Probe =
    | SendFailed                                               // sendto returned < 0
    | Timeout                                                  // recvfrom returned < 0
    | Reply(from: Ipv4, icmpType: int, icmpCode: int, rtt: nat)

  predicate IsEchoReply(p: Probe)
  {
    p.Reply? && p.icmpType == ICMP_ECHOREPLY
  }

  predicate IsTimeExceeded(p: Probe)
  {
    p.Reply? && p.icmpType == ICMP_TIME_EXCEEDED
  }

  predicate IsPortUnreachable(p: Probe)
  {
    p.Reply? && p.icmpType == ICMP_DEST_UNREACH && p.icmpCode == ICMP_PORT_UNREACH
  }

  /** A reply after which no further try of the hop is made. */
  predicate EndsTries(p: Probe)
  {
    IsEchoReply(p) || IsPortUnreachable(p)
  }

  /** A reply that sets `received_response`. */
  predicate MarksResponse(p: Probe)
  {
    IsEchoReply(p) || IsTimeExceeded(p) || IsPortUnreachable(p)
  }

  /** Index of the first try that ends the hop, or the number of tries. */
  function FirstEnd(t: seq<Probe>): (n: nat)
    ensures n <= |t|
    ensures forall j :: 0 <= j < n ==> !EndsTries(t[j])
    ensures n < |t| ==> EndsTries(t[n])
  {
    if t == [] then 0 else if EndsTries(t[0]) then 0 else 1 + FirstEnd(t[1..])
  }

  /** Durations of the replies, in order. */
  function ReplyRtts(t: seq<Probe>): (r: seq<nat>)
    ensures |r| <= |t|
  {
    if t == [] then []
    else ReplyRtts(t[..|t| - 1]) + (if t[|t| - 1].Reply? then [t[|t| - 1].rtt] else [])
  }

  /** Sender of the last reply, `ip_address` ("*" is None). */
  function LastFrom(t: seq<Probe>): Option<Ipv4>
  {
    if t == [] then None
    else if t[|t| - 1].Reply? then Some(t[|t| - 1].from) else LastFrom(t[..|t| - 1])
  }

  /** Whether some reply sets `received_response`. */
  function AnyMarks(t: seq<Probe>): bool
  {
    if t == [] then false else AnyMarks(t[..|t| - 1]) || MarksResponse(t[|t| - 1])
  }

  lemma {:induction false} AnyMarksMeans(t: seq<Probe>)
    ensures AnyMarks(t) <==> exists j :: 0 <= j < |t| && MarksResponse(t[j])
  {
    if t != [] {
      var init := t[..|t| - 1];
      AnyMarksMeans(init);
      if AnyMarks(init) {
        var j :| 0 <= j < |init| && MarksResponse(init[j]);
        assert t[j] == init[j];
      }
      if exists j :: 0 <= j < |t| && MarksResponse(t[j]) {
        var j :| 0 <= j < |t| && MarksResponse(t[j]);
        if j < |init| {
          assert init[j] == t[j];
        }
      }
    }
  }

  datatype Ending = Exhausted | EchoReplied | PortUnreachable(rtt: nat)

  /**
   * The state a hop leaves: the durations printed (`rtt_times[0..recv_count)`),
   * `received_response`, `ip_address`, and how the tries loop ended.
   */
  datatype HopResult = HopResult(rtts: seq<nat>, received: bool, responder: Option<Ipv4>, ending: Ending)

  /**
   * The tries of a hop described without the loop: the tries up to the first echo reply
   * or port-unreachable are processed; every reply before it is counted; that reply
   * itself marks the response and names the responder but is not counted.
   */
  function HopSummary(t: seq<Probe>): HopResult
  {
    var n := FirstEnd(t);
    var seen := if n < |t| then t[..n + 1] else t;
    HopResult(ReplyRtts(t[..n]), AnyMarks(seen), LastFrom(seen),
              if n == |t| then Exhausted
              else if IsEchoReply(t[n]) then EchoReplied
              else PortUnreachable(t[n].rtt))
  }

  /** Sending failures and timeouts change neither the count, nor the flag, nor the responder. */
  lemma NoReplyChangesNothing(t: seq<Probe>, i: nat)
    requires i < |t| && !t[i].Reply?
    ensures ReplyRtts(t[..i + 1]) == ReplyRtts(t[..i])
    ensures AnyMarks(t[..i + 1]) == AnyMarks(t[..i])
    ensures LastFrom(t[..i + 1]) == LastFrom(t[..i])
  {
    assert t[..i + 1][..i] == t[..i];
  }

  /**
   * TIME_EXCEEDED is counted and sets the flag; a reply of another, unrecognised kind is
   * counted without setting it.  Either way it becomes the responder.
   */
  lemma CountedReply(t: seq<Probe>, i: nat)
    requires i < |t| && t[i].Reply? && !EndsTries(t[i])
    ensures ReplyRtts(t[..i + 1]) == ReplyRtts(t[..i]) + [t[i].rtt]
    ensures AnyMarks(t[..i + 1]) == (AnyMarks(t[..i]) || IsTimeExceeded(t[i]))
    ensures LastFrom(t[..i + 1]) == Some(t[i].from)
  {
    assert t[..i + 1][..i] == t[..i];
  }

  /** An echo reply sets the flag and ends the hop, and its duration is not among those counted. */
  lemma EchoReplyNotCounted(t: seq<Probe>, n: nat)
    requires n < |t| && IsEchoReply(t[n])
    requires forall j :: 0 <= j < n ==> !EndsTries(t[j])
    ensures HopSummary(t).received && HopSummary(t).ending == EchoReplied
    ensures HopSummary(t).responder == Some(t[n].from)
    ensures |HopSummary(t).rtts| + 1 == |ReplyRtts(t[..n + 1])|
  {
    assert t[..n + 1][..n] == t[..n];
  }

  /** The hop as the tries loop leaves it when try i ends it. */
  lemma EndingReply(t: seq<Probe>, i: nat)
    requires i < |t| && EndsTries(t[i])
    requires forall j :: 0 <= j < i ==> !EndsTries(t[j])
    ensures FirstEnd(t) == i
    ensures HopSummary(t) == HopResult(ReplyRtts(t[..i]), true, Some(t[i].from),
                                       if IsEchoReply(t[i]) then EchoReplied else PortUnreachable(t[i].rtt))
  {
    assert t[..i + 1][..i] == t[..i];
  }

  /** How many tries of a hop are made: up to and including the one that ends it. */
  function TriesMade(t: seq<Probe>): (n: nat)
    ensures n <= |t|
  {
    if FirstEnd(t) < |t| then FirstEnd(t) + 1 else |t|
  }

  /** The hop as the tries loop leaves it when every try has been made. */
  lemma AllTriesMade(t: seq<Probe>)
    requires FirstEnd(t) == |t|
    ensures HopSummary(t) == HopResult(ReplyRtts(t[..|t|]), AnyMarks(t[..|t|]), LastFrom(t[..|t|]), Exhausted)
  {
    assert t[..|t|] == t;
  }

  /** A hop that received a response always has a responder to print. */
  lemma {:induction false} ReceivedHasResponder(t: seq<Probe>)
    ensures AnyMarks(t) ==> LastFrom(t).Some?
  {
    if t != [] {
      ReceivedHasResponder(t[..|t| - 1]);
    }
  }

  /** One printed hop line (the per-try "*" marks are not modelled). */
  datatype HopLine =
    | Silent                                          // "  *"
    | Answered(rtts: seq<nat>, responder: Option<Ipv4>)
    | PortUnreachableLine(responder: Option<Ipv4>, rtt: nat)

  function LineOf(r: HopResult): HopLine
  {
    if r.ending.PortUnreachable? then PortUnreachableLine(r.responder, r.ending.rtt)
    else if r.received then Answered(r.rtts, r.responder)
    else Silent
  }

  /** Numbers the request in the send buffer, clears its checksum field and stores the checksum of all PACKET_SIZE bytes. */
  method NumberRequest(sendbuf: array<uint16>, seqNo: int, ghost template: seq<uint16>) returns (packet: seq<uint16>)
    requires OnTemplate(sendbuf[..], template)
    modifies sendbuf
    ensures OnTemplate(sendbuf[..], template)
    ensures packet == sendbuf[..] == Stamp(template, seqNo)
  {
    ghost var before := sendbuf[..];
    sendbuf[SEQ_WORD] := Truncate16(seqNo);
    sendbuf[CKSUM_WORD] := 0;
    ghost var zeroed := sendbuf[..];
    assert zeroed == before[SEQ_WORD := Truncate16(seqNo)][CKSUM_WORD := 0];
    var c := Checksum(sendbuf, PACKET_SIZE);
    sendbuf[CKSUM_WORD] := c;
    assert sendbuf[..] == zeroed[CKSUM_WORD := c];
    StampOnTemplate(before, template, seqNo);
    packet := sendbuf[..];
  }

  /**
   * The reply handling of try i of a hop: counting its duration in `rtt_times`, updating
   * `received_response` and `ip_address`, and deciding whether the tries loop stops.
   */
  method RecordTry(rttTimes: array<nat>, tries: seq<Probe>, i: nat,
                   recvCount: nat, received: bool, ipAddress: Option<Ipv4>)
    returns (recvCount': nat, received': bool, ipAddress': Option<Ipv4>, stop: bool, ending: Ending)
    requires rttTimes.Length == |tries| && i < |tries| && i <= FirstEnd(tries) && recvCount <= i
    requires rttTimes[..recvCount] == ReplyRtts(tries[..i])
    requires received == AnyMarks(tries[..i]) && ipAddress == LastFrom(tries[..i])
    modifies rttTimes
    ensures recvCount' <= i + 1
    ensures stop <==> FirstEnd(tries) == i
    ensures stop ==> HopSummary(tries) == HopResult(rttTimes[..recvCount'], received', ipAddress', ending)
    ensures !stop ==> ending == Exhausted
    ensures !stop ==> rttTimes[..recvCount'] == ReplyRtts(tries[..i + 1])
    ensures !stop ==> received' == AnyMarks(tries[..i + 1]) && ipAddress' == LastFrom(tries[..i + 1])
  {
    recvCount', received', ipAddress', stop, ending := recvCount, received, ipAddress, false, Exhausted;
    var p := tries[i];
    if !p.Reply? {
      NoReplyChangesNothing(tries, i);
      return;
    }
    ghost var counted := rttTimes[..recvCount];
    rttTimes[recvCount] := p.rtt;
    assert rttTimes[..recvCount] == counted;
    ipAddress' := Some(p.from);
    if p.icmpType == ICMP_ECHOREPLY {
      received' := true;
      stop, ending := true, EchoReplied;
      EndingReply(tries, i);
      return;
    } else if p.icmpType == ICMP_TIME_EXCEEDED {
      received' := true;
    } else if p.icmpType == ICMP_DEST_UNREACH && p.icmpCode == ICMP_PORT_UNREACH {
      received' := true;
      stop, ending := true, PortUnreachable(rttTimes[recvCount]);
      EndingReply(tries, i);
      return;
    }
    assert rttTimes[..recvCount + 1] == counted + [p.rtt];
    CountedReply(tries, i);
    recvCount' := recvCount + 1;
  }

  /**
   * One hop: the tries loop, passing a freshly numbered and checksummed request to `sendto`
   * each time and updating `recv_count`, `rtt_times`, `received_response` and `ip_address`.
   */
  method ProbeHop(sendbuf: array<uint16>, ttl: int, ghost template: seq<uint16>, tries: seq<Probe>)
    returns (h: HopResult, packets: seq<seq<uint16>>)
    requires 1 <= ttl <= MAX_HOPS && |tries| == TRIES
    requires OnTemplate(sendbuf[..], template)
    modifies sendbuf
    ensures OnTemplate(sendbuf[..], template)
    ensures h == HopSummary(tries)
    ensures packets == RequestsAt(ttl, template, TriesMade(tries))
  {
    var rttTimes := new nat[TRIES](_ => 0);
    var received := false;
    var ipAddress: Option<Ipv4> := None;
    var recvCount := 0;
    var ending := Exhausted;
    var stop := false;
    packets := [];
    var i := 0;
    while i < TRIES
      invariant 0 <= i <= TRIES && i <= FirstEnd(tries)
      invariant 0 <= recvCount <= i
      invariant rttTimes[..recvCount] == ReplyRtts(tries[..i])
      invariant received == AnyMarks(tries[..i]) && ipAddress == LastFrom(tries[..i])
      invariant ending == Exhausted
      invariant OnTemplate(sendbuf[..], template)
      invariant packets == RequestsAt(ttl, template, i)
    {
      var packet := NumberRequest(sendbuf, SeqNumber(ttl, i), template);
      RequestsAtStep(ttl, template, i);
      packets := packets + [packet];
      recvCount, received, ipAddress, stop, ending := RecordTry(rttTimes, tries, i, recvCount, received, ipAddress);
      if stop {
        break;
      }
      i := i + 1;
    }
    if !stop {
      AllTriesMade(tries);
    }
    h := HopResult(rttTimes[..recvCount], received, ipAddress, ending);
  }

  /** What one hop observes: whether both `setsockopt` calls succeed, and its tries. */
  datatype HopInput = HopInput(optionsSet: bool, tries: seq<Probe>)

  /** The text in `ip_address` after a hop: "*" until some reply names a sender. */
  function ResponderText(r: HopResult): string
  {
    match r.responder
    case None => "*"
    case Some(ip) => DottedQuad(ip)
  }

  /** The destination test: a response was received and the responder's text equals the destination's dotted quad. */
  predicate ReachedAsText(dest: Ipv4, r: HopResult)
  {
    r.received && ResponderText(r) == DottedQuad(dest)
  }

  /** Comparing the texts is comparing the addresses: "*" is no dotted quad. */
  lemma ReachedMeansResponder(dest: Ipv4, r: HopResult)
    ensures ReachedAsText(dest, r) <==> r.received && r.responder == Some(dest)
  {
    if r.responder.None? {
      assert DottedQuad(dest)[0] == Decimal(dest.a)[0];
      assert IsDigit(DottedQuad(dest)[0]);
      assert ResponderText(r)[0] == '*';
    } else if ResponderText(r) == DottedQuad(dest) {
      DottedQuadInjective(r.responder.value, dest);
    }
  }

  /**
   * A hop as the TTL loop sees it: whether its socket options were set, what its tries
   * left, and how many tries it made.
   */
  datatype HopView = HopView(optionsSet: bool, result: HopResult, made: nat)

  function ViewOf(h: HopInput): HopView
  {
    HopView(h.optionsSet, HopSummary(h.tries), TriesMade(h.tries))
  }

  /** The views of the hops, hop k with TTL k + 1. */
  function Views(hops: seq<HopInput>): seq<HopView>
  {
    seq(|hops|, k requires 0 <= k < |hops| => ViewOf(hops[k]))
  }

  predicate HopsWellFormed(hops: seq<HopInput>)
  {
    |hops| == MAX_HOPS && forall k :: 0 <= k < |hops| ==> |hops[k].tries| == TRIES
  }

  /** MAX_HOPS hops, none of which makes more than TRIES tries. */
  predicate ViewsWellFormed(vs: seq<HopView>)
  {
    |vs| == MAX_HOPS && forall k :: 0 <= k < |vs| ==> vs[k].made <= TRIES
  }

  lemma ViewsOfWellFormed(hops: seq<HopInput>)
    requires HopsWellFormed(hops)
    ensures ViewsWellFormed(Views(hops))
  {
    forall k | 0 <= k < |hops|
      ensures Views(hops)[k].made <= TRIES
    {
      assert Views(hops)[k] == ViewOf(hops[k]);
    }
  }

  /**
   * A hop after which no further TTL is tried: its options failed, a port unreachable
   * arrived, or a response came from the destination (TraceHop compares the texts).
   */
  predicate HopStops(dest: Ipv4, v: HopView)
  {
    !v.optionsSet || v.result.ending.PortUnreachable? || (v.result.received && v.result.responder == Some(dest))
  }

  /** Index of the first hop from k on that stops the trace, or the number of hops. */
  function FirstStopFrom(dest: Ipv4, vs: seq<HopView>, k: nat): (e: nat)
    requires k <= |vs|
    ensures k <= e <= |vs|
    decreases |vs| - k
  {
    if k == |vs| then k else if HopStops(dest, vs[k]) then k else FirstStopFrom(dest, vs, k + 1)
  }

  /** Index of the first hop that stops the trace, or the number of hops. */
  function FirstStop(dest: Ipv4, vs: seq<HopView>): nat
  {
    FirstStopFrom(dest, vs, 0)
  }

  /** The first stopping hop is one that stops the trace, and no hop before it does. */
  lemma {:induction false} FirstStopFromMeans(dest: Ipv4, vs: seq<HopView>, k: nat)
    requires k <= |vs|
    ensures forall j :: k <= j < FirstStopFrom(dest, vs, k) ==> !HopStops(dest, vs[j])
    ensures FirstStopFrom(dest, vs, k) < |vs| ==> HopStops(dest, vs[FirstStopFrom(dest, vs, k)])
    decreases |vs| - k
  {
    if k < |vs| && !HopStops(dest, vs[k]) {
      FirstStopFromMeans(dest, vs, k + 1);
    }
  }

  lemma FirstStopMeans(dest: Ipv4, vs: seq<HopView>)
    ensures FirstStop(dest, vs) <= |vs|
    ensures forall j :: 0 <= j < FirstStop(dest, vs) ==> !HopStops(dest, vs[j])
    ensures FirstStop(dest, vs) < |vs| ==> HopStops(dest, vs[FirstStop(dest, vs)])
  {
    FirstStopFromMeans(dest, vs, 0);
  }

  /** The exit status of the trace: 1 exactly when the options fail at the hop that stops it. */
  function ExitStatus(dest: Ipv4, vs: seq<HopView>): int
  {
    var e := FirstStop(dest, vs);
    if e < |vs| && !vs[e].optionsSet then 1 else 0
  }

  /** How many hop lines are printed: the stopping hop prints one unless its options fail. */
  function LinesPrinted(dest: Ipv4, vs: seq<HopView>): (n: nat)
    ensures n <= |vs|
  {
    var e := FirstStop(dest, vs);
    if e < |vs| && vs[e].optionsSet then e + 1 else e
  }

  /** The first hop that stops the trace, characterised by the hops before it. */
  lemma FirstStopIs(dest: Ipv4, vs: seq<HopView>, k: nat)
    requires k <= |vs| && forall j :: 0 <= j < k ==> !HopStops(dest, vs[j])
    requires k < |vs| ==> HopStops(dest, vs[k])
    ensures FirstStop(dest, vs) == k
  {
    FirstStopMeans(dest, vs);
  }

  /**
   * A port unreachable at the first hop that stops the trace ends it with status 0,
   * after printing that hop's line.
   */
  lemma PortUnreachableEndsTrace(dest: Ipv4, vs: seq<HopView>, k: nat)
    requires k < |vs| && forall j :: 0 <= j < k ==> !HopStops(dest, vs[j])
    requires vs[k].optionsSet && vs[k].result.ending.PortUnreachable?
    ensures FirstStop(dest, vs) == k && ExitStatus(dest, vs) == 0 && LinesPrinted(dest, vs) == k + 1
  {
    FirstStopIs(dest, vs, k);
  }

  /** The trace stops no later than the first hop whose responder is the destination. */
  lemma StopsAtDestination(dest: Ipv4, vs: seq<HopView>, k: nat)
    requires k < |vs| && vs[k].optionsSet
    requires vs[k].result.received && vs[k].result.responder == Some(dest)
    ensures FirstStop(dest, vs) <= k
  {
    FirstStopMeans(dest, vs);
  }

  /**
   * The status and the line count when hop k, reached by the trace, stops it.  The first
   * requires says that no hop before k stops the trace (see FirstStopFromMeans).
   */
  lemma StopsAt(dest: Ipv4, vs: seq<HopView>, k: nat)
    requires k < |vs| && FirstStopFrom(dest, vs, k) == FirstStop(dest, vs) && HopStops(dest, vs[k])
    ensures ExitStatus(dest, vs) == (if vs[k].optionsSet then 0 else 1)
    ensures LinesPrinted(dest, vs) == (if vs[k].optionsSet then k + 1 else k)
  {
    assert FirstStop(dest, vs) == k;
  }

  /** A hop that does not stop the trace adds its line and its requests, and the trace goes on to the next TTL. */
  lemma TraceContinues(dest: Ipv4, template: seq<uint16>, vs: seq<HopView>, k: nat)
    requires |template| == PACKET_WORDS && k < |vs| && !HopStops(dest, vs[k])
    ensures FirstStopFrom(dest, vs, k + 1) == FirstStopFrom(dest, vs, k)
    ensures TraceLines(vs, k + 1) == TraceLines(vs, k) + [LineOf(vs[k].result)]
    ensures SentUpTo(template, vs, k + 1) == SentUpTo(template, vs, k) + RequestsAt(k + 1, template, vs[k].made)
  {
  }

  /** The status and the line count when every hop is tried: the requires says that no hop stops the trace. */
  lemma NeverStops(dest: Ipv4, vs: seq<HopView>)
    requires FirstStopFrom(dest, vs, |vs|) == FirstStop(dest, vs)
    ensures ExitStatus(dest, vs) == 0 && LinesPrinted(dest, vs) == |vs|
  {
    assert FirstStop(dest, vs) == |vs|;
  }

  /** The lines printed for the first n hops. */
  function TraceLines(vs: seq<HopView>, n: nat): (ls: seq<HopLine>)
    requires n <= |vs|
    ensures |ls| == n
  {
    if n == 0 then [] else TraceLines(vs, n - 1) + [LineOf(vs[n - 1].result)]
  }

  /** Line k of the trace is the line of hop k, whatever hops follow. */
  lemma {:induction false} TraceLinesContents(vs: seq<HopView>, n: nat, k: nat)
    requires k < n <= |vs|
    ensures TraceLines(vs, n)[k] == LineOf(vs[k].result)
  {
    if k < n - 1 {
      TraceLinesContents(vs, n - 1, k);
    }
  }

  /** The requests built and passed to `sendto` for the first n hops, hop k with TTL k + 1. */
  function SentUpTo(template: seq<uint16>, vs: seq<HopView>, n: nat): seq<seq<uint16>>
    requires |template| == PACKET_WORDS && n <= |vs|
  {
    if n == 0 then [] else SentUpTo(template, vs, n - 1) + RequestsAt(n, template, vs[n - 1].made)
  }

  /** An echo request of this process with a valid checksum. */
  predicate ValidRequest(p: seq<uint16>, pid: int)
  {
    |p| == PACKET_WORDS && IsEchoHeader(p, p[SEQ_WORD] as int, pid) && InternetChecksum(p, PACKET_SIZE) == 0
  }

  /**
   * Every request the trace builds for the first n hops is an echo request of this
   * process with a valid checksum, numbered within 3 .. 3n + 2.
   */
  lemma {:induction false} SentRequestsValid(pid: int, vs: seq<HopView>, n: nat)
    requires ViewsWellFormed(vs) && n <= |vs|
    ensures forall j :: 0 <= j < |SentUpTo(EchoTemplate(pid), vs, n)| ==>
      ValidRequest(SentUpTo(EchoTemplate(pid), vs, n)[j], pid) &&
      TRIES <= SentUpTo(EchoTemplate(pid), vs, n)[j][SEQ_WORD] as int < TRIES * (n + 1)
  {
    if n > 0 {
      SentRequestsValid(pid, vs, n - 1);
      RequestsAtValid(n, pid, vs[n - 1].made);
      var prev := SentUpTo(EchoTemplate(pid), vs, n - 1);
      var here := RequestsAt(n, EchoTemplate(pid), vs[n - 1].made);
      var all := SentUpTo(EchoTemplate(pid), vs, n);
      assert all == prev + here;
      forall j | 0 <= j < |all|
        ensures ValidRequest(all[j], pid) && TRIES <= all[j][SEQ_WORD] as int < TRIES * (n + 1)
      {
        if j < |prev| {
          assert all[j] == prev[j];
        } else {
          assert all[j] == here[j - |prev|];
        }
      }
    }
  }

  /** The sequence numbers of the requests the trace builds strictly increase. */
  lemma {:induction false} SentNumbersIncrease(pid: int, vs: seq<HopView>, n: nat)
    requires ViewsWellFormed(vs) && n <= |vs|
    ensures forall i, j :: 0 <= i < j < |SentUpTo(EchoTemplate(pid), vs, n)| ==>
      |SentUpTo(EchoTemplate(pid), vs, n)[i]| == |SentUpTo(EchoTemplate(pid), vs, n)[j]| == PACKET_WORDS &&
      SentUpTo(EchoTemplate(pid), vs, n)[i][SEQ_WORD] < SentUpTo(EchoTemplate(pid), vs, n)[j][SEQ_WORD]
  {
    if n > 0 {
      SentNumbersIncrease(pid, vs, n - 1);
      SentRequestsValid(pid, vs, n - 1);
      RequestsAtValid(n, pid, vs[n - 1].made);
      var prev := SentUpTo(EchoTemplate(pid), vs, n - 1);
      var here := RequestsAt(n, EchoTemplate(pid), vs[n - 1].made);
      var all := SentUpTo(EchoTemplate(pid), vs, n);
      assert all == prev + here;
      forall i, j | 0 <= i < j < |all|
        ensures |all[i]| == |all[j]| == PACKET_WORDS && all[i][SEQ_WORD] < all[j][SEQ_WORD]
      {
        if j < |prev| {
          assert all[i] == prev[i] && all[j] == prev[j];
        } else if i < |prev| {
          assert all[i] == prev[i] && all[j] == here[j - |prev|];
        } else {
          assert all[i] == here[i - |prev|] && all[j] == here[j - |prev|];
        }
      }
    }
  }

  /**
   * One TTL of the trace: set the options, probe the hop, and decide whether the trace
   * ends here, with which status.  The destination test compares the responder's text
   * with the destination's text.
   */
  method TraceHop(sendbuf: array<uint16>, dest: Ipv4, ttl: int, ghost template: seq<uint16>, hop: HopInput)
    returns (stop: bool, status: int, line: HopLine, packets: seq<seq<uint16>>)
    requires 1 <= ttl <= MAX_HOPS && |hop.tries| == TRIES
    requires OnTemplate(sendbuf[..], template)
    modifies sendbuf
    ensures OnTemplate(sendbuf[..], template)
    ensures stop <==> HopStops(dest, ViewOf(hop))
    ensures status == (if hop.optionsSet then 0 else 1)
    ensures hop.optionsSet ==> line == LineOf(HopSummary(hop.tries))
    ensures hop.optionsSet ==> packets == RequestsAt(ttl, template, TriesMade(hop.tries))
    ensures !hop.optionsSet ==> line == Silent && packets == []
  {
    if !hop.optionsSet {
      return true, 1, Silent, [];
    }
    var r;
    r, packets := ProbeHop(sendbuf, ttl, template, hop.tries);
    line := LineOf(r);
    status := 0;
    stop := r.ending.PortUnreachable? || (r.received && ResponderText(r) == DottedQuad(dest));
    ReachedMeansResponder(dest, r);
  }

  /** The send buffer before the TTL loop: zeroed, then given the echo type, code 0, this process's id and sequence number 0. */
  method PrepareSendBuffer(pid: int) returns (sendbuf: array<uint16>)
    ensures fresh(sendbuf) && sendbuf[..] == EchoTemplate(pid)
  {
    sendbuf := new uint16[PACKET_WORDS](_ => 0);
    sendbuf[TYPE_CODE_WORD] := TypeCodeWord(ICMP_ECHO, 0);
    sendbuf[ID_WORD] := Truncate16(pid);
    sendbuf[SEQ_WORD] := 0;
  }

  /**
   * One pass of the TTL loop, taking the trace so far (the lines and requests of the hops
   * before it) to the trace after it: either the trace ends here, with its exit status,
   * all its lines and all its requests, or it goes on to the next TTL.
   */
  method TraceStepAt(sendbuf: array<uint16>, dest: Ipv4, ghost template: seq<uint16>, ghost vs: seq<HopView>,
                     hop: HopInput, ttl: int, lines: seq<HopLine>, requests: seq<seq<uint16>>)
    returns (stop: bool, status: int, lines': seq<HopLine>, requests': seq<seq<uint16>>)
    requires 1 <= ttl <= MAX_HOPS && ttl <= |vs| && vs[ttl - 1] == ViewOf(hop) && |hop.tries| == TRIES
    requires FirstStopFrom(dest, vs, ttl - 1) == FirstStop(dest, vs)
    requires OnTemplate(sendbuf[..], template)
    requires lines == TraceLines(vs, ttl - 1) && requests == SentUpTo(template, vs, ttl - 1)
    modifies sendbuf
    ensures OnTemplate(sendbuf[..], template)
    ensures stop <==> HopStops(dest, vs[ttl - 1])
    ensures stop ==> status == ExitStatus(dest, vs) && lines' == TraceLines(vs, LinesPrinted(dest, vs))
    ensures stop ==> requests' == SentUpTo(template, vs, LinesPrinted(dest, vs))
    ensures !stop ==> status == 0 && FirstStopFrom(dest, vs, ttl) == FirstStop(dest, vs)
    ensures !stop ==> lines' == TraceLines(vs, ttl) && requests' == SentUpTo(template, vs, ttl)
  {
    var line, packets;
    stop, status, line, packets := TraceHop(sendbuf, dest, ttl, template, hop);
    if !hop.optionsSet {
      StopsAt(dest, vs, ttl - 1);
      return stop, status, lines, requests;
    }
    lines', requests' := lines + [line], requests + packets;
    if stop {
      StopsAt(dest, vs, ttl - 1);
    } else {
      TraceContinues(dest, template, vs, ttl - 1);
    }
  }

  /**
   * The whole trace: the send buffer is cleared and given the echo header once, then each
   * TTL sets the socket options, probes the hop and prints its line, until an option
   * fails (exit status 1), a port unreachable arrives, or the destination answers.
   */
  method Trace(dest: Ipv4, pid: int, hops: seq<HopInput>)
    returns (status: int, lines: seq<HopLine>, requests: seq<seq<uint16>>)
    requires HopsWellFormed(hops)
    ensures status == ExitStatus(dest, Views(hops))
    ensures lines == TraceLines(Views(hops), LinesPrinted(dest, Views(hops)))
    ensures requests == SentUpTo(EchoTemplate(pid), Views(hops), LinesPrinted(dest, Views(hops)))
  {
    var sendbuf := PrepareSendBuffer(pid);
    ghost var template := sendbuf[..];
    ghost var vs := Views(hops);
    status, lines, requests := 0, [], [];
    var ttl := 1;
    while ttl <= MAX_HOPS
      invariant 1 <= ttl <= MAX_HOPS + 1 && FirstStopFrom(dest, vs, ttl - 1) == FirstStop(dest, vs)
      invariant template == EchoTemplate(pid) && OnTemplate(sendbuf[..], template)
      invariant lines == TraceLines(vs, ttl - 1) && requests == SentUpTo(template, vs, ttl - 1)
      invariant status == 0
    {
      var stop;
      stop, status, lines, requests := TraceStepAt(sendbuf, dest, template, vs, hops[ttl - 1], ttl, lines, requests);
      if stop {
        return;
      }
      ttl := ttl + 1;
    }
    NeverStops(dest, vs);
  }
}
