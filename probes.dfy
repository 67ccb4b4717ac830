/** The two network probes, with the network itself reduced to the outcome
    of one attempt. */
module Probes {
  import opened Ranking

  /** `math.MaxInt16`, the latency recorded for an address that did not answer. */
  const MaxInt16: int := 32767

  /** The HTTP client's timeout, in milliseconds. */
  const PingTimeoutMs: real := 1500.0

  /** What one `GET /204` to an address does: the connection fails, or the
      response arrives after `elapsedMs` milliseconds. */
  datatype PingOutcome = Unreachable | Responded(elapsedMs: real)

  /** What one bulk download over the secure websocket does: the dial (or
      handshake) fails, reading the message fails, or the message arrives
      at the measured rate in KB/s. */
  datatype StreamOutcome = DialFailed | ReadFailed | Received(rateKBps: real)

  /** The request fails: no connection, or no answer within the timeout. */
  predicate PingFails(o: PingOutcome)
  {
    o.Unreachable? || o.elapsedMs >= PingTimeoutMs
  }

  /** Go's conversion of a float to `int`, which truncates toward zero. */
  function Truncate(x: real): (n: int)
    ensures 0.0 <= x ==> n as real <= x < n as real + 1.0
    ensures x < 0.0 ==> n as real - 1.0 < x <= n as real
  {
    if x >= 0.0 then x.Floor else -((-x).Floor)
  }

  /** `httpGet`: the latency in whole milliseconds, or the sentinel 32767 when
      the request fails. The sentinel is recorded exactly for the failures: a
      request that succeeds took less than the timeout, far below 32767. */
  function HttpGet(o: PingOutcome): (ms: int)
    ensures ms == MaxInt16 <==> PingFails(o)
    ensures !PingFails(o) ==> ms < 1500
    ensures !PingFails(o) && 0.0 <= o.elapsedMs ==> ms as real <= o.elapsedMs < ms as real + 1.0
  {
    if PingFails(o) then MaxInt16 else Truncate(o.elapsedMs)
  }

  /** `http.NewRequest` can build the request for `https://<ip>/204`: the
      URL parser refuses any ASCII control character (below 0x20, or 0x7f).
      When it refuses, `httpGet` ignores the error and sets a header on the
      nil request, which panics. */
  predicate ControlFree(ip: string)
  {
    forall k :: 0 <= k < |ip| ==> ' ' <= ip[k] && ip[k] != '\U{7F}'
  }

  /** `httpGet` with the error of `http.NewRequest` checked: an address whose
      request cannot be built gets the failure sentinel like an unreachable
      one, instead of a panic. Where the request builds, it agrees with
      `HttpGet`. */
  function HttpGetChecked(ip: string, o: PingOutcome): (ms: int)
    ensures ms == MaxInt16 <==> !ControlFree(ip) || PingFails(o)
    ensures ms <= MaxInt16
    ensures ControlFree(ip) ==> ms == HttpGet(o)
  {
    if ControlFree(ip) then HttpGet(o) else MaxInt16
  }

  /** `speedTest`: the measured rate, or 0 when the dial or the read fails. */
  function SpeedTest(o: StreamOutcome): (kbps: real)
    ensures (o.DialFailed? || o.ReadFailed?) ==> kbps == 0.0
    ensures o.Received? ==> kbps == o.rateKBps
  {
    match o
    case DialFailed => 0.0
    case ReadFailed => 0.0
    case Received(rate) => rate
  }

  /** With all speeds equal, a node whose latency probe failed never ranks
      ahead of one whose probe succeeded, and the answering one ranks first. */
  lemma FailedPingRanksLast(a: Node, b: Node, oa: PingOutcome, ob: PingOutcome)
    requires a.time == HttpGet(oa) && PingFails(oa)
    requires b.time == HttpGet(ob) && !PingFails(ob)
    requires a.speed == b.speed
    ensures Less(b, a) && !Less(a, b)
  {
  }

  /** A node whose throughput probe failed ranks behind every node that
      measured a positive throughput, whatever their latencies. */
  lemma FailedDownloadRanksLast(a: Node, b: Node, oa: StreamOutcome)
    requires a.speed == SpeedTest(oa) && !oa.Received?
    requires b.speed > 0.0
    ensures Less(b, a) && !Less(a, b)
  {
  }
}
