/** The endpoint record and the ranking order of the speed-test client. */
module Ranking {

  /** One candidate address with its measurements: `time` is the HTTP latency
      in milliseconds, `speed` the download throughput in KB/s (0 until measured
      or when the measurement failed). */
  datatype Node = Node(ip: string, time: int, speed: real)

  /** The comparator of the node list: higher speed first, equal speed broken
      by lower latency. There is no third key. */
  predicate Less(a: Node, b: Node)
    ensures Less(a, b) ==> a.speed >= b.speed
    ensures Less(a, b) <==> a.speed > b.speed || (a.speed == b.speed && a.time < b.time)
  {
    if a.speed < b.speed then false
    else if a.speed > b.speed then true
    else a.time < b.time
  }

  /** Neither node ranks ahead of the other. */
  predicate Tied(a: Node, b: Node)
  {
    !Less(a, b) && !Less(b, a)
  }

  /** No later element ranks ahead of an earlier one. */
  predicate Sorted(s: seq<Node>)
  {
    forall i, j :: 0 <= i < j < |s| ==> !Less(s[j], s[i])
  }

  lemma LessIsIrreflexive(a: Node)
    ensures !Less(a, a)
  {
  }

  lemma LessIsAsymmetric(a: Node, b: Node)
    ensures Less(a, b) ==> !Less(b, a)
  {
  }

  lemma LessIsTransitive(a: Node, b: Node, c: Node)
    ensures Less(a, b) && Less(b, c) ==> Less(a, c)
  {
  }

  /** Two nodes are tied exactly when they agree on both keys; the address
      plays no part in the order. */
  lemma TiedIffSameKeys(a: Node, b: Node)
    ensures Tied(a, b) <==> a.speed == b.speed && a.time == b.time
  {
  }

  /** Being tied is transitive, so `Less` is a strict weak order. */
  lemma TiedIsTransitive(a: Node, b: Node, c: Node)
    ensures Tied(a, b) && Tied(b, c) ==> Tied(a, c)
  {
  }

  /** ... but not a strict total order: distinct nodes can be tied. */
  lemma LessIsNotTotal()
    ensures exists a: Node, b: Node :: a != b && Tied(a, b)
  {
    var a := Node("192.0.2.1", 10, 0.0);
    var b := Node("192.0.2.2", 10, 0.0);
    assert a != b && Tied(a, b);
  }

  /** While every speed is still 0 (after the latency stage), a sorted list
      has non-decreasing latencies. */
  lemma SortedByLatencyWhenSpeedsEqual(s: seq<Node>)
    requires Sorted(s)
    requires forall k :: 0 <= k < |s| ==> s[k].speed == 0.0
    ensures forall i, j :: 0 <= i < j < |s| ==> s[i].time <= s[j].time
  {
  }

  /** In a sorted list speeds never increase. */
  lemma SortedSpeedsDecrease(s: seq<Node>)
    requires Sorted(s)
    ensures forall i, j :: 0 <= i < j < |s| ==> s[i].speed >= s[j].speed
  {
  }
}
