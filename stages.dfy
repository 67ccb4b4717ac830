/** The two measurement stages of the client. Each runs `routine` workers
    that draw indices from one shared counter until a draw falls outside the
    input; the goroutines are sequentialised here by letting any worker that
    is still running take the next turn. */
module Stages {
  import opened Ranking
  import opened Probes
  import opened Dispatch
  import Sorting

  /** The node `ping` records for one address: its latency, speed still 0.
      An address whose request cannot be built counts as a failed probe;
      `Ping` itself requires that this never happens, as the code panics. */
  function PingNode(ip: string, net: string -> PingOutcome): (n: Node)
    ensures n.ip == ip && n.speed == 0.0
    ensures n.time == MaxInt16 <==> !ControlFree(ip) || PingFails(net(ip))
  {
    Node(ip, HttpGetChecked(ip, net(ip)), 0.0)
  }

  /** One pinged node per address, in input order: each carries its own
      address and speed 0, and the sentinel latency exactly when its probe
      failed; a probe that succeeded took less than the timeout. */
  function Pinged(ips: seq<string>, net: string -> PingOutcome): (nodes: seq<Node>)
    ensures |nodes| == |ips|
    ensures forall k :: 0 <= k < |ips| ==>
      nodes[k].ip == ips[k] && nodes[k].speed == 0.0 &&
      (nodes[k].time == MaxInt16 <==> !ControlFree(ips[k]) || PingFails(net(ips[k])))
    ensures forall k :: 0 <= k < |ips| && ControlFree(ips[k]) && !PingFails(net(ips[k])) ==>
      nodes[k].time < 1500
  {
    seq(|ips|, k requires 0 <= k < |ips| => PingNode(ips[k], net))
  }

  /** The worker goroutines of `ping` and the channel they feed: every
      address is probed once, by whichever worker draws its index, and its
      node is collected. With no worker, nothing is probed. `handed` is the
      sequence of indices that were probed, in order; `dispensed` is every
      value the counter handed out. */
  method PingWorkers(ips: seq<string>, routine: int, net: string -> PingOutcome)
    returns (results: seq<Node>, ghost handed: seq<int>, ghost dispensed: seq<int>)
    requires 0 <= routine                       // sync.WaitGroup.Add panics on a negative count
    requires routine > 0 ==> forall k :: 0 <= k < |ips| ==> ControlFree(ips[k])   // else httpGet panics
    requires |ips| + routine <= MaxInt32 + 1    // the int32 counter never wraps
    ensures results == if routine > 0 then Pinged(ips, net) else []
    ensures handed == if routine > 0 then Iota(|ips|) else []
    ensures dispensed == if routine > 0 then Iota(|ips| + routine) else []
  {
    var ops := new Dispenser();
    var running := Workers(routine);
    WorkersCount(routine);
    results := [];
    handed, dispensed := [], [];
    while running != {}
      invariant |running| <= routine
      invariant ops.ops + 1 == |dispensed| == |results| + (routine - |running|)
      invariant dispensed == Iota(|dispensed|)
      invariant handed == Iota(|results|)
      invariant |results| <= |ips|
      invariant |running| < routine ==> |results| == |ips|
      invariant routine == 0 ==> results == []
      invariant forall k :: 0 <= k < |results| ==> results[k] == PingNode(ips[k], net)
      decreases |running|, |ips| - |results|
    {
      var worker :| worker in running;
      var index := ops.Next();
      IotaSnoc(|dispensed|);
      dispensed := dispensed + [index];
      if index < |ips| {
        var ip := ips[index];
        var time := HttpGet(net(ip));
        IotaSnoc(|results|);
        results := results + [Node(ip, time, 0.0)];
        handed := handed + [index];
      } else {
        assert |running - {worker}| == |running| - 1;
        running := running - {worker};
      }
    }
    assert results == if routine > 0 then Pinged(ips, net) else [];
  }

  /** `ping`: probes every address once and returns the nodes sorted by the
      ranking order. With no worker at all, nothing is probed and the list is
      empty. `handed` and `dispensed` are as in `PingWorkers`. */
  method Ping(ips: seq<string>, routine: int, net: string -> PingOutcome)
    returns (list: array<Node>, ghost handed: seq<int>, ghost dispensed: seq<int>)
    requires 0 <= routine                       // sync.WaitGroup.Add panics on a negative count
    requires routine > 0 ==> forall k :: 0 <= k < |ips| ==> ControlFree(ips[k])   // else httpGet panics
    requires |ips| + routine <= MaxInt32 + 1    // the int32 counter never wraps
    ensures fresh(list)
    ensures list.Length == if routine > 0 then |ips| else 0
    ensures Sorted(list[..])
    ensures multiset(list[..]) == multiset(if routine > 0 then Pinged(ips, net) else [])
    ensures handed == if routine > 0 then Iota(|ips|) else []
    ensures dispensed == if routine > 0 then Iota(|ips| + routine) else []
  {
    var results;
    results, handed, dispensed := PingWorkers(ips, routine, net);
    list := new Node[|results|](k requires 0 <= k < |results| => results[k]);
    assert list[..] == results;
    Sorting.Sort(list);
  }

  /** A node after its throughput probe: only `speed` changes. */
  function Measured(node: Node, net: string -> StreamOutcome): (n: Node)
    ensures n.ip == node.ip && n.time == node.time
    ensures !net(node.ip).Received? ==> n.speed == 0.0
    ensures net(node.ip).Received? ==> n.speed == net(node.ip).rateKBps
  {
    node.(speed := SpeedTest(net(node.ip)))
  }

  /** The list after `speed` ran on its first `count` nodes with `routine`
      workers. */
  function SpeedResult(list: seq<Node>, count: int, routine: int, net: string -> StreamOutcome): (after: seq<Node>)
    ensures |after| == |list|
  {
    seq(|list|, k requires 0 <= k < |list| =>
      if k < count && routine > 0 then Measured(list[k], net) else list[k])
  }

  /** `speed` on the slice `list[:count]`: measures the throughput of every
      node of the slice once and writes it into that node's `speed`. */
  method Speed(list: array<Node>, count: int, routine: int, net: string -> StreamOutcome)
    returns (ghost handed: seq<int>, ghost dispensed: seq<int>)
    requires 0 <= count <= list.Length             // the slice bound
    requires 0 <= routine                          // sync.WaitGroup.Add panics on a negative count
    requires count + routine <= MaxInt32 + 1       // the int32 counter never wraps
    modifies list
    ensures list[..] == SpeedResult(old(list[..]), count, routine, net)
    ensures handed == if routine > 0 then Iota(count) else []
    ensures dispensed == if routine > 0 then Iota(count + routine) else []
  {
    var ops := new Dispenser();
    var running := Workers(routine);
    WorkersCount(routine);
    var done := 0;
    handed, dispensed := [], [];
    while running != {}
      invariant |running| <= routine
      invariant 0 <= done <= count
      invariant ops.ops + 1 == |dispensed| == done + (routine - |running|)
      invariant dispensed == Iota(|dispensed|)
      invariant handed == Iota(done)
      invariant |running| < routine ==> done == count
      invariant routine == 0 ==> done == 0
      invariant forall k :: 0 <= k < list.Length ==>
        list[k] == if k < done then Measured(old(list[k]), net) else old(list[k])
      decreases |running|, count - done
    {
      var worker :| worker in running;
      var index := ops.Next();
      IotaSnoc(|dispensed|);
      dispensed := dispensed + [index];
      if index < count {
        list[index] := list[index].(speed := SpeedTest(net(list[index].ip)));
        IotaSnoc(done);
        done := done + 1;
        handed := handed + [index];
      } else {
        assert |running - {worker}| == |running| - 1;
        running := running - {worker};
      }
    }
    assert list[..] == SpeedResult(old(list[..]), count, routine, net);
  }

  /** After `ping` has sorted its nodes, every node whose probe failed comes
      after every node that answered: the first funnel keeps responders. */
  lemma {:induction false} RespondersFirst(ips: seq<string>, net: string -> PingOutcome, s: seq<Node>, i: int, j: int)
    requires Sorted(s)
    requires multiset(s) == multiset(Pinged(ips, net))
    requires 0 <= i < j < |s|
    requires s[i].time == MaxInt16
    ensures s[j].time == MaxInt16
  {
    forall n | n in s ensures n.speed == 0.0 && n.time <= MaxInt16 {
      assert n in multiset(Pinged(ips, net));
      var k :| 0 <= k < |ips| && Pinged(ips, net)[k] == n;
    }
    assert s[i] in s && s[j] in s;
    assert !Less(s[j], s[i]);
  }

  /** `speed` writes only the `speed` field, and only of the first `count`
      nodes; with no worker it writes nothing. */
  lemma SpeedFrame(list: seq<Node>, count: int, routine: int, net: string -> StreamOutcome)
    ensures forall k :: 0 <= k < |list| ==>
      SpeedResult(list, count, routine, net)[k].ip == list[k].ip &&
      SpeedResult(list, count, routine, net)[k].time == list[k].time
    ensures forall k :: 0 <= k < |list| && (count <= k || routine <= 0) ==>
      SpeedResult(list, count, routine, net)[k] == list[k]
    ensures forall k :: 0 <= k < |list| && k < count && routine > 0 ==>
      SpeedResult(list, count, routine, net)[k].speed == SpeedTest(net(list[k].ip))
  {
  }
}
