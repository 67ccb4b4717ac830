/** The client's `main`: read the candidates, ping them all, measure the
    throughput of the best `pingCount`, sort again and report the best
    `downloadCount`. Flags arrive as parameters; the network as outcomes. */
module Client {
  import opened Ranking
  import opened Probes
  import opened Dispatch
  import opened Sources
  import opened Stages
  import Sorting

  /** The number of nodes `ping` returns for the candidates. */
  function PingedCount(file: FileRead, replies: seq<Reply>, pingRoutine: int): (n: nat)
    ensures n <= |Candidates(file, replies)|
  {
    if pingRoutine > 0 then |Candidates(file, replies)| else 0
  }

  /** Every candidate address can be put into the ping request's URL;
      otherwise the ping goroutine panics (`httpGet`). */
  predicate AllControlFree(ips: seq<string>)
  {
    forall k :: 0 <= k < |ips| ==> ControlFree(ips[k])
  }

  /** `list[:pingCount]` and `list[i]` for every `i < downloadCount` stay
      inside a list of `n` nodes; otherwise `main` panics. */
  predicate InBounds(n: nat, pingCount: int, downloadCount: int)
  {
    0 <= pingCount <= n && downloadCount <= n
  }

  /** `main`. The slice `list[:pingCount]` and the reads `list[i]` for
      `i < downloadCount` must stay inside the list, and neither stage may be
      given a negative number of workers. `shortlist` is the list as `ping`
      sorted it, `ranked` the list after the second sort. */
  method Run(file: FileRead, replies: seq<Reply>,
             pingNet: string -> PingOutcome, streamNet: string -> StreamOutcome,
             pingRoutine: int, pingCount: int, downloadRoutine: int, downloadCount: int)
    returns (report: seq<Node>, ghost shortlist: seq<Node>, ghost ranked: seq<Node>)
    requires 0 <= pingRoutine && 0 <= downloadRoutine
    requires |Candidates(file, replies)| + pingRoutine <= MaxInt32 + 1
    requires pingRoutine > 0 ==> AllControlFree(Candidates(file, replies))
    requires InBounds(PingedCount(file, replies, pingRoutine), pingCount, downloadCount)
    requires pingCount + downloadRoutine <= MaxInt32 + 1
    ensures Sorted(shortlist)
    ensures multiset(shortlist) ==
      multiset(if pingRoutine > 0 then Pinged(Candidates(file, replies), pingNet) else [])
    ensures Sorted(ranked) && |ranked| == PingedCount(file, replies, pingRoutine)
    ensures multiset(ranked) == multiset(SpeedResult(shortlist, pingCount, downloadRoutine, streamNet))
    ensures |report| == if downloadCount < 0 then 0 else downloadCount
    ensures report == ranked[..|report|]
  {
    var ips := ReadIps(file, replies);
    var list, _, _ := Ping(ips, pingRoutine, pingNet);
    shortlist := list[..];
    var _, _ := Speed(list, pingCount, downloadRoutine, streamNet);
    Sorting.Sort(list);
    var sorted := list[..];
    ranked := sorted;
    report := [];
    var i := 0;
    while i < downloadCount
      invariant 0 <= i <= (if downloadCount < 0 then 0 else downloadCount)
      invariant report == sorted[..i]
    {
      report := report + [sorted[i]];
      i := i + 1;
    }
  }

  /** With the default flags (`-pn 50`, `-dn 20`) any candidate file of
      fewer than 50 lines sends `main` out of bounds, whatever `-p` is. */
  lemma {:induction false} DefaultFlagsOverrunShortFile(text: string, replies: seq<Reply>, pingRoutine: int)
    requires Newlines(text) + 1 < 50
    ensures !InBounds(PingedCount(Contents(text), replies, pingRoutine), 50, 20)
  {
    SplitShape(text);
  }

  /** A file written with CRLF line ends keeps the carriage return at the end
      of every line but the last, and such a line is no address `httpGet`
      can build a request for: a two-line CRLF file already makes `ping`
      panic. */
  lemma {:induction false} CrlfFileBreaksPing(a: string, b: string, replies: seq<Reply>)
    requires NoNewline(a) && NoNewline(b)
    ensures Candidates(Contents(a + "\r\n" + b), replies) == [a + "\r", b]
    ensures !AllControlFree(Candidates(Contents(a + "\r\n" + b), replies))
  {
    var first := a + "\r";
    assert NoNewline(first) by {
      forall k | 0 <= k < |first| ensures first[k] != Newline {
        if k < |a| { assert first[k] == a[k]; }
      }
    }
    SplitJoin([first, b]);
    assert Join([first, b]) == a + "\r\n" + b;
    assert first[|a|] == '\r';
    assert !ControlFree(first);
  }

  /** `n` clamped into `[0, limit]`. */
  function Clamp(n: int, limit: nat): (r: nat)
    ensures r <= limit
    ensures 0 <= n <= limit ==> r == n
    ensures n < 0 ==> r == 0
    ensures limit < n ==> r == limit
  {
    if n < 0 then 0 else if n < limit then n else limit
  }

  /** `main` with the two counts clamped to the list, as `toChannel` clamps its
      `maxCount`: it never goes out of bounds, and each funnel yields at most
      its configured size and at most its input. */
  method RunClamped(file: FileRead, replies: seq<Reply>,
                    pingNet: string -> PingOutcome, streamNet: string -> StreamOutcome,
                    pingRoutine: int, pingCount: int, downloadRoutine: int, downloadCount: int)
    returns (report: seq<Node>, ghost shortlist: seq<Node>, ghost ranked: seq<Node>)
    requires 0 <= pingRoutine && 0 <= downloadRoutine
    requires |Candidates(file, replies)| + pingRoutine <= MaxInt32 + 1
    requires |Candidates(file, replies)| + downloadRoutine <= MaxInt32 + 1
    requires pingRoutine > 0 ==> AllControlFree(Candidates(file, replies))
    ensures Sorted(shortlist)
    ensures multiset(shortlist) ==
      multiset(if pingRoutine > 0 then Pinged(Candidates(file, replies), pingNet) else [])
    ensures Sorted(ranked) && |ranked| == PingedCount(file, replies, pingRoutine)
    ensures multiset(ranked) == multiset(SpeedResult(shortlist,
      Clamp(pingCount, PingedCount(file, replies, pingRoutine)), downloadRoutine, streamNet))
    ensures |report| == Clamp(downloadCount, PingedCount(file, replies, pingRoutine))
    ensures report == ranked[..|report|]
  {
    var n := PingedCount(file, replies, pingRoutine);
    report, shortlist, ranked :=
      Run(file, replies, pingNet, streamNet, pingRoutine, Clamp(pingCount, n), downloadRoutine, Clamp(downloadCount, n));
  }
}
