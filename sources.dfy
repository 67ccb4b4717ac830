/** Where the candidate addresses come from: the lines of a local file, or,
    when the file cannot be read, the A records that a list of resolvers
    return for the host. */
module Sources {

  const Newline: char := '\n'

  /** Go's `strings.Split(s, "\n")`: the segments between newlines, empty ones
      included, none of them trimmed. An empty text gives one empty segment. */
  function Split(s: string): (parts: seq<string>)
    ensures |parts| >= 1
    decreases |s|
  {
    if s == [] then [""]
    else
      var rest := Split(s[1..]);
      if s[0] == Newline then [""] + rest
      else [[s[0]] + rest[0]] + rest[1..]
  }

  /** `strings.Join(parts, "\n")`, the partner of `Split`. */
  function Join(parts: seq<string>): (s: string)
    requires |parts| >= 1
  {
    if |parts| == 1 then parts[0] else parts[0] + [Newline] + Join(parts[1..])
  }

  /** The number of newlines in `s`. */
  function Newlines(s: string): (n: nat)
    ensures n <= |s|
  {
    if s == [] then 0 else (if s[0] == Newline then 1 else 0) + Newlines(s[1..])
  }

  /** `s` holds no newline. */
  predicate NoNewline(s: string)
  {
    forall k :: 0 <= k < |s| ==> s[k] != Newline
  }

  /** Splitting yields one segment more than there are newlines, and no
      segment holds a newline. */
  lemma {:induction false} SplitShape(s: string)
    ensures |Split(s)| == Newlines(s) + 1
    ensures forall k :: 0 <= k < |Split(s)| ==> NoNewline(Split(s)[k])
    decreases |s|
  {
    if s != [] {
      SplitShape(s[1..]);
    }
  }

  /** Nothing is lost or trimmed: joining the segments back gives the text. */
  lemma {:induction false} JoinSplit(s: string)
    ensures Join(Split(s)) == s
    decreases |s|
  {
    if s != [] {
      var rest := Split(s[1..]);
      JoinSplit(s[1..]);
      if s[0] == Newline {
        assert Split(s) == [""] + rest;
        assert Split(s)[1..] == rest;
      } else {
        var parts := Split(s);
        assert parts == [[s[0]] + rest[0]] + rest[1..];
        if |rest| == 1 {
          assert Join(parts) == [s[0]] + rest[0];
        } else {
          assert parts[1..] == rest[1..];
          assert Join(parts) == [s[0]] + rest[0] + [Newline] + Join(rest[1..]);
          assert Join(rest) == rest[0] + [Newline] + Join(rest[1..]);
        }
      }
    }
  }

  /** `Split` of a text that starts with a known character. */
  lemma SplitCons(c: char, t: string)
    ensures Split([c] + t) ==
      if c == Newline then [""] + Split(t) else [[c] + Split(t)[0]] + Split(t)[1..]
  {
    assert ([c] + t)[1..] == t;
  }

  /** Taking the first character off the first line. */
  lemma JoinCons(parts: seq<string>)
    requires |parts| >= 1 && parts[0] != []
    ensures Join(parts) == [parts[0][0]] + Join([parts[0][1..]] + parts[1..])
  {
    var shorter := [parts[0][1..]] + parts[1..];
    assert parts[0] == [parts[0][0]] + parts[0][1..];
    if |parts| > 1 {
      assert shorter[1..] == parts[1..];
    }
  }

  /** Conversely, lines without newlines come back unchanged from `Split`. */
  lemma {:induction false} SplitJoin(parts: seq<string>)
    requires |parts| >= 1
    requires forall k :: 0 <= k < |parts| ==> NoNewline(parts[k])
    ensures Split(Join(parts)) == parts
    decreases |parts|, |parts[0]|
  {
    if parts[0] == [] {
      if |parts| > 1 {
        SplitJoin(parts[1..]);
        assert Join(parts) == [Newline] + Join(parts[1..]);
        SplitCons(Newline, Join(parts[1..]));
      }
    } else {
      var c := parts[0][0];
      var shorter := [parts[0][1..]] + parts[1..];
      assert NoNewline(parts[0]);
      forall k | 0 <= k < |shorter| ensures NoNewline(shorter[k]) {
        if k > 0 { assert shorter[k] == parts[k]; }
      }
      SplitJoin(shorter);
      JoinCons(parts);
      SplitCons(c, Join(shorter));
      assert [c] + shorter[0] == parts[0];
      assert shorter[1..] == parts[1..];
    }
  }

  /** What reading the candidate file gives: its text, or nothing when it
      cannot be read. */
  datatype FileRead = Contents(text: string) | Unreadable

  /** A resource record of a DNS answer section; only A records are kept. */
  datatype Record = A(addr: string) | OtherType

  /** What one resolver did with the A query: no response at all, a response
      with a failure rcode, or a successful answer section. */
  datatype Reply = NoResponse | Failure | Answered(answer: seq<Record>)

  /** The addresses of the A records among `rs`, in order. */
  function ARecords(rs: seq<Record>): (addrs: seq<string>)
    ensures |addrs| <= |rs|
  {
    if rs == [] then []
    else ARecords(rs[..|rs| - 1]) + (if rs[|rs| - 1].A? then [rs[|rs| - 1].addr] else [])
  }

  /** The addresses taken from an answer section are exactly those of its A
      records; records of other types contribute nothing. */
  lemma {:induction false} ARecordsSpec(rs: seq<Record>)
    ensures forall x :: x in ARecords(rs) <==> exists k :: 0 <= k < |rs| && rs[k] == A(x)
  {
    if rs != [] {
      var init := rs[..|rs| - 1];
      ARecordsSpec(init);
      forall x ensures x in ARecords(rs) <==> exists k :: 0 <= k < |rs| && rs[k] == A(x) {
        if x in ARecords(init) {
          var k :| 0 <= k < |init| && init[k] == A(x);
          assert rs[k] == A(x);
        }
        if exists k :: 0 <= k < |rs| && rs[k] == A(x) {
          var k :| 0 <= k < |rs| && rs[k] == A(x);
          if k < |init| {
            assert init[k] == A(x);
          }
        }
      }
    }
  }

  /** The address strings the replies carry, in the order they are read:
      resolver by resolver, then record by record. */
  function Answers(replies: seq<Reply>): (addrs: seq<string>)
  {
    if replies == [] then []
    else
      var last := replies[|replies| - 1];
      Answers(replies[..|replies| - 1]) + (if last.Answered? then ARecords(last.answer) else [])
  }

  /** `x` appended to `acc` unless it is already there: the values become
      those of `acc` plus `x`, a list without duplicates stays so, and what
      was already in the list keeps its place. */
  function AddNew(acc: seq<string>, x: string): (r: seq<string>)
    ensures forall y :: y in r <==> y in acc || y == x
    ensures Distinct(acc) ==> Distinct(r)
    ensures |acc| <= |r| <= |acc| + 1 && r[..|acc|] == acc
  {
    if x in acc then acc else acc + [x]
  }

  /** The order-preserving deduplication of `s`: each value at its first
      occurrence. */
  function Dedup(s: seq<string>): (r: seq<string>)
    ensures |r| <= |s|
  {
    if s == [] then [] else AddNew(Dedup(s[..|s| - 1]), s[|s| - 1])
  }

  /** No value occurs twice. */
  predicate Distinct(s: seq<string>)
  {
    forall i, j :: 0 <= i < j < |s| ==> s[i] != s[j]
  }

  /** The position of the first occurrence of `x` in `s`. */
  function FirstIndex(s: seq<string>, x: string): (k: nat)
    requires x in s
    ensures k < |s| && s[k] == x && x !in s[..k]
  {
    if s[0] == x then 0 else 1 + FirstIndex(s[1..], x)
  }

  /** `Dedup` keeps exactly the values of its input, each once, in the order
      of their first occurrences. */
  lemma {:induction false} DedupSpec(s: seq<string>)
    ensures Distinct(Dedup(s))
    ensures forall x :: x in Dedup(s) <==> x in s
    ensures forall i, j :: 0 <= i < j < |Dedup(s)| ==>
      FirstIndex(s, Dedup(s)[i]) < FirstIndex(s, Dedup(s)[j])
  {
    if s != [] {
      var init, x := s[..|s| - 1], s[|s| - 1];
      assert s == init + [x];
      DedupSpec(init);
      var d := Dedup(init);
      forall y | y in init ensures FirstIndex(s, y) == FirstIndex(init, y) {
        FirstIndexPrefix(init, [x], y);
      }
      if x !in d {
        assert x !in init;
        assert FirstIndex(s, x) == |init| by {
          assert s[..|init|] == init;
        }
        forall i | 0 <= i < |d| ensures FirstIndex(s, d[i]) < FirstIndex(s, x) {
          assert d[i] in init;
        }
      }
    }
  }

  /** Appending after `s` does not move a first occurrence inside `s`. */
  lemma {:induction false} FirstIndexPrefix(s: seq<string>, t: seq<string>, x: string)
    requires x in s
    ensures x in s + t && FirstIndex(s + t, x) == FirstIndex(s, x)
  {
    if s[0] != x {
      assert (s + t)[1..] == s[1..] + t;
      FirstIndexPrefix(s[1..], t, x);
    }
  }

  /** Adding one more value to the input adds it to the deduplication unless
      it was seen before. */
  lemma DedupSnoc(s: seq<string>, x: string)
    ensures Dedup(s + [x]) == AddNew(Dedup(s), x)
  {
    assert (s + [x])[..|s|] == s;
  }

  /** The addresses of the first `a` records, one record at a time. */
  lemma ARecordsPrefix(rs: seq<Record>, a: nat)
    requires a <= |rs|
    ensures a == 0 ==> ARecords(rs[..a]) == []
    ensures 0 < a ==>
      ARecords(rs[..a]) == ARecords(rs[..a - 1]) + (if rs[a - 1].A? then [rs[a - 1].addr] else [])
  {
    if 0 < a {
      assert rs[..a][..a - 1] == rs[..a - 1];
    }
  }

  /** The search with its `flag`: true when `x` is not yet in `ips`. */
  method IsNew(ips: seq<string>, x: string) returns (flag: bool)
    ensures flag <==> x !in ips
  {
    flag := true;
    var k := 0;
    while k < |ips|
      invariant 0 <= k <= |ips|
      invariant flag <==> x !in ips[..k]
      invariant !flag ==> x in ips
    {
      if ips[k] == x {
        flag := false;
        break;
      }
      k := k + 1;
    }
    assert flag ==> ips[..k] == ips;
  }

  /** The records of the answer section, taken one at a time: each A record's
      address is appended to `ips` unless the inner search finds it there
      already. `seen` is every address read before this answer. */
  method AddAnswer(ips: seq<string>, ghost seen: seq<string>, answer: seq<Record>)
    returns (ips': seq<string>)
    requires ips == Dedup(seen)
    ensures ips' == Dedup(seen + ARecords(answer))
  {
    ips' := ips;
    var a := 0;
    ARecordsPrefix(answer, 0);
    assert seen + [] == seen;
    while a < |answer|
      invariant 0 <= a <= |answer|
      invariant ips' == Dedup(seen + ARecords(answer[..a]))
    {
      if answer[a].A? {
        var x := answer[a].addr;
        var flag := IsNew(ips', x);
        AddStep(seen, answer, a, ips', flag);
        if flag {
          ips' := ips' + [x];
        }
      } else {
        AddStep(seen, answer, a, ips', false);
      }
      a := a + 1;
    }
    assert answer[..a] == answer;
  }

  /** One record of `AddAnswer`: an A record whose address the search did not
      find is appended, anything else leaves the list as it is, and either way
      the list stays the dedup of everything read. */
  lemma AddStep(seen: seq<string>, answer: seq<Record>, a: nat, ips: seq<string>, flag: bool)
    requires a < |answer|
    requires ips == Dedup(seen + ARecords(answer[..a]))
    requires answer[a].A? ==> (flag <==> answer[a].addr !in ips)
    requires !answer[a].A? ==> !flag
    ensures (if flag then ips + [answer[a].addr] else ips) == Dedup(seen + ARecords(answer[..a + 1]))
  {
    ARecordsPrefix(answer, a + 1);
    var read := seen + ARecords(answer[..a]);
    if answer[a].A? {
      var x := answer[a].addr;
      DedupSnoc(read, x);
      assert seen + ARecords(answer[..a + 1]) == read + [x];
    } else {
      assert seen + ARecords(answer[..a + 1]) == read;
    }
  }

  /** `findIp` after the exchanges: the replies of the resolvers in the order
      they were asked; a missing or failed reply is skipped, and the A records
      of an answer are added by `AddAnswer`. */
  method FindIp(replies: seq<Reply>) returns (ips: seq<string>)
    ensures ips == Dedup(Answers(replies))
  {
    ips := [];
    var r := 0;
    while r < |replies|
      invariant 0 <= r <= |replies|
      invariant ips == Dedup(Answers(replies[..r]))
    {
      var reply := replies[r];
      assert replies[..r + 1][..r] == replies[..r];
      assert Answers(replies[..r + 1]) ==
        Answers(replies[..r]) + (if reply.Answered? then ARecords(reply.answer) else []);
      if reply.Answered? {
        ips := AddAnswer(ips, Answers(replies[..r]), reply.answer);
      } else {
        assert Answers(replies[..r + 1]) == Answers(replies[..r]);
      }
      r := r + 1;
    }
    assert replies[..r] == replies;
  }

  /** The candidate list `readIps` produces: every line of the file, or, when
      the file cannot be read, the deduplicated A-record addresses. */
  function Candidates(file: FileRead, replies: seq<Reply>): (ips: seq<string>)
  {
    match file
    case Contents(text) => Split(text)
    case Unreadable => Dedup(Answers(replies))
  }

  /** What the candidate list promises: a readable file yields one untrimmed
      entry per line, blank lines included, that join back to the file's
      text; otherwise every address the resolvers answered, each once, in
      the order first seen. */
  lemma CandidatesSpec(file: FileRead, replies: seq<Reply>)
    ensures file.Contents? ==>
      |Candidates(file, replies)| == Newlines(file.text) + 1 &&
      Join(Candidates(file, replies)) == file.text
    ensures file.Unreadable? ==>
      Distinct(Candidates(file, replies)) &&
      (forall x :: x in Candidates(file, replies) <==> x in Answers(replies))
  {
    match file
    case Contents(text) =>
      SplitShape(text);
      JoinSplit(text);
    case Unreadable =>
      DedupSpec(Answers(replies));
  }

  /** An empty file still yields one candidate, the empty address. */
  lemma EmptyFileOneBlankCandidate(replies: seq<Reply>)
    ensures Candidates(Contents(""), replies) == [""]
  {
  }

  /** `readIps`: copies the segments of the file one by one, or falls back to
      `findIp` when the file cannot be read. */
  method ReadIps(file: FileRead, replies: seq<Reply>) returns (ips: seq<string>)
    ensures ips == Candidates(file, replies)
  {
    if file.Unreadable? {
      ips := FindIp(replies);
    } else {
      var split := Split(file.text);
      ips := [];
      var k := 0;
      while k < |split|
        invariant 0 <= k <= |split|
        invariant ips == split[..k]
      {
        ips := ips + [split[k]];
        k := k + 1;
      }
      assert split[..k] == split;
    }
  }
}
